/**
 The iterator-debugging database `__libcpp_db` (libcxx/src/debug.cpp), every operation
 of which is proved to refine an operation on a plain map from iterators to containers.
 */
module DebugDb {
  import opened Collections
  import opened ChainTable
  import opened IteratorLinks

  /** What the database records: the container of each iterator, if any, and the containers. */
  datatype View = View(iterators: map<Ptr, Option<Ptr>>, containers: set<Ptr>)

  // -------------------------------------------------- the operations on what is recorded

  function InsertedI(v: View, i: Ptr): (r: View) {
    v.(iterators := v.iterators[i := None])
  }

  function InsertedC(v: View, c: Ptr): (r: View) {
    v.(containers := v.containers + {c})
  }

  /** An iterator of an unknown container is not recorded at all. */
  function InsertedIC(v: View, i: Ptr, c: Ptr): (r: View) {
    if c in v.containers then v.(iterators := v.iterators[i := Some(c)]) else v
  }

  function ErasedI(v: View, i: Ptr): (r: View) {
    v.(iterators := v.iterators - {i})
  }

  function ErasedC(v: View, c: Ptr): (r: View) {
    View(Forget(v.iterators, c), v.containers - {c})
  }

  function Invalidated(v: View, c: Ptr): (r: View) {
    v.(iterators := Forget(v.iterators, c))
  }

  /** Assigning from an unknown iterator makes a known one singular. */
  function Copied(v: View, i: Ptr, i0: Ptr): (r: View) {
    if i0 in v.iterators then v.(iterators := v.iterators[i := v.iterators[i0]])
    else if i in v.iterators then v.(iterators := v.iterators[i := None])
    else v
  }

  function Swapped(v: View, a: Ptr, b: Ptr): (r: View) {
    v.(iterators := Exchange(v.iterators, a, b))
  }

  lemma EmptyLinked()
    ensures Linked(map[], map[]) && Targets(map[]) == map[]
    ensures IterObjects(map[]) == {} && ContObjects(map[]) == {} && Slots(map[]) == {}
  {
  }

  lemma SameSize(s: set<Ptr>, t: set<Ptr>)
    requires s == t
    ensures |s| == |t|
  {
  }

  class Db {
    const itab: Table<Iter>
    const ctab: Table<Cont>

    ghost function LinkObjects(): (r: set<object>)
      reads itab, ctab, ContObjects(ctab.items)
    {
      IterObjects(itab.items) + ContObjects(ctab.items) + Slots(ctab.items)
    }

    /** Every object the database is made of. */
    ghost function Footprint(): (r: set<object>)
      reads itab, ctab, ContObjects(ctab.items)
    {
      itab.Repr + ctab.Repr + LinkObjects()
    }

    ghost predicate Apart()
      reads itab, ctab, ContObjects(ctab.items)
    {
      itab.Repr !! ctab.Repr && LinkObjects() !! itab.Repr && LinkObjects() !! ctab.Repr
    }

    ghost predicate Valid()
      reads itab, itab.Repr, ctab, ctab.Repr, IterObjects(itab.items), ContObjects(ctab.items), Slots(ctab.items)
    {
      itab.Valid() && ctab.Valid() && Apart() && Linked(itab.items, ctab.items)
    }

    ghost function ViewOf(): (r: View)
      reads itab, ctab, IterObjects(itab.items)
    {
      View(Targets(itab.items), ctab.items.Keys)
    }

    constructor (hash: Ptr -> nat)
      ensures Valid() && ViewOf() == View(map[], {}) && fresh(Footprint())
    {
      hide Table.Valid, Linked, Targets;
      itab := new Table(hash);
      ctab := new Table(hash);
      new;
      EmptyLinked();
    }

    /** An iterator node points at a container node exactly when that node lists it, once. */
    lemma LinksAgree()
      requires Valid()
      ensures forall p, q :: p in itab.items && q in ctab.items ==>
                (itab.items[p].c == ctab.items[q] <==> itab.items[p] in ctab.items[q].contents)
      ensures forall q :: q in ctab.items ==> Distinct(ctab.items[q].contents)
      ensures NothingDangles(ViewOf())
    {
      hide Table.Valid;
      forall p, q | p in itab.items && q in ctab.items
        ensures itab.items[p].c == ctab.items[q] <==> itab.items[p] in ctab.items[q].contents
        ensures Distinct(ctab.items[q].contents)
      {
        assert IterOk(itab.items[p], p, ctab.items) && ContOk(ctab.items[q], q, itab.items);
      }
      forall q | q in ctab.items
        ensures Distinct(ctab.items[q].contents)
      {
        assert ContOk(ctab.items[q], q, itab.items);
      }
      forall p | p in itab.items
        ensures Target(itab.items[p]).Some? ==> Target(itab.items[p]).value in ctab.items
      {
        assert IterOk(itab.items[p], p, ctab.items);
      }
    }

    /** The element counts of the tables are the numbers of iterators and containers recorded. */
    lemma SizesAgree()
      requires Valid()
      ensures itab.size == |ViewOf().iterators| && ctab.size == |ViewOf().containers|
    {
      hide Linked;
      SameSize(itab.items.Keys, itab.nodes.Keys);
      SameSize(ctab.items.Keys, ctab.nodes.Keys);
      assert Targets(itab.items).Keys == itab.items.Keys;
    }

    /** `__find_iterator` */
    method FindIterator(i: Ptr) returns (r: Iter?)
      requires Valid()
      ensures r == if i in itab.items then itab.items[i] else null
    {
      var n := itab.Lookup(i);
      r := if n == null then null else n.data;
    }

    /** The search shared by the operations on a container. */
    method FindContainer(c: Ptr) returns (r: Cont?)
      requires Valid()
      ensures r == if c in ctab.items then ctab.items[c] else null
    {
      var n := ctab.Lookup(c);
      r := if n == null then null else n.data;
    }

    /** `__insert_iterator`; null when growing the table throws. */
    method InsertIterator(i: Ptr) returns (r: Iter?)
      requires Valid() && i !in itab.items
      modifies itab.Repr
      ensures Valid() && ctab.items == old(ctab.items)
      ensures fresh(Footprint() - old(Footprint()))
      ensures r == null ==> itab.items == old(itab.items) && Targets(itab.items) == old(Targets(itab.items))
      ensures r == null ==> old(itab.size) >= LARGE
      ensures r != null ==> r.key == i && r.c == null && fresh(r) && itab.items == old(itab.items)[i := r]
      ensures r != null ==> Targets(itab.items) == old(Targets(itab.items))[i := None]
    {
      hide Table.Valid, Linked, Targets;
      var n := new Iter(i);
      var ok := AddIter(n);
      r := if ok then n else null;
    }

    method AddIter(n: Iter) returns (ok: bool)
      requires Valid() && n.key !in itab.items && n.c == null
      requires n !in LinkObjects() && n !in itab.Repr && n !in ctab.Repr
      modifies itab.Repr
      ensures Valid() && ctab.items == old(ctab.items)
      ensures fresh(Footprint() - old(Footprint()) - {n})
      ensures !ok ==> itab.items == old(itab.items) && Targets(itab.items) == old(Targets(itab.items))
      ensures !ok ==> old(itab.size) >= LARGE
      ensures ok ==> itab.items == old(itab.items)[n.key := n]
      ensures ok ==> Targets(itab.items) == old(Targets(itab.items))[n.key := None]
    {
      hide Table.Valid, Linked, Targets;
      ok := itab.Insert(n.key, n);
      if ok {
        IterObjectsInsert(old(itab.items), n.key, n);
        InsertIter(old(itab.items), ctab.items, n);
      }
    }

    /** `__insert_i`; false when growing the table throws. */
    method InsertI(i: Ptr) returns (ok: bool)
      requires Valid() && i !in ViewOf().iterators
      modifies itab.Repr
      ensures Valid()
      ensures fresh(Footprint() - old(Footprint()))
      ensures ViewOf() == if ok then InsertedI(old(ViewOf()), i) else old(ViewOf())
      ensures !ok ==> old(itab.size) >= LARGE
    {
      hide Table.Valid, Linked;
      var n := InsertIterator(i);
      ok := n != null;
    }

    /** `__insert_c`; false when growing the table throws. */
    method InsertC(c: Ptr) returns (ok: bool)
      requires Valid() && c !in ViewOf().containers
      modifies ctab.Repr
      ensures Valid()
      ensures fresh(Footprint() - old(Footprint()))
      ensures ViewOf() == if ok then InsertedC(old(ViewOf()), c) else old(ViewOf())
      ensures !ok ==> old(ctab.size) >= LARGE
    {
      hide Table.Valid, Linked, Targets;
      var n := new Cont(c);
      ok := AddCont(n);
    }

    /** A table and the linked objects may both grow, by objects that were in neither. */
    static lemma StayApart(other: set<object>, table: set<object>, links: set<object>, table': set<object>,
                           links': set<object>, more: set<object>)
      requires other !! table && links !! other && links !! table
      requires (table' - table) !! (other + links + more) && more !! (other + table) && links' <= links + more
      ensures other !! table' && links' !! other && links' !! table'
    {
    }

    method AddCont(n: Cont) returns (ok: bool)
      requires Valid() && n.key !in ctab.items && n.Valid() && n.contents == []
      requires n !in LinkObjects() && n !in itab.Repr && n !in ctab.Repr
      requires n.slots !in LinkObjects() && n.slots !in itab.Repr && n.slots !in ctab.Repr
      modifies ctab.Repr
      ensures Valid() && itab.items == old(itab.items)
      ensures fresh(Footprint() - old(Footprint()) - {n, n.slots})
      ensures ctab.items == if ok then old(ctab.items)[n.key := n] else old(ctab.items)
      ensures !ok ==> old(ctab.size) >= LARGE
      ensures Targets(itab.items) == old(Targets(itab.items))
    {
      hide Table.Valid, Linked, Targets;
      ghost var conts, links, table := ctab.items, LinkObjects(), ctab.Repr;
      ContObjectsInsert(conts, n.key, n);
      ok := ctab.Insert(n.key, n);
      if ok {
        InsertCont(itab.items, conts, n);
      }
      StayApart(itab.Repr, table, links, ctab.Repr, LinkObjects(), {n, n.slots});
    }

    /** Record that iterator node `n` belongs to container node `c`. */
    method Join(n: Iter, c: Cont)
      requires Valid() && n.key in itab.items && itab.items[n.key] == n && n.c == null
      requires c.key in ctab.items && ctab.items[c.key] == c
      modifies LinkObjects()
      ensures Valid() && itab.items == old(itab.items) && ctab.items == old(ctab.items)
      ensures fresh(Footprint() - old(Footprint()))
      ensures Targets(itab.items) == old(Targets(itab.items))[n.key := Some(c.key)]
    {
      hide Table.Valid, Linked, Targets;
      Attach(n, c, itab.items, ctab.items);
    }

    method Leave(n: Iter, c: Cont)
      requires Valid() && n.key in itab.items && itab.items[n.key] == n && n.c == c
      modifies LinkObjects()
      ensures Valid() && itab.items == old(itab.items) && ctab.items == old(ctab.items) && n.c == null
      ensures fresh(Footprint() - old(Footprint()))
      ensures LinkObjects() == old(LinkObjects())
      ensures Targets(itab.items) == old(Targets(itab.items))[n.key := None]
    {
      hide Table.Valid, Linked, Targets;
      Listed(n, c, itab.items, ctab.items);
      Detach(n, c, itab.items, ctab.items);
    }

    /** `__insert_ic`; false when growing the table throws. */
    method InsertIC(i: Ptr, c: Ptr) returns (ok: bool)
      requires Valid() && (c in ViewOf().containers ==> i !in ViewOf().iterators)
      modifies itab.Repr, LinkObjects()
      ensures Valid()
      ensures fresh(Footprint() - old(Footprint()))
      ensures ViewOf() == if ok then InsertedIC(old(ViewOf()), i, c) else old(ViewOf())
      ensures !ok ==> old(itab.size) >= LARGE
    {
      hide Table.Valid, Linked, Targets;
      TargetsKeys();
      var node := FindContainer(c);
      if node == null {
        return true;
      }
      ok := InsertFor(i, node);
    }

    /** Insert an iterator and record that it belongs to container node `node`. */
    method InsertFor(i: Ptr, node: Cont) returns (ok: bool)
      requires Valid() && i !in itab.items && node.key in ctab.items && ctab.items[node.key] == node
      modifies itab.Repr, LinkObjects()
      ensures Valid() && ctab.items == old(ctab.items)
      ensures fresh(Footprint() - old(Footprint()))
      ensures Targets(itab.items) ==
              if ok then old(Targets(itab.items))[i := Some(node.key)] else old(Targets(itab.items))
      ensures !ok ==> old(itab.size) >= LARGE
    {
      hide Table.Valid, Linked, Targets;
      var n := InsertIterator(i);
      ok := n != null;
      if n != null {
        IterObjectsInsert(old(itab.items), i, n);
        Join(n, node);
      }
    }

    lemma TargetsKeys()
      requires Valid()
      ensures ViewOf().iterators.Keys == itab.items.Keys
      ensures forall p :: p in itab.items ==> itab.items[p].key == p
      ensures forall q :: q in ctab.items ==> ctab.items[q].key == q
    {
      KeysMatch(itab.items, ctab.items);
    }

    /** The link of an iterator that has left the table. */
    method Unbind(n: Iter, ghost iters: map<Ptr, Iter>)
      requires Linked(iters, ctab.items) && n.key in iters && iters[n.key] == n
      modifies ContObjects(ctab.items), Slots(ctab.items)
      ensures Linked(iters - {n.key}, ctab.items)
      ensures Targets(iters - {n.key}) == old(Targets(iters)) - {n.key}
      ensures Slots(ctab.items) == old(Slots(ctab.items))
    {
      hide Linked, Targets;
      if n.c != null {
        Listed(n, n.c, iters, ctab.items);
        Release(n, n.c, iters, ctab.items);
      } else {
        RemoveIter(iters, ctab.items, n);
      }
    }

    /** `__erase_i` */
    method EraseI(i: Ptr)
      requires Valid()
      modifies itab.Repr, LinkObjects()
      ensures Valid() && ViewOf() == ErasedI(old(ViewOf()), i)
      ensures fresh(Footprint() - old(Footprint()))
    {
      hide Table.Valid, Linked, Targets;
      TargetsKeys();
      ghost var iters := itab.items;
      var p := itab.Erase(i);
      IterObjectsRemove(iters, i);
      if p == null {
        assert itab.items == iters;
        assert i !in Targets(iters);
      } else {
        Unbind(p.data, iters);
      }
    }

    /** `__erase_c` */
    method EraseC(c: Ptr)
      requires Valid()
      modifies ctab.Repr, LinkObjects()
      ensures Valid() && ViewOf() == ErasedC(old(ViewOf()), c)
      ensures fresh(Footprint() - old(Footprint()))
    {
      hide Table.Valid, Linked, Targets;
      TargetsKeys();
      ghost var conts := ctab.items;
      if c !in conts {
        UnknownContainer(c);
      } else {
        ContentsOwned(conts[c], itab.items, conts);
      }
      var p := ctab.Erase(c);
      if p == null {
        assert ctab.items == conts;
      } else {
        ContObjectsRemove(conts, c);
        DetachAll(p.data, itab.items, conts);
        RemoveCont(itab.items, conts, p.data);
      }
      StayApart(itab.Repr, old(ctab.Repr), old(LinkObjects()), ctab.Repr, LinkObjects(), {});
    }

    lemma UnknownContainer(c: Ptr)
      requires Valid() && c !in ctab.items
      ensures Forget(Targets(itab.items), c) == Targets(itab.items)
    {
      forall p | p in itab.items
        ensures Target(itab.items[p]) != Some(c)
      {
        assert IterOk(itab.items[p], p, ctab.items);
      }
    }

    /** `__invalidate_all` */
    method InvalidateAll(c: Ptr)
      requires Valid()
      modifies LinkObjects()
      ensures Valid() && ViewOf() == Invalidated(old(ViewOf()), c)
      ensures fresh(Footprint() - old(Footprint()))
    {
      hide Table.Valid, Linked, Targets;
      TargetsKeys();
      var p := FindContainer(c);
      if p == null {
        UnknownContainer(c);
      } else {
        ContentsOwned(p, itab.items, ctab.items);
        DetachAll(p, itab.items, ctab.items);
      }
    }

    /** The two containers, once they are found. */
    method SwapFound(p1: Cont, p2: Cont)
      requires Linked(itab.items, ctab.items)
      requires p1.key in ctab.items && ctab.items[p1.key] == p1 && p2.key in ctab.items && ctab.items[p2.key] == p2
      modifies ContObjects(ctab.items), IterObjects(itab.items)
      ensures Linked(itab.items, ctab.items) && Slots(ctab.items) == old(Slots(ctab.items))
      ensures Targets(itab.items) == Exchange(old(Targets(itab.items)), p1.key, p2.key)
    {
      ContentsOwned(p1, itab.items, ctab.items);
      ContentsOwned(p2, itab.items, ctab.items);
      hide Linked, Targets;
      SwapContents(p1, p2, itab.items, ctab.items);
    }

    /** `swap`, which asserts that both containers are in the database. */
    method Swap(c1: Ptr, c2: Ptr)
      requires Valid() && c1 in ViewOf().containers && c2 in ViewOf().containers
      modifies LinkObjects()
      ensures Valid() && ViewOf() == Swapped(old(ViewOf()), c1, c2)
      ensures fresh(Footprint() - old(Footprint()))
    {
      hide Table.Valid, Linked, Targets;
      TargetsKeys();
      var p1 := FindContainer(c1);
      var p2 := FindContainer(c2);
      SwapFound(p1, p2);
    }

    /** `__iterator_copy`; false when growing the table throws. */
    method IteratorCopy(i: Ptr, i0: Ptr) returns (ok: bool)
      requires Valid()
      modifies itab.Repr, LinkObjects()
      ensures Valid()
      ensures fresh(Footprint() - old(Footprint()))
      ensures ViewOf() == if ok then Copied(old(ViewOf()), i, i0) else old(ViewOf())
      ensures !ok ==> old(itab.size) >= LARGE
    {
      hide Table.Valid, Linked, Targets;
      TargetsKeys();
      var n := FindIterator(i);
      var n0 := FindIterator(i0);
      if n != null {
        TargetKnown(n);
      }
      if n0 != null {
        TargetKnown(n0);
      }
      if n == null {
        if n0 == null {
          return true;
        }
        ok := CopyNew(i, n0);
      } else {
        CopyOver(n, if n0 == null then null else n0.c);
        ok := true;
      }
    }

    lemma TargetKnown(n: Iter)
      requires Valid() && n.key in itab.items && itab.items[n.key] == n
      ensures n.key in Targets(itab.items) && Targets(itab.items)[n.key] == Target(n)
      ensures n.c != null ==> n.c.key in ctab.items && ctab.items[n.c.key] == n.c
    {
      assert IterOk(n, n.key, ctab.items);
    }

    /** Copying to an iterator that the database does not know yet. */
    method CopyNew(i: Ptr, n0: Iter) returns (ok: bool)
      requires Valid() && i !in itab.items && n0.key in itab.items && itab.items[n0.key] == n0
      modifies itab.Repr, LinkObjects()
      ensures Valid() && ctab.items == old(ctab.items)
      ensures fresh(Footprint() - old(Footprint()))
      ensures Targets(itab.items) ==
              if ok then old(Targets(itab.items))[i := old(Target(n0))] else old(Targets(itab.items))
      ensures !ok ==> old(itab.size) >= LARGE
    {
      hide Table.Valid, Linked, Targets;
      TargetKnown(n0);
      var c0 := n0.c;
      if c0 != null {
        ok := InsertFor(i, c0);
      } else {
        var n := InsertIterator(i);
        ok := n != null;
      }
    }

    /** Copying over an iterator that the database knows. */
    method CopyOver(n: Iter, c0: Cont?)
      requires Valid() && n.key in itab.items && itab.items[n.key] == n
      requires c0 != null ==> c0.key in ctab.items && ctab.items[c0.key] == c0
      modifies LinkObjects()
      ensures Valid() && ctab.items == old(ctab.items)
      ensures fresh(Footprint() - old(Footprint()))
      ensures Targets(itab.items) == old(Targets(itab.items))[n.key := if c0 == null then None else Some(c0.key)]
    {
      hide Table.Valid, Linked, Targets;
      TargetKnown(n);
      var c := n.c;
      if c != c0 {
        if c != null {
          Leave(n, c);
        }
        if c0 != null {
          Join(n, c0);
        }
      }
    }

    // ---------------------------------------------------------------------- the queries

    /** `__find_c_from_i`, which asserts that the iterator is in the database. */
    method FindContainerOf(i: Ptr) returns (c: Option<Ptr>)
      requires Valid() && i in ViewOf().iterators
      ensures c == ViewOf().iterators[i]
    {
      hide Table.Valid, Linked, Targets;
      TargetsKeys();
      var n := FindIterator(i);
      TargetKnown(n);
      c := if n.c != null then Some(n.c.key) else None;
    }

    /** `__find_c_and_lock`: whether a container is in the database. */
    method KnowsContainer(c: Ptr) returns (found: bool)
      requires Valid()
      ensures found <==> c in ViewOf().containers
    {
      var n := FindContainer(c);
      found := n != null;
    }

    /** `__less_than_comparable`: both iterators belong to one and the same container. */
    method LessThanComparable(i: Ptr, j: Ptr) returns (comparable: bool)
      requires Valid()
      ensures comparable <==>
              i in ViewOf().iterators && j in ViewOf().iterators &&
              ViewOf().iterators[i].Some? && ViewOf().iterators[i] == ViewOf().iterators[j]
    {
      hide Table.Valid, Linked, Targets;
      TargetsKeys();
      var n := FindIterator(i);
      var m := FindIterator(j);
      if n != null {
        TargetKnown(n);
      }
      if m != null {
        TargetKnown(m);
      }
      var ci: Cont? := if n != null then n.c else null;
      var cj: Cont? := if m != null then m.c else null;
      comparable := ci != null && ci == cj;
    }
  }

  // ------------------------------------------------------------- sequences of operations

  datatype Op =
    | OpInsertI(i: Ptr)
    | OpInsertC(c: Ptr)
    | OpInsertIC(i: Ptr, c: Ptr)
    | OpEraseI(i: Ptr)
    | OpEraseC(c: Ptr)
    | OpInvalidateAll(c: Ptr)
    | OpCopy(i: Ptr, i0: Ptr)
    | OpSwap(c: Ptr, c2: Ptr)

  /** Only new keys are inserted, and only known containers are swapped. */
  predicate Legal(v: View, op: Op) {
    match op
    case OpInsertI(i) => i !in v.iterators
    case OpInsertC(c) => c !in v.containers
    case OpInsertIC(i, c) => c in v.containers ==> i !in v.iterators
    case OpSwap(c, c2) => c in v.containers && c2 in v.containers
    case _ => true
  }

  function Step(v: View, op: Op): (r: View) {
    match op
    case OpInsertI(i) => InsertedI(v, i)
    case OpInsertC(c) => InsertedC(v, c)
    case OpInsertIC(i, c) => InsertedIC(v, i, c)
    case OpEraseI(i) => ErasedI(v, i)
    case OpEraseC(c) => ErasedC(v, c)
    case OpInvalidateAll(c) => Invalidated(v, c)
    case OpCopy(i, i0) => Copied(v, i, i0)
    case OpSwap(c, c2) => Swapped(v, c, c2)
  }

  /** Outside `i` nothing changes. */
  ghost predicate SameBut(m: map<Ptr, Option<Ptr>>, m': map<Ptr, Option<Ptr>>, i: Ptr) {
    forall p :: p != i ==> (p in m <==> p in m') && (p in m ==> m[p] == m'[p])
  }

  /** Exactly the iterators of `c` become singular. */
  ghost predicate OnlyForgets(m: map<Ptr, Option<Ptr>>, m': map<Ptr, Option<Ptr>>, c: Ptr) {
    && m.Keys == m'.Keys
    && forall p :: p in m ==> (m[p] == Some(c) ==> m'[p] == None) && (m[p] != Some(c) ==> m'[p] == m[p])
  }

  /** What an operation makes of every single iterator and container. */
  lemma StepPointwise(v: View, op: Op)
    ensures var m, w, m' := v.iterators, Step(v, op), Step(v, op).iterators;
            match op
            case OpInsertI(i) => w.containers == v.containers && SameBut(m, m', i) && i in m' && m'[i] == None
            case OpInsertC(c) => m' == m && forall d :: d in w.containers <==> d == c || d in v.containers
            case OpInsertIC(i, c) =>
              && w.containers == v.containers && SameBut(m, m', i)
              && (c in v.containers ==> i in m' && m'[i] == Some(c)) && (c !in v.containers ==> w == v)
            case OpEraseI(i) => w.containers == v.containers && SameBut(m, m', i) && i !in m'
            case OpEraseC(c) =>
              OnlyForgets(m, m', c) && forall d :: d in w.containers <==> d != c && d in v.containers
            case OpInvalidateAll(c) => w.containers == v.containers && OnlyForgets(m, m', c)
            case OpCopy(i, i0) =>
              && w.containers == v.containers && SameBut(m, m', i)
              && (i in m' <==> i in m || i0 in m)
              && (i0 in m ==> m'[i] == m[i0]) && (i in m && i0 !in m ==> m'[i] == None)
            case OpSwap(a, b) =>
              && w.containers == v.containers && m'.Keys == m.Keys
              && forall p :: p in m ==>
                   && (m'[p] == Some(b) <==> m[p] == Some(a)) && (m'[p] == Some(a) <==> m[p] == Some(b))
                   && (m[p] != Some(a) && m[p] != Some(b) ==> m'[p] == m[p])
  {
  }

  /** A second swap undoes the first, and swapping back and forth names the containers in either order. */
  lemma SwapTwice(v: View, a: Ptr, b: Ptr)
    ensures Step(Step(v, OpSwap(a, b)), OpSwap(a, b)) == v && Step(v, OpSwap(a, b)) == Step(v, OpSwap(b, a))
  {
  }

  function StepAll(v: View, ops: seq<Op>): (r: View)
    decreases |ops|
  {
    if ops == [] then v else StepAll(Step(v, ops[0]), ops[1..])
  }

  predicate LegalAll(v: View, ops: seq<Op>)
    decreases |ops|
  {
    ops != [] ==> Legal(v, ops[0]) && LegalAll(Step(v, ops[0]), ops[1..])
  }

  /** No iterator is recorded to belong to a container that is not there. */
  predicate NothingDangles(v: View) {
    forall i :: i in v.iterators && v.iterators[i].Some? ==> v.iterators[i].value in v.containers
  }

  lemma StepKeepsLinks(v: View, op: Op)
    requires NothingDangles(v) && Legal(v, op)
    ensures NothingDangles(Step(v, op))
  {
  }

  lemma {:induction false} RunKeepsLinks(v: View, ops: seq<Op>)
    requires NothingDangles(v) && LegalAll(v, ops)
    ensures NothingDangles(StepAll(v, ops))
    decreases |ops|
  {
    if ops != [] {
      StepKeepsLinks(v, ops[0]);
      RunKeepsLinks(Step(v, ops[0]), ops[1..]);
    }
  }

  /** An iterator once invalidated stays singular until it is inserted or copied anew. */
  predicate Rebinds(op: Op, i: Ptr) {
    (op.OpInsertI? && op.i == i) || (op.OpInsertIC? && op.i == i) || (op.OpCopy? && op.i == i)
  }

  lemma {:induction false} SingularStays(v: View, ops: seq<Op>, i: Ptr)
    requires i in v.iterators ==> v.iterators[i] == None
    requires forall k :: 0 <= k < |ops| ==> !Rebinds(ops[k], i)
    ensures i in StepAll(v, ops).iterators ==> StepAll(v, ops).iterators[i] == None
    decreases |ops|
  {
    if ops != [] {
      assert !Rebinds(ops[0], i);
      forall k | 0 <= k < |ops[1..]|
        ensures !Rebinds(ops[1..][k], i)
      {
        assert ops[1..][k] == ops[k + 1];
      }
      SingularStays(Step(v, ops[0]), ops[1..], i);
    }
  }

  /** One operation of a run; false when it throws, which leaves the database as it was. */
  method Execute(db: Db, op: Op) returns (ok: bool)
    requires db.Valid() && Legal(db.ViewOf(), op)
    modifies db.Footprint()
    ensures db.Valid() && fresh(db.Footprint() - old(db.Footprint()))
    ensures db.ViewOf() == if ok then Step(old(db.ViewOf()), op) else old(db.ViewOf())
    ensures !ok ==> Size(old(db.ViewOf())) >= LARGE
  {
    db.SizesAgree();
    ok := true;
    match op
    case OpInsertI(i) => ok := db.InsertI(i);
    case OpInsertC(c) => ok := db.InsertC(c);
    case OpInsertIC(i, c) => ok := db.InsertIC(i, c);
    case OpEraseI(i) => db.EraseI(i);
    case OpEraseC(c) => db.EraseC(c);
    case OpInvalidateAll(c) => db.InvalidateAll(c);
    case OpCopy(i, i0) => ok := db.IteratorCopy(i, i0);
    case OpSwap(c, c2) => db.Swap(c, c2);
  }

  function Size(v: View): (r: nat) { |v.iterators| + |v.containers| }

  /** An operation records at most one thing more. */
  lemma StepSize(v: View, op: Op)
    ensures Size(Step(v, op)) <= Size(v) + 1
  {
    var new', old' := Step(v, op).iterators.Keys, v.iterators.Keys;
    if op.OpInsertI? || op.OpInsertIC? || op.OpCopy? {
      assert new' <= old' + {op.i};
      Subset(new', old' + {op.i});
    } else {
      assert new' <= old';
      Subset(new', old');
      if op.OpEraseC? {
        Subset(v.containers - {op.c}, v.containers);
      }
    }
  }

  lemma {:induction false} Subset(s: set<Ptr>, t: set<Ptr>)
    requires s <= t
    ensures |s| <= |t|
    decreases |s|
  {
    if x :| x in s {
      Subset(s - {x}, t - {x});
    }
  }

  lemma {:induction false} StepAllSize(v: View, ops: seq<Op>)
    ensures Size(StepAll(v, ops)) <= Size(v) + |ops|
    decreases |ops|
  {
    hide Size, Step;
    if ops != [] {
      StepSize(v, ops[0]);
      StepAllSize(Step(v, ops[0]), ops[1..]);
    }
  }

  /**
   A whole run, from an empty database: what it records is what the operations say.  It
   only ends early when a table that is larger than any run could make it cannot grow.
   */
  method Run(hash: Ptr -> nat, ops: seq<Op>) returns (db: Db, done: nat)
    requires LegalAll(View(map[], {}), ops)
    ensures done <= |ops| && (done < |ops| ==> |ops| >= LARGE)
    ensures db.Valid() && db.ViewOf() == StepAll(View(map[], {}), ops[..done])
    ensures NothingDangles(db.ViewOf())
  {
    hide Db.Valid, Db.LinkObjects, Db.ViewOf, Step, Legal, NothingDangles, Size;
    db := new Db(hash);
    done := 0;
    ghost var start := View(map[], {});
    assert ops[0..] == ops;
    while done < |ops|
      invariant done <= |ops| && db.Valid() && fresh(db.Footprint())
      invariant db.ViewOf() == StepAll(start, ops[..done])
      invariant LegalAll(db.ViewOf(), ops[done..])
    {
      label L:
      ghost var before := db.Footprint();
      var ok := Execute(db, ops[done]);
      assert forall o :: o in db.Footprint() - before ==> fresh@L(o);
      assert db.Footprint() <= before + (db.Footprint() - before);
      assert fresh(before);
      if !ok {
        StepAllSize(start, ops[..done]);
        StartSize();
        break;
      }
      StepAllLast(start, ops, done);
      assert ops[done..][1..] == ops[done + 1..];
      done := done + 1;
    }
    LegalPrefix(start, ops, done);
    RunKeepsLinks(start, ops[..done]);
  }

  lemma StartSize()
    ensures Size(View(map[], {})) == 0
  {
  }

  lemma {:induction false} StepAllLast(v: View, ops: seq<Op>, k: nat)
    requires k < |ops|
    ensures StepAll(v, ops[..k + 1]) == Step(StepAll(v, ops[..k]), ops[k])
    decreases |ops|
  {
    if k > 0 {
      StepAllLast(Step(v, ops[0]), ops[1..], k - 1);
      assert ops[..k + 1][1..] == ops[1..][..k] && ops[..k][1..] == ops[1..][..k - 1];
    }
  }

  lemma {:induction false} LegalPrefix(v: View, ops: seq<Op>, k: nat)
    requires k <= |ops| && LegalAll(v, ops)
    ensures LegalAll(v, ops[..k])
    decreases |ops|
  {
    if k > 0 {
      LegalPrefix(Step(v, ops[0]), ops[1..], k - 1);
      assert ops[..k][1..] == ops[1..][..k - 1];
    }
  }
}
