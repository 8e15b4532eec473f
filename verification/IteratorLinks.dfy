/**
 The cross links of the iterator-debugging database (libcxx/src/debug.cpp): an iterator
 node points at its container node, and a container node holds a growable array of its
 iterator nodes.  Every operation keeps the two directions in agreement.

 An `__i_node` is a `Node` of the hash table together with its `Iter`, a `__c_node` is a
 `Node` together with its `Cont`.
 */
module IteratorLinks {
  import opened Collections
  import opened ChainTable

  class Iter {
    const key: Ptr
    var c: Cont?

    constructor (key: Ptr)
      ensures this.key == key && c == null
    {
      this.key := key;
      c := null;
    }
  }

  function IndexOf<T(==)>(s: seq<T>, x: T): (k: nat)
    requires x in s
    ensures k < |s| && s[k] == x && x !in s[..k]
  {
    if s[0] == x then 0 else 1 + IndexOf(s[1..], x)
  }

  class Cont {
    const key: Ptr
    /** `[beg_, cap_)`, of which the first `len` slots, `[beg_, end_)`, are in use. */
    var slots: array<Iter?>
    var len: nat
    ghost var contents: seq<Iter>

    ghost predicate Valid()
      reads this, slots
    {
      |contents| == len <= slots.Length && forall k :: 0 <= k < len ==> slots[k] == contents[k]
    }

    constructor (key: Ptr)
      ensures Valid() && this.key == key && contents == [] && fresh(slots)
    {
      this.key := key;
      slots := new Iter?[0];
      len := 0;
      contents := [];
    }

    /** Twice the capacity, or one slot for an array that has none. */
    method Grow()
      requires Valid() && len == slots.Length
      modifies this
      ensures Valid() && contents == old(contents) && len < slots.Length && fresh(slots)
      ensures slots.Length == if old(slots.Length) == 0 then 1 else 2 * old(slots.Length)
    {
      var nc := 2 * slots.Length;
      if nc == 0 {
        nc := 1;
      }
      var beg := new Iter?[nc](_ => null);
      if nc > 1 {
        var k := 0;
        while k < nc / 2
          invariant 0 <= k <= len
          invariant forall j :: 0 <= j < k ==> beg[j] == contents[j]
          modifies beg
        {
          beg[k] := slots[k];
          k := k + 1;
        }
      }
      slots := beg;
      len := nc / 2;
    }

    method Add(i: Iter)
      requires Valid()
      modifies this, slots
      ensures Valid() && contents == old(contents) + [i]
      ensures if old(len < slots.Length) then slots == old(slots)
              else fresh(slots) && slots.Length == if old(slots.Length) == 0 then 1 else 2 * old(slots.Length)
    {
      if len == slots.Length {
        Grow();
      }
      slots[len] := i;
      len := len + 1;
      contents := contents + [i];
    }

    method Find(p: Iter) returns (r: nat)
      requires Valid() && p in contents
      ensures r == IndexOf(contents, p)
    {
      r := 0;
      while slots[r] != p
        invariant r <= IndexOf(contents, p)
        decreases len - r
      {
        assert contents[r] != p;
        r := r + 1;
      }
    }

    method Remove(p: Iter)
      requires Valid() && p in contents
      modifies this, slots
      ensures Valid() && contents == Without(old(contents), IndexOf(old(contents), p))
      ensures slots == old(slots)
    {
      var r := Find(p);
      len := len - 1;
      if len != r {
        var k := r;
        while k < len
          invariant r <= k <= len
          invariant forall j :: 0 <= j < k ==> slots[j] == Without(contents, r)[j]
          invariant forall j :: k < j <= len ==> slots[j] == contents[j]
          modifies slots
        {
          slots[k] := slots[k + 1];
          k := k + 1;
        }
      }
      contents := Without(contents, r);
    }

    /** Drop the last iterator of the array. */
    method Pop() returns (n: Iter)
      requires Valid() && len > 0
      modifies this
      ensures Valid() && slots == old(slots)
      ensures old(contents) == contents + [n]
    {
      len := len - 1;
      n := slots[len];
      contents := contents[..len];
    }
  }

  // ------------------------------------------------------------------ the invariant

  function IterObjects(iters: map<Ptr, Iter>): (r: set<object>) {
    set p | p in iters :: iters[p] as object
  }

  function ContObjects(conts: map<Ptr, Cont>): (r: set<object>) {
    set q | q in conts :: conts[q] as object
  }

  lemma IterObjectsInsert(iters: map<Ptr, Iter>, i: Ptr, n: Iter)
    requires i !in iters
    ensures IterObjects(iters[i := n]) == IterObjects(iters) + {n}
  {
    var m := iters[i := n];
    assert m[i] == n;
    forall o | o in IterObjects(iters)
      ensures o in IterObjects(m)
    {
      var p :| p in iters && iters[p] == o;
      assert m[p] == o;
    }
  }

  lemma ContObjectsInsert(conts: map<Ptr, Cont>, q: Ptr, c: Cont)
    requires q !in conts
    ensures ContObjects(conts[q := c]) == ContObjects(conts) + {c}
    ensures Slots(conts[q := c]) == Slots(conts) + {c.slots}
  {
    var m := conts[q := c];
    assert m[q] == c;
    forall o | o in ContObjects(conts)
      ensures o in ContObjects(m)
    {
      var p :| p in conts && conts[p] == o;
      assert m[p] == o;
    }
    forall o | o in Slots(conts)
      ensures o in Slots(m)
    {
      var p :| p in conts && conts[p].slots == o;
      assert m[p].slots == o;
    }
  }

  lemma IterObjectsRemove(iters: map<Ptr, Iter>, i: Ptr)
    ensures IterObjects(iters - {i}) <= IterObjects(iters)
  {
  }

  lemma ContObjectsRemove(conts: map<Ptr, Cont>, q: Ptr)
    ensures ContObjects(conts - {q}) <= ContObjects(conts)
    ensures Slots(conts - {q}) <= Slots(conts)
  {
  }

  /** An iterator that has a container is listed by it. */
  ghost predicate IterOk(n: Iter, p: Ptr, conts: map<Ptr, Cont>)
    reads n, conts.Values`contents
  {
    n.key == p && (n.c != null ==> n.c.key in conts && conts[n.c.key] == n.c && n in conts[n.c.key].contents)
  }

  /** A container lists iterators of its own, each of them once. */
  ghost predicate ContOk(c: Cont, q: Ptr, iters: map<Ptr, Iter>)
    reads c, c.slots, iters.Values
  {
    && c.key == q && c.Valid() && Distinct(c.contents)
    && forall n :: n in c.contents ==> n.key in iters && iters[n.key] == n && iters[n.key].c == c
  }

  ghost function Slots(conts: map<Ptr, Cont>): (r: set<object>)
    reads ContObjects(conts)
  {
    set q | q in conts :: conts[q].slots
  }

  ghost predicate ArraysApart(conts: map<Ptr, Cont>)
    reads conts.Values`slots
  {
    forall q, r :: q in conts && r in conts && q != r ==> conts[q].slots != conts[r].slots
  }

  ghost predicate Linked(iters: map<Ptr, Iter>, conts: map<Ptr, Cont>)
    reads IterObjects(iters), ContObjects(conts), Slots(conts)
  {
    && (forall p :: p in iters ==> IterOk(iters[p], p, conts))
    && (forall q :: q in conts ==> ContOk(conts[q], q, iters))
    && ArraysApart(conts)
  }

  /** The container an iterator is recorded to belong to. */
  ghost function Target(n: Iter): (r: Option<Ptr>)
    reads n
  {
    if n.c == null then None else Some(n.c.key)
  }

  ghost function Targets(iters: map<Ptr, Iter>): (r: map<Ptr, Option<Ptr>>)
    reads IterObjects(iters)
  {
    map p | p in iters :: Target(iters[p])
  }

  lemma TargetsAre(iters: map<Ptr, Iter>, targets: map<Ptr, Option<Ptr>>)
    requires targets.Keys == iters.Keys && forall p :: p in iters ==> Target(iters[p]) == targets[p]
    ensures Targets(iters) == targets
  {
  }

  // ------------------------------------------------------------------ the operations

  /** Both directions of a new link. */
  method Link(n: Iter, c: Cont)
    requires c.Valid()
    modifies n, c, c.slots
    ensures c.Valid() && c.contents == old(c.contents) + [n] && n.c == c
    ensures c.slots == old(c.slots) || fresh(c.slots)
  {
    c.Add(n);
    n.c := c;
  }

  /** Both directions of a link go. */
  method Unlink(n: Iter, c: Cont)
    requires c.Valid() && n in c.contents
    modifies n, c, c.slots
    ensures c.Valid() && c.contents == Without(old(c.contents), IndexOf(old(c.contents), n)) && n.c == null
    ensures c.slots == old(c.slots)
  {
    c.Remove(n);
    n.c := null;
  }

  method AttachLinks(n: Iter, c: Cont, ghost iters: map<Ptr, Iter>, ghost conts: map<Ptr, Cont>)
    requires Linked(iters, conts) && n.key in iters && iters[n.key] == n && n.c == null
    requires c.key in conts && conts[c.key] == c
    modifies n, c, c.slots
    ensures Linked(iters, conts) && n.c == c
    ensures c.slots == old(c.slots) || fresh(c.slots)
  {
    NotListed(n, c, iters, conts);
    hide Distinct;
    Link(n, c);
    assert ArraysApart(conts) by {
      assert old(ArraysApart(conts));
    }
    forall p | p in iters
      ensures IterOk(iters[p], p, conts)
    {
      assert old(IterOk(iters[p], p, conts));
    }
    forall q | q in conts
      ensures ContOk(conts[q], q, iters)
    {
      assert old(ContOk(conts[q], q, iters));
      assert q != c.key ==> n !in conts[q].contents && conts[q].slots != old(c.slots);
    }
  }

  method Attach(n: Iter, c: Cont, ghost iters: map<Ptr, Iter>, ghost conts: map<Ptr, Cont>)
    requires Linked(iters, conts) && n.key in iters && iters[n.key] == n && n.c == null
    requires c.key in conts && conts[c.key] == c
    modifies n, c, c.slots
    ensures Linked(iters, conts)
    ensures Targets(iters) == old(Targets(iters))[n.key := Some(c.key)]
    ensures c.slots == old(c.slots) || fresh(c.slots)
  {
    KeysMatch(iters, conts);
    hide Linked;
    ghost var targets := Targets(iters)[n.key := Some(c.key)];
    AttachLinks(n, c, iters, conts);
    TargetsAre(iters, targets);
  }

  lemma NotListed(n: Iter, c: Cont, iters: map<Ptr, Iter>, conts: map<Ptr, Cont>)
    requires Linked(iters, conts) && n.key in iters && iters[n.key] == n && n.c == null
    requires c.key in conts && conts[c.key] == c
    ensures c.Valid() && n !in c.contents && Distinct(c.contents + [n])
  {
    assert ContOk(c, c.key, iters);
  }

  lemma WithoutMembers<T>(s: seq<T>, k: nat)
    requires Distinct(s) && k < |s|
    ensures Distinct(Without(s, k))
    ensures forall x :: x in Without(s, k) <==> x in s && x != s[k]
  {
    var t := Without(s, k);
    forall x | x in s && x != s[k]
      ensures x in t
    {
      var j :| 0 <= j < |s| && s[j] == x;
      assert t[if j < k then j else j - 1] == x;
    }
  }

  method ReleaseLinks(n: Iter, c: Cont, ghost iters: map<Ptr, Iter>, ghost conts: map<Ptr, Cont>)
    requires Linked(iters, conts) && n.key in iters && iters[n.key] == n && n.c == c
    modifies c, c.slots
    ensures Linked(iters - {n.key}, conts)
    ensures c.slots == old(c.slots)
  {
    Listed(n, c, iters, conts);
    hide Distinct, IndexOf, Without;
    WithoutMembers(c.contents, IndexOf(c.contents, n));
    c.Remove(n);
    assert forall m :: m in c.contents ==> m in old(c.contents) && m != n;
    forall p | p in iters - {n.key}
      ensures IterOk(iters[p], p, conts)
    {
      assert old(IterOk(iters[p], p, conts));
    }
    forall q | q in conts
      ensures ContOk(conts[q], q, iters - {n.key})
    {
      assert old(ContOk(conts[q], q, iters));
    }
  }

  /** `__c_node::__remove`, from the point of view of an iterator that is about to go. */
  method Release(n: Iter, c: Cont, ghost iters: map<Ptr, Iter>, ghost conts: map<Ptr, Cont>)
    requires Linked(iters, conts) && n.key in iters && iters[n.key] == n && n.c == c
    modifies c, c.slots
    ensures Linked(iters - {n.key}, conts)
    ensures Targets(iters - {n.key}) == old(Targets(iters)) - {n.key}
    ensures c.slots == old(c.slots)
  {
    KeysMatch(iters, conts);
    hide Linked;
    ghost var targets := Targets(iters) - {n.key};
    ReleaseLinks(n, c, iters, conts);
    TargetsAre(iters - {n.key}, targets);
  }

  lemma Listed(n: Iter, c: Cont, iters: map<Ptr, Iter>, conts: map<Ptr, Cont>)
    requires Linked(iters, conts) && n.key in iters && iters[n.key] == n && n.c == c
    ensures c.Valid() && n in c.contents && Distinct(c.contents) && c.key in conts && conts[c.key] == c
  {
    assert IterOk(n, n.key, conts);
    assert ContOk(c, c.key, iters);
  }

  lemma InsertIter(iters: map<Ptr, Iter>, conts: map<Ptr, Cont>, n: Iter)
    requires Linked(iters, conts) && n.key !in iters && n.c == null
    ensures Linked(iters[n.key := n], conts)
    ensures Targets(iters[n.key := n]) == Targets(iters)[n.key := None]
  {
    forall q | q in conts
      ensures ContOk(conts[q], q, iters[n.key := n])
    {
      assert ContOk(conts[q], q, iters);
    }
    forall p | p in iters
      ensures IterOk(iters[p], p, conts)
    {
    }
  }

  lemma InsertCont(iters: map<Ptr, Iter>, conts: map<Ptr, Cont>, c: Cont)
    requires Linked(iters, conts) && c.key !in conts && c.Valid() && c.contents == []
    requires forall q :: q in conts ==> conts[q].slots != c.slots
    ensures Linked(iters, conts[c.key := c])
  {
    forall p | p in iters
      ensures IterOk(iters[p], p, conts[c.key := c])
    {
      assert IterOk(iters[p], p, conts);
    }
    forall q | q in conts
      ensures ContOk(conts[q], q, iters)
    {
    }
  }

  lemma RemoveCont(iters: map<Ptr, Iter>, conts: map<Ptr, Cont>, c: Cont)
    requires Linked(iters, conts) && c.key in conts && conts[c.key] == c && c.contents == []
    ensures Linked(iters, conts - {c.key})
  {
    forall p | p in iters
      ensures IterOk(iters[p], p, conts - {c.key})
    {
      assert IterOk(iters[p], p, conts);
    }
    forall q | q in conts
      ensures ContOk(conts[q], q, iters)
    {
    }
  }

  lemma KeysMatch(iters: map<Ptr, Iter>, conts: map<Ptr, Cont>)
    requires Linked(iters, conts)
    ensures forall p :: p in iters ==> iters[p].key == p
    ensures forall q :: q in conts ==> conts[q].key == q
  {
    forall p | p in iters
      ensures iters[p].key == p
    {
      assert IterOk(iters[p], p, conts);
    }
    forall q | q in conts
      ensures conts[q].key == q
    {
      assert ContOk(conts[q], q, iters);
    }
  }

  lemma ContentsOwned(c: Cont, iters: map<Ptr, Iter>, conts: map<Ptr, Cont>)
    requires Linked(iters, conts) && c.key in conts && conts[c.key] == c
    ensures forall m :: m in c.contents ==> m in IterObjects(iters)
  {
    assert ContOk(c, c.key, iters);
  }

  lemma RemoveIter(iters: map<Ptr, Iter>, conts: map<Ptr, Cont>, n: Iter)
    requires Linked(iters, conts) && n.key in iters && iters[n.key] == n && n.c == null
    ensures Linked(iters - {n.key}, conts)
    ensures Targets(iters - {n.key}) == Targets(iters) - {n.key}
  {
    forall p | p in iters - {n.key}
      ensures IterOk(iters[p], p, conts)
    {
    }
    forall q | q in conts
      ensures ContOk(conts[q], q, iters - {n.key})
    {
      assert ContOk(conts[q], q, iters);
    }
  }

  method DetachLinks(n: Iter, c: Cont, ghost iters: map<Ptr, Iter>, ghost conts: map<Ptr, Cont>)
    requires Linked(iters, conts) && n.key in iters && iters[n.key] == n && n.c == c
    modifies n, c, c.slots
    ensures Linked(iters, conts) && n.c == null
    ensures c.slots == old(c.slots)
  {
    Listed(n, c, iters, conts);
    hide Distinct, IndexOf, Without;
    WithoutMembers(c.contents, IndexOf(c.contents, n));
    Unlink(n, c);
    assert forall m :: m in c.contents ==> m in old(c.contents) && m != n;
    forall p | p in iters
      ensures IterOk(iters[p], p, conts)
    {
      assert old(IterOk(iters[p], p, conts));
    }
    forall q | q in conts
      ensures ContOk(conts[q], q, iters)
    {
      assert old(ContOk(conts[q], q, iters));
    }
  }

  /** Take an iterator off its container; it stays in the database. */
  method Detach(n: Iter, c: Cont, ghost iters: map<Ptr, Iter>, ghost conts: map<Ptr, Cont>)
    requires Linked(iters, conts) && n.key in iters && iters[n.key] == n && n.c == c
    modifies n, c, c.slots
    ensures Linked(iters, conts) && n.c == null
    ensures Targets(iters) == old(Targets(iters))[n.key := None]
    ensures c.slots == old(c.slots)
  {
    KeysMatch(iters, conts);
    hide Linked;
    ghost var targets := Targets(iters)[n.key := None];
    DetachLinks(n, c, iters, conts);
    TargetsAre(iters, targets);
  }

  lemma LastNotBefore<T>(s: seq<T>, x: T)
    requires Distinct(s + [x])
    ensures x !in s && Distinct(s) && forall y :: y in s + [x] <==> y in s || y == x
  {
    assert (s + [x])[|s|] == x;
    forall k | 0 <= k < |s|
      ensures s[k] != x
    {
      assert (s + [x])[k] == s[k];
    }
    forall j, k | 0 <= j < k < |s|
      ensures s[j] != s[k]
    {
      assert (s + [x])[j] == s[j] && (s + [x])[k] == s[k];
    }
  }

  /** One round of the loop: drop the last slot, and clear the iterator that was in it. */
  method PopIter(c: Cont) returns (ghost n: Iter)
    requires c.Valid() && Distinct(c.contents) && c.len > 0
    modifies c, (set m | m in c.contents)`c
    ensures c.Valid() && Distinct(c.contents) && old(c.contents) == c.contents + [n] && c.slots == old(c.slots)
    ensures n.c == null && n !in c.contents
    ensures forall m :: m in c.contents ==> m.c == old(m.c)
  {
    var m := c.Pop();
    n := m;
    LastNotBefore(c.contents, n);
    m.c := null;
  }

  method DetachLastLinks(c: Cont, ghost iters: map<Ptr, Iter>, ghost conts: map<Ptr, Cont>) returns (ghost n: Iter)
    requires Linked(iters, conts) && c.key in conts && conts[c.key] == c && c.len > 0
    modifies c, (set m | m in c.contents)`c
    ensures Linked(iters, conts) && c.slots == old(c.slots) && c.len == old(c.len) - 1
    ensures old(c.contents) == c.contents + [n]
    ensures n.c == null && n.key in iters && iters[n.key] == n
    ensures forall m :: m in c.contents ==> m.c == old(m.c)
  {
    assert ContOk(c, c.key, iters);
    hide Distinct;
    n := PopIter(c);
    assert forall m :: m in c.contents ==> m in old(c.contents) && m != n;
    forall p | p in iters
      ensures IterOk(iters[p], p, conts)
    {
      assert old(IterOk(iters[p], p, conts));
    }
    forall q | q in conts
      ensures ContOk(conts[q], q, iters)
    {
      assert old(ContOk(conts[q], q, iters));
    }
  }

  /** Take the last iterator off a container. */
  method DetachLast(c: Cont, ghost iters: map<Ptr, Iter>, ghost conts: map<Ptr, Cont>) returns (ghost n: Iter)
    requires Linked(iters, conts) && c.key in conts && conts[c.key] == c && c.len > 0
    modifies c, (set m | m in c.contents)`c
    ensures Linked(iters, conts) && c.slots == old(c.slots) && c.len == old(c.len) - 1
    ensures old(c.contents) == c.contents + [n]
    ensures Targets(iters) == old(Targets(iters))[n.key := None]
  {
    KeysMatch(iters, conts);
    hide Linked;
    ghost var before := Targets(iters);
    n := DetachLastLinks(c, iters, conts);
    TargetsAre(iters, before[n.key := None]);
  }

  lemma LastListed(c: Cont, iters: map<Ptr, Iter>, conts: map<Ptr, Cont>)
    requires Linked(iters, conts) && c.key in conts && conts[c.key] == c && c.len > 0
    ensures |c.contents| == c.len
    ensures var p := c.contents[c.len - 1].key; p in iters && Targets(iters)[p] == Some(c.key)
  {
    assert ContOk(c, c.key, iters);
    var n := c.contents[c.len - 1];
    assert n in c.contents;
  }

  /** Forget the container `q` wherever it is recorded. */
  function Forget(targets: map<Ptr, Option<Ptr>>, q: Ptr): (r: map<Ptr, Option<Ptr>>) {
    map p | p in targets :: if targets[p] == Some(q) then None else targets[p]
  }

  lemma ForgetStep(targets: map<Ptr, Option<Ptr>>, p: Ptr, q: Ptr)
    requires p in targets && targets[p] == Some(q)
    ensures Forget(targets[p := None], q) == Forget(targets, q)
  {
  }

  /** The loop of `__invalidate_all` and `__erase_c`. */
  method DetachAll(c: Cont, ghost iters: map<Ptr, Iter>, ghost conts: map<Ptr, Cont>)
    requires Linked(iters, conts) && c.key in conts && conts[c.key] == c
    modifies c, (set m | m in c.contents)`c
    ensures Linked(iters, conts) && c.contents == [] && c.slots == old(c.slots)
    ensures Targets(iters) == Forget(old(Targets(iters)), c.key)
  {
    hide Linked;
    while c.len != 0
      invariant Linked(iters, conts) && c.slots == old(c.slots)
      invariant c.contents <= old(c.contents)
      invariant Forget(Targets(iters), c.key) == Forget(old(Targets(iters)), c.key)
      decreases c.len
    {
      LastListed(c, iters, conts);
      ghost var before := Targets(iters);
      ghost var n := DetachLast(c, iters, conts);
      ForgetStep(before, n.key, c.key);
    }
    NoneListed(c, iters, conts);
  }

  lemma NoneListed(c: Cont, iters: map<Ptr, Iter>, conts: map<Ptr, Cont>)
    requires Linked(iters, conts) && c.key in conts && conts[c.key] == c && c.len == 0
    ensures c.contents == [] && Forget(Targets(iters), c.key) == Targets(iters)
  {
    assert ContOk(c, c.key, iters);
    forall p | p in iters
      ensures Target(iters[p]) != Some(c.key)
    {
      assert IterOk(iters[p], p, conts);
    }
  }

  /** The two containers' iterators change hands. */
  function Exchange(targets: map<Ptr, Option<Ptr>>, a: Ptr, b: Ptr): (r: map<Ptr, Option<Ptr>>) {
    map p | p in targets ::
      if targets[p] == Some(a) then Some(b) else if targets[p] == Some(b) then Some(a) else targets[p]
  }

  /** Point every iterator in a container's array at that container. */
  method SetOwner(c: Cont)
    requires c.Valid()
    modifies (set n | n in c.contents)`c
    ensures forall n :: n in c.contents ==> n.c == c
    ensures c.Valid()
  {
    var p := 0;
    while p < c.len
      invariant 0 <= p <= c.len && c.Valid()
      invariant forall j :: 0 <= j < p ==> c.contents[j].c == c
    {
      c.slots[p].c := c;
      p := p + 1;
    }
  }

  function Other(c: Cont?, c1: Cont, c2: Cont): (r: Cont?) {
    if c == c1 then c2 else if c == c2 then c1 else c
  }

  /** Exchange the arrays of two containers. */
  method SwapSlots(c1: Cont, c2: Cont)
    requires c1.Valid() && c2.Valid()
    modifies c1, c2
    ensures c1.slots == old(c2.slots) && c1.contents == old(c2.contents) && c1.Valid()
    ensures c2.slots == old(c1.slots) && c2.contents == old(c1.contents) && c2.Valid()
  {
    c1.slots, c2.slots := c2.slots, c1.slots;
    c1.len, c2.len := c2.len, c1.len;
    c1.contents, c2.contents := c2.contents, c1.contents;
  }

  /** Exchange the arrays of two containers, and repoint the iterators in them. */
  method SwapArrays(c1: Cont, c2: Cont, ghost iters: map<Ptr, Iter>, ghost conts: map<Ptr, Cont>)
    requires Linked(iters, conts)
    requires c1.key in conts && conts[c1.key] == c1 && c2.key in conts && conts[c2.key] == c2
    modifies c1, c2, (set n | n in c1.contents)`c, (set n | n in c2.contents)`c
    ensures c1.slots == old(c2.slots) && c1.contents == old(c2.contents) && c1.Valid()
    ensures c2.slots == old(c1.slots) && c2.contents == old(c1.contents) && c2.Valid()
    ensures forall p :: p in iters ==> iters[p].c == Other(old(iters[p].c), c1, c2)
    ensures Targets(iters) == Exchange(old(Targets(iters)), c1.key, c2.key)
  {
    assert ContOk(c1, c1.key, iters) && ContOk(c2, c2.key, iters);
    hide Distinct;
    ghost var targets := Exchange(Targets(iters), c1.key, c2.key);
    SwapSlots(c1, c2);
    SetOwner(c1);
    SetOwner(c2);
    forall p | p in iters
      ensures iters[p].c == Other(old(iters[p].c), c1, c2) && Target(iters[p]) == targets[p]
    {
      assert old(IterOk(iters[p], p, conts));
    }
    TargetsAre(iters, targets);
  }

  method SwapContents(c1: Cont, c2: Cont, ghost iters: map<Ptr, Iter>, ghost conts: map<Ptr, Cont>)
    requires Linked(iters, conts)
    requires c1.key in conts && conts[c1.key] == c1 && c2.key in conts && conts[c2.key] == c2
    modifies c1, c2, (set n | n in c1.contents)`c, (set n | n in c2.contents)`c
    ensures Linked(iters, conts)
    ensures c1.slots == old(c2.slots) && c2.slots == old(c1.slots)
    ensures Targets(iters) == Exchange(old(Targets(iters)), c1.key, c2.key)
  {
    hide Distinct;
    SwapArrays(c1, c2, iters, conts);
    forall p | p in iters
      ensures IterOk(iters[p], p, conts)
    {
      assert old(IterOk(iters[p], p, conts));
    }
    forall q | q in conts
      ensures ContOk(conts[q], q, iters)
    {
      if q == c1.key {
        assert old(ContOk(c2, c2.key, iters));
      } else if q == c2.key {
        assert old(ContOk(c1, c1.key, iters));
      } else {
        assert old(ContOk(conts[q], q, iters));
        assert conts[q].Valid() && conts[q].contents == old(conts[q].contents);
      }
    }
  }
}
