/**
 The chained hash table of the iterator-debugging database (libcxx/src/debug.cpp).
 `__libcpp_db` holds two of them, one of container nodes and one of iterator nodes,
 with the same insertion, growth, search and unlinking code; here they share one class.
 */
module ChainTable {
  import opened Collections
  import NextPrime
  import opened PrimeLimits
  import opened Primes

  /** The address of a container or of an iterator. */
  type Ptr = nat

  /** `calloc` cannot give a bucket array of this many pointers in a 64-bit address space. */
  const MAX_BUCKETS: nat := 0x2000_0000_0000_0000

  /** The next bucket count after `count` is too large for the address space. */
  ghost predicate GrowthFails(count: nat) {
    forall p :: 2 * count + 1 <= p < MAX_BUCKETS ==> !IsPrime(p)
  }

  /** A table with fewer elements than this can always grow. */
  const LARGE: nat := 0x7FFF_FFFE

  lemma GrowthSucceeds(count: nat)
    requires count < LARGE
    ensures !GrowthFails(count)
  {
    LimitIsPrime(Bits32);
    assert 2 * count + 1 <= Limit(Bits32) < MAX_BUCKETS;
  }

  class Node<D> {
    const key: Ptr
    const data: D
    var next: Node?<D>

    constructor (key: Ptr, next: Node?<D>, data: D)
      ensures this.key == key && this.next == next && this.data == data
    {
      this.key := key;
      this.next := next;
      this.data := data;
    }
  }

  function Bucket(hash: Ptr -> nat, p: Ptr, n: nat): (b: nat)
    requires n > 0
    ensures b < n
  {
    hash(p) % n
  }

  function First<D>(s: seq<Node<D>>): (r: Node?<D>) {
    if s == [] then null else s[0]
  }

  function After<D>(s: seq<Node<D>>, k: nat): (r: Node?<D>) {
    if k + 1 < |s| then s[k + 1] else null
  }

  /** Which nodes sit in which chain: every node once, in the chain of its hash bucket. */
  ghost predicate Placed<D>(chains: seq<seq<Node<D>>>, nodes: map<Ptr, Node<D>>, hash: Ptr -> nat) {
    && (forall p :: p in nodes ==>
        nodes[p].key == p && |chains| > 0 && nodes[p] in chains[Bucket(hash, p, |chains|)])
    && (forall h, k :: 0 <= h < |chains| && 0 <= k < |chains[h]| ==> Belongs(chains[h][k], h, |chains|, nodes, hash))
    && (forall h :: 0 <= h < |chains| ==> Distinct(chains[h]))
  }

  ghost predicate Belongs<D>(n: Node<D>, h: nat, count: nat, nodes: map<Ptr, Node<D>>, hash: Ptr -> nat) {
    n.key in nodes && nodes[n.key] == n && count > 0 && Bucket(hash, n.key, count) == h
  }

  /** `s` is the list that starts at `head`. */
  ghost predicate IsChain<D>(head: Node?<D>, s: seq<Node<D>>)
    reads (set n | n in s)`next
  {
    head == First(s) && forall k {:trigger s[k].next} :: 0 <= k < |s| ==> s[k].next == After(s, k)
  }

  ghost predicate TableOk<D>(heads: seq<Node?<D>>, chains: seq<seq<Node<D>>>, nodes: map<Ptr, Node<D>>,
      hash: Ptr -> nat)
    reads nodes.Values`next
  {
    && |heads| == |chains|
    && Placed(chains, nodes, hash)
    && forall h :: 0 <= h < |chains| ==> IsChain(heads[h], chains[h])
  }

  /** Node `n` is the one at position `k` of chain `h`. */
  ghost predicate OccursAt<D>(chains: seq<seq<Node<D>>>, n: Node<D>, h: nat, k: nat) {
    h < |chains| && k < |chains[h]| && chains[h][k] == n
  }

  lemma PlacedOnce<D>(chains: seq<seq<Node<D>>>, nodes: map<Ptr, Node<D>>, hash: Ptr -> nat, p: Ptr)
    requires Placed(chains, nodes, hash) && p in nodes
    ensures |chains| > 0 && exists k :: OccursAt(chains, nodes[p], Bucket(hash, p, |chains|), k)
    ensures forall h: nat, k: nat, g: nat, j: nat ::
              OccursAt(chains, nodes[p], h, k) && OccursAt(chains, nodes[p], g, j) ==> h == g && k == j
  {
    var n := nodes[p];
    var b := Bucket(hash, p, |chains|);
    var i :| 0 <= i < |chains[b]| && chains[b][i] == n;
    assert OccursAt(chains, n, b, i);
    forall h: nat, k: nat | OccursAt(chains, n, h, k)
      ensures h == b && k == i
    {
      assert Belongs(chains[h][k], h, |chains|, nodes, hash);
    }
  }

  lemma PlacedPush<D>(chains: seq<seq<Node<D>>>, nodes: map<Ptr, Node<D>>, hash: Ptr -> nat, q: Node<D>)
    requires Placed(chains, nodes, hash) && q.key !in nodes && |chains| > 0
    ensures var h := Bucket(hash, q.key, |chains|);
            Placed(chains[h := [q] + chains[h]], nodes[q.key := q], hash)
  {
  }

  lemma PlacedRemove<D>(chains: seq<seq<Node<D>>>, nodes: map<Ptr, Node<D>>, hash: Ptr -> nat, h: nat, k: nat)
    requires Placed(chains, nodes, hash) && h < |chains| && k < |chains[h]|
    ensures Placed(chains[h := Without(chains[h], k)], nodes - {chains[h][k].key}, hash)
  {
  }

  /** Linking a new node in front of its bucket's chain. */
  lemma PushFront<D>(heads: seq<Node?<D>>, chains: seq<seq<Node<D>>>, nodes: map<Ptr, Node<D>>, hash: Ptr -> nat,
      q: Node<D>)
    requires TableOk(heads, chains, nodes, hash) && q.key !in nodes && |chains| > 0
    requires q.next == heads[Bucket(hash, q.key, |chains|)]
    ensures var h := Bucket(hash, q.key, |chains|);
            TableOk(heads[h := q], chains[h := [q] + chains[h]], nodes[q.key := q], hash)
  {
    PlacedPush(chains, nodes, hash, q);
    var h := Bucket(hash, q.key, |chains|);
    ChainPush(heads[h], chains[h], q);
  }

  lemma ChainPush<D>(head: Node?<D>, s: seq<Node<D>>, q: Node<D>)
    requires IsChain(head, s) && q.next == head
    ensures IsChain(q, [q] + s)
  {
  }

  lemma ChainPop<D>(head: Node?<D>, s: seq<Node<D>>)
    requires IsChain(head, s) && s != []
    ensures head == s[0] && IsChain(s[0].next, s[1..])
  {
  }

  /** Unlinking the first node of a chain. */
  lemma PopFront<D>(heads: seq<Node?<D>>, chains: seq<seq<Node<D>>>, nodes: map<Ptr, Node<D>>, hash: Ptr -> nat, h: nat)
    requires TableOk(heads, chains, nodes, hash) && h < |chains| && chains[h] != []
    ensures var q := chains[h][0];
            heads[h] == q && q.key in nodes && nodes[q.key] == q &&
            TableOk(heads[h := q.next], chains[h := chains[h][1..]], nodes - {q.key}, hash)
  {
    assert Belongs(chains[h][0], h, |chains|, nodes, hash);
    PlacedRemove(chains, nodes, hash, h, 0);
    assert Without(chains[h], 0) == chains[h][1..];
    ChainPop(heads[h], chains[h]);
  }

  lemma EmptyTableOk<D>(heads: seq<Node?<D>>, chains: seq<seq<Node<D>>>, hash: Ptr -> nat)
    requires |heads| == |chains|
    requires forall h :: 0 <= h < |chains| ==> heads[h] == null && chains[h] == []
    ensures TableOk(heads, chains, map[], hash)
  {
    assert Placed(chains, map[], hash);
  }

  /** `nodes` is shared out between the nodes already moved and the ones still to move. */
  ghost predicate Split<D>(nodes: map<Ptr, Node<D>>, done: map<Ptr, Node<D>>, todo: map<Ptr, Node<D>>) {
    done.Keys !! todo.Keys && nodes == done + todo
  }

  lemma SplitMove<D>(nodes: map<Ptr, Node<D>>, done: map<Ptr, Node<D>>, todo: map<Ptr, Node<D>>, q: Node<D>)
    requires Split(nodes, done, todo) && q.key in todo && todo[q.key] == q
    ensures Split(nodes, done[q.key := q], todo - {q.key}) && q.key !in done
  {
  }

  lemma SplitStart<D>(nodes: map<Ptr, Node<D>>)
    ensures Split(nodes, map[], nodes)
  {
  }

  lemma SomeChain<D>(heads: seq<Node?<D>>, chains: seq<seq<Node<D>>>, nodes: map<Ptr, Node<D>>, hash: Ptr -> nat)
    requires TableOk(heads, chains, nodes, hash)
    ensures nodes == map[] || exists h :: 0 <= h < |chains| && chains[h] != []
  {
  }

  /** The nodes that a growing table still has to move, as if already unlinked from the old buckets. */
  datatype Pending<D> = Pending(heads: seq<Node?<D>>, chains: seq<seq<Node<D>>>, nodes: map<Ptr, Node<D>>)

  /** The nodes that a growing table has moved. */
  datatype Moved<D> = Moved(chains: seq<seq<Node<D>>>, nodes: map<Ptr, Node<D>>)

  class Table<D> {
    const hash: Ptr -> nat
    var buckets: array<Node?<D>>
    var size: nat
    ghost var chains: seq<seq<Node<D>>>
    ghost var nodes: map<Ptr, Node<D>>
    /** What the table holds, and the objects it is made of. */
    ghost var items: map<Ptr, D>
    ghost var Repr: set<object>

    ghost predicate Consistent()
      reads this, buckets, nodes.Values`next
    {
      |nodes| == size && size <= buckets.Length < MAX_BUCKETS && TableOk(buckets[..], chains, nodes, hash)
    }

    ghost predicate Valid()
      reads this, Repr
      ensures Valid() ==> this in Repr
    {
      && this in Repr && buckets in Repr && (forall p :: p in nodes ==> nodes[p] in Repr)
      && Consistent()
      && items.Keys == nodes.Keys && forall p :: p in nodes ==> nodes[p].data == items[p]
    }

    constructor (hash: Ptr -> nat)
      ensures Valid() && fresh(Repr) && items == map[] && this.hash == hash
    {
      this.hash := hash;
      buckets := new Node?<D>[0];
      size := 0;
      chains := [];
      nodes := map[];
      items := map[];
      new;
      Repr := {this, buckets};
    }

    /**
     The node of every key sits in the chain of its hash bucket, at one position and
     nowhere else, and the table never holds more nodes than it has buckets.
     */
    lemma EachNodeOnce(p: Ptr)
      requires Valid() && p in items
      ensures |items| == size <= buckets.Length && 0 < buckets.Length == |chains|
      ensures exists k :: OccursAt(chains, nodes[p], hash(p) % |chains|, k)
      ensures forall h: nat, k: nat, g: nat, j: nat ::
                OccursAt(chains, nodes[p], h, k) && OccursAt(chains, nodes[p], g, j) ==> h == g && k == j
    {
      assert items.Keys == nodes.Keys;
      PlacedOnce(chains, nodes, hash, p);
    }

    /** Look a key up. */
    method Lookup(key: Ptr) returns (r: Node?<D>)
      requires Valid()
      ensures r == null <==> key !in items
      ensures r != null ==> r.data == items[key]
    {
      r := Find(key);
    }

    /** Insert a new key; false when growing the table throws, which leaves it as it was. */
    method Insert(key: Ptr, data: D) returns (ok: bool)
      requires Valid() && key !in items
      modifies Repr
      ensures Valid() && fresh(Repr - old(Repr))
      ensures !ok <==> old(size == buckets.Length && GrowthFails(buckets.Length))
      ensures !ok ==> old(size) >= LARGE
      ensures items == if ok then old(items)[key := data] else old(items)
    {
      hide TableOk;
      Grows();
      var r := InsertNode(key, data);
      ok := r != null;
      assert buckets in old(Repr) || fresh(buckets);
      if r == null {
        Publish(Repr + {buckets}, items);
      } else {
        var n: Node<D> := r;
        Publish(Repr + {buckets, n}, items[key := data]);
      }
    }

    /** Only a very large table cannot grow. */
    lemma Grows()
      ensures size == buckets.Length && GrowthFails(buckets.Length) ==> size >= LARGE
    {
      if size < LARGE {
        GrowthSucceeds(size);
      }
    }

    ghost method Publish(objects: set<object>, contents: map<Ptr, D>)
      requires Consistent() && this in objects && buckets in objects
      requires forall p :: p in nodes ==> nodes[p] in objects
      requires contents.Keys == nodes.Keys && forall p :: p in nodes ==> nodes[p].data == contents[p]
      modifies this`Repr, this`items
      ensures Valid() && Repr == objects && items == contents
    {
      Repr := objects;
      items := contents;
    }

    /** Remove a key, if it is there. */
    method Erase(key: Ptr) returns (r: Node?<D>)
      requires Valid()
      modifies Repr
      ensures Valid() && Repr == old(Repr)
      ensures r == null <==> key !in old(items)
      ensures r != null ==> r.data == old(items)[key]
      ensures items == old(items) - {key}
    {
      hide TableOk;
      r := Unlink(key);
      Publish(Repr, items - {key});
    }

    method Find(key: Ptr) returns (r: Node?<D>)
      requires Consistent()
      ensures r == if key in nodes then nodes[key] else null
    {
      r := null;
      if buckets.Length != 0 {
        var h := Bucket(hash, key, buckets.Length);
        assert IsChain(buckets[..][h], chains[h]);
        r := buckets[h];
        ghost var k := 0;
        while r != null && r.key != key
          invariant k <= |chains[h]|
          invariant r == if k < |chains[h]| then chains[h][k] else null
          invariant forall j :: 0 <= j < k ==> chains[h][j].key != key
          decreases |chains[h]| - k
        {
          assert chains[h][k].next == After(chains[h], k);
          r := r.next;
          k := k + 1;
        }
        if r != null {
          assert Belongs(chains[h][k], h, |chains|, nodes, hash);
        }
      }
    }

    /** Put `q` in front of its bucket's chain in `table`. */
    method Relink(table: array<Node?<D>>, q: Node<D>, ghost tableChains: seq<seq<Node<D>>>,
        ghost tableNodes: map<Ptr, Node<D>>)
      requires TableOk(table[..], tableChains, tableNodes, hash) && q.key !in tableNodes && table.Length > 0
      modifies table, q`next
      ensures var h := Bucket(hash, q.key, table.Length);
              table[..] == old(table[..])[h := q] &&
              TableOk(table[..], tableChains[h := [q] + tableChains[h]], tableNodes[q.key := q], hash)
    {
      var h := Bucket(hash, q.key, table.Length);
      q.next := table[h];
      PushFront(table[..], tableChains, tableNodes, hash, q);
      table[h] := q;
    }

    /** The state between two moves: nodes of `from` buckets below `p` are all in `table`. */
    ghost predicate Moving(table: array<Node?<D>>, from: array<Node?<D>>, p: nat, done: Moved<D>, todo: Pending<D>)
      reads this, table, from, done.nodes.Values`next, todo.nodes.Values`next
    {
      && table != from
      && TableOk(table[..], done.chains, done.nodes, hash)
      && TableOk(todo.heads, todo.chains, todo.nodes, hash)
      && |todo.chains| == from.Length
      && Split(nodes, done.nodes, todo.nodes)
      && (forall j :: 0 <= j < p && j < from.Length ==> todo.chains[j] == [])
      && (forall j :: p < j < from.Length ==> todo.heads[j] == from[j])
    }

    /** One step of the inner loop: move the first node of bucket `p`. */
    method MoveFirst(table: array<Node?<D>>, from: array<Node?<D>>, p: nat, q: Node<D>, ghost done0: Moved<D>,
        ghost todo0: Pending<D>)
        returns (r: Node?<D>, ghost done: Moved<D>, ghost todo: Pending<D>)
      requires Moving(table, from, p, done0, todo0) && table.Length > 0
      requires p < from.Length && todo0.heads[p] == q
      modifies table, todo0.nodes.Values`next
      ensures Moving(table, from, p, done, todo) && todo.heads[p] == r
      ensures todo.nodes.Values <= todo0.nodes.Values && |todo.nodes| < |todo0.nodes|
    {
      ghost var h := Bucket(hash, q.key, table.Length);
      assert IsChain(todo0.heads[p], todo0.chains[p]);
      PopFront(todo0.heads, todo0.chains, todo0.nodes, hash, p);
      SplitMove(nodes, done0.nodes, todo0.nodes, q);
      r := q.next;
      todo := Pending(todo0.heads[p := r], todo0.chains[p := todo0.chains[p][1..]], todo0.nodes - {q.key});
      Relink(table, q, done0.chains, done0.nodes);
      done := Moved(done0.chains[h := [q] + done0.chains[h]], done0.nodes[q.key := q]);
    }

    /** The inner loop: empty bucket `p` of the old array. */
    method MoveChain(table: array<Node?<D>>, from: array<Node?<D>>, p: nat, ghost done0: Moved<D>,
        ghost todo0: Pending<D>)
        returns (ghost done: Moved<D>, ghost todo: Pending<D>)
      requires Moving(table, from, p, done0, todo0) && table.Length > 0
      requires p < from.Length && todo0.heads[p] == from[p]
      modifies table, todo0.nodes.Values`next
      ensures Moving(table, from, p + 1, done, todo)
      ensures p + 1 < from.Length ==> todo.heads[p + 1] == from[p + 1]
      ensures todo.nodes.Values <= todo0.nodes.Values
    {
      done, todo := done0, todo0;
      var q := from[p];
      while q != null
        invariant Moving(table, from, p, done, todo) && todo.heads[p] == q
        invariant todo.nodes.Values <= todo0.nodes.Values
        decreases |todo.nodes|
      {
        q, done, todo := MoveFirst(table, from, p, q, done, todo);
      }
      MovingNext(table, from, p, done, todo);
    }

    lemma MovingNext(table: array<Node?<D>>, from: array<Node?<D>>, p: nat, done: Moved<D>, todo: Pending<D>)
      requires Moving(table, from, p, done, todo) && p < from.Length && todo.heads[p] == null
      ensures Moving(table, from, p + 1, done, todo)
      ensures p + 1 < from.Length ==> todo.heads[p + 1] == from[p + 1]
    {
      assert IsChain(todo.heads[p], todo.chains[p]);
    }

    /** The outer loop of a rehash: empty every bucket of the old array into `table`. */
    method MoveAll(table: array<Node?<D>>) returns (ghost done: Moved<D>)
      requires Consistent() && table != buckets && table.Length > 0
      requires forall h :: 0 <= h < table.Length ==> table[h] == null
      modifies table, nodes.Values`next
      ensures TableOk(table[..], done.chains, nodes, hash)
    {
      ghost var todo;
      done, todo := MovingStart(table);
      var from, p := buckets, 0;
      while p < from.Length
        invariant p <= from.Length
        invariant Moving(table, from, p, done, todo)
        invariant p < from.Length ==> todo.heads[p] == from[p]
        invariant todo.nodes.Values <= nodes.Values
      {
        done, todo := MoveChain(table, from, p, done, todo);
        p := p + 1;
      }
      MovingEnd(table, from, done, todo);
    }

    /** Move every node to a new bucket array of `nc` buckets. */
    method Rehash(nc: nat)
      requires Consistent() && nc > 0 && size <= nc < MAX_BUCKETS
      modifies this`buckets, this`size, this`chains, this`nodes, nodes.Values`next
      ensures Consistent() && fresh(buckets) && buckets.Length == nc && size == old(size) && nodes == old(nodes)
    {
      var table := new Node?<D>[nc](_ => null);
      ghost var done := MoveAll(table);
      Adopt(table, size, done.chains, nodes);
    }

    /** Take over a consistent bucket array as the table's own. */
    method Adopt(table: array<Node?<D>>, n: nat, ghost tableChains: seq<seq<Node<D>>>,
                 ghost tableNodes: map<Ptr, Node<D>>)
      requires TableOk(table[..], tableChains, tableNodes, hash)
      requires |tableNodes| == n && n <= table.Length < MAX_BUCKETS
      modifies this`buckets, this`size, this`chains, this`nodes
      ensures Consistent() && buckets == table && size == n && chains == tableChains && nodes == tableNodes
    {
      ghost var heads := table[..];
      buckets := table;
      size := n;
      chains := tableChains;
      nodes := tableNodes;
      Established(heads);
    }

    lemma Established(heads: seq<Node?<D>>)
      requires buckets[..] == heads && TableOk(heads, chains, nodes, hash)
      requires |nodes| == size && size <= buckets.Length < MAX_BUCKETS
      ensures Consistent()
    {
    }

    lemma MovingStart(table: array<Node?<D>>) returns (done: Moved<D>, todo: Pending<D>)
      requires Consistent() && table != buckets && (forall h :: 0 <= h < table.Length ==> table[h] == null)
      ensures Moving(table, buckets, 0, done, todo)
      ensures todo == Pending(buckets[..], chains, nodes)
    {
      done := Moved(seq(table.Length, _ => []), map[]);
      todo := Pending(buckets[..], chains, nodes);
      EmptyTableOk(table[..], done.chains, hash);
      SplitStart(nodes);
    }

    lemma MovingEnd(table: array<Node?<D>>, from: array<Node?<D>>, done: Moved<D>, todo: Pending<D>)
      requires Moving(table, from, from.Length, done, todo)
      ensures TableOk(table[..], done.chains, nodes, hash)
    {
      SomeChain(todo.heads, todo.chains, todo.nodes, hash);
      assert done.nodes == nodes;
    }

    /** Make room for one more node; false when growing throws. */
    method Grow() returns (ok: bool)
      requires Consistent()
      modifies this`buckets, this`size, this`chains, this`nodes, nodes.Values`next
      ensures Consistent() && (ok ==> size < buckets.Length) && nodes == old(nodes) && size == old(size)
      ensures !ok <==> old(size == buckets.Length && GrowthFails(buckets.Length))
      ensures buckets == old(buckets) || fresh(buckets)
      ensures buckets == old(buckets) || IsLeastPrimeFrom(buckets.Length, 2 * old(buckets.Length) + 1)
    {
      if size + 1 > buckets.Length {
        var nc := NextPrime.NextPrime(2 * buckets.Length + 1, Bits64);
        if nc.prime >= MAX_BUCKETS {
          return false;
        }
        Rehash(nc.prime);
      }
      return true;
    }

    /** Add a node for a new key, growing the table first when it is full; null when growing throws. */
    method InsertNode(key: Ptr, data: D) returns (r: Node?<D>)
      requires Consistent() && key !in nodes
      modifies this`buckets, this`size, this`chains, this`nodes, buckets, nodes.Values`next
      ensures Consistent()
      ensures r == null <==> old(size == buckets.Length && GrowthFails(buckets.Length))
      ensures r == null ==> nodes == old(nodes)
      ensures r != null ==> fresh(r) && r.key == key && r.data == data && nodes == old(nodes)[key := r]
      ensures buckets == old(buckets) || fresh(buckets)
    {
      var ok := Grow();
      if !ok {
        return null;
      }
      r := Link(key, data);
    }

    /** The part of an insertion after the table has grown. */
    method Link(key: Ptr, data: D) returns (r: Node<D>)
      requires Consistent() && key !in nodes && size < buckets.Length
      modifies this`buckets, this`size, this`chains, this`nodes, buckets
      ensures Consistent() && fresh(r) && r.key == key && r.data == data && nodes == old(nodes)[key := r]
      ensures buckets == old(buckets)
    {
      r := new Node(key, null, data);
      ghost var h := Bucket(hash, key, buckets.Length);
      Relink(buckets, r, chains, nodes);
      Adopt(buckets, size + 1, chains[h := [r] + chains[h]], nodes[key := r]);
    }

    /** Unlink the node of `key`, if there is one; null when there is none. */
    method Unlink(key: Ptr) returns (r: Node?<D>)
      requires Consistent()
      modifies this`buckets, this`size, this`chains, this`nodes, buckets, nodes.Values`next
      ensures Consistent() && buckets == old(buckets)
      ensures r == old(if key in nodes then nodes[key] else null)
      ensures nodes == old(nodes) - {key}
    {
      r := null;
      if buckets.Length == 0 {
        NoNodes(key);
        return;
      }
      var h := Bucket(hash, key, buckets.Length);
      var p, q, k := FindInBucket(key, h);
      if p != null {
        RemoveSize(nodes, key);
        UnlinkAt(p, q, h, k);
        Adopt(buckets, size - 1, chains[h := Without(chains[h], k)], nodes - {key});
        r := p;
      }
    }

    /** Unlink `p` from chain `h`, where `q` is its predecessor or null. */
    method UnlinkAt(p: Node<D>, q: Node?<D>, h: nat, ghost k: nat)
      requires Consistent() && h < |chains| && k < |chains[h]| && chains[h][k] == p
      requires q == if k == 0 then null else chains[h][k - 1]
      modifies buckets, nodes.Values`next
      ensures TableOk(buckets[..], chains[h := Without(chains[h], k)], nodes - {p.key}, hash)
    {
      if q == null {
        UnlinkFirst(p, h);
      } else {
        assert Belongs(chains[h][k - 1], h, |chains|, nodes, hash);
        UnlinkAfter(q, p, h, k);
      }
    }

    lemma NoNodes(key: Ptr)
      requires Consistent() && buckets.Length == 0
      ensures key !in nodes && nodes - {key} == nodes
    {
    }

    /** Walk the chain of bucket `h`: the node of `key`, its predecessor, and its position. */
    method FindInBucket(key: Ptr, h: nat) returns (p: Node?<D>, q: Node?<D>, ghost k: nat)
      requires Consistent() && buckets.Length > 0 && h == Bucket(hash, key, buckets.Length)
      ensures p == null <==> key !in nodes
      ensures p == null ==> nodes - {key} == nodes
      ensures p != null ==> p == nodes[key] && k < |chains[h]| && chains[h][k] == p
      ensures p != null ==> q == if k == 0 then null else chains[h][k - 1]
    {
      assert IsChain(buckets[..][h], chains[h]);
      p, q, k := buckets[h], null, 0;
      while p != null && p.key != key
        invariant k <= |chains[h]|
        invariant p == if k < |chains[h]| then chains[h][k] else null
        invariant q == if k == 0 then null else chains[h][k - 1]
        invariant forall j :: 0 <= j < k ==> chains[h][j].key != key
        decreases |chains[h]| - k
      {
        assert chains[h][k].next == After(chains[h], k);
        q := p;
        p := p.next;
        k := k + 1;
      }
      if p != null {
        assert Belongs(chains[h][k], h, |chains|, nodes, hash);
      }
    }

    /** Unlink `p`, the first node of chain `h`. */
    method UnlinkFirst(p: Node<D>, h: nat)
      requires Consistent() && h < |chains| && chains[h] != [] && chains[h][0] == p
      modifies buckets
      ensures TableOk(buckets[..], chains[h := Without(chains[h], 0)], nodes - {p.key}, hash)
    {
      PopFront(buckets[..], chains, nodes, hash, h);
      assert Without(chains[h], 0) == chains[h][1..];
      buckets[h] := p.next;
    }

    /** Unlink `p`, which sits behind `q` in chain `h`. */
    method UnlinkAfter(q: Node<D>, p: Node<D>, ghost h: nat, ghost k: nat)
      requires Consistent() && h < |chains| && 0 < k < |chains[h]| && chains[h][k - 1] == q && chains[h][k] == p
      modifies q`next
      ensures TableOk(buckets[..], chains[h := Without(chains[h], k)], nodes - {p.key}, hash)
    {
      ghost var heads, s := buckets[..], chains[h];
      assert IsChain(heads[h], s);
      assert q.next == After(s, k - 1) && p.next == After(s, k);
      forall g | 0 <= g < |chains| && g != h
        ensures q !in chains[g]
      {
        InOneChain(h, k - 1, g);
      }
      q.next := p.next;
      assert forall g :: 0 <= g < |chains| && g != h ==> IsChain(heads[g], chains[g]);
      assert forall j :: 0 <= j < |s| && j != k - 1 ==> s[j].next == After(s, j);
      ChainRemove(heads[h], s, k);
      Removed(heads, chains, nodes, hash, h, k);
    }

    lemma InOneChain(h: nat, k: nat, g: nat)
      requires Consistent() && h < |chains| && k < |chains[h]| && g < |chains| && g != h
      ensures chains[h][k] !in chains[g]
    {
      assert Belongs(chains[h][k], h, |chains|, nodes, hash);
      forall j | 0 <= j < |chains[g]|
        ensures chains[g][j] != chains[h][k]
      {
        assert Belongs(chains[g][j], g, |chains|, nodes, hash);
      }
    }
  }

  lemma RemoveSize<V>(m: map<Ptr, V>, p: Ptr)
    requires p in m
    ensures |m - {p}| == |m| - 1
  {
    assert (m - {p}).Keys == m.Keys - {p};
  }

  lemma Removed<D>(heads: seq<Node?<D>>, chains: seq<seq<Node<D>>>, nodes: map<Ptr, Node<D>>, hash: Ptr -> nat,
      h: nat, k: nat)
    requires |heads| == |chains| && Placed(chains, nodes, hash) && h < |chains| && k < |chains[h]|
    requires forall g :: 0 <= g < |chains| && g != h ==> IsChain(heads[g], chains[g])
    requires IsChain(heads[h], Without(chains[h], k))
    ensures TableOk(heads, chains[h := Without(chains[h], k)], nodes - {chains[h][k].key}, hash)
  {
    PlacedRemove(chains, nodes, hash, h, k);
  }

  /** The chain that is left when the predecessor of position `k` points past it. */
  lemma ChainRemove<D>(head: Node?<D>, s: seq<Node<D>>, k: nat)
    requires 0 < k < |s| && head == s[0]
    requires forall j :: 0 <= j < |s| && j != k - 1 ==> s[j].next == After(s, j)
    requires s[k - 1].next == After(s, k)
    ensures IsChain(head, Without(s, k))
  {
  }
}
