/** The hash table of hashtable.c as an object: the header fields, the bucket array that
    `malloc` gives it, and the node heap that its pointers index. Every operation updates
    them in place, as the C functions do, and is proved to take the table from state
    `Model()` to the state the matching function of `TableSpec` gives. */
module HashTables {
  import opened Hashing
  import opened Chains
  import opened TableSpec
  import opened Visits
  import opened Resizes

  /** The prefix of a run that can be placed can be placed. */
  lemma PlaceablePrefix(nodes: seq<Node>, xs: seq<int>, u: seq<int>, dest: int -> int, newCap: int)
    requires Placeable(nodes, xs, dest, newCap) && u <= xs
    ensures Placeable(nodes, u, dest, newCap)
  {
    assert forall j :: 0 <= j < |u| ==> u[j] == xs[j];
  }

  /** What the outer loop of `resizeTable` knows before it walks old bucket `i`: the walk
      so far and the walk extended by that bucket's chain can be placed, the extended walk
      has no node twice, and it is the walk over the first `i + 1` buckets. */
  lemma ConcatReady(nodes: seq<Node>, cs: seq<seq<int>>, i: int, dest: int -> int, newCap: int)
    requires Placeable(nodes, Concat(cs, |cs|), dest, newCap) && Distinct(Concat(cs, |cs|))
    requires 0 <= i <= |cs|
    ensures Placeable(nodes, Concat(cs, i), dest, newCap)
    ensures i < |cs| ==>
      Placeable(nodes, Concat(cs, i) + cs[i], dest, newCap) &&
      Distinct(Concat(cs, i) + cs[i]) && Concat(cs, i) + cs[i] == Concat(cs, i + 1)
  {
    ConcatPrefix(cs, i, |cs|);
    PlaceablePrefix(nodes, Concat(cs, |cs|), Concat(cs, i), dest, newCap);
    if i < |cs| {
      ConcatPrefix(cs, i + 1, |cs|);
      PlaceablePrefix(nodes, Concat(cs, |cs|), Concat(cs, i + 1), dest, newCap);
      DistinctPrefix(Concat(cs, i + 1), Concat(cs, |cs|));
    }
  }

  /** The chains `cs`, walked in order, can be moved into `newCap` new buckets: every node
      lies in the heap and aims inside the new array, and none appears twice. */
  ghost predicate Movable(nodes: seq<Node>, cs: seq<seq<int>>, dest: int -> int, newCap: int)
  {
    Placeable(nodes, Concat(cs, |cs|), dest, newCap) && Distinct(Concat(cs, |cs|))
  }

  /** The heap and the new array once the first `i` chains of `cs` have been moved. */
  ghost function Stage(nodes: seq<Node>, cs: seq<seq<int>>, dest: int -> int, newCap: int, i: int): (seq<Node>, seq<int>)
    requires Movable(nodes, cs, dest, newCap) && 0 <= i <= |cs|
  {
    ConcatReady(nodes, cs, i, dest, newCap);
    Relink(nodes, Concat(cs, i), dest, newCap, false)
  }

  /** The walk of a resizable table can be moved chain by chain: before the first chain
      nothing has moved and the new array is all NULL, and after the last the heap and new
      array are those of the whole walk. */
  lemma StageEnds(s: State, newCap: int)
    requires Resizable(s, newCap)
    ensures var cs, dest := Buckets(s), Reindex(s.capacity, newCap);
      Movable(s.nodes, cs, dest, newCap) &&
      Stage(s.nodes, cs, dest, newCap, 0) == (s.nodes, seq(newCap, _ => Nil)) &&
      Stage(s.nodes, cs, dest, newCap, |cs|) == Relink(s.nodes, Visit(s), dest, newCap, false)
  {
  }

  /** One pass of the inner loop of `resizeTable`, at node `k` of the chain `c` it walks,
      after the walk `u0` of the earlier buckets: the nodes met so far can be placed, the
      current node has not moved yet (its `next` still names the node after it in `c`),
      its new bucket lies in the new array, and placing it extends the walk by one node. */
  lemma MoveStep(nodes: seq<Node>, u0: seq<int>, c: seq<int>, head: int, k: int, dest: int -> int, newCap: int)
    requires Placeable(nodes, u0 + c, dest, newCap) && Distinct(u0 + c) && IsChain(nodes, head, c)
    requires 0 <= k < |c|
    ensures var u := u0 + c[..k];
      var x := c[k];
      Placeable(nodes, u, dest, newCap) && Placeable(nodes, u + [x], dest, newCap) &&
      u + [x] == u0 + c[..k + 1] &&
      0 <= x < |nodes| && 0 <= Target(nodes, x, dest) < newCap &&
      var r := Relink(nodes, u, dest, newCap, false);
      r.0[x].next == After(c, k) && r.0[x].key == nodes[x].key &&
      Relink(nodes, u + [x], dest, newCap, false) == Place(r.0, r.1, x, Target(nodes, x, dest), false)
  {
    var v := u0 + c;
    var x := c[k];
    var u := u0 + c[..k];
    assert u + [x] == u0 + c[..k + 1];
    assert u + [x] <= v;
    PlaceablePrefix(nodes, v, u + [x], dest, newCap);
    PlaceablePrefix(nodes, v, u, dest, newCap);
    DistinctPrefix(u, v);
    assert v[|u|] == x;
    RelinkFrame(nodes, u, dest, newCap, false);
    ChainNext(nodes, head, c, k);
    RelinkLast(nodes, u + [x], dest, newCap, false);
    assert (u + [x])[..|u + [x]| - 1] == u;
  }

  /** The search loop of `get` and `removeKey`, stopped at node `k` of its bucket because
      that node holds the key and none before it does: that node is the first match. */
  lemma SearchHit(s: State, key: int, k: int)
    requires GetDefined(s, key)
    requires var c := Bucket(s, Index(s, key)); 0 <= k < |c| && s.nodes[c[k]].key == key
    requires var c := Bucket(s, Index(s, key)); forall j :: 0 <= j < k ==> s.nodes[c[j]].key != key
    ensures Match(s, key) == k && Get(s, key) == s.nodes[Bucket(s, Index(s, key))[k]].data
  {
    var kv := Entries(s, Index(s, key));
    var p := Position(kv, key);
    assert kv[k].0 == key;
  }

  /** The search loop run off the end of its bucket: no node there holds the key. */
  lemma SearchMiss(s: State, key: int)
    requires GetDefined(s, key)
    requires var c := Bucket(s, Index(s, key)); forall j :: 0 <= j < |c| ==> s.nodes[c[j]].key != key
    ensures Match(s, key) == |Bucket(s, Index(s, key))| && Get(s, key) == -1
  {
    var kv := Entries(s, Index(s, key));
    var p := Position(kv, key);
  }

  /** `removeKey` after it found its key at node `k` of the bucket: the node is unlinked,
      and the table then halves exactly when the load factor has dropped below a quarter
      of the threshold. */
  lemma RemoveHit(s: State, key: int, k: int)
    requires RemoveDefined(s, key) && Match(s, key) == k < |Bucket(s, Index(s, key))|
    ensures var t := Unlink(s, Index(s, key), Bucket(s, Index(s, key))[k]);
      t.capacity > 0 &&
      (Shrinks(t) ==> Resizable(t, t.capacity / 2) && Remove(s, key) == Resize(t, t.capacity / 2)) &&
      (!Shrinks(t) ==> Remove(s, key) == t)
  {
  }

  /** `removeKey` that did not find its key leaves the table as it was. */
  lemma RemoveMiss(s: State, key: int)
    requires RemoveDefined(s, key) && Match(s, key) == |Bucket(s, Index(s, key))|
    ensures Remove(s, key) == s
  {
  }

  class HashTable {
    /** `table`: the bucket array, each slot a pointer into `nodes` or NULL. */
    var table: array<int>
    var capacity: int
    var size: int
    var loadFactorThreshold: real
    /** The nodes that `createNode` has allocated, indexed by pointer; freed ones stay. */
    var nodes: seq<Node>
    /** The nodes that `free` has released. */
    ghost var freed: set<int>

    /** The table as a value. */
    ghost function Model(): State
      reads this, table
    {
      State(table[..], capacity, size, loadFactorThreshold, nodes, freed)
    }

    /** `initHashTable`: an array of `initialCapacity` NULL pointers, size 0. */
    constructor Init(initialCapacity: int, loadFactor: real)
      requires initialCapacity >= 0
      ensures Model() == TableSpec.Init(initialCapacity, loadFactor) && fresh(table)
    {
      var slots := new int[initialCapacity];
      for i := 0 to initialCapacity
        invariant forall j :: 0 <= j < i ==> slots[j] == Nil
      {
        slots[i] := Nil;
      }
      assert slots[..] == seq(initialCapacity, _ => Nil);
      capacity := initialCapacity;
      size := 0;
      loadFactorThreshold := loadFactor;
      table := slots;
      nodes := [];
      freed := {};
    }

    /** `createNode`: a fresh node holding (key, data) with NULL links. */
    method CreateNode(key: int, data: int) returns (x: int)
      modifies this
      ensures x == |old(nodes)| && nodes == old(nodes) + [Node(key, data, Nil, Nil)]
      ensures table == old(table) && capacity == old(capacity) && size == old(size)
      ensures loadFactorThreshold == old(loadFactorThreshold) && freed == old(freed)
    {
      x := |nodes|;
      nodes := nodes + [Node(key, data, Nil, Nil)];
    }

    /** `resizeTable`: a fresh array of `newCapacity` NULL pointers, every node moved to
        the head of the new bucket its hash picks, and the new array and capacity
        installed. The hash reads the capacity still in the header, the old one. */
    method ResizeTable(newCapacity: int)
      requires Resizable(Model(), newCapacity)
      modifies this
      ensures Model() == Resize(old(Model()), newCapacity) && fresh(table)
    {
      ghost var s := Model();
      var newTable := new int[newCapacity];
      for i := 0 to newCapacity
        invariant table == old(table) && Model() == s
        invariant forall j :: 0 <= j < i ==> newTable[j] == Nil
      {
        newTable[i] := Nil;
      }
      assert newTable[..] == seq(newCapacity, _ => Nil);
      StageEnds(s, newCapacity);
      MoveNodes(s.nodes, Buckets(s), newTable);
      table := newTable;
      capacity := newCapacity;
    }

    /** The outer loop of `resizeTable`: the chains `cs` of the old buckets, in bucket
        order, are moved from the old heap `nodes0` into the empty new array `newTable`. */
    method MoveNodes(ghost nodes0: seq<Node>, ghost cs: seq<seq<int>>, newTable: array<int>)
      requires newTable != table && |cs| == capacity == table.Length
      requires forall b :: 0 <= b < |cs| ==> IsChain(nodes0, table[b], cs[b])
      requires Movable(nodes0, cs, Reindex(capacity, newTable.Length), newTable.Length)
      requires (nodes, newTable[..]) == Stage(nodes0, cs, Reindex(capacity, newTable.Length), newTable.Length, 0)
      modifies this`nodes, newTable
      ensures (nodes, newTable[..]) == Stage(nodes0, cs, Reindex(capacity, newTable.Length), newTable.Length, |cs|)
    {
      ghost var dest := Reindex(capacity, newTable.Length);
      for i := 0 to capacity
        invariant (nodes, newTable[..]) == Stage(nodes0, cs, dest, newTable.Length, i)
      {
        MoveChain(nodes0, cs, dest, newTable, i);
      }
    }

    /** The inner loop of `resizeTable` for old bucket `i`, whose chain in the old heap
        `nodes0` is `cs[i]`: each node of it, in order, is moved to the head of the new
        bucket `dest` gives for its key, so that the first `i + 1` chains are moved. */
    method MoveChain(ghost nodes0: seq<Node>, ghost cs: seq<seq<int>>, ghost dest: int -> int, newTable: array<int>, i: int)
      requires newTable != table && 0 <= i < |cs| == table.Length && IsChain(nodes0, table[i], cs[i])
      requires Movable(nodes0, cs, dest, newTable.Length) && dest == Reindex(capacity, newTable.Length)
      requires (nodes, newTable[..]) == Stage(nodes0, cs, dest, newTable.Length, i)
      modifies this`nodes, newTable
      ensures (nodes, newTable[..]) == Stage(nodes0, cs, dest, newTable.Length, i + 1)
    {
      ConcatReady(nodes0, cs, i, dest, newTable.Length);
      ghost var u0 := Concat(cs, i);
      ghost var c := cs[i];
      var current := table[i];
      ghost var head := current;
      ghost var k := 0;
      assert u0 + c[..0] == u0;
      while current != Nil
        invariant 0 <= k <= |c| && current == if k < |c| then c[k] else Nil
        invariant Placeable(nodes0, u0 + c[..k], dest, newTable.Length)
        invariant (nodes, newTable[..]) == Relink(nodes0, u0 + c[..k], dest, newTable.Length, false)
        decreases |c| - k
      {
        MoveStep(nodes0, u0, c, head, k, dest, newTable.Length);
        var next := nodes[current].next;
        var index := BucketOf(capacity, nodes[current].key, newTable.Length);
        MoveToHead(newTable, current, index);
        current := next;
        k := k + 1;
      }
      assert u0 + c[..k] == u0 + c;
    }

    /** The body of the inner loop of `resizeTable`: node `x` becomes the head of slot
        `index` of the new array, its `next` naming the old head there (NULL when there was
        none) and the old head's `prev` naming it. */
    method MoveToHead(newTable: array<int>, x: int, index: int)
      requires Closed(nodes) && 0 <= x < |nodes| && 0 <= index < newTable.Length
      requires Ref(nodes, newTable[index])
      modifies this`nodes, newTable
      ensures (nodes, newTable[..]) == Place(old(nodes), old(newTable[..]), x, index, false)
    {
      if newTable[index] == Nil {
        newTable[index] := x;
        nodes := nodes[x := nodes[x].(next := Nil)];
      } else {
        nodes := nodes[x := nodes[x].(next := newTable[index])];
        nodes := nodes[newTable[index] := nodes[newTable[index]].(prev := x)];
        newTable[index] := x;
      }
    }

    /** `insert`: a new node at the head of the key's bucket, one more in `size`, and a
        doubling of the capacity when the load factor exceeds the threshold. */
    method Insert(key: int, data: int)
      requires InsertDefined(Model(), key, data)
      modifies this, table
      ensures Model() == TableSpec.Insert(old(Model()), key, data)
      ensures table == old(table) || fresh(table)
    {
      ghost var s := Model();
      var index := BucketOf(capacity, key, capacity);
      var newNode := CreateNode(key, data);
      if table[index] == Nil {
        table[index] := newNode;
      } else {
        nodes := nodes[newNode := nodes[newNode].(next := table[index])];
        nodes := nodes[table[index] := nodes[table[index]].(prev := newNode)];
        table[index] := newNode;
      }
      size := size + 1;
      assert Model() == Push(s, index, key, data);
      if size as real / capacity as real > loadFactorThreshold {
        ResizeTable(2 * capacity);
      }
    }

    /** `removeKey`: the first node of the key's bucket with the key is unlinked (taken for
        the head when its `prev` is NULL) and freed, `size` drops by one, and the capacity
        halves when the load factor falls below a quarter of the threshold. */
    method RemoveKey(key: int)
      requires RemoveDefined(Model(), key)
      modifies this, table
      ensures Model() == TableSpec.Remove(old(Model()), key)
      ensures table == old(table) || fresh(table)
    {
      ghost var s := Model();
      var index := BucketOf(capacity, key, capacity);
      var current := table[index];
      ghost var c := Bucket(s, index);
      ghost var k := 0;
      while current != Nil
        invariant table == old(table) && Model() == s
        invariant 0 <= k <= |c| && current == if k < |c| then c[k] else Nil
        invariant forall j :: 0 <= j < k ==> nodes[c[j]].key != key
        decreases |c| - k
      {
        if nodes[current].key == key {
          SearchHit(s, key, k);
          RemoveHit(s, key, k);
          UnlinkNode(index, current);
          if size as real / capacity as real < loadFactorThreshold / 4.0 {
            ResizeTable(capacity / 2);
          }
          return;
        }
        ChainNext(s.nodes, s.buckets[index], c, k);
        current := nodes[current].next;
        k := k + 1;
      }
      SearchMiss(s, key);
      RemoveMiss(s, key);
    }

    /** The unlinking in `removeKey` of node `x` of bucket `index`: a node whose `prev` is
        NULL is taken for the head and the bucket slot moves on to its `next`; otherwise its
        predecessor's `next` bypasses it. Its successor's `prev` is set to match. Then the
        node is freed and `size` drops by one. */
    method UnlinkNode(index: int, x: int)
      requires Shaped(Model()) && 0 <= index < capacity && 0 <= x < |nodes|
      modifies this, table
      ensures Model() == TableSpec.Unlink(old(Model()), index, x) && table == old(table)
    {
      if nodes[x].prev == Nil {
        table[index] := nodes[x].next;
        if nodes[x].next != Nil {
          nodes := nodes[nodes[x].next := nodes[nodes[x].next].(prev := Nil)];
        }
      } else {
        nodes := nodes[nodes[x].prev := nodes[nodes[x].prev].(next := nodes[x].next)];
        if nodes[x].next != Nil {
          nodes := nodes[nodes[x].next := nodes[nodes[x].next].(prev := nodes[x].prev)];
        }
      }
      freed := freed + {x};
      size := size - 1;
    }

    /** `get`: the data of the first node of the key's bucket with the key, or -1. */
    method Get(key: int) returns (r: int)
      requires GetDefined(Model(), key)
      ensures r == TableSpec.Get(Model(), key)
    {
      ghost var s := Model();
      var index := BucketOf(capacity, key, capacity);
      var current := table[index];
      ghost var c := Bucket(s, index);
      ghost var k := 0;
      while current != Nil
        invariant 0 <= k <= |c| && current == if k < |c| then c[k] else Nil
        invariant forall j :: 0 <= j < k ==> nodes[c[j]].key != key
        decreases |c| - k
      {
        if nodes[current].key == key {
          SearchHit(s, key, k);
          return nodes[current].data;
        }
        ChainNext(s.nodes, s.buckets[index], c, k);
        current := nodes[current].next;
        k := k + 1;
      }
      SearchMiss(s, key);
      return -1;
    }
  }
}
