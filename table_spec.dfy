/** The hash table of hashtable.c as values: the header, the bucket array and the node
    heap in one `State`, and each operation of the file as a function from state to state.
    The class in hashtable.dfy is proved to follow these functions step for step. */
module TableSpec {
  import opened CArith
  import opened Hashing
  import opened Chains

  /** The header (`table`, `capacity`, `size`, `loadFactorThreshold`) with the node heap
      it points into; `freed` holds the nodes that `free` has released. */
  datatype State = State(buckets: seq<int>, capacity: int, size: int, threshold: real,
                         nodes: seq<Node>, freed: set<int>)

  /** What every operation keeps, whatever the links say: the bucket array has `capacity`
      slots and every pointer is NULL or names a node of the heap. */
  predicate Shaped(s: State)
  {
    |s.buckets| == s.capacity && Closed(s.nodes) &&
    (forall b :: 0 <= b < |s.buckets| ==> Ref(s.nodes, s.buckets[b]))
  }

  /** Every bucket's chain ends in NULL. */
  ghost predicate Chained(s: State)
  {
    Shaped(s) && forall b :: 0 <= b < |s.buckets| ==> HasChain(s.nodes, s.buckets[b])
  }

  /** The nodes of bucket `b`, head to tail. */
  ghost function Bucket(s: State, b: int): (c: seq<int>)
    requires 0 <= b < |s.buckets| && HasChain(s.nodes, s.buckets[b])
    ensures IsChain(s.nodes, s.buckets[b], c)
  {
    Chain(s.nodes, s.buckets[b])
  }

  /** The (key, data) pairs of bucket `b`, head to tail: what `print` shows for it. */
  ghost function Entries(s: State, b: int): seq<(int, int)>
    requires 0 <= b < |s.buckets| && HasChain(s.nodes, s.buckets[b])
  {
    KeyData(s.nodes, Bucket(s, b))
  }

  /** The chains of all buckets, in bucket order. */
  ghost function Buckets(s: State): (cs: seq<seq<int>>)
    requires Chained(s)
    ensures |cs| == |s.buckets| && forall b :: 0 <= b < |cs| ==> cs[b] == Bucket(s, b)
  {
    seq(|s.buckets|, b requires 0 <= b < |s.buckets| => Bucket(s, b))
  }

  /** The chains `cs[0] .. cs[i-1]`, one after the other. */
  function Concat(cs: seq<seq<int>>, i: int): seq<int>
    requires 0 <= i <= |cs|
    decreases i
  {
    if i == 0 then [] else Concat(cs, i - 1) + cs[i - 1]
  }

  /** Every node reachable from the bucket array, bucket by bucket, head to tail: the
      order in which a walk over the bucket array (as in `print`) meets them. */
  ghost function Visit(s: State): seq<int>
    requires Chained(s)
  {
    Concat(Buckets(s), |s.buckets|)
  }

  /** The chains are finite and no node lies on two of them or twice on one. */
  ghost predicate Walkable(s: State)
  {
    Chained(s) && Distinct(Visit(s))
  }

  /** Inside each chain the `prev` of every node but the head names its predecessor. */
  ghost predicate BackLinked(s: State)
    requires Chained(s)
  {
    forall b :: 0 <= b < |s.buckets| ==> BackLinks(s.nodes, Bucket(s, b))
  }

  /** Every chain's head has a NULL `prev`. */
  ghost predicate HeadsUnlinked(s: State)
    requires Chained(s)
  {
    forall b :: 0 <= b < |s.buckets| && Bucket(s, b) != [] ==> s.nodes[Bucket(s, b)[0]].prev == Nil
  }

  /** The invariant that insert, remove and resize keep: finite disjoint chains, `size`
      counts the reachable nodes, none of them freed, and back links right below the heads. */
  ghost predicate Consistent(s: State)
  {
    Walkable(s) && s.size == |Visit(s)| && (forall x :: x in Visit(s) ==> x !in s.freed) &&
    FreedInHeap(s) && BackLinked(s)
  }

  /** Only nodes of the heap have been freed. */
  predicate FreedInHeap(s: State)
  {
    forall x :: x in s.freed ==> 0 <= x < |s.nodes|
  }

  /** Consistent and doubly linked throughout: heads have NULL `prev` too. */
  ghost predicate Linked(s: State)
  {
    Consistent(s) && HeadsUnlinked(s)
  }

  /** `initHashTable`: `initialCapacity` empty buckets, size 0. */
  function Init(initialCapacity: int, loadFactor: real): (s: State)
    requires initialCapacity >= 0
    ensures Shaped(s) && s.capacity == initialCapacity && s.size == 0 && s.threshold == loadFactor
  {
    State(seq(initialCapacity, _ => Nil), initialCapacity, 0, loadFactor, [], {})
  }

  /** `hash(ht, key) % ht->capacity`: the bucket that insert, remove and get use. */
  function Index(s: State, key: int): (i: int)
    requires s.capacity > 0
    ensures i == Hash(s.capacity, key)
    ensures key >= 0 ==> 0 <= i < s.capacity
    ensures key < 0 ==> -s.capacity < i <= 0
  {
    BucketOf(s.capacity, key, s.capacity)
  }

  /** `(float)size / capacity > loadFactorThreshold`, on exact reals. */
  predicate Grows(s: State): (g: bool)
    requires s.capacity > 0
  {
    s.size as real / s.capacity as real > s.threshold
  }

  /** `(float)size / capacity < loadFactorThreshold / 4`, on exact reals. */
  predicate Shrinks(s: State): (g: bool)
    requires s.capacity > 0
  {
    s.size as real / s.capacity as real < s.threshold / 4.0
  }

  /** The growth test multiplied out: the table grows when `size` exceeds the threshold
      times the capacity. */
  lemma GrowsScaled(s: State)
    requires s.capacity > 0
    ensures Grows(s) <==> s.size as real > s.threshold * s.capacity as real
  {
  }

  /** The shrink test multiplied out: the table shrinks when four times `size` is below
      the threshold times the capacity. */
  lemma ShrinksScaled(s: State)
    requires s.capacity > 0
    ensures Shrinks(s) <==> 4.0 * s.size as real < s.threshold * s.capacity as real
  {
  }

  // ---------------------------------------------------------------- resize

  /** The bucket that the inner loop of `resizeTable` computes for a key: the hash under
      `hashCap`, reduced modulo the new capacity. The source passes the capacity still in
      the header, the old one, as `hashCap`. A zero new capacity leaves no node to place
      (it would be a division by zero), and the value 0 given for it is never used. */
  function Reindex(hashCap: int, newCap: int): (dest: int -> int)
    ensures forall key :: 0 < hashCap <= newCap ==> dest(key) == Hash(hashCap, key)
    ensures forall key :: hashCap > 0 && newCap > 0 && key >= 0 ==> 0 <= dest(key) < newCap
  {
    key => if newCap > 0 then BucketOf(hashCap, key, newCap) else 0
  }

  /** The new bucket of node `x` under the bucket choice `dest`. */
  function Target(nodes: seq<Node>, x: int, dest: int -> int): int
    requires 0 <= x < |nodes|
  {
    dest(nodes[x].key)
  }

  /** Every node of `xs` exists and has a target inside the new bucket array. */
  predicate Placeable(nodes: seq<Node>, xs: seq<int>, dest: int -> int, newCap: int)
  {
    newCap >= 0 && Closed(nodes) &&
    forall j :: 0 <= j < |xs| ==> 0 <= xs[j] < |nodes| && 0 <= Target(nodes, xs[j], dest) < newCap
  }

  /** Node `x` becomes the head of bucket `index`, in front of the chain already there: one
      pass of the inner loop of `resizeTable`, and the splice of `insert`. Its `prev` is left
      as it was, unless `clearPrev` asks for it to be reset. */
  function Place(nodes: seq<Node>, table: seq<int>, x: int, index: int, clearPrev: bool)
    : (r: (seq<Node>, seq<int>))
    requires Closed(nodes) && 0 <= x < |nodes| && 0 <= index < |table| && Ref(nodes, table[index])
    ensures Closed(r.0) && |r.0| == |nodes| && r.1 == table[index := x]
    ensures forall y {:trigger r.0[y]} :: 0 <= y < |nodes| ==> r.0[y].key == nodes[y].key && r.0[y].data == nodes[y].data
  {
    var prev := if clearPrev then Nil else nodes[x].prev;
    if table[index] == Nil then
      (nodes[x := Node(nodes[x].key, nodes[x].data, Nil, prev)], table[index := x])
    else
      var moved := nodes[x := Node(nodes[x].key, nodes[x].data, table[index], prev)];
      (moved[table[index] := moved[table[index]].(prev := x)], table[index := x])
  }

  /** `createNode` followed by the head insertion and `size++` of `insert`: the head
      insertion is the same splice as one pass of the inner loop of `resizeTable`, applied
      to a fresh node whose `prev` is NULL. */
  function Push(s: State, index: int, key: int, data: int): (t: State)
    requires Shaped(s) && 0 <= index < s.capacity
    ensures Shaped(t) && t.capacity == s.capacity && t.size == s.size + 1
    ensures t.threshold == s.threshold && t.freed == s.freed && |t.nodes| == |s.nodes| + 1
  {
    var r := Place(s.nodes + [Node(key, data, Nil, Nil)], s.buckets, |s.nodes|, index, false);
    s.(buckets := r.1, nodes := r.0, size := s.size + 1)
  }

  /** The heap and new bucket array after the loops of `resizeTable` have moved the nodes
      `xs`, in that order, into `newCap` fresh buckets. */
  function Relink(nodes: seq<Node>, xs: seq<int>, dest: int -> int, newCap: int, clearPrev: bool)
    : (r: (seq<Node>, seq<int>))
    requires Placeable(nodes, xs, dest, newCap)
    ensures Closed(r.0) && |r.0| == |nodes| && |r.1| == newCap
    ensures forall b :: 0 <= b < newCap ==> Ref(r.0, r.1[b])
    ensures forall y {:trigger r.0[y]} :: 0 <= y < |nodes| ==> r.0[y].key == nodes[y].key && r.0[y].data == nodes[y].data
    decreases |xs|
  {
    if xs == [] then (nodes, seq(newCap, _ => Nil))
    else
      var x := xs[|xs| - 1];
      var r := Relink(nodes, xs[..|xs| - 1], dest, newCap, clearPrev);
      Place(r.0, r.1, x, Target(nodes, x, dest), clearPrev)
  }

  /** The nodes of `xs` whose target is `b`, newest first: the chain that head insertion
      builds in new bucket `b`. */
  function Stacked(nodes: seq<Node>, xs: seq<int>, dest: int -> int, newCap: int, b: int): (c: seq<int>)
    requires Placeable(nodes, xs, dest, newCap)
    ensures forall k :: 0 <= k < |c| ==> 0 <= c[k] < |nodes|
    decreases |xs|
  {
    if xs == [] then []
    else
      var x := xs[|xs| - 1];
      (if Target(nodes, x, dest) == b then [x] else []) +
      Stacked(nodes, xs[..|xs| - 1], dest, newCap, b)
  }

  /** `resizeTable(ht, newCap)` is defined: its walk terminates and every node lands in
      the new array. */
  ghost predicate Resizable(s: State, newCap: int)
  {
    Walkable(s) && Placeable(s.nodes, Visit(s), Reindex(s.capacity, newCap), newCap)
  }

  /** The table after the loops of `resizeTable` have moved every node into `newCap` fresh
      buckets, choosing each node's bucket by `dest`. */
  ghost function Rebuilt(s: State, dest: int -> int, newCap: int, clearPrev: bool): (t: State)
    requires Walkable(s) && Placeable(s.nodes, Visit(s), dest, newCap)
    ensures Shaped(t) && t.capacity == newCap && t.size == s.size && t.threshold == s.threshold
    ensures t.freed == s.freed && |t.nodes| == |s.nodes|
  {
    var r := Relink(s.nodes, Visit(s), dest, newCap, clearPrev);
    s.(buckets := r.1, capacity := newCap, nodes := r.0)
  }

  /** `resizeTable` as written: the nodes are hashed with the capacity still in the
      header (the old one) and their `prev` links are not reset. */
  ghost function Resize(s: State, newCap: int): (t: State)
    requires Resizable(s, newCap)
    ensures Shaped(t) && t.capacity == newCap && t.size == s.size && t.threshold == s.threshold
    ensures t.freed == s.freed && |t.nodes| == |s.nodes|
  {
    Rebuilt(s, Reindex(s.capacity, newCap), newCap, false)
  }

  /** `resizeTable` as evidently intended: hashed with the new capacity, and each moved
      node's `prev` reset when it becomes a head. */
  ghost function ResizeIntended(s: State, newCap: int): (t: State)
    requires Walkable(s) && Placeable(s.nodes, Visit(s), Reindex(newCap, newCap), newCap)
    ensures Shaped(t) && t.capacity == newCap && t.size == s.size && t.threshold == s.threshold
    ensures t.freed == s.freed && |t.nodes| == |s.nodes|
  {
    Rebuilt(s, Reindex(newCap, newCap), newCap, true)
  }

  // ---------------------------------------------------------------- insert

  /** What `insert(ht, key, data)` needs: a nonzero capacity for `%`, a bucket index inside
      the array, and a defined resize when the load factor is crossed. */
  ghost predicate InsertDefined(s: State, key: int, data: int)
  {
    Shaped(s) && s.capacity > 0 && 0 <= Index(s, key) &&
    (var t := Push(s, Index(s, key), key, data); Grows(t) ==> Resizable(t, 2 * s.capacity))
  }

  /** `insert`. */
  ghost function Insert(s: State, key: int, data: int): (t: State)
    requires InsertDefined(s, key, data)
    ensures Shaped(t) && t.size == s.size + 1 && t.threshold == s.threshold && t.freed == s.freed
    ensures |t.nodes| == |s.nodes| + 1 && (t.capacity == s.capacity || t.capacity == 2 * s.capacity)
  {
    var t := Push(s, Index(s, key), key, data);
    if Grows(t) then Resize(t, 2 * t.capacity) else t
  }

  // ---------------------------------------------------------------- get

  /** What `get(ht, key)` needs: a nonzero capacity, an index inside the array, and a
      chain there that ends. */
  ghost predicate GetDefined(s: State, key: int)
  {
    Shaped(s) && s.capacity > 0 && 0 <= Index(s, key) && HasChain(s.nodes, s.buckets[Index(s, key)])
  }

  /** The data of the first pair with key `key`, or -1: the search loop of `get` over one
      bucket. */
  function Lookup(kv: seq<(int, int)>, key: int): (r: int)
    ensures (forall m :: 0 <= m < |kv| ==> kv[m].0 != key) ==> r == -1
    ensures r == -1 || exists m :: 0 <= m < |kv| && kv[m] == (key, r)
  {
    var p := Position(kv, key);
    if p < |kv| then kv[p].1 else -1
  }

  /** `get`: the search of the key's bucket. */
  ghost function Get(s: State, key: int): (r: int)
    requires GetDefined(s, key)
    ensures r == -1 || exists y :: y in Bucket(s, Index(s, key)) && s.nodes[y].key == key && s.nodes[y].data == r
  {
    Lookup(Entries(s, Index(s, key)), key)
  }

  // ---------------------------------------------------------------- remove

  /** The unlinking, `free` and `size--` that `removeKey` applies to node `x` of bucket
      `index`. A node with a NULL `prev` is taken for the head. */
  ghost function Unlink(s: State, index: int, x: int): (t: State)
    requires Shaped(s) && 0 <= index < |s.buckets| && 0 <= x < |s.nodes|
    ensures Shaped(t) && t.capacity == s.capacity && t.size == s.size - 1
    ensures t.threshold == s.threshold && t.freed == s.freed + {x} && |t.nodes| == |s.nodes|
  {
    var cur := s.nodes[x];
    var t :=
      if cur.prev == Nil then
        var nodes := if cur.next != Nil then s.nodes[cur.next := s.nodes[cur.next].(prev := Nil)]
                     else s.nodes;
        s.(buckets := s.buckets[index := cur.next], nodes := nodes)
      else
        var bypassed := s.nodes[cur.prev := s.nodes[cur.prev].(next := cur.next)];
        var after := bypassed[x];
        var nodes := if after.next != Nil then bypassed[after.next := bypassed[after.next].(prev := after.prev)]
                     else bypassed;
        s.(nodes := nodes);
    t.(freed := t.freed + {x}, size := t.size - 1)
  }

  /** The position, in the key's bucket, of the node `removeKey` takes out; the length of
      the chain when no node has the key. */
  ghost function Match(s: State, key: int): (p: nat)
    requires GetDefined(s, key)
    ensures p <= |Bucket(s, Index(s, key))|
  {
    Position(Entries(s, Index(s, key)), key)
  }

  /** What `removeKey(ht, key)` needs: as for `get`, and a defined resize when the removal
      drops the load factor below a quarter of the threshold. */
  ghost predicate RemoveDefined(s: State, key: int)
  {
    GetDefined(s, key) &&
    var c := Bucket(s, Index(s, key));
    var p := Match(s, key);
    p < |c| ==> var t := Unlink(s, Index(s, key), c[p]); Shrinks(t) ==> Resizable(t, t.capacity / 2)
  }

  /** `removeKey`. */
  ghost function Remove(s: State, key: int): (t: State)
    requires RemoveDefined(s, key)
    ensures Shaped(t) && t.threshold == s.threshold && |t.nodes| == |s.nodes|
    ensures t.size == s.size || t.size == s.size - 1
    ensures t.capacity == s.capacity || t.capacity == s.capacity / 2
  {
    var c := Bucket(s, Index(s, key));
    var p := Match(s, key);
    if p == |c| then s
    else
      var t := Unlink(s, Index(s, key), c[p]);
      if Shrinks(t) then Resize(t, t.capacity / 2) else t
  }

  /** `removeKey` with the evidently intended floor: it does not halve a capacity of 1. */
  ghost function RemoveIntended(s: State, key: int): (t: State)
    requires RemoveDefined(s, key)
    ensures Shaped(t) && t.threshold == s.threshold && |t.nodes| == |s.nodes|
    ensures t.size == s.size || t.size == s.size - 1
    ensures t.capacity >= 1 && (t.capacity == s.capacity || t.capacity == s.capacity / 2)
  {
    var c := Bucket(s, Index(s, key));
    var p := Match(s, key);
    if p == |c| then s
    else
      var t := Unlink(s, Index(s, key), c[p]);
      if Shrinks(t) && t.capacity > 1 then Resize(t, t.capacity / 2) else t
  }
}
