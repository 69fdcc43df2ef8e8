/** What `initHashTable`, `insert`, `get` and `removeKey` do to the table, stated over the
    chains of its buckets. */
module Updates {
  import opened Chains
  import opened TableSpec
  import opened Visits
  import opened Resizes

  // ---------------------------------------------------------------- init

  /** `initHashTable(n, lf)` gives `n` empty buckets, size 0 and threshold `lf`, and the
      table is consistent and doubly linked. */
  lemma InitEmpty(n: int, lf: real)
    requires n >= 0
    ensures var s := Init(n, lf);
      s.capacity == n && s.size == 0 && s.threshold == lf && Linked(s) &&
      (forall b :: 0 <= b < n ==> Bucket(s, b) == [] && Entries(s, b) == []) &&
      Contents(s) == []
  {
    var s := Init(n, lf);
    forall b | 0 <= b < n
      ensures HasChain(s.nodes, s.buckets[b]) && Chain(s.nodes, s.buckets[b]) == []
    {
      ChainIs(s.nodes, s.buckets[b], []);
    }
    VisitInRange(s);
  }

  // ---------------------------------------------------------------- insert

  /** The heap with a fresh node appended: old chains and back links survive. */
  lemma Extended(s: State, key: int, data: int, b: int)
    requires Chained(s) && 0 <= b < |s.buckets|
    ensures var n := s.nodes + [Node(key, data, Nil, Nil)];
      Closed(n) && IsChain(n, s.buckets[b], Bucket(s, b)) && |s.nodes| !in Bucket(s, b) &&
      (BackLinks(s.nodes, Bucket(s, b)) ==> BackLinks(n, Bucket(s, b))) &&
      (Bucket(s, b) != [] ==> n[Bucket(s, b)[0]] == s.nodes[Bucket(s, b)[0]])
  {
    var n := s.nodes + [Node(key, data, Nil, Nil)];
    var c := Bucket(s, b);
    assert forall y :: 0 <= y < |s.nodes| ==> n[y] == s.nodes[y];
    ChainKept(s.nodes, n, s.buckets[b], c);
  }

  /** The head insertion of `insert` puts the new node, holding (key, data), in front of
      bucket `index` and leaves every other bucket as it was. */
  lemma PushEffect(s: State, index: int, key: int, data: int)
    requires Chained(s) && 0 <= index < s.capacity
    ensures var t := Push(s, index, key, data);
      Chained(t) && t.buckets[index] == |s.nodes| &&
      Bucket(t, index) == [|s.nodes|] + Bucket(s, index) &&
      Entries(t, index) == [(key, data)] + Entries(s, index) &&
      forall b :: 0 <= b < s.capacity && b != index ==> Bucket(t, b) == Bucket(s, b) && Entries(t, b) == Entries(s, b)
  {
    var t := Push(s, index, key, data);
    var n := s.nodes + [Node(key, data, Nil, Nil)];
    var x := |s.nodes|;
    forall b | 0 <= b < s.capacity
      ensures HasChain(t.nodes, t.buckets[b]) &&
              Chain(t.nodes, t.buckets[b]) == if b == index then [x] + Bucket(s, b) else Bucket(s, b)
    {
      Extended(s, key, data, b);
      PlaceChain(n, s.buckets, x, index, false, b, Bucket(s, b));
      ChainIs(t.nodes, t.buckets[b], if b == index then [x] + Bucket(s, b) else Bucket(s, b));
    }
    forall b | 0 <= b < s.capacity
      ensures KeyData(t.nodes, Bucket(s, b)) == KeyData(s.nodes, Bucket(s, b))
    {
      KeyDataKept(s.nodes, t.nodes, Bucket(s, b));
    }
    KeyDataConcat(t.nodes, [x], Bucket(s, index));
  }

  /** The head insertion keeps the back links and the heads' NULL `prev`, and the walk
      gains exactly the new node. */
  lemma PushLinks(s: State, index: int, key: int, data: int)
    requires Walkable(s) && BackLinked(s) && 0 <= index < s.capacity
    ensures var t := Push(s, index, key, data);
      Chained(t) && BackLinked(t) && (HeadsUnlinked(s) ==> HeadsUnlinked(t))
  {
    var t := Push(s, index, key, data);
    var n := s.nodes + [Node(key, data, Nil, Nil)];
    var x := |s.nodes|;
    PushEffect(s, index, key, data);
    if s.buckets[index] != Nil {
      assert s.buckets[index] in Bucket(s, index);
    }
    forall b | 0 <= b < s.capacity
      ensures BackLinks(t.nodes, Bucket(t, b))
      ensures HeadsUnlinked(s) && Bucket(t, b) != [] ==> t.nodes[Bucket(t, b)[0]].prev == Nil
    {
      Extended(s, key, data, b);
      BucketDistinct(s, b);
      if b != index {
        BucketsDisjoint(s, index, b);
      }
      PlaceBackLinks(n, s.buckets, x, index, false, b, Bucket(s, b));
      if HeadsUnlinked(s) {
        PlaceHead(n, s.buckets, x, index, false, b, Bucket(s, b));
      }
    }
  }

  /** The walk after the head insertion meets the new node once more than before. */
  lemma PushVisit(s: State, index: int, key: int, data: int)
    requires Chained(s) && 0 <= index < s.capacity
    ensures var t := Push(s, index, key, data);
      Chained(t) && multiset(Visit(t)) == multiset(Visit(s)) + multiset{|s.nodes|}
  {
    var t := Push(s, index, key, data);
    PushEffect(s, index, key, data);
    VisitGainsHead(s, t, index, |s.nodes|);
  }

  /** The head insertion adds (key, data) to the stored pairs. */
  lemma PushContents(s: State, index: int, key: int, data: int)
    requires Chained(s) && 0 <= index < s.capacity
    ensures var t := Push(s, index, key, data);
      Chained(t) && multiset(Contents(t)) == multiset(Contents(s)) + multiset{(key, data)}
  {
    var t := Push(s, index, key, data);
    PushVisit(s, index, key, data);
    ContentsGain(s, t, |s.nodes|);
  }

  /** A fresh node is not yet reachable: every node the walk meets is older. */
  lemma FreshUnreached(s: State)
    requires Chained(s)
    ensures |s.nodes| !in Visit(s) && multiset(Visit(s))[|s.nodes|] == 0
  {
    VisitInRange(s);
  }

  /** The head insertion keeps the table consistent (and doubly linked, if it was) and
      adds (key, data) to the stored pairs. */
  lemma PushConsistent(s: State, index: int, key: int, data: int)
    requires Consistent(s) && 0 <= index < s.capacity
    ensures var t := Push(s, index, key, data);
      Consistent(t) && (Linked(s) ==> Linked(t)) &&
      multiset(Contents(t)) == multiset(Contents(s)) + multiset{(key, data)}
  {
    var t := Push(s, index, key, data);
    var x := |s.nodes|;
    PushLinks(s, index, key, data);
    PushVisit(s, index, key, data);
    PushContents(s, index, key, data);
    FreshUnreached(s);
    forall y
      ensures multiset(Visit(t))[y] <= 1
    {
      assert multiset(Visit(s))[y] <= 1;
    }
    assert |Visit(t)| == |multiset(Visit(t))| == |multiset(Visit(s))| + 1;
    forall y | y in Visit(t)
      ensures y !in t.freed
    {
      assert y in multiset(Visit(t));
      if y != x {
        assert y in multiset(Visit(s));
      }
    }
  }

  /** `insert` keeps the table consistent, counts one more node, adds (key, data) to the
      stored pairs, and doubles the capacity exactly when the new load factor exceeds the
      threshold. */
  lemma InsertEffect(s: State, key: int, data: int)
    requires Consistent(s) && InsertDefined(s, key, data)
    ensures var t := Insert(s, key, data);
      Consistent(t) && t.size == s.size + 1 && t.threshold == s.threshold &&
      t.capacity == (if (s.size + 1) as real / s.capacity as real > s.threshold then 2 * s.capacity else s.capacity) &&
      multiset(Contents(t)) == multiset(Contents(s)) + multiset{(key, data)}
  {
    var u := Push(s, Index(s, key), key, data);
    PushConsistent(s, Index(s, key), key, data);
    if Grows(u) {
      ResizeConsistent(u, 2 * u.capacity);
      ResizeEffect(u, 2 * u.capacity);
    }
  }

  /** Without growth, `insert` keeps a doubly linked table doubly linked. */
  lemma InsertLinked(s: State, key: int, data: int)
    requires Linked(s) && InsertDefined(s, key, data)
    requires (s.size + 1) as real / s.capacity as real <= s.threshold
    ensures Linked(Insert(s, key, data))
  {
    PushConsistent(s, Index(s, key), key, data);
  }

  // ---------------------------------------------------------------- get

  /** The search finds the data of the first pair with the key, and -1 when no pair has it. */
  lemma LookupFirst(kv: seq<(int, int)>, key: int)
    ensures (forall m :: 0 <= m < |kv| ==> kv[m].0 != key) ==> Lookup(kv, key) == -1
    ensures forall m :: 0 <= m < |kv| && kv[m].0 == key && (forall j :: 0 <= j < m ==> kv[j].0 != key) ==>
      Lookup(kv, key) == kv[m].1
  {
  }

  /** A pair in front decides the search for its own key and is passed over for any other. */
  lemma LookupCons(kv: seq<(int, int)>, key: int, head: (int, int))
    ensures Lookup([head] + kv, key) == if head.0 == key then head.1 else Lookup(kv, key)
  {
    assert ([head] + kv)[1..] == kv;
  }

  /** `get` returns the data of the first node of the key's bucket that has the key, and
      -1 when no node there has it. */
  lemma GetFirst(s: State, key: int)
    requires GetDefined(s, key)
    ensures var kv := Entries(s, Index(s, key));
      (forall m :: 0 <= m < |kv| ==> kv[m].0 != key) ==> Get(s, key) == -1
    ensures var kv := Entries(s, Index(s, key));
      forall m :: 0 <= m < |kv| && kv[m].0 == key && (forall j :: 0 <= j < m ==> kv[j].0 != key) ==>
        Get(s, key) == kv[m].1
  {
    LookupFirst(Entries(s, Index(s, key)), key);
  }

  /** An `insert` below the threshold is the head insertion alone. */
  lemma InsertNoGrowth(s: State, key: int, data: int)
    requires InsertDefined(s, key, data)
    requires (s.size + 1) as real / s.capacity as real <= s.threshold
    ensures Insert(s, key, data) == Push(s, Index(s, key), key, data)
  {
  }

  /** Right after an `insert` that does not grow the table, `get` finds the new data. */
  lemma GetAfterInsert(s: State, key: int, data: int)
    requires Chained(s) && InsertDefined(s, key, data)
    requires (s.size + 1) as real / s.capacity as real <= s.threshold
    ensures GetDefined(Insert(s, key, data), key) && Get(Insert(s, key, data), key) == data
  {
    var i := Index(s, key);
    var t := Push(s, i, key, data);
    InsertNoGrowth(s, key, data);
    PushEffect(s, i, key, data);
    assert Index(t, key) == i;
    LookupCons(Entries(s, i), key, (key, data));
  }

  /** An `insert` that does not grow the table leaves `get` of every other key as it was. */
  lemma GetOtherAfterInsert(s: State, key: int, data: int, other: int)
    requires Chained(s) && InsertDefined(s, key, data) && GetDefined(s, other) && other != key
    requires (s.size + 1) as real / s.capacity as real <= s.threshold
    ensures GetDefined(Insert(s, key, data), other) && Get(Insert(s, key, data), other) == Get(s, other)
  {
    var i, j := Index(s, key), Index(s, other);
    var t := Push(s, i, key, data);
    InsertNoGrowth(s, key, data);
    PushEffect(s, i, key, data);
    assert Index(t, other) == j;
    if i == j {
      LookupCons(Entries(s, j), other, (key, data));
    }
  }
}
