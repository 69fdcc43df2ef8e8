/** Concrete tables on which hashtable.c, as written, goes wrong, each beside the corrected
    behaviour on the same input. */
module Findings {
  import opened CArith
  import opened Hashing
  import opened Chains
  import opened TableSpec
  import opened HashTables
  import opened Scenarios

  // ---------------------------------------------------------------- resize hashes with the old capacity

  /** After the growth in `main`, key 15 sits in bucket 1 (its hash under the old capacity
      5) while `get` computes bucket 2 (its hash under the new capacity 10) and misses it. */
  lemma GrowthMisplacesKey()
    ensures Hash(5, 15) == 1 && Hash(10, 15) == 2
    ensures HasChain(After20().nodes, After20().buckets[1]) && Bucket(After20(), 1) == [2]
    ensures After20().nodes[2].key == 15 && Index(After20(), 15) == 2
    ensures GetDefined(After20(), 15) && Get(After20(), 15) == -1
  {
    HashValues();
    After20Chains();
    After20Gets();
    ChainIs(After20().nodes, After20().buckets[1], [2]);
  }

  function Regrown(): State
  {
    State([0, 1, 2, Nil, Nil, Nil, Nil, Nil, Nil, Nil], 10, 3, 0.5,
          [Node(5, 50, Nil, Nil), Node(10, 150, Nil, Nil), Node(15, 250, Nil, Nil)], {})
  }

  lemma RegrownRelink()
    ensures Placeable(Pushed15().nodes, [1, 0, 2], Reindex(10, 10), 10)
    ensures Relink(Pushed15().nodes, [1, 0, 2], Reindex(10, 10), 10, true) == (Regrown().nodes, Regrown().buckets)
  {
    HashValues();
    Pushed15Chains();
    var n := Pushed15().nodes;
    assert Target(n, 1, Reindex(10, 10)) == 1 && Target(n, 0, Reindex(10, 10)) == 0 && Target(n, 2, Reindex(10, 10)) == 2;
    RelinkThree(n, 1, 0, 2, Reindex(10, 10), 10, true);
    var r1 := Place(n, seq(10, _ => Nil), 1, 1, true);
    assert r1.0 == [Node(5, 50, Nil, 1), Node(10, 150, Nil, Nil), Node(15, 250, Nil, Nil)];
    var r2 := Place(r1.0, r1.1, 0, 0, true);
    assert r2.0 == [Node(5, 50, Nil, Nil), Node(10, 150, Nil, Nil), Node(15, 250, Nil, Nil)];
    var r3 := Place(r2.0, r2.1, 2, 2, true);
    assert r3.0 == Regrown().nodes;
    assert r3.1 == seq(10, _ => Nil)[1 := 1][0 := 0][2 := 2];
    assert r3.1 == Regrown().buckets;
  }

  /** The corrected resize of the same table puts key 15 in bucket 2, every head's `prev` is
      NULL, and `get(ht, 15)` finds 250. */
  lemma IntendedGrowthFindsKey()
    ensures Walkable(Pushed15()) && Placeable(Pushed15().nodes, Visit(Pushed15()), Reindex(10, 10), 10)
    ensures ResizeIntended(Pushed15(), 10) == Regrown()
    ensures GetDefined(Regrown(), 15) && Get(Regrown(), 15) == 250
  {
    Pushed15Walk();
    RegrownRelink();
    HashValues();
    var s := Regrown();
    assert Closed(s.nodes);
    ChainIs(s.nodes, s.buckets[2], [2]);
    assert Index(s, 15) == 2;
  }

  // ---------------------------------------------------------------- stale prev after resize

  function AfterRemove5(): State
  {
    State([0, 2, Nil, 3, Nil, Nil, Nil, Nil, Nil, Nil], 10, 3, 0.5,
          [Node(5, 50, 1, 1), Node(10, 150, 1, 1), Node(15, 250, Nil, Nil), Node(20, 350, Nil, Nil)], {0})
  }

  /** No node of a chain links to itself: the walk would never reach NULL. */
  lemma {:induction false} NoSelfLink(nodes: seq<Node>, head: int, c: seq<int>, k: int)
    requires IsChain(nodes, head, c) && 0 <= k < |c|
    ensures nodes[c[k]].next != c[k]
    decreases |c| - k
  {
    if k < |c| - 1 && nodes[c[k]].next == c[k] {
      ChainStep(nodes, head, c, k);
      NoSelfLink(nodes, head, c, k + 1);
    }
  }

  lemma After20RemoveHead()
    ensures RemoveDefined(After20(), 5) && Remove(After20(), 5) == AfterRemove5()
  {
    HashValues();
    After20Chains();
    var s := After20();
    ChainIs(s.nodes, s.buckets[0], [0, 1]);
    assert Index(s, 5) == 0 && Match(s, 5) == 0;
    assert Unlink(s, 0, 0) == AfterRemove5();
    assert !Shrinks(AfterRemove5());
  }

  lemma AfterRemove5Broken()
    ensures AfterRemove5().buckets[0] in AfterRemove5().freed && AfterRemove5().nodes[1].next == 1
    ensures !HasChain(AfterRemove5().nodes, AfterRemove5().buckets[0]) && !Chained(AfterRemove5())
  {
    var n := AfterRemove5().nodes;
    if HasChain(n, 0) {
      var c := Chain(n, 0);
      if |c| > 1 {
        ChainStep(n, 0, c, 0);
        NoSelfLink(n, 0, c, 1);
      }
    }
  }

  /** After the growth in `main`, key 5 heads bucket 0 with the `prev` it had in its old
      chain. `removeKey(ht, 5)` takes it for an inner node: it points key 10's node at
      itself, frees key 5's node and leaves bucket 0 pointing at it, so no walk of the
      table ends. */
  lemma StalePrevCorrupts()
    ensures HasChain(After20().nodes, After20().buckets[0]) && Bucket(After20(), 0) == [0, 1]
    ensures After20().nodes[0].prev == 1
    ensures RemoveDefined(After20(), 5) && Remove(After20(), 5) == AfterRemove5()
    ensures AfterRemove5().buckets[0] in AfterRemove5().freed && AfterRemove5().nodes[1].next == 1
    ensures !Chained(AfterRemove5())
  {
    After20Chains();
    ChainIs(After20().nodes, After20().buckets[0], [0, 1]);
    After20RemoveHead();
    AfterRemove5Broken();
  }

  // ---------------------------------------------------------------- no shrink floor

  function Single(): State { State([0], 1, 1, 1.0, [Node(5, 50, Nil, Nil)], {}) }
  function SingleUnlinked(): State { State([Nil], 1, 0, 1.0, [Node(5, 50, Nil, Nil)], {0}) }
  function Emptied(): State { State([], 0, 0, 1.0, [Node(5, 50, Nil, Nil)], {0}) }

  lemma SingleFacts()
    ensures Shaped(Init(1, 1.0)) && Index(Init(1, 1.0), 5) == 0
    ensures Push(Init(1, 1.0), 0, 5, 50) == Single() && !Grows(Single())
  {
    assert Trunc(5 as real * A) == 3;
    assert Hash(1, 5) == 0;
  }

  lemma SingleInsert()
    ensures InsertDefined(Init(1, 1.0), 5, 50) && Insert(Init(1, 1.0), 5, 50) == Single()
  {
    SingleFacts();
    InsertQuiet(Init(1, 1.0), 5, 50, Single());
  }

  lemma SingleUnlinkedWalk()
    ensures Walkable(SingleUnlinked()) && Visit(SingleUnlinked()) == []
    ensures Resizable(SingleUnlinked(), 0) && Resize(SingleUnlinked(), 0) == Emptied()
  {
    var s := SingleUnlinked();
    assert IsChain(s.nodes, Nil, []);
    WalkOf(s, [[]], []);
  }

  lemma SingleRemoveDefined()
    ensures RemoveDefined(Single(), 5) && Index(Single(), 5) == 0 && Match(Single(), 5) == 0
    ensures Bucket(Single(), 0) == [0] && Unlink(Single(), 0, 0) == SingleUnlinked()
    ensures Shrinks(SingleUnlinked())
  {
    assert Trunc(5 as real * A) == 3;
    assert Hash(1, 5) == 0;
    var s := Single();
    ChainIs(s.nodes, 0, [0]);
    assert Index(s, 5) == 0 && Match(s, 5) == 0;
    assert Unlink(s, 0, 0) == SingleUnlinked();
    assert Shrinks(SingleUnlinked());
    SingleUnlinkedWalk();
  }

  lemma SingleRemove()
    ensures RemoveDefined(Single(), 5) && Remove(Single(), 5) == Emptied()
  {
    SingleRemoveDefined();
    SingleUnlinkedWalk();
    RemoveHit(Single(), 5, 0);
    var t := Unlink(Single(), Index(Single(), 5), Bucket(Single(), Index(Single(), 5))[0]);
    assert t == SingleUnlinked();
    assert Remove(Single(), 5) == Resize(t, 0);
  }

  /** `initHashTable(1, 1.0)`, `insert(ht, 5, 50)`, `removeKey(ht, 5)`: the load factor 0
      is below 1.0 / 4, capacity 1 halves to 0, and from then on every `insert` and `get`
      divides by zero. */
  lemma ShrinkToZero()
    ensures InsertDefined(Init(1, 1.0), 5, 50) && Insert(Init(1, 1.0), 5, 50) == Single()
    ensures RemoveDefined(Single(), 5) && Remove(Single(), 5) == Emptied() && Emptied().capacity == 0
    ensures forall key :: !GetDefined(Emptied(), key)
    ensures forall key, data :: !InsertDefined(Emptied(), key, data)
  {
    SingleInsert();
    SingleRemove();
  }

  /** With the floor the same removal keeps the one bucket, and `get(ht, 5)` gives -1. */
  lemma ShrinkFloorKeepsBucket()
    ensures RemoveDefined(Single(), 5) && RemoveIntended(Single(), 5) == SingleUnlinked()
    ensures SingleUnlinked().capacity == 1 && GetDefined(SingleUnlinked(), 5) && Get(SingleUnlinked(), 5) == -1
  {
    SingleRemoveDefined();
    SingleUnlinkedWalk();
    assert Trunc(5 as real * A) == 3;
    assert Hash(1, 5) == 0;
    ChainIs(SingleUnlinked().nodes, Nil, []);
  }

  // ---------------------------------------------------------------- negative keys

  /** Key -1 in a table of capacity 5 gets bucket -3: `insert` would write before the start
      of the bucket array, and `get` and `removeKey` would read there. */
  lemma NegativeKeyOutside()
    ensures Index(Init(5, 0.5), -1) == -3
    ensures !InsertDefined(Init(5, 0.5), -1, 7) && !GetDefined(Init(5, 0.5), -1)
  {
    NegativeKeyIndex();
  }

  /** The corrected hash sends key -1 to bucket 1 of 5. */
  lemma NegativeKeyIntended()
    ensures HashIntended(5, -1) == 1
  {
    var p := -1 as real * A;
    assert p.Floor == -1;
  }
}
