/** The call sequence of `main` in hashtable.c, replayed on the model: a table of capacity
    5 and threshold 0.5 receives the pairs (5, 50), (10, 150), (15, 250) and (20, 350),
    is searched for keys 5 and 15, and loses key 15. Every intermediate table is written out,
    node by node; the third insert crosses the threshold and doubles the capacity. */
module Scenarios {
  import opened CArith
  import opened Hashing
  import opened Chains
  import opened TableSpec
  import opened Visits
  import opened HashTables

  /** The hashes that the replay needs, under the capacities 5 and 10. */
  lemma HashValues()
    ensures Hash(5, 5) == 0 && Hash(5, 10) == 0 && Hash(5, 15) == 1
    ensures Hash(10, 5) == 0 && Hash(10, 10) == 1 && Hash(10, 15) == 2 && Hash(10, 20) == 3
  {
    assert Trunc(5 as real * A) == 3;
    assert Trunc(10 as real * A) == 6;
    assert Trunc(15 as real * A) == 9;
    assert Trunc(20 as real * A) == 12;
  }

  // ---------------------------------------------------------------- general helpers

  /** A table whose buckets head the chains `cs` has exactly those chains. */
  lemma TableChains(s: State, cs: seq<seq<int>>)
    requires Shaped(s) && |cs| == |s.buckets|
    requires forall b :: 0 <= b < |cs| ==> IsChain(s.nodes, s.buckets[b], cs[b])
    ensures Chained(s) && Buckets(s) == cs
  {
    forall b | 0 <= b < |cs|
      ensures HasChain(s.nodes, s.buckets[b]) && Chain(s.nodes, s.buckets[b]) == cs[b]
    {
      ChainIs(s.nodes, s.buckets[b], cs[b]);
    }
  }

  /** A table whose buckets head the chains `cs`, which together hold no node twice, is
      walked along those chains in bucket order. */
  lemma WalkOf(s: State, cs: seq<seq<int>>, v: seq<int>)
    requires Shaped(s) && |cs| == |s.buckets|
    requires forall b :: 0 <= b < |cs| ==> IsChain(s.nodes, s.buckets[b], cs[b])
    requires Concat(cs, |cs|) == v && Distinct(v)
    ensures Walkable(s) && Visit(s) == v
  {
    TableChains(s, cs);
  }

  lemma DistinctThree(a: int, b: int, c: int)
    requires a != b && b != c && a != c
    ensures Distinct([a, b, c])
  {
    assert multiset([a, b, c]) == multiset{a, b, c};
  }

  lemma ConcatFive(c0: seq<int>, c1: seq<int>, c2: seq<int>, c3: seq<int>, c4: seq<int>)
    ensures Concat([c0, c1, c2, c3, c4], 5) == c0 + c1 + c2 + c3 + c4
  {
    var cs := [c0, c1, c2, c3, c4];
    assert Concat(cs, 2) == c0 + c1;
  }

  /** Moving three nodes is three head insertions into an all-NULL array. */
  lemma RelinkThree(nodes: seq<Node>, a: int, b: int, c: int, dest: int -> int, newCap: int, clearPrev: bool)
    requires Placeable(nodes, [a, b, c], dest, newCap)
    ensures Placeable(nodes, [a], dest, newCap) && Placeable(nodes, [a, b], dest, newCap)
    ensures var r1 := Relink(nodes, [a], dest, newCap, clearPrev);
      var r2 := Relink(nodes, [a, b], dest, newCap, clearPrev);
      r1 == Place(nodes, seq(newCap, _ => Nil), a, Target(nodes, a, dest), clearPrev) &&
      r2 == Place(r1.0, r1.1, b, Target(nodes, b, dest), clearPrev) &&
      Relink(nodes, [a, b, c], dest, newCap, clearPrev) == Place(r2.0, r2.1, c, Target(nodes, c, dest), clearPrev)
  {
    assert [a, b, c][..2] == [a, b] && [a, b][..1] == [a] && [a][..0] == [];
  }

  /** An insert whose head insertion crosses the threshold is that insertion followed by
      the resize to twice the capacity. */
  lemma InsertGrowing(s: State, key: int, data: int, t: State)
    requires Shaped(s) && s.capacity > 0 && 0 <= Index(s, key)
    requires t == Push(s, Index(s, key), key, data) && Grows(t) && Resizable(t, 2 * s.capacity)
    ensures InsertDefined(s, key, data) && Insert(s, key, data) == Resize(t, 2 * s.capacity)
  {
  }

  /** An insert whose head insertion stays within the threshold is that insertion alone. */
  lemma InsertQuiet(s: State, key: int, data: int, t: State)
    requires Shaped(s) && s.capacity > 0 && 0 <= Index(s, key)
    requires t == Push(s, Index(s, key), key, data) && !Grows(t)
    ensures InsertDefined(s, key, data) && Insert(s, key, data) == t
  {
  }

  // ---------------------------------------------------------------- the tables of the replay

  /** Nodes are numbered in order of creation: 0 holds key 5, 1 key 10, 2 key 15, 3 key 20. */
  function After5(): State { State([0, Nil, Nil, Nil, Nil], 5, 1, 0.5, [Node(5, 50, Nil, Nil)], {}) }

  function After10(): State
  {
    State([1, Nil, Nil, Nil, Nil], 5, 2, 0.5, [Node(5, 50, Nil, 1), Node(10, 150, 0, Nil)], {})
  }

  /** After the head insertion of key 15, before the resize it sets off. */
  function Pushed15(): State
  {
    State([1, 2, Nil, Nil, Nil], 5, 3, 0.5,
          [Node(5, 50, Nil, 1), Node(10, 150, 0, Nil), Node(15, 250, Nil, Nil)], {})
  }

  /** After the resize to 10 buckets: key 5 heads bucket 0 but keeps its old `prev`. */
  function After15(): State
  {
    State([0, 2, Nil, Nil, Nil, Nil, Nil, Nil, Nil, Nil], 10, 3, 0.5,
          [Node(5, 50, 1, 1), Node(10, 150, Nil, 0), Node(15, 250, Nil, Nil)], {})
  }

  function After20(): State
  {
    State([0, 2, Nil, 3, Nil, Nil, Nil, Nil, Nil, Nil], 10, 4, 0.5,
          [Node(5, 50, 1, 1), Node(10, 150, Nil, 0), Node(15, 250, Nil, Nil), Node(20, 350, Nil, Nil)], {})
  }

  // ---------------------------------------------------------------- the steps

  lemma Step1Facts()
    ensures Shaped(Init(5, 0.5)) && Index(Init(5, 0.5), 5) == 0
    ensures Push(Init(5, 0.5), 0, 5, 50) == After5() && !Grows(After5())
  {
    HashValues();
  }

  lemma Step1()
    ensures InsertDefined(Init(5, 0.5), 5, 50) && Insert(Init(5, 0.5), 5, 50) == After5()
  {
    Step1Facts();
    InsertQuiet(Init(5, 0.5), 5, 50, After5());
  }

  lemma Step2Facts()
    ensures Shaped(After5()) && Index(After5(), 10) == 0
    ensures Push(After5(), 0, 10, 150) == After10() && !Grows(After10())
  {
    HashValues();
  }

  lemma Step2()
    ensures InsertDefined(After5(), 10, 150) && Insert(After5(), 10, 150) == After10()
  {
    Step2Facts();
    InsertQuiet(After5(), 10, 150, After10());
  }

  lemma Pushed15Chains()
    ensures Shaped(Pushed15())
    ensures forall b :: 0 <= b < 5 ==> IsChain(Pushed15().nodes, Pushed15().buckets[b], [[1, 0], [2], [], [], []][b])
  {
    assert IsChain(Pushed15().nodes, 1, [1, 0]);
    assert Closed(Pushed15().nodes);
  }

  /** The resize walks bucket 0 (key 10, then key 5) and then bucket 1 (key 15). */
  lemma Pushed15Walk()
    ensures Walkable(Pushed15()) && Visit(Pushed15()) == [1, 0, 2]
  {
    Pushed15Chains();
    ConcatFive([1, 0], [2], [], [], []);
    DistinctThree(1, 0, 2);
    WalkOf(Pushed15(), [[1, 0], [2], [], [], []], [1, 0, 2]);
  }

  lemma Pushed15Push()
    ensures Push(After10(), 1, 15, 250) == Pushed15()
  {
  }

  /** Hashed with the old capacity 5, keys 10 and 5 go to bucket 0 and key 15 to bucket 1. */
  lemma Pushed15Placeable()
    ensures Placeable(Pushed15().nodes, [1, 0, 2], Reindex(5, 10), 10)
    ensures Target(Pushed15().nodes, 1, Reindex(5, 10)) == 0
    ensures Target(Pushed15().nodes, 0, Reindex(5, 10)) == 0
    ensures Target(Pushed15().nodes, 2, Reindex(5, 10)) == 1
  {
    HashValues();
    Pushed15Chains();
  }

  lemma Pushed15Relink()
    ensures Placeable(Pushed15().nodes, [1, 0, 2], Reindex(5, 10), 10)
    ensures Relink(Pushed15().nodes, [1, 0, 2], Reindex(5, 10), 10, false) == (After15().nodes, After15().buckets)
  {
    Pushed15Placeable();
    var n := Pushed15().nodes;
    RelinkThree(n, 1, 0, 2, Reindex(5, 10), 10, false);
    var r1 := Place(n, seq(10, _ => Nil), 1, 0, false);
    assert r1.0 == [Node(5, 50, Nil, 1), Node(10, 150, Nil, Nil), Node(15, 250, Nil, Nil)];
    var r2 := Place(r1.0, r1.1, 0, 0, false);
    assert r2.0 == [Node(5, 50, 1, 1), Node(10, 150, Nil, 0), Node(15, 250, Nil, Nil)];
    var r3 := Place(r2.0, r2.1, 2, 1, false);
    assert r3.0 == After15().nodes;
    assert r3.1 == seq(10, _ => Nil)[0 := 1][0 := 0][1 := 2];
    assert r3.1 == After15().buckets;
  }

  lemma Pushed15Resize()
    ensures Resizable(Pushed15(), 10) && Resize(Pushed15(), 10) == After15()
  {
    Pushed15Walk();
    Pushed15Relink();
  }

  lemma After10Facts()
    ensures Shaped(After10()) && After10().capacity == 5 && Index(After10(), 15) == 1 && Grows(Pushed15())
  {
    HashValues();
  }

  /** The third insert: 3 / 5 exceeds 0.5, so the table doubles. */
  lemma Step3()
    ensures InsertDefined(After10(), 15, 250) && Insert(After10(), 15, 250) == After15()
  {
    After10Facts();
    Pushed15Push();
    Pushed15Resize();
    InsertGrowing(After10(), 15, 250, Pushed15());
  }

  lemma After15Facts()
    ensures Shaped(After15()) && Index(After15(), 20) == 3 && Push(After15(), 3, 20, 350) == After20()
    ensures !Grows(After20())
  {
    HashValues();
  }

  lemma Step4()
    ensures InsertDefined(After15(), 20, 350) && Insert(After15(), 20, 350) == After20()
  {
    After15Facts();
    InsertQuiet(After15(), 20, 350, After20());
  }

  lemma After20Chains()
    ensures Shaped(After20())
    ensures IsChain(After20().nodes, After20().buckets[0], [0, 1])
    ensures IsChain(After20().nodes, After20().buckets[1], [2])
    ensures IsChain(After20().nodes, After20().buckets[2], [])
  {
    assert Closed(After20().nodes);
  }

  /** `get(ht, 5)` finds 50; `get(ht, 15)` looks in bucket 2, which is empty, and gives -1. */
  lemma After20Gets()
    ensures GetDefined(After20(), 5) && Get(After20(), 5) == 50
    ensures GetDefined(After20(), 15) && Get(After20(), 15) == -1
  {
    HashValues();
    After20Chains();
    var s := After20();
    ChainIs(s.nodes, s.buckets[0], [0, 1]);
    ChainIs(s.nodes, s.buckets[2], []);
    assert Index(s, 5) == 0 && Index(s, 15) == 2;
    assert Entries(s, 0) == [(5, 50), (10, 150)];
  }

  /** `removeKey(ht, 15)` searches the same empty bucket and changes nothing. */
  lemma After20RemoveAbsent()
    ensures RemoveDefined(After20(), 15) && Remove(After20(), 15) == After20()
  {
    HashValues();
    After20Chains();
    ChainIs(After20().nodes, After20().buckets[2], []);
    assert Index(After20(), 15) == 2;
  }

  /** The whole call sequence of `main` on the model of the table. */
  lemma MainScenario()
    ensures InsertDefined(Init(5, 0.5), 5, 50) && Insert(Init(5, 0.5), 5, 50) == After5()
    ensures InsertDefined(After5(), 10, 150) && Insert(After5(), 10, 150) == After10()
    ensures InsertDefined(After10(), 15, 250) && Insert(After10(), 15, 250) == After15()
    ensures After15().capacity == 2 * After10().capacity
    ensures InsertDefined(After15(), 20, 350) && Insert(After15(), 20, 350) == After20()
    ensures GetDefined(After20(), 5) && Get(After20(), 5) == 50
    ensures GetDefined(After20(), 15) && Get(After20(), 15) == -1
    ensures RemoveDefined(After20(), 15) && Remove(After20(), 15) == After20()
  {
    Step1();
    Step2();
    Step3();
    Step4();
    After20Gets();
    After20RemoveAbsent();
  }

  /** The same call sequence on the class: the table ends as `After20`, `get(ht, 5)` returns
      50 and `get(ht, 15)` returns -1. */
  method Demo() returns (ht: HashTable, found5: int, found15: int)
    ensures ht.Model() == After20() && found5 == 50 && found15 == -1
  {
    ht := new HashTable.Init(5, 0.5);
    MainScenario();
    ht.Insert(5, 50);
    ht.Insert(10, 150);
    ht.Insert(15, 250);
    ht.Insert(20, 350);
    found5 := ht.Get(5);
    found15 := ht.Get(15);
    ht.RemoveKey(15);
  }
}
