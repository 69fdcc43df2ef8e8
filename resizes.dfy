/** What the loops of `resizeTable` build: one chain per new bucket holding the moved
    nodes that target it, newest first, with every back link right except at the heads. */
module Resizes {
  import opened Chains
  import opened TableSpec
  import opened Visits
  import opened Hashing

  /** A node lands in new bucket `b` once for each time the walk meets it, if `b` is its
      target, and never otherwise. */
  lemma {:induction false} StackedCount(nodes: seq<Node>, xs: seq<int>, dest: int -> int, newCap: int, b: int, y: int)
    requires Placeable(nodes, xs, dest, newCap)
    ensures multiset(Stacked(nodes, xs, dest, newCap, b))[y] ==
            if 0 <= y < |nodes| && Target(nodes, y, dest) == b then multiset(xs)[y] else 0
    decreases |xs|
  {
    if xs != [] {
      var ys, x := xs[..|xs| - 1], xs[|xs| - 1];
      StackedCount(nodes, ys, dest, newCap, b, y);
      assert xs == ys + [x];
      var head := if Target(nodes, x, dest) == b then [x] else [];
      assert Stacked(nodes, xs, dest, newCap, b) == head + Stacked(nodes, ys, dest, newCap, b);
      assert multiset(xs)[y] == multiset(ys)[y] + multiset([x])[y];
    }
  }

  /** Only moved nodes that target bucket `b` land in it. */
  lemma StackedIn(nodes: seq<Node>, xs: seq<int>, dest: int -> int, newCap: int, b: int, y: int)
    requires Placeable(nodes, xs, dest, newCap)
    ensures y in Stacked(nodes, xs, dest, newCap, b) ==> y in xs && 0 <= y < |nodes| && Target(nodes, y, dest) == b
  {
    StackedCount(nodes, xs, dest, newCap, b, y);
    if y in Stacked(nodes, xs, dest, newCap, b) {
      assert multiset(Stacked(nodes, xs, dest, newCap, b))[y] > 0;
      assert y in multiset(xs);
    }
  }

  /** The new chains of distinct moved nodes are distinct. */
  lemma StackedDistinct(nodes: seq<Node>, xs: seq<int>, dest: int -> int, newCap: int, b: int)
    requires Placeable(nodes, xs, dest, newCap) && Distinct(xs)
    ensures Distinct(Stacked(nodes, xs, dest, newCap, b))
  {
    forall y
      ensures multiset(Stacked(nodes, xs, dest, newCap, b))[y] <= 1
    {
      StackedCount(nodes, xs, dest, newCap, b, y);
    }
  }

  /** One step of the inner loop changes node `x` and the `prev` of the old head only. */
  lemma PlaceEffect(nodes: seq<Node>, table: seq<int>, x: int, index: int, clearPrev: bool)
    requires Closed(nodes) && 0 <= x < |nodes| && 0 <= index < |table| && Ref(nodes, table[index])
    requires table[index] != x
    ensures var r := Place(nodes, table, x, index, clearPrev);
      r.0[x].next == table[index] &&
      r.0[x].prev == (if clearPrev then Nil else nodes[x].prev) &&
      (table[index] != Nil ==> r.0[table[index]].prev == x) &&
      forall y :: 0 <= y < |nodes| && y != x ==>
        r.0[y].next == nodes[y].next && (y != table[index] ==> r.0[y] == nodes[y])
  {
  }

  /** The loops touch only the nodes they move, and every new head is a moved node. */
  lemma {:induction false} RelinkFrame(nodes: seq<Node>, xs: seq<int>, dest: int -> int, newCap: int, clearPrev: bool)
    requires Placeable(nodes, xs, dest, newCap)
    ensures var r := Relink(nodes, xs, dest, newCap, clearPrev);
      (forall y :: 0 <= y < |nodes| && y !in xs ==> r.0[y] == nodes[y]) &&
      (forall b :: 0 <= b < newCap ==> r.1[b] == Nil || r.1[b] in xs)
    decreases |xs|
  {
    if xs != [] {
      var ys := xs[..|xs| - 1];
      RelinkFrame(nodes, ys, dest, newCap, clearPrev);
      assert xs == ys + [xs[|xs| - 1]];
    }
  }

  /** One step keeps every new chain a chain, and puts `x` at the front of its own. */
  lemma PlaceChain(n: seq<Node>, table: seq<int>, x: int, ix: int, clearPrev: bool, b: int, c: seq<int>)
    requires Closed(n) && 0 <= x < |n| && 0 <= ix < |table| && Ref(n, table[ix]) && table[ix] != x
    requires 0 <= b < |table| && IsChain(n, table[b], c) && x !in c
    ensures var r := Place(n, table, x, ix, clearPrev);
      IsChain(r.0, r.1[b], if b == ix then [x] + c else c)
  {
    var r := Place(n, table, x, ix, clearPrev);
    PlaceEffect(n, table, x, ix, clearPrev);
    ChainKept(n, r.0, table[b], c);
    if b == ix {
      ChainCons(r.0, x, table[b], c);
    }
  }

  /** One step keeps the back links below the heads; the old head's `prev` now names `x`. */
  lemma PlaceBackLinks(n: seq<Node>, table: seq<int>, x: int, ix: int, clearPrev: bool, b: int, c: seq<int>)
    requires Closed(n) && 0 <= x < |n| && 0 <= ix < |table| && Ref(n, table[ix]) && table[ix] != x
    requires 0 <= b < |table| && IsChain(n, table[b], c) && x !in c && Distinct(c)
    requires BackLinks(n, c)
    requires b != ix && table[ix] != Nil ==> table[ix] !in c
    ensures var r := Place(n, table, x, ix, clearPrev);
      BackLinks(r.0, if b == ix then [x] + c else c)
  {
    var r := Place(n, table, x, ix, clearPrev);
    PlaceEffect(n, table, x, ix, clearPrev);
    DistinctIndices(c);
    var d := if b == ix then [x] + c else c;
    forall k | 0 < k < |d|
      ensures r.0[d[k]].prev == d[k - 1]
    {
      if b == ix && k > 1 {
        assert d[k] == c[k - 1] && c[k - 1] != c[0];
      }
    }
  }

  /** With `prev` reset, one step keeps every head's `prev` NULL. */
  lemma PlaceHead(n: seq<Node>, table: seq<int>, x: int, ix: int, clearPrev: bool, b: int, c: seq<int>)
    requires Closed(n) && 0 <= x < |n| && 0 <= ix < |table| && Ref(n, table[ix]) && table[ix] != x
    requires 0 <= b < |table| && IsChain(n, table[b], c) && x !in c
    requires c != [] ==> n[c[0]].prev == Nil
    requires b != ix && table[ix] != Nil ==> table[ix] !in c
    requires clearPrev || n[x].prev == Nil
    ensures var r := Place(n, table, x, ix, clearPrev);
      var d := if b == ix then [x] + c else c;
      d != [] ==> r.0[d[0]].prev == Nil
  {
    PlaceEffect(n, table, x, ix, clearPrev);
  }

  /** The last node moved, the nodes moved before it, and the state they left. */
  lemma RelinkLast(nodes: seq<Node>, xs: seq<int>, dest: int -> int, newCap: int, clearPrev: bool)
    requires Placeable(nodes, xs, dest, newCap) && xs != []
    ensures var ys, x := xs[..|xs| - 1], xs[|xs| - 1];
      Placeable(nodes, ys, dest, newCap) &&
      var r' := Relink(nodes, ys, dest, newCap, clearPrev);
      var ix := Target(nodes, x, dest);
      0 <= ix < |r'.1| &&
      Relink(nodes, xs, dest, newCap, clearPrev) == Place(r'.0, r'.1, x, ix, clearPrev) &&
      forall b :: Stacked(nodes, xs, dest, newCap, b) ==
        if b == ix then [x] + Stacked(nodes, ys, dest, newCap, b) else Stacked(nodes, ys, dest, newCap, b)
  {
    var ys, x := xs[..|xs| - 1], xs[|xs| - 1];
    forall b
      ensures Stacked(nodes, xs, dest, newCap, b) ==
        if b == Target(nodes, x, dest) then [x] + Stacked(nodes, ys, dest, newCap, b)
        else Stacked(nodes, ys, dest, newCap, b)
    {
      assert [] + Stacked(nodes, ys, dest, newCap, b) == Stacked(nodes, ys, dest, newCap, b);
    }
  }

  /** The facts about the nodes moved before the last one that each step needs. */
  lemma RelinkBefore(nodes: seq<Node>, xs: seq<int>, dest: int -> int, newCap: int, clearPrev: bool)
    requires Placeable(nodes, xs, dest, newCap) && Distinct(xs) && xs != []
    ensures var ys, x := xs[..|xs| - 1], xs[|xs| - 1];
      Placeable(nodes, ys, dest, newCap) && Distinct(ys) &&
      var r' := Relink(nodes, ys, dest, newCap, clearPrev);
      var ix := Target(nodes, x, dest);
      x !in ys && 0 <= ix < newCap && r'.1[ix] != x &&
      forall b :: 0 <= b < newCap && b != ix && r'.1[ix] != Nil ==> r'.1[ix] !in Stacked(nodes, ys, dest, newCap, b)
  {
    var ys, x := xs[..|xs| - 1], xs[|xs| - 1];
    DistinctPrefix(ys, xs);
    RelinkFrame(nodes, ys, dest, newCap, clearPrev);
    RelinkChains(nodes, ys, dest, newCap, clearPrev);
    var r' := Relink(nodes, ys, dest, newCap, clearPrev);
    var ix := Target(nodes, x, dest);
    var h := r'.1[ix];
    if h != Nil {
      var c := Stacked(nodes, ys, dest, newCap, ix);
      assert h == c[0] && h in c;
      StackedIn(nodes, ys, dest, newCap, ix, h);
      forall b | 0 <= b < newCap && b != ix
        ensures h !in Stacked(nodes, ys, dest, newCap, b)
      {
        StackedIn(nodes, ys, dest, newCap, b, h);
      }
    }
  }

  /** After moving the distinct nodes `xs`, each new bucket heads exactly the chain
      `Stacked` describes. */
  lemma {:induction false} RelinkChains(nodes: seq<Node>, xs: seq<int>, dest: int -> int, newCap: int, clearPrev: bool)
    requires Placeable(nodes, xs, dest, newCap) && Distinct(xs)
    ensures var r := Relink(nodes, xs, dest, newCap, clearPrev);
      forall b :: 0 <= b < newCap ==> IsChain(r.0, r.1[b], Stacked(nodes, xs, dest, newCap, b))
    decreases |xs|
  {
    var r := Relink(nodes, xs, dest, newCap, clearPrev);
    if xs != [] {
      var ys, x := xs[..|xs| - 1], xs[|xs| - 1];
      DistinctPrefix(ys, xs);
      RelinkChains(nodes, ys, dest, newCap, clearPrev);
      RelinkFrame(nodes, ys, dest, newCap, clearPrev);
      RelinkLast(nodes, xs, dest, newCap, clearPrev);
      var r' := Relink(nodes, ys, dest, newCap, clearPrev);
      var ix := Target(nodes, x, dest);
      forall b | 0 <= b < newCap
        ensures IsChain(r.0, r.1[b], Stacked(nodes, xs, dest, newCap, b))
      {
        StackedIn(nodes, ys, dest, newCap, b, x);
        PlaceChain(r'.0, r'.1, x, ix, clearPrev, b, Stacked(nodes, ys, dest, newCap, b));
      }
    }
  }

  /** Below the head of each new chain, `prev` names the predecessor. */
  lemma {:induction false} RelinkBackLinked(nodes: seq<Node>, xs: seq<int>, dest: int -> int, newCap: int, clearPrev: bool)
    requires Placeable(nodes, xs, dest, newCap) && Distinct(xs)
    ensures var r := Relink(nodes, xs, dest, newCap, clearPrev);
      forall b :: 0 <= b < newCap ==> BackLinks(r.0, Stacked(nodes, xs, dest, newCap, b))
    decreases |xs|
  {
    if xs != [] {
      var ys, x := xs[..|xs| - 1], xs[|xs| - 1];
      RelinkBefore(nodes, xs, dest, newCap, clearPrev);
      RelinkBackLinked(nodes, ys, dest, newCap, clearPrev);
      RelinkChains(nodes, ys, dest, newCap, clearPrev);
      RelinkLast(nodes, xs, dest, newCap, clearPrev);
      var r' := Relink(nodes, ys, dest, newCap, clearPrev);
      var ix := Target(nodes, x, dest);
      forall b | 0 <= b < newCap
        ensures BackLinks(Relink(nodes, xs, dest, newCap, clearPrev).0, Stacked(nodes, xs, dest, newCap, b))
      {
        StackedDistinct(nodes, ys, dest, newCap, b);
        StackedIn(nodes, ys, dest, newCap, b, x);
        PlaceBackLinks(r'.0, r'.1, x, ix, clearPrev, b, Stacked(nodes, ys, dest, newCap, b));
      }
    }
  }

  /** When `prev` is reset on every move, every new head has a NULL `prev`. */
  lemma {:induction false} RelinkHeadsCleared(nodes: seq<Node>, xs: seq<int>, dest: int -> int, newCap: int)
    requires Placeable(nodes, xs, dest, newCap) && Distinct(xs)
    ensures var r := Relink(nodes, xs, dest, newCap, true);
      forall b :: 0 <= b < newCap && Stacked(nodes, xs, dest, newCap, b) != [] ==>
        r.0[Stacked(nodes, xs, dest, newCap, b)[0]].prev == Nil
    decreases |xs|
  {
    if xs != [] {
      var ys, x := xs[..|xs| - 1], xs[|xs| - 1];
      RelinkBefore(nodes, xs, dest, newCap, true);
      RelinkHeadsCleared(nodes, ys, dest, newCap);
      RelinkChains(nodes, ys, dest, newCap, true);
      RelinkLast(nodes, xs, dest, newCap, true);
      var r' := Relink(nodes, ys, dest, newCap, true);
      var ix := Target(nodes, x, dest);
      forall b | 0 <= b < newCap
        ensures var d := Stacked(nodes, xs, dest, newCap, b);
          d != [] ==> Relink(nodes, xs, dest, newCap, true).0[d[0]].prev == Nil
      {
        StackedIn(nodes, ys, dest, newCap, b, x);
        PlaceHead(r'.0, r'.1, x, ix, true, b, Stacked(nodes, ys, dest, newCap, b));
      }
    }
  }

  /** The new bucket array holds exactly the chains `Stacked` describes, with their back
      links right. */
  lemma RebuiltChains(s: State, dest: int -> int, newCap: int, clearPrev: bool)
    requires Walkable(s) && Placeable(s.nodes, Visit(s), dest, newCap)
    ensures var t := Rebuilt(s, dest, newCap, clearPrev);
      Chained(t) && BackLinked(t) &&
      forall b :: 0 <= b < newCap ==> Bucket(t, b) == Stacked(s.nodes, Visit(s), dest, newCap, b)
  {
    var t := Rebuilt(s, dest, newCap, clearPrev);
    RelinkChains(s.nodes, Visit(s), dest, newCap, clearPrev);
    RelinkBackLinked(s.nodes, Visit(s), dest, newCap, clearPrev);
    forall b | 0 <= b < newCap
      ensures HasChain(t.nodes, t.buckets[b]) &&
              Chain(t.nodes, t.buckets[b]) == Stacked(s.nodes, Visit(s), dest, newCap, b)
    {
      ChainIs(t.nodes, t.buckets[b], Stacked(s.nodes, Visit(s), dest, newCap, b));
    }
  }

  /** Moving the nodes leaves the walk meeting each node as often as before. */
  lemma RebuiltCount(s: State, dest: int -> int, newCap: int, clearPrev: bool, y: int)
    requires Walkable(s) && Placeable(s.nodes, Visit(s), dest, newCap)
    ensures var t := Rebuilt(s, dest, newCap, clearPrev);
      Chained(t) && multiset(Visit(t))[y] == multiset(Visit(s))[y]
  {
    var t := Rebuilt(s, dest, newCap, clearPrev);
    var xs := Visit(s);
    RebuiltChains(s, dest, newCap, clearPrev);
    var hit := if 0 <= y < |s.nodes| then Target(s.nodes, y, dest) else -1;
    forall b | 0 <= b < newCap
      ensures multiset(Bucket(t, b))[y] == if b == hit then multiset(xs)[y] else 0
    {
      StackedCount(s.nodes, xs, dest, newCap, b, y);
    }
    if y in xs {
      var j :| 0 <= j < |xs| && xs[j] == y;
      VisitCountOne(t, y, multiset(xs)[y], hit);
    } else {
      VisitCountNone(t, y);
    }
  }

  /** Moving the nodes loses none and duplicates none. */
  lemma RebuiltVisit(s: State, dest: int -> int, newCap: int, clearPrev: bool)
    requires Walkable(s) && Placeable(s.nodes, Visit(s), dest, newCap)
    ensures var t := Rebuilt(s, dest, newCap, clearPrev);
      Walkable(t) && multiset(Visit(t)) == multiset(Visit(s))
  {
    var t := Rebuilt(s, dest, newCap, clearPrev);
    RebuiltChains(s, dest, newCap, clearPrev);
    forall y
      ensures multiset(Visit(t))[y] == multiset(Visit(s))[y] <= 1
    {
      RebuiltCount(s, dest, newCap, clearPrev, y);
    }
  }

  /** Moving the nodes keeps the (key, data) pairs of the table, as a multiset. */
  lemma RebuiltContents(s: State, dest: int -> int, newCap: int, clearPrev: bool)
    requires Walkable(s) && Placeable(s.nodes, Visit(s), dest, newCap)
    ensures var t := Rebuilt(s, dest, newCap, clearPrev);
      Chained(t) && multiset(Contents(t)) == multiset(Contents(s))
  {
    var t := Rebuilt(s, dest, newCap, clearPrev);
    RebuiltVisit(s, dest, newCap, clearPrev);
    VisitInRange(s);
    VisitInRange(t);
    KeyDataPermuted(t.nodes, s.nodes, Visit(t), Visit(s));
  }

  /** `resizeTable` as written: `size` and the threshold stay, every node is kept with its
      key and data, and new bucket `b` holds, newest first, the nodes whose hash under the
      old capacity, reduced modulo the new one, is `b`. */
  lemma ResizeEffect(s: State, newCap: int)
    requires Resizable(s, newCap)
    ensures var t := Resize(s, newCap);
      t.capacity == newCap && t.size == s.size && t.threshold == s.threshold && t.freed == s.freed &&
      Walkable(t) && multiset(Visit(t)) == multiset(Visit(s)) &&
      multiset(Contents(t)) == multiset(Contents(s)) &&
      forall b :: 0 <= b < newCap ==> Bucket(t, b) == Stacked(s.nodes, Visit(s), Reindex(s.capacity, newCap), newCap, b)
  {
    RebuiltChains(s, Reindex(s.capacity, newCap), newCap, false);
    RebuiltVisit(s, Reindex(s.capacity, newCap), newCap, false);
    RebuiltContents(s, Reindex(s.capacity, newCap), newCap, false);
  }

  /** Every node reachable before `resizeTable` ends in the bucket given by its hash under
      the old capacity, reduced modulo the new one. */
  lemma ResizeTargets(s: State, newCap: int)
    requires Resizable(s, newCap)
    ensures var t := Resize(s, newCap);
      Chained(t) &&
      forall y :: y in Visit(s) ==>
        0 <= y < |s.nodes| && newCap > 0 && 0 <= BucketOf(s.capacity, s.nodes[y].key, newCap) < newCap &&
        y in Bucket(t, BucketOf(s.capacity, s.nodes[y].key, newCap))
  {
    var t := Resize(s, newCap);
    var xs := Visit(s);
    RebuiltChains(s, Reindex(s.capacity, newCap), newCap, false);
    forall y | y in xs
      ensures 0 <= y < |s.nodes| && newCap > 0 && 0 <= BucketOf(s.capacity, s.nodes[y].key, newCap) < newCap &&
              y in Bucket(t, BucketOf(s.capacity, s.nodes[y].key, newCap))
    {
      var j :| 0 <= j < |xs| && xs[j] == y;
      var b := Target(s.nodes, y, Reindex(s.capacity, newCap));
      StackedCount(s.nodes, xs, Reindex(s.capacity, newCap), newCap, b, y);
      assert multiset(Stacked(s.nodes, xs, Reindex(s.capacity, newCap), newCap, b))[y] > 0;
    }
  }

  /** Moving the nodes keeps the table consistent, whichever bucket each node is given. */
  lemma RebuiltConsistent(s: State, dest: int -> int, newCap: int, clearPrev: bool)
    requires Consistent(s) && Placeable(s.nodes, Visit(s), dest, newCap)
    ensures Consistent(Rebuilt(s, dest, newCap, clearPrev))
  {
    var t := Rebuilt(s, dest, newCap, clearPrev);
    RebuiltChains(s, dest, newCap, clearPrev);
    RebuiltVisit(s, dest, newCap, clearPrev);
    assert |Visit(t)| == |multiset(Visit(t))| == |multiset(Visit(s))| == |Visit(s)|;
    forall y | y in Visit(t)
      ensures y !in t.freed
    {
      assert y in multiset(Visit(s));
    }
  }

  /** `resizeTable` as written keeps the table consistent (its heads may keep a stale
      `prev`, so it need not stay fully doubly linked). */
  lemma ResizeConsistent(s: State, newCap: int)
    requires Consistent(s) && Resizable(s, newCap)
    ensures Consistent(Resize(s, newCap))
  {
    RebuiltConsistent(s, Reindex(s.capacity, newCap), newCap, false);
  }

  /** The corrected resize keeps the table consistent and fully doubly linked. */
  lemma ResizeIntendedLinked(s: State, newCap: int)
    requires Consistent(s) && Placeable(s.nodes, Visit(s), Reindex(newCap, newCap), newCap)
    ensures Linked(ResizeIntended(s, newCap))
  {
    RebuiltConsistent(s, Reindex(newCap, newCap), newCap, true);
    RebuiltChains(s, Reindex(newCap, newCap), newCap, true);
    RelinkHeadsCleared(s.nodes, Visit(s), Reindex(newCap, newCap), newCap);
  }

  /** After the corrected resize every node sits in the bucket that `get` and `removeKey`
      compute for its key. */
  lemma ResizeIntendedPlaces(s: State, newCap: int)
    requires Walkable(s) && Placeable(s.nodes, Visit(s), Reindex(newCap, newCap), newCap)
    ensures var t := ResizeIntended(s, newCap);
      Chained(t) &&
      forall b, y :: 0 <= b < newCap && y in Bucket(t, b) ==> Index(t, t.nodes[y].key) == b
  {
    var t := ResizeIntended(s, newCap);
    RebuiltChains(s, Reindex(newCap, newCap), newCap, true);
    forall b, y | 0 <= b < newCap && y in Bucket(t, b)
      ensures Index(t, t.nodes[y].key) == b
    {
      StackedIn(s.nodes, Visit(s), Reindex(newCap, newCap), newCap, b, y);
    }
  }
}
