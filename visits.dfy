/** Facts about the walk over all buckets (`TableSpec.Visit`): which nodes it meets, how
    often, and how it changes when one bucket's chain changes. The counting is done on the
    chains as plain sequences (`Concat`), apart from the links that produced them. */
module Visits {
  import opened Chains
  import opened TableSpec

  // ---------------------------------------------------------------- chains as sequences

  /** One more chain adds its own count of each node. */
  lemma ConcatCount(cs: seq<seq<int>>, i: int, y: int)
    requires 0 < i <= |cs|
    ensures multiset(Concat(cs, i))[y] == multiset(Concat(cs, i - 1))[y] + multiset(cs[i - 1])[y]
  {
  }

  lemma {:induction false} PartCount(cs: seq<seq<int>>, b: int, i: int, y: int)
    requires 0 <= b < i <= |cs|
    ensures multiset(cs[b])[y] <= multiset(Concat(cs, i))[y]
    decreases i
  {
    ConcatCount(cs, i, y);
    if b < i - 1 {
      PartCount(cs, b, i - 1, y);
    }
  }

  lemma {:induction false} PairCount(cs: seq<seq<int>>, b1: int, b2: int, i: int, y: int)
    requires 0 <= b1 < b2 < i <= |cs|
    ensures multiset(cs[b1])[y] + multiset(cs[b2])[y] <= multiset(Concat(cs, i))[y]
    decreases i
  {
    ConcatCount(cs, i, y);
    if b2 < i - 1 {
      PairCount(cs, b1, b2, i - 1, y);
    } else {
      PartCount(cs, b1, i - 1, y);
    }
  }

  lemma {:induction false} ConcatBelow(cs: seq<seq<int>>, ds: seq<seq<int>>, idx: int, i: int)
    requires |ds| == |cs| && 0 <= idx < |cs|
    requires forall b :: 0 <= b < |cs| && b != idx ==> ds[b] == cs[b]
    requires 0 <= i <= idx
    ensures Concat(ds, i) == Concat(cs, i)
    decreases i
  {
    if i > 0 {
      ConcatBelow(cs, ds, idx, i - 1);
    }
  }

  lemma {:induction false} ChangeCount(cs: seq<seq<int>>, ds: seq<seq<int>>, idx: int, i: int, y: int)
    requires |ds| == |cs| && 0 <= idx < |cs|
    requires forall b :: 0 <= b < |cs| && b != idx ==> ds[b] == cs[b]
    requires idx < i <= |cs|
    ensures multiset(Concat(ds, i))[y] + multiset(cs[idx])[y] == multiset(Concat(cs, i))[y] + multiset(ds[idx])[y]
    decreases i
  {
    ConcatCount(cs, i, y);
    ConcatCount(ds, i, y);
    if i - 1 == idx {
      ConcatBelow(cs, ds, idx, i - 1);
    } else {
      ChangeCount(cs, ds, idx, i - 1, y);
    }
  }

  lemma {:induction false} CountOne(cs: seq<seq<int>>, y: int, m: int, hit: int, i: int)
    requires 0 <= i <= |cs|
    requires forall b :: 0 <= b < |cs| ==> multiset(cs[b])[y] == if b == hit then m else 0
    ensures multiset(Concat(cs, i))[y] == if 0 <= hit < i then m else 0
    decreases i
  {
    if i > 0 {
      CountOne(cs, y, m, hit, i - 1);
      ConcatCount(cs, i, y);
    }
  }

  lemma {:induction false} ConcatInRange(cs: seq<seq<int>>, i: int, n: int)
    requires 0 <= i <= |cs|
    requires forall b, k :: 0 <= b < |cs| && 0 <= k < |cs[b]| ==> 0 <= cs[b][k] < n
    ensures forall k :: 0 <= k < |Concat(cs, i)| ==> 0 <= Concat(cs, i)[k] < n
    decreases i
  {
    if i > 0 {
      ConcatInRange(cs, i - 1, n);
      var v, c := Concat(cs, i - 1), cs[i - 1];
      assert forall k :: 0 <= k < |v + c| ==> (v + c)[k] == if k < |v| then v[k] else c[k - |v|];
    }
  }

  /** The walk over the first `i` chains is a prefix of the walk over the first `j`. */
  lemma {:induction false} ConcatPrefix(cs: seq<seq<int>>, i: int, j: int)
    requires 0 <= i <= j <= |cs|
    ensures Concat(cs, i) <= Concat(cs, j)
    decreases j
  {
    if i < j {
      ConcatPrefix(cs, i, j - 1);
    }
  }

  // ---------------------------------------------------------------- the walk of a table

  /** A node of a bucket is met by the walk at least as often. */
  lemma BucketInVisit(s: State, b: int)
    requires Chained(s) && 0 <= b < |s.buckets|
    ensures multiset(Bucket(s, b)) <= multiset(Visit(s))
    ensures forall x :: x in Bucket(s, b) ==> x in Visit(s)
  {
    forall y
      ensures multiset(Bucket(s, b))[y] <= multiset(Visit(s))[y]
    {
      PartCount(Buckets(s), b, |s.buckets|, y);
    }
    forall x | x in Bucket(s, b)
      ensures x in Visit(s)
    {
      assert x in multiset(Bucket(s, b));
    }
  }

  /** In a walkable table each chain repeats no node. */
  lemma BucketDistinct(s: State, b: int)
    requires Walkable(s) && 0 <= b < |s.buckets|
    ensures Distinct(Bucket(s, b))
  {
    forall y
      ensures multiset(Bucket(s, b))[y] <= 1
    {
      PartCount(Buckets(s), b, |s.buckets|, y);
    }
  }

  /** In a walkable table two chains share no node. */
  lemma BucketsDisjoint(s: State, b1: int, b2: int)
    requires Walkable(s) && 0 <= b1 < |s.buckets| && 0 <= b2 < |s.buckets| && b1 != b2
    ensures forall x :: x in Bucket(s, b1) ==> x !in Bucket(s, b2)
  {
    forall x | x in Bucket(s, b1)
      ensures x !in Bucket(s, b2)
    {
      if b1 < b2 {
        PairCount(Buckets(s), b1, b2, |s.buckets|, x);
      } else {
        PairCount(Buckets(s), b2, b1, |s.buckets|, x);
      }
    }
  }

  /** When only bucket `idx` changes its chain, the walk gains and loses just what that
      chain gains and loses, node by node. */
  lemma VisitChange(s: State, t: State, idx: int, y: int)
    requires Chained(s) && Chained(t) && |t.buckets| == |s.buckets| && 0 <= idx < |s.buckets|
    requires forall b :: 0 <= b < |s.buckets| && b != idx ==> Bucket(t, b) == Bucket(s, b)
    ensures multiset(Visit(t))[y] + multiset(Bucket(s, idx))[y] == multiset(Visit(s))[y] + multiset(Bucket(t, idx))[y]
  {
    ChangeCount(Buckets(s), Buckets(t), idx, |s.buckets|, y);
  }

  /** A new head in front of bucket `idx`, every other bucket unchanged: the walk meets
      the new head once more. */
  lemma VisitGainsHead(s: State, t: State, idx: int, x: int)
    requires Chained(s) && Chained(t) && |t.buckets| == |s.buckets| && 0 <= idx < |s.buckets|
    requires forall b :: 0 <= b < |s.buckets| && b != idx ==> Bucket(t, b) == Bucket(s, b)
    requires Bucket(t, idx) == [x] + Bucket(s, idx)
    ensures multiset(Visit(t)) == multiset(Visit(s)) + multiset{x}
  {
    assert multiset(Bucket(t, idx)) == multiset{x} + multiset(Bucket(s, idx));
    forall y
      ensures multiset(Visit(t))[y] == (multiset(Visit(s)) + multiset{x})[y]
    {
      VisitChange(s, t, idx, y);
    }
  }

  /** Node `p` of bucket `idx` taken out, every other bucket unchanged: the walk meets
      that node once less. */
  lemma VisitLosesOne(s: State, t: State, idx: int, p: int)
    requires Chained(s) && Chained(t) && |t.buckets| == |s.buckets| && 0 <= idx < |s.buckets|
    requires forall b :: 0 <= b < |s.buckets| && b != idx ==> Bucket(t, b) == Bucket(s, b)
    requires 0 <= p < |Bucket(s, idx)|
    requires Bucket(t, idx) == Bucket(s, idx)[..p] + Bucket(s, idx)[p + 1..]
    ensures multiset(Visit(t)) + multiset{Bucket(s, idx)[p]} == multiset(Visit(s))
  {
    var x := Bucket(s, idx)[p];
    SplitAt(Bucket(s, idx), p);
    forall y
      ensures (multiset(Visit(t)) + multiset{x})[y] == multiset(Visit(s))[y]
    {
      VisitChange(s, t, idx, y);
    }
  }

  /** Node `y` sits `m` times in bucket `hit` and in no other bucket: the walk meets it
      `m` times. */
  lemma VisitCountOne(s: State, y: int, m: int, hit: int)
    requires Chained(s) && 0 <= hit < |s.buckets|
    requires forall b :: 0 <= b < |s.buckets| ==> multiset(Bucket(s, b))[y] == if b == hit then m else 0
    ensures multiset(Visit(s))[y] == m
  {
    CountOne(Buckets(s), y, m, hit, |s.buckets|);
  }

  /** Node `y` sits in no bucket: the walk does not meet it. */
  lemma VisitCountNone(s: State, y: int)
    requires Chained(s)
    requires forall b :: 0 <= b < |s.buckets| ==> multiset(Bucket(s, b))[y] == 0
    ensures multiset(Visit(s))[y] == 0
  {
    CountOne(Buckets(s), y, 0, -1, |s.buckets|);
  }

  /** The walk meets only nodes of the heap. */
  lemma VisitInRange(s: State)
    requires Chained(s)
    ensures forall k :: 0 <= k < |Visit(s)| ==> 0 <= Visit(s)[k] < |s.nodes|
  {
    ConcatInRange(Buckets(s), |s.buckets|, |s.nodes|);
  }

  /** Every (key, data) pair stored in the table, in the order of the walk. */
  ghost function Contents(s: State): (kv: seq<(int, int)>)
    requires Chained(s)
    ensures |kv| == |Visit(s)|
  {
    VisitInRange(s);
    KeyData(s.nodes, Visit(s))
  }

  /** A walk that meets node `x` once more than another, over heaps that agree on keys and
      data, stores the pair of `x` once more. */
  lemma ContentsGain(s: State, t: State, x: int)
    requires Chained(s) && Chained(t) && 0 <= x < |t.nodes| && |s.nodes| <= |t.nodes|
    requires forall y :: 0 <= y < |s.nodes| ==> t.nodes[y].key == s.nodes[y].key && t.nodes[y].data == s.nodes[y].data
    requires multiset(Visit(t)) == multiset(Visit(s)) + multiset{x}
    ensures multiset(Contents(t)) == multiset(Contents(s)) + multiset{(t.nodes[x].key, t.nodes[x].data)}
  {
    var v := Visit(s);
    VisitInRange(s);
    VisitInRange(t);
    assert multiset(Visit(t)) == multiset(v + [x]);
    assert forall k :: 0 <= k < |v + [x]| ==> 0 <= (v + [x])[k] < |t.nodes|;
    KeyDataPermuted(t.nodes, t.nodes, Visit(t), v + [x]);
    KeyDataAppend(s.nodes, t.nodes, v, x);
  }
}
