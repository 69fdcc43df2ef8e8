/** What `removeKey` does to the table: the unlinking of the matched node, stated over the
    chains of its buckets, and the removal as a whole. */
module Removes {
  import opened Chains
  import opened TableSpec
  import opened Visits
  import opened Resizes
  import opened Updates

  // ---------------------------------------------------------------- the unlinking

  /** The pointers that the unlinking of node `c[p]` of bucket `index` changes, when its
      `prev` is NULL exactly for the head: the bucket slot (for the head), the `next` of its
      predecessor (otherwise), and the `prev` of its successor. Keys and data stay. */
  lemma UnlinkFrame(s: State, index: int, c: seq<int>, p: int)
    requires Shaped(s) && 0 <= index < |s.buckets| && IsChain(s.nodes, s.buckets[index], c)
    requires Distinct(c) && BackLinks(s.nodes, c) && 0 <= p < |c|
    requires p == 0 ==> s.nodes[c[0]].prev == Nil
    ensures var t := Unlink(s, index, c[p]);
      |t.nodes| == |s.nodes| &&
      t.buckets == (if p == 0 then s.buckets[index := After(c, p)] else s.buckets) &&
      (forall y :: 0 <= y < |s.nodes| ==> t.nodes[y].key == s.nodes[y].key && t.nodes[y].data == s.nodes[y].data) &&
      (forall y :: 0 <= y < |s.nodes| ==>
        t.nodes[y].next == if p > 0 && y == c[p - 1] then After(c, p) else s.nodes[y].next) &&
      (forall y :: 0 <= y < |s.nodes| ==>
        t.nodes[y].prev == if y == After(c, p) then (if p == 0 then Nil else c[p - 1]) else s.nodes[y].prev)
  {
    DistinctIndices(c);
    if p + 1 < |c| {
      ChainStep(s.nodes, s.buckets[index], c, p);
    }
    if p > 0 {
      assert s.nodes[c[p]].prev == c[p - 1];
    }
  }

  /** A chain none of whose nodes has a changed link stays a chain, with its back links. */
  lemma FrameChain(n1: seq<Node>, n2: seq<Node>, head: int, c: seq<int>)
    requires IsChain(n1, head, c) && |n2| == |n1|
    requires forall k :: 0 <= k < |c| ==> n2[c[k]].next == n1[c[k]].next && n2[c[k]].prev == n1[c[k]].prev
    ensures IsChain(n2, head, c) && (BackLinks(n1, c) ==> BackLinks(n2, c))
  {
    ChainKept(n1, n2, head, c);
  }

  /** Unlinking the head: the chain goes on from the old second node, which now has a NULL
      `prev`, and the back links behind it stay. */
  lemma UnlinkHead(n1: seq<Node>, n2: seq<Node>, head: int, c: seq<int>)
    requires IsChain(n1, head, c) && Distinct(c) && BackLinks(n1, c) && c != [] && |n2| == |n1|
    requires forall y :: 0 <= y < |n1| ==> n2[y].next == n1[y].next
    requires forall y :: 0 <= y < |n1| && y != After(c, 0) ==> n2[y].prev == n1[y].prev
    requires |c| > 1 ==> n2[c[1]].prev == Nil
    ensures IsChain(n2, After(c, 0), c[1..]) && BackLinks(n2, c[1..])
    ensures c[1..] != [] ==> n2[c[1..][0]].prev == Nil
  {
    DistinctIndices(c);
    ChainTail(n1, head, c);
    if |c| > 1 {
      ChainStep(n1, head, c, 0);
    }
    ChainKept(n1, n2, n1[c[0]].next, c[1..]);
    forall k | 0 < k < |c[1..]|
      ensures n2[c[1..][k]].prev == c[1..][k - 1]
    {
      assert c[1..][k] == c[k + 1] != c[1];
    }
  }

  /** Unlinking a node behind the head: its predecessor's `next` and its successor's `prev`
      bypass it, and the chain keeps the other nodes in order, with their back links. */
  lemma UnlinkMiddle(n1: seq<Node>, n2: seq<Node>, head: int, c: seq<int>, p: int)
    requires IsChain(n1, head, c) && Distinct(c) && BackLinks(n1, c) && 0 < p < |c| && |n2| == |n1|
    requires forall y :: 0 <= y < |n1| ==> n2[y].next == if y == c[p - 1] then After(c, p) else n1[y].next
    requires forall y :: 0 <= y < |n1| && y != After(c, p) ==> n2[y].prev == n1[y].prev
    requires p + 1 < |c| ==> n2[c[p + 1]].prev == c[p - 1]
    ensures var d := c[..p] + c[p + 1..];
      IsChain(n2, head, d) && BackLinks(n2, d) && n2[d[0]].prev == n1[c[0]].prev
  {
    DistinctIndices(c);
    if p + 1 < |c| {
      ChainStep(n1, head, c, p);
    }
    ChainSplice(n1, n2, head, c, p);
    var d := c[..p] + c[p + 1..];
    assert d[0] == c[0];
    forall k | 0 < k < |d|
      ensures n2[d[k]].prev == d[k - 1]
    {
      if k < p {
        assert d[k] == c[k] && d[k - 1] == c[k - 1];
      } else if k == p {
        assert d[k] == c[p + 1] && d[k - 1] == c[p - 1];
      } else {
        assert d[k] == c[k + 1] && d[k - 1] == c[k];
      }
    }
  }

  /** The bucket that loses node `c[p]` keeps the rest of its chain, in order. */
  lemma UnlinkOwnBucket(s: State, index: int, p: int)
    requires Walkable(s) && BackLinked(s) && HeadsUnlinked(s) && 0 <= index < |s.buckets|
    requires 0 <= p < |Bucket(s, index)|
    ensures var c := Bucket(s, index);
      var t := Unlink(s, index, c[p]);
      var d := c[..p] + c[p + 1..];
      IsChain(t.nodes, t.buckets[index], d) && BackLinks(t.nodes, d) &&
      (d != [] ==> t.nodes[d[0]].prev == Nil)
  {
    var c := Bucket(s, index);
    BucketDistinct(s, index);
    if p == 0 {
      assert c[..p] + c[p + 1..] == c[1..];
      UnlinkOwnHead(s, index, c);
    } else {
      UnlinkFrame(s, index, c, p);
      UnlinkMiddle(s.nodes, Unlink(s, index, c[p]).nodes, s.buckets[index], c, p);
    }
  }

  /** The head case of `UnlinkOwnBucket`. */
  lemma UnlinkOwnHead(s: State, index: int, c: seq<int>)
    requires Shaped(s) && 0 <= index < |s.buckets| && IsChain(s.nodes, s.buckets[index], c)
    requires Distinct(c) && BackLinks(s.nodes, c) && c != [] && s.nodes[c[0]].prev == Nil
    ensures var t := Unlink(s, index, c[0]);
      IsChain(t.nodes, t.buckets[index], c[1..]) && BackLinks(t.nodes, c[1..]) &&
      (c[1..] != [] ==> t.nodes[c[1..][0]].prev == Nil)
  {
    UnlinkFrame(s, index, c, 0);
    UnlinkHead(s.nodes, Unlink(s, index, c[0]).nodes, s.buckets[index], c);
  }

  /** Every other bucket keeps its chain: none of its nodes is a neighbour of `c[p]`. */
  lemma UnlinkOtherBucket(s: State, index: int, p: int, b: int)
    requires Walkable(s) && BackLinked(s) && HeadsUnlinked(s) && 0 <= index < |s.buckets|
    requires 0 <= p < |Bucket(s, index)| && 0 <= b < |s.buckets| && b != index
    ensures var c := Bucket(s, index);
      var t := Unlink(s, index, c[p]);
      var e := Bucket(s, b);
      IsChain(t.nodes, t.buckets[b], e) && BackLinks(t.nodes, e) &&
      (e != [] ==> t.nodes[e[0]].prev == Nil)
  {
    var c := Bucket(s, index);
    var t := Unlink(s, index, c[p]);
    var e := Bucket(s, b);
    BucketDistinct(s, index);
    UnlinkFrame(s, index, c, p);
    BucketsDisjoint(s, index, b);
    forall k | 0 <= k < |e|
      ensures e[k] != After(c, p) && (p > 0 ==> e[k] != c[p - 1])
    {
      assert e[k] in e;
      if p + 1 < |c| {
        assert c[p + 1] in c;
      }
      if p > 0 {
        assert c[p - 1] in c;
      }
    }
    FrameChain(s.nodes, t.nodes, s.buckets[b], e);
  }

  /** The chain of bucket `b` after unlinking node `c[p]` of bucket `index`. */
  lemma UnlinkBucket(s: State, index: int, p: int, b: int)
    requires Walkable(s) && BackLinked(s) && HeadsUnlinked(s) && 0 <= index < |s.buckets|
    requires 0 <= p < |Bucket(s, index)| && 0 <= b < |s.buckets|
    ensures var c := Bucket(s, index);
      var t := Unlink(s, index, c[p]);
      var d := if b == index then c[..p] + c[p + 1..] else Bucket(s, b);
      IsChain(t.nodes, t.buckets[b], d) && BackLinks(t.nodes, d) &&
      (d != [] ==> t.nodes[d[0]].prev == Nil)
  {
    if b == index {
      UnlinkOwnBucket(s, index, p);
    } else {
      UnlinkOtherBucket(s, index, p, b);
    }
  }

  /** The chains after unlinking node `c[p]` of bucket `index`: that bucket loses the node
      and keeps the order of the rest, every other bucket keeps its chain, and the back
      links and NULL head `prev`s stay right. */
  lemma UnlinkChains(s: State, index: int, p: int)
    requires Walkable(s) && BackLinked(s) && HeadsUnlinked(s) && 0 <= index < |s.buckets|
    requires 0 <= p < |Bucket(s, index)|
    ensures var c := Bucket(s, index);
      var t := Unlink(s, index, c[p]);
      Chained(t) && BackLinked(t) && HeadsUnlinked(t) &&
      Bucket(t, index) == c[..p] + c[p + 1..] &&
      forall b :: 0 <= b < |s.buckets| && b != index ==> Bucket(t, b) == Bucket(s, b)
  {
    var c := Bucket(s, index);
    var t := Unlink(s, index, c[p]);
    forall b | 0 <= b < |s.buckets|
      ensures HasChain(t.nodes, t.buckets[b]) &&
              Chain(t.nodes, t.buckets[b]) == (if b == index then c[..p] + c[p + 1..] else Bucket(s, b)) &&
              BackLinks(t.nodes, Chain(t.nodes, t.buckets[b])) &&
              (Chain(t.nodes, t.buckets[b]) != [] ==> t.nodes[Chain(t.nodes, t.buckets[b])[0]].prev == Nil)
    {
      UnlinkBucket(s, index, p, b);
      ChainIs(t.nodes, t.buckets[b], if b == index then c[..p] + c[p + 1..] else Bucket(s, b));
    }
  }

  /** Unlinking node `c[p]` keeps the table doubly linked and takes exactly its pair out of
      the stored pairs. */
  lemma UnlinkLinked(s: State, index: int, p: int)
    requires Linked(s) && 0 <= index < |s.buckets| && 0 <= p < |Bucket(s, index)|
    ensures var c := Bucket(s, index);
      var t := Unlink(s, index, c[p]);
      Linked(t) && multiset(Contents(t)) + multiset{Entries(s, index)[p]} == multiset(Contents(s))
  {
    var c := Bucket(s, index);
    var x := c[p];
    var t := Unlink(s, index, x);
    BucketDistinct(s, index);
    UnlinkFrame(s, index, c, p);
    UnlinkChains(s, index, p);
    VisitLosesOne(s, t, index, p);
    UnlinkWalk(s, t, x);
    ContentsGain(t, s, x);
  }

  /** A walk that meets node `x` once less than a walk without repeats, with `x` freed and
      nothing else: no repeats, `size` one less and no freed node met. */
  lemma UnlinkWalk(s: State, t: State, x: int)
    requires Consistent(s) && Chained(t) && multiset(Visit(t)) + multiset{x} == multiset(Visit(s))
    requires t.size == s.size - 1 && t.freed == s.freed + {x} && 0 <= x < |t.nodes| && |t.nodes| == |s.nodes|
    requires BackLinked(t)
    ensures Consistent(t)
  {
    assert multiset(Visit(s))[x] <= 1;
    forall y
      ensures multiset(Visit(t))[y] <= 1
    {
      assert multiset(Visit(s))[y] <= 1;
    }
    assert |Visit(t)| + 1 == |multiset(Visit(s))| == |Visit(s)|;
    forall y | y in Visit(t)
      ensures y !in t.freed
    {
      assert y in multiset(Visit(t));
      assert y in multiset(Visit(s));
    }
  }

  /** Unlinking node `c[p]` takes its pair out of its bucket's pairs, keeping the order of
      the rest, and leaves every other bucket's pairs as they were. */
  lemma UnlinkEntries(s: State, index: int, p: int)
    requires Linked(s) && 0 <= index < |s.buckets| && 0 <= p < |Bucket(s, index)|
    ensures var c := Bucket(s, index);
      var kv := Entries(s, index);
      var t := Unlink(s, index, c[p]);
      Chained(t) && Entries(t, index) == kv[..p] + kv[p + 1..] &&
      forall b :: 0 <= b < |s.buckets| && b != index ==> Entries(t, b) == Entries(s, b)
  {
    var c := Bucket(s, index);
    var t := Unlink(s, index, c[p]);
    BucketDistinct(s, index);
    UnlinkFrame(s, index, c, p);
    UnlinkChains(s, index, p);
    KeyDataOmit(s.nodes, c, p);
    KeyDataKept(s.nodes, t.nodes, c[..p] + c[p + 1..]);
    forall b | 0 <= b < |s.buckets| && b != index
      ensures Entries(t, b) == Entries(s, b)
    {
      KeyDataKept(s.nodes, t.nodes, Bucket(s, b));
    }
  }

  // ---------------------------------------------------------------- removeKey

  /** A key with no node in its bucket leaves the table untouched. */
  lemma RemoveAbsent(s: State, key: int)
    requires RemoveDefined(s, key)
    requires var kv := Entries(s, Index(s, key)); forall m :: 0 <= m < |kv| ==> kv[m].0 != key
    ensures Remove(s, key) == s
  {
  }

  /** `removeKey` on any table where it is defined, doubly linked or not: an absent key
      changes nothing; otherwise the first node with the key is freed, `size` drops by one
      and the capacity halves exactly when the new load factor is below a quarter of the
      threshold. */
  lemma RemoveCounts(s: State, key: int)
    requires RemoveDefined(s, key)
    ensures var t := Remove(s, key);
      var c := Bucket(s, Index(s, key));
      var p := Match(s, key);
      t.threshold == s.threshold &&
      (p == |c| ==> t == s) &&
      (p < |c| ==>
        s.nodes[c[p]].key == key && t.size == s.size - 1 && t.freed == s.freed + {c[p]} &&
        t.capacity == (if (s.size - 1) as real / s.capacity as real < s.threshold / 4.0 then s.capacity / 2 else s.capacity))
  {
    var i := Index(s, key);
    var c := Bucket(s, i);
    var p := Match(s, key);
    if p < |c| {
      var u := Unlink(s, i, c[p]);
      if Shrinks(u) {
        assert Resize(u, u.capacity / 2).freed == u.freed;
      }
    }
  }

  /** `removeKey` on a doubly linked table keeps it consistent. When the key's bucket holds
      the key, the first such node goes: one node fewer, its pair (the key with the data
      `get` returned) out of the stored pairs, and the capacity halved exactly when the new
      load factor is below a quarter of the threshold. Otherwise nothing changes. */
  lemma RemoveEffect(s: State, key: int)
    requires Linked(s) && RemoveDefined(s, key)
    ensures var t := Remove(s, key);
      var kv := Entries(s, Index(s, key));
      Consistent(t) && t.threshold == s.threshold &&
      ((forall m :: 0 <= m < |kv| ==> kv[m].0 != key) ==> t == s) &&
      ((exists m :: 0 <= m < |kv| && kv[m].0 == key) ==>
        t.size == s.size - 1 &&
        t.capacity == (if (s.size - 1) as real / s.capacity as real < s.threshold / 4.0 then s.capacity / 2 else s.capacity) &&
        multiset(Contents(t)) + multiset{(key, Get(s, key))} == multiset(Contents(s)))
  {
    var i := Index(s, key);
    var kv := Entries(s, i);
    var p := Match(s, key);
    if p < |kv| {
      var u := Unlink(s, i, Bucket(s, i)[p]);
      UnlinkLinked(s, i, p);
      if Shrinks(u) {
        ResizeConsistent(u, u.capacity / 2);
        ResizeEffect(u, u.capacity / 2);
      }
    }
  }

  /** `removeKey` that does not halve the table keeps it doubly linked. */
  lemma RemoveLinked(s: State, key: int)
    requires Linked(s) && RemoveDefined(s, key)
    requires (s.size - 1) as real / s.capacity as real >= s.threshold / 4.0
    ensures Linked(Remove(s, key))
  {
    var i := Index(s, key);
    if Match(s, key) < |Entries(s, i)| {
      UnlinkLinked(s, i, Match(s, key));
    }
  }

  /** Dropping a pair with another key does not change the search. */
  lemma LookupOmit(kv: seq<(int, int)>, p: int, key: int)
    requires 0 <= p < |kv| && kv[p].0 != key
    ensures Lookup(kv[..p] + kv[p + 1..], key) == Lookup(kv, key)
  {
    var w := kv[..p] + kv[p + 1..];
    assert forall m :: 0 <= m < |w| ==> w[m] == if m < p then kv[m] else kv[m + 1];
    var q := Position(kv, key);
    var r := Position(w, key);
    if q < p {
      assert w[q] == kv[q];
      assert r == q;
    } else {
      assert q > p;
      if q < |kv| {
        assert w[q - 1] == kv[q];
      }
      assert r == q - 1;
    }
  }

  /** Pairs with other keys in front do not change the search. */
  lemma {:induction false} LookupSkip(a: seq<(int, int)>, b: seq<(int, int)>, key: int)
    requires forall m :: 0 <= m < |a| ==> a[m].0 != key
    ensures Lookup(a + b, key) == Lookup(b, key)
    decreases |a|
  {
    if a != [] {
      assert forall m :: 0 <= m < |a[1..]| ==> a[1..][m] == a[m + 1];
      LookupSkip(a[1..], b, key);
      assert a + b == [a[0]] + (a[1..] + b);
      LookupCons(a[1..] + b, key, a[0]);
    } else {
      assert a + b == b;
    }
  }

  /** `removeKey` below the quarter threshold, on a key its bucket holds, is the unlinking
      alone; on a key its bucket does not hold it changes nothing. */
  lemma RemoveNoShrink(s: State, key: int)
    requires RemoveDefined(s, key)
    requires (s.size - 1) as real / s.capacity as real >= s.threshold / 4.0
    ensures var i := Index(s, key);
      Remove(s, key) == if Match(s, key) < |Bucket(s, i)| then Unlink(s, i, Bucket(s, i)[Match(s, key)]) else s
  {
    var i := Index(s, key);
    var c := Bucket(s, i);
    if Match(s, key) < |c| {
      var t := Unlink(s, i, c[Match(s, key)]);
      assert t.size == s.size - 1 && t.capacity == s.capacity && t.threshold == s.threshold;
      assert !Shrinks(t);
    }
  }

  /** After a `removeKey` that does not halve the table, `get` of the removed key finds the
      next node with that key behind the removed one (an older duplicate), or -1. */
  lemma GetAfterRemove(s: State, key: int)
    requires Linked(s) && RemoveDefined(s, key)
    requires (s.size - 1) as real / s.capacity as real >= s.threshold / 4.0
    ensures var t := Remove(s, key);
      var kv := Entries(s, Index(s, key));
      var p := Match(s, key);
      GetDefined(t, key) && (p < |kv| ==> Get(t, key) == Lookup(kv[p + 1..], key))
  {
    var i := Index(s, key);
    var kv := Entries(s, i);
    var p := Match(s, key);
    RemoveNoShrink(s, key);
    if p < |kv| {
      var t := Unlink(s, i, Bucket(s, i)[p]);
      UnlinkEntries(s, i, p);
      assert Index(t, key) == i;
      assert Entries(t, i) == kv[..p] + kv[p + 1..];
      LookupSkip(kv[..p], kv[p + 1..], key);
      assert Get(t, key) == Lookup(kv[..p] + kv[p + 1..], key);
    }
  }

  /** A `removeKey` of a key that its bucket does not hold leaves `get` of it at -1. */
  lemma GetAbsentAfterRemove(s: State, key: int)
    requires RemoveDefined(s, key)
    requires var kv := Entries(s, Index(s, key)); forall m :: 0 <= m < |kv| ==> kv[m].0 != key
    ensures GetDefined(Remove(s, key), key) && Get(Remove(s, key), key) == -1
  {
    RemoveAbsent(s, key);
    LookupFirst(Entries(s, Index(s, key)), key);
  }

  /** A `removeKey` that does not halve the table leaves `get` of every other key as it was. */
  lemma GetOtherAfterRemove(s: State, key: int, other: int)
    requires Linked(s) && RemoveDefined(s, key) && GetDefined(s, other) && other != key
    requires (s.size - 1) as real / s.capacity as real >= s.threshold / 4.0
    ensures GetDefined(Remove(s, key), other) && Get(Remove(s, key), other) == Get(s, other)
  {
    var i, j := Index(s, key), Index(s, other);
    var kv := Entries(s, i);
    var p := Match(s, key);
    RemoveNoShrink(s, key);
    if p < |kv| {
      var t := Unlink(s, i, Bucket(s, i)[p]);
      UnlinkEntries(s, i, p);
      assert Index(t, other) == j;
      if i == j {
        LookupOmit(kv, p, other);
      }
    }
  }

  /** `removeKey` with the floor keeps a doubly linked table consistent and at least one
      bucket wide; above a capacity of one it is the `removeKey` of the source. */
  lemma RemoveIntendedFloor(s: State, key: int)
    requires Linked(s) && RemoveDefined(s, key)
    ensures var t := RemoveIntended(s, key);
      Consistent(t) && t.capacity >= 1 && (s.capacity > 1 ==> t == Remove(s, key))
  {
    RemoveEffect(s, key);
    var i := Index(s, key);
    if Match(s, key) < |Entries(s, i)| {
      UnlinkLinked(s, i, Match(s, key));
    }
  }
}
