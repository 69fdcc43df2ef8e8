/** Nodes and bucket chains. The heap of `struct Node` records is an arena: a node is named
    by its index in a sequence, and `Nil` stands for the NULL pointer. */
module Chains {

  const Nil: int := -1

  /** `struct Node`: a key, its data, and the `next` / `prev` links of its chain. */
  datatype Node = Node(key: int, data: int, next: int, prev: int)

  /** A link is NULL or names a node of the arena. */
  predicate Ref(nodes: seq<Node>, i: int)
  {
    i == Nil || 0 <= i < |nodes|
  }

  /** Every link stored in the arena is NULL or names a node of the arena. */
  predicate Closed(nodes: seq<Node>)
  {
    forall i :: 0 <= i < |nodes| ==> Ref(nodes, nodes[i].next) && Ref(nodes, nodes[i].prev)
  }

  /** Following `next` from `head` visits exactly the nodes of `c`, in order, and then
      reaches NULL. A cyclic list of links has no such `c`. */
  predicate IsChain(nodes: seq<Node>, head: int, c: seq<int>)
  {
    (forall k :: 0 <= k < |c| ==> 0 <= c[k] < |nodes|) &&
    (if c == [] then head == Nil else head == c[0] && nodes[c[|c| - 1]].next == Nil) &&
    (forall k {:trigger nodes[c[k]]} :: 0 <= k < |c| - 1 ==> nodes[c[k]].next == c[k + 1])
  }

  /** The node after `c[p]` in its chain, NULL for the tail. */
  function After(c: seq<int>, p: int): int
  {
    if 0 <= p && p + 1 < |c| then c[p + 1] else Nil
  }

  lemma ChainStep(nodes: seq<Node>, head: int, c: seq<int>, k: int)
    requires IsChain(nodes, head, c) && 0 <= k < |c| - 1
    ensures nodes[c[k]].next == c[k + 1]
  {
  }

  /** The `next` of every node of a chain names the node after it, or NULL at the tail. */
  lemma ChainNext(nodes: seq<Node>, head: int, c: seq<int>, k: int)
    requires IsChain(nodes, head, c) && 0 <= k < |c|
    ensures nodes[c[k]].next == After(c, k)
  {
    if k + 1 < |c| {
      ChainStep(nodes, head, c, k);
    }
  }

  lemma {:induction false} ChainsAgree(nodes: seq<Node>, head: int, c1: seq<int>, c2: seq<int>, k: nat)
    requires IsChain(nodes, head, c1) && IsChain(nodes, head, c2)
    requires k < |c1| && k < |c2|
    ensures c1[k] == c2[k]
  {
    if k > 0 {
      ChainsAgree(nodes, head, c1, c2, k - 1);
      ChainStep(nodes, head, c1, k - 1);
      ChainStep(nodes, head, c2, k - 1);
    }
  }

  /** The nodes reached from a head are determined by the links. */
  lemma ChainUnique(nodes: seq<Node>, head: int, c1: seq<int>, c2: seq<int>)
    requires IsChain(nodes, head, c1) && IsChain(nodes, head, c2)
    ensures c1 == c2
  {
    assert |c1| == |c2| by {
      if |c1| < |c2| && c1 != [] {
        var k := |c1| - 1;
        ChainsAgree(nodes, head, c1, c2, k);
        ChainStep(nodes, head, c2, k);
      }
      if |c2| < |c1| && c2 != [] {
        var k := |c2| - 1;
        ChainsAgree(nodes, head, c1, c2, k);
        ChainStep(nodes, head, c1, k);
      }
    }
    forall k | 0 <= k < |c1|
      ensures c1[k] == c2[k]
    {
      ChainsAgree(nodes, head, c1, c2, k);
    }
  }

  /** Following `next` from `head` reaches NULL after finitely many nodes. */
  ghost predicate HasChain(nodes: seq<Node>, head: int)
  {
    exists c :: IsChain(nodes, head, c)
  }

  /** The nodes of the chain that starts at `head`, from head to tail. */
  ghost function Chain(nodes: seq<Node>, head: int): (c: seq<int>)
    requires HasChain(nodes, head)
    ensures IsChain(nodes, head, c)
  {
    var c :| IsChain(nodes, head, c); c
  }

  lemma ChainIs(nodes: seq<Node>, head: int, c: seq<int>)
    requires IsChain(nodes, head, c)
    ensures HasChain(nodes, head) && Chain(nodes, head) == c
  {
    ChainUnique(nodes, head, c, Chain(nodes, head));
  }

  /** A chain survives any change to the heap that keeps the `next` links of its nodes. */
  lemma ChainKept(n1: seq<Node>, n2: seq<Node>, head: int, c: seq<int>)
    requires IsChain(n1, head, c)
    requires forall k :: 0 <= k < |c| ==> c[k] < |n2| && n2[c[k]].next == n1[c[k]].next
    ensures IsChain(n2, head, c)
  {
  }

  /** A node whose `next` is a chain's head heads that chain extended by itself. */
  lemma ChainCons(nodes: seq<Node>, x: int, head: int, c: seq<int>)
    requires IsChain(nodes, head, c) && 0 <= x < |nodes| && nodes[x].next == head
    ensures IsChain(nodes, x, [x] + c)
  {
    var d := [x] + c;
    forall k | 0 <= k < |d| - 1
      ensures nodes[d[k]].next == d[k + 1]
    {
      if k > 0 {
        ChainStep(nodes, head, c, k - 1);
      }
    }
  }

  /** The (key, data) pairs of a chain do not depend on the `next` and `prev` links. */
  lemma KeyDataKept(n1: seq<Node>, n2: seq<Node>, c: seq<int>)
    requires forall k :: 0 <= k < |c| ==> 0 <= c[k] < |n1| && c[k] < |n2|
    requires forall k :: 0 <= k < |c| ==> n2[c[k]].key == n1[c[k]].key && n2[c[k]].data == n1[c[k]].data
    ensures KeyData(n2, c) == KeyData(n1, c)
  {
  }

  /** Below the first node of `c`, every node's `prev` names its predecessor in `c`. */
  predicate BackLinks(nodes: seq<Node>, c: seq<int>)
  {
    (forall k :: 0 <= k < |c| ==> 0 <= c[k] < |nodes|) &&
    forall k {:trigger nodes[c[k]]} :: 0 < k < |c| ==> nodes[c[k]].prev == c[k - 1]
  }

  /** No node occurs twice. */
  ghost predicate Distinct(v: seq<int>)
  {
    forall x :: multiset(v)[x] <= 1
  }

  lemma CountTwo(v: seq<int>, i: int, j: int)
    requires 0 <= i < j < |v|
    ensures v[i] == v[j] ==> multiset(v)[v[i]] >= 2
  {
    assert v == v[..j] + v[j..];
    assert v[..j][i] == v[i];
    assert v[j..][0] == v[j];
  }

  /** A distinct sequence holds different nodes at different positions. */
  lemma DistinctIndices(v: seq<int>)
    requires Distinct(v)
    ensures forall i, j :: 0 <= i < j < |v| ==> v[i] != v[j]
  {
    forall i, j | 0 <= i < j < |v|
      ensures v[i] != v[j]
    {
      CountTwo(v, i, j);
    }
  }

  /** A prefix of a distinct sequence is distinct, and the next node is not in it. */
  lemma DistinctPrefix(u: seq<int>, v: seq<int>)
    requires Distinct(v) && u <= v
    ensures Distinct(u)
    ensures |u| < |v| ==> v[|u|] !in u
  {
    assert v == u + v[|u|..];
    forall x
      ensures multiset(u)[x] <= 1
    {
      assert multiset(v)[x] == multiset(u)[x] + multiset(v[|u|..])[x];
    }
    if |u| < |v| {
      assert v[|u|..][0] == v[|u|];
      assert multiset(v)[v[|u|]] == multiset(u)[v[|u|]] + multiset(v[|u|..])[v[|u|]];
    }
  }

  /** The links from the second node of a chain on form the rest of the chain. */
  lemma ChainTail(nodes: seq<Node>, head: int, c: seq<int>)
    requires IsChain(nodes, head, c) && c != []
    ensures IsChain(nodes, nodes[c[0]].next, c[1..])
  {
    if |c| > 1 {
      ChainStep(nodes, head, c, 0);
    }
    forall k | 0 <= k < |c[1..]| - 1
      ensures nodes[c[1..][k]].next == c[1..][k + 1]
    {
      ChainStep(nodes, head, c, k + 1);
    }
  }

  /** Bypassing node `c[p]` by giving its predecessor `c[p]`'s `next` takes `c[p]` out of
      the chain and keeps the order of the others. */
  lemma ChainSplice(n1: seq<Node>, n2: seq<Node>, head: int, c: seq<int>, p: int)
    requires IsChain(n1, head, c) && Distinct(c) && 0 < p < |c| && |n2| == |n1|
    requires n2[c[p - 1]].next == n1[c[p]].next
    requires forall y :: 0 <= y < |n1| && y != c[p - 1] ==> n2[y].next == n1[y].next
    ensures IsChain(n2, head, c[..p] + c[p + 1..])
  {
    DistinctIndices(c);
    var d := c[..p] + c[p + 1..];
    assert d[0] == c[0];
    if p + 1 < |c| {
      ChainStep(n1, head, c, p);
      assert d[|d| - 1] == c[|c| - 1];
    }
    forall k | 0 <= k < |d| - 1
      ensures n2[d[k]].next == d[k + 1]
    {
      if k < p - 1 {
        ChainStep(n1, head, c, k);
      } else if k == p - 1 {
        ChainStep(n1, head, c, p);
      } else {
        ChainStep(n1, head, c, k + 1);
      }
    }
  }

  /** The (key, data) pairs of two runs of nodes, one after the other. */
  lemma KeyDataConcat(nodes: seq<Node>, a: seq<int>, b: seq<int>)
    requires forall k :: 0 <= k < |a| ==> 0 <= a[k] < |nodes|
    requires forall k :: 0 <= k < |b| ==> 0 <= b[k] < |nodes|
    ensures KeyData(nodes, a + b) == KeyData(nodes, a) + KeyData(nodes, b)
  {
    var ab := a + b;
    assert forall k :: 0 <= k < |ab| ==> 0 <= ab[k] < |nodes|;
  }

  /** The pairs of a run extended by one node, over a heap that agrees on keys and data. */
  lemma KeyDataAppend(n1: seq<Node>, n2: seq<Node>, v: seq<int>, x: int)
    requires forall k :: 0 <= k < |v| ==> 0 <= v[k] < |n1|
    requires |n1| <= |n2| && 0 <= x < |n2|
    requires forall y :: 0 <= y < |n1| ==> n2[y].key == n1[y].key && n2[y].data == n1[y].data
    ensures forall k :: 0 <= k < |v + [x]| ==> 0 <= (v + [x])[k] < |n2|
    ensures KeyData(n2, v + [x]) == KeyData(n1, v) + [(n2[x].key, n2[x].data)]
  {
    assert forall k :: 0 <= k < |v + [x]| ==> (v + [x])[k] == if k < |v| then v[k] else x;
  }

  /** The (key, data) pairs of the nodes `c`, in order. */
  function KeyData(nodes: seq<Node>, c: seq<int>): (kv: seq<(int, int)>)
    requires forall k :: 0 <= k < |c| ==> 0 <= c[k] < |nodes|
    ensures |kv| == |c|
    ensures forall k :: 0 <= k < |c| ==> kv[k] == (nodes[c[k]].key, nodes[c[k]].data)
  {
    seq(|c|, k requires 0 <= k < |c| => (nodes[c[k]].key, nodes[c[k]].data))
  }

  /** Taking out the element at `i` takes one copy of it out of the multiset. */
  lemma SplitAt<T>(v: seq<T>, i: int)
    requires 0 <= i < |v|
    ensures multiset(v) == multiset(v[..i] + v[i + 1..]) + multiset{v[i]}
  {
    assert v == v[..i] + [v[i]] + v[i + 1..];
  }

  lemma KeyDataOmit(nodes: seq<Node>, v: seq<int>, i: int)
    requires forall k :: 0 <= k < |v| ==> 0 <= v[k] < |nodes|
    requires 0 <= i < |v|
    ensures var w := v[..i] + v[i + 1..];
      (forall k :: 0 <= k < |w| ==> 0 <= w[k] < |nodes|) &&
      KeyData(nodes, w) == KeyData(nodes, v)[..i] + KeyData(nodes, v)[i + 1..]
  {
    var w := v[..i] + v[i + 1..];
    assert forall k :: 0 <= k < |w| ==> w[k] == if k < i then v[k] else v[k + 1];
  }

  /** Taking one matching element out of two sequences with the same multiset leaves two
      sequences with the same multiset. */
  lemma OmitBoth<T>(v1: seq<T>, v2: seq<T>, i: int, j: int)
    requires 0 <= i < |v1| && 0 <= j < |v2| && v1[i] == v2[j] && multiset(v1) == multiset(v2)
    ensures multiset(v1[..i] + v1[i + 1..]) == multiset(v2[..j] + v2[j + 1..])
  {
    SplitAt(v1, i);
    SplitAt(v2, j);
    var u, w := v1[..i] + v1[i + 1..], v2[..j] + v2[j + 1..];
    forall y
      ensures multiset(u)[y] == multiset(w)[y]
    {
      assert multiset(v1)[y] == multiset(v2)[y];
    }
  }

  /** Putting one matching element back into two sequences with the same multiset keeps it. */
  lemma RestoreBoth<T>(v1: seq<T>, v2: seq<T>, i: int, j: int)
    requires 0 <= i < |v1| && 0 <= j < |v2| && v1[i] == v2[j]
    requires multiset(v1[..i] + v1[i + 1..]) == multiset(v2[..j] + v2[j + 1..])
    ensures multiset(v1) == multiset(v2)
  {
    SplitAt(v1, i);
    SplitAt(v2, j);
  }

  /** Two runs holding the same nodes as often, over heaps that agree on keys and data,
      hold the same (key, data) pairs as often. */
  lemma {:induction false} KeyDataPermuted(n1: seq<Node>, n2: seq<Node>, v1: seq<int>, v2: seq<int>)
    requires forall k :: 0 <= k < |v1| ==> 0 <= v1[k] < |n1| && v1[k] < |n2|
    requires forall k :: 0 <= k < |v2| ==> 0 <= v2[k] < |n2|
    requires forall y :: 0 <= y < |n1| && y < |n2| ==> n1[y].key == n2[y].key && n1[y].data == n2[y].data
    requires multiset(v1) == multiset(v2)
    ensures multiset(KeyData(n1, v1)) == multiset(KeyData(n2, v2))
    decreases |v1|
  {
    if v1 == [] {
      assert |multiset(v2)| == 0;
    } else {
      var x := v1[0];
      assert x in multiset(v2);
      var i :| 0 <= i < |v2| && v2[i] == x;
      var u, w := v1[..0] + v1[1..], v2[..i] + v2[i + 1..];
      OmitBoth(v1, v2, 0, i);
      KeyDataOmit(n1, v1, 0);
      KeyDataOmit(n2, v2, i);
      KeyDataPermuted(n1, n2, u, w);
      RestoreBoth(KeyData(n1, v1), KeyData(n2, v2), 0, i);
    }
  }

  /** The position of the first pair with key `key`, or `|kv|` when there is none. */
  function Position(kv: seq<(int, int)>, key: int): (p: nat)
    ensures p <= |kv|
    ensures p < |kv| ==> kv[p].0 == key
    ensures forall m :: 0 <= m < p ==> kv[m].0 != key
  {
    if kv == [] then 0
    else if kv[0].0 == key then 0
    else 1 + Position(kv[1..], key)
  }
}
