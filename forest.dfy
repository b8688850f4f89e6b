/** The reference meaning of the bridge filter: fold the bridges in order over
    a labelling of the islands by component, keeping a bridge exactly when its
    ends carry different labels. */
module SpanningForest {
  import opened DisjointSets

  /** A candidate bridge between islands `a` and `b`, in the orientation given. */
  datatype Bridge = Bridge(a: int, b: int)

  predicate InRange(e: Bridge, n: int)
  {
    0 <= e.a < n && 0 <= e.b < n
  }

  predicate AllInRange(bridges: seq<Bridge>, n: int)
  {
    forall k :: 0 <= k < |bridges| ==> InRange(bridges[k], n)
  }

  /** Island `i`'s label is a label that labels itself. */
  predicate LabelOk(labels: seq<int>, i: int)
  {
    0 <= i < |labels| && 0 <= labels[i] < |labels| && labels[labels[i]] == labels[i]
  }

  /** Every component is named by one of its own islands. */
  predicate Canonical(labels: seq<int>)
  {
    forall i :: 0 <= i < |labels| ==> LabelOk(labels, i)
  }

  /** The islands that name their own component: one per component. */
  function Representatives(labels: seq<int>): set<int>
  {
    set i | 0 <= i < |labels| && labels[i] == i
  }

  /** Every island starts in a component of its own. */
  function Singletons(n: nat): seq<int>
  {
    seq(n, i => i)
  }

  /** `y`'s component joins `x`'s. */
  function Join(labels: seq<int>, x: int, y: int): seq<int>
    requires 0 <= x < |labels| && 0 <= y < |labels|
  {
    Relabel(labels, labels[y], labels[x])
  }

  /** The bridges kept so far and the component labels they induce. */
  datatype Run = Run(kept: seq<Bridge>, labels: seq<int>)

  lemma JoinCanonical(labels: seq<int>, x: int, y: int)
    requires Canonical(labels) && 0 <= x < |labels| && 0 <= y < |labels|
    requires labels[x] != labels[y]
    ensures Canonical(Join(labels, x, y))
    ensures Representatives(Join(labels, x, y)) == Representatives(labels) - {labels[y]}
  {
    var joined := Join(labels, x, y);
    assert LabelOk(labels, x) && LabelOk(labels, y);
    forall i | 0 <= i < |labels|
      ensures LabelOk(joined, i)
    {
      assert LabelOk(labels, i);
    }
    forall i | 0 <= i < |labels|
      ensures joined[i] == i <==> labels[i] == i && i != labels[y]
    {
      assert LabelOk(labels, i);
    }
    assert Representatives(joined) == Representatives(labels) - {labels[y]};
  }

  /** The greedy fold over the bridges, in input order. */
  function Greedy(n: nat, bridges: seq<Bridge>): (r: Run)
    requires AllInRange(bridges, n)
    ensures |r.labels| == n && Canonical(r.labels)
    ensures forall k :: 0 <= k < |r.kept| ==> r.kept[k] in bridges
    decreases |bridges|
  {
    if bridges == [] then
      assert forall i :: 0 <= i < n ==> LabelOk(Singletons(n), i);
      Run([], Singletons(n))
    else
      var prev := Greedy(n, bridges[..|bridges| - 1]);
      var e := bridges[|bridges| - 1];
      if prev.labels[e.a] != prev.labels[e.b] then
        JoinCanonical(prev.labels, e.a, e.b);
        Run(prev.kept + [e], Join(prev.labels, e.a, e.b))
      else
        prev
  }

  /** The bridges the filter keeps. */
  function Forest(n: nat, bridges: seq<Bridge>): seq<Bridge>
    requires AllInRange(bridges, n)
  {
    Greedy(n, bridges).kept
  }

  /** `small` is `big` with some elements left out, order kept. */
  ghost predicate Subsequence<T>(small: seq<T>, big: seq<T>)
    decreases |big|
  {
    if small == [] then true
    else if big == [] then false
    else
      (small[|small| - 1] == big[|big| - 1] &&
       Subsequence(small[..|small| - 1], big[..|big| - 1])) ||
      Subsequence(small, big[..|big| - 1])
  }

  /** The kept bridges appear in the input, in the same order and unchanged. */
  lemma {:induction false} ForestIsSubsequence(n: nat, bridges: seq<Bridge>)
    requires AllInRange(bridges, n)
    ensures Subsequence(Forest(n, bridges), bridges)
    decreases |bridges|
  {
    if bridges != [] {
      var prefix := bridges[..|bridges| - 1];
      ForestIsSubsequence(n, prefix);
      var kept := Forest(n, bridges);
      if kept == Forest(n, prefix) + [bridges[|bridges| - 1]] {
        assert kept[..|kept| - 1] == Forest(n, prefix);
      } else if kept != [] {
        assert kept == Forest(n, prefix);
      }
    }
  }

  lemma KeptInRange(n: nat, bridges: seq<Bridge>)
    requires AllInRange(bridges, n)
    ensures AllInRange(Forest(n, bridges), n)
  {
  }

  /** Filtering the kept bridges again keeps them all and ends in the same
      components: the output is already acyclic. */
  lemma {:induction false} GreedyOfForest(n: nat, bridges: seq<Bridge>)
    requires AllInRange(bridges, n)
    ensures AllInRange(Forest(n, bridges), n)
    ensures Greedy(n, Forest(n, bridges)) == Greedy(n, bridges)
    decreases |bridges|
  {
    KeptInRange(n, bridges);
    if bridges != [] {
      var prefix := bridges[..|bridges| - 1];
      var e := bridges[|bridges| - 1];
      GreedyOfForest(n, prefix);
      var prev := Greedy(n, prefix);
      if prev.labels[e.a] != prev.labels[e.b] {
        var kept := prev.kept + [e];
        assert kept[..|kept| - 1] == prev.kept;
      }
    }
  }

  /** Re-running the filter on its own output returns it unchanged. */
  lemma ForestIdempotent(n: nat, bridges: seq<Bridge>)
    requires AllInRange(bridges, n)
    ensures AllInRange(Forest(n, bridges), n)
    ensures Forest(n, Forest(n, bridges)) == Forest(n, bridges)
  {
    GreedyOfForest(n, bridges);
  }

  /** n islands on their own make n components. */
  lemma {:induction false} SingletonsCount(n: nat)
    ensures |Representatives(Singletons(n))| == n
  {
    if n > 0 {
      SingletonsCount(n - 1);
      assert Representatives(Singletons(n)) == Representatives(Singletons(n - 1)) + {n - 1};
    }
  }

  /** Every kept bridge merges two components into one, so the kept bridges
      and the remaining components add up to the number of islands. */
  lemma {:induction false} ForestCount(n: nat, bridges: seq<Bridge>)
    requires AllInRange(bridges, n)
    ensures |Forest(n, bridges)| + |Representatives(Greedy(n, bridges).labels)| == n
    decreases |bridges|
  {
    if bridges == [] {
      SingletonsCount(n);
    } else {
      var prefix := bridges[..|bridges| - 1];
      var e := bridges[|bridges| - 1];
      ForestCount(n, prefix);
      var prev := Greedy(n, prefix);
      if prev.labels[e.a] != prev.labels[e.b] {
        JoinCanonical(prev.labels, e.a, e.b);
        assert LabelOk(prev.labels, e.b);
      }
    }
  }

  /** A forest on n >= 1 islands has at most n - 1 bridges. */
  lemma ForestBound(n: nat, bridges: seq<Bridge>)
    requires AllInRange(bridges, n) && n >= 1
    ensures |Forest(n, bridges)| <= n - 1
  {
    ForestCount(n, bridges);
    var labels := Greedy(n, bridges).labels;
    assert LabelOk(labels, 0);
    assert labels[0] in Representatives(labels);
  }

  /** Four islands: the third bridge closes the cycle 0-1-2 and is dropped. */
  lemma TriangleScenario()
    ensures Forest(4, [Bridge(0, 1), Bridge(1, 2), Bridge(2, 0), Bridge(2, 3)]) ==
      [Bridge(0, 1), Bridge(1, 2), Bridge(2, 3)]
  {
    var bs := [Bridge(0, 1), Bridge(1, 2), Bridge(2, 0), Bridge(2, 3)];
    assert bs[..0] == [];
    assert Greedy(4, bs[..0]).labels == [0, 1, 2, 3];
    assert bs[..1][..0] == bs[..0];
    assert Greedy(4, bs[..1]) == Run([Bridge(0, 1)], [0, 0, 2, 3]);
    assert bs[..2][..1] == bs[..1];
    assert Greedy(4, bs[..2]) == Run([Bridge(0, 1), Bridge(1, 2)], [0, 0, 0, 3]);
    assert bs[..3][..2] == bs[..2];
    assert Greedy(4, bs[..3]) == Run([Bridge(0, 1), Bridge(1, 2)], [0, 0, 0, 3]);
    assert bs[..3] == bs[..|bs| - 1];
  }

  /** A repeated bridge is dropped. */
  lemma DuplicateScenario()
    ensures Forest(3, [Bridge(0, 1), Bridge(0, 1)]) == [Bridge(0, 1)]
  {
    var bs := [Bridge(0, 1), Bridge(0, 1)];
    assert bs[..1][..0] == [];
    assert Greedy(3, bs[..1]) == Run([Bridge(0, 1)], [0, 0, 2]);
    assert bs[..1] == bs[..|bs| - 1];
  }
}
