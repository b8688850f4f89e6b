/** What "different components" means for the bridge filter: islands are
    connected when a walk over the bridges leads from one to the other. The
    labels of the greedy fold are exactly these components, so the filter keeps
    a bridge iff its ends are not yet connected by the bridges kept before it. */
module Connectivity {
  import opened SpanningForest

  /** Bridge `e` joins `u` and `v`, in either direction. */
  predicate Joins(e: Bridge, u: int, v: int)
  {
    (e.a == u && e.b == v) || (e.a == v && e.b == u)
  }

  ghost predicate Linked(bridges: seq<Bridge>, u: int, v: int)
  {
    exists k :: 0 <= k < |bridges| && Joins(bridges[k], u, v)
  }

  /** `p` visits islands one bridge at a time. */
  ghost predicate IsWalk(bridges: seq<Bridge>, p: seq<int>)
  {
    |p| >= 1 && forall k :: 0 <= k < |p| - 1 ==> Linked(bridges, p[k], p[k + 1])
  }

  ghost predicate Connected(bridges: seq<Bridge>, x: int, y: int)
  {
    exists p :: IsWalk(bridges, p) && p[0] == x && p[|p| - 1] == y
  }

  /** Some island of `reps` is connected to `x`. */
  ghost predicate Reaches(bridges: seq<Bridge>, x: int, reps: set<int>)
  {
    exists r :: r in reps && Connected(bridges, x, r)
  }

  /** `reps` holds exactly one island of every component of the islands 0 .. n-1. */
  ghost predicate OnePerComponent(bridges: seq<Bridge>, n: int, reps: set<int>)
  {
    (forall r :: r in reps ==> 0 <= r < n) &&
    (forall x :: 0 <= x < n ==> Reaches(bridges, x, reps)) &&
    (forall r, s :: r in reps && s in reps && Connected(bridges, r, s) ==> r == s)
  }

  lemma ConnectedRefl(bridges: seq<Bridge>, x: int)
    ensures Connected(bridges, x, x)
  {
    assert IsWalk(bridges, [x]);
  }

  /** A walk, a bridge and a walk make a walk. */
  lemma ConnectedVia(bridges: seq<Bridge>, x: int, u: int, v: int, y: int)
    requires Connected(bridges, x, u) && Linked(bridges, u, v) && Connected(bridges, v, y)
    ensures Connected(bridges, x, y)
  {
    var p :| IsWalk(bridges, p) && p[0] == x && p[|p| - 1] == u;
    var q :| IsWalk(bridges, q) && q[0] == v && q[|q| - 1] == y;
    var w := p + q;
    forall k | 0 <= k < |w| - 1
      ensures Linked(bridges, w[k], w[k + 1])
    {
      if k < |p| - 1 {
        assert w[k] == p[k] && w[k + 1] == p[k + 1];
      } else if k == |p| - 1 {
        assert w[k] == u && w[k + 1] == v;
      } else {
        assert w[k] == q[k - |p|] && w[k + 1] == q[k - |p| + 1];
      }
    }
    assert IsWalk(bridges, w) && w[0] == x && w[|w| - 1] == y;
  }

  /** A bridge added at the end cuts no walk. */
  lemma ConnectedExtend(bridges: seq<Bridge>, e: Bridge, x: int, y: int)
    requires Connected(bridges, x, y)
    ensures Connected(bridges + [e], x, y)
  {
    var p :| IsWalk(bridges, p) && p[0] == x && p[|p| - 1] == y;
    forall k | 0 <= k < |p| - 1
      ensures Linked(bridges + [e], p[k], p[k + 1])
    {
      var j :| 0 <= j < |bridges| && Joins(bridges[j], p[k], p[k + 1]);
      assert (bridges + [e])[j] == bridges[j];
    }
    assert IsWalk(bridges + [e], p);
  }

  /** With every bridge inside one component, no walk leaves it. */
  lemma {:induction false} WalkStaysInComponent(bridges: seq<Bridge>, labels: seq<int>, p: seq<int>)
    requires forall k :: 0 <= k < |bridges| ==>
      InRange(bridges[k], |labels|) && labels[bridges[k].a] == labels[bridges[k].b]
    requires IsWalk(bridges, p) && 0 <= p[0] < |labels|
    ensures 0 <= p[|p| - 1] < |labels| && labels[p[0]] == labels[p[|p| - 1]]
    decreases |p|
  {
    if |p| > 1 {
      var front := p[..|p| - 1];
      forall k | 0 <= k < |front| - 1
        ensures Linked(bridges, front[k], front[k + 1])
      {
        assert front[k] == p[k] && front[k + 1] == p[k + 1];
      }
      WalkStaysInComponent(bridges, labels, front);
      assert Linked(bridges, p[|p| - 2], p[|p| - 1]);
      var j :| 0 <= j < |bridges| && Joins(bridges[j], p[|p| - 2], p[|p| - 1]);
      assert InRange(bridges[j], |labels|);
    }
  }

  /** Both ends of every bridge, kept or dropped, end up with the same label. */
  lemma {:induction false} BridgesWithinComponents(n: nat, bridges: seq<Bridge>)
    requires AllInRange(bridges, n)
    ensures var labels := Greedy(n, bridges).labels;
      forall k :: 0 <= k < |bridges| ==> labels[bridges[k].a] == labels[bridges[k].b]
    decreases |bridges|
  {
    if bridges != [] {
      var prefix := bridges[..|bridges| - 1];
      var e := bridges[|bridges| - 1];
      BridgesWithinComponents(n, prefix);
      var prev := Greedy(n, prefix);
      var labels := Greedy(n, bridges).labels;
      forall k | 0 <= k < |bridges|
        ensures labels[bridges[k].a] == labels[bridges[k].b]
      {
        assert InRange(bridges[k], n);
        if k < |prefix| {
          assert bridges[k] == prefix[k];
        }
      }
    }
  }

  /** Islands with the same label are connected. */
  lemma {:induction false} SameLabelConnected(n: nat, bridges: seq<Bridge>, x: int, y: int)
    requires AllInRange(bridges, n) && 0 <= x < n && 0 <= y < n
    requires Greedy(n, bridges).labels[x] == Greedy(n, bridges).labels[y]
    ensures Connected(bridges, x, y)
    decreases |bridges|
  {
    if bridges == [] {
      ConnectedRefl(bridges, x);
    } else {
      var prefix := bridges[..|bridges| - 1];
      var e := bridges[|bridges| - 1];
      assert bridges == prefix + [e];
      assert AllInRange(prefix, n) && InRange(e, n);
      var l := Greedy(n, prefix).labels;
      if l[e.a] == l[e.b] || l[x] == l[y] {
        SameLabelConnected(n, prefix, x, y);
        ConnectedExtend(prefix, e, x, y);
      } else {
        assert Joins(bridges[|prefix|], e.a, e.b) && Joins(bridges[|prefix|], e.b, e.a);
        if l[x] == l[e.b] {
          SameLabelConnected(n, prefix, x, e.b);
          SameLabelConnected(n, prefix, e.a, y);
          ConnectedExtend(prefix, e, x, e.b);
          ConnectedExtend(prefix, e, e.a, y);
          ConnectedVia(bridges, x, e.b, e.a, y);
        } else {
          SameLabelConnected(n, prefix, x, e.a);
          SameLabelConnected(n, prefix, e.b, y);
          ConnectedExtend(prefix, e, x, e.a);
          ConnectedExtend(prefix, e, e.b, y);
          ConnectedVia(bridges, x, e.a, e.b, y);
        }
      }
    }
  }

  /** The labels of the greedy fold are the connected components of the bridges. */
  lemma LabelsAreComponents(n: nat, bridges: seq<Bridge>, x: int, y: int)
    requires AllInRange(bridges, n) && 0 <= x < n && 0 <= y < n
    ensures Greedy(n, bridges).labels[x] == Greedy(n, bridges).labels[y] <==> Connected(bridges, x, y)
  {
    var labels := Greedy(n, bridges).labels;
    if labels[x] == labels[y] {
      SameLabelConnected(n, bridges, x, y);
    }
    if Connected(bridges, x, y) {
      BridgesWithinComponents(n, bridges);
      var p :| IsWalk(bridges, p) && p[0] == x && p[|p| - 1] == y;
      WalkStaysInComponent(bridges, labels, p);
    }
  }

  /** A bridge is kept iff the bridges kept before it do not yet connect its ends. */
  lemma KeepsExactlyUnconnected(n: nat, bridges: seq<Bridge>, e: Bridge)
    requires AllInRange(bridges + [e], n)
    ensures AllInRange(bridges, n)
    ensures Forest(n, bridges + [e]) ==
      if Connected(Forest(n, bridges), e.a, e.b) then Forest(n, bridges)
      else Forest(n, bridges) + [e]
  {
    var all := bridges + [e];
    assert all[..|all| - 1] == bridges && all[|all| - 1] == e;
    assert AllInRange(bridges, n) && InRange(e, n);
    GreedyOfForest(n, bridges);
    LabelsAreComponents(n, Forest(n, bridges), e.a, e.b);
  }

  /** The kept bridges connect exactly what the input bridges connect. */
  lemma ForestSpans(n: nat, bridges: seq<Bridge>, x: int, y: int)
    requires AllInRange(bridges, n) && 0 <= x < n && 0 <= y < n
    ensures AllInRange(Forest(n, bridges), n)
    ensures Connected(Forest(n, bridges), x, y) <==> Connected(bridges, x, y)
  {
    GreedyOfForest(n, bridges);
    LabelsAreComponents(n, bridges, x, y);
    LabelsAreComponents(n, Forest(n, bridges), x, y);
  }

  /** The representatives of the fold hold one island of each component of
      the input, and of the kept bridges alike. */
  lemma {:induction false} RepresentativesName(n: nat, bridges: seq<Bridge>, labels: seq<int>)
    requires AllInRange(bridges, n) && labels == Greedy(n, bridges).labels
    ensures OnePerComponent(bridges, n, Representatives(labels))
  {
    var reps := Representatives(labels);
    forall x | 0 <= x < n
      ensures Reaches(bridges, x, reps)
    {
      assert LabelOk(labels, x);
      LabelsAreComponents(n, bridges, x, labels[x]);
      assert labels[x] in reps && Connected(bridges, x, labels[x]);
    }
    forall r, s | r in reps && s in reps && Connected(bridges, r, s)
      ensures r == s
    {
      LabelsAreComponents(n, bridges, r, s);
    }
  }

  /** The kept bridges number the islands less the components, so they form a
      forest (n islands, c components, n - c bridges), and it spans the
      components of the input. */
  lemma ForestIsSpanning(n: nat, bridges: seq<Bridge>)
    requires AllInRange(bridges, n)
    ensures var reps := Representatives(Greedy(n, bridges).labels);
      OnePerComponent(bridges, n, reps) &&
      OnePerComponent(Forest(n, bridges), n, reps) &&
      |Forest(n, bridges)| + |reps| == n
  {
    var labels := Greedy(n, bridges).labels;
    GreedyOfForest(n, bridges);
    ForestCount(n, bridges);
    RepresentativesName(n, bridges, labels);
    RepresentativesName(n, Forest(n, bridges), labels);
  }
}
