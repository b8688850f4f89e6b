/** The bridge filter: one fresh union-find, one pass over the bridges, and a
    bridge kept exactly when its Union succeeds. */
module Bridges {
  import opened DisjointSets
  import opened SpanningForest

  /** `p` and `q` group the elements into the same blocks. */
  ghost predicate SamePartition(p: seq<int>, q: seq<int>)
  {
    |p| == |q| &&
    forall x, y :: 0 <= x < |p| && 0 <= y < |p| ==> (p[x] == p[y] <==> q[x] == q[y])
  }

  /** Merging the blocks of `x` and `y` in both partitions, whichever of the two
      old representatives survives, keeps them alike. */
  lemma MergeKeepsPartition(p: seq<int>, q: seq<int>, x: int, y: int, w: int, l: int)
    requires SamePartition(p, q) && 0 <= x < |p| && 0 <= y < |p| && p[x] != p[y]
    requires (w == p[x] && l == p[y]) || (w == p[y] && l == p[x])
    ensures SamePartition(Relabel(p, l, w), Join(q, x, y))
  {
  }

  lemma PrefixInRange(bridges: seq<Bridge>, n: int, i: int)
    requires AllInRange(bridges, n) && 0 <= i <= |bridges|
    ensures AllInRange(bridges[..i], n)
  {
  }

  /** Keeps, in input order and orientation, the bridges whose ends the bridges
      kept before them do not yet connect. */
  method MaintainBridges(bridges: seq<Bridge>, numIslands: int) returns (toMaintain: seq<Bridge>)
    requires numIslands >= 0 && AllInRange(bridges, numIslands)
    ensures toMaintain == Forest(numIslands, bridges)
  {
    toMaintain := [];
    var size := |bridges|;
    var uf := new UnionFind(numIslands);
    PrefixInRange(bridges, numIslands, 0);
    for i := 0 to size
      invariant uf.Valid() && uf.size == numIslands && fresh(uf.sets)
      invariant AllInRange(bridges[..i], numIslands)
      invariant toMaintain == Forest(numIslands, bridges[..i])
      invariant SamePartition(uf.root, Greedy(numIslands, bridges[..i]).labels)
    {
      var bridge := bridges[i];
      PrefixInRange(bridges, numIslands, i + 1);
      assert bridges[..i + 1][..i] == bridges[..i] && bridges[..i + 1][i] == bridge;
      ghost var labels := Greedy(numIslands, bridges[..i]).labels;
      ghost var root := uf.root;
      ghost var sets := uf.sets[..];
      var isUnifiable := uf.Union(bridge.a, bridge.b);
      if isUnifiable {
        toMaintain := toMaintain + [bridge];
        ghost var w := if sets[root[bridge.a]] <= sets[root[bridge.b]] then root[bridge.a] else root[bridge.b];
        ghost var l := if w == root[bridge.a] then root[bridge.b] else root[bridge.a];
        MergeKeepsPartition(root, labels, bridge.a, bridge.b, w, l);
      }
    }
    assert bridges[..size] == bridges;
  }
}
