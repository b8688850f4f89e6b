/** Disjoint-set union over the elements 0 .. size-1, kept in one integer array
    `sets`: a negative entry marks a root and holds the negated size of its set,
    a non-negative entry is the index of the element's parent. */
module DisjointSets {

  /** What one entry of `sets` contributes to the total of the set sizes. */
  function Weight(v: int): nat
  {
    if v < 0 then -v else 0
  }

  /** The sum of the set sizes stored at the roots of `s`. */
  function TotalSize(s: seq<int>): nat
  {
    if s == [] then 0 else Weight(s[0]) + TotalSize(s[1..])
  }

  /** The elements whose representative in `root` is `r`. */
  function Block(root: seq<int>, r: int): set<int>
  {
    set i | 0 <= i < |root| && root[i] == r
  }

  /** Every element whose representative is `from` gets the representative `to`. */
  function Relabel(s: seq<int>, from: int, to: int): seq<int>
  {
    seq(|s|, i requires 0 <= i < |s| => if s[i] == from then to else s[i])
  }

  /** The array after root `l` is hung under root `w`: `w` takes over `l`'s size. */
  function Link(s: seq<int>, w: int, l: int): seq<int>
    requires 0 <= w < |s| && 0 <= l < |s|
  {
    s[w := s[w] + s[l]][l := w]
  }

  /** The rank of `w` after it absorbs `l`: above `l`'s, never below its own. */
  function LinkRank(rank: seq<nat>, w: int, l: int): seq<nat>
    requires 0 <= w < |rank| && 0 <= l < |rank|
  {
    rank[w := if rank[w] <= rank[l] then rank[l] + 1 else rank[w]]
  }

  /** The invariant at one element `i` of the array `s`, under the ghost
      partition `root` and the ghost measure `rank`. */
  ghost predicate NodeOk(s: seq<int>, root: seq<int>, rank: seq<nat>, i: int)
  {
    |root| == |s| && |rank| == |s| && 0 <= i < |s| &&
    0 <= root[i] < |s| && s[root[i]] < 0 && rank[i] <= rank[root[i]] &&
    (s[i] < 0 ==> root[i] == i && rank[i] < -s[i] && -s[i] == |Block(root, i)|) &&
    (s[i] >= 0 ==> s[i] < |s| && root[s[i]] == root[i] && rank[i] < rank[s[i]])
  }

  /** The structure's invariant: parent links stay in range and climb in rank,
      so they are acyclic and end at a root; `root` follows them; the negated
      entry of each root is the number of elements it represents; the sizes
      sum to the number of elements. */
  ghost predicate Wf(s: seq<int>, root: seq<int>, rank: seq<nat>)
  {
    |root| == |s| && |rank| == |s| && TotalSize(s) == |s| &&
    (forall i :: 0 <= i < |s| ==> 0 <= root[i] < |s|) &&
    forall i :: 0 <= i < |s| ==> NodeOk(s, root, rank, i)
  }

  /** The root reached from `i` by following parent links. */
  ghost function Climb(s: seq<int>, root: seq<int>, rank: seq<nat>, i: int): int
    requires Wf(s, root, rank) && 0 <= i < |s|
    decreases |s| - rank[i]
  {
    RankBelowSize(s, root, rank);
    assert NodeOk(s, root, rank, i);
    if s[i] < 0 then i else Climb(s, root, rank, s[i])
  }

  /** The elements visited on the way from `i` up to its root, root excluded. */
  ghost function Path(s: seq<int>, root: seq<int>, rank: seq<nat>, i: int): seq<int>
    requires Wf(s, root, rank) && 0 <= i < |s|
    decreases |s| - rank[i]
  {
    RankBelowSize(s, root, rank);
    assert NodeOk(s, root, rank, i);
    if s[i] < 0 then [] else [i] + Path(s, root, rank, s[i])
  }

  lemma {:induction false} TotalSizeUpdate(s: seq<int>, k: int, v: int)
    requires 0 <= k < |s|
    ensures TotalSize(s[k := v]) == TotalSize(s) - Weight(s[k]) + Weight(v)
  {
    if k == 0 {
      assert s[k := v][1..] == s[1..];
    } else {
      TotalSizeUpdate(s[1..], k - 1, v);
      assert s[k := v][1..] == s[1..][k - 1 := v];
    }
  }

  lemma {:induction false} WeightAtMostTotal(s: seq<int>, k: int)
    requires 0 <= k < |s|
    ensures Weight(s[k]) <= TotalSize(s)
  {
    if k > 0 {
      WeightAtMostTotal(s[1..], k - 1);
    }
  }

  /** n singletons of size one hold n elements in all. */
  lemma {:induction false} TotalSizeOfSingletons(n: nat)
    ensures TotalSize(seq(n, _ => -1)) == n
  {
    if n > 0 {
      assert seq(n, _ => -1)[1..] == seq(n - 1, _ => -1);
      TotalSizeOfSingletons(n - 1);
    }
  }

  /** Merging the classes `w` and `l` under `w` adds their blocks together and
      leaves every other block as it was. */
  lemma MergedBlocks(root: seq<int>, w: int, l: int)
    requires w != l
    ensures |Block(Relabel(root, l, w), w)| == |Block(root, w)| + |Block(root, l)|
    ensures forall r :: r != w && r != l ==> Block(Relabel(root, l, w), r) == Block(root, r)
  {
    var merged := Relabel(root, l, w);
    assert Block(merged, w) == Block(root, w) + Block(root, l);
    assert Block(root, w) * Block(root, l) == {};
    forall r | r != w && r != l
      ensures Block(merged, r) == Block(root, r)
    {
      assert Block(merged, r) == Block(root, r);
    }
  }

  /** Ranks, and hence the length of every path, stay below the number of elements. */
  lemma RankBelowSize(s: seq<int>, root: seq<int>, rank: seq<nat>)
    requires Wf(s, root, rank)
    ensures forall i :: 0 <= i < |s| ==> rank[i] < |s|
  {
    forall i | 0 <= i < |s|
      ensures rank[i] < |s|
    {
      assert NodeOk(s, root, rank, i);
      assert NodeOk(s, root, rank, root[i]);
      WeightAtMostTotal(s, root[i]);
    }
  }

  /** Every entry lies in [-n, n): a parent index or a negated size of at most
      n, so no entry and no sum of two root sizes leaves the range of a
      machine integer that can hold n. */
  lemma EntriesInRange(s: seq<int>, root: seq<int>, rank: seq<nat>)
    requires Wf(s, root, rank)
    ensures forall i :: 0 <= i < |s| ==> -|s| <= s[i] < |s|
  {
    forall i | 0 <= i < |s|
      ensures -|s| <= s[i] < |s|
    {
      assert NodeOk(s, root, rank, i);
      WeightAtMostTotal(s, i);
    }
  }

  /** The ghost partition is the one the parent links describe. */
  lemma {:induction false} ClimbIsRoot(s: seq<int>, root: seq<int>, rank: seq<nat>, i: int)
    requires Wf(s, root, rank) && 0 <= i < |s|
    ensures Climb(s, root, rank, i) == root[i]
    decreases |s| - rank[i]
  {
    RankBelowSize(s, root, rank);
    assert NodeOk(s, root, rank, i);
    if s[i] >= 0 {
      ClimbIsRoot(s, root, rank, s[i]);
    }
  }

  /** Every element on the path from `i` is a non-root in `i`'s set, of rank at
      least `i`'s. */
  lemma {:induction false} PathAbove(s: seq<int>, root: seq<int>, rank: seq<nat>, i: int)
    requires Wf(s, root, rank) && 0 <= i < |s|
    ensures forall k :: k in Path(s, root, rank, i) ==>
      0 <= k < |s| && s[k] >= 0 && root[k] == root[i] && rank[i] <= rank[k]
    decreases |s| - rank[i]
  {
    RankBelowSize(s, root, rank);
    assert NodeOk(s, root, rank, i);
    if s[i] >= 0 {
      PathAbove(s, root, rank, s[i]);
    }
  }

  /** The fresh structure: every element is a root of size one. */
  lemma SingletonsWf(n: nat)
    ensures Wf(seq(n, _ => -1), seq(n, i => i), seq(n, _ => 0))
  {
    var s, root, rank: seq<nat> := seq(n, _ => -1), seq(n, i => i), seq(n, _ => 0);
    TotalSizeOfSingletons(n);
    forall i | 0 <= i < n
      ensures NodeOk(s, root, rank, i)
    {
      assert Block(root, i) == {i};
    }
  }

  /** Pointing a non-root `v` straight at its root keeps the invariant. */
  lemma CompressWf(s: seq<int>, root: seq<int>, rank: seq<nat>, v: int)
    requires Wf(s, root, rank) && 0 <= v < |s| && s[v] >= 0
    ensures Wf(s[v := root[v]], root, rank)
  {
    var t := s[v := root[v]];
    assert NodeOk(s, root, rank, v);
    assert NodeOk(s, root, rank, s[v]);
    assert NodeOk(s, root, rank, root[v]);
    TotalSizeUpdate(s, v, root[v]);
    forall i | 0 <= i < |s|
      ensures NodeOk(t, root, rank, i)
    {
      assert NodeOk(s, root, rank, i);
      assert NodeOk(s, root, rank, root[i]);
    }
  }

  /** Hanging root `l` under root `w` keeps the invariant, with `l`'s set now
      represented by `w`. */
  lemma LinkWf(s: seq<int>, root: seq<int>, rank: seq<nat>, w: int, l: int)
    requires Wf(s, root, rank) && 0 <= w < |s| && 0 <= l < |s| && w != l
    requires s[w] < 0 && s[l] < 0
    ensures Wf(Link(s, w, l), Relabel(root, l, w), LinkRank(rank, w, l))
  {
    var t, root', rank' := Link(s, w, l), Relabel(root, l, w), LinkRank(rank, w, l);
    assert NodeOk(s, root, rank, w);
    assert NodeOk(s, root, rank, l);
    TotalSizeUpdate(s, w, s[w] + s[l]);
    TotalSizeUpdate(s[w := s[w] + s[l]], l, w);
    MergedBlocks(root, w, l);
    forall i | 0 <= i < |s|
      ensures NodeOk(t, root', rank', i)
    {
      LinkNodeOk(s, root, rank, w, l, i);
    }
  }

  /** The invariant at one element after root `l` is hung under root `w`. */
  lemma LinkNodeOk(s: seq<int>, root: seq<int>, rank: seq<nat>, w: int, l: int, i: int)
    requires Wf(s, root, rank) && 0 <= w < |s| && 0 <= l < |s| && w != l
    requires s[w] < 0 && s[l] < 0 && 0 <= i < |s|
    requires |Block(Relabel(root, l, w), w)| == |Block(root, w)| + |Block(root, l)|
    requires forall r :: r != w && r != l ==> Block(Relabel(root, l, w), r) == Block(root, r)
    ensures NodeOk(Link(s, w, l), Relabel(root, l, w), LinkRank(rank, w, l), i)
  {
    assert NodeOk(s, root, rank, w);
    assert NodeOk(s, root, rank, l);
    assert NodeOk(s, root, rank, i);
    assert NodeOk(s, root, rank, root[i]);
    if s[i] >= 0 {
      assert NodeOk(s, root, rank, s[i]);
    }
  }

  /** The roots of `s`, one per set. */
  function RootsOf(s: seq<int>): set<int>
  {
    set i | 0 <= i < |s| && s[i] < 0
  }

  /** `t` is `s` after path compression under the partition `root`: outside
      `except`, every entry is unchanged or is a former parent link now
      pointing straight at its element's root. */
  ghost predicate Compressed(s: seq<int>, t: seq<int>, root: seq<int>, except: set<int>)
  {
    |t| == |s| && |root| == |s| &&
    forall i :: 0 <= i < |s| && i !in except ==>
      t[i] == s[i] || (s[i] >= 0 && 0 <= root[i] && t[i] == root[i])
  }

  /** Compression keeps every root, with its size. */
  lemma CompressedKeepsRoots(s: seq<int>, t: seq<int>, root: seq<int>)
    requires Compressed(s, t, root, {})
    ensures RootsOf(t) == RootsOf(s)
    ensures forall r :: r in RootsOf(s) ==> t[r] == s[r]
  {
  }

  /** Two rounds of compression under one partition are one round. */
  lemma CompressedTwice(s: seq<int>, t: seq<int>, u: seq<int>, root: seq<int>)
    requires Compressed(s, t, root, {}) && Compressed(t, u, root, {})
    ensures Compressed(s, u, root, {})
  {
  }

  /** Hanging root `l` under root `w` removes `l` from the roots and touches
      no entry but those of `w` and `l`. */
  lemma LinkRoots(s0: seq<int>, s: seq<int>, root: seq<int>, w: int, l: int)
    requires 0 <= w < |s| && 0 <= l < |s| && w != l && s[w] < 0 && s[l] < 0
    requires Compressed(s0, s, root, {})
    ensures RootsOf(Link(s, w, l)) == RootsOf(s) - {l}
    ensures Compressed(s0, Link(s, w, l), root, {w, l})
  {
  }

  /** `s` with every element of `nodes` pointing at `r`. */
  function PointAt(s: seq<int>, nodes: seq<int>, r: int): seq<int>
  {
    seq(|s|, i requires 0 <= i < |s| => if i in nodes then r else s[i])
  }

  /** Pointing the path from `v` at its root is a compression. */
  lemma PathCompressed(s: seq<int>, root: seq<int>, rank: seq<nat>, v: int)
    requires Wf(s, root, rank) && 0 <= v < |s|
    ensures Compressed(s, PointAt(s, Path(s, root, rank, v), root[v]), root, {})
  {
    PathAbove(s, root, rank, v);
  }

  class UnionFind {
    const sets: array<int>
    const size: int
    /** The representative of every element: the partition the array encodes. */
    ghost var root: seq<int>
    /** A termination measure for Find: ranks strictly increase along parent links. */
    ghost var rank: seq<nat>

    ghost predicate Valid()
      reads this, sets
    {
      sets.Length == size && Wf(sets[..], root, rank)
    }

    /** Every element starts as a root of a set of size one. */
    constructor (size: int)
      requires size >= 0
      ensures Valid() && this.size == size && fresh(sets)
      ensures forall i :: 0 <= i < size ==> sets[i] == -1 && root[i] == i
    {
      this.size := size;
      sets := new int[size];
      new;
      for i := 0 to size
        invariant forall k :: 0 <= k < i ==> sets[k] == -1
      {
        sets[i] := -1;
      }
      root := seq(size, i => i);
      rank := seq(size, _ => 0);
      assert sets[..] == seq(size, _ => -1);
      SingletonsWf(size);
    }

    /** The root of `val`'s set; every element on the way there is rewritten to
        point straight at the root (path compression). */
    method Find(val: int) returns (r: int)
      requires Valid() && 0 <= val < size
      modifies sets
      ensures Valid() && root == old(root) && rank == old(rank)
      ensures r == root[val] && r == Climb(old(sets[..]), root, rank, val) && sets[r] < 0
      ensures sets[..] == PointAt(old(sets[..]), Path(old(sets[..]), root, rank, val), r)
      ensures Compressed(old(sets[..]), sets[..], root, {})
      decreases size - rank[val]
    {
      ghost var s := sets[..];
      assert NodeOk(s, root, rank, val);
      ClimbIsRoot(s, root, rank, val);
      PathAbove(s, root, rank, val);
      if sets[val] < 0 {
        assert sets[..] == PointAt(s, [], val);
        return val;
      }
      RankBelowSize(s, root, rank);
      var parent := sets[val];
      PathAbove(s, root, rank, parent);
      r := Find(parent);
      CompressWf(sets[..], root, rank, val);
      sets[val] := r;
      assert sets[..] == PointAt(s, Path(s, root, rank, val), r);
      PathCompressed(s, root, rank, val);
    }

    /** Merges the sets of `A` and `B` by size, the larger (or, on a tie, `A`'s)
        root absorbing the other; false when both already share a root. */
    method Union(A: int, B: int) returns (merged: bool)
      requires Valid() && 0 <= A < size && 0 <= B < size
      modifies this, sets
      ensures Valid()
      ensures merged <==> old(root[A]) != old(root[B])
      ensures root[A] == root[B]
      ensures !merged ==>
        root == old(root) && Compressed(old(sets[..]), sets[..], root, {}) &&
        RootsOf(sets[..]) == RootsOf(old(sets[..]))
      ensures var ra, rb := old(root[A]), old(root[B]);
        var w := if old(sets[ra]) <= old(sets[rb]) then ra else rb;
        var l := if w == ra then rb else ra;
        merged ==>
          root == Relabel(old(root), l, w) &&
          sets[w] == old(sets[ra]) + old(sets[rb]) && sets[l] == w &&
          Compressed(old(sets[..]), sets[..], old(root), {w, l}) &&
          RootsOf(sets[..]) == RootsOf(old(sets[..])) - {l}
    {
      ghost var s0 := sets[..];
      var rootA := Find(A);
      ghost var s1 := sets[..];
      var rootB := Find(B);
      ghost var s2 := sets[..];
      CompressedTwice(s0, s1, s2, root);
      CompressedKeepsRoots(s0, s2, root);
      if rootA == rootB {
        return false;
      }
      var winner, loser := rootA, rootB;
      if sets[rootB] < sets[rootA] {
        winner, loser := rootB, rootA;
      }
      LinkRoots(s0, s2, root, winner, loser);
      Absorb(winner, loser);
      merged := true;
    }

    /** Hangs root `loser` under root `winner`, which takes over its size: the
        two in-place writes both branches of Union make. */
    method Absorb(winner: int, loser: int)
      requires Valid() && 0 <= winner < size && 0 <= loser < size && winner != loser
      requires sets[winner] < 0 && sets[loser] < 0
      modifies this, sets
      ensures Valid() && rank == LinkRank(old(rank), winner, loser)
      ensures sets[..] == Link(old(sets[..]), winner, loser)
      ensures root == Relabel(old(root), loser, winner)
    {
      ghost var s := sets[..];
      LinkWf(s, root, rank, winner, loser);
      sets[winner] := sets[winner] + sets[loser];
      sets[loser] := winner;
      assert sets[..] == Link(s, winner, loser);
      root := Relabel(root, loser, winner);
      rank := LinkRank(rank, winner, loser);
    }
  }
}
