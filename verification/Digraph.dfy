/** Directed graphs given by a finite set of arcs: walks, cycles and reachability.

    The scheduler and the collector both reason about the same three notions, over
    dense indices in one case and node ids in the other. */
module Digraph {

  type Arcs = set<(nat, nat)>

  /** A nonempty vertex sequence whose neighbours are joined by arcs. */
  ghost predicate IsWalk(arcs: Arcs, p: seq<nat>) {
    |p| >= 1 && forall i, j :: 0 <= i && j == i + 1 < |p| ==> (p[i], p[j]) in arcs
  }

  ghost predicate WalkFromTo(arcs: Arcs, p: seq<nat>, u: nat, v: nat) {
    IsWalk(arcs, p) && p[0] == u && p[|p| - 1] == v
  }

  /** `v` is reachable from `u`; the walk may have length zero. */
  ghost predicate Reaches(arcs: Arcs, u: nat, v: nat) {
    exists p :: WalkFromTo(arcs, p, u, v)
  }

  /** `v` is reachable from `u` by at least one arc. */
  ghost predicate Precedes(arcs: Arcs, u: nat, v: nat) {
    exists p :: WalkFromTo(arcs, p, u, v) && |p| >= 2
  }

  /** `v` lies on a directed cycle. */
  ghost predicate OnCycle(arcs: Arcs, v: nat) {
    Precedes(arcs, v, v)
  }

  lemma ReachesSelf(arcs: Arcs, v: nat)
    ensures Reaches(arcs, v, v)
  {
    assert WalkFromTo(arcs, [v], v, v);
  }

  lemma ExtendWalk(arcs: Arcs, u: nat, v: nat, w: nat)
    requires Reaches(arcs, u, v) && (v, w) in arcs
    ensures Precedes(arcs, u, w) && Reaches(arcs, u, w)
  {
    var p :| WalkFromTo(arcs, p, u, v);
    assert WalkFromTo(arcs, p + [w], u, w);
  }

  lemma ArcPrecedes(arcs: Arcs, u: nat, v: nat)
    requires (u, v) in arcs
    ensures Precedes(arcs, u, v)
  {
    ReachesSelf(arcs, u);
    ExtendWalk(arcs, u, u, v);
  }

  lemma LastArc(arcs: Arcs, u: nat, w: nat) returns (v: nat)
    requires Precedes(arcs, u, w)
    ensures Reaches(arcs, u, v) && (v, w) in arcs
  {
    var p :| WalkFromTo(arcs, p, u, w) && |p| >= 2;
    v := p[|p| - 2];
    assert WalkFromTo(arcs, p[..|p| - 1], u, v);
  }

  lemma JoinWalks(arcs: Arcs, u: nat, v: nat, w: nat)
    requires Reaches(arcs, u, v) && Reaches(arcs, v, w)
    ensures Reaches(arcs, u, w)
    ensures Precedes(arcs, u, v) || Precedes(arcs, v, w) ==> Precedes(arcs, u, w)
  {
    forall p, q | WalkFromTo(arcs, p, u, v) && WalkFromTo(arcs, q, v, w)
      ensures WalkFromTo(arcs, p + q[1..], u, w)
    {
      var r := p + q[1..];
      forall i, j | 0 <= i && j == i + 1 < |r| ensures (r[i], r[j]) in arcs {
        if j >= |p| {
          assert r[j] == q[j - |p| + 1] && r[i] == q[i - |p| + 1];
        }
      }
    }
    var p :| WalkFromTo(arcs, p, u, v);
    var q :| WalkFromTo(arcs, q, v, w);
    assert WalkFromTo(arcs, p + q[1..], u, w);
    if Precedes(arcs, u, v) {
      var p' :| WalkFromTo(arcs, p', u, v) && |p'| >= 2;
      assert WalkFromTo(arcs, p' + q[1..], u, w);
    }
    if Precedes(arcs, v, w) {
      var q' :| WalkFromTo(arcs, q', v, w) && |q'| >= 2;
      assert WalkFromTo(arcs, p + q'[1..], u, w);
    }
  }

  /** A vertex on a cycle has a predecessor on a cycle. */
  lemma CyclePredecessor(arcs: Arcs, v: nat) returns (u: nat)
    requires OnCycle(arcs, v)
    ensures (u, v) in arcs && OnCycle(arcs, u)
  {
    u := LastArc(arcs, v, v);
    ArcPrecedes(arcs, u, v);
    assert Reaches(arcs, u, v);
    JoinWalks(arcs, u, v, u);
  }

  /** Every vertex of `s` has a predecessor in `s`. */
  ghost predicate PredecessorClosed(arcs: Arcs, s: set<nat>) {
    forall v {:trigger HasPredecessor(arcs, s, v)} :: v in s ==> HasPredecessor(arcs, s, v)
  }

  ghost predicate HasPredecessor(arcs: Arcs, s: set<nat>, v: nat) {
    exists u :: u in s && (u, v) in arcs
  }

  /** A nonempty finite set in which every vertex has a predecessor holds a cycle. */
  lemma PredecessorClosedHasCycle(arcs: Arcs, s: set<nat>) returns (c: nat)
    requires s != {} && PredecessorClosed(arcs, s)
    ensures c in s && OnCycle(arcs, c)
  {
    var v :| v in s;
    c := GrowBackwards(arcs, s, [v]);
  }

  lemma GrowBackwards(arcs: Arcs, s: set<nat>, p: seq<nat>) returns (c: nat)
    requires PredecessorClosed(arcs, s) && IsWalk(arcs, p)
    requires forall i :: 0 <= i < |p| ==> p[i] in s
    requires forall i, j :: 0 <= i < j < |p| ==> p[i] != p[j]
    ensures c in s && OnCycle(arcs, c)
    decreases |s| - |p|
  {
    DistinctFits(p, s);
    assert HasPredecessor(arcs, s, p[0]);
    var u :| u in s && (u, p[0]) in arcs;
    if u in p {
      var k :| 0 <= k < |p| && p[k] == u;
      c := u;
      assert WalkFromTo(arcs, [u] + p[..k + 1], u, u);
    } else {
      DistinctFits([u] + p, s);
      c := GrowBackwards(arcs, s, [u] + p);
    }
  }

  /** A duplicate-free sequence over a set is no longer than the set. */
  lemma DistinctFits<T>(p: seq<T>, s: set<T>)
    requires forall i :: 0 <= i < |p| ==> p[i] in s
    requires forall i, j :: 0 <= i < j < |p| ==> p[i] != p[j]
    ensures |p| <= |s|
    ensures |p| == |s| ==> forall x :: x in s ==> x in p
  {
    if p != [] {
      var last := p[|p| - 1];
      DistinctFits(p[..|p| - 1], s - {last});
      assert forall x :: x in s - {last} && x in p[..|p| - 1] ==> x in p;
    }
  }
}
