/** What a directed cycle costs: which connections carry this quantum's samples and which
    carry those of the quantum before. */
module Feedback {
  import opened Wrappers
  import opened Digraph
  import opened AudioGraph
  import opened Csr
  import opened Scheduler
  import opened Renderer

  /** `u` runs before `v`. */
  ghost predicate Earlier(ids: seq<NodeId>, u: NodeId, v: NodeId) {
    exists i, j :: 0 <= i < j < |ids| && ids[i] == u && ids[j] == v
  }

  lemma EarlierAt(ids: seq<NodeId>, u: NodeId, k: nat)
    requires NoDuplicates(ids) && k < |ids|
    ensures Earlier(ids, u, ids[k]) <==> u in ids[..k]
  {
    if u in ids[..k] {
      var i :| 0 <= i < k && ids[i] == u;
    }
  }

  lemma EarlierTransitive(ids: seq<NodeId>, u: NodeId, v: NodeId, w: NodeId)
    requires NoDuplicates(ids) && Earlier(ids, u, v) && Earlier(ids, v, w)
    ensures Earlier(ids, u, w)
  {
  }

  lemma NotBeforeItself(ids: seq<NodeId>, u: NodeId)
    requires NoDuplicates(ids)
    ensures !Earlier(ids, u, u)
  {
  }

  // ------------------------------------------------------------------ what is read

  /** A schedule's nodes exist, and none of them runs twice. */
  ghost predicate Runs<S, A>(g: Graph<S>, r: Rendering<S, A>, ids: seq<NodeId>) {
    Fits(g, r) && NoDuplicates(ids) && forall j :: 0 <= j < |ids| ==> ids[j] in g.nodes
  }

  /** `u` has the same state and buffer in both. */
  ghost predicate SameAt<S, A>(a: Rendering<S, A>, b: Rendering<S, A>, u: NodeId) {
    && u in a.nodes && u in a.buffers && u in b.nodes && u in b.buffers
    && a.nodes[u] == b.nodes[u] && a.buffers[u] == b.buffers[u]
  }

  /** The state after the first `n` nodes have run. */
  ghost function After<S, A>(dsp: Dsp<S, A>, g: Graph<S>, q: Quantum, r: Rendering<S, A>, ids: seq<NodeId>,
      n: nat): (r': Rendering<S, A>)
    requires Runs(g, r, ids) && n <= |ids|
    ensures Fits(g, r')
  {
    RenderAll(dsp, g, q, r, ids[..n])
  }

  lemma AfterAll<S, A>(dsp: Dsp<S, A>, g: Graph<S>, q: Quantum, r: Rendering<S, A>, ids: seq<NodeId>)
    requires Runs(g, r, ids)
    ensures After(dsp, g, q, r, ids, |ids|) == RenderAll(dsp, g, q, r, ids)
  {
    assert ids[..|ids|] == ids;
  }

  lemma AfterNext<S, A>(dsp: Dsp<S, A>, g: Graph<S>, q: Quantum, r: Rendering<S, A>, ids: seq<NodeId>, n: nat)
    requires Runs(g, r, ids) && n < |ids|
    ensures After(dsp, g, q, r, ids, n + 1) == RenderOne(dsp, g, q, After(dsp, g, q, r, ids, n), ids[n])
  {
    hide RenderOne;
    assert ids[..n + 1][..n] == ids[..n];
  }

  /** Before its turn a node is as the last quantum left it. */
  lemma AfterLeavesLater<S, A>(dsp: Dsp<S, A>, g: Graph<S>, q: Quantum, r: Rendering<S, A>, ids: seq<NodeId>, n: nat,
      u: NodeId)
    requires Runs(g, r, ids) && n <= |ids| && u in g.nodes && u !in ids[..n]
    ensures SameAt(r, After(dsp, g, q, r, ids, n), u)
  {
    hide RenderOne;
    RenderLeavesOthers(dsp, g, q, r, ids[..n], u);
  }

  ghost predicate AllExist<S>(g: Graph<S>, ids: seq<NodeId>) {
    forall j :: 0 <= j < |ids| ==> ids[j] in g.nodes
  }

  lemma RenderSnoc<S, A>(dsp: Dsp<S, A>, g: Graph<S>, q: Quantum, r: Rendering<S, A>, ids: seq<NodeId>, id: NodeId)
    requires Fits(g, r) && AllExist(g, ids) && id in g.nodes
    ensures RenderAll(dsp, g, q, r, ids + [id]) == RenderOne(dsp, g, q, RenderAll(dsp, g, q, r, ids), id)
  {
    hide RenderOne;
    assert (ids + [id])[..|ids|] == ids;
  }

  /** Running two stretches one after the other. */
  lemma {:induction false} RenderTwice<S, A>(dsp: Dsp<S, A>, g: Graph<S>, q: Quantum, r: Rendering<S, A>,
      a: seq<NodeId>, b: seq<NodeId>)
    requires Fits(g, r) && AllExist(g, a) && AllExist(g, b)
    ensures RenderAll(dsp, g, q, r, a + b) == RenderAll(dsp, g, q, RenderAll(dsp, g, q, r, a), b)
    decreases |b|
  {
    hide RenderOne;
    if b == [] {
      assert a + b == a;
    } else {
      var init, last := b[..|b| - 1], b[|b| - 1];
      assert b == init + [last] && a + b == (a + init) + [last];
      hide RenderAll, Fits;
      RenderTwice(dsp, g, q, r, a, init);
      RenderSnoc(dsp, g, q, r, a + init, last);
      RenderSnoc(dsp, g, q, RenderAll(dsp, g, q, r, a), init, last);
    }
  }

  /** Once a node has run, the rest of the schedule leaves it alone. */
  lemma RenderedOnce<S, A>(dsp: Dsp<S, A>, g: Graph<S>, q: Quantum, r: Rendering<S, A>,
                                              ids: seq<NodeId>, i: nat, n: nat)
    requires Runs(g, r, ids) && i < n <= |ids|
    ensures SameAt(After(dsp, g, q, r, ids, i + 1), After(dsp, g, q, r, ids, n), ids[i])
  {
    hide RenderAll;
    var a, b := ids[..i + 1], ids[i + 1..n];
    assert ids[..n] == a + b;
    RenderTwice(dsp, g, q, r, a, b);
    RenderLeavesOthers(dsp, g, q, After(dsp, g, q, r, ids, i + 1), b, ids[i]);
  }

  /** What a node finds in a source's buffer when its turn comes: this quantum's samples if the
      source stands earlier in the schedule, and what the last quantum left there if not. */
  lemma BufferAtTurn<S, A>(dsp: Dsp<S, A>, g: Graph<S>, q: Quantum, r: Rendering<S, A>,
                                              ids: seq<NodeId>, u: NodeId, k: nat)
    requires Runs(g, r, ids) && k < |ids| && u in g.nodes
    ensures After(dsp, g, q, r, ids, k).buffers[u]
            == if Earlier(ids, u, ids[k]) then After(dsp, g, q, r, ids, |ids|).buffers[u] else r.buffers[u]
  {
    hide After, Earlier;
    EarlierAt(ids, u, k);
    if u in ids[..k] {
      var i :| 0 <= i < k && ids[i] == u;
      RenderedOnce(dsp, g, q, r, ids, i, k);
      RenderedOnce(dsp, g, q, r, ids, i, |ids|);
    } else {
      AfterLeavesLater(dsp, g, q, r, ids, k, u);
    }
  }

  /** The buffers a node reads: those of earlier nodes from this quantum, the others from the
      last one. */
  ghost function Seen<S, A>(g: Graph<S>, ids: seq<NodeId>, id: NodeId,
      last: map<NodeId, seq<A>>, now: map<NodeId, seq<A>>)
      : map<NodeId, seq<A>>
    requires last.Keys == now.Keys == g.nodes.Keys
  {
    map u | u in g.nodes :: if Earlier(ids, u, id) then now[u] else last[u]
  }

  /** The dataflow equation with delays, for every node of every schedule, on cycles or not:
      the node fires once, from its old state, on the mix of the buffers it sees. */
  lemma DelayedDataflow<S, A>(dsp: Dsp<S, A>, g: Graph<S>, q: Quantum, r: Rendering<S, A>,
      ids: seq<NodeId>, k: nat)
    requires Runs(g, r, ids) && k < |ids|
    ensures var now, id := RenderAll(dsp, g, q, r, ids), ids[k];
            var seen := Seen(g, ids, id, r.buffers, now.buffers);
            && Sources(g, id) <= seen.Keys
            && var fired := Fire(dsp, r.nodes[id].state, Mixed(dsp, g, q, seen, id, |g.connections|), q);
            && now.buffers[id] == Overlay(r.buffers[id], fired.output)
            && now.nodes[id] == r.nodes[id].(state := fired.state)
  {
    hide Mixed, Fire, Overlay, Earlier, After;
    var now, id, before := After(dsp, g, q, r, ids, |ids|), ids[k], After(dsp, g, q, r, ids, k);
    var seen := Seen(g, ids, id, r.buffers, now.buffers);
    forall u | u in g.nodes ensures before.buffers[u] == seen[u] {
      BufferAtTurn(dsp, g, q, r, ids, u, k);
    }
    assert before.buffers == seen;
    AfterLeavesLater(dsp, g, q, r, ids, k, id);
    AfterNext(dsp, g, q, r, ids, k);
    RenderedOnce(dsp, g, q, r, ids, k, |ids|);
    AfterAll(dsp, g, q, r, ids);
  }

  // ------------------------------------------------------------------------ cycles

  /** The vertices of a directed cycle, each joined to the next and the last to the first. */
  ghost predicate IsCycle(arcs: Arcs, p: seq<nat>) {
    p != [] && forall i :: 0 <= i < |p| ==> (p[i], p[Succ(p, i)]) in arcs
  }

  ghost function Succ(p: seq<nat>, i: nat): (j: nat)
    requires i < |p|
    ensures j < |p|
  {
    if i + 1 < |p| then i + 1 else 0
  }

  /** The positions of `p` whose connection to the next vertex carries last quantum's samples. */
  ghost function Delayed(ids: seq<NodeId>, p: seq<NodeId>): set<nat> {
    set i | 0 <= i < |p| && !Earlier(ids, p[i], p[Succ(p, i)])
  }

  /** `p` from position `k` on, once around. */
  ghost function Rotated(p: seq<nat>, k: nat): (q: seq<nat>)
    requires k <= |p|
    ensures |q| == |p|
  {
    p[k..] + p[..k]
  }

  ghost predicate InScheduleOrder(ids: seq<NodeId>, p: seq<NodeId>) {
    forall i, j :: 0 <= i < j < |p| ==> Earlier(ids, p[i], p[j])
  }

  /** Neighbours in order are enough. */
  lemma {:induction false} NeighboursInOrder(ids: seq<NodeId>, p: seq<NodeId>, i: nat, j: nat)
    requires NoDuplicates(ids) && i < j < |p|
    requires forall k, l :: i <= k && l == k + 1 <= j ==> Earlier(ids, p[k], p[l])
    ensures Earlier(ids, p[i], p[j])
    decreases j - i
  {
    hide Earlier;
    if i + 1 < j {
      NeighboursInOrder(ids, p, i, j - 1);
      EarlierTransitive(ids, p[i], p[j - 1], p[j]);
    }
  }

  /** No schedule renders a whole cycle within one quantum: some connection of it is delayed. */
  lemma CycleIsDelayed(ids: seq<NodeId>, p: seq<NodeId>)
    requires NoDuplicates(ids) && p != []
    ensures Delayed(ids, p) != {}
  {
    hide Earlier;
    var n := |p| - 1;
    NotBeforeItself(ids, p[0]);
    if forall i :: 0 <= i < |p| ==> Earlier(ids, p[i], p[Succ(p, i)]) {
      assert Earlier(ids, p[n], p[0]) by {
        assert Succ(p, n) == 0;
      }
      forall k, l | 0 <= k && l == k + 1 <= n ensures Earlier(ids, p[k], p[l]) {
        assert Succ(p, k) == l;
      }
      if n > 0 {
        NeighboursInOrder(ids, p, 0, n);
        EarlierTransitive(ids, p[0], p[n], p[0]);
      }
      assert false;
    }
    var i :| 0 <= i < |p| && !Earlier(ids, p[i], p[Succ(p, i)]);
    assert i in Delayed(ids, p);
  }

  /** A cycle loses exactly one quantum exactly when the schedule runs its vertices in cycle
      order, starting somewhere on it. */
  lemma DelayedOnce(ids: seq<NodeId>, p: seq<NodeId>)
    requires NoDuplicates(ids) && p != []
    ensures |Delayed(ids, p)| == 1 <==> exists k :: 0 <= k < |p| && InScheduleOrder(ids, Rotated(p, k))
  {
    hide Earlier;
    CycleIsDelayed(ids, p);
    if |Delayed(ids, p)| == 1 {
      var d :| d in Delayed(ids, p);
      OnlyElement(Delayed(ids, p), d);
      OrderBehindDelay(ids, p, d);
    }
    if k :| 0 <= k < |p| && InScheduleOrder(ids, Rotated(p, k)) {
      DelayBeforeOrder(ids, p, k);
    }
  }

  lemma OnlyElement(s: set<nat>, d: nat)
    requires d in s && |s| == 1
    ensures s == {d}
  {
    assert |s - {d}| == 0;
  }

  /** The position that follows `i` in the rotated cycle. */
  lemma RotatedAt(p: seq<nat>, k: nat, i: nat)
    requires k < |p| && i < |p|
    ensures Rotated(p, k)[i] == p[if k + i < |p| then k + i else k + i - |p|]
  {
  }

  lemma OrderBehindDelay(ids: seq<NodeId>, p: seq<NodeId>, d: nat)
    requires NoDuplicates(ids) && d < |p| && Delayed(ids, p) == {d}
    ensures InScheduleOrder(ids, Rotated(p, Succ(p, d)))
  {
    hide Earlier;
    var k := Succ(p, d);
    var q := Rotated(p, k);
    forall a, b | 0 <= a && b == a + 1 < |q| ensures Earlier(ids, q[a], q[b]) {
      RotatedAt(p, k, a);
      RotatedAt(p, k, b);
      var i := if k + a < |p| then k + a else k + a - |p|;
      assert i != d && q[b] == p[Succ(p, i)];
      assert i !in Delayed(ids, p);
    }
    forall a, b | 0 <= a < b < |q| ensures Earlier(ids, q[a], q[b]) {
      NeighboursInOrder(ids, q, a, b);
    }
  }

  lemma DelayBeforeOrder(ids: seq<NodeId>, p: seq<NodeId>, k: nat)
    requires NoDuplicates(ids) && k < |p| && InScheduleOrder(ids, Rotated(p, k))
    ensures |Delayed(ids, p)| == 1
  {
    hide Earlier;
    var q := Rotated(p, k);
    var d := if k == 0 then |p| - 1 else k - 1;
    forall i | 0 <= i < |p| && i != d ensures Earlier(ids, p[i], p[Succ(p, i)]) {
      var a := if i >= k then i - k else i + |p| - k;
      RotatedAt(p, k, a);
      RotatedAt(p, k, a + 1);
      assert q[a] == p[i] && q[a + 1] == p[Succ(p, i)];
    }
    CycleIsDelayed(ids, p);
    assert Delayed(ids, p) == {d};
  }

  // -------------------------------------------------------------- over all schedules

  /** Of two different scheduled nodes one runs before the other, and only one. */
  lemma EarlierTotal(ids: seq<NodeId>, u: NodeId, v: NodeId)
    requires NoDuplicates(ids) && u in ids && v in ids && u != v
    ensures Earlier(ids, u, v) <==> !Earlier(ids, v, u)
  {
    var i :| 0 <= i < |ids| && ids[i] == u;
    var j :| 0 <= j < |ids| && ids[j] == v;
  }

  /** A self-loop and a cycle of two lose exactly one quantum, whatever the schedule. */
  lemma ShortCycle(ids: seq<NodeId>, p: seq<NodeId>)
    requires NoDuplicates(ids) && NoDuplicates(p) && 1 <= |p| <= 2 && forall i :: 0 <= i < |p| ==> p[i] in ids
    ensures |Delayed(ids, p)| == 1
  {
    hide Earlier;
    if |p| == 1 {
      NotBeforeItself(ids, p[0]);
      assert Delayed(ids, p) == {0};
    } else {
      EarlierTotal(ids, p[0], p[1]);
      assert Delayed(ids, p) == if Earlier(ids, p[0], p[1]) then {1} else {0};
    }
  }

  lemma CycleLeftOver<S>(g: Graph<S>, ids: seq<NodeId>, drained: nat, p: seq<NodeId>, i: nat)
    requires SchedulesGraph(g, ids, drained) && IsCycle(LiveArcs(g.nodes.Keys, g.connections), p) && i < |p|
    ensures p[i] in g.nodes && p[i] in ids && p[i] in ids[drained..]
  {
    hide OnCycle, Reaches;
    var arcs := LiveArcs(g.nodes.Keys, g.connections);
    assert (p[i], p[Succ(p, i)]) in arcs;
    hide LiveArcs;
    CycleVertex(arcs, p, i);
    ReachesSelf(arcs, p[i]);
    assert Tainted(arcs, DestinationOf(g.nodes), p[i]);
    assert p[i] in ids && p[i] !in ids[..drained];
    assert ids == ids[..drained] + ids[drained..];
  }

  lemma CycleVertex(arcs: Arcs, p: seq<nat>, i: nat)
    requires IsCycle(arcs, p) && i < |p|
    ensures OnCycle(arcs, p[i])
  {
    var walk := Rotated(p, i) + [p[i]];
    forall a, b | 0 <= a && b == a + 1 < |walk| ensures (walk[a], walk[b]) in arcs {
      RotatedAt(p, i, a);
      var k := if i + a < |p| then i + a else i + a - |p|;
      assert walk[b] == p[Succ(p, k)];
    }
    assert WalkFromTo(arcs, walk, p[i], p[i]);
  }

  // ---------------------------------------------------------- over all enumerations

  /** `order` is what a rebuild may return when the node map enumerates its ids as `denseIds`. */
  ghost predicate Builds<S>(g: Graph<S>, denseIds: seq<NodeId>, denseIndex: map<NodeId, nat>, order: seq<nat>,
      drained: nat) {
    && IsDense(g.nodes.Keys, denseIds, denseIndex)
    && IsSchedule(Edges(g.nodes, denseIndex, g.connections), |denseIds|, DenseDestination(denseIndex), order, drained)
  }

  /** A node's place among the nodes left over, fixed by the enumeration: the destination last,
      the others by index. */
  ghost function Rank(denseIds: seq<NodeId>, denseIndex: map<NodeId, nat>, u: NodeId): nat {
    if u == DESTINATION_NODE_ID || u !in denseIndex then |denseIds| else denseIndex[u]
  }

  /** Positions of nodes left over follow their ranks. */
  lemma PositionsFollowRanks<S>(g: Graph<S>, denseIds: seq<NodeId>, denseIndex: map<NodeId, nat>,
      order: seq<nat>, drained: nat, a: nat, b: nat)
    requires Builds(g, denseIds, denseIndex, order, drained) && drained <= a < b < |order|
    ensures order[a] < |denseIds| && order[b] < |denseIds|
    ensures Rank(denseIds, denseIndex, denseIds[order[a]]) < Rank(denseIds, denseIndex, denseIds[order[b]])
  {
    hide Edges, Tainted, SourcesPrecede;
    var n := |denseIds|;
    var u, v := denseIds[order[a]], denseIds[order[b]];
    assert denseIndex[u] == order[a] && denseIndex[v] == order[b];
    if DESTINATION_NODE_ID in denseIndex {
      assert order[n - 1] == denseIndex[DESTINATION_NODE_ID];
      assert order[a] != order[n - 1];
    }
  }

  /** Of two nodes left over, the one of smaller rank runs first. */
  lemma EarlierByRank<S>(g: Graph<S>, denseIds: seq<NodeId>, denseIndex: map<NodeId, nat>,
      order: seq<nat>, drained: nat, u: NodeId, v: NodeId)
    requires Builds(g, denseIds, denseIndex, order, drained) && forall k :: 0 <= k < |order| ==> order[k] < |denseIds|
    requires var ids := ToIds(order, denseIds); drained <= |ids| && u in ids[drained..] && v in ids[drained..]
    ensures Earlier(ToIds(order, denseIds), u, v)
       <==> Rank(denseIds, denseIndex, u) < Rank(denseIds, denseIndex, v)
  {
    hide Rank, Builds;
    var ids := ToIds(order, denseIds);
    var a :| drained <= a < |ids| && ids[a] == u;
    var b :| drained <= b < |ids| && ids[b] == v;
    assert NoDuplicates(ids) by { BuiltDistinct(g, denseIds, denseIndex, order, drained); }
    if a < b {
      PositionsFollowRanks(g, denseIds, denseIndex, order, drained, a, b);
    } else if b < a {
      PositionsFollowRanks(g, denseIds, denseIndex, order, drained, b, a);
    }
  }

  lemma BuiltDistinct<S>(g: Graph<S>, denseIds: seq<NodeId>, denseIndex: map<NodeId, nat>, order: seq<nat>,
      drained: nat)
    requires Builds(g, denseIds, denseIndex, order, drained)
    ensures forall k :: 0 <= k < |order| ==> order[k] < |denseIds|
    ensures SchedulesGraph(g, ToIds(order, denseIds), drained) && NoDuplicates(ToIds(order, denseIds))
    ensures drained <= |order|
  {
    ScheduleOverIds(g, denseIds, denseIndex, order, drained);
  }

  /** Which connections of a cycle are late is settled by the enumeration alone. */
  lemma DelayedByRank<S>(g: Graph<S>, denseIds: seq<NodeId>, denseIndex: map<NodeId, nat>,
      order: seq<nat>, drained: nat, p: seq<NodeId>)
    requires Builds(g, denseIds, denseIndex, order, drained)
    requires IsCycle(LiveArcs(g.nodes.Keys, g.connections), p)
    ensures forall k :: 0 <= k < |order| ==> order[k] < |denseIds|
    ensures forall i, j :: 0 <= i < |p| && 0 <= j < |p| ==>
              (Earlier(ToIds(order, denseIds), p[i], p[j])
               <==> Rank(denseIds, denseIndex, p[i]) < Rank(denseIds, denseIndex, p[j]))
    ensures Delayed(ToIds(order, denseIds), p)
         == set i | 0 <= i < |p| && Rank(denseIds, denseIndex, p[i]) >= Rank(denseIds, denseIndex, p[Succ(p, i)])
  {
    BuiltDistinct(g, denseIds, denseIndex, order, drained);
    hide Earlier, Rank, Builds, IsCycle, SchedulesGraph;
    forall i, j | 0 <= i < |p| && 0 <= j < |p|
      ensures Earlier(ToIds(order, denseIds), p[i], p[j])
         <==> Rank(denseIds, denseIndex, p[i]) < Rank(denseIds, denseIndex, p[j])
    {
      CycleLeftOver(g, ToIds(order, denseIds), drained, p, i);
      CycleLeftOver(g, ToIds(order, denseIds), drained, p, j);
      EarlierByRank(g, denseIds, denseIndex, order, drained, p[i], p[j]);
    }
  }

  ghost predicate InRankOrder(denseIds: seq<NodeId>, denseIndex: map<NodeId, nat>, p: seq<NodeId>) {
    forall i, j :: 0 <= i < j < |p| ==> Rank(denseIds, denseIndex, p[i]) < Rank(denseIds, denseIndex, p[j])
  }

  /** A rebuild delays a cycle exactly once exactly when the node map enumerates its nodes, the
      destination counted last, in cycle order from some point on. */
  lemma DelayedOnceByRank<S>(g: Graph<S>, denseIds: seq<NodeId>, denseIndex: map<NodeId, nat>,
      order: seq<nat>, drained: nat, p: seq<NodeId>)
    requires Builds(g, denseIds, denseIndex, order, drained)
    requires IsCycle(LiveArcs(g.nodes.Keys, g.connections), p)
    ensures forall k :: 0 <= k < |order| ==> order[k] < |denseIds|
    ensures |Delayed(ToIds(order, denseIds), p)| == 1
       <==> exists k :: 0 <= k < |p| && InRankOrder(denseIds, denseIndex, Rotated(p, k))
  {
    BuiltDistinct(g, denseIds, denseIndex, order, drained);
    DelayedByRank(g, denseIds, denseIndex, order, drained, p);
    CycleNonempty(LiveArcs(g.nodes.Keys, g.connections), p);
    hide Earlier, Rank, Builds, IsCycle, SchedulesGraph, Delayed;
    var ids := ToIds(order, denseIds);
    DelayedOnce(ids, p);
    hide InScheduleOrder, InRankOrder, Rotated;
    forall k | 0 <= k < |p|
      ensures InScheduleOrder(ids, Rotated(p, k)) <==> InRankOrder(denseIds, denseIndex, Rotated(p, k))
    {
      OrdersAgree(ids, denseIds, denseIndex, p, k);
    }
  }

  lemma OrdersAgree(ids: seq<NodeId>, denseIds: seq<NodeId>, denseIndex: map<NodeId, nat>, p: seq<NodeId>, k: nat)
    requires k < |p|
    requires forall i, j :: 0 <= i < |p| && 0 <= j < |p| ==>
               (Earlier(ids, p[i], p[j]) <==> Rank(denseIds, denseIndex, p[i]) < Rank(denseIds, denseIndex, p[j]))
    ensures InScheduleOrder(ids, Rotated(p, k)) <==> InRankOrder(denseIds, denseIndex, Rotated(p, k))
  {
    hide Earlier, Rank;
    var q := Rotated(p, k);
    forall i, j | 0 <= i < j < |p|
      ensures Earlier(ids, q[i], q[j]) <==> Rank(denseIds, denseIndex, q[i]) < Rank(denseIds, denseIndex, q[j])
    {
      RotatedAt(p, k, i);
      RotatedAt(p, k, j);
    }
  }

  /** A cycle of three or more nodes loses two quanta or more whenever the node map enumerates two
      neighbours of it first, and against its direction. */
  lemma LongCycle<S>(g: Graph<S>, denseIds: seq<NodeId>, denseIndex: map<NodeId, nat>,
      order: seq<nat>, drained: nat, p: seq<NodeId>, i: nat)
    requires Builds(g, denseIds, denseIndex, order, drained)
    requires IsCycle(LiveArcs(g.nodes.Keys, g.connections), p) && NoDuplicates(p) && |p| >= 3 && i < |p|
    requires var j := Succ(p, i);
             var k := Succ(p, j);
             && p[j] != DESTINATION_NODE_ID && p[k] != DESTINATION_NODE_ID
             && |denseIds| >= 2 && denseIds[0] == p[k] && denseIds[1] == p[j]
    ensures forall k :: 0 <= k < |order| ==> order[k] < |denseIds|
    ensures |Delayed(ToIds(order, denseIds), p)| >= 2
  {
    hide IsSchedule, IsDense, LiveArcs, IsCycle, Earlier, Rank, Delayed, Edges;
    var j := Succ(p, i);
    var k := Succ(p, j);
    assert p[i] != p[j] && p[j] != p[k] && p[i] != p[k];
    hide NoDuplicates;
    FirstRanks(g.nodes.Keys, denseIds, denseIndex, p[i], p[j], p[k]);
    hide Builds;
    DelayedByRank(g, denseIds, denseIndex, order, drained, p);
    var late := Delayed(ToIds(order, denseIds), p);
    assert i in late && j in late;
    SubsetSize({i, j}, late);
  }

  lemma FirstRanks(ids: set<NodeId>, denseIds: seq<NodeId>, denseIndex: map<NodeId, nat>, u: NodeId, v: NodeId,
      w: NodeId)
    requires IsDense(ids, denseIds, denseIndex) && u != v && v != w && u != w
    requires v != DESTINATION_NODE_ID && w != DESTINATION_NODE_ID
    requires |denseIds| >= 2 && denseIds[0] == w && denseIds[1] == v
    ensures Rank(denseIds, denseIndex, w) < Rank(denseIds, denseIndex, v) < Rank(denseIds, denseIndex, u)
  {
  }

  lemma SubsetSize(a: set<nat>, b: set<nat>)
    requires a <= b
    ensures |a| <= |b|
  {
    assert b == a + (b - a);
  }

  lemma CycleNonempty(arcs: Arcs, p: seq<nat>)
    requires IsCycle(arcs, p)
    ensures p != []
  {
  }

  // ------------------------------------------------------ every enumeration is possible

  /** An enumeration can start with any nodes. */
  lemma {:induction false} NumberRest(ids: set<NodeId>, done: set<NodeId>, denseIds: seq<NodeId>,
      denseIndex: map<NodeId, nat>)
    returns (denseIds': seq<NodeId>, denseIndex': map<NodeId, nat>)
    requires IsDense(done, denseIds, denseIndex) && done <= ids
    ensures IsDense(ids, denseIds', denseIndex') && denseIds <= denseIds'
    decreases ids - done
  {
    if ids - done == {} {
      assert done == ids;
      denseIds', denseIndex' := denseIds, denseIndex;
    } else {
      var id :| id in ids - done;
      DenseExtend(done, denseIds, denseIndex, id);
      denseIds', denseIndex' := NumberRest(ids, done + {id}, denseIds + [id], denseIndex[id := |denseIds|]);
    }
  }

  lemma NumberFirst(ids: set<NodeId>, w: NodeId, v: NodeId)
    returns (denseIds: seq<NodeId>, denseIndex: map<NodeId, nat>)
    requires w in ids && v in ids && v != w
    ensures IsDense(ids, denseIds, denseIndex) && |denseIds| >= 2 && denseIds[0] == w && denseIds[1] == v
  {
    DenseExtend({}, [], map[], w);
    DenseExtend({w}, [w], map[w := 0], v);
    assert {} + {w} == {w} && [] + [w] == [w] && map[][w := 0] == map[w := 0];
    denseIds, denseIndex := NumberRest(ids, {w} + {v}, [w] + [v], map[w := 0][v := 1]);
  }

  /** All sources of `v` are in `order`, and `v` may be appended. */
  ghost predicate IsReady(edges: seq<Edge>, n: nat, destination: Option<nat>, order: seq<nat>, v: nat) {
    && v < n && v !in order && Some(v) != destination
    && forall e :: 0 <= e < |edges| && edges[e].dst == v ==> edges[e].src in order
  }

  ghost predicate IsPartial(edges: seq<Edge>, n: nat, destination: Option<nat>, order: seq<nat>) {
    && EndpointsBelow(edges, n) && NoDuplicates(order) && SourcesPrecede(edges, order)
    && forall v :: v in order ==> v < n && Some(v) != destination
  }

  lemma AppendReady(edges: seq<Edge>, n: nat, destination: Option<nat>, order: seq<nat>, v: nat)
    requires IsPartial(edges, n, destination, order) && IsReady(edges, n, destination, order, v)
    ensures IsPartial(edges, n, destination, order + [v])
  {
    var order' := order + [v];
    forall k, e | 0 <= k < |order'| && 0 <= e < |edges| && edges[e].dst == order'[k]
        ensures edges[e].src in order'[..k] {
      assert order'[..k] == order[..k];
      if k == |order| {
        assert order[..k] == order;
      }
    }
  }

  /** When nothing is ready, everything that is left is fed by a cycle or the destination. */
  lemma NothingReady(edges: seq<Edge>, n: nat, destination: Option<nat>, order: seq<nat>)
    requires IsPartial(edges, n, destination, order) && forall v: nat :: !IsReady(edges, n, destination, order, v)
    ensures forall v :: v in order <==> 0 <= v < n && Some(v) != destination && !Tainted(ArcsOf(edges), destination, v)
  {
    var arcs := ArcsOf(edges);
    var clean := set v | v in Below(n) && v !in order && Some(v) != destination && !Tainted(arcs, destination, v);
    forall v | v in clean ensures HasPredecessor(arcs, clean, v) {
      assert !IsReady(edges, n, destination, order, v);
      var e :| 0 <= e < |edges| && edges[e].dst == v && edges[e].src !in order;
      var u := edges[e].src;
      assert (u, v) in arcs;
      if destination == Some(u) {
        ReachesSelf(arcs, u);
        ExtendWalk(arcs, u, u, v);
      } else if Tainted(arcs, destination, u) {
        TaintSpreads(arcs, destination, u, v);
      }
    }
    if clean != {} {
      var c := PredecessorClosedHasCycle(arcs, clean);
      ReachesSelf(arcs, c);
    }
    forall v | v in order ensures !Tainted(arcs, destination, v) {
      var k :| 0 <= k < |order| && order[k] == v;
      OrderedIsUntainted(edges, destination, order, k);
    }
    forall v | 0 <= v < n && Some(v) != destination && !Tainted(arcs, destination, v) ensures v in order {
      assert v in Below(n) && v !in clean;
    }
  }

  lemma {:induction false} DrainAll(edges: seq<Edge>, n: nat, destination: Option<nat>, order: seq<nat>)
    returns (drained: seq<nat>)
    requires IsPartial(edges, n, destination, order)
    ensures IsPartial(edges, n, destination, drained)
    ensures forall v :: v in drained <==>
               0 <= v < n && Some(v) != destination && !Tainted(ArcsOf(edges), destination, v)
    decreases n - |order|
  {
    hide Tainted, IsReady;
    OrderFits(order, n);
    if v: nat :| IsReady(edges, n, destination, order, v) {
      AppendReady(edges, n, destination, order, v);
      OrderFits(order + [v], n);
      drained := DrainAll(edges, n, destination, order + [v]);
    } else {
      NothingReady(edges, n, destination, order);
      drained := order;
    }
  }

  /** The nodes below `n` that are neither drained nor the destination, in index order. */
  ghost function Undrained(n: nat, destination: Option<nat>, drained: seq<nat>): (r: seq<nat>)
    ensures forall v :: v in r <==> 0 <= v < n && Some(v) != destination && v !in drained
    ensures forall i, j :: 0 <= i < j < |r| ==> r[i] < r[j]
  {
    if n == 0 then []
    else
      var init := Undrained(n - 1, destination, drained);
      assert forall i :: 0 <= i < |init| ==> init[i] in init;
      init + if Some(n - 1) != destination && n - 1 !in drained then [n - 1] else []
  }

  /** Every enumeration has an order that a rebuild may return. */
  lemma OrderExists<S>(g: Graph<S>, denseIds: seq<NodeId>, denseIndex: map<NodeId, nat>)
    returns (order: seq<nat>, drained: nat)
    requires IsDense(g.nodes.Keys, denseIds, denseIndex)
    ensures Builds(g, denseIds, denseIndex, order, drained)
  {
    hide Tainted;
    var edges, n, destination := Edges(g.nodes, denseIndex, g.connections), |denseIds|, DenseDestination(denseIndex);
    EdgesBelow(g.nodes, denseIndex, g.connections, n);
    assert IsPartial(edges, n, destination, []);
    var first := DrainAll(edges, n, destination, []);
    var rest := Undrained(n, destination, first);
    AssembleSchedule(edges, n, destination, first, rest);
    order, drained := first + rest + Tail(destination), |first|;
  }

  /** The one-quantum delay is certain exactly for the cycles of one or two nodes: they lose one
      quantum whatever a rebuild returns, and for every longer cycle there is an enumeration of
      the node map from which every rebuild makes it lose more. */
  lemma AlwaysDelayedOnce<S>(g: Graph<S>, p: seq<NodeId>)
    requires IsCycle(LiveArcs(g.nodes.Keys, g.connections), p) && NoDuplicates(p)
    ensures (forall denseIds, denseIndex, order, drained :: Builds(g, denseIds, denseIndex, order, drained) ==>
               IsDelayedOnce(order, denseIds, p))
       <==> |p| <= 2
  {
    hide Delayed, IsCycle, Builds, SchedulesGraph, IsDelayedOnce;
    if |p| >= 3 {
      var i := if p[1] == DESTINATION_NODE_ID then 1 else if p[2] == DESTINATION_NODE_ID then 2 else 0;
      var j := Succ(p, i);
      var k := Succ(p, j);
      CycleInGraph(g, p, j);
      CycleInGraph(g, p, k);
      var denseIds, denseIndex := NumberFirst(g.nodes.Keys, p[k], p[j]);
      var order, drained := OrderExists(g, denseIds, denseIndex);
      LongCycle(g, denseIds, denseIndex, order, drained, p, i);
      assert !IsDelayedOnce(order, denseIds, p) by { TwiceIsNotOnce(order, denseIds, p); }
    } else {
      CycleNonempty(LiveArcs(g.nodes.Keys, g.connections), p);
      forall denseIds, denseIndex, order, drained: nat | Builds(g, denseIds, denseIndex, order, drained)
        ensures IsDelayedOnce(order, denseIds, p)
      {
        BuiltDistinct(g, denseIds, denseIndex, order, drained);
        var ids := ToIds(order, denseIds);
        forall i | 0 <= i < |p| ensures p[i] in ids {
          CycleLeftOver(g, ids, drained, p, i);
        }
        ShortCycle(ids, p);
        OnceIsOnce(order, denseIds, p);
      }
    }
  }

  /** This order, read through this enumeration, makes one connection of the cycle late. */
  ghost predicate IsDelayedOnce(order: seq<nat>, denseIds: seq<NodeId>, p: seq<NodeId>) {
    (forall k :: 0 <= k < |order| ==> order[k] < |denseIds|) && |Delayed(ToIds(order, denseIds), p)| == 1
  }

  lemma TwiceIsNotOnce(order: seq<nat>, denseIds: seq<NodeId>, p: seq<NodeId>)
    requires (forall k :: 0 <= k < |order| ==> order[k] < |denseIds|) && |Delayed(ToIds(order, denseIds), p)| >= 2
    ensures !IsDelayedOnce(order, denseIds, p)
  {
  }

  lemma OnceIsOnce(order: seq<nat>, denseIds: seq<NodeId>, p: seq<NodeId>)
    requires (forall k :: 0 <= k < |order| ==> order[k] < |denseIds|) && |Delayed(ToIds(order, denseIds), p)| == 1
    ensures IsDelayedOnce(order, denseIds, p)
  {
  }

  lemma CycleInGraph<S>(g: Graph<S>, p: seq<NodeId>, i: nat)
    requires IsCycle(LiveArcs(g.nodes.Keys, g.connections), p) && i < |p|
    ensures p[i] in g.nodes
  {
    assert (p[i], p[Succ(p, i)]) in LiveArcs(g.nodes.Keys, g.connections);
  }

  /** The nodes 1, 2 and 3 feed each other in that order, and node 3 the destination. */
  function Triangle<S>(n: Node<S>): Graph<S> {
    Graph(map[DESTINATION_NODE_ID := n, 1 := n, 2 := n, 3 := n],
          [Connection(1, 0, 2, 0), Connection(2, 0, 3, 0), Connection(3, 0, 1, 0),
            Connection(3, 0, DESTINATION_NODE_ID, 0)])
  }

  /** Enumerated against its direction, the triangle loses two quanta in whatever order a rebuild
      returns. */
  lemma DelayedTwice<S>(n: Node<S>, order: seq<nat>, drained: nat)
    requires Builds(Triangle(n), [3, 2, 1, 0], map[3 := 0, 2 := 1, 1 := 2, 0 := 3], order, drained)
    ensures IsCycle(LiveArcs(Triangle(n).nodes.Keys, Triangle(n).connections), [1, 2, 3])
    ensures forall k :: 0 <= k < |order| ==> order[k] < 4
    ensures Delayed(ToIds(order, [3, 2, 1, 0]), [1, 2, 3]) == {0, 1}
  {
    hide Builds, Earlier;
    var g, p: seq<NodeId> := Triangle(n), [1, 2, 3];
    var denseIds: seq<NodeId>, denseIndex: map<NodeId, nat> := [3, 2, 1, 0], map[3 := 0, 2 := 1, 1 := 2, 0 := 3];
    TriangleCycle(n);
    DelayedByRank(g, denseIds, denseIndex, order, drained, p);
    assert Rank(denseIds, denseIndex, 1) == 2 && Rank(denseIds, denseIndex, 2) == 1
           && Rank(denseIds, denseIndex, 3) == 0;
    assert Succ(p, 0) == 1 && Succ(p, 1) == 2 && Succ(p, 2) == 0;
  }

  /** Enumerated along its direction, the same graph loses one. */
  lemma DelayedOnceForward<S>(n: Node<S>, order: seq<nat>, drained: nat)
    requires Builds(Triangle(n), [1, 2, 3, 0], map[1 := 0, 2 := 1, 3 := 2, 0 := 3], order, drained)
    ensures forall k :: 0 <= k < |order| ==> order[k] < 4
    ensures Delayed(ToIds(order, [1, 2, 3, 0]), [1, 2, 3]) == {2}
  {
    hide Builds, Earlier;
    var g, p: seq<NodeId> := Triangle(n), [1, 2, 3];
    var denseIds: seq<NodeId>, denseIndex: map<NodeId, nat> := [1, 2, 3, 0], map[1 := 0, 2 := 1, 3 := 2, 0 := 3];
    TriangleCycle(n);
    DelayedByRank(g, denseIds, denseIndex, order, drained, p);
    assert Rank(denseIds, denseIndex, 1) == 0 && Rank(denseIds, denseIndex, 2) == 1
           && Rank(denseIds, denseIndex, 3) == 2;
    assert Succ(p, 0) == 1 && Succ(p, 1) == 2 && Succ(p, 2) == 0;
  }

  lemma TriangleCycle<S>(n: Node<S>)
    ensures IsCycle(LiveArcs(Triangle(n).nodes.Keys, Triangle(n).connections), [1, 2, 3])
  {
    var g := Triangle(n);
    var arcs := LiveArcs(g.nodes.Keys, g.connections);
    assert g.connections[0] in g.connections && g.connections[1] in g.connections && g.connections[2] in g.connections;
    assert (1, 2) in arcs && (2, 3) in arcs && (3, 1) in arcs;
  }

  /** Such an enumeration and such an order exist. */
  lemma TriangleBuilds<S>(n: Node<S>) returns (order: seq<nat>, drained: nat)
    ensures Builds(Triangle(n), [3, 2, 1, 0], map[3 := 0, 2 := 1, 1 := 2, 0 := 3], order, drained)
  {
    var g := Triangle(n);
    assert g.nodes.Keys == {0, 1, 2, 3};
    assert IsDense(g.nodes.Keys, [3, 2, 1, 0], map[3 := 0, 2 := 1, 1 := 2, 0 := 3]);
    order, drained := OrderExists(g, [3, 2, 1, 0], map[3 := 0, 2 := 1, 1 := 2, 0 := 3]);
  }
}
