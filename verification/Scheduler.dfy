/** The processing order: Kahn's algorithm over the compressed adjacency, with the
    destination held back to the end and the undrained nodes appended in index order. */
module Scheduler {
  import opened Wrappers
  import opened Digraph
  import opened AudioGraph
  import opened Csr

  ghost function ArcsOf(edges: seq<Edge>): Arcs {
    set e | e in edges :: (e.src, e.dst)
  }

  /** `v` is fed, directly or not, by a directed cycle or by the destination. */
  ghost predicate Tainted(arcs: Arcs, destination: Option<nat>, v: nat) {
    (exists c :: OnCycle(arcs, c) && Reaches(arcs, c, v))
    || (destination.Some? && Reaches(arcs, destination.value, v))
  }

  /** Every edge into a node of `order` comes from an earlier node of `order`. */
  ghost predicate SourcesPrecede(edges: seq<Edge>, order: seq<nat>) {
    forall k, e :: 0 <= k < |order| && 0 <= e < |edges| && edges[e].dst == order[k] ==> edges[e].src in order[..k]
  }

  /** What the rebuild promises of the whole order, of which the first `drained` entries
      came out of the queue. */
  ghost predicate IsSchedule(edges: seq<Edge>, n: nat, destination: Option<nat>, order: seq<nat>, drained: nat) {
    && |order| == n && NoDuplicates(order) && (forall k :: 0 <= k < n ==> order[k] < n)
    && (forall v :: 0 <= v < n ==> v in order)
    && (destination.Some? ==> n > 0 && order[n - 1] == destination.value)
    && drained <= n - Count(destination) && IndexOrdered(order, drained, n - Count(destination))
    && SourcesPrecede(edges, order[..drained])
    && (forall v :: 0 <= v < n && Some(v) != destination ==>
          (v in order[..drained] <==> !Tainted(ArcsOf(edges), destination, v)))
  }

  /** The entries from `from` to `end` are in index order. */
  ghost predicate IndexOrdered(order: seq<nat>, from: nat, end: nat) {
    forall a, b :: from <= a < b < end && b < |order| ==> order[a] < order[b]
  }

  function Count(destination: Option<nat>): nat { if destination.Some? then 1 else 0 }

  // ------------------------------------------------------------------- the drain

  /** Edges into `v` that have not been consumed. */
  ghost function Pending(edges: seq<Edge>, done: set<nat>, v: nat): set<nat> {
    set e | 0 <= e < |edges| && e !in done && edges[e].dst == v
  }

  /** The invariant of the drain, at every step of both loops. */
  ghost predicate Draining(edges: seq<Edge>, n: nat, destination: Option<nat>,
                           order: seq<nat>, ready: seq<nat>, inDegree: seq<nat>, done: set<nat>) {
    && |inDegree| == n && EndpointsBelow(edges, n)
    && (forall v :: 0 <= v < n ==> inDegree[v] == |Pending(edges, done, v)|)
    && NoDuplicates(order) && NoDuplicates(ready) && (forall v :: v in order ==> v !in ready)
    && (forall v :: v in order || v in ready ==> v < n && Some(v) != destination)
    && (forall v :: 0 <= v < n && Some(v) != destination ==> (v in order || v in ready <==> inDegree[v] == 0))
    && (forall e :: e in done ==> 0 <= e < |edges| && edges[e].src in order)
    && SourcesPrecede(edges, order)
  }

  /** The edges that leave a node of `order`. */
  ghost function Consumed(edges: seq<Edge>, order: seq<nat>): set<nat> {
    set e | 0 <= e < |edges| && edges[e].src in order
  }

  lemma {:induction false} ElementsOf(s: seq<nat>, t: set<nat>)
    requires NoDuplicates(s) && forall x :: x in s <==> x in t
    ensures |s| == |t|
  {
    if s == [] {
      assert t == {};
    } else {
      var last := s[|s| - 1];
      var init := s[..|s| - 1];
      forall x ensures x in init <==> x in t - {last} {
        if x in t - {last} {
          var i :| 0 <= i < |s| && s[i] == x;
          assert init[i] == x;
        }
      }
      ElementsOf(init, t - {last});
    }
  }

  lemma DegreeIsPending(edges: seq<Edge>, v: nat)
    ensures |Positions(Dsts(edges), v)| == |Pending(edges, {}, v)|
  {
    PositionsExact(Dsts(edges), v);
    ElementsOf(Positions(Dsts(edges), v), Pending(edges, {}, v));
  }

  lemma ConsumeOne(edges: seq<Edge>, done: set<nat>, e: nat, v: nat)
    requires e < |edges| && e !in done
    ensures |Pending(edges, done + {e}, v)| == |Pending(edges, done, v)| - if edges[e].dst == v then 1 else 0
  {
    if edges[e].dst == v {
      assert Pending(edges, done + {e}, v) == Pending(edges, done, v) - {e};
    } else {
      assert Pending(edges, done + {e}, v) == Pending(edges, done, v);
    }
  }

  /** The nodes without inputs, in index order; sorting them again changes nothing. */
  method InitialReady(inDegree: seq<nat>, destination: Option<nat>) returns (ready: seq<nat>)
    ensures forall i, j :: 0 <= i < j < |ready| ==> ready[i] < ready[j]
    ensures forall v :: v in ready <==> 0 <= v < |inDegree| && inDegree[v] == 0 && Some(v) != destination
  {
    ready := [];
    for v := 0 to |inDegree|
      invariant forall i :: 0 <= i < |ready| ==> ready[i] < v
      invariant forall i, j :: 0 <= i < j < |ready| ==> ready[i] < ready[j]
      invariant forall u :: u in ready <==> 0 <= u < v && inDegree[u] == 0 && Some(u) != destination
    {
      if inDegree[v] == 0 && Some(v) != destination {
        ready := ready + [v];
      }
    }
  }

  /** Consuming the pending edge `e`, whose source is already ordered. */
  lemma ReleaseStep(edges: seq<Edge>, n: nat, destination: Option<nat>, order: seq<nat>, ready: seq<nat>,
                    inDegree: seq<nat>, done: set<nat>, e: nat)
    requires Draining(edges, n, destination, order, ready, inDegree, done)
    requires e < |edges| && e !in done && edges[e].src in order
    ensures var next := edges[e].dst;
            && inDegree[next] > 0
            && Draining(edges, n, destination, order,
                        if inDegree[next] == 1 && Some(next) != destination then ready + [next] else ready,
                        inDegree[next := inDegree[next] - 1], done + {e})
  {
    var next := edges[e].dst;
    assert e in Pending(edges, done, next);
    forall v | 0 <= v < n
      ensures |Pending(edges, done + {e}, v)| == |Pending(edges, done, v)| - if next == v then 1 else 0
    {
      ConsumeOne(edges, done, e, v);
    }
  }

  /** Lower one successor's degree and queue it when nothing is left to wait for. The
      subtraction saturates in the engine; here it never needs to. */
  method ReleaseOne(next: nat, destination: Option<nat>, inDegree: seq<nat>, ready: seq<nat>,
                    ghost edges: seq<Edge>, ghost n: nat, ghost order: seq<nat>, ghost done: set<nat>, ghost e: nat)
    returns (inDegree': seq<nat>, ready': seq<nat>)
    requires Draining(edges, n, destination, order, ready, inDegree, done)
    requires e < |edges| && e !in done && edges[e].src in order && next == edges[e].dst
    ensures Draining(edges, n, destination, order, ready', inDegree', done + {e})
  {
    ReleaseStep(edges, n, destination, order, ready, inDegree, done, e);
    inDegree' := inDegree[next := SaturatingPred(inDegree[next])];
    ready' := if inDegree'[next] == 0 && Some(next) != destination then ready + [next] else ready;
  }

  /** Release every successor of the node just ordered. */
  method ReleaseOutputs(successors: seq<nat>, destination: Option<nat>, inDegree: seq<nat>, ready: seq<nat>,
                        ghost edges: seq<Edge>, ghost n: nat, ghost order: seq<nat>, ghost done: set<nat>,
                        ghost ids: seq<nat>)
    returns (inDegree': seq<nat>, ready': seq<nat>)
    requires Draining(edges, n, destination, order, ready, inDegree, done)
    requires NoDuplicates(ids) && |successors| == |ids|
    requires forall j :: 0 <= j < |ids| ==>
               ids[j] < |edges| && ids[j] !in done && edges[ids[j]].src in order && successors[j] == edges[ids[j]].dst
    ensures Draining(edges, n, destination, order, ready', inDegree', done + Elements(ids))
  {
    inDegree', ready' := inDegree, ready;
    ghost var done' := done;
    for slot := 0 to |successors|
      invariant done' == done + Elements(ids[..slot])
      invariant Draining(edges, n, destination, order, ready', inDegree', done')
    {
      ghost var e := ids[slot];
      assert ids[..slot + 1] == ids[..slot] + [e];
      inDegree', ready' := ReleaseOne(successors[slot], destination, inDegree', ready', edges, n, order, done', e);
      done' := done' + {e};
    }
    assert ids[..|ids|] == ids;
  }

  ghost function Elements(s: seq<nat>): set<nat> { set x | x in s }

  function SaturatingPred(x: nat): nat { if x == 0 then 0 else x - 1 }

  /** Move the top of the queue to the order: its sources are all ordered already. */
  lemma PopStep(edges: seq<Edge>, n: nat, destination: Option<nat>, order: seq<nat>, ready: seq<nat>,
                inDegree: seq<nat>, done: set<nat>)
    requires Draining(edges, n, destination, order, ready, inDegree, done) && ready != []
    ensures var top := |ready| - 1;
            Draining(edges, n, destination, order + [ready[top]], ready[..top], inDegree, done)
  {
    var top := |ready| - 1;
    var node := ready[top];
    var order', ready' := order + [node], ready[..top];
    SameNodes(order, ready);
    assert SourcesPrecede(edges, order') by {
      assert node in ready && inDegree[node] == 0 && Pending(edges, done, node) == {};
      forall k, e | 0 <= k < |order'| && 0 <= e < |edges| && edges[e].dst == order'[k]
        ensures edges[e].src in order'[..k]
      {
        assert order'[..k] == order[..k];
        if k == |order| {
          assert e !in Pending(edges, done, node);
        }
      }
    }
  }

  lemma SameNodes(order: seq<nat>, ready: seq<nat>)
    requires ready != [] && NoDuplicates(order) && NoDuplicates(ready) && forall v :: v in order ==> v !in ready
    ensures var top := |ready| - 1;
            var order', ready' := order + [ready[top]], ready[..top];
            && (forall v :: v in order' || v in ready' <==> v in order || v in ready)
            && NoDuplicates(order') && NoDuplicates(ready') && forall v :: v in order' ==> v !in ready'
  {
    var top := |ready| - 1;
    assert ready == ready[..top] + [ready[top]];
    assert ready[top] in ready;
  }

  lemma OrderFits(order: seq<nat>, n: nat)
    requires NoDuplicates(order) && forall v :: v in order ==> v < n
    ensures |order| <= n
    ensures |order| == n ==> forall v :: 0 <= v < n ==> v in order
  {
    assert forall i :: 0 <= i < |order| ==> order[i] in order;
    DistinctFits(order, Below(n));
  }

  ghost function Below(n: nat): (r: set<nat>)
    ensures |r| == n && forall v :: v in r <==> 0 <= v < n
  {
    if n == 0 then {} else Below(n - 1) + {n - 1}
  }

  lemma StartDraining(edges: seq<Edge>, n: nat, destination: Option<nat>, ready: seq<nat>, inDegree: seq<nat>)
    requires EndpointsBelow(edges, n) && |inDegree| == n
    requires forall v :: 0 <= v < n ==> inDegree[v] == |Positions(Dsts(edges), v)|
    requires NoDuplicates(ready)
    requires forall v :: v in ready <==> 0 <= v < |inDegree| && inDegree[v] == 0 && Some(v) != destination
    ensures Draining(edges, n, destination, [], ready, inDegree, {})
  {
    forall v | 0 <= v < n ensures inDegree[v] == |Pending(edges, {}, v)| {
      DegreeIsPending(edges, v);
    }
  }

  /** The edges leaving `node`, newly ordered, are fresh and complete the consumed set. */
  lemma OutgoingAreFresh(edges: seq<Edge>, order: seq<nat>, node: nat)
    requires node !in order
    ensures var ids := Positions(Srcs(edges), node);
            && NoDuplicates(ids)
            && (forall j :: 0 <= j < |ids| ==> && ids[j] < |edges| && ids[j] !in Consumed(edges, order)
                                               && edges[ids[j]].src == node)
            && Consumed(edges, order) + Elements(ids) == Consumed(edges, order + [node])
  {
    var ids := Positions(Srcs(edges), node);
    PositionsExact(Srcs(edges), node);
    assert forall j :: 0 <= j < |ids| ==> ids[j] in ids;
  }

  /** One turn of Kahn's loop. */
  method DrainOne(outputStart: seq<nat>, outputEdges: seq<nat>, destination: Option<nat>, n: nat,
                  order: seq<nat>, ready: seq<nat>, inDegree: seq<nat>, ghost edges: seq<Edge>)
    returns (order': seq<nat>, ready': seq<nat>, inDegree': seq<nat>)
    requires IsGrouped(outputStart, outputEdges, Srcs(edges), Dsts(edges), n)
    requires Draining(edges, n, destination, order, ready, inDegree, Consumed(edges, order)) && ready != []
    ensures |order'| == |order| + 1
    ensures Draining(edges, n, destination, order', ready', inDegree', Consumed(edges, order'))
  {
    hide Positions, Pending;
    var node := ready[|ready| - 1];
    assert node in ready;
    PopStep(edges, n, destination, order, ready, inDegree, Consumed(edges, order));
    OutgoingAreFresh(edges, order, node);
    ghost var done, ids := Consumed(edges, order), Positions(Srcs(edges), node);
    order' := order + [node];
    assert GroupAt(outputStart, outputEdges, Srcs(edges), Dsts(edges), node);
    var successors := outputEdges[outputStart[node]..outputStart[node + 1]];
    inDegree', ready' := ReleaseOutputs(successors, destination, inDegree, ready[..|ready| - 1], edges, n, order',
      done, ids);
  }

  /** Kahn's loop. It ends with an empty queue and every edge out of the order consumed. */
  method Drain(outputStart: seq<nat>, outputEdges: seq<nat>, destination: Option<nat>, inDegree: seq<nat>,
               n: nat, ghost edges: seq<Edge>)
    returns (order: seq<nat>, inDegree': seq<nat>)
    requires EndpointsBelow(edges, n) && |inDegree| == n
    requires IsGrouped(outputStart, outputEdges, Srcs(edges), Dsts(edges), n)
    requires forall v :: 0 <= v < n ==> inDegree[v] == |Positions(Dsts(edges), v)|
    ensures Draining(edges, n, destination, order, [], inDegree', Consumed(edges, order))
  {
    order, inDegree' := [], inDegree;
    var ready := InitialReady(inDegree, destination);
    StartDraining(edges, n, destination, ready, inDegree);
    assert Consumed(edges, []) == {};
    while ready != []
      invariant Draining(edges, n, destination, order, ready, inDegree', Consumed(edges, order))
      decreases n - |order|
    {
      OrderFits(order, n);
      order, ready, inDegree' := DrainOne(outputStart, outputEdges, destination, n, order, ready, inDegree', edges);
      OrderFits(order, n);
    }
  }

  // ------------------------------------------------------- what is left after it

  /** Walking back from an ordered node stays in the order and moves strictly forward in it. */
  lemma {:induction false} OrderedUpstream(edges: seq<Edge>, order: seq<nat>, p: seq<nat>, k: nat) returns (j: nat)
    requires SourcesPrecede(edges, order) && IsWalk(ArcsOf(edges), p)
    requires k < |order| && p[|p| - 1] == order[k]
    ensures j + |p| - 1 <= k && order[j] == p[0]
    decreases |p|
  {
    if |p| == 1 {
      j := k;
    } else {
      assert (p[|p| - 2], p[|p| - 1]) in ArcsOf(edges);
      var e :| 0 <= e < |edges| && (edges[e].src, edges[e].dst) == (p[|p| - 2], order[k]);
      var i :| 0 <= i < k && order[i] == p[|p| - 2];
      j := OrderedUpstream(edges, order, p[..|p| - 1], i);
    }
  }

  /** No cycle and no destination lies upstream of an ordered node. */
  lemma OrderedIsUntainted(edges: seq<Edge>, destination: Option<nat>, order: seq<nat>, k: nat)
    requires SourcesPrecede(edges, order) && NoDuplicates(order) && k < |order|
    requires destination.Some? ==> destination.value !in order
    ensures !Tainted(ArcsOf(edges), destination, order[k])
  {
    var arcs := ArcsOf(edges);
    if c :| OnCycle(arcs, c) && Reaches(arcs, c, order[k]) {
      var p :| WalkFromTo(arcs, p, c, order[k]);
      var j := OrderedUpstream(edges, order, p, k);
      var q :| WalkFromTo(arcs, q, c, c) && |q| >= 2;
      var i := OrderedUpstream(edges, order, q, j);
      assert false;
    }
    if destination.Some? && Reaches(arcs, destination.value, order[k]) {
      var p :| WalkFromTo(arcs, p, destination.value, order[k]);
      var j := OrderedUpstream(edges, order, p, k);
      assert false;
    }
  }

  /** A node the drain never reached waits, directly or not, for a cycle or the destination. */
  lemma UnorderedIsTainted(edges: seq<Edge>, n: nat, destination: Option<nat>, order: seq<nat>, inDegree: seq<nat>)
    requires Draining(edges, n, destination, order, [], inDegree, Consumed(edges, order))
    ensures forall v :: 0 <= v < n && v !in order && Some(v) != destination ==> Tainted(ArcsOf(edges), destination, v)
  {
    var arcs := ArcsOf(edges);
    var clean := set v | v in Below(n) && v !in order && Some(v) != destination && !Tainted(arcs, destination, v);
    if clean != {} {
      forall v | v in clean ensures HasPredecessor(arcs, clean, v) {
        var e := PendingEdge(edges, n, destination, order, inDegree, v);
        var u := edges[e].src;
        assert (u, v) in arcs;
        if destination == Some(u) {
          ReachesSelf(arcs, u);
          ExtendWalk(arcs, u, u, v);
        } else if Tainted(arcs, destination, u) {
          TaintSpreads(arcs, destination, u, v);
        }
      }
      var c := PredecessorClosedHasCycle(arcs, clean);
      ReachesSelf(arcs, c);
    }
    forall v | 0 <= v < n && v !in order && Some(v) != destination ensures Tainted(arcs, destination, v) {
      assert v in Below(n) && v !in clean;
    }
  }

  lemma PendingEdge(edges: seq<Edge>, n: nat, destination: Option<nat>, order: seq<nat>, inDegree: seq<nat>, v: nat)
    returns (e: nat)
    requires Draining(edges, n, destination, order, [], inDegree, Consumed(edges, order))
    requires v < n && v !in order && Some(v) != destination
    ensures e < |edges| && edges[e].dst == v && edges[e].src !in order && edges[e].src < n
  {
    assert inDegree[v] > 0 && Pending(edges, Consumed(edges, order), v) != {};
    e :| e in Pending(edges, Consumed(edges, order), v);
  }

  lemma TaintSpreads(arcs: Arcs, destination: Option<nat>, u: nat, v: nat)
    requires Tainted(arcs, destination, u) && (u, v) in arcs
    ensures Tainted(arcs, destination, v)
  {
    if c :| OnCycle(arcs, c) && Reaches(arcs, c, u) {
      ExtendWalk(arcs, c, u, v);
    } else {
      ExtendWalk(arcs, destination.value, u, v);
    }
  }

  /** The nodes with inputs left over, other than the destination, in index order. */
  method Leftover(inDegree: seq<nat>, destination: Option<nat>) returns (rest: seq<nat>)
    ensures forall i, j :: 0 <= i < j < |rest| ==> rest[i] < rest[j]
    ensures forall v :: v in rest <==> 0 <= v < |inDegree| && inDegree[v] > 0 && Some(v) != destination
  {
    rest := [];
    for v := 0 to |inDegree|
      invariant forall i :: 0 <= i < |rest| ==> rest[i] < v
      invariant forall i, j :: 0 <= i < j < |rest| ==> rest[i] < rest[j]
      invariant forall u :: u in rest <==> 0 <= u < v && inDegree[u] > 0 && Some(u) != destination
    {
      if inDegree[v] > 0 && Some(v) != destination {
        rest := rest + [v];
      }
    }
  }

  /** When the drain placed everything, the scan the engine skips would find nothing. */
  lemma AllPlaced(edges: seq<Edge>, n: nat, destination: Option<nat>, order: seq<nat>, inDegree: seq<nat>)
    requires Draining(edges, n, destination, order, [], inDegree, Consumed(edges, order))
    requires destination.Some? ==> destination.value < n
    requires |order| + Count(destination) >= n
    ensures forall v :: 0 <= v < n && inDegree[v] > 0 ==> Some(v) == destination
  {
    var all := if destination.Some? then order + [destination.value] else order;
    OrderFits(all, n);
    assert |all| == n;
    forall v | 0 <= v < n && inDegree[v] > 0 ensures Some(v) == destination {
      assert v in all;
    }
  }

  lemma ConcatIsPermutation(n: nat, a: seq<nat>, b: seq<nat>, c: seq<nat>)
    requires NoDuplicates(a) && NoDuplicates(b) && NoDuplicates(c)
    requires forall v :: v in b || v in c ==> v !in a
    requires forall v :: v in c ==> v !in b
    requires forall v :: 0 <= v < n <==> v in a || v in b || v in c
    ensures |a + b + c| == n && NoDuplicates(a + b + c)
    ensures forall v :: 0 <= v < n <==> v in a + b + c
  {
    var order := a + b + c;
    assert NoDuplicates(a + b) by {
      assert forall i :: 0 <= i < |a| ==> a[i] in a;
      assert forall i :: 0 <= i < |b| ==> b[i] in b;
    }
    assert NoDuplicates(order) by {
      assert forall i :: 0 <= i < |a + b| ==> (a + b)[i] in a + b;
      assert forall i :: 0 <= i < |c| ==> c[i] in c;
    }
    ElementsOf(order, Below(n));
  }

  lemma DrainedIsUntainted(edges: seq<Edge>, n: nat, destination: Option<nat>, order: seq<nat>, inDegree: seq<nat>)
    requires Draining(edges, n, destination, order, [], inDegree, Consumed(edges, order))
    ensures forall v :: 0 <= v < n && Some(v) != destination ==>
              (v in order <==> !Tainted(ArcsOf(edges), destination, v))
  {
    UnorderedIsTainted(edges, n, destination, order, inDegree);
    forall v | v in order ensures !Tainted(ArcsOf(edges), destination, v) {
      var k :| 0 <= k < |order| && order[k] == v;
      OrderedIsUntainted(edges, destination, order, k);
    }
  }

  /** Drained nodes, the others in index order, the destination: a schedule. */
  lemma AssembleSchedule(edges: seq<Edge>, n: nat, destination: Option<nat>, drained: seq<nat>, rest: seq<nat>)
    requires NoDuplicates(drained) && SourcesPrecede(edges, drained) && (destination.Some? ==> destination.value < n)
    requires forall v :: v in drained <==>
               0 <= v < n && Some(v) != destination && !Tainted(ArcsOf(edges), destination, v)
    requires forall i, j :: 0 <= i < j < |rest| ==> rest[i] < rest[j]
    requires forall v :: v in rest <==> 0 <= v < n && Some(v) != destination && v !in drained
    ensures IsSchedule(edges, n, destination, drained + rest + Tail(destination), |drained|)
  {
    hide Tainted, SourcesPrecede;
    var order := drained + rest + Tail(destination);
    ConcatIsPermutation(n, drained, rest, Tail(destination));
    assert forall k :: 0 <= k < n ==> order[k] in order;
    assert order[..|drained|] == drained;
    assert IndexOrdered(order, |drained|, |drained| + |rest|) by {
      hide NoDuplicates;
      assert forall k :: 0 <= k < |rest| ==> order[|drained| + k] == rest[k];
      forall a, b | |drained| <= a < b < |drained| + |rest| ensures order[a] < order[b] {
        assert order[a] == rest[a - |drained|] && order[b] == rest[b - |drained|];
      }
    }
  }

  function Tail(destination: Option<nat>): seq<nat> {
    if destination.Some? then [destination.value] else []
  }

  /** The whole order: the drained nodes, then the undrained ones, then the destination. */
  method ProcessingOrder(outputStart: seq<nat>, outputEdges: seq<nat>, destination: Option<nat>, inDegree: seq<nat>,
                         n: nat, ghost edges: seq<Edge>)
    returns (order: seq<nat>, drained: nat)
    requires EndpointsBelow(edges, n) && |inDegree| == n && (destination.Some? ==> destination.value < n)
    requires IsGrouped(outputStart, outputEdges, Srcs(edges), Dsts(edges), n)
    requires forall v :: 0 <= v < n ==> inDegree[v] == |Positions(Dsts(edges), v)|
    ensures IsSchedule(edges, n, destination, order, drained)
  {
    var inDegree';
    order, inDegree' := Drain(outputStart, outputEdges, destination, inDegree, n, edges);
    var rest := [];
    if |order| + Count(destination) < n {
      rest := Leftover(inDegree', destination);
    } else {
      AllPlaced(edges, n, destination, order, inDegree');
    }
    DrainedIsUntainted(edges, n, destination, order, inDegree');
    AssembleSchedule(edges, n, destination, order, rest);
    drained := |order|;
    order := order + rest + Tail(destination);
  }

  // ------------------------------------------------------------- over node ids

  function DestinationOf<S>(nodes: map<NodeId, Node<S>>): Option<NodeId> {
    if DESTINATION_NODE_ID in nodes then Some(DESTINATION_NODE_ID) else None
  }

  function DenseDestination(denseIndex: map<NodeId, nat>): Option<nat> {
    if DESTINATION_NODE_ID in denseIndex then Some(denseIndex[DESTINATION_NODE_ID]) else None
  }

  function ToIds(order: seq<nat>, denseIds: seq<NodeId>): (ids: seq<NodeId>)
    requires forall k :: 0 <= k < |order| ==> order[k] < |denseIds|
    ensures |ids| == |order| && forall k :: 0 <= k < |ids| ==> ids[k] == denseIds[order[k]]
  {
    seq(|order|, k requires 0 <= k < |order| => denseIds[order[k]])
  }

  /** The schedule as a caller sees it, free of dense indices: every node once, the
      destination last, and ahead of it first the nodes that no cycle and no destination
      feeds, each after all of its live sources. */
  ghost predicate SchedulesGraph<S>(g: Graph<S>, ids: seq<NodeId>, drained: nat) {
    && NoDuplicates(ids) && (forall id :: id in ids <==> id in g.nodes)
    && (DESTINATION_NODE_ID in g.nodes ==> |ids| > 0 && ids[|ids| - 1] == DESTINATION_NODE_ID)
    && drained <= |ids| && DrainsUntainted(g, ids[..drained]) && SourcesFirst(g, ids[..drained])
  }

  /** `prefix` holds exactly the nodes, without the destination, that no cycle and no
      destination feeds. */
  ghost predicate DrainsUntainted<S>(g: Graph<S>, prefix: seq<NodeId>) {
    forall id :: id in prefix <==>
      && id in g.nodes && id != DESTINATION_NODE_ID
      && !Tainted(LiveArcs(g.nodes.Keys, g.connections), DestinationOf(g.nodes), id)
  }

  /** Every live source of a node of `prefix` stands before it. */
  ghost predicate SourcesFirst<S>(g: Graph<S>, prefix: seq<NodeId>) {
    forall c, k :: c in g.connections && IsLive(g.nodes.Keys, c) && 0 <= k < |prefix| && prefix[k] == c.dst ==>
      c.src in prefix[..k]
  }

  lemma {:induction false} EdgesAreLive<S>(nodes: map<NodeId, Node<S>>, denseIndex: map<NodeId, nat>,
      connections: seq<Connection>)
    requires denseIndex.Keys == nodes.Keys
    ensures forall e :: e in Edges(nodes, denseIndex, connections) <==>
              exists c :: c in connections && IsLive(nodes.Keys, c) && e == EdgeOf(nodes, denseIndex, c)
  {
    if connections != [] {
      var init, last := connections[..|connections| - 1], connections[|connections| - 1];
      EdgesAreLive(nodes, denseIndex, init);
      assert connections == init + [last];
    }
  }

  /** Dense arcs are the live arcs under renumbering. */
  lemma ArcsAgree<S>(g: Graph<S>, denseIds: seq<NodeId>, denseIndex: map<NodeId, nat>, u: nat, v: nat)
    requires IsDense(g.nodes.Keys, denseIds, denseIndex) && u < |denseIds| && v < |denseIds|
    ensures (u, v) in ArcsOf(Edges(g.nodes, denseIndex, g.connections))
            <==> (denseIds[u], denseIds[v]) in LiveArcs(g.nodes.Keys, g.connections)
  {
    EdgesAreLive(g.nodes, denseIndex, g.connections);
    var edges := Edges(g.nodes, denseIndex, g.connections);
    if (u, v) in ArcsOf(edges) {
      var e :| e in edges && (e.src, e.dst) == (u, v);
      var c :| c in g.connections && IsLive(g.nodes.Keys, c) && e == EdgeOf(g.nodes, denseIndex, c);
    }
    if (denseIds[u], denseIds[v]) in LiveArcs(g.nodes.Keys, g.connections) {
      var c :| c in g.connections && IsLive(g.nodes.Keys, c) && (c.src, c.dst) == (denseIds[u], denseIds[v]);
      assert EdgeOf(g.nodes, denseIndex, c) in edges;
    }
  }

  /** Walks between existing nodes correspond, arc by arc. */
  lemma WalksAgree<S>(g: Graph<S>, denseIds: seq<NodeId>, denseIndex: map<NodeId, nat>, p: seq<nat>)
    requires IsDense(g.nodes.Keys, denseIds, denseIndex)
    requires forall i :: 0 <= i < |p| ==> p[i] < |denseIds|
    ensures IsWalk(ArcsOf(Edges(g.nodes, denseIndex, g.connections)), p)
            <==> IsWalk(LiveArcs(g.nodes.Keys, g.connections), ToIds(p, denseIds))
  {
    var ids := ToIds(p, denseIds);
    forall i, j | 0 <= i && j == i + 1 < |p|
      ensures (p[i], p[j]) in ArcsOf(Edges(g.nodes, denseIndex, g.connections))
              <==> (ids[i], ids[j]) in LiveArcs(g.nodes.Keys, g.connections)
    {
      ArcsAgree(g, denseIds, denseIndex, p[i], p[j]);
    }
  }

  lemma WalkToIds<S>(g: Graph<S>, denseIds: seq<NodeId>, denseIndex: map<NodeId, nat>, p: seq<nat>, u: nat, v: nat)
    returns (q: seq<NodeId>)
    requires IsDense(g.nodes.Keys, denseIds, denseIndex)
    requires WalkFromTo(ArcsOf(Edges(g.nodes, denseIndex, g.connections)), p, u, v) && v < |denseIds|
    ensures |q| == |p| && u < |denseIds|
    ensures WalkFromTo(LiveArcs(g.nodes.Keys, g.connections), q, denseIds[u], denseIds[v])
  {
    EdgesBelow(g.nodes, denseIndex, g.connections, |denseIds|);
    forall i | 0 <= i < |p| ensures p[i] < |denseIds| {
      if i + 1 < |p| {
        assert (p[i], p[i + 1]) in ArcsOf(Edges(g.nodes, denseIndex, g.connections));
      }
    }
    q := ToIds(p, denseIds);
    WalksAgree(g, denseIds, denseIndex, p);
  }

  lemma WalkToDense<S>(g: Graph<S>, denseIds: seq<NodeId>, denseIndex: map<NodeId, nat>, p: seq<NodeId>, a: NodeId,
      b: NodeId)
    returns (q: seq<nat>)
    requires IsDense(g.nodes.Keys, denseIds, denseIndex)
    requires WalkFromTo(LiveArcs(g.nodes.Keys, g.connections), p, a, b) && b in g.nodes
    ensures |q| == |p| && a in g.nodes
    ensures WalkFromTo(ArcsOf(Edges(g.nodes, denseIndex, g.connections)), q, denseIndex[a], denseIndex[b])
  {
    forall i | 0 <= i < |p| ensures p[i] in g.nodes {
      if i + 1 < |p| {
        assert (p[i], p[i + 1]) in LiveArcs(g.nodes.Keys, g.connections);
      }
    }
    q := seq(|p|, i requires 0 <= i < |p| => denseIndex[p[i]]);
    assert ToIds(q, denseIds) == p;
    WalksAgree(g, denseIds, denseIndex, q);
  }

  lemma TaintAgrees<S>(g: Graph<S>, denseIds: seq<NodeId>, denseIndex: map<NodeId, nat>, v: nat)
    requires IsDense(g.nodes.Keys, denseIds, denseIndex) && v < |denseIds|
    ensures var destination := DenseDestination(denseIndex);
            Tainted(ArcsOf(Edges(g.nodes, denseIndex, g.connections)), destination, v)
            <==> Tainted(LiveArcs(g.nodes.Keys, g.connections), DestinationOf(g.nodes), denseIds[v])
  {
    var dense, live := ArcsOf(Edges(g.nodes, denseIndex, g.connections)), LiveArcs(g.nodes.Keys, g.connections);
    var id := denseIds[v];
    forall c: nat | OnCycle(dense, c) && Reaches(dense, c, v)
      ensures exists d :: OnCycle(live, d) && Reaches(live, d, id)
    {
      var p :| WalkFromTo(dense, p, c, v);
      var p' := WalkToIds(g, denseIds, denseIndex, p, c, v);
      var q :| WalkFromTo(dense, q, c, c) && |q| >= 2;
      var q' := WalkToIds(g, denseIds, denseIndex, q, c, c);
      assert OnCycle(live, denseIds[c]) && Reaches(live, denseIds[c], id);
    }
    forall c: nat | OnCycle(live, c) && Reaches(live, c, id)
      ensures exists d :: OnCycle(dense, d) && Reaches(dense, d, v)
    {
      var p :| WalkFromTo(live, p, c, id);
      var p' := WalkToDense(g, denseIds, denseIndex, p, c, id);
      var q :| WalkFromTo(live, q, c, c) && |q| >= 2;
      var q' := WalkToDense(g, denseIds, denseIndex, q, c, c);
      assert OnCycle(dense, denseIndex[c]) && Reaches(dense, denseIndex[c], v);
    }
    if DESTINATION_NODE_ID in denseIndex {
      var w := denseIndex[DESTINATION_NODE_ID];
      if p :| WalkFromTo(dense, p, w, v) {
        var p' := WalkToIds(g, denseIds, denseIndex, p, w, v);
      }
      if p :| WalkFromTo(live, p, DESTINATION_NODE_ID, id) {
        var p' := WalkToDense(g, denseIds, denseIndex, p, DESTINATION_NODE_ID, id);
      }
    }
  }

  /** Renumbering a dense schedule gives a schedule of the graph. */
  lemma ScheduleOverIds<S>(g: Graph<S>, denseIds: seq<NodeId>, denseIndex: map<NodeId, nat>, order: seq<nat>,
      drained: nat)
    requires IsDense(g.nodes.Keys, denseIds, denseIndex)
    requires var destination := DenseDestination(denseIndex);
             IsSchedule(Edges(g.nodes, denseIndex, g.connections), |denseIds|, destination, order, drained)
    ensures SchedulesGraph(g, ToIds(order, denseIds), drained)
  {
    hide Tainted, LiveArcs, Edges, SourcesPrecede, NoDuplicates, IndexOrdered;
    IdsComplete(g.nodes.Keys, denseIds, denseIndex, order);
    PrefixDrains(g, denseIds, denseIndex, order, drained);
    PrefixSourcesFirst(g, denseIds, denseIndex, order, drained);
    hide DrainsUntainted, SourcesFirst;
  }

  lemma PrefixDrains<S>(g: Graph<S>, denseIds: seq<NodeId>, denseIndex: map<NodeId, nat>, order: seq<nat>, drained: nat)
    requires IsDense(g.nodes.Keys, denseIds, denseIndex)
    requires var destination := DenseDestination(denseIndex);
             IsSchedule(Edges(g.nodes, denseIndex, g.connections), |denseIds|, destination, order, drained)
    ensures DrainsUntainted(g, ToIds(order, denseIds)[..drained])
  {
    hide Tainted, LiveArcs, Edges, SourcesPrecede, NoDuplicates;
    forall id ensures id in ToIds(order, denseIds)[..drained] <==>
        id in g.nodes && id != DESTINATION_NODE_ID
        && !Tainted(LiveArcs(g.nodes.Keys, g.connections), DestinationOf(g.nodes), id)
    {
      DrainedAgrees(g, denseIds, denseIndex, order, drained, id);
    }
  }

  lemma PrefixSourcesFirst<S>(g: Graph<S>, denseIds: seq<NodeId>, denseIndex: map<NodeId, nat>, order: seq<nat>,
      drained: nat)
    requires IsDense(g.nodes.Keys, denseIds, denseIndex) && drained <= |order|
    requires forall j :: 0 <= j < |order| ==> order[j] < |denseIds|
    requires SourcesPrecede(Edges(g.nodes, denseIndex, g.connections), order[..drained])
    ensures SourcesFirst(g, ToIds(order, denseIds)[..drained])
  {
    hide LiveArcs, Edges, SourcesPrecede;
    var ids := ToIds(order, denseIds);
    forall c, k | c in g.connections && IsLive(g.nodes.Keys, c) && 0 <= k < drained && ids[..drained][k] == c.dst
      ensures c.src in ids[..drained][..k]
    {
      SourceAgrees(g, denseIds, denseIndex, order, drained, c, k);
      assert ids[..drained][..k] == ids[..k];
    }
  }

  lemma DrainedAgrees<S>(g: Graph<S>, denseIds: seq<NodeId>, denseIndex: map<NodeId, nat>, order: seq<nat>,
      drained: nat, id: NodeId)
    requires IsDense(g.nodes.Keys, denseIds, denseIndex)
    requires var destination := DenseDestination(denseIndex);
             IsSchedule(Edges(g.nodes, denseIndex, g.connections), |denseIds|, destination, order, drained)
    ensures id in ToIds(order, denseIds)[..drained] <==>
              id in g.nodes && id != DESTINATION_NODE_ID
              && !Tainted(LiveArcs(g.nodes.Keys, g.connections), DestinationOf(g.nodes), id)
  {
    IdsAgree(g.nodes.Keys, denseIds, denseIndex, order, drained, id);
    if id in g.nodes {
      var v := denseIndex[id];
      TaintAgrees(g, denseIds, denseIndex, v);
      assert id != DESTINATION_NODE_ID && DESTINATION_NODE_ID in g.nodes ==> v != denseIndex[DESTINATION_NODE_ID];
    }
  }

  lemma IdsComplete(nodeIds: set<NodeId>, denseIds: seq<NodeId>, denseIndex: map<NodeId, nat>, order: seq<nat>)
    requires IsDense(nodeIds, denseIds, denseIndex) && NoDuplicates(order)
    requires forall k :: 0 <= k < |order| ==> order[k] < |denseIds|
    requires forall v :: 0 <= v < |denseIds| ==> v in order
    ensures NoDuplicates(ToIds(order, denseIds))
    ensures forall id :: id in ToIds(order, denseIds) <==> id in nodeIds
  {
    var ids := ToIds(order, denseIds);
    assert forall k :: 0 <= k < |order| ==> denseIndex[ids[k]] == order[k];
    forall id ensures id in ids <==> id in nodeIds {
      IdsAgree(nodeIds, denseIds, denseIndex, order, |order|, id);
      assert order[..|order|] == order && ids[..|order|] == ids;
    }
  }

  /** An existing node is in a prefix of the renumbered order when its index is. */
  lemma IdsAgree(nodeIds: set<NodeId>, denseIds: seq<NodeId>, denseIndex: map<NodeId, nat>, order: seq<nat>, k: nat,
      id: NodeId)
    requires IsDense(nodeIds, denseIds, denseIndex) && k <= |order|
    requires forall j :: 0 <= j < |order| ==> order[j] < |denseIds|
    ensures id in ToIds(order, denseIds)[..k] <==> id in nodeIds && denseIndex[id] in order[..k]
  {
    var ids := ToIds(order, denseIds);
    if id in ids[..k] {
      var j :| 0 <= j < k && ids[j] == id;
      assert order[..k][j] == denseIndex[id];
    }
    if id in nodeIds && denseIndex[id] in order[..k] {
      var j :| 0 <= j < k && order[j] == denseIndex[id];
      assert ids[..k][j] == id;
    }
  }

  lemma SourceAgrees<S>(g: Graph<S>, denseIds: seq<NodeId>, denseIndex: map<NodeId, nat>, order: seq<nat>,
      drained: nat, c: Connection, k: nat)
    requires IsDense(g.nodes.Keys, denseIds, denseIndex) && k < drained <= |order|
    requires forall j :: 0 <= j < |order| ==> order[j] < |denseIds|
    requires SourcesPrecede(Edges(g.nodes, denseIndex, g.connections), order[..drained])
    requires c in g.connections && IsLive(g.nodes.Keys, c) && denseIds[order[k]] == c.dst
    ensures c.src in ToIds(order, denseIds)[..k]
  {
    EdgesAreLive(g.nodes, denseIndex, g.connections);
    var edges := Edges(g.nodes, denseIndex, g.connections);
    assert EdgeOf(g.nodes, denseIndex, c) in edges;
    var e :| 0 <= e < |edges| && edges[e] == EdgeOf(g.nodes, denseIndex, c);
    assert order[..drained][k] == denseIndex[c.dst] && order[..drained][..k] == order[..k];
    IdsAgree(g.nodes.Keys, denseIds, denseIndex, order, k, c.src);
  }

  /** A node can be left over without lying on a cycle: it is enough to be fed by one. Here
      node 1 feeds itself and node 2, which feeds the destination, and every schedule of the
      graph leaves node 2 over. */
  lemma LeftoverOffCycle<S>(destination: Node<S>, loop: Node<S>, fed: Node<S>, ids: seq<NodeId>, drained: nat)
    requires SchedulesGraph(LoopFeeding(destination, loop, fed), ids, drained)
    ensures 2 in ids && 2 !in ids[..drained]
    ensures !OnCycle(LiveArcs({0, 1, 2}, LoopFeeding(destination, loop, fed).connections), 2)
  {
    var g := LoopFeeding(destination, loop, fed);
    var arcs := LiveArcs(g.nodes.Keys, g.connections);
    assert g.nodes.Keys == {0, 1, 2};
    assert g.connections[0] in g.connections && g.connections[1] in g.connections;
    assert (1, 1) in arcs && (1, 2) in arcs;
    ArcPrecedes(arcs, 1, 1);
    ReachesSelf(arcs, 1);
    ExtendWalk(arcs, 1, 1, 2);
    assert Tainted(arcs, DestinationOf(g.nodes), 2);
    forall p | |p| >= 2 && p[0] == 2 && p[|p| - 1] == 2 ensures !IsWalk(arcs, p) {
      assert (p[0], p[1]) in arcs ==> p[1] == DESTINATION_NODE_ID;
      assert |p| > 2 && (p[0], p[1]) in arcs ==> (p[1], p[2]) !in arcs;
    }
  }

  /** Exactly when the nodes left over do sit on cycles: no live connection leads from a cycle
      or from the destination to a node, other than the destination, that is on no cycle. */
  lemma LeftoversOnCycles<S>(g: Graph<S>, ids: seq<NodeId>, drained: nat)
    requires SchedulesGraph(g, ids, drained)
    ensures var arcs := LiveArcs(g.nodes.Keys, g.connections);
            (forall k :: drained <= k < |ids| && ids[k] != DESTINATION_NODE_ID ==> OnCycle(arcs, ids[k]))
            <==> (forall u, v :: (u, v) in arcs && Feeds(arcs, u) && v != DESTINATION_NODE_ID ==> OnCycle(arcs, v))
  {
    var arcs := LiveArcs(g.nodes.Keys, g.connections);
    if forall u, v :: (u, v) in arcs && Feeds(arcs, u) && v != DESTINATION_NODE_ID ==> OnCycle(arcs, v) {
      forall k | drained <= k < |ids| && ids[k] != DESTINATION_NODE_ID ensures OnCycle(arcs, ids[k]) {
        LeftoverIsTainted(g, ids, drained, k);
        var c, p := TaintWalk(arcs, DestinationOf(g.nodes), ids[k]);
        FeedsAlong(arcs, p);
      }
    }
    forall u, v | (u, v) in arcs && Feeds(arcs, u) && v != DESTINATION_NODE_ID
      ensures v in ids && v !in ids[..drained]
    {
      ReachesSelf(arcs, u);
      ExtendWalk(arcs, u, u, v);
      assert u in g.nodes && v in g.nodes;
      assert Tainted(arcs, DestinationOf(g.nodes), v);
    }
    if forall k :: drained <= k < |ids| && ids[k] != DESTINATION_NODE_ID ==> OnCycle(arcs, ids[k]) {
      forall u, v | (u, v) in arcs && Feeds(arcs, u) && v != DESTINATION_NODE_ID ensures OnCycle(arcs, v) {
        var k :| 0 <= k < |ids| && ids[k] == v;
        assert k < drained ==> ids[..drained][k] == v;
      }
    }
  }

  /** A vertex whose successors never drain. */
  ghost predicate Feeds(arcs: Arcs, u: nat) { u == DESTINATION_NODE_ID || OnCycle(arcs, u) }

  lemma LeftoverIsTainted<S>(g: Graph<S>, ids: seq<NodeId>, drained: nat, k: nat)
    requires SchedulesGraph(g, ids, drained) && drained <= k < |ids| && ids[k] != DESTINATION_NODE_ID
    ensures Tainted(LiveArcs(g.nodes.Keys, g.connections), DestinationOf(g.nodes), ids[k])
  {
    assert ids[k] in ids && ids[k] !in ids[..drained];
  }

  lemma TaintWalk(arcs: Arcs, destination: Option<nat>, v: nat) returns (c: nat, p: seq<nat>)
    requires Tainted(arcs, destination, v) && (destination.Some? ==> destination.value == DESTINATION_NODE_ID)
    ensures Feeds(arcs, c) && WalkFromTo(arcs, p, c, v)
  {
    if d :| OnCycle(arcs, d) && Reaches(arcs, d, v) {
      c := d;
    } else {
      c := destination.value;
    }
    p :| WalkFromTo(arcs, p, c, v);
  }

  lemma {:induction false} FeedsAlong(arcs: Arcs, p: seq<nat>)
    requires IsWalk(arcs, p) && Feeds(arcs, p[0])
    requires forall u, v :: (u, v) in arcs && Feeds(arcs, u) && v != DESTINATION_NODE_ID ==> OnCycle(arcs, v)
    ensures Feeds(arcs, p[|p| - 1])
  {
    if |p| > 1 {
      var init := p[..|p| - 1];
      FeedsAlong(arcs, init);
      assert (p[|p| - 2], p[|p| - 1]) in arcs && init[|init| - 1] == p[|p| - 2];
    }
  }

  function LoopFeeding<S>(destination: Node<S>, loop: Node<S>, fed: Node<S>): Graph<S> {
    Graph(map[DESTINATION_NODE_ID := destination, 1 := loop, 2 := fed],
          [Connection(1, 0, 1, 0), Connection(1, 0, 2, 0), Connection(2, 0, DESTINATION_NODE_ID, 0)])
  }
}
