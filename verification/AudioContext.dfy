/** The audio context: the mutable graph, its cached order, the collector and `process`. */
module AudioContexts {
  import opened Wrappers
  import opened Digraph
  import opened AudioGraph
  import opened Csr
  import opened Scheduler
  import opened Renderer
  import opened Collector
  import opened Feedback
  import opened Signal

  datatype ContextState = Running | Suspended | Closed

  const RENDER_QUANTUM_FRAMES: nat := 128
  const DEFAULT_NODE_CAPACITY: nat := 16

  const EMPTY_CSR := Adjacency([], map[], [0], [], [0], [], [], [], [])

  function AtLeastOne(n: nat): (r: Positive)
    ensures r >= n && (n >= 1 ==> r <= n) && r <= n + 1
  {
    if n == 0 then 1 else n
  }

  ghost function Where<S>(nodes: map<NodeId, Node<S>>, p: S -> bool): set<NodeId> {
    set id | id in nodes && p(nodes[id].state)
  }

  /** What a collection finds in the graph. */
  ghost function SnapshotOf<S, A>(dsp: Dsp<S, A>, nodes: map<NodeId, Node<S>>, released: set<NodeId>,
      connections: seq<Connection>): Snapshot {
    Snapshot(nodes.Keys, Where(nodes, dsp.finished), Where(nodes, dsp.producing), released, connections)
  }

  /** What a collection keeps, told by the states of the nodes: the destination always, a finished
      node never, an unfinished one that sounds, is not released or is fed by a kept node, and a
      released silent one only if a kept node feeds it. */
  ghost predicate KeepsByState<S, A>(dsp: Dsp<S, A>, nodes: map<NodeId, Node<S>>, released: set<NodeId>,
      connections: seq<Connection>, kept: set<NodeId>) {
    && kept <= nodes.Keys
    && forall id :: id in nodes ==> KeptByState(dsp, nodes[id].state, id, id in released, connections, kept)
  }

  ghost predicate KeptByState<S, A>(dsp: Dsp<S, A>, state: S, id: NodeId, isReleased: bool,
      connections: seq<Connection>,
      kept: set<NodeId>) {
    && (id == DESTINATION_NODE_ID ==> id in kept)
    && (id != DESTINATION_NODE_ID && dsp.finished(state) ==> id !in kept)
    && (!dsp.finished(state) && (dsp.producing(state) || !isReleased) ==> id in kept)
    && (!dsp.finished(state) && (exists c :: c in connections && c.dst == id && c.src in kept) ==> id in kept)
    && (id in kept && id != DESTINATION_NODE_ID && isReleased && !dsp.producing(state) ==>
          exists c :: c in connections && c.dst == id && c.src in kept)
  }

  lemma SurvivorsByState<S, A>(dsp: Dsp<S, A>, nodes: map<NodeId, Node<S>>, released: set<NodeId>,
      connections: seq<Connection>)
    ensures KeepsByState(dsp, nodes, released, connections, Survivors(SnapshotOf(dsp, nodes, released, connections)))
  {
    hide Survivors;
    var s := SnapshotOf(dsp, nodes, released, connections);
    var kept := Survivors(s);
    assert kept <= nodes.Keys by { SurvivorsExist(s); }
    forall id | id in nodes ensures KeptByState(dsp, nodes[id].state, id, id in released, connections, kept) {
      if id == DESTINATION_NODE_ID || dsp.finished(nodes[id].state) {
        FinishedNeverSurvives(s, id);
      } else {
        if dsp.producing(nodes[id].state) || id !in released {
          RootSurvives(s, id);
        }
        if c :| c in connections && c.dst == id && c.src in kept {
          SurvivorsExist(s);
          assert IsLive(Unfinished(s), c);
          FedSurvives(s, c.src, id);
        }
        if id in kept && id in released && !dsp.producing(nodes[id].state) {
          var u := SurvivorIsFed(s, id);
        }
      }
    }
  }

  lemma SnapshotShrinks<S, A>(dsp: Dsp<S, A>, nodes: map<NodeId, Node<S>>, released: set<NodeId>,
      connections: seq<Connection>, s: Snapshot, v: NodeId)
    requires v in nodes && nodes.Keys <= s.ids
    requires SnapshotOf(dsp, nodes, released, connections) == Remaining(s, nodes.Keys)
    ensures SnapshotOf(dsp, nodes - {v}, released - {v}, Without(connections, {v})) == Remaining(s, nodes.Keys - {v})
  {
    RemainingNext(s, nodes.Keys, v);
    var left := nodes.Keys;
    assert (nodes - {v}).Keys == left - {v};
    assert Where(nodes - {v}, dsp.finished) == Where(nodes, dsp.finished) - {v} == s.finished * (left - {v});
    assert Where(nodes - {v}, dsp.producing) == Where(nodes, dsp.producing) - {v} == s.producing * (left - {v});
    assert released - {v} == s.released * (left - {v});
  }

  /** A cut that took nothing changed nothing. */
  lemma NothingCut<S, A>(dsp: Dsp<S, A>, nodes: map<NodeId, Node<S>>, released: set<NodeId>,
      connections: seq<Connection>, s: Snapshot)
    requires nodes.Keys == s.ids && SnapshotOf(dsp, nodes, released, connections) == Remaining(s, nodes.Keys)
    ensures connections == s.connections
  {
    WithoutNone(s.connections);
    assert s.ids - nodes.Keys == {};
  }

  /** `csr` describes `g`, and `order`, read through it, schedules `g` with the nodes left over
      in index order. */
  ghost predicate IsCached<S>(csr: Adjacency, order: seq<nat>, drained: nat, g: Graph<S>) {
    && Describes(csr, g)
    && (forall k :: 0 <= k < |order| ==> order[k] < |csr.denseIds|)
    && SchedulesGraph(g, ToIds(order, csr.denseIds), drained)
    && IndexOrdered(order, drained, if DESTINATION_NODE_ID in g.nodes then |order| - 1 else |order|)
  }

  lemma CachedShape<S>(csr: Adjacency, order: seq<nat>, drained: nat, g: Graph<S>)
    ensures IsCached(csr, order, drained, Graph(Shape(g.nodes), g.connections)) <==> IsCached(csr, order, drained, g)
  {
    DescribesShape(csr, g);
    if forall k :: 0 <= k < |order| ==> order[k] < |csr.denseIds| {
      SchedulesShape(g, ToIds(order, csr.denseIds), drained);
    }
  }

  lemma SchedulesShape<S>(g: Graph<S>, ids: seq<NodeId>, drained: nat)
    ensures SchedulesGraph(Graph(Shape(g.nodes), g.connections), ids, drained) <==> SchedulesGraph(g, ids, drained)
  {
    assert DestinationOf(Shape(g.nodes)) == DestinationOf(g.nodes);
    assert LiveArcs(Shape(g.nodes).Keys, g.connections) == LiveArcs(g.nodes.Keys, g.connections);
  }

  /** Rebuild the adjacency and the order of a graph. */
  method BuildOrder<S>(g: Graph<S>) returns (csr: Adjacency, order: seq<nat>, drained: nat)
    ensures IsCached(csr, order, drained, g)
  {
    hide SchedulesGraph, Tainted, SourcesPrecede;
    var inDegree;
    csr, inDegree := BuildAdjacency(g);
    var destination := DenseDestination(csr.denseIndex);
    ghost var edges := Edges(g.nodes, csr.denseIndex, g.connections);
    order, drained := ProcessingOrder(csr.outputStart, csr.outputEdges, destination, inDegree, |g.nodes|, edges);
    ScheduleOverIds(g, csr.denseIds, csr.denseIndex, order, drained);
  }

  lemma EmptySchedule<S>(connections: seq<Connection>)
    ensures SchedulesGraph<S>(Graph(map[], connections), [], 0)
  {
  }

  lemma CachedIds<S>(csr: Adjacency, order: seq<nat>, drained: nat, g: Graph<S>) returns (ids: seq<NodeId>, placed: nat)
    requires IsCached(csr, order, drained, Graph(Shape(g.nodes), g.connections))
    ensures |ids| == |order| && Describes(csr, g) && SchedulesGraph(g, ids, placed)
    ensures forall k :: 0 <= k < |ids| ==> && order[k] < |csr.denseIds| && ids[k] == csr.denseIds[order[k]]
                                           && ids[k] in g.nodes
  {
    CachedShape(csr, order, drained, g);
    ids, placed := ToIds(order, csr.denseIds), drained;
  }

  /** `rendered` is the run of some schedule `ids` of `g` from `r`, and every node that no
      cycle and no destination feeds holds its dataflow meaning in it. */
  ghost predicate IsRendering<S, A>(dsp: Dsp<S, A>, g: Graph<S>, q: Quantum, r: Rendering<S, A>, ids: seq<NodeId>,
      placed: nat, rendered: Rendering<S, A>) {
    && SchedulesGraph(g, ids, placed) && Fits(g, r) && Fits(g, rendered)
    && (forall k :: 0 <= k < |ids| ==> ids[k] in g.nodes)
    && rendered == RenderAll(dsp, g, q, r, ids)
    && (forall id :: id in g.nodes && Clean(g, id) ==> HoldsMeaning(dsp, g, q, rendered, id))
    && Runs(g, r, ids) && AllStepped(dsp, g, q, r, ids, rendered)
  }

  lemma FullRender<S, A>(dsp: Dsp<S, A>, g: Graph<S>, q: Quantum, r: Rendering<S, A>, ids: seq<NodeId>, placed: nat)
    requires SchedulesGraph(g, ids, placed) && Fits(g, r) && r.nodes == g.nodes
    requires forall k :: 0 <= k < |ids| ==> ids[k] in g.nodes
    ensures IsRendering(dsp, g, q, r, ids, placed, RenderAll(dsp, g, q, r, ids))
  {
    hide HoldsMeaning, Clean, AllStepped, RenderAll;
    RenderMeans(dsp, g, q, r, ids, placed, |ids|);
    assert ids[..|ids|] == ids;
    RunSteps(dsp, g, q, r, ids);
  }

  /** The whole-graph theorem: without cycles and without an edge out of the destination,
      one quantum gives every node its dataflow meaning, whatever schedule was used. */
  lemma AcyclicRendering<S, A>(dsp: Dsp<S, A>, g: Graph<S>, q: Quantum, r: Rendering<S, A>, ids: seq<NodeId>,
      placed: nat, rendered: Rendering<S, A>)
    requires IsRendering(dsp, g, q, r, ids, placed, rendered)
    requires forall c :: !OnCycle(LiveArcs(g.nodes.Keys, g.connections), c)
    requires forall c :: c in g.connections && IsLive(g.nodes.Keys, c) ==> c.src != DESTINATION_NODE_ID
    ensures forall id :: id in g.nodes ==> Grounded(g, id) && HoldsMeaning(dsp, g, q, rendered, id)
    ensures placed == |ids| - Count(DestinationOf(g.nodes))
  {
    forall id | id in g.nodes ensures Grounded(g, id) && HoldsMeaning(dsp, g, q, rendered, id) {
      AcyclicIsClean(g, id);
    }
    AcyclicDrainsAll(g, ids, placed);
  }

  lemma AcyclicDrainsAll<S>(g: Graph<S>, ids: seq<NodeId>, placed: nat)
    requires SchedulesGraph(g, ids, placed)
    requires forall c :: !OnCycle(LiveArcs(g.nodes.Keys, g.connections), c)
    requires forall c :: c in g.connections && IsLive(g.nodes.Keys, c) ==> c.src != DESTINATION_NODE_ID
    ensures placed == |ids| - Count(DestinationOf(g.nodes))
  {
    var arcs := LiveArcs(g.nodes.Keys, g.connections);
    forall id | id in g.nodes && id != DESTINATION_NODE_ID ensures id in ids[..placed] {
      AcyclicIsClean(g, id);
      assert !Tainted(arcs, DestinationOf(g.nodes), id) by {
        forall p | |p| == 1 ensures !WalkFromTo(arcs, p, DESTINATION_NODE_ID, id) {
        }
      }
    }
    if placed < |ids| {
      assert ids[placed] in ids;
      assert ids[placed] == DESTINATION_NODE_ID;
    } else if DESTINATION_NODE_ID in g.nodes {
      assert false;
    }
  }

  /** `output` is `before` with `buffer` added to it, up to the shorter of the two. */
  ghost predicate IsAdded<S, A>(dsp: Dsp<S, A>, output: seq<A>, before: seq<A>, buffer: seq<A>) {
    && |output| == |before|
    && forall i :: 0 <= i < |before| ==>
         output[i] == if i < |buffer| then dsp.add(before[i], buffer[i]) else before[i]
  }

  method AddInto<S, A>(dsp: Dsp<S, A>, output: array<A>, buffer: seq<A>)
    modifies output
    ensures IsAdded(dsp, output[..], old(output[..]), buffer)
  {
    var len := Min(|buffer|, output.Length);
    for i := 0 to len
      invariant forall j :: 0 <= j < output.Length ==>
                  output[j] == if j < i then dsp.add(old(output[j]), buffer[j]) else old(output[j])
    {
      output[i] := dsp.add(output[i], buffer[i]);
    }
  }

  class AudioContext<S(!new), A(!new)> {
    const dsp: Dsp<S, A>
    const channels: nat
    var state: ContextState
    var nodes: map<NodeId, Node<S>>
    var released: set<NodeId>
    var connections: seq<Connection>
    var processingOrder: seq<nat>
    var graphDirty: bool
    var csr: Adjacency
    var nodeBuffers: map<NodeId, seq<A>>
    var bufferPool: seq<seq<A>>
    var collected: seq<NodeId>
    var framesProcessed: nat
    ghost var drained: nat
    ghost var cachedFor: Graph<()>  // the graph of the last rebuild, node states erased

    ghost function TheGraph(): Graph<S>
      reads `nodes, `connections
    {
      Graph(nodes, connections)
    }

    ghost function TheSnapshot(): Snapshot
      reads `nodes, `released, `connections
    {
      SnapshotOf(dsp, nodes, released, connections)
    }

    ghost function TheShape(): Graph<()>
      reads `nodes, `connections
    {
      Graph(Shape(nodes), connections)
    }

    /** The cached order and adjacency belong to the graph of the last rebuild. */
    ghost predicate Cached()
      reads `csr, `processingOrder, `drained, `cachedFor
    {
      IsCached(csr, processingOrder, drained, cachedFor)
    }

    /** The invariant of every public operation. */
    ghost predicate Valid()
      reads this
    {
      && nodeBuffers.Keys == nodes.Keys && released <= nodes.Keys
      && NoDuplicates(connections) && |bufferPool| <= DEFAULT_NODE_CAPACITY
      && (!graphDirty ==> (Cached() && cachedFor == TheShape()) || (nodes == map[] && processingOrder == []))
    }

    lemma PoolIsBounded()
      requires Valid()
      ensures |bufferPool| <= 16
    {
    }

    constructor (dsp: Dsp<S, A>, channels: nat, destination: Node<S>)
      ensures Valid() && this.dsp == dsp && this.channels == channels
      ensures state == Running && connections == [] && released == {} && framesProcessed == 0
      ensures nodes == map[DESTINATION_NODE_ID := destination]
    {
      this.dsp, this.channels := dsp, channels;
      state, nodes, released, connections := Running, map[], {}, [];
      processingOrder, graphDirty, csr := [], true, EMPTY_CSR;
      drained, cachedFor := 0, Graph(map[], []);
      nodeBuffers, bufferPool, collected, framesProcessed := map[], [], [], 0;
      new;
      AddNode(DESTINATION_NODE_ID, destination);
    }

    method Suspend()
      requires Valid()
      modifies `state
      ensures Valid() && state == Suspended
    {
      hide IsCached;
      state := Suspended;
    }

    method Resume()
      requires Valid()
      modifies `state
      ensures Valid() && state == if old(state) == Suspended then Running else old(state)
    {
      hide IsCached;
      if state == Suspended {
        state := Running;
      }
    }

    method Close()
      requires Valid()
      modifies this
      ensures Valid() && state == Closed && nodes == map[] && connections == [] && released == {}
      ensures graphDirty == old(graphDirty) && framesProcessed == old(framesProcessed) && bufferPool == old(bufferPool)
    {
      hide IsCached;
      state, nodes, released, connections := Closed, map[], {}, [];
      processingOrder, nodeBuffers, collected := [], map[], [];
    }

    /** Insert a node and give it a silent buffer, taken from the pool if there is one. */
    method AddNode(id: NodeId, node: Node<S>)
      requires Valid()
      modifies `nodes, `nodeBuffers, `bufferPool, `graphDirty
      ensures Valid() && graphDirty
      ensures nodes == old(nodes)[id := node]
      ensures nodeBuffers == old(nodeBuffers)[id := Silence(dsp, RENDER_QUANTUM_FRAMES * AtLeastOne(channels))]
      ensures |nodeBuffers[id]| == 128 * AtLeastOne(channels)
      ensures forall i :: 0 <= i < |nodeBuffers[id]| ==> nodeBuffers[id][i] == dsp.zero
      ensures bufferPool == if old(bufferPool) == [] then [] else old(bufferPool)[..|old(bufferPool)| - 1]
    {
      hide IsCached;
      var samples := RENDER_QUANTUM_FRAMES * AtLeastOne(channels);
      if bufferPool != [] {
        bufferPool := bufferPool[..|bufferPool| - 1];
      }
      nodes := nodes[id := node];
      nodeBuffers := nodeBuffers[id := Silence(dsp, samples)];
      graphDirty := true;
    }

    /** Every parameter setter: rewrite the state of one node, if it exists and has the type
        the setter is for; `f` refuses the states of other types. */
    method UpdateNode(id: NodeId, f: S -> Option<S>) returns (done: bool)
      requires Valid()
      modifies `nodes
      ensures Valid() && done == (id in old(nodes) && f(old(nodes)[id].state).Some?)
      ensures nodes == if done then old(nodes)[id := old(nodes)[id].(state := f(old(nodes)[id].state).value)]
              else old(nodes)
    {
      hide IsCached;
      if id !in nodes {
        return false;
      }
      var updated := f(nodes[id].state);
      done := updated.Some?;
      if done {
        nodes := nodes[id := nodes[id].(state := updated.value)];
        assert Shape(nodes) == Shape(old(nodes));
      }
    }

    method ConnectPorts(src: NodeId, srcOutput: nat, dst: NodeId, dstInput: nat)
      requires Valid()
      modifies `connections, `graphDirty
      ensures Valid()
      ensures var c := Connection(src, srcOutput, dst, dstInput);
              if c in old(connections) then connections == old(connections) && graphDirty == old(graphDirty)
              else connections == old(connections) + [c] && graphDirty
    {
      hide IsCached;
      var c := Connection(src, srcOutput, dst, dstInput);
      if c !in connections {
        connections := connections + [c];
        graphDirty := true;
      }
    }

    method Disconnect(id: NodeId, dst: Option<NodeId>)
      requires Valid()
      modifies `connections, `graphDirty
      ensures Valid() && connections == Disconnected(old(connections), id, dst)
      ensures graphDirty == (old(graphDirty) || connections != old(connections))
    {
      hide IsCached;
      var before := |connections|;
      DisconnectedKeepsDistinct(connections, id, dst);
      connections := Disconnected(connections, id, dst);
      if |connections| != before {
        graphDirty := true;
      }
    }

    /** The node has finished, or it is released, silent and fed by no existing node. */
    ghost predicate IsSpent(id: NodeId)
      reads `nodes, `released, `connections
    {
      && id in nodes && id != DESTINATION_NODE_ID
      && (dsp.finished(nodes[id].state)
          || (id in released && !dsp.producing(nodes[id].state)
              && forall c :: c in connections && c.dst == id ==> c.src !in nodes))
    }

    /** Any collectible node, found by scanning the map in its arbitrary order. */
    method FindVictim() returns (victim: Option<NodeId>)
      ensures victim.Some? ==> Collectible(TheSnapshot(), nodes.Keys, victim.value)
      ensures victim.Some? ==> IsSpent(victim.value)
      ensures victim.None? ==> forall id :: id in nodes ==> !IsSpent(id)
      ensures victim.None? ==> forall v :: v in nodes.Keys ==> !Collectible(TheSnapshot(), nodes.Keys, v)
    {
      var left := nodes.Keys;
      while left != {}
        invariant left <= nodes.Keys
        invariant forall v :: v in nodes.Keys - left ==> !Collectible(TheSnapshot(), nodes.Keys, v) && !IsSpent(v)
      {
        var id :| id in left;
        left := left - {id};
        if id != DESTINATION_NODE_ID
           && (dsp.finished(nodes[id].state)
               || (id in released && !dsp.producing(nodes[id].state) && !HasLiveInput(connections, nodes.Keys, id)))
        {
          return Some(id);
        }
      }
      return None;
    }

    /** Drop one node, give its render buffer back to the pool if there is room, and cut
        every connection that touches it. */
    method Collect(id: NodeId)
      requires id in nodes && nodeBuffers.Keys == nodes.Keys && |bufferPool| <= DEFAULT_NODE_CAPACITY
      modifies `nodes, `nodeBuffers, `bufferPool, `released, `connections, `collected
      ensures nodes == old(nodes) - {id} && nodeBuffers == old(nodeBuffers) - {id}
      ensures released == old(released) - {id} && connections == Without(old(connections), {id})
      ensures collected == old(collected) + [id] && |bufferPool| <= DEFAULT_NODE_CAPACITY
      ensures bufferPool == if |old(bufferPool)| < DEFAULT_NODE_CAPACITY then old(bufferPool) + [old(nodeBuffers)[id]]
                            else old(bufferPool)
    {
      nodes := nodes - {id};
      if |bufferPool| < DEFAULT_NODE_CAPACITY {
        bufferPool := bufferPool + [nodeBuffers[id]];
      }
      nodeBuffers := nodeBuffers - {id};
      released := released - {id};
      connections := Without(connections, {id});
      collected := collected + [id];
    }

    /** The graph is the initial one cut down to `left`, and the rest has been collected. */
    ghost predicate CutDown(s: Snapshot, nodes0: map<NodeId, Node<S>>, buffers0: map<NodeId, seq<A>>)
      reads `nodes, `nodeBuffers, `released, `connections, `collected, `bufferPool
    {
      && nodes.Keys <= s.ids == nodes0.Keys == buffers0.Keys
      && nodes == nodes0 - (s.ids - nodes.Keys) && nodeBuffers == buffers0 - (s.ids - nodes.Keys)
      && TheSnapshot() == Remaining(s, nodes.Keys)
      && NoDuplicates(collected) && (forall id :: id in collected <==> id in s.ids - nodes.Keys)
      && |bufferPool| <= DEFAULT_NODE_CAPACITY
    }

    /** One pass: collect a victim, which is never one of the nodes to keep. */
    method CollectVictim(victim: NodeId, ghost s: Snapshot, ghost kept: set<NodeId>,
                         ghost nodes0: map<NodeId, Node<S>>, ghost buffers0: map<NodeId, seq<A>>)
      requires CutDown(s, nodes0, buffers0) && IsKernel(s, kept) && kept <= nodes.Keys
      requires Collectible(TheSnapshot(), nodes.Keys, victim)
      modifies `nodes, `nodeBuffers, `bufferPool, `released, `connections, `collected
      ensures CutDown(s, nodes0, buffers0) && kept <= nodes.Keys
      ensures nodes.Keys == old(nodes.Keys) - {victim} && victim in old(nodes)
    {
      CollectibleAgrees(s, nodes.Keys, victim);
      SnapshotShrinks(dsp, nodes, released, connections, s, victim);
      Collect(victim);
      assert nodes.Keys == old(nodes.Keys) - {victim};
    }

    /** Passes until nothing is collectible. */
    method CollectAll(ghost s: Snapshot, ghost kept: set<NodeId>,
                      ghost nodes0: map<NodeId, Node<S>>, ghost buffers0: map<NodeId, seq<A>>)
      requires CutDown(s, nodes0, buffers0) && IsKernel(s, kept) && kept <= nodes.Keys
      modifies `nodes, `nodeBuffers, `bufferPool, `released, `connections, `collected
      ensures CutDown(s, nodes0, buffers0) && nodes.Keys == kept
    {
      var victim := FindVictim();
      while victim.Some?
        invariant CutDown(s, nodes0, buffers0) && kept <= nodes.Keys
        invariant victim.Some? ==> Collectible(TheSnapshot(), nodes.Keys, victim.value)
        invariant victim.None? ==> forall v :: v in nodes.Keys ==> !Collectible(TheSnapshot(), nodes.Keys, v)
        decreases nodes.Keys
      {
        CollectVictim(victim.value, s, kept, nodes0, buffers0);
        victim := FindVictim();
      }
      forall v | v in nodes.Keys ensures !Collectible(s, nodes.Keys, v) {
        CollectibleAgrees(s, nodes.Keys, v);
      }
      assert Quiescent(s, nodes.Keys);
    }

    lemma NothingCutYet()
      requires nodeBuffers.Keys == nodes.Keys && released <= nodes.Keys && |bufferPool| <= DEFAULT_NODE_CAPACITY
               && collected == []
      ensures CutDown(TheSnapshot(), nodes, nodeBuffers)
    {
      RemainingAll(TheSnapshot());
    }

    lemma CutKeepsInvariant(s: Snapshot, nodes0: map<NodeId, Node<S>>, buffers0: map<NodeId, seq<A>>)
      requires CutDown(s, nodes0, buffers0) && NoDuplicates(s.connections)
      ensures nodeBuffers.Keys == nodes.Keys && released <= nodes.Keys && NoDuplicates(connections)
      ensures |bufferPool| <= DEFAULT_NODE_CAPACITY
      ensures collected == [] ==> nodes == nodes0 && connections == s.connections
    {
      WithoutKeepsDistinct(s.connections, s.ids - nodes.Keys);
      if collected == [] {
        assert s.ids - nodes.Keys == {};
        NothingCut(dsp, nodes, released, connections, s);
      }
    }

    method PruneTo(ghost kept: set<NodeId>)
      requires Valid() && IsKernel(TheSnapshot(), kept) && kept <= nodes.Keys
      modifies `nodes, `nodeBuffers, `bufferPool, `released, `connections, `collected, `graphDirty
      ensures Valid()
      ensures CutDown(old(TheSnapshot()), old(nodes), old(nodeBuffers)) && nodes.Keys == kept
      ensures graphDirty == (old(graphDirty) || collected != [])
    {
      hide IsCached, IsKernel, Collectible, CutDown, NoDuplicates;
      ghost var s := TheSnapshot();
      collected := [];
      NothingCutYet();
      CollectAll(s, kept, nodes, nodeBuffers);
      CutKeepsInvariant(s, old(nodes), old(nodeBuffers));
      if collected != [] {
        graphDirty := true;
      }
    }

    /** Collect until nothing is collectible. Whatever order the passes pick their victims in,
        exactly the survivors remain. */
    method Prune()
      requires Valid()
      modifies `nodes, `nodeBuffers, `bufferPool, `released, `connections, `collected, `graphDirty
      ensures Valid()
      ensures CutDown(old(TheSnapshot()), old(nodes), old(nodeBuffers)) && nodes.Keys == Survivors(old(TheSnapshot()))
      ensures KeepsByState(dsp, old(nodes), old(released), old(connections), nodes.Keys)
      ensures graphDirty == (old(graphDirty) || collected != [])
    {
      SurvivorsByState(dsp, nodes, released, connections);
      SurvivorsAreKernel(TheSnapshot());
      PruneTo(Survivors(TheSnapshot()));
    }

    /** A release request: the node loses its claim to exist, and whatever that frees goes. The
        destination and unknown ids are ignored. */
    method ReleaseNode(id: NodeId)
      requires Valid()
      modifies `nodes, `nodeBuffers, `bufferPool, `released, `connections, `collected, `graphDirty
      ensures Valid()
      ensures id == DESTINATION_NODE_ID || id !in old(nodes) ==>
                collected == [] && unchanged(`nodes, `nodeBuffers, `bufferPool, `released, `connections, `graphDirty)
      ensures id != DESTINATION_NODE_ID && id in old(nodes) ==>
                var s := SnapshotOf(dsp, old(nodes), old(released) + {id}, old(connections));
                && CutDown(s, old(nodes), old(nodeBuffers)) && nodes.Keys == Survivors(s)
                && KeepsByState(dsp, old(nodes), old(released) + {id}, old(connections), nodes.Keys)
    {
      hide IsCached, Survivors, KeepsByState;
      if id == DESTINATION_NODE_ID || id !in nodes {
        collected := [];
        return;
      }
      released := released + {id};
      Prune();
    }

    /** Collect at once when a given node has already finished; otherwise do nothing. */
    method RemoveFinishedNode(id: NodeId)
      requires Valid()
      modifies `nodes, `nodeBuffers, `bufferPool, `released, `connections, `collected, `graphDirty
      ensures Valid()
      ensures if id in old(nodes) && dsp.finished(old(nodes)[id].state) then
                CutDown(old(TheSnapshot()), old(nodes), old(nodeBuffers)) && nodes.Keys == Survivors(old(TheSnapshot()))
              else
                collected == [] && unchanged(`nodes, `nodeBuffers, `bufferPool, `released, `connections, `graphDirty)
    {
      hide IsCached, Survivors;
      if id in nodes && dsp.finished(nodes[id].state) {
        Prune();
      } else {
        collected := [];
      }
    }

    /** Rebuild the adjacency and the order from the current graph. */
    method RebuildProcessingOrder()
      modifies `csr, `processingOrder, `drained, `cachedFor, `graphDirty
      ensures Cached() && cachedFor == TheShape() && !graphDirty
    {
      hide IsCached;
      var adjacency, order, placed := BuildOrder(Graph(nodes, connections));
      CachedShape(adjacency, order, placed, TheGraph());
      csr, processingOrder, graphDirty := adjacency, order, false;
      drained, cachedFor := placed, TheShape();
    }

    ghost function TheQuantum(length: nat): Quantum
      reads `framesProcessed
    {
      Quantum(length, AtLeastOne(channels), framesProcessed)
    }

    /** Run every node once and leave the results in the node states and buffers. */
    method Render(length: nat, ghost ids: seq<NodeId>)
      requires nodeBuffers.Keys == nodes.Keys && |ids| == |processingOrder|
      requires processingOrder != [] ==> Describes(csr, TheGraph())
      requires forall k :: 0 <= k < |ids| ==>
                 processingOrder[k] < |csr.denseIds| && ids[k] == csr.denseIds[processingOrder[k]] && ids[k] in nodes
      modifies `nodes, `nodeBuffers
      ensures Rendering(nodes, nodeBuffers)
              == RenderAll(dsp, old(TheGraph()), old(TheQuantum(length)), Rendering(old(nodes), old(nodeBuffers)), ids)
      ensures nodes.Keys == nodeBuffers.Keys == old(nodes).Keys && Shape(nodes) == Shape(old(nodes))
    {
      hide Describes, RenderAll;
      ghost var g, q := TheGraph(), TheQuantum(length);
      RenderKeepsShape(dsp, g, q, Rendering(nodes, nodeBuffers), ids);
      var nodes', buffers' := RenderOrder(dsp, Quantum(length, AtLeastOne(channels), framesProcessed), csr,
          processingOrder, nodes, nodeBuffers, g, ids);
      nodes, nodeBuffers := nodes', buffers';
    }

    /** Bring the cached order up to date with the graph. */
    method Prepare() returns (ghost ids: seq<NodeId>, ghost placed: nat)
      requires Valid()
      modifies `csr, `processingOrder, `drained, `cachedFor, `graphDirty
      ensures Valid() && !graphDirty && SchedulesGraph(TheGraph(), ids, placed)
      ensures |ids| == |processingOrder| && (processingOrder != [] ==> Describes(csr, TheGraph()))
      ensures forall k :: 0 <= k < |ids| ==>
                processingOrder[k] < |csr.denseIds| && ids[k] == csr.denseIds[processingOrder[k]] && ids[k] in nodes
    {
      hide IsCached, SchedulesGraph, Describes;
      if graphDirty {
        RebuildProcessingOrder();
      }
      if nodes == map[] && processingOrder == [] {
        ids, placed := [], 0;
        EmptySchedule<S>(connections);
        assert TheGraph() == Graph(map[], connections);
      } else {
        ids, placed := CachedIds(csr, processingOrder, drained, TheGraph());
      }
    }

    /** Rebuild the order if needed and run the nodes. */
    method RenderNodes(length: nat) returns (ghost ids: seq<NodeId>, ghost placed: nat)
      requires Valid()
      modifies `csr, `processingOrder, `drained, `cachedFor, `graphDirty, `nodes, `nodeBuffers
      ensures Valid() && nodes.Keys == nodeBuffers.Keys == old(nodes).Keys
      ensures IsRendering(dsp, old(TheGraph()), TheQuantum(length), Rendering(old(nodes), old(nodeBuffers)),
                          ids, placed, Rendering(nodes, nodeBuffers))
    {
      hide IsCached, SchedulesGraph, IsRendering, RenderAll, Describes, Shape, NoDuplicates;
      ids, placed := Prepare();
      FullRender(dsp, TheGraph(), TheQuantum(length), Rendering(nodes, nodeBuffers), ids, placed);
      Render(length, ids);
    }

    /** Everything `process` does before it collects. */
    method RenderQuantum(output: array<A>) returns (ghost ids: seq<NodeId>, ghost placed: nat)
      requires Valid()
      modifies this, output
      ensures Valid() && state == old(state) && released == old(released) && connections == old(connections)
      ensures nodes.Keys == nodeBuffers.Keys == old(nodes).Keys
      ensures IsRendering(dsp, old(TheGraph()), old(TheQuantum(output.Length)), Rendering(old(nodes), old(nodeBuffers)),
                          ids, placed, Rendering(nodes, nodeBuffers))
      ensures if DESTINATION_NODE_ID in nodes
              then IsAdded(dsp, output[..], old(output[..]), nodeBuffers[DESTINATION_NODE_ID])
              else output[..] == old(output[..])
      ensures framesProcessed == old(framesProcessed) + output.Length / AtLeastOne(channels)
    {
      hide IsCached, IsRendering;
      ids, placed := RenderNodes(output.Length);
      if DESTINATION_NODE_ID in nodeBuffers {
        AddInto(dsp, output, nodeBuffers[DESTINATION_NODE_ID]);
      }
      framesProcessed := framesProcessed + output.Length / AtLeastOne(channels);
    }

    /** One quantum. A running context runs every node once in schedule order, adds the
        destination's buffer to `output`, advances its clock and collects; any other context
        touches nothing. */
    method Process(output: array<A>)
      returns (ghost ids: seq<NodeId>, ghost placed: nat, ghost rendered: Rendering<S, A>)
      requires Valid()
      modifies this, output
      ensures Valid() && state == old(state)
      ensures old(state) != Running ==>
                && output[..] == old(output[..]) && collected == []
                && unchanged(`nodes, `nodeBuffers, `bufferPool, `released, `connections, `framesProcessed)
                && unchanged(`graphDirty, `csr, `processingOrder, `drained, `cachedFor)
      ensures old(state) == Running ==>
                && IsRendering(dsp, old(TheGraph()), old(TheQuantum(output.Length)),
                  Rendering(old(nodes), old(nodeBuffers)),
                               ids, placed, rendered)
                && rendered.buffers.Keys == old(nodes).Keys
                && (if DESTINATION_NODE_ID in old(nodes)
                    then IsAdded(dsp, output[..], old(output[..]), rendered.buffers[DESTINATION_NODE_ID])
                    else output[..] == old(output[..]))
                && KeepsByState(dsp, rendered.nodes, old(released), old(connections), nodes.Keys)
                && framesProcessed == old(framesProcessed) + output.Length / AtLeastOne(channels)
                && var s := SnapshotOf(dsp, rendered.nodes, old(released), old(connections));
                   CutDown(s, rendered.nodes, rendered.buffers) && nodes.Keys == Survivors(s)
    {
      hide IsCached, Survivors, IsRendering, CutDown, KeepsByState, IsAdded;
      ids, placed, rendered := [], 0, Rendering(nodes, nodeBuffers);
      if state != Running {
        collected := [];
        return;
      }
      ids, placed := RenderQuantum(output);
      rendered := Rendering(nodes, nodeBuffers);
      Prune();
    }
  }

  /** A public graph operation with its arguments. */
  datatype Operation<!S> =
    | SuspendOp
    | ResumeOp
    | CloseOp
    | AddNodeOp(id: NodeId, node: Node<S>)
    | UpdateNodeOp(id: NodeId, f: S -> Option<S>)
    | ConnectOp(src: NodeId, srcOutput: nat, dst: NodeId, dstInput: nat)
    | DisconnectOp(id: NodeId, target: Option<NodeId>)
    | ReleaseOp(id: NodeId)
    | RemoveFinishedOp(id: NodeId)
    | ProcessOp(length: nat)

  // ---------------------------------------------------------------- life-cycle states

  /** How an operation moves the life-cycle state. Only three of them do. */
  function NextState<S>(state: ContextState, op: Operation<S>): ContextState {
    match op
    case SuspendOp => Suspended
    case ResumeOp => if state == Suspended then Running else state
    case CloseOp => Closed
    case _ => state
  }

  function StateAfter<S>(state: ContextState, operations: seq<Operation<S>>): ContextState {
    if operations == [] then state
    else NextState(StateAfter(state, operations[..|operations| - 1]), operations[|operations| - 1])
  }

  /** A suspend at `i`, a resume at `j`, and no close between them. */
  ghost predicate Revives<S>(operations: seq<Operation<S>>, i: nat, j: nat) {
    && i < j < |operations| && operations[i].SuspendOp? && operations[j].ResumeOp?
    && forall k :: i < k < j ==> !operations[k].CloseOp?
  }

  /** Before any revival a closed context is closed or suspended, and it is suspended exactly
      when a suspend has come since the last close. */
  lemma {:induction false} DormantState<S>(operations: seq<Operation<S>>)
    requires forall i, j :: !Revives(operations, i, j)
    ensures StateAfter(Closed, operations) != Running
    ensures StateAfter(Closed, operations) == Suspended
       <==> exists i :: 0 <= i < |operations| && operations[i].SuspendOp?
                        && forall k :: i < k < |operations| ==> !operations[k].CloseOp?
  {
    if operations != [] {
      var n := |operations| - 1;
      var init, last := operations[..n], operations[n];
      forall i, j ensures !Revives(init, i, j) {
        assert !Revives(operations, i, j);
        assert forall k :: 0 <= k < n ==> init[k] == operations[k];
      }
      DormantState(init);
      if last.ResumeOp? && StateAfter(Closed, init) == Suspended {
        var i :| 0 <= i < n && init[i].SuspendOp? && forall k :: i < k < n ==> !init[k].CloseOp?;
        assert forall k :: 0 <= k < n ==> init[k] == operations[k];
        assert Revives(operations, i, n);
        assert false;
      }
      assert forall k :: 0 <= k < n ==> init[k] == operations[k];
      if last.SuspendOp? {
        assert operations[n].SuspendOp?;
      }
      if i :| 0 <= i < n && init[i].SuspendOp? && forall k :: i < k < n ==> !init[k].CloseOp? {
        assert operations[i].SuspendOp?;
      }
    }
  }

  /** A closed context runs again at some point of a run exactly when a suspend is followed by
      a resume with no close between them. */
  lemma ClosedRunsAgain<S>(operations: seq<Operation<S>>)
    ensures (exists k :: 0 <= k <= |operations| && StateAfter(Closed, operations[..k]) == Running)
       <==> exists i, j :: Revives(operations, i, j)
  {
    if k :| 0 <= k <= |operations| && StateAfter(Closed, operations[..k]) == Running {
      if forall i, j :: !Revives(operations[..k], i, j) {
        DormantState(operations[..k]);
        assert false;
      }
      var i, j :| Revives(operations[..k], i, j);
      assert Revives(operations, i, j);
    }
    if i: nat, j: nat :| Revives(operations, i, j) {
      StaysAwake(operations, i, j);
      assert operations[..j + 1][..j] == operations[..j];
    }
  }

  /** Between a suspend and the next close or suspend a context is suspended or running. */
  lemma {:induction false} StaysAwake<S>(operations: seq<Operation<S>>, i: nat, j: nat)
    requires i < j <= |operations| && operations[i].SuspendOp? && forall k :: i < k < j ==> !operations[k].CloseOp?
    ensures StateAfter(Closed, operations[..j]) != Closed
    decreases j
  {
    assert operations[..j][..j - 1] == operations[..j - 1];
    if j - 1 > i {
      StaysAwake(operations, i, j - 1);
    }
  }

  lemma StateAtStart<S>(state: ContextState, operations: seq<Operation<S>>)
    ensures StateAfter(state, operations[..0]) == state
    ensures operations[..|operations|] == operations
  {
  }

  lemma StateNext<S>(state: ContextState, operations: seq<Operation<S>>, i: nat)
    requires i < |operations|
    ensures var before, after := StateAfter(state, operations[..i]), StateAfter(state, operations[..i + 1]);
            match operations[i]
            case SuspendOp => after == Suspended
            case ResumeOp => after == if before == Suspended then Running else before
            case CloseOp => after == Closed
            case _ => after == before
  {
    assert operations[..i + 1][..i] == operations[..i];
  }

  /** Any sequence of operations, in any order, keeps the invariant, so no `process`
      call ever indexes outside the cached vectors, and moves the life-cycle state as
      `StateAfter` says. */
  method Run<S(!new), A(!new)>(context: AudioContext<S, A>, operations: seq<Operation<S>>)
    requires context.Valid()
    modifies context
    ensures context.Valid() && context.state == StateAfter(old(context.state), operations)
    ensures |context.bufferPool| <= 16
  {
    hide *;
    StateAtStart(context.state, operations);
    for i := 0 to |operations|
      invariant context.Valid() && context.state == StateAfter(old(context.state), operations[..i])
    {
      StateNext(old(context.state), operations, i);
      match operations[i]
      case SuspendOp => context.Suspend();
      case ResumeOp => context.Resume();
      case CloseOp => context.Close();
      case AddNodeOp(id, node) => context.AddNode(id, node);
      case UpdateNodeOp(id, f) => var _ := context.UpdateNode(id, f);
      case ConnectOp(src, srcOutput, dst, dstInput) => context.ConnectPorts(src, srcOutput, dst, dstInput);
      case DisconnectOp(id, target) => context.Disconnect(id, target);
      case ReleaseOp(id) => context.ReleaseNode(id);
      case RemoveFinishedOp(id) => context.RemoveFinishedNode(id);
      case ProcessOp(length) =>
        var output := new A[length](_ => context.dsp.zero);
        ghost var ids, placed, rendered := context.Process(output);
    }
    context.PoolIsBounded();
  }
}
