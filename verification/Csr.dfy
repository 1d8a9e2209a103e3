/** The compressed adjacency: a stable counting sort of the live connections by endpoint.

    `Positions(keys, v)` is the specification: the edge ids whose key is `v`, in increasing
    order. The in-place build lays these sequences out one after another. */
module Csr {
  import opened Wrappers
  import opened AudioGraph

  /** A live connection with its endpoints as dense indices. A port is recorded only when
      the node has more than one. */
  datatype Edge = Edge(src: nat, dst: nat, srcPort: Option<nat>, dstPort: Option<nat>)

  /** Dense indices are a bijection between `ids` and the positions of `denseIds`. */
  ghost predicate IsDense(ids: set<NodeId>, denseIds: seq<NodeId>, denseIndex: map<NodeId, nat>) {
    |denseIds| == |ids| && denseIndex.Keys == ids
    && (forall i :: 0 <= i < |denseIds| ==> denseIds[i] in ids && denseIndex[denseIds[i]] == i)
    && (forall id :: id in ids ==> denseIndex[id] < |denseIds| && denseIds[denseIndex[id]] == id)
  }

  function SourcePort<S>(nodes: map<NodeId, Node<S>>, c: Connection): Option<nat>
    requires c.src in nodes
  {
    if nodes[c.src].outputPorts > 1 then Some(c.srcOutput) else None
  }

  function TargetPort<S>(nodes: map<NodeId, Node<S>>, c: Connection): Option<nat>
    requires c.dst in nodes
  {
    if nodes[c.dst].inputPorts > 1 then Some(c.dstInput) else None
  }

  function EdgeOf<S>(nodes: map<NodeId, Node<S>>, denseIndex: map<NodeId, nat>, c: Connection): Edge
    requires denseIndex.Keys == nodes.Keys && IsLive(nodes.Keys, c)
  {
    Edge(denseIndex[c.src], denseIndex[c.dst], SourcePort(nodes, c), TargetPort(nodes, c))
  }

  /** The live connections in connection order; an edge id is a position in this list. */
  ghost function Edges<S>(nodes: map<NodeId, Node<S>>, denseIndex: map<NodeId, nat>,
      connections: seq<Connection>): seq<Edge>
    requires denseIndex.Keys == nodes.Keys
  {
    if connections == [] then []
    else
      var last := connections[|connections| - 1];
      Edges(nodes, denseIndex, connections[..|connections| - 1])
      + if IsLive(nodes.Keys, last) then [EdgeOf(nodes, denseIndex, last)] else []
  }

  ghost function Srcs(edges: seq<Edge>): seq<nat> { seq(|edges|, i requires 0 <= i < |edges| => edges[i].src) }

  ghost function Dsts(edges: seq<Edge>): seq<nat> { seq(|edges|, i requires 0 <= i < |edges| => edges[i].dst) }

  ghost function SrcPorts(edges: seq<Edge>): seq<Option<nat>> {
    seq(|edges|, i requires 0 <= i < |edges| => edges[i].srcPort)
  }

  ghost function DstPorts(edges: seq<Edge>): seq<Option<nat>> {
    seq(|edges|, i requires 0 <= i < |edges| => edges[i].dstPort)
  }

  ghost predicate EndpointsBelow(edges: seq<Edge>, n: nat) {
    forall i :: 0 <= i < |edges| ==> edges[i].src < n && edges[i].dst < n
  }

  lemma {:induction false} EdgesPrefix<S>(nodes: map<NodeId, Node<S>>, denseIndex: map<NodeId, nat>,
      connections: seq<Connection>, k: nat)
    requires denseIndex.Keys == nodes.Keys && k <= |connections|
    ensures Edges(nodes, denseIndex, connections[..k]) <= Edges(nodes, denseIndex, connections)
  {
    if k < |connections| {
      var init := connections[..|connections| - 1];
      EdgesPrefix(nodes, denseIndex, init, k);
      assert init[..k] == connections[..k];
    } else {
      assert connections[..k] == connections;
    }
  }

  lemma {:induction false} EdgesBelow<S>(nodes: map<NodeId, Node<S>>, denseIndex: map<NodeId, nat>,
      connections: seq<Connection>, n: nat)
    requires denseIndex.Keys == nodes.Keys && forall id :: id in nodes ==> denseIndex[id] < n
    ensures EndpointsBelow(Edges(nodes, denseIndex, connections), n)
  {
    if connections != [] {
      EdgesBelow(nodes, denseIndex, connections[..|connections| - 1], n);
    }
  }

  // ---------------------------------------------------------------- specification

  /** The positions of `v` in `keys`, in increasing order. */
  ghost function Positions(keys: seq<nat>, v: nat): (r: seq<nat>)
    ensures |r| <= |keys|
    ensures forall j :: 0 <= j < |r| ==> r[j] < |keys|
  {
    if keys == [] then []
    else Positions(keys[..|keys| - 1], v) + if keys[|keys| - 1] == v then [|keys| - 1] else []
  }

  /** How many of `keys` lie below `v`: where the slice of `v` starts. */
  ghost function Offset(keys: seq<nat>, v: nat): nat {
    if v == 0 then 0 else Offset(keys, v - 1) + |Positions(keys, v - 1)|
  }

  ghost function Gather(positions: seq<nat>, payload: seq<nat>): seq<nat>
    requires forall j :: 0 <= j < |positions| ==> positions[j] < |payload|
  {
    seq(|positions|, j requires 0 <= j < |positions| => payload[positions[j]])
  }

  ghost function Ids(n: nat): seq<nat> { seq(n, i => i) }

  /** `slots` cut at `start` holds, for each key, the payloads of its positions in order. */
  ghost predicate IsGrouped(start: seq<nat>, slots: seq<nat>, keys: seq<nat>, payload: seq<nat>, n: nat) {
    |start| == n + 1 && |slots| == |keys| == |payload|
    && start[0] == 0 && start[n] == |keys|
    && (forall v :: 0 <= v < n ==> GroupAt(start, slots, keys, payload, v))
  }

  ghost predicate GroupAt(start: seq<nat>, slots: seq<nat>, keys: seq<nat>, payload: seq<nat>, v: nat)
    requires v + 1 < |start| && |slots| == |keys| == |payload|
  {
    start[v] <= start[v + 1] <= |slots|
    && start[v + 1] == start[v] + |Positions(keys, v)|
    && slots[start[v]..start[v + 1]] == Gather(Positions(keys, v), payload)
  }

  /** `Positions` means what its name says. */
  lemma {:induction false} PositionsExact(keys: seq<nat>, v: nat)
    ensures forall i, j :: 0 <= i < j < |Positions(keys, v)| ==> Positions(keys, v)[i] < Positions(keys, v)[j]
    ensures forall e :: e in Positions(keys, v) <==> 0 <= e < |keys| && keys[e] == v
  {
    if keys != [] {
      PositionsExact(keys[..|keys| - 1], v);
    }
  }

  lemma {:induction false} PositionsPrefix(keys: seq<nat>, k: nat, v: nat)
    requires k <= |keys|
    ensures Positions(keys[..k], v) <= Positions(keys, v)
    ensures k < |keys| && keys[k] == v ==> |Positions(keys[..k], v)| < |Positions(keys, v)|
  {
    if k < |keys| {
      var init := keys[..|keys| - 1];
      PositionsPrefix(init, k, v);
      assert init[..k] == keys[..k];
    } else {
      assert keys[..k] == keys;
    }
  }

  lemma {:induction false} OffsetMonotone(keys: seq<nat>, u: nat, v: nat)
    requires u <= v
    ensures Offset(keys, u) <= Offset(keys, v)
  {
    if u < v {
      OffsetMonotone(keys, u, v - 1);
    }
  }

  lemma {:induction false} OffsetSnoc(keys: seq<nat>, d: nat, v: nat)
    ensures Offset(keys + [d], v) == Offset(keys, v) + if d < v then 1 else 0
  {
    if v > 0 {
      OffsetSnoc(keys, d, v - 1);
      assert (keys + [d])[..|keys|] == keys;
    }
  }

  /** The slices of all keys together are as long as the key list. */
  lemma {:induction false} OffsetTotal(keys: seq<nat>, n: nat)
    requires forall i :: 0 <= i < |keys| ==> keys[i] < n
    ensures Offset(keys, n) == |keys|
  {
    if keys == [] {
      OffsetEmpty(n);
    } else {
      var init, last := keys[..|keys| - 1], keys[|keys| - 1];
      OffsetTotal(init, n);
      OffsetSnoc(init, last, n);
      assert init + [last] == keys;
    }
  }

  lemma {:induction false} OffsetEmpty(n: nat)
    ensures Offset([], n) == 0
  {
    if n > 0 {
      OffsetEmpty(n - 1);
    }
  }

  // ------------------------------------------------------------------------ build

  /** Number the nodes in whatever order the map enumerates them. */
  method AssignDenseIndices(ids: set<NodeId>) returns (denseIds: seq<NodeId>, denseIndex: map<NodeId, nat>)
    ensures IsDense(ids, denseIds, denseIndex)
  {
    denseIds, denseIndex := [], map[];
    var left := ids;
    ghost var done := {};
    while left != {}
      invariant done !! left && done + left == ids
      invariant IsDense(done, denseIds, denseIndex)
    {
      var id :| id in left;
      DenseExtend(done, denseIds, denseIndex, id);
      denseIndex := denseIndex[id := |denseIds|];
      denseIds := denseIds + [id];
      left, done := left - {id}, done + {id};
    }
  }

  lemma DenseExtend(ids: set<NodeId>, denseIds: seq<NodeId>, denseIndex: map<NodeId, nat>, id: NodeId)
    requires IsDense(ids, denseIds, denseIndex) && id !in ids
    ensures IsDense(ids + {id}, denseIds + [id], denseIndex[id := |denseIds|])
  {
  }

  /** Count the edges at each endpoint, one position to the right, and record per-edge data. */
  method CountEdges<S>(nodes: map<NodeId, Node<S>>, denseIndex: map<NodeId, nat>, connections: seq<Connection>)
    returns (inputStart: seq<nat>, outputStart: seq<nat>, edgeSrc: seq<nat>,
             edgeSrcPort: seq<Option<nat>>, edgeDstPort: seq<Option<nat>>)
    requires denseIndex.Keys == nodes.Keys && forall id :: id in nodes ==> denseIndex[id] < |nodes|
    ensures var edges := Edges(nodes, denseIndex, connections);
            && edgeSrc == Srcs(edges) && edgeSrcPort == SrcPorts(edges) && edgeDstPort == DstPorts(edges)
            && HoldsCounts(inputStart, Dsts(edges), |nodes|) && HoldsCounts(outputStart, Srcs(edges), |nodes|)
  {
    hide Positions;
    inputStart, outputStart := seq(|nodes| + 1, _ => 0), seq(|nodes| + 1, _ => 0);
    NoPositions();
    edgeSrc, edgeSrcPort, edgeDstPort := [], [], [];
    for i := 0 to |connections|
      invariant var edges := Edges(nodes, denseIndex, connections[..i]);
            && edgeSrc == Srcs(edges) && edgeSrcPort == SrcPorts(edges) && edgeDstPort == DstPorts(edges)
            && HoldsCounts(inputStart, Dsts(edges), |nodes|) && HoldsCounts(outputStart, Srcs(edges), |nodes|)
    {
      var c := connections[i];
      ghost var edges := Edges(nodes, denseIndex, connections[..i]);
      assert connections[..i + 1][..i] == connections[..i];
      if c.src in denseIndex && c.dst in denseIndex {
        var src, dst := denseIndex[c.src], denseIndex[c.dst];
        ghost var e := EdgeOf(nodes, denseIndex, c);
        assert Edges(nodes, denseIndex, connections[..i + 1]) == edges + [e];
        assert Dsts(edges + [e]) == Dsts(edges) + [dst];
        assert Srcs(edges + [e]) == Srcs(edges) + [src];
        inputStart := CountOne(inputStart, Dsts(edges), |nodes|, dst);
        outputStart := CountOne(outputStart, Srcs(edges), |nodes|, src);
        edgeSrc := edgeSrc + [src];
        edgeSrcPort := edgeSrcPort + [SourcePort(nodes, c)];
        edgeDstPort := edgeDstPort + [TargetPort(nodes, c)];
      } else {
        assert Edges(nodes, denseIndex, connections[..i + 1]) == edges;
      }
    }
    assert connections[..|connections|] == connections;
  }

  lemma NoPositions()
    ensures forall v: nat :: Positions([], v) == []
  {
  }

  ghost predicate HoldsCounts(start: seq<nat>, keys: seq<nat>, n: nat) {
    |start| == n + 1 && start[0] == 0
    && forall v :: 0 <= v < n ==> start[v + 1] == |Positions(keys, v)|
  }

  method CountOne(start: seq<nat>, ghost keys: seq<nat>, ghost n: nat, d: nat) returns (start': seq<nat>)
    requires HoldsCounts(start, keys, n) && d < n
    ensures HoldsCounts(start', keys + [d], n)
  {
    assert (keys + [d])[..|keys|] == keys;
    start' := start[d + 1 := start[d + 1] + 1];
  }

  /** Turn counts into slice starts, in place. */
  method PrefixSums(counts: seq<nat>, ghost keys: seq<nat>, n: nat) returns (start: seq<nat>)
    requires HoldsCounts(counts, keys, n)
    ensures |start| == n + 1 && forall v {:trigger start[v]} :: 0 <= v <= n ==> start[v] == Offset(keys, v)
  {
    start := counts;
    for i := 0 to n
      invariant |start| == n + 1
      invariant forall v {:trigger start[v]} :: 0 <= v <= i ==> start[v] == Offset(keys, v)
      invariant forall v :: i <= v < n ==> start[v + 1] == |Positions(keys, v)|
    {
      assert Offset(keys, i + 1) == Offset(keys, i) + |Positions(keys, i)|;
      start := start[i + 1 := start[i + 1] + start[i]];
    }
  }

  /** The first `k` edges are in place: `cursor[v]` of them belong to `v`. */
  ghost predicate Filled(slots: seq<nat>, start: seq<nat>, cursor: seq<nat>, keys: seq<nat>, payload: seq<nat>,
      k: nat) {
    |slots| == |keys| == |payload| && k <= |keys| && |start| == |cursor| + 1
    && (forall i :: 0 <= i < |keys| ==> keys[i] < |cursor|)
    && (forall v {:trigger start[v]} :: 0 <= v < |start| ==> start[v] == Offset(keys, v))
    && (forall v :: 0 <= v < |cursor| ==> FilledAt(slots, start, cursor, keys, payload, k, v))
  }

  ghost predicate FilledAt(slots: seq<nat>, start: seq<nat>, cursor: seq<nat>, keys: seq<nat>, payload: seq<nat>,
      k: nat, v: nat)
    requires |slots| == |keys| == |payload| && k <= |keys| && v < |cursor| < |start|
  {
    cursor[v] == |Positions(keys[..k], v)| && start[v] + cursor[v] <= |slots|
    && slots[start[v]..start[v] + cursor[v]] == Gather(Positions(keys[..k], v), payload)
  }

  /** The cursor of edge `k` points inside the slice of its own key. */
  lemma CursorInSlice(keys: seq<nat>, k: nat, n: nat)
    requires k < |keys| && forall i :: 0 <= i < |keys| ==> keys[i] < n
    ensures var d := keys[k];
            Offset(keys, d) + |Positions(keys[..k], d)| < Offset(keys, d + 1) <= |keys|
  {
    hide Positions;
    PositionsPrefix(keys, k, keys[k]);
    OffsetMonotone(keys, keys[k] + 1, n);
    OffsetTotal(keys, n);
  }

  lemma FillStepAt(slots: seq<nat>, start: seq<nat>, cursor: seq<nat>, keys: seq<nat>, payload: seq<nat>, k: nat,
      v: nat)
    requires |slots| == |keys| == |payload| && k < |keys| && v < |cursor| < |start|
    requires FilledAt(slots, start, cursor, keys, payload, k, v)
    requires keys[k] < |cursor| && start[v] == Offset(keys, v) && start[keys[k]] == Offset(keys, keys[k])
    requires start[keys[k]] + cursor[keys[k]] < Offset(keys, keys[k] + 1) <= |slots|
    ensures var d := keys[k];
            FilledAt(slots[start[d] + cursor[d] := payload[k]], start, cursor[d := cursor[d] + 1], keys, payload,
              k + 1, v)
  {
    hide Positions, Offset;
    var d := keys[k];
    var at := start[d] + cursor[d];
    PositionsNext(keys, k, v);
    if v == d {
      WriteAtEnd(slots, start[v], at, payload[k]);
      GatherSnoc(Positions(keys[..k], v), k, payload);
    } else {
      SlicesApart(keys, k, v);
      WriteOutside(slots, start[v], start[v] + cursor[v], at, payload[k]);
    }
  }

  lemma PositionsNext(keys: seq<nat>, k: nat, v: nat)
    requires k < |keys|
    ensures Positions(keys[..k + 1], v) == if keys[k] == v then Positions(keys[..k], v) + [k]
            else Positions(keys[..k], v)
  {
    assert keys[..k + 1][..k] == keys[..k];
  }

  lemma GatherSnoc(positions: seq<nat>, k: nat, payload: seq<nat>)
    requires k < |payload| && forall j :: 0 <= j < |positions| ==> positions[j] < |payload|
    ensures Gather(positions + [k], payload) == Gather(positions, payload) + [payload[k]]
  {
  }

  lemma SlicesApart(keys: seq<nat>, k: nat, v: nat)
    requires k < |keys| && keys[k] != v
    ensures v < keys[k] ==> Offset(keys, v) + |Positions(keys[..k], v)| <= Offset(keys, keys[k])
    ensures v > keys[k] ==> Offset(keys, keys[k] + 1) <= Offset(keys, v)
  {
    PositionsPrefix(keys, k, v);
    if v < keys[k] {
      OffsetMonotone(keys, v + 1, keys[k]);
    } else {
      OffsetMonotone(keys, keys[k] + 1, v);
    }
  }

  lemma WriteAtEnd(slots: seq<nat>, from: nat, at: nat, x: nat)
    requires from <= at < |slots|
    ensures slots[at := x][from..at + 1] == slots[from..at] + [x]
  {
  }

  lemma WriteOutside(slots: seq<nat>, from: nat, end: nat, at: nat, x: nat)
    requires from <= end <= |slots| && at < |slots| && (at < from || end <= at)
    ensures slots[at := x][from..end] == slots[from..end]
  {
  }

  /** Place edge `k` at its cursor: it lands inside its own slice and disturbs no other. */
  method PlaceEdge(slots: seq<nat>, start: seq<nat>, cursor: seq<nat>, key: nat, value: nat,
                   ghost keys: seq<nat>, ghost payload: seq<nat>, ghost k: nat)
    returns (slots': seq<nat>, cursor': seq<nat>)
    requires Filled(slots, start, cursor, keys, payload, k) && k < |keys|
    requires key == keys[k] && value == payload[k]
    ensures |cursor'| == |cursor|
    ensures Filled(slots', start, cursor', keys, payload, k + 1)
  {
    assert FilledAt(slots, start, cursor, keys, payload, k, key);
    CursorInSlice(keys, k, |cursor|);
    slots' := slots[start[key] + cursor[key] := value];
    cursor' := cursor[key := cursor[key] + 1];
    forall v {:trigger FilledAt(slots', start, cursor', keys, payload, k + 1, v)} | 0 <= v < |cursor|
      ensures FilledAt(slots', start, cursor', keys, payload, k + 1, v)
    {
      assert FilledAt(slots, start, cursor, keys, payload, k, v);
      FillStepAt(slots, start, cursor, keys, payload, k, v);
    }
  }

  lemma FilledIsGrouped(slots: seq<nat>, start: seq<nat>, cursor: seq<nat>, keys: seq<nat>, payload: seq<nat>)
    requires Filled(slots, start, cursor, keys, payload, |keys|)
    ensures IsGrouped(start, slots, keys, payload, |cursor|)
    ensures forall v :: 0 <= v < |cursor| ==> cursor[v] == |Positions(keys, v)|
  {
    assert keys[..|keys|] == keys;
    OffsetTotal(keys, |cursor|);
    forall v | 0 <= v < |cursor| ensures GroupAt(start, slots, keys, payload, v) && cursor[v] == |Positions(keys, v)| {
      assert FilledAt(slots, start, cursor, keys, payload, |keys|, v);
      assert start[v + 1] == Offset(keys, v + 1);
    }
  }

  lemma EmptyIsFilled(slots: seq<nat>, start: seq<nat>, cursor: seq<nat>, keys: seq<nat>, payload: seq<nat>)
    requires |slots| == |keys| == |payload| && |start| == |cursor| + 1
    requires forall i :: 0 <= i < |keys| ==> keys[i] < |cursor|
    requires forall v {:trigger start[v]} :: 0 <= v < |start| ==> start[v] == Offset(keys, v)
    requires forall v :: 0 <= v < |cursor| ==> cursor[v] == 0
    ensures Filled(slots, start, cursor, keys, payload, 0)
  {
    OffsetTotal(keys, |cursor|);
    forall v | 0 <= v < |cursor| ensures FilledAt(slots, start, cursor, keys, payload, 0, v) {
      OffsetMonotone(keys, v, |cursor|);
    }
  }

  /** Fill both edge arrays in one pass over the connections. `inDegree` is the in-edge
      cursor and ends as the true in-degree; `outCursor` is the scratch cursor the engine
      borrows the order vector for. */
  method FillEdges<S>(nodes: map<NodeId, Node<S>>, denseIndex: map<NodeId, nat>, connections: seq<Connection>,
                      edgeCount: nat, inputStart: seq<nat>, outputStart: seq<nat>)
    returns (inputEdges: seq<nat>, outputEdges: seq<nat>, inDegree: seq<nat>)
    requires denseIndex.Keys == nodes.Keys && forall id :: id in nodes ==> denseIndex[id] < |nodes|
    requires |inputStart| == |outputStart| == |nodes| + 1
    requires var edges := Edges(nodes, denseIndex, connections);
             edgeCount == |edges|
             && (forall v {:trigger inputStart[v]} :: 0 <= v <= |nodes| ==> inputStart[v] == Offset(Dsts(edges), v))
             && (forall v {:trigger outputStart[v]} :: 0 <= v <= |nodes| ==> outputStart[v] == Offset(Srcs(edges), v))
    ensures var edges := Edges(nodes, denseIndex, connections);
            && IsGrouped(inputStart, inputEdges, Dsts(edges), Ids(|edges|), |nodes|)
            && IsGrouped(outputStart, outputEdges, Srcs(edges), Dsts(edges), |nodes|)
            && |inDegree| == |nodes|
            && forall v :: 0 <= v < |nodes| ==> inDegree[v] == |Positions(Dsts(edges), v)|
  {
    hide Filled, IsGrouped, Positions, Offset;
    ghost var edges := Edges(nodes, denseIndex, connections);
    ghost var dsts, srcs, ids := Dsts(edges), Srcs(edges), Ids(|edges|);
    EdgesBelow(nodes, denseIndex, connections, |nodes|);
    inputEdges, outputEdges := seq(edgeCount, _ => 0), seq(edgeCount, _ => 0);
    inDegree := seq(|nodes|, _ => 0);
    var outCursor: seq<nat> := seq(|nodes|, _ => 0);
    var edgeId := 0;
    EmptyIsFilled(inputEdges, inputStart, inDegree, dsts, ids);
    EmptyIsFilled(outputEdges, outputStart, outCursor, srcs, dsts);
    for i := 0 to |connections|
      invariant |inDegree| == |outCursor| == |nodes|
      invariant edgeId == |Edges(nodes, denseIndex, connections[..i])| <= |edges|
      invariant Filled(inputEdges, inputStart, inDegree, dsts, ids, edgeId)
      invariant Filled(outputEdges, outputStart, outCursor, srcs, dsts, edgeId)
    {
      var c := connections[i];
      assert connections[..i + 1][..i] == connections[..i];
      EdgesPrefix(nodes, denseIndex, connections, i + 1);
      if c.src in denseIndex && c.dst in denseIndex {
        var src, dst := denseIndex[c.src], denseIndex[c.dst];
        assert edges[edgeId] == EdgeOf(nodes, denseIndex, c);
        inputEdges, inDegree := PlaceEdge(inputEdges, inputStart, inDegree, dst, edgeId, dsts, ids, edgeId);
        outputEdges, outCursor := PlaceEdge(outputEdges, outputStart, outCursor, src, dst, srcs, dsts, edgeId);
        edgeId := edgeId + 1;
      }
    }
    assert connections[..|connections|] == connections;
    FilledIsGrouped(inputEdges, inputStart, inDegree, dsts, ids);
    FilledIsGrouped(outputEdges, outputStart, outCursor, srcs, dsts);
  }

  /** The cached graph: dense numbering, grouped in- and out-edges, per-edge data. */
  datatype Adjacency = Adjacency(
    denseIds: seq<NodeId>, denseIndex: map<NodeId, nat>,
    inputStart: seq<nat>, inputEdges: seq<nat>,
    outputStart: seq<nat>, outputEdges: seq<nat>,
    edgeSrc: seq<nat>, edgeSrcPort: seq<Option<nat>>, edgeDstPort: seq<Option<nat>>)

  /** The cache is exactly what the current nodes and connections call for. */
  ghost predicate Describes<S>(csr: Adjacency, g: Graph<S>) {
    && IsDense(g.nodes.Keys, csr.denseIds, csr.denseIndex) && |csr.denseIds| == |g.nodes|
    && var edges := Edges(g.nodes, csr.denseIndex, g.connections);
       && IsGrouped(csr.inputStart, csr.inputEdges, Dsts(edges), Ids(|edges|), |g.nodes|)
       && IsGrouped(csr.outputStart, csr.outputEdges, Srcs(edges), Dsts(edges), |g.nodes|)
       && csr.edgeSrc == Srcs(edges) && csr.edgeSrcPort == SrcPorts(edges) && csr.edgeDstPort == DstPorts(edges)
  }

  method BuildAdjacency<S>(g: Graph<S>) returns (csr: Adjacency, inDegree: seq<nat>)
    ensures Describes(csr, g)
    ensures var edges := Edges(g.nodes, csr.denseIndex, g.connections);
            EndpointsBelow(edges, |g.nodes|) && |inDegree| == |g.nodes|
            && forall v :: 0 <= v < |g.nodes| ==> inDegree[v] == |Positions(Dsts(edges), v)|
  {
    var denseIds, denseIndex := AssignDenseIndices(g.nodes.Keys);
    assert |g.nodes.Keys| == |g.nodes|;
    ghost var edges := Edges(g.nodes, denseIndex, g.connections);
    var inputCounts, outputCounts, edgeSrc, edgeSrcPort, edgeDstPort := CountEdges(g.nodes, denseIndex, g.connections);
    var inputStart := PrefixSums(inputCounts, Dsts(edges), |g.nodes|);
    var outputStart := PrefixSums(outputCounts, Srcs(edges), |g.nodes|);
    var inputEdges, outputEdges;
    inputEdges, outputEdges, inDegree := FillEdges(g.nodes, denseIndex, g.connections, |edgeSrc|, inputStart,
      outputStart);
    EdgesBelow(g.nodes, denseIndex, g.connections, |g.nodes|);
    csr := Adjacency(denseIds, denseIndex, inputStart, inputEdges, outputStart, outputEdges, edgeSrc, edgeSrcPort,
      edgeDstPort);
  }

  /** The nodes with their states erased: all that the cache can depend on. */
  ghost function Shape<S>(nodes: map<NodeId, Node<S>>): (r: map<NodeId, Node<()>>)
    ensures r.Keys == nodes.Keys
  {
    map id | id in nodes :: Node(nodes[id].inputPorts, nodes[id].outputPorts, ())
  }

  /** Node states do not enter the cache. */
  lemma {:induction false} EdgesOfShape<S>(nodes: map<NodeId, Node<S>>, denseIndex: map<NodeId, nat>,
      connections: seq<Connection>)
    requires denseIndex.Keys == nodes.Keys
    ensures Edges(Shape(nodes), denseIndex, connections) == Edges(nodes, denseIndex, connections)
  {
    if connections != [] {
      EdgesOfShape(nodes, denseIndex, connections[..|connections| - 1]);
    }
  }

  lemma DescribesShape<S>(csr: Adjacency, g: Graph<S>)
    ensures Describes(csr, Graph(Shape(g.nodes), g.connections)) <==> Describes(csr, g)
  {
    assert |g.nodes| == |g.nodes.Keys| == |Shape(g.nodes).Keys| == |Shape(g.nodes)|;
    if csr.denseIndex.Keys == g.nodes.Keys {
      EdgesOfShape(g.nodes, csr.denseIndex, g.connections);
    }
  }
}
