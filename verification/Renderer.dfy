/** One render quantum: mixing a node's inputs, running the nodes in order, and the
    recursive dataflow meaning that the in-order run must reproduce. */
module Renderer {
  import opened Wrappers
  import opened Digraph
  import opened AudioGraph
  import opened Csr
  import opened Scheduler

  type Positive = x: nat | x >= 1 witness 1

  /** The parameters of one `process` call: samples per buffer, interleaved channels
      (at least one), and frames rendered so far, which is the context's clock. */
  datatype Quantum = Quantum(length: nat, channels: Positive, frames: nat)

  // ---------------------------------------------------------------------- mixing

  /** Where the frame that holds position `i` starts. */
  function FrameStart(i: nat, channels: Positive): nat { i / channels * channels }

  /** The part of a buffer that is made of whole frames. */
  function WholeFrames(len: nat, channels: Positive): nat { FrameStart(len, channels) }

  lemma MulMonotone(a: nat, b: nat, c: nat)
    requires a <= b
    ensures a * c <= b * c
  {
  }

  lemma FrameInBounds(i: nat, channels: Positive, len: nat)
    requires i < WholeFrames(len, channels)
    ensures i / channels < len / channels
    ensures FrameStart(i, channels) + channels <= WholeFrames(len, channels) <= len
  {
    var d, frames := i / channels, len / channels;
    assert i == d * channels + i % channels;
    if d >= frames {
      MulMonotone(frames, d, channels);
      assert false;
    }
    MulMonotone(d + 1, frames, channels);
  }

  /** `i` is the unique position of its frame and channel. */
  lemma FrameOf(frame: nat, ch: nat, channels: Positive)
    requires ch < channels
    ensures FrameStart(frame * channels + ch, channels) == frame * channels
    ensures (frame * channels + ch) % channels == ch
  {
    var i := frame * channels + ch;
    var d := i / channels;
    assert i == d * channels + i % channels;
    if d < frame {
      MulMonotone(d + 1, frame, channels);
    } else if d > frame {
      MulMonotone(frame + 1, d, channels);
    }
  }

  lemma NextFrame(frame: nat, channels: Positive, len: nat)
    requires frame < len / channels
    ensures frame * channels + channels == (frame + 1) * channels <= WholeFrames(len, channels) <= len
  {
    MulMonotone(frame + 1, len / channels, channels);
  }

  /** The sample a port-routed source adds at bus position `i`, if it adds one there. */
  function Contribution<S, A>(dsp: Dsp<S, A>, src: seq<A>, q: Quantum, from: Option<nat>, into: Option<nat>,
      i: nat): Option<A> {
    var len, ch: nat := Min(|src|, q.length), q.channels;
    if from.None? && into.None? then
      if i < len then Some(src[i]) else None
    else if i < WholeFrames(len, ch) then
      FrameInBounds(i, ch, len);
      var base := FrameStart(i, ch);
      if into.None? then
        Some(src[base + Min(from.value, ch - 1)])
      else if i % ch != Min(into.value, ch - 1) then
        None
      else if from.Some? then
        Some(src[base + Min(from.value, ch - 1)])
      else
        Some(dsp.mean(src[base..base + ch]))
    else
      None
  }

  function Accumulate<S, A>(dsp: Dsp<S, A>, x: A, contribution: Option<A>): A {
    if contribution.Some? then dsp.add(x, contribution.value) else x
  }

  /** `mix` after one source has been added to it. */
  function MixInto<S, A>(dsp: Dsp<S, A>, mix: seq<A>, src: seq<A>, q: Quantum, from: Option<nat>,
      into: Option<nat>): (r: seq<A>)
    ensures |r| == |mix|
  {
    seq(|mix|, i requires 0 <= i < |mix| => Accumulate(dsp, mix[i], Contribution(dsp, src, q, from, into, i)))
  }

  /** The three mixing loops, each over the whole bus, over splitter frames or over merger
      frames, add exactly the contribution of every position. */
  method MixEdge<S, A>(dsp: Dsp<S, A>, mix: seq<A>, src: seq<A>, q: Quantum, from: Option<nat>, into: Option<nat>)
    returns (r: seq<A>)
    requires |mix| == q.length
    ensures r == MixInto(dsp, mix, src, q, from, into)
  {
    if from.None? && into.None? {
      r := MixBus(dsp, mix, src, q);
    } else if into.None? {
      r := MixSplitter(dsp, mix, src, q, from.value);
    } else {
      r := MixMerger(dsp, mix, src, q, from, into.value);
    }
  }

  method MixBus<S, A>(dsp: Dsp<S, A>, mix: seq<A>, src: seq<A>, q: Quantum) returns (r: seq<A>)
    requires |mix| == q.length
    ensures r == MixInto(dsp, mix, src, q, None, None)
  {
    r := mix;
    var len := Min(|src|, q.length);
    for i := 0 to len
      invariant |r| == |mix|
      invariant forall j :: 0 <= j < |mix| ==> r[j] == if j < i then dsp.add(mix[j], src[j]) else mix[j]
    {
      r := r[i := dsp.add(r[i], src[i])];
    }
  }

  method MixSplitter<S, A>(dsp: Dsp<S, A>, mix: seq<A>, src: seq<A>, q: Quantum, from: nat) returns (r: seq<A>)
    requires |mix| == q.length
    ensures r == MixInto(dsp, mix, src, q, Some(from), None)
  {
    r := mix;
    var len, channels: nat := Min(|src|, q.length), q.channels;
    ghost var want := MixInto(dsp, mix, src, q, Some(from), None);
    for frame := 0 to len / channels
      invariant |r| == |mix|
      invariant forall j :: 0 <= j < |mix| ==> r[j] == if j < frame * channels then want[j] else mix[j]
    {
      var base := frame * channels;
      NextFrame(frame, channels, len);
      var sample := src[base + Min(from, channels - 1)];
      for ch := 0 to channels
        invariant |r| == |mix|
        invariant forall j :: 0 <= j < |mix| ==> r[j] == if j < base + ch then want[j] else mix[j]
      {
        FrameOf(frame, ch, channels);
        r := r[base + ch := dsp.add(r[base + ch], sample)];
      }
    }
  }

  function MergerSample<S, A>(dsp: Dsp<S, A>, src: seq<A>, base: nat, channels: Positive, from: Option<nat>): A
    requires base + channels <= |src|
  {
    if from.Some? then src[base + Min(from.value, channels - 1)] else dsp.mean(src[base..base + channels])
  }

  /** Past the whole frames, a port-routed edge adds nothing. */
  lemma BeyondFrames<S, A>(dsp: Dsp<S, A>, mix: seq<A>, src: seq<A>, q: Quantum, from: Option<nat>, into: Option<nat>)
    requires from.Some? || into.Some?
    ensures forall j :: WholeFrames(Min(|src|, q.length), q.channels) <= j < |mix| ==>
              MixInto(dsp, mix, src, q, from, into)[j] == mix[j]
  {
  }

  /** Within one frame a merger edge changes exactly the position of its port. */
  lemma MergerFrame<S, A>(dsp: Dsp<S, A>, mix: seq<A>, src: seq<A>, q: Quantum, from: Option<nat>, into: nat,
      frame: nat)
    requires |mix| == q.length && frame < Min(|src|, q.length) / q.channels
    ensures var base, port := frame * q.channels, Min(into, q.channels - 1);
            && base + q.channels <= Min(|src|, q.length)
            && forall j :: base <= j < base + q.channels ==>
                 MixInto(dsp, mix, src, q, from, Some(into))[j]
                 == if j == base + port then dsp.add(mix[j], MergerSample(dsp, src, base, q.channels, from)) else mix[j]
  {
    var base := frame * q.channels;
    NextFrame(frame, q.channels, Min(|src|, q.length));
    forall j | base <= j < base + q.channels
      ensures MixInto(dsp, mix, src, q, from, Some(into))[j]
              == if j == base + Min(into, q.channels - 1) then
                dsp.add(mix[j], MergerSample(dsp, src, base, q.channels, from)) else mix[j]
    {
      FrameOf(frame, j - base, q.channels);
    }
  }

  method MixMerger<S, A>(dsp: Dsp<S, A>, mix: seq<A>, src: seq<A>, q: Quantum, from: Option<nat>, into: nat)
    returns (r: seq<A>)
    requires |mix| == q.length
    ensures r == MixInto(dsp, mix, src, q, from, Some(into))
  {
    hide Contribution, MergerSample;
    r := mix;
    var len, channels: nat := Min(|src|, q.length), q.channels;
    var port := Min(into, channels - 1);
    ghost var want := MixInto(dsp, mix, src, q, from, Some(into));
    BeyondFrames(dsp, mix, src, q, from, Some(into));
    for frame := 0 to len / channels
      invariant |r| == |mix|
      invariant forall j :: 0 <= j < |mix| ==> r[j] == if j < frame * channels then want[j] else mix[j]
    {
      var base := frame * channels;
      NextFrame(frame, channels, len);
      MergerFrame(dsp, mix, src, q, from, into, frame);
      var sample := MergerSample(dsp, src, base, channels, from);
      r := r[base + port := dsp.add(r[base + port], sample)];
    }
    assert r == want;
  }

  // --------------------------------------------------------------- specification

  function Silence<S, A>(dsp: Dsp<S, A>, n: nat): seq<A> { seq(n, _ => dsp.zero) }

  /** The existing nodes with a connection into `id`. */
  ghost function Sources<S>(g: Graph<S>, id: NodeId): set<NodeId> {
    set c | c in g.connections && IsLive(g.nodes.Keys, c) && c.dst == id :: c.src
  }

  /** The mix of the first `k` connections into `id`: a left fold in connection order over
      the buffers of its sources, or nothing when none of them is live. */
  ghost function Mixed<S, A>(dsp: Dsp<S, A>, g: Graph<S>, q: Quantum, buffers: map<NodeId, seq<A>>, id: NodeId,
      k: nat): (r: Option<seq<A>>)
    requires k <= |g.connections| && Sources(g, id) <= buffers.Keys
    ensures r.Some? ==> |r.value| == q.length
  {
    if k == 0 then None
    else
      var c := g.connections[k - 1];
      var before := Mixed(dsp, g, q, buffers, id, k - 1);
      if IsLive(g.nodes.Keys, c) && c.dst == id then
        assert c.src in Sources(g, id);
        var mix := if before.Some? then before.value else Silence(dsp, q.length);
        Some(MixInto(dsp, mix, buffers[c.src], q, SourcePort(g.nodes, c), TargetPort(g.nodes, c)))
      else before
  }

  datatype Fired<S, A> = Fired(state: S, output: seq<A>)

  /** One call of a node's processor; a node without live inputs is handed an empty slice. */
  function Fire<S, A>(dsp: Dsp<S, A>, state: S, input: Option<seq<A>>, q: Quantum): (r: Fired<S, A>)
    ensures |r.output| == q.length
  {
    var (state', sample) := dsp.step(state, if input.Some? then input.value else [], q.length, q.frames);
    Fired(state', seq(q.length, i requires 0 <= i < q.length => sample(i)))
  }

  /** A render buffer is rewritten up to the quantum length and keeps any longer tail. */
  function Overlay<A>(buffer: seq<A>, output: seq<A>): (r: seq<A>)
    ensures |r| >= |output| && r[..|output|] == output
  {
    output + if |buffer| > |output| then buffer[|output|..] else []
  }

  datatype Rendering<S, A> = Rendering(nodes: map<NodeId, Node<S>>, buffers: map<NodeId, seq<A>>)

  ghost predicate Fits<S, A>(g: Graph<S>, r: Rendering<S, A>) {
    r.nodes.Keys == r.buffers.Keys == g.nodes.Keys
  }

  ghost function RenderOne<S, A>(dsp: Dsp<S, A>, g: Graph<S>, q: Quantum, r: Rendering<S, A>,
      id: NodeId): (r': Rendering<S, A>)
    requires Fits(g, r) && id in g.nodes
    ensures Fits(g, r')
  {
    var fired := Fire(dsp, r.nodes[id].state, Mixed(dsp, g, q, r.buffers, id, |g.connections|), q);
    Rendering(r.nodes[id := r.nodes[id].(state := fired.state)], r.buffers[id := Overlay(r.buffers[id], fired.output)])
  }

  /** Running the nodes of `ids` one after another, each reading whatever its sources'
      buffers hold at that moment. */
  ghost function RenderAll<S, A>(dsp: Dsp<S, A>, g: Graph<S>, q: Quantum, r: Rendering<S, A>,
      ids: seq<NodeId>): (r': Rendering<S, A>)
    requires Fits(g, r) && forall k :: 0 <= k < |ids| ==> ids[k] in g.nodes
    ensures Fits(g, r')
  {
    if ids == [] then r
    else RenderOne(dsp, g, q, RenderAll(dsp, g, q, r, ids[..|ids| - 1]), ids[|ids| - 1])
  }

  // ------------------------------------------------------------------- dataflow

  /** No directed cycle lies upstream of `id`. */
  ghost predicate Grounded<S>(g: Graph<S>, id: NodeId) {
    !exists c :: OnCycle(LiveArcs(g.nodes.Keys, g.connections), c)
      && Reaches(LiveArcs(g.nodes.Keys, g.connections), c, id)
  }

  ghost function Ancestors<S>(g: Graph<S>, id: NodeId): set<NodeId> {
    set u | u in g.nodes.Keys && Precedes(LiveArcs(g.nodes.Keys, g.connections), u, id)
  }

  /** Going to a source loses an ancestor, so the dataflow recursion is well founded. */
  lemma SourceIsGrounded<S>(g: Graph<S>, u: NodeId, id: NodeId)
    requires u in Sources(g, id) && Grounded(g, id)
    ensures Grounded(g, u) && u in g.nodes && u != id && Ancestors(g, u) < Ancestors(g, id)
  {
    var arcs := LiveArcs(g.nodes.Keys, g.connections);
    var c :| c in g.connections && IsLive(g.nodes.Keys, c) && c.dst == id && c.src == u;
    assert (u, id) in arcs;
    ArcPrecedes(arcs, u, id);
    assert u in Ancestors(g, id);
    if OnCycle(arcs, u) {
      ReachesSelf(arcs, u);
      ExtendWalk(arcs, u, u, id);
      assert false;
    }
    forall w | Reaches(arcs, w, u) ensures Precedes(arcs, w, id) && Reaches(arcs, w, id) {
      ExtendWalk(arcs, w, u, id);
    }
    forall w | w in Ancestors(g, u) ensures w in Ancestors(g, id) {
      assert Reaches(arcs, w, u);
    }
  }

  /** The dataflow meaning of a node: its processor applied to the left fold, in connection
      order, of the port-routed outputs that its sources mean. */
  ghost function Meaning<S, A>(dsp: Dsp<S, A>, g: Graph<S>, q: Quantum, id: NodeId): Fired<S, A>
    requires id in g.nodes && Grounded(g, id)
    decreases Ancestors(g, id)
  {
    var outputs := map u | u in Sources(g, id) :: (SourceIsGrounded(g, u, id); Meaning(dsp, g, q, u).output);
    Fire(dsp, g.nodes[id].state, Mixed(dsp, g, q, outputs, id, |g.connections|), q)
  }

  lemma MixIntoPrefix<S, A>(dsp: Dsp<S, A>, mix: seq<A>, src: seq<A>, q: Quantum, from: Option<nat>, into: Option<nat>)
    requires |src| >= q.length
    ensures MixInto(dsp, mix, src, q, from, into) == MixInto(dsp, mix, src[..q.length], q, from, into)
  {
    forall i | 0 <= i < |mix|
      ensures Contribution(dsp, src, q, from, into, i) == Contribution(dsp, src[..q.length], q, from, into, i)
    {
      if i < WholeFrames(q.length, q.channels) {
        FrameInBounds(i, q.channels, q.length);
        var base := FrameStart(i, q.channels);
        assert src[..q.length][base..base + q.channels] == src[base..base + q.channels];
      }
    }
  }

  /** The mix depends on nothing but the rendered part of the sources' buffers. */
  lemma {:induction false} MixedAgrees<S, A>(dsp: Dsp<S, A>, g: Graph<S>, q: Quantum,
      buffers: map<NodeId, seq<A>>, outputs: map<NodeId, seq<A>>, id: NodeId, k: nat)
    requires k <= |g.connections| && Sources(g, id) <= buffers.Keys && Sources(g, id) <= outputs.Keys
    requires forall u :: u in Sources(g, id) ==> |buffers[u]| >= q.length && buffers[u][..q.length] == outputs[u]
    ensures Mixed(dsp, g, q, buffers, id, k) == Mixed(dsp, g, q, outputs, id, k)
  {
    if k > 0 {
      MixedAgrees(dsp, g, q, buffers, outputs, id, k - 1);
      var c := g.connections[k - 1];
      if IsLive(g.nodes.Keys, c) && c.dst == id {
        assert c.src in Sources(g, id);
        var before := Mixed(dsp, g, q, buffers, id, k - 1);
        var mix := if before.Some? then before.value else Silence(dsp, q.length);
        MixIntoPrefix(dsp, mix, buffers[c.src], q, SourcePort(g.nodes, c), TargetPort(g.nodes, c));
      }
    }
  }

  /** Nodes outside `ids` are not touched. */
  lemma {:induction false} RenderLeavesOthers<S, A>(dsp: Dsp<S, A>, g: Graph<S>, q: Quantum, r: Rendering<S, A>,
      ids: seq<NodeId>, id: NodeId)
    requires Fits(g, r) && (forall k :: 0 <= k < |ids| ==> ids[k] in g.nodes) && id in g.nodes && id !in ids
    ensures var r' := RenderAll(dsp, g, q, r, ids);
            r'.nodes[id] == r.nodes[id] && r'.buffers[id] == r.buffers[id]
  {
    if ids != [] {
      RenderLeavesOthers(dsp, g, q, r, ids[..|ids| - 1], id);
    }
  }

  /** No cycle feeds `id`, and the destination does not feed it. */
  ghost predicate Clean<S>(g: Graph<S>, id: NodeId) {
    Grounded(g, id) && !Precedes(LiveArcs(g.nodes.Keys, g.connections), DESTINATION_NODE_ID, id)
  }

  /** A schedule runs every source of a clean node before it, and the source is clean too. */
  lemma CleanSourceFirst<S>(g: Graph<S>, ids: seq<NodeId>, drained: nat, k: nat, u: NodeId)
    requires SchedulesGraph(g, ids, drained) && k < |ids|
    requires Clean(g, ids[k]) && u in Sources(g, ids[k])
    ensures Clean(g, u) && u in ids[..k]
  {
    var id := ids[k];
    SourceIsClean(g, u, id);
    CleanIsUntainted(g, id);
    hide Clean, Tainted, LiveArcs;
    var c :| c in g.connections && IsLive(g.nodes.Keys, c) && c.dst == id && c.src == u;
    assert id in ids && u in ids;
    if id == DESTINATION_NODE_ID {
      var j :| 0 <= j < |ids| && ids[j] == u;
      assert k == |ids| - 1;
      assert ids[..k][j] == u;
    } else {
      var j :| 0 <= j < drained && ids[..drained][j] == id;
      assert j == k && ids[..drained][..k] == ids[..k];
    }
  }

  lemma SourceIsClean<S>(g: Graph<S>, u: NodeId, id: NodeId)
    requires Clean(g, id) && u in Sources(g, id)
    ensures Clean(g, u) && u in g.nodes && u != id
  {
    var arcs := LiveArcs(g.nodes.Keys, g.connections);
    SourceIsGrounded(g, u, id);
    var c :| c in g.connections && IsLive(g.nodes.Keys, c) && c.dst == id && c.src == u;
    assert (u, id) in arcs;
    if Precedes(arcs, DESTINATION_NODE_ID, u) {
      assert Reaches(arcs, DESTINATION_NODE_ID, u);
      ExtendWalk(arcs, DESTINATION_NODE_ID, u, id);
      assert false;
    }
  }

  lemma CleanIsUntainted<S>(g: Graph<S>, id: NodeId)
    requires Clean(g, id)
    ensures id != DESTINATION_NODE_ID ==> !Tainted(LiveArcs(g.nodes.Keys, g.connections), DestinationOf(g.nodes), id)
  {
    var arcs := LiveArcs(g.nodes.Keys, g.connections);
    if p :| id != DESTINATION_NODE_ID && WalkFromTo(arcs, p, DESTINATION_NODE_ID, id) {
      assert false;
    }
  }

  /** Every clean node of `done` holds its dataflow meaning. */
  ghost predicate AllMean<S, A>(dsp: Dsp<S, A>, g: Graph<S>, q: Quantum, r: Rendering<S, A>, done: seq<NodeId>)
    requires Fits(g, r)
  {
    forall u :: u in done && Clean(g, u) ==> HoldsMeaning(dsp, g, q, r, u)
  }

  /** After the first `k` nodes of a schedule have run, each clean one among them holds its
      dataflow meaning, in its buffer and in its state. */
  lemma {:induction false} RenderMeans<S, A>(dsp: Dsp<S, A>, g: Graph<S>, q: Quantum, r: Rendering<S, A>,
      ids: seq<NodeId>, drained: nat, k: nat)
    requires SchedulesGraph(g, ids, drained) && k <= |ids|
    requires Fits(g, r) && r.nodes == g.nodes && forall j :: 0 <= j < |ids| ==> ids[j] in g.nodes
    ensures AllMean(dsp, g, q, RenderAll(dsp, g, q, r, ids[..k]), ids[..k])
  {
    hide SchedulesGraph, Clean, HoldsMeaning, RenderOne;
    if k > 0 {
      var done := ids[..k - 1];
      assert ids[..k][..k - 1] == done;
      assert RenderAll(dsp, g, q, r, ids[..k]) == RenderOne(dsp, g, q, RenderAll(dsp, g, q, r, done), ids[k - 1]);
      hide RenderAll, Fits, AllMean;
      RenderMeans(dsp, g, q, r, ids, drained, k - 1);
      RenderMeansStep(dsp, g, q, r, ids, drained, k - 1);
    }
  }

  lemma RenderMeansStep<S, A>(dsp: Dsp<S, A>, g: Graph<S>, q: Quantum, r: Rendering<S, A>, ids: seq<NodeId>,
      drained: nat, k: nat)
    requires SchedulesGraph(g, ids, drained) && k < |ids| && Fits(g, r) && r.nodes == g.nodes
    requires forall j :: 0 <= j < |ids| ==> ids[j] in g.nodes
    requires AllMean(dsp, g, q, RenderAll(dsp, g, q, r, ids[..k]), ids[..k])
    ensures AllMean(dsp, g, q, RenderOne(dsp, g, q, RenderAll(dsp, g, q, r, ids[..k]), ids[k]), ids[..k + 1])
  {
    var id, before := ids[k], RenderAll(dsp, g, q, r, ids[..k]);
    assert id !in ids[..k];
    var after := RenderOne(dsp, g, q, before, id);
    if Clean(g, id) {
      RenderLeavesOthers(dsp, g, q, r, ids[..k], id);
      forall u | u in Sources(g, id) ensures Clean(g, u) && u in ids[..k] {
        CleanSourceFirst(g, ids, drained, k, u);
      }
      FireMeans(dsp, g, q, before, id);
    }
    forall u | u in ids[..k + 1] && Clean(g, u) ensures HoldsMeaning(dsp, g, q, after, u) {
      if u != id {
        assert u in ids[..k];
        assert HoldsMeaning(dsp, g, q, before, u);
      }
    }
  }

  ghost predicate HoldsMeaning<S, A>(dsp: Dsp<S, A>, g: Graph<S>, q: Quantum, r: Rendering<S, A>, id: NodeId)
    requires Fits(g, r) && Grounded(g, id)
  {
    && id in g.nodes
    && |r.buffers[id]| >= q.length && r.buffers[id][..q.length] == Meaning(dsp, g, q, id).output
    && r.nodes[id] == g.nodes[id].(state := Meaning(dsp, g, q, id).state)
  }

  lemma FireMeans<S, A>(dsp: Dsp<S, A>, g: Graph<S>, q: Quantum, r: Rendering<S, A>, id: NodeId)
    requires Fits(g, r) && id in g.nodes && Grounded(g, id) && r.nodes[id] == g.nodes[id]
    requires forall u :: u in Sources(g, id) ==> Grounded(g, u) && HoldsMeaning(dsp, g, q, r, u)
    ensures HoldsMeaning(dsp, g, q, RenderOne(dsp, g, q, r, id), id)
  {
    forall u | u in Sources(g, id) ensures u in g.nodes && Ancestors(g, u) < Ancestors(g, id) && Grounded(g, u) {
      SourceIsGrounded(g, u, id);
    }
    var outputs := map u | u in Sources(g, id) :: Meaning(dsp, g, q, u).output;
    MixedAgrees(dsp, g, q, r.buffers, outputs, id, |g.connections|);
  }

  /** Without cycles and without an edge out of the destination, every node is clean. */
  lemma AcyclicIsClean<S>(g: Graph<S>, id: NodeId)
    requires forall c :: !OnCycle(LiveArcs(g.nodes.Keys, g.connections), c)
    requires forall c :: c in g.connections && IsLive(g.nodes.Keys, c) ==> c.src != DESTINATION_NODE_ID
    ensures Clean(g, id)
  {
    var arcs := LiveArcs(g.nodes.Keys, g.connections);
    forall p | |p| >= 2 && p[0] == DESTINATION_NODE_ID ensures !IsWalk(arcs, p) {
      assert (p[0], p[1]) !in arcs;
    }
  }

  // ------------------------------------------------------------ the render loop

  /** The mix of the edges listed in `slots`, as the render loop folds them. */
  ghost function MixedEdges<S, A>(dsp: Dsp<S, A>, q: Quantum, edges: seq<Edge>, denseIds: seq<NodeId>,
                                  buffers: map<NodeId, seq<A>>, slots: seq<nat>): (r: Option<seq<A>>)
    requires EndpointsBelow(edges, |denseIds|) && (forall j :: 0 <= j < |slots| ==> slots[j] < |edges|)
    requires forall i :: 0 <= i < |denseIds| ==> denseIds[i] in buffers
    ensures r.Some? ==> |r.value| == q.length
  {
    if slots == [] then None
    else
      var e := edges[slots[|slots| - 1]];
      var before := MixedEdges(dsp, q, edges, denseIds, buffers, slots[..|slots| - 1]);
      var mix := if before.Some? then before.value else Silence(dsp, q.length);
      Some(MixInto(dsp, mix, buffers[denseIds[e.src]], q, e.srcPort, e.dstPort))
  }

  /** Folding a node's slice of the edge array is folding the connection list: this is what
      the stability of the counting sort buys. */
  lemma {:induction false} SliceIsConnectionOrder<S, A>(dsp: Dsp<S, A>, g: Graph<S>, q: Quantum,
      denseIds: seq<NodeId>, denseIndex: map<NodeId, nat>,
      buffers: map<NodeId, seq<A>>, v: nat, k: nat)
    requires IsDense(g.nodes.Keys, denseIds, denseIndex) && v < |denseIds| && k <= |g.connections|
    requires g.nodes.Keys <= buffers.Keys
    requires EndpointsBelow(Edges(g.nodes, denseIndex, g.connections), |denseIds|)
    ensures var slots := Positions(Dsts(Edges(g.nodes, denseIndex, g.connections[..k])), v);
            && (forall j :: 0 <= j < |slots| ==> slots[j] < |Edges(g.nodes, denseIndex, g.connections)|)
            && MixedEdges(dsp, q, Edges(g.nodes, denseIndex, g.connections), denseIds, buffers, slots)
               == Mixed(dsp, g, q, buffers, denseIds[v], k)
  {
    hide MixInto, EndpointsBelow, Silence, Edges, Positions, Mixed, MixedEdges;
    var edges := Edges(g.nodes, denseIndex, g.connections);
    if k == 0 {
      assert g.connections[..0] == [];
      NoSlots(dsp, g, q, denseIds, denseIndex, buffers, v);
    } else {
      SliceIsConnectionOrder(dsp, g, q, denseIds, denseIndex, buffers, v, k - 1);
      var c := g.connections[k - 1];
      var earlier := Positions(Dsts(Edges(g.nodes, denseIndex, g.connections[..k - 1])), v);
      NextSlot(g.nodes, denseIndex, g.connections, k, v);
      assert IsLive(g.nodes.Keys, c) ==> (denseIndex[c.dst] == v <==> c.dst == denseIds[v]);
      NextMixed(dsp, g, q, buffers, denseIds[v], k);
      if IsLive(g.nodes.Keys, c) && c.dst == denseIds[v] {
        var at := |Edges(g.nodes, denseIndex, g.connections[..k - 1])|;
        NextMixedEdge(dsp, q, edges, denseIds, buffers, earlier, at);
      }
    }
  }

  lemma NoSlots<S, A>(dsp: Dsp<S, A>, g: Graph<S>, q: Quantum, denseIds: seq<NodeId>, denseIndex: map<NodeId, nat>,
      buffers: map<NodeId, seq<A>>, v: nat)
    requires IsDense(g.nodes.Keys, denseIds, denseIndex) && v < |denseIds| && g.nodes.Keys <= buffers.Keys
    requires EndpointsBelow(Edges(g.nodes, denseIndex, g.connections), |denseIds|)
    ensures Positions(Dsts(Edges(g.nodes, denseIndex, [])), v) == []
    ensures MixedEdges(dsp, q, Edges(g.nodes, denseIndex, g.connections), denseIds, buffers, []) == None
    ensures Mixed(dsp, g, q, buffers, denseIds[v], 0) == None
  {
  }

  /** What connection `k - 1` adds to the mix of `id`. */
  lemma NextMixed<S, A>(dsp: Dsp<S, A>, g: Graph<S>, q: Quantum, buffers: map<NodeId, seq<A>>, id: NodeId, k: nat)
    requires 0 < k <= |g.connections| && g.nodes.Keys <= buffers.Keys
    ensures var c, before := g.connections[k - 1], Mixed(dsp, g, q, buffers, id, k - 1);
            Mixed(dsp, g, q, buffers, id, k) ==
            if IsLive(g.nodes.Keys, c) && c.dst == id then
              Some(MixInto(dsp, if before.Some? then before.value else Silence(dsp, q.length),
                           buffers[c.src], q, SourcePort(g.nodes, c), TargetPort(g.nodes, c)))
            else before
  {
    hide MixInto, Silence;
  }

  /** What one more slot adds to the mix of an edge slice. */
  lemma NextMixedEdge<S, A>(dsp: Dsp<S, A>, q: Quantum, edges: seq<Edge>, denseIds: seq<NodeId>,
                            buffers: map<NodeId, seq<A>>, slots: seq<nat>, at: nat)
    requires EndpointsBelow(edges, |denseIds|) && (forall j :: 0 <= j < |slots| ==> slots[j] < |edges|) && at < |edges|
    requires forall i :: 0 <= i < |denseIds| ==> denseIds[i] in buffers
    ensures var e, before := edges[at], MixedEdges(dsp, q, edges, denseIds, buffers, slots);
            MixedEdges(dsp, q, edges, denseIds, buffers, slots + [at]) ==
            Some(MixInto(dsp, if before.Some? then before.value else Silence(dsp, q.length),
                         buffers[denseIds[e.src]], q, e.srcPort, e.dstPort))
  {
    hide MixInto, Silence;
    assert (slots + [at])[..|slots|] == slots;
  }

  /** The slot list of `v` grows by connection `k - 1` exactly when that is live and feeds `v`. */
  lemma NextSlot<S>(nodes: map<NodeId, Node<S>>, denseIndex: map<NodeId, nat>, connections: seq<Connection>, k: nat,
      v: nat)
    requires denseIndex.Keys == nodes.Keys && 0 < k <= |connections|
    ensures var before, after := Edges(nodes, denseIndex, connections[..k - 1]),
            Edges(nodes, denseIndex, connections[..k]);
            var c := connections[k - 1];
            if IsLive(nodes.Keys, c) && denseIndex[c.dst] == v then
              && |before| < |Edges(nodes, denseIndex, connections)|
              && Edges(nodes, denseIndex, connections)[|before|] == EdgeOf(nodes, denseIndex, c)
              && Positions(Dsts(after), v) == Positions(Dsts(before), v) + [|before|]
            else
              Positions(Dsts(after), v) == Positions(Dsts(before), v)
  {
    var c := connections[k - 1];
    var before, after := Edges(nodes, denseIndex, connections[..k - 1]), Edges(nodes, denseIndex, connections[..k]);
    assert connections[..k][..k - 1] == connections[..k - 1];
    EdgesPrefix(nodes, denseIndex, connections, k);
    if IsLive(nodes.Keys, c) {
      var e := EdgeOf(nodes, denseIndex, c);
      assert after == before + [e];
      assert Dsts(after) == Dsts(before) + [e.dst];
      assert Dsts(after)[..|before|] == Dsts(before);
    } else {
      assert after == before;
    }
  }

  /** Gather one node's input from its slice of the edge array. */
  method MixInputs<S, A>(dsp: Dsp<S, A>, q: Quantum, csr: Adjacency, buffers: map<NodeId, seq<A>>, slots: seq<nat>,
      ghost edges: seq<Edge>)
    returns (input: Option<seq<A>>)
    requires EndpointsBelow(edges, |csr.denseIds|) && (forall j :: 0 <= j < |slots| ==> slots[j] < |edges|)
    requires csr.edgeSrc == Srcs(edges) && csr.edgeSrcPort == SrcPorts(edges) && csr.edgeDstPort == DstPorts(edges)
    requires forall i :: 0 <= i < |csr.denseIds| ==> csr.denseIds[i] in buffers
    ensures input == MixedEdges(dsp, q, edges, csr.denseIds, buffers, slots)
  {
    var mix := Silence(dsp, q.length);
    var hasInput := false;
    for slot := 0 to |slots|
      invariant |mix| == q.length && (!hasInput ==> mix == Silence(dsp, q.length))
      invariant (if hasInput then Some(mix) else None)
                == MixedEdges(dsp, q, edges, csr.denseIds, buffers, slots[..slot])
    {
      var edge := slots[slot];
      assert slots[..slot + 1][..slot] == slots[..slot];
      var srcId := csr.denseIds[csr.edgeSrc[edge]];
      if srcId in buffers {
        mix := MixEdge(dsp, mix, buffers[srcId], q, csr.edgeSrcPort[edge], csr.edgeDstPort[edge]);
        hasInput := true;
      }
    }
    assert slots[..|slots|] == slots;
    input := if hasInput then Some(mix) else None;
  }

  /** Render one node: mix its inputs, clear and rewrite its buffer, advance its state. */
  method RenderNode<S, A>(dsp: Dsp<S, A>, q: Quantum, csr: Adjacency, node: nat,
                          nodes: map<NodeId, Node<S>>, buffers: map<NodeId, seq<A>>, ghost g: Graph<S>)
    returns (nodes': map<NodeId, Node<S>>, buffers': map<NodeId, seq<A>>)
    requires Describes(csr, g) && Fits(g, Rendering(nodes, buffers)) && node < |csr.denseIds|
    ensures Rendering(nodes', buffers') == RenderOne(dsp, g, q, Rendering(nodes, buffers), csr.denseIds[node])
  {
    var id := csr.denseIds[node];
    ghost var edges := Edges(g.nodes, csr.denseIndex, g.connections);
    EdgesBelow(g.nodes, csr.denseIndex, g.connections, |csr.denseIds|);
    assert GroupAt(csr.inputStart, csr.inputEdges, Dsts(edges), Ids(|edges|), node);
    var slots := csr.inputEdges[csr.inputStart[node]..csr.inputStart[node + 1]];
    assert slots == Positions(Dsts(edges), node);
    assert g.connections[..|g.connections|] == g.connections;
    SliceIsConnectionOrder(dsp, g, q, csr.denseIds, csr.denseIndex, buffers, node, |g.connections|);
    var input := MixInputs(dsp, q, csr, buffers, slots, edges);
    var fired := Fire(dsp, nodes[id].state, input, q);
    nodes' := nodes[id := nodes[id].(state := fired.state)];
    buffers' := buffers[id := Overlay(buffers[id], fired.output)];
  }

  /** The render loop over the whole processing order. */
  method RenderOrder<S, A>(dsp: Dsp<S, A>, q: Quantum, csr: Adjacency, order: seq<nat>,
                           nodes: map<NodeId, Node<S>>, buffers: map<NodeId, seq<A>>, ghost g: Graph<S>,
                           ghost ids: seq<NodeId>)
    returns (nodes': map<NodeId, Node<S>>, buffers': map<NodeId, seq<A>>)
    requires (order != [] ==> Describes(csr, g)) && Fits(g, Rendering(nodes, buffers)) && |ids| == |order|
    requires forall k :: 0 <= k < |order| ==> && order[k] < |csr.denseIds| && ids[k] == csr.denseIds[order[k]]
                                              && ids[k] in g.nodes
    ensures Rendering(nodes', buffers') == RenderAll(dsp, g, q, Rendering(nodes, buffers), ids)
  {
    hide Describes, RenderOne, RenderAll;
    nodes', buffers' := nodes, buffers;
    ghost var r := Rendering(nodes, buffers);
    RenderNothing(dsp, g, q, r, ids);
    for k := 0 to |order|
      invariant RenderedTo(dsp, g, q, r, ids, k, Rendering(nodes', buffers'))
    {
      RenderedNext(dsp, g, q, r, ids, k, Rendering(nodes', buffers'));
      nodes', buffers' := RenderNode(dsp, q, csr, order[k], nodes', buffers', g);
    }
    assert ids[..|order|] == ids;
  }

  /** `r'` is the state after the first `k` nodes of `ids`. */
  ghost predicate RenderedTo<S, A>(dsp: Dsp<S, A>, g: Graph<S>, q: Quantum, r: Rendering<S, A>, ids: seq<NodeId>,
      k: nat, r': Rendering<S, A>) {
    Fits(g, r) && k <= |ids| && (forall j :: 0 <= j < |ids| ==> ids[j] in g.nodes)
    && r' == RenderAll(dsp, g, q, r, ids[..k])
  }

  lemma RenderNothing<S, A>(dsp: Dsp<S, A>, g: Graph<S>, q: Quantum, r: Rendering<S, A>, ids: seq<NodeId>)
    requires Fits(g, r) && forall j :: 0 <= j < |ids| ==> ids[j] in g.nodes
    ensures RenderedTo(dsp, g, q, r, ids, 0, r)
  {
  }

  lemma RenderedNext<S, A>(dsp: Dsp<S, A>, g: Graph<S>, q: Quantum, r: Rendering<S, A>, ids: seq<NodeId>, k: nat,
      r': Rendering<S, A>)
    requires RenderedTo(dsp, g, q, r, ids, k, r') && k < |ids|
    ensures Fits(g, r') && RenderedTo(dsp, g, q, r, ids, k + 1, RenderOne(dsp, g, q, r', ids[k]))
  {
    hide RenderOne;
    assert ids[..k + 1][..k] == ids[..k];
  }

  lemma {:induction false} RenderKeepsShape<S, A>(dsp: Dsp<S, A>, g: Graph<S>, q: Quantum, r: Rendering<S, A>,
      ids: seq<NodeId>)
    requires Fits(g, r) && forall k :: 0 <= k < |ids| ==> ids[k] in g.nodes
    ensures Shape(RenderAll(dsp, g, q, r, ids).nodes) == Shape(r.nodes)
  {
    hide RenderOne, Shape;
    if ids != [] {
      RenderKeepsShape(dsp, g, q, r, ids[..|ids| - 1]);
      OneKeepsShape(dsp, g, q, RenderAll(dsp, g, q, r, ids[..|ids| - 1]), ids[|ids| - 1]);
    }
  }

  lemma OneKeepsShape<S, A>(dsp: Dsp<S, A>, g: Graph<S>, q: Quantum, r: Rendering<S, A>, id: NodeId)
    requires Fits(g, r) && id in g.nodes
    ensures Shape(RenderOne(dsp, g, q, r, id).nodes) == Shape(r.nodes)
  {
  }
}
