/** What a node hears and what its turn does, sample by sample: in terms of the connections, the
    port counts and the node's processor alone. */
module Signal {
  import opened Wrappers
  import opened AudioGraph
  import opened Csr
  import opened Renderer
  import opened Feedback

  /** A connection between existing nodes that ends at `id`. */
  ghost predicate IsInput<S>(g: Graph<S>, c: Connection, id: NodeId) {
    c.src in g.nodes && c.dst in g.nodes && c.dst == id
  }

  /** What a connection adds at position `i` of its target's bus. A source with several outputs
      sends the channel of the connection's output port, a target with several inputs takes the
      sample on the channel of the connection's input port only, as the frame's mean if the source
      sends all channels; both work on whole frames. Anything else is added as it is. */
  ghost function Sent<S, A>(dsp: Dsp<S, A>, g: Graph<S>, q: Quantum, c: Connection, buffer: seq<A>, i: nat): Option<A>
    requires c.src in g.nodes && c.dst in g.nodes
  {
    var n, channels: nat := if |buffer| < q.length then |buffer| else q.length, q.channels;
    var split, merge := g.nodes[c.src].outputPorts >= 2, g.nodes[c.dst].inputPorts >= 2;
    var first := i - i % channels;
    if !split && !merge then
      if i < n then Some(buffer[i]) else None
    else if n < first + channels then None
    else if merge && i % channels != Clamped(c.dstInput, channels) then None
    else if split then Some(buffer[first + Clamped(c.srcOutput, channels)])
    else Some(dsp.mean(buffer[first..first + channels]))
  }

  /** A port number beyond the last channel means the last channel. */
  function Clamped(port: nat, channels: nat): (r: nat)
    requires channels > 0
    ensures r < channels
  {
    if port < channels then port else channels - 1
  }

  /** Position `i` of the bus of `id` after the first `k` connections, added up from silence in
      connection order. */
  ghost function Sum<S, A>(dsp: Dsp<S, A>, g: Graph<S>, q: Quantum, buffers: map<NodeId, seq<A>>, id: NodeId, k: nat,
      i: nat): A
    requires k <= |g.connections| && Sources(g, id) <= buffers.Keys
  {
    if k == 0 then dsp.zero
    else
      var c, before := g.connections[k - 1], Sum(dsp, g, q, buffers, id, k - 1, i);
      if !IsInput(g, c, id) then before
      else
        assert c.src in Sources(g, id);
        var sent := Sent(dsp, g, q, c, buffers[c.src], i);
        if sent.Some? then dsp.add(before, sent.value) else before
  }

  ghost predicate HasInput<S>(g: Graph<S>, id: NodeId, k: nat)
    requires k <= |g.connections|
  {
    exists j :: 0 <= j < k && IsInput(g, g.connections[j], id)
  }

  /** The two accounts of one connection's share agree. */
  lemma SentIsContribution<S, A>(dsp: Dsp<S, A>, g: Graph<S>, q: Quantum, c: Connection, buffer: seq<A>, i: nat)
    requires c.src in g.nodes && c.dst in g.nodes
    ensures Sent(dsp, g, q, c, buffer, i)
         == Contribution(dsp, buffer, q, SourcePort(g.nodes, c), TargetPort(g.nodes, c), i)
  {
    var n, channels: nat := Min(|buffer|, q.length), q.channels;
    assert i - i % channels == FrameStart(i, channels) by {
      assert i == i / channels * channels + i % channels;
    }
    FrameFits(i, channels, n);
  }

  /** A frame fits below `n` exactly when its positions lie among the whole frames. */
  lemma FrameFits(i: nat, channels: Positive, n: nat)
    ensures FrameStart(i, channels) + channels <= n <==> i < WholeFrames(n, channels)
  {
    var f, frames := i / channels, n / channels;
    assert i == f * channels + i % channels && n == frames * channels + n % channels;
    if f < frames {
      MulMonotone(f + 1, frames, channels);
    } else {
      MulMonotone(frames, f, channels);
    }
  }

  /** The mix is the sum, and there is one exactly when some connection ends at the node. */
  lemma {:induction false} MixIsSum<S, A>(dsp: Dsp<S, A>, g: Graph<S>, q: Quantum, buffers: map<NodeId, seq<A>>,
      id: NodeId, k: nat)
    requires k <= |g.connections| && Sources(g, id) <= buffers.Keys
    ensures var mix := Mixed(dsp, g, q, buffers, id, k);
            && (mix.Some? <==> HasInput(g, id, k))
            && (mix.Some? ==> |mix.value| == q.length
                              && forall i :: 0 <= i < q.length ==> mix.value[i] == Sum(dsp, g, q, buffers, id, k, i))
            && (mix.None? ==> forall i: nat :: Sum(dsp, g, q, buffers, id, k, i) == dsp.zero)
  {
    hide Sent, Contribution;
    if k > 0 {
      MixIsSum(dsp, g, q, buffers, id, k - 1);
      var c := g.connections[k - 1];
      if IsInput(g, c, id) {
        assert c.src in Sources(g, id);
        forall i: nat ensures Sent(dsp, g, q, c, buffers[c.src], i)
            == Contribution(dsp, buffers[c.src], q, SourcePort(g.nodes, c), TargetPort(g.nodes, c), i)
        {
          SentIsContribution(dsp, g, q, c, buffers[c.src], i);
        }
      }
    }
  }

  /** What a node's processor is handed: the sums over all positions, or an empty slice when no
      connection ends at the node. */
  ghost function Input<S, A>(dsp: Dsp<S, A>, g: Graph<S>, q: Quantum, buffers: map<NodeId, seq<A>>, id: NodeId): seq<A>
    requires Sources(g, id) <= buffers.Keys
  {
    if HasInput(g, id, |g.connections|)
    then seq(q.length, i requires 0 <= i < q.length => Sum(dsp, g, q, buffers, id, |g.connections|, i))
    else []
  }

  /** The processor of `id`, called in `state` on what `buffers` send it, leaves `state'` and
      writes the first samples of `buffer'`. */
  ghost predicate Steps<S, A>(dsp: Dsp<S, A>, g: Graph<S>, q: Quantum, buffers: map<NodeId, seq<A>>, id: NodeId,
      state: S, state': S, buffer': seq<A>)
    requires Sources(g, id) <= buffers.Keys
  {
    var called := dsp.step(state, Input(dsp, g, q, buffers, id), q.length, q.frames);
    && state' == called.0 && |buffer'| >= q.length
    && forall i :: 0 <= i < q.length ==> buffer'[i] == called.1(i)
  }

  lemma FireSteps<S, A>(dsp: Dsp<S, A>, g: Graph<S>, q: Quantum, buffers: map<NodeId, seq<A>>, id: NodeId, state: S)
    requires Sources(g, id) <= buffers.Keys
    ensures var fired := Fire(dsp, state, Mixed(dsp, g, q, buffers, id, |g.connections|), q);
            Steps(dsp, g, q, buffers, id, state, fired.state, fired.output)
  {
    hide Mixed, Sum, HasInput;
    MixIsSum(dsp, g, q, buffers, id, |g.connections|);
    var mix := Mixed(dsp, g, q, buffers, id, |g.connections|);
    var input := if mix.Some? then mix.value else [];
    assert input == Input(dsp, g, q, buffers, id);
  }

  /** A node's turn: its processor is called once on what its sources' buffers send it, its buffer
      keeps what it held beyond the quantum, and nothing else changes. */
  lemma TurnSteps<S, A>(dsp: Dsp<S, A>, g: Graph<S>, q: Quantum, r: Rendering<S, A>, id: NodeId)
    requires Fits(g, r) && id in g.nodes
    ensures var r' := RenderOne(dsp, g, q, r, id);
            && Steps(dsp, g, q, r.buffers, id, r.nodes[id].state, r'.nodes[id].state, r'.buffers[id])
            && r'.nodes[id].inputPorts == r.nodes[id].inputPorts && r'.nodes[id].outputPorts == r.nodes[id].outputPorts
            && (forall i :: q.length <= i < |r'.buffers[id]| ==>
                  i < |r.buffers[id]| && r'.buffers[id][i] == r.buffers[id][i])
            && |r'.buffers[id]| == (if |r.buffers[id]| < q.length then q.length else |r.buffers[id]|)
            && (forall u :: u in g.nodes && u != id ==> r'.nodes[u] == r.nodes[u] && r'.buffers[u] == r.buffers[u])
  {
    hide Mixed, Input;
    FireSteps(dsp, g, q, r.buffers, id, r.nodes[id].state);
  }

  /** The dataflow meaning of a node: its processor called in its present state on what the
      meanings of its sources send it. */
  lemma MeaningSteps<S, A>(dsp: Dsp<S, A>, g: Graph<S>, q: Quantum, id: NodeId, outputs: map<NodeId, seq<A>>)
    requires id in g.nodes && Grounded(g, id) && outputs.Keys == Sources(g, id)
    requires forall u :: u in Sources(g, id) ==>
               u in g.nodes && Grounded(g, u) && outputs[u] == Meaning(dsp, g, q, u).output
    ensures Steps(dsp, g, q, outputs, id, g.nodes[id].state, Meaning(dsp, g, q, id).state,
            Meaning(dsp, g, q, id).output)
  {
    hide Mixed, Input, Fire, Grounded;
    forall u | u in Sources(g, id) ensures Ancestors(g, u) < Ancestors(g, id) && Grounded(g, u) && u in g.nodes {
      SourceIsGrounded(g, u, id);
    }
    FireSteps(dsp, g, q, outputs, id, g.nodes[id].state);
    assert outputs == map u | u in Sources(g, id) :: Meaning(dsp, g, q, u).output;
  }

  /** Every node of `ids` has been called once, in its old state, on the buffers it saw. */
  ghost predicate AllStepped<S, A>(dsp: Dsp<S, A>, g: Graph<S>, q: Quantum, r: Rendering<S, A>, ids: seq<NodeId>,
      rendered: Rendering<S, A>)
    requires Runs(g, r, ids) && Fits(g, rendered)
  {
    forall k :: 0 <= k < |ids| ==> SteppedAt(dsp, g, q, r, ids, rendered, k)
  }

  ghost predicate SteppedAt<S, A>(dsp: Dsp<S, A>, g: Graph<S>, q: Quantum, r: Rendering<S, A>, ids: seq<NodeId>,
      rendered: Rendering<S, A>, k: nat)
    requires Runs(g, r, ids) && Fits(g, rendered) && k < |ids|
  {
    Steps(dsp, g, q, Seen(g, ids, ids[k], r.buffers, rendered.buffers), ids[k],
          r.nodes[ids[k]].state, rendered.nodes[ids[k]].state, rendered.buffers[ids[k]])
  }

  /** The equation of a whole quantum, for every node of every schedule. */
  lemma RunSteps<S, A>(dsp: Dsp<S, A>, g: Graph<S>, q: Quantum, r: Rendering<S, A>, ids: seq<NodeId>)
    requires Runs(g, r, ids)
    ensures AllStepped(dsp, g, q, r, ids, RenderAll(dsp, g, q, r, ids))
  {
    hide Mixed, Input, Seen, RenderAll, Fire;
    var rendered := RenderAll(dsp, g, q, r, ids);
    forall k | 0 <= k < |ids| ensures SteppedAt(dsp, g, q, r, ids, rendered, k) {
      var id := ids[k];
      var seen := Seen(g, ids, id, r.buffers, rendered.buffers);
      DelayedDataflow(dsp, g, q, r, ids, k);
      FireSteps(dsp, g, q, seen, id, r.nodes[id].state);
    }
  }
}
