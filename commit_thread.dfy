/** The commit thread's mutable locals as an object, with the loop body as methods. */
module CommitThread {
  import opened BftTypes
  import opened QuorumOracle
  import opened CommitAggregator

  class Aggregator {
    var phase: Phase
    var chainHeight: usize
    /** The vote buffer. The loop never appends to it; a client may assign it. */
    var result: seq<Target>
    var node0Height: usize
    var node1Height: usize
    var node2Height: usize
    var node3Height: usize
    var heightResult: map<usize, Target>
    /** Every message sent to a validator mailbox, in send order. */
    var outbox: seq<Envelope>

    /** The abstract state the specification functions work on. */
    function View(): Snapshot
      reads this
    {
      var heights := [node0Height, node1Height, node2Height, node3Height];
      assert |heights| == 4;
      Snapshot(phase, chainHeight, result, heights, heightResult, outbox)
    }

    /** The thread's locals as they are before the loop starts. */
    constructor ()
      ensures View() == Init()
    {
      phase := Running;
      chainHeight := INITIAL_CHAIN_HEIGHT;
      result := [];
      node0Height, node1Height, node2Height, node3Height := 0, 0, 0, 0;
      heightResult := map[];
      outbox := [];
    }

    /** Handle one commit record: track the sender's height, check for a fork,
        and send Status and Feed back to the sender. */
    method Receive(c: Commit, authorities: seq<Address>, newProposal: Target)
      requires phase == Running
      modifies this
      ensures View() == CommitAggregator.Receive(old(View()), c, authorities, newProposal)
    {
      var slot := SenderSlot(c.address);
      if slot.Some? {
        if c.height == USIZE_MAX { phase := Panicked; return; }
        SetNodeHeight(slot.value, c.height + 1);
      }

      if c.height in heightResult {
        if c.proposal != heightResult[c.height] {
          phase := Forked;
          return;
        }
      } else {
        heightResult := heightResult[c.height := c.proposal];
      }

      if |c.address| == 0 { phase := Panicked; return; }
      var to := c.address[0];
      outbox := outbox + [Envelope(to, Status(c.height, None, authorities))];
      if c.height == USIZE_MAX { phase := Panicked; return; }
      outbox := outbox + [Envelope(to, Feed(c.height + 1, newProposal))];
    }

    /** Assign `node_k_height` for the node with index k. */
    method SetNodeHeight(k: nat, h: usize)
      requires k < 4
      modifies this
      ensures View() == old(View()).(nodeHeights := old(View()).nodeHeights[k := h])
    {
      if k == 0 { node0Height := h; }
      else if k == 1 { node1Height := h; }
      else if k == 2 { node2Height := h; }
      else { node3Height := h; }
    }

    /** The quorum check that ends every pass of the loop. */
    method QuorumCheck()
      requires phase == Running
      modifies this
      ensures View() == CommitAggregator.QuorumStep(old(View()))
    {
      if |result| >= QUORUM {
        var verdict := IsSuccess(result);
        match verdict {
          case CounterOverflow =>
            phase := Panicked;
          case Counted(success) =>
            if success {
              result := [];
              if chainHeight == USIZE_MAX { phase := Panicked; return; }
              chainHeight := chainHeight + 1;
            } else {
              phase := QuorumFailed;
            }
        }
      }
    }

    /** One pass of the loop with a received commit. */
    method Step(a: Arrival)
      requires phase == Running
      modifies this
      ensures View() == CommitAggregator.Step(old(View()), a)
    {
      Receive(a.commit, a.authorities, a.proposal);
      if phase == Running {
        QuorumCheck();
      }
    }

    /** The loop over the commit channel, until the records run out or the
        thread stops. */
    method Serve(trace: seq<Arrival>)
      requires phase == Running
      modifies this
      ensures View() == Run(old(View()), trace)
    {
      ghost var start := View();
      var i := 0;
      while i < |trace| && phase == Running
        invariant 0 <= i <= |trace|
        invariant View() == Run(start, trace[..i])
      {
        RunPrefix(start, trace, i);
        Step(trace[i]);
        i := i + 1;
      }
      RunStopsEarly(start, trace, i);
    }
  }

  /** Extending a prefix of the trace by one arrival is one more pass. */
  lemma RunPrefix(s: Snapshot, trace: seq<Arrival>, i: nat)
    requires i < |trace|
    ensures Run(s, trace[..i + 1]) == CommitAggregator.Step(Run(s, trace[..i]), trace[i])
  {
    assert trace[..i + 1][..i] == trace[..i];
  }

  /** Once a prefix of the trace has stopped the thread, the rest of it changes nothing. */
  lemma RunStopsEarly(s: Snapshot, trace: seq<Arrival>, i: nat)
    requires i <= |trace|
    requires i < |trace| ==> Run(s, trace[..i]).phase != Running
    ensures Run(s, trace) == Run(s, trace[..i])
  {
    if i < |trace| {
      RunAppend(s, trace[..i], trace[i..]);
      assert trace[..i] + trace[i..] == trace;
    } else {
      assert trace[..i] == trace;
    }
  }

  /** Running two traces one after the other is running their concatenation. */
  lemma {:induction false} RunAppend(s: Snapshot, first: seq<Arrival>, second: seq<Arrival>)
    ensures Run(Run(s, first), second) == Run(s, first + second)
    decreases |second|
  {
    if second != [] {
      var init := second[..|second| - 1];
      RunAppend(s, first, init);
      assert (first + second)[..|first + second| - 1] == first + init;
      assert (first + second)[|first + second| - 1] == second[|second| - 1];
    } else {
      assert first + second == first;
    }
  }
}
