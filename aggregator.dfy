/** The commit thread of the harness as a sequential state machine, one commit
    record at a time. `process::exit` and panics become terminal phases. */
module CommitAggregator {
  import opened BftTypes
  import opened QuorumOracle

  /** The value `chain_height` starts from. */
  const INITIAL_CHAIN_HEIGHT: usize := 2

  /** Running, or stopped by `exit(1)` after a fork, by `exit(1)` after a failed
      quorum check, or by a panic (an arithmetic overflow or an empty address). */
  datatype Phase = Running | Forked | QuorumFailed | Panicked

  /** The tracked heights of nodes [0], [1], [2] and [3]. */
  type Heights = h: seq<usize> | |h| == 4 witness [0, 0, 0, 0]

  /** The commit thread's local state. `outbox` is every message sent so far. */
  datatype Snapshot = Snapshot(
    phase: Phase,
    chainHeight: usize,
    result: seq<Target>,
    nodeHeights: Heights,
    heightResult: map<usize, Target>,
    outbox: seq<Envelope>)

  /** One pass of the loop: the received commit, and what `generate_auth_list`
      and `generate_proposal` return during that pass. */
  datatype Arrival = Arrival(commit: Commit, authorities: seq<Address>, proposal: Target)

  function Init(): (s: Snapshot)
    ensures s.phase == Running && s.chainHeight == INITIAL_CHAIN_HEIGHT && s.result == []
    ensures forall k :: 0 <= k < 4 ==> s.nodeHeights[k] == 0
    ensures s.heightResult == map[] && s.outbox == []
  {
    Snapshot(Running, INITIAL_CHAIN_HEIGHT, [], [0, 0, 0, 0], map[], [])
  }

  /** `later` keeps every entry of `earlier`. */
  ghost predicate Extends(earlier: map<usize, Target>, later: map<usize, Target>)
  {
    forall h :: h in earlier ==> h in later && later[h] == earlier[h]
  }

  /** Which tracked height a sender address selects: only the exact vectors
      [0] to [3] select one. */
  function SenderSlot(address: Address): (slot: Option<nat>)
    ensures slot.Some? ==> slot.value < 4 && address == [slot.value as u8]
    ensures slot.None? ==> address != [0] && address != [1] && address != [2] && address != [3]
  {
    if address == [0] then Some(0)
    else if address == [1] then Some(1)
    else if address == [2] then Some(2)
    else if address == [3] then Some(3)
    else None
  }

  /** The fork check on the height ledger: None is a fork; otherwise the ledger
      after the first proposal seen at `height` is recorded. */
  function Record(ledger: map<usize, Target>, height: usize, proposal: Target): (r: Option<map<usize, Target>>)
    ensures r.None? <==> height in ledger && ledger[height] != proposal
    ensures r.Some? ==> r.value.Keys == ledger.Keys + {height}
    ensures r.Some? ==> r.value[height] == proposal
    ensures r.Some? ==> Extends(ledger, r.value)
    ensures height in ledger && ledger[height] == proposal ==> r == Some(ledger)
  {
    if height in ledger then
      if proposal != ledger[height] then None else Some(ledger)
    else
      Some(ledger[height := proposal])
  }

  /** The first half of a loop pass: the body of `if let Ok(recv) = ...`. */
  function Receive(s: Snapshot, c: Commit, authorities: seq<Address>, newProposal: Target): (s': Snapshot)
    // a stopped thread does nothing; the vote buffer and chain height are never touched
    ensures s.phase != Running ==> s' == s
    ensures s'.result == s.result && s'.chainHeight == s.chainHeight
    ensures s.phase == Running ==> s'.phase != QuorumFailed
    // only the sender's tracked height changes, and it becomes height + 1
    ensures forall k :: 0 <= k < 4 && c.address != [k as u8] ==> s'.nodeHeights[k] == s.nodeHeights[k]
    ensures s.phase == Running && s'.phase != Panicked ==>
      forall k :: 0 <= k < 4 && c.address == [k as u8] ==> s'.nodeHeights[k] as int == c.height as int + 1
    // a fork is a recorded height with a different proposal; it sends nothing
    ensures s.phase == Running && s'.phase != Panicked ==>
      (s'.phase == Forked <==> c.height in s.heightResult && s.heightResult[c.height] != c.proposal)
    ensures s'.phase == Forked ==> s'.outbox == s.outbox && s'.heightResult == s.heightResult
    // the ledger is append-only and first-writer-wins
    ensures Extends(s.heightResult, s'.heightResult)
    ensures s'.heightResult.Keys <= s.heightResult.Keys + {c.height}
    ensures s'.phase == Running ==>
      c.height in s'.heightResult && s'.heightResult[c.height] == c.proposal
    // an accepted commit sends Status{height} then Feed{height + 1} to mailbox address[0]
    ensures s'.phase == Running ==>
      |c.address| > 0 && c.height < USIZE_MAX &&
      s'.outbox == s.outbox + [Envelope(c.address[0], Status(c.height, None, authorities)),
                               Envelope(c.address[0], Feed(c.height + 1, newProposal))]
    // the panics: height + 1 overflowing, or indexing an empty address
    ensures s.phase == Running ==>
      (s'.phase == Panicked <==>
        (SenderSlot(c.address).Some? && c.height == USIZE_MAX) ||
        (SenderSlot(c.address).None? && Record(s.heightResult, c.height, c.proposal).Some? &&
         (|c.address| == 0 || c.height == USIZE_MAX)))
    // what a panic leaves: nothing when `height + 1` overflows while tracking the
    // sender; otherwise the ledger entry is recorded, and Status is already sent
    // when only Feed's `height + 1` overflows
    ensures s.phase == Running && s'.phase == Panicked && SenderSlot(c.address).Some? ==>
      s' == s.(phase := Panicked)
    ensures s.phase == Running && s'.phase == Panicked && SenderSlot(c.address).None? ==>
      && s'.nodeHeights == s.nodeHeights
      && s'.heightResult == s.heightResult[c.height := c.proposal]
      && s'.outbox == (if |c.address| > 0
                       then s.outbox + [Envelope(c.address[0], Status(c.height, None, authorities))]
                       else s.outbox)
  {
    if s.phase != Running then s
    else
      var slot := SenderSlot(c.address);
      if slot.Some? && c.height == USIZE_MAX then s.(phase := Panicked)
      else
        var s1 := if slot.Some? then s.(nodeHeights := s.nodeHeights[slot.value := c.height + 1]) else s;
        match Record(s1.heightResult, c.height, c.proposal)
        case None => s1.(phase := Forked)
        case Some(ledger) =>
          var s2 := s1.(heightResult := ledger);
          if |c.address| == 0 then s2.(phase := Panicked)
          else
            var to := c.address[0];
            var s3 := s2.(outbox := s2.outbox + [Envelope(to, Status(c.height, None, authorities))]);
            if c.height == USIZE_MAX then s3.(phase := Panicked)
            else s3.(outbox := s3.outbox + [Envelope(to, Feed(c.height + 1, newProposal))])
  }

  /** The second half of a loop pass: the quorum check on the vote buffer. */
  function QuorumStep(s: Snapshot): (s': Snapshot)
    ensures s.phase != Running || |s.result| < QUORUM ==> s' == s
    ensures s'.nodeHeights == s.nodeHeights && s'.heightResult == s.heightResult && s'.outbox == s.outbox
    ensures s.phase == Running ==> s'.phase != Forked
    // a successful check clears the buffer and advances the chain height by one
    ensures s.phase == Running && |s.result| >= QUORUM ==>
      (s'.phase == Running <==> Tally(s.result) == Counted(true) && s.chainHeight < USIZE_MAX)
    ensures s'.phase == Running && |s.result| >= QUORUM ==>
      s'.result == [] && s'.chainHeight as int == s.chainHeight as int + 1
    // a buffer without a quorum stops the thread with exit(1)
    ensures s.phase == Running && |s.result| >= QUORUM ==>
      (s'.phase == QuorumFailed <==> Tally(s.result) == Counted(false))
  {
    if s.phase != Running || |s.result| < QUORUM then s
    else
      match Tally(s.result)
      case CounterOverflow => s.(phase := Panicked)
      case Counted(success) =>
        if !success then s.(phase := QuorumFailed)
        else if s.chainHeight == USIZE_MAX then s.(result := [], phase := Panicked)
        else s.(result := [], chainHeight := s.chainHeight + 1)
  }

  /** One pass of the commit thread's loop with a received commit: the quorum
      check follows the receive only while the thread is still running. */
  function Step(s: Snapshot, a: Arrival): (s': Snapshot)
    ensures s.phase != Running ==> s' == s
    ensures Receive(s, a.commit, a.authorities, a.proposal).phase != Running ==>
      s' == Receive(s, a.commit, a.authorities, a.proposal)
    // the quorum check touches neither the ledger, the tracked heights nor the mailboxes
    ensures s'.heightResult == Receive(s, a.commit, a.authorities, a.proposal).heightResult
    ensures s'.nodeHeights == Receive(s, a.commit, a.authorities, a.proposal).nodeHeights
    ensures s'.outbox == Receive(s, a.commit, a.authorities, a.proposal).outbox
    // the chain height never goes down, and messages are only ever appended
    ensures s'.chainHeight >= s.chainHeight
    ensures |s'.outbox| >= |s.outbox| && s'.outbox[..|s.outbox|] == s.outbox
  {
    QuorumStep(Receive(s, a.commit, a.authorities, a.proposal))
  }

  /** The state after the loop has processed `trace` in order, one `Step` per
      record; a stopped thread processes nothing more. */
  function Run(s: Snapshot, trace: seq<Arrival>): (r: Snapshot)
    ensures s.phase != Running ==> r == s
    ensures r.phase == Running ==> s.phase == Running
    ensures r.chainHeight >= s.chainHeight
    ensures |r.outbox| >= |s.outbox| && r.outbox[..|s.outbox|] == s.outbox
    decreases |trace|
  {
    if trace == [] then s else Step(Run(s, trace[..|trace| - 1]), trace[|trace| - 1])
  }
}
