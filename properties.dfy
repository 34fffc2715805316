/** What the commit thread guarantees over one pass and over a whole run. */
module AggregatorProperties {
  import opened BftTypes
  import opened QuorumOracle
  import opened CommitAggregator

  /** Every recorded height was committed, with that proposal, by some arrival of `trace`. */
  ghost predicate Witnessed(ledger: map<usize, Target>, trace: seq<Arrival>)
  {
    forall h :: h in ledger ==>
      exists i :: 0 <= i < |trace| && trace[i].commit.height == h && trace[i].commit.proposal == ledger[h]
  }

  /** Two arrivals of `trace` commit different proposals at one height. */
  ghost predicate Conflicting(trace: seq<Arrival>)
  {
    exists i, j :: 0 <= i < j < |trace| &&
      trace[i].commit.height == trace[j].commit.height &&
      trace[i].commit.proposal != trace[j].commit.proposal
  }

  /** A pass over a stopped thread leaves it as it is. */
  lemma StepKeepsStopped(s: Snapshot, a: Arrival)
    ensures s.phase != Running ==> Step(s, a) == s
  {
  }

  /** The ledger only grows over a run, and no entry is ever overwritten. */
  lemma {:induction false} RunLedgerGrows(s: Snapshot, trace: seq<Arrival>)
    ensures Extends(s.heightResult, Run(s, trace).heightResult)
    decreases |trace|
  {
    if trace != [] {
      var prefix := trace[..|trace| - 1];
      RunLedgerGrows(s, prefix);
    }
  }

  /** Agreement: along a run that is still going, every commit received agrees
      with the ledger entry at its height. */
  lemma {:induction false} RunAgreesWithLedger(s: Snapshot, trace: seq<Arrival>)
    ensures Run(s, trace).phase == Running ==>
      forall i :: 0 <= i < |trace| ==>
        trace[i].commit.height in Run(s, trace).heightResult &&
        Run(s, trace).heightResult[trace[i].commit.height] == trace[i].commit.proposal
    decreases |trace|
  {
    if trace != [] {
      var prefix := trace[..|trace| - 1];
      var before := Run(s, prefix);
      StepKeepsStopped(before, trace[|trace| - 1]);
      RunAgreesWithLedger(s, prefix);
      assert forall i :: 0 <= i < |prefix| ==> trace[i] == prefix[i];
    }
  }

  /** Agreement stated pairwise: no two accepted commits at one height disagree. */
  lemma Agreement(s: Snapshot, trace: seq<Arrival>)
    ensures Run(s, trace).phase == Running ==> !Conflicting(trace)
  {
    RunAgreesWithLedger(s, trace);
  }

  /** From the start state, the ledger holds nothing that was not committed. */
  lemma {:induction false} RunWitnessed(trace: seq<Arrival>)
    ensures Witnessed(Run(Init(), trace).heightResult, trace)
    decreases |trace|
  {
    if trace != [] {
      var prefix := trace[..|trace| - 1];
      var last := trace[|trace| - 1];
      RunWitnessed(prefix);
      var before := Run(Init(), prefix).heightResult;
      var after := Run(Init(), trace).heightResult;
      forall h | h in after
        ensures exists i :: 0 <= i < |trace| && trace[i].commit.height == h && trace[i].commit.proposal == after[h]
      {
        if h in before {
          var i :| 0 <= i < |prefix| && prefix[i].commit.height == h && prefix[i].commit.proposal == before[h];
          assert trace[i] == prefix[i];
        } else {
          assert h == last.commit.height;
          assert trace[|trace| - 1] == last;
        }
      }
    }
  }

  /** Fork detection is sound: from the start state, a run stops Forked only if
      two of its commits disagree at one height. */
  lemma {:induction false} ForkOnlyOnConflict(trace: seq<Arrival>)
    ensures Run(Init(), trace).phase == Forked ==> Conflicting(trace)
    decreases |trace|
  {
    if trace != [] && Run(Init(), trace).phase == Forked {
      var prefix := trace[..|trace| - 1];
      var last := trace[|trace| - 1];
      var before := Run(Init(), prefix);
      if before.phase == Forked {
        ForkOnlyOnConflict(prefix);
        var i, j :| 0 <= i < j < |prefix| &&
          prefix[i].commit.height == prefix[j].commit.height &&
          prefix[i].commit.proposal != prefix[j].commit.proposal;
        assert trace[i] == prefix[i] && trace[j] == prefix[j];
      } else {
        StepKeepsStopped(before, last);
        assert before.phase == Running;
        var h := last.commit.height;
        assert h in before.heightResult && before.heightResult[h] != last.commit.proposal;
        RunWitnessed(prefix);
        var i :| 0 <= i < |prefix| && prefix[i].commit.height == h &&
          prefix[i].commit.proposal == before.heightResult[h];
        assert trace[i] == prefix[i];
        assert trace[|trace| - 1] == last;
      }
    }
  }

  /** A run with a conflicting pair of commits does not keep running (it may
      stop by a fork or, earlier, by a panic). */
  lemma ConflictStopsRun(trace: seq<Arrival>)
    ensures Conflicting(trace) ==> Run(Init(), trace).phase != Running
  {
    Agreement(Init(), trace);
  }

  /** Nothing in the loop adds to the vote buffer, so from the start state the
      quorum check never fires: the buffer stays empty, the chain height stays
      at its initial value, and the thread never stops with QuorumFailed. */
  lemma {:induction false} QuorumCheckNeverFires(trace: seq<Arrival>)
    ensures Run(Init(), trace).result == []
    ensures Run(Init(), trace).chainHeight == INITIAL_CHAIN_HEIGHT
    ensures Run(Init(), trace).phase != QuorumFailed
    decreases |trace|
  {
    if trace != [] {
      QuorumCheckNeverFires(trace[..|trace| - 1]);
    }
  }

  /** Re-submitting a commit that was just accepted is idempotent: no fork, and
      the ledger and tracked heights stay as they are. */
  lemma ResubmitIsIdempotent(s: Snapshot, c: Commit, auth1: seq<Address>, p1: Target, auth2: seq<Address>, p2: Target)
    ensures var once := Receive(s, c, auth1, p1);
      var twice := Receive(once, c, auth2, p2);
      once.phase == Running ==>
        twice.phase == Running && twice.heightResult == once.heightResult && twice.nodeHeights == once.nodeHeights
  {
  }

  /** The quorum verdict does not depend on the order of the buffered votes. */
  lemma QuorumOrderIndependent(s: Snapshot, a: seq<Target>, b: seq<Target>)
    requires multiset(a) == multiset(b)
    ensures QuorumStep(s.(result := a)).phase == QuorumStep(s.(result := b)).phase
    ensures QuorumStep(s.(result := a)).chainHeight == QuorumStep(s.(result := b)).chainHeight
  {
    TallyPermutationInvariant(a, b);
    assert |a| == |multiset(a)| == |multiset(b)| == |b|;
  }

  /** What an accepted pass does to the ledger: it records the commit's
      proposal at the commit's height, which either was absent or already
      held that proposal, and keeps every other entry. */
  lemma StepLedger(s: Snapshot, a: Arrival)
    ensures Step(s, a).phase == Running ==>
      && s.phase == Running
      && (a.commit.height in s.heightResult ==> s.heightResult[a.commit.height] == a.commit.proposal)
      && Step(s, a).heightResult == s.heightResult[a.commit.height := a.commit.proposal]
  {
    var r := Receive(s, a.commit, a.authorities, a.proposal);
    if Step(s, a).phase == Running {
      assert r.phase == Running;
      assert r.heightResult.Keys == s.heightResult.Keys + {a.commit.height};
    }
  }

  /** Two commits that do not fork leave the same ledger in either order. */
  lemma LedgerOrderIndependent(s: Snapshot, x: Arrival, y: Arrival)
    ensures Step(Step(s, x), y).phase == Running && Step(Step(s, y), x).phase == Running ==>
      Step(Step(s, x), y).heightResult == Step(Step(s, y), x).heightResult
  {
    var sx, sy := Step(s, x), Step(s, y);
    if Step(sx, y).phase == Running && Step(sy, x).phase == Running {
      StepLedger(sx, y);
      StepLedger(sy, x);
      StepLedger(s, x);
      StepLedger(s, y);
      RecordsCommute(s.heightResult, x.commit.height, x.commit.proposal, y.commit.height, y.commit.proposal);
    }
  }

  /** Recording two entries in either order gives the same ledger when they
      agree on a shared height. */
  lemma RecordsCommute(l: map<usize, Target>, hx: usize, px: Target, hy: usize, py: Target)
    requires hx == hy ==> px == py
    ensures l[hx := px][hy := py] == l[hy := py][hx := px]
  {
  }

  /** Two validators report different proposals at one height: the first
      report is accepted and answered, the second stops the thread as a fork
      before anything is sent back to its sender. */
  lemma ForkScenario(x: Target, y: Target, auth: seq<Address>, p1: Target, p2: Target)
    requires x != y
    ensures var first := Arrival(Commit([2], 5, x), auth, p1);
      var second := Arrival(Commit([3], 5, y), auth, p2);
      var s := Run(Init(), [first, second]);
      && s.phase == Forked
      && s.heightResult == map[5 := x]
      && s.outbox == [Envelope(2, Status(5, None, auth)), Envelope(2, Feed(6, p1))]
      && s.nodeHeights == [0, 0, 6, 6]
  {
    var first := Arrival(Commit([2], 5, x), auth, p1);
    var second := Arrival(Commit([3], 5, y), auth, p2);
    assert [first, second][..1] == [first];
    assert [first][..0] == [];
    var s1 := Step(Init(), first);
    assert Run(Init(), [first]) == s1;
    assert s1.phase == Running && s1.heightResult == map[5 := x];
    assert s1.nodeHeights == [0, 0, 6, 0];
    assert Run(Init(), [first, second]) == Step(s1, second);
  }
}
