# Commit aggregator of the bft-rs verification harness

This project models the sequential logic inside the bft-rs integration test
`test_verify` (`tests/integration_cases/test_verify.rs`). The test runs four
validator threads and one commit thread. The model covers two pieces of the
commit thread.

- `is_success` is the quorum oracle. It counts each proposal (`Target`) in a
  vote buffer with a map of `u8` counters. It answers true when some proposal
  occurs at least 3 times, the `n = 3f + 1, f = 1` threshold for four
  validators. `QuorumOracle.IsSuccess` is the counting loop. `QuorumOracle.Tally`
  is its reference meaning, stated on occurrence counts.
- The commit thread's loop body is a state machine fed one commit record
  `(address, height, proposal)` at a time. Its state is the same as the
  thread's locals:
  - `node_0_height` to `node_3_height`, the tracked heights of the four nodes;
  - `height_result`, the height ledger;
  - `result`, the vote buffer;
  - `chain_height`, which starts at 2.

  A pass of the loop does four things, in order:
  1. It updates the sender's tracked height, but only for the exact addresses
     `[0]` to `[3]`.
  2. It checks the ledger for a fork, or records the first proposal seen at
     that height.
  3. It sends `Status{height}` and then `Feed{height + 1, fresh proposal}` to
     mailbox `address[0]`.
  4. It runs the quorum check on the vote buffer.

`CommitAggregator` states the loop body as pure functions on a `Snapshot` of
the locals: `Receive`, `QuorumStep`, `Step` and `Run`. `CommitThread.Aggregator`
is a class that holds the thread's locals as fields. Each of its methods is
proved equal to the matching function through `View()`. `AggregatorProperties`
proves agreement, append-only and first-writer-wins behaviour of the ledger,
soundness of fork detection, that a run with a conflict does not keep running, idempotent re-submission, and
order independence.

Terminal states replace process exits and panics:

- `process::exit(1)` after a fork becomes the phase `Forked`.
- `process::exit(1)` after a failed quorum check becomes `QuorumFailed`.
- A panic becomes `Panicked`. Test builds check for arithmetic overflow, so
  three operations panic: `height + 1` at `usize::MAX`, `chain_height += 1` at
  `usize::MAX`, and a `u8` counter incremented past 255. Indexing an empty
  address with `address[0]` also panics. Effects that happened before the
  panic are kept. For example, `Status` has already been sent when
  `Feed{height + 1}` overflows.

Once the thread has stopped, no further record is processed.

Heights are `usize` on a 64-bit target. Address bytes, proposal bytes and the
tally counters are `u8`. Addresses and proposals are byte vectors compared by
content. Every message sent to a validator mailbox is appended, in send order,
to the `outbox` sequence.

The code differs from the intended quorum behaviour in several ways. The model
follows the code in each case:

- The loop never appends anything to `result`. Starting from the initial
  state, the quorum branch therefore never fires: the buffer stays empty, the
  chain height stays 2, and `QuorumFailed` is unreachable. This is proved as
  `AggregatorProperties.QuorumCheckNeverFires`. `result` is a public field of
  `CommitThread.Aggregator`, and `QuorumCheck` is its own method, so the check
  can be run on any buffer a client assigns.
- `is_success` counts equal proposals. It does not check that they come from
  distinct validators or from one height.
- The tracked height changes only for the addresses `[0]`, `[1]`, `[2]` and
  `[3]`. Any other sender leaves all four tracked heights unchanged.
- Status and Feed go to mailbox `sender[address[0]]`. The `sender` vector is not part of this model, so which node owns that mailbox is not stated.

## Model

| member | source | states |
|---|---|---|
| QuorumOracle.IsSuccess | tests/integration_cases/test_verify.rs:16-28 | the counter-map loop followed by the scan over its entries returns exactly the reference verdict `Tally`, including the panic when a `u8` counter passes 255 |
| QuorumOracle.Tally | tests/integration_cases/test_verify.rs:16-28 | a buffer with fewer than 3 votes is never a success |
| QuorumOracle.Occurrences | tests/integration_cases/test_verify.rs:18-21 | a proposal's count is at most the buffer length, and it is zero exactly when the proposal is absent |
| QuorumOracle.OccurrencesIsMultiplicity | tests/integration_cases/test_verify.rs:18-21 | the counter built for a proposal equals that proposal's multiplicity in the buffer |
| QuorumOracle.TallyByMultiplicity | tests/integration_cases/test_verify.rs:16-28 | overflow happens iff some multiplicity exceeds 255; success happens iff no multiplicity exceeds 255 and some multiplicity reaches 3 |
| QuorumOracle.TallyPermutationInvariant | tests/integration_cases/test_verify.rs:17-26 | any two buffers with the same multiset of votes get the same verdict |
| CommitAggregator.Init | tests/integration_cases/test_verify.rs:177-184 | the thread starts running with chain height 2, an empty buffer, all tracked heights 0, an empty ledger and no messages sent |
| CommitAggregator.SenderSlot | tests/integration_cases/test_verify.rs:188-196 | only the exact addresses `[0]`..`[3]` select a tracked height, and address `[k]` selects node k |
| CommitAggregator.Record | tests/integration_cases/test_verify.rs:198-205 | a fork occurs iff the height is recorded with a different proposal; otherwise the ledger keeps every entry and gains only this height, holding the incoming proposal; an equal re-insert leaves it unchanged |
| CommitAggregator.Receive | tests/integration_cases/test_verify.rs:187-223 | only the sender's tracked height changes, to height + 1; a fork stops the thread and sends nothing; the ledger is append-only; an accepted commit sends Status{height, None} and then Feed{height + 1} to mailbox `address[0]`; each panic's state is stated exactly, including the Status already sent when only Feed's `height + 1` overflows; the buffer and chain height are untouched |
| CommitAggregator.QuorumStep | tests/integration_cases/test_verify.rs:224-237 | with fewer than 3 votes nothing changes; otherwise a success clears the buffer and adds 1 to the chain height, and a failure stops the thread as QuorumFailed; the ledger, tracked heights and messages are untouched |
| CommitThread.Aggregator.constructor | tests/integration_cases/test_verify.rs:177-184 | the fields start in the state `Init` |
| CommitThread.Aggregator.Receive | tests/integration_cases/test_verify.rs:187-223 | updating the fields in place gives the state `CommitAggregator.Receive` describes |
| CommitThread.Aggregator.SetNodeHeight | tests/integration_cases/test_verify.rs:188-196 | assigning node k's height changes that tracked height and nothing else |
| CommitThread.Aggregator.QuorumCheck | tests/integration_cases/test_verify.rs:224-237 | checking the buffer in place gives the state `QuorumStep` describes |
| CommitThread.Aggregator.Step | tests/integration_cases/test_verify.rs:186-237 | one pass of the loop is one `Step` of the state machine |
| CommitThread.Aggregator.Serve | tests/integration_cases/test_verify.rs:186-238 | the loop over a sequence of received commits ends in the state `Run` gives, and stops at the first terminal phase |
| CommitAggregator.Step | tests/integration_cases/test_verify.rs:186-237 | one pass is `Receive` followed by `QuorumStep`, and the quorum check runs only while the thread is still running; the quorum check leaves the ledger, tracked heights and messages as `Receive` left them; the chain height never decreases and messages are only appended |
| CommitAggregator.Run | tests/integration_cases/test_verify.rs:186-238 | the records are processed in order, each by one `Step`; a thread that has exited processes nothing more, a running end state had a running start, the chain height never decreases, and the messages sent so far stay a prefix of the outbox |
| CommitThread.RunAppend | tests/integration_cases/test_verify.rs:186-238 | running two traces in turn is running their concatenation |
| AggregatorProperties.RunLedgerGrows | tests/integration_cases/test_verify.rs:198-205 | over any run, the ledger's keys only grow and no entry is overwritten |
| AggregatorProperties.RunAgreesWithLedger | tests/integration_cases/test_verify.rs:198-205 | while the thread runs, every commit received so far matches the ledger entry at its height |
| AggregatorProperties.Agreement | tests/integration_cases/test_verify.rs:198-202 | while the thread runs, no two received commits at one height carry different proposals |
| AggregatorProperties.RunWitnessed | tests/integration_cases/test_verify.rs:203-205 | from the start, every ledger entry was committed with that proposal by some received record |
| AggregatorProperties.ForkOnlyOnConflict | tests/integration_cases/test_verify.rs:198-202 | from the start, the thread stops as Forked only if two received commits disagree at one height |
| AggregatorProperties.ConflictStopsRun | tests/integration_cases/test_verify.rs:198-202 | from the start, two disagreeing commits at one height stop the thread |
| AggregatorProperties.QuorumCheckNeverFires | tests/integration_cases/test_verify.rs:178-237 | from the start, the buffer stays empty, the chain height stays 2, and QuorumFailed is never reached |
| AggregatorProperties.ResubmitIsIdempotent | tests/integration_cases/test_verify.rs:198-205 | re-submitting an accepted commit causes no fork and leaves the ledger and tracked heights unchanged |
| AggregatorProperties.QuorumOrderIndependent | tests/integration_cases/test_verify.rs:224-237 | reordering the vote buffer does not change the quorum check's outcome or the chain height |
| AggregatorProperties.StepLedger | tests/integration_cases/test_verify.rs:198-205 | an accepted pass started running and records the commit's proposal at its height; that height was absent or already held the proposal |
| AggregatorProperties.LedgerOrderIndependent | tests/integration_cases/test_verify.rs:198-205 | two commits that both pass, in either order, leave the same ledger |
| AggregatorProperties.ForkScenario | tests/integration_cases/test_verify.rs:188-222 | after node [2] commits x at height 5, node [3] committing a different y at height 5 stops the thread as Forked; only the first commit's Status and Feed were sent, and the ledger holds just 5 ↦ x |

## Left out

- Threads, `Arc<Mutex<Node>>` and the crossbeam channels (lines 48-172) are not modelled. Messages sent are a sequence, and the commit channel is the sequence of records passed to `Serve`.
- A loop pass in which `recv_result.recv()` fails is not modelled as its own step. Such a pass only runs the quorum check, which is available as `QuorumCheck`.
- `Node::new` and `Node::handle_message` of the `bft` crate, which is the consensus engine, are not part of this model.
- The `height == MAX_TEST_HEIGHT` exits of the validator threads are not modelled, because they depend on the engine's height.
- Logger setup, `println!` and the `Instant` latency measurements are not modelled, because they are I/O and wall-clock time.
- `generate_proposal`, `generate_auth_list`, `transmit_genesis`, `start_process` and the `sender` vector are not part of this model. The fresh proposal and the authority list of each pass are parameters (`Arrival`).
- An out-of-range index into `sender` and a failing `.send(...).unwrap()` are not modelled, because the vector's length and the receivers' lifetimes are not visible. Only the empty-address panic is modelled.
- No buffer filling is modelled, because the loop never appends received commits to `result`.
