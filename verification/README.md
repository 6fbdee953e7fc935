# Credit, settlement and wire encodings of mbta-go, in Dafny

This project models the flow control of the MBTA transport and proves what it keeps.

* A client spends **credit**, counted in batches and in bytes, on every BATCH frame. Only CREDIT
  frames give it back. A RESULT frame reports an outcome and returns nothing.
* The server **admits** each sequence number once, charges it, and **settles** it once through a
  one-shot grant. Settling records the outcome, puts it in a bounded ring for replays, and recovers
  the charge.
* Batch workers, sink callbacks, a reaper and a flush timer do this concurrently.

| file | contents |
|---|---|
| `Manager.dfy` | the plain specification of the server's credit manager: in-flight map, full settlement history, credit counters |
| `Credit.dfy` | the classes `CreditManager` and `SettleGrant` with the compressed index (`low` plus `accepted`) and the ring, proved to refine `Manager` |
| `ServerRuns.dfy` | every interleaving of lock sections on one server, with a log of decisions |
| `LateGrants.dfy`, `ReaperRuns.dfy`, `Replays.dfy` | the double refund for a ring of any size; the reaper loop while others work; what a client hears for a number it sends again |
| `Handler.dfy` | the batch pipeline, the reaper loop, the flush and the sink callback |
| `Ledger.dfy` | the client's ledger, as a specification and as the class that updates it |
| `Connection.dfy`, `EndToEnd.dfy` | client, frames in transit and server as one transition system, and the theorems about its runs |
| `Solvency.dfy`, `Draining.dfy` | what holds in every run of that system, whatever the timing: credit always covers charges, and slots drain |
| `Client.dfy` | the sending side and its nonces |
| `Frame.dfy`, `Encoding.dfy` | varints, the frame stream, associated data, transcripts |
| `Sink.dfy`, `SinkAdmission.dfy`, `SinkShutdown.dfy` | the sink queue's byte counter and workers; which tasks are taken; which run when workers leave |
| `TokenBucket.dfy`, `Deduper.dfy` | the datagram limiter, the correlation cache |
| `Basics.dfy` | sums over maps |

Each mutex-held section is one atomic step. Frames are delivered in any order. Time, decoding
verdicts, write outcomes and sink outcomes are parameters. `dafny verify dfyconfig.toml` checks
everything.

## Results that need a condition

Six things one would expect are not true of the code without a condition. Each has a theorem that
gives the exact condition and a lemma that shows the failure.

* **Refunded at most once.** `SingleSettlement` and `SettlesTwiceIffLate`: over a run and for one
  step, every number is refunded once exactly when no grant that was overtaken settles after the
  ring has forgotten its number. `LateGrantRefundsTwice` shows the failure for a ring of any size.
* **No ACCEPTED after a terminal.** It holds per grant (`DecisionOrder`). Per number,
  `NumberOrderIff` and `KeepsNumberOrderIff`: exactly when no undecided grant is accepted after
  another grant settled its number. `AcceptedAfterForcedTerminal` shows the failure.
* **A settlement keeps the books.** `SettlementKeepsBooksIff` and, over runs,
  `BooksThroughoutIffPrompt`: exactly when, in the lock section that settles, the slot is already
  charged and the settlement is not late. Runs of such settlements are called prompt. A reaper that checks an uncharged slot does no harm if the
  charge comes before it settles (`ChargedBetweenKeepsBooks`). If it does not, a batch with no bytes
  is recovered and the next CREDIT frame makes a correct client close the session
  (`ForcedUnchargedTearsDown`, `UnchargedIsReachable`). These races can make the client close the
  session and can never make the server run out of credit: `ServerNeverAborts` holds in every run.
* **The whole grant comes back.** `FullReturnIffLeakFree`: in a prompt run, exactly when no BATCH write fails after
  the client reaper has dropped its slot and no CREDIT write fails that carries recovered credit.
  `SlowWriteLeaks` shows the loss; `FullReturn` gives a sufficient condition.
* **A refused task does not run.** `RunsIff`: a refused task can still run exactly when it was refused
  by the shutdown check after its push and a worker was left at that push. `RefusedMayRun` shows one
  that runs; by `NeverFinishes`, the one in `PushAfterLastLeave` never does.
* **Tokens accrue at the configured rate.** `AccruesAtRateIff`: exactly when every gap between
  requests is worth a whole number of bytes and the bucket never overflows. `StarvesIffCrowded`: the
  refill stops completely exactly when requests come closer together than one byte's worth of time.
  `HalfSecondsStarve` shows it.

## Where code and documentation disagree

The model follows the code.

* Section 4.4 of the MBTA core document says a send refused for credit spends no sequence number. The code
  draws the number first (`internal/protocol/client.go:297-311`), so `Client.SendBatch` spends it.
* Section 5.7 of the MBTA core document says a CREDIT frame with both deltas zero is ignored. `handleCredit`
  closes the session for it (`internal/protocol/client_control.go:105-109`).
* Section 6 of the MBTA core document describes a window bounded by a `cap`. `Admit` has no such branch.

## Model

| member | source | states |
|---|---|---|
| `Solvency.ServerNeverAborts` | internal/protocol/handler_batch.go:165-194 | in every run, prompt or not, server credit is at least client available plus BATCH and CREDIT in transit plus clamp slack plus losses, in both dimensions; every admitted frame can be charged through its own unfinished grant, and the server never aborts |
| `Solvency.StepSolvent` | core/credit.go:344-446 | every possible action of either side, late and uncharged settlements included, keeps that bound and every admitted frame's grant |
| `Solvency.AnySettlement` | core/credit.go:396-446 | a settlement of any kind spends no issued credit and makes no number unknown |
| `EndToEnd.NoFalseAbort` | internal/protocol/client.go:290-322 | in every prompt run, server credit equals client available plus BATCH and CREDIT in transit plus clamp slack plus losses, in both dimensions; every admitted frame is affordable, every CREDIT is well formed and owed, the client does not tear the session down either, no violation is counted |
| `EndToEnd.BooksBalance` | core/credit.go:408-441 | in every prompt run what the client is owed is uncharged, charged, recovered, in transit or lost; the server's issued plus recovered credit is initial minus in-flight charges; recovered batches are zero exactly when recovered bytes are |
| `EndToEnd.FullReturnIffLeakFree` | core/credit.go:106-188 | when a prompt run is quiescent the client has its original grant back, in each dimension, if and only if no BATCH write failed after its slot was dropped and no CREDIT write with recovered credit failed; the server has all its initial credit |
| `EndToEnd.FullReturn` | core/credit.go:167-203 | the same conclusion for prompt runs from the client reaper never dropping a slot that is still being written and CREDIT writes succeeding |
| `EndToEnd.LeakFreeIffNoLoss` | core/credit.go:167-188 | the losses grow along a prompt run exactly when some failed BATCH write finds its slot gone or a CREDIT write with recovered credit fails |
| `EndToEnd.PatientIsLeakFree` | internal/protocol/client_control.go:297-316 | among BATCH writes only the client reaper can cause such a loss |
| `EndToEnd.StepKeepsSlots` | internal/protocol/client_control.go:71-94 | a RESULT never removes the slot of a frame that has not been written |
| `Draining.LedgerDrains` | internal/protocol/client_control.go:71-94 | in every run the slot of a settled number is there only while a RESULT for it is in transit; once nothing is written, in transit or in flight, the client's ledger is empty |
| `Draining.SettledIsSent` | core/credit.go:408-446 | a settlement that is recorded is also sent as a RESULT, and one that is not recorded sends nothing |
| `Draining.AcceptSends` | core/credit.go:376-391 | an interim ACCEPTED goes out exactly when its grant has decided nothing yet |
| `EndToEnd.SlowWriteLeaks` | internal/protocol/client.go:315-320 | a reaped slot whose write then fails loses its batch and bytes for good |
| `EndToEnd.SettlementKeepsBooksIff` | core/credit.go:417-446 | from any state with the invariant the lock section that settles, entered by any holder with any byte figure, keeps both sides' books if and only if the slot is charged and the settlement is not late |
| `EndToEnd.BooksThroughoutIffPrompt` | core/credit.go:344-446 | the books hold after every step of a run if and only if every settlement in it is of that kind |
| `EndToEnd.UnchargedSettlement` | core/credit.go:408-441 | settling an uncharged slot recovers one batch, and the caller's byte figure, that nobody was charged |
| `EndToEnd.ChargedBetweenKeepsBooks` | core/credit.go:463-489 | a charge between the two lock sections of a forced settlement saves it |
| `EndToEnd.ForcedUnchargedTearsDown` | internal/protocol/handler_batch.go:48-61 | without it, forcing an uncharged slot leads to CREDIT(1, 0), on which the client tears the session down |
| `EndToEnd.UnchargedIsReachable` | internal/protocol/handler_batch.go:165-194 | a state with an admitted, uncharged slot is reachable in three steps |
| `Connection.StepKeeps` | internal/protocol/handler_batch.go:159-243 | every prompt action of either side keeps every frame in one place, every grant tied to a known number, and the books of both sides |
| `Connection.ChargeAffordable` | core/credit.go:344-363 | the server's credit covers every admitted frame, so a charge never fails |
| `Connection.CreditKeeps` | internal/protocol/client_control.go:99-116 | a CREDIT frame is at least (1, 1), never exceeds what is owed, and booking it keeps the invariant |
| `Connection.ArriveKeeps` | core/credit.go:306-326 | a frame arriving for the first time is accepted, in any arrival order |
| `Connection.RedeliverKeeps` | internal/protocol/handler_batch.go:175-187 | a copy of a known number changes nothing on the server |
| `Connection.SettleKeeps` | core/credit.go:396-446 | a timely settlement of a charged slot by any holder, with any byte figure, refunds exactly the registered charge |
| `Connection.SendKeeps` | internal/protocol/client.go:297-313 | the send critical section spends a number, granted or refused, and keeps the invariant |
| `Connection.WriteFailKeeps` | internal/protocol/client.go:315-320 | a failed write is compensated exactly, or counted as a loss |
| `Connection.FlushKeeps` | internal/protocol/handler_batch.go:48-61 | a flush moves the recovered credit into a well-formed CREDIT frame |
| `Connection.FlushLostKeeps` | internal/protocol/handler_batch.go:58-60 | a CREDIT write that fails is counted as a loss and keeps the invariant |
| `Connection.ForceCheckKeeps` | core/credit.go:467-487 | the first lock section of a forced settlement keeps the invariant on every slot, charged or not |
| `ServerRuns.Conservation` | core/credit.go:344-446 | in every run issued plus recovered credit is initial minus charges plus refunds, in both dimensions |
| `ServerRuns.NeverOverspent` | core/credit.go:344-363 | in every run from initial credit that is not negative, whatever frames arrive, no counter is ever negative, so charges never exceed initial credit plus refunds in either dimension |
| `ServerRuns.ChargedIff` | core/credit.go:351-361 | a charge succeeds exactly when issued credit covers it in both dimensions; otherwise only the slot is dropped |
| `ServerRuns.DecisionOrder` | core/credit.go:376-446 | in every run one grant decides nothing, one interim ACCEPTED, one terminal, or these two in that order |
| `ServerRuns.NumberOrderIff` | core/credit.go:376-391 | in every run, no interim ACCEPTED follows a terminal of the same number if and only if no undecided grant is accepted after another grant settled its number |
| `ServerRuns.KeepsNumberOrderIff` | core/credit.go:376-391 | the same for one step from any state with the invariant |
| `ServerRuns.AcceptedAfterForcedTerminal` | core/credit.go:376-391 | the condition can fail: after a forced terminal the original grant decides ACCEPTED for the same number |
| `ServerRuns.Replay` | core/credit.go:315-322 | after a settlement and any further run, admission answers with exactly that outcome until `ringCap` settlements followed; then "below, unknown" if and only if the ring holds no later settlement of the number; never Accept |
| `Replays.SettledAnswer` | internal/protocol/handler_batch.go:175-183 | over every run, a number sent again is answered with exactly the settled level and code while the ring holds it, and with RELEASED, code 40, once it does not |
| `Replays.InFlightAnswer` | internal/protocol/handler_batch.go:184-187 | a number in flight is answered ACCEPTED with the correlation filled in last |
| `Replays.ReleasedIsFree` | core/credit.go:450-458 | a released number refunds and decides nothing and is accepted anew |
| `Replays.StuckIffAdmittedBefore` | core/credit.go:514-528 | whatever happens to a slot in flight, it is stuck exactly when its admission is older than the cutoff |
| `ServerRuns.RunKeepsRingDistinct` | core/credit.go:417-437 | in every run, late settlements included, the ring never holds a number twice |
| `ServerRuns.NeverReaccepted` | core/credit.go:306-326 | a settled number is never accepted again, whatever happens next |
| `ServerRuns.SettlesTwiceIffLate` | core/credit.go:417-437 | an action settles a number twice if and only if it is late |
| `ServerRuns.DistinctIffTimely` | core/credit.go:417-437 | a run settles no number twice if and only if none of its settlements is late |
| `ServerRuns.SingleSettlement` | core/credit.go:396-489 | in every run, each number's terminal is decided and its credit refunded exactly once if it is settled and never otherwise, if and only if no settlement is late |
| `LateGrants.LateGrantRefundsTwice` | core/credit.go:420-425 | for a ring of any capacity, a late callback refunds a second time and the server ends with more credit than it started with |
| `Manager.RecallNewest` | core/credit.go:426-437 | a settlement is remembered exactly while fewer than the ring's capacity followed it |
| `Credit.TerminalIsRecall` | core/credit.go:315-322 | ring and terminal map answer exactly what the full history recalls |
| `Credit.RingPush` | core/credit.go:429-437 | appending a forgotten number keeps the ring duplicate-free and in step with history and terminal map |
| `Credit.RingEvict` | core/credit.go:431-435 | evicting the front keeps the ring in step |
| `Credit.CreditManager.constructor` | core/credit.go:278-292 | starts empty with the initial credit; a capacity of zero or less becomes 256 |
| `Credit.CreditManager.Admit` | core/credit.go:306-326 | decides as the settled set and in-flight set would, through `low`, `accepted` and the ring; accepting occupies the number and yields a fresh grant |
| `Credit.CreditManager.ForceCheck` | core/credit.go:467-487 | first lock section: a grant for an in-flight slot, a stored outcome to repeat, or nothing |
| `Credit.CreditManager.ForceSettle` | core/credit.go:463-489 | without interference, settles an in-flight number; otherwise changes nothing and repeats a remembered outcome |
| `Credit.CreditManager.TakeRecovered` | core/credit.go:493-504 | moves all recovered credit to issued and returns what it moved |
| `Credit.CreditManager.OldestBefore` | core/credit.go:514-528 | the smallest old number, or none exactly when there is none, for any walking order |
| `Credit.CreditManager.AdvanceLow` | core/credit.go:536-541 | terminates, leaves `low` outside `accepted`, and the settled set unchanged |
| `Credit.CreditManager.PushRing` | core/credit.go:429-437 | the ring becomes that of the history with the new settlement |
| `Credit.CreditManager.Migrate` | core/credit.go:427-442 | in-flight to settled with one refund, keeping the index, ring and disjointness invariant |
| `Credit.SettleGrant.Consume` | core/credit.go:344-363 | succeeds exactly when the grant is not finished and issued credit covers batch and bytes; then charges and registers the bytes, otherwise drops the slot and finishes the grant |
| `Credit.SettleGrant.Backfill` | core/credit.go:366-372 | sets the correlation of its own slot and nothing else |
| `Credit.SettleGrant.Accept` | core/credit.go:376-391 | an interim result at most once and never after this grant's terminal |
| `Credit.SettleGrant.Settle` | core/credit.go:396-446 | the whole terminal decision as `Manager` specifies it, a no-op when finished or overtaken, and the result to send |
| `Credit.SettleGrant.Release` | core/credit.go:450-458 | drops the slot once |
| `Handler.CoreHandler.ReleaseStuck` | internal/protocol/handler_batch.go:95-117 | running alone: terminates; settles exactly the old slots, once each, ascending; sends each its RESULT; refunds exactly their charges; leaves the rest |
| `ReaperRuns.ReaperStops` | internal/protocol/handler_batch.go:101-112 | under any steps of others between its pick and its two lock sections, the loop picks numbers in ascending order, none twice, and makes at most as many rounds as slots were stuck |
| `ReaperRuns.RoundClears` | core/credit.go:463-489 | a round clears the number it picked, whoever settles it, and makes no other number stuck |
| `Handler.CoreHandler.FlushPending` | internal/protocol/handler_batch.go:48-61 | sends exactly what was recovered, nothing when there is nothing, and conserves the held credit |
| `Handler.CoreHandler.ProcessBatch` | internal/protocol/handler_batch.go:159-215 | a number in flight is answered ACCEPTED with its slot's correlation, a remembered one with its stored level and code, a forgotten one RELEASED, all without effect; a new one aborts without credit, and otherwise its RESULT says what `Reports` demands and it is left in flight charged, or settled with its whole charge refunded |
| `Handler.CoreHandler.ProcessTwice` | internal/protocol/handler_batch.go:165-187 | a settled batch that is sent again gets the same level and code |
| `Handler.ConcludedReports` | internal/protocol/handler_batch.go:196-243 | the RESULT is DURABLE exactly for what the sink stored, REJECTED exactly for what validation or the sink rejected, RELEASED exactly for what was refused or released, with the sink's non-zero code; what is sent is what is recorded |
| `Handler.CoreHandler.Conclude` | internal/protocol/handler_batch.go:196-215 | the part after the charge, for a grant in any state: release, abort, reject or deliver, and nothing for a finished grant |
| `Handler.CoreHandler.DeliverBatch` | internal/protocol/handler_batch.go:220-243 | for a grant in any state: durable mode sends an interim unless one was sent or the grant is finished, for instance by the sink itself; the other modes settle |
| `Handler.ConcludedAlone` | internal/protocol/handler_batch.go:190-243 | on a slot just charged the outcome is one of: left in flight with its charge, settled with a full refund, or dropped for missing keys |
| `Handler.CoreHandler.RejectAtCapacity` | internal/protocol/handler_batch.go:66-88 | a new number is charged, answered RELEASED with code 32 and a retry after a second, recorded and fully refunded; known ones are ignored |
| `Handler.DoneCallback.Call` | internal/protocol/handler_batch.go:314-341 | only the first call in durable mode settles: DURABLE exactly for a durable or accepted report, REJECTED for a rejected one, RELEASED for a released one, with the reported code or 40, refunding the registered charge; an unknown level uses the call up and settles nothing |
| `Handler.ReapStep` | internal/protocol/handler_batch.go:101-112 | one round keeps order, refund and history of the reaper loop and shrinks what is stuck |
| `Handler.ReapedAll` | internal/protocol/handler_batch.go:101-112 | when nothing old is left, exactly the originally stuck slots were released |
| `Ledger.SafeAgainstAnyServer` | core/credit.go:83-203 | for any operations and any CREDIT values, 0 <= returned <= consumed and 0 <= available <= granted <= clamp hold in both dimensions if and only if the initial credit is not negative |
| `Ledger.SendGrantedIff` | core/credit.go:113-125 | a send is granted exactly when both counters have enough left, and then spends just that |
| `Ledger.NewLedgerGrants` | core/credit.go:83-125 | a new ledger grants any list of sends whole if and only if it stays within the initial credit, cut to the clamps, in number and bytes |
| `Ledger.CreditBooked` | core/credit.go:129-153 | a CREDIT is booked up to the original grant; it counts a violation exactly when it is negative or goes beyond |
| `Ledger.CreditsAddUp` | core/credit.go:129-153 | any number of CREDITs gives their sum, up to the original grant |
| `Ledger.ResultsReturnNothing` | core/credit.go:155-203 | RESULT handling, reaping and resetting never change the available credit |
| `Ledger.RollbackUndoesConsume` | core/credit.go:167-188 | rolling back a send restores available credit and slots |
| `ClientLedger.CreditLedger.constructor` | core/credit.go:83-103 | default clamps, and the initial credit cut to them |
| `ClientLedger.CreditLedger.Consume` | core/credit.go:113-125 | succeeds exactly when granted minus consumed plus returned covers one batch and the bytes; then spends and registers, otherwise changes nothing |
| `ClientLedger.CreditLedger.OnCredit` | core/credit.go:129-153 | zeros ignored, negatives and excess counted, excess cut off |
| `ClientLedger.CreditLedger.Terminal` | core/credit.go:157-165 | removes and returns the slot, no credit |
| `ClientLedger.CreditLedger.Rollback` | core/credit.go:170-188 | removes the slot and compensates, or does nothing for an unknown number |
| `ClientLedger.CreditLedger.ReapExpired` | core/credit.go:191-203 | removes exactly the expired slots, each reported once and marked failed |
| `ClientLedger.CreditLedger.Reset` | core/credit.go:220-224 | clears the slots only |
| `Client.NonceReuseIff` | core/keyschedule.go:319-326 | two envelopes of a session share a nonce if and only if their draws differ by a multiple of 2^64 |
| `Client.NoncesUnique` | core/credit.go:34-40 | below 2^64 draws all nonces differ, over any mix of sends |
| `Client.NonceInjective` | core/keyschedule.go:321-326 | a nonce determines prefix and number |
| `Client.NonceLayout` | core/keyschedule.go:319-326 | four bytes of prefix, then the whole counter, most significant byte first |
| `Client.CoreClient.EncodeAndSeal` | internal/protocol/client.go:250-287 | one draw per attempt past the checks, one nonce per sealed envelope, and the seal log stays valid |
| `Client.CoreClient.SendBatch` | internal/protocol/client.go:290-313 | the number stays spent when credit is refused; the ledger changes as `Ledger.Consume` says |
| `Client.CoreClient.SendDatagram` | internal/protocol/client.go:334-355 | draws from the same counter and touches no credit; without an unreliable channel it pays like a batch |
| `Client.CoreClient.FinishWrite` | internal/protocol/client.go:315-322 | a failed write rolls back, a finished one changes nothing |
| `Client.CoreClient.HandleResult` | internal/protocol/client_control.go:71-94 | drops the slot of a valid RESULT and reports an empty ledger |
| `Client.CoreClient.HandleCredit` | internal/protocol/client_control.go:99-116 | a zero in either dimension tears down and resets; other values are booked as signed 64-bit numbers |
| `Frame.VarintIsCanonical` | core/frame.go:179-182 | decoding an encoding gives the value back, and encodings are shortest |
| `Frame.CanonicalIsVarint` | core/frame.go:185-205 | every canonical string is the encoding of its value |
| `Frame.PutVarint` | core/frame.go:179-182 | writes the shortest encoding |
| `Frame.VarintGroups` | core/frame.go:179-182 | byte i holds the i-th group of seven bits, lowest first, and says whether more follow |
| `Frame.Stream.ReadVarint` | core/frame.go:185-205 | succeeds exactly on the shortest encoding of a 64-bit value, followed by anything, and consumes just that |
| `Frame.AcceptsSound` | core/frame.go:193-201 | what decoder and shortness test accept is such an encoding |
| `Frame.AcceptsComplete` | core/frame.go:193-201 | and every such encoding is accepted |
| `Frame.Stream.Write` | core/frame.go:89-130 | appends the frame, or nothing for reserved flags or oversized payloads; a short write leaves exactly the written part, and it or a reported error is passed on |
| `Frame.Stream.ReadHeader` | core/frame.go:140-153 | reads a header exactly when one is there, and says why not otherwise |
| `Frame.Stream.Read` | core/frame.go:140-177 | reads a frame exactly when the stream starts with one within the limit and the reader does not fail inside its payload; consumes just that frame in both cases, so the next read starts at a boundary |
| `Frame.ReadAll` | core/frame.go:140-177 | reading the bytes of any list of in-limit frames returns that list |
| `Frame.WriteThenRead` | core/frame.go:89-177 | with no limit configured, any payload up to 16 MiB is written and read back |
| `Frame.StreamInjective` | core/frame.go:89-116 | no two lists of frames share a byte stream |
| `Encoding.BigEndianInjective` | core/envelope.go:155-156 | fixed-width big-endian fields determine their value |
| `Encoding.BigEndianValue` | core/envelope.go:155-156 | a fixed-width field has the big-endian value that was written |
| `Encoding.PrefixedUnique` | core/envelope.go:163-168 | a length-prefixed chunk and what follows it are determined |
| `Encoding.EnvelopeADInjective` | core/envelope.go:149-161 | associated data agree if and only if type, session, number, profile name and the low bytes of epoch and compression agree |
| `Encoding.ADLayout` | core/envelope.go:149-161 | the position of every bound field in the associated data |
| `Encoding.TranscriptPreimage` | core/keyschedule.go:151-162 | the loop writes the framing of the chunk list |
| `Encoding.FramedInjective` | core/keyschedule.go:151-162 | a chunk list is uniquely decodable from its framing |
| `Encoding.FramedLayout` | core/keyschedule.go:151-162 | every chunk stands behind the four-byte value of its length, in order |
| `Encoding.TranscriptsDisjoint` | core/keyschedule.go:165-186 | hello and full transcripts never hash the same bytes, and each determines its inputs |
| `TokenBucket.WindowBound` | internal/protocol/handler_batch.go:277-300 | in every run and window, admitted bytes are at most rate plus rate times window length |
| `TokenBucket.RunWithin` | internal/protocol/handler_batch.go:277-300 | the balance stays between 0 and the rate |
| `TokenBucket.AdmittedIff` | internal/protocol/handler_batch.go:284-298 | a request is admitted exactly when a new bucket's rate, or the refilled balance up to the rate, covers it, and is then paid for |
| `TokenBucket.PacedIsAdmitted` | internal/protocol/handler_batch.go:277-300 | a sender that waits until each request is paid for again is never refused |
| `TokenBucket.IdleRefill` | internal/protocol/handler_batch.go:287-293 | truncation costs less than one byte per request |
| `TokenBucket.AccruesAtRateIff` | internal/protocol/handler_batch.go:287-293 | balance plus admitted bytes grow at exactly the rate if and only if every gap yields whole bytes and the bucket never overflows, and by strictly less otherwise |
| `TokenBucket.StarvesIffCrowded` | internal/protocol/handler_batch.go:287-300 | requests larger than a balance that is not full are all refused and leave it unchanged if and only if they come closer than one byte's worth of time |
| `TokenBucket.HalfSecondsStarve` | internal/protocol/handler_batch.go:277-300 | at one byte per second, a new limiter admits one byte and then refuses one-byte requests every half second for ever |
| `TokenBucket.DatagramLimiter.Allow` | internal/protocol/handler_batch.go:277-300 | one step of the bucket; no limit for a rate of zero or less |
| `Sink.ByteAccounting` | internal/protocol/handler_sink.go:50-93 | in every interleaving the counter equals reserved plus queued plus running bytes, within the limit, and is 0 when nothing is left |
| `SinkAdmission.VerdictIff` | internal/protocol/handler_sink.go:57-93 | a caller is refused for the limit exactly when the loaded counter plus its bytes exceeds it, for the capacity exactly when the queue is full at its push, and by either shutdown check exactly when shutdown has begun |
| `SinkAdmission.TakenIffRoom` | internal/protocol/handler_sink.go:50-93 | from any state a caller nobody disturbs is taken if and only if there is no shutdown and room below the limit and in the queue, and its task is then last in the queue |
| `SinkAdmission.FirstInFirstOut` | internal/protocol/handler_sink.go:111-127 | in every continuation tasks leave the queue in the order in which they entered it |
| `SinkShutdown.TakenTasksFinish` | internal/protocol/handler_sink.go:80-127 | in every interleaving a task reported as taken is queued, running or finished, and it is finished once the last worker has left; what is queued then was pushed after that, and its caller is told it was refused |
| `SinkShutdown.RunsIff` | internal/protocol/handler_sink.go:50-127 | in every interleaving a returned caller's task runs in some continuation if and only if it was taken, or refused by the shutdown check after its push, and a worker was left at that push; once all workers have left, exactly these have run |
| `SinkShutdown.NeverFinishes` | internal/protocol/handler_sink.go:78-127 | a task that was never queued, or pushed after the last worker had left, runs in no continuation |
| `SinkShutdown.DrainTo` | internal/protocol/handler_sink.go:111-127 | while a worker is left, every queued task can be reached and run |
| `SinkShutdown.RefusedLateIffDown` | internal/protocol/handler_sink.go:80-86 | a caller is refused by the check after its push if and only if its task is queued and shutdown has begun |
| `SinkShutdown.RefusedMayRun` | internal/protocol/handler_sink.go:81-86 | a task queued while shutdown begins is reported as refused and still runs |
| `SinkShutdown.PushAfterLastLeave` | internal/protocol/handler_sink.go:78-127 | a caller can push after the last worker has left, and the second check then refuses |
| `Sink.StepKeeps` | internal/protocol/handler_sink.go:50-151 | every step of callers, workers and shutdown keeps the byte balance, every task in one place and every worker accounted for |
| `Deduper.HeldStep` | core/deduper.go:53-74 | remove, append and evict is exactly holding the `cap` most recently admitted distinct keys |
| `Deduper.HeldIff` | core/deduper.go:65-74 | a key is held exactly while fewer than `cap` other keys were admitted since its last admission |
| `Deduper.RejectedIff` | core/deduper.go:46-57 | a key is rejected exactly when it is held and its last admission is younger than the time to live, if there is one |
| `Deduper.KeysDistinct` | core/deduper.go:53-66 | the admission order lists every admitted key once |
| `Deduper.CorrelationDeduper.constructor` | core/deduper.go:37-42 | starts empty; a capacity of zero or less becomes 65536 |
| `Deduper.CorrelationDeduper.Dedup` | core/deduper.go:46-76 | rejects a non-empty key exactly when it is held and within its time to live; otherwise admits it |
| `Deduper.CorrelationDeduper.Forget` | core/deduper.go:57-63 | removes an expired key from map and list |
| `Deduper.CorrelationDeduper.Register` | core/deduper.go:65-74 | map and list again hold the `cap` most recent keys |
| `Deduper.CorrelationDeduper.Evict` | core/deduper.go:67-74 | keeps the newest `cap` keys and their times |
| `Deduper.CorrelationDeduper.Seen` | core/deduper.go:79-90 | reports exactly the held keys within their time to live |
| `Deduper.CorrelationDeduper.Bounded` | core/deduper.go:67-74 | map and list have the same size, at most `cap` |

## Left out

- Cryptography, compression and dictionaries, protobuf and CBOR: foreign code; sealing appears only as nonce and associated data.
- Transports, handshake negotiation, sessions, heartbeats, redirects, commands, metrics, logging: wiring without a law of its own.
- Machine integers of the credit counters and server sequence numbers: unbounded here; only the client's counter, the CREDIT conversion and the encodings wrap or truncate explicitly.
- Wall-clock behaviour of the reaper and the flush timer: safety and loop termination only, time is a parameter.
- Teardown: runs end when a side aborts; an expired session and a BATCH write that fails after delivery are outside `Connection`.
- The branch for missing session keys after a charge: modelled in `ProcessBatch`, not an action of `Connection`, because keys are stored before data frames are read.
- Wire order of RESULT frames: results are sent outside the lock, so order is stated on decisions.
- Size of the accepted set: datagram and refused numbers leave permanent gaps at `low`, so there is no bound.
- `SentAt` and the reaper's log summary: observation only.
- Synchronous sinks and the task deadline in `Sink`: their grant side is covered by `DeliverBatch` and `ServerRuns`; the queue is modelled as a transition system, not as a class, because its content is the interleaving of atomic steps.
- ReleaseStuck: stated for the loop running alone; under interference `ReaperStops` states termination, and the two lock sections are actions of `ServerRuns` and `Connection`.
- ForceSettle: stated without interference between its two lock sections; these are separate actions of `ServerRuns` and `Connection`.
- ProcessBatch: stated for one frame running alone; interleavings are actions of `Connection`.
- Conclude: covers a grant in any state at its start, not steps of others between its own lock sections; those are actions of `Connection`.
- WindowBound: real arithmetic, no floating-point rounding.
- Read: a reader that fails inside a header and then goes on is not modelled; any other failure is.
