/** Idempotency keys: the stored record of a (user, key) pair, begin / complete / fail on it, and the calls that
    execute an operation between begin and complete. Each call is one step at a server time. */
module Idempotency {
  import opened JsText
  import opened CanonicalJson

  const PROCESSING_LOCK_MS := 30_000

  datatype SyncStatus = RECEIVED | PROCESSING | COMPLETED | FAILED | CONFLICT | EXPIRED
  datatype LogicalStatus = Started | Completed | Failed | Conflict | Expired

  /** A response body is opaque; ErrorBody is what a failure stores. */
  datatype Body = Response(content: nat) | ErrorBody

  datatype Record = Record(
    operation: nat,
    requestHash: Text,
    status: SyncStatus,
    lockedUntil: Option<int>,
    expiresAt: int,
    httpStatus: Option<int>,
    responseBody: Option<Body>)

  datatype BeginInput = BeginInput(operation: nat, requestHash: Text, ttlSeconds: int)

  datatype Lookup = Lookup(found: bool, replay: bool, record: Option<Record>)

  datatype Outcome =
    | Proceed
    | Replay(record: Record)
    | InProgress
    | KeyReused

  function ToLogical(s: SyncStatus): LogicalStatus {
    match s
    case RECEIVED => Started
    case PROCESSING => Started
    case COMPLETED => Completed
    case FAILED => Failed
    case CONFLICT => Conflict
    case EXPIRED => Expired
  }

  predicate IsTerminal(s: LogicalStatus) {
    s == Completed || s == Failed || s == Conflict || s == Expired
  }

  // ---- The store ----------------------------------------------------------------------------------------------

  function ProcessingRecord(input: BeginInput, now: int): Record {
    Record(input.operation, input.requestHash, PROCESSING, Some(now + PROCESSING_LOCK_MS),
           now + input.ttlSeconds * 1000, None, None)
  }

  /** The store's begin on the record of one key: the record afterwards and the lookup result. */
  function StoreBegin(existing: Option<Record>, input: BeginInput, now: int): (Record, Lookup) {
    if existing.None? then
      var created := ProcessingRecord(input, now);
      (created, Lookup(false, false, Some(created)))
    else
      var r := existing.value;
      if r.status == PROCESSING && r.lockedUntil.Some? && r.lockedUntil.value > now then
        (r, Lookup(true, false, Some(r)))
      else if r.status == COMPLETED then (r, Lookup(true, r.requestHash == input.requestHash, Some(r)))
      else if (r.status == FAILED || r.status == CONFLICT) && r.requestHash != input.requestHash then
        (r, Lookup(true, false, Some(r)))
      else
        var updated := ProcessingRecord(input, now);
        (updated, Lookup(false, false, Some(updated)))
  }

  function CompletedRecord(r: Record, code: int, body: Option<Body>): Record {
    r.(status := COMPLETED, httpStatus := Some(code), responseBody := body, lockedUntil := None)
  }

  function FailedRecord(r: Record): Record {
    r.(status := FAILED, lockedUntil := None, responseBody := Some(ErrorBody))
  }

  /** The service's reading of a lookup result. */
  function ServiceOutcome(l: Lookup, input: BeginInput): Outcome {
    if l.replay && l.record.Some? then Replay(l.record.value)
    else if l.found && l.record.Some? && ToLogical(l.record.value.status) == Started then InProgress
    else if l.found && l.record.Some? && IsTerminal(ToLogical(l.record.value.status))
            && l.record.value.requestHash != input.requestHash then KeyReused
    else Proceed
  }

  // ---- One key as a protocol --------------------------------------------------------------------------------------

  datatype Execution = Execution(requestHash: Text, since: int)

  /** The record of one (user, key), the executions under way for it, and the time of the last step. */
  datatype Slot = Slot(record: Option<Record>, running: seq<Execution>, clock: int)

  datatype Event =
    | Begin(input: BeginInput, at: int)
    | Complete(index: nat, code: int, body: Option<Body>, at: int)
    | Fail(index: nat, at: int)

  const FRESH := Slot(None, [], 0)

  predicate Enabled(s: Slot, e: Event) {
    s.clock <= e.at
    && match e
       case Begin(_, _) => true
       case Complete(i, _, _, _) => i < |s.running| && s.record.Some?
       case Fail(i, _) => i < |s.running| && s.record.Some?
  }

  function OutcomeOf(s: Slot, input: BeginInput, at: int): Outcome {
    ServiceOutcome(StoreBegin(s.record, input, at).1, input)
  }

  /** The caller returns a replayed body and otherwise executes - also when the replayed record has no body. */
  predicate Executes(o: Outcome) {
    o.Proceed? || (o.Replay? && o.record.responseBody.None?)
  }

  function Step(s: Slot, e: Event): Slot
    requires Enabled(s, e)
  {
    match e
    case Begin(input, at) =>
      Slot(Some(StoreBegin(s.record, input, at).0),
           if Executes(OutcomeOf(s, input, at)) then s.running + [Execution(input.requestHash, at)] else s.running, at)
    case Complete(i, code, body, at) =>
      Slot(Some(CompletedRecord(s.record.value, code, body)), s.running[..i] + s.running[i + 1..], at)
    case Fail(i, at) =>
      Slot(Some(FailedRecord(s.record.value)), s.running[..i] + s.running[i + 1..], at)
  }

  ghost predicate Possible(s: Slot, run: seq<Event>)
    decreases |run|
  {
    run == [] || (Enabled(s, run[0]) && Possible(Step(s, run[0]), run[1..]))
  }

  function After(s: Slot, run: seq<Event>): Slot
    requires Possible(s, run)
    decreases |run|
  {
    if run == [] then s else After(Step(s, run[0]), run[1..])
  }

  /** Every execution under way is still inside its lock. */
  predicate WithinLock(s: Slot, at: int) {
    forall x <- s.running :: at < x.since + PROCESSING_LOCK_MS
  }

  /** No begin while an execution under way is past its lock. An execution may well finish late. */
  predicate OnTime(s: Slot, e: Event) {
    e.Begin? ==> WithinLock(s, e.at)
  }

  ghost predicate NoLateBegin(s: Slot, run: seq<Event>)
    requires Possible(s, run)
    decreases |run|
  {
    run == [] || (OnTime(s, run[0]) && NoLateBegin(Step(s, run[0]), run[1..]))
  }

  /** Every response is stored with a body, as each caller of complete does. */
  ghost predicate WithBodies(run: seq<Event>) {
    forall e <- run :: e.Complete? ==> e.body.Some?
  }

  ghost predicate Punctual(s: Slot, run: seq<Event>)
    requires Possible(s, run)
  {
    NoLateBegin(s, run) && WithBodies(run)
  }

  /** At most one execution is under way, exactly while the record is processing, locked and carries its hash. */
  predicate Inv(s: Slot) {
    if |s.running| == 0 then
      s.record.None?
      || s.record.value.status == FAILED
      || (s.record.value.status == COMPLETED && s.record.value.responseBody.Some?)
    else
      |s.running| == 1 && s.record.Some? && s.record.value.status == PROCESSING
      && s.record.value.requestHash == s.running[0].requestHash
      && s.record.value.lockedUntil == Some(s.running[0].since + PROCESSING_LOCK_MS)
  }

  /** What one punctual step keeps: the invariant, the key's hash, and a completed record as it is. */
  lemma StepKeeps(s: Slot, e: Event)
    requires Inv(s) && Enabled(s, e) && OnTime(s, e) && (e.Complete? ==> e.body.Some?)
    ensures Inv(Step(s, e))
    ensures s.record.Some? ==>
              Step(s, e).record.Some? && Step(s, e).record.value.requestHash == s.record.value.requestHash
    ensures s.record.Some? && s.record.value.status == COMPLETED ==> Step(s, e).record == s.record
  {
    if |s.running| == 1 {
      assert s.running[0] in s.running;
    }
  }

  lemma {:induction false} RunKeeps(s: Slot, run: seq<Event>)
    requires Inv(s) && Possible(s, run) && Punctual(s, run)
    ensures Inv(After(s, run))
    ensures s.record.Some? ==>
              After(s, run).record.Some? && After(s, run).record.value.requestHash == s.record.value.requestHash
    ensures s.record.Some? && s.record.value.status == COMPLETED ==> After(s, run).record == s.record
    decreases |run|
  {
    hide Inv, Step, Enabled;
    if run != [] {
      StepKeeps(s, run[0]);
      RunKeeps(Step(s, run[0]), run[1..]);
    }
  }

  lemma {:induction false} RunSplits(s: Slot, before: seq<Event>, after: seq<Event>)
    requires Possible(s, before + after) && Punctual(s, before + after)
    ensures Possible(s, before) && Punctual(s, before)
    ensures Possible(After(s, before), after) && Punctual(After(s, before), after)
    ensures After(s, before + after) == After(After(s, before), after)
    decreases |before|
  {
    hide Step, Enabled;
    if before == [] {
      assert before + after == after;
    } else {
      assert (before + after)[1..] == before[1..] + after;
      RunSplits(Step(s, before[0]), before[1..], after);
    }
  }

  /** At most one execution is under way at every point of the run. */
  ghost predicate OneInFlight(s: Slot, run: seq<Event>)
    requires Possible(s, run)
    decreases |run|
  {
    |s.running| <= 1 && (run == [] || OneInFlight(Step(s, run[0]), run[1..]))
  }

  lemma {:induction false} OneInFlightFrom(s: Slot, run: seq<Event>)
    requires Inv(s) && Possible(s, run) && WithBodies(run)
    ensures OneInFlight(s, run) <==> NoLateBegin(s, run)
    decreases |run|
  {
    hide Step, Enabled;
    if run != [] {
      assert run[0] in run;
      assert WithBodies(run[1..]);
      if OnTime(s, run[0]) {
        StepKeeps(s, run[0]);
        OneInFlightFrom(Step(s, run[0]), run[1..]);
      } else {
        LateBeginMakesTwo(s, run[0]);
      }
    }
  }

  lemma LateBeginMakesTwo(s: Slot, e: Event)
    requires Inv(s) && Enabled(s, e) && !OnTime(s, e)
    ensures |Step(s, e).running| == 2
  {
    assert |s.running| == 1;
    SecondExecutionExactly(s, e.input, e.at);
  }

  /** Over every run of one key whose responses have bodies: at most one execution is ever under way if and only if no
      begin comes while an execution is past its lock. */
  lemma OneInFlightExactly(run: seq<Event>)
    requires Possible(FRESH, run) && WithBodies(run)
    ensures OneInFlight(FRESH, run) <==> NoLateBegin(FRESH, run)
  {
    OneInFlightFrom(FRESH, run);
  }

  /** The protocol over all punctual runs of one key: at most one execution is ever under way, the hash of the key
      never changes once set, and a completed record with its response is never overwritten. */
  lemma {:induction false} ProtocolSafety(before: seq<Event>, after: seq<Event>)
    requires Possible(FRESH, before + after) && Punctual(FRESH, before + after)
    ensures Possible(FRESH, before) && Possible(After(FRESH, before), after)
    ensures var s, t := After(FRESH, before), After(FRESH, before + after);
            && |s.running| <= 1
            && (s.record.Some? ==> t.record.Some? && t.record.value.requestHash == s.record.value.requestHash)
            && (s.record.Some? && s.record.value.status == COMPLETED ==> t.record == s.record)
  {
    RunSplits(FRESH, before, after);
    RunKeeps(FRESH, before);
    RunKeeps(After(FRESH, before), after);
  }

  /** What begin answers in every reachable state: a completed key replays its stored body for the same hash and
      rejects any other; a key in execution is in progress for everyone; a failed key executes again only for its own
      hash; an unused key executes. */
  lemma BeginAnswers(run: seq<Event>, input: BeginInput, at: int)
    requires Possible(FRESH, run) && Punctual(FRESH, run)
    requires var s := After(FRESH, run); s.clock <= at && WithinLock(s, at)
    ensures var s := After(FRESH, run);
            var o := OutcomeOf(s, input, at);
            var same := s.record.Some? && s.record.value.requestHash == input.requestHash;
            && (s.record.None? ==> o == Proceed)
            && (s.running != [] ==> o == InProgress)
            && (s.record.Some? && s.running == [] && s.record.value.status == COMPLETED ==>
                  if same then o == Replay(s.record.value) && s.record.value.responseBody.Some? && !Executes(o)
                  else o == KeyReused)
            && (s.record.Some? && s.running == [] && s.record.value.status != COMPLETED ==>
                  o == if same then Proceed else KeyReused)
  {
    RunKeeps(FRESH, run);
    var s := After(FRESH, run);
    if s.running != [] { assert s.running[0] in s.running; }
  }

  /** A key answered for one payload is never answered for a different one: payloads that are not equal up to key
      order have different hashes, so once some run has set the key's hash the other payload does not execute. */
  lemma DifferentPayloadNeverExecutes(run: seq<Event>, stored: Json, sent: Json, input: BeginInput, at: int)
    requires Possible(FRESH, run) && Punctual(FRESH, run)
    requires var s := After(FRESH, run); s.clock <= at && WithinLock(s, at)
    requires WellFormed(stored) && WellFormed(sent) && !Same(stored, sent)
    requires var s := After(FRESH, run); s.record.Some? && s.record.value.requestHash == StableStringify(stored)
    requires input.requestHash == StableStringify(sent)
    ensures var o := OutcomeOf(After(FRESH, run), input, at);
            !Executes(o) && (o == InProgress || o == KeyReused)
  {
    hide StableStringify, Same, WellFormed, StoreBegin, ServiceOutcome;
    CanonicalTextIsFaithful(stored, sent);
    BeginAnswers(run, input, at);
  }

  // ---- How an execution ended --------------------------------------------------------------------------------------

  lemma OneMore(run: seq<Event>, e: Event)
    requires Possible(FRESH, run + [e]) && Punctual(FRESH, run + [e])
    ensures Possible(FRESH, run) && Punctual(FRESH, run) && Enabled(After(FRESH, run), e)
    ensures After(FRESH, run + [e]) == Step(After(FRESH, run), e)
  {
    hide Step, Enabled;
    RunSplits(FRESH, run, [e]);
    assert [e][1..] == [];
  }

  /** After an execution has failed, the next begin with its hash proceeds and executes again; any other hash is
      refused. */
  lemma FailureAllowsRetry(run: seq<Event>, i: nat, at: int, input: BeginInput, later: int)
    requires Possible(FRESH, run + [Fail(i, at)]) && Punctual(FRESH, run + [Fail(i, at)]) && at <= later
    ensures Possible(FRESH, run) && i < |After(FRESH, run).running|
    ensures var o := OutcomeOf(After(FRESH, run + [Fail(i, at)]), input, later);
            if input.requestHash == After(FRESH, run).running[i].requestHash then o == Proceed && Executes(o)
            else o == KeyReused && !Executes(o)
  {
    OneMore(run, Fail(i, at));
    RunKeeps(FRESH, run);
  }

  /** After an execution has completed, the next begin with its hash replays the code and the body it completed with,
      and does not execute; any other hash is refused. */
  lemma CompletionIsReplayed(run: seq<Event>, i: nat, code: int, body: Body, at: int, input: BeginInput, later: int)
    requires Possible(FRESH, run + [Complete(i, code, Some(body), at)])
    requires Punctual(FRESH, run + [Complete(i, code, Some(body), at)]) && at <= later
    ensures Possible(FRESH, run) && i < |After(FRESH, run).running|
    ensures var o := OutcomeOf(After(FRESH, run + [Complete(i, code, Some(body), at)]), input, later);
            && !Executes(o)
            && if input.requestHash == After(FRESH, run).running[i].requestHash
               then o.Replay? && o.record.httpStatus == Some(code) && o.record.responseBody == Some(body)
               else o == KeyReused
  {
    OneMore(run, Complete(i, code, Some(body), at));
    RunKeeps(FRESH, run);
  }

  ghost predicate BegunBy(r: Record, e: Event) {
    e.Begin? && r.operation == e.input.operation && r.requestHash == e.input.requestHash
    && r.expiresAt == e.at + 1000 * e.input.ttlSeconds
  }

  /** The record tells what happened: its operation, hash and expiry are those of a begin; while it is processing, its
      lock runs 30 seconds from that begin; a completed one has code and body of a completion, a failed one the error
      body. */
  ghost predicate Traced(r: Record, past: seq<Event>) {
    && (exists e <- past :: BegunBy(r, e) && (r.status == PROCESSING ==> r.lockedUntil == Some(e.at + 30_000)))
    && (r.status == PROCESSING || r.status == COMPLETED || r.status == FAILED)
    && (r.status == COMPLETED ==>
          exists e <- past :: e.Complete? && r.httpStatus == Some(e.code) && r.responseBody == e.body)
    && (r.status == FAILED ==> (exists e <- past :: e.Fail?) && r.responseBody == Some(ErrorBody))
    && (r.status != PROCESSING ==> r.lockedUntil == None)
    && (r.status == PROCESSING ==> r.httpStatus == None && r.responseBody == None)
    && (r.httpStatus.Some? ==> exists e <- past :: e.Complete? && r.httpStatus == Some(e.code))
  }

  lemma StepTraced(s: Slot, past: seq<Event>, e: Event)
    requires Enabled(s, e) && (s.record.Some? ==> Traced(s.record.value, past))
    ensures Step(s, e).record.Some? && Traced(Step(s, e).record.value, past + [e])
  {
    var all := past + [e];
    assert e in all && forall x <- past :: x in all;
    var r := Step(s, e).record.value;
    if !(e.Begin? && s.record != Some(r)) {
      var x :| x in past && BegunBy(s.record.value, x)
               && (s.record.value.status == PROCESSING ==> s.record.value.lockedUntil == Some(x.at + 30_000));
      assert BegunBy(r, x);
    } else {
      assert BegunBy(r, e);
    }
  }

  lemma {:induction false} TracedOn(s: Slot, past: seq<Event>, run: seq<Event>)
    requires Possible(s, run) && (s.record.Some? ==> Traced(s.record.value, past))
    ensures After(s, run).record.Some? ==> Traced(After(s, run).record.value, past + run)
    decreases |run|
  {
    hide Step, Enabled, Traced;
    if run == [] {
      assert past + run == past;
    } else {
      StepTraced(s, past, run[0]);
      assert past + run == past + [run[0]] + run[1..];
      TracedOn(Step(s, run[0]), past + [run[0]], run[1..]);
    }
  }

  /** In every run, punctual or not, the record of the key tells what happened, and a replay answers the same hash with
      the code and body of a completion of the run. */
  lemma RecordIsTraced(run: seq<Event>, input: BeginInput, at: int)
    requires Possible(FRESH, run)
    ensures After(FRESH, run).record.Some? ==> Traced(After(FRESH, run).record.value, run)
    ensures var o := OutcomeOf(After(FRESH, run), input, at);
            o.Replay? ==>
              && o.record.requestHash == input.requestHash
              && exists e <- run ::
                   e.Complete? && o.record.httpStatus == Some(e.code) && o.record.responseBody == e.body
  {
    hide Step, Enabled;
    TracedOn(FRESH, [], run);
    assert [] + run == run;
  }

  // ---- Both hypotheses are needed -----------------------------------------------------------------------------------

  /** While an execution is under way, another begin executes as well exactly when the lock has run out. */
  lemma SecondExecutionExactly(s: Slot, input: BeginInput, at: int)
    requires Inv(s) && |s.running| == 1 && s.clock <= at
    ensures Executes(OutcomeOf(s, input, at)) <==> at >= s.running[0].since + 30_000
    ensures Executes(OutcomeOf(s, input, at)) ==>
              |Step(s, Begin(input, at)).running| == 2
              && Step(s, Begin(input, at)).record.value.requestHash == input.requestHash
  {
  }

  /** A caller executes a completed key again for its own hash exactly when its response was stored without a body. */
  lemma ReplayExecutesExactly(s: Slot, input: BeginInput, at: int)
    requires s.record.Some? && s.record.value.status == COMPLETED && s.record.value.requestHash == input.requestHash
    ensures Executes(OutcomeOf(s, input, at)) <==> s.record.value.responseBody.None?
  {
  }

  /** Bodies are needed: a response stored without one is not replayed, and since a replay takes no lock, two more
      begins of the same request are both executed at once. */
  lemma BodylessResponseRunsTwice(a: BeginInput)
    ensures var run := [Begin(a, 0), Complete(0, 200, None, 1), Begin(a, 2), Begin(a, 3)];
            Possible(FRESH, run) && NoLateBegin(FRESH, run) && |After(FRESH, run).running| == 2
  {
    var e0, e1, e2, e3 := Begin(a, 0), Complete(0, 200, None, 1), Begin(a, 2), Begin(a, 3);
    var s1 := Step(FRESH, e0);
    assert s1.running == [Execution(a.requestHash, 0)];
    var s2 := Step(s1, e1);
    assert s2.running == [];
    var s3 := Step(s2, e2);
    assert s3.running == [Execution(a.requestHash, 2)];
    var s4 := Step(s3, e3);
    assert [e0, e1, e2, e3][1..] == [e1, e2, e3] && [e1, e2, e3][1..] == [e2, e3] && [e2, e3][1..] == [e3]
    && [e3][1..] == [];
    assert Possible(s4, []) && After(s4, []) == s4 && NoLateBegin(s4, []);
    assert Possible(s3, [e3]) && After(s3, [e3]) == s4 && NoLateBegin(s3, [e3]);
    assert Possible(s2, [e2, e3]) && After(s2, [e2, e3]) == s4 && NoLateBegin(s2, [e2, e3]);
    assert Possible(s1, [e1, e2, e3]) && After(s1, [e1, e2, e3]) == s4 && NoLateBegin(s1, [e1, e2, e3]);
  }

  /** A late execution: after the lock ran out a different payload takes the key, both run, and the one that finishes
      last overwrites the completed response of the other. */
  lemma LateExecutionOverwrites(a: BeginInput, b: BeginInput, x: Body, y: Body)
    requires a.requestHash != b.requestHash && x != y
    ensures var run := [Begin(a, 0), Begin(b, PROCESSING_LOCK_MS), Complete(1, 201, Some(y), PROCESSING_LOCK_MS)];
            var late := [Complete(0, 201, Some(x), PROCESSING_LOCK_MS)];
            && Possible(FRESH, run) && Possible(After(FRESH, run), late)
            && var s, t := After(FRESH, run), After(After(FRESH, run), late);
               s.record.Some? && s.record.value.status == COMPLETED && s.record.value.responseBody == Some(y)
               && t.record.Some? && t.record.value.responseBody == Some(x)
               && t.record.value.requestHash == b.requestHash
  {
    var e0, e1, e2 := Begin(a, 0), Begin(b, PROCESSING_LOCK_MS), Complete(1, 201, Some(y), PROCESSING_LOCK_MS);
    var e3 := Complete(0, 201, Some(x), PROCESSING_LOCK_MS);
    var s1 := Step(FRESH, e0);
    assert s1.running == [Execution(a.requestHash, 0)];
    var s2 := Step(s1, e1);
    assert s2.running == [Execution(a.requestHash, 0), Execution(b.requestHash, PROCESSING_LOCK_MS)];
    var s3 := Step(s2, e2);
    assert s3.running == [Execution(a.requestHash, 0)];
    assert [e0, e1, e2][1..] == [e1, e2] && [e1, e2][1..] == [e2] && [e2][1..] == [] && [e3][1..] == [];
    assert Possible(s3, []) && After(s3, []) == s3;
    assert Possible(s2, [e2]) && After(s2, [e2]) == s3;
    assert Possible(s1, [e1, e2]) && After(s1, [e1, e2]) == s3;
    var s4 := Step(s3, e3);
    assert Possible(s4, []) && After(s4, []) == s4;
  }

  // ---- The services over all keys -----------------------------------------------------------------------------------

  datatype UserKey = UserKey(userId: nat, key: nat)

  class PrismaIdempotencyStore {
    var rows: map<UserKey, Record>

    constructor ()
      ensures rows == map[]
    {
      rows := map[];
    }

    ghost function RowOf(k: UserKey): Option<Record>
      reads this
    {
      if k in rows then Some(rows[k]) else None
    }

    method BeginKey(k: UserKey, input: BeginInput, now: int) returns (l: Lookup)
      modifies this
      ensures var (r, lookup) := StoreBegin(old(RowOf(k)), input, now);
              l == lookup && rows == old(rows)[k := r]
    {
      if k in rows {
        var existing := rows[k];
        var inProgress := existing.status == PROCESSING && existing.lockedUntil.Some?
                          && existing.lockedUntil.value > now;
        if inProgress {
          assert rows == rows[k := existing];
          return Lookup(true, false, Some(existing));
        }
        if existing.status == COMPLETED {
          assert rows == rows[k := existing];
          if existing.requestHash == input.requestHash {
            return Lookup(true, true, Some(existing));
          }
          return Lookup(true, false, Some(existing));
        }
        if (existing.status == FAILED || existing.status == CONFLICT) && existing.requestHash != input.requestHash {
          assert rows == rows[k := existing];
          return Lookup(true, false, Some(existing));
        }
        rows := rows[k := ProcessingRecord(input, now)];
        return Lookup(false, false, Some(rows[k]));
      }
      rows := rows[k := ProcessingRecord(input, now)];
      return Lookup(false, false, Some(rows[k]));
    }

    /** False is the database's error for a missing row. */
    method CompleteKey(k: UserKey, code: int, body: Option<Body>) returns (ok: bool)
      modifies this
      ensures ok == (k in old(rows))
      ensures rows == if ok then old(rows)[k := CompletedRecord(old(rows)[k], code, body)] else old(rows)
    {
      if k !in rows {
        return false;
      }
      rows := rows[k := rows[k].(status := COMPLETED, httpStatus := Some(code), responseBody := body,
                                 lockedUntil := None)];
      return true;
    }

    method FailKey(k: UserKey) returns (ok: bool)
      modifies this
      ensures ok == (k in old(rows))
      ensures rows == if ok then old(rows)[k := FailedRecord(old(rows)[k])] else old(rows)
    {
      if k !in rows {
        return false;
      }
      rows := rows[k := rows[k].(status := FAILED, lockedUntil := None, responseBody := Some(ErrorBody))];
      return true;
    }
  }

  class IdempotencyService {
    const store: PrismaIdempotencyStore?

    constructor (store: PrismaIdempotencyStore?)
      ensures this.store == store
    {
      this.store := store;
    }

    /** Without a store every operation proceeds and nothing is remembered. */
    method BeginOperation(k: UserKey, input: BeginInput, now: int) returns (o: Outcome)
      modifies store
      ensures store == null ==> o == Proceed
      ensures store != null ==>
                var (r, lookup) := StoreBegin(old(store.RowOf(k)), input, now);
                o == ServiceOutcome(lookup, input) && store.rows == old(store.rows)[k := r]
    {
      if store == null {
        return Proceed;
      }
      var result := store.BeginKey(k, input, now);
      if result.replay && result.record.Some? {
        return Replay(result.record.value);
      }
      if result.found && result.record.Some? {
        if ToLogical(result.record.value.status) == Started {
          return InProgress;
        }
        if IsTerminal(ToLogical(result.record.value.status)) && result.record.value.requestHash != input.requestHash {
          return KeyReused;
        }
      }
      return Proceed;
    }
  }
}
