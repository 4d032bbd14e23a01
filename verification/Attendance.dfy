/** Attendance rows and their breaks: clock-in, breaks, review, clock-out, correction, and the payroll minutes. */
module Attendance {
  import opened JsText
  import opened Calendar
  import opened TimeZone
  import opened Recurrence
  import Scheduling

  const MINUTE_MS := 60_000

  // ---- Payroll minutes --------------------------------------------------------------------------------------------

  datatype TotalsInput = TotalsInput(
    clockIn: int, clockOut: int, scheduledStart: int, scheduledEnd: int,
    graceMinutes: int, overtimeThreshold: Option<int>, completedBreakMinutes: int)

  datatype Totals = Totals(gross: int, breaks: int, payable: int, overtime: int, late: int, early: int)

  function MinutesBetween(start: int, end: int): int {
    (end - start) / MINUTE_MS
  }

  function Clamp(n: int): int {
    if n < 0 then 0 else n
  }

  function GraceEnd(i: TotalsInput): int {
    i.scheduledStart + Clamp(i.graceMinutes) * MINUTE_MS
  }

  function CalculateTotals(i: TotalsInput): Totals {
    var gross := Clamp(MinutesBetween(i.clockIn, i.clockOut));
    var breaks := Clamp(i.completedBreakMinutes);
    var scheduled := Clamp(MinutesBetween(i.scheduledStart, i.scheduledEnd));
    var baseline := scheduled + if i.overtimeThreshold.Some? then Clamp(i.overtimeThreshold.value) else 0;
    Totals(
      gross, breaks, Clamp(gross - breaks), Clamp(gross - baseline),
      if i.clockIn > GraceEnd(i) then Clamp(MinutesBetween(GraceEnd(i), i.clockIn)) else 0,
      if i.clockOut < i.scheduledEnd then Clamp(MinutesBetween(i.clockOut, i.scheduledEnd)) else 0)
  }

  /** Nobody who clocked in no earlier than the scheduled start has overtime and an early departure. */
  lemma OvertimeExcludesEarlyDeparture(i: TotalsInput)
    requires i.scheduledStart <= i.clockIn
    ensures var t := CalculateTotals(i); !(t.overtime > 0 && t.early > 0)
  {
  }

  /** Late and early on one shift: worked, late and early minutes add up to the schedule less grace, within the two
      minutes that three roundings can lose. */
  lemma MinutesBalance(i: TotalsInput)
    requires GraceEnd(i) < i.clockIn <= i.clockOut < i.scheduledEnd
    ensures var t := CalculateTotals(i);
            var due := MinutesBetween(i.scheduledStart, i.scheduledEnd) - Clamp(i.graceMinutes);
            due - 2 <= t.gross + t.late + t.early <= due
  {
    var t := CalculateTotals(i);
    var a, b, c := i.clockIn - GraceEnd(i), i.clockOut - i.clockIn, i.scheduledEnd - i.clockOut;
    assert t.late == a / MINUTE_MS && t.gross == b / MINUTE_MS && t.early == c / MINUTE_MS;
    assert i.scheduledEnd - i.scheduledStart == a + b + c + Clamp(i.graceMinutes) * MINUTE_MS;
  }

  // ---- Rows ---------------------------------------------------------------------------------------------------------

  datatype AttendanceStatus =
    | PENDING | CLOCKED_IN | CLOCKED_OUT | PENDING_SUPERVISOR_APPROVAL | APPROVED_WITH_WARNING
    | SUPERVISOR_APPROVED | SUPERVISOR_REJECTED | VOIDED

  datatype BreakStatus = ACTIVE | COMPLETED | CANCELLED | PENDING_SYNC | REQUIRES_REVIEW

  datatype Break = Break(status: BreakStatus, startedAt: int, endedAt: Option<int>, duration: Option<int>)

  /** The terms of the shift that attendance reads. */
  datatype Terms = Terms(plan: Shift, graceMinutes: int, overtimeThreshold: Option<int>)

  datatype Row = Row(
    assignmentId: nat,
    occurrenceDate: int,
    status: AttendanceStatus,
    clockIn: int,
    clockOut: Option<int>,
    totalBreak: int,
    gross: Option<int>,
    payable: Option<int>,
    overtime: Option<int>,
    late: Option<int>,
    early: Option<int>,
    breaks: seq<Break>)

  datatype Error =
    | AttendanceNotFound | AssignmentNotFound | NotAdmitted | NotCurrent | AlreadyExists | TooEarly | ShiftEnded
    | NotActive | ActiveBreakExists
    | TransitionInvalid | BreakNotFound | BreakNotActive | BreakAlreadyActive | ClockOutRequired

  datatype Result = Done(row: Row) | Rejected(error: Error)

  predicate Allowed(from: AttendanceStatus, to: AttendanceStatus) {
    match from
    case PENDING => to == CLOCKED_IN || to == PENDING_SUPERVISOR_APPROVAL || to == APPROVED_WITH_WARNING || to == VOIDED
    case CLOCKED_IN => to == CLOCKED_OUT || to == PENDING_SUPERVISOR_APPROVAL || to == VOIDED
    case PENDING_SUPERVISOR_APPROVAL =>
      to == CLOCKED_OUT || to == SUPERVISOR_APPROVED || to == SUPERVISOR_REJECTED || to == CLOCKED_IN || to == VOIDED
    case APPROVED_WITH_WARNING =>
      to == CLOCKED_OUT || to == PENDING_SUPERVISOR_APPROVAL || to == SUPERVISOR_APPROVED || to == SUPERVISOR_REJECTED
      || to == VOIDED
    case SUPERVISOR_APPROVED => to == CLOCKED_OUT || to == VOIDED
    case CLOCKED_OUT =>
      to == PENDING_SUPERVISOR_APPROVAL || to == SUPERVISOR_APPROVED || to == SUPERVISOR_REJECTED || to == VOIDED
    case SUPERVISOR_REJECTED => to == VOIDED
    case VOIDED => false
  }

  predicate IsActive(s: AttendanceStatus) {
    s == CLOCKED_IN || s == PENDING_SUPERVISOR_APPROVAL || s == APPROVED_WITH_WARNING || s == SUPERVISOR_APPROVED
  }

  function CompletedMinutes(b: Break): int {
    if b.status == COMPLETED && b.duration.Some? then b.duration.value else 0
  }

  function SumCompleted(breaks: seq<Break>): int {
    if breaks == [] then 0
    else
      var b := breaks[|breaks| - 1];
      SumCompleted(breaks[..|breaks| - 1]) + CompletedMinutes(b)
  }

  predicate HasActive(breaks: seq<Break>) {
    exists b <- breaks :: b.status == ACTIVE
  }

  // ---- Clock-in -----------------------------------------------------------------------------------------------------

  const CURRENT_WINDOW_MS := 2 * 60 * 60_000

  /** The verdict of the geofence on an admitted clock-in. */
  datatype Verdict = Inside | OutsideWithReason | OutsideForReview

  /** What is checked around the occurrence: the device before anything else, then the assignment, and at the end the
      place (accuracy, selfie, geofence). */
  datatype Admission = Admission(device: bool, own: bool, standing: Scheduling.AssignmentStatus, place: bool)

  predicate Admitted(a: Admission, terms: Terms) {
    a.device && a.own && !Scheduling.BarsClockIn(a.standing, terms.plan) && a.place
  }

  function ClockInStatus(v: Verdict): AttendanceStatus {
    match v
    case Inside => CLOCKED_IN
    case OutsideWithReason => APPROVED_WITH_WARNING
    case OutsideForReview => PENDING_SUPERVISOR_APPROVAL
  }

  function ClockInOccurrence(terms: Terms, now: int, clientDate: Option<string>): Option<Occurrence> {
    ResolveClockIn(terms.plan, now, CURRENT_WINDOW_MS, terms.graceMinutes * MINUTE_MS, clientDate)
  }

  function OccurrenceDate(o: Occurrence): int {
    var d := DateKeyToUtcDate(o.dateKey);
    if d.Some? then d.value else 0
  }

  /** `taken` holds the occurrence dates this assignment already has attendance for. */
  function ClockIn(assignmentId: nat, terms: Terms, taken: set<int>, now: int, clientDate: Option<string>,
                   a: Admission, v: Verdict): Result
  {
    var o := ClockInOccurrence(terms, now, clientDate);
    if !a.device then Rejected(NotAdmitted)
    else if !a.own then Rejected(AssignmentNotFound)
    else if Scheduling.BarsClockIn(a.standing, terms.plan) then Rejected(NotCurrent)
    else if o.None? then Rejected(NotCurrent)
    else if OccurrenceDate(o.value) in taken then Rejected(AlreadyExists)
    else if now < o.value.startAt then Rejected(TooEarly)
    else if now > o.value.endAt then Rejected(ShiftEnded)
    else if !a.place then Rejected(NotAdmitted)
    else
      var graceEnd := o.value.startAt + terms.graceMinutes * MINUTE_MS;
      Done(Row(assignmentId, OccurrenceDate(o.value), ClockInStatus(v), now, None, 0, None, None, None,
               Some(if now > graceEnd then MinutesBetween(graceEnd, now) else 0), None, []))
  }

  /** The occurrence a clock-out is settled against. */
  function ClockOutOccurrence(terms: Terms, row: Row): Occurrence {
    var key := IsoDate(row.occurrenceDate);
    var o := OccurrenceOnDate(terms.plan, key);
    if o.Some? then o.value else Occurrence(key, terms.plan.startAt, terms.plan.endAt)
  }

  // ---- Steps on a row -----------------------------------------------------------------------------------------------

  datatype Event =
    | StartBreak(admitted: bool)
    | EndBreak(index: nat, admitted: bool)
    | CancelBreak(index: nat, reviewer: bool)
    | ClockOut(admitted: bool, needsReview: bool)
    | RequestReview
    | Review(approve: bool)
    | Void
    | Correct(newClockIn: Option<int>, newClockOut: Option<int>)

  const CANCEL_WINDOW_MS := 5 * 60_000

  function TotalsOf(terms: Terms, start: int, end: int, clockIn: int, clockOut: int, breaks: seq<Break>): Totals {
    CalculateTotals(TotalsInput(clockIn, clockOut, start, end, terms.graceMinutes, terms.overtimeThreshold,
                                SumCompleted(breaks)))
  }

  function WithTotals(row: Row, t: Totals): Row {
    row.(gross := Some(t.gross), totalBreak := t.breaks, payable := Some(t.payable), overtime := Some(t.overtime),
         late := Some(t.late), early := Some(t.early))
  }

  function BreakMinutes(startedAt: int, now: int): int {
    Clamp((now - startedAt) / MINUTE_MS)
  }

  function ToStatus(row: Row, s: AttendanceStatus): Result {
    if Allowed(row.status, s) then Done(row.(status := s)) else Rejected(TransitionInvalid)
  }

  function Apply(terms: Terms, row: Row, e: Event, now: int): Result {
    match e
    case StartBreak(admitted) =>
      if !admitted then Rejected(NotAdmitted)
      else if !IsActive(row.status) then Rejected(NotActive)
      else if HasActive(row.breaks) then Rejected(BreakAlreadyActive)
      else Done(row.(breaks := row.breaks + [Break(ACTIVE, now, None, None)]))
    case EndBreak(i, admitted) =>
      if !admitted then Rejected(NotAdmitted)
      else if i >= |row.breaks| then Rejected(BreakNotFound)
      else if row.breaks[i].status != ACTIVE then Rejected(BreakNotActive)
      else
        var ended := Break(COMPLETED, row.breaks[i].startedAt, Some(now),
                           Some(BreakMinutes(row.breaks[i].startedAt, now)));
        var breaks := row.breaks[i := ended];
        Done(row.(breaks := breaks, totalBreak := SumCompleted(breaks)))
    case CancelBreak(i, reviewer) =>
      if i >= |row.breaks| then Rejected(BreakNotFound)
      else if !reviewer && now - row.breaks[i].startedAt > CANCEL_WINDOW_MS then Rejected(TransitionInvalid)
      else if row.breaks[i].status != ACTIVE then Rejected(TransitionInvalid)
      else Done(row.(breaks := row.breaks[i := row.breaks[i].(status := CANCELLED)]))
    case ClockOut(admitted, needsReview) =>
      if !IsActive(row.status) then Rejected(NotActive)
      else if HasActive(row.breaks) then Rejected(ActiveBreakExists)
      else if !admitted then Rejected(NotAdmitted)
      else
        var next := if needsReview then PENDING_SUPERVISOR_APPROVAL else CLOCKED_OUT;
        if !Allowed(row.status, next) then Rejected(TransitionInvalid)
        else
          var o := ClockOutOccurrence(terms, row);
          Done(WithTotals(row, TotalsOf(terms, o.startAt, o.endAt, row.clockIn, now, row.breaks))
               .(status := next, clockOut := Some(now)))
    case RequestReview => ToStatus(row, PENDING_SUPERVISOR_APPROVAL)
    case Review(approve) => ToStatus(row, if approve then SUPERVISOR_APPROVED else SUPERVISOR_REJECTED)
    case Void => ToStatus(row, VOIDED)
    case Correct(cin, cout) =>
      var clockIn := if cin.Some? then cin.value else row.clockIn;
      var clockOut := if cout.Some? then cout else row.clockOut;
      if clockOut.None? then Rejected(ClockOutRequired)
      else
        var t := TotalsOf(terms, terms.plan.startAt, terms.plan.endAt, clockIn, clockOut.value, row.breaks);
        Done(WithTotals(row, t).(clockIn := clockIn, clockOut := clockOut))
  }

  // ---- Runs ---------------------------------------------------------------------------------------------------------

  datatype Timed = Timed(event: Event, at: int)

  /** Server times never go back. */
  ghost predicate Clocked(now: int, run: seq<Timed>)
    decreases |run|
  {
    run == [] || (now <= run[0].at && Clocked(run[0].at, run[1..]))
  }

  function Next(terms: Terms, row: Row, t: Timed): Row {
    var r := Apply(terms, row, t.event, t.at);
    if r.Done? then r.row else row
  }

  function After(terms: Terms, row: Row, run: seq<Timed>): Row
    decreases |run|
  {
    if run == [] then row else After(terms, Next(terms, row, run[0]), run[1..])
  }

  function LastTime(now: int, run: seq<Timed>): int {
    if run == [] then now else run[|run| - 1].at
  }

  // ---- Break accounting ---------------------------------------------------------------------------------------------

  predicate Measured(b: Break) {
    b.status == COMPLETED ==>
      b.endedAt.Some? && b.startedAt <= b.endedAt.value
      && b.duration == Some((b.endedAt.value - b.startedAt) / MINUTE_MS)
  }

  /** When the break was over: its end, or its start if it was cancelled. */
  function OverAt(b: Break): int {
    if b.status == COMPLETED && b.endedAt.Some? then b.endedAt.value else b.startedAt
  }

  /** Breaks follow one another between two times; only the last can be running. */
  ghost predicate Chronicle(breaks: seq<Break>, from: int, now: int) {
    && from <= now
    && (forall b <- breaks :: Measured(b) && from <= b.startedAt && OverAt(b) <= now)
    && (forall i, j :: 0 <= i < j < |breaks| ==> OverAt(breaks[i]) <= breaks[j].startedAt && breaks[i].status != ACTIVE)
  }

  /** totalBreakMinutes is the sum of the completed breaks. */
  predicate TotalExact(row: Row) {
    row.totalBreak == SumCompleted(row.breaks)
  }

  /** Completed breaks last as long as they say and at least nothing. */
  ghost predicate Durations(breaks: seq<Break>) {
    forall b <- breaks :: b.status == COMPLETED && b.duration.Some? ==> b.duration.value >= 0
  }

  lemma {:induction false} SumNonnegative(breaks: seq<Break>)
    requires Durations(breaks)
    ensures SumCompleted(breaks) >= 0
  {
    if breaks != [] {
      var front := breaks[..|breaks| - 1];
      assert forall b <- front :: b in breaks;
      SumNonnegative(front);
      assert breaks[|breaks| - 1] in breaks;
    }
  }

  lemma {:induction false} SumUpdate(breaks: seq<Break>, i: nat, b: Break)
    requires i < |breaks| && breaks[i].status != COMPLETED
    ensures SumCompleted(breaks[i := b]) == SumCompleted(breaks) + CompletedMinutes(b)
  {
    var n := |breaks| - 1;
    if i < n {
      SumUpdate(breaks[..n], i, b);
      assert breaks[i := b][..n] == breaks[..n][i := b];
    } else {
      assert breaks[i := b][..n] == breaks[..n];
    }
  }

  lemma SumAppend(breaks: seq<Break>, b: Break)
    ensures SumCompleted(breaks + [b]) == SumCompleted(breaks) + CompletedMinutes(b)
  {
    assert (breaks + [b])[..|breaks|] == breaks;
  }

  /** Whatever happens, corrections included: the stored total is the sum of the completed breaks. */
  lemma StepKeepsTotal(terms: Terms, row: Row, t: Timed)
    requires TotalExact(row) && Durations(row.breaks)
    ensures TotalExact(Next(terms, row, t)) && Durations(Next(terms, row, t).breaks)
  {
    hide ClockOutOccurrence, IsActive, Allowed;
    SumNonnegative(row.breaks);
    match t.event
    case StartBreak(_) => SumAppend(row.breaks, Break(ACTIVE, t.at, None, None));
    case CancelBreak(i, _) =>
      if i < |row.breaks| && row.breaks[i].status == ACTIVE {
        SumUpdate(row.breaks, i, row.breaks[i].(status := CANCELLED));
      }
    case _ =>
  }

  lemma {:induction false} TotalAlwaysExact(terms: Terms, row: Row, run: seq<Timed>)
    requires TotalExact(row) && Durations(row.breaks)
    ensures TotalExact(After(terms, row, run))
    decreases |run|
  {
    hide TotalExact, Durations, Next;
    if run != [] {
      StepKeepsTotal(terms, row, run[0]);
      TotalAlwaysExact(terms, Next(terms, row, run[0]), run[1..]);
    }
  }

  lemma EarlierBreaksAreOver(breaks: seq<Break>, from: int, now: int, i: nat)
    requires Chronicle(breaks, from, now) && i < |breaks|
    ensures i < |breaks| - 1 ==> breaks[i].status != ACTIVE
  {
    assert breaks[|breaks| - 1] in breaks;
  }

  lemma OnlyLastRuns(breaks: seq<Break>, from: int, now: int, i: nat)
    requires Chronicle(breaks, from, now) && i < |breaks| && breaks[i].status == ACTIVE
    ensures i == |breaks| - 1 && breaks[i] in breaks && breaks[i].startedAt <= now
  {
    EarlierBreaksAreOver(breaks, from, now, i);
    assert breaks[i] in breaks;
  }

  lemma ChronicleStep(terms: Terms, row: Row, t: Timed, now: int)
    requires Chronicle(row.breaks, row.clockIn, now) && now <= t.at && !t.event.Correct?
    ensures var r := Next(terms, row, t); r.clockIn == row.clockIn && Chronicle(r.breaks, r.clockIn, t.at)
  {
    hide ClockOutOccurrence, IsActive, Allowed, SumCompleted, TotalsOf, Chronicle, HasActive;
    var r := Next(terms, row, t);
    Later(row.breaks, row.clockIn, now, t.at);
    match t.event
    case StartBreak(_) =>
      if r.breaks != row.breaks { ChronicleStart(row.breaks, row.clockIn, now, t.at); }
    case EndBreak(i, _) =>
      if r.breaks != row.breaks {
        OnlyLastRuns(row.breaks, row.clockIn, now, i);
        ChronicleEnd(row.breaks, row.clockIn, now, t.at, i, r.breaks[i]);
      }
    case CancelBreak(i, _) =>
      if r.breaks != row.breaks {
        OnlyLastRuns(row.breaks, row.clockIn, now, i);
        ChronicleEnd(row.breaks, row.clockIn, now, t.at, i, r.breaks[i]);
      }
    case _ =>
  }

  lemma ChronicleStart(breaks: seq<Break>, from: int, now: int, at: int)
    requires Chronicle(breaks, from, now) && now <= at && !HasActive(breaks)
    ensures Chronicle(breaks + [Break(ACTIVE, at, None, None)], from, at)
  {
    forall i | 0 <= i < |breaks| ensures OverAt(breaks[i]) <= at && breaks[i].status != ACTIVE {
      assert breaks[i] in breaks;
    }
  }

  /** The running break, which is the last, is ended now or cancelled. */
  lemma ChronicleEnd(breaks: seq<Break>, from: int, now: int, at: int, i: nat, b: Break)
    requires Chronicle(breaks, from, now) && now <= at && i < |breaks| && breaks[i].status == ACTIVE
    requires b.status != ACTIVE && b.startedAt == breaks[i].startedAt && Measured(b) && OverAt(b) <= at
    ensures Chronicle(breaks[i := b], from, at)
  {
    OnlyLastRuns(breaks, from, now, i);
  }

  lemma {:induction false} ChronicleRun(terms: Terms, row: Row, run: seq<Timed>, now: int)
    requires Chronicle(row.breaks, row.clockIn, now) && Clocked(now, run) && forall t <- run :: !t.event.Correct?
    ensures var r := After(terms, row, run);
            r.clockIn == row.clockIn && Chronicle(r.breaks, r.clockIn, LastTime(now, run)) && now <= LastTime(now, run)
    decreases |run|
  {
    hide Chronicle, Next;
    if run != [] {
      ChronicleStep(terms, row, run[0], now);
      ChronicleRun(terms, Next(terms, row, run[0]), run[1..], run[0].at);
      assert run[1..] != [] ==> run[1..][|run[1..]| - 1] == run[|run| - 1];
    }
  }

  /** Breaks that follow one another inside an interval have no more whole minutes than the interval. */
  lemma {:induction false} DisjointBreaksFit(breaks: seq<Break>, from: int, now: int)
    requires Chronicle(breaks, from, now)
    ensures SumCompleted(breaks) * MINUTE_MS <= (if breaks == [] then from else OverAt(breaks[|breaks| - 1])) - from
    ensures 0 <= SumCompleted(breaks) <= (now - from) / MINUTE_MS
  {
    if breaks != [] {
      var n := |breaks| - 1;
      var front, b := breaks[..n], breaks[n];
      assert b in breaks;
      assert forall x <- front :: x in breaks;
      DisjointBreaksFit(front, from, now);
      if n > 0 { assert OverAt(front[n - 1]) <= b.startedAt; }
      assert Measured(b);
    }
  }

  predicate Balanced(row: Row) {
    row.clockOut.Some? ==> row.gross.Some? && row.payable.Some? && row.payable.value + row.totalBreak == row.gross.value
  }

  /** At every clock-out of a run without manual corrections the completed breaks are disjoint intervals between
      clock-in and clock-out, so payable and break minutes add up to gross exactly: no clamp bites. */
  lemma ClockOutBalances(terms: Terms, row: Row, run: seq<Timed>, now: int, at: int, admitted: bool, needsReview: bool)
    requires Chronicle(row.breaks, row.clockIn, now) && Clocked(now, run) && LastTime(now, run) <= at
    requires forall t <- run :: !t.event.Correct?
    requires var before := After(terms, row, run); Apply(terms, before, ClockOut(admitted, needsReview), at).Done?
    ensures var before := After(terms, row, run);
            var r := Apply(terms, before, ClockOut(admitted, needsReview), at).row;
            && r.breaks == before.breaks && !HasActive(r.breaks) && Chronicle(r.breaks, r.clockIn, at)
            && r.clockOut == Some(at)
            && r.gross == Some((at - r.clockIn) / MINUTE_MS) && r.totalBreak == SumCompleted(r.breaks)
            && r.payable == Some((at - r.clockIn) / MINUTE_MS - SumCompleted(r.breaks)) && r.payable.value >= 0
            && Balanced(r)
  {
    hide ClockOutOccurrence, IsActive, Allowed, SumCompleted, After;
    ChronicleRun(terms, row, run, now);
    var before := After(terms, row, run);
    Later(before.breaks, before.clockIn, LastTime(now, run), at);
    DisjointBreaksFit(before.breaks, before.clockIn, at);
  }

  lemma Later(breaks: seq<Break>, from: int, now: int, at: int)
    requires Chronicle(breaks, from, now) && now <= at
    ensures Chronicle(breaks, from, at)
  {
  }

  // ---- After clock-out ----------------------------------------------------------------------------------------------

  /** Every completed break ended by the recorded clock-out. */
  ghost predicate BreaksInside(row: Row) {
    row.clockOut.Some? ==>
      forall b <- row.breaks :: b.status == COMPLETED && b.endedAt.Some? ==> b.endedAt.value <= row.clockOut.value
  }

  /** The step ends a break of a row that already has a clock-out. */
  predicate EndsBreakAfterClockOut(row: Row, e: Event) {
    e.EndBreak? && e.admitted && row.clockOut.Some? && e.index < |row.breaks| && row.breaks[e.index].status == ACTIVE
  }

  /** A clocked-out row can become active again by review and take breaks. The balance then survives a step exactly
      when the step does not end a break of at least one minute after the clock-out. */
  lemma BalanceLostExactly(terms: Terms, row: Row, t: Timed, now: int)
    requires Chronicle(row.breaks, row.clockIn, now) && now <= t.at && !t.event.Correct?
    requires TotalExact(row) && Balanced(row)
    ensures Balanced(Next(terms, row, t))
       <==> !(EndsBreakAfterClockOut(row, t.event) && BreakMinutes(row.breaks[t.event.index].startedAt, t.at) >= 1)
  {
    hide ClockOutOccurrence, IsActive, Allowed, SumCompleted, HasActive;
    match t.event
    case EndBreak(i, _) =>
      if i < |row.breaks| && row.breaks[i].status == ACTIVE {
        SumUpdate(row.breaks, i,
                  Break(COMPLETED, row.breaks[i].startedAt, Some(t.at),
                        Some(BreakMinutes(row.breaks[i].startedAt, t.at))));
      }
    case ClockOut(admitted, needsReview) =>
      Later(row.breaks, row.clockIn, now, t.at);
      DisjointBreaksFit(row.breaks, row.clockIn, t.at);
    case _ =>
  }

  /** Likewise completed breaks stay inside [clock-in, clock-out] exactly when no break is ended later than the
      clock-out. */
  lemma BreaksLeaveExactly(terms: Terms, row: Row, t: Timed, now: int)
    requires Chronicle(row.breaks, row.clockIn, now) && now <= t.at && !t.event.Correct? && BreaksInside(row)
    ensures BreaksInside(Next(terms, row, t)) <==> !(EndsBreakAfterClockOut(row, t.event) && t.at > row.clockOut.value)
  {
    hide ClockOutOccurrence, IsActive, Allowed, SumCompleted, HasActive;
    var r := Next(terms, row, t);
    match t.event
    case EndBreak(i, _) =>
      if EndsBreakAfterClockOut(row, t.event) { assert r.breaks[i] in r.breaks; }
    case ClockOut(_, _) =>
      forall b <- row.breaks ensures OverAt(b) <= t.at { }
    case _ =>
  }

  /** A clock-out is written over one that is already there exactly when it is admitted in an active status with no
      break running - from review or approval only if it needs no review itself - at another time. */
  lemma ClockOutOverwrittenExactly(terms: Terms, row: Row, t: Timed)
    requires row.clockOut.Some? && !t.event.Correct?
    ensures Next(terms, row, t).clockOut != row.clockOut
       <==> t.event.ClockOut? && t.event.admitted && t.at != row.clockOut.value && !HasActive(row.breaks)
            && (row.status == CLOCKED_IN || row.status == APPROVED_WITH_WARNING
                || (!t.event.needsReview
                    && (row.status == PENDING_SUPERVISOR_APPROVAL || row.status == SUPERVISOR_APPROVED)))
  {
    hide ClockOutOccurrence, SumCompleted, HasActive, CalculateTotals;
  }

  /** Only a rejected or voided row is closed. */
  predicate Closed(row: Row) {
    row.status == SUPERVISOR_REJECTED || row.status == VOIDED
  }

  ghost predicate Uncorrected(now: int, run: seq<Timed>) {
    Clocked(now, run) && forall t <- run :: !t.event.Correct?
  }

  /** A recorded clock-out is final, in all runs without manual corrections, if and only if the row is rejected or
      voided: any other row can be sent to review, where another clock-out is accepted. */
  lemma ClockOutFinalExactly(terms: Terms, row: Row, now: int)
    requires row.clockOut.Some? && Chronicle(row.breaks, row.clockIn, now)
    ensures (forall run :: Uncorrected(now, run) ==> After(terms, row, run).clockOut == row.clockOut) <==> Closed(row)
  {
    hide After, Chronicle, Closed;
    if Closed(row) {
      forall run | Uncorrected(now, run) ensures After(terms, row, run).clockOut == row.clockOut {
        ClosedStays(terms, row, run);
      }
    } else {
      var at := if now > row.clockOut.value then now else row.clockOut.value + 1;
      var run := AnotherClockOut(row, at);
      AnotherClockOutChanges(terms, row, now, at);
      RunsUncorrected(row, now, at);
    }
  }

  lemma {:induction false} ClosedStays(terms: Terms, row: Row, run: seq<Timed>)
    requires Closed(row) && forall t <- run :: !t.event.Correct?
    ensures After(terms, row, run).clockOut == row.clockOut
    decreases |run|
  {
    hide Next, Closed;
    if run != [] {
      assert run[0] in run;
      ClosedStep(terms, row, run[0]);
      ClosedStays(terms, Next(terms, row, run[0]), run[1..]);
    }
  }

  lemma ClosedStep(terms: Terms, row: Row, t: Timed)
    requires Closed(row) && !t.event.Correct?
    ensures Closed(Next(terms, row, t)) && Next(terms, row, t).clockOut == row.clockOut
  {
    hide ClockOutOccurrence, SumCompleted, HasActive, CalculateTotals;
  }

  /** End the running break if there is one, ask for review if need be, and clock out. */
  function AnotherClockOut(row: Row, at: int): seq<Timed> {
    var last := if row.breaks == [] then 0 else |row.breaks| - 1;
    [Timed(EndBreak(last, true), at), Timed(RequestReview, at), Timed(ClockOut(true, false), at)]
  }

  lemma RunsUncorrected(row: Row, now: int, at: int)
    requires now <= at
    ensures Uncorrected(now, AnotherClockOut(row, at))
  {
    var run := AnotherClockOut(row, at);
    assert run[1..] == [run[1], run[2]] && [run[1], run[2]][1..] == [run[2]] && [run[2]][1..] == [];
    assert Clocked(at, []) && Clocked(at, [run[2]]) && Clocked(at, [run[1], run[2]]);
  }

  lemma AnotherClockOutChanges(terms: Terms, row: Row, now: int, at: int)
    requires !Closed(row) && Chronicle(row.breaks, row.clockIn, now)
    ensures After(terms, row, AnotherClockOut(row, at)).clockOut == Some(at)
  {
    var run := AnotherClockOut(row, at);
    var r1 := Next(terms, row, run[0]);
    assert !HasActive(r1.breaks) && r1.status == row.status by { LastBreakEnds(terms, row, now, at); }
    var r2 := Next(terms, r1, run[1]);
    assert r2.breaks == r1.breaks && IsActive(r2.status);
    assert Next(terms, r2, run[2]).clockOut == Some(at) by {
      hide ClockOutOccurrence, SumCompleted, HasActive, CalculateTotals;
    }
    ThreeSteps(terms, row, run[0], run[1], run[2]);
  }

  lemma LastBreakEnds(terms: Terms, row: Row, now: int, at: int)
    requires Chronicle(row.breaks, row.clockIn, now)
    ensures var r := Next(terms, row, AnotherClockOut(row, at)[0]); !HasActive(r.breaks) && r.status == row.status
  {
    hide SumCompleted;
    var r := Next(terms, row, AnotherClockOut(row, at)[0]);
    forall i | 0 <= i < |row.breaks| - 1 ensures row.breaks[i].status != ACTIVE {
      EarlierBreaksAreOver(row.breaks, row.clockIn, now, i);
    }
  }

  lemma ThreeSteps(terms: Terms, row: Row, a: Timed, b: Timed, c: Timed)
    ensures After(terms, row, [a, b, c]) == Next(terms, Next(terms, Next(terms, row, a), b), c)
  {
    hide Next;
    var r1 := Next(terms, row, a);
    var r2 := Next(terms, r1, b);
    assert [a, b, c][1..] == [b, c] && [b, c][1..] == [c] && [c][1..] == [];
    assert After(terms, r2, [c]) == Next(terms, r2, c);
    assert After(terms, r1, [b, c]) == After(terms, r2, [c]);
  }

  /** Such a row is reachable: clock in, clock out, request review, take a ten-minute break. */
  lemma BalanceCanBeLost(terms: Terms, row: Row, t0: int)
    requires row.status == CLOCKED_IN && row.breaks == [] && row.clockIn == t0 && row.clockOut == None
    requires row.totalBreak == 0
    ensures var run := [Timed(ClockOut(true, false), t0 + 60 * MINUTE_MS), Timed(RequestReview, t0 + 61 * MINUTE_MS),
                        Timed(StartBreak(true), t0 + 70 * MINUTE_MS), Timed(EndBreak(0, true), t0 + 80 * MINUTE_MS)];
            var r := After(terms, row, run);
            r.gross == Some(60) && r.payable == Some(60) && r.totalBreak == 10 && !Balanced(r) && !BreaksInside(r)
  {
    hide Next, After, Apply;
    var e0, e1 := Timed(ClockOut(true, false), t0 + 60 * MINUTE_MS), Timed(RequestReview, t0 + 61 * MINUTE_MS);
    var e2, e3 := Timed(StartBreak(true), t0 + 70 * MINUTE_MS), Timed(EndBreak(0, true), t0 + 80 * MINUTE_MS);
    WorkedAnHour(terms, row, t0);
    var r0 := Next(terms, row, e0);
    BreakAfterReview(terms, r0, t0 + 70 * MINUTE_MS, e1.at);
    FourSteps(terms, row, e0, e1, e2, e3);
    var r := After(terms, row, [e0, e1, e2, e3]);
    assert r.breaks[0] in r.breaks;
  }

  lemma BreakAfterReview(terms: Terms, row: Row, t: int, reviewAt: int)
    requires row.status == CLOCKED_OUT && row.breaks == []
    ensures var b := Break(COMPLETED, t, Some(t + 10 * MINUTE_MS), Some(10));
            var r1 := Next(terms, row, Timed(RequestReview, reviewAt));
            var r2 := Next(terms, r1, Timed(StartBreak(true), t));
            var r3 := Next(terms, r2, Timed(EndBreak(0, true), t + 10 * MINUTE_MS));
            r3 == row.(status := PENDING_SUPERVISOR_APPROVAL, breaks := [b], totalBreak := 10)
  {
    hide ClockOutOccurrence, SumCompleted, CalculateTotals, WithTotals;
    var r1 := Next(terms, row, Timed(RequestReview, reviewAt));
    assert r1 == row.(status := PENDING_SUPERVISOR_APPROVAL);
    var b0 := Break(ACTIVE, t, None, None);
    var r2 := Next(terms, r1, Timed(StartBreak(true), t));
    assert r2 == r1.(breaks := [b0]);
    var b := Break(COMPLETED, t, Some(t + 10 * MINUTE_MS), Some(10));
    assert [b0][0 := b] == [b];
    SumOfOne(b);
  }

  lemma WorkedAnHour(terms: Terms, row: Row, t0: int)
    requires row.status == CLOCKED_IN && row.breaks == [] && row.clockIn == t0
    ensures var r := Next(terms, row, Timed(ClockOut(true, false), t0 + 60 * MINUTE_MS));
            r.gross == Some(60) && r.payable == Some(60) && r.status == CLOCKED_OUT && r.breaks == []
            && r.clockOut == Some(t0 + 60 * MINUTE_MS)
  {
    hide ClockOutOccurrence;
  }

  lemma SumOfOne(b: Break)
    requires b.status == COMPLETED && b.duration.Some?
    ensures SumCompleted([b]) == b.duration.value
  {
    assert [b][..0] == [];
  }

  lemma FourSteps(terms: Terms, row: Row, a: Timed, b: Timed, c: Timed, d: Timed)
    ensures After(terms, row, [a, b, c, d]) == Next(terms, Next(terms, Next(terms, Next(terms, row, a), b), c), d)
  {
    hide Next;
    var r1 := Next(terms, row, a);
    var r2 := Next(terms, r1, b);
    var r3 := Next(terms, r2, c);
    assert [a, b, c, d][1..] == [b, c, d] && [b, c, d][1..] == [c, d] && [c, d][1..] == [d] && [d][1..] == [];
    assert After(terms, r3, [d]) == Next(terms, r3, d);
    assert After(terms, r2, [c, d]) == After(terms, r3, [d]);
    assert After(terms, r1, [b, c, d]) == After(terms, r2, [c, d]);
  }

  // ---- The occurrence an attendance is settled against --------------------------------------------------------------

  /** Clock-out settles against the very occurrence that clock-in resolved, because the occurrence date it stored
      reads back as the same key - provided the shift itself has that occurrence. */
  lemma ClockOutUsesClockInOccurrence(terms: Terms, row: Row, day: int)
    requires InRange(day) && row.occurrenceDate == OccurrenceDate(Occurrence(Key(day), 0, 0))
    ensures On(terms.plan, day).Some? ==> ClockOutOccurrence(terms, row) == On(terms.plan, day).value
    ensures On(terms.plan, day).None? ==>
              ClockOutOccurrence(terms, row).startAt == terms.plan.startAt
              && ClockOutOccurrence(terms, row).endAt == terms.plan.endAt
  {
    hide OccurrenceOnDate, Key, IsoDate, DateKeyToUtcDate;
    KeyRoundTrip(day);
  }

  /** An accepted clock-in falls inside its occurrence, starts an empty row for a new occurrence date, and its late
      minutes are the whole minutes past the grace period. */
  lemma ClockInGate(assignmentId: nat, terms: Terms, taken: set<int>, now: int, clientDate: Option<string>,
                    a: Admission, v: Verdict)
    requires terms.graceMinutes >= 0
    ensures var r := ClockIn(assignmentId, terms, taken, now, clientDate, a, v);
            var o := ClockInOccurrence(terms, now, clientDate);
            && (r.Done? <==> Admitted(a, terms) && o.Some? && OccurrenceDate(o.value) !in taken && Open(o.value, now))
            && (r.Done? ==>
                  IsActive(r.row.status) && TotalExact(r.row) && Chronicle(r.row.breaks, r.row.clockIn, now)
                  && Balanced(r.row)
                  && r.row.assignmentId == assignmentId && r.row.clockIn == now && r.row.clockOut == None
                  && r.row.breaks == [] && r.row.occurrenceDate == OccurrenceDate(o.value)
                  && r.row.late.Some?
                  && WholeMinutes(r.row.late.value, now - (o.value.startAt + terms.graceMinutes * 60_000))
                  && r.row.status == match v
                                     case Inside => CLOCKED_IN
                                     case OutsideWithReason => APPROVED_WITH_WARNING
                                     case OutsideForReview => PENDING_SUPERVISOR_APPROVAL)
  {
    hide ResolveClockIn, DateKeyToUtcDate;
  }

  /** A refused clock-in names a true reason. */
  lemma ClockInRefusals(assignmentId: nat, terms: Terms, taken: set<int>, now: int, clientDate: Option<string>,
                        a: Admission, v: Verdict)
    requires ClockIn(assignmentId, terms, taken, now, clientDate, a, v).Rejected?
    ensures var o := ClockInOccurrence(terms, now, clientDate);
            match ClockIn(assignmentId, terms, taken, now, clientDate, a, v).error
            case NotAdmitted => !a.device || !a.place
            case AssignmentNotFound => !a.own
            case NotCurrent => Scheduling.BarsClockIn(a.standing, terms.plan) || o.None?
            case AlreadyExists => o.Some? && OccurrenceDate(o.value) in taken
            case TooEarly => o.Some? && now < o.value.startAt
            case ShiftEnded => o.Some? && o.value.endAt < now
            case _ => false
  {
    hide ResolveClockIn, DateKeyToUtcDate;
  }

  /** A refused step names a true reason. */
  lemma StepRefusals(terms: Terms, row: Row, e: Event, now: int)
    requires Apply(terms, row, e, now).Rejected?
    ensures match Apply(terms, row, e, now).error
            case NotAdmitted => (e.StartBreak? || e.EndBreak? || e.ClockOut?) && !e.admitted
            case NotActive => (e.StartBreak? || e.ClockOut?) && !IsActive(row.status)
            case BreakAlreadyActive => e.StartBreak? && exists b <- row.breaks :: b.status == ACTIVE
            case ActiveBreakExists => e.ClockOut? && exists b <- row.breaks :: b.status == ACTIVE
            case BreakNotFound => (e.EndBreak? || e.CancelBreak?) && e.index >= |row.breaks|
            case BreakNotActive => e.EndBreak? && e.index < |row.breaks| && row.breaks[e.index].status != ACTIVE
            case ClockOutRequired => e.Correct? && e.newClockOut.None? && row.clockOut.None?
            case TransitionInvalid =>
              (e.CancelBreak? ==> e.index < |row.breaks|
                                  && (row.breaks[e.index].status != ACTIVE
                                      || (!e.reviewer && now - row.breaks[e.index].startedAt > 5 * 60_000)))
              && !e.StartBreak? && !e.EndBreak? && !e.Correct?
            case _ => false
  {
    hide SumCompleted, CalculateTotals, ClockOutOccurrence, Allowed;
  }

  /** A post manned around the clock by daily shifts of 24 hours: after a changeover, for the grace period or until
      midnight, a clock-in to the open occurrence is accepted if and only if the request names today's date and there
      is no attendance for it yet. Without a date, or with yesterday's, yesterday's occurrence is resolved, which has
      ended. */
  lemma ChangeoverAcceptsExactly(assignmentId: nat, terms: Terms, taken: set<int>, now: int,
                                 clientDate: Option<string>, a: Admission, v: Verdict, offset: int, day: int)
    requires Fixed(terms.plan.zone, offset) && Dated(terms.plan) && terms.plan.recurrence == DAILY
    requires Duration(terms.plan) == MS_PER_DAY && terms.graceMinutes >= 0 && Admitted(a, terms)
    requires InRange(day - 1) && InRange(day + 2) && On(terms.plan, day - 1).Some? && On(terms.plan, day).Some?
    requires var start := On(terms.plan, day).value.startAt; start < now <= start + terms.graceMinutes * MINUTE_MS
    requires LocalDay(now, terms.plan.zone) == day
    ensures Open(On(terms.plan, day).value, now)
    ensures var r := ClockIn(assignmentId, terms, taken, now, clientDate, a, v);
            var today := OccurrenceDate(On(terms.plan, day).value);
            && (r.Done? <==> clientDate == Some(Key(day)) && today !in taken)
            && (r.Done? ==> r.row.occurrenceDate == today)
            && (clientDate.None? || clientDate == Some(Key(day - 1)) ==>
                  r == Rejected(if OccurrenceDate(On(terms.plan, day - 1).value) in taken then AlreadyExists
                                else ShiftEnded))
  {
    hide On, LocalDay, Dated, ResolveClockIn, OccurrenceDate, Duration, Key;
    ChangeoverResolves(terms.plan, offset, now, CURRENT_WINDOW_MS, terms.graceMinutes * MINUTE_MS, clientDate, day);
    NearKeysDiffer(day);
    BeganBefore(terms.plan, offset, now, day);
  }

  lemma BeganBefore(s: Shift, offset: int, now: int, day: int)
    requires Fixed(s.zone, offset) && Dated(s) && s.recurrence == DAILY && Duration(s) == MS_PER_DAY
    requires InRange(day - 1) && InRange(day) && On(s, day - 1).Some? && On(s, day).Some?
    requires On(s, day).value.startAt < now
    ensures On(s, day - 1).value.startAt < now
  {
    hide On, LocalDay, Dated, StartMs, Duration;
    OccurrenceTimes(s, offset, day - 1);
    OccurrenceTimes(s, offset, day);
  }

  /** A run leaves the duty of a row alone, and so the occurrence it is settled against. */
  lemma {:induction false} RunKeepsDuty(terms: Terms, row: Row, run: seq<Timed>)
    ensures var r := After(terms, row, run);
            r.assignmentId == row.assignmentId && r.occurrenceDate == row.occurrenceDate
    decreases |run|
  {
    if run != [] {
      StepKeepsDuty(terms, row, run[0]);
      hide Next;
      RunKeepsDuty(terms, Next(terms, row, run[0]), run[1..]);
    }
  }

  lemma StepKeepsDuty(terms: Terms, row: Row, t: Timed)
    ensures var r := Next(terms, row, t); r.assignmentId == row.assignmentId && r.occurrenceDate == row.occurrenceDate
  {
    hide CalculateTotals, IsActive, Allowed, ClockOutOccurrence, SumCompleted;
  }

  /** m whole minutes pass in this many milliseconds, none when they are negative. */
  predicate WholeMinutes(m: int, ms: int) {
    if ms < 0 then m == 0 else m * 60_000 <= ms < (m + 1) * 60_000
  }

  /** The minutes of a clocked-out row against scheduled times: gross from clock-in to clock-out, payable the gross
      less the breaks, late past the grace period, early before the scheduled end, and overtime what the gross has
      beyond the scheduled minutes and the threshold. */
  ghost predicate MinutesExact(terms: Terms, start: int, end: int, r: Row) {
    && r.clockOut.Some? && r.gross.Some? && r.payable.Some? && r.overtime.Some? && r.late.Some? && r.early.Some?
    && WholeMinutes(r.gross.value, r.clockOut.value - r.clockIn)
    && r.payable.value == (if r.totalBreak <= r.gross.value then r.gross.value - r.totalBreak else 0)
    && WholeMinutes(r.late.value,
                    r.clockIn - (start + (if terms.graceMinutes > 0 then terms.graceMinutes else 0) * 60_000))
    && WholeMinutes(r.early.value, end - r.clockOut.value)
    && var scheduled := if start <= end then (end - start) / 60_000 else 0;
       var due := scheduled
                  + if terms.overtimeThreshold.Some? && terms.overtimeThreshold.value > 0
                    then terms.overtimeThreshold.value else 0;
       if r.gross.value <= due then r.overtime.value == 0 else r.gross.value == due + r.overtime.value
  }

  /** What the calculation gives, without naming it. */
  lemma TotalsMean(terms: Terms, start: int, end: int, r: Row)
    requires r.clockOut.Some?
    requires r == WithTotals(r, TotalsOf(terms, start, end, r.clockIn, r.clockOut.value, r.breaks))
    ensures MinutesExact(terms, start, end, r)
    ensures r.totalBreak == if SumCompleted(r.breaks) > 0 then SumCompleted(r.breaks) else 0
  {
    hide SumCompleted;
  }

  /** The minutes settled against an occurrence that the officer did not come early for: never both overtime and an
      early departure, and for an officer who is both late and early, worked, late and early minutes that add up to the
      schedule less grace within the two minutes that rounding can lose. */
  ghost predicate MinutesSettled(terms: Terms, o: Occurrence, r: Row) {
    var graceEnd := o.startAt + terms.graceMinutes * MINUTE_MS;
    var due := MinutesBetween(o.startAt, o.endAt) - terms.graceMinutes;
    && MinutesExact(terms, o.startAt, o.endAt, r)
    && r.late == Some(if r.clockIn > graceEnd then MinutesBetween(graceEnd, r.clockIn) else 0)
    && !(r.overtime.value > 0 && r.early.value > 0)
    && (graceEnd < r.clockIn && r.clockOut.value < o.endAt ==>
          due - 2 <= r.gross.value + r.late.value + r.early.value <= due)
  }

  /** What a clock-out writes, given the occurrence it settles against. */
  lemma ClockOutMinutes(terms: Terms, row: Row, o: Occurrence, at: int, needsReview: bool)
    requires terms.graceMinutes >= 0 && o.startAt <= row.clockIn <= at && ClockOutOccurrence(terms, row) == o
    requires Apply(terms, row, ClockOut(true, needsReview), at).Done?
    ensures var r := Apply(terms, row, ClockOut(true, needsReview), at).row;
            r.clockIn == row.clockIn && r.clockOut == Some(at) && MinutesSettled(terms, o, r)
  {
    hide ClockOutOccurrence, IsActive, Allowed, HasActive, SumCompleted, CalculateTotals;
    var i := TotalsInput(row.clockIn, at, o.startAt, o.endAt, terms.graceMinutes, terms.overtimeThreshold,
                         SumCompleted(row.breaks));
    TotalsMean(terms, o.startAt, o.endAt, Apply(terms, row, ClockOut(true, needsReview), at).row);
    hide MinutesExact;
    OvertimeExcludesEarlyDeparture(i);
    if GraceEnd(i) < row.clockIn && at < o.endAt { MinutesBalance(i); }
    LateAndGross(i);
  }

  lemma LateAndGross(i: TotalsInput)
    requires i.graceMinutes >= 0
    ensures CalculateTotals(i).late == if i.clockIn > GraceEnd(i) then MinutesBetween(GraceEnd(i), i.clockIn) else 0
  {
  }

  /** A clock-out is accepted exactly in an active status, with no break running and the checks passed, unless it needs
      a review that is already pending or granted. Its minutes are exact against the occurrence it is settled against,
      and everything else stays but the status. */
  lemma ClockOutWrites(terms: Terms, row: Row, admitted: bool, needsReview: bool, at: int)
    ensures var r := Apply(terms, row, ClockOut(admitted, needsReview), at);
            && (r.Done? <==>
                  && admitted && (forall b <- row.breaks :: b.status != ACTIVE)
                  && (row.status == CLOCKED_IN || row.status == APPROVED_WITH_WARNING
                      || (!needsReview
                          && (row.status == PENDING_SUPERVISOR_APPROVAL || row.status == SUPERVISOR_APPROVED))))
            && (r.Done? ==>
                  var o := ClockOutOccurrence(terms, row);
                  && MinutesExact(terms, o.startAt, o.endAt, r.row) && r.row.clockOut == Some(at)
                  && r.row.clockIn == row.clockIn && r.row.breaks == row.breaks
                  && (TotalExact(row) && row.totalBreak >= 0 ==> r.row.totalBreak == row.totalBreak)
                  && r.row.assignmentId == row.assignmentId && r.row.occurrenceDate == row.occurrenceDate
                  && r.row.status == if needsReview then PENDING_SUPERVISOR_APPROVAL else CLOCKED_OUT)
  {
    hide ClockOutOccurrence, SumCompleted, MinutesExact;
    hide CalculateTotals;
    var o, r := ClockOutOccurrence(terms, row), Apply(terms, row, ClockOut(admitted, needsReview), at);
    if r.Done? { TotalsMean(terms, o.startAt, o.endAt, r.row); }
  }

  /** A correction is accepted exactly when a clock-out is given or recorded. It writes the given times, and minutes
      that are exact against the shift's own times; everything else stays. */
  lemma CorrectionWrites(terms: Terms, row: Row, newClockIn: Option<int>, newClockOut: Option<int>, at: int)
    ensures var r := Apply(terms, row, Correct(newClockIn, newClockOut), at);
            && (r.Done? <==> newClockOut.Some? || row.clockOut.Some?)
            && (r.Done? ==>
                  && MinutesExact(terms, terms.plan.startAt, terms.plan.endAt, r.row)
                  && r.row.clockIn == (if newClockIn.Some? then newClockIn.value else row.clockIn)
                  && r.row.clockOut == (if newClockOut.Some? then newClockOut else row.clockOut)
                  && (TotalExact(row) && row.totalBreak >= 0 ==> r.row.totalBreak == row.totalBreak)
                  && r.row.status == row.status && r.row.breaks == row.breaks
                  && r.row.assignmentId == row.assignmentId && r.row.occurrenceDate == row.occurrenceDate)
  {
    hide SumCompleted, MinutesExact;
    hide CalculateTotals;
    var r := Apply(terms, row, Correct(newClockIn, newClockOut), at);
    if r.Done? { TotalsMean(terms, terms.plan.startAt, terms.plan.endAt, r.row); }
  }

  /** A break is started exactly when it is admitted, the row is active and no break is running; then one runs from now
      on. It is ended exactly while it runs, and then as many minutes long as have passed. It is cancelled exactly
      while it runs and, unless a reviewer does it, within five minutes. Other breaks, times and the status stay. */
  lemma BreakStepsWrite(terms: Terms, row: Row, i: nat, admitted: bool, reviewer: bool, now: int)
    ensures var r := Apply(terms, row, StartBreak(admitted), now);
            && (r.Done? <==> admitted && IsActive(row.status) && forall b <- row.breaks :: b.status != ACTIVE)
            && (r.Done? ==> r.row == row.(breaks := row.breaks + [Break(ACTIVE, now, None, None)]))
    ensures var r := Apply(terms, row, EndBreak(i, admitted), now);
            && (r.Done? <==> admitted && i < |row.breaks| && row.breaks[i].status == ACTIVE)
            && (r.Done? ==>
                  && r.row == row.(breaks := r.row.breaks, totalBreak := SumCompleted(r.row.breaks))
                  && i < |r.row.breaks| && r.row.breaks == row.breaks[i := r.row.breaks[i]]
                  && r.row.breaks[i].status == COMPLETED && r.row.breaks[i].startedAt == row.breaks[i].startedAt
                  && r.row.breaks[i].endedAt == Some(now) && r.row.breaks[i].duration.Some?
                  && WholeMinutes(r.row.breaks[i].duration.value, now - row.breaks[i].startedAt))
    ensures var r := Apply(terms, row, CancelBreak(i, reviewer), now);
            && (r.Done? <==>
                  && i < |row.breaks| && row.breaks[i].status == ACTIVE
                  && (reviewer || now <= row.breaks[i].startedAt + 5 * 60_000))
            && (r.Done? ==> r.row == row.(breaks := row.breaks[i := row.breaks[i].(status := CANCELLED)]))
  {
    hide SumCompleted;
  }

  /** The moves between statuses that a review request, a verdict and voiding may make. */
  predicate ReviewMoves(e: Event, from: AttendanceStatus, to: AttendanceStatus) {
    match e
    case RequestReview =>
      to == PENDING_SUPERVISOR_APPROVAL
      && (from == PENDING || from == CLOCKED_IN || from == APPROVED_WITH_WARNING || from == CLOCKED_OUT)
    case Review(approve) =>
      to == (if approve then SUPERVISOR_APPROVED else SUPERVISOR_REJECTED)
      && (from == PENDING_SUPERVISOR_APPROVAL || from == APPROVED_WITH_WARNING || from == CLOCKED_OUT)
    case Void => to == VOIDED && from != VOIDED
    case _ => false
  }

  /** They are accepted exactly along that table, and change nothing but the status. */
  lemma ReviewStepsWrite(terms: Terms, row: Row, e: Event, now: int)
    requires e.RequestReview? || e.Review? || e.Void?
    ensures var r := Apply(terms, row, e, now);
            && (r.Done? <==> exists to :: ReviewMoves(e, row.status, to))
            && (r.Done? ==> r.row == row.(status := r.row.status) && ReviewMoves(e, row.status, r.row.status))
  {
    var r := Apply(terms, row, e, now);
    if r.Done? { assert ReviewMoves(e, row.status, r.row.status); }
  }

  /** From clock-in to clock-out without manual corrections, on an occurrence of the shift itself: the clock-out settles
      its minutes against the occurrence that clock-in resolved and writes the late minutes that clock-in wrote. */
  lemma WholeShiftBalances(assignmentId: nat, terms: Terms, taken: set<int>, now: int, clientDate: Option<string>,
                           a: Admission, v: Verdict, day: int, run: seq<Timed>, at: int, needsReview: bool)
    requires terms.graceMinutes >= 0 && InRange(day) && On(terms.plan, day).Some?
    requires ClockInOccurrence(terms, now, clientDate) == On(terms.plan, day)
    requires ClockIn(assignmentId, terms, taken, now, clientDate, a, v).Done?
    requires Clocked(now, run) && LastTime(now, run) <= at && forall t <- run :: !t.event.Correct?
    requires var row := ClockIn(assignmentId, terms, taken, now, clientDate, a, v).row;
             Apply(terms, After(terms, row, run), ClockOut(true, needsReview), at).Done?
    ensures var row := ClockIn(assignmentId, terms, taken, now, clientDate, a, v).row;
            var r := Apply(terms, After(terms, row, run), ClockOut(true, needsReview), at).row;
            r.clockIn == now && r.clockOut == Some(at) && r.late == row.late
            && MinutesSettled(terms, On(terms.plan, day).value, r)
  {
    hide *;
    var row := ClockIn(assignmentId, terms, taken, now, clientDate, a, v).row;
    var o := On(terms.plan, day).value;
    FirstRow(assignmentId, terms, taken, now, clientDate, a, v, o);
    var before := After(terms, row, run);
    BeforeClockOut(terms, row, run, now, at);
    OnKeepsKey(terms.plan, day);
    SameDate(o, day);
    ClockOutUsesClockInOccurrence(terms, before, day);
    ClockOutMinutes(terms, before, o, at, needsReview);
    LateOf(terms, o, Apply(terms, before, ClockOut(true, needsReview), at).row);
  }

  lemma LateOf(terms: Terms, o: Occurrence, r: Row)
    requires MinutesSettled(terms, o, r)
    ensures r.late == Some(if r.clockIn > o.startAt + terms.graceMinutes * MINUTE_MS
                           then MinutesBetween(o.startAt + terms.graceMinutes * MINUTE_MS, r.clockIn) else 0)
  {
  }

  lemma BeforeClockOut(terms: Terms, row: Row, run: seq<Timed>, now: int, at: int)
    requires row.clockIn == now && row.breaks == []
    requires Clocked(now, run) && LastTime(now, run) <= at && forall t <- run :: !t.event.Correct?
    ensures var r := After(terms, row, run); r.clockIn == now <= at && r.occurrenceDate == row.occurrenceDate
  {
    hide After, Chronicle, Clocked, LastTime;
    EmptyChronicle(now);
    ChronicleRun(terms, row, run, now);
    RunKeepsDuty(terms, row, run);
  }

  /** The row an accepted clock-in writes. */
  lemma FirstRow(assignmentId: nat, terms: Terms, taken: set<int>, now: int, clientDate: Option<string>,
                 a: Admission, v: Verdict, o: Occurrence)
    requires ClockInOccurrence(terms, now, clientDate) == Some(o)
    requires ClockIn(assignmentId, terms, taken, now, clientDate, a, v).Done?
    ensures var row := ClockIn(assignmentId, terms, taken, now, clientDate, a, v).row;
            var graceEnd := o.startAt + terms.graceMinutes * MINUTE_MS;
            && row.clockIn == now && row.breaks == [] && row.occurrenceDate == OccurrenceDate(o) && o.startAt <= now
            && row.late == Some(if now > graceEnd then MinutesBetween(graceEnd, now) else 0)
  {
    hide ClockInOccurrence, DateKeyToUtcDate;
  }

  lemma EmptyChronicle(now: int)
    ensures Chronicle([], now, now)
  {
  }

  lemma SameDate(o: Occurrence, day: int)
    requires o.dateKey == Key(day)
    ensures OccurrenceDate(o) == OccurrenceDate(Occurrence(Key(day), 0, 0))
  {
  }

  // ---- Projected shifts ---------------------------------------------------------------------------------------------

  /** A row whose date the shift itself does not occur on is settled against the shift's original times. */
  lemma SettledAgainstOriginalTimes(terms: Terms, row: Row, day: int, at: int, needsReview: bool)
    requires InRange(day) && row.occurrenceDate == OccurrenceDate(Occurrence(Key(day), 0, 0))
    requires On(terms.plan, day).None?
    requires terms.graceMinutes >= 0 && Apply(terms, row, ClockOut(true, needsReview), at).Done?
    ensures var graceEnd := terms.plan.startAt + terms.graceMinutes * MINUTE_MS;
            Apply(terms, row, ClockOut(true, needsReview), at).row.late
            == Some(if row.clockIn > graceEnd then MinutesBetween(graceEnd, row.clockIn) else 0)
  {
    hide OccurrenceOnDate, Key, On, HasActive, IsActive, ClockOutOccurrence, Allowed, OccurrenceDate, CalculateTotals,
      SumCompleted;
    ClockOutUsesClockInOccurrence(terms, row, day);
    LateAndGross(TotalsInput(row.clockIn, at, terms.plan.startAt, terms.plan.endAt, terms.graceMinutes,
                             terms.overtimeThreshold, SumCompleted(row.breaks)));
  }

  /** Whether the officer of a one-off shift clocks in on time for its projection onto a later day, naming no other
      date near by. */
  ghost predicate OnTimeForProjection(terms: Terms, offset: int, day: int, now: int, clientDate: Option<string>) {
    var grace := terms.graceMinutes * MINUTE_MS;
    && Fixed(terms.plan.zone, offset) && Dated(terms.plan)
    && terms.plan.recurrence == NONE && terms.plan.recurrenceEndAt.None?
    && InRange(day) && InRange(day + 2) && OriginalOver(terms.plan, grace, day)
    && terms.graceMinutes >= 0 && Duration(terms.plan) + grace < MS_PER_DAY
    && NamesNoOther(terms.plan, now, clientDate, day)
    && var start := FixedStart(terms.plan, offset, day);
       start <= now <= start + Duration(terms.plan) && now <= start + grace
  }

  lemma ProjectedClockIn(assignmentId: nat, terms: Terms, taken: set<int>, now: int, clientDate: Option<string>,
                         a: Admission, v: Verdict, offset: int, day: int)
    requires OnTimeForProjection(terms, offset, day, now, clientDate) && Admitted(a, terms)
    requires OccurrenceDate(Occurrence(Key(day), 0, 0)) !in taken
    ensures var r := ClockIn(assignmentId, terms, taken, now, clientDate, a, v);
            r.Done? && r.row.late == Some(0) && r.row.clockIn == now && r.row.breaks == []
            && r.row.occurrenceDate == OccurrenceDate(Occurrence(Key(day), 0, 0))
  {
    hide LocalDay, Dated, ResolveClockIn, Duration, FixedStart, Key, DateKeyToUtcDate, OriginalOver, NamesNoOther;
    ProjectedOccurrence(terms.plan, offset, now, CURRENT_WINDOW_MS, terms.graceMinutes * MINUTE_MS, clientDate, day);
  }

  /** A one-off shift worked again on a later day: clock-in accepts an officer who arrives on time and records no late
      minutes, but after any run without corrections clock-out counts every day since the original one as late. */
  lemma ProjectedShiftCountsAsLate(assignmentId: nat, terms: Terms, taken: set<int>, now: int,
                                   clientDate: Option<string>, a: Admission, v: Verdict,
                                   offset: int, day: int, run: seq<Timed>, at: int, needsReview: bool)
    requires OnTimeForProjection(terms, offset, day, now, clientDate) && Admitted(a, terms)
    requires OccurrenceDate(Occurrence(Key(day), 0, 0)) !in taken
    requires Clocked(now, run) && LastTime(now, run) <= at && forall t <- run :: !t.event.Correct?
    ensures var r := ClockIn(assignmentId, terms, taken, now, clientDate, a, v);
            r.Done? && r.row.late == Some(0) && r.row.occurrenceDate == OccurrenceDate(Occurrence(Key(day), 0, 0))
    ensures var before := After(terms, ClockIn(assignmentId, terms, taken, now, clientDate, a, v).row, run);
            var out := Apply(terms, before, ClockOut(true, needsReview), at);
            var late := MinutesBetween(terms.plan.startAt + terms.graceMinutes * MINUTE_MS, now);
            && (out.Done? ==> out.row.late == Some(late))
            && late >= 1440 * (day - StartDay(terms.plan)) - terms.graceMinutes - 1
            && (terms.plan.startAt % 1000 == 0 ==> late >= 1440 * (day - StartDay(terms.plan)) - terms.graceMinutes)
  {
    hide ClockIn, After, Apply, Clocked, LastTime, OccurrenceDate, OnTimeForProjection, Admitted, Key, On, StartDay,
        MinutesBetween;
    ProjectedClockIn(assignmentId, terms, taken, now, clientDate, a, v, offset, day);
    var row := ClockIn(assignmentId, terms, taken, now, clientDate, a, v).row;
    BeforeClockOut(terms, row, run, now, at);
    NotOnProjectedDay(terms, offset, day, now, clientDate);
    var before := After(terms, row, run);
    if Apply(terms, before, ClockOut(true, needsReview), at).Done? {
      SettledAgainstOriginalTimes(terms, before, day, at, needsReview);
    }
    DaysLate(terms, offset, day, now, clientDate);
  }

  lemma NotOnProjectedDay(terms: Terms, offset: int, day: int, now: int, clientDate: Option<string>)
    requires OnTimeForProjection(terms, offset, day, now, clientDate)
    ensures InRange(day) && On(terms.plan, day).None? && terms.graceMinutes >= 0
  {
    hide On, LocalDay, Dated, Duration, FixedStart;
    OneOffOn(terms.plan, day);
  }

  lemma DaysLate(terms: Terms, offset: int, day: int, now: int, clientDate: Option<string>)
    requires OnTimeForProjection(terms, offset, day, now, clientDate)
    ensures var graceEnd := terms.plan.startAt + terms.graceMinutes * MINUTE_MS;
            var late := MinutesBetween(graceEnd, now);
            && now > graceEnd && late >= 1440 * (day - StartDay(terms.plan)) - terms.graceMinutes - 1
            && (terms.plan.startAt % 1000 == 0 ==> late >= 1440 * (day - StartDay(terms.plan)) - terms.graceMinutes)
  {
    hide LocalDay, Dated, TimeOfDay;
    OneOffStart(terms.plan, offset);
    var n := day - StartDay(terms.plan);
    var start := FixedStart(terms.plan, offset, day);
    assert start - terms.plan.startAt == n * MS_PER_DAY - terms.plan.startAt % 1000;
    assert n * MS_PER_DAY == 1440 * n * MINUTE_MS;
  }

  // ---- The services -------------------------------------------------------------------------------------------------

  /** The breaks of an attendance folded one by one, as the clock-out and the end of a break do. */
  method SumDurations(breaks: seq<Break>) returns (sum: int)
    ensures sum == SumCompleted(breaks)
  {
    sum := 0;
    for i := 0 to |breaks|
      invariant sum == SumCompleted(breaks[..i])
    {
      SumAppend(breaks[..i], breaks[i]);
      assert breaks[..i + 1] == breaks[..i] + [breaks[i]];
      if breaks[i].status == COMPLETED && breaks[i].duration.Some? {
        sum := sum + breaks[i].duration.value;
      }
    }
    assert breaks[..|breaks|] == breaks;
  }

  method FindActive(breaks: seq<Break>) returns (found: bool)
    ensures found == HasActive(breaks)
  {
    for i := 0 to |breaks|
      invariant forall k :: 0 <= k < i ==> breaks[k].status != ACTIVE
    {
      if breaks[i].status == ACTIVE {
        assert breaks[i] in breaks;
        return true;
      }
    }
    return false;
  }

  /** The attendance rows of the assignments of one shift, with their breaks. */
  class AttendanceService {
    const terms: Terms
    var rows: map<nat, Row>
    var nextId: nat

    constructor (terms: Terms)
      ensures Valid() && rows == map[] && this.terms == terms
    {
      this.terms := terms;
      rows := map[];
      nextId := 0;
    }

    /** An assignment has one attendance per occurrence. */
    ghost predicate Valid()
      reads this
    {
      && (forall id <- rows :: id < nextId)
      && (forall a, b :: a in rows && b in rows && a != b
            ==> !(rows[a].assignmentId == rows[b].assignmentId && rows[a].occurrenceDate == rows[b].occurrenceDate))
    }

    function Taken(assignmentId: nat): set<int>
      reads this
    {
      set id | id in rows && rows[id].assignmentId == assignmentId :: rows[id].occurrenceDate
    }

    /** Row `id` took the step `e`, or nothing happened. */
    twostate predicate Stepped(id: nat, e: Event, now: int, r: Result)
      reads this
    {
      && nextId == old(nextId)
      && (if id in old(rows)
          then r == Apply(terms, old(rows)[id], e, now)
               && rows == if r.Done? then old(rows)[id := r.row] else old(rows)
          else r == Rejected(AttendanceNotFound) && rows == old(rows))
    }

    method PerformClockIn(assignmentId: nat, clientDate: Option<string>, a: Admission, v: Verdict, now: int)
      returns (r: Result)
      requires Valid()
      modifies this
      ensures Valid()
      ensures r == ClockIn(assignmentId, terms, old(Taken(assignmentId)), now, clientDate, a, v)
      ensures rows == if r.Done? then old(rows)[old(nextId) := r.row] else old(rows)
    {
      hide ResolveClockIn, DateKeyToUtcDate, IsoDate;
      if !a.device { return Rejected(NotAdmitted); }
      if !a.own { return Rejected(AssignmentNotFound); }
      if Scheduling.BarsClockIn(a.standing, terms.plan) { return Rejected(NotCurrent); }
      var occurrence := ClockInOccurrence(terms, now, clientDate);
      if occurrence.None? { return Rejected(NotCurrent); }
      var o := occurrence.value;
      var date := OccurrenceDate(o);
      if date in Taken(assignmentId) { return Rejected(AlreadyExists); }
      if now < o.startAt { return Rejected(TooEarly); }
      if now > o.endAt { return Rejected(ShiftEnded); }
      if !a.place { return Rejected(NotAdmitted); }
      var status := CLOCKED_IN;
      if v == OutsideWithReason {
        status := APPROVED_WITH_WARNING;
      } else if v == OutsideForReview {
        status := PENDING_SUPERVISOR_APPROVAL;
      }
      var graceEnd := o.startAt + terms.graceMinutes * MINUTE_MS;
      var late := 0;
      if now > graceEnd { late := MinutesBetween(graceEnd, now); }
      var row := Row(assignmentId, date, status, now, None, 0, None, None, None, Some(late), None, []);
      forall id | id in rows ensures !(rows[id].assignmentId == assignmentId && rows[id].occurrenceDate == date) {
        if rows[id].assignmentId == assignmentId { assert rows[id].occurrenceDate in Taken(assignmentId); }
      }
      rows := rows[nextId := row];
      nextId := nextId + 1;
      return Done(row);
    }

    method PerformStartBreak(id: nat, admitted: bool, now: int) returns (r: Result)
      requires Valid()
      modifies this
      ensures Valid() && Stepped(id, StartBreak(admitted), now, r)
    {
      hide SumCompleted, HasActive;
      if id !in rows { return Rejected(AttendanceNotFound); }
      if !admitted { return Rejected(NotAdmitted); }
      var row := rows[id];
      if !IsActive(row.status) { return Rejected(NotActive); }
      var running := FindActive(row.breaks);
      if running { return Rejected(BreakAlreadyActive); }
      row := row.(breaks := row.breaks + [Break(ACTIVE, now, None, None)]);
      rows := rows[id := row];
      return Done(row);
    }

    method PerformEndBreak(id: nat, index: nat, admitted: bool, now: int) returns (r: Result)
      requires Valid()
      modifies this
      ensures Valid() && Stepped(id, EndBreak(index, admitted), now, r)
    {
      hide SumCompleted, HasActive;
      if id !in rows { return Rejected(AttendanceNotFound); }
      if !admitted { return Rejected(NotAdmitted); }
      var row := rows[id];
      if index >= |row.breaks| { return Rejected(BreakNotFound); }
      var b := row.breaks[index];
      if b.status != ACTIVE { return Rejected(BreakNotActive); }
      var breaks := row.breaks[index := Break(COMPLETED, b.startedAt, Some(now), Some(BreakMinutes(b.startedAt, now)))];
      var total := SumDurations(breaks);
      row := row.(breaks := breaks, totalBreak := total);
      rows := rows[id := row];
      return Done(row);
    }

    method CancelBreak(id: nat, index: nat, reviewer: bool, now: int) returns (r: Result)
      requires Valid()
      modifies this
      ensures Valid() && Stepped(id, Event.CancelBreak(index, reviewer), now, r)
    {
      hide SumCompleted, HasActive;
      if id !in rows { return Rejected(AttendanceNotFound); }
      var row := rows[id];
      if index >= |row.breaks| { return Rejected(BreakNotFound); }
      if !reviewer {
        var age := now - row.breaks[index].startedAt;
        if age > CANCEL_WINDOW_MS { return Rejected(TransitionInvalid); }
      }
      if row.breaks[index].status != ACTIVE { return Rejected(TransitionInvalid); }
      row := row.(breaks := row.breaks[index := row.breaks[index].(status := CANCELLED)]);
      rows := rows[id := row];
      return Done(row);
    }

    method PerformClockOut(id: nat, admitted: bool, needsReview: bool, now: int) returns (r: Result)
      requires Valid()
      modifies this
      ensures Valid() && Stepped(id, ClockOut(admitted, needsReview), now, r)
    {
      hide SumCompleted, HasActive, ClockOutOccurrence, CalculateTotals, Allowed;
      if id !in rows { return Rejected(AttendanceNotFound); }
      var row := rows[id];
      if !IsActive(row.status) { return Rejected(NotActive); }
      var running := FindActive(row.breaks);
      if running { return Rejected(ActiveBreakExists); }
      if !admitted { return Rejected(NotAdmitted); }
      var next := CLOCKED_OUT;
      if needsReview { next := PENDING_SUPERVISOR_APPROVAL; }
      if !Allowed(row.status, next) { return Rejected(TransitionInvalid); }
      var completed := SumDurations(row.breaks);
      var o := ClockOutOccurrence(terms, row);
      var totals := CalculateTotals(
        TotalsInput(row.clockIn, now, o.startAt, o.endAt, terms.graceMinutes, terms.overtimeThreshold, completed));
      row := WithTotals(row, totals).(status := next, clockOut := Some(now));
      rows := rows[id := row];
      return Done(row);
    }

    method MoveTo(id: nat, next: AttendanceStatus) returns (r: Result)
      requires Valid()
      modifies this
      ensures Valid() && nextId == old(nextId)
      ensures id in old(rows) ==> r == ToStatus(old(rows)[id], next)
      ensures id !in old(rows) ==> r == Rejected(AttendanceNotFound)
      ensures rows == if r.Done? then old(rows)[id := r.row] else old(rows)
    {
      hide Allowed;
      if id !in rows { return Rejected(AttendanceNotFound); }
      var row := rows[id];
      if !Allowed(row.status, next) { return Rejected(TransitionInvalid); }
      row := row.(status := next);
      rows := rows[id := row];
      return Done(row);
    }

    method PerformRequestReview(id: nat, now: int) returns (r: Result)
      requires Valid()
      modifies this
      ensures Valid() && Stepped(id, RequestReview, now, r)
    {
      r := MoveTo(id, PENDING_SUPERVISOR_APPROVAL);
    }

    method PerformReview(id: nat, approve: bool, now: int) returns (r: Result)
      requires Valid()
      modifies this
      ensures Valid() && Stepped(id, Review(approve), now, r)
    {
      r := MoveTo(id, if approve then SUPERVISOR_APPROVED else SUPERVISOR_REJECTED);
    }

    method VoidAttendance(id: nat, now: int) returns (r: Result)
      requires Valid()
      modifies this
      ensures Valid() && Stepped(id, Void, now, r)
    {
      r := MoveTo(id, VOIDED);
    }

    method CorrectAttendance(id: nat, newClockIn: Option<int>, newClockOut: Option<int>, now: int) returns (r: Result)
      requires Valid()
      modifies this
      ensures Valid() && Stepped(id, Correct(newClockIn, newClockOut), now, r)
    {
      hide SumCompleted, CalculateTotals;
      if id !in rows { return Rejected(AttendanceNotFound); }
      var row := rows[id];
      var clockIn := row.clockIn;
      if newClockIn.Some? { clockIn := newClockIn.value; }
      var clockOut := row.clockOut;
      if newClockOut.Some? { clockOut := newClockOut; }
      if clockOut.None? { return Rejected(ClockOutRequired); }
      var completed := SumDurations(row.breaks);
      var totals := CalculateTotals(
        TotalsInput(clockIn, clockOut.value, terms.plan.startAt, terms.plan.endAt, terms.graceMinutes,
                    terms.overtimeThreshold, completed));
      row := WithTotals(row, totals).(clockIn := clockIn, clockOut := clockOut);
      rows := rows[id := row];
      return Done(row);
    }
  }
}
