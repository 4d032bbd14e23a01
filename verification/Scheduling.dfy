/** Officer scheduling: creating, batching, reassigning, confirming and closing assignments of officers to shifts,
    with the writes that clock-in, clock-out and the shift's own status make to the same rows. */
module Scheduling {
  import opened JsText
  import opened Calendar
  import opened TimeZone
  import opened Recurrence
  import opened ScheduleOverlap

  type Id = nat

  datatype AssignmentStatus = ASSIGNED | CONFIRMED | IN_PROGRESS | COMPLETED | CANCELLED | REASSIGNED | MISSED
  datatype ShiftStatus = DRAFT | SCHEDULED | STARTED | FINISHED | CALLED_OFF | ARCHIVED

  datatype Assignment = Assignment(shiftId: Id, officerId: Id, status: AssignmentStatus)
  datatype ShiftRow = ShiftRow(plan: Shift, status: ShiftStatus, siteActive: bool, deleted: bool)

  datatype World = World(shifts: map<Id, ShiftRow>, activeOfficers: map<Id, bool>, assignments: map<Id, Assignment>)

  datatype Error =
    | AssignmentNotFound | ShiftNotFound | ShiftInvalid | SiteInactive | OfficerNotFound | OfficerInactive
    | Duplicate | TimeConflict | TransitionInvalid | NotCurrent | ShiftImmutable | ShiftStarted | TimeRangeInvalid

  datatype Result = Done(world: World) | Rejected(error: Error)

  datatype Command =
    | Create(shiftId: Id, officerId: Id, newId: Id)
    | CreateBatch(shiftId: Id, officerIds: seq<Id>, newIds: seq<Id>)
    | Reassign(id: Id, replacementId: Id, newId: Id)
    | Confirm(id: Id)
    | Cancel(id: Id)
    | UpdateStatus(id: Id, status: AssignmentStatus)
    | ClockIn(id: Id)
    | ClockOut(id: Id)
    | SetShiftStatus(shiftId: Id, shiftStatus: ShiftStatus)
    | ArchiveShift(shiftId: Id)
    | UpdateShift(shiftId: Id, change: PlanChange)

  /** The fields of an update that are present. `site` is whether the site that the shift moves to is active, `valid`
      the verdict on its length, breaks, weekdays and time zone. */
  datatype PlanChange = PlanChange(
    site: Option<bool>, startAt: Option<int>, endAt: Option<int>, recurrence: Option<RecurrenceType>,
    recurrenceEndAt: Option<Option<int>>, daysOfWeek: Option<seq<int>>, zone: Option<Zone>, valid: bool)

  // ---- Tables -----------------------------------------------------------------------------------------------------

  predicate Occupies(s: AssignmentStatus) {
    s == ASSIGNED || s == CONFIRMED || s == IN_PROGRESS
  }

  predicate AssignmentAllowed(from: AssignmentStatus, to: AssignmentStatus) {
    match from
    case ASSIGNED => to == CONFIRMED || to == CANCELLED || to == REASSIGNED || to == MISSED
    case CONFIRMED => to == IN_PROGRESS || to == CANCELLED || to == REASSIGNED || to == MISSED
    case IN_PROGRESS => to == COMPLETED
    case _ => false
  }

  /** The assignment is closed, for a one-off shift also by its completion. */
  predicate BarsClockIn(s: AssignmentStatus, plan: Shift) {
    s == CANCELLED || s == REASSIGNED || s == MISSED || (s == COMPLETED && !IsRecurring(plan.recurrence))
  }

  predicate ShiftAllowed(from: ShiftStatus, to: ShiftStatus) {
    match from
    case DRAFT => to == SCHEDULED || to == CALLED_OFF
    case SCHEDULED => to == STARTED || to == CALLED_OFF
    case STARTED => to == FINISHED || to == CALLED_OFF
    case FINISHED => to == ARCHIVED
    case CALLED_OFF => to == ARCHIVED
    case ARCHIVED => false
  }

  // ---- The checks before a creation ---------------------------------------------------------------------------------

  const OVERLAP_WINDOW_MS := 62 * 24 * 60 * 60_000

  function WindowEnd(proposed: Shift): int {
    if proposed.recurrenceEndAt.Some? then proposed.recurrenceEndAt.value else proposed.startAt + OVERLAP_WINDOW_MS
  }

  /** The decision of assertNoOverlap for one other shift. */
  ghost predicate Conflicts(proposed: Shift, other: Shift) {
    if IsRecurring(proposed.recurrence) || IsRecurring(other.recurrence)
    then OverlapFound(proposed, other, proposed.startAt, WindowEnd(proposed))
    else RangesOverlap(other.startAt, other.endAt, proposed.startAt, proposed.endAt)
  }

  predicate Holds(w: World, id: Id, officerId: Id) {
    id in w.assignments && w.assignments[id].officerId == officerId && Occupies(w.assignments[id].status)
  }

  ghost predicate NoDuplicate(w: World, shiftId: Id, officerId: Id) {
    forall id <- w.assignments :: Holds(w, id, officerId) ==> w.assignments[id].shiftId != shiftId
  }

  /** The other assignments that assertNoOverlap loads: active, on a shift that is not deleted, and not the ignored one.
      */
  predicate Blocks(w: World, id: Id, officerId: Id, ignore: Option<Id>) {
    Holds(w, id, officerId) && Some(id) != ignore
    && w.assignments[id].shiftId in w.shifts && !w.shifts[w.assignments[id].shiftId].deleted
  }

  ghost predicate NoOverlap(w: World, proposed: Shift, officerId: Id, ignore: Option<Id>) {
    forall id <- w.assignments :: Blocks(w, id, officerId, ignore) ==>
      !Conflicts(proposed, w.shifts[w.assignments[id].shiftId].plan)
  }

  function AssignableShift(w: World, shiftId: Id, allowStarted: bool): Option<Error> {
    if shiftId !in w.shifts || w.shifts[shiftId].deleted then Some(ShiftNotFound)
    else
      var s := w.shifts[shiftId];
      if !(s.status == DRAFT || s.status == SCHEDULED || (allowStarted && s.status == STARTED)) then Some(ShiftInvalid)
      else if !s.siteActive then Some(SiteInactive)
      else None
  }

  function AssignableOfficer(w: World, officerId: Id): Option<Error> {
    if officerId !in w.activeOfficers then Some(OfficerNotFound)
    else if !w.activeOfficers[officerId] then Some(OfficerInactive)
    else None
  }

  /** The checks on one officer, in order. */
  ghost function OfficerChecks(w: World, shiftId: Id, officerId: Id, ignore: Option<Id>): Option<Error>
    requires shiftId in w.shifts
  {
    if AssignableOfficer(w, officerId).Some? then AssignableOfficer(w, officerId)
    else if !NoDuplicate(w, shiftId, officerId) then Some(Duplicate)
    else if !NoOverlap(w, w.shifts[shiftId].plan, officerId, ignore) then Some(TimeConflict)
    else None
  }

  /** [...new Set(ids)]: first occurrences in order. */
  function Unique(ids: seq<Id>): (r: seq<Id>)
    ensures forall i, j :: 0 <= i < j < |r| ==> r[i] != r[j]
    ensures forall id :: id in r <==> id in ids
  {
    if ids == [] then []
    else
      var front := Unique(ids[..|ids| - 1]);
      var last := ids[|ids| - 1];
      assert ids == ids[..|ids| - 1] + [last];
      if last in front then front else front + [last]
  }

  ghost function BatchChecks(w: World, shiftId: Id, officers: seq<Id>): Option<Error>
    requires shiftId in w.shifts
  {
    if officers == [] then None
    else if OfficerChecks(w, shiftId, officers[0], None).Some? then OfficerChecks(w, shiftId, officers[0], None)
    else BatchChecks(w, shiftId, officers[1..])
  }

  function AddAll(rows: map<Id, Assignment>, shiftId: Id, officers: seq<Id>, ids: seq<Id>): map<Id, Assignment>
    requires |officers| <= |ids|
    decreases |officers|
  {
    if officers == [] then rows
    else AddAll(rows[ids[0] := Assignment(shiftId, officers[0], ASSIGNED)], shiftId, officers[1..], ids[1..])
  }

  // ---- Commands -----------------------------------------------------------------------------------------------------

  function WithStatus(w: World, id: Id, s: AssignmentStatus): World
    requires id in w.assignments
  {
    w.(assignments := w.assignments[id := w.assignments[id].(status := s)])
  }

  /** Ids of new rows are fresh UUIDs. */
  predicate FreshIds(w: World, c: Command) {
    match c
    case Create(_, _, newId) => newId !in w.assignments
    case CreateBatch(_, officers, newIds) =>
      |newIds| >= |Unique(officers)| && (forall i :: 0 <= i < |newIds| ==> newIds[i] !in w.assignments)
      && forall i, j :: 0 <= i < j < |newIds| ==> newIds[i] != newIds[j]
    case Reassign(_, _, newId) => newId !in w.assignments
    case _ => true
  }

  ghost function Apply(w: World, c: Command): Result
    requires FreshIds(w, c)
  {
    match c
    case Create(shiftId, officerId, newId) =>
      var e := AssignableShift(w, shiftId, false);
      if e.Some? then Rejected(e.value)
      else
        var f := OfficerChecks(w, shiftId, officerId, None);
        if f.Some? then Rejected(f.value)
        else Done(w.(assignments := w.assignments[newId := Assignment(shiftId, officerId, ASSIGNED)]))
    case CreateBatch(shiftId, officerIds, newIds) =>
      var e := AssignableShift(w, shiftId, false);
      if e.Some? then Rejected(e.value)
      else
        var f := BatchChecks(w, shiftId, Unique(officerIds));
        if f.Some? then Rejected(f.value)
        else Done(w.(assignments := AddAll(w.assignments, shiftId, Unique(officerIds), newIds)))
    case Reassign(id, replacementId, newId) =>
      if id !in w.assignments then Rejected(AssignmentNotFound)
      else
        var a := w.assignments[id];
        if a.status != ASSIGNED && a.status != CONFIRMED then Rejected(TransitionInvalid)
        else
          var e := AssignableShift(w, a.shiftId, true);
          if e.Some? then Rejected(e.value)
          else
            var f := OfficerChecks(w, a.shiftId, replacementId, Some(id));
            if f.Some? then Rejected(f.value)
            else Done(w.(assignments := w.assignments[id := a.(status := REASSIGNED)]
                                                     [newId := Assignment(a.shiftId, replacementId, ASSIGNED)]))
    case Confirm(id) =>
      if id !in w.assignments then Rejected(AssignmentNotFound)
      else if w.assignments[id].status != ASSIGNED then Rejected(TransitionInvalid)
      else Done(WithStatus(w, id, CONFIRMED))
    case Cancel(id) =>
      if id !in w.assignments then Rejected(AssignmentNotFound)
      else
        var s := w.assignments[id].status;
        if s == IN_PROGRESS || s == COMPLETED then Rejected(TransitionInvalid)
        else if s == CANCELLED || s == REASSIGNED || s == MISSED then Done(w)
        else Done(WithStatus(w, id, CANCELLED))
    case UpdateStatus(id, status) =>
      if id !in w.assignments then Rejected(AssignmentNotFound)
      else if !AssignmentAllowed(w.assignments[id].status, status) then Rejected(TransitionInvalid)
      else Done(WithStatus(w, id, status))
    case ClockIn(id) =>
      if id !in w.assignments || w.assignments[id].shiftId !in w.shifts then Rejected(AssignmentNotFound)
      else
        var a, s := w.assignments[id], w.shifts[w.assignments[id].shiftId];
        if BarsClockIn(a.status, s.plan) then Rejected(NotCurrent)
        else
          var v := if a.status == ASSIGNED || a.status == CONFIRMED then WithStatus(w, id, IN_PROGRESS) else w;
          if s.status == SCHEDULED && !IsRecurring(s.plan.recurrence)
          then Done(v.(shifts := v.shifts[a.shiftId := s.(status := STARTED)]))
          else Done(v)
    case ClockOut(id) =>
      if id !in w.assignments || w.assignments[id].shiftId !in w.shifts then Rejected(AssignmentNotFound)
      else if w.assignments[id].status != IN_PROGRESS then Done(w)
      else if IsRecurring(w.shifts[w.assignments[id].shiftId].plan.recurrence) then Done(WithStatus(w, id, CONFIRMED))
      else Done(WithStatus(w, id, COMPLETED))
    case SetShiftStatus(shiftId, status) =>
      if shiftId !in w.shifts || w.shifts[shiftId].deleted then Rejected(ShiftNotFound)
      else if !ShiftAllowed(w.shifts[shiftId].status, status) then Rejected(TransitionInvalid)
      else
        var row := w.shifts[shiftId].(status := status, deleted := status == ARCHIVED);
        Done(w.(shifts := w.shifts[shiftId := row],
                assignments := if status == CALLED_OFF then CancelAll(w.assignments, shiftId) else w.assignments))
    case ArchiveShift(shiftId) =>
      if shiftId !in w.shifts || w.shifts[shiftId].deleted then Rejected(ShiftNotFound)
      else if w.shifts[shiftId].status == ARCHIVED then Done(w)
      else if w.shifts[shiftId].status != FINISHED && w.shifts[shiftId].status != CALLED_OFF then
        Rejected(TransitionInvalid)
      else Done(w.(shifts := w.shifts[shiftId := w.shifts[shiftId].(status := ARCHIVED, deleted := true)]))
    case UpdateShift(shiftId, d) => ShiftUpdated(w, shiftId, d)
  }

  /** Cancelling a shift cancels every active assignment on it. */
  function CancelAll(rows: map<Id, Assignment>, shiftId: Id): map<Id, Assignment> {
    map id <- rows ::
      if rows[id].shiftId == shiftId && Occupies(rows[id].status) then rows[id].(status := CANCELLED) else rows[id]
  }

  // ---- Updating a shift ---------------------------------------------------------------------------------------------

  function OrElse<T>(o: Option<T>, otherwise: T): T {
    if o.Some? then o.value else otherwise
  }

  predicate MovesTimes(d: PlanChange) {
    d.startAt.Some? || d.endAt.Some?
  }

  function ChangedPlan(p: Shift, d: PlanChange): Shift {
    var recurrence := OrElse(d.recurrence, p.recurrence);
    Shift(recurrence, OrElse(d.startAt, p.startAt), OrElse(d.endAt, p.endAt),
          if d.recurrenceEndAt.None? then p.recurrenceEndAt
          else if IsRecurring(recurrence) then d.recurrenceEndAt.value else None,
          if d.daysOfWeek.None? then p.daysOfWeek else if recurrence == DAILY then [] else d.daysOfWeek.value,
          OrElse(d.zone, p.zone))
  }

  /** An active assignment to another shift, not deleted, of an officer who is assigned to this one. */
  predicate Beside(w: World, shiftId: Id, a: Id, b: Id) {
    && a in w.assignments && b in w.assignments
    && w.assignments[a].shiftId == shiftId && Occupies(w.assignments[a].status)
    && w.assignments[b].officerId == w.assignments[a].officerId && Occupies(w.assignments[b].status)
    && w.assignments[b].shiftId != shiftId && Live(w, b)
  }

  /** The decision of assertNoAssignmentConflictsOnReschedule: it compares the plain times of all other shifts. */
  ghost predicate ClearOnReschedule(w: World, shiftId: Id, startAt: int, endAt: int) {
    forall a, b :: Beside(w, shiftId, a, b) ==>
      var other := w.shifts[w.assignments[b].shiftId].plan; !RangesOverlap(other.startAt, other.endAt, startAt, endAt)
  }

  ghost function ShiftUpdated(w: World, shiftId: Id, d: PlanChange): Result {
    if shiftId !in w.shifts || w.shifts[shiftId].deleted then Rejected(ShiftNotFound)
    else
      var row := w.shifts[shiftId];
      var plan := ChangedPlan(row.plan, d);
      if row.status == FINISHED || row.status == CALLED_OFF || row.status == ARCHIVED then Rejected(ShiftImmutable)
      else if row.status == STARTED && (d.site.Some? || MovesTimes(d)) then Rejected(ShiftStarted)
      else if d.site == Some(false) then Rejected(SiteInactive)
      else if MovesTimes(d) && plan.endAt <= plan.startAt then Rejected(TimeRangeInvalid)
      else if MovesTimes(d) && !ClearOnReschedule(w, shiftId, plan.startAt, plan.endAt) then Rejected(TimeConflict)
      else if !d.valid then Rejected(ShiftInvalid)
      else Done(w.(shifts := w.shifts[shiftId := row.(plan := plan, siteActive := row.siteActive || d.site.Some?)]))
  }

  // ---- Invariants ---------------------------------------------------------------------------------------------------

  /** Both assignments occupy the same officer, on one-off shifts. */
  predicate OneOffPair(w: World, a: Id, b: Id) {
    && a in w.assignments && b in w.assignments && a != b
    && w.assignments[a].officerId == w.assignments[b].officerId
    && Occupies(w.assignments[a].status) && Occupies(w.assignments[b].status)
    && OneOff(w, a) && OneOff(w, b)
  }

  predicate OneOff(w: World, id: Id)
    requires id in w.assignments
  {
    w.assignments[id].shiftId in w.shifts && !IsRecurring(w.shifts[w.assignments[id].shiftId].plan.recurrence)
  }

  predicate Live(w: World, id: Id)
    requires id in w.assignments
  {
    w.assignments[id].shiftId in w.shifts && !w.shifts[w.assignments[id].shiftId].deleted
  }

  predicate DisjointPair(w: World, a: Id, b: Id)
    requires a in w.assignments && b in w.assignments && OneOff(w, a) && OneOff(w, b)
  {
    var s, t := w.shifts[w.assignments[a].shiftId].plan, w.shifts[w.assignments[b].shiftId].plan;
    !RangesOverlap(s.startAt, s.endAt, t.startAt, t.endAt)
  }

  /** Active one-off assignments of an officer have pairwise disjoint [start, end) ranges, as far as their shifts are
      not archived. */
  ghost predicate LiveDisjoint(w: World) {
    forall a, b :: OneOffPair(w, a, b) && Live(w, a) && Live(w, b) ==> DisjointPair(w, a, b)
  }

  /** No officer holds two active assignments to one shift. */
  ghost predicate NoDoubleBooking(w: World) {
    forall a, b :: a in w.assignments && b in w.assignments && a != b && Occupies(w.assignments[a].status)
      && Occupies(w.assignments[b].status) && w.assignments[a].officerId == w.assignments[b].officerId
      ==> w.assignments[a].shiftId != w.assignments[b].shiftId
  }

  /** No archived shift has an active assignment. */
  ghost predicate ActiveAreLive(w: World) {
    forall a :: a in w.assignments && Occupies(w.assignments[a].status) ==> Live(w, a)
  }

  ghost predicate Inv(w: World) {
    LiveDisjoint(w) && NoDoubleBooking(w)
  }

  /** v has w's rows with no more occupied ones: what every command but the creations does. */
  ghost predicate Narrows(w: World, v: World) {
    && v.assignments.Keys == w.assignments.Keys && v.shifts.Keys == w.shifts.Keys
    && (forall id <- w.assignments ::
          v.assignments[id].shiftId == w.assignments[id].shiftId
          && v.assignments[id].officerId == w.assignments[id].officerId
          && (Occupies(v.assignments[id].status) ==> Occupies(w.assignments[id].status)))
    && (forall id <- w.shifts ::
          v.shifts[id].plan == w.shifts[id].plan && (w.shifts[id].deleted ==> v.shifts[id].deleted))
  }

  lemma NarrowKeeps(w: World, v: World)
    requires Inv(w) && Narrows(w, v)
    ensures Inv(v)
  {
    forall a, b | OneOffPair(v, a, b) && Live(v, a) && Live(v, b) ensures DisjointPair(v, a, b) {
      assert OneOffPair(w, a, b) && Live(w, a) && Live(w, b);
    }
  }

  lemma OtherCommandsNarrow(w: World, c: Command)
    requires FreshIds(w, c) && Apply(w, c).Done? && !c.Create? && !c.CreateBatch? && !c.Reassign? && !c.UpdateShift?
    ensures Narrows(w, Apply(w, c).world)
  {
    hide Apply, Narrows, FreshIds;
    if c.SetShiftStatus? || c.ArchiveShift? { ShiftCommandsNarrow(w, c); } else { AssignmentCommandsNarrow(w, c); }
  }

  lemma ShiftCommandsNarrow(w: World, c: Command)
    requires FreshIds(w, c) && Apply(w, c).Done? && (c.SetShiftStatus? || c.ArchiveShift?)
    ensures Narrows(w, Apply(w, c).world)
  {
    hide OfficerChecks, BatchChecks, AddAll, AssignableShift, IsRecurring;
  }

  lemma AssignmentCommandsNarrow(w: World, c: Command)
    requires FreshIds(w, c) && Apply(w, c).Done?
    requires (c.Confirm? || c.Cancel? || c.UpdateStatus? || c.ClockIn? || c.ClockOut?)
    ensures Narrows(w, Apply(w, c).world)
  {
    hide OfficerChecks, BatchChecks, AddAll, AssignableShift, IsRecurring, CancelAll;
  }

  ghost predicate Unbooked(w: World, shiftId: Id, officerId: Id) {
    shiftId in w.shifts && !w.shifts[shiftId].deleted && NoDuplicate(w, shiftId, officerId)
    && NoOverlap(w, w.shifts[shiftId].plan, officerId, None)
  }

  lemma AddKeeps(w: World, newId: Id, shiftId: Id, officerId: Id)
    requires Inv(w) && newId !in w.assignments && Unbooked(w, shiftId, officerId)
    ensures Inv(w.(assignments := w.assignments[newId := Assignment(shiftId, officerId, ASSIGNED)]))
  {
    var v := w.(assignments := w.assignments[newId := Assignment(shiftId, officerId, ASSIGNED)]);
    forall a, b | OneOffPair(v, a, b) && Live(v, a) && Live(v, b) ensures DisjointPair(v, a, b) {
      if a != newId && b != newId {
        assert OneOffPair(w, a, b) && Live(w, a) && Live(w, b);
      } else {
        var other := if a == newId then b else a;
        assert Blocks(w, other, officerId, None);
      }
    }
    forall a, b | a in v.assignments && b in v.assignments && a != b && Occupies(v.assignments[a].status)
      && Occupies(v.assignments[b].status) && v.assignments[a].officerId == v.assignments[b].officerId
      ensures v.assignments[a].shiftId != v.assignments[b].shiftId
    {
      if a == newId { assert Holds(w, b, officerId); }
      if b == newId { assert Holds(w, a, officerId); }
    }
  }

  /** Booking one officer does not touch the bookings of another. */
  lemma OthersStayUnbooked(w: World, newId: Id, shiftId: Id, officerId: Id, other: Id)
    requires Unbooked(w, shiftId, other) && newId !in w.assignments && officerId != other
    ensures Unbooked(w.(assignments := w.assignments[newId := Assignment(shiftId, officerId, ASSIGNED)]), shiftId,
                     other)
  {
    hide Conflicts;
    var v := w.(assignments := w.assignments[newId := Assignment(shiftId, officerId, ASSIGNED)]);
    forall id <- v.assignments | Blocks(v, id, other, None)
      ensures !Conflicts(v.shifts[shiftId].plan, v.shifts[v.assignments[id].shiftId].plan)
    {
      assert Blocks(w, id, other, None);
    }
    forall id <- v.assignments | Holds(v, id, other) ensures v.assignments[id].shiftId != shiftId {
      assert Holds(w, id, other);
    }
  }

  lemma {:induction false} AddAllKeeps(w: World, shiftId: Id, officers: seq<Id>, ids: seq<Id>)
    requires Inv(w) && |officers| <= |ids|
    requires forall i :: 0 <= i < |ids| ==> ids[i] !in w.assignments
    requires forall i, j :: 0 <= i < j < |ids| ==> ids[i] != ids[j]
    requires forall i, j :: 0 <= i < j < |officers| ==> officers[i] != officers[j]
    requires forall o <- officers :: Unbooked(w, shiftId, o)
    ensures Inv(w.(assignments := AddAll(w.assignments, shiftId, officers, ids)))
    decreases |officers|
  {
    hide Inv, Unbooked;
    if officers != [] {
      var v := w.(assignments := w.assignments[ids[0] := Assignment(shiftId, officers[0], ASSIGNED)]);
      AddKeeps(w, ids[0], shiftId, officers[0]);
      forall o <- officers[1..] ensures Unbooked(v, shiftId, o) {
        OthersStayUnbooked(w, ids[0], shiftId, officers[0], o);
      }
      AddAllKeeps(v, shiftId, officers[1..], ids[1..]);
    }
  }

  lemma {:induction false} BatchMeansUnbooked(w: World, shiftId: Id, officers: seq<Id>)
    requires shiftId in w.shifts && !w.shifts[shiftId].deleted && BatchChecks(w, shiftId, officers).None?
    ensures forall o <- officers :: Unbooked(w, shiftId, o)
  {
    hide NoOverlap, NoDuplicate;
    if officers != [] { BatchMeansUnbooked(w, shiftId, officers[1..]); }
  }

  /** Taking the old assignment out first, the replacement finds its officer unbooked. */
  lemma ReassignMeansUnbooked(w: World, id: Id, officerId: Id)
    requires id in w.assignments && w.assignments[id].shiftId in w.shifts
    requires !w.shifts[w.assignments[id].shiftId].deleted
    requires OfficerChecks(w, w.assignments[id].shiftId, officerId, Some(id)).None?
    ensures Unbooked(WithStatus(w, id, REASSIGNED), w.assignments[id].shiftId, officerId)
  {
    hide Conflicts;
    var v, shiftId := WithStatus(w, id, REASSIGNED), w.assignments[id].shiftId;
    forall k <- v.assignments | Blocks(v, k, officerId, None)
      ensures !Conflicts(v.shifts[shiftId].plan, v.shifts[v.assignments[k].shiftId].plan)
    {
      assert Blocks(w, k, officerId, Some(id));
    }
    forall k <- v.assignments | Holds(v, k, officerId) ensures v.assignments[k].shiftId != shiftId {
      assert Holds(w, k, officerId);
    }
  }

  /** The update turns a recurring shift into a one-off one and, leaving its times alone, is not checked for conflicts.
      */
  predicate TurnsOneOffUnchecked(w: World, c: Command) {
    c.UpdateShift? && c.shiftId in w.shifts && !MovesTimes(c.change)
    && IsRecurring(w.shifts[c.shiftId].plan.recurrence) && c.change.recurrence == Some(NONE)
  }

  /** The check it skips, against the one-off shifts beside it. */
  ghost predicate ClearOfOneOffs(w: World, shiftId: Id)
    requires shiftId in w.shifts
  {
    var plan := w.shifts[shiftId].plan;
    forall a, b :: Beside(w, shiftId, a, b) && OneOff(w, b) ==>
      var other := w.shifts[w.assignments[b].shiftId].plan;
      !RangesOverlap(other.startAt, other.endAt, plan.startAt, plan.endAt)
  }

  /** The call is no unchecked change to a one-off shift, or the skipped check would have passed. */
  ghost predicate ChangesSafely(w: World, c: Command) {
    TurnsOneOffUnchecked(w, c) ==> ClearOfOneOffs(w, c.shiftId)
  }

  lemma UpdateKeeps(w: World, c: Command)
    requires Inv(w) && c.UpdateShift? && Apply(w, c).Done? && ChangesSafely(w, c)
    ensures Inv(Apply(w, c).world)
  {
    hide NoOverlap, NoDuplicate, IsRecurring;
    var v := Apply(w, c).world;
    forall a, b | OneOffPair(v, a, b) && Live(v, a) && Live(v, b) ensures DisjointPair(v, a, b) {
      assert w.assignments[a].shiftId != w.assignments[b].shiftId;
      if w.assignments[a].shiftId == c.shiftId {
        MovedPair(w, c, a, b);
      } else if w.assignments[b].shiftId == c.shiftId {
        MovedPair(w, c, b, a);
      } else {
        assert OneOffPair(w, a, b) && Live(w, a) && Live(w, b);
      }
    }
  }

  lemma MovedPair(w: World, c: Command, a: Id, b: Id)
    requires LiveDisjoint(w) && c.UpdateShift? && Apply(w, c).Done? && ChangesSafely(w, c)
    requires OneOffPair(Apply(w, c).world, a, b) && Live(Apply(w, c).world, b)
    requires w.assignments[a].shiftId == c.shiftId && w.assignments[b].shiftId != c.shiftId
    ensures DisjointPair(Apply(w, c).world, a, b)
  {
    hide NoOverlap, NoDuplicate;
    assert Beside(w, c.shiftId, a, b);
    if !MovesTimes(c.change) && !TurnsOneOffUnchecked(w, c) {
      assert OneOffPair(w, a, b) && Live(w, a);
    }
  }

  /** An update keeps the active one-off assignments disjoint if and only if it is no unchecked change to a one-off
      shift whose times collide with a one-off shift beside it. */
  lemma UpdateKeepsExactly(w: World, c: Command)
    requires Inv(w) && c.UpdateShift? && Apply(w, c).Done?
    ensures Inv(Apply(w, c).world) <==> ChangesSafely(w, c)
  {
    hide Apply, LiveDisjoint, NoDoubleBooking, ChangesSafely;
    if ChangesSafely(w, c) {
      UpdateKeeps(w, c);
    } else {
      UncheckedBreaks(w, c);
    }
  }

  lemma UncheckedBreaks(w: World, c: Command)
    requires c.UpdateShift? && Apply(w, c).Done? && !ChangesSafely(w, c)
    ensures !LiveDisjoint(Apply(w, c).world)
  {
    hide NoOverlap, NoDuplicate, NoDoubleBooking;
    var v, plan := Apply(w, c).world, w.shifts[c.shiftId].plan;
    var a, b :| Beside(w, c.shiftId, a, b) && OneOff(w, b)
                && var other := w.shifts[w.assignments[b].shiftId].plan;
                   RangesOverlap(other.startAt, other.endAt, plan.startAt, plan.endAt);
    assert OneOffPair(v, a, b) && Live(v, a) && Live(v, b) && !DisjointPair(v, a, b);
  }

  lemma ApplyKeeps(w: World, c: Command)
    requires Inv(w) && FreshIds(w, c) && Apply(w, c).Done? && ChangesSafely(w, c)
    ensures Inv(Apply(w, c).world)
  {
    hide Inv, NoOverlap, NoDuplicate, ShiftUpdated, ChangesSafely;
    match c
    case UpdateShift(_, _) => UpdateKeeps(w, c);
    case Create(shiftId, officerId, newId) => AddKeeps(w, newId, shiftId, officerId);
    case CreateBatch(shiftId, officerIds, newIds) =>
      BatchMeansUnbooked(w, shiftId, Unique(officerIds));
      AddAllKeeps(w, shiftId, Unique(officerIds), newIds);
    case Reassign(id, replacementId, newId) =>
      var v := WithStatus(w, id, REASSIGNED);
      NarrowKeeps(w, v) by { NarrowStatus(w, id); }
      ReassignMeansUnbooked(w, id, replacementId);
      AddKeeps(v, newId, w.assignments[id].shiftId, replacementId);
    case _ =>
      OtherCommandsNarrow(w, c);
      NarrowKeeps(w, Apply(w, c).world);
  }

  lemma NarrowStatus(w: World, id: Id)
    requires id in w.assignments
    ensures Narrows(w, WithStatus(w, id, REASSIGNED))
  {
  }

  /** A run: each command in turn, a rejected one leaving the state as it is. */
  ghost predicate Possible(w: World, run: seq<Command>)
    decreases |run|
  {
    run == [] || (FreshIds(w, run[0]) && Possible(Next(w, run[0]), run[1..]))
  }

  ghost function Next(w: World, c: Command): World
    requires FreshIds(w, c)
  {
    if Apply(w, c).Done? then Apply(w, c).world else w
  }

  ghost function After(w: World, run: seq<Command>): World
    requires Possible(w, run)
    decreases |run|
  {
    if run == [] then w else After(Next(w, run[0]), run[1..])
  }

  /** Every update in the run that changes the state changes it safely. */
  ghost predicate SafeRun(w: World, run: seq<Command>)
    requires Possible(w, run)
    decreases |run|
  {
    run == [] || ((Apply(w, run[0]).Done? ==> ChangesSafely(w, run[0])) && SafeRun(Next(w, run[0]), run[1..]))
  }

  ghost predicate InvThroughout(w: World, run: seq<Command>)
    requires Possible(w, run)
    decreases |run|
  {
    Inv(w) && (run == [] || InvThroughout(Next(w, run[0]), run[1..]))
  }

  /** In a run of creations, batches, reassignments, status changes, clock-ins, clock-outs, shift status changes,
      archivings and shift updates, an officer's active one-off assignments on shifts that are not archived stay
      pairwise disjoint, and no shift is booked twice for one officer, at every point of the run - if and only if every
      update is safe. */
  lemma {:induction false} ScheduleStaysDisjoint(w: World, run: seq<Command>)
    requires Inv(w) && Possible(w, run)
    ensures InvThroughout(w, run) <==> SafeRun(w, run)
    decreases |run|
  {
    hide Inv, Apply, FreshIds, ChangesSafely;
    if run != [] {
      if Apply(w, run[0]).Done? {
        if ChangesSafely(w, run[0]) {
          ApplyKeeps(w, run[0]);
          ScheduleStaysDisjoint(Next(w, run[0]), run[1..]);
        } else {
          OnlyUpdatesAreUnsafe(w, run[0]);
          UpdateKeepsExactly(w, run[0]);
          InvAtStart(Next(w, run[0]), run[1..]);
        }
      } else {
        ScheduleStaysDisjoint(Next(w, run[0]), run[1..]);
      }
    }
  }

  lemma OnlyUpdatesAreUnsafe(w: World, c: Command)
    ensures ChangesSafely(w, c) || c.UpdateShift?
  {
  }

  lemma InvAtStart(w: World, run: seq<Command>)
    requires Possible(w, run)
    ensures InvThroughout(w, run) ==> Inv(w)
  {
  }

  const TO_ONE_OFF := PlanChange(None, None, None, Some(NONE), None, None, None, true)

  /** A daily shift from 22:00 to 06:00 that began the evening before a one-off one from 02:00 to 04:00. */
  ghost predicate NightTimes(s: Shift, p: Shift, offset: int, day: int) {
    && s.recurrence == DAILY && s.recurrenceEndAt.None? && Duration(s) == 8 * HOUR
    && 1000 * TimeOfDay(s) == 22 * HOUR && StartDay(s) == day - 1 && s.startAt == Midnight(offset, day - 1) + 22 * HOUR
    && p.recurrence == NONE && p.recurrenceEndAt.None?
    && p.startAt == Midnight(offset, day) + 2 * HOUR && p.endAt == Midnight(offset, day) + 4 * HOUR
    && InRange(day - 1) && Window(p, p.startAt, WindowEnd(p)) && Checked(s, offset, p.startAt, WindowEnd(p))
  }

  /** An active officer holds the night shift and nothing else. */
  ghost predicate NightWatch(w: World, night: Id, spot: Id, officerId: Id, held: Id) {
    && night in w.shifts && spot in w.shifts && night != spot && officerId in w.activeOfficers
    && w.activeOfficers[officerId]
    && w.assignments == map[held := Assignment(night, officerId, CONFIRMED)]
    && w.shifts[night].status == SCHEDULED && !w.shifts[night].deleted
    && w.shifts[spot].status == SCHEDULED && !w.shifts[spot].deleted && w.shifts[spot].siteActive
  }

  /** Two accepted calls that end in a clash: the one-off shift passes the overlap check because its expansion starts on
      the day after the night shift begins, and making the night shift one-off is not checked at all. */
  lemma UncheckedChangeClashes(w: World, night: Id, spot: Id, officerId: Id, held: Id, newId: Id, offset: int, day: int)
    requires NightWatch(w, night, spot, officerId, held)
    requires NightTimes(w.shifts[night].plan, w.shifts[spot].plan, offset, day)
    requires newId != held
    ensures var run := [Create(spot, officerId, newId), UpdateShift(night, TO_ONE_OFF)];
            Inv(w) && Possible(w, run) && !LiveDisjoint(After(w, run))
  {
    hide NightWatch, NightTimes, Apply, Inv, FreshIds, LiveDisjoint;
    var c, d := Create(spot, officerId, newId), UpdateShift(night, TO_ONE_OFF);
    SpotIsBooked(w, night, spot, officerId, held, newId, offset, day);
    NightBecomesOneOff(w, night, spot, officerId, held, newId, offset, day);
    TwoCommands(w, c, d);
  }

  lemma TwoCommands(w: World, c: Command, d: Command)
    requires FreshIds(w, c) && FreshIds(Next(w, c), d)
    ensures Possible(w, [c, d]) && After(w, [c, d]) == Next(Next(w, c), d)
  {
    hide Next, FreshIds;
    assert [c, d][1..] == [d] && [d][1..] == [];
    var v := Next(w, c);
    assert Possible(Next(v, d), []) && After(Next(v, d), []) == Next(v, d);
    assert Possible(v, [d]) && After(v, [d]) == Next(v, d);
  }

  function Booked(w: World, spot: Id, officerId: Id, newId: Id): World {
    w.(assignments := w.assignments[newId := Assignment(spot, officerId, ASSIGNED)])
  }

  lemma SpotIsBooked(w: World, night: Id, spot: Id, officerId: Id, held: Id, newId: Id, offset: int, day: int)
    requires NightWatch(w, night, spot, officerId, held)
    requires NightTimes(w.shifts[night].plan, w.shifts[spot].plan, offset, day)
    requires newId != held
    ensures Inv(w) && FreshIds(w, Create(spot, officerId, newId))
    ensures Next(w, Create(spot, officerId, newId)) == Booked(w, spot, officerId, newId)
  {
    SpotIsFree(w, night, spot, officerId, held, offset, day);
    hide NoDuplicate, NoOverlap, NightTimes, Inv, Apply, Next, FreshIds, Booked;
    SingleBooking(w, held);
    SpotIsAccepted(w, night, spot, officerId, held, newId);
  }

  lemma SpotIsAccepted(w: World, night: Id, spot: Id, officerId: Id, held: Id, newId: Id)
    requires NightWatch(w, night, spot, officerId, held) && newId != held
    requires NoDuplicate(w, spot, officerId) && NoOverlap(w, w.shifts[spot].plan, officerId, None)
    ensures FreshIds(w, Create(spot, officerId, newId))
    ensures Next(w, Create(spot, officerId, newId)) == Booked(w, spot, officerId, newId)
  {
    hide NoDuplicate, NoOverlap, BatchChecks, ShiftUpdated;
  }

  lemma SingleBooking(w: World, held: Id)
    requires forall id <- w.assignments :: id == held
    ensures Inv(w)
  {
  }

  /** The tables after both calls. */
  function Changed(w: World, night: Id, spot: Id, officerId: Id, newId: Id): World
    requires night in w.shifts
  {
    var row := w.shifts[night];
    Booked(w, spot, officerId, newId).(shifts := w.shifts[night := row.(plan := row.plan.(recurrence := NONE))])
  }

  lemma NightBecomesOneOff(w: World, night: Id, spot: Id, officerId: Id, held: Id, newId: Id, offset: int, day: int)
    requires NightWatch(w, night, spot, officerId, held)
    requires NightTimes(w.shifts[night].plan, w.shifts[spot].plan, offset, day)
    requires newId != held
    ensures var v, d := Booked(w, spot, officerId, newId), UpdateShift(night, TO_ONE_OFF);
            FreshIds(v, d) && !LiveDisjoint(Next(v, d))
  {
    TimesCross(w.shifts[night].plan, w.shifts[spot].plan, offset, day);
    hide NightTimes, LiveDisjoint;
    UpdateIsAccepted(w, night, spot, officerId, held, newId);
    BothOneOff(w, night, spot, officerId, held, newId);
  }

  lemma UpdateIsAccepted(w: World, night: Id, spot: Id, officerId: Id, held: Id, newId: Id)
    requires NightWatch(w, night, spot, officerId, held)
    ensures var v, d := Booked(w, spot, officerId, newId), UpdateShift(night, TO_ONE_OFF);
            FreshIds(v, d) && Next(v, d) == Changed(w, night, spot, officerId, newId)
  {
    hide ClearOnReschedule, Booked;
    var v := Booked(w, spot, officerId, newId);
    assert v.shifts == w.shifts by { BookedShifts(w, spot, officerId, newId); }
    var row := w.shifts[night];
    assert ChangedPlan(row.plan, TO_ONE_OFF) == row.plan.(recurrence := NONE);
  }

  lemma BookedShifts(w: World, spot: Id, officerId: Id, newId: Id)
    ensures Booked(w, spot, officerId, newId).shifts == w.shifts
  {
  }

  lemma BothOneOff(w: World, night: Id, spot: Id, officerId: Id, held: Id, newId: Id)
    requires NightWatch(w, night, spot, officerId, held) && newId != held && w.shifts[spot].plan.recurrence == NONE
    requires var s, p := w.shifts[night].plan, w.shifts[spot].plan;
             RangesOverlap(s.startAt, s.endAt, p.startAt, p.endAt)
    ensures !LiveDisjoint(Changed(w, night, spot, officerId, newId))
  {
    var u := Changed(w, night, spot, officerId, newId);
    assert u.assignments[held] == Assignment(night, officerId, CONFIRMED);
    assert u.assignments[newId] == Assignment(spot, officerId, ASSIGNED);
    assert OneOffPair(u, newId, held) && Live(u, held) && Live(u, newId) && !DisjointPair(u, newId, held);
  }

  lemma SpotIsFree(w: World, night: Id, spot: Id, officerId: Id, held: Id, offset: int, day: int)
    requires NightWatch(w, night, spot, officerId, held)
    requires NightTimes(w.shifts[night].plan, w.shifts[spot].plan, offset, day)
    ensures NoDuplicate(w, spot, officerId) && NoOverlap(w, w.shifts[spot].plan, officerId, None)
  {
    var s, p := w.shifts[night].plan, w.shifts[spot].plan;
    hide NightTimes, Conflicts, OverlapFound, Holds;
    SpotPasses(s, p, offset, day);
    forall id | id in w.assignments ensures w.assignments[id].shiftId == night {
      assert w.assignments == map[held := Assignment(night, officerId, CONFIRMED)];
    }
    hide NightWatch;
  }

  lemma SpotPasses(s: Shift, p: Shift, offset: int, day: int)
    requires NightTimes(s, p, offset, day)
    ensures !Conflicts(p, s) && p.recurrence == NONE && s.recurrence == DAILY
  {
    hide Window, Checked, TimeOfDay, OverlapFound;
    assert IsOneOff(p) by { hide Midnight; }
    NightShiftEscapes(p, s, offset, WindowEnd(p), day);
  }

  lemma TimesCross(s: Shift, p: Shift, offset: int, day: int)
    requires NightTimes(s, p, offset, day)
    ensures RangesOverlap(s.startAt, s.endAt, p.startAt, p.endAt) && p.recurrence == NONE && s.recurrence == DAILY
  {
    hide Window, Checked, TimeOfDay, StartDay;
  }

  // ---- Archived shifts ----------------------------------------------------------------------------------------------

  /** The call archives no shift that still has an active assignment. */
  ghost predicate ArchivesOnlyIdle(w: World, c: Command) {
    (c.ArchiveShift? && c.shiftId in w.shifts && w.shifts[c.shiftId].status != ARCHIVED)
    || (c.SetShiftStatus? && c.shiftStatus == ARCHIVED) ==>
      forall id <- w.assignments :: w.assignments[id].shiftId == c.shiftId ==> !Occupies(w.assignments[id].status)
  }

  ghost predicate ArchivesOnlyIdleShifts(w: World, run: seq<Command>)
    requires Possible(w, run)
    decreases |run|
  {
    run == [] || (ArchivesOnlyIdle(w, run[0]) && ArchivesOnlyIdleShifts(Next(w, run[0]), run[1..]))
  }

  /** A call keeps active assignments on live shifts exactly when it is not the archiving of a shift in use. */
  lemma ArchivingInUseExactly(w: World, c: Command)
    requires ActiveAreLive(w) && FreshIds(w, c) && Apply(w, c).Done?
    ensures ActiveAreLive(Apply(w, c).world) <==> ArchivesOnlyIdle(w, c)
  {
    hide Apply, ActiveAreLive, ArchivesOnlyIdle;
    if ArchivesOnlyIdle(w, c) {
      IdleKeepsLive(w, c);
    } else {
      InUseBreaksLive(w, c);
    }
  }

  lemma InUseBreaksLive(w: World, c: Command)
    requires FreshIds(w, c) && Apply(w, c).Done? && !ArchivesOnlyIdle(w, c)
    ensures !ActiveAreLive(Apply(w, c).world)
  {
    hide NoOverlap, NoDuplicate;
    var id :| id in w.assignments && w.assignments[id].shiftId == c.shiftId && Occupies(w.assignments[id].status);
    assert !Live(Apply(w, c).world, id);
  }

  lemma IdleKeepsLive(w: World, c: Command)
    requires ActiveAreLive(w) && FreshIds(w, c) && Apply(w, c).Done? && ArchivesOnlyIdle(w, c)
    ensures ActiveAreLive(Apply(w, c).world)
  {
    hide NoOverlap, NoDuplicate, OfficerChecks, BatchChecks, ClearOnReschedule;
    if c.CreateBatch? {
      hide ActiveAreLive;
      AddAllLive(w, c.shiftId, Unique(c.officerIds), c.newIds);
    }
  }

  lemma {:induction false} AddAllLive(w: World, shiftId: Id, officers: seq<Id>, ids: seq<Id>)
    requires ActiveAreLive(w) && shiftId in w.shifts && !w.shifts[shiftId].deleted && |officers| <= |ids|
    ensures ActiveAreLive(w.(assignments := AddAll(w.assignments, shiftId, officers, ids)))
    decreases |officers|
  {
    if officers != [] {
      var v := w.(assignments := w.assignments[ids[0] := Assignment(shiftId, officers[0], ASSIGNED)]);
      assert forall a :: a in v.assignments && Occupies(v.assignments[a].status) ==> a == ids[0] || Live(w, a);
      AddAllLive(v, shiftId, officers[1..], ids[1..]);
    }
  }

  /** Where no shift is archived while in use, the ranges of all active one-off assignments are disjoint. */
  lemma {:induction false} ScheduleFullyDisjoint(w: World, run: seq<Command>)
    requires Inv(w) && ActiveAreLive(w) && Possible(w, run) && ArchivesOnlyIdleShifts(w, run) && SafeRun(w, run)
    ensures ActiveAreLive(After(w, run))
    ensures forall a, b :: OneOffPair(After(w, run), a, b) ==> DisjointPair(After(w, run), a, b)
    decreases |run|
  {
    hide Apply, FreshIds, LiveDisjoint, NoDoubleBooking, ActiveAreLive, ChangesSafely;
    if run != [] {
      if Apply(w, run[0]).Done? {
        ApplyKeeps(w, run[0]);
        ArchivingInUseExactly(w, run[0]);
      }
      ScheduleFullyDisjoint(Next(w, run[0]), run[1..]);
    } else {
      AllDisjoint(w);
    }
  }

  lemma AllDisjoint(w: World)
    requires LiveDisjoint(w) && ActiveAreLive(w)
    ensures forall a, b :: OneOffPair(w, a, b) ==> DisjointPair(w, a, b)
  {
  }

  // ---- What each call writes ---------------------------------------------------------------------------------------

  /** The officer is on duty for the shift by this row. */
  predicate OnDuty(w: World, shiftId: Id, officerId: Id, id: Id) {
    id in w.assignments && w.assignments[id].shiftId == shiftId && w.assignments[id].officerId == officerId
    && Occupies(w.assignments[id].status)
  }

  /** The tables differ in these rows of the assignments at most. */
  ghost predicate OnlyRows(w: World, v: World, ids: set<Id>) {
    && v.shifts == w.shifts && v.activeOfficers == w.activeOfficers
    && forall k :: k !in ids ==>
         (k in v.assignments <==> k in w.assignments)
         && (k in w.assignments ==> v.assignments[k] == w.assignments[k])
  }

  /** The shift is there, open for bookings, and its site active. */
  predicate OpenShift(w: World, shiftId: Id, started: bool) {
    && shiftId in w.shifts && !w.shifts[shiftId].deleted && w.shifts[shiftId].siteActive
    && (w.shifts[shiftId].status == DRAFT || w.shifts[shiftId].status == SCHEDULED
        || (started && w.shifts[shiftId].status == STARTED))
  }

  /** The officer is on duty for a shift that is not deleted, by a row other than the ignored one. */
  predicate OnDutyBeside(w: World, shiftId: Id, officerId: Id, id: Id, ignore: Option<Id>) {
    OnDuty(w, shiftId, officerId, id) && Some(id) != ignore && shiftId in w.shifts && !w.shifts[shiftId].deleted
  }

  /** The officer can be booked for the shift: active, not yet on duty for it, and without a conflict. */
  ghost predicate Bookable(w: World, shiftId: Id, officerId: Id, ignore: Option<Id>)
    requires shiftId in w.shifts
  {
    && officerId in w.activeOfficers && w.activeOfficers[officerId]
    && (forall k :: !OnDuty(w, shiftId, officerId, k))
    && (forall k, other :: OnDutyBeside(w, other, officerId, k, ignore) ==>
          !Conflicts(w.shifts[shiftId].plan, w.shifts[other].plan))
  }

  lemma OpenExactly(w: World, shiftId: Id, started: bool)
    ensures AssignableShift(w, shiftId, started).None? <==> OpenShift(w, shiftId, started)
  {
  }

  lemma BookableExactly(w: World, shiftId: Id, officerId: Id, ignore: Option<Id>)
    requires shiftId in w.shifts
    ensures OfficerChecks(w, shiftId, officerId, ignore).None? <==> Bookable(w, shiftId, officerId, ignore)
  {
    hide Conflicts;
    if NoDuplicate(w, shiftId, officerId) {
      assert forall k :: OnDuty(w, shiftId, officerId, k) ==> Holds(w, k, officerId);
    }
    if forall k :: !OnDuty(w, shiftId, officerId, k) {
      forall id <- w.assignments | Holds(w, id, officerId) ensures w.assignments[id].shiftId != shiftId {
        assert !OnDuty(w, shiftId, officerId, id);
      }
    }
    ConflictFreeExactly(w, w.shifts[shiftId].plan, officerId, ignore);
  }

  lemma ConflictFreeExactly(w: World, plan: Shift, officerId: Id, ignore: Option<Id>)
    ensures NoOverlap(w, plan, officerId, ignore)
       <==> forall k, other :: OnDutyBeside(w, other, officerId, k, ignore) ==> !Conflicts(plan, w.shifts[other].plan)
  {
    hide Conflicts;
    if NoOverlap(w, plan, officerId, ignore) {
      forall k, other | OnDutyBeside(w, other, officerId, k, ignore) ensures !Conflicts(plan, w.shifts[other].plan) {
        assert Blocks(w, k, officerId, ignore);
      }
    } else {
      var id :| id in w.assignments && Blocks(w, id, officerId, ignore)
                && Conflicts(plan, w.shifts[w.assignments[id].shiftId].plan);
      assert OnDutyBeside(w, w.assignments[id].shiftId, officerId, id, ignore);
    }
  }

  /** A creation is accepted exactly for a bookable officer, who is then on duty for the shift by the new row alone;
      nothing else changes. */
  lemma CreateBooks(w: World, shiftId: Id, officerId: Id, newId: Id)
    requires newId !in w.assignments
    ensures var r := Apply(w, Create(shiftId, officerId, newId));
            && (r.Done? <==> OpenShift(w, shiftId, false) && Bookable(w, shiftId, officerId, None))
            && (r.Done? ==>
                  && OnlyRows(w, r.world, {newId}) && newId in r.world.assignments
                  && r.world.assignments[newId].status == ASSIGNED
                  && forall k :: OnDuty(r.world, shiftId, officerId, k) <==> k == newId)
  {
    hide AssignableShift, OfficerChecks, Bookable, Conflicts;
    OpenExactly(w, shiftId, false);
    if OpenShift(w, shiftId, false) {
      BookableExactly(w, shiftId, officerId, None);
      var r := Apply(w, Create(shiftId, officerId, newId));
      if r.Done? { NewRowBooks(w, r.world, shiftId, officerId, newId, None); }
    }
  }

  lemma NewRowBooks(w: World, v: World, shiftId: Id, officerId: Id, newId: Id, ignore: Option<Id>)
    requires shiftId in w.shifts && Bookable(w, shiftId, officerId, ignore)
    requires newId in v.assignments && v.assignments[newId] == Assignment(shiftId, officerId, ASSIGNED)
    requires forall k :: k != newId && k in v.assignments ==>
               k in w.assignments && v.assignments[k].shiftId == w.assignments[k].shiftId
               && v.assignments[k].officerId == w.assignments[k].officerId
               && (Occupies(v.assignments[k].status) ==> Occupies(w.assignments[k].status))
    ensures forall k :: OnDuty(v, shiftId, officerId, k) <==> k == newId
  {
    hide Conflicts;
    forall k | k != newId ensures !OnDuty(v, shiftId, officerId, k) {
      assert !OnDuty(w, shiftId, officerId, k);
    }
  }

  /** A reassignment is accepted exactly while the old assignment has not begun and the replacement is bookable beside
      it. Then the replacement is on duty for the shift by the new row alone, the replaced officer, who is another, is
      not any more, the old row says so, and nothing else changes. */
  lemma ReassignHandsOver(w: World, id: Id, replacementId: Id, newId: Id)
    requires newId !in w.assignments && NoDoubleBooking(w)
    ensures var r := Apply(w, Reassign(id, replacementId, newId));
            && (r.Done? <==>
                  && id in w.assignments
                  && (w.assignments[id].status == ASSIGNED || w.assignments[id].status == CONFIRMED)
                  && OpenShift(w, w.assignments[id].shiftId, true)
                  && Bookable(w, w.assignments[id].shiftId, replacementId, Some(id)))
            && (r.Done? ==>
                  var shiftId, replacedId := w.assignments[id].shiftId, w.assignments[id].officerId;
                  && OnlyRows(w, r.world, {id, newId}) && id in r.world.assignments && newId in r.world.assignments
                  && r.world.assignments[id] == Assignment(shiftId, replacedId, REASSIGNED)
                  && r.world.assignments[newId].status == ASSIGNED
                  && (forall k :: OnDuty(r.world, shiftId, replacementId, k) <==> k == newId)
                  && replacementId != replacedId && forall k :: !OnDuty(r.world, shiftId, replacedId, k))
  {
    hide AssignableShift, OfficerChecks, Conflicts, Bookable, NoDoubleBooking;
    if id in w.assignments {
      var shiftId := w.assignments[id].shiftId;
      OpenExactly(w, shiftId, true);
      if OpenShift(w, shiftId, true) {
        BookableExactly(w, shiftId, replacementId, Some(id));
        var r := Apply(w, Reassign(id, replacementId, newId));
        if r.Done? {
          NewRowBooks(w, r.world, shiftId, replacementId, newId, Some(id));
          ReplacedLeaves(w, r.world, id, newId, replacementId);
        }
      }
    }
  }

  lemma ReplacedLeaves(w: World, v: World, id: Id, newId: Id, replacementId: Id)
    requires NoDoubleBooking(w) && id in w.assignments && Occupies(w.assignments[id].status)
    requires newId !in w.assignments && w.assignments[id].shiftId in w.shifts
    requires Bookable(w, w.assignments[id].shiftId, replacementId, Some(id))
    requires var a := w.assignments[id];
             v.assignments == w.assignments[id := a.(status := REASSIGNED)]
                                           [newId := Assignment(a.shiftId, replacementId, ASSIGNED)]
    ensures var a := w.assignments[id];
            replacementId != a.officerId && forall k :: !OnDuty(v, a.shiftId, a.officerId, k)
  {
    hide Conflicts;
    var a := w.assignments[id];
    assert OnDuty(w, a.shiftId, a.officerId, id);
    forall k ensures !OnDuty(v, a.shiftId, a.officerId, k) {
      assert k != id && k != newId && k in w.assignments ==>
          !(w.assignments[k].shiftId == a.shiftId && w.assignments[k].officerId == a.officerId
            && Occupies(w.assignments[k].status));
    }
  }

  /** A batch is accepted exactly for an open shift and officers who are all bookable. Then each of them is on duty for
      the shift by one new row, and there are no other new rows and no other changes. */
  lemma BatchBooks(w: World, shiftId: Id, officerIds: seq<Id>, newIds: seq<Id>)
    requires FreshIds(w, CreateBatch(shiftId, officerIds, newIds))
    ensures var r := Apply(w, CreateBatch(shiftId, officerIds, newIds));
            && (r.Done? <==> OpenShift(w, shiftId, false) && forall o <- officerIds :: Bookable(w, shiftId, o, None))
            && (r.Done? ==>
                  && OnlyRows(w, r.world, set k <- newIds)
                  && (forall k :: k in r.world.assignments && k !in w.assignments ==>
                        r.world.assignments[k].shiftId == shiftId && r.world.assignments[k].officerId in officerIds
                        && r.world.assignments[k].status == ASSIGNED)
                  && forall o <- officerIds :: OnDutyOnce(r.world, shiftId, o))
  {
    hide AssignableShift, OfficerChecks, Bookable, Conflicts, Unique, AddAll, OnDutyOnce;
    OpenExactly(w, shiftId, false);
    if OpenShift(w, shiftId, false) {
      var officers := Unique(officerIds);
      BatchExactly(w, shiftId, officers);
      AddAllWrites(w.assignments, shiftId, officers, newIds);
      var r := Apply(w, CreateBatch(shiftId, officerIds, newIds));
      if r.Done? {
        forall o | o in officerIds ensures OnDutyOnce(r.world, shiftId, o) {
          BatchBooksOnce(w, r.world, shiftId, officers, newIds, o);
        }
      }
    }
  }

  /** One row has the officer on duty for the shift. */
  ghost predicate OnDutyOnce(w: World, shiftId: Id, officerId: Id) {
    exists k :: OnDuty(w, shiftId, officerId, k) && forall j :: OnDuty(w, shiftId, officerId, j) ==> j == k
  }

  lemma {:induction false} BatchExactly(w: World, shiftId: Id, officers: seq<Id>)
    requires shiftId in w.shifts
    ensures BatchChecks(w, shiftId, officers).None? <==> forall o <- officers :: Bookable(w, shiftId, o, None)
  {
    hide OfficerChecks, Bookable;
    if officers != [] {
      BookableExactly(w, shiftId, officers[0], None);
      BatchExactly(w, shiftId, officers[1..]);
      assert officers == [officers[0]] + officers[1..];
    }
  }

  lemma {:induction false} AddAllWrites(rows: map<Id, Assignment>, shiftId: Id, officers: seq<Id>, ids: seq<Id>)
    requires |officers| <= |ids| && forall i, j :: 0 <= i < j < |ids| ==> ids[i] != ids[j]
    ensures var r := AddAll(rows, shiftId, officers, ids);
            && (forall i :: 0 <= i < |officers| ==>
                  ids[i] in r && r[ids[i]] == Assignment(shiftId, officers[i], ASSIGNED))
            && (forall k :: k !in ids[..|officers|] ==> (k in r <==> k in rows) && (k in rows ==> r[k] == rows[k]))
    decreases |officers|
  {
    if officers != [] {
      var v := rows[ids[0] := Assignment(shiftId, officers[0], ASSIGNED)];
      AddAllWrites(v, shiftId, officers[1..], ids[1..]);
      var r := AddAll(rows, shiftId, officers, ids);
      assert ids[..|officers|] == [ids[0]] + ids[1..][..|officers[1..]|];
      forall i | 0 < i < |officers| ensures ids[i] in r && r[ids[i]] == Assignment(shiftId, officers[i], ASSIGNED) {
        assert ids[i] == ids[1..][i - 1] && officers[i] == officers[1..][i - 1];
      }
    }
  }

  lemma BatchBooksOnce(w: World, v: World, shiftId: Id, officers: seq<Id>, ids: seq<Id>, officerId: Id)
    requires shiftId in w.shifts && Bookable(w, shiftId, officerId, None) && officerId in officers
    requires |officers| <= |ids| && forall i, j :: 0 <= i < j < |officers| ==> officers[i] != officers[j]
    requires forall i :: 0 <= i < |officers| ==>
               ids[i] in v.assignments && v.assignments[ids[i]] == Assignment(shiftId, officers[i], ASSIGNED)
    requires forall k :: k !in ids[..|officers|] ==>
               (k in v.assignments <==> k in w.assignments)
               && (k in w.assignments ==> v.assignments[k] == w.assignments[k])
    ensures OnDutyOnce(v, shiftId, officerId)
  {
    hide Conflicts;
    var i :| 0 <= i < |officers| && officers[i] == officerId;
    assert OnDuty(v, shiftId, officerId, ids[i]);
    forall k | OnDuty(v, shiftId, officerId, k) ensures k == ids[i] {
      assert !OnDuty(w, shiftId, officerId, k);
      assert k in ids[..|officers|];
      var j :| 0 <= j < |officers| && ids[j] == k;
      assert officers[j] == officerId;
    }
  }

  /** A refused booking names a true reason. */
  lemma BookingRefusals(w: World, c: Command, shiftId: Id, officers: set<Id>)
    requires FreshIds(w, c) && Apply(w, c).Rejected?
    requires (c.Create? && c.shiftId == shiftId && officers == {c.officerId})
             || (c.CreateBatch? && c.shiftId == shiftId && officers == set o <- c.officerIds)
             || (c.Reassign? && c.id in w.assignments && w.assignments[c.id].shiftId == shiftId
                 && officers == {c.replacementId})
    ensures var ignore, there := if c.Reassign? then Some(c.id) else None, shiftId in w.shifts;
            match Apply(w, c).error
            case TransitionInvalid =>
              c.Reassign? && w.assignments[c.id].status != ASSIGNED && w.assignments[c.id].status != CONFIRMED
            case ShiftNotFound => !there || w.shifts[shiftId].deleted
            case ShiftInvalid =>
              there && w.shifts[shiftId].status != DRAFT && w.shifts[shiftId].status != SCHEDULED
              && (c.Reassign? ==> w.shifts[shiftId].status != STARTED)
            case SiteInactive => there && !w.shifts[shiftId].siteActive
            case OfficerNotFound => exists o <- officers :: o !in w.activeOfficers
            case OfficerInactive => exists o <- officers :: o in w.activeOfficers && !w.activeOfficers[o]
            case Duplicate => exists o <- officers, k :: OnDuty(w, shiftId, o, k)
            case TimeConflict =>
              there && exists o <- officers, k, other ::
                OnDutyBeside(w, other, o, k, ignore) && Conflicts(w.shifts[shiftId].plan, w.shifts[other].plan)
            case _ => false
  {
    hide OfficerChecks, BatchChecks, Conflicts, ShiftUpdated;
    var e := Apply(w, c).error;
    if shiftId in w.shifts {
      if c.CreateBatch? {
        if BatchChecks(w, shiftId, Unique(c.officerIds)).Some? {
          var o := BatchRefuser(w, shiftId, Unique(c.officerIds));
          OfficerRefusal(w, shiftId, o, None);
        }
      } else {
        var o := if c.Create? then c.officerId else c.replacementId;
        OfficerRefusal(w, shiftId, o, if c.Reassign? then Some(c.id) else None);
      }
    }
  }

  lemma OfficerRefusal(w: World, shiftId: Id, officerId: Id, ignore: Option<Id>)
    requires shiftId in w.shifts
    ensures match OfficerChecks(w, shiftId, officerId, ignore)
            case None => true
            case Some(OfficerNotFound) => officerId !in w.activeOfficers
            case Some(OfficerInactive) => officerId in w.activeOfficers && !w.activeOfficers[officerId]
            case Some(Duplicate) => exists k :: OnDuty(w, shiftId, officerId, k)
            case Some(TimeConflict) =>
              exists k, other ::
                OnDutyBeside(w, other, officerId, k, ignore) && Conflicts(w.shifts[shiftId].plan, w.shifts[other].plan)
            case Some(_) => false
  {
    hide Conflicts, NoOverlap;
    ConflictFreeExactly(w, w.shifts[shiftId].plan, officerId, ignore);
    if id :| id in w.assignments && Holds(w, id, officerId) && w.assignments[id].shiftId == shiftId {
      assert OnDuty(w, shiftId, officerId, id);
    }
  }

  lemma {:induction false} BatchRefuser(w: World, shiftId: Id, officers: seq<Id>) returns (o: Id)
    requires shiftId in w.shifts && BatchChecks(w, shiftId, officers).Some?
    ensures o in officers && OfficerChecks(w, shiftId, o, None) == BatchChecks(w, shiftId, officers)
  {
    hide OfficerChecks;
    if OfficerChecks(w, shiftId, officers[0], None).Some? {
      o := officers[0];
    } else {
      o := BatchRefuser(w, shiftId, officers[1..]);
    }
  }

  /** How a call moves the status of its assignment: the table of all accepted moves. */
  predicate Moves(recurring: bool, c: Command, from: AssignmentStatus, to: AssignmentStatus) {
    match c
    case Confirm(_) => from == ASSIGNED && to == CONFIRMED
    case Cancel(_) =>
      ((from == ASSIGNED || from == CONFIRMED) && to == CANCELLED)
      || (from == to && (from == CANCELLED || from == REASSIGNED || from == MISSED))
    case UpdateStatus(_, s) =>
      to == s && ((from == ASSIGNED && (to == CONFIRMED || to == CANCELLED || to == REASSIGNED || to == MISSED))
                  || (from == CONFIRMED && (to == IN_PROGRESS || to == CANCELLED || to == REASSIGNED || to == MISSED))
                  || (from == IN_PROGRESS && to == COMPLETED))
    case ClockIn(_) =>
      ((from == ASSIGNED || from == CONFIRMED || from == IN_PROGRESS) && to == IN_PROGRESS)
      || (recurring && from == COMPLETED && to == COMPLETED)
    case ClockOut(_) =>
      (from == IN_PROGRESS && to == if recurring then CONFIRMED else COMPLETED) || (from != IN_PROGRESS && to == from)
    case _ => false
  }

  /** A call about one assignment is accepted exactly when the table has a move for its status, and then writes that
      move and nothing else - except that the first clock-in to a scheduled one-off shift starts the shift. */
  lemma CallsMoveExactly(w: World, c: Command, id: Id)
    requires c == Confirm(id) || c == Cancel(id) || (c.UpdateStatus? && c.id == id)
             || c == ClockIn(id) || c == ClockOut(id)
    requires id in w.assignments ==> w.assignments[id].shiftId in w.shifts
    ensures var r := Apply(w, c);
            if id !in w.assignments then r.Rejected? else
            var a, s := w.assignments[id], w.shifts[w.assignments[id].shiftId];
            && (r.Done? <==> exists to :: Moves(IsRecurring(s.plan.recurrence), c, a.status, to))
            && (r.Done? ==>
                  var v := r.world;
                  && OnlyRows(w.(shifts := v.shifts), v, {id}) && id in v.assignments
                  && v.assignments[id].shiftId == a.shiftId && v.assignments[id].officerId == a.officerId
                  && Moves(IsRecurring(s.plan.recurrence), c, a.status, v.assignments[id].status)
                  && v.shifts == if c.ClockIn? && s.status == SCHEDULED && s.plan.recurrence == NONE
                                 then w.shifts[a.shiftId := s.(status := STARTED)] else w.shifts)
  {
    hide AssignableShift, OfficerChecks, BatchChecks, AddAll, CancelAll, ShiftUpdated;
    if id in w.assignments && Apply(w, c).Done? {
      var a, s := w.assignments[id], w.shifts[w.assignments[id].shiftId];
      assert Moves(IsRecurring(s.plan.recurrence), c, a.status, Apply(w, c).world.assignments[id].status);
    }
  }

  /** The moves between the statuses of a shift that its own calls may make. */
  predicate ShiftMoves(from: ShiftStatus, to: ShiftStatus) {
    (from == DRAFT && (to == SCHEDULED || to == CALLED_OFF))
    || (from == SCHEDULED && (to == STARTED || to == CALLED_OFF))
    || (from == STARTED && (to == FINISHED || to == CALLED_OFF))
    || ((from == FINISHED || from == CALLED_OFF) && to == ARCHIVED)
  }

  /** A change of a shift's status is accepted exactly along its table, and archiving also on an archived shift. The
      shift is deleted exactly by archiving; cancelling it cancels its active assignments; nothing else changes. */
  lemma ShiftCallsExactly(w: World, c: Command, shiftId: Id)
    requires (c.SetShiftStatus? && c.shiftId == shiftId) || c == ArchiveShift(shiftId)
    ensures var r := Apply(w, c);
            if shiftId !in w.shifts || w.shifts[shiftId].deleted then r.Rejected? else
            var row, to := w.shifts[shiftId], if c.ArchiveShift? then ARCHIVED else c.shiftStatus;
            && (r.Done? <==> ShiftMoves(row.status, to) || (c.ArchiveShift? && row.status == ARCHIVED))
            && (r.Done? ==>
                  var v := r.world;
                  && v.activeOfficers == w.activeOfficers
                  && v.shifts == (if row.status == ARCHIVED then w.shifts
                                  else w.shifts[shiftId := ShiftRow(row.plan, to, row.siteActive, to == ARCHIVED)])
                  && (to != CALLED_OFF ==> v.assignments == w.assignments)
                  && (to == CALLED_OFF ==> OffDutyFor(w, v, shiftId)))
  {
    hide AssignableShift, OfficerChecks, BatchChecks, AddAll, ShiftUpdated;
  }

  /** The active assignments of the shift are cancelled, and no other row changes. */
  ghost predicate OffDutyFor(w: World, v: World, shiftId: Id) {
    forall k ::
      && (k in v.assignments <==> k in w.assignments)
      && (k in w.assignments ==>
            v.assignments[k] == if w.assignments[k].shiftId == shiftId && Occupies(w.assignments[k].status)
                                then Assignment(shiftId, w.assignments[k].officerId, CANCELLED) else w.assignments[k])
  }

  /** An update is accepted exactly for a shift that is neither deleted, finished, cancelled nor archived, nor begun
      and moved, to an active site, with valid fields and, when times are given, an end after its start and no active
      assignment of its officers in the way. It writes the given fields and keeps the others; an end date stays only on
      a series, and weekdays only on one that is not daily. */
  lemma UpdateWrites(w: World, shiftId: Id, d: PlanChange)
    ensures var r := Apply(w, UpdateShift(shiftId, d));
            if shiftId !in w.shifts || w.shifts[shiftId].deleted then r.Rejected? else
            var row := w.shifts[shiftId];
            var startAt := if d.startAt.Some? then d.startAt.value else row.plan.startAt;
            var endAt := if d.endAt.Some? then d.endAt.value else row.plan.endAt;
            var moved := d.startAt.Some? || d.endAt.Some?;
            && (r.Done? <==>
                  && (row.status == DRAFT || row.status == SCHEDULED
                      || (row.status == STARTED && !moved && d.site.None?))
                  && d.site != Some(false) && d.valid
                  && (moved ==> startAt < endAt && ClearOnReschedule(w, shiftId, startAt, endAt)))
            && (r.Done? ==>
                  var v := r.world;
                  && v.assignments == w.assignments && v.activeOfficers == w.activeOfficers && shiftId in v.shifts
                  && v.shifts == w.shifts[shiftId := v.shifts[shiftId]]
                  && var p := v.shifts[shiftId].plan;
                     && v.shifts[shiftId]
                        == ShiftRow(p, row.status, row.siteActive || (d.site.Some? && d.site.value), row.deleted)
                     && p.startAt == startAt && p.endAt == endAt
                     && p.recurrence == (if d.recurrence.Some? then d.recurrence.value else row.plan.recurrence)
                     && (d.zone.None? ==> p.zone == row.plan.zone) && (d.zone.Some? ==> p.zone == d.zone.value)
                     && (d.recurrenceEndAt.None? ==> p.recurrenceEndAt == row.plan.recurrenceEndAt)
                     && (d.recurrenceEndAt.Some? && p.recurrence != NONE ==>
                           p.recurrenceEndAt == d.recurrenceEndAt.value)
                     && (d.recurrenceEndAt.Some? && p.recurrence == NONE ==> p.recurrenceEndAt == None)
                     && (d.daysOfWeek.None? ==> p.daysOfWeek == row.plan.daysOfWeek)
                     && (d.daysOfWeek.Some? && p.recurrence != DAILY ==> p.daysOfWeek == d.daysOfWeek.value)
                     && (d.daysOfWeek.Some? && p.recurrence == DAILY ==> p.daysOfWeek == []))
  {
    hide ClearOnReschedule;
  }

  /** An assignment keeps its shift and its officer, and once it is completed, cancelled, reassigned or missed it stays
      as it is. */
  ghost predicate Outlives(w: World, v: World) {
    forall k :: k in w.assignments ==>
      && k in v.assignments && v.assignments[k].shiftId == w.assignments[k].shiftId
      && v.assignments[k].officerId == w.assignments[k].officerId
      && (!Occupies(w.assignments[k].status) ==> v.assignments[k] == w.assignments[k])
  }

  /** This holds over every run. */
  lemma {:induction false} ClosedAssignmentsStay(w: World, run: seq<Command>)
    requires Possible(w, run)
    ensures Outlives(w, After(w, run))
    decreases |run|
  {
    hide Apply, FreshIds, Outlives;
    if run != [] {
      if Apply(w, run[0]).Done? { CallKeepsClosed(w, run[0]); } else { OutlivesItself(w); }
      ClosedAssignmentsStay(Next(w, run[0]), run[1..]);
      OutlivesOn(w, Next(w, run[0]), After(w, run));
    } else {
      OutlivesItself(w);
    }
  }

  lemma OutlivesItself(w: World)
    ensures Outlives(w, w)
  {
  }

  lemma OutlivesOn(w: World, v: World, u: World)
    requires Outlives(w, v) && Outlives(v, u)
    ensures Outlives(w, u)
  {
  }

  lemma CallKeepsClosed(w: World, c: Command)
    requires FreshIds(w, c) && Apply(w, c).Done?
    ensures Outlives(w, Apply(w, c).world)
  {
    hide AssignableShift, OfficerChecks, BatchChecks, AddAll;
    if c.CreateBatch? { AddAllWrites(w.assignments, c.shiftId, Unique(c.officerIds), c.newIds); }
  }

  /** For two one-off shifts a conflict is a shared instant. */
  lemma OneOffConflictExactly(p: Shift, o: Shift)
    requires p.recurrence == NONE && o.recurrence == NONE && p.startAt < p.endAt && o.startAt < o.endAt
    ensures Conflicts(p, o) <==> exists t :: During(t, p.startAt, p.endAt) && During(t, o.startAt, o.endAt)
  {
    OverlapMeansSharedInstant(o.startAt, o.endAt, p.startAt, p.endAt);
  }

  /** An endless daily proposal conflicts with its own copy that begins some days later if and only if that is within
      the first 62 dates: the window is 62 days long and the list has 62 places. */
  lemma LaterCopyConflictsExactly(p: Shift, offset: int, days: nat)
    requires Checked(p, offset, p.startAt, WindowEnd(p)) && Checked(LaterCopy(p, days), offset, p.startAt, WindowEnd(p))
    requires p.recurrence == DAILY && p.recurrenceEndAt.None? && 1000 <= Duration(p) <= MS_PER_DAY
    ensures Conflicts(p, LaterCopy(p, days)) <==> days < 62
  {
    hide Checked, OverlapFound, LaterCopy, On;
    assert IsRecurring(p.recurrence);
    LaterCopyCaughtExactly(p, offset, p.startAt, WindowEnd(p), days);
    assert FixedStart(p, offset, StartDay(p) + days) <= p.startAt + days * MS_PER_DAY by {
      assert Fixed(p.zone, offset) by { CheckedIsFixed(p, offset, p.startAt, WindowEnd(p)); }
      StartTruncates(p, offset);
    }
  }

  lemma CheckedIsFixed(s: Shift, offset: int, from: int, to: int)
    requires Checked(s, offset, from, to)
    ensures Fixed(s.zone, offset)
  {
  }

  // ---- The service --------------------------------------------------------------------------------------------------

  /** Every expansion that an overlap check may ask for returns. */
  ghost predicate Plannable(shifts: map<Id, ShiftRow>) {
    forall p <- shifts, o <- shifts ::
      Expandable(shifts[p].plan, shifts[p].plan) && Expandable(shifts[o].plan, shifts[p].plan)
  }

  ghost predicate Expandable(s: Shift, proposed: Shift) {
    Returns(s, proposed.startAt, WindowEnd(proposed), LIST_LIMIT)
  }

  class AssignmentsService {
    var shifts: map<Id, ShiftRow>
    var activeOfficers: map<Id, bool>
    var assignments: map<Id, Assignment>

    ghost function State(): World
      reads this
    {
      World(shifts, activeOfficers, assignments)
    }

    /** The call ended as the specification says: with its new state, or with its error and no change. */
    ghost predicate Answers(before: World, c: Command, error: Option<Error>)
      requires FreshIds(before, c)
      reads this
    {
      match Apply(before, c)
      case Done(w) => error == None && State() == w
      case Rejected(e) => error == Some(e) && State() == before
    }

    method AssertNoDuplicate(shiftId: Id, officerId: Id) returns (ok: bool)
      ensures ok <==> NoDuplicate(State(), shiftId, officerId)
    {
      var rest := assignments.Keys;
      while rest != {}
        invariant rest <= assignments.Keys
        invariant forall id <- assignments.Keys - rest :: Holds(State(), id, officerId) ==>
                    assignments[id].shiftId != shiftId
        decreases |rest|
      {
        var id :| id in rest;
        var a := assignments[id];
        if a.shiftId == shiftId && a.officerId == officerId && Occupies(a.status) {
          assert Holds(State(), id, officerId);
          return false;
        }
        rest := rest - {id};
      }
      return true;
    }

    method AssertNoOverlap(officerId: Id, proposed: Shift, ignore: Option<Id>) returns (ok: bool)
      requires Plannable(shifts) && exists p <- shifts :: shifts[p].plan == proposed
      ensures ok <==> NoOverlap(State(), proposed, officerId, ignore)
    {
      hide Returns, OverlapFound;
      var rest := assignments.Keys;
      while rest != {}
        invariant rest <= assignments.Keys
        invariant forall id <- assignments.Keys - rest ::
                    Blocks(State(), id, officerId, ignore) ==>
                      !Conflicts(proposed, shifts[assignments[id].shiftId].plan)
        decreases |rest|
      {
        var id :| id in rest;
        var a := assignments[id];
        if Blocks(World(shifts, activeOfficers, assignments), id, officerId, ignore) {
          var other := shifts[a.shiftId].plan;
          var overlaps;
          if IsRecurring(proposed.recurrence) || IsRecurring(other.recurrence) {
            assert Expandable(proposed, proposed) && Expandable(other, proposed);
            overlaps := RecurrencesOverlap(proposed, other, proposed.startAt, WindowEnd(proposed));
          } else {
            overlaps := RangesOverlap(other.startAt, other.endAt, proposed.startAt, proposed.endAt);
          }
          if overlaps {
            assert Blocks(State(), id, officerId, ignore);
            return false;
          }
        }
        rest := rest - {id};
      }
      return true;
    }

    method AssertOfficer(shiftId: Id, officerId: Id, ignore: Option<Id>) returns (error: Option<Error>)
      requires Plannable(shifts) && shiftId in shifts
      ensures error == OfficerChecks(State(), shiftId, officerId, ignore)
    {
      hide NoOverlap, NoDuplicate, Plannable;
      error := AssignableOfficer(World(shifts, activeOfficers, assignments), officerId);
      if error.Some? {
        return;
      }
      var single := AssertNoDuplicate(shiftId, officerId);
      if !single {
        return Some(Duplicate);
      }
      var clear := AssertNoOverlap(officerId, shifts[shiftId].plan, ignore);
      if !clear {
        return Some(TimeConflict);
      }
      return None;
    }

    method CreateAssignment(shiftId: Id, officerId: Id, newId: Id) returns (error: Option<Error>)
      requires Plannable(shifts) && newId !in assignments
      modifies this
      ensures Answers(old(State()), Create(shiftId, officerId, newId), error)
    {
      hide OfficerChecks, Plannable;
      error := AssignableShift(World(shifts, activeOfficers, assignments), shiftId, false);
      if error.Some? {
        return;
      }
      error := AssertOfficer(shiftId, officerId, None);
      if error.Some? {
        return;
      }
      assignments := assignments[newId := Assignment(shiftId, officerId, ASSIGNED)];
    }

    method CreateAssignments(shiftId: Id, officerIds: seq<Id>, newIds: seq<Id>) returns (error: Option<Error>)
      requires Plannable(shifts) && FreshIds(State(), CreateBatch(shiftId, officerIds, newIds))
      modifies this
      ensures Answers(old(State()), CreateBatch(shiftId, officerIds, newIds), error)
    {
      hide OfficerChecks, Plannable, Unique;
      ghost var before := State();
      var officers := Unique(officerIds);
      error := AssignableShift(World(shifts, activeOfficers, assignments), shiftId, false);
      if error.Some? {
        return;
      }
      for i := 0 to |officers|
        invariant State() == before
        invariant BatchChecks(before, shiftId, officers) == BatchChecks(before, shiftId, officers[i..])
      {
        error := AssertOfficer(shiftId, officers[i], None);
        if error.Some? {
          return;
        }
      }
      for i := 0 to |officers|
        invariant shifts == before.shifts && activeOfficers == before.activeOfficers
        invariant AddAll(assignments, shiftId, officers[i..], newIds[i..])
               == AddAll(before.assignments, shiftId, officers, newIds)
      {
        assignments := assignments[newIds[i] := Assignment(shiftId, officers[i], ASSIGNED)];
      }
      return None;
    }

    method ReassignAssignment(id: Id, replacementId: Id, newId: Id) returns (error: Option<Error>)
      requires Plannable(shifts) && newId !in assignments
      modifies this
      ensures Answers(old(State()), Reassign(id, replacementId, newId), error)
    {
      hide OfficerChecks, Plannable;
      if id !in assignments {
        return Some(AssignmentNotFound);
      }
      var existing := assignments[id];
      if existing.status != ASSIGNED && existing.status != CONFIRMED {
        return Some(TransitionInvalid);
      }
      error := AssignableShift(World(shifts, activeOfficers, assignments), existing.shiftId, true);
      if error.Some? {
        return;
      }
      error := AssertOfficer(existing.shiftId, replacementId, Some(id));
      if error.Some? {
        return;
      }
      assignments := assignments[id := existing.(status := REASSIGNED)];
      assignments := assignments[newId := Assignment(existing.shiftId, replacementId, ASSIGNED)];
    }

    method AssertNoConflictsOnReschedule(shiftId: Id, startAt: int, endAt: int) returns (ok: bool)
      ensures ok <==> ClearOnReschedule(State(), shiftId, startAt, endAt)
    {
      var rest := assignments.Keys;
      while rest != {}
        invariant rest <= assignments.Keys
        invariant forall a, b :: a !in rest && Beside(State(), shiftId, a, b) ==> Apart(b, startAt, endAt)
        decreases |rest|
      {
        var a :| a in rest;
        rest := rest - {a};
        if assignments[a].shiftId == shiftId && Occupies(assignments[a].status) {
          var others := assignments.Keys;
          while others != {}
            invariant others <= assignments.Keys
            invariant forall b :: b !in others && Beside(State(), shiftId, a, b) ==> Apart(b, startAt, endAt)
            decreases |others|
          {
            var b :| b in others;
            others := others - {b};
            if Beside(World(shifts, activeOfficers, assignments), shiftId, a, b) {
              var other := shifts[assignments[b].shiftId].plan;
              if RangesOverlap(other.startAt, other.endAt, startAt, endAt) {
                return false;
              }
            }
          }
        }
      }
      return true;
    }

    ghost predicate Apart(b: Id, startAt: int, endAt: int)
      reads this
    {
      b in assignments && assignments[b].shiftId in shifts
      && var other := shifts[assignments[b].shiftId].plan; !RangesOverlap(other.startAt, other.endAt, startAt, endAt)
    }

    /** ShiftsService.update, on the same tables. */
    method PerformUpdateShift(shiftId: Id, d: PlanChange) returns (error: Option<Error>)
      modifies this
      ensures Answers(old(State()), UpdateShift(shiftId, d), error)
    {
      hide ClearOnReschedule;
      if shiftId !in shifts || shifts[shiftId].deleted {
        return Some(ShiftNotFound);
      }
      var existing := shifts[shiftId];
      if existing.status == FINISHED || existing.status == CALLED_OFF || existing.status == ARCHIVED {
        return Some(ShiftImmutable);
      }
      if existing.status == STARTED {
        if d.site.Some? || d.startAt.Some? || d.endAt.Some? {
          return Some(ShiftStarted);
        }
      }
      if d.site.Some? {
        if !d.site.value {
          return Some(SiteInactive);
        }
        existing := existing.(siteActive := true);
      }
      var plan := ChangedPlan(existing.plan, d);
      if d.startAt.Some? || d.endAt.Some? {
        if plan.endAt <= plan.startAt {
          return Some(TimeRangeInvalid);
        }
        var clear := AssertNoConflictsOnReschedule(shiftId, plan.startAt, plan.endAt);
        if !clear {
          return Some(TimeConflict);
        }
      }
      if !d.valid {
        return Some(ShiftInvalid);
      }
      shifts := shifts[shiftId := existing.(plan := plan)];
      return None;
    }

    method UpdateAssignmentStatus(id: Id, status: AssignmentStatus) returns (error: Option<Error>)
      modifies this
      ensures Answers(old(State()), UpdateStatus(id, status), error)
    {
      if id !in assignments {
        return Some(AssignmentNotFound);
      }
      if !AssignmentAllowed(assignments[id].status, status) {
        return Some(TransitionInvalid);
      }
      assignments := assignments[id := assignments[id].(status := status)];
      return None;
    }

    method ConfirmAssignment(id: Id) returns (error: Option<Error>)
      modifies this
      ensures Answers(old(State()), Confirm(id), error)
    {
      if id !in assignments {
        return Some(AssignmentNotFound);
      }
      if assignments[id].status != ASSIGNED {
        return Some(TransitionInvalid);
      }
      assignments := assignments[id := assignments[id].(status := CONFIRMED)];
      return None;
    }

    method CancelAssignment(id: Id) returns (error: Option<Error>)
      modifies this
      ensures Answers(old(State()), Cancel(id), error)
    {
      if id !in assignments {
        return Some(AssignmentNotFound);
      }
      var s := assignments[id].status;
      if s == IN_PROGRESS || s == COMPLETED {
        return Some(TransitionInvalid);
      }
      if s == CANCELLED || s == REASSIGNED || s == MISSED {
        return None;
      }
      assignments := assignments[id := assignments[id].(status := CANCELLED)];
      return None;
    }
  }
}
