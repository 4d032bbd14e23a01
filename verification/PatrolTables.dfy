/** Routes, checkpoints and patrols together: every service that writes them, and what no run of them breaks. */
module PatrolTables {
  import opened JsText
  import opened Ordering
  import opened PatrolVisits
  import opened PatrolCheckpoints

  datatype RouteStatus = DRAFT | ACTIVE | INACTIVE | ARCHIVED

  /** Whether checkpoints must be visited in sequence is fixed when a route is created. */
  datatype Route = Route(status: RouteStatus, sequential: bool, deleted: bool)

  datatype World = World(config: Config, routes: map<nat, Route>, rows: seq<Checkpoint>, patrols: map<nat, Patrol>)

  datatype TableError =
    | IdTaken | RouteNotFound | RouteStatusInvalid | RouteInactive | RouteInUse | SiteInactive
    | ActivationFailed(activation: ActivationError)
    | CheckpointMissing | CheckpointInUse | InputInvalid | OverrideNotConfigurable | QrMissingForMethod
    | SequenceInUse | QrInUse | UniqueIndex
    | ReorderFailed(reorder: ReorderError)
    | PatrolNotFound | NoActiveCheckpoints | ShiftInvalid | DuplicatePatrol | StepRefused(step: Error)

  datatype Outcome = Changed(world: World) | Failed(error: TableError)

  datatype CheckpointInput = CheckpointInput(sequence: int, spec: Spec, rules: Rules, inRange: bool)

  /** The fields of an update that are present; the rules are those after it. */
  datatype CheckpointChange = CheckpointChange(
    verification: Option<Method>, qrHash: Option<Option<string>>, sequence: Option<int>,
    latitude: Option<int>, longitude: Option<int>,
    radius: Option<nat>, rules: Rules, active: Option<bool>, inRange: bool)

  datatype PatrolInput = PatrolInput(id: nat, routeId: nat, assignmentId: nat, firstSnapshotId: nat, shiftValid: bool)

  datatype Command =
    | CreateRoute(id: nat, sequential: bool, admitted: bool)
    | UpdateRouteStatus(id: nat, status: RouteStatus, siteActive: bool)
    | ArchiveRoute(id: nat)
    | CreateCheckpoint(id: nat, routeId: nat, input: CheckpointInput)
    | UpdateCheckpoint(id: nat, change: CheckpointChange)
    | ArchiveCheckpoint(id: nat)
    | ReorderCheckpoints(routeId: nat, items: seq<Item>)
    | CreatePatrols(inputs: seq<PatrolInput>)
    | StepPatrol(id: nat, step: Step)

  predicate RouteAllowed(from: RouteStatus, to: RouteStatus) {
    match from
    case DRAFT => to.ACTIVE? || to.INACTIVE? || to.ARCHIVED?
    case ACTIVE => to.INACTIVE? || to.ARCHIVED?
    case INACTIVE => to.ACTIVE? || to.ARCHIVED?
    case ARCHIVED => false
  }

  // ---- Routes -------------------------------------------------------------------------------------------------------

  predicate LiveRoute(w: World, id: nat) {
    id in w.routes && !w.routes[id].deleted
  }

  predicate HasActivePatrol(w: World, routeId: nat) {
    exists id <- w.patrols :: w.patrols[id].routeId == routeId && Active(w.patrols[id].status)
  }

  function RouteStatusUpdated(w: World, id: nat, status: RouteStatus, siteActive: bool): Outcome {
    if !LiveRoute(w, id) then Failed(RouteNotFound)
    else if !RouteAllowed(w.routes[id].status, status) then Failed(RouteStatusInvalid)
    else if status.ACTIVE? && !siteActive then Failed(SiteInactive)
    else if status.ACTIVE? && ActivationFailure(w.rows, id).Some? then
      Failed(ActivationFailed(ActivationFailure(w.rows, id).value))
    else if status.ARCHIVED? && HasActivePatrol(w, id) then Failed(RouteInUse)
    else
      var route := w.routes[id];
      Changed(w.(routes := w.routes[id := route.(status := status, deleted := route.deleted || status.ARCHIVED?)]))
  }

  function RouteArchived(w: World, id: nat): Outcome {
    if !LiveRoute(w, id) then Failed(RouteNotFound)
    else if w.routes[id].status.ARCHIVED? then Changed(w)
    else if HasActivePatrol(w, id) then Failed(RouteInUse)
    else if !RouteAllowed(w.routes[id].status, RouteStatus.ARCHIVED) then Failed(RouteStatusInvalid)
    else Changed(w.(routes := w.routes[id := w.routes[id].(status := RouteStatus.ARCHIVED, deleted := true)]))
  }

  // ---- Checkpoints --------------------------------------------------------------------------------------------------

  function RouteNotEditable(w: World, routeId: nat): Option<TableError> {
    if !LiveRoute(w, routeId) then Some(RouteNotFound)
    else if w.routes[routeId].status.ARCHIVED? then Some(RouteStatusInvalid) else None
  }

  /** The sequence is used by a row of the route that is not deleted. */
  predicate SequenceSeen(rows: seq<Checkpoint>, routeId: nat, sequence: int, except: Option<nat>) {
    exists c <- rows :: c.routeId == routeId && c.sequence == sequence && !c.deleted && Some(c.id) != except
  }

  predicate QrSeen(rows: seq<Checkpoint>, hash: Option<string>, except: Option<nat>) {
    hash.Some? && exists c <- rows :: c.spec.qrHash == hash && !c.deleted && Some(c.id) != except
  }

  /** The unique indexes on (route, sequence) and on the QR hash, over all rows. */
  predicate BreaksIndex(rows: seq<Checkpoint>, c: Checkpoint) {
    SequenceTaken(rows, c.routeId, c.sequence, c.id)
    || (c.spec.qrHash.Some? && exists d <- rows :: d.spec.qrHash == c.spec.qrHash && d.id != c.id)
  }

  function CheckpointCreated(w: World, id: nat, routeId: nat, input: CheckpointInput): Outcome {
    var hash := if NeedsQr(input.spec.verification) then input.spec.qrHash else None;
    var c := Checkpoint(id, routeId, input.sequence, input.spec.(qrHash := hash), input.rules, true, false);
    if HasRow(w.rows, id) then Failed(IdTaken)
    else if RouteNotEditable(w, routeId).Some? then Failed(RouteNotEditable(w, routeId).value)
    else if !input.inRange || input.sequence < 1 then Failed(InputInvalid)
    else if input.spec.verification.MANUAL_SUPERVISOR_OVERRIDE? then Failed(OverrideNotConfigurable)
    else if NeedsQr(input.spec.verification) && hash.None? then Failed(QrMissingForMethod)
    else if SequenceSeen(w.rows, routeId, input.sequence, None) then Failed(SequenceInUse)
    else if QrSeen(w.rows, hash, None) then Failed(QrInUse)
    else if BreaksIndex(w.rows, c) then Failed(UniqueIndex)
    else Changed(w.(rows := w.rows + [c]))
  }

  function FindRow(rows: seq<Checkpoint>, id: nat): (r: Option<Checkpoint>)
    ensures r.Some? ==> r.value in rows && r.value.id == id && !r.value.deleted
    ensures r.None? ==> forall c <- rows :: c.id == id ==> c.deleted
  {
    if rows == [] then None else if rows[0].id == id && !rows[0].deleted then Some(rows[0]) else FindRow(rows[1..], id)
  }

  function WithRow(rows: seq<Checkpoint>, c: Checkpoint): (r: seq<Checkpoint>)
    ensures |r| == |rows| && forall i :: 0 <= i < |rows| ==> r[i] == if rows[i].id == c.id then c else rows[i]
  {
    if rows == [] then [] else [if rows[0].id == c.id then c else rows[0]] + WithRow(rows[1..], c)
  }

  predicate InUse(w: World, checkpointId: nat) {
    exists id <- w.patrols ::
      Active(w.patrols[id].status) && exists s <- w.patrols[id].snapshots :: s.source == checkpointId
  }

  /** The fields whose update is refused while an active patrol is walked against the checkpoint. */
  predicate Guarded(d: CheckpointChange) {
    d.verification.Some? || d.qrHash.Some? || d.sequence.Some?
    || d.latitude.Some? || d.longitude.Some? || d.radius.Some?
  }

  function OrElse<T>(o: Option<T>, otherwise: T): T {
    if o.Some? then o.value else otherwise
  }

  function WithChange(c: Checkpoint, d: CheckpointChange): Checkpoint {
    c.(sequence := OrElse(d.sequence, c.sequence), active := OrElse(d.active, c.active), rules := d.rules,
       spec := Spec(OrElse(d.latitude, c.spec.latitude), OrElse(d.longitude, c.spec.longitude),
                    OrElse(d.radius, c.spec.radius),
                    OrElse(d.verification, c.spec.verification), OrElse(d.qrHash, c.spec.qrHash)))
  }

  function CheckpointUpdated(w: World, id: nat, d: CheckpointChange): Outcome {
    var found := FindRow(w.rows, id);
    if found.None? then Failed(CheckpointMissing)
    else
      var c := WithChange(found.value, d);
      if RouteNotEditable(w, found.value.routeId).Some? then Failed(RouteNotEditable(w, found.value.routeId).value)
      else if Guarded(d) && InUse(w, id) then Failed(CheckpointInUse)
      else if d.qrHash.Some? && QrSeen(w.rows, d.qrHash.value, Some(id)) then Failed(QrInUse)
      else if QrMissing(c) then Failed(QrMissingForMethod)
      else if c.sequence != found.value.sequence && SequenceSeen(w.rows, c.routeId, c.sequence, Some(id)) then
        Failed(SequenceInUse)
      else if !d.inRange || c.sequence < 1 then Failed(InputInvalid)
      else if BreaksIndex(w.rows, c) then Failed(UniqueIndex)
      else Changed(w.(rows := WithRow(w.rows, c)))
  }

  function CheckpointArchived(w: World, id: nat): Outcome {
    var found := FindRow(w.rows, id);
    if found.None? then Failed(CheckpointMissing)
    else if RouteNotEditable(w, found.value.routeId).Some? then Failed(RouteNotEditable(w, found.value.routeId).value)
    else if InUse(w, id) then Failed(CheckpointInUse)
    else Changed(w.(rows := WithRow(w.rows, found.value.(active := false, deleted := true))))
  }

  function CheckpointsReordered(w: World, routeId: nat, items: seq<Item>): Outcome {
    if RouteNotEditable(w, routeId).Some? then Failed(RouteNotEditable(w, routeId).value)
    else
      var r := Reorder(w.rows, routeId, items);
      if r.Refused? then Failed(ReorderFailed(r.error)) else Changed(w.(rows := r.rows))
  }

  // ---- Patrols ------------------------------------------------------------------------------------------------------

  function SnapshotsOf(checkpoints: seq<Checkpoint>, firstId: nat): (r: seq<Snapshot>)
    ensures |r| == |checkpoints|
    ensures forall i :: 0 <= i < |r| ==>
              r[i] == Snapshot(firstId + i, checkpoints[i].id, checkpoints[i].sequence, checkpoints[i].spec,
                               checkpoints[i].rules)
  {
    seq(|checkpoints|, i requires 0 <= i < |checkpoints| =>
      Snapshot(firstId + i, checkpoints[i].id, checkpoints[i].sequence, checkpoints[i].spec, checkpoints[i].rules))
  }

  predicate ActiveFor(w: World, routeId: nat, assignmentId: nat) {
    exists id <- w.patrols ::
      w.patrols[id].routeId == routeId && w.patrols[id].assignmentId == assignmentId && Active(w.patrols[id].status)
  }

  function NewPatrol(rows: seq<Checkpoint>, input: PatrolInput): Patrol {
    var snapshots := SnapshotsOf(ActiveOf(rows, input.routeId), input.firstSnapshotId);
    Patrol(input.routeId, input.assignmentId, PatrolStatus.NOT_STARTED, snapshots, map[], 0, |snapshots|)
  }

  function PatrolCreated(w: World, input: PatrolInput): Outcome {
    if input.id in w.patrols then Failed(IdTaken)
    else if !LiveRoute(w, input.routeId) then Failed(RouteNotFound)
    else if !w.routes[input.routeId].status.ACTIVE? then Failed(RouteInactive)
    else if ActiveOf(w.rows, input.routeId) == [] then Failed(NoActiveCheckpoints)
    else if !input.shiftValid then Failed(ShiftInvalid)
    else if ActiveFor(w, input.routeId, input.assignmentId) then Failed(DuplicatePatrol)
    else Changed(w.(patrols := w.patrols[input.id := NewPatrol(w.rows, input)]))
  }

  /** All of a batch in one transaction, or none. */
  function PatrolsCreated(w: World, inputs: seq<PatrolInput>): Outcome
    decreases |inputs|
  {
    if inputs == [] then Changed(w)
    else
      var first := PatrolCreated(w, inputs[0]);
      if first.Failed? then first else PatrolsCreated(first.world, inputs[1..])
  }

  function PatrolStepped(w: World, id: nat, step: Step): Outcome {
    if id !in w.patrols || w.patrols[id].routeId !in w.routes then Failed(PatrolNotFound)
    else
      var r := Apply(w.config, w.routes[w.patrols[id].routeId].sequential, w.patrols[id], step);
      if r.Rejected? then Failed(StepRefused(r.error)) else Changed(w.(patrols := w.patrols[id := r.patrol]))
  }

  function Execute(w: World, c: Command): Outcome {
    match c
    case CreateRoute(id, sequential, admitted) =>
      if id in w.routes then Failed(IdTaken) else if !admitted then Failed(InputInvalid)
      else Changed(w.(routes := w.routes[id := Route(RouteStatus.DRAFT, sequential, false)]))
    case UpdateRouteStatus(id, status, siteActive) => RouteStatusUpdated(w, id, status, siteActive)
    case ArchiveRoute(id) => RouteArchived(w, id)
    case CreateCheckpoint(id, routeId, input) => CheckpointCreated(w, id, routeId, input)
    case UpdateCheckpoint(id, d) => CheckpointUpdated(w, id, d)
    case ArchiveCheckpoint(id) => CheckpointArchived(w, id)
    case ReorderCheckpoints(routeId, items) => CheckpointsReordered(w, routeId, items)
    case CreatePatrols(inputs) => PatrolsCreated(w, inputs)
    case StepPatrol(id, step) => PatrolStepped(w, id, step)
  }

  function Next(w: World, c: Command): World {
    var r := Execute(w, c);
    if r.Changed? then r.world else w
  }

  function After(w: World, run: seq<Command>): World
    decreases |run|
  {
    if run == [] then w else After(Next(w, run[0]), run[1..])
  }

  // ---- Invariants ---------------------------------------------------------------------------------------------------

  ghost predicate RowsFine(w: World) {
    RowsOk(w.rows) && Positive(w.rows)
  }

  /** Every patrol is sound against its route's sequential mode. */
  ghost predicate PatrolsFine(w: World) {
    forall id <- w.patrols ::
      w.patrols[id].routeId in w.routes && PatrolOk(w.routes[w.patrols[id].routeId].sequential, w.patrols[id])
  }

  /** The snapshot has the coordinates, radius, method and QR hash of its checkpoint, which is on the route and not
      deleted. */
  ghost predicate Mirrors(rows: seq<Checkpoint>, routeId: nat, s: Snapshot) {
    exists c <- rows :: c.id == s.source && c.routeId == routeId && c.spec == s.spec && !c.deleted
  }

  ghost predicate AllMirror(rows: seq<Checkpoint>, p: Patrol) {
    forall s <- p.snapshots :: Mirrors(rows, p.routeId, s)
  }

  ghost predicate Mirrored(w: World) {
    forall id <- w.patrols :: Active(w.patrols[id].status) ==> AllMirror(w.rows, w.patrols[id])
  }

  predicate BothActive(p: Patrol, q: Patrol) {
    Active(p.status) && Active(q.status)
  }

  predicate SameDuty(p: Patrol, q: Patrol) {
    p.routeId == q.routeId && p.assignmentId == q.assignmentId
  }

  /** At most one active patrol per route and shift assignment. */
  ghost predicate OneActive(w: World) {
    forall a, b :: a in w.patrols && b in w.patrols && a != b && BothActive(w.patrols[a], w.patrols[b]) ==>
      !SameDuty(w.patrols[a], w.patrols[b])
  }

  /** An archived route has no active patrol. */
  ghost predicate ArchivedIdle(w: World) {
    forall id <- w.patrols :: Active(w.patrols[id].status) && w.patrols[id].routeId in w.routes ==>
      !w.routes[w.patrols[id].routeId].status.ARCHIVED? && !w.routes[w.patrols[id].routeId].deleted
  }

  ghost predicate Coherent(w: World) {
    RowsFine(w) && PatrolsFine(w) && Mirrored(w) && OneActive(w) && ArchivedIdle(w)
  }

  // ---- Patrol steps -------------------------------------------------------------------------------------------------

  /** A patrol changed in place: same route, assignment and snapshots, sound, and not active unless it was. */
  ghost predicate Continues(w: World, id: nat, q: Patrol) {
    && id in w.patrols && w.patrols[id].routeId in w.routes
    && q.routeId == w.patrols[id].routeId && q.assignmentId == w.patrols[id].assignmentId
    && q.snapshots == w.patrols[id].snapshots
    && PatrolOk(w.routes[q.routeId].sequential, q) && (Active(q.status) ==> Active(w.patrols[id].status))
  }

  lemma ContinuedCoherent(w: World, id: nat, q: Patrol)
    requires Coherent(w) && Continues(w, id, q)
    ensures Coherent(w.(patrols := w.patrols[id := q]))
  {
    hide PatrolOk, RowsFine, Mirrors, Active;
    var v := w.(patrols := w.patrols[id := q]);
    assert PatrolsFine(v);
    assert Mirrored(v) by {
      forall k | k in v.patrols && Active(v.patrols[k].status) ensures AllMirror(v.rows, v.patrols[k]) {
        assert AllMirror(w.rows, w.patrols[k]);
      }
    }
    assert OneActive(v);
    assert ArchivedIdle(v);
    assert RowsFine(v) by { assert RowsFine(w); SameRows(w, v); }
  }

  lemma SameRows(w: World, v: World)
    requires w.rows == v.rows
    ensures RowsFine(w) <==> RowsFine(v)
  {
  }

  lemma StepKeepsCoherent(w: World, id: nat, step: Step)
    requires Coherent(w) && PatrolStepped(w, id, step).Changed?
    ensures Coherent(PatrolStepped(w, id, step).world)
  {
    hide PatrolOk, RowsFine, Mirrored, OneActive, ArchivedIdle, Active, Apply, Allowed;
    var sequential := w.routes[w.patrols[id].routeId].sequential;
    StepKeepsPatrolOk(w.config, sequential, w.patrols[id], step);
    StatusMoves(w.config, sequential, w.patrols[id], step);
    ContinuedCoherent(w, id, Apply(w.config, sequential, w.patrols[id], step).patrol);
  }

  // ---- New patrols --------------------------------------------------------------------------------------------------

  lemma NewPatrolSound(w: World, input: PatrolInput, sequential: bool)
    requires RowsFine(w)
    ensures PatrolOk(sequential, NewPatrol(w.rows, input)) && AllMirror(w.rows, NewPatrol(w.rows, input))
  {
    hide ActiveOf;
    var checkpoints := ActiveOf(w.rows, input.routeId);
    ActiveOrdered(w.rows, input.routeId);
    var p := NewPatrol(w.rows, input);
    forall i, j | 0 <= i < j < |p.snapshots| ensures SequenceOf(p.snapshots[i]) < SequenceOf(p.snapshots[j]) {
      assert RowSequence(checkpoints[i]) < RowSequence(checkpoints[j]);
    }
    forall s | s in p.snapshots ensures Mirrors(w.rows, p.routeId, s) {
      var i :| 0 <= i < |p.snapshots| && p.snapshots[i] == s;
      assert checkpoints[i] in checkpoints;
    }
    NothingCounted(p.snapshots);
  }

  lemma {:induction false} NothingCounted(snapshots: seq<Snapshot>)
    ensures Count(snapshots, map[], CheckpointStatus.COMPLETED) == 0
  {
    if snapshots != [] { NothingCounted(snapshots[..|snapshots| - 1]); }
  }

  lemma CreationKeepsCoherent(w: World, input: PatrolInput)
    requires Coherent(w) && PatrolCreated(w, input).Changed?
    ensures Coherent(PatrolCreated(w, input).world)
  {
    hide PatrolOk, AllMirror, ActiveOf, NewPatrol, Active;
    NewPatrolSound(w, input, w.routes[input.routeId].sequential);
    NewPatrolFields(w.rows, input);
    var v := PatrolCreated(w, input).world;
    assert RowsFine(v) by { SameRows(w, v); }
    assert PatrolsFine(v);
    assert Mirrored(v);
    assert OneActive(v);
    assert ArchivedIdle(v) by { assert w.routes[input.routeId].status.ACTIVE?; }
  }

  lemma NewPatrolFields(rows: seq<Checkpoint>, input: PatrolInput)
    ensures var p := NewPatrol(rows, input);
            p.routeId == input.routeId && p.assignmentId == input.assignmentId && p.status.NOT_STARTED?
  {
  }

  lemma {:induction false} BatchKeepsCoherent(w: World, inputs: seq<PatrolInput>)
    requires Coherent(w) && PatrolsCreated(w, inputs).Changed?
    ensures Coherent(PatrolsCreated(w, inputs).world)
    decreases |inputs|
  {
    hide Coherent, PatrolCreated;
    if inputs != [] {
      CreationKeepsCoherent(w, inputs[0]);
      BatchKeepsCoherent(PatrolCreated(w, inputs[0]).world, inputs[1..]);
    }
  }

  // ---- Checkpoint rows ----------------------------------------------------------------------------------------------

  /** New rows in which every snapshot of an active patrol still finds its checkpoint. */
  lemma RowsReplacedCoherent(w: World, rows: seq<Checkpoint>)
    requires Coherent(w) && RowsOk(rows) && Positive(rows)
    requires forall id <- w.patrols :: Active(w.patrols[id].status) ==> AllMirror(rows, w.patrols[id])
    ensures Coherent(w.(rows := rows))
  {
    hide PatrolOk, RowsOk, Positive, Mirrors, Active, AllMirror;
  }

  lemma CreateCheckpointKeepsCoherent(w: World, id: nat, routeId: nat, input: CheckpointInput)
    requires Coherent(w) && CheckpointCreated(w, id, routeId, input).Changed?
    ensures Coherent(CheckpointCreated(w, id, routeId, input).world)
  {
    hide PatrolOk, Active, PatrolsFine, OneActive, ArchivedIdle, RouteNotEditable, SequenceSeen, QrSeen;
    var rows := CheckpointCreated(w, id, routeId, input).world.rows;
    var n := |w.rows|;
    assert forall i :: 0 <= i < n ==> rows[i] == w.rows[i] && rows[i] in w.rows;
    assert RowsOk(rows);
    assert Positive(rows);
    forall k | k in w.patrols && Active(w.patrols[k].status) ensures AllMirror(rows, w.patrols[k]) {
      forall s | s in w.patrols[k].snapshots ensures Mirrors(rows, w.patrols[k].routeId, s) {
        assert Mirrors(w.rows, w.patrols[k].routeId, s);
      }
    }
    RowsReplacedCoherent(w, rows);
  }

  /** Replacing one row: allowed by the indexes, it keeps the rows sound. */
  lemma WithRowKeepsRowsOk(rows: seq<Checkpoint>, was: Checkpoint, c: Checkpoint)
    requires RowsOk(rows) && Positive(rows) && was in rows && c.id == was.id && c.routeId == was.routeId
    requires c.sequence >= 1
    requires !SequenceTaken(rows, c.routeId, c.sequence, c.id)
    ensures RowsOk(WithRow(rows, c)) && Positive(WithRow(rows, c))
  {
    var r := WithRow(rows, c);
    forall i | 0 <= i < |r|
      ensures r[i].id == rows[i].id && r[i].routeId == rows[i].routeId && r[i].sequence >= 1 && rows[i] in rows
    {
      assert rows[i] in rows;
      SameIdSameRow(rows, rows[i], was);
    }
  }

  /** Active patrols see the same after a row is replaced, if it keeps its spec and is not deleted, or no active patrol
      uses it. */
  lemma WithRowKeepsMirrored(w: World, was: Checkpoint, c: Checkpoint)
    requires RowsOk(w.rows) && Mirrored(w) && was in w.rows && c.id == was.id && c.routeId == was.routeId
    requires (c.spec == was.spec && !c.deleted) || !InUse(w, c.id)
    ensures forall k <- w.patrols :: Active(w.patrols[k].status) ==> AllMirror(WithRow(w.rows, c), w.patrols[k])
  {
    hide Active;
    var r := WithRow(w.rows, c);
    forall k, s | k in w.patrols && Active(w.patrols[k].status) && s in w.patrols[k].snapshots
      ensures Mirrors(r, w.patrols[k].routeId, s)
    {
      assert AllMirror(w.rows, w.patrols[k]);
      var d :| d in w.rows && d.id == s.source && d.routeId == w.patrols[k].routeId && d.spec == s.spec && !d.deleted;
      var i :| 0 <= i < |w.rows| && w.rows[i] == d;
      SameIdSameRow(w.rows, d, was);
      assert r[i] in r;
    }
  }

  lemma UpdateCheckpointKeepsCoherent(w: World, id: nat, d: CheckpointChange)
    requires Coherent(w) && CheckpointUpdated(w, id, d).Changed?
    ensures Coherent(CheckpointUpdated(w, id, d).world)
  {
    hide PatrolOk, RowsOk, Positive, Mirrored, Active, PatrolsFine, OneActive, ArchivedIdle, RouteNotEditable,
      SequenceSeen, QrSeen, InUse, AllMirror, SequenceTaken;
    var was := FindRow(w.rows, id).value;
    var c := WithChange(was, d);
    WithRowKeepsRowsOk(w.rows, was, c);
    WithRowKeepsMirrored(w, was, c);
    RowsReplacedCoherent(w, WithRow(w.rows, c));
  }

  lemma ArchiveCheckpointKeepsCoherent(w: World, id: nat)
    requires Coherent(w) && CheckpointArchived(w, id).Changed?
    ensures Coherent(CheckpointArchived(w, id).world)
  {
    hide PatrolOk, Mirrored, Active, PatrolsFine, OneActive, ArchivedIdle, RouteNotEditable, InUse, AllMirror;
    var was := FindRow(w.rows, id).value;
    var c := was.(active := false, deleted := true);
    forall d | d in w.rows && d.routeId == c.routeId && d.sequence == c.sequence ensures d.id == c.id {
      SameIdSameRow(w.rows, d, was);
    }
    WithRowKeepsRowsOk(w.rows, was, c);
    WithRowKeepsMirrored(w, was, c);
    RowsReplacedCoherent(w, WithRow(w.rows, c));
  }

  lemma ReorderKeepsCoherent(w: World, routeId: nat, items: seq<Item>)
    requires Coherent(w) && CheckpointsReordered(w, routeId, items).Changed?
    ensures Coherent(CheckpointsReordered(w, routeId, items).world)
  {
    hide PatrolOk, Active, PatrolsFine, OneActive, ArchivedIdle, RouteNotEditable, Reorder, RowsOk, Positive;
    ReorderKeepsRowsOk(w.rows, routeId, items);
    ReorderedRows(w.rows, routeId, items);
    var r := Reorder(w.rows, routeId, items).rows;
    forall k | k in w.patrols && Active(w.patrols[k].status) ensures AllMirror(r, w.patrols[k]) {
      forall s | s in w.patrols[k].snapshots ensures Mirrors(r, w.patrols[k].routeId, s) {
        assert Mirrors(w.rows, w.patrols[k].routeId, s);
        var d :| d in w.rows && d.id == s.source && d.routeId == w.patrols[k].routeId && d.spec == s.spec && !d.deleted;
        var i :| 0 <= i < |w.rows| && w.rows[i] == d;
        assert r[i] in r;
      }
    }
    RowsReplacedCoherent(w, r);
  }

  // ---- Routes -------------------------------------------------------------------------------------------------------

  lemma RouteReplacedCoherent(w: World, id: nat, route: Route)
    requires Coherent(w)
    requires id in w.routes ==> route.sequential == w.routes[id].sequential
    requires id in w.routes ==> (!route.status.ARCHIVED? && !route.deleted) || !HasActivePatrol(w, id)
    ensures Coherent(w.(routes := w.routes[id := route]))
  {
    hide PatrolOk, Mirrored, RowsFine, Active;
    var v := w.(routes := w.routes[id := route]);
    assert PatrolsFine(v);
    assert ArchivedIdle(v);
    assert OneActive(v);
    assert RowsFine(v) by { SameRows(w, v); }
    assert Mirrored(v) by { SameMirrored(w, v); }
  }

  lemma SameMirrored(w: World, v: World)
    requires w.rows == v.rows && w.patrols == v.patrols
    ensures Mirrored(w) <==> Mirrored(v)
  {
  }

  // ---- Runs ---------------------------------------------------------------------------------------------------------

  lemma CommandKeepsCoherent(w: World, c: Command)
    requires Coherent(w)
    ensures Coherent(Next(w, c))
  {
    hide Coherent, PatrolsCreated, PatrolStepped, CheckpointCreated, CheckpointUpdated, CheckpointArchived,
      CheckpointsReordered, ActivationFailure, HasActivePatrol;
    if Execute(w, c).Changed? {
      match c
      case CreateRoute(id, sequential, _) => RouteReplacedCoherent(w, id, Route(RouteStatus.DRAFT, sequential, false));
      case UpdateRouteStatus(id, status, _) =>
        RouteReplacedCoherent(w, id,
                              w.routes[id].(status := status, deleted := w.routes[id].deleted || status.ARCHIVED?));
      case ArchiveRoute(id) =>
        if !w.routes[id].status.ARCHIVED? {
          RouteReplacedCoherent(w, id, w.routes[id].(status := RouteStatus.ARCHIVED, deleted := true));
        }
      case CreateCheckpoint(id, routeId, input) => CreateCheckpointKeepsCoherent(w, id, routeId, input);
      case UpdateCheckpoint(id, d) => UpdateCheckpointKeepsCoherent(w, id, d);
      case ArchiveCheckpoint(id) => ArchiveCheckpointKeepsCoherent(w, id);
      case ReorderCheckpoints(routeId, items) => ReorderKeepsCoherent(w, routeId, items);
      case CreatePatrols(inputs) => BatchKeepsCoherent(w, inputs);
      case StepPatrol(id, step) => StepKeepsCoherent(w, id, step);
    }
  }

  /** Whatever the services do in whatever order: snapshots of active patrols match their checkpoints, no route and
      shift assignment has two active patrols, archived routes have none, every patrol is sound, and sequences stay
      unique. */
  lemma {:induction false} PatrolTablesStayCoherent(w: World, run: seq<Command>)
    requires Coherent(w)
    ensures Coherent(After(w, run))
    decreases |run|
  {
    hide Coherent, Next;
    if run != [] {
      CommandKeepsCoherent(w, run[0]);
      PatrolTablesStayCoherent(Next(w, run[0]), run[1..]);
    }
  }

  lemma EmptyTablesAreCoherent(config: Config)
    ensures Coherent(World(config, map[], [], map[]))
  {
  }

  // ---- What each command writes ------------------------------------------------------------------------------------

  predicate RouteMoves(from: RouteStatus, to: RouteStatus) {
    (from.DRAFT? && !to.DRAFT?) || (from.ACTIVE? && (to.INACTIVE? || to.ARCHIVED?))
    || (from.INACTIVE? && (to.ACTIVE? || to.ARCHIVED?))
  }

  /** A route is created as a draft. Its status changes exactly along the table, to active only with an active site and
      checkpoints fit for activation, to archived - by either command, which deletes it - only without active patrols.
      */
  lemma RouteCallsWrite(w: World, id: nat, c: Command)
    requires (c.CreateRoute? && c.id == id) || (c.UpdateRouteStatus? && c.id == id) || c == ArchiveRoute(id)
    ensures var r := Execute(w, c);
            && (c.CreateRoute? ==> (r.Changed? <==> id !in w.routes && c.admitted))
            && (c.UpdateRouteStatus? ==>
                  (r.Changed? <==>
                     && id in w.routes && !w.routes[id].deleted && RouteMoves(w.routes[id].status, c.status)
                     && (c.status.ACTIVE? ==> c.siteActive && ActivationFailure(w.rows, id).None?)
                     && (c.status.ARCHIVED? ==> !HasActivePatrol(w, id))))
            && (c.ArchiveRoute? ==>
                  (r.Changed? <==>
                     id in w.routes && !w.routes[id].deleted
                     && (w.routes[id].status.ARCHIVED? || !HasActivePatrol(w, id))))
            && (r.Changed? ==>
                  && r.world == w.(routes := r.world.routes) && id in r.world.routes
                  && r.world.routes == w.routes[id := r.world.routes[id]]
                  && r.world.routes[id]
                     == if c.CreateRoute? then Route(RouteStatus.DRAFT, c.sequential, false)
                        else if c.UpdateRouteStatus? then Route(c.status, w.routes[id].sequential, c.status.ARCHIVED?)
                        else if w.routes[id].status.ARCHIVED? then w.routes[id]
                        else Route(RouteStatus.ARCHIVED, w.routes[id].sequential, true))
  {
    hide ActivationFailure;
  }

  /** The route is there and its checkpoints may be edited. */
  predicate Editable(w: World, routeId: nat) {
    routeId in w.routes && !w.routes[routeId].deleted && !w.routes[routeId].status.ARCHIVED?
  }

  predicate Scans(m: Method) {
    m == QR_CODE || m == GPS_AND_QR
  }

  /** A checkpoint is created exactly under a new id on an editable route, in range, with a configurable method, with a
      QR hash where its method scans one, and with a sequence that no row of the route and a hash that no row has. It
      is active, and keeps the hash only where its method scans one. */
  lemma CreateCheckpointWrites(w: World, id: nat, routeId: nat, input: CheckpointInput)
    ensures var r, scans := CheckpointCreated(w, id, routeId, input), Scans(input.spec.verification);
            && (r.Changed? <==>
                  && Editable(w, routeId) && (forall c <- w.rows :: c.id != id) && input.inRange && input.sequence >= 1
                  && input.spec.verification != MANUAL_SUPERVISOR_OVERRIDE && (scans ==> input.spec.qrHash.Some?)
                  && (forall c <- w.rows :: c.routeId == routeId ==> c.sequence != input.sequence)
                  && (scans ==> forall c <- w.rows :: c.spec.qrHash != input.spec.qrHash))
            && (r.Changed? ==>
                  r.world == w.(rows := w.rows + [
                    Checkpoint(id, routeId, input.sequence,
                               input.spec.(qrHash := if scans then input.spec.qrHash else None), input.rules,
                               true, false)]))
  {
  }

  /** The rows differ in the row with this id. */
  ghost predicate RowReplaced(rows: seq<Checkpoint>, r: seq<Checkpoint>, was: Checkpoint, c: Checkpoint) {
    exists i :: 0 <= i < |rows| && rows[i] == was && r == rows[i := c]
  }

  lemma WithRowReplaces(rows: seq<Checkpoint>, was: Checkpoint, c: Checkpoint)
    requires RowsOk(rows) && was in rows && was.id == c.id
    ensures RowReplaced(rows, WithRow(rows, c), was, c)
  {
    var i :| 0 <= i < |rows| && rows[i] == was;
    assert WithRow(rows, c) == rows[i := c];
  }

  /** What an update asks for can be done to the row: the guarded fields are left alone or no active patrol uses it,
      the route is editable, and the row afterwards is in range, has a QR hash where its method scans one, and neither
      sequence nor hash of another row. */
  ghost predicate Updatable(w: World, was: Checkpoint, c: Checkpoint, d: CheckpointChange) {
    && Editable(w, was.routeId) && d.inRange && c.sequence >= 1
    && (InUse(w, was.id) ==> d.verification.None? && d.qrHash.None? && d.sequence.None? && d.latitude.None?
                             && d.longitude.None? && d.radius.None?)
    && (Scans(c.spec.verification) ==> c.spec.qrHash.Some?)
    && (forall o <- w.rows :: o.id != was.id && o.routeId == was.routeId ==> o.sequence != c.sequence)
    && (c.spec.qrHash.Some? ==> forall o <- w.rows :: o.id != was.id ==> o.spec.qrHash != c.spec.qrHash)
  }

  /** An update is carried out exactly on a row that is not deleted and when it is possible there. The row then has the
      given fields and keeps the others; other rows stay. */
  lemma UpdateCheckpointWrites(w: World, was: Checkpoint, d: CheckpointChange)
    requires RowsOk(w.rows) && was in w.rows && !was.deleted
    ensures var r := CheckpointUpdated(w, was.id, d);
            var c := Checkpoint(
                       was.id, was.routeId, if d.sequence.Some? then d.sequence.value else was.sequence,
                       Spec(if d.latitude.Some? then d.latitude.value else was.spec.latitude,
                            if d.longitude.Some? then d.longitude.value else was.spec.longitude,
                            if d.radius.Some? then d.radius.value else was.spec.radius,
                            if d.verification.Some? then d.verification.value else was.spec.verification,
                            if d.qrHash.Some? then d.qrHash.value else was.spec.qrHash),
                       d.rules, if d.active.Some? then d.active.value else was.active, false);
            && (r.Changed? <==> Updatable(w, was, c, d))
            && (r.Changed? ==> r.world == w.(rows := r.world.rows) && RowReplaced(w.rows, r.world.rows, was, c))
  {
    hide InUse, RowReplaced, RowsOk;
    FoundRow(w.rows, was);
    WithRowReplaces(w.rows, was, WithChange(was, d));
  }

  lemma FoundRow(rows: seq<Checkpoint>, was: Checkpoint)
    requires RowsOk(rows) && was in rows && !was.deleted
    ensures FindRow(rows, was.id) == Some(was)
  {
    SameIdSameRow(rows, was, FindRow(rows, was.id).value);
  }

  /** A checkpoint is archived exactly on an editable route while no active patrol uses it; its row stays, inactive and
      deleted, with its sequence. */
  lemma ArchiveCheckpointWrites(w: World, was: Checkpoint)
    requires RowsOk(w.rows) && was in w.rows && !was.deleted
    ensures var r := CheckpointArchived(w, was.id);
            && (r.Changed? <==> Editable(w, was.routeId) && !InUse(w, was.id))
            && (r.Changed? ==> r.world == w.(rows := r.world.rows)
                               && RowReplaced(w.rows, r.world.rows, was, was.(active := false, deleted := true)))
  {
    hide InUse, RowReplaced, RowsOk;
    FoundRow(w.rows, was);
    WithRowReplaces(w.rows, was, was.(active := false, deleted := true));
  }

  /** A deleted row and an unknown id are not found. */
  lemma MissingCheckpoint(w: World, id: nat, d: CheckpointChange)
    requires forall c <- w.rows :: c.id == id ==> c.deleted
    ensures CheckpointUpdated(w, id, d) == Failed(CheckpointMissing)
    ensures CheckpointArchived(w, id) == Failed(CheckpointMissing)
  {
  }

  /** The snapshots copy the active checkpoints of the route, each once, in sequence order. */
  ghost predicate CopiesRoute(rows: seq<Checkpoint>, routeId: nat, snapshots: seq<Snapshot>) {
    && StrictlyAscending(snapshots, SequenceOf)
    && (forall s <- snapshots :: exists c <- rows :: Copies(s, c, routeId))
    && (forall c <- rows :: c.routeId == routeId && c.active && !c.deleted ==>
          exists s <- snapshots :: Copies(s, c, routeId))
  }

  predicate Copies(s: Snapshot, c: Checkpoint, routeId: nat) {
    s.source == c.id && s.sequence == c.sequence && s.spec == c.spec && s.rules == c.rules
    && c.routeId == routeId && c.active && !c.deleted
  }

  /** A patrol is created exactly under a new id on an active route with active checkpoints, for a valid shift without
      an active patrol of the same route. It has not begun, has no visits, and copies the route. */
  lemma CreatePatrolWrites(w: World, input: PatrolInput)
    requires RowsOk(w.rows)
    ensures var r := PatrolCreated(w, input);
            && (r.Changed? <==>
                  && input.id !in w.patrols && input.routeId in w.routes && !w.routes[input.routeId].deleted
                  && w.routes[input.routeId].status.ACTIVE?
                  && (exists c <- w.rows :: c.routeId == input.routeId && c.active && !c.deleted)
                  && input.shiftValid
                  && (forall k <- w.patrols :: w.patrols[k].routeId == input.routeId
                                               && w.patrols[k].assignmentId == input.assignmentId ==>
                        !Active(w.patrols[k].status)))
            && (r.Changed? ==>
                  && input.id in r.world.patrols
                  && r.world == w.(patrols := w.patrols[input.id := r.world.patrols[input.id]])
                  && var p := r.world.patrols[input.id];
                     p.routeId == input.routeId && p.assignmentId == input.assignmentId && p.status.NOT_STARTED?
                     && p.visits == map[] && p.completedCount == 0 && p.totalCount == |p.snapshots|
                     && CopiesRoute(w.rows, input.routeId, p.snapshots))
  {
    hide ActiveOf, CopiesRoute, RowsOk, Active;
    ActiveOrdered(w.rows, input.routeId);
    SomeActive(w.rows, input.routeId);
    NewPatrolCopies(w.rows, input);
  }

  lemma SomeActive(rows: seq<Checkpoint>, routeId: nat)
    requires RowsOk(rows)
    ensures ActiveOf(rows, routeId) != [] <==> exists c <- rows :: c.routeId == routeId && c.active && !c.deleted
  {
    hide ActiveOf, RowsOk;
    ActiveOrdered(rows, routeId);
    var r := ActiveOf(rows, routeId);
    if r != [] { assert r[0] in r; }
    if c :| c in rows && Usable(c, routeId) { assert c in r; }
  }

  lemma NewPatrolCopies(rows: seq<Checkpoint>, input: PatrolInput)
    requires RowsOk(rows)
    ensures CopiesRoute(rows, input.routeId, NewPatrol(rows, input).snapshots)
  {
    hide ActiveOf, RowsOk;
    ActiveOrdered(rows, input.routeId);
    var cs, ss := ActiveOf(rows, input.routeId), NewPatrol(rows, input).snapshots;
    forall i, j | 0 <= i < j < |ss| ensures SequenceOf(ss[i]) < SequenceOf(ss[j]) {
      assert RowSequence(cs[i]) < RowSequence(cs[j]);
    }
    forall s | s in ss ensures exists c <- rows :: Copies(s, c, input.routeId) {
      var i :| 0 <= i < |ss| && ss[i] == s;
      assert cs[i] in cs && Copies(s, cs[i], input.routeId);
    }
    forall c | c in rows && Usable(c, input.routeId) ensures exists s <- ss :: Copies(s, c, input.routeId) {
      assert c in cs;
      var i :| 0 <= i < |cs| && cs[i] == c;
      assert ss[i] in ss && Copies(ss[i], c, input.routeId);
    }
  }

  /** A batch that is carried out has created all its patrols and changed nothing else. */
  lemma {:induction false} BatchWrites(w: World, inputs: seq<PatrolInput>)
    requires PatrolsCreated(w, inputs).Changed?
    ensures var v := PatrolsCreated(w, inputs).world;
            && v == w.(patrols := v.patrols)
            && (forall i :: 0 <= i < |inputs| ==>
                  inputs[i].id !in w.patrols && inputs[i].id in v.patrols
                  && v.patrols[inputs[i].id] == NewPatrol(w.rows, inputs[i]))
            && (forall k :: (forall i :: 0 <= i < |inputs| ==> inputs[i].id != k) ==>
                  (k in v.patrols <==> k in w.patrols) && (k in w.patrols ==> v.patrols[k] == w.patrols[k]))
    decreases |inputs|
  {
    hide NewPatrol, ActiveOf, ActiveFor, LiveRoute;
    if inputs != [] {
      var first := PatrolCreated(w, inputs[0]).world;
      BatchWrites(first, inputs[1..]);
      CreationLeavesOthers(first, inputs[1..], inputs[0].id);
      var v := PatrolsCreated(w, inputs).world;
      forall i | 0 <= i < |inputs|
        ensures inputs[i].id !in w.patrols && inputs[i].id in v.patrols
                && v.patrols[inputs[i].id] == NewPatrol(w.rows, inputs[i])
      {
        if i > 0 { assert inputs[i] == inputs[1..][i - 1]; }
      }
      forall k | forall i :: 0 <= i < |inputs| ==> inputs[i].id != k
        ensures (k in v.patrols <==> k in w.patrols) && (k in w.patrols ==> v.patrols[k] == w.patrols[k])
      {
        assert forall i :: 0 <= i < |inputs[1..]| ==> inputs[1..][i] == inputs[i + 1];
      }
    }
  }

  /** One more patrol in a batch is created after the others, if they and it can be; otherwise the batch is refused. */
  lemma {:induction false} BatchAppends(w: World, inputs: seq<PatrolInput>, last: PatrolInput)
    ensures PatrolsCreated(w, inputs + [last])
         == var r := PatrolsCreated(w, inputs); if r.Failed? then r else PatrolCreated(r.world, last)
    decreases |inputs|
  {
    hide PatrolCreated;
    if inputs == [] {
      assert inputs + [last] == [last] && [last][1..] == [];
    } else {
      assert (inputs + [last])[1..] == inputs[1..] + [last];
      var first := PatrolCreated(w, inputs[0]);
      if first.Changed? { BatchAppends(first.world, inputs[1..], last); }
    }
  }

  /** A patrol step is made under the mode of the patrol's route and touches that patrol alone. */
  lemma StepWritesPatrol(w: World, id: nat, step: Step)
    requires id in w.patrols && w.patrols[id].routeId in w.routes
    ensures var r := PatrolStepped(w, id, step);
            var s := Apply(w.config, w.routes[w.patrols[id].routeId].sequential, w.patrols[id], step);
            && (r.Changed? <==> s.Done?)
            && (r.Changed? ==>
                  && r.world == w.(patrols := r.world.patrols) && id in r.world.patrols
                  && r.world.patrols[id] == s.patrol
                  && forall k :: k != id ==>
                       (k in r.world.patrols <==> k in w.patrols)
                       && (k in w.patrols ==> r.world.patrols[k] == w.patrols[k]))
  {
    hide Apply;
  }

  /** No two checkpoint rows have the same QR hash. */
  ghost predicate QrUnique(rows: seq<Checkpoint>) {
    forall i, j :: 0 <= i < j < |rows| ==> rows[i].spec.qrHash.Some? ==> rows[i].spec.qrHash != rows[j].spec.qrHash
  }

  lemma CommandKeepsQrUnique(w: World, c: Command)
    requires Coherent(w) && QrUnique(w.rows)
    ensures QrUnique(Next(w, c).rows)
  {
    hide Coherent, PatrolStepped, RouteStatusUpdated, RouteArchived, PatrolsCreated, CheckpointCreated,
      CheckpointUpdated, CheckpointArchived, CheckpointsReordered, QrUnique;
    if Execute(w, c).Changed? {
      match c
      case CreateCheckpoint(id, routeId, input) => CreationKeepsQrUnique(w, id, routeId, input);
      case UpdateCheckpoint(id, d) => UpdateKeepsQrUnique(w, id, d);
      case ArchiveCheckpoint(id) => ArchiveKeepsQrUnique(w, id);
      case ReorderCheckpoints(routeId, items) => ReorderKeepsQrUnique(w, routeId, items);
      case CreatePatrols(inputs) => CreationLeavesRows(w, inputs);
      case StepPatrol(id, step) => StepLeavesRows(w, id, step);
      case UpdateRouteStatus(_, _, _) => RouteCallLeavesRows(w, c);
      case ArchiveRoute(_) => RouteCallLeavesRows(w, c);
      case _ =>
    }
  }

  lemma CreationKeepsQrUnique(w: World, id: nat, routeId: nat, input: CheckpointInput)
    requires QrUnique(w.rows) && CheckpointCreated(w, id, routeId, input).Changed?
    ensures QrUnique(CheckpointCreated(w, id, routeId, input).world.rows)
  {
    hide RouteNotEditable, QrSeen, SequenceSeen, SequenceTaken;
    var rows := CheckpointCreated(w, id, routeId, input).world.rows;
    forall i | 0 <= i < |w.rows| ensures rows[i] == w.rows[i] && w.rows[i] in w.rows { }
  }

  /** Replacing a row keeps the hashes unique if its new hash is its own or new. */
  lemma WithRowKeepsQrUnique(rows: seq<Checkpoint>, c: Checkpoint)
    requires RowsOk(rows) && QrUnique(rows)
    requires c.spec.qrHash.Some? ==> forall o <- rows :: o.id != c.id ==> o.spec.qrHash != c.spec.qrHash
    ensures QrUnique(WithRow(rows, c))
  {
    hide WithRow;
    var r := WithRow(rows, c);
    forall i, j | 0 <= i < j < |r| && r[i].spec.qrHash.Some? ensures r[i].spec.qrHash != r[j].spec.qrHash {
      assert rows[i] in rows && rows[j] in rows && rows[i].id != rows[j].id;
      if rows[i].id != c.id && rows[j].id != c.id { assert rows[i].spec.qrHash != rows[j].spec.qrHash; }
    }
  }

  lemma UpdateKeepsQrUnique(w: World, id: nat, d: CheckpointChange)
    requires Coherent(w) && QrUnique(w.rows) && CheckpointUpdated(w, id, d).Changed?
    ensures QrUnique(CheckpointUpdated(w, id, d).world.rows)
  {
    hide Coherent, QrUnique, RouteNotEditable, QrSeen, SequenceSeen, SequenceTaken, InUse, WithRow, RowsOk;
    CoherentRows(w);
    var was := FindRow(w.rows, id).value;
    WithRowKeepsQrUnique(w.rows, WithChange(was, d));
  }

  lemma ArchiveKeepsQrUnique(w: World, id: nat)
    requires Coherent(w) && QrUnique(w.rows) && CheckpointArchived(w, id).Changed?
    ensures QrUnique(CheckpointArchived(w, id).world.rows)
  {
    hide Coherent, RouteNotEditable, InUse, WithRow;
    CoherentRows(w);
    var was := FindRow(w.rows, id).value;
    var i :| 0 <= i < |w.rows| && w.rows[i] == was;
    WithRowKeepsQrUnique(w.rows, was.(active := false, deleted := true));
  }

  lemma ReorderKeepsQrUnique(w: World, routeId: nat, items: seq<Item>)
    requires Coherent(w) && QrUnique(w.rows) && CheckpointsReordered(w, routeId, items).Changed?
    ensures QrUnique(CheckpointsReordered(w, routeId, items).world.rows)
  {
    hide Coherent, RouteNotEditable, Reorder, RowsOk;
    CoherentRows(w);
    ReorderedRows(w.rows, routeId, items);
  }

  lemma RouteCallLeavesRows(w: World, c: Command)
    requires c.UpdateRouteStatus? || c.ArchiveRoute?
    ensures Next(w, c).rows == w.rows
  {
    hide ActivationFailure, HasActivePatrol;
  }

  lemma StepLeavesRows(w: World, id: nat, step: Step)
    ensures Next(w, StepPatrol(id, step)).rows == w.rows
  {
    hide Apply;
  }

  lemma CoherentRows(w: World)
    requires Coherent(w)
    ensures RowsOk(w.rows) && Positive(w.rows)
  {
  }

  lemma {:induction false} CreationLeavesRows(w: World, inputs: seq<PatrolInput>)
    requires PatrolsCreated(w, inputs).Changed?
    ensures PatrolsCreated(w, inputs).world.rows == w.rows
    decreases |inputs|
  {
    hide NewPatrol, ActiveOf;
    if inputs != [] { CreationLeavesRows(PatrolCreated(w, inputs[0]).world, inputs[1..]); }
  }

  /** QR hashes stay unique, rows that are deleted included, in every run. */
  lemma {:induction false} QrStaysUnique(w: World, run: seq<Command>)
    requires Coherent(w) && QrUnique(w.rows)
    ensures QrUnique(After(w, run).rows)
    decreases |run|
  {
    hide Coherent, Next, QrUnique;
    if run != [] {
      CommandKeepsCoherent(w, run[0]);
      CommandKeepsQrUnique(w, run[0]);
      QrStaysUnique(Next(w, run[0]), run[1..]);
    }
  }

  // ---- Finished patrols ---------------------------------------------------------------------------------------------

  /** The patrol exists with this status, these snapshots and this duty. */
  predicate Keeps(w: World, id: nat, p: Patrol) {
    id in w.patrols && w.patrols[id].status == p.status && w.patrols[id].snapshots == p.snapshots
    && SameDuty(w.patrols[id], p)
  }

  lemma {:induction false} CreationLeavesOthers(w: World, inputs: seq<PatrolInput>, id: nat)
    requires id in w.patrols && PatrolsCreated(w, inputs).Changed?
    ensures var v := PatrolsCreated(w, inputs).world; id in v.patrols && v.patrols[id] == w.patrols[id]
    decreases |inputs|
  {
    hide NewPatrol, ActiveOf;
    if inputs != [] { CreationLeavesOthers(PatrolCreated(w, inputs[0]).world, inputs[1..], id); }
  }

  lemma CommandKeepsFinished(w: World, c: Command, id: nat)
    requires Coherent(w) && id in w.patrols && !Active(w.patrols[id].status)
    ensures Keeps(Next(w, c), id, w.patrols[id])
  {
    hide Apply, Active, PatrolsCreated, ActivationFailure, Reorder, FindRow, PatrolOk, RowsFine, Mirrored, OneActive,
      ArchivedIdle;
    if Execute(w, c).Changed? {
      match c
      case CreatePatrols(inputs) => CreationLeavesOthers(w, inputs, id);
      case StepPatrol(k, step) =>
        if k == id {
          var sequential := w.routes[w.patrols[id].routeId].sequential;
          StatusMoves(w.config, sequential, w.patrols[id], step);
          StepKeepsPatrolOk(w.config, sequential, w.patrols[id], step);
        }
      case _ =>
    }
  }

  /** No service brings a finished patrol back: its status, snapshots, route and assignment are final in every run. */
  lemma {:induction false} FinishedIsFinal(w: World, run: seq<Command>, id: nat)
    requires Coherent(w) && id in w.patrols && !Active(w.patrols[id].status)
    ensures Keeps(After(w, run), id, w.patrols[id])
    decreases |run|
  {
    hide Coherent, Next, Active;
    if run != [] {
      CommandKeepsFinished(w, run[0], id);
      CommandKeepsCoherent(w, run[0]);
      FinishedIsFinal(Next(w, run[0]), run[1..], id);
    }
  }

  // ---- Visits and checkpoints ---------------------------------------------------------------------------------------

  /** In every reachable state an accepted visit was verified against the checkpoint as it stands: the configured
      method, its QR hash, and a distance within its radius plus at most 25 metres of accuracy. */
  lemma VisitMatchesCheckpoint(w: World, id: nat, r: VisitRequest)
    requires Coherent(w) && PatrolStepped(w, id, Visit(r)).Changed?
    ensures exists c <- w.rows ::
      && c.routeId == w.patrols[id].routeId && !c.deleted
      && (c.id == r.checkpoint || exists s <- w.patrols[id].snapshots :: s.id == r.checkpoint && s.source == c.id)
      && r.verification == c.spec.verification
      && (!r.verification.GPS? ==> r.qrHash.Some? && r.qrHash == c.spec.qrHash)
      && (!r.verification.QR_CODE? ==> r.distance <= c.spec.radius as real + 25.0)
  {
    hide PatrolOk, RowsFine, OneActive, ArchivedIdle, FirstOpen, Count, ReviewCount, Find, VerificationError;
    var p := w.patrols[id];
    var s := Find(p.snapshots, r.checkpoint).value;
    FoundIsSnapshot(p.snapshots, r.checkpoint);
    FoundBy(p.snapshots, r.checkpoint);
    VerifiedExactly(w.config, s, r);
    assert AllMirror(w.rows, p);
    assert Mirrors(w.rows, p.routeId, s);
  }

  lemma FoundBy(snapshots: seq<Snapshot>, checkpoint: nat)
    requires Find(snapshots, checkpoint).Some?
    ensures var s := Find(snapshots, checkpoint).value; s.id == checkpoint || s.source == checkpoint
  {
  }

  // ---- What reorder leaves behind -----------------------------------------------------------------------------------

  /** The snapshot has the sequence its checkpoint has now. */
  ghost predicate InStep(rows: seq<Checkpoint>, s: Snapshot) {
    exists c <- rows :: c.id == s.source && c.sequence == s.sequence
  }

  /** Reordering is not refused while patrols are under way: afterwards a snapshot agrees with the order of the route
      exactly when the request gave its checkpoint the sequence that it already had. */
  lemma ReorderLeavesBehindExactly(rows: seq<Checkpoint>, routeId: nat, items: seq<Item>, k: nat, s: Snapshot)
    requires RowsOk(rows) && Positive(rows) && Reorder(rows, routeId, items).Reordered? && NamesDistinct(items)
    requires k < |items| && items[k].checkpointId == s.source
    ensures InStep(Reorder(rows, routeId, items).rows, s) <==> items[k].sequence == s.sequence
  {
    hide RowsOk, Reorder;
    var r := Reorder(rows, routeId, items).rows;
    ReorderedRows(rows, routeId, items);
    NamedIsUsable(rows, routeId, items, k);
    var c :| c in rows && c.id == s.source;
    var i :| 0 <= i < |rows| && rows[i] == c;
    assert r[i] in r && r[i].sequence == items[k].sequence;
    ReorderKeepsRowsOk(rows, routeId, items);
    forall d | d in r && d.id == s.source ensures d == r[i] { SameIdSameRow(r, d, r[i]); }
  }

  lemma NamedIsUsable(rows: seq<Checkpoint>, routeId: nat, items: seq<Item>, k: nat)
    requires RowsOk(rows) && Reorder(rows, routeId, items).Reordered? && k < |items|
    ensures exists c <- rows :: c.id == items[k].checkpointId
  {
    ActiveOrdered(rows, routeId);
    assert items[k] in items && HasRow(ActiveOf(rows, routeId), items[k].checkpointId);
  }

  // ---- The services -------------------------------------------------------------------------------------------------

  class PatrolServices {
    const config: Config
    var routes: map<nat, Route>
    var rows: seq<Checkpoint>
    var patrols: map<nat, Patrol>

    constructor (config: Config)
      ensures Valid() && Tables() == World(config, map[], [], map[])
    {
      this.config := config;
      routes, rows, patrols := map[], [], map[];
    }

    function Tables(): World
      reads this
    {
      World(config, routes, rows, patrols)
    }

    ghost predicate Valid()
      reads this
    {
      Coherent(Tables())
    }

    /** The command was carried out on the tables, or refused and they are as before. */
    ghost predicate Performed(before: World, c: Command, error: Option<TableError>)
      reads this
    {
      var r := Execute(before, c);
      if r.Changed? then error.None? && Tables() == r.world else error == Some(r.error) && Tables() == before
    }

    // Routes

    method PerformCreateRoute(id: nat, sequential: bool, admitted: bool) returns (error: Option<TableError>)
      requires Valid()
      modifies this
      ensures Valid() && Performed(old(Tables()), CreateRoute(id, sequential, admitted), error)
    {
      hide Coherent;
      CommandKeepsCoherent(Tables(), CreateRoute(id, sequential, admitted));
      if id in routes { return Some(IdTaken); }
      if !admitted { return Some(InputInvalid); }
      routes := routes[id := Route(RouteStatus.DRAFT, sequential, false)];
      return None;
    }

    method PerformUpdateRouteStatus(id: nat, status: RouteStatus, siteActive: bool) returns (error: Option<TableError>)
      requires Valid()
      modifies this
      ensures Valid() && Performed(old(Tables()), UpdateRouteStatus(id, status, siteActive), error)
    {
      hide Coherent, ActivationFailure, HasActivePatrol;
      CommandKeepsCoherent(Tables(), UpdateRouteStatus(id, status, siteActive));
      if id !in routes || routes[id].deleted { return Some(RouteNotFound); }
      var route := routes[id];
      if !RouteAllowed(route.status, status) { return Some(RouteStatusInvalid); }
      if status.ACTIVE? {
        if !siteActive { return Some(SiteInactive); }
        var failure := AssertCanActivate(rows, id);
        if failure.Some? { return Some(ActivationFailed(failure.value)); }
      }
      if status.ARCHIVED? {
        if HasActivePatrol(Tables(), id) { return Some(RouteInUse); }
        route := route.(deleted := true);
      }
      routes := routes[id := route.(status := status)];
      return None;
    }

    method PerformArchiveRoute(id: nat) returns (error: Option<TableError>)
      requires Valid()
      modifies this
      ensures Valid() && Performed(old(Tables()), ArchiveRoute(id), error)
    {
      hide Coherent, HasActivePatrol;
      CommandKeepsCoherent(Tables(), ArchiveRoute(id));
      if id !in routes || routes[id].deleted { return Some(RouteNotFound); }
      var route := routes[id];
      if route.status.ARCHIVED? { return None; }
      if HasActivePatrol(Tables(), id) { return Some(RouteInUse); }
      if !RouteAllowed(route.status, RouteStatus.ARCHIVED) { return Some(RouteStatusInvalid); }
      routes := routes[id := route.(status := RouteStatus.ARCHIVED, deleted := true)];
      return None;
    }

    // Checkpoints

    method PerformCreateCheckpoint(id: nat, routeId: nat, input: CheckpointInput) returns (error: Option<TableError>)
      requires Valid()
      modifies this
      ensures Valid() && Performed(old(Tables()), CreateCheckpoint(id, routeId, input), error)
    {
      hide Coherent, HasRow, SequenceSeen, QrSeen, BreaksIndex;
      CommandKeepsCoherent(Tables(), CreateCheckpoint(id, routeId, input));
      if HasRow(rows, id) { return Some(IdTaken); }
      var fixed := RouteNotEditable(Tables(), routeId);
      if fixed.Some? { return fixed; }
      if !input.inRange || input.sequence < 1 { return Some(InputInvalid); }
      if input.spec.verification.MANUAL_SUPERVISOR_OVERRIDE? { return Some(OverrideNotConfigurable); }
      var hash: Option<string> := None;
      if NeedsQr(input.spec.verification) {
        if input.spec.qrHash.None? { return Some(QrMissingForMethod); }
        hash := input.spec.qrHash;
      }
      if SequenceSeen(rows, routeId, input.sequence, None) { return Some(SequenceInUse); }
      if QrSeen(rows, hash, None) { return Some(QrInUse); }
      var c := Checkpoint(id, routeId, input.sequence, input.spec.(qrHash := hash), input.rules, true, false);
      if BreaksIndex(rows, c) { return Some(UniqueIndex); }
      rows := rows + [c];
      return None;
    }

    method PerformUpdateCheckpoint(id: nat, d: CheckpointChange) returns (error: Option<TableError>)
      requires Valid()
      modifies this
      ensures Valid() && Performed(old(Tables()), UpdateCheckpoint(id, d), error)
    {
      hide Coherent, SequenceSeen, QrSeen, BreaksIndex, InUse, FindRow;
      CommandKeepsCoherent(Tables(), UpdateCheckpoint(id, d));
      var found := FindRow(rows, id);
      if found.None? { return Some(CheckpointMissing); }
      var fixed := RouteNotEditable(Tables(), found.value.routeId);
      if fixed.Some? { return fixed; }
      if Guarded(d) && InUse(Tables(), id) { return Some(CheckpointInUse); }
      var c := WithChange(found.value, d);
      if d.qrHash.Some? && QrSeen(rows, d.qrHash.value, Some(id)) { return Some(QrInUse); }
      if QrMissing(c) { return Some(QrMissingForMethod); }
      if c.sequence != found.value.sequence {
        if SequenceSeen(rows, c.routeId, c.sequence, Some(id)) { return Some(SequenceInUse); }
      }
      if !d.inRange || c.sequence < 1 { return Some(InputInvalid); }
      if BreaksIndex(rows, c) { return Some(UniqueIndex); }
      rows := WithRow(rows, c);
      return None;
    }

    method PerformArchiveCheckpoint(id: nat) returns (error: Option<TableError>)
      requires Valid()
      modifies this
      ensures Valid() && Performed(old(Tables()), ArchiveCheckpoint(id), error)
    {
      hide Coherent, InUse, FindRow;
      CommandKeepsCoherent(Tables(), ArchiveCheckpoint(id));
      var found := FindRow(rows, id);
      if found.None? { return Some(CheckpointMissing); }
      var fixed := RouteNotEditable(Tables(), found.value.routeId);
      if fixed.Some? { return fixed; }
      if InUse(Tables(), id) { return Some(CheckpointInUse); }
      rows := WithRow(rows, found.value.(active := false, deleted := true));
      return None;
    }

    /** Two passes over the named rows inside one transaction; a taken sequence rolls everything back. */
    method PerformReorder(routeId: nat, items: seq<Item>) returns (error: Option<TableError>)
      requires Valid()
      modifies this
      ensures Valid() && Performed(old(Tables()), ReorderCheckpoints(routeId, items), error)
    {
      hide Coherent, ActiveOf, SequencesDistinct, Includes, HasRow, SequenceTaken;
      CommandKeepsCoherent(Tables(), ReorderCheckpoints(routeId, items));
      var fixed := RouteNotEditable(Tables(), routeId);
      if fixed.Some? { return fixed; }
      var active := ActiveOf(rows, routeId);
      if |items| != |active| { return Some(ReorderFailed(NotEveryCheckpoint)); }
      if !SequencesDistinct(items) { return Some(ReorderFailed(SequenceConflict)); }
      for k := 1 to |items| + 1
        invariant forall j :: 1 <= j < k ==> Includes(items, j)
      {
        if !Includes(items, k) { return Some(ReorderFailed(NotContiguous)); }
      }
      for i := 0 to |items|
        invariant forall j :: 0 <= j < i ==> HasRow(active, items[j].checkpointId)
      {
        if !HasRow(active, items[i].checkpointId) {
          assert items[i] in items;
          return Some(ReorderFailed(NotOnRoute));
        }
      }
      assert ReorderRefusal(rows, routeId, items).None?;
      var committed := TwoPassUpdate(routeId, items);
      if !committed { return Some(ReorderFailed(UniqueViolation)); }
      return None;
    }

    method TwoPassUpdate(routeId: nat, items: seq<Item>) returns (committed: bool)
      modifies this`rows
      ensures var r := Updated(old(rows), routeId, TwoPhases(items), |TwoPhases(items)|);
              committed == r.Some? && rows == if committed then r.value else old(rows)
    {
      hide SequenceTaken, Updated, TwoPhases;
      var before := rows;
      ghost var updates := TwoPhases(items);
      StartOfUpdates(rows, routeId, items);
      for i := 0 to |items|
        invariant Updated(before, routeId, updates, i) == Some(rows)
      {
        TwoPhasesAt(items, i);
        UpdatedNext(before, routeId, updates, i);
        if SequenceTaken(rows, routeId, -(i + 1), items[i].checkpointId) {
          AbortIsFinal(before, routeId, updates, i + 1);
          rows := before;
          return false;
        }
        rows := WithSequence(rows, items[i].checkpointId, -(i + 1));
      }
      for i := 0 to |items|
        invariant Updated(before, routeId, updates, |items| + i) == Some(rows)
      {
        TwoPhasesAt(items, |items| + i);
        UpdatedNext(before, routeId, updates, |items| + i);
        if SequenceTaken(rows, routeId, items[i].sequence, items[i].checkpointId) {
          AbortIsFinal(before, routeId, updates, |items| + i + 1);
          rows := before;
          return false;
        }
        rows := WithSequence(rows, items[i].checkpointId, items[i].sequence);
      }
      return true;
    }

    lemma StartOfUpdates(rows: seq<Checkpoint>, routeId: nat, items: seq<Item>)
      ensures |TwoPhases(items)| == 2 * |items| && Updated(rows, routeId, TwoPhases(items), 0) == Some(rows)
    {
    }

    // Patrols

    /** createBatch; create is the batch of one. */
    method PerformCreatePatrols(inputs: seq<PatrolInput>) returns (error: Option<TableError>)
      requires Valid()
      modifies this
      ensures Valid() && Performed(old(Tables()), CreatePatrols(inputs), error)
    {
      hide Coherent, PatrolCreated;
      ghost var start := Tables();
      CommandKeepsCoherent(start, CreatePatrols(inputs));
      var before := patrols;
      for i := 0 to |inputs|
        invariant routes == start.routes && rows == start.rows
        invariant PatrolsCreated(start, inputs) == PatrolsCreated(Tables(), inputs[i..])
      {
        var failure := CreateOneInTx(inputs[i]);
        assert inputs[i..][1..] == inputs[i + 1..];
        if failure.Some? {
          patrols := before;
          return failure;
        }
      }
      return None;
    }

    method CreateOneInTx(input: PatrolInput) returns (error: Option<TableError>)
      modifies this`patrols
      ensures var r := PatrolCreated(old(Tables()), input);
              if r.Changed? then error.None? && Tables() == r.world
              else error == Some(r.error) && Tables() == old(Tables())
    {
      hide ActiveOf, ActiveFor;
      if input.id in patrols { return Some(IdTaken); }
      if input.routeId !in routes || routes[input.routeId].deleted { return Some(RouteNotFound); }
      if !routes[input.routeId].status.ACTIVE? { return Some(RouteInactive); }
      var checkpoints := ActiveOf(rows, input.routeId);
      if checkpoints == [] { return Some(NoActiveCheckpoints); }
      if !input.shiftValid { return Some(ShiftInvalid); }
      if ActiveFor(Tables(), input.routeId, input.assignmentId) { return Some(DuplicatePatrol); }
      var snapshots := SnapshotsOf(checkpoints, input.firstSnapshotId);
      patrols := patrols[input.id := Patrol(input.routeId, input.assignmentId, PatrolStatus.NOT_STARTED, snapshots,
                                            map[], 0, |checkpoints|)];
      return None;
    }

    /** The progress of a stored patrol, whose snapshots are in sequence order. */
    method ProgressFor(p: Patrol, visits: map<nat, CheckpointStatus>) returns (progress: Progress)
      requires StrictlyAscending(p.snapshots, SequenceOf)
      ensures progress == ProgressOf(p.snapshots, visits)
    {
      hide Count, FirstOpen;
      SortedIdentity(p.snapshots, SequenceOf);
      progress := Calculate(p.snapshots, visits);
    }

    /** What the services know about a patrol they have loaded. */
    lemma LoadedPatrol(id: nat)
      requires Valid() && id in patrols
      ensures patrols[id].routeId in routes && StrictlyAscending(patrols[id].snapshots, SequenceOf)
      ensures PatrolOk(routes[patrols[id].routeId].sequential, patrols[id])
    {
      hide PatrolOk, RowsFine, Mirrored, OneActive, ArchivedIdle;
      assert PatrolsFine(Tables());
      assert PatrolOk(routes[patrols[id].routeId].sequential, patrols[id]);
      OrderedPatrol(routes[patrols[id].routeId].sequential, patrols[id]);
    }

    method PerformStart(id: nat, drift: nat, deviceActive: bool, clockedIn: bool, inWindow: bool)
      returns (error: Option<TableError>)
      requires Valid()
      modifies this
      ensures Valid()
      ensures Performed(old(Tables()), StepPatrol(id, Start(drift, deviceActive, clockedIn, inWindow)), error)
    {
      CommandKeepsCoherent(Tables(), StepPatrol(id, Start(drift, deviceActive, clockedIn, inWindow)));
      if id !in patrols { return Some(PatrolNotFound); }
      LoadedPatrol(id);
      hide Coherent, StrictlyAscending, PatrolOk;
      var p := patrols[id];
      if p.status.IN_PROGRESS? {
        patrols := patrols[id := p];
        return None;
      }
      if !Allowed(p.status, PatrolStatus.IN_PROGRESS) { return Some(StepRefused(StatusInvalid)); }
      if drift > config.toleranceMinutes * 60_000 { return Some(StepRefused(DeviceTimeInvalid)); }
      if !deviceActive { return Some(StepRefused(DeviceNotActive)); }
      if !clockedIn { return Some(StepRefused(NotClockedIn)); }
      if !inWindow { return Some(StepRefused(NotCurrent)); }
      patrols := patrols[id := p.(status := PatrolStatus.IN_PROGRESS)];
      return None;
    }

    method PerformVisit(id: nat, request: VisitRequest) returns (error: Option<TableError>)
      requires Valid()
      modifies this
      ensures Valid() && Performed(old(Tables()), StepPatrol(id, Visit(request)), error)
    {
      CommandKeepsCoherent(Tables(), StepPatrol(id, Visit(request)));
      if id !in patrols { return Some(PatrolNotFound); }
      LoadedPatrol(id);
      hide Coherent, PatrolOk, StrictlyAscending, VerificationError, Count, FirstOpen, Find, ReviewCount;
      var p := patrols[id];
      if !p.status.IN_PROGRESS? { return Some(StepRefused(StatusInvalid)); }
      var found := Find(p.snapshots, request.checkpoint);
      if found.None? { return Some(StepRefused(CheckpointNotFound)); }
      var s := found.value;
      if Has(p.visits, s, CheckpointStatus.COMPLETED) || Has(p.visits, s, CheckpointStatus.SKIPPED) {
        return Some(StepRefused(AlreadyCompleted));
      }
      if routes[p.routeId].sequential {
        var progress := ProgressFor(p, p.visits);
        if progress.next.Some? && progress.next.value.id != s.id { return Some(StepRefused(OutOfOrder)); }
      }
      var failure := VerificationError(config, s, request);
      if failure.Some? { return Some(StepRefused(failure.value)); }
      var status := CheckpointStatus.COMPLETED;
      if request.drift > config.offlineThresholdMinutes * 60_000 { status := CheckpointStatus.REQUIRES_REVIEW; }
      var visits := p.visits[s.id := status];
      var after := ProgressFor(p, visits);
      p := p.(visits := visits, completedCount := after.completed, totalCount := after.total);
      if after.review > 0 { p := p.(status := PatrolStatus.REQUIRES_REVIEW); }
      patrols := patrols[id := p];
      return None;
    }

    method PerformReviewVisit(id: nat, snapshot: nat, mark: CheckpointStatus,
                              reasonGiven: bool) returns (error: Option<TableError>)
      requires Valid()
      modifies this
      ensures Valid() && Performed(old(Tables()), StepPatrol(id, ReviewVisit(snapshot, mark, reasonGiven)), error)
    {
      CommandKeepsCoherent(Tables(), StepPatrol(id, ReviewVisit(snapshot, mark, reasonGiven)));
      if id !in patrols { return Some(PatrolNotFound); }
      LoadedPatrol(id);
      hide Coherent, PatrolOk, StrictlyAscending, Count, FirstOpen, ReviewCount;
      var p := patrols[id];
      if !mark.COMPLETED? && !mark.SKIPPED? && !mark.MISSED? { return Some(StepRefused(MethodInvalid)); }
      if !reasonGiven { return Some(StepRefused(NoteRequired)); }
      if snapshot !in p.visits { return Some(StepRefused(VisitNotFound)); }
      var visits := p.visits[snapshot := mark];
      var after := ProgressFor(p, visits);
      var was := p.status;
      p := p.(visits := visits, completedCount := after.completed, totalCount := after.total);
      if was.REQUIRES_REVIEW? && after.review == 0 { p := p.(status := PatrolStatus.IN_PROGRESS); }
      patrols := patrols[id := p];
      return None;
    }

    method PerformComplete(id: nat, drift: nat, deviceActive: bool, noteGiven: bool) returns (error: Option<TableError>)
      requires Valid()
      modifies this
      ensures Valid() && Performed(old(Tables()), StepPatrol(id, Complete(drift, deviceActive, noteGiven)), error)
    {
      CommandKeepsCoherent(Tables(), StepPatrol(id, Complete(drift, deviceActive, noteGiven)));
      if id !in patrols { return Some(PatrolNotFound); }
      LoadedPatrol(id);
      hide Coherent, PatrolOk, StrictlyAscending, Count, FirstOpen, ReviewCount;
      var p := patrols[id];
      if p.status.COMPLETED? || p.status.PARTIALLY_COMPLETED? {
        patrols := patrols[id := p];
        return None;
      }
      if drift > config.toleranceMinutes * 60_000 { return Some(StepRefused(DeviceTimeInvalid)); }
      if !deviceActive { return Some(StepRefused(DeviceNotActive)); }
      var progress := ProgressFor(p, p.visits);
      var next := PatrolStatus.COMPLETED;
      if !progress.allRequiredComplete {
        if progress.completed == 0 || !noteGiven { return Some(StepRefused(NotComplete)); }
        next := PatrolStatus.PARTIALLY_COMPLETED;
      }
      if !Allowed(p.status, next) { return Some(StepRefused(StatusInvalid)); }
      patrols := patrols[id := p.(status := next, completedCount := progress.completed, totalCount := progress.total)];
      return None;
    }

    method PerformCancel(id: nat, reasonGiven: bool) returns (error: Option<TableError>)
      requires Valid()
      modifies this
      ensures Valid() && Performed(old(Tables()), StepPatrol(id, Cancel(reasonGiven)), error)
    {
      CommandKeepsCoherent(Tables(), StepPatrol(id, Cancel(reasonGiven)));
      if id !in patrols { return Some(PatrolNotFound); }
      LoadedPatrol(id);
      hide Coherent, PatrolOk, StrictlyAscending;
      var p := patrols[id];
      if !Allowed(p.status, PatrolStatus.CANCELLED) { return Some(StepRefused(StatusInvalid)); }
      if !reasonGiven { return Some(StepRefused(StatusInvalid)); }
      patrols := patrols[id := p.(status := PatrolStatus.CANCELLED)];
      return None;
    }

    method PerformMarkMissed(id: nat, reasonGiven: bool) returns (error: Option<TableError>)
      requires Valid()
      modifies this
      ensures Valid() && Performed(old(Tables()), StepPatrol(id, MarkMissed(reasonGiven)), error)
    {
      CommandKeepsCoherent(Tables(), StepPatrol(id, MarkMissed(reasonGiven)));
      if id !in patrols { return Some(PatrolNotFound); }
      LoadedPatrol(id);
      hide Coherent, PatrolOk, StrictlyAscending, Count, FirstOpen, ReviewCount;
      var p := patrols[id];
      if !Allowed(p.status, PatrolStatus.MISSED) { return Some(StepRefused(StatusInvalid)); }
      if !reasonGiven { return Some(StepRefused(StatusInvalid)); }
      var progress := ProgressFor(p, p.visits);
      var next := PatrolStatus.MISSED;
      if progress.completed > 0 {
        next := PatrolStatus.PARTIALLY_COMPLETED;
        if !Allowed(p.status, next) { return Some(StepRefused(StatusInvalid)); }
      }
      patrols := patrols[id := p.(status := next, completedCount := progress.completed, totalCount := progress.total)];
      return None;
    }
  }

  lemma OrderedPatrol(sequential: bool, p: Patrol)
    requires PatrolOk(sequential, p)
    ensures StrictlyAscending(p.snapshots, SequenceOf)
  {
  }
}
