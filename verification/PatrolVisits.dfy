/** One patrol: its checkpoint snapshots, the visits to them, its progress and its status. */
module PatrolVisits {
  import opened JsText
  import opened Ordering

  datatype Method = GPS | QR_CODE | GPS_AND_QR | MANUAL_SUPERVISOR_OVERRIDE

  datatype CheckpointStatus = PENDING | AVAILABLE | COMPLETED | MISSED | SKIPPED | OUTSIDE_GEOFENCE | REQUIRES_REVIEW

  datatype PatrolStatus =
    | NOT_STARTED | IN_PROGRESS | COMPLETED | PARTIALLY_COMPLETED | MISSED | CANCELLED | REQUIRES_REVIEW

  /** Where a checkpoint is and how a visit to it is verified: coordinates in units of 1e-7 degrees. */
  datatype Spec = Spec(latitude: int, longitude: int, radius: nat, verification: Method, qrHash: Option<string>)

  datatype Rules = Rules(minimumAccuracy: Option<nat>, requiresPhoto: bool, requiresNote: bool)

  /** The copy of a checkpoint that a patrol is walked against. */
  datatype Snapshot = Snapshot(id: nat, source: nat, sequence: int, spec: Spec, rules: Rules)

  /** A patrol assignment with its snapshots in sequence order and its visits, one per visited snapshot. */
  datatype Patrol = Patrol(
    routeId: nat, assignmentId: nat, status: PatrolStatus, snapshots: seq<Snapshot>,
    visits: map<nat, CheckpointStatus>, completedCount: nat, totalCount: nat)

  datatype Error =
    | StatusInvalid | CheckpointNotFound | AlreadyCompleted | OutOfOrder | MethodInvalid
    | DeviceTimeInvalid | DeviceNotActive | CoordinatesInvalid | AccuracyTooLow | OutsideGeofence | QrInvalid
    | EvidenceRequired | NoteRequired | VisitNotFound
    | NotClockedIn | NotCurrent | NotComplete

  datatype Result = Done(patrol: Patrol) | Rejected(error: Error)

  // ---- Status tables ----------------------------------------------------------------------------------------------

  predicate Allowed(from: PatrolStatus, to: PatrolStatus) {
    match from
    case NOT_STARTED => to.IN_PROGRESS? || to.CANCELLED? || to.MISSED?
    case IN_PROGRESS => to.COMPLETED? || to.PARTIALLY_COMPLETED? || to.CANCELLED? || to.MISSED? || to.REQUIRES_REVIEW?
    case REQUIRES_REVIEW => to.COMPLETED? || to.PARTIALLY_COMPLETED? || to.CANCELLED?
    case _ => false
  }

  /** ACTIVE_PATROL_ASSIGNMENT_STATUSES */
  predicate Active(s: PatrolStatus) {
    s.NOT_STARTED? || s.IN_PROGRESS? || s.REQUIRES_REVIEW?
  }

  // ---- Progress ---------------------------------------------------------------------------------------------------

  datatype Progress = Progress(
    total: nat, completed: nat, pending: nat, missed: nat, skipped: nat, review: nat, percentage: int,
    next: Option<Snapshot>, allRequiredComplete: bool)

  /** Math.round */
  function Round(x: real): int {
    (x + 0.5).Floor
  }

  function Percentage(completed: nat, total: nat): int {
    if total == 0 then 0
    else
      var r := Round(completed as real / total as real * 100.0);
      if r > 100 then 100 else r
  }

  lemma RatioAtLeast(c: real, t: real, k: real)
    requires t > 0.0
    ensures c / t >= k <==> c >= k * t
  {
    var q := c / t;
    assert q * t == c;
    if q >= k { assert (q - k) * t >= 0.0; } else { assert (k - q) * t > 0.0; }
  }

  /** The percentage lies between 0 and 100 without the cap, is 100 from 99.5 % on - short of completeness when there
      are 200 checkpoints or more - and 0 below 0.5 %. */
  lemma PercentageMeans(completed: nat, total: nat)
    requires 0 < total && completed <= total
    ensures var p := Percentage(completed, total);
            && p == Round(completed as real / total as real * 100.0) && 0 <= p <= 100
            && (p == 100 <==> 200 * completed >= 199 * total)
            && (p == 0 <==> 200 * completed < total)
  {
    var c, t := completed as real, total as real;
    RatioAtLeast(c, t, 0.995);
    RatioAtLeast(c, t, 0.005);
    RatioAtLeast(c, t, 1.005);
    RatioAtLeast(c, t, 0.0);
  }

  function SequenceOf(s: Snapshot): int {
    s.sequence
  }

  predicate Has(visits: map<nat, CheckpointStatus>, s: Snapshot, status: CheckpointStatus) {
    s.id in visits && visits[s.id] == status
  }

  /** The snapshot has a visit that needs nothing more from the officer. */
  predicate Settled(visits: map<nat, CheckpointStatus>, s: Snapshot) {
    s.id in visits && (visits[s.id].COMPLETED? || visits[s.id].MISSED? || visits[s.id].SKIPPED?)
  }

  /** The visit of the snapshot is completed, missed or skipped. */
  predicate DealtWith(visits: map<nat, CheckpointStatus>, s: Snapshot) {
    Has(visits, s, CheckpointStatus.COMPLETED) || Has(visits, s, CheckpointStatus.MISSED)
    || Has(visits, s, CheckpointStatus.SKIPPED)
  }

  predicate UnderReview(visits: map<nat, CheckpointStatus>, s: Snapshot) {
    s.id in visits && (visits[s.id].REQUIRES_REVIEW? || visits[s.id].OUTSIDE_GEOFENCE?)
  }

  function Count(snapshots: seq<Snapshot>, visits: map<nat, CheckpointStatus>, status: CheckpointStatus): nat {
    if snapshots == [] then 0
    else
      var n := |snapshots| - 1;
      Count(snapshots[..n], visits, status) + if Has(visits, snapshots[n], status) then 1 else 0
  }

  function ReviewCount(snapshots: seq<Snapshot>, visits: map<nat, CheckpointStatus>): nat {
    Count(snapshots, visits, CheckpointStatus.REQUIRES_REVIEW)
    + Count(snapshots, visits, CheckpointStatus.OUTSIDE_GEOFENCE)
  }

  /** The first snapshot in the given order that is not settled. */
  function FirstOpen(snapshots: seq<Snapshot>, visits: map<nat, CheckpointStatus>): (r: Option<Snapshot>)
    ensures r.None? ==> forall s <- snapshots :: Settled(visits, s)
    ensures r.Some? ==> exists k :: 0 <= k < |snapshots| && snapshots[k] == r.value && !Settled(visits, r.value)
                                    && forall j :: 0 <= j < k ==> Settled(visits, snapshots[j])
  {
    if snapshots == [] then None
    else
      var n := |snapshots| - 1;
      var before := FirstOpen(snapshots[..n], visits);
      assert snapshots == snapshots[..n] + [snapshots[n]];
      if before.Some? then before
      else if !Settled(visits, snapshots[n]) then Some(snapshots[n]) else None
  }

  function ProgressOf(ordered: seq<Snapshot>, visits: map<nat, CheckpointStatus>): Progress {
    var completed := Count(ordered, visits, CheckpointStatus.COMPLETED);
    var missed := Count(ordered, visits, CheckpointStatus.MISSED);
    var skipped := Count(ordered, visits, CheckpointStatus.SKIPPED);
    var pending := |ordered| - completed - missed - skipped;
    Progress(|ordered|, completed, if pending < 0 then 0 else pending, missed, skipped, ReviewCount(ordered, visits),
             Percentage(completed, |ordered|), FirstOpen(ordered, visits), |ordered| > 0 && completed == |ordered|)
  }

  /** One more snapshot counted. */
  lemma ProgressStep(ordered: seq<Snapshot>, visits: map<nat, CheckpointStatus>, i: nat)
    requires i < |ordered|
    ensures forall status: CheckpointStatus ::
              Count(ordered[..i + 1], visits, status)
              == Count(ordered[..i], visits, status) + if Has(visits, ordered[i], status) then 1 else 0
    ensures ReviewCount(ordered[..i + 1], visits)
         == ReviewCount(ordered[..i], visits) + if UnderReview(visits, ordered[i]) then 1 else 0
    ensures FirstOpen(ordered[..i + 1], visits) ==
              var before := FirstOpen(ordered[..i], visits);
              if before.Some? || Settled(visits, ordered[i]) then before else Some(ordered[i])
  {
    assert ordered[..i + 1][..i] == ordered[..i];
  }

  lemma NothingToCount(visits: map<nat, CheckpointStatus>)
    ensures forall status: CheckpointStatus :: Count([], visits, status) == 0
    ensures ReviewCount([], visits) == 0
    ensures FirstOpen([], visits).None?
  {
  }

  method PercentageOf(completed: nat, total: nat) returns (percentage: int)
    ensures percentage == Percentage(completed, total)
  {
    percentage := 0;
    if total > 0 {
      percentage := Round(completed as real / total as real * 100.0);
      if percentage > 100 { percentage := 100; }
    }
  }

  method Calculate(snapshots: seq<Snapshot>, visits: map<nat, CheckpointStatus>) returns (r: Progress)
    ensures r == ProgressOf(Sorted(snapshots, SequenceOf), visits)
  {
    hide Count, FirstOpen, ReviewCount, Percentage;
    var ordered := Sorted(snapshots, SequenceOf);
    var completed, missed, skipped, review := 0, 0, 0, 0;
    var next: Option<Snapshot> := None;
    NothingToCount(visits);
    for i := 0 to |ordered|
      invariant completed == Count(ordered[..i], visits, CheckpointStatus.COMPLETED)
      invariant missed == Count(ordered[..i], visits, CheckpointStatus.MISSED)
      invariant skipped == Count(ordered[..i], visits, CheckpointStatus.SKIPPED)
      invariant review == ReviewCount(ordered[..i], visits)
      invariant next == FirstOpen(ordered[..i], visits)
    {
      ProgressStep(ordered, visits, i);
      var s := ordered[i];
      if Has(visits, s, CheckpointStatus.COMPLETED) {
        completed := completed + 1;
      } else if Has(visits, s, CheckpointStatus.MISSED) {
        missed := missed + 1;
      } else if Has(visits, s, CheckpointStatus.SKIPPED) {
        skipped := skipped + 1;
      } else if UnderReview(visits, s) {
        review := review + 1;
        if next.None? { next := Some(s); }
      } else if next.None? {
        next := Some(s);
      }
    }
    assert ordered[..|ordered|] == ordered;
    var total := |ordered|;
    var pending := total - completed - missed - skipped;
    if pending < 0 { pending := 0; }
    var percentage := PercentageOf(completed, total);
    var allComplete := total > 0 && completed == total;
    r := Progress(total, completed, pending, missed, skipped, review, percentage, next, allComplete);
  }

  lemma {:induction false} CountBounds(snapshots: seq<Snapshot>, visits: map<nat, CheckpointStatus>)
    ensures Count(snapshots, visits, CheckpointStatus.COMPLETED) + Count(snapshots, visits, CheckpointStatus.MISSED)
            + Count(snapshots, visits, CheckpointStatus.SKIPPED) + ReviewCount(snapshots, visits) <= |snapshots|
  {
    if snapshots != [] { CountBounds(snapshots[..|snapshots| - 1], visits); }
  }

  lemma {:induction false} CountAll(snapshots: seq<Snapshot>, visits: map<nat, CheckpointStatus>,
                                    status: CheckpointStatus)
    ensures Count(snapshots, visits, status) <= |snapshots|
    ensures Count(snapshots, visits, status) == |snapshots| <==> forall s <- snapshots :: Has(visits, s, status)
  {
    if snapshots != [] {
      var n := |snapshots| - 1;
      CountAll(snapshots[..n], visits, status);
      assert snapshots == snapshots[..n] + [snapshots[n]];
    }
  }

  lemma {:induction false} CountSome(snapshots: seq<Snapshot>, visits: map<nat, CheckpointStatus>,
                                     status: CheckpointStatus)
    ensures Count(snapshots, visits, status) > 0 <==> exists s <- snapshots :: Has(visits, s, status)
  {
    if snapshots != [] {
      var n := |snapshots| - 1;
      CountSome(snapshots[..n], visits, status);
      assert snapshots == snapshots[..n] + [snapshots[n]];
    }
  }

  lemma {:induction false} CountInsert(s: seq<Snapshot>, x: Snapshot, visits: map<nat, CheckpointStatus>,
                                       status: CheckpointStatus)
    ensures Count(Insert(s, SequenceOf, x), visits, status)
         == Count(s, visits, status) + if Has(visits, x, status) then 1 else 0
  {
    if s == [] || SequenceOf(s[|s| - 1]) <= SequenceOf(x) {
      assert (s + [x])[..|s|] == s;
    } else {
      var n := |s| - 1;
      CountInsert(s[..n], x, visits, status);
      var front := Insert(s[..n], SequenceOf, x);
      assert (front + [s[n]])[..|front|] == front;
    }
  }

  /** The positions of the snapshots whose visit has this status. */
  function Those(snapshots: seq<Snapshot>, visits: map<nat, CheckpointStatus>, status: CheckpointStatus): set<nat> {
    set i: nat | i < |snapshots| && Has(visits, snapshots[i], status)
  }

  lemma {:induction false} CountIsNumber(snapshots: seq<Snapshot>, visits: map<nat, CheckpointStatus>,
                                         status: CheckpointStatus)
    ensures Count(snapshots, visits, status) == |Those(snapshots, visits, status)|
  {
    if snapshots != [] {
      var n := |snapshots| - 1;
      CountIsNumber(snapshots[..n], visits, status);
      assert Those(snapshots, visits, status)
          == Those(snapshots[..n], visits, status) + if Has(visits, snapshots[n], status) then {n} else {};
    }
  }

  lemma ReviewsAre(snapshots: seq<Snapshot>, visits: map<nat, CheckpointStatus>)
    ensures ReviewCount(snapshots, visits) == Count(snapshots, visits, CheckpointStatus.REQUIRES_REVIEW)
                                              + Count(snapshots, visits, CheckpointStatus.OUTSIDE_GEOFENCE)
  {
  }

  lemma {:induction false} CountSorted(s: seq<Snapshot>, visits: map<nat, CheckpointStatus>, status: CheckpointStatus)
    ensures Count(Sorted(s, SequenceOf), visits, status) == Count(s, visits, status)
  {
    if s != [] {
      var n := |s| - 1;
      CountSorted(s[..n], visits, status);
      CountInsert(Sorted(s[..n], SequenceOf), s[n], visits, status);
    }
  }

  /** The next checkpoint of ordered snapshots is an open one, and no open one has a smaller sequence. */
  lemma NextIsLeast(ordered: seq<Snapshot>, visits: map<nat, CheckpointStatus>)
    requires Ascending(ordered, SequenceOf)
    ensures var next := FirstOpen(ordered, visits);
            && (next.None? <==> forall s <- ordered :: Settled(visits, s))
            && (next.Some? ==> next.value in ordered && !Settled(visits, next.value)
                               && forall s <- ordered :: !Settled(visits, s) ==> next.value.sequence <= s.sequence)
  {
    hide Settled;
    var next := FirstOpen(ordered, visits);
    if next.Some? {
      var k :| 0 <= k < |ordered| && ordered[k] == next.value && !Settled(visits, next.value)
               && forall j :: 0 <= j < k ==> Settled(visits, ordered[j]);
      assert ordered[k] in ordered;
      forall s <- ordered | !Settled(visits, s) ensures next.value.sequence <= s.sequence {
        var i :| 0 <= i < |ordered| && ordered[i] == s;
        assert i >= k;
        assert i > k ==> SequenceOf(ordered[k]) <= SequenceOf(ordered[i]);
      }
    }
  }

  /** What calculate reports, in whatever order the snapshots come: the clamp on pending never bites, the next
      checkpoint is an open one with the least sequence number, and everything is complete only when every snapshot
      is. */
  lemma ProgressMeans(snapshots: seq<Snapshot>, visits: map<nat, CheckpointStatus>)
    ensures var r := ProgressOf(Sorted(snapshots, SequenceOf), visits);
            && r.total == |snapshots|
            && r.completed == |Those(snapshots, visits, CheckpointStatus.COMPLETED)|
            && r.missed == |Those(snapshots, visits, CheckpointStatus.MISSED)|
            && r.skipped == |Those(snapshots, visits, CheckpointStatus.SKIPPED)|
            && r.review == |Those(snapshots, visits, CheckpointStatus.REQUIRES_REVIEW)|
                           + |Those(snapshots, visits, CheckpointStatus.OUTSIDE_GEOFENCE)|
            && r.pending == |snapshots| - r.completed - r.missed - r.skipped && r.pending >= r.review
            && (r.next.None? <==> forall s <- snapshots :: DealtWith(visits, s))
            && (r.next.Some? ==> r.next.value in snapshots && !DealtWith(visits, r.next.value))
            && (r.next.Some? ==>
                  forall s <- snapshots :: !DealtWith(visits, s) ==> r.next.value.sequence <= s.sequence)
            && (r.allRequiredComplete <==>
                  snapshots != [] && forall s <- snapshots :: Has(visits, s, CheckpointStatus.COMPLETED))
  {
    hide Count, FirstOpen, Settled, DealtWith, Has, Ascending, Sorted, ReviewCount, Those;
    var ordered := Sorted(snapshots, SequenceOf);
    SortedSorts(snapshots, SequenceOf);
    CountBounds(ordered, visits);
    forall status: CheckpointStatus
      ensures Count(ordered, visits, status) == |Those(snapshots, visits, status)|
    {
      CountSorted(snapshots, visits, status);
      CountIsNumber(snapshots, visits, status);
    }
    ReviewsAre(ordered, visits);
    CountAll(ordered, visits, CheckpointStatus.COMPLETED);
    NextIsLeast(ordered, visits);
    forall s ensures Settled(visits, s) <==> DealtWith(visits, s) { SettledMeans(visits, s); }
  }

  lemma SettledMeans(visits: map<nat, CheckpointStatus>, s: Snapshot)
    ensures Settled(visits, s) <==> DealtWith(visits, s)
  {
  }

  // ---- Steps --------------------------------------------------------------------------------------------------------

  /** patrol.deviceTimeToleranceMinutes and patrol.offlineReviewThresholdMinutes */
  datatype Config = Config(toleranceMinutes: nat, offlineThresholdMinutes: nat)

  const DEFAULT_CONFIG := Config(10, 30)

  /** What an officer submits, with the device's distance from the snapshot and its clock drift against the server. */
  datatype VisitRequest = VisitRequest(
    checkpoint: nat, verification: Method, drift: nat, deviceActive: bool, coordinatesValid: bool,
    accuracy: real, distance: real, qrHash: Option<string>, evidence: bool, note: bool)

  datatype Step =
    | Start(drift: nat, deviceActive: bool, clockedIn: bool, inWindow: bool)
    | Visit(request: VisitRequest)
    | ReviewVisit(snapshot: nat, mark: CheckpointStatus, reasonGiven: bool)
    | Complete(drift: nat, deviceActive: bool, noteGiven: bool)
    | Cancel(reasonGiven: bool)
    | MarkMissed(reasonGiven: bool)

  function FindBy(snapshots: seq<Snapshot>, checkpoint: nat, bySource: bool): (r: Option<Snapshot>)
    ensures r.Some? ==> r.value in snapshots && (if bySource then r.value.source else r.value.id) == checkpoint
    ensures r.None? ==> forall s <- snapshots :: (if bySource then s.source else s.id) != checkpoint
  {
    if snapshots == [] then None
    else if (if bySource then snapshots[0].source else snapshots[0].id) == checkpoint then Some(snapshots[0])
    else FindBy(snapshots[1..], checkpoint, bySource)
  }

  /** The snapshot with this id, or else the one copied from the checkpoint with this id. */
  function Find(snapshots: seq<Snapshot>, checkpoint: nat): Option<Snapshot> {
    var direct := FindBy(snapshots, checkpoint, false);
    if direct.Some? then direct else FindBy(snapshots, checkpoint, true)
  }

  function AccuracyBuffer(accuracy: real): real {
    var atLeast := if accuracy < 0.0 then 0.0 else accuracy;
    if atLeast > 25.0 then 25.0 else atLeast
  }

  function LeastAccuracy(s: Snapshot): real {
    if s.rules.minimumAccuracy.Some? then s.rules.minimumAccuracy.value as real else 50.0
  }

  predicate NeedsGps(m: Method) {
    m.GPS? || m.GPS_AND_QR?
  }

  predicate NeedsQr(m: Method) {
    m.QR_CODE? || m.GPS_AND_QR?
  }

  /** The checks on a visit that do not depend on the other visits, in order. */
  function VerificationError(config: Config, s: Snapshot, r: VisitRequest): Option<Error> {
    if r.verification.MANUAL_SUPERVISOR_OVERRIDE? || r.verification != s.spec.verification then Some(MethodInvalid)
    else if r.drift > config.toleranceMinutes * 60_000 then Some(DeviceTimeInvalid)
    else if !r.deviceActive then Some(DeviceNotActive)
    else if !r.coordinatesValid then Some(CoordinatesInvalid)
    else if r.accuracy > LeastAccuracy(s) then Some(AccuracyTooLow)
    else if NeedsGps(r.verification) && r.distance > s.spec.radius as real + AccuracyBuffer(r.accuracy) then
      Some(OutsideGeofence)
    else if NeedsQr(r.verification) && (r.qrHash.None? || r.qrHash != s.spec.qrHash) then Some(QrInvalid)
    else if s.rules.requiresPhoto && !r.evidence then Some(EvidenceRequired)
    else if s.rules.requiresNote && !r.note then Some(NoteRequired)
    else None
  }

  function VisitOutcome(config: Config, r: VisitRequest): CheckpointStatus {
    if r.drift > config.offlineThresholdMinutes * 60_000 then CheckpointStatus.REQUIRES_REVIEW
    else CheckpointStatus.COMPLETED
  }

  /** The visit row of one snapshot is written and the counters of the patrol are counted again. */
  function Recorded(p: Patrol, snapshot: nat, status: CheckpointStatus): Patrol {
    var visits := p.visits[snapshot := status];
    p.(visits := visits, completedCount := Count(p.snapshots, visits, CheckpointStatus.COMPLETED),
       totalCount := |p.snapshots|)
  }

  function PerformVisit(config: Config, sequential: bool, p: Patrol, r: VisitRequest): Result {
    var found := Find(p.snapshots, r.checkpoint);
    if !p.status.IN_PROGRESS? then Rejected(StatusInvalid)
    else if found.None? then Rejected(CheckpointNotFound)
    else
      var s := found.value;
      var next := FirstOpen(p.snapshots, p.visits);
      if Has(p.visits, s, CheckpointStatus.COMPLETED) || Has(p.visits, s, CheckpointStatus.SKIPPED) then
        Rejected(AlreadyCompleted)
      else if sequential && next.Some? && next.value.id != s.id then Rejected(OutOfOrder)
      else if VerificationError(config, s, r).Some? then Rejected(VerificationError(config, s, r).value)
      else
        var q := Recorded(p, s.id, VisitOutcome(config, r));
        Done(if ReviewCount(q.snapshots, q.visits) > 0 then q.(status := PatrolStatus.REQUIRES_REVIEW) else q)
  }

  /** approve marks COMPLETED, reject MISSED, override any of the three. */
  function Reviewed(p: Patrol, snapshot: nat, mark: CheckpointStatus, reasonGiven: bool): Result {
    if !(mark.COMPLETED? || mark.MISSED? || mark.SKIPPED?) then Rejected(MethodInvalid)
    else if !reasonGiven then Rejected(NoteRequired)
    else if snapshot !in p.visits then Rejected(VisitNotFound)
    else
      var q := Recorded(p, snapshot, mark);
      var settled := p.status.REQUIRES_REVIEW? && ReviewCount(q.snapshots, q.visits) == 0;
      Done(if settled then q.(status := PatrolStatus.IN_PROGRESS) else q)
  }

  function Started(config: Config, p: Patrol, drift: nat, deviceActive: bool, clockedIn: bool, inWindow: bool): Result {
    if p.status.IN_PROGRESS? then Done(p)
    else if !Allowed(p.status, PatrolStatus.IN_PROGRESS) then Rejected(StatusInvalid)
    else if drift > config.toleranceMinutes * 60_000 then Rejected(DeviceTimeInvalid)
    else if !deviceActive then Rejected(DeviceNotActive)
    else if !clockedIn then Rejected(NotClockedIn)
    else if !inWindow then Rejected(NotCurrent)
    else Done(p.(status := PatrolStatus.IN_PROGRESS))
  }

  function Finished(p: Patrol, status: PatrolStatus): Patrol {
    p.(status := status, completedCount := Count(p.snapshots, p.visits, CheckpointStatus.COMPLETED),
       totalCount := |p.snapshots|)
  }

  function Completed(config: Config, p: Patrol, drift: nat, deviceActive: bool, noteGiven: bool): Result {
    if p.status.COMPLETED? || p.status.PARTIALLY_COMPLETED? then Done(p)
    else if drift > config.toleranceMinutes * 60_000 then Rejected(DeviceTimeInvalid)
    else if !deviceActive then Rejected(DeviceNotActive)
    else
      var progress := ProgressOf(p.snapshots, p.visits);
      if progress.allRequiredComplete then
        if Allowed(p.status, PatrolStatus.COMPLETED) then Done(Finished(p, PatrolStatus.COMPLETED))
        else Rejected(StatusInvalid)
      else if progress.completed > 0 then
        if !noteGiven then Rejected(NotComplete)
        else if Allowed(p.status, PatrolStatus.PARTIALLY_COMPLETED) then
          Done(Finished(p, PatrolStatus.PARTIALLY_COMPLETED))
        else Rejected(StatusInvalid)
      else Rejected(NotComplete)
  }

  function Cancelled(p: Patrol, reasonGiven: bool): Result {
    if !Allowed(p.status, PatrolStatus.CANCELLED) || !reasonGiven then Rejected(StatusInvalid)
    else Done(p.(status := PatrolStatus.CANCELLED))
  }

  function MarkedMissed(p: Patrol, reasonGiven: bool): Result {
    if !Allowed(p.status, PatrolStatus.MISSED) || !reasonGiven then Rejected(StatusInvalid)
    else if Count(p.snapshots, p.visits, CheckpointStatus.COMPLETED) > 0 then
      if Allowed(p.status, PatrolStatus.PARTIALLY_COMPLETED) then Done(Finished(p, PatrolStatus.PARTIALLY_COMPLETED))
      else Rejected(StatusInvalid)
    else Done(Finished(p, PatrolStatus.MISSED))
  }

  function Apply(config: Config, sequential: bool, p: Patrol, step: Step): Result {
    match step
    case Start(drift, deviceActive, clockedIn, inWindow) => Started(config, p, drift, deviceActive, clockedIn, inWindow)
    case Visit(request) => PerformVisit(config, sequential, p, request)
    case ReviewVisit(snapshot, mark, reasonGiven) => Reviewed(p, snapshot, mark, reasonGiven)
    case Complete(drift, deviceActive, noteGiven) => Completed(config, p, drift, deviceActive, noteGiven)
    case Cancel(reasonGiven) => Cancelled(p, reasonGiven)
    case MarkMissed(reasonGiven) => MarkedMissed(p, reasonGiven)
  }

  function Next(config: Config, sequential: bool, p: Patrol, step: Step): Patrol {
    var r := Apply(config, sequential, p, step);
    if r.Done? then r.patrol else p
  }

  function After(config: Config, sequential: bool, p: Patrol, run: seq<Step>): Patrol
    decreases |run|
  {
    if run == [] then p else After(config, sequential, Next(config, sequential, p, run[0]), run[1..])
  }

  // ---- What every step keeps ----------------------------------------------------------------------------------------

  ghost predicate SnapshotsOk(snapshots: seq<Snapshot>) {
    && StrictlyAscending(snapshots, SequenceOf)
    && (forall i, j :: 0 <= i < j < |snapshots| ==> snapshots[i].id != snapshots[j].id)
  }

  ghost predicate IsSnapshot(snapshots: seq<Snapshot>, id: nat) {
    exists s <- snapshots :: s.id == id
  }

  ghost predicate VisitsOk(p: Patrol) {
    forall id <- p.visits ::
      && IsSnapshot(p.snapshots, id)
      && (p.visits[id].COMPLETED? || p.visits[id].MISSED? || p.visits[id].SKIPPED? || p.visits[id].REQUIRES_REVIEW?)
  }

  /** The snapshots that have a visit come first in sequence order. */
  ghost predicate VisitedPrefix(p: Patrol) {
    forall i, j :: 0 <= i < j < |p.snapshots| && p.snapshots[j].id in p.visits ==> p.snapshots[i].id in p.visits
  }

  ghost predicate AtMostOneReview(visits: map<nat, CheckpointStatus>) {
    forall a, b :: a in visits && b in visits && visits[a].REQUIRES_REVIEW? && visits[b].REQUIRES_REVIEW? ==> a == b
  }

  ghost predicate AnyReview(visits: map<nat, CheckpointStatus>) {
    exists id <- visits :: visits[id].REQUIRES_REVIEW?
  }

  ghost predicate StatusAgrees(p: Patrol) {
    && (p.status.NOT_STARTED? ==> p.visits == map[])
    && (p.status.IN_PROGRESS? ==> !AnyReview(p.visits))
    && (p.status.REQUIRES_REVIEW? ==> AnyReview(p.visits))
    && AtMostOneReview(p.visits)
  }

  predicate CountsExact(p: Patrol) {
    p.completedCount == Count(p.snapshots, p.visits, CheckpointStatus.COMPLETED) && p.totalCount == |p.snapshots|
  }

  ghost predicate PatrolOk(sequential: bool, p: Patrol) {
    SnapshotsOk(p.snapshots) && VisitsOk(p) && StatusAgrees(p) && CountsExact(p) && (sequential ==> VisitedPrefix(p))
  }

  lemma ReviewCountIsAnyReview(p: Patrol)
    requires VisitsOk(p)
    ensures ReviewCount(p.snapshots, p.visits) > 0 <==> AnyReview(p.visits)
  {
    CountSome(p.snapshots, p.visits, CheckpointStatus.REQUIRES_REVIEW);
    CountSome(p.snapshots, p.visits, CheckpointStatus.OUTSIDE_GEOFENCE);
    if AnyReview(p.visits) {
      var id :| id in p.visits && p.visits[id].REQUIRES_REVIEW?;
      var s :| s in p.snapshots && s.id == id;
      assert Has(p.visits, s, CheckpointStatus.REQUIRES_REVIEW);
    }
  }

  lemma VisitExtendsPrefix(p: Patrol, s: Snapshot, status: CheckpointStatus)
    requires SnapshotsOk(p.snapshots) && VisitedPrefix(p) && s in p.snapshots
    requires var next := FirstOpen(p.snapshots, p.visits); next.None? || next.value.id == s.id
    ensures VisitedPrefix(Recorded(p, s.id, status))
  {
    hide Count;
    var q := Recorded(p, s.id, status);
    forall i, j | 0 <= i < j < |q.snapshots| && q.snapshots[j].id in q.visits ensures q.snapshots[i].id in q.visits {
      if q.snapshots[j].id !in p.visits {
        assert q.snapshots[j].id == s.id;
        assert p.snapshots[i] in p.snapshots;
      }
    }
  }

  lemma RecordedVisits(p: Patrol, s: Snapshot, status: CheckpointStatus)
    requires VisitsOk(p) && s in p.snapshots
    requires status.COMPLETED? || status.MISSED? || status.SKIPPED? || status.REQUIRES_REVIEW?
    ensures VisitsOk(Recorded(p, s.id, status)) && CountsExact(Recorded(p, s.id, status))
    ensures AnyReview(Recorded(p, s.id, status).visits) <==>
              status.REQUIRES_REVIEW? || exists id <- p.visits :: id != s.id && p.visits[id].REQUIRES_REVIEW?
  {
    hide Count;
    var q := Recorded(p, s.id, status);
    assert s.id in q.visits;
    forall id | id in p.visits && id != s.id ensures q.visits[id] == p.visits[id] { }
  }

  lemma VisitKeeps(config: Config, sequential: bool, p: Patrol, r: VisitRequest)
    requires PatrolOk(sequential, p) && PerformVisit(config, sequential, p, r).Done?
    ensures PatrolOk(sequential, PerformVisit(config, sequential, p, r).patrol)
    ensures PerformVisit(config, sequential, p, r).patrol.status.REQUIRES_REVIEW?
       <==> VisitOutcome(config, r).REQUIRES_REVIEW?
  {
    hide VerificationError, Count, ReviewCount, FirstOpen, VisitedPrefix, SnapshotsOk;
    var s := Find(p.snapshots, r.checkpoint).value;
    var status := VisitOutcome(config, r);
    RecordedVisits(p, s, status);
    var q := Recorded(p, s.id, status);
    ReviewCountIsAnyReview(q);
    if sequential { VisitExtendsPrefix(p, s, status); }
    assert VisitsOk(q) && CountsExact(q);
    VisitedAlike(q, PerformVisit(config, sequential, p, r).patrol);
  }

  /** The prefix property reads only the snapshots and the visits. */
  lemma VisitedAlike(p: Patrol, q: Patrol)
    requires p.snapshots == q.snapshots && p.visits == q.visits
    ensures VisitedPrefix(p) <==> VisitedPrefix(q)
  {
  }

  lemma ReviewKeeps(sequential: bool, p: Patrol, snapshot: nat, mark: CheckpointStatus, reasonGiven: bool)
    requires PatrolOk(sequential, p) && Reviewed(p, snapshot, mark, reasonGiven).Done?
    ensures PatrolOk(sequential, Reviewed(p, snapshot, mark, reasonGiven).patrol)
  {
    hide Count, ReviewCount, SnapshotsOk;
    var s :| s in p.snapshots && s.id == snapshot;
    RecordedVisits(p, s, mark);
    ReviewCountIsAnyReview(Recorded(p, snapshot, mark));
  }

  /** Every step keeps: the visited snapshots first in sequence order on a sequential route, at most one visit under
      review, the status in agreement with the visits, and the stored counts equal to the recomputed ones. */
  lemma StepKeepsPatrolOk(config: Config, sequential: bool, p: Patrol, step: Step)
    requires PatrolOk(sequential, p)
    ensures PatrolOk(sequential, Next(config, sequential, p, step))
    ensures Next(config, sequential, p, step).snapshots == p.snapshots
  {
    hide SnapshotsOk, VisitsOk, VisitedPrefix, Count;
    var q := Next(config, sequential, p, step);
    match step
    case Visit(r) =>
      if Apply(config, sequential, p, step).Done? { VisitKeeps(config, sequential, p, r); }
      assert q.snapshots == p.snapshots;
    case ReviewVisit(snapshot, mark, reasonGiven) =>
      if Apply(config, sequential, p, step).Done? { ReviewKeeps(sequential, p, snapshot, mark, reasonGiven); }
    case _ =>
      assert q.snapshots == p.snapshots && q.visits == p.visits;
      VisitedAlike(p, q);
      VisitsAlike(p, q);
  }

  lemma VisitsAlike(p: Patrol, q: Patrol)
    requires p.snapshots == q.snapshots && p.visits == q.visits
    ensures VisitsOk(p) <==> VisitsOk(q)
  {
  }

  lemma {:induction false} PatrolSafety(config: Config, sequential: bool, p: Patrol, run: seq<Step>)
    requires PatrolOk(sequential, p)
    ensures PatrolOk(sequential, After(config, sequential, p, run))
    ensures After(config, sequential, p, run).snapshots == p.snapshots
    decreases |run|
  {
    hide PatrolOk, Next;
    if run != [] {
      StepKeepsPatrolOk(config, sequential, p, run[0]);
      PatrolSafety(config, sequential, Next(config, sequential, p, run[0]), run[1..]);
    }
  }

  // ---- Status changes -----------------------------------------------------------------------------------------------

  /** A status changes along the table, or back from review when the last review is settled; a finished patrol stays as
      it is. */
  lemma StatusMoves(config: Config, sequential: bool, p: Patrol, step: Step)
    requires PatrolOk(sequential, p)
    ensures var q := Next(config, sequential, p, step);
            && (q.status == p.status || Allowed(p.status, q.status)
                || (step.ReviewVisit? && p.status.REQUIRES_REVIEW? && q.status.IN_PROGRESS?))
            && (Active(q.status) ==> Active(p.status))
            && (!Active(p.status) ==> q.status == p.status)
            && (q.routeId == p.routeId && q.assignmentId == p.assignmentId)
  {
    hide Count, FirstOpen, VerificationError, Find, ReviewCount;
  }

  /** Completion happens only from IN_PROGRESS and only with every snapshot completed, although the table would also
      let a patrol under review complete. */
  lemma CompletedOnlyWhenFull(config: Config, sequential: bool, p: Patrol, step: Step)
    requires PatrolOk(sequential, p)
    ensures var q := Next(config, sequential, p, step);
            q.status.COMPLETED? && !p.status.COMPLETED? ==>
              && step.Complete? && p.status.IN_PROGRESS? && q.snapshots != [] && q.completedCount == q.totalCount
              && (forall s <- q.snapshots :: Has(q.visits, s, CheckpointStatus.COMPLETED))
  {
    hide FirstOpen, VerificationError, Find, ReviewCount, Count, VisitedPrefix;
    CountAll(p.snapshots, p.visits, CheckpointStatus.COMPLETED);
    if p.status.REQUIRES_REVIEW? { NotFullUnderReview(p); }
  }

  lemma NotFullUnderReview(p: Patrol)
    requires VisitsOk(p) && AnyReview(p.visits)
    ensures exists s <- p.snapshots :: !Has(p.visits, s, CheckpointStatus.COMPLETED)
  {
    var id :| id in p.visits && p.visits[id].REQUIRES_REVIEW?;
    var s :| s in p.snapshots && s.id == id;
    assert !Has(p.visits, s, CheckpointStatus.COMPLETED);
  }

  /** The converse: a patrol in progress is completed by a well-formed request exactly when every snapshot is. */
  lemma CompletesExactly(config: Config, sequential: bool, p: Patrol, drift: nat, noteGiven: bool)
    requires PatrolOk(sequential, p) && p.status.IN_PROGRESS? && drift <= config.toleranceMinutes * 60_000
    ensures var r := Completed(config, p, drift, true, noteGiven);
            (r.Done? && r.patrol.status.COMPLETED?)
            <==> p.snapshots != [] && forall s <- p.snapshots :: Has(p.visits, s, CheckpointStatus.COMPLETED)
  {
    CountAll(p.snapshots, p.visits, CheckpointStatus.COMPLETED);
  }

  /** markMissed's second look at the table never refuses: only a patrol that has not started or is in progress can be
      missed, and one that has not started has nothing completed. */
  lemma MarkMissedRefusedExactly(sequential: bool, p: Patrol, reasonGiven: bool)
    requires PatrolOk(sequential, p)
    ensures MarkedMissed(p, reasonGiven).Rejected?
       <==> !reasonGiven || !(p.status.NOT_STARTED? || p.status.IN_PROGRESS?)
    ensures MarkedMissed(p, reasonGiven).Done? ==>
              var q := MarkedMissed(p, reasonGiven).patrol;
              q == p.(status := q.status) &&
              if exists s <- p.snapshots :: Has(p.visits, s, CheckpointStatus.COMPLETED)
              then p.status.IN_PROGRESS? && q.status.PARTIALLY_COMPLETED? else q.status.MISSED?
  {
    CountSome(p.snapshots, p.visits, CheckpointStatus.COMPLETED);
    assert p.status.NOT_STARTED? ==> forall s <- p.snapshots :: !Has(p.visits, s, CheckpointStatus.COMPLETED);
  }

  /** A completed patrol does not stay complete: a supervisor may still reject or skip one of its visits, and nothing
      else takes completeness away. */
  lemma CompletenessLostExactly(config: Config, sequential: bool, p: Patrol, step: Step)
    requires PatrolOk(sequential, p) && p.status.COMPLETED?
    requires forall s <- p.snapshots :: Has(p.visits, s, CheckpointStatus.COMPLETED)
    ensures var q := Next(config, sequential, p, step);
            && q.status.COMPLETED?
            && (q.completedCount < q.totalCount <==>
                  && step.ReviewVisit? && step.reasonGiven && (step.mark.MISSED? || step.mark.SKIPPED?)
                  && step.snapshot in p.visits)
  {
    hide FirstOpen, VerificationError, Find, ReviewCount, VisitedPrefix, Count;
    CountAll(p.snapshots, p.visits, CheckpointStatus.COMPLETED);
    var q := Next(config, sequential, p, step);
    CountAll(q.snapshots, q.visits, CheckpointStatus.COMPLETED);
    if step.ReviewVisit? && step.snapshot in p.visits {
      var s :| s in p.snapshots && s.id == step.snapshot;
      assert Has(q.visits, s, CheckpointStatus.COMPLETED) || Apply(config, sequential, p, step).Rejected?
             || step.mark.MISSED? || step.mark.SKIPPED?;
    }
  }

  // ---- Verification -------------------------------------------------------------------------------------------------

  /** The request proves presence at the snapshot in the way its checkpoint asks for. */
  predicate Verified(config: Config, s: Snapshot, r: VisitRequest) {
    && r.verification == s.spec.verification && !r.verification.MANUAL_SUPERVISOR_OVERRIDE?
    && r.drift <= config.toleranceMinutes * 60_000 && r.deviceActive && r.coordinatesValid
    && (s.rules.minimumAccuracy.Some? ==> r.accuracy <= s.rules.minimumAccuracy.value as real)
    && (s.rules.minimumAccuracy.None? ==> r.accuracy <= 50.0)
    && (!s.spec.verification.QR_CODE? ==>
          (r.accuracy <= 0.0 ==> r.distance <= s.spec.radius as real)
          && (0.0 <= r.accuracy <= 25.0 ==> r.distance <= s.spec.radius as real + r.accuracy)
          && (25.0 <= r.accuracy ==> r.distance <= s.spec.radius as real + 25.0))
    && (!s.spec.verification.GPS? ==> r.qrHash.Some? && r.qrHash == s.spec.qrHash)
    && (s.rules.requiresPhoto ==> r.evidence) && (s.rules.requiresNote ==> r.note)
  }

  /** In sequential mode: nothing before the k-th snapshot is open, and it is open itself unless nothing is. */
  ghost predicate InTurn(p: Patrol, k: nat)
    requires k < |p.snapshots|
  {
    && (forall j :: 0 <= j < k ==> DealtWith(p.visits, p.snapshots[j]))
    && (DealtWith(p.visits, p.snapshots[k]) ==> forall s <- p.snapshots :: DealtWith(p.visits, s))
  }

  ghost predicate Visitable(config: Config, sequential: bool, p: Patrol, r: VisitRequest, k: nat)
    requires k < |p.snapshots|
  {
    && !Has(p.visits, p.snapshots[k], CheckpointStatus.COMPLETED)
    && !Has(p.visits, p.snapshots[k], CheckpointStatus.SKIPPED)
    && (sequential ==> InTurn(p, k)) && Verified(config, p.snapshots[k], r)
  }

  /** A visit is accepted exactly when the patrol is in progress, the snapshot is neither completed nor skipped, in
      sequential mode it is its turn, and the request is verified. */
  lemma VisitAcceptedExactly(config: Config, sequential: bool, p: Patrol, r: VisitRequest, k: nat)
    requires PatrolOk(sequential, p) && k < |p.snapshots| && Find(p.snapshots, r.checkpoint) == Some(p.snapshots[k])
    ensures PerformVisit(config, sequential, p, r).Done?
       <==> p.status.IN_PROGRESS? && Visitable(config, sequential, p, r, k)
  {
    hide Count, ReviewCount, VerificationError, Verified, FirstOpen, Find;
    VerifiedExactly(config, p.snapshots[k], r);
    FirstOpenAt(p, k);
  }

  lemma FoundIsSnapshot(snapshots: seq<Snapshot>, checkpoint: nat)
    requires Find(snapshots, checkpoint).Some?
    ensures Find(snapshots, checkpoint).value in snapshots
  {
  }

  lemma VerifiedExactly(config: Config, s: Snapshot, r: VisitRequest)
    ensures VerificationError(config, s, r).None? <==> Verified(config, s, r)
  {
  }

  /** The next checkpoint is the k-th, or there is none, exactly when it is the turn of the k-th. */
  lemma FirstOpenAt(p: Patrol, k: nat)
    requires SnapshotsOk(p.snapshots) && k < |p.snapshots|
    ensures var next := FirstOpen(p.snapshots, p.visits);
            (next.None? || next.value.id == p.snapshots[k].id) <==> InTurn(p, k)
  {
    var next := FirstOpen(p.snapshots, p.visits);
    forall s ensures Settled(p.visits, s) <==> DealtWith(p.visits, s) { SettledMeans(p.visits, s); }
    if next.Some? {
      var m :| 0 <= m < |p.snapshots| && p.snapshots[m] == next.value && !Settled(p.visits, next.value)
               && forall j :: 0 <= j < m ==> Settled(p.visits, p.snapshots[j]);
      assert p.snapshots[m] in p.snapshots;
    }
  }

  // ---- What each step writes ---------------------------------------------------------------------------------------

  /** A checkpoint is looked up by snapshot id first and by the id of the original second. */
  lemma FindMeans(snapshots: seq<Snapshot>, checkpoint: nat)
    ensures var r := Find(snapshots, checkpoint);
            && (r.None? <==> forall s <- snapshots :: s.id != checkpoint && s.source != checkpoint)
            && (r.Some? ==> r.value in snapshots
                            && (r.value.id == checkpoint
                                || (r.value.source == checkpoint && forall s <- snapshots :: s.id != checkpoint)))
  {
  }

  lemma {:induction false} CountUpdate(snapshots: seq<Snapshot>, visits: map<nat, CheckpointStatus>, s: Snapshot,
                                       mark: CheckpointStatus, status: CheckpointStatus)
    requires s in snapshots && forall i, j :: 0 <= i < j < |snapshots| ==> snapshots[i].id != snapshots[j].id
    ensures Count(snapshots, visits[s.id := mark], status)
         == Count(snapshots, visits, status) - (if Has(visits, s, status) then 1 else 0)
            + if mark == status then 1 else 0
  {
    var n := |snapshots| - 1;
    var front := snapshots[..n];
    if snapshots[n] == s {
      CountElsewhere(front, visits, s.id, mark, status);
    } else {
      assert s in front;
      CountUpdate(front, visits, s, mark, status);
    }
  }

  lemma {:induction false} CountElsewhere(snapshots: seq<Snapshot>, visits: map<nat, CheckpointStatus>, id: nat,
                                          mark: CheckpointStatus, status: CheckpointStatus)
    requires forall s <- snapshots :: s.id != id
    ensures Count(snapshots, visits[id := mark], status) == Count(snapshots, visits, status)
  {
    if snapshots != [] {
      var n := |snapshots| - 1;
      assert snapshots[n] in snapshots;
      CountElsewhere(snapshots[..n], visits, id, mark, status);
    }
  }

  /** An accepted visit writes the visit of its snapshot and no other: completed when it comes within the offline
      threshold, which counts one more as completed, and under review, with the patrol, when it comes later. */
  lemma VisitWrites(config: Config, sequential: bool, p: Patrol, r: VisitRequest)
    requires PatrolOk(sequential, p) && PerformVisit(config, sequential, p, r).Done?
    ensures var q, found := PerformVisit(config, sequential, p, r).patrol, Find(p.snapshots, r.checkpoint);
            var onTime := r.drift <= config.offlineThresholdMinutes * 60_000;
            && found.Some?
            && q.visits == p.visits[found.value.id := if onTime then CheckpointStatus.COMPLETED
                                                      else CheckpointStatus.REQUIRES_REVIEW]
            && q == p.(visits := q.visits, completedCount := q.completedCount, status := q.status)
            && q.completedCount == p.completedCount + (if onTime then 1 else 0)
            && q.status == if onTime then PatrolStatus.IN_PROGRESS else PatrolStatus.REQUIRES_REVIEW
  {
    hide VerificationError, Count, ReviewCount, FirstOpen, Find, VisitedPrefix, StrictlyAscending;
    VisitKeeps(config, sequential, p, r);
    FindMeans(p.snapshots, r.checkpoint);
    var s, mark := Find(p.snapshots, r.checkpoint).value, VisitOutcome(config, r);
    CountUpdate(p.snapshots, p.visits, s, mark, CheckpointStatus.COMPLETED);
  }

  /** A refused visit names a true reason. */
  lemma VisitRefusals(config: Config, sequential: bool, p: Patrol, r: VisitRequest, k: nat)
    requires PatrolOk(sequential, p) && k < |p.snapshots| && Find(p.snapshots, r.checkpoint) == Some(p.snapshots[k])
    requires PerformVisit(config, sequential, p, r).Rejected?
    ensures var s, accuracy := p.snapshots[k],
                               if r.accuracy < 0.0 then 0.0 else if r.accuracy > 25.0 then 25.0 else r.accuracy;
            match PerformVisit(config, sequential, p, r).error
            case StatusInvalid => !p.status.IN_PROGRESS?
            case AlreadyCompleted =>
              Has(p.visits, s, CheckpointStatus.COMPLETED) || Has(p.visits, s, CheckpointStatus.SKIPPED)
            case OutOfOrder => sequential && !InTurn(p, k)
            case MethodInvalid => r.verification != s.spec.verification || r.verification == MANUAL_SUPERVISOR_OVERRIDE
            case DeviceTimeInvalid => r.drift > config.toleranceMinutes * 60_000
            case DeviceNotActive => !r.deviceActive
            case CoordinatesInvalid => !r.coordinatesValid
            case AccuracyTooLow =>
              r.accuracy > if s.rules.minimumAccuracy.Some? then s.rules.minimumAccuracy.value as real else 50.0
            case OutsideGeofence => !r.verification.QR_CODE? && r.distance > s.spec.radius as real + accuracy
            case QrInvalid => !r.verification.GPS? && (r.qrHash.None? || r.qrHash != s.spec.qrHash)
            case EvidenceRequired => s.rules.requiresPhoto && !r.evidence
            case NoteRequired => s.rules.requiresNote && !r.note
            case _ => false
  {
    hide Count, ReviewCount, FirstOpen, Find, InTurn;
    FirstOpenAt(p, k);
  }

  /** A patrol is started exactly when it has not begun, the device time is within the tolerance, the device active, the
      officer clocked in and the duty current; one in progress is answered as it is. Only the status changes. */
  lemma StartsExactly(config: Config, p: Patrol, drift: nat, deviceActive: bool, clockedIn: bool, inWindow: bool)
    ensures var r := Started(config, p, drift, deviceActive, clockedIn, inWindow);
            && (r.Done? <==>
                  || p.status.IN_PROGRESS?
                  || (p.status.NOT_STARTED? && drift <= config.toleranceMinutes * 60_000 && deviceActive && clockedIn
                      && inWindow))
            && (r.Done? ==> r.patrol == p.(status := PatrolStatus.IN_PROGRESS))
  {
  }

  /** A review is accepted exactly with a verdict of completed, missed or skipped, a reason, and a visit to judge. It
      writes the verdict on that visit and no other; the patrol goes back to progress when no visit is under review any
      more. */
  lemma ReviewWrites(sequential: bool, p: Patrol, snapshot: nat, mark: CheckpointStatus, reasonGiven: bool)
    requires PatrolOk(sequential, p)
    ensures var r := Reviewed(p, snapshot, mark, reasonGiven);
            && (r.Done? <==> (mark.COMPLETED? || mark.MISSED? || mark.SKIPPED?) && reasonGiven && snapshot in p.visits)
            && (r.Done? ==>
                  && r.patrol.visits == p.visits[snapshot := mark]
                  && r.patrol == p.(visits := r.patrol.visits, completedCount := r.patrol.completedCount,
                                    status := r.patrol.status)
                  && r.patrol.status == if p.status.REQUIRES_REVIEW? && !AnyReview(r.patrol.visits)
                                        then PatrolStatus.IN_PROGRESS else p.status)
  {
    hide Count, ReviewCount, VisitedPrefix, StrictlyAscending, AnyReview;
    if Reviewed(p, snapshot, mark, reasonGiven).Done? {
      ReviewKeeps(sequential, p, snapshot, mark, reasonGiven);
      var s :| s in p.snapshots && s.id == snapshot;
      RecordedVisits(p, s, mark);
      ReviewCountIsAnyReview(Recorded(p, snapshot, mark));
    }
  }

  ghost predicate AllCompleted(p: Patrol) {
    p.snapshots != [] && forall s <- p.snapshots :: Has(p.visits, s, CheckpointStatus.COMPLETED)
  }

  ghost predicate SomeCompleted(p: Patrol) {
    exists s <- p.snapshots :: Has(p.visits, s, CheckpointStatus.COMPLETED)
  }

  /** A completion is accepted exactly from an active device within the tolerance, in progress with everything
      completed, or in progress or under review with something completed and a note, which ends it as partially
      completed. Only the status changes. A patrol ended in either way is answered as it is. */
  lemma CompleteWrites(config: Config, sequential: bool, p: Patrol, drift: nat, deviceActive: bool, noteGiven: bool)
    requires PatrolOk(sequential, p)
    ensures var r, ended := Completed(config, p, drift, deviceActive, noteGiven),
                            p.status.COMPLETED? || p.status.PARTIALLY_COMPLETED?;
            && (ended ==> r == Done(p))
            && (!ended ==>
                  (r.Done? <==>
                     && drift <= config.toleranceMinutes * 60_000 && deviceActive
                     && ((p.status.IN_PROGRESS? && AllCompleted(p))
                         || ((p.status.IN_PROGRESS? || p.status.REQUIRES_REVIEW?) && !AllCompleted(p)
                             && SomeCompleted(p) && noteGiven))))
            && (r.Done? && !ended ==>
                  r.patrol == p.(status := if AllCompleted(p) then PatrolStatus.COMPLETED
                                           else PatrolStatus.PARTIALLY_COMPLETED))
  {
    hide Count, ReviewCount, FirstOpen, VisitedPrefix, StrictlyAscending;
    CountAll(p.snapshots, p.visits, CheckpointStatus.COMPLETED);
    CountSome(p.snapshots, p.visits, CheckpointStatus.COMPLETED);
    if p.status.REQUIRES_REVIEW? { NotFullUnderReview(p); }
  }

  /** Cancelling is accepted exactly with a reason on an active patrol, and changes only the status. */
  lemma CancelsExactly(p: Patrol, reasonGiven: bool)
    ensures var r := Cancelled(p, reasonGiven);
            && (r.Done? <==>
                  reasonGiven && (p.status.NOT_STARTED? || p.status.IN_PROGRESS? || p.status.REQUIRES_REVIEW?))
            && (r.Done? ==> r.patrol == p.(status := PatrolStatus.CANCELLED))
  {
  }

  // A patrol walked from start to end

  /** The k-th request proves presence at the k-th snapshot, on time. */
  ghost predicate Walks(config: Config, snapshots: seq<Snapshot>, requests: seq<VisitRequest>) {
    |requests| == |snapshots|
    && forall k :: 0 <= k < |snapshots| ==>
         && requests[k].checkpoint == snapshots[k].id && Verified(config, snapshots[k], requests[k])
         && requests[k].drift <= config.offlineThresholdMinutes * 60_000
  }

  function VisitSteps(requests: seq<VisitRequest>): seq<Step> {
    seq(|requests|, k requires 0 <= k < |requests| => Visit(requests[k]))
  }

  /** The first k snapshots are completed and the others not visited. */
  ghost predicate WalkedTo(p: Patrol, k: nat) {
    p.status.IN_PROGRESS? && k <= |p.snapshots|
    && (forall j :: 0 <= j < k ==> Has(p.visits, p.snapshots[j], CheckpointStatus.COMPLETED))
    && (forall j :: k <= j < |p.snapshots| ==> p.snapshots[j].id !in p.visits)
  }

  lemma NextVisitAccepted(config: Config, sequential: bool, p: Patrol, r: VisitRequest, k: nat)
    requires PatrolOk(sequential, p) && WalkedTo(p, k) && k < |p.snapshots|
    requires r.checkpoint == p.snapshots[k].id && Verified(config, p.snapshots[k], r)
    requires r.drift <= config.offlineThresholdMinutes * 60_000
    ensures var q := Next(config, sequential, p, Visit(r));
            PatrolOk(sequential, q) && q.snapshots == p.snapshots && WalkedTo(q, k + 1)
  {
    hide Count, ReviewCount, VerificationError, Verified, FirstOpen, Find, VisitedPrefix, StrictlyAscending;
    FindById(p.snapshots, p.snapshots[k]);
    VisitAcceptedExactly(config, sequential, p, r, k);
    VisitWrites(config, sequential, p, r);
    VisitKeeps(config, sequential, p, r);
  }

  lemma {:induction false} WalkFrom(config: Config, sequential: bool, p: Patrol, requests: seq<VisitRequest>, k: nat)
    requires PatrolOk(sequential, p) && WalkedTo(p, k) && Walks(config, p.snapshots, requests)
    ensures var q := After(config, sequential, p, VisitSteps(requests)[k..]);
            PatrolOk(sequential, q) && q.snapshots == p.snapshots && WalkedTo(q, |p.snapshots|)
    decreases |requests| - k
  {
    hide PatrolOk, WalkedTo, Next, Verified;
    assert WalkedTo(p, k) ==> k <= |p.snapshots| by { WalkedWithin(p, k); }
    var run := VisitSteps(requests)[k..];
    if k < |requests| {
      NextVisitAccepted(config, sequential, p, requests[k], k);
      assert run[0] == Visit(requests[k]) && run[1..] == VisitSteps(requests)[k + 1..];
      WalkFrom(config, sequential, Next(config, sequential, p, run[0]), requests, k + 1);
    } else {
      assert run == [];
    }
  }

  lemma WalkedWithin(p: Patrol, k: nat)
    requires WalkedTo(p, k)
    ensures k <= |p.snapshots|
  {
  }

  /** A patrol that is started, whose snapshots are all visited on time in sequence order, and that is then completed
      ends as completed with all of them counted. */
  lemma WalkCompletes(config: Config, sequential: bool, p: Patrol, requests: seq<VisitRequest>, early: nat, late: nat,
                      noteGiven: bool)
    requires PatrolOk(sequential, p) && p.status.NOT_STARTED? && p.snapshots != []
    requires Walks(config, p.snapshots, requests)
    requires early <= config.toleranceMinutes * 60_000 && late <= config.toleranceMinutes * 60_000
    ensures var walked := After(config, sequential, p, [Start(early, true, true, true)] + VisitSteps(requests));
            var q := Next(config, sequential, walked, Complete(late, true, noteGiven));
            q.status.COMPLETED? && q.completedCount == q.totalCount == |p.snapshots| && q.snapshots == p.snapshots
  {
    hide Count, Verified, VisitedPrefix, StrictlyAscending, Started, Completed, VisitSteps;
    var start := Start(early, true, true, true);
    StartsExactly(config, p, early, true, true, true);
    StepKeepsPatrolOk(config, sequential, p, start);
    var s := Next(config, sequential, p, start);
    assert ([start] + VisitSteps(requests))[1..] == VisitSteps(requests) == VisitSteps(requests)[0..];
    WalkFrom(config, sequential, s, requests, 0);
    var walked := After(config, sequential, s, VisitSteps(requests));
    CompleteWrites(config, sequential, walked, late, true, noteGiven);
    StepKeepsPatrolOk(config, sequential, walked, Complete(late, true, noteGiven));
    CountAll(walked.snapshots, walked.visits, CheckpointStatus.COMPLETED);
  }

  // ---- Reviews ------------------------------------------------------------------------------------------------------

  /** A request that passes every check at this snapshot, as far out of time as the tolerance lets it be. */
  function Late(config: Config, s: Snapshot): VisitRequest {
    VisitRequest(s.id, s.spec.verification, config.toleranceMinutes * 60_000, true, true, 0.0, 0.0, s.spec.qrHash,
                 true, true)
  }

  predicate SendsToReview(config: Config, sequential: bool, p: Patrol, r: VisitRequest) {
    var out := PerformVisit(config, sequential, p, r);
    out.Done? && out.patrol.status.REQUIRES_REVIEW?
  }

  /** Whether an officer can send a visit into review at all depends only on the configuration: both the refusal of a
      device time and the need for review are read off the same clock drift, so reviews happen exactly when the
      tolerance is wider than the offline threshold. */
  lemma ReviewPossibleExactly(config: Config, sequential: bool, p: Patrol, s: Snapshot)
    requires PatrolOk(sequential, p) && p.status.IN_PROGRESS? && FirstOpen(p.snapshots, p.visits) == Some(s)
    requires !s.spec.verification.MANUAL_SUPERVISOR_OVERRIDE? && (s.spec.verification.GPS? || s.spec.qrHash.Some?)
    ensures (exists r :: SendsToReview(config, sequential, p, r))
       <==> config.offlineThresholdMinutes < config.toleranceMinutes
  {
    if config.offlineThresholdMinutes < config.toleranceMinutes {
      hide Count, ReviewCount, VisitedPrefix;
      var r := Late(config, s);
      assert s in p.snapshots;
      FindById(p.snapshots, s);
      assert VerificationError(config, s, r).None?;
      VisitKeeps(config, sequential, p, r);
      assert SendsToReview(config, sequential, p, r);
    } else {
      forall r | PerformVisit(config, sequential, p, r).Done?
        ensures !PerformVisit(config, sequential, p, r).patrol.status.REQUIRES_REVIEW?
      {
        AcceptedDrift(config, sequential, p, r);
        VisitKeeps(config, sequential, p, r);
      }
    }
  }

  lemma {:induction false} FindById(snapshots: seq<Snapshot>, s: Snapshot)
    requires s in snapshots && forall i, j :: 0 <= i < j < |snapshots| ==> snapshots[i].id != snapshots[j].id
    ensures Find(snapshots, s.id) == Some(s)
  {
    var r := FindBy(snapshots, s.id, false);
    if r.Some? {
      var i, j :| 0 <= i < |snapshots| && 0 <= j < |snapshots| && snapshots[i] == s && snapshots[j] == r.value;
      assert i == j;
    }
  }

  lemma AcceptedDrift(config: Config, sequential: bool, p: Patrol, r: VisitRequest)
    requires PerformVisit(config, sequential, p, r).Done?
    ensures r.drift <= config.toleranceMinutes * 60_000
  {
    hide Count, ReviewCount, FirstOpen, Find;
  }

  /** With the tolerance no wider than the threshold no patrol is ever under review. */
  lemma {:induction false} NoReviewsByDefault(config: Config, sequential: bool, p: Patrol, run: seq<Step>)
    requires PatrolOk(sequential, p) && !AnyReview(p.visits)
    requires config.toleranceMinutes <= config.offlineThresholdMinutes
    ensures !AnyReview(After(config, sequential, p, run).visits)
    ensures !After(config, sequential, p, run).status.REQUIRES_REVIEW?
    decreases |run|
  {
    hide PatrolOk, Next, AnyReview;
    if run != [] {
      StepKeepsPatrolOk(config, sequential, p, run[0]);
      StepAddsNoReview(config, sequential, p, run[0]);
      NoReviewsByDefault(config, sequential, Next(config, sequential, p, run[0]), run[1..]);
    } else {
      UnreviewedStatus(sequential, p);
    }
  }

  lemma UnreviewedStatus(sequential: bool, p: Patrol)
    requires PatrolOk(sequential, p) && !AnyReview(p.visits)
    ensures !p.status.REQUIRES_REVIEW?
  {
  }

  lemma StepAddsNoReview(config: Config, sequential: bool, p: Patrol, step: Step)
    requires PatrolOk(sequential, p) && !AnyReview(p.visits)
    requires config.toleranceMinutes <= config.offlineThresholdMinutes
    ensures !AnyReview(Next(config, sequential, p, step).visits)
  {
    hide PatrolOk;
    if step.Visit? {
      if PerformVisit(config, sequential, p, step.request).Done? {
        AcceptedDrift(config, sequential, p, step.request);
        OnTimeVisitAddsNoReview(config, sequential, p, step.request);
      }
    } else {
      OtherStepsAddNoReview(config, sequential, p, step);
    }
  }

  lemma OnTimeVisitAddsNoReview(config: Config, sequential: bool, p: Patrol, r: VisitRequest)
    requires !AnyReview(p.visits) && PerformVisit(config, sequential, p, r).Done? && VisitOutcome(config, r).COMPLETED?
    ensures !AnyReview(PerformVisit(config, sequential, p, r).patrol.visits)
  {
    hide Count, ReviewCount, FirstOpen, VerificationError, Find;
  }

  lemma OtherStepsAddNoReview(config: Config, sequential: bool, p: Patrol, step: Step)
    requires !AnyReview(p.visits) && !step.Visit?
    ensures !AnyReview(Next(config, sequential, p, step).visits)
  {
    hide Count, ReviewCount, FirstOpen;
  }

  lemma DefaultConfigNeverReviews(sequential: bool, p: Patrol, run: seq<Step>)
    requires PatrolOk(sequential, p) && !AnyReview(p.visits)
    ensures !After(DEFAULT_CONFIG, sequential, p, run).status.REQUIRES_REVIEW?
  {
    NoReviewsByDefault(DEFAULT_CONFIG, sequential, p, run);
  }
}
