/** The in-memory job queue: enqueue, the asynchronous processNext callbacks, retries, the dead-letter list, stop.
    A callback and each way its awaited job can end are separate steps, so a run is any interleaving of them. */
module JobQueue {
  import opened JsText

  type Id = nat
  datatype QueueName =
    | NOTIFICATIONS | EMAILS | EVIDENCE | THUMBNAILS | REPORTS | CLEANUP | SYNC_RETRIES | EXPIRED_UPLOADS

  const ALL_QUEUE_NAMES: set<QueueName> :=
    {NOTIFICATIONS, EMAILS, EVIDENCE, THUMBNAILS, REPORTS, CLEANUP, SYNC_RETRIES, EXPIRED_UPLOADS}

  const MAX_ATTEMPTS := 3

  datatype Job = Job(id: Id, attempts: nat)
  datatype Stat = Stat(waiting: nat, active: nat, completed: nat, failed: nat)
  datatype DeadLetter = DeadLetter(queueName: QueueName, job: Job)

  // ---- One queue, seen as a value ---------------------------------------------------------------------------

  /** `active` holds the jobs whose processing is awaited and `callbacks` counts the scheduled processNext calls;
      `enqueued`, `started` and `done` are the history: ids in enqueue order, ids each time processing began, and
      jobs that succeeded. */
  datatype Queue = Queue(
    waiting: seq<Job>,
    active: seq<Job>,
    dead: seq<Job>,
    stat: Stat,
    callbacks: nat,
    destroyed: bool,
    enqueued: seq<Id>,
    firstStarted: seq<Id>,
    started: seq<Id>,
    done: seq<Job>)

  datatype Event =
    | Enqueue(id: Id)
    | Callback
    | Succeed(index: nat)
    | Fail(index: nat)
    | Stop

  const EMPTY := Queue([], [], [], Stat(0, 0, 0, 0), 0, false, [], [], [], [])

  /** Math.max(0, n + delta) */
  function Bump(n: nat, delta: int): nat {
    if n + delta < 0 then 0 else n + delta
  }

  /** bumpStat on each field that a step touches. */
  function Bumped(s: Stat, waiting: int, active: int, completed: int, failed: int): Stat {
    Stat(Bump(s.waiting, waiting), Bump(s.active, active), Bump(s.completed, completed), Bump(s.failed, failed))
  }

  predicate Enabled(q: Queue, e: Event) {
    match e
    case Enqueue(id) => id !in q.enqueued
    case Callback => q.callbacks > 0
    case Succeed(i) => i < |q.active|
    case Fail(i) => i < |q.active|
    case Stop => true
  }

  function Without(jobs: seq<Job>, i: nat): seq<Job>
    requires i < |jobs|
  {
    jobs[..i] + jobs[i + 1..]
  }

  function Step(q: Queue, e: Event): Queue
    requires Enabled(q, e)
  {
    match e
    case Enqueue(id) =>
      q.(waiting := q.waiting + [Job(id, 0)], stat := q.stat.(waiting := Bump(q.stat.waiting, 1)),
         callbacks := q.callbacks + 1, enqueued := q.enqueued + [id])
    case Callback =>
      var r := q.(callbacks := q.callbacks - 1);
      if q.destroyed || q.waiting == [] then r
      else
        var job := q.waiting[0];
        r.(waiting := q.waiting[1..], active := q.active + [job],
           stat := q.stat.(waiting := Bump(q.stat.waiting, -1), active := Bump(q.stat.active, 1)),
           firstStarted := if job.attempts == 0 then q.firstStarted + [job.id] else q.firstStarted,
           started := q.started + [job.id])
    case Succeed(i) =>
      q.(active := Without(q.active, i), done := q.done + [q.active[i]],
         stat := q.stat.(active := Bump(q.stat.active, -1), completed := Bump(q.stat.completed, 1)),
         callbacks := if q.waiting != [] then q.callbacks + 1 else q.callbacks)
    case Fail(i) =>
      var job := q.active[i].(attempts := q.active[i].attempts + 1);
      var r := q.(active := Without(q.active, i));
      if job.attempts < MAX_ATTEMPTS then
        r.(waiting := q.waiting + [job], callbacks := q.callbacks + 1,
           stat := q.stat.(active := Bump(q.stat.active, -1), waiting := Bump(q.stat.waiting, 1)))
      else
        r.(dead := q.dead + [job], stat := q.stat.(active := Bump(q.stat.active, -1), failed := Bump(q.stat.failed, 1)),
           callbacks := if q.waiting != [] then q.callbacks + 1 else q.callbacks)
    case Stop => q.(destroyed := true)
  }

  ghost predicate Possible(q: Queue, run: seq<Event>)
    decreases |run|
  {
    run == [] || (Enabled(q, run[0]) && Possible(Step(q, run[0]), run[1..]))
  }

  function After(q: Queue, run: seq<Event>): Queue
    requires Possible(q, run)
    decreases |run|
  {
    if run == [] then q else After(Step(q, run[0]), run[1..])
  }

  // ---- Safety ---------------------------------------------------------------------------------------------------

  function Ids(jobs: seq<Job>): seq<Id> {
    seq(|jobs|, i requires 0 <= i < |jobs| => jobs[i].id)
  }

  /** How often the job with this id has begun processing. */
  function Starts(q: Queue, id: Id): nat {
    multiset(q.started)[id]
  }

  /** The ids of jobs with no attempt behind them, in order. */
  function FreshIds(jobs: seq<Job>): seq<Id> {
    if jobs == [] then []
    else if jobs[0].attempts == 0 then [jobs[0].id] + FreshIds(jobs[1..])
    else FreshIds(jobs[1..])
  }

  /** Every enqueued job is in exactly one place. */
  ghost predicate Conserved(q: Queue) {
    forall id ::
      Enqueued(q, id) == Count(q.waiting, id) + Count(q.active, id) + Count(q.done, id) + Count(q.dead, id) <= 1
  }

  function Enqueued(q: Queue, id: Id): nat {
    multiset(q.enqueued)[id]
  }

  function Count(jobs: seq<Job>, id: Id): nat {
    multiset(Ids(jobs))[id]
  }

  /** The counters are the true numbers, so none of them was ever clamped at zero. */
  ghost predicate CountersExact(q: Queue) {
    q.stat == Stat(|q.waiting|, |q.active|, |q.done|, |q.dead|)
  }

  /** Starts match attempts: no job begins more than MAX_ATTEMPTS times. */
  ghost predicate AttemptsExact(q: Queue) {
    && (forall j <- q.waiting :: Starts(q, j.id) == j.attempts < MAX_ATTEMPTS)
    && (forall j <- q.active :: Starts(q, j.id) == j.attempts + 1 <= MAX_ATTEMPTS)
    && (forall j <- q.done :: Starts(q, j.id) == j.attempts + 1 <= MAX_ATTEMPTS)
    && (forall j <- q.dead :: Starts(q, j.id) == j.attempts == MAX_ATTEMPTS)
    && (forall id <- q.started :: id in q.enqueued)
  }

  ghost predicate Inv(q: Queue) {
    && (!q.destroyed ==> q.callbacks >= |q.waiting|)
    && CountersExact(q)
    && Conserved(q)
    && AttemptsExact(q)
    && q.firstStarted + FreshIds(q.waiting) == q.enqueued
  }

  lemma CountAppend(a: seq<Job>, j: Job)
    ensures forall id :: Count(a + [j], id) == Count(a, id) + if id == j.id then 1 else 0
  {
    assert Ids(a + [j]) == Ids(a) + [j.id];
  }

  lemma CountWithout(a: seq<Job>, i: nat)
    requires i < |a|
    ensures forall id :: Count(a, id) == Count(Without(a, i), id) + if id == a[i].id then 1 else 0
  {
    assert Ids(a) == Ids(a[..i]) + [a[i].id] + Ids(a[i + 1..]);
    assert Ids(Without(a, i)) == Ids(a[..i]) + Ids(a[i + 1..]);
  }

  lemma CountIn(jobs: seq<Job>, j: Job)
    requires j in jobs
    ensures Count(jobs, j.id) >= 1
  {
    var i :| 0 <= i < |jobs| && jobs[i] == j;
    assert Ids(jobs)[i] == j.id;
  }

  lemma EnqueuedIn(q: Queue, id: Id)
    ensures Enqueued(q, id) >= 1 <==> id in q.enqueued
  {
  }

  lemma {:induction false} FreshAppend(a: seq<Job>, j: Job)
    ensures FreshIds(a + [j]) == FreshIds(a) + if j.attempts == 0 then [j.id] else []
  {
    if a == [] {
      assert a + [j] == [j];
    } else {
      FreshAppend(a[1..], j);
      assert (a + [j])[1..] == a[1..] + [j];
    }
  }

  /** A job taken out of one list has its id nowhere else. */
  lemma IdElsewhere(q: Queue, id: Id, w: seq<Job>)
    requires Conserved(q) && forall k :: Count(q.waiting, k) == Count(w, k) + if k == id then 1 else 0
    ensures forall j <- w + q.active + q.done + q.dead :: j.id != id
  {
    hide Count, Enqueued;
    assert Enqueued(q, id) <= 1 && Count(q.waiting, id) == Count(w, id) + 1;
    forall j | j in w + q.active + q.done + q.dead ensures j.id != id {
      if j in w { CountIn(w, j); }
      else if j in q.active { CountIn(q.active, j); }
      else if j in q.done { CountIn(q.done, j); }
      else { CountIn(q.dead, j); }
    }
  }

  lemma InitialInv()
    ensures Inv(EMPTY)
  {
    assert Ids([]) == [];
  }

  lemma EnqueuePreserves(q: Queue, id: Id)
    requires Inv(q) && id !in q.enqueued
    ensures Inv(Step(q, Enqueue(id)))
  {
    hide Count, Enqueued, Starts;
    var r := Step(q, Enqueue(id));
    CountAppend(q.waiting, Job(id, 0));
    FreshAppend(q.waiting, Job(id, 0));
    EnqueuedIn(q, id);
    NewIdStarts(q, id);
    SameStarts(q, r);
    assert forall k :: Enqueued(r, k) == Enqueued(q, k) + if k == id then 1 else 0 by { AppendId(q, r, id); }
  }

  lemma AppendId(q: Queue, r: Queue, id: Id)
    requires r.enqueued == q.enqueued + [id]
    ensures forall k :: Enqueued(r, k) == Enqueued(q, k) + if k == id then 1 else 0
  {
  }

  lemma NewIdStarts(q: Queue, id: Id)
    requires AttemptsExact(q) && id !in q.enqueued
    ensures Starts(q, id) == 0
  {
    assert id !in q.started;
  }

  lemma CallbackConserves(q: Queue)
    requires Inv(q) && q.callbacks > 0 && !q.destroyed && q.waiting != []
    ensures var r := Step(q, Callback);
            Conserved(r) && forall j <- r.waiting + q.active + q.done + q.dead :: j.id != q.waiting[0].id
  {
    hide Count, Starts;
    var r := Step(q, Callback);
    CountWithout(q.waiting, 0);
    assert Without(q.waiting, 0) == r.waiting;
    CountAppend(q.active, q.waiting[0]);
    IdElsewhere(q, q.waiting[0].id, r.waiting);
  }

  lemma CallbackPreserves(q: Queue)
    requires Inv(q) && q.callbacks > 0
    ensures Inv(Step(q, Callback))
  {
    hide Conserved;
    var r := Step(q, Callback);
    if !q.destroyed && q.waiting != [] {
      var job := q.waiting[0];
      CallbackConserves(q);
      assert job in q.waiting;
      WaitingIsEnqueued(q, job);
      StartedOnce(q, r, job);
    } else {
      SameJobs(q, r);
    }
  }

  lemma WaitingIsEnqueued(q: Queue, job: Job)
    requires Conserved(q) && job in q.waiting
    ensures job.id in q.enqueued
  {
    CountIn(q.waiting, job);
    EnqueuedIn(q, job.id);
  }

  lemma SameJobs(q: Queue, r: Queue)
    requires Conserved(q) && r.enqueued == q.enqueued
    requires r.waiting == q.waiting && r.active == q.active && r.done == q.done && r.dead == q.dead
    ensures Conserved(r)
  {
  }

  /** Beginning one job changes the starts of that job alone. */
  lemma StartedOnce(q: Queue, r: Queue, job: Job)
    requires AttemptsExact(q) && job in q.waiting && job.id in q.enqueued && r.enqueued == q.enqueued
    requires r.started == q.started + [job.id] && r.active == q.active + [job] && r.done == q.done && r.dead == q.dead
    requires forall j <- r.waiting :: j in q.waiting
    requires forall j <- r.waiting + q.active + q.done + q.dead :: j.id != job.id
    ensures AttemptsExact(r)
  {
    assert multiset(r.started) == multiset(q.started) + multiset{job.id};
    forall j | j in r.waiting + q.active + q.done + q.dead ensures Starts(r, j.id) == Starts(q, j.id) {
      assert j.id != job.id;
    }
    forall j | j in r.active ensures Starts(r, j.id) == j.attempts + 1 <= MAX_ATTEMPTS {
      if j != job { assert j in q.active; }
    }
  }

  lemma SucceedPreserves(q: Queue, i: nat)
    requires Inv(q) && i < |q.active|
    ensures Inv(Step(q, Succeed(i)))
  {
    hide Count, Starts;
    CountWithout(q.active, i);
    CountAppend(q.done, q.active[i]);
    assert q.active[i] in q.active;
    SameStarts(q, Step(q, Succeed(i)));
  }

  lemma FailConserves(q: Queue, i: nat)
    requires Conserved(q) && i < |q.active|
    ensures Conserved(Step(q, Fail(i)))
  {
    hide Count, Enqueued, Without;
    var r := Step(q, Fail(i));
    var job := q.active[i].(attempts := q.active[i].attempts + 1);
    SameEnqueued(q, r);
    CountWithout(q.active, i);
    if job.attempts < MAX_ATTEMPTS { CountAppend(q.waiting, job); } else { CountAppend(q.dead, job); }
  }

  lemma SameEnqueued(q: Queue, r: Queue)
    requires q.enqueued == r.enqueued
    ensures forall id :: Enqueued(q, id) == Enqueued(r, id)
  {
  }

  lemma FailPreserves(q: Queue, i: nat)
    requires Inv(q) && i < |q.active|
    ensures Inv(Step(q, Fail(i)))
  {
    hide Conserved, Starts;
    var job := q.active[i].(attempts := q.active[i].attempts + 1);
    assert q.active[i] in q.active;
    FailConserves(q, i);
    FreshAppend(q.waiting, job);
    SameStarts(q, Step(q, Fail(i)));
  }

  lemma SameStarts(q: Queue, r: Queue)
    requires q.started == r.started
    ensures forall id :: Starts(q, id) == Starts(r, id)
  {
  }

  lemma StepPreserves(q: Queue, e: Event)
    requires Inv(q) && Enabled(q, e)
    ensures Inv(Step(q, e))
  {
    match e
    case Enqueue(id) => EnqueuePreserves(q, id);
    case Callback => CallbackPreserves(q);
    case Succeed(i) => SucceedPreserves(q, i);
    case Fail(i) => FailPreserves(q, i);
    case Stop =>
  }

  lemma {:induction false} RunPreserves(q: Queue, run: seq<Event>)
    requires Inv(q) && Possible(q, run)
    ensures Inv(After(q, run))
    decreases |run|
  {
    if run != [] {
      StepPreserves(q, run[0]);
      RunPreserves(Step(q, run[0]), run[1..]);
    }
  }

  /** In every interleaving: callbacks never run out before stop, every enqueued job is in exactly one place, the
      clamped counters are exact, jobs begin at most three times, and first attempts begin in enqueue order. */
  lemma QueueSafety(run: seq<Event>)
    requires Possible(EMPTY, run)
    ensures var q := After(EMPTY, run);
            && (!q.destroyed ==> q.callbacks >= |q.waiting|)
            && Conserved(q) && CountersExact(q)
            && |q.enqueued| == |q.waiting| + |q.active| + |q.done| + |q.dead|
            && (forall id :: Starts(q, id) <= 3) && (forall j <- q.dead :: Starts(q, j.id) == 3)
            && q.firstStarted <= q.enqueued
  {
    InitialInv();
    RunPreserves(EMPTY, run);
    var q := After(EMPTY, run);
    ConservedAsMultiset(q);
    assert |multiset(q.enqueued)| == |q.enqueued|;
    forall id ensures Starts(q, id) <= MAX_ATTEMPTS {
      if id in q.started { Located(q, id); }
    }
  }

  /** The ids of the jobs wherever they are. */
  function Placed(q: Queue): multiset<Id> {
    multiset(Ids(q.waiting)) + multiset(Ids(q.active)) + multiset(Ids(q.done)) + multiset(Ids(q.dead))
  }

  lemma ConservedAsMultiset(q: Queue)
    requires Conserved(q)
    ensures multiset(q.enqueued) == Placed(q)
  {
    forall id ensures multiset(q.enqueued)[id] == Placed(q)[id] {
      assert Enqueued(q, id) == Count(q.waiting, id) + Count(q.active, id) + Count(q.done, id) + Count(q.dead, id);
    }
  }

  /** An enqueued id belongs to a job in one of the lists. */
  lemma Located(q: Queue, id: Id)
    requires Conserved(q) && id in q.enqueued
    ensures exists j <- q.waiting + q.active + q.done + q.dead :: j.id == id
  {
    EnqueuedIn(q, id);
    if id in Ids(q.waiting) { JobOf(q.waiting, id); }
    else if id in Ids(q.active) { JobOf(q.active, id); }
    else if id in Ids(q.done) { JobOf(q.done, id); }
    else { assert id in Ids(q.dead); JobOf(q.dead, id); }
  }

  lemma JobOf(jobs: seq<Job>, id: Id)
    requires id in Ids(jobs)
    ensures exists j <- jobs :: j.id == id
  {
    var i :| 0 <= i < |jobs| && Ids(jobs)[i] == id;
    assert jobs[i] in jobs;
  }

  /** No lost wake-up: with no callback scheduled and no job awaited, every job has succeeded or is dead-lettered. */
  lemma QuietMeansSettled(run: seq<Event>)
    requires Possible(EMPTY, run)
    requires var q := After(EMPTY, run); !q.destroyed && q.callbacks == 0 && q.active == []
    ensures var q := After(EMPTY, run);
            q.waiting == [] && multiset(q.enqueued) == multiset(Ids(q.done)) + multiset(Ids(q.dead))
  {
    QueueSafety(run);
    ConservedAsMultiset(After(EMPTY, run));
    assert Ids([]) == [];
  }

  // ---- Order and outcomes ------------------------------------------------------------------------------------------

  /** The ids in the order in which jobs begin: those begun, then those waiting, whether new or to be tried again. */
  function Order(q: Queue): seq<Id> {
    q.started + Ids(q.waiting)
  }

  lemma StepKeepsOrder(q: Queue, e: Event)
    requires Enabled(q, e)
    ensures Order(q) <= Order(Step(q, e))
  {
    var r := Step(q, e);
    match e
    case Enqueue(id) => assert Ids(r.waiting) == Ids(q.waiting) + [id];
    case Callback =>
      if !q.destroyed && q.waiting != [] { assert Ids(q.waiting) == [q.waiting[0].id] + Ids(r.waiting); }
    case Fail(i) =>
      if r.waiting != q.waiting { assert Ids(r.waiting) == Ids(q.waiting) + [q.active[i].id]; }
    case _ =>
  }

  /** First in, first out, in every run and from every state: what waits begins in its order, ahead of every job that
      comes or comes back later. */
  lemma {:induction false} FirstInFirstOut(q: Queue, run: seq<Event>)
    requires Possible(q, run)
    ensures Order(q) <= Order(After(q, run))
    decreases |run|
  {
    hide Order, Step, Enabled;
    if run != [] {
      StepKeepsOrder(q, run[0]);
      FirstInFirstOut(Step(q, run[0]), run[1..]);
    }
  }

  function Enqueues(run: seq<Event>): nat {
    if run == [] then 0 else (if run[0].Enqueue? then 1 else 0) + Enqueues(run[1..])
  }

  function Successes(run: seq<Event>): nat {
    if run == [] then 0 else (if run[0].Succeed? then 1 else 0) + Successes(run[1..])
  }

  function Failures(run: seq<Event>): nat {
    if run == [] then 0 else (if run[0].Fail? then 1 else 0) + Failures(run[1..])
  }

  function Stops(run: seq<Event>): nat {
    if run == [] then 0 else (if run[0].Stop? then 1 else 0) + Stops(run[1..])
  }

  lemma {:induction false} OutcomesFrom(q: Queue, run: seq<Event>)
    requires Possible(q, run)
    ensures var r := After(q, run);
            && |r.enqueued| == |q.enqueued| + Enqueues(run)
            && |r.done| == |q.done| + Successes(run)
            && |r.started| - |r.active| == |q.started| - |q.active| + Successes(run) + Failures(run)
            && (r.destroyed <==> q.destroyed || Stops(run) > 0)
    decreases |run|
  {
    if run != [] { OutcomesFrom(Step(q, run[0]), run[1..]); }
  }

  /** Every enqueued job is counted, a job is done exactly by a success, every begun attempt that is not awaited has
      succeeded or failed, and the queue is destroyed exactly by a stop. */
  lemma OutcomesAreEvents(run: seq<Event>)
    requires Possible(EMPTY, run)
    ensures var q := After(EMPTY, run);
            && |q.enqueued| == Enqueues(run) && |q.done| == Successes(run)
            && |q.started| == |q.active| + Successes(run) + Failures(run)
            && (q.destroyed <==> Stops(run) > 0)
  {
    OutcomesFrom(EMPTY, run);
  }

  /** A stopped queue begins nothing any more. */
  lemma {:induction false} StoppedBeginsNothing(q: Queue, run: seq<Event>)
    requires Possible(q, run) && q.destroyed
    ensures After(q, run).started == q.started && After(q, run).destroyed
    decreases |run|
  {
    if run != [] { StoppedBeginsNothing(Step(q, run[0]), run[1..]); }
  }

  // ---- Termination ------------------------------------------------------------------------------------------------

  function Remaining(jobs: seq<Job>): int {
    if jobs == [] then 0 else MAX_ATTEMPTS - jobs[0].attempts + Remaining(jobs[1..])
  }

  function Measure(q: Queue): int {
    2 * (Remaining(q.waiting) + Remaining(q.active)) + q.callbacks
  }

  lemma {:induction false} RemainingConcat(a: seq<Job>, b: seq<Job>)
    ensures Remaining(a + b) == Remaining(a) + Remaining(b)
  {
    if a == [] {
      assert a + b == b;
    } else {
      assert (a + b)[1..] == a[1..] + b;
      RemainingConcat(a[1..], b);
    }
  }

  lemma WithoutIsConcat(a: seq<Job>, i: nat)
    requires i < |a|
    ensures Without(a, i) == a[..i] + a[i + 1..]
  {
  }

  lemma RemainingWithout(a: seq<Job>, i: nat)
    requires i < |a|
    ensures Remaining(a) == Remaining(Without(a, i)) + MAX_ATTEMPTS - a[i].attempts
  {
    hide Without;
    var tail := a[i + 1..];
    assert a == a[..i] + ([a[i]] + tail);
    assert ([a[i]] + tail)[1..] == tail;
    WithoutIsConcat(a, i);
    RemainingConcat(a[..i], [a[i]] + a[i + 1..]);
    RemainingConcat(a[..i], a[i + 1..]);
  }

  lemma RemainingAppend(a: seq<Job>, j: Job)
    ensures Remaining(a + [j]) == Remaining(a) + MAX_ATTEMPTS - j.attempts
  {
    RemainingConcat(a, [j]);
    assert Remaining([j]) == MAX_ATTEMPTS - j.attempts + Remaining([]);
  }

  lemma {:induction false} RemainingNonnegative(a: seq<Job>)
    requires forall j <- a :: j.attempts < MAX_ATTEMPTS
    ensures Remaining(a) >= 0
  {
    if a != [] { RemainingNonnegative(a[1..]); }
  }

  /** Without new jobs every start, success, retry and dead-lettering brings the measure down, and it is never
      negative: processing terminates. */
  lemma StepDecreases(q: Queue, e: Event)
    requires Inv(q) && Enabled(q, e) && !e.Enqueue? && !e.Stop?
    ensures 0 <= Measure(Step(q, e)) < Measure(q)
  {
    StepPreserves(q, e);
    var r := Step(q, e);
    RemainingNonnegative(r.waiting);
    RemainingNonnegative(r.active);
    hide Inv;
    match e
    case Callback =>
      if !q.destroyed && q.waiting != [] { RemainingAppend(q.active, q.waiting[0]); }
    case Succeed(i) =>
      assert Inv(q);
      Awaited(q, i);
      RemainingWithout(q.active, i);
    case Fail(i) =>
      Awaited(q, i);
      RemainingWithout(q.active, i);
      RemainingAppend(q.waiting, q.active[i].(attempts := q.active[i].attempts + 1));
  }

  lemma Awaited(q: Queue, i: nat)
    requires Inv(q) && i < |q.active|
    ensures q.active[i].attempts < MAX_ATTEMPTS
  {
    assert q.active[i] in q.active;
  }

  /** So from a reachable state only finitely many steps can follow without a new job. */
  lemma {:induction false} ProcessingTerminates(q: Queue, run: seq<Event>)
    requires Inv(q) && Possible(q, run) && forall e <- run :: !e.Enqueue? && !e.Stop?
    ensures |run| <= Measure(q)
    decreases |run|
  {
    if run != [] {
      StepDecreases(q, run[0]);
      StepPreserves(q, run[0]);
      ProcessingTerminates(Step(q, run[0]), run[1..]);
    } else {
      RemainingNonnegative(q.waiting);
      RemainingNonnegative(q.active);
    }
  }

  lemma {:induction false} LengthFrom(q: Queue, run: seq<Event>)
    requires Inv(q) && Possible(q, run)
    ensures |run| <= Measure(q) + 8 * Enqueues(run) + Stops(run)
    decreases |run|
  {
    if run != [] {
      StepPreserves(q, run[0]);
      var r := Step(q, run[0]);
      assert Measure(r) <= Measure(q) + (if run[0].Enqueue? then 7 else if run[0].Stop? then 0 else -1) by {
        match run[0]
        case Enqueue(id) => RemainingAppend(q.waiting, Job(id, 0));
        case Stop =>
        case _ => StepDecreases(q, run[0]);
      }
      hide Inv, Step, Measure, Enabled;
      LengthFrom(r, run[1..]);
    } else {
      RemainingNonnegative(q.waiting);
      RemainingNonnegative(q.active);
    }
  }

  /** However jobs fail, a run has at most eight steps for each of its jobs, beside the stops. */
  lemma RunLengthBound(run: seq<Event>)
    requires Possible(EMPTY, run)
    ensures |run| <= 8 * Enqueues(run) + Stops(run)
  {
    InitialInv();
    LengthFrom(EMPTY, run);
  }

  // ---- The service --------------------------------------------------------------------------------------------------

  /** The dead-letter entries of one queue. */
  function DeadOf(entries: seq<DeadLetter>, name: QueueName): seq<Job> {
    if entries == [] then []
    else (if entries[0].queueName == name then [entries[0].job] else []) + DeadOf(entries[1..], name)
  }

  lemma DeadHead(entries: seq<DeadLetter>, name: QueueName)
    requires entries != []
    ensures DeadOf(entries, name) ==
              if entries[0].queueName == name then [entries[0].job] + DeadOf(entries[1..], name)
              else DeadOf(entries[1..], name)
  {
  }

  lemma {:induction false} DeadAppend(entries: seq<DeadLetter>, e: DeadLetter, name: QueueName)
    ensures DeadOf(entries + [e], name) == DeadOf(entries, name) + if e.queueName == name then [e.job] else []
  {
    if entries == [] {
      assert entries + [e] == [e];
    } else {
      hide DeadOf;
      DeadHead(entries + [e], name);
      DeadHead(entries, name);
      assert (entries + [e])[1..] == entries[1..] + [e];
      DeadAppend(entries[1..], e, name);
    }
  }

  /** What happened to a queue so far, kept for the specification only. */
  datatype History = History(enqueued: seq<Id>, firstStarted: seq<Id>, started: seq<Id>, done: seq<Job>)

  /** The service's fields as one value. */
  datatype Tables = Tables(
    queues: map<QueueName, seq<Job>>,
    stats: map<QueueName, Stat>,
    dead: seq<DeadLetter>,
    destroyed: bool,
    scheduled: map<QueueName, nat>,
    awaited: map<QueueName, seq<Job>>,
    history: map<QueueName, History>)

  /** Every queue has its rows: the constructor creates them and nothing removes them. */
  ghost predicate Complete(t: Tables) {
    forall name :: HasRows(t, name)
  }

  predicate HasRows(t: Tables, name: QueueName) {
    name in t.queues && name in t.stats && name in t.scheduled && name in t.awaited && name in t.history
  }

  function ViewOf(t: Tables, name: QueueName): Queue
    requires HasRows(t, name)
  {
    var h := t.history[name];
    Queue(t.queues[name], t.awaited[name], DeadOf(t.dead, name), t.stats[name], t.scheduled[name], t.destroyed,
          h.enqueued, h.firstStarted, h.started, h.done)
  }

  /** t with the rows of one queue replaced. */
  function Put(t: Tables, name: QueueName, waiting: seq<Job>, active: seq<Job>, dead: seq<DeadLetter>, stat: Stat,
               callbacks: nat, h: History): Tables {
    t.(queues := t.queues[name := waiting], awaited := t.awaited[name := active], dead := dead,
       stats := t.stats[name := stat], scheduled := t.scheduled[name := callbacks], history := t.history[name := h])
  }

  /** A step on one queue: its view takes the step and every other queue's view stays. */
  ghost predicate OneStep(t: Tables, u: Tables, name: QueueName, e: Event)
    requires Complete(t) && Complete(u)
  {
    && Enabled(ViewOf(t, name), e)
    && ViewOf(u, name) == Step(ViewOf(t, name), e)
    && forall other :: other != name ==> ViewOf(u, other) == ViewOf(t, other)
  }

  /** Replacing one queue's rows so that its view takes a step is a step on that queue alone. */
  lemma PutIsOneStep(t: Tables, name: QueueName, waiting: seq<Job>, active: seq<Job>, dead: seq<DeadLetter>, stat: Stat,
                     callbacks: nat, h: History, e: Event)
    requires Complete(t) && Enabled(ViewOf(t, name), e)
    requires dead == t.dead || exists j :: dead == t.dead + [DeadLetter(name, j)]
    requires Step(ViewOf(t, name), e) == Queue(waiting, active, DeadOf(dead, name), stat, callbacks, t.destroyed,
                                               h.enqueued, h.firstStarted, h.started, h.done)
    ensures var u := Put(t, name, waiting, active, dead, stat, callbacks, h);
            Complete(u) && OneStep(t, u, name, e)
  {
    hide Step, Enabled, DeadOf, Put, HasRows, ViewOf;
    forall other
      ensures HasRows(t, other)
      ensures var u := Put(t, name, waiting, active, dead, stat, callbacks, h);
              HasRows(u, other) && (other != name ==> ViewOf(u, other) == ViewOf(t, other))
    {
      assert HasRows(t, other);
      if other != name { DeadElsewhere(t, name, dead, other); }
      PutElsewhere(t, name, waiting, active, dead, stat, callbacks, h, other);
    }
    PutHere(t, name, waiting, active, dead, stat, callbacks, h);
  }

  lemma PutElsewhere(t: Tables, name: QueueName, waiting: seq<Job>, active: seq<Job>, dead: seq<DeadLetter>, stat: Stat,
                     callbacks: nat, h: History, other: QueueName)
    requires HasRows(t, other)
    ensures var u := Put(t, name, waiting, active, dead, stat, callbacks, h);
            && HasRows(u, other)
            && (other != name && DeadOf(dead, other) == DeadOf(t.dead, other) ==> ViewOf(u, other) == ViewOf(t, other))
  {
    hide DeadOf;
  }

  lemma DeadElsewhere(t: Tables, name: QueueName, dead: seq<DeadLetter>, other: QueueName)
    requires other != name && (dead == t.dead || exists j :: dead == t.dead + [DeadLetter(name, j)])
    ensures DeadOf(dead, other) == DeadOf(t.dead, other)
  {
    hide DeadOf;
    if dead != t.dead {
      var j :| dead == t.dead + [DeadLetter(name, j)];
      DeadAppend(t.dead, DeadLetter(name, j), other);
    }
  }

  lemma PutHere(t: Tables, name: QueueName, waiting: seq<Job>, active: seq<Job>, dead: seq<DeadLetter>, stat: Stat,
                callbacks: nat, h: History)
    ensures var u := Put(t, name, waiting, active, dead, stat, callbacks, h);
            HasRows(u, name)
            && ViewOf(u, name) == Queue(waiting, active, DeadOf(dead, name), stat, callbacks, t.destroyed,
                                        h.enqueued, h.firstStarted, h.started, h.done)
  {
    hide DeadOf;
  }

  lemma PutSame<V>(m: map<QueueName, V>, name: QueueName)
    requires name in m
    ensures m[name := m[name]] == m
  {
  }

  lemma AllNamed(name: QueueName)
    ensures name in ALL_QUEUE_NAMES
  {
  }

  /** The fields after a job was enqueued. */
  ghost function Entered(t: Tables, name: QueueName, id: Id): Tables
    requires HasRows(t, name)
  {
    var h := t.history[name];
    t.(queues := t.queues[name := t.queues[name] + [Job(id, 0)]],
       stats := t.stats[name := Bumped(t.stats[name], 1, 0, 0, 0)],
       scheduled := t.scheduled[name := t.scheduled[name] + 1],
       history := t.history[name := h.(enqueued := h.enqueued + [id])])
  }

  lemma EnteredIsOneStep(t: Tables, name: QueueName, id: Id)
    requires Complete(t) && HasRows(t, name) && id !in t.history[name].enqueued
    ensures Complete(Entered(t, name, id)) && OneStep(t, Entered(t, name, id), name, Enqueue(id))
  {
    hide OneStep, DeadOf;
    var h := t.history[name];
    PutSame(t.awaited, name);
    PutIsOneStep(t, name, t.queues[name] + [Job(id, 0)], t.awaited[name], t.dead, Bumped(t.stats[name], 1, 0, 0, 0),
                 t.scheduled[name] + 1, h.(enqueued := h.enqueued + [id]), Enqueue(id));
  }

  /** The fields after job i of a queue succeeded. */
  ghost function Succeeded(t: Tables, name: QueueName, i: nat): Tables
    requires HasRows(t, name) && i < |t.awaited[name]|
  {
    var h := t.history[name];
    t.(awaited := t.awaited[name := Without(t.awaited[name], i)],
       stats := t.stats[name := Bumped(t.stats[name], 0, -1, 1, 0)],
       scheduled := if t.queues[name] != [] then t.scheduled[name := t.scheduled[name] + 1] else t.scheduled,
       history := t.history[name := h.(done := h.done + [t.awaited[name][i]])])
  }

  lemma SucceededIsOneStep(t: Tables, name: QueueName, i: nat)
    requires Complete(t) && HasRows(t, name) && i < |t.awaited[name]|
    ensures Complete(Succeeded(t, name, i)) && OneStep(t, Succeeded(t, name, i), name, Succeed(i))
  {
    hide OneStep, DeadOf, Without;
    var h := t.history[name];
    PutSame(t.queues, name);
    PutSame(t.scheduled, name);
    PutIsOneStep(t, name, t.queues[name], Without(t.awaited[name], i), t.dead, Bumped(t.stats[name], 0, -1, 1, 0),
                 if t.queues[name] != [] then t.scheduled[name] + 1 else t.scheduled[name],
                 h.(done := h.done + [t.awaited[name][i]]), Succeed(i));
  }

  /** The fields after a callback began a job. */
  ghost function Begun(t: Tables, name: QueueName): Tables
    requires HasRows(t, name) && t.queues[name] != [] && t.scheduled[name] > 0
  {
    var job, h := t.queues[name][0], t.history[name];
    t.(queues := t.queues[name := t.queues[name][1..]],
       awaited := t.awaited[name := t.awaited[name] + [job]],
       stats := t.stats[name := Bumped(t.stats[name], -1, 1, 0, 0)],
       scheduled := t.scheduled[name := t.scheduled[name] - 1],
       history := t.history[name := BegunHistory(h, job)])
  }

  ghost function BegunHistory(h: History, job: Job): History {
    h.(started := h.started + [job.id],
       firstStarted := if job.attempts == 0 then h.firstStarted + [job.id] else h.firstStarted)
  }

  lemma BegunIsOneStep(t: Tables, name: QueueName)
    requires Complete(t) && HasRows(t, name) && t.queues[name] != [] && t.scheduled[name] > 0 && !t.destroyed
    ensures Complete(Begun(t, name)) && OneStep(t, Begun(t, name), name, Callback)
  {
    hide OneStep, DeadOf;
    var job := t.queues[name][0];
    PutIsOneStep(t, name, t.queues[name][1..], t.awaited[name] + [job], t.dead, Bumped(t.stats[name], -1, 1, 0, 0),
                 t.scheduled[name] - 1, BegunHistory(t.history[name], job), Callback);
  }

  lemma IdleIsOneStep(t: Tables, name: QueueName)
    requires Complete(t) && HasRows(t, name) && t.scheduled[name] > 0 && (t.destroyed || t.queues[name] == [])
    ensures var u := t.(scheduled := t.scheduled[name := t.scheduled[name] - 1]);
            Complete(u) && OneStep(t, u, name, Callback)
  {
    hide OneStep, DeadOf;
    PutSame(t.queues, name);
    PutSame(t.awaited, name);
    PutSame(t.stats, name);
    PutSame(t.history, name);
    PutIsOneStep(t, name, t.queues[name], t.awaited[name], t.dead, t.stats[name], t.scheduled[name] - 1,
                 t.history[name], Callback);
  }

  /** The fields after job i of a queue failed and is retried. */
  function Retried(t: Tables, name: QueueName, i: nat): Tables
    requires HasRows(t, name) && i < |t.awaited[name]|
  {
    t.(queues := t.queues[name := t.queues[name] + [Attempted(t, name, i)]],
       awaited := t.awaited[name := Without(t.awaited[name], i)],
       stats := t.stats[name := Bumped(t.stats[name], 1, -1, 0, 0)],
       scheduled := t.scheduled[name := t.scheduled[name] + 1])
  }

  /** The fields after job i of a queue failed for the last time. */
  function DeadLettered(t: Tables, name: QueueName, i: nat): Tables
    requires HasRows(t, name) && i < |t.awaited[name]|
  {
    t.(awaited := t.awaited[name := Without(t.awaited[name], i)],
       dead := t.dead + [DeadLetter(name, Attempted(t, name, i))],
       stats := t.stats[name := Bumped(t.stats[name], 0, -1, 0, 1)],
       scheduled := if t.queues[name] != [] then t.scheduled[name := t.scheduled[name] + 1] else t.scheduled)
  }

  function Attempted(t: Tables, name: QueueName, i: nat): Job
    requires HasRows(t, name) && i < |t.awaited[name]|
  {
    t.awaited[name][i].(attempts := t.awaited[name][i].attempts + 1)
  }

  lemma RetriedIsOneStep(t: Tables, name: QueueName, i: nat)
    requires Complete(t) && HasRows(t, name) && i < |t.awaited[name]| && Attempted(t, name, i).attempts < MAX_ATTEMPTS
    ensures Complete(Retried(t, name, i)) && OneStep(t, Retried(t, name, i), name, Fail(i))
  {
    hide OneStep, DeadOf, Without;
    PutSame(t.history, name);
    PutIsOneStep(t, name, t.queues[name] + [Attempted(t, name, i)], Without(t.awaited[name], i), t.dead,
                 Bumped(t.stats[name], 1, -1, 0, 0), t.scheduled[name] + 1, t.history[name], Fail(i));
  }

  lemma DeadLetteredIsOneStep(t: Tables, name: QueueName, i: nat)
    requires Complete(t) && HasRows(t, name) && i < |t.awaited[name]| && Attempted(t, name, i).attempts >= MAX_ATTEMPTS
    ensures Complete(DeadLettered(t, name, i)) && OneStep(t, DeadLettered(t, name, i), name, Fail(i))
  {
    hide OneStep, DeadOf, Without;
    PutSame(t.queues, name);
    PutSame(t.scheduled, name);
    PutSame(t.history, name);
    DeadAppend(t.dead, DeadLetter(name, Attempted(t, name, i)), name);
    PutIsOneStep(t, name, t.queues[name], Without(t.awaited[name], i),
                 t.dead + [DeadLetter(name, Attempted(t, name, i))], Bumped(t.stats[name], 0, -1, 0, 1),
                 if t.queues[name] != [] then t.scheduled[name] + 1 else t.scheduled[name], t.history[name], Fail(i));
  }

  /** The fields after job i of a queue failed: retried or dead-lettered. */
  function Failed(t: Tables, name: QueueName, i: nat): Tables
    requires HasRows(t, name) && i < |t.awaited[name]|
  {
    if Attempted(t, name, i).attempts < MAX_ATTEMPTS then Retried(t, name, i) else DeadLettered(t, name, i)
  }

  lemma FailedIsOneStep(t: Tables, name: QueueName, i: nat)
    requires Complete(t) && HasRows(t, name) && i < |t.awaited[name]|
    ensures Complete(Failed(t, name, i)) && OneStep(t, Failed(t, name, i), name, Fail(i))
  {
    hide OneStep, Retried, DeadLettered;
    if Attempted(t, name, i).attempts < MAX_ATTEMPTS {
      RetriedIsOneStep(t, name, i);
    } else {
      DeadLetteredIsOneStep(t, name, i);
    }
  }

  class InMemoryQueueService {
    var queues: map<QueueName, seq<Job>>
    var stats: map<QueueName, Stat>
    var deadLetterQueue: seq<DeadLetter>
    var destroyed: bool
    // The runtime's share of the state: scheduled callbacks and jobs whose processing is awaited.
    var scheduled: map<QueueName, nat>
    var awaited: map<QueueName, seq<Job>>
    ghost var history: map<QueueName, History>

    ghost function State(): Tables
      reads this
    {
      Tables(queues, stats, deadLetterQueue, destroyed, scheduled, awaited, history)
    }

    ghost predicate Valid()
      reads this
    {
      Complete(State())
    }

    constructor ()
      ensures Valid() && forall name :: ViewOf(State(), name) == EMPTY
    {
      queues := map name | name in ALL_QUEUE_NAMES :: [];
      stats := map name | name in ALL_QUEUE_NAMES :: Stat(0, 0, 0, 0);
      deadLetterQueue := [];
      destroyed := false;
      scheduled := map name | name in ALL_QUEUE_NAMES :: 0;
      awaited := map name | name in ALL_QUEUE_NAMES :: [];
      history := map name | name in ALL_QUEUE_NAMES :: History([], [], [], []);
      new;
      forall name ensures HasRows(State(), name) {
        AllNamed(name);
      }
    }

    method StopQueues()
      requires Valid()
      modifies this
      ensures State() == old(State()).(destroyed := true)
      ensures Valid() && forall name :: ViewOf(State(), name) == Step(ViewOf(old(State()), name), Stop)
    {
      ghost var before := State();
      destroyed := true;
      forall name ensures HasRows(State(), name) {
        assert HasRows(before, name);
      }
    }

    /** `id` stands for the fresh UUID. */
    method EnqueueJob(name: QueueName, id: Id) returns (jobId: Id)
      requires Valid() && HasRows(State(), name) && id !in history[name].enqueued
      modifies this
      ensures Valid() && OneStep(old(State()), State(), name, Enqueue(id)) && jobId == id
    {
      ghost var before := State();
      ghost var after := Entered(before, name, id);
      EnteredIsOneStep(before, name, id);
      hide OneStep, Complete, ViewOf, Step, DeadOf, Enabled;
      queues := queues[name := queues[name] + [Job(id, 0)]];
      BumpStat(name, 1, 0, 0, 0);
      scheduled := scheduled[name := scheduled[name] + 1];
      history := after.history;
      assert State() == after;
      return id;
    }

    method BumpStat(name: QueueName, waiting: int, active: int, completed: int, failed: int)
      requires name in stats
      modifies this`stats
      ensures stats == old(stats)[name := Bumped(old(stats[name]), waiting, active, completed, failed)]
    {
      stats := stats[name := Bumped(stats[name], waiting, active, completed, failed)];
    }

    /** Schedules a callback while jobs wait. */
    method WakeUp(name: QueueName)
      requires name in queues && name in scheduled
      modifies this`scheduled
      ensures scheduled == if queues[name] != [] then old(scheduled)[name := old(scheduled[name]) + 1]
                           else old(scheduled)
    {
      if |queues[name]| > 0 {
        scheduled := scheduled[name := scheduled[name] + 1];
      }
    }

    /** processNext up to its await, run by one scheduled callback. */
    method ProcessNext(name: QueueName)
      requires Valid() && HasRows(State(), name) && scheduled[name] > 0
      modifies this
      ensures Valid() && OneStep(old(State()), State(), name, Callback)
    {
      if destroyed || |queues[name]| == 0 {
        IdleIsOneStep(State(), name);
        hide OneStep, Complete, ViewOf, Step, DeadOf, Enabled;
        scheduled := scheduled[name := scheduled[name] - 1];
        return;
      }
      BegunIsOneStep(State(), name);
      hide OneStep, Complete, ViewOf, Step, DeadOf, Enabled, Begun;
      BeginJob(name);
    }

    /** The first job is taken off the queue and handed to the processor. */
    method BeginJob(name: QueueName)
      requires HasRows(State(), name) && queues[name] != [] && scheduled[name] > 0
      modifies this
      ensures State() == Begun(old(State()), name)
    {
      var job := queues[name][0];
      scheduled := scheduled[name := scheduled[name] - 1];
      queues := queues[name := queues[name][1..]];
      BumpStat(name, -1, 1, 0, 0);
      awaited := awaited[name := awaited[name] + [job]];
      history := history[name := BegunHistory(history[name], job)];
    }

    /** The awaited job resolves: the rest of the try branch. */
    method JobSucceeds(name: QueueName, i: nat)
      requires Valid() && HasRows(State(), name) && i < |awaited[name]|
      modifies this
      ensures Valid() && OneStep(old(State()), State(), name, Succeed(i))
    {
      ghost var before := State();
      ghost var after := Succeeded(before, name, i);
      SucceededIsOneStep(before, name, i);
      hide OneStep, Complete, ViewOf, Step, DeadOf, Enabled;
      awaited := awaited[name := Without(awaited[name], i)];
      BumpStat(name, 0, -1, 1, 0);
      WakeUp(name);
      history := after.history;
      assert State() == after;
    }

    /** The awaited job throws: the catch branch, a retry or the dead-letter list. */
    method JobFails(name: QueueName, i: nat)
      requires Valid() && HasRows(State(), name) && i < |awaited[name]|
      modifies this
      ensures Valid() && OneStep(old(State()), State(), name, Fail(i))
    {
      FailedIsOneStep(State(), name, i);
      hide OneStep, Complete, ViewOf, Step, Retried, DeadLettered;
      var job := awaited[name][i].(attempts := awaited[name][i].attempts + 1);
      if job.attempts < MAX_ATTEMPTS {
        RetryJob(name, i, job);
        return;
      }
      DropJob(name, i, job);
    }

    method RetryJob(name: QueueName, i: nat, job: Job)
      requires HasRows(State(), name) && i < |awaited[name]| && job == Attempted(State(), name, i)
      modifies this
      ensures State() == Retried(old(State()), name, i)
    {
      hide Without;
      awaited := awaited[name := Without(awaited[name], i)];
      BumpStat(name, 1, -1, 0, 0);
      queues := queues[name := queues[name] + [job]];
      scheduled := scheduled[name := scheduled[name] + 1];
    }

    method DropJob(name: QueueName, i: nat, job: Job)
      requires HasRows(State(), name) && i < |awaited[name]| && job == Attempted(State(), name, i)
      modifies this
      ensures State() == DeadLettered(old(State()), name, i)
    {
      hide Without;
      awaited := awaited[name := Without(awaited[name], i)];
      BumpStat(name, 0, -1, 0, 1);
      deadLetterQueue := deadLetterQueue + [DeadLetter(name, job)];
      WakeUp(name);
    }
  }
}
