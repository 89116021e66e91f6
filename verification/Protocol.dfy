/** executeWorkflowRun of lib/execute.ts as atomic database steps, interleaved over any number of workers. */
module Protocol {
  import opened Graphs
  import opened Runner
  import opened Sequences

  datatype Status = Started | Failed | Filtered | Succeeded | Retrying

  /** A row of the run table; its position is its id. */
  datatype Row = Row(organizationId: string, executionId: string, status: Status)

  datatype LetterCause = InvalidGraph(errors: seq<GraphError>) | StepFailure(report: FailureReport)

  datatype DeadLetter = DeadLetter(runId: nat, cause: LetterCause)

  datatype Job = Job(organizationId: string, executionId: string, manual: bool)

  /** What the workflow table holds for a job: nothing, or a workflow with the errors of its graph. */
  datatype Workflow = NoWorkflow | Workflow(active: bool, errors: seq<GraphError>)

  datatype Outcome = Threw | Finished(status: RunStatus, report: FailureReport)

  /** What a worker meets outside the run tables. */
  datatype Choice = Choice(workflow: Workflow, outcome: Outcome)

  /** Where a worker stands between two database operations. */
  datatype Place =
    | Idle
    | Finding(job: Job)
    | Loading(job: Job)
    | CreatingFailed(job: Job, errors: seq<GraphError>)
    | CreatingStarted(job: Job)
    | Entering(run: nat)
    | Executing(run: nat)
    | SavingFailed(run: nat, report: FailureReport)
    | Saving(run: nat, status: Status)
    | Lettering(run: nat, cause: LetterCause)

  /** The two tables, the workers, and the history of executions entered. */
  datatype State = State(rows: seq<Row>, letters: seq<DeadLetter>, places: map<nat, Place>, executed: seq<string>)

  datatype Event =
    | Deliver(worker: nat, job: Job)
    | Advance(worker: nat, choice: Choice)
    | Crash(worker: nat)
    | Retry(run: nat)

  const EMPTY := State([], [], map[], [])

  function PlaceOf(s: State, w: nat): Place {
    if w in s.places then s.places[w] else Idle
  }

  function Move(s: State, w: nat, p: Place): State {
    s.(places := s.places[w := p])
  }

  /** The unique key on the execution id. */
  predicate Taken(rows: seq<Row>, executionId: string) {
    exists i :: 0 <= i < |rows| && rows[i].executionId == executionId
  }

  predicate Visible(rows: seq<Row>, job: Job) {
    exists i :: 0 <= i < |rows|
                && rows[i].executionId == job.executionId && rows[i].organizationId == job.organizationId
  }

  function WithStatus(rows: seq<Row>, run: nat, status: Status): seq<Row> {
    if run < |rows| then rows[run := rows[run].(status := status)] else rows
  }

  function StatusOf(status: RunStatus): Status {
    match status
    case RunSucceeded => Succeeded
    case RunFailed => Failed
    case RunFiltered => Filtered
  }

  /** One step of a worker: at most one operation on the tables. */
  function Proceed(s: State, w: nat, choice: Choice): State {
    match PlaceOf(s, w)
    case Idle => s
    case Finding(job) => Move(s, w, if Visible(s.rows, job) then Idle else Loading(job))
    case Loading(job) =>
      Move(s, w,
           match choice.workflow
           case NoWorkflow => Idle
           case Workflow(active, errors) =>
             if !job.manual && !active then Idle
             else if errors != [] then CreatingFailed(job, errors)
             else CreatingStarted(job))
    case CreatingFailed(job, errors) =>
      if Taken(s.rows, job.executionId) then Move(s, w, Idle)
      else
        Move(s.(rows := s.rows + [Row(job.organizationId, job.executionId, Failed)]), w,
             Lettering(|s.rows|, InvalidGraph(errors)))
    case CreatingStarted(job) =>
      if Taken(s.rows, job.executionId) then Move(s, w, Idle)
      else Move(s.(rows := s.rows + [Row(job.organizationId, job.executionId, Started)]), w, Entering(|s.rows|))
    case Entering(run) =>
      var entered := if run < |s.rows| then s.(executed := s.executed + [s.rows[run].executionId]) else s;
      Move(entered, w, Executing(run))
    case Executing(run) =>
      Move(s, w,
           match choice.outcome
           case Threw => Idle
           case Finished(status, report) =>
             if status == RunFailed then SavingFailed(run, report) else Saving(run, StatusOf(status)))
    case SavingFailed(run, report) =>
      Move(s.(rows := WithStatus(s.rows, run, Failed)), w, Lettering(run, StepFailure(report)))
    case Saving(run, status) => Move(s.(rows := WithStatus(s.rows, run, status)), w, Idle)
    case Lettering(run, cause) => Move(s.(letters := s.letters + [DeadLetter(run, cause)]), w, Idle)
  }

  /** Jobs are delivered to idle workers, any job any number of times; a crash forgets what a worker was
      doing; the retry route marks any run at any moment. */
  function Apply(s: State, e: Event): State {
    match e
    case Deliver(w, job) => if PlaceOf(s, w) == Idle then Move(s, w, Finding(job)) else s
    case Advance(w, choice) => Proceed(s, w, choice)
    case Crash(w) => Move(s, w, Idle)
    case Retry(run) => s.(rows := WithStatus(s.rows, run, Retrying))
  }

  function Run(s: State, events: seq<Event>): State {
    if events == [] then s else Apply(Run(s, events[..|events| - 1]), events[|events| - 1])
  }

  // ----- ownership -----

  /** Only the worker whose insert succeeded ever holds the id of the new run. */
  predicate Owns(p: Place, run: nat) {
    match p
    case Entering(r) => r == run
    case Executing(r) => r == run
    case SavingFailed(r, _) => r == run
    case Saving(r, _) => r == run
    case Lettering(r, _) => r == run
    case _ => false
  }

  ghost predicate Owned(s: State, run: nat) {
    exists w :: w in s.places && Owns(s.places[w], run)
  }

  ghost predicate HasLetter(s: State, run: nat) {
    exists i :: 0 <= i < |s.letters| && s.letters[i].runId == run
  }

  predicate FailedOrRetrying(status: Status) {
    status == Failed || status == Retrying
  }

  /** What the place of a worker that owns a run says about the run. */
  ghost predicate PlaceFits(s: State, p: Place) {
    match p
    case Entering(run) => run < |s.rows| && s.rows[run].executionId !in s.executed && !HasLetter(s, run)
    case Executing(run) => run < |s.rows| && !HasLetter(s, run)
    case SavingFailed(run, _) => run < |s.rows| && !HasLetter(s, run)
    case Saving(run, status) =>
      run < |s.rows| && !HasLetter(s, run) && (status == Succeeded || status == Filtered)
    case Lettering(run, _) => run < |s.rows| && !HasLetter(s, run) && FailedOrRetrying(s.rows[run].status)
    case _ => true
  }

  ghost predicate UniqueRows(rows: seq<Row>) {
    forall i, j :: 0 <= i < j < |rows| ==> rows[i].executionId != rows[j].executionId
  }

  ghost predicate Exclusive(s: State) {
    forall v, w, run :: v in s.places && w in s.places && Owns(s.places[v], run) && Owns(s.places[w], run) ==> v == w
  }

  ghost predicate LettersFit(s: State) {
    && (forall i :: 0 <= i < |s.letters| ==>
          s.letters[i].runId < |s.rows| && FailedOrRetrying(s.rows[s.letters[i].runId].status))
    && forall i, j :: 0 <= i < j < |s.letters| ==> s.letters[i].runId != s.letters[j].runId
  }

  ghost predicate Invariant(s: State) {
    && UniqueRows(s.rows)
    && Exclusive(s)
    && (forall w :: w in s.places ==> PlaceFits(s, s.places[w]))
    && LettersFit(s)
    && NoDup(s.executed)
    && forall e :: e in s.executed ==> Taken(s.rows, e)
  }

  // ----- every step keeps the invariant -----

  /** A worker gives up whatever it was doing, or takes up something that owns nothing. */
  lemma MoveKeeps(s: State, w: nat, p: Place)
    requires Invariant(s) && (p.Idle? || p.Finding? || p.Loading? || p.CreatingFailed? || p.CreatingStarted?)
    ensures Invariant(Move(s, w, p))
  {
    var s' := Move(s, w, p);
    forall v | v in s'.places
      ensures PlaceFits(s', s'.places[v])
    {
      if v != w {
        assert PlaceFits(s, s.places[v]);
      }
    }
  }

  lemma StatusKeeps(s: State, run: nat, status: Status)
    requires Invariant(s)
    requires HasLetter(s, run) ==> FailedOrRetrying(status)
    requires forall w, cause :: w in s.places && s.places[w] == Lettering(run, cause) ==> FailedOrRetrying(status)
    ensures Invariant(s.(rows := WithStatus(s.rows, run, status)))
  {
    var s' := s.(rows := WithStatus(s.rows, run, status));
    assert forall i :: 0 <= i < |s.rows| ==> s'.rows[i].executionId == s.rows[i].executionId;
    forall v | v in s'.places
      ensures PlaceFits(s', s'.places[v])
    {
      assert PlaceFits(s, s.places[v]);
    }
    forall i | 0 <= i < |s.letters|
      ensures FailedOrRetrying(s'.rows[s.letters[i].runId].status)
    {
      if s.letters[i].runId == run {
        assert HasLetter(s, run);
      }
    }
    forall e | e in s.executed
      ensures Taken(s'.rows, e)
    {
      var i :| 0 <= i < |s.rows| && s.rows[i].executionId == e;
      assert s'.rows[i].executionId == e;
    }
  }

  /** A successful insert: the row is new, and its id belongs to the inserting worker alone. */
  lemma InsertKeeps(s: State, w: nat, row: Row, p: Place)
    requires Invariant(s) && !Taken(s.rows, row.executionId)
    requires p == Entering(|s.rows|) || (p.Lettering? && p.run == |s.rows| && row.status == Failed)
    ensures Invariant(Move(s.(rows := s.rows + [row]), w, p))
  {
    var run := |s.rows|;
    var s' := Move(s.(rows := s.rows + [row]), w, p);
    assert row.executionId !in s.executed;
    assert forall i :: 0 <= i < |s.letters| ==> s.letters[i].runId < run;
    assert !HasLetter(s', run);
    forall v | v in s'.places
      ensures PlaceFits(s', s'.places[v])
    {
      if v != w {
        assert PlaceFits(s, s.places[v]);
      }
    }
    forall v | v in s.places
      ensures !Owns(s.places[v], run)
    {
      assert PlaceFits(s, s.places[v]);
    }
    forall e | e in s.executed
      ensures Taken(s'.rows, e)
    {
      var i :| 0 <= i < |s.rows| && s.rows[i].executionId == e;
      assert s'.rows[i].executionId == e;
    }
  }

  /** An owner moves on to another place that owns the same run. */
  lemma OwnerMoves(s: State, w: nat, run: nat, p: Place)
    requires Invariant(s) && w in s.places && Owns(s.places[w], run)
    requires forall r :: Owns(p, r) ==> r == run
    requires PlaceFits(s, p)
    ensures Invariant(Move(s, w, p))
  {
    var s' := Move(s, w, p);
    forall v | v in s'.places
      ensures PlaceFits(s', s'.places[v])
    {
      if v != w {
        assert PlaceFits(s, s.places[v]);
      }
    }
  }

  lemma EnterKeeps(s: State, w: nat, run: nat)
    requires Invariant(s) && w in s.places && s.places[w] == Entering(run)
    ensures Invariant(Move(s.(executed := s.executed + [s.rows[run].executionId]), w, Executing(run)))
  {
    assert PlaceFits(s, s.places[w]);
    var e := s.rows[run].executionId;
    var s' := Move(s.(executed := s.executed + [e]), w, Executing(run));
    NoDupAppend(s.executed, e);
    forall v | v in s'.places
      ensures PlaceFits(s', s'.places[v])
    {
      if v != w {
        assert PlaceFits(s, s.places[v]);
        if s.places[v].Entering? {
          var r := s.places[v].run;
          assert Owns(s.places[v], r) && Owns(s.places[w], run);
          assert r != run;
          assert s.rows[r].executionId != e;
        }
      }
    }
  }

  lemma LetterKeeps(s: State, w: nat, run: nat, cause: LetterCause)
    requires Invariant(s) && w in s.places && s.places[w] == Lettering(run, cause)
    ensures Invariant(Move(s.(letters := s.letters + [DeadLetter(run, cause)]), w, Idle))
  {
    var s' := Move(s.(letters := s.letters + [DeadLetter(run, cause)]), w, Idle);
    assert PlaceFits(s, s.places[w]);
    assert forall i :: 0 <= i < |s.letters| ==> s.letters[i].runId != run;
    forall v | v in s'.places
      ensures PlaceFits(s', s'.places[v])
    {
      if v != w {
        assert PlaceFits(s, s.places[v]);
        assert Owns(s.places[w], run);
        assert forall r :: HasLetter(s', r) ==> r == run || HasLetter(s, r);
      }
    }
  }

  lemma SaveKeeps(s: State, w: nat, run: nat, status: Status, p: Place)
    requires Invariant(s) && w in s.places
    requires (s.places[w] == Saving(run, status) && p == Idle)
          || (s.places[w].SavingFailed? && s.places[w].run == run && status == Failed && p.Lettering? && p.run == run)
    ensures Invariant(Move(s.(rows := WithStatus(s.rows, run, status)), w, p))
  {
    assert PlaceFits(s, s.places[w]) && Owns(s.places[w], run);
    var s1 := s.(rows := WithStatus(s.rows, run, status));
    forall v, cause | v in s.places && s.places[v] == Lettering(run, cause)
      ensures FailedOrRetrying(status)
    {
      assert Owns(s.places[v], run);
      assert v == w;
    }
    StatusKeeps(s, run, status);
    OwnerMoves(s1, w, run, p);
  }

  lemma ProceedKeeps(s: State, w: nat, choice: Choice)
    requires Invariant(s)
    ensures Invariant(Proceed(s, w, choice))
  {
    var p := PlaceOf(s, w);
    if p != Idle {
      assert w in s.places && PlaceFits(s, s.places[w]);
    }
    match p
    case Idle =>
    case Finding(job) => MoveKeeps(s, w, if Visible(s.rows, job) then Idle else Loading(job));
    case Loading(job) => MoveKeeps(s, w, Proceed(s, w, choice).places[w]);
    case CreatingFailed(job, errors) =>
      if Taken(s.rows, job.executionId) {
        MoveKeeps(s, w, Idle);
      } else {
        InsertKeeps(s, w, Row(job.organizationId, job.executionId, Failed), Lettering(|s.rows|, InvalidGraph(errors)));
      }
    case CreatingStarted(job) =>
      if Taken(s.rows, job.executionId) {
        MoveKeeps(s, w, Idle);
      } else {
        InsertKeeps(s, w, Row(job.organizationId, job.executionId, Started), Entering(|s.rows|));
      }
    case Entering(run) => EnterKeeps(s, w, run);
    case Executing(run) => OwnerMoves(s, w, run, Proceed(s, w, choice).places[w]);
    case SavingFailed(run, report) => SaveKeeps(s, w, run, Failed, Lettering(run, StepFailure(report)));
    case Saving(run, status) => SaveKeeps(s, w, run, status, Idle);
    case Lettering(run, cause) => LetterKeeps(s, w, run, cause);
  }

  lemma ApplyKeeps(s: State, e: Event)
    requires Invariant(s)
    ensures Invariant(Apply(s, e))
  {
    match e
    case Deliver(w, job) =>
      if PlaceOf(s, w) == Idle {
        MoveKeeps(s, w, Finding(job));
      }
    case Advance(w, choice) => ProceedKeeps(s, w, choice);
    case Crash(w) => MoveKeeps(s, w, Idle);
    case Retry(run) => StatusKeeps(s, run, Retrying);
  }

  /** Over any interleaving of deliveries, steps, crashes and retries. */
  lemma {:induction false} RunKeepsInvariant(s: State, events: seq<Event>)
    requires Invariant(s)
    ensures Invariant(Run(s, events))
  {
    if events != [] {
      RunKeepsInvariant(s, events[..|events| - 1]);
      ApplyKeeps(Run(s, events[..|events| - 1]), events[|events| - 1]);
    }
  }

  // ----- at most once -----

  /** In every reachable state: one row per execution id, no execution id entered twice, at most one dead
      letter per run, and a letter only for a run that failed or has since been marked for retry. */
  lemma AtMostOnce(events: seq<Event>)
    ensures var s := Run(EMPTY, events);
            && UniqueRows(s.rows)
            && NoDup(s.executed)
            && (forall i, j :: 0 <= i < j < |s.letters| ==> s.letters[i].runId != s.letters[j].runId)
            && (forall i :: 0 <= i < |s.letters| ==>
                  s.letters[i].runId < |s.rows| && FailedOrRetrying(s.rows[s.letters[i].runId].status))
  {
    RunKeepsInvariant(EMPTY, events);
  }

  /** A run that no worker holds and that has no further steps to come. */
  ghost predicate Abandoned(s: State, run: nat) {
    run < |s.rows| && !Owned(s, run)
  }

  lemma OwnedByNoOther(s: State, w: nat, run: nat)
    requires !Owned(s, run)
    ensures !Owns(PlaceOf(s, w), run)
  {
    if w in s.places {
      assert !Owns(s.places[w], run);
    }
  }

  /** Once a run is abandoned, no event gives it an owner, enters it, or writes a letter for it, and only
      the retry route changes its status. */
  lemma AbandonedStep(s: State, e: Event, run: nat)
    requires Invariant(s) && Abandoned(s, run)
    ensures var s' := Apply(s, e);
            && Abandoned(s', run)
            && (s.rows[run].executionId in s'.executed ==> s.rows[run].executionId in s.executed)
            && (HasLetter(s', run) ==> HasLetter(s, run))
            && s'.rows[run].status == (if e == Retry(run) then Retrying else s.rows[run].status)
  {
    match e
    case Deliver(w, job) => AbandonedMove(s, w, if PlaceOf(s, w) == Idle then Finding(job) else PlaceOf(s, w), run);
    case Crash(w) => AbandonedMove(s, w, Idle, run);
    case Retry(r) =>
      assert forall v :: v in s.places ==> !Owns(s.places[v], run);
    case Advance(w, choice) => AbandonedProceed(s, w, choice, run);
  }

  lemma AbandonedMove(s: State, w: nat, p: Place, run: nat)
    requires Abandoned(s, run) && !Owns(p, run)
    ensures Abandoned(Move(s, w, p), run)
  {
    forall v | v in Move(s, w, p).places
      ensures !Owns(Move(s, w, p).places[v], run)
    {
      OwnedByNoOther(s, v, run);
    }
  }

  lemma AbandonedProceed(s: State, w: nat, choice: Choice, run: nat)
    requires Invariant(s) && Abandoned(s, run)
    ensures var s' := Proceed(s, w, choice);
            && Abandoned(s', run)
            && (s.rows[run].executionId in s'.executed ==> s.rows[run].executionId in s.executed)
            && (HasLetter(s', run) ==> HasLetter(s, run))
            && s'.rows[run].status == s.rows[run].status
  {
    var s' := Proceed(s, w, choice);
    OwnedByNoOther(s, w, run);
    if w in s.places {
      assert PlaceFits(s, s.places[w]);
    }
    forall v | v in s'.places
      ensures !Owns(s'.places[v], run)
    {
      OwnedByNoOther(s, v, run);
    }
  }

  /** Delivering the job again never revives an abandoned run: in particular a crash between the insert and
      the end of the run leaves the run as it is for ever, but for the mark of the retry route. */
  lemma {:induction false} AbandonedForever(s: State, events: seq<Event>, run: nat)
    requires Invariant(s) && Abandoned(s, run)
    ensures var s' := Run(s, events);
            && Abandoned(s', run)
            && s'.rows[run].executionId == s.rows[run].executionId
            && (s.rows[run].executionId in s'.executed ==> s.rows[run].executionId in s.executed)
            && (HasLetter(s', run) ==> HasLetter(s, run))
            && s'.rows[run].status == (if Retry(run) in events then Retrying else s.rows[run].status)
  {
    if events != [] {
      var init, e := events[..|events| - 1], events[|events| - 1];
      assert events == init + [e];
      AbandonedForever(s, init, run);
      RunKeepsInvariant(s, init);
      AbandonedStep(Run(s, init), e, run);
    }
  }

  // ----- runs without crashes -----

  /** No worker crashes or meets an exception, and nobody uses the retry route. */
  predicate CalmEvent(e: Event) {
    match e
    case Deliver(_, _) => true
    case Advance(_, choice) => choice.outcome != Threw
    case Crash(_) => false
    case Retry(_) => false
  }

  /** The end of a run: a success or a filtered run without a letter, or a failure with one. */
  ghost predicate Settled(s: State, run: nat)
    requires run < |s.rows|
  {
    match s.rows[run].status
    case Succeeded => !HasLetter(s, run)
    case Filtered => !HasLetter(s, run)
    case Failed => HasLetter(s, run)
    case _ => false
  }

  ghost predicate Calm(s: State) {
    forall run :: 0 <= run < |s.rows| ==> s.rows[run].status != Retrying && (Owned(s, run) || Settled(s, run))
  }

  lemma LettersOnlyGrow(s: State, e: Event, run: nat)
    requires HasLetter(s, run)
    ensures HasLetter(Apply(s, e), run)
  {
    var i :| 0 <= i < |s.letters| && s.letters[i].runId == run;
    assert Apply(s, e).letters[i].runId == run;
  }

  /** The last step of an owner settles its run. */
  lemma OwnerSettles(s: State, w: nat, choice: Choice, run: nat)
    requires Invariant(s) && Calm(s) && w in s.places && Owns(s.places[w], run) && choice.outcome != Threw
    ensures var s' := Proceed(s, w, choice);
            run < |s'.rows| && s'.rows[run].status != Retrying && (Owned(s', run) || Settled(s', run))
  {
    var s' := Proceed(s, w, choice);
    assert PlaceFits(s, s.places[w]);
    if s.places[w].Saving? {
      assert s'.letters == s.letters;
    } else if s.places[w].Lettering? {
      assert s'.letters[|s.letters|].runId == run;
    } else {
      assert Owns(s'.places[w], run);
    }
  }

  lemma CalmStep(s: State, e: Event)
    requires Invariant(s) && Calm(s) && CalmEvent(e)
    ensures Calm(Apply(s, e))
  {
    var s' := Apply(s, e);
    forall run | 0 <= run < |s'.rows|
      ensures s'.rows[run].status != Retrying && (Owned(s', run) || Settled(s', run))
    {
      if run >= |s.rows| {
        assert e.Advance? && Owns(s'.places[e.worker], run);
      } else if !Owned(s, run) {
        AbandonedStep(s, e, run);
        if HasLetter(s, run) {
          LettersOnlyGrow(s, e, run);
        }
      } else {
        var v :| v in s.places && Owns(s.places[v], run);
        if e.Advance? && e.worker == v {
          OwnerSettles(s, v, e.choice, run);
        } else {
          OtherStep(s, e, v, run);
        }
      }
    }
  }

  /** A step of another worker leaves an owned run as it is. */
  lemma OtherStep(s: State, e: Event, v: nat, run: nat)
    requires Invariant(s) && CalmEvent(e) && v in s.places && Owns(s.places[v], run)
    requires !(e.Advance? && e.worker == v)
    ensures run < |s.rows| && Owned(Apply(s, e), run) && Apply(s, e).rows[run].status == s.rows[run].status
  {
    var s' := Apply(s, e);
    assert PlaceFits(s, s.places[v]);
    assert v in s'.places && s'.places[v] == s.places[v];
    if e.Advance? && e.worker in s.places {
      assert !Owns(s.places[e.worker], run);
      assert PlaceFits(s, s.places[e.worker]);
    }
  }

  /** If nothing crashes or throws and nobody retries, then in every reachable state a run that no worker
      holds has ended, and it failed exactly when it has its dead letter. */
  lemma {:induction false} CalmRunsSettle(events: seq<Event>)
    requires forall e :: e in events ==> CalmEvent(e)
    ensures Calm(Run(EMPTY, events))
  {
    if events != [] {
      var init, e := events[..|events| - 1], events[|events| - 1];
      assert e in events && forall d :: d in init ==> d in events;
      CalmRunsSettle(init);
      RunKeepsInvariant(EMPTY, init);
      CalmStep(Run(EMPTY, init), e);
    }
  }

  // ----- one worker, undisturbed -----

  /** The steps of one worker, with the same surroundings throughout. */
  function Steps(s: State, w: nat, choice: Choice, n: nat): State
    decreases n
  {
    if n == 0 then s else Steps(Proceed(s, w, choice), w, choice, n - 1)
  }

  /** From delivery to the end takes at most seven steps. */
  function Solo(s: State, w: nat, job: Job, choice: Choice): State {
    Steps(Apply(s, Deliver(w, job)), w, choice, 7)
  }

  /** What one undisturbed execution does to the two tables. */
  function Effect(rows: seq<Row>, letters: seq<DeadLetter>, job: Job, choice: Choice): (seq<Row>, seq<DeadLetter>) {
    var run := |rows|;
    if Visible(rows, job) || choice.workflow.NoWorkflow? || (!job.manual && !choice.workflow.active)
       || Taken(rows, job.executionId) then
      (rows, letters)
    else if choice.workflow.errors != [] then
      (rows + [Row(job.organizationId, job.executionId, Failed)],
       letters + [DeadLetter(run, InvalidGraph(choice.workflow.errors))])
    else
      match choice.outcome
      case Threw => (rows + [Row(job.organizationId, job.executionId, Started)], letters)
      case Finished(status, report) =>
        (rows + [Row(job.organizationId, job.executionId, StatusOf(status))],
         if status == RunFailed then letters + [DeadLetter(run, StepFailure(report))] else letters)
  }

  lemma StepsUnfold(s: State, w: nat, choice: Choice, n: nat)
    requires n > 0
    ensures Steps(s, w, choice, n) == Steps(Proceed(s, w, choice), w, choice, n - 1)
  {
  }

  lemma {:induction false} IdleSteps(s: State, w: nat, choice: Choice, n: nat)
    requires PlaceOf(s, w) == Idle
    ensures Steps(s, w, choice, n) == s
    decreases n
  {
    if n > 0 {
      IdleSteps(s, w, choice, n - 1);
    }
  }

  /** From the insert of a started row to the end. */
  lemma SoloExecutes(s: State, w: nat, run: nat, choice: Choice)
    requires PlaceOf(s, w) == Entering(run) && run == |s.rows| - 1
    ensures var s' := Steps(s, w, choice, 4);
            && PlaceOf(s', w) == Idle
            && s'.executed == s.executed + [s.rows[run].executionId]
            && s'.rows == (match choice.outcome
                           case Threw => s.rows
                           case Finished(status, _) => WithStatus(s.rows, run, StatusOf(status)))
            && s'.letters == (match choice.outcome
                              case Threw => s.letters
                              case Finished(status, report) =>
                                if status == RunFailed then s.letters + [DeadLetter(run, StepFailure(report))]
                                else s.letters)
  {
    var s1 := Proceed(s, w, choice);
    var s2 := Proceed(s1, w, choice);
    var s3 := Proceed(s2, w, choice);
    var s4 := Proceed(s3, w, choice);
    StepsUnfold(s, w, choice, 4);
    StepsUnfold(s1, w, choice, 3);
    StepsUnfold(s2, w, choice, 2);
    StepsUnfold(s3, w, choice, 1);
    assert Steps(s4, w, choice, 0) == s4;
  }

  /** An undisturbed worker ends idle, having entered the execution exactly when its insert of a started row
      succeeded, with that effect on the tables. */
  lemma SoloEffect(s: State, w: nat, job: Job, choice: Choice)
    requires PlaceOf(s, w) == Idle
    ensures PlaceOf(Solo(s, w, job, choice), w) == Idle
    ensures (Solo(s, w, job, choice).rows, Solo(s, w, job, choice).letters) == Effect(s.rows, s.letters, job, choice)
    ensures Solo(s, w, job, choice).executed == s.executed + Entered(s.rows, job, choice)
  {
    var s0 := Apply(s, Deliver(w, job));
    var s1 := Proceed(s0, w, choice);
    var s2 := Proceed(s1, w, choice);
    var s3 := Proceed(s2, w, choice);
    StepsUnfold(s0, w, choice, 7);
    StepsUnfold(s1, w, choice, 6);
    StepsUnfold(s2, w, choice, 5);
    assert Solo(s, w, job, choice) == Steps(s3, w, choice, 4);
    if PlaceOf(s3, w) == Idle {
      IdleSteps(s3, w, choice, 4);
    } else if PlaceOf(s3, w).Entering? {
      var row := Row(job.organizationId, job.executionId, Started);
      assert s3.rows == s.rows + [row] && s3.letters == s.letters && s3.executed == s.executed;
      assert forall status :: WithStatus(s.rows + [row], |s.rows|, status) == s.rows + [row.(status := status)];
      SoloExecutes(s3, w, |s.rows|, choice);
    } else {
      StepsUnfold(s3, w, choice, 4);
      IdleSteps(Proceed(s3, w, choice), w, choice, 3);
    }
  }

  function Entered(rows: seq<Row>, job: Job, choice: Choice): seq<string> {
    if Visible(rows, job) || Taken(rows, job.executionId) || choice.workflow.NoWorkflow?
       || (!job.manual && !choice.workflow.active) || choice.workflow.errors != [] then []
    else [job.executionId]
  }

  /** A worker that crashes right after its insert leaves a run that no later event ever executes. */
  lemma CrashLosesRun(job: Job, w: nat, choice: Choice, later: seq<Event>)
    requires choice.workflow == Workflow(true, [])
    ensures var prefix := [Deliver(w, job), Advance(w, choice), Advance(w, choice), Advance(w, choice), Crash(w)];
            var s := Run(Run(EMPTY, prefix), later);
            && job.executionId !in s.executed
            && |s.rows| > 0 && s.rows[0].executionId == job.executionId
            && s.rows[0].status == (if Retry(0) in later then Retrying else Started)
  {
    var s0 := Apply(EMPTY, Deliver(w, job));
    var s1 := Apply(s0, Advance(w, choice));
    var s2 := Apply(s1, Advance(w, choice));
    var s3 := Apply(s2, Advance(w, choice));
    RunFive(EMPTY, Deliver(w, job), Advance(w, choice), Advance(w, choice), Advance(w, choice), Crash(w));
    var s4 := Apply(s3, Crash(w));
    RunKeepsInvariant(EMPTY, [Deliver(w, job), Advance(w, choice), Advance(w, choice), Advance(w, choice), Crash(w)]);
    assert s1.places[w] == Loading(job) && s2.places[w] == CreatingStarted(job);
    assert s4.rows == [Row(job.organizationId, job.executionId, Started)] && s4.executed == [];
    assert s4.places == map[w := Idle];
    AbandonedForever(s4, later, 0);
  }

  lemma RunFive(s: State, a: Event, b: Event, c: Event, d: Event, e: Event)
    ensures Run(s, [a, b, c, d, e]) == Apply(Apply(Apply(Apply(Apply(s, a), b), c), d), e)
  {
    RunSnoc(s, [], a);
    RunSnoc(s, [a], b);
    RunSnoc(s, [a, b], c);
    RunSnoc(s, [a, b, c], d);
    RunSnoc(s, [a, b, c, d], e);
    assert [] + [a] == [a] && [a] + [b] == [a, b] && [a, b] + [c] == [a, b, c];
    assert [a, b, c] + [d] == [a, b, c, d] && [a, b, c, d] + [e] == [a, b, c, d, e];
  }

  lemma RunSnoc(s: State, events: seq<Event>, e: Event)
    ensures Run(s, events + [e]) == Apply(Run(s, events), e)
  {
    assert (events + [e])[..|events|] == events;
  }
}
