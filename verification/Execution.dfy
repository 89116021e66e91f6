/** executeWorkflowRun of lib/execute.ts over the run tables of lib/data/runs.ts. */
module Execution {
  import opened Graphs
  import opened Results
  import opened Runner
  import opened Sorting
  import opened Validation
  import A = Actions
  import P = Protocol

  /** The run table and the dead-letter table. */
  class Database {
    var rows: seq<P.Row>
    var letters: seq<P.DeadLetter>

    constructor ()
      ensures rows == [] && letters == []
    {
      rows, letters := [], [];
    }

    /** Looks the unique execution id up and hides a row of another organization. */
    method FindRunByExecutionId(job: P.Job) returns (found: Option<nat>)
      ensures found.Some? <==> P.Visible(rows, job)
      ensures found.None? <==> forall i :: 0 <= i < |rows| ==>
                rows[i].executionId != job.executionId || rows[i].organizationId != job.organizationId
      ensures found.Some? ==> found.value < |rows| && rows[found.value].executionId == job.executionId
                              && rows[found.value].organizationId == job.organizationId
    {
      for i := 0 to |rows|
        invariant forall j :: 0 <= j < i ==>
                    !(rows[j].executionId == job.executionId && rows[j].organizationId == job.organizationId)
      {
        if rows[i].executionId == job.executionId && rows[i].organizationId == job.organizationId {
          return Some(i);
        }
      }
      return None;
    }

    /** Inserts a row, or reports that the execution id is taken. */
    method CreateRun(job: P.Job, status: P.Status) returns (run: Option<nat>)
      modifies this`rows
      ensures run.None? <==> P.Taken(old(rows), job.executionId)
      ensures run.None? <==> exists i :: 0 <= i < |old(rows)| && old(rows)[i].executionId == job.executionId
      ensures run.None? ==> rows == old(rows)
      ensures run.Some? ==> run.value == |old(rows)|
                            && rows == old(rows) + [P.Row(job.organizationId, job.executionId, status)]
    {
      if P.Taken(rows, job.executionId) {
        return None;
      }
      run := Some(|rows|);
      rows := rows + [P.Row(job.organizationId, job.executionId, status)];
    }

    method UpdateRun(run: nat, status: P.Status)
      modifies this`rows
      ensures rows == P.WithStatus(old(rows), run, status)
      ensures |rows| == |old(rows)|
      ensures forall i :: 0 <= i < |rows| ==>
                rows[i] == if i == run then old(rows)[i].(status := status) else old(rows)[i]
    {
      rows := P.WithStatus(rows, run, status);
    }

    /** The failure of a run is recorded as one dead letter. */
    method RecordRunFailure(run: nat, cause: P.LetterCause)
      modifies this`letters
      ensures letters == old(letters) + [P.DeadLetter(run, cause)]
    {
      letters := letters + [P.DeadLetter(run, cause)];
    }
  }

  /** A stored workflow: whether it is active, and its graph. */
  datatype Stored = Stored(active: bool, graph: Graph)

  datatype ExecuteResult =
    | AlreadyRan
    | Ignored
    | GraphInvalid(run: Option<nat>)
    | Ran(runId: nat, status: P.Status)
    | Raised

  function OutcomeOf(report: RunReport): P.Outcome {
    match report
    case GraphRejected(_) => P.Threw
    case Aborted(_) => P.Threw
    case Completed(status, steps) => P.Finished(status, FailureReportOf(steps))
  }

  /** The stored workflow as the interleaved model sees it. */
  ghost function Seen(workflow: Option<Stored>): P.Workflow {
    match workflow
    case None => P.NoWorkflow
    case Some(w) => P.Workflow(w.active, Messages(w.graph))
  }

  /** What walking the sorted nodes of a graph comes to. */
  ghost function OutcomeFor(g: Graph, env: A.Environment): P.Outcome {
    OutcomeOf(ReportOf(Final(env, SortOrder(g))))
  }

  /** What an execution meets outside the run tables. */
  ghost function ChoiceFor(workflow: Option<Stored>, env: A.Environment): P.Choice {
    P.Choice(Seen(workflow), if workflow.Some? then OutcomeFor(workflow.value.graph, env) else P.Threw)
  }

  /** Saves the end of a run: its status, and a dead letter if it failed. */
  method Conclude(db: Database, run: nat, report: RunReport) returns (result: ExecuteResult)
    requires !report.GraphRejected?
    modifies db
    ensures report.Aborted? ==> result == Raised && db.rows == old(db.rows) && db.letters == old(db.letters)
    ensures report.Completed? ==>
              && result == Ran(run, match report.status
                                    case RunSucceeded => P.Succeeded
                                    case RunFiltered => P.Filtered
                                    case RunFailed => P.Failed)
              && result == Ran(run, P.StatusOf(report.status))
              && db.rows == P.WithStatus(old(db.rows), run, P.StatusOf(report.status))
              && db.letters == if report.status == RunFailed
                               then old(db.letters) + [P.DeadLetter(run, P.StepFailure(FailureReportOf(report.steps)))]
                               else old(db.letters)
  {
    if report.Aborted? {
      return Raised;
    }
    if report.status == RunFailed {
      db.UpdateRun(run, P.Failed);
      db.RecordRunFailure(run, P.StepFailure(FailureReportOf(report.steps)));
      return Ran(run, P.Failed);
    }
    var runStatus := if report.status == RunFiltered then P.Filtered else P.Succeeded;
    db.UpdateRun(run, runStatus);
    return Ran(run, runStatus);
  }

  /** A workflow whose graph does not parse: a failed row and its letter, unless the row exists. */
  method RecordInvalidGraph(db: Database, job: P.Job, errors: seq<GraphError>) returns (failed: Option<nat>)
    modifies db
    ensures failed.None? <==> P.Taken(old(db.rows), job.executionId)
    ensures failed.None? ==> db.rows == old(db.rows) && db.letters == old(db.letters)
    ensures failed.Some? ==>
              && failed.value == |old(db.rows)|
              && db.rows == old(db.rows) + [P.Row(job.organizationId, job.executionId, P.Failed)]
              && db.letters == old(db.letters) + [P.DeadLetter(|old(db.rows)|, P.InvalidGraph(errors))]
  {
    failed := db.CreateRun(job, P.Failed);
    if failed.Some? {
      db.RecordRunFailure(failed.value, P.InvalidGraph(errors));
    }
  }

  lemma StartedThen(rows: seq<P.Row>, job: P.Job, status: P.Status)
    ensures P.WithStatus(rows + [P.Row(job.organizationId, job.executionId, P.Started)], |rows|, status)
         == rows + [P.Row(job.organizationId, job.executionId, status)]
  {
  }

  /** A workflow whose graph parses: a started row, the run, and its end. */
  method RunNew(db: Database, job: P.Job, g: Graph, env: A.Environment) returns (result: ExecuteResult)
    requires Accepts(g)
    modifies db
    ensures P.Taken(old(db.rows), job.executionId) ==>
              result == AlreadyRan && db.rows == old(db.rows) && db.letters == old(db.letters)
    ensures !P.Taken(old(db.rows), job.executionId) ==>
              var outcome := OutcomeFor(g, env);
              && result == (if outcome.Threw? then Raised else Ran(|old(db.rows)|, P.StatusOf(outcome.status)))
              && (db.rows, db.letters) == RunEffect(old(db.rows), old(db.letters), job, outcome)
  {
    var run := db.CreateRun(job, P.Started);
    if run.None? {
      return AlreadyRan;
    }
    var report, calls := RunWorkflow(g, env);
    result := Conclude(db, run.value, report);
    if report.Completed? {
      StartedThen(old(db.rows), job, P.StatusOf(report.status));
    }
  }

  /** The letter of a failed run tells of the failed action exactly if it is the last node of the order. */
  ghost predicate LetterTells(g: Graph, env: A.Environment, letter: P.DeadLetter, run: nat) {
    && letter.runId == run && letter.cause.StepFailure?
    && exists f: nat :: FailedAt(env, SortOrder(g), f) && Tells(env, SortOrder(g), f, letter.cause.report)
  }

  lemma FailedRunTells(g: Graph, env: A.Environment, run: nat)
    requires OutcomeFor(g, env).Finished? && OutcomeFor(g, env).status == RunFailed
    ensures LetterTells(g, env, P.DeadLetter(run, P.StepFailure(OutcomeFor(g, env).report)), run)
  {
    DeadLetterReport(env, SortOrder(g));
  }

  /** The job gets past the lookups, to the point where the graph is parsed. */
  predicate PastLookups(rows: seq<P.Row>, job: P.Job, seen: P.Workflow) {
    !P.Visible(rows, job) && seen.Workflow? && (job.manual || seen.active)
  }

  lemma StoppedEarly(rows: seq<P.Row>, letters: seq<P.DeadLetter>, job: P.Job, choice: P.Choice)
    requires !PastLookups(rows, job, choice.workflow)
    ensures P.Effect(rows, letters, job, choice) == (rows, letters) && P.Entered(rows, job, choice) == []
  {
  }

  lemma EffectOfInvalid(rows: seq<P.Row>, letters: seq<P.DeadLetter>, job: P.Job, choice: P.Choice)
    requires PastLookups(rows, job, choice.workflow) && choice.workflow.errors != []
    ensures P.Entered(rows, job, choice) == []
    ensures P.Effect(rows, letters, job, choice)
         == if P.Taken(rows, job.executionId) then (rows, letters)
            else (rows + [P.Row(job.organizationId, job.executionId, P.Failed)],
                  letters + [P.DeadLetter(|rows|, P.InvalidGraph(choice.workflow.errors))])
  {
  }

  lemma EffectOfRun(rows: seq<P.Row>, letters: seq<P.DeadLetter>, job: P.Job, choice: P.Choice)
    requires PastLookups(rows, job, choice.workflow) && choice.workflow.errors == []
    ensures P.Taken(rows, job.executionId) ==>
              P.Entered(rows, job, choice) == [] && P.Effect(rows, letters, job, choice) == (rows, letters)
    ensures !P.Taken(rows, job.executionId) ==>
              P.Entered(rows, job, choice) != []
              && P.Effect(rows, letters, job, choice) == RunEffect(rows, letters, job, choice.outcome)
  {
  }

  function RunEffect(rows: seq<P.Row>, letters: seq<P.DeadLetter>, job: P.Job, outcome: P.Outcome)
    : (seq<P.Row>, seq<P.DeadLetter>)
  {
    var status := if outcome.Threw? then P.Started else P.StatusOf(outcome.status);
    (rows + [P.Row(job.organizationId, job.executionId, status)],
     if outcome.Finished? && outcome.status == RunFailed
     then letters + [P.DeadLetter(|rows|, P.StepFailure(outcome.report))] else letters)
  }

  function ResultFor(rows: seq<P.Row>, job: P.Job, choice: P.Choice): ExecuteResult {
    if P.Visible(rows, job) then AlreadyRan
    else if !PastLookups(rows, job, choice.workflow) then Ignored
    else if choice.workflow.errors != [] then
      GraphInvalid(if P.Taken(rows, job.executionId) then None else Some(|rows|))
    else if P.Taken(rows, job.executionId) then AlreadyRan
    else if choice.outcome.Threw? then Raised
    else Ran(|rows|, P.StatusOf(choice.outcome.status))
  }

  /** From the parsing of the graph on. */
  method ParseAndRun(db: Database, job: P.Job, w: Stored, env: A.Environment) returns (result: ExecuteResult)
    requires PastLookups(db.rows, job, Seen(Some(w)))
    modifies db
    ensures (db.rows, db.letters) == P.Effect(old(db.rows), old(db.letters), job, ChoiceFor(Some(w), env))
    ensures result == ResultFor(old(db.rows), job, ChoiceFor(Some(w), env))
  {
    ghost var choice := ChoiceFor(Some(w), env);
    var errors := ValidateGraph(w.graph);
    if errors != [] {
      EffectOfInvalid(db.rows, db.letters, job, choice);
      var failed := RecordInvalidGraph(db, job, errors);
      return GraphInvalid(failed);
    }
    EffectOfRun(db.rows, db.letters, job, choice);
    result := RunNew(db, job, w.graph, env);
  }

  /** What the result and the effect say about each other. */
  lemma ResultTells(rows: seq<P.Row>, letters: seq<P.DeadLetter>, job: P.Job, choice: P.Choice)
    ensures var (result, after) := (ResultFor(rows, job, choice), P.Effect(rows, letters, job, choice));
            && (result.Ran? || result.Raised? <==> P.Entered(rows, job, choice) != [])
            && (result.Ran? ==>
                  choice.workflow.Workflow? && choice.outcome.Finished?
                  && result.runId < |after.0| && after.0[result.runId].status == result.status)
            && (result.Ran? && result.status == P.Failed ==>
                  choice.outcome.status == RunFailed
                  && after.1 == letters + [P.DeadLetter(result.runId, P.StepFailure(choice.outcome.report))])
  {
    if PastLookups(rows, job, choice.workflow) && choice.workflow.errors == [] {
      EffectOfRun(rows, letters, job, choice);
    }
  }

  /** The status of a run is that of its log: succeeded if every record succeeded, filtered if a filter failed,
      failed if an action did. */
  ghost predicate StatusTells(env: A.Environment, order: seq<Node>, status: P.Status) {
    var steps := Final(env, order).steps;
    && |steps| == |order|
    && (status == P.Succeeded <==> forall i :: 0 <= i < |order| ==> steps[i].status == A.Succeeded)
    && (status == P.Filtered <==> exists f: nat :: FilteredAt(env, order, f))
    && (status == P.Failed <==> exists f: nat :: FailedAt(env, order, f))
    && (status == P.Succeeded || status == P.Filtered || status == P.Failed)
  }

  /** What happens when a row has been inserted and the graph is run. */
  ghost predicate RunAs(rows: seq<P.Row>, letters: seq<P.DeadLetter>, rows': seq<P.Row>, letters': seq<P.DeadLetter>,
                        job: P.Job, g: Graph, env: A.Environment, result: ExecuteResult) {
    if Final(env, SortOrder(g)).phase.Crashed? then
      && result == Raised && letters' == letters
      && rows' == rows + [P.Row(job.organizationId, job.executionId, P.Started)]
    else
      && result.Ran? && result.runId == |rows| && StatusTells(env, SortOrder(g), result.status)
      && rows' == rows + [P.Row(job.organizationId, job.executionId, result.status)]
      && (if result.status == P.Failed
          then |letters'| == |letters| + 1 && letters <= letters' && LetterTells(g, env, letters'[|letters|], |rows|)
          else letters' == letters)
  }

  /** The whole of one execution: what it returns and what it does to the two tables. */
  ghost predicate ExecutedAs(rows: seq<P.Row>, letters: seq<P.DeadLetter>, rows': seq<P.Row>,
                             letters': seq<P.DeadLetter>, job: P.Job, workflow: Option<Stored>, env: A.Environment,
                             result: ExecuteResult) {
    var same := rows' == rows && letters' == letters;
    var taken := exists i :: 0 <= i < |rows| && rows[i].executionId == job.executionId;
    if exists i :: 0 <= i < |rows| && rows[i].executionId == job.executionId
                   && rows[i].organizationId == job.organizationId then result == AlreadyRan && same
    else if workflow.None? || !(job.manual || workflow.value.active) then result == Ignored && same
    else if !Accepts(workflow.value.graph) then
      if taken then result == GraphInvalid(None) && same
      else
        && result == GraphInvalid(Some(|rows|))
        && rows' == rows + [P.Row(job.organizationId, job.executionId, P.Failed)]
        && letters' == letters + [P.DeadLetter(|rows|, P.InvalidGraph(Messages(workflow.value.graph)))]
    else if taken then result == AlreadyRan && same
    else RunAs(rows, letters, rows', letters', job, workflow.value.graph, env, result)
  }

  lemma OutcomeRuns(rows: seq<P.Row>, letters: seq<P.DeadLetter>, job: P.Job, g: Graph, env: A.Environment)
    ensures var (outcome, after) := (OutcomeFor(g, env), RunEffect(rows, letters, job, OutcomeFor(g, env)));
            RunAs(rows, letters, after.0, after.1, job, g, env,
                  if outcome.Threw? then Raised else Ran(|rows|, P.StatusOf(outcome.status)))
  {
    var st, outcome := Final(env, SortOrder(g)), OutcomeFor(g, env);
    if !st.phase.Crashed? {
      StatusFromLog(env, SortOrder(g));
      assert outcome.Finished? && outcome.status == st.status;
      assert StatusTells(env, SortOrder(g), P.StatusOf(outcome.status));
      if outcome.status == RunFailed {
        FailedRunTells(g, env, |rows|);
      }
    }
  }

  lemma EffectIsExecution(rows: seq<P.Row>, letters: seq<P.DeadLetter>, job: P.Job, workflow: Option<Stored>,
                          env: A.Environment)
    ensures var choice := ChoiceFor(workflow, env);
            var after := P.Effect(rows, letters, job, choice);
            ExecutedAs(rows, letters, after.0, after.1, job, workflow, env, ResultFor(rows, job, choice))
  {
    var choice := ChoiceFor(workflow, env);
    if !PastLookups(rows, job, choice.workflow) {
      StoppedEarly(rows, letters, job, choice);
    } else {
      SilentIffAccepted(workflow.value.graph);
      if choice.workflow.errors != [] {
        EffectOfInvalid(rows, letters, job, choice);
      } else {
        EffectOfRun(rows, letters, job, choice);
        OutcomeRuns(rows, letters, job, workflow.value.graph, env);
      }
    }
  }

  /** One execution, start to end. It does to the tables what an undisturbed worker of the interleaved model
      does, which is spelled out in `ExecutedAs`. */
  method ExecuteWorkflowRun(db: Database, job: P.Job, workflow: Option<Stored>, env: A.Environment)
    returns (result: ExecuteResult)
    modifies db
    ensures (db.rows, db.letters) == P.Effect(old(db.rows), old(db.letters), job, ChoiceFor(workflow, env))
    ensures ExecutedAs(old(db.rows), old(db.letters), db.rows, db.letters, job, workflow, env, result)
    ensures result.Ran? || result.Raised? <==> P.Entered(old(db.rows), job, ChoiceFor(workflow, env)) != []
  {
    ResultTells(db.rows, db.letters, job, ChoiceFor(workflow, env));
    EffectIsExecution(db.rows, db.letters, job, workflow, env);
    var existing := db.FindRunByExecutionId(job);
    if existing.Some? || workflow.None? || (!job.manual && !workflow.value.active) {
      StoppedEarly(db.rows, db.letters, job, ChoiceFor(workflow, env));
      return if existing.Some? then AlreadyRan else Ignored;
    }
    result := ParseAndRun(db, job, workflow.value, env);
  }
}
