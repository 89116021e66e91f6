/** runWorkflow of lib/dag/runner.ts, and what may be dispatched during a run. */
module Runner {
  import opened Actions
  import opened Documents
  import opened Graphs
  import opened Paths
  import opened Results
  import opened Sequences
  import opened Sorting
  import opened Transforms
  import opened Validation

  datatype RunStatus = RunSucceeded | RunFailed | RunFiltered

  datatype RunError = NoDispatcher | BadPath(error: PathError)

  datatype Phase = Running | Broken | Crashed(error: RunError)

  datatype RunState = RunState(
    steps: seq<StepRecord>,
    phase: Phase,
    status: RunStatus,
    vars: Vars,
    calls: seq<Call>,
    sleeps: seq<int>)

  datatype RunReport =
    | GraphRejected(errors: seq<GraphError>)
    | Aborted(error: RunError)
    | Completed(status: RunStatus, steps: seq<StepRecord>)

  const FILTERED_MESSAGE := "Filter conditions did not match; downstream steps skipped."

  // ----- one node -----

  function Emit(st: RunState, record: StepRecord): RunState {
    st.(steps := st.steps + [record])
  }

  function PassedNote(passed: bool): Json {
    Obj(map["passed" := Bool(passed)])
  }

  function FilterStepOf(env: Environment, n: Node, st: RunState): RunState
    requires n.config.Filter?
  {
    var snapshot := Snapshot(env, st.vars);
    match Evaluate(n.config.mode, n.config.conditions, snapshot, env.compare)
    case Err(e) => st.(phase := Crashed(BadPath(e)))
    case Ok(true) => Emit(st, Record(n, Succeeded, 1, snapshot, PassedNote(true)))
    case Ok(false) =>
      Emit(st.(phase := Broken, status := RunFiltered),
           Record(n, Failed, 1, snapshot, PassedNote(false)).(errorMessage := Some(FILTERED_MESSAGE)))
  }

  function TransformStepOf(env: Environment, n: Node, st: RunState): RunState
    requires n.config.Transform?
  {
    match TransformFrom(n.config.mappings, Snapshot(env, st.vars), Obj(map[]))
    case Err(e) => st.(phase := Crashed(BadPath(e)))
    case Ok(output) =>
      var vars := st.vars[n.key := output];
      // The snapshot is taken after the variable has been set.
      Emit(st.(vars := vars), Record(n, Succeeded, 1, Snapshot(env, vars), output))
  }

  function ActionStepOf(env: Environment, n: Node, st: RunState): RunState {
    if env.dispatch.None? then st.(phase := Crashed(NoDispatcher))
    else
      var out := Attempts(env, env.dispatch.value, n, st.vars, |st.steps|, st.calls, st.sleeps, 1);
      var after := Emit(st.(vars := st.vars[n.key := out.output], calls := out.calls, sleeps := out.sleeps), out.step);
      if out.step.status == Failed then after.(phase := Broken, status := RunFailed) else after
  }

  function RunNode(env: Environment, n: Node, st: RunState): RunState {
    match n.config
    case Trigger(_) => Emit(st, Record(n, Succeeded, 1, env.payload, Snapshot(env, st.vars)))
    case Filter(_, _) => FilterStepOf(env, n, st)
    case Transform(_) => TransformStepOf(env, n, st)
    case Action => ActionStepOf(env, n, st)
  }

  function Step(env: Environment, n: Node, st: RunState): RunState {
    match st.phase
    case Crashed(_) => st
    case Broken => Emit(st, Record(n, Skipped, 1, Undefined, Undefined))
    case Running => RunNode(env, n, st)
  }

  const START := RunState([], Running, RunSucceeded, map[], [], [])

  /** The state after the first n nodes of an order. */
  function After(env: Environment, order: seq<Node>, n: nat): RunState
    requires n <= |order|
  {
    if n == 0 then START else Step(env, order[n - 1], After(env, order, n - 1))
  }

  function Final(env: Environment, order: seq<Node>): RunState {
    After(env, order, |order|)
  }

  function ReportOf(st: RunState): RunReport {
    if st.phase.Crashed? then Aborted(st.phase.error) else Completed(st.status, st.steps)
  }

  // ----- what one node does -----

  /** The step appended one record to the log. */
  ghost predicate Logged(st: RunState, after: RunState) {
    |after.steps| == |st.steps| + 1 && after.steps[..|st.steps|] == st.steps
  }

  /** A record of one attempt without an HTTP status. */
  ghost predicate PlainRecord(record: StepRecord, n: Node, stepType: StepType, status: StepStatus) {
    && record.stepKey == n.key && record.stepType == stepType && record.status == status
    && record.attempt == 1 && record.httpStatus == None
  }

  /** The trigger records the payload and the state, and changes nothing. */
  lemma TriggerEffect(env: Environment, n: Node, st: RunState)
    requires n.config.Trigger? && st.phase.Running?
    ensures var after := Step(env, n, st);
            && Logged(st, after) && after == st.(steps := after.steps)
            && PlainRecord(after.steps[|st.steps|], n, TriggerStep, Succeeded)
            && after.steps[|st.steps|].input == env.payload
            && IsState(env, st.vars, after.steps[|st.steps|].output)
            && after.steps[|st.steps|].errorMessage == None
  {
    SnapshotIsState(env, st.vars, Snapshot(env, st.vars));
  }

  /** Behind a failure every node is recorded as skipped, without input or output. */
  lemma SkipEffect(env: Environment, n: Node, st: RunState)
    requires st.phase.Broken?
    ensures var after := Step(env, n, st);
            && Logged(st, after) && after == st.(steps := after.steps)
            && after.steps[|st.steps|].stepKey == n.key && after.steps[|st.steps|].status == Skipped
            && after.steps[|st.steps|].attempt == 1 && after.steps[|st.steps|].errorMessage == None
            && after.steps[|st.steps|].input == after.steps[|st.steps|].output == Undefined
  {
  }

  /** A filter passes, stops the pipeline, or throws, according to what its conditions come to on the payload
      and the variables; it calls nothing and sets no variable. */
  lemma FilterEffect(env: Environment, n: Node, st: RunState, root: Json)
    requires n.config.Filter? && st.phase.Running? && IsState(env, st.vars, root)
    ensures var (after, all) := (Step(env, n, st), n.config.mode.All?);
            && (after.vars, after.calls, after.sleeps) == (st.vars, st.calls, st.sleeps)
            && (after.phase.Crashed? <==> Unreadable(all, n.config.conditions, root, env.compare))
            && (after.phase.Running? <==>
                  if all then AllHold(n.config.conditions, root, env.compare)
                  else SomeDecides(all, n.config.conditions, root, env.compare))
            && (after.phase.Crashed? ==>
                  && after.phase.error.BadPath?
                  && FailsOn(all, n.config.conditions, root, env.compare, after.phase.error.error)
                  && after.steps == st.steps && after.status == st.status)
            && (!after.phase.Crashed? ==>
                  && Logged(st, after) && FilterRecord(after.steps[|st.steps|], n, root, after.phase.Running?)
                  && after.status == if after.phase.Running? then st.status else RunFiltered)
  {
    SnapshotIsState(env, st.vars, root);
    EvaluateMeans(n.config.mode, n.config.conditions, root, env.compare);
  }

  ghost predicate FilterRecord(record: StepRecord, n: Node, root: Json, passed: bool) {
    && PlainRecord(record, n, FilterStep, if passed then Succeeded else Failed)
    && record.input == root
    && record.errorMessage
       == (if passed then None else Some("Filter conditions did not match; downstream steps skipped."))
    && record.output == Obj(map["passed" := Bool(passed)])
  }

  /** A transform throws exactly when a path is unusable; otherwise the sequence of its writes becomes its
      variable, which the state in its record already shows. It calls nothing. */
  lemma TransformEffect(env: Environment, n: Node, st: RunState, root: Json)
    requires n.config.Transform? && st.phase.Running? && IsState(env, st.vars, root)
    ensures var after := Step(env, n, st);
            && after.status == st.status && after.calls == st.calls && after.sleeps == st.sleeps
            && (AllReadable(n.config.mappings, root) <==> after.phase.Running?)
            && (!AllReadable(n.config.mappings, root) ==>
                  && after.phase.Crashed? && after.phase.error.BadPath?
                  && (exists i :: 0 <= i < |n.config.mappings| && AllReadable(n.config.mappings[..i], root)
                                  && Spoils(n.config.mappings[i], after.phase.error.error))
                  && after.steps == st.steps && after.vars == st.vars)
            && (AllReadable(n.config.mappings, root) ==>
                  && after.vars == st.vars[n.key := Written(n.config.mappings, root)]
                  && Logged(st, after)
                  && TransformRecord(env, after.steps[|st.steps|], n, after.vars))
  {
    var mappings := n.config.mappings;
    SnapshotIsState(env, st.vars, root);
    TransformThrows(mappings, root, Obj(map[]));
    if AllReadable(mappings, root) {
      TransformIsSetAll(mappings, root, Obj(map[]));
      var vars := st.vars[n.key := Written(mappings, root)];
      SnapshotIsState(env, vars, Snapshot(env, vars));
    } else {
      FirstSpoilt(mappings, root, Obj(map[]));
    }
  }

  /** The writes of all the source values, one after the other, on an empty object. */
  function Written(mappings: seq<Mapping>, root: Json): Json
    requires AllReadable(mappings, root)
  {
    SetAll(Obj(map[]), Targets(mappings), SourcesOf(mappings, root))
  }

  ghost predicate TransformRecord(env: Environment, record: StepRecord, n: Node, vars: Vars) {
    && PlainRecord(record, n, TransformStep, Succeeded) && record.errorMessage == None
    && n.key in vars && record.output == vars[n.key]
    && IsState(env, vars, record.input)
  }

  /** The action's attempts ended with attempt `last`, and the state says how. */
  ghost predicate ActionEnded(env: Environment, dispatch: Dispatcher, n: Node, st: RunState, after: RunState, last: nat)
    requires last >= 1
  {
    var first := |st.calls|;
    var reply := ReplyTo(dispatch, n, st.vars, first, last);
    var ok := reply.Returned? && reply.result.ok;
    && last <= env.maxAttempts
    && (forall a :: 1 <= a < last ==> AsksAgain(ReplyTo(dispatch, n, st.vars, first, a)))
    && (last == env.maxAttempts || !AsksAgain(reply))
    && after.calls == st.calls + CallsMade(n, st.vars, |st.steps|, 1, last)
    && Slept(env, st.sleeps, last, after.sleeps)
    && n.key in after.vars && after.vars == st.vars[n.key := after.vars[n.key]]
    && after.phase == (if ok then Running else Broken)
    && after.status == (if ok then st.status else RunFailed)
    && Logged(st, after)
    && after.steps[|st.steps|].stepKey == n.key && after.steps[|st.steps|].stepType == ActionStep
    && IsState(env, st.vars, after.steps[|st.steps|].input)
    && Reports(after.steps[|st.steps|], after.vars[n.key], reply, last, env.maxAttempts)
  }

  /** An action throws exactly when there is no dispatcher. It is dispatched up to its deciding attempt; the
      last reply becomes its record and its variable, and breaks the pipeline if it is a failure. Without
      an attempt allowed it fails undispatched. */
  lemma ActionEffect(env: Environment, n: Node, st: RunState)
    requires n.config.Action? && st.phase.Running?
    ensures var after := Step(env, n, st);
            && (after.phase.Crashed? <==> env.dispatch.None?)
            && (env.dispatch.None? ==> after == st.(phase := Crashed(NoDispatcher)))
            && (env.dispatch.Some? && env.maxAttempts >= 1 ==>
                  exists last: nat :: last >= 1 && ActionEnded(env, env.dispatch.value, n, st, after, last))
            && (env.dispatch.Some? && env.maxAttempts < 1 ==>
                  after.phase.Broken? && after.status == RunFailed && after.calls == st.calls && Logged(st, after)
                  && after.steps[|st.steps|].errorMessage == Some("Action failed after exhausting retries."))
  {
    if env.dispatch.Some? {
      var d := env.dispatch.value;
      NoAttempts(env, d, n, st.vars, |st.steps|, st.calls, st.sleeps);
      if env.maxAttempts >= 1 {
        var last := RetryLaw(env, d, n, st.vars, |st.steps|, st.calls, st.sleeps);
        assert ActionEnded(env, d, n, st, Step(env, n, st), last);
      }
    }
  }

  // ----- the loop -----

  method FilterNode(env: Environment, n: Node, st: RunState) returns (after: RunState)
    requires n.config.Filter? && st.phase.Running?
    ensures after == FilterStepOf(env, n, st)
  {
    var snapshot := Snapshot(env, st.vars);
    var looksLike := Evaluate(n.config.mode, n.config.conditions, snapshot, env.compare);
    if looksLike.Err? {
      return st.(phase := Crashed(BadPath(looksLike.error)));
    }
    after := st;
    if !looksLike.value {
      after := after.(status := RunFiltered, phase := Broken);
      var record := Record(n, Failed, 1, snapshot, PassedNote(false));
      return Emit(after, record.(errorMessage := Some(FILTERED_MESSAGE)));
    }
    after := Emit(after, Record(n, Succeeded, 1, snapshot, PassedNote(true)));
  }

  method TransformNode(env: Environment, n: Node, st: RunState) returns (after: RunState)
    requires n.config.Transform? && st.phase.Running?
    ensures after == TransformStepOf(env, n, st)
  {
    var output := ApplyTransform(n.config.mappings, Snapshot(env, st.vars));
    if output.Err? {
      return st.(phase := Crashed(BadPath(output.error)));
    }
    after := st.(vars := st.vars[n.key := output.value]);
    after := Emit(after, Record(n, Succeeded, 1, Snapshot(env, after.vars), output.value));
  }

  method ActionNode(env: Environment, n: Node, st: RunState) returns (after: RunState)
    requires st.phase.Running?
    ensures after == ActionStepOf(env, n, st)
  {
    if env.dispatch.None? {
      return st.(phase := Crashed(NoDispatcher));
    }
    var outcome := ExecuteActionWithRetry(env, env.dispatch.value, n, st.vars, |st.steps|, st.calls, st.sleeps);
    after := st.(calls := outcome.calls, sleeps := outcome.sleeps, vars := st.vars[n.key := outcome.output]);
    after := Emit(after, outcome.step);
    if outcome.step.status == Failed {
      after := after.(status := RunFailed, phase := Broken);
    }
  }

  /** The body of the loop. */
  method StepNode(env: Environment, node: Node, st: RunState) returns (after: RunState)
    requires !st.phase.Crashed?
    ensures after == Step(env, node, st)
  {
    if st.phase.Broken? {
      return Emit(st, Record(node, Skipped, 1, Undefined, Undefined));
    }
    match node.config {
      case Trigger(_) =>
        after := Emit(st, Record(node, Succeeded, 1, env.payload, Snapshot(env, st.vars)));
      case Filter(_, _) =>
        after := FilterNode(env, node, st);
      case Transform(_) =>
        after := TransformNode(env, node, st);
      case Action =>
        after := ActionNode(env, node, st);
    }
  }

  method Advance(env: Environment, order: seq<Node>, i: nat, st: RunState) returns (after: RunState)
    requires i < |order| && !st.phase.Crashed? && st == After(env, order, i)
    ensures after == After(env, order, i + 1)
  {
    after := StepNode(env, order[i], st);
  }

  /** The walk along the sorted nodes; an exception leaves the loop at once. */
  method Walk(env: Environment, order: seq<Node>) returns (st: RunState)
    ensures st == Final(env, order)
  {
    st := START;
    for i := 0 to |order|
      invariant st == After(env, order, i)
    {
      if st.phase.Crashed? {
        CrashedStays(env, order, i, |order|);
        return;
      }
      st := Advance(env, order, i, st);
    }
  }

  /** The states of a run, from the start on. */
  function History(env: Environment, order: seq<Node>): (states: seq<RunState>)
    ensures |states| == |order| + 1
    ensures forall k :: 0 <= k <= |order| ==> states[k] == After(env, order, k)
  {
    seq(|order| + 1, k requires 0 <= k < |order| + 1 => After(env, order, k))
  }

  /** A crashed state is followed by itself. */
  ghost predicate Halting(states: seq<RunState>) {
    forall k :: 0 <= k < |states| - 1 && states[k].phase.Crashed? ==> states[k + 1] == states[k]
  }

  lemma {:induction false} HaltedStays(states: seq<RunState>, i: nat, n: nat)
    requires Halting(states) && i <= n < |states| && states[i].phase.Crashed?
    ensures states[n] == states[i]
  {
    if i < n {
      HaltedStays(states, i, n - 1);
      assert states[n - 1 + 1] == states[n - 1];
    }
  }

  lemma CrashedStays(env: Environment, order: seq<Node>, i: nat, n: nat)
    requires i <= n <= |order| && After(env, order, i).phase.Crashed?
    ensures After(env, order, n) == After(env, order, i)
  {
    var states := History(env, order);
    forall k | 0 <= k < |states| - 1 && states[k].phase.Crashed?
      ensures states[k + 1] == states[k]
    {
      CrashedNext(env, order, k);
    }
    HaltedStays(states, i, n);
  }

  lemma CrashedNext(env: Environment, order: seq<Node>, n: nat)
    requires n < |order| && After(env, order, n).phase.Crashed?
    ensures After(env, order, n + 1) == After(env, order, n)
  {
  }

  // ----- what every prefix of a run keeps -----

  predicate Produces(n: Node) {
    n.config.Transform? || n.config.Action?
  }

  /** Among the first p nodes the i-th makes an output that no later one replaces. */
  ghost predicate Latest(order: seq<Node>, i: nat, p: nat)
    requires i < p <= |order|
  {
    Produces(order[i]) && forall j :: i < j < p && Produces(order[j]) ==> order[j].key != order[i].key
  }

  /** The variables hold exactly the outputs of the transforms and actions among the first p nodes, under
      each key the latest. */
  ghost predicate VarsAre(order: seq<Node>, steps: seq<StepRecord>, vars: Vars, p: nat)
    requires p <= |order| && p <= |steps|
  {
    && (forall k :: k in vars <==> ProducedBy(order, p, k))
    && forall i :: 0 <= i < p ==> HoldsOutput(order, steps, vars, p, i)
  }

  ghost predicate HoldsOutput(order: seq<Node>, steps: seq<StepRecord>, vars: Vars, p: nat, i: nat)
    requires i < p <= |order| && p <= |steps|
  {
    Latest(order, i, p) ==> order[i].key in vars && vars[order[i].key] == steps[i].output
  }

  ghost predicate AllSucceeded(steps: seq<StepRecord>, p: nat)
    requires p <= |steps|
  {
    forall i :: 0 <= i < p ==> steps[i].status == Succeeded
  }

  ghost predicate InOrder(order: seq<Node>, steps: seq<StepRecord>) {
    && |steps| <= |order|
    && forall i :: 0 <= i < |steps| ==> steps[i].stepKey == order[i].key && steps[i].stepType == TypeOf(order[i])
  }

  /** A dispatch was of the action next in order, after everything before it had succeeded. */
  ghost predicate SafeCall(order: seq<Node>, steps: seq<StepRecord>, c: Call) {
    && c.emitted < |order| && c.emitted <= |steps|
    && order[c.emitted] == c.node && c.node.config.Action?
    && AllSucceeded(steps, c.emitted)
    && VarsAre(order, steps, c.vars, c.emitted)
  }

  /** A failed action fails the run; a failed filter filters it. */
  predicate DecidesStatus(failed: StepType, status: RunStatus) {
    match failed
    case ActionStep => status == RunFailed
    case FilterStep => status == RunFiltered
    case _ => false
  }

  /** succeeded* failed skipped*, with the status that the type of the failed step decides. */
  ghost predicate BrokeAt(steps: seq<StepRecord>, status: RunStatus, f: nat) {
    && f < |steps|
    && AllSucceeded(steps, f)
    && steps[f].status == Failed
    && (forall i :: f < i < |steps| ==> steps[i].status == Skipped)
    && DecidesStatus(steps[f].stepType, status)
    && steps[f].errorMessage.Some?
    && forall i :: f < i < |steps| ==> steps[i].errorMessage == None && steps[i].attempt == 1
  }

  ghost predicate RunInvariant(order: seq<Node>, n: nat, st: RunState)
    requires n <= |order|
  {
    && InOrder(order, st.steps)
    && |st.steps| <= n
    && (!st.phase.Crashed? ==> |st.steps| == n)
    && (!st.phase.Broken? ==> AllSucceeded(st.steps, |st.steps|) && st.status == RunSucceeded)
    && (!st.phase.Broken? ==> VarsAre(order, st.steps, st.vars, |st.steps|))
    && (st.phase.Broken? ==> exists f :: BrokeAt(st.steps, st.status, f))
    && (forall c :: c in st.calls ==> SafeCall(order, st.steps, c))
    && |st.sleeps| <= |st.calls|
  }

  lemma SafeCallKept(order: seq<Node>, steps: seq<StepRecord>, record: StepRecord, c: Call)
    requires SafeCall(order, steps, c)
    ensures SafeCall(order, steps + [record], c)
  {
    forall i | 0 <= i < c.emitted
      ensures HoldsOutput(order, steps + [record], c.vars, c.emitted, i)
    {
      assert HoldsOutput(order, steps, c.vars, c.emitted, i);
    }
  }

  /** One of the first p nodes makes an output under this key. */
  ghost predicate ProducedBy(order: seq<Node>, p: nat, k: Key)
    requires p <= |order|
  {
    exists i :: 0 <= i < p && Produces(order[i]) && order[i].key == k
  }

  lemma ProducedByStep(order: seq<Node>, p: nat, k: Key)
    requires p < |order|
    ensures ProducedBy(order, p + 1, k) <==> ProducedBy(order, p, k) || (Produces(order[p]) && order[p].key == k)
  {
  }

  lemma VarsExtended(order: seq<Node>, steps: seq<StepRecord>, vars: Vars, p: nat, record: StepRecord, vars': Vars)
    requires p < |order| && p == |steps| && VarsAre(order, steps, vars, p)
    requires vars' == if Produces(order[p]) then vars[order[p].key := record.output] else vars
    ensures VarsAre(order, steps + [record], vars', p + 1)
  {
    forall k: Key
      ensures k in vars' <==> ProducedBy(order, p + 1, k)
    {
      ProducedByStep(order, p, k);
    }
    var steps', q := steps + [record], p + 1;
    forall i | 0 <= i < q
      ensures HoldsOutput(order, steps', vars', q, i)
    {
      HoldsOutputStep(order, steps, vars, p, record, vars', i);
    }
  }

  lemma HoldsOutputStep(order: seq<Node>, steps: seq<StepRecord>, vars: Vars, p: nat, record: StepRecord, vars': Vars,
                        i: nat)
    requires i <= p < |order| && p == |steps| && VarsAre(order, steps, vars, p)
    requires vars' == if Produces(order[p]) then vars[order[p].key := record.output] else vars
    ensures HoldsOutput(order, steps + [record], vars', p + 1, i)
  {
    if i < p && Latest(order, i, p + 1) {
      assert Latest(order, i, p) && HoldsOutput(order, steps, vars, p, i);
    }
  }

  /** A succeeding step on a running state. */
  lemma SucceededStep(order: seq<Node>, n: nat, st: RunState, record: StepRecord, after: RunState)
    requires n < |order| && RunInvariant(order, n, st) && st.phase.Running?
    requires record.stepKey == order[n].key && record.stepType == TypeOf(order[n]) && record.status == Succeeded
    requires after.steps == st.steps + [record] && after.phase.Running? && after.status == st.status
    requires after.vars == if Produces(order[n]) then st.vars[order[n].key := record.output] else st.vars
    requires forall c :: c in after.calls ==> SafeCall(order, st.steps, c)
    requires |after.sleeps| <= |after.calls|
    ensures RunInvariant(order, n + 1, after)
  {
    VarsExtended(order, st.steps, st.vars, n, record, after.vars);
    forall c | c in after.calls
      ensures SafeCall(order, after.steps, c)
    {
      SafeCallKept(order, st.steps, record, c);
    }
  }

  /** A failing step on a running state. */
  lemma FailedStep(order: seq<Node>, n: nat, st: RunState, record: StepRecord, after: RunState)
    requires n < |order| && RunInvariant(order, n, st) && st.phase.Running?
    requires record.stepKey == order[n].key && record.stepType == TypeOf(order[n]) && record.status == Failed
    requires record.errorMessage.Some?
    requires after.steps == st.steps + [record] && after.phase.Broken?
    requires DecidesStatus(record.stepType, after.status)
    requires forall c :: c in after.calls ==> SafeCall(order, st.steps, c)
    requires |after.sleeps| <= |after.calls|
    ensures RunInvariant(order, n + 1, after)
  {
    assert BrokeAt(after.steps, after.status, n);
    forall c | c in after.calls
      ensures SafeCall(order, after.steps, c)
    {
      SafeCallKept(order, st.steps, record, c);
    }
  }

  lemma SkippedStep(order: seq<Node>, n: nat, st: RunState)
    requires n < |order| && RunInvariant(order, n, st) && st.phase.Broken?
    ensures RunInvariant(order, n + 1, Emit(st, Record(order[n], Skipped, 1, Undefined, Undefined)))
  {
    var record := Record(order[n], Skipped, 1, Undefined, Undefined);
    var f :| BrokeAt(st.steps, st.status, f);
    assert BrokeAt(st.steps + [record], st.status, f);
    forall c | c in st.calls
      ensures SafeCall(order, st.steps + [record], c)
    {
      SafeCallKept(order, st.steps, record, c);
    }
  }

  lemma ActionKeeps(env: Environment, order: seq<Node>, n: nat, st: RunState)
    requires n < |order| && RunInvariant(order, n, st) && st.phase.Running?
    requires order[n].config.Action?
    ensures RunInvariant(order, n + 1, ActionStepOf(env, order[n], st))
  {
    if env.dispatch.Some? {
      var d := env.dispatch.value;
      var out := Attempts(env, d, order[n], st.vars, n, st.calls, st.sleeps, 1);
      ActionRecord(env, d, order[n], st.vars, n, st.calls, st.sleeps);
      forall c | c in out.calls
        ensures SafeCall(order, st.steps, c)
      {
      }
      if out.step.status == Failed {
        FailedStep(order, n, st, out.step, ActionStepOf(env, order[n], st));
      } else {
        SucceededStep(order, n, st, out.step, ActionStepOf(env, order[n], st));
      }
    }
  }

  /** Every call an action makes carries the current variables; its record is succeeded or failed. */
  lemma ActionRecord(env: Environment, dispatch: Dispatcher, n: Node, vars: Vars, emitted: nat, calls: seq<Call>,
                     sleeps: seq<int>)
    ensures var out := Attempts(env, dispatch, n, vars, emitted, calls, sleeps, 1);
            && out.step.stepKey == n.key && out.step.stepType == TypeOf(n)
            && out.step.status != Skipped
            && (out.step.status == Succeeded ==> out.step.output == out.output)
            && (out.step.status == Failed ==> out.step.errorMessage.Some?)
            && |out.sleeps| - |sleeps| <= |out.calls| - |calls|
            && forall c :: c in out.calls ==> c in calls || (c.node == n && c.vars == vars && c.emitted == emitted)
  {
    NoAttempts(env, dispatch, n, vars, emitted, calls, sleeps);
    if env.maxAttempts >= 1 {
      var last := RetryLawFrom(env, dispatch, n, vars, emitted, calls, sleeps, 1);
    }
  }

  lemma StepKeeps(env: Environment, order: seq<Node>, n: nat, st: RunState)
    requires n < |order| && RunInvariant(order, n, st)
    ensures RunInvariant(order, n + 1, Step(env, order[n], st))
  {
    var node := order[n];
    var after := Step(env, node, st);
    match st.phase
    case Crashed(_) =>
    case Broken => SkippedStep(order, n, st);
    case Running =>
      match node.config
      case Trigger(_) => SucceededStep(order, n, st, after.steps[n], after);
      case Filter(_, _) =>
        if after.phase.Running? {
          SucceededStep(order, n, st, after.steps[n], after);
        } else if after.phase.Broken? {
          FailedStep(order, n, st, after.steps[n], after);
        }
      case Transform(_) =>
        if after.phase.Running? {
          SucceededStep(order, n, st, after.steps[n], after);
        }
      case Action => ActionKeeps(env, order, n, st);
  }

  lemma {:induction false} RunKeeps(env: Environment, order: seq<Node>, n: nat)
    requires n <= |order|
    ensures RunInvariant(order, n, After(env, order, n))
  {
    if n > 0 {
      RunKeeps(env, order, n - 1);
      StepKeeps(env, order, n - 1, After(env, order, n - 1));
    }
  }

  /** Each state only appends to the records and calls of the one before. */
  ghost predicate Appending(states: seq<RunState>) {
    forall k :: 0 <= k < |states| - 1 ==>
      states[k].steps <= states[k + 1].steps && states[k].calls <= states[k + 1].calls
  }

  lemma {:induction false} AppendedAll(states: seq<RunState>, i: nat, n: nat)
    requires Appending(states) && i <= n < |states|
    ensures states[i].steps <= states[n].steps && states[i].calls <= states[n].calls
  {
    if i < n {
      AppendedAll(states, i, n - 1);
      assert states[n - 1].steps <= states[n - 1 + 1].steps;
    }
  }

  /** Records and calls are only ever appended. */
  lemma OnlyAppended(env: Environment, order: seq<Node>, i: nat, n: nat)
    requires i <= n <= |order|
    ensures After(env, order, i).steps <= After(env, order, n).steps
    ensures After(env, order, i).calls <= After(env, order, n).calls
  {
    var states := History(env, order);
    forall k | 0 <= k < |states| - 1
      ensures states[k].steps <= states[k + 1].steps && states[k].calls <= states[k + 1].calls
    {
      NextAppends(env, order, k);
    }
    AppendedAll(states, i, n);
  }

  lemma NextAppends(env: Environment, order: seq<Node>, i: nat)
    requires i < |order|
    ensures After(env, order, i).steps <= After(env, order, i + 1).steps
    ensures After(env, order, i).calls <= After(env, order, i + 1).calls
  {
    StepAppends(env, order[i], After(env, order, i));
  }

  lemma StepAppends(env: Environment, n: Node, st: RunState)
    ensures st.steps <= Step(env, n, st).steps && st.calls <= Step(env, n, st).calls
  {
    if st.phase.Running? && n.config.Action? && env.dispatch.Some? {
      AttemptsAppend(env, env.dispatch.value, n, st.vars, |st.steps|, st.calls, st.sleeps);
    }
  }

  lemma AttemptsAppend(env: Environment, dispatch: Dispatcher, n: Node, vars: Vars, emitted: nat, calls: seq<Call>,
                       sleeps: seq<int>)
    ensures calls <= Attempts(env, dispatch, n, vars, emitted, calls, sleeps, 1).calls
  {
    if env.maxAttempts >= 1 {
      var last := RetryLawFrom(env, dispatch, n, vars, emitted, calls, sleeps, 1);
    }
  }

  // ----- what may be dispatched -----

  /** At the time of the call the node at this place had succeeded, and its output, if it makes one, was
      the variable under its key. */
  ghost predicate DoneBefore(st: RunState, c: Call, n: Node, i: nat) {
    && i < c.emitted && i < |st.steps|
    && st.steps[i].stepKey == n.key && st.steps[i].status == Succeeded
    && (Produces(n) ==> n.key in c.vars && c.vars[n.key] == st.steps[i].output)
  }

  ghost predicate AncestorsDone(g: Graph, st: RunState, c: Call) {
    forall n :: n in g.nodes && Ancestor(EdgeSet(g), n.key, c.node.key) ==> exists i :: DoneBefore(st, c, n, i)
  }

  /** A failed step reaches this key. */
  ghost predicate BehindFailure(g: Graph, st: RunState, k: Key) {
    exists f :: 0 <= f < |st.steps| && st.steps[f].status == Failed && Ancestor(EdgeSet(g), st.steps[f].stepKey, k)
  }

  /** The variables are exactly those of the transforms and actions run before the call. */
  ghost predicate ExactVars(order: seq<Node>, st: RunState, c: Call) {
    c.emitted < |order| && c.emitted <= |st.steps| && VarsAre(order, st.steps, c.vars, c.emitted)
  }

  /** What makes a dispatch safe: it is of an action of the graph, all its ancestors have succeeded and their
      outputs are at hand, the variables are exact, and no failed step reaches it. */
  ghost predicate SafeDispatch(g: Graph, order: seq<Node>, st: RunState, c: Call) {
    && c.node in g.nodes && c.node.config.Action?
    && AncestorsDone(g, st, c)
    && ExactVars(order, st, c)
    && !BehindFailure(g, st, c.node.key)
  }

  /** Whatever the dispatcher, the filters and the payload do, an action of a validated graph is dispatched
      only after all its ancestors have succeeded, with the output of each ancestor at hand. */
  lemma DispatchNeedsAncestors(g: Graph, env: Environment, order: seq<Node>, c: Call, n: Node)
    requires TopologicalOrder(g, order) && c in Final(env, order).calls
    requires n in g.nodes && Ancestor(EdgeSet(g), n.key, c.node.key)
    ensures c.node in g.nodes && c.node.config.Action?
    ensures exists i :: DoneBefore(Final(env, order), c, n, i)
  {
    var st := Final(env, order);
    RunKeeps(env, order, |order|);
    assert SafeCall(order, st.steps, c);
    assert order[c.emitted] in multiset(order);
    assert n in multiset(order);
    var i :| 0 <= i < |order| && order[i] == n;
    AncestorComesFirst(g, order, i, c.emitted);
    LatestOfDistinct(order, i, c.emitted);
    assert HoldsOutput(order, st.steps, c.vars, c.emitted, i);
    assert DoneBefore(st, c, n, i);
  }

  lemma LatestOfDistinct(order: seq<Node>, i: nat, p: nat)
    requires NoDup(Keys(order)) && i < p <= |order|
    ensures Produces(order[i]) ==> Latest(order, i, p)
  {
    forall j | i < j < p
      ensures order[j].key != order[i].key
    {
      assert Keys(order)[i] != Keys(order)[j];
    }
  }

  /** The variables seen by a dispatch are exactly those of the transforms and actions run so far, in any
      order of nodes whatever. */
  lemma DispatchSeesExactVars(env: Environment, order: seq<Node>, c: Call)
    requires c in Final(env, order).calls
    ensures ExactVars(order, Final(env, order), c)
    ensures order[c.emitted] == c.node && c.node.config.Action? && AllSucceeded(Final(env, order).steps, c.emitted)
  {
    RunKeeps(env, order, |order|);
    assert SafeCall(order, Final(env, order).steps, c);
  }

  /** Nothing that a failed step reaches is dispatched, and each such node is recorded as skipped. */
  lemma FailureShieldsDescendants(g: Graph, env: Environment, order: seq<Node>, f: nat, n: Node)
    requires TopologicalOrder(g, order)
    requires f < |Final(env, order).steps| && Final(env, order).steps[f].status == Failed
    requires n in g.nodes && Ancestor(EdgeSet(g), Final(env, order).steps[f].stepKey, n.key)
    ensures forall c :: c in Final(env, order).calls ==> c.node != n
    ensures exists i :: f < i < |Final(env, order).steps| && Final(env, order).steps[i].stepKey == n.key
                        && Final(env, order).steps[i].status == Skipped
  {
    var st := Final(env, order);
    RunKeeps(env, order, |order|);
    assert st.phase.Broken?;
    var b :| BrokeAt(st.steps, st.status, b);
    assert n in multiset(order);
    var i :| 0 <= i < |order| && order[i] == n;
    AncestorComesFirst(g, order, f, i);
    forall c | c in st.calls
      ensures c.node != n
    {
      assert SafeCall(order, st.steps, c);
      if c.node == n {
        KeyIndexUnique(order, c.emitted, i);
      }
    }
  }

  /** All dispatches of a run along a topological order are safe. */
  lemma RunIsSafe(g: Graph, env: Environment, order: seq<Node>)
    requires TopologicalOrder(g, order)
    ensures forall c :: c in Final(env, order).calls ==> SafeDispatch(g, order, Final(env, order), c)
  {
    var st := Final(env, order);
    forall c | c in st.calls
      ensures SafeDispatch(g, order, st, c)
    {
      DispatchSeesExactVars(env, order, c);
      RunKeeps(env, order, |order|);
      assert SafeCall(order, st.steps, c);
      assert order[c.emitted] in multiset(order);
      forall n | n in g.nodes && Ancestor(EdgeSet(g), n.key, c.node.key)
        ensures exists i :: DoneBefore(st, c, n, i)
      {
        DispatchNeedsAncestors(g, env, order, c, n);
      }
      if f :| 0 <= f < |st.steps| && st.steps[f].status == Failed
              && Ancestor(EdgeSet(g), st.steps[f].stepKey, c.node.key) {
        FailureShieldsDescendants(g, env, order, f, c.node);
      }
    }
  }

  // ----- the step log -----

  predicate UsablePath(path: string) {
    TokensOf(path).Ok? && (TokensOf(path).value != [] || path == "$")
  }

  /** The node can throw nothing: its paths parse, and a dispatcher is there if it is an action. */
  predicate Harmless(env: Environment, n: Node) {
    match n.config
    case Trigger(_) => true
    case Filter(_, conditions) => forall i :: 0 <= i < |conditions| ==> UsablePath(conditions[i].path)
    case Transform(mappings) =>
      forall i :: 0 <= i < |mappings| ==> UsablePath(mappings[i].from) && TokensOf(mappings[i].to).Ok?
    case Action => env.dispatch.Some?
  }

  lemma {:induction false} EvaluateHarmless(mode: Mode, conditions: seq<Condition>, root: Json,
                                            compare: (Operator, Json, Json) -> bool)
    requires forall i :: 0 <= i < |conditions| ==> UsablePath(conditions[i].path)
    ensures Evaluate(mode, conditions, root, compare).Ok?
  {
    if conditions != [] {
      assert UsablePath(conditions[0].path);
      assert forall i :: 0 <= i < |conditions[1..]| ==> conditions[1..][i] == conditions[i + 1];
      EvaluateHarmless(mode, conditions[1..], root, compare);
    }
  }

  lemma HarmlessStep(env: Environment, n: Node, st: RunState)
    requires Harmless(env, n) && !st.phase.Crashed?
    ensures !Step(env, n, st).phase.Crashed?
  {
    match n.config
    case Filter(mode, conditions) => EvaluateHarmless(mode, conditions, Snapshot(env, st.vars), env.compare);
    case Transform(mappings) =>
      assert AllReadable(mappings, Snapshot(env, st.vars));
      TransformThrows(mappings, Snapshot(env, st.vars), Obj(map[]));
    case _ =>
  }

  lemma {:induction false} HarmlessRun(env: Environment, order: seq<Node>, n: nat)
    requires n <= |order| && forall i :: 0 <= i < n ==> Harmless(env, order[i])
    ensures !After(env, order, n).phase.Crashed?
  {
    if n > 0 {
      HarmlessRun(env, order, n - 1);
      HarmlessStep(env, order[n - 1], After(env, order, n - 1));
    }
  }

  /** The log is all successes, or successes, one failure and skips; the failure decides the status. */
  ghost predicate LogShape(steps: seq<StepRecord>, status: RunStatus) {
    (AllSucceeded(steps, |steps|) && status == RunSucceeded) || exists f :: BrokeAt(steps, status, f)
  }

  /** If no path is malformed and a dispatcher is given, a run emits one record per node, in order, in
      that shape. */
  lemma StepLogShape(env: Environment, order: seq<Node>)
    requires forall i :: 0 <= i < |order| ==> Harmless(env, order[i])
    ensures var st := Final(env, order);
            && ReportOf(st) == Completed(st.status, st.steps)
            && |st.steps| == |order| && InOrder(order, st.steps) && LogShape(st.steps, st.status)
  {
    RunKeeps(env, order, |order|);
    HarmlessRun(env, order, |order|);
  }

  // ----- the entry point -----

  /** An invalid graph is rejected before anything runs; otherwise the sorted nodes are walked. With distinct
      keys every dispatch is safe. */
  method RunWorkflow(g: Graph, env: Environment) returns (report: RunReport, calls: seq<Call>)
    ensures !Accepts(g) ==> report == GraphRejected(Messages(g)) && calls == []
    ensures Accepts(g) ==>
              var st := Final(env, SortOrder(g));
              && calls == st.calls
              && report == match st.phase
                           case Crashed(error) => Aborted(error)
                           case Running => Completed(st.status, st.steps)
                           case Broken => Completed(st.status, st.steps)
    ensures report.Completed? ==> |report.steps| == |g.nodes| && LogShape(report.steps, report.status)
    ensures Accepts(g) && NonEmptyKeys(g) && DistinctKeys(g) ==>
              forall c :: c in calls ==> SafeDispatch(g, SortOrder(g), Final(env, SortOrder(g)), c)
  {
    var sorted := TopoSort(g);
    if sorted.Invalid? {
      return GraphRejected(sorted.errors), [];
    }
    var st := Walk(env, sorted.nodes);
    RunKeeps(env, sorted.nodes, |sorted.nodes|);
    SortedLength(g);
    if NonEmptyKeys(g) && DistinctKeys(g) {
      TopologicalIffDistinct(g);
      RunIsSafe(g, env, sorted.nodes);
    }
    return ReportOf(st), st.calls;
  }

  // ----- what the caller makes of a failed run -----

  datatype FailureReport = FailureReport(error: string, attempts: int)

  /** lib/execute.ts reports the last record of the log. */
  function FailureReportOf(steps: seq<StepRecord>): FailureReport {
    if steps == [] then FailureReport("Workflow failed.", 1)
    else
      var last := steps[|steps| - 1];
      FailureReport(if last.errorMessage.Some? then last.errorMessage.value else "Workflow failed.", last.attempt)
  }

  /** The action at place f failed: everything before it had succeeded and everything after it was skipped;
      its record is the one that its attempts gave. */
  ghost predicate FailedAt(env: Environment, order: seq<Node>, f: nat) {
    var st := Final(env, order);
    && f < |order| && |st.steps| == |order|
    && order[f].config.Action? && env.dispatch.Some?
    && AllSucceeded(st.steps, f)
    && st.steps[f].status == Failed && st.steps[f].errorMessage.Some?
    && (forall i :: f < i < |order| ==> st.steps[i].status == Skipped)
    && st.steps[f] == FailedRecord(env, order, f)
  }

  function FailedRecord(env: Environment, order: seq<Node>, f: nat): StepRecord
    requires f < |order| && env.dispatch.Some?
  {
    var st := After(env, order, f);
    Attempts(env, env.dispatch.value, order[f], st.vars, f, st.calls, st.sleeps, 1).step
  }

  /** The report is the failed record's exactly if that is the record of the last node; any node sorted after
      it, related or not, turns it into the generic message with one attempt. */
  ghost predicate Tells(env: Environment, order: seq<Node>, f: nat, report: FailureReport)
    requires FailedAt(env, order, f)
  {
    var record := FailedRecord(env, order, f);
    report == if f == |order| - 1 then FailureReport(record.errorMessage.value, record.attempt)
              else FailureReport("Workflow failed.", 1)
  }

  /** The step that broke the pipeline was taken on a running state. */
  lemma RunningAt(env: Environment, order: seq<Node>, f: nat)
    requires f < |order| && BrokeAt(Final(env, order).steps, Final(env, order).status, f)
    requires Final(env, order).phase.Broken?
    ensures After(env, order, f).phase.Running? && |After(env, order, f).steps| == f
    ensures !After(env, order, f + 1).phase.Crashed? && |After(env, order, f + 1).steps| == f + 1
    ensures Final(env, order).steps[f] == After(env, order, f + 1).steps[f]
  {
    var st, before, after := Final(env, order), After(env, order, f), After(env, order, f + 1);
    StaysCrashed(env, order, f);
    StaysCrashed(env, order, f + 1);
    RunKeeps(env, order, f);
    RunKeeps(env, order, f + 1);
    OnlyAppended(env, order, f, |order|);
    OnlyAppended(env, order, f + 1, |order|);
  }

  lemma RunFailsAt(env: Environment, order: seq<Node>) returns (f: nat)
    requires Final(env, order).status == RunFailed
    ensures FailedAt(env, order, f) && BrokeAt(Final(env, order).steps, RunFailed, f)
  {
    var st := Final(env, order);
    RunKeeps(env, order, |order|);
    f :| BrokeAt(st.steps, st.status, f);
    RunningAt(env, order, f);
    FailingStep(env, order, f);
  }

  lemma FailingStep(env: Environment, order: seq<Node>, f: nat)
    requires f < |order| && After(env, order, f).phase.Running? && |After(env, order, f).steps| == f
    requires !After(env, order, f + 1).phase.Crashed? && order[f].config.Action?
    ensures env.dispatch.Some? && |After(env, order, f + 1).steps| == f + 1
    ensures After(env, order, f + 1).steps[f] == FailedRecord(env, order, f)
  {
    assert After(env, order, f + 1) == ActionStepOf(env, order[f], After(env, order, f));
  }

  /** A record of a filter that failed. */
  ghost predicate FilteredAt(env: Environment, order: seq<Node>, f: nat) {
    var st := Final(env, order);
    f < |order| && f < |st.steps| && order[f].config.Filter? && st.steps[f].status == Failed
  }

  /** The log decides the status of a run: succeeded if every record did, filtered if a filter failed, failed if
      an action did. */
  lemma StatusFromLog(env: Environment, order: seq<Node>)
    requires !Final(env, order).phase.Crashed?
    ensures var st := Final(env, order);
            && |st.steps| == |order|
            && (st.status == RunSucceeded <==> forall i :: 0 <= i < |order| ==> st.steps[i].status == Succeeded)
            && (st.status == RunFiltered <==> exists f: nat :: FilteredAt(env, order, f))
            && (st.status == RunFailed <==> exists f: nat :: FailedAt(env, order, f))
  {
    var st := Final(env, order);
    RunKeeps(env, order, |order|);
    if st.phase.Broken? {
      var b :| BrokeAt(st.steps, st.status, b);
      if st.status == RunFiltered {
        assert FilteredAt(env, order, b);
      } else {
        assert st.status == RunFailed;
        var f := RunFailsAt(env, order);
      }
      OneFailure(env, order, b);
    }
  }

  /** The failed record's type is the same however it is found. */
  lemma OneFailure(env: Environment, order: seq<Node>, b: nat)
    requires InOrder(order, Final(env, order).steps) && |Final(env, order).steps| == |order|
    requires BrokeAt(Final(env, order).steps, Final(env, order).status, b)
    ensures forall f :: FilteredAt(env, order, f) ==> f == b && Final(env, order).status == RunFiltered
    ensures forall f :: FailedAt(env, order, f) ==> f == b && Final(env, order).status == RunFailed
  {
  }

  lemma StaysCrashed(env: Environment, order: seq<Node>, i: nat)
    requires i <= |order|
    ensures After(env, order, i).phase.Crashed? ==> Final(env, order).phase.Crashed?
  {
    if After(env, order, i).phase.Crashed? {
      CrashedStays(env, order, i, |order|);
    }
  }

  /** When a run fails, one action failed, and the report tells of it exactly if it is the last node of the
      order. */
  lemma DeadLetterReport(env: Environment, order: seq<Node>)
    requires Final(env, order).status == RunFailed
    ensures exists f: nat :: FailedAt(env, order, f) && Tells(env, order, f, FailureReportOf(Final(env, order).steps))
  {
    var f := RunFailsAt(env, order);
    var steps := Final(env, order).steps;
    assert f < |steps| - 1 ==> steps[|steps| - 1].errorMessage == None && steps[|steps| - 1].attempt == 1;
    assert Tells(env, order, f, FailureReportOf(steps));
  }
}
