/** Step records and executeActionWithRetry of lib/dag/runner.ts. */
module Actions {
  import opened Graphs
  import opened Numbers
  import opened Paths
  import opened Results
  import opened Sequences

  // ----- records -----

  datatype StepStatus = Succeeded | Failed | Skipped

  datatype StepType = TriggerStep | FilterStep | TransformStep | ActionStep

  datatype StepRecord = StepRecord(
    stepKey: Key,
    stepType: StepType,
    status: StepStatus,
    attempt: int,
    input: Json,
    output: Json,
    errorMessage: Option<string>,
    httpStatus: Option<int>)

  datatype DispatchResult = DispatchResult(
    ok: bool,
    retryable: bool,
    output: Json,
    errorMessage: Option<string>,
    httpStatus: Option<int>)

  /** What an attempt to dispatch can come to: a result, or one of three kinds of exception. */
  datatype Reply =
    | Returned(result: DispatchResult)
    | ThrewRetryable(message: string)
    | ThrewPermanent(message: string)
    | ThrewOther(message: string)

  type Vars = map<Key, Json>

  /** The dispatcher may answer differently every time: the first argument counts all calls of the run. */
  type Dispatcher = (nat, Node, Vars, int) -> Reply

  datatype Environment = Environment(
    payload: Json,
    dispatch: Option<Dispatcher>,
    compare: (Operator, Json, Json) -> bool,
    random: nat -> real,
    maxAttempts: int,
    backoffBaseMs: int)

  /** One dispatch as it was made: with these variables and after so many step records. */
  datatype Call = Call(node: Node, attempt: int, vars: Vars, emitted: nat)

  datatype ActionOutcome = ActionOutcome(step: StepRecord, output: Json, calls: seq<Call>, sleeps: seq<int>)

  function TypeOf(n: Node): StepType {
    match n.config
    case Trigger(_) => TriggerStep
    case Filter(_, _) => FilterStep
    case Transform(_) => TransformStep
    case Action => ActionStep
  }

  function Record(n: Node, status: StepStatus, attempt: int, input: Json, output: Json): StepRecord {
    StepRecord(n.key, TypeOf(n), status, attempt, input, output, None, None)
  }

  function Snapshot(env: Environment, vars: Vars): Json {
    Obj(map["payload" := env.payload, "vars" := Obj(vars)])
  }

  // ----- one action -----

  function ResultOf(reply: Reply): DispatchResult {
    match reply
    case Returned(result) => result
    case ThrewRetryable(message) => DispatchResult(false, true, Undefined, Some(message), None)
    case ThrewPermanent(message) => DispatchResult(false, false, Undefined, Some(message), None)
    case ThrewOther(message) => DispatchResult(false, true, Undefined, Some(message), None)
  }

  function Full(env: Environment, attempt: int): int {
    env.backoffBaseMs * Pow2(if attempt > 1 then attempt - 1 else 0)
  }

  function Portion(share: real, full: int): real {
    share * full as real
  }

  function FloorOfShare(share: real, full: int): int {
    var delay := Portion(share, full).Floor;
    if delay < 0 then 0 else delay
  }

  /** The n-th sleep of the run, made after a given attempt. */
  function JitteredBackoff(env: Environment, n: nat, attempt: int): int {
    FloorOfShare(env.random(n), Full(env, attempt))
  }

  function Message(r: DispatchResult): string {
    if r.errorMessage.Some? then r.errorMessage.value else "Action failed."
  }

  function SuccessRecord(n: Node, attempt: int, input: Json, r: DispatchResult): StepRecord {
    Record(n, Succeeded, attempt, input, r.output).(httpStatus := r.httpStatus)
  }

  function FailureRecord(n: Node, attempt: int, input: Json, r: DispatchResult, output: Json): StepRecord {
    Record(n, Failed, attempt, input, output).(errorMessage := Some(Message(r)), httpStatus := r.httpStatus)
  }

  const EXHAUSTED_MESSAGE := "Action failed after exhausting retries."

  function ExhaustedRecord(n: Node, maxAttempts: int): StepRecord {
    Record(n, Failed, maxAttempts, Undefined, Undefined).(errorMessage := Some(EXHAUSTED_MESSAGE))
  }

  function AttemptsNote(count: nat): Json {
    Obj(map["attempts" := Num(count as real)])
  }

  /** The attempts from a given one on. */
  function Attempts(env: Environment, dispatch: Dispatcher, n: Node, vars: Vars, emitted: nat,
                    calls: seq<Call>, sleeps: seq<int>, attempt: nat): ActionOutcome
    decreases env.maxAttempts - attempt
  {
    if attempt > env.maxAttempts then
      ActionOutcome(ExhaustedRecord(n, env.maxAttempts), Undefined, calls, sleeps)
    else
      var input := Snapshot(env, vars);
      var r := ResultOf(dispatch(|calls|, n, vars, attempt));
      var calls' := calls + [Call(n, attempt, vars, emitted)];
      if r.ok then ActionOutcome(SuccessRecord(n, attempt, input, r), r.output, calls', sleeps)
      else if attempt >= env.maxAttempts then
        ActionOutcome(FailureRecord(n, attempt, input, r, AttemptsNote(attempt)), Undefined, calls', sleeps)
      else if !r.retryable then
        ActionOutcome(FailureRecord(n, attempt, input, r, Undefined), Undefined, calls', sleeps)
      else
        var sleeps' := sleeps + [JitteredBackoff(env, |sleeps|, attempt)];
        Attempts(env, dispatch, n, vars, emitted, calls', sleeps', attempt + 1)
  }

  method ExecuteActionWithRetry(env: Environment, dispatch: Dispatcher, n: Node, vars: Vars, emitted: nat,
                                calls: seq<Call>, sleeps: seq<int>)
    returns (outcome: ActionOutcome)
    ensures outcome == Attempts(env, dispatch, n, vars, emitted, calls, sleeps, 1)
  {
    var failedAttempts: seq<DispatchResult> := [];
    var calls', sleeps' := calls, sleeps;
    var attempt := 1;
    while attempt <= env.maxAttempts
      invariant |failedAttempts| == attempt - 1
      invariant Attempts(env, dispatch, n, vars, emitted, calls, sleeps, 1)
             == Attempts(env, dispatch, n, vars, emitted, calls', sleeps', attempt)
    {
      var input := Snapshot(env, vars);
      var result := ResultOf(dispatch(|calls'|, n, vars, attempt));
      calls' := calls' + [Call(n, attempt, vars, emitted)];
      if result.ok {
        return ActionOutcome(SuccessRecord(n, attempt, input, result), result.output, calls', sleeps');
      }
      failedAttempts := failedAttempts + [result];
      var last := failedAttempts[|failedAttempts| - 1];
      if attempt >= env.maxAttempts {
        var step := FailureRecord(n, attempt, input, last, AttemptsNote(|failedAttempts|));
        return ActionOutcome(step, Undefined, calls', sleeps');
      }
      if !result.retryable {
        return ActionOutcome(FailureRecord(n, attempt, input, last, Undefined), Undefined, calls', sleeps');
      }
      sleeps' := sleeps' + [JitteredBackoff(env, |sleeps'|, attempt)];
      attempt := attempt + 1;
    }
    return ActionOutcome(ExhaustedRecord(n, env.maxAttempts), Undefined, calls', sleeps');
  }

  // ----- the retry law -----

  /** The dispatcher's reply asks for another attempt: an exception other than a permanent one, or a result
      that failed and may be retried. */
  predicate AsksAgain(reply: Reply) {
    match reply
    case Returned(r) => !r.ok && r.retryable
    case ThrewRetryable(_) => true
    case ThrewPermanent(_) => false
    case ThrewOther(_) => true
  }

  /** The reply to attempt a of an action whose first call is number `first`. */
  function ReplyTo(dispatch: Dispatcher, n: Node, vars: Vars, first: nat, a: nat): Reply
    requires a >= 1
  {
    dispatch(first + a - 1, n, vars, a)
  }

  function Sum(xs: seq<int>): int {
    if xs == [] then 0 else Sum(xs[..|xs| - 1]) + xs[|xs| - 1]
  }

  ghost predicate RandomInUnit(env: Environment) {
    forall n :: 0.0 <= env.random(n) < 1.0
  }

  lemma ScaleUnit(x: real, y: real, p: real)
    requires 0.0 <= x < 1.0 && y >= 0.0 && p == x * y
    ensures 0.0 <= p <= y
    ensures y > 0.0 ==> p < y
  {
    assert y - p == (1.0 - x) * y;
    assert (1.0 - x) * y >= 0.0;
    assert y > 0.0 ==> (1.0 - x) * y > 0.0;
  }

  lemma PortionBound(share: real, full: int)
    requires 0.0 <= share < 1.0 && full >= 0
    ensures 0.0 <= Portion(share, full) <= full as real
    ensures full > 0 ==> Portion(share, full) < full as real
  {
    ScaleUnit(share, full as real, Portion(share, full));
  }

  lemma FloorWithin(p: real, full: int)
    requires 0.0 <= p <= full as real
    ensures 0 <= p.Floor <= full
    ensures p < full as real ==> p.Floor < full
  {
  }

  lemma FloorBound(share: real, full: int)
    requires 0.0 <= share < 1.0 && full >= 0
    ensures 0 <= FloorOfShare(share, full) <= full
    ensures full > 0 ==> FloorOfShare(share, full) < full
  {
    PortionBound(share, full);
    FloorWithin(Portion(share, full), full);
  }

  lemma FullIsProduct(env: Environment, attempt: nat)
    requires env.backoffBaseMs >= 0 && attempt >= 1
    ensures Full(env, attempt) == env.backoffBaseMs * Pow2(attempt - 1) >= 0
    ensures env.backoffBaseMs > 0 ==> Full(env, attempt) > 0
  {
    MulPositive(env.backoffBaseMs, Pow2(attempt - 1));
  }

  lemma MulPositive(x: int, y: int)
    requires x >= 0 && y > 0
    ensures x * y >= 0
    ensures x > 0 ==> x * y > 0
  {
  }

  /** A delay lies in [0, base * 2^(attempt - 1)). */
  lemma BackoffBound(env: Environment, n: nat, attempt: nat)
    requires RandomInUnit(env) && env.backoffBaseMs >= 0 && attempt >= 1
    ensures 0 <= JitteredBackoff(env, n, attempt) <= env.backoffBaseMs * Pow2(attempt - 1)
    ensures env.backoffBaseMs > 0 ==> JitteredBackoff(env, n, attempt) < env.backoffBaseMs * Pow2(attempt - 1)
  {
    FullIsProduct(env, attempt);
    FloorBound(env.random(n), Full(env, attempt));
  }

  /** The calls for attempts `attempt` to `last`. */
  function CallsMade(n: Node, vars: Vars, emitted: nat, attempt: nat, last: nat): (calls: seq<Call>)
    ensures |calls| == if attempt > last then 0 else last - attempt + 1
    ensures forall i :: 0 <= i < |calls| ==> calls[i] == Call(n, attempt + i, vars, emitted)
    decreases last - attempt
  {
    if attempt > last then [] else [Call(n, attempt, vars, emitted)] + CallsMade(n, vars, emitted, attempt + 1, last)
  }

  /** The sleeps between attempts `attempt` to `last`, of which the first is the k-th of the run. */
  function Delays(env: Environment, k: nat, attempt: nat, last: nat): (delays: seq<int>)
    ensures |delays| == if attempt >= last then 0 else last - attempt
    decreases last - attempt
  {
    if attempt >= last then [] else [JitteredBackoff(env, k, attempt)] + Delays(env, k + 1, attempt + 1, last)
  }

  /** The state that filters, transforms and records see: the payload and the variables. */
  ghost predicate IsState(env: Environment, vars: Vars, root: Json) {
    && root.Obj? && root.fields.Keys == {"payload", "vars"}
    && root.fields["payload"] == env.payload && root.fields["vars"] == Obj(vars)
  }

  lemma SnapshotIsState(env: Environment, vars: Vars, root: Json)
    ensures IsState(env, vars, root) <==> root == Snapshot(env, vars)
  {
    var s := Snapshot(env, vars);
    if IsState(env, vars, root) {
      assert root.fields == s.fields;
    }
  }

  /** The record of an attempt that failed with this message. */
  ghost predicate ReportsFailure(step: StepRecord, output: Json, message: string, httpStatus: Option<int>, last: nat,
                                 maxAttempts: int) {
    && step.status == Failed && output == Undefined
    && step.errorMessage == Some(message) && step.httpStatus == httpStatus
    && (if last == maxAttempts then IsAttempts(step.output, last) else step.output == Undefined)
  }

  ghost predicate IsAttempts(note: Json, count: nat) {
    note.Obj? && note.fields.Keys == {"attempts"} && note.fields["attempts"] == Num(count as real)
  }

  /** The step record tells how attempt `last`, with this reply, ended: it succeeded exactly if the reply is a
      result that is ok; otherwise it carries the exception's message, or the result's, or the default. */
  ghost predicate Reports(step: StepRecord, output: Json, reply: Reply, last: nat, maxAttempts: int) {
    && step.attempt == last
    && match reply
       case Returned(r) =>
         if r.ok then
           && step.status == Succeeded && step.output == r.output && output == r.output
           && step.errorMessage == None && step.httpStatus == r.httpStatus
         else
           ReportsFailure(step, output, if r.errorMessage.Some? then r.errorMessage.value else "Action failed.",
                          r.httpStatus, last, maxAttempts)
       case ThrewRetryable(m) => ReportsFailure(step, output, m, None, last, maxAttempts)
       case ThrewPermanent(m) => ReportsFailure(step, output, m, None, last, maxAttempts)
       case ThrewOther(m) => ReportsFailure(step, output, m, None, last, maxAttempts)
  }

  /** A sleep after a given attempt: the random share of the doubled base, rounded down and never negative. */
  ghost predicate IsDelay(env: Environment, n: nat, attempt: nat, delay: int)
    requires attempt >= 1
  {
    var share := env.random(n) * (env.backoffBaseMs * Pow2(attempt - 1)) as real;
    if share < 0.0 then delay == 0 else delay as real <= share < (delay + 1) as real
  }

  ghost predicate AreDelays(env: Environment, k: nat, attempt: nat, delays: seq<int>)
    requires attempt >= 1
  {
    forall i :: 0 <= i < |delays| ==> IsDelay(env, k + i, attempt + i, delays[i])
  }

  /** What the attempts from `attempt` on do when the last one made is number `last`. */
  ghost predicate RetriesUntil(env: Environment, dispatch: Dispatcher, n: Node, vars: Vars, emitted: nat,
                               calls: seq<Call>, sleeps: seq<int>, attempt: nat, last: nat, out: ActionOutcome)
    requires 1 <= attempt <= |calls| + 1
  {
    var first := |calls| - (attempt - 1);
    && attempt <= last <= env.maxAttempts
    && (forall a :: attempt <= a < last ==> AsksAgain(ReplyTo(dispatch, n, vars, first, a)))
    && (last == env.maxAttempts || !AsksAgain(ReplyTo(dispatch, n, vars, first, last)))
    && Reports(out.step, out.output, ReplyTo(dispatch, n, vars, first, last), last, env.maxAttempts)
    && out.step.stepKey == n.key && out.step.stepType == TypeOf(n) && IsState(env, vars, out.step.input)
    && out.calls == calls + CallsMade(n, vars, emitted, attempt, last)
    && out.sleeps == sleeps + Delays(env, |sleeps|, attempt, last)
  }

  /** The last attempt is reported as its reply demands. */
  lemma EndsWith(env: Environment, n: Node, vars: Vars, attempt: nat, reply: Reply, out: ActionOutcome)
    requires 1 <= attempt <= env.maxAttempts && (attempt == env.maxAttempts || !AsksAgain(reply))
    requires var r := ResultOf(reply);
             out.output == (if r.ok then r.output else Undefined)
             && out.step == if r.ok then SuccessRecord(n, attempt, Snapshot(env, vars), r)
                            else FailureRecord(n, attempt, Snapshot(env, vars), r,
                                               if attempt >= env.maxAttempts then AttemptsNote(attempt) else Undefined)
    ensures Reports(out.step, out.output, reply, attempt, env.maxAttempts)
  {
  }

  /** The attempt that decides is the last. */
  lemma RetryEnds(env: Environment, dispatch: Dispatcher, n: Node, vars: Vars, emitted: nat, calls: seq<Call>,
                  sleeps: seq<int>, attempt: nat)
    requires 1 <= attempt <= env.maxAttempts && |calls| >= attempt - 1
    requires attempt == env.maxAttempts || !AsksAgain(dispatch(|calls|, n, vars, attempt))
    ensures RetriesUntil(env, dispatch, n, vars, emitted, calls, sleeps, attempt, attempt,
                         Attempts(env, dispatch, n, vars, emitted, calls, sleeps, attempt))
  {
    var reply := dispatch(|calls|, n, vars, attempt);
    var out := Attempts(env, dispatch, n, vars, emitted, calls, sleeps, attempt);
    assert reply == ReplyTo(dispatch, n, vars, |calls| - (attempt - 1), attempt);
    SnapshotIsState(env, vars, Snapshot(env, vars));
    EndsWith(env, n, vars, attempt, reply, out);
    assert CallsMade(n, vars, emitted, attempt + 1, attempt) == [];
    assert sleeps + [] == sleeps;
  }

  /** An attempt that does not decide is followed by a sleep and the next. */
  lemma RetryGoesOn(env: Environment, dispatch: Dispatcher, n: Node, vars: Vars, emitted: nat, calls: seq<Call>,
                    sleeps: seq<int>, attempt: nat, last: nat, out: ActionOutcome)
    requires 1 <= attempt < env.maxAttempts && |calls| >= attempt - 1
    requires AsksAgain(dispatch(|calls|, n, vars, attempt))
    requires RetriesUntil(env, dispatch, n, vars, emitted, calls + [Call(n, attempt, vars, emitted)],
                          sleeps + [JitteredBackoff(env, |sleeps|, attempt)], attempt + 1, last, out)
    ensures RetriesUntil(env, dispatch, n, vars, emitted, calls, sleeps, attempt, last, out)
  {
    var calls' := calls + [Call(n, attempt, vars, emitted)];
    var sleeps' := sleeps + [JitteredBackoff(env, |sleeps|, attempt)];
    assert dispatch(|calls|, n, vars, attempt) == ReplyTo(dispatch, n, vars, |calls| - (attempt - 1), attempt);
    assert calls' + CallsMade(n, vars, emitted, attempt + 1, last)
        == calls + CallsMade(n, vars, emitted, attempt, last);
    assert sleeps' + Delays(env, |sleeps'|, attempt + 1, last) == sleeps + Delays(env, |sleeps|, attempt, last);
  }

  lemma {:induction false} RetryLawFrom(env: Environment, dispatch: Dispatcher, n: Node, vars: Vars, emitted: nat,
                                        calls: seq<Call>, sleeps: seq<int>, attempt: nat)
    returns (last: nat)
    requires 1 <= attempt <= env.maxAttempts && |calls| >= attempt - 1
    ensures RetriesUntil(env, dispatch, n, vars, emitted, calls, sleeps, attempt, last,
                         Attempts(env, dispatch, n, vars, emitted, calls, sleeps, attempt))
    decreases env.maxAttempts - attempt
  {
    if attempt == env.maxAttempts || !AsksAgain(dispatch(|calls|, n, vars, attempt)) {
      last := attempt;
      RetryEnds(env, dispatch, n, vars, emitted, calls, sleeps, attempt);
    } else {
      var calls' := calls + [Call(n, attempt, vars, emitted)];
      var sleeps' := sleeps + [JitteredBackoff(env, |sleeps|, attempt)];
      last := RetryLawFrom(env, dispatch, n, vars, emitted, calls', sleeps', attempt + 1);
      var out := Attempts(env, dispatch, n, vars, emitted, calls, sleeps, attempt);
      assert out == Attempts(env, dispatch, n, vars, emitted, calls', sleeps', attempt + 1);
      RetryGoesOn(env, dispatch, n, vars, emitted, calls, sleeps, attempt, last, out);
    }
  }

  /** With at least one attempt allowed, an action is dispatched up to and including its first success, its
      first permanent failure, or the last attempt allowed, whichever comes first; in between it sleeps
      once per retry. */
  lemma RetryLaw(env: Environment, dispatch: Dispatcher, n: Node, vars: Vars, emitted: nat, calls: seq<Call>,
                 sleeps: seq<int>)
    returns (last: nat)
    requires env.maxAttempts >= 1
    ensures var out := Attempts(env, dispatch, n, vars, emitted, calls, sleeps, 1);
            && RetriesUntil(env, dispatch, n, vars, emitted, calls, sleeps, 1, last, out)
            && Slept(env, sleeps, last, out.sleeps)
  {
    last := RetryLawFrom(env, dispatch, n, vars, emitted, calls, sleeps, 1);
    DelaysAreDelays(env, |sleeps|, 1, last);
    TailOf(sleeps, Delays(env, |sleeps|, 1, last));
  }

  /** After `last` attempts there has been one sleep fewer, each after its attempt. */
  ghost predicate Slept(env: Environment, before: seq<int>, last: nat, after: seq<int>) {
    && |after| == |before| + last - 1 && before <= after
    && AreDelays(env, |before|, 1, after[|before|..])
  }

  lemma FloorOf(share: real, full: int, delay: int)
    requires delay == FloorOfShare(share, full)
    ensures var x := share * full as real;
            if x < 0.0 then delay == 0 else delay as real <= x < (delay + 1) as real
  {
    var x := share * full as real;
    assert x.Floor as real <= x < x.Floor as real + 1.0;
  }

  lemma {:induction false} DelaysAreDelays(env: Environment, k: nat, attempt: nat, last: nat)
    requires attempt >= 1
    ensures AreDelays(env, k, attempt, Delays(env, k, attempt, last))
    decreases last - attempt
  {
    if attempt < last {
      DelaysAreDelays(env, k + 1, attempt + 1, last);
      FirstDelay(env, k, attempt);
      DelayInFront(env, k, attempt, JitteredBackoff(env, k, attempt), Delays(env, k + 1, attempt + 1, last));
    }
  }

  lemma FirstDelay(env: Environment, k: nat, attempt: nat)
    requires attempt >= 1
    ensures IsDelay(env, k, attempt, JitteredBackoff(env, k, attempt))
  {
    FloorOf(env.random(k), Full(env, attempt), JitteredBackoff(env, k, attempt));
  }

  lemma DelayInFront(env: Environment, k: nat, attempt: nat, delay: int, rest: seq<int>)
    requires attempt >= 1 && IsDelay(env, k, attempt, delay) && AreDelays(env, k + 1, attempt + 1, rest)
    ensures AreDelays(env, k, attempt, [delay] + rest)
  {
    forall i | 0 <= i < |rest| + 1
      ensures IsDelay(env, k + i, attempt + i, ([delay] + rest)[i])
    {
      if i > 0 {
        assert IsDelay(env, k + 1 + (i - 1), attempt + 1 + (i - 1), rest[i - 1]);
      }
    }
  }

  lemma {:induction false} SumCons(x: int, xs: seq<int>)
    ensures Sum([x] + xs) == x + Sum(xs)
  {
    if xs == [] {
      assert [x] + xs == [x] && [x][..0] == [];
    } else {
      SumCons(x, xs[..|xs| - 1]);
      assert ([x] + xs)[..|xs|] == [x] + xs[..|xs| - 1];
    }
  }

  lemma Doubling(base: int, attempt: nat, last: nat)
    requires 1 <= attempt < last
    ensures base * Pow2(attempt - 1) + base * (Pow2(last - 1) - Pow2(attempt))
         == base * (Pow2(last - 1) - Pow2(attempt - 1))
  {
    assert Pow2(attempt) == 2 * Pow2(attempt - 1);
  }

  lemma {:induction false} SumOfDelays(env: Environment, k: nat, attempt: nat, last: nat)
    requires RandomInUnit(env) && env.backoffBaseMs >= 0 && 1 <= attempt <= last
    ensures 0 <= Sum(Delays(env, k, attempt, last)) <= env.backoffBaseMs * (Pow2(last - 1) - Pow2(attempt - 1))
    decreases last - attempt
  {
    if attempt < last {
      SumOfDelays(env, k + 1, attempt + 1, last);
      SumCons(JitteredBackoff(env, k, attempt), Delays(env, k + 1, attempt + 1, last));
      BackoffBound(env, k, attempt);
      FullIsProduct(env, attempt);
      Doubling(env.backoffBaseMs, attempt, last);
    }
  }

  /** All the sleeping done for one action stays within the geometric bound. */
  lemma TotalBackoff(env: Environment, dispatch: Dispatcher, n: Node, vars: Vars, emitted: nat, calls: seq<Call>,
                     sleeps: seq<int>)
    requires env.maxAttempts >= 1 && RandomInUnit(env) && env.backoffBaseMs >= 0
    ensures var out := Attempts(env, dispatch, n, vars, emitted, calls, sleeps, 1);
            && out.step.attempt >= 1
            && |out.sleeps| == |sleeps| + out.step.attempt - 1
            && 0 <= Sum(out.sleeps[|sleeps|..]) <= env.backoffBaseMs * (Pow2(out.step.attempt - 1) - 1)
  {
    var last := RetryLawFrom(env, dispatch, n, vars, emitted, calls, sleeps, 1);
    var out := Attempts(env, dispatch, n, vars, emitted, calls, sleeps, 1);
    TailOf(sleeps, Delays(env, |sleeps|, 1, last));
    SumOfDelays(env, |sleeps|, 1, last);
  }

  /** With no attempt allowed the action fails without being dispatched. */
  lemma NoAttempts(env: Environment, dispatch: Dispatcher, n: Node, vars: Vars, emitted: nat, calls: seq<Call>,
                   sleeps: seq<int>)
    ensures var out := Attempts(env, dispatch, n, vars, emitted, calls, sleeps, 1);
            && (out.calls == calls <==> env.maxAttempts < 1)
            && (env.maxAttempts < 1 ==>
                  && out.step.stepKey == n.key && out.step.status == Failed && out.step.attempt == env.maxAttempts
                  && out.step.errorMessage == Some("Action failed after exhausting retries.")
                  && out.step.input == out.step.output == out.output == Undefined
                  && out.step.httpStatus == None && out.sleeps == sleeps)
  {
    if env.maxAttempts >= 1 {
      var last := RetryLawFrom(env, dispatch, n, vars, emitted, calls, sleeps, 1);
    }
  }
}
