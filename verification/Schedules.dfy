/** Schedule ids and the reconciler of lib/scheduler.ts, and the decoding of schedule jobs in lib/workers.ts. */
module Schedules {
  import opened Graphs
  import opened Results
  import opened Validation

  const PREFIX := "scr:"

  const JOB_PREFIX := "schedule:"

  datatype JobData = JobData(
    organizationId: string,
    workflowId: string,
    triggerKey: string,
    cron: string,
    timezone: string)

  /** A job scheduler: its pattern, and the template of the jobs it yields. */
  datatype Scheduler = Scheduler(cron: string, timezone: string, jobName: string, data: JobData)

  datatype ActiveWorkflow = ActiveWorkflow(organizationId: string, id: string, graph: Graph)

  // ----- schedule ids -----

  predicate HasPrefix(s: string, prefix: string) {
    |prefix| <= |s| && s[..|prefix|] == prefix
  }

  function Unprefixed(organizationId: string, workflowId: string, triggerKey: string): string {
    organizationId + ":" + (workflowId + ":" + triggerKey)
  }

  function ScheduleIdFor(organizationId: string, workflowId: string, triggerKey: string): string {
    PREFIX + Unprefixed(organizationId, workflowId, triggerKey)
  }

  /** The parts between colons; there is always at least one. */
  function Split(s: string): (parts: seq<string>)
    ensures |parts| >= 1
  {
    if s == "" then [""]
    else if s[0] == ':' then [""] + Split(s[1..])
    else [[s[0]] + Split(s[1..])[0]] + Split(s[1..])[1..]
  }

  function ParseScheduleId(id: string): Option<JobData> {
    if !HasPrefix(id, PREFIX) then None
    else
      var parts := Split(id[|PREFIX|..]);
      if |parts| != 3 then None else Some(JobData(parts[0], parts[1], parts[2], "", ""))
  }

  lemma {:induction false} SplitAtColon(a: string, rest: string)
    ensures |Split(a + ":" + rest)| == |Split(a)| + |Split(rest)|
    ensures ':' !in a ==> Split(a + ":" + rest) == [a] + Split(rest)
  {
    var s := a + ":" + rest;
    if a == "" {
      assert s == ":" + rest && s[1..] == rest;
    } else {
      SplitAtColon(a[1..], rest);
      assert s[1..] == a[1..] + ":" + rest && s[0] == a[0];
      assert a == [a[0]] + a[1..];
    }
  }

  lemma {:induction false} SplitWhole(a: string)
    ensures |Split(a)| == 1 <==> ':' !in a
    ensures ':' !in a ==> Split(a) == [a]
  {
    if a != "" {
      SplitWhole(a[1..]);
      assert a == [a[0]] + a[1..];
    }
  }

  predicate ColonFree(organizationId: string, workflowId: string, triggerKey: string) {
    ':' !in organizationId && ':' !in workflowId && ':' !in triggerKey
  }

  lemma UnprefixedParts(o: string, w: string, t: string)
    ensures |Split(Unprefixed(o, w, t))| == 3 <==> ColonFree(o, w, t)
    ensures ColonFree(o, w, t) ==> Split(Unprefixed(o, w, t)) == [o, w, t]
  {
    SplitAtColon(o, w + ":" + t);
    SplitAtColon(w, t);
    SplitWhole(o);
    SplitWhole(w);
    SplitWhole(t);
  }

  /** An id decodes at all, and then to what it was made of, exactly when no component holds a colon. */
  lemma ParseInvertsFormat(o: string, w: string, t: string)
    ensures ParseScheduleId(ScheduleIdFor(o, w, t))
         == if ColonFree(o, w, t) then Some(JobData(o, w, t, "", "")) else None
  {
    assert ScheduleIdFor(o, w, t)[|PREFIX|..] == Unprefixed(o, w, t);
    UnprefixedParts(o, w, t);
  }

  /** Among colon-free components ids are unique. */
  lemma IdsInjective(o: string, w: string, t: string, o': string, w': string, t': string)
    requires ColonFree(o, w, t) && ColonFree(o', w', t')
    ensures ScheduleIdFor(o, w, t) == ScheduleIdFor(o', w', t') <==> (o, w, t) == (o', w', t')
  {
    ParseInvertsFormat(o, w, t);
    ParseInvertsFormat(o', w', t');
  }

  // ----- decoding a job -----

  function Truthy(data: Option<JobData>): bool {
    data.Some? && data.value.organizationId != "" && data.value.workflowId != ""
  }

  /** The worker prefers the job's data; only without it does it take the id out of the job's name. */
  function DecodeJob(name: string, data: Option<JobData>): Option<JobData> {
    if Truthy(data) then
      ParseScheduleId(Unprefixed(data.value.organizationId, data.value.workflowId, data.value.triggerKey))
    else ParseScheduleId(if HasPrefix(name, JOB_PREFIX) then name[|JOB_PREFIX|..] else name)
  }

  /** Without data, the name decodes to the components of the schedule. */
  lemma NameDecodes(o: string, w: string, t: string)
    ensures DecodeJob(JOB_PREFIX + ScheduleIdFor(o, w, t), None)
         == if ColonFree(o, w, t) then Some(JobData(o, w, t, "", "")) else None
  {
    assert (JOB_PREFIX + ScheduleIdFor(o, w, t))[|JOB_PREFIX|..] == ScheduleIdFor(o, w, t);
    ParseInvertsFormat(o, w, t);
  }

  function Colons(s: string): nat {
    |Split(s)| - 1
  }

  lemma {:induction false} PartsColonFree(s: string)
    ensures forall part :: part in Split(s) ==> ':' !in part
  {
    if s != "" {
      var rest := Split(s[1..]);
      PartsColonFree(s[1..]);
      assert rest[0] in rest && forall part :: part in rest[1..] ==> part in rest;
    }
  }

  /** The unprefixed text passes for an id: it happens to start with the prefix, and to have four parts. */
  predicate PassesForId(o: string, w: string, t: string) {
    (o == "scr" || HasPrefix(o, PREFIX)) && Colons(o) + Colons(w) + Colons(t) == 1
  }

  lemma UnprefixedHasPrefix(o: string, w: string, t: string)
    ensures HasPrefix(Unprefixed(o, w, t), PREFIX) <==> o == "scr" || HasPrefix(o, PREFIX)
  {
    var id := Unprefixed(o, w, t);
    assert id[..|o|] == o && id[|o|] == ':';
    assert PREFIX[0] == 's' && PREFIX[1] == 'c' && PREFIX[2] == 'r' && PREFIX[3] == ':';
    if |o| >= 4 {
      assert id[..4] == o[..4];
    } else if |o| == 3 {
      assert id[..4] == o + ":";
      assert "scr" + ":" == PREFIX;
      assert (o + ":")[..3] == o && PREFIX[..3] == "scr";
    } else {
      assert PREFIX[|o|] != ':';
      assert |id| >= 4 ==> id[..4][|o|] == ':';
    }
  }

  lemma PartsCount(o: string, w: string, t: string)
    ensures |Split(Unprefixed(o, w, t))| == Colons(o) + Colons(w) + Colons(t) + 3
  {
    SplitAtColon(o, w + ":" + t);
    SplitAtColon(w, t);
  }

  lemma PartsAfterPrefix(id: string)
    requires HasPrefix(id, PREFIX)
    ensures |Split(id)| == 1 + |Split(id[|PREFIX|..])|
  {
    var rest := id[|PREFIX|..];
    assert id == "scr" + ":" + rest;
    SplitAtColon("scr", rest);
    SplitWhole("scr");
  }

  lemma DecodedColonFree(id: string)
    requires ParseScheduleId(id).Some?
    ensures var data := ParseScheduleId(id).value;
            ColonFree(data.organizationId, data.workflowId, data.triggerKey)
  {
    var parts := Split(id[|PREFIX|..]);
    PartsColonFree(id[|PREFIX|..]);
    assert parts[0] in parts && parts[1] in parts && parts[2] in parts;
  }

  /** Without its prefix the text of a schedule is decoded exactly if it passes for an id by accident, and
      never to the schedule's own components. */
  lemma UnprefixedParses(o: string, w: string, t: string)
    ensures ParseScheduleId(Unprefixed(o, w, t)).Some? <==> PassesForId(o, w, t)
    ensures ParseScheduleId(Unprefixed(o, w, t)) != Some(JobData(o, w, t, "", ""))
  {
    var id := Unprefixed(o, w, t);
    UnprefixedHasPrefix(o, w, t);
    PartsCount(o, w, t);
    if HasPrefix(id, PREFIX) {
      PartsAfterPrefix(id);
    }
    if ParseScheduleId(id) == Some(JobData(o, w, t, "", "")) {
      DecodedColonFree(id);
      SplitWhole(o);
      SplitWhole(w);
      SplitWhole(t);
    }
  }

  /** With its data, no job of any schedule is decoded to that schedule: the prefix is missing. It is dropped,
      unless the organization is called `scr` or starts with the prefix and the components hold one colon
      in all. */
  lemma DataIsNotDecoded(o: string, w: string, t: string, data: Option<JobData>)
    requires data.Some? ==>
               data.value.organizationId == o && data.value.workflowId == w && data.value.triggerKey == t
    ensures var decoded := DecodeJob(JOB_PREFIX + ScheduleIdFor(o, w, t), data);
            if data.Some? && o != "" && w != "" then
              && (decoded.Some? <==> PassesForId(o, w, t))
              && decoded != Some(JobData(o, w, t, "", ""))
              && (':' !in o && o != "scr" ==> decoded == None)
            else decoded == if ColonFree(o, w, t) then Some(JobData(o, w, t, "", "")) else None
  {
    if data.Some? && o != "" && w != "" {
      UnprefixedParses(o, w, t);
      assert HasPrefix(o, PREFIX) ==> o[..4][3] == ':';
    } else {
      NameDecodes(o, w, t);
      var name := JOB_PREFIX + ScheduleIdFor(o, w, t);
      assert DecodeJob(name, data) == DecodeJob(name, None);
    }
  }

  // ----- the plan of a pass -----

  /** An upsert that a pass makes. */
  datatype Upsert = Upsert(id: string, scheduler: Scheduler)

  function UpsertOf(w: ActiveWorkflow, n: Node): Upsert
    requires n.config.Trigger? && n.config.trigger.Schedule?
  {
    var id := ScheduleIdFor(w.organizationId, w.id, n.key);
    var t := n.config.trigger;
    var data := JobData(w.organizationId, w.id, n.key, t.cron, t.timezone);
    Upsert(id, Scheduler(t.cron, t.timezone, JOB_PREFIX + id, data))
  }

  function NodeUpserts(w: ActiveWorkflow, nodes: seq<Node>): (us: seq<Upsert>)
    ensures forall u :: u in us ==> HasPrefix(u.id, PREFIX)
  {
    if nodes == [] then []
    else
      var n := nodes[|nodes| - 1];
      NodeUpserts(w, nodes[..|nodes| - 1])
      + (if n.config.Trigger? && n.config.trigger.Schedule? then [UpsertOf(w, n)] else [])
  }

  /** Workflows whose graph does not parse are passed over. */
  ghost function Plan(workflows: seq<ActiveWorkflow>): (us: seq<Upsert>)
    ensures forall u :: u in us ==> HasPrefix(u.id, PREFIX)
  {
    if workflows == [] then []
    else
      var w := workflows[|workflows| - 1];
      Plan(workflows[..|workflows| - 1]) + (if Accepts(w.graph) then NodeUpserts(w, w.graph.nodes) else [])
  }

  /** The upsert of one schedule trigger of a workflow: its id and job name spell out the organization, the
      workflow and the trigger, and it carries the trigger's pattern and all of these as data. */
  ghost predicate IsUpsertOf(w: ActiveWorkflow, n: Node, u: Upsert) {
    && n.config.Trigger? && n.config.trigger.Schedule?
    && u.id == "scr:" + w.organizationId + ":" + w.id + ":" + n.key
    && u.scheduler.jobName == "schedule:" + u.id
    && u.scheduler.cron == n.config.trigger.cron && u.scheduler.timezone == n.config.trigger.timezone
    && u.scheduler.data.organizationId == w.organizationId && u.scheduler.data.workflowId == w.id
    && u.scheduler.data.triggerKey == n.key
    && u.scheduler.data.cron == n.config.trigger.cron && u.scheduler.data.timezone == n.config.trigger.timezone
  }

  lemma UpsertOfIs(w: ActiveWorkflow, n: Node, u: Upsert)
    requires n.config.Trigger? && n.config.trigger.Schedule?
    ensures IsUpsertOf(w, n, u) <==> u == UpsertOf(w, n)
  {
    var id := UpsertOf(w, n).id;
    assert id == "scr:" + w.organizationId + ":" + w.id + ":" + n.key;
    assert UpsertOf(w, n).scheduler.jobName == "schedule:" + id;
  }

  ghost predicate FromNode(w: ActiveWorkflow, nodes: seq<Node>, u: Upsert) {
    exists n :: n in nodes && IsUpsertOf(w, n, u)
  }

  lemma {:induction false} NodeUpsertsMean(w: ActiveWorkflow, nodes: seq<Node>, u: Upsert)
    ensures u in NodeUpserts(w, nodes) <==> FromNode(w, nodes, u)
  {
    if nodes != [] {
      var init, n := nodes[..|nodes| - 1], nodes[|nodes| - 1];
      NodeUpsertsMean(w, init, u);
      assert forall m :: m in nodes <==> m in init || m == n;
      if n.config.Trigger? && n.config.trigger.Schedule? {
        UpsertOfIs(w, n, u);
      }
    }
  }

  /** Some schedule trigger of an active workflow with an accepted graph calls for this upsert. */
  ghost predicate CalledFor(workflows: seq<ActiveWorkflow>, u: Upsert) {
    exists w :: w in workflows && Accepts(w.graph) && FromNode(w, w.graph.nodes, u)
  }

  /** The plan of a pass holds exactly the upserts that the schedule triggers call for. */
  lemma {:induction false} PlanMeans(workflows: seq<ActiveWorkflow>, u: Upsert)
    ensures u in Plan(workflows) <==> CalledFor(workflows, u)
  {
    if workflows != [] {
      var init, w := workflows[..|workflows| - 1], workflows[|workflows| - 1];
      PlanMeans(init, u);
      NodeUpsertsMean(w, w.graph.nodes, u);
      assert forall v :: v in workflows <==> v in init || v == w;
    }
  }

  ghost predicate CallsForId(workflows: seq<ActiveWorkflow>, id: string) {
    exists u :: CalledFor(workflows, u) && u.id == id
  }

  /** A pass leaves, under each managed key, a scheduler that a trigger calls for, and nothing else managed. */
  ghost predicate AsCalledFor(live: map<string, Scheduler>, workflows: seq<ActiveWorkflow>) {
    forall k :: |k| >= 4 && k[..4] == "scr:" ==>
      && (k in live <==> CallsForId(workflows, k))
      && (k in live ==> CalledFor(workflows, Upsert(k, live[k])))
  }

  lemma {:induction false} UpsertedFrom(live: map<string, Scheduler>, us: seq<Upsert>, k: string)
    requires k in Ids(us)
    ensures k in UpsertAll(live, us) && Upsert(k, UpsertAll(live, us)[k]) in us
  {
    var init, u := us[..|us| - 1], us[|us| - 1];
    assert us == init + [u];
    IdsAppend(init, u);
    if k != u.id {
      UpsertedFrom(live, init, k);
    }
  }

  lemma ReconciledAsCalledFor(live: map<string, Scheduler>, workflows: seq<ActiveWorkflow>)
    ensures AsCalledFor(Reconciled(live, Plan(workflows)), workflows)
  {
    var us, after := Plan(workflows), Reconciled(live, Plan(workflows));
    PassConverges(live, us);
    forall k | |k| >= 4 && k[..4] == "scr:"
      ensures k in after <==> CallsForId(workflows, k)
      ensures k in after ==> CalledFor(workflows, Upsert(k, after[k]))
    {
      assert HasPrefix(k, PREFIX);
      assert k in after <==> k in Managed(after);
      if k in after {
        UpsertedFrom(live, us, k);
        PlanMeans(workflows, Upsert(k, after[k]));
      }
      if CallsForId(workflows, k) {
        var u :| CalledFor(workflows, u) && u.id == k;
        PlanMeans(workflows, u);
      }
    }
  }

  function Ids(us: seq<Upsert>): set<string> {
    set u | u in us :: u.id
  }

  /** The live schedulers after the upserts; a later upsert of an id replaces an earlier one. */
  function UpsertAll(live: map<string, Scheduler>, us: seq<Upsert>): map<string, Scheduler> {
    if us == [] then live
    else UpsertAll(live, us[..|us| - 1])[us[|us| - 1].id := us[|us| - 1].scheduler]
  }

  function Stale(live: map<string, Scheduler>, desired: set<string>): set<string> {
    set k | k in live && HasPrefix(k, PREFIX) && k !in desired
  }

  function Managed(live: map<string, Scheduler>): set<string> {
    set k | k in live && HasPrefix(k, PREFIX)
  }

  /** The schedulers after a pass. */
  function Reconciled(live: map<string, Scheduler>, us: seq<Upsert>): map<string, Scheduler> {
    UpsertAll(live, us) - Stale(live, Ids(us))
  }

  lemma IdsAppend(us: seq<Upsert>, u: Upsert)
    ensures Ids(us + [u]) == Ids(us) + {u.id}
  {
    assert forall v :: v in us + [u] <==> v in us || v == u;
  }

  lemma {:induction false} KeysAfter(live: map<string, Scheduler>, us: seq<Upsert>)
    ensures UpsertAll(live, us).Keys == live.Keys + Ids(us)
  {
    if us != [] {
      var init, u := us[..|us| - 1], us[|us| - 1];
      KeysAfter(live, init);
      assert us == init + [u];
      IdsAppend(init, u);
    }
  }

  lemma {:induction false} OthersKept(live: map<string, Scheduler>, us: seq<Upsert>, k: string)
    requires k in live && k !in Ids(us)
    ensures k in UpsertAll(live, us) && UpsertAll(live, us)[k] == live[k]
  {
    if us != [] {
      var init, u := us[..|us| - 1], us[|us| - 1];
      assert us == init + [u];
      IdsAppend(init, u);
      OthersKept(live, init, k);
    }
  }

  /** What an id is set to does not depend on what was there before. */
  lemma {:induction false} UpsertDecides(live: map<string, Scheduler>, other: map<string, Scheduler>, us: seq<Upsert>,
                                         k: string)
    requires k in Ids(us)
    ensures k in UpsertAll(live, us) && k in UpsertAll(other, us) && UpsertAll(live, us)[k] == UpsertAll(other, us)[k]
  {
    var init, u := us[..|us| - 1], us[|us| - 1];
    assert us == init + [u];
    IdsAppend(init, u);
    if k != u.id {
      UpsertDecides(live, other, init, k);
    }
  }

  ghost predicate AllManaged(us: seq<Upsert>) {
    forall u :: u in us ==> HasPrefix(u.id, PREFIX)
  }

  /** After a pass the managed schedulers are the desired ones and all others are untouched; every managed
      scheduler found was either desired or removed. */
  lemma PassConverges(live: map<string, Scheduler>, us: seq<Upsert>)
    requires AllManaged(us)
    ensures Managed(Reconciled(live, us)) == Ids(us)
    ensures forall k :: !HasPrefix(k, PREFIX) ==>
              (k in Reconciled(live, us) <==> k in live) && (k in live ==> Reconciled(live, us)[k] == live[k])
    ensures |Managed(UpsertAll(live, us))| == |Ids(us)| + |Stale(UpsertAll(live, us), Ids(us))|
  {
    var upserted := UpsertAll(live, us);
    KeysAfter(live, us);
    assert forall k :: k in Ids(us) ==> HasPrefix(k, PREFIX);
    assert Managed(Reconciled(live, us)) == Ids(us);
    forall k | k in live && !HasPrefix(k, PREFIX)
      ensures Reconciled(live, us)[k] == live[k]
    {
      OthersKept(live, us, k);
    }
    assert Managed(upserted) == Ids(us) + Stale(upserted, Ids(us));
    assert Ids(us) !! Stale(upserted, Ids(us));
  }

  lemma UpsertAgain(live: map<string, Scheduler>, us: seq<Upsert>)
    requires AllManaged(us)
    ensures UpsertAll(Reconciled(live, us), us) == Reconciled(live, us)
  {
    var once := Reconciled(live, us);
    KeysAfter(live, us);
    KeysAfter(once, us);
    assert Ids(us) <= once.Keys;
    forall k | k in once
      ensures UpsertAll(once, us)[k] == once[k]
    {
      if k in Ids(us) {
        UpsertDecides(live, once, us, k);
      } else {
        OthersKept(once, us, k);
      }
    }
  }

  /** A second pass with the same workflows removes nothing and changes nothing. */
  lemma SecondPassIdle(live: map<string, Scheduler>, us: seq<Upsert>)
    requires AllManaged(us)
    ensures var once := Reconciled(live, us);
            Stale(UpsertAll(once, us), Ids(us)) == {} && Reconciled(once, us) == once
  {
    var once := Reconciled(live, us);
    UpsertAgain(live, us);
    PassConverges(live, us);
    forall k | k in once && HasPrefix(k, PREFIX)
      ensures k in Ids(us)
    {
      assert k in Managed(once);
    }
    assert Stale(once, Ids(us)) == {};
  }

  lemma PlanStep(workflows: seq<ActiveWorkflow>, i: nat)
    requires i < |workflows|
    ensures Plan(workflows[..i + 1])
         == if Accepts(workflows[i].graph)
            then Plan(workflows[..i]) + NodeUpserts(workflows[i], workflows[i].graph.nodes)
            else Plan(workflows[..i])
  {
    assert workflows[..i + 1][..i] == workflows[..i];
  }

  // ----- the passes as they are written -----

  /** The scheduler set of the queue. */
  class SchedulerSet {
    var live: map<string, Scheduler>

    constructor (schedulers: map<string, Scheduler>)
      ensures live == schedulers
    {
      live := schedulers;
    }

    method UpsertJobScheduler(id: string, scheduler: Scheduler)
      modifies this
      ensures live == old(live)[id := scheduler]
    {
      live := live[id := scheduler];
    }

    method RemoveJobSchedulers(keys: set<string>)
      modifies this
      ensures live == old(live) - keys
    {
      var left := keys;
      while left != {}
        invariant left <= keys && live == old(live) - (keys - left)
        decreases left
      {
        var key :| key in left;
        live := live - {key};
        left := left - {key};
      }
    }

    /** The loop over the nodes of one workflow. */
    method UpsertNodes(w: ActiveWorkflow, ghost done: seq<Upsert>, ghost start: map<string, Scheduler>,
                       desired: set<string>, upserted: nat)
      returns (desired': set<string>, upserted': nat)
      requires live == UpsertAll(start, done) && desired == Ids(done) && upserted == |done|
      modifies this
      ensures live == UpsertAll(start, done + NodeUpserts(w, w.graph.nodes))
      ensures desired' == Ids(done + NodeUpserts(w, w.graph.nodes))
      ensures upserted' == |done + NodeUpserts(w, w.graph.nodes)|
    {
      desired', upserted' := desired, upserted;
      var nodes := w.graph.nodes;
      assert done + NodeUpserts(w, nodes[..0]) == done;
      for i := 0 to |nodes|
        invariant live == UpsertAll(start, done + NodeUpserts(w, nodes[..i]))
        invariant desired' == Ids(done + NodeUpserts(w, nodes[..i]))
        invariant upserted' == |done + NodeUpserts(w, nodes[..i])|
      {
        var node := nodes[i];
        ghost var before := done + NodeUpserts(w, nodes[..i]);
        assert nodes[..i + 1][..i] == nodes[..i];
        if node.config.Trigger? && node.config.trigger.Schedule? {
          var u := UpsertOf(w, node);
          assert done + NodeUpserts(w, nodes[..i + 1]) == before + [u];
          assert (before + [u])[..|before|] == before;
          IdsAppend(before, u);
          desired' := desired' + {u.id};
          UpsertJobScheduler(u.id, u.scheduler);
          upserted' := upserted' + 1;
        } else {
          assert done + NodeUpserts(w, nodes[..i + 1]) == before;
        }
      }
      assert nodes[..|nodes|] == nodes;
    }

    /** The loop over the active workflows. */
    method UpsertWorkflows(workflows: seq<ActiveWorkflow>) returns (desired: set<string>, upserted: nat)
      modifies this
      ensures live == UpsertAll(old(live), Plan(workflows))
      ensures desired == Ids(Plan(workflows)) && upserted == |Plan(workflows)|
    {
      desired, upserted := {}, 0;
      for i := 0 to |workflows|
        invariant live == UpsertAll(old(live), Plan(workflows[..i]))
        invariant desired == Ids(Plan(workflows[..i])) && upserted == |Plan(workflows[..i])|
      {
        var w := workflows[i];
        PlanStep(workflows, i);
        var errors := ValidateGraph(w.graph);
        if errors == [] {
          desired, upserted := UpsertNodes(w, Plan(workflows[..i]), old(live), desired, upserted);
        }
      }
      assert workflows[..|workflows|] == workflows;
    }

    method ReconcileSchedules(workflows: seq<ActiveWorkflow>)
      returns (expected: nat, found: nat, upserted: nat, removed: nat)
      modifies this
      ensures live == Reconciled(old(live), Plan(workflows))
      ensures expected == |Ids(Plan(workflows))| && upserted == |Plan(workflows)|
      ensures removed == |Stale(UpsertAll(old(live), Plan(workflows)), Ids(Plan(workflows)))|
      ensures found == expected + removed
      ensures AsCalledFor(live, workflows)
      ensures Managed(live) == Ids(Plan(workflows))
      ensures forall k :: !HasPrefix(k, PREFIX) ==>
                (k in live <==> k in old(live)) && (k in old(live) ==> live[k] == old(live)[k])
    {
      PassConverges(live, Plan(workflows));
      ReconciledAsCalledFor(live, workflows);
      var desired;
      desired, upserted := UpsertWorkflows(workflows);
      var stale := Stale(live, desired);
      found := |Managed(live)|;
      RemoveJobSchedulers(stale);
      expected, removed := |desired|, |stale|;
    }

    /** Deactivation: removes the schedulers under a workflow's own prefix. */
    method RemoveWorkflowSchedules(organizationId: string, workflowId: string)
      modifies this
      ensures live == old(live) - OwnKeys(old(live).Keys, organizationId, workflowId)
    {
      RemoveJobSchedulers(OwnKeys(live.Keys, organizationId, workflowId));
    }
  }

  function WorkflowPrefix(organizationId: string, workflowId: string): string {
    PREFIX + organizationId + ":" + workflowId + ":"
  }

  function OwnKeys(keys: set<string>, organizationId: string, workflowId: string): set<string> {
    set k | k in keys && HasPrefix(k, WorkflowPrefix(organizationId, workflowId))
  }

  lemma SameStart(o: string, w: string, rest: string, o': string, w': string, t: string)
    requires ':' !in o && ':' !in w && ':' !in o' && ':' !in w'
    requires Unprefixed(o, w, rest) == Unprefixed(o', w', t)
    ensures o == o' && w == w'
  {
    SplitAtColon(o, w + ":" + rest);
    SplitAtColon(w, rest);
    SplitAtColon(o', w' + ":" + t);
    SplitAtColon(w', t);
    var parts := Split(Unprefixed(o, w, rest));
    assert parts[0] == o && parts[0] == o' && parts[1] == w && parts[1] == w';
  }

  lemma PrefixThenRest(o: string, w: string, rest: string)
    ensures WorkflowPrefix(o, w) + rest == PREFIX + Unprefixed(o, w, rest)
  {
  }

  lemma DropPrefix(a: string, b: string)
    requires PREFIX + a == PREFIX + b
    ensures a == b
  {
    assert (PREFIX + a)[|PREFIX|..] == a && (PREFIX + b)[|PREFIX|..] == b;
  }

  /** With colon-free components a workflow's prefix matches its own schedules and no other's. */
  lemma PrefixMatchesOwn(o: string, w: string, o': string, w': string, t: string)
    requires ':' !in o && ':' !in w && ':' !in o' && ':' !in w'
    ensures HasPrefix(ScheduleIdFor(o', w', t), WorkflowPrefix(o, w)) <==> o == o' && w == w'
  {
    var id, prefix := ScheduleIdFor(o', w', t), WorkflowPrefix(o, w);
    if HasPrefix(id, prefix) {
      var rest := id[|prefix|..];
      PrefixThenRest(o, w, rest);
      assert prefix + rest == id;
      DropPrefix(Unprefixed(o, w, rest), Unprefixed(o', w', t));
      SameStart(o, w, rest, o', w', t);
    }
    if o == o' && w == w' {
      PrefixThenRest(o, w, t);
      assert id == prefix + t;
    }
  }
}
