/** applyTransform and evaluateConditions of lib/dag/runner.ts. */
module Transforms {
  import opened Documents
  import opened Graphs
  import opened Paths
  import opened Results

  // ----- applying a transform -----

  function SourceValue(l: Lookup): Json {
    if l.Found? then l.value else Null
  }

  function TransformStep(m: Mapping, root: Json, output: Json): Result<Json, PathError> {
    match LookupPath(root, m.from)
    case Err(e) => Err(e)
    case Ok(l) => WritePath(output, m.to, SourceValue(l))
  }

  function TransformFrom(mappings: seq<Mapping>, root: Json, output: Json): Result<Json, PathError> {
    if mappings == [] then Ok(output)
    else
      match TransformStep(mappings[0], root, output)
      case Err(e) => Err(e)
      case Ok(next) => TransformFrom(mappings[1..], root, next)
  }

  method ApplyTransform(mappings: seq<Mapping>, root: Json) returns (result: Result<Json, PathError>)
    ensures result == TransformFrom(mappings, root, Obj(map[]))
  {
    var output := Obj(map[]);
    assert mappings[0..] == mappings;
    for i := 0 to |mappings|
      invariant TransformFrom(mappings, root, Obj(map[])) == TransformFrom(mappings[i..], root, output)
    {
      assert mappings[i..][0] == mappings[i] && mappings[i..][1..] == mappings[i + 1..];
      var lookup := GetPath(root, mappings[i].from);
      if lookup.Err? {
        return Err(lookup.error);
      }
      var written := SetPath(output, mappings[i].to, if lookup.value.Found? then lookup.value.value else Null);
      if written.Err? {
        return Err(written.error);
      }
      output := written.value;
    }
    return Ok(output);
  }

  predicate Readable(m: Mapping, root: Json) {
    LookupPath(root, m.from).Ok? && TokensOf(m.to).Ok?
  }

  predicate AllReadable(mappings: seq<Mapping>, root: Json) {
    forall i :: 0 <= i < |mappings| ==> Readable(mappings[i], root)
  }

  function Source(m: Mapping, root: Json): Json
    requires Readable(m, root)
  {
    SourceValue(LookupPath(root, m.from).value)
  }

  function Target(m: Mapping): seq<Token>
    requires TokensOf(m.to).Ok?
  {
    TokensOf(m.to).value
  }

  lemma AllReadableCons(mappings: seq<Mapping>, root: Json)
    requires mappings != []
    ensures AllReadable(mappings, root) <==> Readable(mappings[0], root) && AllReadable(mappings[1..], root)
  {
    var rest := mappings[1..];
    assert forall i :: 0 < i < |mappings| ==> mappings[i] == rest[i - 1];
  }

  lemma StepThrows(m: Mapping, root: Json, output: Json)
    ensures TransformStep(m, root, output).Ok? <==> Readable(m, root)
  {
  }

  /** A transform throws exactly when one of its mappings has a path that cannot be used. */
  lemma {:induction false} TransformThrows(mappings: seq<Mapping>, root: Json, output: Json)
    ensures TransformFrom(mappings, root, output).Ok? <==> AllReadable(mappings, root)
  {
    if mappings != [] {
      AllReadableCons(mappings, root);
      StepThrows(mappings[0], root, output);
      if TransformStep(mappings[0], root, output).Ok? {
        TransformThrows(mappings[1..], root, TransformStep(mappings[0], root, output).value);
      }
    }
  }

  /** What is wrong with a mapping: its source cannot be parsed or is empty, or its target cannot be parsed. */
  ghost predicate Spoils(m: Mapping, error: PathError) {
    if TokensOf(m.from).Err? then error == TokensOf(m.from).error
    else if TokensOf(m.from).value == [] && m.from != "$" then error == EmptyPath(m.from)
    else TokensOf(m.to).Err? && error == TokensOf(m.to).error
  }

  /** The exception of a transform is that of its first spoilt mapping. */
  lemma {:induction false} FirstSpoilt(mappings: seq<Mapping>, root: Json, output: Json)
    requires TransformFrom(mappings, root, output).Err?
    ensures exists i :: 0 <= i < |mappings| && AllReadable(mappings[..i], root)
                        && Spoils(mappings[i], TransformFrom(mappings, root, output).error)
  {
    assert AllReadable(mappings[..0], root);
    var step := TransformStep(mappings[0], root, output);
    if step.Err? {
      assert Spoils(mappings[0], step.error);
    } else {
      var rest := mappings[1..];
      FirstSpoilt(rest, root, step.value);
      var i :| 0 <= i < |rest| && AllReadable(rest[..i], root)
               && Spoils(rest[i], TransformFrom(rest, root, step.value).error);
      StepThrows(mappings[0], root, output);
      assert mappings[..i + 1][1..] == rest[..i] && mappings[..i + 1][0] == mappings[0];
      AllReadableCons(mappings[..i + 1], root);
      assert mappings[i + 1] == rest[i];
    }
  }

  // ----- when every mapping is delivered -----

  /** The writes of a transform, on parsed targets. */
  function SetAll(j: Json, targets: seq<seq<Token>>, values: seq<Json>): Json
    requires |targets| == |values|
  {
    if targets == [] then j
    else Set(SetAll(j, targets[..|targets| - 1], values[..|values| - 1]), targets[|targets| - 1], values[|values| - 1])
  }

  lemma {:induction false} SetAllAppend(j: Json, targets: seq<seq<Token>>, values: seq<Json>, t: seq<Token>, v: Json)
    requires |targets| == |values|
    ensures SetAll(j, targets + [t], values + [v]) == Set(SetAll(j, targets, values), t, v)
  {
    assert (targets + [t])[..|targets|] == targets && (values + [v])[..|values|] == values;
  }

  lemma {:induction false} SetAllSplit(j: Json, ts: seq<seq<Token>>, vs: seq<Json>, us: seq<seq<Token>>, ws: seq<Json>)
    requires |ts| == |vs| && |us| == |ws|
    ensures SetAll(j, ts + us, vs + ws) == SetAll(SetAll(j, ts, vs), us, ws)
  {
    if us == [] {
      assert ts + us == ts && vs + ws == vs;
    } else {
      var us', ws' := us[..|us| - 1], ws[..|ws| - 1];
      SetAllSplit(j, ts, vs, us', ws');
      assert ts + us == (ts + us') + [us[|us| - 1]] && vs + ws == (vs + ws') + [ws[|ws| - 1]];
      SetAllAppend(j, ts + us', vs + ws', us[|us| - 1], ws[|ws| - 1]);
    }
  }

  function Targets(mappings: seq<Mapping>): (r: seq<seq<Token>>)
    requires forall i :: 0 <= i < |mappings| ==> TokensOf(mappings[i].to).Ok?
    ensures |r| == |mappings| && forall i :: 0 <= i < |r| ==> r[i] == Target(mappings[i])
  {
    seq(|mappings|, i requires 0 <= i < |mappings| => Target(mappings[i]))
  }

  function SourcesOf(mappings: seq<Mapping>, root: Json): (r: seq<Json>)
    requires AllReadable(mappings, root)
    ensures |r| == |mappings| && forall i :: 0 <= i < |r| ==> r[i] == Source(mappings[i], root)
  {
    seq(|mappings|, i requires 0 <= i < |mappings| => Source(mappings[i], root))
  }

  lemma SetAllFirst(j: Json, t: seq<Token>, v: Json, ts: seq<seq<Token>>, vs: seq<Json>)
    requires |ts| == |vs|
    ensures SetAll(j, [t] + ts, [v] + vs) == SetAll(Set(j, t, v), ts, vs)
  {
    SetAllSplit(j, [t], [v], ts, vs);
    SetAllAppend(j, [], [], t, v);
    assert [] + [t] == [t] && [] + [v] == [v];
  }

  lemma ReadableRest(mappings: seq<Mapping>, root: Json)
    requires AllReadable(mappings, root) && mappings != []
    ensures Readable(mappings[0], root) && AllReadable(mappings[1..], root)
  {
    forall i | 0 <= i < |mappings| - 1
      ensures Readable(mappings[1..][i], root)
    {
      assert Readable(mappings[i + 1], root);
    }
  }

  lemma SourcesRest(mappings: seq<Mapping>, root: Json)
    requires AllReadable(mappings, root) && mappings != [] && AllReadable(mappings[1..], root)
    ensures SourcesOf(mappings, root) == [Source(mappings[0], root)] + SourcesOf(mappings[1..], root)
  {
    var whole, rest := SourcesOf(mappings, root), SourcesOf(mappings[1..], root);
    forall i | 0 < i < |mappings|
      ensures whole[i] == rest[i - 1]
    {
      assert mappings[1..][i - 1] == mappings[i];
    }
  }

  lemma TargetsRest(mappings: seq<Mapping>, root: Json)
    requires AllReadable(mappings, root) && mappings != [] && AllReadable(mappings[1..], root)
    ensures Targets(mappings) == [Target(mappings[0])] + Targets(mappings[1..])
  {
    var whole, rest := Targets(mappings), Targets(mappings[1..]);
    forall i | 0 < i < |mappings|
      ensures whole[i] == rest[i - 1]
    {
      assert mappings[1..][i - 1] == mappings[i];
    }
  }

  lemma {:induction false} TransformIsSetAll(mappings: seq<Mapping>, root: Json, output: Json)
    requires AllReadable(mappings, root)
    ensures TransformFrom(mappings, root, output)
         == Ok(SetAll(output, Targets(mappings), SourcesOf(mappings, root)))
  {
    if mappings != [] {
      var rest := mappings[1..];
      ReadableRest(mappings, root);
      SourcesRest(mappings, root);
      TargetsRest(mappings, root);
      var t, v := Target(mappings[0]), Source(mappings[0], root);
      TransformIsSetAll(rest, root, Set(output, t, v));
      SetAllFirst(output, t, v, Targets(rest), SourcesOf(rest, root));
    }
  }

  /** Two targets lead apart inside one container. */
  ghost predicate Coexist(a: seq<Token>, b: seq<Token>) {
    exists k: nat :: DivergeAt(a, b, k) && (a[k].Name? <==> b[k].Name?)
  }

  predicate StartsWithName(a: seq<Token>) {
    a != [] && a[0].Name?
  }

  ghost predicate Compatible(targets: seq<seq<Token>>) {
    && (forall i :: 0 <= i < |targets| ==> StartsWithName(targets[i]) && InRange(targets[i]))
    && forall i, j :: 0 <= i < j < |targets| ==> Coexist(targets[i], targets[j])
  }

  ghost predicate Delivered(targets: seq<seq<Token>>, values: seq<Json>)
    requires |targets| == |values|
  {
    forall i :: 0 <= i < |targets| ==> Get(SetAll(Obj(map[]), targets, values), targets[i]) == Found(values[i])
  }

  lemma {:induction false} FitsKept(j: Json, a: seq<Token>, v: Json, b: seq<Token>, k: nat)
    requires Fits(j, a) && Fits(j, b) && DivergeAt(a, b, k) && (a[k].Name? <==> b[k].Name?)
    ensures Fits(Set(j, a, v), b)
    decreases k
  {
    var c := Next(Child(j, a[0]), a[1..]);
    if k == 0 {
      PutElsewhere(j, a[0], b[0], Set(c, a[1..], v));
    } else {
      assert a[0] == a[..k][0] == b[..k][0] == b[0];
      assert a[1..][..k - 1] == a[..k][1..] && b[1..][..k - 1] == b[..k][1..];
      assert a[1].Name? <==> b[1].Name? by {
        if k > 1 {
          assert a[1] == a[..k][1] == b[..k][1] == b[1];
        }
      }
      SameStart(Child(j, a[0]), a[1..], b[1..]);
      FitsKept(c, a[1..], v, b[1..], k - 1);
      SetIsContainer(c, a[1..], v);
    }
  }

  lemma SameStart(c: Json, a: seq<Token>, b: seq<Token>)
    requires a != [] && b != [] && (a[0].Name? <==> b[0].Name?)
    ensures Next(c, a) == Next(c, b)
  {
  }

  lemma CoexistSymmetric(a: seq<Token>, b: seq<Token>)
    requires Coexist(a, b)
    ensures Coexist(b, a)
  {
    var k: nat :| DivergeAt(a, b, k) && (a[k].Name? <==> b[k].Name?);
    assert DivergeAt(b, a, k);
  }

  /** After the writes, a further target that coexists with all of them still fits. */
  lemma {:induction false} LaterTargetFits(targets: seq<seq<Token>>, values: seq<Json>, b: seq<Token>)
    requires |targets| == |values| && Compatible(targets) && StartsWithName(b) && InRange(b)
    requires forall i :: 0 <= i < |targets| ==> Coexist(targets[i], b)
    ensures Fits(SetAll(Obj(map[]), targets, values), b)
  {
    if targets == [] {
      FreshFits(b);
    } else {
      var n := |targets| - 1;
      var ts, vs := targets[..n], values[..n];
      LaterTargetFits(ts, vs, b);
      LaterTargetFits(ts, vs, targets[n]);
      var k: nat :| DivergeAt(targets[n], b, k) && (targets[n][k].Name? <==> b[k].Name?);
      FitsKept(SetAll(Obj(map[]), ts, vs), targets[n], values[n], b, k);
    }
  }

  /** A further write to a coexisting target takes nothing away. */
  lemma StaysDelivered(j: Json, a: seq<Token>, v: Json, b: seq<Token>, w: Json)
    requires Coexist(b, a) && Get(j, b) == Found(w)
    ensures Get(Set(j, a, v), b) == Found(w)
  {
    CoexistSymmetric(b, a);
    var k: nat :| DivergeAt(a, b, k);
    Frame(j, a, v, b, k);
  }

  lemma CompatiblePrefix(targets: seq<seq<Token>>, n: nat)
    requires Compatible(targets) && n <= |targets|
    ensures Compatible(targets[..n])
  {
  }

  lemma {:induction false} CompatibleDelivers(targets: seq<seq<Token>>, values: seq<Json>)
    requires |targets| == |values| && Compatible(targets)
    ensures Delivered(targets, values)
  {
    if targets != [] {
      var n := |targets| - 1;
      var ts, vs := targets[..n], values[..n];
      CompatiblePrefix(targets, n);
      CompatibleDelivers(ts, vs);
      LaterTargetFits(ts, vs, targets[n]);
      var before := SetAll(Obj(map[]), ts, vs);
      GetSet(before, targets[n], values[n]);
      forall i | 0 <= i < n
        ensures Get(Set(before, targets[n], values[n]), targets[i]) == Found(values[i])
      {
        assert Get(before, ts[i]) == Found(vs[i]);
        StaysDelivered(before, targets[n], values[n], targets[i], values[i]);
      }
    }
  }

  // ----- and only then -----

  /** Two different numbers found at two paths: the paths part inside one container. */
  lemma {:induction false} NumbersCoexist(j: Json, a: seq<Token>, b: seq<Token>, x: real, y: real)
    requires Get(j, a) == Found(Num(x)) && Get(j, b) == Found(Num(y)) && x != y
    ensures Coexist(a, b)
  {
    assert a != [] && b != [];
    if a[0] == b[0] {
      NumbersCoexist(Child(j, a[0]), a[1..], b[1..], x, y);
      var k: nat :| DivergeAt(a[1..], b[1..], k) && (a[1..][k].Name? <==> b[1..][k].Name?);
      assert a[..k + 1] == [a[0]] + a[1..][..k] && b[..k + 1] == [b[0]] + b[1..][..k];
      assert DivergeAt(a, b, k + 1);
    } else {
      assert DivergeAt(a, b, 0);
    }
  }

  /** No path found in the document uses an index beyond the array limit. */
  ghost predicate Small(j: Json) {
    forall us :: Get(j, us).Found? ==> InRange(us)
  }

  lemma SmallChild(j: Json, t: Token)
    requires Small(j) && Holds(j, t)
    ensures Small(Child(j, t))
    ensures InRange([t])
  {
    var c := Child(j, t);
    assert [t][1..] == [];
    if Has(j, t) {
      assert Get(j, [t]).Found?;
      forall us | Get(c, us).Found?
        ensures InRange(us)
      {
        assert ([t] + us)[1..] == us;
        assert Get(j, [t] + us).Found?;
        assert forall u :: u in us ==> u in [t] + us;
      }
    } else {
      forall us | Get(c, us).Found?
        ensures InRange(us)
      {
        assert us == [];
      }
    }
  }

  lemma {:induction false} SmallKept(j: Json, ts: seq<Token>, x: real, us: seq<Token>)
    requires Small(j) && Get(Set(j, ts, Num(x)), us).Found?
    ensures InRange(us)
    decreases |ts|
  {
    if ts != [] && us != [] && Holds(j, ts[0]) {
      var rest := ts[1..];
      var c := Next(Child(j, ts[0]), rest);
      SmallChild(j, ts[0]);
      assert us == [us[0]] + us[1..];
      if us[0] == ts[0] {
        if rest != [] && Nullish(Child(j, ts[0])) {
          SmallFresh(rest[0]);
        }
        SmallKept(c, rest, x, us[1..]);
        assert [ts[0]][0] in [ts[0]];
      } else {
        PutElsewhere(j, ts[0], us[0], Set(c, rest, Num(x)));
        if !Has(j, us[0]) {
          assert [ts[0]][0] in [ts[0]];
          assert us[1..] == [];
        }
      }
    }
  }

  lemma SmallFresh(t: Token)
    ensures Small(Fresh(t))
  {
    forall us | Get(Fresh(t), us).Found?
      ensures InRange(us)
    {
      assert us == [];
    }
  }

  lemma {:induction false} SmallAll(targets: seq<seq<Token>>, values: seq<Json>)
    requires |targets| == |values| && forall i :: 0 <= i < |values| ==> values[i].Num?
    ensures Small(SetAll(Obj(map[]), targets, values))
  {
    var out := SetAll(Obj(map[]), targets, values);
    if targets == [] {
      SmallFresh(Name("a"));
    } else {
      var n := |targets| - 1;
      SmallAll(targets[..n], values[..n]);
      forall us | Get(out, us).Found?
        ensures InRange(us)
      {
        SmallKept(SetAll(Obj(map[]), targets[..n], values[..n]), targets[n], values[n].n, us);
      }
    }
  }

  lemma {:induction false} StaysObject(targets: seq<seq<Token>>, values: seq<Json>)
    requires |targets| == |values| && forall i :: 0 <= i < |targets| ==> targets[i] != []
    ensures SetAll(Obj(map[]), targets, values).Obj?
  {
    if targets != [] {
      StaysObject(targets[..|targets| - 1], values[..|targets| - 1]);
    }
  }

  /** The targets of a transform receive all their values, whatever these are, if and only if every target
      starts with a name, uses no index beyond the array limit, and parts from every other target inside
      one container; or the one target is the whole document. */
  lemma DeliversIffCompatible(targets: seq<seq<Token>>)
    ensures (forall values: seq<Json> :: |values| == |targets| ==> Delivered(targets, values))
       <==> Compatible(targets) || targets == [[]]
  {
    if Compatible(targets) || targets == [[]] {
      forall values: seq<Json> | |values| == |targets|
        ensures Delivered(targets, values)
      {
        if Compatible(targets) {
          CompatibleDelivers(targets, values);
        }
      }
    }
    var values := seq(|targets|, i requires 0 <= i < |targets| => Num(i as real));
    if Delivered(targets, values) {
      NumbersReveal(targets, values);
    }
  }

  lemma NumbersReveal(targets: seq<seq<Token>>, values: seq<Json>)
    requires |values| == |targets| && Delivered(targets, values)
    requires forall i :: 0 <= i < |values| ==> values[i] == Num(i as real)
    ensures Compatible(targets) || targets == [[]]
  {
    var out := SetAll(Obj(map[]), targets, values);
    forall i, j | 0 <= i < j < |targets|
      ensures Coexist(targets[i], targets[j])
    {
      assert Get(out, targets[i]) == Found(values[i]) && Get(out, targets[j]) == Found(values[j]);
      NumbersCoexist(out, targets[i], targets[j], i as real, j as real);
    }
    if i :| 0 <= i < |targets| && targets[i] == [] {
      OnlyWhole(targets, i);
    } else {
      SmallAll(targets, values);
      StaysObject(targets, values);
      forall i | 0 <= i < |targets|
        ensures StartsWithName(targets[i]) && InRange(targets[i])
      {
        assert Get(out, targets[i]) == Found(values[i]);
      }
    }
  }

  /** The whole document coexists with no other target. */
  lemma OnlyWhole(targets: seq<seq<Token>>, i: nat)
    requires i < |targets| && targets[i] == []
    requires forall i, j :: 0 <= i < j < |targets| ==> Coexist(targets[i], targets[j])
    ensures targets == [[]]
  {
    NothingCoexists(targets[0]);
    NothingCoexists(targets[|targets| - 1]);
  }

  lemma NothingCoexists(a: seq<Token>)
    ensures !Coexist([], a) && !Coexist(a, [])
  {
  }

  /** What is found at a mapping's source stands at its target, or null if nothing is found there. */
  ghost predicate Delivers(m: Mapping, root: Json, output: Json) {
    match (TokensOf(m.from), TokensOf(m.to))
    case (Ok(from), Ok(to)) =>
      (match Get(root, from)
       case Found(v) => Get(output, to) == Found(v)
       case NotFound => Get(output, to) == Found(Null))
    case _ => false
  }

  /** A transform over compatible targets delivers every mapping's source value, or null for a missing one; so
      does one whose only target is the whole output. */
  lemma TransformDelivers(mappings: seq<Mapping>, root: Json)
    requires AllReadable(mappings, root)
    requires Compatible(Targets(mappings)) || Targets(mappings) == [[]]
    ensures var result := TransformFrom(mappings, root, Obj(map[]));
            result.Ok? && forall m :: m in mappings ==> Delivers(m, root, result.value)
  {
    var targets, values := Targets(mappings), SourcesOf(mappings, root);
    TransformIsSetAll(mappings, root, Obj(map[]));
    DeliversIffCompatible(targets);
    var output := SetAll(Obj(map[]), targets, values);
    assert Delivered(targets, values);
    forall i | 0 <= i < |mappings|
      ensures Delivers(mappings[i], root, output)
    {
      assert Get(output, targets[i]) == Found(values[i]);
      SourceDelivered(mappings[i], root, output);
    }
  }

  lemma SourceDelivered(m: Mapping, root: Json, output: Json)
    requires Readable(m, root) && Get(output, Target(m)) == Found(Source(m, root))
    ensures Delivers(m, root, output)
  {
  }

  // ----- evaluating a filter -----

  /** The comparison of one condition. `exists` and `not_exists` look only at whether the path was found;
      `compare` stands for the other operators, which depend on JavaScript's own equality, ordering,
      string and regular-expression rules. */
  function Judge(c: Condition, l: Lookup, compare: (Operator, Json, Json) -> bool): bool {
    match c.operator
    case Exists => l.Found?
    case NotExists => l.NotFound?
    case _ => compare(c.operator, if l.Found? then l.value else Undefined, c.value)
  }

  /** `all` stops at the first condition that fails and `any` at the first that holds, so a bad path
      further on is never looked at. */
  function Evaluate(mode: Mode, conditions: seq<Condition>, root: Json, compare: (Operator, Json, Json) -> bool)
    : Result<bool, PathError>
  {
    if conditions == [] then Ok(mode.All?)
    else
      match LookupPath(root, conditions[0].path)
      case Err(e) => Err(e)
      case Ok(l) =>
        if Judge(conditions[0], l, compare) == mode.All? then Evaluate(mode, conditions[1..], root, compare)
        else Ok(!mode.All?)
  }

  /** The first i conditions can be read and none of them decides. */
  predicate Undecided(all: bool, conditions: seq<Condition>, root: Json, compare: (Operator, Json, Json) -> bool,
                      i: nat)
    requires i <= |conditions|
  {
    forall j :: 0 <= j < i ==> Verdict(conditions[j], root, compare) == Ok(all)
  }

  /** What one condition comes to: `exists` and `not_exists` look only at whether the path is found, the other
      operators compare what is found there, or undefined, with the condition's own value. */
  function Verdict(c: Condition, root: Json, compare: (Operator, Json, Json) -> bool): Result<bool, PathError> {
    match LookupPath(root, c.path)
    case Err(e) => Err(e)
    case Ok(Found(v)) =>
      Ok(match c.operator
         case Exists => true
         case NotExists => false
         case op => compare(op, v, c.value))
    case Ok(NotFound) =>
      Ok(match c.operator
         case Exists => false
         case NotExists => true
         case op => compare(op, Undefined, c.value))
  }

  predicate AllHold(conditions: seq<Condition>, root: Json, compare: (Operator, Json, Json) -> bool) {
    Undecided(true, conditions, root, compare, |conditions|)
  }

  /** A condition decides against `all`, and those before it leave it open. */
  predicate Decides(all: bool, conditions: seq<Condition>, root: Json, compare: (Operator, Json, Json) -> bool, i: nat)
    requires i < |conditions|
  {
    Undecided(all, conditions, root, compare, i) && Verdict(conditions[i], root, compare) == Ok(!all)
  }

  predicate SomeDecides(all: bool, conditions: seq<Condition>, root: Json, compare: (Operator, Json, Json) -> bool) {
    exists i :: 0 <= i < |conditions| && Decides(all, conditions, root, compare, i)
  }

  /** A condition whose path is unusable is reached before anything is decided. */
  predicate Unreadable(all: bool, conditions: seq<Condition>, root: Json, compare: (Operator, Json, Json) -> bool) {
    exists i :: 0 <= i < |conditions| && Undecided(all, conditions, root, compare, i)
                && Verdict(conditions[i], root, compare).Err?
  }

  /** The first condition that is not decided cannot be read, with this error. */
  ghost predicate FailsOn(all: bool, conditions: seq<Condition>, root: Json, compare: (Operator, Json, Json) -> bool,
                          error: PathError) {
    exists i :: 0 <= i < |conditions| && Undecided(all, conditions, root, compare, i)
                && Verdict(conditions[i], root, compare) == Err(error)
  }

  /** Where the first condition stands that decides or cannot be read. */
  function Settling(all: bool, conditions: seq<Condition>, root: Json, compare: (Operator, Json, Json) -> bool)
    : (i: nat)
    ensures i <= |conditions| && (i < |conditions| ==> Verdict(conditions[i], root, compare) != Ok(all))
  {
    if conditions == [] || Verdict(conditions[0], root, compare) != Ok(all) then 0
    else 1 + Settling(all, conditions[1..], root, compare)
  }

  lemma {:induction false} SettlingUndecided(all: bool, conditions: seq<Condition>, root: Json,
                                             compare: (Operator, Json, Json) -> bool)
    ensures Undecided(all, conditions, root, compare, Settling(all, conditions, root, compare))
  {
    if conditions != [] && Verdict(conditions[0], root, compare) == Ok(all) {
      var rest := conditions[1..];
      SettlingUndecided(all, rest, root, compare);
      forall j | 0 <= j < 1 + Settling(all, rest, root, compare)
        ensures Verdict(conditions[j], root, compare) == Ok(all)
      {
        assert j > 0 ==> conditions[j] == rest[j - 1];
      }
    }
  }

  lemma {:induction false} EvaluateSettles(mode: Mode, conditions: seq<Condition>, root: Json,
                                           compare: (Operator, Json, Json) -> bool)
    ensures var i := Settling(mode.All?, conditions, root, compare);
            Evaluate(mode, conditions, root, compare)
            == if i == |conditions| then Ok(mode.All?) else Verdict(conditions[i], root, compare)
  {
    if conditions != [] {
      EvaluateFirst(mode, conditions, root, compare);
      if Verdict(conditions[0], root, compare) == Ok(mode.All?) {
        EvaluateSettles(mode, conditions[1..], root, compare);
      }
    }
  }

  lemma EvaluateFirst(mode: Mode, conditions: seq<Condition>, root: Json, compare: (Operator, Json, Json) -> bool)
    requires conditions != []
    ensures var first := Verdict(conditions[0], root, compare);
            Evaluate(mode, conditions, root, compare)
            == if first == Ok(mode.All?) then Evaluate(mode, conditions[1..], root, compare) else first
  {
  }

  lemma SettledDecides(all: bool, conditions: seq<Condition>, root: Json, compare: (Operator, Json, Json) -> bool,
                       i: nat)
    requires i <= |conditions| && Undecided(all, conditions, root, compare, i)
    requires i < |conditions| ==> Verdict(conditions[i], root, compare) != Ok(all)
    ensures SomeDecides(all, conditions, root, compare)
       <==> i < |conditions| && Verdict(conditions[i], root, compare) == Ok(!all)
  {
    if j :| 0 <= j < |conditions| && Decides(all, conditions, root, compare, j) {
      assert j == i;
    }
    if i < |conditions| && Verdict(conditions[i], root, compare) == Ok(!all) {
      assert Decides(all, conditions, root, compare, i);
    }
  }

  lemma SettledUnreadable(all: bool, conditions: seq<Condition>, root: Json, compare: (Operator, Json, Json) -> bool,
                          i: nat)
    requires i <= |conditions| && Undecided(all, conditions, root, compare, i)
    requires i < |conditions| ==> Verdict(conditions[i], root, compare) != Ok(all)
    ensures Unreadable(all, conditions, root, compare)
       <==> i < |conditions| && Verdict(conditions[i], root, compare).Err?
  {
    if j :| 0 <= j < |conditions| && Undecided(all, conditions, root, compare, j)
            && Verdict(conditions[j], root, compare).Err? {
      assert j == i;
    }
  }

  lemma SettledWhole(all: bool, conditions: seq<Condition>, root: Json, compare: (Operator, Json, Json) -> bool, i: nat)
    requires i <= |conditions| && Undecided(all, conditions, root, compare, i)
    requires i < |conditions| ==> Verdict(conditions[i], root, compare) != Ok(all)
    ensures Undecided(all, conditions, root, compare, |conditions|) <==> i == |conditions|
  {
  }

  /** The first condition that decides or cannot be read settles the matter; if there is none, the filter's
      own mode does. */
  lemma EvaluateMeans(mode: Mode, conditions: seq<Condition>, root: Json, compare: (Operator, Json, Json) -> bool)
    ensures Evaluate(mode, conditions, root, compare) == Ok(mode.All?)
       <==> Undecided(mode.All?, conditions, root, compare, |conditions|)
    ensures Evaluate(mode, conditions, root, compare) == Ok(!mode.All?)
       <==> SomeDecides(mode.All?, conditions, root, compare)
    ensures Evaluate(mode, conditions, root, compare).Err? <==> Unreadable(mode.All?, conditions, root, compare)
    ensures Evaluate(mode, conditions, root, compare).Err? ==>
              FailsOn(mode.All?, conditions, root, compare, Evaluate(mode, conditions, root, compare).error)
  {
    var all := mode.All?;
    var i := Settling(all, conditions, root, compare);
    SettlingUndecided(all, conditions, root, compare);
    SettledDecides(all, conditions, root, compare, i);
    SettledUnreadable(all, conditions, root, compare, i);
    SettledWhole(all, conditions, root, compare, i);
    EvaluateSettles(mode, conditions, root, compare);
  }
}
