/** getPath and setPath of lib/path.ts on parsed paths, and the laws that relate them. */
module Documents {
  import opened Paths
  import opened Results

  // ----- reading -----

  /** Whether the value is a container that a token of this kind can address. An array takes the indices
      it already has and every index that an array can have. */
  predicate Holds(j: Json, t: Token) {
    match t
    case Name(_) => j.Obj?
    case Index(n) => j.Arr? && (n < |j.elems| || n < MAX_LENGTH)
  }

  /** The member under a token; an absent one reads as undefined. */
  function Child(j: Json, t: Token): Json
    requires Holds(j, t)
  {
    match t
    case Name(s) => if s in j.fields then j.fields[s] else Undefined
    case Index(n) => if n < |j.elems| then j.elems[n] else Undefined
  }

  predicate Has(j: Json, t: Token) {
    match t
    case Name(s) => j.Obj? && s in j.fields
    case Index(n) => j.Arr? && n < |j.elems|
  }

  predicate Nullish(j: Json) {
    j.Undefined? || j.Null?
  }

  function Get(j: Json, ts: seq<Token>): Lookup {
    if ts == [] then Found(j)
    else if Has(j, ts[0]) then Get(Child(j, ts[0]), ts[1..])
    else NotFound
  }

  function LookupPath(root: Json, path: string): Result<Lookup, PathError> {
    match TokensOf(path)
    case Err(e) => Err(e)
    case Ok(ts) => if ts == [] && path != "$" then Err(EmptyPath(path)) else Ok(Get(root, ts))
  }

  /** `below` is the member of `above` under a token. */
  ghost predicate IsMember(above: Json, t: Token, below: Json) {
    match t
    case Name(s) => above.Obj? && s in above.fields && above.fields[s] == below
    case Index(n) => above.Arr? && n < |above.elems| && above.elems[n] == below
  }

  /** A descent from one value to another, member by member. */
  ghost predicate Descent(values: seq<Json>, ts: seq<Token>) {
    |values| == |ts| + 1 && forall i :: 0 <= i < |ts| ==> IsMember(values[i], ts[i], values[i + 1])
  }

  lemma DescentMore(above: Json, values: seq<Json>, t: Token, ts: seq<Token>)
    requires Descent(values, ts) && IsMember(above, t, values[0])
    ensures Descent([above] + values, [t] + ts)
  {
    forall i | 0 <= i < |ts| + 1
      ensures IsMember(([above] + values)[i], ([t] + ts)[i], ([above] + values)[i + 1])
    {
      assert i > 0 ==> ([above] + values)[i] == values[i - 1] && ([t] + ts)[i] == ts[i - 1];
    }
  }

  lemma DescentRest(values: seq<Json>, ts: seq<Token>)
    requires Descent(values, ts) && ts != []
    ensures IsMember(values[0], ts[0], values[1]) && Descent(values[1..], ts[1..])
  {
    forall i | 0 <= i < |ts| - 1
      ensures IsMember(values[1..][i], ts[1..][i], values[1..][i + 1])
    {
      assert IsMember(values[i + 1], ts[i + 1], values[i + 2]);
    }
  }

  lemma {:induction false} DescentFound(values: seq<Json>, ts: seq<Token>)
    requires Descent(values, ts)
    ensures Get(values[0], ts) == Found(values[|ts|])
  {
    if ts != [] {
      DescentRest(values, ts);
      DescentFound(values[1..], ts[1..]);
    }
  }

  lemma {:induction false} FoundDescent(j: Json, ts: seq<Token>) returns (values: seq<Json>)
    requires Get(j, ts).Found?
    ensures Descent(values, ts) && values[0] == j && values[|ts|] == Get(j, ts).value
    decreases |ts|
  {
    if ts == [] {
      return [j];
    }
    var rest := FoundDescent(Child(j, ts[0]), ts[1..]);
    DescentMore(j, rest, ts[0], ts[1..]);
    assert [ts[0]] + ts[1..] == ts;
    values := [j] + rest;
  }

  /** A value is found exactly at the end of a descent along the path: an object's own member for a name, an
      array's element for an index. */
  lemma GetMeans(j: Json, ts: seq<Token>, v: Json)
    ensures Get(j, ts) == Found(v)
       <==> exists values :: Descent(values, ts) && values[0] == j && values[|ts|] == v
  {
    if Get(j, ts) == Found(v) {
      var values := FoundDescent(j, ts);
    }
    if values :| Descent(values, ts) && values[0] == j && values[|ts|] == v {
      DescentFound(values, ts);
    }
  }

  method GetPath(root: Json, path: string) returns (result: Result<Lookup, PathError>)
    ensures result == LookupPath(root, path)
    ensures result.Err? <==> TokensOf(path).Err? || (TokensOf(path).value == [] && path != "$")
    ensures TokensOf(path).Err? ==> result == Err(TokensOf(path).error)
    ensures TokensOf(path) == Ok([]) && path != "$" ==> result == Err(EmptyPath(path))
    ensures result.Ok? ==> result.value == Get(root, TokensOf(path).value)
  {
    var parsed := Tokenize(path);
    if parsed.Err? {
      return Err(parsed.error);
    }
    var tokens := parsed.value;
    if tokens == [] {
      if path == "$" {
        return Ok(Found(root));
      }
      return Err(EmptyPath(path));
    }
    var cursor := root;
    for i := 0 to |tokens|
      invariant Get(root, tokens) == Get(cursor, tokens[i..])
    {
      var token := tokens[i];
      assert tokens[i..][0] == token && tokens[i..][1..] == tokens[i + 1..];
      if Nullish(cursor) {
        return Ok(NotFound);
      }
      match token {
        case Index(n) =>
          if !cursor.Arr? || n >= |cursor.elems| {
            return Ok(NotFound);
          }
          cursor := cursor.elems[n];
        case Name(s) =>
          if !cursor.Obj? || s !in cursor.fields {
            return Ok(NotFound);
          }
          cursor := cursor.fields[s];
      }
    }
    return Ok(Found(cursor));
  }

  // ----- writing -----

  /** An array write past the end leaves holes, which read as undefined. */
  function Put(j: Json, t: Token, v: Json): (r: Json)
    requires Holds(j, t)
    ensures Holds(r, t) && Has(r, t) && Child(r, t) == v
    ensures r.Arr? <==> j.Arr?
  {
    match t
    case Name(s) => Obj(j.fields[s := v])
    case Index(n) =>
      if n < |j.elems| then Arr(j.elems[n := v])
      else Arr(j.elems + seq(n - |j.elems|, _ => Undefined) + [v])
  }

  /** The empty container that suits a token. */
  function Fresh(t: Token): Json {
    if t.Index? then Arr([]) else Obj(map[])
  }

  /** The member a write continues into: a nullish one is replaced by a fresh container. */
  function Next(c: Json, rest: seq<Token>): Json {
    if rest != [] && Nullish(c) then Fresh(rest[0]) else c
  }

  /** The document after a write. Where a container does not suit its token the write goes to a detached
      container and the document stays as it is. */
  function Set(j: Json, ts: seq<Token>, v: Json): Json
    decreases |ts|
  {
    if ts == [] then v
    else if !Holds(j, ts[0]) then j
    else Put(j, ts[0], Set(Next(Child(j, ts[0]), ts[1..]), ts[1..], v))
  }

  function WritePath(root: Json, path: string, v: Json): Result<Json, PathError> {
    match TokensOf(path)
    case Err(e) => Err(e)
    case Ok(ts) => Ok(Set(root, ts, v))
  }

  /** Replaces the value at a place that exists: what a write through a reference to it does. */
  function ReplaceAt(j: Json, place: seq<Token>, v: Json): Json
    requires Get(j, place).Found? && Reaches(j, place)
  {
    if place == [] then v else Put(j, place[0], ReplaceAt(Child(j, place[0]), place[1..], v))
  }

  predicate Reaches(j: Json, place: seq<Token>) {
    place == [] || (Holds(j, place[0]) && Has(j, place[0]) && Reaches(Child(j, place[0]), place[1..]))
  }

  lemma {:induction false} ReachesFound(j: Json, place: seq<Token>)
    requires Reaches(j, place)
    ensures Get(j, place).Found?
  {
    if place != [] {
      ReachesFound(Child(j, place[0]), place[1..]);
    }
  }

  /** Writing a member through a reference is writing one step further down. */
  lemma {:induction false} ReplaceDeeper(j: Json, place: seq<Token>, t: Token, v: Json)
    requires Reaches(j, place) && Get(j, place).Found? && Holds(Get(j, place).value, t)
    ensures var at := Get(j, place).value;
            var stored := ReplaceAt(j, place, Put(at, t, v));
            && Reaches(stored, place + [t]) && Get(stored, place + [t]) == Found(v)
  {
    if place == [] {
      assert (place + [t])[1..] == [];
    } else {
      ReplaceDeeper(Child(j, place[0]), place[1..], t, v);
      assert (place + [t])[1..] == place[1..] + [t];
    }
  }

  lemma {:induction false} ReplaceTwice(j: Json, place: seq<Token>, t: Token, v: Json, w: Json)
    requires Reaches(j, place) && Get(j, place).Found? && Holds(Get(j, place).value, t)
    ensures var stored := ReplaceAt(j, place, Put(Get(j, place).value, t, v));
            && Reaches(stored, place + [t]) && Get(stored, place + [t]).Found?
            && ReplaceAt(stored, place + [t], w) == ReplaceAt(j, place, Put(Get(j, place).value, t, w))
  {
    ReplaceDeeper(j, place, t, v);
    if place == [] {
      assert (place + [t])[1..] == [];
      PutTwice(j, t, v, w);
    } else {
      assert (place + [t])[1..] == place[1..] + [t];
      ReplaceTwice(Child(j, place[0]), place[1..], t, v, w);
      var inner := ReplaceAt(Child(j, place[0]), place[1..], Put(Get(j, place).value, t, v));
      PutTwice(j, place[0], inner, ReplaceAt(inner, place[1..] + [t], w));
    }
  }

  lemma PutTwice(j: Json, t: Token, v: Json, w: Json)
    requires Holds(j, t)
    ensures Put(Put(j, t, v), t, w) == Put(j, t, w)
  {
    if t.Name? {
      assert j.fields[t.name := v][t.name := w] == j.fields[t.name := w];
    }
  }

  lemma PutSame(j: Json, t: Token)
    requires Holds(j, t) && Has(j, t)
    ensures Put(j, t, Child(j, t)) == j
  {
    if t.Name? {
      assert j.fields[t.name := j.fields[t.name]] == j.fields;
    } else {
      assert j.elems[t.index := j.elems[t.index]] == j.elems;
    }
  }

  // ----- the laws -----

  /** Where the write finds a suitable container at every step. */
  predicate Fits(j: Json, ts: seq<Token>)
    decreases |ts|
  {
    ts == [] || (Holds(j, ts[0]) && Fits(Next(Child(j, ts[0]), ts[1..]), ts[1..]))
  }

  /** No index is too large for an array. */
  predicate InRange(ts: seq<Token>) {
    forall t :: t in ts && t.Index? ==> t.index < MAX_LENGTH
  }

  lemma {:induction false} FreshFits(ts: seq<Token>)
    requires ts != [] && InRange(ts)
    ensures Fits(Fresh(ts[0]), ts)
  {
    var rest := ts[1..];
    assert ts[0] in ts;
    if rest != [] {
      assert forall t :: t in rest ==> t in ts;
      FreshFits(rest);
    }
  }

  // ----- what it takes to fit, in plain terms -----

  ghost predicate Empty(v: Json) {
    v == Null || v == Undefined
  }

  /** What is on the way lets a write pass with this token: an object takes any name, an array its own indices
      and those below 2^32 - 1; nothing at all, or below the root a null, gives way to a new container. */
  ghost predicate Passes(l: Lookup, t: Token, below: bool) {
    if l.NotFound? || (below && Empty(l.value)) then t.Index? ==> t.index < 4294967295
    else
      match t
      case Name(_) => l.value.Obj?
      case Index(n) => l.value.Arr? && (n < |l.value.elems| || n < 4294967295)
  }

  ghost predicate PassesAll(j: Json, ts: seq<Token>, below: bool) {
    forall n :: 0 <= n < |ts| ==> Passes(Get(j, ts[..n]), ts[n], below || n > 0)
  }

  lemma {:induction false} FreshFitsOnly(ts: seq<Token>)
    requires ts != [] && Fits(Fresh(ts[0]), ts)
    ensures InRange(ts)
  {
    if |ts| > 1 {
      FreshFitsOnly(ts[1..]);
    }
  }

  lemma EmptyPasses(j: Json, ts: seq<Token>)
    requires Empty(j)
    ensures PassesAll(j, ts, true) <==> InRange(ts)
  {
    forall n | 0 <= n < |ts|
      ensures Passes(Get(j, ts[..n]), ts[n], true) <==> (ts[n].Index? ==> ts[n].index < MAX_LENGTH)
    {
      assert n > 0 ==> !Has(j, ts[..n][0]);
    }
    if PassesAll(j, ts, true) {
      forall t | t in ts && t.Index?
        ensures t.index < MAX_LENGTH
      {
        var n :| 0 <= n < |ts| && ts[n] == t;
        assert Passes(Get(j, ts[..n]), ts[n], true || n > 0);
      }
    }
  }

  lemma PassesDeeper(j: Json, ts: seq<Token>, n: nat)
    requires 0 < n < |ts| && Holds(j, ts[0])
    ensures Passes(Get(j, ts[..n]), ts[n], true) <==> Passes(Get(Child(j, ts[0]), ts[1..][..n - 1]), ts[n], true)
  {
    assert ts[..n][0] == ts[0] && ts[..n][1..] == ts[1..][..n - 1];
  }

  lemma PassesRest(j: Json, ts: seq<Token>, below: bool)
    requires ts != [] && Holds(j, ts[0]) && !(below && Empty(j))
    ensures PassesAll(j, ts, below) <==> PassesAll(Child(j, ts[0]), ts[1..], true)
  {
    var c, rest := Child(j, ts[0]), ts[1..];
    assert ts[..0] == [];
    if PassesAll(c, rest, true) {
      forall n | 0 <= n < |ts|
        ensures Passes(Get(j, ts[..n]), ts[n], below || n > 0)
      {
        if n > 0 {
          assert Passes(Get(c, rest[..n - 1]), rest[n - 1], true || n - 1 > 0);
          PassesDeeper(j, ts, n);
        }
      }
    }
    if PassesAll(j, ts, below) {
      forall n | 0 <= n < |rest|
        ensures Passes(Get(c, rest[..n]), rest[n], true || n > 0)
      {
        assert Passes(Get(j, ts[..n + 1]), ts[n + 1], below || n + 1 > 0);
        PassesDeeper(j, ts, n + 1);
      }
    }
  }

  lemma {:induction false} FitsBelow(j: Json, ts: seq<Token>, below: bool)
    ensures Fits(if below then Next(j, ts) else j, ts) <==> PassesAll(j, ts, below)
    decreases |ts|
  {
    if ts != [] {
      assert ts[..0] == [];
      if below && Empty(j) {
        EmptyPasses(j, ts);
        if InRange(ts) {
          FreshFits(ts);
        } else if Fits(Fresh(ts[0]), ts) {
          FreshFitsOnly(ts);
        }
      } else if Holds(j, ts[0]) {
        PassesRest(j, ts, below);
        FitsBelow(Child(j, ts[0]), ts[1..], true);
      } else {
        assert !Passes(Get(j, ts[..0]), ts[0], below || 0 > 0);
      }
    }
  }

  /** A write fits exactly if everything on the way lets it pass. */
  lemma FitsMeans(j: Json, ts: seq<Token>)
    ensures Fits(j, ts) <==> PassesAll(j, ts, false)
  {
    FitsBelow(j, ts, false);
  }

  /** What was written can be read back exactly when the shape fits. */
  lemma {:induction false} GetSet(j: Json, ts: seq<Token>, v: Json)
    ensures Get(Set(j, ts, v), ts) == if Fits(j, ts) then Found(v) else NotFound
    decreases |ts|
  {
    if ts != [] && Holds(j, ts[0]) {
      GetSet(Next(Child(j, ts[0]), ts[1..]), ts[1..], v);
    }
  }

  /** The write runs into an existing value that is not nullish and cannot take the next token. */
  predicate Blocked(j: Json, ts: seq<Token>) {
    && ts != []
    && (!Holds(j, ts[0])
        || (Has(j, ts[0]) && ts[1..] != [] && !Nullish(Child(j, ts[0])) && Blocked(Child(j, ts[0]), ts[1..])))
  }

  /** A write leaves the document as it was exactly if it runs into such a value, or if the value is there
      already. */
  lemma {:induction false} SetLost(j: Json, ts: seq<Token>, v: Json)
    ensures Set(j, ts, v) == j <==> Blocked(j, ts) || Get(j, ts) == Found(v)
    decreases |ts|
  {
    if ts != [] && Holds(j, ts[0]) {
      var rest := ts[1..];
      var c := Child(j, ts[0]);
      var below := Set(Next(c, rest), rest, v);
      SetLost(Next(c, rest), rest, v);
      if Has(j, ts[0]) && below == c {
        PutSame(j, ts[0]);
      }
      assert Put(j, ts[0], below) == j ==> Has(j, ts[0]) && below == c;
      if rest != [] && Nullish(c) {
        SetIsContainer(Next(c, rest), rest, v);
      }
    }
  }

  /** A write that is blocked does not fit. One that is neither has an index too large for an array: it makes
      containers on the way, and then goes past the array. */
  lemma {:induction false} FitsOrBlocked(j: Json, ts: seq<Token>)
    ensures Blocked(j, ts) ==> !Fits(j, ts)
    ensures InRange(ts) ==> (Fits(j, ts) <==> !Blocked(j, ts))
    decreases |ts|
  {
    if ts != [] && Holds(j, ts[0]) {
      var c, rest := Child(j, ts[0]), ts[1..];
      assert forall t :: t in rest ==> t in ts;
      if rest != [] && Nullish(c) {
        if InRange(rest) {
          FreshFits(rest);
        }
      } else {
        FitsOrBlocked(c, rest);
      }
    }
  }

  lemma {:induction false} SetIsContainer(j: Json, ts: seq<Token>, v: Json)
    requires ts != [] && !Nullish(j)
    ensures !Nullish(Set(j, ts, v))
  {
  }

  /** The last of two writes to the same place counts, whether or not they fit. */
  lemma {:induction false} SetSet(j: Json, ts: seq<Token>, v: Json, w: Json)
    ensures Set(Set(j, ts, v), ts, w) == Set(j, ts, w)
    decreases |ts|
  {
    if ts != [] && Holds(j, ts[0]) {
      var rest := ts[1..];
      var c := Next(Child(j, ts[0]), rest);
      SetSet(c, rest, v, w);
      if rest != [] {
        SetIsContainer(c, rest, v);
      }
      PutTwice(j, ts[0], Set(c, rest, v), Set(c, rest, w));
    }
  }

  /** Writing back what was read changes nothing. */
  lemma {:induction false} SetGot(j: Json, ts: seq<Token>)
    requires Get(j, ts).Found?
    ensures Set(j, ts, Get(j, ts).value) == j
  {
    if ts != [] {
      var c, rest := Child(j, ts[0]), ts[1..];
      if rest != [] {
        assert Has(c, rest[0]);
      }
      SetGot(c, rest);
      PutSame(j, ts[0]);
    }
  }

  /** The paths agree up to position k and differ there. */
  ghost predicate DivergeAt(a: seq<Token>, b: seq<Token>, k: nat) {
    k < |a| && k < |b| && a[..k] == b[..k] && a[k] != b[k]
  }

  /** The one thing a write can do to a diverging path: create the array hole that it ends in. */
  ghost predicate Padded(before: Lookup, after: Lookup, a: seq<Token>, b: seq<Token>, k: nat)
    requires k < |a| && k < |b|
  {
    && before == NotFound && after == Found(Undefined)
    && |b| == k + 1 && a[k].Index? && b[k].Index? && b[k].index < a[k].index
  }

  lemma PutElsewhere(j: Json, t: Token, u: Token, v: Json)
    requires Holds(j, t) && t != u
    ensures Holds(j, u) <==> Holds(Put(j, t, v), u)
    ensures Has(j, u) ==> Has(Put(j, t, v), u)
    ensures Holds(j, u) ==> Child(Put(j, t, v), u) == Child(j, u)
    ensures Has(Put(j, t, v), u) && !Has(j, u) ==> t.Index? && u.Index? && u.index < t.index
  {
  }

  /** A write leaves every diverging path as it was, except for the padding of an array. */
  lemma {:induction false} Frame(j: Json, a: seq<Token>, v: Json, b: seq<Token>, k: nat)
    requires DivergeAt(a, b, k)
    ensures Get(Set(j, a, v), b) == Get(j, b) || Padded(Get(j, b), Get(Set(j, a, v), b), a, b, k)
    decreases k
  {
    if Holds(j, a[0]) {
      var c := Next(Child(j, a[0]), a[1..]);
      if k == 0 {
        PutElsewhere(j, a[0], b[0], Set(c, a[1..], v));
      } else {
        assert a[0] == a[..k][0] == b[..k][0] == b[0];
        assert a[1..][..k - 1] == a[..k][1..] && b[1..][..k - 1] == b[..k][1..];
        Frame(c, a[1..], v, b[1..], k - 1);
        assert Get(Fresh(a[1]), b[1..]) == NotFound;
      }
    }
  }

  // ----- setPath as it is written -----

  /** One descent of the cursor. `place` is where the cursor points inside `output`; a detached cursor
      points nowhere, and what happens to it is not seen. */
  method Descend(output: Json, attached: bool, place: seq<Token>, cursor: Json, token: Token, next: Token)
    returns (output': Json, attached': bool, cursor': Json)
    requires attached ==> Reaches(output, place) && Get(output, place) == Found(cursor)
    ensures !attached ==> output' == output && !attached'
    ensures attached && !Holds(cursor, token) ==> output' == output && !attached'
    ensures attached && Holds(cursor, token) ==>
              && attached' && cursor' == Next(Child(cursor, token), [next])
              && output' == ReplaceAt(output, place, Put(cursor, token, cursor'))
  {
    output', attached', cursor' := output, attached, cursor;
    if !Suits(cursor, token) {
      cursor', attached' := Fresh(token), false;
    }
    if token.Index? && !Holds(cursor', token) {
      // Not an element: the container hangs off the array where no path can see it.
      return output', false, Fresh(next);
    }
    var existing := Child(cursor', token);
    var child := if Nullish(existing) then Fresh(next) else existing;
    if attached' {
      output' := ReplaceAt(output, place, Put(cursor', token, child));
    }
    cursor' := child;
  }

  /** The kind check alone, without regard to the size of an index. */
  predicate Suits(j: Json, t: Token) {
    if t.Index? then j.Arr? else j.Obj?
  }

  lemma {:induction false} ReplaceSame(j: Json, place: seq<Token>)
    requires Reaches(j, place) && Get(j, place).Found?
    ensures ReplaceAt(j, place, Get(j, place).value) == j
  {
    if place != [] {
      ReplaceSame(Child(j, place[0]), place[1..]);
      PutSame(j, place[0]);
    }
  }

  /** What remains of the write, seen from the cursor. */
  ghost predicate OnTrack(root: Json, tokens: seq<Token>, value: Json, output: Json, attached: bool, cursor: Json,
                          i: nat)
    requires i < |tokens|
  {
    if attached then
      && Reaches(output, tokens[..i]) && Get(output, tokens[..i]) == Found(cursor)
      && ReplaceAt(output, tokens[..i], Set(cursor, tokens[i..], value)) == Set(root, tokens, value)
    else output == Set(root, tokens, value)
  }

  lemma DescendOnTrack(root: Json, tokens: seq<Token>, value: Json, output: Json, cursor: Json, i: nat)
    requires i < |tokens| - 1 && OnTrack(root, tokens, value, output, true, cursor, i)
    ensures !Holds(cursor, tokens[i]) ==> output == Set(root, tokens, value)
    ensures Holds(cursor, tokens[i]) ==>
              var child := Next(Child(cursor, tokens[i]), [tokens[i + 1]]);
              var output' := ReplaceAt(output, tokens[..i], Put(cursor, tokens[i], child));
              OnTrack(root, tokens, value, output', true, child, i + 1)
  {
    var place, t, rest := tokens[..i], tokens[i], tokens[i + 1..];
    assert tokens[i..][0] == t && tokens[i..][1..] == rest;
    if Holds(cursor, t) {
      var child := Next(Child(cursor, t), [tokens[i + 1]]);
      assert child == Next(Child(cursor, t), rest);
      ReplaceDeeper(output, place, t, child);
      ReplaceTwice(output, place, t, child, Set(child, rest, value));
      assert tokens[..i + 1] == place + [t];
    } else {
      ReplaceSame(output, place);
    }
  }

  method SetPath(root: Json, path: string, value: Json) returns (result: Result<Json, PathError>)
    ensures result == WritePath(root, path, value)
    ensures TokensOf(path).Err? ==> result == Err(TokensOf(path).error)
    ensures TokensOf(path).Ok? ==> result == Ok(Set(root, TokensOf(path).value, value))
  {
    var parsed := Tokenize(path);
    if parsed.Err? {
      return Err(parsed.error);
    }
    var tokens := parsed.value;
    if tokens == [] {
      return Ok(value);
    }
    var output, attached, cursor := root, true, root;
    assert tokens[0..] == tokens;
    for i := 0 to |tokens| - 1
      invariant OnTrack(root, tokens, value, output, attached, cursor, i)
    {
      if attached {
        DescendOnTrack(root, tokens, value, output, cursor, i);
      }
      output, attached, cursor := Descend(output, attached, tokens[..i], cursor, tokens[i], tokens[i + 1]);
    }
    var last := tokens[|tokens| - 1];
    ghost var place := tokens[..|tokens| - 1];
    assert tokens[|tokens| - 1..] == [last];
    assert [last][1..] == [];
    assert Set(cursor, [last], value) == if Holds(cursor, last) then Put(cursor, last, value) else cursor;
    if attached {
      if Holds(cursor, last) {
        output := ReplaceAt(output, tokens[..|tokens| - 1], Put(cursor, last, value));
      } else {
        ReplaceSame(output, place);
      }
    }
    return Ok(output);
  }
}
