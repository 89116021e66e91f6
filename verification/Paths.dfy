/** JSON values and the path language of lib/path.ts: parsing, reading and writing. */
module Paths {
  import opened Results

  /** A JavaScript value as the engine sees it. `Undefined` also stands for a hole in an array. */
  datatype Json =
    | Undefined
    | Null
    | Bool(b: bool)
    | Num(n: real)
    | Str(s: string)
    | Arr(elems: seq<Json>)
    | Obj(fields: map<string, Json>)

  datatype Token = Name(name: string) | Index(index: nat)

  datatype PathError = InvalidIndex(path: string) | EmptyPath(path: string)

  datatype Lookup = Found(value: Json) | NotFound

  /** The length no JavaScript array exceeds: 2^32 - 1. A larger index is not an element. */
  const MAX_LENGTH: nat := 0xFFFF_FFFF

  // ----- numerals -----

  predicate IsDigit(c: char) {
    '0' <= c <= '9'
  }

  predicate AllDigits(s: string) {
    s != "" && forall i :: 0 <= i < |s| ==> IsDigit(s[i])
  }

  function NumberOf(s: string): nat
    requires forall i :: 0 <= i < |s| ==> IsDigit(s[i])
  {
    if s == "" then 0
    else
      assert IsDigit(s[|s| - 1]);
      NumberOf(s[..|s| - 1]) * 10 + (s[|s| - 1] as int - '0' as int)
  }

  function Digits(n: nat): (s: string)
    ensures AllDigits(s) && NumberOf(s) == n
  {
    var last := ('0' as int + n % 10) as char;
    if n < 10 then
      assert NumberOf([last][..0]) == 0;
      [last]
    else
      var s := Digits(n / 10) + [last];
      assert s[..|s| - 1] == Digits(n / 10);
      s
  }

  // ----- parsing -----

  /** Drops a leading `$` or `$.`, then one leading dot. */
  function Normalized(path: string): string {
    var p := if path == "" || path[0] != '$' then path
             else if |path| > 1 && path[1] == '.' then path[2..]
             else path[1..];
    if p != "" && p[0] == '.' then p[1..] else p
  }

  function TokenOf(current: string): Token {
    if AllDigits(current) then Index(NumberOf(current)) else Name(current)
  }

  function Flush(tokens: seq<Token>, current: string): seq<Token> {
    if current == "" then tokens else tokens + [TokenOf(current)]
  }

  /** The characters before the first closing bracket. */
  function BracketBody(s: string): (body: string)
    ensures |body| <= |s| && body == s[..|body|]
    ensures |body| < |s| ==> s[|body|] == ']'
    ensures ']' !in body
  {
    if s == "" || s[0] == ']' then "" else [s[0]] + BracketBody(s[1..])
  }

  /** What follows a bracket body: the bracket itself and one dot are dropped. */
  function AfterBracket(s: string): (rest: string)
    ensures |rest| <= |s|
  {
    var t := if s == "" then "" else s[1..];
    if t != "" && t[0] == '.' then t[1..] else t
  }

  /** What scanning `s` yields when `tokens` are done and `current` is pending; `None` is a bad index. */
  function Scan(s: string, current: string, tokens: seq<Token>): Option<seq<Token>>
    decreases |s|
  {
    if s == "" then Some(Flush(tokens, current))
    else if s[0] == '.' then Scan(s[1..], "", Flush(tokens, current))
    else if s[0] == '[' then
      var body := BracketBody(s[1..]);
      if !AllDigits(body) then None
      else Scan(AfterBracket(s[1 + |body|..]), "", Flush(tokens, current) + [Index(NumberOf(body))])
    else Scan(s[1..], current + [s[0]], tokens)
  }

  function TokensOf(path: string): Result<seq<Token>, PathError> {
    match Scan(Normalized(path), "", [])
    case Some(tokens) => Ok(tokens)
    case None => Err(InvalidIndex(path))
  }

  lemma {:induction false} BracketBodyAt(s: string, k: nat)
    requires k <= |s| && ']' !in s[..k] && (k < |s| ==> s[k] == ']')
    ensures BracketBody(s) == s[..k]
  {
    if k > 0 {
      assert s[..k][0] == s[0];
      assert s[..k] == [s[0]] + s[1..][..k - 1];
      BracketBodyAt(s[1..], k - 1);
    }
  }

  /** The inner loop: collects characters up to a closing bracket or the end. */
  method ReadBracket(normalized: string, start: nat) returns (body: string, i: nat)
    requires start <= |normalized|
    ensures start <= i <= |normalized| && body == normalized[start..i] == BracketBody(normalized[start..])
  {
    body, i := "", start;
    while i < |normalized| && normalized[i] != ']'
      invariant start <= i <= |normalized|
      invariant body == normalized[start..i] && ']' !in body
    {
      body := body + [normalized[i]];
      i := i + 1;
    }
    assert normalized[start..][..i - start] == body;
    BracketBodyAt(normalized[start..], i - start);
  }

  /** The rest of the input; the scanner's index may run one past the end. */
  function From(s: string, i: nat): string {
    if i <= |s| then s[i..] else ""
  }

  /** The index after a bracket whose body ends at j: past the bracket and past one dot. */
  function PastBracket(s: string, j: nat): nat {
    if j + 1 < |s| && s[j + 1] == '.' then j + 2 else j + 1
  }

  lemma AfterBracketAt(s: string, j: nat)
    requires j <= |s|
    ensures AfterBracket(s[j..]) == From(s, PastBracket(s, j))
  {
    if j < |s| {
      assert s[j..][1..] == s[j + 1..];
      if j + 1 < |s| {
        assert s[j + 1..][1..] == s[j + 2..];
      }
    }
  }

  /** What is left to scan when the index, the pending segment and the tokens have these values. */
  function Pending(s: string, i: nat, current: string, tokens: seq<Token>): Option<seq<Token>> {
    Scan(From(s, i), current, tokens)
  }

  lemma PendingStep(s: string, i: nat, current: string, tokens: seq<Token>)
    requires i < |s| && s[i] != '['
    ensures Pending(s, i, current, tokens)
         == if s[i] == '.' then Pending(s, i + 1, "", Flush(tokens, current))
            else Pending(s, i + 1, current + [s[i]], tokens)
  {
    assert s[i..][1..] == s[i + 1..];
  }

  lemma PendingBracket(s: string, i: nat, j: nat, current: string, tokens: seq<Token>)
    requires i < |s| && s[i] == '[' && i + 1 <= j <= |s| && s[i + 1..j] == BracketBody(s[i + 1..])
    ensures Pending(s, i, current, tokens)
         == if !AllDigits(s[i + 1..j]) then None
            else Pending(s, PastBracket(s, j), "", Flush(tokens, current) + [Index(NumberOf(s[i + 1..j]))])
  {
    assert s[i..][1..] == s[i + 1..];
    assert s[i..][1 + (j - i - 1)..] == s[j..];
    AfterBracketAt(s, j);
  }

  lemma PendingEnd(s: string, i: nat, current: string, tokens: seq<Token>)
    requires i >= |s|
    ensures Pending(s, i, current, tokens) == Some(Flush(tokens, current))
  {
  }

  method SkipBracket(normalized: string, j: nat) returns (i: nat)
    ensures i == PastBracket(normalized, j)
  {
    i := j + 1;
    if i < |normalized| && normalized[i] == '.' {
      i := i + 1;
    }
  }

  /** The turn of the loop that meets an opening bracket. */
  method ScanBracket(normalized: string, i: nat, current: string, tokens: seq<Token>)
    returns (ok: bool, i': nat, tokens': seq<Token>)
    requires i < |normalized| && normalized[i] == '['
    ensures i < i'
    ensures Pending(normalized, i, current, tokens) == if ok then Pending(normalized, i', "", tokens') else None
  {
    var body, j := ReadBracket(normalized, i + 1);
    ok := AllDigits(body);
    i' := SkipBracket(normalized, j);
    tokens' := Flush(tokens, current) + (if ok then [Index(NumberOf(body))] else []);
    PendingBracket(normalized, i, j, current, tokens);
  }

  /** One turn of the scanner's loop. */
  method ScanOne(normalized: string, i: nat, current: string, tokens: seq<Token>)
    returns (ok: bool, i': nat, current': string, tokens': seq<Token>)
    requires i < |normalized|
    ensures i < i'
    ensures Pending(normalized, i, current, tokens) == if ok then Pending(normalized, i', current', tokens') else None
  {
    var ch := normalized[i];
    if ch == '[' {
      current' := "";
      ok, i', tokens' := ScanBracket(normalized, i, current, tokens);
      return;
    }
    ok, i' := true, i + 1;
    PendingStep(normalized, i, current, tokens);
    if ch == '.' {
      tokens', current' := Flush(tokens, current), "";
    } else {
      tokens', current' := tokens, current + [ch];
    }
  }

  /** The scanner as it is written: one index, a pending segment and the tokens so far. */
  method Tokenize(path: string) returns (result: Result<seq<Token>, PathError>)
    ensures result == TokensOf(path)
  {
    var normalized := Normalized(path);
    var tokens: seq<Token> := [];
    var current := "";
    var i := 0;
    assert From(normalized, 0) == normalized;
    while i < |normalized|
      invariant Pending(normalized, 0, "", []) == Pending(normalized, i, current, tokens)
      decreases |normalized| - i
    {
      var ok;
      ok, i, current, tokens := ScanOne(normalized, i, current, tokens);
      if !ok {
        return Err(InvalidIndex(path));
      }
    }
    PendingEnd(normalized, i, current, tokens);
    return Ok(Flush(tokens, current));
  }

  // ----- printing -----

  /** The segments a path can have: a name is not empty, not a numeral, and free of dots and brackets. */
  predicate CanonicalToken(t: Token) {
    t.Name? ==> t.name != "" && !AllDigits(t.name) && '.' !in t.name && '[' !in t.name
  }

  predicate Canonical(tokens: seq<Token>) {
    forall t :: t in tokens ==> CanonicalToken(t)
  }

  function PrintSteps(tokens: seq<Token>): string {
    if tokens == [] then ""
    else
      (match tokens[0]
       case Name(s) => "." + s
       case Index(n) => "[" + Digits(n) + "]")
      + PrintSteps(tokens[1..])
  }

  /** The usual spelling of a path: `$.a[0].b`. */
  function Print(tokens: seq<Token>): string {
    "$" + PrintSteps(tokens)
  }

  lemma {:induction false} ScanIsCanonical(s: string, current: string, tokens: seq<Token>)
    requires Canonical(tokens) && '.' !in current && '[' !in current
    requires Scan(s, current, tokens).Some?
    ensures Canonical(Scan(s, current, tokens).value)
    decreases |s|
  {
    assert Canonical(Flush(tokens, current));
    if s == "" {
    } else if s[0] == '.' {
      ScanIsCanonical(s[1..], "", Flush(tokens, current));
    } else if s[0] == '[' {
      var body := BracketBody(s[1..]);
      ScanIsCanonical(AfterBracket(s[1 + |body|..]), "", Flush(tokens, current) + [Index(NumberOf(body))]);
    } else {
      ScanIsCanonical(s[1..], current + [s[0]], tokens);
    }
  }

  lemma {:induction false} ScanName(name: string, rest: string, current: string, tokens: seq<Token>)
    requires '.' !in name && '[' !in name
    ensures Scan(name + rest, current, tokens) == Scan(rest, current + name, tokens)
    decreases |name|
  {
    if name == "" {
      assert name + rest == rest && current + name == current;
    } else {
      assert (name + rest)[0] == name[0] && (name + rest)[1..] == name[1..] + rest;
      assert forall i :: 0 <= i < |name[1..]| ==> name[1..][i] == name[i + 1];
      ScanName(name[1..], rest, current + [name[0]], tokens);
      assert current + [name[0]] + name[1..] == current + name;
    }
  }

  lemma ScanAfterDot(rest: string, tokens: seq<Token>)
    requires rest != "" && rest[0] == '.'
    ensures Scan(rest[1..], "", tokens) == Scan(rest, "", tokens)
  {
  }

  lemma ScanIndex(n: nat, rest: string, current: string, tokens: seq<Token>)
    ensures Scan("[" + Digits(n) + "]" + rest, current, tokens) == Scan(rest, "", Flush(tokens, current) + [Index(n)])
  {
    var s := "[" + Digits(n) + "]" + rest;
    assert s[1..] == Digits(n) + "]" + rest;
    assert s[1..][..|Digits(n)|] == Digits(n);
    BracketBodyAt(s[1..], |Digits(n)|);
    assert s[1 + |Digits(n)|..] == "]" + rest;
    assert ("]" + rest)[1..] == rest;
    if rest != "" && rest[0] == '.' {
      ScanAfterDot(rest, Flush(tokens, current) + [Index(n)]);
    }
  }

  lemma ScanDotName(name: string, rest: string, current: string, tokens: seq<Token>)
    requires '.' !in name && '[' !in name
    ensures Scan("." + name + rest, current, tokens) == Scan(rest, name, Flush(tokens, current))
  {
    var s := "." + name + rest;
    assert s[0] == '.' && s[1..] == name + rest;
    ScanName(name, rest, "", Flush(tokens, current));
    assert "" + name == name;
  }

  lemma {:induction false} ScanSteps(steps: seq<Token>, current: string, tokens: seq<Token>)
    requires Canonical(steps)
    ensures Scan(PrintSteps(steps), current, tokens) == Some(Flush(tokens, current) + steps)
    decreases |steps|
  {
    if steps == [] {
      assert Flush(tokens, current) + steps == Flush(tokens, current);
    } else {
      var rest := PrintSteps(steps[1..]);
      var flushed := Flush(tokens, current);
      assert CanonicalToken(steps[0]);
      assert flushed + steps == flushed + [steps[0]] + steps[1..];
      match steps[0]
      case Name(s) =>
        ScanDotName(s, rest, current, tokens);
        ScanSteps(steps[1..], s, flushed);
      case Index(n) =>
        assert PrintSteps(steps) == "[" + Digits(n) + "]" + rest;
        ScanIndex(n, rest, current, tokens);
        ScanSteps(steps[1..], "", flushed + [steps[0]]);
    }
  }

  /** Every token list that parsing returns is canonical. */
  lemma ParsedIsCanonical(path: string)
    requires TokensOf(path).Ok?
    ensures Canonical(TokensOf(path).value)
  {
    ScanIsCanonical(Normalized(path), "", []);
  }

  /** Parsing inverts printing exactly on the canonical lists. */
  lemma ParsePrint(tokens: seq<Token>)
    ensures TokensOf(Print(tokens)) == Ok(tokens) <==> Canonical(tokens)
  {
    if Canonical(tokens) {
      var steps := PrintSteps(tokens);
      assert Print(tokens)[1..] == steps;
      ScanSteps(tokens, "", []);
      assert [] + tokens == tokens;
      if tokens != [] && tokens[0].Name? {
        assert CanonicalToken(tokens[0]);
        assert steps == "." + tokens[0].name + PrintSteps(tokens[1..]);
        assert Print(tokens)[2..] == steps[1..] && steps[1] == tokens[0].name[0];
        assert Normalized(Print(tokens)) == steps[1..];
        ScanAfterDot(steps, []);
      }
    }
    if TokensOf(Print(tokens)) == Ok(tokens) {
      ParsedIsCanonical(Print(tokens));
    }
  }

  /** Hence two accepted spellings mean the same tokens exactly when their normal forms agree. */
  lemma NormalForm(p: string, q: string)
    requires TokensOf(p).Ok? && TokensOf(q).Ok?
    ensures TokensOf(Print(TokensOf(p).value)) == TokensOf(p)
    ensures TokensOf(p) == TokensOf(q) <==> Print(TokensOf(p).value) == Print(TokensOf(q).value)
  {
    ParsedIsCanonical(p);
    ParsedIsCanonical(q);
    ParsePrint(TokensOf(p).value);
    ParsePrint(TokensOf(q).value);
  }

  // ----- spellings without the dollar sign -----

  /** A path may be spelled without `$`, and then also without its first dot, unless its first name begins
      with `$`, which is then taken for the root. */
  lemma PlainSpelling(ts: seq<Token>)
    requires Canonical(ts) && ts != []
    ensures TokensOf(PrintSteps(ts)) == Ok(ts)
    ensures ts[0].Name? ==> (TokensOf(PrintSteps(ts)[1..]) == Ok(ts) <==> !StartsWithDollar(ts[0].name))
  {
    SteppedSpelling(ts);
    if ts[0].Name? {
      assert CanonicalToken(ts[0]) && Canonical(ts[1..]);
      assert ts == [ts[0]] + ts[1..];
      NameInFront(ts[0].name, ts[1..]);
      NamedSpelling(ts[0].name, ts[1..]);
    }
  }

  lemma SteppedSpelling(ts: seq<Token>)
    requires Canonical(ts)
    ensures TokensOf(PrintSteps(ts)) == Ok(ts)
  {
    ScanSteps(ts, "", []);
    assert Flush([], "") + ts == ts;
    assert Unrooted(PrintSteps(ts)) == PrintSteps(ts);
    ScanUnrooted(PrintSteps(ts), ts);
  }

  lemma NameInFront(name: string, ts: seq<Token>)
    ensures PrintSteps([Name(name)] + ts)[1..] == name + PrintSteps(ts)
  {
    var all := [Name(name)] + ts;
    assert all[1..] == ts;
    assert PrintSteps(all) == "." + name + PrintSteps(ts);
  }

  predicate StartsWithDollar(s: string) {
    s != "" && s[0] == '$'
  }

  /** A leading `$` stands for the root. */
  function Unrooted(path: string): string {
    if StartsWithDollar(path) then path[1..] else path
  }

  lemma NamedSpelling(name: string, ts: seq<Token>)
    requires CanonicalToken(Name(name)) && Canonical(ts)
    ensures TokensOf(name + PrintSteps(ts)) == Ok([Name(name)] + ts) <==> !StartsWithDollar(name)
  {
    var read := Unrooted(name);
    UnrootedName(name, PrintSteps(ts));
    NameThenSteps(read, ts);
    ScanUnrooted(name + PrintSteps(ts), Flush([], read) + ts);
    if StartsWithDollar(name) {
      OtherName(name, read, ts);
    } else {
      FlushName(name);
    }
  }

  lemma UnrootedName(name: string, rest: string)
    requires CanonicalToken(Name(name))
    ensures Unrooted(name + rest) == Unrooted(name) + rest
    ensures '.' !in Unrooted(name) && '[' !in Unrooted(name)
    ensures |Unrooted(name)| < |name| <==> StartsWithDollar(name)
  {
  }

  lemma ScanUnrooted(path: string, ts: seq<Token>)
    requires Scan(Unrooted(path), "", []) == Some(ts)
    ensures TokensOf(path) == Ok(ts)
  {
    ScanNormalized(path);
  }

  lemma FlushName(name: string)
    requires CanonicalToken(Name(name))
    ensures Flush([], name) == [Name(name)]
  {
  }

  lemma ScanFresh(name: string, rest: string)
    requires '.' !in name && '[' !in name
    ensures Scan(name + rest, "", []) == Scan(rest, name, [])
  {
    ScanName(name, rest, "", []);
    assert "" + name == name;
  }

  lemma NameThenSteps(name: string, ts: seq<Token>)
    requires '.' !in name && '[' !in name && Canonical(ts)
    ensures Scan(name + PrintSteps(ts), "", []) == Some(Flush([], name) + ts)
  {
    var rest := PrintSteps(ts);
    ScanFresh(name, rest);
    ScanSteps(ts, name, []);
  }

  lemma OtherName(name: string, tail: string, ts: seq<Token>)
    requires |tail| < |name|
    ensures Flush([], tail) + ts != [Name(name)] + ts
  {
    if tail == "" {
      assert |Flush([], tail) + ts| < |[Name(name)] + ts|;
    } else {
      assert (Flush([], tail) + ts)[0] == TokenOf(tail) != Name(name);
    }
  }

  /** The dots that normalizing drops would have meant nothing. */
  lemma ScanNormalized(path: string)
    ensures Scan(Normalized(path), "", []) == Scan(Unrooted(path), "", [])
  {
    var p := Unrooted(path);
    if p != "" && p[0] == '.' {
      ScanAfterDot(p, []);
      if StartsWithDollar(path) {
        var q := p[1..];
        assert path[2..] == q;
        if q != "" && q[0] == '.' {
          ScanAfterDot(q, []);
        }
      }
    }
  }

  // ----- numerals -----

  /** A numeral is a non-empty string of the ten digits, read in base ten. */
  lemma NumeralsMean(s: string, k: nat)
    requires k < 10
    ensures AllDigits(s) <==> s != "" && forall c :: c in s ==> c in "0123456789"
    ensures AllDigits(s) ==> AllDigits(s + ["0123456789"[k]])
                             && NumberOf(s + ["0123456789"[k]]) == 10 * NumberOf(s) + k
    ensures AllDigits(["0123456789"[k]]) && NumberOf(["0123456789"[k]]) == k
  {
    var c := "0123456789"[k];
    assert c as int == '0' as int + k;
    if AllDigits(s) {
      assert (s + [c])[..|s|] == s;
    }
    assert [c][..0] == "" && NumberOf("") == 0;
    forall d: char
      ensures IsDigit(d) <==> d in "0123456789"
    {
      DigitCharacters(d);
    }
  }

  lemma DigitCharacters(d: char)
    ensures IsDigit(d) <==> d in "0123456789"
  {
    if IsDigit(d) {
      assert d == "0123456789"[d as int - '0' as int];
    }
  }

  // ----- what any path means, by its pieces -----

  /** A dot, a bracket with its body, or a stretch of text. */
  datatype Piece = Dot | Bracket(body: string, closed: bool) | Text(text: string)

  function SpellPiece(p: Piece): string {
    match p
    case Dot => "."
    case Bracket(body, closed) => "[" + body + (if closed then "]" else "")
    case Text(text) => text
  }

  function Spell(pieces: seq<Piece>): string {
    if pieces == [] then "" else SpellPiece(pieces[0]) + Spell(pieces[1..])
  }

  predicate WellFormedPiece(p: Piece) {
    match p
    case Dot => true
    case Bracket(body, _) => ']' !in body
    case Text(text) => text != "" && '.' !in text && '[' !in text
  }

  /** Stretches of text do not meet, and only the last bracket can be open. */
  predicate WellFormed(pieces: seq<Piece>) {
    pieces != [] ==>
      && WellFormedPiece(pieces[0])
      && (|pieces| > 1 ==> !(pieces[0].Text? && pieces[1].Text?) && !(pieces[0].Bracket? && !pieces[0].closed))
      && WellFormed(pieces[1..])
  }

  /** The pieces that stand for tokens. */
  function Marks(pieces: seq<Piece>): seq<Piece> {
    if pieces == [] then []
    else (if pieces[0].Dot? then [] else [pieces[0]]) + Marks(pieces[1..])
  }

  predicate BadIndex(p: Piece) {
    p.Bracket? && !AllDigits(p.body)
  }

  /** A bracket stands for the index in it, a numeral for an index, other text for a name. */
  predicate Denotes(p: Piece, t: Token) {
    match p
    case Dot => false
    case Bracket(body, _) => AllDigits(body) && t == Index(NumberOf(body))
    case Text(text) => if AllDigits(text) then t == Index(NumberOf(text)) else t == Name(text)
  }

  ghost predicate DenoteAll(marks: seq<Piece>, ts: seq<Token>) {
    |marks| == |ts| && forall i :: 0 <= i < |ts| ==> Denotes(marks[i], ts[i])
  }

  /** The result of scanning, given the tokens that were there before. */
  ghost predicate ScansTo(marks: seq<Piece>, before: seq<Token>, result: Option<seq<Token>>) {
    && (result.None? <==> exists p :: p in marks && BadIndex(p))
    && (result.Some? ==> before <= result.value && DenoteAll(marks, result.value[|before|..]))
  }

  lemma ScansToMore(p: Piece, t: Token, marks: seq<Piece>, before: seq<Token>, result: Option<seq<Token>>)
    requires Denotes(p, t) && ScansTo(marks, before + [t], result)
    ensures ScansTo([p] + marks, before, result)
  {
    assert forall q :: q in [p] + marks <==> q == p || q in marks;
    if result.Some? {
      var ts := result.value[|before|..];
      assert result.value[|before|] == t;
      assert ts == [t] + result.value[|before| + 1..];
    }
  }

  lemma PieceInFront(pieces: seq<Piece>)
    requires pieces != [] && WellFormed(pieces) && !pieces[0].Text?
    ensures Spell(pieces) != "" && (Spell(pieces)[0] == '.' || Spell(pieces)[0] == '[')
  {
  }

  lemma ScanClosed(body: string, rest: string, before: seq<Token>)
    requires ']' !in body
    ensures Scan("[" + body + "]" + rest, "", before)
         == if AllDigits(body) then Scan(rest, "", before + [Index(NumberOf(body))]) else None
  {
    var s := "[" + body + "]" + rest;
    assert s[1..] == body + "]" + rest;
    assert s[1..][..|body|] == body;
    BracketBodyAt(s[1..], |body|);
    assert s[1 + |body|..] == "]" + rest && ("]" + rest)[1..] == rest;
    if AllDigits(body) && rest != "" && rest[0] == '.' {
      ScanAfterDot(rest, before + [Index(NumberOf(body))]);
    }
  }

  lemma ScanOpen(body: string, before: seq<Token>)
    requires ']' !in body
    ensures Scan("[" + body, "", before)
         == if AllDigits(body) then Some(before + [Index(NumberOf(body))]) else None
  {
    var s := "[" + body;
    assert s[1..] == body && body[..|body|] == body;
    BracketBodyAt(s[1..], |body|);
    assert s[1 + |body|..] == "";
  }

  /** Text is flushed at its end. */
  lemma ScanText(text: string, rest: string, before: seq<Token>)
    requires text != "" && '.' !in text && '[' !in text
    requires rest == "" || rest[0] == '.' || rest[0] == '['
    ensures Scan(text + rest, "", before) == Scan(rest, "", before + [TokenOf(text)])
  {
    ScanName(text, rest, "", before);
    assert "" + text == text;
  }

  lemma {:induction false} ScanPieces(pieces: seq<Piece>, before: seq<Token>)
    requires WellFormed(pieces)
    ensures ScansTo(Marks(pieces), before, Scan(Spell(pieces), "", before))
    decreases |pieces|
  {
    if pieces != [] {
      var rest, tail := pieces[1..], Spell(pieces[1..]);
      match pieces[0]
      case Dot =>
        assert ("." + tail)[1..] == tail;
        ScanPieces(rest, before);
      case Text(text) =>
        if rest != [] {
          PieceInFront(rest);
        }
        ScanText(text, tail, before);
        ScanPieces(rest, before + [TokenOf(text)]);
        ScansToMore(pieces[0], TokenOf(text), Marks(rest), before, Scan(Spell(pieces), "", before));
      case Bracket(body, closed) =>
        ScanBracketPiece(pieces[0], rest, before);
    } else {
      assert before[|before|..] == [];
    }
  }

  lemma ScanBracketPiece(p: Piece, rest: seq<Piece>, before: seq<Token>)
    requires WellFormed([p] + rest) && WellFormed(rest) && p.Bracket?
    ensures ScansTo(Marks([p] + rest), before, Scan(Spell([p] + rest), "", before))
    decreases |rest| + 1, 0
  {
    var all := [p] + rest;
    assert all[0] == p && all[1..] == rest;
    var result := Scan(Spell(all), "", before);
    assert Marks(all) == [p] + Marks(rest);
    if p.closed {
      ScanClosed(p.body, Spell(rest), before);
    } else {
      ScanOpen(p.body, before);
      assert rest == [] && Spell(all) == "[" + p.body;
    }
    if AllDigits(p.body) {
      var t := Index(NumberOf(p.body));
      ScanPieces(rest, before + [t]);
      ScansToMore(p, t, Marks(rest), before, result);
    } else {
      assert p in Marks(all) && BadIndex(p);
    }
  }

  /** The length of the text that a string begins with. */
  function TextLength(s: string): (n: nat)
    ensures n <= |s| && '.' !in s[..n] && '[' !in s[..n]
    ensures n < |s| ==> s[n] == '.' || s[n] == '['
  {
    if s == "" || s[0] == '.' || s[0] == '[' then 0
    else
      var n := 1 + TextLength(s[1..]);
      assert s[..n] == [s[0]] + s[1..][..n - 1];
      n
  }

  /** Every string is made of pieces. */
  lemma {:induction false} HasPieces(s: string) returns (pieces: seq<Piece>)
    ensures WellFormed(pieces) && Spell(pieces) == s
    decreases |s|
  {
    if s == "" {
      return [];
    }
    var p, rest := FirstPiece(s);
    var tail := HasPieces(rest);
    pieces := [p] + tail;
    assert pieces[1..] == tail;
    if tail != [] {
      SpellNotEmpty(tail);
    }
  }

  lemma SpellNotEmpty(pieces: seq<Piece>)
    requires pieces != [] && WellFormed(pieces)
    ensures Spell(pieces) != ""
    ensures pieces[0].Text? ==> Spell(pieces)[0] != '.' && Spell(pieces)[0] != '['
  {
    if pieces[0].Text? {
      assert pieces[0].text[0] in pieces[0].text;
    }
  }

  lemma FirstPiece(s: string) returns (p: Piece, rest: string)
    requires s != ""
    ensures WellFormedPiece(p) && s == SpellPiece(p) + rest && |rest| < |s|
    ensures p.Text? && rest != "" ==> rest[0] == '.' || rest[0] == '['
    ensures p.Bracket? && !p.closed ==> rest == ""
  {
    if s[0] == '.' {
      return Dot, s[1..];
    }
    if s[0] == '[' {
      var body := BracketBody(s[1..]);
      var n := 1 + |body|;
      assert s == "[" + body + s[n..];
      if n < |s| {
        assert s[n..] == "]" + s[n + 1..];
        return Bracket(body, true), s[n + 1..];
      }
      return Bracket(body, false), "";
    }
    var n := TextLength(s);
    assert s == s[..n] + s[n..];
    return Text(s[..n]), s[n..];
  }

  /** Parsing any path whatever: it fails exactly if some bracket holds no numeral, and otherwise gives one
      token for each piece that is not a dot. */
  lemma PiecesMean(path: string, pieces: seq<Piece>)
    requires WellFormed(pieces) && Unrooted(path) == Spell(pieces)
    ensures TokensOf(path).Err? <==> exists p :: p in pieces && p.Bracket? && !AllDigits(p.body)
    ensures TokensOf(path).Err? ==> TokensOf(path).error == InvalidIndex(path)
    ensures TokensOf(path).Ok? ==> DenoteAll(Marks(pieces), TokensOf(path).value)
  {
    ScanNormalized(path);
    ScanPieces(pieces, []);
    MarksMember(pieces);
    var result := Scan(Spell(pieces), "", []);
    if result.Some? {
      assert result.value[0..] == result.value;
    }
  }

  lemma {:induction false} MarksMember(pieces: seq<Piece>)
    ensures forall p :: p in Marks(pieces) <==> p in pieces && !p.Dot?
  {
    if pieces != [] {
      MarksMember(pieces[1..]);
    }
  }
}
