/** The token bucket of lib/ratelimit.ts. Tokens are counted in 60000ths, so that one millisecond of refill
    is a whole number; times are in milliseconds. */
module RateLimit {
  import opened Results

  const TOKEN: nat := 60000

  datatype Bucket = Bucket(key: string, capacity: nat, refillPerMinute: nat)

  /** The stored hash with the moment, on the clock of the store, at which it expires. */
  datatype Entry = Entry(tokens: int, ts: int, expiresAt: int)

  datatype Decision = Decision(allowed: bool, remaining: int, retryAfterSeconds: int)

  /** A call reads the caller's clock and is executed at some time of the store's clock. */
  datatype Instant = Instant(now: int, storeTime: int)

  function Max(a: int, b: int): int {
    if a < b then b else a
  }

  function Min(a: int, b: int): int {
    if a < b then a else b
  }

  function CeilDiv(a: int, b: int): int
    requires b > 0
  {
    (a + b - 1) / b
  }

  function Full(b: Bucket): int {
    b.capacity * TOKEN
  }

  /** The refill rate is never taken below one ten-thousandth of a token per millisecond, that is, below
      six tokens per minute, when times are computed from it. */
  function TtlSeconds(b: Bucket): int {
    if b.refillPerMinute >= 6 then CeilDiv(b.capacity * 60000, b.refillPerMinute) + 1 else b.capacity * 10000 + 1
  }

  function RetryAfter(b: Bucket, remaining: int): int {
    if remaining > 0 then 0
    else if b.refillPerMinute >= 6 then CeilDiv(3600000, b.refillPerMinute) else 600000
  }

  /** The tokens at a call, before it takes one. */
  function Refilled(b: Bucket, stored: Option<Entry>, now: int): int {
    match stored
    case None => Full(b)
    case Some(e) => Min(Full(b), e.tokens + Max(0, now - e.ts) * b.refillPerMinute)
  }

  function Take(b: Bucket, stored: Option<Entry>, at: Instant): (Entry, Decision) {
    var tokens := Refilled(b, stored, at.now);
    var allowed := tokens >= TOKEN;
    var left := if allowed then tokens - TOKEN else tokens;
    var remaining := left / TOKEN;
    (Entry(left, at.now, at.storeTime + TtlSeconds(b) * 1000), Decision(allowed, remaining, RetryAfter(b, remaining)))
  }

  /** What the store still holds at a time. */
  function Live(stored: Option<Entry>, storeTime: int): Option<Entry> {
    if stored.Some? && stored.value.expiresAt <= storeTime then None else stored
  }

  // ----- what a call does, in tokens and rates -----

  /** Tokens per millisecond; the source calls it per second. */
  function Rate(b: Bucket): real {
    b.refillPerMinute as real / 60000.0
  }

  /** The rate that times are computed from. */
  ghost predicate IsRateForTimes(b: Bucket, rate: real) {
    rate == if Rate(b) > 0.0001 then Rate(b) else 0.0001
  }

  /** The tokens that a bucket holds when a call comes: all of them if nothing is stored, otherwise those stored
      and the refill since, up to the capacity. */
  ghost predicate IsRefill(b: Bucket, stored: Option<Entry>, now: int, tokens: real) {
    match stored
    case None => tokens == b.capacity as real
    case Some(e) =>
      var elapsed := if now > e.ts then now - e.ts else 0;
      var refilled := e.tokens as real / 60000.0 + elapsed as real * Rate(b);
      tokens == if refilled < b.capacity as real then refilled else b.capacity as real
  }

  ghost predicate IsCeiling(n: int, x: real) {
    (n - 1) as real < x <= n as real
  }

  /** The time to live in seconds: what filling the bucket takes, rounded up, and one more. */
  ghost predicate IsTtl(b: Bucket, ttl: int) {
    forall rate :: IsRateForTimes(b, rate) ==> rate > 0.0 && IsCeiling(ttl - 1, b.capacity as real / rate)
  }

  /** The retry hint in seconds: none while tokens remain, else a minute's worth at that rate, rounded up. */
  ghost predicate IsHint(b: Bucket, remaining: int, hint: int) {
    if remaining > 0 then hint == 0
    else forall rate :: IsRateForTimes(b, rate) ==> rate > 0.0 && IsCeiling(hint, 60000.0 / rate / 1000.0)
  }

  /** What a call stores and decides: it is allowed exactly if a whole token is there, which it takes. */
  ghost predicate IsCharged(b: Bucket, stored: Option<Entry>, at: Instant, entry: Entry, decision: Decision) {
    && (forall tokens :: IsRefill(b, stored, at.now, tokens) ==>
          && (decision.allowed <==> tokens >= 1.0)
          && entry.tokens as real / 60000.0 == if tokens >= 1.0 then tokens - 1.0 else tokens)
    && entry.ts == at.now
    && (exists ttl :: IsTtl(b, ttl) && entry.expiresAt == at.storeTime + ttl * 1000)
    && decision.remaining == (entry.tokens as real / 60000.0).Floor
    && IsHint(b, decision.remaining, decision.retryAfterSeconds)
  }

  /** The entry that counts at a time: the stored one, unless it has expired. */
  function StillThere(entries: map<string, Entry>, key: string, storeTime: int): Option<Entry> {
    if key in entries && storeTime < entries[key].expiresAt then Some(entries[key]) else None
  }

  lemma CeilDivIsCeiling(a: nat, r: nat)
    requires r > 0
    ensures IsCeiling(CeilDiv(a, r), a as real / r as real)
  {
    var n := CeilDiv(a, r);
    var m := (a + r - 1) % r;
    assert a + r - 1 == r * n + m;
    assert (n - 1) * r < a <= n * r by {
      assert r * n == n * r && (n - 1) * r == n * r - r;
    }
    QuotientBounds(a, r, n);
  }

  lemma QuotientBounds(a: nat, r: nat, n: int)
    requires r > 0 && (n - 1) * r < a <= n * r
    ensures IsCeiling(n, a as real / r as real)
  {
    var x, y := a as real / r as real, r as real;
    assert x * y == a as real;
    CastProduct(n - 1, r);
    CastProduct(n, r);
    SignOfProduct(x - (n - 1) as real, y);
    SignOfProduct(n as real - x, y);
    Difference(x, (n - 1) as real, y);
    Difference(n as real, x, y);
  }

  lemma CastProduct(a: int, b: int)
    ensures (a * b) as real == a as real * b as real
  {
  }

  lemma SignOfProduct(d: real, y: real)
    requires y > 0.0
    ensures d * y > 0.0 <==> d > 0.0
    ensures d * y >= 0.0 <==> d >= 0.0
  {
  }

  lemma Difference(p: real, q: real, y: real)
    ensures (p - q) * y == p * y - q * y
  {
  }

  lemma RateFromSix(b: Bucket)
    ensures Rate(b) > 0.0001 <==> b.refillPerMinute > 6
    ensures b.refillPerMinute == 6 ==> Rate(b) == 0.0001
  {
  }

  lemma TtlMeans(b: Bucket)
    ensures IsTtl(b, TtlSeconds(b))
  {
    RateFromSix(b);
    forall rate | IsRateForTimes(b, rate)
      ensures rate > 0.0 && IsCeiling(TtlSeconds(b) - 1, b.capacity as real / rate)
    {
      if b.refillPerMinute >= 6 {
        CeilDivIsCeiling(b.capacity * 60000, b.refillPerMinute);
        PerMinute(b.capacity as real, b.refillPerMinute as real);
      } else {
        assert b.capacity as real / 0.0001 == (b.capacity * 10000) as real;
      }
    }
  }

  lemma PerMinute(x: real, r: real)
    requires r > 0.0
    ensures x / (r / 60000.0) == x * 60000.0 / r
  {
    assert x / (r / 60000.0) * (r / 60000.0) == x;
    assert x * 60000.0 / r * (r / 60000.0) == x;
  }

  lemma HintMeans(b: Bucket, remaining: int)
    ensures IsHint(b, remaining, RetryAfter(b, remaining))
  {
    RateFromSix(b);
    if remaining <= 0 {
      forall rate | IsRateForTimes(b, rate)
        ensures rate > 0.0 && IsCeiling(RetryAfter(b, remaining), 60000.0 / rate / 1000.0)
      {
        if b.refillPerMinute >= 6 {
          CeilDivIsCeiling(3600000, b.refillPerMinute);
          PerMinute(60000.0, b.refillPerMinute as real);
          Thousandth(b.refillPerMinute as real);
        } else {
          assert 60000.0 / 0.0001 / 1000.0 == 600000.0;
        }
      }
    }
  }

  lemma Thousandth(r: real)
    requires r > 0.0
    ensures 60000.0 * 60000.0 / r / 1000.0 == 3600000.0 / r
  {
    assert 3600000000.0 / r == 1000.0 * (3600000.0 / r);
  }

  /** Every call does that. */
  lemma TakeMeans(b: Bucket, stored: Option<Entry>, at: Instant)
    ensures IsCharged(b, stored, at, Take(b, stored, at).0, Take(b, stored, at).1)
  {
    var (entry, decision) := Take(b, stored, at);
    TtlMeans(b);
    HintMeans(b, decision.remaining);
    FloorOfTokens(entry.tokens);
    forall tokens | IsRefill(b, stored, at.now, tokens)
      ensures tokens == Refilled(b, stored, at.now) as real / 60000.0
    {
      RefillMeans(b, stored, at.now, tokens);
    }
  }

  lemma RefillMeans(b: Bucket, stored: Option<Entry>, now: int, tokens: real)
    requires IsRefill(b, stored, now, tokens)
    ensures tokens == Refilled(b, stored, now) as real / 60000.0
  {
    if stored.Some? {
      var elapsed := Max(0, now - stored.value.ts);
      CastProduct(elapsed, b.refillPerMinute);
      assert elapsed as real * Rate(b) == (elapsed * b.refillPerMinute) as real / 60000.0;
    }
  }

  lemma FloorOfTokens(tokens: int)
    ensures tokens / TOKEN == (tokens as real / 60000.0).Floor
  {
  }

  // ----- the store and the calls on it -----

  class Limiter {
    var entries: map<string, Entry>

    constructor ()
      ensures entries == map[]
    {
      entries := map[];
    }

    function Stored(key: string): Option<Entry>
      reads this
    {
      if key in entries then Some(entries[key]) else None
    }

    /** The script runs atomically: read, refill, take, store, set the expiry. */
    method EvalScript(b: Bucket, at: Instant) returns (allowed: bool, left: int)
      modifies this
      ensures var (entry, decision) := Take(b, Live(old(Stored(b.key)), at.storeTime), at);
              && entries == old(entries)[b.key := entry]
              && allowed == decision.allowed && left == entry.tokens
    {
      var current := Live(Stored(b.key), at.storeTime);
      var tokens, ts := Full(b), at.now;
      if current.Some? {
        tokens, ts := current.value.tokens, current.value.ts;
      }
      var elapsed := Max(0, at.now - ts);
      tokens := Min(Full(b), tokens + elapsed * b.refillPerMinute);
      allowed := false;
      if tokens >= TOKEN {
        tokens := tokens - TOKEN;
        allowed := true;
      }
      var ttl := TtlSeconds(b);
      entries := entries[b.key := Entry(tokens, at.now, at.storeTime + ttl * 1000)];
      left := tokens;
    }

    method ConsumeBucket(b: Bucket, at: Instant) returns (decision: Decision)
      modifies this
      ensures var (entry, d) := Take(b, Live(old(Stored(b.key)), at.storeTime), at);
              entries == old(entries)[b.key := entry] && decision == d
      ensures IsCharged(b, StillThere(old(entries), b.key, at.storeTime), at, entries[b.key], decision)
    {
      TakeMeans(b, Live(Stored(b.key), at.storeTime), at);
      var allowed, left := EvalScript(b, at);
      var remaining := left / TOKEN;
      decision := Decision(allowed, remaining, RetryAfter(b, remaining));
    }

    /** Buckets are charged in turn up to the first denial; those after it are not touched, those before
        it are not refunded. */
    method EnforceBuckets(buckets: seq<Bucket>, times: seq<Instant>) returns (denial: Option<Decision>, charged: nat)
      requires |times| == |buckets|
      modifies this
      ensures charged <= |buckets|
      ensures entries == ChargeAll(old(entries), buckets[..charged], times[..charged])
      ensures denial.None? ==> charged == |buckets|
      ensures denial.Some? ==> charged > 0 && denial.value == DecisionAt(old(entries), buckets, times, charged - 1)
      ensures denial.Some? ==> !denial.value.allowed
      ensures AllAllowed(old(entries), buckets, times, if denial.Some? then charged - 1 else charged)
    {
      charged := 0;
      while charged < |buckets|
        invariant charged <= |buckets|
        invariant entries == ChargeAll(old(entries), buckets[..charged], times[..charged])
        invariant AllAllowed(old(entries), buckets, times, charged)
      {
        ChargeNext(old(entries), buckets, times, charged);
        var decision := ConsumeBucket(buckets[charged], times[charged]);
        charged := charged + 1;
        if !decision.allowed {
          return Some(decision), charged;
        }
      }
      denial := None;
    }
  }

  predicate AllAllowed(entries: map<string, Entry>, buckets: seq<Bucket>, times: seq<Instant>, n: nat)
    requires |buckets| == |times| && n <= |buckets|
  {
    forall i :: 0 <= i < n ==> DecisionAt(entries, buckets, times, i).allowed
  }

  function EntryOf(entries: map<string, Entry>, key: string): Option<Entry> {
    if key in entries then Some(entries[key]) else None
  }

  function ChargeAll(entries: map<string, Entry>, buckets: seq<Bucket>, times: seq<Instant>): map<string, Entry>
    requires |buckets| == |times|
  {
    if buckets == [] then entries
    else
      var n := |buckets| - 1;
      var before := ChargeAll(entries, buckets[..n], times[..n]);
      before[buckets[n].key := Take(buckets[n], Live(EntryOf(before, buckets[n].key), times[n].storeTime), times[n]).0]
  }

  function DecisionAt(entries: map<string, Entry>, buckets: seq<Bucket>, times: seq<Instant>, i: nat): Decision
    requires |buckets| == |times| && i < |buckets|
  {
    var before := ChargeAll(entries, buckets[..i], times[..i]);
    Take(buckets[i], Live(EntryOf(before, buckets[i].key), times[i].storeTime), times[i]).1
  }

  lemma ChargeNext(entries: map<string, Entry>, buckets: seq<Bucket>, times: seq<Instant>, i: nat)
    requires |buckets| == |times| && i < |buckets|
    ensures var before := ChargeAll(entries, buckets[..i], times[..i]);
            var entry := Take(buckets[i], Live(EntryOf(before, buckets[i].key), times[i].storeTime), times[i]).0;
            ChargeAll(entries, buckets[..i + 1], times[..i + 1]) == before[buckets[i].key := entry]
  {
    assert buckets[..i + 1][..i] == buckets[..i] && times[..i + 1][..i] == times[..i];
  }

  // ----- runs of one bucket -----

  /** What is stored after a sequence of calls, with or without expiry. */
  function After(b: Bucket, start: Option<Entry>, calls: seq<Instant>, expiring: bool): Option<Entry> {
    if calls == [] then start
    else
      var last := calls[|calls| - 1];
      var before := After(b, start, calls[..|calls| - 1], expiring);
      Some(Take(b, if expiring then Live(before, last.storeTime) else before, last).0)
  }

  function Decided(b: Bucket, start: Option<Entry>, calls: seq<Instant>, expiring: bool, i: nat): Decision
    requires i < |calls|
  {
    var before := After(b, start, calls[..i], expiring);
    Take(b, if expiring then Live(before, calls[i].storeTime) else before, calls[i]).1
  }

  function Verdicts(b: Bucket, start: Option<Entry>, calls: seq<Instant>, expiring: bool): (vs: seq<bool>)
    ensures |vs| == |calls|
    ensures forall i :: 0 <= i < |vs| ==> vs[i] == Decided(b, start, calls, expiring, i).allowed
  {
    seq(|calls|, i requires 0 <= i < |calls| => Decided(b, start, calls, expiring, i).allowed)
  }

  function Count(vs: seq<bool>): nat {
    if vs == [] then 0 else Count(vs[..|vs| - 1]) + (if vs[|vs| - 1] then 1 else 0)
  }

  function Admitted(b: Bucket, start: Option<Entry>, calls: seq<Instant>, expiring: bool): nat {
    Count(Verdicts(b, start, calls, expiring))
  }

  lemma {:induction false} CountConcat(v: seq<bool>, w: seq<bool>)
    ensures Count(v + w) == Count(v) + Count(w)
  {
    if w == [] {
      assert v + w == v;
    } else {
      CountConcat(v, w[..|w| - 1]);
      assert (v + w)[..|v + w| - 1] == v + w[..|w| - 1];
    }
  }

  lemma DecidedPrefix(b: Bucket, start: Option<Entry>, calls: seq<Instant>, expiring: bool, n: nat, i: nat)
    requires i < n <= |calls|
    ensures Decided(b, start, calls[..n], expiring, i) == Decided(b, start, calls, expiring, i)
  {
    assert calls[..n][..i] == calls[..i];
  }

  lemma AdmittedLast(b: Bucket, start: Option<Entry>, calls: seq<Instant>, expiring: bool)
    requires calls != []
    ensures Admitted(b, start, calls, expiring)
         == Admitted(b, start, calls[..|calls| - 1], expiring)
            + (if Decided(b, start, calls, expiring, |calls| - 1).allowed then 1 else 0)
  {
    var n := |calls| - 1;
    var all, init := Verdicts(b, start, calls, expiring), Verdicts(b, start, calls[..n], expiring);
    forall i | 0 <= i < n
      ensures all[i] == init[i]
    {
      DecidedPrefix(b, start, calls, expiring, n, i);
    }
    assert all[..n] == init;
  }

  /** The sum of the forward jumps of the caller's clock between consecutive calls. */
  function Forward(calls: seq<Instant>): nat {
    if |calls| < 2 then 0
    else Forward(calls[..|calls| - 1]) + Max(0, calls[|calls| - 1].now - calls[|calls| - 2].now)
  }

  predicate Sane(b: Bucket, stored: Option<Entry>) {
    stored.Some? ==> 0 <= stored.value.tokens <= Full(b)
  }

  lemma NatProduct(x: int, y: nat)
    requires x >= 0
    ensures x * y >= 0
  {
  }

  /** Tokens never leave [0, capacity]. */
  lemma TakeStaysSane(b: Bucket, stored: Option<Entry>, at: Instant)
    requires Sane(b, stored)
    ensures Sane(b, Some(Take(b, stored, at).0))
    ensures 0 <= Refilled(b, stored, at.now) <= Full(b)
    ensures 0 <= Take(b, stored, at).1.remaining <= b.capacity
  {
    if stored.Some? {
      NatProduct(Max(0, at.now - stored.value.ts), b.refillPerMinute);
    }
  }

  lemma {:induction false} AfterStaysSane(b: Bucket, start: Option<Entry>, calls: seq<Instant>, expiring: bool)
    requires Sane(b, start)
    ensures Sane(b, After(b, start, calls, expiring))
    ensures calls != [] ==> var after := After(b, start, calls, expiring);
                            after.Some? && after.value.ts == calls[|calls| - 1].now
                            && after.value.expiresAt == calls[|calls| - 1].storeTime + TtlSeconds(b) * 1000
  {
    if calls != [] {
      var last := calls[|calls| - 1];
      var before := After(b, start, calls[..|calls| - 1], expiring);
      AfterStaysSane(b, start, calls[..|calls| - 1], expiring);
      TakeStaysSane(b, if expiring then Live(before, last.storeTime) else before, last);
    }
  }

  /** Whatever the clock does, the tokens given out and those left never exceed a full bucket and the refill
      of the forward jumps. */
  lemma {:induction false} TokenBudget(b: Bucket, start: Option<Entry>, calls: seq<Instant>)
    requires Sane(b, start) && calls != []
    ensures After(b, start, calls, false).Some?
    ensures Admitted(b, start, calls, false) * TOKEN + After(b, start, calls, false).value.tokens
         <= Full(b) + Forward(calls) * b.refillPerMinute
  {
    var n := |calls| - 1;
    var init, last := calls[..n], calls[n];
    AfterStaysSane(b, start, init, false);
    TakeStaysSane(b, After(b, start, init, false), last);
    AdmittedLast(b, start, calls, false);
    if init != [] {
      TokenBudget(b, start, init);
      var jump := Max(0, last.now - calls[n - 1].now);
      assert Forward(calls) == Forward(init) + jump;
      Distribute(Forward(init), jump, b.refillPerMinute);
    } else {
      assert Admitted(b, start, init, false) == 0;
    }
  }

  lemma Distribute(x: int, y: int, r: int)
    ensures (x + y) * r == x * r + y * r
  {
  }

  ghost predicate NonDecreasing(calls: seq<Instant>) {
    forall i :: 0 <= i < |calls| - 1 ==> calls[i].now <= calls[i + 1].now
  }

  lemma {:induction false} ForwardIsSpan(calls: seq<Instant>)
    requires calls != [] && NonDecreasing(calls)
    ensures Forward(calls) == calls[|calls| - 1].now - calls[0].now
  {
    var n := |calls| - 1;
    if n > 0 {
      ForwardIsSpan(calls[..n]);
      assert calls[n - 1].now <= calls[n].now;
    }
  }

  /** In any window of calls at non-decreasing times, at most the capacity and the refill of the elapsed
      time are admitted. */
  lemma RateBound(b: Bucket, start: Option<Entry>, calls: seq<Instant>)
    requires Sane(b, start) && calls != [] && NonDecreasing(calls)
    ensures Admitted(b, start, calls, false) * TOKEN
         <= b.capacity * TOKEN + (calls[|calls| - 1].now - calls[0].now) * b.refillPerMinute
  {
    TokenBudget(b, start, calls);
    AfterStaysSane(b, start, calls, false);
    ForwardIsSpan(calls);
  }

  /** The bound is met: calls that come at one instant on a fresh bucket are admitted up to the capacity. */
  lemma {:induction false} BurstIsCapacity(b: Bucket, calls: seq<Instant>, t: int)
    requires forall i :: 0 <= i < |calls| ==> calls[i].now == t
    ensures Admitted(b, None, calls, false) == Min(|calls|, b.capacity)
    ensures calls != [] ==> After(b, None, calls, false).value.tokens == (b.capacity - Min(|calls|, b.capacity)) * TOKEN
  {
    if calls != [] {
      var n := |calls| - 1;
      BurstIsCapacity(b, calls[..n], t);
      AdmittedLast(b, None, calls, false);
      AfterStaysSane(b, None, calls[..n], false);
      if n > 0 {
        assert calls[..n][n - 1].now == t;
        assert Max(0, t - t) * b.refillPerMinute == 0;
      }
    }
  }

  // ----- expiry -----

  /** How much faster than the caller's clock the store's clock may run. */
  const SKEW: nat := 166

  ghost predicate ClocksAgree(calls: seq<Instant>) {
    forall i :: 0 <= i < |calls| - 1 ==>
      calls[i + 1].storeTime - calls[i].storeTime <= SKEW * (calls[i + 1].now - calls[i].now) + 1000
  }

  lemma CeilDivBound(a: nat, r: nat)
    requires r > 0
    ensures CeilDiv(a, r) * r >= a
    ensures a > 0 ==> CeilDiv(a, r) > 0
  {
    var q, m := (a + r - 1) / r, (a + r - 1) % r;
    assert a + r - 1 == r * q + m;
    assert r * q == q * r;
    if a > 0 {
      assert r * q > 0;
      assert q > 0;
    }
  }

  /** The expiry leaves more than enough time to fill the bucket. */
  lemma TtlCoversRefill(b: Bucket, elapsed: int)
    requires b.refillPerMinute > 0 && SKEW * elapsed >= (TtlSeconds(b) - 1) * 1000
    ensures elapsed * b.refillPerMinute >= Full(b)
  {
    var r := b.refillPerMinute;
    if r >= 6 {
      CeilDivBound(b.capacity * 60000, r);
      var q := CeilDiv(b.capacity * 60000, r);
      assert elapsed >= q;
      ScaleUp(elapsed, q, r);
    } else {
      assert elapsed * 166 >= b.capacity * 10000000;
      ScaleUp(elapsed, b.capacity * 60000, 1);
    }
  }

  lemma ScaleUp(x: int, y: int, r: int)
    requires x >= y && r >= 0
    ensures x * r >= y * r
  {
  }

  /** The bucket fills up again, or there is nothing to fill. */
  predicate Refills(b: Bucket) {
    b.refillPerMinute > 0 || b.capacity == 0
  }

  /** At a call, a bucket that has expired would have been full. */
  lemma ExpiredIsFull(b: Bucket, e: Entry, previous: Instant, at: Instant)
    requires Refills(b) && Sane(b, Some(e))
    requires e.ts == previous.now && e.expiresAt == previous.storeTime + TtlSeconds(b) * 1000
    requires at.storeTime - previous.storeTime <= SKEW * (at.now - previous.now) + 1000
    ensures Take(b, Live(Some(e), at.storeTime), at) == Take(b, Some(e), at)
  {
    if e.expiresAt <= at.storeTime {
      CeilNonNegative(b);
      if b.capacity > 0 {
        TtlCoversRefill(b, at.now - previous.now);
      } else {
        NatProduct(Max(0, at.now - previous.now), b.refillPerMinute);
      }
    }
  }

  lemma CeilNonNegative(b: Bucket)
    ensures TtlSeconds(b) >= 1
  {
    if b.refillPerMinute >= 6 {
      CeilDivBound(b.capacity * 60000, b.refillPerMinute);
    }
  }

  ghost predicate SameDecisions(b: Bucket, calls: seq<Instant>) {
    forall i :: 0 <= i < |calls| ==> Decided(b, None, calls, true, i) == Decided(b, None, calls, false, i)
  }

  /** Expiry changes no decision, as long as the store's clock does not run away from the callers'. */
  lemma {:induction false} ExpiryInvisible(b: Bucket, calls: seq<Instant>)
    requires Refills(b) && ClocksAgree(calls)
    ensures After(b, None, calls, true) == After(b, None, calls, false) && SameDecisions(b, calls)
  {
    if calls != [] {
      var n := |calls| - 1;
      var init := calls[..n];
      ExpiryInvisible(b, init);
      AfterStaysSane(b, None, init, false);
      if n > 0 {
        ExpiredIsFull(b, After(b, None, init, false).value, calls[n - 1], calls[n]);
      }
      forall i | 0 <= i < |calls|
        ensures Decided(b, None, calls, true, i) == Decided(b, None, calls, false, i)
      {
        assert i < n ==> calls[..i] == init[..i];
        assert i < n ==> Decided(b, None, init, true, i) == Decided(b, None, init, false, i);
      }
    }
  }

  /** The store and the callers read one clock that does not go back. */
  ghost predicate OneClock(calls: seq<Instant>) {
    NonDecreasing(calls) && forall i :: 0 <= i < |calls| ==> calls[i].storeTime == calls[i].now
  }

  lemma SharedClockAgrees(calls: seq<Instant>)
    requires OneClock(calls)
    ensures ClocksAgree(calls)
  {
    forall i | 0 <= i < |calls| - 1
      ensures calls[i + 1].storeTime - calls[i].storeTime <= SKEW * (calls[i + 1].now - calls[i].now) + 1000
    {
      assert calls[i].now <= calls[i + 1].now;
    }
  }

  /** On one shared clock expiry changes no decision of any sequence of calls exactly for the buckets that
      fill up again, or that are always empty. */
  lemma ExpiryInvisibleIff(b: Bucket)
    ensures (forall calls :: OneClock(calls) ==> SameDecisions(b, calls)) <==> Refills(b)
  {
    if Refills(b) {
      forall calls | OneClock(calls)
        ensures SameDecisions(b, calls)
      {
        SharedClockAgrees(calls);
        ExpiryInvisible(b, calls);
      }
    } else {
      var later := TtlSeconds(b) * 1000;
      var calls := [Instant(0, 0), Instant(later, later)];
      assert OneClock(calls);
      ForgottenIsFull(b, calls, later);
    }
  }

  lemma AfterFirst(b: Bucket, at: Instant, expiring: bool)
    ensures After(b, None, [at], expiring) == Some(Take(b, None, at).0)
  {
    assert [at][..0] == [];
    assert After(b, None, [], expiring) == None;
  }

  /** A bucket that never fills up again is full again once it has been forgotten. */
  lemma ForgottenIsFull(b: Bucket, calls: seq<Instant>, later: int)
    requires !Refills(b) && later == TtlSeconds(b) * 1000 && calls == [Instant(0, 0), Instant(later, later)]
    ensures Decided(b, None, calls, true, 1) != Decided(b, None, calls, false, 1)
  {
    var first := [Instant(0, 0)];
    var e := Entry(Full(b) - TOKEN, 0, later);
    assert calls[..1] == first;
    AfterFirst(b, Instant(0, 0), true);
    AfterFirst(b, Instant(0, 0), false);
    assert Take(b, None, Instant(0, 0)).0 == e;
    assert Live(Some(e), later) == None;
  }

  lemma {:induction false} AfterSplit(b: Bucket, start: Option<Entry>, first: seq<Instant>, second: seq<Instant>)
    ensures After(b, start, first + second, false) == After(b, After(b, start, first, false), second, false)
  {
    if second == [] {
      assert first + second == first;
    } else {
      var n := |second| - 1;
      AfterSplit(b, start, first, second[..n]);
      assert (first + second)[..|first| + n] == first + second[..n];
    }
  }

  lemma DecidedSplit(b: Bucket, start: Option<Entry>, first: seq<Instant>, second: seq<Instant>, i: nat)
    requires i < |second|
    ensures Decided(b, start, first + second, false, |first| + i)
         == Decided(b, After(b, start, first, false), second, false, i)
  {
    AfterSplit(b, start, first, second[..i]);
    assert (first + second)[..|first| + i] == first + second[..i];
  }

  lemma JoinedPointwise(all: seq<bool>, v: seq<bool>, w: seq<bool>)
    requires |all| == |v| + |w|
    requires forall i :: 0 <= i < |v| ==> all[i] == v[i]
    requires forall i :: 0 <= i < |w| ==> all[|v| + i] == w[i]
    ensures all == v + w
  {
  }

  lemma VerdictsSplit(b: Bucket, start: Option<Entry>, first: seq<Instant>, second: seq<Instant>)
    ensures Verdicts(b, start, first + second, false)
         == Verdicts(b, start, first, false) + Verdicts(b, After(b, start, first, false), second, false)
  {
    var all, middle := Verdicts(b, start, first + second, false), After(b, start, first, false);
    var v, w := Verdicts(b, start, first, false), Verdicts(b, middle, second, false);
    assert (first + second)[..|first|] == first;
    forall i | 0 <= i < |v|
      ensures all[i] == v[i]
    {
      DecidedPrefix(b, start, first + second, false, |first|, i);
    }
    forall i | 0 <= i < |w|
      ensures all[|v| + i] == w[i]
    {
      DecidedSplit(b, start, first, second, i);
    }
    JoinedPointwise(all, v, w);
  }

  lemma AdmittedSplit(b: Bucket, start: Option<Entry>, first: seq<Instant>, second: seq<Instant>)
    ensures Admitted(b, start, first + second, false)
         == Admitted(b, start, first, false) + Admitted(b, After(b, start, first, false), second, false)
  {
    VerdictsSplit(b, start, first, second);
    CountConcat(Verdicts(b, start, first, false), Verdicts(b, After(b, start, first, false), second, false));
  }

  lemma ClocksAgreePrefix(calls: seq<Instant>, n: nat)
    requires ClocksAgree(calls) && n <= |calls|
    ensures ClocksAgree(calls[..n])
  {
  }

  lemma SameAdmissions(b: Bucket, calls: seq<Instant>)
    requires Refills(b) && ClocksAgree(calls)
    ensures Admitted(b, None, calls, true) == Admitted(b, None, calls, false)
  {
    ExpiryInvisible(b, calls);
    assert Verdicts(b, None, calls, true) == Verdicts(b, None, calls, false);
  }

  /** How many of the calls i..j of a run with expiry are admitted. */
  function AdmittedWithin(b: Bucket, calls: seq<Instant>, i: nat, j: nat): int
    requires i <= j <= |calls|
  {
    Admitted(b, None, calls[..j], true) - Admitted(b, None, calls[..i], true)
  }

  lemma FurtherAdmissions(b: Bucket, before: seq<Instant>, window: seq<Instant>)
    requires Refills(b) && ClocksAgree(before) && ClocksAgree(before + window)
    ensures Admitted(b, None, before + window, true) - Admitted(b, None, before, true)
         == Admitted(b, After(b, None, before, false), window, false)
  {
    SameAdmissions(b, before);
    SameAdmissions(b, before + window);
    AdmittedSplit(b, None, before, window);
  }

  lemma WindowNonDecreasing(calls: seq<Instant>, i: nat, j: nat)
    requires NonDecreasing(calls) && i < j <= |calls|
    ensures NonDecreasing(calls[i..j])
  {
    forall k | 0 <= k < j - i - 1
      ensures calls[i..j][k].now <= calls[i..j][k + 1].now
    {
      assert calls[i + k].now <= calls[i + k + 1].now;
    }
  }

  /** The rate limit as it is deployed, expiry included: over any window i..j of the life of a bucket, the
      calls admitted are at most the capacity plus the refill of the time between the first and the last. */
  lemma WindowBound(b: Bucket, calls: seq<Instant>, i: nat, j: nat, elapsed: int)
    requires Refills(b) && ClocksAgree(calls) && NonDecreasing(calls)
    requires i < j <= |calls| && elapsed == calls[j - 1].now - calls[i].now
    ensures Within(b, AdmittedWithin(b, calls, i, j), elapsed)
  {
    var before, window := calls[..i], calls[i..j];
    assert calls[..j] == before + window;
    ClocksAgreePrefix(calls, i);
    ClocksAgreePrefix(calls, j);
    WindowNonDecreasing(calls, i, j);
    assert window[0] == calls[i] && window[|window| - 1] == calls[j - 1];
    FurtherBound(b, before, window, elapsed);
  }

  /** So many admissions stay within the capacity and the refill of the time elapsed. */
  predicate Within(b: Bucket, admitted: int, elapsed: int) {
    admitted * TOKEN <= b.capacity * TOKEN + elapsed * b.refillPerMinute
  }

  lemma FurtherBound(b: Bucket, before: seq<Instant>, window: seq<Instant>, elapsed: int)
    requires Refills(b) && ClocksAgree(before) && ClocksAgree(before + window)
    requires window != [] && NonDecreasing(window) && elapsed == window[|window| - 1].now - window[0].now
    ensures Within(b, Admitted(b, None, before + window, true) - Admitted(b, None, before, true), elapsed)
  {
    FurtherAdmissions(b, before, window);
    BoundFrom(b, After(b, None, before, false), before, window, elapsed);
  }

  lemma BoundFrom(b: Bucket, start: Option<Entry>, before: seq<Instant>, window: seq<Instant>, elapsed: int)
    requires start == After(b, None, before, false)
    requires window != [] && NonDecreasing(window) && elapsed == window[|window| - 1].now - window[0].now
    ensures Within(b, Admitted(b, start, window, false), elapsed)
  {
    AfterStaysSane(b, None, before, false);
    RateBound(b, start, window);
  }

  // ----- the retry hint -----

  /** After a denial, the next call is admitted exactly when the refill has made up one token. */
  lemma NextAdmission(b: Bucket, stored: Option<Entry>, at: Instant, next: Instant)
    requires Sane(b, stored) && !Take(b, stored, at).1.allowed && next.now >= at.now && b.capacity > 0
    ensures Take(b, Some(Take(b, stored, at).0), next).1.allowed
       <==> Take(b, stored, at).0.tokens + (next.now - at.now) * b.refillPerMinute >= TOKEN
  {
  }

  /** A denial always carries a positive hint, at least ten thousand times what earns a token. */
  lemma DenialHint(b: Bucket, stored: Option<Entry>, at: Instant)
    requires Sane(b, stored) && !Take(b, stored, at).1.allowed
    ensures Take(b, stored, at).1.remaining == 0 && Take(b, stored, at).1.retryAfterSeconds > 0
    ensures b.refillPerMinute > 0 ==>
              Take(b, stored, at).1.retryAfterSeconds * 1000 * b.refillPerMinute >= 10000 * TOKEN
  {
    TakeStaysSane(b, stored, at);
    var hint, r := RetryAfter(b, 0), b.refillPerMinute;
    if r >= 6 {
      CeilDivBound(3600000, r);
      Thousandfold(hint, r);
    }
  }

  lemma Thousandfold(x: int, r: int)
    ensures x * 1000 * r == 1000 * (x * r)
  {
  }

  /** Some call that comes after the hint, with no other use in between, is refused. */
  ghost predicate RefusedAfterHint(b: Bucket, denied: Entry, hint: int, next: Instant) {
    next.now - denied.ts >= hint * 1000 && !Take(b, Some(denied), next).1.allowed
  }

  /** Waiting as long as the hint says, with no other use, guarantees admission exactly when the bucket
      refills and can hold a token. */
  lemma RetryGuarantee(b: Bucket, stored: Option<Entry>, at: Instant)
    requires Sane(b, stored) && !Take(b, stored, at).1.allowed
    ensures var (denied, decision) := Take(b, stored, at);
            (forall next :: !RefusedAfterHint(b, denied, decision.retryAfterSeconds, next))
            <==> b.refillPerMinute > 0 && b.capacity > 0
  {
    var (denied, decision) := Take(b, stored, at);
    var hint := decision.retryAfterSeconds;
    DenialHint(b, stored, at);
    TakeStaysSane(b, stored, at);
    if b.refillPerMinute > 0 && b.capacity > 0 {
      forall next: Instant
        ensures !RefusedAfterHint(b, denied, hint, next)
      {
        if next.now - denied.ts >= hint * 1000 {
          ScaleUp(next.now - denied.ts, hint * 1000, b.refillPerMinute);
        }
      }
    } else {
      var next := Instant(denied.ts + hint * 1000, 0);
      assert RefusedAfterHint(b, denied, hint, next);
    }
  }
}
