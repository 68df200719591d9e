/** The limiters of pkg/server/ratelimit.go. */
module RateLimit {
  import opened Common

  type Time = int // nanoseconds

  const SECOND: int := 1_000_000_000

  function Key(peerID: string, methodName: string): string {
    peerID + ":" + methodName
  }

  // ---- Token bucket ----

  datatype Bucket = Bucket(tokens: int, lastRefill: Time)

  datatype Limits = Limits(rate: int, burst: int)

  /** int(elapsed.Seconds() * float64(rate)) with exact arithmetic: truncation toward zero. */
  function TokensFor(elapsed: Time, rate: int): int {
    if elapsed * rate >= 0 then elapsed * rate / SECOND else -(-(elapsed * rate) / SECOND)
  }

  function Refill(l: Limits, b: Bucket, now: Time): Bucket {
    var add := TokensFor(now - b.lastRefill, l.rate);
    if add > 0 then Bucket(if b.tokens + add > l.burst then l.burst else b.tokens + add, now) else b
  }

  predicate Admits(l: Limits, b: Bucket, now: Time) {
    Refill(l, b, now).tokens > 0
  }

  function Take(l: Limits, b: Bucket, now: Time): Bucket {
    var r := Refill(l, b, now);
    if r.tokens > 0 then r.(tokens := r.tokens - 1) else r
  }

  class TokenBucketLimiter {
    const rate: int
    const burst: int
    var buckets: map<string, Bucket>

    constructor (rate: int, burst: int)
      ensures this.rate == rate && this.burst == burst && buckets == map[]
    {
      this.rate, this.burst, buckets := rate, burst, map[];
    }

    /** The clock is read once for a new bucket (`created`) and once for the refill. */
    method Allow(peerID: string, methodName: string, created: Time, now: Time) returns (ok: bool)
      requires created <= now
      modifies this
      ensures var key := Key(peerID, methodName);
              var b := Lookup(old(buckets), key, Bucket(burst, created));
              && ok == Admits(Limits(rate, burst), b, now)
              && buckets == old(buckets)[key := Take(Limits(rate, burst), b, now)]
    {
      var key := peerID + ":" + methodName;
      if key !in buckets {
        buckets := buckets[key := Bucket(burst, created)];
      }
      var b := buckets[key];
      var tokensToAdd := TokensFor(now - b.lastRefill, rate);
      if tokensToAdd > 0 {
        b := b.(tokens := b.tokens + tokensToAdd);
        if b.tokens > burst {
          b := b.(tokens := burst);
        }
        b := b.(lastRefill := now);
      }
      ok := b.tokens > 0;
      if ok {
        b := b.(tokens := b.tokens - 1);
      }
      buckets := buckets[key := b];
    }
  }

  // ---- One key over a run of requests ----

  predicate Ordered(start: Time, times: seq<Time>) {
    && (forall i | 0 <= i < |times| :: start <= times[i])
    && (forall i, j | 0 <= i < j < |times| :: times[i] <= times[j])
  }

  function RunBucket(l: Limits, b: Bucket, times: seq<Time>): Bucket {
    if times == [] then b else Take(l, RunBucket(l, b, times[..|times| - 1]), times[|times| - 1])
  }

  function Admitted(l: Limits, b: Bucket, times: seq<Time>): nat {
    if times == [] then 0
    else Admitted(l, b, times[..|times| - 1])
         + if Admits(l, RunBucket(l, b, times[..|times| - 1]), times[|times| - 1]) then 1 else 0
  }

  /** The clock of a bucket stays between its start and the last request. */
  lemma {:induction false} RefillTimes(l: Limits, b: Bucket, times: seq<Time>)
    requires Ordered(b.lastRefill, times)
    ensures b.lastRefill <= RunBucket(l, b, times).lastRefill
    ensures times != [] ==> RunBucket(l, b, times).lastRefill <= times[|times| - 1]
  {
    if times != [] {
      RefillTimes(l, b, times[..|times| - 1]);
    }
  }

  // ---- The same bucket on the accrual clock, where time is measured in nanoseconds times the rate ----

  /** `mark` is the accrual clock at the last refill; SECOND units of it make one token. */
  datatype Meter = Meter(tokens: int, mark: int)

  function Fill(burst: int, m: Meter, clock: int): Meter {
    var add := (clock - m.mark) / SECOND;
    if add > 0 then Meter(if m.tokens + add > burst then burst else m.tokens + add, clock) else m
  }

  function Draw(burst: int, m: Meter, clock: int): Meter {
    var f := Fill(burst, m, clock);
    if f.tokens > 0 then f.(tokens := f.tokens - 1) else f
  }

  function RunMeter(burst: int, m: Meter, clocks: seq<int>): Meter {
    if clocks == [] then m else Draw(burst, RunMeter(burst, m, clocks[..|clocks| - 1]), clocks[|clocks| - 1])
  }

  function Drawn(burst: int, m: Meter, clocks: seq<int>): nat {
    if clocks == [] then 0
    else Drawn(burst, m, clocks[..|clocks| - 1])
         + if Fill(burst, RunMeter(burst, m, clocks[..|clocks| - 1]), clocks[|clocks| - 1]).tokens > 0 then 1 else 0
  }

  function Scaled(l: Limits, b: Bucket): Meter {
    Meter(b.tokens, b.lastRefill * l.rate)
  }

  function Clocks(l: Limits, times: seq<Time>): seq<int> {
    seq(|times|, i requires 0 <= i < |times| => times[i] * l.rate)
  }

  lemma Product(a: int, b: int)
    requires a >= 0 && b >= 0
    ensures a * b >= 0
  {
  }

  lemma Difference(a: int, b: int, c: int)
    ensures (a - b) * c == a * c - b * c
  {
  }

  lemma RefillScaled(l: Limits, b: Bucket, now: Time)
    requires l.rate >= 0 && b.lastRefill <= now
    ensures b.lastRefill * l.rate <= now * l.rate
    ensures Scaled(l, Refill(l, b, now)) == Fill(l.burst, Scaled(l, b), now * l.rate)
  {
    Product(now - b.lastRefill, l.rate);
    Difference(now, b.lastRefill, l.rate);
  }

  /** A bucket run in time is the metered run on the accrual clock. */
  lemma {:induction false} RunScaled(l: Limits, b: Bucket, times: seq<Time>)
    requires l.rate >= 0 && Ordered(b.lastRefill, times)
    ensures Scaled(l, RunBucket(l, b, times)) == RunMeter(l.burst, Scaled(l, b), Clocks(l, times))
    ensures Admitted(l, b, times) == Drawn(l.burst, Scaled(l, b), Clocks(l, times))
    ensures Ordered(b.lastRefill * l.rate, Clocks(l, times))
  {
    if times != [] {
      var front, now := times[..|times| - 1], times[|times| - 1];
      RunScaled(l, b, front);
      RefillTimes(l, b, front);
      assert Clocks(l, times)[..|front|] == Clocks(l, front);
      RefillScaled(l, RunBucket(l, b, front), now);
      ClockOrdered(l, b.lastRefill, times);
    }
  }

  lemma ClockOrdered(l: Limits, start: Time, times: seq<Time>)
    requires l.rate >= 0 && Ordered(start, times)
    ensures Ordered(start * l.rate, Clocks(l, times))
  {
    forall i, j | 0 <= i <= j < |times|
      ensures start * l.rate <= times[i] * l.rate <= times[j] * l.rate
    {
      Product(times[i] - start, l.rate);
      Difference(times[i], start, l.rate);
      Product(times[j] - times[i], l.rate);
      Difference(times[j], times[i], l.rate);
    }
  }

  /** Tokens held plus tokens drawn never exceed what there was plus what accrued up to the last refill. */
  lemma {:induction false} Ledger(burst: int, m: Meter, clocks: seq<int>)
    requires burst >= 0 && Ordered(m.mark, clocks) && 0 <= m.tokens <= burst
    ensures var m' := RunMeter(burst, m, clocks);
            && 0 <= m'.tokens <= burst && m.mark <= m'.mark
            && (clocks != [] ==> m'.mark <= clocks[|clocks| - 1])
            && Drawn(burst, m, clocks) + m'.tokens <= m.tokens + (m'.mark - m.mark) / SECOND
  {
    if clocks != [] {
      Ledger(burst, m, clocks[..|clocks| - 1]);
    }
  }

  /** Since its creation a bucket admits at most burst plus what the rate yields in the elapsed time. */
  lemma AdmittedSinceCreation(l: Limits, created: Time, times: seq<Time>)
    requires l.rate >= 0 && l.burst >= 0 && times != [] && Ordered(created, times)
    ensures Admitted(l, Bucket(l.burst, created), times) <= l.burst + (times[|times| - 1] - created) * l.rate / SECOND
  {
    var b := Bucket(l.burst, created);
    RunScaled(l, b, times);
    Ledger(l.burst, Scaled(l, b), Clocks(l, times));
    Difference(times[|times| - 1], created, l.rate);
  }

  /** A limiter built with a negative rate or burst never refills beyond what it starts with. */
  lemma {:induction false} DegenerateLimits(l: Limits, created: Time, times: seq<Time>)
    requires (l.rate <= 0 || l.burst <= 0) && Ordered(created, times)
    ensures var b := RunBucket(l, Bucket(l.burst, created), times);
            && b.tokens <= l.burst
            && Admitted(l, Bucket(l.burst, created), times) + (if b.tokens > 0 then b.tokens else 0)
               <= if l.burst > 0 then l.burst else 0
  {
    if times != [] {
      var front := times[..|times| - 1];
      DegenerateLimits(l, created, front);
      RefillTimes(l, Bucket(l.burst, created), front);
      var elapsed := times[|times| - 1] - RunBucket(l, Bucket(l.burst, created), front).lastRefill;
      if l.rate <= 0 {
        Product(elapsed, -l.rate);
        assert elapsed * l.rate <= 0;
      }
    }
  }

  /** In any window, starting from whatever state the bucket is in, fewer than burst + rate*d + 1 requests
      pass, where d is the time from the first to the last request of the window. */
  lemma AdmittedInWindow(l: Limits, b: Bucket, times: seq<Time>)
    requires l.rate >= 0 && l.burst >= 0 && 0 <= b.tokens <= l.burst
    requires times != [] && Ordered(b.lastRefill, times)
    ensures Admitted(l, b, times) * SECOND < (l.burst + 1) * SECOND + (times[|times| - 1] - times[0]) * l.rate
  {
    RunScaled(l, b, times);
    DrawnInWindow(l.burst, Scaled(l, b), Clocks(l, times));
    Difference(times[|times| - 1], times[0], l.rate);
  }

  lemma DrawnInWindow(burst: int, m: Meter, clocks: seq<int>)
    requires burst >= 0 && 0 <= m.tokens <= burst && clocks != [] && Ordered(m.mark, clocks)
    ensures Drawn(burst, m, clocks) * SECOND < (burst + 1) * SECOND + clocks[|clocks| - 1] - clocks[0]
  {
    // Fill at the first request, then run from there: the carry left behind is under one token.
    FillFirst(burst, m, clocks);
    Ledger(burst, Fill(burst, m, clocks[0]), clocks);
  }

  /** Filling ahead of the first request changes nothing. */
  lemma {:induction false} FillFirst(burst: int, m: Meter, clocks: seq<int>)
    requires burst >= 0 && 0 <= m.tokens <= burst && clocks != [] && Ordered(m.mark, clocks)
    ensures var f := Fill(burst, m, clocks[0]);
            && Drawn(burst, f, clocks) == Drawn(burst, m, clocks) && RunMeter(burst, f, clocks) == RunMeter(burst, m, clocks)
  {
    if |clocks| == 1 {
      assert clocks[..0] == [];
      assert RunMeter(burst, m, []) == m;
      assert RunMeter(burst, Fill(burst, m, clocks[0]), []) == Fill(burst, m, clocks[0]);
    } else {
      FillFirst(burst, m, clocks[..|clocks| - 1]);
    }
  }

  // ---- What is not lost ----

  predicate Fits(burst: int, m: Meter, clock: int) {
    m.tokens + (clock - m.mark) / SECOND <= burst
  }

  /** No refill of the run was cut by the burst. */
  predicate NeverCapped(burst: int, m: Meter, clocks: seq<int>) {
    clocks != [] ==>
      && NeverCapped(burst, m, clocks[..|clocks| - 1])
      && Fits(burst, RunMeter(burst, m, clocks[..|clocks| - 1]), clocks[|clocks| - 1])
  }

  /** With room in the bucket, a refill of at least one token credits more than half of what accrued. */
  lemma RefillCreditsHalf(burst: int, m: Meter, clock: int)
    requires m.mark <= clock && Fill(burst, m, clock) != m && Fits(burst, m, clock)
    ensures 2 * (Fill(burst, m, clock).tokens - m.tokens) * SECOND > clock - m.mark
    ensures Fill(burst, m, clock).mark == clock
  {
  }

  lemma {:induction false} DrawnAtLeastHalf(burst: int, m: Meter, clocks: seq<int>)
    requires burst >= 0 && 0 <= m.tokens <= burst && Ordered(m.mark, clocks) && NeverCapped(burst, m, clocks)
    ensures var m' := RunMeter(burst, m, clocks);
            2 * (Drawn(burst, m, clocks) + m'.tokens - m.tokens) * SECOND >= m'.mark - m.mark
  {
    if clocks != [] {
      DrawnAtLeastHalf(burst, m, clocks[..|clocks| - 1]);
      Ledger(burst, m, clocks[..|clocks| - 1]);
    }
  }

  lemma CreditedOnClock(l: Limits, b: Bucket, times: seq<Time>)
    requires l.rate >= 0 && l.burst >= 0 && 0 <= b.tokens <= l.burst && Ordered(b.lastRefill, times)
    requires NeverCapped(l.burst, Scaled(l, b), Clocks(l, times))
    ensures var b' := RunBucket(l, b, times);
            2 * (Admitted(l, b, times) + b'.tokens - b.tokens) * SECOND >= Scaled(l, b').mark - Scaled(l, b).mark
  {
    RunScaled(l, b, times);
    DrawnAtLeastHalf(l.burst, Scaled(l, b), Clocks(l, times));
  }

  lemma MarksApart(l: Limits, b: Bucket, b': Bucket)
    ensures Scaled(l, b').mark - Scaled(l, b).mark == (b'.lastRefill - b.lastRefill) * l.rate
  {
    Difference(b'.lastRefill, b.lastRefill, l.rate);
  }

  /** While the cap never bites, at least half of what the rate yielded up to the last refill was credited:
      it is in the bucket or was spent. */
  lemma AtLeastHalfCredited(l: Limits, b: Bucket, times: seq<Time>)
    requires l.rate >= 0 && l.burst >= 0 && 0 <= b.tokens <= l.burst && Ordered(b.lastRefill, times)
    requires NeverCapped(l.burst, Scaled(l, b), Clocks(l, times))
    ensures var b' := RunBucket(l, b, times);
            2 * (Admitted(l, b, times) + b'.tokens - b.tokens) * SECOND >= (b'.lastRefill - b.lastRefill) * l.rate
  {
    CreditedOnClock(l, b, times);
    MarksApart(l, b, RunBucket(l, b, times));
  }

  /** A request is denied if and only if the bucket is empty and less than one token accrued since its
      last refill (or the burst is zero and nothing is ever admitted). */
  lemma DeniedExactly(l: Limits, b: Bucket, now: Time)
    requires l.rate >= 0 && l.burst >= 0 && 0 <= b.tokens <= l.burst && b.lastRefill <= now
    ensures !Admits(l, b, now) <==> l.burst == 0 || (b.tokens == 0 && (now - b.lastRefill) * l.rate < SECOND)
  {
    Product(now - b.lastRefill, l.rate);
  }

  // ---- Bursts ----

  /** n requests at one instant. */
  function AtOnce(now: Time, n: nat): seq<Time> {
    seq(n, i => now)
  }

  /** A second refill at the same instant adds nothing. */
  lemma RefilledStays(l: Limits, b: Bucket, now: Time, tokens: int)
    requires l.rate >= 0 && b.lastRefill <= now
    ensures var r := Refill(l, b, now).(tokens := tokens); Refill(l, r, now) == r
  {
    Product(now - b.lastRefill, l.rate);
  }

  lemma {:induction false} BurstState(l: Limits, b: Bucket, now: Time, n: nat)
    requires l.rate >= 0 && l.burst >= 0 && 0 <= b.tokens <= l.burst && b.lastRefill <= now
    ensures var full := Refill(l, b, now).tokens;
            && full >= 0
            && Admitted(l, b, AtOnce(now, n)) == (if n <= full then n else full)
            && (n > 0 ==> RunBucket(l, b, AtOnce(now, n))
                          == Refill(l, b, now).(tokens := if n <= full then full - n else 0))
  {
    if n > 0 {
      assert AtOnce(now, n)[..n - 1] == AtOnce(now, n - 1);
      BurstState(l, b, now, n - 1);
      var full := Refill(l, b, now).tokens;
      RefilledStays(l, b, now, if n - 1 <= full then full - (n - 1) else 0);
    }
  }

  lemma RefillIs(l: Limits, b: Bucket, now: Time)
    requires l.rate >= 0 && l.burst >= 0 && 0 <= b.tokens <= l.burst && b.lastRefill <= now
    ensures var held := b.tokens + (now - b.lastRefill) * l.rate / 1_000_000_000;
            Refill(l, b, now).tokens == if held <= l.burst then held else l.burst
  {
    Product(now - b.lastRefill, l.rate);
  }

  /** Of n requests at one instant exactly as many pass as there are tokens: those held, and one for each full
      rate-th of a second since the last refill, up to the burst. */
  lemma BurstExactly(l: Limits, b: Bucket, now: Time, n: nat)
    requires l.rate >= 0 && l.burst >= 0 && 0 <= b.tokens <= l.burst && b.lastRefill <= now
    ensures var held := b.tokens + (now - b.lastRefill) * l.rate / 1_000_000_000;
            var full := if held <= l.burst then held else l.burst;
            Admitted(l, b, AtOnce(now, n)) == if n <= full then n else full
  {
    BurstState(l, b, now, n);
    RefillIs(l, b, now);
  }

  // ---- Many keys ----

  datatype Request = Request(peerID: string, methodName: string, created: Time, now: Time)

  /** The limiter's buckets after a run of requests on any keys; matches TokenBucketLimiter.Allow. */
  function RunLimiter(l: Limits, requests: seq<Request>): map<string, Bucket> {
    if requests == [] then map[]
    else
      var bs := RunLimiter(l, requests[..|requests| - 1]);
      var q := requests[|requests| - 1];
      var key := Key(q.peerID, q.methodName);
      bs[key := Take(l, Lookup(bs, key, Bucket(l.burst, q.created)), q.now)]
  }

  function AdmittedFor(l: Limits, requests: seq<Request>, key: string): nat {
    if requests == [] then 0
    else
      var bs := RunLimiter(l, requests[..|requests| - 1]);
      var q := requests[|requests| - 1];
      AdmittedFor(l, requests[..|requests| - 1], key) +
      if Key(q.peerID, q.methodName) == key && Admits(l, Lookup(bs, key, Bucket(l.burst, q.created)), q.now) then 1 else 0
  }

  /** The requests of one key, in order. */
  function For(requests: seq<Request>, key: string): seq<Request> {
    if requests == [] then []
    else
      var q := requests[|requests| - 1];
      For(requests[..|requests| - 1], key) + if Key(q.peerID, q.methodName) == key then [q] else []
  }

  function Times(requests: seq<Request>): seq<Time> {
    seq(|requests|, i requires 0 <= i < |requests| => requests[i].now)
  }

  lemma RunBucketAppend(l: Limits, b: Bucket, times: seq<Time>, now: Time)
    ensures RunBucket(l, b, times + [now]) == Take(l, RunBucket(l, b, times), now)
    ensures Admitted(l, b, times + [now])
            == Admitted(l, b, times) + if Admits(l, RunBucket(l, b, times), now) then 1 else 0
  {
    assert (times + [now])[..|times|] == times;
  }

  /** The key's own requests account for its bucket and its admissions. */
  ghost predicate Alone(l: Limits, bs: map<string, Bucket>, admitted: nat, key: string, mine: seq<Request>) {
    if mine == [] then key !in bs && admitted == 0
    else
      var b := Bucket(l.burst, mine[0].created);
      key in bs && bs[key] == RunBucket(l, b, Times(mine)) && admitted == Admitted(l, b, Times(mine))
  }

  lemma AloneStep(l: Limits, bs: map<string, Bucket>, admitted: nat, key: string, mine: seq<Request>, q: Request)
    requires Alone(l, bs, admitted, key, mine)
    ensures var m := Lookup(bs, key, Bucket(l.burst, q.created));
            Alone(l, bs[key := Take(l, m, q.now)], admitted + (if Admits(l, m, q.now) then 1 else 0), key, mine + [q])
  {
    var b := Bucket(l.burst, (mine + [q])[0].created);
    var m := Lookup(bs, key, Bucket(l.burst, q.created));
    assert Times(mine + [q]) == Times(mine) + [q.now];
    RunBucketAppend(l, b, Times(mine), q.now);
    if mine == [] { assert Times(mine) == [] && RunBucket(l, b, []) == b && m == b; }
  }

  lemma OthersLeaveAlone(l: Limits, bs: map<string, Bucket>, admitted: nat, key: string, mine: seq<Request>,
                         other: string, b: Bucket)
    requires Alone(l, bs, admitted, key, mine) && other != key
    ensures Alone(l, bs[other := b], admitted, key, mine)
  {
  }

  /** Whatever other keys do in between, a key fares as if it were alone. */
  lemma {:induction false} KeysAreIndependent(l: Limits, requests: seq<Request>, key: string)
    ensures Alone(l, RunLimiter(l, requests), AdmittedFor(l, requests, key), key, For(requests, key))
  {
    if requests != [] {
      var front, q := requests[..|requests| - 1], requests[|requests| - 1];
      KeysAreIndependent(l, front, key);
      var bs, admitted, mine := RunLimiter(l, front), AdmittedFor(l, front, key), For(front, key);
      var used := Key(q.peerID, q.methodName);
      var b := Take(l, Lookup(bs, used, Bucket(l.burst, q.created)), q.now);
      assert RunLimiter(l, requests) == bs[used := b];
      if used == key {
        AloneStep(l, bs, admitted, key, mine, q);
        assert For(requests, key) == mine + [q];
      } else {
        OthersLeaveAlone(l, bs, admitted, key, mine, used, b);
        assert For(requests, key) == mine;
      }
    }
  }

  /** The bound holds for every key of a limiter shared by any number of peers and methods. */
  lemma LimiterBound(l: Limits, requests: seq<Request>, key: string)
    requires l.rate >= 0 && l.burst >= 0
    requires var mine := For(requests, key); mine != [] && Ordered(mine[0].created, Times(mine))
    ensures var mine := For(requests, key);
            AdmittedFor(l, requests, key) <= l.burst + (mine[|mine| - 1].now - mine[0].created) * l.rate / SECOND
  {
    KeysAreIndependent(l, requests, key);
    AdmittedSinceCreation(l, For(requests, key)[0].created, Times(For(requests, key)));
  }

  lemma {:induction false} RunBucketSplit(l: Limits, b: Bucket, xs: seq<Time>, ys: seq<Time>)
    ensures RunBucket(l, b, xs + ys) == RunBucket(l, RunBucket(l, b, xs), ys)
    ensures Admitted(l, b, xs + ys) == Admitted(l, b, xs) + Admitted(l, RunBucket(l, b, xs), ys)
  {
    if ys == [] {
      assert xs + ys == xs;
    } else {
      assert (xs + ys)[..|xs + ys| - 1] == xs + ys[..|ys| - 1];
      RunBucketSplit(l, b, xs, ys[..|ys| - 1]);
    }
  }

  lemma {:induction false} ForSplit(before: seq<Request>, window: seq<Request>, key: string)
    ensures For(before + window, key) == For(before, key) + For(window, key)
  {
    if window == [] {
      assert before + window == before;
    } else {
      assert (before + window)[..|before + window| - 1] == before + window[..|window| - 1];
      ForSplit(before, window[..|window| - 1], key);
    }
  }

  /** A bucket that has run from full stays within 0 and burst, its clock not ahead of the next request. */
  lemma BucketInRange(l: Limits, created: Time, times: seq<Time>)
    requires l.rate >= 0 && l.burst >= 0 && Ordered(created, times)
    ensures 0 <= RunBucket(l, Bucket(l.burst, created), times).tokens <= l.burst
    ensures created <= RunBucket(l, Bucket(l.burst, created), times).lastRefill
    ensures times != [] ==> RunBucket(l, Bucket(l.burst, created), times).lastRefill <= times[|times| - 1]
  {
    var b := Bucket(l.burst, created);
    RunScaled(l, b, times);
    Ledger(l.burst, Scaled(l, b), Clocks(l, times));
    RefillTimes(l, b, times);
  }

  /** Fewer than burst + rate*elapsed + 1. */
  predicate WithinWindow(l: Limits, admitted: int, elapsed: Time) {
    admitted * SECOND < (l.burst + 1) * SECOND + elapsed * l.rate
  }

  lemma WindowOfBucket(l: Limits, created: Time, xs: seq<Time>, ys: seq<Time>)
    requires l.rate >= 0 && l.burst >= 0 && ys != [] && Ordered(created, xs + ys)
    ensures var b := Bucket(l.burst, created);
            WithinWindow(l, Admitted(l, b, xs + ys) - Admitted(l, b, xs), ys[|ys| - 1] - ys[0])
  {
    var b := Bucket(l.burst, created);
    assert forall i | 0 <= i < |xs| :: (xs + ys)[i] == xs[i];
    assert forall i | 0 <= i < |ys| :: (xs + ys)[|xs| + i] == ys[i];
    BucketInRange(l, created, xs);
    RunBucketSplit(l, b, xs, ys);
    AdmittedInWindow(l, RunBucket(l, b, xs), ys);
  }

  lemma TimesConcat(xs: seq<Request>, ys: seq<Request>)
    ensures Times(xs + ys) == Times(xs) + Times(ys)
  {
  }

  lemma WindowOfRequests(l: Limits, created: Time, earlier: seq<Request>, mine: seq<Request>)
    requires l.rate >= 0 && l.burst >= 0 && mine != [] && Ordered(created, Times(earlier + mine))
    ensures var b := Bucket(l.burst, created);
            WithinWindow(l, Admitted(l, b, Times(earlier + mine)) - Admitted(l, b, Times(earlier)),
                         mine[|mine| - 1].now - mine[0].now)
  {
    TimesConcat(earlier, mine);
    WindowOfBucket(l, created, Times(earlier), Times(mine));
  }

  lemma AdmittedForKey(l: Limits, requests: seq<Request>, key: string, created: Time)
    requires var mine := For(requests, key); mine != [] ==> created == mine[0].created
    ensures AdmittedFor(l, requests, key) == Admitted(l, Bucket(l.burst, created), Times(For(requests, key)))
  {
    KeysAreIndependent(l, requests, key);
  }

  /** So does the window bound: whatever went before on whatever keys, any stretch of requests admits for
      one key fewer than burst + rate*d + 1, d being the time between that key's first and last in it. */
  lemma LimiterWindowBound(l: Limits, before: seq<Request>, window: seq<Request>, key: string)
    requires l.rate >= 0 && l.burst >= 0 && For(window, key) != []
    requires var all := For(before + window, key); all != [] ==> Ordered(all[0].created, Times(all))
    ensures var mine := For(window, key);
            WithinWindow(l, AdmittedFor(l, before + window, key) - AdmittedFor(l, before, key),
                         mine[|mine| - 1].now - mine[0].now)
  {
    ForSplit(before, window, key);
    var created := For(before + window, key)[0].created;
    AdmittedForKey(l, before, key, created);
    AdmittedForKey(l, before + window, key, created);
    WindowOfRequests(l, created, For(before, key), For(window, key));
  }

  /** One (peer, method) pair takes over the start of another's peer id across a colon. */
  predicate Straddles(p: string, m: string, q: string, n: string) {
    |p| < |q| && q[..|p|] == p && q[|p|] == ':' && m == q[|p| + 1..] + ":" + n
  }

  /** Two pairs share a bucket if and only if they are equal or one peer id continues the other after a colon. */
  lemma SharedKeyExactly(p: string, m: string, q: string, n: string)
    ensures Key(p, m) == Key(q, n) <==> (p == q && m == n) || Straddles(p, m, q, n) || Straddles(q, n, p, m)
  {
    if Key(p, m) == Key(q, n) {
      SharedKeySplits(p, m, q, n);
    }
    if Straddles(p, m, q, n) {
      assert q == p + ":" + q[|p| + 1..];
      assert Key(q, n) == p + ":" + (q[|p| + 1..] + ":" + n);
    }
    if Straddles(q, n, p, m) {
      assert p == q + ":" + p[|q| + 1..];
      assert Key(p, m) == q + ":" + (p[|q| + 1..] + ":" + m);
    }
  }

  lemma SharedKeySplits(p: string, m: string, q: string, n: string)
    requires Key(p, m) == Key(q, n)
    ensures (p == q && m == n) || Straddles(p, m, q, n) || Straddles(q, n, p, m)
  {
    var k := Key(p, m);
    assert k[..|p|] == p && k[|p|] == ':' && k[|p| + 1..] == m;
    assert k[..|q|] == q && k[|q|] == ':' && k[|q| + 1..] == n;
    if |p| < |q| {
      assert q[..|p|] == k[..|p|] && q[|p|] == k[|p|];
      assert m == k[|p| + 1..|q|] + k[|q|..] && k[|q|..] == ":" + n;
    } else if |q| < |p| {
      assert p[..|q|] == k[..|q|] && p[|q|] == k[|q|];
      assert n == k[|q| + 1..|p|] + k[|p|..] && k[|p|..] == ":" + m;
    }
  }

  /** So pairs whose peer ids hold no colon have buckets of their own. */
  lemma ColonFreePeersAreSeparate(p: string, m: string, q: string, n: string)
    requires ':' !in p && ':' !in q && (p != q || m != n)
    ensures Key(p, m) != Key(q, n)
  {
    SharedKeyExactly(p, m, q, n);
  }

  // ---- Concurrency limiter ----

  predicate Permits(current: map<string, int>, key: string, max: int) {
    Lookup(current, key, 0) < max
  }

  function Acquired(current: map<string, int>, key: string): map<string, int> {
    current[key := Lookup(current, key, 0) + 1]
  }

  /** The clamp at zero keeps an unmatched release from going negative. */
  function Released(current: map<string, int>, key: string): map<string, int> {
    if Lookup(current, key, 0) > 0 then current[key := current[key] - 1] else current
  }

  /** The limiter's counts after n requests for permits of one key. */
  function AfterRequests(key: string, max: int, n: nat): map<string, int> {
    if n == 0 then map[]
    else
      var before := AfterRequests(key, max, n - 1);
      if Permits(before, key, max) then Acquired(before, key) else before
  }

  lemma {:induction false} RequestsCounted(key: string, max: int, n: nat)
    requires max >= 0
    ensures Lookup(AfterRequests(key, max, n), key, 0) == if n <= max then n else max
  {
    if n > 0 { RequestsCounted(key, max, n - 1); }
  }

  /** Of consecutive requests for one key exactly the first max get a permit, and once they are out each permit
      given back makes room for one more. */
  lemma PermitsExactly(key: string, max: int, n: nat)
    requires max >= 0
    ensures Permits(AfterRequests(key, max, n), key, max) <==> n < max
    ensures n >= max >= 1 ==>
              var freed := Released(AfterRequests(key, max, n), key);
              Permits(freed, key, max) && !Permits(Acquired(freed, key), key, max)
  {
    RequestsCounted(key, max, n);
  }

  /** Other keys neither use up permits nor free any. */
  lemma PermitsOfOneKey(current: map<string, int>, key: string, other: string, max: int)
    requires key != other
    ensures Permits(Acquired(current, other), key, max) <==> Permits(current, key, max)
    ensures Permits(Released(current, other), key, max) <==> Permits(current, key, max)
  {
  }

  class ConcurrencyLimiter {
    const maxConcurrent: int
    var current: map<string, int>

    ghost predicate Valid()
      reads this
    {
      forall key | key in current :: 0 <= current[key]
    }

    constructor (max: int)
      ensures Valid() && maxConcurrent == max && current == map[]
    {
      maxConcurrent, current := max, map[];
    }

    method Allow(peerID: string, methodName: string) returns (ok: bool)
      requires Valid()
      modifies this
      ensures Valid()
      ensures ok == Permits(old(current), Key(peerID, methodName), maxConcurrent)
      ensures current == if ok then Acquired(old(current), Key(peerID, methodName)) else old(current)
    {
      var key := peerID + ":" + methodName;
      ok := Lookup(current, key, 0) < maxConcurrent;
      if ok {
        current := current[key := Lookup(current, key, 0) + 1];
      }
    }

    method Release(peerID: string, methodName: string)
      requires Valid()
      modifies this
      ensures Valid()
      ensures current == Released(old(current), Key(peerID, methodName))
    {
      var key := peerID + ":" + methodName;
      if Lookup(current, key, 0) > 0 {
        current := current[key := current[key] - 1];
      }
    }
  }
}
