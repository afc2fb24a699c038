// The token bucket that paces requests: the class as one caller runs it, and the schedule of
// grants it keeps. Time is real; the clock never runs backwards and a sleep may overshoot.
module RateLimit {

  // The fields of the limiter: tokens per second, tokens in the bucket, time of the last refill.
  datatype Bucket = Bucket(rate: real, tokens: real, last: real)

  // One completed wait: when the caller read the clock under the lock, and when it was let go.
  datatype Grant = Grant(acquired: real, at: real)

  function Min(x: real, y: real): real { if x < y then x else y }
  function Max(x: real, y: real): real { if x < y then y else x }

  // ---------------------------------------------------------------- what a wait does

  // Tokens earned since the last refill, never more than one in all.
  function Refill(b: Bucket, now: real): Bucket {
    b.(tokens := Min(1.0, b.tokens + (now - b.last) * b.rate), last := now)
  }

  lemma RefillBy(b: Bucket, r: Bucket, now: real, elapsed: real)
    requires elapsed == now - b.last
    requires r == Bucket(b.rate, Min(1.0, b.tokens + elapsed * b.rate), now)
    ensures r == Refill(b, now)
  {
  }

  // How long the rest of a token takes.
  function Need(b: Bucket): real
    requires b.rate > 0.0
  {
    (1.0 - b.tokens) / b.rate
  }

  // A wait that read the clock at `acquired` and let its caller go at `at`.
  ghost predicate WaitEffect(b: Bucket, acquired: real, at: real, b': Bucket)
    requires b.rate > 0.0
  {
    var r := Refill(b, acquired);
    if r.tokens < 1.0 then at >= acquired + Need(r) && b' == Bucket(b.rate, 0.0, at)
    else at == acquired && b' == r.(tokens := r.tokens - 1.0)
  }

  lemma NeedOf(b: Bucket, need: real)
    requires b.rate > 0.0 && b.tokens < 1.0 && need == (1.0 - b.tokens) / b.rate
    ensures need == Need(b) > 0.0
  {
  }

  lemma WaitGranted(b: Bucket, r: Bucket, acquired: real, at: real, b': Bucket)
    requires b.rate > 0.0 && r == Refill(b, acquired)
    requires if r.tokens < 1.0 then at >= acquired + Need(r) && b' == Bucket(b.rate, 0.0, at)
             else at == acquired && b' == r.(tokens := r.tokens - 1.0)
    ensures WaitEffect(b, acquired, at, b')
  {
  }

  // ---------------------------------------------------------------- the schedule

  // The first caller is let go at once. Every later one is let go at least a period after the one
  // before, and at once if the period is already over.
  ghost predicate OnSchedule(grants: seq<Grant>, rate: real) {
    forall k :: 0 <= k < |grants| ==>
      && grants[k].at >= grants[k].acquired
      && (k == 0 ==> grants[k].at == grants[k].acquired)
      && (k > 0 ==> Follows(grants[k - 1].at, grants[k], rate))
  }

  ghost predicate Follows(previous: real, g: Grant, rate: real) {
    && g.acquired >= previous
    && (g.at - previous) * rate >= 1.0
    && ((g.acquired - previous) * rate >= 1.0 ==> g.at == g.acquired)
  }

  // The bucket of a limiter nobody is inside of: full before the first grant, empty since the last.
  ghost predicate Settled(b: Bucket, grants: seq<Grant>) {
    && b.rate > 0.0
    && OnSchedule(grants, b.rate)
    && if grants == [] then b.tokens == 1.0 else b.tokens == 0.0 && b.last == grants[|grants| - 1].at
  }

  lemma LastFollows(b: Bucket, grants: seq<Grant>)
    requires Settled(b, grants) && |grants| >= 2
    ensures Follows(grants[|grants| - 2].at, grants[|grants| - 1], b.rate)
  {
  }

  lemma SleepCoversNeed(elapsed: real, slept: real, rate: real)
    requires rate > 0.0 && slept >= (1.0 - elapsed * rate) / rate
    ensures (elapsed + slept) * rate >= 1.0
  {
    assert slept * rate >= (1.0 - elapsed * rate) / rate * rate;
  }

  lemma FirstWait(b: Bucket, acquired: real)
    requires b.rate > 0.0 && b.tokens == 1.0 && acquired >= b.last
    ensures Refill(b, acquired).tokens == 1.0
  {
    assert (acquired - b.last) * b.rate >= 0.0;
  }

  // Every wait keeps the schedule, and leaves the bucket exactly empty.
  lemma {:induction false} WaitKeepsSchedule(b: Bucket, grants: seq<Grant>, acquired: real, at: real, b': Bucket)
    requires Settled(b, grants) && acquired >= b.last
    requires WaitEffect(b, acquired, at, b')
    ensures Settled(b', grants + [Grant(acquired, at)])
    ensures b'.tokens == 0.0 && b'.last == at >= acquired
  {
    var r, grants' := Refill(b, acquired), grants + [Grant(acquired, at)];
    if grants == [] {
      FirstWait(b, acquired);
    } else if r.tokens < 1.0 {
      WaitSleeps(b, acquired, at);
    }
    assert forall k :: 0 <= k < |grants| ==> grants'[k] == grants[k];
  }

  lemma {:induction false} WaitSleeps(b: Bucket, acquired: real, at: real)
    requires b.rate > 0.0 && b.tokens == 0.0 && acquired >= b.last
    requires Refill(b, acquired).tokens < 1.0 && at >= acquired + Need(Refill(b, acquired))
    ensures Follows(b.last, Grant(acquired, at), b.rate) && at >= acquired
  {
    var elapsed, slept := acquired - b.last, at - acquired;
    assert Refill(b, acquired).tokens == elapsed * b.rate;
    assert slept >= (1.0 - elapsed * b.rate) / b.rate;
    assert (1.0 - elapsed * b.rate) / b.rate > 0.0;
    SleepCoversNeed(elapsed, slept, b.rate);
    assert elapsed + slept == at - b.last;
  }

  // The closed form of the schedule: the later of the caller's own time and one period after the
  // grant before.
  function Due(grants: seq<Grant>, acquired: real, rate: real): real
    requires rate > 0.0
  {
    if grants == [] then acquired else Max(acquired, grants[|grants| - 1].at + 1.0 / rate)
  }

  // A sleeper asks for exactly the rest of the period, so a sleep of the requested length ends at
  // the due time, and a caller that does not sleep was due already.
  lemma WaitIsDue(b: Bucket, grants: seq<Grant>, acquired: real)
    requires Settled(b, grants) && acquired >= b.last
    ensures var r := Refill(b, acquired);
            Due(grants, acquired, b.rate) == if r.tokens < 1.0 then acquired + Need(r) else acquired
  {
    var rate := b.rate;
    if grants == [] {
      FirstWait(b, acquired);
    } else {
      var elapsed := acquired - b.last;
      assert (1.0 - elapsed * rate) / rate == 1.0 / rate - elapsed by {
        assert (1.0 / rate - elapsed) * rate == 1.0 - elapsed * rate;
      }
      if elapsed * rate >= 1.0 {
        assert elapsed >= 1.0 / rate;
      }
    }
  }

  // A wait never lets its caller go before the due time.
  lemma NotBeforeDue(b: Bucket, grants: seq<Grant>, acquired: real, at: real, b': Bucket)
    requires Settled(b, grants) && acquired >= b.last && WaitEffect(b, acquired, at, b')
    ensures at >= Due(grants, acquired, b.rate)
  {
    hide Settled, Due, Need;
    WaitIsDue(b, grants, acquired);
  }

  // All the sleep a schedule asks for: from each caller's own time to its due time.
  function Asked(grants: seq<Grant>, rate: real): real {
    if rate <= 0.0 || grants == [] then 0.0
    else
      var init, last := grants[..|grants| - 1], grants[|grants| - 1];
      Asked(init, rate) + (Due(init, last.acquired, rate) - last.acquired)
  }

  lemma AskedNext(grants: seq<Grant>, g: Grant, rate: real)
    ensures Asked(grants + [g], rate) ==
            Asked(grants, rate) + if rate > 0.0 then Due(grants, g.acquired, rate) - g.acquired else 0.0
  {
    assert (grants + [g])[..|grants|] == grants;
  }

  // Nobody is asked to sleep for longer than a period.
  lemma {:induction false} AskedBounds(grants: seq<Grant>, n: nat, rate: real)
    requires rate > 0.0 && OnSchedule(grants, rate) && n <= |grants|
    ensures 0.0 <= Asked(grants, rate) - Asked(grants[..n], rate) <= (|grants| - n) as real / rate
    decreases |grants|
  {
    hide Asked, Follows;
    if n == |grants| {
      assert grants[..n] == grants;
    } else {
      var init, last := grants[..|grants| - 1], grants[|grants| - 1];
      assert grants == init + [last] && init[..n] == grants[..n];
      AskedBounds(init, n, rate);
      AskedNext(init, last, rate);
      AtMostOnePeriod(grants, rate);
      OnePeriodMore(|init| - n, rate);
    }
  }

  lemma AtMostOnePeriod(grants: seq<Grant>, rate: real)
    requires rate > 0.0 && OnSchedule(grants, rate) && grants != []
    ensures var acquired := grants[|grants| - 1].acquired;
            0.0 <= Due(grants[..|grants| - 1], acquired, rate) - acquired <= 1.0 / rate
  {
    assert 1.0 / rate > 0.0;
  }

  lemma OnePeriodMore(n: int, rate: real)
    requires rate > 0.0
    ensures (n + 1) as real / rate == n as real / rate + 1.0 / rate
  {
    assert (n as real / rate + 1.0 / rate) * rate == (n + 1) as real;
  }

  // ---------------------------------------------------------------- consequences for every run

  // Grants i and j are at least j - i periods apart.
  lemma {:induction false} GrantsApart(grants: seq<Grant>, rate: real, i: nat, j: nat)
    requires rate > 0.0 && OnSchedule(grants, rate) && i <= j < |grants|
    ensures (grants[j].at - grants[i].at) * rate >= (j - i) as real
    decreases j
  {
    if i < j {
      GrantsApart(grants, rate, i, j - 1);
      var x, y := grants[j - 1].at - grants[i].at, grants[j].at - grants[j - 1].at;
      assert Follows(grants[j - 1].at, grants[j], rate);
      assert (x + y) * rate == x * rate + y * rate;
    }
  }

  // Grants in the closed window from lo to hi.
  function CountIn(grants: seq<Grant>, lo: real, hi: real): nat {
    if grants == [] then 0
    else
      var last := grants[|grants| - 1].at;
      CountIn(grants[..|grants| - 1], lo, hi) + if lo <= last <= hi then 1 else 0
  }

  // How much of the window lies before time t.
  function Span(lo: real, hi: real, t: real): real { Min(t, hi) - lo }

  lemma SpanBounds(lo: real, hi: real, t: real)
    ensures Span(lo, hi, t) <= hi - lo
    ensures lo <= t <= hi ==> Span(lo, hi, t) >= 0.0
  {
  }

  // All but the first grant of a window have a period of their own inside of it.
  lemma {:induction false} WindowSpan(grants: seq<Grant>, rate: real, lo: real, hi: real)
    requires rate > 0.0 && OnSchedule(grants, rate) && CountIn(grants, lo, hi) >= 1
    ensures grants != []
    ensures Span(lo, hi, grants[|grants| - 1].at) * rate >= (CountIn(grants, lo, hi) - 1) as real
  {
    hide Span, Follows;
    var init, last := grants[..|grants| - 1], grants[|grants| - 1].at;
    var n := CountIn(init, lo, hi);
    if n >= 1 {
      WindowSpan(init, rate, lo, hi);
      assert Follows(init[|init| - 1].at, grants[|init|], rate);
      WindowStep(init[|init| - 1].at, grants[|init|], hi, lo, rate, n - 1);
    } else {
      SpanBounds(lo, hi, last);
      Sign(Span(lo, hi, last), rate);
    }
  }

  lemma WindowStep(previous: real, g: Grant, hi: real, lo: real, rate: real, n: int)
    requires rate > 0.0 && n >= 0 && Follows(previous, g, rate)
    requires Span(lo, hi, previous) * rate >= n as real
    ensures Span(lo, hi, g.at) * rate >= (n + if lo <= g.at <= hi then 1 else 0) as real
  {
    hide Span;
    var period, before := g.at - previous, Span(lo, hi, previous);
    Sign(period, rate);
    Sign(before, rate);
    SpanGrows(lo, hi, previous, g.at);
    if g.at <= hi {
      Distribute(period, before, rate);
    } else {
      Monotone(before, Span(lo, hi, g.at), rate);
    }
  }

  lemma SpanGrows(lo: real, hi: real, s: real, t: real)
    requires s <= t
    ensures Span(lo, hi, s) <= Span(lo, hi, t)
    ensures t <= hi ==> Span(lo, hi, t) == (t - s) + Span(lo, hi, s)
  {
  }

  lemma Distribute(x: real, y: real, rate: real)
    ensures (x + y) * rate == x * rate + y * rate
  {
  }

  lemma Sign(x: real, rate: real)
    requires rate > 0.0
    ensures x < 0.0 ==> x * rate < 0.0
    ensures x == 0.0 ==> x * rate == 0.0
    ensures x > 0.0 ==> x * rate > 0.0
  {
  }

  lemma Monotone(x: real, y: real, rate: real)
    requires rate > 0.0 && x <= y
    ensures x * rate <= y * rate
  {
    Sign(y - x, rate);
    assert y * rate == x * rate + (y - x) * rate;
  }

  lemma FloorAtLeast(x: real, n: int)
    requires x >= n as real
    ensures x.Floor >= n
  {
  }

  // The most grants a closed window of length w can see.
  function Allowance(w: real, rate: real): int {
    (w * rate).Floor + 1
  }

  lemma WindowBound(grants: seq<Grant>, rate: real, lo: real, hi: real)
    requires rate > 0.0 && OnSchedule(grants, rate) && lo <= hi
    ensures CountIn(grants, lo, hi) <= Allowance(hi - lo, rate)
  {
    hide Span, CountIn, Allowance;
    var n := CountIn(grants, lo, hi);
    if n >= 1 {
      WindowSpan(grants, rate, lo, hi);
      var span := Span(lo, hi, grants[|grants| - 1].at);
      SpanBounds(lo, hi, grants[|grants| - 1].at);
      AllowanceCovers(n, span, hi - lo, rate);
    } else {
      Sign(0.0, rate);
      AllowanceCovers(0, 0.0, hi - lo, rate);
    }
  }

  lemma AllowanceCovers(n: int, span: real, w: real, rate: real)
    requires rate > 0.0 && span <= w && span * rate >= (n - 1) as real
    ensures n <= Allowance(w, rate)
  {
    Monotone(span, w, rate);
    FloorAtLeast(w * rate, n - 1);
  }

  // ---------------------------------------------------------------- the class

  // The steady clock, and the sleeps measured by it. Other things take time too, so each reading
  // may be later than the one before. The clock keeps count of the sleep that was asked for.
  class Clock {
    var now: real
    ghost var requested: real

    constructor ()
    {
    }

    method Read() returns (t: real)
      modifies this
      ensures t == now >= old(now) && requested == old(requested)
    {
      var dt: real := *;
      now := now + Max(0.0, dt);
      t := now;
    }

    method SleepFor(duration: real)
      modifies this
      ensures requested == old(requested) + Max(0.0, duration)
      ensures now >= old(now) + Max(0.0, duration)
    {
      var overshoot: real := *;
      requested := requested + Max(0.0, duration);
      now := now + Max(0.0, duration) + Max(0.0, overshoot);
    }
  }

  class RateLimiter {
    var rate: real
    var tokens: real
    var last: real
    ghost var grants: seq<Grant>

    ghost function View(): Bucket
      reads this
    {
      Bucket(rate, tokens, last)
    }

    ghost predicate Valid(clock: Clock)
      reads this, clock
    {
      && rate >= 0.0
      && (rate == 0.0 ==> grants == [])
      && (rate > 0.0 ==> Settled(View(), grants) && last <= clock.now)
    }

    constructor (requestsPerMinute: real, clock: Clock)
      modifies clock
      ensures Valid(clock) && grants == [] && clock.now >= old(clock.now) && clock.requested == old(clock.requested)
      ensures rate == if requestsPerMinute <= 0.0 then 0.0 else requestsPerMinute / 60.0
    {
      rate, tokens, last := 0.0, 1.0, 0.0;
      grants := [];
      new;
      if requestsPerMinute <= 0.0 {
        rate := 0.0;
        return;
      }
      rate := requestsPerMinute / 60.0;
      tokens := 1.0;
      last := clock.Read();
    }

    method RequestsPerMinute() returns (rpm: real)
      ensures rpm == rate * 60.0
    {
      rpm := rate * 60.0;
    }

    // A disabled limiter lets everybody through. An enabled one adds one grant to its schedule, at
    // the time the clock shows when the caller returns. It never lets a caller go before the due time,
    // and asks for exactly the sleep that ends then: if no other time passes, the grant is at the due time.
    method Wait(clock: Clock)
      requires Valid(clock)
      modifies this, clock
      ensures Valid(clock) && rate == old(rate) && clock.now >= old(clock.now)
      ensures rate == 0.0 ==>
        View() == old(View()) && grants == old(grants)
        && clock.now == old(clock.now) && clock.requested == old(clock.requested)
      ensures rate > 0.0 ==>
        && |grants| == |old(grants)| + 1 && grants[..|old(grants)|] == old(grants)
        && var g := grants[|old(grants)|];
           && old(clock.now) <= g.acquired <= g.at == clock.now
           && WaitEffect(old(View()), g.acquired, g.at, View())
           && clock.requested - old(clock.requested) == Due(old(grants), g.acquired, rate) - g.acquired
           && g.at >= Due(old(grants), g.acquired, rate)
           && (clock.now - clock.requested == old(clock.now - clock.requested) ==>
                 g.acquired == old(clock.now) && g.at == Due(old(grants), g.acquired, rate))
    {
      hide Refill, Settled, WaitEffect, Due, Need;
      if rate == 0.0 {
        return;
      }
      ghost var before := View();
      var now := clock.Read();
      var elapsed := now - last;
      last := now;
      tokens := Min(1.0, tokens + elapsed * rate);
      ghost var refilled := View();
      RefillBy(before, refilled, now, elapsed);
      WaitIsDue(before, grants, now);
      if tokens < 1.0 {
        var need := (1.0 - tokens) / rate;
        NeedOf(refilled, need);
        clock.SleepFor(need);
        last := clock.Read();
        tokens := 0.0;
      } else {
        tokens := tokens - 1.0;
      }
      grants := grants + [Grant(now, clock.now)];
      WaitGranted(before, refilled, now, clock.now, View());
      WaitKeepsSchedule(before, old(grants), now, clock.now, View());
      NotBeforeDue(before, old(grants), now, clock.now, View());
    }
  }
}
