// The limiter under contention: any number of callers, one mutex, held across the sleep.
//
// A caller blocks on the mutex, acquires it, reads the clock, and either takes the token at once
// or sleeps with the mutex in hand; then it releases. The scheduler decides who goes next and how
// far the clock moves in between.
module Interleaving {
  import opened RateLimit

  datatype Mutex =
    | Free
    | Asleep(owner: nat, acquired: real, wakeAt: real)
    | Leaving(owner: nat)

  datatype State = State(clock: real, mutex: Mutex, blocked: set<nat>, bucket: Bucket, grants: seq<Grant>)

  datatype Action =
    | Tick(dt: real)
    | Arrive(caller: nat)
    | Acquire(caller: nat)
    | Wake
    | Release

  predicate Inside(s: State, caller: nat) {
    caller in s.blocked || (!s.mutex.Free? && s.mutex.owner == caller)
  }

  predicate Enabled(s: State, a: Action) {
    match a
    case Tick(dt) => dt >= 0.0
    case Arrive(caller) => !Inside(s, caller)
    case Acquire(caller) => s.mutex.Free? && caller in s.blocked
    case Wake => s.mutex.Asleep? && s.clock >= s.mutex.wakeAt
    case Release => s.mutex.Leaving?
  }

  function Next(s: State, a: Action): State
    requires Enabled(s, a) && s.bucket.rate > 0.0
  {
    match a
    case Tick(dt) => s.(clock := s.clock + dt)
    case Arrive(caller) => s.(blocked := s.blocked + {caller})
    case Acquire(caller) =>
      var r, rest := Refill(s.bucket, s.clock), s.blocked - {caller};
      if r.tokens < 1.0 then
        s.(bucket := r, blocked := rest, mutex := Asleep(caller, s.clock, s.clock + Need(r)))
      else
        s.(bucket := r.(tokens := r.tokens - 1.0), blocked := rest, mutex := Leaving(caller),
           grants := s.grants + [Grant(s.clock, s.clock)])
    case Wake =>
      s.(bucket := s.bucket.(tokens := 0.0, last := s.clock), mutex := Leaving(s.mutex.owner),
         grants := s.grants + [Grant(s.mutex.acquired, s.clock)])
    case Release => s.(mutex := Free)
  }

  // A freshly constructed, enabled limiter.
  predicate Initial(s: State) {
    && s.bucket.rate > 0.0 && s.bucket.tokens == 1.0 && s.bucket.last <= s.clock
    && s.mutex.Free? && s.grants == []
  }

  ghost predicate Run(s: State, actions: seq<Action>, t: State)
    decreases actions
  {
    if actions == [] then s == t
    else s.bucket.rate > 0.0 && Enabled(s, actions[0]) && Run(Next(s, actions[0]), actions[1..], t)
  }

  // The sleeper wakes when it asked to, not later.
  predicate OnTime(s: State, a: Action) {
    a.Wake? && s.mutex.Asleep? ==> s.clock == s.mutex.wakeAt
  }

  ghost predicate PunctualRun(s: State, actions: seq<Action>, t: State)
    decreases actions
  {
    if actions == [] then s == t
    else
      && s.bucket.rate > 0.0 && Enabled(s, actions[0]) && OnTime(s, actions[0])
      && PunctualRun(Next(s, actions[0]), actions[1..], t)
  }

  // ---------------------------------------------------------------- the invariant

  // The bucket as it was before the sleeper refilled it.
  function BeforeSleep(s: State): Bucket
    requires s.grants != []
  {
    Bucket(s.bucket.rate, 0.0, s.grants[|s.grants| - 1].at)
  }

  ghost predicate Inv(s: State) {
    && s.bucket.rate > 0.0
    && 0.0 <= s.bucket.tokens <= 1.0
    && s.bucket.last <= s.clock
    && match s.mutex
       case Free => Settled(s.bucket, s.grants)
       case Leaving(owner) => owner !in s.blocked && s.grants != [] && Settled(s.bucket, s.grants)
       case Asleep(owner, acquired, wakeAt) =>
         && owner !in s.blocked
         && s.grants != []
         && acquired == s.bucket.last
         && BeforeSleep(s).last <= acquired
         && Settled(BeforeSleep(s), s.grants)
         && s.bucket == Refill(BeforeSleep(s), acquired)
         && s.bucket.tokens < 1.0
         && wakeAt == acquired + Need(s.bucket)
  }

  lemma InitialInv(s: State)
    requires Initial(s)
    ensures Inv(s)
  {
  }

  lemma RefillBounds(b: Bucket, now: real)
    requires b.rate > 0.0 && 0.0 <= b.tokens <= 1.0 && b.last <= now
    ensures 0.0 <= Refill(b, now).tokens <= 1.0
    ensures b.tokens == 1.0 ==> Refill(b, now).tokens == 1.0
  {
    var elapsed := now - b.last;
    Sign(elapsed, b.rate);
    assert Refill(b, now).tokens == Min(1.0, b.tokens + elapsed * b.rate);
  }

  lemma StepKeepsInv(s: State, a: Action)
    requires Inv(s) && Enabled(s, a)
    ensures Inv(Next(s, a))
  {
    match a
    case Acquire(caller) =>
      AcquireKeepsInv(s, caller);
    case Wake =>
      var t := Next(s, a);
      WaitKeepsSchedule(BeforeSleep(s), s.grants, s.mutex.acquired, s.clock, t.bucket);
    case _ =>
  }

  lemma {:induction false} AcquireKeepsInv(s: State, caller: nat)
    requires Inv(s) && Enabled(s, Acquire(caller))
    ensures Inv(Next(s, Acquire(caller)))
  {
    var r, t := Refill(s.bucket, s.clock), Next(s, Acquire(caller));
    RefillBounds(s.bucket, s.clock);
    if r.tokens < 1.0 {
      assert s.bucket == BeforeSleep(s);
    } else {
      WaitKeepsSchedule(s.bucket, s.grants, s.clock, s.clock, t.bucket);
    }
  }

  lemma {:induction false} RunKeepsInv(s: State, actions: seq<Action>, t: State)
    requires Inv(s) && Run(s, actions, t)
    ensures Inv(t) && t.bucket.rate == s.bucket.rate
    decreases actions
  {
    if actions != [] {
      StepKeepsInv(s, actions[0]);
      RunKeepsInv(Next(s, actions[0]), actions[1..], t);
    }
  }

  lemma InvGivesSchedule(s: State)
    requires Inv(s)
    ensures OnSchedule(s.grants, s.bucket.rate)
    ensures !s.mutex.Asleep? && s.grants != [] ==> s.bucket.tokens == 0.0
  {
  }

  // ---------------------------------------------------------------- safety on every run

  // However the callers interleave and however long their sleeps overshoot: grants are periods
  // apart, no window holds more of them than the rate allows, the bucket stays between empty and
  // full, and from the first grant on it is empty whenever no caller sleeps.
  lemma Safety(s: State, actions: seq<Action>, t: State, lo: real, hi: real)
    requires Initial(s) && Run(s, actions, t) && lo <= hi
    ensures forall i, j :: 0 <= i <= j < |t.grants| ==>
      (t.grants[j].at - t.grants[i].at) * s.bucket.rate >= (j - i) as real
    ensures CountIn(t.grants, lo, hi) <= Allowance(hi - lo, s.bucket.rate)
    ensures 0.0 <= t.bucket.tokens <= 1.0
    ensures t.grants != [] && !t.mutex.Asleep? ==> t.bucket.tokens == 0.0
  {
    hide Settled, OnSchedule, CountIn, Allowance, Run, Refill, Need;
    InitialInv(s);
    RunKeepsInv(s, actions, t);
    InvGivesSchedule(t);
    forall i, j | 0 <= i <= j < |t.grants|
      ensures (t.grants[j].at - t.grants[i].at) * s.bucket.rate >= (j - i) as real
    {
      GrantsApart(t.grants, s.bucket.rate, i, j);
    }
    WindowBound(t.grants, s.bucket.rate, lo, hi);
  }

  // ---------------------------------------------------------------- the exact schedule

  // Every grant falls on its due time.
  ghost predicate AllDue(grants: seq<Grant>, rate: real)
    requires rate > 0.0
  {
    forall k :: 0 <= k < |grants| ==> grants[k].at == Due(grants[..k], grants[k].acquired, rate)
  }

  lemma DuePush(grants: seq<Grant>, g: Grant, rate: real)
    requires rate > 0.0 && AllDue(grants, rate) && g.at == Due(grants, g.acquired, rate)
    ensures AllDue(grants + [g], rate)
  {
    hide Due;
    var all := grants + [g];
    forall k | 0 <= k < |all| ensures all[k].at == Due(all[..k], all[k].acquired, rate) {
      assert all[..k] == grants[..k];
      assert grants[..|grants|] == grants;
    }
  }

  lemma {:induction false} StepKeepsDue(s: State, a: Action)
    requires Inv(s) && Enabled(s, a) && OnTime(s, a)
    requires AllDue(s.grants, s.bucket.rate)
    ensures AllDue(Next(s, a).grants, s.bucket.rate)
  {
    hide AllDue;
    match a
    case Acquire(caller) =>
      WaitIsDue(s.bucket, s.grants, s.clock);
      if Refill(s.bucket, s.clock).tokens >= 1.0 {
        DuePush(s.grants, Grant(s.clock, s.clock), s.bucket.rate);
      }
    case Wake =>
      WaitIsDue(BeforeSleep(s), s.grants, s.mutex.acquired);
      DuePush(s.grants, Grant(s.mutex.acquired, s.clock), s.bucket.rate);
    case _ =>
  }

  lemma {:induction false} PunctualRunKeepsDue(s: State, actions: seq<Action>, t: State)
    requires Inv(s) && PunctualRun(s, actions, t)
    requires AllDue(s.grants, s.bucket.rate)
    ensures t.bucket.rate == s.bucket.rate && AllDue(t.grants, s.bucket.rate)
    decreases actions
  {
    hide AllDue;
    if actions != [] {
      StepKeepsInv(s, actions[0]);
      StepKeepsDue(s, actions[0]);
      PunctualRunKeepsDue(Next(s, actions[0]), actions[1..], t);
    }
  }

  // With sleeps of exactly the requested length the token arithmetic is the closed form: the first
  // grant when its caller gets the lock, each later one then or one period after its predecessor.
  lemma ExactSchedule(s: State, actions: seq<Action>, t: State, k: nat)
    requires Initial(s) && PunctualRun(s, actions, t) && k < |t.grants|
    ensures t.grants[k].at ==
      if k == 0 then t.grants[0].acquired
      else Max(t.grants[k].acquired, t.grants[k - 1].at + 1.0 / s.bucket.rate)
  {
    InitialInv(s);
    assert AllDue(s.grants, s.bucket.rate);
    PunctualRunKeepsDue(s, actions, t);
    assert t.grants[..k] != [] ==> t.grants[..k][k - 1] == t.grants[k - 1];
  }

  // ---------------------------------------------------------------- progress

  lemma {:induction false} RunAppend(s: State, a: seq<Action>, t: State, b: seq<Action>, u: State)
    requires Run(s, a, t) && Run(t, b, u)
    ensures Run(s, a + b, u)
    decreases a
  {
    if a == [] {
      assert a + b == b;
    } else {
      assert (a + b)[0] == a[0] && (a + b)[1..] == a[1..] + b;
      RunAppend(Next(s, a[0]), a[1..], t, b, u);
    }
  }

  lemma OneStep(s: State, a: Action)
    requires s.bucket.rate > 0.0 && Enabled(s, a)
    ensures Run(s, [a], Next(s, a))
  {
    assert Run(Next(s, a), [], Next(s, a));
    assert [a][1..] == [];
  }

  // A sleeper sleeps until one period after the last grant, so never for more than a period.
  lemma {:induction false} SleepIsBounded(s: State)
    requires Inv(s) && s.mutex.Asleep?
    ensures s.mutex.wakeAt == s.grants[|s.grants| - 1].at + 1.0 / s.bucket.rate
    ensures s.mutex.wakeAt <= s.clock + 1.0 / s.bucket.rate
  {
    var b := BeforeSleep(s);
    WaitIsDue(b, s.grants, s.mutex.acquired);
    var elapsed := s.mutex.acquired - b.last;
    assert s.bucket.tokens == elapsed * b.rate;
    assert Need(s.bucket) == (1.0 - elapsed * b.rate) / b.rate;
    assert Need(s.bucket) * b.rate == 1.0 - elapsed * b.rate;
    assert (1.0 / b.rate - elapsed) * b.rate == 1.0 - elapsed * b.rate;
  }

  // The mutex can always be brought to be free within one period.
  lemma Unlock(s: State) returns (actions: seq<Action>, t: State)
    requires Inv(s)
    ensures Run(s, actions, t) && Inv(t) && t.mutex.Free? && t.blocked == s.blocked
    ensures t.bucket.rate == s.bucket.rate && t.clock <= s.clock + 1.0 / s.bucket.rate
  {
    var rate := s.bucket.rate;
    assert 1.0 / rate > 0.0;
    match s.mutex
    case Free =>
      actions, t := [], s;
    case Leaving(_) =>
      actions, t := [Release], Next(s, Release);
      OneStep(s, Release);
    case Asleep(_, _, wakeAt) =>
      SleepIsBounded(s);
      var s1 := Next(s, Tick(Max(0.0, wakeAt - s.clock)));
      OneStep(s, Tick(Max(0.0, wakeAt - s.clock)));
      var s2 := Next(s1, Wake);
      OneStep(s1, Wake);
      t := Next(s2, Release);
      OneStep(s2, Release);
      RunAppend(s, [Tick(Max(0.0, wakeAt - s.clock))], s1, [Wake], s2);
      RunAppend(s, [Tick(Max(0.0, wakeAt - s.clock))] + [Wake], s2, [Release], t);
      actions := [Tick(Max(0.0, wakeAt - s.clock))] + [Wake] + [Release];
    RunKeepsInv(s, actions, t);
  }

  // No deadlock: from every state of every run, any blocked caller can have the lock within one
  // period, and nobody else has entered or left the queue.
  lemma NoDeadlock(s: State, caller: nat)
    requires Inv(s) && caller in s.blocked
    ensures exists actions, t ::
      && Run(s, actions, t) && !t.mutex.Free? && t.mutex.owner == caller
      && t.blocked == s.blocked - {caller}
      && t.clock <= s.clock + 1.0 / s.bucket.rate
  {
    var actions, t := Unlock(s);
    var u := Next(t, Acquire(caller));
    OneStep(t, Acquire(caller));
    RunAppend(s, actions, t, [Acquire(caller)], u);
    assert Run(s, actions + [Acquire(caller)], u);
  }

  // ---------------------------------------------------------------- one caller at a time

  // The effect of the limiter's Wait is a run of this machine with one caller: what the class does
  // alone, the machine does uncontended.
  lemma WaitIsARun(s: State, caller: nat, acquired: real, at: real, b: Bucket)
    requires Inv(s) && s.mutex.Free? && caller !in s.blocked
    requires s.clock <= acquired && WaitEffect(s.bucket, acquired, at, b)
    ensures exists actions ::
      Run(s, actions, s.(clock := at, bucket := b, grants := s.grants + [Grant(acquired, at)]))
  {
    hide Run, Settled;
    var t := s.(clock := at, bucket := b, grants := s.grants + [Grant(acquired, at)]);
    var s1 := Next(s, Tick(acquired - s.clock));
    var s2 := Next(s1, Arrive(caller));
    var s3 := Next(s2, Acquire(caller));
    OneStep(s, Tick(acquired - s.clock));
    OneStep(s1, Arrive(caller));
    OneStep(s2, Acquire(caller));
    var start := [Tick(acquired - s.clock)] + [Arrive(caller)] + [Acquire(caller)];
    RunAppend(s, [Tick(acquired - s.clock)], s1, [Arrive(caller)], s2);
    RunAppend(s, [Tick(acquired - s.clock)] + [Arrive(caller)], s2, [Acquire(caller)], s3);
    assert s2.blocked - {caller} == s.blocked;
    if s3.mutex.Asleep? {
      NeedIsPositive(s3.bucket);
      var s4 := Next(s3, Tick(at - acquired));
      OneStep(s3, Tick(at - acquired));
      var s5 := Next(s4, Wake);
      OneStep(s4, Wake);
      OneStep(s5, Release);
      RunAppend(s, start, s3, [Tick(at - acquired)], s4);
      RunAppend(s, start + [Tick(at - acquired)], s4, [Wake], s5);
      RunAppend(s, start + [Tick(at - acquired)] + [Wake], s5, [Release], t);
    } else {
      OneStep(s3, Release);
      RunAppend(s, start, s3, [Release], t);
    }
  }

  lemma NeedIsPositive(b: Bucket)
    requires b.rate > 0.0 && b.tokens < 1.0
    ensures Need(b) > 0.0
  {
  }
}
