/**
 The login handler's failure counter and lock, and how many failures it lets through.
 */
module LoginLockout {
  import opened Wrappers

  const U32_MODULUS: nat := 0x1_0000_0000

  /** Failures counted and, once there were enough of them, until when the name is locked. */
  datatype Entry = Entry(count: nat, lockedUntil: Option<nat>)

  /** `maxAttempts` zero switches the lock off; `lockout` is in seconds. */
  datatype Settings = Settings(maxAttempts: nat, lockout: nat)

  type Attempts = map<string, Entry>

  datatype Outcome = Incomplete | Locked(remaining: nat) | NoUser | Failed | Success

  /** A login request: the time it is read at, whether a user record exists and its name
      matches, and whether the password verifies. */
  datatype Request = Request(username: string, emptyPassword: bool, now: nat, userExists: bool, nameMatches: bool,
                             passwordOk: bool)

  function Lookup(a: Attempts, u: string): Entry {
    if u in a then a[u] else Entry(0, None)
  }

  function Counted(e: Entry, s: Settings, now: nat): Entry {
    var count := (e.count + 1) % U32_MODULUS;
    Entry(count, if count >= s.maxAttempts then Some(now + s.lockout) else e.lockedUntil)
  }

  predicate IsLocked(e: Entry, now: nat) {
    e.lockedUntil.Some? && now < e.lockedUntil.value
  }

  function After(a: Attempts, s: Settings, r: Request): (Attempts, Outcome) {
    if r.username == "" || r.emptyPassword then (a, Incomplete)
    else if s.maxAttempts > 0 && IsLocked(Lookup(a, r.username), r.now)
    then (a, Locked(Lookup(a, r.username).lockedUntil.value - r.now))
    else if !r.userExists then (a, NoUser)
    else if !r.nameMatches || !r.passwordOk then
      (if s.maxAttempts > 0 then a[r.username := Counted(Lookup(a, r.username), s, r.now)] else a, Failed)
    else (a - {r.username}, Success)
  }

  function Exec(a: Attempts, s: Settings, rs: seq<Request>): Attempts {
    if rs == [] then a else After(Exec(a, s, rs[..|rs| - 1]), s, rs[|rs| - 1]).0
  }

  /** The recorded failures of a name since its last success: when each was recorded. */
  function Failures(a: Attempts, s: Settings, rs: seq<Request>, u: string): seq<nat> {
    if rs == [] then []
    else
      var n := |rs| - 1;
      var before := Failures(a, s, rs[..n], u);
      var outcome := After(Exec(a, s, rs[..n]), s, rs[n]).1;
      if rs[n].username != u then before
      else if outcome == Success then []
      else if outcome == Failed then before + [rs[n].now]
      else before
  }

  predicate Nondecreasing(rs: seq<Request>) {
    forall i, j :: 0 <= i < j < |rs| ==> rs[i].now <= rs[j].now
  }

  /** What counter, lock and recorded failures have to do with each other: from the failure
      that reaches the limit on, each is at least a lockout before the next. The lock follows
      the failures until the counter wraps. */
  predicate Spaced(f: seq<nat>, e: Entry, s: Settings)
    requires s.maxAttempts >= 1
  {
    && e.count == |f| % U32_MODULUS
    && (forall i :: s.maxAttempts <= i < |f| ==> f[i - 1] + s.lockout <= f[i])
    && (s.maxAttempts <= |f| < U32_MODULUS ==> e.lockedUntil == Some(f[|f| - 1] + s.lockout))
    && (|f| < s.maxAttempts ==> e.lockedUntil == None)
  }

  predicate UpTo(f: seq<nat>, now: nat) {
    (forall i :: 0 <= i < |f| ==> f[i] <= now) && (forall i, j :: 0 <= i < j < |f| ==> f[i] <= f[j])
  }

  /** A failure recorded while the name is not locked keeps the spacing. */
  lemma OneMoreIsSpaced(f: seq<nat>, e: Entry, s: Settings, now: nat)
    requires s.maxAttempts >= 1 && Spaced(f, e, s) && |f| < U32_MODULUS
    requires e.lockedUntil.Some? ==> now >= e.lockedUntil.value
    ensures Spaced(f + [now], Counted(e, s, now), s)
  {
  }

  /** The effect of one request on the recorded failures and on the entry of a name. */
  lemma OneMoreRequest(s: Settings, rs: seq<Request>, r: Request, u: string)
    requires s.maxAttempts >= 1
    ensures var (e, f) := (Lookup(Exec(map[], s, rs), u), Failures(map[], s, rs, u));
            var (e', f') := (Lookup(Exec(map[], s, rs + [r]), u), Failures(map[], s, rs + [r], u));
            || (e' == e && f' == f)
            || (e' == Entry(0, None) && f' == [])
            || (r.username == u && (e.lockedUntil.Some? ==> r.now >= e.lockedUntil.value)
                && e' == Counted(e, s, r.now) && f' == f + [r.now])
  {
    assert (rs + [r])[..|rs|] == rs;
  }

  lemma {:induction false} FailuresAreSpaced(s: Settings, rs: seq<Request>, u: string)
    requires s.maxAttempts >= 1 && |Failures(map[], s, rs, u)| <= U32_MODULUS
    ensures Spaced(Failures(map[], s, rs, u), Lookup(Exec(map[], s, rs), u), s)
  {
    if rs != [] {
      var n := |rs| - 1;
      var e, f := Lookup(Exec(map[], s, rs[..n]), u), Failures(map[], s, rs[..n], u);
      assert rs == rs[..n] + [rs[n]];
      OneMoreRequest(s, rs[..n], rs[n], u);
      if |f| <= U32_MODULUS {
        FailuresAreSpaced(s, rs[..n], u);
      }
      if |f| < U32_MODULUS && (e.lockedUntil.Some? ==> rs[n].now >= e.lockedUntil.value) {
        OneMoreIsSpaced(f, e, s, rs[n].now);
      }
    }
  }

  lemma UpToGrows(f: seq<nat>, at: nat, now: nat)
    requires UpTo(f, at) && at <= now
    ensures UpTo(f, now) && UpTo(f + [at], now)
  {
  }

  lemma {:induction false} FailuresAreInOrder(s: Settings, rs: seq<Request>, u: string, now: nat)
    requires s.maxAttempts >= 1 && Nondecreasing(rs) && (rs != [] ==> rs[|rs| - 1].now <= now)
    ensures UpTo(Failures(map[], s, rs, u), now)
  {
    if rs != [] {
      var n := |rs| - 1;
      FailuresAreInOrder(s, rs[..n], u, rs[n].now);
      assert rs == rs[..n] + [rs[n]];
      OneMoreRequest(s, rs[..n], rs[n], u);
      UpToGrows(Failures(map[], s, rs[..n], u), rs[n].now, now);
    }
  }

  lemma {:induction false} SpacedSpan(f: seq<nat>, e: Entry, s: Settings, now: nat, k: nat)
    requires s.maxAttempts >= 1 && Spaced(f, e, s) && UpTo(f, now) && s.maxAttempts <= k <= |f|
    ensures f[k - 1] - f[0] >= (k - s.maxAttempts) * s.lockout
  {
    if k > s.maxAttempts {
      SpacedSpan(f, e, s, now, k - 1);
      assert (k - s.maxAttempts) * s.lockout == (k - 1 - s.maxAttempts) * s.lockout + s.lockout;
    }
  }

  /** Of any number of login attempts, on this name and others, at most the limit and one more
      per full lockout elapsed are recorded as failures since the last success, as long as the
      counter wraps at most once and only with the last of them. */
  lemma FailuresAreBounded(s: Settings, rs: seq<Request>, u: string)
    requires s.maxAttempts >= 1 && s.lockout > 0 && Nondecreasing(rs)
    requires |Failures(map[], s, rs, u)| <= U32_MODULUS
    ensures var f := Failures(map[], s, rs, u);
            f != [] ==> f[0] <= f[|f| - 1] && |f| <= s.maxAttempts + (f[|f| - 1] - f[0]) / s.lockout
  {
    var f := Failures(map[], s, rs, u);
    if f != [] {
      var now := rs[|rs| - 1].now;
      FailuresAreSpaced(s, rs, u);
      FailuresAreInOrder(s, rs, u, now);
      var span := f[|f| - 1] - f[0];
      if |f| >= s.maxAttempts {
        SpacedSpan(f, Lookup(Exec(map[], s, rs), u), s, now, |f|);
        QuotientAtLeast(span, s.lockout, |f| - s.maxAttempts);
      } else {
        QuotientAtLeast(span, s.lockout, 0);
      }
    }
  }

  /** When a name is locked, over any run: exactly while its failures since the last success have
      reached the limit and the last of them is less than a lockout ago. The right password does not
      help then, and the answer says how long the lock still holds. */
  lemma LockedIffRecentlyFailed(s: Settings, rs: seq<Request>, r: Request)
    requires s.maxAttempts >= 1 && |Failures(map[], s, rs, r.username)| < U32_MODULUS
    ensures var f, o := Failures(map[], s, rs, r.username), After(Exec(map[], s, rs), s, r).1;
            && (o.Locked? <==>
                  && r.username != "" && !r.emptyPassword
                  && |f| >= s.maxAttempts && r.now < f[|f| - 1] + s.lockout)
            && (o.Locked? ==> o.remaining == f[|f| - 1] + s.lockout - r.now)
  {
    FailuresAreSpaced(s, rs, r.username);
  }

  /** A request not locked out succeeds exactly with the right name and password, fails exactly with
      a wrong one, and touches no other name's counter. */
  lemma OutcomeIff(a: Attempts, s: Settings, r: Request, u: string)
    ensures var (a', o) := After(a, s, r);
            var complete, right := r.username != "" && !r.emptyPassword, r.nameMatches && r.passwordOk;
            && (o.Incomplete? <==> !complete)
            && (o.Success? <==> complete && !o.Locked? && r.userExists && right)
            && (o.Failed? <==> complete && !o.Locked? && r.userExists && !right)
            && (o.NoUser? <==> complete && !o.Locked? && !r.userExists)
            && (s.maxAttempts == 0 ==> !o.Locked?)
            && (u != r.username ==> Lookup(a', u) == Lookup(a, u))
            && (o.Success? ==> Lookup(a', r.username) == Entry(0, None))
            && (!o.Success? && !o.Failed? ==> a' == a)
  {
  }

  lemma ProductMonotone(a: int, b: int, d: nat)
    requires a <= b
    ensures a * d <= b * d
  {
  }

  lemma QuotientAtLeast(t: int, d: nat, k: int)
    requires d > 0 && t >= k * d
    ensures t / d >= k
  {
    if t / d < k {
      ProductMonotone(t / d + 1, k, d);
    }
  }

  /** When the `k`-th attempt of a client comes that fails as soon as it may. */
  function EagerTime(s: Settings, k: nat): nat {
    if k <= s.maxAttempts then 0 else EagerTime(s, k - 1) + s.lockout
  }

  function Eager(u: string, s: Settings, k: nat): seq<Request> {
    if k == 0 then [] else Eager(u, s, k - 1) + [Request(u, false, EagerTime(s, k), true, true, false)]
  }

  lemma FailureIsCounted(s: Settings, rs: seq<Request>, u: string, now: nat)
    requires u != "" && s.maxAttempts >= 1
    requires var e := Lookup(Exec(map[], s, rs), u); e.lockedUntil.Some? ==> now >= e.lockedUntil.value
    ensures var rs' := rs + [Request(u, false, now, true, true, false)];
            && Failures(map[], s, rs', u) == Failures(map[], s, rs, u) + [now]
            && Lookup(Exec(map[], s, rs'), u) == Counted(Lookup(Exec(map[], s, rs), u), s, now)
  {
    var r := Request(u, false, now, true, true, false);
    assert (rs + [r])[..|rs|] == rs;
  }

  predicate EagerlyFailed(s: Settings, k: nat, f: seq<nat>, e: Entry)
    requires s.maxAttempts >= 1
  {
    |f| == k && (k > 0 ==> f[0] == 0 && f[k - 1] == EagerTime(s, k)) && Spaced(f, e, s)
  }

  lemma NextEagerFailure(s: Settings, k: nat, f: seq<nat>, e: Entry)
    requires s.maxAttempts >= 1 && k < U32_MODULUS && EagerlyFailed(s, k, f, e)
    ensures e.lockedUntil.Some? ==> EagerTime(s, k + 1) >= e.lockedUntil.value
    ensures EagerlyFailed(s, k + 1, f + [EagerTime(s, k + 1)], Counted(e, s, EagerTime(s, k + 1)))
  {
    OneMoreIsSpaced(f, e, s, EagerTime(s, k + 1));
  }

  lemma {:induction false} EagerAttemptsAllCount(u: string, s: Settings, k: nat)
    requires u != "" && s.maxAttempts >= 1 && k <= U32_MODULUS
    ensures EagerlyFailed(s, k, Failures(map[], s, Eager(u, s, k), u), Lookup(Exec(map[], s, Eager(u, s, k)), u))
  {
    if k > 0 {
      EagerAttemptsAllCount(u, s, k - 1);
      var rs := Eager(u, s, k - 1);
      NextEagerFailure(s, k - 1, Failures(map[], s, rs, u), Lookup(Exec(map[], s, rs), u));
      FailureIsCounted(s, rs, u, EagerTime(s, k));
    }
  }

  lemma {:induction false} EagerTimeIsProduct(s: Settings, k: nat)
    requires k >= s.maxAttempts
    ensures EagerTime(s, k) == (k - s.maxAttempts) * s.lockout
  {
    if k > s.maxAttempts {
      EagerTimeIsProduct(s, k - 1);
      assert (k - s.maxAttempts) * s.lockout == (k - 1 - s.maxAttempts) * s.lockout + s.lockout;
    }
  }

  /** The bound is reached: attempts that fail as soon as they may are counted exactly so often. */
  lemma TheBoundIsTight(u: string, s: Settings, k: nat)
    requires u != "" && s.lockout > 0 && 1 <= s.maxAttempts <= k <= U32_MODULUS
    ensures var f := Failures(map[], s, Eager(u, s, k), u);
            && |f| == k
            && |f| == s.maxAttempts + (f[|f| - 1] - f[0]) / s.lockout
  {
    EagerAttemptsAllCount(u, s, k);
    EagerTimeIsProduct(s, k);
    ExactQuotient(k - s.maxAttempts, s.lockout);
  }

  lemma {:induction false} EagerIsInOrder(u: string, s: Settings, k: nat)
    ensures |Eager(u, s, k)| == k
    ensures Nondecreasing(Eager(u, s, k))
    ensures forall i :: 0 <= i < k ==> Eager(u, s, k)[i].now <= EagerTime(s, k)
  {
    if k > 0 {
      EagerIsInOrder(u, s, k - 1);
    }
  }

  lemma CountedAtTheWrap(s: Settings, k: nat, f: seq<nat>, e: Entry)
    requires 1 <= s.maxAttempts < k == U32_MODULUS && EagerlyFailed(s, k - 1, f, e)
    ensures Counted(e, s, EagerTime(s, k)) == Entry(0, Some(EagerTime(s, k)))
  {
    assert f[k - 2] == EagerTime(s, k - 1);
  }

  /** The failure with which the counter wraps still waits for the lock before it, and the
      entry keeps that lock, by then run out. */
  lemma AtTheWrap(u: string, s: Settings, k: nat)
    requires u != "" && 1 <= s.maxAttempts < k == U32_MODULUS
    ensures var rs := Eager(u, s, k);
            && EagerlyFailed(s, k, Failures(map[], s, rs, u), Lookup(Exec(map[], s, rs), u))
            && Lookup(Exec(map[], s, rs), u) == Entry(0, Some(EagerTime(s, k)))
  {
    var rs := Eager(u, s, k - 1);
    EagerAttemptsAllCount(u, s, k - 1);
    var f, e := Failures(map[], s, rs, u), Lookup(Exec(map[], s, rs), u);
    NextEagerFailure(s, k - 1, f, e);
    CountedAtTheWrap(s, k, f, e);
    FailureIsCounted(s, rs, u, EagerTime(s, k));
    assert Eager(u, s, k) == rs + [Request(u, false, EagerTime(s, k), true, true, false)];
  }

  /** One failure later the bound is passed: the counter wrapped to zero, the lock it should
      have set is missing, and the next failure is recorded at the same moment. */
  lemma TheBoundEndsWhereTheCounterWraps(u: string, s: Settings, k: nat)
    requires u != "" && s.lockout > 0 && 1 <= s.maxAttempts < k == U32_MODULUS
    ensures var rs := Eager(u, s, k) + [Request(u, false, EagerTime(s, k), true, true, false)];
            var f := Failures(map[], s, rs, u);
            && Nondecreasing(rs) && |f| == U32_MODULUS + 1
            && |f| > s.maxAttempts + (f[|f| - 1] - f[0]) / s.lockout
  {
    AtTheWrap(u, s, k);
    FailureIsCounted(s, Eager(u, s, k), u, EagerTime(s, k));
    EagerIsInOrder(u, s, k);
    EagerTimeIsProduct(s, k);
    ExactQuotient(k - s.maxAttempts, s.lockout);
  }

  lemma ExactQuotient(k: nat, d: nat)
    requires d > 0
    ensures (k * d) / d == k
  {
    QuotientAtLeast(k * d, d, k);
    if k * d / d > k {
      ProductMonotone(k + 1, k * d / d, d);
    }
  }

  class LoginGate {
    var attempts: Attempts

    constructor ()
      ensures attempts == map[]
    {
      attempts := map[];
    }

    method RecordFailure(s: Settings, username: string, now: nat)
      requires s.maxAttempts > 0
      modifies this
      ensures attempts == old(attempts)[username := Counted(Lookup(old(attempts), username), s, now)]
    {
      var entry := if username in attempts then attempts[username] else Entry(0, None);
      entry := entry.(count := (entry.count + 1) % U32_MODULUS);
      if entry.count >= s.maxAttempts {
        entry := entry.(lockedUntil := Some(now + s.lockout));
      }
      attempts := attempts[username := entry];
    }

    method Login(s: Settings, r: Request) returns (o: Outcome)
      modifies this
      ensures (attempts, o) == After(old(attempts), s, r)
    {
      if r.username == "" || r.emptyPassword {
        return Incomplete;
      }
      if s.maxAttempts > 0 {
        if r.username in attempts && attempts[r.username].lockedUntil.Some? {
          var until := attempts[r.username].lockedUntil.value;
          if r.now < until {
            return Locked(until - r.now);
          }
        }
      }
      if !r.userExists {
        return NoUser;
      }
      if !r.nameMatches || !r.passwordOk {
        if s.maxAttempts > 0 {
          RecordFailure(s, r.username, r.now);
        }
        return Failed;
      }
      attempts := attempts - {r.username};
      return Success;
    }
  }
}
