/** The login limiter: one bucket per (username, IP), one per username, lockout and eviction. */
module Limiter {
  import opened Windows

  const MAX_ATTEMPTS: nat := 5
  const GLOBAL_MAX_ATTEMPTS: nat := 30
  const WINDOW: real := 900.0
  const LOCKOUT: real := 900.0
  const MAX_BUCKETS: nat := 50_000

  datatype Bucket = Bucket(fails: seq<real>, lockedUntil: real)

  type Buckets = map<string, Bucket>

  const EMPTY_BUCKET := Bucket([], 0.0)

  // ----- keys -----

  /** `lower` stands for Python's `str.lower`. */
  function IpKey(lower: string -> string, username: string, ip: string): string {
    "ip|" + lower(username) + "|" + (if ip == "" then "?" else ip)
  }

  function UserKey(lower: string -> string, username: string): string {
    "user|" + lower(username)
  }

  lemma KeysDiffer(lower: string -> string, username: string, ip: string, other: string)
    ensures IpKey(lower, username, ip) != UserKey(lower, other)
  {
    assert IpKey(lower, username, ip)[0] == 'i';
    assert UserKey(lower, other)[0] == 'u';
  }

  // ----- one bucket -----

  function Max(h: seq<real>): (m: real)
    requires h != []
    ensures m in h && forall i :: 0 <= i < |h| ==> h[i] <= m
  {
    if |h| == 1 then h[0] else
      var m := Max(h[1..]);
      if h[0] > m then h[0] else m
  }

  predicate Dead(b: Bucket, now: real) {
    b.lockedUntil < now && (b.fails == [] || now - Max(b.fails) >= WINDOW)
  }

  function Freshness(b: Bucket): real {
    var f := if b.fails == [] then 0.0 else Max(b.fails);
    if f > b.lockedUntil then f else b.lockedUntil
  }

  /** A bucket after one more failure. */
  function Touch(b: Bucket, cap: nat, now: real): Bucket {
    var fails := Recent(b.fails, now, WINDOW) + [now];
    if |fails| >= cap then Bucket([], now + LOCKOUT) else Bucket(fails, b.lockedUntil)
  }

  /** `int(x)`: truncation toward zero. */
  function Trunc(x: real): int {
    if x >= 0.0 then x.Floor else -((-x).Floor)
  }

  function Get(m: Buckets, k: string): Bucket { if k in m then m[k] else EMPTY_BUCKET }

  // ----- the operations -----

  function Remaining(m: Buckets, k: string, now: real): int {
    if k in m then Trunc(m[k].lockedUntil - now) else 0
  }

  function Larger(a: int, b: int): int { if a >= b then a else b }

  /** `is_locked`: whole seconds of lockout left. */
  function IsLocked(m: Buckets, ipKey: string, userKey: string, now: real): (r: int) {
    Larger(0, Larger(Remaining(m, ipKey, now), Remaining(m, userKey, now)))
  }

  function Live(m: Buckets, now: real): Buckets {
    map k | k in m && !Dead(m[k], now) :: m[k]
  }

  /** What `_evict_buckets` may leave: every live bucket, or, if these are too many, as many of the
      freshest as the cap allows (ties in either order). */
  ghost predicate Evicts(m: Buckets, m': Buckets, now: real) {
    var live := Live(m, now);
    if |live| <= MAX_BUCKETS then m' == live
    else
      && |m'| == MAX_BUCKETS
      && (forall k :: k in m' ==> k in live && m'[k] == live[k])
      && (forall k, j :: k in m' && j in live && j !in m' ==> Freshness(live[j]) <= Freshness(live[k]))
  }

  /** The lock runs, or some failure lies less than 900 seconds back. */
  ghost predicate InUse(b: Bucket, now: real) {
    b.lockedUntil >= now || exists i :: 0 <= i < |b.fails| && now - b.fails[i] < 900.0
  }

  /** `t` is no later than the lock or some failure of `b`, or than 0 if it has no failure. */
  ghost predicate NoLater(t: real, b: Bucket) {
    || t <= b.lockedUntil || (b.fails == [] && t <= 0.0)
    || exists i :: 0 <= i < |b.fails| && t <= b.fails[i]
  }

  /** What eviction leaves: live buckets as they were, at most 50,000; a live one goes only when that many are left,
      none of its times being later than all of a kept one's. */
  ghost predicate Spared(m: Buckets, m': Buckets, now: real) {
    && |m'| <= 50_000
    && (forall k :: k in m' ==> k in m && m'[k] == m[k] && InUse(m[k], now))
    && (forall k :: k in m && InUse(m[k], now) && k !in m' ==> |m'| == 50_000)
    && (forall k, j :: k in m && InUse(m[k], now) && k !in m' && j in m' ==>
          NoLater(m[k].lockedUntil, m'[j]) && forall i :: 0 <= i < |m[k].fails| ==> NoLater(m[k].fails[i], m'[j]))
  }

  lemma InUseIff(b: Bucket, now: real)
    ensures InUse(b, now) <==> !Dead(b, now)
  {
    if b.fails != [] {
      var f := Max(b.fails);
      var i :| 0 <= i < |b.fails| && b.fails[i] == f;
    }
  }

  lemma Staler(b: Bucket, c: Bucket)
    requires Freshness(b) <= Freshness(c)
    ensures NoLater(b.lockedUntil, c) && forall i :: 0 <= i < |b.fails| ==> NoLater(b.fails[i], c)
  {
    var f := Freshness(c);
    if c.fails != [] {
      var i :| 0 <= i < |c.fails| && c.fails[i] == Max(c.fails);
    }
    assert NoLater(f, c);
    assert b.lockedUntil <= f && forall i :: 0 <= i < |b.fails| ==> b.fails[i] <= f;
  }

  lemma SparedIs(m: Buckets, m': Buckets, now: real)
    requires Evicts(m, m', now)
    ensures Spared(m, m', now)
  {
    hide InUse, NoLater, Dead, Freshness;
    forall k | k in m ensures InUse(m[k], now) <==> !Dead(m[k], now) {
      InUseIff(m[k], now);
    }
    forall k, j | k in m && InUse(m[k], now) && k !in m' && j in m'
      ensures NoLater(m[k].lockedUntil, m'[j]) && forall i :: 0 <= i < |m[k].fails| ==> NoLater(m[k].fails[i], m'[j])
    {
      Staler(m[k], m'[j]);
    }
  }

  /** Both buckets after a failure. */
  function Record(m: Buckets, ipKey: string, userKey: string, now: real): Buckets {
    var m1 := m[ipKey := Touch(Get(m, ipKey), MAX_ATTEMPTS, now)];
    m1[userKey := Touch(Get(m1, userKey), GLOBAL_MAX_ATTEMPTS, now)]
  }

  /** The attempts `record_failure` reports as left for this IP. */
  function Left(m: Buckets, ipKey: string, now: real): int {
    var n := |Recent(Get(m, ipKey).fails, now, WINDOW)| + 1;
    if n >= MAX_ATTEMPTS then 0 else MAX_ATTEMPTS - n
  }

  function Reset(m: Buckets, ipKey: string, userKey: string): Buckets {
    m - {ipKey} - {userKey}
  }

  /** What a login request's captcha, password and TOTP checks would say. */
  datatype Outcome = Wrong | NeedsCode | Correct

  datatype Attempt = Attempt(username: string, ip: string, now: real, outcome: Outcome)

  datatype Reply = Locked(seconds: int) | Failed(left: int) | CodeNeeded | LoggedIn

  /** One login request. `m1` is what eviction leaves of `m`, needed only when a failure is recorded. */
  function Login(lower: string -> string, m: Buckets, m1: Buckets, a: Attempt): (Buckets, Reply) {
    var ik, uk := IpKey(lower, a.username, a.ip), UserKey(lower, a.username);
    var locked := IsLocked(m, ik, uk, a.now);
    if locked != 0 then (m, Locked(locked))
    else match a.outcome
      case Wrong => (Record(m1, ik, uk, a.now), Failed(Left(m1, ik, a.now)))
      case NeedsCode => (m, CodeNeeded)
      case Correct => (Reset(m, ik, uk), LoggedIn)
  }

  // ----- the module state, changed in place -----

  class LoginLimiter {
    var buckets: Buckets

    constructor ()
      ensures buckets == map[]
    {
      buckets := map[];
    }

    method EvictBuckets(now: real)
      modifies this
      ensures Evicts(old(buckets), buckets, now)
      ensures Spared(old(buckets), buckets, now)
    {
      hide Spared;
      buckets := Live(buckets, now);
      ghost var live := buckets;
      while |buckets| > MAX_BUCKETS
        invariant |live| > MAX_BUCKETS ==> |buckets| >= MAX_BUCKETS
        invariant |live| <= MAX_BUCKETS ==> buckets == live
        invariant forall k :: k in buckets ==> k in live && buckets[k] == live[k]
        invariant forall k, j :: k in buckets && j in live && j !in buckets ==> Freshness(live[j]) <= Freshness(live[k])
        decreases |buckets|
      {
        var stalest := Stalest(buckets);
        assert |buckets - {stalest}| == |buckets| - 1 by { MapRemoveSize(buckets, stalest); }
        buckets := buckets - {stalest};
      }
      SparedIs(old(buckets), buckets, now);
    }

    method IsLockedFor(lower: string -> string, username: string, ip: string, now: real) returns (seconds: int)
      ensures seconds == IsLocked(buckets, IpKey(lower, username, ip), UserKey(lower, username), now)
    {
      var remaining := 0;
      var keys := [IpKey(lower, username, ip), UserKey(lower, username)];
      for i := 0 to |keys|
        invariant i == 0 ==> remaining == 0
        invariant i == 1 ==> remaining == Larger(0, Remaining(buckets, keys[0], now))
        invariant i == 2
            ==> remaining == Larger(0, Larger(Remaining(buckets, keys[0], now), Remaining(buckets, keys[1], now)))
      {
        if keys[i] in buckets {
          remaining := Larger(remaining, Trunc(buckets[keys[i]].lockedUntil - now));
        }
      }
      seconds := Larger(0, remaining);
    }

    method RecordFailure(lower: string -> string, username: string, ip: string, now: real)
      returns (ipRemaining: int, ghost kept: Buckets)
      modifies this
      ensures Evicts(old(buckets), kept, now)
      ensures buckets == Record(kept, IpKey(lower, username, ip), UserKey(lower, username), now)
      ensures ipRemaining == Left(kept, IpKey(lower, username, ip), now)
    {
      ipRemaining := MAX_ATTEMPTS;
      EvictBuckets(now);
      kept := buckets;
      var ik, uk := IpKey(lower, username, ip), UserKey(lower, username);
      var entries := [(ik, MAX_ATTEMPTS, true), (uk, GLOBAL_MAX_ATTEMPTS, false)];
      for i := 0 to |entries|
        invariant i == 0 ==> buckets == kept
        invariant i == 1 ==> buckets == kept[ik := Touch(Get(kept, ik), MAX_ATTEMPTS, now)]
        invariant i == 2 ==> buckets == Record(kept, ik, uk, now)
        invariant i > 0 ==> ipRemaining == Left(kept, ik, now)
      {
        var (k, cap, isIp) := entries[i];
        var b := Get(buckets, k);
        var fails := Recent(b.fails, now, WINDOW) + [now];
        if |fails| >= cap {
          buckets := buckets[k := Bucket([], now + LOCKOUT)];
          if isIp { ipRemaining := 0; }
        } else {
          buckets := buckets[k := Bucket(fails, b.lockedUntil)];
          if isIp { ipRemaining := cap - |fails|; }
        }
      }
    }

    method ResetFor(lower: string -> string, username: string, ip: string)
      modifies this
      ensures buckets == Reset(old(buckets), IpKey(lower, username, ip), UserKey(lower, username))
    {
      buckets := buckets - {IpKey(lower, username, ip)};
      buckets := buckets - {UserKey(lower, username)};
    }

    /** The login handler's use of the limiter, all at one reading of the clock. */
    method HandleLogin(lower: string -> string, a: Attempt) returns (reply: Reply, ghost kept: Buckets)
      modifies this
      ensures reply.Failed? ==> Evicts(old(buckets), kept, a.now)
      ensures (buckets, reply) == Login(lower, old(buckets), kept, a)
    {
      var locked := IsLockedFor(lower, a.username, a.ip, a.now);
      kept := buckets;
      if locked != 0 {
        reply := Locked(locked);
      } else {
        match a.outcome
        case Wrong =>
          var left, rest := RecordFailure(lower, a.username, a.ip, a.now);
          reply, kept := Failed(left), rest;
        case NeedsCode =>
          reply := CodeNeeded;
        case Correct =>
          ResetFor(lower, a.username, a.ip);
          reply := LoggedIn;
      }
    }
  }

  /** A bucket no other is staler than. */
  method Stalest(m: Buckets) returns (k: string)
    requires |m| > 0
    ensures k in m && forall j :: j in m ==> Freshness(m[k]) <= Freshness(m[j])
  {
    var todo := m.Keys;
    assert todo != {};
    k :| k in todo;
    todo := todo - {k};
    while todo != {}
      invariant k in m && todo <= m.Keys
      invariant forall j :: j in m && j !in todo ==> Freshness(m[k]) <= Freshness(m[j])
      decreases |todo|
    {
      var j :| j in todo;
      if Freshness(m[j]) < Freshness(m[k]) { k := j; }
      todo := todo - {j};
    }
  }

  lemma MapRemoveSize(m: Buckets, k: string)
    requires k in m
    ensures |m - {k}| == |m| - 1
  {
    assert (m - {k}).Keys == m.Keys - {k};
    assert |m| == |m.Keys| && |m - {k}| == |(m - {k}).Keys|;
  }
}
