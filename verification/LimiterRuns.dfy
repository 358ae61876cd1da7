/** Runs of the login handler: eviction cannot be observed, and attempts are bounded. */
module LimiterRuns {
  import opened Windows
  import opened Limiter

  // ----- runs -----

  ghost predicate Step(lower: string -> string, m: Buckets, a: Attempt, m': Buckets, reply: Reply) {
    exists m1: Buckets ::
      && (reply.Failed? ==> Evicts(m, m1, a.now))
      && (m', reply) == Login(lower, m, m1, a)
  }

  ghost predicate Ordered(evs: seq<Attempt>) {
    && (forall i :: 0 <= i < |evs| ==> evs[i].now >= 0.0)
    && (forall i, j :: 0 <= i < j < |evs| ==> evs[i].now <= evs[j].now)
  }

  /** `ms` are the bucket maps before, between and after the attempts. */
  ghost predicate IsRun(lower: string -> string, evs: seq<Attempt>, ms: seq<Buckets>, replies: seq<Reply>) {
    && Ordered(evs) && |replies| == |evs| && |ms| == |evs| + 1 && ms[0] == map[]
    && forall i :: 0 <= i < |evs| ==> Step(lower, ms[i], evs[i], ms[i + 1], replies[i])
  }

  /** At no attempt are there more live buckets than the cap. */
  ghost predicate WithinCap(evs: seq<Attempt>, ms: seq<Buckets>)
    requires |ms| == |evs| + 1
  {
    forall i :: 0 <= i < |evs| ==> |Live(ms[i], evs[i].now)| <= MAX_BUCKETS
  }

  /** The limiter that never forgets a bucket: its map after `evs`. */
  function Ref(lower: string -> string, evs: seq<Attempt>): Buckets {
    if evs == [] then map[]
    else
      var m := Ref(lower, evs[..|evs| - 1]);
      Login(lower, m, m, evs[|evs| - 1]).0
  }

  /** Its reply to the last of `evs`. */
  function RefReply(lower: string -> string, evs: seq<Attempt>): Reply
    requires evs != []
  {
    var m := Ref(lower, evs[..|evs| - 1]);
    Login(lower, m, m, evs[|evs| - 1]).1
  }

  // ----- buckets that no later request can tell apart -----

  ghost predicate Same(b: Bucket, c: Bucket, now: real) {
    && Recent(b.fails, now, WINDOW) == Recent(c.fails, now, WINDOW)
    && (b.lockedUntil == c.lockedUntil || (b.lockedUntil <= now && c.lockedUntil <= now))
  }

  ghost predicate SameMaps(m: Buckets, n: Buckets, now: real) {
    forall k :: Same(Get(m, k), Get(n, k), now)
  }

  lemma SameLater(b: Bucket, c: Bucket, t: real, now: real)
    requires Same(b, c, t) && t <= now
    ensures Same(b, c, now)
  {
    RecentTwice(b.fails, t, now, WINDOW);
    RecentTwice(c.fails, t, now, WINDOW);
  }

  lemma DeadIsAbsent(b: Bucket, now: real)
    requires Dead(b, now) && now >= 0.0
    ensures Same(b, EMPTY_BUCKET, now)
  {
    RecentNone(b.fails, now, WINDOW);
  }

  lemma LiveSame(m: Buckets, n: Buckets, now: real)
    requires SameMaps(m, n, now) && now >= 0.0
    ensures SameMaps(Live(m, now), n, now)
  {
    forall k ensures Same(Get(Live(m, now), k), Get(n, k), now) {
      assert Same(Get(m, k), Get(n, k), now);
      if k in m && Dead(m[k], now) { DeadIsAbsent(m[k], now); }
    }
  }

  lemma TouchSame(b: Bucket, c: Bucket, cap: nat, now: real)
    requires Same(b, c, now)
    ensures Same(Touch(b, cap, now), Touch(c, cap, now), now)
  {
  }

  lemma RecordSame(m: Buckets, n: Buckets, ik: string, uk: string, now: real)
    requires SameMaps(m, n, now) && ik != uk
    ensures SameMaps(Record(m, ik, uk, now), Record(n, ik, uk, now), now)
    ensures Left(m, ik, now) == Left(n, ik, now)
  {
    hide Touch;
    assert Same(Get(m, ik), Get(n, ik), now) && Same(Get(m, uk), Get(n, uk), now);
    TouchSame(Get(m, ik), Get(n, ik), MAX_ATTEMPTS, now);
    TouchSame(Get(m, uk), Get(n, uk), GLOBAL_MAX_ATTEMPTS, now);
    forall k ensures Same(Get(Record(m, ik, uk, now), k), Get(Record(n, ik, uk, now), k), now) {
      assert Same(Get(m, k), Get(n, k), now);
    }
  }

  lemma LockedSame(m: Buckets, n: Buckets, ik: string, uk: string, now: real)
    requires SameMaps(m, n, now) && now >= 0.0
    ensures IsLocked(m, ik, uk, now) == IsLocked(n, ik, uk, now)
  {
    assert Same(Get(m, ik), Get(n, ik), now) && Same(Get(m, uk), Get(n, uk), now);
  }

  lemma LoginSame(lower: string -> string, m: Buckets, m': Buckets, n: Buckets, a: Attempt, reply: Reply)
    requires SameMaps(m, n, a.now) && a.now >= 0.0
    requires Step(lower, m, a, m', reply) && |Live(m, a.now)| <= MAX_BUCKETS
    ensures var (n', refReply) := Login(lower, n, n, a);
            reply == refReply && SameMaps(m', n', a.now)
  {
    hide Record, Left, IsLocked, SameMaps, Live, Evicts, IpKey, UserKey;
    var ik, uk := IpKey(lower, a.username, a.ip), UserKey(lower, a.username);
    LockedSame(m, n, ik, uk, a.now);
    var m1: Buckets :| (reply.Failed? ==> Evicts(m, m1, a.now)) && (m', reply) == Login(lower, m, m1, a);
    if reply.Failed? {
      EvictsLive(m, m1, a.now);
      LiveSame(m, n, a.now);
      KeysDiffer(lower, a.username, a.ip, a.username);
      RecordSame(m1, n, ik, uk, a.now);
    } else if reply.LoggedIn? {
      ResetSame(m, n, ik, uk, a.now);
    }
  }

  lemma EvictsLive(m: Buckets, m1: Buckets, now: real)
    requires Evicts(m, m1, now) && |Live(m, now)| <= MAX_BUCKETS
    ensures m1 == Live(m, now)
  {
  }

  lemma ResetSame(m: Buckets, n: Buckets, ik: string, uk: string, now: real)
    requires SameMaps(m, n, now)
    ensures SameMaps(Reset(m, ik, uk), Reset(n, ik, uk), now)
  {
    forall k ensures Same(Get(Reset(m, ik, uk), k), Get(Reset(n, ik, uk), k), now) {
      assert Same(Get(m, k), Get(n, k), now);
    }
  }

  lemma SameMapsLater(m: Buckets, n: Buckets, t: real, now: real)
    requires SameMaps(m, n, t) && t <= now
    ensures SameMaps(m, n, now)
  {
    forall k ensures Same(Get(m, k), Get(n, k), now) {
      SameLater(Get(m, k), Get(n, k), t, now);
    }
  }

  lemma {:induction false} RunSame(lower: string -> string, evs: seq<Attempt>, ms: seq<Buckets>, replies: seq<Reply>,
                                   i: nat)
    requires IsRun(lower, evs, ms, replies) && WithinCap(evs, ms) && i < |evs|
    ensures SameMaps(ms[i], Ref(lower, evs[..i]), evs[i].now)
    ensures SameMaps(ms[i + 1], Ref(lower, evs[..i + 1]), evs[i].now)
    ensures replies[i] == RefReply(lower, evs[..i + 1])
  {
    hide SameMaps, Step, Login, Live;
    var pre := evs[..i + 1];
    assert pre[..|pre| - 1] == evs[..i] && pre[|pre| - 1] == evs[i];
    if i == 0 {
      assert ms[0] == map[] == Ref(lower, evs[..0]);
      SameMapsRefl(map[], evs[0].now);
    } else {
      RunSame(lower, evs, ms, replies, i - 1);
      SameMapsLater(ms[i], Ref(lower, evs[..i]), evs[i - 1].now, evs[i].now);
    }
    LoginSame(lower, ms[i], ms[i + 1], Ref(lower, evs[..i]), evs[i], replies[i]);
  }

  lemma SameMapsRefl(m: Buckets, now: real)
    ensures SameMaps(m, m, now)
  {
  }

  /** Within the cap, every reply is that of a limiter that never forgets. */
  lemma EvictionInvisible(lower: string -> string, evs: seq<Attempt>, ms: seq<Buckets>, replies: seq<Reply>)
    requires IsRun(lower, evs, ms, replies) && WithinCap(evs, ms)
    ensures forall i :: 0 <= i < |evs| ==> replies[i] == RefReply(lower, evs[..i + 1])
  {
    forall i | 0 <= i < |evs| ensures replies[i] == RefReply(lower, evs[..i + 1]) {
      RunSame(lower, evs, ms, replies, i);
    }
  }

  // ----- the map stays bounded in every run -----

  lemma RecordSize(m: Buckets, ik: string, uk: string, now: real)
    ensures |Record(m, ik, uk, now)| <= |m| + 2
  {
    hide Touch;
    var m1 := m[ik := Touch(Get(m, ik), MAX_ATTEMPTS, now)];
    var m2 := Record(m, ik, uk, now);
    assert m1.Keys == m.Keys + {ik} && m2.Keys == m1.Keys + {uk};
    assert |m1.Keys| <= |m.Keys| + 1 && |m2.Keys| <= |m1.Keys| + 1;
  }

  lemma ResetSize(m: Buckets, ik: string, uk: string)
    ensures |Reset(m, ik, uk)| <= |m|
  {
    assert Reset(m, ik, uk).Keys == m.Keys - {ik} - {uk};
    assert |m.Keys - {ik}| <= |m.Keys| && |m.Keys - {ik} - {uk}| <= |m.Keys - {ik}|;
  }

  /** However many usernames are tried, the map never holds more than two buckets above the cap. */
  lemma {:induction false} MapBounded(lower: string -> string, evs: seq<Attempt>, ms: seq<Buckets>,
                                      replies: seq<Reply>, i: nat)
    requires IsRun(lower, evs, ms, replies) && i <= |evs|
    ensures |ms[i]| <= MAX_BUCKETS + 2
  {
    hide Record, Reset, IpKey, UserKey, IsLocked, Left, Live;
    if i > 0 {
      MapBounded(lower, evs, ms, replies, i - 1);
      var m, a := ms[i - 1], evs[i - 1];
      assert Step(lower, m, a, ms[i], replies[i - 1]);
      var m1: Buckets :| (replies[i - 1].Failed? ==> Evicts(m, m1, a.now))
          && (ms[i], replies[i - 1]) == Login(lower, m, m1, a);
      RecordSize(m1, IpKey(lower, a.username, a.ip), UserKey(lower, a.username), a.now);
      ResetSize(m, IpKey(lower, a.username, a.ip), UserKey(lower, a.username));
    }
  }

  // ----- how many failures fit into 899 seconds -----

  /** The limit behind the key `k`. */
  function CapOf(k: string): nat {
    if k != "" && k[0] == 'i' then MAX_ATTEMPTS else GLOBAL_MAX_ATTEMPTS
  }

  predicate Names(lower: string -> string, a: Attempt, k: string) {
    k == IpKey(lower, a.username, a.ip) || k == UserKey(lower, a.username)
  }

  /** The times of the failures recorded under `k` since its last successful login. */
  function Failures(lower: string -> string, evs: seq<Attempt>, replies: seq<Reply>, k: string): seq<real>
    requires |replies| == |evs|
  {
    if evs == [] then []
    else
      var n := |evs| - 1;
      var h := Failures(lower, evs[..n], replies[..n], k);
      if !Names(lower, evs[n], k) then h
      else if replies[n].Failed? then h + [evs[n].now]
      else if replies[n].LoggedIn? then []
      else h
  }

  /** How a bucket stands to the list `h` of its failures: it lists those after the last lock that
      were still recent at time `last`; `lock` counts those up to and including the last lock. */
  ghost predicate Tracks(b: Bucket, h: seq<real>, cap: nat, last: real, lock: nat, s: nat) {
    && lock <= s <= |h| && b.fails == h[s..] && |h| - s < cap
    && (forall i :: lock <= i < s ==> last - h[i] >= WINDOW)
    && (lock > 0 ==> b.lockedUntil == h[lock - 1] + LOCKOUT)
  }

  ghost predicate Inv(b: Bucket, h: seq<real>, cap: nat, last: real) {
    && Sorted(h) && (forall i :: 0 <= i < |h| ==> h[i] <= last)
    && Spaced(h, cap, LOCKOUT - 1.0, true)
    && exists lock: nat, s: nat :: Tracks(b, h, cap, last, lock, s)
  }

  lemma InvLater(b: Bucket, h: seq<real>, cap: nat, last: real, now: real)
    requires Inv(b, h, cap, last) && last <= now
    ensures Inv(b, h, cap, now)
  {
    var lock: nat, s: nat :| Tracks(b, h, cap, last, lock, s);
    assert Tracks(b, h, cap, now, lock, s);
  }

  /** A lock set at `t` refuses attempts up to one second before it runs out, and none later. */
  lemma LockSpan(t: real, now: real)
    ensures Larger(0, Trunc(t + LOCKOUT - now)) == 0 <==> now > t + LOCKOUT - 1.0
  {
  }

  /** The reply to a failure is honest: none left means the IP is locked for the whole lockout from this
      moment on, some left means it is not locked. */
  lemma LeftIsHonest(m: Buckets, ik: string, uk: string, now: real)
    requires ik != uk && Trunc(Get(m, ik).lockedUntil - now) <= 0
    ensures 0 <= Left(m, ik, now) < MAX_ATTEMPTS
    ensures var remaining := Remaining(Record(m, ik, uk, now), ik, now);
            if Left(m, ik, now) == 0 then remaining == 900 else remaining <= 0
  {
  }

  lemma SpacedAppend(b: Bucket, h: seq<real>, cap: nat, last: real, now: real, lock: nat, s: nat)
    requires Sorted(h) && Spaced(h, cap, LOCKOUT - 1.0, true) && Tracks(b, h, cap, last, lock, s)
    requires last <= now && Trunc(b.lockedUntil - now) <= 0 && cap > 0
    ensures Spaced(h + [now], cap, LOCKOUT - 1.0, true)
  {
    var g := h + [now];
    forall i, j | 0 <= i && j == i + cap && j < |g| ensures g[j] - g[i] > LOCKOUT - 1.0 {
      if j < |h| {
        assert h[j] - h[i] > LOCKOUT - 1.0;
      } else if i < lock {
        assert h[i] <= h[lock - 1];
      }
    }
  }

  /** The failures a bucket still counts at `now`, within the list of all of them. */
  lemma RecentPart(h: seq<real>, s: nat, now: real) returns (k: nat)
    requires Sorted(h) && s <= |h|
    ensures s <= k <= |h| && Recent(h[s..], now, WINDOW) == h[k..]
    ensures forall i :: s <= i < k ==> now - h[i] >= WINDOW
  {
    var t := h[s..];
    assert forall i :: 0 <= i < |t| ==> t[i] == h[s + i];
    var d := RecentSuffix(t, now, WINDOW);
    k := s + d;
    assert t[d..] == h[k..];
    forall i | s <= i < k ensures now - h[i] >= WINDOW {
      assert t[i - s] == h[i];
    }
  }

  lemma TouchTracks(b: Bucket, h: seq<real>, cap: nat, last: real, now: real, lock: nat, s: nat)
    returns (lock': nat, s': nat)
    requires Sorted(h) && Tracks(b, h, cap, last, lock, s) && last <= now && cap > 0
    ensures Tracks(Touch(b, cap, now), h + [now], cap, now, lock', s')
  {
    var g := h + [now];
    s' := RecentPart(h, s, now);
    lock' := lock;
    if |h| - s' + 1 >= cap {
      lock', s' := |g|, |g|;
    } else {
      assert Touch(b, cap, now).fails == g[s'..];
    }
  }

  lemma TouchInv(b: Bucket, h: seq<real>, cap: nat, last: real, now: real)
    requires Inv(b, h, cap, last) && last <= now && cap > 0
    requires Trunc(b.lockedUntil - now) <= 0
    ensures Inv(Touch(b, cap, now), h + [now], cap, now)
  {
    hide Spaced, Touch, Tracks;
    var lock: nat, s: nat :| Tracks(b, h, cap, last, lock, s);
    SpacedAppend(b, h, cap, last, now, lock, s);
    var lock', s' := TouchTracks(b, h, cap, last, now, lock, s);
  }

  /** Unless refused, an attempt finds neither of its buckets locked. */
  lemma NotLocked(m: Buckets, ik: string, uk: string, now: real)
    requires IsLocked(m, ik, uk, now) == 0 && now >= 0.0
    ensures Trunc(Get(m, ik).lockedUntil - now) <= 0 && Trunc(Get(m, uk).lockedUntil - now) <= 0
  {
  }

  ghost predicate RefReplies(lower: string -> string, evs: seq<Attempt>, replies: seq<Reply>) {
    |replies| == |evs| && forall i :: 0 <= i < |evs| ==> replies[i] == RefReply(lower, evs[..i + 1])
  }

  lemma {:induction false} BucketInv(lower: string -> string, evs: seq<Attempt>, replies: seq<Reply>, k: string)
    requires Ordered(evs) && evs != [] && RefReplies(lower, evs, replies)
    ensures Inv(Get(Ref(lower, evs), k), Failures(lower, evs, replies, k), CapOf(k), evs[|evs| - 1].now)
    decreases |evs|
  {
    hide Inv, IsLocked, Touch, IpKey, UserKey, Left;
    var n := |evs| - 1;
    var a, pre, preReplies := evs[n], evs[..n], replies[..n];
    assert evs[..n + 1] == evs;
    forall i | 0 <= i < n ensures preReplies[i] == RefReply(lower, pre[..i + 1]) {
      assert pre[..i + 1] == evs[..i + 1];
    }
    var h := Failures(lower, pre, preReplies, k);
    var m := Ref(lower, pre);
    if n == 0 {
      EmptyInv(k, a.now);
    } else {
      BucketInv(lower, pre, preReplies, k);
      InvLater(Get(m, k), h, CapOf(k), pre[n - 1].now, a.now);
    }
    StepInv(lower, m, a, h, k);
  }

  lemma EmptyInv(k: string, now: real)
    ensures Inv(EMPTY_BUCKET, [], CapOf(k), now)
  {
    assert Tracks(EMPTY_BUCKET, [], CapOf(k), now, 0, 0);
  }

  lemma StepInv(lower: string -> string, m: Buckets, a: Attempt, h: seq<real>, k: string)
    requires Inv(Get(m, k), h, CapOf(k), a.now) && a.now >= 0.0
    ensures var (m', reply) := Login(lower, m, m, a);
            Inv(Get(m', k),
                if !Names(lower, a, k) then h
                else if reply.Failed? then h + [a.now]
                else if reply.LoggedIn? then [] else h,
                CapOf(k), a.now)
  {
    hide Inv, IsLocked, Touch, Left;
    var ik, uk := IpKey(lower, a.username, a.ip), UserKey(lower, a.username);
    KeysDiffer(lower, a.username, a.ip, a.username);
    var (m', reply) := Login(lower, m, m, a);
    if reply.Failed? {
      NotLocked(m, ik, uk, a.now);
      if Names(lower, a, k) { TouchInv(Get(m, k), h, CapOf(k), a.now, a.now); }
    } else if reply.LoggedIn? {
      EmptyInv(k, a.now);
    }
  }

  /** In any run within the cap, any closed stretch of 899 seconds between successful logins holds at
      most 5 recorded failures of one username from one IP, and at most 30 of one username. */
  lemma AttemptsBounded(lower: string -> string, evs: seq<Attempt>, ms: seq<Buckets>, replies: seq<Reply>,
                        username: string, ip: string, start: real)
    requires IsRun(lower, evs, ms, replies) && WithinCap(evs, ms)
    ensures |Within(Failures(lower, evs, replies, IpKey(lower, username, ip)), start, start + 899.0, true)| <= 5
    ensures |Within(Failures(lower, evs, replies, UserKey(lower, username)), start, start + 899.0, true)| <= 30
  {
    hide IpKey, UserKey, Step;
    EvictionInvisible(lower, evs, ms, replies);
    var ik, uk := IpKey(lower, username, ip), UserKey(lower, username);
    CapsOf(lower, username, ip);
    if evs != [] {
      BucketInv(lower, evs, replies, ik);
      BucketInv(lower, evs, replies, uk);
      SpacedBound(Failures(lower, evs, replies, ik), MAX_ATTEMPTS, LOCKOUT - 1.0, true, start);
      SpacedBound(Failures(lower, evs, replies, uk), GLOBAL_MAX_ATTEMPTS, LOCKOUT - 1.0, true, start);
    }
  }

  lemma CapsOf(lower: string -> string, username: string, ip: string)
    ensures CapOf(IpKey(lower, username, ip)) == MAX_ATTEMPTS
    ensures CapOf(UserKey(lower, username)) == GLOBAL_MAX_ATTEMPTS
  {
    assert IpKey(lower, username, ip)[0] == 'i' && UserKey(lower, username)[0] == 'u';
  }
}
