/** Every reply of the login handler, from the failures before it. */
module LimiterExact {
  import opened Windows
  import opened Limiter
  import opened LimiterRuns

  // ----- who failed -----

  predicate SameUser(lower: string -> string, a: Attempt, username: string) { lower(a.username) == lower(username) }

  /** One username from one address; a missing address counts as `?`. */
  predicate SameSource(lower: string -> string, a: Attempt, username: string, ip: string) {
    lower(a.username) == lower(username) && (if a.ip == "" then "?" else a.ip) == (if ip == "" then "?" else ip)
  }

  /** The times of the failures of one username from one address since it last logged in. */
  function IpFailures(lower: string -> string, evs: seq<Attempt>, replies: seq<Reply>, username: string, ip: string)
    : seq<real>
    requires |replies| == |evs|
  {
    if evs == [] then []
    else
      var n := |evs| - 1;
      var h := IpFailures(lower, evs[..n], replies[..n], username, ip);
      if !SameSource(lower, evs[n], username, ip) then h
      else if replies[n].Failed? then h + [evs[n].now]
      else if replies[n].LoggedIn? then []
      else h
  }

  /** The times of the failures of one username, from anywhere, since it last logged in from anywhere. */
  function UserFailures(lower: string -> string, evs: seq<Attempt>, replies: seq<Reply>, username: string): seq<real>
    requires |replies| == |evs|
  {
    if evs == [] then []
    else
      var n := |evs| - 1;
      var h := UserFailures(lower, evs[..n], replies[..n], username);
      if !SameUser(lower, evs[n], username) then h
      else if replies[n].Failed? then h + [evs[n].now]
      else if replies[n].LoggedIn? then []
      else h
  }

  /** Addresses hold no `|`, the separator of the limiter's keys. */
  predicate Plain(ip: string) { '|' !in ip }

  lemma BarLast(x: string, p: string)
    requires Plain(p)
    ensures var s := x + "|" + p; s[|x|] == '|' && forall k :: |x| < k < |s| ==> s[k] != '|'
  {
    var s := x + "|" + p;
    forall k | |x| < k < |s| ensures s[k] != '|' {
      assert s[k] == p[k - |x| - 1];
    }
  }

  lemma BarSplits(x: string, p: string, y: string, q: string)
    requires Plain(p) && Plain(q) && x + "|" + p == y + "|" + q
    ensures x == y && p == q
  {
    var s, t := x + "|" + p, y + "|" + q;
    BarLast(x, p);
    BarLast(y, q);
    assert |x| == |y|;
    assert x == s[..|x|] && y == t[..|y|] && p == s[|x| + 1..] && q == t[|y| + 1..];
  }

  lemma SourceKey(lower: string -> string, a: Attempt, username: string, ip: string)
    requires Plain(a.ip) && Plain(ip)
    ensures Names(lower, a, IpKey(lower, username, ip)) <==> SameSource(lower, a, username, ip)
  {
    KeysDiffer(lower, username, ip, a.username);
    var x, p := lower(a.username), if a.ip == "" then "?" else a.ip;
    var y, q := lower(username), if ip == "" then "?" else ip;
    var s, t := IpKey(lower, a.username, a.ip), IpKey(lower, username, ip);
    assert s[3..] == x + "|" + p && t[3..] == y + "|" + q;
    if s == t { BarSplits(x, p, y, q); }
  }

  lemma UserNames(lower: string -> string, a: Attempt, username: string)
    ensures Names(lower, a, UserKey(lower, username)) <==> SameUser(lower, a, username)
  {
    KeysDiffer(lower, a.username, a.ip, username);
    assert UserKey(lower, a.username)[5..] == lower(a.username);
    assert UserKey(lower, username)[5..] == lower(username);
  }

  lemma {:induction false} IpFailuresAre(lower: string -> string, evs: seq<Attempt>, replies: seq<Reply>,
                                         username: string, ip: string)
    requires |replies| == |evs| && Plain(ip) && forall i :: 0 <= i < |evs| ==> Plain(evs[i].ip)
    ensures Failures(lower, evs, replies, IpKey(lower, username, ip)) == IpFailures(lower, evs, replies, username, ip)
    decreases |evs|
  {
    hide IpKey, UserKey, Names, SameSource, Plain;
    if evs != [] {
      var n := |evs| - 1;
      IpFailuresAre(lower, evs[..n], replies[..n], username, ip);
      SourceKey(lower, evs[n], username, ip);
    }
  }

  lemma {:induction false} UserFailuresAre(lower: string -> string, evs: seq<Attempt>, replies: seq<Reply>,
                                           username: string)
    requires |replies| == |evs|
    ensures Failures(lower, evs, replies, UserKey(lower, username)) == UserFailures(lower, evs, replies, username)
    decreases |evs|
  {
    hide IpKey, UserKey, Names, SameUser;
    if evs != [] {
      var n := |evs| - 1;
      UserFailuresAre(lower, evs[..n], replies[..n], username);
      UserNames(lower, evs[n], username);
    }
  }

  // ----- which failures lock -----

  /** Failure `i` of the list `h` locks: it is the `cap`-th within 900 seconds, none of these having locked. */
  predicate Locks(h: seq<real>, i: nat, cap: nat)
    requires i < |h| && cap > 0
    decreases i
  {
    i + 1 >= cap && h[i] - h[i + 1 - cap] < 900.0 && forall k :: i + 1 - cap <= k < i ==> !Locks(h, k, cap)
  }

  /** Some lock of the failures `h` has more than a second to go. */
  ghost predicate LockedOut(h: seq<real>, cap: nat, now: real)
    requires cap > 0
  {
    exists i :: 0 <= i < |h| && Locks(h, i, cap) && now <= h[i] + 899.0
  }

  lemma {:induction false} LocksPrefix(h: seq<real>, x: real, i: nat, cap: nat)
    requires i < |h| && cap > 0
    ensures Locks(h + [x], i, cap) == Locks(h, i, cap)
    decreases i
  {
    forall k | i + 1 - cap <= k < i && 0 <= k ensures Locks(h + [x], k, cap) == Locks(h, k, cap) {
      LocksPrefix(h, x, k, cap);
    }
  }

  /** The bucket `b` is locked by the last failure of `h` that locks, at position `lock - 1`, and lists the recent ones
      behind it. */
  ghost predicate Follows(b: Bucket, h: seq<real>, cap: nat, last: real, lock: nat, s: nat)
    requires cap > 0
  {
    && Tracks(b, h, cap, last, lock, s)
    && (lock > 0 ==> Locks(h, lock - 1, cap)) && (forall i :: lock <= i < |h| ==> !Locks(h, i, cap))
    && (lock == 0 ==> b.lockedUntil == 0.0)
  }

  ghost predicate Exact(b: Bucket, h: seq<real>, cap: nat, last: real)
    requires cap > 0
  {
    && Sorted(h) && (forall i :: 0 <= i < |h| ==> h[i] <= last)
    && exists lock: nat, s: nat :: Follows(b, h, cap, last, lock, s)
  }

  lemma ExactLater(b: Bucket, h: seq<real>, cap: nat, last: real, now: real)
    requires cap > 0 && Exact(b, h, cap, last) && last <= now
    ensures Exact(b, h, cap, now)
  {
    hide Locks;
    var lock: nat, s: nat :| Follows(b, h, cap, last, lock, s);
    assert Follows(b, h, cap, now, lock, s);
  }

  lemma ExactNone(cap: nat, now: real)
    requires cap > 0
    ensures Exact(EMPTY_BUCKET, [], cap, now)
  {
    assert Follows(EMPTY_BUCKET, [], cap, now, 0, 0);
  }

  /** The recent failures of a sorted list, from position `k` on. */
  lemma RecentFrom(h: seq<real>, s: nat, now: real) returns (k: nat)
    requires Sorted(h) && s <= |h|
    ensures s <= k <= |h| && Recent(h[s..], now, Limiter.WINDOW) == h[k..]
    ensures forall i :: s <= i < k ==> now - h[i] >= 900.0
    ensures forall i :: k <= i < |h| ==> now - h[i] < 900.0
  {
    k := RecentPart(h, s, now);
    var r := Recent(h[s..], now, Limiter.WINDOW);
    forall i | k <= i < |h| ensures now - h[i] < 900.0 {
      assert r[i - k] == h[i];
    }
  }

  /** Whether one more failure locks. */
  lemma NextLocks(h: seq<real>, cap: nat, now: real, lock: nat, k: nat)
    requires cap > 0 && lock <= k <= |h| && (lock > 0 ==> Locks(h, lock - 1, cap))
    requires forall i :: lock <= i < |h| ==> !Locks(h, i, cap)
    requires forall i :: lock <= i < k ==> now - h[i] >= 900.0
    requires forall i :: k <= i < |h| ==> now - h[i] < 900.0
    ensures Locks(h + [now], |h|, cap) <==> |h| - k + 1 >= cap
  {
    var g, n := h + [now], |h|;
    forall i | 0 <= i < n ensures Locks(g, i, cap) == Locks(h, i, cap) {
      LocksPrefix(h, now, i, cap);
    }
    hide Locks;
    var q := n + 1 - cap;
    if q >= k {
      assert g[q] == if q < n then h[q] else now;
      LocksIf(g, n, cap);
    }
    if Locks(g, n, cap) { LocksLate(h, cap, now, lock, k); }
  }

  /** A lock counts only failures that are recent and behind the last lock. */
  lemma LocksLate(h: seq<real>, cap: nat, now: real, lock: nat, k: nat)
    requires cap > 0 && lock <= k <= |h| && (lock > 0 ==> Locks(h + [now], lock - 1, cap))
    requires forall i :: lock <= i < k ==> now - h[i] >= 900.0
    requires Locks(h + [now], |h|, cap)
    ensures |h| + 1 - cap >= k
  {
    hide Locks;
    LocksOnly(h + [now], |h|, cap);
  }

  lemma LocksIf(h: seq<real>, i: nat, cap: nat)
    requires i < |h| && cap > 0 && i + 1 >= cap && h[i] - h[i + 1 - cap] < 900.0
    requires forall k :: i + 1 - cap <= k < i ==> !Locks(h, k, cap)
    ensures Locks(h, i, cap)
  {
  }

  lemma LocksOnly(h: seq<real>, i: nat, cap: nat)
    requires i < |h| && cap > 0 && Locks(h, i, cap)
    ensures i + 1 >= cap && h[i] - h[i + 1 - cap] < 900.0
    ensures forall k :: i + 1 - cap <= k < i ==> !Locks(h, k, cap)
  {
  }

  lemma SortedMore(h: seq<real>, now: real)
    requires Sorted(h) && forall i :: 0 <= i < |h| ==> h[i] <= now
    ensures Sorted(h + [now]) && forall i :: 0 <= i < |h + [now]| ==> (h + [now])[i] <= now
  {
  }

  lemma TouchFollows(b: Bucket, h: seq<real>, cap: nat, last: real, now: real, lock: nat, s: nat)
    returns (lock': nat, s': nat)
    requires cap > 0 && Sorted(h) && Follows(b, h, cap, last, lock, s) && last <= now
    ensures Follows(Touch(b, cap, now), h + [now], cap, now, lock', s')
    ensures |Recent(b.fails, now, Limiter.WINDOW)| + 1 >= cap <==> Locks(h + [now], |h|, cap)
  {
    hide Locks, Recent, Sorted;
    var k := RecentFrom(h, s, now);
    var g, n := h + [now], |h|;
    assert forall i :: lock <= i < k ==> now - h[i] >= 900.0;
    NextLocks(h, cap, now, lock, k);
    forall i | 0 <= i < n ensures Locks(g, i, cap) == Locks(h, i, cap) {
      LocksPrefix(h, now, i, cap);
    }
    if n - k + 1 >= cap {
      lock', s' := n + 1, n + 1;
    } else {
      lock', s' := lock, k;
      assert Touch(b, cap, now).fails == g[k..];
    }
  }

  lemma TouchExact(b: Bucket, h: seq<real>, cap: nat, last: real, now: real)
    requires cap > 0 && Exact(b, h, cap, last) && last <= now
    ensures Exact(Touch(b, cap, now), h + [now], cap, now)
    ensures |Recent(b.fails, now, Limiter.WINDOW)| + 1 >= cap <==> Locks(h + [now], |h|, cap)
  {
    hide Locks, Recent, Sorted, Follows, Touch;
    var lock: nat, s: nat :| Follows(b, h, cap, last, lock, s);
    SortedMore(h, now);
    var lock', s' := TouchFollows(b, h, cap, last, now, lock, s);
  }

  /** Some lock of the failures `h` runs for `seconds` whole seconds more. */
  ghost predicate RunsFor(h: seq<real>, cap: nat, now: real, seconds: int)
    requires cap > 0
  {
    exists i :: 0 <= i < |h| && Locks(h, i, cap) && (h[i] + 900.0 - now).Floor == seconds
  }

  ghost predicate RunsNoLonger(h: seq<real>, cap: nat, now: real, seconds: int)
    requires cap > 0
  {
    forall i :: 0 <= i < |h| && Locks(h, i, cap) ==> (h[i] + 900.0 - now).Floor <= seconds
  }

  /** The lock left on a bucket. */
  lemma ExactLocked(b: Bucket, h: seq<real>, cap: nat, now: real)
    requires cap > 0 && Exact(b, h, cap, now) && now >= 0.0
    ensures var left := Trunc(b.lockedUntil - now);
            && (left >= 1 <==> LockedOut(h, cap, now))
            && (left >= 1 ==> RunsFor(h, cap, now, left))
            && RunsNoLonger(h, cap, now, if left >= 1 then left else 0)
  {
    hide Locks;
    var lock: nat, s: nat :| Follows(b, h, cap, now, lock, s);
    if lock > 0 {
      assert forall i :: 0 <= i < |h| && Locks(h, i, cap) ==> i <= lock - 1 && h[i] <= h[lock - 1];
      assert Trunc(b.lockedUntil - now) >= 1 <==> now <= h[lock - 1] + 899.0;
    }
  }

  // ----- over runs -----

  lemma StepExact(lower: string -> string, m: Buckets, a: Attempt, h: seq<real>, k: string)
    requires Exact(Get(m, k), h, CapOf(k), a.now) && a.now >= 0.0
    ensures var (m', reply) := Login(lower, m, m, a);
            Exact(Get(m', k),
                  if !Names(lower, a, k) then h
                  else if reply.Failed? then h + [a.now]
                  else if reply.LoggedIn? then [] else h,
                  CapOf(k), a.now)
  {
    hide Exact, IsLocked, Touch, Left, IpKey, UserKey;
    var ik, uk := IpKey(lower, a.username, a.ip), UserKey(lower, a.username);
    KeysDiffer(lower, a.username, a.ip, a.username);
    CapsOf(lower, a.username, a.ip);
    var (m', reply) := Login(lower, m, m, a);
    if reply.Failed? {
      if Names(lower, a, k) { TouchExact(Get(m, k), h, CapOf(k), a.now, a.now); }
    } else if reply.LoggedIn? {
      ExactNone(CapOf(k), a.now);
    }
  }

  /** Before an attempt every bucket is what the failures of its key make of it. */
  lemma {:induction false} BeforeExact(lower: string -> string, evs: seq<Attempt>, replies: seq<Reply>, n: nat,
                                       k: string)
    requires Ordered(evs) && n < |evs| && RefReplies(lower, evs, replies)
    ensures Exact(Get(Ref(lower, evs[..n]), k), Failures(lower, evs[..n], replies[..n], k), CapOf(k), evs[n].now)
  {
    hide Exact, Login, Names;
    if n == 0 {
      ExactNone(CapOf(k), evs[0].now);
    } else {
      var pre, preReplies, l := evs[..n], replies[..n], n - 1;
      BeforeExact(lower, evs, replies, l, k);
      assert pre[..l] == evs[..l] && preReplies[..l] == replies[..l] && evs[..l + 1] == pre;
      var m, h := Ref(lower, pre[..l]), Failures(lower, pre[..l], preReplies[..l], k);
      StepExact(lower, m, evs[l], h, k);
      ExactLater(Get(Ref(lower, pre), k), Failures(lower, pre, preReplies, k), CapOf(k), evs[l].now, evs[n].now);
    }
  }

  lemma LockedIff(m: Buckets, ik: string, uk: string, now: real)
    requires now >= 0.0
    ensures var x, y := Trunc(Get(m, ik).lockedUntil - now), Trunc(Get(m, uk).lockedUntil - now);
            IsLocked(m, ik, uk, now) == if x >= 1 && x >= y then x else if y >= 1 then y else 0
  {
  }

  lemma NoLonger(h: seq<real>, g: seq<real>, now: real)
    ensures forall s, t :: s <= t && RunsNoLonger(h, 5, now, s) ==> RunsNoLonger(h, 5, now, t)
    ensures forall s, t :: s <= t && RunsNoLonger(g, 30, now, s) ==> RunsNoLonger(g, 30, now, t)
  {
    hide Locks;
  }

  /** In a run within the cap, the reply to each attempt follows from the failures before it: it is refused exactly
      if a fifth failure of its username from its address, or a thirtieth of its username, within 900 seconds and
      since the last lock, came at most 899 seconds ago, with the whole seconds the longest lock has left; else it is
      judged by its outcome, and a failure leaves no attempt exactly if it locks. Failures of other usernames play no
      part, and those from other addresses only in the count to thirty. */
  lemma RepliesExact(lower: string -> string, evs: seq<Attempt>, ms: seq<Buckets>, replies: seq<Reply>, j: nat)
    requires IsRun(lower, evs, ms, replies) && WithinCap(evs, ms) && j < |evs|
    requires forall i :: 0 <= i < |evs| ==> '|' !in evs[i].ip
    ensures var a := evs[j];
            var h := IpFailures(lower, evs[..j], replies[..j], a.username, a.ip);
            var g := UserFailures(lower, evs[..j], replies[..j], a.username);
            && (replies[j].Locked? <==> LockedOut(h, 5, a.now) || LockedOut(g, 30, a.now))
            && (replies[j].Locked? ==> var s := replies[j].seconds;
                  && (RunsFor(h, 5, a.now, s) || RunsFor(g, 30, a.now, s))
                  && RunsNoLonger(h, 5, a.now, s) && RunsNoLonger(g, 30, a.now, s))
            && (!replies[j].Locked? ==> match a.outcome
                  case Wrong => replies[j].Failed? && 0 <= replies[j].left < 5
                                && (replies[j].left == 0 <==> Locks(h + [a.now], |h|, 5))
                  case NeedsCode => replies[j] == CodeNeeded
                  case Correct => replies[j] == LoggedIn)
  {
    hide Exact, LockedOut, Locks, RunsFor, RunsNoLonger, IpKey, UserKey, IsLocked, Step, Live, Recent, Names, Ref,
         Failures, IpFailures, UserFailures;
    var a, pre, preReplies := evs[j], evs[..j], replies[..j];
    var ik, uk := IpKey(lower, a.username, a.ip), UserKey(lower, a.username);
    EvictionInvisible(lower, evs, ms, replies);
    BeforeExact(lower, evs, replies, j, ik);
    BeforeExact(lower, evs, replies, j, uk);
    CapsOf(lower, a.username, a.ip);
    IpFailuresAre(lower, pre, preReplies, a.username, a.ip);
    UserFailuresAre(lower, pre, preReplies, a.username);
    assert evs[..j + 1][..j] == pre && evs[..j + 1][j] == a;
    var m := Ref(lower, pre);
    var h := IpFailures(lower, pre, preReplies, a.username, a.ip);
    ExactLocked(Get(m, ik), h, 5, a.now);
    ExactLocked(Get(m, uk), UserFailures(lower, pre, preReplies, a.username), 30, a.now);
    LockedIff(m, ik, uk, a.now);
    NoLonger(h, UserFailures(lower, pre, preReplies, a.username), a.now);
    TouchExact(Get(m, ik), h, 5, a.now, a.now);
  }

  /** In a run within the cap any closed stretch of 899 seconds holds at most 5 of the failures of one username from
      one address since it last logged in, and at most 30 of one username. */
  lemma FailuresBounded(lower: string -> string, evs: seq<Attempt>, ms: seq<Buckets>, replies: seq<Reply>,
                        username: string, ip: string, start: real)
    requires IsRun(lower, evs, ms, replies) && WithinCap(evs, ms)
    requires '|' !in ip && forall i :: 0 <= i < |evs| ==> '|' !in evs[i].ip
    ensures var h := IpFailures(lower, evs, replies, username, ip);
            |set i | 0 <= i < |h| && start <= h[i] <= start + 899.0| <= 5
    ensures var g := UserFailures(lower, evs, replies, username);
            |set i | 0 <= i < |g| && start <= g[i] <= start + 899.0| <= 30
  {
    hide IpKey, UserKey, Step, Within, Failures, IpFailures, UserFailures;
    AttemptsBounded(lower, evs, ms, replies, username, ip, start);
    IpFailuresAre(lower, evs, replies, username, ip);
    UserFailuresAre(lower, evs, replies, username);
    var h, g := IpFailures(lower, evs, replies, username, ip), UserFailures(lower, evs, replies, username);
    WithinCount(h, start, start + 899.0, true);
    WithinCount(g, start, start + 899.0, true);
    assert (set i | 0 <= i < |h| && start <= h[i] <= start + 899.0) == WithinAt(h, start, start + 899.0, true);
    assert (set i | 0 <= i < |g| && start <= g[i] <= start + 899.0) == WithinAt(g, start, start + 899.0, true);
  }
}
