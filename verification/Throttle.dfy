/** The per-IP throttles of unauthenticated endpoints: a sliding window over one dictionary. */
module Throttle {
  import opened Windows

  const WINDOW: real := 60.0
  const CAPTCHA_MAX: nat := 30
  const PASSKEY_MAX: nat := 20
  const MAX_TRACKED: nat := 50_000

  type Hits = map<string, seq<real>>

  function KeyOf(ip: string): string { if ip == "" then "?" else ip }

  function HitsOf(m: Hits, k: string): seq<real> { if k in m then m[k] else [] }

  /** The opportunistic clean-up, which only runs on an oversized map. */
  function CleanUp(m: Hits, now: real): Hits {
    if |m| > MAX_TRACKED then
      map k | k in m && !(m[k] == [] || now - m[k][|m[k]| - 1] > WINDOW) :: m[k]
    else m
  }

  /** Both throttles, `limit` being the number of calls allowed per window. */
  class SlidingWindow {
    const limit: nat
    var hits: Hits

    constructor (limit: nat)
      ensures hits == map[] && this.limit == limit
    {
      hits := map[];
      this.limit := limit;
    }

    method Allowed(ip: string, now: real) returns (allowed: bool)
      modifies this
      ensures (hits, allowed) == Call(old(hits), limit, ip, now)
      ensures Tidied(old(hits), hits, if ip == "" then "?" else ip, now)
    {
      if |hits| > MAX_TRACKED {
        hits := CleanUp(hits, now);
      }
      var recent := Recent(HitsOf(hits, KeyOf(ip)), now, WINDOW);
      if |recent| >= limit {
        hits := hits[KeyOf(ip) := recent];
        return false;
      }
      recent := recent + [now];
      hits := hits[KeyOf(ip) := recent];
      return true;
    }
  }

  /** Only the entry `own` of the caller changes; but beyond 50,000 entries others go whose last hit is over 60
      seconds old, or that have none, so that what is left is in use. */
  ghost predicate Tidied(was: Hits, now: Hits, own: string, at: real) {
    && own in now && (forall k :: k in now && k != own ==> k in was && now[k] == was[k])
    && (forall k :: k in was && k != own ==>
          (k in now <==> |was| <= 50_000 || (was[k] != [] && at - was[k][|was[k]| - 1] <= 60.0)))
  }

  function Call(m: Hits, limit: nat, ip: string, now: real): (Hits, bool) {
    var m1 := CleanUp(m, now);
    var recent := Recent(HitsOf(m1, KeyOf(ip)), now, WINDOW);
    if |recent| >= limit then (m1[KeyOf(ip) := recent], false)
    else (m1[KeyOf(ip) := recent + [now]], true)
  }

  // ----- runs -----

  datatype Request = Request(ip: string, now: real)

  ghost predicate Ordered(calls: seq<Request>) {
    forall i, j :: 0 <= i < j < |calls| ==> calls[i].now <= calls[j].now
  }

  /** The map after `calls`, starting from an empty one. */
  function State(calls: seq<Request>, limit: nat): Hits {
    if calls == [] then map[]
    else
      var n := |calls| - 1;
      Call(State(calls[..n], limit), limit, calls[n].ip, calls[n].now).0
  }

  /** The reply to the last of `calls`. */
  predicate Reply(calls: seq<Request>, limit: nat)
    requires calls != []
  {
    var n := |calls| - 1;
    Call(State(calls[..n], limit), limit, calls[n].ip, calls[n].now).1
  }

  /** When the calls from `k` were allowed. */
  function Allowances(calls: seq<Request>, limit: nat, k: string): seq<real> {
    if calls == [] then []
    else
      var n := |calls| - 1;
      var h := Allowances(calls[..n], limit, k);
      if KeyOf(calls[n].ip) == k && Reply(calls, limit) then h + [calls[n].now] else h
  }

  /** At any time not before `last`, the dictionary's hits and the true history look alike. */
  ghost predicate Mirrors(v: seq<real>, h: seq<real>, last: real) {
    && Sorted(v) && Sorted(h)
    && (forall i :: 0 <= i < |v| ==> v[i] <= last) && (forall i :: 0 <= i < |h| ==> h[i] <= last)
    && Recent(v, last, WINDOW) == Recent(h, last, WINDOW)
  }

  lemma MirrorsLater(v: seq<real>, h: seq<real>, last: real, now: real)
    requires Mirrors(v, h, last) && last <= now
    ensures Mirrors(v, h, now)
  {
    RecentTwice(v, last, now, WINDOW);
    RecentTwice(h, last, now, WINDOW);
  }

  lemma SortedAppend(h: seq<real>, now: real)
    requires Sorted(h) && forall i :: 0 <= i < |h| ==> h[i] <= now
    ensures Sorted(h + [now]) && forall i :: 0 <= i < |h + [now]| ==> (h + [now])[i] <= now
  {
  }

  lemma RecentSorted(v: seq<real>, now: real)
    requires Sorted(v)
    ensures Sorted(Recent(v, now, WINDOW))
  {
    var k := RecentSuffix(v, now, WINDOW);
    assert forall i :: 0 <= i < |v[k..]| ==> v[k..][i] == v[k + i];
  }

  /** The clean-up drops only entries with nothing recent in them. */
  lemma CleanUpMirrors(m: Hits, k: string, h: seq<real>, now: real)
    requires Mirrors(HitsOf(m, k), h, now)
    ensures Mirrors(HitsOf(CleanUp(m, now), k), h, now)
  {
    if k in m && k !in CleanUp(m, now) {
      var v := m[k];
      if v != [] { assert forall i :: 0 <= i < |v| ==> v[i] <= v[|v| - 1]; }
      RecentNone(v, now, WINDOW);
    }
  }

  /** The entry a call leaves under its own key mirrors the history as well. */
  lemma EntryMirrors(v: seq<real>, h: seq<real>, now: real)
    requires Mirrors(v, h, now)
    ensures var recent := Recent(v, now, WINDOW);
            Mirrors(recent, h, now) && Mirrors(recent + [now], h + [now], now)
  {
    hide Recent;
    var recent := Recent(v, now, WINDOW);
    RecentSorted(v, now);
    RecentTwice(v, now, now, WINDOW);
    RecentConcat(recent, [now], now, WINDOW);
    RecentConcat(h, [now], now, WINDOW);
    SortedAppend(recent, now);
    SortedAppend(h, now);
  }

  /** One call, seen from the key `k`. */
  lemma CallMirrors(m: Hits, limit: nat, r: Request, k: string, h: seq<real>)
    requires Mirrors(HitsOf(m, k), h, r.now)
    ensures var (m', ok) := Call(m, limit, r.ip, r.now);
            && Mirrors(HitsOf(m', k), if KeyOf(r.ip) == k && ok then h + [r.now] else h, r.now)
            && (KeyOf(r.ip) == k ==> ok == (|Recent(h, r.now, WINDOW)| < limit))
  {
    hide CleanUp, Recent, Sorted;
    CleanUpMirrors(m, k, h, r.now);
    EntryMirrors(HitsOf(CleanUp(m, r.now), k), h, r.now);
  }

  lemma {:induction false} StateMirrors(calls: seq<Request>, limit: nat, k: string)
    requires Ordered(calls) && calls != []
    ensures Mirrors(HitsOf(State(calls, limit), k), Allowances(calls, limit, k), calls[|calls| - 1].now)
    decreases |calls|
  {
    hide Mirrors, Call;
    StateBefore(calls, limit, k);
    var n := |calls| - 1;
    CallMirrors(State(calls[..n], limit), limit, calls[n], k, Allowances(calls[..n], limit, k));
  }

  lemma {:induction false} StateBefore(calls: seq<Request>, limit: nat, k: string)
    requires Ordered(calls) && calls != []
    ensures var n := |calls| - 1;
            Mirrors(HitsOf(State(calls[..n], limit), k), Allowances(calls[..n], limit, k), calls[n].now)
    decreases |calls|, 0
  {
    var n := |calls| - 1;
    if n > 0 {
      var pre := calls[..n];
      StateMirrors(pre, limit, k);
      MirrorsLater(HitsOf(State(pre, limit), k), Allowances(pre, limit, k), pre[n - 1].now, calls[n].now);
    }
  }

  /** A call is allowed exactly when fewer than `limit` calls of its IP were allowed in the last
      60 seconds, whatever other IPs did and whatever the clean-up dropped. */
  lemma AllowedIffWindowOpen(calls: seq<Request>, limit: nat)
    requires Ordered(calls) && calls != []
    ensures var n := |calls| - 1;
            Reply(calls, limit)
            <==> |Recent(Allowances(calls[..n], limit, KeyOf(calls[n].ip)), calls[n].now, WINDOW)| < limit
  {
    hide Mirrors, Call;
    var n := |calls| - 1;
    var k := KeyOf(calls[n].ip);
    StateBefore(calls, limit, k);
    CallMirrors(State(calls[..n], limit), limit, calls[n], k, Allowances(calls[..n], limit, k));
  }

  lemma {:induction false} AllowancesSpaced(calls: seq<Request>, limit: nat, k: string)
    requires Ordered(calls) && limit > 0
    ensures var h := Allowances(calls, limit, k);
            && Sorted(h) && Spaced(h, limit, WINDOW, false)
            && forall i :: 0 <= i < |h| ==> calls != [] && h[i] <= calls[|calls| - 1].now
    decreases |calls|
  {
    hide Call, State;
    if calls != [] {
      var n := |calls| - 1;
      var h := Allowances(calls[..n], limit, k);
      AllowancesSpaced(calls[..n], limit, k);
      AllowedIffWindowOpen(calls, limit);
      if KeyOf(calls[n].ip) == k && Reply(calls, limit) {
        SpacedAppend(h, limit, calls[n].now);
      }
    }
  }

  lemma SpacedAppend(h: seq<real>, limit: nat, now: real)
    requires Sorted(h) && Spaced(h, limit, WINDOW, false) && |Recent(h, now, WINDOW)| < limit
    ensures Spaced(h + [now], limit, WINDOW, false)
  {
    var k := RecentSuffix(h, now, WINDOW);
    var g := h + [now];
    forall i, j | 0 <= i && j == i + limit && j < |g| ensures g[j] - g[i] >= WINDOW {
      if j < |h| { assert h[j] - h[i] >= WINDOW; }
    }
  }

  /** Every 60-second half-open window holds at most `limit` allowed calls of one IP. */
  lemma WindowBounded(calls: seq<Request>, limit: nat, ip: string, start: real)
    requires Ordered(calls) && limit > 0
    ensures |Within(Allowances(calls, limit, KeyOf(ip)), start, start + WINDOW, false)| <= limit
  {
    AllowancesSpaced(calls, limit, KeyOf(ip));
    SpacedBound(Allowances(calls, limit, KeyOf(ip)), limit, WINDOW, false, start);
  }

  /** The two endpoints: 30 captcha fetches and 20 passkey starts per window. */
  lemma EndpointsBounded(captchas: seq<Request>, passkeys: seq<Request>, ip: string, start: real)
    requires Ordered(captchas) && Ordered(passkeys)
    ensures |Within(Allowances(captchas, CAPTCHA_MAX, KeyOf(ip)), start, start + 60.0, false)| <= 30
    ensures |Within(Allowances(passkeys, PASSKEY_MAX, KeyOf(ip)), start, start + 60.0, false)| <= 20
  {
    WindowBounded(captchas, CAPTCHA_MAX, ip, start);
    WindowBounded(passkeys, PASSKEY_MAX, ip, start);
  }
}
