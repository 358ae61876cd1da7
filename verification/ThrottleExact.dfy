/** Which calls a throttle allows, by the addresses and times of the calls before. */
module ThrottleExact {
  import opened Windows
  import opened Throttle

  /** Calls of one address; a missing one counts as `?`. */
  predicate SameIp(a: string, b: string) { (if a == "" then "?" else a) == (if b == "" then "?" else b) }

  /** The earlier calls of this address that were allowed less than 60 seconds ago. */
  ghost function Counted(calls: seq<Request>, limit: nat, n: nat, ip: string, now: real): set<int>
    requires n <= |calls|
  {
    set i | 0 <= i < n && SameIp(calls[i].ip, ip) && Reply(calls[..i + 1], limit) && now - calls[i].now < 60.0
  }

  lemma CountedNext(calls: seq<Request>, limit: nat, n: nat, ip: string, now: real)
    requires n < |calls|
    ensures Counted(calls, limit, n + 1, ip, now)
         == Counted(calls, limit, n, ip, now)
            + (if SameIp(calls[n].ip, ip) && Reply(calls[..n + 1], limit) && now - calls[n].now < 60.0 then {n} else {})
    ensures n !in Counted(calls, limit, n, ip, now)
  {
    hide Reply;
  }

  lemma CountedNone(calls: seq<Request>, limit: nat, ip: string, now: real)
    ensures Counted(calls, limit, 0, ip, now) == {}
  {
  }

  lemma {:induction false} CountedAre(calls: seq<Request>, limit: nat, n: nat, ip: string, now: real)
    requires n <= |calls|
    ensures |Recent(Allowances(calls[..n], limit, KeyOf(ip)), now, WINDOW)| == |Counted(calls, limit, n, ip, now)|
  {
    hide Recent, Reply, Counted;
    var k := KeyOf(ip);
    if n == 0 {
      CountedNone(calls, limit, ip, now);
      RecentEmpty([], now, WINDOW);
    } else {
      var pre := calls[..n];
      CountedAre(calls, limit, n - 1, ip, now);
      CountedNext(calls, limit, n - 1, ip, now);
      assert pre[..n - 1] == calls[..n - 1] && pre[n - 1] == calls[n - 1] && calls[..n - 1 + 1] == pre;
      var h, t := Allowances(calls[..n - 1], limit, k), calls[n - 1].now;
      RecentConcat(h, [t], now, WINDOW);
      RecentStep([t], t, [], now, WINDOW);
      RecentEmpty([], now, WINDOW);
    }
  }

  /** A call is allowed exactly if fewer than `limit` calls of its address were allowed in the last 60 seconds: no
      other address and no clean-up plays a part. */
  lemma AllowedExact(calls: seq<Request>, limit: nat, n: nat)
    requires Ordered(calls) && n < |calls|
    ensures Reply(calls[..n + 1], limit)
            <==> |set i | 0 <= i < n && SameIp(calls[i].ip, calls[n].ip) && Reply(calls[..i + 1], limit)
                          && calls[n].now - calls[i].now < 60.0| < limit
  {
    hide Recent, Reply;
    var upto := calls[..n + 1];
    assert upto[..n] == calls[..n] && upto[n] == calls[n];
    AllowedIffWindowOpen(upto, limit);
    CountedAre(calls, limit, n, calls[n].ip, calls[n].now);
  }

  /** The two endpoints: of one address a captcha is fetched exactly if fewer than 30 were in the last 60 seconds, and a
      passkey login started exactly if fewer than 20 were. */
  lemma EndpointsExact(calls: seq<Request>, n: nat)
    requires Ordered(calls) && n < |calls|
    ensures Reply(calls[..n + 1], CAPTCHA_MAX)
            <==> |set i | 0 <= i < n && SameIp(calls[i].ip, calls[n].ip) && Reply(calls[..i + 1], CAPTCHA_MAX)
                          && calls[n].now - calls[i].now < 60.0| < 30
    ensures Reply(calls[..n + 1], PASSKEY_MAX)
            <==> |set i | 0 <= i < n && SameIp(calls[i].ip, calls[n].ip) && Reply(calls[..i + 1], PASSKEY_MAX)
                          && calls[n].now - calls[i].now < 60.0| < 20
  {
    hide Reply;
    AllowedExact(calls, CAPTCHA_MAX, n);
    AllowedExact(calls, PASSKEY_MAX, n);
  }
}
