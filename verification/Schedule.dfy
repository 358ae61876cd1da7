/** Phase offsets of the repeating jobs: when two of them can fire in the same minute. */
module Schedule {
  import opened Common
  import opened NumberTheory

  /** An interval job: minutes from the fixed epoch to its first firing, and between firings. */
  datatype Job = Job(offset: nat, period: nat)

  ghost predicate Fires(j: Job, t: int)
    requires j.period > 0
  {
    t >= j.offset && (t - j.offset) % j.period == 0
  }

  ghost predicate Meet(a: Job, b: Job)
    requires a.period > 0 && b.period > 0
  {
    exists t: int :: Fires(a, t) && Fires(b, t)
  }

  /** The owner-settable cadences; the reaper and auto-renew cadences are in minutes too. */
  datatype Config = Config(syncHours: nat, guardMinutes: nat, backupHours: nat, rateHours: nat,
                           enforcementMinutes: nat, reaperMinutes: nat, deliveryMinutes: nat, autorenewMinutes: nat)

  /** `ScheduleConfig()` */
  const DEFAULTS := Config(6, 10, 2, 1, 5, 15, 1, 15)

  /** `_clamp`; `None` stands for a setting that is missing or no integer. */
  function Clamp(value: Option<int>, lo: nat, hi: nat, default: nat): (r: nat)
    requires lo <= default <= hi
    ensures lo <= r <= hi
  {
    if value.None? then default
    else
      var m := if value.value < hi then value.value else hi;
      if m > lo then m else lo
  }

  /** The owner's stored settings by key, as far as they set interval cadences. */
  function Load(s: string -> Option<int>): Config {
    Config(Clamp(s("sync_interval_hours"), 1, 24, 1), Clamp(s("guard_interval_minutes"), 1, 60, 10),
           Clamp(s("backup_interval_hours"), 1, 24, 2), Clamp(s("rate_refresh_hours"), 1, 24, 1),
           Clamp(s("enforcement_worker_interval_minutes"), 1, 60, 5),
           Clamp(s("storefront_pending_order_reaper_minutes"), 1, 1440, 15),
           Clamp(s("storefront_delivery_worker_interval_minutes"), 1, 60, 1),
           Clamp(s("storefront_autorenew_interval_minutes"), 1, 1440, 15))
  }

  /** `r` is the stored value cut to the range, or the default if none is stored. */
  predicate Takes(stored: Option<int>, lo: nat, hi: nat, default: nat, r: nat) {
    && (stored.None? ==> r == default)
    && (stored.Some? ==> (stored.value < lo ==> r == lo) && (stored.value > hi ==> r == hi)
                         && (lo <= stored.value <= hi ==> r == stored.value))
  }

  /** The minutes from the epoch at which a job fires that starts at `offset` and repeats every `minutes`. */
  ghost predicate FiresEvery(j: Job, offset: nat, minutes: nat) {
    && minutes > 0 && j.period > 0
    && forall t: int :: Fires(j, t) <==> t >= offset && (t - offset) % minutes == 0
  }

  /** Which stored setting drives which job, and from which minute on. */
  lemma StoredCadences(s: string -> Option<int>)
    ensures var c := Load(s);
            && Takes(s("enforcement_worker_interval_minutes"), 1, 60, 5, c.enforcementMinutes)
            && Takes(s("guard_interval_minutes"), 1, 60, 10, c.guardMinutes)
            && Takes(s("rate_refresh_hours"), 1, 24, 1, c.rateHours)
            && Takes(s("storefront_pending_order_reaper_minutes"), 1, 1440, 15, c.reaperMinutes)
            && Takes(s("storefront_autorenew_interval_minutes"), 1, 1440, 15, c.autorenewMinutes)
            && Takes(s("backup_interval_hours"), 1, 24, 2, c.backupHours)
            && Takes(s("sync_interval_hours"), 1, 24, 1, c.syncHours)
            && Takes(s("storefront_delivery_worker_interval_minutes"), 1, 60, 1, c.deliveryMinutes)
    ensures var c, js := Load(s), Staggered(Load(s));
            && |js| == 7 && js[5] == Backup(c) && js[6] == Sync(c)
            && FiresEvery(js[0], 2, c.enforcementMinutes) && FiresEvery(js[1], 3, c.guardMinutes)
            && FiresEvery(js[2], 5, 60 * c.rateHours) && FiresEvery(js[3], 6, c.reaperMinutes)
            && FiresEvery(js[4], 10, c.autorenewMinutes) && FiresEvery(js[5], 20, 60 * c.backupHours)
            && FiresEvery(js[6], 45, 60 * c.syncHours)
  {
    hide FiresEvery, Takes, Clamp;
    ClampTakes(s("enforcement_worker_interval_minutes"), 1, 60, 5);
    ClampTakes(s("guard_interval_minutes"), 1, 60, 10);
    ClampTakes(s("rate_refresh_hours"), 1, 24, 1);
    ClampTakes(s("storefront_pending_order_reaper_minutes"), 1, 1440, 15);
    ClampTakes(s("storefront_autorenew_interval_minutes"), 1, 1440, 15);
    ClampTakes(s("backup_interval_hours"), 1, 24, 2);
    ClampTakes(s("sync_interval_hours"), 1, 24, 1);
    ClampTakes(s("storefront_delivery_worker_interval_minutes"), 1, 60, 1);
    var c := Load(s);
    FiresJob(2, c.enforcementMinutes);
    FiresJob(3, c.guardMinutes);
    FiresJob(5, 60 * c.rateHours);
    FiresJob(6, c.reaperMinutes);
    FiresJob(10, c.autorenewMinutes);
    FiresJob(20, 60 * c.backupHours);
    FiresJob(45, 60 * c.syncHours);
  }

  lemma ClampTakes(stored: Option<int>, lo: nat, hi: nat, default: nat)
    requires lo <= default <= hi
    ensures Takes(stored, lo, hi, default, Clamp(stored, lo, hi, default))
  {
  }

  lemma FiresJob(offset: nat, minutes: nat)
    requires minutes > 0
    ensures FiresEvery(Job(offset, minutes), offset, minutes)
  {
  }

  function Heartbeat(): Job { Job(0, 2) }

  /** The interval jobs of `register`, except the heartbeat and the delivery worker. */
  function Staggered(c: Config): seq<Job> {
    [Job(2, c.enforcementMinutes), Job(3, c.guardMinutes), Job(5, 60 * c.rateHours), Job(6, c.reaperMinutes),
     Job(10, c.autorenewMinutes), Job(20, 60 * c.backupHours), Job(45, 60 * c.syncHours)]
  }

  function Sync(c: Config): Job { Job(45, 60 * c.syncHours) }

  function Backup(c: Config): Job { Job(20, 60 * c.backupHours) }

  // ----- progressions -----

  /** Divisibility carries over to a divisor of the period. */
  lemma FiresModulo(j: Job, t: int, d: nat)
    requires j.period > 0 && d > 0 && Divides(d, j.period) && Fires(j, t)
    ensures t % d == j.offset % d
  {
    var k :| j.period == d * k;
    var n := (t - j.offset) / j.period;
    assert t - j.offset == j.period * n == d * k * n == d * (k * n);
    ModUnique(t, d, j.offset % d, k * n + j.offset / d);
  }

  /** Two jobs ever share a minute exactly when the greatest common divisor of their periods divides
      the distance of their offsets. */
  lemma MeetIff(a: Job, b: Job)
    requires a.period > 0 && b.period > 0
    ensures Meet(a, b) <==> (a.offset - b.offset) % Egcd(a.period, b.period).0 == 0
  {
    hide Egcd, Meet;
    var g := Egcd(a.period, b.period).0;
    EgcdDivides(a.period, b.period);
    if Meet(a, b) {
      NeverApart(a, b, g);
    }
    if (a.offset - b.offset) % g == 0 {
      SomeMeeting(a, b);
    }
  }

  lemma SameResidue(x: int, y: int, g: int)
    requires g > 0 && x % g == y % g
    ensures (x - y) % g == 0
  {
    var i, j := x / g, y / g;
    assert x == g * i + x % g && y == g * j + y % g;
    assert x - y == g * (i - j);
    ModUnique(x - y, g, 0, i - j);
  }

  lemma NeverApart(a: Job, b: Job, g: nat)
    requires a.period > 0 && b.period > 0 && g > 0 && Divides(g, a.period) && Divides(g, b.period) && Meet(a, b)
    ensures (a.offset - b.offset) % g == 0
  {
    var t :| Fires(a, t) && Fires(b, t);
    FiresModulo(a, t, g);
    FiresModulo(b, t, g);
    SameResidue(a.offset, b.offset, g);
  }

  /** A common firing, from Bezout's identity, moved late enough. */
  lemma SomeMeeting(a: Job, b: Job)
    requires a.period > 0 && b.period > 0
    requires (a.offset - b.offset) % Egcd(a.period, b.period).0 == 0
    ensures Meet(a, b)
  {
    hide Egcd;
    var (g, x, y) := Egcd(a.period, b.period);
    Bezout(a.period, b.period);
    var d := (a.offset - b.offset) / g;
    var p, q := a.period, b.period;
    assert p * x + q * y == g && a.offset - b.offset == g * d;
    // one common instant, possibly before the epoch, then whole multiples of both periods later
    var t0 := a.offset - p * (x * d);
    assert t0 - b.offset == q * (y * d) by {
      assert g * d == (p * x + q * y) * d == p * x * d + q * y * d;
      assert p * x * d == p * (x * d) && q * y * d == q * (y * d);
    }
    var m := Later(t0, a.offset, b.offset, p * q);
    var t := t0 + p * q * m;
    assert t - a.offset == p * (q * m - x * d) by {
      assert p * (q * m - x * d) == p * (q * m) - p * (x * d);
      assert p * q * m == p * (q * m);
    }
    assert t - b.offset == q * (p * m + y * d) by {
      assert q * (p * m + y * d) == q * (p * m) + q * (y * d);
      assert p * q * m == q * (p * m);
    }
    ModUnique(t - a.offset, p, 0, q * m - x * d);
    ModUnique(t - b.offset, q, 0, p * m + y * d);
    assert Fires(a, t) && Fires(b, t);
  }

  lemma Later(t0: int, a: int, b: int, step: int) returns (m: nat)
    requires step > 0
    ensures t0 + step * m >= a && t0 + step * m >= b
  {
    var need := (if a > b then a else b) - t0;
    m := if need > 0 then need else 0;
    assert step * m >= m by { MulGrows(step, m); }
  }

  lemma MulGrows(s: int, m: nat)
    requires s > 0
    ensures s * m >= m
  {
  }

  // ----- the two heavyweights -----

  lemma HoursApart(c: Config, t: int, u: int)
    requires c.syncHours > 0 && c.backupHours > 0 && Fires(Sync(c), t) && Fires(Backup(c), u)
    ensures t - u >= 25 || u - t >= 25
  {
    assert Sync(c).period == 60 * c.syncHours && Backup(c).period == 60 * c.backupHours;
    FiresModulo(Sync(c), t, 60);
    FiresModulo(Backup(c), u, 60);
  }

  lemma LoadedHours(s: string -> Option<int>)
    ensures 1 <= Load(s).syncHours <= 24 && 1 <= Load(s).backupHours <= 24
  {
  }

  /** Whatever the stored settings are, a sync and a backup never fire within 25 minutes of each other. */
  lemma SyncBackupApart(s: string -> Option<int>, t: int, u: int)
    ensures Fires(Sync(Load(s)), t) && Fires(Backup(Load(s)), u) ==> t - u >= 25 || u - t >= 25
  {
    hide Load, Fires;
    LoadedHours(s);
    if Fires(Sync(Load(s)), t) && Fires(Backup(Load(s)), u) { HoursApart(Load(s), t, u); }
  }

  // ----- the staggered jobs -----

  /** The default minute cadences; cadences in hours are free. */
  predicate DefaultMinutes(c: Config) {
    && c.guardMinutes == 10 && c.enforcementMinutes == 5 && c.reaperMinutes == 15 && c.autorenewMinutes == 15
    && 1 <= c.syncHours <= 24 && 1 <= c.backupHours <= 24 && 1 <= c.rateHours <= 24
  }

  /** What the firing minute of each staggered job says modulo 5, 10, 15 and 60. */
  lemma Phase(c: Config, i: nat, t: int)
    requires DefaultMinutes(c) && i < 7 && Staggered(c)[i].period > 0 && Fires(Staggered(c)[i], t)
    ensures i == 0 ==> t % 5 == 2
    ensures i == 1 ==> t % 10 == 3
    ensures i == 2 ==> t % 60 == 5
    ensures i == 3 ==> t % 15 == 6
    ensures i == 4 ==> t % 15 == 10
    ensures i == 5 ==> t % 60 == 20
    ensures i == 6 ==> t % 60 == 45
  {
    var j := Staggered(c)[i];
    var d := if i == 0 then 5 else if i == 1 then 10 else if i == 3 || i == 4 then 15 else 60;
    var k := if i == 2 then c.rateHours else if i == 5 then c.backupHours else if i == 6 then c.syncHours else 1;
    assert j.period == d * k;
    FiresModulo(j, t, d);
  }

  /** At the default minute cadences, with any cadence in hours for sync, backup and rates, no two of
      the seven staggered jobs ever share a minute. */
  lemma NeverShareAMinute(c: Config, i: nat, k: nat, t: int)
    requires DefaultMinutes(c) && i < k < 7
    requires Staggered(c)[i].period > 0 && Staggered(c)[k].period > 0
    ensures !(Fires(Staggered(c)[i], t) && Fires(Staggered(c)[k], t))
  {
    hide Fires, DefaultMinutes;
    if Fires(Staggered(c)[i], t) && Fires(Staggered(c)[k], t) {
      Phase(c, i, t);
      Phase(c, k, t);
      hide Staggered;
      Fifths(t);
    }
  }

  /** The remainders modulo 5 and 15 of a phase modulo 10, 15 or 60. */
  lemma Fifths(t: int)
    ensures t % 5 == t % 10 % 5 == t % 15 % 5 == t % 60 % 5
    ensures t % 15 == t % 60 % 15
  {
    Coarser(t, 5, 2);
    Coarser(t, 5, 3);
    Coarser(t, 5, 12);
    Coarser(t, 15, 4);
  }

  lemma Coarser(t: int, d: nat, k: nat)
    requires d > 0 && k > 0
    ensures d * k > 0 && t % d == t % (d * k) % d
  {
    MulAtLeast(d, k);
    var m := d * k;
    var r := t % m;
    assert t == m * (t / m) + r && r == d * (r / d) + r % d;
    assert t == d * (k * (t / m) + r / d) + r % d by { assert m * (t / m) == d * (k * (t / m)); }
    ModUnique(t, d, r % d, k * (t / m) + r / d);
  }

  /** Which staggered jobs the two-minute heartbeat ever meets at the default cadences: those firing in
      some even minute. */
  lemma HeartbeatMeets(i: nat)
    requires i < 7
    ensures Meet(Heartbeat(), Staggered(DEFAULTS)[i]) <==> i in {0, 3, 4, 5}
  {
    var jobs := Staggered(DEFAULTS);
    if i == 0 { assert Fires(Heartbeat(), 2) && Fires(jobs[0], 2); }
    else if i == 3 { assert Fires(Heartbeat(), 6) && Fires(jobs[3], 6); }
    else if i == 4 { assert Fires(Heartbeat(), 10) && Fires(jobs[4], 10); }
    else if i == 5 { assert Fires(Heartbeat(), 20) && Fires(jobs[5], 20); }
    else {
      forall t | Fires(Heartbeat(), t) ensures !Fires(jobs[i], t) {
        assert Heartbeat().period == 2 * 1;
        FiresModulo(Heartbeat(), t, 2);
        if Fires(jobs[i], t) {
          assert jobs[i].period == 2 * (jobs[i].period / 2);
          FiresModulo(jobs[i], t, 2);
        }
      }
    }
  }
}
