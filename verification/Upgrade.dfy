/** `upgrade()`: merge, deduplicate, lower-case; and why a second run changes nothing. */
module Upgrade {
  import opened Common
  import opened MergeSpec
  import opened MergeOutcome
  import opened MergeRun
  import E = EnforcementSnapshots

  datatype Snapshot = Snapshot(panel: int, uuid: string, addedBy: Option<string>, synced: Option<nat>)

  /** `extra` is the sum of overage, edit-renewal and used-renewal gigabytes, missing ones counting 0. */
  datatype Meter = Meter(panel: int, uuid: string, period: string, extra: real)

  datatype Line = Line(uuid: string, addedBy: Option<string>)

  // ----- deduplication: the best row of each key stays -----

  predicate Beats(rank: map<int, real>, j: int, i: int)
    requires i in rank && j in rank
  {
    rank[j] > rank[i] || (rank[j] == rank[i] && j > i)
  }

  /** Rows that no row of the same key beats. */
  ghost function Winners<K>(key: map<int, K>, rank: map<int, real>): set<int>
    requires key.Keys == rank.Keys
  {
    set i | i in key && forall j :: j in key && key[j] == key[i] ==> !Beats(rank, j, i)
  }

  lemma WinnersUnique<K>(key: map<int, K>, rank: map<int, real>, i: int, j: int)
    requires key.Keys == rank.Keys && i in Winners(key, rank) && j in Winners(key, rank) && key[i] == key[j]
    ensures i == j
  {
    assert !Beats(rank, i, j) && !Beats(rank, j, i);
  }

  /** The best of some rows: `max(members, key=...)`. */
  method Best(rank: map<int, real>, members: set<int>) returns (b: int)
    requires members != {} && members <= rank.Keys
    ensures b in members && forall j :: j in members ==> !Beats(rank, j, b)
  {
    NonEmpty(members);
    b :| b in members;
    var todo := members - {b};
    while todo != {}
      invariant todo <= members && b in members
      invariant forall j :: j in members && j !in todo ==> !Beats(rank, j, b)
      decreases |todo|
    {
      NonEmpty(todo);
      var j :| j in todo;
      todo := todo - {j};
      if Beats(rank, j, b) { b := j; }
    }
  }

  /** The groups outside `todo` have been sifted: each keeps its winner and nothing else. */
  ghost predicate Sifted<K(!new)>(key: map<int, K>, rank: map<int, real>, kept: set<int>, todo: set<int>)
    requires key.Keys == rank.Keys
  {
    && todo <= kept <= key.Keys
    && (forall i, j :: i in todo && j in key && key[j] == key[i] ==> j in todo)
    && (forall i :: i in key && i !in todo ==> (i in kept <==> i in Winners(key, rank)))
    && (forall i :: i in key && i !in todo ==> exists w :: w in kept && key[w] == key[i] && !Beats(rank, i, w))
  }

  lemma SiftGroup<K(!new)>(key: map<int, K>, rank: map<int, real>, kept: set<int>, todo: set<int>, i: int,
                    members: set<int>, best: int)
    requires key.Keys == rank.Keys && Sifted(key, rank, kept, todo) && i in todo
    requires members == set j | j in key && key[j] == key[i]
    requires best in members && forall j :: j in members ==> !Beats(rank, j, best)
    ensures Sifted(key, rank, kept - (members - {best}), todo - members)
  {
    hide Winners, Beats;
    BestWins(key, rank, members, i, best);
    var kept', todo' := kept - (members - {best}), todo - members;
    forall j | j in key && j !in todo'
      ensures exists w :: w in kept' && key[w] == key[j] && !Beats(rank, j, w)
    {
      if j in members {
        assert best in kept' && key[best] == key[j];
      } else {
        var w :| w in kept && key[w] == key[j] && !Beats(rank, j, w);
        assert w !in members;
      }
    }
  }

  /** The loop over groups: deletes all but the best row of each key. */
  method KeepBest<K(==, !new)>(key: map<int, K>, rank: map<int, real>) returns (kept: set<int>)
    requires key.Keys == rank.Keys
    ensures kept == Winners(key, rank)
    ensures forall i :: i in key ==> exists w :: w in kept && key[w] == key[i] && !Beats(rank, i, w)
  {
    hide Beats, Sifted, Winners;
    kept := key.Keys;
    var todo := key.Keys;
    NothingSifted(key, rank);
    while todo != {}
      invariant todo <= key.Keys && Sifted(key, rank, kept, todo)
      decreases |todo|
    {
      NonEmpty(todo);
      var i :| i in todo;
      var members := set j | j in key && key[j] == key[i];
      assert i in members;
      var best := Best(rank, members);
      SiftGroup(key, rank, kept, todo, i, members, best);
      Smaller(todo, members, i);
      kept := kept - (members - {best});
      todo := todo - members;
    }
    AllSifted(key, rank, kept);
  }

  lemma NothingSifted<K(!new)>(key: map<int, K>, rank: map<int, real>)
    requires key.Keys == rank.Keys
    ensures Sifted(key, rank, key.Keys, key.Keys)
  {
  }

  lemma WinnersIn<K>(key: map<int, K>, rank: map<int, real>)
    requires key.Keys == rank.Keys
    ensures forall i :: i in Winners(key, rank) ==> i in key
  {
  }

  lemma AllSifted<K(!new)>(key: map<int, K>, rank: map<int, real>, kept: set<int>)
    requires key.Keys == rank.Keys && Sifted(key, rank, kept, {})
    ensures kept == Winners(key, rank)
    ensures forall i :: i in key ==> exists w :: w in kept && key[w] == key[i] && !Beats(rank, i, w)
  {
    WinnersIn(key, rank);
    hide Beats, Winners;
    forall i ensures i in kept <==> i in Winners(key, rank) {
      assert i in kept ==> i in key;
    }
  }

  lemma BestWins<K>(key: map<int, K>, rank: map<int, real>, members: set<int>, i: int, best: int)
    requires key.Keys == rank.Keys && i in key && members == set j | j in key && key[j] == key[i]
    requires best in members && forall j :: j in members ==> !Beats(rank, j, best)
    ensures forall j :: j in members ==> (j == best <==> j in Winners(key, rank))
  {
    assert best in Winners(key, rank);
    forall j | j in members && j in Winners(key, rank) ensures j == best {
      WinnersUnique(key, rank, j, best);
    }
  }

  lemma Smaller(a: set<int>, b: set<int>, i: int)
    requires i in a && i in b
    ensures |a - b| < |a|
  {
    assert a - b <= a - {i};
    SubsetSize(a - b, a - {i});
  }

  // ----- lower-casing -----

  function LowerOptional(lower: string -> string, s: Option<string>): Option<string> {
    match s case None => None case Some(v) => Some(lower(v))
  }

  function LowerReseller(lower: string -> string, r: Reseller): Reseller {
    r.(uuid := lower(r.uuid), parent := LowerOptional(lower, r.parent))
  }

  function LowerSnapshot(lower: string -> string, s: Snapshot): Snapshot {
    s.(uuid := lower(s.uuid), addedBy := LowerOptional(lower, s.addedBy))
  }

  function LowerMeter(lower: string -> string, m: Meter): Meter { m.(uuid := lower(m.uuid)) }

  /** `LIKE 'storefront_fee_%'`, where each `_` matches any one character. */
  predicate LikeFee(s: string) {
    |s| >= 15 && s[..10] == "storefront" && s[11..14] == "fee"
  }

  function LowerLine(lower: string -> string, l: Line): Line {
    Line(if LikeFee(l.uuid) then l.uuid else lower(l.uuid), LowerOptional(lower, l.addedBy))
  }

  // ----- the canonical state -----

  type SnapshotKey = (int, string)
  type MeterKey = (int, string, string)

  function SnapshotKeyOf(s: Snapshot): SnapshotKey { (s.panel, s.uuid) }

  function MeterKeyOf(m: Meter): MeterKey { (m.panel, m.uuid, m.period) }

  /** Uuid columns are lower case and unique under their original constraints. */
  ghost predicate CanonicalResellers(lower: string -> string, rs: map<int, Reseller>) {
    && (forall r :: r in rs ==> LowerReseller(lower, rs[r]) == rs[r])
    && (forall r, s :: r in rs && s in rs && r != s ==> (rs[r].panel, rs[r].uuid) != (rs[s].panel, rs[s].uuid))
  }

  ghost predicate CanonicalSnapshots(lower: string -> string, ss: map<int, Snapshot>) {
    && (forall i :: i in ss ==> LowerSnapshot(lower, ss[i]) == ss[i])
    && (forall i, j :: i in ss && j in ss && i != j ==> SnapshotKeyOf(ss[i]) != SnapshotKeyOf(ss[j]))
  }

  ghost predicate CanonicalMeters(lower: string -> string, ms: map<int, Meter>) {
    && (forall i :: i in ms ==> LowerMeter(lower, ms[i]) == ms[i])
    && (forall i, j :: i in ms && j in ms && i != j ==> MeterKeyOf(ms[i]) != MeterKeyOf(ms[j]))
  }

  ghost predicate CanonicalLines(lower: string -> string, ls: map<int, Line>) {
    forall i :: i in ls ==> LowerLine(lower, ls[i]) == ls[i]
  }

  /** The latest snapshot of each user, up to letter case. */
  ghost function LatestSnapshots(lower: string -> string, ss: map<int, Snapshot>): map<int, Snapshot> {
    var w := Winners(SnapshotKeys(lower, ss), SnapshotRanks(ss));
    map i | i in ss && i in w :: LowerSnapshot(lower, ss[i])
  }

  ghost function LargestMeters(lower: string -> string, ms: map<int, Meter>): map<int, Meter> {
    var w := Winners(MeterKeys(lower, ms), MeterRanks(ms));
    map i | i in ms && i in w :: LowerMeter(lower, ms[i])
  }

  function SnapshotKeys(lower: string -> string, ss: map<int, Snapshot>): map<int, SnapshotKey> {
    map i | i in ss :: (ss[i].panel, lower(ss[i].uuid))
  }

  function SnapshotRanks(ss: map<int, Snapshot>): map<int, real> {
    map i | i in ss :: Ts(ss[i].synced) as real
  }

  function MeterKeys(lower: string -> string, ms: map<int, Meter>): map<int, MeterKey> {
    map i | i in ms :: (ms[i].panel, lower(ms[i].uuid), ms[i].period)
  }

  function MeterRanks(ms: map<int, Meter>): map<int, real> {
    map i | i in ms :: ms[i].extra
  }

  lemma SnapshotsCanonical(lower: string -> string, ss: map<int, Snapshot>)
    requires Idempotent(lower)
    ensures CanonicalSnapshots(lower, LatestSnapshots(lower, ss))
  {
    var keys, ranks, out := SnapshotKeys(lower, ss), SnapshotRanks(ss), LatestSnapshots(lower, ss);
    forall i, j | i in out && j in out && i != j ensures SnapshotKeyOf(out[i]) != SnapshotKeyOf(out[j]) {
      if keys[i] == keys[j] { WinnersUnique(keys, ranks, i, j); }
    }
  }

  lemma MetersCanonical(lower: string -> string, ms: map<int, Meter>)
    requires Idempotent(lower)
    ensures CanonicalMeters(lower, LargestMeters(lower, ms))
  {
    var keys, ranks, out := MeterKeys(lower, ms), MeterRanks(ms), LargestMeters(lower, ms);
    forall i, j | i in out && j in out && i != j ensures MeterKeyOf(out[i]) != MeterKeyOf(out[j]) {
      if keys[i] == keys[j] { WinnersUnique(keys, ranks, i, j); }
    }
  }

  lemma SnapshotsStable(lower: string -> string, ss: map<int, Snapshot>)
    requires CanonicalSnapshots(lower, ss)
    ensures LatestSnapshots(lower, ss) == ss
  {
    var keys, ranks := SnapshotKeys(lower, ss), SnapshotRanks(ss);
    forall i | i in ss ensures i in Winners(keys, ranks) {
      forall j | j in keys && keys[j] == keys[i] ensures j == i {
        assert lower(ss[i].uuid) == LowerSnapshot(lower, ss[i]).uuid
            && lower(ss[j].uuid) == LowerSnapshot(lower, ss[j]).uuid;
        assert SnapshotKeyOf(ss[i]) == SnapshotKeyOf(ss[j]);
      }
    }
    var out := LatestSnapshots(lower, ss);
    assert out.Keys == ss.Keys;
    forall i | i in ss ensures out[i] == ss[i] {
    }
  }

  lemma MetersStable(lower: string -> string, ms: map<int, Meter>)
    requires CanonicalMeters(lower, ms)
    ensures LargestMeters(lower, ms) == ms
  {
    var keys, ranks := MeterKeys(lower, ms), MeterRanks(ms);
    forall i | i in ms ensures i in Winners(keys, ranks) {
      forall j | j in keys && keys[j] == keys[i] ensures j == i {
        assert lower(ms[i].uuid) == LowerMeter(lower, ms[i]).uuid && lower(ms[j].uuid) == LowerMeter(lower, ms[j]).uuid;
        assert MeterKeyOf(ms[i]) == MeterKeyOf(ms[j]);
      }
    }
    var out := LargestMeters(lower, ms);
    assert out.Keys == ms.Keys;
    forall i | i in ms ensures out[i] == ms[i] {
    }
  }

  function LowerResellers(lower: string -> string, rs: map<int, Reseller>): map<int, Reseller> {
    map r | r in rs :: LowerReseller(lower, rs[r])
  }

  function LowerLines(lower: string -> string, ls: map<int, Line>): map<int, Line> {
    map i | i in ls :: LowerLine(lower, ls[i])
  }

  lemma ResellersCanonical(lower: string -> string, db0: Db, db: Db)
    requires Idempotent(lower) && ResellersKept(db0, db) && OnePerGroup(lower, db0, db)
    ensures CanonicalResellers(lower, LowerResellers(lower, db.resellers))
  {
    var out := LowerResellers(lower, db.resellers);
    forall r, s | r in out && s in out && r != s ensures (out[r].panel, out[r].uuid) != (out[s].panel, out[s].uuid) {
      assert !SameGroup(lower, db0, r, s);
    }
  }

  lemma CanonicalNoDuplicates(lower: string -> string, rs: map<int, Reseller>)
    requires CanonicalResellers(lower, rs)
    ensures NoDuplicates(lower, rs) && LowerResellers(lower, rs) == rs
  {
    assert forall r :: r in rs ==> lower(rs[r].uuid) == LowerReseller(lower, rs[r]).uuid;
    assert LowerResellers(lower, rs).Keys == rs.Keys;
    forall r | r in rs ensures LowerResellers(lower, rs)[r] == rs[r] {
    }
  }

  lemma LinesStable(lower: string -> string, ls: map<int, Line>)
    requires CanonicalLines(lower, ls)
    ensures LowerLines(lower, ls) == ls
  {
    assert LowerLines(lower, ls).Keys == ls.Keys;
    forall i | i in ls ensures LowerLines(lower, ls)[i] == ls[i] {
    }
  }

  lemma LinesTwice(lower: string -> string, ls: map<int, Line>)
    requires Idempotent(lower)
    ensures CanonicalLines(lower, LowerLines(lower, ls))
  {
  }

  ghost predicate CanonicalActions(lower: string -> string, actions: map<int, E.Action>) {
    forall i :: i in actions ==> E.RewriteAction(lower, actions[i]) == actions[i]
  }

  lemma ActionsTwice(lower: string -> string, actions: map<int, E.Action>)
    requires Idempotent(lower)
    ensures CanonicalActions(lower, E.RewriteActions(lower, actions))
  {
    hide E.RewriteAction;
    forall i | i in actions
      ensures E.RewriteAction(lower, E.RewriteAction(lower, actions[i])) == E.RewriteAction(lower, actions[i])
    {
      E.RewriteActionTwice(lower, actions[i]);
    }
  }

  lemma ActionsStable(lower: string -> string, actions: map<int, E.Action>)
    requires CanonicalActions(lower, actions)
    ensures E.RewriteActions(lower, actions) == actions
  {
    hide E.RewriteAction;
    assert E.RewriteActions(lower, actions).Keys == actions.Keys;
    forall i | i in actions ensures E.RewriteActions(lower, actions)[i] == actions[i] {
    }
  }

  // ----- what is left, row by row -----

  /** Same value in lower case, or none in both. */
  predicate LoweredValue(lower: string -> string, was: Option<string>, now: Option<string>) {
    was.Some? == now.Some? && (was.Some? ==> now.value == lower(was.value))
  }

  predicate SameUser(lower: string -> string, s: Snapshot, t: Snapshot) {
    s.panel == t.panel && lower(s.uuid) == lower(t.uuid)
  }

  ghost predicate UserLeft(lower: string -> string, was: map<int, Snapshot>, left: set<int>, i: int, j: int) {
    i in left && i in was && j in was && SameUser(lower, was[i], was[j])
  }

  ghost predicate SnapshotsLowered(lower: string -> string, was: map<int, Snapshot>, now: map<int, Snapshot>) {
    forall i :: i in now ==>
      && i in was && now[i].panel == was[i].panel && now[i].uuid == lower(was[i].uuid)
      && now[i].synced == was[i].synced && LoweredValue(lower, was[i].addedBy, now[i].addedBy)
  }

  /** A missing time is the oldest, and a higher id breaks ties. */
  ghost predicate LatestLeft(lower: string -> string, was: map<int, Snapshot>, left: set<int>) {
    && (forall j :: j in was ==> exists i :: UserLeft(lower, was, left, i, j))
    && forall i, j :: UserLeft(lower, was, left, i, j) ==>
      && (was[j].synced.Some? ==> was[i].synced.Some? && was[j].synced.value <= was[i].synced.value)
      && (was[j].synced == was[i].synced ==> j <= i)
  }

  /** The snapshots left are the latest of their user up to letter case, lower-cased; each user has one. */
  ghost predicate SnapshotsLeft(lower: string -> string, was: map<int, Snapshot>, now: map<int, Snapshot>) {
    && SnapshotsLowered(lower, was, now) && LatestLeft(lower, was, now.Keys)
  }

  predicate SameMeter(lower: string -> string, m: Meter, n: Meter) {
    m.panel == n.panel && lower(m.uuid) == lower(n.uuid) && m.period == n.period
  }

  ghost predicate MeterLeft(lower: string -> string, was: map<int, Meter>, left: set<int>, i: int, j: int) {
    i in left && i in was && j in was && SameMeter(lower, was[i], was[j])
  }

  ghost predicate MetersLowered(lower: string -> string, was: map<int, Meter>, now: map<int, Meter>) {
    forall i :: i in now ==>
      && i in was && now[i].panel == was[i].panel && now[i].uuid == lower(was[i].uuid)
      && now[i].period == was[i].period && now[i].extra == was[i].extra
  }

  /** A higher id breaks ties. */
  ghost predicate LargestLeft(lower: string -> string, was: map<int, Meter>, left: set<int>) {
    && (forall j :: j in was ==> exists i :: MeterLeft(lower, was, left, i, j))
    && forall i, j :: MeterLeft(lower, was, left, i, j) ==>
      was[j].extra <= was[i].extra && (was[j].extra == was[i].extra ==> j <= i)
  }

  /** The meters left are the largest of their user and period up to letter case, lower-cased; each has one. */
  ghost predicate MetersLeft(lower: string -> string, was: map<int, Meter>, now: map<int, Meter>) {
    && MetersLowered(lower, was, now) && LargestLeft(lower, was, now.Keys)
  }

  /** A fee marker: `storefront`, any character, `fee`, any character, anything. */
  ghost predicate FeeMarker(s: string) {
    exists a: char, b: char, rest: string :: s == "storefront" + [a] + "fee" + [b] + rest
  }

  /** Every line stays; its uuids are lower-cased, a fee marker excepted. */
  ghost predicate LinesLeft(lower: string -> string, was: map<int, Line>, now: map<int, Line>) {
    && (forall i :: i in was <==> i in now)
    && (forall i :: i in now && i in was ==>
          && now[i].uuid == (if FeeMarker(was[i].uuid) then was[i].uuid else lower(was[i].uuid))
          && LoweredValue(lower, was[i].addedBy, now[i].addedBy))
  }

  ghost predicate ActionsLeft(lower: string -> string, was: map<int, E.Action>, now: map<int, E.Action>) {
    (forall i :: i in was <==> i in now) && forall i :: i in now && i in was ==> E.ActionLowered(lower, was[i], now[i])
  }

  /** The rows of the resellers left keep all but the letter case of the two uuids and the override columns. */
  ghost predicate IdentityLowered(lower: string -> string, was: map<int, Reseller>, now: map<int, Reseller>) {
    forall r :: r in now ==>
      && r in was && now[r].panel == was[r].panel && now[r].uuid == lower(was[r].uuid)
      && LoweredValue(lower, was[r].parent, now[r].parent) && now[r].lastSeen == was[r].lastSeen
  }

  /** Some row of the key wins. */
  lemma WinnerExists<K(!new)>(key: map<int, K>, rank: map<int, real>, j: int, rows: set<int>) returns (w: int)
    requires key.Keys == rank.Keys && rows <= key.Keys && j in rows
    requires forall i :: i in key && key[i] == key[j] ==> i in rows
    requires forall i :: i in rows ==> key[i] == key[j]
    ensures w in Winners(key, rank) && w in key && key[w] == key[j]
  {
    w := BestOf(rank, rows);
  }

  lemma {:induction false} BestOf(rank: map<int, real>, rows: set<int>) returns (w: int)
    requires rows != {} && rows <= rank.Keys
    ensures w in rows && forall i :: i in rows ==> !Beats(rank, i, w)
    decreases |rows|
  {
    NonEmpty(rows);
    var r :| r in rows;
    if rows == {r} {
      w := r;
    } else {
      var rest := rows - {r};
      assert rows == rest + {r};
      w := BestOf(rank, rest);
      if Beats(rank, r, w) { w := r; }
    }
  }

  lemma SnapshotsLower(lower: string -> string, rows: map<int, Snapshot>)
    ensures SnapshotsLowered(lower, rows, LatestSnapshots(lower, rows))
  {
    hide Winners, SnapshotKeys, SnapshotRanks;
  }

  lemma SnapshotBest(lower: string -> string, rows: map<int, Snapshot>, i: int, j: int)
    requires UserLeft(lower, rows, LatestSnapshots(lower, rows).Keys, i, j)
    ensures rows[j].synced.Some? ==> rows[i].synced.Some? && rows[j].synced.value <= rows[i].synced.value
    ensures rows[j].synced == rows[i].synced ==> j <= i
  {
    var keys, ranks := SnapshotKeys(lower, rows), SnapshotRanks(rows);
    assert keys[j] == keys[i] && !Beats(ranks, j, i);
  }

  lemma SnapshotSome(lower: string -> string, rows: map<int, Snapshot>, j: int) returns (i: int)
    requires j in rows
    ensures UserLeft(lower, rows, LatestSnapshots(lower, rows).Keys, i, j)
  {
    hide Winners;
    var keys, ranks := SnapshotKeys(lower, rows), SnapshotRanks(rows);
    i := WinnerExists(keys, ranks, j, set i | i in keys && keys[i] == keys[j]);
  }

  lemma SnapshotsBest(lower: string -> string, rows: map<int, Snapshot>)
    ensures LatestLeft(lower, rows, LatestSnapshots(lower, rows).Keys)
  {
    hide LatestSnapshots, SameUser;
    var left := LatestSnapshots(lower, rows).Keys;
    forall i, j | UserLeft(lower, rows, left, i, j)
      ensures rows[j].synced.Some? ==> rows[i].synced.Some? && rows[j].synced.value <= rows[i].synced.value
      ensures rows[j].synced == rows[i].synced ==> j <= i
    {
      SnapshotBest(lower, rows, i, j);
    }
    hide UserLeft;
    forall j | j in rows ensures exists i :: UserLeft(lower, rows, left, i, j) {
      var i := SnapshotSome(lower, rows, j);
    }
  }

  lemma SnapshotsAre(lower: string -> string, rows: map<int, Snapshot>)
    ensures SnapshotsLeft(lower, rows, LatestSnapshots(lower, rows))
  {
    hide LatestSnapshots, SnapshotsLowered, LatestLeft;
    SnapshotsLower(lower, rows);
    SnapshotsBest(lower, rows);
  }

  lemma MetersLower(lower: string -> string, rows: map<int, Meter>)
    ensures MetersLowered(lower, rows, LargestMeters(lower, rows))
  {
    hide Winners, MeterKeys, MeterRanks;
  }

  lemma MeterBest(lower: string -> string, rows: map<int, Meter>, i: int, j: int)
    requires MeterLeft(lower, rows, LargestMeters(lower, rows).Keys, i, j)
    ensures rows[j].extra <= rows[i].extra
    ensures rows[j].extra == rows[i].extra ==> j <= i
  {
    var keys, ranks := MeterKeys(lower, rows), MeterRanks(rows);
    assert keys[j] == keys[i] && !Beats(ranks, j, i);
  }

  lemma MeterSome(lower: string -> string, rows: map<int, Meter>, j: int) returns (i: int)
    requires j in rows
    ensures MeterLeft(lower, rows, LargestMeters(lower, rows).Keys, i, j)
  {
    hide Winners;
    var keys, ranks := MeterKeys(lower, rows), MeterRanks(rows);
    i := WinnerExists(keys, ranks, j, set i | i in keys && keys[i] == keys[j]);
  }

  lemma MetersBest(lower: string -> string, rows: map<int, Meter>)
    ensures LargestLeft(lower, rows, LargestMeters(lower, rows).Keys)
  {
    hide LargestMeters, SameMeter;
    var left := LargestMeters(lower, rows).Keys;
    forall i, j | MeterLeft(lower, rows, left, i, j)
      ensures rows[j].extra <= rows[i].extra
      ensures rows[j].extra == rows[i].extra ==> j <= i
    {
      MeterBest(lower, rows, i, j);
    }
    hide MeterLeft;
    forall j | j in rows ensures exists i :: MeterLeft(lower, rows, left, i, j) {
      var i := MeterSome(lower, rows, j);
    }
  }

  lemma MetersAre(lower: string -> string, rows: map<int, Meter>)
    ensures MetersLeft(lower, rows, LargestMeters(lower, rows))
  {
    hide LargestMeters, MetersLowered, LargestLeft;
    MetersLower(lower, rows);
    MetersBest(lower, rows);
  }

  lemma LikeFeeIs(s: string)
    ensures LikeFee(s) <==> FeeMarker(s)
  {
    if LikeFee(s) {
      assert s == s[..10] + [s[10]] + s[11..14] + [s[14]] + s[15..];
      assert s == "storefront" + [s[10]] + "fee" + [s[14]] + s[15..];
    }
    if a: char, b: char, rest: string :| s == "storefront" + [a] + "fee" + [b] + rest {
      assert s[..10] == "storefront" && s[11..14] == "fee";
    }
  }

  lemma LinesAre(lower: string -> string, ls: map<int, Line>)
    ensures LinesLeft(lower, ls, LowerLines(lower, ls))
  {
    hide LikeFee, FeeMarker;
    forall i | i in ls ensures LikeFee(ls[i].uuid) <==> FeeMarker(ls[i].uuid) {
      LikeFeeIs(ls[i].uuid);
    }
  }

  lemma ActionsAre(lower: string -> string, actions: map<int, E.Action>)
    ensures ActionsLeft(lower, actions, E.RewriteActions(lower, actions))
  {
    hide E.ActionLowered, E.RewriteAction;
    forall i | i in actions ensures E.ActionLowered(lower, actions[i], E.RewriteAction(lower, actions[i])) {
      E.ActionIs(lower, actions[i]);
    }
  }

  lemma IdentityOf(lower: string -> string, db0: Db, merged: Db)
    requires Kept(lower, db0, merged)
    ensures IdentityLowered(lower, db0.resellers, LowerResellers(lower, merged.resellers))
  {
  }

  /** Lower-casing the uuids of resellers does not touch what the merge promises. */
  lemma OutcomeLowered(lower: string -> string, db0: Db, merged: Db)
    requires Outcome(lower, db0, merged)
    ensures Outcome(lower, db0, merged.(resellers := LowerResellers(lower, merged.resellers)))
  {
    hide Twins, Filled, SameSpan, RanksOver, RowsSafe, MoneySafe, OwnSafe;
    assert LowerResellers(lower, merged.resellers).Keys == merged.resellers.Keys;
    RowsLowered(lower, db0, merged);
  }

  lemma RowsLowered(lower: string -> string, db0: Db, merged: Db)
    requires RowsSafe(lower, db0, merged.resellers.Keys, merged)
    ensures var db := merged.(resellers := LowerResellers(lower, merged.resellers));
            RowsSafe(lower, db0, merged.resellers.Keys, db)
  {
    hide Twins, Repointed, DetailsFollow;
  }

  // ----- the migration -----

  class Upgrader {
    const merge: Migration
    var snapshots: map<int, Snapshot>
    var meters: map<int, Meter>
    var lineUuids: map<int, Line>
    var actionJson: map<int, E.Action>

    constructor (merge: Migration, snapshots: map<int, Snapshot>, meters: map<int, Meter>,
                 lineUuids: map<int, Line>, actionJson: map<int, E.Action>)
      ensures this.merge == merge && this.snapshots == snapshots && this.meters == meters
      ensures this.lineUuids == lineUuids && this.actionJson == actionJson
    {
      this.merge, this.snapshots, this.meters := merge, snapshots, meters;
      this.lineUuids, this.actionJson := lineUuids, actionJson;
    }

    ghost predicate Canonical(lower: string -> string)
      reads this, merge
    {
      && CanonicalResellers(lower, merge.resellers) && CanonicalSnapshots(lower, snapshots)
      && CanonicalMeters(lower, meters) && CanonicalLines(lower, lineUuids)
      && CanonicalActions(lower, actionJson)
    }

    method DedupSnapshotsAndMeters(lower: string -> string)
      modifies `snapshots, `meters
      ensures var w := Winners(SnapshotKeys(lower, old(snapshots)), SnapshotRanks(old(snapshots)));
              snapshots == map i | i in old(snapshots) && i in w :: old(snapshots)[i]
      ensures var w := Winners(MeterKeys(lower, old(meters)), MeterRanks(old(meters)));
              meters == map i | i in old(meters) && i in w :: old(meters)[i]
      ensures LatestLeft(lower, old(snapshots), snapshots.Keys) && LargestLeft(lower, old(meters), meters.Keys)
    {
      hide Winners, LatestLeft, LargestLeft;
      SnapshotsBest(lower, snapshots);
      MetersBest(lower, meters);
      var kept := KeepBest(SnapshotKeys(lower, snapshots), SnapshotRanks(snapshots));
      snapshots := map i | i in snapshots && i in kept :: snapshots[i];
      assert snapshots.Keys == LatestSnapshots(lower, old(snapshots)).Keys;
      kept := KeepBest(MeterKeys(lower, meters), MeterRanks(meters));
      meters := map i | i in meters && i in kept :: meters[i];
      assert meters.Keys == LargestMeters(lower, old(meters)).Keys;
    }

    method LowercaseColumns(lower: string -> string)
      modifies `snapshots, `meters, `lineUuids, merge`resellers
      ensures merge.resellers == LowerResellers(lower, old(merge.resellers))
      ensures snapshots == map i | i in old(snapshots) :: LowerSnapshot(lower, old(snapshots)[i])
      ensures meters == map i | i in old(meters) :: LowerMeter(lower, old(meters)[i])
      ensures lineUuids == LowerLines(lower, old(lineUuids))
    {
      merge.resellers := LowerResellers(lower, merge.resellers);
      snapshots := map i | i in snapshots :: LowerSnapshot(lower, snapshots[i]);
      meters := map i | i in meters :: LowerMeter(lower, meters[i]);
      lineUuids := LowerLines(lower, lineUuids);
    }

    method RewriteEnforcementSnapshots(lower: string -> string)
      modifies `actionJson
      ensures actionJson == E.RewriteActions(lower, old(actionJson))
    {
      actionJson := E.RewriteActions(lower, actionJson);
    }

    /** Completes exactly when no settled money or bots collide; then every key is canonical. On a
        canonical database, so on any second run, it completes and changes nothing. */
    method Run(lower: string -> string, order: seq<int>) returns (ok: bool)
      requires Idempotent(lower) && Consistent(merge.Contents())
      requires NoRepeats(order) && forall r :: r in order <==> r in merge.resellers
      modifies this, merge
      ensures ok <==> !Clash(lower, old(merge.Contents()))
      ensures ok ==> Outcome(lower, old(merge.Contents()), merge.Contents())
      ensures ok ==> IdentityLowered(lower, old(merge.resellers), merge.resellers)
      ensures ok ==> SnapshotsLeft(lower, old(snapshots), snapshots) && MetersLeft(lower, old(meters), meters)
      ensures ok ==> LinesLeft(lower, old(lineUuids), lineUuids) && ActionsLeft(lower, old(actionJson), actionJson)
      ensures ok ==> Canonical(lower)
      ensures ok ==> snapshots == LatestSnapshots(lower, old(snapshots)) && meters == LargestMeters(lower, old(meters))
      ensures ok ==> lineUuids == LowerLines(lower, old(lineUuids))
      ensures ok ==> actionJson == E.RewriteActions(lower, old(actionJson))
      ensures ok ==> exists merged :: Merged(lower, old(merge.Contents()), merged, merge.Contents())
      ensures !ok ==> merge.Contents() == old(merge.Contents())
      ensures !ok || old(Canonical(lower)) ==> snapshots == old(snapshots) && meters == old(meters)
      ensures !ok || old(Canonical(lower)) ==> lineUuids == old(lineUuids) && actionJson == old(actionJson)
      ensures old(Canonical(lower)) ==> ok && merge.Contents() == old(merge.Contents())
    {
      hide Consistent, Collides, CanonicalResellers, CanonicalSnapshots, CanonicalMeters, CanonicalLines, NoDuplicates;
      hide LatestSnapshots, LargestMeters, Idempotent, CanonicalActions, E.RewriteActions, Clash, Outcome,
           SnapshotsLeft, MetersLeft, LinesLeft, ActionsLeft, IdentityLowered, Winners, LowerResellers, LowerLines;
      ghost var db0, ss, ms, ls, js := merge.Contents(), snapshots, meters, lineUuids, actionJson;
      if Canonical(lower) {
        CanonicalNoDuplicates(lower, merge.resellers);
        SnapshotsStable(lower, snapshots);
        MetersStable(lower, meters);
        LinesStable(lower, lineUuids);
        ActionsStable(lower, actionJson);
      }
      ok := merge.MergeResellers(lower, order);
      if !ok { return; }
      ghost var merged := merge.Contents();
      DedupSnapshotsAndMeters(lower);
      LowercaseColumns(lower);
      RewriteEnforcementSnapshots(lower);
      DedupLowered(lower, ss, ms);
      MergedCanonical(lower, db0, merged);
      SnapshotsCanonical(lower, ss);
      MetersCanonical(lower, ms);
      LinesTwice(lower, ls);
      ActionsTwice(lower, js);
      assert Merged(lower, db0, merged, merge.Contents());
      SnapshotsAre(lower, ss);
      MetersAre(lower, ms);
      LinesAre(lower, ls);
      ActionsAre(lower, js);
      OutcomeLowered(lower, db0, merged);
      IdentityOf(lower, db0, merged);
    }
  }

  /** The final tables are merged ones with the resellers' uuids in lower case. */
  ghost predicate Merged(lower: string -> string, db0: Db, merged: Db, final: Db) {
    && Kept(lower, db0, merged) && OnePerGroup(lower, db0, merged) && BestSurvive(lower, db0, merged)
    && final == merged.(resellers := LowerResellers(lower, merged.resellers))
  }

  lemma MergedCanonical(lower: string -> string, db0: Db, merged: Db)
    requires Idempotent(lower) && Kept(lower, db0, merged) && OnePerGroup(lower, db0, merged)
    ensures CanonicalResellers(lower, LowerResellers(lower, merged.resellers))
  {
    ResellersCanonical(lower, db0, merged);
  }

  lemma DedupLowered(lower: string -> string, ss: map<int, Snapshot>, ms: map<int, Meter>)
    ensures var w := Winners(SnapshotKeys(lower, ss), SnapshotRanks(ss));
            var kept := map i | i in ss && i in w :: ss[i];
            (map i | i in kept :: LowerSnapshot(lower, kept[i])) == LatestSnapshots(lower, ss)
    ensures var w := Winners(MeterKeys(lower, ms), MeterRanks(ms));
            var kept := map i | i in ms && i in w :: ms[i];
            (map i | i in kept :: LowerMeter(lower, kept[i])) == LargestMeters(lower, ms)
  {
  }

  // ----- parent links after the upgrade -----

  /** Whatever row a parent link matched up to letter case before, even one merged away, it now matches
      exactly one row, exactly: the survivor of that row's group. */
  lemma ParentsResolve(lower: string -> string, db0: Db, merged: Db, final: Db, child: int, parent: int)
    requires Merged(lower, db0, merged, final)
    requires child in final.resellers && parent in db0.resellers
    requires db0.resellers[child].parent.Some? && db0.resellers[child].panel == db0.resellers[parent].panel
    requires lower(db0.resellers[child].parent.value) == lower(db0.resellers[parent].uuid)
    ensures exists p :: p in final.resellers && SameGroup(lower, db0, parent, p)
                        && final.resellers[child].parent == Some(final.resellers[p].uuid)
    ensures forall p :: p in final.resellers && final.resellers[p].panel == final.resellers[child].panel
                        && final.resellers[child].parent == Some(final.resellers[p].uuid)
                        ==> SameGroup(lower, db0, parent, p)
  {
    hide Consistent, InvoicesKept, PeriodsKept, OwnInvoicesKept, OverridesKept, BestSurvive, RowsKept,
         DeliveriesKept, DetailsKept;
    var p :| p in merged.resellers && SameGroup(lower, db0, parent, p);
    assert SameIdentity(db0.resellers[p], merged.resellers[p])
        && SameIdentity(db0.resellers[child], merged.resellers[child]);
    forall q | q in final.resellers && final.resellers[q].panel == final.resellers[child].panel
               && final.resellers[child].parent == Some(final.resellers[q].uuid)
      ensures SameGroup(lower, db0, parent, q)
    {
      assert SameIdentity(db0.resellers[q], merged.resellers[q]);
    }
  }

  /** Between rows that remain, exact matching of parent links after the upgrade is matching up to letter
      case before it. */
  lemma MatchingSame(lower: string -> string, db0: Db, merged: Db, final: Db, child: int, parent: int)
    requires Merged(lower, db0, merged, final) && child in final.resellers && parent in final.resellers
    ensures final.resellers[child].parent == Some(final.resellers[parent].uuid)
            <==> db0.resellers[child].parent.Some?
                 && lower(db0.resellers[child].parent.value) == lower(db0.resellers[parent].uuid)
  {
    hide Consistent, InvoicesKept, PeriodsKept, OwnInvoicesKept, OverridesKept, BestSurvive, RowsKept,
         DeliveriesKept, DetailsKept;
    assert SameIdentity(db0.resellers[child], merged.resellers[child]);
    assert SameIdentity(db0.resellers[parent], merged.resellers[parent]);
  }

  /** `child`'s parent link names `parent`, up to letter case when `fold`. */
  predicate Names(lower: string -> string, rs: map<int, Reseller>, child: int, parent: int, fold: bool)
    requires child in rs && parent in rs
  {
    && rs[child].panel == rs[parent].panel && rs[child].parent.Some?
    && if fold then lower(rs[child].parent.value) == lower(rs[parent].uuid)
       else rs[child].parent.value == rs[parent].uuid
  }

  /** A remaining row's parent link finds a row exactly after the upgrade if and only if it found one up to
      letter case before: links that dangled still dangle. */
  lemma DanglingSame(lower: string -> string, db0: Db, merged: Db, final: Db, child: int)
    requires Merged(lower, db0, merged, final) && child in final.resellers
    ensures child in db0.resellers
    ensures (exists p :: p in final.resellers && Names(lower, final.resellers, child, p, false))
            <==> exists p :: p in db0.resellers && Names(lower, db0.resellers, child, p, true)
  {
    hide Consistent, InvoicesKept, PeriodsKept, OwnInvoicesKept, OverridesKept, BestSurvive, RowsKept,
         DeliveriesKept, DetailsKept;
    assert SameIdentity(db0.resellers[child], merged.resellers[child]);
    if p :| p in final.resellers && Names(lower, final.resellers, child, p, false) {
      MatchingSame(lower, db0, merged, final, child, p);
      assert SameIdentity(db0.resellers[p], merged.resellers[p]);
      assert Names(lower, db0.resellers, child, p, true);
    }
    if q :| q in db0.resellers && Names(lower, db0.resellers, child, q, true) {
      ParentsResolve(lower, db0, merged, final, child, q);
      var p :| p in final.resellers && SameGroup(lower, db0, q, p)
               && final.resellers[child].parent == Some(final.resellers[p].uuid);
      assert SameIdentity(db0.resellers[p], merged.resellers[p]);
      assert Names(lower, final.resellers, child, p, false);
    }
  }
}
