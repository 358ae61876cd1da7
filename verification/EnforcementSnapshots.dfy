/** `_rewrite_enforcement_snapshots`: lower-casing the uuid keys inside stored JSON. */
module EnforcementSnapshots {
  import opened Common
  import opened MergeSpec

  /** A JSON value inside a snapshot: a string, or anything the migration copies as it is. */
  datatype Json = Str(s: string) | Other(tag: int)

  /** A JSON object, in insertion order. */
  type Dict = seq<(string, Json)>

  ghost predicate IsDict(d: Dict) { forall i, j :: 0 <= i < j < |d| ==> d[i].0 != d[j].0 }

  /** `d[k] = v`: an existing key keeps its place. */
  function Put(d: Dict, k: string, v: Json): Dict {
    if d == [] then [(k, v)]
    else if d[0].0 == k then [(k, v)] + d[1..]
    else [d[0]] + Put(d[1..], k, v)
  }

  /** The value last stored under `k`. */
  function Lookup(d: Dict, k: string): Option<Json> {
    if d == [] then None
    else if d[|d| - 1].0 == k then Some(d[|d| - 1].1)
    else Lookup(d[..|d| - 1], k)
  }

  function LowerValue(lower: string -> string, v: Json): Json { if v.Str? then Str(lower(v.s)) else v }

  /** `{k.lower(): v for k, v in d.items()}`, lower-casing string values too when `values`. */
  function LowerKeys(lower: string -> string, d: Dict, values: bool): Dict {
    if d == [] then []
    else
      var (k, v) := d[|d| - 1];
      Put(LowerKeys(lower, d[..|d| - 1], values), lower(k), if values then LowerValue(lower, v) else v)
  }

  function LowerAll(lower: string -> string, l: seq<string>): (r: seq<string>)
    ensures |r| == |l| && forall i :: 0 <= i < |l| ==> r[i] == lower(l[i])
  {
    if l == [] then [] else LowerAll(lower, l[..|l| - 1]) + [lower(l[|l| - 1])]
  }

  /** Four uuid lists, four per-uuid tables and the captured limits of a running action. */
  datatype Progress = Progress(lists: seq<Option<seq<string>>>, tables: seq<Option<Dict>>, captured: Option<Dict>)

  datatype Snap = Snap(users: Dict, admins: Option<seq<string>>, limits: Option<Dict>, progress: Option<Progress>)

  /** An action row; `snapshot` is missing when it is null or not an object. */
  datatype Action = Action(status: string, snapshot: Option<Snap>)

  function LowerMaybe(lower: string -> string, d: Option<Dict>): Option<Dict> {
    match d case None => None case Some(x) => Some(LowerKeys(lower, x, false))
  }

  function LowerList(lower: string -> string, l: Option<seq<string>>): Option<seq<string>> {
    match l case None => None case Some(x) => Some(LowerAll(lower, x))
  }

  /** A missing table becomes an empty one. */
  function LowerTable(lower: string -> string, d: Option<Dict>): Option<Dict> {
    match d case None => Some([]) case Some(x) => Some(LowerKeys(lower, x, false))
  }

  function RewriteProgress(lower: string -> string, p: Progress): Progress {
    Progress(seq(|p.lists|, i requires 0 <= i < |p.lists| => LowerList(lower, p.lists[i])),
             seq(|p.tables|, i requires 0 <= i < |p.tables| => LowerTable(lower, p.tables[i])),
             LowerMaybe(lower, p.captured))
  }

  function RewriteSnap(lower: string -> string, s: Snap): Snap {
    Snap(LowerKeys(lower, s.users, true), LowerList(lower, s.admins), LowerMaybe(lower, s.limits),
         match s.progress case None => None case Some(p) => Some(RewriteProgress(lower, p)))
  }

  predicate Live(a: Action) { a.status != "reverted" && a.status != "dry_run" }

  function RewriteAction(lower: string -> string, a: Action): Action {
    if a.snapshot.Some? && Live(a) then a.(snapshot := Some(RewriteSnap(lower, a.snapshot.value))) else a
  }

  function RewriteActions(lower: string -> string, actions: map<int, Action>): map<int, Action> {
    map i | i in actions :: RewriteAction(lower, actions[i])
  }

  // ----- what the rewritten keys are -----

  lemma {:induction false} PutKeys(d: Dict, k: string, v: Json)
    requires IsDict(d)
    ensures IsDict(Put(d, k, v))
    ensures forall e :: e in Put(d, k, v) ==> e == (k, v) || e in d
  {
    if d != [] {
      assert d == [d[0]] + d[1..];
      if d[0].0 != k {
        PutKeys(d[1..], k, v);
        forall e | e in Put(d[1..], k, v) ensures e.0 != d[0].0 {
          if e != (k, v) {
            var i :| 0 <= i < |d[1..]| && d[1..][i] == e;
            assert d[i + 1] == e;
          }
        }
      }
    }
  }

  /** Every key and, when asked, every string value is a fixed point of `lower`. */
  ghost predicate Lowered(lower: string -> string, d: Dict, values: bool) {
    forall e :: e in d ==> lower(e.0) == e.0 && (values ==> LowerValue(lower, e.1) == e.1)
  }

  lemma {:induction false} LowerKeysLowered(lower: string -> string, d: Dict, values: bool)
    requires Idempotent(lower)
    ensures IsDict(LowerKeys(lower, d, values)) && Lowered(lower, LowerKeys(lower, d, values), values)
  {
    if d != [] {
      var (k, v) := d[|d| - 1];
      LowerKeysLowered(lower, d[..|d| - 1], values);
      PutKeys(LowerKeys(lower, d[..|d| - 1], values), lower(k), if values then LowerValue(lower, v) else v);
    }
  }

  lemma {:induction false} PutNew(d: Dict, k: string, v: Json)
    requires forall e :: e in d ==> e.0 != k
    ensures Put(d, k, v) == d + [(k, v)]
  {
    if d != [] {
      assert d == [d[0]] + d[1..];
      PutNew(d[1..], k, v);
    }
  }

  /** A dictionary that is already lower case stays as it is. */
  lemma {:induction false} LowerKeysStable(lower: string -> string, d: Dict, values: bool)
    requires IsDict(d) && Lowered(lower, d, values)
    ensures LowerKeys(lower, d, values) == d
  {
    if d != [] {
      var pre, k, v := d[..|d| - 1], d[|d| - 1].0, d[|d| - 1].1;
      assert d == pre + [(k, v)];
      assert (k, v) in d;
      LowerKeysStable(lower, pre, values);
      forall e | e in pre ensures e.0 != k {
        var i :| 0 <= i < |pre| && pre[i] == e;
        assert d[i].0 != d[|d| - 1].0;
      }
      PutNew(pre, k, v);
    }
  }

  lemma {:induction false} LookupPut(d: Dict, k: string, v: Json, x: string)
    requires IsDict(d)
    ensures Lookup(Put(d, k, v), x) == if x == k then Some(v) else Lookup(d, x)
  {
    if d == [] {
    } else if d[0].0 == k {
      LookupCons((k, v), d[1..], x);
      LookupCons(d[0], d[1..], x);
      assert d == [d[0]] + d[1..];
      if x == k { LookupAbsent(d[1..], k); }
    } else {
      LookupPut(d[1..], k, v, x);
      LookupCons(d[0], Put(d[1..], k, v), x);
      LookupCons(d[0], d[1..], x);
      assert d == [d[0]] + d[1..];
    }
  }

  lemma {:induction false} LookupCons(e: (string, Json), d: Dict, x: string)
    ensures Lookup([e] + d, x) == if Lookup(d, x).Some? then Lookup(d, x) else if e.0 == x then Some(e.1) else None
  {
    if d != [] {
      assert ([e] + d)[..|d|] == [e] + d[..|d| - 1];
      LookupCons(e, d[..|d| - 1], x);
    } else {
      assert [e] + d == [e] && [e][..0] == [];
    }
  }

  lemma {:induction false} LookupAbsent(d: Dict, k: string)
    requires forall i :: 0 <= i < |d| ==> d[i].0 != k
    ensures Lookup(d, k) == None
  {
    if d != [] { LookupAbsent(d[..|d| - 1], k); }
  }

  /** The last entry of `d` whose key lower-cases to `x`. */
  function LastLowering(lower: string -> string, d: Dict, x: string): Option<Json> {
    if d == [] then None
    else if lower(d[|d| - 1].0) == x then Some(d[|d| - 1].1)
    else LastLowering(lower, d[..|d| - 1], x)
  }

  /** Case-colliding keys merge, the last one's value surviving, itself lower-cased when asked. */
  lemma {:induction false} LowerKeysLookup(lower: string -> string, d: Dict, values: bool, x: string)
    requires Idempotent(lower)
    ensures Lookup(LowerKeys(lower, d, values), x)
         == match LastLowering(lower, d, x) case None => None case Some(v) => Some(if values
           then LowerValue(lower, v) else v)
  {
    if d != [] {
      var pre, k, v := d[..|d| - 1], d[|d| - 1].0, d[|d| - 1].1;
      LowerKeysLookup(lower, pre, values, x);
      LowerKeysLowered(lower, pre, values);
      LookupPut(LowerKeys(lower, pre, values), lower(k), if values then LowerValue(lower, v) else v, x);
    }
  }

  // ----- what a rewritten snapshot looks like -----

  ghost predicate ListLowered(lower: string -> string, l: Option<seq<string>>) {
    l.Some? ==> forall i :: 0 <= i < |l.value| ==> lower(l.value[i]) == l.value[i]
  }

  ghost predicate DictLowered(lower: string -> string, d: Option<Dict>) {
    d.Some? ==> IsDict(d.value) && Lowered(lower, d.value, false)
  }

  /** Every uuid key, list entry and owner uuid is lower case, and no progress table is missing. */
  ghost predicate SnapLowered(lower: string -> string, s: Snap) {
    && IsDict(s.users) && Lowered(lower, s.users, true)
    && ListLowered(lower, s.admins) && DictLowered(lower, s.limits)
    && match s.progress
       case None => true
       case Some(p) =>
         && (forall i :: 0 <= i < |p.lists| ==> ListLowered(lower, p.lists[i]))
         && (forall i :: 0 <= i < |p.tables| ==> p.tables[i].Some? && DictLowered(lower, p.tables[i]))
         && DictLowered(lower, p.captured)
  }

  lemma LowerMaybeLowered(lower: string -> string, d: Option<Dict>)
    requires Idempotent(lower)
    ensures DictLowered(lower, LowerMaybe(lower, d)) && DictLowered(lower, LowerTable(lower, d))
  {
    if d.Some? { LowerKeysLowered(lower, d.value, false); }
  }

  /** A live action's snapshot ends up lower case throughout; any other action is left alone. */
  lemma RewriteActionLowered(lower: string -> string, a: Action)
    requires Idempotent(lower) && a.snapshot.Some?
    ensures var b := RewriteAction(lower, a);
            b.status == a.status && b.snapshot.Some? && if Live(a) then SnapLowered(lower, b.snapshot.value) else b == a
  {
    hide LowerKeys, IsDict, Lowered, DictLowered, LowerMaybe, LowerTable;
    var s := a.snapshot.value;
    LowerKeysLowered(lower, s.users, true);
    LowerMaybeLowered(lower, s.limits);
    if s.progress.Some? {
      var p := s.progress.value;
      forall i | 0 <= i < |p.tables| ensures DictLowered(lower, LowerTable(lower, p.tables[i])) {
        LowerMaybeLowered(lower, p.tables[i]);
      }
      assert forall i :: 0 <= i < |p.tables| ==> LowerTable(lower, p.tables[i]).Some? by { TablesPresent(lower, p); }
      LowerMaybeLowered(lower, p.captured);
    }
  }

  lemma TablesPresent(lower: string -> string, p: Progress)
    ensures forall i :: 0 <= i < |p.tables| ==> LowerTable(lower, p.tables[i]).Some?
  {
  }

  // ----- rewriting twice -----

  lemma LowerKeysTwice(lower: string -> string, d: Dict, values: bool)
    requires Idempotent(lower)
    ensures LowerKeys(lower, LowerKeys(lower, d, values), values) == LowerKeys(lower, d, values)
  {
    LowerKeysLowered(lower, d, values);
    LowerKeysStable(lower, LowerKeys(lower, d, values), values);
  }

  lemma LowerListTwice(lower: string -> string, l: Option<seq<string>>)
    requires Idempotent(lower)
    ensures LowerList(lower, LowerList(lower, l)) == LowerList(lower, l)
  {
    if l.Some? { assert LowerAll(lower, LowerAll(lower, l.value)) == LowerAll(lower, l.value); }
  }

  lemma LowerMaybeTwice(lower: string -> string, d: Option<Dict>)
    requires Idempotent(lower)
    ensures LowerMaybe(lower, LowerMaybe(lower, d)) == LowerMaybe(lower, d)
    ensures LowerTable(lower, LowerTable(lower, d)) == LowerTable(lower, d)
  {
    hide LowerKeys;
    if d.Some? { LowerKeysTwice(lower, d.value, false); } else { LowerKeysStable(lower, [], false); }
  }

  lemma RewriteProgressTwice(lower: string -> string, p: Progress)
    requires Idempotent(lower)
    ensures RewriteProgress(lower, RewriteProgress(lower, p)) == RewriteProgress(lower, p)
  {
    hide LowerList, LowerTable, LowerMaybe;
    var q := RewriteProgress(lower, p);
    var r := RewriteProgress(lower, q);
    forall i | 0 <= i < |p.lists| ensures r.lists[i] == q.lists[i] {
      LowerListTwice(lower, p.lists[i]);
    }
    forall i | 0 <= i < |p.tables| ensures r.tables[i] == q.tables[i] {
      LowerMaybeTwice(lower, p.tables[i]);
    }
    LowerMaybeTwice(lower, p.captured);
    assert r.lists == q.lists && r.tables == q.tables;
  }

  /** Rewriting a live action's snapshot a second time changes nothing. */
  lemma RewriteActionTwice(lower: string -> string, a: Action)
    requires Idempotent(lower)
    ensures RewriteAction(lower, RewriteAction(lower, a)) == RewriteAction(lower, a)
  {
    hide LowerList, LowerKeys, LowerMaybe, RewriteProgress;
    if a.snapshot.Some? {
      var s := a.snapshot.value;
      LowerKeysTwice(lower, s.users, true);
      LowerListTwice(lower, s.admins);
      LowerMaybeTwice(lower, s.limits);
      if s.progress.Some? { RewriteProgressTwice(lower, s.progress.value); }
    }
  }

  // ----- no entry is lost -----

  /** The entry `e` is entry `i` of `d`, the last one with that key in lower case. */
  predicate LastFor(lower: string -> string, d: Dict, i: int, e: (string, Json), values: bool) {
    && 0 <= i < |d| && lower(d[i].0) == e.0 && (forall j :: i < j < |d| ==> lower(d[j].0) != e.0)
    && e.1 == if values && d[i].1.Str? then Str(lower(d[i].1.s)) else d[i].1
  }

  ghost predicate FromLast(lower: string -> string, d: Dict, e: (string, Json), values: bool) {
    exists i :: LastFor(lower, d, i, e, values)
  }

  /** `e` holds for every key of `d` its lower-case form, once, with the value of the last key of that form. */
  ghost predicate KeysLowered(lower: string -> string, d: Dict, e: Dict, values: bool) {
    && (forall i, j :: 0 <= i < j < |e| ==> e[i].0 != e[j].0)
    && (forall i :: 0 <= i < |d| ==> exists j :: 0 <= j < |e| && e[j].0 == lower(d[i].0))
    && (forall f :: f in e ==> FromLast(lower, d, f, values))
  }

  ghost predicate KeysLoweredMaybe(lower: string -> string, d: Option<Dict>, e: Option<Dict>) {
    d.Some? == e.Some? && (d.Some? ==> KeysLowered(lower, d.value, e.value, false))
  }

  ghost predicate ListLoweredMaybe(lower: string -> string, l: Option<seq<string>>, m: Option<seq<string>>) {
    && l.Some? == m.Some?
    && (l.Some? ==> |m.value| == |l.value| && forall i :: 0 <= i < |l.value| ==> m.value[i] == lower(l.value[i]))
  }

  ghost predicate ProgressLowered(lower: string -> string, p: Progress, q: Progress) {
    && |q.lists| == |p.lists| && |q.tables| == |p.tables|
    && (forall i :: 0 <= i < |p.lists| ==> ListLoweredMaybe(lower, p.lists[i], q.lists[i]))
    && (forall i :: 0 <= i < |p.tables| ==>
          if p.tables[i].Some? then KeysLoweredMaybe(lower, p.tables[i], q.tables[i]) else q.tables[i] == Some([]))
    && KeysLoweredMaybe(lower, p.captured, q.captured)
  }

  /** How an action's row changes: a reverted or dry one, or one without a snapshot, not at all; of any other every
      table and list keeps all its entries under lower-case uuids, and a missing table becomes an empty one. */
  ghost predicate ActionLowered(lower: string -> string, a: Action, b: Action) {
    if a.snapshot.None? || a.status == "reverted" || a.status == "dry_run" then b == a
    else
      && b.status == a.status && b.snapshot.Some?
      && var (s, t) := (a.snapshot.value, b.snapshot.value);
         && KeysLowered(lower, s.users, t.users, true)
         && ListLoweredMaybe(lower, s.admins, t.admins) && KeysLoweredMaybe(lower, s.limits, t.limits)
         && s.progress.Some? == t.progress.Some?
         && (s.progress.Some? ==> ProgressLowered(lower, s.progress.value, t.progress.value))
  }

  lemma {:induction false} PutHas(d: Dict, k: string, v: Json)
    ensures (k, v) in Put(d, k, v)
    ensures forall e :: e in d ==> exists f :: f in Put(d, k, v) && f.0 == e.0
  {
    if d != [] {
      assert d == [d[0]] + d[1..];
      if d[0].0 == k {
        assert ([(k, v)] + d[1..])[0] == (k, v);
        forall e | e in d ensures exists f :: f in Put(d, k, v) && f.0 == e.0 {
          assert e == d[0] || e in d[1..];
        }
      } else {
        PutHas(d[1..], k, v);
        forall e | e in d ensures exists f :: f in Put(d, k, v) && f.0 == e.0 {
          if e in d[1..] {
            var f :| f in Put(d[1..], k, v) && f.0 == e.0;
            assert f in Put(d, k, v);
          }
        }
      }
    } else {
      assert [(k, v)][0] == (k, v);
    }
  }

  lemma {:induction false} EntryKept(lower: string -> string, d: Dict, values: bool, i: nat) returns (e: (string, Json))
    requires i < |d|
    ensures e in LowerKeys(lower, d, values) && e.0 == lower(d[i].0)
  {
    var pre, k, v := d[..|d| - 1], d[|d| - 1].0, d[|d| - 1].1;
    var w := if values then LowerValue(lower, v) else v;
    PutHas(LowerKeys(lower, pre, values), lower(k), w);
    if i < |pre| {
      var f := EntryKept(lower, pre, values, i);
      e :| e in Put(LowerKeys(lower, pre, values), lower(k), w) && e.0 == f.0;
    } else {
      e := (lower(k), w);
    }
  }

  lemma LastStep(lower: string -> string, d: Dict, i: int, e: (string, Json), values: bool)
    requires d != [] && LastFor(lower, d[..|d| - 1], i, e, values) && lower(d[|d| - 1].0) != e.0
    ensures LastFor(lower, d, i, e, values)
  {
    var pre := d[..|d| - 1];
    assert d[i] == pre[i];
    forall j | i < j < |d| ensures lower(d[j].0) != e.0 {
      if j < |pre| { assert d[j] == pre[j]; }
    }
  }

  lemma {:induction false} EntryFrom(lower: string -> string, d: Dict, values: bool, e: (string, Json)) returns (i: nat)
    requires e in LowerKeys(lower, d, values)
    ensures LastFor(lower, d, i, e, values)
  {
    hide LastFor;
    var pre, k, v := d[..|d| - 1], d[|d| - 1].0, d[|d| - 1].1;
    var w := if values then LowerValue(lower, v) else v;
    var e' := LowerKeys(lower, pre, values);
    if e == (lower(k), w) {
      i := |d| - 1;
      LastIs(lower, d, values);
    } else {
      KeysDistinct(lower, pre, values);
      PutKeys(e', lower(k), w);
      PutHas(e', lower(k), w);
      DistinctKeys(Put(e', lower(k), w), e, (lower(k), w));
      i := EntryFrom(lower, pre, values, e);
      LastStep(lower, d, i, e, values);
    }
  }

  lemma LastIs(lower: string -> string, d: Dict, values: bool)
    requires d != []
    ensures var (k, v) := d[|d| - 1];
            LastFor(lower, d, |d| - 1, (lower(k), if values then LowerValue(lower, v) else v), values)
  {
  }

  lemma DistinctKeys(d: Dict, e: (string, Json), f: (string, Json))
    requires IsDict(d) && e in d && f in d && e != f
    ensures e.0 != f.0
  {
    var i :| 0 <= i < |d| && d[i] == e;
    var j :| 0 <= j < |d| && d[j] == f;
    assert i != j;
  }

  lemma {:induction false} KeysDistinct(lower: string -> string, d: Dict, values: bool)
    ensures IsDict(LowerKeys(lower, d, values))
  {
    if d != [] {
      var (k, v) := d[|d| - 1];
      KeysDistinct(lower, d[..|d| - 1], values);
      PutKeys(LowerKeys(lower, d[..|d| - 1], values), lower(k), if values then LowerValue(lower, v) else v);
    }
  }

  lemma LowerKeysAre(lower: string -> string, d: Dict, values: bool)
    ensures KeysLowered(lower, d, LowerKeys(lower, d, values), values)
  {
    var e := LowerKeys(lower, d, values);
    KeysDistinct(lower, d, values);
    forall i | 0 <= i < |d| ensures exists j :: 0 <= j < |e| && e[j].0 == lower(d[i].0) {
      var f := EntryKept(lower, d, values, i);
    }
    forall f | f in e ensures FromLast(lower, d, f, values) {
      var i := EntryFrom(lower, d, values, f);
    }
  }

  lemma MaybeLowered(lower: string -> string, d: Option<Dict>)
    ensures KeysLoweredMaybe(lower, d, LowerMaybe(lower, d))
    ensures if d.Some? then KeysLoweredMaybe(lower, d, LowerTable(lower, d)) else LowerTable(lower, d) == Some([])
  {
    hide LowerKeys, KeysLowered;
    if d.Some? { LowerKeysAre(lower, d.value, false); }
  }

  lemma ProgressIs(lower: string -> string, p: Progress)
    ensures ProgressLowered(lower, p, RewriteProgress(lower, p))
  {
    hide KeysLoweredMaybe, LowerTable, LowerMaybe;
    MaybeLowered(lower, p.captured);
    forall i | 0 <= i < |p.tables|
      ensures if p.tables[i].Some? then KeysLoweredMaybe(lower, p.tables[i], LowerTable(lower, p.tables[i]))
              else LowerTable(lower, p.tables[i]) == Some([])
    {
      MaybeLowered(lower, p.tables[i]);
    }
  }

  /** A live action loses no entry of its snapshot. */
  lemma ActionIs(lower: string -> string, a: Action)
    ensures ActionLowered(lower, a, RewriteAction(lower, a))
  {
    hide LowerKeys, KeysLowered, KeysLoweredMaybe, LowerMaybe, ProgressLowered, RewriteProgress;
    if a.snapshot.Some? {
      var s := a.snapshot.value;
      LowerKeysAre(lower, s.users, true);
      MaybeLowered(lower, s.limits);
      if s.progress.Some? { ProgressIs(lower, s.progress.value); }
    }
  }
}
