/** `_merge_resellers`: the loops that merge every group of case-duplicates, or abort. */
module MergeRun {
  import opened Common
  import opened MergeSpec
  import opened MergeOutcome

  // ----- choosing the keeper -----

  function InvoiceCount(db: Db, r: int): nat { |InvoicesOf(db.invoices, r)| }

  /** The timestamp's rank; a missing one sorts oldest. */
  function Ts(t: Option<nat>): int { if t.None? then -1 else t.value }

  /** `_key(a) < _key(b)`: invoices, then a bound chat, then the newest sighting, then the lowest id. */
  predicate KeyLess(db: Db, a: int, b: int)
    requires a in db.resellers && b in db.resellers
  {
    var x, y := db.resellers[a], db.resellers[b];
    if InvoiceCount(db, a) != InvoiceCount(db, b) then InvoiceCount(db, a) < InvoiceCount(db, b)
    else if x.chat.Some? != y.chat.Some? then y.chat.Some?
    else if Ts(x.lastSeen) != Ts(y.lastSeen) then Ts(x.lastSeen) < Ts(y.lastSeen)
    else -a < -b
  }

  /** Of every group the highest-ranking row survives, by the tables at the start. */
  ghost predicate BestSurvive(lower: string -> string, db0: Db, db: Db) {
    forall r, m :: r in db.resellers && SameGroup(lower, db0, r, m) ==> !KeyLess(db0, r, m)
  }

  lemma SameRank(db0: Db, db: Db, a: int, b: int)
    requires Untouched(db0, db, a) && Untouched(db0, db, b)
    ensures KeyLess(db, a, b) == KeyLess(db0, a, b)
  {
  }

  lemma RanksAre(db: Db, r: int, m: int)
    requires r in db.resellers && m in db.resellers
    ensures !KeyLess(db, r, m) <==> RanksOver(db, r, m)
  {
    assert InvoicesOf(db.invoices, r) == set i | i in db.invoices && db.invoices[i].reseller == r;
    assert InvoicesOf(db.invoices, m) == set i | i in db.invoices && db.invoices[i].reseller == m;
  }

  lemma OutcomeReached(lower: string -> string, db0: Db, db: Db)
    requires Kept(lower, db0, db) && OnePerGroup(lower, db0, db) && BestSurvive(lower, db0, db)
    ensures Outcome(lower, db0, db)
  {
    hide Kept, OnePerGroup, KeyLess, RanksOver, Outcome;
    forall r, m | r in db.resellers && Twins(lower, db0, r, m) ensures RanksOver(db0, r, m) {
      assert SameGroup(lower, db0, r, m);
      RanksAre(db0, r, m);
    }
    OutcomeIs(lower, db0, db);
  }

  /** `max(members, key=_key)` */
  method ChooseKeeper(db: Db, members: seq<int>) returns (k: int)
    requires members != [] && forall m :: m in members ==> m in db.resellers
    ensures k in members && forall m :: m in members ==> !KeyLess(db, k, m) && RanksOver(db, k, m)
  {
    hide RanksOver;
    k := members[0];
    for i := 1 to |members|
      invariant k in members && forall j :: 0 <= j < i ==> !KeyLess(db, k, members[j])
    {
      if KeyLess(db, k, members[i]) {
        k := members[i];
      }
    }
    forall m | m in members ensures RanksOver(db, k, m) {
      RanksAre(db, k, m);
    }
  }

  // ----- grouping -----

  type Key = (int, string)

  /** `groups` splits the rows `ids` by identity, keeping their order. */
  ghost predicate Groups(lower: string -> string, rs: map<int, Reseller>, ids: set<int>, groups: map<Key, seq<int>>) {
    && ids <= rs.Keys
    && (forall g :: g in groups ==> groups[g] != [] && NoRepeats(groups[g]))
    && (forall g, m :: g in groups && m in groups[g] ==> m in ids && GroupOf(lower, rs[m]) == g)
    && (forall m :: m in ids ==> GroupOf(lower, rs[m]) in groups && m in groups[GroupOf(lower, rs[m])])
  }

  lemma NonEmpty(s: set<int>)
    requires s != {}
    ensures exists x :: x in s
  {
    assert (forall x :: x !in s) ==> s == {};
  }

  lemma ElementsAre(order: seq<int>, rs: map<int, Reseller>)
    requires forall r :: r in order <==> r in rs
    ensures Elements(order) == rs.Keys && order[..|order|] == order
  {
    forall x ensures x in Elements(order) <==> x in rs.Keys {
    }
  }

  lemma AddRow(lower: string -> string, rs: map<int, Reseller>, order: seq<int>, i: nat, groups: map<Key, seq<int>>)
    requires NoRepeats(order) && (forall r :: r in order ==> r in rs) && i < |order|
    requires Groups(lower, rs, Elements(order[..i]), groups)
    ensures var r := order[i]; var g := GroupOf(lower, rs[r]);
            Groups(lower, rs, Elements(order[..i + 1]), groups[g := if g in groups then groups[g] + [r] else [r]])
  {
    var r := order[i];
    var g := GroupOf(lower, rs[r]);
    assert order[..i + 1] == order[..i] + [r];
    var ids, ids' := Elements(order[..i]), Elements(order[..i + 1]);
    assert ids' == ids + {r} && r !in ids;
    var members := if g in groups then groups[g] + [r] else [r];
    assert NoRepeats(members);
    forall m | m in ids'
      ensures GroupOf(lower, rs[m]) in groups[g := members] && m in groups[g := members][GroupOf(lower, rs[m])] {
      if m != r { assert m in groups[GroupOf(lower, rs[m])]; }
    }
  }

  lemma NoGroups(lower: string -> string, rs: map<int, Reseller>, order: seq<int>)
    ensures Groups(lower, rs, Elements(order[..0]), map[])
  {
  }

  method GroupRows(lower: string -> string, rs: map<int, Reseller>, order: seq<int>)
    returns (keys: seq<Key>, groups: map<Key, seq<int>>)
    requires NoRepeats(order) && forall r :: r in order <==> r in rs
    ensures Groups(lower, rs, rs.Keys, groups)
    ensures forall g :: g in keys <==> g in groups
    ensures forall i, j :: 0 <= i < j < |keys| ==> keys[i] != keys[j]
  {
    hide Groups, GroupOf;
    keys, groups := [], map[];
    NoGroups(lower, rs, order);
    for i := 0 to |order|
      invariant Groups(lower, rs, Elements(order[..i]), groups)
      invariant forall g :: g in keys <==> g in groups
      invariant forall i, j :: 0 <= i < j < |keys| ==> keys[i] != keys[j]
    {
      var r := order[i];
      var g := GroupOf(lower, rs[r]);
      AddRow(lower, rs, order, i, groups);
      if g in groups {
        groups := groups[g := groups[g] + [r]];
      } else {
        keys := keys + [g];
        groups := groups[g := [r]];
      }
    }
    ElementsAre(order, rs);
  }

  /** No two resellers differ only in the letter case of their uuid. */
  ghost predicate NoDuplicates(lower: string -> string, rs: map<int, Reseller>) {
    forall r, s :: r in rs && s in rs && GroupOf(lower, rs[r]) == GroupOf(lower, rs[s]) ==> r == s
  }

  lemma SingleMember(lower: string -> string, db0: Db, members: seq<int>)
    requires NoDuplicates(lower, db0.resellers) && NoRepeats(members) && members != []
    requires forall m, n :: m in members && n in members ==> SameGroup(lower, db0, m, n)
    ensures |members| == 1
  {
    assert |members| > 1 ==> SameGroup(lower, db0, members[0], members[1]);
  }

  // ----- the tables, changed in place -----

  class Migration {
    var resellers: map<int, Reseller>
    var invoices: map<int, Invoice>
    var lines: map<int, int>
    var ledger: map<int, int>
    var payments: map<int, int>
    var deliveries: map<int, Option<int>>
    var actions: map<int, int>
    var bots: map<int, int>

    function Contents(): Db
      reads this
    {
      Db(resellers, invoices, lines, ledger, payments, deliveries, actions, bots)
    }

    constructor (db: Db)
      ensures Contents() == db
    {
      resellers, invoices, lines, ledger := db.resellers, db.invoices, db.lines, db.ledger;
      payments, deliveries, actions, bots := db.payments, db.deliveries, db.actions, db.bots;
    }

    method DropInvoice(id: int)
      modifies `invoices, `lines, `ledger
      ensures invoices == old(invoices) - {id}
      ensures lines == Without(old(lines), {id}) && ledger == Without(old(ledger), {id})
    {
      lines := map x | x in lines && lines[x] != id :: lines[x];
      ledger := map x | x in ledger && ledger[x] != id :: ledger[x];
      invoices := invoices - {id};
    }

    /** The tables after the loser invoices `done` have been dealt with. */
    ghost predicate Dealt(db0: Db, kp: map<Period, int>, done: set<int>)
      reads this
      requires forall j :: j in done ==> j in db0.invoices
    {
      var gone := Victims(db0.invoices, kp, done);
      && invoices == db0.invoices - gone
      && lines == Without(db0.lines, gone) && ledger == Without(db0.ledger, gone)
    }

    /** Deals with the loser invoice `j`; `false` when both invoices of the period are settled money. */
    method ResolveOne(k: int, l: int, rows: map<int, Invoice>, j: int, keeperPeriods: map<Period, int>,
                      ghost db0: Db, ghost done: set<int>)
      returns (ok: bool, keeperPeriods': map<Period, int>)
      requires rows == db0.invoices && UniquePeriods(rows) && k != l
      requires done + {j} <= InvoicesOf(rows, l) && j !in done
      requires var kp := KeeperPeriods(rows, k); Dealt(db0, kp, done) && Unused(rows, l, kp, keeperPeriods, done)
      modifies `invoices, `lines, `ledger
      ensures ok <==> Settles(rows, KeeperPeriods(rows, k), j)
      ensures ok ==> var kp := KeeperPeriods(rows, k);
                     Dealt(db0, kp, done + {j}) && Unused(rows, l, kp, keeperPeriods', done + {j})
      ensures !ok ==> Conflict(rows, k, l)
    {
      hide Victims, Conflict, UniquePeriods;
      ghost var kp := KeeperPeriods(rows, k);
      keeperPeriods' := keeperPeriods;
      var period := PeriodOf(rows[j]);
      PeriodsDiffer(rows, l, j);
      if period !in keeperPeriods {
        VictimsSkip(rows, kp, done, j);
        return true, keeperPeriods;
      }
      var keeperInv := keeperPeriods[period];
      KeeperStays(rows, k, l, done, j);
      var keeperNonDraft := keeperInv in invoices && NonDraft(invoices[keeperInv]);
      var loserNonDraft := NonDraft(rows[j]);
      if keeperNonDraft && loserNonDraft {
        ConflictFound(rows, k, l, keeperInv, j);
        return false, keeperPeriods;
      }
      var drop := if !loserNonDraft then j else keeperInv;
      if drop == keeperInv {
        keeperPeriods' := keeperPeriods - {period};
      }
      DropInvoice(drop);
      VictimsAdd(rows, kp, done, j);
      WithoutTwice(db0.lines, Victims(rows, kp, done), drop);
      WithoutTwice(db0.ledger, Victims(rows, kp, done), drop);
      ok := true;
    }

    /** Resolves the period collisions of keeper `k` and loser `l`, the loser's invoices in any order. */
    method ResolveCollisions(k: int, l: int) returns (ok: bool)
      requires UniquePeriods(invoices) && k != l
      modifies `invoices, `lines, `ledger
      ensures ok <==> !Conflict(old(invoices), k, l)
      ensures ok ==> Dealt(old(Contents()), KeeperPeriods(old(invoices), k), InvoicesOf(old(invoices), l))
    {
      hide Victims, Conflict, UniquePeriods, Settles, Unused, KeeperPeriods;
      ghost var db0 := Contents();
      var rows, keeperPeriods := invoices, KeeperPeriods(invoices, k);
      var todo := InvoicesOf(invoices, l);
      ghost var done: set<int> := {};
      VictimsNone(rows, keeperPeriods);
      AllUnused(rows, l, keeperPeriods);
      while todo != {}
        invariant done + todo == InvoicesOf(rows, l) && done !! todo
        invariant Dealt(db0, KeeperPeriods(rows, k), done)
        invariant Unused(rows, l, KeeperPeriods(rows, k), keeperPeriods, done)
        invariant forall j :: j in done ==> Settles(rows, KeeperPeriods(rows, k), j)
      {
        NonEmpty(todo);
        var j :| j in todo;
        todo := todo - {j};
        ok, keeperPeriods := ResolveOne(k, l, rows, j, keeperPeriods, db0, done);
        if !ok { return; }
        done := done + {j};
      }
      assert done == InvoicesOf(rows, l);
      NoConflictFound(rows, k, l, done);
      ok := true;
    }

    /** Merges the loser into the keeper; `false` means the migration aborts. */
    method MergeLoser(k: int, l: int) returns (ok: bool)
      requires UniquePeriods(invoices) && k in resellers && l in resellers && k != l
      modifies this
      ensures ok <==> Merge(old(Contents()), k, l).Some?
      ensures ok ==> Contents() == Merge(old(Contents()), k, l).value
    {
      hide Victims, KeeperPeriods, Conflict, UniquePeriods, InvoicesOf;
      ok := ResolveCollisions(k, l);
      if !ok { return; }
      invoices := RepointInvoices(invoices, k, l);
      payments := Repoint(payments, k, l);
      deliveries := RepointOptional(deliveries, k, l);
      actions := Repoint(actions, k, l);
      var keeperHasBot := exists b :: b in bots && bots[b] == k;
      var loserHasBot := exists b :: b in bots && bots[b] == l;
      if loserHasBot {
        if keeperHasBot { return false; }
        bots := Repoint(bots, k, l);
      } else {
        NothingToRepoint(bots, k, l);
      }
      resellers := resellers[k := FillNulls(resellers[k], resellers[l])];
      resellers := resellers - {l};
    }

    /** Merges one group into its keeper. */
    method MergeGroup(lower: string -> string, ghost db0: Db, members: seq<int>) returns (ok: bool, k: int)
      requires Kept(lower, db0, Contents()) && members != [] && NoRepeats(members)
      requires forall m :: m in members ==> m in resellers
      requires forall m, n :: m in members && n in members ==> SameGroup(lower, db0, m, n)
      modifies this
      ensures k in members && forall m :: m in members ==> !KeyLess(old(Contents()), k, m)
      ensures forall m :: m in members ==> RanksOver(old(Contents()), k, m)
      ensures ok ==> Kept(lower, db0, Contents())
      ensures ok ==> resellers.Keys == old(resellers.Keys) - (set m | m in members && m != k)
      ensures ok ==> forall m :: m in old(resellers) && m !in members ==> Untouched(old(Contents()), Contents(), m)
      ensures !ok ==> Collides(lower, db0)
      ensures |members| == 1 ==> ok && Contents() == old(Contents())
    {
      hide Kept, SameGroup, Collides, Untouched, KeyLess, RanksOver;
      k := ChooseKeeper(Contents(), members);
      ghost var start := Contents();
      UntouchedSelf(start);
      if |members| < 2 {
        assert members == [members[0]];
        return true, k;
      }
      for i := 0 to |members|
        invariant Kept(lower, db0, Contents())
        invariant resellers.Keys == old(resellers.Keys) - (set j | 0 <= j < i && members[j] != k :: members[j])
        invariant forall m :: m in start.resellers && m !in members ==> Untouched(start, Contents(), m)
      {
        if members[i] != k {
          assert members[i] in resellers;
          KeptUnique(lower, db0, Contents());
          ghost var before := Contents();
          ok := MergeLoser(k, members[i]);
          if !ok {
            AbortCollides(lower, db0, before, k, members[i]);
            return;
          }
          MergeKeeps(lower, db0, before, k, members[i]);
          forall m | m in start.resellers && m !in members ensures Untouched(start, Contents(), m) {
            MergeFrame(start, before, k, members[i], m);
          }
        }
      }
      assert (set j | 0 <= j < |members| && members[j] != k :: members[j]) == (set m | m in members && m != k);
      ok := true;
    }

    /** One round of the outer loop: the group `g`. */
    method MergeNext(lower: string -> string, ghost db0: Db, groups: map<Key, seq<int>>, ghost done: set<Key>, g: Key)
      returns (ok: bool)
      requires Kept(lower, db0, Contents()) && Progress(lower, db0, Contents(), groups, done)
      requires g in groups && g !in done
      modifies this
      ensures ok ==> Kept(lower, db0, Contents()) && Progress(lower, db0, Contents(), groups, done + {g})
      ensures !ok ==> Collides(lower, db0)
      ensures NoDuplicates(lower, db0.resellers) ==> ok && Contents() == old(Contents())
    {
      hide Kept, Collides, NoDuplicates, Progress, Groups, KeyLess, Untouched;
      ghost var before := Contents();
      GroupReady(lower, db0, before, groups, done, g);
      if NoDuplicates(lower, db0.resellers) { SingleMember(lower, db0, groups[g]); }
      var k: int;
      ok, k := MergeGroup(lower, db0, groups[g]);
      if ok { GroupMerged(lower, db0, before, Contents(), groups, done, g, k); }
    }

    /** The whole merge, as one transaction: on abort the tables are as before. `order` is the order
        in which the rows are selected. */
    method MergeResellers(lower: string -> string, order: seq<int>) returns (ok: bool)
      requires Consistent(Contents()) && NoRepeats(order) && forall r :: r in order <==> r in resellers
      modifies this
      ensures ok <==> !Clash(lower, old(Contents()))
      ensures ok ==> Outcome(lower, old(Contents()), Contents())
      ensures ok ==> forall r :: r in resellers ==> var x, y := old(resellers)[r], resellers[r];
                y.panel == x.panel && y.uuid == x.uuid && y.parent == x.parent && y.lastSeen == x.lastSeen
      ensures ok <==> !Collides(lower, old(Contents()))
      ensures ok ==> Kept(lower, old(Contents()), Contents()) && OnePerGroup(lower, old(Contents()), Contents())
      ensures ok ==> BestSurvive(lower, old(Contents()), Contents())
      ensures !ok ==> Contents() == old(Contents())
      ensures NoDuplicates(lower, old(resellers)) ==> ok && Contents() == old(Contents())
    {
      hide Kept, Consistent, Collides, OnePerGroup, BestSurvive, NoDuplicates, Progress, Groups, Clash, Outcome;
      var saved := Contents();
      ClashIs(lower, saved);
      var keys, groups := GroupRows(lower, resellers, order);
      KeptAtStart(lower, saved);
      NothingMerged(lower, saved, groups);
      ghost var done: set<Key> := {};
      for i := 0 to |keys|
        invariant Kept(lower, saved, Contents()) && Progress(lower, saved, Contents(), groups, done)
        invariant forall j :: 0 <= j < |keys| ==> (keys[j] in done <==> j < i)
        invariant NoDuplicates(lower, saved.resellers) ==> Contents() == saved
      {
        ok := MergeNext(lower, saved, groups, done, keys[i]);
        if !ok {
          Restore(saved);
          return;
        }
        done := done + {keys[i]};
      }
      AllMerged(lower, saved, Contents(), groups, done);
      MergedNotColliding(lower, saved, Contents());
      OutcomeReached(lower, saved, Contents());
      IdentityKept(lower, saved, Contents());
      ok := true;
    }

    method Restore(db: Db)
      modifies this
      ensures Contents() == db
    {
      resellers, invoices, lines, ledger := db.resellers, db.invoices, db.lines, db.ledger;
      payments, deliveries, actions, bots := db.payments, db.deliveries, db.actions, db.bots;
    }
  }

  // ----- steps of the collision loop -----

  /** The loser's invoice `j` and the keeper's of its period are not both settled money. */
  ghost predicate Settles(inv: map<int, Invoice>, kp: map<Period, int>, j: int) {
    j in inv && (PeriodOf(inv[j]) in kp ==>
      kp[PeriodOf(inv[j])] in inv && !(NonDraft(inv[j]) && NonDraft(inv[kp[PeriodOf(inv[j])]])))
  }

  /** The loop's copy of the keeper's periods is right for every loser invoice still to come. */
  ghost predicate Unused(inv: map<int, Invoice>, l: int, kp: map<Period, int>, left: map<Period, int>, done: set<int>) {
    && (forall j :: j in InvoicesOf(inv, l) && j !in done ==> (PeriodOf(inv[j]) in left <==> PeriodOf(inv[j]) in kp))
    && (forall p :: p in left ==> p in kp && left[p] == kp[p])
  }

  lemma AllUnused(inv: map<int, Invoice>, l: int, kp: map<Period, int>)
    ensures Unused(inv, l, kp, kp, {})
  {
  }

  lemma VictimsNone(inv: map<int, Invoice>, kp: map<Period, int>)
    ensures Victims(inv, kp, {}) == {}
    ensures forall m: map<int, int> :: Without(m, {}) == m
    ensures inv - {} == inv
  {
    forall m: map<int, int> ensures Without(m, {}) == m {
      assert Without(m, {}).Keys == m.Keys;
    }
  }

  lemma VictimsSkip(inv: map<int, Invoice>, kp: map<Period, int>, done: set<int>, j: int)
    requires (forall d :: d in done + {j} ==> d in inv) && PeriodOf(inv[j]) !in kp
    ensures Victims(inv, kp, done + {j}) == Victims(inv, kp, done)
  {
  }

  lemma VictimsAdd(inv: map<int, Invoice>, kp: map<Period, int>, done: set<int>, j: int)
    requires (forall d :: d in done + {j} ==> d in inv) && PeriodOf(inv[j]) in kp
    ensures Victims(inv, kp, done + {j}) == Victims(inv, kp, done) + {Victim(inv, kp, j)}
  {
    forall v ensures v in Victims(inv, kp, done + {j}) <==> v in Victims(inv, kp, done) + {Victim(inv, kp, j)} {
      if v in Victims(inv, kp, done) {
        var d :| d in done && PeriodOf(inv[d]) in kp && v == Victim(inv, kp, d);
        assert d in done + {j};
      }
    }
  }

  lemma WithoutTwice(m: map<int, int>, gone: set<int>, v: int)
    ensures Without(Without(m, gone), {v}) == Without(m, gone + {v})
  {
  }

  /** The keeper's invoice of an unvisited loser invoice's period is still there. */
  lemma KeeperStays(inv: map<int, Invoice>, k: int, l: int, done: set<int>, j: int)
    requires UniquePeriods(inv) && k != l && j !in done && done + {j} <= InvoicesOf(inv, l)
    requires PeriodOf(inv[j]) in KeeperPeriods(inv, k)
    ensures var kp := KeeperPeriods(inv, k);
            kp[PeriodOf(inv[j])] in inv && kp[PeriodOf(inv[j])] !in Victims(inv, kp, done) && kp[PeriodOf(inv[j])] != j
  {
    var kp := KeeperPeriods(inv, k);
    var i := kp[PeriodOf(inv[j])];
    assert i in inv && inv[i].reseller == k && PeriodOf(inv[i]) == PeriodOf(inv[j]);
    forall d | d in done && PeriodOf(inv[d]) in kp ensures Victim(inv, kp, d) != i {
      var e := kp[PeriodOf(inv[d])];
      assert inv[e].reseller == k && PeriodOf(inv[e]) == PeriodOf(inv[d]);
    }
  }

  lemma PeriodsDiffer(inv: map<int, Invoice>, l: int, j: int)
    requires UniquePeriods(inv) && j in InvoicesOf(inv, l)
    ensures forall d :: d in InvoicesOf(inv, l) && d != j ==> PeriodOf(inv[d]) != PeriodOf(inv[j])
  {
  }

  lemma ConflictFound(inv: map<int, Invoice>, k: int, l: int, i: int, j: int)
    requires UniquePeriods(inv) && j in InvoicesOf(inv, l) && PeriodOf(inv[j]) in KeeperPeriods(inv, k)
    requires i == KeeperPeriods(inv, k)[PeriodOf(inv[j])] && i in inv && NonDraft(inv[i]) && NonDraft(inv[j])
    ensures Conflict(inv, k, l)
  {
    assert Collide(inv, k, l, i, j);
  }

  lemma NoConflictFound(inv: map<int, Invoice>, k: int, l: int, done: set<int>)
    requires UniquePeriods(inv) && done == InvoicesOf(inv, l)
    requires forall j :: j in done ==> Settles(inv, KeeperPeriods(inv, k), j)
    ensures !Conflict(inv, k, l)
  {
    var kp := KeeperPeriods(inv, k);
    forall i, j | Collide(inv, k, l, i, j) ensures !(NonDraft(inv[i]) && NonDraft(inv[j])) {
      assert kp[PeriodOf(inv[i])] == i && j in done && Settles(inv, kp, j);
    }
  }

  lemma NothingToRepoint(bots: map<int, int>, k: int, l: int)
    requires !HasBot(bots, l)
    ensures Repoint(bots, k, l) == bots
  {
    assert Repoint(bots, k, l).Keys == bots.Keys;
    forall b | b in bots ensures Repoint(bots, k, l)[b] == bots[b] {
      assert bots[b] != l;
    }
  }

  lemma IdentityKept(lower: string -> string, db0: Db, db: Db)
    requires Kept(lower, db0, db)
    ensures forall r :: r in db.resellers ==> r in db0.resellers && SameIdentity(db0.resellers[r], db.resellers[r])
  {
  }

  lemma KeptUnique(lower: string -> string, db0: Db, db: Db)
    requires Kept(lower, db0, db)
    ensures UniquePeriods(db.invoices)
  {
  }

  // ----- steps over the groups -----

  /** The groups in `done` have one survivor each, their best; the others are untouched. */
  ghost predicate Progress(lower: string -> string, db0: Db, db: Db, groups: map<Key, seq<int>>, done: set<Key>) {
    && Groups(lower, db0.resellers, db0.resellers.Keys, groups) && db.resellers.Keys <= db0.resellers.Keys
    && (forall g :: g in done ==> g in groups && exists k :: Survivor(db0, db, groups[g], k))
    && (forall g, m :: g in groups && g !in done && m in groups[g] ==> Untouched(db0, db, m))
  }

  ghost predicate Survivor(db0: Db, db: Db, members: seq<int>, k: int) {
    && k in members && k in db.resellers && k in db0.resellers
    && (forall m :: m in members && m in db.resellers ==> m == k)
    && (forall m :: m in members && m in db0.resellers ==> !KeyLess(db0, k, m))
  }

  lemma NothingMerged(lower: string -> string, db0: Db, groups: map<Key, seq<int>>)
    requires Groups(lower, db0.resellers, db0.resellers.Keys, groups)
    ensures Progress(lower, db0, db0, groups, {})
  {
  }

  lemma GroupReady(lower: string -> string, db0: Db, db: Db, groups: map<Key, seq<int>>, done: set<Key>, g: Key)
    requires Progress(lower, db0, db, groups, done) && g in groups && g !in done
    ensures groups[g] != [] && NoRepeats(groups[g]) && forall m :: m in groups[g] ==> m in db.resellers
    ensures forall m, n :: m in groups[g] && n in groups[g] ==> SameGroup(lower, db0, m, n)
  {
    forall m | m in groups[g] ensures m in db.resellers {
      assert Untouched(db0, db, m);
    }
  }

  lemma GroupMerged(lower: string -> string, db0: Db, db: Db, db': Db, groups: map<Key, seq<int>>, done: set<Key>,
                    g: Key, k: int)
    requires Progress(lower, db0, db, groups, done) && g in groups && g !in done && k in groups[g]
    requires forall m :: m in groups[g] ==> m in db.resellers && k in db.resellers && !KeyLess(db, k, m)
    requires db'.resellers.Keys == db.resellers.Keys - (set m | m in groups[g] && m != k)
    requires forall m :: m in db.resellers && m !in groups[g] ==> Untouched(db, db', m)
    ensures Progress(lower, db0, db', groups, done + {g})
  {
    hide KeyLess, Untouched, NoRepeats;
    assert Survivor(db0, db', groups[g], k) by {
      forall m | m in groups[g] && m in db0.resellers ensures !KeyLess(db0, k, m) {
        SameRank(db0, db, k, m);
      }
    }
    forall h | h in done ensures exists s :: Survivor(db0, db', groups[h], s) {
      var s :| Survivor(db0, db, groups[h], s);
      assert Survivor(db0, db', groups[h], s);
    }
    forall h, m | h in groups && h !in done + {g} && m in groups[h] ensures Untouched(db0, db', m) {
      assert Untouched(db0, db, m) && m !in groups[g];
      UntouchedTrans(db0, db, db', m);
    }
  }

  lemma AllMerged(lower: string -> string, db0: Db, db: Db, groups: map<Key, seq<int>>, done: set<Key>)
    requires Progress(lower, db0, db, groups, done) && forall g :: g in groups ==> g in done
    ensures OnePerGroup(lower, db0, db) && BestSurvive(lower, db0, db)
  {
    hide KeyLess, Untouched, NoRepeats;
    forall r, s | r in db.resellers && SameGroup(lower, db0, r, s)
      ensures (s in db.resellers ==> r == s) && !KeyLess(db0, r, s) {
      var g := GroupOf(lower, db0.resellers[r]);
      var k :| Survivor(db0, db, groups[g], k);
      assert r == k;
    }
    forall r | r in db0.resellers ensures exists s :: s in db.resellers && SameGroup(lower, db0, r, s) {
      var g := GroupOf(lower, db0.resellers[r]);
      var k :| Survivor(db0, db, groups[g], k);
      assert SameGroup(lower, db0, r, k);
    }
  }
}
