/** Merging case-duplicate resellers: the tables, one merge, and what every merge keeps. */
module MergeSpec {
  import opened Common

  datatype Reseller = Reseller(
    panel: int, uuid: string, parent: Option<string>,
    chat: Option<int>, lastSeen: Option<nat>,
    price: Option<int>, minSale: Option<int>, fee: Option<int>)

  datatype Invoice = Invoice(reseller: int, start: int, end: int, status: string, amount: int)

  /** Tables by row id. Lines and ledger rows point at invoices; payments, deliveries, actions and
      storefront bots point at resellers, delivery rows possibly at none. */
  datatype Db = Db(
    resellers: map<int, Reseller>,
    invoices: map<int, Invoice>,
    lines: map<int, int>,
    ledger: map<int, int>,
    payments: map<int, int>,
    deliveries: map<int, Option<int>>,
    actions: map<int, int>,
    bots: map<int, int>)

  type Period = (int, int)

  function PeriodOf(i: Invoice): Period { (i.start, i.end) }

  predicate NonDraft(i: Invoice) { i.status != "draft" }

  /** The unique constraint on (reseller, period_start, period_end). */
  ghost predicate UniquePeriods(inv: map<int, Invoice>) {
    forall i, j :: i in inv && j in inv && i != j ==>
      inv[i].reseller != inv[j].reseller || PeriodOf(inv[i]) != PeriodOf(inv[j])
  }

  /** The unique constraint on the reseller of a storefront bot. */
  ghost predicate UniqueBots(bots: map<int, int>) {
    forall b, c :: b in bots && c in bots && b != c ==> bots[b] != bots[c]
  }

  // ----- one merge -----

  /** The ids of a reseller's invoices. */
  function InvoicesOf(inv: map<int, Invoice>, r: int): set<int> {
    set i | i in inv && inv[i].reseller == r
  }

  /** `keeper_periods` */
  function KeeperPeriods(inv: map<int, Invoice>, k: int): map<Period, int>
    requires UniquePeriods(inv)
  {
    map i | i in inv && inv[i].reseller == k :: PeriodOf(inv[i]) := i
  }

  /** The invoice that gives way when the loser's invoice `j` meets the keeper's of its period. */
  function Victim(inv: map<int, Invoice>, kp: map<Period, int>, j: int): int
    requires j in inv && PeriodOf(inv[j]) in kp
  {
    if NonDraft(inv[j]) then kp[PeriodOf(inv[j])] else j
  }

  /** The invoices that give way for the loser invoices `js`. */
  function Victims(inv: map<int, Invoice>, kp: map<Period, int>, js: set<int>): set<int>
    requires forall j :: j in js ==> j in inv
  {
    set j | j in js && PeriodOf(inv[j]) in kp :: Victim(inv, kp, j)
  }

  /** The keeper's invoice `i` and the loser's `j` are for one period. */
  ghost predicate Collide(inv: map<int, Invoice>, k: int, l: int, i: int, j: int) {
    && i in inv && j in inv && inv[i].reseller == k && inv[j].reseller == l
    && PeriodOf(inv[i]) == PeriodOf(inv[j])
  }

  ghost predicate Conflict(inv: map<int, Invoice>, k: int, l: int) {
    exists i, j :: Collide(inv, k, l, i, j) && NonDraft(inv[i]) && NonDraft(inv[j])
  }

  ghost predicate HasBot(bots: map<int, int>, r: int) {
    exists b :: b in bots && bots[b] == r
  }

  function Without(m: map<int, int>, gone: set<int>): map<int, int> {
    map x | x in m && m[x] !in gone :: m[x]
  }

  function Repoint(m: map<int, int>, k: int, l: int): map<int, int> {
    map x | x in m :: if m[x] == l then k else m[x]
  }

  function RepointOptional(m: map<int, Option<int>>, k: int, l: int): map<int, Option<int>> {
    map x | x in m :: if m[x] == Some(l) then Some(k) else m[x]
  }

  function RepointInvoices(inv: map<int, Invoice>, k: int, l: int): map<int, Invoice> {
    map i | i in inv :: if inv[i].reseller == l then inv[i].(reseller := k) else inv[i]
  }

  function Fill<T>(own: Option<T>, other: Option<T>): Option<T> { if own.None? then other else own }

  /** The keeper with its empty override fields filled from the loser. */
  function FillNulls(k: Reseller, l: Reseller): Reseller {
    k.(price := Fill(k.price, l.price), minSale := Fill(k.minSale, l.minSale),
       fee := Fill(k.fee, l.fee), chat := Fill(k.chat, l.chat))
  }

  /** Merging the loser `l` into the keeper `k`; `None` when the migration aborts. */
  ghost function Merge(db: Db, k: int, l: int): Option<Db>
    requires UniquePeriods(db.invoices) && k in db.resellers && l in db.resellers
  {
    var kp := KeeperPeriods(db.invoices, k);
    var gone := Victims(db.invoices, kp, InvoicesOf(db.invoices, l));
    if Conflict(db.invoices, k, l) || (HasBot(db.bots, k) && HasBot(db.bots, l)) then None
    else Some(Db(
      db.resellers[k := FillNulls(db.resellers[k], db.resellers[l])] - {l},
      RepointInvoices(db.invoices - gone, k, l),
      Without(db.lines, gone), Without(db.ledger, gone),
      Repoint(db.payments, k, l), RepointOptional(db.deliveries, k, l), Repoint(db.actions, k, l),
      Repoint(db.bots, k, l)))
  }

  // ----- what every merge keeps -----

  ghost predicate Idempotent(lower: string -> string) {
    forall s :: lower(lower(s)) == lower(s)
  }

  /** Identity up to letter case; `lower` stands for SQL's LOWER and Python's `str.lower`. */
  function GroupOf(lower: string -> string, r: Reseller): (int, string) { (r.panel, lower(r.uuid)) }

  ghost predicate SameGroup(lower: string -> string, db0: Db, r: int, s: int) {
    r in db0.resellers && s in db0.resellers && GroupOf(lower, db0.resellers[r]) == GroupOf(lower, db0.resellers[s])
  }

  /** Referential integrity and the unique constraints. */
  ghost predicate Consistent(db: Db) {
    && UniquePeriods(db.invoices) && UniqueBots(db.bots)
    && (forall i :: i in db.invoices ==> db.invoices[i].reseller in db.resellers)
    && (forall x :: x in db.lines ==> db.lines[x] in db.invoices)
    && (forall x :: x in db.payments ==> db.payments[x] in db.resellers)
    && (forall x :: x in db.deliveries && db.deliveries[x].Some? ==> db.deliveries[x].value in db.resellers)
    && (forall x :: x in db.actions ==> db.actions[x] in db.resellers)
    && (forall x :: x in db.bots ==> db.bots[x] in db.resellers)
  }

  /** All columns but the overrides. */
  predicate SameIdentity(r: Reseller, s: Reseller) {
    r.panel == s.panel && r.uuid == s.uuid && r.parent == s.parent && r.lastSeen == s.lastSeen
  }

  ghost predicate ResellersKept(db0: Db, db: Db) {
    && db.resellers.Keys <= db0.resellers.Keys
    && forall r :: r in db.resellers ==> SameIdentity(db0.resellers[r], db.resellers[r])
  }

  /** Invoices keep everything but their reseller, who stays in the same group; only drafts go. */
  ghost predicate InvoicesKept(lower: string -> string, db0: Db, db: Db) {
    && db.invoices.Keys <= db0.invoices.Keys
    && (forall i :: i in db.invoices ==> db.invoices[i] == db0.invoices[i].(reseller := db.invoices[i].reseller))
    && (forall i :: i in db.invoices ==> SameGroup(lower, db0, db0.invoices[i].reseller, db.invoices[i].reseller))
    && (forall i :: i in db0.invoices && NonDraft(db0.invoices[i]) ==> i in db.invoices)
  }

  /** Every period a group had an invoice for, it still has one for: a draft goes only where another
      invoice of its group and period stays. */
  ghost predicate PeriodsKept(lower: string -> string, db0: Db, db: Db) {
    forall i :: i in db0.invoices ==> exists j :: SamePeriod(lower, db0, db, i, j)
  }

  /** The invoice `j` of `db` is for the group and period of `i` in `db0`. */
  ghost predicate SamePeriod(lower: string -> string, db0: Db, db: Db, i: int, j: int) {
    && i in db0.invoices && j in db.invoices && PeriodOf(db.invoices[j]) == PeriodOf(db0.invoices[i])
    && SameGroup(lower, db0, db0.invoices[i].reseller, db.invoices[j].reseller)
  }

  /** A remaining reseller's own invoices stay its own, and one of them goes only for a settled invoice of
      the same group and period. */
  ghost predicate OwnInvoicesKept(lower: string -> string, db0: Db, db: Db) {
    forall i :: i in db0.invoices && db0.invoices[i].reseller in db.resellers ==>
      if i in db.invoices then db.invoices[i].reseller == db0.invoices[i].reseller
      else exists j :: SamePeriod(lower, db0, db, i, j) && NonDraft(db.invoices[j])
  }

  /** Rows pointing at resellers all survive and stay within their group. */
  ghost predicate RowsKept(lower: string -> string, db0: Db, m0: map<int, int>, m: map<int, int>) {
    m.Keys == m0.Keys && forall x :: x in m ==> SameGroup(lower, db0, m0[x], m[x])
  }

  ghost predicate DeliveriesKept(lower: string -> string, db0: Db, m0: map<int, Option<int>>, m: map<int, Option<int>>)
  {
    && m.Keys == m0.Keys
    && (forall x :: x in m ==> m[x].Some? == m0[x].Some?)
    && (forall x :: x in m && m[x].Some? ==> SameGroup(lower, db0, m0[x].value, m[x].value))
  }

  /** Exactly the lines and ledger rows of dropped invoices are gone. */
  ghost predicate DetailsKept(db0: Db, m0: map<int, int>, m: map<int, int>, db: Db) {
    forall x :: (x in m <==> x in m0 && (m0[x] in db0.invoices ==> m0[x] in db.invoices)) && (x in m ==> m[x] == m0[x])
  }

  /** The override columns a merge fills where empty. */
  function Overrides(r: Reseller): seq<Option<int>> { [r.price, r.minSale, r.fee, r.chat] }

  /** A survivor keeps its own overrides, no column set anywhere in a group becomes empty, and every
      override comes from the same column of a row of the group. */
  ghost predicate OverridesKept(lower: string -> string, db0: Db, db: Db)
    requires ResellersKept(db0, db)
  {
    OwnKept(db0, db) && NoneLost(lower, db0, db) && AllFrom(lower, db0, db)
  }

  function Column(r: Reseller, c: nat): Option<int>
    requires c < 4
  {
    Overrides(r)[c]
  }

  ghost predicate OwnKept(db0: Db, db: Db)
    requires ResellersKept(db0, db)
  {
    forall r, c :: r in db.resellers && 0 <= c < 4 && Column(db0.resellers[r], c).Some?
      ==> Column(db.resellers[r], c) == Column(db0.resellers[r], c)
  }

  ghost predicate NoneLost(lower: string -> string, db0: Db, db: Db) {
    forall r, c :: r in db0.resellers && 0 <= c < 4 && Column(db0.resellers[r], c).Some?
      ==> exists s :: s in db.resellers && SameGroup(lower, db0, r, s) && Column(db.resellers[s], c).Some?
  }

  ghost predicate AllFrom(lower: string -> string, db0: Db, db: Db) {
    forall r, c :: r in db.resellers && 0 <= c < 4 && Column(db.resellers[r], c).Some?
      ==> From(lower, db0, r, c, Column(db.resellers[r], c))
  }

  ghost predicate From(lower: string -> string, db0: Db, r: int, c: nat, v: Option<int>)
    requires c < 4
  {
    exists s :: SameGroup(lower, db0, r, s) && Column(db0.resellers[s], c) == v
  }

  /** How the tables `db` reached by some merges stand to the tables `db0` at the start. */
  ghost predicate Kept(lower: string -> string, db0: Db, db: Db) {
    && Consistent(db) && ResellersKept(db0, db) && OverridesKept(lower, db0, db)
    && InvoicesKept(lower, db0, db) && PeriodsKept(lower, db0, db) && OwnInvoicesKept(lower, db0, db)
    && RowsKept(lower, db0, db0.payments, db.payments)
    && RowsKept(lower, db0, db0.actions, db.actions)
    && RowsKept(lower, db0, db0.bots, db.bots)
    && DeliveriesKept(lower, db0, db0.deliveries, db.deliveries)
    && DetailsKept(db0, db0.lines, db.lines, db)
    && DetailsKept(db0, db0.ledger, db.ledger, db)
  }

  lemma KeptAtStart(lower: string -> string, db0: Db)
    requires Consistent(db0)
    ensures Kept(lower, db0, db0)
  {
    assert PeriodsKept(lower, db0, db0) by {
      forall i | i in db0.invoices ensures SamePeriod(lower, db0, db0, i, i) {
      }
    }
    assert OverridesKept(lower, db0, db0) by {
      forall r, c | r in db0.resellers && 0 <= c < 4
        ensures SameGroup(lower, db0, r, r) && From(lower, db0, r, c, Column(db0.resellers[r], c))
      {
      }
    }
  }

  // ----- one merge keeps it all -----

  /** Without a conflict only drafts give way, one of each colliding pair. */
  lemma VictimsAreDrafts(inv: map<int, Invoice>, k: int, l: int)
    requires UniquePeriods(inv) && !Conflict(inv, k, l) && k != l
    ensures var gone := Victims(inv, KeeperPeriods(inv, k), InvoicesOf(inv, l));
            && (forall v :: v in gone ==>
                  v in inv && !NonDraft(inv[v]) && (inv[v].reseller == k || inv[v].reseller == l))
            && (forall i, j :: Collide(inv, k, l, i, j) ==> i in gone || j in gone)
  {
    var kp := KeeperPeriods(inv, k);
    var js := InvoicesOf(inv, l);
    var gone := Victims(inv, kp, js);
    forall v | v in gone ensures v in inv && !NonDraft(inv[v]) && (inv[v].reseller == k || inv[v].reseller == l) {
      var j :| j in js && PeriodOf(inv[j]) in kp && v == Victim(inv, kp, j);
      var i := kp[PeriodOf(inv[j])];
      assert inv[i].reseller == k && PeriodOf(inv[i]) == PeriodOf(inv[j]);
    }
    forall i, j | Collide(inv, k, l, i, j)
      ensures i in gone || j in gone
    {
      assert kp[PeriodOf(inv[i])] == i;
      assert Victim(inv, kp, j) in gone;
    }
  }

  /** Where a draft gives way, the other invoice of the pair stays. */
  lemma PartnerStays(inv: map<int, Invoice>, k: int, l: int, v: int) returns (w: int)
    requires UniquePeriods(inv) && !Conflict(inv, k, l) && k != l
    requires v in Victims(inv, KeeperPeriods(inv, k), InvoicesOf(inv, l))
    ensures w in inv && w !in Victims(inv, KeeperPeriods(inv, k), InvoicesOf(inv, l))
    ensures v in inv && PeriodOf(inv[w]) == PeriodOf(inv[v])
    ensures {inv[v].reseller, inv[w].reseller} == {k, l}
  {
    var kp, js := KeeperPeriods(inv, k), InvoicesOf(inv, l);
    var j :| j in js && PeriodOf(inv[j]) in kp && v == Victim(inv, kp, j);
    var i := kp[PeriodOf(inv[j])];
    w := if NonDraft(inv[j]) then j else i;
    forall x | x in js && PeriodOf(inv[x]) in kp ensures Victim(inv, kp, x) != w {
      assert kp[PeriodOf(inv[x])] in inv && inv[kp[PeriodOf(inv[x])]].reseller == k;
    }
  }

  /** The keeper's draft gives way to settled money only. */
  lemma KeeperYields(inv: map<int, Invoice>, k: int, l: int, v: int) returns (w: int)
    requires UniquePeriods(inv) && !Conflict(inv, k, l) && k != l && v in inv && inv[v].reseller == k
    requires v in Victims(inv, KeeperPeriods(inv, k), InvoicesOf(inv, l))
    ensures w in inv && NonDraft(inv[w]) && inv[w].reseller == l && PeriodOf(inv[w]) == PeriodOf(inv[v])
  {
    var kp, js := KeeperPeriods(inv, k), InvoicesOf(inv, l);
    w :| w in js && PeriodOf(inv[w]) in kp && v == Victim(inv, kp, w);
  }

  lemma OwnInvoicesStep(lower: string -> string, db0: Db, db: Db, db': Db, k: int, l: int)
    requires OwnInvoicesKept(lower, db0, db) && InvoicesKept(lower, db0, db) && SameGroup(lower, db0, l, k) && k != l
    requires UniquePeriods(db.invoices) && !Conflict(db.invoices, k, l) && k in db.resellers && l in db.resellers
    requires var gone := Victims(db.invoices, KeeperPeriods(db.invoices, k), InvoicesOf(db.invoices, l));
             db'.invoices == RepointInvoices(db.invoices - gone, k, l) && db'.resellers.Keys == db.resellers.Keys - {l}
    ensures OwnInvoicesKept(lower, db0, db')
  {
    hide UniquePeriods, Conflict, Victims, KeeperPeriods;
    var inv := db.invoices;
    var gone := Victims(inv, KeeperPeriods(inv, k), InvoicesOf(inv, l));
    VictimsAreDrafts(inv, k, l);
    forall i | i in db0.invoices && db0.invoices[i].reseller in db'.resellers && i !in db'.invoices
      ensures exists j :: SamePeriod(lower, db0, db', i, j) && NonDraft(db'.invoices[j])
    {
      var j: int;
      if i in inv {
        j := KeeperYields(inv, k, l, i);
      } else {
        j :| SamePeriod(lower, db0, db, i, j) && NonDraft(inv[j]);
      }
      assert j in inv - gone;
      assert SamePeriod(lower, db0, db', i, j) && NonDraft(db'.invoices[j]);
    }
  }

  lemma PeriodsStep(lower: string -> string, db0: Db, db: Db, db': Db, k: int, l: int)
    requires PeriodsKept(lower, db0, db) && SameGroup(lower, db0, l, k) && k != l
    requires UniquePeriods(db.invoices) && !Conflict(db.invoices, k, l)
    requires var gone := Victims(db.invoices, KeeperPeriods(db.invoices, k), InvoicesOf(db.invoices, l));
             db'.invoices == RepointInvoices(db.invoices - gone, k, l)
    ensures PeriodsKept(lower, db0, db')
  {
    hide UniquePeriods, Conflict, Victims, KeeperPeriods;
    var inv := db.invoices;
    var gone := Victims(inv, KeeperPeriods(inv, k), InvoicesOf(inv, l));
    forall i | i in db0.invoices ensures exists j :: SamePeriod(lower, db0, db', i, j) {
      var j :| SamePeriod(lower, db0, db, i, j);
      var w := j;
      if j in gone { w := PartnerStays(inv, k, l, j); }
      assert inv[w].reseller == inv[j].reseller || inv[w].reseller in {k, l};
      assert w in inv - gone;
      assert SamePeriod(lower, db0, db', i, w);
    }
  }

  lemma MergeUnique(inv: map<int, Invoice>, k: int, l: int, gone: set<int>)
    requires UniquePeriods(inv)
    requires forall i, j :: Collide(inv, k, l, i, j) ==> i in gone || j in gone
    ensures UniquePeriods(RepointInvoices(inv - gone, k, l))
  {
  }

  lemma RepointBots(bots: map<int, int>, k: int, l: int)
    requires UniqueBots(bots) && !(HasBot(bots, k) && HasBot(bots, l))
    ensures UniqueBots(Repoint(bots, k, l))
  {
  }

  lemma GroupTransitive(lower: string -> string, db0: Db, m0: map<int, int>, m: map<int, int>, k: int, l: int)
    requires RowsKept(lower, db0, m0, m) && SameGroup(lower, db0, l, k)
    ensures RowsKept(lower, db0, m0, Repoint(m, k, l))
  {
  }

  lemma DetailsStep(db0: Db, m0: map<int, int>, m: map<int, int>, db: Db, db': Db, gone: set<int>)
    requires DetailsKept(db0, m0, m, db)
    requires db.invoices.Keys <= db0.invoices.Keys && db'.invoices.Keys == db.invoices.Keys - gone
        && gone <= db.invoices.Keys
    ensures DetailsKept(db0, m0, Without(m, gone), db')
  {
  }

  lemma InvoicesStep(lower: string -> string, db0: Db, db: Db, db': Db, k: int, l: int, gone: set<int>)
    requires InvoicesKept(lower, db0, db) && SameGroup(lower, db0, l, k)
    requires forall v :: v in gone ==> v in db.invoices && !NonDraft(db.invoices[v])
    requires db'.invoices == RepointInvoices(db.invoices - gone, k, l)
    ensures InvoicesKept(lower, db0, db')
  {
  }

  lemma FillColumn(k: Reseller, l: Reseller, c: nat)
    requires c < 4
    ensures Column(FillNulls(k, l), c) == Fill(Column(k, c), Column(l, c))
  {
  }

  /** The resellers after one merge, column by column. */
  lemma MergedColumn(db: Db, db': Db, k: int, l: int, r: int, c: nat)
    requires k in db.resellers && l in db.resellers && k != l && c < 4 && r in db'.resellers
    requires db'.resellers == db.resellers[k := FillNulls(db.resellers[k], db.resellers[l])] - {l}
    ensures r in db.resellers
    ensures Column(db'.resellers[r], c)
         == if r == k then Fill(Column(db.resellers[k], c), Column(db.resellers[l], c)) else Column(db.resellers[r], c)
  {
    hide Column, FillNulls;
    FillColumn(db.resellers[k], db.resellers[l], c);
  }

  lemma OverridesStep(lower: string -> string, db0: Db, db: Db, db': Db, k: int, l: int)
    requires ResellersKept(db0, db) && OverridesKept(lower, db0, db) && ResellersKept(db0, db')
    requires k in db.resellers && l in db.resellers && k != l && SameGroup(lower, db0, l, k)
    requires db'.resellers == db.resellers[k := FillNulls(db.resellers[k], db.resellers[l])] - {l}
    ensures OverridesKept(lower, db0, db')
  {
    hide Column, FillNulls, From, SameGroup, SameIdentity;
    assert OwnKept(db0, db') by {
      forall r, c | r in db'.resellers && 0 <= c < 4 && Column(db0.resellers[r], c).Some?
        ensures Column(db'.resellers[r], c) == Column(db0.resellers[r], c)
      {
        MergedColumn(db, db', k, l, r, c);
      }
    }
    assert NoneLost(lower, db0, db') by {
      forall r, c | r in db0.resellers && 0 <= c < 4 && Column(db0.resellers[r], c).Some?
        ensures exists s :: s in db'.resellers && SameGroup(lower, db0, r, s) && Column(db'.resellers[s], c).Some?
      {
        var s :| s in db.resellers && SameGroup(lower, db0, r, s) && Column(db.resellers[s], c).Some?;
        var t := if s == l then k else s;
        MergedColumn(db, db', k, l, t, c);
        Chain(lower, db0, r, s, t, k, l);
      }
    }
    AllFromStep(lower, db0, db, db', k, l);
  }

  lemma Chain(lower: string -> string, db0: Db, r: int, s: int, t: int, k: int, l: int)
    requires SameGroup(lower, db0, r, s) && SameGroup(lower, db0, l, k) && (t == s || (s == l && t == k))
    ensures SameGroup(lower, db0, r, t)
  {
  }

  lemma AllFromStep(lower: string -> string, db0: Db, db: Db, db': Db, k: int, l: int)
    requires AllFrom(lower, db0, db) && k in db.resellers && l in db.resellers && k != l && SameGroup(lower, db0, l, k)
    requires db'.resellers == db.resellers[k := FillNulls(db.resellers[k], db.resellers[l])] - {l}
    ensures AllFrom(lower, db0, db')
  {
    hide Column, FillNulls;
    forall r, c | r in db'.resellers && 0 <= c < 4 && Column(db'.resellers[r], c).Some?
      ensures From(lower, db0, r, c, Column(db'.resellers[r], c))
    {
      MergedColumn(db, db', k, l, r, c);
      var t := if r == k && Column(db.resellers[k], c).None? then l else r;
      var v := Column(db'.resellers[r], c);
      assert From(lower, db0, t, c, v);
      var s :| SameGroup(lower, db0, t, s) && Column(db0.resellers[s], c) == v;
      Swap(lower, db0, r, s, t, k, l);
    }
  }

  lemma Swap(lower: string -> string, db0: Db, r: int, s: int, t: int, k: int, l: int)
    requires SameGroup(lower, db0, t, s) && SameGroup(lower, db0, l, k) && (t == r || (t == l && r == k))
    ensures SameGroup(lower, db0, r, s)
  {
  }

  /** A merge of two resellers of one group keeps everything, and removes just the loser. */
  lemma MergeKeeps(lower: string -> string, db0: Db, db: Db, k: int, l: int)
    requires Kept(lower, db0, db) && k in db.resellers && l in db.resellers && k != l
    requires SameGroup(lower, db0, l, k) && Merge(db, k, l).Some?
    ensures Kept(lower, db0, Merge(db, k, l).value)
    ensures Merge(db, k, l).value.resellers.Keys == db.resellers.Keys - {l}
  {
    hide SameGroup, UniquePeriods, UniqueBots, Conflict, HasBot, Victims, KeeperPeriods, RowsKept, DetailsKept,
         DeliveriesKept,
         OverridesKept, PeriodsKept, OwnInvoicesKept, FillNulls;
    var inv := db.invoices;
    var db' := Merge(db, k, l).value;
    var gone := Victims(inv, KeeperPeriods(inv, k), InvoicesOf(inv, l));
    VictimsAreDrafts(inv, k, l);
    MergeUnique(inv, k, l, gone);
    RepointBots(db.bots, k, l);
    InvoicesStep(lower, db0, db, db', k, l, gone);
    PeriodsStep(lower, db0, db, db', k, l);
    OwnInvoicesStep(lower, db0, db, db', k, l);
    GroupTransitive(lower, db0, db0.payments, db.payments, k, l);
    GroupTransitive(lower, db0, db0.actions, db.actions, k, l);
    GroupTransitive(lower, db0, db0.bots, db.bots, k, l);
    DeliveriesStep(lower, db0, db, k, l);
    assert db'.invoices.Keys == db.invoices.Keys - gone;
    DetailsStep(db0, db0.lines, db.lines, db, db', gone);
    DetailsStep(db0, db0.ledger, db.ledger, db, db', gone);
    MergeConsistent(db, k, l);
    FillKeepsIdentity(db.resellers[k], db.resellers[l]);
    OverridesStep(lower, db0, db, db', k, l);
  }

  lemma FillKeepsIdentity(k: Reseller, l: Reseller)
    ensures SameIdentity(k, FillNulls(k, l))
  {
  }

  lemma DeliveriesStep(lower: string -> string, db0: Db, db: Db, k: int, l: int)
    requires DeliveriesKept(lower, db0, db0.deliveries, db.deliveries) && SameGroup(lower, db0, l, k)
    ensures DeliveriesKept(lower, db0, db0.deliveries, RepointOptional(db.deliveries, k, l))
  {
  }

  /** Through a merge the unique constraints hold and no row points at the deleted reseller. */
  lemma MergeConsistent(db: Db, k: int, l: int)
    requires Consistent(db) && k in db.resellers && l in db.resellers && k != l && Merge(db, k, l).Some?
    ensures Consistent(Merge(db, k, l).value)
  {
    hide UniquePeriods, UniqueBots, Conflict, HasBot, Victims, KeeperPeriods;
    var inv := db.invoices;
    var gone := Victims(inv, KeeperPeriods(inv, k), InvoicesOf(inv, l));
    VictimsAreDrafts(inv, k, l);
    MergeUnique(inv, k, l, gone);
    RepointBots(db.bots, k, l);
  }

  // ----- what a merge leaves alone -----

  /** The row and the invoices of the reseller `m` are as in `db0`. */
  ghost predicate Untouched(db0: Db, db: Db, m: int) {
    && m in db0.resellers && m in db.resellers && db.resellers[m] == db0.resellers[m]
    && InvoicesOf(db.invoices, m) == InvoicesOf(db0.invoices, m)
  }

  lemma UntouchedSelf(db: Db)
    ensures forall m :: m in db.resellers ==> Untouched(db, db, m)
  {
  }

  lemma UntouchedTrans(db0: Db, db: Db, db': Db, m: int)
    requires Untouched(db0, db, m) && m in db.resellers ==> Untouched(db, db', m)
    ensures Untouched(db0, db, m) ==> Untouched(db0, db', m)
  {
  }

  /** A merge touches no third reseller. */
  lemma MergeFrame(db0: Db, db: Db, k: int, l: int, m: int)
    requires UniquePeriods(db.invoices) && k in db.resellers && l in db.resellers && k != l && Merge(db, k, l).Some?
    requires Untouched(db0, db, m) && m != k && m != l
    ensures Untouched(db0, Merge(db, k, l).value, m)
  {
    hide UniquePeriods, Conflict, HasBot, Victims, KeeperPeriods, FillNulls;
    var inv, db' := db.invoices, Merge(db, k, l).value;
    var gone := Victims(inv, KeeperPeriods(inv, k), InvoicesOf(inv, l));
    VictimsAreDrafts(inv, k, l);
    forall i ensures i in InvoicesOf(db'.invoices, m) <==> i in InvoicesOf(inv, m) {
      assert i in db'.invoices <==> i in inv && i !in gone;
    }
  }

  // ----- when the migration must abort -----

  /** Two resellers of one group both hold a non-draft invoice for one period, or both run a bot. */
  ghost predicate Collides(lower: string -> string, db0: Db) {
    || (exists i, j :: i in db0.invoices && j in db0.invoices && i != j
          && SameGroup(lower, db0, db0.invoices[i].reseller, db0.invoices[j].reseller)
          && PeriodOf(db0.invoices[i]) == PeriodOf(db0.invoices[j])
          && NonDraft(db0.invoices[i]) && NonDraft(db0.invoices[j]))
    || (exists b, c :: b in db0.bots && c in db0.bots && b != c && SameGroup(lower, db0, db0.bots[b], db0.bots[c]))
  }

  lemma ConflictCollides(lower: string -> string, db0: Db, db: Db, k: int, l: int)
    requires InvoicesKept(lower, db0, db) && SameGroup(lower, db0, l, k) && k != l && Conflict(db.invoices, k, l)
    ensures Collides(lower, db0)
  {
    var i, j :| Collide(db.invoices, k, l, i, j) && NonDraft(db.invoices[i]) && NonDraft(db.invoices[j]);
    assert i != j && SameGroup(lower, db0, db0.invoices[i].reseller, db0.invoices[j].reseller);
  }

  lemma BotsCollide(lower: string -> string, db0: Db, db: Db, k: int, l: int)
    requires RowsKept(lower, db0, db0.bots, db.bots) && SameGroup(lower, db0, l, k) && k != l
    requires HasBot(db.bots, k) && HasBot(db.bots, l)
    ensures Collides(lower, db0)
  {
    var b :| b in db.bots && db.bots[b] == k;
    var c :| c in db.bots && db.bots[c] == l;
    assert b != c && SameGroup(lower, db0, db0.bots[b], db0.bots[c]);
  }

  /** A merge that aborts has met a collision of the original tables. */
  lemma AbortCollides(lower: string -> string, db0: Db, db: Db, k: int, l: int)
    requires Kept(lower, db0, db) && k in db.resellers && l in db.resellers && k != l
    requires SameGroup(lower, db0, l, k) && Merge(db, k, l).None?
    ensures Collides(lower, db0)
  {
    hide Collides, DetailsKept, DeliveriesKept, ResellersKept, RowsKept, InvoicesKept, Conflict, HasBot, UniquePeriods;
    if Conflict(db.invoices, k, l) {
      ConflictCollides(lower, db0, db, k, l);
    } else {
      BotsCollide(lower, db0, db, k, l);
    }
  }

  /** One reseller is left in each group. */
  ghost predicate OnePerGroup(lower: string -> string, db0: Db, db: Db) {
    && (forall r, s :: r in db.resellers && s in db.resellers && SameGroup(lower, db0, r, s) ==> r == s)
    && (forall r :: r in db0.resellers ==> exists s :: s in db.resellers && SameGroup(lower, db0, r, s))
  }

  /** Merging to the end is impossible from colliding tables. */
  lemma MergedNotColliding(lower: string -> string, db0: Db, db: Db)
    requires Kept(lower, db0, db) && OnePerGroup(lower, db0, db)
    ensures !Collides(lower, db0)
  {
    hide DetailsKept, DeliveriesKept, ResellersKept, PeriodsKept, OwnInvoicesKept, OverridesKept;
    forall i, j | i in db0.invoices && j in db0.invoices && i != j
                  && SameGroup(lower, db0, db0.invoices[i].reseller, db0.invoices[j].reseller)
                  && NonDraft(db0.invoices[i]) && NonDraft(db0.invoices[j])
      ensures PeriodOf(db0.invoices[i]) != PeriodOf(db0.invoices[j])
    {
      assert SameGroup(lower, db0, db.invoices[i].reseller, db.invoices[j].reseller);
      assert db.invoices[i].reseller == db.invoices[j].reseller;
    }
    forall b, c | b in db0.bots && c in db0.bots && b != c
      ensures !SameGroup(lower, db0, db0.bots[b], db0.bots[c])
    {
      assert db.bots[b] != db.bots[c];
    }
  }
}
