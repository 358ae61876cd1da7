/** What the whole merge promises, column by column. */
module MergeOutcome {
  import opened Common
  import opened MergeSpec

  /** Rows of one panel whose uuids are equal up to letter case. */
  ghost predicate Twins(lower: string -> string, db0: Db, r: int, s: int) {
    && r in db0.resellers && s in db0.resellers && db0.resellers[r].panel == db0.resellers[s].panel
    && lower(db0.resellers[r].uuid) == lower(db0.resellers[s].uuid)
  }

  /** Of all rows that are equal up to letter case one is left. */
  ghost predicate OneLeft(lower: string -> string, db0: Db, db: Db) {
    && (forall r :: r in db.resellers ==> r in db0.resellers)
    && (forall r, s :: r in db.resellers && s in db.resellers && r != s ==> !Twins(lower, db0, r, s))
    && (forall r :: r in db0.resellers ==> exists s :: s in db.resellers && Twins(lower, db0, r, s))
  }

  /** `r` ranks as high as `m` or higher: by invoices, then a bound chat, then the last sighting, then the lower id. */
  ghost predicate RanksOver(db: Db, r: int, m: int)
    requires r in db.resellers && m in db.resellers
  {
    var a, b := |set i | i in db.invoices && db.invoices[i].reseller == r|,
                |set i | i in db.invoices && db.invoices[i].reseller == m|;
    var x, y := db.resellers[r], db.resellers[m];
    && b <= a
    && (a == b ==> (y.chat.Some? ==> x.chat.Some?))
    && (a == b && x.chat.Some? == y.chat.Some? && y.lastSeen.Some?
        ==> x.lastSeen.Some? && y.lastSeen.value <= x.lastSeen.value)
    && (a == b && x.chat.Some? == y.chat.Some? && x.lastSeen == y.lastSeen ==> r <= m)
  }

  ghost predicate SameSpan(i: Invoice, j: Invoice) { i.start == j.start && i.end == j.end }

  /** Two settled invoices for one period, or two bots, of one reseller up to letter case. */
  ghost predicate Clash(lower: string -> string, db: Db) {
    || (exists i, j :: i in db.invoices && j in db.invoices && i != j && SameSpan(db.invoices[i], db.invoices[j])
          && db.invoices[i].status != "draft" && db.invoices[j].status != "draft"
          && Twins(lower, db, db.invoices[i].reseller, db.invoices[j].reseller))
    || (exists b, c :: b in db.bots && c in db.bots && b != c && Twins(lower, db, db.bots[b], db.bots[c]))
  }

  /** No invoice changes but in its reseller, who is one of those `left`; no settled one goes, and no period is
      left without one. */
  ghost predicate MoneySafe(lower: string -> string, db0: Db, left: set<int>, now: map<int, Invoice>) {
    && (forall i :: i in now ==>
          && i in db0.invoices && SameSpan(db0.invoices[i], now[i]) && now[i].status == db0.invoices[i].status
          && now[i].amount == db0.invoices[i].amount && now[i].reseller in left
          && Twins(lower, db0, db0.invoices[i].reseller, now[i].reseller))
    && (forall i :: i in db0.invoices && db0.invoices[i].status != "draft" ==> i in now)
    && (forall i :: i in db0.invoices ==> exists j :: StandsFor(lower, db0, now, i, j))
    && (forall i, j :: i in now && j in now && i != j && SameSpan(now[i], now[j])
          ==> now[i].reseller != now[j].reseller)
  }

  /** `j` is an invoice left for the period and the twins of `i`. */
  ghost predicate StandsFor(lower: string -> string, db0: Db, now: map<int, Invoice>, i: int, j: int) {
    && i in db0.invoices && j in now && SameSpan(db0.invoices[i], now[j])
    && Twins(lower, db0, db0.invoices[i].reseller, now[j].reseller)
  }

  /** Of a survivor's own invoices only drafts go, and only where a settled one stays. */
  ghost predicate OwnSafe(lower: string -> string, db0: Db, left: set<int>, now: map<int, Invoice>) {
    forall i :: i in db0.invoices && db0.invoices[i].reseller in left && i !in now
      ==> exists j :: StandsFor(lower, db0, now, i, j) && now[j].status != "draft"
  }

  /** Every row that points at a reseller stays and points at the row left of its twins. */
  ghost predicate Repointed(lower: string -> string, db0: Db, left: set<int>, was: map<int, int>, now: map<int, int>) {
    && (forall x :: x in was <==> x in now)
    && (forall x :: x in now ==> x in was && now[x] in left && Twins(lower, db0, was[x], now[x]))
  }

  /** A detail row goes exactly with its invoice and is otherwise as before. */
  ghost predicate DetailsFollow(db0: Db, inv: map<int, Invoice>, was: map<int, int>, now: map<int, int>) {
    && (forall x :: x in now ==> x in was && now[x] == was[x])
    && (forall x :: x in was && x !in now ==> was[x] in db0.invoices && was[x] !in inv)
    && (forall x :: x in now && now[x] in db0.invoices ==> now[x] in inv)
  }

  ghost predicate RowsSafe(lower: string -> string, db0: Db, left: set<int>, db: Db) {
    && Repointed(lower, db0, left, db0.payments, db.payments) && Repointed(lower, db0, left, db0.actions, db.actions)
    && Repointed(lower, db0, left, db0.bots, db.bots)
    && (forall b, c :: b in db.bots && c in db.bots && b != c ==> db.bots[b] != db.bots[c])
    && (forall x :: x in db0.deliveries <==> x in db.deliveries)
    && (forall x :: x in db.deliveries ==> match db.deliveries[x]
          case None => db0.deliveries[x] == None
          case Some(r) => r in left && db0.deliveries[x].Some? && Twins(lower, db0, db0.deliveries[x].value, r))
    && DetailsFollow(db0, db.invoices, db0.lines, db.lines) && DetailsFollow(db0, db.invoices, db0.ledger, db.ledger)
  }

  /** A survivor's own value stays; an empty column takes a twin's value if any twin has one. */
  ghost predicate Filled(lower: string -> string, db0: Db, r: int, column: Reseller -> Option<int>, v: Option<int>)
    requires r in db0.resellers
  {
    && (column(db0.resellers[r]).Some? ==> v == column(db0.resellers[r]))
    && (v.Some? ==> exists s :: Twins(lower, db0, r, s) && column(db0.resellers[s]) == v)
    && (v.None? ==> forall s :: Twins(lower, db0, r, s) ==> column(db0.resellers[s]).None?)
  }

  ghost predicate ColumnsFilled(lower: string -> string, db0: Db, db: Db) {
    forall r :: r in db.resellers ==>
      && r in db0.resellers
      && Filled(lower, db0, r, (x: Reseller) => x.price, db.resellers[r].price)
      && Filled(lower, db0, r, (x: Reseller) => x.minSale, db.resellers[r].minSale)
      && Filled(lower, db0, r, (x: Reseller) => x.fee, db.resellers[r].fee)
      && Filled(lower, db0, r, (x: Reseller) => x.chat, db.resellers[r].chat)
  }

  /** All that holds of the tables after a merge that completes. */
  ghost predicate Outcome(lower: string -> string, db0: Db, db: Db) {
    && OneLeft(lower, db0, db) && MoneySafe(lower, db0, db.resellers.Keys, db.invoices)
    && OwnSafe(lower, db0, db.resellers.Keys, db.invoices) && RowsSafe(lower, db0, db.resellers.Keys, db)
    && ColumnsFilled(lower, db0, db)
    && (forall r, m :: r in db.resellers && Twins(lower, db0, r, m) ==> RanksOver(db0, r, m))
  }

  // ----- the invariant implies it -----

  lemma ClashIs(lower: string -> string, db: Db)
    ensures Clash(lower, db) <==> Collides(lower, db)
  {
  }

  lemma OneLeftIs(lower: string -> string, db0: Db, db: Db)
    requires ResellersKept(db0, db) && OnePerGroup(lower, db0, db)
    ensures OneLeft(lower, db0, db)
  {
  }

  lemma TwinsAre(lower: string -> string, db0: Db)
    ensures forall r, s :: SameGroup(lower, db0, r, s) <==> Twins(lower, db0, r, s)
  {
  }

  lemma PeriodsAre(lower: string -> string, db0: Db, db: Db)
    requires PeriodsKept(lower, db0, db)
    ensures forall i :: i in db0.invoices ==> exists j :: StandsFor(lower, db0, db.invoices, i, j)
  {
    hide SameGroup, Twins;
    TwinsAre(lower, db0);
    forall i | i in db0.invoices ensures exists j :: StandsFor(lower, db0, db.invoices, i, j) {
      var j :| SamePeriod(lower, db0, db, i, j);
      assert StandsFor(lower, db0, db.invoices, i, j);
    }
  }

  lemma OwnAre(lower: string -> string, db0: Db, db: Db)
    requires OwnInvoicesKept(lower, db0, db)
    ensures OwnSafe(lower, db0, db.resellers.Keys, db.invoices)
  {
    hide SameGroup, Twins;
    TwinsAre(lower, db0);
    forall i | i in db0.invoices && db0.invoices[i].reseller in db.resellers && i !in db.invoices
      ensures exists j :: StandsFor(lower, db0, db.invoices, i, j) && db.invoices[j].status != "draft"
    {
      var j :| SamePeriod(lower, db0, db, i, j) && NonDraft(db.invoices[j]);
      assert StandsFor(lower, db0, db.invoices, i, j);
    }
  }

  lemma MoneyIs(lower: string -> string, db0: Db, db: Db)
    requires Consistent(db) && InvoicesKept(lower, db0, db) && PeriodsKept(lower, db0, db)
    ensures MoneySafe(lower, db0, db.resellers.Keys, db.invoices)
  {
    hide SameGroup, Twins, PeriodsKept, StandsFor, UniqueBots;
    TwinsAre(lower, db0);
    PeriodsAre(lower, db0, db);
  }

  lemma RepointedIs(lower: string -> string, db0: Db, left: set<int>, was: map<int, int>, now: map<int, int>)
    requires RowsKept(lower, db0, was, now) && forall x :: x in now ==> now[x] in left
    ensures Repointed(lower, db0, left, was, now)
  {
  }

  lemma DetailsAre(db0: Db, db: Db, was: map<int, int>, now: map<int, int>)
    requires DetailsKept(db0, was, now, db)
    ensures DetailsFollow(db0, db.invoices, was, now)
  {
  }

  lemma RowsAre(lower: string -> string, db0: Db, db: Db)
    requires Consistent(db) && DeliveriesKept(lower, db0, db0.deliveries, db.deliveries)
    requires RowsKept(lower, db0, db0.payments, db.payments) && RowsKept(lower, db0, db0.actions, db.actions)
    requires RowsKept(lower, db0, db0.bots, db.bots)
    requires DetailsKept(db0, db0.lines, db.lines, db) && DetailsKept(db0, db0.ledger, db.ledger, db)
    ensures RowsSafe(lower, db0, db.resellers.Keys, db)
  {
    hide UniquePeriods, RowsKept, Repointed, DetailsKept, DetailsFollow;
    var left := db.resellers.Keys;
    RepointedIs(lower, db0, left, db0.payments, db.payments);
    RepointedIs(lower, db0, left, db0.actions, db.actions);
    RepointedIs(lower, db0, left, db0.bots, db.bots);
    DetailsAre(db0, db, db0.lines, db.lines);
    DetailsAre(db0, db, db0.ledger, db.ledger);
  }

  lemma FilledFrom(lower: string -> string, db0: Db, r: int, c: nat, column: Reseller -> Option<int>, v: Option<int>)
    requires c < 4 && From(lower, db0, r, c, v) && forall x :: column(x) == Column(x, c)
    ensures exists s :: Twins(lower, db0, r, s) && column(db0.resellers[s]) == v
  {
    hide Column;
    var s :| SameGroup(lower, db0, r, s) && Column(db0.resellers[s], c) == v;
    assert Twins(lower, db0, r, s) && column(db0.resellers[s]) == v;
  }

  lemma FilledNone(lower: string -> string, db0: Db, db: Db, r: int, c: nat)
    requires NoneLost(lower, db0, db) && OnePerGroup(lower, db0, db)
    requires r in db.resellers && c < 4 && Column(db.resellers[r], c).None?
    ensures forall s :: SameGroup(lower, db0, r, s) ==> Column(db0.resellers[s], c).None?
  {
    hide Column;
    forall s | SameGroup(lower, db0, r, s) ensures Column(db0.resellers[s], c).None? {
      if Column(db0.resellers[s], c).Some? {
        assert exists t :: t in db.resellers && SameGroup(lower, db0, s, t) && Column(db.resellers[t], c).Some?;
      }
    }
  }

  lemma FilledIs(lower: string -> string, db0: Db, db: Db, r: int, c: nat, column: Reseller -> Option<int>)
    requires ResellersKept(db0, db) && OverridesKept(lower, db0, db) && OnePerGroup(lower, db0, db)
    requires r in db.resellers && c < 4 && forall x :: column(x) == Column(x, c)
    ensures Filled(lower, db0, r, column, column(db.resellers[r]))
  {
    hide Column, SameIdentity, OnePerGroup, NoneLost, From, SameGroup;
    TwinsAre(lower, db0);
    var v := Column(db.resellers[r], c);
    assert column(db.resellers[r]) == v && column(db0.resellers[r]) == Column(db0.resellers[r], c);
    if v.Some? {
      FilledFrom(lower, db0, r, c, column, v);
    } else {
      FilledNone(lower, db0, db, r, c);
    }
  }

  lemma ColumnsAre(lower: string -> string, db0: Db, db: Db)
    requires ResellersKept(db0, db) && OverridesKept(lower, db0, db) && OnePerGroup(lower, db0, db)
    ensures ColumnsFilled(lower, db0, db)
  {
    hide OverridesKept, OnePerGroup, Filled, SameIdentity;
    forall r | r in db.resellers
      ensures Filled(lower, db0, r, (x: Reseller) => x.price, db.resellers[r].price)
      ensures Filled(lower, db0, r, (x: Reseller) => x.minSale, db.resellers[r].minSale)
      ensures Filled(lower, db0, r, (x: Reseller) => x.fee, db.resellers[r].fee)
      ensures Filled(lower, db0, r, (x: Reseller) => x.chat, db.resellers[r].chat)
    {
      FilledIs(lower, db0, db, r, 0, (x: Reseller) => x.price);
      FilledIs(lower, db0, db, r, 1, (x: Reseller) => x.minSale);
      FilledIs(lower, db0, db, r, 2, (x: Reseller) => x.fee);
      FilledIs(lower, db0, db, r, 3, (x: Reseller) => x.chat);
    }
  }

  lemma OutcomeIs(lower: string -> string, db0: Db, db: Db)
    requires Kept(lower, db0, db) && OnePerGroup(lower, db0, db)
    requires forall r, m :: r in db.resellers && Twins(lower, db0, r, m) ==> RanksOver(db0, r, m)
    ensures Outcome(lower, db0, db)
  {
    hide InvoicesKept, PeriodsKept, OwnInvoicesKept, RowsKept, DeliveriesKept, DetailsKept, OverridesKept,
         OnePerGroup, ResellersKept, Consistent, Twins, RanksOver, OneLeft, MoneySafe, OwnSafe, RowsSafe, ColumnsFilled;
    OneLeftIs(lower, db0, db);
    MoneyIs(lower, db0, db);
    OwnAre(lower, db0, db);
    RowsAre(lower, db0, db);
    ColumnsAre(lower, db0, db);
  }
}
