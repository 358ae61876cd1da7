/** `reseller_tree`: the nested listing of resellers, for any parent links. */
module ResellerTree {
  import opened Common
  import opened Ancestry
  import opened TreeRows

  // ----- what a correct listing is -----

  /** The trees' rows come in name order. */
  ghost predicate InOrder(ts: seq<Tree>) {
    forall i, j :: 0 <= i < j < |ts| ==> NameLeq(ts[i].row.name, ts[j].row.name)
  }

  /** Every node states the number of nodes below it, and its children come in name order. */
  ghost predicate WellListed(t: Tree) {
    && t.descendantCount == |ForestRows(t.children)| && InOrder(t.children)
    && forall c :: c in t.children ==> WellListed(c)
  }

  /** At every level: children are exactly the rows whose parent is the node, the count is the true
      number of descendants, and no cycle is flagged. */
  ghost predicate Exact(rows: seq<Row>, t: Tree) {
    && !t.cycleDetected && t.descendantCount == |Below(rows, Id(t.row))| - 1
    && (forall r :: r in rows && ChildOf(r, t.row) ==> exists c :: c in t.children && c.row == r)
    && (forall c :: c in t.children ==> c.row in rows && ChildOf(c.row, t.row) && Exact(rows, c))
  }

  ghost predicate HasRow(ts: seq<Tree>, r: Row) { exists c :: c in ts && c.row == r }

  /** At every level: children are rows whose parent is the node, and a cycle is flagged exactly if some
      row with that parent is missing from the children, or a child flags one. */
  ghost predicate FlagsTrue(rows: seq<Row>, t: Tree) {
    && (forall c :: c in t.children ==> c.row in rows && ChildOf(c.row, t.row) && FlagsTrue(rows, c))
    && (t.cycleDetected <==> (exists r :: r in rows && ChildOf(r, t.row) && !HasRow(t.children, r))
                             || exists c :: c in t.children && c.cycleDetected)
  }

  ghost predicate NoOwnerBelow(rows: seq<Row>) {
    forall o, p :: o in rows && p in rows && o.isOwner && ChildOf(o, p) ==> p.isOwner
  }

  ghost predicate WellFormed(rows: seq<Row>) {
    NoDup(rows) && Acyclic(Links(rows)) && NoOwnerBelow(rows)
  }

  ghost function Below(rows: seq<Row>, k: Key): set<Key> {
    Subtree(Ids(rows), Links(rows), k)
  }

  /** Rows that may be listed: existing and not an owner's. */
  ghost predicate Listable(rows: seq<Row>, s: seq<Row>) {
    forall r :: r in s ==> r in rows && !r.isOwner
  }

  /** A non-owner whose parent is missing, an owner, or none. */
  predicate IsRoot(rows: seq<Row>, r: Row) {
    && !r.isOwner
    && (r.parent.None? || (forall x :: x in rows ==> !ChildOf(r, x))
        || exists o :: o in rows && o.isOwner && ChildOf(r, o))
  }

  // ----- the children of one row -----

  function Kids(rows: seq<Row>, k: Key): seq<Row> { SortByName(Children(rows, k)) }

  ghost function KidIds(rows: seq<Row>, k: Key): seq<Key> {
    var ks := Kids(rows, k);
    seq(|ks|, i requires 0 <= i < |ks| => Id(ks[i]))
  }

  lemma KidsElements(rows: seq<Row>, k: Key)
    ensures forall r :: r in Kids(rows, k) <==> r in rows && ParentId(r) == Some(k)
  {
    hide SortByName;
    forall r ensures r in Kids(rows, k) <==> r in rows && ParentId(r) == Some(k) {
      SortElements(Children(rows, k), r);
    }
  }

  lemma KidsNoDup(rows: seq<Row>, k: Key)
    requires NoDup(rows)
    ensures NoDup(Kids(rows, k))
  {
    ChildrenNoDup(rows, k);
    SortNoDup(Children(rows, k));
  }

  lemma KidsList(rows: seq<Row>, k: Key)
    requires NoDup(rows)
    ensures ListsChildren(Links(rows), KidIds(rows, k), k)
    ensures forall r :: r in Kids(rows, k) <==> r in rows && ParentId(r) == Some(k)
  {
    hide Kids, Links;
    var up, ks, ids := Links(rows), Kids(rows, k), KidIds(rows, k);
    KidsElements(rows, k);
    KidsNoDup(rows, k);
    LinksIn(rows);
    forall c ensures c in ids <==> c in up && up[c] == k {
      if c in ids {
        var i :| 0 <= i < |ids| && ids[i] == c;
        LinksAt(rows, ks[i]);
      }
      if c in up && up[c] == k {
        var r :| r in rows && Id(r) == c;
        LinksAt(rows, r);
        var i :| 0 <= i < |ks| && ks[i] == r;
        assert ids[i] == c;
      }
    }
  }

  lemma KidsDistinct(rows: seq<Row>, k: Key)
    requires NoDup(rows)
    ensures forall i, j :: 0 <= i < j < |Kids(rows, k)| ==> Kids(rows, k)[i] != Kids(rows, k)[j]
  {
    KidsNoDup(rows, k);
  }

  /** The first `i` kids have been tried: `flag` tells whether one of them was skipped. */
  ghost predicate Tried(rows: seq<Row>, kids: seq<Row>, children: seq<Tree>, i: nat, flag: bool) {
    && i <= |kids|
    && (forall c :: c in children ==> FlagsTrue(rows, c) && exists j :: 0 <= j < i && kids[j] == c.row)
    && (flag <==> exists j :: 0 <= j < i && !HasRow(children, kids[j]))
  }

  lemma TriedSkip(rows: seq<Row>, k: Key, children: seq<Tree>, i: nat, flag: bool)
    requires NoDup(rows) && i < |Kids(rows, k)| && Tried(rows, Kids(rows, k), children, i, flag)
    ensures Tried(rows, Kids(rows, k), children, i + 1, true)
  {
    hide NoDup, Kids, FlagsTrue;
    KidsDistinct(rows, k);
    assert !HasRow(children, Kids(rows, k)[i]);
  }

  lemma TriedAdd(rows: seq<Row>, k: Key, children: seq<Tree>, i: nat, flag: bool, n: Tree)
    requires NoDup(rows) && i < |Kids(rows, k)| && Tried(rows, Kids(rows, k), children, i, flag)
    requires n.row == Kids(rows, k)[i] && FlagsTrue(rows, n)
    ensures Tried(rows, Kids(rows, k), children + [n], i + 1, flag)
  {
    hide NoDup, Kids, FlagsTrue;
    KidsDistinct(rows, k);
    var kids := Kids(rows, k);
    forall j | 0 <= j < i ensures HasRow(children + [n], kids[j]) <==> HasRow(children, kids[j]) {
      if HasRow(children, kids[j]) {
        var c :| c in children && c.row == kids[j];
        assert c in children + [n];
      }
    }
    assert n in children + [n];
  }

  lemma TriedAll(rows: seq<Row>, children: seq<Tree>, t: Tree, flag: bool)
    requires NoDup(rows) && Tried(rows, Kids(rows, Id(t.row)), children, |Kids(rows, Id(t.row))|, flag)
    requires t.children == children && (t.cycleDetected <==> flag || exists c :: c in children && c.cycleDetected)
    ensures FlagsTrue(rows, t)
  {
    hide NoDup, Kids;
    KidsList(rows, Id(t.row));
    var kids := Kids(rows, Id(t.row));
    forall c | c in t.children ensures c.row in rows && ChildOf(c.row, t.row) && FlagsTrue(rows, c) {
      var j :| 0 <= j < |kids| && kids[j] == c.row;
    }
    assert (exists r :: r in rows && ChildOf(r, t.row) && !HasRow(children, r))
           <==> (exists j :: 0 <= j < |kids| && !HasRow(children, kids[j])) by {
      if j :| 0 <= j < |kids| && !HasRow(children, kids[j]) {
        assert kids[j] in kids;
      }
      if r :| r in rows && ChildOf(r, t.row) && !HasRow(children, r) {
        var j :| 0 <= j < |kids| && kids[j] == r;
      }
    }
  }

  // ----- name order -----

  /** The trees come in name order, and before the rows of `sorted` from `i` on. */
  ghost predicate Ahead(ts: seq<Tree>, sorted: seq<Row>, i: nat) {
    InOrder(ts) && forall c, j :: c in ts && i <= j < |sorted| ==> NameLeq(c.row.name, sorted[j].name)
  }

  lemma AheadAdd(ts: seq<Tree>, sorted: seq<Row>, i: nat, n: Tree)
    requires Ahead(ts, sorted, i) && i < |sorted| && n.row == sorted[i] && NameSorted(sorted)
    ensures Ahead(ts + [n], sorted, i + 1)
  {
    hide NameLeq;
    NameTotal(n.row.name, n.row.name);
  }

  lemma AheadSkip(ts: seq<Tree>, sorted: seq<Row>, i: nat)
    requires Ahead(ts, sorted, i)
    ensures Ahead(ts, sorted, i + 1)
  {
    hide NameLeq;
  }

  lemma AheadOrder(ts: seq<Tree>, sorted: seq<Row>, i: nat)
    requires Ahead(ts, sorted, i)
    ensures InOrder(ts)
  {
  }

  lemma KidsSorted(rows: seq<Row>, k: Key)
    ensures NameSorted(Kids(rows, k))
  {
    SortSorts(Children(rows, k));
  }

  lemma AheadNone(sorted: seq<Row>)
    ensures Ahead([], sorted, 0)
  {
  }

  ghost function BelowFirst(rows: seq<Row>, k: Key, i: nat): set<Key>
    requires i <= |Kids(rows, k)|
  {
    Subtrees(Ids(rows), Links(rows), KidIds(rows, k), i)
  }

  lemma BelowSplits(rows: seq<Row>, r: Row)
    requires WellFormed(rows) && r in rows
    ensures Below(rows, Id(r)) == {Id(r)} + BelowFirst(rows, Id(r), |Kids(rows, Id(r))|)
  {
    KidsList(rows, Id(r));
    SubtreeSplits(Ids(rows), Links(rows), KidIds(rows, Id(r)), Id(r));
  }

  /** In a well-formed table the next child of `r` is listable. */
  lemma NextKid(rows: seq<Row>, r: Row, i: nat)
    requires WellFormed(rows) && r in rows && !r.isOwner && i < |Kids(rows, Id(r))|
    ensures var kid := Kids(rows, Id(r))[i];
            && kid in rows && !kid.isOwner && ChildOf(kid, r) && KidIds(rows, Id(r))[i] == Id(kid)
            && Id(kid) in Links(rows) && Links(rows)[Id(kid)] == Id(r)
  {
    hide Kids, Links;
    var kid := Kids(rows, Id(r))[i];
    KidsList(rows, Id(r));
    LinksAt(rows, kid);
  }

  /** In a well-formed table nothing below the next child of `r` has been emitted. */
  lemma NextKidFree(rows: seq<Row>, r: Row, i: nat)
    requires WellFormed(rows) && r in rows && !r.isOwner && i < |Kids(rows, Id(r))|
    ensures var kid := Kids(rows, Id(r))[i];
            && kid in rows && !kid.isOwner && ChildOf(kid, r)
            && Id(r) !in Below(rows, Id(kid)) && Below(rows, Id(kid)) <= Below(rows, Id(r))
            && BelowFirst(rows, Id(r), i) !! Below(rows, Id(kid))
            && BelowFirst(rows, Id(r), i + 1) == BelowFirst(rows, Id(r), i) + Below(rows, Id(kid))
            && Id(kid) in Below(rows, Id(kid))
            && Id(kid) in Links(rows) && Links(rows)[Id(kid)] == Id(r)
  {
    hide Kids, Links, NoDup, NoOwnerBelow;
    var kid := Kids(rows, Id(r))[i];
    NextKid(rows, r, i);
    KidsList(rows, Id(r));
    NextChildDisjoint(Ids(rows), Links(rows), KidIds(rows, Id(r)), Id(r), i);
    NotBelowChild(Ids(rows), Links(rows), Id(kid));
    SubtreeOfChild(Ids(rows), Links(rows), Id(kid));
    ReachesSelf(Links(rows), Id(kid));
  }

  // ----- the builder -----

  class Builder {
    const rows: seq<Row>
    var emitted: set<Key>

    constructor (rows: seq<Row>)
      ensures this.rows == rows && emitted == {}
    {
      this.rows := rows;
      emitted := {};
    }

    /** What one call of `node`, or the loop over roots, adds: rows not emitted before, each once. */
    ghost predicate Adds(before: set<Key>, s: seq<Row>)
      reads this
    {
      && Listable(rows, s) && NoDup(s)
      && before !! Ids(s) && emitted == before + Ids(s)
    }

    lemma AddsMore(before: set<Key>, s: seq<Row>, middle: set<Key>, t: seq<Row>)
      requires Listable(rows, s) && NoDup(s) && before !! Ids(s) && middle == before + Ids(s)
      requires Adds(middle, t)
      ensures Adds(before, s + t)
    {
      NoDupConcat(s, t);
      IdsConcat(s, t);
    }

    method Node(r: Row, ancestors: set<Key>) returns (t: Tree)
      requires r in rows && !r.isOwner && Id(r) !in emitted && ancestors <= emitted
      requires WellFormed(rows) ==> emitted !! Below(rows, Id(r))
      modifies this
      ensures t.row == r && Adds(old(emitted), RowsOf(t)) && WellListed(t)
      ensures NoDup(rows) ==> FlagsTrue(rows, t)
      ensures WellFormed(rows) ==> Exact(rows, t) && Ids(RowsOf(t)) == Below(rows, Id(r))
      decreases Ids(rows) - emitted
    {
      hide WellFormed, Below, BelowFirst, NoDup, Listable, Kids, ForestRows, Ids, Exact, WellListed, FlagsTrue, Tried,
           Ahead, InOrder;
      var current := Id(r);
      IdIn(rows, r);
      emitted := emitted + {current};
      var kids := Kids(rows, current);
      var childNodes: seq<Tree> := [];
      var cycleDetected := false;
      var nextAncestors := ancestors + {current};
      ghost var start := emitted;
      StartAdds(start);
      assert Tried(rows, kids, [], 0, false) by { NoneTried(rows, kids); }
      AheadNone(kids);
      KidsSorted(rows, current);
      for i := 0 to |kids|
        invariant Adds(start, ForestRows(childNodes))
        invariant forall c :: c in childNodes ==> WellListed(c)
        invariant WellFormed(rows) ==> !cycleDetected && Ids(ForestRows(childNodes)) == BelowFirst(rows, current, i)
        invariant WellFormed(rows) ==> ExactChildren(rows, kids, childNodes, i)
        invariant NoDup(rows) ==> Tried(rows, kids, childNodes, i, cycleDetected)
        invariant Ahead(childNodes, kids, i)
      {
        var child := kids[i];
        KidInRows(rows, current, child);
        if WellFormed(rows) {
          NextKidFree(rows, r, i);
          assert emitted !! Below(rows, Id(child)) by { hide ExactChildren; }
        }
        if child.isOwner || Id(child) in nextAncestors || Id(child) in emitted {
          if NoDup(rows) { TriedSkip(rows, current, childNodes, i, cycleDetected); }
          AheadSkip(childNodes, kids, i);
          cycleDetected := true;
          continue;
        }
        ghost var middle := emitted;
        var n := Node(child, nextAncestors);
        AddsMore(start, ForestRows(childNodes), middle, RowsOf(n));
        ForestAppend(childNodes, n);
        IdsConcat(ForestRows(childNodes), RowsOf(n));
        if NoDup(rows) { TriedAdd(rows, current, childNodes, i, cycleDetected, n); }
        AheadAdd(childNodes, kids, i, n);
        childNodes := childNodes + [n];
      }
      t := Tree(r, childNodes, Count(childNodes), cycleDetected || exists c :: c in childNodes && c.cycleDetected);
      assert InOrder(childNodes) by { assert Ahead(childNodes, kids, |kids|); AheadOrder(childNodes, kids, |kids|); }
      RootAdds(old(emitted), t);
      if NoDup(rows) { TriedAll(rows, childNodes, t, cycleDetected); }
      if WellFormed(rows) { ExactFromChildren(rows, t); }
    }

    lemma NoneTried(rows: seq<Row>, kids: seq<Row>)
      ensures Tried(rows, kids, [], 0, false)
    {
    }

    lemma StartAdds(start: set<Key>)
      requires emitted == start
      ensures Adds(start, ForestRows([]))
      ensures WellFormed(rows) ==> forall k :: BelowFirst(rows, k, 0) == {}
    {
    }

    lemma RootAdds(before: set<Key>, t: Tree)
      requires t.row in rows && !t.row.isOwner && Id(t.row) !in before
      requires Adds(before + {Id(t.row)}, ForestRows(t.children))
      requires t.descendantCount == |ForestRows(t.children)| && InOrder(t.children)
      requires forall c :: c in t.children ==> WellListed(c)
      ensures Adds(before, RowsOf(t)) && WellListed(t) && NoDup(RowsOf(t))
      ensures Ids(RowsOf(t)) == {Id(t.row)} + Ids(ForestRows(t.children))
    {
      NoDupConcat([t.row], ForestRows(t.children));
      IdsConcat([t.row], ForestRows(t.children));
    }

    /** The two loops over the rows. `all` is the listing before the search term filters its roots: natural
        roots, then those made for cyclic leftovers, both in name order. */
    method Build(term: Option<Row -> bool>)
      returns (roots: seq<Tree>, ghost all: seq<Tree>, ghost natural: nat, ghost picked: seq<int>)
      requires emitted == {}
      modifies this
      ensures forall t :: t in roots
                <==> t in all && (term.None? || exists r :: r in RowsOf(t) && term.value(r))
      ensures Picks(all, term, roots, picked)
      ensures roots == Kept(all, term)
      ensures NoDup(ForestRows(all)) && Listable(rows, ForestRows(all))
      ensures forall r :: r in rows && !r.isOwner ==> Id(r) in Ids(ForestRows(all))
      ensures NoDup(rows) ==> forall r :: r in ForestRows(all) <==> r in rows && !r.isOwner
      ensures forall t :: t in all ==> WellListed(t) && (NoDup(rows) ==> FlagsTrue(rows, t))
      ensures natural <= |all| && InOrder(all[..natural]) && InOrder(all[natural..])
      ensures forall i :: 0 <= i < |all| ==> (IsRoot(rows, all[i].row) <==> i < natural)
      ensures WellFormed(rows) ==> forall t :: t in all ==> Exact(rows, t) && IsRoot(rows, t.row)
    {
      hide WellFormed, Adds, Below, NoDup, Listable, ForestRows, Exact, WellListed, FlagsTrue, IsRoot, SortByName,
           Ids, Kept, Rooted, Ahead, InOrder, Picks;
      roots, all := [], [];
      var sorted := SortByName(rows);
      StartAdds({});
      NothingBuilt(rows, term);
      SortSorts(rows);
      AheadNone(sorted);
      for i := 0 to |sorted|
        invariant Adds({}, ForestRows(all)) && roots == Kept(all, term)
        invariant forall t :: t in all ==> WellListed(t) && (NoDup(rows) ==> FlagsTrue(rows, t))
        invariant WellFormed(rows) ==> Rooted(rows, all, emitted)
        invariant forall j :: 0 <= j < i && IsRoot(rows, sorted[j]) ==> Id(sorted[j]) in emitted
        invariant Ahead(all, sorted, i) && forall j :: 0 <= j < |all| ==> IsRoot(rows, all[j].row)
      {
        var r := sorted[i];
        RootIsListable(rows, r);
        if !r.isOwner && IsRoot(rows, r) && Id(r) !in emitted {
          SortElements(rows, r);
          if WellFormed(rows) { RootFree(rows, all, emitted, r); }
          ghost var n: Tree;
          ghost var before := all;
          roots, all, n := AddRoot(r, roots, all, term);
          AheadAdd(before, sorted, i, n);
        } else {
          AheadSkip(all, sorted, i);
        }
      }
      AheadOrder(all, sorted, |sorted|);
      natural := |all|;
      ghost var first, second := all, [];
      assert first + second == all;
      if WellFormed(rows) { AllEmitted(rows, all, emitted, sorted); }
      for i := 0 to |sorted|
        invariant Adds({}, ForestRows(all)) && roots == Kept(all, term)
        invariant forall t :: t in all ==> WellListed(t) && (NoDup(rows) ==> FlagsTrue(rows, t))
        invariant WellFormed(rows) ==> Rooted(rows, all, emitted)
        invariant WellFormed(rows) ==> forall r :: r in rows && !r.isOwner ==> Id(r) in emitted
        invariant forall j :: 0 <= j < i && !sorted[j].isOwner ==> Id(sorted[j]) in emitted
        invariant forall j :: 0 <= j < |sorted| && IsRoot(rows, sorted[j]) ==> Id(sorted[j]) in emitted
        invariant all == first + second && Ahead(second, sorted, i)
        invariant forall j :: 0 <= j < |second| ==> !IsRoot(rows, second[j].row)
      {
        var r := sorted[i];
        SortElements(rows, r);
        if !r.isOwner && Id(r) !in emitted {
          ghost var n: Tree;
          roots, all, n := AddRoot(r, roots, all, term);
          assert first + second + [n] == first + (second + [n]);
          AheadAdd(second, sorted, i, n);
          second := second + [n];
        } else {
          AheadSkip(second, sorted, i);
        }
      }
      AheadOrder(second, sorted, |sorted|);
      assert all[..natural] == first && all[natural..] == second;
      forall r | r in rows && !r.isOwner ensures Id(r) in emitted {
        SortElements(rows, r);
      }
      AddsAll();
      if NoDup(rows) { AllListed(rows, ForestRows(all)); }
      if WellFormed(rows) { RootedExact(rows, all, emitted); }
      picked := KeptPicks(all, term);
      PicksMember(all, term, roots, picked);
    }

    lemma AddsAll()
      ensures forall s :: Adds({}, s) ==> emitted == Ids(s) && NoDup(s) && Listable(rows, s)
    {
    }

    /** Builds the tree of one root; the search term decides whether it is kept. */
    method AddRoot(r: Row, roots: seq<Tree>, ghost all: seq<Tree>, term: Option<Row -> bool>)
      returns (roots': seq<Tree>, ghost all': seq<Tree>, ghost n: Tree)
      requires r in rows && !r.isOwner && Id(r) !in emitted
      requires Adds({}, ForestRows(all)) && roots == Kept(all, term)
      requires forall t :: t in all ==> WellListed(t) && (NoDup(rows) ==> FlagsTrue(rows, t))
      requires WellFormed(rows) ==> emitted !! Below(rows, Id(r)) && IsRoot(rows, r) && Rooted(rows, all, emitted)
      modifies this
      ensures Adds({}, ForestRows(all')) && roots' == Kept(all', term) && all' == all + [n] && n.row == r
      ensures roots' == if term.None? || exists x :: x in RowsOf(n) && term.value(x) then roots + [n] else roots
      ensures forall t :: t in all' ==> WellListed(t) && (NoDup(rows) ==> FlagsTrue(rows, t))
      ensures old(emitted) <= emitted && Id(r) in emitted
      ensures WellFormed(rows) ==> Rooted(rows, all', emitted)
    {
      hide WellFormed, Below, NoDup, Listable, ForestRows, Exact, WellListed, FlagsTrue, IsRoot, Kept, Rooted,
           Keeps;
      var t := Node(r, {});
      n := t;
      all' := all + [n];
      AddsMore({}, ForestRows(all), old(emitted), RowsOf(n));
      ForestAppend(all, n);
      KeptAppend(all, n, term);
      KeepsIff(n, term);
      assert Id(r) in Ids(RowsOf(n)) by { assert r in RowsOf(n); }
      if WellFormed(rows) { RootedAppend(rows, all, old(emitted), n); }
      roots' := if Keeps(t, term) then roots + [t] else roots;
    }
  }

  // ----- the search term -----

  /** `_matches`: some node of the forest matches. */
  predicate Matches(ts: seq<Tree>, m: Row -> bool) {
    exists t :: t in ts && (m(t.row) || Matches(t.children, m))
  }

  predicate Keeps(t: Tree, term: Option<Row -> bool>) {
    match term case None => true case Some(m) => m(t.row) || Matches(t.children, m)
  }

  function Kept(ts: seq<Tree>, term: Option<Row -> bool>): seq<Tree> {
    if ts == [] then []
    else
      var pre := Kept(ts[..|ts| - 1], term);
      if Keeps(ts[|ts| - 1], term) then pre + [ts[|ts| - 1]] else pre
  }

  lemma KeptAppend(ts: seq<Tree>, t: Tree, term: Option<Row -> bool>)
    ensures Kept(ts + [t], term) == if Keeps(t, term) then Kept(ts, term) + [t] else Kept(ts, term)
  {
    assert (ts + [t])[..|ts|] == ts;
  }

  /** A row of the tree matches. */
  ghost predicate SomeMatch(t: Tree, term: Option<Row -> bool>) {
    term.None? || exists r :: r in RowsOf(t) && term.value(r)
  }

  lemma {:induction false} MatchesIff(ts: seq<Tree>, m: Row -> bool)
    ensures Matches(ts, m) <==> exists r :: r in ForestRows(ts) && m(r)
  {
    if ts != [] {
      var t, rest := ts[0], ts[1..];
      MatchesIff(t.children, m);
      MatchesIff(rest, m);
      assert ts == [t] + rest;
      assert Matches(ts, m) <==> m(t.row) || Matches(t.children, m) || Matches(rest, m);
      assert ForestRows(ts) == [t.row] + ForestRows(t.children) + ForestRows(rest);
    }
  }

  lemma KeepsIff(t: Tree, term: Option<Row -> bool>)
    ensures Keeps(t, term) <==> SomeMatch(t, term)
  {
    if term.Some? { MatchesIff(t.children, term.value); }
  }

  /** `picked` are the positions in `all`, in order, of the trees with a match, and `roots` are those trees. */
  ghost predicate Picks(all: seq<Tree>, term: Option<Row -> bool>, roots: seq<Tree>, picked: seq<int>) {
    && |picked| == |roots|
    && (forall i :: 0 <= i < |picked| ==> 0 <= picked[i] < |all| && roots[i] == all[picked[i]])
    && (forall i, j :: 0 <= i < j < |picked| ==> picked[i] < picked[j])
    && (forall k :: 0 <= k < |all| ==> (k in picked <==> SomeMatch(all[k], term)))
  }

  lemma PicksMore(all: seq<Tree>, term: Option<Row -> bool>, roots: seq<Tree>, picked: seq<int>)
    requires all != [] && Picks(all[..|all| - 1], term, roots, picked)
    ensures if SomeMatch(all[|all| - 1], term) then Picks(all, term, roots + [all[|all| - 1]], picked + [|all| - 1])
            else Picks(all, term, roots, picked)
  {
    hide SomeMatch;
    var k := |all| - 1;
    assert forall i :: 0 <= i < k ==> all[..k][i] == all[i];
    assert forall x :: x in picked + [k] <==> x in picked || x == k;
    assert forall x :: x in picked ==> x < k;
  }

  lemma {:induction false} KeptPicks(all: seq<Tree>, term: Option<Row -> bool>) returns (picked: seq<int>)
    ensures Picks(all, term, Kept(all, term), picked)
  {
    hide Keeps, SomeMatch;
    if all == [] {
      picked := [];
    } else {
      hide Picks;
      var k := |all| - 1;
      picked := KeptPicks(all[..k], term);
      PicksMore(all, term, Kept(all[..k], term), picked);
      KeepsIff(all[k], term);
      if Keeps(all[k], term) { picked := picked + [k]; }
    }
  }

  lemma PicksMember(all: seq<Tree>, term: Option<Row -> bool>, roots: seq<Tree>, picked: seq<int>)
    requires Picks(all, term, roots, picked)
    ensures forall t :: t in roots <==> t in all && SomeMatch(t, term)
  {
    hide SomeMatch;
    forall t | t in all && SomeMatch(t, term) ensures t in roots {
      var k :| 0 <= k < |all| && all[k] == t;
      var i :| 0 <= i < |picked| && picked[i] == k;
      assert roots[i] == t;
    }
    forall t | t in roots ensures t in all && SomeMatch(t, term) {
      var i :| 0 <= i < |roots| && roots[i] == t;
      assert picked[i] in picked;
    }
  }

  // ----- roots of a well-formed table -----

  /** The trees so far hang from true roots, are exact, and together cover what has been emitted. */
  ghost predicate Rooted(rows: seq<Row>, all: seq<Tree>, emitted: set<Key>) {
    && (forall t :: t in all ==>
          t.row in rows && Exact(rows, t) && IsRoot(rows, t.row) && Below(rows, Id(t.row)) <= emitted)
    && (forall e :: e in emitted ==> exists t :: t in all && e in Below(rows, Id(t.row)))
  }

  lemma RootedAppend(rows: seq<Row>, all: seq<Tree>, emitted: set<Key>, n: Tree)
    requires Rooted(rows, all, emitted) && n.row in rows && Exact(rows, n) && IsRoot(rows, n.row)
    ensures Rooted(rows, all + [n], emitted + Below(rows, Id(n.row)))
  {
    hide Below, Exact, IsRoot;
    forall e | e in emitted + Below(rows, Id(n.row)) ensures exists t :: t in all + [n] && e in Below(rows, Id(t.row)) {
      if e in emitted {
        var t :| t in all && e in Below(rows, Id(t.row));
        assert t in all + [n];
      } else {
        assert n in all + [n];
      }
    }
  }

  lemma AllListed(rows: seq<Row>, s: seq<Row>)
    requires NoDup(rows) && Listable(rows, s)
    requires forall r :: r in rows && !r.isOwner ==> Id(r) in Ids(s)
    ensures forall r :: r in s <==> r in rows && !r.isOwner
  {
    forall r | r in rows && !r.isOwner ensures r in s {
      var x :| x in s && Id(x) == Id(r);
      SameRow(rows, r, x);
    }
  }

  lemma NothingBuilt(rows: seq<Row>, term: Option<Row -> bool>)
    ensures Rooted(rows, [], {}) && Kept([], term) == []
  {
  }

  lemma RootIsListable(rows: seq<Row>, r: Row)
    ensures IsRoot(rows, r) ==> !r.isOwner
  {
  }

  lemma RootedExact(rows: seq<Row>, all: seq<Tree>, emitted: set<Key>)
    requires Rooted(rows, all, emitted)
    ensures forall t :: t in all ==> Exact(rows, t) && IsRoot(rows, t.row)
  {
  }

  /** Nothing above an owner is a non-owner. */
  lemma {:induction false} OwnerAbove(rows: seq<Row>, o: Row, x: Row, k: nat)
    requires WellFormed(rows) && o in rows && x in rows && o.isOwner
    requires Up(Links(rows), Id(o), k) == Some(Id(x))
    ensures x.isOwner
    decreases k
  {
    if k == 0 {
      SameRow(rows, o, x);
    } else {
      LinksAt(rows, o);
      var p := Links(rows)[Id(o)];
      if k == 1 {
        assert Up(Links(rows), p, 0) == Some(p);
      } else {
        LinksIn(rows);
        var y :| y in rows && Id(y) == p;
        OwnerAbove(rows, y, x, k - 1);
      }
    }
  }

  lemma RootNotBelow(rows: seq<Row>, r: Row, x: Row)
    requires WellFormed(rows) && r in rows && x in rows && IsRoot(rows, r) && IsRoot(rows, x)
    requires Reaches(Links(rows), Id(r), Id(x))
    ensures r == x
  {
    var up := Links(rows);
    var k: nat :| Up(up, Id(r), k) == Some(Id(x));
    LinksAt(rows, r);
    if k == 0 {
      SameRow(rows, r, x);
    } else {
      var p := up[Id(r)];
      LinksIn(rows);
      assert Up(up, Id(r), k) == Up(up, p, k - 1) && Id(x) in Ids(rows);
      if p in Ids(rows) {
        var y :| y in rows && Id(y) == p;
        var o :| o in rows && o.isOwner && Id(o) == p;
        OwnerAbove(rows, o, x, k - 1);
      }
      assert false;
    }
  }

  /** Nothing below a new root has been emitted. */
  lemma RootFree(rows: seq<Row>, all: seq<Tree>, emitted: set<Key>, r: Row)
    requires WellFormed(rows) && Rooted(rows, all, emitted) && r in rows && IsRoot(rows, r) && Id(r) !in emitted
    ensures emitted !! Below(rows, Id(r))
  {
    hide WellFormed, Exact, IsRoot;
    forall e | e in emitted ensures e !in Below(rows, Id(r)) {
      var t :| t in all && e in Below(rows, Id(t.row));
      if e in Below(rows, Id(r)) {
        Linear(Links(rows), e, Id(r), Id(t.row));
        if Reaches(Links(rows), Id(r), Id(t.row)) {
          RootNotBelow(rows, r, t.row);
        } else {
          RootNotBelow(rows, t.row, r);
        }
        ReachesSelf(Links(rows), Id(r));
      }
    }
  }

  /** Every non-owner lies below some root. */
  lemma {:induction false} ClimbToRoot(rows: seq<Row>, r: Row) returns (x: Row)
    requires WellFormed(rows) && r in rows && !r.isOwner
    ensures x in rows && IsRoot(rows, x) && Reaches(Links(rows), Id(r), Id(x))
    decreases |Ids(rows)| - |Below(rows, Id(r))|
  {
    var up := Links(rows);
    ReachesSelf(up, Id(r));
    if IsRoot(rows, r) {
      x := r;
    } else {
      LinksAt(rows, r);
      var p := up[Id(r)];
      var y :| y in rows && Id(y) == p;
      SubtreeOfChild(Ids(rows), up, Id(r));
      NotBelowChild(Ids(rows), up, Id(r));
      ReachesSelf(up, p);
      SubsetSize(Below(rows, Id(r)), Below(rows, p));
      SubsetSize(Below(rows, p), Ids(rows));
      x := ClimbToRoot(rows, y);
      ReachesParent(up, Id(r), Id(r));
      ReachesTrans(up, Id(r), p, Id(x));
    }
  }

  /** Once every root has been emitted, every non-owner has. */
  lemma AllEmitted(rows: seq<Row>, all: seq<Tree>, emitted: set<Key>, sorted: seq<Row>)
    requires WellFormed(rows) && Rooted(rows, all, emitted) && sorted == SortByName(rows)
    requires forall j :: 0 <= j < |sorted| && IsRoot(rows, sorted[j]) ==> Id(sorted[j]) in emitted
    ensures forall r :: r in rows && !r.isOwner ==> Id(r) in emitted
  {
    hide WellFormed, Exact, IsRoot, SortByName;
    forall r | r in rows && !r.isOwner ensures Id(r) in emitted {
      var x := ClimbToRoot(rows, r);
      SortElements(rows, x);
      var j :| 0 <= j < |sorted| && sorted[j] == x;
      var t :| t in all && Id(x) in Below(rows, Id(t.row));
      ReachesTrans(Links(rows), Id(r), Id(x), Id(t.row));
    }
  }

  lemma IdIn(rows: seq<Row>, r: Row)
    requires r in rows
    ensures Id(r) in Ids(rows)
  {
  }

  lemma KidInRows(rows: seq<Row>, k: Key, kid: Row)
    requires kid in Kids(rows, k)
    ensures kid in rows
  {
    SortElements(Children(rows, k), kid);
  }

  /** The first `i` kids have become exact child nodes, in order. */
  ghost predicate ExactChildren(rows: seq<Row>, kids: seq<Row>, children: seq<Tree>, i: nat) {
    && |children| == i <= |kids|
    && forall j :: 0 <= j < i ==> children[j].row == kids[j] && Exact(rows, children[j])
  }

  lemma ExactFromChildren(rows: seq<Row>, t: Tree)
    requires WellFormed(rows) && t.row in rows
    requires ExactChildren(rows, Kids(rows, Id(t.row)), t.children, |Kids(rows, Id(t.row))|)
    requires t.cycleDetected ==> exists c :: c in t.children && c.cycleDetected
    requires NoDup(RowsOf(t)) && t.descendantCount == |ForestRows(t.children)|
    requires Ids(RowsOf(t)) == {Id(t.row)} + BelowFirst(rows, Id(t.row), |Kids(rows, Id(t.row))|)
    ensures Exact(rows, t) && Ids(RowsOf(t)) == Below(rows, Id(t.row))
  {
    hide Below, BelowFirst, Links, NoOwnerBelow, Kids, NoDup;
    BelowSplits(rows, t.row);
    NoDupSize(RowsOf(t));
    ChildrenAreKids(rows, t);
  }

  lemma ChildrenAreKids(rows: seq<Row>, t: Tree)
    requires NoDup(rows) && ExactChildren(rows, Kids(rows, Id(t.row)), t.children, |Kids(rows, Id(t.row))|)
    ensures forall r :: r in rows && ChildOf(r, t.row) ==> exists c :: c in t.children && c.row == r
    ensures forall c :: c in t.children ==> c.row in rows && ChildOf(c.row, t.row) && Exact(rows, c)
  {
    hide Links, Kids, NoDup, Exact;
    var kids := Kids(rows, Id(t.row));
    KidsList(rows, Id(t.row));
    forall r | r in rows && ChildOf(r, t.row) ensures exists c :: c in t.children && c.row == r {
      var j :| 0 <= j < |kids| && kids[j] == r;
      assert t.children[j] in t.children;
    }
    forall c | c in t.children ensures c.row in rows && ChildOf(c.row, t.row) && Exact(rows, c) {
      var j :| 0 <= j < |t.children| && t.children[j] == c;
      assert kids[j] in kids;
    }
  }
}
