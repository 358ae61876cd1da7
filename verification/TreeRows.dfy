/** Rows and trees of the reseller tree: sorting, flattening, and lists without repeated identities. */
module TreeRows {
  import opened Common
  import opened Ancestry

  /** A present reseller row, uuids lower-cased. */
  datatype Row = Row(panel: int, uuid: string, parent: Option<string>, isOwner: bool, name: string)

  type Key = (int, string)

  function Id(r: Row): Key { (r.panel, r.uuid) }

  function ParentId(r: Row): Option<Key> {
    match r.parent case None => None case Some(p) => Some((r.panel, p))
  }

  datatype Tree = Tree(row: Row, children: seq<Tree>, descendantCount: nat, cycleDetected: bool)

  // ----- flattening -----

  function RowsOf(t: Tree): (s: seq<Row>)
    ensures s != []
  {
    [t.row] + ForestRows(t.children)
  }

  function ForestRows(ts: seq<Tree>): seq<Row> {
    if ts == [] then [] else RowsOf(ts[0]) + ForestRows(ts[1..])
  }

  lemma {:induction false} ForestAppend(ts: seq<Tree>, t: Tree)
    ensures ForestRows(ts + [t]) == ForestRows(ts) + RowsOf(t)
  {
    hide RowsOf;
    if ts == [] {
      assert ts + [t] == [t] && [t][1..] == [];
      assert ForestRows([t]) == RowsOf(t) + [];
    } else {
      ForestAppend(ts[1..], t);
      assert (ts + [t])[1..] == ts[1..] + [t];
    }
  }

  /** `_count` */
  function Count(ts: seq<Tree>): (n: nat)
    ensures n == |ForestRows(ts)|
  {
    if ts == [] then 0 else 1 + Count(ts[0].children) + Count(ts[1..])
  }

  // ----- identities -----

  ghost function Ids(rows: seq<Row>): set<Key> { set r | r in rows :: Id(r) }

  ghost predicate NoDup(rows: seq<Row>) {
    forall i, j :: 0 <= i < j < |rows| ==> rows[i].panel != rows[j].panel || rows[i].uuid != rows[j].uuid
  }

  /** `c` names `r` as its parent. */
  predicate ChildOf(c: Row, r: Row) { c.panel == r.panel && c.parent == Some(r.uuid) }

  lemma IdsConcat(a: seq<Row>, b: seq<Row>)
    ensures Ids(a + b) == Ids(a) + Ids(b)
  {
  }

  lemma NoDupConcat(a: seq<Row>, b: seq<Row>)
    requires NoDup(a) && NoDup(b) && Ids(a) !! Ids(b)
    ensures NoDup(a + b)
  {
    var s := a + b;
    forall i, j | 0 <= i < j < |s| ensures Id(s[i]) != Id(s[j]) {
      if i < |a| { assert Id(a[i]) in Ids(a); }
      if j >= |a| { assert Id(b[j - |a|]) in Ids(b); }
    }
  }

  lemma FirstNotInRest(rows: seq<Row>)
    requires rows != [] && NoDup(rows)
    ensures Id(rows[0]) !in Ids(rows[1..]) && NoDup(rows[1..])
  {
    forall r | r in rows[1..] ensures Id(r) != Id(rows[0]) {
      var j :| 0 <= j < |rows[1..]| && rows[1..][j] == r;
      assert rows[j + 1] == r;
    }
  }

  lemma {:induction false} NoDupSize(rows: seq<Row>)
    requires NoDup(rows)
    ensures |Ids(rows)| == |rows|
  {
    hide Ids, NoDup;
    if rows == [] {
      IdsNone();
    } else {
      var rest := rows[1..];
      FirstNotInRest(rows);
      NoDupSize(rest);
      assert rows == [rows[0]] + rest;
      IdsConcat([rows[0]], rest);
      IdsOne(rows[0]);
    }
  }

  lemma IdsNone()
    ensures Ids([]) == {}
  {
  }

  lemma IdsOne(r: Row)
    ensures Ids([r]) == {Id(r)}
  {
  }

  // ----- sorted(rows, key=name) -----

  /** Lexicographic order of code points. */
  predicate NameLeq(a: string, b: string) {
    if a == [] then true
    else if b == [] then false
    else if a[0] == b[0] then NameLeq(a[1..], b[1..])
    else a[0] < b[0]
  }

  lemma SameHead(a: string, b: string, k: nat)
    requires 0 < k <= |a| && k <= |b| && a[..k] == b[..k]
    ensures a[0] == b[0]
  {
    assert a[..k][0] == a[0] && b[..k][0] == b[0];
  }

  /** The order of Python's strings: a proper prefix comes first, else the first difference decides. */
  lemma {:induction false} NameLeqIff(a: string, b: string)
    ensures NameLeq(a, b)
            <==> (|a| <= |b| && b[..|a|] == a)
                 || exists k: nat :: k < |a| && k < |b| && a[..k] == b[..k] && a[k] < b[k]
  {
    if a != [] && b != [] {
      if a[0] == b[0] {
        NameLeqIff(a[1..], b[1..]);
        assert a == [a[0]] + a[1..] && b == [b[0]] + b[1..];
        if k: nat :| k < |a| && k < |b| && a[..k] == b[..k] && a[k] < b[k] {
          assert a[1..][..k - 1] == a[..k][1..] && b[1..][..k - 1] == b[..k][1..];
          assert a[1..][k - 1] < b[1..][k - 1];
        }
        if k: nat :| k < |a[1..]| && k < |b[1..]| && a[1..][..k] == b[1..][..k] && a[1..][k] < b[1..][k] {
          assert a[..k + 1] == [a[0]] + a[1..][..k] && b[..k + 1] == [b[0]] + b[1..][..k];
          assert a[k + 1] < b[k + 1];
        }
      } else {
        assert a[..0] == b[..0];
        if |a| <= |b| { assert b[..|a|][0] == b[0]; }
        forall k: nat | k < |a| && k < |b| && a[..k] == b[..k] ensures k == 0 {
          if k > 0 { SameHead(a, b, k); }
        }
      }
    }
  }

  function Insert(r: Row, rows: seq<Row>): seq<Row> {
    if rows == [] || NameLeq(r.name, rows[0].name) then [r] + rows
    else [rows[0]] + Insert(r, rows[1..])
  }

  function SortByName(rows: seq<Row>): seq<Row> {
    if rows == [] then [] else Insert(rows[0], SortByName(rows[1..]))
  }

  ghost predicate NameSorted(rows: seq<Row>) {
    forall i, j :: 0 <= i < j < |rows| ==> NameLeq(rows[i].name, rows[j].name)
  }

  lemma {:induction false} NameTotal(a: string, b: string)
    ensures NameLeq(a, b) || NameLeq(b, a)
  {
    if a != [] && b != [] && a[0] == b[0] { NameTotal(a[1..], b[1..]); }
  }

  lemma {:induction false} NameTrans(a: string, b: string, c: string)
    requires NameLeq(a, b) && NameLeq(b, c)
    ensures NameLeq(a, c)
  {
    if a != [] && a[0] == b[0] && b[0] == c[0] { NameTrans(a[1..], b[1..], c[1..]); }
  }

  lemma {:induction false} InsertElements(r: Row, rows: seq<Row>)
    ensures multiset(Insert(r, rows)) == multiset{r} + multiset(rows)
  {
    if rows != [] {
      InsertElements(r, rows[1..]);
      assert rows == [rows[0]] + rows[1..];
    }
  }

  ghost predicate Leads(r: Row, rows: seq<Row>) {
    forall x :: x in rows ==> NameLeq(r.name, x.name)
  }

  lemma {:induction false} InsertSorted(r: Row, rows: seq<Row>)
    requires NameSorted(rows)
    ensures NameSorted(Insert(r, rows))
  {
    hide NameLeq, NameSorted;
    if rows == [] {
      SortedCons(r, []);
    } else {
      SortedHead(rows);
      if NameLeq(r.name, rows[0].name) {
        forall x | x in rows[1..] ensures NameLeq(r.name, x.name) {
          NameTrans(r.name, rows[0].name, x.name);
        }
        assert Leads(r, rows);
        SortedCons(r, rows);
      } else {
        var rest := Insert(r, rows[1..]);
        InsertSorted(r, rows[1..]);
        InsertElements(r, rows[1..]);
        NameTotal(r.name, rows[0].name);
        forall x | x in rest ensures NameLeq(rows[0].name, x.name) {
          assert x in multiset(rest);
          assert x == r || x in rows[1..];
        }
        SortedCons(rows[0], rest);
      }
    }
  }

  lemma SortedHead(rows: seq<Row>)
    requires rows != [] && NameSorted(rows)
    ensures NameSorted(rows[1..]) && Leads(rows[0], rows[1..])
  {
  }

  lemma SortedCons(r: Row, rows: seq<Row>)
    requires NameSorted(rows) && Leads(r, rows)
    ensures NameSorted([r] + rows)
  {
  }

  /** Sorting permutes the rows into name order. */
  lemma {:induction false} SortSorts(rows: seq<Row>)
    ensures multiset(SortByName(rows)) == multiset(rows) && NameSorted(SortByName(rows))
  {
    if rows != [] {
      SortSorts(rows[1..]);
      InsertElements(rows[0], SortByName(rows[1..]));
      InsertSorted(rows[0], SortByName(rows[1..]));
      assert rows == [rows[0]] + rows[1..];
    }
  }

  /** Rows of one name keep their order. */
  lemma {:induction false} SortStable(rows: seq<Row>, name: string)
    ensures Filter(SortByName(rows), (r: Row) => r.name == name) == Filter(rows, (r: Row) => r.name == name)
  {
    if rows != [] {
      SortStable(rows[1..], name);
      InsertStable(rows[0], SortByName(rows[1..]), name);
    }
  }

  lemma {:induction false} InsertStable(r: Row, rows: seq<Row>, name: string)
    ensures var p := (x: Row) => x.name == name;
            Filter(Insert(r, rows), p) == (if r.name == name then [r] else []) + Filter(rows, p)
  {
    NameTotal(r.name, r.name);
    if !(rows == [] || NameLeq(r.name, rows[0].name)) { InsertStable(r, rows[1..], name); }
  }

  lemma {:induction false} InsertNoDup(r: Row, rows: seq<Row>)
    requires NoDup(rows) && Id(r) !in Ids(rows)
    ensures NoDup(Insert(r, rows)) && Ids(Insert(r, rows)) == {Id(r)} + Ids(rows)
  {
    if rows == [] || NameLeq(r.name, rows[0].name) {
      IdsConcat([r], rows);
      NoDupConcat([r], rows);
    } else {
      var x, rest := [rows[0]], rows[1..];
      assert rows == x + rest;
      IdsConcat(x, rest);
      FirstNotInRest(rows);
      InsertNoDup(r, rest);
      IdsConcat(x, Insert(r, rest));
      NoDupConcat(x, Insert(r, rest));
    }
  }

  lemma {:induction false} SortNoDup(rows: seq<Row>)
    requires NoDup(rows)
    ensures NoDup(SortByName(rows)) && Ids(SortByName(rows)) == Ids(rows)
  {
    if rows != [] {
      FirstNotInRest(rows);
      SortNoDup(rows[1..]);
      InsertNoDup(rows[0], SortByName(rows[1..]));
      assert rows == [rows[0]] + rows[1..];
      IdsConcat([rows[0]], rows[1..]);
    }
  }

  lemma SortElements(rows: seq<Row>, r: Row)
    ensures r in SortByName(rows) <==> r in rows
  {
    SortSorts(rows);
    assert r in multiset(rows) <==> r in rows;
    assert r in multiset(SortByName(rows)) <==> r in SortByName(rows);
  }

  // ----- links -----

  /** `children.get(k, [])` */
  function Children(rows: seq<Row>, k: Key): (cs: seq<Row>)
    ensures forall c :: c in cs <==> c in rows && ParentId(c) == Some(k)
  {
    Filter(rows, (c: Row) => ParentId(c) == Some(k))
  }

  lemma {:induction false} ChildrenNoDup(rows: seq<Row>, k: Key)
    requires NoDup(rows)
    ensures NoDup(Children(rows, k)) && Ids(Children(rows, k)) <= Ids(rows)
  {
    if rows != [] {
      FirstNotInRest(rows);
      ChildrenNoDup(rows[1..], k);
      assert rows == [rows[0]] + rows[1..];
      IdsConcat([rows[0]], rows[1..]);
      NoDupConcat([rows[0]], Children(rows[1..], k));
    }
  }

  ghost function Links(rows: seq<Row>): map<Key, Key> {
    if rows == [] then map[]
    else
      var m := Links(rows[1..]);
      if rows[0].parent.Some? then m[Id(rows[0]) := ParentId(rows[0]).value] else m
  }

  lemma {:induction false} LinksIn(rows: seq<Row>)
    ensures Links(rows).Keys <= Ids(rows)
  {
    if rows != [] { LinksIn(rows[1..]); }
  }

  lemma {:induction false} LinksAt(rows: seq<Row>, r: Row)
    requires NoDup(rows) && r in rows
    ensures if Id(r) in Links(rows) then ParentId(r) == Some(Links(rows)[Id(r)]) else ParentId(r) == None
  {
    FirstNotInRest(rows);
    LinksIn(rows[1..]);
    if r in rows[1..] {
      LinksAt(rows[1..], r);
      assert Id(r) in Ids(rows[1..]);
    }
  }

  lemma SameRow(rows: seq<Row>, r: Row, s: Row)
    requires NoDup(rows) && r in rows && s in rows && Id(r) == Id(s)
    ensures r == s
  {
    var i :| 0 <= i < |rows| && rows[i] == r;
    var j :| 0 <= j < |rows| && rows[j] == s;
  }
}
