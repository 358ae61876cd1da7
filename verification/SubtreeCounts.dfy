/** `_subtree_counts`: memoised sums over an admin's whole subtree. */
module SubtreeCounts {
  import opened Common
  import opened Ancestry

  /** A reseller of one panel, uuids lower-cased. */
  datatype Node = Node(uuid: string, parent: Option<string>)

  predicate Distinct(nodes: seq<Node>) {
    forall i, j :: 0 <= i < j < |nodes| ==> nodes[i].uuid != nodes[j].uuid
  }

  function Uuids(nodes: seq<Node>): set<string> {
    set i | 0 <= i < |nodes| :: nodes[i].uuid
  }

  /** Each uuid's parent uuid. */
  function Links(nodes: seq<Node>): (m: map<string, string>)
    ensures m.Keys <= Uuids(nodes)
  {
    if nodes == [] then map[]
    else
      var n := nodes[|nodes| - 1];
      var m := Links(nodes[..|nodes| - 1]);
      assert Uuids(nodes[..|nodes| - 1]) <= Uuids(nodes);
      if n.parent.Some? then m[n.uuid := n.parent.value] else m
  }

  /** `build_children_map(nodes).get(u, [])` */
  function Children(nodes: seq<Node>, u: string): (cs: seq<Node>)
    ensures forall c :: c in cs <==> c in nodes && c.parent == Some(u)
  {
    Filter(nodes, (c: Node) => c.parent == Some(u))
  }

  function Own(own: map<string, int>, u: string): int { if u in own then own[u] else 0 }

  /** The sum of own counts over the nodes whose uuid is in `s`, each node once. */
  function SumIn(nodes: seq<Node>, own: map<string, int>, s: set<string>): int {
    if nodes == [] then 0
    else
      var n := nodes[|nodes| - 1];
      SumIn(nodes[..|nodes| - 1], own, s) + (if n.uuid in s then Own(own, n.uuid) else 0)
  }

  ghost predicate Forest(nodes: seq<Node>) {
    Distinct(nodes) && Acyclic(Links(nodes))
  }

  ghost function Below(nodes: seq<Node>, u: string): set<string> {
    Subtree(Uuids(nodes), Links(nodes), u)
  }

  // ----- sums -----

  lemma {:induction false} SumUnion(nodes: seq<Node>, own: map<string, int>, a: set<string>, b: set<string>)
    requires a !! b
    ensures SumIn(nodes, own, a + b) == SumIn(nodes, own, a) + SumIn(nodes, own, b)
  {
    if nodes != [] { SumUnion(nodes[..|nodes| - 1], own, a, b); }
  }

  lemma {:induction false} SumOutside(nodes: seq<Node>, own: map<string, int>, s: set<string>)
    requires forall i :: 0 <= i < |nodes| ==> nodes[i].uuid !in s
    ensures SumIn(nodes, own, s) == 0
  {
    if nodes != [] { SumOutside(nodes[..|nodes| - 1], own, s); }
  }

  lemma {:induction false} SumOne(nodes: seq<Node>, own: map<string, int>, u: string)
    requires Distinct(nodes) && u in Uuids(nodes)
    ensures SumIn(nodes, own, {u}) == Own(own, u)
  {
    var pre := nodes[..|nodes| - 1];
    if nodes[|nodes| - 1].uuid == u {
      SumOutside(pre, own, {u});
    } else {
      var i :| 0 <= i < |nodes| && nodes[i].uuid == u;
      assert pre[i].uuid == u;
      SumOne(pre, own, u);
    }
  }

  // ----- the links of distinct nodes -----

  lemma {:induction false} LinksAt(nodes: seq<Node>, n: Node)
    requires Distinct(nodes) && n in nodes
    ensures n.uuid in Links(nodes) <==> n.parent.Some?
    ensures n.parent.Some? ==> Links(nodes)[n.uuid] == n.parent.value
  {
    var pre := nodes[..|nodes| - 1];
    var last := nodes[|nodes| - 1];
    if n == last {
      assert n.uuid !in Uuids(pre);
    } else {
      assert n in pre;
      LinksAt(pre, n);
      assert n.uuid != last.uuid;
    }
  }

  lemma {:induction false} LinkNode(nodes: seq<Node>, c: string) returns (n: Node)
    requires Distinct(nodes) && c in Links(nodes)
    ensures n in nodes && n == Node(c, Some(Links(nodes)[c]))
  {
    var i :| 0 <= i < |nodes| && nodes[i].uuid == c;
    n := nodes[i];
    LinksAt(nodes, n);
  }

  lemma {:induction false} ChildrenDistinct(nodes: seq<Node>, u: string)
    requires Distinct(nodes)
    ensures Distinct(Children(nodes, u))
  {
    if nodes != [] {
      var rest := nodes[1..];
      ChildrenDistinct(rest, u);
      forall c | c in Children(rest, u) ensures c.uuid != nodes[0].uuid {
        assert c in rest;
      }
    }
  }

  lemma NodeUuid(nodes: seq<Node>, n: Node)
    requires n in nodes
    ensures n.uuid in Uuids(nodes)
  {
    var i :| 0 <= i < |nodes| && nodes[i] == n;
  }

  ghost function ChildUuids(nodes: seq<Node>, u: string): seq<string> {
    var cs := Children(nodes, u);
    seq(|cs|, i requires 0 <= i < |cs| => cs[i].uuid)
  }

  lemma ChildUuidsList(nodes: seq<Node>, u: string)
    requires Distinct(nodes)
    ensures ListsChildren(Links(nodes), ChildUuids(nodes, u), u)
  {
    var up, cs, ids := Links(nodes), Children(nodes, u), ChildUuids(nodes, u);
    ChildrenDistinct(nodes, u);
    forall c ensures c in ids <==> c in up && up[c] == u {
      if c in ids {
        var i :| 0 <= i < |ids| && ids[i] == c;
        LinksAt(nodes, cs[i]);
      }
      if c in up && up[c] == u {
        var n := LinkNode(nodes, c);
        var i :| 0 <= i < |cs| && cs[i] == n;
        assert ids[i] == c;
      }
    }
  }

  /** Everything below one of the first `i` children of `u`. */
  ghost function BelowFirst(nodes: seq<Node>, u: string, i: nat): set<string>
    requires i <= |Children(nodes, u)|
  {
    Subtrees(Uuids(nodes), Links(nodes), ChildUuids(nodes, u), i)
  }

  lemma SumChildren(nodes: seq<Node>, own: map<string, int>, u: string, i: nat)
    requires Forest(nodes) && i < |Children(nodes, u)|
    ensures SumIn(nodes, own, BelowFirst(nodes, u, i + 1))
            == SumIn(nodes, own, BelowFirst(nodes, u, i)) + SumIn(nodes, own, Below(nodes, Children(nodes, u)[i].uuid))
  {
    ChildUuidsList(nodes, u);
    NextChildDisjoint(Uuids(nodes), Links(nodes), ChildUuids(nodes, u), u, i);
    SumUnion(nodes, own, BelowFirst(nodes, u, i), Below(nodes, Children(nodes, u)[i].uuid));
  }

  lemma SumNone(nodes: seq<Node>, own: map<string, int>, u: string)
    ensures SumIn(nodes, own, BelowFirst(nodes, u, 0)) == 0
  {
    SumOutside(nodes, own, {});
  }

  /** The recursion the search relies on: own count plus the sums of the children's subtrees. */
  lemma SumBelow(nodes: seq<Node>, own: map<string, int>, u: string)
    requires Forest(nodes) && u in Uuids(nodes)
    ensures SumIn(nodes, own, Below(nodes, u))
            == Own(own, u) + SumIn(nodes, own, BelowFirst(nodes, u, |Children(nodes, u)|))
  {
    ChildUuidsList(nodes, u);
    SubtreeSplits(Uuids(nodes), Links(nodes), ChildUuids(nodes, u), u);
    SumOne(nodes, own, u);
    SumUnion(nodes, own, {u}, BelowFirst(nodes, u, |Children(nodes, u)|));
  }

  // ----- the search as a function -----

  /** One count of `dfs(u)` and the memo after it. */
  function Search(nodes: seq<Node>, own: map<string, int>, memo: map<string, int>, visiting: set<string>, u: string)
    : (r: (int, map<string, int>))
    requires u in Uuids(nodes)
    ensures memo.Keys <= r.1.Keys && (u in r.1 || u in visiting)
    ensures memo.Keys <= Uuids(nodes) ==> r.1.Keys <= Uuids(nodes)
    decreases Uuids(nodes) - visiting, 0
  {
    if u in memo then (memo[u], memo)
    else if u in visiting then (Own(own, u), memo)
    else
      var (t, m) := SearchAll(nodes, own, memo, visiting + {u}, Children(nodes, u));
      (Own(own, u) + t, m[u := Own(own, u) + t])
  }

  /** The loop over children: the sum of their searches. */
  function SearchAll(nodes: seq<Node>, own: map<string, int>, memo: map<string, int>, visiting: set<string>,
                     cs: seq<Node>)
    : (r: (int, map<string, int>))
    requires forall c :: c in cs ==> c in nodes
    ensures memo.Keys <= r.1.Keys
    ensures memo.Keys <= Uuids(nodes) ==> r.1.Keys <= Uuids(nodes)
    decreases Uuids(nodes) - visiting, |cs| + 1
  {
    if cs == [] then (0, memo)
    else
      var (t, m) := SearchAll(nodes, own, memo, visiting, cs[..|cs| - 1]);
      NodeUuid(nodes, cs[|cs| - 1]);
      var (ct, m') := Search(nodes, own, m, visiting, cs[|cs| - 1].uuid);
      (t + ct, m')
  }

  lemma SearchCases(nodes: seq<Node>, own: map<string, int>, memo: map<string, int>, visiting: set<string>, u: string)
    requires u in Uuids(nodes)
    ensures u in memo ==> Search(nodes, own, memo, visiting, u) == (memo[u], memo)
    ensures u !in memo && u in visiting ==> Search(nodes, own, memo, visiting, u) == (Own(own, u), memo)
    ensures u !in memo && u !in visiting
            ==> var (t, m) := SearchAll(nodes, own, memo, visiting + {u}, Children(nodes, u));
                Search(nodes, own, memo, visiting, u) == (Own(own, u) + t, m[u := Own(own, u) + t])
  {
    hide Uuids, Own, Children;
  }

  lemma SearchNone(nodes: seq<Node>, own: map<string, int>, memo: map<string, int>, visiting: set<string>)
    ensures SearchAll(nodes, own, memo, visiting, []) == (0, memo)
  {
  }

  lemma SearchNext(nodes: seq<Node>, own: map<string, int>, memo: map<string, int>, visiting: set<string>,
                   cs: seq<Node>, i: nat)
    requires i < |cs| && forall c :: c in cs ==> c in nodes
    ensures cs[i].uuid in Uuids(nodes)
    ensures var (t, m) := SearchAll(nodes, own, memo, visiting, cs[..i]);
            var (ct, m') := Search(nodes, own, m, visiting, cs[i].uuid);
            SearchAll(nodes, own, memo, visiting, cs[..i + 1]) == (t + ct, m')
  {
    hide Uuids, Own, Search;
    NodeUuid(nodes, cs[i]);
    assert cs[..i + 1][..i] == cs[..i];
  }

  /** The memo after searching from the first `i` nodes. */
  function CountFirst(nodes: seq<Node>, own: map<string, int>, i: nat): (m: map<string, int>)
    requires i <= |nodes|
    ensures m.Keys <= Uuids(nodes) && forall j :: 0 <= j < i ==> nodes[j].uuid in m
  {
    if i == 0 then map[] else Search(nodes, own, CountFirst(nodes, own, i - 1), {}, nodes[i - 1].uuid).1
  }

  /** Every memo entry is the true sum. */
  ghost predicate MemoTrue(nodes: seq<Node>, own: map<string, int>, memo: map<string, int>) {
    forall u :: u in memo ==> memo[u] == SumIn(nodes, own, Below(nodes, u))
  }

  /** The nodes being visited are proper ancestors of `u`. */
  ghost predicate VisitingAbove(nodes: seq<Node>, visiting: set<string>, u: string) {
    forall v :: v in visiting ==> v != u && Reaches(Links(nodes), u, v)
  }

  lemma VisitChild(nodes: seq<Node>, above: set<string>, u: string, n: Node)
    requires Forest(nodes) && n in Children(nodes, u) && VisitingAbove(nodes, above, u)
    ensures VisitingAbove(nodes, above + {u}, n.uuid)
  {
    var c := n.uuid;
    LinksAt(nodes, n);
    ReachesSelf(Links(nodes), u);
    forall v | v in above + {u} ensures v != c && Reaches(Links(nodes), c, v) {
      ChildNotAbove(Links(nodes), c, v);
    }
  }

  /** With acyclic links the search returns the sum over the whole subtree, each member once. */
  lemma {:induction false} SearchTrue(nodes: seq<Node>, own: map<string, int>, memo: map<string, int>,
                                      visiting: set<string>, u: string)
    requires Forest(nodes) && u in Uuids(nodes)
    requires MemoTrue(nodes, own, memo) && VisitingAbove(nodes, visiting, u)
    ensures var (t, m) := Search(nodes, own, memo, visiting, u);
            t == SumIn(nodes, own, Below(nodes, u)) && MemoTrue(nodes, own, m)
    decreases Uuids(nodes) - visiting, 0
  {
    hide Forest, Below, BelowFirst, SumIn, Uuids;
    if u !in memo {
      var cs := Children(nodes, u);
      SearchAllTrue(nodes, own, memo, visiting, u, |cs|);
      assert cs[..|cs|] == cs;
      SumBelow(nodes, own, u);
    }
  }

  lemma {:induction false} SearchAllTrue(nodes: seq<Node>, own: map<string, int>, memo: map<string, int>,
                                         visiting: set<string>,
                                         u: string, i: nat)
    requires Forest(nodes) && u in Uuids(nodes) && u !in visiting && i <= |Children(nodes, u)|
    requires MemoTrue(nodes, own, memo) && VisitingAbove(nodes, visiting, u)
    ensures var (t, m) := SearchAll(nodes, own, memo, visiting + {u}, Children(nodes, u)[..i]);
            t == SumIn(nodes, own, BelowFirst(nodes, u, i)) && MemoTrue(nodes, own, m)
    decreases Uuids(nodes) - (visiting + {u}), i + 1
  {
    hide Forest, Below, BelowFirst, SumIn, Uuids, MemoTrue, VisitingAbove;
    var cs := Children(nodes, u);
    if i == 0 {
      SumNone(nodes, own, u);
    } else {
      SearchAllTrue(nodes, own, memo, visiting, u, i - 1);
      assert cs[..i][..i - 1] == cs[..i - 1];
      var m := SearchAll(nodes, own, memo, visiting + {u}, cs[..i - 1]).1;
      VisitChild(nodes, visiting, u, cs[i - 1]);
      NodeUuid(nodes, cs[i - 1]);
      SearchTrue(nodes, own, m, visiting + {u}, cs[i - 1].uuid);
      SumChildren(nodes, own, u, i - 1);
    }
  }

  lemma {:induction false} CountTrue(nodes: seq<Node>, own: map<string, int>, i: nat)
    requires Forest(nodes) && i <= |nodes|
    ensures MemoTrue(nodes, own, CountFirst(nodes, own, i))
  {
    hide Forest, MemoTrue, Search;
    if i == 0 {
      assert MemoTrue(nodes, own, map[]) by { EmptyTrue(nodes, own); }
    } else {
      CountTrue(nodes, own, i - 1);
      SearchTrue(nodes, own, CountFirst(nodes, own, i - 1), {}, nodes[i - 1].uuid);
    }
  }

  lemma EmptyTrue(nodes: seq<Node>, own: map<string, int>)
    ensures MemoTrue(nodes, own, map[])
  {
  }

  /** In a forest, whatever the node order, every uuid gets the sum over its subtree. */
  lemma CountsTrue(nodes: seq<Node>, own: map<string, int>, u: string)
    requires Forest(nodes) && u in Uuids(nodes)
    ensures u in CountFirst(nodes, own, |nodes|)
    ensures CountFirst(nodes, own, |nodes|)[u] == SumIn(nodes, own, Below(nodes, u))
  {
    CountTrue(nodes, own, |nodes|);
  }

  // ----- cyclic links -----

  /** Two nodes that are each other's parent. */
  const LOOP: seq<Node> := [Node("a", Some("b")), Node("b", Some("a"))]

  lemma ChildrenStep(nodes: seq<Node>, u: string)
    requires nodes != []
    ensures Children(nodes, u)
         == (if nodes[0].parent == Some(u) then [nodes[0]] else []) + Children(nodes[1..], u)
    ensures Children([], u) == []
  {
  }

  lemma LoopChildren()
    ensures Children(LOOP, "a") == [LOOP[1]] && Children(LOOP, "b") == [LOOP[0]]
    ensures "a" in Uuids(LOOP) && "b" in Uuids(LOOP)
  {
    var last := LOOP[1..];
    assert last == [LOOP[1]] && last[1..] == [];
    ChildrenStep(LOOP, "a");
    ChildrenStep(LOOP, "b");
    ChildrenStep(last, "a");
    ChildrenStep(last, "b");
    NodeUuid(LOOP, LOOP[0]);
    NodeUuid(LOOP, LOOP[1]);
  }

  /** Searching from a node with a single child. */
  lemma SearchStep(nodes: seq<Node>, own: map<string, int>, visiting: set<string>, u: string, n: Node)
    requires u in Uuids(nodes) && u !in visiting && Children(nodes, u) == [n]
    ensures n.uuid in Uuids(nodes)
    ensures var (t, m) := Search(nodes, own, map[], visiting + {u}, n.uuid);
            Search(nodes, own, map[], visiting, u) == (Own(own, u) + t, m[u := Own(own, u) + t])
  {
    hide Uuids, Children;
    assert n in Children(nodes, u);
    SearchCases(nodes, own, map[], visiting, u);
    SearchNone(nodes, own, map[], visiting + {u});
    SearchNext(nodes, own, map[], visiting + {u}, [n], 0);
    assert [n][..0] == [] && [n][..1] == [n];
  }

  /** On a two-node cycle the total of the node searched first counts its own users twice. */
  lemma CycleCountsTwice(own: map<string, int>)
    ensures var m := CountFirst(LOOP, own, 2);
            "a" in m && "b" in m && m["a"] == 2 * Own(own, "a") + Own(own, "b")
                && m["b"] == Own(own, "a") + Own(own, "b")
  {
    hide Uuids, Own, Children, SearchAll;
    LoopChildren();
    SearchStep(LOOP, own, {}, "a", LOOP[1]);
    SearchStep(LOOP, own, {} + {"a"}, "b", LOOP[0]);
    var x, y := Own(own, "a"), Own(own, "b");
    assert Search(LOOP, own, map[], {} + {"a"} + {"b"}, "a") == (x, map[]);
    hide Search;
    assert CountFirst(LOOP, own, 0) == map[];
    var m := CountFirst(LOOP, own, 1);
    assert m == map["b" := y + x]["a" := x + (y + x)];
    SecondFound(own, m);
  }

  lemma SecondFound(own: map<string, int>, m: map<string, int>)
    requires m == CountFirst(LOOP, own, 1) && "b" in m
    ensures CountFirst(LOOP, own, 2) == m
  {
    hide Uuids, Own, Children, SearchAll;
    assert LOOP[1].uuid == "b";
  }

  // ----- the memoised search, changing its memos in place -----

  class Counter {
    const nodes: seq<Node>
    const ownTotal: map<string, int>
    const ownActive: map<string, int>
    var memoT: map<string, int>
    var memoA: map<string, int>
    var visiting: set<string>

    constructor (nodes: seq<Node>, ownTotal: map<string, int>, ownActive: map<string, int>)
      ensures this.nodes == nodes && this.ownTotal == ownTotal && this.ownActive == ownActive
      ensures memoT == map[] && memoA == map[] && visiting == {}
    {
      this.nodes, this.ownTotal, this.ownActive := nodes, ownTotal, ownActive;
      memoT, memoA, visiting := map[], map[], {};
    }

    method Dfs(u: string) returns (t: int, a: int)
      requires memoT.Keys == memoA.Keys && u in Uuids(nodes)
      modifies this
      ensures memoT.Keys == memoA.Keys && visiting == old(visiting)
      ensures (t, memoT) == Search(nodes, ownTotal, old(memoT), visiting, u)
      ensures (a, memoA) == Search(nodes, ownActive, old(memoA), visiting, u)
      decreases Uuids(nodes) - visiting, 0
    {
      hide Uuids, Own, Search, SearchAll;
      SearchCases(nodes, ownTotal, memoT, visiting, u);
      SearchCases(nodes, ownActive, memoA, visiting, u);
      if u in memoT { return memoT[u], memoA[u]; }
      if u in visiting { return Own(ownTotal, u), Own(ownActive, u); }
      visiting := visiting + {u};
      t, a := DfsChildren(Children(nodes, u));
      t, a := Own(ownTotal, u) + t, Own(ownActive, u) + a;
      visiting := visiting - {u};
      memoT := memoT[u := t];
      memoA := memoA[u := a];
    }

    /** The loop over the children, summing their counts. */
    method DfsChildren(cs: seq<Node>) returns (t: int, a: int)
      requires memoT.Keys == memoA.Keys && forall c :: c in cs ==> c in nodes
      modifies this
      ensures memoT.Keys == memoA.Keys && visiting == old(visiting)
      ensures (t, memoT) == SearchAll(nodes, ownTotal, old(memoT), visiting, cs)
      ensures (a, memoA) == SearchAll(nodes, ownActive, old(memoA), visiting, cs)
      decreases Uuids(nodes) - visiting, 1
    {
      hide Uuids, Search, SearchAll;
      t, a := 0, 0;
      SearchNone(nodes, ownTotal, memoT, visiting);
      SearchNone(nodes, ownActive, memoA, visiting);
      for i := 0 to |cs|
        invariant memoT.Keys == memoA.Keys && visiting == old(visiting)
        invariant (t, memoT) == SearchAll(nodes, ownTotal, old(memoT), visiting, cs[..i])
        invariant (a, memoA) == SearchAll(nodes, ownActive, old(memoA), visiting, cs[..i])
      {
        SearchNext(nodes, ownTotal, old(memoT), visiting, cs, i);
        SearchNext(nodes, ownActive, old(memoA), visiting, cs, i);
        var ct, ca := Dfs(cs[i].uuid);
        t, a := t + ct, a + ca;
      }
      assert cs[..|cs|] == cs;
    }

    /** Terminates whatever the links are; in a forest every uuid gets the sums over its subtree. */
    method Count()
      requires memoT == map[] && memoA == map[] && visiting == {}
      modifies this
      ensures memoT == CountFirst(nodes, ownTotal, |nodes|) && memoA == CountFirst(nodes, ownActive, |nodes|)
      ensures memoT.Keys == memoA.Keys == Uuids(nodes)
      ensures Forest(nodes) ==> MemoTrue(nodes, ownTotal, memoT) && MemoTrue(nodes, ownActive, memoA)
    {
      hide Forest, MemoTrue, Search;
      for i := 0 to |nodes|
        invariant memoT.Keys == memoA.Keys && visiting == {}
        invariant memoT == CountFirst(nodes, ownTotal, i) && memoA == CountFirst(nodes, ownActive, i)
      {
        var t, a := Dfs(nodes[i].uuid);
      }
      assert forall u :: u in Uuids(nodes) ==> u in memoT;
      if Forest(nodes) {
        CountTrue(nodes, ownTotal, |nodes|);
        CountTrue(nodes, ownActive, |nodes|);
      }
    }
  }
}
