/** The subtree counts are true exactly on acyclic links. */
module SubtreeExact {
  import opened Common
  import opened Ancestry
  import opened SubtreeCounts

  ghost predicate OnCycle(up: map<string, string>, u: string) {
    exists k: nat :: k > 0 && Up(up, u, k) == Some(u)
  }

  predicate NonNegative(m: map<string, int>) { forall u :: u in m ==> m[u] >= 0 }

  // ----- what a search adds to the memo -----

  /** A parent on the way around a cycle is on it too. */
  lemma CycleAbove(up: map<string, string>, c: string)
    requires c in up && OnCycle(up, c)
    ensures OnCycle(up, up[c])
  {
    var k: nat :| k > 0 && Up(up, c, k) == Some(c);
    UpAdd(up, c, k, 1);
    assert Up(up, c, 1) == Up(up, up[c], 0) == Some(up[c]);
    assert Up(up, up[c], k) == Up(up, c, k + 1) == Some(up[c]);
  }

  /** A search extends the memo, leaves out what is being visited, and from outside every cycle reaches
      no node on one. */
  ghost predicate Extends(nodes: seq<Node>, memo: map<string, int>, visiting: set<string>, m: map<string, int>,
                          cyclic: bool) {
    && (forall k :: k in memo ==> k in m && m[k] == memo[k])
    && (forall k :: k in m && k !in memo ==> k !in visiting)
    && (!cyclic ==> forall k :: k in m && k !in memo ==> !OnCycle(Links(nodes), k))
  }

  lemma {:induction false} SearchExtends(nodes: seq<Node>, own: map<string, int>, memo: map<string, int>,
                                         visiting: set<string>,
                                         u: string)
    requires Distinct(nodes) && u in Uuids(nodes)
    ensures Extends(nodes, memo, visiting, Search(nodes, own, memo, visiting, u).1, OnCycle(Links(nodes), u))
    decreases Uuids(nodes) - visiting, 0
  {
    hide Uuids, Own, OnCycle, Links, Distinct, Search, SearchAll;
    SearchCases(nodes, own, memo, visiting, u);
    if u !in memo && u !in visiting {
      var cyclic := OnCycle(Links(nodes), u);
      forall c | c in Children(nodes, u) && !cyclic ensures !OnCycle(Links(nodes), c.uuid) {
        LinksAt(nodes, c);
        if OnCycle(Links(nodes), c.uuid) { CycleAbove(Links(nodes), c.uuid); }
      }
      SearchAllExtends(nodes, own, memo, visiting + {u}, Children(nodes, u), cyclic);
    }
  }

  lemma {:induction false} SearchAllExtends(nodes: seq<Node>, own: map<string, int>, memo: map<string, int>,
                                            visiting: set<string>,
                                            cs: seq<Node>, cyclic: bool)
    requires Distinct(nodes) && forall c :: c in cs ==> c in nodes
    requires forall c :: c in cs && !cyclic ==> !OnCycle(Links(nodes), c.uuid)
    ensures Extends(nodes, memo, visiting, SearchAll(nodes, own, memo, visiting, cs).1, cyclic)
    decreases Uuids(nodes) - visiting, |cs| + 1
  {
    hide Uuids, Own, OnCycle, Links, Distinct, Search, SearchAll;
    if cs == [] {
      SearchNone(nodes, own, memo, visiting);
    } else {
      var n := |cs| - 1;
      SearchAllExtends(nodes, own, memo, visiting, cs[..n], cyclic);
      SearchNext(nodes, own, memo, visiting, cs, n);
      assert cs[..n + 1] == cs;
      SearchExtends(nodes, own, SearchAll(nodes, own, memo, visiting, cs[..n]).1, visiting, cs[n].uuid);
    }
  }

  // ----- sums of non-negative counts -----

  lemma {:induction false} SearchNonNegative(nodes: seq<Node>, own: map<string, int>, memo: map<string, int>,
                                             visiting: set<string>,
                                             u: string)
    requires u in Uuids(nodes) && NonNegative(own) && NonNegative(memo)
    ensures var (t, m) := Search(nodes, own, memo, visiting, u); t >= 0 && NonNegative(m)
    decreases Uuids(nodes) - visiting, 0
  {
    hide Uuids, Search, SearchAll;
    SearchCases(nodes, own, memo, visiting, u);
    if u !in memo && u !in visiting {
      SearchAllNonNegative(nodes, own, memo, visiting + {u}, Children(nodes, u));
    }
  }

  lemma {:induction false} SearchAllNonNegative(nodes: seq<Node>, own: map<string, int>, memo: map<string, int>,
                                                visiting: set<string>, cs: seq<Node>)
    requires (forall c :: c in cs ==> c in nodes) && NonNegative(own) && NonNegative(memo)
    ensures var (t, m) := SearchAll(nodes, own, memo, visiting, cs); t >= 0 && NonNegative(m)
    decreases Uuids(nodes) - visiting, |cs| + 1
  {
    hide Uuids, Search, SearchAll;
    if cs == [] {
      SearchNone(nodes, own, memo, visiting);
    } else {
      var n := |cs| - 1;
      SearchAllNonNegative(nodes, own, memo, visiting, cs[..n]);
      SearchNext(nodes, own, memo, visiting, cs, n);
      assert cs[..n + 1] == cs;
      SearchNonNegative(nodes, own, SearchAll(nodes, own, memo, visiting, cs[..n]).1, visiting, cs[n].uuid);
    }
  }

  /** What a child contributes to its parent: its own count on a back edge, else its final entry. */
  ghost function Share(own: map<string, int>, m: map<string, int>, visiting: set<string>, c: string): int
    requires c in m || c in visiting
  {
    if c in m then m[c] else Own(own, c)
  }

  lemma {:induction false} ShareOfChild(nodes: seq<Node>, own: map<string, int>, memo: map<string, int>,
                                        visiting: set<string>,
                                        cs: seq<Node>, c: Node)
    requires Distinct(nodes) && (forall x :: x in cs ==> x in nodes) && c in cs && NonNegative(own) && NonNegative(memo)
    ensures var (t, m) := SearchAll(nodes, own, memo, visiting, cs);
            (c.uuid in m || c.uuid in visiting) && t >= Share(own, m, visiting, c.uuid)
    decreases |cs|
  {
    hide Uuids, Own, Search, SearchAll, Distinct;
    var n := |cs| - 1;
    var (t, m) := SearchAll(nodes, own, memo, visiting, cs[..n]);
    SearchAllNonNegative(nodes, own, memo, visiting, cs[..n]);
    SearchNext(nodes, own, memo, visiting, cs, n);
    assert cs[..n + 1] == cs;
    SearchCases(nodes, own, m, visiting, cs[n].uuid);
    SearchExtends(nodes, own, m, visiting, cs[n].uuid);
    SearchNonNegative(nodes, own, m, visiting, cs[n].uuid);
    if cs[n] != c {
      assert c in cs[..n];
      ShareOfChild(nodes, own, memo, visiting, cs[..n], c);
    }
  }

  // ----- around a cycle -----

  /** A node on a cycle has a child on it, with the same subtree. */
  lemma CycleChild(nodes: seq<Node>, u: string) returns (c: Node)
    requires Distinct(nodes) && OnCycle(Links(nodes), u)
    ensures c in Children(nodes, u) && Below(nodes, c.uuid) == Below(nodes, u)
  {
    var up := Links(nodes);
    var k: nat :| k > 0 && Up(up, u, k) == Some(u);
    UpBefore(up, u, k - 1);
    var x := Up(up, u, k - 1).value;
    UpAdd(up, u, k - 1, 1);
    assert Up(up, x, 1) == Some(u);
    assert x in up && Up(up, up[x], 0) == Some(up[x]);
    c := LinkNode(nodes, x);
    assert Reaches(up, u, x);
    ReachesSelf(up, x);
    ReachesParent(up, x, x);
    forall n ensures n in Below(nodes, x) <==> n in Below(nodes, u) {
      if Reaches(up, n, x) { ReachesTrans(up, n, x, u); }
      if Reaches(up, n, u) { ReachesTrans(up, n, u, x); }
    }
  }

  lemma {:induction false} SumOfOne(nodes: seq<Node>, u: string, s: set<string>)
    requires Distinct(nodes) && u in s
    ensures SumIn(nodes, map[u := 1], s) == if u in Uuids(nodes) then 1 else 0
  {
    if nodes != [] {
      var pre, last := nodes[..|nodes| - 1], nodes[|nodes| - 1];
      SumOfOne(pre, u, s);
      assert nodes == pre + [last];
      assert Uuids(nodes) == Uuids(pre) + {last.uuid};
      assert last.uuid !in Uuids(pre);
    }
  }

  /** With one user in all, a search that starts at his node counts him twice, or gives the node more than
      its child on the cycle, although both have the same subtree. */
  lemma SearchedTooMuch(nodes: seq<Node>, memo: map<string, int>, u: string)
    requires Distinct(nodes) && u in Uuids(nodes) && OnCycle(Links(nodes), u) && u !in memo && NonNegative(memo)
    ensures var m := Search(nodes, map[u := 1], memo, {}, u).1;
            exists v :: v in m && m[v] != SumIn(nodes, map[u := 1], Below(nodes, v))
  {
    hide Uuids, Search, SearchAll, Distinct, OnCycle, SumIn, Links;
    var own := map[u := 1];
    var c := CycleChild(nodes, u);
    var cs := Children(nodes, u);
    var visiting := {} + {u};
    var (t, m) := SearchAll(nodes, own, memo, visiting, cs);
    SearchCases(nodes, own, memo, {}, u);
    ShareOfChild(nodes, own, memo, visiting, cs, c);
    SearchAllExtends(nodes, own, memo, visiting, cs, true);
    var m' := m[u := Own(own, u) + t];
    if c.uuid == u {
      ReachesSelf(Links(nodes), u);
      SumOfOne(nodes, u, Below(nodes, u));
      assert m'[u] >= 2;
    } else {
      assert m'[u] > m'[c.uuid];
    }
  }

  // ----- all the nodes in turn -----

  lemma {:induction false} CountKeeps(nodes: seq<Node>, own: map<string, int>, i: nat, j: nat)
    requires Distinct(nodes) && i <= j <= |nodes|
    ensures forall k :: k in CountFirst(nodes, own, i)
              ==> k in CountFirst(nodes, own, j) && CountFirst(nodes, own, j)[k] == CountFirst(nodes, own, i)[k]
  {
    hide Uuids, Search, Distinct;
    if i < j {
      CountKeeps(nodes, own, i, j - 1);
      NodeUuid(nodes, nodes[j - 1]);
      SearchExtends(nodes, own, CountFirst(nodes, own, j - 1), {}, nodes[j - 1].uuid);
    }
  }

  /** Up to the first node on a cycle no entry belongs to one. */
  lemma {:induction false} NoneYet(nodes: seq<Node>, own: map<string, int>, i: nat)
    requires Distinct(nodes) && i <= |nodes| && NonNegative(own)
    requires forall j :: 0 <= j < i ==> !OnCycle(Links(nodes), nodes[j].uuid)
    ensures NonNegative(CountFirst(nodes, own, i))
    ensures forall k :: k in CountFirst(nodes, own, i) ==> !OnCycle(Links(nodes), k)
  {
    hide Uuids, Search, Distinct, OnCycle, Links;
    if i > 0 {
      NoneYet(nodes, own, i - 1);
      var memo := CountFirst(nodes, own, i - 1);
      NodeUuid(nodes, nodes[i - 1]);
      SearchExtends(nodes, own, memo, {}, nodes[i - 1].uuid);
      SearchNonNegative(nodes, own, memo, {}, nodes[i - 1].uuid);
    }
  }

  lemma FirstOnCycle(nodes: seq<Node>, n: nat) returns (i: nat)
    requires n < |nodes| && OnCycle(Links(nodes), nodes[n].uuid)
    ensures i <= n && OnCycle(Links(nodes), nodes[i].uuid)
    ensures forall j :: 0 <= j < i ==> !OnCycle(Links(nodes), nodes[j].uuid)
  {
    hide OnCycle, Links;
    i := 0;
    while !OnCycle(Links(nodes), nodes[i].uuid)
      invariant i <= n && forall j :: 0 <= j < i ==> !OnCycle(Links(nodes), nodes[j].uuid)
      decreases n - i
    {
      i := i + 1;
    }
  }

  /** Some distribution of users is counted wrongly on any cycle: a single user, of the node on a cycle
      that comes first. */
  lemma CycleNotTrue(nodes: seq<Node>, n: nat)
    requires Distinct(nodes) && n < |nodes| && OnCycle(Links(nodes), nodes[n].uuid)
    ensures exists own :: !MemoTrue(nodes, own, CountFirst(nodes, own, |nodes|))
  {
    hide Uuids, Search, Distinct, OnCycle, Links, SumIn, Below;
    var i := FirstOnCycle(nodes, n);
    var u := nodes[i].uuid;
    var own := map[u := 1];
    NoneYet(nodes, own, i);
    NodeUuid(nodes, nodes[i]);
    SearchedTooMuch(nodes, CountFirst(nodes, own, i), u);
    CountKeeps(nodes, own, i + 1, |nodes|);
    var m := CountFirst(nodes, own, i + 1);
    var v :| v in m && m[v] != SumIn(nodes, own, Below(nodes, v));
    assert !MemoTrue(nodes, own, CountFirst(nodes, own, |nodes|));
  }

  /** The counts are the sums over the subtrees, for all users, exactly when the parent links have no cycle. */
  lemma TrueIffAcyclic(nodes: seq<Node>)
    requires Distinct(nodes)
    ensures Acyclic(Links(nodes)) <==> forall own :: MemoTrue(nodes, own, CountFirst(nodes, own, |nodes|))
  {
    hide MemoTrue, CountFirst, Distinct, Links;
    if Acyclic(Links(nodes)) {
      forall own ensures MemoTrue(nodes, own, CountFirst(nodes, own, |nodes|)) {
        CountTrue(nodes, own, |nodes|);
      }
    } else {
      var u, k: nat :| k > 0 && Up(Links(nodes), u, k) == Some(u);
      assert u in Links(nodes);
      var n :| 0 <= n < |nodes| && nodes[n].uuid == u;
      CycleNotTrue(nodes, n);
    }
  }
}
