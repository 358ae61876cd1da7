/** For whom one user counts. */
module SubtreeUsers {
  import opened Common
  import opened Ancestry
  import opened SubtreeCounts

  /** `p` leads from one reseller to the next above it. */
  ghost predicate Line(nodes: seq<Node>, p: seq<Node>) {
    && p != [] && (forall i :: 0 <= i < |p| ==> p[i] in nodes)
    && forall i :: 0 <= i < |p| - 1 ==> p[i].parent == Some(p[i + 1].uuid)
  }

  /** The reseller `u` is `w` itself or one above it. */
  ghost predicate AtOrAbove(nodes: seq<Node>, w: string, u: string) {
    exists p: seq<Node> :: Line(nodes, p) && p[0].uuid == w && p[|p| - 1].uuid == u
  }

  lemma {:induction false} LineUp(nodes: seq<Node>, p: seq<Node>)
    requires Distinct(nodes) && Line(nodes, p)
    ensures Up(Links(nodes), p[0].uuid, |p| - 1) == Some(p[|p| - 1].uuid)
  {
    if |p| > 1 {
      LinksAt(nodes, p[0]);
      assert forall i :: 0 <= i < |p[1..]| ==> p[1..][i] == p[i + 1];
      LineUp(nodes, p[1..]);
    }
  }

  lemma {:induction false} UpLine(nodes: seq<Node>, n: Node, k: nat, u: string) returns (p: seq<Node>)
    requires Distinct(nodes) && n in nodes && Up(Links(nodes), n.uuid, k) == Some(u) && u in Uuids(nodes)
    ensures Line(nodes, p) && p[0] == n && p[|p| - 1].uuid == u
    decreases k
  {
    p := [n];
    if k > 0 {
      LinksAt(nodes, n);
      var m := NodeAbove(nodes, n, k, u);
      var q := UpLine(nodes, m, k - 1, u);
      p := [n] + q;
    }
  }

  lemma NodeAbove(nodes: seq<Node>, n: Node, k: nat, u: string) returns (m: Node)
    requires Distinct(nodes) && n in nodes && k > 0 && Up(Links(nodes), n.uuid, k) == Some(u) && u in Uuids(nodes)
    ensures m in nodes && n.parent == Some(m.uuid) && Up(Links(nodes), m.uuid, k - 1) == Some(u)
  {
    LinksAt(nodes, n);
    var v := Links(nodes)[n.uuid];
    if k == 1 {
      var i :| 0 <= i < |nodes| && nodes[i].uuid == u;
      m := nodes[i];
    } else {
      assert v in Links(nodes);
      m := LinkNode(nodes, v);
    }
  }

  lemma BelowIff(nodes: seq<Node>, w: string, u: string)
    requires Distinct(nodes) && w in Uuids(nodes) && u in Uuids(nodes)
    ensures w in Below(nodes, u) <==> AtOrAbove(nodes, w, u)
  {
    hide Links, Distinct;
    if w in Below(nodes, u) {
      var k: nat :| Up(Links(nodes), w, k) == Some(u);
      var i :| 0 <= i < |nodes| && nodes[i].uuid == w;
      var p := UpLine(nodes, nodes[i], k, u);
    }
    if p: seq<Node> :| Line(nodes, p) && p[0].uuid == w && p[|p| - 1].uuid == u {
      LineUp(nodes, p);
    }
  }

  /** The users of `w`, none if it has no entry. */
  function Users(own: map<string, int>, w: string): int { if w in own then own[w] else 0 }

  lemma {:induction false} SumSame(nodes: seq<Node>, own: map<string, int>, own': map<string, int>, s: set<string>)
    requires forall i :: 0 <= i < |nodes| ==> Users(own', nodes[i].uuid) == Users(own, nodes[i].uuid)
    ensures SumIn(nodes, own', s) == SumIn(nodes, own, s)
  {
    if nodes != [] { SumSame(nodes[..|nodes| - 1], own, own', s); }
  }

  lemma {:induction false} SumMore(nodes: seq<Node>, own: map<string, int>, own': map<string, int>, s: set<string>,
                                   w: string, d: int)
    requires Distinct(nodes) && w in Uuids(nodes) && Users(own', w) == Users(own, w) + d
    requires forall v :: v != w ==> Users(own', v) == Users(own, v)
    ensures SumIn(nodes, own', s) == SumIn(nodes, own, s) + (if w in s then d else 0)
  {
    var pre, last := nodes[..|nodes| - 1], nodes[|nodes| - 1].uuid;
    assert Own(own', last) == Users(own', last) && Own(own, last) == Users(own, last);
    if last == w {
      SumSame(pre, own, own', s);
    } else {
      var i :| 0 <= i < |nodes| && nodes[i].uuid == w;
      assert pre[i].uuid == w;
      SumMore(pre, own, own', s, w, d);
    }
  }

  lemma {:induction false} SumZero(nodes: seq<Node>, own: map<string, int>, s: set<string>)
    requires forall v :: Users(own, v) == 0
    ensures SumIn(nodes, own, s) == 0
  {
    if nodes != [] {
      SumZero(nodes[..|nodes| - 1], own, s);
      assert Users(own, nodes[|nodes| - 1].uuid) == 0;
    }
  }

  /** On acyclic links users count exactly for their own reseller and every one above it, once each: with `d` more
      users at `w` those totals grow by `d` and no other does, and without users every total is 0. */
  lemma UsersCount(nodes: seq<Node>, own: map<string, int>, own': map<string, int>, w: string, d: int, u: string)
    requires Distinct(nodes) && Acyclic(Links(nodes)) && w in Uuids(nodes) && u in Uuids(nodes)
    requires (if w in own' then own'[w] else 0) == (if w in own then own[w] else 0) + d
    requires forall v :: v != w ==> (if v in own' then own'[v] else 0) == if v in own then own[v] else 0
    ensures var m, m' := CountFirst(nodes, own, |nodes|), CountFirst(nodes, own', |nodes|);
            && u in m && u in m'
            && m'[u] == m[u] + (if AtOrAbove(nodes, w, u) then d else 0)
            && ((forall v :: v in own ==> own[v] == 0) ==> m[u] == 0)
  {
    hide Search, Below, Uuids, Distinct, SumIn;
    CountsTrue(nodes, own, u);
    CountsTrue(nodes, own', u);
    SumMore(nodes, own, own', Below(nodes, u), w, d);
    BelowIff(nodes, w, u);
    if forall v :: v in own ==> own[v] == 0 { SumZero(nodes, own, Below(nodes, u)); }
  }
}
