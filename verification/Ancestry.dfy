/** Parent links over a finite set of keys: ancestors, subtrees, and when links form a forest. */
module Ancestry {
  import opened Common

  /** The `k`-th ancestor of `n`; a parent may lie outside the keys that have one. */
  function Up<K>(up: map<K, K>, n: K, k: nat): Option<K> {
    if k == 0 then Some(n)
    else if n !in up then None
    else Up(up, up[n], k - 1)
  }

  ghost predicate Reaches<K>(up: map<K, K>, n: K, u: K) {
    exists k: nat :: Up(up, n, k) == Some(u)
  }

  /** `u` and everything below it. */
  ghost function Subtree<K>(keys: set<K>, up: map<K, K>, u: K): set<K> {
    set n | n in keys && Reaches(up, n, u)
  }

  ghost predicate Acyclic<K(!new)>(up: map<K, K>) {
    forall n: K, k: nat :: k > 0 ==> Up(up, n, k) != Some(n)
  }

  lemma {:induction false} UpAdd<K>(up: map<K, K>, n: K, j: nat, k: nat)
    requires Up(up, n, j).Some?
    ensures Up(up, n, j + k) == Up(up, Up(up, n, j).value, k)
    decreases j
  {
    if j > 0 { UpAdd(up, up[n], j - 1, k); }
  }

  lemma ReachesSelf<K>(up: map<K, K>, n: K)
    ensures Reaches(up, n, n)
  {
    assert Up(up, n, 0) == Some(n);
  }

  lemma ReachesParent<K>(up: map<K, K>, n: K, u: K)
    requires u in up && Reaches(up, n, u)
    ensures Reaches(up, n, up[u])
  {
    var k: nat :| Up(up, n, k) == Some(u);
    UpAdd(up, n, k, 1);
    assert Up(up, u, 1) == Up(up, up[u], 0);
    assert Up(up, n, k + 1) == Some(up[u]);
  }

  lemma ReachesTrans<K>(up: map<K, K>, n: K, m: K, u: K)
    requires Reaches(up, n, m) && Reaches(up, m, u)
    ensures Reaches(up, n, u)
  {
    var j: nat :| Up(up, n, j) == Some(m);
    var k: nat :| Up(up, m, k) == Some(u);
    UpAdd(up, n, j, k);
    assert Up(up, n, j + k) == Some(u);
  }

  /** What reaches `u` is `u` itself or reaches one of its children. */
  lemma LastStep<K>(up: map<K, K>, n: K, u: K) returns (c: K)
    requires Reaches(up, n, u) && n != u
    ensures c in up && up[c] == u && Reaches(up, n, c)
  {
    var k: nat :| Up(up, n, k) == Some(u);
    assert k > 0;
    UpBefore(up, n, k - 1);
    c := Up(up, n, k - 1).value;
    UpAdd(up, n, k - 1, 1);
    assert Up(up, c, 1) == Some(u);
    assert c in up && Up(up, up[c], 0) == Some(up[c]);
  }

  lemma {:induction false} UpBefore<K>(up: map<K, K>, n: K, k: nat)
    requires Up(up, n, k + 1).Some?
    ensures Up(up, n, k).Some?
    decreases k
  {
    if k > 0 { UpBefore(up, up[n], k - 1); }
  }

  /** Two keys reachable from one are reachable from each other, one way or the other. */
  lemma Linear<K>(up: map<K, K>, n: K, a: K, b: K)
    requires Reaches(up, n, a) && Reaches(up, n, b)
    ensures Reaches(up, a, b) || Reaches(up, b, a)
  {
    var j: nat :| Up(up, n, j) == Some(a);
    var k: nat :| Up(up, n, k) == Some(b);
    if j <= k {
      UpAdd(up, n, j, k - j);
      assert Up(up, a, k - j) == Some(b);
    } else {
      UpAdd(up, n, k, j - k);
      assert Up(up, b, j - k) == Some(a);
    }
  }

  lemma NoCycle<K(!new)>(up: map<K, K>, a: K, b: K)
    requires Acyclic(up) && Reaches(up, a, b) && Reaches(up, b, a)
    ensures a == b
  {
    var j: nat :| Up(up, a, j) == Some(b);
    var k: nat :| Up(up, b, k) == Some(a);
    UpAdd(up, a, j, k);
    assert Up(up, a, j + k) == Some(a);
  }

  /** A proper descendant is not an ancestor. */
  lemma ChildNotAbove<K(!new)>(up: map<K, K>, c: K, v: K)
    requires Acyclic(up) && c in up && Reaches(up, up[c], v)
    ensures c != v && Reaches(up, c, v)
  {
    ReachesSelf(up, c);
    ReachesParent(up, c, c);
    ReachesTrans(up, c, up[c], v);
    assert Up(up, c, 1) == Up(up, up[c], 0);
    if c == v { NoCycle(up, c, up[c]); }
  }

  /** In a forest, sibling subtrees are disjoint. */
  lemma SiblingsDisjoint<K(!new)>(keys: set<K>, up: map<K, K>, a: K, b: K)
    requires Acyclic(up) && a in up && b in up && up[a] == up[b] && a != b
    ensures Subtree(keys, up, a) !! Subtree(keys, up, b)
  {
    forall n | n in Subtree(keys, up, a) && n in Subtree(keys, up, b) ensures false {
      Linear(up, n, a, b);
      var x, y := if Reaches(up, a, b) then a else b, if Reaches(up, a, b) then b else a;
      SiblingAbove(up, x, y);
    }
  }

  lemma SiblingAbove<K(!new)>(up: map<K, K>, x: K, y: K)
    requires Acyclic(up) && x in up && y in up && up[x] == up[y] && x != y
    ensures !Reaches(up, x, y)
  {
    forall k: nat ensures Up(up, x, k) != Some(y) {
      if k > 0 { assert Up(up, x, k) == Up(up, y, k); }
    }
  }

  lemma NotBelowChild<K(!new)>(keys: set<K>, up: map<K, K>, c: K)
    requires Acyclic(up) && c in up
    ensures up[c] !in Subtree(keys, up, c)
  {
    if Reaches(up, up[c], c) {
      ReachesSelf(up, up[c]);
      ChildNotAbove(up, c, up[c]);
      NoCycle(up, c, up[c]);
    }
  }

  lemma SubtreeOfChild<K>(keys: set<K>, up: map<K, K>, c: K)
    requires c in up
    ensures Subtree(keys, up, c) <= Subtree(keys, up, up[c])
  {
    forall n | n in Subtree(keys, up, c) ensures n in Subtree(keys, up, up[c]) {
      ReachesParent(up, n, c);
    }
  }

  // ----- a subtree and those of its root's children -----

  /** `cs` lists the children of `u`, each once. */
  ghost predicate ListsChildren<K(!new)>(up: map<K, K>, cs: seq<K>, u: K) {
    && (forall c :: c in cs <==> c in up && up[c] == u)
    && (forall i, j :: 0 <= i < j < |cs| ==> cs[i] != cs[j])
  }

  /** Everything in the subtrees of the first `i` of `cs`. */
  ghost function Subtrees<K>(keys: set<K>, up: map<K, K>, cs: seq<K>, i: nat): set<K>
    requires i <= |cs|
  {
    if i == 0 then {} else Subtrees(keys, up, cs, i - 1) + Subtree(keys, up, cs[i - 1])
  }

  lemma {:induction false} InSubtrees<K>(keys: set<K>, up: map<K, K>, cs: seq<K>, i: nat, n: K)
    requires i <= |cs|
    ensures n in Subtrees(keys, up, cs, i) <==> exists j :: 0 <= j < i && n in Subtree(keys, up, cs[j])
  {
    if i > 0 { InSubtrees(keys, up, cs, i - 1, n); }
  }

  /** A subtree is its root and, disjointly, the subtrees of the root's children. */
  lemma SubtreeSplits<K(!new)>(keys: set<K>, up: map<K, K>, cs: seq<K>, u: K)
    requires Acyclic(up) && ListsChildren(up, cs, u) && u in keys
    ensures Subtree(keys, up, u) == {u} + Subtrees(keys, up, cs, |cs|)
    ensures u !in Subtrees(keys, up, cs, |cs|)
  {
    forall n ensures n in Subtree(keys, up, u) <==> n == u || n in Subtrees(keys, up, cs, |cs|) {
      InSubtrees(keys, up, cs, |cs|, n);
      ReachesSelf(up, n);
      if n in Subtree(keys, up, u) && n != u {
        var c := LastStep(up, n, u);
        assert n in Subtree(keys, up, c);
      }
      if n in Subtrees(keys, up, cs, |cs|) {
        var j :| 0 <= j < |cs| && n in Subtree(keys, up, cs[j]);
        SubtreeOfChild(keys, up, cs[j]);
      }
    }
    InSubtrees(keys, up, cs, |cs|, u);
    forall j | 0 <= j < |cs| ensures u !in Subtree(keys, up, cs[j]) {
      NotBelowChild(keys, up, cs[j]);
    }
  }

  /** The next child's subtree is disjoint from those before it. */
  lemma NextChildDisjoint<K(!new)>(keys: set<K>, up: map<K, K>, cs: seq<K>, u: K, i: nat)
    requires Acyclic(up) && ListsChildren(up, cs, u) && i < |cs|
    ensures Subtrees(keys, up, cs, i) !! Subtree(keys, up, cs[i])
  {
    forall n | n in Subtrees(keys, up, cs, i) ensures n !in Subtree(keys, up, cs[i]) {
      InSubtrees(keys, up, cs, i, n);
      var j :| 0 <= j < i && n in Subtree(keys, up, cs[j]);
      SiblingsDisjoint(keys, up, cs[j], cs[i]);
    }
  }
}
