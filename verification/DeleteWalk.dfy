/** `delete_absent_reseller`: which rows of a panel a branch deletion removes. */
module DeleteWalk {
  import opened Common
  import opened Ancestry

  /** A reseller row, uuids lower-cased; `absent` is the presence test against the panel. */
  datatype Row = Row(id: int, uuid: string, parent: Option<string>, absent: bool)

  /** `children.get(cur.admin_uuid.lower(), [])` */
  function ChildrenOf(rows: seq<Row>, cur: Row): (cs: seq<Row>)
    ensures forall c :: c in cs <==> c in rows && c.parent == Some(cur.uuid)
  {
    Filter(rows, (c: Row) => c.parent == Some(cur.uuid))
  }

  /** `x` lies `k` child links below `target`. */
  ghost predicate ReachedIn(rows: seq<Row>, target: Row, x: Row, k: nat)
    decreases k
  {
    if k == 0 then x == target
    else x in rows && exists y :: ReachedIn(rows, target, y, k - 1) && x.parent == Some(y.uuid)
  }

  ghost predicate Reached(rows: seq<Row>, target: Row, x: Row) {
    exists k: nat :: ReachedIn(rows, target, x, k)
  }

  /** `p` leads from the target down child links to `x`. */
  ghost predicate Path(rows: seq<Row>, target: Row, x: Row, p: seq<Row>) {
    && p != [] && p[0] == target && p[|p| - 1] == x
    && (forall i :: 0 <= i < |p| ==> p[i] in rows)
    && forall i :: 0 <= i < |p| - 1 ==> p[i + 1].parent == Some(p[i].uuid)
  }

  lemma {:induction false} ReachedPath(rows: seq<Row>, target: Row, x: Row, k: nat) returns (p: seq<Row>)
    requires target in rows && ReachedIn(rows, target, x, k)
    ensures Path(rows, target, x, p)
    decreases k
  {
    if k == 0 {
      p := [x];
    } else {
      var y :| ReachedIn(rows, target, y, k - 1) && x.parent == Some(y.uuid);
      var q := ReachedPath(rows, target, y, k - 1);
      p := q + [x];
    }
  }

  lemma {:induction false} PathReached(rows: seq<Row>, target: Row, x: Row, p: seq<Row>)
    requires Path(rows, target, x, p)
    ensures ReachedIn(rows, target, x, |p| - 1)
    decreases |p|
  {
    if |p| > 1 {
      PathReached(rows, target, p[|p| - 2], p[..|p| - 1]);
    }
  }

  /** Reached is what a path of child links leads to. */
  lemma ReachedIff(rows: seq<Row>, target: Row, x: Row)
    requires target in rows
    ensures Reached(rows, target, x) <==> exists p :: Path(rows, target, x, p)
  {
    if Reached(rows, target, x) {
      var k: nat :| ReachedIn(rows, target, x, k);
      var p := ReachedPath(rows, target, x, k);
    }
    if p :| Path(rows, target, x, p) { PathReached(rows, target, x, p); }
  }

  predicate DistinctIds(rows: seq<Row>) {
    forall r, s :: r in rows && s in rows && r.id == s.id ==> r == s
  }

  function Ids(rows: set<Row>): set<int> { set r | r in rows :: r.id }

  lemma ReachChild(rows: seq<Row>, target: Row, y: Row, x: Row)
    requires Reached(rows, target, y) && x in rows && x.parent == Some(y.uuid)
    ensures Reached(rows, target, x)
  {
    var k: nat :| ReachedIn(rows, target, y, k);
    assert ReachedIn(rows, target, x, k + 1);
  }

  /** A set of rows that holds the target and all children of its members holds all that is reached. */
  lemma {:induction false} ClosedHoldsReached(rows: seq<Row>, target: Row, seen: set<Row>, x: Row, k: nat)
    requires target in seen && ReachedIn(rows, target, x, k)
    requires forall y, c :: y in seen && c in rows && c.parent == Some(y.uuid) ==> c in seen
    ensures x in seen
    decreases k
  {
    if k > 0 {
      var y :| ReachedIn(rows, target, y, k - 1) && x.parent == Some(y.uuid);
      ClosedHoldsReached(rows, target, seen, y, k - 1);
    }
  }

  /** `seen` holds only reached rows, and `toDelete` exactly its absent ones, each once. */
  ghost predicate Sound(rows: seq<Row>, target: Row, seen: set<Row>, toDelete: seq<Row>) {
    && target in seen
    && (forall r :: r in seen ==> r in rows && Reached(rows, target, r))
    && NoRepeats(toDelete) && (forall r :: r in toDelete <==> r in seen && r.absent)
  }

  /** Every seen row that is not pending has all its children seen. */
  ghost predicate Expanded(rows: seq<Row>, seen: set<Row>, pending: set<Row>) {
    forall y, c :: y in seen && y !in pending && c in rows && c.parent == Some(y.uuid) ==> c in seen
  }

  lemma SoundAppend(rows: seq<Row>, target: Row, seen: set<Row>, toDelete: seq<Row>, cur: Row, child: Row)
    requires Sound(rows, target, seen, toDelete) && cur in seen && child in rows && child.parent == Some(cur.uuid)
    requires child !in seen
    ensures Sound(rows, target, seen + {child}, if child.absent then toDelete + [child] else toDelete)
  {
    ReachChild(rows, target, cur, child);
  }

  /** The inner loop: marks and enqueues the unseen children of `cur`. */
  method Visit(rows: seq<Row>, ghost target: Row, cur: Row, seenIds: set<int>, queue: seq<Row>, toDelete: seq<Row>,
               ghost seen: set<Row>)
    returns (seenIds': set<int>, queue': seq<Row>, toDelete': seq<Row>, ghost seen': set<Row>)
    requires DistinctIds(rows) && seenIds == Ids(seen) && cur in seen
    requires Sound(rows, target, seen, toDelete) && Elements(queue) <= seen
    requires Expanded(rows, seen, Elements(queue) + {cur})
    ensures seenIds' == Ids(seen') && seen <= seen'
    ensures Sound(rows, target, seen', toDelete') && Elements(queue') <= seen'
    ensures Expanded(rows, seen', Elements(queue'))
    ensures seen' == seen ==> queue' == queue
  {
    hide Sound, NoRepeats;
    seenIds', queue', toDelete', seen' := seenIds, queue, toDelete, seen;
    var cs := ChildrenOf(rows, cur);
    for i := 0 to |cs|
      invariant seenIds' == Ids(seen') && seen <= seen'
      invariant Sound(rows, target, seen', toDelete') && Elements(queue') <= seen'
      invariant Expanded(rows, seen', Elements(queue') + {cur})
      invariant forall j :: 0 <= j < i ==> cs[j] in seen'
      invariant seen' == seen ==> queue' == queue
    {
      var child := cs[i];
      if child.id in seenIds' {
        SeenById(rows, target, seen', toDelete', child);
        continue;
      }
      assert child !in seen';
      SoundAppend(rows, target, seen', toDelete', cur, child);
      assert Elements(queue' + [child]) == Elements(queue') + {child};
      seenIds' := seenIds' + {child.id};
      seen' := seen' + {child};
      queue' := queue' + [child];
      if child.absent {
        toDelete' := toDelete' + [child];
      }
    }
  }

  /** The rows to delete: the target and every absent row below it, present rows being walked through. */
  method BranchToDelete(rows: seq<Row>, target: Row) returns (toDelete: seq<Row>)
    requires target in rows && target.absent && DistinctIds(rows)
    ensures NoRepeats(toDelete)
    ensures forall x :: x in toDelete <==> x.absent && exists p :: Path(rows, target, x, p)
  {
    hide Ids;
    toDelete := [target];
    var seenIds := {target.id};
    var queue := [target];
    ghost var seen := {target};
    IdsOne(target);
    assert ReachedIn(rows, target, target, 0);
    while queue != []
      invariant seenIds == Ids(seen) && Sound(rows, target, seen, toDelete)
      invariant Elements(queue) <= seen && Expanded(rows, seen, Elements(queue))
      decreases Unseen(rows, seen), |queue|
    {
      hide Sound, Unseen, NoRepeats;
      var cur := queue[|queue| - 1];
      ghost var before := seen;
      assert queue == queue[..|queue| - 1] + [cur];
      assert Elements(queue) == Elements(queue[..|queue| - 1]) + {cur};
      queue := queue[..|queue| - 1];
      seenIds, queue, toDelete, seen := Visit(rows, target, cur, seenIds, queue, toDelete, seen);
      UnseenShrinks(rows, target, before, seen, toDelete);
    }
    forall x ensures x in toDelete <==> x.absent && exists p :: Path(rows, target, x, p) {
      AllReached(rows, target, seen, x);
      ReachedIff(rows, target, x);
    }
  }

  lemma AllReached(rows: seq<Row>, target: Row, seen: set<Row>, x: Row)
    requires target in seen && Expanded(rows, seen, {})
    ensures Reached(rows, target, x) ==> x in seen
  {
    if Reached(rows, target, x) {
      var k: nat :| ReachedIn(rows, target, x, k);
      ClosedHoldsReached(rows, target, seen, x, k);
    }
  }

  lemma IdsOne(r: Row)
    ensures Ids({r}) == {r.id}
  {
  }

  lemma SeenById(rows: seq<Row>, target: Row, seen: set<Row>, toDelete: seq<Row>, child: Row)
    requires DistinctIds(rows) && child in rows && Sound(rows, target, seen, toDelete)
    requires child.id in Ids(seen)
    ensures child in seen
  {
  }

  /** The number of rows not yet seen. */
  ghost function Unseen(rows: seq<Row>, seen: set<Row>): nat {
    |Elements(rows) - seen|
  }

  lemma UnseenShrinks(rows: seq<Row>, target: Row, before: set<Row>, after: set<Row>, toDelete: seq<Row>)
    requires before <= after && Sound(rows, target, after, toDelete)
    ensures Unseen(rows, after) <= Unseen(rows, before)
    ensures before != after ==> Unseen(rows, after) < Unseen(rows, before)
  {
    var all := Elements(rows);
    SubsetSize(all - after, all - before);
    if before != after {
      var r :| r in after && r !in before;
      assert r in all - before && r !in all - after;
    }
  }
}
