/** Lists of times: the recent part of one, and how many of them an interval can hold. */
module Windows {

  predicate Sorted(h: seq<real>) {
    forall i, j :: 0 <= i < j < |h| ==> h[i] <= h[j]
  }

  /** `[t for t in h if now - t < window]` */
  function Recent(h: seq<real>, now: real, window: real): (r: seq<real>)
    ensures |r| <= |h|
    ensures forall i :: 0 <= i < |r| ==> r[i] in h && now - r[i] < window
  {
    if h == [] then []
    else if now - h[0] < window then [h[0]] + Recent(h[1..], now, window)
    else Recent(h[1..], now, window)
  }

  predicate Inside(t: real, a: real, b: real, closed: bool) {
    a <= t && (t < b || (closed && t == b))
  }

  /** The times inside `[a, b]`, or inside `[a, b)` when not `closed`. */
  function Within(h: seq<real>, a: real, b: real, closed: bool): (r: seq<real>)
    ensures |r| <= |h|
  {
    if h == [] then []
    else if Inside(h[0], a, b, closed) then [h[0]] + Within(h[1..], a, b, closed)
    else Within(h[1..], a, b, closed)
  }

  /** No `cap + 1` consecutive times fit into an interval of length `width`. */
  ghost predicate Spaced(h: seq<real>, cap: nat, width: real, closed: bool) {
    forall i, j :: 0 <= i && j == i + cap && j < |h| ==> h[j] - h[i] > width || (!closed && h[j] - h[i] >= width)
  }

  lemma Cons(g: seq<real>, h: seq<real>)
    requires |g| > 0
    ensures g == [g[0]] + g[1..] && g + h == [g[0]] + (g[1..] + h)
  {
  }

  lemma Prepend(x: real, p: seq<real>, q: seq<real>)
    ensures [x] + (p + q) == [x] + p + q
  {
  }

  lemma WithinEmpty(h: seq<real>, a: real, b: real, closed: bool)
    requires |h| == 0
    ensures Within(h, a, b, closed) == h
  {
  }

  /** The part of a list inside an interval, from its first time and the rest. */
  lemma WithinStep(g: seq<real>, x: real, h: seq<real>, a: real, b: real, closed: bool)
    requires g == [x] + h
    ensures Within(g, a, b, closed)
         == if Inside(x, a, b, closed) then [x] + Within(h, a, b, closed) else Within(h, a, b, closed)
  {
    assert g[1..] == h;
  }

  lemma {:induction false} WithinConcat(g: seq<real>, h: seq<real>, a: real, b: real, closed: bool)
    ensures Within(g + h, a, b, closed) == Within(g, a, b, closed) + Within(h, a, b, closed)
  {
    hide Within, Inside;
    if |g| == 0 {
      assert g + h == h;
      WithinEmpty(g, a, b, closed);
    } else {
      var x, rest := g[0], g[1..];
      Cons(g, h);
      WithinConcat(rest, h, a, b, closed);
      WithinStep(g, x, rest, a, b, closed);
      WithinStep(g + h, x, rest + h, a, b, closed);
      Prepend(x, Within(rest, a, b, closed), Within(h, a, b, closed));
    }
  }

  lemma {:induction false} WithinNone(h: seq<real>, a: real, b: real, closed: bool)
    requires forall i :: 0 <= i < |h| ==> h[i] > b || (!closed && h[i] >= b)
    ensures Within(h, a, b, closed) == []
  {
    if h != [] { WithinNone(h[1..], a, b, closed); }
  }

  lemma SpacedDrop(h: seq<real>, cap: nat, width: real, closed: bool)
    requires h != [] && Sorted(h) && Spaced(h, cap, width, closed)
    ensures Sorted(h[1..]) && Spaced(h[1..], cap, width, closed)
  {
    var t := h[1..];
    forall i, j | 0 <= i && j == i + cap && j < |t|
      ensures t[j] - t[i] > width || (!closed && t[j] - t[i] >= width)
    {
      assert t[j] == h[j + 1] && t[i] == h[i + 1];
    }
  }

  lemma PrefixBound(h: seq<real>, cap: nat, a: real, b: real, closed: bool)
    requires Sorted(h) && cap < |h| && (h[cap] > b || (!closed && h[cap] >= b))
    ensures |Within(h, a, b, closed)| <= cap
  {
    hide Within;
    var tail := h[cap..];
    assert h == h[..cap] + tail;
    WithinConcat(h[..cap], tail, a, b, closed);
    assert forall i :: 0 <= i < |tail| ==> tail[i] == h[cap + i];
    WithinNone(tail, a, b, closed);
  }

  /** In a sorted, spaced list no interval of the given width holds more than `cap` times. */
  lemma {:induction false} SpacedBound(h: seq<real>, cap: nat, width: real, closed: bool, a: real)
    requires Sorted(h) && Spaced(h, cap, width, closed)
    ensures |Within(h, a, a + width, closed)| <= cap
  {
    if |h| > cap {
      if h[0] < a {
        SpacedDrop(h, cap, width, closed);
        SpacedBound(h[1..], cap, width, closed, a);
      } else {
        assert h[cap] - h[0] > width || (!closed && h[cap] - h[0] >= width);
        PrefixBound(h, cap, a, a + width, closed);
      }
    }
  }

  // ----- recent parts -----

  lemma {:induction false} RecentTwice(h: seq<real>, t: real, now: real, window: real)
    requires t <= now
    ensures Recent(Recent(h, t, window), now, window) == Recent(h, now, window)
  {
    if h != [] {
      RecentTwice(h[1..], t, now, window);
      var r := Recent(h[1..], t, window);
      if t - h[0] < window { assert ([h[0]] + r)[1..] == r; }
    }
  }

  lemma RecentEmpty(h: seq<real>, now: real, window: real)
    requires |h| == 0
    ensures Recent(h, now, window) == h
  {
  }

  /** The recent part of a list, from its first time and the rest. */
  lemma RecentStep(g: seq<real>, x: real, h: seq<real>, now: real, window: real)
    requires g == [x] + h
    ensures Recent(g, now, window)
         == if now - x < window then [x] + Recent(h, now, window) else Recent(h, now, window)
  {
    assert g[1..] == h;
  }

  lemma {:induction false} RecentConcat(g: seq<real>, h: seq<real>, now: real, window: real)
    ensures Recent(g + h, now, window) == Recent(g, now, window) + Recent(h, now, window)
  {
    hide Recent;
    if |g| == 0 {
      assert g + h == h;
      RecentEmpty(g, now, window);
    } else {
      var x, rest := g[0], g[1..];
      Cons(g, h);
      RecentConcat(rest, h, now, window);
      RecentStep(g, x, rest, now, window);
      RecentStep(g + h, x, rest + h, now, window);
      Prepend(x, Recent(rest, now, window), Recent(h, now, window));
    }
  }

  lemma {:induction false} RecentAll(h: seq<real>, now: real, window: real)
    requires forall i :: 0 <= i < |h| ==> now - h[i] < window
    ensures Recent(h, now, window) == h
  {
    if h != [] { RecentAll(h[1..], now, window); }
  }

  lemma {:induction false} RecentNone(h: seq<real>, now: real, window: real)
    requires forall i :: 0 <= i < |h| ==> now - h[i] >= window
    ensures Recent(h, now, window) == []
  {
    if h != [] { RecentNone(h[1..], now, window); }
  }

  /** The recent part of a sorted list is a suffix; everything before it is old. */
  lemma {:induction false} RecentSuffix(h: seq<real>, now: real, window: real) returns (k: nat)
    requires Sorted(h)
    ensures k <= |h| && Recent(h, now, window) == h[k..]
    ensures forall i :: 0 <= i < k ==> now - h[i] >= window
  {
    if h == [] {
      k := 0;
    } else if now - h[0] < window {
      k := 0;
      RecentAll(h, now, window);
    } else {
      var m := RecentSuffix(h[1..], now, window);
      k := m + 1;
      assert h[1..][m..] == h[k..];
      assert forall i :: 0 < i < k ==> h[i] == h[1..][i - 1];
    }
  }

  // ----- counting -----

  ghost function RecentAt(h: seq<real>, now: real, window: real): set<int> {
    set i | 0 <= i < |h| && now - h[i] < window
  }

  ghost function WithinAt(h: seq<real>, a: real, b: real, closed: bool): set<int> {
    set i | 0 <= i < |h| && a <= h[i] && (h[i] < b || (closed && h[i] == b))
  }

  lemma RecentLast(h: seq<real>, x: real, now: real, window: real)
    ensures RecentAt(h + [x], now, window) == RecentAt(h, now, window) + (if now - x < window then {|h|} else {})
  {
  }

  lemma WithinLast(h: seq<real>, x: real, a: real, b: real, closed: bool)
    ensures WithinAt(h + [x], a, b, closed)
         == WithinAt(h, a, b, closed) + (if a <= x && (x < b || (closed && x == b)) then {|h|} else {})
  {
  }

  /** `Recent` keeps as many times as are recent. */
  lemma {:induction false} RecentCount(h: seq<real>, now: real, window: real)
    ensures |Recent(h, now, window)| == |RecentAt(h, now, window)|
    decreases |h|
  {
    hide RecentAt, Recent;
    if |h| == 0 {
      RecentEmpty(h, now, window);
      assert |RecentAt(h, now, window)| == 0 by { NoneAt(h, now, now, window); }
    } else {
      var n := |h| - 1;
      var g := h[..n];
      assert h == g + [h[n]];
      RecentCount(g, now, window);
      RecentConcat(g, [h[n]], now, window);
      RecentStep([h[n]], h[n], [], now, window);
      RecentEmpty([], now, window);
      RecentLast(g, h[n], now, window);
      RecentRange(g, now, window);
    }
  }

  lemma RecentRange(h: seq<real>, now: real, window: real)
    ensures |h| !in RecentAt(h, now, window)
  {
  }

  lemma NoneAt(h: seq<real>, a: real, b: real, window: real)
    requires |h| == 0
    ensures RecentAt(h, a, window) == {} && forall closed :: WithinAt(h, a, b, closed) == {}
  {
  }

  lemma WithinRange(h: seq<real>, a: real, b: real, closed: bool)
    ensures |h| !in WithinAt(h, a, b, closed)
  {
  }

  /** `Within` keeps as many times as lie inside. */
  lemma {:induction false} WithinCount(h: seq<real>, a: real, b: real, closed: bool)
    ensures |Within(h, a, b, closed)| == |WithinAt(h, a, b, closed)|
    decreases |h|
  {
    hide WithinAt, Within;
    if |h| == 0 {
      WithinEmpty(h, a, b, closed);
      NoneAt(h, a, b, b);
    } else {
      var n := |h| - 1;
      var g := h[..n];
      assert h == g + [h[n]];
      WithinCount(g, a, b, closed);
      WithinConcat(g, [h[n]], a, b, closed);
      WithinStep([h[n]], h[n], [], a, b, closed);
      WithinEmpty([], a, b, closed);
      WithinLast(g, h[n], a, b, closed);
      WithinRange(g, a, b, closed);
    }
  }
}
