/** In the scanner's output every Latin letter met outside tags, code and isolates is inside an isolate. */
module BidiCover {
  import opened Common
  import opened BidiText
  import opened BidiScan
  import opened BidiRtl
  import opened BidiMarks
  import opened BidiLaws
  import opened BidiRegions

  predicate Inner(c: char) { c != FSI && c != PDI && c != '\n' }

  /** Position `p` lies between an FSI and a PDI on one line, with no other of either in between. */
  ghost predicate Isolated(s: string, p: nat) {
    exists a, b :: Encloses(s, a, p, b)
  }

  predicate Encloses(s: string, a: nat, p: nat, b: nat) {
    a < p < b < |s| && s[a] == FSI && s[b] == PDI && forall q :: a < q < b ==> Inner(s[q])
  }

  ghost predicate Covered(s: string, exposed: seq<bool>) {
    |exposed| == |s| && forall p :: 0 <= p < |s| && exposed[p] && AsciiLetter(s[p]) ==> Isolated(s, p)
  }

  function Fill(n: nat, b: bool): (r: seq<bool>)
    ensures |r| == n && forall i :: 0 <= i < n ==> r[i] == b
  {
    seq(n, i requires 0 <= i < n => b)
  }

  /** Which characters of the scanner's output come from plain text outside code, not from a tag, code
      content or an isolate of the input. */
  function Exposed(u: Unicode, s: string, code: bool): seq<bool>
    decreases |s|
  {
    PlainRun(u, s);
    if s == [] then []
    else if s[0] == FSI then
      var j := IndexOf(s, PDI);
      if j == |s| then Fill(1, false) + Exposed(u, s[1..], code)
      else Fill(j + 1, false) + Exposed(u, s[j + 1..], code)
    else if TagAt(u, s) then Fill(TagEnd(s), false) + Exposed(u, s[TagEnd(s)..], CodeAfter(s, code))
    else
      var n := PlainLength(u, s);
      Fill(if code then n else |Isolate(u, s[..n])|, !code) + Exposed(u, s[n..], code)
  }

  lemma CoveredNone(s: string)
    ensures Covered(s, Fill(|s|, false))
  {
  }

  lemma IsolatedLater(a: string, s: string, p: nat, b: string)
    requires p < |s| && Isolated(s, p)
    ensures Isolated(a + s + b, |a| + p)
  {
    var i, j :| Encloses(s, i, p, j);
    var t := a + s + b;
    assert forall q :: |a| <= q < |a| + |s| ==> t[q] == s[q - |a|];
    assert Encloses(t, |a| + i, |a| + p, |a| + j);
  }

  lemma CoveredConcat(s: string, e: seq<bool>, t: string, f: seq<bool>)
    requires Covered(s, e) && Covered(t, f)
    ensures Covered(s + t, e + f)
  {
    hide Isolated;
    forall p | 0 <= p < |s + t| && (e + f)[p] && AsciiLetter((s + t)[p]) ensures Isolated(s + t, p) {
      if p < |s| {
        IsolatedLater([], s, p, t);
        assert [] + s + t == s + t;
      } else {
        IsolatedLater(s, t, p - |s|, []);
        assert s + t + [] == s + t;
      }
    }
  }

  lemma WrapCovered(run: string)
    requires forall k :: 0 <= k < |run| ==> Inner(run[k])
    ensures Covered(Wrap(run), Fill(|Wrap(run)|, true))
  {
    var w := Wrap(run);
    forall p | 0 <= p < |w| && AsciiLetter(w[p]) ensures Isolated(w, p) {
      assert w == [FSI] + run + [PDI];
      assert Encloses(w, 0, p, |w| - 1);
    }
  }

  lemma {:induction false} IsolateCovered(u: Unicode, seg: string)
    ensures Covered(Isolate(u, seg), Fill(|Isolate(u, seg)|, true))
    decreases |seg|
  {
    hide Lawful, Isolate, MatchLength, Wrap, Covered;
    if seg == [] {
      IsolateEmpty(u);
      CoveredNone([]);
      assert Fill(0, false) == Fill(0, true);
    } else {
      IsolateStep(u, seg);
      var n := MatchLength(u, seg);
      var m := if n == 0 then 1 else n;
      var w := if n == 0 then [seg[0]] else Wrap(seg[..n]);
      var r := Isolate(u, seg[m..]);
      IsolateCovered(u, seg[m..]);
      if n == 0 { CharCovered(seg[0]); } else { WrapCovered(seg[..n]); }
      CoveredConcat(w, Fill(|w|, true), r, Fill(|r|, true));
      assert Fill(|w|, true) + Fill(|r|, true) == Fill(|w + r|, true);
    }
  }

  lemma CharCovered(c: char)
    requires !AsciiLetter(c)
    ensures Covered([c], Fill(1, true))
  {
  }

  lemma ExposedStep(u: Unicode, s: string, code: bool) returns (n: nat, w: string, code': bool)
    requires s != []
    ensures 0 < n <= |s| && Scan(u, s, code) == w + Scan(u, s[n..], code')
    ensures var plain := PlainStart(u, s) && !code;
            && w == (if plain then Isolate(u, s[..n]) else s[..n])
            && Exposed(u, s, code) == Fill(|w|, plain) + Exposed(u, s[n..], code')
  {
    hide TagAt, CodeAfter, Lawful, Isolate, IndexOf, TagEnd, PlainLength;
    ScanStep(u, s, code);
    PlainRun(u, s);
    n, w, code' := 1, s[..1], code;
    if s[0] == FSI {
      if IndexOf(s, PDI) < |s| {
        n := IndexOf(s, PDI) + 1;
        w := s[..n];
      }
    } else if TagAt(u, s) {
      n, code' := TagEnd(s), CodeAfter(s, code);
      w := s[..n];
    } else {
      n := PlainLength(u, s);
      w := if code then s[..n] else Isolate(u, s[..n]);
    }
  }

  /** Every Latin letter the scanner meets outside tags, code and isolates is inside an isolate of its output. */
  lemma {:induction false} ScanCovers(u: Unicode, s: string, code: bool)
    ensures Covered(Scan(u, s, code), Exposed(u, s, code))
    decreases |s|
  {
    hide Scan, Exposed, TagAt, CodeAfter, Lawful, Isolate, Covered;
    if s == [] {
      ScanEmpty(u, code);
      CoveredNone([]);
      assert Exposed(u, [], code) == Fill(0, false) by { ExposedEmpty(u, code); }
    } else {
      var n, w, code' := ExposedStep(u, s, code);
      ScanCovers(u, s[n..], code');
      if PlainStart(u, s) && !code { IsolateCovered(u, s[..n]); } else { CoveredNone(w); }
      CoveredConcat(w, Fill(|w|, PlainStart(u, s) && !code), Scan(u, s[n..], code'), Exposed(u, s[n..], code'));
    }
  }

  lemma ExposedEmpty(u: Unicode, code: bool)
    ensures Exposed(u, [], code) == []
  {
  }

  /** The scanner's output at `p` is inside the isolate of `run`, which arrives whole behind the line pass. */
  predicate ArrivesAs(u: Unicode, s: string, p: nat, x: string, run: string, z: string, a: string, r: string) {
    && Scan(u, s, false) == x + ([FSI] + run + [PDI]) + z && |x| < p <= |x| + |run|
    && (forall q :: 0 <= q < |run| ==> Inner(run[q]))
    && Rtl(u, s) == a + ([FSI] + run + [PDI]) + r && Inserted(x, a) && Inserted(z, r)
  }

  ghost predicate Arrives(u: Unicode, s: string, p: nat) {
    exists x, run, z, a, r :: ArrivesAs(u, s, p, x, run, z, a, r)
  }

  /** So it is in the output of both passes: the isolate around each such letter arrives whole, between the
      rest with marks inserted. */
  lemma RtlCovers(u: Unicode, s: string)
    ensures |Exposed(u, s, false)| == |Scan(u, s, false)|
    ensures forall p :: 0 <= p < |Scan(u, s, false)| && Exposed(u, s, false)[p] && AsciiLetter(Scan(u, s, false)[p])
              ==> Arrives(u, s, p)
  {
    hide Scan, Exposed, MarkLines, Split, Join, Lawful, Inserted, Isolated;
    var o := Scan(u, s, false);
    ScanCovers(u, s, false);
    forall p | 0 <= p < |o| && Exposed(u, s, false)[p] && AsciiLetter(o[p]) ensures Arrives(u, s, p) {
      var x, run, z := Enclosure(o, p);
      var a, r := IsolateArrives(u, x, run, z);
      assert ArrivesAs(u, s, p, x, run, z, a, r);
    }
  }

  lemma Enclosure(o: string, p: nat) returns (x: string, run: string, z: string)
    requires Isolated(o, p)
    ensures o == x + ([FSI] + run + [PDI]) + z && |x| < p <= |x| + |run|
    ensures forall q :: 0 <= q < |run| ==> Inner(run[q])
  {
    var i: nat, j: nat :| Encloses(o, i, p, j);
    x, run, z := o[..i], o[i + 1..j], o[j + 1..];
    assert o == x + ([FSI] + run + [PDI]) + z;
  }

  lemma IsolateArrives(u: Unicode, x: string, run: string, z: string) returns (a: string, r: string)
    requires '\n' !in run
    ensures Marked(u, x + ([FSI] + run + [PDI]) + z, false) == a + ([FSI] + run + [PDI]) + r
    ensures Inserted(x, a) && Inserted(z, r)
  {
    hide Marked, Inserted;
    var w, y := [FSI] + run + [PDI], "";
    a, y, r := MarkedRegion(u, x, w, z, false);
    CalmNone(u, x, w, z, false);
  }
}
