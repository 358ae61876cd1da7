/** Stretches of text that the scanner copies, and what the line pass does to them. */
module BidiRegions {
  import opened Common
  import opened BidiText
  import opened BidiScan
  import opened BidiSettle
  import opened BidiRtl
  import opened BidiMarks
  import opened BidiLaws

  // ----- the line pass, one line at a time -----

  /** The line pass over a text that begins in code or not. */
  function Marked(u: Unicode, s: string, code: bool): string { Join("\n", MarkLines(u, Split(s), code)) }

  lemma MarkedGrown(u: Unicode, s: string, code: bool)
    ensures Inserted(s, Marked(u, s, code))
  {
    hide MarkLines, Split, Join, Inserted;
    MarkLinesGrown(u, Split(s), code);
    JoinSplit(s);
  }

  lemma MarkedLine(u: Unicode, ln: string, code: bool)
    requires '\n' !in ln
    ensures Marked(u, ln, code) == MarkLine(u, ln, code)
  {
    hide MarkLine, Split;
    SplitLine(ln);
  }

  lemma MarkedFirst(u: Unicode, ln: string, r: string, code: bool)
    requires '\n' !in ln
    ensures Marked(u, ln + "\n" + r, code) == MarkLine(u, ln, code) + "\n" + Marked(u, r, LineCode(u, ln, code))
  {
    hide MarkLine, LineCode, Split;
    SplitFirst(ln, r);
    var ls := Split(r);
    assert ([ln] + ls)[1..] == ls;
    var ms := MarkLines(u, ls, LineCode(u, ln, code));
    assert ([MarkLine(u, ln, code)] + ms)[1..] == ms;
  }

  function FirstLine(s: string): string { s[..IndexOf(s, '\n')] }

  /** The line pass's flag after the last line of `s`. */
  function FlagAfter(u: Unicode, s: string, code: bool): bool
    decreases |s|
  {
    var j := IndexOf(s, '\n');
    if j == |s| then LineCode(u, s, code) else FlagAfter(u, s[j + 1..], LineCode(u, s[..j], code))
  }

  /** The line that begins behind the line end at `k` gets no RLM: it is blank, begins in code or with one. */
  predicate Still(u: Unicode, t: string, k: nat, code: bool)
    requires k < |t|
  {
    var ln := FirstLine(t[k + 1..]);
    MarkLine(u, ln, FlagAfter(u, t[..k], code)) == ln
  }

  /** No line that begins inside `t[i..j]` gets an RLM. */
  ghost predicate Calm(u: Unicode, t: string, i: nat, j: nat, code: bool)
    requires i <= j <= |t|
  {
    forall k :: i <= k < j && t[k] == '\n' ==> Still(u, t, k, code)
  }

  /** The first line of a text and what follows it. */
  lemma Cut(s: string) returns (ln: string, rest: string)
    ensures '\n' !in ln
    ensures if '\n' in s then s == ln + "\n" + rest && |rest| < |s| else s == ln
  {
    var j := IndexOf(s, '\n');
    IndexOfIn(s, '\n');
    ln := s[..j];
    if j < |s| {
      rest := s[j + 1..];
      assert s == ln + "\n" + rest;
    } else {
      assert s == ln;
      rest := "";
    }
  }

  lemma FirstLineIs(ln: string, rest: string)
    requires '\n' !in ln
    ensures FirstLine(ln) == ln && FirstLine(ln + "\n" + rest) == ln
  {
    var s := ln + "\n" + rest;
    assert ln + "\n" + rest == ln + ("\n" + rest);
    IndexOfIs(ln, '\n', |ln|);
    IndexOfIs(s, '\n', |ln|);
    assert s[..|ln|] == ln && ln[..|ln|] == ln;
  }

  lemma FlagFirst(u: Unicode, ln: string, rest: string, code: bool)
    requires '\n' !in ln
    ensures FlagAfter(u, ln, code) == LineCode(u, ln, code)
    ensures FlagAfter(u, ln + "\n" + rest, code) == FlagAfter(u, rest, LineCode(u, ln, code))
  {
    hide LineCode;
    var s := ln + "\n" + rest;
    IndexOfIs(ln, '\n', |ln|);
    IndexOfIs(s, '\n', |ln|);
    assert s[..|ln|] == ln && s[|ln| + 1..] == rest;
  }

  lemma StillLater(u: Unicode, ln: string, t: string, k: nat, code: bool)
    requires '\n' !in ln && k < |t|
    ensures Still(u, ln + "\n" + t, |ln| + 1 + k, code) == Still(u, t, k, LineCode(u, ln, code))
  {
    hide LineCode, FlagAfter, MarkLine, FirstLine;
    var s := ln + "\n" + t;
    FlagFirst(u, ln, t[..k], code);
    assert s[|ln| + 1 + k + 1..] == t[k + 1..];
    assert s[..|ln| + 1 + k] == ln + "\n" + t[..k];
  }

  lemma CalmLater(u: Unicode, ln: string, t: string, i: nat, j: nat, code: bool)
    requires '\n' !in ln && i <= j <= |t|
    ensures Calm(u, ln + "\n" + t, |ln| + 1 + i, |ln| + 1 + j, code) == Calm(u, t, i, j, LineCode(u, ln, code))
  {
    hide LineCode, Still;
    var s, d := ln + "\n" + t, |ln| + 1;
    assert forall k :: d <= k < |s| ==> s[k] == t[k - d];
    if Calm(u, s, d + i, d + j, code) {
      forall k | i <= k < j && t[k] == '\n' ensures Still(u, t, k, LineCode(u, ln, code)) {
        assert s[d + k] == '\n';
        StillLater(u, ln, t, k, code);
      }
    }
    if Calm(u, t, i, j, LineCode(u, ln, code)) {
      forall k | d + i <= k < d + j && s[k] == '\n' ensures Still(u, s, k, code) {
        StillLater(u, ln, t, k - d, code);
      }
    }
  }

  // ----- a stretch of lines -----

  /** What the line pass puts before the start of a line. */
  function Lead(u: Unicode, ln: string, code: bool): string { if MarkLine(u, ln, code) == ln then "" else [RLM] }

  lemma LeadIs(u: Unicode, ln: string, code: bool)
    ensures MarkLine(u, ln, code) == Lead(u, ln, code) + ln
  {
  }

  lemma LeadGrown(u: Unicode, ln: string, code: bool, x: string)
    ensures Inserted(x, Lead(u, ln, code) + x)
  {
    InsertedSelf(x);
    InsertedMark(x, RLM, x);
    assert "" + x == x;
  }

  /** A stretch `y` without line end on the first line. */
  lemma MarkedOneLine(u: Unicode, x: string, y: string, p: string, code: bool) returns (r: string)
    requires '\n' !in x && '\n' !in y
    ensures Marked(u, x + y + p, code) == Lead(u, FirstLine(x + y + p), code) + x + y + r && Inserted(p, r)
  {
    hide Marked, LineCode, MarkLine, FirstLine, Inserted, Lead;
    var ln, rest := Cut(p);
    var first := x + y + ln;
    FirstLineIs(first, rest);
    LeadIs(u, first, code);
    if '\n' in p {
      MarkedFirst(u, first, rest, code);
      assert x + y + p == first + "\n" + rest;
      var m := Marked(u, rest, LineCode(u, first, code));
      r := ln + "\n" + m;
      assert Lead(u, first, code) + first + "\n" + m == Lead(u, first, code) + x + y + r;
      MarkedGrown(u, rest, LineCode(u, first, code));
      InsertedSelf(ln + "\n");
      InsertedConcat(ln + "\n", ln + "\n", rest, m);
    } else {
      assert x + y + p == first;
      MarkedLine(u, first, code);
      r := p;
      assert Lead(u, first, code) + first == Lead(u, first, code) + x + y + r;
      InsertedSelf(p);
    }
  }

  /** A stretch `y` that begins on the first line: it passes unchanged exactly if no line in it gets an RLM. */
  lemma {:induction false} MarkedStretch(u: Unicode, x: string, y: string, p: string, code: bool)
    returns (y': string, r: string)
    requires '\n' !in x
    ensures Marked(u, x + y + p, code) == Lead(u, FirstLine(x + y + p), code) + x + y' + r
    ensures Inserted(y, y') && Inserted(p, r)
    ensures y' == y <==> Calm(u, x + y + p, |x|, |x| + |y|, code)
    decreases |y|
  {
    hide Marked, LineCode, MarkLine, FirstLine, Inserted, Lead, Calm;
    var ln, rest := Cut(y);
    if '\n' !in y {
      r := MarkedOneLine(u, x, y, p, code);
      y' := y;
      InsertedSelf(y);
      CalmNone(u, x, y, p, code);
    } else {
      var first, t := x + ln, rest + p;
      var code' := LineCode(u, first, code);
      var z: string;
      z, r := MarkedStretch(u, "", rest, p, code');
      assert "" + rest + p == t;
      var lead := Lead(u, FirstLine(t), code');
      y' := ln + "\n" + (lead + z);
      MarkedFirst(u, first, t, code);
      FirstLineIs(first, t);
      LeadIs(u, first, code);
      assert x + y + p == first + "\n" + t;
      assert Lead(u, first, code) + "" + z == Lead(u, first, code) + z;
      StretchText(Lead(u, first, code), x, ln, lead, z, r);
      StretchGrown(u, ln, rest, FirstLine(t), code', z);
      CalmFirst(u, x, ln, rest, p, code);
      StretchSame(u, ln, rest, FirstLine(t), code', z);
    }
  }

  lemma CalmNone(u: Unicode, x: string, y: string, p: string, code: bool)
    requires '\n' !in y
    ensures Calm(u, x + y + p, |x|, |x| + |y|, code)
  {
    hide Still;
    var t := x + y + p;
    assert forall k :: |x| <= k < |x| + |y| ==> t[k] == y[k - |x|];
  }

  lemma StretchText(l: string, x: string, ln: string, lead: string, z: string, r: string)
    ensures l + (x + ln) + "\n" + (lead + "" + z + r) == l + x + (ln + "\n" + (lead + z)) + r
  {
  }

  lemma StretchGrown(u: Unicode, ln: string, rest: string, first: string, code: bool, z: string)
    requires Inserted(rest, z)
    ensures Inserted(ln + "\n" + rest, ln + "\n" + (Lead(u, first, code) + z))
  {
    hide Inserted, Lead;
    LeadGrown(u, first, code, z);
    InsertedTrans(rest, z, Lead(u, first, code) + z);
    InsertedSelf(ln + "\n");
    InsertedConcat(ln + "\n", ln + "\n", rest, Lead(u, first, code) + z);
  }

  lemma StretchSame(u: Unicode, ln: string, rest: string, first: string, code: bool, z: string)
    requires Inserted(rest, z)
    ensures ln + "\n" + (Lead(u, first, code) + z) == ln + "\n" + rest
            <==> MarkLine(u, first, code) == first && z == rest
  {
    hide Inserted, MarkLine;
    InsertedLength(rest, z);
    var l := Lead(u, first, code);
    assert |ln + "\n" + (l + z)| == |ln| + 1 + |l| + |z|;
    if l == "" {
      assert l + z == z;
      assert (ln + "\n" + z)[|ln| + 1..] == z && (ln + "\n" + rest)[|ln| + 1..] == rest;
    }
  }

  lemma CalmSplit(u: Unicode, s: string, i: nat, m: nat, j: nat, code: bool)
    requires i <= m < j <= |s| && s[m] == '\n' && forall k :: i <= k < m ==> s[k] != '\n'
    ensures Calm(u, s, i, j, code) <==> Still(u, s, m, code) && Calm(u, s, m + 1, j, code)
  {
    hide Still;
  }

  lemma StillFirst(u: Unicode, ln: string, t: string, code: bool)
    requires '\n' !in ln
    ensures Still(u, ln + "\n" + t, |ln|, code) == (MarkLine(u, FirstLine(t), LineCode(u, ln, code)) == FirstLine(t))
  {
    hide LineCode, MarkLine, FirstLine, FlagAfter;
    FlagFirst(u, ln, "", code);
    var s := ln + "\n" + t;
    assert s[..|ln|] == ln && s[|ln| + 1..] == t;
  }

  /** Calm from the first line end on. */
  lemma CalmFirst(u: Unicode, x: string, ln: string, rest: string, p: string, code: bool)
    requires '\n' !in x && '\n' !in ln
    ensures var code' := LineCode(u, x + ln, code);
            var t := rest + p;
            Calm(u, x + (ln + "\n" + rest) + p, |x|, |x| + |ln + "\n" + rest|, code)
            <==> MarkLine(u, FirstLine(t), code') == FirstLine(t) && Calm(u, "" + rest + p, 0, |rest|, code')
  {
    hide LineCode, MarkLine, FirstLine, Still, Calm;
    var first, t := x + ln, rest + p;
    var s := first + "\n" + t;
    assert x + (ln + "\n" + rest) + p == s && "" + rest + p == t;
    StillFirst(u, first, t, code);
    CalmLater(u, first, t, 0, |rest|, code);
    assert forall k :: 0 <= k < |first| ==> s[k] == first[k];
    CalmSplit(u, s, |x|, |first|, |first| + 1 + |rest|, code);
  }

  /** Any stretch of a text: the line pass inserts RLMs only, and none into the stretch exactly if it is calm. */
  lemma {:induction false} MarkedRegion(u: Unicode, x: string, y: string, p: string, code: bool)
    returns (a: string, y': string, r: string)
    ensures Marked(u, x + y + p, code) == a + y' + r
    ensures Inserted(x, a) && Inserted(y, y') && Inserted(p, r)
    ensures y' == y <==> Calm(u, x + y + p, |x|, |x| + |y|, code)
    decreases |x|
  {
    hide Marked, LineCode, MarkLine, FirstLine, Inserted, Lead, Calm;
    var ln, rest := Cut(x);
    if '\n' !in x {
      y', r := MarkedStretch(u, x, y, p, code);
      a := Lead(u, FirstLine(x + y + p), code) + x;
      LeadGrown(u, FirstLine(x + y + p), code, x);
    } else {
      var b: string;
      b, y', r := MarkedRegion(u, rest, y, p, LineCode(u, ln, code));
      var t := rest + y + p;
      MarkedFirst(u, ln, t, code);
      assert x + y + p == ln + "\n" + t;
      a := MarkLine(u, ln, code) + "\n" + b;
      assert MarkLine(u, ln, code) + "\n" + (b + y' + r) == a + y' + r;
      CalmLater(u, ln, t, |rest|, |rest| + |y|, code);
      RegionGrown(u, ln, rest, code, b);
    }
  }

  lemma RegionGrown(u: Unicode, ln: string, rest: string, code: bool, b: string)
    requires Inserted(rest, b)
    ensures Inserted(ln + "\n" + rest, MarkLine(u, ln, code) + "\n" + b)
  {
    hide Inserted, MarkLine;
    MarkLineGrown(u, ln, code);
    InsertedSelf("\n");
    InsertedConcat(ln, MarkLine(u, ln, code), "\n", "\n");
    InsertedConcat(ln + "\n", MarkLine(u, ln, code) + "\n", rest, b);
  }

  // ----- positions the scanner reaches -----

  /** The scanner's next token on `s`: its length and the flag after it. */
  function Token(u: Unicode, s: string, code: bool): (r: (nat, bool))
    requires s != []
    ensures 0 < r.0 <= |s|
  {
    PlainRun(u, s);
    if s[0] == FSI then (if IndexOf(s, PDI) < |s| then IndexOf(s, PDI) + 1 else 1, code)
    else if TagAt(u, s) then (TagEnd(s), CodeAfter(s, code))
    else (PlainLength(u, s), code)
  }

  /** The scanner, started on `s` with flag `code`, comes to position `n` with flag `code'`. */
  predicate Reaches(u: Unicode, s: string, code: bool, n: nat, code': bool)
    decreases n
  {
    if n == 0 then code == code'
    else s != [] && var (m, c) := Token(u, s, code); m <= n && Reaches(u, s[m..], c, n - m, code')
  }

  /** What the scanner emits for its next token. */
  function EmittedToken(u: Unicode, s: string, code: bool): string
    requires s != []
  {
    var m := Token(u, s, code).0;
    if PlainStart(u, s) && !code then Isolate(u, s[..m]) else s[..m]
  }

  /** What the scanner has emitted when it comes to position `n`. */
  function Emitted(u: Unicode, s: string, code: bool, n: nat): string
    decreases n
  {
    if n == 0 || s == [] then []
    else
      var (m, c) := Token(u, s, code);
      if m > n then [] else EmittedToken(u, s, code) + Emitted(u, s[m..], c, n - m)
  }

  lemma TokenScan(u: Unicode, s: string, code: bool)
    requires s != []
    ensures var (m, c) := Token(u, s, code);
            && Scan(u, s, code) == EmittedToken(u, s, code) + Scan(u, s[m..], c)
            && Inserted(s[..m], EmittedToken(u, s, code))
  {
    hide Scan, TagAt, CodeAfter, Lawful, Isolate, Inserted, PlainLength, TagEnd;
    ScanStep(u, s, code);
    var m := Token(u, s, code).0;
    assert s[..1] == [s[0]];
    IsolateGrown(u, s[..m]);
    InsertedSelf(s[..m]);
  }

  /** Up to a position it reaches, the scanner emits the text so far and marks. */
  lemma {:induction false} ReachesScan(u: Unicode, s: string, code: bool, n: nat, code': bool)
    requires n <= |s| && Reaches(u, s, code, n, code')
    ensures Scan(u, s, code) == Emitted(u, s, code, n) + Scan(u, s[n..], code')
    ensures Inserted(s[..n], Emitted(u, s, code, n))
    decreases n
  {
    hide Scan, Token, Lawful, Inserted, EmittedToken, TagAt, IndexOf;
    if n == 0 {
      assert s[0..] == s && s[..0] == [];
      InsertedSelf([]);
    } else {
      var (m, c) := Token(u, s, code);
      TokenScan(u, s, code);
      ReachesScan(u, s[m..], c, n - m, code');
      var w, v := EmittedToken(u, s, code), Emitted(u, s[m..], c, n - m);
      assert Emitted(u, s, code, n) == w + v;
      hide Emitted, Reaches;
      DropTake(s, m, n);
      Compose(s[..m], w, s[m..][..n - m], v, Scan(u, s[n..], code'));
    }
  }

  lemma Compose(a: string, w: string, b: string, v: string, p: string)
    requires Inserted(a, w) && Inserted(b, v)
    ensures Inserted(a + b, w + v) && w + (v + p) == w + v + p
  {
    hide Inserted;
    InsertedConcat(a, w, b, v);
  }

  lemma DropTake(s: string, m: nat, n: nat)
    requires m <= n <= |s|
    ensures s[m..][n - m..] == s[n..] && s[..n] == s[..m] + s[m..][..n - m]
  {
  }

  // ----- what passes through untouched -----

  /** Where a stretch the scanner copies lands in the scanner's output. */
  ghost predicate CalmAt(u: Unicode, pre: string, y: string, post: string)
  {
    var t := Scan(u, pre + (y + post), false);
    var n := |Emitted(u, pre + (y + post), false, |pre|)|;
    n + |y| <= |t| && Calm(u, t, n, n + |y|, false)
  }

  /** A stretch the scanner copies passes both passes with RLMs inserted at most, and unchanged exactly if no
      line that begins inside it gets one. */
  lemma CopiedRegion(u: Unicode, pre: string, y: string, post: string, code: bool, code': bool)
    returns (a: string, y': string, r: string)
    requires Reaches(u, pre + (y + post), false, |pre|, code) && Scan(u, y + post, code) == y + Scan(u, post, code')
    ensures Rtl(u, pre + y + post) == a + y' + r
    ensures Inserted(pre, a) && Inserted(y, y') && Inserted(post, r)
    ensures y' == y <==> CalmAt(u, pre, y, post)
    ensures '\n' !in y ==> y' == y
  {
    hide Scan, Lawful, MarkLines, Split, Join, Reaches, Emitted, Inserted, Calm;
    var s := pre + (y + post);
    assert pre + y + post == s && s[|pre|..] == y + post && s[..|pre|] == pre;
    ReachesScan(u, s, false, |pre|, code);
    var x, p := Emitted(u, s, false, |pre|), Scan(u, post, code');
    assert Scan(u, s, false) == x + y + p;
    a, y', r := MarkedRegion(u, x, y, p, false);
    ScanGrown(u, post, code');
    InsertedTrans(pre, x, a);
    InsertedTrans(post, p, r);
    if '\n' !in y { CalmNone(u, x, y, p, false); }
  }

  /** The next token, if it is a tag, an isolate or code content, is such a stretch. */
  lemma CopiedExact(u: Unicode, pre: string, y: string, post: string, code: bool)
    returns (a: string, y': string, r: string)
    requires Reaches(u, pre + (y + post), false, |pre|, code)
    requires y != [] && Token(u, y + post, code).0 == |y| && (code || !PlainStart(u, y + post))
    ensures Rtl(u, pre + y + post) == a + y' + r
    ensures Inserted(pre, a) && Inserted(y, y') && Inserted(post, r)
    ensures y' == y <==> CalmAt(u, pre, y, post)
    ensures '\n' !in y ==> y' == y
  {
    hide Scan, Lawful, Reaches, Rtl, Inserted, CalmAt, PlainStart, Token;
    TokenScan(u, y + post, code);
    assert (y + post)[..|y|] == y && (y + post)[|y|..] == post;
    a, y', r := CopiedRegion(u, pre, y, post, code, Token(u, y + post, code).1);
  }

  /** A tag over two lines, at the start of a text, does get an RLM inside. */
  lemma SplitTag(u: Unicode, ln: string, rest: string, post: string) returns (r: string)
    requires var y := ln + "\n" + rest; TagAt(u, y + post) && TagEnd(y + post) == |y|
    requires ln != "" && '>' !in ln && '\n' !in ln
    requires rest != "" && '\n' !in rest && rest[0] != RLM && !u.space(rest[0])
    ensures Rtl(u, ln + "\n" + rest + post) == [RLM] + ln + "\n" + [RLM] + rest + r
  {
    hide Scan, TagAt, TagEnd, CodeAfter, Lawful, MarkLines, Split, Join, LineCode, MarkLine;
    var y := ln + "\n" + rest;
    var s := y + post;
    TagFirst(u, s);
    ScanStep(u, s, false);
    assert s[0] == ln[0] && s[..|y|] == y && s[|y|..] == post;
    var p := Scan(u, post, CodeAfter(s, false));
    assert y + p == ln + "\n" + (rest + p);
    MarkedFirst(u, ln, rest + p, false);
    NoCodeTag(u, ln, false);
    AngleLine(u, ln);
    r := SecondLine(u, rest, p);
    assert [RLM] + ln + "\n" + ([RLM] + rest + r) == [RLM] + ln + "\n" + [RLM] + rest + r;
  }

  /** For example `<a`, line end, `href="x">`. */
  lemma SplitAnchor(u: Unicode, post: string) returns (r: string)
    ensures Rtl(u, "<a" + "\n" + "href=\"x\">" + post) == [RLM] + "<a" + "\n" + [RLM] + "href=\"x\">" + r
  {
    hide Rtl;
    var y := "<a" + "\n" + "href=\"x\">";
    var s := y + post;
    assert s[1..][0] == 'a' && s[1..][1] == '\n';
    assert s[1..][..1] == "a" && FoldAll("a") == "a";
    assert Boundary(u, s[1..], 1);
    assert NameAt(u, s[1..]);
    assert forall i :: 0 <= i < 11 ==> s[i] == y[i];
    IndexOfIs(s, '>', 11);
    r := SplitTag(u, "<a", "href=\"x\">", post);
  }

  lemma SecondLine(u: Unicode, rest: string, p: string) returns (r: string)
    requires rest != "" && '\n' !in rest && rest[0] != RLM && !u.space(rest[0])
    ensures Marked(u, rest + p, false) == [RLM] + rest + r
  {
    hide Marked, FirstLine;
    r := MarkedOneLine(u, "", rest, p, false);
    assert "" + rest + p == rest + p;
    var first := FirstLine(rest + p);
    FirstHead(rest, p);
    assert !u.space(first[0]) && !Blank(u, first);
    assert Lead(u, first, false) == [RLM];
    assert [RLM] + "" + rest + r == [RLM] + rest + r;
  }

  lemma AngleLine(u: Unicode, ln: string)
    requires ln != "" && ln[0] == '<'
    ensures MarkLine(u, ln, false) == [RLM] + ln
  {
    assert !u.space(ln[0]);
  }

  lemma TagFirst(u: Unicode, s: string)
    requires TagAt(u, s)
    ensures s[0] == '<'
  {
  }

  lemma FirstHead(rest: string, p: string)
    requires rest != "" && '\n' !in rest
    ensures FirstLine(rest + p) != "" && FirstLine(rest + p)[0] == rest[0]
  {
    assert rest[0] in rest;
    assert (rest + p)[0] == rest[0];
  }

  /** A line without `>` holds no complete code tag. */
  lemma {:induction false} NoCodeTag(u: Unicode, ln: string, code: bool)
    requires '>' !in ln
    ensures LineCode(u, ln, code) == code
  {
    hide CodeName;
    if ln != [] { NoCodeTag(u, ln[1..], code); }
  }
}
