/** Which lines get an RLM, in terms of the text alone. */
module BidiLines {
  import opened Common
  import opened BidiText
  import opened BidiScan
  import opened BidiSettle
  import opened BidiRtl
  import opened BidiMarks
  import opened BidiLaws
  import opened BidiRegions
  import opened BidiCode

  // ----- texts without code tags -----

  /** `c` is the lower-case letter or the symbol `d`, in either case. */
  predicate EitherCase(c: char, d: char) { c == d || ('A' <= c <= 'Z' && c as int + 32 == d as int) }

  predicate HeadAt(x: string, k: nat, head: string) {
    k + |head| <= |x| && forall i :: 0 <= i < |head| ==> EitherCase(x[k + i], head[i])
  }

  /** What begins a code tag stands at position `k`. */
  predicate CodeHeadAt(x: string, k: nat) {
    HeadAt(x, k, "<code") || HeadAt(x, k, "<pre") || HeadAt(x, k, "</code") || HeadAt(x, k, "</pre")
  }

  ghost predicate CodeFree(x: string) { forall k: nat :: !CodeHeadAt(x, k) }

  lemma CodeFreeDrop(x: string, y: string, d: nat)
    requires CodeFree(x) && d + |y| <= |x| && y == x[d..d + |y|]
    ensures CodeFree(y)
  {
    hide HeadAt;
    forall k: nat | CodeHeadAt(y, k) ensures CodeHeadAt(x, d + k) {
      HeadMoved(x, y, d, k, "<code");
      HeadMoved(x, y, d, k, "<pre");
      HeadMoved(x, y, d, k, "</code");
      HeadMoved(x, y, d, k, "</pre");
    }
  }

  lemma HeadMoved(x: string, y: string, d: nat, k: nat, head: string)
    requires d + |y| <= |x| && y == x[d..d + |y|]
    ensures HeadAt(y, k, head) ==> HeadAt(x, d + k, head)
  {
  }

  lemma FoldedHead(t: string, name: string)
    requires StartsFold(t, name) && (name == "code" || name == "pre")
    ensures HeadAt(t, 0, name)
  {
    forall i | 0 <= i < |name| ensures EitherCase(t[i], name[i]) {
      assert FoldAll(t[..|name|])[i] == Fold(t[i]);
    }
  }

  lemma HeadBehind(s: string, d: nat, name: string, head: string)
    requires d <= |s| && HeadAt(s[d..], 0, name) && |head| == d + |name|
    requires forall i :: 0 <= i < |head| ==> head[i] == if i < d then s[i] else name[i - d]
    ensures HeadAt(s, 0, head)
  {
    forall i | 0 <= i < |head| ensures EitherCase(s[i], head[i]) {
      assert i >= d ==> s[i] == s[d..][i - d];
    }
  }

  lemma TagHead(u: Unicode, s: string)
    requires CodeTagAt(u, s)
    ensures CodeHeadAt(s, 0)
  {
    hide Lawful, StartsFold, Boundary, HeadAt;
    var d := if CodeName(u, s[1..]) then 1 else 2;
    var t := s[d..];
    if StartsFold(t, "code") {
      FoldedHead(t, "code");
      HeadBehind(s, d, "code", if d == 1 then "<code" else "</code");
    } else {
      FoldedHead(t, "pre");
      HeadBehind(s, d, "pre", if d == 1 then "<pre" else "</pre");
    }
  }

  lemma {:induction false} LineCodeNone(u: Unicode, ln: string, code: bool)
    requires CodeFree(ln)
    ensures LineCode(u, ln, code) == code
  {
    hide CodeTagAt, CodeHeadAt;
    if ln != [] {
      if CodeTagAt(u, ln) { TagHead(u, ln); }
      CodeFreeDrop(ln, ln[1..], 1);
      LineCodeNone(u, ln[1..], code);
    }
  }

  /** Text without code tags does not change the line pass's flag. */
  lemma {:induction false} FlagNone(u: Unicode, x: string, code: bool)
    requires CodeFree(x)
    ensures FlagAfter(u, x, code) == code
    decreases |x|
  {
    hide LineCode, FlagAfter, CodeHeadAt;
    var ln, rest := Cut(x);
    if '\n' in x {
      CodeFreeDrop(x, ln, 0);
      CodeFreeDrop(x, rest, |ln| + 1);
      LineCodeNone(u, ln, code);
      FlagFirst(u, ln, rest, code);
      FlagNone(u, rest, code);
    } else {
      LineCodeNone(u, x, code);
      FlagFirst(u, x, "", code);
    }
  }

  // ----- the last code tag decides -----

  /** Every `<` on the last line of `x` is closed there. */
  ghost predicate Closed(x: string) {
    forall i :: 0 <= i < |x| && x[i] == '<' && '\n' !in x[i..] ==> '>' in x[i..]
  }

  lemma ClosedDrop(x: string, d: nat)
    requires Closed(x) && d <= |x|
    ensures Closed(x[d..])
  {
    forall i | 0 <= i < |x[d..]| && x[d..][i] == '<' && '\n' !in x[d..][i..] ensures '>' in x[d..][i..] {
      assert x[d..][i..] == x[d + i..];
    }
  }

  lemma TagInside(u: Unicode, a: string, b: string)
    requires a != [] && '\n' !in a && Closed(a) && CodeTagAt(u, a + b)
    ensures TagEnd(a + b) <= |a|
  {
    assert a[0..] == a && (a + b)[0] == a[0];
    var k :| 0 <= k < |a| && a[k] == '>';
    assert (a + b)[k] == '>';
  }

  lemma CodeTagLength(u: Unicode, s: string)
    requires CodeTagAt(u, s)
    ensures |s| > 1
  {
  }

  lemma {:induction false} LineTag(u: Unicode, a: string, tag: string, r: string, code: bool)
    requires CodeTag(u, tag) && '\n' !in a && Closed(a)
    ensures LineCode(u, a + tag + r, code) == LineCode(u, r, tag[1] != '/')
    decreases |a|
  {
    hide CodeTag, CodeTagAt, TagEnd, Closed;
    var s := a + tag + r;
    assert s == a + (tag + r);
    if a == [] {
      assert s == tag + r;
      LineCodeTag(u, tag, r, code);
    } else {
      var n, code' := 1, code;
      if CodeTagAt(u, s) {
        TagInside(u, a, tag + r);
        assert |s| > 1 by { CodeTagLength(u, s); }
        n, code' := TagEnd(s), s[1] != '/';
      }
      ClosedDrop(a, n);
      LineTag(u, a[n..], tag, r, code');
      assert s[n..] == a[n..] + tag + r;
    }
  }

  lemma TagLength(u: Unicode, tag: string)
    requires CodeTag(u, tag)
    ensures |tag| > 1
  {
  }

  lemma FlagTagLine(u: Unicode, x: string, tag: string, z: string, code: bool)
    requires CodeTag(u, tag) && '\n' !in x && Closed(x)
    ensures FlagAfter(u, x + tag + z, code) == FlagAfter(u, z, tag[1] != '/')
  {
    hide LineCode, FlagAfter, CodeTag, Closed;
    OpenLine(u, tag);
    TagLength(u, tag);
    var zl, zr := Cut(z);
    LineTag(u, x, tag, zl, code);
    FlagFirst(u, x + tag + zl, zr, code);
    FlagFirst(u, zl, zr, tag[1] != '/');
    LineAssoc(x + tag, zl, zr);
  }

  lemma LineAssoc(x: string, ln: string, rest: string)
    ensures x + (ln + "\n" + rest) == x + ln + "\n" + rest
  {
  }

  lemma RestAssoc(ln: string, rest: string, tag: string, z: string)
    ensures ln + "\n" + rest + tag + z == ln + "\n" + (rest + tag + z)
  {
  }

  /** Behind a code tag the line pass's flag is what the tag says, whatever came before. */
  lemma {:induction false} FlagTag(u: Unicode, x: string, tag: string, z: string, code: bool)
    requires CodeTag(u, tag) && Closed(x)
    ensures FlagAfter(u, x + tag + z, code) == FlagAfter(u, z, tag[1] != '/')
    decreases |x|
  {
    hide LineCode, FlagAfter, CodeTag, Closed;
    assert |tag| > 1 by { TagLength(u, tag); }
    if '\n' in x {
      var ln, rest := Cut(x);
      ClosedDrop(x, |ln| + 1);
      assert x[|ln| + 1..] == rest;
      FlagTag(u, rest, tag, z, LineCode(u, ln, code));
      RestAssoc(ln, rest, tag, z);
      FlagFirst(u, ln, rest + tag + z, code);
    } else {
      FlagTagLine(u, x, tag, z, code);
    }
  }

  /** A tag closes all that is open before it. */
  lemma ClosedBehind(x: string, tag: string, c: string)
    requires tag != "" && tag[|tag| - 1] == '>' && '<' !in c
    ensures Closed(x + tag + c)
  {
    var t, n := x + tag + c, |x + tag| - 1;
    assert t[n] == '>';
    forall i | 0 <= i < |t| && t[i] == '<' ensures '>' in t[i..] {
      assert forall k :: n < k < |t| ==> t[k] == c[k - n - 1];
      assert t[i..][n - i] == '>';
    }
  }

  // ----- marks and lines -----

  /** The characters of a text with marks inserted. */
  lemma {:induction false} InsertedKeeps(s: string, t: string, c: char)
    requires Inserted(s, t) && c in s
    ensures c in t
  {
    assert t == [t[0]] + t[1..];
    if IsMark(t[0]) && Inserted(s, t[1..]) {
      InsertedKeeps(s, t[1..], c);
    } else {
      assert s == [s[0]] + s[1..];
      if c != s[0] { InsertedKeeps(s[1..], t[1..], c); }
    }
  }

  /** Marks go before, behind or between: a text with a line end still splits there. */
  lemma {:induction false} InsertedSplit(a: string, b: string, t: string) returns (a': string, b': string)
    requires Inserted(a + "\n" + b, t)
    ensures t == a' + "\n" + b' && Inserted(a, a') && Inserted(b, b')
    decreases |t|
  {
    hide IsMark;
    var s := a + "\n" + b;
    if IsMark(t[0]) && Inserted(s, t[1..]) {
      a', b' := InsertedSplit(a, b, t[1..]);
      assert t == [t[0]] + a' + "\n" + b';
      InsertedMark(a, t[0], a');
      a' := [t[0]] + a';
    } else if a == [] {
      assert s[0] == '\n' && s[1..] == b;
      a', b' := [], t[1..];
    } else {
      assert s[0] == a[0] && s[1..] == a[1..] + "\n" + b;
      a', b' := InsertedSplit(a[1..], b, t[1..]);
      assert t == [a[0]] + a' + "\n" + b';
      assert ([a[0]] + a')[1..] == a';
      a' := [a[0]] + a';
    }
  }

  lemma HeadDrop(t: string, k: nat, head: string)
    requires 0 < k && t != ""
    ensures HeadAt(t[1..], k - 1, head) == HeadAt(t, k, head)
  {
    if k + |head| <= |t| {
      forall i | 0 <= i < |head| ensures EitherCase(t[1..][k - 1 + i], head[i]) == EitherCase(t[k + i], head[i]) {
        assert t[1..][k - 1 + i] == t[k + i];
      }
    }
  }

  lemma {:induction false} InsertedAt(s: string, t: string, k: nat, head: string)
    requires Inserted(s, t) && HeadAt(t, k, head) && head != "" && NoMarks(head)
    ensures exists i: nat :: HeadAt(s, i, head)
  {
    hide IsMark, NoMarks;
    if k == 0 {
      InsertedHere(s, t, head);
      assert HeadAt(s, 0, head);
    } else {
      HeadDrop(t, k, head);
      if IsMark(t[0]) && Inserted(s, t[1..]) {
        InsertedAt(s, t[1..], k - 1, head);
      } else {
        InsertedAt(s[1..], t[1..], k - 1, head);
        var i: nat :| HeadAt(s[1..], i, head);
        HeadDrop(s, i + 1, head);
      }
    }
  }

  /** No character matches a mark in either case. */
  predicate NoMarks(head: string) { forall i, c :: 0 <= i < |head| && EitherCase(c, head[i]) ==> !IsMark(c) }

  lemma {:induction false} InsertedHere(s: string, t: string, head: string)
    requires Inserted(s, t) && HeadAt(t, 0, head) && NoMarks(head)
    ensures HeadAt(s, 0, head)
  {
    hide IsMark;
    if head != "" {
      assert EitherCase(t[0], head[0]);
      forall i | 0 <= i < |head[1..]| ensures EitherCase(t[1..][i], head[1..][i]) {
        assert t[1..][i] == t[0 + (i + 1)] && head[1..][i] == head[i + 1];
      }
      InsertedHere(s[1..], t[1..], head[1..]);
      forall i | 0 <= i < |head| ensures EitherCase(s[i], head[i]) {
        if i > 0 { assert s[i] == s[1..][i - 1] && head[i] == head[1..][i - 1]; }
      }
    }
  }

  /** Inserting marks makes no code tag. */
  lemma CodeFreeInserted(s: string, t: string)
    requires CodeFree(s) && Inserted(s, t)
    ensures CodeFree(t)
  {
    hide Inserted, HeadAt, NoMarks;
    forall k: nat | CodeHeadAt(t, k) ensures exists i: nat :: CodeHeadAt(s, i) {
      var head := if HeadAt(t, k, "<code") then "<code" else if HeadAt(t, k, "<pre") then "<pre"
                  else if HeadAt(t, k, "</code") then "</code" else "</pre";
      assert NoMarks(head) by { HeadsUnmarked(); }
      InsertedAt(s, t, k, head);
      var i: nat :| HeadAt(s, i, head);
      assert CodeHeadAt(s, i);
    }
  }

  lemma HeadsUnmarked()
    ensures NoMarks("<code") && NoMarks("<pre") && NoMarks("</code") && NoMarks("</pre")
  {
  }

  // ----- what the line pass does behind a text -----

  /** The line pass up to a line end, and behind it. */
  lemma {:induction false} MarkedBehind(u: Unicode, x: string, rest: string, code: bool) returns (a: string)
    ensures Marked(u, x + "\n" + rest, code) == a + "\n" + Marked(u, rest, FlagAfter(u, x, code))
    ensures Inserted(x, a)
    decreases |x|
  {
    hide Marked, LineCode, FlagAfter, MarkLine, Inserted;
    var ln, more := Cut(x);
    if '\n' in x {
      var b := MarkedBehind(u, more, rest, LineCode(u, ln, code));
      var t := more + "\n" + rest;
      MarkedFirst(u, ln, t, code);
      FlagFirst(u, ln, more, code);
      a := MarkLine(u, ln, code) + "\n" + b;
      assert x + "\n" + rest == ln + "\n" + t;
      RegionGrown(u, ln, more, code, b);
    } else {
      MarkedFirst(u, x, rest, code);
      FlagFirst(u, x, "", code);
      a := MarkLine(u, x, code);
      MarkLineGrown(u, x, code);
    }
  }

  predicate Ends(post: string) { post == "" || post[0] == '\n' }

  /** Outside code, the line pass puts an RLM before a line that is not blank, unless it has one. */
  lemma MarkedHead(u: Unicode, ln: string, post: string, t: string)
    requires '\n' !in ln && (exists c :: c in ln && !u.space(c)) && Ends(post) && Inserted(ln + post, t)
    ensures var r := Marked(u, t, false); r != [] && r[0] == RLM && Inserted(ln + post, r)
  {
    hide Marked, Inserted, LineCode;
    var first, rest := t, "";
    if post == "" {
      assert ln + post == ln;
      InsertedChars(ln, t, '\n') by { assert !IsMark('\n'); }
      MarkedLine(u, first, false);
    } else {
      assert ln + post == ln + "\n" + post[1..];
      first, rest := InsertedSplit(ln, post[1..], t);
      InsertedChars(ln, first, '\n') by { assert !IsMark('\n'); }
      MarkedFirst(u, first, rest, false);
    }
    var c :| c in ln && !u.space(c);
    InsertedKeeps(ln, first, c);
    var i :| 0 <= i < |first| && first[i] == c;
    assert !Blank(u, first);
    MarkedGrown(u, t, false);
    InsertedTrans(ln + post, t, Marked(u, t, false));
  }

  // ----- code blocks -----

  /** The first `>` behind any `<` in `q` ends `q`. */
  ghost predicate OneTag(q: string) {
    q != "" ==> q[|q| - 1] == '>' && forall i, j :: 0 <= i < j < |q| - 1 && q[i] == '<' ==> q[j] != '>'
  }

  lemma OneTagDrop(q: string, d: nat)
    requires OneTag(q) && d <= |q|
    ensures OneTag(q[d..])
  {
  }

  lemma TagThrough(q: string, t: string)
    requires OneTag(q) && q != "" && q[0] == '<'
    ensures TagEnd(q + t) == |q|
  {
    assert |q| > 1;
    IndexOfIs(q + t, '>', |q| - 1);
  }

  /** In code the scanner copies everything through the end of the next tag, isolates that reach beyond included. */
  lemma {:induction false} CopyThrough(u: Unicode, q: string, t: string, code: bool) returns (w: string)
    requires OneTag(q) && (q != "" ==> code)
    ensures Scan(u, q + t, code) == q + w && Inserted(t, w)
    decreases |q|
  {
    hide Scan, Lawful, Inserted, Token, TagAt, OneTag, EmittedToken;
    var s := q + t;
    if q == "" {
      assert s == t;
      w := Scan(u, t, code);
      ScanGrown(u, t, code);
      assert "" + w == w;
    } else {
      var (m, code') := Token(u, s, code);
      TokenScan(u, s, code);
      TokenCopied(u, q, t, code);
      if m <= |q| {
        OneTagDrop(q, m);
        assert s[..m] == q[..m] && s[m..] == q[m..] + t;
        w := CopyThrough(u, q[m..], t, code');
        assert q[..m] + (q[m..] + w) == q + w;
      } else {
        var n := m - |q|;
        assert s[..m] == q + t[..n] && s[m..] == t[n..];
        w := t[..n] + Scan(u, t[n..], code');
        assert q + t[..n] + Scan(u, t[n..], code') == q + w;
        ScanGrown(u, t[n..], code');
        InsertedSelf(t[..n]);
        InsertedConcat(t[..n], t[..n], t[n..], Scan(u, t[n..], code'));
        assert t == t[..n] + t[n..];
      }
    }
  }

  lemma TokenCopied(u: Unicode, q: string, t: string, code: bool)
    requires OneTag(q) && q != "" && code
    ensures var s := q + t;
            var (m, code') := Token(u, s, code);
            EmittedToken(u, s, code) == s[..m] && (m < |q| ==> code')
  {
    hide Lawful, OneTag, PlainLength;
    var s := q + t;
    if s[0] != FSI && TagAt(u, s) {
      assert q[0] == '<';
      TagThrough(q, t);
    }
  }

  lemma OneTagIs(c: string, close: string)
    requires '<' !in c && close != "" && close[|close| - 1] == '>'
    requires forall i :: 0 <= i < |close| - 1 ==> close[i] != '>'
    ensures OneTag(c + close)
  {
    var q := c + close;
    assert forall i :: 0 <= i < |q| ==> q[i] == if i < |c| then c[i] else close[i - |c|];
  }

  /** Behind a code block the lines are outside code again, whether it ends on the same line or on a later one:
      one that is not blank gets an RLM. */
  lemma LineBehindCode(u: Unicode, pre: string, open: string, c: string, close: string, z: string, ln: string,
                       post: string, code: bool)
    returns (a: string, r: string)
    requires OpenTag(u, open) && CloseTag(u, close) && '<' !in c && CodeFree(z)
    requires '\n' !in ln && (exists x :: x in ln && !u.space(x)) && Ends(post)
    requires Reaches(u, pre + (open + (c + close + (z + "\n" + (ln + post)))), false, |pre|, code)
    ensures Rtl(u, pre + (open + c + close) + z + "\n" + ln + post) == a + "\n" + r
    ensures Inserted(pre + (open + c + close) + z, a) && Inserted(ln + post, r) && r != [] && r[0] == RLM
  {
    hide Scan, Lawful, Inserted, Reaches, Emitted, CodeTag, MarkLines, Split, Join, CodeFree, OneTag, Ends, Closed,
         FlagAfter, Token, TagAt, CodeAfter, TagEnd;
    var t := z + "\n" + (ln + post);
    var s := pre + (open + (c + close + t));
    assert pre + (open + c + close) + z + "\n" + ln + post == s;
    assert s[|pre|..] == open + (c + close + t) && s[..|pre|] == pre;
    ReachesScan(u, s, false, |pre|, code);
    var x := Emitted(u, s, false, |pre|);
    TagScanned(u, open, c + close + t, code);
    WholeTag(u, close);
    OneTagIs(c, close);
    var w := CopyThrough(u, c + close, t, true);
    var z', t' := InsertedSplit(z, ln + post, w);
    CodeFreeInserted(z, z');
    var front := x + open + c + close + z';
    BlockFlag(u, x, open, c, close, z');
    assert Scan(u, s, false) == front + "\n" + t';
    a := MarkedBehind(u, front, t', false);
    r := Marked(u, t', false);
    MarkedHead(u, ln, post, t');
    FrontGrown(pre, x, open + c + close, z, z', front, a);
  }

  lemma BlockFlag(u: Unicode, x: string, open: string, c: string, close: string, z: string)
    requires CodeTag(u, open) && CloseTag(u, close) && '<' !in c && CodeFree(z)
    ensures !FlagAfter(u, x + open + c + close + z, false)
  {
    hide CodeTag, CodeFree, Closed, FlagAfter;
    WholeTag(u, open);
    ClosedBehind(x, open, c);
    FlagTag(u, x + open + c, close, z, false);
    FlagNone(u, z, false);
  }

  lemma FrontGrown(pre: string, x: string, b: string, z: string, z': string, front: string, a: string)
    requires Inserted(pre, x) && Inserted(z, z') && front == x + b + z' && Inserted(front, a)
    ensures Inserted(pre + b + z, a)
  {
    hide Inserted;
    InsertedSelf(b);
    InsertedConcat(pre, x, b, b);
    InsertedConcat(pre + b, x + b, z, z');
    InsertedTrans(pre + b + z, front, a);
  }

  lemma WholeTag(u: Unicode, tag: string)
    requires CodeTag(u, tag)
    ensures tag != "" && tag[|tag| - 1] == '>' && forall i :: 0 <= i < |tag| - 1 ==> tag[i] != '>'
  {
  }

  /** In particular behind plain text and a block of one line or of many. */
  lemma LineBehindBlock(u: Unicode, pre: string, open: string, c: string, close: string, z: string, ln: string,
                        post: string)
    returns (a: string, r: string)
    requires OpenTag(u, open) && CloseTag(u, close) && '<' !in pre && FSI !in pre && '<' !in c && CodeFree(z)
    requires '\n' !in ln && (exists x :: x in ln && !u.space(x)) && Ends(post)
    ensures Rtl(u, pre + (open + c + close) + z + "\n" + ln + post) == a + "\n" + r
    ensures Inserted(pre + (open + c + close) + z, a) && Inserted(ln + post, r) && r != [] && r[0] == RLM
  {
    hide Rtl, Lawful, CodeTag, TagAt, Reaches, Inside, Inserted, CodeFree, CodeAfter, TagEnd, Scan;
    var t := open + (c + close + (z + "\n" + (ln + post)));
    TagScanned(u, open, c + close + (z + "\n" + (ln + post)), false);
    TagLength(u, open);
    PlainReaches(u, pre, t, false);
    a, r := LineBehindCode(u, pre, open, c, close, z, ln, post, false);
  }

  /** Behind any text without code tags too, and at the start. */
  lemma LineOutsideCode(u: Unicode, x: string, ln: string, post: string) returns (a: string, r: string)
    requires CodeFree(x)
    requires '\n' !in ln && (exists c :: c in ln && !u.space(c)) && Ends(post)
    ensures Rtl(u, x + "\n" + ln + post) == a + "\n" + r
    ensures Inserted(x, a) && Inserted(ln + post, r) && r != [] && r[0] == RLM
  {
    hide Scan, Lawful, Inserted, MarkLines, Split, Join, CodeFree, Ends, FlagAfter;
    var s := x + "\n" + ln + post;
    assert s == x + "\n" + (ln + post);
    ScanGrown(u, s, false);
    var x', t := InsertedSplit(x, ln + post, Scan(u, s, false));
    CodeFreeInserted(x, x');
    FlagNone(u, x', false);
    a := MarkedBehind(u, x', t, false);
    r := Marked(u, t, false);
    MarkedHead(u, ln, post, t);
    InsertedTrans(x, x', a);
  }

  lemma FirstLineMarked(u: Unicode, ln: string, post: string)
    requires '\n' !in ln && (exists c :: c in ln && !u.space(c)) && Ends(post)
    ensures var r := Rtl(u, ln + post); r != [] && r[0] == RLM
  {
    hide Scan, Lawful, Inserted, MarkLines, Split, Join, Ends;
    ScanGrown(u, ln + post, false);
    MarkedHead(u, ln, post, Scan(u, ln + post, false));
  }

  // ----- blank texts -----

  ghost predicate AllBlank(u: Unicode, s: string) { forall c :: c in s ==> u.space(c) || c == '\n' }

  lemma {:induction false} BlankSettled(u: Unicode, s: string, code: bool)
    requires AllBlank(u, s)
    ensures Settled(u, s, code)
    decreases |s|
  {
    hide NameAt;
    if s != [] {
      assert s[0] in s;
      assert s[0] != '<' && !AsciiLetter(s[0]);
      var j := IndexOf(s, PDI);
      BlankSettled(u, s[if s[0] == FSI && j < |s| then j + 1 else 1..], code);
    }
  }

  lemma {:induction false} BlankMarked(u: Unicode, s: string, code: bool)
    requires AllBlank(u, s)
    ensures Marked(u, s, code) == s
    decreases |s|
  {
    hide Marked, LineCode;
    var ln, rest := Cut(s);
    assert forall c :: c in ln ==> c in s;
    assert Blank(u, ln);
    if '\n' in s {
      assert forall c :: c in rest ==> c in s;
      MarkedFirst(u, ln, rest, code);
      BlankMarked(u, rest, LineCode(u, ln, code));
    } else {
      MarkedLine(u, s, code);
    }
  }

  /** A blank text of any number of lines is left alone. */
  lemma BlankFixed(u: Unicode, s: string)
    requires forall c :: c in s ==> u.space(c) || c == '\n'
    ensures Rtl(u, s) == s
  {
    hide Scan, Settled, MarkLines, Split, Join;
    BlankSettled(u, s, false);
    SettledFixed(u, s, false);
    BlankMarked(u, s, false);
  }
}
