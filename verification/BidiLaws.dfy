/** What the rewriter preserves, what it covers, and where a second pass can differ. */
module BidiLaws {
  import opened Common
  import opened BidiText
  import opened BidiScan
  import opened BidiSettle
  import opened BidiRtl
  import opened BidiMarks

  // ----- only marks are inserted -----

  lemma {:induction false} IsolateGrown(u: Unicode, s: string)
    ensures Grown(s, Isolate(u, s))
    decreases |s|
  {
    hide Wrap, Lawful, HasLetter, Grown;
    if s == [] {
      GrownSelf(s);
    } else {
      var n := MatchLength(u, s);
      var m := if n == 0 then 1 else n;
      IsolateGrown(u, s[m..]);
      assert s == s[..m] + s[m..];
      if n == 0 {
        assert s[..1] == [s[0]];
        GrownSelf(s[..1]);
        GrownConcat(s[..m], [s[0]], s[m..], Isolate(u, s[m..]));
      } else {
        GrownWrap(s[..n]);
        GrownConcat(s[..m], Wrap(s[..n]), s[m..], Isolate(u, s[m..]));
      }
    }
  }

  lemma {:induction false} ScanGrown(u: Unicode, s: string, code: bool)
    ensures Grown(s, Scan(u, s, code))
    decreases |s|
  {
    hide Scan, TagAt, CodeAfter, Lawful, Isolate, Grown;
    if s == [] {
      ScanEmpty(u, code);
      GrownSelf(s);
    } else {
      ScanStep(u, s, code);
      var n, w, code' := 1, [s[0]], code;
      assert s[..1] == [s[0]];
      if s[0] == FSI {
        if IndexOf(s, PDI) < |s| {
          n := IndexOf(s, PDI) + 1;
          w := s[..n];
        }
      } else if TagAt(u, s) {
        n, code' := TagEnd(s), CodeAfter(s, code);
        w := s[..n];
      } else {
        n := PlainLength(u, s);
        w := if code then s[..n] else Isolate(u, s[..n]);
      }
      GrownSelf(s[..n]);
      IsolateGrown(u, s[..n]);
      ScanGrown(u, s[n..], code');
      GrownConcat(s[..n], w, s[n..], Scan(u, s[n..], code'));
      assert s == s[..n] + s[n..];
    }
  }

  lemma {:induction false} MarkLinesGrown(u: Unicode, ls: seq<string>, code: bool)
    ensures Grown(Join("\n", ls), Join("\n", MarkLines(u, ls, code)))
    decreases |ls|
  {
    hide LineCode, Lawful, Blank, Grown;
    if ls == [] {
      GrownSelf("");
    } else {
      var code' := LineCode(u, ls[0], code);
      var m, rest := MarkLine(u, ls[0], code), MarkLines(u, ls[1..], code');
      MarkLineGrown(u, ls[0], code);
      assert MarkLines(u, ls, code) == [m] + rest && ([m] + rest)[1..] == rest;
      if |ls| > 1 {
        MarkLinesGrown(u, ls[1..], code');
        GrownSelf("\n");
        GrownConcat(ls[0], m, "\n", "\n");
        GrownConcat(ls[0] + "\n", m + "\n", Join("\n", ls[1..]), Join("\n", rest));
      }
    }
  }

  lemma MarkLineGrown(u: Unicode, ln: string, code: bool)
    ensures Grown(ln, MarkLine(u, ln, code))
  {
    GrownSelf(ln);
    GrownRlm(ln);
  }

  /** The rewriter's output is its input with marks inserted, as many FSIs as PDIs. */
  lemma OnlyMarks(u: Unicode, s: string)
    ensures Inserted(s, Rtl(u, s)) && Balance(Rtl(u, s)) == Balance(s)
    ensures Erase(Rtl(u, s)) == Erase(s)
  {
    hide Scan, MarkLines, Split, Join, Lawful, Inserted, Balance;
    var o := Scan(u, s, false);
    ScanGrown(u, s, false);
    MarkLinesGrown(u, Split(o), false);
    JoinSplit(o);
    GrownTrans(s, o, Rtl(u, s));
    InsertedErase(s, Rtl(u, s));
  }

  // ----- which runs are isolated -----

  /** The first `m` characters of `s` are run characters, from one letter or digit to another. */
  predicate IsRun(s: string, m: nat)
    requires 0 < m <= |s|
  {
    AsciiAlnum(s[0]) && AsciiAlnum(s[m - 1]) && forall k :: 0 <= k < m ==> RunChar(s[k])
  }

  lemma {:induction false} RunSpanMaximal(s: string, m: nat)
    requires m <= |s| && forall k :: 0 <= k < m ==> RunChar(s[k])
    ensures m <= RunSpan(s)
  {
    if m > 0 {
      assert s[..m][0] == s[0];
      forall k | 0 <= k < m - 1 ensures RunChar(s[1..][k]) {
        assert s[1..][k] == s[k + 1];
      }
      RunSpanMaximal(s[1..], m - 1);
    }
  }

  /** Where a letter or digit starts, the match is the longest run of two or more characters,
      else the single letter, else nothing. */
  lemma RunMaximal(u: Unicode, s: string)
    requires s != [] && AsciiAlnum(s[0])
    ensures var n := MatchLength(u, s);
            && (n > 1 ==> IsRun(s, n))
            && (n == 0 ==> !AsciiLetter(s[0])) && (n == 1 ==> AsciiLetter(s[0]))
            && forall m :: 1 < m <= |s| && IsRun(s, m) ==> m <= n
  {
    hide Lawful;
    var t := s[1..];
    forall m | 1 < m <= |s| && IsRun(s, m) ensures m <= MatchLength(u, s) {
      forall k | 0 <= k < m - 1 ensures RunChar(t[k]) {
        assert t[k] == s[k + 1];
      }
      RunSpanMaximal(t, m - 1);
      assert AsciiAlnum(t[m - 2]);
    }
    assert forall k :: 1 <= k < |s| ==> s[k] == t[k - 1];
  }

  predicate MentionChar(c: char) { AsciiAlnum(c) || c == '_' }

  lemma {:induction false} MentionSpanIs(name: string, post: string)
    requires forall k :: 0 <= k < |name| ==> MentionChar(name[k])
    requires post != [] ==> !MentionChar(post[0])
    ensures MentionSpan(name + post) == |name|
  {
    if name == [] {
      assert name + post == post;
    } else {
      MentionSpanIs(name[1..], post);
      assert (name + post)[1..] == name[1..] + post;
    }
  }

  /** An @mention is isolated whole, with its `@` inside. */
  lemma MentionInside(u: Unicode, name: string, post: string)
    requires name != [] && HasLetter(name) && forall k :: 0 <= k < |name| ==> MentionChar(name[k])
    requires post != [] ==> !MentionChar(post[0])
    ensures Isolate(u, "@" + name + post) == [FSI] + ("@" + name) + [PDI] + Isolate(u, post)
  {
    hide Lawful, Isolate;
    var s := "@" + name + post;
    assert s[1] == name[0];
    assert s[2..] == name[1..] + post;
    MentionSpanIs(name[1..], post);
    IsolateStep(u, s);
    var n := |name| + 1;
    assert MatchLength(u, s) == n;
    assert s[..n] == "@" + name && s[n..] == post;
    var i :| 0 <= i < |name| && AsciiLetter(name[i]);
    assert AsciiLetter(("@" + name)[i + 1]);
  }

  predicate CommandChar(u: Unicode, c: char) { u.word(c) || c == '-' }

  lemma {:induction false} CommandSpanIs(u: Unicode, name: string, post: string)
    requires forall k :: 0 <= k < |name| ==> CommandChar(u, name[k])
    requires post != [] ==> !CommandChar(u, post[0])
    ensures CommandSpan(u, name + post) == |name|
  {
    hide Lawful;
    if name == [] {
      assert name + post == post;
    } else {
      CommandSpanIs(u, name[1..], post);
      assert (name + post)[1..] == name[1..] + post;
    }
  }

  /** A /command is isolated whole, with its slash inside. */
  lemma CommandInside(u: Unicode, name: string, post: string)
    requires name != [] && AsciiLetter(name[0]) && forall k :: 0 <= k < |name| ==> CommandChar(u, name[k])
    requires post != [] ==> !CommandChar(u, post[0])
    ensures Isolate(u, "/" + name + post) == [FSI] + ("/" + name) + [PDI] + Isolate(u, post)
  {
    hide Lawful, Isolate, MatchLength;
    var s, n := "/" + name + post, |name| + 1;
    CommandMatch(u, name, post);
    IsolateStep(u, s);
    assert s[..n] == "/" + name && s[n..] == post;
    assert AsciiLetter(("/" + name)[1]);
  }

  lemma CommandMatch(u: Unicode, name: string, post: string)
    requires name != [] && AsciiLetter(name[0]) && forall k :: 0 <= k < |name| ==> CommandChar(u, name[k])
    requires post != [] ==> !CommandChar(u, post[0])
    ensures MatchLength(u, "/" + name + post) == |name| + 1
  {
    hide Lawful, CommandSpan;
    var s := "/" + name + post;
    assert s[0] == '/' && s[1] == name[0] && s[2..] == name[1..] + post;
    CommandSpanIs(u, name[1..], post);
  }

  // ----- line marks -----

  /** Whether line `i` begins inside a code block, by the line pass's reckoning. */
  function StartsInCode(u: Unicode, ls: seq<string>, code: bool, i: nat): bool
    requires i < |ls|
  {
    if i == 0 then code else LineCode(u, ls[i - 1], StartsInCode(u, ls, code, i - 1))
  }

  lemma {:induction false} StartsInCodeRest(u: Unicode, ls: seq<string>, code: bool, i: nat)
    requires 0 < i < |ls|
    ensures StartsInCode(u, ls, code, i) == StartsInCode(u, ls[1..], LineCode(u, ls[0], code), i - 1)
  {
    hide LineCode;
    if i > 1 { StartsInCodeRest(u, ls, code, i - 1); }
  }

  lemma {:induction false} MarkLinesAt(u: Unicode, ls: seq<string>, code: bool, i: nat)
    requires i < |ls|
    ensures MarkLines(u, ls, code)[i] == MarkLine(u, ls[i], StartsInCode(u, ls, code, i))
    decreases i
  {
    hide LineCode, MarkLine;
    if i > 0 {
      MarkLinesAt(u, ls[1..], LineCode(u, ls[0], code), i - 1);
      StartsInCodeRest(u, ls, code, i);
    }
  }

  /** Line by line: a line that begins in code is left alone, any other non-blank line begins
      with an RLM, inserted if it had none. */
  lemma LinesMarked(u: Unicode, s: string, i: nat)
    requires i < |Split(Scan(u, s, false))|
    ensures var before, after := Split(Scan(u, s, false)), Split(Rtl(u, s));
            && |after| == |before|
            && (StartsInCode(u, before, false, i) || Blank(u, before[i]) ==> after[i] == before[i])
            && (!StartsInCode(u, before, false, i) && !Blank(u, before[i])
                ==> after[i] != [] && after[i][0] == RLM && (after[i] == before[i] || after[i] == [RLM] + before[i]))
  {
    hide Scan, Lawful, Split, Join, MarkLines, StartsInCode, Blank, LineCode;
    var before := Split(Scan(u, s, false));
    MarkLinesTwice(u, before, false);
    SplitJoin(MarkLines(u, before, false));
    MarkLinesAt(u, before, false, i);
  }

  // ----- fixed points -----

  lemma {:induction false} IsolateGrows(u: Unicode, s: string)
    ensures |Isolate(u, s)| >= |s| && (HasLetter(s) ==> |Isolate(u, s)| > |s|)
    decreases |s|
  {
    hide Lawful, Isolate, MatchLength;
    if s == [] {
      IsolateEmpty(u);
    } else {
      IsolateStep(u, s);
      var n := MatchLength(u, s);
      var m := if n == 0 then 1 else n;
      IsolateGrows(u, s[m..]);
      if HasLetter(s) && !HasLetter(s[..m]) {
        var i :| 0 <= i < |s| && AsciiLetter(s[i]);
        assert s[m..][i - m] == s[i];
      }
    }
  }

  lemma {:induction false} PlainIntoSettled(u: Unicode, s: string, code: bool, n: nat)
    requires n <= |s| && forall k :: 0 <= k < n ==> PlainStart(u, s[k..])
    requires (code || !HasLetter(s[..n])) && Settled(u, s[n..], code)
    ensures Settled(u, s, code)
  {
    hide NameAt, CodeAfter, Lawful;
    assert s[0..] == s;
    if n > 0 {
      assert PlainStart(u, s[0..]);
      forall k | 0 <= k < n - 1 ensures PlainStart(u, s[1..][k..]) {
        assert s[1..][k..] == s[k + 1..];
      }
      assert s[1..][n - 1..] == s[n..];
      if !code {
        assert s[..n][0] == s[0];
        assert s[..n] == [s[0]] + s[1..][..n - 1];
      }
      PlainIntoSettled(u, s[1..], code, n - 1);
    }
  }

  lemma {:induction false} ScanGrows(u: Unicode, s: string, code: bool)
    ensures |Scan(u, s, code)| >= |s|
    ensures |Scan(u, s, code)| == |s| ==> Settled(u, s, code)
    decreases |s|
  {
    hide TagAt, CodeAfter, Lawful, Isolate;
    PlainRun(u, s);
    if s == [] {
    } else if s[0] == FSI {
      var j := IndexOf(s, PDI);
      ScanGrows(u, if j == |s| then s[1..] else s[j + 1..], code);
    } else if TagAt(u, s) {
      ScanGrows(u, s[TagEnd(s)..], CodeAfter(s, code));
    } else {
      var n := PlainLength(u, s);
      ScanGrows(u, s[n..], code);
      IsolateGrows(u, s[..n]);
      if |Scan(u, s, code)| == |s| { PlainIntoSettled(u, s, code, n); }
    }
  }

  /** Scanning leaves a text alone exactly when it meets no bare Latin letter in it. */
  lemma FixedIffSettled(u: Unicode, s: string, code: bool)
    ensures Scan(u, s, code) == s <==> Settled(u, s, code)
  {
    hide Scan, Settled, Lawful;
    ScanGrows(u, s, code);
    if Settled(u, s, code) { SettledFixed(u, s, code); }
  }

  lemma {:induction false} MarkLinesGrow(u: Unicode, ls: seq<string>, code: bool)
    ensures |Join("\n", MarkLines(u, ls, code))| >= |Join("\n", ls)|
    decreases |ls|
  {
    hide LineCode, Lawful, Blank;
    if ls != [] {
      var code' := LineCode(u, ls[0], code);
      var m, rest := MarkLine(u, ls[0], code), MarkLines(u, ls[1..], code');
      assert MarkLines(u, ls, code) == [m] + rest && ([m] + rest)[1..] == rest;
      MarkLinesGrow(u, ls[1..], code');
    }
  }

  /** For any text, a second pass changes nothing exactly when it meets no bare Latin letter. */
  lemma IdempotentIffSettled(u: Unicode, s: string)
    ensures Rtl(u, Rtl(u, s)) == Rtl(u, s) <==> Settled(u, Rtl(u, s), false)
  {
    hide Scan, Settled, Lawful, MarkLines, Split, Join;
    var r := Rtl(u, s);
    if Settled(u, r, false) {
      SettledFixed(u, r, false);
      var lines := Split(Scan(u, s, false));
      MarkLinesTwice(u, lines, false);
      SplitJoin(MarkLines(u, lines, false));
    }
    if Rtl(u, r) == r {
      var x := Scan(u, r, false);
      MarkLinesGrow(u, Split(x), false);
      JoinSplit(x);
      ScanGrows(u, r, false);
    }
  }

  /** A second pass changes nothing on a text whose scan meets no live phantom tag. */
  lemma Idempotent(u: Unicode, s: string)
    requires Quiet(u, s, false)
    ensures Rtl(u, Rtl(u, s)) == Rtl(u, s)
  {
    hide Rtl, Settled, Lawful, Quiet;
    RtlSettled(u, s);
    IdempotentIffSettled(u, s);
  }

  // ----- the excluded texts -----

  /** `<`, perhaps `/`, a letter that folds to a tag name, a letter or digit. */
  function Phantom(slash: bool, f: char, x: char): string {
    (if slash then "</" else "<") + [f, x]
  }

  /** A Latin letter, then one in an open code block. */
  const CODE_TAIL := " a<code>b"

  ghost predicate Stable(u: Unicode, s: string) { Rtl(u, Rtl(u, s)) == Rtl(u, s) }

  /** `PhantomFree` is exact: it holds just when every piece cut from the text, followed by a letter and an
      open code block, is rewritten once and for all. */
  lemma StableIffPhantomFree(u: Unicode, s: string)
    ensures PhantomFree(s) <==> forall i, j :: 0 <= i <= j <= |s| ==> Stable(u, s[i..j] + CODE_TAIL)
  {
    hide Stable, Lawful;
    if PhantomFree(s) {
      forall i, j | 0 <= i <= j <= |s| ensures Stable(u, s[i..j] + CODE_TAIL) {
        PieceStable(u, s, i, j);
      }
    } else {
      var k :| 0 <= k < |s| && PhantomAt(s[k..]);
      var j := PieceUnstable(u, s, k);
    }
  }

  lemma PieceStable(u: Unicode, s: string, i: nat, j: nat)
    requires PhantomFree(s) && i <= j <= |s|
    ensures Stable(u, s[i..j] + CODE_TAIL)
  {
    hide Rtl, Lawful, PhantomFree, Quiet;
    PieceFree(s, i, j);
    PhantomFreeQuiet(u, s[i..j] + CODE_TAIL, false);
    Idempotent(u, s[i..j] + CODE_TAIL);
  }

  lemma PieceUnstable(u: Unicode, s: string, k: nat) returns (j: nat)
    requires k < |s| && PhantomAt(s[k..])
    ensures k <= j <= |s| && !Stable(u, s[k..j] + CODE_TAIL)
  {
    hide Rtl, Lawful;
    PhantomIndex(s, k);
    var slash := s[k + 1] == '/';
    j := k + if slash then 4 else 3;
    assert s[k..j] == Phantom(slash, s[j - 2], s[j - 1]);
    NotIdempotent(u, slash, s[j - 2], s[j - 1]);
  }

  /** A piece of a text without phantom tags gets none from the tail. */
  lemma PieceFree(s: string, i: nat, j: nat)
    requires PhantomFree(s) && i <= j <= |s|
    ensures PhantomFree(s[i..j] + CODE_TAIL)
  {
    var t := s[i..j] + CODE_TAIL;
    assert forall m :: 0 <= m < |t| ==> t[m] == if m < j - i then s[i + m] else CODE_TAIL[m - (j - i)];
    hide PhantomAt;
    forall k | 0 <= k < |t| ensures !PhantomAt(t[k..]) {
      PhantomIndex(t, k);
      if i + k < j {
        PhantomIndex(s, i + k);
        assert !PhantomAt(s[i + k..]);
      }
    }
  }

  lemma PhantomIndex(s: string, k: nat)
    requires k < |s|
    ensures PhantomAt(s[k..])
            <==> s[k] == '<' && ((k + 2 < |s| && FoldsToTag(s[k + 1]) && AsciiAlnum(s[k + 2]))
                                 || (k + 3 < |s| && s[k + 1] == '/' && FoldsToTag(s[k + 2]) && AsciiAlnum(s[k + 3])))
  {
    var t := s[k..];
    assert |t| > 1 ==> forall m :: 0 <= m < |t[1..]| ==> t[1..][m] == s[k + 1 + m];
    assert |t| > 2 ==> forall m :: 0 <= m < |t[2..]| ==> t[2..][m] == s[k + 2 + m];
  }

  /** Each pattern that `PhantomFree` excludes makes the rewriter fail to be idempotent on some text. */
  lemma NotIdempotent(u: Unicode, slash: bool, f: char, x: char)
    requires FoldsToTag(f) && AsciiAlnum(x)
    ensures var s := Phantom(slash, f, x) + CODE_TAIL;
            PhantomAt(s) && Rtl(u, Rtl(u, s)) != Rtl(u, s)
  {
    hide Scan, Lawful, MarkLines, TagAt, Isolate;
    var p := Phantom(slash, f, x);
    var s := p + CODE_TAIL;
    var head := if slash then ['<', '/', f] else ['<', f];
    assert s == head + [x, ' ', 'a'] + "<code>b";
    FirstPass(u, head, slash, f, x);
    var o := head + [FSI, x, ' ', 'a', PDI] + "<code>b";
    OneLine(u, o, 'b');
    assert Rtl(u, s) == [RLM] + o;
    SecondPass(u, head, slash, f, x);
    var o' := [RLM] + head + [FSI, x, ' ', 'a', PDI] + "<code>" + [FSI, 'b', PDI];
    OneLine(u, o', 'b');
    assert Scan(u, [RLM] + o, false) == o';
    assert Rtl(u, [RLM] + o) == o';
    assert |o'| == |o| + 3;
    PhantomHere(slash, f, x);
  }

  lemma PhantomHere(slash: bool, f: char, x: char)
    requires FoldsToTag(f) && AsciiAlnum(x)
    ensures PhantomAt(Phantom(slash, f, x) + CODE_TAIL)
  {
    var s := Phantom(slash, f, x) + CODE_TAIL;
    if slash {
      assert s[0] == '<' && s[1] == '/' && s[2..][0] == f && s[2..][1] == x;
    } else {
      assert s[0] == '<' && s[1..][0] == f && s[1..][1] == x;
    }
  }

  /** A text of one non-blank line outside code gets an RLM unless it has one. */
  lemma OneLine(u: Unicode, o: string, c: char)
    requires o != [] && '\n' !in o && AsciiLetter(c) && c in o
    ensures Join("\n", MarkLines(u, Split(o), false)) == if o[0] == RLM then o else [RLM] + o
  {
    hide LineCode;
    IndexOfIn(o, '\n');
    assert Split(o) == [o];
    var i :| 0 <= i < |o| && o[i] == c;
    assert !Blank(u, o);
    assert MarkLines(u, [o], false) == [MarkLine(u, o, false)];
  }

  predicate HeadOf(head: string, slash: bool, f: char) {
    head == if slash then ['<', '/', f] else ['<', f]
  }

  lemma {:induction false} PlainLengthIs(u: Unicode, s: string, n: nat)
    requires n <= |s| && (forall k :: 0 <= k < n ==> PlainStart(u, s[k..])) && !PlainStart(u, s[n..])
    ensures PlainLength(u, s) == n
  {
    hide TagAt, Lawful;
    PlainRun(u, s);
  }

  /** A one-character plain text. */
  lemma ScanOne(u: Unicode, c: char, code: bool)
    requires AsciiLetter(c)
    ensures Scan(u, [c], code) == if code then [c] else [FSI, c, PDI]
  {
    hide Scan, TagAt, Isolate, Lawful, PlainLength;
    NotTag(u, [c]);
    assert [c][0..] == [c] && [c][1..] == [] && [c][..1] == [c];
    PlainLengthIs(u, [c], 1);
    ScanStep(u, [c], code);
    ScanEmpty(u, code);
    IsolateStep(u, [c]);
    IsolateEmpty(u);
    assert MatchLength(u, [c]) == 1 by { hide Lawful; }
    assert [c][0] == c;
    assert HasLetter([c]);
    assert Wrap([c]) == [FSI, c, PDI];
  }

  lemma CodeTagHere(u: Unicode, r: string)
    ensures TagAt(u, "<code>" + r) && TagEnd("<code>" + r) == 6
    ensures forall code :: CodeAfter("<code>" + r, code)
  {
    var s := "<code>" + r;
    assert s[1..][..4] == "code";
    assert FoldAll(s[1..][..4]) == "code";
    assert Boundary(u, s[1..], 4);
    assert NameAt(u, s[1..]);
    IndexOfIs(s, '>', 5);
    assert s[..5] == "<code";
    assert FoldAll(s[..5]) == "<code";
  }

  lemma ScanCode(u: Unicode)
    ensures Scan(u, "<code>b", false) == "<code>b"
  {
    hide Scan, TagAt, Lawful, CodeAfter, TagEnd;
    var s := "<code>b";
    assert s == "<code>" + "b";
    CodeTagHere(u, "b");
    ScanStep(u, s, false);
    assert s[6..] == ['b'] && s[..6] == "<code>";
    ScanOne(u, 'b', true);
  }

  lemma NotName(u: Unicode, f: char, x: char, r: string)
    requires FoldsToTag(f) && AsciiAlnum(x)
    ensures !NameAt(u, [f, x, ' ', 'a', '<'] + r)
  {
    hide IsTagName, Lawful;
    var t := [f, x, ' ', 'a', '<'] + r;
    forall k | 0 < k <= |t| ensures !(IsTagName(FoldAll(t[..k])) && Boundary(u, t, k)) {
      var n := FoldAll(t[..k]);
      assert n[0] == Fold(f);
      if k > 2 {
        assert n[2] == Fold(' ') == ' ';
        NoSpaceName(n);
      } else if k == 2 {
        TwoLetters(n, f);
      } else {
        WordPair(u, f, x);
      }
    }
  }

  lemma NoSpaceName(n: string)
    requires |n| > 2 && n[2] == ' '
    ensures !IsTagName(n)
  {
    if IsTagName(n) { TagNameChars(n); }
  }

  lemma TwoLetters(n: string, f: char)
    requires |n| == 2 && FoldsToTag(f) && n[0] == Fold(f)
    ensures !IsTagName(n)
  {
  }

  lemma WordPair(u: Unicode, f: char, x: char)
    requires FoldsToTag(f) && AsciiAlnum(x)
    ensures u.word(f) && u.word(x)
  {
    assert FoldsToAscii(f);
  }

  lemma FirstPassPlain(u: Unicode, head: string, slash: bool, f: char, x: char, k: nat)
    requires HeadOf(head, slash, f) && FoldsToTag(f) && AsciiAlnum(x) && k < |head| + 3
    ensures PlainStart(u, (head + [x, ' ', 'a'] + "<code>b")[k..])
  {
    hide NameAt, Lawful;
    var s := head + [x, ' ', 'a'] + "<code>b";
    var t := s[k..];
    assert t[0] == s[k];
    if k == 0 {
      assert t == s;
      assert t[|head| - 1..] == [f, x, ' ', 'a', '<'] + "code>b";
      NotName(u, f, x, "code>b");
      if slash {
        if NameAt(u, t[1..]) { NameStart(u, t[1..]); }
      }
    } else {
      NotTag(u, t);
    }
  }

  lemma MatchTriple(u: Unicode, x: char)
    requires AsciiAlnum(x)
    ensures MatchLength(u, [x, ' ', 'a']) == 3
  {
    var r := [' ', 'a'];
    assert [x, ' ', 'a'][1..] == r && r[1..] == ['a'] && r[1..][1..] == [];
    assert RunSpan(['a']) == 1;
    assert RunSpan(r) == 2 && BackOff(r, 2) == 2;
  }

  lemma IsolateLetterRun(u: Unicode, f: char, x: char)
    requires FoldsToTag(f) && AsciiAlnum(x)
    ensures Isolate(u, [f, x, ' ', 'a']) == [f, FSI, x, ' ', 'a', PDI]
  {
    hide Isolate, Lawful;
    var run := [x, ' ', 'a'];
    MatchTriple(u, x);
    IsolateStep(u, run);
    IsolateEmpty(u);
    assert run[..3] == run && run[3..] == [] && run[2] == 'a';
    assert HasLetter(run);
    IsolateStep(u, [f, x, ' ', 'a']);
    assert [f, x, ' ', 'a'][1..] == run;
  }

  lemma IsolateHeadRun(u: Unicode, head: string, slash: bool, f: char, x: char)
    requires HeadOf(head, slash, f) && FoldsToTag(f) && AsciiAlnum(x)
    ensures Isolate(u, head + [x, ' ', 'a']) == head + [FSI, x, ' ', 'a', PDI]
  {
    hide Isolate, Lawful;
    IsolateLetterRun(u, f, x);
    var s := head + [x, ' ', 'a'];
    IsolateStep(u, s);
    if slash {
      var v := ['/', f, x, ' ', 'a'];
      IsolateStep(u, v);
      assert v[1..] == [f, x, ' ', 'a'];
      assert s[1..] == v;
    } else {
      assert s[1..] == [f, x, ' ', 'a'];
    }
  }

  lemma FirstPass(u: Unicode, head: string, slash: bool, f: char, x: char)
    requires HeadOf(head, slash, f) && FoldsToTag(f) && AsciiAlnum(x)
    ensures Scan(u, head + [x, ' ', 'a'] + "<code>b", false) == head + [FSI, x, ' ', 'a', PDI] + "<code>b"
  {
    hide Scan, TagAt, Isolate, Lawful, PlainLength;
    var s := head + [x, ' ', 'a'] + "<code>b";
    var n := |head| + 3;
    forall k | 0 <= k < n ensures PlainStart(u, s[k..]) {
      FirstPassPlain(u, head, slash, f, x, k);
    }
    assert s[n..] == "<code>b" && "<code>b" == "<code>" + "b";
    CodeTagHere(u, "b");
    PlainLengthIs(u, s, n);
    assert s[0..] == s;
    ScanStep(u, s, false);
    assert s[..n] == head + [x, ' ', 'a'];
    IsolateHeadRun(u, head, slash, f, x);
    ScanCode(u);
  }

  /** Once an FSI follows it, the folded letter is a tag, which runs to the next `>` and does not open code. */
  lemma PhantomTag(u: Unicode, head: string, slash: bool, f: char, x: char)
    requires HeadOf(head, slash, f) && FoldsToTag(f) && AsciiAlnum(x)
    ensures var t := head + [FSI, x, ' ', 'a', PDI] + "<code>b";
            TagAt(u, t) && TagEnd(t) == |t| - 1 && !CodeAfter(t, false)
  {
    var t := head + [FSI, x, ' ', 'a', PDI] + "<code>b";
    var n := t[|head| - 1..];
    assert n[0] == f && n[1] == FSI;
    assert FoldAll(n[..1]) == [Fold(f)];
    assert Boundary(u, n, 1);
    assert NameAt(u, n);
    IndexOfIs(t, '>', |t| - 2);
    assert FoldAll(t[..5])[1] == Fold(t[1]) != 'c';
    assert FoldAll(t[..4])[1] == Fold(t[1]) != 'p';
    assert FoldAll(t[..6])[2] == Fold(t[2]) && FoldAll(t[..5])[2] == Fold(t[2]);
    assert slash ==> t[2] == f;
    assert !slash ==> Fold(t[1]) != '/';
    assert FoldAll(t[..6])[1] == Fold(t[1]);
  }

  lemma SecondPass(u: Unicode, head: string, slash: bool, f: char, x: char)
    requires HeadOf(head, slash, f) && FoldsToTag(f) && AsciiAlnum(x)
    ensures Scan(u, [RLM] + (head + [FSI, x, ' ', 'a', PDI] + "<code>b"), false)
         == [RLM] + head + [FSI, x, ' ', 'a', PDI] + "<code>" + [FSI, 'b', PDI]
  {
    hide Scan, TagAt, Isolate, Lawful, PlainLength, CodeAfter, TagEnd;
    var t := head + [FSI, x, ' ', 'a', PDI] + "<code>b";
    var s := [RLM] + t;
    PhantomTag(u, head, slash, f, x);
    NotTag(u, s);
    assert s[0..] == s && s[1..] == t && s[..1] == [RLM];
    PlainLengthIs(u, s, 1);
    ScanStep(u, s, false);
    IsolateNoLetters(u, [RLM]);
    ScanStep(u, t, false);
    assert t[|t| - 1..] == ['b'];
    assert t[..|t| - 1] == head + [FSI, x, ' ', 'a', PDI] + "<code>";
    ScanOne(u, 'b', false);
  }
}
