/** The content of a code block passes both passes of the rewriter unchanged. */
module BidiCode {
  import opened Common
  import opened BidiText
  import opened BidiScan
  import opened BidiSettle
  import opened BidiRtl
  import opened BidiMarks
  import opened BidiLaws
  import opened BidiRegions

  // ----- code tags -----

  /** A whole code tag on one line, attributes included. */
  predicate CodeTag(u: Unicode, tag: string) {
    && CodeTagAt(u, tag) && '\n' !in tag && tag[|tag| - 1] == '>'
    && forall i :: 0 <= i < |tag| - 1 ==> tag[i] != '>'
  }

  predicate OpenTag(u: Unicode, tag: string) { CodeTag(u, tag) && tag[1] != '/' }

  predicate CloseTag(u: Unicode, tag: string) { CodeTag(u, tag) && tag[1] == '/' }

  lemma CodeNames(u: Unicode, name: string, rest: string)
    requires (name == "code" || name == "pre") && rest != "" && (rest[0] == '>' || rest[0] == ' ')
    ensures CodeName(u, name + rest)
  {
    var s := name + rest;
    assert s[..|name|] == name && FoldAll(name) == name && s[|name|] == rest[0] && s[|name| - 1] == 'e';
  }

  /** `code` and `pre`, opening or closing, with any attributes that hold no `>` and no line end. */
  lemma CodeTags(u: Unicode, slash: bool, name: string, attributes: string)
    requires name == "code" || name == "pre"
    requires attributes == "" || attributes[0] == ' '
    requires '>' !in attributes && '\n' !in attributes
    ensures CodeTag(u, (if slash then "</" else "<") + name + attributes + ">")
    ensures !slash ==> OpenTag(u, "<" + name + attributes + ">")
    ensures slash ==> CloseTag(u, "</" + name + attributes + ">")
  {
    hide Lawful, CodeName;
    var head, rest := if slash then "</" else "<", attributes + ">";
    var tag := head + name + rest;
    assert tag == head + name + attributes + ">";
    CodeNames(u, name, rest);
    assert tag[|head|..] == name + rest;
    assert tag[|tag| - 1] == '>';
    assert forall i :: 0 <= i < |tag| - 1 ==> tag[i] in head || tag[i] in name || tag[i] in attributes;
    assert '\n' !in head && '\n' !in name && '>' !in head && '>' !in name;
    assert CodeTagAt(u, tag);
  }

  lemma TagEndIs(tag: string, r: string)
    requires tag != "" && tag[|tag| - 1] == '>' && forall i :: 0 <= i < |tag| - 1 ==> tag[i] != '>'
    ensures TagEnd(tag + r) == |tag|
  {
    IndexOfIs(tag + r, '>', |tag| - 1);
  }

  /** What follows a code tag does not change what it is. */
  lemma CodeNameAgree(u: Unicode, t: string, r: string)
    requires t != "" && t[|t| - 1] == '>' && CodeName(u, t)
    ensures NameAt(u, t + r) && CodeName(u, t + r)
    ensures StartsFold(t + r, "code") || StartsFold(t + r, "pre")
  {
    hide Lawful;
    var s := t + r;
    var n := if StartsFold(t, "code") && Boundary(u, t, 4) then 4 else 3;
    assert FoldAll(t[..n])[n - 1] == Fold(t[n - 1]);
    assert t[n - 1] != '>';
    assert n < |t| && s[..n] == t[..n] && s[n] == t[n];
    assert IsTagName(FoldAll(s[..n])) && Boundary(u, s, n);
  }

  /** A name that starts with one of the code names is not one of the other tags' names. */
  lemma CodeFold(s: string, slash: bool)
    requires s != "" && s[0] == '<' && (slash ==> |s| > 1 && s[1] == '/')
    requires var t := if slash then s[2..] else s[1..]; StartsFold(t, "code") || StartsFold(t, "pre")
    ensures forall code :: CodeAfter(s, code) == !slash
  {
    var d := if slash then 2 else 1;
    var t := s[d..];
    forall n: nat | n <= |t| ensures FoldAll(s[..d + n]) == s[..d] + FoldAll(t[..n]) {
      assert s[..d + n] == s[..d] + t[..n];
    }
    if slash {
      if |s| >= 5 { assert FoldAll(s[..5])[1] == '/'; }
      if |s| >= 4 { assert FoldAll(s[..4])[1] == '/'; }
      assert s[..2] == "</";
    } else {
      assert s[..1] == "<";
    }
  }

  /** A code tag is a tag for the scanner, and sets its flag. */
  lemma TagScanned(u: Unicode, tag: string, r: string, code: bool)
    requires CodeTag(u, tag)
    ensures Scan(u, tag + r, code) == tag + Scan(u, r, tag[1] != '/')
    ensures TagAt(u, tag + r) && TagEnd(tag + r) == |tag| && CodeAfter(tag + r, code) == (tag[1] != '/')
  {
    hide Scan, Lawful, NameAt, CodeName, StartsFold;
    var s, slash := tag + r, tag[1] == '/';
    var d := if slash then 2 else 1;
    SlashName(u, tag);
    CodeNameAgree(u, tag[d..], r);
    assert s[d..] == tag[d..] + r;
    hide CodeTagAt;
    CodeFold(s, slash);
    TagEndIs(tag, r);
    ScanStep(u, s, code);
    assert s[..|tag|] == tag && s[|tag|..] == r;
  }

  /** Behind `</` the name follows. */
  lemma SlashName(u: Unicode, tag: string)
    requires CodeTag(u, tag)
    ensures if tag[1] == '/' then |tag| > 2 && CodeName(u, tag[2..]) && tag[2..][|tag| - 3] == '>'
            else CodeName(u, tag[1..]) && tag[1..][|tag| - 2] == '>'
  {
    if CodeName(u, tag[1..]) {
      assert |tag| >= 4 ==> FoldAll(tag[1..][..3])[0] == Fold(tag[1]);
      assert |tag| >= 5 ==> FoldAll(tag[1..][..4])[0] == Fold(tag[1]);
    }
  }

  /** The line pass sees a code tag at the start of a line's rest. */
  lemma LineCodeTag(u: Unicode, tag: string, r: string, code: bool)
    requires CodeTag(u, tag)
    ensures LineCode(u, tag + r, code) == LineCode(u, r, tag[1] != '/')
  {
    hide Lawful, CodeName;
    var d := if tag[1] == '/' then 2 else 1;
    SlashName(u, tag);
    CodeNameAgree(u, tag[d..], r);
    TagEndIs(tag, r);
    var s := tag + r;
    assert s[d..] == tag[d..] + r && s[|tag|..] == r;
    assert s[|tag| - 1] == '>';
    assert CodeTagAt(u, s);
  }

  lemma {:induction false} LineCodeSkip(u: Unicode, a: string, r: string, code: bool)
    requires '<' !in a
    ensures LineCode(u, a + r, code) == LineCode(u, r, code)
  {
    hide CodeName;
    if a == [] {
      assert a + r == r;
    } else {
      LineCodeSkip(u, a[1..], r, code);
      assert (a + r)[1..] == a[1..] + r;
    }
  }

  // ----- what the scanner does with a block -----

  /** The scanner, started on `s` in code, comes to position `n` without leaving code. */
  predicate Inside(u: Unicode, s: string, n: nat)
    decreases n
  {
    n == 0 || (s != [] && var (m, c) := Token(u, s, true); m <= n && c && Inside(u, s[m..], n - m))
  }

  /** Text inside code is copied. */
  lemma {:induction false} InsideScan(u: Unicode, s: string, n: nat)
    requires n <= |s| && Inside(u, s, n)
    ensures Scan(u, s, true) == s[..n] + Scan(u, s[n..], true)
    decreases n
  {
    hide Scan, Token, Lawful;
    if n == 0 {
      assert s[0..] == s && s[..0] == [];
    } else {
      var m := Token(u, s, true).0;
      TokenScan(u, s, true);
      InsideScan(u, s[m..], n - m);
      DropTake(s, m, n);
    }
  }

  /** Text without `<` and FSI is one token up to the next tag. */
  lemma PlainToken(u: Unicode, c: string, t: string, code: bool)
    requires '<' !in c && FSI !in c && c != [] && t != [] && TagAt(u, t)
    ensures Token(u, c + t, code) == (|c|, code) && (c + t)[|c|..] == t
  {
    hide TagAt, Lawful, PlainLength;
    var s := c + t;
    forall k | 0 <= k < |c| ensures PlainStart(u, s[k..]) {
      assert s[k..][0] == c[k];
      NotTag(u, s[k..]);
    }
    assert s[|c|..] == t && s[0..] == s;
    PlainLengthIs(u, s, |c|);
  }

  lemma PlainReaches(u: Unicode, c: string, t: string, code: bool)
    requires '<' !in c && FSI !in c && t != [] && TagAt(u, t)
    ensures Reaches(u, c + t, code, |c|, code) && (code ==> Inside(u, c + t, |c|))
  {
    hide TagAt, Lawful, Token;
    if c != [] {
      PlainToken(u, c, t, code);
      assert Reaches(u, t, code, 0, code) && Inside(u, t, 0);
    }
  }

  /** The scanner emits a code block exactly, and resumes outside code. */
  lemma CodeByteExact(u: Unicode, open: string, c: string, close: string, post: string, code: bool)
    requires OpenTag(u, open) && CloseTag(u, close) && Inside(u, c + close + post, |c|)
    ensures Scan(u, open + c + close + post, code) == open + c + close + Scan(u, post, false)
  {
    hide Scan, Lawful, CodeTag, Inside, TagAt, TagEnd, CodeAfter;
    var t := close + post;
    assert open + c + close + post == open + (c + t) && c + close + post == c + t;
    ContentScan(u, c, t);
    TagScanned(u, open, c + t, code);
    TagScanned(u, close, post, true);
    assert open + (c + (close + Scan(u, post, false))) == open + c + close + Scan(u, post, false);
  }

  lemma ContentScan(u: Unicode, c: string, t: string)
    requires Inside(u, c + t, |c|)
    ensures Scan(u, c + t, true) == c + Scan(u, t, true)
  {
    hide Scan, Lawful, Inside;
    InsideScan(u, c + t, |c|);
    assert (c + t)[..|c|] == c && (c + t)[|c|..] == t;
  }

  // ----- both passes -----

  lemma OpenLine(u: Unicode, tag: string)
    requires CodeTag(u, tag)
    ensures '\n' !in tag && tag != ""
  {
  }

  /** Behind every line end of the content, the line pass is in code. */
  ghost predicate InCode(u: Unicode, before: string, c: string) {
    forall k :: 0 <= k < |c| && c[k] == '\n' ==> FlagAfter(u, before + c[..k], false)
  }

  lemma InCodeCalm(u: Unicode, before: string, c: string, after: string)
    requires InCode(u, before, c)
    ensures Calm(u, before + c + after, |before|, |before| + |c|, false)
  {
    hide FlagAfter, FirstLine;
    var t := before + c + after;
    forall k | |before| <= k < |before| + |c| && t[k] == '\n' ensures Still(u, t, k, false) {
      assert t[k] == c[k - |before|];
      assert t[..k] == before + c[..k - |before|];
    }
  }

  /** A code block that the scanner sees passes both passes with RLMs inserted at most, and unchanged exactly
      if no line that begins inside it gets one; in particular if the line pass too is in code at every line
      end of the content, so always if the content has none. Around it, marks are inserted only. */
  lemma CodeBlockExact(u: Unicode, pre: string, open: string, c: string, close: string, post: string, code: bool)
    returns (a: string, y: string, r: string)
    requires OpenTag(u, open) && CloseTag(u, close)
    requires Reaches(u, pre + (open + c + close + post), false, |pre|, code) && Inside(u, c + close + post, |c|)
    ensures Rtl(u, pre + (open + c + close) + post) == a + y + r
    ensures Inserted(pre, a) && Inserted(open + c + close, y) && Inserted(post, r)
    ensures y == open + c + close <==> CalmAt(u, pre, open + c + close, post)
    ensures InCode(u, Emitted(u, pre + (open + c + close + post), false, |pre|) + open, c) ==> y == open + c + close
    ensures '\n' !in c ==> y == open + c + close
  {
    hide Scan, Lawful, Rtl, Reaches, Inside, Emitted, Inserted, CodeTag, CalmAt, InCode;
    var b := open + c + close;
    CodeByteExact(u, open, c, close, post, code);
    assert open + c + close + post == b + post;
    a, y, r := CopiedRegion(u, pre, b, post, code, false);
    OpenLine(u, open);
    OpenLine(u, close);
    if InCode(u, Emitted(u, pre + (b + post), false, |pre|) + open, c) {
      BlockCalm(u, pre, open, c, close, post, code);
    }
  }

  lemma BlockCalm(u: Unicode, pre: string, open: string, c: string, close: string, post: string, code: bool)
    requires '\n' !in open && '\n' !in close
    requires Reaches(u, pre + (open + c + close + post), false, |pre|, code)
    requires Scan(u, open + c + close + post, code) == open + c + close + Scan(u, post, false)
    requires InCode(u, Emitted(u, pre + (open + c + close + post), false, |pre|) + open, c)
    ensures CalmAt(u, pre, open + c + close, post)
  {
    hide Scan, Lawful, Reaches, Emitted, Inserted, InCode, Calm;
    var b := open + c + close;
    var s := pre + (b + post);
    assert pre + (open + c + close + post) == s;
    assert s[|pre|..] == b + post && s[..|pre|] == pre;
    ReachesScan(u, s, false, |pre|, code);
    var x, p := Emitted(u, s, false, |pre|), Scan(u, post, false);
    InCodeCalm(u, x + open, c, close + p);
    var t := x + open + c + (close + p);
    assert Scan(u, s, false) == x + (b + p);
    assert x + (b + p) == t;
    CalmTags(u, x, open, c, close, p);
  }

  /** The tags of a block hold no line end. */
  lemma CalmTags(u: Unicode, x: string, open: string, c: string, close: string, p: string)
    requires '\n' !in open && '\n' !in close
    requires Calm(u, x + open + c + (close + p), |x + open|, |x + open| + |c|, false)
    ensures Calm(u, x + open + c + (close + p), |x|, |x| + |open + c + close|, false)
  {
    hide Still;
    var t := x + open + c + (close + p);
    assert forall k :: |x| <= k < |x + open| ==> t[k] == open[k - |x|];
    assert forall k :: |x + open + c| <= k < |x + open + c + close| ==> t[k] == close[k - |x + open + c|];
  }

  // ----- plain text around and inside -----

  lemma {:induction false} FlagPlain(u: Unicode, z: string, code: bool)
    requires '<' !in z
    ensures FlagAfter(u, z, code) == code
    decreases |z|
  {
    hide LineCode, FlagAfter;
    var ln, rest := Cut(z);
    assert forall c :: c in ln ==> c in z;
    LineCodeSkip(u, ln, [], code);
    assert ln + [] == ln;
    assert LineCode(u, [], code) == code by { NoLine(u, code); }
    FlagFirst(u, ln, rest, code);
    if '\n' in z {
      assert forall c :: c in rest ==> c in z;
      FlagPlain(u, rest, code);
    }
  }

  lemma NoLine(u: Unicode, code: bool)
    ensures LineCode(u, [], code) == code
  {
  }

  /** Behind an opening tag and text without `<`, the line pass is in code. */
  lemma {:induction false} FlagOpen(u: Unicode, x: string, open: string, z: string, code: bool)
    requires '<' !in x && '<' !in z && OpenTag(u, open)
    ensures FlagAfter(u, x + open + z, code)
    decreases |x|
  {
    hide LineCode, FlagAfter, CodeTag, Lawful;
    var ln, rest := Cut(x);
    if '\n' in x {
      assert forall c :: c in rest ==> c in x;
      FlagOpen(u, rest, open, z, LineCode(u, ln, code));
      assert x + open + z == ln + "\n" + (rest + open + z);
      FlagFirst(u, ln, rest + open + z, code);
    } else {
      FlagOpenLine(u, x, open, z, code);
    }
  }

  lemma FlagOpenLine(u: Unicode, x: string, open: string, z: string, code: bool)
    requires '<' !in x && '\n' !in x && '<' !in z && OpenTag(u, open)
    ensures FlagAfter(u, x + open + z, code)
  {
    hide LineCode, FlagAfter, CodeTag, Lawful;
    var ln, rest := Cut(z);
    OpenLine(u, open);
    assert forall c :: c in ln ==> c in z;
    var first := x + open + ln;
    assert first == x + (open + ln);
    LineCodeSkip(u, x, open + ln, code);
    LineCodeTag(u, open, ln, code);
    LineCodeSkip(u, ln, [], true);
    assert ln + [] == ln;
    assert LineCode(u, [], true) by { NoLine(u, true); }
    FlagFirst(u, first, rest, code);
    if '\n' in z {
      assert forall c :: c in rest ==> c in z;
      FlagPlain(u, rest, true);
      assert x + open + z == first + "\n" + rest;
    }
  }

  /** Around any code tags, content of any number of lines without `<` and FSI is emitted exactly, behind text
      without them. */
  lemma PlainBlockExact(u: Unicode, pre: string, open: string, c: string, close: string, post: string)
    returns (a: string, r: string)
    requires OpenTag(u, open) && CloseTag(u, close)
    requires '<' !in pre && FSI !in pre && '<' !in c && FSI !in c
    ensures Rtl(u, pre + (open + c + close) + post) == a + (open + c + close) + r
    ensures Inserted(pre, a) && Inserted(post, r)
  {
    hide Rtl, Lawful, CodeTag, TagAt, Reaches, Inside, Emitted, Inserted, CodeAfter, TagEnd, Scan, FlagAfter, CalmAt;
    OpenLine(u, open);
    OpenLine(u, close);
    TagScanned(u, open, c + close + post, false);
    TagScanned(u, close, post, true);
    assert open + c + close + post == open + (c + close + post);
    assert c + close + post == c + (close + post);
    PlainReaches(u, pre, open + c + close + post, false);
    PlainReaches(u, c, close + post, true);
    var s := pre + (open + c + close + post);
    var x := Emitted(u, s, false, |pre|);
    ReachesScan(u, s, false, |pre|, false);
    assert s[..|pre|] == pre;
    InsertedChars(pre, x, '<');
    forall k | 0 <= k < |c| && c[k] == '\n' ensures FlagAfter(u, x + open + c[..k], false) {
      FlagOpen(u, x, open, c[..k], false);
    }
    assert InCode(u, x + open, c);
    var y: string;
    a, y, r := CodeBlockExact(u, pre, open, c, close, post, false);
  }
}
