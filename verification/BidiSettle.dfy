/** The scanner's output is settled, unless an inserted FSI turns plain text into a tag. */
module BidiSettle {
  import opened Common
  import opened BidiText
  import opened BidiScan

  /** Non-ASCII characters that alone spell a one-letter tag name. */
  predicate FoldsToTag(c: char) { c == '\U{130}' || c == '\U{131}' || c == '\U{17F}' }

  predicate PhantomName(s: string) {
    |s| >= 2 && FoldsToTag(s[0]) && AsciiAlnum(s[1])
  }

  /** `<`, an optional `/`, one such character, then a letter or digit: not a tag here, but one
      as soon as an FSI separates the last two. */
  predicate PhantomAt(s: string) {
    |s| >= 1 && s[0] == '<' && (PhantomName(s[1..]) || (|s| >= 2 && s[1] == '/' && PhantomName(s[2..])))
  }

  predicate PhantomFree(s: string) {
    forall k :: 0 <= k < |s| ==> !PhantomAt(s[k..])
  }

  lemma PhantomFreeDrop(s: string, j: nat)
    requires PhantomFree(s) && j <= |s|
    ensures PhantomFree(s[j..])
  {
    forall k | 0 <= k < |s[j..]| ensures !PhantomAt(s[j..][k..]) {
      assert s[j..][k..] == s[j + k..];
    }
  }

  // ----- phantoms that matter -----

  /** `_isolate` wraps a run at the start of `t`. */
  predicate Wrapped(u: Unicode, t: string) {
    var n := MatchLength(u, t); n > 0 && HasLetter(t[..n])
  }

  predicate LiveName(u: Unicode, s: string) { PhantomName(s) && Wrapped(u, s[1..]) }

  /** A phantom tag behind whose name an FSI is in fact inserted. */
  predicate LiveAt(u: Unicode, s: string) {
    |s| >= 1 && s[0] == '<' && (LiveName(u, s[1..]) || (|s| >= 2 && s[1] == '/' && LiveName(u, s[2..])))
  }

  /** The scan meets no live phantom in plain text outside code. */
  predicate Quiet(u: Unicode, s: string, code: bool)
    decreases |s|
  {
    if s == [] then true
    else if s[0] == FSI then
      var j := IndexOf(s, PDI);
      if j == |s| then Quiet(u, s[1..], code) else Quiet(u, s[j + 1..], code)
    else if TagAt(u, s) then Quiet(u, s[TagEnd(s)..], CodeAfter(s, code))
    else (code || !LiveAt(u, s)) && Quiet(u, s[1..], code)
  }

  lemma {:induction false} PhantomFreeQuiet(u: Unicode, s: string, code: bool)
    requires PhantomFree(s)
    ensures Quiet(u, s, code)
    decreases |s|
  {
    hide TagAt, CodeAfter, Lawful, PhantomFree, Wrapped;
    if s != [] {
      PhantomFreeFirst(s);
      if s[0] == FSI {
        var j := IndexOf(s, PDI);
        var k := if j == |s| then 1 else j + 1;
        PhantomFreeDrop(s, k);
        PhantomFreeQuiet(u, s[k..], code);
      } else if TagAt(u, s) {
        PhantomFreeDrop(s, TagEnd(s));
        PhantomFreeQuiet(u, s[TagEnd(s)..], CodeAfter(s, code));
      } else {
        PhantomFreeDrop(s, 1);
        PhantomFreeQuiet(u, s[1..], code);
      }
    }
  }

  /** A plain run of a quiet scan outside code. */
  lemma {:induction false} QuietPlain(u: Unicode, s: string, code: bool, j: nat)
    requires j <= PlainLength(u, s) && Quiet(u, s, code)
    ensures Quiet(u, s[j..], code)
    ensures !code ==> forall k :: 0 <= k < j ==> !LiveAt(u, s[k..])
  {
    hide TagAt, CodeAfter, Lawful, LiveAt;
    assert s[0..] == s;
    if j > 0 {
      QuietPlain(u, s[1..], code, j - 1);
      assert s[1..][j - 1..] == s[j..];
      forall k | 0 <= k < j && !code ensures !LiveAt(u, s[k..]) {
        if k > 0 { assert s[k..] == s[1..][k - 1..]; }
      }
    }
  }

  lemma QuietTag(u: Unicode, s: string, code: bool)
    requires s != [] && s[0] != FSI && TagAt(u, s)
    ensures Quiet(u, s, code) == Quiet(u, s[TagEnd(s)..], CodeAfter(s, code))
  {
    hide TagAt, CodeAfter, Lawful, LiveAt;
  }

  // ----- a match does not look past `<` or FSI -----

  predicate Stops(tail: string) { tail == [] || tail[0] == FSI || tail[0] == '<' }

  lemma {:induction false} CommandStops(u: Unicode, a: string, tail: string)
    requires Stops(tail)
    ensures CommandSpan(u, a + tail) == CommandSpan(u, a)
  {
    hide FoldsToAscii;
    if a == [] {
      assert a + tail == tail;
    } else {
      CommandStops(u, a[1..], tail);
      assert (a + tail)[1..] == a[1..] + tail;
    }
  }

  lemma {:induction false} MentionStops(a: string, tail: string)
    requires Stops(tail)
    ensures MentionSpan(a + tail) == MentionSpan(a)
  {
    if a == [] {
      assert a + tail == tail;
    } else {
      MentionStops(a[1..], tail);
      assert (a + tail)[1..] == a[1..] + tail;
    }
  }

  lemma {:induction false} RunStops(a: string, tail: string)
    requires Stops(tail)
    ensures RunSpan(a + tail) == RunSpan(a)
  {
    if a == [] {
      assert a + tail == tail;
    } else {
      hide RunChar;
      RunStops(a[1..], tail);
      assert (a + tail)[1..] == a[1..] + tail;
    }
  }

  lemma {:induction false} BackOffStops(a: string, tail: string, n: nat)
    requires n <= |a|
    ensures BackOff(a + tail, n) == BackOff(a, n)
  {
    if n > 0 { BackOffStops(a, tail, n - 1); }
  }

  lemma MatchStops(u: Unicode, a: string, tail: string)
    requires a != [] && Stops(tail)
    ensures MatchLength(u, a + tail) == MatchLength(u, a)
    ensures Wrapped(u, a + tail) == Wrapped(u, a)
  {
    hide Lawful, RunChar, RunSpan, MentionSpan, CommandSpan, BackOff;
    var s, n := a + tail, MatchLength(u, a);
    assert s[0] == a[0] && s[1..] == a[1..] + tail;
    RunStops(a[1..], tail);
    BackOffStops(a[1..], tail, RunSpan(a[1..]));
    if |a| >= 2 {
      assert s[1] == a[1] && s[2..] == a[2..] + tail;
      CommandStops(u, a[2..], tail);
      MentionStops(a[2..], tail);
    } else {
      assert |s| >= 2 ==> s[1] == tail[0];
    }
    assert MatchLength(u, s) == n by { hide HasLetter; }
    assert s[..n] == a[..n];
  }

  // ----- no new tags -----

  /** `r` replaces `tail` behind a plain run: both empty, or both start with the same FSI or `<`. */
  predicate Follows(tail: string, r: string) {
    if tail == [] then r == []
    else r != [] && r[0] == tail[0] && (tail[0] == FSI || tail[0] == '<')
  }

  lemma NameStart(u: Unicode, s: string)
    requires NameAt(u, s)
    ensures 'a' <= Fold(s[0]) <= 'z'
  {
    hide Lawful;
    var k :| 0 < k <= |s| && IsTagName(FoldAll(s[..k])) && Boundary(u, s, k);
    var n := FoldAll(s[..k]);
    assert n[0] == Fold(s[0]);
    assert n[0] != '-';
    TagNameChars(n);
  }

  /** Past a folded first letter, a longer name continues with an ASCII letter. */
  lemma FoldedName(u: Unicode, s: string, k: nat)
    requires 0 < k <= |s| && IsTagName(FoldAll(s[..k]))
    requires FoldsToAscii(s[0])
    ensures FoldsToTag(s[0])
    ensures k == 1 || (k > 1 && AsciiLetter(s[1]))
  {
    hide Lawful;
    var n := FoldAll(s[..k]);
    assert n[0] == Fold(s[0]);
    if k > 1 {
      assert n[1] == Fold(s[1]);
      assert n[1] in "tpn";
    }
  }

  lemma IsolateHead(u: Unicode, a: string, r: string)
    requires r != [] ==> r[0] == FSI || r[0] == '<'
    ensures var x := Isolate(u, a) + r;
            x != [] ==> !AsciiLetter(x[0]) && (x[0] == FSI || x[0] == '<' || (a != [] && x[0] == a[0]))
    ensures a != [] ==> Isolate(u, a) != []
    ensures a != [] && AsciiAlnum(a[0]) ==> (Isolate(u, a) + r)[0] in [FSI, a[0]]
    ensures a != [] && !AsciiAlnum(a[0]) && a[0] != '/' && a[0] != '@'
            ==> Isolate(u, a) == [a[0]] + Isolate(u, a[1..])
    ensures a != [] && a[0] == '/' && (Isolate(u, a) + r)[0] == '/'
            ==> Isolate(u, a) == ['/'] + Isolate(u, a[1..])
    ensures a != [] && (Isolate(u, a) + r)[0] != a[0] ==> Wrapped(u, a)
  {
    hide Lawful, FoldAll, Isolate;
    IsolateEmpty(u);
    if a != [] {
      IsolateStep(u, a);
      var n := MatchLength(u, a);
      if n > 0 && AsciiLetter(a[0]) {
        assert a[..n][0] == a[0];
      }
      if n > 0 && a[0] == '/' {
        assert a[..n][1] == a[1];
      }
    }
  }

  /** A one-letter name ends where a word does. */
  lemma OneLetterName(u: Unicode, x: string, y: string)
    requires x != [] && y != [] && x[0] == y[0] && IsTagName(FoldAll(x[..1])) && Boundary(u, x, 1)
    requires |y| > 1 && u.word(y[1]) ==> |x| > 1 && u.word(x[1])
    ensures u.word(x[0]) ==> NameAt(u, y)
  {
    hide IsTagName, Lawful;
    if u.word(x[0]) {
      assert FoldAll(y[..1]) == FoldAll(x[..1]);
      assert Boundary(u, y, 1);
    }
  }

  /** A name at the start of an isolated text is one folded letter of the text. */
  lemma ShortName(u: Unicode, a: string, r: string)
    requires (r != [] ==> r[0] == FSI || r[0] == '<') && NameAt(u, Isolate(u, a) + r)
    ensures var x := Isolate(u, a) + r;
            && a != [] && x != [] && x[0] == a[0] && FoldsToTag(a[0]) && IsTagName(FoldAll(x[..1])) && Boundary(u, x, 1)
            && x[1..] == Isolate(u, a[1..]) + r
  {
    hide Isolate, IsTagName, Wrapped, Lawful;
    var x := Isolate(u, a) + r;
    NameStart(u, x);
    IsolateHead(u, a, r);
    assert FoldsToAscii(x[0]) && a != [] && x[0] == a[0];
    IsolateHead(u, a[1..], r);
    assert x[1..] == Isolate(u, a[1..]) + r;
    var k :| 0 < k <= |x| && IsTagName(FoldAll(x[..k])) && Boundary(u, x, k);
    FoldedName(u, x, k);
    assert |x| > 1 ==> x[1] == x[1..][0];
  }

  /** Unless a run is wrapped there, a word that goes on before isolating goes on after it. */
  lemma WordGoesOn(u: Unicode, b: string, tail: string, r: string)
    requires Follows(tail, r) && b + tail != [] && u.word((b + tail)[0])
    requires AsciiAlnum((b + tail)[0]) ==> !Wrapped(u, b + tail)
    ensures var x := Isolate(u, b) + r; x != [] && u.word(x[0])
  {
    hide Isolate, Wrapped;
    IsolateHead(u, b, r);
    assert b == [] ==> b + tail == tail;
    if b != [] {
      MatchStops(u, b, tail);
      assert (b + tail)[0] == b[0];
      if Wrapped(u, b) { WrappedHead(u, b); }
    }
  }

  lemma WrappedHead(u: Unicode, b: string)
    requires Wrapped(u, b)
    ensures AsciiAlnum(b[0]) || !u.word(b[0])
  {
    hide MatchLength, HasLetter;
    assert b != [];
  }

  lemma NoNewName(u: Unicode, a: string, tail: string, r: string)
    requires !NameAt(u, a + tail) && !LiveName(u, a + tail) && Follows(tail, r)
    ensures !NameAt(u, Isolate(u, a) + r)
  {
    hide Isolate, IsTagName, Wrapped, NameAt, Lawful;
    var x, y := Isolate(u, a) + r, a + tail;
    if NameAt(u, x) {
      ShortName(u, a, r);
      assert y[1..] == a[1..] + tail;
      if |y| > 1 && u.word(y[1]) {
        assert y[1] == y[1..][0];
        WordGoesOn(u, a[1..], tail, r);
        SecondChar(x, Isolate(u, a[1..]) + r);
      }
      FoldedWord(u, a[0]);
      OneLetterName(u, x, y);
    }
  }

  lemma SecondChar(x: string, z: string)
    requires x != [] && x[1..] == z && z != []
    ensures |x| > 1 && x[1] == z[0]
  {
  }

  lemma FoldedWord(u: Unicode, c: char)
    requires FoldsToTag(c)
    ensures u.word(c)
  {
  }

  lemma NoNewTag(u: Unicode, seg: string, tail: string, r: string)
    requires seg != [] && seg[0] == '<'
    requires !TagAt(u, seg + tail) && !LiveAt(u, seg + tail) && Follows(tail, r)
    ensures !TagAt(u, [seg[0]] + Isolate(u, seg[1..]) + r)
  {
    hide Isolate, NameAt, Lawful, LiveName;
    var a := seg[1..];
    var x := [seg[0]] + Isolate(u, a) + r;
    var s := seg + tail;
    assert s[1..] == a + tail;
    assert x[1..] == Isolate(u, a) + r;
    if |s| > 1 {
      NoNewName(u, a, tail, r);
      IsolateHead(u, a, r);
      if |x| > 1 && x[1] == '/' {
        assert a[0] == '/' && s[1] == '/';
        assert Isolate(u, a) == ['/'] + Isolate(u, a[1..]);
        assert s[2..] == a[1..] + tail;
        assert x[2..] == Isolate(u, a[1..]) + r;
        NoNewName(u, a[1..], tail, r);
      }
    } else {
      assert a == [] && tail == [] && r == [];
      IsolateEmpty(u);
    }
  }

  // ----- one plain segment -----

  lemma IndexOfSkip(a: string, b: string, c: char)
    requires c !in a
    ensures IndexOf(a + b, c) == |a| + IndexOf(b, c)
  {
    var t := a + b;
    var n := |a| + IndexOf(b, c);
    assert forall k :: 0 <= k < |t| ==> t[k] == if k < |a| then a[k] else b[k - |a|];
    if n < |t| { IndexOfIs(t, c, n); }
  }

  lemma {:induction false} SkipPlain(u: Unicode, a: string, r: string, code: bool)
    requires forall i :: 0 <= i < |a| ==> a[i] != '<' && a[i] != FSI && !AsciiLetter(a[i])
    requires Settled(u, r, code)
    ensures Settled(u, a + r, code)
  {
    hide NameAt, CodeAfter, Lawful;
    if a == [] {
      assert a + r == r;
    } else {
      SkipPlain(u, a[1..], r, code);
      assert (a + r)[1..] == a[1..] + r;
    }
  }

  lemma SkipWrapped(u: Unicode, run: string, r: string, code: bool)
    requires PDI !in run && Settled(u, r, code)
    ensures Settled(u, [FSI] + run + [PDI] + r, code)
  {
    hide TagAt, CodeAfter, Lawful;
    var t := [FSI] + run + [PDI] + r;
    assert t == ([FSI] + run) + ([PDI] + r);
    IndexOfSkip([FSI] + run, [PDI] + r, PDI);
    assert t[|run| + 2..] == r;
  }

  /** The isolated form of a plain segment is settled, whatever the code flag. */
  lemma {:induction false} IsolateSettled(u: Unicode, seg: string, tail: string, r: string, code: bool)
    requires forall k :: 0 <= k < |seg| ==> PlainStart(u, (seg + tail)[k..])
    requires forall k :: 0 <= k < |seg| ==> !LiveAt(u, (seg + tail)[k..])
    requires Follows(tail, r) && Settled(u, r, code)
    ensures Settled(u, Isolate(u, seg) + r, code)
    decreases |seg|
  {
    hide TagAt, CodeAfter, Lawful, LiveAt, Isolate, Settled, MatchLength, PlainStart, Follows, Wrap;
    if seg == [] {
      IsolateEmpty(u);
      assert Isolate(u, seg) + r == r;
    } else {
      var n := MatchLength(u, seg);
      var m := if n == 0 then 1 else n;
      IsolateSettledRest(u, seg, tail, m);
      IsolateSettled(u, seg[m..], tail, r, code);
      var x := Isolate(u, seg[m..]) + r;
      IsolateStep(u, seg);
      if n == 0 {
        assert (seg + tail)[0..] == seg + tail;
        assert PlainStart(u, (seg + tail)[0..]);
        assert !LiveAt(u, (seg + tail)[0..]);
        IsolateSettledChar(u, seg, tail, r, code);
        assert Isolate(u, seg) + r == [seg[0]] + x;
      } else {
        SkipRun(u, seg, n, x, code);
        assert Isolate(u, seg) + r == Wrap(seg[..n]) + x;
      }
    }
  }

  lemma SkipRun(u: Unicode, seg: string, n: nat, x: string, code: bool)
    requires n == MatchLength(u, seg) && Settled(u, x, code)
    ensures Settled(u, Wrap(seg[..n]) + x, code)
  {
    hide Lawful, MatchLength, Settled;
    var run := seg[..n];
    assert forall k :: 0 <= k < n ==> run[k] == seg[k];
    if HasLetter(run) {
      SkipWrapped(u, run, x, code);
    } else {
      SkipPlain(u, run, x, code);
    }
  }

  lemma PhantomFreeFirst(s: string)
    requires s != [] && PhantomFree(s)
    ensures !PhantomAt(s)
  {
    assert s[0..] == s;
  }

  lemma IsolateSettledChar(u: Unicode, seg: string, tail: string, r: string, code: bool)
    requires seg != [] && MatchLength(u, seg) == 0
    requires PlainStart(u, seg + tail) && !LiveAt(u, seg + tail) && Follows(tail, r)
    requires Settled(u, Isolate(u, seg[1..]) + r, code)
    ensures Settled(u, [seg[0]] + (Isolate(u, seg[1..]) + r), code)
  {
    hide TagAt, CodeAfter, Lawful, LiveAt, Isolate, Settled, MatchLength;
    var x := Isolate(u, seg[1..]) + r;
    var t := [seg[0]] + Isolate(u, seg[1..]) + r;
    assert t == [seg[0]] + x;
    assert (seg + tail)[0] == seg[0];
    if seg[0] == '<' { NoNewTag(u, seg, tail, r); } else { NotTag(u, t); }
    SkipChar(u, seg[0], x, code);
  }

  lemma NotTag(u: Unicode, s: string)
    requires s != [] && s[0] != '<'
    ensures !TagAt(u, s)
  {
  }

  lemma SkipChar(u: Unicode, c: char, r: string, code: bool)
    requires c != FSI && (code || !AsciiLetter(c)) && !TagAt(u, [c] + r) && Settled(u, r, code)
    ensures Settled(u, [c] + r, code)
  {
    hide TagAt, CodeAfter, Lawful;
    assert ([c] + r)[1..] == r;
  }

  lemma IsolateSettledRest(u: Unicode, seg: string, tail: string, m: nat)
    requires forall k :: 0 <= k < |seg| ==> PlainStart(u, (seg + tail)[k..]) && !LiveAt(u, (seg + tail)[k..])
    requires m <= |seg|
    ensures forall k :: 0 <= k < |seg[m..]|
              ==> PlainStart(u, (seg[m..] + tail)[k..]) && !LiveAt(u, (seg[m..] + tail)[k..])
  {
    hide PlainStart, LiveAt;
    forall k | 0 <= k < |seg[m..]|
      ensures PlainStart(u, (seg[m..] + tail)[k..]) && !LiveAt(u, (seg[m..] + tail)[k..])
    {
      assert (seg[m..] + tail)[k..] == (seg + tail)[m + k..];
    }
  }

  /** A segment copied inside code is skipped again by a scan that is inside code. */
  lemma {:induction false} RawSettled(u: Unicode, seg: string, tail: string, r: string)
    requires forall k :: 0 <= k < |seg| ==> PlainStart(u, (seg + tail)[k..])
    requires Follows(tail, r) && Settled(u, r, true)
    ensures Settled(u, seg + r, true)
    decreases |seg|
  {
    hide TagAt, CodeAfter, Lawful, Settled;
    if seg == [] {
      assert seg + r == r;
    } else {
      var s, t := seg + tail, seg + r;
      assert PlainStart(u, s[0..]) && s[0..] == s && s[0] == t[0] == seg[0];
      RawTag(u, seg, tail, r);
      forall k | 0 <= k < |seg[1..]| ensures PlainStart(u, (seg[1..] + tail)[k..]) {
        assert (seg[1..] + tail)[k..] == s[k + 1..];
      }
      RawSettled(u, seg[1..], tail, r);
      assert t == [seg[0]] + (seg[1..] + r);
      SkipChar(u, seg[0], seg[1..] + r, true);
    }
  }

  lemma RawTag(u: Unicode, seg: string, tail: string, r: string)
    requires seg != [] && Follows(tail, r)
    ensures TagAt(u, seg + tail) == TagAt(u, seg + r)
  {
    hide TagAt, Lawful;
    if tail == [] {
      assert seg + tail == seg + r;
    } else {
      var j := |seg| + 1;
      assert (seg + tail)[..j] == seg + [tail[0]] == (seg + r)[..j];
      TagAtAgree(u, seg + tail, seg + r, j);
    }
  }

  // ----- the whole scan -----

  lemma ScanFollows(u: Unicode, s: string, code: bool)
    requires !PlainStart(u, s)
    ensures Follows(s, Scan(u, s, code))
  {
    hide NameAt, CodeAfter, Lawful, Isolate;
    if s != [] && s[0] != FSI {
      assert TagEnd(s) > 0;
      assert s[..TagEnd(s)][0] == s[0];
    }
  }

  lemma {:induction false} PlainLengthDrop(u: Unicode, s: string, e: nat)
    requires e <= PlainLength(u, s)
    ensures PlainLength(u, s[e..]) == PlainLength(u, s) - e
  {
    hide TagAt;
    if e == 0 {
      assert s[0..] == s;
    } else {
      PlainLengthDrop(u, s[1..], e - 1);
      assert s[1..][e - 1..] == s[e..];
    }
  }

  lemma ScanPlain(u: Unicode, s: string, e: nat)
    requires e <= PlainLength(u, s)
    ensures var n := PlainLength(u, s);
            Scan(u, s[e..], false) == Isolate(u, s[e..n]) + Scan(u, s[n..], false)
  {
    hide TagAt, CodeAfter, Lawful, Isolate, Scan, IndexOf;
    var n := PlainLength(u, s);
    PlainLengthDrop(u, s, e);
    assert s[e..][n - e..] == s[n..] && s[e..][..n - e] == s[e..n];
    if e < n {
      assert PlainStart(u, s[e..]);
      hide PlainLength;
      ScanStep(u, s[e..], false);
    } else {
      IsolateEmpty(u);
      assert s[e..n] == [] && Isolate(u, []) + Scan(u, s[n..], false) == Scan(u, s[n..], false);
    }
  }

  /** What follows the first PDI of an isolated segment is the isolated form of a suffix. */
  lemma {:induction false} AfterIsolatePop(u: Unicode, seg: string) returns (e: nat)
    requires PDI !in seg && PDI in Isolate(u, seg)
    ensures e <= |seg|
    ensures var x := Isolate(u, seg); IndexOf(x, PDI) < |x| && x[IndexOf(x, PDI) + 1..] == Isolate(u, seg[e..])
    decreases |seg|
  {
    hide Lawful, Isolate, MatchLength, HasLetter, TagAt, IndexOf;
    IsolateEmpty(u);
    var m, wrapped := IsolateSplit(u, seg);
    var rest := Isolate(u, seg[m..]);
    assert PDI !in seg[..m];
    if wrapped {
      e := m;
      assert Isolate(u, seg) == ([FSI] + seg[..m]) + ([PDI] + rest);
      AfterSkip([FSI] + seg[..m], [PDI] + rest);
      PopFirst(rest);
    } else {
      AfterSkip(seg[..m], rest);
      var f := AfterIsolatePop(u, seg[m..]);
      e := m + f;
      assert seg[m..][f..] == seg[e..];
    }
  }

  lemma IsolateSplit(u: Unicode, seg: string) returns (m: nat, wrapped: bool)
    requires seg != []
    ensures 0 < m <= |seg|
    ensures Isolate(u, seg) == (if wrapped then [FSI] + seg[..m] + [PDI] else seg[..m]) + Isolate(u, seg[m..])
  {
    hide Isolate;
    IsolateStep(u, seg);
    var n := MatchLength(u, seg);
    m, wrapped := if n == 0 then 1 else n, n > 0 && HasLetter(seg[..n]);
    assert n == 0 ==> seg[..1] == [seg[0]];
  }

  lemma PopFirst(r: string)
    ensures ([PDI] + r)[IndexOf([PDI] + r, PDI) + 1..] == r
  {
    assert IndexOf([PDI] + r, PDI) == 0;
  }

  lemma AfterSkip(a: string, b: string)
    requires PDI !in a && PDI in b
    ensures PDI in a + b && IndexOf(b, PDI) < |b| && IndexOf(a + b, PDI) < |a + b|
    ensures (a + b)[IndexOf(a + b, PDI) + 1..] == b[IndexOf(b, PDI) + 1..]
  {
    IndexOfSkip(a, b, PDI);
    IndexOfIn(b, PDI);
  }

  lemma IndexOfIn(s: string, c: char)
    ensures IndexOf(s, c) < |s| <==> c in s
  {
  }

  /** One step of the scanner on a token that is copied. */
  lemma ScanCopied(u: Unicode, s: string, code: bool) returns (n: nat, code': bool)
    requires s != [] && PDI !in s
    requires s[0] == FSI || TagAt(u, s) || code
    ensures 0 < n <= |s| && Scan(u, s, code) == s[..n] + Scan(u, s[n..], code')
    ensures Quiet(u, s, code) ==> Quiet(u, s[n..], code')
  {
    hide TagAt, CodeAfter, Lawful, Isolate, Scan, LiveAt;
    IndexOfIn(s, PDI);
    ScanStep(u, s, code);
    if Quiet(u, s, code) { QuietPlain(u, s, code, PlainLength(u, s)); }
    if s[0] == FSI {
      n, code' := 1, code;
      assert s[..1] == [FSI];
    } else if TagAt(u, s) {
      n, code' := TagEnd(s), CodeAfter(s, code);
    } else {
      n, code' := PlainLength(u, s), code;
    }
  }

  /** In a text without PDI, what follows the first inserted PDI is the scan of a suffix, outside code. */
  lemma {:induction false} AfterPop(u: Unicode, s: string, code: bool) returns (k: nat)
    requires PDI !in s && PDI in Scan(u, s, code)
    ensures k <= |s|
    ensures var o := Scan(u, s, code); o[IndexOf(o, PDI) + 1..] == Scan(u, s[k..], false)
    ensures Quiet(u, s, code) ==> Quiet(u, s[k..], false)
    decreases |s|, 1
  {
    hide TagAt, CodeAfter, Lawful, Isolate, Scan, Quiet;
    ScanEmpty(u, code);
    if s[0] == FSI || TagAt(u, s) || code {
      var o := Scan(u, s, code);
      var n, code' := ScanCopied(u, s, code);
      var rest := Scan(u, s[n..], code');
      AfterSkip(s[..n], rest);
      var f := AfterPop(u, s[n..], code');
      k := n + f;
      assert s[n..][f..] == s[k..];
    } else {
      k := AfterPopPlain(u, s);
    }
  }

  lemma {:induction false} AfterPopPlain(u: Unicode, s: string) returns (k: nat)
    requires PDI !in s && PDI in Scan(u, s, false) && PlainStart(u, s)
    ensures k <= |s|
    ensures var o := Scan(u, s, false); o[IndexOf(o, PDI) + 1..] == Scan(u, s[k..], false)
    ensures Quiet(u, s, false) ==> Quiet(u, s[k..], false)
    decreases |s|, 0
  {
    hide TagAt, CodeAfter, Lawful, Isolate, Scan, Quiet, LiveAt;
    var o := Scan(u, s, false);
    var n := PlainLength(u, s);
    var x, rest := Isolate(u, s[..n]), Scan(u, s[n..], false);
    ScanPlain(u, s, 0);
    assert s[0..] == s && s[0..n] == s[..n];
    if PDI in x {
      k := AfterIsolatePop(u, s[..n]);
      IndexOfIn(x, PDI);
      var i := IndexOf(x, PDI);
      assert forall q :: 0 <= q < |x| ==> o[q] == x[q];
      IndexOfIs(o, PDI, i);
      ScanPlain(u, s, k);
      assert s[..n][k..] == s[k..n];
      assert o[i + 1..] == x[i + 1..] + rest;
      if Quiet(u, s, false) { QuietPlain(u, s, false, k); }
    } else {
      if Quiet(u, s, false) { QuietPlain(u, s, false, n); }
      AfterSkip(x, rest);
      var f := AfterPop(u, s[n..], false);
      k := n + f;
      assert s[n..][f..] == s[k..];
    }
  }

  /** The output of a scan is settled for every later scan whose code flag covers its own. */
  lemma {:induction false} ScanSettles(u: Unicode, s: string, c1: bool, c2: bool)
    requires Quiet(u, s, c1) && (c1 ==> c2)
    ensures Settled(u, Scan(u, s, c1), c2)
    decreases |s|
  {
    hide TagAt, CodeAfter, Lawful, Isolate, Quiet, LiveAt, Scan, Settled;
    if s == [] {
      ScanEmpty(u, c1);
      SettledEmpty(u, c2);
    } else if s[0] == FSI {
      ScanSettlesIsolate(u, s, c1, c2);
    } else if TagAt(u, s) {
      ScanSettlesTag(u, s, c1, c2);
    } else {
      var n := PlainLength(u, s);
      PlainRun(u, s);
      var tail, r := s[n..], Scan(u, s[n..], c1);
      QuietPlain(u, s, c1, n);
      ScanSettles(u, tail, c1, c2);
      ScanFollows(u, tail, c1);
      ScanStep(u, s, c1);
      assert s == s[..n] + tail;
      if c1 {
        RawSettled(u, s[..n], tail, r);
      } else {
        assert forall k :: 0 <= k < n ==> !LiveAt(u, (s[..n] + tail)[k..]);
        IsolateSettled(u, s[..n], tail, r, c2);
      }
    }
  }

  lemma {:induction false} ScanSettlesIsolate(u: Unicode, s: string, c1: bool, c2: bool)
    requires Quiet(u, s, c1) && (c1 ==> c2)
    requires s != [] && s[0] == FSI
    ensures Settled(u, Scan(u, s, c1), c2)
    decreases |s|, 0
  {
    hide TagAt, CodeAfter, Lawful, Isolate, LiveAt, Settled, Scan;
    var j := IndexOf(s, PDI);
    ScanStep(u, s, c1);
    if j < |s| {
      var r := Scan(u, s[j + 1..], c1);
      ScanSettles(u, s[j + 1..], c1, c2);
      var run := s[1..j];
      SkipWrapped(u, run, r, c2);
      assert s[..j + 1] == [FSI] + run + [PDI];
    } else {
      var r := Scan(u, s[1..], c1);
      IndexOfIn(s, PDI);
      if PDI in r {
        var k := AfterPop(u, s[1..], c1);
        ScanSettles(u, s[1..][k..], false, c2);
      } else {
        ScanSettles(u, s[1..], c1, c2);
      }
      LoneSettled(u, r, c2);
    }
  }

  /** A lone FSI pairs with the next PDI of the output, if there is one. */
  lemma LoneSettled(u: Unicode, r: string, code: bool)
    requires PDI in r ==> Settled(u, r[IndexOf(r, PDI) + 1..], code)
    requires PDI !in r ==> Settled(u, r, code)
    ensures Settled(u, [FSI] + r, code)
  {
    hide TagAt, CodeAfter, Lawful;
    IndexOfSkip([FSI], r, PDI);
    IndexOfIn(r, PDI);
    var o := [FSI] + r;
    assert o[1..] == r;
    if PDI in r { assert o[IndexOf(o, PDI) + 1..] == r[IndexOf(r, PDI) + 1..]; }
  }

  lemma {:induction false} ScanSettlesTag(u: Unicode, s: string, c1: bool, c2: bool)
    requires Quiet(u, s, c1) && (c1 ==> c2)
    requires s != [] && s[0] != FSI && TagAt(u, s)
    ensures Settled(u, Scan(u, s, c1), c2)
    decreases |s|, 0
  {
    hide TagAt, Lawful, Isolate, Quiet, Scan, Settled;
    var j := TagEnd(s);
    var o := Scan(u, s, c1);
    ScanStep(u, s, c1);
    ScanEmpty(u, CodeAfter(s, c1));
    QuietTag(u, s, c1);
    ScanSettles(u, s[j..], CodeAfter(s, c1), CodeAfter(s, c2));
    if j == |s| && IndexOf(s, '>') == j {
      assert o == s;
      assert s[j..] == [];
    } else {
      assert o[..j] == s[..j];
      assert forall k :: 0 <= k < j ==> o[k] == s[k];
      TagAtAgree(u, s, o, j);
      CodeAfterAgree(s, o, j, c2);
      IndexOfIs(o, '>', j - 1);
      assert o[j..] == Scan(u, s[j..], CodeAfter(s, c1));
    }
    SettledTag(u, o, c2);
  }
}
