/** The scanner of `rtl()` and the fact that a second scan leaves its output alone. */
module BidiScan {
  import opened Common
  import opened BidiText

  /** Output of the scanner on the remaining text `s`, `code` being its in-code flag. */
  function Scan(u: Unicode, s: string, code: bool): string
    decreases |s|
  {
    PlainRun(u, s);
    if s == [] then []
    else if s[0] == FSI then
      var j := IndexOf(s, PDI);
      if j == |s| then [FSI] + Scan(u, s[1..], code)
      else s[..j + 1] + Scan(u, s[j + 1..], code)
    else if TagAt(u, s) then
      s[..TagEnd(s)] + Scan(u, s[TagEnd(s)..], CodeAfter(s, code))
    else
      var j := PlainLength(u, s);
      (if code then s[..j] else Isolate(u, s[..j])) + Scan(u, s[j..], code)
  }

  predicate PlainStart(u: Unicode, s: string) {
    s != [] && s[0] != FSI && !TagAt(u, s)
  }

  /** Length of the plain run up to the next isolate or real tag. */
  function PlainLength(u: Unicode, s: string): (n: nat)
    ensures n <= |s|
  {
    if !PlainStart(u, s) then 0 else 1 + PlainLength(u, s[1..])
  }

  lemma {:induction false} PlainRun(u: Unicode, s: string)
    ensures var n := PlainLength(u, s);
            && (PlainStart(u, s) ==> n > 0)
            && !PlainStart(u, s[n..])
            && forall k :: 0 <= k < n ==> PlainStart(u, s[k..])
  {
    hide TagAt, Lawful;
    if PlainStart(u, s) {
      PlainRun(u, s[1..]);
      var m := PlainLength(u, s[1..]);
      assert s[m + 1..] == s[1..][m..] && s[0..] == s;
      forall k | 0 <= k < m + 1 ensures PlainStart(u, s[k..]) {
        if k > 0 { assert s[k..] == s[1..][k - 1..]; }
      }
    } else {
      assert s[0..] == s;
    }
  }

  /** A scan starting with flag `code` meets no Latin letter outside tags, code and isolates. */
  predicate Settled(u: Unicode, s: string, code: bool)
    decreases |s|
  {
    if s == [] then true
    else if s[0] == FSI then
      var j := IndexOf(s, PDI);
      if j == |s| then Settled(u, s[1..], code) else Settled(u, s[j + 1..], code)
    else if TagAt(u, s) then Settled(u, s[TagEnd(s)..], CodeAfter(s, code))
    else (code || !AsciiLetter(s[0])) && Settled(u, s[1..], code)
  }

  // ----- single steps -----

  lemma ScanEmpty(u: Unicode, code: bool)
    ensures Scan(u, [], code) == []
  {
  }

  /** One token of the scan. */
  lemma ScanStep(u: Unicode, s: string, code: bool)
    requires s != []
    ensures s[0] == FSI && IndexOf(s, PDI) == |s|
            ==> Scan(u, s, code) == [s[0]] + Scan(u, s[1..], code)
    ensures s[0] == FSI && IndexOf(s, PDI) < |s|
            ==> Scan(u, s, code) == s[..IndexOf(s, PDI) + 1] + Scan(u, s[IndexOf(s, PDI) + 1..], code)
    ensures s[0] != FSI && TagAt(u, s)
            ==> Scan(u, s, code) == s[..TagEnd(s)] + Scan(u, s[TagEnd(s)..], CodeAfter(s, code))
    ensures PlainStart(u, s)
            ==> var n := PlainLength(u, s);
                Scan(u, s, code) == (if code then s[..n] else Isolate(u, s[..n])) + Scan(u, s[n..], code)
  {
    hide TagAt, Isolate, CodeAfter, Lawful, FoldAll, IndexOf, TagEnd, PlainLength;
  }

  lemma SettledEmpty(u: Unicode, code: bool)
    ensures Settled(u, [], code)
  {
  }

  lemma SettledTag(u: Unicode, s: string, code: bool)
    requires s != [] && s[0] != FSI && TagAt(u, s)
    ensures Settled(u, s, code) == Settled(u, s[TagEnd(s)..], CodeAfter(s, code))
  {
    hide TagAt, CodeAfter, Lawful;
  }

  lemma IsolateEmpty(u: Unicode)
    ensures Isolate(u, []) == []
  {
  }

  lemma IsolateStep(u: Unicode, seg: string)
    requires seg != []
    ensures var n := MatchLength(u, seg);
            Isolate(u, seg) == if n == 0 then [seg[0]] + Isolate(u, seg[1..])
                               else Wrap(seg[..n]) + Isolate(u, seg[n..])
  {
    hide Lawful, MatchLength, Wrap;
  }

  // ----- a settled text is a fixed point -----

  lemma SettledChar(u: Unicode, s: string, code: bool)
    requires PlainStart(u, s) && Settled(u, s, code)
    ensures Settled(u, s[1..], code) && (code || !AsciiLetter(s[0]))
  {
    hide TagAt, CodeAfter, Lawful;
  }

  lemma {:induction false} SettledPlain(u: Unicode, s: string, code: bool, j: nat)
    requires j <= |s| && forall k :: 0 <= k < j ==> PlainStart(u, s[k..])
    requires Settled(u, s, code)
    ensures Settled(u, s[j..], code)
    ensures !code ==> !HasLetter(s[..j])
  {
    hide Settled, PlainStart, Lawful;
    assert s[0..] == s;
    if j > 0 {
      assert PlainStart(u, s[0..]);
      SettledChar(u, s, code);
      forall k | 0 <= k < j - 1 ensures PlainStart(u, s[1..][k..]) {
        assert s[1..][k..] == s[k + 1..];
      }
      SettledPlain(u, s[1..], code, j - 1);
      assert s[1..][j - 1..] == s[j..];
      assert s[..j] == [s[0]] + s[1..][..j - 1];
    }
  }

  lemma {:induction false} IsolateNoLetters(u: Unicode, s: string)
    requires !HasLetter(s)
    ensures Isolate(u, s) == s
    decreases |s|
  {
    hide Lawful, MatchLength, Isolate;
    if s == [] {
      IsolateEmpty(u);
    } else {
      IsolateStep(u, s);
      var n := MatchLength(u, s);
      var m := if n == 0 then 1 else n;
      assert forall i :: 0 <= i < |s[m..]| ==> s[m..][i] == s[m + i];
      assert forall i :: 0 <= i < |s[..m]| ==> s[..m][i] == s[i];
      IsolateNoLetters(u, s[m..]);
      assert s == s[..m] + s[m..];
    }
  }

  /** One token of a settled text. */
  lemma SettledStep(u: Unicode, s: string, code: bool)
    requires s != [] && Settled(u, s, code)
    ensures s[0] == FSI && IndexOf(s, PDI) == |s| ==> Settled(u, s[1..], code)
    ensures s[0] == FSI && IndexOf(s, PDI) < |s| ==> Settled(u, s[IndexOf(s, PDI) + 1..], code)
    ensures s[0] != FSI && TagAt(u, s) ==> Settled(u, s[TagEnd(s)..], CodeAfter(s, code))
    ensures PlainStart(u, s)
            ==> var n := PlainLength(u, s);
                Settled(u, s[n..], code) && (!code ==> !HasLetter(s[..n]))
  {
    hide TagAt, CodeAfter, Lawful, HasLetter;
    PlainRun(u, s);
    if PlainStart(u, s) { SettledPlain(u, s, code, PlainLength(u, s)); }
  }

  lemma {:induction false} SettledFixed(u: Unicode, s: string, code: bool)
    requires Settled(u, s, code)
    ensures Scan(u, s, code) == s
    decreases |s|
  {
    hide TagAt, Isolate, CodeAfter, Lawful, Scan, Settled, HasLetter, PlainLength, IndexOf, TagEnd;
    if s == [] {
      ScanEmpty(u, code);
      return;
    }
    ScanStep(u, s, code);
    SettledStep(u, s, code);
    PlainRun(u, s);
    var n, code' := 1, code;
    if s[0] == FSI {
      n := if IndexOf(s, PDI) == |s| then 1 else IndexOf(s, PDI) + 1;
      assert s[..1] == [s[0]];
    } else if TagAt(u, s) {
      n, code' := TagEnd(s), CodeAfter(s, code);
    } else {
      n := PlainLength(u, s);
      if !code { IsolateNoLetters(u, s[..n]); }
    }
    SettledFixed(u, s[n..], code');
    assert s == s[..n] + s[n..];
  }

  // ----- inserting an RLM at the start of a line keeps a text settled -----

  function Insert(s: string, p: nat): string
    requires p <= |s|
  {
    s[..p] + [RLM] + s[p..]
  }

  predicate LineStart(s: string, p: nat) {
    p <= |s| && (p == 0 || s[p - 1] == '\n')
  }

  lemma IndexOfInsert(s: string, p: nat, c: char)
    requires p <= |s| && c != RLM
    ensures var j := IndexOf(s, c);
            IndexOf(Insert(s, p), c) == if p <= j then j + 1 else j
  {
    var j := IndexOf(s, c);
    var t := Insert(s, p);
    if j < |s| {
      IndexOfIs(t, c, if p <= j then j + 1 else j);
    } else {
      assert forall k :: 0 <= k < |t| ==> t[k] == if k < p then s[k] else if k == p then RLM else s[k - 1];
    }
  }

  lemma InsertDrop(s: string, p: nat, j: nat)
    requires p <= |s| && j <= |s|
    ensures p <= j ==> Insert(s, p)[j + 1..] == s[j..]
    ensures j <= p ==> Insert(s, p)[j..] == Insert(s[j..], p - j)
  {
  }

  lemma {:induction false} SettledInsert(u: Unicode, s: string, code: bool, p: nat)
    requires Settled(u, s, code) && LineStart(s, p)
    ensures Settled(u, Insert(s, p), code)
    decreases |s|, 1
  {
    hide NameAt, CodeAfter, Lawful;
    var t := Insert(s, p);
    if p == 0 {
      assert t == [RLM] + s;
      assert t[1..] == s;
    } else if s[0] == FSI {
      SettledInsertIsolate(u, s, code, p);
    } else {
      assert t[..p] == s[..p];
      TagAtAgree(u, s, t, p);
      if TagAt(u, s) {
        SettledInsertTag(u, s, code, p);
      } else {
        SettledInsert(u, s[1..], code, p - 1);
        InsertDrop(s, p, 1);
      }
    }
  }

  lemma SettledIsolate(u: Unicode, s: string, code: bool)
    requires s != [] && s[0] == FSI
    ensures Settled(u, s, code) == Settled(u, s[if IndexOf(s, PDI) == |s| then 1 else IndexOf(s, PDI) + 1..], code)
  {
    hide TagAt, CodeAfter, Lawful, IndexOf;
  }

  lemma {:induction false} SettledInsertIsolate(u: Unicode, s: string, code: bool, p: nat)
    requires Settled(u, s, code) && LineStart(s, p) && p > 0 && s[0] == FSI
    ensures Settled(u, Insert(s, p), code)
    decreases |s|, 0
  {
    hide Settled, Lawful, IndexOf;
    IndexOfInsert(s, p, PDI);
    SettledIsolate(u, s, code);
    SettledIsolate(u, Insert(s, p), code);
    var j := IndexOf(s, PDI);
    if j == |s| {
      SettledInsert(u, s[1..], code, p - 1);
      InsertDrop(s, p, 1);
    } else if p <= j {
      InsertDrop(s, p, j + 1);
    } else {
      SettledInsert(u, s[j + 1..], code, p - j - 1);
      InsertDrop(s, p, j + 1);
    }
  }

  lemma TagEndInsert(s: string, p: nat)
    requires p <= |s|
    ensures var i, j := IndexOf(s, '>'), TagEnd(s);
            && i <= j && (p > i ==> j <= p)
            && TagEnd(Insert(s, p)) == if p <= i then j + 1 else j
  {
    hide IndexOf;
    IndexOfInsert(s, p, '>');
  }

  lemma {:induction false} SettledInsertTag(u: Unicode, s: string, code: bool, p: nat)
    requires Settled(u, s, code) && LineStart(s, p) && p > 0
    requires s[0] != FSI && TagAt(u, s) && TagAt(u, Insert(s, p))
    ensures Settled(u, Insert(s, p), code)
    decreases |s|, 0
  {
    hide TagAt, CodeAfter, Lawful, Settled, TagEnd, IndexOf;
    var t, j := Insert(s, p), TagEnd(s);
    assert t[0] == s[0];
    SettledTag(u, s, code);
    SettledTag(u, t, code);
    assert t[..p] == s[..p];
    CodeAfterAgree(s, t, p, code);
    TagEndInsert(s, p);
    InsertDrop(s, p, j);
    if p > IndexOf(s, '>') {
      assert LineStart(s[j..], p - j);
      SettledInsert(u, s[j..], CodeAfter(s, code), p - j);
    }
  }
}
