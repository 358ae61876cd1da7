/** `rtl()`: the scan, then one RLM at the start of each line; its specification and its laws. */
module BidiRtl {
  import opened Common
  import opened BidiText
  import opened BidiScan
  import opened BidiSettle

  // ----- lines -----

  /** `s.split("\n")` */
  function Split(s: string): (ls: seq<string>)
    ensures ls != []
    ensures forall i :: 0 <= i < |ls| ==> '\n' !in ls[i]
    decreases |s|
  {
    var j := IndexOf(s, '\n');
    if j == |s| then [s] else [s[..j]] + Split(s[j + 1..])
  }

  lemma {:induction false} JoinSplit(s: string)
    ensures Join("\n", Split(s)) == s
    decreases |s|
  {
    var j := IndexOf(s, '\n');
    if j < |s| {
      var a, ls := s[..j], Split(s[j + 1..]);
      JoinSplit(s[j + 1..]);
      assert ([a] + ls)[1..] == ls;
      assert Join("\n", [a] + ls) == a + "\n" + Join("\n", ls);
      assert s == a + "\n" + s[j + 1..];
    }
  }

  lemma {:induction false} SplitJoin(ls: seq<string>)
    requires ls != [] && forall i :: 0 <= i < |ls| ==> '\n' !in ls[i]
    ensures Split(Join("\n", ls)) == ls
  {
    hide Split;
    var s := Join("\n", ls);
    if |ls| == 1 {
      SplitLine(s);
      assert ls == [s];
    } else {
      SplitJoin(ls[1..]);
      SplitFirst(ls[0], Join("\n", ls[1..]));
      assert s == ls[0] + "\n" + Join("\n", ls[1..]);
    }
  }

  lemma SplitLine(s: string)
    requires '\n' !in s
    ensures Split(s) == [s]
  {
    IndexOfIn(s, '\n');
  }

  lemma SplitFirst(a: string, rest: string)
    requires '\n' !in a
    ensures Split(a + "\n" + rest) == [a] + Split(rest)
  {
    var s := a + "\n" + rest;
    assert s == a + ("\n" + rest);
    IndexOfSkip(a, "\n" + rest, '\n');
    assert IndexOf("\n" + rest, '\n') == 0;
    assert s[..|a|] == a && s[|a| + 1..] == rest;
  }

  predicate CodeName(u: Unicode, t: string) {
    (StartsFold(t, "code") && Boundary(u, t, 4)) || (StartsFold(t, "pre") && Boundary(u, t, 3))
  }

  /** `_CODE_TAG` matches at the start of `s`, the rest of a line. */
  predicate CodeTagAt(u: Unicode, s: string) {
    && |s| > 1 && s[0] == '<'
    && (CodeName(u, s[1..]) || (s[1] == '/' && CodeName(u, s[2..])))
    && '>' in s
  }

  /** The line pass's code flag after the line `ln`. */
  function LineCode(u: Unicode, ln: string, code: bool): bool
    decreases |ln|
  {
    if ln == [] then code
    else if CodeTagAt(u, ln) then LineCode(u, ln[TagEnd(ln)..], ln[1] != '/')
    else LineCode(u, ln[1..], code)
  }

  predicate Blank(u: Unicode, ln: string) { forall i :: 0 <= i < |ln| ==> u.space(ln[i]) }

  function MarkLine(u: Unicode, ln: string, code: bool): string {
    if !Blank(u, ln) && !code && !(ln != [] && ln[0] == RLM) then [RLM] + ln else ln
  }

  function MarkLines(u: Unicode, ls: seq<string>, code: bool): (r: seq<string>)
    ensures |r| == |ls|
  {
    if ls == [] then [] else [MarkLine(u, ls[0], code)] + MarkLines(u, ls[1..], LineCode(u, ls[0], code))
  }

  /** The whole rewriter. */
  function Rtl(u: Unicode, s: string): string {
    Join("\n", MarkLines(u, Split(Scan(u, s, false)), false))
  }

  // ----- the loops of the source -----

  method PlainEnd(u: Unicode, text: string, i: nat) returns (j: nat)
    requires i < |text| && PlainStart(u, text[i..])
    ensures j == i + PlainLength(u, text[i..])
  {
    hide TagAt, Lawful;
    j := i;
    while j < |text| && PlainStart(u, text[j..])
      invariant i <= j <= |text|
      invariant PlainLength(u, text[i..]) == (j - i) + PlainLength(u, text[j..])
    {
      assert text[j..][1..] == text[j + 1..];
      j := j + 1;
    }
  }

  /** The body of the scanner loop: the token at `i`, what is emitted for it and the flag after it. */
  method NextToken(u: Unicode, text: string, i: nat, inCode: bool) returns (j: nat, emitted: string, inCode': bool)
    requires i < |text|
    ensures i < j <= |text|
    ensures Scan(u, text[i..], inCode) == emitted + Scan(u, text[j..], inCode')
  {
    hide Scan, TagAt, Isolate, CodeAfter, Lawful, PlainLength, IndexOf;
    var s := text[i..];
    ScanStep(u, s, inCode);
    PlainRun(u, s);
    inCode' := inCode;
    if text[i] == FSI {
      var p := IndexOf(s, PDI);
      j := if p == |s| then i + 1 else i + p + 1;
      emitted := text[i..j];
    } else if TagAt(u, s) {
      j := i + TagEnd(s);
      inCode' := CodeAfter(s, inCode);
      emitted := text[i..j];
    } else {
      j := PlainEnd(u, text, i);
      var seg := text[i..j];
      emitted := if inCode then seg else Isolate(u, seg);
    }
    assert text[i..j] == s[..j - i] && text[j..] == s[j - i..];
  }

  method ScanText(u: Unicode, text: string) returns (out: string)
    ensures out == Scan(u, text, false)
  {
    hide Scan, Lawful;
    out := "";
    var i, inCode := 0, false;
    assert text[0..] == text;
    while i < |text|
      invariant 0 <= i <= |text|
      invariant out + Scan(u, text[i..], inCode) == Scan(u, text, false)
    {
      var j, emitted, inCode' := NextToken(u, text, i, inCode);
      out := out + emitted;
      i, inCode := j, inCode';
    }
    assert text[|text|..] == [];
    ScanEmpty(u, inCode);
  }

  method MarkText(u: Unicode, isolated: string) returns (r: string)
    ensures r == Join("\n", MarkLines(u, Split(isolated), false))
  {
    hide CodeTagAt, Blank, Lawful;
    var lines := Split(isolated);
    var result: seq<string> := [];
    var lineInCode := false;
    for k := 0 to |lines|
      invariant result + MarkLines(u, lines[k..], lineInCode) == MarkLines(u, lines, false)
    {
      var ln, startsInCode := lines[k], lineInCode;
      var p := 0;
      assert ln[0..] == ln;
      while p < |ln|
        invariant 0 <= p <= |ln|
        invariant LineCode(u, ln[p..], lineInCode) == LineCode(u, ln, startsInCode)
      {
        if CodeTagAt(u, ln[p..]) {
          lineInCode := CodeTagOpens(u, ln[p..]);
          assert ln[p..][TagEnd(ln[p..])..] == ln[p + TagEnd(ln[p..])..];
          p := p + TagEnd(ln[p..]);
        } else {
          assert ln[p..][1..] == ln[p + 1..];
          p := p + 1;
        }
      }
      assert ln[|ln|..] == [];
      assert lines[k..][1..] == lines[k + 1..];
      result := result + [MarkLine(u, ln, startsInCode)];
    }
    assert lines[|lines|..] == [] && result + [] == result;
    r := Join("\n", result);
  }

  /** `m.group(1) != "/"` */
  function CodeTagOpens(u: Unicode, s: string): bool
    requires CodeTagAt(u, s)
  {
    s[1] != '/'
  }

  method Rewrite(u: Unicode, text: string) returns (r: string)
    ensures r == Rtl(u, text)
  {
    if text == "" {
      assert Scan(u, "", false) == "";
      assert Split("") == [""] && MarkLines(u, [""], false) == [""];
      return text;
    }
    var isolated := ScanText(u, text);
    r := MarkText(u, isolated);
  }

  // ----- idempotence -----

  lemma MarkLineKeeps(u: Unicode, ln: string, code: bool)
    requires '\n' !in ln
    ensures var m := MarkLine(u, ln, code);
            '\n' !in m && MarkLine(u, m, code) == m && forall c :: LineCode(u, m, c) == LineCode(u, ln, c)
  {
    var m := MarkLine(u, ln, code);
    if m != ln {
      assert m[0] == RLM && m[1..] == ln;
      assert !Blank(u, m);
    }
  }

  lemma {:induction false} MarkLinesTwice(u: Unicode, ls: seq<string>, code: bool)
    requires forall i :: 0 <= i < |ls| ==> '\n' !in ls[i]
    ensures var ms := MarkLines(u, ls, code);
            MarkLines(u, ms, code) == ms && forall i :: 0 <= i < |ms| ==> '\n' !in ms[i]
  {
    hide MarkLine, LineCode, Lawful;
    if ls != [] {
      MarkLineKeeps(u, ls[0], code);
      MarkLinesTwice(u, ls[1..], LineCode(u, ls[0], code));
      var ms := MarkLines(u, ls, code);
      assert ms[0] == MarkLine(u, ls[0], code);
      assert ms[1..] == MarkLines(u, ls[1..], LineCode(u, ls[0], code));
    }
  }

  /** Marking the lines behind `pre` keeps the text settled. */
  lemma {:induction false} MarkSettled(u: Unicode, pre: string, ls: seq<string>, code: bool)
    requires LineStart(pre, |pre|) && Settled(u, pre + Join("\n", ls), false)
    ensures Settled(u, pre + Join("\n", MarkLines(u, ls, code)), false)
    decreases |ls|
  {
    hide Settled, LineCode, Lawful, Blank;
    if ls != [] {
      var ln := MarkLine(u, ls[0], code);
      var rest := MarkLines(u, ls[1..], LineCode(u, ls[0], code));
      MarkOne(u, pre, ls, ln);
      assert MarkLines(u, ls, code) == [ln] + rest;
      if |ls| > 1 {
        var pre' := pre + ln + "\n";
        assert pre' + Join("\n", ls[1..]) == pre + (ln + "\n" + Join("\n", ls[1..]));
        MarkSettled(u, pre', ls[1..], LineCode(u, ls[0], code));
        assert pre' + Join("\n", rest) == pre + (ln + "\n" + Join("\n", rest));
        assert ([ln] + rest)[1..] == rest;
      }
    }
  }

  lemma MarkOne(u: Unicode, pre: string, ls: seq<string>, ln: string)
    requires ls != [] && LineStart(pre, |pre|) && Settled(u, pre + Join("\n", ls), false)
    requires ln == ls[0] || ln == [RLM] + ls[0]
    ensures Settled(u, pre + (if |ls| == 1 then ln else ln + "\n" + Join("\n", ls[1..])), false)
  {
    hide Settled, Lawful;
    var s := pre + Join("\n", ls);
    if ln != ls[0] {
      SettledInsert(u, s, false, |pre|);
      assert Insert(s, |pre|) == pre + ([RLM] + Join("\n", ls));
      assert [RLM] + Join("\n", ls) == if |ls| == 1 then ln else ln + "\n" + Join("\n", ls[1..]);
    }
  }

  /** The output of the rewriter meets no bare Latin letter when scanned again. */
  lemma RtlSettled(u: Unicode, s: string)
    requires Quiet(u, s, false)
    ensures Settled(u, Rtl(u, s), false)
  {
    hide Settled, Quiet, Lawful, Scan, MarkLines;
    var o := Scan(u, s, false);
    ScanSettles(u, s, false, false);
    JoinSplit(o);
    assert [] + o == o;
    MarkSettled(u, [], Split(o), false);
    assert [] + Rtl(u, s) == Rtl(u, s);
  }
}
