/** Texts that differ by inserted marks. */
module BidiMarks {
  import opened BidiText

  predicate IsMark(c: char) { c == RLM || c == FSI || c == PDI }

  /** `t` is `s` with marks inserted. */
  predicate Inserted(s: string, t: string) {
    if t == [] then s == []
    else (IsMark(t[0]) && Inserted(s, t[1..])) || (s != [] && s[0] == t[0] && Inserted(s[1..], t[1..]))
  }

  /** Number of FSIs minus number of PDIs. */
  function Balance(s: string): int {
    if s == [] then 0 else (if s[0] == FSI then 1 else if s[0] == PDI then -1 else 0) + Balance(s[1..])
  }

  /** `t` is `s` with marks inserted, as many FSIs as PDIs. */
  ghost predicate Grown(s: string, t: string) { Inserted(s, t) && Balance(s) == Balance(t) }

  function Erase(s: string): string {
    if s == [] then [] else if IsMark(s[0]) then Erase(s[1..]) else [s[0]] + Erase(s[1..])
  }

  lemma {:induction false} InsertedSelf(s: string)
    ensures Inserted(s, s)
  {
    if s != [] { InsertedSelf(s[1..]); }
  }

  lemma InsertedMark(s: string, c: char, t: string)
    requires IsMark(c) && Inserted(s, t)
    ensures Inserted(s, [c] + t)
  {
    assert ([c] + t)[1..] == t;
  }

  lemma {:induction false} InsertedConcat(a: string, a': string, b: string, b': string)
    requires Inserted(a, a') && Inserted(b, b')
    ensures Inserted(a + b, a' + b')
  {
    hide IsMark;
    if a' == [] {
      assert a + b == b && a' + b' == b';
    } else {
      assert (a' + b')[0] == a'[0] && (a' + b')[1..] == a'[1..] + b';
      if IsMark(a'[0]) && Inserted(a, a'[1..]) {
        InsertedConcat(a, a'[1..], b, b');
      } else {
        InsertedConcat(a[1..], a'[1..], b, b');
        assert (a + b)[0] == a[0] && (a + b)[1..] == a[1..] + b;
      }
    }
  }

  lemma {:induction false} InsertedTrans(a: string, b: string, c: string)
    requires Inserted(a, b) && Inserted(b, c)
    ensures Inserted(a, c)
  {
    hide IsMark;
    if c != [] {
      if IsMark(c[0]) && Inserted(b, c[1..]) {
        InsertedTrans(a, b, c[1..]);
      } else if IsMark(b[0]) && Inserted(a, b[1..]) {
        InsertedTrans(a, b[1..], c[1..]);
      } else {
        InsertedTrans(a[1..], b[1..], c[1..]);
      }
    }
  }

  /** Inserting marks changes a text exactly if it makes it longer. */
  lemma {:induction false} InsertedLength(s: string, t: string)
    requires Inserted(s, t)
    ensures |t| >= |s| && (|t| == |s| ==> t == s)
  {
    if t != [] {
      if IsMark(t[0]) && Inserted(s, t[1..]) {
        InsertedLength(s, t[1..]);
      } else {
        InsertedLength(s[1..], t[1..]);
        if |t| == |s| { assert t == [t[0]] + t[1..] && s == [s[0]] + s[1..]; }
      }
    }
  }

  /** Erasing the marks from both gives the same text. */
  lemma {:induction false} InsertedErase(s: string, t: string)
    requires Inserted(s, t)
    ensures Erase(s) == Erase(t)
  {
    hide IsMark;
    if t != [] {
      if IsMark(t[0]) && Inserted(s, t[1..]) { InsertedErase(s, t[1..]); } else { InsertedErase(s[1..], t[1..]); }
    }
  }

  /** Only marks are new characters. */
  lemma {:induction false} InsertedChars(s: string, t: string, c: char)
    requires Inserted(s, t) && !IsMark(c)
    ensures c in s <==> c in t
  {
    hide IsMark;
    if t != [] {
      assert t == [t[0]] + t[1..];
      if IsMark(t[0]) && Inserted(s, t[1..]) {
        InsertedChars(s, t[1..], c);
      } else {
        assert s == [s[0]] + s[1..];
        InsertedChars(s[1..], t[1..], c);
      }
    }
  }

  lemma {:induction false} BalanceConcat(a: string, b: string)
    ensures Balance(a + b) == Balance(a) + Balance(b)
  {
    if a == [] {
      assert a + b == b;
    } else {
      BalanceConcat(a[1..], b);
      assert (a + b)[1..] == a[1..] + b;
    }
  }

  // ----- growing -----

  lemma GrownSelf(s: string)
    ensures Grown(s, s)
  {
    InsertedSelf(s);
  }

  lemma GrownConcat(a: string, a': string, b: string, b': string)
    requires Grown(a, a') && Grown(b, b')
    ensures Grown(a + b, a' + b')
  {
    InsertedConcat(a, a', b, b');
    BalanceConcat(a, b);
    BalanceConcat(a', b');
  }

  lemma GrownTrans(a: string, b: string, c: string)
    requires Grown(a, b) && Grown(b, c)
    ensures Grown(a, c)
  {
    InsertedTrans(a, b, c);
  }

  lemma GrownRlm(s: string)
    ensures Grown(s, [RLM] + s)
  {
    InsertedSelf(s);
    InsertedMark(s, RLM, s);
    BalanceConcat([RLM], s);
  }

  lemma GrownWrap(run: string)
    ensures Grown(run, Wrap(run))
  {
    GrownSelf(run);
    if HasLetter(run) {
      InsertedMark([], PDI, []);
      InsertedConcat(run, run, [], [PDI]);
      assert run + [] == run;
      InsertedMark(run, FSI, run + [PDI]);
      assert [FSI] + (run + [PDI]) == [FSI] + run + [PDI];
      BalanceConcat([FSI], run);
      BalanceConcat([FSI] + run, [PDI]);
    }
  }
}
