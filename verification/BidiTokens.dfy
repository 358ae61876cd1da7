/** Which tags the scanner passes through and which runs it isolates, character by character. */
module BidiTokens {
  import opened Common
  import opened BidiText
  import opened BidiScan
  import opened BidiSettle
  import opened BidiRtl
  import opened BidiLaws

  // ----- tags -----

  const TAG_NAMES: seq<string> := [
    "b", "strong", "i", "em", "u", "ins", "s", "strike", "del", "a", "code", "pre", "span", "tg-spoiler"]

  /** `c` matches the character `d` of a tag name under `re.I`. */
  predicate Matches(c: char, d: char) {
    || c == d || ('A' <= c <= 'Z' && c as int + 32 == d as int)
    || (d == 'i' && (c == '\U{130}' || c == '\U{131}')) || (d == 's' && c == '\U{17F}') || (d == 'k' && c == '\U{212A}')
  }

  /** `s` spells a tag name. */
  predicate Spells(s: string, name: string) {
    |s| == |name| && forall i :: 0 <= i < |s| ==> Matches(s[i], name[i])
  }

  lemma NamesAre(n: string)
    ensures IsTagName(n) <==> n in TAG_NAMES
  {
  }

  lemma FoldSpells(s: string, name: string)
    requires name in TAG_NAMES
    ensures FoldAll(s) == name <==> Spells(s, name)
  {
    assert forall i :: 0 <= i < |name| ==> 'a' <= name[i] <= 'z' || name[i] == '-' by {
      NamesAre(name);
      TagNameChars(name);
    }
    assert forall i :: 0 <= i < |s| && i < |name| ==> (Fold(s[i]) == name[i] <==> Matches(s[i], name[i]));
    hide Matches, Fold, IsTagName;
    if Spells(s, name) {
      assert forall i :: 0 <= i < |s| ==> FoldAll(s)[i] == name[i];
    }
  }

  /** A name and what follows: nothing or a character that is not part of a word. */
  predicate Apart(u: Unicode, rest: string) { rest == "" || !u.word(rest[0]) }

  /** What the tag `name` does to the code flag. */
  function FlagOf(name: string, slash: bool, code: bool): bool {
    if name == "code" || name == "pre" then !slash else code
  }

  /** `<`, perhaps `/`, the name, and no more letters of the name. */
  predicate TagOf(u: Unicode, s: string, slash: bool, name: string) {
    var d := if slash then 2 else 1;
    && d + |name| <= |s| && s[..d] == (if slash then "</" else "<")
    && Spells(s[d..d + |name|], name) && Apart(u, s[d + |name|..])
  }

  lemma NameEnds(u: Unicode, c: char, name: string)
    requires name in TAG_NAMES && Matches(c, name[|name| - 1])
    ensures u.word(c)
  {
    assert 'a' <= name[|name| - 1] <= 'z';
    assert AsciiAlnum(c) || FoldsToAscii(c);
  }

  lemma BoundaryApart(u: Unicode, t: string, name: string)
    requires name in TAG_NAMES && |name| <= |t| && Spells(t[..|name|], name)
    ensures Boundary(u, t, |name|) <==> Apart(u, t[|name|..])
  {
    hide Lawful, Matches;
    NamesAre(name);
    TagNameChars(name);
    NameEnds(u, t[|name| - 1], name) by { assert t[..|name|][|name| - 1] == t[|name| - 1]; }
  }

  lemma NameIff(u: Unicode, t: string)
    ensures NameAt(u, t)
            <==> exists name :: name in TAG_NAMES && |name| <= |t| && Spells(t[..|name|], name) && Apart(u, t[|name|..])
  {
    hide Lawful, Matches, IsTagName, Apart, Boundary;
    if NameAt(u, t) {
      var k :| 0 < k <= |t| && IsTagName(FoldAll(t[..k])) && Boundary(u, t, k);
      var name := FoldAll(t[..k]);
      NamesAre(name);
      FoldSpells(t[..k], name);
      BoundaryApart(u, t, name);
    }
    if name :| name in TAG_NAMES && |name| <= |t| && Spells(t[..|name|], name) && Apart(u, t[|name|..]) {
      NamesAre(name);
      FoldSpells(t[..|name|], name);
      BoundaryApart(u, t, name);
      TagNameChars(name);
    }
  }

  lemma TagOfIs(u: Unicode, s: string, slash: bool, name: string)
    requires var d := if slash then 2 else 1; d <= |s| && s[..d] == (if slash then "</" else "<")
    ensures var t := s[if slash then 2 else 1..];
            TagOf(u, s, slash, name) <==> |name| <= |t| && Spells(t[..|name|], name) && Apart(u, t[|name|..])
  {
    var d := if slash then 2 else 1;
    if d + |name| <= |s| {
      assert s[d..][..|name|] == s[d..d + |name|] && s[d..][|name|..] == s[d + |name|..];
    }
  }

  lemma NameBehind(u: Unicode, s: string, slash: bool)
    requires var d := if slash then 2 else 1; d <= |s| && s[..d] == (if slash then "</" else "<")
    ensures NameAt(u, s[if slash then 2 else 1..]) <==> exists name :: name in TAG_NAMES && TagOf(u, s, slash, name)
  {
    hide Lawful, NameAt, TagOf, Spells, Apart;
    var t := s[if slash then 2 else 1..];
    NameIff(u, t);
    forall name ensures TagOf(u, s, slash, name)
                        <==> |name| <= |t| && Spells(t[..|name|], name) && Apart(u, t[|name|..]) {
      TagOfIs(u, s, slash, name);
    }
  }

  /** The scanner takes for tags exactly the fourteen names behind `<` or `</`, in any case. */
  lemma TagIff(u: Unicode, s: string)
    ensures TagAt(u, s) <==> exists slash, name :: name in TAG_NAMES && TagOf(u, s, slash, name)
  {
    hide Lawful, NameAt, TagOf;
    if |s| > 1 && s[0] == '<' {
      assert s[..1] == "<";
      NameBehind(u, s, false);
      if s[1] == '/' {
        assert s[..2] == "</";
        NameBehind(u, s, true);
      }
    }
    forall slash, name | name in TAG_NAMES && TagOf(u, s, slash, name)
      ensures |s| > 1 && s[0] == '<' && (slash ==> s[1] == '/')
    {
      TagOfStart(u, s, slash, name);
    }
  }

  lemma TagOfStart(u: Unicode, s: string, slash: bool, name: string)
    requires name in TAG_NAMES && TagOf(u, s, slash, name)
    ensures |s| > 1 && s[0] == '<' && (slash ==> s[1] == '/')
  {
    assert s[0] == s[..if slash then 2 else 1][0];
    assert slash ==> s[1] == s[..2][1];
    NamesAre(name);
    TagNameChars(name);
  }

  /** The line pass takes for code tags exactly `code` and `pre` behind `<` or `</`, closed on the same line. */
  lemma CodeTagIff(u: Unicode, s: string)
    ensures CodeTagAt(u, s)
            <==> '>' in s && exists slash, name :: (name == "code" || name == "pre") && TagOf(u, s, slash, name)
  {
    hide Lawful, TagOf, CodeName;
    if |s| > 1 && s[0] == '<' {
      assert s[..1] == "<";
      CodeNameIff(u, s, false);
      if s[1] == '/' {
        assert s[..2] == "</";
        CodeNameIff(u, s, true);
      }
    }
    assert "code" in TAG_NAMES && "pre" in TAG_NAMES by { assert TAG_NAMES[10] == "code" && TAG_NAMES[11] == "pre"; }
    forall slash, name | (name == "code" || name == "pre") && TagOf(u, s, slash, name)
      ensures |s| > 1 && s[0] == '<' && (slash ==> s[1] == '/')
    {
      TagOfStart(u, s, slash, name);
    }
  }

  lemma CodeNameIff(u: Unicode, s: string, slash: bool)
    requires var d := if slash then 2 else 1; d <= |s| && s[..d] == (if slash then "</" else "<")
    ensures CodeName(u, s[if slash then 2 else 1..]) <==> TagOf(u, s, slash, "code") || TagOf(u, s, slash, "pre")
  {
    hide Lawful, TagOf, Spells, Apart;
    var t := s[if slash then 2 else 1..];
    TagOfIs(u, s, slash, "code");
    TagOfIs(u, s, slash, "pre");
    CodeSpelled(u, t, "code", 10);
    CodeSpelled(u, t, "pre", 11);
  }

  lemma CodeSpelled(u: Unicode, t: string, name: string, i: nat)
    requires i < |TAG_NAMES| && TAG_NAMES[i] == name
    ensures StartsFold(t, name) && Boundary(u, t, |name|)
            <==> |name| <= |t| && Spells(t[..|name|], name) && Apart(u, t[|name|..])
  {
    hide Lawful, Spells, Apart, Boundary;
    assert name in TAG_NAMES;
    NamesAre(name);
    TagNameChars(name);
    if |name| <= |t| {
      FoldSpells(t[..|name|], name);
      if Spells(t[..|name|], name) { BoundaryApart(u, t, name); }
    }
  }

  // ----- what a tag does to the code flag -----

  lemma MatchesFold(c: char, d: char)
    requires Matches(c, d) && ('a' <= d <= 'z' || d == '-')
    ensures Fold(c) == d
  {
  }

  lemma CodeNamesFirst(name: string)
    requires name in TAG_NAMES
    ensures (name[0] == 'c' ==> name == "code") && (name[0] == 'p' ==> name == "pre") && name[0] != '/'
  {
  }

  lemma StartsSpelled(s: string, d: nat, name: string, p: string)
    requires d + |name| <= |s| && Spells(s[d..d + |name|], name) && name in TAG_NAMES
    requires |p| == d + |name| && p[d..] == name && s[..d] == p[..d] && forall i :: 0 <= i < d ==> Fold(p[i]) == p[i]
    ensures StartsFold(s, p)
  {
    NamesAre(name);
    TagNameChars(name);
    forall i | 0 <= i < |p| ensures Fold(s[i]) == p[i] {
      if i < d {
        assert s[i] == s[..d][i] == p[..d][i];
      } else {
        assert s[i] == s[d..d + |name|][i - d] && p[i] == p[d..][i - d];
        MatchesFold(s[i], name[i - d]);
      }
    }
    assert FoldAll(s[..|p|]) == p;
  }

  /** The letter behind `<` or `</` settles which code tag it can be. */
  lemma StartsAt(s: string, p: string, i: nat)
    requires StartsFold(s, p) && i < |p|
    ensures i < |s| && Fold(s[i]) == p[i]
  {
    assert FoldAll(s[..|p|])[i] == Fold(s[i]);
  }

  lemma TagFlag(u: Unicode, s: string, slash: bool, name: string, code: bool)
    requires name in TAG_NAMES && TagOf(u, s, slash, name)
    ensures CodeAfter(s, code) == FlagOf(name, slash, code)
  {
    hide Spells, Matches, Apart, StartsFold, Lawful;
    var d := if slash then 2 else 1;
    CodeNamesFirst(name);
    NamesAre(name);
    TagNameChars(name);
    hide IsTagName;
    TagOfStart(u, s, slash, name);
    NameFirst(s, d, name);
    if name == "code" { StartsSpelled(s, d, name, if slash then "</code" else "<code"); }
    if name == "pre" { StartsSpelled(s, d, name, if slash then "</pre" else "<pre"); }
    OtherStarts(s, slash, name[0]);
  }

  lemma NameFirst(s: string, d: nat, name: string)
    requires d + |name| <= |s| && Spells(s[d..d + |name|], name) && name in TAG_NAMES && name != ""
    ensures Fold(s[d]) == name[0]
  {
    NamesAre(name);
    TagNameChars(name);
    assert s[d] == s[d..d + |name|][0];
    MatchesFold(s[d], name[0]);
  }

  lemma OtherStarts(s: string, slash: bool, f: char)
    requires |s| > (if slash then 2 else 1) && (slash ==> s[1] == '/') && f != '/'
    requires Fold(s[if slash then 2 else 1]) == f
    ensures StartsFold(s, "<code") ==> !slash && f == 'c'
    ensures StartsFold(s, "<pre") ==> !slash && f == 'p'
    ensures StartsFold(s, "</code") ==> slash && f == 'c'
    ensures StartsFold(s, "</pre") ==> slash && f == 'p'
  {
    hide StartsFold;
    if StartsFold(s, "<code") { StartsAt(s, "<code", 1); }
    if StartsFold(s, "<pre") { StartsAt(s, "<pre", 1); }
    if StartsFold(s, "</code") { StartsAt(s, "</code", 1); StartsAt(s, "</code", 2); }
    if StartsFold(s, "</pre") { StartsAt(s, "</pre", 1); StartsAt(s, "</pre", 2); }
  }

  /** A tag is copied whole; `code` and `pre` set the code flag, their closing tags clear it, others leave it. */
  lemma TagToken(u: Unicode, slash: bool, name: string, spelled: string, attributes: string, r: string, code: bool)
    requires name in TAG_NAMES && Spells(spelled, name) && Apart(u, attributes + ">") && '>' !in attributes
    ensures var tag := (if slash then "</" else "<") + spelled + attributes + ">";
            Scan(u, tag + r, code) == tag + Scan(u, r, FlagOf(name, slash, code))
  {
    hide Scan, Lawful, Spells, TagAt, TagOf, CodeAfter, FlagOf;
    var head := if slash then "</" else "<";
    var tag := head + spelled + attributes + ">";
    var s := tag + r;
    TagIs(u, slash, name, spelled, attributes, r);
    TagIff(u, s);
    TagFlag(u, s, slash, name, code);
    TagEnds(head, spelled, attributes, name, r);
    ScanStep(u, s, code);
    assert s[..|tag|] == tag && s[|tag|..] == r;
  }

  lemma TagIs(u: Unicode, slash: bool, name: string, spelled: string, attributes: string, r: string)
    requires name in TAG_NAMES && Spells(spelled, name) && Apart(u, attributes + ">")
    ensures var s := (if slash then "</" else "<") + spelled + attributes + ">" + r;
            TagOf(u, s, slash, name) && s[0] == '<'
  {
    var head := if slash then "</" else "<";
    var d := |head|;
    var s := head + spelled + attributes + ">" + r;
    assert |spelled| == |name| && s == head + (spelled + (attributes + ">" + r));
    assert s[..d] == head && s[d..d + |name|] == spelled;
    assert s[d + |name|..] == attributes + ">" + r;
    assert (attributes + ">" + r)[0] == (attributes + ">")[0];
  }

  lemma TagEnds(head: string, spelled: string, attributes: string, name: string, r: string)
    requires name in TAG_NAMES && Spells(spelled, name) && '>' !in attributes && (head == "<" || head == "</")
    ensures TagEnd(head + spelled + attributes + ">" + r) == |head + spelled + attributes + ">"|
  {
    NamesAre(name);
    TagNameChars(name);
    hide IsTagName;
    assert forall i :: 0 <= i < |spelled| ==> spelled[i] != '>';
    var t := head + spelled + attributes;
    assert forall i :: 0 <= i < |t| ==> t[i] in head || t[i] in spelled || t[i] in attributes;
    assert '>' !in head;
    IndexOfIs(t + ">" + r, '>', |t|);
  }

  // ----- runs -----

  predicate LetterOrDigit(c: char) { 'a' <= c <= 'z' || 'A' <= c <= 'Z' || '0' <= c <= '9' }

  /** A character inside a general Latin run. */
  predicate InRun(c: char) { LetterOrDigit(c) || c in " .,:/_+=@#%-" || c == '\U{D7}' || c == '\U{2013}' }

  /** Behind these the run cannot go on to another letter or digit. */
  predicate RunOver(post: string) {
    forall k :: 0 <= k < |post| && LetterOrDigit(post[k]) ==> exists j :: 0 <= j < k && !InRun(post[j])
  }

  /** A run from one letter or digit to the last it can reach is isolated as one if it holds a Latin letter, and
      left as it is if not. */
  lemma RunInside(u: Unicode, run: string, post: string)
    requires |run| > 1 && LetterOrDigit(run[0]) && LetterOrDigit(run[|run| - 1])
    requires (forall k :: 0 <= k < |run| ==> InRun(run[k])) && RunOver(post)
    ensures var letter := exists c :: c in run && ('a' <= c <= 'z' || 'A' <= c <= 'Z');
            Isolate(u, run + post) == (if letter then [FSI] + run + [PDI] else run) + Isolate(u, post)
  {
    hide Lawful, Isolate, MatchLength;
    var s := run + post;
    RunMaximal(u, s);
    var n := MatchLength(u, s);
    assert forall k :: 0 <= k < |run| ==> s[k] == run[k];
    assert IsRun(s, |run|);
    RunStops(run, post, n);
    IsolateStep(u, s);
    assert s[..n] == run && s[n..] == post;
    LetterIn(run);
  }

  lemma LetterIn(run: string)
    ensures HasLetter(run) <==> exists c :: c in run && ('a' <= c <= 'z' || 'A' <= c <= 'Z')
  {
    if HasLetter(run) {
      var i :| 0 <= i < |run| && AsciiLetter(run[i]);
      assert run[i] in run;
    }
    if c :| c in run && ('a' <= c <= 'z' || 'A' <= c <= 'Z') {
      var i :| 0 <= i < |run| && run[i] == c;
      assert AsciiLetter(run[i]);
    }
  }

  lemma RunTail(run: string, post: string, n: nat)
    requires run != "" && |run| < n <= |run + post| && IsRun(run + post, n)
    ensures LetterOrDigit(post[n - |run| - 1]) && forall j :: 0 <= j < n - |run| ==> InRun(post[j])
  {
    forall j | 0 <= j < n - |run| ensures InRun(post[j]) {
      assert post[j] == (run + post)[|run| + j];
    }
    assert post[n - |run| - 1] == (run + post)[n - 1];
  }

  lemma RunStops(run: string, post: string, n: nat)
    requires run != "" && RunOver(post) && |run| <= n <= |run + post| && IsRun(run + post, n)
    ensures n == |run|
  {
    if n > |run| { RunTail(run, post, n); }
  }

  /** A Latin letter that no run goes on from is isolated alone, a digit is left as it is. */
  lemma LoneCharacter(u: Unicode, c: char, post: string)
    requires LetterOrDigit(c) && RunOver(post)
    ensures Isolate(u, [c] + post) == (if '0' <= c <= '9' then [c] else [FSI, c, PDI]) + Isolate(u, post)
  {
    hide Lawful, Isolate, MatchLength;
    var s := [c] + post;
    RunMaximal(u, s);
    var n := MatchLength(u, s);
    if n > 0 { RunStops([c], post, n); }
    IsolateStep(u, s);
    assert s[1..] == post && s[..1] == [c] && [c][0] == c;
    if AsciiLetter(c) { assert HasLetter([c]); }
  }

  /** No other character starts an isolate: a slash does only before a Latin letter, an at sign only before one, a
      digit or an underscore. */
  lemma OtherCharacter(u: Unicode, c: char, post: string)
    requires !LetterOrDigit(c)
    requires c == '/' ==> post == "" || !('a' <= post[0] <= 'z' || 'A' <= post[0] <= 'Z')
    requires c == '@' ==> post == "" || !(LetterOrDigit(post[0]) || post[0] == '_')
    ensures Isolate(u, [c] + post) == [c] + Isolate(u, post)
  {
    hide Isolate, Lawful;
    var s := [c] + post;
    IsolateStep(u, s);
    assert s[1..] == post && s[0] == c && (post != "" ==> s[1] == post[0]);
  }
}
