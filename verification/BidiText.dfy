/** Characters, regular expressions and tag recognition of the bidi rewriter. */
module BidiText {
  import opened Common

  const RLM: char := '\U{200F}'
  const FSI: char := '\U{2068}'
  const PDI: char := '\U{2069}'

  /** The Unicode tables behind `\w` and `str.isspace`, of which only a few entries matter. */
  datatype Tables = Tables(word: char -> bool, space: char -> bool)

  ghost predicate Lawful(t: Tables) {
    && (forall c :: AsciiAlnum(c) || c == '_' || FoldsToAscii(c) ==> t.word(c))
    && (forall c :: c as int < 128 && !AsciiAlnum(c) && c != '_' ==> !t.word(c))
    && !t.word(FSI) && !t.word(PDI) && !t.word(RLM)
    && (forall c :: AsciiAlnum(c) || c == '<' || c == RLM ==> !t.space(c))
  }

  type Unicode = t: Tables | Lawful(t)
    witness Tables(c => AsciiAlnum(c) || c == '_' || FoldsToAscii(c), c => c == ' ')

  predicate AsciiLetter(c: char) { 'a' <= c <= 'z' || 'A' <= c <= 'Z' }

  predicate AsciiAlnum(c: char) { AsciiLetter(c) || '0' <= c <= '9' }

  /** Body characters of the general Latin run. */
  predicate RunChar(c: char) {
    AsciiAlnum(c) || c in " .,:/_+=@#%-" || c == '\U{D7}' || c == '\U{2013}'
  }

  predicate HasLetter(s: string) { exists i :: 0 <= i < |s| && AsciiLetter(s[i]) }

  // ----- case folding under re.I -----

  /** Non-ASCII characters that case-insensitive patterns identify with an ASCII letter:
      U+0130 and U+0131 with i, U+017F with s, U+212A with k. */
  predicate FoldsToAscii(c: char) {
    c == '\U{130}' || c == '\U{131}' || c == '\U{17F}' || c == '\U{212A}'
  }

  function Fold(c: char): char {
    if 'A' <= c <= 'Z' then ((c as int) + 32) as char
    else if c == '\U{130}' || c == '\U{131}' then 'i'
    else if c == '\U{17F}' then 's'
    else if c == '\U{212A}' then 'k'
    else c
  }

  function FoldAll(s: string): (r: string)
    ensures |r| == |s|
    ensures forall i :: 0 <= i < |s| ==> r[i] == Fold(s[i])
  {
    seq(|s|, i requires 0 <= i < |s| => Fold(s[i]))
  }

  // ----- tags -----

  predicate IsTagName(n: string) {
    n == "b" || n == "strong" || n == "i" || n == "em" || n == "u" || n == "ins" || n == "s"
    || n == "strike" || n == "del" || n == "a" || n == "code" || n == "pre" || n == "span"
    || n == "tg-spoiler"
  }

  /** `\b` between `s[k-1]` and whatever follows. */
  predicate Boundary(u: Unicode, s: string, k: nat)
    requires 0 < k <= |s|
  {
    u.word(s[k - 1]) != (k < |s| && u.word(s[k]))
  }

  /** Some tag name, then a word boundary, at the start of `s`. */
  predicate NameAt(u: Unicode, s: string) {
    exists k :: 0 < k <= |s| && IsTagName(FoldAll(s[..k])) && Boundary(u, s, k)
  }

  /** `_TAG_AT` matches at the start of `s`. */
  predicate TagAt(u: Unicode, s: string) {
    && |s| > 1 && s[0] == '<'
    && (NameAt(u, s[1..]) || (s[1] == '/' && NameAt(u, s[2..])))
  }

  predicate StartsFold(s: string, p: string) {
    |p| <= |s| && FoldAll(s[..|p|]) == p
  }

  /** The code flag after the tag at the start of `s`. */
  function CodeAfter(s: string, code: bool): bool {
    if StartsFold(s, "<code") || StartsFold(s, "<pre") then true
    else if StartsFold(s, "</code") || StartsFold(s, "</pre") then false
    else code
  }

  /** Length of the tag token: through the first `>`, or everything. */
  function TagEnd(s: string): (j: nat)
    ensures j <= |s|
    ensures s != [] ==> j > 0
  {
    var k := IndexOf(s, '>');
    if k < |s| then k + 1 else k
  }

  /** A character that no tag head contains after its opening `<`. */
  predicate Stopper(c: char) {
    !('a' <= Fold(c) <= 'z') && c != '-' && c != '/'
  }

  lemma TagNameChars(n: string)
    requires IsTagName(n)
    ensures 0 < |n| && forall i :: 0 <= i < |n| ==> 'a' <= n[i] <= 'z' || n[i] == '-'
  {
  }

  /** Whether a name starts here is decided before the first stopper. */
  lemma NameAtAgree(u: Unicode, s: string, t: string, j: nat)
    requires 0 < j <= |s| && j <= |t| && s[..j] == t[..j]
    requires Stopper(s[j - 1])
    ensures NameAt(u, s) ==> NameAt(u, t)
  {
    hide IsTagName, Lawful;
    if NameAt(u, s) {
      var k :| 0 < k <= |s| && IsTagName(FoldAll(s[..k])) && Boundary(u, s, k);
      TagNameChars(FoldAll(s[..k]));
      assert k < j;
      assert forall i :: 0 <= i < j ==> s[i] == s[..j][i] == t[..j][i] == t[i];
      assert s[..k] == t[..k];
    }
  }

  lemma DropAgree(s: string, t: string, j: nat, d: nat)
    requires d <= j <= |s| && j <= |t| && s[..j] == t[..j]
    ensures s[d..][..j - d] == t[d..][..j - d]
    ensures forall i :: 0 <= i < j ==> s[i] == t[i]
  {
    assert forall i :: 0 <= i < j ==> s[i] == s[..j][i] == t[..j][i] == t[i];
  }

  lemma TagAtImplies(u: Unicode, s: string, t: string, j: nat)
    requires 0 < j <= |s| && j <= |t| && s[..j] == t[..j]
    requires Stopper(s[j - 1]) && (s[j - 1] == '<' ==> j > 1)
    ensures TagAt(u, s) ==> TagAt(u, t)
  {
    hide NameAt, Lawful;
    DropAgree(s, t, j, 0);
    if TagAt(u, s) {
      assert j > 1;
      DropAgree(s, t, j, 1);
      NameAtAgree(u, s[1..], t[1..], j - 1);
      if s[1] == '/' && NameAt(u, s[2..]) {
        assert j > 2;
        DropAgree(s, t, j, 2);
        NameAtAgree(u, s[2..], t[2..], j - 2);
      }
    }
  }

  /** Texts that agree up to and including a stopper agree on being a tag. */
  lemma TagAtAgree(u: Unicode, s: string, t: string, j: nat)
    requires 0 < j <= |s| && j <= |t| && s[..j] == t[..j]
    requires Stopper(s[j - 1]) && (s[j - 1] == '<' ==> j > 1)
    ensures TagAt(u, s) == TagAt(u, t)
  {
    TagAtImplies(u, s, t, j);
    assert t[j - 1] == t[..j][j - 1] == s[..j][j - 1] == s[j - 1];
    TagAtImplies(u, t, s, j);
  }

  lemma StartsFoldAgree(s: string, t: string, j: nat, p: string)
    requires 0 < j <= |s| && j <= |t| && s[..j] == t[..j]
    requires Stopper(s[j - 1]) && s[j - 1] != '<'
    requires forall i :: 0 <= i < |p| ==> 'a' <= p[i] <= 'z' || p[i] == '<' || p[i] == '/'
    ensures StartsFold(s, p) ==> StartsFold(t, p)
  {
    if StartsFold(s, p) {
      assert |p| < j;
      assert forall i :: 0 <= i < j ==> s[i] == s[..j][i] == t[..j][i] == t[i];
      assert s[..|p|] == t[..|p|];
    }
  }

  lemma CodeAfterAgree(s: string, t: string, j: nat, code: bool)
    requires 0 < j <= |s| && j <= |t| && s[..j] == t[..j]
    requires Stopper(s[j - 1]) && s[j - 1] != '<'
    ensures CodeAfter(s, code) == CodeAfter(t, code)
  {
    assert t[j - 1] == t[..j][j - 1] == s[..j][j - 1] == s[j - 1];
    StartsFoldAgree(s, t, j, "<code");
    StartsFoldAgree(s, t, j, "<pre");
    StartsFoldAgree(s, t, j, "</code");
    StartsFoldAgree(s, t, j, "</pre");
    StartsFoldAgree(t, s, j, "<code");
    StartsFoldAgree(t, s, j, "<pre");
    StartsFoldAgree(t, s, j, "</code");
    StartsFoldAgree(t, s, j, "</pre");
  }

  // ----- Latin runs -----

  /** Longest prefix of `s` made of word characters and hyphens. */
  function CommandSpan(u: Unicode, s: string): (n: nat)
    ensures n <= |s| && forall k :: 0 <= k < n ==> u.word(s[k]) || s[k] == '-'
  {
    if s == [] || !(u.word(s[0]) || s[0] == '-') then 0 else 1 + CommandSpan(u, s[1..])
  }

  /** Longest prefix of `s` made of ASCII letters, digits and underscores. */
  function MentionSpan(s: string): (n: nat)
    ensures n <= |s| && forall k :: 0 <= k < n ==> AsciiAlnum(s[k]) || s[k] == '_'
  {
    if s == [] || !(AsciiAlnum(s[0]) || s[0] == '_') then 0 else 1 + MentionSpan(s[1..])
  }

  /** Longest prefix of `s` made of run characters. */
  function RunSpan(s: string): (n: nat)
    ensures n <= |s| && forall k :: 0 <= k < n ==> RunChar(s[k])
  {
    if s == [] || !RunChar(s[0]) then 0 else 1 + RunSpan(s[1..])
  }

  /** Backs off from length `n` to the longest prefix ending in a letter or digit; 0 if none. */
  function BackOff(s: string, n: nat): (m: nat)
    requires n <= |s|
    ensures m <= n
    ensures m > 0 ==> AsciiAlnum(s[m - 1])
    ensures forall k :: m <= k < n ==> !AsciiAlnum(s[k])
  {
    if n == 0 || AsciiAlnum(s[n - 1]) then n else BackOff(s, n - 1)
  }

  /** Length of the `_LTR_RUN` match at the start of `s`, 0 if there is none.
      Alternatives are tried in order: command, mention, general run, single letter. */
  function MatchLength(u: Unicode, s: string): (n: nat)
    ensures n <= |s|
    ensures forall k :: 0 <= k < n ==> s[k] !in [FSI, PDI, RLM, '<', '>', '\n']
    ensures s != [] && AsciiLetter(s[0]) ==> n > 0
    ensures n > 0 ==> AsciiAlnum(s[0]) || s[0] == '/' || s[0] == '@'
  {
    hide FoldsToAscii;
    if |s| >= 2 && s[0] == '/' && AsciiLetter(s[1]) then 2 + CommandSpan(u, s[2..])
    else if |s| >= 2 && s[0] == '@' && (AsciiAlnum(s[1]) || s[1] == '_') then 2 + MentionSpan(s[2..])
    else if s != [] && AsciiAlnum(s[0]) then
      var m := BackOff(s[1..], RunSpan(s[1..]));
      if m > 0 then 1 + m else if AsciiLetter(s[0]) then 1 else 0
    else 0
  }

  function Wrap(run: string): string {
    if HasLetter(run) then [FSI] + run + [PDI] else run
  }

  /** `_isolate`: wraps every matched run that contains a Latin letter. */
  function Isolate(u: Unicode, s: string): string {
    if s == [] then []
    else
      var n := MatchLength(u, s);
      if n == 0 then [s[0]] + Isolate(u, s[1..]) else Wrap(s[..n]) + Isolate(u, s[n..])
  }
}
