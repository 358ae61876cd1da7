/** The allowlist for the portal's `next` deep link. */
module DeepLink {
  import opened Common

  const PREFIX := "/portal/storefront/"
  const MAX_LEN: nat := 512

  /** `unquote` stands for one percent-decoding and `space` for `str.isspace`. */
  datatype Text = Text(unquote: string -> string, space: char -> bool)

  ghost predicate Lawful(e: Text) {
    && (forall s :: '%' !in s ==> e.unquote(s) == s)
    && (forall s :: |e.unquote(s)| <= |s|)
    && (forall c :: PathChar(c) ==> !e.space(c))
  }

  type Env = e: Text | Lawful(e) witness Text(s => s, c => c == ' ')

  predicate Digit(c: char) { '0' <= c <= '9' }

  /** Characters of registered paths. */
  predicate PathChar(c: char) { Digit(c) || 'a' <= c <= 'z' || c == '/' }

  /** `[0-9]+` */
  predicate Digits(s: string) { s != [] && forall i :: 0 <= i < |s| ==> Digit(s[i]) }

  /** A registered route below a shop, or nothing. */
  predicate Suffix(t: string) {
    || t == "" || t == "/" || t == "/plans" || t == "/customers" || t == "/topups" || t == "/credits"
    || t == "/campaigns" || t == "/finance" || t == "/settings" || t == "/managers" || t == "/preview" || t == "/health"
    || (|t| > 11 && t[..11] == "/customers/" && Digits(t[11..]))
  }

  function Value(c: char): nat
    requires Digit(c)
  {
    (c as int) - ('0' as int)
  }

  /** `int(s)` */
  function Parse(s: string): nat
    requires forall i :: 0 <= i < |s| ==> Digit(s[i])
  {
    if s == [] then 0 else 10 * Parse(s[..|s| - 1]) + Value(s[|s| - 1])
  }

  function DigitOf(v: nat): (c: char)
    requires v < 10
    ensures Digit(c) && Value(c) == v
  {
    (('0' as int) + v) as char
  }

  /** `str(n)` */
  function Print(n: nat): (s: string)
    ensures Digits(s)
  {
    if n < 10 then [DigitOf(n)] else Print(n / 10) + [DigitOf(n % 10)]
  }

  predicate HasPair(s: string, a: char, b: char) { exists i :: 0 <= i < |s| - 1 && s[i] == a && s[i + 1] == b }

  predicate HasEncoded(s: string) { exists i :: 0 <= i < |s| - 2 && s[i] == '%' && Hex(s[i + 1]) && Hex(s[i + 2]) }

  predicate HasControl(s: string) { exists i :: 0 <= i < |s| && ((s[i] as int) < 0x20 || s[i] as int == 0x7F) }

  predicate HasSpace(e: Env, s: string) { exists i :: 0 <= i < |s| && e.space(s[i]) }

  predicate StartsWith(s: string, p: string) { |p| <= |s| && s[..|p|] == p }

  /** The canonical path, without a bare trailing slash. */
  function Canonical(shop: nat, suffix: string): string {
    PREFIX + Print(shop) + (if suffix == "/" then "" else suffix)
  }

  function StripSlashes(s: string): string {
    if s != [] && s[|s| - 1] == '/' then StripSlashes(s[..|s| - 1]) else s
  }

  function ValidateNext(e: Env, raw: Option<string>): Option<string> {
    if raw.None? || raw.value == "" then None
    else if |raw.value| > MAX_LEN then None
    else
      var decoded := e.unquote(raw.value);
      if HasEncoded(decoded) then None
      else if HasSpace(e, decoded) then None
      else if HasControl(decoded) then None
      else if '\\' in decoded || HasPair(decoded, '.', '.') then None
      else if ':' in decoded then None
      else if !StartsWith(decoded, PREFIX) then None
      else if HasPair(decoded, '/', '/') then None
      else
        var rest := decoded[|PREFIX|..];
        var n := IndexOf(rest, '/');
        if !Digits(rest[..n]) then None
        else if !Suffix(rest[n..]) then None
        else
          var canonical := PREFIX + Print(Parse(rest[..n])) + rest[n..];
          if canonical[|canonical| - 1] == '/' && canonical != PREFIX
            then Some(StripSlashes(canonical)) else Some(canonical)
  }

  function ParseShopId(next: string): Option<nat> {
    if |next| < |PREFIX| then None
    else
      var rest := next[|PREFIX|..];
      var seg := rest[..IndexOf(rest, '/')];
      if Digits(seg) then Some(Parse(seg)) else None
  }

  // ----- numbers -----

  lemma {:induction false} ParsePrint(n: nat)
    ensures Parse(Print(n)) == n
  {
    if n < 10 {
      assert [DigitOf(n)][..0] == [];
    } else {
      ParsePrint(n / 10);
      assert Print(n)[..|Print(n)| - 1] == Print(n / 10);
    }
  }

  lemma {:induction false} PrintShorter(s: string)
    requires Digits(s)
    ensures |Print(Parse(s))| <= |s|
  {
    var pre := s[..|s| - 1];
    if pre != [] {
      PrintShorter(pre);
      assert Parse(s) / 10 == Parse(pre);
    }
  }

  // ----- the grammar -----

  ghost predicate Plain(s: string) { forall i :: 0 <= i < |s| ==> PathChar(s[i]) }

  lemma SuffixPlain(t: string)
    requires Suffix(t)
    ensures Plain(t) && !HasPair(t, '/', '/') && (t != "" ==> t[0] == '/')
  {
    if |t| > 11 && t[..11] == "/customers/" && Digits(t[11..]) {
      forall i | 0 <= i < |t| ensures PathChar(t[i]) && (i > 0 && t[i] == '/' ==> i == 10) {
        if i < 11 { assert t[i] == t[..11][i]; } else { assert t[i] == t[11..][i - 11]; }
      }
    }
  }

  /** Nothing else that `ValidateNext` tests can fail on a path of the grammar. */
  lemma GrammarPlain(e: Env, seg: string, t: string)
    requires Digits(seg) && Suffix(t)
    ensures var d := PREFIX + seg + t;
            && Plain(d) && !HasEncoded(d) && !HasSpace(e, d) && !HasControl(d) && '\\' !in d
            && !HasPair(d, '.', '.') && ':' !in d && '%' !in d && !HasPair(d, '/', '/')
            && StartsWith(d, PREFIX) && d[|PREFIX|..] == seg + t
  {
    hide Suffix, HasPair, HasEncoded, HasSpace, HasControl;
    var d := PREFIX + seg + t;
    SuffixPlain(t);
    PlainPath(seg, t);
    PlainAvoids(e, d);
    NoDoubleSlash(seg, t);
  }

  lemma PlainPath(seg: string, t: string)
    requires Digits(seg) && Plain(t)
    ensures var d := PREFIX + seg + t; Plain(d) && StartsWith(d, PREFIX) && d[|PREFIX|..] == seg + t
  {
    assert forall i :: 0 <= i < |PREFIX| ==> PathChar(PREFIX[i]);
  }

  lemma PlainAvoids(e: Env, d: string)
    requires Plain(d)
    ensures !HasEncoded(d) && !HasSpace(e, d) && !HasControl(d) && '\\' !in d
    ensures !HasPair(d, '.', '.') && ':' !in d && '%' !in d
  {
  }

  lemma NoDoubleSlash(seg: string, t: string)
    requires Digits(seg) && Suffix(t) && !HasPair(t, '/', '/')
    ensures !HasPair(PREFIX + seg + t, '/', '/')
  {
    var d := PREFIX + seg + t;
    var m := |PREFIX| + |seg|;
    forall i | 0 <= i < |d| - 1 ensures !(d[i] == '/' && d[i + 1] == '/') {
      if i >= m {
        assert d[i] == t[i - m] && d[i + 1] == t[i + 1 - m];
      } else if i >= |PREFIX| - 1 {
        assert i >= |PREFIX| ==> d[i] == seg[i - |PREFIX|];
        assert i + 1 < m ==> d[i + 1] == seg[i + 1 - |PREFIX|];
      } else {
        assert d[i] == PREFIX[i] && d[i + 1] == PREFIX[i + 1];
      }
    }
  }

  lemma {:induction false} SegmentOf(seg: string, t: string)
    requires (forall i :: 0 <= i < |seg| ==> seg[i] != '/') && (t == "" || t[0] == '/')
    ensures IndexOf(seg + t, '/') == |seg|
  {
    if seg != [] {
      assert (seg + t)[1..] == seg[1..] + t;
      SegmentOf(seg[1..], t);
    } else {
      assert seg + t == t;
    }
  }

  /** Only the bare suffix `/` ends in a slash, and stripping it leaves the digits. */
  lemma CanonicalIs(shop: nat, t: string)
    requires Suffix(t)
    ensures var c := PREFIX + Print(shop) + t;
            Canonical(shop, t) == if c[|c| - 1] == '/' && c != PREFIX then StripSlashes(c) else c
  {
    var p := Print(shop);
    var c := PREFIX + p + t;
    if t == "/" {
      assert c[..|c| - 1] == PREFIX + p;
      assert (PREFIX + p)[|PREFIX + p| - 1] == p[|p| - 1];
      assert StripSlashes(PREFIX + p) == PREFIX + p;
      assert Canonical(shop, t) == PREFIX + p + "" == PREFIX + p;
    } else if t == "" {
      assert c[|c| - 1] == p[|p| - 1];
    } else {
      assert c[|c| - 1] == t[|t| - 1];
      if |t| > 11 && Digits(t[11..]) { assert t[|t| - 1] == t[11..][|t| - 12]; }
    }
  }

  /** Accepted are exactly the non-empty texts of at most 512 characters whose one percent-decoding is
      the prefix, digits and a registered suffix; every other rejection is implied. */
  lemma AcceptsExactly(e: Env, raw: Option<string>)
    ensures ValidateNext(e, raw).Some?
            <==> && raw.Some? && 0 < |raw.value| <= MAX_LEN
                 && exists seg, t :: Digits(seg) && Suffix(t) && e.unquote(raw.value) == PREFIX + seg + t
  {
    hide Lawful, HasEncoded, HasSpace, HasControl, HasPair, Suffix, StripSlashes;
    if raw.Some? && 0 < |raw.value| <= MAX_LEN {
      var d := e.unquote(raw.value);
      if ValidateNext(e, raw).Some? {
        var rest := d[|PREFIX|..];
        var n := IndexOf(rest, '/');
        assert d == PREFIX + rest[..n] + rest[n..];
      }
      forall seg, t | Digits(seg) && Suffix(t) && d == PREFIX + seg + t
        ensures ValidateNext(e, raw).Some?
      {
        ValueOf(e, raw.value, seg, t);
      }
    }
  }

  /** The value returned for an accepted text. */
  lemma ValueOf(e: Env, raw: string, seg: string, t: string)
    requires 0 < |raw| <= MAX_LEN && Digits(seg) && Suffix(t) && e.unquote(raw) == PREFIX + seg + t
    ensures ValidateNext(e, Some(raw)) == Some(Canonical(Parse(seg), t))
  {
    hide Lawful, HasEncoded, HasSpace, HasControl, HasPair, StripSlashes, Suffix, IndexOf, Print, Parse, Canonical;
    GrammarPlain(e, seg, t);
    SuffixPlain(t);
    SegmentOf(seg, t);
    Halves(seg, t);
    CanonicalIs(Parse(seg), t);
  }

  lemma Halves(a: string, b: string)
    ensures (a + b)[..|a|] == a && (a + b)[|a|..] == b
  {
  }

  /** An accepted link's canonical form validates to itself and names the shop of the original. */
  lemma FixedPoint(e: Env, raw: string, seg: string, t: string)
    requires 0 < |raw| <= MAX_LEN && Digits(seg) && Suffix(t) && e.unquote(raw) == PREFIX + seg + t
    ensures var c := Canonical(Parse(seg), t);
            && ValidateNext(e, Some(raw)) == Some(c)
            && ValidateNext(e, Some(c)) == Some(c)
            && ParseShopId(c) == Some(Parse(seg))
  {
    hide ValidateNext, HasEncoded, HasSpace, HasControl, HasPair, Suffix;
    ValueOf(e, raw, seg, t);
    var shop := Parse(seg);
    var p := Print(shop);
    var u := if t == "/" then "" else t;
    var c := Canonical(shop, t);
    EmptySuffix();
    assert c == PREFIX + p + u;
    GrammarPlain(e, p, u);
    PrintShorter(seg);
    assert |c| <= |PREFIX + seg + t| <= |raw|;
    assert e.unquote(c) == c;
    ValueOf(e, c, p, u);
    ParsePrint(shop);
    SuffixPlain(u);
    SegmentOf(p, u);
    assert c[|PREFIX|..] == p + u && (p + u)[..|p|] == p;
  }

  lemma EmptySuffix()
    ensures Suffix("")
  {
  }

  // ----- in plain words -----

  /** The registered routes below a shop, but for the customers' own. */
  const ROUTES: seq<string> := [
    "", "/", "/plans", "/customers", "/topups", "/credits", "/campaigns", "/finance", "/settings", "/managers",
    "/preview", "/health"]

  ghost predicate Route(t: string) { t in ROUTES || exists id :: Digits(id) && t == "/customers/" + id }

  lemma SuffixIff(t: string)
    ensures Suffix(t) <==> Route(t)
  {
    if |t| > 11 && t[..11] == "/customers/" && Digits(t[11..]) { assert t == "/customers/" + t[11..]; }
    if id :| Digits(id) && t == "/customers/" + id { assert t[..11] == "/customers/" && t[11..] == id; }
  }

  /** The shop's number without leading zeros. */
  lemma {:induction false} LeadingZeros(seg: string) returns (zeros: string)
    requires Digits(seg)
    ensures seg == zeros + Print(Parse(seg)) && forall i :: 0 <= i < |zeros| ==> zeros[i] == '0'
    ensures Print(Parse(seg))[0] != '0' || Print(Parse(seg)) == "0"
  {
    var pre, c := seg[..|seg| - 1], seg[|seg| - 1];
    assert seg == pre + [c];
    if pre == "" {
      zeros := "";
    } else {
      var z := LeadingZeros(pre);
      PrintNext(pre, c);
      if Parse(pre) == 0 {
        zeros := pre;
        assert Print(0) == "0";
      } else {
        zeros := z;
        assert z + (Print(Parse(pre)) + [c]) == seg;
      }
    }
  }

  lemma ParseNext(pre: string, c: char)
    requires Digits(pre) && Digit(c)
    ensures Parse(pre + [c]) == 10 * Parse(pre) + Value(c)
  {
    assert (pre + [c])[..|pre|] == pre;
  }

  lemma PrintNext(pre: string, c: char)
    requires Digits(pre) && Digit(c)
    ensures Parse(pre + [c]) == 10 * Parse(pre) + Value(c)
    ensures Print(Parse(pre + [c])) == if Parse(pre) == 0 then [c] else Print(Parse(pre)) + [c]
  {
    ParseNext(pre, c);
    hide Parse;
    assert DigitOf(Value(c)) == c;
  }

  /** Accepted is a text exactly if it has 1 to 512 characters and decodes to the storefront path of a numbered shop
      and one of its routes. */
  lemma AcceptsRoutes(e: Env, raw: string)
    ensures ValidateNext(e, Some(raw)).Some?
            <==> && 0 < |raw| <= 512
                 && exists seg, t :: Digits(seg) && Route(t) && e.unquote(raw) == "/portal/storefront/" + seg + t
  {
    hide ValidateNext, Lawful, Suffix, Digits, Route;
    AcceptsExactly(e, Some(raw));
    forall t ensures Suffix(t) <==> Route(t) {
      SuffixIff(t);
    }
  }

  /** The result is that path, the number without leading zeros and no slash at the end. */
  lemma RouteValue(e: Env, raw: string, zeros: string, n: string, t: string)
    requires 0 < |raw| <= 512 && Digits(n) && (n[0] != '0' || n == "0")
    requires forall i :: 0 <= i < |zeros| ==> zeros[i] == '0'
    requires Route(t)
    requires e.unquote(raw) == "/portal/storefront/" + (zeros + n) + t
    ensures ValidateNext(e, Some(raw)) == Some("/portal/storefront/" + n + (if t == "/" then "" else t))
  {
    hide ValidateNext, Lawful, Suffix;
    SuffixIff(t);
    ZerosDigits(zeros, n);
    ValueOf(e, raw, zeros + n, t);
  }

  /** Two ways to split leading zeros off are one. */
  lemma ZerosDigits(zeros: string, n: string)
    requires Digits(n) && (n[0] != '0' || n == "0") && forall i :: 0 <= i < |zeros| ==> zeros[i] == '0'
    ensures Digits(zeros + n) && Print(Parse(zeros + n)) == n
  {
    hide Print, Parse;
    var s := zeros + n;
    assert Digits(s);
    var z := LeadingZeros(s);
    var p := Print(Parse(s));
    ZerosFit(z, p, zeros, n);
    ZerosFit(zeros, n, z, p);
    assert p == s[|z|..] && n == s[|zeros|..];
  }

  lemma ZerosFit(z: string, p: string, zeros: string, n: string)
    requires z + p == zeros + n && p != "" && n != "" && (n[0] != '0' || n == "0")
    requires forall i :: 0 <= i < |z| ==> z[i] == '0'
    ensures |z| <= |zeros|
  {
    var s := zeros + n;
    assert forall i :: 0 <= i < |z| ==> s[i] == z[i];
    assert s[|zeros|] == n[0];
    assert |s| == |z| + |p|;
  }
}
