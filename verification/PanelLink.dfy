/** The panel link printer `admin_link` and the parser `parse_link`. */
module PanelLink {
  import opened Common

  /** Library functions: one percent-decoding, `str.lower`, `str.isspace`, the normal form of a network
      location (host name, IDNA, port), and the search for a link without a scheme. */
  datatype Text = Text(unquote: string -> string, lower: string -> string, space: char -> bool,
                       hostOf: string -> Option<string>, bare: (string, string) -> Option<string>)

  ghost predicate Lawful(e: Text) {
    && (forall s :: '%' !in s ==> e.unquote(s) == s)
    && (forall a, u, b :: Uuid(u) ==> Contains(e.lower(a + u + b), e.lower(u)))
    && (forall s, u :: Uuid(u) && e.lower(s) == e.lower(u) ==> Uuid(s))
    && (forall c :: 33 <= c as int <= 126 || c == '\U{17F}' ==> !e.space(c))
  }

  datatype ParsedLink = ParsedLink(uuid: string, host: Option<string>, path: Option<string>, tag: Option<string>)

  // ----- text searches -----

  predicate Uuid(s: string) {
    && |s| == 36
    && forall i :: 0 <= i < 36 ==> if i == 8 || i == 13 || i == 18 || i == 23 then s[i] == '-' else Hex(s[i])
  }

  predicate UuidAt(s: string, i: nat) { i + 36 <= |s| && Uuid(s[i..i + 36]) }

  /** Where the first UUID at or after `i` starts. */
  function FirstUuid(s: string, i: nat): (r: Option<nat>)
    requires i <= |s|
    ensures r.Some? ==> i <= r.value && UuidAt(s, r.value)
    ensures forall k :: i <= k < (if r.Some? then r.value else |s|) ==> !UuidAt(s, k)
    decreases |s| - i
  {
    if UuidAt(s, i) then Some(i) else if i == |s| then None else FirstUuid(s, i + 1)
  }

  predicate OccursAt(s: string, t: string, i: nat) { i + |t| <= |s| && s[i..i + |t|] == t }

  predicate Contains(s: string, t: string) { exists i: nat :: i <= |s| && OccursAt(s, t, i) }

  predicate FoldIs(c: char, lo: char, up: char) { c == lo || c == up }

  /** Length of `https?://` at `i`, letter case ignored (U+017F also counts as an s); 0 if absent. */
  function SchemeAt(s: string, i: nat): (n: nat)
    ensures n == 0 || (n >= 7 && i + n <= |s|)
  {
    if i + 7 <= |s| && FoldIs(s[i], 'h', 'H') && FoldIs(s[i + 1], 't', 'T') && FoldIs(s[i + 2], 't', 'T')
        && FoldIs(s[i + 3], 'p', 'P')
    then
      if s[i + 4..i + 7] == "://" then 7
      else if i + 8 <= |s| && (FoldIs(s[i + 4], 's', 'S') || s[i + 4] == '\U{17F}') && s[i + 5..i + 8] == "://" then 8
      else 0
    else 0
  }

  /** End of the run of non-space characters from `i`. */
  function WordEnd(e: Text, s: string, i: nat): (n: nat)
    requires i <= |s|
    ensures i <= n <= |s| && (forall k :: i <= k < n ==> !e.space(s[k])) && (n < |s| ==> e.space(s[n]))
    decreases |s| - i
  {
    if i == |s| || e.space(s[i]) then i else WordEnd(e, s, i + 1)
  }

  /** End of the URL match at `i`; `i` itself when there is none. */
  function UrlEnd(e: Text, s: string, i: nat): (n: nat)
    requires i <= |s|
    ensures i <= n <= |s|
  {
    var h := SchemeAt(s, i);
    if h == 0 || WordEnd(e, s, i + h) == i + h then i else WordEnd(e, s, i + h)
  }

  /** `re.findall(r"https?://[^\s]+", s)` from position `i` on. */
  function UrlTokens(e: Text, s: string, i: nat): seq<string>
    requires i <= |s|
    decreases |s| - i
  {
    if i == |s| then []
    else if UrlEnd(e, s, i) > i then [s[i..UrlEnd(e, s, i)]] + UrlTokens(e, s, UrlEnd(e, s, i))
    else UrlTokens(e, s, i + 1)
  }

  predicate Mentions(e: Text, token: string, uuid: string) { Contains(e.lower(e.unquote(token)), uuid) }

  function Pick(e: Text, tokens: seq<string>, uuid: string): Option<string> {
    if tokens == [] then None
    else if Mentions(e, tokens[0], uuid) then Some(tokens[0])
    else Pick(e, tokens[1..], uuid)
  }

  // ----- splitting a URL -----

  predicate SchemeChar(c: char) {
    'a' <= c <= 'z' || 'A' <= c <= 'Z' || '0' <= c <= '9' || c == '+' || c == '-' || c == '.'
  }

  /** What follows the scheme, if there is a valid one. */
  function AfterScheme(url: string): string {
    var i := IndexOf(url, ':');
    if 0 < i < |url| && ('a' <= url[0] <= 'z' || 'A' <= url[0] <= 'Z')
        && (forall k :: 0 <= k < i ==> SchemeChar(url[k]))
    then url[i + 1..] else url
  }

  function Min(a: nat, b: nat): nat { if a < b then a else b }

  /** Where the network location or the path ends. */
  function NetlocEnd(s: string): nat { Min(IndexOf(s, '/'), Min(IndexOf(s, '?'), IndexOf(s, '#'))) }

  function PathEnd(s: string): nat { Min(IndexOf(s, '?'), IndexOf(s, '#')) }

  /** `urlsplit(url)`: network location and path. */
  function UrlSplit(url: string): (string, string) {
    var s := AfterScheme(url);
    if |s| >= 2 && s[..2] == "//" then
      var n := NetlocEnd(s[2..]);
      var p := s[2..][n..];
      (s[2..][..n], p[..PathEnd(p)])
    else ("", s[..PathEnd(s)])
  }

  function StripLeft(e: Text, s: string): string {
    if s != [] && e.space(s[0]) then StripLeft(e, s[1..]) else s
  }

  function StripRight(e: Text, s: string): string {
    if s != [] && e.space(s[|s| - 1]) then StripRight(e, s[..|s| - 1]) else s
  }

  function Strip(e: Text, s: string): string { StripRight(e, StripLeft(e, s)) }

  function NormalizeHost(e: Text, value: string): Option<string> {
    var raw := Strip(e, value);
    if raw == "" then None
    else e.hostOf(UrlSplit(if Contains(raw, "://") then raw else "//" + raw).0)
  }

  /** `[part for part in s.split("/") if part]` */
  function Segments(s: string): seq<string>
    decreases |s|
  {
    if s == [] then []
    else
      var i := IndexOf(s, '/');
      var rest := if i == |s| then [] else Segments(s[i + 1..]);
      if i == 0 then rest else [s[..i]] + rest
  }

  function NormalizePath(e: Text, value: string): Option<string> {
    var p := Join("/", Segments(Strip(e, e.unquote(value))));
    if p == "" then None else Some(p)
  }

  function TrimEnd(s: string): string {
    if s != [] && s[|s| - 1] in ").,]" then TrimEnd(s[..|s| - 1]) else s
  }

  /** Index of the first segment that is the uuid. */
  function UuidIndex(e: Text, segs: seq<string>, uuid: string): Option<nat> {
    if segs == [] then None
    else if e.lower(e.unquote(segs[0])) == uuid then Some(0)
    else match UuidIndex(e, segs[1..], uuid) case None => None case Some(i) => Some(i + 1)
  }

  function TagOf(e: Text, token: string): Option<string> {
    var i := IndexOf(token, '#');
    if i == |token| then None
    else
      var raw := Strip(e, token[i + 1..]);
      if raw == "" || e.unquote(raw) == "" then None
      else Some(e.unquote(raw)[..Min(255, |e.unquote(raw)|)])
  }

  /** What a URL token says, once trailing punctuation is gone. */
  function FromToken(e: Text, uuid: string, token: string): ParsedLink {
    var t := TrimEnd(token);
    var url := t[..IndexOf(t, '#')];
    var segs := Segments(UrlSplit(url).1);
    var i := UuidIndex(e, segs, uuid);
    ParsedLink(uuid, NormalizeHost(e, url),
               if i.Some? && i.value <= |segs| then NormalizePath(e, Join("/", segs[..i.value])) else None,
               TagOf(e, t))
  }

  function TokenFor(e: Text, text: string, uuid: string): Option<string> {
    var found := Pick(e, UrlTokens(e, text, 0), uuid);
    if found.Some? then found
    else match e.bare(text, uuid) case None => None case Some(b) => Some("https://" + b)
  }

  function ParseLink(e: Text, text: string): Option<ParsedLink> {
    var at := FirstUuid(text, 0);
    if at.None? then None
    else
      var uuid := e.lower(text[at.value..at.value + 36]);
      match TokenFor(e, text, uuid)
      case None => Some(ParsedLink(uuid, None, None, None))
      case Some(token) => Some(if token == "" then ParsedLink(uuid, None, None, None) else FromToken(e, uuid, token))
  }

  /** `admin_link` */
  function AdminLink(host: string, proxy: string, uuid: string, tag: Option<string>): string {
    "https://" + host + "/" + proxy + "/" + uuid + "/" + (if tag.Some? && tag.value != "" then "#" + tag.value else "")
  }

  /** The candidate loop of the parser. */
  method Parse(e: Text, text: string) returns (r: Option<ParsedLink>)
    ensures r == ParseLink(e, text)
  {
    var at := FirstUuid(text, 0);
    if at.None? { return None; }
    var uuid := e.lower(text[at.value..at.value + 36]);
    var token: Option<string> := None;
    var candidates := UrlTokens(e, text, 0);
    for i := 0 to |candidates|
      invariant token == None && Pick(e, candidates[i..], uuid) == Pick(e, candidates, uuid)
    {
      assert candidates[i..][1..] == candidates[i + 1..];
      if Mentions(e, candidates[i], uuid) {
        token := Some(candidates[i]);
        break;
      }
    }
    assert candidates[|candidates|..] == [];
    if token == None {
      var b := e.bare(text, uuid);
      if b.Some? { token := Some("https://" + b.value); }
    }
    if token == None || token.value == "" { return Some(ParsedLink(uuid, None, None, None)); }
    return Some(FromToken(e, uuid, token.value));
  }
}
