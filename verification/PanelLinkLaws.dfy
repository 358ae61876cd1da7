/** Parsing a printed panel link gives back what was printed. */
module PanelLinkLaws {
  import opened Common
  import opened PanelLink

  ghost predicate NoSpace(e: Text, s: string) { forall i :: 0 <= i < |s| ==> !e.space(s[i]) }

  ghost predicate Free(s: string, cs: string) { forall i :: 0 <= i < |s| ==> s[i] !in cs }

  /** What a link can carry through: a host without URL delimiters, a proxy path and a tag without
      escapes or spaces, the tag not ending in punctuation that is trimmed. */
  ghost predicate Printable(e: Text, host: string, proxy: string, uuid: string, tag: Option<string>) {
    && Uuid(uuid) && host != "" && NoSpace(e, host) && Free(host, "/?#%")
    && NoSpace(e, proxy) && Free(proxy, "?#%")
    && (tag.Some? && tag.value != "" ==>
          NoSpace(e, tag.value) && Free(tag.value, "%") && tag.value[|tag.value| - 1] !in ").,]")
  }

  /** What is kept of a tag: no more than 255 characters. */
  function Kept(tag: Option<string>): Option<string> {
    if tag.None? || tag.value == "" then None
    else Some(tag.value[..if |tag.value| > 255 then 255 else |tag.value|])
  }

  function Base(host: string, proxy: string, uuid: string): string {
    "https://" + host + "/" + proxy + "/" + uuid + "/"
  }

  // ----- small facts -----

  lemma FirstUuidIs(s: string, i: nat, n: nat)
    requires i <= n && UuidAt(s, n) && forall k :: i <= k < n ==> !UuidAt(s, k)
    ensures FirstUuid(s, i) == Some(n)
  {
  }

  lemma WordEndIs(e: Text, s: string, i: nat, n: nat)
    requires i <= n <= |s| && (forall k :: i <= k < n ==> !e.space(s[k])) && (n < |s| ==> e.space(s[n]))
    ensures WordEnd(e, s, i) == n
    decreases n - i
  {
    if i < n { WordEndIs(e, s, i + 1, n); }
  }

  lemma StripNothing(e: Text, s: string)
    requires NoSpace(e, s)
    ensures Strip(e, s) == s
  {
  }

  lemma UuidChars(e: Text, uuid: string)
    requires Lawful(e) && Uuid(uuid)
    ensures NoSpace(e, uuid) && Free(uuid, "/?#%:")
  {
    forall i | 0 <= i < |uuid| ensures 33 <= uuid[i] as int <= 126 && uuid[i] !in "/?#%:" {
    }
  }

  lemma BaseChars(e: Text, host: string, proxy: string, uuid: string)
    requires Lawful(e) && Printable(e, host, proxy, uuid, None)
    ensures NoSpace(e, Base(host, proxy, uuid)) && Free(Base(host, proxy, uuid), "?#%")
  {
    UuidChars(e, uuid);
    var h, x := "https://", "/";
    assert NoSpace(e, h) && NoSpace(e, x) && Free(h, "?#%") && Free(x, "?#%");
    ConcatChars(e, h, host);
    ConcatChars(e, h + host, x);
    ConcatChars(e, h + host + x, proxy);
    ConcatChars(e, h + host + x + proxy, x);
    ConcatChars(e, h + host + x + proxy + x, uuid);
    ConcatChars(e, h + host + x + proxy + x + uuid, x);
  }

  lemma ConcatChars(e: Text, a: string, b: string)
    ensures NoSpace(e, a) && NoSpace(e, b) ==> NoSpace(e, a + b)
    ensures Free(a, "?#%") && (Free(b, "?#%") || Free(b, "/?#%") || Free(b, "/?#%:")) ==> Free(a + b, "?#%")
  {
  }

  // ----- the URL tokens of the text -----

  /** A URL match that starts inside `pre` lies inside `pre`, which ends in a space. */
  lemma UrlEndInside(e: Text, pre: string, rest: string, i: nat)
    requires Lawful(e) && i < |pre| && e.space(pre[|pre| - 1])
    ensures UrlEnd(e, pre + rest, i) == UrlEnd(e, pre, i)
  {
    var s, n := pre + rest, |pre|;
    var h := SchemeAt(s, i);
    SchemeSolid(e, s, i);
    assert s[n - 1] == pre[n - 1];
    if h > 0 {
      assert i + h <= n - 1;
      SchemeLocal(pre, rest, i);
      var w := WordEnd(e, pre, i + h);
      assert w < n;
      assert forall k :: 0 <= k < n ==> s[k] == pre[k];
      WordEndIs(e, s, i + h, w);
    } else {
      SchemeLocal(pre, rest, i);
    }
  }

  lemma SchemeSolid(e: Text, s: string, i: nat)
    requires Lawful(e)
    ensures forall k :: i <= k < i + SchemeAt(s, i) ==> !e.space(s[k])
  {
    var h := SchemeAt(s, i);
    if h == 7 {
      assert s[i + 4] == s[i + 4..i + 7][0] && s[i + 5] == s[i + 4..i + 7][1] && s[i + 6] == s[i + 4..i + 7][2];
    } else if h > 0 {
      assert s[i + 5] == s[i + 5..i + 8][0] && s[i + 6] == s[i + 5..i + 8][1] && s[i + 7] == s[i + 5..i + 8][2];
    }
  }

  lemma SchemeLocal(pre: string, rest: string, i: nat)
    requires i + SchemeAt(pre + rest, i) <= |pre|
    ensures SchemeAt(pre, i) == SchemeAt(pre + rest, i)
  {
    var s := pre + rest;
    assert forall k :: 0 <= k < |pre| ==> s[k] == pre[k];
    if i + 7 <= |pre| { assert s[i + 4..i + 7] == pre[i + 4..i + 7]; }
    if i + 8 <= |pre| { assert s[i + 5..i + 8] == pre[i + 5..i + 8]; }
  }

  lemma {:induction false} TokensSplit(e: Text, pre: string, rest: string, i: nat)
    requires Lawful(e) && i <= |pre| && (pre == "" || e.space(pre[|pre| - 1]))
    ensures UrlTokens(e, pre + rest, i) == UrlTokens(e, pre, i) + UrlTokens(e, pre + rest, |pre|)
    decreases |pre| - i
  {
    hide Lawful, UrlEnd;
    if i < |pre| {
      UrlEndInside(e, pre, rest, i);
      var n := UrlEnd(e, pre, i);
      if n > i {
        TokensSplit(e, pre, rest, n);
        assert (pre + rest)[i..n] == pre[i..n];
        assert [pre[i..n]] + (UrlTokens(e, pre, n) + UrlTokens(e, pre + rest, |pre|))
            == [pre[i..n]] + UrlTokens(e, pre, n) + UrlTokens(e, pre + rest, |pre|);
      } else {
        TokensSplit(e, pre, rest, i + 1);
      }
    }
  }

  lemma {:induction false} PickAfter(e: Text, a: seq<string>, t: string, b: seq<string>, uuid: string)
    requires (forall x :: x in a ==> !Mentions(e, x, uuid)) && Mentions(e, t, uuid)
    ensures Pick(e, a + [t] + b, uuid) == Some(t)
  {
    hide Mentions;
    if a != [] {
      PickAfter(e, a[1..], t, b, uuid);
      assert (a + [t] + b)[1..] == a[1..] + [t] + b;
    }
  }

  lemma Assoc<T>(a: seq<T>, b: seq<T>, c: seq<T>)
    ensures a + (b + c) == a + b + c
  {
  }

  /** `http://` or `https://` in any letter case, and something behind it. */
  predicate Schemed(link: string) {
    && |link| > 7 && link[0] in "hH" && link[1] in "tT" && link[2] in "tT" && link[3] in "pP"
    && (link[4..7] == "://" || (|link| > 8 && link[4] in "sS\U{17F}" && link[5..8] == "://"))
  }

  function SchemeLength(link: string): nat
    requires Schemed(link)
  {
    if link[4..7] == "://" then 7 else 8
  }

  /** The link is one token of the text, and the parser picks it. */
  lemma LinkPicked(e: Text, pre: string, link: string, post: string, uuid: string)
    requires Lawful(e) && (pre == "" || e.space(pre[|pre| - 1])) && (post == "" || e.space(post[0]))
    requires NoSpace(e, link) && Schemed(link) && Mentions(e, link, uuid)
    requires forall t :: t in UrlTokens(e, pre, 0) ==> !Mentions(e, t, uuid)
    ensures Pick(e, UrlTokens(e, pre + link + post, 0), uuid) == Some(link)
  {
    hide Lawful, Mentions, UrlTokens, NoSpace;
    TokensAround(e, pre, link, post);
    PickAfter(e, UrlTokens(e, pre, 0), link, UrlTokens(e, pre + link + post, |pre| + |link|), uuid);
  }

  lemma TokensAround(e: Text, pre: string, link: string, post: string)
    requires Lawful(e) && (pre == "" || e.space(pre[|pre| - 1])) && (post == "" || e.space(post[0]))
    requires NoSpace(e, link) && Schemed(link)
    ensures var s := pre + link + post;
            UrlTokens(e, s, 0) == UrlTokens(e, pre, 0) + [link] + UrlTokens(e, s, |pre| + |link|)
  {
    hide Lawful, UrlTokens, NoSpace;
    Assoc(pre, link, post);
    TokensSplit(e, pre, link + post, 0);
    LinkToken(e, pre, link, post);
    Assoc(UrlTokens(e, pre, 0), [link], UrlTokens(e, pre + link + post, |pre| + |link|));
  }

  lemma LinkToken(e: Text, pre: string, link: string, post: string)
    requires Lawful(e) && (post == "" || e.space(post[0]))
    requires NoSpace(e, link) && Schemed(link)
    ensures var s, p := pre + link + post, |pre|;
            UrlTokens(e, s, p) == [link] + UrlTokens(e, s, p + |link|)
  {
    hide Lawful, UrlTokens, UrlEnd, NoSpace;
    LinkEnd(e, pre, link, post);
    TokenFirst(e, pre + link + post, |pre|);
  }

  lemma LinkEnd(e: Text, pre: string, link: string, post: string)
    requires (post == "" || e.space(post[0])) && NoSpace(e, link) && Schemed(link)
    ensures var s, p := pre + link + post, |pre|;
            s[p..p + |link|] == link && UrlEnd(e, s, p) == p + |link|
  {
    var s, p := pre + link + post, |pre|;
    assert forall k :: p <= k < p + |link| ==> s[k] == link[k - p];
    assert p + |link| < |s| ==> s[p + |link|] == post[0];
    WordEndIs(e, s, p + SchemeLength(link), p + |link|);
    assert s[p..p + |link|] == link;
    hide SchemeAt;
    SchemeHere(s, p, link);
  }

  lemma TokenFirst(e: Text, s: string, i: nat)
    requires i < |s| && UrlEnd(e, s, i) > i
    ensures UrlTokens(e, s, i) == [s[i..UrlEnd(e, s, i)]] + UrlTokens(e, s, UrlEnd(e, s, i))
  {
  }

  lemma SchemeHere(s: string, p: nat, link: string)
    requires Schemed(link) && OccursAt(s, link, p)
    ensures SchemeAt(s, p) == SchemeLength(link)
  {
    assert forall k :: 0 <= k < |link| ==> s[p + k] == s[p..p + |link|][k] == link[k];
    assert s[p + 4..p + 7] == link[4..7];
    if |link| >= 8 { assert s[p + 5..p + 8] == link[5..8]; }
  }

  lemma HttpsSchemed(link: string)
    requires |link| > 8 && link[..8] == "https://"
    ensures Schemed(link) && SchemeLength(link) == 8
  {
    assert forall k :: 0 <= k < 8 ==> link[k] == link[..8][k] == "https://"[k];
    assert link[5..8] == "://" && link[4] == 's';
    assert link[4..7][0] == 's';
  }

  // ----- splitting the link -----

  lemma AfterHttps(rest: string)
    ensures AfterScheme("https://" + rest) == "//" + rest
  {
    var url := "https:" + ("//" + rest);
    assert url == "https://" + rest;
    IndexOfIs(url, ':', 5);
    assert forall k :: 0 <= k < 5 ==> url[k] == "https"[k];
    assert url[6..] == "//" + rest;
  }

  /** A network location ends where the path begins. */
  lemma SplitNetloc(host: string, path: string)
    requires Free(host, "/?#%") && path != "" && path[0] == '/' && Free(path, "?#%")
    ensures NetlocEnd(host + path) == |host| && PathEnd(path) == |path|
  {
    var rest := host + path;
    IndexOfIs(rest, '/', |host|);
    assert forall k :: 0 <= k < |rest| ==> rest[k] == if k < |host| then host[k] else path[k - |host|];
    IndexOfIs(rest, '?', |rest|);
    IndexOfIs(rest, '#', |rest|);
    IndexOfIs(path, '?', |path|);
    IndexOfIs(path, '#', |path|);
  }

  lemma SplitBase(e: Text, host: string, proxy: string, uuid: string)
    requires Lawful(e) && Printable(e, host, proxy, uuid, None)
    ensures UrlSplit(Base(host, proxy, uuid)) == (host, "/" + proxy + "/" + uuid + "/")
  {
    hide AfterScheme, NetlocEnd, PathEnd;
    var url, path := Base(host, proxy, uuid), "/" + proxy + "/" + uuid + "/";
    var rest := host + path;
    BaseChars(e, host, proxy, uuid);
    hide Lawful;
    assert url == "https://" + rest;
    assert forall k :: 0 <= k < |path| ==> path[k] == url[k + 8 + |host|];
    AfterHttps(rest);
    SplitNetloc(host, path);
    assert ("//" + rest)[2..] == rest && ("//" + rest)[..2] == "//";
    assert rest[..|host|] == host && rest[|host|..] == path && path[..|path|] == path;
  }

  lemma HostOfBase(e: Text, host: string, proxy: string, uuid: string)
    requires Lawful(e) && Printable(e, host, proxy, uuid, None)
    ensures NormalizeHost(e, Base(host, proxy, uuid)) == NormalizeHost(e, host) == e.hostOf(host)
  {
    hide Lawful, UrlSplit, Printable;
    var url := Base(host, proxy, uuid);
    BaseChars(e, host, proxy, uuid);
    StripNothing(e, url);
    assert url[5..8] == "://";
    assert OccursAt(url, "://", 5);
    SplitBase(e, host, proxy, uuid);
    SplitHost(e, host, proxy, uuid);
    StripNothing(e, host);
  }

  lemma SplitHost(e: Text, host: string, proxy: string, uuid: string)
    requires Printable(e, host, proxy, uuid, None)
    ensures NoSpace(e, host) && host != "" && !Contains(host, "://") && UrlSplit("//" + host).0 == host
  {
    forall i: nat | i <= |host| ensures !OccursAt(host, "://", i) {
      SlashAt(host, i);
    }
    var s := "//" + host;
    assert s[2..] == host && s[..2] == "//";
    IndexOfIs(host, '/', |host|);
    IndexOfIs(host, '?', |host|);
    IndexOfIs(host, '#', |host|);
    assert host[..|host|] == host;
  }

  lemma SlashAt(s: string, i: nat)
    ensures OccursAt(s, "://", i) ==> i + 1 < |s| && s[i + 1] == '/'
  {
    if OccursAt(s, "://", i) {
      assert s[i + 1] == s[i..i + 3][1] == "://"[1];
    }
  }

  // ----- path segments -----

  lemma SegmentsStep(s: string)
    requires s != ""
    ensures var i := IndexOf(s, '/');
            var rest := if i == |s| then [] else Segments(s[i + 1..]);
            Segments(s) == if i == 0 then rest else [s[..i]] + rest
  {
  }

  lemma {:induction false} SegmentsConcat(a: string, b: string)
    ensures Segments(a + "/" + b) == Segments(a) + Segments(b)
    decreases |a|
  {
    hide Segments;
    var s := a + "/" + b;
    var i := IndexOf(a, '/');
    FindPrefix(a, b);
    SegmentsStep(s);
    if a == "" {
      SegmentsNone();
      assert s[1..] == b;
    } else {
      SegmentsStep(a);
      CutAt(a, b, i);
      if i < |a| {
        SegmentsConcat(a[i + 1..], b);
        Assoc([a[..i]], Segments(a[i + 1..]), Segments(b));
      }
    }
  }

  lemma CutAt(a: string, b: string, i: nat)
    requires i <= |a|
    ensures (a + "/" + b)[..i] == a[..i]
    ensures (a + "/" + b)[i + 1..] == if i < |a| then a[i + 1..] + "/" + b else b
  {
  }

  lemma FindPrefix(a: string, b: string)
    ensures IndexOf(a + "/" + b, '/') == IndexOf(a, '/')
  {
    var s, i := a + "/" + b, IndexOf(a, '/');
    assert forall k :: 0 <= k < |a| ==> s[k] == a[k];
    assert forall k :: 0 <= k < i ==> a[k] == a[0..i][k];
    IndexOfIs(s, '/', i);
  }

  /** Each segment is a non-empty slash-free stretch of the path. */
  lemma {:induction false} SegmentIn(s: string, seg: string) returns (i: nat)
    requires seg in Segments(s)
    ensures OccursAt(s, seg, i) && seg != "" && Free(seg, "/")
    decreases |s|
  {
    hide Segments;
    SegmentsNone();
    SegmentsStep(s);
    var n := IndexOf(s, '/');
    if n > 0 && seg == s[..n] {
      i := 0;
      assert forall k :: 0 <= k < n ==> s[k] == s[0..n][k];
    } else {
      var j := SegmentIn(s[n + 1..], seg);
      i := n + 1 + j;
      LaterSlice(s, n + 1, j, |seg|);
    }
  }

  lemma LaterSlice(s: string, d: nat, j: nat, n: nat)
    requires d + j + n <= |s|
    ensures s[d..][j..j + n] == s[d + j..d + j + n]
  {
  }

  lemma SegmentsOne(s: string)
    requires s != "" && Free(s, "/")
    ensures Segments(s) == [s]
  {
    IndexOfIs(s, '/', |s|);
    assert s[..|s|] == s;
  }

  ghost predicate Parts(ps: seq<string>) { forall i :: 0 <= i < |ps| ==> ps[i] != "" && Free(ps[i], "/") }

  lemma {:induction false} SegmentsJoin(ps: seq<string>)
    requires Parts(ps)
    ensures Segments(Join("/", ps)) == ps
  {
    if |ps| == 1 {
      SegmentsOne(ps[0]);
    } else if |ps| > 1 {
      SegmentsJoin(ps[1..]);
      SegmentsOne(ps[0]);
      SegmentsConcat(ps[0], Join("/", ps[1..]));
      assert ps == [ps[0]] + ps[1..];
    }
  }

  /** Joining segments again adds no character but slashes. */
  lemma {:induction false} JoinChars(e: Text, ps: seq<string>)
    requires !e.space('/') && forall i :: 0 <= i < |ps| ==> NoSpace(e, ps[i]) && Free(ps[i], "%")
    ensures NoSpace(e, Join("/", ps)) && Free(Join("/", ps), "%")
  {
    if |ps| > 1 { JoinChars(e, ps[1..]); }
  }

  lemma SegmentsPlain(e: Text, proxy: string)
    requires NoSpace(e, proxy) && Free(proxy, "?#%")
    ensures Parts(Segments(proxy))
    ensures forall i :: 0 <= i < |Segments(proxy)| ==> NoSpace(e, Segments(proxy)[i]) && Free(Segments(proxy)[i], "%")
  {
    var ps := Segments(proxy);
    forall i | 0 <= i < |ps| ensures ps[i] != "" && Free(ps[i], "/") && NoSpace(e, ps[i]) && Free(ps[i], "%") {
      var j := SegmentIn(proxy, ps[i]);
      assert forall k :: 0 <= k < |ps[i]| ==> ps[i][k] == proxy[j..j + |ps[i]|][k] == proxy[j + k];
    }
  }

  lemma PathAgain(e: Text, proxy: string)
    requires Lawful(e) && NoSpace(e, proxy) && Free(proxy, "?#%")
    ensures NormalizePath(e, Join("/", Segments(proxy))) == NormalizePath(e, proxy)
  {
    var ps := Segments(proxy);
    SegmentsPlain(e, proxy);
    JoinChars(e, ps);
    SegmentsJoin(ps);
    StripNothing(e, proxy);
    StripNothing(e, Join("/", ps));
    assert '%' !in proxy && '%' !in Join("/", ps);
  }

  lemma {:induction false} IndexAfter(e: Text, ps: seq<string>, last: string, uuid: string)
    requires (forall i :: 0 <= i < |ps| ==> e.lower(e.unquote(ps[i])) != uuid) && e.lower(e.unquote(last)) == uuid
    ensures UuidIndex(e, ps + [last], uuid) == Some(|ps|)
  {
    if ps != [] {
      IndexAfter(e, ps[1..], last, uuid);
      assert (ps + [last])[1..] == ps[1..] + [last];
    }
  }

  // ----- the round trip -----

  /** No UUID starts in `text` before position `n`. */
  ghost predicate NoUuidBefore(text: string, n: nat) { forall k :: 0 <= k < n ==> !UuidAt(text, k) }

  /** Reading the link's own token back. */
  lemma TokenRoundTrip(e: Text, host: string, proxy: string, uuid: string, tag: Option<string>)
    requires Lawful(e) && Printable(e, host, proxy, uuid, tag)
    requires forall k :: 0 <= k < |proxy| ==> !UuidAt(proxy, k)
    ensures FromToken(e, e.lower(uuid), AdminLink(host, proxy, uuid, tag))
         == ParsedLink(e.lower(uuid), NormalizeHost(e, host), NormalizePath(e, proxy),
                       Kept(tag))
  {
    hide Lawful, UrlSplit, NormalizeHost, NormalizePath, Segments, TagOf;
    var base, link := Base(host, proxy, uuid), AdminLink(host, proxy, uuid, tag);
    BaseChars(e, host, proxy, uuid);
    TrimNothing(e, host, proxy, uuid, tag);
    LinkParts(e, host, proxy, uuid, tag);
    SplitBase(e, host, proxy, uuid);
    HostOfBase(e, host, proxy, uuid);
    SegmentsOfPath(e, proxy, uuid);
    NoEarlierSegment(e, proxy, uuid);
    var ps := Segments(proxy);
    assert (ps + [uuid])[..|ps|] == ps;
    PathAgain(e, proxy);
  }

  lemma TrimNothing(e: Text, host: string, proxy: string, uuid: string, tag: Option<string>)
    requires Printable(e, host, proxy, uuid, tag)
    ensures var link := AdminLink(host, proxy, uuid, tag); TrimEnd(link) == link
  {
    var link := AdminLink(host, proxy, uuid, tag);
    if tag.Some? && tag.value != "" {
      assert link[|link| - 1] == tag.value[|tag.value| - 1];
    } else {
      assert link[|link| - 1] == '/';
    }
  }

  lemma LinkParts(e: Text, host: string, proxy: string, uuid: string, tag: Option<string>)
    requires Lawful(e) && Printable(e, host, proxy, uuid, tag)
    ensures var link := AdminLink(host, proxy, uuid, tag);
            && link[..IndexOf(link, '#')] == Base(host, proxy, uuid)
            && TagOf(e, link) == Kept(tag)
  {
    var base := Base(host, proxy, uuid);
    BaseChars(e, host, proxy, uuid);
    assert '#' !in base;
    if tag.Some? && tag.value != "" {
      assert AdminLink(host, proxy, uuid, tag) == base + ("#" + tag.value);
      StripNothing(e, tag.value);
      TagPlain(e, tag.value);
      hide *;
      CutTagged(e, base, tag.value);
    } else {
      assert AdminLink(host, proxy, uuid, tag) == base + "" == base;
      hide *;
      CutPlain(e, base);
    }
  }

  lemma CutTagged(e: Text, base: string, tag: string)
    requires '#' !in base && tag != "" && Strip(e, tag) == tag && e.unquote(tag) == tag
    ensures var link := base + ("#" + tag); link[..IndexOf(link, '#')] == base && TagOf(e, link) == Kept(Some(tag))
  {
    hide Strip;
    var link := base + ("#" + tag);
    IndexOfIs(link, '#', |base|);
    assert link[|base| + 1..] == tag && link[..|base|] == base;
  }

  lemma CutPlain(e: Text, base: string)
    requires '#' !in base
    ensures base[..IndexOf(base, '#')] == base && TagOf(e, base) == None
  {
    IndexOfIs(base, '#', |base|);
  }

  lemma TagPlain(e: Text, tag: string)
    requires Lawful(e) && Free(tag, "%")
    ensures e.unquote(tag) == tag
  {
    assert '%' !in tag;
  }

  lemma SegmentsOfPath(e: Text, proxy: string, uuid: string)
    requires Lawful(e) && Uuid(uuid)
    ensures Segments("/" + proxy + "/" + uuid + "/") == Segments(proxy) + [uuid]
  {
    hide Lawful, Segments;
    UuidSegment(e, uuid);
    var head := "/" + proxy;
    SegmentsNone();
    SegmentsConcat("", proxy);
    assert "" + "/" + proxy == head;
    SegmentsConcat(head, uuid);
    SegmentsSlash(head + "/" + uuid);
  }

  lemma UuidSegment(e: Text, uuid: string)
    requires Lawful(e) && Uuid(uuid)
    ensures Segments(uuid) == [uuid]
  {
    UuidChars(e, uuid);
    hide Lawful;
    SegmentsOne(uuid);
  }

  lemma SegmentsSlash(p: string)
    ensures Segments(p + "/") == Segments(p)
  {
    hide Segments;
    SegmentsNone();
    SegmentsConcat(p, "");
    assert p + "/" + "" == p + "/";
  }

  lemma SegmentsNone()
    ensures Segments("") == []
  {
  }

  lemma NoEarlierSegment(e: Text, proxy: string, uuid: string)
    requires Lawful(e) && Uuid(uuid) && Free(proxy, "?#%") && NoSpace(e, proxy)
    requires forall k :: 0 <= k < |proxy| ==> !UuidAt(proxy, k)
    ensures UuidIndex(e, Segments(proxy) + [uuid], e.lower(uuid)) == Some(|Segments(proxy)|)
  {
    var ps := Segments(proxy);
    SegmentsPlain(e, proxy);
    UuidChars(e, uuid);
    assert '%' !in uuid;
    forall i | 0 <= i < |ps| ensures e.lower(e.unquote(ps[i])) != e.lower(uuid) {
      assert '%' !in ps[i];
      var j := SegmentIn(proxy, ps[i]);
      if Uuid(ps[i]) { assert UuidAt(proxy, j); }
    }
    IndexAfter(e, ps, uuid, e.lower(uuid));
  }

  lemma {:induction false} TrimMore(t: string, p: string)
    requires forall c :: c in p ==> c == ')' || c == '.' || c == ',' || c == ']'
    ensures TrimEnd(t + p) == TrimEnd(t)
    decreases |p|
  {
    if p == "" {
      assert t + p == t;
    } else {
      var q := p[..|p| - 1];
      assert p == q + [p[|p| - 1]] && p[|p| - 1] in p && forall c :: c in q ==> c in p;
      assert p[|p| - 1] in ").,]";
      assert (t + p)[..|t + p| - 1] == t + q && (t + p)[|t + p| - 1] == p[|p| - 1];
      TrimMore(t, q);
    }
  }

  lemma FromTrimmed(e: Text, uuid: string, t: string, p: string)
    requires TrimEnd(t + p) == TrimEnd(t)
    ensures FromToken(e, uuid, t + p) == FromToken(e, uuid, t)
  {
  }

  /** `parse_link` inverts `admin_link`, also among other words and URLs and in front of punctuation, when no UUID comes
      before the link's own and no earlier URL decodes to something that mentions it. */
  lemma RoundTrip(e: Text, pre: string, post: string, host: string, proxy: string, uuid: string, tag: Option<string>,
                  p: string)
    requires Lawful(e) && Printable(e, host, proxy, uuid, tag)
    requires forall c :: c in p ==> c == ')' || c == '.' || c == ',' || c == ']'
    requires (pre == "" || e.space(pre[|pre| - 1])) && (post == "" || e.space(post[0]))
    requires NoUuidBefore(pre + AdminLink(host, proxy, uuid, tag) + (p + post), |pre| + |host| + |proxy| + 10)
    requires forall t :: t in UrlTokens(e, pre, 0) ==> !Mentions(e, t, e.lower(uuid))
    ensures ParseLink(e, pre + (AdminLink(host, proxy, uuid, tag) + p) + post)
         == Some(ParsedLink(e.lower(uuid), NormalizeHost(e, host), NormalizePath(e, proxy), Kept(tag)))
  {
    hide Lawful, Mentions, UrlTokens, FromToken, UuidAt, Uuid, ParseLink, AdminLink, NoSpace, Free, TrimEnd;
    var link := AdminLink(host, proxy, uuid, tag);
    var text, n := pre + (link + p) + post, |pre| + |host| + |proxy| + 10;
    AssocFour(pre, link, p, post);
    OwnUuid(pre, p + post, host, proxy, uuid, tag);
    ParseVia(e, text, n, uuid, link + p);
    LinkChars(e, host, proxy, uuid, tag, p);
    HttpsSchemed(link + p);
    LinkPicked(e, pre, link + p, post, e.lower(uuid));
    ProxyFree(pre, p + post, host, proxy, uuid, tag);
    TokenRoundTrip(e, host, proxy, uuid, tag);
    TrimMore(link, p);
    FromTrimmed(e, e.lower(uuid), link, p);
  }

  lemma AssocFour(a: string, b: string, c: string, d: string)
    ensures a + (b + c) + d == a + b + (c + d)
  {
  }

  lemma ParseVia(e: Text, text: string, n: nat, uuid: string, link: string)
    requires UuidAt(text, n) && text[n..n + 36] == uuid && NoUuidBefore(text, n)
    ensures Pick(e, UrlTokens(e, text, 0), e.lower(uuid)) == Some(link) && link != ""
            ==> ParseLink(e, text) == Some(FromToken(e, e.lower(uuid), link))
  {
    hide UrlTokens, Pick, FromToken;
    FirstUuidIs(text, 0, n);
  }

  lemma OwnUuid(pre: string, post: string, host: string, proxy: string, uuid: string, tag: Option<string>)
    requires Uuid(uuid)
    ensures var text, n := pre + AdminLink(host, proxy, uuid, tag) + post, |pre| + |host| + |proxy| + 10;
            UuidAt(text, n) && text[n..n + 36] == uuid
  {
    var head := pre + "https://" + host + "/" + proxy + "/";
    var tail := "/" + (if tag.Some? && tag.value != "" then "#" + tag.value else "") + post;
    var text := pre + AdminLink(host, proxy, uuid, tag) + post;
    assert text == head + uuid + tail;
  }

  lemma LinkChars(e: Text, host: string, proxy: string, uuid: string, tag: Option<string>, p: string)
    requires Lawful(e) && Printable(e, host, proxy, uuid, tag)
    requires forall c :: c in p ==> c == ')' || c == '.' || c == ',' || c == ']'
    ensures var link := AdminLink(host, proxy, uuid, tag) + p;
            NoSpace(e, link) && |link| > 8 && link[..8] == "https://" && Mentions(e, link, e.lower(uuid))
  {
    var t := if tag.Some? && tag.value != "" then "#" + tag.value else "";
    BaseChars(e, host, proxy, uuid);
    TagChars(e, t, tag, host, proxy, uuid, p);
    LinkShape(host, proxy, uuid, tag, t, p);
    hide Lawful, AdminLink, NoSpace, Mentions;
    MentionsUuid(e, "https://" + host + "/" + proxy + "/", uuid, "/" + (t + p));
  }

  lemma LinkShape(host: string, proxy: string, uuid: string, tag: Option<string>, t: string, p: string)
    requires t == if tag.Some? && tag.value != "" then "#" + tag.value else ""
    ensures var link := AdminLink(host, proxy, uuid, tag) + p;
            && link == Base(host, proxy, uuid) + (t + p)
            && link == ("https://" + host + "/" + proxy + "/") + uuid + ("/" + (t + p))
            && |link| > 8 && link[..8] == "https://"
  {
    var head := "https://" + host + "/" + proxy + "/";
    Assoc(head + uuid, "/", t + p);
    assert AdminLink(host, proxy, uuid, tag) == Base(host, proxy, uuid) + t;
    Assoc(Base(host, proxy, uuid), t, p);
  }

  lemma TagChars(e: Text, t: string, tag: Option<string>, host: string, proxy: string, uuid: string, p: string)
    requires Lawful(e) && Printable(e, host, proxy, uuid, tag)
    requires t == if tag.Some? && tag.value != "" then "#" + tag.value else ""
    requires NoSpace(e, Base(host, proxy, uuid)) && Free(Base(host, proxy, uuid), "?#%")
    requires forall c :: c in p ==> c == ')' || c == '.' || c == ',' || c == ']'
    ensures NoSpace(e, Base(host, proxy, uuid) + (t + p)) && '%' !in Base(host, proxy, uuid) + (t + p)
  {
    hide Base;
    assert forall i :: 0 <= i < |t| ==> !e.space(t[i]) && t[i] != '%';
    forall i | 0 <= i < |p| ensures !e.space(p[i]) && p[i] != '%' {
      assert p[i] in p;
    }
  }

  lemma MentionsUuid(e: Text, a: string, uuid: string, b: string)
    requires Lawful(e) && Uuid(uuid) && '%' !in a + uuid + b
    ensures Mentions(e, a + uuid + b, e.lower(uuid))
  {
  }

  /** No UUID starts inside the proxy path. */
  lemma ProxyFree(pre: string, post: string, host: string, proxy: string, uuid: string, tag: Option<string>)
    requires NoUuidBefore(pre + AdminLink(host, proxy, uuid, tag) + post, |pre| + |host| + |proxy| + 10)
    ensures forall k :: 0 <= k < |proxy| ==> !UuidAt(proxy, k)
  {
    var t := if tag.Some? && tag.value != "" then "#" + tag.value else "";
    var a, b := pre + "https://" + host + "/", "/" + uuid + "/" + t + post;
    var text := pre + AdminLink(host, proxy, uuid, tag) + post;
    assert text == a + proxy + b;
    hide AdminLink, Uuid;
    forall k | 0 <= k < |proxy| ensures !UuidAt(proxy, k) {
      if k + 36 <= |proxy| {
        MiddleSlice(a, proxy, b, k, 36);
        assert !UuidAt(text, |a| + k);
      }
    }
  }

  lemma MiddleSlice(a: string, p: string, b: string, k: nat, n: nat)
    requires k + n <= |p|
    ensures (a + p + b)[|a| + k..|a| + k + n] == p[k..k + n]
  {
  }

  lemma PathOfParts(e: Text, ps: seq<string>)
    requires Lawful(e) && Parts(ps) && forall i :: 0 <= i < |ps| ==> NoSpace(e, ps[i]) && Free(ps[i], "%")
    ensures NormalizePath(e, Join("/", ps)) == if ps == [] then None else Some(Join("/", ps))
  {
    JoinChars(e, ps);
    SegmentsJoin(ps);
    StripNothing(e, Join("/", ps));
    assert '%' !in Join("/", ps);
    if |ps| > 1 { assert Join("/", ps) == ps[0] + "/" + Join("/", ps[1..]); }
  }

  /** For a proxy path of plain segments everything comes back as it was printed, but for the letter case of the uuid,
      the normal form of the host and the tag's length. */
  lemma PlainRoundTrip(e: Text, pre: string, post: string, host: string, ps: seq<string>, uuid: string,
                       tag: Option<string>)
    requires Lawful(e) && Printable(e, host, Join("/", ps), uuid, tag) && Parts(ps) && ps != []
    requires (pre == "" || e.space(pre[|pre| - 1])) && (post == "" || e.space(post[0]))
    requires NoUuidBefore(pre + AdminLink(host, Join("/", ps), uuid, tag) + ("" + post),
                          |pre| + |host| + |Join("/", ps)| + 10)
    requires forall t :: t in UrlTokens(e, pre, 0) ==> !Mentions(e, t, e.lower(uuid))
    ensures ParseLink(e, pre + (AdminLink(host, Join("/", ps), uuid, tag) + "") + post)
         == Some(ParsedLink(e.lower(uuid), e.hostOf(host), Some(Join("/", ps)), Kept(tag)))
  {
    hide Lawful, Mentions, UrlTokens, ParseLink, AdminLink, NoUuidBefore, NormalizePath, NormalizeHost;
    RoundTrip(e, pre, post, host, Join("/", ps), uuid, tag, "");
    HostOfBase(e, host, Join("/", ps), uuid);
    PartsPlain(e, ps);
    PathOfParts(e, ps);
  }

  lemma {:induction false} PartsPlain(e: Text, ps: seq<string>)
    requires NoSpace(e, Join("/", ps)) && Free(Join("/", ps), "?#%")
    ensures forall i :: 0 <= i < |ps| ==> NoSpace(e, ps[i]) && Free(ps[i], "%")
  {
    if |ps| > 1 {
      var first, rest := ps[0], Join("/", ps[1..]);
      var s := first + "/" + rest;
      assert forall k :: 0 <= k < |first| ==> first[k] == s[k];
      assert forall k :: 0 <= k < |rest| ==> rest[k] == s[|first| + 1 + k];
      PartsPlain(e, ps[1..]);
    }
  }

  // ----- texts without a link -----

  predicate AllHex(s: string, n: nat) { |s| == n && forall i :: 0 <= i < n ==> Hex(s[i]) }

  lemma UuidMade(a: string, b: string, c: string, d: string, f: string)
    requires AllHex(a, 8) && AllHex(b, 4) && AllHex(c, 4) && AllHex(d, 4) && AllHex(f, 12)
    ensures Uuid(a + "-" + b + "-" + c + "-" + d + "-" + f)
  {
    hide Hex;
    var s := a + "-" + b + "-" + c + "-" + d + "-" + f;
    forall i | 0 <= i < 36
      ensures if i == 8 || i == 13 || i == 18 || i == 23 then s[i] == '-' else Hex(s[i])
    {
      assert i < 8 ==> s[i] == a[i];
      assert 8 < i < 13 ==> s[i] == b[i - 9];
      assert 13 < i < 18 ==> s[i] == c[i - 14];
      assert 18 < i < 23 ==> s[i] == d[i - 19];
      assert 23 < i ==> s[i] == f[i - 24];
    }
  }

  /** Eight, four, four, four and twelve hexadecimal digits. */
  lemma UuidIff(s: string)
    ensures Uuid(s)
            <==> exists a, b, c, d, f ::
                   && AllHex(a, 8) && AllHex(b, 4) && AllHex(c, 4) && AllHex(d, 4) && AllHex(f, 12)
                   && s == a + "-" + b + "-" + c + "-" + d + "-" + f
  {
    if Uuid(s) {
      var a, b, c, d, f := s[..8], s[9..13], s[14..18], s[19..23], s[24..];
      assert AllHex(a, 8) && AllHex(b, 4) && AllHex(c, 4) && AllHex(d, 4) && AllHex(f, 12);
      assert s == a + "-" + b + "-" + c + "-" + d + "-" + f;
    }
    if a, b, c, d, f :| AllHex(a, 8) && AllHex(b, 4) && AllHex(c, 4) && AllHex(d, 4) && AllHex(f, 12)
                        && s == a + "-" + b + "-" + c + "-" + d + "-" + f {
      UuidMade(a, b, c, d, f);
    }
  }

  lemma UuidFirst(e: Text, text: string, i: nat)
    requires UuidAt(text, i) && forall k: nat :: k < i ==> !UuidAt(text, k)
    ensures FirstUuid(text, 0) == Some(i)
  {
    hide Uuid;
    FirstUuidIs(text, 0, i);
  }

  /** A text has a reply exactly if it holds a UUID, which is then its first, lower-cased. */
  lemma UuidFound(e: Text, text: string)
    ensures ParseLink(e, text).Some? <==> exists i: nat :: UuidAt(text, i)
    ensures forall i: nat :: UuidAt(text, i) && (forall k: nat :: k < i ==> !UuidAt(text, k))
              ==> ParseLink(e, text).Some? && ParseLink(e, text).value.uuid == e.lower(text[i..i + 36])
  {
    hide FromToken, TokenFor, Uuid, FirstUuid;
    TokenUuid(e);
    var at := FirstUuid(text, 0);
    forall i: nat | UuidAt(text, i) ensures at.Some? {
      assert 0 <= i < |text|;
    }
    forall i: nat | UuidAt(text, i) && forall k: nat :: k < i ==> !UuidAt(text, k) ensures at == Some(i) {
      UuidFirst(e, text, i);
    }
  }

  lemma TokenUuid(e: Text)
    ensures forall token, uuid :: FromToken(e, uuid, token).uuid == uuid
  {
  }

  lemma {:induction false} NoTokens(e: Text, s: string, i: nat)
    requires i <= |s| && forall k: nat :: !OccursAt(s, "://", k)
    ensures UrlTokens(e, s, i) == []
    decreases |s| - i
  {
    if i < |s| {
      NoScheme(s, i);
      NoTokens(e, s, i + 1);
    }
  }

  lemma NoScheme(s: string, i: nat)
    requires forall k: nat :: !OccursAt(s, "://", k)
    ensures SchemeAt(s, i) == 0
  {
    assert !OccursAt(s, "://", i + 4) && !OccursAt(s, "://", i + 5);
  }

  /** A UUID in a text without any URL, and without a link that lacks only its scheme, is returned alone. */
  lemma BareUuid(e: Text, text: string, i: nat)
    requires UuidAt(text, i) && forall k: nat :: k < i ==> !UuidAt(text, k)
    requires forall k: nat :: !OccursAt(text, "://", k)
    requires e.bare(text, e.lower(text[i..i + 36])).None?
    ensures ParseLink(e, text) == Some(ParsedLink(e.lower(text[i..i + 36]), None, None, None))
  {
    hide UuidAt, OccursAt, FromToken, UrlTokens, FirstUuid;
    NoTokens(e, text, 0);
    FirstUuidIs(text, 0, i);
  }

  /** A link that lacks only its scheme reads like the whole link. */
  lemma BareLink(e: Text, text: string, i: nat, b: string, host: string, proxy: string, uuid: string,
                 tag: Option<string>)
    requires Lawful(e) && Printable(e, host, proxy, uuid, tag) && forall k :: 0 <= k < |proxy| ==> !UuidAt(proxy, k)
    requires UuidAt(text, i) && text[i..i + 36] == uuid && forall k: nat :: k < i ==> !UuidAt(text, k)
    requires forall k: nat :: !OccursAt(text, "://", k)
    requires e.bare(text, e.lower(uuid)) == Some(b) && "https://" + b == AdminLink(host, proxy, uuid, tag)
    ensures ParseLink(e, text)
         == Some(ParsedLink(e.lower(uuid), NormalizeHost(e, host), NormalizePath(e, proxy), Kept(tag)))
  {
    hide Lawful, Printable, UuidAt, OccursAt, FromToken, UrlTokens, FirstUuid, AdminLink;
    NoTokens(e, text, 0);
    FirstUuidIs(text, 0, i);
    TokenRoundTrip(e, host, proxy, uuid, tag);
  }
}
