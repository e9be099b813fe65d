/** Python's `urllib.parse.urlparse` and `urlunparse`, as far as the canonicaliser relies on
    them: the six components, the split rules, and the `ValueError`s the network location
    can raise through its square brackets. The rules are those of Python 3.12. */
module Url {
  import opened Options
  import opened Seqs
  import opened Text
  import IpAddress

  datatype Parsed = Parsed(scheme: string, netloc: string, path: string,
                           params: string, query: string, fragment: string)

  /** Schemes after which `urlunsplit` writes `//` even when the network location is empty. */
  const UsesNetloc: set<string> :=
    {"", "ftp", "http", "gopher", "nntp", "telnet", "imap", "wais", "file", "mms", "https",
     "shttp", "snews", "prospero", "rtsp", "rtsps", "rtspu", "rsync", "svn", "svn+ssh", "sftp",
     "nfs", "git", "git+ssh", "ws", "wss", "itms-services"}

  /** Schemes whose last path segment may carry `;params`. */
  const UsesParams: set<string> :=
    {"", "ftp", "hdl", "prospero", "http", "imap", "https", "shttp", "rtsp", "rtsps", "rtspu",
     "sip", "sips", "mms", "sftp", "tel"}

  /** Why `urlsplit` raises `ValueError`: "Invalid IPv6 URL" (a lone bracket, or text before
      `[` or between `]` and the port), "IPvFuture address is invalid", "An IPv4 address
      cannot be in brackets", or a bracketed host that is no IP address at all. */
  datatype UrlError = InvalidIpv6Url | InvalidIpvFuture | Ipv4InBrackets | NotAnIpAddress

  predicate IsSchemeChar(c: char) {
    IsAsciiAlpha(c) || IsAsciiDigit(c) || c == '+' || c == '-' || c == '.'
  }

  /** Tab, carriage return and line feed are deleted anywhere in the input. */
  predicate IsUnsafe(c: char) { c == '\t' || c == '\r' || c == '\n' }

  /** C0 control characters and space are stripped from the front of the input. */
  predicate IsC0OrSpace(c: char) { c <= ' ' }

  /** Position of the last `c` in `s`, if any. */
  function RFind(s: string, c: char): (r: Option<nat>)
    ensures r.Some? ==> r.value < |s| && s[r.value] == c
    ensures r.Some? ==> forall k :: r.value < k < |s| ==> s[k] != c
    ensures r.None? ==> c !in s
  {
    if s == [] then None
    else if s[|s| - 1] == c then Some(|s| - 1)
    else RFind(s[..|s| - 1], c)
  }

  /** The input after the clean-up `urlsplit` does before splitting. */
  function Sanitize(url: string): string {
    Filter(url[LeadingWhile(url, IsC0OrSpace)..], c => !IsUnsafe(c))
  }

  /** A scheme: before the first `:`, starting with a letter, only scheme characters;
      lower-cased. Otherwise there is no scheme. */
  function SplitScheme(u: string): (string, string) {
    var i := Find(u, ':');
    if 0 < i < |u| && IsAsciiAlpha(u[0]) && forall k :: 0 <= k < i ==> IsSchemeChar(u[k])
    then (Lower(u[..i]), u[i + 1..])
    else ("", u)
  }

  /** After `//`, the network location runs to the first `/`, `?` or `#`. */
  function SplitNetloc(rest: string): (string, string) {
    if |rest| >= 2 && rest[..2] == "//" then
      var d := Min3(FindFrom(rest, '/', 2), FindFrom(rest, '?', 2), FindFrom(rest, '#', 2));
      (rest[2..d], rest[d..])
    else ("", rest)
  }

  function Min3(a: nat, b: nat, c: nat): nat {
    if a <= b && a <= c then a else if b <= c then b else c
  }

  /** `s.split(c, 1)` when `c` occurs, with an empty second part when it does not. */
  function SplitOnce(s: string, c: char): (string, string) {
    var i := Find(s, c);
    if i < |s| then (s[..i], s[i + 1..]) else (s, "")
  }

  /** `;params` of the last path segment. */
  function SplitParams(path: string): (string, string) {
    match RFind(path, '/')
    case Some(slash) =>
      var i := FindFrom(path, ';', slash);
      if i == |path| then (path, "") else (path[..i], path[i + 1..])
    case None =>
      var i := Find(path, ';');
      if i == |path| then (path, "") else (path[..i], path[i + 1..])
  }

  /** `\Av[a-fA-F0-9]+\..+\Z`: `v`, hex digits, a point, and at least one more character,
      none of them a line feed. */
  predicate IsIpvFuture(h: string) {
    && |h| >= 1 && h[0] == 'v'
    && var n := LeadingWhile(h[1..], IpAddress.IsHexDigit);
    && n >= 1
    && n + 2 < |h| && h[n + 1] == '.'
    && '\n' !in h[n + 2..]
  }

  /** `_check_bracketed_host`: a host starting with `v` must be an IPvFuture address;
      any other must be an IPv6 address, and an IPv4 address is refused. */
  function BracketedHostError(host: string): Option<UrlError> {
    if |host| >= 1 && host[0] == 'v' then
      if IsIpvFuture(host) then None else Some(InvalidIpvFuture)
    else if IpAddress.IsIpv4(host) then Some(Ipv4InBrackets)
    else if IpAddress.IsIpv6(host) then None
    else Some(NotAnIpAddress)
  }

  /** `_check_bracketed_netloc`: after the last `@`, a `[` must come first and be followed,
      after its `]`, by nothing or by `:`; the text between the brackets (or, with no `[`
      there, the text before the first `:`) is the host that is checked. */
  function BracketedNetlocError(netloc: string): Option<UrlError> {
    var hostAndPort := match RFind(netloc, '@') case Some(at) => netloc[at + 1..] case None => netloc;
    var b := Find(hostAndPort, '[');
    if b < |hostAndPort| then
      if b > 0 then Some(InvalidIpv6Url)
      else
        var (host, port) := SplitOnce(hostAndPort[1..], ']');
        if port != [] && port[0] != ':' then Some(InvalidIpv6Url) else BracketedHostError(host)
    else BracketedHostError(SplitOnce(hostAndPort, ':').0)
  }

  /** What `urlsplit` refuses in a network location: one square bracket without the other,
      or both with a host `_check_bracketed_netloc` refuses. */
  function NetlocError(netloc: string): Option<UrlError> {
    if ('[' in netloc) != (']' in netloc) then Some(InvalidIpv6Url)
    else if '[' in netloc then BracketedNetlocError(netloc)
    else None
  }

  /** `urlparse(url)`: `ValueError` when the network location is refused. */
  function Parse(url: string): Result<Parsed, UrlError> {
    var (scheme, afterScheme) := SplitScheme(Sanitize(url));
    var (netloc, afterNetloc) := SplitNetloc(afterScheme);
    if NetlocError(netloc).Some? then Err(NetlocError(netloc).value)
    else
      var (beforeFragment, fragment) := SplitOnce(afterNetloc, '#');
      var (beforeQuery, query) := SplitOnce(beforeFragment, '?');
      var (path, params) :=
        if scheme in UsesParams && ';' in beforeQuery then SplitParams(beforeQuery)
        else (beforeQuery, "");
      Ok(Parsed(scheme, netloc, path, params, query, fragment))
  }

  /** `urlunparse(parts)`. */
  function Unparse(p: Parsed): string {
    var path := if p.params != "" then p.path + ";" + p.params else p.path;
    var located :=
      if p.netloc != "" || (p.scheme != "" && p.scheme in UsesNetloc && !(|path| >= 2 && path[..2] == "//"))
      then "//" + p.netloc + (if path != "" && path[0] != '/' then "/" + path else path)
      else path;
    var schemed := if p.scheme != "" then p.scheme + ":" + located else located;
    var queried := if p.query != "" then schemed + "?" + p.query else schemed;
    if p.fragment != "" then queried + "#" + p.fragment else queried
  }

  /** What `Parse` can put in the scheme: nothing, or a lower-case scheme name. */
  predicate SchemeOk(scheme: string) {
    scheme == [] ||
    (IsAsciiAlpha(scheme[0]) && Lower(scheme) == scheme
     && forall k :: 0 <= k < |scheme| ==> IsSchemeChar(scheme[k]))
  }

  /** A network location `Parse` reads to its end: no `/`, `?` or `#`, nothing deleted. */
  predicate NetlocChars(netloc: string) {
    forall k :: 0 <= k < |netloc| ==> netloc[k] !in "/?#" && !IsUnsafe(netloc[k])
  }

  /** What `Parse` can put in the network location. */
  predicate NetlocOk(netloc: string) {
    NetlocChars(netloc) && NetlocError(netloc).None?
  }

  /** An absolute path without a query, fragment or parameters. */
  predicate PlainPath(path: string) {
    && |path| >= 1 && path[0] == '/' && !(|path| >= 2 && path[1] == '/')
    && forall k :: 0 <= k < |path| ==> path[k] !in "?#;" && !IsUnsafe(path[k])
  }

  // ----- Well-formedness of what Parse produces -----

  lemma LowerIdempotent(s: string)
    ensures Lower(Lower(s)) == Lower(s)
  {
  }

  /** Nothing `Parse` splits off contains a tab, carriage return or line feed. */
  lemma SanitizeSafe(url: string)
    ensures forall k :: 0 <= k < |Sanitize(url)| ==> !IsUnsafe(Sanitize(url)[k])
  {
    var s := Sanitize(url);
    forall k | 0 <= k < |s| ensures !IsUnsafe(s[k]) {
      assert s[k] in s;
    }
  }

  lemma SplitSchemeOk(u: string)
    ensures SchemeOk(SplitScheme(u).0)
    ensures |SplitScheme(u).1| <= |u|
    ensures SplitScheme(u).1 == u[|u| - |SplitScheme(u).1|..]
  {
    var i := Find(u, ':');
    if 0 < i < |u| && IsAsciiAlpha(u[0]) && forall k :: 0 <= k < i ==> IsSchemeChar(u[k]) {
      LowerIdempotent(u[..i]);
      var sc := Lower(u[..i]);
      assert sc[0] == LowerChar(u[0]);
      forall k | 0 <= k < |sc| ensures IsSchemeChar(sc[k]) {
        assert sc[k] == LowerChar(u[k]);
      }
    }
  }

  lemma SplitNetlocOk(rest: string)
    requires forall k :: 0 <= k < |rest| ==> !IsUnsafe(rest[k])
    ensures forall k :: 0 <= k < |SplitNetloc(rest).0| ==>
              SplitNetloc(rest).0[k] !in "/?#" && !IsUnsafe(SplitNetloc(rest).0[k])
    ensures forall k :: 0 <= k < |SplitNetloc(rest).1| ==> !IsUnsafe(SplitNetloc(rest).1[k])
  {
    if |rest| >= 2 && rest[..2] == "//" {
      var d := Min3(FindFrom(rest, '/', 2), FindFrom(rest, '?', 2), FindFrom(rest, '#', 2));
      var n := rest[2..d];
      forall k | 0 <= k < |n| ensures n[k] !in "/?#" && !IsUnsafe(n[k]) {
        assert n[k] == rest[2 + k];
      }
      forall k | 0 <= k < |rest[d..]| ensures !IsUnsafe(rest[d..][k]) {
        assert rest[d..][k] == rest[d + k];
      }
    }
  }

  /** Every successful parse yields a lower-case scheme (or none) and a network location
      without delimiters and with balanced brackets. */
  lemma ParseWellFormed(url: string)
    requires Parse(url).Ok?
    ensures SchemeOk(Parse(url).value.scheme)
    ensures NetlocOk(Parse(url).value.netloc)
  {
    var u := Sanitize(url);
    SanitizeSafe(url);
    SplitSchemeOk(u);
    var rest := SplitScheme(u).1;
    forall k | 0 <= k < |rest| ensures !IsUnsafe(rest[k]) {
      assert rest[k] == u[|u| - |rest| + k];
    }
    SplitNetlocOk(rest);
  }

  // ----- Unparse followed by Parse -----

  lemma SanitizeClean(s: string)
    requires s == [] || !IsC0OrSpace(s[0])
    requires forall k :: 0 <= k < |s| ==> !IsUnsafe(s[k])
    ensures Sanitize(s) == s
  {
    assert s[0..] == s;
    FilterAllKept(s, c => !IsUnsafe(c));
  }

  /** A query `Parse` can read back: no `#` (which would start the fragment). */
  predicate QueryOk(query: string) {
    forall k :: 0 <= k < |query| ==> query[k] != '#' && !IsUnsafe(query[k])
  }

  predicate FragmentOk(fragment: string) {
    forall k :: 0 <= k < |fragment| ==> !IsUnsafe(fragment[k])
  }

  /** What `Unparse` writes after the path: `?query` and `#fragment` when non-empty. */
  function QueryPart(query: string): string {
    if query != "" then "?" + query else ""
  }

  function FragmentPart(fragment: string): string {
    if fragment != "" then "#" + fragment else ""
  }

  /** What `Unparse` writes before the path for a record without parameters. */
  function Located(p: Parsed): string {
    if p.netloc != "" || (p.scheme != "" && p.scheme in UsesNetloc) then "//" + p.netloc + p.path
    else p.path
  }

  function SchemePart(scheme: string): string {
    if scheme != "" then scheme + ":" else ""
  }

  lemma UnparseShape(p: Parsed)
    requires PlainPath(p.path) && p.params == ""
    ensures Unparse(p)
         == SchemePart(p.scheme) + (Located(p) + (QueryPart(p.query) + FragmentPart(p.fragment)))
  {
    var path := p.path;
    assert !(|path| >= 2 && path[..2] == "//") by {
      if |path| >= 2 { assert path[..2][1] == path[1]; }
    }
    var located := Located(p);
    var schemed := SchemePart(p.scheme) + located;
    var queried := schemed + QueryPart(p.query);
    assert Unparse(p) == queried + FragmentPart(p.fragment);
    assert queried + FragmentPart(p.fragment)
        == SchemePart(p.scheme) + (located + (QueryPart(p.query) + FragmentPart(p.fragment)));
  }

  lemma SplitSchemeOf(scheme: string, rest: string)
    requires SchemeOk(scheme)
    requires rest != [] && rest[0] == '/'
    ensures SplitScheme(SchemePart(scheme) + rest) == (scheme, rest)
  {
    if scheme != [] {
      var u := scheme + ":" + rest;
      assert SchemePart(scheme) + rest == u;
      assert u[|scheme|] == ':';
      forall k | 0 <= k < |scheme| ensures u[k] == scheme[k] && u[k] != ':' {
      }
      assert Find(u, ':') == |scheme|;
      assert u[..|scheme|] == scheme;
      assert u[|scheme| + 1..] == rest;
    } else {
      assert SchemePart(scheme) + rest == rest;
    }
  }

  lemma SplitNetlocOf(netloc: string, rest: string)
    requires NetlocChars(netloc)
    requires rest != [] && rest[0] == '/'
    ensures SplitNetloc("//" + netloc + rest) == (netloc, rest)
  {
    var s := "//" + netloc + rest;
    var e := 2 + |netloc|;
    assert s[..2] == "//";
    assert s[e] == rest[0] == '/';
    forall k | 2 <= k < e ensures s[k] == netloc[k - 2] {
    }
    assert FindFrom(s, '/', 2) == e;
    assert FindFrom(s, '?', 2) >= e;
    assert FindFrom(s, '#', 2) >= e;
    assert s[2..e] == netloc;
    assert s[e..] == rest;
  }

  lemma SplitNetlocNone(rest: string)
    requires rest != [] && rest[0] == '/' && !(|rest| >= 2 && rest[1] == '/')
    ensures SplitNetloc(rest) == ("", rest)
  {
    if |rest| >= 2 {
      assert rest[..2][1] == rest[1];
    }
  }

  /** The located part and what follows it split into the network location and the rest. */
  lemma LocatedSplits(p: Parsed, tail: string)
    requires NetlocChars(p.netloc) && PlainPath(p.path)
    requires tail == [] || tail[0] != '/'
    ensures SplitNetloc(Located(p) + tail) == (p.netloc, p.path + tail)
  {
    if Located(p) == "//" + p.netloc + p.path {
      assert Located(p) + tail == "//" + p.netloc + (p.path + tail);
      SplitNetlocOf(p.netloc, p.path + tail);
    } else {
      assert (p.path + tail)[0] == '/';
      if |p.path| == 1 && tail != [] { assert (p.path + tail)[1] == tail[0]; }
      if |p.path| >= 2 { assert (p.path + tail)[1] == p.path[1]; }
      SplitNetlocNone(p.path + tail);
    }
  }

  /** `SplitOnce` cuts at the first occurrence of the delimiter. */
  lemma SplitOnceAt(before: string, c: char, after: string)
    requires c !in before
    ensures SplitOnce(before + [c] + after, c) == (before, after)
  {
    var s := before + [c] + after;
    assert s[|before|] == c;
    assert s[..|before|] == before && s[|before| + 1..] == after;
  }

  lemma SplitOnceAbsent(s: string, c: char)
    requires c !in s
    ensures SplitOnce(s, c) == (s, "")
  {
  }

  /** The fragment splits off at the first `#`. */
  lemma FragmentSplits(path: string, query: string, fragment: string)
    requires PlainPath(path) && QueryOk(query)
    ensures SplitOnce(path + (QueryPart(query) + FragmentPart(fragment)), '#')
         == (path + QueryPart(query), fragment)
  {
    var pq := path + QueryPart(query);
    assert '#' !in pq by {
      forall k | 0 <= k < |pq| ensures pq[k] != '#' {
        if k >= |path| + 1 { assert pq[k] == query[k - |path| - 1]; }
      }
    }
    if fragment != "" {
      assert path + (QueryPart(query) + FragmentPart(fragment)) == pq + ['#'] + fragment;
      SplitOnceAt(pq, '#', fragment);
    } else {
      assert path + (QueryPart(query) + FragmentPart(fragment)) == pq;
      SplitOnceAbsent(pq, '#');
    }
  }

  /** The query splits off at the first `?`. */
  lemma QuerySplits(path: string, query: string)
    requires PlainPath(path)
    ensures SplitOnce(path + QueryPart(query), '?') == (path, query)
  {
    assert '?' !in path by {
      forall k | 0 <= k < |path| ensures path[k] != '?' {
      }
    }
    if query != "" {
      assert path + QueryPart(query) == path + ['?'] + query;
      SplitOnceAt(path, '?', query);
    } else {
      assert path + QueryPart(query) == path;
      SplitOnceAbsent(path, '?');
    }
  }

  /** The text `Unparse` writes for such a record has no leading blank and no tab, carriage
      return or line feed, so `Parse` reads it as written. */
  lemma UnparseClean(p: Parsed)
    requires SchemeOk(p.scheme) && NetlocChars(p.netloc) && PlainPath(p.path) && p.params == ""
    requires QueryOk(p.query) && FragmentOk(p.fragment)
    ensures Sanitize(Unparse(p)) == Unparse(p)
  {
    UnparseShape(p);
    var head, located := SchemePart(p.scheme), Located(p);
    var q, f := QueryPart(p.query), FragmentPart(p.fragment);
    var out := head + (located + (q + f));
    forall k | 0 <= k < |head| ensures !IsUnsafe(head[k]) {
      if k < |p.scheme| { assert head[k] == p.scheme[k]; }
    }
    forall k | 0 <= k < |located| ensures !IsUnsafe(located[k]) {
      if located == "//" + p.netloc + p.path && k >= 2 {
        if k < 2 + |p.netloc| { assert located[k] == p.netloc[k - 2]; }
        else { assert located[k] == p.path[k - 2 - |p.netloc|]; }
      }
    }
    forall k | 0 <= k < |q| ensures !IsUnsafe(q[k]) {
      if k > 0 { assert q[k] == p.query[k - 1]; }
    }
    forall k | 0 <= k < |f| ensures !IsUnsafe(f[k]) {
      if k > 0 { assert f[k] == p.fragment[k - 1]; }
    }
    forall k | 0 <= k < |out| ensures !IsUnsafe(out[k]) {
      if k < |head| { assert out[k] == head[k]; }
      else if k < |head| + |located| { assert out[k] == located[k - |head|]; }
      else if k < |head| + |located| + |q| { assert out[k] == q[k - |head| - |located|]; }
      else { assert out[k] == f[k - |head| - |located| - |q|]; }
    }
    assert out[0] == if p.scheme != "" then p.scheme[0] else located[0];
    SanitizeClean(out);
  }

  /** Parsing what `Unparse` writes for a record with a plain path, no parameters and a query
      without `#` recovers every component; whether it succeeds is then up to the network
      location alone. */
  lemma ParseUnparseParts(p: Parsed)
    requires SchemeOk(p.scheme) && NetlocChars(p.netloc) && PlainPath(p.path) && p.params == ""
    requires QueryOk(p.query) && FragmentOk(p.fragment)
    ensures Parse(Unparse(p)) == if NetlocError(p.netloc).Some? then Err(NetlocError(p.netloc).value)
                                 else Ok(p)
  {
    var tail := QueryPart(p.query) + FragmentPart(p.fragment);
    var out := Unparse(p);
    assert out == SchemePart(p.scheme) + (Located(p) + tail) by { UnparseShape(p); }
    assert Sanitize(out) == out by { UnparseClean(p); }
    assert SplitScheme(out) == (p.scheme, Located(p) + tail) by {
      SplitSchemeOf(p.scheme, Located(p) + tail);
    }
    assert SplitNetloc(Located(p) + tail) == (p.netloc, p.path + tail) by {
      LocatedSplits(p, tail);
    }
    FragmentSplits(p.path, p.query, p.fragment);
    QuerySplits(p.path, p.query);
    assert ';' !in p.path;
  }

  /** Parsing what `Unparse` writes for such a record, with a network location `Parse`
      accepts, gives the record back. */
  lemma ParseUnparse(p: Parsed)
    requires SchemeOk(p.scheme) && NetlocOk(p.netloc) && PlainPath(p.path) && p.params == ""
    requires QueryOk(p.query) && FragmentOk(p.fragment)
    ensures Parse(Unparse(p)) == Ok(p)
  {
    ParseUnparseParts(p);
  }

  // ----- Bracketed hosts -----

  /** A host in brackets with nothing around them is checked as it stands. */
  lemma BracketedAlone(h: string)
    requires '@' !in h && '[' !in h && ']' !in h
    ensures NetlocError("[" + h + "]") == BracketedHostError(h)
  {
    var netloc := "[" + h + "]";
    assert '@' !in netloc;
    assert netloc[0] == '[' && netloc[|netloc| - 1] == ']';
    assert Find(netloc, '[') == 0;
    assert netloc[1..] == h + [']'] + "";
    SplitOnceAt(h, ']', "");
  }

  /** `_check_bracketed_host` lets through exactly the IPvFuture and the IPv6 addresses. */
  lemma BracketedHostAccepted(h: string)
    ensures BracketedHostError(h).None? <==> IsIpvFuture(h) || IpAddress.IsIpv6(h)
  {
    IpAddress.Ipv4NotIpv6(h);
    if IpAddress.IsIpv6(h) {
      IpAddress.Ipv6Start(h);
    }
  }

  /** A host name in brackets, such as `[a]`, is refused: with no colon it is no IPv6
      address, and without a leading `v` no IPvFuture address. */
  lemma BracketedNameRefused(h: string)
    requires '@' !in h && '[' !in h && ']' !in h && ':' !in h
    requires h == [] || h[0] != 'v'
    ensures NetlocError("[" + h + "]").Some?
  {
    BracketedAlone(h);
    BracketedHostAccepted(h);
    if IpAddress.IsIpv6(h) {
      IpAddress.Ipv6HasColon(h);
    }
  }

  /** So a record with such a host does not survive `Unparse` then `Parse`. */
  lemma UnparseBracketedName(p: Parsed, h: string)
    requires p.netloc == "[" + h + "]"
    requires '@' !in h && '[' !in h && ']' !in h && ':' !in h && (h == [] || h[0] != 'v')
    requires forall k :: 0 <= k < |h| ==> h[k] !in "/?#" && !IsUnsafe(h[k])
    requires SchemeOk(p.scheme) && PlainPath(p.path) && p.params == ""
    requires QueryOk(p.query) && FragmentOk(p.fragment)
    ensures Parse(Unparse(p)).Err?
  {
    assert NetlocChars(p.netloc) by {
      forall k | 1 <= k < |p.netloc| - 1 ensures p.netloc[k] == h[k - 1] {
      }
    }
    BracketedNameRefused(h);
    ParseUnparseParts(p);
  }

  /** The loopback address in brackets is accepted. */
  lemma BracketedLoopback()
    ensures NetlocError("[::1]").None?
  {
    assert "[::1]" == "[" + "::1" + "]";
    BracketedAlone("::1");
    IpAddress.Loopback();
    BracketedHostAccepted("::1");
  }
}
