/** Endpoint and session URLs (`ParseUrl` and `ResolveLocation` of whep_http.cpp). */
module Url {
  import opened Wrappers
  import opened Text

  const SCHEME: string := "http://"
  const MAXIMUM_PORT: nat := 65535

  datatype ParsedUrl = ParsedUrl(host: string, port: string, authority: string, target: string)

  datatype UrlError =
    | UnsupportedScheme
    | InvalidAuthority
    | InvalidIpv6Address
    | InvalidIpv6Port
    | InvalidHostOrPort
    | PortOutOfRange

  datatype LocationError = MissingLocation | HttpsLocation

  // ---------------------------------------------------------------- what a URL denotes

  /** A text without "://" is read as if it began with the scheme. */
  function WithScheme(input: string): string {
    if Contains(input, "://") then input else SCHEME + input
  }

  /** `full` is the scheme, an authority, and a rest that is empty or begins with one of `/?#`. */
  predicate HasParts(full: string, authority: string, rest: string) {
    && full == SCHEME + authority + rest
    && (forall c | c in authority :: c !in "/?#")
    && (rest != "" ==> rest[0] in "/?#")
  }

  predicate PlainAuthority(authority: string) {
    authority != "" && '@' !in authority
  }

  predicate Bracket(s: string) {
    s != "" && s[0] == '['
  }

  /** The four ways to write an authority; the forms without a port mean port 80. */
  predicate AuthorityForm(authority: string, host: string, port: string) {
    || (authority == "[" + host + "]" && ']' !in host && port == "80")
    || (authority == "[" + host + "]:" + port && ']' !in host)
    || (authority == host && ':' !in host && !Bracket(host) && port == "80")
    || (authority == host + ":" + port && ':' !in port && !Bracket(host))
  }

  predicate PortDigits(port: string) {
    port != "" && AllDigits(port, Decimal)
  }

  predicate ValidPort(port: string) {
    PortDigits(port) && 1 <= NumberOf(port, Decimal) <= MAXIMUM_PORT
  }

  function BeforeFragment(s: string): (r: string)
    ensures r <= s && '#' !in r
    ensures r != s ==> s[|r|] == '#'
  {
    match FindChar(s, '#')
    case Some(i) => s[..i]
    case None => s
  }

  /** The request target of what follows the authority: no fragment, and always a leading slash. */
  function TargetOf(rest: string): string {
    var target := BeforeFragment(rest);
    if target == "" || target[0] == '?' then "/" + target else target
  }

  /** The authority names a host and a port that can be connected to. */
  predicate Connectable(url: ParsedUrl) {
    && PlainAuthority(url.authority)
    && url.host != ""
    && ValidPort(url.port)
    && AuthorityForm(url.authority, url.host, url.port)
  }

  /** The URL grammar: `input` denotes `url`. */
  ghost predicate UrlDenotes(input: string, url: ParsedUrl) {
    && Connectable(url)
    && exists rest :: HasParts(WithScheme(input), url.authority, rest) && url.target == TargetOf(rest)
  }

  /** What is wrong with an authority that is refused with `e`. */
  ghost predicate AuthorityFault(a: string, e: UrlError) {
    match e
    case UnsupportedScheme => false
    case InvalidAuthority => !PlainAuthority(a)
    case InvalidIpv6Address => PlainAuthority(a) && a[0] == '[' && ']' !in a
    case InvalidIpv6Port =>
      PlainAuthority(a) && exists h, tail :: IsBracketed(a, h, tail) && tail != "" && tail[0] != ':'
    case InvalidHostOrPort =>
      PlainAuthority(a) && exists h, p :: AuthorityForm(a, h, p) && (h == "" || !PortDigits(p))
    case PortOutOfRange =>
      PlainAuthority(a) && exists h, p :: AuthorityForm(a, h, p) && h != "" && PortDigits(p) && !ValidPort(p)
  }

  /** What is wrong with an input that is refused with `e`. */
  ghost predicate FaultFits(input: string, e: UrlError) {
    if e == UnsupportedScheme then !(SCHEME <= WithScheme(input))
    else exists a, rest :: HasParts(WithScheme(input), a, rest) && AuthorityFault(a, e)
  }

  predicate IsBracketed(authority: string, host: string, tail: string) {
    authority == "[" + host + "]" + tail && ']' !in host
  }

  lemma PartsUnique(full: string, a: string, rest: string, b: string, tail: string)
    requires HasParts(full, a, rest) && HasParts(full, b, tail)
    ensures a == b && rest == tail
  {
    PartsNotLonger(full, a, rest, b, tail);
    PartsNotLonger(full, b, tail, a, rest);
    assert full[|SCHEME|..][..|a|] == a && full[|SCHEME|..][..|b|] == b;
    assert full[|SCHEME|..][|a|..] == rest && full[|SCHEME|..][|b|..] == tail;
  }

  lemma PartsNotLonger(full: string, a: string, rest: string, b: string, tail: string)
    requires HasParts(full, a, rest) && HasParts(full, b, tail)
    ensures |a| <= |b|
  {
    var body := full[|SCHEME|..];
    assert body == a + rest && body == b + tail;
    assert forall i | 0 <= i < |a| :: body[i] == a[i] && a[i] in a;
    assert tail != "" ==> body[|b|] == tail[0];
  }

  /** The position of the bracket is determined, so a bracketed authority splits in one way. */
  lemma BracketsUnique(a: string, h: string, t: string, g: string, u: string)
    requires IsBracketed(a, h, t) && IsBracketed(a, g, u)
    ensures h == g && t == u
  {
    BracketNotLater(a, h, t, g, u);
    BracketNotLater(a, g, u, h, t);
    assert a[1..][..|h|] == h && a[1..][..|g|] == g;
    assert a[|h| + 2..] == t && a[|g| + 2..] == u;
  }

  lemma BracketNotLater(a: string, h: string, t: string, g: string, u: string)
    requires IsBracketed(a, h, t) && IsBracketed(a, g, u)
    ensures |h| <= |g|
  {
    assert a[|g| + 1] == ']';
    assert forall i | 1 <= i <= |h| :: a[i] == h[i - 1] && h[i - 1] in h;
  }

  /** The part after the last colon is determined. */
  lemma LastColonUnique(a: string, h: string, p: string, g: string, q: string)
    requires a == h + ":" + p && ':' !in p
    requires a == g + ":" + q && ':' !in q
    ensures h == g && p == q
  {
    ColonNotEarlier(a, h, p, g, q);
    ColonNotEarlier(a, g, q, h, p);
    assert a[..|h|] == h && a[..|g|] == g;
    assert a[|h| + 1..] == p && a[|g| + 1..] == q;
  }

  lemma ColonNotEarlier(a: string, h: string, p: string, g: string, q: string)
    requires a == h + ":" + p && ':' !in p
    requires a == g + ":" + q
    ensures |h| >= |g|
  {
    assert a[|g|] == ':';
    assert forall i | |h| < i < |a| :: a[i] == p[i - |h| - 1] && p[i - |h| - 1] in p;
  }

  lemma AuthorityUnique(a: string, h: string, p: string, g: string, q: string)
    requires AuthorityForm(a, h, p) && AuthorityForm(a, g, q)
    requires a != ""
    ensures h == g && p == q
  {
    if a[0] == '[' {
      BracketTail(a, h, p);
      BracketTail(a, g, q);
      BracketsUnique(a, h, BracketTailOf(a, h), g, BracketTailOf(a, g));
    } else {
      PlainTail(a, h, p);
      PlainTail(a, g, q);
      if ':' in a {
        LastColonUnique(a, h, p, g, q);
      }
    }
  }

  function BracketTailOf(a: string, h: string): string {
    if |h| + 2 <= |a| then a[|h| + 2..] else ""
  }

  lemma BracketTail(a: string, h: string, p: string)
    requires AuthorityForm(a, h, p) && a != "" && a[0] == '['
    ensures IsBracketed(a, h, BracketTailOf(a, h))
    ensures BracketTailOf(a, h) == "" ==> p == "80"
    ensures BracketTailOf(a, h) != "" ==> BracketTailOf(a, h)[0] == ':' && BracketTailOf(a, h)[1..] == p
  {
  }

  lemma PlainTail(a: string, h: string, p: string)
    requires AuthorityForm(a, h, p) && a != "" && a[0] != '['
    ensures ':' in a ==> a == h + ":" + p && ':' !in p
    ensures ':' !in a ==> a == h && p == "80"
  {
    assert a == h + ":" + p ==> a[|h|] == ':';
  }

  /** An input denotes at most one URL. */
  lemma UrlUnique(input: string, u: ParsedUrl, v: ParsedUrl)
    requires UrlDenotes(input, u) && UrlDenotes(input, v)
    ensures u == v
  {
    var r :| HasParts(WithScheme(input), u.authority, r) && u.target == TargetOf(r);
    var s :| HasParts(WithScheme(input), v.authority, s) && v.target == TargetOf(s);
    PartsUnique(WithScheme(input), u.authority, r, v.authority, s);
    AuthorityUnique(u.authority, u.host, u.port, v.host, v.port);
  }

  // ---------------------------------------------------------------- parsing

  /** An authority with one of the faults names no host and port to connect to. */
  lemma FaultExcludesConnection(e: UrlError, u: ParsedUrl)
    requires AuthorityFault(u.authority, e)
    ensures !Connectable(u)
  {
    var a := u.authority;
    if PlainAuthority(a) && AuthorityForm(a, u.host, u.port) {
      if a[0] == '[' {
        BracketTail(a, u.host, u.port);
      }
      forall h, tail | IsBracketed(a, h, tail)
        ensures a[0] == '[' && tail == BracketTailOf(a, u.host)
      {
        assert a[0] == '[';
        BracketsUnique(a, h, tail, u.host, BracketTailOf(a, u.host));
      }
      forall h, p | AuthorityForm(a, h, p)
        ensures h == u.host && p == u.port
      {
        AuthorityUnique(a, h, p, u.host, u.port);
      }
    }
  }

  /** An input with one of the faults denotes no URL. */
  lemma FaultExcludes(input: string, e: UrlError, u: ParsedUrl)
    requires FaultFits(input, e)
    ensures !UrlDenotes(input, u)
  {
    var full := WithScheme(input);
    forall r | HasParts(full, u.authority, r)
      ensures !Connectable(u)
    {
      if e != UnsupportedScheme {
        var a, rest :| HasParts(full, a, rest) && AuthorityFault(a, e);
        PartsUnique(full, a, rest, u.authority, r);
        FaultExcludesConnection(e, u);
      }
    }
  }

  /** `std::from_chars` into an unsigned int accepts the port digits exactly when the port is in range. */
  lemma PortNumber(port: string)
    requires PortDigits(port)
    ensures
      var number := FromChars(port, Decimal, UINT_LIMIT);
      (number.Ok? && 1 <= number.value <= MAXIMUM_PORT) <==> ValidPort(port)
  {
    FromCharsReads(port, Decimal, UINT_LIMIT, |port|);
  }

  /** Cuts a URL behind its scheme into the authority and the request target. */
  method SplitUrl(url: string) returns (authority: string, target: string)
    requires SCHEME <= url
    ensures |SCHEME| + |authority| <= |url|
    ensures HasParts(url, authority, url[|SCHEME| + |authority|..])
    ensures target == TargetOf(url[|SCHEME| + |authority|..])
  {
    var authorityBegin := |SCHEME|;
    var authorityEnd := FindFirstOf(url, "/?#", authorityBegin);
    if authorityEnd.None? {
      authority := url[authorityBegin..];
      target := "/";
    } else {
      authority := url[authorityBegin..authorityEnd.value];
      target := url[authorityEnd.value..];
      var fragment := FindChar(target, '#');
      if fragment.Some? {
        target := target[..fragment.value];
      }
      if target == "" || target[0] == '?' {
        target := "/" + target;
      }
    }
  }

  /** Cuts an authority into host and port text. */
  method SplitAuthority(authority: string) returns (result: Result<(string, string), UrlError>)
    requires authority != ""
    ensures result.Ok? ==> AuthorityForm(authority, result.value.0, result.value.1)
    ensures result.Err? ==> result.error in {InvalidIpv6Address, InvalidIpv6Port}
    ensures result == Err(InvalidIpv6Address) ==> authority[0] == '[' && ']' !in authority
    ensures result == Err(InvalidIpv6Port) ==>
      exists h, tail :: IsBracketed(authority, h, tail) && tail != "" && tail[0] != ':'
  {
    var port := "80";
    if authority[0] == '[' {
      var closeBracket := FindChar(authority, ']');
      if closeBracket.None? {
        return Err(InvalidIpv6Address);
      }
      var close := closeBracket.value;
      var host := authority[1..close];
      assert authority[..close] == "[" + host;
      assert IsBracketed(authority, host, authority[close + 1..]);
      if close + 1 < |authority| {
        if authority[close + 1] != ':' {
          return Err(InvalidIpv6Port);
        }
        port := authority[close + 2..];
      }
      return Ok((host, port));
    }
    var colon := FindLast(authority, ':');
    if colon.Some? {
      return Ok((authority[..colon.value], authority[colon.value + 1..]));
    }
    return Ok((authority, port));
  }

  /** Reads host and port from an authority, or says what is wrong with it. */
  method ReadAuthority(authority: string) returns (result: Result<(string, string), UrlError>)
    ensures result.Ok? ==>
      var (host, port) := result.value;
      PlainAuthority(authority) && host != "" && ValidPort(port) && AuthorityForm(authority, host, port)
    ensures result.Err? ==> AuthorityFault(authority, result.error)
  {
    if authority == "" || FindChar(authority, '@').Some? {
      return Err(InvalidAuthority);
    }
    var split := SplitAuthority(authority);
    if split.Err? {
      return Err(split.error);
    }
    var (host, port) := split.value;
    hide AuthorityForm;
    if host == "" || port == "" || !AllDigits(port, Decimal) {
      return Err(InvalidHostOrPort);
    }
    PortNumber(port);
    var number := FromChars(port, Decimal, UINT_LIMIT);
    if number.Err? || number.value == 0 || number.value > MAXIMUM_PORT {
      return Err(PortOutOfRange);
    }
    return Ok((host, port));
  }

  /** Reads an endpoint URL: accepts exactly the inputs of the grammar, with the one record they denote. */
  method ParseUrl(input: string) returns (result: Result<ParsedUrl, UrlError>)
    ensures result.Ok? ==> UrlDenotes(input, result.value)
    ensures result.Err? ==> FaultFits(input, result.error)
    ensures result.Err? ==> forall u :: !UrlDenotes(input, u)
  {
    var url := input;
    if Find(url, "://", 0).None? {
      url := SCHEME + url;
    }
    assert url == WithScheme(input);
    if !(SCHEME <= url) {
      result := Err(UnsupportedScheme);
    } else {
      var authority, target := SplitUrl(url);
      var address := ReadAuthority(authority);
      result := match address
        case Ok((host, port)) => Ok(ParsedUrl(host, port, authority, target))
        case Err(error) => Err(error);
    }
    if result.Err? {
      forall u
        ensures !UrlDenotes(input, u)
      {
        FaultExcludes(input, result.error, u);
      }
    }
  }

  // ---------------------------------------------------------------- normal form

  /** A parsed target begins with a slash and has no fragment. */
  lemma ParsedTarget(input: string, u: ParsedUrl)
    requires UrlDenotes(input, u)
    ensures u.target != "" && u.target[0] == '/' && '#' !in u.target
    ensures forall c | c in u.authority :: c !in "/?#"
  {
    var rest :| HasParts(WithScheme(input), u.authority, rest) && u.target == TargetOf(rest);
    var t := BeforeFragment(rest);
    assert t != "" ==> t[0] == rest[0] && t[0] in t;
  }

  /** A text that begins with the scheme is not given a second one. */
  lemma SchemeStays(tail: string)
    ensures WithScheme(SCHEME + tail) == SCHEME + tail
  {
    var full := SCHEME + tail;
    assert full[4..7] == "://";
    assert OccursAt("://", "://", 0);
    OccursInPart(full, 4, 7, "://", 4);
  }

  // ---------------------------------------------------------------- what is accepted, written out

  /** The scheme may be left out. */
  lemma OptionalScheme(input: string, u: ParsedUrl)
    requires !Contains(input, "://")
    ensures UrlDenotes(input, u) <==> UrlDenotes("http://" + input, u)
  {
    SchemeStays(input);
    assert WithScheme(input) == WithScheme("http://" + input);
  }

  /** Any other scheme is refused. */
  lemma OtherSchemes(input: string, u: ParsedUrl)
    requires Contains(input, "://") && !("http://" <= input)
    ensures !UrlDenotes(input, u)
  {
    assert forall a, rest | HasParts(input, a, rest) :: SCHEME <= SCHEME + a + rest;
  }

  /** What stands between host and fragment, and the target it asks for. */
  predicate IsPathOf(path: string, target: string) {
    && '#' !in path
    && (path == "" ==> target == "/")
    && (path != "" ==> (path[0] == '/' && target == path) || (path[0] == '?' && target == "/" + path))
  }

  lemma PathOf(path: string, fragment: string, target: string)
    requires IsPathOf(path, target) && (fragment == "" || fragment[0] == '#')
    ensures TargetOf(path + fragment) == target
    ensures path + fragment != "" ==> (path + fragment)[0] in "/?#"
  {
    var rest := path + fragment;
    var b := BeforeFragment(rest);
    assert forall i | 0 <= i < |path| :: rest[i] == path[i] && path[i] in path;
    assert fragment != "" ==> rest[|path|] == '#';
    assert forall i | 0 <= i < |b| :: b[i] == rest[i] && b[i] in b;
    assert |b| <= |path|;
    assert b == path[..|b|];
    assert b == path;
  }

  /** An authority of one of the four forms, a path or none, and a fragment or none denote what is written in them. */
  lemma WrittenUrl(host: string, port: string, authority: string, path: string, fragment: string, target: string)
    requires host != "" && '@' !in authority && (forall c | c in authority :: c !in "/?#")
    requires port != "" && AllDigits(port, Decimal) && 1 <= NumberOf(port, Decimal) <= 65535
    requires
      || (authority == host && ':' !in host && host[0] != '[' && port == "80")
      || (authority == host + ":" + port && host[0] != '[')
      || (authority == "[" + host + "]" && ']' !in host && port == "80")
      || (authority == "[" + host + "]:" + port && ']' !in host)
    requires IsPathOf(path, target) && (fragment == "" || fragment[0] == '#')
    ensures forall u ::
      UrlDenotes("http://" + authority + (path + fragment), u) <==> u == ParsedUrl(host, port, authority, target)
  {
    var input, rest, v := "http://" + authority + (path + fragment), path + fragment, ParsedUrl(host, port, authority, target);
    PathOf(path, fragment, target);
    SchemeStays(authority + rest);
    assert input == SCHEME + (authority + rest);
    NoColonInDigits(port);
    assert HasParts(WithScheme(input), v.authority, rest);
    assert UrlDenotes(input, v);
    forall u | UrlDenotes(input, u)
      ensures u == v
    {
      UrlUnique(input, u, v);
    }
  }

  lemma NoColonInDigits(port: string)
    requires AllDigits(port, Decimal)
    ensures ':' !in port
  {
    assert forall i | 0 <= i < |port| :: IsDigitIn(port[i], Decimal);
  }

  /** Port 80 is what a port that is left out stands for, and it can be connected to. */
  lemma DefaultPort()
    ensures AllDigits("80", Decimal) && NumberOf("80", Decimal) == 80
  {
    assert NumberUpTo("80", Decimal, 0) == 0 && NumberUpTo("80", Decimal, 1) == 8;
  }

  /** A host and a port are written in the authority, and one of them is not usable. */
  predicate NoHostOrPort(authority: string, host: string, port: string) {
    && ((authority == host + ":" + port && ':' !in port && (host == "" || host[0] != '['))
        || (authority == "[" + host + "]:" + port && ']' !in host))
    && (host == "" || port == "" || !AllDigits(port, Decimal) || !(1 <= NumberOf(port, Decimal) <= 65535))
  }

  /** An empty authority, one with user information, and one with an empty host or a port out of range are refused. */
  lemma RefusedUrl(authority: string, rest: string, host: string, port: string, u: ParsedUrl)
    requires (forall c | c in authority :: c !in "/?#") && (rest != "" ==> rest[0] in "/?#")
    requires authority == "" || '@' in authority || NoHostOrPort(authority, host, port)
    ensures !UrlDenotes("http://" + authority + rest, u)
  {
    var input := "http://" + authority + rest;
    SchemeStays(authority + rest);
    assert input == SCHEME + (authority + rest);
    assert HasParts(WithScheme(input), authority, rest);
    forall r | HasParts(WithScheme(input), u.authority, r)
      ensures !Connectable(u)
    {
      PartsUnique(WithScheme(input), authority, rest, u.authority, r);
      if Connectable(u) {
        AuthorityUnique(authority, host, port, u.host, u.port);
      }
    }
  }

  /** Behind a connectable authority, any text that begins with a slash is a target, up to its fragment. */
  lemma SlashTarget(u: ParsedUrl, path: string)
    requires Connectable(u) && (forall c | c in u.authority :: c !in "/?#")
    requires path != "" && path[0] == '/'
    ensures UrlDenotes(SCHEME + u.authority + path, u.(target := BeforeFragment(path)))
  {
    var full := SCHEME + u.authority + path;
    assert full == SCHEME + (u.authority + path);
    SchemeStays(u.authority + path);
    assert HasParts(WithScheme(full), u.authority, path);
    var t := BeforeFragment(path);
    assert t != "" && t[0] == '/' && TargetOf(path) == t;
    assert HasParts(WithScheme(full), u.(target := t).authority, path);
  }

  /** Printing a parsed URL and parsing it again gives the identical record, and no other. */
  lemma NormalForm(input: string, u: ParsedUrl)
    requires UrlDenotes(input, u)
    ensures forall v :: UrlDenotes(SCHEME + u.authority + u.target, v) <==> v == u
  {
    ParsedTarget(input, u);
    SlashTarget(u, u.target);
    assert BeforeFragment(u.target) == u.target;
    assert u.(target := u.target) == u;
    forall v | UrlDenotes(SCHEME + u.authority + u.target, v)
      ensures v == u
    {
      UrlUnique(SCHEME + u.authority + u.target, u, v);
    }
  }

  // ---------------------------------------------------------------- Location

  /** `dir` is the directory of the path of `target`: everything up to the last slash before the query. */
  ghost predicate IsDirectoryOf(target: string, dir: string) {
    exists file, query :: IsPath(target, dir, file, query)
  }

  predicate IsPath(target: string, dir: string, file: string, query: string) {
    && target == dir + file + query
    && dir != "" && dir[|dir| - 1] == '/'
    && '?' !in dir && '/' !in file && '?' !in file
    && (query != "" ==> query[0] == '?')
  }

  predicate IsAbsolute(location: string) {
    SCHEME <= location || "https://" <= location
  }

  /** `std::string::resize` of a string that may have to grow. */
  function Resized(s: string, n: nat): (r: string)
    ensures |r| == n
    ensures n <= |s| ==> r == s[..n]
  {
    if n <= |s| then s[..n] else s + seq(n - |s|, _ => '\0')
  }

  /** A target that begins with a slash, cut behind the last slash before its query. */
  lemma DirectoryEnds(target: string, path: string, slash: nat)
    requires path <= target && '?' !in path && (|path| < |target| ==> target[|path|] == '?')
    requires slash < |path| && path[slash] == '/' && '/' !in path[slash + 1..]
    ensures IsDirectoryOf(target, path[..slash + 1])
  {
    var dir, file, query := path[..slash + 1], path[slash + 1..], target[|path|..];
    assert target == path + query;
    assert path == dir + file;
    assert IsPath(target, dir, file, query);
  }

  /** The part of a target that a relative Location is appended to. */
  method BaseDirectory(target: string) returns (base: string)
    ensures target != "" && target[0] == '/' ==> IsDirectoryOf(target, base)
  {
    hide IsDirectoryOf;
    var query := FindChar(target, '?');
    base := match query
      case Some(i) => target[..i]
      case None => target;
    ghost var path := base;
    var slash := FindLast(base, '/');
    if slash.None? {
      assert base != "" ==> base[0] != '/';
      base := Resized(base, 1);
    } else {
      base := Resized(base, slash.value + 1);
      DirectoryEnds(target, path, slash.value);
    }
  }

  /** Turns the Location header of the WHEP answer into the URL of the session. */
  method ResolveLocation(endpoint: ParsedUrl, location: string) returns (result: Result<string, LocationError>)
    ensures result == Err(MissingLocation) <==> location == ""
    ensures result == Err(HttpsLocation) <==> "https://" <= location
    ensures SCHEME <= location ==> result == Ok(location)
    ensures location != "" && location[0] == '/' ==> result == Ok(SCHEME + endpoint.authority + location)
    ensures location != "" && location[0] != '/' && !IsAbsolute(location) && endpoint.target != "" && endpoint.target[0] == '/' ==>
      exists dir :: IsDirectoryOf(endpoint.target, dir) && result == Ok(SCHEME + endpoint.authority + dir + location)
  {
    if location == "" {
      return Err(MissingLocation);
    }
    if SCHEME <= location {
      assert location[0] == 'h' && location[4] == ':';
      return Ok(location);
    }
    if "https://" <= location {
      return Err(HttpsLocation);
    }

    var sessionUrl := SCHEME + endpoint.authority;
    if location[0] == '/' {
      sessionUrl := sessionUrl + location;
      return Ok(sessionUrl);
    }

    var base := BaseDirectory(endpoint.target);
    sessionUrl := sessionUrl + (base + location);
    assert sessionUrl == SCHEME + endpoint.authority + base + location;
    return Ok(sessionUrl);
  }

  /** The target of a session that is named relative to its endpoint. */
  ghost predicate NamesTarget(endpoint: ParsedUrl, location: string, path: string) {
    if location != "" && location[0] == '/' then path == location
    else exists dir :: IsDirectoryOf(endpoint.target, dir) && path == dir + location
  }

  /**
    Every relative Location resolves to a URL that parses, to the authority, host and port of the endpoint,
    and to the named target without its fragment.
    */
  lemma RelativeLocationKeepsAuthority(input: string, endpoint: ParsedUrl, location: string, path: string)
    requires UrlDenotes(input, endpoint)
    requires location != "" && !IsAbsolute(location)
    requires NamesTarget(endpoint, location, path)
    ensures forall v ::
      UrlDenotes(SCHEME + endpoint.authority + path, v) <==> v == endpoint.(target := BeforeFragment(path))
  {
    ParsedTarget(input, endpoint);
    if location[0] != '/' {
      var dir :| IsDirectoryOf(endpoint.target, dir) && path == dir + location;
      assert path[0] == dir[0] == endpoint.target[0];
    }
    SlashTarget(endpoint, path);
    var session := SCHEME + endpoint.authority + path;
    var u := endpoint.(target := BeforeFragment(path));
    forall v | UrlDenotes(session, v)
      ensures v == u
    {
      UrlUnique(session, u, v);
    }
  }

  /** Two directories of the same target are equal, so a Location names one target only. */
  lemma DirectoryUnique(target: string, d: string, e: string)
    requires IsDirectoryOf(target, d) && IsDirectoryOf(target, e)
    ensures d == e
  {
    DirectoryNotLonger(target, d, e);
    DirectoryNotLonger(target, e, d);
  }

  lemma DirectoryNotLonger(target: string, d: string, e: string)
    requires IsDirectoryOf(target, d) && IsDirectoryOf(target, e)
    ensures |d| <= |e| && d <= target && (|d| == |e| ==> d == e)
  {
    var file, query :| IsPath(target, e, file, query);
    assert d[|d| - 1] == target[|d| - 1] == '/';
    assert forall i | |e| <= i < |e| + |file| :: target[i] == file[i - |e|] && file[i - |e|] in file;
    assert query != "" ==> target[|e| + |file|] == '?';
    assert forall i | 0 <= i < |d| :: target[i] == d[i] && d[i] in d;
    assert d == target[..|d|] && e == target[..|e|];
  }
}
