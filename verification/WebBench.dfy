/** The request printer of webbench, and what the server makes of its requests. */
module WebBench {
  import opened CBuffers
  import opened CStrings
  import opened Numbers
  import opened MessageSpec
  import opened Reception
  import opened Wrappers

  const MAXHOSTNAMELEN := 64
  const REQUEST_SIZE := 2048
  const MAX_URL := 1500

  datatype BenchMethod = BenchGet | BenchHead | BenchOptions | BenchTrace

  function VerbText(m: BenchMethod): string {
    match m
    case BenchGet => "GET"
    case BenchHead => "HEAD"
    case BenchOptions => "OPTIONS"
    case BenchTrace => "TRACE"
  }

  /** The command line: HTTP version (0, 1, 2 for 0.9, 1.0, 1.1), method, --reload and --proxy. */
  datatype Settings = Settings(http10: int, verb: BenchMethod, reload: bool, proxy: Option<string>)

  /** The version after the options that force a higher one. */
  function Level(s: Settings): int {
    var a := if s.reload && s.proxy.Some? && s.http10 < 1 then 1 else s.http10;
    var b := if s.verb == BenchHead && a < 1 then 1 else a;
    if (s.verb == BenchOptions || s.verb == BenchTrace) && b < 2 then 2 else b
  }

  /** strstr(url, "://"), or the length of url. */
  function SchemeEnd(url: string): (k: nat)
    ensures k <= |url|
    ensures k < |url| ==> k + 3 <= |url| && url[k] == ':' && url[k + 1] == '/' && url[k + 2] == '/'
  {
    if |url| < 3 then |url|
    else if url[0] == ':' && url[1] == '/' && url[2] == '/' then 0
    else 1 + SchemeEnd(url[1..])
  }

  /** What follows "://". */
  function Authority(url: string): string {
    if SchemeEnd(url) < |url| then url[SchemeEnd(url) + 3..] else ""
  }

  /** The urls build_request takes; for the others it exits. */
  predicate Usable(url: string, direct: bool) {
    && SchemeEnd(url) < |url| && |url| <= MAX_URL
    && (direct ==> StartsNoCase(url, "http://"))
    && '/' in Authority(url)
  }

  /** The host, without a port. */
  function HostOf(url: string): string {
    Authority(url)[..FirstOf(Authority(url), ":/")]
  }

  function PortText(url: string): string {
    var a := Authority(url);
    var c, p := FirstOf(a, ":"), FirstOf(a, "/");
    if c < p then a[c + 1..p] else ""
  }

  function UrlPath(url: string): string {
    FromSlash(Authority(url))
  }

  function VersionText(level: int): string {
    if level == 1 then " HTTP/1.0" else if level == 2 then " HTTP/1.1" else ""
  }

  function Target(s: Settings, url: string): string {
    if s.proxy.None? then UrlPath(url) else url
  }

  /** Everything in front of the first CR LF. */
  function FirstLine(s: Settings, url: string): string {
    VerbText(s.verb) + " " + Target(s, url) + VersionText(Level(s))
  }

  const AGENT_LINE := "User-Agent: WebBench 1.5"
  const PRAGMA_LINE := "Pragma: no-cache"
  const CLOSE_LINE := "Connection: close"

  function HostLine(url: string): string {
    "Host: " + HostOf(url)
  }

  function When(b: bool, line: string): seq<string> {
    if b then [line] else []
  }

  /** The header lines. */
  function HeadersOf(s: Settings, url: string): seq<string> {
    When(Level(s) > 0, AGENT_LINE)
    + When(s.proxy.None? && Level(s) > 0, HostLine(url))
    + When(s.reload && s.proxy.Some?, PRAGMA_LINE)
    + When(Level(s) > 1, CLOSE_LINE)
  }

  /** The request as a text. */
  function RequestText(s: Settings, url: string): string {
    FirstLine(s, url) + CRLF + Lines(HeadersOf(s, url)) + if Level(s) > 0 then CRLF else ""
  }

  // ---------------------------------------------------------------- what the server reads

  lemma FixedTexts()
    ensures NoBlank("WebBench") && NoBlank("close")
  {
  }

  lemma ReadsAgent(h: Headers)
    ensures ReadHeader(h, AGENT_LINE) == Some(h.(fields := h.fields[UserAgent := "WebBench"]))
  {
    hide ReadHeader, SkipBlanks, FirstToken, NoBlank;
    assert NoBlank("WebBench") by { FixedTexts(); }
    assert NAMES[1] == (UserAgent, "User-Agent");
    EqNoCaseSelf("User-Agent");
    ReadsField(h, 1, "User-Agent", " " + "WebBench" + " 1.5");
    ValueIs("WebBench", " 1.5");
    assert "User-Agent" + ":" + (" " + "WebBench" + " 1.5") == AGENT_LINE;
  }

  lemma ReadsHost(h: Headers, host: string)
    requires NoBlank(host)
    ensures ReadHeader(h, "Host: " + host) == Some(h.(fields := h.fields[Host := host]))
  {
    hide ReadHeader, SkipBlanks, FirstToken;
    assert NAMES[0] == (Host, "Host");
    EqNoCaseSelf("Host");
    ReadsField(h, 0, "Host", " " + host + "");
    ValueIs(host, "");
    assert "Host" + ":" + (" " + host + "") == "Host: " + host;
  }

  lemma ReadsPragma(h: Headers)
    ensures ReadHeader(h, PRAGMA_LINE) == Some(h)
  {
    hide FirstOf, SkipBlanks, FieldIn, EqNoCase, NAMES;
    var line := "Pragma" + ":" + " no-cache";
    HeaderLineIs("Pragma", " no-cache");
    EqNoCaseAt("Pragma", "Connection", 0);
    EqNoCaseAt("Pragma", "Content-length", 0);
    forall n | n in NAMES
      ensures !Named(line, n.1)
    {
      NotPragma(n);
    }
    NoField(NAMES, line);
    assert PRAGMA_LINE == line;
  }

  lemma NotPragma(n: (Field, string))
    requires n in NAMES
    ensures !EqNoCase("Pragma", n.1)
  {
    hide EqNoCase;
    EqNoCaseAt("Pragma", n.1, 0);
    assert "Pragma"[0] == 'P' && "Origin"[0] == 'O' && "Accept"[0] == 'A';
  }

  lemma {:induction false} NoField(names: seq<(Field, string)>, line: string)
    requires forall n :: n in names ==> !Named(line, n.1)
    ensures FieldIn(names, line) == None
  {
    hide Named;
    if names != [] {
      NoField(names[1..], line);
    }
  }

  lemma ReadsClose(h: Headers)
    ensures ReadHeader(h, CLOSE_LINE) == Some(h.(linger := false))
  {
    hide ReadHeader, SkipBlanks, NoBlank;
    assert NoBlank("close") by { FixedTexts(); }
    ReadsConnection(h, " " + "close" + "");
    ValueIs("close", "");
    assert "close" + "" == "close" && "close"[..5] == "close";
    assert "Connection" + ":" + (" " + "close" + "") == CLOSE_LINE;
  }

  lemma {:induction false} SchemeEndIs(url: string, k: nat)
    requires k + 3 <= |url| && url[k] == ':' && url[k + 1] == '/' && url[k + 2] == '/'
    requires forall j :: 0 <= j < k ==> url[j] != ':'
    ensures SchemeEnd(url) == k
  {
    if k > 0 {
      SchemeEndIs(url[1..], k - 1);
    }
  }

  lemma SchemeIsHttp(url: string)
    requires StartsNoCase(url, "http://")
    ensures 7 <= |url| && (url[0] == 'h' || url[0] == 'H') && SchemeEnd(url) == 4
  {
    var p := "http://";
    forall j | 0 <= j < 7
      ensures Lower(url[j]) == Lower(p[j])
    {
      assert url[..7][j] == url[j];
    }
    assert p[4] == ':' && p[5] == '/' && p[6] == '/' && p[0] == 'h' && p[1] == 't' && p[2] == 't' && p[3] == 'p';
    hide StartsNoCase, SchemeEnd;
    assert url[4] == ':' && url[5] == '/' && url[6] == '/';
    SchemeEndIs(url, 4);
  }

  /** An http url keeps its path whether the server strips it or webbench does. */
  lemma HttpUrl(url: string)
    requires StartsNoCase(url, "http://") && '/' in Authority(url)
    ensures PathOf(url) == Some(UrlPath(url)) && PathOf(UrlPath(url)) == Some(UrlPath(url))
  {
    hide FirstOf, SchemeEnd, EqNoCase;
    SchemeIsHttp(url);
    assert Authority(url) == url[7..];
    assert '/' == "/"[0];
    assert UrlPath(url) != "" && UrlPath(url)[0] == '/';
    PathOfPath(UrlPath(url));
  }

  /** What the server keeps of an HTTP/1.1 request of webbench. */
  function Expected(s: Settings, url: string, errno: int): Headers {
    var agent: map<Field, string> := map[UserAgent := "WebBench"];
    Headers(false, 0, errno, if s.proxy.None? then agent[Host := HostOf(url)] else agent)
  }

  lemma FoldsExpected(s: Settings, url: string, errno: int)
    requires Level(s) == 2 && NoBlank(HostOf(url))
    ensures FoldHeaders(FreshHeaders(errno), HeadersOf(s, url)) == Some(Expected(s, url, errno))
  {
    hide ReadHeader, FoldHeaders, Level, HostOf, NoBlank;
    var h := FreshHeaders(errno);
    var a := When(true, AGENT_LINE);
    var b := When(s.proxy.None?, HostLine(url));
    var c := When(s.reload && s.proxy.Some?, PRAGMA_LINE);
    var d := When(true, CLOSE_LINE);
    assert HeadersOf(s, url) == a + b + c + d;
    var h1 := h.(fields := h.fields[UserAgent := "WebBench"]);
    var h2 := if s.proxy.None? then h1.(fields := h1.fields[Host := HostOf(url)]) else h1;
    ReadsAgent(h);
    ReadsHost(h1, HostOf(url));
    ReadsPragma(h2);
    ReadsClose(h2);
    FoldWhen(h, true, AGENT_LINE);
    FoldWhen(h1, s.proxy.None?, HostLine(url));
    FoldWhen(h2, s.reload && s.proxy.Some?, PRAGMA_LINE);
    FoldWhen(h2, true, CLOSE_LINE);
    FoldAppend(h, a, b);
    FoldAppend(h, a + b, c);
    FoldAppend(h, a + b + c, d);
  }

  lemma FoldWhen(h: Headers, b: bool, line: string)
    ensures FoldHeaders(h, When(b, line)) == if b then ReadHeader(h, line) else Some(h)
  {
    hide ReadHeader;
    OneLine(line, h);
  }

  lemma FixedLines()
    ensures Clean(AGENT_LINE) && |AGENT_LINE| == 24
  {
  }

  lemma FixedLines2()
    ensures Clean(PRAGMA_LINE) && |PRAGMA_LINE| == 16
    ensures Clean(CLOSE_LINE) && |CLOSE_LINE| == 17
  {
  }

  lemma FixedLines3()
    ensures Clean("Host: ") && Clean(" HTTP/1.1") && Clean(" HTTP/1.0") && Clean("")
  {
  }

  lemma CleanJoin(a: string, b: string)
    requires Clean(a) && Clean(b)
    ensures Clean(a + b)
  {
  }

  /** The header lines are clean; every line, with its ending, is at least nine bytes shorter
      than the whole message. */
  lemma HeadersClean(s: Settings, url: string)
    requires Level(s) == 2 && NoBlank(HostOf(url))
    ensures HeaderLines(HeadersOf(s, url))
    ensures |Lines(HeadersOf(s, url))| >= 45
    ensures forall l :: l in HeadersOf(s, url) ==> |l| + 19 <= |Lines(HeadersOf(s, url))|
  {
    hide Level, HostOf, NoBlank, Clean, Lines;
    FixedLines();
    FixedLines2();
    assert Clean(HostLine(url)) by {
      FixedLines3();
      BlanklessIsClean(HostOf(url));
      CleanJoin("Host: ", HostOf(url));
    }
    var a := When(true, AGENT_LINE);
    var b := When(s.proxy.None?, HostLine(url));
    var c := When(s.reload && s.proxy.Some?, PRAGMA_LINE);
    var d := When(true, CLOSE_LINE);
    assert HeadersOf(s, url) == a + b + c + d;
    LinesOfFour(a, b, c, d);
    LinesWhen(true, AGENT_LINE);
    LinesWhen(s.proxy.None?, HostLine(url));
    LinesWhen(s.reload && s.proxy.Some?, PRAGMA_LINE);
    LinesWhen(true, CLOSE_LINE);
  }

  lemma PartBlankless(t: string, url: string)
    requires NoBlank(url) && forall c :: c in t ==> c in url
    ensures NoBlank(t)
  {
  }

  lemma BlanklessIsClean(t: string)
    requires NoBlank(t)
    ensures Clean(t)
  {
  }

  lemma LinesWhen(b: bool, line: string)
    ensures Lines(When(b, line)) == if b then line + CRLF else ""
  {
    OneLine(line, FreshHeaders(0));
  }

  lemma RequestIsMessage(s: Settings, url: string)
    requires Level(s) > 0
    ensures RequestText(s, url) == HeadText(FirstLine(s, url), HeadersOf(s, url))
  {
  }

  function VerbOf(m: BenchMethod): Option<Method> {
    match m
    case BenchGet => Some(GET)
    case BenchHead => Some(HEAD)
    case _ => None
  }

  lemma VerbsKnown(m: BenchMethod)
    ensures MethodOf(VerbText(m)) == VerbOf(m)
    ensures Clean(VerbText(m)) && ' ' !in VerbText(m)
  {
    EqNoCaseAt(VerbText(m), "GET", 0);
    EqNoCaseAt(VerbText(m), "POST", 0);
    EqNoCaseAt(VerbText(m), "HEAD", 0);
  }

  /** The request line as the server reads it: known exactly for GET and HEAD in HTTP/1.1 with a
      target it can take the path of. */
  lemma ReadsFirstLine(s: Settings, url: string)
    requires NoBlank(url)
    ensures Clean(FirstLine(s, url))
    ensures ReadRequestLine(FirstLine(s, url)) ==
            if Level(s) == 2 && VerbOf(s.verb).Some? && PathOf(Target(s, url)).Some?
            then Some(RequestLine(VerbOf(s.verb).value, UrlOf(PathOf(Target(s, url)).value))) else None
  {
    hide Level, VerbText, VerbOf, MethodOf, PathOf, UrlOf, UrlPath, FirstOf, EqNoCase, StartsNoCase, Clean, Authority;
    var verb, target := VerbText(s.verb), Target(s, url);
    VerbsKnown(s.verb);
    UrlParts(url);
    PartBlankless(target, url);
    assert ' ' !in target;
    FixedLines3();
    BlanklessIsClean(target);
    CleanJoin(verb, " ");
    CleanJoin(verb + " ", target);
    CleanJoin(verb + " " + target, VersionText(Level(s)));
    if Level(s) == 1 || Level(s) == 2 {
      var version := if Level(s) == 2 then "HTTP/1.1" else "HTTP/1.0";
      assert VersionText(Level(s)) == " " + version;
      assert FirstLine(s, url) == verb + " " + target + " " + version;
      ReadRequestLineIs(verb, target, version);
      EqNoCaseSelf("HTTP/1.1");
      EqNoCaseAt("HTTP/1.0", "HTTP/1.1", 7);
    } else {
      assert FirstLine(s, url) == verb + " " + target;
      NoVersion(verb, target);
    }
  }

  /** Path and host are cut out of the url. */
  lemma UrlParts(url: string)
    ensures forall c :: c in UrlPath(url) || c in HostOf(url) ==> c in url
  {
    hide FirstOf, SchemeEnd;
    assert forall c :: c in Authority(url) ==> c in url;
  }

  lemma NoVersion(name: string, target: string)
    requires ' ' !in name && ' ' !in target
    ensures ReadRequestLine(name + " " + target) == None
  {
    hide FirstOf, MethodOf, PathOf, EqNoCase;
    var line := name + " " + target;
    FirstOfIs(line, " ", |name|);
    FirstOfIs(target, " ", |target|);
    assert line[|name| + 1..] == target;
  }

  /** The server accepts what webbench prints exactly when it is a GET or a HEAD in HTTP/1.1 and the
      target has a path for it, whether its byte count is right or short by what read_ loses; and then
      it recovers the method, the path, the end of the connection and, without a proxy, the host. By
      HttpUrl the path of an http url is the same in both forms. */
  lemma RequestRoundTrip(s: Settings, url: string, limit: int, errno: int)
    requires Usable(url, s.proxy.None?) && NoBlank(url)
    requires |RequestText(s, url)| - MISCOUNT <= limit <= |RequestText(s, url)|
    ensures ReadMessage(RequestText(s, url), limit, errno) ==
            if Level(s) == 2 && VerbOf(s.verb).Some? && PathOf(Target(s, url)).Some?
            then Accepted(Request(VerbOf(s.verb).value, UrlOf(PathOf(Target(s, url)).value), Expected(s, url, errno), None))
            else Rejected
  {
    hide Level, VerbOf, ReadRequestLine, ReadMessage, FirstLine, HeadersOf, Lines, FoldHeaders, StartsNoCase, Authority,
      PathOf, Target, UrlOf, HostOf, NoBlank, Clean;
    ReadsFirstLine(s, url);
    var first, ls := FirstLine(s, url), HeadersOf(s, url);
    if Level(s) == 2 && VerbOf(s.verb).Some? && PathOf(Target(s, url)).Some? {
      UrlParts(url);
      PartBlankless(HostOf(url), url);
      HeadersClean(s, url);
      FoldsExpected(s, url, errno);
      RequestIsMessage(s, url);
      assert RequestText(s, url) + "" == RequestText(s, url);
      MessageComplete(first, ls, "", limit, errno);
    } else {
      UnknownRejected(first, Lines(ls) + (if Level(s) > 0 then CRLF else ""), limit, errno);
      assert RequestText(s, url) == first + CRLF + (Lines(ls) + (if Level(s) > 0 then CRLF else ""));
    }
  }

  /** With an http url the target always has a path, and the same one with a proxy or without. */
  lemma HttpAccepted(s: Settings, url: string)
    requires StartsNoCase(url, "http://") && Usable(url, s.proxy.None?)
    ensures PathOf(Target(s, url)) == Some(UrlPath(url))
  {
    hide StartsNoCase, Authority, UrlPath, PathOf;
    HttpUrl(url);
  }

  lemma UnknownRejected(first: string, rest: string, limit: int, errno: int)
    requires Clean(first) && ReadRequestLine(first).None? && limit <= |first| + 2 + |rest|
    ensures ReadMessage(first + CRLF + rest, limit, errno) == Rejected
  {
    hide ReadRequestLine, ReadHeaders, Clean;
    TakeLineIs(first, rest, limit);
  }

  lemma LinesOfFour(a: seq<string>, b: seq<string>, c: seq<string>, d: seq<string>)
    ensures Lines(a + b + c + d) == Lines(a) + Lines(b) + Lines(c) + Lines(d)
  {
    hide Lines;
    LinesAppend(a, b);
    LinesAppend(a + b, c);
    LinesAppend(a + b + c, d);
  }

  lemma RequestParts(s: Settings, url: string)
    ensures var a := Lines(When(Level(s) > 0, AGENT_LINE));
            var b := Lines(When(s.proxy.None? && Level(s) > 0, HostLine(url)));
            var c := Lines(When(s.reload && s.proxy.Some?, PRAGMA_LINE));
            var d := Lines(When(Level(s) > 1, CLOSE_LINE));
            RequestText(s, url) == FirstLine(s, url) + CRLF + a + b + c + d + (if Level(s) > 0 then CRLF else "")
  {
    hide FirstLine, HostLine, Level, Lines, When;
    LinesOfFour(When(Level(s) > 0, AGENT_LINE), When(s.proxy.None? && Level(s) > 0, HostLine(url)),
                When(s.reload && s.proxy.Some?, PRAGMA_LINE), When(Level(s) > 1, CLOSE_LINE));
  }

  // ---------------------------------------------------------------- urls and texts, written out

  /** A url takes apart into what it was made of. */
  lemma UrlWithPort(scheme: string, host: string, port: string, path: string)
    requires EqNoCase(scheme, "http://") && ':' !in host && '/' !in host && '/' !in port && path != "" && path[0] == '/'
    ensures var url := scheme + host + ":" + port + path;
            && Authority(url) == host + ":" + port + path
            && HostOf(url) == host && PortText(url) == port && UrlPath(url) == path
  {
    hide FirstOf, SchemeEnd, StartsNoCase, EqNoCase;
    var a := host + ":" + port + path;
    var url := scheme + host + ":" + port + path;
    EqLength(scheme, "http://");
    assert url == scheme + a && url[..7] == scheme && url[7..] == a;
    assert StartsNoCase(url, "http://") by { Starts(url, scheme, "http://"); }
    SchemeIsHttp(url);
    assert ":/"[0] == ':' && ":/"[1] == '/' && ":"[0] == ':' && "/"[0] == '/';
    assert forall j :: 0 <= j < |host| ==> a[j] == host[j];
    FirstOfIs(a, ":", |host|);
    FirstOfIs(a, ":/", |host|);
    var before := host + ":" + port;
    assert a == before + path && '/' !in before;
    assert forall j :: 0 <= j < |before| ==> a[j] == before[j];
    FirstOfIs(a, "/", |before|);
    assert a[..|host|] == host && a[|host| + 1..|before|] == port && a[|before|..] == path;
  }

  lemma UrlWithoutPort(scheme: string, host: string, path: string)
    requires EqNoCase(scheme, "http://") && ':' !in host && '/' !in host && path != "" && path[0] == '/'
    ensures var url := scheme + host + path;
            && Authority(url) == host + path && FirstOf(host + path, "/") == |host| < FirstOf(host + path, ":")
            && HostOf(url) == host && PortText(url) == "" && UrlPath(url) == path
  {
    hide FirstOf, SchemeEnd, StartsNoCase, EqNoCase;
    var a := host + path;
    var url := scheme + host + path;
    EqLength(scheme, "http://");
    assert url == scheme + a && url[..7] == scheme && url[7..] == a;
    assert StartsNoCase(url, "http://") by { Starts(url, scheme, "http://"); }
    SchemeIsHttp(url);
    assert ":/"[0] == ':' && ":/"[1] == '/' && ":"[0] == ':' && "/"[0] == '/';
    assert forall j :: 0 <= j < |host| ==> a[j] == host[j];
    FirstOfIs(a, ":/", |host|);
    FirstOfIs(a, "/", |host|);
    assert forall j :: 0 <= j <= |host| ==> a[j] != ':';
    ColonBehind(a, |host|);
    assert a[..|host|] == host && a[|host|..] == path;
  }

  lemma ColonBehind(a: string, n: nat)
    requires n < |a| && forall j :: 0 <= j <= n ==> a[j] != ':'
    ensures FirstOf(a, ":") > n
  {
    assert ":"[0] == ':';
    hide FirstOf;
  }

  lemma Starts(url: string, scheme: string, prefix: string)
    requires |scheme| == |prefix| <= |url| && url[..|scheme|] == scheme && EqNoCase(scheme, prefix)
    ensures StartsNoCase(url, prefix)
  {
  }

  /** Which urls are taken: those with "://" and a slash behind it, of at most 1500 bytes, and without a
      proxy only http ones. */
  lemma UsableUrls(scheme: string, rest: string, direct: bool)
    requires ':' !in scheme
    ensures Usable(scheme + "://" + rest, direct) <==>
            '/' in rest && |scheme + "://" + rest| <= 1500 && (direct ==> EqNoCase(scheme, "http"))
  {
    hide SchemeEnd;
    var url := scheme + "://" + rest;
    assert "://"[0] == ':' && "://"[1] == '/' && "://"[2] == '/';
    assert forall j :: 0 <= j < |scheme| ==> url[j] == scheme[j] && scheme[j] in scheme;
    SchemeEndIs(url, |scheme|);
    assert Authority(url) == rest;
    HttpScheme(scheme, rest);
  }

  lemma HttpScheme(scheme: string, rest: string)
    requires ':' !in scheme
    ensures StartsNoCase(scheme + "://" + rest, "http://") <==> EqNoCase(scheme, "http")
  {
    var url, p := scheme + "://" + rest, "http://";
    assert p[0] == 'h' && p[1] == 't' && p[2] == 't' && p[3] == 'p' && p[4] == ':' && p[5] == '/' && p[6] == '/';
    assert forall j :: 0 <= j < |scheme| ==> url[j] == scheme[j] && scheme[j] in scheme;
    assert url[|scheme|] == ':';
    if EqNoCase(scheme, "http") {
      assert url[..7] == scheme + "://";
    }
    if StartsNoCase(url, p) {
      assert forall j :: 0 <= j < 7 ==> Lower(url[j]) == Lower(p[j]) by { assert forall j :: 0 <= j < 7 ==> url[..7][j] == url[j]; }
      assert url[4] == ':';
      assert |scheme| == 4 by { ColonAt(url, scheme, p); }
    }
  }

  lemma ColonAt(url: string, scheme: string, p: string)
    requires |p| == 7 && |url| >= 7 && |scheme| < |url| && p == "http://"
    requires forall j :: 0 <= j < 7 ==> Lower(url[j]) == Lower(p[j])
    requires forall j :: 0 <= j < |scheme| ==> url[j] != ':'
    requires url[|scheme|] == ':'
    ensures |scheme| == 4
  {
    assert p[0] == 'h' && p[1] == 't' && p[2] == 't' && p[3] == 'p' && p[4] == ':';
  }

  /** Without "://" a url is not taken. */
  lemma {:induction false} NoScheme(url: string)
    requires forall k :: 0 <= k <= |url| - 3 ==> !(url[k] == ':' && url[k + 1] == '/' && url[k + 2] == '/')
    ensures SchemeEnd(url) == |url| && !Usable(url, true) && !Usable(url, false)
  {
    if |url| >= 3 {
      forall k | 0 <= k <= |url[1..]| - 3
        ensures !(url[1..][k] == ':' && url[1..][k + 1] == '/' && url[1..][k + 2] == '/')
      {
        assert url[k + 1] == url[1..][k] && url[k + 2] == url[1..][k + 1] && url[k + 3] == url[1..][k + 2];
      }
      NoScheme(url[1..]);
    }
  }

  /** What stands between method and version: the path of a direct request, the whole url of a proxied. */
  lemma RequestLines(s: Settings, scheme: string, host: string, path: string)
    requires EqNoCase(scheme, "http://") && ':' !in host && '/' !in host && path != "" && path[0] == '/'
    ensures FirstLine(s, scheme + host + path) ==
            VerbText(s.verb) + " " + (if s.proxy.None? then path else scheme + host + path) + VersionText(Level(s))
  {
    hide HostOf, PortText, Authority, UrlPath, Level, VerbText, VersionText, EqNoCase;
    UrlWithoutPort(scheme, host, path);
  }

  /** The words of the request line. */
  lemma Words(s: Settings)
    requires 0 <= s.http10 <= 2
    ensures VerbText(s.verb) ==
            if s.verb == BenchHead then "HEAD" else if s.verb == BenchOptions then "OPTIONS"
            else if s.verb == BenchTrace then "TRACE" else "GET"
    ensures VersionText(Level(s)) ==
            if s.http10 == 2 || s.verb == BenchOptions || s.verb == BenchTrace then " HTTP/1.1"
            else if s.http10 == 1 || s.verb == BenchHead || (s.reload && s.proxy.Some?) then " HTTP/1.0"
            else ""
  {
  }

  lemma LineTexts()
    ensures AGENT_LINE + CRLF == "User-Agent: WebBench 1.5\r\n"
  {
  }

  lemma LineTexts2()
    ensures PRAGMA_LINE + CRLF == "Pragma: no-cache\r\n"
    ensures CLOSE_LINE + CRLF == "Connection: close\r\n"
  {
  }

  /** What follows the request line: nothing in HTTP/0.9; then the agent, the host for a direct request,
      the pragma for a reload through a proxy, in HTTP/1.1 the wish to close, and the empty line. */
  lemma HeaderTexts(s: Settings, url: string)
    requires 0 <= s.http10 <= 2
    ensures var one := s.http10 == 2 || s.verb == BenchOptions || s.verb == BenchTrace;
            var some := one || s.http10 == 1 || s.verb == BenchHead || (s.reload && s.proxy.Some?);
            RequestText(s, url) == FirstLine(s, url) + CRLF +
              (if some then "User-Agent: WebBench 1.5\r\n" else "") +
              (if some && s.proxy.None? then HostLine(url) + CRLF else "") +
              (if s.reload && s.proxy.Some? then "Pragma: no-cache\r\n" else "") +
              (if one then "Connection: close\r\n" else "") +
              (if some then CRLF else "")
  {
    RequestParts(s, url);
    LinesWhen(Level(s) > 0, AGENT_LINE);
    LinesWhen(s.proxy.None? && Level(s) > 0, HostLine(url));
    LinesWhen(s.reload && s.proxy.Some?, PRAGMA_LINE);
    LinesWhen(Level(s) > 1, CLOSE_LINE);
    LineTexts();
    LineTexts2();
    hide HostLine, FirstLine, RequestText, Lines, When, AGENT_LINE, PRAGMA_LINE, CLOSE_LINE;
  }

  lemma PartSizes(s: Settings, url: string)
    ensures |Lines(When(Level(s) > 0, AGENT_LINE))| <= 26
    ensures |Lines(When(s.proxy.None? && Level(s) > 0, HostLine(url)))| <= if s.proxy.None? then |HostOf(url)| + 8 else 0
    ensures |Lines(When(s.reload && s.proxy.Some?, PRAGMA_LINE))| <= 18
    ensures |Lines(When(Level(s) > 1, CLOSE_LINE))| <= 19
    ensures NUL !in AGENT_LINE && NUL !in PRAGMA_LINE && NUL !in CLOSE_LINE && NUL !in CRLF
  {
    hide HostOf, Level, Lines;
    FixedLines();
    FixedLines2();
    LinesWhen(Level(s) > 0, AGENT_LINE);
    LinesWhen(s.proxy.None? && Level(s) > 0, HostLine(url));
    LinesWhen(s.reload && s.proxy.Some?, PRAGMA_LINE);
    LinesWhen(Level(s) > 1, CLOSE_LINE);
  }

  lemma AuthorityPart(url: string)
    ensures |Authority(url)| <= |url| && |UrlPath(url)| <= |Authority(url)|
    ensures NUL !in url ==> NUL !in Authority(url) && NUL !in UrlPath(url)
    ensures '/' in Authority(url) ==> SchemeEnd(url) < |url|
  {
    hide FirstOf, SchemeEnd;
  }

  lemma ColonOrSlash(a: string)
    ensures FirstOf(a, ":/") == if FirstOf(a, ":") < FirstOf(a, "/") then FirstOf(a, ":") else FirstOf(a, "/")
    ensures FirstOf(a, ":/") <= |a|
  {
    hide FirstOf;
    var c, p := FirstOf(a, ":"), FirstOf(a, "/");
    FirstOfIs(a, ":/", if c < p then c else p);
  }

  lemma VerbsPrintable(m: BenchMethod, level: int)
    ensures NUL !in VerbText(m) && |VerbText(m)| <= 7
    ensures NUL !in VersionText(level) && |VersionText(level)| <= 9
    ensures NUL !in CRLF && NUL !in " "
  {
  }

  // ---------------------------------------------------------------- the printer

  class Bench {
    var http10: int
    var verb: BenchMethod
    var force_reload: bool
    var proxyhost: Option<string>
    var proxyport: int
    const host: array<char>
    const request: array<char>

    function Options(): Settings
      reads `http10, `verb, `force_reload, `proxyhost
    {
      Settings(http10, verb, force_reload, proxyhost)
    }

    ghost predicate Buffers() {
      host.Length == MAXHOSTNAMELEN && request.Length == REQUEST_SIZE && host != request
    }

    constructor (s: Settings)
      ensures Buffers() && fresh(host) && fresh(request) && Options() == s && proxyport == 80
      ensures host.Length == 64 && request.Length == 2048
    {
      http10, verb, force_reload, proxyhost, proxyport := s.http10, s.verb, s.reload, s.proxy, 80;
      var h, r := new char[MAXHOSTNAMELEN], new char[REQUEST_SIZE];
      host, request := h, r;
    }

    /** The options that force a higher version. */
    method RaiseVersion()
      modifies `http10
      ensures http10 == Level(old(Options()))
    {
      if force_reload && proxyhost.Some? && http10 < 1 {
        http10 := 1;
      }
      if verb == BenchHead && http10 < 1 {
        http10 := 1;
      }
      if verb == BenchOptions && http10 < 2 {
        http10 := 2;
      }
      if verb == BenchTrace && http10 < 2 {
        http10 := 2;
      }
    }

    /** Host and port of the url, for a direct request. */
    method TakeHost(url: string)
      requires Buffers() && forall k :: 0 <= k < MAXHOSTNAMELEN ==> host[k] == NUL
      requires NUL !in url && '/' in Authority(url) && |HostOf(url)| < MAXHOSTNAMELEN && |PortText(url)| < 10
      modifies host, `proxyport
      ensures Spells(host[..], 0, HostOf(url))
      ensures var port := AsInt(Strtol(PortText(url)).0);
              var a := Authority(url);
              proxyport == if FirstOf(a, ":") < FirstOf(a, "/") then (if port == 0 then 80 else port) else old(proxyport)
    {
      hide FirstOf, Authority, Strtol, AsInt;
      var a := Authority(url);
      AuthorityPart(url);
      ColonOrSlash(a);
      if FirstOf(a, ":") < |a| && FirstOf(a, ":") < FirstOf(a, "/") {
        StrNCpy(host, 0, a, FirstOf(a, ":"));
        proxyport := AsInt(Strtol(a[FirstOf(a, ":") + 1..FirstOf(a, "/")]).0);
        if proxyport == 0 {
          proxyport := 80;
        }
      } else {
        StrNCpy(host, 0, a, FirstOf(a, "/"));
      }
    }

    /** strcat of a header line and its ending. */
    method AddLine(ghost text: string, when: bool, line: string)
      requires Buffers() && Spells(request[..], 0, text) && NUL !in line && |text| + |line| + 2 < REQUEST_SIZE
      modifies request
      ensures Spells(request[..], 0, text + Lines(When(when, line)))
    {
      hide Spells;
      LinesWhen(when, line);
      assert CRLF[0] != NUL && CRLF[1] != NUL;
      if when {
        StrCat(request, 0, text, line);
        StrCat(request, 0, text + line, CRLF);
        assert text + line + CRLF == text + (line + CRLF);
      } else {
        assert text + "" == text;
      }
    }

    /** build_request: false where the source exits. */
    method BuildRequest(url: string) returns (ok: bool)
      requires Buffers() && NUL !in url
      requires proxyhost.None? ==> |HostOf(url)| < MAXHOSTNAMELEN && |PortText(url)| < 10
      modifies `http10, `proxyport, host, request
      ensures ok <==> Usable(url, proxyhost.None?)
      ensures http10 == Level(old(Options()))
      ensures ok ==> Spells(request[..], 0, RequestText(old(Options()), url))
    {
      hide FirstOf, Authority, StartsNoCase, Level, SchemeEnd, Spells, HostOf, UrlPath;
      ghost var s := Options();
      StrNCpy(host, 0, "", MAXHOSTNAMELEN);
      StrNCpy(request, 0, "", REQUEST_SIZE);
      RaiseVersion();
      if SchemeEnd(url) == |url| {
        return false;
      }
      if |url| > MAX_URL {
        return false;
      }
      if proxyhost.None? {
        if !StartsNoCase(url, "http://") {
          return false;
        }
      }
      if '/' !in Authority(url) {
        return false;
      }
      AuthorityPart(url);
      PrintFirst(url, s);
      PrintHeaders(url, s);
      return true;
    }

    /** Method, target and version. */
    method PrintFirst(url: string, ghost s: Settings)
      requires Buffers() && NUL !in url && |url| <= MAX_URL && '/' in Authority(url)
      requires s.verb == verb && s.proxy == proxyhost && http10 == Level(s)
      requires proxyhost.None? ==> |HostOf(url)| < MAXHOSTNAMELEN && |PortText(url)| < 10
      requires forall k :: 0 <= k < MAXHOSTNAMELEN ==> host[k] == NUL
      modifies request, host, `proxyport
      ensures Spells(request[..], 0, FirstLine(s, url) + CRLF) && |FirstLine(s, url)| <= 1520
      ensures proxyhost.None? ==> Spells(host[..], 0, HostOf(url)) && |HostOf(url)| < MAXHOSTNAMELEN
    {
      hide FirstOf, Authority, Level, Spells, HostOf, UrlPath, SchemeEnd, PortText, VerbText, VersionText;
      AuthorityPart(url);
      VerbsPrintable(verb, http10);
      StrCpy(request, 0, VerbText(verb));
      StrCat(request, 0, VerbText(verb), " ");
      if proxyhost.None? {
        TakeHost(url);
        StrCat(request, 0, VerbText(verb) + " ", UrlPath(url));
      } else {
        StrCat(request, 0, VerbText(verb) + " ", url);
      }
      StrCat(request, 0, VerbText(verb) + " " + Target(s, url), VersionText(http10));
      StrCat(request, 0, FirstLine(s, url), CRLF);
    }

    /** The Host line, from the host buffer. */
    method AddHost(url: string, ghost text: string, when: bool)
      requires Buffers() && Spells(request[..], 0, text) && |text| + 100 < REQUEST_SIZE
      requires when ==> Spells(host[..], 0, HostOf(url)) && |HostOf(url)| < MAXHOSTNAMELEN
      modifies request
      ensures Spells(request[..], 0, text + Lines(When(when, HostLine(url))))
    {
      hide HostOf, CStr, Lines;
      LinesWhen(when, HostLine(url));
      if when {
        FixedLines3();
        SpellsCStr(host[..], 0, HostOf(url));
        AddLine(text, true, "Host: " + CStr(host[..], 0));
      } else {
        assert text + "" == text;
      }
    }

    /** The header lines and the empty line. */
    method PrintHeaders(url: string, ghost s: Settings)
      requires Buffers() && NUL !in url
      requires s.verb == verb && s.proxy == proxyhost && s.reload == force_reload && http10 == Level(s)
      requires Spells(request[..], 0, FirstLine(s, url) + CRLF) && |FirstLine(s, url)| <= 1520
      requires proxyhost.None? ==> Spells(host[..], 0, HostOf(url)) && |HostOf(url)| < MAXHOSTNAMELEN
      modifies request
      ensures Spells(request[..], 0, RequestText(s, url))
    {
      hide FirstLine, HostOf, Spells, Level, CStr, Lines, RequestText, Clean, When;
      ghost var t := FirstLine(s, url) + CRLF;
      RequestParts(s, url);
      PartSizes(s, url);
      AddLine(t, http10 > 0, AGENT_LINE);
      t := t + Lines(When(http10 > 0, AGENT_LINE));
      AddHost(url, t, proxyhost.None? && http10 > 0);
      t := t + Lines(When(proxyhost.None? && http10 > 0, HostLine(url)));
      AddLine(t, force_reload && proxyhost.Some?, PRAGMA_LINE);
      t := t + Lines(When(force_reload && proxyhost.Some?, PRAGMA_LINE));
      AddLine(t, http10 > 1, CLOSE_LINE);
      t := t + Lines(When(http10 > 1, CLOSE_LINE));
      if http10 > 0 {
        StrCat(request, 0, t, CRLF);
      } else {
        assert t + "" == t;
      }
    }
  }
}
