/** A pure reading of a request over the bytes as received: RFC 2616 sections 5.1, 5.1.2,
    4.2 and 4.4, with the liberties the server takes. Nothing here knows of buffers or indices. */
module MessageSpec {
  import opened CStrings
  import opened Numbers
  import opened Wrappers

  datatype Method = GET | POST | HEAD

  /** The header fields whose values the server keeps as pointers. */
  datatype Field =
    | Host | UserAgent | Origin | ContentType | Encoding | Upgrade | Accept | Referer | Language

  const EINVAL := 22
  const ERANGE := 34

  datatype Headers = Headers(linger: bool, contentLength: int, errno: int, fields: map<Field, string>)

  datatype Request = Request(verb: Method, url: string, headers: Headers, body: Option<string>)

  /** Misplaced: the body length is negative, so the source would write in front of the body. */
  datatype Outcome = Accepted(request: Request) | Rejected | Misplaced

  // ---------------------------------------------------------------- lines

  /** The line at the front of s, when s starts with one that ends in CR LF and holds no other
      CR, LF or NUL, and that is at most `limit` bytes long with its ending. */
  function TakeLine(s: string, limit: int): Option<string> {
    var k := FirstOf(s, "\r\n\0");
    if k + 1 < |s| && s[k] == CR && s[k + 1] == LF && k + 2 <= limit then Some(s[..k]) else None
  }

  lemma TakeLineIs(line: string, rest: string, limit: int)
    requires Clean(line)
    ensures TakeLine(line + CRLF + rest, limit) == if |line| + 2 <= limit then Some(line) else None
  {
    var s := line + CRLF + rest;
    assert s[..|line|] == line;
    assert forall j :: 0 <= j < |line| ==> s[j] == line[j];
    assert s[|line|] == CR && s[|line| + 1] == LF;
    FirstOfIs(s, "\r\n\0", |line|);
  }

  lemma TakeLineSound(s: string, limit: int)
    requires TakeLine(s, limit).Some?
    ensures var line := TakeLine(s, limit).value;
            Clean(line) && |line| + 2 <= |s| && |line| + 2 <= limit && s == line + CRLF + s[|line| + 2..]
  {
  }

  // ---------------------------------------------------------------- request line

  /** The path part of a request target: absolute http and https forms lose scheme and host. */
  function PathOf(target: string): (path: Option<string>)
    ensures path.Some? ==> path.value != "" && path.value[0] == '/'
  {
    var path :=
      if StartsNoCase(target, "http://") then FromSlash(target[7..])
      else if StartsNoCase(target, "https://") then FromSlash(target[8..])
      else target;
    if path != "" && path[0] == '/' then Some(path) else None
  }

  function FromSlash(s: string): (t: string)
    ensures |t| <= |s| && (t != "" ==> t[0] == '/')
  {
    s[FirstOf(s, "/")..]
  }

  /** The root path is served by the start page. */
  function UrlOf(path: string): string {
    if path == "/" then path + "judge.html" else path
  }

  function MethodOf(name: string): Option<Method> {
    if EqNoCase(name, "GET") then Some(GET)
    else if EqNoCase(name, "POST") then Some(POST)
    else if EqNoCase(name, "HEAD") then Some(HEAD)
    else None
  }

  datatype RequestLine = RequestLine(verb: Method, url: string)

  /** target SP HTTP-version: the url to serve. */
  function ReadTarget(s: string): Option<string> {
    var t := FirstOf(s, " ");
    if t == |s| then None else
      var path := PathOf(s[..t]);
      if path.Some? && EqNoCase(s[t + 1..], "HTTP/1.1") then Some(UrlOf(path.value)) else None
  }

  /** method SP target SP HTTP-version */
  function ReadRequestLine(line: string): Option<RequestLine> {
    var m := FirstOf(line, " ");
    if m == |line| then None else
      var verb, url := MethodOf(line[..m]), ReadTarget(line[m + 1..]);
      if verb.Some? && url.Some? then Some(RequestLine(verb.value, url.value)) else None
  }

  lemma ReadRequestLineIs(name: string, target: string, version: string)
    requires ' ' !in name && ' ' !in target
    ensures ReadRequestLine(name + " " + target + " " + version) ==
            if MethodOf(name).Some? && PathOf(target).Some? && EqNoCase(version, "HTTP/1.1")
            then Some(RequestLine(MethodOf(name).value, UrlOf(PathOf(target).value)))
            else None
  {
    hide FirstOf, MethodOf, PathOf, UrlOf, EqNoCase;
    var tail := target + " " + version;
    var line := name + " " + target + " " + version;
    assert line == name + " " + tail;
    FirstOfIs(line, " ", |name|);
    FirstOfIs(tail, " ", |target|);
    assert line[..|name|] == name && line[|name| + 1..] == tail;
    assert tail[..|target|] == target && tail[|target| + 1..] == version;
  }

  /** The three methods, in any letter case, are told apart; no other is known. */
  lemma ReadsVerb(name: string, target: string, path: string)
    requires ' ' !in name && ' ' !in target && PathOf(target) == Some(path)
    ensures var read := ReadRequestLine(name + " " + target + " HTTP/1.1");
            && (read == Some(RequestLine(GET, if path == "/" then "/judge.html" else path)) <==> EqNoCase(name, "GET"))
            && (read == Some(RequestLine(POST, if path == "/" then "/judge.html" else path)) <==> EqNoCase(name, "POST"))
            && (read == Some(RequestLine(HEAD, if path == "/" then "/judge.html" else path)) <==> EqNoCase(name, "HEAD"))
            && (read == None <==> !EqNoCase(name, "GET") && !EqNoCase(name, "POST") && !EqNoCase(name, "HEAD"))
  {
    hide FirstOf, PathOf, ReadRequestLine, EqNoCase;
    assert name + " " + target + " HTTP/1.1" == name + " " + target + " " + "HTTP/1.1";
    ReadRequestLineIs(name, target, "HTTP/1.1");
    EqNoCaseSelf("HTTP/1.1");
    VerbsApart(name);
    assert path == "/" ==> path + "judge.html" == "/judge.html";
  }

  lemma VerbsApart(name: string)
    ensures EqNoCase(name, "GET") ==> !EqNoCase(name, "POST") && !EqNoCase(name, "HEAD")
    ensures EqNoCase(name, "POST") ==> !EqNoCase(name, "HEAD")
  {
    hide EqNoCase;
    EqNoCaseAt(name, "GET", 0);
    EqNoCaseAt(name, "POST", 0);
    EqNoCaseAt(name, "HEAD", 0);
    assert "POST"[0] == 'P' && "HEAD"[0] == 'H';
  }

  /** A path stands for itself. */
  lemma PathOfPath(path: string)
    requires path != "" && path[0] == '/'
    ensures PathOf(path) == Some(path)
  {
    hide FirstOf;
    hide StartsNoCase;
    assert "http://"[0] == 'h' && "https://"[0] == 'h';
    if StartsNoCase(path, "http://") {
      StartsFirst(path, "http://");
    } else if StartsNoCase(path, "https://") {
      StartsFirst(path, "https://");
    }
  }

  /** An absolute form, http or https in any letter case, loses scheme and authority, and has a path
      only if something follows them. */
  lemma PathOfAbsolute(scheme: string, authority: string, path: string)
    requires EqNoCase(scheme, "http://") || EqNoCase(scheme, "https://")
    requires '/' !in authority && (path == "" || path[0] == '/')
    ensures PathOf(scheme + authority + path) == if path == "" then None else Some(path)
  {
    hide FirstOf, EqNoCase;
    var target, rest := scheme + authority + path, authority + path;
    assert target == scheme + rest;
    EqLength(scheme, if EqNoCase(scheme, "http://") then "http://" else "https://");
    assert target[..|scheme|] == scheme && target[|scheme|..] == rest;
    if !EqNoCase(scheme, "http://") {
      EqNoCaseAt(scheme, "https://", 4);
      EqNoCaseAt(target[..7], "http://", 4);
      assert "https://"[4] == 's' && "http://"[4] == ':';
    }
    assert "/"[0] == '/';
    FirstOfIs(rest, "/", |authority|);
    assert rest[|authority|..] == path;
  }

  /** Whatever else does not start with a slash has none. */
  lemma PathOfOther(target: string)
    requires !StartsNoCase(target, "http://") && !StartsNoCase(target, "https://")
    ensures PathOf(target).Some? <==> target != "" && target[0] == '/'
  {
  }

  // ---------------------------------------------------------------- header lines

  /** field-name ":" */
  predicate Named(line: string, name: string) {
    var k := FirstOf(line, ":");
    k < |line| && EqNoCase(line[..k], name)
  }

  function ValueText(line: string): string
    requires FirstOf(line, ":") < |line|
  {
    SkipBlanks(line[FirstOf(line, ":") + 1..])
  }

  const NAMES: seq<(Field, string)> := [
    (Host, "Host"), (UserAgent, "User-Agent"), (Origin, "Origin"), (ContentType, "Content-Type"),
    (Encoding, "Accept-Encoding"), (Upgrade, "Upgrade-Insecure-Requests"), (Accept, "Accept"),
    (Referer, "Referer"), (Language, "Accept_Language")]

  function FieldIn(names: seq<(Field, string)>, line: string): (f: Option<Field>)
    ensures f.Some? ==> FirstOf(line, ":") < |line|
  {
    if names == [] then None
    else if Named(line, names[0].1) then Some(names[0].0)
    else FieldIn(names[1..], line)
  }

  /** The field a header line is about. */
  function FieldOf(line: string): (f: Option<Field>)
    ensures f.Some? ==> FirstOf(line, ":") < |line|
  {
    FieldIn(NAMES, line)
  }

  function ReadHeader(h: Headers, line: string): Option<Headers> {
    if Named(line, "Connection") then
      Some(if StartsNoCase(ValueText(line), "close") then h.(linger := false) else h)
    else if Named(line, "Content-length") then
      var (v, overflow) := Strtol(ValueText(line));
      var errno := if overflow then ERANGE else h.errno;
      if errno == EINVAL then None else Some(h.(contentLength := AsInt(v), errno := errno))
    else match FieldOf(line)
      case Some(f) => Some(h.(fields := h.fields[f := FirstToken(ValueText(line))]))
      case None => Some(h)
  }

  /** Looking for a literal "name:" at the front of a line is the same as splitting the line at its
      first colon and comparing names. */
  lemma NamedByPrefix(line: string, name: string)
    requires ':' !in name
    ensures Named(line, name) <==> StartsNoCase(line, name + ":")
    ensures Named(line, name) ==> FirstOf(line, ":") == |name|
  {
    var p := name + ":";
    var k := FirstOf(line, ":");
    if StartsNoCase(line, p) {
      forall j | 0 <= j < |name|
        ensures Lower(line[j]) == Lower(name[j]) && line[j] != ':'
      {
        assert line[..|p|][j] == line[j] && p[j] == name[j];
      }
      assert line[..|p|][|name|] == line[|name|] && p[|name|] == ':';
      FirstOfIs(line, ":", |name|);
    }
    if Named(line, name) {
      assert forall j :: 0 <= j < k ==> line[..k][j] == line[j];
      assert forall j :: 0 <= j < k + 1 ==> line[..k + 1][j] == line[j];
      assert k == |name|;
      assert forall j :: 0 <= j < k ==> p[j] == name[j];
    }
  }

  /** A printed header line splits back at its first colon. */
  lemma HeaderLineIs(name: string, text: string)
    requires ':' !in name
    ensures var line := name + ":" + text;
            && FirstOf(line, ":") == |name| < |line|
            && (forall m :: Named(line, m) <==> EqNoCase(name, m))
            && ValueText(line) == SkipBlanks(text)
  {
    hide EqNoCase, SkipBlanks, FirstOf;
    var line := name + ":" + text;
    assert line[|name|] == ':';
    assert forall j :: 0 <= j < |name| ==> line[j] == name[j];
    FirstOfIs(line, ":", |name|);
    assert line[..|name|] == name && line[|name| + 1..] == text;
  }

  /** A value is recovered up to its first blank, whatever blank precedes and whatever follows it. */
  lemma ValueIs(value: string, rest: string)
    requires NoBlank(value) && (rest == "" || (value != "" && rest[0] in BLANKS))
    ensures FirstToken(SkipBlanks(" " + value + rest)) == value
    ensures value != "" ==> SkipBlanks(" " + value + rest) == value + rest
  {
    hide FirstOf, SpanOf;
    var s := " " + value + rest;
    assert BLANKS[0] == ' ' && BLANKS[1] == '\t';
    if value == "" {
      SpanOfIs(s, BLANKS, 1);
      FirstOfIs("", BLANKS, 0);
    } else {
      assert s[1] == value[0];
      SpanOfIs(s, BLANKS, 1);
      var t := value + rest;
      assert s[1..] == t;
      assert forall j :: 0 <= j < |value| ==> t[j] == value[j];
      FirstOfIs(t, BLANKS, |value|);
      assert t[..|value|] == value;
    }
  }

  function FreshHeaders(errno: int): Headers {
    Headers(true, 0, errno, map[])
  }

  /** No two of the names the server looks for are the same. */
  lemma NamesDiffer(i: nat, j: nat)
    requires i < |NAMES| && j < i
    ensures !EqNoCase(NAMES[i].1, NAMES[j].1)
  {
    hide EqNoCase;
    EqNoCaseAt(NAMES[i].1, NAMES[j].1, 0);
    EqNoCaseAt(NAMES[i].1, NAMES[j].1, 6);
    assert "Origin"[0] == 'O' && "Accept"[0] == 'A' && "Accept-Encoding"[6] == '-' && "Accept_Language"[6] == '_';
  }

  lemma EqNoCaseAt(s: string, t: string, i: nat)
    ensures EqNoCase(s, t) ==> |s| == |t| && (i < |s| ==> Lower(s[i]) == Lower(t[i]))
  {
  }

  lemma FieldNamesAreFields(i: nat)
    requires i < |NAMES|
    ensures ':' !in NAMES[i].1 && !EqNoCase(NAMES[i].1, "Connection") && !EqNoCase(NAMES[i].1, "Content-length")
  {
    hide EqNoCase;
    EqNoCaseAt(NAMES[i].1, "Connection", 0);
    EqNoCaseAt(NAMES[i].1, "Content-length", 0);
    assert "User-Agent"[0] == 'U' && "Connection"[0] == 'C';
  }

  lemma {:induction false} FieldInAt(names: seq<(Field, string)>, line: string, i: nat)
    requires i < |names| && Named(line, names[i].1) && forall j :: 0 <= j < i ==> !Named(line, names[j].1)
    ensures FieldIn(names, line) == Some(names[i].0)
  {
    hide Named;
    if i > 0 {
      FieldInAt(names[1..], line, i - 1);
    }
  }

  /** A line for one of the kept fields, in any letter case, records the first token of its value. */
  lemma ReadsField(h: Headers, i: nat, name: string, text: string)
    requires i < |NAMES| && EqNoCase(name, NAMES[i].1)
    ensures ReadHeader(h, name + ":" + text) ==
            Some(h.(fields := h.fields[NAMES[i].0 := FirstToken(SkipBlanks(text))]))
  {
    hide EqNoCase, FirstOf, SkipBlanks, FirstToken, FieldIn, NAMES;
    var line := name + ":" + text;
    FieldNamesAreFields(i);
    SameNameNoColon(name, NAMES[i].1);
    HeaderLineIs(name, text);
    SameNameElsewhere(name, NAMES[i].1, "Connection");
    SameNameElsewhere(name, NAMES[i].1, "Content-length");
    forall j | 0 <= j < i
      ensures !Named(line, NAMES[j].1)
    {
      NamesDiffer(i, j);
      SameNameElsewhere(name, NAMES[i].1, NAMES[j].1);
    }
    FieldInAt(NAMES, line, i);
  }

  /** The nine names, and the pointer each of them sets. */
  lemma FieldNames(h: Headers, text: string)
    ensures ReadHeader(h, "Host" + ":" + text) == Some(Recorded(h, Host, text))
    ensures ReadHeader(h, "User-Agent" + ":" + text) == Some(Recorded(h, UserAgent, text))
    ensures ReadHeader(h, "Origin" + ":" + text) == Some(Recorded(h, Origin, text))
  {
    hide ReadHeader, EqNoCase;
    EqNoCaseSelf("Host");
    EqNoCaseSelf("User-Agent");
    EqNoCaseSelf("Origin");
    ReadsField(h, 0, "Host", text);
    ReadsField(h, 1, "User-Agent", text);
    ReadsField(h, 2, "Origin", text);
  }

  lemma FieldNamesOfContent(h: Headers, text: string)
    ensures ReadHeader(h, "Content-Type" + ":" + text) == Some(Recorded(h, ContentType, text))
    ensures ReadHeader(h, "Accept-Encoding" + ":" + text) == Some(Recorded(h, Encoding, text))
    ensures ReadHeader(h, "Upgrade-Insecure-Requests" + ":" + text) == Some(Recorded(h, Upgrade, text))
  {
    hide ReadHeader, EqNoCase;
    EqNoCaseSelf("Content-Type");
    EqNoCaseSelf("Accept-Encoding");
    EqNoCaseSelf("Upgrade-Insecure-Requests");
    ReadsField(h, 3, "Content-Type", text);
    ReadsField(h, 4, "Accept-Encoding", text);
    ReadsField(h, 5, "Upgrade-Insecure-Requests", text);
  }

  lemma FieldNamesOfOrigin(h: Headers, text: string)
    ensures ReadHeader(h, "Accept" + ":" + text) == Some(Recorded(h, Accept, text))
    ensures ReadHeader(h, "Referer" + ":" + text) == Some(Recorded(h, Referer, text))
    ensures ReadHeader(h, "Accept_Language" + ":" + text) == Some(Recorded(h, Language, text))
  {
    hide ReadHeader, EqNoCase;
    EqNoCaseSelf("Accept");
    EqNoCaseSelf("Referer");
    EqNoCaseSelf("Accept_Language");
    ReadsField(h, 6, "Accept", text);
    ReadsField(h, 7, "Referer", text);
    ReadsField(h, 8, "Accept_Language", text);
  }

  /** The value of the header is the text without the blanks in front, up to the next blank. */
  function Recorded(h: Headers, f: Field, text: string): Headers {
    h.(fields := h.fields[f := FirstToken(SkipBlanks(text))])
  }

  lemma SameNameElsewhere(name: string, same: string, other: string)
    requires EqNoCase(name, same) && !EqNoCase(same, other)
    ensures !EqNoCase(name, other)
  {
  }

  lemma SameNameNoColon(name: string, same: string)
    requires EqNoCase(name, same) && ':' !in same
    ensures ':' !in name
  {
    forall i | 0 <= i < |name|
      ensures name[i] != ':'
    {
      assert same[i] in same && Lower(name[i]) == Lower(same[i]);
    }
  }

  lemma EqNoCaseSelf(s: string)
    ensures EqNoCase(s, s)
  {
  }

  lemma ReadsConnection(h: Headers, text: string)
    ensures ReadHeader(h, "Connection" + ":" + text) ==
            Some(if StartsNoCase(SkipBlanks(text), "close") then h.(linger := false) else h)
  {
    hide EqNoCase, FirstOf, SkipBlanks, StartsNoCase;
    HeaderLineIs("Connection", text);
    EqNoCaseSelf("Connection");
  }

  /** The length of the body, in any letter case: an overflow sets errno to 34, and a line that finds errno
      at 22 is refused. */
  lemma ReadsLengthOf(h: Headers, name: string, text: string)
    requires EqNoCase(name, "Content-length")
    ensures var (v, overflow) := Strtol(SkipBlanks(text));
            ReadHeader(h, name + ":" + text) ==
            if overflow then Some(h.(contentLength := AsInt(v), errno := 34))
            else if h.errno == 22 then None
            else Some(h.(contentLength := AsInt(v)))
  {
    hide EqNoCase, FirstOf, SkipBlanks, Strtol, AsInt;
    SameNameNoColon(name, "Content-length");
    HeaderLineIs(name, text);
    EqNoCaseAt(name, "Content-length", 3);
    EqNoCaseAt(name, "Connection", 3);
    assert "Content-length"[3] == 't' && "Connection"[3] == 'n';
  }

  /** A length beyond a long is read as -1. */
  lemma HugeLength(h: Headers, n: nat)
    requires n > LONG_MAX
    ensures ReadHeader(h, "Content-length" + ":" + Digits(n)) == Some(h.(contentLength := -1, errno := 34))
  {
    hide ReadHeader, Strtol, Digits, SpanOf, EqNoCase;
    var text := Digits(n);
    EqNoCaseSelf("Content-length");
    assert text[0] != ' ' && text[0] != '\t';
    SpanOfIs(text, BLANKS, 0);
    StrtolOverflows(n, "");
    assert text + "" == text;
    ReadsLengthOf(h, "Content-length", text);
  }

  /** The header lines up to the empty line, and what follows it. */
  function ReadHeaders(s: string, limit: int, h: Headers): (r: Option<(Headers, string)>)
    ensures r.Some? ==> |r.value.1| < |s|
    decreases |s|
  {
    var line := TakeLine(s, limit);
    if line.None? then None
    else if line.value == "" then Some((h, s[2..]))
    else
      var h' := ReadHeader(h, line.value);
      if h'.None? then None else ReadHeaders(s[|line.value| + 2..], limit, h'.value)
  }

  // ---------------------------------------------------------------- whole messages

  /** The body has Content-length bytes, out of the `room` that is left; without a length the
      message ends at the empty line. */
  function ReadBody(line: RequestLine, h: Headers, rest: string, room: int): Outcome
    requires room <= |rest|
  {
    if h.contentLength == 0 then Accepted(Request(line.verb, line.url, h, None))
    else if h.contentLength > room then Rejected
    else if h.contentLength < 0 then Misplaced
    else Accepted(Request(line.verb, line.url, h, Some(rest[..h.contentLength])))
  }

  /** A message in the received bytes s. `limit` is the number of bytes the server believes it has:
      |s| unless its count is off. It bounds the length of every line, and the end of the body. */
  function ReadMessage(s: string, limit: int, errno: int): Outcome
    requires limit <= |s|
  {
    var first := TakeLine(s, limit);
    if first.None? then Rejected else
      var line := ReadRequestLine(first.value);
      var headers := ReadHeaders(s[|first.value| + 2..], limit, FreshHeaders(errno));
      if line.None? || headers.None? then Rejected
      else ReadBody(line.value, headers.value.0, headers.value.1, limit - (|s| - |headers.value.1|))
  }

  /** The url of an accepted request is a path. */
  lemma AcceptedUrl(s: string, limit: int, errno: int)
    requires limit <= |s| && ReadMessage(s, limit, errno).Accepted?
    ensures var url := ReadMessage(s, limit, errno).request.url; url != "" && url[0] == '/' && '/' in url
  {
    hide FirstOf, TakeLine, ReadHeaders, PathOf, MethodOf, EqNoCase;
    var line := ReadRequestLine(TakeLine(s, limit).value).value;
    assert line.url[0] in line.url;
  }

  // ---------------------------------------------------------------- the grammar

  function Lines(ls: seq<string>): string {
    if ls == [] then "" else ls[0] + CRLF + Lines(ls[1..])
  }

  /** Request-Line CRLF *(header CRLF) CRLF */
  function HeadText(first: string, ls: seq<string>): string {
    first + CRLF + Lines(ls) + CRLF
  }

  predicate HeaderLines(ls: seq<string>) {
    forall l :: l in ls ==> Clean(l) && l != ""
  }

  /** No line, with its ending, is longer than the limit. */
  predicate LinesFit(ls: seq<string>, limit: int) {
    2 <= limit && forall l :: l in ls ==> |l| + 2 <= limit
  }

  function FoldHeaders(h: Headers, ls: seq<string>): Option<Headers>
    decreases |ls|
  {
    if ls == [] then Some(h) else
      var h' := ReadHeader(h, ls[0]);
      if h'.None? then None else FoldHeaders(h'.value, ls[1..])
  }

  lemma {:induction false} FoldAppend(h: Headers, ls: seq<string>, ms: seq<string>)
    ensures FoldHeaders(h, ls + ms) ==
            if FoldHeaders(h, ls).None? then None else FoldHeaders(FoldHeaders(h, ls).value, ms)
    decreases |ls|
  {
    hide ReadHeader;
    if ls == [] {
      assert ls + ms == ms;
    } else {
      assert (ls + ms)[1..] == ls[1..] + ms;
      if ReadHeader(h, ls[0]).Some? {
        FoldAppend(ReadHeader(h, ls[0]).value, ls[1..], ms);
      }
    }
  }

  lemma {:induction false} LinesAppend(ls: seq<string>, ms: seq<string>)
    ensures Lines(ls + ms) == Lines(ls) + Lines(ms)
    decreases |ls|
  {
    if ls == [] {
      assert ls + ms == ms;
    } else {
      assert (ls + ms)[1..] == ls[1..] + ms;
      LinesAppend(ls[1..], ms);
      assert Lines(ls + ms) == ls[0] + CRLF + (Lines(ls[1..]) + Lines(ms));
    }
  }

  lemma OneLine(l: string, h: Headers)
    ensures Lines([l]) == l + CRLF
    ensures FoldHeaders(h, [l]) == ReadHeader(h, l)
  {
    hide ReadHeader;
    assert [l][1..] == [];
    assert Lines([l]) == l + CRLF + Lines([l][1..]);
  }

  lemma {:induction false} ReadHeadersIs(ls: seq<string>, rest: string, limit: int, h: Headers)
    requires HeaderLines(ls)
    ensures ReadHeaders(Lines(ls) + CRLF + rest, limit, h) ==
            if LinesFit(ls, limit) && FoldHeaders(h, ls).Some? then Some((FoldHeaders(h, ls).value, rest)) else None
    decreases |ls|
  {
    hide FirstOf, TakeLine, ReadHeader;
    var s := Lines(ls) + CRLF + rest;
    if ls == [] {
      assert s == "" + CRLF + rest;
      TakeLineIs("", rest, limit);
      assert s[2..] == rest;
    } else {
      var tail := Lines(ls[1..]) + CRLF + rest;
      assert s == ls[0] + CRLF + tail;
      TakeLineIs(ls[0], tail, limit);
      assert s[|ls[0]| + 2..] == tail;
      assert LinesFit(ls, limit) <==> |ls[0]| + 2 <= limit && LinesFit(ls[1..], limit);
      if ReadHeader(h, ls[0]).Some? {
        ReadHeadersIs(ls[1..], rest, limit, ReadHeader(h, ls[0]).value);
      }
    }
  }

  /** Every message of the grammar whose lines fit is read as its pieces say; the others are rejected. */
  lemma MessageComplete(first: string, ls: seq<string>, rest: string, limit: int, errno: int)
    requires Clean(first) && HeaderLines(ls) && limit <= |HeadText(first, ls)| + |rest|
    ensures ReadMessage(HeadText(first, ls) + rest, limit, errno) ==
            if LinesFit([first] + ls, limit) && ReadRequestLine(first).Some? && FoldHeaders(FreshHeaders(errno), ls).Some?
            then ReadBody(ReadRequestLine(first).value, FoldHeaders(FreshHeaders(errno), ls).value, rest,
                          limit - |HeadText(first, ls)|)
            else Rejected
  {
    hide FirstOf, TakeLine, ReadRequestLine, ReadHeaders, FoldHeaders, Lines;
    var s := HeadText(first, ls) + rest;
    var tail := Lines(ls) + CRLF + rest;
    assert s == first + CRLF + tail;
    TakeLineIs(first, tail, limit);
    assert s[|first| + 2..] == tail;
    assert LinesFit([first] + ls, limit) <==> |first| + 2 <= limit && LinesFit(ls, limit);
    ReadHeadersIs(ls, rest, limit, FreshHeaders(errno));
  }

  /** The header lines that ReadHeaders consumed. */
  lemma {:induction false} HeadersSound(s: string, limit: int, h: Headers) returns (ls: seq<string>)
    requires ReadHeaders(s, limit, h).Some?
    ensures HeaderLines(ls) && LinesFit(ls, limit)
    ensures s == Lines(ls) + CRLF + ReadHeaders(s, limit, h).value.1
    ensures FoldHeaders(h, ls) == Some(ReadHeaders(s, limit, h).value.0)
    decreases |s|
  {
    hide FirstOf, TakeLine, ReadHeader, Clean;
    TakeLineSound(s, limit);
    var line := TakeLine(s, limit).value;
    if line == "" {
      ls := [];
    } else {
      var tail := s[|line| + 2..];
      var h' := ReadHeader(h, line).value;
      var ls' := HeadersSound(tail, limit, h');
      ls := [line] + ls';
      LinesCons(line, ls', limit);
      FoldCons(h, line, ls');
      var rest := ReadHeaders(tail, limit, h').value.1;
      assert s == line + CRLF + (Lines(ls') + CRLF + rest);
    }
  }

  lemma LinesCons(line: string, ls: seq<string>, limit: int)
    requires HeaderLines(ls) && LinesFit(ls, limit) && Clean(line) && line != "" && |line| + 2 <= limit
    ensures HeaderLines([line] + ls) && LinesFit([line] + ls, limit)
    ensures Lines([line] + ls) == line + CRLF + Lines(ls)
  {
    hide Clean;
    assert ([line] + ls)[1..] == ls;
  }

  lemma FoldCons(h: Headers, line: string, ls: seq<string>)
    requires ReadHeader(h, line).Some?
    ensures FoldHeaders(h, [line] + ls) == FoldHeaders(ReadHeader(h, line).value, ls)
  {
    hide ReadHeader;
    assert ([line] + ls)[1..] == ls;
  }

  /** s is a clean request line the server knows, header lines it can read, an empty line, and at
      least as many bytes as the length asks for, all within the limit. */
  ghost predicate Grammatical(s: string, limit: int, first: string, ls: seq<string>, rest: string, errno: int) {
    && Clean(first) && HeaderLines(ls) && s == HeadText(first, ls) + rest
    && LinesFit([first] + ls, limit)
    && ReadRequestLine(first).Some?
    && FoldHeaders(FreshHeaders(errno), ls).Some?
    && var length := FoldHeaders(FreshHeaders(errno), ls).value.contentLength;
       length != 0 ==> |HeadText(first, ls)| + length <= limit
  }

  /** The pieces of a message that was not rejected. */
  lemma MessageSound(s: string, limit: int, errno: int) returns (first: string, ls: seq<string>, rest: string)
    requires limit <= |s| && !ReadMessage(s, limit, errno).Rejected?
    ensures Grammatical(s, limit, first, ls, rest, errno)
  {
    hide FirstOf, TakeLine, ReadRequestLine, ReadHeaders, FoldHeaders, Lines;
    TakeLineSound(s, limit);
    first := TakeLine(s, limit).value;
    var tail := s[|first| + 2..];
    ls := HeadersSound(tail, limit, FreshHeaders(errno));
    rest := ReadHeaders(tail, limit, FreshHeaders(errno)).value.1;
    assert s == first + CRLF + (Lines(ls) + CRLF + rest);
    assert s == HeadText(first, ls) + rest;
  }

  /** The reader and the grammar agree on every input. */
  lemma MessageGrammar(s: string, limit: int, errno: int)
    requires limit <= |s|
    ensures !ReadMessage(s, limit, errno).Rejected? <==>
            exists first, ls, rest :: Grammatical(s, limit, first, ls, rest, errno)
  {
    hide ReadMessage, ReadRequestLine, FoldHeaders, HeadText, LinesFit;
    if !ReadMessage(s, limit, errno).Rejected? {
      var first, ls, rest := MessageSound(s, limit, errno);
    }
    forall first, ls, rest | Grammatical(s, limit, first, ls, rest, errno)
      ensures !ReadMessage(s, limit, errno).Rejected?
    {
      MessageComplete(first, ls, rest, limit, errno);
    }
  }
}
