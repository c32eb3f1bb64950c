/** The connection handler: in-place request parsing, routing, response building and writing. */
module HttpConn {
  import opened CBuffers
  import opened CStrings
  import opened Numbers
  import opened ResponseSpec
  import opened Routing
  import opened MessageSpec
  import opened Reception
  import opened Wrappers
  import ConnectionPool
  import D = Delivery
  import W = Wire

  const WRITE_BUFFER_SIZE := 1024

  /** A char pointer into a buffer is an index; the null pointer is NULL. */
  const NULL: int := -1

  datatype CheckState = CheckRequestLine | CheckHeader | CheckContent

  datatype LineState = LineOk | LineBad | LineOpen

  /** HTTP_STATE, plus NegativeLength for a body that would be cut in front of its own start. */
  datatype HttpState =
    | Parsering | ErrorFormat | ReadyRequest | ErrorAccessFailed | ErrorFileNotFound
    | FinishedRequest | ClosedConnection | InternalError | NegativeLength

  /** Where the first CR and the first LF of the C string at `at` stand, when the buffer is zero
      from `end` on: adjacent, the LF within the limit, exactly when a line can be taken there. */
  lemma LineIndices(b: seq<char>, at: nat, end: nat, limit: int)
    requires at <= end < |b| && forall k :: end <= k < |b| ==> b[k] == NUL
    ensures var s, line := CStr(b, at), TakeLine(b[at..end], limit);
            var r, n := FirstOf(s, "\r"), FirstOf(s, "\n");
            && at + |s| <= end
            && (line.Some? <==> r < |s| && n < |s| && r + 1 == n < limit)
            && (line.Some? ==> line.value == s[..r])
  {
    hide CStr, FirstOf;
    var s, data := CStr(b, at), b[at..end];
    assert at + |s| <= end by { assert b[end] == NUL; }
    var r, n, k := FirstOf(s, "\r"), FirstOf(s, "\n"), FirstOf(data, "\r\n\0");
    assert forall j :: 0 <= j < |s| ==> s[j] == data[j];
    assert |s| < |data| ==> data[|s|] == NUL;
    if r + 1 == n < |s| {
      FirstOfIs(data, "\r\n\0", r);
    }
    if TakeLine(data, limit).Some? {
      assert k + 1 < |s|;
      FirstOfIs(s, "\r", k);
      FirstOfIs(s, "\n", k + 1);
    }
  }

  /** The strncasecmp chain over the names whose values are kept, in its order: the field, and
      how far its value is. */
  function FieldByPrefix(names: seq<(Field, string)>, s: string): Option<(Field, nat)> {
    if names == [] then None
    else if StartsNoCase(s, names[0].1 + ":") then Some((names[0].0, |names[0].1| + 1))
    else FieldByPrefix(names[1..], s)
  }

  /** The chain finds the field the name before the first colon stands for, and its value starts
      right behind that colon. */
  lemma {:induction false} FieldByPrefixIs(names: seq<(Field, string)>, line: string)
    requires forall n :: n in names ==> ':' !in n.1
    ensures FieldByPrefix(names, line) ==
            match FieldIn(names, line)
              case Some(f) => Some((f, FirstOf(line, ":") + 1))
              case None => None
  {
    hide FirstOf, EqNoCase, StartsNoCase;
    if names != [] {
      NamedByPrefix(line, names[0].1);
      FieldByPrefixIs(names[1..], line);
    }
  }

  lemma Prefixed(line: string, name: string, prefix: string)
    requires ':' !in name && prefix == name + ":"
    ensures Named(line, name) <==> StartsNoCase(line, prefix)
    ensures Named(line, name) ==> FirstOf(line, ":") + 1 == |prefix| <= |line|
  {
    NamedByPrefix(line, name);
  }

  lemma NoColons()
    ensures forall n :: n in NAMES ==> ':' !in n.1
  {
  }

  lemma ConnectionByPrefix(h: Headers, line: string)
    ensures StartsNoCase(line, "Connection:") ==>
              && 11 <= |line|
              && var value := SkipBlanks(line[11..]);
                 ReadHeader(h, line) == Some(if StartsNoCase(value, "close") then h.(linger := false) else h)
  {
    hide FirstOf, SpanOf, EqNoCase, StartsNoCase, FieldIn, FieldByPrefix, Strtol, NAMES, AsInt, FirstToken, SkipBlanks;
    Prefixed(line, "Connection", "Connection:");
  }

  lemma LengthByPrefix(h: Headers, line: string)
    ensures !StartsNoCase(line, "Connection:") && StartsNoCase(line, "Content-length:") ==>
              && 15 <= |line|
              && var (v, overflow) := Strtol(SkipBlanks(line[15..]));
                 var errno := if overflow then ERANGE else h.errno;
                 ReadHeader(h, line) == if errno == EINVAL then None else Some(h.(contentLength := AsInt(v), errno := errno))
  {
    hide FirstOf, SpanOf, EqNoCase, StartsNoCase, FieldIn, FieldByPrefix, Strtol, NAMES, AsInt, FirstToken, SkipBlanks;
    Prefixed(line, "Connection", "Connection:");
    Prefixed(line, "Content-length", "Content-length:");
  }

  lemma OthersByPrefix(h: Headers, line: string)
    ensures !StartsNoCase(line, "Connection:") && !StartsNoCase(line, "Content-length:") ==>
              var found := FieldByPrefix(NAMES, line);
              && (found.None? ==> ReadHeader(h, line) == Some(h))
              && (found.Some? ==>
                    && found.value.1 <= |line|
                    && var value := FirstToken(SkipBlanks(line[found.value.1..]));
                       ReadHeader(h, line) == Some(h.(fields := h.fields[found.value.0 := value])))
  {
    hide FirstOf, SpanOf, EqNoCase, StartsNoCase, FieldIn, FieldByPrefix, Strtol, NAMES, AsInt, FirstToken, SkipBlanks;
    Prefixed(line, "Connection", "Connection:");
    Prefixed(line, "Content-length", "Content-length:");
    NoColons();
    FieldByPrefixIs(NAMES, line);
  }

  /** ReadHeader, told apart by prefixes instead of names. */
  lemma ReadHeaderByPrefix(h: Headers, line: string)
    ensures StartsNoCase(line, "Connection:") ==>
              && 11 <= |line|
              && var value := SkipBlanks(line[11..]);
                 ReadHeader(h, line) == Some(if StartsNoCase(value, "close") then h.(linger := false) else h)
    ensures !StartsNoCase(line, "Connection:") && StartsNoCase(line, "Content-length:") ==>
              && 15 <= |line|
              && var (v, overflow) := Strtol(SkipBlanks(line[15..]));
                 var errno := if overflow then ERANGE else h.errno;
                 ReadHeader(h, line) == if errno == EINVAL then None else Some(h.(contentLength := AsInt(v), errno := errno))
    ensures !StartsNoCase(line, "Connection:") && !StartsNoCase(line, "Content-length:") ==>
              var found := FieldByPrefix(NAMES, line);
              && (found.None? ==> ReadHeader(h, line) == Some(h))
              && (found.Some? ==>
                    && found.value.1 <= |line|
                    && var value := FirstToken(SkipBlanks(line[found.value.1..]));
                       ReadHeader(h, line) == Some(h.(fields := h.fields[found.value.0 := value])))
  {
    hide FirstOf, SpanOf, EqNoCase, StartsNoCase, FieldIn, FieldByPrefix, Strtol, NAMES, AsInt, FirstToken, SkipBlanks, ReadHeader;
    ConnectionByPrefix(h, line);
    LengthByPrefix(h, line);
    OthersByPrefix(h, line);
  }

  /** The header pointers: those of this request spell their values below the bound, the others
      are as they were when the request began. */
  ghost predicate FieldsHold(b: seq<char>, at: map<Field, int>, fields: map<Field, string>, limit: int, stale: map<Field, int>) {
    && (forall f :: f in fields ==> f in at && Spells(b, at[f], fields[f]) && at[f] + |fields[f]| < limit)
    && (forall f :: f !in fields ==> (f in at <==> f in stale) && (f in stale ==> at[f] == stale[f]))
  }

  /** The url and the header values recorded so far. */
  ghost predicate Kept(b: seq<char>, limit: int, url: int, urlText: string,
                       at: map<Field, int>, fields: map<Field, string>, stale: map<Field, int>) {
    Spells(b, url, urlText) && url + |urlText| < limit && FieldsHold(b, at, fields, limit, stale)
  }

  lemma KeptFrame(b: seq<char>, b': seq<char>, limit: int, url: int, urlText: string,
                  at: map<Field, int>, fields: map<Field, string>, stale: map<Field, int>)
    requires Kept(b, limit, url, urlText, at, fields, stale)
    requires 0 <= limit <= |b| == |b'| && forall k :: 0 <= k < limit ==> b[k] == b'[k]
    ensures Kept(b', limit, url, urlText, at, fields, stale)
    ensures FieldsHold(b', at, fields, limit, stale)
    ensures forall high :: limit <= high ==> Kept(b', high, url, urlText, at, fields, stale)
  {
    hide Spells;
    SpellsFrame(b, b', url, urlText, limit);
    FieldsFrame(b, b', at, fields, limit, stale);
  }

  /** After the request line the url is recorded and no header value is. */
  lemma KeptStart(b: seq<char>, limit: int, url: int, urlText: string, at: map<Field, int>)
    requires Spells(b, url, urlText) && url + |urlText| < limit
    ensures Kept(b, limit, url, urlText, at, map[], at)
  {
  }

  /** The url survives a header line, whatever became of the header values. */
  lemma KeptHeader(b: seq<char>, b': seq<char>, low: int, high: int, url: int, urlText: string,
                   at: map<Field, int>, fields: map<Field, string>,
                   at': map<Field, int>, fields': map<Field, string>, stale: map<Field, int>)
    requires Kept(b, low, url, urlText, at, fields, stale)
    requires 0 <= low <= high && low <= |b| == |b'| && forall k :: 0 <= k < low ==> b[k] == b'[k]
    requires FieldsHold(b', at', fields', high, stale)
    ensures Kept(b', high, url, urlText, at', fields', stale)
  {
    hide Spells, FieldsHold;
    SpellsFrame(b, b', url, urlText, low);
  }

  /** What parse_ has seen: the bytes and errno it began with, the pointers of earlier requests,
      the request line as text and as read, and the header values so far. */
  datatype Trace = Trace(data: string, limit: int, errno: int, stale: map<Field, int>, content: int,
                               first: string, read: RequestLine, h: Headers)

  lemma FieldsFrame(b: seq<char>, b': seq<char>, at: map<Field, int>, fields: map<Field, string>, limit: int, stale: map<Field, int>)
    requires FieldsHold(b, at, fields, limit, stale) && 0 <= limit <= |b| == |b'| && b[..limit] == b'[..limit]
    ensures FieldsHold(b', at, fields, limit, stale)
  {
    forall f | f in fields
      ensures Spells(b', at[f], fields[f])
    {
      SpellsFrame(b, b', at[f], fields[f], limit);
    }
  }

  /** What do_request_ makes of a path. */
  function Verdict(files: map<string, FileStat>, path: string): HttpState {
    if path !in files then ErrorFileNotFound
    else if !files[path].readable then ErrorAccessFailed
    else if files[path].directory then ErrorFormat
    else if !files[path].opens then ErrorAccessFailed
    else if !files[path].maps then InternalError
    else if !files[path].closes then InternalError
    else FinishedRequest
  }

  /** A file is sent exactly when nothing is in the way of it. */
  lemma VerdictFinished(files: map<string, FileStat>, path: string)
    ensures Verdict(files, path) == FinishedRequest <==> path in files && files[path].Delivered()
  {
  }

  /** The response to an outcome; none for the outcomes no request ends with. */
  function ResponseTo(ret: HttpState, size: nat): Option<Response> {
    match ret
    case InternalError => Some(Response(500, "Internal Error", FORM_500, 0))
    case ErrorFormat => Some(Response(400, "Bad Request", FORM_400, 0))
    case ErrorAccessFailed => Some(Response(403, "Forbidden", FORM_403, 0))
    case ErrorFileNotFound => Some(Response(404, "Not Found", FORM_404, 0))
    case FinishedRequest => Some(Response(200, "OK", if size != 0 then "" else EMPTY_PAGE, size))
    case _ => None
  }

  lemma ResponsesSmall(ret: HttpState, size: nat)
    ensures ResponseTo(ret, size).Some? ==> Small(ResponseTo(ret, size).value) && 0 < BodyLength(ResponseTo(ret, size).value)
  {
    TitlesClean();
    TitlesCleanToo();
    assert |FORM_500| <= 70 && |FORM_400| <= 70 && |FORM_403| <= 70 && |FORM_404| <= 70 && |EMPTY_PAGE| <= 70;
    hide Clean;
  }

  lemma TitlesClean()
    ensures Clean("Internal Error") && Clean("Bad Request")
  {
  }

  lemma TitlesCleanToo()
    ensures Clean("Forbidden") && Clean("Not Found") && Clean("OK")
  {
  }

  /** The file buffer starts with the root; `clear` says that it holds nothing else. */
  ghost predicate Rooted(file: seq<char>, root: string, clear: bool) {
    && |root| < |file| == FILENAME_LEN
    && (forall k :: 0 <= k < |root| ==> file[k] == root[k])
    && file[FILENAME_LEN - 1] == NUL
    && (clear ==> forall k :: |root| <= k < FILENAME_LEN ==> file[k] == NUL)
  }

  lemma RootedEither(file: seq<char>, root: string, clear: bool)
    requires Rooted(file, root, true)
    ensures Rooted(file, root, clear)
  {
  }

  // ---------------------------------------------------------------- forms in the buffer

  /** Where the '&' behind the fifth byte stands. */
  function NameEnd(b: seq<char>, at: int): int
    requires 0 <= at && at + 5 <= |b|
  {
    at + 5 + FirstOf(b[at + 5..], "&")
  }

  function PasswordStart(b: seq<char>, at: int): int
    requires 0 <= at && at + 5 <= |b|
  {
    NameEnd(b, at) + 10
  }

  /** There is an '&', and both values end within the buffer and fit theirs. */
  ghost predicate FormCopies(b: seq<char>, at: int) {
    && 0 <= at && at + 5 <= |b| && PasswordStart(b, at) < |b|
    && NameEnd(b, at) - (at + 5) < 100
    && var text := CStr(b, PasswordStart(b, at)); |text| < 100 && PasswordStart(b, at) + |text| < |b|
  }

  /** What the copied name is as a C string. */
  ghost function NameAt(b: seq<char>, at: int): string
    requires 0 <= at && at + 5 <= |b|
  {
    CStr(b[at + 5..NameEnd(b, at)], 0)
  }

  lemma NameEndIs(b: seq<char>, at: int)
    requires 0 <= at && at + 5 <= |b| && NameEnd(b, at) < |b|
    ensures b[NameEnd(b, at)] == '&' && forall k :: at + 5 <= k < NameEnd(b, at) ==> b[k] != '&'
  {
    hide FirstOf;
    var rest := b[at + 5..];
    assert '&' == "&"[0];
    assert forall k :: at + 5 <= k < |b| ==> b[k] == rest[k - (at + 5)];
  }

  lemma ByteOfCStr(b: seq<char>, start: nat, j: nat)
    requires start <= |b| && j < |CStr(b, start)|
    ensures start + j < |b| && b[start + j] == CStr(b, start)[j] != NUL
  {
    hide CStr;
    assert CStr(b, start)[j] in CStr(b, start);
  }

  /** A form that fits is copied as the pair it spells. */
  lemma FormInBuffer(b: seq<char>, at: int, content: string)
    requires Spells(b, at, content) && FormFits(content)
    ensures FormCopies(b, at)
    ensures NameAt(b, at) == FormName(content)
    ensures CStr(b, PasswordStart(b, at)) == FormPassword(content)
  {
    hide FirstOf, CStr;
    var n, rest := NameLength(content), b[at + 5..];
    assert forall k :: 0 <= k < |content| - 5 ==> rest[k] == content[5..][k];
    FirstOfIs(rest, "&", n);
    assert NameEnd(b, at) == at + 5 + n;
    SpellsDrop(b, at, content, 15 + n);
    SpellsCStr(b, at + 15 + n, content[15 + n..]);
    var name := b[at + 5..at + 5 + n];
    assert name == FormName(content);
    assert NUL !in name;
    WholeCStr(name);
  }

  lemma {:induction false} WholeCStr(s: string)
    requires NUL !in s
    ensures CStr(s, 0) == s
  {
    hide CStr;
    assert forall k :: 0 <= k < |s| ==> s[k] in s;
    assert s[0..|s|] == s;
  }

  /** How a run of the write loop ends, what it puts on the wire, and after how many answers in all. */
  ghost function Goal(w: W.Writer, answers: seq<W.Answer>, before: nat): (W.Ending, seq<W.Origin>, nat) {
    var (e, w', used) := W.Drain(w, answers);
    (e, w'.wire, before + used)
  }

  lemma GoalIsDrain(w: W.Writer, answers: seq<W.Answer>)
    ensures var (e, w', used) := W.Drain(w, answers); Goal(w, answers, 0) == (e, w'.wire, used)
  {
  }

  lemma GoalEnd(w: W.Writer, answers: seq<W.Answer>, before: nat)
    requires answers == []
    ensures Goal(w, answers, before) == (W.Open, w.wire, before)
  {
  }

  lemma GoalStep(w: W.Writer, answers: seq<W.Answer>, before: nat)
    requires answers != []
    ensures if answers[0].Failed? then Goal(w, answers, before) == (W.Broken, w.wire, before + 1) else
              var w' := if answers[0].Sent? then w.Take(answers[0].k) else w.Resume();
              if answers[0].Sent? && w'.have > w.have && w'.toSend <= 0
              then Goal(w, answers, before) == (W.Done, w'.wire, before + 1)
              else Goal(w, answers, before) == Goal(w', answers[1..], before + 1)
  {
    hide W.Drain;
    if answers[0].Failed? {
      W.DrainEnds(w, answers);
    } else {
      W.DrainStep(w, answers);
    }
  }

  /** What the source needs of an accepted request, and does not check: a posted form has a body
      that is one, and it and the paths fit. */
  ghost predicate Servable(r: Request, root: string, stored: bool) {
    && '/' in r.url
    && (IsForm(r.verb, r.url) ==>
          && r.body.Some? && FormFits(BodyText(r))
          && PathsFit(root, r.url, FormAccount(r.url, BodyText(r), stored)))
  }

  ghost predicate Answerable(outcome: Outcome, root: string, stored: bool) {
    outcome.Accepted? ==> Servable(outcome.request, root, stored)
  }

  /** The file a request is for. */
  ghost function PathOfRequest(r: Request, root: string, users: map<string, string>, stored: bool): string
    requires Servable(r, root, stored) && |root| < FILENAME_LEN
  {
    ServedPath(root, Page(r.verb, r.url, BodyText(r), users, stored))
  }

  /** The file that is sent, if one is. */
  ghost function FileOf(outcome: Outcome, root: string, files: map<string, FileStat>, users: map<string, string>, stored: bool): string
    requires Answerable(outcome, root, stored) && |root| < FILENAME_LEN
  {
    if outcome.Accepted? && PathOfRequest(outcome.request, root, users, stored) in files
       && files[PathOfRequest(outcome.request, root, users, stored)].Delivered()
    then files[PathOfRequest(outcome.request, root, users, stored)].content
    else ""
  }

  /** What parse_ and do_request_ come to. */
  ghost function StateOf(outcome: Outcome, root: string, files: map<string, FileStat>, users: map<string, string>, stored: bool):
    HttpState
    requires Answerable(outcome, root, stored) && |root| < FILENAME_LEN
  {
    match outcome
    case Misplaced => NegativeLength
    case Rejected => ErrorFormat
    case Accepted(r) => Verdict(files, PathOfRequest(r, root, users, stored))
  }

  /** The answer to what was read, if there is one. */
  ghost function AnswerTo(outcome: Outcome, root: string, files: map<string, FileStat>, users: map<string, string>, stored: bool):
    Option<Response>
    requires Answerable(outcome, root, stored) && |root| < FILENAME_LEN
  {
    ResponseTo(StateOf(outcome, root, files, users, stored), |FileOf(outcome, root, files, users, stored)|)
  }

  ghost function AccountsAfter(outcome: Outcome, root: string, users: map<string, string>, stored: bool): map<string, string>
    requires Answerable(outcome, root, stored)
  {
    if outcome.Accepted?
    then UsersAfter(outcome.request.verb, outcome.request.url, BodyText(outcome.request), users, stored)
    else users
  }

  /** What parse_ and do_request_ leave: the verdict with the size of the file, the accounts, and the
      linger flag of the request. */
  ghost predicate Served(outcome: Outcome, root: string, files: map<string, FileStat>, users: map<string, string>, stored: bool,
                         ret: HttpState, size: nat, users': map<string, string>, linger: bool)
  {
    && Answerable(outcome, root, stored) && |root| < FILENAME_LEN
    && ret == StateOf(outcome, root, files, users, stored)
    && (ret == FinishedRequest ==> size == |FileOf(outcome, root, files, users, stored)|)
    && users' == AccountsAfter(outcome, root, users, stored)
    && (outcome.Accepted? ==> linger == outcome.request.headers.linger)
  }

  /** When the vectors in use are the ones meant: for a handler's first response, and for a text after a
      text, if nothing was left in the second vector. */
  predicate VectorsFree(file: nat, count: nat, stale: W.IoVec) {
    count == 0 || (count == 1 && file == 0 && stale.len == 0)
  }

  /** What a write loop that counts its vectors on from `count` starts from: it offers header and file,
      from vectors that exist, exactly when they are free. A text after a text may be followed by what
      is left in the second vector. */
  ghost predicate VectorsFit(w: W.Writer, file: nat, count: nat, stale: W.IoVec) {
    && (w.count <= 2 && w.Offer() == W.Expected(w.header, file) <==> VectorsFree(file, count, stale))
    && (VectorsFree(file, count, stale) && w.header + file <= INT_MAX ==> W.Started(w, file))
    && (count == 1 && file == 0 && stale.len > 0 ==> W.Stale(w))
  }

  lemma FreeAreTwo(w: W.Writer, file: nat, count: nat, stale: W.IoVec)
    requires VectorsFit(w, file, count, stale) && VectorsFree(file, count, stale)
    ensures w.count <= 2
  {
  }

  lemma VectorsFitIf(w: W.Writer, header: nat, file: nat, count: nat, stale: W.IoVec)
    requires 0 < header <= 160 && w.header == header && w.iv0 == W.IoVec(W.Head, 0, header)
    requires w.iv1 == (if file > 0 then W.IoVec(W.File, 0, file) else stale)
    requires w.count == count + if file > 0 then 2 else 1
    requires w.toSend == AsInt(AsInt(file) + header) && w.newadd == 0 && w.wire == []
    ensures w.have == 0 ==> VectorsFit(w, file, count, stale)
  {
    var offer, e := w.Offer(), W.Expected(header, file);
    if file > 0 {
      assert w.count == 2 ==> offer == e;
    } else if w.count == 1 {
      assert offer == e;
    } else if w.count == 2 {
      assert |offer| == header + stale.len && (stale.len == 0 ==> offer == e);
    }
  }

  /** What a request has come to when the response is in the buffer: the accounts, and, unless there
      is no answer, the head of the answer, with the length of the file and the linger flag of the
      request. w is what the write loop starts from, with the vectors counted on from `count`. */
  ghost predicate Answered(outcome: Outcome, root: string, files: map<string, FileStat>, users: map<string, string>, stored: bool,
                           users': map<string, string>, ok: bool, linger: bool, text: string,
                           count: nat, stale: W.IoVec, w: W.Writer)
  {
    && Answerable(outcome, root, stored) && |root| < FILENAME_LEN
    && var answer := AnswerTo(outcome, root, files, users, stored);
       && users' == AccountsAfter(outcome, root, users, stored)
       && (outcome.Accepted? ==> linger == outcome.request.headers.linger)
       && (ok <==> answer.Some?)
       && (ok ==> text == HeadOf(answer.value, linger))
       && (ok && w.have == 0 ==> VectorsFit(w, answer.value.file, count, stale))
  }

  /** What the answer is, by what was read and what the file system says about its path: each status
      for exactly its own cases, each with its own title and text. */
  lemma AnswerIs(outcome: Outcome, root: string, files: map<string, FileStat>, users: map<string, string>, stored: bool)
    requires Answerable(outcome, root, stored) && |root| < FILENAME_LEN
    ensures var answer := AnswerTo(outcome, root, files, users, stored);
            && (answer.None? <==> outcome.Misplaced?)
            && (answer.Some? ==>
                  var status := answer.value.status;
                  var path := if outcome.Accepted? then PathOfRequest(outcome.request, root, users, stored) else "";
                  var found := outcome.Accepted? && path in files;
                  && (status == 404 <==> outcome.Accepted? && !found)
                  && (status == 403 <==> found && (!files[path].readable || (!files[path].directory && !files[path].opens)))
                  && (status == 400 <==> outcome.Rejected? || (found && files[path].readable && files[path].directory))
                  && (status == 500 <==> found && files[path].readable && !files[path].directory && files[path].opens
                                         && !(files[path].maps && files[path].closes))
                  && (status == 200 <==> found && files[path].readable && !files[path].directory && files[path].opens
                                         && files[path].maps && files[path].closes)
                  && (status == 404 ==> answer.value == Response(404, "Not Found", "The requested file was not found on this server.\n", 0))
                  && (status == 403 ==> answer.value == Response(403, "Forbidden", "You do not have permission to get file form this server.\n", 0))
                  && (status == 400 ==> answer.value == Response(400, "Bad Request", "Your request has bad syntax or is inherently impossible to staisfy.\n", 0))
                  && (status == 500 ==> answer.value == Response(500, "Internal Error", "There was an unusual problem serving the request file.\n", 0))
                  && (status == 200 ==>
                        && files[path].content == FileOf(outcome, root, files, users, stored)
                        && answer.value == Response(200, "OK", if files[path].content == "" then "<html><body></body></html>" else "",
                                                    |files[path].content|)))
  {
    hide Servable, PathOfRequest;
  }

  /** The verdict of do_request_, with the size it found, leads to the answer. */
  lemma AnsweredBy(outcome: Outcome, root: string, files: map<string, FileStat>, users: map<string, string>, stored: bool,
                   ret: HttpState, size: nat, users': map<string, string>, ok: bool, linger: bool, text: string,
                   count: nat, stale: W.IoVec, w: W.Writer)
    requires Served(outcome, root, files, users, stored, ret, size, users', linger)
    requires ok <==> ResponseTo(ret, size).Some?
    requires ok ==> text == HeadOf(ResponseTo(ret, size).value, linger)
    requires ok && w.have == 0 ==> VectorsFit(w, ResponseTo(ret, size).value.file, count, stale)
    ensures Answered(outcome, root, files, users, stored, users', ok, linger, text, count, stale, w)
  {
    AnsweredWith(outcome, root, files, users, stored);
    hide Answerable, StateOf, FileOf, AccountsAfter, HeadOf;
    SizeMatters(ret, size, |FileOf(outcome, root, files, users, stored)|);
  }

  /** Everything but a negative length is answered; a file is sent, or the empty page for an empty one,
      exactly when the path stands for one that can be read, opened and mapped. */
  lemma AnsweredWith(outcome: Outcome, root: string, files: map<string, FileStat>, users: map<string, string>, stored: bool)
    requires Answerable(outcome, root, stored) && |root| < FILENAME_LEN
    ensures var answer := AnswerTo(outcome, root, files, users, stored);
            && (answer.Some? <==> !outcome.Misplaced?)
            && (answer.Some? ==>
                  && Small(answer.value) && 0 < BodyLength(answer.value)
                  && answer.value.file == |FileOf(outcome, root, files, users, stored)|
                  && (answer.value.status == 200 <==>
                      outcome.Accepted? && var path := PathOfRequest(outcome.request, root, users, stored);
                                           path in files && files[path].Delivered()))
  {
    hide Servable, PathOfRequest, Small;
    var file := FileOf(outcome, root, files, users, stored);
    ResponsesSmall(StateOf(outcome, root, files, users, stored), |file|);
  }

  /** The size in the handler matters only when a file is sent. */
  lemma SizeMatters(ret: HttpState, size: nat, other: nat)
    requires ret == FinishedRequest ==> size == other
    ensures ResponseTo(ret, size) == ResponseTo(ret, other)
  {
  }

  /** What a finished run of the write loop has sent, for an answer that fits an int with its head. If it
      went as it should, head and file, in which a client reads exactly the answer, unless it asked for
      the head alone and now has a body left over. If not, some file of that length, after some head of
      that length, would not have come out whole; and if the first write took the head, after this head. */
  ghost predicate Reaches(answer: Response, linger: bool, file: string, start: W.Writer, answers: seq<W.Answer>, used: nat,
                          wire: seq<W.Origin>) {
    var head := HeadOf(answer, linger);
    |head| + |file| <= INT_MAX ==>
      && answers != [] && 0 < BodyLength(answer)
      && (D.Right(start, |file|, answers, used) ==>
            && D.Sends(wire, head, file)
            && forall toHead :: D.Readable(head + file, answer, linger, file, toHead, READ_BUFFER_SIZE, 0))
      && (D.Right(start, |file|, answers, used) <==>
          forall h, f :: |h| == |head| && |f| == |file| ==> D.Sends(wire, h, f))
      && (answers[0].Sent? && answers[0].k >= |head| ==>
            (D.Right(start, |file|, answers, used) <==> forall f :: |f| == |file| ==> D.Sends(wire, head, f)))
  }

  lemma ReachesWhenDone(w: W.Writer, answer: Response, linger: bool, file: string, answers: seq<W.Answer>, count: nat, stale: W.IoVec)
    requires Small(answer) && |file| == answer.file && 0 < BodyLength(answer) && w.header == |HeadOf(answer, linger)| > 0
    requires VectorsFit(w, answer.file, count, stale) && VectorsFree(answer.file, count, stale)
    requires W.Positive(answers) && W.Drain(w, answers).0 == W.Done
    ensures Reaches(answer, linger, file, w, answers, W.Drain(w, answers).2, W.Drain(w, answers).1.wire)
  {
    var head := HeadOf(answer, linger);
    if |head| + |file| <= INT_MAX {
      assert W.Started(w, answer.file);
      HeadHolds(answer, linger);
      hide HeadOf, Small, BodyLength, W.Drain, W.Started, W.Positive, D.Readable, D.Right, D.Sends, VectorsFit;
      D.Delivered(w, head, answer.file, answers);
      forall toHead
        ensures D.Readable(head + file, answer, linger, file, toHead, READ_BUFFER_SIZE, 0)
      {
        D.ReadsResponse(answer, linger, file, toHead, READ_BUFFER_SIZE, 0);
      }
    }
  }

  lemma HeadHolds(r: Response, linger: bool)
    ensures BodyLength(r) <= |HeadOf(r, linger)| + r.file
  {
  }

  /** The body as do_request_ sees it: a C string. */
  ghost function BodyText(r: Request): string {
    if r.body.Some? then CStr(r.body.value, 0) else ""
  }

  lemma KeptUrl(b: seq<char>, limit: int, url: int, urlText: string,
                at: map<Field, int>, fields: map<Field, string>, stale: map<Field, int>)
    requires Kept(b, limit, url, urlText, at, fields, stale)
    ensures 0 <= url && Spells(b, url, urlText) && url + |urlText| < limit
  {
    hide FieldsHold;
  }

  /** A body in the buffer, with a NUL behind it, spells what precedes its first NUL. */
  lemma {:induction false} BodySpelled(b: seq<char>, at: int, body: string)
    requires 0 <= at && at + |body| < |b| && b[at..at + |body|] == body && b[at + |body|] == NUL
    ensures Spells(b, at, CStr(body, 0))
  {
    hide CStr;
    var s := CStr(body, 0);
    FirstNul(body);
    forall j | 0 <= j < |s|
      ensures b[at + j] == s[j]
    {
      ByteAt(b, at, body, j);
    }
    if |s| < |body| {
      ByteAt(b, at, body, |s|);
    }
  }

  lemma {:induction false} ByteAt(b: seq<char>, at: int, body: string, j: int)
    requires 0 <= at && at + |body| <= |b| && b[at..at + |body|] == body && 0 <= j < |body|
    ensures b[at + j] == body[j]
  {
    assert b[at..at + |body|][j] == body[j];
  }

  lemma {:induction false} FirstNul(body: string)
    ensures var s := CStr(body, 0);
            && |s| <= |body| && (|s| < |body| ==> body[|s|] == NUL) && forall j :: 0 <= j < |s| ==> body[j] == s[j]
  {
    hide CStr;
    var s := CStr(body, 0);
    assert s == body[..|s|];
  }

  /** Between a url and a form lies enough room for the longest answer page. */
  lemma FormIsLong(b: seq<char>, url: int, urlText: string, content: int, text: string)
    requires Spells(b, content, text) && FormFits(text) && '/' in urlText && Flag(urlText) != NUL
    requires 0 <= url && url + |urlText| < content - 1
    ensures url + 20 <= |b|
  {
    hide FirstOf, LastSlash;
  }

  /** The byte behind the last slash of a recorded url is its flag. */
  lemma FlagAt(b: seq<char>, i: int, url: string)
    requires Spells(b, i, url) && '/' in url
    ensures 0 <= i + LastSlash(url) + 1 < |b| && b[i + LastSlash(url) + 1] == Flag(url)
  {
  }

  lemma FixedPageText(flag: char)
    ensures var page := FixedPage(flag); page.Some? ==> |page.value| < 19 && NUL !in page.value
  {
  }

  /** A value recorded between two bounds joins those below the first. */
  lemma FieldsKept(b: seq<char>, b': seq<char>, at: map<Field, int>, fields: map<Field, string>, low: int, high: int,
                   stale: map<Field, int>, kept: Option<Field>, p: int, v: string)
    requires FieldsHold(b, at, fields, low, stale) && 0 <= low <= high && low <= |b| == |b'| && b[..low] == b'[..low]
    requires Spells(b', p, v) && p + |v| < high
    ensures FieldsHold(b', at, fields, high, stale)
    ensures kept.Some? ==> FieldsHold(b', at[kept.value := p], fields[kept.value := v], high, stale)
  {
    FieldsFrame(b, b', at, fields, low, stale);
  }

  /** The name and password table, shared by all handlers. */
  class UserTable {
    var users: map<string, string>

    constructor (users: map<string, string>)
      ensures this.users == users
    {
      this.users := users;
    }
  }

  class HttpHandler {
    const m_read_buf: array<char>
    var m_read_idx: int
    var m_check_state: CheckState
    var m_checked_idx: int
    var m_start_line: int
    var m_method: Method
    var m_cgi: int
    var m_url: int
    var m_version: int
    var m_linger: bool
    var m_content_length: int
    /** m_host, m_useragent, .. m_language: the header pointers that are set. */
    var m_fields: map<Field, int>
    var m_content: int
    const m_real_file: array<char>
    var m_file_size: nat
    const m_write_buf: array<char>
    var m_write_idx: nat
    var m_iv0: W.IoVec
    var m_iv1: W.IoVec
    var m_iv_count: nat
    var bytes_to_send: int
    var bytes_have_send: int
    /** The database connection the worker has put here; only its presence matters. */
    var mysql: Option<ConnectionPool.Connection>
    /** The errno of the worker thread. */
    var errno: int
    /** How many bytes of the buffer hold data; m_read_idx says at most that. */
    ghost var received: nat

    /** A handler as init leaves it. The source leaves m_iv_count, the body pointer and the header
        pointers unset until then. */
    constructor ()
      ensures Buffers() && fresh(m_read_buf) && fresh(m_write_buf) && fresh(m_real_file)
      ensures m_read_buf.Length == 2048 && m_write_buf.Length == 1024 && m_real_file.Length == 200
      ensures Ready() && mysql == None && m_iv_count == 0 && m_content == NULL && m_fields == map[]
    {
      m_read_buf := new char[READ_BUFFER_SIZE];
      m_write_buf := new char[WRITE_BUFFER_SIZE];
      m_real_file := new char[FILENAME_LEN];
      m_iv_count, m_iv0, m_iv1 := 0, W.IoVec(W.Head, 0, 0), W.IoVec(W.File, 0, 0);
      m_content, m_fields, m_file_size, errno, mysql := NULL, map[], 0, 0, None;
      new;
      Init_();
    }

    /** The three buffers of the handler. */
    ghost predicate Buffers() {
      && m_read_buf.Length == READ_BUFFER_SIZE && m_write_buf.Length == WRITE_BUFFER_SIZE && m_real_file.Length == FILENAME_LEN
      && m_read_buf != m_write_buf && m_read_buf != m_real_file && m_write_buf != m_real_file
    }

    /** What init_ leaves. */
    ghost predicate Ready()
      reads this, m_read_buf, m_write_buf, m_real_file
    {
      && Fresh()
      && m_read_idx == 0 == received && m_write_idx == 0 && bytes_to_send == 0 == bytes_have_send
      && m_url == NULL == m_version && m_method == GET
      && (forall k :: 0 <= k < m_write_buf.Length ==> m_write_buf[k] == NUL)
      && (forall k :: 0 <= k < m_real_file.Length ==> m_real_file[k] == NUL)
    }

    /** The buffer is zero behind the data; it may be full. */
    ghost predicate Filled()
      reads `m_read_idx, `received, m_read_buf
    {
      && m_read_buf.Length == READ_BUFFER_SIZE
      && m_read_idx <= received <= READ_BUFFER_SIZE
      && forall k :: received <= k < READ_BUFFER_SIZE ==> m_read_buf[k] == NUL
    }

    /** There is a zero behind the data, as init_ leaves it and read_ keeps it while there is room. */
    ghost predicate Padded()
      reads `m_read_idx, `received, m_read_buf
    {
      && m_read_buf.Length == READ_BUFFER_SIZE
      && m_read_idx <= received < READ_BUFFER_SIZE
      && forall k :: received <= k < READ_BUFFER_SIZE ==> m_read_buf[k] == NUL
    }

    /** The bytes not yet parsed. */
    ghost function Rest(): string
      requires Padded() && 0 <= m_checked_idx <= received
      reads `m_read_idx, `m_checked_idx, `received, m_read_buf
    {
      m_read_buf[m_checked_idx..received]
    }

    function StrPbrk(i: nat, accept: string): int
      requires i <= m_read_buf.Length
      reads m_read_buf
    {
      var s := CStr(m_read_buf[..], i);
      var k := FirstOf(s, accept);
      if k < |s| then i + k else NULL
    }

    /** str[slashr] = '\0'; str[slashn] = '\0'; */
    method CutLine(str: nat, slashr: nat, slashn: nat)
      requires str <= m_read_buf.Length && slashn == slashr + 1 < |CStr(m_read_buf[..], str)| <= m_read_buf.Length - str
      modifies m_read_buf
      ensures m_read_buf[..] == old(m_read_buf[..])[str + slashr := NUL][str + slashn := NUL]
      ensures Spells(m_read_buf[..], str, old(CStr(m_read_buf[..], str))[..slashr])
    {
      hide CStr;
      ghost var s := CStr(m_read_buf[..], str);
      assert forall j :: 0 <= j < slashr ==> s[j] == m_read_buf[str + j];
      m_read_buf[str + slashr] := NUL;
      m_read_buf[str + slashn] := NUL;
    }

    method ParseLine_() returns (status: LineState)
      requires Padded() && 0 <= m_checked_idx <= received
      modifies this`m_checked_idx, m_read_buf
      ensures Padded()
      ensures status == LineOk <==> TakeLine(old(Rest()), m_read_idx).Some?
      ensures status == LineOk ==>
                var line := TakeLine(old(Rest()), m_read_idx).value;
                && m_checked_idx == old(m_checked_idx) + |line| + 2 <= received
                && Spells(m_read_buf[..], old(m_checked_idx), line)
                && m_read_buf[m_checked_idx - 1] == NUL
                && (forall k :: 0 <= k < old(m_checked_idx) || m_checked_idx <= k < READ_BUFFER_SIZE ==>
                      m_read_buf[k] == old(m_read_buf[k]))
      ensures status != LineOk ==> m_read_buf[..] == old(m_read_buf[..])
    {
      hide CStr, FirstOf, TakeLine, Spells;
      var str := m_checked_idx;
      var slashr := StrPbrk(str, "\r");
      var slashn := StrPbrk(str, "\n");
      LineIndices(m_read_buf[..], str, received, m_read_idx);
      ghost var line := TakeLine(Rest(), m_read_idx);
      assert m_read_buf[..][str..received] == Rest();
      assert line.Some? <==> slashr != NULL && slashn == slashr + 1 && slashn - str < m_read_idx;
      var slashrOk := slashr != NULL && slashr - str <= m_read_idx - 1;
      var slashnOk := slashn != NULL && slashn - str <= m_read_idx - 1;
      if slashnOk && slashrOk {
        var slashnIndex := slashn - str;
        var slashrIndex := slashr - str;
        m_checked_idx := m_checked_idx + slashnIndex + 1;
        if slashrIndex == slashnIndex - 1 {
          assert line.value == CStr(m_read_buf[..], str)[..slashrIndex];
          CutLine(str, slashrIndex, slashnIndex);
          status := LineOk;
        } else {
          status := LineBad;
        }
      } else if slashnOk {
        m_checked_idx := m_checked_idx + (slashn - str) + 1;
        status := LineBad;
      } else if slashrOk {
        m_checked_idx := m_checked_idx + (slashr - str) + 1;
        status := if slashr - str == m_read_idx - 1 then LineOpen else LineBad;
      } else {
        m_checked_idx := m_read_idx;
        status := LineOpen;
      }
    }

    /** *p = '\0', where p points k bytes into the string s at index i. */
    method Terminate(i: nat, k: nat, ghost s: string)
      requires Spells(m_read_buf[..], i, s) && k < |s|
      modifies m_read_buf
      ensures m_read_buf[..] == old(m_read_buf[..])[i + k := NUL]
      ensures Spells(m_read_buf[..], i, s[..k]) && CStr(m_read_buf[..], i) == s[..k]
      ensures Spells(m_read_buf[..], i + k + 1, s[k + 1..]) && CStr(m_read_buf[..], i + k + 1) == s[k + 1..]
    {
      hide CStr;
      SpellsCut(m_read_buf[..], i, s, k);
      m_read_buf[i + k] := NUL;
      assert m_read_buf[..] == old(m_read_buf[..])[i + k := NUL];
      SpellsCStr(m_read_buf[..], i, s[..k]);
      SpellsCStr(m_read_buf[..], i + k + 1, s[k + 1..]);
    }

    /** m_url += n; m_url = strchr(m_url, '/'); */
    method SkipToSlash(n: nat, ghost target: string)
      requires 0 <= m_url && Spells(m_read_buf[..], m_url, target) && n <= |target|
      modifies `m_url
      ensures var path := FromSlash(target[n..]);
              if path == "" then m_url == NULL
              else m_url + |path| == old(m_url) + |target| && Spells(m_read_buf[..], m_url, path)
    {
      hide CStr, FirstOf;
      SpellsDrop(m_read_buf[..], m_url, target, n);
      SpellsCStr(m_read_buf[..], m_url + n, target[n..]);
      m_url := m_url + n;
      m_url := StrPbrk(m_url, "/");
      if m_url != NULL {
        SpellsDrop(m_read_buf[..], old(m_url) + n, target[n..], FirstOf(target[n..], "/"));
      }
    }

    /** The path of a target: an absolute form loses its scheme and host. */
    method StripScheme(ghost target: string)
      requires 0 <= m_url && Spells(m_read_buf[..], m_url, target)
      modifies `m_url
      ensures if PathOf(target).Some?
              then && old(m_url) <= m_url && m_url + |PathOf(target).value| == old(m_url) + |target|
                   && Spells(m_read_buf[..], m_url, PathOf(target).value)
                   && m_read_buf[m_url] == '/'
              else m_url == NULL || (0 <= m_url < m_read_buf.Length && m_read_buf[m_url] != '/')
    {
      hide CStr, FromSlash, EqNoCase;
      SpellsCStr(m_read_buf[..], m_url, target);
      if StartsNoCase(CStr(m_read_buf[..], m_url), "http://") {
        SkipToSlash(7, target);
      } else if StartsNoCase(CStr(m_read_buf[..], m_url), "https://") {
        SkipToSlash(8, target);
      }
    }

    /** The second half of parse_request_: url, version, start page, next state. */
    method ResolveUrl(ghost target: string, ghost version: string) returns (ret: HttpState)
      requires 0 <= m_url && Spells(m_read_buf[..], m_url, target) && m_version == m_url + |target| + 1
      requires Spells(m_read_buf[..], m_version, version) && m_version + |version| + 2 <= m_read_buf.Length
      modifies m_read_buf, `m_check_state, `m_url
      ensures ret == if PathOf(target).Some? && EqNoCase(version, "HTTP/1.1") then Parsering else ErrorFormat
      ensures ret == Parsering ==>
                var url := UrlOf(PathOf(target).value);
                && m_check_state == CheckHeader
                && old(m_url) <= m_url && m_url + |url| < m_version + |version| + 2
                && Spells(m_read_buf[..], m_url, url)
      // the start page is written over the version and its ending, and nothing else is ever written
      ensures ret == Parsering && PathOf(target).value == "/" ==>
                && Spells(m_read_buf[..], m_version, "judge.html"[1..])
                && forall k :: 0 <= k < m_version - 1 || m_version + 10 <= k < m_read_buf.Length ==>
                     m_read_buf[k] == old(m_read_buf[k])
      ensures ret == ErrorFormat || PathOf(target).value != "/" ==> m_read_buf[..] == old(m_read_buf[..])
      ensures forall k :: 0 <= k < old(m_url) || m_version + |version| + 2 <= k < m_read_buf.Length ==>
                m_read_buf[k] == old(m_read_buf[k])
    {
      hide CStr, FirstOf, EqNoCase, PathOf, Spells;
      StripScheme(target);
      if m_url == NULL || m_read_buf[m_url] != '/' {
        return ErrorFormat;
      }
      ghost var path := PathOf(target).value;
      SpellsCStr(m_read_buf[..], m_url, path);
      SpellsCStr(m_read_buf[..], m_version, version);
      if !EqNoCase(CStr(m_read_buf[..], m_version), "HTTP/1.1") {
        return ErrorFormat;
      }
      if |CStr(m_read_buf[..], m_url)| == 1 {
        assert |version| == 8 by { EqLength(version, "HTTP/1.1"); }
        assert path == "/";
        StrCat(m_read_buf, m_url, path, "judge.html");
        assert (path + "judge.html")[2..] == "judge.html"[1..];
        SpellsDrop(m_read_buf[..], m_url, path + "judge.html", 2);
      }
      m_check_state := CheckHeader;
      return Parsering;
    }

    /** The middle of parse_request_: cut the version off, then resolve the url. */
    method ParseTarget(ghost tail: string) returns (ret: HttpState)
      requires 0 <= m_url && Spells(m_read_buf[..], m_url, tail) && m_url + |tail| + 2 <= m_read_buf.Length
      modifies m_read_buf, `m_check_state, `m_url, `m_version
      ensures ret == if ReadTarget(tail).Some? then Parsering else ErrorFormat
      ensures ret == Parsering ==>
                var url := ReadTarget(tail).value;
                && m_check_state == CheckHeader
                && old(m_url) <= m_url && m_url + |url| < old(m_url) + |tail| + 2
                && Spells(m_read_buf[..], m_url, url)
      ensures forall k :: 0 <= k < old(m_url) || old(m_url) + |tail| + 2 <= k < m_read_buf.Length ==>
                m_read_buf[k] == old(m_read_buf[k])
    {
      hide CStr, FirstOf, EqNoCase, PathOf, UrlOf;
      SpellsCStr(m_read_buf[..], m_url, tail);
      m_version := StrPbrk(m_url, " ");
      if m_version == NULL {
        return ErrorFormat;
      }
      ghost var t := m_version - m_url;
      Terminate(m_url, m_version - m_url, tail);
      m_version := m_version + 1;
      ret := ResolveUrl(tail[..t], tail[t + 1..]);
    }

    method ParseRequest_(text: nat, ghost line: string) returns (ret: HttpState)
      requires Spells(m_read_buf[..], text, line) && m_checked_idx == text + |line| + 2 <= m_read_buf.Length
      modifies m_read_buf, `m_check_state, `m_method, `m_cgi, `m_url, `m_version
      ensures ret == if ReadRequestLine(line).Some? then Parsering else ErrorFormat
      ensures ret == Parsering ==>
                var read := ReadRequestLine(line).value;
                && m_check_state == CheckHeader
                && m_method == read.verb && m_cgi == (if read.verb == POST then 1 else old(m_cgi))
                && text < m_url && m_url + |read.url| < m_checked_idx
                && Spells(m_read_buf[..], m_url, read.url)
      ensures forall k :: 0 <= k < text || m_checked_idx <= k < m_read_buf.Length ==> m_read_buf[k] == old(m_read_buf[k])
    {
      hide CStr, FirstOf, MethodOf, ReadTarget;
      SpellsCStr(m_read_buf[..], text, line);
      m_url := StrPbrk(text, " ");
      if m_url == NULL {
        return ErrorFormat;
      }
      ghost var m := m_url - text;
      Terminate(text, m_url - text, line);
      m_url := m_url + 1;
      match MethodOf(CStr(m_read_buf[..], text)) {
        case None =>
          return ErrorFormat;
        case Some(verb) =>
          m_method := verb;
          if verb == POST {
            m_cgi := 1;
          }
      }
      ret := ParseTarget(line[m + 1..]);
    }

    /** text += n; text += strspn(text, " \t"); */
    method SkipName(start: nat, n: nat, ghost line: string) returns (text: nat, ghost value: string)
      requires Spells(m_read_buf[..], start, line) && n <= |line|
      ensures value == SkipBlanks(line[n..])
      ensures start <= text && text + |value| == start + |line| < m_read_buf.Length
      ensures Spells(m_read_buf[..], text, value) && CStr(m_read_buf[..], text) == value
    {
      hide CStr, SpanOf;
      SpellsDrop(m_read_buf[..], start, line, n);
      SpellsCStr(m_read_buf[..], start + n, line[n..]);
      var k := SpanOf(CStr(m_read_buf[..], start + n), BLANKS);
      text, value := start + n + k, SkipBlanks(line[n..]);
      SpellsDrop(m_read_buf[..], start + n, line[n..], k);
      SpellsCStr(m_read_buf[..], text, value);
    }

    /** text = strpbrk(text, " \t"); if (text) *text = '\0'; */
    method CutBlank(text: nat, ghost s: string)
      requires Spells(m_read_buf[..], text, s)
      modifies m_read_buf
      ensures Spells(m_read_buf[..], text, FirstToken(s))
      ensures forall k :: 0 <= k < text || text + |s| <= k < m_read_buf.Length ==> m_read_buf[k] == old(m_read_buf[k])
    {
      hide CStr, FirstOf;
      SpellsCStr(m_read_buf[..], text, s);
      var blank := StrPbrk(text, BLANKS);
      if blank != NULL {
        Terminate(text, blank - text, s);
      }
    }

    /** CutBlank, and what it leaves of the recorded values when the value at text was just recorded. */
    method CutValue(text: nat, ghost s: string, ghost at: map<Field, int>, ghost fields: map<Field, string>, ghost low: nat,
                    ghost kept: Option<Field>, ghost fields': map<Field, string>, ghost stale: map<Field, int>)
      requires Spells(m_read_buf[..], text, s) && low <= text && text + |s| + 2 == m_checked_idx
      requires FieldsHold(m_read_buf[..], at, fields, low, stale)
      requires m_fields == if kept.Some? then at[kept.value := text] else at
      requires fields' == if kept.Some? then fields[kept.value := FirstToken(s)] else fields
      modifies m_read_buf
      ensures forall k :: 0 <= k < text || text + |s| <= k < m_read_buf.Length ==> m_read_buf[k] == old(m_read_buf[k])
      ensures FieldsHold(m_read_buf[..], m_fields, fields', m_checked_idx, stale)
    {
      hide FirstOf, FieldsHold;
      CutBlank(text, s);
      FieldsKept(old(m_read_buf[..]), m_read_buf[..], at, fields, low, m_checked_idx, stale, kept, text, FirstToken(s));
    }

    method ParseHeaders_(start: nat, ghost line: string, ghost h: Headers, ghost stale: map<Field, int>) returns (ret: HttpState)
      requires Spells(m_read_buf[..], start, line) && m_checked_idx == start + |line| + 2 <= m_read_buf.Length
      requires m_linger == h.linger && m_content_length == h.contentLength && errno == h.errno
      requires FieldsHold(m_read_buf[..], m_fields, h.fields, start, stale)
      modifies m_read_buf, `m_check_state, `m_linger, `m_content_length, `m_fields, `errno
      ensures line == "" ==>
                && ret == (if h.contentLength != 0 then Parsering else ReadyRequest)
                && m_check_state == (if h.contentLength != 0 then CheckContent else old(m_check_state))
                && m_linger == h.linger && m_content_length == h.contentLength && errno == h.errno
                && m_fields == old(m_fields) && m_read_buf[..] == old(m_read_buf[..])
      ensures line != "" ==>
                && ret == (if ReadHeader(h, line).Some? then Parsering else ErrorFormat)
                && m_check_state == old(m_check_state)
                && (ret == Parsering ==>
                      var h' := ReadHeader(h, line).value;
                      && m_linger == h'.linger && m_content_length == h'.contentLength && errno == h'.errno
                      && FieldsHold(m_read_buf[..], m_fields, h'.fields, m_checked_idx, stale))
      ensures forall k :: 0 <= k < start || start + |line| <= k < m_read_buf.Length ==> m_read_buf[k] == old(m_read_buf[k])
    {
      hide CStr, FirstOf, Spells, FieldsHold, ReadHeader;
      var text := start;
      SpellsCStr(m_read_buf[..], text, line);
      var t := CStr(m_read_buf[..], text);
      if t == "" {
        if m_content_length != 0 {
          m_check_state := CheckContent;
          return Parsering;
        }
        return ReadyRequest;
      }
      ret := ParseNamed_(text, line, h, stale);
    }

    /** The middle of parse_headers_: what a named line means, and where its value stands. */
    method ReadNamed_(start: nat, ghost line: string, ghost h: Headers)
      returns (ret: HttpState, text: nat, ghost value: string, ghost kept: Option<Field>)
      requires Spells(m_read_buf[..], start, line)
      requires m_linger == h.linger && m_content_length == h.contentLength && errno == h.errno
      modifies `m_linger, `m_content_length, `m_fields, `errno
      ensures ret == if ReadHeader(h, line).Some? then Parsering else ErrorFormat
      ensures ret == Parsering ==>
                && Spells(m_read_buf[..], text, value) && start <= text && text + |value| == start + |line|
                && m_fields == (if kept.Some? then old(m_fields)[kept.value := text] else old(m_fields))
                && ReadHeader(h, line) == Some(Headers(m_linger, m_content_length, errno,
                     if kept.Some? then h.fields[kept.value := FirstToken(value)] else h.fields))
    {
      hide CStr, StartsNoCase, FieldByPrefix, Spells, Strtol, NAMES, ReadHeader, AsInt, FirstToken, SkipBlanks;
      text, value, kept := start, line, None;
      SpellsCStr(m_read_buf[..], text, line);
      ReadHeaderByPrefix(h, line);
      ret := Parsering;
      var t := CStr(m_read_buf[..], text);
      if StartsNoCase(t, "Connection:") {
        text, value := SkipName(start, 11, line);
        if StartsNoCase(CStr(m_read_buf[..], text), "close") {
          m_linger := false;
        }
      } else if StartsNoCase(t, "Content-length:") {
        text, value := SkipName(start, 15, line);
        var (v, overflow) := Strtol(CStr(m_read_buf[..], text));
        m_content_length := AsInt(v);
        errno := if overflow then ERANGE else errno;
        if errno == EINVAL {
          ret := ErrorFormat;
        }
      } else {
        match FieldByPrefix(NAMES, t) {
          case Some((field, n)) =>
            text, value := SkipName(start, n, line);
            kept := Some(field);
            m_fields := m_fields[field := text];
          case None =>
        }
      }
      assert m_read_buf[..] == old(m_read_buf[..]);
    }

    /** parse_headers_ for a line that is not empty. */
    method ParseNamed_(start: nat, ghost line: string, ghost h: Headers, ghost stale: map<Field, int>) returns (ret: HttpState)
      requires Spells(m_read_buf[..], start, line) && m_checked_idx == start + |line| + 2 <= m_read_buf.Length
      requires m_linger == h.linger && m_content_length == h.contentLength && errno == h.errno
      requires FieldsHold(m_read_buf[..], m_fields, h.fields, start, stale)
      modifies m_read_buf, `m_linger, `m_content_length, `m_fields, `errno
      ensures ret == if ReadHeader(h, line).Some? then Parsering else ErrorFormat
      ensures ret == Parsering ==>
                var h' := ReadHeader(h, line).value;
                && m_linger == h'.linger && m_content_length == h'.contentLength && errno == h'.errno
                && FieldsHold(m_read_buf[..], m_fields, h'.fields, m_checked_idx, stale)
      ensures forall k :: 0 <= k < start || start + |line| <= k < m_read_buf.Length ==> m_read_buf[k] == old(m_read_buf[k])
    {
      hide FirstOf, ReadHeader, Spells, FieldsHold;
      var text;
      ghost var value, kept;
      ret, text, value, kept := ReadNamed_(start, line, h);
      if ret == Parsering {
        assert m_read_buf[..] == old(m_read_buf[..]);
        CutValue(text, value, old(m_fields), h.fields, start, kept, ReadHeader(h, line).value.fields, stale);
      }
    }

    method ParseContent_(text: nat) returns (ret: HttpState)
      requires Padded() && 0 <= text == m_checked_idx <= received
      modifies m_read_buf, `m_content
      ensures ret == if text + m_content_length > m_read_idx then ErrorFormat
                     else if m_content_length < 0 then NegativeLength else ReadyRequest
      ensures ret != ReadyRequest ==> m_content == old(m_content) && m_read_buf[..] == old(m_read_buf[..])
      ensures ret == ReadyRequest ==>
                && m_content == text
                && m_read_buf[..] == old(m_read_buf[..])[text + m_content_length := NUL]
    {
      if text + m_content_length <= m_read_idx {
        if m_content_length < 0 {
          return NegativeLength;
        }
        m_read_buf[text + m_content_length] := NUL;
        m_content := text;
        return ReadyRequest;
      } else {
        return ErrorFormat;
      }
    }

    /** What init_ leaves and read_ keeps until parsing starts. */
    ghost predicate Fresh()
      reads this, m_read_buf
    {
      && Padded()
      && m_check_state == CheckRequestLine && m_checked_idx == 0 && m_start_line == 0
      && m_linger && m_content_length == 0 && m_cgi == 0
    }

    /** Everything the request says, as the handler's fields and pointers say it. `stale` and
        `content` are the header pointers and the body pointer from before this request. */
    ghost predicate Holds(r: Request, stale: map<Field, int>, content: int)
      reads this, m_read_buf
    {
      && m_method == r.verb && m_cgi == (if r.verb == POST then 1 else 0)
      && m_linger == r.headers.linger && m_content_length == r.headers.contentLength && errno == r.headers.errno
      && Kept(m_read_buf[..], m_checked_idx - 1, m_url, r.url, m_fields, r.headers.fields, stale)
      && match r.body
         case None => m_content == content
         case Some(body) =>
           && m_content == m_checked_idx && m_content + |body| < m_read_buf.Length
           && m_read_buf[m_content..m_content + |body|] == body && m_read_buf[m_content + |body|] == NUL
    }

    /** Between two rounds of the loop of parse_. */
    ghost predicate Phase(t: Trace)
      reads `m_read_idx, `received, `m_checked_idx, m_read_buf, `m_check_state, `m_method, `m_cgi, `m_url
      reads `m_linger, `m_content_length, `m_fields, `m_content, `errno
    {
      && Padded() && 0 <= m_checked_idx <= received == |t.data| && m_read_idx == t.limit && m_content == t.content
      && m_linger == t.h.linger && m_content_length == t.h.contentLength && errno == t.h.errno
      && (m_check_state == CheckRequestLine ==>
            && t.h == FreshHeaders(t.errno) && Rest() == t.data && m_fields == t.stale && m_cgi == 0)
      && (m_check_state != CheckRequestLine ==>
            && TakeLine(t.data, t.limit) == Some(t.first) && ReadRequestLine(t.first) == Some(t.read) && |t.first| + 2 <= |t.data|
            && m_method == t.read.verb && m_cgi == (if t.read.verb == POST then 1 else 0)
            && Kept(m_read_buf[..], m_checked_idx, m_url, t.read.url, m_fields, t.h.fields, t.stale))
      && (m_check_state == CheckHeader ==>
            ReadHeaders(t.data[|t.first| + 2..], t.limit, FreshHeaders(t.errno)) == ReadHeaders(Rest(), t.limit, t.h))
      && (m_check_state == CheckContent ==>
            && 1 <= m_checked_idx && t.h.contentLength != 0
            && ReadHeaders(t.data[|t.first| + 2..], t.limit, FreshHeaders(t.errno)) == Some((t.h, Rest()))
            && Kept(m_read_buf[..], m_checked_idx - 1, m_url, t.read.url, m_fields, t.h.fields, t.stale))
    }

    /** A line was cut off at `text`, and the state of the parser is still that of the round before. */
    ghost predicate Cut(t: Trace, text: int, line: string)
      reads `m_read_idx, `received, `m_checked_idx, m_read_buf, `m_check_state, `m_method, `m_cgi, `m_url
      reads `m_linger, `m_content_length, `m_fields, `m_content, `errno
    {
      && Padded() && 0 <= m_checked_idx <= received == |t.data| && m_read_idx == t.limit && m_content == t.content
      && 0 <= text && m_checked_idx == text + |line| + 2 && Spells(m_read_buf[..], text, line)
      && m_linger == t.h.linger && m_content_length == t.h.contentLength && errno == t.h.errno
      && (m_check_state == CheckRequestLine ==>
            && t.h == FreshHeaders(t.errno) && m_fields == t.stale && m_cgi == 0
            && TakeLine(t.data, t.limit) == Some(line) && |line| + 2 <= |t.data| && Rest() == t.data[|line| + 2..])
      && (m_check_state == CheckHeader ==>
            && TakeLine(t.data, t.limit) == Some(t.first) && ReadRequestLine(t.first) == Some(t.read) && |t.first| + 2 <= |t.data|
            && m_method == t.read.verb && m_cgi == (if t.read.verb == POST then 1 else 0)
            && Kept(m_read_buf[..], text, m_url, t.read.url, m_fields, t.h.fields, t.stale)
            && ReadHeaders(t.data[|t.first| + 2..], t.limit, FreshHeaders(t.errno)) ==
               if line == "" then Some((t.h, Rest()))
               else if ReadHeader(t.h, line).None? then None
               else ReadHeaders(Rest(), t.limit, ReadHeader(t.h, line).value))
      && m_check_state != CheckContent
    }

    /** parse_line_, as parse_ uses it. */
    method NextLine(ghost t: Trace) returns (status: LineState, ghost line: string)
      requires Padded() && 0 <= m_checked_idx <= received && Phase(t) && m_check_state != CheckContent
      modifies `m_checked_idx, m_read_buf
      ensures Padded()
      ensures status == LineOk ==> old(m_checked_idx) < m_checked_idx <= received && Cut(t, old(m_checked_idx), line)
      ensures status != LineOk ==> ReadMessage(t.data, t.limit, t.errno) == Rejected
    {
      hide FirstOf, TakeLine, ReadRequestLine, ReadHeader, Spells, FieldsHold, Kept;
      ghost var before, at, rest := m_read_buf[..], m_checked_idx, Rest();
      status := ParseLine_();
      line := "";
      if status == LineOk {
        line := TakeLine(rest, m_read_idx).value;
        assert Rest() == rest[|line| + 2..];
        if m_check_state == CheckHeader {
          KeptFrame(before, m_read_buf[..], at, m_url, t.read.url, m_fields, t.h.fields, t.stale);
        }
      }
    }

    method OnRequestLine(text: nat, ghost t: Trace, ghost line: string) returns (ret: HttpState, ghost t': Trace)
      requires 0 <= m_checked_idx <= received && Cut(t, text, line) && m_check_state == CheckRequestLine
      modifies m_read_buf, `m_check_state, `m_method, `m_cgi, `m_url, `m_version
      ensures Padded() && (ret == Parsering || ret == ErrorFormat)
      ensures ret == Parsering ==> m_check_state == CheckHeader && Phase(t') && t' == t.(first := line, read := t'.read)
      ensures ret == ErrorFormat ==> ReadMessage(t.data, t.limit, t.errno) == Rejected
    {
      hide FirstOf, TakeLine, ReadRequestLine, ReadHeaders, Spells, FieldsHold, Kept;
      ghost var rest := Rest();
      ret := ParseRequest_(text, line);
      assert Rest() == rest;
      t' := t;
      if ret == Parsering {
        t' := t.(first := line, read := ReadRequestLine(line).value);
        KeptStart(m_read_buf[..], m_checked_idx, m_url, t'.read.url, m_fields);
      }
    }

    method OnHeader(text: nat, ghost t: Trace, ghost line: string) returns (ret: HttpState, ghost t': Trace)
      requires 0 <= m_checked_idx <= received && Cut(t, text, line) && m_check_state == CheckHeader
      modifies m_read_buf, `m_check_state, `m_linger, `m_content_length, `m_fields, `errno
      ensures Padded() && (ret == Parsering || ret == ErrorFormat || ret == ReadyRequest)
      ensures ret == Parsering ==> m_check_state != CheckRequestLine && Phase(t') && t' == t.(h := t'.h)
      ensures ret == ErrorFormat ==> ReadMessage(t.data, t.limit, t.errno) == Rejected
      ensures ret == ReadyRequest ==>
                && ReadMessage(t.data, t.limit, t.errno).Accepted?
                && Holds(ReadMessage(t.data, t.limit, t.errno).request, t.stale, t.content)
    {
      hide FirstOf, TakeLine, ReadRequestLine, ReadHeader, ReadHeaders, Spells, FieldsHold, Kept;
      ghost var rest, cut, fields := Rest(), m_read_buf[..], m_fields;
      KeptFrame(cut, cut, text, m_url, t.read.url, m_fields, t.h.fields, t.stale);
      ret := ParseHeaders_(text, line, t.h, t.stale);
      assert Rest() == rest;
      t' := t;
      if line != "" && ret == Parsering {
        t' := t.(h := ReadHeader(t.h, line).value);
        KeptHeader(cut, m_read_buf[..], text, m_checked_idx, m_url, t.read.url, fields, t.h.fields, m_fields, t'.h.fields, t.stale);
      }
    }

    method OnContent(text: nat, ghost t: Trace) returns (ret: HttpState)
      requires Padded() && 0 <= m_checked_idx <= received && Phase(t) && m_check_state == CheckContent && text == m_checked_idx
      modifies m_read_buf, `m_content
      ensures Padded()
      ensures ret == match ReadMessage(t.data, t.limit, t.errno)
                     case Accepted(_) => ReadyRequest
                     case Rejected => ErrorFormat
                     case Misplaced => NegativeLength
      ensures ret == ReadyRequest ==> Holds(ReadMessage(t.data, t.limit, t.errno).request, t.stale, t.content)
    {
      hide FirstOf, TakeLine, ReadRequestLine, ReadHeaders, Spells, FieldsHold, Kept;
      ghost var before, rest, n := m_read_buf[..], Rest(), m_content_length;
      ret := ParseContent_(text);
      if ret == ReadyRequest {
        assert m_read_buf[text..text + n] == before[text..text + n] == rest[..n];
        assert m_read_buf[..][text + n] == NUL;
      }
      KeptFrame(before, m_read_buf[..], text - 1, m_url, t.read.url, m_fields, t.h.fields, t.stale);
    }

    method Parse_() returns (ret: HttpState)
      requires Fresh()
      modifies m_read_buf, `m_checked_idx, `m_start_line, `m_check_state, `m_method, `m_cgi, `m_url, `m_version
      modifies `m_linger, `m_content_length, `m_fields, `m_content, `errno
      ensures Padded() && m_read_idx == old(m_read_idx) && received == old(received)
      ensures ret == match ReadMessage(old(m_read_buf[..received]), old(m_read_idx), old(errno))
                     case Accepted(_) => ReadyRequest
                     case Rejected => ErrorFormat
                     case Misplaced => NegativeLength
      ensures ret == ReadyRequest ==>
                Holds(ReadMessage(old(m_read_buf[..received]), old(m_read_idx), old(errno)).request, old(m_fields), old(m_content))
    {
      hide ReadMessage, Phase, Cut;
      var lineStatus := LineOpen;
      ghost var t := Trace(m_read_buf[..received], m_read_idx, errno, m_fields, m_content, "", RequestLine(GET, ""), FreshHeaders(errno));
      StartPhase(t);
      while true
        invariant Padded() && 0 <= m_checked_idx <= received == old(received) && m_read_idx == old(m_read_idx) && m_start_line == m_checked_idx && Phase(t)
        invariant m_check_state == CheckContent ==> lineStatus == LineOk
        invariant t.data == old(m_read_buf[..received]) && t.limit == old(m_read_idx) && t.errno == old(errno)
        invariant t.stale == old(m_fields) && t.content == old(m_content)
        decreases m_check_state != CheckContent, received - m_checked_idx
      {
        ghost var line := "";
        if !(m_check_state == CheckContent && lineStatus == LineOk) {
          lineStatus, line := NextLine(t);
          if lineStatus != LineOk {
            return ErrorFormat;
          }
        }
        var text := m_start_line;
        m_start_line := m_checked_idx;
        match m_check_state {
          case CheckRequestLine =>
            ret, t := OnRequestLine(text, t, line);
            if ret == ErrorFormat {
              return ErrorFormat;
            }
          case CheckHeader =>
            ret, t := OnHeader(text, t, line);
            if ret == ErrorFormat {
              return ErrorFormat;
            } else if ret == ReadyRequest {
              return ReadyRequest;
            }
          case CheckContent =>
            ret := OnContent(text, t);
            return ret;
        }
      }
    }

    lemma StartPhase(t: Trace)
      requires Fresh()
      requires t.data == m_read_buf[..received] && t.limit == m_read_idx && t.errno == errno && t.stale == m_fields && t.content == m_content
      requires t.h == FreshHeaders(errno)
      ensures Phase(t)
    {
    }

    /** The copying loops of do_request_: the bytes from the fifth up to '&', wherever it stands, and
        the C string ten bytes behind it. */
    method DecodeForm(at: int) returns (name: string, password: string)
      requires FormCopies(m_read_buf[..], at)
      ensures name == NameAt(m_read_buf[..], at) && password == CStr(m_read_buf[..], PasswordStart(m_read_buf[..], at))
    {
      hide FirstOf, CStr;
      ghost var b := m_read_buf[..];
      ghost var end, start := NameEnd(b, at), PasswordStart(b, at);
      ghost var n, text := end - (at + 5), CStr(b, start);
      NameEndIs(b, at);
      var nameBuf, passwordBuf := new char[100], new char[100];
      var i := 5;
      while m_read_buf[at + i] != '&'
        invariant 5 <= i <= 5 + n
        invariant forall k :: 0 <= k < i - 5 ==> nameBuf[k] == b[at + 5 + k]
        decreases 5 + n - i
      {
        nameBuf[i - 5] := m_read_buf[at + i];
        i := i + 1;
      }
      nameBuf[i - 5] := NUL;
      var j := 0;
      i := i + 10;
      assert at + i == start;
      while m_read_buf[at + i] != NUL
        invariant 0 <= j <= |text| && at + i == start + j
        invariant forall k :: 0 <= k < j ==> passwordBuf[k] == text[k]
        invariant nameBuf[n] == NUL && forall k :: 0 <= k < n ==> nameBuf[k] == b[at + 5 + k]
        decreases |text| - j
      {
        assert j < |text|;
        ByteOfCStr(b, start, j);
        passwordBuf[j] := m_read_buf[at + i];
        i, j := i + 1, j + 1;
      }
      if j < |text| {
        ByteOfCStr(b, start, j);
      }
      passwordBuf[j] := NUL;
      assert nameBuf[0..n] == b[at + 5..end];
      BodySpelled(nameBuf[..], 0, b[at + 5..end]);
      SpellsCStr(nameBuf[..], 0, CStr(b[at + 5..end], 0));
      SpellsCStr(passwordBuf[..], 0, text);
      name, password := CStr(nameBuf[..], 0), CStr(passwordBuf[..], 0);
    }

    /** DecodeForm on a body that is a form. */
    method TakeForm(ghost content: string) returns (name: string, password: string)
      requires Spells(m_read_buf[..], m_content, content) && FormFits(content)
      ensures name == FormName(content) && password == FormPassword(content)
    {
      FormInBuffer(m_read_buf[..], m_content, content);
      name, password := DecodeForm(m_content);
    }

    /** m_real_file becomes the root, a slash, and the url without its first two characters. */
    method BuildPath(root: string, ghost url: string)
      requires m_real_file.Length == FILENAME_LEN && m_real_file != m_read_buf && NUL !in root
      requires 0 <= m_url && Spells(m_read_buf[..], m_url, url) && 2 <= |url| && |root| + |url| - 1 < FILENAME_LEN
      requires Rooted(m_real_file[..], root, true)
      modifies m_real_file
      ensures Spells(m_real_file[..], 0, root + "/" + url[2..])
      ensures Rooted(m_real_file[..], root, false)
    {
      hide CStr;
      SpellsDrop(m_read_buf[..], m_url, url, 2);
      SpellsCStr(m_read_buf[..], m_url + 2, url[2..]);
      StrCpy(m_real_file, 0, root);
      StrCat(m_real_file, 0, root, "/");
      StrCat(m_real_file, 0, root + "/", CStr(m_read_buf[..], m_url + 2));
    }

    /** The registration and login of do_request_. Its mutex is a local variable, so it excludes nobody:
        runs of this are sequential by assumption. */
    method UpdateTable(table: UserTable, flag: char, name: string, password: string, stored: bool) returns (page: string)
      modifies table
      ensures var account := if flag == '3' then Register(name, password, stored) else Login(name, password);
              table.users == AccountUsers(old(table.users), account) && page == AccountPage(old(table.users), account)
    {
      if flag == '3' {
        if name !in table.users {
          table.users := table.users[name := password];
          page := if stored then LOGIN else REGISTER_ERROR;
        } else {
          page := REGISTER_ERROR;
        }
      } else {
        page := if name in table.users && table.users[name] == password then WELCOME else LOGIN_ERROR;
      }
    }

    /** The first branch of do_request_: a posted form is answered by overwriting m_url. */
    method AnswerForm(root: string, table: UserTable, stored: bool, slash: nat, ghost url: string, ghost content: string)
      requires m_real_file.Length == FILENAME_LEN && m_real_file != m_read_buf && NUL !in root
      requires Spells(m_read_buf[..], m_url, url) && '/' in url && m_url + 20 <= m_read_buf.Length
      requires slash == m_url + LastSlash(url) && (Flag(url) == '2' || Flag(url) == '3')
      requires Spells(m_read_buf[..], m_content, content) && FormFits(content)
      requires PathsFit(root, url, FormAccount(url, content, stored))
      requires Rooted(m_real_file[..], root, true)
      modifies m_read_buf, m_real_file, table
      ensures table.users == AccountUsers(old(table.users), FormAccount(url, content, stored))
      ensures Spells(m_read_buf[..], m_url, AccountPage(old(table.users), FormAccount(url, content, stored)))
      ensures slash + 1 < m_read_buf.Length && FixedPage(m_read_buf[slash + 1]).None?
      ensures Rooted(m_real_file[..], root, false)
    {
      hide CStr, FirstOf, LastSlash, FormFits, FixedPage, Rooted, AccountPage, AccountUsers;
      // the path built here is overwritten by the caller before it is used
      ghost var account := FormAccount(url, content, stored);
      BuildPath(root, url);
      var name, password := TakeForm(content);
      var flag := m_read_buf[slash + 1];
      var page := UpdateTable(table, flag, name, password, stored);
      PageText(old(table.users), account);
      StrCpy(m_read_buf, m_url, page);
      ghost var k := LastSlash(url) + 1;
      assert m_read_buf[slash + 1] == if k < |page| then page[k] else if k == |page| then NUL else flag;
    }

    /** The part of do_request_ that picks the page and copies it behind the root. */
    method CopyPage(root: string, slash: nat, ghost page: string)
      requires m_read_buf.Length == READ_BUFFER_SIZE && slash + 1 < m_read_buf.Length
      requires m_real_file.Length == FILENAME_LEN && m_real_file != m_read_buf && NUL !in root && |root| + 20 <= FILENAME_LEN
      requires 0 <= m_url && Spells(m_read_buf[..], m_url, page)
      requires Rooted(m_real_file[..], root, FixedPage(m_read_buf[slash + 1]).Some?)
      modifies m_real_file
      ensures var served := if FixedPage(m_read_buf[slash + 1]).Some? then FixedPage(m_read_buf[slash + 1]).value else page;
              Spells(m_real_file[..], 0, ServedPath(root, served))
    {
      hide CStr, FixedPage;
      SpellsCStr(m_read_buf[..], m_url, page);
      FixedPageText(m_read_buf[slash + 1]);
      match FixedPage(m_read_buf[slash + 1]) {
        case Some(fixed) =>
          StrNCpy(m_real_file, |root|, fixed, |fixed|);
        case None =>
          StrNCpy(m_real_file, |root|, CStr(m_read_buf[..], m_url), FILENAME_LEN - |root| - 1);
          assert m_real_file[FILENAME_LEN - 1] == NUL;
      }
      ghost var path := ServedPath(root, if FixedPage(m_read_buf[slash + 1]).Some? then FixedPage(m_read_buf[slash + 1]).value else page);
      assert forall k :: 0 <= k < |path| ==> m_real_file[k] == path[k];
      assert m_real_file[|path|] == NUL;
    }

    /** The end of do_request_: stat, open, mmap and close. */
    method OpenFile(files: map<string, FileStat>, ghost path: string) returns (ret: HttpState)
      requires Spells(m_real_file[..], 0, path)
      modifies `m_file_size
      ensures ret == Verdict(files, path)
      ensures ret == FinishedRequest <==> path in files && files[path].Delivered()
      ensures ret == FinishedRequest ==> m_file_size == |files[path].content|
    {
      SpellsCStr(m_real_file[..], 0, path);
      var file := CStr(m_real_file[..], 0);
      if file !in files {
        return ErrorFileNotFound;
      }
      m_file_size := |files[file].content|;
      if !files[file].readable {
        return ErrorAccessFailed;
      }
      if files[file].directory {
        return ErrorFormat;
      }
      if !files[file].opens {
        return ErrorAccessFailed;
      }
      if !files[file].maps {
        return InternalError;
      }
      if !files[file].closes {
        return InternalError;
      }
      return FinishedRequest;
    }

    /** strcpy(m_real_file, __ROOTPATH__) */
    method CopyRoot(root: string)
      requires m_real_file.Length == FILENAME_LEN && forall k :: 0 <= k < FILENAME_LEN ==> m_real_file[k] == NUL
      requires NUL !in root && |root| < FILENAME_LEN
      modifies m_real_file
      ensures Rooted(m_real_file[..], root, true)
    {
      StrCpy(m_real_file, 0, root);
    }

    /** do_request_: `files` is the file system, `stored` whether the database takes an insertion.
        The paths and the form must fit the buffers they are copied to. */
    method DoRequest_(root: string, files: map<string, FileStat>, table: UserTable, stored: bool,
                      ghost url: string, ghost content: string)
      returns (ret: HttpState)
      requires m_read_buf.Length == READ_BUFFER_SIZE && m_real_file.Length == FILENAME_LEN && m_real_file != m_read_buf
      requires forall k :: 0 <= k < FILENAME_LEN ==> m_real_file[k] == NUL
      requires NUL !in root && |root| + 20 <= FILENAME_LEN
      requires 0 <= m_url && Spells(m_read_buf[..], m_url, url) && '/' in url
      requires m_cgi == if m_method == POST then 1 else 0
      requires IsForm(m_method, url) ==>
                 && m_url + 20 <= READ_BUFFER_SIZE
                 && Spells(m_read_buf[..], m_content, content) && FormFits(content)
                 && PathsFit(root, url, FormAccount(url, content, stored))
      modifies m_read_buf, m_real_file, table, `m_file_size
      ensures table.users == UsersAfter(m_method, url, content, old(table.users), stored)
      ensures var path := ServedPath(root, Page(m_method, url, content, old(table.users), stored));
              && Spells(m_real_file[..], 0, path)
              && ret == Verdict(files, path)
              && (ret == FinishedRequest ==> m_file_size == |files[path].content|)
    {
      hide CStr, FirstOf, LastSlash, FixedPage, Spells, FormFits, PathsFit, Rooted, Page, UsersAfter, AccountPage, AccountUsers, FormAccount;
      PageCases(m_method, url, content, table.users, stored);
      SpellsCStr(m_read_buf[..], m_url, url);
      ghost var page := url;
      ghost var text := m_read_buf[..];
      CopyRoot(root);
      assert m_read_buf[..] == text;
      var slash := m_url + LastSlash(CStr(m_read_buf[..], m_url));
      FlagAt(m_read_buf[..], m_url, url);
      if m_cgi == 1 && (m_read_buf[slash + 1] == '2' || m_read_buf[slash + 1] == '3') {
        page := AccountPage(table.users, FormAccount(url, content, stored));
        AnswerForm(root, table, stored, slash, url, content);
      } else {
        RootedEither(m_real_file[..], root, FixedPage(Flag(url)).Some?);
      }
      CopyPage(root, slash, page);
      ghost var path := ServedPath(root, Page(m_method, url, content, old(table.users), stored));
      ret := OpenFile(files, path);
    }

    // -------------------------------------------------------------- writing

    /** add_response_, for an already formatted text: vsnprintf writes what fits, and the text
        counts only if all of it did. */
    method AddResponse_(text: string) returns (ok: bool)
      requires m_write_buf.Length == WRITE_BUFFER_SIZE && m_write_idx < WRITE_BUFFER_SIZE
      modifies m_write_buf, `m_write_idx
      ensures ok <==> |text| < WRITE_BUFFER_SIZE - 1 - old(m_write_idx)
      ensures m_write_idx == (if ok then old(m_write_idx) + |text| else old(m_write_idx)) < WRITE_BUFFER_SIZE
      ensures m_write_buf[..m_write_idx] == old(m_write_buf[..m_write_idx]) + if ok then text else ""
    {
      var room := WRITE_BUFFER_SIZE - 1 - m_write_idx;
      ghost var was := m_write_buf[..m_write_idx];
      if room > 0 {
        var n := if |text| < room then |text| else room - 1;
        for j := 0 to n
          invariant m_write_idx == old(m_write_idx)
          invariant m_write_buf[..m_write_idx + j] == was + text[..j]
        {
          m_write_buf[m_write_idx + j] := text[j];
        }
        m_write_buf[m_write_idx + n] := NUL;
        assert m_write_buf[..m_write_idx + n] == was + text[..n];
      }
      assert m_write_buf[..m_write_idx] == was;
      if |text| >= room {
        return false;
      }
      m_write_idx := m_write_idx + |text|;
      return true;
    }

    /** add_status_, whose result is not looked at. */
    method AddStatus_(status: nat, title: string)
      requires m_write_buf.Length == WRITE_BUFFER_SIZE && m_write_idx == 0 && |StatusText(status, title)| <= 30
      modifies m_write_buf, `m_write_idx
      ensures 0 < m_write_idx <= 30 && m_write_buf[..m_write_idx] == StatusText(status, title)
    {
      var ok := AddResponse_(StatusText(status, title));
    }

    /** add_headers_: three prints whose results are not looked at. */
    method AddHeaders_(length: int)
      requires m_write_buf.Length == WRITE_BUFFER_SIZE && m_write_idx <= 30 && |HeaderText(length, m_linger)| <= 60
      modifies m_write_buf, `m_write_idx
      ensures old(m_write_idx) <= m_write_idx <= 90
      ensures m_write_buf[..m_write_idx] == old(m_write_buf[..m_write_idx]) + HeaderText(length, m_linger)
    {
      hide Decimal;
      var ok := AddResponse_("Content-Length:" + Decimal(length) + CRLF);
      ok := AddResponse_("Connection:" + (if m_linger then "keep-alive" else "close") + CRLF);
      ok := AddResponse_(CRLF);
    }

    /** A response whose body is a text: status, headers for its length, and the text itself. */
    method AddText_(status: nat, title: string, text: string) returns (ok: bool)
      requires m_write_buf.Length == WRITE_BUFFER_SIZE && m_write_idx == 0
      requires Small(Response(status, title, text, 0))
      modifies m_write_buf, `m_write_idx
      ensures ok && 0 < m_write_idx <= 160
      ensures m_write_buf[..m_write_idx] == HeadOf(Response(status, title, text, 0), m_linger)
    {
      hide StatusText, HeaderText, Small;
      HeadFits(Response(status, title, text, 0), m_linger);
      AddStatus_(status, title);
      AddHeaders_(AsInt(|text|));
      ok := AddResponse_(text);
    }

    /** write_to_buffer_ on an empty buffer: the answer to every outcome a request can have is
        printed in full, and bytes_to_send counts it as an int. The vectors in use are counted on from
        what the last response left; VectorsFit says when they are the ones meant. */
    method WriteToBuffer_(ret: HttpState) returns (ok: bool)
      requires m_write_buf.Length == WRITE_BUFFER_SIZE && m_write_idx == 0 && bytes_to_send == 0
      modifies m_write_buf, `m_write_idx, `m_iv0, `m_iv1, `m_iv_count, `bytes_to_send
      ensures m_write_idx <= 160
      ensures ok <==> ResponseTo(ret, m_file_size).Some?
      ensures ok ==>
                var r := ResponseTo(ret, m_file_size).value;
                && m_write_buf[..m_write_idx] == HeadOf(r, m_linger) && 0 < m_write_idx
                && bytes_to_send == AsInt(AsInt(r.file) + m_write_idx)
                && m_iv_count == old(m_iv_count) + (if r.file > 0 then 2 else 1)
                && (bytes_have_send == 0 ==> VectorsFit(View(0, []), r.file, old(m_iv_count), old(m_iv1)))
    {
      hide HeadOf, Small, AsInt;
      ResponsesSmall(ret, m_file_size);
      assert AsInt(0) == 0;
      match ret {
        case InternalError =>
          ok := AddText_(500, "Internal Error", FORM_500);
        case ErrorFormat =>
          ok := AddText_(400, "Bad Request", FORM_400);
        case ErrorAccessFailed =>
          ok := AddText_(403, "Forbidden", FORM_403);
        case ErrorFileNotFound =>
          ok := AddText_(404, "Not Found", FORM_404);
        case FinishedRequest =>
          if m_file_size != 0 {
            AddFileHead_(m_file_size);
            m_iv1 := W.IoVec(W.File, 0, m_file_size);
            m_iv_count := m_iv_count + 1;
            bytes_to_send := AsInt(m_file_size);
          } else {
            ok := AddText_(200, "OK", EMPTY_PAGE);
          }
        case _ =>
          return false;
      }
      m_iv0 := W.IoVec(W.Head, 0, m_write_idx);
      m_iv_count := m_iv_count + 1;
      bytes_to_send := AsInt(bytes_to_send + m_write_idx);
      VectorsFitIf(View(0, []), m_write_idx, if ret == FinishedRequest then m_file_size else 0, old(m_iv_count), old(m_iv1));
      return true;
    }

    /** The status line and headers in front of a file. */
    method AddFileHead_(size: nat)
      requires m_write_buf.Length == WRITE_BUFFER_SIZE && m_write_idx == 0
      requires Small(Response(200, "OK", "", size))
      modifies m_write_buf, `m_write_idx
      ensures 0 < m_write_idx <= 160
      ensures m_write_buf[..m_write_idx] == HeadOf(Response(200, "OK", "", size), m_linger)
    {
      hide StatusText, HeaderText, Small;
      HeadFits(Response(200, "OK", "", size), m_linger);
      AddStatus_(200, "OK");
      AddHeaders_(AsInt(size));
    }

    /** The loop's state, with the local newadd and the bytes already on the wire. */
    function View(newadd: int, wire: seq<W.Origin>): W.Writer
      reads `m_write_idx, `m_iv0, `m_iv1, `m_iv_count, `bytes_have_send, `bytes_to_send
    {
      W.Writer(m_write_idx, m_iv0, m_iv1, m_iv_count, bytes_have_send, bytes_to_send, newadd, wire)
    }

    /** The EAGAIN branch of write_to_fd_. */
    method AfterRefusal(newadd: int, ghost wire: seq<W.Origin>)
      modifies `m_iv0, `m_iv1
      ensures View(newadd, wire) == old(View(newadd, wire)).Resume()
    {
      if bytes_have_send >= m_iv0.len {
        m_iv0 := m_iv0.(len := 0);
        m_iv1 := W.IoVec(W.File, newadd, if bytes_to_send >= 0 then bytes_to_send else 0);
      } else {
        m_iv0 := W.IoVec(m_iv0.region, bytes_to_send, m_iv0.len - bytes_have_send);
      }
    }

    /** write_to_fd_: `answers` are what the writes return, in order, of which it uses up some; the
        loop is left open when they run out. `closed` says that the connection was given up. With more
        than two vectors in use the source reads past the two there are, and nothing is said. */
    method WriteToFd_(answers: seq<W.Answer>)
      returns (ending: W.Ending, closed: bool, wire: seq<W.Origin>, ghost used: nat)
      requires Buffers()
      modifies this, m_read_buf, m_write_buf, m_real_file
      ensures old(m_iv_count) <= 2 ==>
                var (e, w, n) := W.Drain(old(View(0, [])), answers);
                ending == e && wire == w.wire && used == n
      ensures closed <==> ending == W.Broken || (ending == W.Done && !old(m_linger))
      ensures mysql == if ending == W.Done && old(m_linger) then None else old(mysql)
      ensures ending == W.Done && old(m_linger) ==> Ready()
    {
      hide Padded, Ready, Goal, W.Drain;
      wire := [];
      var newadd := 0;
      var i := 0;
      ghost var start := View(0, []);
      ghost var linger := m_linger;
      GoalIsDrain(start, answers);
      assert answers[0..] == answers;
      while i < |answers|
        invariant 0 <= i <= |answers| && m_linger == linger && mysql == old(mysql)
        invariant Goal(start, answers, 0) == Goal(View(newadd, wire), answers[i..], i)
      {
        GoalStep(View(newadd, wire), answers[i..], i);
        assert answers[i + 1..] == answers[i..][1..];
        var answer := answers[i];
        i := i + 1;
        if answer.Sent? {
          var offer := View(newadd, wire).Offer();
          var temp := if answer.k <= |offer| then answer.k else |offer|;
          if temp > 0 {
            wire := wire + offer[..temp];
            bytes_have_send := bytes_have_send + temp;
            newadd := bytes_have_send - m_write_idx;
            bytes_to_send := bytes_to_send - temp;
            if bytes_to_send <= 0 {
              if m_linger {
                Init_();
                return W.Done, false, wire, i;
              } else {
                return W.Done, true, wire, i;
              }
            }
          }
        } else if answer.Again? {
          AfterRefusal(newadd, wire);
        } else {
          return W.Broken, true, wire, i;
        }
      }
      GoalEnd(View(newadd, wire), answers[i..], i);
      return W.Open, false, wire, i;
    }

    // -------------------------------------------------------------- between requests

    method Init_()
      requires Buffers()
      modifies this, m_read_buf, m_write_buf, m_real_file
      ensures Ready() && mysql == None
      ensures m_iv_count == old(m_iv_count) && m_content == old(m_content) && errno == old(errno)
      ensures m_fields == old(m_fields) - {Host}
    {
      mysql := None;
      bytes_to_send, bytes_have_send := 0, 0;
      ResetParser();
      m_write_idx := 0;
      ClearBuffers();
    }

    /** The assignments of init_ to the fields of the parser. */
    method ResetParser()
      modifies `m_check_state, `m_linger, `m_method, `m_url, `m_version, `m_content_length, `m_fields, `m_cgi
      modifies `m_start_line, `m_checked_idx, `m_read_idx, `received
      ensures m_check_state == CheckRequestLine && m_linger && m_content_length == 0 && m_cgi == 0
      ensures m_checked_idx == 0 == m_start_line && m_read_idx == 0 == received
      ensures m_url == NULL == m_version && m_method == GET
      ensures m_fields == old(m_fields) - {Host}
    {
      m_check_state, m_linger, m_method := CheckRequestLine, true, GET;
      m_url, m_version := NULL, NULL;
      m_content_length := 0;
      m_fields := m_fields - {Host};
      m_start_line, m_checked_idx, m_read_idx := 0, 0, 0;
      received := 0;
      m_cgi := 0;
    }

    /** The three memsets of init_. */
    method ClearBuffers()
      requires Buffers()
      modifies m_read_buf, m_write_buf, m_real_file
      ensures forall k :: 0 <= k < READ_BUFFER_SIZE ==> m_read_buf[k] == NUL
      ensures forall k :: 0 <= k < WRITE_BUFFER_SIZE ==> m_write_buf[k] == NUL
      ensures forall k :: 0 <= k < FILENAME_LEN ==> m_real_file[k] == NUL
    {
      StrNCpy(m_read_buf, 0, "", READ_BUFFER_SIZE);
      StrNCpy(m_write_buf, 0, "", WRITE_BUFFER_SIZE);
      StrNCpy(m_real_file, 0, "", FILENAME_LEN);
    }

    /** read_: whatever arrives in whatever order, buffer, count and errno end as Receive says. Bytes
        that would go in front of the buffer end the model's reading. */
    method Read_(arrivals: seq<Arrival>) returns (end: ReadEnd)
      requires Buffers() && Filled()
      modifies m_read_buf, `m_read_idx, `received, `errno
      ensures Filled()
      ensures Reading(m_read_buf[..received], m_read_idx, errno, end) ==
              old(Receive(m_read_buf[..received], m_read_idx, errno, TRIES, arrivals))
    {
      var tries: nat := TRIES;
      var i := 0;
      ghost var goal := Receive(m_read_buf[..received], m_read_idx, errno, TRIES, arrivals);
      assert arrivals[0..] == arrivals;
      while m_read_idx < READ_BUFFER_SIZE
        invariant 0 <= i <= |arrivals| && 1 <= tries <= TRIES && Filled()
        invariant Receive(m_read_buf[..received], m_read_idx, errno, tries, arrivals[i..]) == goal
        decreases |arrivals| - i + tries
      {
        var arrival := Refused;
        if i < |arrivals| {
          assert arrivals[i..][0] == arrivals[i] && arrivals[i..][1..] == arrivals[i + 1..];
          arrival := arrivals[i];
          i := i + 1;
        }
        var bytesRead: int;
        match arrival {
          case Bytes(text) =>
            if m_read_idx < 0 {
              return Outside;
            }
            var room := READ_BUFFER_SIZE - m_read_idx;
            bytesRead := if |text| <= room then |text| else room;
            Store(text[..bytesRead]);
            if |text| > room {
              m_read_idx := m_read_idx + bytesRead;
              return Closed;
            }
            assert text[..bytesRead] == text;
          case Refused =>
            bytesRead := -1;
            errno := EAGAIN;
            tries := tries - 1;
            if tries == 0 {
              return Finished;
            }
          case Shut =>
            return Closed;
          case Broken(e) =>
            errno := e;
            return Closed;
        }
        m_read_idx := m_read_idx + bytesRead;
      }
      return Closed;
    }

    /** What recv does to the buffer. */
    method Store(bytes: string)
      requires Filled() && 0 <= m_read_idx && m_read_idx + |bytes| <= READ_BUFFER_SIZE
      modifies m_read_buf, `received
      ensures Filled() && m_read_idx + |bytes| <= received
      ensures m_read_buf[..received] == Overwrite(old(m_read_buf[..received]), m_read_idx, bytes)
    {
      for j := 0 to |bytes|
        invariant received == old(received)
        invariant forall k :: 0 <= k < READ_BUFFER_SIZE ==>
                    m_read_buf[k] == if m_read_idx <= k < m_read_idx + j then bytes[k - m_read_idx] else old(m_read_buf[k])
      {
        m_read_buf[m_read_idx + j] := bytes[j];
      }
      if received < m_read_idx + |bytes| {
        received := m_read_idx + |bytes|;
      }
    }

    // -------------------------------------------------------------- one request

    /** parse_ together with the do_request_ it ends in: the outcome, and what became of the
        accounts, are functions of the bytes received, the accounts and the file system. */
    method Serve_(root: string, files: map<string, FileStat>, table: UserTable, stored: bool) returns (ret: HttpState, ghost outcome: Outcome)
      requires Buffers() && Fresh() && NUL !in root && |root| + 20 <= FILENAME_LEN
      requires forall k :: 0 <= k < FILENAME_LEN ==> m_real_file[k] == NUL
      requires Answerable(ReadMessage(m_read_buf[..received], m_read_idx, errno), root, stored)
      modifies m_read_buf, `m_checked_idx, `m_start_line, `m_check_state, `m_method, `m_cgi, `m_url, `m_version
      modifies `m_linger, `m_content_length, `m_fields, `m_content, `errno, m_real_file, table, `m_file_size
      ensures outcome == old(ReadMessage(m_read_buf[..received], m_read_idx, errno))
      ensures Served(outcome, root, files, old(table.users), stored, ret, m_file_size, table.users, m_linger)
    {
      hide CStr, ReadMessage, Page, UsersAfter, Verdict, FormFits, PathsFit, FieldsHold, Spells, Flag;
      outcome := ReadMessage(m_read_buf[..received], m_read_idx, errno);
      ret := Parse_();
      if ret == ReadyRequest {
        ghost var r := outcome.request;
        KeptUrl(m_read_buf[..], m_checked_idx - 1, m_url, r.url, m_fields, r.headers.fields, old(m_fields));
        if IsForm(r.verb, r.url) {
          BodySpelled(m_read_buf[..], m_content, r.body.value);
          FormIsLong(m_read_buf[..], m_url, r.url, m_content, BodyText(r));
        }
        VerdictFinished(files, PathOfRequest(r, root, table.users, stored));
        ret := DoRequest_(root, files, table, stored, r.url, BodyText(r));
      }
    }

    /** And on to the response: what is in the write buffer is the head of the answer to what was
        read. */
    method Respond_(root: string, files: map<string, FileStat>, table: UserTable, stored: bool)
      returns (ok: bool, ghost outcome: Outcome)
      requires Buffers() && Fresh() && NUL !in root && |root| + 20 <= FILENAME_LEN
      requires m_write_idx == 0 && bytes_to_send == 0
      requires forall k :: 0 <= k < FILENAME_LEN ==> m_real_file[k] == NUL
      requires Answerable(ReadMessage(m_read_buf[..received], m_read_idx, errno), root, stored)
      modifies m_read_buf, `m_checked_idx, `m_start_line, `m_check_state, `m_method, `m_cgi, `m_url, `m_version
      modifies `m_linger, `m_content_length, `m_fields, `m_content, `errno, m_real_file, table, `m_file_size
      modifies m_write_buf, `m_write_idx, `m_iv0, `m_iv1, `m_iv_count, `bytes_to_send
      ensures outcome == old(ReadMessage(m_read_buf[..received], m_read_idx, errno))
      ensures m_write_idx <= 160 && (ok ==> 0 < m_write_idx)
      ensures Answered(outcome, root, files, old(table.users), stored, table.users, ok, m_linger,
                       m_write_buf[..m_write_idx], old(m_iv_count), old(m_iv1), View(0, []))
    {
      assert m_write_buf.Length == WRITE_BUFFER_SIZE;
      hide *;
      var ret;
      ret, outcome := Serve_(root, files, table, stored);
      ok := Print_(ret, outcome, root, files, old(table.users), stored, table.users);
    }

    /** write_to_buffer_ for what do_request_ returned. */
    method Print_(ret: HttpState, ghost outcome: Outcome, ghost root: string, ghost files: map<string, FileStat>,
                  ghost users: map<string, string>, ghost stored: bool, ghost users': map<string, string>)
      returns (ok: bool)
      requires m_write_buf.Length == WRITE_BUFFER_SIZE && m_write_idx == 0 && bytes_to_send == 0
      requires Served(outcome, root, files, users, stored, ret, m_file_size, users', m_linger)
      modifies m_write_buf, `m_write_idx, `m_iv0, `m_iv1, `m_iv_count, `bytes_to_send
      ensures m_write_idx <= 160 && (ok ==> 0 < m_write_idx)
      ensures Answered(outcome, root, files, users, stored, users', ok, m_linger,
                       m_write_buf[..m_write_idx], old(m_iv_count), old(m_iv1), View(0, []))
    {
      hide Served, HeadOf, Answered, ResponseTo, VectorsFit, W.Started;
      ok := WriteToBuffer_(ret);
      AnsweredBy(outcome, root, files, users, stored, ret, m_file_size,
                 users', ok, m_linger, m_write_buf[..m_write_idx], old(m_iv_count), old(m_iv1), View(0, []));
    }

    /** process: read_, parse_ and write_, for a handler as init_ left it. `start` is what the write loop
        starts from, `linger` whether the answer keeps the connection, `used` how many answers it took.
        When read_ has closed the connection, the source goes on to write to an SSL object that is null;
        the model stops there. */
    method Process_(root: string, files: map<string, FileStat>, table: UserTable, stored: bool,
                    arrivals: seq<Arrival>, answers: seq<W.Answer>)
      returns (ending: W.Ending, closed: bool, wire: seq<W.Origin>, ghost used: nat, ghost linger: bool, ghost start: W.Writer)
      requires Buffers() && Ready() && NUL !in root && |root| + 20 <= FILENAME_LEN
      requires var r := Receive("", 0, errno, TRIES, arrivals);
               && r.end != Outside && |r.data| < READ_BUFFER_SIZE
               && Answerable(ReadMessage(r.data, r.count, r.errno), root, stored)
      modifies this, m_read_buf, m_real_file, m_write_buf, table
      ensures var r := Receive("", 0, old(errno), TRIES, arrivals);
              var outcome := ReadMessage(r.data, r.count, r.errno);
              var answer := AnswerTo(outcome, root, files, old(table.users), stored);
              && table.users == AccountsAfter(outcome, root, old(table.users), stored)
              && (outcome.Accepted? ==> linger == outcome.request.headers.linger)
              && (answer.None? || r.end == Closed ==> closed && wire == [] && ending == W.Broken)
              && (answer.Some? && r.end == Finished ==>
                    && (closed <==> ending == W.Broken || (ending == W.Done && !linger))
                    && start.header == |HeadOf(answer.value, linger)|
                    && VectorsFit(start, answer.value.file, old(m_iv_count), old(m_iv1))
                    && (start.count <= 2 ==> (ending, wire, used) == Goal(start, answers, 0))
                    && (ending == W.Done && W.Positive(answers) && VectorsFree(answer.value.file, old(m_iv_count), old(m_iv1)) ==>
                          Reaches(answer.value, linger, FileOf(outcome, root, files, old(table.users), stored),
                                  start, answers, used, wire)))
      // a kept connection leaves the handler ready for the next request, without its database connection
      ensures ending == W.Done && linger ==> Ready()
      ensures mysql == if ending == W.Done && linger then None else old(mysql)
    {
      hide ReadMessage, Receive, HeadOf, Answerable, AnswerTo, AccountsAfter, Reaches, Ready, Goal, VectorsFit, W.Started, W.Drain;
      ReadyIsFresh();
      var end := Read_(arrivals);
      ghost var outcome := ReadMessage(m_read_buf[..received], m_read_idx, errno);
      ghost var answer, file := AnswerTo(outcome, root, files, table.users, stored), FileOf(outcome, root, files, table.users, stored);
      var ok;
      ok, outcome := Respond_(root, files, table, stored);
      linger, start := m_linger, View(0, []);
      if !ok || end == Closed {
        return W.Broken, true, [], 0, linger, start;
      }
      GoalIsDrain(start, answers);
      ending, closed, wire, used := WriteToFd_(answers);
      AnsweredWith(outcome, root, files, old(table.users), stored);
      if ending == W.Done && W.Positive(answers) && VectorsFree(answer.value.file, old(m_iv_count), old(m_iv1)) {
        FreeAreTwo(start, answer.value.file, old(m_iv_count), old(m_iv1));
        ReachesWhenDone(start, answer.value, linger, file, answers, old(m_iv_count), old(m_iv1));
      }
    }

    lemma ReadyIsFresh()
      requires Buffers() && Ready()
      ensures Fresh() && Filled() && m_read_buf[..received] == "" && m_read_idx == 0 == received && m_write_idx == 0
      ensures bytes_to_send == 0 == bytes_have_send && forall k :: 0 <= k < FILENAME_LEN ==> m_real_file[k] == NUL
    {
    }
  }
}
