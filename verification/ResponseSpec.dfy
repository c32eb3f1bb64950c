/** The texts of a response, and their reading back. */
module ResponseSpec {
  import opened CStrings
  import opened Numbers
  import opened MessageSpec
  import opened Wrappers

  /** "%s %d %s\r\n" */
  function StatusText(status: nat, title: string): string {
    "HTTP/1.1 " + Decimal(status) + " " + title + CRLF
  }

  function LengthLine(length: int): string {
    "Content-Length:" + Decimal(length)
  }

  function LingerLine(linger: bool): string {
    "Connection:" + if linger then "keep-alive" else "close"
  }

  /** What add_headers_ prints. */
  function HeaderText(length: int, linger: bool): string {
    LengthLine(length) + CRLF + LingerLine(linger) + CRLF + CRLF
  }

  lemma ReadsLength(h: Headers, length: int)
    requires -0x8000_0000 <= length <= INT_MAX && h.errno != EINVAL
    ensures ReadHeader(h, LengthLine(length)) == Some(h.(contentLength := length))
    ensures Clean(LengthLine(length)) && 1 <= |LengthLine(length)| <= 26
  {
    hide Strtol, FirstOf, SpanOf, ReadDigits, Digits, FieldOf;
    var line, text := LengthLine(length), Decimal(length);
    DecimalLength(length);
    DecimalText(length);
    assert line[14] == ':' && line[..14] == "Content-Length";
    assert forall j :: 0 <= j < 14 ==> line[j] == "Content-Length"[j];
    FirstOfIs(line, ":", 14);
    assert EqNoCase(line[..14], "Content-length");
    assert line[15..] == text;
    assert text[0] != ' ' && text[0] != '\t';
    SpanOfIs(text, BLANKS, 0);
    assert ValueText(line) == text;
    assert Strtol(text) == (length, false) by {
      StrtolReadsDecimal(length, "");
      assert text + "" == text;
    }
    assert Clean(line) by {
      assert Clean("Content-Length:");
    }
  }

  lemma DecimalText(v: int)
    ensures Decimal(v) != "" && Clean(Decimal(v)) && Decimal(v)[0] != ' ' && Decimal(v)[0] != '\t'
  {
    hide Digits;
  }

  lemma LingerText(linger: bool)
    ensures var text := if linger then "keep-alive" else "close";
            SkipBlanks(text) == text && (StartsNoCase(text, "close") <==> !linger)
  {
    hide SpanOf;
    var text := if linger then "keep-alive" else "close";
    SpanOfIs(text, BLANKS, 0);
    assert "keep-alive"[..5][0] == 'k' && "close"[..5] == "close";
  }

  lemma LingerClean(linger: bool)
    ensures Clean(LingerLine(linger)) && 1 <= |LingerLine(linger)| <= 21
  {
  }

  lemma ReadsLinger(h: Headers, linger: bool)
    requires h.linger
    ensures ReadHeader(h, LingerLine(linger)) == Some(h.(linger := linger))
    ensures Clean(LingerLine(linger)) && 1 <= |LingerLine(linger)| <= 21
  {
    hide ReadHeader, SkipBlanks, StartsNoCase, Clean;
    var text := if linger then "keep-alive" else "close";
    assert LingerLine(linger) == "Connection" + ":" + text;
    ReadsConnection(h, text);
    LingerText(linger);
    LingerClean(linger);
  }

  /** Feeding what add_headers_ printed through the header parser recovers the length and the
      linger flag, and leaves exactly what follows the blank line. */
  lemma HeaderRoundTrip(length: int, linger: bool, rest: string, limit: int, errno: int)
    requires -0x8000_0000 <= length <= INT_MAX && errno != EINVAL && 28 <= limit
    ensures ReadHeaders(HeaderText(length, linger) + rest, limit, FreshHeaders(errno)) ==
            Some((Headers(linger, length, errno, map[]), rest))
  {
    hide ReadHeader, ReadHeaders, LengthLine, LingerLine;
    var h := FreshHeaders(errno);
    var ls := [LengthLine(length), LingerLine(linger)];
    ReadsLength(h, length);
    ReadsLinger(h.(contentLength := length), linger);
    ReadHeadersIs(ls, rest, limit, h);
    assert ls[1..] == [LingerLine(linger)] && ls[1..][1..] == [];
    assert Lines(ls[1..]) == LingerLine(linger) + CRLF + Lines(ls[1..][1..]);
    assert Lines(ls) == LengthLine(length) + CRLF + Lines(ls[1..]);
    assert Lines(ls) + CRLF + rest == HeaderText(length, linger) + rest;
    var h1 := h.(contentLength := length);
    assert FoldHeaders(h, ls) == FoldHeaders(h1, ls[1..]);
    assert FoldHeaders(h1, ls[1..]) == FoldHeaders(h1.(linger := linger), ls[1..][1..]);
  }

  // ---------------------------------------------------------------- whole responses

  const FORM_500 := "There was an unusual problem serving the request file.\n"
  const FORM_400 := "Your request has bad syntax or is inherently impossible to staisfy.\n"
  const FORM_403 := "You do not have permission to get file form this server.\n"
  const FORM_404 := "The requested file was not found on this server.\n"
  const EMPTY_PAGE := "<html><body></body></html>"

  /** What a response is made of: the status line, and either a text of its own or a file. */
  datatype Response = Response(status: nat, title: string, text: string, file: nat)

  function BodyLength(r: Response): nat {
    |r.text| + r.file
  }

  /** The bytes put in m_write_buf. */
  function HeadOf(r: Response, linger: bool): string {
    StatusText(r.status, r.title) + HeaderText(AsInt(BodyLength(r)), linger) + r.text
  }

  /** The responses the server gives are small enough for its 1024-byte buffer. */
  predicate Small(r: Response) {
    r.status < 1000 && |r.title| <= 14 && |r.text| <= 70 && Clean(r.title)
  }

  lemma HeadFits(r: Response, linger: bool)
    requires Small(r)
    ensures |StatusText(r.status, r.title)| <= 30 && |HeaderText(AsInt(BodyLength(r)), linger)| <= 60
    ensures |HeadOf(r, linger)| <= 160
  {
    hide Digits;
    assert Pow10(3) == 1000;
    DigitsLength(r.status, 3);
    DecimalLength(AsInt(BodyLength(r)));
  }

  /** The first line of a response reads back: the version up to the first blank, the status as a
      number, and the title behind the second blank. */
  lemma StatusRoundTrip(r: Response, linger: bool, rest: string, limit: int)
    requires Small(r) && 30 <= limit
    ensures var line := TakeLine(HeadOf(r, linger) + rest, limit);
            && line.Some?
            && var a := FirstOf(line.value, " ");
               && a < |line.value| && line.value[..a] == "HTTP/1.1"
               && var tail := line.value[a + 1..];
                  && Strtol(tail) == (r.status, false)
                  && var b := FirstOf(tail, " ");
                     b < |tail| && tail[b + 1..] == r.title
  {
    hide TakeLine, HeaderText, Digits, AsInt, FirstOf, Strtol, Clean;
    var number := Decimal(r.status);
    var tail := number + " " + r.title;
    var line := "HTTP/1.1" + " " + tail;
    FirstLineIs(r, linger, rest, limit);
    assert "HTTP/1.1 " + number + " " + r.title == line;
    var v := "HTTP/1.1";
    NoBlankInVersion();
    assert forall j :: 0 <= j < 8 ==> line[j] == v[j] && v[j] in v;
    FirstOfIs(line, " ", 8);
    assert line[..8] == v && line[9..] == tail;
    StrtolReadsDecimal(r.status, " " + r.title);
    assert number + (" " + r.title) == tail;
    DigitsOnly(r.status);
    FirstOfIs(tail, " ", |number|);
    assert tail[|number| + 1..] == r.title;
  }

  lemma NoBlankInVersion()
    ensures ' ' !in "HTTP/1.1" && " "[0] == ' '
  {
  }

  lemma DigitsOnly(n: nat)
    ensures ' ' !in Decimal(n)
  {
    hide Digits;
  }

  lemma FirstLineIs(r: Response, linger: bool, rest: string, limit: int)
    requires Small(r) && 30 <= limit
    ensures TakeLine(HeadOf(r, linger) + rest, limit) == Some("HTTP/1.1 " + Decimal(r.status) + " " + r.title)
  {
    hide TakeLine, HeaderText, Digits, AsInt;
    var first := "HTTP/1.1 " + Decimal(r.status) + " " + r.title;
    var headers := HeaderText(AsInt(BodyLength(r)), linger);
    HeadFits(r, linger);
    DecimalText(r.status);
    assert Clean(first) by { assert Clean("HTTP/1.1 ") && Clean(" "); }
    assert HeadOf(r, linger) + rest == first + CRLF + (headers + (r.text + rest));
    TakeLineIs(first, headers + (r.text + rest), limit);
  }

  /** Framing: a reader that takes the status line off, reads the headers and then counts, finds
      that as many bytes follow the blank line as were announced, exactly when the length fits an
      int. `file` is the content of the file that is sent. */
  lemma Framing(r: Response, linger: bool, file: string, limit: int, errno: int)
    requires Small(r) && errno != EINVAL && 30 <= limit && |file| == r.file
    ensures var wire := HeadOf(r, linger) + file;
            && TakeLine(wire, limit).Some?
            && var read := ReadHeaders(wire[|TakeLine(wire, limit).value| + 2..], limit, FreshHeaders(errno));
               && read == Some((Headers(linger, AsInt(BodyLength(r)), errno, map[]), r.text + file))
               && (read.value.0.contentLength == |read.value.1| <==> BodyLength(r) <= INT_MAX)
  {
    hide TakeLine, ReadHeaders, HeaderText, Digits, AsInt;
    var wire := HeadOf(r, linger) + file;
    var first := "HTTP/1.1 " + Decimal(r.status) + " " + r.title;
    var headers := HeaderText(AsInt(BodyLength(r)), linger);
    HeadFits(r, linger);
    FirstLineIs(r, linger, file, limit);
    assert wire == first + CRLF + (headers + (r.text + file));
    assert wire[|first| + 2..] == headers + (r.text + file);
    HeaderRoundTrip(AsInt(BodyLength(r)), linger, r.text + file, limit, errno);
  }
}
