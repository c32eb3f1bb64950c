/** What read_ makes of a socket: with every refused read but the last it counts one byte less than
    it has, and what arrives after a refusal lands on bytes already there. */
module Reception {
  import opened CStrings
  import opened Numbers
  import opened MessageSpec
  import opened ResponseSpec

  const READ_BUFFER_SIZE := 2048
  const EAGAIN := 11
  const TRIES := 10

  /** How far the count is off when everything arrives before the first refusal. */
  const MISCOUNT := 9

  /** What one read of the socket comes to. */
  datatype Arrival = Bytes(text: string) | Refused | Shut | Broken(errno: int)

  /** Outside: bytes arrived when the count was negative, so they go in front of the buffer. */
  datatype ReadEnd = Finished | Closed | Outside

  /** The bytes in the buffer, m_read_idx, errno, and how read_ ended. */
  datatype Reading = Reading(data: string, count: int, errno: int, end: ReadEnd)

  /** The bytes of c from position `at` on. */
  function Overwrite(data: string, at: nat, c: string): string
    requires at <= |data|
  {
    data[..at] + c + if at + |c| < |data| then data[at + |c|..] else ""
  }

  lemma OverwriteIs(data: string, at: nat, c: string)
    requires at <= |data|
    ensures var d := Overwrite(data, at, c);
            && |d| == (if at + |c| > |data| then at + |c| else |data|)
            && forall k :: 0 <= k < |d| ==> d[k] == if at <= k < at + |c| then c[k - at] else data[k]
  {
  }

  /** read_: when the arrivals run out, nothing comes any more. A read never asks for more than the
      buffer has room for, and one that asks for nothing counts as shut down. */
  function Receive(data: string, count: int, errno: int, tries: nat, arrivals: seq<Arrival>): (r: Reading)
    requires count <= |data| && 1 <= tries
    ensures r.count <= |r.data|
    decreases |arrivals|
  {
    if count >= READ_BUFFER_SIZE then Reading(data, count, errno, Closed)
    else if arrivals == [] then Reading(data, count - (tries - 1), EAGAIN, Finished)
    else
      match arrivals[0]
      case Bytes(c) =>
        if count < 0 then Reading(data, count, errno, Outside)
        else if count + |c| > READ_BUFFER_SIZE then
          Reading(Overwrite(data, count, c[..READ_BUFFER_SIZE - count]), READ_BUFFER_SIZE, errno, Closed)
        else Receive(Overwrite(data, count, c), count + |c|, errno, tries, arrivals[1..])
      case Refused =>
        if tries == 1 then Reading(data, count, EAGAIN, Finished)
        else Receive(data, count - 1, EAGAIN, tries - 1, arrivals[1..])
      case Shut => Reading(data, count, errno, Closed)
      case Broken(e) => Reading(data, count, e, Closed)
  }

  /** The bytes that arrive before read_ ends. */
  function Arrived(tries: nat, arrivals: seq<Arrival>): string
    requires 1 <= tries
    decreases |arrivals|
  {
    if arrivals == [] then ""
    else
      match arrivals[0]
      case Bytes(c) => c + Arrived(tries, arrivals[1..])
      case Refused => if tries == 1 then "" else Arrived(tries - 1, arrivals[1..])
      case _ => ""
  }

  /** Nothing arrives after a refusal. */
  predicate InOneBurst(tries: nat, arrivals: seq<Arrival>)
    requires 1 <= tries
    decreases |arrivals|
  {
    arrivals == [] ||
    match arrivals[0]
    case Bytes(_) => InOneBurst(tries, arrivals[1..])
    case Refused => tries == 1 || Arrived(tries - 1, arrivals[1..]) == ""
    case _ => true
  }

  predicate NoEmptyBytes(arrivals: seq<Arrival>) {
    forall a :: a in arrivals && a.Bytes? ==> a.text != ""
  }

  /** Behind a refusal every further byte costs one already there. */
  lemma {:induction false} OverwritesLater(data: string, count: int, errno: int, tries: nat, arrivals: seq<Arrival>)
    requires count < |data| <= READ_BUFFER_SIZE && 1 <= tries && NoEmptyBytes(arrivals)
    ensures var r, text := Receive(data, count, errno, tries, arrivals), Arrived(tries, arrivals);
            r.end != Outside ==> (if text == "" then r.data == data else |r.data| < |data| + |text|)
    decreases |arrivals|
  {
    if arrivals != [] {
      match arrivals[0] {
        case Bytes(c) =>
          if 0 <= count {
            var data' := Overwrite(data, count, c);
            if count + |c| > READ_BUFFER_SIZE {
            } else if count + |c| < |data'| {
              OverwritesLater(data', count + |c|, errno, tries, arrivals[1..]);
            } else {
              KeepsAll(data', errno, tries, arrivals[1..]);
            }
          }
        case Refused =>
          if tries > 1 {
            OverwritesLater(data, count - 1, EAGAIN, tries - 1, arrivals[1..]);
          }
        case _ =>
      }
    }
  }

  /** The buffer grows by exactly the bytes that arrive, in order, if and only if they fit and none
      arrives after a refusal. */
  lemma {:induction false} KeepsAll(data: string, errno: int, tries: nat, arrivals: seq<Arrival>)
    requires 1 <= tries && NoEmptyBytes(arrivals) && |data| <= READ_BUFFER_SIZE
    ensures var r, text := Receive(data, |data|, errno, tries, arrivals), Arrived(tries, arrivals);
            r.end != Outside ==>
              && |r.data| <= |data| + |text|
              && (r.data == data + text <==> InOneBurst(tries, arrivals) && |data + text| <= READ_BUFFER_SIZE)
    decreases |arrivals|
  {
    hide NoEmptyBytes;
    if arrivals != [] {
      TailNotEmpty(arrivals);
      match arrivals[0] {
        case Bytes(c) =>
          assert Overwrite(data, |data|, c) == data + c;
          if |data + c| <= READ_BUFFER_SIZE {
            KeepsAll(data + c, errno, tries, arrivals[1..]);
          }
          assert data + c + Arrived(tries, arrivals[1..]) == data + (c + Arrived(tries, arrivals[1..]));
        case Refused =>
          if tries > 1 {
            OverwritesLater(data, |data| - 1, EAGAIN, tries - 1, arrivals[1..]);
          }
        case _ =>
      }
    }
  }

  lemma TailNotEmpty(arrivals: seq<Arrival>)
    requires NoEmptyBytes(arrivals) && arrivals != []
    ensures NoEmptyBytes(arrivals[1..]) && (arrivals[0].Bytes? ==> arrivals[0].text != "")
  {
  }

  /** A burst leaves all its bytes, and a count that is nine short. */
  lemma {:induction false} BurstMiscounts(data: string, errno: int, arrivals: seq<Arrival>)
    requires forall a :: a in arrivals ==> a.Bytes?
    requires |data| + |Arrived(TRIES, arrivals)| < READ_BUFFER_SIZE
    ensures var text := Arrived(TRIES, arrivals);
            Receive(data, |data|, errno, TRIES, arrivals) ==
            Reading(data + text, |data + text| - MISCOUNT, EAGAIN, Finished)
    decreases |arrivals|
  {
    if arrivals == [] {
      assert data + "" == data;
    } else {
      var c := arrivals[0].text;
      assert Overwrite(data, |data|, c) == data + c;
      BurstMiscounts(data + c, errno, arrivals[1..]);
      assert data + c + Arrived(TRIES, arrivals[1..]) == data + (c + Arrived(TRIES, arrivals[1..]));
    }
  }

  /** A shutdown or an error comes before the last refusal. */
  predicate StopsEarly(tries: nat, arrivals: seq<Arrival>)
    requires 1 <= tries
    decreases |arrivals|
  {
    arrivals != [] &&
    match arrivals[0]
    case Bytes(_) => StopsEarly(tries, arrivals[1..])
    case Refused => tries > 1 && StopsEarly(tries - 1, arrivals[1..])
    case _ => true
  }

  function Refusals(arrivals: seq<Arrival>): nat {
    if arrivals == [] then 0 else (if arrivals[0].Refused? then 1 else 0) + Refusals(arrivals[1..])
  }

  /** That is, fewer refusals than tries are in front of some shutdown or error. */
  lemma {:induction false} StopsEarlyIs(tries: nat, arrivals: seq<Arrival>)
    requires 1 <= tries
    ensures StopsEarly(tries, arrivals) <==>
            exists k :: 0 <= k < |arrivals| && (arrivals[k].Shut? || arrivals[k].Broken?) && Refusals(arrivals[..k]) < tries
    decreases |arrivals|
  {
    if arrivals != [] {
      var rest := arrivals[1..];
      var left := if arrivals[0].Refused? then tries - 1 else tries;
      forall k | 1 <= k < |arrivals|
        ensures Refusals(arrivals[..k]) == (if arrivals[0].Refused? then 1 else 0) + Refusals(rest[..k - 1])
      {
        assert arrivals[..k][1..] == rest[..k - 1];
      }
      if left >= 1 {
        StopsEarlyIs(left, rest);
      }
      if arrivals[0].Shut? || arrivals[0].Broken? {
        assert Refusals(arrivals[..0]) < tries;
      } else if left >= 1 && StopsEarly(left, rest) {
        var k :| 0 <= k < |rest| && (rest[k].Shut? || rest[k].Broken?) && Refusals(rest[..k]) < left;
        assert arrivals[k + 1] == rest[k] && Refusals(arrivals[..k + 1]) < tries;
      } else {
        forall k | 0 <= k < |arrivals| && (arrivals[k].Shut? || arrivals[k].Broken?)
          ensures Refusals(arrivals[..k]) >= tries
        {
          assert k > 0 && rest[k - 1] == arrivals[k];
        }
      }
    }
  }

  /** While everything fits the buffer and nothing goes in front of it, read_ closes the connection exactly
      when a shutdown or an error comes before the last refusal; and the last errno is that of the
      error, or of the refusals. */
  lemma {:induction false} ClosedIff(data: string, count: int, errno: int, tries: nat, arrivals: seq<Arrival>)
    requires count <= |data| && 1 <= tries && |data| + |Arrived(tries, arrivals)| < READ_BUFFER_SIZE
    ensures var r := Receive(data, count, errno, tries, arrivals);
            r.end != Outside ==> (r.end == Closed <==> StopsEarly(tries, arrivals)) && (r.end == Finished ==> r.errno == 11)
    decreases |arrivals|
  {
    if arrivals != [] {
      match arrivals[0] {
        case Bytes(c) =>
          if 0 <= count {
            ClosedIff(Overwrite(data, count, c), count + |c|, errno, tries, arrivals[1..]);
          }
        case Refused =>
          if tries > 1 {
            ClosedIff(data, count - 1, EAGAIN, tries - 1, arrivals[1..]);
          }
        case _ =>
      }
    }
  }

  /** The first shutdown leaves errno alone, an error sets it, and what came before is there. */
  lemma {:induction false} StopAfterBurst(data: string, errno: int, burst: seq<Arrival>, stop: Arrival, rest: seq<Arrival>)
    requires (forall a :: a in burst ==> a.Bytes?) && (stop.Shut? || stop.Broken?)
    requires |data| + |Arrived(TRIES, burst)| < READ_BUFFER_SIZE
    ensures var text := Arrived(TRIES, burst);
            Receive(data, |data|, errno, TRIES, burst + [stop] + rest) ==
            Reading(data + text, |data + text|, if stop.Broken? then stop.errno else errno, Closed)
    decreases |burst|
  {
    var all := burst + [stop] + rest;
    if burst == [] {
      assert data + "" == data && all[0] == stop;
    } else {
      var c := burst[0].text;
      assert all[0] == burst[0] && all[1..] == burst[1..] + [stop] + rest;
      assert Overwrite(data, |data|, c) == data + c;
      StopAfterBurst(data + c, errno, burst[1..], stop, rest);
      assert data + c + Arrived(TRIES, burst[1..]) == data + (c + Arrived(TRIES, burst[1..]));
    }
  }

  /** A burst that fills the buffer is cut off where it is full, and counts as shut down. */
  lemma {:induction false} BurstFills(data: string, errno: int, burst: seq<Arrival>, rest: seq<Arrival>)
    requires (forall a :: a in burst ==> a.Bytes?) && |data| <= 2048 <= |data| + |Arrived(TRIES, burst)|
    ensures Receive(data, |data|, errno, TRIES, burst + rest) ==
            Reading((data + Arrived(TRIES, burst))[..2048], 2048, errno, Closed)
    decreases |burst|
  {
    var all, text := burst + rest, data + Arrived(TRIES, burst);
    if |data| == 2048 {
      assert text[..2048] == data;
    } else {
      var c := burst[0].text;
      assert all[0] == burst[0] && all[1..] == burst[1..] + rest;
      assert text == data + c + Arrived(TRIES, burst[1..]);
      if |data| + |c| > 2048 {
        assert Overwrite(data, |data|, c[..2048 - |data|]) == text[..2048];
      } else {
        assert Overwrite(data, |data|, c) == data + c;
        BurstFills(data + c, errno, burst[1..], rest);
      }
    }
  }

  // ---------------------------------------------------------------- which requests survive

  /** Exactly which messages of the grammar get through after a burst: every line, with its ending,
      is at least nine bytes shorter than everything received, and a body is followed by nine bytes
      more. */
  lemma AcceptedAfterRead(first: string, ls: seq<string>, rest: string, errno: int)
    requires Clean(first) && HeaderLines(ls)
    requires ReadRequestLine(first).Some? && FoldHeaders(FreshHeaders(errno), ls).Some?
    ensures var s, length := HeadText(first, ls) + rest, FoldHeaders(FreshHeaders(errno), ls).value.contentLength;
            ReadMessage(s, |s| - MISCOUNT, errno).Accepted? <==>
              LinesFit([first] + ls, |s| - MISCOUNT) && (length == 0 || 0 < length <= |rest| - MISCOUNT)
  {
    hide ReadMessage, ReadRequestLine, FoldHeaders, HeadText, LinesFit;
    var s := HeadText(first, ls) + rest;
    MessageComplete(first, ls, rest, |s| - MISCOUNT, errno);
  }

  /** Without the miscount every line fits, and the body may end where the data ends. */
  lemma AcceptedWithTrueCount(first: string, ls: seq<string>, rest: string, errno: int)
    requires Clean(first) && HeaderLines(ls)
    requires ReadRequestLine(first).Some? && FoldHeaders(FreshHeaders(errno), ls).Some?
    ensures var s, length := HeadText(first, ls) + rest, FoldHeaders(FreshHeaders(errno), ls).value.contentLength;
            ReadMessage(s, |s|, errno).Accepted? <==> 0 <= length <= |rest|
  {
    hide ReadMessage, ReadRequestLine, FoldHeaders, Lines;
    var s := HeadText(first, ls) + rest;
    LinesFitText(ls);
    MessageComplete(first, ls, rest, |s|, errno);
  }

  lemma {:induction false} LinesFitText(ls: seq<string>)
    ensures LinesFit(ls, |Lines(ls)| + 2)
  {
    if ls != [] {
      LinesFitText(ls[1..]);
    }
  }

  /** So no request that ends with its body is ever accepted when the count is short by anything at
      all, although with the true count every one of them is. */
  lemma ExactBodyIsLost(first: string, ls: seq<string>, body: string, limit: int, errno: int)
    requires Clean(first) && HeaderLines(ls) && ReadRequestLine(first).Some?
    requires var h := FoldHeaders(FreshHeaders(errno), ls); h.Some? && h.value.contentLength == |body| > 0
    requires limit < |HeadText(first, ls)| + |body|
    ensures var s := HeadText(first, ls) + body;
            ReadMessage(s, |s|, errno).Accepted? && ReadMessage(s, limit, errno) == Rejected
  {
    hide ReadMessage, ReadRequestLine, FoldHeaders, HeadText, LinesFit;
    AcceptedWithTrueCount(first, ls, body, errno);
    MessageComplete(first, ls, body, limit, errno);
  }

  /** An instance: whatever the request line and the body, with the printed length for a header. */
  lemma PostIsLost(first: string, body: string, errno: int)
    requires Clean(first) && ReadRequestLine(first).Some?
    requires 0 < |body| <= INT_MAX && errno != EINVAL
    ensures var s := HeadText(first, [LengthLine(|body|)]) + body;
            && ReadMessage(s, |s|, errno).Accepted?
            && ReadMessage(s, |s| - MISCOUNT, errno) == Rejected
  {
    hide ReadMessage, ReadRequestLine, ReadHeader, HeadText, LengthLine;
    var ls, h := [LengthLine(|body|)], FreshHeaders(errno);
    ReadsLength(h, |body|);
    OneLine(LengthLine(|body|), h);
    ExactBodyIsLost(first, ls, body, |HeadText(first, ls) + body| - MISCOUNT, errno);
  }
}
