/** From the write loop to the client: the bytes that the origins on the wire stand for, the same for
    plain and for encrypted connections, and what a reader makes of them. */
module Delivery {
  import opened Numbers
  import opened MessageSpec
  import opened ResponseSpec
  import opened SslWrite
  import W = Wire

  /** The origins lie in the header buffer and the file. */
  predicate InMemory(os: seq<W.Origin>, header: nat, file: nat) {
    forall i :: 0 <= i < |os| ==> 0 <= os[i].at < if os[i].region.Head? then header else file
  }

  /** The bytes, given those of the header and of the file. */
  function Text(os: seq<W.Origin>, head: string, file: string): (s: string)
    requires InMemory(os, |head|, |file|)
    ensures |s| == |os|
  {
    seq(|os|, i requires 0 <= i < |os| => if os[i].region.Head? then head[os[i].at] else file[os[i].at])
  }

  /** Header and file once each, in order, are the header and the file; so is any beginning. */
  lemma ExpectedText(os: seq<W.Origin>, head: string, file: string)
    requires os <= W.Expected(|head|, |file|)
    ensures InMemory(os, |head|, |file|) && Text(os, head, file) == (head + file)[..|os|]
  {
    var e := W.Expected(|head|, |file|);
    assert forall i :: 0 <= i < |os| ==> os[i] == e[i];
  }

  /** The wire carries exactly this header and this file. */
  predicate Sends(os: seq<W.Origin>, head: string, file: string) {
    InMemory(os, |head|, |file|) && Text(os, head, file) == head + file
  }

  /** A text of one letter, but for one place. */
  function Marked(n: nat, at: int): string {
    seq(n, i requires 0 <= i < n => if i == at then 'b' else 'a')
  }

  /** A byte from the wrong place is wrong for the header or file that is marked in the right one. */
  lemma MarkedFile(h: nat, n: nat, os: seq<W.Origin>, i: nat)
    requires |os| == h + n && i < |os| && os[i] != W.Expected(h, n)[i]
    ensures exists head, file :: |head| == h && |file| == n && !Sends(os, head, file)
  {
    var head, file := Marked(h, i), Marked(n, i - h);
    if InMemory(os, h, n) {
      assert Text(os, head, file)[i] == 'a' && (head + file)[i] == 'b';
    }
    assert !Sends(os, head, file);
  }

  /** The origins are header and file once each, in order, if and only if every header and every file
      of these lengths come out whole. */
  lemma TextDecides(os: seq<W.Origin>, h: nat, n: nat)
    ensures os == W.Expected(h, n) <==> forall head, file :: |head| == h && |file| == n ==> Sends(os, head, file)
  {
    hide Sends, InMemory;
    if os == W.Expected(h, n) {
      forall head, file | |head| == h && |file| == n
        ensures Sends(os, head, file)
      {
        ExpectedSends(os, head, file);
      }
    } else if |os| != h + n {
      WrongLength(os, Marked(h, 0), Marked(n, 0));
    } else {
      var i :| 0 <= i < |os| && os[i] != W.Expected(h, n)[i];
      MarkedFile(h, n, os, i);
    }
  }

  lemma ExpectedSends(os: seq<W.Origin>, head: string, file: string)
    requires os == W.Expected(|head|, |file|)
    ensures Sends(os, head, file)
  {
    ExpectedText(os, head, file);
    assert (head + file)[..|os|] == head + file;
  }

  lemma WrongLength(os: seq<W.Origin>, head: string, file: string)
    requires |os| != |head| + |file|
    ensures !Sends(os, head, file)
  {
  }

  /** Once the header went out whole and first, the files alone decide, whatever the header is. */
  lemma FilesDecide(os: seq<W.Origin>, head: string, n: nat)
    requires |os| >= |head| && os[..|head|] == W.Expected(|head|, n)[..|head|]
    ensures os == W.Expected(|head|, n) <==> forall file :: |file| == n ==> Sends(os, head, file)
  {
    hide Sends;
    var e := W.Expected(|head|, n);
    if os == e {
      forall file | |file| == n
        ensures Sends(os, head, file)
      {
        ExpectedSends(os, head, file);
      }
    } else if |os| != |head| + n {
      WrongLength(os, head, Marked(n, 0));
    } else {
      assert forall j :: 0 <= j < |head| ==> os[j] == os[..|head|][j] && e[j] == e[..|head|][j];
      var i :| 0 <= i < |os| && os[i] != e[i];
      WrongFile(os, head, n, i);
    }
  }

  lemma WrongFile(os: seq<W.Origin>, head: string, n: nat, i: nat)
    requires |os| == |head| + n && |head| <= i < |os| && os[i] != W.Expected(|head|, n)[i]
    ensures exists file :: |file| == n && !Sends(os, head, file)
  {
    if InMemory(os, |head|, n) {
      var there := if os[i].region.Head? then head[os[i].at] else 'a';
      var file := seq(n, k requires 0 <= k < n => if k == i - |head| then (if there == 'a' then 'b' else 'a') else 'a');
      assert Text(os, head, file)[i] != (head + file)[i];
      assert !Sends(os, head, file);
    } else {
      assert !Sends(os, head, Marked(n, 0));
    }
  }

  // ---------------------------------------------------------------- plain and encrypted

  /** The vectors in use. */
  function Vectors(w: W.Writer): seq<W.IoVec> {
    if w.count == 0 then [] else if w.count == 1 then [w.iv0] else [w.iv0, w.iv1]
  }

  predicate VectorsInMemory(vs: seq<W.IoVec>, header: nat, file: nat) {
    forall i :: 0 <= i < |vs| ==> InMemory(W.Bytes(vs[i]), header, file)
  }

  /** The texts the vectors cover. */
  function VectorTexts(vs: seq<W.IoVec>, head: string, file: string): (texts: seq<string>)
    requires VectorsInMemory(vs, |head|, |file|)
  {
    seq(|vs|, i requires 0 <= i < |vs| => Text(W.Bytes(vs[i]), head, file))
  }

  lemma OfferText(w: W.Writer, head: string, file: string)
    requires VectorsInMemory(Vectors(w), |head|, |file|)
    ensures InMemory(w.Offer(), |head|, |file|)
    ensures Flat(VectorTexts(Vectors(w), head, file)) == Text(w.Offer(), head, file)
  {
    var vs := Vectors(w);
    var texts := VectorTexts(vs, head, file);
    if |vs| == 1 {
      assert InMemory(W.Bytes(vs[0]), |head|, |file|);
      assert texts[1..] == [];
    } else if |vs| == 2 {
      assert InMemory(W.Bytes(vs[0]), |head|, |file|) && InMemory(W.Bytes(vs[1]), |head|, |file|);
      assert texts[1..] == [texts[1]] && texts[1..][1..] == [];
      assert Flat(texts[1..]) == texts[1];
      assert Text(w.Offer(), head, file) == texts[0] + texts[1];
    }
  }

  /** What SSL_writev is asked to encrypt is what writev is offered: `vector` are the same vectors,
      with the memory they point to. */
  method EncryptOffer(w: W.Writer, vector: seq<Vec>, ghost head: string, ghost file: string)
    returns (buffer: array<char>, bytes: nat)
    requires VectorsInMemory(Vectors(w), |head|, |file|)
    requires Covers(vector, VectorTexts(Vectors(w), head, file))
    ensures InMemory(w.Offer(), |head|, |file|)
    ensures buffer[..] == Text(w.Offer(), head, file) && bytes == |w.Offer()|
  {
    OfferText(w, head, file);
    buffer, bytes := SslWritev(vector, VectorTexts(Vectors(w), head, file));
  }

  // ---------------------------------------------------------------- end to end

  /** What a client that follows RFC 2616 section 4.4 takes as the body of an answer, and what it
      leaves to be read as the next answer: after HEAD it takes nothing. */
  function TakeBody(toHead: bool, length: int, rest: string): (string, string)
    requires 0 <= length <= |rest|
  {
    if toHead then ("", rest) else (rest[..length], rest[length..])
  }

  /** The status line comes off, the headers say whether the connection stays, and what they announce
      is the body and all there is. After HEAD the whole body is left over. */
  ghost predicate Readable(wire: string, r: Response, linger: bool, file: string, toHead: bool, limit: int, errno: int) {
    && TakeLine(wire, limit).Some?
    && var read := ReadHeaders(wire[|TakeLine(wire, limit).value| + 2..], limit, FreshHeaders(errno));
       && read.Some? && read.value.0.linger == linger
       && 0 <= read.value.0.contentLength <= |read.value.1|
       && TakeBody(toHead, read.value.0.contentLength, read.value.1) ==
          if toHead then ("", r.text + file) else (r.text + file, "")
  }

  lemma ReadsResponse(r: Response, linger: bool, file: string, toHead: bool, limit: int, errno: int)
    requires Small(r) && |file| == r.file && BodyLength(r) <= INT_MAX && errno != EINVAL && 30 <= limit
    ensures Readable(HeadOf(r, linger) + file, r, linger, file, toHead, limit, errno)
  {
    hide HeadOf, Small, TakeLine, ReadHeaders;
    Framing(r, linger, file, limit, errno);
    var body := r.text + file;
    assert body[..|body|] == body && body[|body|..] == "";
  }

  /** The run went as it should: paced, and the header went out. */
  predicate Right(w: W.Writer, file: nat, answers: seq<W.Answer>, used: nat) {
    used <= |answers| && W.Paced(answers, used) && W.HeaderGoesOut(w.header, file, answers)
  }

  /** From the vectors to the bytes, for header and file that together fit an int. A finished run sends
      every header and every file of these lengths whole if and only if it went as it should; and when
      the first write took the whole header, that holds of this very header and every file. */
  lemma Delivered(w: W.Writer, head: string, file: nat, answers: seq<W.Answer>)
    requires W.Started(w, file) && w.header == |head| > 0 && |head| + file <= INT_MAX && W.Positive(answers)
    requires W.Drain(w, answers).0 == W.Done
    ensures var (ending, w', used) := W.Drain(w, answers);
            && answers != []
            && (Right(w, file, answers, used) <==> w'.wire == W.Expected(|head|, file))
            && (Right(w, file, answers, used) <==>
                forall h, f :: |h| == |head| && |f| == file ==> Sends(w'.wire, h, f))
            && (answers[0].Sent? && answers[0].k >= |head| ==>
                (Right(w, file, answers, used) <==> forall f :: |f| == file ==> Sends(w'.wire, head, f)))
  {
    hide W.Drain, W.Paced, W.Started, W.HeaderGoesOut, W.Expected, Sends;
    var (ending, w', used) := W.Drain(w, answers);
    if answers == [] {
      W.DrainEnds(w, answers);
    }
    W.ExactIff(w, file, answers);
    TextDecides(w'.wire, |head|, file);
    if answers[0].Sent? && answers[0].k >= |head| {
      HeaderFirst(w, file, answers);
      FilesDecide(w'.wire, head, file);
    }
  }

  lemma HeaderFirst(w: W.Writer, file: nat, answers: seq<W.Answer>)
    requires W.Started(w, file) && answers != [] && answers[0].Sent? && answers[0].k >= w.header > 0
    ensures var wire := W.Drain(w, answers).1.wire;
            |wire| >= w.header && wire[..w.header] == W.Expected(w.header, file)[..w.header]
  {
    hide W.Drain;
    var e, w' := W.Expected(w.header, file), w.Take(answers[0].k);
    W.DrainStep(w, answers);
    assert w.Offer() == e;
    assert w'.wire[..w.header] == e[..w.header];
    assert w'.wire <= W.Drain(w, answers).1.wire;
  }

  /** After a first write of header and two bytes and a refusal, two of four bytes are left. */
  lemma TwoLeft(w: W.Writer)
    requires W.Started(w, 4) && w.header > 0
    ensures var w1 := w.Take(w.header + 2); w.have < w1.have && w1.toSend > 0
    ensures var w2 := w.Take(w.header + 2).Resume();
            && w2.header == w.header && w2.have == w.header + 2 && w2.toSend == 2
            && w2.Offer() == [W.Origin(W.File, 2), W.Origin(W.File, 3)]
            && w2.wire == W.Expected(w.header, 4)[..w.header + 2]
  {
    assert w.Offer() == W.Expected(w.header, 4);
  }

  /** Two writes of one byte each then send the third byte twice. */
  lemma SentTwice(w: W.Writer)
    requires w.toSend == 2 && w.Offer() == [W.Origin(W.File, 2), W.Origin(W.File, 3)]
    ensures W.Drain(w, [W.Sent(1), W.Sent(1)]).0 == W.Done && W.Drain(w, [W.Sent(1), W.Sent(1)]).2 == 2
    ensures W.Drain(w, [W.Sent(1), W.Sent(1)]).1.wire == w.wire + [W.Origin(W.File, 2), W.Origin(W.File, 2)]
  {
    var answers := [W.Sent(1), W.Sent(1)];
    assert answers[1..] == [W.Sent(1)];
    assert w.Take(1).Offer() == w.Offer();
    W.DrainStep(w, answers);
    W.DrainStep(w.Take(1), answers[1..]);
  }

  /** The wire of a run with one write too many after a refusal: the third byte of the file goes out
      twice, the fourth never. */
  lemma RepeatedByte(w: W.Writer)
    requires W.Started(w, 4) && w.header > 0
    ensures var (ending, w', used) := W.Drain(w, [W.Sent(w.header + 2), W.Again, W.Sent(1), W.Sent(1)]);
            && ending == W.Done && used == 4
            && w'.wire == W.Expected(w.header, 4)[..w.header + 2] + [W.Origin(W.File, 2), W.Origin(W.File, 2)]
  {
    hide *;
    var answers := [W.Sent(w.header + 2), W.Again, W.Sent(1), W.Sent(1)];
    assert answers[1..] == [W.Again, W.Sent(1), W.Sent(1)] && answers[1..][1..] == [W.Sent(1), W.Sent(1)];
    var w1 := w.Take(w.header + 2);
    TwoLeft(w);
    SentTwice(w1.Resume());
    W.DrainStep(w, answers);
    W.DrainStep(w1, answers[1..]);
  }

  /** Why it takes every file to tell: this run is not paced and repeats a byte, but of four equal bytes
      nobody can see it. */
  lemma UnseenRepeat(w: W.Writer, head: string)
    requires W.Started(w, 4) && w.header == |head| > 0
    ensures var answers := [W.Sent(|head| + 2), W.Again, W.Sent(1), W.Sent(1)];
            var (ending, w', used) := W.Drain(w, answers);
            ending == W.Done && !Right(w, 4, answers, used) && Sends(w'.wire, head, "aaaa")
  {
    hide W.Drain, W.Started, W.Paced;
    var answers := [W.Sent(|head| + 2), W.Again, W.Sent(1), W.Sent(1)];
    RepeatedByte(w);
    W.PacedIs(answers, 4);
    assert answers[3].Sent? && !answers[2].Again?;
    var wire := W.Drain(w, answers).1.wire;
    var file := "aaaa";
    assert forall k :: 0 <= k < 4 ==> file[k] == 'a';
    assert Text(wire, head, file) == head + file;
  }
}
