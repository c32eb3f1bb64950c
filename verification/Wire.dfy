/** The write loop over partial writes. Every byte on the wire carries where it came from, so that
    "exactly once, in order" does not depend on the bytes themselves. */
module Wire {

  datatype Region = Head | File

  /** Byte `at` of the header buffer or of the mapped file. */
  datatype Origin = Origin(region: Region, at: int)

  datatype IoVec = IoVec(region: Region, base: int, len: nat)

  function Bytes(v: IoVec): seq<Origin> {
    seq(v.len, i requires 0 <= i < v.len => Origin(v.region, v.base + i))
  }

  /** The kernel's answers to the successive writes: it takes up to k > 0 bytes, or would block,
      or fails. */
  datatype Answer = Sent(k: nat) | Again | Failed

  /** Open: no more answers, and the loop still runs. */
  datatype Ending = Done | Broken | Open

  /** The fields the loop works on: the two vectors, how many are in use, the counters, and the
      wire. `header` is m_write_idx. */
  datatype Writer = Writer(header: nat, iv0: IoVec, iv1: IoVec, count: nat,
                           have: int, toSend: int, newadd: int, wire: seq<Origin>)
  {
    /** What a gathering write offers the kernel: the vectors one after the other. */
    function Offer(): seq<Origin> {
      if count == 0 then [] else if count == 1 then Bytes(iv0) else Bytes(iv0) + Bytes(iv1)
    }

    /** Bytes taken. */
    function Take(k: nat): Writer {
      var n := if k <= |Offer()| then k else |Offer()|;
      if n == 0 then this else
        this.(wire := wire + Offer()[..n], have := have + n, newadd := have + n - header, toSend := toSend - n)
    }

    /** The write would block: where to go on. */
    function Resume(): Writer {
      if have >= iv0.len then this.(iv0 := iv0.(len := 0), iv1 := IoVec(File, newadd, if toSend >= 0 then toSend else 0))
      else this.(iv0 := IoVec(iv0.region, toSend, iv0.len - have))
    }
  }

  /** The loop of write_to_fd_: how it ends, in which state, and after how many answers. */
  function Drain(w: Writer, answers: seq<Answer>): (r: (Ending, Writer, nat))
    ensures r.2 <= |answers| && (r.0 == Done ==> r.2 > 0)
    ensures w.wire <= r.1.wire
    ensures r.1.have + r.1.toSend == w.have + w.toSend
    decreases |answers|
  {
    if answers == [] then (Open, w, 0)
    else if answers[0] == Failed then (Broken, w, 1)
    else
      var w' := if answers[0].Sent? then w.Take(answers[0].k) else w.Resume();
      if answers[0].Sent? && w'.have > w.have && w'.toSend <= 0 then (Done, w', 1)
      else
        var r := Drain(w', answers[1..]);
        (r.0, r.1, r.2 + 1)
  }

  lemma DrainEnds(w: Writer, answers: seq<Answer>)
    requires answers == [] || answers[0] == Failed
    ensures Drain(w, answers) == if answers == [] then (Open, w, 0) else (Broken, w, 1)
  {
  }

  lemma DrainStep(w: Writer, answers: seq<Answer>)
    requires answers != [] && answers[0] != Failed
    ensures var w' := if answers[0].Sent? then w.Take(answers[0].k) else w.Resume();
            if answers[0].Sent? && w'.have > w.have && w'.toSend <= 0 then Drain(w, answers) == (Done, w', 1)
            else var r := Drain(w', answers[1..]); Drain(w, answers) == (r.0, r.1, r.2 + 1)
  {
  }

  // ---------------------------------------------------------------- exactly once, in order

  /** Header, then file. */
  function Expected(header: nat, file: nat): seq<Origin> {
    seq(header + file, i requires 0 <= i < header + file => if i < header then Origin(Head, i) else Origin(File, i - header))
  }

  /** The state write_to_buffer_ should leave; without a file the second vector is not in use, or
      empty. */
  predicate Started(w: Writer, file: nat) {
    && w.iv0 == IoVec(Head, 0, w.header)
    && (if file > 0 then w.count == 2 && w.iv1 == IoVec(File, 0, file) else w.count == 1 || (w.count == 2 && w.iv1.len == 0))
    && w.have == 0 && w.toSend == w.header + file && w.newadd == 0 && w.wire == []
  }

  /** Among the first n answers, each success but the first comes right after a refusal. */
  predicate Paced(answers: seq<Answer>, n: nat)
    requires n <= |answers|
    decreases n
  {
    n <= 1 || ((answers[1].Sent? ==> answers[0].Again?) && Paced(answers[1..], n - 1))
  }

  lemma {:induction false} PacedIs(answers: seq<Answer>, n: nat)
    requires n <= |answers|
    ensures Paced(answers, n) <==> forall i :: 1 <= i < n && answers[i].Sent? ==> answers[i - 1].Again?
    decreases n
  {
    if n > 1 {
      PacedIs(answers[1..], n - 1);
      var rest := answers[1..];
      assert forall i :: 0 <= i < n - 1 ==> rest[i] == answers[i + 1];
      if forall i :: 1 <= i < n && answers[i].Sent? ==> answers[i - 1].Again? {
        assert answers[1].Sent? ==> answers[0].Again?;
      } else {
        var i :| 1 <= i < n && answers[i].Sent? && !answers[i - 1].Again?;
        assert i > 1 ==> rest[i - 1] == answers[i] && rest[i - 2] == answers[i - 1];
      }
    }
  }

  predicate Positive(answers: seq<Answer>) {
    forall i :: 0 <= i < |answers| && answers[i].Sent? ==> answers[i].k > 0
  }

  lemma PositiveTail(answers: seq<Answer>)
    requires Positive(answers) && answers != []
    ensures Positive(answers[1..]) && (answers[0].Sent? ==> answers[0].k > 0)
  {
  }

  /** The header is out and the vectors offer everything from position p on. */
  ghost predicate Mid(w: Writer, file: nat, p: int) {
    && w.header <= w.have < w.header + file && w.count == 2
    && w.toSend == w.header + file - w.have && w.newadd == w.have - w.header
    && w.iv0.len <= w.have
    && w.wire == Expected(w.header, file)[..w.have]
    && 0 <= p <= w.have && w.Offer() == Expected(w.header, file)[p..]
  }

  lemma ResumeMid(w: Writer, file: nat, p: int)
    requires Mid(w, file, p)
    ensures Mid(w.Resume(), file, w.have) && w.Resume().have == w.have && w.Resume().header == w.header
  {
    var w' := w.Resume();
    assert Bytes(w'.iv0) == [];
    assert w'.Offer() == Expected(w.header, file)[w.have..];
  }

  lemma TakeMid(w: Writer, file: nat, k: nat)
    requires Mid(w, file, w.have) && k > 0
    ensures var w' := w.Take(k);
            && w.have < w'.have && w'.header == w.header
            && (if w'.toSend <= 0 then w'.wire == Expected(w.header, file) else Mid(w', file, w.have))
  {
    var e, w' := Expected(w.header, file), w.Take(k);
    assert w'.wire == e[..w'.have];
  }

  /** A write that repeats an offer puts an earlier byte where a later one belongs. */
  lemma TakeStale(w: Writer, file: nat, p: int, k: nat)
    requires Mid(w, file, p) && p < w.have && k > 0
    ensures !(w.Take(k).wire <= Expected(w.header, file))
  {
    var e, w' := Expected(w.header, file), w.Take(k);
    assert w'.wire[w.have] == w.Offer()[0] == e[p];
    assert e[p] != e[w.have];
  }

  /** With the header out, a finished run is exact if and only if it was paced, and did not begin
      with a success on an offer already used. */
  lemma {:induction false} MidRun(w: Writer, file: nat, p: int, answers: seq<Answer>)
    requires Mid(w, file, p) && Positive(answers)
    ensures var (ending, w', used) := Drain(w, answers);
            ending == Done ==>
              (w'.wire == Expected(w.header, file) <==>
               Paced(answers, used) && (answers[0].Sent? ==> p == w.have))
    ensures var (ending, w', used) := Drain(w, answers);
            Paced(answers, used) && (used > 0 && answers[0].Sent? ==> p == w.have) ==>
              w'.wire <= Expected(w.header, file)
    decreases |answers|
  {
    if answers != [] && answers[0] != Failed {
      assert p <= w.have && w.wire <= Expected(w.header, file);
      PositiveTail(answers);
      hide Drain, Mid, Expected, Positive, Writer.Take, Writer.Resume, Writer.Offer;
      var (ending, last, used) := Drain(w, answers);
      DrainStep(w, answers);
      if answers[0].Again? {
        ResumeMid(w, file, p);
        MidRun(w.Resume(), file, w.have, answers[1..]);
      } else if p < w.have {
        TakeStale(w, file, p, answers[0].k);
      } else {
        TakeMid(w, file, answers[0].k);
        if w.Take(answers[0].k).toSend > 0 {
          MidRun(w.Take(answers[0].k), file, w.have, answers[1..]);
        }
      }
    }
  }

  /** If the first write takes the whole header, a finished run has put header and file on the wire
      exactly once and in order if and only if every later success came right after a refusal; and
      however a paced run ends, what is on the wire is a beginning of that. */
  lemma ExactIffPaced(w: Writer, file: nat, answers: seq<Answer>)
    requires Started(w, file) && 0 < w.header
    requires Positive(answers) && answers != [] && answers[0].Sent? && answers[0].k >= w.header
    ensures var (ending, w', used) := Drain(w, answers);
            && (ending == Done ==> (w'.wire == Expected(w.header, file) <==> Paced(answers, used)))
            && (Paced(answers, used) ==> w'.wire <= Expected(w.header, file))
  {
    hide Drain;
    var e := Expected(w.header, file);
    var w' := w.Take(answers[0].k);
    DrainStep(w, answers);
    assert |answers| > 1 ==> answers[1..][0] == answers[1];
    assert w.Offer() == e;
    assert w'.wire == e[..w'.have];
    var (ending, last, used) := Drain(w, answers);
    if w'.toSend > 0 {
      assert e[0..] == e;
      MidRun(w', file, 0, answers[1..]);
    }
  }

  /** The header is not out, and what the loop offers next is not the next header byte. */
  ghost predicate Astray(w: Writer, file: nat) {
    && 0 <= w.have < w.header && w.wire == Expected(w.header, file)[..w.have]
    && w.toSend == w.header + file - w.have
    && (w.toSend != w.have || w.iv0.len <= w.have)
    && w.iv0.region == Head && 1 <= w.count <= 2
    && (if w.iv0.len > 0 then w.iv0.base != w.have else w.iv1.region == File)
  }

  /** An astray loop never finishes with header and file on the wire. */
  lemma {:induction false} AstrayRun(w: Writer, file: nat, answers: seq<Answer>)
    requires Astray(w, file)
    ensures var (ending, w', used) := Drain(w, answers);
            ending == Done ==> w'.wire != Expected(w.header, file)
    decreases |answers|
  {
    if answers != [] && answers[0] != Failed {
      if answers[0].Again? {
        AstrayRun(w.Resume(), file, answers[1..]);
      } else {
        var w' := w.Take(answers[0].k);
        if w'.have == w.have {
          AstrayRun(w', file, answers[1..]);
        } else {
          assert w'.wire[w.have] == w.Offer()[0] != Expected(w.header, file)[w.have];
        }
      }
    }
  }

  /** When the first answer is a refusal, or takes only k bytes of the header (and k is not half of
      everything), the resume arithmetic goes astray and no run is exact. */
  lemma NeverExactIfHeaderCut(w: Writer, file: nat, answers: seq<Answer>)
    requires Started(w, file) && 0 < w.header && Positive(answers) && answers != []
    requires answers[0].Sent? ==> answers[0].k < w.header && 2 * answers[0].k != w.header + file
    ensures var (ending, w', used) := Drain(w, answers);
            ending == Done ==> w'.wire != Expected(w.header, file)
  {
    if answers[0].Sent? {
      assert w.Offer() == Expected(w.header, file);
      AstrayRun(w.Take(answers[0].k), file, answers[1..]);
    } else if answers[0].Again? {
      AstrayRun(w.Resume(), file, answers[1..]);
    }
  }

  /** Half of everything is out, the loop was refused, and the wrong place to go on is the right one. */
  ghost predicate Half(w: Writer, file: nat, k: int) {
    && w.have == k == w.toSend && 0 < k < w.header && 2 * k == w.header + file
    && w.wire == Expected(w.header, file)[..k]
    && w.iv0 == IoVec(Head, k, w.header - k)
    && (if file > 0 then w.count == 2 && w.iv1 == IoVec(File, 0, file) else w.count == 1 || (w.count == 2 && w.iv1.len == 0))
  }

  lemma TakeHalf(w: Writer, file: nat, k: int, n: nat)
    requires Half(w, file, k) && n > 0
    ensures var w' := w.Take(n);
            if n < w.header - k then w'.toSend > 0 && Astray(w', file)
            else if w'.toSend <= 0 then w'.wire == Expected(w.header, file)
            else Mid(w', file, k) && k < w'.have
  {
    var e := Expected(w.header, file);
    assert w.Offer() == e[k..];
    assert w.Take(n).wire == e[..w.Take(n).have];
  }

  lemma ResumeHalf(w: Writer, file: nat, k: int)
    requires Half(w, file, k)
    ensures Astray(w.Resume(), file)
  {
  }

  /** From there on a finished run is exact if and only if the next write takes at least the rest of
      the header, and the run is paced from it on. */
  lemma HalfRun(w: Writer, file: nat, k: int, answers: seq<Answer>)
    requires Half(w, file, k) && Positive(answers)
    ensures var (ending, w', used) := Drain(w, answers);
            ending == Done ==>
              (w'.wire == Expected(w.header, file) <==>
               answers[0].Sent? && k + answers[0].k >= w.header && Paced(answers, used))
  {
    hide Drain, Astray, Half, Expected;
    if answers == [] || answers[0] == Failed {
      DrainEnds(w, answers);
    } else if answers[0].Again? {
      DrainStep(w, answers);
      ResumeHalf(w, file, k);
      AstrayRun(w.Resume(), file, answers[1..]);
    } else {
      HalfTaken(w, file, k, answers);
    }
  }

  lemma HalfTaken(w: Writer, file: nat, k: int, answers: seq<Answer>)
    requires Half(w, file, k) && Positive(answers) && answers != [] && answers[0].Sent?
    ensures var (ending, w', used) := Drain(w, answers);
            ending == Done ==>
              (w'.wire == Expected(w.header, file) <==> k + answers[0].k >= w.header && Paced(answers, used))
  {
    hide Drain, Mid, Astray, Expected;
    var (ending, last, used) := Drain(w, answers);
    DrainStep(w, answers);
    var w' := w.Take(answers[0].k);
    TakeHalf(w, file, k, answers[0].k);
    hide Half;
    if k + answers[0].k < w.header {
      AstrayRun(w', file, answers[1..]);
    } else if w'.toSend > 0 {
      MidRun(w', file, k, answers[1..]);
    }
  }

  /** The header is out after the first write; or that write took half of everything, was followed
      by a refusal, and the next one took at least the rest of the header. */
  predicate HeaderGoesOut(header: nat, file: nat, answers: seq<Answer>) {
    && answers != [] && answers[0].Sent?
    && (answers[0].k >= header ||
        (2 * answers[0].k == header + file && |answers| > 2 && answers[1].Again? && answers[2].Sent?
         && answers[0].k + answers[2].k >= header))
  }

  /** The first write took half of everything, within the header. */
  lemma HalfCut(w: Writer, file: nat, answers: seq<Answer>)
    requires Started(w, file) && 0 < w.header && Positive(answers)
    requires answers != [] && answers[0].Sent? && answers[0].k < w.header && 2 * answers[0].k == w.header + file
    ensures var (ending, w', used) := Drain(w, answers);
            ending == Done ==>
              (w'.wire == Expected(w.header, file) <==>
               Paced(answers, used) && HeaderGoesOut(w.header, file, answers))
  {
    hide Drain, Expected, Started, Writer.Take, Writer.Resume, Writer.Offer;
    if |answers| > 1 && answers[1].Sent? {
      HalfRepeats(w, file, answers);
    } else if |answers| > 1 && answers[1].Again? {
      HalfRefused(w, file, answers);
    } else {
      HalfStarts(w, file, answers[0].k);
      DrainStep(w, answers);
      DrainEnds(w.Take(answers[0].k), answers[1..]);
    }
  }

  lemma HalfRefused(w: Writer, file: nat, answers: seq<Answer>)
    requires Started(w, file) && 0 < w.header && Positive(answers) && |answers| > 1
    requires answers[0].Sent? && answers[0].k < w.header && 2 * answers[0].k == w.header + file && answers[1].Again?
    ensures var (ending, w', used) := Drain(w, answers);
            ending == Done ==>
              (w'.wire == Expected(w.header, file) <==>
               Paced(answers, used) && HeaderGoesOut(w.header, file, answers))
  {
    HalfStarts(w, file, answers[0].k);
    hide Drain, Half, Expected, Started, Writer.Take, Writer.Resume, Writer.Offer;
    var k, rest := answers[0].k, answers[1..];
    var (ending, last, used) := Drain(w, answers);
    DrainStep(w, answers);
    PositiveTail(answers);
    PositiveTail(rest);
    hide Positive;
    if ending == Done {
      DrainStep(w.Take(k), rest);
      HalfRun(w.Take(k).Resume(), file, k, rest[1..]);
      assert used > 2 && rest[1..][0] == answers[2];
      assert Paced(answers, used) <==> Paced(rest, used - 1);
    }
  }

  /** Without the refusal the second write starts from the front again. */
  lemma HalfRepeats(w: Writer, file: nat, answers: seq<Answer>)
    requires Started(w, file) && |answers| > 1 && answers[0].Sent? && answers[1].Sent? && answers[1].k > 0
    requires 0 < answers[0].k < w.header && 2 * answers[0].k == w.header + file
    ensures Drain(w, answers).1.wire != Expected(w.header, file)
  {
    hide Drain;
    var e, k := Expected(w.header, file), answers[0].k;
    assert w.Offer() == e;
    DrainStep(w, answers);
    DrainStep(w.Take(k), answers[1..]);
    assert w.Take(k).Take(answers[1].k).wire[k] == e[0] != e[k];
  }

  lemma HalfStarts(w: Writer, file: nat, k: nat)
    requires Started(w, file) && 0 < k < w.header && 2 * k == w.header + file
    ensures Half(w.Take(k).Resume(), file, k)
    ensures w.have < w.Take(k).have && w.Take(k).toSend > 0 && w.Take(k).Resume().header == w.header
  {
    assert w.Offer() == Expected(w.header, file);
  }

  /** The whole classification: a finished run has put header and file on the wire exactly once and
      in order if and only if the header went out as it should and every later success came right
      after a refusal. */
  lemma ExactIff(w: Writer, file: nat, answers: seq<Answer>)
    requires Started(w, file) && 0 < w.header && Positive(answers)
    ensures var (ending, w', used) := Drain(w, answers);
            ending == Done ==>
              (w'.wire == Expected(w.header, file) <==>
               Paced(answers, used) && HeaderGoesOut(w.header, file, answers))
  {
    hide Drain, Started, Expected;
    if answers == [] {
      DrainEnds(w, answers);
    } else if answers[0].Sent? && answers[0].k >= w.header {
      ExactIffPaced(w, file, answers);
    } else if answers[0].Sent? && 2 * answers[0].k == w.header + file {
      HalfCut(w, file, answers);
    } else {
      NeverExactIfHeaderCut(w, file, answers);
    }
  }

  // ---------------------------------------------------------------- a vector too many

  /** A text is to be sent, but a second vector of an earlier response is still in use. */
  predicate Stale(w: Writer) {
    && w.iv0 == IoVec(Head, 0, w.header) && w.count == 2 && w.iv1.len > 0
    && w.have == 0 && w.toSend == w.header && w.newadd == 0 && w.wire == []
  }

  /** The text goes out without a byte of the other vector: in one write, or half of it, a refusal,
      and the other half. */
  predicate HeaderAlone(header: nat, answers: seq<Answer>) {
    && answers != [] && answers[0].Sent?
    && (answers[0].k == header ||
        (2 * answers[0].k == header && |answers| > 2 && answers[1].Again? && answers[2].Sent?
         && answers[0].k + answers[2].k == header))
  }

  /** Half of the text is out and the loop was refused. */
  predicate StaleHalf(w: Writer, k: int) {
    && w.have == k == w.toSend && 0 < k && 2 * k == w.header
    && w.wire == Expected(w.header, 0)[..k]
    && w.iv0 == IoVec(Head, k, w.header - k) && w.count == 2 && w.iv1.len > 0
  }

  lemma TakeStaleHalf(w: Writer, k: int, n: nat)
    requires StaleHalf(w, k) && n > 0
    ensures var w' := w.Take(n);
            && w.have < w'.have && w'.header == w.header
            && (if k + n < w.header then w'.toSend > 0 && Astray(w', 0)
                else w'.toSend <= 0 && (w'.wire == Expected(w.header, 0) <==> k + n == w.header))
    ensures Astray(w.Resume(), 0) && w.Resume().header == w.header
  {
    var e := Expected(w.header, 0);
    assert w.Offer()[..w.header - k] == e[k..];
    if k + n <= w.header {
      assert w.Take(n).wire == e[..w.Take(n).have];
    }
  }

  lemma StaleHalfRun(w: Writer, k: int, answers: seq<Answer>)
    requires StaleHalf(w, k) && Positive(answers)
    ensures var (ending, w', used) := Drain(w, answers);
            ending == Done ==>
              (w'.wire == Expected(w.header, 0) <==>
               answers[0].Sent? && k + answers[0].k == w.header && Paced(answers, used))
  {
    hide Drain, Expected, Astray, Writer.Take, Writer.Resume, Writer.Offer;
    if answers == [] || answers[0] == Failed {
      DrainEnds(w, answers);
    } else {
      DrainStep(w, answers);
      TakeStaleHalf(w, k, if answers[0].Sent? then answers[0].k else 1);
      hide StaleHalf;
      if answers[0].Again? {
        AstrayRun(w.Resume(), 0, answers[1..]);
      } else if k + answers[0].k < w.header {
        AstrayRun(w.Take(answers[0].k), 0, answers[1..]);
      }
    }
  }

  /** With a vector too many, a finished run is exact if and only if it is paced and the kernel
      happens to stop where the text ends. */
  lemma StaleExactIff(w: Writer, answers: seq<Answer>)
    requires Stale(w) && 0 < w.header && Positive(answers)
    ensures var (ending, w', used) := Drain(w, answers);
            ending == Done ==>
              (w'.wire == Expected(w.header, 0) <==> Paced(answers, used) && HeaderAlone(w.header, answers))
  {
    hide Drain;
    if answers == [] || answers[0] == Failed {
      DrainEnds(w, answers);
    } else if answers[0].Sent? && 2 * answers[0].k == w.header {
      StaleCut(w, answers);
    } else {
      DrainStep(w, answers);
      if answers[0].Again? {
        AstrayRun(w.Resume(), 0, answers[1..]);
      } else {
        var w' := w.Take(answers[0].k);
        assert w.Offer()[..w.header] == Expected(w.header, 0);
        if answers[0].k < w.header {
          assert w'.wire == Expected(w.header, 0)[..w'.have];
          AstrayRun(w', 0, answers[1..]);
        }
      }
    }
  }

  lemma StaleCut(w: Writer, answers: seq<Answer>)
    requires Stale(w) && 0 < w.header && Positive(answers)
    requires answers != [] && answers[0].Sent? && 2 * answers[0].k == w.header
    ensures var (ending, w', used) := Drain(w, answers);
            ending == Done ==>
              (w'.wire == Expected(w.header, 0) <==> Paced(answers, used) && HeaderAlone(w.header, answers))
  {
    StaleHalfStarts(w, answers[0].k);
    hide Drain, StaleHalf, Stale, Expected, Writer.Take, Writer.Resume, Writer.Offer;
    var k, rest := answers[0].k, answers[1..];
    var (ending, last, used) := Drain(w, answers);
    DrainStep(w, answers);
    var w1 := w.Take(k);
    if rest == [] || rest[0] == Failed {
      DrainEnds(w1, rest);
    } else if ending == Done {
      DrainStep(w1, rest);
      if rest[0].Sent? {
        StaleRepeats(w, answers);
      } else {
        StaleHalfRun(w1.Resume(), k, rest[1..]);
        assert used > 2 && rest[1..][0] == answers[2];
        assert Paced(answers, used) <==> Paced(rest, used - 1);
      }
    }
  }

  lemma StaleRepeats(w: Writer, answers: seq<Answer>)
    requires Stale(w) && |answers| > 1 && answers[0].Sent? && answers[1].Sent? && answers[1].k > 0
    requires 0 < answers[0].k && 2 * answers[0].k == w.header
    ensures Drain(w, answers).1.wire != Expected(w.header, 0)
  {
    hide Drain;
    var e, k := Expected(w.header, 0), answers[0].k;
    assert w.Offer()[..w.header] == e;
    DrainStep(w, answers);
    DrainStep(w.Take(k), answers[1..]);
    assert w.Take(k).Take(answers[1].k).wire[k] == e[0] != e[k];
  }

  lemma StaleHalfStarts(w: Writer, k: nat)
    requires Stale(w) && 0 < k && 2 * k == w.header
    ensures StaleHalf(w.Take(k).Resume(), k)
    ensures w.have < w.Take(k).have && w.Take(k).toSend > 0 && w.Take(k).Resume().header == w.header
  {
    assert w.Offer()[..w.header] == Expected(w.header, 0);
  }

  // ---------------------------------------------------------------- the counters

  /** While the loop runs, both counters stay between their first values and the sum of the two. */
  lemma {:induction false} CountersStay(w: Writer, answers: seq<Answer>)
    requires 0 <= w.have && 0 < w.toSend
    ensures var (ending, w', used) := Drain(w, answers);
            ending != Done ==> w.have <= w'.have <= w.have + w.toSend && 0 < w'.toSend <= w.toSend
    decreases |answers|
  {
    if answers != [] && answers[0] != Failed {
      var w' := if answers[0].Sent? then w.Take(answers[0].k) else w.Resume();
      if w'.toSend > 0 {
        CountersStay(w', answers[1..]);
      }
    }
  }
}
