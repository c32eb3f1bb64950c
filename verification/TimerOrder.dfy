/** The timer list as a value: a sequence of timers with their expiry times. */
module TimerOrder {

  datatype Entry<T> = Entry(timer: T, expire: int)

  predicate Sorted<T>(es: seq<Entry<T>>) {
    forall i, j :: 0 <= i < j < |es| ==> es[i].expire <= es[j].expire
  }

  /** The first position from k on whose expiry is later than e, or the end. */
  function Position<T>(es: seq<Entry<T>>, k: nat, e: int): (p: nat)
    requires k <= |es|
    ensures k <= p <= |es|
    ensures forall i :: k <= i < p ==> es[i].expire <= e
    ensures p < |es| ==> e < es[p].expire
    decreases |es| - k
  {
    if k == |es| || e < es[k].expire then k else Position(es, k + 1, e)
  }

  function InsertAt<T>(es: seq<Entry<T>>, p: nat, e: Entry<T>): seq<Entry<T>>
    requires p <= |es|
  {
    es[..p] + [e] + es[p..]
  }

  function RemoveAt<T>(es: seq<Entry<T>>, k: nat): seq<Entry<T>>
    requires k < |es|
  {
    es[..k] + es[k + 1..]
  }

  /** _add_timer, starting behind position k. */
  function InsertBehind<T>(es: seq<Entry<T>>, k: nat, e: Entry<T>): seq<Entry<T>>
    requires k < |es|
  {
    InsertAt(es, Position(es, k + 1, e.expire), e)
  }

  /** add_timer */
  function Add<T>(es: seq<Entry<T>>, e: Entry<T>): seq<Entry<T>> {
    if es == [] then [e]
    else if e.expire < es[0].expire then [e] + es
    else InsertBehind(es, 0, e)
  }

  /** adjust_timer on the timer at position k, whose expiry has just been set. */
  function Adjust<T>(es: seq<Entry<T>>, k: nat): seq<Entry<T>>
    requires k < |es|
  {
    if k + 1 == |es| || es[k].expire < es[k + 1].expire then es
    else InsertBehind(RemoveAt(es, k), k, es[k])
  }

  /** How many timers at the front are due. */
  function DuePrefix<T>(es: seq<Entry<T>>, now: int): (n: nat)
    ensures n <= |es|
    ensures forall i :: 0 <= i < n ==> es[i].expire <= now
    ensures n < |es| ==> now < es[n].expire
  {
    if es == [] || now < es[0].expire then 0 else
      var n := DuePrefix(es[1..], now);
      assert forall i :: 1 <= i < n + 1 ==> es[i] == es[1..][i - 1];
      1 + n
  }

  // ---------------------------------------------------------------- the operations keep order

  lemma InsertSorted<T>(es: seq<Entry<T>>, p: nat, e: Entry<T>)
    requires Sorted(es) && p <= |es|
    requires forall i :: 0 <= i < p ==> es[i].expire <= e.expire
    requires forall i :: p <= i < |es| ==> e.expire <= es[i].expire
    ensures Sorted(InsertAt(es, p, e))
  {
  }

  /** The front may be anything not later; the rest follows from the search. */
  lemma InsertBehindSorted<T>(es: seq<Entry<T>>, k: nat, e: Entry<T>)
    requires Sorted(es) && k < |es| && es[k].expire <= e.expire
    ensures Sorted(InsertBehind(es, k, e))
  {
    InsertSorted(es, Position(es, k + 1, e.expire), e);
  }

  lemma AddSorted<T>(es: seq<Entry<T>>, e: Entry<T>)
    requires Sorted(es)
    ensures Sorted(Add(es, e))
    ensures multiset(Add(es, e)) == multiset(es) + multiset{e}
  {
    hide Position;
    if es != [] && es[0].expire <= e.expire {
      InsertBehindSorted(es, 0, e);
      InsertContents(es, Position(es, 1, e.expire), e);
    }
  }

  lemma InsertContents<T>(es: seq<Entry<T>>, p: nat, e: Entry<T>)
    requires p <= |es|
    ensures multiset(InsertAt(es, p, e)) == multiset(es) + multiset{e}
  {
    assert es == es[..p] + es[p..];
  }

  lemma RemoveContents<T>(es: seq<Entry<T>>, k: nat)
    requires k < |es|
    ensures multiset(RemoveAt(es, k)) + multiset{es[k]} == multiset(es)
  {
    assert es == es[..k] + [es[k]] + es[k + 1..];
  }

  /** All but the timer at k are in order. */
  predicate SortedBut<T>(es: seq<Entry<T>>, k: nat) {
    forall i, j :: 0 <= i < j < |es| && i != k && j != k ==> es[i].expire <= es[j].expire
  }

  /** adjust_timer loses and adds nothing, and it restores the order of an otherwise sorted list if
      and only if the timer does not expire before the one in front of it: it never moves a timer
      forward, so it is right exactly when the expiry was not lowered past a neighbour. */
  lemma AdjustRestoresIff<T>(es: seq<Entry<T>>, k: nat)
    requires k < |es| && SortedBut(es, k)
    ensures multiset(Adjust(es, k)) == multiset(es)
    ensures Sorted(Adjust(es, k)) <==> (k > 0 ==> es[k - 1].expire <= es[k].expire)
  {
    hide Position;
    RemoveContents(es, k);
    var rest := RemoveAt(es, k);
    assert Sorted(rest);
    if k + 1 < |es| && es[k + 1].expire <= es[k].expire {
      assert rest[k] == es[k + 1];
      InsertBehindSorted(rest, k, es[k]);
      InsertContents(rest, Position(rest, k + 1, es[k].expire), es[k]);
    } else if k > 0 {
      assert es[k - 1].expire <= es[k].expire ==> Sorted(es);
    }
  }

  // ---------------------------------------------------------------- expiry

  /** The timers that are due, or that are not, wherever they stand. */
  function Select<T>(es: seq<Entry<T>>, now: int, due: bool): seq<Entry<T>> {
    if es == [] then []
    else (if (es[0].expire <= now) == due then [es[0]] else []) + Select(es[1..], now, due)
  }

  /** Stopping at the first timer that is not due misses none: on a sorted list the scan takes
      exactly the due timers, in order, and leaves exactly the others. */
  lemma {:induction false} TimeoutExact<T>(es: seq<Entry<T>>, now: int)
    requires Sorted(es)
    ensures es[..DuePrefix(es, now)] == Select(es, now, true)
    ensures es[DuePrefix(es, now)..] == Select(es, now, false)
  {
    if es != [] {
      TimeoutExact(es[1..], now);
      if es[0].expire <= now {
        var n := DuePrefix(es[1..], now);
        assert es[..n + 1] == [es[0]] + es[1..][..n];
        assert es[n + 1..] == es[1..][n..];
      } else {
        NoneDue(es, now);
      }
    }
  }

  lemma {:induction false} NoneDue<T>(es: seq<Entry<T>>, now: int)
    requires forall e :: e in es ==> now < e.expire
    ensures Select(es, now, true) == [] && Select(es, now, false) == es
  {
    if es != [] {
      NoneDue(es[1..], now);
    }
  }

  // ---------------------------------------------------------------- runs of the event loop

  const LIFETIME := 15

  /** What the event loop does with timers: a client connects, sends data, is dropped; an alarm. */
  datatype Event<T> = Arrive(timer: T, now: int) | Touch(timer: T, now: int) | Drop(timer: T, now: int) | Alarm(now: int)

  function Index<T(==)>(es: seq<Entry<T>>, t: T): (k: nat)
    ensures k <= |es|
    ensures k < |es| ==> es[k].timer == t
    ensures forall i :: 0 <= i < k ==> es[i].timer != t
  {
    if es == [] || es[0].timer == t then 0 else
      var k := Index(es[1..], t);
      assert forall i :: 1 <= i < k + 1 ==> es[i] == es[1..][i - 1];
      1 + k
  }

  /** A new timer is new; the others are in the list; the clock does not go back. */
  predicate Legal<T(==)>(es: seq<Entry<T>>, clock: int, ev: Event<T>) {
    && clock <= ev.now
    && (ev.Arrive? ==> Index(es, ev.timer) == |es|)
    && (ev.Touch? || ev.Drop? ==> Index(es, ev.timer) < |es|)
  }

  function Step<T(==)>(es: seq<Entry<T>>, ev: Event<T>): seq<Entry<T>>
    requires ev.Touch? || ev.Drop? ==> Index(es, ev.timer) < |es|
  {
    match ev
    case Arrive(t, now) => Add(es, Entry(t, now + LIFETIME))
    case Touch(t, now) => Adjust(es[Index(es, t) := Entry(t, now + LIFETIME)], Index(es, t))
    case Drop(t, _) => RemoveAt(es, Index(es, t))
    case Alarm(now) => es[DuePrefix(es, now)..]
  }

  predicate LegalRun<T(==)>(es: seq<Entry<T>>, clock: int, run: seq<Event<T>>)
    decreases |run|
  {
    run == [] || (Legal(es, clock, run[0]) && LegalRun(Step(es, run[0]), run[0].now, run[1..]))
  }

  function Run<T(==)>(es: seq<Entry<T>>, clock: int, run: seq<Event<T>>): seq<Entry<T>>
    requires LegalRun(es, clock, run)
    decreases |run|
  {
    if run == [] then es else Run(Step(es, run[0]), run[0].now, run[1..])
  }

  /** The other view: who was last active when, most recent last. Nothing is ever searched for. */
  datatype Activity<T> = Activity(timer: T, last: int)

  function Without<T(==)>(acts: seq<Activity<T>>, t: T): seq<Activity<T>> {
    if acts == [] then [] else (if acts[0].timer == t then [] else [acts[0]]) + Without(acts[1..], t)
  }

  function Alive<T>(acts: seq<Activity<T>>, now: int): seq<Activity<T>> {
    if acts == [] then [] else (if acts[0].last + LIFETIME <= now then [] else [acts[0]]) + Alive(acts[1..], now)
  }

  function Record<T(==)>(acts: seq<Activity<T>>, ev: Event<T>): seq<Activity<T>> {
    match ev
    case Arrive(t, now) => acts + [Activity(t, now)]
    case Touch(t, now) => Without(acts, t) + [Activity(t, now)]
    case Drop(t, _) => Without(acts, t)
    case Alarm(now) => Alive(acts, now)
  }

  function RecordAll<T(==)>(acts: seq<Activity<T>>, run: seq<Event<T>>): seq<Activity<T>>
    decreases |run|
  {
    if run == [] then acts else RecordAll(Record(acts, run[0]), run[1..])
  }

  function Expiries<T>(acts: seq<Activity<T>>): seq<Entry<T>> {
    seq(|acts|, i requires 0 <= i < |acts| => Entry(acts[i].timer, acts[i].last + LIFETIME))
  }

  predicate Recent<T(==)>(acts: seq<Activity<T>>, clock: int) {
    && (forall i, j :: 0 <= i < j < |acts| ==> acts[i].last <= acts[j].last && acts[i].timer != acts[j].timer)
    && (forall i :: 0 <= i < |acts| ==> acts[i].last <= clock)
  }

  lemma {:induction false} WithoutIs<T>(acts: seq<Activity<T>>, k: nat, clock: int)
    requires k < |acts| && Recent(acts, clock)
    ensures Without(acts, acts[k].timer) == acts[..k] + acts[k + 1..]
  {
    if k == 0 {
      NotThere(acts[1..], acts[0].timer);
    } else {
      WithoutIs(acts[1..], k - 1, clock);
      assert acts[1..][..k - 1] == acts[1..k] && acts[..k] == [acts[0]] + acts[1..k];
      assert acts[1..][k - 1 + 1..] == acts[k + 1..];
    }
  }

  lemma {:induction false} NotThere<T>(acts: seq<Activity<T>>, t: T)
    requires forall i :: 0 <= i < |acts| ==> acts[i].timer != t
    ensures Without(acts, t) == acts
  {
    if acts != [] {
      NotThere(acts[1..], t);
    }
  }

  lemma {:induction false} AliveIs<T>(acts: seq<Activity<T>>, now: int, clock: int)
    requires Recent(acts, clock)
    ensures Alive(acts, now) == acts[DuePrefix(Expiries(acts), now)..]
    ensures Recent(Alive(acts, now), clock)
  {
    hide DuePrefix, Alive;
    var n := DuePrefix(Expiries(acts), now);
    forall i | 0 <= i < |acts|
      ensures acts[i].last + LIFETIME <= now <==> i < n
    {
      assert Expiries(acts)[i].expire == acts[i].last + LIFETIME;
    }
    AliveBehind(acts, now, n);
  }

  lemma {:induction false} AliveBehind<T>(acts: seq<Activity<T>>, now: int, n: nat)
    requires n <= |acts|
    requires forall i :: 0 <= i < n ==> acts[i].last + LIFETIME <= now
    requires forall i :: n <= i < |acts| ==> now < acts[i].last + LIFETIME
    ensures Alive(acts, now) == acts[n..]
  {
    if n == 0 {
      AllAlive(acts, now);
    } else {
      AliveBehind(acts[1..], now, n - 1);
    }
  }

  lemma {:induction false} AllAlive<T>(acts: seq<Activity<T>>, now: int)
    requires forall i :: 0 <= i < |acts| ==> now < acts[i].last + LIFETIME
    ensures Alive(acts, now) == acts
  {
    if acts != [] {
      AllAlive(acts[1..], now);
    }
  }

  /** A touched timer ends last. */
  lemma TouchedEndsLast<T>(es: seq<Entry<T>>, k: nat, e: Entry<T>)
    requires k < |es| && forall i :: 0 <= i < |es| ==> es[i].expire <= e.expire
    ensures Adjust(es[k := e], k) == RemoveAt(es, k) + [e]
  {
    hide Position;
    assert RemoveAt(es[k := e], k) == RemoveAt(es, k);
    if k + 1 < |es| {
      var rest := RemoveAt(es, k);
      assert Position(rest, k + 1, e.expire) == |rest|;
    }
  }

  lemma RecentAppend<T>(acts: seq<Activity<T>>, clock: int, t: T, now: int)
    requires Recent(acts, clock) && clock <= now && forall i :: 0 <= i < |acts| ==> acts[i].timer != t
    ensures Recent(acts + [Activity(t, now)], now)
    ensures Expiries(acts + [Activity(t, now)]) == Expiries(acts) + [Entry(t, now + LIFETIME)]
  {
  }

  lemma {:induction false} ArriveRecords<T>(acts: seq<Activity<T>>, clock: int, t: T, now: int)
    requires Recent(acts, clock) && clock <= now && Index(Expiries(acts), t) == |acts|
    ensures Add(Expiries(acts), Entry(t, now + LIFETIME)) == Expiries(acts + [Activity(t, now)])
    ensures Recent(acts + [Activity(t, now)], now)
  {
    hide Position, Index;
    var es := Expiries(acts);
    assert forall i :: 0 <= i < |acts| ==> es[i].timer == acts[i].timer && es[i].expire <= now + LIFETIME;
    RecentAppend(acts, clock, t, now);
    AddsLast(es, Entry(t, now + LIFETIME));
  }

  lemma AddsLast<T>(es: seq<Entry<T>>, e: Entry<T>)
    requires forall i :: 0 <= i < |es| ==> es[i].expire <= e.expire
    ensures Add(es, e) == es + [e]
  {
    hide Position;
    assert es != [] ==> Position(es, 1, e.expire) == |es|;
  }

  lemma {:induction false} DropRecords<T>(acts: seq<Activity<T>>, clock: int, k: nat)
    requires Recent(acts, clock) && k < |acts|
    ensures RemoveAt(Expiries(acts), k) == Expiries(Without(acts, acts[k].timer))
    ensures Recent(Without(acts, acts[k].timer), clock)
    ensures forall i :: 0 <= i < |Without(acts, acts[k].timer)| ==> Without(acts, acts[k].timer)[i].timer != acts[k].timer
  {
    hide Without;
    WithoutIs(acts, k, clock);
  }

  lemma {:induction false} TouchRecords<T>(acts: seq<Activity<T>>, clock: int, k: nat, now: int)
    requires Recent(acts, clock) && clock <= now && k < |acts|
    ensures var t := acts[k].timer;
            && Adjust(Expiries(acts)[k := Entry(t, now + LIFETIME)], k) == Expiries(Without(acts, t) + [Activity(t, now)])
            && Recent(Without(acts, t) + [Activity(t, now)], now)
  {
    hide Without, Adjust;
    var es, t := Expiries(acts), acts[k].timer;
    DropRecords(acts, clock, k);
    TouchedEndsLast(es, k, Entry(t, now + LIFETIME));
    RecentAppend(Without(acts, t), clock, t, now);
  }

  lemma {:induction false} StepRecords<T>(acts: seq<Activity<T>>, clock: int, ev: Event<T>)
    requires Recent(acts, clock) && Legal(Expiries(acts), clock, ev)
    ensures Step(Expiries(acts), ev) == Expiries(Record(acts, ev))
    ensures Recent(Record(acts, ev), ev.now)
  {
    hide Position, Index, DuePrefix, Without, Alive, Add, Adjust, RemoveAt;
    match ev {
      case Arrive(t, now) =>
        ArriveRecords(acts, clock, t, now);
      case Touch(t, now) =>
        TouchRecords(acts, clock, Index(Expiries(acts), t), now);
      case Drop(t, _) =>
        DropRecords(acts, clock, Index(Expiries(acts), t));
      case Alarm(now) =>
        AliveIs(acts, now, clock);
    }
  }

  /** Over any run of connects, activity, drops and alarms under a clock that does not go back, the
      list is the record of who was last active when: least recently active first. */
  lemma {:induction false} ListIsActivityOrder<T>(acts: seq<Activity<T>>, clock: int, run: seq<Event<T>>)
    requires Recent(acts, clock) && LegalRun(Expiries(acts), clock, run)
    ensures Run(Expiries(acts), clock, run) == Expiries(RecordAll(acts, run))
    decreases |run|
  {
    hide Recent, Legal, Step, Record, Expiries;
    if run != [] {
      StepRecords(acts, clock, run[0]);
      ListIsActivityOrder(Record(acts, run[0]), run[0].now, run[1..]);
    }
  }

  /** In seconds: an alarm fires exactly the timers of the connections that were last active 15 seconds
      ago or more, which are the first of the list, and leaves the others. */
  lemma AlarmFires<T>(acts: seq<Activity<T>>, clock: int, now: int) returns (n: nat)
    requires Recent(acts, clock)
    ensures n <= |acts| && DuePrefix(Expiries(acts), now) == n
    ensures forall i :: 0 <= i < |acts| ==> (i < n <==> acts[i].last <= now - 15)
    ensures Step(Expiries(acts), Alarm(now)) == Expiries(acts)[n..]
  {
    hide DuePrefix;
    n := DuePrefix(Expiries(acts), now);
    forall i | 0 <= i < |acts|
      ensures i < n <==> acts[i].last <= now - 15
    {
      assert Expiries(acts)[i].expire == acts[i].last + 15;
    }
  }
}
