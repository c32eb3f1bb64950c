/** The blocking queue under its mutex and condition variable: any number of producers and
    consumers, one step at a time, on the ring buffer that the queue's array is. */
module Monitor {
  import opened BlockQueue
  import opened Wrappers

  type Thread = nat

  datatype Producer<T> =
    | PIdle
    | PTest(x: T)
    | PStore(x: T)
    | PSignal(stored: bool)
    | PUnlock

  /** CAsleep is inside the wait; CWoken has been signalled, or woke for no reason, and needs the
      mutex again. `once` marks the timed pop, which waits once and then looks a last time. CFailed
      gives up: a wait that returned an error or timed out, or a last look at an empty queue. */
  datatype Consumer =
    | CIdle
    | CTest(once: bool)
    | CAsleep(once: bool)
    | CWoken(once: bool)
    | CLast
    | CTake
    | CFailed
    | CUnlock

  datatype Owner = ByProducer(t: Thread) | ByConsumer(t: Thread)

  /** How an item left the queue. */
  datatype Gone<T> = Taken(x: T) | Cleared(x: T)

  datatype State<T> = State(
    ring: Ring<T>, lock: Option<Owner>,
    producers: map<Thread, Producer<T>>, consumers: map<Thread, Consumer>,
    pushed: seq<T>, gone: seq<Gone<T>>)

  predicate PHolds<T>(pc: Producer<T>) { !pc.PIdle? }
  predicate CHolds(pc: Consumer) { pc.CTest? || pc.CLast? || pc.CTake? || pc.CFailed? || pc.CUnlock? }

  datatype Action<T> =
    | Enter(p: Thread, x: T)
    | Test(p: Thread)
    | Store(p: Thread)
    | Broadcast(p: Thread)
    | Leave(p: Thread)
    | Begin(c: Thread, once: bool)
    | Look(c: Thread)
    | Wake(c: Thread)
    | Relock(c: Thread)
    | Fail(c: Thread)
    | Take(c: Thread)
    | Quit(c: Thread)
    | Clear

  function Prod<T>(s: State<T>, p: Thread): Producer<T> {
    if p in s.producers then s.producers[p] else PIdle
  }

  function Cons<T>(s: State<T>, c: Thread): Consumer {
    if c in s.consumers then s.consumers[c] else CIdle
  }

  function SetProd<T>(s: State<T>, p: Thread, pc: Producer<T>): State<T> {
    s.(producers := s.producers[p := pc])
  }

  function SetCons<T>(s: State<T>, c: Thread, pc: Consumer): State<T> {
    s.(consumers := s.consumers[c := pc])
  }

  /** pthread_cond_broadcast: nobody stays asleep. */
  function WakeAll(m: map<Thread, Consumer>): map<Thread, Consumer> {
    map c | c in m :: if m[c].CAsleep? then CWoken(m[c].once) else m[c]
  }

  function AllCleared<T>(xs: seq<T>): seq<Gone<T>> {
    seq(|xs|, i requires 0 <= i < |xs| => Cleared(xs[i]))
  }

  function Items<T>(gs: seq<Gone<T>>): seq<T> {
    seq(|gs|, i requires 0 <= i < |gs| => gs[i].x)
  }

  /** push, clear: the steps of a producer. Store and Clear do to the ring what Queue.Push and
      Queue.Clear do. */
  function ProducerStep<T>(s: State<T>, act: Action<T>): Option<State<T>>
    requires s.ring.Valid()
    requires act.Enter? || act.Test? || act.Store? || act.Broadcast? || act.Leave? || act.Clear?
  {
    match act
    case Enter(p, x) =>
      if Prod(s, p).PIdle? && s.lock.None? then Some(SetProd(s, p, PTest(x)).(lock := Some(ByProducer(p)))) else None
    case Test(p) =>
      if !Prod(s, p).PTest? then None
      else Some(SetProd(s, p, if s.ring.size >= |s.ring.slots| then PSignal(false) else PStore(Prod(s, p).x)))
    case Store(p) =>
      if !Prod(s, p).PStore? then None
      else Some(SetProd(s, p, PSignal(true)).(ring := s.ring.Push(Prod(s, p).x), pushed := s.pushed + [Prod(s, p).x]))
    case Broadcast(p) =>
      if !Prod(s, p).PSignal? then None else Some(SetProd(s, p, PUnlock).(consumers := WakeAll(s.consumers)))
    case Leave(p) => if Prod(s, p).PUnlock? then Some(SetProd(s, p, PIdle).(lock := None)) else None
    case Clear => if s.lock.None? then Some(s.(ring := s.ring.Clear(), gone := s.gone + AllCleared(s.ring.Items()))) else None
  }

  /** pop: the steps of a consumer. Waiting lets go of the mutex; a wait ends by a broadcast, for no
      reason, or with an error. Take does to the ring what Queue.Pop does. */
  function ConsumerStep<T>(s: State<T>, act: Action<T>): Option<State<T>>
    requires s.ring.Valid()
    requires act.Begin? || act.Look? || act.Wake? || act.Relock? || act.Fail? || act.Take? || act.Quit?
  {
    var pc := Cons(s, act.c);
    match act
    case Begin(c, once) =>
      if pc.CIdle? && s.lock.None? then Some(SetCons(s, c, CTest(once)).(lock := Some(ByConsumer(c)))) else None
    case Look(c) =>
      if !pc.CTest? && !pc.CLast? then None
      else if s.ring.size > 0 then Some(SetCons(s, c, CTake))
      else if pc.CLast? then Some(SetCons(s, c, CFailed))
      else Some(SetCons(s, c, CAsleep(pc.once)).(lock := None))
    case Wake(c) => if pc.CAsleep? then Some(SetCons(s, c, CWoken(pc.once))) else None
    case Relock(c) =>
      if !pc.CWoken? || s.lock.Some? then None
      else Some(SetCons(s, c, if pc.once then CLast else CTest(false)).(lock := Some(ByConsumer(c))))
    case Fail(c) =>
      if (pc.CAsleep? || pc.CWoken?) && s.lock.None? then Some(SetCons(s, c, CFailed).(lock := Some(ByConsumer(c)))) else None
    case Take(c) =>
      if !pc.CTake? then None
      else Some(SetCons(s, c, CUnlock).(ring := s.ring.Pop(), gone := s.gone + [Taken(s.ring.Front())]))
    case Quit(c) => if pc.CFailed? || pc.CUnlock? then Some(SetCons(s, c, CIdle).(lock := None)) else None
  }

  predicate OfConsumer<T>(act: Action<T>) {
    act.Begin? || act.Look? || act.Wake? || act.Relock? || act.Fail? || act.Take? || act.Quit?
  }

  function Step<T>(s: State<T>, act: Action<T>): Option<State<T>>
    requires s.ring.Valid()
  {
    if OfConsumer(act) then ConsumerStep(s, act) else ProducerStep(s, act)
  }

  /** The state the constructor leaves, whatever the fresh array holds. */
  function Initial<T>(slots: seq<T>): State<T> {
    State(Ring(slots, 0, -1, -1), None, map[], map[], [], [])
  }

  /** The state after a run; there is none if an action is not enabled. That the ring is one is what the
      steps rely on; by Conservation it is in every state a run comes to. */
  function Run<T>(s: State<T>, acts: seq<Action<T>>): Option<State<T>>
    decreases |acts|
  {
    if acts == [] then Some(s)
    else if !s.ring.Valid() then None
    else
      var s' := Step(s, acts[0]);
      if s'.None? then None else Run(s'.value, acts[1..])
  }

  // ---------------------------------------------------------------- invariants

  ghost predicate LockHeld<T>(s: State<T>) {
    && (forall p :: p in s.producers ==> (PHolds(s.producers[p]) <==> s.lock == Some(ByProducer(p))))
    && (forall c :: c in s.consumers ==> (CHolds(s.consumers[c]) <==> s.lock == Some(ByConsumer(c))))
  }

  /** A producer that has stored and not yet signalled. */
  ghost predicate Signalling<T>(s: State<T>) {
    exists p :: p in s.producers && s.producers[p] == PSignal(true)
  }

  ghost predicate Asleep<T>(s: State<T>) {
    exists c :: c in s.consumers && s.consumers[c].CAsleep?
  }

  ghost predicate Inv<T>(s: State<T>) {
    && LockHeld(s)
    && s.ring.Valid()
    && (forall p :: p in s.producers && s.producers[p].PStore? ==> s.ring.size < |s.ring.slots|)
    && (forall c :: c in s.consumers && s.consumers[c].CTake? ==> s.ring.size > 0)
    && s.pushed == Items(s.gone) + s.ring.Items()
    && (Asleep(s) && s.ring.size > 0 ==> Signalling(s))
  }

  lemma StoreKeeps<T>(s: State<T>, p: Thread)
    requires Inv(s) && ProducerStep(s, Store(p)).Some?
    ensures Inv(ProducerStep(s, Store(p)).value)
  {
    var x := Prod(s, p).x;
    var s' := ProducerStep(s, Store(p)).value;
    assert PHolds(s.producers[p]) && s.lock == Some(ByProducer(p));
    s.ring.PushAppends(x);
    hide Ring.Valid, Ring.Items;
    assert s.pushed + [x] == Items(s.gone) + (s.ring.Items() + [x]);
    assert Signalling(s') by { assert s'.producers[p] == PSignal(true); }
  }

  lemma TestKeeps<T>(s: State<T>, act: Action<T>)
    requires Inv(s) && (act.Enter? || act.Test?) && ProducerStep(s, act).Some?
    ensures Inv(ProducerStep(s, act).value)
  {
    hide Ring.Valid, Ring.Items, Items;
  }

  lemma SignalKeeps<T>(s: State<T>, act: Action<T>)
    requires Inv(s) && (act.Broadcast? || act.Leave? || act.Clear?) && ProducerStep(s, act).Some?
    ensures Inv(ProducerStep(s, act).value)
  {
    s.ring.ClearEmpties();
    if act.Clear? {
      assert Items(s.gone + AllCleared(s.ring.Items())) == Items(s.gone) + s.ring.Items();
    }
    hide Ring.Valid, Ring.Items;
  }

  lemma ProducerKeeps<T>(s: State<T>, act: Action<T>)
    requires Inv(s) && !OfConsumer(act) && ProducerStep(s, act).Some?
    ensures Inv(ProducerStep(s, act).value)
  {
    hide Inv, ProducerStep;
    if act.Store? {
      StoreKeeps(s, act.p);
    } else if act.Enter? || act.Test? {
      TestKeeps(s, act);
    } else {
      SignalKeeps(s, act);
    }
  }

  lemma LookKeeps<T>(s: State<T>, act: Action<T>)
    requires Inv(s) && (act.Look? || act.Wake?) && ConsumerStep(s, act).Some?
    ensures Inv(ConsumerStep(s, act).value)
  {
  }

  lemma LockKeeps<T>(s: State<T>, act: Action<T>)
    requires Inv(s) && (act.Begin? || act.Relock? || act.Fail?) && ConsumerStep(s, act).Some?
    ensures Inv(ConsumerStep(s, act).value)
  {
  }

  lemma TakeKeeps<T>(s: State<T>, act: Action<T>)
    requires Inv(s) && (act.Take? || act.Quit?) && ConsumerStep(s, act).Some?
    ensures Inv(ConsumerStep(s, act).value)
  {
    if act.Take? {
      s.ring.PopTakesFirst();
    }
    hide Ring.Valid, Ring.Items, Ring.Front;
  }

  lemma ConsumerKeeps<T>(s: State<T>, act: Action<T>)
    requires Inv(s) && OfConsumer(act) && ConsumerStep(s, act).Some?
    ensures Inv(ConsumerStep(s, act).value)
  {
    hide Inv, ConsumerStep;
    if act.Look? || act.Wake? {
      LookKeeps(s, act);
    } else if act.Take? || act.Quit? {
      TakeKeeps(s, act);
    } else {
      LockKeeps(s, act);
    }
  }

  lemma SameSlots<T>(s: State<T>, act: Action<T>)
    requires s.ring.Valid() && Step(s, act).Some?
    ensures |Step(s, act).value.ring.slots| == |s.ring.slots|
  {
  }

  lemma {:induction false} RunKeeps<T>(s: State<T>, acts: seq<Action<T>>)
    requires Inv(s) && Run(s, acts).Some?
    ensures Inv(Run(s, acts).value) && |Run(s, acts).value.ring.slots| == |s.ring.slots|
    decreases |acts|
  {
    hide Inv, ProducerStep, ConsumerStep, OfConsumer;
    if acts != [] {
      if OfConsumer(acts[0]) {
        ConsumerKeeps(s, acts[0]);
      } else {
        ProducerKeeps(s, acts[0]);
      }
      SameSlots(s, acts[0]);
      RunKeeps(Step(s, acts[0]).value, acts[1..]);
    }
  }

  /** Nothing is lost, doubled or reordered: what was pushed is what has left, taken or cleared, and
      then what is queued; and the queue never outgrows its capacity. */
  lemma Conservation<T>(slots: seq<T>, acts: seq<Action<T>>)
    requires 0 < |slots| && Run(Initial(slots), acts).Some?
    ensures var s := Run(Initial(slots), acts).value;
            && s.ring.Valid() && |s.ring.slots| == |slots|
            && s.pushed == Items(s.gone) + s.ring.Items() && s.ring.size <= |slots|
            && (forall p :: p in s.producers && s.producers[p].PStore? ==> s.ring.size < |slots|)
            && (forall c :: c in s.consumers && s.consumers[c].CTake? ==> s.ring.size > 0)
  {
    RunKeeps(Initial(slots), acts);
  }

  /** Nobody sleeps beside work: while a consumer is asleep and has not been woken, the queue is
      empty, or a producer still holds the mutex and is about to wake everybody. */
  lemma SleepersHaveNothingToDo<T>(slots: seq<T>, acts: seq<Action<T>>, c: Thread)
    requires 0 < |slots| && Run(Initial(slots), acts).Some?
    requires Cons(Run(Initial(slots), acts).value, c).CAsleep?
    ensures var s := Run(Initial(slots), acts).value;
            && s.ring.Valid()
            && (s.lock.None? ==> s.ring.Items() == [])
            && (s.ring.Items() != [] ==>
                  exists p :: s.lock == Some(ByProducer(p)) && Step(s, Broadcast(p)).Some?
                              && !Cons(Step(s, Broadcast(p)).value, c).CAsleep?)
  {
    RunKeeps(Initial(slots), acts);
    var s := Run(Initial(slots), acts).value;
    assert Inv(s) && Asleep(s);
    if s.ring.Items() != [] {
      assert Signalling(s);
      var p :| p in s.producers && s.producers[p] == PSignal(true);
      assert s.lock == Some(ByProducer(p)) && Step(s, Broadcast(p)).Some?;
    }
  }

  // ---------------------------------------------------------------- threads that are not disturbed

  lemma RunsNone<T>(s: State<T>)
    ensures Run(s, []) == Some(s)
  {
  }

  lemma RunsOne<T>(s: State<T>, act: Action<T>, rest: seq<Action<T>>)
    requires s.ring.Valid() && Step(s, act).Some?
    ensures Run(s, [act] + rest) == Run(Step(s, act).value, rest)
  {
    hide Step, Ring.Valid;
    assert ([act] + rest)[1..] == rest;
  }

  lemma RunsNot<T>(s: State<T>, act: Action<T>, rest: seq<Action<T>>)
    requires s.ring.Valid() && Step(s, act).None?
    ensures Run(s, [act] + rest) == None
  {
    hide Step, Ring.Valid;
  }

  function Signalled<T>(p: Thread): seq<Action<T>> {
    [Broadcast(p)] + ([Leave(p)] + [])
  }

  function Pushing<T>(p: Thread, x: T): seq<Action<T>> {
    [Enter(p, x)] + ([Test(p)] + ([Store(p)] + Signalled(p)))
  }

  function PushingInVain<T>(p: Thread, x: T): seq<Action<T>> {
    [Enter(p, x)] + ([Test(p)] + Signalled(p))
  }

  /** Every push ends by waking everybody and letting go of the mutex. */
  lemma Signals<T>(s: State<T>, p: Thread) returns (s': State<T>)
    requires s.ring.Valid() && Prod(s, p).PSignal?
    ensures Run(s, Signalled(p)) == Some(s')
    ensures s' == s.(producers := s.producers[p := PIdle], consumers := WakeAll(s.consumers), lock := None)
  {
    hide Run, Ring.Valid;
    var s1 := Step(s, Broadcast(p)).value;
    s' := Step(s1, Leave(p)).value;
    RunsNone(s');
    RunsOne(s1, Leave(p), []);
    RunsOne(s, Broadcast(p), [Leave(p)] + []);
    assert s'.producers == s.producers[p := PIdle];
  }

  /** A push that nobody disturbs appends if and only if fewer items are queued than the capacity. */
  lemma Pushes<T>(s: State<T>, p: Thread, x: T) returns (s': State<T>)
    requires s.ring.Valid() && Prod(s, p).PIdle? && s.lock.None?
    ensures Run(s, Pushing(p, x)) == if |s.ring.Items()| < |s.ring.slots| then Some(s') else None
    ensures |s.ring.Items()| < |s.ring.slots| ==>
              && s'.ring.Valid() && s'.ring.Items() == s.ring.Items() + [x] && |s'.ring.slots| == |s.ring.slots|
              && s'.pushed == s.pushed + [x] && s'.gone == s.gone && s'.lock.None?
              && Prod(s', p).PIdle? && s'.consumers == WakeAll(s.consumers)
  {
    var s1 := Step(s, Enter(p, x)).value;
    var s2 := Step(s1, Test(p)).value;
    hide Run, Signalled;
    RunsOne(s1, Test(p), [Store(p)] + Signalled(p));
    RunsOne(s, Enter(p, x), [Test(p)] + ([Store(p)] + Signalled(p)));
    if |s.ring.Items()| < |s.ring.slots| {
      s.ring.PushAppends(x);
      var s3 := Step(s2, Store(p)).value;
      RunsOne(s2, Store(p), Signalled(p));
      s' := Signals(s3, p);
    } else {
      s' := s;
      RunsNot(s2, Store(p), Signalled(p));
    }
  }

  /** Otherwise it wakes everybody and leaves the items alone. */
  lemma PushesInVain<T>(s: State<T>, p: Thread, x: T) returns (s': State<T>)
    requires s.ring.Valid() && Prod(s, p).PIdle? && s.lock.None?
    ensures Run(s, PushingInVain(p, x)) == if |s.ring.Items()| == |s.ring.slots| then Some(s') else None
    ensures |s.ring.Items()| == |s.ring.slots| ==>
              s' == s.(producers := s.producers[p := PIdle], consumers := WakeAll(s.consumers))
  {
    var s1 := Step(s, Enter(p, x)).value;
    var s2 := Step(s1, Test(p)).value;
    hide Run;
    RunsOne(s1, Test(p), Signalled(p));
    RunsOne(s, Enter(p, x), [Test(p)] + Signalled(p));
    if |s.ring.Items()| == |s.ring.slots| {
      s' := Signals(s2, p);
      assert s'.producers == s.producers[p := PIdle];
    } else {
      s' := s;
      RunsNot(s2, Broadcast(p), [Leave(p)] + []);
    }
  }

  function TakingOut<T>(c: Thread): seq<Action<T>> {
    [Look(c)] + ([Take(c)] + ([Quit(c)] + []))
  }

  /** A consumer that holds the mutex and looks takes the first item if and only if there is one. */
  lemma TakesOut<T>(s: State<T>, c: Thread) returns (s': State<T>)
    requires s.ring.Valid() && (Cons(s, c).CTest? || Cons(s, c).CLast?)
    ensures Run(s, TakingOut(c)) == if s.ring.Items() != [] then Some(s') else None
    ensures s.ring.Items() != [] ==>
              && s'.ring.Valid() && s'.ring.Items() == s.ring.Items()[1..]
              && s'.gone == s.gone + [Taken(s.ring.Items()[0])] && s'.pushed == s.pushed && s'.lock.None?
              && Cons(s', c).CIdle? && s'.producers == s.producers
  {
    var s1 := Step(s, Look(c)).value;
    hide Run;
    RunsOne(s, Look(c), [Take(c)] + ([Quit(c)] + []));
    if s.ring.Items() != [] {
      s.ring.PopTakesFirst();
      var s2 := Step(s1, Take(c)).value;
      s' := Step(s2, Quit(c)).value;
      RunsNone(s');
      RunsOne(s2, Quit(c), []);
      RunsOne(s1, Take(c), [Quit(c)] + []);
    } else {
      s' := s;
      RunsNot(s1, Take(c), [Quit(c)] + []);
    }
  }

  /** A pop begins with the mutex; so does one that was woken, but the timed one then looks for the
      last time. */
  lemma Begins<T>(s: State<T>, c: Thread, once: bool)
    requires s.ring.Valid() && s.lock.None?
    ensures Cons(s, c).CIdle? ==>
              Step(s, Begin(c, once)) == Some(s.(consumers := s.consumers[c := CTest(once)], lock := Some(ByConsumer(c))))
    ensures Cons(s, c) == CWoken(once) ==>
              Step(s, Relock(c)) == Some(s.(consumers := s.consumers[c := if once then CLast else CTest(false)],
                                             lock := Some(ByConsumer(c))))
  {
  }

  /** A look at an empty queue: the consumer goes to sleep without the mutex, or, the last time, gives up. */
  lemma FindsNothing<T>(s: State<T>, c: Thread)
    requires s.ring.Valid() && s.ring.Items() == []
    ensures Cons(s, c).CTest? ==>
              Step(s, Look(c)) == Some(s.(consumers := s.consumers[c := CAsleep(Cons(s, c).once)], lock := None))
    ensures Cons(s, c).CLast? ==> Step(s, Look(c)) == Some(s.(consumers := s.consumers[c := CFailed]))
  {
  }

  /** A wait can always end, for no reason or with an error; the mutex decides when, and a consumer that
      gives up lets go of it. */
  lemma WaitEnds<T>(s: State<T>, c: Thread)
    requires s.ring.Valid()
    ensures Cons(s, c).CAsleep? ==> Step(s, Wake(c)) == Some(s.(consumers := s.consumers[c := CWoken(Cons(s, c).once)]))
    ensures (Cons(s, c).CAsleep? || Cons(s, c).CWoken?) && s.lock.None? ==>
              Step(s, Fail(c)) == Some(s.(consumers := s.consumers[c := CFailed], lock := Some(ByConsumer(c))))
    ensures Cons(s, c).CFailed? ==> Step(s, Quit(c)) == Some(s.(consumers := s.consumers[c := CIdle], lock := None))
  {
  }

  /** A clear that finds the mutex free takes everything at once, and wakes nobody. */
  lemma Clears<T>(s: State<T>)
    requires s.ring.Valid()
    ensures Step(s, Clear).Some? <==> s.lock.None?
    ensures s.lock.None? ==>
              var s' := Step(s, Clear).value;
              && s'.ring.Valid() && s'.ring.Items() == [] && Items(s'.gone) == Items(s.gone) + s.ring.Items()
              && (forall i :: |s.gone| <= i < |s'.gone| ==> s'.gone[i].Cleared?)
              && s'.consumers == s.consumers && s'.pushed == s.pushed
  {
    s.ring.ClearEmpties();
  }
}
