/** The worker pool as a step system: any number of appending and working threads, a locked queue,
    a semaphore whose wait may return early, and the connection pool they share. */
module WorkerPool {
  import opened ConnectionPool
  import opened Wrappers

  type Thread = nat

  type Handler = nat

  /** A queued pointer may be null. */
  type Work = Option<Handler>

  /** Where a thread inside append stands. The three states in the middle hold the queue lock. */
  datatype Appender =
    | AIdle
    | ATest(r: Work)
    | APush(r: Work)
    | AReject(r: Work)
    | APushed
    | APost

  /** Where a thread inside run stands. */
  datatype Worker =
    | WWait
    | WReady
    | WTest
    | WEmpty
    | WPop
    | WPopped(r: Work)
    | WGet(h: Handler)
    | WStore(h: Handler, got: Option<Connection>)
    | WProcess(h: Handler)
    | WReleasing(con: Option<Connection>)

  datatype Owner = ByAppender(t: Thread) | ByWorker(t: Thread)

  /** called, accepted, rejected and taken are histories of requests; interrupts counts the waits that
      returned without a token, emptied the times a worker found the queue empty. The rest are the
      fields of the two pools, and every handler's mysql pointer. */
  datatype State = State(
    limit: nat, queue: seq<Work>, sem: nat, lock: Option<Owner>,
    apps: map<Thread, Appender>, works: map<Thread, Worker>,
    called: seq<Work>, accepted: seq<Work>, rejected: seq<Work>, taken: seq<Work>, interrupts: nat, emptied: nat,
    free: seq<Connection>, curConn: int, mysql: map<Handler, Option<Connection>>)

  predicate AHolds(pc: Appender) { pc.ATest? || pc.APush? || pc.AReject? || pc.APushed? }
  predicate WHolds(pc: Worker) { pc.WTest? || pc.WEmpty? || pc.WPop? || pc.WPopped? }

  /** Between push and post. */
  predicate Posting(pc: Appender) { pc.APushed? || pc.APost? }

  /** Between wait and pop. */
  predicate Ready(pc: Worker) { pc.WReady? || pc.WTest? || pc.WPop? }

  datatype Action =
    | Call(a: Thread, r: Work)
    | Test(a: Thread)
    | Push(a: Thread)
    | Refuse(a: Thread)
    | Leave(a: Thread)
    | Post(a: Thread)
    | Wait(w: Thread)
    | Interrupt(w: Thread)
    | Lock(w: Thread)
    | Look(w: Thread)
    | GiveUp(w: Thread)
    | Pop(w: Thread)
    | Unlock(w: Thread)
    | Get(w: Thread)
    | Store(w: Thread)
    | Null(h: Handler)
    | Finish(w: Thread)
    | Release(w: Thread)

  function App(s: State, a: Thread): Appender {
    if a in s.apps then s.apps[a] else AIdle
  }

  function Wrk(s: State, w: Thread): Worker {
    if w in s.works then s.works[w] else WWait
  }

  function Mysql(s: State, h: Handler): Option<Connection> {
    if h in s.mysql then s.mysql[h] else None
  }

  function SetApp(s: State, a: Thread, pc: Appender): State {
    s.(apps := s.apps[a := pc])
  }

  function SetWrk(s: State, w: Thread, pc: Worker): State {
    s.(works := s.works[w := pc])
  }

  /** What append does in one step, if the thread can take it. */
  function AppendStep(s: State, act: Action): Option<State>
    requires act.Call? || act.Test? || act.Push? || act.Refuse? || act.Leave? || act.Post?
  {
    var pc := App(s, act.a);
    match act
    case Call(a, r) =>
      if !pc.AIdle? || s.lock.Some? then None
      else Some(SetApp(s, a, ATest(r)).(lock := Some(ByAppender(a)), called := s.called + [r]))
    case Test(a) =>
      if !pc.ATest? then None
      else Some(SetApp(s, a, if |s.queue| > s.limit then AReject(pc.r) else APush(pc.r)))
    case Push(a) =>
      if !pc.APush? then None
      else Some(SetApp(s, a, APushed).(queue := s.queue + [pc.r], accepted := s.accepted + [pc.r]))
    case Refuse(a) => if pc.AReject? then Some(SetApp(s, a, AIdle).(lock := None, rejected := s.rejected + [pc.r])) else None
    case Leave(a) => if pc.APushed? then Some(SetApp(s, a, APost).(lock := None)) else None
    case Post(a) => if pc.APost? then Some(SetApp(s, a, AIdle).(sem := s.sem + 1)) else None
  }

  /** What run does with the queue in one step. Interrupt is a wait that returned without a token. */
  function QueueStep(s: State, act: Action): Option<State>
    requires act.Wait? || act.Interrupt? || act.Lock? || act.Look? || act.GiveUp? || act.Pop? || act.Unlock?
  {
    var pc := Wrk(s, act.w);
    match act
    case Wait(w) => if pc.WWait? && s.sem > 0 then Some(SetWrk(s, w, WReady).(sem := s.sem - 1)) else None
    case Interrupt(w) => if pc.WWait? then Some(SetWrk(s, w, WReady).(interrupts := s.interrupts + 1)) else None
    case Lock(w) => if pc.WReady? && s.lock.None? then Some(SetWrk(s, w, WTest).(lock := Some(ByWorker(w)))) else None
    case Look(w) =>
      if !pc.WTest? then None
      else if s.queue == [] then Some(SetWrk(s, w, WEmpty).(emptied := s.emptied + 1))
      else Some(SetWrk(s, w, WPop))
    case GiveUp(w) => if pc.WEmpty? then Some(SetWrk(s, w, WWait).(lock := None)) else None
    case Pop(w) =>
      if !pc.WPop? || s.queue == [] then None
      else Some(SetWrk(s, w, WPopped(s.queue[0])).(queue := s.queue[1..], taken := s.taken + [s.queue[0]]))
    case Unlock(w) =>
      if !pc.WPopped? then None
      else Some(SetWrk(s, w, if pc.r.None? then WWait else WGet(pc.r.value)).(lock := None))
  }

  /** What run does with the connection in one step; Null is an init_ of a handler, by anyone. */
  function ConnectionStep(s: State, act: Action): Option<State>
    requires act.Get? || act.Store? || act.Null? || act.Finish? || act.Release?
  {
    match act
    case Get(w) =>
      if !Wrk(s, w).WGet? then None
      else Some(SetWrk(s, w, WStore(Wrk(s, w).h, Took(s.free).0)).(free := Took(s.free).1, curConn := s.curConn + if s.free == [] then 0 else 1))
    case Store(w) =>
      if !Wrk(s, w).WStore? then None
      else Some(SetWrk(s, w, WProcess(Wrk(s, w).h)).(mysql := s.mysql[Wrk(s, w).h := Wrk(s, w).got]))
    case Null(h) => Some(s.(mysql := s.mysql[h := None]))
    case Finish(w) =>
      if !Wrk(s, w).WProcess? then None else Some(SetWrk(s, w, WReleasing(Mysql(s, Wrk(s, w).h))))
    case Release(w) =>
      if !Wrk(s, w).WReleasing? then None
      else Some(SetWrk(s, w, WWait).(free := Returned(s.free, Wrk(s, w).con),
                                       curConn := s.curConn - if Wrk(s, w).con.Some? then 1 else 0))
  }

  function Step(s: State, act: Action): Option<State> {
    match act
    case Call(_, _) => AppendStep(s, act)
    case Test(_) => AppendStep(s, act)
    case Push(_) => AppendStep(s, act)
    case Refuse(_) => AppendStep(s, act)
    case Leave(_) => AppendStep(s, act)
    case Post(_) => AppendStep(s, act)
    case Wait(_) => QueueStep(s, act)
    case Interrupt(_) => QueueStep(s, act)
    case Lock(_) => QueueStep(s, act)
    case Look(_) => QueueStep(s, act)
    case GiveUp(_) => QueueStep(s, act)
    case Pop(_) => QueueStep(s, act)
    case Unlock(_) => QueueStep(s, act)
    case _ => ConnectionStep(s, act)
  }

  function Initial(limit: nat, all: seq<Connection>): State {
    State(limit, [], 0, None, map[], map[], [], [], [], [], 0, 0, all, 0, map[])
  }

  /** The states of a run, one after each action; the run ends at the first action not enabled. */
  function Run(s: State, acts: seq<Action>): Option<State>
    decreases |acts|
  {
    if acts == [] then Some(s) else
      var s' := Step(s, acts[0]);
      if s'.None? then None else Run(s'.value, acts[1..])
  }

  // ---------------------------------------------------------------- counting threads

  ghost function Members<Pc(!new)>(m: map<Thread, Pc>, p: Pc -> bool): set<Thread> {
    set t | t in m && p(m[t])
  }

  ghost function Count<Pc(!new)>(m: map<Thread, Pc>, p: Pc -> bool): nat {
    |Members(m, p)|
  }

  lemma CountUpdate<Pc(!new)>(m: map<Thread, Pc>, t: Thread, pc: Pc, p: Pc -> bool)
    ensures Count(m[t := pc], p) == Count(m, p) + (if p(pc) then 1 else 0) - (if t in m && p(m[t]) then 1 else 0)
  {
    var others := Members(m, p) - {t};
    assert Members(m[t := pc], p) == if p(pc) then others + {t} else others;
    assert Members(m, p) == if t in m && p(m[t]) then others + {t} else others;
  }

  // ---------------------------------------------------------------- the queue

  /** The lock is held by exactly the thread that is inside a critical section. */
  ghost predicate LockHeld(s: State) {
    && (forall a :: a in s.apps ==> (AHolds(s.apps[a]) <==> s.lock == Some(ByAppender(a))))
    && (forall w :: w in s.works ==> (WHolds(s.works[w]) <==> s.lock == Some(ByWorker(w))))
    && (s.lock.Some? ==> match s.lock.value
                         case ByAppender(a) => a in s.apps
                         case ByWorker(w) => w in s.works)
  }

  /** What the tests inside the critical sections saw still holds. */
  ghost predicate TestsHold(s: State) {
    && (forall w :: w in s.works && s.works[w].WPop? ==> s.queue != [])
    && (forall w :: w in s.works && s.works[w].WEmpty? ==> s.queue == [])
    && (forall a :: a in s.apps && s.apps[a].APush? ==> |s.queue| <= s.limit)
  }

  /** Tokens on their way to the workers. */
  ghost function Tokens(s: State): nat {
    s.sem + Count(s.works, Ready) + Count(s.apps, Posting)
  }

  /** What every reachable state satisfies. */
  ghost predicate QueueInv(s: State) {
    && LockHeld(s) && TestsHold(s)
    && |s.queue| <= s.limit + 1
    && s.accepted == s.taken + s.queue
    && Tokens(s) + s.emptied == |s.queue| + s.interrupts
    && |s.queue| <= Tokens(s)
    && (forall w :: w in s.works && s.works[w].WEmpty? ==> s.emptied > 0)
  }

  lemma InitialInv(limit: nat, all: seq<Connection>)
    ensures QueueInv(Initial(limit, all))
  {
  }

  lemma AppendKeeps(s: State, act: Action)
    requires QueueInv(s)
    requires act.Call? || act.Test? || act.Push? || act.Refuse? || act.Leave? || act.Post?
    requires AppendStep(s, act).Some?
    ensures QueueInv(AppendStep(s, act).value)
  {
    hide Count;
    var s' := AppendStep(s, act).value;
    CountUpdate(s.apps, act.a, s'.apps[act.a], Posting);
  }

  lemma LookKeeps(s: State, act: Action)
    requires QueueInv(s) && (act.Look? || act.Pop?) && QueueStep(s, act).Some?
    ensures QueueInv(QueueStep(s, act).value)
  {
    hide Count;
    var s' := QueueStep(s, act).value;
    CountUpdate(s.works, act.w, s'.works[act.w], Ready);
  }

  lemma QueueKeeps(s: State, act: Action)
    requires QueueInv(s)
    requires act.Wait? || act.Interrupt? || act.Lock? || act.GiveUp? || act.Unlock?
    requires QueueStep(s, act).Some?
    ensures QueueInv(QueueStep(s, act).value)
  {
    hide Count;
    var s' := QueueStep(s, act).value;
    CountUpdate(s.works, act.w, s'.works[act.w], Ready);
  }

  lemma ConnectionKeeps(s: State, act: Action)
    requires QueueInv(s)
    requires act.Get? || act.Store? || act.Null? || act.Finish? || act.Release?
    requires ConnectionStep(s, act).Some?
    ensures QueueInv(ConnectionStep(s, act).value)
  {
    hide Count;
    if !act.Null? {
      CountUpdate(s.works, act.w, ConnectionStep(s, act).value.works[act.w], Ready);
    }
  }

  lemma StepKeeps(s: State, act: Action)
    requires QueueInv(s) && Step(s, act).Some?
    ensures QueueInv(Step(s, act).value)
  {
    hide QueueInv, AppendStep, QueueStep, ConnectionStep;
    match act {
      case Call(_, _) => AppendKeeps(s, act);
      case Test(_) => AppendKeeps(s, act);
      case Push(_) => AppendKeeps(s, act);
      case Refuse(_) => AppendKeeps(s, act);
      case Leave(_) => AppendKeeps(s, act);
      case Post(_) => AppendKeeps(s, act);
      case Wait(_) => QueueKeeps(s, act);
      case Interrupt(_) => QueueKeeps(s, act);
      case Lock(_) => QueueKeeps(s, act);
      case Look(_) => LookKeeps(s, act);
      case GiveUp(_) => QueueKeeps(s, act);
      case Pop(_) => LookKeeps(s, act);
      case Unlock(_) => QueueKeeps(s, act);
      case _ => ConnectionKeeps(s, act);
    }
  }

  lemma {:induction false} RunKeeps(s: State, acts: seq<Action>)
    requires QueueInv(s) && Run(s, acts).Some?
    ensures QueueInv(Run(s, acts).value)
    decreases |acts|
  {
    hide QueueInv, Step;
    if acts != [] {
      StepKeeps(s, acts[0]);
      RunKeeps(Step(s, acts[0]).value, acts[1..]);
    }
  }

  // ---------------------------------------------------------------- requests

  /** The appender has been handed r and has neither queued nor refused it. */
  predicate InHand(pc: Appender, r: Work) {
    (pc.ATest? || pc.APush? || pc.AReject?) && pc.r == r
  }

  /** The request of the appender that holds the lock, while it is in hand. */
  ghost function Pending(s: State): multiset<Work> {
    if s.lock.Some? && s.lock.value.ByAppender? then
      var pc := App(s, s.lock.value.t);
      if pc.ATest? || pc.APush? || pc.AReject? then multiset{pc.r} else multiset{}
    else multiset{}
  }

  /** Every request handed in was accepted or rejected, or is in hand. */
  ghost predicate Accounted(s: State) {
    multiset(s.called) == multiset(s.accepted) + multiset(s.rejected) + Pending(s)
  }

  lemma CallAccounts(s: State, a: Thread, r: Work)
    requires Accounted(s) && AppendStep(s, Call(a, r)).Some?
    ensures Accounted(AppendStep(s, Call(a, r)).value)
  {
    var s' := AppendStep(s, Call(a, r)).value;
    assert Pending(s) == multiset{} && Pending(s') == multiset{r};
  }

  lemma DecisionAccounts(s: State, act: Action)
    requires LockHeld(s) && Accounted(s) && (act.Push? || act.Refuse?) && AppendStep(s, act).Some?
    ensures Accounted(AppendStep(s, act).value)
  {
    var s' := AppendStep(s, act).value;
    assert s.lock == Some(ByAppender(act.a));
    assert Pending(s) == multiset{App(s, act.a).r} && Pending(s') == multiset{};
  }

  lemma AppendAccounts(s: State, act: Action)
    requires LockHeld(s) && Accounted(s)
    requires act.Test? || act.Leave?
    requires AppendStep(s, act).Some?
    ensures Accounted(AppendStep(s, act).value)
  {
    assert s.lock == Some(ByAppender(act.a));
    hide LockHeld;
    assert Pending(AppendStep(s, act).value) == Pending(s);
  }

  lemma PostAccounts(s: State, a: Thread)
    requires LockHeld(s) && Accounted(s) && AppendStep(s, Post(a)).Some?
    ensures Accounted(AppendStep(s, Post(a)).value)
  {
    assert s.lock != Some(ByAppender(a));
    hide LockHeld;
    assert Pending(AppendStep(s, Post(a)).value) == Pending(s);
  }

  /** Workers and their locking change nothing about requests that are not queued. */
  lemma WorkersAccount(s: State, s': State)
    requires Accounted(s) && s'.apps == s.apps
    requires s'.called == s.called && s'.accepted == s.accepted && s'.rejected == s.rejected
    requires s'.lock == s.lock || forall a :: s.lock != Some(ByAppender(a)) && s'.lock != Some(ByAppender(a))
    ensures Accounted(s')
  {
    assert Pending(s') == Pending(s);
  }

  lemma QueueAccounts(s: State, act: Action)
    requires LockHeld(s) && Accounted(s)
    requires act.Wait? || act.Interrupt? || act.Lock? || act.Look? || act.GiveUp? || act.Pop? || act.Unlock?
    requires QueueStep(s, act).Some?
    ensures Accounted(QueueStep(s, act).value)
  {
    assert act.w in s.works ==> (WHolds(s.works[act.w]) <==> s.lock == Some(ByWorker(act.w)));
    hide LockHeld, Accounted;
    WorkersAccount(s, QueueStep(s, act).value);
  }

  lemma ConnectionAccounts(s: State, act: Action)
    requires Accounted(s)
    requires act.Get? || act.Store? || act.Null? || act.Finish? || act.Release?
    requires ConnectionStep(s, act).Some?
    ensures Accounted(ConnectionStep(s, act).value)
  {
    hide Accounted;
    WorkersAccount(s, ConnectionStep(s, act).value);
  }

  lemma StepAccounts(s: State, act: Action)
    requires LockHeld(s) && Accounted(s) && Step(s, act).Some?
    ensures Accounted(Step(s, act).value)
  {
    hide LockHeld, Accounted, AppendStep, QueueStep, ConnectionStep;
    match act {
      case Call(a, r) => CallAccounts(s, a, r);
      case Test(_) => AppendAccounts(s, act);
      case Push(_) => DecisionAccounts(s, act);
      case Refuse(_) => DecisionAccounts(s, act);
      case Leave(_) => AppendAccounts(s, act);
      case Post(a) => PostAccounts(s, a);
      case Wait(_) => QueueAccounts(s, act);
      case Interrupt(_) => QueueAccounts(s, act);
      case Lock(_) => QueueAccounts(s, act);
      case Look(_) => QueueAccounts(s, act);
      case GiveUp(_) => QueueAccounts(s, act);
      case Pop(_) => QueueAccounts(s, act);
      case Unlock(_) => QueueAccounts(s, act);
      case _ => ConnectionAccounts(s, act);
    }
  }

  lemma {:induction false} RunAccounts(s: State, acts: seq<Action>)
    requires QueueInv(s) && Accounted(s) && Run(s, acts).Some?
    ensures Accounted(Run(s, acts).value)
    decreases |acts|
  {
    hide Accounted, Count, Tokens, TestsHold, LockHeld, Step;
    if acts != [] {
      StepKeeps(s, acts[0]);
      StepAccounts(s, acts[0]);
      RunAccounts(Step(s, acts[0]).value, acts[1..]);
    }
  }

  /** In every reachable state, however often waits return early: the tokens under way cover the
      queue, short of none; what early returns added and empty looks took away is all there is to
      the difference; requests leave in the order they were accepted, each once; every request ever
      handed in was taken or rejected, or is queued or in an appender's hands; and the queue holds
      at most one more than the limit. */
  lemma EveryRun(limit: nat, all: seq<Connection>, acts: seq<Action>)
    requires Run(Initial(limit, all), acts).Some?
    ensures var s := Run(Initial(limit, all), acts).value;
            && |s.queue| <= Tokens(s)
            && Tokens(s) + s.emptied == |s.queue| + s.interrupts
            && s.accepted == s.taken + s.queue
            && multiset(s.called) == multiset(s.taken) + multiset(s.queue) + multiset(s.rejected) + Pending(s)
            && |s.queue| <= s.limit + 1
            && (forall w :: w in s.works && s.works[w].WPop? ==> Step(s, Pop(w)).Some?)
  {
    hide Run, Pending, Tokens;
    InitialInv(limit, all);
    RunKeeps(Initial(limit, all), acts);
    assert Accounted(Initial(limit, all)) by { NoneInHand(limit, all); }
    RunAccounts(Initial(limit, all), acts);
  }

  lemma NoneInHand(limit: nat, all: seq<Connection>)
    ensures Pending(Initial(limit, all)) == multiset{}
  {
  }

  /** Without early returns the tokens are exactly the queue, and no worker ever finds it empty. */
  lemma WithoutInterrupts(limit: nat, all: seq<Connection>, acts: seq<Action>)
    requires Run(Initial(limit, all), acts).Some?
    requires Run(Initial(limit, all), acts).value.interrupts == 0
    ensures var s := Run(Initial(limit, all), acts).value;
            Tokens(s) == |s.queue| && s.emptied == 0 && forall w :: w in s.works ==> !s.works[w].WEmpty?
  {
    InitialInv(limit, all);
    RunKeeps(Initial(limit, all), acts);
  }

  /** No lost wake-up: when work is queued and no appender is about to post, it cannot be that every
      worker is asleep for good: unless one is already on its way to the queue, every waiting worker
      can take a token. */
  lemma NoLostWakeup(limit: nat, all: seq<Connection>, acts: seq<Action>, w: Thread)
    requires Run(Initial(limit, all), acts).Some?
    requires var s := Run(Initial(limit, all), acts).value;
             && s.queue != [] && Wrk(s, w).WWait?
             && (forall a :: a in s.apps ==> !Posting(s.apps[a])) && (forall v :: v in s.works ==> !Ready(s.works[v]))
    ensures var s := Run(Initial(limit, all), acts).value;
            Step(s, Wait(w)).Some? && s.sem >= |s.queue|
  {
    var s := Run(Initial(limit, all), acts).value;
    EveryRun(limit, all, acts);
    assert Members(s.apps, Posting) == {} && Members(s.works, Ready) == {};
  }

  // ---------------------------------------------------------------- connections

  /** The connection a worker may use or is about to give back. */
  function Owned(s: State, w: Thread): Option<Connection> {
    match Wrk(s, w)
    case WStore(_, got) => got
    case WProcess(h) => Mysql(s, h)
    case WReleasing(con) => con
    case _ => None
  }

  predicate Holds(pc: Worker, h: Handler) {
    (pc.WGet? || pc.WStore? || pc.WProcess?) && pc.h == h
  }

  /** No handler is with two workers: what EPOLLONESHOT is for. */
  ghost predicate Exclusive(s: State) {
    forall v, w, h :: v != w && Holds(Wrk(s, v), h) ==> !Holds(Wrk(s, w), h)
  }

  ghost predicate ConnInv(s: State, all: seq<Connection>) {
    && (forall i, j :: 0 <= i < j < |s.free| ==> s.free[i] != s.free[j])
    && (forall c :: c in s.free ==> c in all)
    && (forall w :: Owned(s, w).Some? ==> Owned(s, w).value !in s.free && Owned(s, w).value in all)
    && (forall v, w :: v != w && Owned(s, v).Some? ==> Owned(s, w) != Owned(s, v))
    && s.curConn == |all| - |s.free|
  }

  lemma GetKeeps(s: State, w: Thread, all: seq<Connection>)
    requires ConnInv(s, all) && Wrk(s, w).WGet?
    ensures ConnInv(ConnectionStep(s, Get(w)).value, all)
  {
    var s' := ConnectionStep(s, Get(w)).value;
    assert forall v :: Owned(s', v) == if v == w then Took(s.free).0 else Owned(s, v);
    assert forall c :: c in s'.free ==> c in s.free;
    assert s.free != [] ==> s.free[0] in s.free && s.free[0] !in s.free[1..];
  }

  lemma StoreKeeps(s: State, w: Thread, all: seq<Connection>)
    requires ConnInv(s, all) && Exclusive(s) && Wrk(s, w).WStore?
    ensures ConnInv(ConnectionStep(s, Store(w)).value, all)
  {
    hide ConnInv;
    var s', h := ConnectionStep(s, Store(w)).value, Wrk(s, w).h;
    assert Holds(Wrk(s, w), h);
    forall v
      ensures Owned(s', v) == Owned(s, v)
    {
      assert v != w ==> !Holds(Wrk(s, v), h);
    }
    SameOwners(s, s', all);
  }

  /** The invariant looks at the owners, the free list and the count only. */
  lemma SameOwners(s: State, s': State, all: seq<Connection>)
    requires ConnInv(s, all) && s'.free == s.free && s'.curConn == s.curConn
    requires forall v :: Owned(s', v) == Owned(s, v)
    ensures ConnInv(s', all)
  {
  }

  lemma NullKeeps(s: State, h: Handler, all: seq<Connection>)
    requires ConnInv(s, all)
    ensures ConnInv(ConnectionStep(s, Null(h)).value, all)
  {
    var s' := ConnectionStep(s, Null(h)).value;
    assert forall v :: Owned(s', v) == Owned(s, v) || Owned(s', v) == None;
  }

  lemma FinishKeeps(s: State, w: Thread, all: seq<Connection>)
    requires ConnInv(s, all) && Wrk(s, w).WProcess?
    ensures ConnInv(ConnectionStep(s, Finish(w)).value, all)
  {
    hide ConnInv;
    SameOwners(s, ConnectionStep(s, Finish(w)).value, all);
  }

  lemma ReleaseKeeps(s: State, w: Thread, all: seq<Connection>)
    requires ConnInv(s, all) && Wrk(s, w).WReleasing?
    ensures ConnInv(ConnectionStep(s, Release(w)).value, all)
  {
    var s', con := ConnectionStep(s, Release(w)).value, Wrk(s, w).con;
    assert Owned(s, w) == con;
    assert forall v :: Owned(s', v) == if v == w then None else Owned(s, v);
    assert forall c :: c in s'.free ==> c in s.free || con == Some(c);
    assert forall i :: 0 <= i < |s.free| ==> s.free[i] in s.free;
  }

  lemma ConnStepKeeps(s: State, act: Action, all: seq<Connection>)
    requires ConnInv(s, all) && Exclusive(s)
    requires act.Get? || act.Store? || act.Null? || act.Finish? || act.Release?
    requires ConnectionStep(s, act).Some?
    ensures ConnInv(ConnectionStep(s, act).value, all)
  {
    hide ConnInv, Exclusive;
    match act {
      case Get(w) => GetKeeps(s, w, all);
      case Store(w) => StoreKeeps(s, w, all);
      case Null(h) => NullKeeps(s, h, all);
      case Finish(w) => FinishKeeps(s, w, all);
      case Release(w) => ReleaseKeeps(s, w, all);
    }
  }

  lemma OtherStepKeeps(s: State, act: Action, all: seq<Connection>)
    requires ConnInv(s, all) && !(act.Get? || act.Store? || act.Null? || act.Finish? || act.Release?)
    requires Step(s, act).Some?
    ensures ConnInv(Step(s, act).value, all)
  {
    var s' := Step(s, act).value;
    assert forall w :: Owned(s', w) == Owned(s, w);
  }

  /** Exclusive in every state the run passes through. */
  ghost predicate AlwaysExclusive(s: State, acts: seq<Action>)
    decreases |acts|
  {
    Exclusive(s) && (acts == [] || (Step(s, acts[0]).Some? ==> AlwaysExclusive(Step(s, acts[0]).value, acts[1..])))
  }

  // ---------------------------------------------------------------- handlers

  /** Where a handler can be between its append and the end of its processing. */
  datatype Place = Queued(i: nat) | WithAppender(a: Thread) | WithWorker(w: Thread)

  ghost predicate At(s: State, p: Place, h: Handler) {
    match p
    case Queued(i) => i < |s.queue| && s.queue[i] == Some(h)
    case WithAppender(a) => InHand(App(s, a), Some(h))
    case WithWorker(w) => Wrk(s, w) == WPopped(Some(h)) || Holds(Wrk(s, w), h)
  }

  /** No handler is in two places. */
  ghost predicate Single(s: State) {
    forall p, q, h :: At(s, p, h) && At(s, q, h) ==> p == q
  }

  ghost predicate Absent(s: State, h: Handler) {
    forall p :: !At(s, p, h)
  }

  /** A handler is handed in only while it is nowhere in the pool: what the event loop would have
      to see to. */
  ghost predicate FreshCalls(s: State, acts: seq<Action>)
    decreases |acts|
  {
    acts == [] ||
    ((acts[0].Call? && acts[0].r.Some? ==> Absent(s, acts[0].r.value))
     && (Step(s, acts[0]).Some? ==> FreshCalls(Step(s, acts[0]).value, acts[1..])))
  }

  lemma SingleIsExclusive(s: State)
    requires Single(s)
    ensures Exclusive(s)
  {
    forall v, w, h | v != w && Holds(Wrk(s, v), h)
      ensures !Holds(Wrk(s, w), h)
    {
      assert At(s, WithWorker(v), h);
      assert At(s, WithWorker(w), h) ==> WithWorker(v) == WithWorker(w);
    }
  }

  /** A step that brings no handler anywhere new. */
  lemma FewerPlaces(s: State, s': State)
    requires Single(s) && forall p, h :: At(s', p, h) ==> At(s, p, h)
    ensures Single(s')
  {
    hide At;
  }

  lemma CallSingle(s: State, a: Thread, r: Work)
    requires Single(s) && AppendStep(s, Call(a, r)).Some? && (r.Some? ==> Absent(s, r.value))
    ensures Single(AppendStep(s, Call(a, r)).value)
  {
    var s' := AppendStep(s, Call(a, r)).value;
    forall p, q, h | At(s', p, h) && At(s', q, h)
      ensures p == q
    {
      assert p != WithAppender(a) ==> At(s, p, h);
      assert q != WithAppender(a) ==> At(s, q, h);
    }
  }

  lemma PushSingle(s: State, a: Thread)
    requires Single(s) && AppendStep(s, Push(a)).Some?
    ensures Single(AppendStep(s, Push(a)).value)
  {
    var s', last := AppendStep(s, Push(a)).value, Queued(|s.queue|);
    forall p, h | At(s', p, h)
      ensures p != WithAppender(a) && At(s, if p == last then WithAppender(a) else p, h)
    {
    }
    forall p, q, h | At(s', p, h) && At(s', q, h)
      ensures p == q
    {
      assert At(s, if p == last then WithAppender(a) else p, h);
      assert At(s, if q == last then WithAppender(a) else q, h);
    }
  }

  /** Where a handler was before w took the front of the queue. */
  function BeforePop(p: Place, w: Thread): Place {
    if p == WithWorker(w) then Queued(0) else if p.Queued? then Queued(p.i + 1) else p
  }

  lemma PopSingle(s: State, w: Thread)
    requires Single(s) && QueueStep(s, Pop(w)).Some?
    ensures Single(QueueStep(s, Pop(w)).value)
  {
    var s' := QueueStep(s, Pop(w)).value;
    forall p, h | At(s', p, h)
      ensures At(s, BeforePop(p, w), h)
    {
    }
    forall p, q, h | At(s', p, h) && At(s', q, h)
      ensures p == q
    {
      assert At(s, BeforePop(p, w), h) && At(s, BeforePop(q, w), h);
    }
  }

  lemma StepSingle(s: State, act: Action)
    requires Single(s) && Step(s, act).Some?
    requires act.Call? && act.r.Some? ==> Absent(s, act.r.value)
    ensures Single(Step(s, act).value)
  {
    hide Single, Absent;
    if act.Call? {
      CallSingle(s, act.a, act.r);
    } else if act.Push? {
      PushSingle(s, act.a);
    } else if act.Pop? {
      PopSingle(s, act.w);
    } else {
      StepMovesNone(s, act);
      FewerPlaces(s, Step(s, act).value);
    }
  }

  lemma StepMovesNone(s: State, act: Action)
    requires Step(s, act).Some? && !act.Call? && !act.Push? && !act.Pop?
    ensures forall p, h :: At(Step(s, act).value, p, h) ==> At(s, p, h)
  {
  }

  lemma {:induction false} FreshCallsExclude(s: State, acts: seq<Action>)
    requires Single(s) && FreshCalls(s, acts)
    ensures AlwaysExclusive(s, acts)
    decreases |acts|
  {
    hide Single, Exclusive, Absent, Step;
    SingleIsExclusive(s);
    if acts != [] && Step(s, acts[0]).Some? {
      StepSingle(s, acts[0]);
      FreshCallsExclude(Step(s, acts[0]).value, acts[1..]);
    }
  }

  /** If no handler is handed in while it is still queued or with a worker, no two workers ever
      hold the same one: the assumption of ConnectionsAreOwned, from the calls of append alone. */
  lemma FreshCallsSuffice(limit: nat, all: seq<Connection>, acts: seq<Action>)
    requires FreshCalls(Initial(limit, all), acts)
    ensures AlwaysExclusive(Initial(limit, all), acts)
  {
    assert Single(Initial(limit, all));
    hide FreshCalls, Single, AlwaysExclusive;
    FreshCallsExclude(Initial(limit, all), acts);
  }

  lemma {:induction false} ConnRunKeeps(s: State, acts: seq<Action>, all: seq<Connection>)
    requires ConnInv(s, all) && Run(s, acts).Some? && AlwaysExclusive(s, acts)
    ensures ConnInv(Run(s, acts).value, all)
    decreases |acts|
  {
    hide ConnInv, Exclusive, AppendStep, QueueStep, ConnectionStep;
    if acts != [] {
      var act := acts[0];
      if act.Get? || act.Store? || act.Null? || act.Finish? || act.Release? {
        ConnStepKeeps(s, act, all);
      } else {
        OtherStepKeeps(s, act, all);
      }
      ConnRunKeeps(Step(s, act).value, acts[1..], all);
    }
  }

  /** In every interleaving in which no handler is with two workers, and whoever clears handlers'
      pointers when: no connection is twice in the free list, none is both free and in use, none is
      used by two workers, and the count of used ones is the pool size less the free ones. */
  lemma ConnectionsAreOwned(limit: nat, all: seq<Connection>, acts: seq<Action>)
    requires forall i, j :: 0 <= i < j < |all| ==> all[i] != all[j]
    requires Run(Initial(limit, all), acts).Some? && AlwaysExclusive(Initial(limit, all), acts)
    ensures var s := Run(Initial(limit, all), acts).value;
            && (forall i, j :: 0 <= i < j < |s.free| ==> s.free[i] != s.free[j])
            && (forall w :: Owned(s, w).Some? ==> Owned(s, w).value !in s.free)
            && (forall v, w :: v != w && Owned(s, v).Some? ==> Owned(s, w) != Owned(s, v))
            && 0 <= s.curConn == |all| - |s.free|
  {
    ConnRunKeeps(Initial(limit, all), acts, all);
    DistinctFits(Run(Initial(limit, all), acts).value.free, all);
  }

  lemma {:induction false} DistinctFits(xs: seq<Connection>, ys: seq<Connection>)
    requires forall i, j :: 0 <= i < j < |xs| ==> xs[i] != xs[j]
    requires forall x :: x in xs ==> x in ys
    ensures |xs| <= |ys|
    decreases |xs|
  {
    if xs != [] {
      var x := xs[0];
      assert x in xs;
      var k :| 0 <= k < |ys| && ys[k] == x;
      var rest := ys[..k] + ys[k + 1..];
      forall y | y in xs[1..]
        ensures y in rest
      {
        assert y != x && y in ys;
      }
      DistinctFits(xs[1..], rest);
    }
  }

  // ---------------------------------------------------------------- threads that are not disturbed

  lemma {:induction false} RunJoins(s: State, xs: seq<Action>, ys: seq<Action>)
    ensures Run(s, xs + ys) == if Run(s, xs).None? then None else Run(Run(s, xs).value, ys)
    decreases |xs|
  {
    hide Step;
    if xs == [] {
      assert xs + ys == ys;
    } else {
      assert (xs + ys)[1..] == xs[1..] + ys;
      if Step(s, xs[0]).Some? {
        RunJoins(Step(s, xs[0]).value, xs[1..], ys);
      }
    }
  }

  lemma RunsOne(s: State, act: Action, rest: seq<Action>)
    requires Step(s, act).Some?
    ensures Run(s, [act] + rest) == Run(Step(s, act).value, rest)
  {
    hide Step;
    assert ([act] + rest)[1..] == rest;
  }

  function Appending(a: Thread, r: Work): seq<Action> {
    [Call(a, r)] + ([Test(a)] + ([Push(a)] + ([Leave(a)] + ([Post(a)] + []))))
  }

  function Refusing(a: Thread, r: Work): seq<Action> {
    [Call(a, r)] + ([Test(a)] + ([Refuse(a)] + []))
  }

  /** An append that finds no more than the limit queued appends, and returns a token; with more queued
      it cannot get there. */
  lemma Appends(s: State, a: Thread, r: Work) returns (s': State)
    requires App(s, a).AIdle? && s.lock.None?
    ensures Run(s, Appending(a, r)) == if |s.queue| <= s.limit then Some(s') else None
    ensures s' == s.(apps := s.apps[a := AIdle], queue := s.queue + [r], sem := s.sem + 1,
                     called := s.called + [r], accepted := s.accepted + [r])
  {
    hide Run;
    var s1 := Step(s, Call(a, r)).value;
    var s2 := Step(s1, Test(a)).value;
    RunsOne(s1, Test(a), [Push(a)] + ([Leave(a)] + ([Post(a)] + [])));
    RunsOne(s, Call(a, r), [Test(a)] + ([Push(a)] + ([Leave(a)] + ([Post(a)] + []))));
    s' := s.(apps := s.apps[a := AIdle], queue := s.queue + [r], sem := s.sem + 1,
             called := s.called + [r], accepted := s.accepted + [r]);
    if |s.queue| <= s.limit {
      Posts(s2, a, r, s');
    } else {
      RunsNot(s2, Push(a), [Leave(a)] + ([Post(a)] + []));
    }
  }

  /** From the push on. */
  lemma Posts(s: State, a: Thread, r: Work, s': State)
    requires App(s, a) == APush(r)
    requires s' == s.(apps := s.apps[a := AIdle], queue := s.queue + [r], sem := s.sem + 1, lock := None,
                      accepted := s.accepted + [r])
    ensures Run(s, [Push(a)] + ([Leave(a)] + ([Post(a)] + []))) == Some(s')
  {
    hide Run;
    var s3 := Step(s, Push(a)).value;
    var s4 := Step(s3, Leave(a)).value;
    RunsNone(s');
    assert Step(s4, Post(a)) == Some(s') by { assert s'.apps == s.apps[a := APushed][a := APost][a := AIdle]; }
    RunsOne(s4, Post(a), []);
    RunsOne(s3, Leave(a), [Post(a)] + []);
    RunsOne(s, Push(a), [Leave(a)] + ([Post(a)] + []));
  }

  /** An append that finds more than the limit queued rejects and leaves the queue alone. */
  lemma Refuses(s: State, a: Thread, r: Work) returns (s': State)
    requires App(s, a).AIdle? && s.lock.None?
    ensures Run(s, Refusing(a, r)) == if |s.queue| > s.limit then Some(s') else None
    ensures s' == s.(apps := s.apps[a := AIdle], called := s.called + [r], rejected := s.rejected + [r])
  {
    hide Run;
    var s1 := Step(s, Call(a, r)).value;
    var s2 := Step(s1, Test(a)).value;
    RunsOne(s1, Test(a), [Refuse(a)] + []);
    RunsOne(s, Call(a, r), [Test(a)] + ([Refuse(a)] + []));
    s' := s.(apps := s.apps[a := AIdle], called := s.called + [r], rejected := s.rejected + [r]);
    if |s.queue| > s.limit {
      assert Step(s2, Refuse(a)) == Some(s') by { assert s'.apps == s.apps[a := ATest(r)][a := AReject(r)][a := AIdle]; }
      RunsNone(s');
      RunsOne(s2, Refuse(a), []);
    } else {
      RunsNot(s2, Refuse(a), []);
    }
  }

  lemma RunsNot(s: State, act: Action, rest: seq<Action>)
    requires Step(s, act).None?
    ensures Run(s, [act] + rest) == None
  {
  }

  lemma RunsNone(s: State)
    ensures Run(s, []) == Some(s)
  {
  }

  function TakingToken(w: Thread): seq<Action> {
    [Wait(w)] + ([Lock(w)] + [])
  }

  function TakingFront(w: Thread): seq<Action> {
    [Look(w)] + ([Pop(w)] + ([Unlock(w)] + []))
  }

  function TakingConnection(w: Thread): seq<Action> {
    [Get(w)] + ([Store(w)] + [])
  }

  /** A worker gets in only with a token, however the wait ends otherwise. */
  lemma TakesToken(s: State, w: Thread) returns (s': State)
    requires Wrk(s, w).WWait? && s.lock.None?
    ensures Run(s, TakingToken(w)) == if s.sem > 0 then Some(s') else None
    ensures s.sem > 0 ==> s' == s.(works := s.works[w := WTest], sem := s.sem - 1, lock := Some(ByWorker(w)))
  {
    hide Run;
    if s.sem > 0 {
      var s1 := Step(s, Wait(w)).value;
      s' := Step(s1, Lock(w)).value;
      RunsNone(s');
      RunsOne(s1, Lock(w), []);
      RunsOne(s, Wait(w), [Lock(w)] + []);
      assert s'.works == s.works[w := WTest];
    } else {
      s' := s;
      RunsNot(s, Wait(w), [Lock(w)] + []);
    }
  }

  function ReturningEarly(w: Thread): seq<Action> {
    [Interrupt(w)] + ([Lock(w)] + [])
  }

  /** An early return brings it there without one. */
  lemma ReturnsEarly(s: State, w: Thread) returns (s': State)
    requires Wrk(s, w).WWait? && s.lock.None?
    ensures Run(s, ReturningEarly(w)) == Some(s')
    ensures s' == s.(works := s.works[w := WTest], interrupts := s.interrupts + 1, lock := Some(ByWorker(w)))
  {
    hide Run;
    var s1 := Step(s, Interrupt(w)).value;
    s' := Step(s1, Lock(w)).value;
    RunsNone(s');
    RunsOne(s1, Lock(w), []);
    RunsOne(s, Interrupt(w), [Lock(w)] + []);
    assert s'.works == s.works[w := WTest];
  }

  /** What a worker does next with a request: a null one is dropped. */
  function NextWith(r: Work): Worker {
    if r.None? then WWait else WGet(r.value)
  }

  /** Inside, it takes the front of the queue if there is one. */
  lemma TakesFront(s: State, w: Thread) returns (s': State)
    requires Wrk(s, w).WTest?
    ensures Run(s, TakingFront(w)) == if s.queue != [] then Some(s') else None
    ensures s.queue != [] ==>
              s' == s.(works := s.works[w := NextWith(s.queue[0])], queue := s.queue[1..], lock := None,
                       taken := s.taken + [s.queue[0]])
  {
    hide Run;
    var s1 := Step(s, Look(w)).value;
    RunsOne(s, Look(w), [Pop(w)] + ([Unlock(w)] + []));
    if s.queue != [] {
      var s2 := Step(s1, Pop(w)).value;
      s' := Step(s2, Unlock(w)).value;
      RunsNone(s');
      RunsOne(s2, Unlock(w), []);
      RunsOne(s1, Pop(w), [Unlock(w)] + []);
      assert s'.works == s.works[w := NextWith(s.queue[0])];
    } else {
      s' := s;
      RunsNot(s1, Pop(w), [Unlock(w)] + []);
    }
  }

  function GivingUp(w: Thread): seq<Action> {
    [Look(w)] + ([GiveUp(w)] + [])
  }

  /** And goes back to waiting if there is none. */
  lemma GivesUp(s: State, w: Thread) returns (s': State)
    requires Wrk(s, w).WTest?
    ensures Run(s, GivingUp(w)) == if s.queue == [] then Some(s') else None
    ensures s.queue == [] ==> s' == s.(works := s.works[w := WWait], lock := None, emptied := s.emptied + 1)
  {
    hide Run;
    var s1 := Step(s, Look(w)).value;
    RunsOne(s, Look(w), [GiveUp(w)] + []);
    if s.queue == [] {
      s' := Step(s1, GiveUp(w)).value;
      RunsNone(s');
      RunsOne(s1, GiveUp(w), []);
      assert s'.works == s.works[w := WWait];
    } else {
      s' := s;
      RunsNot(s1, GiveUp(w), []);
    }
  }

  /** The handler gets the first free connection, or none, and what it had is overwritten. */
  lemma TakesConnection(s: State, w: Thread, h: Handler) returns (s': State)
    requires Wrk(s, w) == WGet(h)
    ensures Run(s, TakingConnection(w)) == Some(s')
    ensures s' == if s.free == [] then s.(works := s.works[w := WProcess(h)], mysql := s.mysql[h := None])
                  else s.(works := s.works[w := WProcess(h)], free := s.free[1..], curConn := s.curConn + 1,
                          mysql := s.mysql[h := Some(s.free[0])])
  {
    hide Run;
    var s1 := Step(s, Get(w)).value;
    s' := Step(s1, Store(w)).value;
    RunsNone(s');
    RunsOne(s1, Store(w), []);
    RunsOne(s, Get(w), [Store(w)] + []);
    assert s'.works == s.works[w := WProcess(h)];
  }

  function Taking(w: Thread): seq<Action> {
    TakingToken(w) + (TakingFront(w) + TakingConnection(w))
  }

  /** The state after a waiting worker has taken h and its connection. */
  lemma Takes(s: State, w: Thread, h: Handler) returns (s': State)
    requires Wrk(s, w).WWait? && s.sem > 0 && s.lock.None? && s.queue != [] && s.queue[0] == Some(h) && s.free != []
    ensures Run(s, Taking(w)) == Some(s')
    ensures s' == s.(works := s.works[w := WProcess(h)], queue := s.queue[1..], sem := s.sem - 1,
                     taken := s.taken + [Some(h)], free := s.free[1..], curConn := s.curConn + 1,
                     mysql := s.mysql[h := Some(s.free[0])])
  {
    hide Run, TakingToken, TakingFront, TakingConnection;
    var s1 := TakesToken(s, w);
    var s2 := TakesFront(s1, w);
    s' := TakesConnection(s2, w, h);
    RunJoins(s1, TakingFront(w), TakingConnection(w));
    RunJoins(s, TakingToken(w), TakingFront(w) + TakingConnection(w));
    assert s'.works == s.works[w := WProcess(h)];
  }

  function GivingBack(w: Thread): seq<Action> {
    [Finish(w)] + ([Release(w)] + [])
  }

  /** A worker gives back what the handler has when it is done: the connection, or nothing. */
  lemma GivesBack(s: State, w: Thread, h: Handler) returns (s': State)
    requires Wrk(s, w) == WProcess(h)
    ensures Run(s, GivingBack(w)) == Some(s')
    ensures s' == match Mysql(s, h)
                  case Some(c) => s.(works := s.works[w := WWait], free := s.free + [c], curConn := s.curConn - 1)
                  case None => s.(works := s.works[w := WWait])
  {
    hide Run;
    var s1 := Step(s, Finish(w)).value;
    s' := Step(s1, Release(w)).value;
    RunsNone(s');
    RunsOne(s1, Release(w), []);
    RunsOne(s, Finish(w), [Release(w)] + []);
    assert s'.works == s.works[w := WWait];
  }

  /** When the handler is reset before that, as after an answer on a kept connection, nothing comes back:
      the free list and the count of used connections stay as they were. */
  lemma ResetLosesConnection(s: State, w: Thread, h: Handler)
    requires Wrk(s, w) == WProcess(h)
    ensures Run(s, [Null(h)] + GivingBack(w)) ==
            Some(s.(works := s.works[w := WWait], mysql := s.mysql[h := None]))
  {
    hide Run, GivingBack;
    RunsOne(s, Null(h), GivingBack(w));
    var s' := GivesBack(Step(s, Null(h)).value, w, h);
  }

  /** The run of one request on a kept connection: the pool ends one connection short for good, and
      counts it as used. */
  lemma KeptRequestLoses(limit: nat, all: seq<Connection>, h: Handler)
    requires |all| >= 1
    ensures var end := Run(Initial(limit, all), Appending(0, Some(h)) + (Taking(0) + ([Null(h)] + GivingBack(0))));
            end.Some? && end.value.free == all[1..] && end.value.curConn == 1 && Wrk(end.value, 0).WWait?
  {
    hide Run, Step, Appending, Taking, GivingBack;
    var s := Initial(limit, all);
    var s1 := Appends(s, 0, Some(h));
    var s2 := Takes(s1, 0, h);
    ResetLosesConnection(s2, 0, h);
    RunJoins(s1, Taking(0), [Null(h)] + GivingBack(0));
    RunJoins(s, Appending(0, Some(h)), Taking(0) + ([Null(h)] + GivingBack(0)));
  }

  /** And of one whose connection is closed: everything is back. */
  lemma ClosedRequestReturns(limit: nat, all: seq<Connection>, h: Handler)
    requires |all| >= 1
    ensures var end := Run(Initial(limit, all), Appending(0, Some(h)) + (Taking(0) + GivingBack(0)));
            end.Some? && end.value.free == all[1..] + [all[0]] && end.value.curConn == 0 && Wrk(end.value, 0).WWait?
  {
    hide Run, Step, Appending, Taking, GivingBack;
    var s := Initial(limit, all);
    var s1 := Appends(s, 0, Some(h));
    var s2 := Takes(s1, 0, h);
    var s3 := GivesBack(s2, 0, h);
    RunJoins(s1, Taking(0), GivingBack(0));
    RunJoins(s, Appending(0, Some(h)), Taking(0) + GivingBack(0));
  }

  // ---------------------------------------------------------------- a run that breaks the pool

  /** A handler that is appended again while a worker has it: two workers on one handler. */
  function SharedRun(h: Handler): seq<Action> {
    Appending(0, Some(h)) + (Taking(0) + (Appending(0, Some(h)) + (Taking(1) + (GivingBack(0) + GivingBack(1)))))
  }

  /** The assumption is needed. From the initial state of every pool of two connections or more,
      a handler appended again while a worker processes it makes the two workers give the second
      connection back twice, and nobody the first: the free list holds it twice over, although the
      count of used connections is 0 again. */
  lemma SharedHandlerBreaks(limit: nat, all: seq<Connection>, h: Handler)
    requires |all| >= 2
    ensures var end := Run(Initial(limit, all), SharedRun(h));
            end.Some? && end.value.free == all[2..] + [all[1], all[1]] && end.value.curConn == 0
  {
    hide Run, Step, Appending, Taking, GivingBack;
    var s := Initial(limit, all);
    var s1 := Appends(s, 0, Some(h));
    var s2 := Takes(s1, 0, h);
    var s3 := Appends(s2, 0, Some(h));
    var s4 := Takes(s3, 1, h);
    assert s4.free == all[2..];
    var s5 := GivesBack(s4, 0, h);
    var s6 := GivesBack(s5, 1, h);
    assert s6.free == all[2..] + [all[1], all[1]];
    RunJoins(s4, GivingBack(0), GivingBack(1));
    RunJoins(s3, Taking(1), GivingBack(0) + GivingBack(1));
    RunJoins(s2, Appending(0, Some(h)), Taking(1) + (GivingBack(0) + GivingBack(1)));
    RunJoins(s1, Taking(0), Appending(0, Some(h)) + (Taking(1) + (GivingBack(0) + GivingBack(1))));
    RunJoins(s, Appending(0, Some(h)), Taking(0) + (Appending(0, Some(h)) + (Taking(1) + (GivingBack(0) + GivingBack(1)))));
  }
}
