/** The sorted timer list: a doubly linked list with head and tail. */
module TimerList {
  import opened TimerOrder

  class Timer {
    /** The connection the callback closes. */
    const data: int
    var expire: int
    var prev: Timer?
    var next: Timer?

    constructor (data: int, expire: int)
      ensures this.data == data && this.expire == expire && prev == null && next == null
    {
      this.data := data;
      this.expire := expire;
      prev, next := null, null;
    }
  }

  class SortedTimerList {
    var head: Timer?
    var tail: Timer?
    /** The timers in list order. */
    ghost var nodes: seq<Timer>

    /** prev and next are each other's inverse along the list, the head comes first and the tail
        last. The tail of an empty list says nothing: timeout leaves a stale one behind. */
    ghost predicate Linked()
      reads this, nodes
    {
      && (forall i, j :: 0 <= i < j < |nodes| ==> nodes[i] != nodes[j])
      && (if nodes == [] then head == null else
            && head == nodes[0] && nodes[0].prev == null
            && tail == nodes[|nodes| - 1] && nodes[|nodes| - 1].next == null)
      && (forall i :: 0 <= i < |nodes| - 1 ==> nodes[i].next == nodes[i + 1])
      && (forall i :: 1 <= i < |nodes| ==> nodes[i].prev == nodes[i - 1])
    }

    ghost function Entries(): (es: seq<Entry<Timer>>)
      reads this, nodes
      ensures |es| == |nodes|
      ensures forall i :: 0 <= i < |es| ==> es[i] == Entry(nodes[i], nodes[i].expire)
    {
      seq(|nodes|, i requires 0 <= i < |nodes| reads this, nodes => Entry(nodes[i], nodes[i].expire))
    }

    lemma EntriesAre(es: seq<Entry<Timer>>)
      requires |es| == |nodes| && forall i :: 0 <= i < |es| ==> es[i] == Entry(nodes[i], nodes[i].expire)
      ensures Entries() == es
    {
    }

    constructor ()
      ensures Linked() && Entries() == []
    {
      head, tail := null, null;
      nodes := [];
    }

    /** _add_timer(timer, list_head), where list_head is the node at position k: searches for the
        place from there on. */
    method AddBehind(timer: Timer, listHead: Timer, ghost k: nat)
      requires Linked() && timer !in nodes && k < |nodes| && listHead == nodes[k]
      modifies this, timer`prev, timer`next, nodes`prev, nodes`next
      ensures Linked()
      ensures Entries() == InsertBehind(old(Entries()), k, Entry(timer, timer.expire))
    {
      hide Position;
      ghost var es := Entries();
      ghost var p := Position(es, k + 1, timer.expire);
      var prev := listHead;
      var tmp := prev.next;
      ghost var i := k;
      while tmp != null && !(timer.expire < tmp.expire)
        invariant k <= i < |nodes| && i < p && prev == nodes[i]
        invariant tmp == if i + 1 < |nodes| then nodes[i + 1] else null
        decreases |nodes| - i
      {
        assert es[i + 1].expire == tmp.expire;
        prev := tmp;
        tmp := tmp.next;
        i := i + 1;
      }
      assert p == i + 1;
      ghost var e := Entry(timer, timer.expire);
      Splice(timer, prev, tmp, p);
      EntriesAre(InsertAt(es, p, e));
    }

    /** The two endings of _add_timer: between prev and tmp, or behind the last. */
    method Splice(timer: Timer, prev: Timer, tmp: Timer?, ghost p: nat)
      requires Linked() && timer !in nodes && 0 < p <= |nodes|
      requires prev == nodes[p - 1] && tmp == (if p < |nodes| then nodes[p] else null)
      modifies this, timer`prev, timer`next, nodes`prev, nodes`next
      ensures Linked()
      ensures nodes == old(nodes)[..p] + [timer] + old(nodes)[p..]
    {
      if tmp != null {
        prev.next := timer;
        timer.next := tmp;
        tmp.prev := timer;
        timer.prev := prev;
      } else {
        prev.next := timer;
        timer.prev := prev;
        timer.next := null;
        tail := timer;
      }
      nodes := nodes[..p] + [timer] + nodes[p..];
    }

    /** add_timer */
    method AddTimer(timer: Timer?)
      requires Linked() && (timer != null ==> timer !in nodes && timer.prev == null && timer.next == null)
      modifies this, timer, nodes`prev, nodes`next
      ensures timer != null ==> timer.expire == old(timer.expire)
      ensures Linked()
      ensures Entries() == if timer == null then old(Entries()) else Add(old(Entries()), Entry(timer, timer.expire))
    {
      if timer == null {
        return;
      }
      ghost var es, e := Entries(), Entry(timer, timer.expire);
      if head == null {
        head, tail := timer, timer;
        nodes := [timer];
        EntriesAre([e]);
        return;
      }
      if timer.expire < head.expire {
        Prepend(timer);
        EntriesAre([e] + es);
        return;
      }
      AddBehind(timer, head, 0);
    }

    method Prepend(timer: Timer)
      requires Linked() && nodes != [] && timer !in nodes && timer.prev == null && timer.next == null
      modifies this, timer`next, nodes`prev
      ensures Linked() && nodes == [timer] + old(nodes)
    {
      timer.next := head;
      head.prev := timer;
      head := timer;
      nodes := [timer] + nodes;
    }

    /** The head leaves a list of two or more. */
    method DropHead()
      requires Linked() && |nodes| >= 2
      modifies this, nodes`prev
      ensures Linked() && nodes == old(nodes)[1..] && old(nodes)[0] !in nodes
    {
      assert head.next == nodes[1];
      head := head.next;
      head.prev := null;
      nodes := nodes[1..];
    }

    /** The tail leaves a list of two or more. */
    method DropTail()
      requires Linked() && |nodes| >= 2
      modifies this, nodes`next
      ensures Linked() && nodes == old(nodes)[..|old(nodes)| - 1]
    {
      assert tail.prev == nodes[|nodes| - 2];
      tail := tail.prev;
      tail.next := null;
      nodes := nodes[..|nodes| - 1];
    }

    /** A node between two others leaves the list; its own links stay. */
    method DropMiddle(timer: Timer, ghost k: nat)
      requires Linked() && 0 < k < |nodes| - 1 && nodes[k] == timer
      modifies this, nodes`prev, nodes`next
      ensures Linked() && nodes == old(nodes)[..k] + old(nodes)[k + 1..]
      ensures timer.next == old(nodes)[k + 1] && timer !in nodes
    {
      assert timer.prev == nodes[k - 1] && timer.next == nodes[k + 1];
      timer.prev.next := timer.next;
      timer.next.prev := timer.prev;
      nodes := nodes[..k] + nodes[k + 1..];
    }

    /** adjust_timer on the timer at position k. */
    method AdjustTimer(timer: Timer?, ghost k: nat)
      requires Linked() && (timer != null ==> k < |nodes| && nodes[k] == timer)
      modifies this, nodes`prev, nodes`next
      ensures Linked()
      ensures Entries() == if timer == null then old(Entries()) else Adjust(old(Entries()), k)
    {
      if timer == null {
        return;
      }
      ghost var es := Entries();
      var tmp := timer.next;
      if tmp == null || timer.expire < tmp.expire {
        return;
      }
      Reinsert(timer, k);
    }

    /** timer->next = NULL, for a timer that is no longer in the list. */
    method Detach(timer: Timer)
      requires Linked() && timer !in nodes
      modifies timer`next
      ensures Linked()
    {
      timer.next := null;
    }

    /** The timer is taken out; its successor, now at its position, is returned. */
    method TakeOut(timer: Timer, ghost k: nat) returns (successor: Timer)
      requires Linked() && k < |nodes| - 1 && nodes[k] == timer
      modifies this, nodes`prev, nodes`next
      ensures Linked() && nodes == old(nodes)[..k] + old(nodes)[k + 1..]
      ensures timer !in nodes && successor == nodes[k]
    {
      if timer == head {
        DropHead();
        assert timer == old(nodes)[0];
        Detach(timer);
        successor := head;
      } else {
        DropMiddle(timer, k);
        successor := timer.next;
      }
    }

    /** The rest of adjust_timer: the timer is taken out and looked for a place behind its successor. */
    method Reinsert(timer: Timer, ghost k: nat)
      requires Linked() && k < |nodes| - 1 && nodes[k] == timer
      modifies this, nodes`prev, nodes`next
      ensures Linked()
      ensures Entries() == InsertBehind(RemoveAt(old(Entries()), k), k, old(Entries())[k])
    {
      hide Position;
      ghost var es := Entries();
      var successor := TakeOut(timer, k);
      EntriesAre(RemoveAt(es, k));
      AddBehind(timer, successor, k);
    }

    /** del_timer on the timer at position k. */
    method DelTimer(timer: Timer?, ghost k: nat)
      requires Linked() && (timer != null ==> k < |nodes| && nodes[k] == timer)
      modifies this, nodes`prev, nodes`next
      ensures Linked()
      ensures Entries() == if timer == null then old(Entries()) else RemoveAt(old(Entries()), k)
    {
      if timer == null {
        return;
      }
      ghost var es := Entries();
      Unlink(timer, k);
      EntriesAre(RemoveAt(es, k));
    }

    /** The four cases of del_timer. */
    method Unlink(timer: Timer, ghost k: nat)
      requires Linked() && k < |nodes| && nodes[k] == timer
      modifies this, nodes`prev, nodes`next
      ensures Linked() && nodes == old(nodes)[..k] + old(nodes)[k + 1..]
    {
      if timer == head && timer == tail {
        head, tail := null, null;
        nodes := [];
      } else if timer == head {
        DropHead();
      } else if timer == tail {
        DropTail();
      } else {
        DropMiddle(timer, k);
      }
    }

    lemma HeadIsFirst()
      requires Linked()
      ensures head == if nodes == [] then null else nodes[0]
    {
    }

    /** timeout: `fired` are the timers whose callbacks ran, in order. */
    method Timeout(now: int) returns (fired: seq<Timer>)
      requires Linked()
      modifies this, nodes`prev
      ensures Linked()
      ensures Entries() == old(Entries())[DuePrefix(old(Entries()), now)..]
      ensures fired == old(nodes)[..DuePrefix(old(Entries()), now)]
    {
      hide DuePrefix, Linked;
      fired := [];
      HeadIsFirst();
      if head == null {
        assert DuePrefix(Entries(), now) == 0;
        return;
      }
      ghost var es, all, i := Entries(), nodes, 0;
      ghost var n := DuePrefix(es, now);
      var tmp := head;
      while tmp != null
        invariant 0 <= i <= n && nodes == all[i..] && fired == all[..i]
        invariant Linked() && tmp == head == (if nodes == [] then null else nodes[0])
        decreases |all| - i
      {
        assert tmp == all[i] && tmp.expire == es[i].expire;
        if now < tmp.expire {
          break;
        }
        fired := fired + [tmp];
        assert all[i..][1..] == all[i + 1..] && all[..i] + [all[i]] == all[..i + 1];
        PopHead();
        tmp := head;
        i := i + 1;
      }
      EntriesAre(es[i..]);
    }

    /** head = head->next in timeout: tail is not looked at. */
    method PopHead()
      requires Linked() && nodes != []
      modifies this, nodes`prev
      ensures Linked() && nodes == old(nodes)[1..] && head == if nodes == [] then null else nodes[0]
    {
      assert head.next == if |nodes| > 1 then nodes[1] else null;
      head := head.next;
      if head != null {
        head.prev := null;
      }
      nodes := nodes[1..];
    }
  }

  // ---------------------------------------------------------------- the event loop

  /** Data arrived: the timer of the connection gets a new expiry, then its place. */
  method Touch(list: SortedTimerList, timer: Timer, now: int, ghost k: nat)
    requires list.Linked() && k < |list.nodes| && list.nodes[k] == timer
    modifies list, list.nodes`prev, list.nodes`next, timer`expire
    ensures list.Linked()
    ensures list.Entries() == Adjust(old(list.Entries())[k := Entry(timer, now + LIFETIME)], k)
  {
    hide Adjust;
    ghost var es := list.Entries();
    timer.expire := now + LIFETIME;
    assert list.Linked();
    list.EntriesAre(es[k := Entry(timer, now + LIFETIME)]);
    list.AdjustTimer(timer, k);
  }

  /** A connection was made: its timer is set up and added. */
  method Arrive(list: SortedTimerList, timer: Timer, now: int)
    requires list.Linked() && timer !in list.nodes && timer.prev == null && timer.next == null
    modifies list, timer, list.nodes`prev, list.nodes`next
    ensures list.Linked()
    ensures list.Entries() == Add(old(list.Entries()), Entry(timer, now + LIFETIME))
  {
    ghost var es := list.Entries();
    timer.expire := now + LIFETIME;
    assert list.Linked();
    list.EntriesAre(es);
    list.AddTimer(timer);
  }

  /** The timers of the list and of the connections to come, each of which has a timer of its own. */
  predicate Prepared(nodes: seq<Timer>, events: seq<Event<Timer>>, all: set<Timer>) {
    && (forall t :: t in nodes ==> t in all)
    && (forall i :: 0 <= i < |events| && events[i].Arrive? ==> events[i].timer in all && events[i].timer !in nodes)
    && (forall i, j :: 0 <= i < j < |events| && events[i].Arrive? && events[j].Arrive? ==> events[i].timer != events[j].timer)
  }

  /** The timers to come are not linked. */
  ghost predicate Apart(events: seq<Event<Timer>>, all: set<Timer>)
    reads all
  {
    forall i :: 0 <= i < |events| && events[i].Arrive? ==>
      events[i].timer in all && events[i].timer.prev == null && events[i].timer.next == null
  }

  lemma AddHas(es: seq<Entry<Timer>>, e: Entry<Timer>)
    ensures forall x :: x in Add(es, e) ==> x in es || x == e
  {
    hide Position;
  }

  lemma AdjustHas(es: seq<Entry<Timer>>, k: nat)
    requires k < |es|
    ensures forall x :: x in Adjust(es, k) ==> x in es
  {
    hide Position;
  }

  function Subjects(ev: Event<Timer>): set<Timer> {
    if ev.Alarm? then {} else {ev.timer}
  }

  /** One event of the loop, on the linked list: what Step does to the sequence. */
  method Handle(list: SortedTimerList, ev: Event<Timer>, ghost clock: int)
    requires list.Linked() && Legal(list.Entries(), clock, ev)
    requires ev.Arrive? ==> ev.timer !in list.nodes && ev.timer.prev == null && ev.timer.next == null
    modifies list, Subjects(ev), list.nodes`prev, list.nodes`next
    ensures list.Linked() && list.Entries() == Step(old(list.Entries()), ev)
  {
    hide Index, DuePrefix, Position, Adjust, Add, RemoveAt;
    match ev {
      case Arrive(timer, now) =>
        Arrive(list, timer, now);
      case Touch(timer, now) =>
        Touch(list, timer, now, Index(list.Entries(), timer));
      case Drop(timer, _) =>
        list.DelTimer(timer, Index(list.Entries(), timer));
      case Alarm(now) =>
        var fired := list.Timeout(now);
    }
  }

  lemma StepHas(es: seq<Entry<Timer>>, ev: Event<Timer>)
    requires ev.Touch? || ev.Drop? ==> Index(es, ev.timer) < |es|
    ensures forall e :: e in Step(es, ev) ==> e in es || e.timer in Subjects(ev)
  {
    hide Index, DuePrefix, Adjust, Add;
    match ev {
      case Arrive(timer, now) =>
        AddHas(es, Entry(timer, now + LIFETIME));
      case Touch(timer, now) =>
        AdjustHas(es[Index(es, timer) := Entry(timer, now + LIFETIME)], Index(es, timer));
      case _ =>
    }
  }

  lemma KeptNodes(list: SortedTimerList, before: seq<Timer>, es: seq<Entry<Timer>>, ev: Event<Timer>, clock: int)
    requires |es| == |before| && forall i :: 0 <= i < |es| ==> es[i].timer == before[i]
    requires Legal(es, clock, ev) && list.Entries() == Step(es, ev)
    ensures forall t :: t in list.nodes ==> t in before || t in Subjects(ev)
  {
    StepHas(es, ev);
    hide Index, Step;
    forall t | t in list.nodes
      ensures t in before || t in Subjects(ev)
    {
      var i :| 0 <= i < |list.nodes| && list.nodes[i] == t;
      assert list.Entries()[i] in Step(es, ev);
    }
  }

  /** Handle, when the timers of the events to come are kept apart. */
  method HandleFirst(list: SortedTimerList, events: seq<Event<Timer>>, ghost clock: int, ghost all: set<Timer>)
    requires events != [] && list.Linked() && Prepared(list.nodes, events, all) && Apart(events, all)
    requires Legal(list.Entries(), clock, events[0])
    modifies list, all
    ensures list.Linked() && Prepared(list.nodes, events[1..], all) && Apart(events[1..], all)
    ensures list.Entries() == Step(old(list.Entries()), events[0])
  {
    ghost var es, before := list.Entries(), list.nodes;
    SubjectsIn(list, events, clock, all);
    Elsewhere(before, events, all);
    hide Step, Legal, Index, Prepared;
    Handle(list, events[0], clock);
    KeptNodes(list, before, es, events[0], clock);
    StillPrepared(before, list.nodes, events, all);
  }

  /** The timers to come are not touched by the first event. */
  lemma Elsewhere(nodes: seq<Timer>, events: seq<Event<Timer>>, all: set<Timer>)
    requires events != [] && Prepared(nodes, events, all)
    requires !events[0].Arrive? ==> Subjects(events[0]) <= set t | t in nodes
    ensures forall i :: 1 <= i < |events| && events[i].Arrive? ==>
              events[i].timer in all && events[i].timer !in nodes && events[i].timer !in Subjects(events[0])
  {
  }

  lemma StillPrepared(before: seq<Timer>, nodes: seq<Timer>, events: seq<Event<Timer>>, all: set<Timer>)
    requires events != [] && Prepared(before, events, all) && Subjects(events[0]) <= all
    requires !events[0].Arrive? ==> Subjects(events[0]) <= set t | t in before
    requires forall t :: t in nodes ==> t in before || t in Subjects(events[0])
    ensures Prepared(nodes, events[1..], all)
  {
  }

  lemma SubjectsIn(list: SortedTimerList, events: seq<Event<Timer>>, clock: int, all: set<Timer>)
    requires events != [] && Prepared(list.nodes, events, all) && Legal(list.Entries(), clock, events[0])
    ensures Subjects(events[0]) <= all
    ensures !events[0].Arrive? ==> Subjects(events[0]) <= set t | t in list.nodes
  {
    if events[0].Touch? || events[0].Drop? {
      assert list.Entries()[Index(list.Entries(), events[0].timer)].timer in list.nodes;
    }
  }

  /** The event loop: over any legal run of events the linked list ends as the record of who was last
      active when, least recently active first. */
  method HandleAll(list: SortedTimerList, events: seq<Event<Timer>>, ghost clock: int, ghost all: set<Timer>, ghost acts: seq<Activity<Timer>>)
    requires list.Linked() && Prepared(list.nodes, events, all) && Apart(events, all)
    requires list.Entries() == Expiries(acts) && Recent(acts, clock) && LegalRun(list.Entries(), clock, events)
    modifies list, all
    ensures list.Linked() && list.Entries() == Expiries(RecordAll(acts, events))
  {
    hide Prepared, Apart, Legal, Step, Expiries, Recent, RecordAll;
    ghost var now := clock;
    ghost var goal := Run(list.Entries(), clock, events);
    ListIsActivityOrder(acts, clock, events);
    var i := 0;
    assert events[0..] == events;
    while i < |events|
      invariant 0 <= i <= |events| && list.Linked() && Prepared(list.nodes, events[i..], all) && Apart(events[i..], all)
      invariant LegalRun(list.Entries(), now, events[i..]) && Run(list.Entries(), now, events[i..]) == goal
    {
      assert events[i..][1..] == events[i + 1..];
      HandleFirst(list, events[i..], now, all);
      now := events[i].now;
      i := i + 1;
    }
    assert events[i..] == [];
  }
}
