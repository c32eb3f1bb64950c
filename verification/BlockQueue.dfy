/** The ring buffer of the blocking queue: its arithmetic on a value, and the class that holds it in an
    array, one caller at a time. */
module BlockQueue {

  /** A position on a ring of n slots, after at most one turn. */
  function Turn(k: int, n: int): (r: int)
    requires 0 <= k < 2 * n
    ensures 0 <= r < n
  {
    if k < n then k else k - n
  }

  lemma TurnIsMod(k: int, n: int)
    requires 0 <= k < 2 * n
    ensures k % n == Turn(k, n)
  {
  }

  lemma MinusTurn(n: int)
    requires n > 0
    ensures -n % n == 0 && 0 % n == 0
  {
  }

  /** What one turn of a pop under the lock comes to; Asleep means the caller waits for a signal. */
  datatype Popped<T> = Got(item: T) | Asleep

  /** The slots and the three numbers: front is the slot popped last and back the slot pushed last, both
      -1 at first; the items are in the slots between. */
  datatype Ring<T> = Ring(slots: seq<T>, size: int, front: int, back: int) {
    predicate Valid() {
      && 0 < |slots| && 0 <= size <= |slots|
      && -1 <= front < |slots| && -1 <= back < |slots|
      && (if back == -1 then front == -1 && size == 0
          else 0 <= front + size && back == Turn(front + size, |slots|))
    }

    /** The slot of the i-th item. */
    function Slot(i: nat): (k: nat)
      requires Valid() && i < |slots|
      ensures k < |slots|
    {
      Turn(front + 1 + i, |slots|)
    }

    /** The queue as a sequence, first in first. */
    function Items(): (s: seq<T>)
      requires Valid()
      ensures |s| == size
    {
      seq(size, i requires 0 <= i < size && Valid() => slots[Slot(i)])
    }

    function Push(item: T): Ring<T>
      requires Valid()
    {
      var b := (back + 1) % |slots|;
      Ring(slots[b := item], size + 1, front, b)
    }

    function Front(): T
      requires Valid()
    {
      slots[(front + 1) % |slots|]
    }

    function Pop(): Ring<T>
      requires Valid()
    {
      Ring(slots, size - 1, (front + 1) % |slots|, back)
    }

    function Clear(): Ring<T> {
      Ring(slots, 0, -1, -1)
    }

    /** Pushing appends while there is room. */
    lemma PushAppends(item: T)
      requires Valid() && size < |slots|
      ensures Push(item).Valid() && Push(item).Items() == Items() + [item]
    {
      TurnIsMod(back + 1, |slots|);
      assert (back + 1) % |slots| == Slot(size);
    }

    /** Popping takes the first item. */
    lemma PopTakesFirst()
      requires Valid() && size > 0
      ensures Pop().Valid() && Items() == [Front()] + Pop().Items()
    {
      TurnIsMod(front + 1, |slots|);
      assert (front + 1) % |slots| == Slot(0);
    }

    lemma ClearEmpties()
      requires 0 < |slots|
      ensures Clear().Valid() && Clear().Items() == [] && Clear().front == -1 == Clear().back
    {
    }

    /** The slot pushed last holds the last item. */
    lemma BackIsLast()
      requires Valid() && size > 0
      ensures 0 <= back && slots[back] == Items()[size - 1]
    {
    }

    /** The indices agree with the size up to whole turns of the ring. */
    lemma Congruent()
      requires Valid()
      ensures (back - front - size) % |slots| == 0
    {
      MinusTurn(|slots|);
    }
  }

  class Queue<T(0)> {
    const m_array: array<T>
    const m_max_size: int
    var m_size: int
    var m_front: int
    var m_back: int

    ghost function View(): Ring<T>
      reads this, m_array
    {
      Ring(m_array[..], m_size, m_front, m_back)
    }

    ghost predicate Valid()
      reads this, m_array
    {
      m_max_size == m_array.Length && View().Valid()
    }

    ghost function Items(): (s: seq<T>)
      requires Valid()
      reads this, m_array
      ensures |s| == m_size
    {
      View().Items()
    }

    /** The source ends the program for a capacity that is not positive. */
    constructor (max_size: int)
      requires max_size > 0
      ensures Valid() && Items() == [] && m_max_size == max_size && fresh(m_array)
      ensures View() == View().Clear()
    {
      m_max_size := max_size;
      m_array := new T[max_size];
      m_size := 0;
      m_front := -1;
      m_back := -1;
    }

    method Clear()
      requires Valid()
      modifies this
      ensures Valid() && Items() == [] && View() == old(View()).Clear()
    {
      m_size := 0;
      m_front := -1;
      m_back := -1;
    }

    method Full() returns (b: bool)
      requires Valid()
      ensures b <==> |Items()| == m_max_size
    {
      b := m_size >= m_max_size;
    }

    method Empty() returns (b: bool)
      requires Valid()
      ensures b <==> Items() == []
    {
      b := 0 == m_size;
    }

    method Size() returns (n: int)
      requires Valid()
      ensures n == |Items()|
    {
      n := m_size;
    }

    /** The item pushed last. */
    method Back(old_value: T) returns (ok: bool, value: T)
      requires Valid()
      ensures ok <==> Items() != []
      ensures ok ==> value == Items()[|Items()| - 1]
      ensures !ok ==> value == old_value
    {
      if 0 == m_size {
        return false, old_value;
      }
      View().BackIsLast();
      return true, m_array[m_back];
    }

    method Push(item: T) returns (ok: bool)
      requires Valid()
      modifies this, m_array
      ensures Valid()
      ensures ok <==> |old(Items())| < m_max_size
      ensures Items() == if ok then old(Items()) + [item] else old(Items())
      ensures View() == if ok then old(View()).Push(item) else old(View())
    {
      if m_size >= m_max_size {
        return false;
      }
      View().PushAppends(item);
      m_back := (m_back + 1) % m_max_size;
      m_array[m_back] := item;
      m_size := m_size + 1;
      return true;
    }

    /** One turn of the loop in pop, with the lock held: an item, or the caller goes to sleep. The
        loop turns again after every wake-up. */
    method Pop() returns (r: Popped<T>)
      requires Valid()
      modifies this
      ensures Valid()
      ensures r.Asleep? <==> old(Items()) == []
      ensures r.Asleep? ==> View() == old(View())
      ensures r.Got? ==> View() == old(View()).Pop()
      ensures r.Got? ==> r.item == old(Items())[0] && Items() == old(Items())[1..]
    {
      if m_size <= 0 {
        return Asleep;
      }
      View().PopTakesFirst();
      m_front := (m_front + 1) % m_max_size;
      m_size := m_size - 1;
      return Got(m_array[m_front]);
    }

    /** The second half of the timed pop, after its one wait: it looks at the size once more. */
    method PopAfterWait() returns (ok: bool, item: Popped<T>)
      requires Valid()
      modifies this
      ensures Valid()
      ensures ok <==> old(Items()) != []
      ensures if ok then item == Got(old(Items())[0]) && Items() == old(Items())[1..] else Items() == old(Items())
    {
      if m_size <= 0 {
        return false, Asleep;
      }
      item := Pop();
      return true, item;
    }
  }
}
