/** The bounded queue over a circular array of log/block_queue.h.  Each call holds the mutex throughout,
    so calls from several threads are a sequence of calls. */
module BlockQueue {
  import opened Options

  /** The array index of what is `k` places after the head, with `m_front` at `front`. */
  function Place(front: int, k: int, cap: int): int {
    if front + 1 + k < cap then front + 1 + k else front + 1 + k - cap
  }

  lemma Wraps(x: int, cap: int)
    requires 0 <= x <= cap && cap > 0
    ensures x % cap == if x < cap then x else 0
  {
  }

  class Queue<T(0)> {
    var array_: array<T>
    var size: int
    var front: int
    var back: int
    const capacity: int

    ghost predicate Valid()
      reads this, array_
    {
      && array_.Length == capacity && capacity > 0 && 0 <= size <= capacity
      && -1 <= front < capacity && -1 <= back < capacity
      && back == if size == 0 then front else Place(front, size - 1, capacity)
    }

    /** The queued items, the oldest first. */
    ghost function Items(): (s: seq<T>)
      requires Valid()
      reads this, array_
      ensures |s| == size
    {
      seq(size, k requires 0 <= k < size && Valid() reads this, array_ => array_[Place(front, k, capacity)])
    }

    /** `m_back` is congruent to `m_front + m_size` modulo the capacity, from the initial -1 and -1 on. */
    lemma Congruent()
      requires Valid()
      ensures (back - (front + size)) % capacity == 0
    {
    }

    constructor (maxSize: int)
      requires maxSize > 0
      ensures Valid() && Items() == [] && capacity == maxSize && fresh(array_)
      ensures front == -1 && back == -1
    {
      capacity := maxSize;
      array_ := new T[maxSize];
      size, front, back := 0, -1, -1;
    }

    method Clear()
      requires Valid()
      modifies this`size, this`front, this`back
      ensures Valid() && Items() == [] && front == -1 && back == -1
    {
      size := 0;
      front := -1;
      back := -1;
    }

    method Push(item: T) returns (ok: bool)
      requires Valid()
      modifies this`size, this`back, array_
      ensures Valid() && ok == (|old(Items())| < capacity)
      ensures Items() == if ok then old(Items()) + [item] else old(Items())
    {
      if size >= capacity {
        return false;
      }
      Wraps(back + 1, capacity);
      back := (back + 1) % capacity;
      array_[back] := item;
      size := size + 1;
      return true;
    }

    /** `pop` once the lock is held and no wait is pending: on an empty queue the caller waits again or
        gives up. */
    method Pop() returns (item: Option<T>)
      requires Valid()
      modifies this`size, this`front
      ensures Valid()
      ensures old(Items()) == [] ==> item == None && Items() == []
      ensures old(Items()) != [] ==> item == Some(old(Items())[0]) && Items() == old(Items())[1..]
      ensures item.Some? ==> front >= 0 && array_[front] == item.value
    {
      if size <= 0 {
        return None;
      }
      Wraps(front + 1, capacity);
      front := (front + 1) % capacity;
      size := size - 1;
      return Some(array_[front]);
    }

    /** `back`. */
    method Back() returns (value: Option<T>)
      requires Valid()
      ensures value == if Items() == [] then None else Some(Items()[|Items()| - 1])
    {
      if 0 == size {
        return None;
      }
      return Some(array_[back]);
    }

    /** `front` reads the slot at `m_front`: it is the head's slot only in a queue of capacity 1, and the
        tail's slot when the queue is full. */
    lemma FrontSlot()
      requires Valid() && size > 0
      ensures front == Place(front, 0, capacity) <==> capacity == 1 && front == 0
      ensures size == capacity && front >= 0 ==> front == Place(front, size - 1, capacity)
    {
    }
  }

  /** A case where `front` does not read the head: the item just popped is still what it finds. */
  method FrontMisses() returns (read: int, ghost head: int)
    ensures read == 1 && head == 2
  {
    var q := new Queue<int>(2);
    var ok := q.Push(1);
    ok := q.Push(2);
    assert q.Items() == [1, 2];
    var item := q.Pop();
    assert q.Items() == [2];
    read := q.array_[q.front];
    head := q.Items()[0];
  }

  // ---------- whole runs ----------

  datatype Op<T> = Push(item: T) | Pop | Clear

  /** What has been pushed and popped since the last `clear`, and what is queued. */
  datatype History<T> = History(pushed: seq<T>, popped: seq<T>, queued: seq<T>)

  function Next<T>(cap: int, h: History<T>, op: Op<T>): History<T> {
    match op
    case Push(x) =>
      if |h.queued| < cap then h.(pushed := h.pushed + [x], queued := h.queued + [x]) else h
    case Pop =>
      if h.queued == [] then h else h.(popped := h.popped + [h.queued[0]], queued := h.queued[1..])
    case Clear => History([], [], [])
  }

  function Run<T>(cap: int, ops: seq<Op<T>>): History<T> {
    if ops == [] then History([], [], []) else Next(cap, Run(cap, ops[..|ops| - 1]), ops[|ops| - 1])
  }

  /** What one more call does to what is queued, and to what has come out. */
  lemma RunOne<T>(cap: int, ops: seq<Op<T>>, x: T)
    ensures var h, p := Run(cap, ops), Run(cap, ops + [Push(x)]);
      p.queued == (if |h.queued| < cap then h.queued + [x] else h.queued) && p.popped == h.popped
    ensures var h, p := Run(cap, ops), Run(cap, ops + [Pop]);
      if h.queued == [] then p == h else p.queued == h.queued[1..] && p.popped == h.popped + [h.queued[0]]
    ensures Run(cap, ops + [Clear]) == Run(cap, []) && Run<T>(cap, []).queued == []
  {
    assert (ops + [Push(x)])[..|ops|] == ops && (ops + [Pop])[..|ops|] == ops && (ops + [Clear])[..|ops|] == ops;
  }

  /** First in, first out: what was pushed is what was popped followed by what is queued. */
  lemma {:induction false} Fifo<T>(cap: int, ops: seq<Op<T>>)
    requires cap > 0
    ensures var h := Run(cap, ops); h.pushed == h.popped + h.queued && |h.queued| <= cap
  {
    if ops != [] {
      Fifo(cap, ops[..|ops| - 1]);
      var h := Run(cap, ops[..|ops| - 1]);
      if h.queued != [] {
        assert h.queued == [h.queued[0]] + h.queued[1..];
      }
    }
  }

  /** The calls of any number of threads in the order in which they get the lock. */
  method Perform<T(0)>(q: Queue<T>, ops: seq<Op<T>>) returns (popped: seq<T>)
    requires q.Valid() && q.Items() == []
    modifies q, q.array_
    ensures q.Valid() && q.Items() == Run(q.capacity, ops).queued && popped == Run(q.capacity, ops).popped
  {
    popped := [];
    for i := 0 to |ops|
      invariant q.Valid() && q.array_ == old(q.array_)
      invariant q.Items() == Run(q.capacity, ops[..i]).queued && popped == Run(q.capacity, ops[..i]).popped
    {
      assert ops[..i + 1][..i] == ops[..i];
      match ops[i]
      case Push(x) =>
        var _ := q.Push(x);
      case Pop =>
        var item := q.Pop();
        if item.Some? {
          popped := popped + [item.value];
        }
      case Clear =>
        q.Clear();
        popped := [];
    }
    assert ops[..|ops|] == ops;
  }
}
