/** The circular buffer between an interrupt handler that pushes and a thread that pops. */
module CircularBuffer {
  import opened Options

  /** The next index of a ring of `s` slots. */
  function Next(i: nat, s: nat): nat
    requires i < s
  {
    (i + 1) % s
  }

  /** The queue that the array and its two ends stand for, oldest element first. The array has one
      slot more than the ring uses. */
  function Queue<T>(slots: seq<T>, s: nat, r: nat, w: nat): seq<T>
    requires r < s < |slots| && w < s
  {
    if r <= w then slots[r..w] else slots[r..s] + slots[..w]
  }

  predicate Full(s: nat, r: nat, w: nat)
    requires w < s
  {
    r == Next(w, s)
  }

  lemma QueueLength<T>(slots: seq<T>, s: nat, r: nat, w: nat)
    requires r < s < |slots| && w < s
    ensures |Queue(slots, s, r, w)| <= s - 1
    ensures |Queue(slots, s, r, w)| == s - 1 <==> Full(s, r, w)
    ensures Queue(slots, s, r, w) == [] <==> r == w
    ensures r != w ==> Queue(slots, s, r, w)[0] == slots[r]
  {
    NextIs(w, s);
  }

  lemma PushedQueue<T>(slots: seq<T>, s: nat, r: nat, w: nat, x: T)
    requires r < s < |slots| && w < s && !Full(s, r, w)
    ensures Queue(slots[w := x], s, r, Next(w, s)) == Queue(slots, s, r, w) + [x]
  {
    NextIs(w, s);
  }

  lemma PoppedQueue<T>(slots: seq<T>, s: nat, r: nat, w: nat)
    requires r < s < |slots| && w < s && r != w
    ensures Queue(slots, s, Next(r, s), w) == Queue(slots, s, r, w)[1..]
  {
    NextIs(r, s);
    if r < w {
      TailOfSlice(slots, r, w);
    } else {
      TailOfSum(slots[r..s], slots[..w]);
      TailOfSlice(slots, r, s);
      assert r + 1 == s ==> slots[r + 1..s] == [] && slots[0..w] == [] + slots[..w];
    }
  }

  lemma NextIs(i: nat, s: nat)
    requires i < s
    ensures Next(i, s) == if i + 1 == s then 0 else i + 1
  {
  }

  lemma TailOfSlice<T>(a: seq<T>, lo: nat, hi: nat)
    requires lo < hi <= |a|
    ensures a[lo..hi][1..] == a[lo + 1..hi]
  {
  }

  lemma TailOfSum<T>(a: seq<T>, b: seq<T>)
    requires a != []
    ensures (a + b)[1..] == a[1..] + b
  {
  }

  /** As written, full() compares with the write end plus one, without wrapping. It is right in every
      state but one: read end 0 and write end at the last slot. */
  predicate FullAsWritten(r: nat, w: nat) { r == w + 1 }

  lemma FullAsWrittenRight(s: nat, r: nat, w: nat)
    requires r < s && w < s
    ensures FullAsWritten(r, w) == Full(s, r, w) <==> !(r == 0 && w == s - 1)
  {
    NextIs(w, s);
  }

  /** In that state a push goes through and empties the queue: all its elements are lost. */
  lemma PushAsWrittenLoses<T>(slots: seq<T>, s: nat, x: T)
    requires 1 <= s < |slots|
    ensures !FullAsWritten(0, s - 1) && |Queue(slots, s, 0, s - 1)| == s - 1
    ensures Queue(slots[s - 1 := x], s, 0, Next(s - 1, s)) == []
  {
  }

  // ---------------------------------------------------------------- the class

  class Ring<T(0)> {
    const size: nat
    const slots: array<T>
    var readEnd: nat
    var writeEnd: nat

    ghost predicate Valid()
      reads this
    {
      0 < size < 0x1_0000 && slots.Length == size + 1 && readEnd < size && writeEnd < size
    }

    ghost function Contents(): seq<T>
      requires Valid()
      reads this, slots
    {
      Queue(slots[..], size, readEnd, writeEnd)
    }

    constructor (size: nat, filler: T)
      requires 0 < size < 0x1_0000
      ensures Valid() && this.size == size && Contents() == [] && fresh(slots)
    {
      this.size := size;
      slots := new T[size + 1](i => filler);
      readEnd := 0;
      writeEnd := 0;
    }

    predicate IsEmpty()
      requires Valid()
      reads this, slots
      ensures IsEmpty() <==> Contents() == []
    {
      QueueLength(slots[..], size, readEnd, writeEnd);
      readEnd == writeEnd
    }

    predicate IsFull()
      requires Valid()
      reads this, slots
      ensures IsFull() <==> |Contents()| == size - 1
    {
      QueueLength(slots[..], size, readEnd, writeEnd);
      // Repaired: the file does not wrap the index.
      readEnd == (writeEnd + 1) % size
    }

    function Len(): (n: nat)
      requires Valid()
      reads this, slots
      ensures n == |Contents()|
    {
      if readEnd <= writeEnd then writeEnd - readEnd else writeEnd + (size - readEnd)
    }

    /** push: refused exactly when the queue holds `size - 1` elements. */
    method Push(x: T) returns (ok: bool)
      requires Valid()
      modifies this`writeEnd, slots
      ensures Valid()
      ensures ok <==> |old(Contents())| < size - 1
      ensures Contents() == if ok then old(Contents()) + [x] else old(Contents())
    {
      QueueLength(slots[..], size, readEnd, writeEnd);
      if IsFull() {
        return false;
      }
      PushedQueue(slots[..], size, readEnd, writeEnd, x);
      slots[writeEnd] := x;
      writeEnd := (writeEnd + 1) % size;
      return true;
    }

    method Pop() returns (x: Option<T>)
      requires Valid()
      modifies this`readEnd
      ensures Valid()
      ensures old(Contents()) == [] ==> x == None && Contents() == []
      ensures old(Contents()) != [] ==> x == Some(old(Contents())[0]) && Contents() == old(Contents())[1..]
    {
      QueueLength(slots[..], size, readEnd, writeEnd);
      if IsEmpty() {
        return None;
      }
      PoppedQueue(slots[..], size, readEnd, writeEnd);
      x := Some(slots[readEnd]);
      readEnd := (readEnd + 1) % size;
    }

    method Front() returns (x: Option<T>)
      requires Valid()
      ensures x == if Contents() == [] then None else Some(Contents()[0])
    {
      QueueLength(slots[..], size, readEnd, writeEnd);
      if IsEmpty() {
        return None;
      }
      return Some(slots[readEnd]);
    }
  }

  // ---------------------------------------------------------------- pushes inside a pop

  /** Where the popping thread is: outside pop, past the test for empty, or holding the element. */
  datatype PopPc<T> = Outside | Tested | Holding(x: T)

  /** `pushed` and `popped` are what push accepted and what pop returned so far. */
  datatype State<T> = State(slots: seq<T>, size: nat, r: nat, w: nat, pc: PopPc<T>, pushed: seq<T>, popped: seq<T>)

  /** A push happens whole, in the interrupt handler; a pop is interruptible between its test, its read
      of the element and its update of the read end. */
  datatype Event<T> = Push(x: T) | PopTest | PopRead | PopAdvance

  /** Both ends are places of the ring. */
  predicate Indexed<T>(s: State<T>) {
    0 < s.size < |s.slots| && s.r < s.size && s.w < s.size
  }

  /** A ring in which nothing has been pushed yet, as constructed. */
  function Empty<T>(slots: seq<T>, size: nat): State<T> {
    State(slots, size, 0, 0, Outside, [], [])
  }

  ghost predicate Ok<T>(s: State<T>) {
    && Indexed(s)
    && s.pushed == s.popped + Queue(s.slots, s.size, s.r, s.w)
    && (s.pc != Outside ==> s.r != s.w)
    && (s.pc.Holding? ==> s.pc.x == s.slots[s.r])
  }

  predicate Enabled<T>(s: State<T>, e: Event<T>) {
    match e
    case Push(_) => true
    case PopTest => s.pc.Outside?
    case PopRead => s.pc.Tested?
    case PopAdvance => s.pc.Holding?
  }

  function Apply<T>(s: State<T>, e: Event<T>): (s': State<T>)
    requires Indexed(s) && Enabled(s, e)
    ensures Indexed(s') && s'.size == s.size
  {
    match e
    case Push(x) =>
      if Full(s.size, s.r, s.w) then s
      else s.(slots := s.slots[s.w := x], w := Next(s.w, s.size), pushed := s.pushed + [x])
    case PopTest => if s.r == s.w then s else s.(pc := Tested)
    case PopRead => s.(pc := Holding(s.slots[s.r]))
    case PopAdvance => s.(r := Next(s.r, s.size), pc := Outside, popped := s.popped + [s.pc.x])
  }

  lemma EventKeepsOk<T>(s: State<T>, e: Event<T>)
    requires Ok(s) && Enabled(s, e)
    ensures Ok(Apply(s, e))
  {
    QueueLength(s.slots, s.size, s.r, s.w);
    match e {
      case Push(x) =>
        if !Full(s.size, s.r, s.w) {
          PushedQueue(s.slots, s.size, s.r, s.w, x);
          assert s.popped + (Queue(s.slots, s.size, s.r, s.w) + [x]) == s.pushed + [x];
        }
      case PopTest =>
      case PopRead =>
      case PopAdvance =>
        PoppedQueue(s.slots, s.size, s.r, s.w);
        var q := Queue(s.slots, s.size, s.r, s.w);
        assert q == [q[0]] + q[1..];
        assert s.popped + q == (s.popped + [q[0]]) + q[1..];
    }
  }

  /** `es` can happen from `s`, one event after the other. */
  predicate Legal<T>(s: State<T>, es: seq<Event<T>>)
    requires Indexed(s)
    decreases |es|
  {
    es == [] || (Enabled(s, es[0]) && Legal(Apply(s, es[0]), es[1..]))
  }

  function Run<T>(s: State<T>, es: seq<Event<T>>): (s': State<T>)
    requires Indexed(s) && Legal(s, es)
    ensures Indexed(s') && s'.size == s.size
    decreases |es|
  {
    if es == [] then s else Run(Apply(s, es[0]), es[1..])
  }

  lemma {:induction false} RunKeepsOk<T>(s: State<T>, es: seq<Event<T>>)
    requires Ok(s) && Legal(s, es)
    ensures Ok(Run(s, es))
    decreases |es|
  {
    if es != [] {
      EventKeepsOk(s, es[0]);
      RunKeepsOk(Apply(s, es[0]), es[1..]);
    }
  }

  /** Under every interleaving, from the empty ring, the buffer is a first-in first-out queue: what was
      popped, followed by what is queued, is exactly what was pushed, in order; the queue never exceeds
      `size - 1`; and a push is refused exactly when it is that long. */
  lemma EveryInterleavingIsFifo<T>(slots: seq<T>, size: nat, es: seq<Event<T>>, x: T)
    requires 0 < size < |slots| && Legal(Empty(slots, size), es)
    ensures var s := Run(Empty(slots, size), es);
            && s.pushed == s.popped + Queue(s.slots, size, s.r, s.w)
            && |Queue(s.slots, size, s.r, s.w)| <= size - 1
            && Apply(s, Push(x)).pushed ==
               if |Queue(s.slots, size, s.r, s.w)| == size - 1 then s.pushed else s.pushed + [x]
  {
    RunKeepsOk(Empty(slots, size), es);
    var s := Run(Empty(slots, size), es);
    QueueLength(s.slots, size, s.r, s.w);
  }
}
