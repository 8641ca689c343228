/** `SPSCQueue`: the cursor arithmetic of the single-producer,
    single-consumer queue (src/queue/spsc.rs), run one call at a time.

    The atomic loads and stores of `head` and `tail` are plain field reads
    and writes here. Three details of the source are kept as written:
    - `try_enqueue` wraps the tail at `capacity + 1` (spsc.rs:27) while `pop`
      wraps the head at `capacity` (spsc.rs:49);
    - the element goes in with `Vec::insert` (spsc.rs:33), which shifts the
      elements from `tail` on one place up instead of overwriting a slot;
    - `capacity` is the `Vec`'s capacity, which `Vec::insert` would grow when
      the vector is full; every successful enqueue here requires a vector
      with room, so the capacity stays the one `new` asked for. */
module Spsc {
  import opened Types

  /** The tail after a successful enqueue: one on, back to 0 at
      `capacity + 1`. */
  function NextTail(tail: nat, capacity: nat): (next: nat) {
    if tail + 1 == capacity + 1 then 0 else tail + 1
  }

  /** The head after a pop: one on, back to 0 at `capacity`. */
  function NextHead(head: nat, capacity: nat): (next: nat) {
    if head + 1 == capacity then 0 else head + 1
  }

  /** The tail after `n` successful enqueues starting from `tail`. */
  function AdvanceTail(tail: nat, capacity: nat, n: nat): (after: nat) {
    if n == 0 then tail else NextTail(AdvanceTail(tail, capacity, n - 1), capacity)
  }

  /** The head after `n` pops starting from `head`. */
  function AdvanceHead(head: nat, capacity: nat, n: nat): (after: nat) {
    if n == 0 then head else NextHead(AdvanceHead(head, capacity, n - 1), capacity)
  }

  class SpscQueue<T> {
    /** Next slot to pop. */
    var head: nat
    /** Next slot to push. */
    var tail: nat
    var elements: seq<T>
    /** `elements.capacity()`, as requested by `new`. */
    const capacity: nat

    /** `SPSCQueue::new`: both cursors at 0, no elements. */
    constructor (capacity: nat)
      ensures head == 0 && tail == 0 && elements == [] && this.capacity == capacity
      ensures IsEmpty() && TryGetFront() == None
    {
      head, tail := 0, 0;
      elements := [];
      this.capacity := capacity;
    }

    /** `is_empty`: the cursors meet. */
    function IsEmpty(): (r: bool)
      reads this
      ensures r <==> head == tail
      ensures r ==> TryGetFront() == None
    {
      head == tail
    }

    /** `try_enqueue`. Full when the next tail would meet the head: then
        `false` and nothing changes. Otherwise the element is inserted at
        index `tail` and the tail moves to the next position. The success path
        needs `tail <= |elements|` (`Vec::insert` panics past the end) and
        room in the vector (no growth, see the module comment). From a state
        where the tail counts the elements, as `new` leaves it, the tail keeps
        counting them and the insert is an append: elements stay in arrival
        order. */
    method TryEnqueue(element: T) returns (ok: bool)
      requires NextTail(tail, capacity) != head ==> tail <= |elements| < capacity
      modifies this
      ensures ok <==> NextTail(old(tail), capacity) != old(head)
      ensures head == old(head)
      ensures ok ==> tail == NextTail(old(tail), capacity) &&
                     elements == old(elements)[..old(tail)] + [element] + old(elements)[old(tail)..]
      ensures !ok ==> tail == old(tail) && elements == old(elements)
      ensures old(tail) == |old(elements)| ==>
                tail == |elements| && (ok ==> elements == old(elements) + [element])
    {
      var current := tail;
      var next := current + 1;
      if next == capacity + 1 {
        next := 0;
      }
      if next == head {
        return false;
      }
      assert current == |elements| ==> elements[..current] == elements && elements[current..] == [];
      elements := elements[..current] + [element] + elements[current..];
      tail := next;
      return true;
    }

    /** `try_get_front`: `None` when the cursors meet, otherwise the element
        at the head, which stays in the queue. Reading `elements[head]` needs
        `head < |elements|` (the index would panic). */
    function TryGetFront(): (r: Option<T>)
      reads this
      requires head != tail ==> head < |elements|
      ensures r == None <==> head == tail
      ensures r.Some? ==> r.value == elements[head]
    {
      if tail == head then None else Some(elements[head])
    }

    /** `pop`: the head moves one on, back to 0 at `capacity`; it does not
        check for an empty queue. */
    method Pop()
      modifies this
      ensures head == NextHead(old(head), capacity)
      ensures tail == old(tail) && elements == old(elements)
    {
      var current := head;
      var next := current + 1;
      if next == capacity {
        next := 0;
      }
      head := next;
    }
  }

  /** Starting from the tail at 0, the first `capacity` steps of the tail
      arithmetic of spsc.rs:26-29 move it to 1, 2, ..., `capacity`, and the
      next one brings it back to 0. That last step is the source's arithmetic
      only: in the model a successful enqueue needs `tail < capacity`, so the
      wrap to 0 is reached on the refusal path of `TryEnqueue` (the computed
      successor is compared with the head), never stored. */
  lemma {:induction false} TailCycle(capacity: nat, n: nat)
    requires n <= capacity + 1
    ensures AdvanceTail(0, capacity, n) == if n == capacity + 1 then 0 else n
  {
    if n > 0 {
      TailCycle(capacity, n - 1);
    }
  }

  /** Starting from the head at 0, the first `capacity - 1` pops move it to
      1, ..., `capacity - 1`, and the `capacity`-th brings it back to 0: one
      step sooner than the tail. */
  lemma {:induction false} HeadCycle(capacity: nat, n: nat)
    requires 0 < capacity && n <= capacity
    ensures AdvanceHead(0, capacity, n) == if n == capacity then 0 else n
  {
    if n > 0 {
      HeadCycle(capacity, n - 1);
    }
  }

  /** With the head at 0, exactly `capacity` enqueues succeed from an empty
      queue: the k-th enqueue (counting from 0) finds the queue full exactly
      when k == capacity. */
  lemma {:induction false} EnqueuesUntilFull(capacity: nat, k: nat)
    requires k <= capacity
    ensures (NextTail(AdvanceTail(0, capacity, k), capacity) == 0) <==> k == capacity
  {
    TailCycle(capacity, k);
  }

  /** spsc.rs:61-65 and 88-93: a fresh queue is empty and has no front. */
  method EmptyScenario() returns (empty: bool, front: Option<int>)
    ensures empty && front == None
  {
    var queue := new SpscQueue<int>(2);
    empty := queue.IsEmpty();
    front := queue.TryGetFront();
  }

  /** spsc.rs:80-86: with capacity 2, enqueueing 10, 20, 30 gives true, true,
      false. */
  method FullScenario() returns (first: bool, second: bool, third: bool)
    ensures first && second && !third
  {
    var queue := new SpscQueue<int>(2);
    first := queue.TryEnqueue(10);
    second := queue.TryEnqueue(20);
    third := queue.TryEnqueue(30);
  }

  /** spsc.rs:67-78: after enqueueing 10 and 20 the front is 10, and after a
      pop it is 20. */
  method FrontScenario() returns (first: Option<int>, second: Option<int>)
    ensures first == Some(10) && second == Some(20)
  {
    var queue := new SpscQueue<int>(2);
    var ok := queue.TryEnqueue(10);
    ok := queue.TryEnqueue(20);
    first := queue.TryGetFront();
    queue.Pop();
    second := queue.TryGetFront();
    queue.Pop();
  }

  /** spsc.rs:95-106: with capacity 2 the head goes to 1 and then wraps to 0,
      while the tail, after two enqueues, sits at 2. */
  method PopScenario() returns (afterOne: nat, afterTwo: nat, tail: nat)
    ensures afterOne == 1 && afterTwo == 0 && tail == 2
  {
    var queue := new SpscQueue<int>(2);
    var ok := queue.TryEnqueue(10);
    ok := queue.TryEnqueue(20);
    queue.Pop();
    afterOne := queue.head;
    queue.Pop();
    afterTwo := queue.head;
    tail := queue.tail;
  }
}
