/** The queue as its callers see it: a first-in first-out sequence of
    values. Each public operation of the lock-free queue, run alone and
    with `pop_front` as corrected, does to the live values what the
    abstract operation does to a sequence and gives the same answer; and
    every run from the constructor keeps the queue valid. The
    `single_thread` scenario of the test suite follows. */
module Fifo {
  import opened Outcomes
  import opened ConcurrentQueue

  /** A call of one of the queue's public operations. `unlinkFails` says
      whether the unlink CAS of `pop_front` fails spuriously. */
  datatype Op<T> = PushBackOp(value: T) | PopFrontOp(unlinkFails: bool) | FrontOp | SizeOp | EmptyOp | ClearOp

  /** What a call returns to its caller (`push_back` and `clear` return nothing). */
  datatype Answer<T> =
    | Done
    | Removed(removed: bool)
    | FrontValue(front: Option<T>)
    | Count(size: Result<Counter, SizeFault>)
    | Emptiness(empty: bool)

  /** The abstract queue: append at the back, take from the front. */
  function AbstractApply<T>(s: seq<T>, op: Op<T>): (seq<T>, Answer<T>)
  {
    match op
    case PushBackOp(v) => (s + [v], Done)
    case PopFrontOp(_) => if s == [] then (s, Removed(false)) else (s[1..], Removed(true))
    case FrontOp => (s, FrontValue(if s == [] then None else Some(s[0])))
    case SizeOp => (s, Count(Success(|s| % SizeModulus)))
    case EmptyOp => (s, Emptiness(s == []))
    case ClearOp => ([], Done)
  }

  /** The same call on the lock-free queue, with `pop_front` as corrected.
      The nodes an operation hands to `onNodeRemoved` are reclamation events
      and invisible to the caller. */
  function Apply<T>(q: Queue<T>, op: Op<T>): (Queue<T>, Answer<T>)
  {
    match op
    case PushBackOp(v) => (PushBack(q, v).queue, Done)
    case PopFrontOp(unlinkFails) => var r := PopFrontCorrected(q, unlinkFails); (r.queue, Removed(r.removed))
    case FrontOp => var r := Front(q); (r.queue, FrontValue(r.front))
    case SizeOp => (q, Count(Size(q)))
    case EmptyOp => (q, Emptiness(IsEmpty(q)))
    case ClearOp => (Clear(q).queue, Done)
  }

  /** A sequence of calls on the abstract queue, with the answers in order. */
  function AbstractRun<T>(s: seq<T>, ops: seq<Op<T>>): (seq<T>, seq<Answer<T>>)
    decreases |ops|
  {
    if ops == [] then (s, [])
    else
      var (s', a) := AbstractApply(s, ops[0]);
      var (last, answers) := AbstractRun(s', ops[1..]);
      (last, [a] + answers)
  }

  /** A sequence of calls on the lock-free queue, with the answers in order. */
  function Run<T>(q: Queue<T>, ops: seq<Op<T>>): (Queue<T>, seq<Answer<T>>)
    decreases |ops|
  {
    if ops == [] then (q, [])
    else
      var (q', a) := Apply(q, ops[0]);
      var (last, answers) := Run(q', ops[1..]);
      (last, [a] + answers)
  }

  /** One call on a valid queue keeps it valid, changes its live values as
      the abstract call changes the sequence, and answers the same. */
  lemma ApplyRefines<T>(q: Queue<T>, op: Op<T>)
    requires Valid(q)
    ensures var (q', a) := Apply(q, op);
      var (s', b) := AbstractApply(Live(q.chain), op);
      Valid(q') && Live(q'.chain) == s' && a == b
  {
    match op
    case PushBackOp(v) =>
      PushBackRefines(q, v);
    case PopFrontOp(unlinkFails) =>
      PopFrontRefines(q, unlinkFails);
    case FrontOp =>
      FrontKeepsValues(q);
    case SizeOp =>
    case EmptyOp =>
    case ClearOp =>
  }

  /** `push_back` on a valid queue appends its value to the live values. */
  lemma PushBackRefines<T>(q: Queue<T>, v: T)
    requires Valid(q)
    ensures var q' := PushBack(q, v).queue;
      Valid(q') && Live(q'.chain) == Live(q.chain) + [v]
  {
    PushBackAppends(q, v);
    PushBackQuiescent(q, v);
    PushBackKeepsValid(q, v);
  }

  /** `pop_front` on a valid queue takes the first live value, if any, and
      reports whether there was one, whether or not its unlink CAS fails. */
  lemma PopFrontRefines<T>(q: Queue<T>, unlinkFails: bool)
    requires Valid(q)
    ensures var r, s := PopFrontCorrected(q, unlinkFails), Live(q.chain);
      && Valid(r.queue) && r.removed == (s != [])
      && Live(r.queue.chain) == if s == [] then s else s[1..]
  {
    PopFrontCorrectedKeepsValid(q, unlinkFails);
    PopFrontCorrectedTakesFirst(q, unlinkFails);
  }

  /** Any sequence of calls on a valid queue behaves like the same calls on
      the abstract queue of its live values, and leaves the queue valid. */
  lemma {:induction false} RunRefines<T>(q: Queue<T>, ops: seq<Op<T>>)
    requires Valid(q)
    ensures var (q', answers) := Run(q, ops);
      var (s', expected) := AbstractRun(Live(q.chain), ops);
      Valid(q') && Live(q'.chain) == s' && answers == expected
    decreases |ops|
  {
    if ops != [] {
      ApplyRefines(q, ops[0]);
      RunRefines(Apply(q, ops[0]).0, ops[1..]);
    }
  }

  /** From the constructor on, the queue is a FIFO queue. */
  lemma NewQueueIsFifo<T>(ops: seq<Op<T>>)
    ensures var (q, answers) := Run(NewQueue<T>(), ops);
      var (s, expected) := AbstractRun([], ops);
      Valid(q) && Live(q.chain) == s && answers == expected
  {
    RunRefines(NewQueue<T>(), ops);
  }

  /** The number of elements the `single_thread` test pushes. */
  const ElementsPerThread: nat := 1000

  /** The first loop of the `single_thread` test: push 0 .. n-1 onto a new
      queue, which then holds exactly those values, in that order. */
  method PushRange(n: nat) returns (q: Queue<int>)
    ensures Valid(q)
    ensures |Live(q.chain)| == n && forall j :: 0 <= j < n ==> Live(q.chain)[j] == j
  {
    q := NewQueue<int>();
    var i := 0;
    while i < n
      invariant i <= n
      invariant Valid(q)
      invariant |Live(q.chain)| == i && forall j :: 0 <= j < i ==> Live(q.chain)[j] == j
    {
      ApplyRefines(q, PushBackOp(i));
      q := PushBack(q, i).queue;
      i := i + 1;
    }
  }

  /** The second loop: n times read the front and pop it. The reads see the
      values in order, every pop removes one, and the queue ends empty. */
  method FrontAndPop(q0: Queue<int>, n: nat) returns (q: Queue<int>, fronts: seq<Option<int>>, pops: seq<bool>)
    requires Valid(q0)
    requires |Live(q0.chain)| == n && forall j :: 0 <= j < n ==> Live(q0.chain)[j] == j
    ensures Valid(q) && Live(q.chain) == []
    ensures |fronts| == n && forall i :: 0 <= i < n ==> fronts[i] == Some(i)
    ensures |pops| == n && forall i :: 0 <= i < n ==> pops[i]
  {
    q, fronts, pops := q0, [], [];
    var i := 0;
    while i < n
      invariant i <= n
      invariant Valid(q)
      invariant |Live(q.chain)| == n - i && forall j :: 0 <= j < n - i ==> Live(q.chain)[j] == i + j
      invariant |fronts| == i && forall j :: 0 <= j < i ==> fronts[j] == Some(j)
      invariant |pops| == i && forall j :: 0 <= j < i ==> pops[j]
    {
      var front, removed, next := FrontThenPop(q, i, n);
      fronts, pops, q := fronts + [front], pops + [removed], next;
      i := i + 1;
    }
  }

  /** One round of the second loop, on a queue holding i .. n-1: the front
      read sees i and the pop leaves i+1 .. n-1. */
  method FrontThenPop(q: Queue<int>, i: nat, n: nat) returns (front: Option<int>, removed: bool, next: Queue<int>)
    requires i < n && Valid(q)
    requires |Live(q.chain)| == n - i && forall j :: 0 <= j < n - i ==> Live(q.chain)[j] == i + j
    ensures front == Some(i) && removed && Valid(next)
    ensures |Live(next.chain)| == n - (i + 1)
    ensures forall j :: 0 <= j < n - (i + 1) ==> Live(next.chain)[j] == i + 1 + j
  {
    var peek := Front(q);
    FrontKeepsValues(q);
    assert peek.queue == q;
    var popped := PopFront(q);
    PopFrontTakesFirst(q);
    PopFrontQuiescent(q);
    PopFrontKeepsValid(q);
    front, removed, next := peek.front, popped.removed, popped.queue;
  }

  /** The `single_thread` test for n elements: push 0 .. n-1 and read the
      size; then n times read the front and pop it; then read the size
      again. Each front read sees the next value in push order, every pop
      removes one, and the two sizes are n (modulo 2^64) and zero. */
  method SingleThread(n: nat) returns (filled: Result<Counter, SizeFault>, fronts: seq<Option<int>>,
                                       pops: seq<bool>, drained: Result<Counter, SizeFault>)
    ensures filled == Success(n % SizeModulus)
    ensures |fronts| == n && forall i :: 0 <= i < n ==> fronts[i] == Some(i)
    ensures |pops| == n && forall i :: 0 <= i < n ==> pops[i]
    ensures drained == Success(0)
  {
    var q := PushRange(n);
    filled := Size(q);
    q, fronts, pops := FrontAndPop(q, n);
    drained := Size(q);
  }

  /** The test's own numbers: a thousand pushes give size 1000, the i-th
      front read gives i, and the drained queue has size zero. */
  method SingleThreadTest() returns (filled: Result<Counter, SizeFault>, fronts: seq<Option<int>>,
                                     drained: Result<Counter, SizeFault>)
    ensures filled == Success(1000)
    ensures |fronts| == 1000 && forall i :: 0 <= i < 1000 ==> fronts[i] == Some(i)
    ensures drained == Success(0)
  {
    var pops;
    filled, fronts, pops, drained := SingleThread(ElementsPerThread);
  }
}
