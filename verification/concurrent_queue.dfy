/** The queue of the lock-free builds, each operation running alone.

    The chain hanging off the head sentinel is a sequence of cells, one per
    node, each holding the node's value and its `marker` bit (a marked node
    is logically removed but may still be linked). The head sentinel itself
    is never marked and is not part of the sequence. `_size` is a `size_t`
    and wraps modulo 2^64.

    Every compare-and-swap of the source is a compare-then-set. With nothing
    else running, its expected word equals the current one
    (ControlBlock.ExpectedMatchesCurrent), so it can fail only spuriously,
    as `compare_exchange_weak` may. Inside the retry loops B2, B3 and B4 such
    a failure only repeats the attempt on an unchanged queue, so the
    successful attempt is modelled. The unlink CAS C4 of `pop_front` has no
    retry, and its outcome is a parameter of `PopFrontAsWritten` and
    `PopFrontCorrected`. Each operation that searches or clears returns,
    besides the new queue, the nodes it handed to `onNodeRemoved`, in the
    order it handed them over.

    The abstraction is `Live`: the values of the unmarked nodes, in chain order. */
module ConcurrentQueue {
  import opened Bits
  import opened Outcomes

  /** 2^64: `size_t` arithmetic wraps modulo this. */
  const SizeModulus: nat := 0x1_0000_0000_0000_0000

  /** Values of `std::atomic_size_t`. */
  type Counter = n: nat | n < SizeModulus

  /** `_size.fetch_add(1)`: one more, wrapping from 2^64 - 1 to zero. */
  function Increment(n: Counter): (r: Counter)
    ensures n + 1 < SizeModulus ==> r == n + 1
    ensures n + 1 == SizeModulus ==> r == 0
  {
    (n + 1) % SizeModulus
  }

  /** `_size.fetch_sub(1)`, the bookkeeping part of `onNodeRemoved`; which node
      is freed (mutex build), released (reference-counted build) or kept
      (plain lock-free build) is recorded by the caller. */
  function OnNodeRemoved(n: Counter): (r: Counter)
    ensures n > 0 ==> r == n - 1
    ensures n == 0 ==> r == SizeModulus - 1
    ensures Increment(r) == n
  {
    (n - 1) % SizeModulus
  }

  /** A node: its value and its marker bit. */
  datatype Cell<T> = Cell(value: T, marked: bool)

  /** `_head->next()` onwards, and `_size`. */
  datatype Queue<T> = Queue(chain: seq<Cell<T>>, size: Counter)

  /** The values of the unmarked nodes, in order: the queue's contents. */
  function Live<T>(c: seq<Cell<T>>): seq<T>
  {
    if c == [] then [] else (if c[0].marked then [] else [c[0].value]) + Live(c[1..])
  }

  /** No node is logically removed. */
  predicate Quiescent<T>(q: Queue<T>)
  {
    forall i :: 0 <= i < |q.chain| ==> !q.chain[i].marked
  }

  /** `_size` counts the linked nodes (modulo 2^64). */
  predicate SizeTracksChain<T>(q: Queue<T>)
  {
    q.size == |q.chain| % SizeModulus
  }

  /** The invariant every sequential run keeps. */
  predicate Valid<T>(q: Queue<T>)
  {
    Quiescent(q) && SizeTracksChain(q)
  }

  lemma {:induction false} LiveAppend<T>(a: seq<Cell<T>>, b: seq<Cell<T>>)
    ensures Live(a + b) == Live(a) + Live(b)
  {
    if a == [] {
      assert a + b == b;
    } else {
      var head := if a[0].marked then [] else [a[0].value];
      assert (a + b)[0] == a[0];
      assert (a + b)[1..] == a[1..] + b;
      LiveAppend(a[1..], b);
      calc {
        Live(a + b);
        head + Live(a[1..] + b);
        head + (Live(a[1..]) + Live(b));
        (head + Live(a[1..])) + Live(b);
        Live(a) + Live(b);
      }
    }
  }

  lemma {:induction false} LiveOfMarked<T>(c: seq<Cell<T>>)
    requires forall i :: 0 <= i < |c| ==> c[i].marked
    ensures Live(c) == []
  {
    if c != [] {
      LiveOfMarked(c[1..]);
    }
  }

  lemma {:induction false} LiveOfUnmarked<T>(c: seq<Cell<T>>)
    requires forall i :: 0 <= i < |c| ==> !c[i].marked
    ensures |Live(c)| == |c|
    ensures forall i :: 0 <= i < |c| ==> Live(c)[i] == c[i].value
  {
    if c != [] {
      LiveOfUnmarked(c[1..]);
    }
  }

  // ---------------------------------------------------------------------------
  // Nodes as the source refers to them

  /** A node pointer: the head sentinel, the node at an index of the chain, or null. */
  datatype Ref = Head | Node(index: nat) | Null

  /** A pointer to the head or to a node of the chain. */
  predicate IsNode<T>(c: seq<Cell<T>>, r: Ref)
  {
    r.Head? || (r.Node? && r.index < |c|)
  }

  /** How many chain nodes precede the node after `r`. */
  function Position<T>(c: seq<Cell<T>>, r: Ref): (i: nat)
    requires IsNode(c, r)
    ensures i <= |c|
  {
    if r.Head? then 0 else r.index + 1
  }

  /** `r->next()` */
  function Successor<T>(c: seq<Cell<T>>, r: Ref): Ref
    requires IsNode(c, r)
  {
    var i := Position(c, r);
    if i < |c| then Node(i) else Null
  }

  // ---------------------------------------------------------------------------
  // search

  /** Walk positions: 0 is the head, p in 1..|c| is chain node p - 1, and
      |c| + 1 is null. The head is never marked. */
  predicate Marked<T>(c: seq<Cell<T>>, p: nat)
  {
    1 <= p <= |c| && c[p - 1].marked
  }

  /** Phase 1 of `search` (the B1 loop): `t` is the current node and `left`
      the last unmarked node met so far. Every node after `left` and before
      `t` is marked. Returns the final (left, right) positions: right is the
      first unmarked node after left, or null; a front search stops at the
      first unmarked node after the head, the other one runs to null. */
  function Walk<T>(c: seq<Cell<T>>, findFront: bool, t: nat, left: nat): (r: (nat, nat))
    requires left <= t <= |c|
    requires !Marked(c, left)
    requires forall p :: left < p < t ==> Marked(c, p)
    requires findFront ==> forall p :: 0 < p <= t ==> Marked(c, p)
    ensures r.0 < r.1 <= |c| + 1
    ensures !Marked(c, r.0)
    ensures forall p :: r.0 < p < r.1 ==> Marked(c, p)
    ensures r.1 <= |c| ==> !Marked(c, r.1)
    ensures findFront ==> forall p :: 0 < p < r.1 ==> Marked(c, p)
    ensures !findFront ==> r.1 == |c| + 1
    decreases |c| - t
  {
    var left' := if Marked(c, t) then left else t;
    var t' := t + 1;
    assert !Marked(c, left') && forall p :: left' < p < t' ==> Marked(c, p);
    assert findFront ==> forall p :: 0 < p < t' ==> Marked(c, p);
    if t' == |c| + 1 then (left', t')
    else if Marked(c, t') || !findFront then Walk(c, findFront, t', left')
    else (left', t')
  }

  /** The pair `search` returns, the queue after its repairs, and the
      unlinked nodes it handed to `onNodeRemoved`. */
  datatype SearchResult<T> = SearchResult(queue: Queue<T>, left: Ref, right: Ref, released: seq<Cell<T>>)

  /** Phase 3 after a successful unlink CAS (the loop after C1): walk the
      orphaned gap and hand every logically removed node to `onNodeRemoved`. */
  function ReleaseMarked<T>(size: Counter, gap: seq<Cell<T>>): (r: (Counter, seq<Cell<T>>))
    ensures r.0 == (size - |r.1|) % SizeModulus
    ensures forall i :: 0 <= i < |r.1| ==> r.1[i].marked
    ensures (forall i :: 0 <= i < |gap| ==> gap[i].marked) ==> r.1 == gap
    ensures forall x :: x in r.1 ==> x in gap
    decreases |gap|
  {
    if gap == [] then (size, [])
    else
      var size' := if gap[0].marked then OnNodeRemoved(size) else size;
      var (last, rest) := ReleaseMarked(size', gap[1..]);
      var released := if gap[0].marked then [gap[0]] + rest else rest;
      assert last == (size - |released|) % SizeModulus by {
        if gap[0].marked {
          ModSub(size - 1, |rest|, SizeModulus);
        }
      }
      (last, released)
  }

  /** What the walk establishes about its (left, right) positions. */
  predicate WalkFacts<T>(c: seq<Cell<T>>, l: nat, rt: nat)
  {
    && l < rt <= |c| + 1
    && !Marked(c, l)
    && (forall p :: l < p < rt ==> Marked(c, p))
    && (rt <= |c| ==> !Marked(c, rt))
  }

  /** Phases 2 and 3 of `search` on the walk's positions: when left's
      successor is already right, return the pair (R1); otherwise the CAS C1
      retargets left's successor from the gap to right, and the orphaned gap
      is walked for `onNodeRemoved`. The G1/G2 restarts need a marked right
      node, which the walk never returns. */
  function Repair<T>(q: Queue<T>, l: nat, rt: nat): (r: SearchResult<T>)
    requires l < rt <= |q.chain| + 1
    ensures r.queue.chain == q.chain[..l] + q.chain[rt - 1..]
    ensures IsNode(r.queue.chain, r.left) && Position(r.queue.chain, r.left) == l
    ensures Successor(r.queue.chain, r.left) == r.right
    ensures forall i :: 0 <= i < |r.released| ==> r.released[i].marked
    ensures r.queue.size == (q.size - |r.released|) % SizeModulus
  {
    var c := q.chain;
    var left := if l == 0 then Head else Node(l - 1);
    var right := if rt == |c| + 1 then Null else Node(l);
    if l + 1 == rt then
      SearchResult(q, left, right, [])
    else
      var freed := ReleaseMarked(q.size, c[l..rt - 1]);
      SearchResult(Queue(c[..l] + c[rt - 1..], freed.0), left, right, freed.1)
  }

  /** The nodes strictly between the walk's left and right are all marked. */
  lemma GapIsMarked<T>(c: seq<Cell<T>>, l: nat, rt: nat)
    requires WalkFacts(c, l, rt)
    ensures var gap := c[l..rt - 1];
      forall i :: 0 <= i < |gap| ==> gap[i].marked
  {
    var gap := c[l..rt - 1];
    forall i | 0 <= i < |gap|
      ensures gap[i].marked
    {
      assert gap[i] == c[l + i];
      assert Marked(c, l + i + 1);
    }
  }

  /** The repaired chain is the original without the gap, and the gap is
      exactly what is released. */
  lemma RepairSlices<T>(q: Queue<T>, l: nat, rt: nat)
    requires WalkFacts(q.chain, l, rt)
    ensures var r := Repair(q, l, rt);
      && r.queue.chain == q.chain[..l] + q.chain[rt - 1..]
      && r.released == q.chain[l..rt - 1]
      && r.queue.size == (q.size - |r.released|) % SizeModulus
  {
    var c := q.chain;
    if l + 1 == rt {
      assert c == c[..l] + c[rt - 1..];
      assert c[l..rt - 1] == [];
    } else {
      GapIsMarked(c, l, rt);
    }
  }

  /** The shape of the repaired chain: left is unmarked with right as its
      successor, and right is null or unmarked. */
  lemma RepairShape<T>(q: Queue<T>, l: nat, rt: nat)
    requires WalkFacts(q.chain, l, rt)
    ensures var r := Repair(q, l, rt);
      && IsNode(r.queue.chain, r.left)
      && Position(r.queue.chain, r.left) == l
      && (r.left.Node? ==> !r.queue.chain[r.left.index].marked)
      && Successor(r.queue.chain, r.left) == r.right
      && (r.right.Node? ==> r.right.index < |r.queue.chain| && !r.queue.chain[r.right.index].marked)
  {
    var c := q.chain;
    RepairSlices(q, l, rt);
    var chain := Repair(q, l, rt).queue.chain;
    assert |chain| == |c| - (rt - 1 - l);
    if rt <= |c| {
      assert chain[l] == c[rt - 1];
    }
    if l > 0 {
      assert chain[l - 1] == c[l - 1];
    }
  }

  /** Unlinking the gap leaves the live values alone. */
  lemma RepairKeepsLive<T>(q: Queue<T>, l: nat, rt: nat)
    requires WalkFacts(q.chain, l, rt)
    ensures Live(Repair(q, l, rt).queue.chain) == Live(q.chain)
  {
    var c := q.chain;
    RepairSlices(q, l, rt);
    var gap := c[l..rt - 1];
    GapIsMarked(c, l, rt);
    assert c == c[..l] + gap + c[rt - 1..];
    LiveOfMarked(gap);
    LiveAppend(c[..l], gap);
    LiveAppend(c[..l] + gap, c[rt - 1..]);
    LiveAppend(c[..l], c[rt - 1..]);
  }

  /** The original chain is the repaired one with the released gap put back
      after left. */
  lemma RepairDecomposes<T>(q: Queue<T>, l: nat, rt: nat)
    requires WalkFacts(q.chain, l, rt)
    ensures var r := Repair(q, l, rt);
      && q.chain == r.queue.chain[..l] + r.released + r.queue.chain[l..]
      && forall i :: 0 <= i < |r.released| ==> r.released[i].marked
  {
    var c := q.chain;
    var r := Repair(q, l, rt);
    RepairSlices(q, l, rt);
    GapIsMarked(c, l, rt);
    var front, gap, back := c[..l], c[l..rt - 1], c[rt - 1..];
    assert c == front + gap + back;
    assert r.queue.chain[..l] == front;
    assert r.queue.chain[l..] == back;
  }

  /** A front walk starts its last step at the head. */
  lemma FrontWalkFromHead<T>(c: seq<Cell<T>>, l: nat, rt: nat)
    requires WalkFacts(c, l, rt)
    requires forall p :: 0 < p < rt ==> Marked(c, p)
    ensures l == 0
  {
  }

  /** A front walk that runs to null has seen only marked nodes. */
  lemma FrontWalkToNull<T>(q: Queue<T>, rt: nat)
    requires WalkFacts(q.chain, 0, rt) && rt == |q.chain| + 1
    requires forall p :: 0 < p < rt ==> Marked(q.chain, p)
    ensures Live(q.chain) == []
  {
    var c := q.chain;
    forall i | 0 <= i < |c|
      ensures c[i].marked
    {
      assert Marked(c, i + 1);
    }
    LiveOfMarked(c);
  }

  /** A front walk that stops at a node has found the first live value. */
  lemma FrontWalkToNode<T>(q: Queue<T>, rt: nat)
    requires WalkFacts(q.chain, 0, rt) && rt <= |q.chain|
    ensures var r := Repair(q, 0, rt);
      && r.right == Node(0)
      && Live(q.chain) != []
      && r.queue.chain[0].value == Live(q.chain)[0]
  {
    RepairShape(q, 0, rt);
    RepairKeepsLive(q, 0, rt);
    var c' := Repair(q, 0, rt).queue.chain;
    assert !c'[0].marked;
    assert Live(c') == [c'[0].value] + Live(c'[1..]);
  }

  /** On a quiescent queue the walk's last step starts next to where it
      ends, so nothing is unlinked. */
  lemma RepairQuiescent<T>(q: Queue<T>, l: nat, rt: nat)
    requires WalkFacts(q.chain, l, rt) && Quiescent(q)
    ensures Repair(q, l, rt).queue == q && Repair(q, l, rt).released == []
  {
    assert !Marked(q.chain, l + 1);
  }

  /** `search(_head, findFront)`. The lock-free branch ignores its start
      node and always walks from the head. On return `left` is the head or
      an unmarked node, `right` is its successor, and `right` is null or
      unmarked. What else it does is stated by the lemmas below. */
  function Search<T>(q: Queue<T>, findFront: bool): (r: SearchResult<T>)
    ensures IsNode(r.queue.chain, r.left)
    ensures r.left.Node? ==> !r.queue.chain[r.left.index].marked
    ensures Successor(r.queue.chain, r.left) == r.right
    ensures r.right.Node? ==> r.right.index < |r.queue.chain| && !r.queue.chain[r.right.index].marked
  {
    var w := Walk(q.chain, findFront, 0, 0);
    RepairShape(q, w.0, w.1);
    Repair(q, w.0, w.1)
  }

  /** The search's positions and its result, for the lemmas about it. */
  lemma SearchIsRepair<T>(q: Queue<T>, findFront: bool) returns (l: nat, rt: nat)
    ensures WalkFacts(q.chain, l, rt)
    ensures findFront ==> forall p :: 0 < p < rt ==> Marked(q.chain, p)
    ensures !findFront ==> rt == |q.chain| + 1
    ensures Search(q, findFront) == Repair(q, l, rt)
  {
    var w := Walk(q.chain, findFront, 0, 0);
    l, rt := w.0, w.1;
  }

  /** The only change `search` makes to the chain is that the run of
      marked nodes after `left` is unlinked, and exactly those nodes are
      handed to `onNodeRemoved`. */
  lemma SearchUnlinksMarkedRun<T>(q: Queue<T>, findFront: bool)
    ensures var r := Search(q, findFront);
      var i := Position(r.queue.chain, r.left);
      && q.chain == r.queue.chain[..i] + r.released + r.queue.chain[i..]
      && forall k :: 0 <= k < |r.released| ==> r.released[k].marked
  {
    var l, rt := SearchIsRepair(q, findFront);
    RepairShape(q, l, rt);
    RepairDecomposes(q, l, rt);
  }

  /** `search` leaves the live values alone, and `_size` drops by the
      number of nodes it released. */
  lemma SearchKeepsLive<T>(q: Queue<T>, findFront: bool)
    ensures var r := Search(q, findFront);
      && Live(r.queue.chain) == Live(q.chain)
      && r.queue.size == (q.size - |r.released|) % SizeModulus
  {
    var l, rt := SearchIsRepair(q, findFront);
    RepairSlices(q, l, rt);
    RepairKeepsLive(q, l, rt);
  }

  /** A front search returns the head and the first live node, or null
      when there is none; what it unlinked was the front of the chain. */
  lemma SearchFromFront<T>(q: Queue<T>)
    ensures var r := Search(q, true);
      && r.left == Head
      && q.chain == r.released + r.queue.chain
      && (r.right == Null <==> Live(q.chain) == [])
      && (r.right.Node? ==> r.right.index == 0 && r.queue.chain[0].value == Live(q.chain)[0])
  {
    var l, rt := SearchIsRepair(q, true);
    FrontWalkFromHead(q.chain, l, rt);
    FrontRepair(q, rt);
  }

  /** The repair that ends a front walk, which starts at the head. */
  lemma FrontRepair<T>(q: Queue<T>, rt: nat)
    requires WalkFacts(q.chain, 0, rt)
    requires forall p :: 0 < p < rt ==> Marked(q.chain, p)
    ensures var r := Repair(q, 0, rt);
      && r.left == Head
      && q.chain == r.released + r.queue.chain
      && (r.right == Null <==> Live(q.chain) == [])
      && (r.right.Node? ==> r.right.index == 0 && r.queue.chain[0].value == Live(q.chain)[0])
  {
    var r := Repair(q, 0, rt);
    assert r.left == Head && r.right == Successor(r.queue.chain, Head) by { RepairShape(q, 0, rt); }
    assert q.chain == r.released + r.queue.chain by {
      RepairDecomposes(q, 0, rt);
      assert r.queue.chain[..0] == [] && r.queue.chain[0..] == r.queue.chain;
    }
    if rt <= |q.chain| {
      FrontWalkToNode(q, rt);
    } else {
      FrontWalkToNull(q, rt);
    }
  }

  /** A back search returns the last live node (or the head) and null;
      what it unlinked was the tail of the chain. */
  lemma SearchFromBack<T>(q: Queue<T>)
    ensures var r := Search(q, false);
      && r.right == Null
      && Position(r.queue.chain, r.left) == |r.queue.chain|
      && q.chain == r.queue.chain + r.released
  {
    var l, rt := SearchIsRepair(q, false);
    RepairShape(q, l, rt);
    RepairDecomposes(q, l, rt);
    var c := Search(q, false).queue.chain;
    assert c[..l] == c && c[l..] == [];
  }

  /** On a quiescent queue `search` changes nothing. */
  lemma SearchQuiescent<T>(q: Queue<T>, findFront: bool)
    requires Quiescent(q)
    ensures Search(q, findFront).queue == q && Search(q, findFront).released == []
  {
    var l, rt := SearchIsRepair(q, findFront);
    RepairQuiescent(q, l, rt);
  }

  /** Releasing k of the chain's nodes keeps `_size` in step with it. */
  lemma ReleaseKeepsCount<T>(q: Queue<T>, k: nat, size: Counter, c: seq<Cell<T>>)
    requires |q.chain| == k + |c|
    requires size == (q.size - k) % SizeModulus
    ensures SizeTracksChain(q) ==> SizeTracksChain(Queue(c, size))
  {
    if SizeTracksChain(q) {
      ModSub(|q.chain|, k, SizeModulus);
    }
  }

  // ---------------------------------------------------------------------------
  // The public operations

  /** The constructor: a head sentinel with no successor, `_size` zero. */
  function NewQueue<T>(): (q: Queue<T>)
    ensures Live(q.chain) == []
    ensures Valid(q)
    ensures IsEmpty(q)
  {
    Queue([], 0)
  }

  /** The new chain and the nodes handed to `onNodeRemoved` by an operation. */
  datatype Step<T> = Step(queue: Queue<T>, released: seq<Cell<T>>)

  /** Link `node` as the successor of `left`, with left's old successor as its own. */
  function LinkAfter<T>(c: seq<Cell<T>>, left: Ref, node: Cell<T>): (r: seq<Cell<T>>)
    requires IsNode(c, left)
    ensures |r| == |c| + 1
  {
    var i := Position(c, left);
    c[..i] + [node] + c[i..]
  }

  /** What a back search hands back, as `push_back` relies on it: `left` is
      the last node of the repaired chain (or the head) and `right` is null,
      the released nodes are the marked tail of the old chain, the live
      values are unchanged and `_size` dropped by the number released. */
  ghost predicate BackSearched<T>(q: Queue<T>, s: SearchResult<T>)
  {
    && IsNode(s.queue.chain, s.left)
    && Position(s.queue.chain, s.left) == |s.queue.chain|
    && s.right == Null
    && q.chain == s.queue.chain + s.released
    && (forall i :: 0 <= i < |s.released| ==> s.released[i].marked)
    && Live(s.queue.chain) == Live(q.chain)
    && s.queue.size == (q.size - |s.released|) % SizeModulus
    && (Quiescent(q) ==> s.queue == q && s.released == [])
  }

  lemma SearchIsBackSearched<T>(q: Queue<T>)
    ensures BackSearched(q, Search(q, false))
  {
    var l, rt := SearchIsRepair(q, false);
    BackRepair(q, l, rt);
  }

  /** The repair that ends a back walk, which runs to null. */
  lemma BackRepair<T>(q: Queue<T>, l: nat, rt: nat)
    requires WalkFacts(q.chain, l, rt) && rt == |q.chain| + 1
    ensures BackSearched(q, Repair(q, l, rt))
  {
    var r := Repair(q, l, rt);
    assert q.chain == r.queue.chain + r.released by {
      RepairDecomposes(q, l, rt);
      assert r.queue.chain[..l] == r.queue.chain && r.queue.chain[l..] == [];
    }
    RepairKeepsLive(q, l, rt);
    if Quiescent(q) {
      RepairQuiescent(q, l, rt);
    }
  }

  /** `push_back(v)` after its back search: the new unmarked node is linked
      as left's successor, with right (null) as its own successor (C2), and
      `_size` goes up by one. */
  function PushAfter<T>(s: SearchResult<T>, v: T): (r: Step<T>)
    requires IsNode(s.queue.chain, s.left)
    ensures var c, i := s.queue.chain, Position(s.queue.chain, s.left);
      && r.queue.chain == c[..i] + [Cell(v, false)] + c[i..] && r.released == s.released
      && Successor(r.queue.chain, s.left) == Node(i) && r.queue.chain[i] == Cell(v, false)
      && Live(r.queue.chain) == Live(c[..i]) + [v] + Live(c[i..])
      && OnNodeRemoved(r.queue.size) == s.queue.size
  {
    var c, i := s.queue.chain, Position(s.queue.chain, s.left);
    LiveAppend(c[..i] + [Cell(v, false)], c[i..]);
    LiveAppend(c[..i], [Cell(v, false)]);
    Step(Queue(LinkAfter(c, s.left, Cell(v, false)), Increment(s.queue.size)), s.released)
  }

  /** `push_back(v)`: a back search unlinks any marked run after the last
      live node, then the new node is linked after it. The value joins the
      live values at the back. */
  function PushBack<T>(q: Queue<T>, v: T): (r: Step<T>)
    ensures Live(r.queue.chain) == Live(q.chain) + [v]
  {
    SearchIsBackSearched(q);
    PushAfterAppends(q, Search(q, false), v);
    PushAfter(Search(q, false), v)
  }

  /** After a back search the new node goes at the very end. */
  lemma PushAfterCases<T>(q: Queue<T>, s: SearchResult<T>, v: T)
    requires BackSearched(q, s)
    ensures PushAfter(s, v).queue.chain == s.queue.chain + [Cell(v, false)]
  {
    var c := s.queue.chain;
    assert c[..|c|] == c && c[|c|..] == [];
  }

  lemma PushAfterAppends<T>(q: Queue<T>, s: SearchResult<T>, v: T)
    requires BackSearched(q, s)
    ensures Live(PushAfter(s, v).queue.chain) == Live(q.chain) + [v]
  {
    PushAfterCases(q, s, v);
    LiveAppend(s.queue.chain, [Cell(v, false)]);
    assert Live([Cell(v, false)]) == [v];
  }

  /** `push_back` puts the new unmarked node last, and apart from that only
      unlinks (and releases) the marked nodes at the back of the chain. */
  lemma PushBackAppends<T>(q: Queue<T>, v: T)
    ensures var r := PushBack(q, v);
      var n := |r.queue.chain| - 1;
      && n >= 0
      && r.queue.chain[n] == Cell(v, false)
      && q.chain == r.queue.chain[..n] + r.released
      && forall i :: 0 <= i < |r.released| ==> r.released[i].marked
  {
    SearchIsBackSearched(q);
    PushAfterLinksLast(q, Search(q, false), v);
  }

  lemma PushAfterLinksLast<T>(q: Queue<T>, s: SearchResult<T>, v: T)
    requires BackSearched(q, s)
    ensures var r := PushAfter(s, v);
      var n := |r.queue.chain| - 1;
      && n >= 0
      && r.queue.chain[n] == Cell(v, false)
      && q.chain == r.queue.chain[..n] + r.released
      && forall i :: 0 <= i < |r.released| ==> r.released[i].marked
  {
    PushAfterCases(q, s, v);
    var c := PushAfter(s, v).queue.chain;
    assert c[..|c| - 1] == s.queue.chain;
  }

  /** `_size` rises by one for the new node and drops by one for each
      released node, so it keeps counting the chain. */
  lemma PushBackKeepsValid<T>(q: Queue<T>, v: T)
    ensures var r := PushBack(q, v);
      && r.queue.size == (q.size - |r.released| + 1) % SizeModulus
      && (SizeTracksChain(q) ==> SizeTracksChain(r.queue))
  {
    SearchIsBackSearched(q);
    PushAfterKeepsValid(q, Search(q, false), v);
  }

  lemma PushAfterKeepsValid<T>(q: Queue<T>, s: SearchResult<T>, v: T)
    requires BackSearched(q, s)
    ensures var r := PushAfter(s, v);
      && r.queue.size == (q.size - |r.released| + 1) % SizeModulus
      && (SizeTracksChain(q) ==> SizeTracksChain(r.queue))
  {
    var r := PushAfter(s, v);
    var k := |s.released|;
    CounterStep(q.size, k, s.queue.size, r.queue.size);
    if SizeTracksChain(q) {
      assert |r.queue.chain| == |q.chain| - k + 1;
      ModSub(|q.chain|, k, SizeModulus);
      CounterStep(|q.chain|, k, s.queue.size, r.queue.size);
    }
  }

  /** Releasing k nodes and then counting one more in. */
  lemma CounterStep(n: int, k: int, mid: Counter, after: Counter)
    requires mid == (n - k) % SizeModulus && after == Increment(mid)
    ensures after == (n - k + 1) % SizeModulus
  {
    ModAdd(n - k, 1, SizeModulus);
  }

  /** On a quiescent queue `push_back` just appends an unmarked node. */
  lemma PushBackQuiescent<T>(q: Queue<T>, v: T)
    requires Quiescent(q)
    ensures var r := PushBack(q, v);
      && r.released == []
      && r.queue.chain == q.chain + [Cell(v, false)]
      && Quiescent(r.queue)
  {
    SearchIsBackSearched(q);
    PushAfterCases(q, Search(q, false), v);
  }

  /** What `pop_front` did: the new queue, its return value, and the nodes it
      handed to `onNodeRemoved`. */
  datatype PopResult<T> = PopResult(queue: Queue<T>, removed: bool, released: seq<Cell<T>>)

  /** C3: set the marker of `right`; nothing else changes. */
  function MarkRight<T>(s: SearchResult<T>): (m: Queue<T>)
    requires s.right.Node? && s.right.index < |s.queue.chain|
    ensures |m.chain| == |s.queue.chain| && m.size == s.queue.size
    ensures m.chain[s.right.index] == s.queue.chain[s.right.index].(marked := true)
    ensures forall j :: 0 <= j < |m.chain| && j != s.right.index ==> m.chain[j] == s.queue.chain[j]
  {
    var c := s.queue.chain;
    var i := s.right.index;
    Queue(c[i := c[i].(marked := true)], s.queue.size)
  }

  /** C3 then C4: set the marker of `right`, then retarget `left`'s
      successor past it; the node goes to `onNodeRemoved`. Both CASes
      succeed here: B4 retries C3 only after a spurious failure or on a
      `right` already marked, which search never returns. Exactly
      one node leaves the chain, the live values around it stay, it is
      released after the search's nodes, marked, and `_size` drops by one. */
  function MarkAndUnlink<T>(s: SearchResult<T>): (r: PopResult<T>)
    requires IsNode(s.queue.chain, s.left) && s.right.Node?
    requires Successor(s.queue.chain, s.left) == s.right
    ensures var c, i := s.queue.chain, s.right.index;
      && i < |c|
      && r.removed
      && r.queue.chain == c[..i] + c[i + 1..]
      && r.released == s.released + [c[i].(marked := true)]
      && r.queue.size == OnNodeRemoved(s.queue.size)
      && Live(r.queue.chain) == Live(c[..i]) + Live(c[i + 1..])
  {
    var c := s.queue.chain;
    var i := s.right.index;
    var afterMark := MarkRight(s).chain;
    var afterUnlink := afterMark[..i] + afterMark[i + 1..];
    assert afterMark[..i] == c[..i] && afterMark[i + 1..] == c[i + 1..];
    LiveAppend(c[..i], c[i + 1..]);
    PopResult(Queue(afterUnlink, OnNodeRemoved(s.queue.size)), true, s.released + [afterMark[i]])
  }

  /** What a front search hands back, as `pop_front` and `front` rely on it:
      `left` is the head, `right` its successor and unmarked, the released
      nodes are the marked front of the old chain, the live values are
      unchanged and `_size` dropped by the number released. */
  ghost predicate FrontSearched<T>(q: Queue<T>, s: SearchResult<T>)
  {
    && s.left == Head
    && Successor(s.queue.chain, Head) == s.right
    && (s.right.Node? ==> !s.queue.chain[0].marked)
    && q.chain == s.released + s.queue.chain
    && (forall i :: 0 <= i < |s.released| ==> s.released[i].marked)
    && Live(s.queue.chain) == Live(q.chain)
    && s.queue.size == (q.size - |s.released|) % SizeModulus
    && (Quiescent(q) ==> s.queue == q && s.released == [])
  }

  lemma SearchIsFrontSearched<T>(q: Queue<T>)
    ensures FrontSearched(q, Search(q, true))
  {
    var s := Search(q, true);
    assert s.left == Head && q.chain == s.released + s.queue.chain
      && (s.right.Node? ==> s.right.index == 0) by {
      SearchFromFront(q);
    }
    assert forall i :: 0 <= i < |s.released| ==> s.released[i].marked by {
      SearchUnlinksMarkedRun(q, true);
    }
    assert Live(s.queue.chain) == Live(q.chain)
      && s.queue.size == (q.size - |s.released|) % SizeModulus by {
      SearchKeepsLive(q, true);
    }
    assert Quiescent(q) ==> s.queue == q && s.released == [] by {
      if Quiescent(q) {
        SearchQuiescent(q, true);
      }
    }
  }

  /** `pop_front()` after its front search: with no live node left it
      returns false (T1). Otherwise it marks the first live node (C3),
      unlinks it from the head (C4), hands it to `onNodeRemoved` last of
      all, and returns true. */
  function PopAfter<T>(s: SearchResult<T>): (r: PopResult<T>)
    requires IsNode(s.queue.chain, s.left) && Successor(s.queue.chain, s.left) == s.right
    ensures r.removed <==> s.right != Null
    ensures !r.removed ==> r.queue == s.queue && r.released == s.released
    ensures r.removed ==> var c, i := s.queue.chain, s.right.index;
      && r.queue.chain == c[..i] + c[i + 1..] && r.queue.size == OnNodeRemoved(s.queue.size)
      && r.released == s.released + [c[i].(marked := true)]
      && Live(r.queue.chain) == Live(c[..i]) + Live(c[i + 1..])
  {
    if s.right == Null then PopResult(s.queue, false, s.released) else MarkAndUnlink(s)
  }

  /** `pop_front()`: a front search, then the removal of the first live node
      if there is one. It reports a removal exactly when there was a live value. */
  function PopFront<T>(q: Queue<T>): (r: PopResult<T>)
    ensures r.removed <==> Live(q.chain) != []
  {
    SearchFromFront(q);
    PopAfter(Search(q, true))
  }

  /** The two paths of `pop_front` after a front search. */
  lemma PopAfterCases<T>(q: Queue<T>, s: SearchResult<T>)
    requires FrontSearched(q, s)
    ensures s.right == Null ==> s.queue.chain == [] && PopAfter(s) == PopResult(s.queue, false, s.released)
    ensures s.right.Node? ==> |s.queue.chain| > 0 && PopAfter(s) == PopResult(
      Queue(s.queue.chain[1..], OnNodeRemoved(s.queue.size)), true,
      s.released + [s.queue.chain[0].(marked := true)])
  {
    var c := s.queue.chain;
    if s.right.Node? {
      var afterMark := c[0 := c[0].(marked := true)];
      assert afterMark[..0] + afterMark[1..] == c[1..];
    }
  }

  /** `pop_front` hands only marked nodes to `onNodeRemoved`; with no live
      value it releases what is left of the (all marked) chain. */
  lemma PopFrontReleasesMarked<T>(q: Queue<T>)
    ensures var r := PopFront(q);
      && (forall i :: 0 <= i < |r.released| ==> r.released[i].marked)
      && (!r.removed ==> q.chain == r.released && r.queue.chain == [])
  {
    SearchIsFrontSearched(q);
    PopAfterCases(q, Search(q, true));
  }

  /** `pop_front` removes the first live value and no other. */
  lemma PopFrontTakesFirst<T>(q: Queue<T>)
    requires Live(q.chain) != []
    ensures Live(PopFront(q).queue.chain) == Live(q.chain)[1..]
  {
    SearchIsFrontSearched(q);
    PopAfterTakesFirst(q, Search(q, true));
  }

  lemma PopAfterTakesFirst<T>(q: Queue<T>, s: SearchResult<T>)
    requires FrontSearched(q, s) && s.right.Node?
    ensures Live(PopAfter(s).queue.chain) == Live(q.chain)[1..]
  {
    PopAfterCases(q, s);
    PopLive(s.queue.chain);
  }

  /** The node `pop_front` removes is handed to `onNodeRemoved` last,
      marked, after the marked nodes that stood in front of it. */
  lemma PopFrontReleasesFirst<T>(q: Queue<T>)
    requires Live(q.chain) != []
    ensures var r := PopFront(q);
      var n := |r.released| - 1;
      && n >= 0
      && r.released[n] == Cell(Live(q.chain)[0], true)
      && q.chain == r.released[..n] + [Cell(Live(q.chain)[0], false)] + r.queue.chain
  {
    SearchIsFrontSearched(q);
    PopAfterReleasesFirst(q, Search(q, true));
  }

  lemma PopAfterReleasesFirst<T>(q: Queue<T>, s: SearchResult<T>)
    requires FrontSearched(q, s) && s.right.Node?
    ensures var r := PopAfter(s);
      var n := |r.released| - 1;
      && n >= 0
      && r.released[n] == Cell(Live(q.chain)[0], true)
      && q.chain == r.released[..n] + [Cell(Live(q.chain)[0], false)] + r.queue.chain
  {
    PopAfterCases(q, s);
    var c := s.queue.chain;
    PopLive(c);
    var r := PopAfter(s);
    var n := |r.released| - 1;
    assert Live(q.chain)[0] == c[0].value;
    assert r.released[..n] == s.released;
    SplitFirst(s.released, c);
  }

  /** Re-associating a chain around its first node after a prefix. */
  lemma SplitFirst<T>(a: seq<Cell<T>>, c: seq<Cell<T>>)
    requires |c| > 0
    ensures a + c == a + [c[0]] + c[1..]
  {
    assert c == [c[0]] + c[1..];
  }

  /** Unlinking an unmarked first node drops the first live value. */
  lemma PopLive<T>(c: seq<Cell<T>>)
    requires |c| > 0 && !c[0].marked
    ensures Live(c) != [] && Live(c)[0] == c[0].value && Live(c[1..]) == Live(c)[1..]
  {
  }

  /** `pop_front` keeps `_size` in step with the nodes it releases, and so
      with the chain. */
  lemma PopFrontKeepsValid<T>(q: Queue<T>)
    ensures var r := PopFront(q);
      && r.queue.size == (q.size - |r.released|) % SizeModulus
      && (SizeTracksChain(q) ==> SizeTracksChain(r.queue))
  {
    SearchIsFrontSearched(q);
    PopAfterKeepsValid(q, Search(q, true));
  }

  lemma PopAfterKeepsValid<T>(q: Queue<T>, s: SearchResult<T>)
    requires FrontSearched(q, s)
    ensures var r := PopAfter(s);
      && r.queue.size == (q.size - |r.released|) % SizeModulus
      && (SizeTracksChain(q) ==> SizeTracksChain(r.queue))
  {
    PopAfterCases(q, s);
    var r := PopAfter(s);
    if s.right.Node? {
      ModSub(q.size - |s.released|, 1, SizeModulus);
    }
    ReleaseKeepsCount(q, |r.released|, r.queue.size, r.queue.chain);
  }

  /** On a quiescent queue `pop_front` removes exactly the first node, or
      changes nothing when there is none. */
  lemma PopFrontQuiescent<T>(q: Queue<T>)
    requires Quiescent(q)
    ensures var r := PopFront(q);
      && Quiescent(r.queue)
      && (!r.removed ==> r.queue == q && r.released == [])
      && (r.removed ==> r.queue.chain == q.chain[1..] && r.released == [Cell(q.chain[0].value, true)])
  {
    SearchIsFrontSearched(q);
    PopAfterCases(q, Search(q, true));
  }

  // ---------------------------------------------------------------------------
  // pop_front when the unlink fails

  /** `pop_front()` with the outcome of the unlink CAS C4 as a parameter.
      C4 is a `compare_exchange_weak`, which may fail even when nothing else
      runs. As written, a failed C4 is followed by `search(left, false)`,
      which (ignoring its start node) is a back search from the head, and
      the result is whether that search's `right` is non-null: never, so a
      pop that has already marked a node reports that it removed nothing. */
  function PopFrontAsWritten<T>(q: Queue<T>, c4Fails: bool): (r: PopResult<T>)
    ensures c4Fails ==> !r.removed
  {
    SearchFromFront(q);
    var s := Search(q, true);
    if s.right == Null || !c4Fails then PopAfter(s)
    else
      var m := MarkRight(s);
      SearchFromBack(m);
      var retry := Search(m, false);
      PopResult(retry.queue, retry.right != Null, s.released + retry.released)
  }

  /** `pop_front()` as evidently intended: after a failed C4 the marked node
      is unlinked by a front search from the head, which releases it, and
      the pop reports the removal it made at C3. It reports a removal
      exactly when there was a live value, whatever C4 does. */
  function PopFrontCorrected<T>(q: Queue<T>, c4Fails: bool): (r: PopResult<T>)
    ensures r.removed <==> Live(q.chain) != []
  {
    SearchFromFront(q);
    var s := Search(q, true);
    if s.right == Null || !c4Fails then PopAfter(s)
    else
      var retry := Search(MarkRight(s), true);
      PopResult(retry.queue, true, s.released + retry.released)
  }

  /** When C4 succeeds both versions are the `pop_front` of the rest of the model. */
  lemma PopFrontVersionsAgree<T>(q: Queue<T>)
    ensures PopFrontAsWritten(q, false) == PopFront(q)
    ensures PopFrontCorrected(q, false) == PopFront(q)
  {
  }

  /** After a front search that found a live node, C3 marks the chain's
      first node, which holds the first live value; the live values that
      remain are the old ones but the first. */
  lemma MarkedFront<T>(q: Queue<T>, s: SearchResult<T>)
    requires FrontSearched(q, s) && s.right.Node?
    ensures var c, m := s.queue.chain, MarkRight(s);
      && |c| > 0
      && m.chain == [c[0].(marked := true)] + c[1..]
      && m.size == s.queue.size
      && Live(m.chain) == Live(q.chain)[1..]
  {
    var c := s.queue.chain;
    var m := MarkRight(s).chain;
    assert m == [c[0].(marked := true)] + c[1..];
    assert m[1..] == c[1..];
    PopLive(c);
  }

  /** As written, a pop whose C4 fails reports no removal although the
      first live value is gone. */
  lemma PopFrontAsWrittenLosesValue<T>(q: Queue<T>)
    requires Live(q.chain) != []
    ensures var r := PopFrontAsWritten(q, true);
      !r.removed && Live(r.queue.chain) == Live(q.chain)[1..]
  {
    SearchIsFrontSearched(q);
    SearchFromFront(q);
    var s := Search(q, true);
    MarkedFront(q, s);
    SearchKeepsLive(MarkRight(s), false);
  }

  /** As written, on a valid queue of two or more nodes a pop whose C4 fails
      leaves the marked node linked in front of live ones, so the next
      `size()` trips its first assertion. */
  lemma PopFrontAsWrittenStrandsMarked<T>(q: Queue<T>)
    requires Valid(q) && |q.chain| >= 2
    ensures Size(PopFrontAsWritten(q, true).queue) == Failure(RemovedNodeReachable)
  {
    SearchIsFrontSearched(q);
    SearchFromFront(q);
    StrandedAfterRetry(q, Search(q, true));
  }

  /** The back search after a failed C4 leaves the marked node in place. */
  lemma StrandedAfterRetry<T>(q: Queue<T>, s: SearchResult<T>)
    requires Valid(q) && |q.chain| >= 2 && FrontSearched(q, s) && s.right.Node?
    ensures !Quiescent(Search(MarkRight(s), false).queue)
  {
    MarkedFront(q, s);
    var m := MarkRight(s);
    assert m.chain[|m.chain| - 1] == q.chain[|q.chain| - 1];
    BackSearchKeepsLiveTail(m);
    assert Search(m, false).queue.chain[0].marked;
  }

  /** A back search over a chain whose last node is unmarked releases
      nothing and leaves the chain as it is. */
  lemma BackSearchKeepsLiveTail<T>(m: Queue<T>)
    requires |m.chain| > 0 && !m.chain[|m.chain| - 1].marked
    ensures Search(m, false).queue.chain == m.chain
  {
    SearchFromBack(m);
    SearchUnlinksMarkedRun(m, false);
    var r := Search(m, false);
    if |r.released| > 0 {
      assert false;
    }
    assert m.chain == r.queue.chain + [];
  }

  /** A front search over a chain whose only marked node is its first
      unlinks and releases exactly that node. */
  lemma RetryUnlinksMarkedFront<T>(m: Queue<T>, s: SearchResult<T>)
    requires FrontSearched(m, s)
    requires |m.chain| > 0 && m.chain[0].marked
    requires forall j :: 1 <= j < |m.chain| ==> !m.chain[j].marked
    ensures s.released == [m.chain[0]] && s.queue.chain == m.chain[1..]
  {
    assert |m.chain| < 2 || !m.chain[1].marked;
    if |s.released| != 1 {
      assert false;
    }
    assert m.chain == [m.chain[0]] + m.chain[1..];
  }

  /** The corrected pop removes the first live value, whatever C4 does,
      and changes no live value when there is none. */
  lemma PopFrontCorrectedTakesFirst<T>(q: Queue<T>, c4Fails: bool)
    ensures var s := Live(q.chain);
      Live(PopFrontCorrected(q, c4Fails).queue.chain) == if s == [] then s else s[1..]
  {
    SearchIsFrontSearched(q);
    SearchFromFront(q);
    var s := Search(q, true);
    if s.right.Node? && c4Fails {
      MarkedFront(q, s);
      SearchKeepsLive(MarkRight(s), true);
    } else if s.right.Node? {
      PopFrontTakesFirst(q);
    }
  }

  /** The corrected pop keeps a valid queue valid, whatever C4 does: the
      marked node is unlinked and released and `_size` counts it out. */
  lemma PopFrontCorrectedKeepsValid<T>(q: Queue<T>, c4Fails: bool)
    requires Valid(q)
    ensures Valid(PopFrontCorrected(q, c4Fails).queue)
  {
    SearchIsFrontSearched(q);
    SearchFromFront(q);
    var s := Search(q, true);
    if s.right.Node? && c4Fails {
      RetryKeepsValid(q, s);
    } else {
      PopFrontQuiescent(q);
      PopFrontKeepsValid(q);
    }
  }

  /** The retry search after a failed C4 releases just the marked node. */
  lemma RetryKeepsValid<T>(q: Queue<T>, s: SearchResult<T>)
    requires Valid(q) && FrontSearched(q, s) && s.right.Node?
    ensures Valid(Search(MarkRight(s), true).queue)
  {
    MarkedFront(q, s);
    RetryOnMarkedFront(q, MarkRight(s));
  }

  /** The retry's front search, on the valid queue with its first node marked. */
  lemma RetryOnMarkedFront<T>(q: Queue<T>, m: Queue<T>)
    requires Valid(q) && |q.chain| > 0
    requires m.chain == [q.chain[0].(marked := true)] + q.chain[1..] && m.size == q.size
    ensures Valid(Search(m, true).queue)
  {
    var retry := Search(m, true);
    assert FrontSearched(m, retry) by { SearchIsFrontSearched(m); }
    assert m.chain[1..] == q.chain[1..];
    RetryUnlinksMarkedFront(m, retry);
    ReleaseKeepsCount(q, 1, retry.queue.size, q.chain[1..]);
  }

  /** What `front` did: the new queue (its front search may unlink marked
      nodes), the value it returns, and the nodes it released. */
  datatype Peek<T> = Peek(queue: Queue<T>, front: Option<T>, released: seq<Cell<T>>)

  /** `front()`: a front search, then the value of right, if any: the first
      live value, or none when there is no live value. */
  function Front<T>(q: Queue<T>): (r: Peek<T>)
    ensures r.front == if Live(q.chain) == [] then None else Some(Live(q.chain)[0])
  {
    SearchFromFront(q);
    var s := Search(q, true);
    Peek(s.queue, if s.right == Null then None else Some(s.queue.chain[s.right.index].value), s.released)
  }

  /** `front` removes no live value: it only unlinks, and releases, marked
      nodes at the front of the chain, and keeps `_size` in step. */
  lemma FrontKeepsValues<T>(q: Queue<T>)
    ensures var r := Front(q);
      && Live(r.queue.chain) == Live(q.chain)
      && q.chain == r.released + r.queue.chain
      && (forall i :: 0 <= i < |r.released| ==> r.released[i].marked)
      && (SizeTracksChain(q) ==> SizeTracksChain(r.queue))
      && (Quiescent(q) ==> r.queue == q && r.released == [])
  {
    SearchIsFrontSearched(q);
    var s := Search(q, true);
    assert Front(q).queue == s.queue && Front(q).released == s.released;
    ReleaseKeepsCount(q, |s.released|, s.queue.size, s.queue.chain);
  }

  /** The two assertions of `size()`. */
  datatype SizeFault = RemovedNodeReachable | CountMismatch

  /** The counting loop of `size()`, from chain index `i` with `count` nodes seen. */
  function CountNodes<T>(c: seq<Cell<T>>, i: nat, count: Counter): (r: Result<Counter, SizeFault>)
    requires i <= |c|
    requires count == i % SizeModulus
    ensures r.Success? <==> forall j :: i <= j < |c| ==> !c[j].marked
    ensures r.Success? ==> r.value == |c| % SizeModulus
    ensures r.Failure? ==> r.error == RemovedNodeReachable
    decreases |c| - i
  {
    if i == |c| then Success(count)
    else if c[i].marked then Failure(RemovedNodeReachable)
    else
      ModAdd(i, 1, SizeModulus);
      CountNodes(c, i + 1, Increment(count))
  }

  /** `size()`: counts the linked nodes, asserting that none is logically
      removed and that the count agrees with `_size`. It succeeds exactly on
      valid queues, and then returns the number of live values. */
  function Size<T>(q: Queue<T>): (r: Result<Counter, SizeFault>)
    ensures r.Success? <==> Valid(q)
    ensures r.Success? ==> r.value == q.size == |Live(q.chain)| % SizeModulus
    ensures !Quiescent(q) ==> r == Failure(RemovedNodeReachable)
    ensures Quiescent(q) && !SizeTracksChain(q) ==> r == Failure(CountMismatch)
  {
    match CountNodes(q.chain, 0, 0)
    case Failure(e) => Failure(e)
    case Success(n) =>
      if n != q.size then Failure(CountMismatch)
      else
        LiveOfUnmarked(q.chain);
        Success(n)
  }

  /** `empty()`: only asks whether the head has a successor. Such a queue
      holds no live value; the converse needs the queue to be quiescent
      (see EmptyIgnoresMarkedNodes). */
  function IsEmpty<T>(q: Queue<T>): (r: bool)
    ensures r ==> Live(q.chain) == []
    ensures Quiescent(q) ==> (r <==> Live(q.chain) == [])
  {
    assert Quiescent(q) && q.chain != [] ==> Live(q.chain) != [] by {
      if Quiescent(q) && q.chain != [] {
        LiveOfUnmarked(q.chain);
      }
    }
    q.chain == []
  }

  /** A chain holding only a logically removed node has no live value, yet
      `empty()` reports it non-empty. */
  lemma EmptyIgnoresMarkedNodes<T>(v: T)
    ensures var q := Queue([Cell(v, true)], 1);
      !IsEmpty(q) && Live(q.chain) == [] && Front(q).front == None
  {
    assert Live([Cell(v, true)]) == [];
  }

  /** The loop of `clear()`: every linked node goes to `onNodeRemoved`, marked or not. */
  function ReleaseEach<T>(size: Counter, nodes: seq<Cell<T>>): (r: (Counter, seq<Cell<T>>))
    ensures r.1 == nodes
    ensures r.0 == (size - |nodes|) % SizeModulus
    decreases |nodes|
  {
    if nodes == [] then (size, [])
    else
      var (last, rest) := ReleaseEach(OnNodeRemoved(size), nodes[1..]);
      ModSub(size - 1, |nodes| - 1, SizeModulus);
      assert [nodes[0]] + nodes[1..] == nodes;
      (last, [nodes[0]] + rest)
  }

  /** `clear()`: every node is handed to `onNodeRemoved` once, in chain order;
      then the head has no successor and `_size` is zero, so `empty()` holds. */
  function Clear<T>(q: Queue<T>): (r: Step<T>)
    ensures r.released == q.chain
    ensures IsEmpty(r.queue) && Live(r.queue.chain) == []
    ensures Valid(r.queue) && Size(r.queue) == Success(0)
  {
    var (_, released) := ReleaseEach(q.size, q.chain);
    // the head loses its successor and the count restarts at zero
    Step(Queue([], 0), released)
  }

  // ---------------------------------------------------------------------------
  // The mutex build, for comparison

  /** `push_back` of the mutex build: walk to the last node, link after it. */
  function LockedPushBack<T>(q: Queue<T>, v: T): (r: Queue<T>)
    ensures Live(r.chain) == Live(q.chain) + [v]
    ensures Quiescent(q) ==> Quiescent(r)
    ensures SizeTracksChain(q) ==> SizeTracksChain(r)
  {
    LiveAppend(q.chain, [Cell(v, false)]);
    Queue(q.chain + [Cell(v, false)], Increment(q.size))
  }

  /** `pop_front` of the mutex build: unlink the head's successor, no marking. */
  function LockedPopFront<T>(q: Queue<T>): (r: PopResult<T>)
    ensures r.removed <==> q.chain != []
    ensures !r.removed ==> r.queue == q && r.released == []
    ensures r.removed ==> r.released == [q.chain[0]] && |r.queue.chain| + 1 == |q.chain|
    ensures Quiescent(q) ==> Quiescent(r.queue) && Live(r.queue.chain) == if r.removed then Live(q.chain)[1..] else Live(q.chain)
    ensures SizeTracksChain(q) ==> SizeTracksChain(r.queue)
  {
    if q.chain == [] then PopResult(q, false, [])
    else PopResult(Queue(q.chain[1..], OnNodeRemoved(q.size)), true, [q.chain[0]])
  }

  /** On a quiescent queue the lock-free `push_back` does what the mutex
      build's does: append an unmarked node and count it. */
  lemma PushMatchesLocked<T>(q: Queue<T>, v: T)
    requires Quiescent(q)
    ensures PushBack(q, v) == Step(LockedPushBack(q, v), [])
  {
    PushBackQuiescent(q, v);
    PushBackKeepsValid(q, v);
  }

  /** On a quiescent queue the lock-free `pop_front` does what the mutex
      build's does: the same queue afterwards, the same return value, and
      the same node, now marked, handed to `onNodeRemoved`. */
  lemma PopMatchesLocked<T>(q: Queue<T>)
    requires Quiescent(q)
    ensures var r, l := PopFront(q), LockedPopFront(q);
      && r.queue == l.queue && r.removed == l.removed
      && r.released == if l.removed then [l.released[0].(marked := true)] else []
  {
    SearchIsFrontSearched(q);
    PopAfterMatchesLocked(q, Search(q, true));
  }

  lemma PopAfterMatchesLocked<T>(q: Queue<T>, s: SearchResult<T>)
    requires Quiescent(q) && FrontSearched(q, s)
    ensures var r, l := PopAfter(s), LockedPopFront(q);
      && r.queue == l.queue && r.removed == l.removed
      && r.released == if l.removed then [l.released[0].(marked := true)] else []
  {
    PopAfterCases(q, s);
  }
}
