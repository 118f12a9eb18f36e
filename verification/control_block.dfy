/** The node control block: one 64-bit word (`uintptr_t everything`) whose
    bit fields are, from the least significant bit up,
      - `marker`   (1 bit): 1 when the node is logically removed;
      - `nextPtr`  (numPtrBits bits): the successor's address shifted right by one;
      - `refCount` (numRefCountBits bits, signed): only in the reference-counted build.
    The layout is parameterised by k = numRefCountBits: 0 in the mutex and
    plain lock-free builds, 16 in the reference-counted build.

    Words are modelled as naturals below 2^64; `Fields` is the bit-field
    struct view of the union and `Encode`/`Decode` move between the two. */
module ControlBlock {
  import opened Bits
  import opened Outcomes

  /** Width of `uintptr_t`. */
  const WordBits: nat := 64
  /** numMarkerBits */
  const MarkerBits: nat := 1

  /** The build-time selector SYNC_RECL_METHOD. */
  datatype Strategy =
    | LockedDelete  // 0: one mutex, nodes deleted as soon as they are unlinked
    | RefCounted    // 1: lock-free, reference-counted
    | Unreclaimed   // 2: lock-free, nodes never freed

  /** Widths a reference count may have: the marker and at least one pointer bit must still fit. */
  type RefWidth = k: nat | k <= WordBits - MarkerBits - 1

  /** numRefCountBits for a build. */
  function RefCountBits(s: Strategy): RefWidth
  {
    if s.RefCounted? then 16 else 0
  }

  /** numPtrBits */
  function PtrBits(k: RefWidth): nat
  {
    WordBits - k - MarkerBits
  }

  /** 2^64, the number of `uintptr_t` values. */
  const WordLimit: nat := 0x1_0000_0000_0000_0000

  /** 2^48, the size of the virtual address space the reference-counted
      build assumes. */
  const AddressLimit: nat := 0x1_0000_0000_0000

  /** The two limits are the powers of two they stand for. */
  lemma LimitsArePowers()
    ensures Pow2(WordBits) == WordLimit
    ensures Pow2(48) == AddressLimit
  {
    Pow2Of64();
    Pow2Of48();
  }

  /** Values of `uintptr_t`. */
  type Word = w: nat | w < WordLimit

  /** The raw bit contents of the three fields. */
  datatype Fields = Fields(marker: nat, nextPtr: nat, refBits: nat)

  /** Every field fits in its width. */
  predicate FitsLayout(k: RefWidth, f: Fields)
  {
    f.marker < 2 && f.nextPtr < Pow2(PtrBits(k)) && f.refBits < Pow2(k)
  }

  /** Offset of the reference-count field. */
  function RefShift(k: RefWidth): nat
  {
    MarkerBits + PtrBits(k)
  }

  /** The three widths fill the word. */
  lemma LayoutFillsWord(k: RefWidth)
    ensures Pow2(RefShift(k)) == 2 * Pow2(PtrBits(k))
    ensures WordLimit == Pow2(RefShift(k)) * Pow2(k)
  {
    LimitsArePowers();
    Pow2Add(RefShift(k), k);
  }

  /** Packing fields that fit their widths yields a 64-bit word from which
      each field reads back unchanged. */
  lemma EncodeFields(k: RefWidth, f: Fields)
    requires FitsLayout(k, f)
    ensures var x := f.marker + 2 * f.nextPtr + Pow2(RefShift(k)) * f.refBits;
      && x < WordLimit
      && x % 2 == f.marker
      && (x / 2) % Pow2(PtrBits(k)) == f.nextPtr
      && x / Pow2(RefShift(k)) == f.refBits
  {
    LayoutFillsWord(k);
    PackThree(f.marker, f.nextPtr, f.refBits, Pow2(PtrBits(k)), Pow2(RefShift(k)), Pow2(k));
  }

  /** Every 64-bit word is the packing of its three fields, and the top
      field fits its width. */
  lemma DecodeFields(k: RefWidth, w: Word)
    ensures w / Pow2(RefShift(k)) < Pow2(k)
    ensures w == w % 2 + 2 * ((w / 2) % Pow2(PtrBits(k))) + Pow2(RefShift(k)) * (w / Pow2(RefShift(k)))
  {
    LayoutFillsWord(k);
    UnpackThree(w, Pow2(PtrBits(k)), Pow2(RefShift(k)), Pow2(k));
  }

  /** The top field of a 64-bit word fits its width. */
  lemma TopFieldFits(k: RefWidth, w: Word)
    ensures 0 <= w / Pow2(RefShift(k)) < Pow2(k)
    ensures 0 <= (w / 2) % Pow2(PtrBits(k)) < Pow2(PtrBits(k))
  {
    DecodeFields(k, w);
    DivModBounds(w, Pow2(RefShift(k)));
    DivModBounds(w / 2, Pow2(PtrBits(k)));
  }

  /** The union's `everything` view of a struct value. */
  function Encode(k: RefWidth, f: Fields): (w: Word)
    requires FitsLayout(k, f)
    ensures Decode(k, w) == f
  {
    EncodeFields(k, f);
    f.marker + 2 * f.nextPtr + Pow2(RefShift(k)) * f.refBits
  }

  /** The union's struct view of a word. */
  function Decode(k: RefWidth, w: Word): (f: Fields)
    ensures FitsLayout(k, f)
  {
    TopFieldFits(k, w);
    Fields(w % 2, (w / 2) % Pow2(PtrBits(k)), w / Pow2(RefShift(k)))
  }

  /** A word is determined by its fields: re-packing the struct view gives the word back. */
  lemma EncodeDecode(k: RefWidth, w: Word)
    ensures Encode(k, Decode(k, w)) == w
  {
    DecodeFields(k, w);
  }

  /** Two words with the same fields are the same word; so comparing whole
      words, as compare-and-swap does, compares all three fields at once. */
  lemma SameFieldsSameWord(k: RefWidth, a: Word, b: Word)
    ensures Decode(k, a) == Decode(k, b) <==> a == b
  {
    EncodeDecode(k, a);
    EncodeDecode(k, b);
  }

  // ---------------------------------------------------------------------------
  // Field accessors

  function Marker(k: RefWidth, w: Word): nat { Decode(k, w).marker }

  function NextPtr(k: RefWidth, w: Word): nat { Decode(k, w).nextPtr }

  function RefBits(k: RefWidth, w: Word): nat { Decode(k, w).refBits }

  /** `node_pack_next` stored into the `nextPtr` bit field, which keeps only
      its low numPtrBits bits. */
  function PackNext(k: RefWidth, address: nat): (p: nat)
    ensures p < Pow2(PtrBits(k))
  {
    (address / 2) % Pow2(PtrBits(k))
  }

  /** Addresses the `nextPtr` field can hold exactly: the low bit is zero and
      the address fits in numPtrBits + 1 bits. */
  predicate Storable(k: RefWidth, address: nat)
  {
    address % 2 == 0 && address < Pow2(PtrBits(k) + 1)
  }

  /** `node_unpack_next` on a packed field. */
  function UnpackNext(packed: nat): nat
  {
    2 * packed
  }

  /** The next-pointer round trip: unpacking a packed address gives it back
      exactly when the address is storable. */
  lemma PackUnpack(k: RefWidth, address: nat)
    ensures UnpackNext(PackNext(k, address)) == address <==> Storable(k, address)
  {
    var P := Pow2(PtrBits(k));
    if Storable(k, address) {
      ModSmall(address / 2, P);
    }
  }

  /** `next()`: the successor address a control word holds. Every such
      address is storable. */
  function Next(k: RefWidth, w: Word): (address: nat)
    ensures Storable(k, address)
  {
    UnpackNext(NextPtr(k, w))
  }

  /** `next(n)`: retarget `nextPtr`. The marker and the reference count are
      untouched, and the stored successor reads back as the given address
      exactly when that address is storable. */
  function SetNext(k: RefWidth, w: Word, address: nat): (r: Word)
    ensures Marker(k, r) == Marker(k, w)
    ensures RefBits(k, r) == RefBits(k, w)
    ensures Next(k, r) == address <==> Storable(k, address)
  {
    PackUnpack(k, address);
    Encode(k, Decode(k, w).(nextPtr := PackNext(k, address)))
  }

  /** The expected word a compare-and-swap is issued with (the loaded word
      with `nextPtr` set to the successor the caller believes in) equals the
      current word exactly when that belief is right. So when the operation
      runs alone, the unlink and link CASes of search, push_back and
      pop_front can fail only spuriously. */
  lemma ExpectedMatchesCurrent(k: RefWidth, w: Word, address: nat)
    requires Storable(k, address)
    ensures SetNext(k, w, address) == w <==> Next(k, w) == address
  {
    var r := SetNext(k, w, address);
    SameFieldsSameWord(k, r, w);
    if Next(k, w) == address {
      PackUnpack(k, address);
      assert Decode(k, r) == Decode(k, w);
    }
  }

  /** `logicallyRemoved()` */
  predicate LogicallyRemoved(k: RefWidth, w: Word)
  {
    Marker(k, w) == 1
  }

  /** The logical deletion of pop_front: `marker := 1`, successor and
      reference count unchanged. */
  function Mark(k: RefWidth, w: Word): (r: Word)
    ensures LogicallyRemoved(k, r)
    ensures NextPtr(k, r) == NextPtr(k, w) && Next(k, r) == Next(k, w)
    ensures RefBits(k, r) == RefBits(k, w)
  {
    Encode(k, Decode(k, w).(marker := 1))
  }

  /** `allocAligned` returns 8-byte aligned addresses. */
  predicate Aligned(address: nat)
  {
    address % 8 == 0
  }

  /** An aligned 64-bit address is storable in the builds without a
      reference count; with one, it must also lie in the 48-bit virtual
      address space the reference-counted layout assumes. */
  lemma AlignedIsStorable(s: Strategy, address: nat)
    requires Aligned(address) && address < WordLimit
    requires s.RefCounted? ==> address < AddressLimit
    ensures Storable(RefCountBits(s), address)
  {
    LimitsArePowers();
  }

  /** The alignment test of the sharedNode test case: clearing the low three
      bits with `(value >> 3) << 3` leaves the address unchanged. */
  function AlignmentCheck(address: nat): (ok: bool)
    ensures ok <==> Aligned(address)
  {
    (address / 8) * 8 == address
  }

  // ---------------------------------------------------------------------------
  // The signed reference count of the reference-counted build

  /** Widths that carry a signed reference count able to hold 1. */
  type CountWidth = k: RefWidth | k >= 2 witness 2

  /** Largest and smallest value of a signed k-bit field. */
  function MaxRefCount(k: CountWidth): int { Pow2(k - 1) - 1 }

  function MinRefCount(k: CountWidth): int { 0 - Pow2(k - 1) }

  /** Reading an `int` bit field: two's complement of its raw bits. */
  function ToSigned(k: CountWidth, raw: nat): int
  {
    if raw < Pow2(k - 1) then raw else raw - Pow2(k)
  }

  /** Writing an `int` bit field keeps the value modulo 2^k. */
  function FromSigned(k: CountWidth, v: int): nat
  {
    v % Pow2(k)
  }

  /** Reading back a written value gives it unchanged when it is in range. */
  lemma SignedRoundTrip(k: CountWidth, v: int)
    requires MinRefCount(k) <= v <= MaxRefCount(k)
    ensures FromSigned(k, v) < Pow2(k)
    ensures ToSigned(k, FromSigned(k, v)) == v
  {
    var H := Pow2(k - 1);
    assert Pow2(k) == 2 * H;
    if v >= 0 {
      ModSmall(v, Pow2(k));
    } else {
      DivModUnique(v, Pow2(k), -1, v + Pow2(k));
    }
  }

  /** Writing back the value read from raw bits gives the same raw bits. */
  lemma RawRoundTrip(k: CountWidth, raw: nat)
    requires raw < Pow2(k)
    ensures FromSigned(k, ToSigned(k, raw)) == raw
    ensures MinRefCount(k) <= ToSigned(k, raw) <= MaxRefCount(k)
  {
    var H := Pow2(k - 1);
    assert Pow2(k) == 2 * H;
    if raw < H {
      ModSmall(raw, Pow2(k));
    } else {
      DivModUnique(raw - Pow2(k), Pow2(k), -1, raw);
    }
  }

  /** `refCount` of a control word. */
  function RefCount(k: CountWidth, w: Word): (c: int)
    ensures MinRefCount(k) <= c <= MaxRefCount(k)
  {
    RawRoundTrip(k, RefBits(k, w));
    ToSigned(k, RefBits(k, w))
  }

  /** `newBlock.refCount += 1` or `-= 1`: the new value is written back into
      the bit field, wrapping modulo 2^k. */
  function AdjustRefCount(k: CountWidth, w: Word, delta: int): (r: Word)
    ensures Marker(k, r) == Marker(k, w) && NextPtr(k, r) == NextPtr(k, w)
    ensures RefBits(k, r) == FromSigned(k, RefCount(k, w) + delta)
  {
    Encode(k, Decode(k, w).(refBits := FromSigned(k, RefCount(k, w) + delta)))
  }

  /** Writing a value one step outside the range and reading it back wraps
      it around to the other end; values inside the range come back unchanged. */
  lemma WrapSigned(k: CountWidth, v: int)
    requires MinRefCount(k) - 1 <= v <= MaxRefCount(k) + 1
    ensures ToSigned(k, FromSigned(k, v)) ==
      if v > MaxRefCount(k) then MinRefCount(k)
      else if v < MinRefCount(k) then MaxRefCount(k)
      else v
  {
    var H := Pow2(k - 1);
    assert Pow2(k) == 2 * H;
    if v > MaxRefCount(k) {
      DivModUnique(v, Pow2(k), 0, v);
    } else if v < MinRefCount(k) {
      DivModUnique(v, Pow2(k), -1, v + Pow2(k));
    } else {
      SignedRoundTrip(k, v);
    }
  }

  /** `addRef`: the reference count goes up by one (wrapping from the
      largest value to the smallest), nothing else changes. */
  function AddRef(k: CountWidth, w: Word): (r: Word)
    ensures Marker(k, r) == Marker(k, w) && NextPtr(k, r) == NextPtr(k, w)
    ensures RefCount(k, w) < MaxRefCount(k) ==> RefCount(k, r) == RefCount(k, w) + 1
    ensures RefCount(k, w) == MaxRefCount(k) ==> RefCount(k, r) == MinRefCount(k)
  {
    WrapSigned(k, RefCount(k, w) + 1);
    AdjustRefCount(k, w, 1)
  }

  /** The `assert( rc >= 0 )` in `decRef`. */
  datatype RefCountFault = NegativeRefCount

  /** A successful `decRef`: the new word, and whether the count reached
      exactly zero, which is where the (disabled) deletion would happen. */
  datatype Released = Released(word: Word, atZero: bool)

  /** `decRef`: the reference count goes down by one, nothing else changes,
      and the result is never negative: a decrement that would read back
      negative trips the assertion instead. */
  function DecRef(k: CountWidth, w: Word): (r: Result<Released, RefCountFault>)
    ensures r.Success? <==> RefCount(k, w) >= 1 || RefCount(k, w) == MinRefCount(k)
    ensures r.Success? ==> RefCount(k, r.value.word) >= 0
    ensures r.Success? ==> Marker(k, r.value.word) == Marker(k, w)
    ensures r.Success? ==> NextPtr(k, r.value.word) == NextPtr(k, w)
    ensures RefCount(k, w) >= 1 ==> RefCount(k, r.value.word) == RefCount(k, w) - 1
    ensures r.Success? ==> (r.value.atZero <==> RefCount(k, w) == 1)
    ensures RefCount(k, w) == MinRefCount(k) ==> RefCount(k, r.value.word) == MaxRefCount(k)
  {
    var before := RefCount(k, w);
    WrapSigned(k, before - 1);
    var next := AdjustRefCount(k, w, -1);
    var rc := RefCount(k, next);
    assert rc == if before == MinRefCount(k) then MaxRefCount(k) else before - 1;
    if rc < 0 then Failure(NegativeRefCount) else Success(Released(next, rc == 0))
  }

  /** A release undoes an acquire: starting from a non-negative count below
      the maximum, `decRef(addRef(w))` gives `w` back. */
  lemma DecRefUndoesAddRef(k: CountWidth, w: Word)
    requires 0 <= RefCount(k, w) < MaxRefCount(k)
    ensures DecRef(k, AddRef(k, w)) == Success(Released(w, RefCount(k, w) == 0))
  {
    var up := AddRef(k, w);
    var down := DecRef(k, up).value.word;
    RawRoundTrip(k, RefBits(k, w));
    assert RefBits(k, down) == RefBits(k, w);
    assert Decode(k, down) == Decode(k, w);
    SameFieldsSameWord(k, down, w);
  }

  /** n acquisitions. */
  function AddRefs(k: CountWidth, w: Word, n: nat): Word
  {
    if n == 0 then w else AddRef(k, AddRefs(k, w, n - 1))
  }

  /** n releases, stopping at the first failed assertion. */
  function DecRefs(k: CountWidth, w: Word, n: nat): Result<Word, RefCountFault>
    decreases n
  {
    if n == 0 then Success(w)
    else match DecRef(k, w)
      case Failure(e) => Failure(e)
      case Success(d) => DecRefs(k, d.word, n - 1)
  }

  /** n acquisitions from a non-negative count raise it by n when no wrap occurs. */
  lemma {:induction false} AddRefsCount(k: CountWidth, w: Word, n: nat)
    requires 0 <= RefCount(k, w) && RefCount(k, w) + n <= MaxRefCount(k)
    ensures RefCount(k, AddRefs(k, w, n)) == RefCount(k, w) + n
  {
    if n > 0 {
      AddRefsCount(k, w, n - 1);
    }
  }

  /** Balanced acquire/release: n acquisitions followed by n releases give
      back the original word, so the count returns to where it started. */
  lemma {:induction false} BalancedRefCounting(k: CountWidth, w: Word, n: nat)
    requires 0 <= RefCount(k, w) && RefCount(k, w) + n <= MaxRefCount(k)
    ensures DecRefs(k, AddRefs(k, w, n), n) == Success(w)
  {
    if n > 0 {
      var before := AddRefs(k, w, n - 1);
      AddRefsCount(k, w, n - 1);
      DecRefUndoesAddRef(k, before);
      BalancedRefCounting(k, w, n - 1);
    }
  }

  /** `defaultControlBlock()`: the control block of a fresh node. */
  function DefaultControlBlock(s: Strategy): (w: Word)
    ensures Marker(RefCountBits(s), w) == 0
    ensures Next(RefCountBits(s), w) == 0
    ensures s.RefCounted? ==> RefCount(RefCountBits(s), w) == 1
  {
    var k := RefCountBits(s);
    if s.RefCounted? then
      FreshCounted(k);
      Encode(k, Fields(0, 0, 1))
    else
      FreshUncounted(k);
      0
  }

  /** The zero word has all three fields zero. */
  lemma FreshUncounted(k: RefWidth)
    ensures Decode(k, 0) == Fields(0, 0, 0)
  {
    EncodeFields(k, Fields(0, 0, 0));
  }

  /** The fresh control block of the reference-counted build is unmarked,
      has a null successor and holds one reference. */
  lemma FreshCounted(k: CountWidth)
    ensures FitsLayout(k, Fields(0, 0, 1))
    ensures var w := Encode(k, Fields(0, 0, 1));
      Marker(k, w) == 0 && Next(k, w) == 0 && RefCount(k, w) == 1
  {
    assert Pow2(k) == 2 * Pow2(k - 1);
    ModSmall(1, Pow2(k));
  }

  /** The reference-count part of the sharedNode test case, on a node
      holding one reference: wrap the node (count 2), copy the wrapper (3),
      drop the copy (2), copy again (3), wrap the node once more (4), and
      drop all three wrappers (1). Every release succeeds, the counts read
      are the ones the test expects, and the node's control word ends
      exactly as it started. */
  method WrapperCounts(k: CountWidth, w0: Word) returns (counts: seq<int>, w: Word)
    requires RefCount(k, w0) == 1 && MaxRefCount(k) >= 4
    ensures counts == [1, 2, 3, 2, 3, 4, 1]
    ensures w == w0
  {
    var w1 := AddRef(k, w0);
    var w2 := AddRef(k, w1);
    var w3 := AddRef(k, w2);
    DecRefUndoesAddRef(k, w0);
    DecRefUndoesAddRef(k, w1);
    DecRefUndoesAddRef(k, w2);
    counts := [RefCount(k, w0)];
    w := AddRef(k, w0);                       // sn1(n)
    counts := counts + [RefCount(k, w)];
    w := AddRef(k, w);                        // sn2 = sn1
    counts := counts + [RefCount(k, w)];
    w := DecRef(k, w).value.word;             // sn2 leaves its scope
    counts := counts + [RefCount(k, w)];
    w := AddRef(k, w);                        // sn2(sn1)
    counts := counts + [RefCount(k, w)];
    w := AddRef(k, w);                        // sn3(n)
    counts := counts + [RefCount(k, w)];
    w := DecRef(k, w).value.word;             // sn3, sn2, sn1 leave their scope
    w := DecRef(k, w).value.word;
    w := DecRef(k, w).value.word;
    counts := counts + [RefCount(k, w)];
  }

  /** The sharedNode test case itself: a fresh node of the reference-counted build. */
  method SharedNodeCounts() returns (counts: seq<int>, w: Word)
    ensures counts == [1, 2, 3, 2, 3, 4, 1]
    ensures w == DefaultControlBlock(RefCounted)
  {
    var k: CountWidth := RefCountBits(RefCounted);
    Pow2Monotone(3, k - 1);
    counts, w := WrapperCounts(k, DefaultControlBlock(RefCounted));
  }
}
