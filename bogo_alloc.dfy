/** The bogo allocator `BogoAlloc`: a global allocator that takes one heap of
    2^SIZE bytes on its first call and then hands out pseudo-random, aligned
    addresses relative to that heap's base. One caller at a time. */
module Bogo {
  import opened Isize

  datatype Option<T> = None | Some(value: T)

  /** A WyRand generator instance. Its state and output are not modelled:
      each draw it would produce is passed to `Alloc` as a parameter. */
  datatype Rng = WyRand

  /** `std::alloc::Layout`: a size and a power-of-two alignment, the
      alignment kept as its base-2 exponent. */
  datatype Layout = Layout(size: nat, alignLog2: nat) {
    function Align(): int {
      Pow2(alignLog2)
    }

    /** Layout's own invariant: the size rounded up to the alignment does not
        exceed isize::MAX. */
    predicate Valid() {
      size <= MAX - (Align() - 1)
    }
  }

  /** `rand_addr`: the absolute value of a signed draw, reduced by `%` modulo
      the heap size (the size cast to isize). */
  function RandAddr(draw: int, size: int): (r: int)
    requires InRange(draw) && draw != MIN
    requires 0 < size <= MAX
    ensures 0 <= r < size
    ensures (Abs(draw) - r) % size == 0
  {
    Rem(Abs(draw), size)
  }

  /** The offset before alignment: a (non-negative) random address minus the
      request size, with isize's saturating subtraction. It never saturates:
      the difference stays above isize::MIN, so it is exact, and it is
      negative exactly when the request is larger than the address. */
  function PreOffset(randAddr: int, layout: Layout): (r: int)
    requires 0 <= randAddr <= MAX && layout.Valid()
    ensures r + layout.size == randAddr
    ensures r < 0 <==> layout.size > randAddr
  {
    SaturatingSub(randAddr, layout.size)
  }

  /** `(x + align - 1) & !(align - 1)` for the alignment 2^k, on
      two's-complement integers. The bitmask gives the arithmetic round-up
      floor((x + a - 1) / a) * a, for negative x too: the least multiple of
      the alignment that is not below x. */
  function AlignUp(x: int, k: nat): (r: int)
    ensures r == ((x + Pow2(k) - 1) / Pow2(k)) * Pow2(k)
    ensures r % Pow2(k) == 0
    ensures x <= r < x + Pow2(k)
  {
    var a := Pow2(k);
    var r := BitAnd(x + a - 1, BitNot(a - 1));
    assert BitNot(a - 1) == -a;
    BitAndClearsLowBits(x + a - 1, k);
    RoundDown(x + a - 1, a);
    r
  }

  /** The offset from the heap base that `alloc` returns: a multiple of the
      alignment in [randAddr - size, randAddr - size + align). The unaligned
      block [pre-offset, pre-offset + size) ends at the random address, while
      alignment may push it up by at most align - 1 bytes. The offset is
      negative exactly when the request is at least one alignment larger than
      the random address. */
  function Offset(randAddr: int, layout: Layout): (r: int)
    requires 0 <= randAddr <= MAX && layout.Valid()
    ensures r % layout.Align() == 0
    ensures randAddr - layout.size <= r < randAddr - layout.size + layout.Align()
    ensures r < 0 <==> layout.size >= randAddr + layout.Align()
  {
    var r := AlignUp(PreOffset(randAddr, layout), layout.alignLog2);
    NegativeMultiple(r, layout.Align());
    r
  }

  /** A valid layout has an alignment of at most 2^63. */
  lemma ValidLayoutAlign(layout: Layout)
    requires layout.Valid()
    ensures layout.alignLog2 <= 63
  {
    if layout.alignLog2 >= 64 {
      Pow2Monotone(64, layout.alignLog2);
      Pow2Top();
    }
  }

  /** The address `alloc` returns, `start + offset` wrapping as isize. It
      lies a multiple of the alignment away from the heap base, also when the
      addition wraps around; without wrapping it is exactly `start + offset`. */
  function Address(start: int, randAddr: int, layout: Layout): (r: int)
    requires 0 <= randAddr <= MAX && layout.Valid()
    ensures (r - start) % layout.Align() == 0
    ensures InRange(start + Offset(randAddr, layout)) ==>
              r == start + Offset(randAddr, layout)
  {
    var a, off := layout.Align(), Offset(randAddr, layout);
    var r := Wrap(start + off);
    ValidLayoutAlign(layout);
    Pow2DividesModulus(layout.alignLog2);
    MultipleMod(a, Pow2(64 - layout.alignLog2));
    DividesSum(a, MODULUS, off, r - (start + off));
    assert off + (r - (start + off)) == r - start;
    r
  }

  /** With a heap of 2^SIZE bytes (SIZE at most 62, so that the size fits an
      isize), every draw but isize::MIN gives an address in [0, 2^SIZE). */
  lemma RandAddrInRange(draw: int, sizeLog2: nat)
    requires sizeLog2 <= 62
    requires InRange(draw) && draw != MIN
    ensures Pow2(sizeLog2) <= MAX
    ensures 0 <= RandAddr(draw, Pow2(sizeLog2)) < Pow2(sizeLog2)
  {
    Pow2Monotone(sizeLog2, 62);
    Pow2Top();
  }

  /** A layout that can be passed to `alloc` (non-zero size) has an
      alignment of at most 2^62. */
  lemma AllocLayoutAlign(layout: Layout)
    requires layout.Valid() && layout.size > 0
    ensures layout.alignLog2 <= 62
    ensures layout.Align() <= Pow2(62)
  {
    Pow2Top();
    if layout.alignLog2 >= 63 {
      Pow2Monotone(63, layout.alignLog2);
    } else {
      Pow2Monotone(layout.alignLog2, 62);
    }
  }

  /** For a draw inside a heap of at most 2^62 bytes and an allocatable
      layout, none of the isize operations of `alloc`'s offset computation
      overflows: the alignment cast, `offset + align`, the `- 1` after it and
      the round-up all stay within isize. */
  lemma OffsetNoOverflow(randAddr: int, layout: Layout)
    requires 0 <= randAddr <= MAX && randAddr < Pow2(62)
    requires layout.Valid() && layout.size > 0
    ensures InRange(layout.Align())
    ensures InRange(PreOffset(randAddr, layout) + layout.Align())
    ensures InRange(PreOffset(randAddr, layout) + layout.Align() - 1)
    ensures InRange(Offset(randAddr, layout))
  {
    Pow2Top();
    AllocLayoutAlign(layout);
    assert PreOffset(randAddr, layout) == randAddr - layout.size;
  }

  /** Unless the addition wraps, the address lies below the heap base exactly
      when the request is at least one alignment larger than the random
      address: the saturating subtraction does not stop the offset at zero. */
  lemma OversizedRequestBelowStart(start: int, randAddr: int, layout: Layout)
    requires 0 <= randAddr <= MAX && layout.Valid()
    requires InRange(start + Offset(randAddr, layout))
    ensures Address(start, randAddr, layout) < start <==>
              layout.size >= randAddr + layout.Align()
  {
  }

  /** With a request larger than the random address but less than one
      alignment larger, the offset rounds up to zero and the address is the
      heap base itself (6 bytes aligned to 8 at random address 5, say). */
  lemma OversizedRequestAtStart(start: int, randAddr: int, layout: Layout)
    requires 0 <= randAddr <= MAX && layout.Valid() && InRange(start)
    requires randAddr < layout.size < randAddr + layout.Align()
    ensures Offset(randAddr, layout) == 0
    ensures Address(start, randAddr, layout) == start
  {
    var r, a := Offset(randAddr, layout), layout.Align();
    assert 0 <= r < a;
    DivUnique(r, a, 0, r);
  }

  /** A 16-byte heap (SIZE = 4) and a 20-byte request with alignment 1: every
      draw gives an offset between -20 and -5, so the address is below the
      base rather than clamped to it. */
  lemma SmallHeapOversizedRequest(draw: int)
    requires InRange(draw) && draw != MIN
    ensures -20 <= Offset(RandAddr(draw, Pow2(4)), Layout(20, 0)) <= -5
  {
    assert Pow2(4) == 16;
    assert Layout(20, 0).Align() == 1;
  }

  /** `BogoAlloc<SIZE>`: the allocator's four fields, plus a ghost count of
      the heap acquisitions (`libc::malloc` calls) made so far. */
  class BogoAlloc {
    const SIZE: nat
    var start: int
    var size: nat
    var uninit: bool
    var rand: Option<Rng>
    ghost var acquisitions: nat

    /** Before the first `alloc` every field holds its initial value; after
        it, the heap is acquired once, its base is non-zero, its size is
        2^SIZE and the generator is installed. */
    ghost predicate Valid()
      reads this
    {
      InRange(start) &&
      (uninit ==> start == 0 && size == 0 && rand == None && acquisitions == 0) &&
      (!uninit ==> start != 0 && size == Pow2(SIZE) && rand == Some(WyRand) && acquisitions == 1)
    }

    /** `BogoAlloc::new`: an allocator that has not yet taken its heap. */
    constructor (SIZE: nat)
      ensures Valid() && this.SIZE == SIZE
      ensures start == 0 && size == 0 && uninit && rand == None
      ensures acquisitions == 0
    {
      this.SIZE := SIZE;
      start := 0;
      size := 0;
      uninit := true;
      rand := None;
      acquisitions := 0;
    }

    /** `GlobalAlloc::alloc`. `draw` is the integer the generator yields and
        `heap` the non-zero address `libc::malloc(2^SIZE)` would return; it is
        used only by the first call. */
    method Alloc(layout: Layout, draw: int, heap: int) returns (p: int)
      requires Valid()
      requires SIZE <= 62
      requires layout.Valid() && layout.size > 0
      requires InRange(draw) && draw != MIN
      requires InRange(heap) && heap != 0
      modifies this
      ensures Valid() && !uninit
      ensures old(uninit) ==>
                start == heap && size == Pow2(SIZE) && rand == Some(WyRand) && acquisitions == 1
      ensures !old(uninit) ==>
                start == old(start) && size == old(size) && rand == old(rand) &&
                acquisitions == old(acquisitions)
      ensures 0 < size <= MAX
      ensures 0 <= RandAddr(draw, size) < size
      ensures p == Address(start, RandAddr(draw, size), layout)
      ensures InRange(p) && (p - start) % layout.Align() == 0
    {
      // the swap: read the flag and clear it in one step
      var first := uninit;
      uninit := false;
      if first {
        size := Pow2(SIZE);
        rand := Some(WyRand);
        acquisitions := acquisitions + 1;
        start := heap;
      } else {
        // a single caller never spins: the heap was stored by an earlier call
        assert start != 0;
      }
      RandAddrInRange(draw, SIZE);
      var randAddr := RandAddr(draw, size);
      var offset := PreOffset(randAddr, layout);
      offset := AlignUp(offset, layout.alignLog2);
      assert offset == Offset(randAddr, layout);
      p := Wrap(start + offset);
      assert p == Address(start, randAddr, layout);
    }

    /** `GlobalAlloc::dealloc`: does nothing. */
    method Dealloc(ptr: int, layout: Layout)
      ensures unchanged(this)
    {
    }
  }
}
