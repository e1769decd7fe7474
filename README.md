# bogo-alloc, modelled in Dafny

`BogoAlloc<SIZE>` is a deliberately unsafe Rust global allocator. Its first
`alloc` call takes one heap of 2^SIZE bytes from `libc::malloc`, installs a
WyRand pseudo-random generator and records the heap's base address. Every call
then draws a random signed integer, reduces its absolute value modulo the heap
size, subtracts the request size with `isize::saturating_sub`, and rounds the
result up to the requested alignment with the bitmask
`(offset + align - 1) & !(align - 1)`. The address it returns is
`start + offset`. `dealloc` does nothing.

The model has two modules:

- `Isize` (`isize.dfy`) covers the 64-bit `isize` operations the allocator
  uses. These are its bounds, `2^k`, `abs`, Rust's truncating `%`,
  `saturating_sub`, two's-complement `&` and `!`, and the wrapping `+` of a
  release build. Each is a function on unbounded integers with the machine
  behaviour written out.
- `Bogo` (`bogo_alloc.dfy`) covers the allocator itself. `Layout` is a size plus
  an alignment exponent. The per-call address arithmetic is written as functions
  (`RandAddr`, `PreOffset`, `AlignUp`, `Offset`, `Address`) with lemmas about
  them. The lazily initialised state is the class `BogoAlloc`, which has the
  fields `start`, `size`, `uninit` and `rand`. It also has a ghost count of heap
  acquisitions, so the model can state that `malloc` is called exactly once.

The model has one caller at a time. `Alloc` receives the generator's draw and
the address `malloc` would return as parameters. Only the first call uses that
address.

The comment on the subtraction (src/lib.rs:48) says it keeps allocations in
bounds. But `isize::saturating_sub` saturates at `isize::MIN`, not at zero, and
here it never saturates at all. The random address is non-negative and a
layout's size is at most `isize::MAX` (`PreOffset`). So a request larger than
the random address gives a negative pre-offset. The address is below the heap
base exactly when the request is at least one alignment larger than the random
address (`OversizedRequestBelowStart`). A request between those two bounds
rounds up to the base itself (`OversizedRequestAtStart`).

## Model

| member | source | states |
|---|---|---|
| `Isize.Pow2` | src/lib.rs:40 | `2_usize.pow(k)` computes 2^k, at least 1; partner `Isize.Pow2Add` gives 2^(j+k) = 2^j * 2^k |
| `Isize.Pow2Add` | src/lib.rs:40 | powers of two multiply by adding exponents, the fact the bounds on 2^SIZE rest on |
| `Isize.Pow2Top` | src/lib.rs:32 | 2^62 fits an isize, 2^63 is `isize::MAX + 1`, and 2^64 is the modulus of 64-bit wrap-around |
| `Isize.Abs` | src/lib.rs:32 | `isize::abs` returns the non-negative one of x and -x, which is again an isize; it is defined for every isize except `isize::MIN` |
| `Isize.Rem` | src/lib.rs:32 | Rust's `%` on isize gives a remainder with the dividend's sign, smaller in magnitude than the divisor, and differing from the dividend by a multiple of the divisor; `isize::MIN % -1` is excluded |
| `Isize.SaturatingSub` | src/lib.rs:48 | `saturating_sub` returns the isize nearest to the exact difference, and the exact difference whenever that fits |
| `Isize.BitNot` | src/lib.rs:49 | `!`, defined bit by bit, equals -x - 1 |
| `Isize.BitAnd` | src/lib.rs:49 | `&`, defined bit by bit: the result is negative exactly when both operands are, and a non-negative operand bounds it; partner `Isize.BitAndClearsLowBits` |
| `Isize.BitAndClearsLowBits` | src/lib.rs:49 | two's-complement `&` with the mask -2^k clears the k low bits, which rounds down to a multiple of 2^k, negative values included |
| `Isize.Wrap` | src/lib.rs:50 | the wrapping `+` gives the unique isize congruent to the exact sum modulo 2^64, and the exact sum when it fits |
| `Bogo.RandAddr` | src/lib.rs:31-33 | `rand_addr` lies in `[0, size)` and is congruent to the draw's absolute value modulo the size |
| `Bogo.RandAddrInRange` | src/lib.rs:31-33 | for a heap of 2^SIZE bytes with SIZE at most 62, the size fits an isize and every draw except `isize::MIN` gives an address in `[0, 2^SIZE)` |
| `Bogo.PreOffset` | src/lib.rs:48 | the saturating pre-offset never saturates: plus the request size it is exactly the random address, and it is negative exactly when the request size exceeds that address |
| `Bogo.AlignUp` | src/lib.rs:49 | the bitmask round-up equals floor((x + a - 1) / a) * a for a = 2^k and any integer x, so it is a multiple of a in `[x, x + a)`; proved from `Isize.BitAndClearsLowBits` |
| `Bogo.Offset` | src/lib.rs:47-49 | the final offset is a multiple of the alignment in `[randAddr - size, randAddr - size + align)`, and it is negative exactly when size >= randAddr + align |
| `Bogo.Address` | src/lib.rs:50 | the returned address minus the base is a multiple of the alignment, even if the addition wraps; without wrap-around the address is exactly base + offset |
| `Bogo.ValidLayoutAlign` | src/lib.rs:47 | a valid layout's alignment is at most 2^63, so it divides 2^64 |
| `Bogo.AllocLayoutAlign` | src/lib.rs:47 | a valid layout with non-zero size has alignment at most 2^62, so `layout.align() as isize` does not wrap |
| `Bogo.OffsetNoOverflow` | src/lib.rs:47-49 | for a random address below 2^62 and an allocatable layout, the alignment, `offset + align`, `offset + align - 1` and the rounded offset all fit an isize |
| `Bogo.OversizedRequestBelowStart` | src/lib.rs:48-50 | without wrap-around, the address is below the heap base if and only if the request is at least one alignment larger than the random address |
| `Bogo.OversizedRequestAtStart` | src/lib.rs:48-50 | a request larger than the random address but less than one alignment larger gets offset 0, so the address is the base itself |
| `Bogo.SmallHeapOversizedRequest` | src/lib.rs:48-49 | with a 16-byte heap and a 20-byte byte-aligned request, every draw gives an offset in [-20, -5], never 0 |
| `Bogo.BogoAlloc.constructor` | src/lib.rs:18-25 | `new()` gives start 0, size 0, `uninit` true, no generator and no heap acquired |
| `Bogo.BogoAlloc.Alloc` | src/lib.rs:37-51 | the first call clears `uninit`, sets the size to 2^SIZE, installs the generator, stores the non-zero heap base and acquires exactly one heap; later calls change none of these fields, and the generator stays installed (its state is not modelled); the result is `Address(start, RandAddr(draw, size), layout)` and is a multiple of the alignment away from `start` |
| `Bogo.BogoAlloc.Dealloc` | src/lib.rs:53-55 | `dealloc` changes no field of the allocator |

## Left out

- Concurrency. This covers the atomics and their `Relaxed` ordering, the
  `swap` race between threads and the busy-wait on `start`
  (src/lib.rs:39, 45). With one caller the wait never runs, because an
  allocator past its first call always has a non-zero `start`. `Alloc`
  asserts this in place of the loop.
- The `Mutex<Option<WyRand>>` and WyRand's internals, including
  `isize::from_le_bytes` of its output (src/lib.rs:13, 28, 42). The generator
  is a token `WyRand`, and each draw is an arbitrary isize parameter of `Alloc`.
  Each call advances the real generator's state. The model does not represent
  that state.
- `libc::malloc` (src/lib.rs:43). This is a foreign call. Its result is a
  non-zero isize parameter. A null result is not modelled: other threads would
  then spin forever.
- Bogo.RandAddr: requires the draw to differ from `isize::MIN`. There `abs`
  overflows. A debug build panics. A release build returns `isize::MIN`
  itself, and since 2^SIZE divides `isize::MIN`, `rand_addr` would then be 0.
- Bogo.BogoAlloc.Alloc: requires SIZE at most 62. For SIZE 63 the cast of
  2^63 to isize wraps. For 64 <= SIZE < 2^32, `2_usize.pow` overflows. Above
  that, `SIZE as u32` truncates the exponent.
- Bogo.BogoAlloc.Alloc: requires a non-zero layout size. The `GlobalAlloc`
  contract demands this of callers, and it limits the alignment to 2^62.
- Bogo.BogoAlloc.Alloc: models `start + offset` as a wrapping addition, the
  release-build behaviour. A debug build would panic on overflow instead.
- `Isize.BitAnd` works on unbounded two's-complement integers. The model
  assumes, without a proof, that it agrees with 64-bit `&` on isize operands.
  `Bogo.OffsetNoOverflow` shows every operand here is an isize.
- Memory contents, aliasing, and whether a returned pointer can be
  dereferenced. There is no memory model.
- The test module (src/lib.rs:59-71). It installs the allocator, prints
  vectors and asserts nothing.
