/** Machine words of the RV64 target and C's integer conversions between them.

    The kernel is written in C for a 64-bit RISC-V core: `uint64` and pointers
    are 64-bit words, `int` is a 32-bit two's-complement integer. Dafny's
    integers are unbounded, so every place where the C code converts between
    those widths is written out with the functions below. */
module Machine {

  const U64_MOD: int := 0x1_0000_0000_0000_0000
  const I32_MOD: int := 0x1_0000_0000
  const I32_MIN: int := -0x8000_0000
  const I32_MAX: int := 0x7fff_ffff
  const I64_MIN: int := -0x8000_0000_0000_0000
  const I64_MAX: int := 0x7fff_ffff_ffff_ffff

  /** `uint64` (also pointers and `unsigned long long`). */
  type u64 = x: int | 0 <= x < U64_MOD
  /** `int`. */
  type i32 = x: int | I32_MIN <= x <= I32_MAX
  /** `long long`. */
  type i64 = x: int | I64_MIN <= x <= I64_MAX

  /** Size of a virtual-memory page (the `0xfff` masks and `>> 12` shifts of the source). */
  const PAGE_SIZE: int := 4096

  datatype Option<T> = None | Some(value: T)

  /** Conversion of any integer to `uint64`: reduction modulo 2^64. */
  function U64(x: int): (r: u64)
    ensures (r - x) % U64_MOD == 0
    ensures 0 <= x < U64_MOD ==> r == x
  {
    x % U64_MOD
  }

  /** Conversion of an integer to `int`: keep the low 32 bits, read them as two's complement
      (what GCC does for the implementation-defined narrowing conversion). */
  function I32(x: int): (r: i32)
    ensures (r - x) % I32_MOD == 0
    ensures I32_MIN <= x <= I32_MAX ==> r == x
  {
    var low := x % I32_MOD;
    if low <= I32_MAX then low else low - I32_MOD
  }

  /** An `int` stored in a 64-bit register (sign extension) reads back as the same `int`:
      a system call's result survives the round trip through `a0`. */
  lemma I32OfU64(x: i32)
    ensures I32(U64(x)) == x
  {
    if x < 0 {
      assert U64(x) == x + U64_MOD;
      assert (x + U64_MOD) % I32_MOD == x + I32_MOD;
    }
  }

  /** Conversion of a 64-bit word to `long long` (two's complement). */
  function I64(x: u64): (r: i64)
    ensures (r - x) % U64_MOD == 0
    ensures x <= I64_MAX ==> r == x
  {
    if x <= I64_MAX then x else x - U64_MOD
  }
}
