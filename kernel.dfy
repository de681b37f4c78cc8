/** Types shared by the model of the dog registry: the bytes of C strings,
    the kernel's fixed-width integers, its error numbers, and the wrappers
    that carry an error return. */
module Kernel {

  /** One byte of a C string. */
  type Byte = c: char | c as int < 256 witness '\0'

  /** The terminator of a C string. */
  const NUL: Byte := '\0'

  /** The bytes of a C string come before its terminator, so none is NUL. */
  predicate IsCString(s: seq<Byte>)
  {
    NUL !in s
  }

  const S32_MIN: int := -0x8000_0000
  const S32_MAX: int := 0x7FFF_FFFF
  const S64_MIN: int := -0x8000_0000_0000_0000
  const S64_MAX: int := 0x7FFF_FFFF_FFFF_FFFF
  const U64_MAX: int := 0xFFFF_FFFF_FFFF_FFFF

  /** `size_t` on a 64-bit kernel wraps around modulo this. */
  const SIZE_T_MODULUS: int := 0x1_0000_0000_0000_0000

  /** Incrementing a `size_t` that holds `n` modulo 2^64 gives `n + 1`
      modulo 2^64; decrementing gives `n - 1`. */
  lemma SizeTStep(n: nat)
    ensures (n % SIZE_T_MODULUS + 1) % SIZE_T_MODULUS == (n + 1) % SIZE_T_MODULUS
    ensures n > 0 ==> (n % SIZE_T_MODULUS + SIZE_T_MODULUS - 1) % SIZE_T_MODULUS == (n - 1) % SIZE_T_MODULUS
  {
    var q, r := n / SIZE_T_MODULUS, n % SIZE_T_MODULUS;
    assert n == q * SIZE_T_MODULUS + r;
    if r + 1 == SIZE_T_MODULUS {
      assert n + 1 == (q + 1) * SIZE_T_MODULUS;
    } else {
      assert n + 1 == q * SIZE_T_MODULUS + (r + 1);
    }
    if n > 0 {
      if r == 0 {
        assert n - 1 == (q - 1) * SIZE_T_MODULUS + (SIZE_T_MODULUS - 1);
      } else {
        assert n - 1 == q * SIZE_T_MODULUS + (r - 1);
      }
    }
  }

  /** A C `int`. */
  type Int32 = x: int | -0x8000_0000 <= x <= 0x7FFF_FFFF

  predicate InS32(x: int)
  {
    S32_MIN <= x <= S32_MAX
  }

  /** The error numbers the registry's operations return. */
  datatype Errno = ENOMEM | EINVAL | ERANGE
  {
    /** The negative value a kernel function returns for this error. */
    function Code(): (c: int)
      ensures c < 0
    {
      match this
      case ENOMEM => -12
      case EINVAL => -22
      case ERANGE => -34
    }
  }

  /** A C pointer that may be NULL. */
  datatype Option<+T> = None | Some(value: T)

  /** A value, or the error number a kernel function returns instead. */
  datatype Result<+T> = Ok(value: T) | Err(error: Errno)
}
