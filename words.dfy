/** Machine-level types shared by the list, the servers and the balancer. */
module Words {

  /** An `unsigned char`. */
  type u8 = x: int | 0 <= x < 0x100

  /** An `unsigned int` (32 bits). */
  type u32 = x: int | 0 <= x < 0x1_0000_0000

  /** A character of a C string: any byte except the terminating NUL. */
  type Char = x: int | 0 < x < 0x100 witness 1

  /** A C string, without its terminating NUL byte. */
  type CString = seq<Char>

  /** A pointer that may be NULL, for values. */
  datatype Option<+T> = None | Some(value: T)

  /** The C test `(int)n < 0`: positions are modelled by the signed value the
      list functions test, so an unsigned argument of 2^31 or more is negative. */
  predicate IsNegative(n: int) {
    n < 0
  }

  /** A position already below the size is its own remainder. */
  lemma ModSmall(a: nat, n: nat)
    requires a < n
    ensures a % n == a
  {
  }
}
