/** The two hash functions of the balancer: Bernstein's djb2 for keys
    (server.c:10-19) and the integer mixer for server labels
    (load_balancer.c:19-26). Both work modulo 2^32. */
module Hashing {
  import opened Words

  const TWO32: int := 0x1_0000_0000

  // ---------------------------------------------------------------
  // hash_function_key

  /** One round of djb2 on an `unsigned int`: `(hash << 5) + hash + c`,
      every step wrapping modulo 2^32. */
  function Djb2Step(hash: u32, c: Char): (r: u32)
    ensures r == (hash * 33 + c) % TWO32
  {
    var shifted := (hash * 32) % TWO32;
    var sum := (shifted + hash) % TWO32;
    WrapAdd(hash * 32, hash);
    WrapAdd(hash * 32 + hash, c);
    (sum + c) % TWO32
  }

  /** Wrapping an operand before an addition does not change the wrapped sum. */
  lemma WrapAdd(x: nat, y: nat)
    ensures (x % TWO32 + y) % TWO32 == (x + y) % TWO32
  {
    var q := x / TWO32;
    assert x == q * TWO32 + x % TWO32;
    assert x + y == q * TWO32 + (x % TWO32 + y);
  }

  /** The loop of hash_function_key, from the accumulator `hash`, over the
      characters of `s` up to the terminating NUL. */
  function Djb2(hash: u32, s: CString): u32
    decreases |s|
  {
    if s == [] then hash else Djb2(Djb2Step(hash, s[0]), s[1..])
  }

  /** hash_function_key: djb2 started at 5381. */
  function HashKey(key: CString): u32 {
    Djb2(5381, key)
  }

  /** Appending a character performs one more round on the hash of the
      prefix: the fold is the recurrence h(s + [c]) = 33 * h(s) + c (mod 2^32). */
  lemma {:induction false} Djb2Append(hash: u32, s: CString, c: Char)
    ensures Djb2(hash, s + [c]) == (Djb2(hash, s) * 33 + c) % TWO32
    decreases |s|
  {
    if s == [] {
      assert [] + [c] == [c];
    } else {
      assert (s + [c])[1..] == s[1..] + [c];
      Djb2Append(Djb2Step(hash, s[0]), s[1..], c);
    }
  }

  /** HashKey is the djb2 recurrence over the key's characters. */
  lemma HashKeyAppend(key: CString, c: Char)
    ensures HashKey(key + [c]) == (HashKey(key) * 33 + c) % TWO32
  {
    Djb2Append(5381, key, c);
  }

  // ---------------------------------------------------------------
  // hash_function_servers, on unsigned integers: `>>` is a shift of the
  // binary digits, `^` their exclusive or, and `*` wraps modulo 2^32.

  function Pow2(k: nat): (r: nat)
    ensures r > 0
  {
    if k == 0 then 1 else 2 * Pow2(k - 1)
  }

  /** `a >> k` on naturals: drops the `k` lowest binary digits, one at a
      time. */
  function Shr(a: nat, k: nat): nat {
    if k == 0 then a else Shr(a / 2, k - 1)
  }

  /** The shift is the division by 2^k that `>>` performs on unsigned
      operands. */
  lemma {:induction false} ShrDivides(a: nat, k: nat)
    ensures Shr(a, k) == a / Pow2(k)
    decreases k
  {
    if k > 0 {
      ShrDivides(a / 2, k - 1);
      HalveThenDivide(a, k - 1);
    }
  }

  /** Halving, then dividing by 2^k, is dividing by 2^(k+1). */
  lemma HalveThenDivide(a: nat, k: nat)
    ensures (a / 2) / Pow2(k) == a / Pow2(k + 1)
  {
    var p := Pow2(k);
    var q := (a / 2) / p;
    var r := (a / 2) % p;
    assert a == 2 * p * q + (2 * r + a % 2);
    DivUnique(a, 2 * p, q, 2 * r + a % 2);
  }

  /** The quotient of a division is the only one with a remainder in range. */
  lemma DivUnique(a: nat, d: nat, q: nat, m: nat)
    requires d > 0 && m < d && a == d * q + m
    ensures a / d == q
  {
    var q0, m0 := a / d, a % d;
    assert d * q0 + m0 == d * q + m;
    if q > q0 {
      assert d * q == d * q0 + d * (q - q0);
      MulGrows(d, q - q0);
    } else if q < q0 {
      assert d * q0 == d * q + d * (q0 - q);
      MulGrows(d, q0 - q);
    }
  }

  lemma {:induction false} MulGrows(d: nat, x: nat)
    requires x >= 1
    ensures d * x >= d
    decreases x
  {
    if x > 1 {
      MulGrows(d, x - 1);
      assert d * x == d * (x - 1) + d;
    }
  }

  /** `a ^ b` on naturals: exclusive or of the binary digits. */
  function Xor(a: nat, b: nat): nat
    decreases a + b
  {
    if a == 0 && b == 0 then 0
    else 2 * Xor(a / 2, b / 2) + (if a % 2 == b % 2 then 0 else 1)
  }

  lemma XorDigits(a: nat, b: nat)
    ensures Xor(a, b) / 2 == Xor(a / 2, b / 2)
    ensures Xor(a, b) % 2 == if a % 2 == b % 2 then 0 else 1
  {
  }

  lemma {:induction false} XorZero(b: nat)
    ensures Xor(0, b) == b
    decreases b
  {
    if b != 0 {
      XorZero(b / 2);
    }
  }

  /** Xor with the same word twice cancels. */
  lemma {:induction false} XorCancel(a: nat, b: nat)
    ensures Xor(a, Xor(a, b)) == b
    decreases a + b
  {
    if a == 0 {
      XorZero(b);
      XorZero(Xor(0, b));
    } else {
      XorDigits(a, b);
      XorCancel(a / 2, b / 2);
    }
  }

  /** A shift distributes over exclusive or. */
  lemma {:induction false} ShrXor(a: nat, b: nat, k: nat)
    ensures Shr(Xor(a, b), k) == Xor(Shr(a, k), Shr(b, k))
    decreases k
  {
    if k > 0 {
      XorDigits(a, b);
      ShrXor(a / 2, b / 2, k - 1);
    }
  }

  lemma {:induction false} ShrShr(a: nat, j: nat, k: nat)
    ensures Shr(Shr(a, j), k) == Shr(a, j + k)
    decreases j
  {
    if j > 0 {
      ShrShr(a / 2, j - 1, k);
    }
  }

  /** Shifting out at least as many digits as `a` has leaves 0. */
  lemma {:induction false} ShrSmall(a: nat, k: nat)
    requires a < Pow2(k)
    ensures Shr(a, k) == 0
    decreases k
  {
    if k > 0 {
      ShrSmall(a / 2, k - 1);
    }
  }

  lemma {:induction false} ShrBound(a: nat, k: nat, n: nat)
    requires a < Pow2(n + k)
    ensures Shr(a, k) < Pow2(n)
    decreases k
  {
    if k > 0 {
      ShrBound(a / 2, k - 1, n);
    }
  }

  /** Exclusive or keeps an `n`-digit bound. */
  lemma {:induction false} XorBound(a: nat, b: nat, n: nat)
    requires a < Pow2(n) && b < Pow2(n)
    ensures Xor(a, b) < Pow2(n)
    decreases n
  {
    if n > 0 {
      XorDigits(a, b);
      XorBound(a / 2, b / 2, n - 1);
    } else {
      assert a == 0 && b == 0;
    }
  }

  lemma {:induction false} Pow2Add(a: nat, b: nat)
    ensures Pow2(a + b) == Pow2(a) * Pow2(b)
    decreases a
  {
    if a > 0 {
      Pow2Add(a - 1, b);
    }
  }

  lemma Pow2Values()
    ensures Pow2(16) == 0x1_0000 && Pow2(32) == TWO32
  {
    assert Pow2(4) == 16;
    Pow2Add(4, 4);
    Pow2Add(8, 8);
    Pow2Add(16, 16);
  }

  /** `(x >> 16) ^ x`: the xor-shift of the mixer. */
  function XorShift(x: u32): u32 {
    Pow2Values();
    ShrBound(x, 16, 16);
    XorBound(Shr(x, 16), x, 32);
    Xor(Shr(x, 16), x)
  }

  /** The xor-shift leaves the high half of the word as it was. */
  lemma XorShiftHighHalf(x: u32)
    ensures Shr(XorShift(x), 16) == Shr(x, 16)
  {
    Pow2Values();
    ShrXor(Shr(x, 16), x, 16);
    ShrShr(x, 16, 16);
    ShrSmall(x, 32);
    XorZero(Shr(x, 16));
  }

  /** The xor-shift is its own inverse. */
  lemma XorShiftInvolution(x: u32)
    ensures XorShift(XorShift(x)) == x
  {
    XorShiftHighHalf(x);
    XorCancel(Shr(x, 16), x);
  }

  /** Unsigned multiplication, wrapping modulo 2^32. */
  function MulWrap(x: u32, m: u32): u32 {
    (x * m) % TWO32
  }

  const MIX_FACTOR: u32 := 0x45d9f3b
  /** The inverse of MIX_FACTOR modulo 2^32. */
  const MIX_INVERSE: u32 := 0x119de1f3

  lemma MulWrapInverse(x: u32)
    ensures MulWrap(MulWrap(x, MIX_FACTOR), MIX_INVERSE) == x
  {
    var k := (MIX_FACTOR * MIX_INVERSE) / TWO32;
    assert MIX_FACTOR * MIX_INVERSE == k * TWO32 + 1;
    var q := (x * MIX_FACTOR) / TWO32;
    assert MulWrap(x, MIX_FACTOR) == x * MIX_FACTOR - q * TWO32;
    assert MulWrap(x, MIX_FACTOR) * MIX_INVERSE == x + (x * k - q * MIX_INVERSE) * TWO32;
  }

  lemma MulWrapInverseLeft(x: u32)
    ensures MulWrap(MulWrap(x, MIX_INVERSE), MIX_FACTOR) == x
  {
    var k := (MIX_FACTOR * MIX_INVERSE) / TWO32;
    assert MIX_INVERSE * MIX_FACTOR == k * TWO32 + 1;
    var q := (x * MIX_INVERSE) / TWO32;
    assert MulWrap(x, MIX_INVERSE) == x * MIX_INVERSE - q * TWO32;
    assert MulWrap(x, MIX_INVERSE) * MIX_FACTOR == x + (x * k - q * MIX_FACTOR) * TWO32;
  }

  /** One multiply round `((x >> 16) ^ x) * 0x45d9f3b`. */
  function Mix(x: u32): u32 {
    MulWrap(XorShift(x), MIX_FACTOR)
  }

  /** hash_function_servers: two multiply rounds and a final xor-shift. */
  function HashServers(serverLabel: u32): u32 {
    XorShift(Mix(Mix(serverLabel)))
  }

  /** The inverse of one multiply round. */
  function Unmix(y: u32): u32 {
    XorShift(MulWrap(y, MIX_INVERSE))
  }

  lemma MixUnmix(y: u32)
    ensures Mix(Unmix(y)) == y
  {
    XorShiftInvolution(MulWrap(y, MIX_INVERSE));
    assert XorShift(Unmix(y)) == MulWrap(y, MIX_INVERSE);
    MulWrapInverseLeft(y);
  }

  lemma UnmixMix(x: u32)
    ensures Unmix(Mix(x)) == x
  {
    MulWrapInverse(XorShift(x));
    XorShiftInvolution(x);
  }

  /** The inverse of hash_function_servers: every hash has exactly one
      preimage among the 32-bit words. */
  function UnhashServers(h: u32): u32 {
    Unmix(Unmix(XorShift(h)))
  }

  lemma HashUnhashServers(h: u32)
    ensures HashServers(UnhashServers(h)) == h
  {
    MixUnmix(XorShift(h));
    MixUnmix(Unmix(XorShift(h)));
    XorShiftInvolution(h);
  }

  lemma UnhashHashServers(serverLabel: u32)
    ensures UnhashServers(HashServers(serverLabel)) == serverLabel
  {
    XorShiftInvolution(Mix(Mix(serverLabel)));
    UnmixMix(Mix(serverLabel));
    UnmixMix(serverLabel);
  }

  /** Distinct labels never collide on the ring. */
  lemma HashServersInjective(x: u32, y: u32)
    requires HashServers(x) == HashServers(y)
    ensures x == y
  {
    UnhashHashServers(x);
    UnhashHashServers(y);
  }
}
