/**
 * Key derivation of the flash monotonic counter: a 32-bit FNV-1a hash of the
 * partition label, formatted as `"b_%08lx"` (the key of the base value) and
 * `"p_%08lx"` (the key of the rollover-pending flag).
 */
module KeyDerivation {
  import opened Common

  const FNV_OFFSET_BASIS: nat := 2166136261
  const FNV_PRIME: nat := 16777619
  /** The inverse of `FNV_PRIME` modulo 2^32: FNV_PRIME * FNV_PRIME_INVERSE == 3513497 * 2^32 + 1. */
  const FNV_PRIME_INVERSE: nat := 899433627

  /** NVS keys are stored in `std::array<char, 16>`, terminator included. */
  const KEY_BUFFER_SIZE: nat := 16

  /** `static_cast<uint8_t>(c)`. */
  function ByteOf(c: char): (b: nat)
    ensures b < 256
  {
    (c as int) % 256
  }

  function Pow2(n: nat): (p: nat)
    ensures p >= 1
  {
    if n == 0 then 1 else 2 * Pow2(n - 1)
  }

  lemma Pow2Of32()
    ensures Pow2(32) == U32_LIMIT
  {
    assert Pow2(4) == 16;
    assert Pow2(8) == 256;
    assert Pow2(12) == 4096;
    assert Pow2(16) == 65536;
    assert Pow2(20) == 1048576;
    assert Pow2(24) == 16777216;
    assert Pow2(28) == 268435456;
  }

  /** Bitwise exclusive or of the low `n` bits of `a` and `b`. */
  function XorBits(a: nat, b: nat, n: nat): (r: nat)
    ensures r < Pow2(n)
  {
    if n == 0 then 0 else 2 * XorBits(a / 2, b / 2, n - 1) + (a % 2 + b % 2) % 2
  }

  /** `a ^ b` on `uint32_t`. */
  function Xor32(a: nat, b: nat): (r: nat)
    ensures r < U32_LIMIT
  {
    Pow2Of32();
    XorBits(a, b, 32)
  }

  /** One round of FNV-1a: `hash ^= byte; hash *= 16777619` on a `uint32_t`. */
  function FnvStep(h: nat, c: char): (r: nat)
    requires h < U32_LIMIT
    ensures r < U32_LIMIT
  {
    (Xor32(h, ByteOf(c)) * FNV_PRIME) % U32_LIMIT
  }

  /** FNV-1a over the bytes of a label, folded from the left. */
  function Fnv1a(s: string): (h: nat)
    ensures h < U32_LIMIT
  {
    if s == [] then FNV_OFFSET_BASIS else FnvStep(Fnv1a(s[..|s| - 1]), s[|s| - 1])
  }

  /** `fnv1a32`: the loop over the label's bytes computes `Fnv1a`. */
  method Fnv1a32(text: string) returns (hash: nat)
    ensures hash == Fnv1a(text)
  {
    hash := FNV_OFFSET_BASIS;
    var i := 0;
    while i < |text|
      invariant i <= |text|
      invariant hash == Fnv1a(text[..i])
    {
      assert text[..i + 1][..i] == text[..i];
      hash := FnvStep(hash, text[i]);
      i := i + 1;
    }
    assert text[..i] == text;
  }

  /** Exclusive or with a fixed word is injective on `n`-bit words. */
  lemma {:induction false} XorBitsInjective(h: nat, a: nat, b: nat, n: nat)
    requires a < Pow2(n) && b < Pow2(n)
    requires XorBits(h, a, n) == XorBits(h, b, n)
    ensures a == b
  {
    if n > 0 {
      var xa, xb := XorBits(h / 2, a / 2, n - 1), XorBits(h / 2, b / 2, n - 1);
      var ba, bb := (h % 2 + a % 2) % 2, (h % 2 + b % 2) % 2;
      assert 2 * xa + ba == 2 * xb + bb;
      assert xa == xb && ba == bb;
      assert a % 2 == b % 2;
      assert a / 2 < Pow2(n - 1) && b / 2 < Pow2(n - 1);
      XorBitsInjective(h / 2, a / 2, b / 2, n - 1);
    }
  }

  lemma {:induction false} XorBitsCommutes(a: nat, b: nat, n: nat)
    ensures XorBits(a, b, n) == XorBits(b, a, n)
  {
    if n > 0 {
      XorBitsCommutes(a / 2, b / 2, n - 1);
    }
  }

  lemma XorInjective(h: nat, a: nat, b: nat)
    requires h < U32_LIMIT && a < U32_LIMIT && b < U32_LIMIT
    ensures Xor32(h, a) == Xor32(h, b) ==> a == b
    ensures Xor32(a, h) == Xor32(b, h) ==> a == b
  {
    Pow2Of32();
    XorBitsCommutes(a, h, 32);
    XorBitsCommutes(b, h, 32);
    if Xor32(h, a) == Xor32(h, b) {
      XorBitsInjective(h, a, b, 32);
    }
  }

  /** `(j * 2^32 + x) % 2^32 == x` for a word `x`. */
  lemma ModWord(j: int, x: nat)
    requires x < U32_LIMIT
    ensures (j * U32_LIMIT + x) % U32_LIMIT == x
  {
  }

  /** Multiplying by the FNV prime modulo 2^32 can be undone by its inverse. */
  lemma UndoMulPrime(x: nat)
    requires x < U32_LIMIT
    ensures (((x * FNV_PRIME) % U32_LIMIT) * FNV_PRIME_INVERSE) % U32_LIMIT == x
  {
    var M := U32_LIMIT;
    var u := (x * FNV_PRIME) % M;
    var a := (x * FNV_PRIME) / M;
    assert x * FNV_PRIME == a * M + u;
    assert u * FNV_PRIME_INVERSE == x + (x * 3513497 - a * FNV_PRIME_INVERSE) * M;
    ModWord(x * 3513497 - a * FNV_PRIME_INVERSE, x);
  }

  /** Multiplying by the FNV prime is a bijection on 32-bit words. */
  lemma MulPrimeInjective(x: nat, y: nat)
    requires x < U32_LIMIT && y < U32_LIMIT
    requires (x * FNV_PRIME) % U32_LIMIT == (y * FNV_PRIME) % U32_LIMIT
    ensures x == y
  {
    UndoMulPrime(x);
    UndoMulPrime(y);
  }

  /** A round of FNV-1a is injective in the hash and in the byte. */
  lemma FnvStepInjective(h1: nat, h2: nat, a: char, b: char)
    requires h1 < U32_LIMIT && h2 < U32_LIMIT
    requires FnvStep(h1, a) == FnvStep(h2, b)
    ensures h1 == h2 ==> ByteOf(a) == ByteOf(b)
    ensures ByteOf(a) == ByteOf(b) ==> h1 == h2
  {
    MulPrimeInjective(Xor32(h1, ByteOf(a)), Xor32(h2, ByteOf(b)));
    if h1 == h2 {
      XorInjective(h1, ByteOf(a), ByteOf(b));
    }
    if ByteOf(a) == ByteOf(b) {
      XorInjective(ByteOf(a), h1, h2);
    }
  }

  /**
   * Two labels of the same length that differ (as bytes) in exactly one
   * position never share a hash, so they never share NVS keys.
   */
  lemma {:induction false} SingleSubstitutionDistinct(s: string, t: string, i: nat)
    requires |s| == |t| && i < |s|
    requires ByteOf(s[i]) != ByteOf(t[i])
    requires forall j :: 0 <= j < |s| && j != i ==> s[j] == t[j]
    ensures Fnv1a(s) != Fnv1a(t)
  {
    var n := |s| - 1;
    if n == i {
      assert s[..n] == t[..n];
      if Fnv1a(s) == Fnv1a(t) {
        FnvStepInjective(Fnv1a(s[..n]), Fnv1a(t[..n]), s[n], t[n]);
      }
    } else {
      SingleSubstitutionDistinct(s[..n], t[..n], i);
      if Fnv1a(s) == Fnv1a(t) {
        FnvStepInjective(Fnv1a(s[..n]), Fnv1a(t[..n]), s[n], t[n]);
      }
    }
  }

  function Pow16(n: nat): (p: nat)
    ensures p >= 1
  {
    if n == 0 then 1 else 16 * Pow16(n - 1)
  }

  /** The lowercase hex digit of `d` (the `x` conversion of printf). */
  function HexDigit(d: nat): (c: char)
    requires d < 16
  {
    if d < 10 then ('0' as int + d) as char else ('a' as int + d - 10) as char
  }

  function HexDigitValue(c: char): (d: nat)
    ensures d < 16
  {
    if '0' <= c <= '9' then (c as int - '0' as int)
    else if 'a' <= c <= 'f' then (c as int - 'a' as int + 10)
    else 0
  }

  /** `%0<n>x`: the low `n` hex digits of `h`, most significant first. */
  function HexN(h: nat, n: nat): (s: string)
    ensures |s| == n
  {
    if n == 0 then [] else HexN(h / 16, n - 1) + [HexDigit(h % 16)]
  }

  function ParseHex(s: string): nat
  {
    if s == [] then 0 else ParseHex(s[..|s| - 1]) * 16 + HexDigitValue(s[|s| - 1])
  }

  /** Formatting with `n` hex digits loses nothing for values below 16^n. */
  lemma {:induction false} ParseHexN(h: nat, n: nat)
    requires h < Pow16(n)
    ensures ParseHex(HexN(h, n)) == h
  {
    if n > 0 {
      var s := HexN(h, n);
      assert s[..n - 1] == HexN(h / 16, n - 1);
      ParseHexN(h / 16, n - 1);
    }
  }

  function Hex8(h: nat): (s: string)
    ensures |s| == 8
  {
    HexN(h, 8)
  }

  /** The key of the persisted base value: `"b_%08lx"`. */
  function BaseKey(partLabel: string): (k: string)
    ensures |k| == 10 && |k| < KEY_BUFFER_SIZE && k[..2] == "b_"
  {
    "b_" + Hex8(Fnv1a(partLabel))
  }

  /** The key of the persisted rollover-pending flag: `"p_%08lx"`. */
  function PendingKey(partLabel: string): (k: string)
    ensures |k| == 10 && |k| < KEY_BUFFER_SIZE && k[..2] == "p_"
  {
    "p_" + Hex8(Fnv1a(partLabel))
  }

  /** The two keys of any labels never coincide, so the base and the flag never overwrite each other. */
  lemma BaseAndPendingKeysDiffer(l1: string, l2: string)
    ensures BaseKey(l1) != PendingKey(l2)
  {
    assert BaseKey(l1)[0] == 'b' && PendingKey(l2)[0] == 'p';
  }

  /** Two labels share keys exactly when their hashes coincide. */
  lemma KeysDetermineHash(l1: string, l2: string)
    ensures BaseKey(l1) == BaseKey(l2) <==> Fnv1a(l1) == Fnv1a(l2)
    ensures PendingKey(l1) == PendingKey(l2) <==> Fnv1a(l1) == Fnv1a(l2)
  {
    assert Pow16(8) == U32_LIMIT;
    ParseHexN(Fnv1a(l1), 8);
    ParseHexN(Fnv1a(l2), 8);
    if BaseKey(l1) == BaseKey(l2) {
      assert Hex8(Fnv1a(l1)) == BaseKey(l1)[2..] == BaseKey(l2)[2..] == Hex8(Fnv1a(l2));
    }
    if PendingKey(l1) == PendingKey(l2) {
      assert Hex8(Fnv1a(l1)) == PendingKey(l1)[2..] == PendingKey(l2)[2..] == Hex8(Fnv1a(l2));
    }
  }
}
