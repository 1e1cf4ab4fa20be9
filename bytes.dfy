/** Bytes, bitwise XOR on naturals, and the integer/byte conversions of
    Python that the server uses. */
module Bytes {
  import opened Wrappers

  /** One element of a Python `bytes` object. */
  type Byte = b: int | 0 <= b < 256

  function Pow2(k: nat): (r: nat)
    ensures r >= 1
  {
    if k == 0 then 1 else 2 * Pow2(k - 1)
  }

  lemma Pow2Values()
    ensures Pow2(8) == 256 && Pow2(16) == 0x10000
  {
    assert Pow2(4) == 16;
    assert Pow2(8) == 256;
    assert Pow2(12) == 4096;
  }

  lemma {:induction false} Pow2Monotonic(j: nat, k: nat)
    requires j <= k
    ensures Pow2(j) <= Pow2(k)
  {
    if j < k {
      Pow2Monotonic(j, k - 1);
    }
  }

  // ---- Bitwise XOR ------------------------------------------------------

  /** `a ^ b` on non-negative integers, bit by bit from the lowest bit. */
  function Xor(a: nat, b: nat): nat
    decreases a + b
  {
    if a == 0 && b == 0 then 0 else 2 * Xor(a / 2, b / 2) + Differ(a, b)
  }

  /** The lowest bit of `a ^ b`. */
  function Differ(a: nat, b: nat): nat {
    if a % 2 == b % 2 then 0 else 1
  }

  lemma XorUnfold(a: nat, b: nat)
    ensures Xor(a, b) == 2 * Xor(a / 2, b / 2) + Differ(a, b)
  {
    if a == 0 && b == 0 {
      assert Xor(a / 2, b / 2) == 0;
    }
  }

  lemma XorStep(a: nat, b: nat)
    ensures Xor(a, b) == 2 * Xor(a / 2, b / 2) + Differ(a, b)
    ensures Xor(a, b) % 2 == Differ(a, b) && Xor(a, b) / 2 == Xor(a / 2, b / 2)
  {
    XorUnfold(a, b);
    Halve(Xor(a, b), Xor(a / 2, b / 2), Differ(a, b));
  }

  lemma Halve(t: nat, x: nat, bit: nat)
    requires t == 2 * x + bit && bit < 2
    ensures t % 2 == bit && t / 2 == x
  {
  }

  /** Two naturals with the same lowest bit and the same other bits are equal. */
  lemma SameBits(x: nat, y: nat)
    requires x % 2 == y % 2 && x / 2 == y / 2
    ensures x == y
  {
  }

  lemma {:induction false} XorCommutes(a: nat, b: nat)
    ensures Xor(a, b) == Xor(b, a)
    decreases a + b
  {
    if a + b > 0 {
      XorCommutes(a / 2, b / 2);
      XorStep(a, b);
      XorStep(b, a);
    }
  }

  lemma {:induction false} XorZero(a: nat)
    ensures Xor(a, 0) == a && Xor(0, a) == a
    decreases a
  {
    if a > 0 {
      XorZero(a / 2);
      XorStep(a, 0);
      XorStep(0, a);
    }
  }

  lemma {:induction false} XorAssociates(a: nat, b: nat, c: nat)
    ensures Xor(Xor(a, b), c) == Xor(a, Xor(b, c))
    decreases a + b + c
  {
    if a + b + c > 0 {
      var ab, bc := Xor(a, b), Xor(b, c);
      var l, r := Xor(ab, c), Xor(a, bc);
      XorStep(a, b);
      XorStep(b, c);
      XorStep(ab, c);
      XorStep(a, bc);
      XorAssociates(a / 2, b / 2, c / 2);
      assert l / 2 == r / 2;
      assert l % 2 == r % 2;
      SameBits(l, r);
    }
  }

  /** `a ^ b == 0` exactly when `a == b`. */
  lemma {:induction false} XorZeroIff(a: nat, b: nat)
    ensures Xor(a, b) == 0 <==> a == b
    decreases a + b
  {
    if a + b > 0 {
      XorZeroIff(a / 2, b / 2);
      XorStep(a, b);
      if Xor(a, b) == 0 {
        SameBits(a, b);
      }
    }
  }

  lemma {:induction false} XorBound(a: nat, b: nat, k: nat)
    requires a < Pow2(k) && b < Pow2(k)
    ensures Xor(a, b) < Pow2(k)
  {
    XorStep(a, b);
    if k > 0 {
      XorBound(a / 2, b / 2, k - 1);
    }
  }

  /** XOR works on the low `k` bits and the bits above them separately. */
  lemma {:induction false} XorSplit(h1: nat, l1: nat, h2: nat, l2: nat, k: nat)
    requires l1 < Pow2(k) && l2 < Pow2(k)
    ensures Xor(h1 * Pow2(k) + l1, h2 * Pow2(k) + l2) == Xor(h1, h2) * Pow2(k) + Xor(l1, l2)
  {
    if k == 0 {
      XorZero(0);
    } else {
      var p := Pow2(k - 1);
      assert Pow2(k) == 2 * p;
      var a, b := h1 * Pow2(k) + l1, h2 * Pow2(k) + l2;
      var a', b' := h1 * p + l1 / 2, h2 * p + l2 / 2;
      Scale(h1, p);
      Scale(h2, p);
      Halve(a, a', l1 % 2);
      Halve(b, b', l2 % 2);
      XorSplit(h1, l1 / 2, h2, l2 / 2, k - 1);
      XorUnfold(a, b);
      XorUnfold(l1, l2);
      assert Differ(a, b) == Differ(l1, l2);
      var x := Xor(h1, h2);
      assert Xor(a, b) == 2 * (x * p) + 2 * Xor(l1 / 2, l2 / 2) + Differ(l1, l2);
      Scale(x, p);
    }
  }

  lemma Scale(h: nat, p: nat)
    ensures h * (2 * p) == 2 * (h * p)
  {
  }

  // ---- Integer/byte conversions ------------------------------------------

  /** Python's slice `s[lo:hi]` for `0 <= lo <= hi`: both bounds are clipped to
      the length of `s`, so a slice past the end is shorter or empty and never
      raises. */
  function PySlice(s: seq<Byte>, lo: nat, hi: nat): (r: seq<Byte>)
    requires lo <= hi
    ensures |r| == if |s| <= lo then 0 else if |s| < hi then |s| - lo else hi - lo
    ensures forall k :: 0 <= k < |r| ==> r[k] == s[lo + k]
  {
    if |s| <= lo then [] else if |s| < hi then s[lo..] else s[lo..hi]
  }

  /** Python's unsigned big-endian conversion of bytes to an integer; 0 for an
      empty `s`. */
  function FromBytesBig(s: seq<Byte>): (r: nat)
    ensures |s| == 0 ==> r == 0
    ensures |s| == 1 ==> r == s[0]
    ensures |s| == 2 ==> r == s[0] as int * 256 + s[1] as int
  {
    if s == [] then 0
    else
      var init := s[..|s| - 1];
      assert |s| == 2 ==> init == [s[0]];
      FromBytesBig(init) * 256 + s[|s| - 1] as int
  }

  /** The two big-endian bytes of an unsigned 16-bit value. */
  function ToBytesBig16(v: nat): (r: seq<Byte>)
    requires v < 0x10000
    ensures |r| == 2 && FromBytesBig(r) == v
  {
    [v / 256, v % 256]
  }

  /** Python's signed big-endian conversion of an integer to two bytes: two's
      complement, or None where Python raises OverflowError because `v` is
      outside [-32768, 32767]. */
  function ToBytesSigned16(v: int): (r: Option<seq<Byte>>)
    ensures r.Some? <==> -0x8000 <= v < 0x8000
    ensures r.Some? ==> |r.value| == 2
    ensures r.Some? ==> FromBytesBig(r.value) == if v < 0 then v + 0x10000 else v
  {
    if v < -0x8000 || v >= 0x8000 then None
    else if v < 0 then Some(ToBytesBig16(v + 0x10000))
    else Some(ToBytesBig16(v))
  }
}
