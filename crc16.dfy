/** CRC-16/MODBUS: the trailer of every Modbus RTU frame, as defined in
    section 6.2.2 and Appendix B ("CRC Generation") of the MODBUS over Serial
    Line Specification and Implementation Guide V1.02. The 16-bit register
    starts at 0xFFFF; each byte is XORed into its low half and then shifted
    out one bit at a time, XORing in 0xA001 (0x8005 with its bits reversed)
    whenever the bit shifted out is 1; there is no final XOR. The value goes
    on the wire low byte first.

    Registers are naturals below 0x10000; `x / 2` is a right shift by one,
    `x % 2` the bit shifted out, and `Xor` the bitwise exclusive or. */
module Crc16 {
  import opened Bytes

  const Init: nat := 0xFFFF
  const ReflectedPoly: nat := 0xA001

  /** A value of the 16-bit CRC register. */
  predicate IsRegister(c: nat) {
    c < 0x10000
  }

  /** One bit step of the shift register. */
  function ShiftBit(c: nat): (r: nat)
    ensures IsRegister(c) ==> IsRegister(r)
  {
    XorRegisterBound(c / 2, ReflectedPoly);
    if c % 2 == 1 then Xor(c / 2, ReflectedPoly) else c / 2
  }

  /** The XOR of two registers is a register. */
  lemma XorRegisterBound(a: nat, b: nat)
    ensures IsRegister(a) && IsRegister(b) ==> IsRegister(Xor(a, b))
  {
    if IsRegister(a) && IsRegister(b) {
      Pow2Values();
      XorBound(a, b, 16);
    }
  }

  /** `n` bit steps. */
  function ShiftBits(c: nat, n: nat): (r: nat)
    ensures IsRegister(c) ==> IsRegister(r)
  {
    if n == 0 then c else ShiftBit(ShiftBits(c, n - 1))
  }

  /** The register after one more data byte. */
  function UpdateByte(c: nat, b: Byte): (r: nat)
    ensures IsRegister(c) ==> IsRegister(r)
  {
    XorRegisterBound(c, b);
    ShiftBits(Xor(c, b), 8)
  }

  /** The register after `data`, starting from `c`. */
  function Fold(c: nat, data: seq<Byte>): (r: nat)
    ensures IsRegister(c) ==> IsRegister(r)
  {
    if data == [] then c else UpdateByte(Fold(c, data[..|data| - 1]), data[|data| - 1])
  }

  /** CRC-16/MODBUS of `data`. */
  function Crc(data: seq<Byte>): (r: nat)
    ensures IsRegister(r)
  {
    Fold(Init, data)
  }

  /** A 16-bit value read back from two bytes, low byte first. */
  function LittleEndian16(t: seq<Byte>): nat
    requires |t| == 2
  {
    t[0] as int + 256 * t[1] as int
  }

  /** The two trailer bytes of a CRC value, low byte first. */
  function Trailer(c: nat): (r: seq<Byte>)
    requires IsRegister(c)
    ensures |r| == 2 && LittleEndian16(r) == c
  {
    [c % 256, c / 256]
  }

  /** What a receiver checks: the last two bytes of `frame` are the CRC of the
      bytes before them. */
  predicate CrcMatches(frame: seq<Byte>) {
    |frame| >= 2 && LittleEndian16(frame[|frame| - 2..]) == Crc(frame[..|frame| - 2])
  }

  /** `calculate_crc`: the CRC of `data` as its two trailer bytes, computed
      with the byte loop and the bit loop of the bitwise algorithm. */
  method CalculateCrc(data: seq<Byte>) returns (trailer: seq<Byte>)
    ensures trailer == Trailer(Crc(data))
  {
    var crc: nat := Init;
    var i := 0;
    while i < |data|
      invariant 0 <= i <= |data|
      invariant crc == Crc(data[..i])
    {
      ghost var before := crc;
      crc := Xor(crc, data[i]);
      var j := 0;
      while j < 8
        invariant 0 <= j <= 8
        invariant crc == ShiftBits(Xor(before, data[i]), j)
      {
        if crc % 2 == 1 {
          crc := Xor(crc / 2, ReflectedPoly);
        } else {
          crc := crc / 2;
        }
        j := j + 1;
      }
      assert data[..i + 1][..i] == data[..i];
      i := i + 1;
    }
    assert data[..|data|] == data;
    trailer := [crc % 256, crc / 256];
  }

  // ---- The shift register is linear and loses no information -------------

  lemma XorRegroup(a: nat, b: nat, p: nat)
    ensures Xor(Xor(a, p), Xor(b, p)) == Xor(a, b)
    ensures Xor(Xor(a, p), b) == Xor(Xor(a, b), p)
    ensures Xor(a, Xor(b, p)) == Xor(Xor(a, b), p)
  {
    XorAssociates(a, p, Xor(b, p));
    XorAssociates(p, b, p);
    XorCommutes(p, b);
    XorAssociates(b, p, p);
    XorZeroIff(p, p);
    XorZero(b);
    XorAssociates(a, p, b);
    XorCommutes(p, b);
    XorAssociates(a, b, p);
  }

  lemma ShiftBitLinear(a: nat, b: nat)
    ensures ShiftBit(Xor(a, b)) == Xor(ShiftBit(a), ShiftBit(b))
  {
    XorStep(a, b);
    XorRegroup(a / 2, b / 2, ReflectedPoly);
  }

  lemma {:induction false} ShiftBitsLinear(a: nat, b: nat, n: nat)
    ensures ShiftBits(Xor(a, b), n) == Xor(ShiftBits(a, n), ShiftBits(b, n))
  {
    if n > 0 {
      ShiftBitsLinear(a, b, n - 1);
      ShiftBitLinear(ShiftBits(a, n - 1), ShiftBits(b, n - 1));
    }
  }

  lemma ShiftBitNonZero(a: nat)
    requires IsRegister(a) && a != 0
    ensures ShiftBit(a) != 0
  {
    XorZeroIff(a / 2, ReflectedPoly);
  }

  lemma {:induction false} ShiftBitsNonZero(a: nat, n: nat)
    requires IsRegister(a) && a != 0
    ensures ShiftBits(a, n) != 0
  {
    if n > 0 {
      ShiftBitsNonZero(a, n - 1);
      ShiftBitNonZero(ShiftBits(a, n - 1));
    }
  }

  /** Different registers stay different after any number of bit steps. */
  lemma ShiftBitsInjective(u: nat, v: nat, n: nat)
    requires IsRegister(u) && IsRegister(v) && u != v
    ensures ShiftBits(u, n) != ShiftBits(v, n)
  {
    Pow2Values();
    XorBound(u, v, 16);
    XorZeroIff(u, v);
    ShiftBitsNonZero(Xor(u, v), n);
    ShiftBitsLinear(u, v, n);
    XorZeroIff(ShiftBits(u, n), ShiftBits(v, n));
  }

  /** Bit steps over a register whose low `n` bits are 0 just shift it right. */
  lemma {:induction false} ShiftBitsShiftOut(x: nat, n: nat)
    decreases n
    ensures ShiftBits(x * Pow2(n), n) == x
  {
    if n > 0 {
      var p := Pow2(n - 1);
      Regroup(x, p);
      ShiftBitsShiftOut(2 * x, n - 1);
      Halve(2 * x, x, 0);
    }
  }

  lemma Regroup(x: nat, p: nat)
    ensures x * (2 * p) == (2 * x) * p
  {
  }

  lemma {:induction false} ShiftBitsZero(n: nat)
    ensures ShiftBits(0, n) == 0
  {
    if n > 0 {
      ShiftBitsZero(n - 1);
    }
  }

  // ---- Trailer properties ----------------------------------------------

  /** Folding a concatenation is folding its parts one after the other. */
  lemma {:induction false} FoldAppend(c: nat, a: seq<Byte>, b: seq<Byte>)
    ensures Fold(c, a + b) == Fold(Fold(c, a), b)
  {
    if b == [] {
      assert a + b == a;
    } else {
      var b' := b[..|b| - 1];
      assert (a + b)[..|a + b| - 1] == a + b';
      FoldAppend(c, a, b');
    }
  }

  /** The register after two more bytes. */
  lemma FoldTwo(c: nat, data: seq<Byte>, x: Byte, y: Byte)
    ensures Fold(c, data + [x, y]) == UpdateByte(UpdateByte(Fold(c, data), x), y)
  {
    FoldAppend(c, data, [x, y]);
    assert [x, y][..1] == [x];
    assert [x][..0] == [];
    assert Fold(Fold(c, data), [x]) == UpdateByte(Fold(c, data), x);
  }

  /** XORing a register with its own low byte leaves its high byte, shifted. */
  lemma ClearLowByte(c: nat)
    requires IsRegister(c)
    ensures Xor(c, c % 256) == (c / 256) * 256
  {
    Pow2Values();
    XorSplit(c / 256, c % 256, 0, c % 256, 8);
    XorZero(c / 256);
    XorZeroIff(c % 256, c % 256);
  }

  /** Appending its own trailer to a message brings the CRC register to 0:
      a receiver can check a frame by running the CRC over all of it. */
  lemma TrailerResidue(data: seq<Byte>)
    ensures Crc(data + Trailer(Crc(data))) == 0
  {
    var c := Crc(data);
    var lo, hi := c % 256, c / 256;
    assert Trailer(c) == [lo, hi];
    FoldTwo(Init, data, lo, hi);
    ClearLowByte(c);
    Pow2Values();
    ShiftBitsShiftOut(hi, 8);
    XorZeroIff(hi, hi);
    ShiftBitsZero(8);
  }

  /** The two bytes that bring the register to 0 are its trailer and no others. */
  lemma ZeroResidueOnlyForTrailer(c: nat, x: Byte, y: Byte)
    requires IsRegister(c) && UpdateByte(UpdateByte(c, x), y) == 0
    ensures [x, y] == Trailer(c)
  {
    var u := UpdateByte(c, x);
    ZeroOnlyAfterEqualByte(u, y);
    OnlyLowByteLeavesHighByte(c, x, y);
  }

  /** A byte step brings a register to 0 only if the byte equals the register. */
  lemma ZeroOnlyAfterEqualByte(u: nat, y: Byte)
    requires IsRegister(u) && UpdateByte(u, y) == 0
    ensures u == y
  {
    XorRegisterBound(u, y);
    ShiftBitsZero(8);
    if Xor(u, y) != 0 {
      ShiftBitsInjective(Xor(u, y), 0, 8);
    }
    XorZeroIff(u, y);
  }

  /** A byte step leaves just a byte in the register only if that byte was
      the register's low byte, and it then leaves the high byte. */
  lemma OnlyLowByteLeavesHighByte(c: nat, x: Byte, y: Byte)
    requires IsRegister(c) && UpdateByte(c, x) == y
    ensures x == c % 256 && y == c / 256
  {
    Pow2Values();
    XorRegisterBound(c, x);
    ShiftBitsShiftOut(y, 8);
    if Xor(c, x) != y * 256 {
      ShiftBitsInjective(Xor(c, x), y * 256, 8);
    }
    XorSplit(c / 256, c % 256, 0, x, 8);
    XorZero(c / 256);
    XorBound(c % 256, x, 8);
    DigitsUnique(c / 256, Xor(c % 256, x), y, 0);
    XorZeroIff(c % 256, x);
  }

  lemma DigitsUnique(h1: nat, l1: nat, h2: nat, l2: nat)
    requires l1 < 256 && l2 < 256 && h1 * 256 + l1 == h2 * 256 + l2
    ensures h1 == h2 && l1 == l2
  {
  }

  /** The trailer is the only pair of bytes that reads back as the value. */
  lemma TrailerUnique(c: nat, t: seq<Byte>)
    requires IsRegister(c) && |t| == 2 && LittleEndian16(t) == c
    ensures t == Trailer(c)
  {
  }

  /** Checking the trailer is the same as running the CRC over the whole frame
      and getting 0. */
  lemma CrcMatchesIffZeroResidue(frame: seq<Byte>)
    requires |frame| >= 2
    ensures CrcMatches(frame) <==> Crc(frame) == 0
  {
    var n := |frame|;
    var body, x, y := frame[..n - 2], frame[n - 2], frame[n - 1];
    assert frame == body + [x, y];
    assert frame[n - 2..] == [x, y];
    FoldTwo(Init, body, x, y);
    if CrcMatches(frame) {
      TrailerUnique(Crc(body), [x, y]);
      TrailerResidue(body);
    }
    if Crc(frame) == 0 {
      ZeroResidueOnlyForTrailer(Crc(body), x, y);
    }
  }

  /** A receiver accepts every frame this CRC was appended to. */
  lemma TrailerAccepted(data: seq<Byte>)
    ensures CrcMatches(data + Trailer(Crc(data)))
  {
  }

  // ---- Error detection -------------------------------------------------

  /** One byte step is injective in the register. */
  lemma UpdateByteInjective(c1: nat, c2: nat, b: Byte)
    requires IsRegister(c1) && IsRegister(c2) && c1 != c2
    ensures UpdateByte(c1, b) != UpdateByte(c2, b)
  {
    Pow2Values();
    Pow2Monotonic(8, 16);
    XorBound(c1, b, 16);
    XorBound(c2, b, 16);
    XorRegroup(c1, c2, b);
    XorZeroIff(c1, c2);
    XorZeroIff(Xor(c1, b), Xor(c2, b));
    ShiftBitsInjective(Xor(c1, b), Xor(c2, b), 8);
  }

  /** One byte step is injective in the byte. */
  lemma UpdateByteInjectiveInByte(c: nat, x: Byte, y: Byte)
    requires IsRegister(c) && x != y
    ensures UpdateByte(c, x) != UpdateByte(c, y)
  {
    Pow2Values();
    Pow2Monotonic(8, 16);
    XorBound(c, x, 16);
    XorBound(c, y, 16);
    XorCommutes(c, x);
    XorCommutes(c, y);
    XorRegroup(x, y, c);
    XorZeroIff(x, y);
    XorZeroIff(Xor(c, x), Xor(c, y));
    ShiftBitsInjective(Xor(c, x), Xor(c, y), 8);
  }

  /** Two different registers stay different whatever bytes follow. */
  lemma {:induction false} DifferenceSurvives(c1: nat, c2: nat, data: seq<Byte>)
    requires IsRegister(c1) && IsRegister(c2) && c1 != c2
    ensures Fold(c1, data) != Fold(c2, data)
  {
    if data != [] {
      var init := data[..|data| - 1];
      DifferenceSurvives(c1, c2, init);
      UpdateByteInjective(Fold(c1, init), Fold(c2, init), data[|data| - 1]);
    }
  }

  /** Changing one byte of a message always changes its CRC. */
  lemma SingleByteErrorDetected(data: seq<Byte>, i: nat, y: Byte)
    requires i < |data| && y != data[i]
    ensures Crc(data[i := y]) != Crc(data)
  {
    var p, q := data[..i], data[i + 1..];
    var x := data[i];
    assert data == (p + [x]) + q;
    assert data[i := y] == (p + [y]) + q;
    FoldAppend(Init, p + [x], q);
    FoldAppend(Init, p + [y], q);
    assert (p + [x])[..|p|] == p;
    assert (p + [y])[..|p|] == p;
    var c := Fold(Init, p);
    UpdateByteInjectiveInByte(c, x, y);
    DifferenceSurvives(UpdateByte(c, x), UpdateByte(c, y), q);
  }

  /** `data` with bit `k` of byte `i` inverted. */
  function FlipBit(data: seq<Byte>, i: nat, k: nat): (r: seq<Byte>)
    requires i < |data| && k < 8
    ensures |r| == |data| && r[i] != data[i]
    ensures r[i] == Xor(data[i], Pow2(k))
    ensures forall j :: 0 <= j < |data| && j != i ==> r[j] == data[j]
  {
    var b := data[i];
    Pow2Values();
    Pow2Monotonic(k, 8);
    XorBound(b, Pow2(k), 8);
    XorRegroup(0, b, Pow2(k));
    XorZero(b);
    XorZero(Pow2(k));
    XorZeroIff(b, b);
    XorCommutes(b, Pow2(k));
    XorAssociates(Pow2(k), b, b);
    XorZeroIff(Xor(b, Pow2(k)), b);
    data[i := Xor(b, Pow2(k))]
  }

  /** No single-bit error in a message goes unnoticed. */
  lemma SingleBitErrorDetected(data: seq<Byte>, i: nat, k: nat)
    requires i < |data| && k < 8
    ensures Crc(FlipBit(data, i, k)) != Crc(data)
  {
    var r := FlipBit(data, i, k);
    assert r == data[i := r[i]];
    SingleByteErrorDetected(data, i, r[i]);
  }
}
