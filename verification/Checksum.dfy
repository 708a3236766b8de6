/** CRC-32 (reflected polynomial 0xEDB88320) over naturals, as src/fs/disk.rs takes it from crc32fast.
    Every proof uses only that it is a function: nothing is claimed about collisions. */
module Checksum {
  import opened Bytes

  function Pow2(n: nat): nat {
    if n == 0 then 1 else 2 * Pow2(n - 1)
  }

  function Xor(a: nat, b: nat, bits: nat): (r: nat)
    ensures r < Pow2(bits)
  {
    if bits == 0 then 0
    else 2 * Xor(a / 2, b / 2, bits - 1) + (a + b) % 2
  }

  function Shift(c: nat, steps: nat): nat
    decreases steps
  {
    if steps == 0 then c
    else Shift(if c % 2 == 1 then Xor(c / 2, 0xEDB8_8320, 32) else c / 2, steps - 1)
  }

  function Fold(data: seq<byte>, c: nat): nat {
    if data == [] then c else Fold(data[1..], Shift(Xor(c, data[0] as int, 32), 8))
  }

  lemma Pow2Of32()
    ensures Pow2(32) == 0x1_0000_0000
  {
    assert Pow2(8) == 256;
    assert Pow2(16) == 65536;
    assert Pow2(24) == 16777216;
  }

  function Crc32(data: seq<byte>): u32 {
    Pow2Of32();
    Xor(Fold(data, 0xFFFF_FFFF), 0xFFFF_FFFF, 32)
  }

  // ---- a check value ----

  lemma {:induction false} XorZero(b: nat, n: nat)
    requires b < Pow2(n)
    ensures Xor(0, b, n) == b
  {
    if n > 0 {
      XorZero(b / 2, n - 1);
    }
  }

  /** Exclusive or with ones in the low `m` bits turns those over and keeps the `n` bits above. */
  lemma {:induction false} XorLowOnes(hi: nat, lo: nat, m: nat, n: nat)
    requires hi < Pow2(n) && lo < Pow2(m)
    ensures Xor(Pow2(m) - 1, hi * Pow2(m) + lo, m + n) == hi * Pow2(m) + (Pow2(m) - 1 - lo)
  {
    hide Xor, Pow2;
    Pow2Step(m);
    if m == 0 {
      XorZero(hi, n);
    } else {
      var q, h := Pow2(m - 1), hi * Pow2(m - 1);
      XorLowOnes(hi, lo / 2, m - 1, n);
      DoubledProduct(hi, q);
      XorStep(2 * q - 1, 2 * h + lo, m + n);
      HalvedSum(q, h, lo);
    }
  }

  lemma Pow2Step(m: nat)
    ensures Pow2(0) == 1 && (m > 0 ==> Pow2(m) == 2 * Pow2(m - 1))
  {
  }

  lemma DoubledProduct(a: nat, q: nat)
    ensures a * (2 * q) == 2 * (a * q)
  {
  }

  lemma XorStep(a: nat, b: nat, n: nat)
    requires n > 0
    ensures Xor(a, b, n) == 2 * Xor(a / 2, b / 2, n - 1) + (a + b) % 2
  {
  }

  lemma HalvedSum(q: nat, h: nat, lo: nat)
    requires q > 0
    ensures (2 * q - 1) / 2 == q - 1 && (2 * h + lo) / 2 == h + lo / 2
    ensures (2 * q - 1 + (2 * h + lo)) % 2 == 1 - lo % 2
  {
  }

  lemma {:induction false} XorSymmetric(a: nat, b: nat, n: nat)
    ensures Xor(a, b, n) == Xor(b, a, n)
  {
    if n > 0 {
      XorSymmetric(a / 2, b / 2, n - 1);
    }
  }

  lemma PowersOf2()
    ensures Pow2(8) == 0x100 && Pow2(24) == 0x100_0000 && Pow2(32) == 0x1_0000_0000 && Pow2(0) == 1
  {
    Pow2Of32();
    assert Pow2(8) == 256;
    assert Pow2(16) == 65536;
    assert Pow2(24) == 16777216;
  }

  lemma FirstXors()
    ensures Xor(0xFFFF_FFFF, 0x7F, 32) == 0xFFFF_FF80 && Xor(0xFF_FFFF, 0xEDB8_8320, 32) == 0xED47_7CDF
    ensures Xor(0xED47_7CDF, 0xFFFF_FFFF, 32) == 0x12B8_8320
  {
    PowersOf2();
    hide Xor, Pow2;
    XorLowOnes(0, 0x7F, 32, 0);
    XorLowOnes(0xED, 0xB8_8320, 24, 8);
    XorLowOnes(0, 0xED47_7CDF, 32, 0);
    XorSymmetric(0xED47_7CDF, 0xFFFF_FFFF, 32);
  }

  lemma ShiftStep(c: nat, steps: nat)
    requires steps > 0
    ensures c % 2 == 0 ==> Shift(c, steps) == Shift(c / 2, steps - 1)
    ensures c % 2 == 1 ==> Shift(c, steps) == Shift(Xor(c / 2, 0xEDB8_8320, 32), steps - 1)
    ensures Shift(c, 0) == c
  {
  }

  /** Seven bits are shifted out and the eighth takes the polynomial in. */
  lemma ShiftedOut()
    ensures Shift(0xFFFF_FF80, 8) == 0xED47_7CDF
  {
    FirstXors();
    hide Xor, Shift;
    ShiftStep(0xFFFF_FF80, 8);
    ShiftStep(0x7FFF_FFC0, 7);
    ShiftStep(0x3FFF_FFE0, 6);
    ShiftStep(0x1FFF_FFF0, 5);
    ShiftStep(0x0FFF_FFF8, 4);
    ShiftStep(0x07FF_FFFC, 3);
    ShiftStep(0x03FF_FFFE, 2);
    ShiftStep(0x01FF_FFFF, 1);
    ShiftStep(0xED47_7CDF, 1);
  }

  /** The CRC-32 of the one byte 7F is 12B88320. */
  lemma CheckValue()
    ensures Crc32([0x7F]) == 0x12B8_8320
  {
    FirstXors();
    ShiftedOut();
    hide Xor, Shift;
    var data: seq<byte> := [0x7F];
    assert data[1..] == [];
    assert Fold(data, 0xFFFF_FFFF) == Fold(data[1..], 0xED47_7CDF) == 0xED47_7CDF;
  }
}
