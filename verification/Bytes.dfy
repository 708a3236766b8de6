/** Bytes, fixed-width integers and their little-endian encodings (src/fs/disk.rs). */
module Bytes {
  newtype byte = x: int | 0 <= x < 256
  type u32 = x: int | 0 <= x < 0x1_0000_0000
  type u64 = x: int | 0 <= x < 0x1_0000_0000_0000_0000

  datatype Option<+T> = None | Some(value: T)

  function Min(a: nat, b: nat): nat { if a <= b then a else b }

  function Max(a: nat, b: nat): nat { if a <= b then b else a }

  function SetOf(s: seq<nat>): set<nat> {
    set x | x in s
  }

  /** `n` zero bytes. */
  function Zeros(n: nat): (z: seq<byte>)
    ensures |z| == n && forall i :: 0 <= i < n ==> z[i] == 0
  {
    seq(n, _ => 0)
  }

  function Pow256(n: nat): nat {
    if n == 0 then 1 else 256 * Pow256(n - 1)
  }

  /** The low `n` bytes of `v`, least significant first. */
  function ToLe(v: nat, n: nat): (b: seq<byte>)
    ensures |b| == n
  {
    if n == 0 then [] else [(v % 256) as byte] + ToLe(v / 256, n - 1)
  }

  function FromLe(b: seq<byte>): nat {
    if b == [] then 0 else b[0] as int + 256 * FromLe(b[1..])
  }

  lemma {:induction false} LeRoundTrip(v: nat, n: nat)
    requires v < Pow256(n)
    ensures FromLe(ToLe(v, n)) == v
  {
    if n > 0 {
      LeRoundTrip(v / 256, n - 1);
      assert ToLe(v, n)[1..] == ToLe(v / 256, n - 1);
    }
  }

  lemma {:induction false} FromLeBound(b: seq<byte>)
    ensures FromLe(b) < Pow256(|b|)
  {
    if b != [] {
      FromLeBound(b[1..]);
    }
  }

  /** Every byte sequence is the encoding of the number it decodes to. */
  lemma {:induction false} LeExact(b: seq<byte>)
    ensures ToLe(FromLe(b), |b|) == b
  {
    if b != [] {
      LeExact(b[1..]);
      assert b == [b[0]] + b[1..];
    }
  }

  lemma DivideTwice(v: nat, k: nat)
    requires k > 0
    ensures v / 256 / k == v / (256 * k)
  {
    var q, r := v / (256 * k), v % (256 * k);
    assert v == 256 * (k * q) + r;
    assert v / 256 == k * q + r / 256;
    assert r / 256 < k;
    DivideIs(v / 256, k, q, r / 256);
  }

  lemma DivideIs(a: nat, k: nat, q: nat, r: nat)
    requires a == k * q + r && r < k
    ensures a / k == q
  {
    var d: int, m: int := a / k, a % k;
    assert k * (d - q) == r - m;
    FarFromZero(k, d - q);
  }

  lemma FarFromZero(k: nat, x: int)
    ensures x > 0 ==> k * x >= k
    ensures x < 0 ==> k * x + k <= 0
  {
  }

  lemma {:induction false} Pow256Positive(n: nat)
    ensures Pow256(n) > 0
  {
    if n > 0 {
      Pow256Positive(n - 1);
    }
  }

  /** Byte `i` is the `i`-th digit of the number to base 256, from the least significant. */
  lemma {:induction false} LeByte(v: nat, n: nat, i: nat)
    requires i < n
    ensures Pow256(i) > 0 && ToLe(v, n)[i] as int == v / Pow256(i) % 256
  {
    Pow256Positive(i);
    if i > 0 {
      LeByte(v / 256, n - 1, i - 1);
      DivideTwice(v, Pow256(i - 1));
    }
  }

  lemma Widths()
    ensures Pow256(4) == 0x1_0000_0000
    ensures Pow256(8) == 0x1_0000_0000_0000_0000
  {
    assert Pow256(1) == 0x100;
    assert Pow256(2) == 0x1_0000;
    assert Pow256(3) == 0x100_0000;
    assert Pow256(4) == 0x1_0000_0000;
    assert Pow256(5) == 0x100_0000_0000;
    assert Pow256(6) == 0x1_0000_0000_0000;
    assert Pow256(7) == 0x100_0000_0000_0000;
  }

  function U32ToLe(v: u32): (b: seq<byte>)
    ensures |b| == 4 && FromLe(b) == v
  {
    Widths();
    LeRoundTrip(v, 4);
    ToLe(v, 4)
  }

  function U64ToLe(v: u64): (b: seq<byte>)
    ensures |b| == 8 && FromLe(b) == v
  {
    Widths();
    LeRoundTrip(v, 8);
    ToLe(v, 8)
  }

  function LeToU32(b: seq<byte>): (v: u32)
    requires |b| == 4
    ensures v == FromLe(b)
  {
    Widths();
    FromLeBound(b);
    FromLe(b)
  }

  function LeToU64(b: seq<byte>): (v: u64)
    requires |b| == 8
    ensures v == FromLe(b)
  {
    Widths();
    FromLeBound(b);
    FromLe(b)
  }

  lemma {:induction false} FromLeConcat(a: seq<byte>, b: seq<byte>)
    ensures FromLe(a + b) == FromLe(a) + Pow256(|a|) * FromLe(b)
  {
    if a == [] {
      assert a + b == b;
    } else {
      assert (a + b)[1..] == a[1..] + b;
      FromLeConcat(a[1..], b);
      assert 256 * (Pow256(|a| - 1) * FromLe(b)) == (256 * Pow256(|a| - 1)) * FromLe(b);
    }
  }

  /** A 64-bit number written as two 32-bit halves, the low one first, is the number written at once. */
  lemma TwoHalves(v: u64)
    ensures U32ToLe(v % 0x1_0000_0000) + U32ToLe(v / 0x1_0000_0000) == ToLe(v, 8)
  {
    Widths();
    var b := U32ToLe(v % 0x1_0000_0000) + U32ToLe(v / 0x1_0000_0000);
    FromLeConcat(U32ToLe(v % 0x1_0000_0000), U32ToLe(v / 0x1_0000_0000));
    LeExact(b);
  }

  lemma Le32Exact(b: seq<byte>)
    requires |b| == 4
    ensures U32ToLe(LeToU32(b)) == b
  {
    LeExact(b);
  }

  lemma Le64Exact(b: seq<byte>)
    requires |b| == 8
    ensures U64ToLe(LeToU64(b)) == b
  {
    LeExact(b);
  }

  lemma SliceOfSlice<T>(s: seq<T>, a: nat, b: nat, i: nat, j: nat)
    requires i <= j && a + j <= b <= |s|
    ensures s[a..b][i..j] == s[a + i..a + j]
  {
    var x, y := s[a..b][i..j], s[a + i..a + j];
    forall k | 0 <= k < j - i ensures x[k] == y[k] {
      assert x[k] == s[a..b][i + k] == s[a + (i + k)];
    }
  }

  lemma FrontSlices(a: seq<byte>, b: seq<byte>, n: nat)
    requires n <= |a| && n <= |b| && a[..n] == b[..n]
    ensures forall i, j {:trigger a[i..j]} {:trigger b[i..j]} :: 0 <= i <= j <= n ==> a[i..j] == b[i..j]
    ensures forall i {:trigger a[..i]} {:trigger b[..i]} :: 0 <= i <= n ==> a[..i] == b[..i]
  {
    forall i, j | 0 <= i <= j <= n ensures a[i..j] == b[i..j] {
      SliceOfSlice(a, 0, n, i, j);
      SliceOfSlice(b, 0, n, i, j);
    }
    forall i | 0 <= i <= n ensures a[..i] == b[..i] {
      assert a[..i] == a[..n][..i] && b[..i] == b[..n][..i];
    }
  }
}
