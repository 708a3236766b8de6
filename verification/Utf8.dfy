/** Byte strings as the standard library reads them with `String::from_utf8_lossy`: every maximal piece that is not
    UTF-8 becomes one U+FFFD. */
module Utf8 {
  import opened Bytes

  type Utf8 = seq<byte>

  /** U+FFFD, encoded. */
  const REPLACEMENT: Utf8 := [0xEF, 0xBF, 0xBD]

  /** The length of the character a byte begins; 0 for a byte that begins none. */
  function Width(b: byte): nat {
    if b < 0x80 then 1
    else if 0xC2 <= b <= 0xDF then 2
    else if 0xE0 <= b <= 0xEF then 3
    else if 0xF0 <= b <= 0xF4 then 4
    else 0
  }

  predicate Continues(b: byte) {
    0x80 <= b <= 0xBF
  }

  /** The second byte may not make the character overlong, a surrogate or too large. */
  predicate MayFollow(first: byte, second: byte) {
    && Continues(second)
    && (first == 0xE0 ==> 0xA0 <= second)
    && (first == 0xED ==> second <= 0x9F)
    && (first == 0xF0 ==> 0x90 <= second)
    && (first == 0xF4 ==> second <= 0x8F)
  }

  /** The bytes the decoder takes in one step: a character, or what looks like the beginning of one. */
  function Step(s: Utf8): (n: nat)
    requires s != []
    ensures 0 < n <= |s| && n <= 4
  {
    var w := Width(s[0]);
    if w <= 1 || |s| < 2 || !MayFollow(s[0], s[1]) then 1
    else if w == 2 || |s| < 3 || !Continues(s[2]) then 2
    else if w == 3 || |s| < 4 || !Continues(s[3]) then 3
    else 4
  }

  predicate BeginsChar(s: Utf8)
    requires s != []
  {
    Step(s) == Width(s[0])
  }

  predicate Valid(s: Utf8) {
    s == [] || (BeginsChar(s) && Valid(s[Step(s)..]))
  }

  // ---- what valid means ----

  /** A Unicode scalar value: any code point that is not a surrogate. */
  predicate Scalar(c: nat) {
    c < 0xD800 || 0xE000 <= c < 0x11_0000
  }

  /** The encoding of a scalar value: its bits, six to a byte from the end, behind the length in the first byte. */
  function Encoded(c: nat): (b: Utf8)
    requires Scalar(c)
    ensures 0 < |b| <= 4
  {
    if c < 0x80 then [c as byte]
    else if c < 0x800 then [(0xC0 + c / 64) as byte, (0x80 + c % 64) as byte]
    else if c < 0x1_0000 then [(0xE0 + c / 4096) as byte, (0x80 + c / 64 % 64) as byte, (0x80 + c % 64) as byte]
    else [(0xF0 + c / 262144) as byte, (0x80 + c / 4096 % 64) as byte, (0x80 + c / 64 % 64) as byte,
          (0x80 + c % 64) as byte]
  }

  ghost predicate Scalars(cs: seq<nat>) {
    forall c :: c in cs ==> Scalar(c)
  }

  function EncodedAll(cs: seq<nat>): Utf8
    requires forall c :: c in cs ==> Scalar(c)
  {
    if cs == [] then [] else Encoded(cs[0]) + EncodedAll(cs[1..])
  }

  /** What the three and four bytes of a longer encoding are made of. */
  lemma Digits(c: nat)
    requires 0x800 <= c < 0x11_0000
    ensures var x, y, z := c / 4096, c / 64 % 64, c % 64;
            && c == x * 4096 + y * 64 + z
            && c / 262144 == x / 64 && c / 4096 % 64 == x % 64
  {
  }

  lemma CharIsOne(c: nat, rest: Utf8)
    requires Scalar(c)
    ensures var s := Encoded(c) + rest;
            BeginsChar(s) && Step(s) == |Encoded(c)| && s[Step(s)..] == rest
  {
    var b, s := Encoded(c), Encoded(c) + rest;
    EncodedFits(c);
    hide Encoded, Scalar;
    assert forall i :: 0 <= i < |b| ==> s[i] == b[i];
    assert Step(s) == |b|;
  }

  /** The bytes of an encoding are of the kinds the decoder asks for. */
  lemma EncodedFits(c: nat)
    requires Scalar(c)
    ensures var b := Encoded(c);
            && Width(b[0]) == |b| && (|b| > 1 ==> MayFollow(b[0], b[1]))
            && (|b| > 2 ==> Continues(b[2])) && (|b| > 3 ==> Continues(b[3]))
  {
    if 0x800 <= c {
      Digits(c);
    }
  }

  lemma FromDigits(x: nat, y: nat, z: nat)
    requires y < 64 && z < 64
    ensures var c := x * 4096 + y * 64 + z;
            c / 4096 == x && c / 64 % 64 == y && c % 64 == z && c / 262144 == x / 64
  {
    var c := x * 4096 + y * 64 + z;
    assert c / 64 == x * 64 + y;
  }

  lemma ThreeAreChar(a: byte, b: byte, d: byte) returns (c: nat)
    requires 0xE0 <= a <= 0xEF && MayFollow(a, b) && Continues(d)
    ensures Scalar(c) && Encoded(c) == [a, b, d]
  {
    var x, y, z := a as nat - 0xE0, b as nat - 0x80, d as nat - 0x80;
    c := x * 4096 + y * 64 + z;
    FromDigits(x, y, z);
  }

  lemma FourAreChar(a: byte, b: byte, d: byte, e: byte) returns (c: nat)
    requires 0xF0 <= a <= 0xF4 && MayFollow(a, b) && Continues(d) && Continues(e)
    ensures Scalar(c) && Encoded(c) == [a, b, d, e]
  {
    var w, x, y, z := a as nat - 0xF0, b as nat - 0x80, d as nat - 0x80, e as nat - 0x80;
    c := (w * 64 + x) * 4096 + y * 64 + z;
    FromDigits(w * 64 + x, y, z);
  }

  lemma TwoAreChar(a: byte, b: byte) returns (c: nat)
    requires 0xC2 <= a <= 0xDF && Continues(b)
    ensures Scalar(c) && Encoded(c) == [a, b]
  {
    c := (a as nat - 0xC0) * 64 + (b as nat - 0x80);
  }

  lemma OneIsOne(a: byte)
    requires a < 0x80
    ensures Scalar(a as nat) && Encoded(a as nat) == [a]
  {
  }

  /** The scalar value whose encoding stands at the front. */
  lemma OneIsChar(s: Utf8) returns (c: nat)
    requires s != [] && BeginsChar(s)
    ensures Scalar(c) && Encoded(c) == s[..Step(s)]
  {
    hide Encoded, Scalar, MayFollow, Continues;
    var n := Step(s);
    if n == 1 {
      OneIsOne(s[0]);
      c := s[0] as nat;
    } else if n == 2 {
      FollowContinues(s[0], s[1]);
      c := TwoAreChar(s[0], s[1]);
    } else if n == 3 {
      c := ThreeAreChar(s[0], s[1], s[2]);
    } else {
      c := FourAreChar(s[0], s[1], s[2], s[3]);
    }
  }

  lemma FollowContinues(a: byte, b: byte)
    requires MayFollow(a, b)
    ensures Continues(b)
  {
  }

  /** The valid strings are exactly the encodings of sequences of scalar values. */
  lemma ValidIs(s: Utf8)
    ensures Valid(s) <==> exists cs :: Scalars(cs) && EncodedAll(cs) == s
  {
    if Valid(s) {
      var cs := Decoded(s);
    }
    forall cs | Scalars(cs) ensures Valid(EncodedAll(cs)) {
      AllValid(cs);
    }
  }

  lemma {:induction false} Decoded(s: Utf8) returns (cs: seq<nat>)
    requires Valid(s)
    ensures Scalars(cs) && EncodedAll(cs) == s
  {
    hide Encoded, Step, BeginsChar, Scalar;
    if s == [] {
      cs := [];
    } else {
      var c := OneIsChar(s);
      var rest := Decoded(s[Step(s)..]);
      cs := [c] + rest;
      assert cs[1..] == rest;
      assert s == s[..Step(s)] + s[Step(s)..];
    }
  }

  lemma {:induction false} AllValid(cs: seq<nat>)
    requires Scalars(cs)
    ensures Valid(EncodedAll(cs))
  {
    hide Encoded;
    if cs != [] {
      AllValid(cs[1..]);
      CharIsOne(cs[0], EncodedAll(cs[1..]));
    }
  }

  function Lossy(s: Utf8): Utf8 {
    if s == [] then []
    else (if BeginsChar(s) then s[..Step(s)] else REPLACEMENT) + Lossy(s[Step(s)..])
  }

  /** Whatever the bytes, what is read from them is a valid string. */
  lemma {:induction false} LossyIsValid(s: Utf8)
    ensures Valid(Lossy(s))
  {
    hide Encoded, Step, BeginsChar;
    if s != [] {
      var rest := s[Step(s)..];
      LossyIsValid(rest);
      if BeginsChar(s) {
        var c := OneIsChar(s);
        CharIsOne(c, Lossy(rest));
      } else {
        ReplacementIsChar();
        CharIsOne(0xFFFD, Lossy(rest));
      }
    }
  }

  lemma ReplacementIsChar()
    ensures Encoded(0xFFFD) == REPLACEMENT
  {
  }

  lemma {:induction false} ValidIsKept(s: Utf8)
    requires Valid(s)
    ensures Lossy(s) == s
  {
    if s != [] {
      ValidIsKept(s[Step(s)..]);
    }
  }

  /** A valid string that was cut short is read back whole exactly when it ends in U+FFFD and the cut fell into it. */
  lemma {:induction false} CutIsKept(s: Utf8, n: nat)
    requires Valid(s) && n < |s|
    ensures Lossy(s[..n]) == s <==> 3 <= |s| < n + 3 && s[|s| - 3..] == REPLACEMENT
    decreases |s|
  {
    var w := Step(s);
    if n >= w {
      CutBehindChar(s, n);
      var rest := s[w..];
      CutIsKept(rest, n - w);
      if |rest| >= 3 {
        assert rest[|rest| - 3..] == s[|s| - 3..];
      } else if |s| >= 3 {
        assert rest[0] == s[w] && Width(rest[0]) != 0;
        assert s[|s| - 3..][w - (|s| - 3)] == s[w];
      }
    } else {
      CutInsideChar(s, n);
    }
  }

  lemma CutBehindChar(s: Utf8, n: nat)
    requires s != [] && BeginsChar(s) && Step(s) <= n <= |s|
    ensures Lossy(s[..n]) == s <==> Lossy(s[Step(s)..][..n - Step(s)]) == s[Step(s)..]
  {
    hide Step, Width, BeginsChar, Lossy;
    LossyOfCut(s, n);
    SamePrefix(s[..Step(s)], Lossy(s[Step(s)..][..n - Step(s)]), s[Step(s)..]);
    assert s == s[..Step(s)] + s[Step(s)..];
  }

  lemma LossyOfCut(s: Utf8, n: nat)
    requires s != [] && BeginsChar(s) && Step(s) <= n <= |s|
    ensures Lossy(s[..n]) == s[..Step(s)] + Lossy(s[Step(s)..][..n - Step(s)])
  {
    SameStep(s, n);
    hide Step, Width, BeginsChar;
    assert s[..n][Step(s)..] == s[Step(s)..][..n - Step(s)];
    assert s[..n][..Step(s)] == s[..Step(s)];
  }

  lemma SamePrefix<T>(a: seq<T>, x: seq<T>, y: seq<T>)
    ensures a + x == a + y <==> x == y
  {
    assert (a + x)[|a|..] == x && (a + y)[|a|..] == y;
  }

  lemma SameStep(s: Utf8, n: nat)
    requires s != [] && BeginsChar(s) && Step(s) <= n <= |s|
    ensures Step(s[..n]) == Step(s) && BeginsChar(s[..n])
  {
  }

  lemma Beginning(s: Utf8, n: nat)
    requires s != [] && BeginsChar(s) && 0 < n < Step(s)
    ensures Step(s[..n]) == n && !BeginsChar(s[..n])
    ensures forall i :: 0 < i < n ==> s[i] != 0xEF
  {
  }

  lemma LossyOfBeginning(t: Utf8)
    requires t != [] && !BeginsChar(t) && Step(t) == |t|
    ensures Lossy(t) == REPLACEMENT
  {
    hide Step, Width, BeginsChar;
    assert t[|t|..] == [];
  }

  lemma CutInsideChar(s: Utf8, n: nat)
    requires s != [] && BeginsChar(s) && n < Step(s)
    ensures Lossy(s[..n]) == s <==> 3 <= |s| < n + 3 && s[|s| - 3..] == REPLACEMENT
  {
    hide Step, Width, BeginsChar, Lossy;
    if n == 0 {
      LossyOfNothing(s);
    } else {
      Beginning(s, n);
      LossyOfBeginning(s[..n]);
      if 3 <= |s| < n + 3 && s[|s| - 3..] == REPLACEMENT {
        assert s[|s| - 3] == s[|s| - 3..][0];
      }
    }
  }

  lemma LossyOfNothing(s: Utf8)
    ensures Lossy(s[..0]) == []
  {
  }
}
