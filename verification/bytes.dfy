/** Bytes and the C# bitwise operators the raster applies to them (`&`, `|`,
    `~` and `>>`). A byte is viewed as its eight bits, most significant first;
    the operators are defined bit by bit on that view, and `BitsOf`/`FromBits`
    are proved to be mutually inverse, so the view loses nothing. */
module Bytes {

  /** An unsigned 8-bit value (C# `byte`). */
  newtype byte = x: int | 0 <= x < 0x100

  /** 1 for a set bit, 0 for a clear one. */
  function Digit(bit: bool): int { if bit then 1 else 0 }

  /** The low `k` bits of `n`, most significant first: the last is the
      parity of `n`, the others are the bits of `n / 2`. */
  function BitsFrom(n: int, k: nat): (s: seq<bool>)
    ensures |s| == k
    decreases k
  {
    if k == 0 then [] else BitsFrom(n / 2, k - 1) + [n % 2 == 1]
  }

  /** The same eight bits, listed one by one. */
  function BitList(n: nat): (s: seq<bool>)
    ensures |s| == 8
  {
    [ShiftRight(n, 7) % 2 == 1, ShiftRight(n, 6) % 2 == 1, ShiftRight(n, 5) % 2 == 1, ShiftRight(n, 4) % 2 == 1,
     ShiftRight(n, 3) % 2 == 1, ShiftRight(n, 2) % 2 == 1, ShiftRight(n, 1) % 2 == 1, n % 2 == 1]
  }

  /** The bits of a byte; position 0 is the most significant bit (weight 0x80). */
  function BitsOf(b: byte): (s: seq<bool>)
    ensures |s| == 8
  {
    BitsFrom(b as int, 8)
  }

  /** The value of eight bits, most significant first (Horner's scheme). */
  function Compose(s: seq<bool>): int
    requires |s| == 8
  {
    Digit(s[7]) + 2 * (Digit(s[6]) + 2 * (Digit(s[5]) + 2 * (Digit(s[4]) + 2 * (Digit(s[3])
      + 2 * (Digit(s[2]) + 2 * (Digit(s[1]) + 2 * Digit(s[0])))))))
  }

  /** The byte with the given bits; the inverse of `BitsOf`. */
  function FromBits(s: seq<bool>): (b: byte)
    requires |s| == 8
    ensures BitsOf(b) == s
  {
    ComposeBound(s);
    ToFromBits(s);
    Compose(s) as byte
  }

  /** `a & b`. */
  function And(a: byte, b: byte): (r: byte)
    ensures forall i | 0 <= i < 8 :: BitsOf(r)[i] == (BitsOf(a)[i] && BitsOf(b)[i])
  {
    FromBits(seq(8, i requires 0 <= i < 8 => BitsOf(a)[i] && BitsOf(b)[i]))
  }

  /** `a | b`. */
  function Or(a: byte, b: byte): (r: byte)
    ensures forall i | 0 <= i < 8 :: BitsOf(r)[i] == (BitsOf(a)[i] || BitsOf(b)[i])
  {
    FromBits(seq(8, i requires 0 <= i < 8 => BitsOf(a)[i] || BitsOf(b)[i]))
  }

  /** `(byte)~a`: the complement truncated back to eight bits. */
  function Not(a: byte): (r: byte)
    ensures forall i | 0 <= i < 8 :: BitsOf(r)[i] == !BitsOf(a)[i]
  {
    FromBits(seq(8, i requires 0 <= i < 8 => !BitsOf(a)[i]))
  }

  /** `v >> k` on a non-negative `int`: `k` halvings, each dropping the lowest bit. */
  function ShiftRight(v: nat, k: nat): nat
  {
    if k == 0 then v else ShiftRight(v, k - 1) / 2
  }

  /** `(byte)(0x80 >> k)`: the mask whose only set bit is bit `k`, counting
      from the most significant. */
  function Mask(k: int): (m: byte)
    requires 0 <= k < 8
    ensures forall i | 0 <= i < 8 :: BitsOf(m)[i] == (i == k)
  {
    MaskValue(k);
    ShiftRight(0x80, k) as byte
  }

  /** A byte is zero exactly when none of its bits is set. */
  lemma ZeroHasNoBits(b: byte)
    ensures b == 0 <==> forall i | 0 <= i < 8 :: !BitsOf(b)[i]
  {
    if forall i | 0 <= i < 8 :: !BitsOf(b)[i] {
      assert BitsOf(b) == BitsOf(0);
      BitsDetermineByte(b, 0);
    }
  }

  /** `(b & Mask(k)) != 0` tests exactly bit `k` of `b`. */
  lemma TestBit(b: byte, k: int)
    requires 0 <= k < 8
    ensures And(b, Mask(k)) != 0 <==> BitsOf(b)[k]
  {
    ZeroHasNoBits(And(b, Mask(k)));
  }

  /** `v |= Mask(k)` when `white`, `v &= ~Mask(k)` otherwise: bit `k` takes
      the value `white` and the other seven bits are kept. */
  function SetBit(v: byte, k: int, white: bool): (r: byte)
    requires 0 <= k < 8
    ensures forall i | 0 <= i < 8 :: BitsOf(r)[i] == if i == k then white else BitsOf(v)[i]
  {
    if white then Or(v, Mask(k)) else And(v, Not(Mask(k)))
  }

  /** Two bytes with the same bits are the same byte. */
  lemma BitsDetermineByte(a: byte, b: byte)
    requires BitsOf(a) == BitsOf(b)
    ensures a == b
  {
    ListedBits(a as int);
    ListedBits(b as int);
    ComposeBits(a as int);
    ComposeBits(b as int);
  }

  // Proof of the bit view

  lemma ShiftValues()
    ensures ShiftRight(0x80, 0) == 0x80 && ShiftRight(0x80, 1) == 0x40
    ensures ShiftRight(0x80, 2) == 0x20 && ShiftRight(0x80, 3) == 0x10
    ensures ShiftRight(0x80, 4) == 0x08 && ShiftRight(0x80, 5) == 0x04
    ensures ShiftRight(0x80, 6) == 0x02 && ShiftRight(0x80, 7) == 0x01
  {
  }

  lemma MaskValue(k: int)
    requires 0 <= k < 8
    ensures 0 < ShiftRight(0x80, k) < 0x100
    ensures forall i | 0 <= i < 8 :: BitsFrom(ShiftRight(0x80, k), 8)[i] == (i == k)
  {
    ShiftValues();
    ShiftPower(k);
    PowerBits(7 - k, 8);
  }

  /** `2` to the power `j`. */
  function Pow2(j: nat): nat
  {
    if j == 0 then 1 else 2 * Pow2(j - 1)
  }

  /** `0x80 >> k` is `2` to the power `7 - k`. */
  lemma {:induction false} ShiftPower(k: nat)
    requires k <= 7
    ensures ShiftRight(0x80, k) == Pow2(7 - k)
  {
    if k == 0 {
      assert Pow2(7) == 0x80;
    } else {
      ShiftPower(k - 1);
    }
  }

  /** A power of two has exactly one set bit, `j` places from the end. */
  lemma {:induction false} PowerBits(j: nat, n: nat)
    requires j < n
    ensures forall i | 0 <= i < n :: BitsFrom(Pow2(j), n)[i] == (i == n - 1 - j)
  {
    if j == 0 {
      ZeroBits(n - 1);
    } else {
      PowerBits(j - 1, n - 1);
    }
  }

  /** Zero has no set bit. */
  lemma {:induction false} ZeroBits(n: nat)
    ensures forall i | 0 <= i < n :: !BitsFrom(0, n)[i]
  {
    if n > 0 {
      ZeroBits(n - 1);
    }
  }

  lemma HalvingSteps(n: nat)
    ensures ShiftRight(n, 1) == n / 2
    ensures ShiftRight(n, 2) == ShiftRight(n, 1) / 2 && ShiftRight(n, 3) == ShiftRight(n, 2) / 2
    ensures ShiftRight(n, 4) == ShiftRight(n, 3) / 2 && ShiftRight(n, 5) == ShiftRight(n, 4) / 2
    ensures ShiftRight(n, 6) == ShiftRight(n, 5) / 2 && ShiftRight(n, 7) == ShiftRight(n, 6) / 2
  {
  }

  lemma ListedBits(n: nat)
    ensures BitsFrom(n, 8) == BitList(n)
  {
    HalvingSteps(n);
    var h1 := ShiftRight(n, 1); var h2 := ShiftRight(n, 2); var h3 := ShiftRight(n, 3); var h4 := ShiftRight(n, 4);
    var h5 := ShiftRight(n, 5); var h6 := ShiftRight(n, 6); var h7 := ShiftRight(n, 7);
    assert BitsFrom(n, 8) == BitsFrom(h1, 7) + [n % 2 == 1];
    assert BitsFrom(h1, 7) == BitsFrom(h2, 6) + [h1 % 2 == 1];
    assert BitsFrom(h2, 6) == BitsFrom(h3, 5) + [h2 % 2 == 1];
    assert BitsFrom(h3, 5) == BitsFrom(h4, 4) + [h3 % 2 == 1];
    assert BitsFrom(h4, 4) == BitsFrom(h5, 3) + [h4 % 2 == 1];
    assert BitsFrom(h5, 3) == BitsFrom(h6, 2) + [h5 % 2 == 1];
    assert BitsFrom(h6, 2) == BitsFrom(h7, 1) + [h6 % 2 == 1];
    assert BitsFrom(h7, 1) == [h7 % 2 == 1];
  }

  lemma Halve(n: int, d: int, rest: int)
    requires 0 <= d < 2 && 0 <= rest && n == 2 * rest + d
    ensures n / 2 == rest && n % 2 == d
  {
  }

  lemma SameBit(x: bool, n: int)
    requires n % 2 == Digit(x)
    ensures (n % 2 == 1) == x
  {
  }

  lemma DigitOfBit(h: int)
    ensures Digit(h % 2 == 1) == h % 2
  {
  }

  lemma ComposeBound(s: seq<bool>)
    requires |s| == 8
    ensures 0 <= Compose(s) < 0x100
  {
  }

  /** Reading back the bits of `Compose(s)` yields `s`. */
  lemma ToFromBits(s: seq<bool>)
    requires |s| == 8
    ensures BitsFrom(Compose(s), 8) == s
  {
    var r1 := Digit(s[6]) + 2 * (Digit(s[5]) + 2 * (Digit(s[4]) + 2 * (Digit(s[3]) + 2 * (Digit(s[2]) + 2 * (Digit(s[1]) + 2 * Digit(s[0]))))));
    var r2 := Digit(s[5]) + 2 * (Digit(s[4]) + 2 * (Digit(s[3]) + 2 * (Digit(s[2]) + 2 * (Digit(s[1]) + 2 * Digit(s[0])))));
    var r3 := Digit(s[4]) + 2 * (Digit(s[3]) + 2 * (Digit(s[2]) + 2 * (Digit(s[1]) + 2 * Digit(s[0]))));
    var r4 := Digit(s[3]) + 2 * (Digit(s[2]) + 2 * (Digit(s[1]) + 2 * Digit(s[0])));
    var r5 := Digit(s[2]) + 2 * (Digit(s[1]) + 2 * Digit(s[0]));
    var r6 := Digit(s[1]) + 2 * Digit(s[0]);
    var r7 := Digit(s[0]);
    BitStep(r7, 0, 1, s);
    BitStep(r6, r7, 2, s);
    BitStep(r5, r6, 3, s);
    BitStep(r4, r5, 4, s);
    BitStep(r3, r4, 5, s);
    BitStep(r2, r3, 6, s);
    BitStep(r1, r2, 7, s);
    BitStep(Compose(s), r1, 8, s);
  }

  /** One step of `ToFromBits`: if `n` is `2 * rest` plus the digit of
      `s[k - 1]` and the bits of `rest` are `s[..k - 1]`, those of `n` are `s[..k]`. */
  lemma BitStep(n: int, rest: int, k: nat, s: seq<bool>)
    requires 0 < k <= |s| && 0 <= rest
    requires n == 2 * rest + Digit(s[k - 1])
    requires BitsFrom(rest, k - 1) == s[..k - 1]
    ensures BitsFrom(n, k) == s[..k]
  {
    Halve(n, Digit(s[k - 1]), rest);
    SameBit(s[k - 1], n);
    assert s[..k] == s[..k - 1] + [s[k - 1]];
  }

  lemma Recompose(n: nat)
    requires 0 <= n < 0x100
    ensures var h1 := ShiftRight(n, 1); var h2 := ShiftRight(n, 2); var h3 := ShiftRight(n, 3); var h4 := ShiftRight(n, 4);
      var h5 := ShiftRight(n, 5); var h6 := ShiftRight(n, 6); var h7 := ShiftRight(n, 7);
      n == n % 2 + 2 * (h1 % 2 + 2 * (h2 % 2 + 2 * (h3 % 2 + 2 * (h4 % 2 + 2 * (h5 % 2 + 2 * (h6 % 2 + 2 * (h7 % 2)))))))
  {
    HalvingSteps(n);
    var h1 := ShiftRight(n, 1); var h2 := ShiftRight(n, 2); var h3 := ShiftRight(n, 3); var h4 := ShiftRight(n, 4);
    var h5 := ShiftRight(n, 5); var h6 := ShiftRight(n, 6); var h7 := ShiftRight(n, 7);
    assert n == 2 * h1 + n % 2;
    assert h1 == 2 * h2 + h1 % 2;
    assert h2 == 2 * h3 + h2 % 2;
    assert h3 == 2 * h4 + h3 % 2;
    assert h4 == 2 * h5 + h4 % 2;
    assert h5 == 2 * h6 + h5 % 2;
    assert h6 == 2 * h7 + h6 % 2;
    assert h7 < 2;
  }

  lemma ComposeDigits(s: seq<bool>, d: seq<int>)
    requires |s| == 8 && |d| == 8
    requires forall i | 0 <= i < 8 :: Digit(s[i]) == d[i]
    ensures Compose(s) == d[7] + 2 * (d[6] + 2 * (d[5] + 2 * (d[4] + 2 * (d[3] + 2 * (d[2] + 2 * (d[1] + 2 * d[0]))))))
  {
    assert Digit(s[0]) == d[0] && Digit(s[1]) == d[1] && Digit(s[2]) == d[2] && Digit(s[3]) == d[3];
    assert Digit(s[4]) == d[4] && Digit(s[5]) == d[5] && Digit(s[6]) == d[6] && Digit(s[7]) == d[7];
  }

  lemma BitDigits(n: nat) returns (d: seq<int>)
    ensures |d| == 8
    ensures forall i | 0 <= i < 8 :: Digit(BitList(n)[i]) == d[i]
    ensures var h1 := ShiftRight(n, 1); var h2 := ShiftRight(n, 2); var h3 := ShiftRight(n, 3); var h4 := ShiftRight(n, 4);
      var h5 := ShiftRight(n, 5); var h6 := ShiftRight(n, 6); var h7 := ShiftRight(n, 7);
      d == [h7 % 2, h6 % 2, h5 % 2, h4 % 2, h3 % 2, h2 % 2, h1 % 2, n % 2]
  {
    var h1 := ShiftRight(n, 1); var h2 := ShiftRight(n, 2); var h3 := ShiftRight(n, 3); var h4 := ShiftRight(n, 4);
    var h5 := ShiftRight(n, 5); var h6 := ShiftRight(n, 6); var h7 := ShiftRight(n, 7);
    d := [h7 % 2, h6 % 2, h5 % 2, h4 % 2, h3 % 2, h2 % 2, h1 % 2, n % 2];
    var s := BitList(n);
    forall i | 0 <= i < 8
      ensures Digit(s[i]) == d[i]
    {
      DigitOfBit(d[i]);
    }
  }

  /** Composing the bits of `n` yields `n`. */
  lemma ComposeBits(n: nat)
    requires 0 <= n < 0x100
    ensures Compose(BitList(n)) == n
  {
    var d := BitDigits(n);
    ComposeDigits(BitList(n), d);
    Recompose(n);
  }
}
