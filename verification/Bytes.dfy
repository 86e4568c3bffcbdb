/** Base-256 digits and two's complement: what the integer codec is proved against. */
module Bytes {

  type byte = b: int | 0 <= b < 256
  type int64 = n: int | -0x8000_0000_0000_0000 <= n < 0x8000_0000_0000_0000

  function Pow256(width: nat): (p: int)
    ensures p >= 1
  {
    if width == 0 then 1 else 256 * Pow256(width - 1)
  }

  /** The `width` low-order base-256 digits of `num`, most significant first; a negative number
      has the digits of its residue. */
  function BigEndian(num: int, width: nat): (bs: seq<byte>)
    ensures |bs| == width
    decreases width
  {
    if width == 0 then [] else BigEndian(num / 256, width - 1) + [num % 256]
  }

  /** The unsigned number a big-endian byte string denotes. */
  function Value(bs: seq<byte>): nat {
    if |bs| == 0 then 0 else Value(bs[..|bs| - 1]) * 256 + bs[|bs| - 1]
  }

  /** C++ conversion to a signed integer of `width` bytes: reduction in two's complement. */
  function Signed(num: int, width: nat): int {
    var r := num % Pow256(width);
    if 2 * r < Pow256(width) then r else r - Pow256(width)
  }

  // ----- arithmetic -----

  lemma MulSpread(m: int, d: int)
    requires m > 0
    ensures d >= 1 ==> m * d >= m
    ensures d <= -1 ==> m * d <= -m
  {
    if d >= 1 {
      assert m * d == m * (d - 1) + m;
    } else if d <= -1 {
      assert m * d == m * (d + 1) - m;
    }
  }

  lemma ModUnique(n: int, m: int, q: int, r: int)
    requires 0 <= r < m && n == m * q + r
    ensures n % m == r && n / m == q
  {
    var d := q - n / m;
    assert m * d == m * q - m * (n / m) == n % m - r;
    MulSpread(m, d);
  }

  /** Shifting right by one more byte is dividing by 256 once more. */
  lemma ShiftByte(num: int, k: nat)
    ensures num / Pow256(k + 1) == (num / Pow256(k)) / 256
  {
    var p := Pow256(k);
    var q, r := num / p, num % p;
    ShiftParts(num, p, r, q / 256, q % 256);
  }

  lemma ShiftParts(num: int, p: int, r: int, q: int, b: byte)
    requires 0 <= r < p && num == p * (256 * q + b) + r
    ensures num / (256 * p) == q
  {
    assert p * (256 * q + b) == (256 * p) * q + p * b;
    assert 0 <= p * b <= p * 255;
    ModUnique(num, 256 * p, q, p * b + r);
  }

  lemma LowDigit(num: int, p: int)
    requires p > 0
    ensures num % (256 * p) == (num / 256 % p) * 256 + num % 256
  {
    LowDigitParts(num, p, num / 256 / p, num / 256 % p, num % 256);
  }

  lemma LowDigitParts(num: int, p: int, a: int, b: int, r: byte)
    requires 0 <= b < p && num == 256 * (p * a + b) + r
    ensures num % (256 * p) == b * 256 + r
  {
    assert 256 * (p * a) == (256 * p) * a;
    ModUnique(num, 256 * p, a, 256 * b + r);
  }

  lemma {:induction false} ValueBound(bs: seq<byte>)
    ensures Value(bs) < Pow256(|bs|)
  {
    if |bs| > 0 {
      ValueBound(bs[..|bs| - 1]);
    }
  }

  /** The digits of `num` denote `num` reduced to the width. */
  lemma {:induction false} ValueOfBigEndian(num: int, width: nat)
    ensures Value(BigEndian(num, width)) == num % Pow256(width)
    decreases width
  {
    if width > 0 {
      ValueOfBigEndian(num / 256, width - 1);
      assert BigEndian(num, width)[..width - 1] == BigEndian(num / 256, width - 1);
      LowDigit(num, Pow256(width - 1));
    }
  }

  /** Digits and value determine each other: every byte string is the digits of its value. */
  lemma {:induction false} BigEndianOfValue(bs: seq<byte>)
    ensures BigEndian(Value(bs), |bs|) == bs
  {
    if |bs| > 0 {
      var front, last := bs[..|bs| - 1], bs[|bs| - 1];
      BigEndianOfValue(front);
      ModUnique(Value(bs), 256, Value(front), last);
      assert bs == front + [last];
    }
  }

  lemma {:induction false} BigEndianPeriodic(num: int, width: nat)
    ensures BigEndian(num - Pow256(width), width) == BigEndian(num, width)
    decreases width
  {
    if width > 0 {
      var p := Pow256(width - 1);
      ModUnique(num - 256 * p, 256, num / 256 - p, num % 256);
      BigEndianPeriodic(num / 256, width - 1);
    }
  }

  /** `Signed` is the one number of the signed range congruent to its argument. */
  lemma SignedIsResidue(num: int, width: nat)
    requires width > 0
    ensures -Pow256(width) <= 2 * Signed(num, width) < Pow256(width)
    ensures (num - Signed(num, width)) % Pow256(width) == 0
    ensures -Pow256(width) <= 2 * num < Pow256(width) ==> Signed(num, width) == num
  {
    var m := Pow256(width);
    var q, r := num / m, num % m;
    if 2 * r < m {
      ModUnique(num - r, m, q, 0);
    } else {
      assert num - (r - m) == m * (q + 1);
      ModUnique(num - (r - m), m, q + 1, 0);
    }
    if -m <= 2 * num < m {
      if num >= 0 {
        ModUnique(num, m, 0, num);
      } else {
        ModUnique(num, m, -1, num + m);
      }
    }
  }

  // ----- the codec is a bijection at every width -----

  /** Reading back the written digits gives the number reduced to the width. */
  lemma NumberRoundTrip(num: int, width: nat)
    ensures Signed(Value(BigEndian(num, width)), width) == Signed(num, width)
  {
    ValueOfBigEndian(num, width);
    var m := Pow256(width);
    ModUnique(num % m, m, 0, num % m);
  }

  /** Writing out the number that was read restores the bytes. */
  lemma BytesRoundTrip(bs: seq<byte>)
    ensures BigEndian(Signed(Value(bs), |bs|), |bs|) == bs
  {
    hide BigEndian, Value, Signed, Pow256;
    ValueBound(bs);
    SignedCases(Value(bs), |bs|);
    if Signed(Value(bs), |bs|) == Value(bs) {
      BigEndianOfValue(bs);
    } else {
      NegativeRoundTrip(bs);
    }
  }

  /** Bytes that denote a negative number. */
  lemma NegativeRoundTrip(bs: seq<byte>)
    ensures BigEndian(Value(bs) - Pow256(|bs|), |bs|) == bs
  {
    hide BigEndian, Value, Pow256;
    BigEndianPeriodic(Value(bs), |bs|);
    BigEndianOfValue(bs);
  }

  lemma SignedCases(v: int, width: nat)
    requires 0 <= v < Pow256(width)
    ensures Signed(v, width) == v || Signed(v, width) == v - Pow256(width)
  {
    ModUnique(v, Pow256(width), 0, v);
  }
}
