/** The integer half of src/serializer.cpp: bytes written and read through an advancing pointer. A pointer is
    an array with an index; `num >> 8*k` of a signed integer is floor division by 256 to the k, `x & 0xFF` is
    `x % 256`, and `(result << 8) | b` is `result * 256 + b` (the low byte of the shifted value is zero)
    converted to the result's type. */
module Serializer {
  import opened Bytes

  method SerializeInt16(buff: array<byte>, at: nat, num: int64)
    requires at + 2 <= buff.Length
    modifies buff
    ensures buff[..at] == old(buff[..at]) && buff[at + 2..] == old(buff[at + 2..])
    ensures buff[at..at + 2] == BigEndian(num, 2)
  {
    var p := at;
    buff[p] := (num / Pow256(1)) % 256;
    p := p + 1;
    buff[p] := num % 256;
    assert BigEndian(num, 2) == BigEndian(num / 256, 1) + [num % 256];
    assert BigEndian(num / 256, 1) == BigEndian(num / 256 / 256, 0) + [num / 256 % 256];
  }

  method SerializeInt32(buff: array<byte>, at: nat, num: int64)
    requires at + 4 <= buff.Length
    modifies buff
    ensures buff[..at] == old(buff[..at]) && buff[at + 4..] == old(buff[at + 4..])
    ensures buff[at..at + 4] == BigEndian(num, 4)
  {
    var byteIdx, p := 3, at;
    while byteIdx >= 0
      invariant -1 <= byteIdx <= 3 && p == at + 3 - byteIdx
      invariant buff[..at] == old(buff[..at]) && buff[p..] == old(buff[p..])
      invariant buff[at..p] == BigEndian(num / Pow256(byteIdx + 1), 3 - byteIdx)
    {
      ghost var written := buff[at..p];
      ShiftByte(num, byteIdx);
      buff[p] := (num / Pow256(byteIdx)) % 256;
      assert buff[at..p + 1] == written + [buff[p]];
      byteIdx := byteIdx - 1;
      p := p + 1;
    }
  }

  method SerializeInt64(buff: array<byte>, at: nat, num: int64)
    requires at + 8 <= buff.Length
    modifies buff
    ensures buff[..at] == old(buff[..at]) && buff[at + 8..] == old(buff[at + 8..])
    ensures buff[at..at + 8] == BigEndian(num, 8)
  {
    var byteIdx, p := 7, at;
    while byteIdx >= 0
      invariant -1 <= byteIdx <= 7 && p == at + 7 - byteIdx
      invariant buff[..at] == old(buff[..at]) && buff[p..] == old(buff[p..])
      invariant buff[at..p] == BigEndian(num / Pow256(byteIdx + 1), 7 - byteIdx)
    {
      ghost var written := buff[at..p];
      ShiftByte(num, byteIdx);
      buff[p] := (num / Pow256(byteIdx)) % 256;
      assert buff[at..p + 1] == written + [buff[p]];
      byteIdx := byteIdx - 1;
      p := p + 1;
    }
  }

  /** One turn of the reading loop: below the full width nothing wraps. */
  lemma NextByte(bs: seq<byte>, i: nat, width: nat)
    requires i < width <= 8 && |bs| >= width
    ensures Signed(Signed(Value(bs[..i]), width) * 256 + bs[i], width) == Signed(Value(bs[..i + 1]), width)
  {
    assert bs[..i + 1][..i] == bs[..i];
    ValueBound(bs[..i]);
    PowMonotone(i, width - 1);
    SignedIsResidue(Value(bs[..i]), width);
  }

  lemma {:induction false} PowMonotone(i: nat, j: nat)
    requires i <= j
    ensures Pow256(i) <= Pow256(j)
  {
    if i < j {
      PowMonotone(i, j - 1);
    }
  }

  method DeserializeInt16(buff: array<byte>, at: nat) returns (result: int)
    requires at + 2 <= buff.Length
    ensures result == Signed(Value(buff[at..at + 2]), 2)
  {
    ghost var bs := buff[at..at + 2];
    var p := at;
    result := buff[p];
    p := p + 1;
    NextByte(bs, 0, 2);
    NextByte(bs, 1, 2);
    result := Signed(result * 256 + buff[p], 2);
    assert bs[..2] == bs;
  }

  method DeserializeInt32(buff: array<byte>, at: nat) returns (result: int)
    requires at + 4 <= buff.Length
    ensures result == Signed(Value(buff[at..at + 4]), 4)
  {
    ghost var bs := buff[at..at + 4];
    result := 0;
    var bytes, i, p := 4, 0, at;
    while i < bytes
      invariant 0 <= i <= bytes && p == at + i
      invariant result == Signed(Value(bs[..i]), 4)
    {
      NextByte(bs, i, 4);
      result := Signed(result * 256 + buff[p], 4);
      i := i + 1;
      p := p + 1;
    }
    assert bs[..4] == bs;
  }

  method DeserializeInt64(buff: array<byte>, at: nat) returns (result: int)
    requires at + 8 <= buff.Length
    ensures result == Signed(Value(buff[at..at + 8]), 8)
  {
    ghost var bs := buff[at..at + 8];
    result := 0;
    var bytes, i, p := 8, 0, at;
    while i < bytes
      invariant 0 <= i <= bytes && p == at + i
      invariant result == Signed(Value(bs[..i]), 8)
    {
      NextByte(bs, i, 8);
      result := Signed(result * 256 + buff[p], 8);
      i := i + 1;
      p := p + 1;
    }
    assert bs[..8] == bs;
  }
}
