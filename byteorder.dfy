/**
 * Big-endian integer fields of the MPS7 log: the unsigned 32-bit record
 * count of the header and the signed 64-bit (two's complement) user id of
 * every record.
 */
module ByteOrder {

  /** An unsigned octet. */
  type Byte = x: int | 0 <= x < 256

  const TWO_63: int := 0x8000_0000_0000_0000
  const TWO_64: int := 0x1_0000_0000_0000_0000

  /** 256 to the power k: one more than the largest k-byte unsigned value. */
  function Pow256(k: nat): (p: nat)
    ensures p > 0
  {
    if k == 0 then 1 else 256 * Pow256(k - 1)
  }

  /** True when x fits a signed 64-bit integer. */
  predicate IsInt64(x: int)
  {
    -TWO_63 <= x < TWO_63
  }

  /** The unsigned value of s, most significant byte first. */
  function BigEndian(s: seq<Byte>): (n: nat)
    ensures n < Pow256(|s|)
  {
    if |s| == 0 then 0
    else
      var high := BigEndian(s[..|s| - 1]);
      assert high + 1 <= Pow256(|s| - 1);
      assert (high + 1) * 256 <= Pow256(|s| - 1) * 256;
      high * 256 + s[|s| - 1]
  }

  /** The k bytes whose big-endian value is n. */
  function ToBigEndian(n: nat, k: nat): (s: seq<Byte>)
    requires n < Pow256(k)
    ensures |s| == k
  {
    if k == 0 then []
    else ToBigEndian(n / 256, k - 1) + [n % 256]
  }

  lemma {:induction false} BigEndianOfToBigEndian(n: nat, k: nat)
    requires n < Pow256(k)
    ensures BigEndian(ToBigEndian(n, k)) == n
  {
    if k > 0 {
      var s := ToBigEndian(n, k);
      assert s[..k - 1] == ToBigEndian(n / 256, k - 1);
      BigEndianOfToBigEndian(n / 256, k - 1);
    }
  }

  lemma {:induction false} ToBigEndianOfBigEndian(s: seq<Byte>)
    ensures ToBigEndian(BigEndian(s), |s|) == s
  {
    if |s| > 0 {
      var prefix := s[..|s| - 1];
      var n := BigEndian(s);
      assert n / 256 == BigEndian(prefix);
      assert n % 256 == s[|s| - 1];
      ToBigEndianOfBigEndian(prefix);
    }
  }

  /** The unsigned 32-bit big-endian value of a 4-byte field (readUInt32BE). */
  function ReadUInt32(s: seq<Byte>): (n: nat)
    requires |s| == 4
    ensures n < 0x1_0000_0000
  {
    BigEndian(s)
  }

  /** The signed 64-bit value of an 8-byte field: big-endian, then two's complement (readBigInt64BE). */
  function ReadInt64(s: seq<Byte>): (x: int)
    requires |s| == 8
    ensures IsInt64(x)
    ensures x % TWO_64 == BigEndian(s)
  {
    var u := BigEndian(s);
    if u >= TWO_63 then u - TWO_64 else u
  }

  /** The 8 bytes that encode a signed 64-bit value. */
  function WriteInt64(x: int): (s: seq<Byte>)
    requires IsInt64(x)
    ensures |s| == 8
  {
    ToBigEndian(if x < 0 then x + TWO_64 else x, 8)
  }

  lemma ReadWriteInt64(x: int)
    requires IsInt64(x)
    ensures ReadInt64(WriteInt64(x)) == x
  {
    BigEndianOfToBigEndian(if x < 0 then x + TWO_64 else x, 8);
  }

  lemma WriteReadInt64(s: seq<Byte>)
    requires |s| == 8
    ensures WriteInt64(ReadInt64(s)) == s
  {
    ToBigEndianOfBigEndian(s);
  }

  /** The sign of a user id is the top bit of its first byte. */
  lemma {:induction false} Int64Sign(s: seq<Byte>)
    requires |s| == 8
    ensures ReadInt64(s) < 0 <==> s[0] >= 0x80
  {
    BigEndianSplit(s);
    var rest := BigEndian(s[1..]);
    assert Pow256(7) == 0x100_0000_0000_0000;
    assert rest < 0x100_0000_0000_0000;
    if s[0] >= 0x80 {
      assert s[0] * Pow256(7) >= 0x80 * 0x100_0000_0000_0000;
    } else {
      assert s[0] * Pow256(7) <= 0x7F * 0x100_0000_0000_0000;
    }
  }

  /** The first byte of s carries weight 256^(|s|-1). */
  lemma {:induction false} BigEndianSplit(s: seq<Byte>)
    requires |s| > 0
    ensures BigEndian(s) == s[0] * Pow256(|s| - 1) + BigEndian(s[1..])
  {
    if |s| > 1 {
      var k := |s|;
      var prefix := s[..k - 1];
      var head, last := s[0], s[k - 1];
      BigEndianSplit(prefix);
      assert prefix[1..] == s[1..][..k - 2];
      assert prefix[0] == s[0];
      var mid := BigEndian(prefix[1..]);
      calc {
        BigEndian(s);
        BigEndian(prefix) * 256 + last;
        (head * Pow256(k - 2) + mid) * 256 + last;
        { MulDistributes(head * Pow256(k - 2), mid, 256); }
        head * Pow256(k - 2) * 256 + (mid * 256 + last);
        { assert head * Pow256(k - 2) * 256 == head * (Pow256(k - 2) * 256); }
        head * Pow256(k - 1) + BigEndian(s[1..]);
      }
    }
  }

  lemma MulDistributes(a: int, b: int, c: int)
    ensures (a + b) * c == a * c + b * c
  {
  }
}
