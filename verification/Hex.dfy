/** `hex_lower` and the nibble tables. */
module Hex {
  import opened Common

  type Nibble = n: byte | n < 16

  function HexNibbleLower(n: Nibble): byte {
    if n < 10 then 48 + n else 97 + (n - 10)
  }

  function HexNibbleUpper(n: Nibble): byte {
    if n < 10 then 48 + n else 65 + (n - 10)
  }

  function HexOf(digest: Bytes): Bytes {
    if digest == [] then []
    else HexOf(digest[..|digest| - 1]) + HexByte(digest[|digest| - 1])
  }

  function HexByte(b: byte): Bytes {
    [HexNibbleLower(b / 16), HexNibbleLower(b % 16)]
  }

  method HexLower(digest: Bytes) returns (s: Bytes)
    ensures s == HexOf(digest)
  {
    s := [];
    for i := 0 to |digest|
      invariant s == HexOf(digest[..i])
    {
      assert digest[..i + 1][..i] == digest[..i];
      s := s + [HexNibbleLower(digest[i] / 16)];
      s := s + [HexNibbleLower(digest[i] % 16)];
    }
    assert digest[..|digest|] == digest;
  }

  /** The value of a hex digit of either case. */
  function HexValue(c: byte): Option<byte> {
    if 48 <= c <= 57 then Some(c - 48)
    else if 65 <= c <= 70 then Some(c - 55)
    else if 97 <= c <= 102 then Some(c - 87)
    else None
  }

  predicate IsLowerHex(c: byte) {
    48 <= c <= 57 || 97 <= c <= 102
  }

  lemma LowerDigit(n: Nibble)
    ensures HexNibbleLower(n) as char == "0123456789abcdef"[n]
  {
  }

  lemma UpperDigit(n: Nibble)
    ensures HexNibbleUpper(n) as char == "0123456789ABCDEF"[n]
  {
  }

  /** The two digits of a byte. */
  lemma HexOfOneByte(b: byte)
    ensures HexOf([b]) == Ascii(["0123456789abcdef"[b / 16], "0123456789abcdef"[b % 16]])
  {
    LowerDigit(b / 16);
    LowerDigit(b % 16);
    assert [b][..0] == [];
    NothingBefore(HexByte(b));
  }

  lemma {:induction false} HexShape(d: Bytes)
    ensures |HexOf(d)| == 2 * |d| && forall i :: 0 <= i < |HexOf(d)| ==> IsLowerHex(HexOf(d)[i])
  {
    if d == [] {
    } else {
      HexShape(d[..|d| - 1]);
    }
  }

  /** Each byte is read back from its own two digits, the high one first. */
  lemma {:induction false} HexAt(d: Bytes, i: nat)
    requires i < |d|
    ensures |HexOf(d)| == 2 * |d|
    ensures HexValue(HexOf(d)[2 * i]) == Some(d[i] / 16) && HexValue(HexOf(d)[2 * i + 1]) == Some(d[i] % 16)
  {
    HexShape(d);
    var init := d[..|d| - 1];
    HexShape(init);
    if i < |init| {
      HexAt(init, i);
      assert HexOf(d)[2 * i] == HexOf(init)[2 * i] && HexOf(d)[2 * i + 1] == HexOf(init)[2 * i + 1];
    }
  }

  /** Comparing hex strings compares digests. */
  lemma HexInjective(a: Bytes, b: Bytes)
    requires HexOf(a) == HexOf(b)
    ensures a == b
  {
    HexShape(a);
    HexShape(b);
    forall i | 0 <= i < |a|
      ensures a[i] == b[i]
    {
      HexAt(a, i);
      HexAt(b, i);
    }
  }
}
