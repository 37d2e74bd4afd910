/**
 * The address encoding of main.py: `ubinascii.hexlify(addr).decode()` turns the
 * raw device address into two lowercase hexadecimal digits per byte. The
 * throttle keys its map by that string, so what matters is that distinct
 * addresses get distinct keys; `Unhexlify` is the inverse that shows it.
 */
module Hex {
  import opened Wrappers
  import opened Bytes

  const Digits: string := "0123456789abcdef"

  /** The two digits of one byte, high nibble first. */
  function HexByte(b: byte): string {
    [Digits[b as int / 16], Digits[b as int % 16]]
  }

  function Hexlify(bs: seq<byte>): (s: string)
    ensures |s| == 2 * |bs|
    ensures forall k :: 0 <= k < |s| ==> s[k] in Digits
  {
    if bs == [] then "" else HexByte(bs[0]) + Hexlify(bs[1..])
  }

  function DigitValue(c: char): Option<int> {
    if '0' <= c <= '9' then Some(c as int - '0' as int)
    else if 'a' <= c <= 'f' then Some(c as int - 'a' as int + 10)
    else None
  }

  /** Reads pairs of lowercase hex digits back into bytes. */
  function Unhexlify(s: string): (r: Option<seq<byte>>)
    ensures r.Some? ==> 2 * |r.value| == |s|
  {
    if |s| == 0 then Some([])
    else if |s| == 1 then None
    else match (DigitValue(s[0]), DigitValue(s[1]), Unhexlify(s[2..]))
      case (Some(hi), Some(lo), Some(rest)) =>
        if 0 <= hi < 16 && 0 <= lo < 16 then Some([(hi * 16 + lo) as byte] + rest) else None
      case _ => None
  }

  lemma DigitValueOfDigit(n: int)
    requires 0 <= n < 16
    ensures DigitValue(Digits[n]) == Some(n)
  {
  }

  lemma UnhexlifyHexByte(b: byte)
    ensures DigitValue(HexByte(b)[0]) == Some(b as int / 16)
    ensures DigitValue(HexByte(b)[1]) == Some(b as int % 16)
  {
    DigitValueOfDigit(b as int / 16);
    DigitValueOfDigit(b as int % 16);
  }

  /** Two digits in front of a key read back as their byte in front of the rest. */
  lemma UnhexlifyCons(b: byte, rest: string)
    ensures Unhexlify(HexByte(b) + rest) ==
      match Unhexlify(rest)
      case Some(bs) => Some([b] + bs)
      case None => None
  {
    var t := HexByte(b) + rest;
    assert t[0] == HexByte(b)[0] && t[1] == HexByte(b)[1];
    assert t[2..] == rest;
    UnhexlifyHexByte(b);
    assert (b as int / 16) * 16 + b as int % 16 == b as int;
  }

  /** Every byte is recovered from its two digits. */
  lemma {:induction false} UnhexlifyHexlify(bs: seq<byte>)
    ensures Unhexlify(Hexlify(bs)) == Some(bs)
    decreases |bs|
  {
    if bs != [] {
      assert Hexlify(bs) == HexByte(bs[0]) + Hexlify(bs[1..]);
      UnhexlifyCons(bs[0], Hexlify(bs[1..]));
      UnhexlifyHexlify(bs[1..]);
      assert bs == [bs[0]] + bs[1..];
    }
  }

  /** Distinct addresses get distinct keys in the throttle map. */
  lemma HexlifyInjective(a: seq<byte>, b: seq<byte>)
    requires Hexlify(a) == Hexlify(b)
    ensures a == b
  {
    UnhexlifyHexlify(a);
    UnhexlifyHexlify(b);
  }

  /** Byte `k` of the address becomes characters `2k` and `2k + 1` of the key. */
  lemma {:induction false} HexlifyAt(bs: seq<byte>, k: nat)
    requires k < |bs|
    ensures Hexlify(bs)[2 * k] == Digits[bs[k] as int / 16]
    ensures Hexlify(bs)[2 * k + 1] == Digits[bs[k] as int % 16]
    decreases k
  {
    var h := Hexlify(bs);
    assert h == HexByte(bs[0]) + Hexlify(bs[1..]);
    if k > 0 {
      var t := Hexlify(bs[1..]);
      var k' := k - 1;
      HexlifyAt(bs[1..], k');
      assert bs[1..][k'] == bs[k];
      assert h[2 * k] == t[2 * k'] && h[2 * k + 1] == t[2 * k' + 1];
    }
  }
}
