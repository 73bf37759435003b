/** Bytes and their upper-case hexadecimal rendering, as Go's `fmt.Sprintf("%X", b)` prints a byte slice. */
module Bytes {
  import opened Wrappers

  type byte = x: int | 0 <= x < 256

  const HexDigits: string := "0123456789ABCDEF"

  /** The value of an upper-case hexadecimal digit, or None for any other character. */
  function DigitValue(c: char): (r: Option<nat>)
    ensures r.Some? ==> r.value < 16 && HexDigits[r.value] == c
    ensures r.None? ==> c !in HexDigits
  {
    if '0' <= c <= '9' then Some(c as int - '0' as int)
    else if 'A' <= c <= 'F' then Some(c as int - 'A' as int + 10)
    else None
  }

  /** Two upper-case hex digits per byte, most significant nibble first. */
  function UpperHex(bs: seq<byte>): (s: string)
  {
    if bs == [] then ""
    else [HexDigits[bs[0] / 16], HexDigits[bs[0] % 16]] + UpperHex(bs[1..])
  }

  /** The inverse of UpperHex: None when the text has odd length or a character that is not an upper-case hex digit. */
  function ParseUpperHex(s: string): (r: Option<seq<byte>>)
    decreases |s|
  {
    if s == [] then Some([])
    else if |s| == 1 then None
    else
      match (DigitValue(s[0]), DigitValue(s[1]), ParseUpperHex(s[2..]))
      case (Some(hi), Some(lo), Some(rest)) => Some([hi * 16 + lo] + rest)
      case _ => None
  }

  /** Reading back one printed digit gives its value. */
  lemma DigitValueOfHexDigit(n: nat)
    requires n < 16
    ensures DigitValue(HexDigits[n]) == Some(n)
  {
    assert HexDigits[n] == "0123456789ABCDEF"[n];
    if n < 10 {
      assert HexDigits[n] as int == '0' as int + n by {
        assert HexDigits == ['0','1','2','3','4','5','6','7','8','9','A','B','C','D','E','F'];
      }
    } else {
      assert HexDigits[n] as int == 'A' as int + n - 10 by {
        assert HexDigits == ['0','1','2','3','4','5','6','7','8','9','A','B','C','D','E','F'];
      }
    }
  }

  /** The rendering has two characters per byte, each an upper-case hex digit. */
  lemma {:induction false} UpperHexShape(bs: seq<byte>)
    ensures |UpperHex(bs)| == 2 * |bs|
    ensures forall i :: 0 <= i < |UpperHex(bs)| ==> UpperHex(bs)[i] in HexDigits
  {
    if bs != [] {
      UpperHexShape(bs[1..]);
      var s := UpperHex(bs);
      assert s == [HexDigits[bs[0] / 16], HexDigits[bs[0] % 16]] + UpperHex(bs[1..]);
    }
  }

  /** Parsing two leading characters and the rest, one step of ParseUpperHex. */
  lemma ParsePair(c0: char, c1: char, rest: string, hi: nat, lo: nat, tail: seq<byte>)
    requires DigitValue(c0) == Some(hi) && DigitValue(c1) == Some(lo)
    requires ParseUpperHex(rest) == Some(tail)
    ensures ParseUpperHex([c0, c1] + rest) == Some([hi * 16 + lo] + tail)
  {
    var s := [c0, c1] + rest;
    assert s[0] == c0 && s[1] == c1 && s[2..] == rest;
  }

  /** A byte is its high nibble times 16 plus its low nibble. */
  lemma Nibbles(b: byte)
    ensures b / 16 < 16 && b % 16 < 16 && (b / 16) * 16 + b % 16 == b
  {
  }

  /** Parsing the rendering gives back the digest: the hex text loses nothing. */
  lemma {:induction false} UpperHexRoundTrip(bs: seq<byte>)
    ensures ParseUpperHex(UpperHex(bs)) == Some(bs)
  {
    if bs != [] {
      var b, tail := bs[0], bs[1..];
      var hi, lo := b / 16, b % 16;
      Nibbles(b);
      UpperHexRoundTrip(tail);
      DigitValueOfHexDigit(hi);
      DigitValueOfHexDigit(lo);
      assert UpperHex(bs) == [HexDigits[hi], HexDigits[lo]] + UpperHex(tail);
      ParsePair(HexDigits[hi], HexDigits[lo], UpperHex(tail), hi, lo, tail);
      assert [b] + tail == bs;
    }
  }

  /** Distinct digests never share a rendering. */
  lemma UpperHexInjective(a: seq<byte>, b: seq<byte>)
    requires UpperHex(a) == UpperHex(b)
    ensures a == b
  {
    UpperHexRoundTrip(a);
    UpperHexRoundTrip(b);
  }
}
