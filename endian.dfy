/**
 * Byte-order correction. The meter sends multi-byte fields least-significant byte first;
 * the decoder cuts a field out of the hex string with `substring`, reverses the order of its
 * two-character groups (`convertToLittleEndian`) and reads the result as a number.
 * This module models those string operations and relates them to the integer value of the bytes.
 */
module Endian {
  import opened Results
  import opened HexCodec

  function Min(a: nat, b: nat): nat {
    if a <= b then a else b
  }

  /** `s.substring(start, end)`: both indices are clamped to the string's length, and the
      arguments are swapped when `start` exceeds `end`. */
  function Substring(s: string, start: nat, end: nat): (r: string)
    ensures start <= end <= |s| ==> r == s[start..end]
    ensures |r| <= |s|
  {
    var a, b := Min(start, |s|), Min(end, |s|);
    if a <= b then s[a..b] else s[b..a]
  }

  /** JavaScript's `substring` does not care in which order it is given the bounds. */
  lemma SubstringSymmetric(s: string, start: nat, end: nat)
    ensures Substring(s, start, end) == Substring(s, end, start)
  {
  }

  /** `s.match(/.{2}/g).reverse().join('')` on a string that has at least one pair: the
      consecutive two-character groups in reverse order; a trailing odd character is dropped
      because the pattern never matches it. */
  function SwapPairs(s: string): (r: string)
    ensures |r| == if |s| % 2 == 0 then |s| else |s| - 1
  {
    if |s| < 2 then "" else SwapPairs(s[2..]) + s[..2]
  }

  /** The pair reversal only moves characters, so hex text stays hex. */
  lemma {:induction false} SwapPairsHex(s: string)
    requires AllHexChars(s)
    ensures AllHexChars(SwapPairs(s))
  {
    if |s| >= 2 {
      SwapPairsHex(s[2..]);
    }
  }

  /** `convertToLittleEndian`: the hex guard, then the pair reversal. A single hex digit passes
      the guard, but `match` then returns `null` and `reverse` throws. */
  function ConvertToLittleEndian(hexString: string): (r: Result<string, HexError>)
    ensures r.Success? <==> IsHexString(hexString) && |hexString| >= 2
    ensures r.Failure? ==> (r.error == InvalidHexString <==> !IsHexString(hexString))
    ensures r.Success? ==> IsHexString(r.value) && |r.value| == |hexString| - |hexString| % 2
  {
    if !IsHexString(hexString) then Failure(InvalidHexString)
    else if |hexString| < 2 then Failure(NoBytePair)
    else
      SwapPairsHex(hexString);
      Success(SwapPairs(hexString))
  }

  /** `convertHexSliceToLittleEndian`: cut the slice, then reverse its byte order. */
  function ConvertHexSliceToLittleEndian(hexString: string, start: nat, end: nat): (r: Result<string, HexError>)
    ensures start <= end <= |hexString| ==> r == ConvertToLittleEndian(hexString[start..end])
  {
    ConvertToLittleEndian(Substring(hexString, start, end))
  }

  /** Where each character of a string of `n` pairs ends up after the pair reversal:
      character `t` of pair `i` becomes character `t` of pair `n - 1 - i`. */
  lemma {:induction false} SwapPairsAt(s: string, n: nat, i: nat, t: nat)
    requires |s| == 2 * n && t < 2 && i < n
    ensures |SwapPairs(s)| == |s|
    ensures SwapPairs(s)[2 * i + t] == s[2 * (n - 1 - i) + t]
    decreases n
  {
    var r := SwapPairs(s[2..]);
    assert |r| == 2 * (n - 1);
    if i < n - 1 {
      SwapPairsAt(s[2..], n - 1, i, t);
    }
  }

  /** Group `i` of the result is group `n - 1 - i` of the input, for `n` groups. */
  lemma {:induction false} ReversesPairs(s: string, n: nat, i: nat)
    requires |s| == 2 * n && i < n
    ensures |SwapPairs(s)| == |s|
    ensures SwapPairs(s)[2 * i..2 * i + 2] == s[2 * (n - 1 - i)..2 * (n - 1 - i) + 2]
    decreases n
  {
    var r := SwapPairs(s[2..]);
    assert |r| == 2 * (n - 1);
    if i < n - 1 {
      ReversesPairs(s[2..], n - 1, i);
      assert (r + s[..2])[2 * i..2 * i + 2] == r[2 * i..2 * i + 2];
      assert s[2..][2 * (n - 2 - i)..2 * (n - 2 - i) + 2] == s[2 * (n - 1 - i)..2 * (n - 1 - i) + 2];
    } else {
      assert (r + s[..2])[2 * i..2 * i + 2] == s[..2];
    }
  }

  /** A pair appended at the end comes out first. */
  lemma {:induction false} SwapPairsSnoc(s: string, p: string)
    requires |s| % 2 == 0 && |p| == 2
    ensures SwapPairs(s + p) == p + SwapPairs(s)
    decreases |s|
  {
    if |s| < 2 {
      assert s + p == p;
      assert SwapPairs(p) == SwapPairs(p[2..]) + p[..2];
    } else {
      assert (s + p)[2..] == s[2..] + p && (s + p)[..2] == s[..2];
      SwapPairsSnoc(s[2..], p);
    }
  }

  /** Reversing the pairs twice gives back the string. */
  lemma {:induction false} SwapPairsInvolution(s: string)
    requires |s| % 2 == 0
    ensures SwapPairs(SwapPairs(s)) == s
    decreases |s|
  {
    if |s| >= 2 {
      SwapPairsInvolution(s[2..]);
      SwapPairsSnoc(SwapPairs(s[2..]), s[..2]);
      assert s[..2] + s[2..] == s;
    }
  }

  /** `convertToLittleEndian` undoes itself on every string it accepts that has whole bytes. */
  lemma LittleEndianTwice(hexString: string)
    requires IsHexString(hexString) && |hexString| % 2 == 0
    ensures ConvertToLittleEndian(hexString).Success?
    ensures ConvertToLittleEndian(ConvertToLittleEndian(hexString).value) == Success(hexString)
  {
    SwapPairsInvolution(hexString);
  }

  /** The order of a byte sequence reversed. */
  function Reverse(bs: seq<Byte>): (r: seq<Byte>)
    ensures |r| == |bs|
  {
    if bs == [] then [] else Reverse(bs[1..]) + [bs[0]]
  }

  /** The integer a device sends least-significant byte first: the sum of `bs[j] * 256^j`. */
  function LittleEndian(bs: seq<Byte>): nat {
    if bs == [] then 0 else bs[0] + 256 * LittleEndian(bs[1..])
  }

  /** Each byte's two hex digits read in `radix`: the byte itself when `radix` is 16, its
      binary-coded-decimal value when `radix` is 10. */
  function Nibbles(b: Byte, radix: nat): nat {
    b / 16 * radix + b % 16
  }

  /** The digits of a byte sequence read in `radix`, first byte most significant. */
  function BigEndianDigits(bs: seq<Byte>, radix: nat): nat {
    if bs == [] then 0
    else BigEndianDigits(bs[..|bs| - 1], radix) * (radix * radix) + Nibbles(bs[|bs| - 1], radix)
  }

  /** The digits of a byte sequence read in `radix`, first byte least significant. */
  function LittleEndianDigits(bs: seq<Byte>, radix: nat): nat {
    if bs == [] then 0 else Nibbles(bs[0], radix) + radix * radix * LittleEndianDigits(bs[1..], radix)
  }

  /** Reading hex digits in base 16 gives back the bytes' little-endian integer. */
  lemma {:induction false} LittleEndianDigitsHex(bs: seq<Byte>)
    ensures LittleEndianDigits(bs, 16) == LittleEndian(bs)
  {
    if bs != [] {
      LittleEndianDigitsHex(bs[1..]);
    }
  }

  lemma Horner(p: nat, x: nat, y: nat, radix: nat)
    ensures (p * radix + x) * radix + y == p * (radix * radix) + x * radix + y
  {
  }

  /** Parsing the rendered payload in `radix` reads the bytes as big-endian digits. */
  lemma {:induction false} ParseBytesToHex(bs: seq<Byte>, radix: nat)
    ensures AllHexChars(BytesToHex(bs))
    ensures ParseDigits(BytesToHex(bs), radix) == BigEndianDigits(bs, radix)
  {
    BytesToHexIsHex(bs);
    if bs != [] {
      var init, last := bs[..|bs| - 1], bs[|bs| - 1];
      var h := BytesToHex(init);
      var c1, c2 := DigitChar(last / 16), DigitChar(last % 16);
      ByteHexDigits(last);
      var s := BytesToHex(bs);
      assert s == h + [c1, c2];
      assert s[..|s| - 1] == h + [c1];
      assert (h + [c1])[..|h|] == h;
      ParseBytesToHex(init, radix);
      Horner(ParseDigits(h, radix), last / 16, last % 16, radix);
    }
  }

  /** Reversing the pairs of a rendered payload renders the reversed bytes. */
  lemma {:induction false} SwapBytesToHex(bs: seq<Byte>)
    ensures SwapPairs(BytesToHex(bs)) == BytesToHex(Reverse(bs))
  {
    if bs != [] {
      var s := BytesToHex(bs);
      BytesToHexCons(bs[0], bs[1..]);
      assert bs == [bs[0]] + bs[1..];
      assert s[2..] == BytesToHex(bs[1..]) && s[..2] == ByteHex(bs[0]);
      SwapBytesToHex(bs[1..]);
      var r := Reverse(bs);
      assert r[..|r| - 1] == Reverse(bs[1..]) && r[|r| - 1] == bs[0];
    }
  }

  /** Big-endian digits of the reversed bytes are the little-endian digits of the bytes. */
  lemma {:induction false} BigEndianOfReverse(bs: seq<Byte>, radix: nat)
    ensures BigEndianDigits(Reverse(bs), radix) == LittleEndianDigits(bs, radix)
  {
    if bs != [] {
      var r := Reverse(bs);
      var square := radix * radix;
      assert r[..|r| - 1] == Reverse(bs[1..]) && r[|r| - 1] == bs[0];
      BigEndianOfReverse(bs[1..], radix);
      calc {
        BigEndianDigits(r, radix);
        BigEndianDigits(Reverse(bs[1..]), radix) * square + Nibbles(bs[0], radix);
        LittleEndianDigits(bs[1..], radix) * square + Nibbles(bs[0], radix);
        LittleEndianDigits(bs, radix);
      }
    }
  }

  /** The decoder's field primitive on a rendered payload: the hex slice of bytes `[k, k+n)`,
      byte order reversed, is the rendering of those bytes reversed; it never throws. */
  lemma HexSliceField(bytes: seq<Byte>, k: nat, n: nat)
    requires 1 <= n && k + n <= |bytes|
    ensures ConvertHexSliceToLittleEndian(BytesToHex(bytes), 2 * k, 2 * (k + n))
            == Success(BytesToHex(Reverse(bytes[k..k + n])))
  {
    var field := bytes[k..k + n];
    BytesToHexSlice(bytes, k, n);
    BytesToHexIsHex(field);
    SwapBytesToHex(field);
  }

  /** Reading that reversed slice in base 16 (`parseInt(…, 16)`) gives the field's
      little-endian integer. */
  lemma HexSliceValue(bytes: seq<Byte>, k: nat, n: nat)
    requires 1 <= n && k + n <= |bytes|
    ensures ConvertHexSliceToLittleEndian(BytesToHex(bytes), 2 * k, 2 * (k + n)).Success?
    ensures ParseDigits(ConvertHexSliceToLittleEndian(BytesToHex(bytes), 2 * k, 2 * (k + n)).value, 16)
            == LittleEndian(bytes[k..k + n])
  {
    var field := bytes[k..k + n];
    HexSliceField(bytes, k, n);
    ParseBytesToHex(Reverse(field), 16);
    BigEndianOfReverse(field, 16);
    LittleEndianDigitsHex(field);
  }

  /** An `n`-byte field is below `256^n`; a four-byte field is below 2^32. */
  lemma {:induction false} LittleEndianBound(bs: seq<Byte>)
    ensures LittleEndian(bs) < Pow(256, |bs|)
  {
    if bs != [] {
      LittleEndianBound(bs[1..]);
    }
  }

  /** A four-byte field is below 2^32. */
  lemma FourByteBound(bs: seq<Byte>)
    requires |bs| == 4
    ensures LittleEndian(bs) < 0x1_0000_0000
  {
    LittleEndianBound(bs);
    assert Pow(256, 4) == 0x1_0000_0000;
  }

  /** The timestamp bytes `00 00 00 01` as sent by the device are 0x01000000. */
  lemma TimestampExample()
    ensures LittleEndian([0, 0, 0, 1]) == 16777216
  {
    assert LittleEndian([1]) == 1 by {
      assert [1][1..] == [];
    }
    assert [0, 0, 1][1..] == [0, 1] && [0, 1][1..] == [1] && [0, 0, 0, 1][1..] == [0, 0, 1];
  }
}
