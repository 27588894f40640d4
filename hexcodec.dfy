/**
 * Hexadecimal text as the decoder uses it: JavaScript's `Number.prototype.toString(radix)`,
 * `String.prototype.padStart`, the `reduce` fold that renders the payload bytes as one
 * lower-case hex string, `parseInt(s, 16)`, and the top-level `hexToDecimal` utility.
 */
module HexCodec {
  import opened Results

  /** A payload byte as the host framework delivers it. */
  type Byte = x: int | 0 <= x < 256

  /** What the hex primitives throw: the guard's `Error('Invalid hex string input')`, or the
      `TypeError` raised when `match(/.{2}/g)` finds no pair and returns `null`. */
  datatype HexError = InvalidHexString | NoBytePair

  /** The characters the guard `/^[0-9A-Fa-f]+$/` admits. */
  predicate IsHexChar(c: char) {
    '0' <= c <= '9' || 'a' <= c <= 'f' || 'A' <= c <= 'F'
  }

  predicate AllHexChars(s: string) {
    forall i :: 0 <= i < |s| ==> IsHexChar(s[i])
  }

  /** The guard of `convertToLittleEndian` and `hexToDecimal`: non-empty, hex digits only. */
  predicate IsHexString(s: string) {
    |s| > 0 && AllHexChars(s)
  }

  predicate IsDecimalChar(c: char) {
    '0' <= c <= '9'
  }

  /** The value of one hex digit, either case. */
  function DigitValue(c: char): (v: nat)
    requires IsHexChar(c)
    ensures v < 16
    ensures IsDecimalChar(c) <==> v < 10
  {
    if '0' <= c <= '9' then c as int - '0' as int
    else if 'a' <= c <= 'f' then c as int - 'a' as int + 10
    else c as int - 'A' as int + 10
  }

  /** Digit `d` as `toString(radix)` writes it: `0`-`9`, then lower-case `a`-`f`. */
  function DigitChar(d: nat): (c: char)
    requires d < 16
    ensures IsHexChar(c) && DigitValue(c) == d
    ensures '0' <= c <= '9' || 'a' <= c <= 'f'
  {
    if d < 10 then ('0' as int + d) as char else ('a' as int + d - 10) as char
  }

  /** `n.toString(radix)` for a non-negative integer: the shortest digit string, no sign. */
  function ToDigits(n: nat, radix: nat): (s: string)
    requires 2 <= radix <= 16
    ensures |s| > 0 && AllHexChars(s)
    ensures forall i :: 0 <= i < |s| ==> DigitValue(s[i]) < radix
    ensures |s| > 1 ==> s[0] != '0'
    decreases n
  {
    if n < radix then [DigitChar(n)]
    else
      DivMod(n, radix);
      ToDigits(n / radix, radix) + [DigitChar(n % radix)]
  }

  lemma DivMod(n: nat, radix: nat)
    requires 2 <= radix <= n
    ensures 0 < n / radix < n && n % radix < radix
    ensures n == n / radix * radix + n % radix
  {
  }

  /** The value of a digit string in the given radix, most significant digit first. */
  function ParseDigits(s: string, radix: nat): nat
    requires AllHexChars(s)
  {
    if s == [] then 0 else ParseDigits(s[..|s| - 1], radix) * radix + DigitValue(s[|s| - 1])
  }

  /** A string of `k` digits below the radix has a value below `radix^k`. */
  lemma {:induction false} ParseDigitsBound(s: string, radix: nat)
    requires AllHexChars(s) && forall i :: 0 <= i < |s| ==> DigitValue(s[i]) < radix
    ensures ParseDigits(s, radix) < Pow(radix, |s|)
    decreases |s|
  {
    if s != [] {
      var init := s[..|s| - 1];
      ParseDigitsBound(init, radix);
      assert s[..|s| - 1] == init;
      NextDigitBound(ParseDigits(init, radix), DigitValue(s[|s| - 1]), Pow(radix, |init|), radix);
    }
  }

  lemma NextDigitBound(p: nat, d: nat, bound: nat, radix: nat)
    requires p < bound && d < radix
    ensures p * radix + d < radix * bound
  {
    assert p * radix + d < (p + 1) * radix;
    assert (p + 1) * radix <= bound * radix;
  }

  /** Printing a number and reading it back in the same radix gives the number. */
  lemma {:induction false} ParseToDigits(n: nat, radix: nat)
    requires 2 <= radix <= 16
    ensures ParseDigits(ToDigits(n, radix), radix) == n
    decreases n
  {
    var s := ToDigits(n, radix);
    if n >= radix {
      DivMod(n, radix);
      assert s[..|s| - 1] == ToDigits(n / radix, radix);
      ParseToDigits(n / radix, radix);
    }
  }

  /** `s.padStart(len, fill)` with a one-character fill: the fill is repeated in front of `s`
      until the string is `len` long; a string already that long is left alone. */
  function PadStart(s: string, len: nat, fill: char): (r: string)
    ensures |r| == if |s| >= len then |s| else len
    ensures |s| >= len ==> r == s
    decreases len - |s|
  {
    if |s| >= len then s else PadStart([fill] + s, len, fill)
  }

  /** `val.toString(16).padStart(2, '0')`: one byte as exactly two characters. */
  function ByteHex(b: Byte): (r: string)
    ensures |r| == 2
  {
    assert b >= 16 ==> ToDigits(b / 16, 16) == [DigitChar(b / 16)];
    PadStart(ToDigits(b, 16), 2, '0')
  }

  /** The two characters are the high and the low nibble, zero-padded, in lower case. */
  lemma ByteHexDigits(b: Byte)
    ensures ByteHex(b) == [DigitChar(b / 16), DigitChar(b % 16)]
  {
    if b >= 16 {
      assert ToDigits(b / 16, 16) == [DigitChar(b / 16)];
    } else {
      assert ToDigits(b, 16) == [DigitChar(b)];
      assert PadStart([DigitChar(b)], 2, '0') == PadStart(['0', DigitChar(b)], 2, '0');
      assert DigitChar(0) == '0' && b / 16 == 0 && b % 16 == b;
    }
  }

  /** The error byte 0x1C is rendered "1c", the table's key. */
  lemma ByteHexExample()
    ensures ByteHex(0x1c) == "1c" && ByteHex(0x04) == "04"
  {
    ByteHexDigits(0x1c);
    ByteHexDigits(0x04);
  }

  /** The two digits of a byte read back in base 16 give the byte. */
  lemma ByteHexRoundTrip(b: Byte)
    ensures ParseDigits(ByteHex(b), 16) == b
  {
    var r := ByteHex(b);
    ByteHexDigits(b);
    assert r[..1] == [DigitChar(b / 16)] && r[..1][..0] == [];
    assert ParseDigits(r[..1], 16) == b / 16;
  }

  /** The fold `bytes.reduce((acc, val) => acc + hex(val), '')`: each step appends the
      next byte's two digits to what the earlier bytes produced. */
  function BytesToHex(bytes: seq<Byte>): (hex: string)
    ensures |hex| == 2 * |bytes|
  {
    if bytes == [] then ""
    else BytesToHex(bytes[..|bytes| - 1]) + ByteHex(bytes[|bytes| - 1])
  }

  /** Every character of the rendered payload is a lower-case hex digit. */
  lemma BytesToHexIsHex(bytes: seq<Byte>)
    ensures AllHexChars(BytesToHex(bytes))
    ensures forall i :: 0 <= i < |BytesToHex(bytes)| ==> !('A' <= BytesToHex(bytes)[i] <= 'F')
  {
    var hex := BytesToHex(bytes);
    forall j | 0 <= j < |hex|
      ensures IsHexChar(hex[j]) && !('A' <= hex[j] <= 'F')
    {
      var i := j / 2;
      BytesToHexAt(bytes, i);
      ByteHexDigits(bytes[i]);
      assert hex[j] == hex[2 * i..2 * i + 2][j % 2];
    }
  }

  /** Characters `[2i, 2i+2)` of the rendered payload are the two digits of byte `i`. */
  lemma {:induction false} BytesToHexAt(bytes: seq<Byte>, i: nat)
    requires i < |bytes|
    ensures BytesToHex(bytes)[2 * i..2 * i + 2] == ByteHex(bytes[i])
  {
    var init := bytes[..|bytes| - 1];
    if i < |bytes| - 1 {
      BytesToHexAt(init, i);
      assert BytesToHex(bytes)[2 * i..2 * i + 2] == BytesToHex(init)[2 * i..2 * i + 2];
    }
  }

  /** Rendering distributes over concatenation of byte sequences. */
  lemma {:induction false} BytesToHexAppend(a: seq<Byte>, b: seq<Byte>)
    ensures BytesToHex(a + b) == BytesToHex(a) + BytesToHex(b)
    decreases |b|
  {
    if b == [] {
      assert a + b == a;
    } else {
      var last := b[|b| - 1];
      assert (a + b)[..|a + b| - 1] == a + b[..|b| - 1];
      BytesToHexAppend(a, b[..|b| - 1]);
    }
  }

  /** The characters `[2k, 2(k+n))` of the rendered payload are the rendering of bytes `[k, k+n)`. */
  lemma BytesToHexSlice(bytes: seq<Byte>, k: nat, n: nat)
    requires k + n <= |bytes|
    ensures BytesToHex(bytes)[2 * k..2 * (k + n)] == BytesToHex(bytes[k..k + n])
  {
    var pre, mid, post := bytes[..k], bytes[k..k + n], bytes[k + n..];
    SplitThree(bytes, k, n);
    BytesToHexMiddle(pre, mid, post);
  }

  lemma SplitThree<T>(s: seq<T>, k: nat, n: nat)
    requires k + n <= |s|
    ensures s == s[..k] + s[k..k + n] + s[k + n..]
  {
  }

  lemma BytesToHexMiddle(pre: seq<Byte>, mid: seq<Byte>, post: seq<Byte>)
    ensures BytesToHex(pre + mid + post)[2 * |pre|..2 * (|pre| + |mid|)] == BytesToHex(mid)
  {
    BytesToHexAppend(pre + mid, post);
    BytesToHexAppend(pre, mid);
    Middle(BytesToHex(pre), BytesToHex(mid), BytesToHex(post), 2 * |pre|, 2 * (|pre| + |mid|));
  }

  lemma Middle(a: string, b: string, c: string, lo: nat, hi: nat)
    requires lo == |a| && hi == |a| + |b|
    ensures (a + b + c)[lo..hi] == b
  {
    assert (a + b + c)[lo..hi] == (a + b)[lo..];
  }

  /** Rendering one byte is the same as rendering it on its own. */
  lemma BytesToHexCons(b: Byte, rest: seq<Byte>)
    ensures BytesToHex([b] + rest) == ByteHex(b) + BytesToHex(rest)
  {
    BytesToHexAppend([b], rest);
    assert BytesToHex([b]) == BytesToHex([]) + ByteHex(b);
  }

  /** The top-level `hexToDecimal`: the guard, then `parseInt(input, 16)`. */
  function HexToDecimal(input: string): (r: Result<nat, HexError>)
    ensures r.Success? <==> IsHexString(input)
    ensures r.Failure? ==> r.error == InvalidHexString
  {
    if !IsHexString(input) then Failure(InvalidHexString) else Success(ParseDigits(input, 16))
  }

  /** `hexToDecimal` inverts `toString(16)`. */
  lemma HexToDecimalRoundTrip(n: nat)
    ensures HexToDecimal(ToDigits(n, 16)) == Success(n)
  {
    ParseToDigits(n, 16);
  }

  /** Powers, for bounds on decoded values. */
  function Pow(base: nat, e: nat): (p: nat)
    ensures base > 0 ==> p > 0
  {
    if e == 0 then 1 else base * Pow(base, e - 1)
  }
}
