/**
 * Base16 as Go's `encoding/hex` implements it (section 8 of RFC 4648):
 * `EncodeToString` writes lower-case digits; `DecodeString` accepts either
 * case and reports the first character that is not a hex digit, or an odd
 * length once every character has been found valid.
 */
module Hex {
  import opened Wrappers
  import opened BigEndian

  /** `hex.InvalidByteError` (carrying the offending character) and `hex.ErrLength`. */
  datatype HexError = InvalidByte(c: char) | ErrLength

  predicate IsHexDigit(c: char) {
    '0' <= c <= '9' || 'a' <= c <= 'f' || 'A' <= c <= 'F'
  }

  predicate IsLowerHexDigit(c: char) {
    '0' <= c <= '9' || 'a' <= c <= 'f'
  }

  predicate AllHex(s: string) {
    forall i :: 0 <= i < |s| ==> IsHexDigit(s[i])
  }

  function DigitValue(c: char): (v: nat)
    requires IsHexDigit(c)
    ensures v < 16
  {
    if '0' <= c <= '9' then c as int - '0' as int
    else if 'a' <= c <= 'f' then c as int - 'a' as int + 10
    else c as int - 'A' as int + 10
  }

  /** The lower-case digit for `v`, as in Go's table "0123456789abcdef". */
  function HexChar(v: nat): (c: char)
    requires v < 16
    ensures IsLowerHexDigit(c) && DigitValue(c) == v
  {
    if v < 10 then ('0' as int + v) as char else ('a' as int + v - 10) as char
  }

  /** ASCII lower-casing of the letters a hex digit may use. */
  function LowerChar(c: char): (d: char)
    ensures IsHexDigit(c) ==> IsLowerHexDigit(d) && DigitValue(d) == DigitValue(c)
  {
    if 'A' <= c <= 'F' then (c as int - 'A' as int + 'a' as int) as char else c
  }

  function Lower(s: string): (t: string)
    ensures |t| == |s|
    ensures forall i :: 0 <= i < |s| ==> t[i] == LowerChar(s[i])
  {
    if s == [] then [] else [LowerChar(s[0])] + Lower(s[1..])
  }

  /** `hex.EncodeToString`. */
  function HexEncode(b: seq<byte>): (s: string)
    ensures |s| == 2 * |b|
    ensures forall i :: 0 <= i < |s| ==> IsLowerHexDigit(s[i])
  {
    if b == [] then [] else [HexChar(b[0] / 16), HexChar(b[0] % 16)] + HexEncode(b[1..])
  }

  /** `hex.DecodeString`. */
  function HexDecode(s: string): (r: Result<seq<byte>, HexError>)
    ensures r.Ok? <==> |s| % 2 == 0 && AllHex(s)
    ensures r.Ok? ==> |r.value| == |s| / 2
    ensures r.Err? && r.error == ErrLength ==> |s| % 2 == 1 && AllHex(s)
  {
    if |s| == 0 then Ok([])
    else if !IsHexDigit(s[0]) then Err(InvalidByte(s[0]))
    else if |s| == 1 then Err(ErrLength)
    else if !IsHexDigit(s[1]) then Err(InvalidByte(s[1]))
    else
      match HexDecode(s[2..])
      case Err(e) =>
        Err(e)
      case Ok(rest) => Ok([DigitValue(s[0]) * 16 + DigitValue(s[1])] + rest)
  }

  /** Byte `k` of the input becomes characters `2k` (high nibble) and `2k+1` (low nibble). */
  lemma {:induction false} HexEncodeAt(b: seq<byte>, k: nat)
    requires k < |b|
    ensures HexEncode(b)[2 * k] == HexChar(b[k] / 16)
    ensures HexEncode(b)[2 * k + 1] == HexChar(b[k] % 16)
    decreases k
  {
    if k > 0 {
      HexEncodeAt(b[1..], k - 1);
    }
  }

  /** An `InvalidByte` error names the first character of `s` that is not a hex digit. */
  lemma {:induction false} HexDecodeInvalidByte(s: string)
    requires HexDecode(s).Err? && HexDecode(s).error.InvalidByte?
    ensures exists k :: 0 <= k < |s| && s[k] == HexDecode(s).error.c && !IsHexDigit(s[k]) && AllHex(s[..k])
    decreases |s|
  {
    var c := HexDecode(s).error.c;
    if IsHexDigit(s[0]) && |s| > 1 && IsHexDigit(s[1]) {
      HexDecodeInvalidByte(s[2..]);
      var k :| 0 <= k < |s| - 2 && s[2..][k] == c && !IsHexDigit(s[2..][k]) && AllHex(s[2..][..k]);
      assert s[..k + 2] == s[..2] + s[2..][..k];
      assert s[k + 2] == c && !IsHexDigit(s[k + 2]);
    } else if IsHexDigit(s[0]) {
      assert s[..1] == [s[0]];
    } else {
      assert s[..0] == [];
    }
  }

  /** Decoding inverts encoding. */
  lemma {:induction false} DecodeEncode(b: seq<byte>)
    ensures HexDecode(HexEncode(b)) == Ok(b)
  {
    if b != [] {
      var s := HexEncode(b);
      assert s[2..] == HexEncode(b[1..]);
      DecodeEncode(b[1..]);
      assert b == [b[0]] + b[1..];
    }
  }

  /** Encoding what was decoded gives back the input, lower-cased. */
  lemma {:induction false} EncodeDecode(s: string)
    requires HexDecode(s).Ok?
    ensures HexEncode(HexDecode(s).value) == Lower(s)
    decreases |s|
  {
    if s != [] {
      var b := HexDecode(s).value;
      EncodeDecode(s[2..]);
      assert b[1..] == HexDecode(s[2..]).value;
      assert b[0] / 16 == DigitValue(s[0]) && b[0] % 16 == DigitValue(s[1]);
      assert LowerChar(s[0]) == HexChar(DigitValue(s[0])) by { LowerHexChar(s[0]); }
      assert LowerChar(s[1]) == HexChar(DigitValue(s[1])) by { LowerHexChar(s[1]); }
      assert Lower(s) == [LowerChar(s[0]), LowerChar(s[1])] + Lower(s[2..]);
    }
  }

  lemma LowerHexChar(c: char)
    requires IsHexDigit(c)
    ensures LowerChar(c) == HexChar(DigitValue(c))
  {
  }

  /** Byte `i` of a decoded string comes from characters `2i` and `2i+1`. */
  lemma {:induction false} HexDecodeAt(s: string, i: nat)
    requires HexDecode(s).Ok? && i < |HexDecode(s).value|
    ensures HexDecode(s).value[i] == DigitValue(s[2 * i]) * 16 + DigitValue(s[2 * i + 1])
    decreases i
  {
    if i > 0 {
      HexDecodeAt(s[2..], i - 1);
    }
  }

  lemma AllHexSlice(s: string, i: nat, j: nat)
    requires AllHex(s) && i <= j <= |s|
    ensures AllHex(s[i..j])
  {
  }

  lemma HexDecodeSliceOk(s: string, i: nat, j: nat)
    requires HexDecode(s).Ok? && i <= j <= |HexDecode(s).value|
    ensures HexDecode(s[2 * i..2 * j]).Ok? && |HexDecode(s[2 * i..2 * j]).value| == j - i
  {
  }

  lemma SliceByte(s: string, i: nat, j: nat, k: nat)
    requires HexDecode(s).Ok? && i <= j <= |HexDecode(s).value| && k < j - i
    ensures HexDecode(s[2 * i..2 * j]).Ok?
    ensures HexDecode(s[2 * i..2 * j]).value[k] == HexDecode(s).value[i + k]
  {
    var t := s[2 * i..2 * j];
    HexDecodeSliceOk(s, i, j);
    var m := i + k;
    assert 2 * m == 2 * i + 2 * k && 2 * k + 1 < |t|;
    assert t[2 * k] == s[2 * i + 2 * k] && t[2 * k + 1] == s[2 * i + 2 * k + 1];
    SameDigits(s, t, m, k);
  }

  /** Decoding a slice of whole pairs gives the corresponding slice of bytes. */
  lemma HexDecodeSlice(s: string, i: nat, j: nat)
    requires HexDecode(s).Ok? && i <= j <= |HexDecode(s).value|
    ensures HexDecode(s[2 * i..2 * j]) == Ok(HexDecode(s).value[i..j])
  {
    HexDecodeSliceOk(s, i, j);
    var b, c := HexDecode(s).value, HexDecode(s[2 * i..2 * j]).value;
    forall k | 0 <= k < j - i ensures c[k] == b[i + k] {
      SliceByte(s, i, j, k);
    }
    assert c == b[i..j];
  }

  /** Two strings that agree on one pair of digits decode to the same byte there. */
  lemma SameDigits(s: string, t: string, m: nat, k: nat)
    requires HexDecode(s).Ok? && HexDecode(t).Ok?
    requires k < |HexDecode(t).value| && m < |HexDecode(s).value|
    requires t[2 * k] == s[2 * m] && t[2 * k + 1] == s[2 * m + 1]
    ensures HexDecode(t).value[k] == HexDecode(s).value[m]
  {
    HexDecodeAt(t, k);
    HexDecodeAt(s, m);
  }

  lemma {:induction false} HexEncodeAppend(a: seq<byte>, b: seq<byte>)
    ensures HexEncode(a + b) == HexEncode(a) + HexEncode(b)
  {
    if a != [] {
      assert (a + b)[0] == a[0] && (a + b)[1..] == a[1..] + b;
      HexEncodeAppend(a[1..], b);
      var h := [HexChar(a[0] / 16), HexChar(a[0] % 16)];
      calc {
        HexEncode(a + b);
        h + HexEncode(a[1..] + b);
        h + (HexEncode(a[1..]) + HexEncode(b));
        (h + HexEncode(a[1..])) + HexEncode(b);
      }
    } else {
      assert a + b == b;
    }
  }

  function Pow16(k: nat): (p: nat)
    ensures p > 0
  {
    if k == 0 then 1 else 16 * Pow16(k - 1)
  }

  /** The value of `s` read as a hexadecimal numeral, most significant digit first. */
  function HexNumeral(s: string): (n: nat)
    requires AllHex(s)
    ensures n < Pow16(|s|)
  {
    if s == [] then 0 else HexNumeral(s[..|s| - 1]) * 16 + DigitValue(s[|s| - 1])
  }

  lemma AllHexAppend(t: string, u: string)
    requires AllHex(t) && AllHex(u)
    ensures AllHex(t + u)
  {
  }

  lemma {:induction false} HexNumeralAppend(t: string, u: string)
    requires AllHex(t) && AllHex(u)
    ensures AllHex(t + u)
    ensures HexNumeral(t + u) == HexNumeral(t) * Pow16(|u|) + HexNumeral(u)
    decreases |u|
  {
    AllHexAppend(t, u);
    if u != [] {
      var u' := u[..|u| - 1];
      AllHexSlice(u, 0, |u| - 1);
      assert (t + u)[..|t + u| - 1] == t + u';
      assert (t + u)[|t + u| - 1] == u[|u| - 1];
      HexNumeralAppend(t, u');
      ShiftDigit(HexNumeral(t), Pow16(|u'|), HexNumeral(u'), DigitValue(u[|u| - 1]));
    } else {
      assert t + u == t;
    }
  }

  lemma ShiftDigit(x: nat, p: nat, y: nat, d: nat)
    ensures (x * p + y) * 16 + d == x * (16 * p) + (y * 16 + d)
  {
  }

  lemma {:induction false} HexNumeralZeros(s: string)
    requires forall i :: 0 <= i < |s| ==> s[i] == '0'
    ensures AllHex(s) && HexNumeral(s) == 0
  {
    if s != [] {
      HexNumeralZeros(s[..|s| - 1]);
    }
  }

  /**
   * Decoding and then reading the bytes big-endian gives the value of the
   * hex numeral: the byte order of the encoding is the digit order.
   */
  lemma {:induction false} FromBEHexDecode(s: string)
    requires HexDecode(s).Ok?
    ensures FromBE(HexDecode(s).value) == HexNumeral(s)
    decreases |s|
  {
    var b := HexDecode(s).value;
    if s != [] {
      var n := |b|;
      var p := s[..2 * n - 2];
      HexDecodeSlice(s, 0, n - 1);
      assert p == s[2 * 0..2 * (n - 1)];
      FromBEHexDecode(p);
      HexDecodeAt(s, n - 1);
      assert s[..|s| - 1][..|s| - 2] == p;
    }
  }
}
