/** Fixed-width lower-case hexadecimal: the digit classes of the UCID pattern,
    rendering a number as a zero-padded digit string (the `%011x` / `%05x`
    verbs) and reading a digit string back (`strconv.ParseInt` in base 16). */
module Hex {

  /** One byte of a Go string. The model treats a Go string as its bytes. */
  type Byte = c: char | c as int < 256

  /** The class `[a-z]`. */
  predicate IsLowerLetter(c: Byte) {
    'a' <= c <= 'z'
  }

  /** The class `[0-9a-f]`. */
  predicate IsHexDigit(c: Byte) {
    '0' <= c <= '9' || 'a' <= c <= 'f'
  }

  predicate IsHexString(s: seq<Byte>) {
    forall i :: 0 <= i < |s| ==> IsHexDigit(s[i])
  }

  lemma HexSlice(s: seq<Byte>, i: nat, j: nat)
    requires IsHexString(s) && i <= j <= |s|
    ensures IsHexString(s[i..j])
  {
    assert forall k :: 0 <= k < j - i ==> s[i..j][k] == s[i + k];
  }

  function Pow16(n: nat): (p: nat)
    ensures p >= 1
  {
    if n == 0 then 1 else 16 * Pow16(n - 1)
  }

  function Pow2(n: nat): (p: nat)
    ensures p >= 1
  {
    if n == 0 then 1 else 2 * Pow2(n - 1)
  }

  lemma {:induction false} Pow2Add(a: nat, b: nat)
    ensures Pow2(a + b) == Pow2(a) * Pow2(b)
    decreases a
  {
    if a > 0 {
      Pow2Add(a - 1, b);
    }
  }

  /** The signed limits `strconv.ParseInt` checks for 32 and 64 bits. */
  lemma SignedLimits()
    ensures Pow2(31) == 0x8000_0000 && Pow2(63) == 0x8000_0000_0000_0000
  {
    assert Pow2(4) == 0x10;
    assert Pow2(8) == 0x100 by { Pow2Add(4, 4); }
    assert Pow2(16) == 0x1_0000 by { Pow2Add(8, 8); }
    assert Pow2(32) == 0x1_0000_0000 by { Pow2Add(16, 16); }
    assert Pow2(64) == 0x1_0000_0000_0000_0000 by { Pow2Add(32, 32); }
    assert Pow2(32) == 2 * Pow2(31);
    assert Pow2(64) == 2 * Pow2(63);
  }

  /** The value of one hexadecimal digit. */
  function DigitValue(c: Byte): (v: nat)
    requires IsHexDigit(c)
    ensures v < 16
    ensures c <= '9' ==> v == c as int - '0' as int
    ensures 'a' <= c ==> v == c as int - 'a' as int + 10
  {
    if c <= '9' then c as int - '0' as int else c as int - 'a' as int + 10
  }

  /** The lower-case digit of a value below 16: the inverse of DigitValue. */
  function HexDigit(v: nat): (c: Byte)
    requires v < 16
    ensures IsHexDigit(c) && DigitValue(c) == v
  {
    if v < 10 then ('0' as int + v) as char else ('a' as int + v - 10) as char
  }

  lemma DigitRoundTrip(c: Byte)
    requires IsHexDigit(c)
    ensures HexDigit(DigitValue(c)) == c
  {
  }

  /** The big-endian value of a digit string; the empty string reads as 0. */
  function ParseHex(s: seq<Byte>): (v: nat)
    requires IsHexString(s)
    ensures v < Pow16(|s|)
    decreases |s|
  {
    if s == [] then 0
    else
      var p := ParseHex(s[..|s| - 1]);
      var d := DigitValue(s[|s| - 1]);
      assert 16 * p + d < 16 * Pow16(|s| - 1) by {
        assert p + 1 <= Pow16(|s| - 1);
        assert 16 * (p + 1) <= 16 * Pow16(|s| - 1);
      }
      16 * p + d
  }

  /** `v` as exactly `width` lower-case digits, most significant first,
      padded with leading zeros. */
  function RenderHex(v: nat, width: nat): (s: seq<Byte>)
    requires v < Pow16(width)
    ensures |s| == width && IsHexString(s)
    decreases width
  {
    if width == 0 then []
    else
      assert v / 16 < Pow16(width - 1);
      RenderHex(v / 16, width - 1) + [HexDigit(v % 16)]
  }

  /** Reading a rendering gives back the value it renders. */
  lemma {:induction false} ParseRender(v: nat, width: nat)
    requires v < Pow16(width)
    ensures ParseHex(RenderHex(v, width)) == v
    decreases width
  {
    if width > 0 {
      var s := RenderHex(v, width);
      assert v / 16 < Pow16(width - 1);
      ParseRender(v / 16, width - 1);
      assert s[..|s| - 1] == RenderHex(v / 16, width - 1);
    }
  }

  /** Rendering is the inverse of parsing too: a digit string of width `n`
      is the only `n`-digit rendering of its value. */
  lemma {:induction false} RenderParse(s: seq<Byte>)
    requires IsHexString(s)
    ensures RenderHex(ParseHex(s), |s|) == s
    decreases |s|
  {
    if s != [] {
      var init, last := s[..|s| - 1], s[|s| - 1];
      RenderParse(init);
      DigitRoundTrip(last);
      RenderAppend(ParseHex(s), ParseHex(init), DigitValue(last), |init|);
      assert s == init + [last];
    }
  }

  /** Rendering a value whose last digit is `d` and whose other digits are
      worth `p` renders `p`, then the digit of `d`. */
  lemma RenderAppend(v: nat, p: nat, d: nat, w: nat)
    requires d < 16 && p < Pow16(w) && v == 16 * p + d
    ensures v < Pow16(w + 1)
    ensures RenderHex(v, w + 1) == RenderHex(p, w) + [HexDigit(d)]
  {
    ShiftDigit(p, d);
  }

  /** A string of zeros reads as 0. */
  lemma {:induction false} ParseHexZeros(s: seq<Byte>)
    requires forall i :: 0 <= i < |s| ==> s[i] == '0'
    ensures IsHexString(s) && ParseHex(s) == 0
    decreases |s|
  {
    if s != [] {
      ParseHexZeros(s[..|s| - 1]);
    }
  }

  lemma ShiftDigit(p: nat, d: nat)
    requires d < 16
    ensures (16 * p + d) / 16 == p && (16 * p + d) % 16 == d
  {
  }

  /** Two digit strings of the same width with the same value are equal. */
  lemma ParseHexInjective(s: seq<Byte>, t: seq<Byte>)
    requires IsHexString(s) && IsHexString(t) && |s| == |t|
    requires ParseHex(s) == ParseHex(t)
    ensures s == t
  {
    RenderParse(s);
    RenderParse(t);
  }

  datatype NumError = ErrSyntax | ErrRange

  datatype IntResult = IntOk(value: int) | IntErr(error: NumError)

  /** `strconv.ParseInt(s, 16, bitSize)` on unsigned lower-case input: an
      empty string or a non-digit is a syntax error, a value that does not
      fit a signed integer of `bitSize` bits is a range error. */
  function ParseInt(s: seq<Byte>, bitSize: nat): (r: IntResult)
    requires 1 <= bitSize
    ensures r.IntOk? <==> |s| > 0 && IsHexString(s) && ParseHex(s) < Pow2(bitSize - 1)
    ensures r.IntOk? ==> r.value == ParseHex(s) && 0 <= r.value < Pow2(bitSize - 1)
    ensures r.IntErr? && r.error == ErrSyntax <==> s == [] || !IsHexString(s)
  {
    if s == [] || !IsHexString(s) then IntErr(ErrSyntax)
    else if ParseHex(s) >= Pow2(bitSize - 1) then IntErr(ErrRange)
    else IntOk(ParseHex(s))
  }
}
