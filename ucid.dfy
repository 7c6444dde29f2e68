/** The UCID codec: the token grammar and its decoder `DataFromUCID`, and the
    ordered validation and fixed-width rendering of the encoder `ToUCID`.
    A token carries a context tag of 2 to 8 lower-case letters and sixteen
    hexadecimal digits in four groups of four; the first eleven digits are a
    44-bit timestamp and the last five a 20-bit random value. */
module Ucid {
  import opened Hex

  /** Go's `int64` and `int32`. */
  type Int64 = x: int | -0x8000_0000_0000_0000 <= x < 0x8000_0000_0000_0000
  type Int32 = x: int | -0x8000_0000 <= x < 0x8000_0000

  const MinContextLen: nat := 2
  const MaxContextLen: nat := 8
  const MaxTimestamp: Int64 := 0xFFF_FFFF_FFFF
  const MaxRandom: Int32 := 0xF_FFFF
  /** The string `ToUCID` returns beside every error. */
  const ErrorUCID: seq<Byte> := "err_0000_0000_0000_0000"

  /** Digits of the timestamp and of the random value in the hex stream. */
  const TimestampDigits: nat := 11
  const RandomDigits: nat := 5

  datatype Option<T> = None | Some(value: T)

  /** The package's error values, plus the errors of `strconv.ParseInt`. */
  datatype Error =
    | ContextTooShort
    | ContextTooLong
    | ContextOnlyLowerCaseLetter
    | TimestampNegative
    | TimestampTooHigh
    | RandomNegative
    | RandomTooHigh
    | InvalidUCID
    | NumErr(cause: NumError)

  datatype Data = Data(context: seq<Byte>, timestamp: Int64, random: Int32)

  /** Go's zero value `Data{}`. */
  const ZeroData: Data := Data([], 0, 0)

  predicate AllLowerLetters(s: seq<Byte>) {
    forall i :: 0 <= i < |s| ==> IsLowerLetter(s[i])
  }

  predicate ValidContext(ctx: seq<Byte>) {
    MinContextLen <= |ctx| <= MaxContextLen && AllLowerLetters(ctx)
  }

  predicate ValidTimestamp(t: int) {
    0 <= t <= MaxTimestamp
  }

  predicate ValidRandom(r: int) {
    0 <= r <= MaxRandom
  }

  /** The record `ToUCID` accepts. */
  predicate Valid(d: Data) {
    ValidContext(d.context) && ValidTimestamp(d.timestamp) && ValidRandom(d.random)
  }

  lemma FieldWidths()
    ensures Pow16(TimestampDigits) == MaxTimestamp as int + 1
    ensures Pow16(RandomDigits) == MaxRandom as int + 1
    ensures Pow2(63) == 0x8000_0000_0000_0000 && Pow2(31) == 0x8000_0000
  {
    SignedLimits();
  }

  // ---------------------------------------------------------------------------
  // Token layout

  /** `strings.Join([ctx, hex[0:4], hex[4:8], hex[8:12], hex[12:16]], sep)`. */
  function Join(ctx: seq<Byte>, hex: seq<Byte>, sep: Byte): (u: seq<Byte>)
    requires |hex| == 16
    ensures |u| == |ctx| + 20
  {
    ctx + [sep] + hex[0..4] + [sep] + hex[4..8] + [sep] + hex[8..12] + [sep] + hex[12..16]
  }

  /** The sixteen digit positions of a token whose context has length `n`,
      read as one stream with the four separators dropped. */
  function Stream(u: seq<Byte>, n: nat): seq<Byte>
    requires n + 20 <= |u|
  {
    u[n + 1..n + 5] + u[n + 6..n + 10] + u[n + 11..n + 15] + u[n + 16..n + 20]
  }

  /** Splitting a joined token again gives back its context, its separators
      and its digit stream. */
  lemma {:induction false} JoinParts(ctx: seq<Byte>, hex: seq<Byte>, sep: Byte)
    requires |hex| == 16
    ensures var u := Join(ctx, hex, sep); var n := |ctx|;
      u[..n] == ctx && u[n] == sep && u[n + 5] == sep && u[n + 10] == sep && u[n + 15] == sep
      && Stream(u, n) == hex
  {
    var u, n := Join(ctx, hex, sep), |ctx|;
    assert u[n + 1..n + 5] == hex[0..4];
    assert u[n + 6..n + 10] == hex[4..8];
    assert u[n + 11..n + 15] == hex[8..12];
    assert u[n + 16..n + 20] == hex[12..16];
    assert hex == hex[0..4] + hex[4..8] + hex[8..12] + hex[12..16];
  }

  /** The stream's first eleven digits are the pattern's groups 2, 3 and 4;
      its last five are groups 5 and 6. */
  lemma StreamSplit(u: seq<Byte>, n: nat)
    requires n + 20 <= |u|
    ensures Stream(u, n)[..TimestampDigits] == u[n + 1..n + 5] + u[n + 6..n + 10] + u[n + 11..n + 14]
    ensures Stream(u, n)[TimestampDigits..] == u[n + 14..n + 15] + u[n + 16..n + 20]
  {
    var a, b, c, d := u[n + 1..n + 5], u[n + 6..n + 10], u[n + 11..n + 15], u[n + 16..n + 20];
    assert c == u[n + 11..n + 14] + u[n + 14..n + 15];
    assert Stream(u, n) == (a + b + u[n + 11..n + 14]) + (u[n + 14..n + 15] + d);
  }

  /** A string twenty bytes longer than `n` is its first `n` bytes, four
      separator positions and four groups of four. */
  lemma Layout(s: seq<Byte>, n: nat)
    requires |s| == n + 20
    ensures s == s[..n] + [s[n]] + s[n + 1..n + 5] + [s[n + 5]] + s[n + 6..n + 10]
      + [s[n + 10]] + s[n + 11..n + 15] + [s[n + 15]] + s[n + 16..n + 20]
  {
  }

  /** A string with `_` at the four separator positions is the join of its
      first `n` bytes and its digit stream. */
  lemma JoinStream(s: seq<Byte>, n: nat)
    requires |s| == n + 20
    requires s[n] == '_' && s[n + 5] == '_' && s[n + 10] == '_' && s[n + 15] == '_'
    ensures s == Join(s[..n], Stream(s, n), '_')
  {
    var h := Stream(s, n);
    JoinParts(s[..n], h, '_');
    Layout(s, n);
    Layout(Join(s[..n], h, '_'), n);
  }

  // ---------------------------------------------------------------------------
  // Decoder

  /** The pattern
      `^([a-z]{2,8})_([0-9a-f]{4})_([0-9a-f]{4})_([0-9a-f]{3})([0-9a-f])_([0-9a-f]{4})$`.
      The part after the context is always 20 bytes long, so the context is
      the first `|s| - 20` bytes. */
  predicate MatchesPattern(s: seq<Byte>) {
    var n := |s| - 20;
    MinContextLen <= n <= MaxContextLen
    && AllLowerLetters(s[..n])
    && s[n] == '_' && IsHexString(s[n + 1..n + 5])
    && s[n + 5] == '_' && IsHexString(s[n + 6..n + 10])
    && s[n + 10] == '_' && IsHexString(s[n + 11..n + 14]) && IsHexDigit(s[n + 14])
    && s[n + 15] == '_' && IsHexString(s[n + 16..n + 20])
  }

  /** `DataFromUCID`: a token that does not match the pattern gives
      `ErrInvalidUCID` and the zero record; otherwise the context is the
      letter prefix, the timestamp is the first eleven digits of the stream
      (the pattern cuts the third group 3 + 1 for this) and the random value
      is the remaining five. The two `ParseInt` error returns are kept; they
      are never taken. */
  function DataFromUCID(ucid: seq<Byte>): (r: (Data, Option<Error>))
    ensures r.1.Some? ==> r == (ZeroData, Some(InvalidUCID))
    ensures r.1.None? <==> MatchesPattern(ucid)
    ensures r.1.None? ==> Valid(r.0)
  {
    if !MatchesPattern(ucid) then (ZeroData, Some(InvalidUCID))
    else
      var n := |ucid| - 20;
      var context := ucid[..n];
      var timestampString := ucid[n + 1..n + 5] + ucid[n + 6..n + 10] + ucid[n + 11..n + 14];
      var randomString := ucid[n + 14..n + 15] + ucid[n + 16..n + 20];
      PatternFields(ucid);
      match ParseInt(timestampString, 64)
      case IntErr(e) => (ZeroData, Some(NumErr(e)))
      case IntOk(timestamp) =>
        match ParseInt(randomString, 32)
        case IntErr(e) => (ZeroData, Some(NumErr(e)))
        case IntOk(random) => (Data(context, timestamp, random), None)
  }

  /** On a matching token both digit strings are nonempty lower-case hex
      whose values fit the fields, so neither `ParseInt` call fails. */
  lemma PatternFields(ucid: seq<Byte>)
    requires MatchesPattern(ucid)
    ensures var n := |ucid| - 20;
      var ts := ucid[n + 1..n + 5] + ucid[n + 6..n + 10] + ucid[n + 11..n + 14];
      var rs := ucid[n + 14..n + 15] + ucid[n + 16..n + 20];
      && ParseInt(ts, 64).IntOk? && ValidTimestamp(ParseInt(ts, 64).value)
      && ParseInt(rs, 32).IntOk? && ValidRandom(ParseInt(rs, 32).value)
  {
    var n := |ucid| - 20;
    var ts := ucid[n + 1..n + 5] + ucid[n + 6..n + 10] + ucid[n + 11..n + 14];
    var rs := ucid[n + 14..n + 15] + ucid[n + 16..n + 20];
    assert IsHexString(ts);
    assert IsHexString(rs);
    FieldWidths();
    assert |ts| == TimestampDigits && |rs| == RandomDigits;
  }

  /** Every string of the grammar's shape decodes: the context comes back
      unchanged, and the timestamp and the random value are the values of the
      first eleven and the last five digits. */
  lemma {:induction false} DecodeJoin(ctx: seq<Byte>, hex: seq<Byte>)
    requires ValidContext(ctx) && |hex| == 16 && IsHexString(hex)
    ensures var (d, err) := DataFromUCID(Join(ctx, hex, '_'));
      err == None && d.context == ctx
      && d.timestamp == ParseHex(hex[..TimestampDigits])
      && d.random == ParseHex(hex[TimestampDigits..])
  {
    var u, n := Join(ctx, hex, '_'), |ctx|;
    JoinParts(ctx, hex, '_');
    JoinMatches(ctx, hex);
    DecodeFields(u);
    assert |u| - 20 == n;
    assert u[..n] == ctx && Stream(u, n) == hex;
  }

  /** The underscore join of a valid context and sixteen digits matches. */
  lemma JoinMatches(ctx: seq<Byte>, hex: seq<Byte>)
    requires ValidContext(ctx) && |hex| == 16 && IsHexString(hex)
    ensures MatchesPattern(Join(ctx, hex, '_'))
  {
    var u, n := Join(ctx, hex, '_'), |ctx|;
    JoinParts(ctx, hex, '_');
    assert u[n + 1..n + 5] == hex[0..4];
    assert u[n + 6..n + 10] == hex[4..8];
    assert u[n + 11..n + 14] == hex[8..11];
    assert u[n + 14] == hex[11];
    assert u[n + 16..n + 20] == hex[12..16];
    HexSlice(hex, 0, 4);
    HexSlice(hex, 4, 8);
    HexSlice(hex, 8, 11);
    HexSlice(hex, 12, 16);
    assert |u| - 20 == n;
  }

  /** What a matching token decodes to, in terms of its digit stream. */
  lemma DecodeFields(s: seq<Byte>)
    requires MatchesPattern(s)
    ensures var n := |s| - 20; var (d, err) := DataFromUCID(s);
      err == None && d.context == s[..n]
      && IsHexString(Stream(s, n)[..TimestampDigits]) && IsHexString(Stream(s, n)[TimestampDigits..])
      && d.timestamp == ParseHex(Stream(s, n)[..TimestampDigits])
      && d.random == ParseHex(Stream(s, n)[TimestampDigits..])
  {
    PatternFields(s);
    StreamSplit(s, |s| - 20);
  }

  /** A matching token has `_` at the four separator positions and sixteen
      hexadecimal digits in between. */
  lemma PatternStream(s: seq<Byte>)
    requires MatchesPattern(s)
    ensures var n := |s| - 20;
      s[n] == '_' && s[n + 5] == '_' && s[n + 10] == '_' && s[n + 15] == '_'
      && IsHexString(Stream(s, n))
  {
    var n := |s| - 20;
    assert s[n + 11..n + 15] == s[n + 11..n + 14] + [s[n + 14]];
  }

  /** The digits of a valid record: `fmt.Sprintf("%011x%05x", ts, random)`. */
  function HexPart(timestamp: int, random: int): (h: seq<Byte>)
    requires ValidTimestamp(timestamp) && ValidRandom(random)
    ensures |h| == 16 && IsHexString(h)
  {
    FieldWidths();
    RenderHex(timestamp, TimestampDigits) + RenderHex(random, RandomDigits)
  }

  /** Every sixteen-digit string is the rendering of the two values it
      holds: the first eleven digits and the last five. */
  lemma HexPartOnto(h: seq<Byte>)
    requires |h| == 16 && IsHexString(h)
    ensures IsHexString(h[..TimestampDigits]) && IsHexString(h[TimestampDigits..])
    ensures ValidTimestamp(ParseHex(h[..TimestampDigits])) && ValidRandom(ParseHex(h[TimestampDigits..]))
    ensures HexPart(ParseHex(h[..TimestampDigits]), ParseHex(h[TimestampDigits..])) == h
  {
    FieldWidths();
    RenderParse(h[..TimestampDigits]);
    RenderParse(h[TimestampDigits..]);
    assert h == h[..TimestampDigits] + h[TimestampDigits..];
  }

  /** The stream round trip: reading the sixteen rendered digits the way the
      decoder does (first eleven, last five, each through `ParseInt`) gives
      back the timestamp and the random value. */
  lemma {:induction false} HexPartRoundTrip(timestamp: int, random: int)
    requires ValidTimestamp(timestamp) && ValidRandom(random)
    ensures var h := HexPart(timestamp, random);
      ParseInt(h[..TimestampDigits], 64) == IntOk(timestamp)
      && ParseInt(h[TimestampDigits..], 32) == IntOk(random)
  {
    FieldWidths();
    HexPartReads(timestamp, random);
  }

  /** The two halves of the rendered digits read as the two fields. */
  lemma HexPartReads(timestamp: int, random: int)
    requires ValidTimestamp(timestamp) && ValidRandom(random)
    ensures var h := HexPart(timestamp, random);
      IsHexString(h[..TimestampDigits]) && IsHexString(h[TimestampDigits..])
      && |h[..TimestampDigits]| > 0 && |h[TimestampDigits..]| > 0
      && ParseHex(h[..TimestampDigits]) == timestamp && ParseHex(h[TimestampDigits..]) == random
  {
    FieldWidths();
    var h := HexPart(timestamp, random);
    assert h[..TimestampDigits] == RenderHex(timestamp, TimestampDigits);
    assert h[TimestampDigits..] == RenderHex(random, RandomDigits);
    ParseRender(timestamp, TimestampDigits);
    ParseRender(random, RandomDigits);
  }

  /** Every accepted token is the underscore-joined rendering of what it
      decodes to; with DecodeJoin this pins the accepted language down to
      exactly the strings of the grammar's shape, and shows that two
      different tokens never decode to the same record. */
  lemma {:induction false} DecodeAccepted(s: seq<Byte>)
    requires DataFromUCID(s).1 == None
    ensures var d := DataFromUCID(s).0;
      s == Join(d.context, HexPart(d.timestamp, d.random), '_')
  {
    var n := |s| - 20;
    PatternStream(s);
    DecodeFields(s);
    JoinStream(s, n);
    HexPartOnto(Stream(s, n));
  }

  // ---------------------------------------------------------------------------
  // Encoder

  /** `Data.ToUCID`: seven checks in a fixed order, the first failing one
      wins and comes with `ErrorUCID`; a valid record is rendered as its
      context and four groups of four digits, joined with a space. */
  function ToUCID(d: Data): (r: (seq<Byte>, Option<Error>))
    ensures r.1.Some? ==> r.0 == ErrorUCID
    ensures r.1.None? <==> Valid(d)
    ensures r.1 == Some(ContextTooShort) <==> |d.context| < MinContextLen
    ensures r.1 == Some(ContextTooLong) <==> MinContextLen <= |d.context| && MaxContextLen < |d.context|
    ensures r.1 == Some(ContextOnlyLowerCaseLetter)
      <==> MinContextLen <= |d.context| <= MaxContextLen && !AllLowerLetters(d.context)
    ensures r.1 == Some(TimestampNegative) <==> ValidContext(d.context) && d.timestamp < 0
    ensures r.1 == Some(TimestampTooHigh) <==> ValidContext(d.context) && MaxTimestamp < d.timestamp
    ensures r.1 == Some(RandomNegative)
      <==> ValidContext(d.context) && ValidTimestamp(d.timestamp) && d.random < 0
    ensures r.1 == Some(RandomTooHigh)
      <==> ValidContext(d.context) && ValidTimestamp(d.timestamp) && MaxRandom < d.random
  {
    if |d.context| < MinContextLen then (ErrorUCID, Some(ContextTooShort))
    else if |d.context| > MaxContextLen then (ErrorUCID, Some(ContextTooLong))
    else if !AllLowerLetters(d.context) then (ErrorUCID, Some(ContextOnlyLowerCaseLetter))
    else if d.timestamp < 0 then (ErrorUCID, Some(TimestampNegative))
    else if d.timestamp > MaxTimestamp then (ErrorUCID, Some(TimestampTooHigh))
    else if d.random < 0 then (ErrorUCID, Some(RandomNegative))
    else if d.random > MaxRandom then (ErrorUCID, Some(RandomTooHigh))
    else (Join(d.context, HexPart(d.timestamp, d.random), ' '), None)
  }

  /** The shape of a successful encoding: the context, then four groups of
      four digits each after a single space, twenty bytes in all after the
      context; the digit stream reads back as the timestamp (first eleven)
      and the random value (last five). */
  lemma {:induction false} ToUCIDShape(d: Data)
    requires Valid(d)
    ensures var u := ToUCID(d).0; var n := |d.context|;
      |u| == n + 20 && u[..n] == d.context
      && u[n] == ' ' && u[n + 5] == ' ' && u[n + 10] == ' ' && u[n + 15] == ' '
      && IsHexString(Stream(u, n))
      && ParseInt(Stream(u, n)[..TimestampDigits], 64) == IntOk(d.timestamp)
      && ParseInt(Stream(u, n)[TimestampDigits..], 32) == IntOk(d.random)
  {
    JoinParts(d.context, HexPart(d.timestamp, d.random), ' ');
    HexPartRoundTrip(d.timestamp, d.random);
  }

  /** As written, the encoder's output never decodes: it joins the groups
      with a space where the pattern requires `_`. */
  lemma {:induction false} ToUCIDNotDecodable(d: Data)
    requires Valid(d)
    ensures DataFromUCID(ToUCID(d).0) == (ZeroData, Some(InvalidUCID))
  {
    var u := ToUCID(d).0;
    JoinParts(d.context, HexPart(d.timestamp, d.random), ' ');
    assert u[|u| - 20] == ' ';
  }

  /** The encoder with the separator the decoder expects: the same checks
      and errors as ToUCID, and every token it produces decodes back to the
      record it came from. */
  function ToCanonicalUCID(d: Data): (r: (seq<Byte>, Option<Error>))
    ensures r.1 == ToUCID(d).1
    ensures r.1.Some? ==> r.0 == ErrorUCID
    ensures r.1.None? ==> DataFromUCID(r.0) == (d, None)
  {
    if !Valid(d) then ToUCID(d)
    else
      var h := HexPart(d.timestamp, d.random);
      DecodeJoin(d.context, h);
      HexPartReads(d.timestamp, d.random);
      (Join(d.context, h, '_'), None)
  }

  /** The sixteen zero digits of the sentinel render the record `{0, 0}`. */
  lemma ZeroHexPart()
    ensures HexPart(0, 0) == "0000000000000000"
  {
    var z: seq<Byte> := "0000000000000000";
    ParseHexZeros(z[..TimestampDigits]);
    ParseHexZeros(z[TimestampDigits..]);
    RenderParse(z[..TimestampDigits]);
    RenderParse(z[TimestampDigits..]);
    assert z == z[..TimestampDigits] + z[TimestampDigits..];
  }

  /** The sentinel is the context `err` joined with sixteen zeros. */
  lemma SentinelLayout()
    ensures Join("err", "0000000000000000", '_') == ErrorUCID
  {
    var z: seq<Byte> := "0000000000000000";
    var g: seq<Byte> := "0000";
    assert z[0..4] == g && z[4..8] == g && z[8..12] == g && z[12..16] == g;
    assert ErrorUCID == "err" + "_" + g + "_" + g + "_" + g + "_" + g;
  }

  /** The error sentinel is itself a well-formed token: it decodes to
      `Data{"err", 0, 0}`. */
  lemma SentinelDecodes()
    ensures DataFromUCID(ErrorUCID) == (Data("err", 0, 0), None)
  {
    var z: seq<Byte> := "0000000000000000";
    SentinelLayout();
    ParseHexZeros(z[..TimestampDigits]);
    ParseHexZeros(z[TimestampDigits..]);
    assert ValidContext("err");
    DecodeJoin("err", z);
  }

  /** The sentinel is the canonical encoding of `Data{"err", 0, 0}`. */
  lemma SentinelIsCanonical()
    ensures ToCanonicalUCID(Data("err", 0, 0)) == (ErrorUCID, None)
  {
    var d := Data("err", 0, 0);
    var z: seq<Byte> := "0000000000000000";
    assert Valid(d);
    ZeroHexPart();
    assert ToCanonicalUCID(d).0 == Join("err", z, '_');
    SentinelLayout();
  }

  /** Only the space separator keeps the as-written encoder from ever
      returning the sentinel on success. */
  lemma {:induction false} EncodedIsNotSentinel(d: Data)
    requires ToUCID(d).1 == None
    ensures ToUCID(d).0 != ErrorUCID
  {
    var u := ToUCID(d).0;
    JoinParts(d.context, HexPart(d.timestamp, d.random), ' ');
    if |d.context| == 3 {
      assert u[3] == ' ' && ErrorUCID[3] == '_';
    } else {
      assert |u| != |ErrorUCID|;
    }
  }

  // ---------------------------------------------------------------------------
  // The package's own examples

  /** The package's test tokens are their context joined with the digits
      `0000000000011111`. */
  lemma SampleLayout(ctx: seq<Byte>, token: seq<Byte>)
    requires token == ctx + "_0000_0000_0001_1111"
    ensures token == Join(ctx, "0000000000011111", '_')
  {
  }

  /** The last five digits of the sample token read as 0x11111. */
  lemma SampleRandomDigits()
    ensures IsHexString("11111") && ParseHex("11111") == 0x11111
  {
    var one: seq<Byte> := "1";
    assert ParseHex(one) == 1 by { assert one[..0] == []; }
    assert ParseHex(one + one) == 0x11 by { assert (one + one)[..1] == one; }
    assert ParseHex(one + one + one) == 0x111 by { assert (one + one + one)[..2] == one + one; }
    assert ParseHex(one + one + one + one) == 0x1111 by {
      assert (one + one + one + one)[..3] == one + one + one;
    }
    assert ParseHex(one + one + one + one + one) == 0x11111 by {
      assert (one + one + one + one + one)[..4] == one + one + one + one;
    }
    assert one + one + one + one + one == "11111";
  }

  /** The digits of the package's test tokens: the first eleven read as 0,
      the last five as 0x11111. */
  lemma SampleDigits()
    ensures var h: seq<Byte> := "0000000000011111";
      IsHexString(h) && ParseHex(h[..TimestampDigits]) == 0 && ParseHex(h[TimestampDigits..]) == 0x11111
  {
    var h: seq<Byte> := "0000000000011111";
    ParseHexZeros(h[..TimestampDigits]);
    assert h[TimestampDigits..] == "11111";
    SampleRandomDigits();
  }

  /** The sample token: digit 12 of the stream, the `1` that ends the third
      group, belongs to the random value, so the timestamp is 0 and the
      random value 0x11111. */
  lemma DecodeSample(token: seq<Byte>)
    requires token == "test_0000_0000_0001_1111"
    ensures DataFromUCID(token) == (Data("test", 0, 0x11111), None)
  {
    SampleLayout("test", token);
    SampleDigits();
    assert ValidContext("test");
    DecodeJoin("test", "0000000000011111");
  }

  /** A test token with a valid context is accepted. */
  lemma SampleAccepted(ctx: seq<Byte>, token: seq<Byte>)
    requires ValidContext(ctx) && token == ctx + "_0000_0000_0001_1111"
    ensures DataFromUCID(token).1 == None
  {
    SampleLayout(ctx, token);
    SampleDigits();
    JoinMatches(ctx, "0000000000011111");
  }

  /** Contexts of two and of eight letters are accepted. */
  lemma DecodeAcceptsExamples(ctx: seq<Byte>)
    requires ctx == "te" || ctx == "testtest"
    ensures DataFromUCID(ctx + "_0000_0000_0001_1111").1 == None
  {
    assert ValidContext(ctx);
    SampleAccepted(ctx, ctx + "_0000_0000_0001_1111");
  }

  /** One letter, eleven letters, a five-digit group or upper-case letters
      are rejected. */
  lemma DecodeRejectsExamples(token: seq<Byte>)
    requires token == "t_0000_0000_0001_1111" || token == "testtoolong_0000_0000_0001_1111"
      || token == "test_00000_0000_0001_1111" || token == "TEST_0000_0000_0001_1111"
    ensures DataFromUCID(token) == (ZeroData, Some(InvalidUCID))
  {
    if token == "test_00000_0000_0001_1111" {
      assert token[|token| - 20] != '_';
    } else if token == "TEST_0000_0000_0001_1111" {
      assert !IsLowerLetter(token[0]);
    }
  }

  /** A record with each field at its lower or at its upper bound encodes. */
  lemma EncodeAcceptsExamples(d: Data)
    requires d == Data("test", 0, 0) || d == Data("test", MaxTimestamp, MaxRandom)
    ensures ToUCID(d).1 == None && |ToUCID(d).0| == 24
  {
    assert ValidContext("test");
  }

  /** One record per error, in the order the checks run, and the
      first-violation rule on a record that breaks every check. */
  lemma EncodeErrorExamples()
    ensures ToUCID(Data("", 0, 0)) == (ErrorUCID, Some(ContextTooShort))
    ensures ToUCID(Data("", -1, -1)) == (ErrorUCID, Some(ContextTooShort))
    ensures ToUCID(Data("testtesttest", 0, 0)) == (ErrorUCID, Some(ContextTooLong))
    ensures ToUCID(Data("testA", 0, 0)) == (ErrorUCID, Some(ContextOnlyLowerCaseLetter))
    ensures ToUCID(Data("test", -1, 0)) == (ErrorUCID, Some(TimestampNegative))
    ensures ToUCID(Data("test", MaxTimestamp + 1, 0)) == (ErrorUCID, Some(TimestampTooHigh))
    ensures ToUCID(Data("test", 0, -1)) == (ErrorUCID, Some(RandomNegative))
    ensures ToUCID(Data("test", 0, MaxRandom + 1)) == (ErrorUCID, Some(RandomTooHigh))
  {
    assert ValidContext("test");
    var a: seq<Byte> := "testA";
    assert !IsLowerLetter(a[4]);
  }
}
