# UCID codec in Dafny

A model of the Go package `ucid` (`ucid.go`): a Unique Context Identifier is a
token `<context>_<hhhh>_<hhhh>_<hhhh>_<hhhh>` made of a context tag of 2 to 8
lower-case ASCII letters and sixteen lower-case hexadecimal digits. Read as one
stream, the first eleven digits are a 44-bit millisecond timestamp and the last
five a 20-bit random value; the decoder's pattern cuts the third group 3 + 1 to
get this split.

The project has three modules:

- `Hex` (`hex.dfy`) covers the digit classes `[a-z]` and `[0-9a-f]`, fixed-width
  rendering (`RenderHex`, the `%011x` / `%05x` verbs) and big-endian reading
  (`ParseHex`). It proves the two are inverse bijections at a fixed width. It
  also models `strconv.ParseInt` in base 16 with its syntax and range errors.
- `Ucid` (`ucid.dfy`) has the constants, the `Data` record with Go's `int64` /
  `int32` field widths, and the error values. It models the decoder
  `DataFromUCID`, with the pattern restated as the predicate `MatchesPattern`,
  and the encoder `ToUCID`: seven checks in a fixed order, then rendering and
  joining.
- `Generator` (`generator.dfy`) models `NewData`, `New` and `MustNew`. The clock
  and the random source become the parameters `now` and `rnd`. Go's truncated
  `%` is written out as `Rem`.

Strings are modelled as sequences of bytes (`Byte`, a `char` below 256), because
Go's `len` counts bytes. The rune loop of `ToUCID` checks the context against
`a`..`z`, and so does the pattern. No byte of a multi-byte character lies in
that range, so checking byte by byte accepts and rejects the same strings as
checking rune by rune.

The code and the documented format disagree in two places. The model follows
the code in both:

- The format documents `_` between the groups, and the decoder requires it. The
  encoder joins with a space (ucid.go:110). So no token that `ToUCID` produces
  can be decoded (`ToUCIDNotDecodable`). The round trip holds only at the level
  of the digit stream (`HexPartRoundTrip`, `ToUCIDShape`). `ToCanonicalUCID` is
  the encoder with `_`; it has the full round trip `decode(encode(d)) == d`.
  `New` and `MustNew` keep the encoder as written.
- One reading of the sample token `test_0000_0000_0001_1111` gives timestamp 1.
  That is not what the code computes. The `1` that ends the third group is digit
  12 of the stream, so it belongs to the random value. The token decodes to
  timestamp 0 and random value 0x11111 (`DecodeSample`).

The error sentinel `err_0000_0000_0000_0000` is itself a well-formed token. It
decodes to `Data{"err", 0, 0}` and is that record's canonical encoding. Only the
space separator keeps the as-written encoder from ever returning it on success.

## Model

| member | source | states |
|---|---|---|
| Hex.ParseHex | ucid.go:59-63 | the value of a digit string of width n is below 16^n |
| Hex.RenderHex | ucid.go:103 | rendering gives exactly `width` lower-case hex digits |
| Hex.ParseRender | ucid.go:103 | reading a rendering back gives the value it renders |
| Hex.RenderParse | ucid.go:103 | every lower-case digit string of width n is the n-digit rendering of its value, so rendering and reading are inverse bijections |
| Hex.ParseHexInjective | ucid.go:59-63 | two digit strings of equal width and equal value are equal |
| Hex.ParseInt | ucid.go:59-66 | succeeds exactly on a nonempty digit string whose value fits a signed integer of `bitSize` bits; the value is what the digits denote; a syntax error exactly on empty or non-digit input |
| Ucid.FieldWidths | ucid.go:16-17 | MaxTimestamp + 1 = 16^11 and MaxRandom + 1 = 16^5, so the fields are exactly 11 and 5 digits wide; also the signed 64- and 32-bit limits |
| Ucid.JoinParts | ucid.go:104-110 | the join of a context and sixteen digits has the context as its prefix, the separator at the four group positions, and the sixteen digits in between |
| Ucid.StreamSplit | ucid.go:56-57 | the pattern's groups 2, 3 and 4 are the first eleven digits of the stream, and groups 5 and 6 are the last five |
| Ucid.PatternFields | ucid.go:59-66 | on a matching token both `ParseInt` calls succeed and give values in [0, MaxTimestamp] and [0, MaxRandom], so the two error returns are unreachable |
| Ucid.DataFromUCID | ucid.go:49-73 | succeeds exactly when the pattern matches; every failure is `ErrInvalidUCID` with the zero `Data`; every success is a valid record |
| Ucid.JoinMatches | ucid.go:36 | a valid context joined with `_` to any sixteen lower-case hex digits matches the pattern |
| Ucid.DecodeFields | ucid.go:55-72 | a matching token decodes to its letter prefix, the value of stream digits 1-11 and the value of stream digits 12-16 |
| Ucid.PatternStream | ucid.go:36 | a matching token has `_` at the four separator positions and sixteen hex digits between them |
| Ucid.DecodeJoin | ucid.go:49-73 | every string of the grammar's shape is accepted, and it decodes to its context, digits 1-11 and digits 12-16 |
| Ucid.DecodeAccepted | ucid.go:36-73 | every accepted token is the `_`-join of its decoded context and the rendering of its decoded fields; with DecodeJoin, the accepted strings are exactly the grammar's, and distinct tokens decode to distinct records |
| Ucid.HexPart | ucid.go:103 | the digits of a valid record are sixteen lower-case hex digits |
| Ucid.HexPartOnto | ucid.go:103 | every sixteen-digit string is the rendering of a valid timestamp and random value, namely the values of its first eleven and last five digits |
| Ucid.HexPartReads | ucid.go:56-63 | the first eleven rendered digits read back as the timestamp, the last five as the random value |
| Ucid.HexPartRoundTrip | ucid.go:56-63 | reading the rendered digits as the decoder does (the first eleven and the last five, each through `ParseInt`) gives back the timestamp and the random value |
| Ucid.ToUCID | ucid.go:76-100 | succeeds exactly on valid records; otherwise it returns `ErrorUCID` and the first failing check, in the order: too short, too long, letters, timestamp negative, timestamp too high, random negative, random too high |
| Ucid.ToUCIDShape | ucid.go:103-112 | a successful encoding is the context followed by four space-prefixed groups of four digits, with length len(context) + 20; its digit stream reads back as the timestamp and the random value |
| Ucid.ToUCIDNotDecodable | ucid.go:104-110 | as written, every successful encoding is rejected by the decoder |
| Ucid.ToCanonicalUCID | ucid.go:76-113 | the encoder joined with `_`: the same errors and sentinel as ToUCID, and every token it produces decodes back to the record it came from |
| Ucid.SentinelDecodes | ucid.go:18 | the sentinel decodes to `Data{"err", 0, 0}` without error |
| Ucid.SentinelIsCanonical | ucid.go:18 | the sentinel is the canonical encoding of `Data{"err", 0, 0}` |
| Ucid.EncodedIsNotSentinel | ucid.go:104-112 | a successful `ToUCID` never returns the sentinel |
| Ucid.DecodeSample | uid_test.go:18-21 | `test_0000_0000_0001_1111` decodes to context `test`, timestamp 0 and random 0x11111 |
| Ucid.DecodeAcceptsExamples | uid_test.go:23-31 | contexts of two and of eight letters are accepted |
| Ucid.DecodeRejectsExamples | uid_test.go:33-46 | a one-letter context, an eleven-letter context, a five-digit group and an upper-case context are all rejected with `ErrInvalidUCID` |
| Ucid.EncodeAcceptsExamples | uid_test.go:49-58 | the test record `{"test", 0, 0}` and the record with both fields at their maxima encode, to 24 bytes |
| Ucid.EncodeErrorExamples | uid_test.go:60-129 | each failing test record gets its error and `ErrorUCID`; a record that breaks every check reports "too short" |
| Generator.Rem | ucid.go:122-123 | Go's `%`: the remainder lies strictly between -m and m, has the dividend's sign, and differs from the dividend by a multiple of m |
| Generator.RemUnique | ucid.go:122-123 | those properties determine the remainder uniquely |
| Generator.RemIsTruncated | ucid.go:122-123 | on a negative dividend Go's remainder differs from the Euclidean one (-1 rem 16 = -1, while -1 mod 16 = 15) |
| Generator.NewData | ucid.go:119-125 | the context is kept; the timestamp and the random value are the clock and random readings reduced with Go's remainder |
| Generator.NewDataRanges | ucid.go:119-125 | the fields never exceed their maxima; they are in range for non-negative readings; a reading already in range is kept unchanged |
| Generator.NegativeRemIsZero | ucid.go:122-123 | for a negative reading, the reduced value is non-negative exactly when the modulus divides the reading |
| Generator.New | ucid.go:131-133 | fails exactly when the context is invalid or a negative reading leaves a negative remainder; never fails with "too high"; a failure returns the sentinel |
| Generator.NewSucceeds | ucid.go:131-133 | for a valid context and non-negative readings, `New` succeeds; the result starts with the context, and its digit stream reads back as the reduced readings |
| Generator.MustNew | ucid.go:143-149 | when `New` does not fail, the result is a token of length len(context) + 20 that starts with the context and a space, and is not the sentinel |
| Generator.MustNewTestNeverPanics | uid_test.go:10-15 | `MustNew("test")` never panics for a non-negative clock and random source |

## Findings

| source | as written | input that shows it | evidently intended | confidence | as-written member | corrected member |
|---|---|---|---|---|---|---|
| ucid.go:104-110 | the four groups are joined with a space | `Data{"test", 0, 0}` encodes to `test 0000 0000 0000 0000`, which `DataFromUCID` rejects with `ErrInvalidUCID` | joined with `_`, the separator the decoder's pattern requires, so that decoding an encoded record gives it back | high; not executed | Ucid.ToUCIDNotDecodable | Ucid.ToCanonicalUCID |

## Left out

- The wall clock `time.Now().UnixMilli()` is I/O. It is the parameter `now: Int64`.
- The process-wide hook `RandomGenerator` (default `rand.Int31`) is foreign code
  and mutable global state. Its reading is the parameter `rnd: Int32`. Any
  `int32` is allowed, because a replaced hook may return negative values.
- The regular-expression engine is not modelled. The pattern is restated as the
  predicate `MatchesPattern`.
- `fmt.Sprintf` and `strings.Join` are modelled only for the fixed widths and
  the five-part join that the package uses.
- Hex.ParseInt: models `strconv.ParseInt` only for unsigned lower-case digit
  strings. Go also accepts a sign and upper-case digits, but the decoder never
  passes such input, because the pattern has checked it first.
- The `panic` of `MustNew` is not modelled as an abort. The condition under
  which it does not panic becomes `MustNew`'s precondition.
- The error message strings and `errors.Is` identity are left out. Errors are
  the constructors of the `Error` datatype.
- The conversion `int32(random)` in the decoder is not written out. The value
  is below 2^20, so the conversion changes nothing.
- The million-iteration loop in the tests measures speed. It states nothing
  beyond `MustNewTestNeverPanics`.
