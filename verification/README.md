# nats-server `server/util.go`: digit parsers and the string-list codec

A Dafny model of two pure pieces of the NATS server's `server/util.go`:

- **`parseSize` / `parseInt64`**, the fast decimal parsers used on protocol
  fields. They return `-1` for an empty input or for any byte outside ASCII
  `'0'..'9'`. Otherwise they fold the digits left to right with
  `n = n*10 + digit`. The arithmetic is Go's `int` (32 or 64 bits, by platform)
  and `int64`, and it wraps silently. The model writes that wrap-around out
  (`MachineInt.WrapSigned`).
- **`serializeListOfStrings` / `deserializeListOfStrings`**, the codec for
  lists of names exchanged between servers. A block is one mode byte
  (`0` raw, `1` gzip) followed by the JSON of the record `{"strings": [...]}`.
  When the JSON is longer than the caller's threshold it is gzip-compressed.
  The decoder rejects blocks of length ≤ 1 and unknown mode bytes.
  JSON and gzip are Go library code. They are passed to the codec as a
  `ListCodec.Libraries` value of four functions. The only assumption made
  about them is `ListCodec.Lawful`: decoding a successful encoding gives the
  input back, and a successful encoding is never empty.

Files:

- `wrappers.dfy`: `Option`, `Result`, `byte`.
- `decimal.dfy`: ASCII digits, the value of a digit string (`DecValue`), and its bounds.
- `machine_int.dfy`: two's-complement wrap-around.
- `digit_parsers.dfy`: the two parsers as written, plus the corrected versions.
- `list_codec.dfy`: the codec.

## Model

| member | source | states |
|---|---|---|
| `DigitParsers.ParseSize` | server/util.go:39-64 | empty input gives -1; any byte outside 48..57 gives -1; on a non-empty all-digit input the result is the left-to-right decimal value wrapped to the platform `int` width (32 or 64); at most 9 digits give the exact, non-negative value |
| `DigitParsers.ParseInt64` | server/util.go:68-79 | the same contract as `parseSize`, at the fixed width of `int64`: empty gives -1, a non-digit gives -1, all digits give the wrapped decimal value, and at most 18 digits give the exact value |
| `DigitParsers.ParsersAgree` | server/util.go:39-79 | on a 64-bit platform `parseSize` and `parseInt64` return the same value for every input |
| `DigitParsers.DigitsCanWrapToWrongValue` | server/util.go:57-63 | for every width and every k the width holds, the all-digit spelling of 2^bits + k folds to k, a value that looks valid but is not the input's value |
| `DigitParsers.WrapExample64` | server/util.go:76-76 | in 64 bits, the digits `18446744073709551621` fold to 5 |
| `DigitParsers.DigitsCanWrapToSentinel` | server/util.go:57-57 | for every width, the digits of 2^bits - 1 are all digits yet fold to the error sentinel -1, and the digits of 2^(bits-1) fold to a negative number |
| `DigitParsers.ParseDecimalChecked` | server/util.go:39-64 | the fold with an overflow check before every step: the result is -1 or the exact decimal value, and it is non-negative exactly when the input is a non-empty digit string whose value is below 2^(bits-1) |
| `DigitParsers.ParseSizeChecked` | server/util.go:37-64 | corrected `parseSize`: -1 or the exact value; non-negative exactly for non-empty digit strings whose value fits the platform `int`; every string of 1..9 digits is parsed exactly on either width |
| `DigitParsers.ParseInt64Checked` | server/util.go:66-79 | corrected `parseInt64`: -1 or the exact value; non-negative exactly for non-empty digit strings whose value is below 2^63; every string of 1..18 digits is parsed exactly |
| `DigitParsers.ShortDigitsFit` | server/util.go:57-63 | a digit string no longer than maxDigits has a value below 2^(bits-1) when 10^maxDigits does not exceed it |
| `Decimal.DecValue` | server/util.go:57-63 | the exact value of the fold `n*10 + digit` over an all-digit string, which for n digits is below 10^n |
| `Decimal.DecValuePrefix` | server/util.go:57-63 | a prefix of a digit string never folds to more than the whole string, so once the fold exceeds a bound it stays above it |
| `Decimal.DecValueIsPositional` | server/util.go:57-63 | the fold `n*10 + digit` agrees with the positional sum of the digits weighted by powers of ten |
| `Decimal.DecValueAppend` | server/util.go:57-63 | folding a concatenation shifts the left part's value by ten to the length of the right part |
| `Decimal.LeadingZeroIgnored` | server/util.go:57-63 | a leading '0' does not change the parsed value |
| `Decimal.DecValueOfToDigits` | server/util.go:57-63 | every natural number is the value of some digit string (its decimal spelling), so the fold reaches every value |
| `MachineInt.WrapSigned` | server/util.go:57-57 | Go's silent two's-complement truncation: the result always lies in the signed range of the width |
| `MachineInt.WrapSignedShift` | server/util.go:57-57 | the wrapped value differs from the exact one by a whole multiple of 2^bits, which with the range pins the truncation down |
| `MachineInt.WrapSignedRange` | server/util.go:57-57 | a value already in the signed range of the width is unchanged by wrapping |
| `MachineInt.WrapSignedStep` | server/util.go:76-76 | one wrapped step `n*10 + d` on the wrapped accumulator equals the wrapped exact step, so wrapping per step equals wrapping once at the end |
| `ListCodec.ModeTag` | server/util.go:130-135 | the mode byte written is 0 for raw and 1 for gzip, and nothing else |
| `ListCodec.ModeOfTag` | server/util.go:158-174 | a leading byte names a mode exactly when it is 0 or 1, and that mode's tag is the byte |
| `ListCodec.ModeTagRoundTrip` | server/util.go:130-162 | the byte the encoder writes for a mode is read back by the decoder as that same mode |
| `ListCodec.ChooseMode` | server/util.go:128-128 | raw mode exactly when the JSON length is at most the threshold, gzip exactly when it is greater |
| `ListCodec.ChooseModeThreshold` | server/util.go:128-128 | raising the threshold never turns a raw block into a compressed one; it also restates, as the boundary case, that JSON exactly as long as the threshold stays raw and one byte longer is compressed |
| `ListCodec.Frame` | server/util.go:128-147 | the block's mode byte is the chosen mode; raw blocks are `[0]` followed by the JSON, of length 1 + its length; gzip blocks carry the compressor's output and fail with a compression error exactly when the compressor fails |
| `ListCodec.Unframe` | server/util.go:150-174 | length ≤ 1 is corrupt data; a mode byte other than 0 or 1 is an unknown encoding naming that byte; raw mode yields the bytes after the mode byte; gzip mode yields the decompressor's output or a decompression error |
| `ListCodec.Serialize` | server/util.go:118-148 | a JSON failure is a serialization error and a compression failure is a compression error; encoding succeeds exactly when JSON succeeds and, in gzip mode, compression succeeds; on success the mode byte is 0 exactly when the JSON length is at most the threshold and 1 exactly when it is greater, raw output is `[0]` + JSON, and gzip output carries the compressed JSON |
| `ListCodec.Deserialize` | server/util.go:150-180 | length ≤ 1 gives corrupt data; an unknown mode byte gives an unknown-encoding error naming it; a gzip failure gives a decompression error; every framing error is passed on unchanged; a good frame whose JSON decodes returns exactly the decoded list, and one whose JSON does not gives a deserialization error |
| `ListCodec.FrameRoundTrip` | server/util.go:128-174 | for lawful gzip and non-empty JSON, unframing a frame gives the JSON back under every threshold |
| `ListCodec.RawUnframeIsFramed` | server/util.go:130-161 | a block that unframes in raw mode is exactly the frame of its payload under any threshold the payload does not exceed |
| `ListCodec.EncodedBlocksHavePayload` | server/util.go:124-153 | with lawful libraries every encoded block is at least two bytes long, so the decoder's length check never rejects it |
| `ListCodec.RoundTrip` | server/util.go:118-180 | with lawful libraries, decoding a successfully encoded list returns that same list, for every threshold |
| `ListCodec.SerializeInjective` | server/util.go:118-180 | with lawful libraries, two lists with the same successful encoding, even under different thresholds, are equal |
| `ListCodec.SerializeSucceeds` | server/util.go:124-147 | a corollary of the success condition in `Serialize`'s contract, stated as a lemma for callers: encoding succeeds whenever JSON encoding succeeds and, in gzip mode, compression succeeds |

## Left out

- `secondsToDuration` (server/util.go:82-85): floating-point scaling into `time.Duration`.
- `parseHostPort` (server/util.go:89-110): its behaviour lies in `net.SplitHostPort` and `strconv.Atoi`, which are not part of this model.
- `urlsAreEqual` (server/util.go:114-116): a call to `reflect.DeepEqual`, with nothing of its own to state.
- JSON and gzip internals (RFC 8259, RFC 1952): abstracted as the four functions of `ListCodec.Libraries`. Each library error path (server/util.go:124-126, 139-144, 163-171, 176-178) is a `None` from that function, mapped to the matching error kind. Go returns the library's own error value and message; the model keeps only the error kind.
- `ListCodec.Lawful`: this is an assumption about the libraries, not a proof. In Go, `json.Marshal` replaces invalid UTF-8 with U+FFFD, so the JSON round trip holds only for valid UTF-8 strings. The model's strings are sequences of Unicode characters, where the round trip holds.
- The nil/empty slice distinction: Go marshals a nil list as `null` and an empty one as `[]`. Both are the empty sequence here.
- A JSON payload that parses but lacks the `strings` field decodes in Go to an empty list. That is the behaviour of `unmarshal`, not of the codec.
- `defer gr.Close()` (server/util.go:167): resource release, not behaviour.
- `DigitParsers.ParsersAgree`: agreement is stated for a 64-bit `int` only; on a 32-bit platform the two parsers differ once a value leaves the 32-bit range.

## Findings

| source | as written | input that shows it | evidently intended | confidence | as-written member | corrected member |
|---|---|---|---|---|---|---|
| server/util.go:57 | `parseSize` folds `n*10 + digit` in Go `int`, which wraps silently | the 20 digits `18446744073709551621` (2^64 + 5) return 5, a wrong value that looks valid, on a 64-bit `int` (on a 32-bit `int`, `4294967301` returns 5); `9223372036854775808` (2^63) returns a negative number | per the comment at lines 37-38, a decimal input is either rejected with -1 or parsed to its positive value | medium, not executed | `DigitParsers.DigitsCanWrapToWrongValue`, `DigitParsers.DigitsCanWrapToSentinel` | `DigitParsers.ParseSizeChecked` |
| server/util.go:76 | `parseInt64` folds in `int64`, which wraps silently | the 20 digits `18446744073709551621` (2^64 + 5) return 5; `9223372036854775808` (2^63) returns a negative number | per the comment at lines 66-67, a decimal input is either rejected with -1 or parsed to its positive value | medium, not executed | `DigitParsers.WrapExample64`, `DigitParsers.DigitsCanWrapToWrongValue`, `DigitParsers.DigitsCanWrapToSentinel` | `DigitParsers.ParseInt64Checked` |
