# wgcf command helpers, modelled in Dafny

This project models the helpers of wgcf's command layer (`cmd/shared/shared.go`).
wgcf is a command-line client that registers a device with Cloudflare WARP and
writes a WireGuard profile. Three operations are modelled:

- `ParseReserveBits` (the `Shared.ParseReserveBits` method). It decodes a device's
  base64 client identifier and renders its bytes as a reserved-bits line
  `[ b0, b1, ... ]`. On the way it hex-encodes the bytes and parses them back two
  digits at a time in two loops. The first loop builds three-digit triplets that
  never reach the result. The second loop collects the values.
- `FormatMessage` joins a short and a long error message into one line.
- `SetDeviceName` resolves the name to send, makes one remote rename call, and
  accepts the result only when the returned record carries that name.

The library code these operations rely on is modelled too, in its own modules:

- `Base64`: Go's `base64.StdEncoding.DecodeString` (section 4 of RFC 4648),
  quantum by quantum. This covers its non-strict handling of line breaks and
  trailing bits and its partial output on error. An encoder serves as its partner.
- `Hex`: `hex.EncodeToString` (lower-case Base16, section 8 of RFC 4648) and
  `strconv.ParseInt(s, 16, 64)` on two-character strings.
- `Fmt`: `%d` rendering of non-negative integers, the `", "`-separated list built at
  line 110, and a reader for both.

Two operations are modelled as functions, because they are straight-line
conditionals: `FormatMessage` and `SetDeviceName`. `ParseReserveBits` keeps the
source's two index loops, as methods with loop invariants. Each is proved against a
specification function.

The remote rename call is a function parameter (`update`). The random name drawn
when no name is given is a string parameter (`generated`).

**Malformed identifiers.** On a malformed identifier the line is not always
`[  ]`. Go's decoder returns the bytes it wrote before the error, and
`ParseReserveBits` keeps them and drops the error:

- `Shared.InvalidExample` proves that `"!!!"` gives no bytes and so `[  ]`.
- `Shared.PartialDecodeExample` proves that `"AAAA!!!!"` gives three zero bytes
  and an error, so its line is `[ 0, 0, 0 ]`.
- `Base64.DecodeAfterGroups` states the general rule: whole groups decoded before
  an error are kept.

## Model

| member | source | states |
|---|---|---|
| Base64.AlphabetChar | cmd/shared/shared.go:91 | every 6-bit value has an alphabet character, and decoding that character gives the value back |
| Base64.AlphabetCharOfSextet | cmd/shared/shared.go:91 | the alphabet is a bijection: every alphabet character is the encoding of its own value |
| Base64.DecodeQuantum | cmd/shared/shared.go:91 | one decoding step: a full quantum is four alphabet characters and yields three bytes; a final quantum is exactly four characters, two alphabet characters then `=` in the last place, and yields one byte when the third is `=` and two otherwise; an error yields at most two bytes, and yields bytes only when more text follows a quantum of two alphabet characters ending in `==` (one byte) or three ending in `=` (two bytes) |
| Base64.DecodeQuanta | cmd/shared/shared.go:91 | the decoder writes at most three bytes per four input characters, even on error |
| Base64.StripNewlines | cmd/shared/shared.go:91 | no carriage return or line feed survives, every other character is kept as often as it occurs in the input, and an input without line breaks is left unchanged |
| Base64.StripNewlinesAppend | cmd/shared/shared.go:91 | removing line breaks works piece by piece, so the characters kept stay in their input order |
| Base64.DecodeOkIffWellFormed | cmd/shared/shared.go:91 | the decode error is nil exactly when the input is whole quanta of alphabet characters, with `=` or `==` allowed only at the very end |
| Base64.EncodeLength | cmd/shared/shared.go:91 | the partner encoder writes four characters for every started group of three bytes |
| Base64.EncodeAlphabet | cmd/shared/shared.go:91 | the partner encoder writes only alphabet characters and `=` |
| Base64.EncodeHasNoNewlines | cmd/shared/shared.go:91 | an encoding holds no line breaks, so the decoder skips nothing in it |
| Base64.GroupRoundTrip | cmd/shared/shared.go:91 | splitting three bytes into four sextets and reassembling them gives the three bytes back |
| Base64.DecodeGroup | cmd/shared/shared.go:91 | an input that starts with the encoding of three bytes decodes exactly those bytes in its first step |
| Base64.DecodeTwo | cmd/shared/shared.go:91 | the padded encoding of two bytes decodes to them and ends decoding without error |
| Base64.DecodeOne | cmd/shared/shared.go:91 | the padded encoding of one byte decodes to it and ends decoding without error |
| Base64.DecodeQuantaEncode | cmd/shared/shared.go:91 | the decoding loop gives back every byte sequence from its encoding, with no error |
| Base64.DecodeAfterGroups | cmd/shared/shared.go:91 | after the encoding of whole groups, the decoder keeps those bytes and then returns whatever it decodes from the rest, together with the verdict on the rest |
| Base64.DecodeString | cmd/shared/shared.go:91 | the error is nil exactly when the input, line breaks removed, is well formed; at most three bytes come out per four input characters |
| Base64.DecodeEncode | cmd/shared/shared.go:91 | DecodeString of the encoding of any byte sequence returns that sequence and a nil error |
| Hex.HexDigit | cmd/shared/shared.go:93 | every digit value below 16 has a digit among `0`-`9` and `a`-`f` that reads back as that value |
| Hex.DigitValue | cmd/shared/shared.go:99 | a hexadecimal digit of either case has a value below 16 |
| Hex.Digits | cmd/shared/shared.go:99 | one digit reads as its own value, and one or two digits read as a value below 16 or 256 |
| Hex.ParseInt16 | cmd/shared/shared.go:99 | on at most two characters the result lies in -15..255, and two hexadecimal digits give 16 times the first plus the second |
| Hex.EncodeToString | cmd/shared/shared.go:93 | the hex string is twice as long as the bytes, and positions 2k and 2k+1 hold the high and low digit of byte k |
| Hex.EncodePairsParse | cmd/shared/shared.go:93-106 | the hex string has two characters per byte, and every pair the loops slice out parses back as its byte |
| Hex.PairRoundTrip | cmd/shared/shared.go:97-99 | every two-character slice at an even offset of the hex string exists, and ParseInt with base 16 turns it back into the byte it encodes |
| Fmt.Decimal | cmd/shared/shared.go:110 | `%d` of a non-negative integer is a non-empty run of digits with no leading zero |
| Fmt.DecimalRoundTrip | cmd/shared/shared.go:110 | reading the numeral of n gives n back |
| Fmt.SpanDigits | cmd/shared/shared.go:110 | the run of digits at the start of a string is all digits and is followed by a non-digit or the end |
| Fmt.SpanOfNumeral | cmd/shared/shared.go:110 | a numeral followed by a non-digit is read as exactly that numeral |
| Fmt.JoinDecimals | cmd/shared/shared.go:110 | the joined list is empty exactly when there are no integers, and otherwise begins and ends with a digit |
| Fmt.ReadJoinedList | cmd/shared/shared.go:110 | reading the `", "`-joined numerals of a non-empty list gives the list back, in order |
| Shared.ReplaceNewlines | cmd/shared/shared.go:25 | the length is kept, every line feed becomes a space, and every other character stays where it was |
| Shared.FlattenLong | cmd/shared/shared.go:21-26 | at most one leading line feed is dropped, the rest holds no line feed, and every other character keeps its place after the dropped one |
| Shared.FormatMessage | cmd/shared/shared.go:27-33 | both parts present gives short + ". " + flattened long; only short gives short; otherwise the flattened long |
| Shared.FormatMessageEmpty | cmd/shared/shared.go:20-34 | the message is empty exactly when the short message is empty and the long one is empty or a lone line feed |
| Shared.FormatMessageLength | cmd/shared/shared.go:20-34 | the message starts with the short message and its length is the short length plus the flattened long length, plus 2 for the separator when both are present |
| Shared.FormatMessageNewlineFree | cmd/shared/shared.go:20-34 | a short message without line feeds gives a one-line message, whatever the long message holds |
| Shared.ConcatNewlineFree | cmd/shared/shared.go:28 | joining two one-line strings gives a one-line string |
| Shared.FormatMessageLoneNewline | cmd/shared/shared.go:20-34 | a long message that is only a line feed leaves the short message unchanged |
| Shared.ErrorMessage | cmd/shared/shared.go:82-85 | a transport error's text is the remote call's own message; the confirmation error reads "could not update device name" |
| Shared.ResolveName | cmd/shared/shared.go:77-79 | a non-empty name is sent unchanged; an empty one is replaced by the generated name |
| Shared.Verify | cmd/shared/shared.go:81-87 | a transport error is passed on; success holds exactly when the returned record's name is present and equals the name sent, and it returns that record; any other reply is "not confirmed" |
| Shared.SetDeviceName | cmd/shared/shared.go:76-88 | one remote call is made, with the resolved name, and its reply alone decides the outcome |
| Shared.NeverConfirmedUnlessEchoed | cmd/shared/shared.go:84-87 | a rename reported successful returns the remote's own record, and that record's name is the one sent (the one asked for, when one was given) |
| Shared.EchoConfirms | cmd/shared/shared.go:80-87 | against a remote that stores the name it is sent, every rename succeeds with the stored record |
| Shared.MismatchRejected | cmd/shared/shared.go:84-86 | a returned record whose name is nil or differs from the one sent ends in the error "could not update device name" |
| Shared.TransportErrorPassedOn | cmd/shared/shared.go:81-83 | the remote call's error is returned unchanged, and no record is returned |
| Shared.Triplet | cmd/shared/shared.go:100 | the triplet of a byte is three digits, the hundreds digit is at most 2, and the digits read as the byte's value |
| Shared.ReservedLine | cmd/shared/shared.go:110 | the line starts with "[ " and ends with " ]\n", and it is "[  ]\n" (two spaces) exactly when there are no integers |
| Shared.ReservedLineRoundTrip | cmd/shared/shared.go:110 | the line lists exactly the integers it was built from, so the element count equals the byte count |
| Shared.TripletColumns | cmd/shared/shared.go:96-101 | the first loop makes one triplet per decoded byte, in order |
| Shared.ReservedValues | cmd/shared/shared.go:103-108 | the second loop collects exactly the decoded bytes, element by element, each in 0..255 |
| Shared.ParseReserveBits | cmd/shared/shared.go:90-111 | the result is "[ " + the decoded bytes in decimal joined by ", " + " ]\n", whatever the decode error; the triplets do not affect it; reading the line back gives the decoded bytes |
| Shared.ReserveBitsOfEncoding | cmd/shared/shared.go:90-111 | the identifier that encodes any byte sequence gives the line listing that sequence |
| Shared.EncodeThreeZeroBytes | cmd/shared/shared.go:91 | "AAAA" is the encoding of three zero bytes |
| Shared.ZeroGroup | cmd/shared/shared.go:91 | three zero bytes are written as four 'A' characters |
| Shared.EncodeZeroBytes | cmd/shared/shared.go:91 | three zero bytes form one whole group, so their encoding has no padding |
| Shared.ThreeZeroBytesExample | cmd/shared/shared.go:91 | "AAAA" decodes to three zero bytes without error |
| Shared.ThreeZeroBytesLine | cmd/shared/shared.go:110 | three zero bytes are listed as "[ 0, 0, 0 ]" |
| Shared.ThreeZeroBytesReserveBits | cmd/shared/shared.go:90-111 | the identifier "AAAA" gives the line "[ 0, 0, 0 ]" |
| Shared.InvalidExample | cmd/shared/shared.go:90-111 | "!!!" decodes to no bytes with an error, and no bytes give the line "[  ]" with two spaces |
| Shared.ZeroGroupThenGarbage | cmd/shared/shared.go:91 | a whole group followed by four non-alphabet characters decodes to the group's bytes and an error |
| Shared.PartialExampleHasNoNewline | cmd/shared/shared.go:91 | "AAAA!!!!" holds no line breaks |
| Shared.PartialDecodeExample | cmd/shared/shared.go:91 | "AAAA!!!!" decodes to three zero bytes and an error: malformed input does not always give no bytes |

## Left out

- Strings are sequences of characters, while Go strings are bytes. The results do not change, since every character the decoder and the formatter act on is ASCII and a non-ASCII character is invalid base64 either way. But the lengths in `Shared.FormatMessageLength` and the three-bytes-per-four-characters bounds of `Base64.DecodeQuanta` and `Base64.DecodeString` count characters, not the bytes Go's `len` counts.

- `F32ToHumanReadable` (lines 51-59): it is float32 arithmetic with `math.Pow` and `%.2f` formatting, and floating point is not modelled.
- `PrintDeviceData` (lines 61-73): it only writes to the log.
- `IsConfigValidAccount` and `CreateContext` (lines 36-49): they only read the global configuration store. `Shared.Context` stands for the context they build.
- `cloudflare.UpdateSourceBoundDeviceName`: a network call. It is the parameter `update`, and its behaviour is not modelled.
- `util.RandomHexString(3)`: random, and its source is not part of this model. It is the parameter `generated`, and nothing is claimed about its length.
- Shared.SetDeviceName: a remote reply with neither an error nor a device would make the source dereference nil. The reply type cannot express that reply.
- Base64.DecodeString: models which bytes are returned and whether the error is nil, but not the offset that Go's error reports, which the source discards.
- Hex.ParseInt16: models `strconv.ParseInt(s, 16, 64)` only on strings of at most two characters, the only ones the loops pass it. Longer strings would need 64-bit overflow handling.
- Shared.ReservedLine: models the `fmt.Sprint` / `strings.Fields` / `strings.Join` / `strings.Trim` / `fmt.Sprintln` chain at line 110 by its net effect on a list of integers in 0..255, not call by call.
- Shared.TripletColumns: takes the decoded bytes as a ghost argument so that it can state what each triplet is. The source's loop sees only the hex string.
