/**
  Go's `hex.EncodeToString` (lower-case Base16, section 8 of RFC 4648) and
  `strconv.ParseInt(s, 16, 64)` on the two-character slices the reserved-bits
  loop hands it.
*/
module Hex {
  import opened Types

  /** The lower-case hexadecimal digit for a value below 16. */
  function HexDigit(d: int): (c: char)
    requires 0 <= d < 16
    ensures '0' <= c <= '9' || 'a' <= c <= 'f'
    ensures DigitValue(c) == Some(d)
  {
    if d < 10 then ('0' as int + d) as char else ('a' as int + (d - 10)) as char
  }

  /** The value of a hexadecimal digit of either case, as strconv reads it. */
  function DigitValue(c: char): (v: Option<nat>)
    ensures v.Some? ==> v.value < 16
  {
    if '0' <= c <= '9' then Some(c as int - '0' as int)
    else if 'a' <= c <= 'f' then Some(c as int - 'a' as int + 10)
    else if 'A' <= c <= 'F' then Some(c as int - 'A' as int + 10)
    else None
  }

  /** `hex.EncodeToString`: each byte becomes its high and then its low digit. */
  function EncodeToString(b: seq<byte>): (h: string)
    ensures |h| == 2 * |b|
    ensures forall k :: 0 <= k < |b| ==>
              h[2 * k] == HexDigit(b[k] / 16) && h[2 * k + 1] == HexDigit(b[k] % 16)
  {
    if b == [] then ""
    else [HexDigit(b[0] / 16), HexDigit(b[0] % 16)] + EncodeToString(b[1..])
  }

  /** The value of a non-empty run of hexadecimal digits, or None if `s` is empty or holds another character. */
  function Digits(s: string): (r: Option<nat>)
    ensures |s| == 1 ==> r == DigitValue(s[0])
    ensures r.Some? && |s| == 1 ==> r.value < 16
    ensures r.Some? && |s| == 2 ==> r.value < 256
    decreases |s|
  {
    if s == [] then None
    else
      match DigitValue(s[|s| - 1])
      case None => None
      case Some(d) =>
        if |s| == 1 then Some(d)
        else
          match Digits(s[..|s| - 1])
          case None => None
          case Some(m) => Some(16 * m + d)
  }

  /**
    `strconv.ParseInt(s, 16, 64)` with its error dropped, for strings of at most
    two characters (which cannot overflow): an optional sign, then one or more
    hexadecimal digits; a syntax error yields 0.
  */
  function ParseInt16(s: string): (r: int)
    requires |s| <= 2
    ensures -15 <= r <= 255
    ensures |s| == 2 && DigitValue(s[0]).Some? && DigitValue(s[1]).Some? ==>
              r == 16 * DigitValue(s[0]).value + DigitValue(s[1]).value
  {
    if s != [] && (s[0] == '+' || s[0] == '-') then
      match Digits(s[1..])
      case None => 0
      case Some(m) => if s[0] == '-' then -(m as int) else m
    else
      match Digits(s)
      case None => 0
      case Some(m) => m
  }

  /** `h` holds two characters per byte of `b`, and the k-th pair parses as the k-th byte. */
  predicate PairsParseTo(h: string, b: seq<byte>) {
    && |h| == 2 * |b|
    && forall k :: 0 <= k < |b| ==> ParseInt16(h[2 * k..2 * k + 2]) == b[k]
  }

  /** Every pair of digits of an encoding parses back as its byte. */
  lemma EncodePairsParse(b: seq<byte>)
    ensures PairsParseTo(EncodeToString(b), b)
  {
    forall k | 0 <= k < |b| ensures ParseInt16(EncodeToString(b)[2 * k..2 * k + 2]) == b[k] {
      PairRoundTrip(b, k);
    }
  }

  /** Parsing the k-th pair of digits of an encoding gives back the k-th byte. */
  lemma PairRoundTrip(b: seq<byte>, k: nat)
    requires k < |b|
    ensures 2 * k + 2 <= |EncodeToString(b)|
    ensures ParseInt16(EncodeToString(b)[2 * k..2 * k + 2]) == b[k]
  {
    var h := EncodeToString(b);
    var p := h[2 * k..2 * k + 2];
    var hi, lo := b[k] / 16, b[k] % 16;
    assert p == [HexDigit(hi), HexDigit(lo)];
    assert Digits(p[..1]) == Some(hi) by {
      assert p[..1] == [HexDigit(hi)];
    }
    assert Digits(p) == Some(16 * hi + lo);
  }
}
