/**
  Go's `fmt` rendering of non-negative integers with `%d` (and `fmt.Sprint`),
  the comma-separated list the reserved-bits line is built from, and a reader
  for both that serves as their partner.
*/
module Fmt {
  import opened Types

  predicate IsDigit(c: char) {
    '0' <= c <= '9'
  }

  predicate AllDigits(s: string) {
    forall i :: 0 <= i < |s| ==> IsDigit(s[i])
  }

  function DigitChar(d: int): (c: char)
    requires 0 <= d < 10
    ensures IsDigit(c)
  {
    ('0' as int + d) as char
  }

  function DigitOf(c: char): int
    requires IsDigit(c)
  {
    c as int - '0' as int
  }

  /** The value of a string of decimal digits (0 for the empty string). */
  function DecimalValue(s: string): nat
    requires AllDigits(s)
    decreases |s|
  {
    if s == [] then 0 else DecimalValue(s[..|s| - 1]) * 10 + DigitOf(s[|s| - 1])
  }

  /** The numeral `%d` prints for `n`: at least one digit and no leading zero. */
  function Decimal(n: nat): (s: string)
    ensures s != [] && AllDigits(s)
    ensures s[0] == '0' ==> s == "0"
  {
    if n < 10 then [DigitChar(n)] else Decimal(n / 10) + [DigitChar(n % 10)]
  }

  /** Reading the numeral of `n` back gives `n`. */
  lemma {:induction false} DecimalRoundTrip(n: nat)
    ensures DecimalValue(Decimal(n)) == n
  {
    if n >= 10 {
      DecimalRoundTrip(n / 10);
      var s := Decimal(n);
      assert s[..|s| - 1] == Decimal(n / 10);
    }
  }

  /** The numerals of `vals`, separated by ", " (what Join(Fields(Sprint(vals)), ", ") leaves inside the brackets). */
  function JoinDecimals(vals: seq<nat>): (r: string)
    ensures r == "" <==> vals == []
    ensures r != "" ==> IsDigit(r[0]) && IsDigit(r[|r| - 1])
    decreases |vals|
  {
    if vals == [] then ""
    else if |vals| == 1 then Decimal(vals[0])
    else Decimal(vals[0]) + ", " + JoinDecimals(vals[1..])
  }

  /** The length of the run of digits that starts `s`. */
  function SpanDigits(s: string): (k: nat)
    ensures k <= |s| && AllDigits(s[..k])
    ensures k < |s| ==> !IsDigit(s[k])
    decreases |s|
  {
    if s == [] || !IsDigit(s[0]) then 0
    else
      var k := 1 + SpanDigits(s[1..]);
      assert forall i :: 1 <= i < k ==> s[..k][i] == s[1..][..k - 1][i - 1];
      k
  }

  /** The digit run of a numeral followed by anything that is not a digit is the numeral. */
  lemma SpanOfNumeral(d: string, x: string)
    requires AllDigits(d)
    requires x == [] || !IsDigit(x[0])
    ensures SpanDigits(d + x) == |d|
  {
    var s, k := d + x, SpanDigits(d + x);
    assert forall i :: 0 <= i < k ==> s[..k][i] == s[i];
    assert |d| < |s| ==> s[|d|] == x[0];
  }

  /** Reads a non-empty list of numerals separated by ", "; None if `s` is not one. */
  function ReadList(s: string): Option<seq<nat>>
    decreases |s|
  {
    var k := SpanDigits(s);
    if k == 0 then None
    else
      var v := DecimalValue(s[..k]);
      if k == |s| then Some([v])
      else if k + 2 <= |s| && s[k] == ',' && s[k + 1] == ' ' then
        match ReadList(s[k + 2..])
        case None => None
        case Some(vs) => Some([v] + vs)
      else None
  }

  /** Reading a joined list of numerals gives back the list. */
  lemma {:induction false} ReadJoinedList(vals: seq<nat>)
    requires vals != []
    ensures ReadList(JoinDecimals(vals)) == Some(vals)
    decreases |vals|
  {
    var d := Decimal(vals[0]);
    DecimalRoundTrip(vals[0]);
    if |vals| == 1 {
      SpanOfNumeral(d, "");
      assert d + "" == d && d[..|d|] == d && vals == [vals[0]];
    } else {
      var rest := JoinDecimals(vals[1..]);
      var s := d + ", " + rest;
      assert s == d + (", " + rest);
      SpanOfNumeral(d, ", " + rest);
      assert s[..|d|] == d;
      assert s[|d| + 2..] == rest;
      ReadJoinedList(vals[1..]);
      assert vals == [vals[0]] + vals[1..];
    }
  }
}
