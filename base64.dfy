/**
  Go's `base64.StdEncoding` (the standard alphabet with `=` padding, section 4 of
  RFC 4648), as used to decode the client identifier.

  `DecodeString` follows Go's decoder, which is not strict: it skips carriage
  returns and line feeds anywhere in the input, ignores non-zero trailing bits in
  a padded final quantum, and on malformed input returns the bytes it wrote before
  it met the error together with the error. `Encode` is the matching encoder and
  serves as the partner of the decoder.
*/
module Base64 {
  import opened Types

  const Pad: char := '='

  /** The 64 characters of the standard alphabet (RFC 4648, table 1). */
  predicate IsAlphabetChar(c: char) {
    ('A' <= c <= 'Z') || ('a' <= c <= 'z') || ('0' <= c <= '9') || c == '+' || c == '/'
  }

  /** The 6-bit value of an alphabet character. */
  function SextetOf(c: char): sextet
    requires IsAlphabetChar(c)
  {
    if 'A' <= c <= 'Z' then c as int - 'A' as int
    else if 'a' <= c <= 'z' then c as int - 'a' as int + 26
    else if '0' <= c <= '9' then c as int - '0' as int + 52
    else if c == '+' then 62
    else 63
  }

  /** The alphabet character that encodes a 6-bit value. */
  function AlphabetChar(v: sextet): (c: char)
    ensures IsAlphabetChar(c) && SextetOf(c) == v
  {
    if v < 26 then ('A' as int + v) as char
    else if v < 52 then ('a' as int + (v - 26)) as char
    else if v < 62 then ('0' as int + (v - 52)) as char
    else if v == 62 then '+'
    else '/'
  }

  /** The alphabet is a bijection: every alphabet character is the encoding of its value. */
  lemma AlphabetCharOfSextet(c: char)
    requires IsAlphabetChar(c)
    ensures AlphabetChar(SextetOf(c)) == c
  {
  }

  /*
    The three bytes of the 24-bit group c0 c1 c2 c3 (Go assembles
    c0<<18 | c1<<12 | c2<<6 | c3 and takes the bytes at shifts 16, 8 and 0).
  */
  function Byte0(c0: sextet, c1: sextet): byte { c0 * 4 + c1 / 16 }
  function Byte1(c1: sextet, c2: sextet): byte { (c1 % 16) * 16 + c2 / 4 }
  function Byte2(c2: sextet, c3: sextet): byte { (c2 % 4) * 64 + c3 }

  /** What decoding one quantum (four characters) does. */
  datatype Step =
    | Full(bytes: seq<byte>)     // four alphabet characters: three bytes, decoding goes on
    | Final(bytes: seq<byte>)    // a padded quantum that ends the input: one or two bytes
    | Corrupt(bytes: seq<byte>)  // decoding stops with an error after writing these bytes

  /**
    One quantum at the start of a non-empty, newline-free input, as Go's
    `decodeQuantum` does it. The only error that still writes bytes is text after a
    correctly padded quantum ("trailing garbage").
  */
  function DecodeQuantum(t: string): (st: Step)
    requires t != []
    ensures st.Full? ==> |t| >= 4 && |st.bytes| == 3
    ensures st.Full? ==>
              IsAlphabetChar(t[0]) && IsAlphabetChar(t[1]) && IsAlphabetChar(t[2]) && IsAlphabetChar(t[3])
    ensures st.Final? ==> |t| == 4 && 1 <= |st.bytes| <= 2
    ensures st.Final? ==> IsAlphabetChar(t[0]) && IsAlphabetChar(t[1]) && t[3] == Pad
    ensures st.Final? ==> (|st.bytes| == 1 <==> t[2] == Pad)
    ensures st.Corrupt? ==> |st.bytes| <= 2
    ensures st.Corrupt? && st.bytes != [] ==>
              && |t| > 4 && IsAlphabetChar(t[0]) && IsAlphabetChar(t[1])
              && (t[2] == Pad || IsAlphabetChar(t[2])) && t[3] == Pad
              && (|st.bytes| == 1 <==> t[2] == Pad)
  {
    if !IsAlphabetChar(t[0]) || |t| == 1 || !IsAlphabetChar(t[1]) || |t| == 2 then Corrupt([])
    else
      var c0, c1 := SextetOf(t[0]), SextetOf(t[1]);
      if t[2] == Pad then
        if |t| == 3 || t[3] != Pad then Corrupt([])
        else if |t| > 4 then Corrupt([Byte0(c0, c1)])
        else Final([Byte0(c0, c1)])
      else if !IsAlphabetChar(t[2]) || |t| == 3 then Corrupt([])
      else
        var c2 := SextetOf(t[2]);
        if t[3] == Pad then
          if |t| > 4 then Corrupt([Byte0(c0, c1), Byte1(c1, c2)])
          else Final([Byte0(c0, c1), Byte1(c1, c2)])
        else if !IsAlphabetChar(t[3]) then Corrupt([])
        else Full([Byte0(c0, c1), Byte1(c1, c2), Byte2(c2, SextetOf(t[3]))])
  }

  /** The bytes written and whether the decoder reported no error. */
  datatype Decoded = Decoded(bytes: seq<byte>, ok: bool)

  /** Go's decoding loop over a newline-free input: quantum after quantum until the end or an error. */
  function DecodeQuanta(t: string): (d: Decoded)
    ensures 4 * |d.bytes| <= 3 * |t|
    decreases |t|
  {
    if t == [] then Decoded([], true)
    else
      match DecodeQuantum(t)
      case Full(b) =>
        var rest := DecodeQuanta(t[4..]);
        Decoded(b + rest.bytes, rest.ok)
      case Final(b) => Decoded(b, true)
      case Corrupt(b) => Decoded(b, false)
  }

  /** `s` without its carriage returns and line feeds, which Go's decoder skips. */
  function StripNewlines(s: string): (r: string)
    ensures forall i :: 0 <= i < |r| ==> r[i] != '\r' && r[i] != '\n'
    ensures |r| <= |s|
    ensures (forall i :: 0 <= i < |s| ==> s[i] != '\r' && s[i] != '\n') ==> r == s
    ensures forall c :: c != '\r' && c != '\n' ==> multiset(r)[c] == multiset(s)[c]
  {
    assert s != [] ==> s == [s[0]] + s[1..];
    if s == [] then []
    else if s[0] == '\r' || s[0] == '\n' then StripNewlines(s[1..])
    else [s[0]] + StripNewlines(s[1..])
  }

  /** Removing line breaks keeps the order of what is left: it works piece by piece. */
  lemma {:induction false} StripNewlinesAppend(a: string, b: string)
    ensures StripNewlines(a + b) == StripNewlines(a) + StripNewlines(b)
    decreases |a|
  {
    if a == [] {
      assert a + b == b;
    } else {
      assert (a + b)[1..] == a[1..] + b;
      StripNewlinesAppend(a[1..], b);
    }
  }

  /** `base64.StdEncoding.DecodeString(s)`: the bytes returned and whether the error was nil. */
  function DecodeString(s: string): (d: Decoded)
    ensures d.ok <==> WellFormed(StripNewlines(s))
    ensures 4 * |d.bytes| <= 3 * |s|
  {
    DecodeOkIffWellFormed(StripNewlines(s));
    DecodeQuanta(StripNewlines(s))
  }

  /**
    A newline-free input that the decoder accepts: whole quanta of alphabet
    characters, where only the last quantum may end in `=` or `==`.
  */
  predicate WellFormed(t: string) {
    && |t| % 4 == 0
    && (forall i :: 0 <= i < |t| - 2 ==> IsAlphabetChar(t[i]))
    && (|t| >= 4 ==>
          && (IsAlphabetChar(t[|t| - 2]) || (t[|t| - 2] == Pad && t[|t| - 1] == Pad))
          && (IsAlphabetChar(t[|t| - 1]) || t[|t| - 1] == Pad))
  }

  /** Behind four alphabet characters, the input is well formed exactly when the rest is. */
  lemma WellFormedAfterQuantum(t: string)
    requires |t| >= 4
    requires IsAlphabetChar(t[0]) && IsAlphabetChar(t[1]) && IsAlphabetChar(t[2]) && IsAlphabetChar(t[3])
    ensures WellFormed(t) <==> WellFormed(t[4..])
  {
    var rest := t[4..];
    if |t| % 4 == 0 && |t| > 4 {
      assert rest[|rest| - 2] == t[|t| - 2] && rest[|rest| - 1] == t[|t| - 1];
      if WellFormed(rest) {
        forall i | 0 <= i < |t| - 2 ensures IsAlphabetChar(t[i]) {
          if i >= 4 { assert t[i] == rest[i - 4]; }
        }
      }
      if WellFormed(t) {
        forall i | 0 <= i < |rest| - 2 ensures IsAlphabetChar(rest[i]) {
          assert rest[i] == t[i + 4];
        }
      }
    }
  }

  /** The decoder reports no error exactly on well-formed input. */
  lemma {:induction false} DecodeOkIffWellFormed(t: string)
    ensures DecodeQuanta(t).ok <==> WellFormed(t)
    decreases |t|
  {
    if t != [] {
      var st := DecodeQuantum(t);
      if st.Full? {
        DecodeOkIffWellFormed(t[4..]);
        WellFormedAfterQuantum(t);
      } else if st.Corrupt? && |t| % 4 == 0 && |t| > 4 {
        assert !IsAlphabetChar(t[0]) || !IsAlphabetChar(t[1]) || !IsAlphabetChar(t[2])
            || !IsAlphabetChar(t[3]);
      }
    }
  }

  /** The four characters that encode the 24-bit group of bytes `x y z`. */
  function EncodeGroup(x: byte, y: byte, z: byte): (q: string)
    ensures |q| == 4
  {
    [AlphabetChar(x / 4), AlphabetChar(x % 4 * 16 + y / 16),
     AlphabetChar(y % 16 * 4 + z / 64), AlphabetChar(z % 64)]
  }

  /**
    `base64.StdEncoding.EncodeToString`: every three bytes become four characters;
    a final one or two bytes are encoded as if followed by zero bytes, and the
    characters that stand for no input are replaced by `=`.
  */
  function Encode(b: seq<byte>): string
    decreases |b|
  {
    if |b| == 0 then ""
    else if |b| == 1 then EncodeGroup(b[0], 0, 0)[..2] + [Pad, Pad]
    else if |b| == 2 then EncodeGroup(b[0], b[1], 0)[..3] + [Pad]
    else EncodeGroup(b[0], b[1], b[2]) + Encode(b[3..])
  }

  /** Every started group of three bytes takes four characters. */
  lemma {:induction false} EncodeLength(b: seq<byte>)
    ensures |Encode(b)| == (|b| + 2) / 3 * 4
    decreases |b|
  {
    if |b| >= 3 {
      EncodeLength(b[3..]);
    }
  }

  /** An encoding consists of alphabet characters and padding only. */
  lemma {:induction false} EncodeAlphabet(b: seq<byte>)
    ensures forall i :: 0 <= i < |Encode(b)| ==> IsAlphabetChar(Encode(b)[i]) || Encode(b)[i] == Pad
    decreases |b|
  {
    if |b| >= 3 {
      EncodeAlphabet(b[3..]);
      var q, s, r := EncodeGroup(b[0], b[1], b[2]), Encode(b), Encode(b[3..]);
      assert s == q + r;
      forall i | 0 <= i < |s| ensures IsAlphabetChar(s[i]) || s[i] == Pad {
        if i >= 4 { assert s[i] == r[i - 4]; }
      }
    }
  }

  /** An encoding has no line breaks, so the decoder sees all of it. */
  lemma EncodeHasNoNewlines(b: seq<byte>)
    ensures StripNewlines(Encode(b)) == Encode(b)
  {
    EncodeAlphabet(b);
  }

  /** Reassembling the sextets of three bytes gives the bytes back. */
  lemma GroupRoundTrip(x: byte, y: byte, z: byte)
    ensures Byte0(x / 4, x % 4 * 16 + y / 16) == x
    ensures Byte1(x % 4 * 16 + y / 16, y % 16 * 4 + z / 64) == y
    ensures Byte2(y % 16 * 4 + z / 64, z % 64) == z
  {
    assert (x % 4 * 16 + y / 16) / 16 == x % 4;
    assert (x % 4 * 16 + y / 16) % 16 == y / 16;
    assert (y % 16 * 4 + z / 64) / 4 == y % 16;
    assert (y % 16 * 4 + z / 64) % 4 == z / 64;
  }

  /** Four alphabet characters decode to the three bytes of their sextets. */
  lemma DecodeFourChars(t: string, c0: sextet, c1: sextet, c2: sextet, c3: sextet)
    requires |t| >= 4
    requires t[0] == AlphabetChar(c0) && t[1] == AlphabetChar(c1)
    requires t[2] == AlphabetChar(c2) && t[3] == AlphabetChar(c3)
    ensures DecodeQuantum(t) == Full([Byte0(c0, c1), Byte1(c1, c2), Byte2(c2, c3)])
  {
  }

  /** A final quantum of three alphabet characters and `=` decodes to two bytes. */
  lemma DecodeThreeChars(t: string, c0: sextet, c1: sextet, c2: sextet)
    requires |t| == 4
    requires t[0] == AlphabetChar(c0) && t[1] == AlphabetChar(c1)
    requires t[2] == AlphabetChar(c2) && t[3] == Pad
    ensures DecodeQuantum(t) == Final([Byte0(c0, c1), Byte1(c1, c2)])
  {
  }

  /** A final quantum of two alphabet characters and `==` decodes to one byte. */
  lemma DecodeTwoChars(t: string, c0: sextet, c1: sextet)
    requires |t| == 4
    requires t[0] == AlphabetChar(c0) && t[1] == AlphabetChar(c1)
    requires t[2] == Pad && t[3] == Pad
    ensures DecodeQuantum(t) == Final([Byte0(c0, c1)])
  {
  }

  /** An input that starts with the encoding of a whole group decodes that group first. */
  lemma DecodeGroup(t: string, x: byte, y: byte, z: byte)
    requires |t| >= 4 && t[..4] == EncodeGroup(x, y, z)
    ensures DecodeQuantum(t) == Full([x, y, z])
  {
    var q := EncodeGroup(x, y, z);
    assert t[0] == q[0] && t[1] == q[1] && t[2] == q[2] && t[3] == q[3];
    DecodeFourChars(t, x / 4, x % 4 * 16 + y / 16, y % 16 * 4 + z / 64, z % 64);
    GroupRoundTrip(x, y, z);
  }

  /** The encoding of two bytes decodes to them and ends the input. */
  lemma DecodeTwo(t: string, x: byte, y: byte)
    requires t == EncodeGroup(x, y, 0)[..3] + [Pad]
    ensures DecodeQuantum(t) == Final([x, y])
  {
    var q := EncodeGroup(x, y, 0);
    assert t[0] == q[0] && t[1] == q[1] && t[2] == q[2] && t[3] == Pad;
    DecodeThreeChars(t, x / 4, x % 4 * 16 + y / 16, y % 16 * 4);
    GroupRoundTrip(x, y, 0);
  }

  /** The encoding of one byte decodes to it and ends the input. */
  lemma DecodeOne(t: string, x: byte)
    requires t == EncodeGroup(x, 0, 0)[..2] + [Pad, Pad]
    ensures DecodeQuantum(t) == Final([x])
  {
    var q := EncodeGroup(x, 0, 0);
    assert t[0] == q[0] && t[1] == q[1] && t[2] == Pad && t[3] == Pad;
    DecodeTwoChars(t, x / 4, x % 4 * 16);
    GroupRoundTrip(x, 0, 0);
  }

  /** With at least three bytes, the encoding starts with the first group and goes on with the rest. */
  lemma SplitFirstGroup(b: seq<byte>, x: string)
    requires |b| >= 3
    ensures (Encode(b) + x)[..4] == EncodeGroup(b[0], b[1], b[2])
    ensures (Encode(b) + x)[4..] == Encode(b[3..]) + x
  {
    var q, r := EncodeGroup(b[0], b[1], b[2]), Encode(b[3..]);
    assert Encode(b) + x == q + (r + x);
  }

  /** After a whole quantum the decoding loop goes on with the rest of the input. */
  lemma DecodeQuantaFull(t: string, g: seq<byte>)
    requires |t| >= 4 && DecodeQuantum(t) == Full(g)
    ensures DecodeQuanta(t) == Decoded(g + DecodeQuanta(t[4..]).bytes, DecodeQuanta(t[4..]).ok)
  {
  }

  /** After the first three bytes, the rest of the decoded bytes are the rest of `b`. */
  lemma AppendAfterGroup(b: seq<byte>, r: seq<byte>)
    requires |b| >= 3
    ensures [b[0], b[1], b[2]] + (b[3..] + r) == b + r
  {
    assert b == [b[0], b[1], b[2]] + b[3..];
  }

  /** The decoding loop gives back every encoded byte, with no error. */
  lemma {:induction false} DecodeQuantaEncode(b: seq<byte>)
    ensures DecodeQuanta(Encode(b)) == Decoded(b, true)
    decreases |b|
  {
    if |b| == 1 {
      DecodeOne(Encode(b), b[0]);
      assert b == [b[0]];
    } else if |b| == 2 {
      DecodeTwo(Encode(b), b[0], b[1]);
      assert b == [b[0], b[1]];
    } else if |b| >= 3 {
      var s, rest := Encode(b), b[3..];
      assert s + "" == s && Encode(rest) + "" == Encode(rest);
      DecodeAfterGroup(b, "");
      DecodeQuantaEncode(rest);
      AppendAfterGroup(b, []);
      assert b + [] == b;
    }
  }

  /** Decoding a group followed by `x` writes the group and goes on with `x`. */
  lemma DecodeAfterGroup(b: seq<byte>, x: string)
    requires |b| >= 3
    ensures DecodeQuanta(Encode(b) + x)
            == Decoded([b[0], b[1], b[2]] + DecodeQuanta(Encode(b[3..]) + x).bytes,
                       DecodeQuanta(Encode(b[3..]) + x).ok)
  {
    var t := Encode(b) + x;
    SplitFirstGroup(b, x);
    DecodeGroup(t, b[0], b[1], b[2]);
    DecodeQuantaFull(t, [b[0], b[1], b[2]]);
  }

  /**
    Whole groups decoded before an error are kept: after the encoding of a
    multiple of three bytes, the decoder goes on with whatever follows, and its
    bytes and verdict are those of the remainder.
  */
  lemma {:induction false} DecodeAfterGroups(b: seq<byte>, x: string)
    requires |b| % 3 == 0
    ensures DecodeQuanta(Encode(b) + x)
            == Decoded(b + DecodeQuanta(x).bytes, DecodeQuanta(x).ok)
    decreases |b|
  {
    if b == [] {
      assert Encode(b) + x == x;
    } else {
      var rest := b[3..];
      assert |b| >= 3 && |rest| % 3 == 0 by {
        assert |rest| == |b| - 3;
      }
      var r := DecodeQuanta(x);
      DecodeAfterGroup(b, x);
      DecodeAfterGroups(rest, x);
      AppendAfterGroup(b, r.bytes);
    }
  }

  /** Decoding the encoding of any byte sequence gives it back, with no error. */
  lemma DecodeEncode(b: seq<byte>)
    ensures DecodeString(Encode(b)) == Decoded(b, true)
  {
    EncodeHasNoNewlines(b);
    DecodeQuantaEncode(b);
  }
}
