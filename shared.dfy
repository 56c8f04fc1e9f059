/**
  The helpers of the command layer in cmd/shared/shared.go: the error-message
  formatter, the verified device rename, and the rendering of a client
  identifier's bytes as a reserved-bits line.
*/
module Shared {
  import opened Types
  import Base64
  import Hex
  import Fmt

  // ---------------------------------------------------------------------------
  // FormatMessage
  // ---------------------------------------------------------------------------

  predicate NewlineFree(s: string) {
    forall i :: 0 <= i < |s| ==> s[i] != '\n'
  }

  /** `strings.Replace(s, "\n", " ", -1)`: every line feed becomes a space. */
  function ReplaceNewlines(s: string): (r: string)
    ensures |r| == |s|
    ensures forall i :: 0 <= i < |s| ==> r[i] == if s[i] == '\n' then ' ' else s[i]
  {
    if s == [] then []
    else [if s[0] == '\n' then ' ' else s[0]] + ReplaceNewlines(s[1..])
  }

  /** How many leading characters the long message loses: one line feed at most. */
  function Dropped(long: string): nat {
    if long != [] && long[0] == '\n' then 1 else 0
  }

  /**
    The long message as FormatMessage uses it: a non-empty message loses one
    leading line feed and has every other line feed turned into a space.
  */
  function FlattenLong(long: string): (r: string)
    ensures |r| == |long| - Dropped(long)
    ensures NewlineFree(r)
    ensures forall i :: 0 <= i < |r| ==>
              r[i] == if long[i + Dropped(long)] == '\n' then ' ' else long[i + Dropped(long)]
  {
    if long != "" then
      ReplaceNewlines(if long[0] == '\n' then long[1..] else long)
    else long
  }

  /** Joins the short and the flattened long message with ". " when both are present. */
  function FormatMessage(short: string, long: string): (r: string)
    ensures short != "" && FlattenLong(long) != "" ==> r == short + ". " + FlattenLong(long)
    ensures short != "" && FlattenLong(long) == "" ==> r == short
    ensures short == "" ==> r == FlattenLong(long)
  {
    var long := FlattenLong(long);
    if short != "" && long != "" then short + ". " + long
    else if short != "" then short
    else long
  }

  /** The result is empty exactly when the short message is empty and the long one is empty or a lone line feed. */
  lemma FormatMessageEmpty(short: string, long: string)
    ensures FormatMessage(short, long) == "" <==> short == "" && (long == "" || long == "\n")
  {
    if long != "" && |long| == 1 && long[0] == '\n' {
      assert long == "\n";
    }
  }

  /** The result starts with the short message and adds the flattened long message's characters, after ". " when both are there. */
  lemma FormatMessageLength(short: string, long: string)
    ensures var n := |long| - Dropped(long);
            |FormatMessage(short, long)| == |short| + n + (if short != "" && n > 0 then 2 else 0)
    ensures FormatMessage(short, long)[..|short|] == short
  {
  }

  /** A short message without line feeds gives a result without line feeds, whatever the long message holds. */
  lemma FormatMessageNewlineFree(short: string, long: string)
    requires NewlineFree(short)
    ensures NewlineFree(FormatMessage(short, long))
  {
    var l := FlattenLong(long);
    if short != "" && l != "" {
      assert NewlineFree(". ");
      ConcatNewlineFree(short, ". ");
      ConcatNewlineFree(short + ". ", l);
    }
  }

  /** Joining two strings without line feeds gives a string without line feeds. */
  lemma ConcatNewlineFree(a: string, b: string)
    requires NewlineFree(a) && NewlineFree(b)
    ensures NewlineFree(a + b)
  {
    forall i | |a| <= i < |a + b| ensures (a + b)[i] != '\n' {
      assert (a + b)[i] == b[i - |a|];
    }
  }

  /** A long message that is only a line feed leaves the short message alone. */
  lemma FormatMessageLoneNewline(short: string)
    ensures FormatMessage(short, "\n") == short
  {
    assert FlattenLong("\n") == "";
  }

  // ---------------------------------------------------------------------------
  // SetDeviceName
  // ---------------------------------------------------------------------------

  /** The request context: credentials read from the configuration, opaque here. */
  datatype Context = Context(deviceId: string, accessToken: string, licenseKey: string)

  /** The remote service's record of the bound device; `name` is a pointer that may be nil. */
  datatype BoundDevice = BoundDevice(name: Option<string>, active: bool)

  /** What the remote rename call returns: a transport error, or the updated record. */
  datatype UpdateReply = TransportError(cause: string) | Updated(device: BoundDevice)

  /** The two errors a rename can end in. */
  datatype RenameError =
    | Transport(cause: string)  // the remote call's own error, passed on unchanged
    | NotConfirmed              // the call succeeded but the record does not carry the name sent

  datatype RenameOutcome = Confirmed(device: BoundDevice) | Failed(error: RenameError)

  /** One rename attempt: the name sent to the remote service and the outcome. */
  datatype Rename = Rename(sent: string, outcome: RenameOutcome)

  /** The text of a rename error, as the caller prints it. */
  function ErrorMessage(e: RenameError): (m: string)
    ensures e.Transport? ==> m == e.cause
    ensures e.NotConfirmed? ==> m == "could not update device name"
  {
    match e
    case Transport(cause) => cause
    case NotConfirmed => "could not update device name"
  }

  /** The name to send: the one asked for, or the generated one when none was given. */
  function ResolveName(deviceName: string, generated: string): (n: string)
    ensures deviceName != "" ==> n == deviceName
    ensures deviceName == "" ==> n == generated
  {
    if deviceName == "" then deviceName + generated else deviceName
  }

  /** Accepts the remote reply only when the returned record carries exactly the name sent. */
  function Verify(sent: string, reply: UpdateReply): (o: RenameOutcome)
    ensures reply.TransportError? ==> o == Failed(Transport(reply.cause))
    ensures o.Confirmed? <==> reply.Updated? && reply.device.name == Some(sent)
    ensures o.Confirmed? ==> o.device == reply.device
    ensures reply.Updated? && !o.Confirmed? ==> o == Failed(NotConfirmed)
  {
    match reply
    case TransportError(cause) => Failed(Transport(cause))
    case Updated(device) =>
      if device.name.None? || device.name.value != sent then Failed(NotConfirmed)
      else Confirmed(device)
  }

  /**
    Renames the bound device. `generated` stands for the random name the source
    draws when no name is given, and `update` for the remote rename call, which is
    applied once, to the resolved name.
  */
  function SetDeviceName(ctx: Context, deviceName: string, generated: string,
                         update: (Context, string) -> UpdateReply): (r: Rename)
    ensures r.sent == ResolveName(deviceName, generated)
    ensures r.outcome == Verify(r.sent, update(ctx, r.sent))
  {
    var sent := ResolveName(deviceName, generated);
    Rename(sent, Verify(sent, update(ctx, sent)))
  }

  /** A rename is never reported successful unless the remote's own record carries the name sent. */
  lemma NeverConfirmedUnlessEchoed(ctx: Context, deviceName: string, generated: string,
                                   update: (Context, string) -> UpdateReply)
    ensures var r := SetDeviceName(ctx, deviceName, generated, update);
            r.outcome.Confirmed? ==>
              && update(ctx, r.sent) == Updated(r.outcome.device)
              && r.outcome.device.name == Some(r.sent)
              && (deviceName != "" ==> r.outcome.device.name == Some(deviceName))
  {
  }

  /** With a remote that echoes the name it is given, every rename is confirmed with the echoed record. */
  lemma EchoConfirms(ctx: Context, deviceName: string, generated: string, active: bool)
    ensures var update := (c: Context, n: string) => Updated(BoundDevice(Some(n), active));
            var r := SetDeviceName(ctx, deviceName, generated, update);
            r.outcome == Confirmed(BoundDevice(Some(r.sent), active))
  {
  }

  /** A record with a nil name, or with another name, is rejected as unconfirmed. */
  lemma MismatchRejected(ctx: Context, deviceName: string, generated: string, returned: Option<string>,
                         active: bool)
    requires returned != Some(ResolveName(deviceName, generated))
    ensures var update := (c: Context, n: string) => Updated(BoundDevice(returned, active));
            var r := SetDeviceName(ctx, deviceName, generated, update);
            r.outcome == Failed(NotConfirmed)
            && ErrorMessage(r.outcome.error) == "could not update device name"
  {
  }

  /** A transport error is passed on unchanged and no record is returned. */
  lemma TransportErrorPassedOn(ctx: Context, deviceName: string, generated: string, cause: string)
    ensures var update := (c: Context, n: string) => TransportError(cause);
            var r := SetDeviceName(ctx, deviceName, generated, update);
            r.outcome == Failed(Transport(cause)) && ErrorMessage(r.outcome.error) == cause
  {
  }

  // ---------------------------------------------------------------------------
  // ParseReserveBits
  // ---------------------------------------------------------------------------

  /** `fmt.Sprintf("%d%d%d", v/100, (v/10)%10, v%10)` for a byte: its zero-padded three-digit numeral. */
  function Triplet(v: byte): (s: string)
    ensures |s| == 3 && Fmt.AllDigits(s)
    ensures s[0] <= '2'
    ensures Fmt.DecimalValue(s) == v
  {
    var s := [Fmt.DigitChar(v / 100), Fmt.DigitChar(v / 10 % 10), Fmt.DigitChar(v % 10)];
    assert s[..2][..1] == s[..1] && s[..3] == s;
    assert Fmt.DecimalValue(s[..1]) == v / 100;
    assert Fmt.DecimalValue(s[..2]) == v / 100 * 10 + v / 10 % 10;
    s
  }

  /**
    The net effect of the Sprint / Fields / Join / Trim / Sprintln chain on a list
    of non-negative integers: "[ ", the numerals joined by ", ", then " ]\n".
  */
  function ReservedLine(vals: seq<nat>): (line: string)
    ensures |line| >= 5 && line[..2] == "[ " && line[|line| - 3..] == " ]\n"
    ensures line == "[  ]\n" <==> vals == []
  {
    "[ " + Fmt.JoinDecimals(vals) + " ]\n"
  }

  /** Reads a reserved-bits line back into its list of integers; None if `line` is not one. */
  function ReadReservedLine(line: string): Option<seq<nat>> {
    if |line| >= 5 && line[..2] == "[ " && line[|line| - 3..] == " ]\n" then
      var body := line[2..|line| - 3];
      if body == "" then Some([]) else Fmt.ReadList(body)
    else None
  }

  /** A reserved-bits line lists exactly the integers it was made from, in order. */
  lemma ReservedLineRoundTrip(vals: seq<nat>)
    ensures ReadReservedLine(ReservedLine(vals)) == Some(vals)
  {
    var body := Fmt.JoinDecimals(vals);
    var line := ReservedLine(vals);
    assert line[2..|line| - 3] == body;
    if vals != [] {
      Fmt.ReadJoinedList(vals);
    }
  }

  /**
    The first loop of ParseReserveBits: walks the hex string two digits at a
    time and builds the three-digit numeral of each parsed pair.
  */
  method TripletColumns(ghost decoded: seq<byte>, hexString: string) returns (decValues: seq<string>)
    requires Hex.PairsParseTo(hexString, decoded)
    ensures |decValues| == |decoded|
    ensures forall k :: 0 <= k < |decoded| ==> decValues[k] == Triplet(decoded[k])
  {
    decValues := [];
    var i := 0;
    while i < |hexString|
      invariant i == 2 * |decValues| <= |hexString|
      invariant forall k :: 0 <= k < |decValues| ==> decValues[k] == Triplet(decoded[k])
    {
      var hexByte := hexString[i..i + 2];
      assert Hex.ParseInt16(hexByte) == decoded[|decValues|];
      var decValue := Hex.ParseInt16(hexByte);
      decValues := decValues + [Triplet(decValue)];
      i := i + 2;
    }
  }

  /**
    The second loop of ParseReserveBits: walks the hex string two digits at a
    time and collects the parsed values, which are the decoded bytes again.
  */
  method ReservedValues(ghost decoded: seq<byte>, hexString: string) returns (reserved: seq<int>)
    requires Hex.PairsParseTo(hexString, decoded)
    ensures reserved == decoded
  {
    reserved := [];
    var i := 0;
    while i < |hexString|
      invariant i == 2 * |reserved| <= |hexString|
      invariant reserved == decoded[..|reserved|]
    {
      var hexByte := hexString[i..i + 2];
      assert Hex.ParseInt16(hexByte) == decoded[|reserved|];
      var decValue := Hex.ParseInt16(hexByte);
      reserved := reserved + [decValue];
      i := i + 2;
    }
  }

  /**
    Decodes the base64 client identifier and lists its bytes as "[ b0, b1, ... ]\n".
    Decoding errors are dropped: the line lists whatever bytes the decoder returned.
    The three-digit numerals of the first loop never reach the result.
  */
  method ParseReserveBits(clientID: string) returns (line: string)
    ensures line == ReservedLine(Base64.DecodeString(clientID).bytes)
    ensures ReadReservedLine(line) == Some(Base64.DecodeString(clientID).bytes)
  {
    var decoded := Base64.DecodeString(clientID).bytes;
    var hexString := Hex.EncodeToString(decoded);
    Hex.EncodePairsParse(decoded);
    var decValues := TripletColumns(decoded, hexString);
    var reserved := ReservedValues(decoded, hexString);
    line := ReservedLine(reserved);
    ReservedLineRoundTrip(decoded);
  }

  /** The identifier that encodes `b` gives the line listing `b`. */
  lemma ReserveBitsOfEncoding(b: seq<byte>)
    ensures ReservedLine(Base64.DecodeString(Base64.Encode(b)).bytes) == ReservedLine(b)
  {
    Base64.DecodeEncode(b);
  }

  /** The sextet 0 is written 'A'. */
  lemma FirstAlphabetChar()
    ensures Base64.AlphabetChar(0) == 'A'
  {
  }

  /** Three zero bytes are four zero sextets, each written 'A'. */
  lemma ZeroGroup(x: byte)
    requires x == 0
    ensures Base64.EncodeGroup(x, x, x) == "AAAA"
  {
    assert x / 4 == 0 && x % 4 * 16 + x / 16 == 0 && x % 16 * 4 + x / 64 == 0 && x % 64 == 0;
    FirstAlphabetChar();
  }

  /** Three zero bytes make one whole group, so no padding follows. */
  lemma EncodeZeroBytes(x: byte)
    requires x == 0
    ensures Base64.Encode([x, x, x]) == "AAAA"
  {
    var b := [x, x, x];
    assert b[3..] == [];
    assert Base64.Encode(b) == Base64.EncodeGroup(x, x, x) + Base64.Encode(b[3..]);
    ZeroGroup(x);
  }

  /** "AAAA" is the encoding of three zero bytes. */
  lemma EncodeThreeZeroBytes()
    ensures Base64.Encode([0, 0, 0]) == "AAAA"
  {
    EncodeZeroBytes(0);
  }

  /** "AAAA" decodes to three zero bytes... */
  lemma ThreeZeroBytesExample()
    ensures Base64.DecodeString("AAAA") == Base64.Decoded([0, 0, 0], true)
  {
    EncodeThreeZeroBytes();
    Base64.DecodeEncode([0, 0, 0]);
  }

  /** ...which are listed as "[ 0, 0, 0 ]". */
  lemma ThreeZeroBytesLine()
    ensures ReservedLine([0, 0, 0]) == "[ 0, 0, 0 ]\n"
  {
    var z: nat := 0;
    var vals := [z, z, z];
    assert Fmt.Decimal(z) == "0";
    assert Fmt.JoinDecimals(vals[2..]) == "0";
    assert Fmt.JoinDecimals(vals[1..]) == "0" + ", " + "0";
    assert Fmt.JoinDecimals(vals) == "0, 0, 0";
  }

  /** The identifier "AAAA" gives the line "[ 0, 0, 0 ]". */
  lemma ThreeZeroBytesReserveBits()
    ensures ReservedLine(Base64.DecodeString("AAAA").bytes) == "[ 0, 0, 0 ]\n"
  {
    ThreeZeroBytesExample();
    ThreeZeroBytesLine();
  }

  /** "!!!" fails in its first quantum: no bytes, and the empty line "[  ]". */
  lemma InvalidExample()
    ensures Base64.DecodeString("!!!") == Base64.Decoded([], false)
    ensures ReservedLine([]) == "[  ]\n"
  {
    assert Base64.StripNewlines("!!!") == "!!!";
  }

  /** A whole group followed by four characters outside the alphabet: the group's bytes, then an error. */
  lemma ZeroGroupThenGarbage()
    ensures Base64.DecodeQuanta(Base64.Encode([0, 0, 0]) + "!!!!") == Base64.Decoded([0, 0, 0], false)
  {
    Base64.DecodeAfterGroups([0, 0, 0], "!!!!");
    assert Base64.DecodeQuanta("!!!!") == Base64.Decoded([], false);
  }

  /** "AAAA!!!!" holds no line breaks, so the decoder sees it whole. */
  lemma PartialExampleHasNoNewline()
    ensures Base64.StripNewlines("AAAA!!!!") == "AAAA" + "!!!!"
  {
    var s := "AAAA!!!!";
    assert s == "AAAA" + "!!!!";
    forall i | 0 <= i < |s| ensures s[i] != '\r' && s[i] != '\n' { }
  }

  /**
    "AAAA!!!!" fails only in its second quantum, and the bytes decoded before the
    error are still listed: malformed input does not always give "[  ]".
  */
  lemma PartialDecodeExample()
    ensures Base64.DecodeString("AAAA!!!!") == Base64.Decoded([0, 0, 0], false)
  {
    var t := Base64.Encode([0, 0, 0]) + "!!!!";
    assert Base64.StripNewlines("AAAA!!!!") == t by {
      PartialExampleHasNoNewline();
      EncodeThreeZeroBytes();
    }
    ZeroGroupThenGarbage();
  }
}
