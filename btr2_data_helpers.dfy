/**
 * The BTR2 frame codec: masking the text of an inbound frame, taking the
 * payload out from between the STX/ETX markers and the CRC field, extracting
 * the chip number from field 7, formatting the acknowledgement's timestamp,
 * and writing the acknowledgement frame into a 128-byte buffer.
 */
module Btr2DataHelpers {
  import opened Wire

  const STX: Byte := 0x02
  const ETX: Byte := 0x03
  /** Width of the CRC field that precedes the end marker. */
  const CrcFieldLength: nat := 8
  /** Size of the working buffer the acknowledgement is written into. */
  const ResponseBufferSize: nat := 128
  /** The client MAC address the acknowledgement announces; the device does not check it. */
  const ClientMacAddress: string := "123456789ABC"

  const ChipNumberError: string := "Could not parse chip number from data string"
  /**
   * The `TypeError` raised when a `;`-field that does not exist (`undefined`)
   * is used as a string. Its wording depends on the JavaScript engine; this
   * fixed text stands for it.
   */
  const MissingFieldError: string := "Cannot read properties of undefined"
  /** The `RangeError` a `Buffer` raises for a write past its end. */
  const OutOfRangeError: string := "Index out of range"
  /** The `RangeError` a `Buffer` raises for a string written at an offset past its end. */
  const WriteOutOfBoundsError: string := "Attempt to write outside buffer bounds"

  /** A value of `crc32Calc`: an unsigned 32-bit integer. */
  type Crc32 = n: int | 0 <= n < 0x1_0000_0000

  /** The local-time readings of a `Date`, as its getters return them (`month` counts from 0). */
  datatype LocalTime = LocalTime(fullYear: nat, month: nat, date: nat, hours: nat, minutes: nat, seconds: nat)

  // ---------------------------------------------------------------------------
  // cleanData
  // ---------------------------------------------------------------------------

  /** The characters `cleanData` keeps: `[a-zA-Z0-9:;\],-]`. */
  predicate IsAllowed(c: char)
  {
    ('a' <= c <= 'z') || ('A' <= c <= 'Z') || ('0' <= c <= '9')
    || c == ':' || c == ';' || c == ']' || c == ',' || c == '-'
  }

  predicate AllAllowed(s: string)
  {
    forall c :: c in s ==> IsAllowed(c)
  }

  /** Every character outside the allowed set is replaced by 'X'; the others stay where they are. */
  function CleanData(data: string): (r: string)
    ensures |r| == |data|
    ensures forall k :: 0 <= k < |data| ==> r[k] == (if IsAllowed(data[k]) then data[k] else 'X')
    ensures AllAllowed(r)
  {
    if data == [] then ""
    else [if IsAllowed(data[0]) then data[0] else 'X'] + CleanData(data[1..])
  }

  /** Masking a second time changes nothing. */
  lemma CleanDataIdempotent(data: string)
    ensures CleanData(CleanData(data)) == CleanData(data)
  {
    var once := CleanData(data);
    assert forall k :: 0 <= k < |once| ==> IsAllowed(once[k]) by {
      forall k | 0 <= k < |once| ensures IsAllowed(once[k]) {
        assert once[k] in once;
      }
    }
  }

  // ---------------------------------------------------------------------------
  // getDataWithoutHeadersAndCRC
  // ---------------------------------------------------------------------------

  /**
   * The text between the first STX and the first ETX, less the 8-byte CRC
   * field before the ETX. Nothing checks that the markers are there: a
   * missing STX makes the start 0, a missing ETX makes `slice` read the end
   * index -1 as "one before the last byte".
   */
  function GetDataWithoutHeadersAndCrc(data: seq<Byte>): string
  {
    var startByteIndex := IndexOf(data, STX) + 1;
    var endByteIndex := IndexOf(data, ETX);
    var dataWithCrc := Slice(data, startByteIndex, endByteIndex);
    AsciiDecode(Slice(dataWithCrc, 0, |dataWithCrc| - CrcFieldLength))
  }

  lemma FirstIndex(data: seq<Byte>, b: Byte, at: nat)
    requires at < |data| && data[at] == b && b !in data[..at]
    ensures IndexOf(data, b) == at
  {
    var r := IndexOf(data, b);
    assert r != -1 by { assert data[at] in data; }
    assert forall j :: 0 <= j < at ==> data[..at][j] == data[j];
    assert forall j :: 0 <= j < r ==> data[..r][j] == data[j];
  }

  /**
   * With the first STX at `s` and the first ETX at `e`, at least 8 bytes
   * apart, the payload is exactly the bytes s+1 .. e-9.
   */
  lemma PayloadBetweenMarkers(data: seq<Byte>, s: nat, e: nat)
    requires s + 9 <= e < |data|
    requires data[s] == STX && STX !in data[..s]
    requires data[e] == ETX && ETX !in data[..e]
    ensures GetDataWithoutHeadersAndCrc(data) == AsciiDecode(data[s + 1..e - 8])
  {
    FirstIndex(data, STX, s);
    FirstIndex(data, ETX, e);
    var dataWithCrc := Slice(data, s + 1, e);
    assert dataWithCrc == data[s + 1..e];
    assert Slice(dataWithCrc, 0, |dataWithCrc| - 8) == data[s + 1..e - 8];
  }

  /** Without an ETX, the last byte of the buffer is dropped as if it were the end marker. */
  lemma PayloadWithoutEndMarker(data: seq<Byte>, s: nat)
    requires s + 10 <= |data|
    requires data[s] == STX && STX !in data[..s]
    requires ETX !in data
    ensures GetDataWithoutHeadersAndCrc(data) == AsciiDecode(data[s + 1..|data| - 9])
  {
    FirstIndex(data, STX, s);
    var dataWithCrc := Slice(data, s + 1, -1);
    assert dataWithCrc == data[s + 1..|data| - 1];
    assert Slice(dataWithCrc, 0, |dataWithCrc| - 8) == data[s + 1..|data| - 9];
  }

  // ---------------------------------------------------------------------------
  // getChipNumberFromDataString
  // ---------------------------------------------------------------------------

  /** The characters the regular-expression `.` does not match. */
  predicate IsLineTerminator(c: char)
  {
    c == '\n' || c == '\r' || c == '\U{2028}' || c == '\U{2029}'
  }

  predicate NoLineTerminator(s: string)
  {
    forall k :: 0 <= k < |s| ==> !IsLineTerminator(s[k])
  }

  /**
   * `s.match(/.{1,2}/g)`: from left to right, groups of two characters (one
   * where only one is left before a line terminator or the end), skipping line
   * terminators. An empty sequence stands for the `null` of "no match".
   */
  function MatchPairs(s: string): (groups: seq<string>)
    ensures forall k :: 0 <= k < |groups| ==> 1 <= |groups[k]| <= 2 && NoLineTerminator(groups[k])
    decreases |s|
  {
    if s == [] then []
    else if IsLineTerminator(s[0]) then MatchPairs(s[1..])
    else if |s| >= 2 && !IsLineTerminator(s[1]) then [s[..2]] + MatchPairs(s[2..])
    else [s[..1]] + MatchPairs(s[1..])
  }

  /**
   * The callback `hex => hex.match(/.{1,2}/g)?.reverse()?.join('')`; the
   * `undefined` of a null match is joined as the empty string.
   */
  function ReverseWithinPair(hex: string): string
  {
    var groups := MatchPairs(hex);
    if groups == [] then "" else Concat(Reverse(groups))
  }

  function MapReverseWithinPair(pairs: seq<string>): (r: seq<string>)
    ensures |r| == |pairs|
  {
    if pairs == [] then [] else [ReverseWithinPair(pairs[0])] + MapReverseWithinPair(pairs[1..])
  }

  /**
   * Field 7 of the `;`-separated data, its 2-character groups in reverse
   * order. A missing field 7 is the `TypeError` of calling `match` on
   * `undefined`; a field without a match is the explicit error.
   */
  function GetChipNumberFromDataString(data: string): Result<string>
  {
    var dataStringArray := Split(data, ';');
    if |dataStringArray| < 8 then Err(MissingFieldError)
    else
      var pairs := MatchPairs(dataStringArray[7]);
      if pairs == [] then Err(ChipNumberError)
      else
        var chipNumber := Concat(MapReverseWithinPair(Reverse(pairs)));
        if chipNumber == "" then Err(ChipNumberError) else Ok(chipNumber)
  }

  /** Reference definition of the chip-number transform: the 2-character groups of `s`, last group first. */
  function PairsReversed(s: string): (r: string)
    ensures |r| == |s|
  {
    if |s| <= 2 then s else PairsReversed(s[2..]) + s[..2]
  }

  /** The per-pair step reverses a one-element array, so it hands back every group unchanged. */
  lemma {:induction false} ReverseWithinPairIsIdentity(pairs: seq<string>)
    requires forall k :: 0 <= k < |pairs| ==> 1 <= |pairs[k]| <= 2 && NoLineTerminator(pairs[k])
    ensures MapReverseWithinPair(pairs) == pairs
  {
    if pairs != [] {
      var g := pairs[0];
      if |g| == 2 {
        assert g[..2] == g && g[2..] == [];
      } else {
        assert g[..1] == g && g[1..] == [];
      }
      assert MatchPairs(g) == [g];
      assert Reverse([g]) == [g];
      assert Concat([g]) == g + "" == g;
      assert ReverseWithinPair(g) == g;
      ReverseWithinPairIsIdentity(pairs[1..]);
      assert pairs == [g] + pairs[1..];
    }
  }

  lemma {:induction false} ReverseAppendOne<T>(xs: seq<T>, x: T)
    ensures Reverse([x] + xs) == Reverse(xs) + [x]
  {
    assert ([x] + xs)[1..] == xs;
  }

  /** Without line terminators, a field of at least two characters starts with a full pair. */
  lemma MatchPairsFront(s: string)
    requires NoLineTerminator(s) && |s| >= 2
    ensures MatchPairs(s) == [s[..2]] + MatchPairs(s[2..])
  {
    assert !IsLineTerminator(s[0]) && !IsLineTerminator(s[1]);
  }

  lemma ConcatOne(g: string)
    ensures Concat([g]) == g
  {
    assert [g][1..] == [];
    assert Concat([g]) == g + "";
  }

  /** On a field without line terminators, the groups read in reverse order are the reference transform. */
  lemma {:induction false} ReversedPairsConcat(s: string)
    requires NoLineTerminator(s)
    ensures Concat(Reverse(MatchPairs(s))) == PairsReversed(s)
    decreases |s|
  {
    if s == [] {
    } else if |s| <= 2 {
      assert s[..|s|] == s && s[|s|..] == [];
      assert MatchPairs(s) == [s];
      assert Reverse([s]) == [s];
      ConcatOne(s);
    } else {
      var head, tail := s[..2], s[2..];
      var rest := MatchPairs(tail);
      MatchPairsFront(s);
      assert NoLineTerminator(tail);
      ReversedPairsConcat(tail);
      ReverseAppendOne(rest, head);
      ConcatAppend(Reverse(rest), [head]);
      ConcatOne(head);
      assert PairsReversed(s) == PairsReversed(tail) + head;
    }
  }

  /**
   * When field 7 exists, is not empty and has no line terminator, the chip
   * number is that field's 2-character groups in reverse order, each group
   * unchanged.
   */
  lemma ChipNumberReversesPairs(data: string)
    requires |Split(data, ';')| >= 8
    requires Split(data, ';')[7] != "" && NoLineTerminator(Split(data, ';')[7])
    ensures GetChipNumberFromDataString(data) == Ok(PairsReversed(Split(data, ';')[7]))
  {
    var field := Split(data, ';')[7];
    var pairs := MatchPairs(field);
    assert pairs != [] by {
      assert pairs == (if |field| >= 2 then [field[..2]] + MatchPairs(field[2..]) else [field[..1]] + MatchPairs(field[1..]));
    }
    ReverseWithinPairIsIdentity(Reverse(pairs));
    ReversedPairsConcat(field);
  }

  /**
   * A missing field 7, or one in which `/.{1,2}/g` finds no group (empty, or
   * made only of line terminators), fails with the errors the source raises.
   */
  lemma ChipNumberFailures(data: string)
    ensures |Split(data, ';')| < 8 ==> GetChipNumberFromDataString(data) == Err(MissingFieldError)
    ensures |Split(data, ';')| >= 8 && MatchPairs(Split(data, ';')[7]) == [] ==> GetChipNumberFromDataString(data) == Err(ChipNumberError)
  {
  }

  /** For a field of even length the transform is an involution. */
  lemma {:induction false} PairsReversedAppend(a: string, b: string)
    requires |a| % 2 == 0
    ensures PairsReversed(a + b) == PairsReversed(b) + PairsReversed(a)
    decreases |a|
  {
    if a == [] {
      assert a + b == b;
    } else if |a + b| <= 2 {
      assert b == [] && a + b == a;
    } else {
      assert (a + b)[2..] == a[2..] + b && (a + b)[..2] == a[..2];
      PairsReversedAppend(a[2..], b);
      if |a| == 2 {
        assert a[2..] == [] && a[..2] == a;
      }
    }
  }

  lemma {:induction false} PairsReversedInvolution(s: string)
    requires |s| % 2 == 0
    ensures PairsReversed(PairsReversed(s)) == s
    decreases |s|
  {
    if |s| > 2 {
      PairsReversedInvolution(s[2..]);
      PairsReversedAppend(PairsReversed(s[2..]), s[..2]);
      assert s[..2] + s[2..] == s;
    }
  }

  lemma PairsReversedExampleTail()
    ensures PairsReversed("0100004000") == "0040000001"
  {
    assert PairsReversed("4000") == "0040" by { assert "4000"[2..] == "00" && "4000"[..2] == "40"; }
    assert PairsReversed("004000") == "004000" by { assert "004000"[2..] == "4000" && "004000"[..2] == "00"; }
    assert PairsReversed("00004000") == "00400000" by { assert "00004000"[2..] == "004000" && "00004000"[..2] == "00"; }
    assert "0100004000"[2..] == "00004000" && "0100004000"[..2] == "01";
  }

  lemma PairsReversedExampleMiddle()
    ensures PairsReversed("2D770100004000") == "0040000001772D"
  {
    PairsReversedExampleTail();
    assert PairsReversed("770100004000") == "004000000177" by { assert "770100004000"[2..] == "0100004000" && "770100004000"[..2] == "77"; }
    assert "2D770100004000"[2..] == "770100004000" && "2D770100004000"[..2] == "2D";
  }

  lemma PairsReversedExample()
    ensures PairsReversed("FB2D770100004000") == "0040000001772DFB"
  {
    PairsReversedExampleMiddle();
    assert "FB2D770100004000"[2..] == "2D770100004000" && "FB2D770100004000"[..2] == "FB";
  }

  lemma NoLineTerminatorAppend(a: string, b: string)
    requires NoLineTerminator(a) && NoLineTerminator(b)
    ensures NoLineTerminator(a + b)
  {
    forall k | 0 <= k < |a + b|
      ensures !IsLineTerminator((a + b)[k])
    {
      if k >= |a| {
        assert (a + b)[k] == b[k - |a|];
      }
    }
  }

  lemma ExampleFieldHasNoLineTerminator()
    ensures NoLineTerminator("FB2D770100004000")
  {
    var front, back := "FB2D7701", "00004000";
    assert NoLineTerminator(front) && NoLineTerminator(back);
    NoLineTerminatorAppend(front, back);
    assert front + back == "FB2D770100004000";
  }

  /** The example of the source's comment: a field 7 of "FB2D770100004000" gives "0040000001772DFB". */
  lemma ChipNumberExample(data: string)
    requires |Split(data, ';')| >= 8 && Split(data, ';')[7] == "FB2D770100004000"
    ensures GetChipNumberFromDataString(data) == Ok("0040000001772DFB")
  {
    ExampleFieldHasNoLineTerminator();
    ChipNumberReversesPairs(data);
    PairsReversedExample();
  }

  // ---------------------------------------------------------------------------
  // getCurrentDateTimeString
  // ---------------------------------------------------------------------------

  function Decimal(n: nat): string
  {
    NumberToString(n, 10)
  }

  /** `Y-M-D;h:m:s`, every number in plain decimal without padding, the month counted from 1. */
  function GetCurrentDateTimeString(now: LocalTime): string
  {
    var dateString := DateString(now);
    var timeString := TimeString(now);
    dateString + ";" + timeString
  }

  function DateString(now: LocalTime): string
  {
    Decimal(now.fullYear) + "-" + Decimal(now.month + 1) + "-" + Decimal(now.date)
  }

  function TimeString(now: LocalTime): string
  {
    Decimal(now.hours) + ":" + Decimal(now.minutes) + ":" + Decimal(now.seconds)
  }

  function Decimals(ns: seq<nat>): (parts: seq<string>)
    ensures |parts| == |ns|
  {
    seq(|ns|, k requires 0 <= k < |ns| => Decimal(ns[k]))
  }

  lemma {:induction false} ParseDecimalsRoundTrip(ns: seq<nat>)
    ensures ParseDecimals(Decimals(ns)) == Some(ns)
  {
    if ns != [] {
      assert Decimals(ns)[1..] == Decimals(ns[1..]);
      ParseDecimalsRoundTrip(ns[1..]);
      NumberToStringRoundTrip(ns[0], 10);
      assert [ns[0]] + ns[1..] == ns;
    }
  }

  function ParseDecimals(parts: seq<string>): Option<seq<nat>>
  {
    if parts == [] then Some([])
    else match (ParseNumber(parts[0], 10), ParseDecimals(parts[1..]))
      case (Some(v), Some(vs)) => Some([v] + vs)
      case _ => None
  }

  /** Reads a `Y-M-D;h:m:s` timestamp back into its six numbers, as a device would. */
  function ParseDateTime(s: string): Option<seq<nat>>
  {
    var halves := Split(s, ';');
    if |halves| != 2 then None
    else
      var date := Split(halves[0], '-');
      var time := Split(halves[1], ':');
      if |date| != 3 || |time| != 3 then None else ParseDecimals(date + time)
  }

  lemma NoSeparatorInDecimal(n: nat, sep: char)
    requires DigitValue(sep) >= 10
    ensures sep !in Decimal(n)
  {
    var s := Decimal(n);
    assert forall k :: 0 <= k < |s| ==> s[k] != sep;
  }

  /** Split at ';', the timestamp falls into its date and its time. */
  lemma DateTimeFields(now: LocalTime)
    ensures Split(GetCurrentDateTimeString(now), ';') == [DateString(now), TimeString(now)]
  {
    NoSeparatorInDecimal(now.fullYear, ';');
    NoSeparatorInDecimal(now.month + 1, ';');
    NoSeparatorInDecimal(now.date, ';');
    NoSeparatorInDecimal(now.hours, ';');
    NoSeparatorInDecimal(now.minutes, ';');
    NoSeparatorInDecimal(now.seconds, ';');
    SplitWithoutSeparator(DateString(now), ';');
    SplitWithoutSeparator(TimeString(now), ';');
    SplitAtSeparator(DateString(now), TimeString(now), ';');
  }

  lemma ThreeFields(a: string, b: string, c: string, sep: char)
    requires sep !in a && sep !in b && sep !in c
    ensures Split(a + [sep] + b + [sep] + c, sep) == [a, b, c]
  {
    SplitWithoutSeparator(a, sep);
    SplitWithoutSeparator(b, sep);
    SplitWithoutSeparator(c, sep);
    SplitAtSeparator(a, b, sep);
    SplitAtSeparator(a + [sep] + b, c, sep);
  }

  /**
   * Parsing the timestamp gives back the year, the month plus one, the day,
   * hours, minutes and seconds.
   */
  lemma DateTimeRoundTrip(now: LocalTime)
    ensures ParseDateTime(GetCurrentDateTimeString(now))
         == Some([now.fullYear, now.month + 1, now.date, now.hours, now.minutes, now.seconds])
  {
    DateTimeFields(now);
    DateFields(now);
    TimeFields(now);
    var ns := [now.fullYear, now.month + 1, now.date, now.hours, now.minutes, now.seconds];
    assert Split(DateString(now), '-') + Split(TimeString(now), ':') == Decimals(ns);
    ParseDecimalsRoundTrip(ns);
  }

  lemma DateFields(now: LocalTime)
    ensures Split(DateString(now), '-') == [Decimal(now.fullYear), Decimal(now.month + 1), Decimal(now.date)]
  {
    NoSeparatorInDecimal(now.fullYear, '-');
    NoSeparatorInDecimal(now.month + 1, '-');
    NoSeparatorInDecimal(now.date, '-');
    ThreeFields(Decimal(now.fullYear), Decimal(now.month + 1), Decimal(now.date), '-');
  }

  lemma TimeFields(now: LocalTime)
    ensures Split(TimeString(now), ':') == [Decimal(now.hours), Decimal(now.minutes), Decimal(now.seconds)]
  {
    NoSeparatorInDecimal(now.hours, ':');
    NoSeparatorInDecimal(now.minutes, ':');
    NoSeparatorInDecimal(now.seconds, ':');
    ThreeFields(Decimal(now.hours), Decimal(now.minutes), Decimal(now.seconds), ':');
  }

  /** No number of the timestamp is zero-padded: a leading '0' only ever stands for zero itself. */
  lemma DecimalUnpadded(n: nat)
    ensures Decimal(n)[0] == '0' <==> Decimal(n) == "0"
  {
    if Decimal(n)[0] == '0' {
      assert n == 0;
    }
  }

  // ---------------------------------------------------------------------------
  // prepareResponseBuffer
  // ---------------------------------------------------------------------------

  predicate IsUpperHexDigit(c: char)
  {
    ('0' <= c <= '9') || ('A' <= c <= 'F')
  }

  lemma PowSixteenEight()
    ensures Pow(16, 8) == 0x1_0000_0000
  {
    assert Pow(16, 2) == 256;
    assert Pow(16, 4) == 256 * 256 by { assert Pow(16, 3) == 16 * 256; }
    assert Pow(16, 6) == 256 * 256 * 256 by { assert Pow(16, 5) == 16 * 256 * 256; }
    assert Pow(16, 7) == 16 * 256 * 256 * 256;
  }

  /** `crc32.toString(16).toUpperCase().padStart(8, '0')`: eight upper-case hexadecimal digits. */
  function CrcHex(crc: Crc32): (hex: string)
    ensures |hex| == CrcFieldLength
    ensures forall k :: 0 <= k < |hex| ==> IsUpperHexDigit(hex[k])
  {
    var digits := NumberToString(crc, 16);
    PowSixteenEight();
    NumberToStringLength(crc, 16, 8);
    PadStart(UpperCase(digits), 8, '0')
  }

  /** The CRC field reads back, in radix 16, as the checksum it was made from. */
  lemma CrcHexRoundTrip(crc: Crc32)
    ensures ParseNumber(CrcHex(crc), 16) == Some(crc)
  {
    var digits := NumberToString(crc, 16);
    var upper := UpperCase(digits);
    NumberToStringRoundTrip(crc, 16);
    DigitsValueOfSameDigits(digits, upper, 16);
    PadStartValue(upper, 8, 16);
    assert CrcHex(crc) == PadStart(upper, 8, '0');
  }

  /**
   * The text of an acknowledgement between the start marker and the CRC
   * field: version "1", kind "R", the client MAC, the packet index, the
   * timestamp, four empty transponder fields, three empty barcode fields,
   * then the response part, which echoes the server MAC and the packet index.
   */
  function AckBody(serverMac: string, packetIndex: string, dateTime: string): string
  {
    RequestPart(packetIndex, dateTime) + ";" + ResponsePart(serverMac, packetIndex)
  }

  function RequestPart(packetIndex: string, dateTime: string): string
  {
    "1" + ";" + "R" + ";" + ClientMacAddress + ";" + packetIndex + ";" + dateTime
  }

  function ResponsePart(serverMac: string, packetIndex: string): string
  {
    ";;;;" + ";;;" + serverMac + ";" + packetIndex + ";;;"
  }

  /** The whole frame: STX, the body, the CRC of the body's bytes in hexadecimal, ETX. */
  function AckFrame(body: string, crc32Calc: seq<Byte> -> Crc32): (frame: seq<Byte>)
    ensures |frame| == |body| + CrcFieldLength + 2
  {
    [STX] + AsciiEncode(body) + AsciiEncode(CrcHex(crc32Calc(AsciiEncode(body)))) + [ETX]
  }

  /**
   * What `prepareResponseBuffer` returns or throws. Fields 2 and 3 of the
   * masked data are the server MAC and the packet index; with fewer than four
   * fields, reading the length of field 3 is a `TypeError`. The frame is
   * written into a 128-byte buffer: a string written at an offset past its
   * end throws, one that only overruns it is cut short, and the end marker
   * needs a byte of its own.
   */
  function ResponseFrame(data: string, now: LocalTime, crc32Calc: seq<Byte> -> Crc32): (r: Result<seq<Byte>>)
    ensures r.Ok? ==> 10 <= |r.value| <= ResponseBufferSize && r.value[0] == STX && r.value[|r.value| - 1] == ETX
    ensures r.Err? ==> r.message in {MissingFieldError, WriteOutOfBoundsError, OutOfRangeError}
  {
    var fields := Split(CleanData(data), ';');
    if |fields| < 4 then Err(MissingFieldError)
    else
      WrittenFrame(AckBody(fields[2], fields[3], GetCurrentDateTimeString(now)), crc32Calc)
  }

  /** The frame for `body` as the 128-byte buffer lets it be written, or the RangeError it throws. */
  function WrittenFrame(body: string, crc32Calc: seq<Byte> -> Crc32): (r: Result<seq<Byte>>)
    ensures r.Ok? ==> 10 <= |r.value| <= ResponseBufferSize && r.value[0] == STX && r.value[|r.value| - 1] == ETX
  {
    var crcOffset := 1 + |body|;
    if crcOffset > ResponseBufferSize then Err(WriteOutOfBoundsError)
    else if crcOffset + CrcFieldLength >= ResponseBufferSize then Err(OutOfRangeError)
    else Ok(AckFrame(body, crc32Calc))
  }

  /** `b` after `buffer.write(s, offset, s.length, 'ascii')`: as many characters as fit, each as its low byte. */
  function AsciiWritten(b: seq<Byte>, s: string, offset: nat): (r: seq<Byte>)
    requires offset <= |b|
    ensures |r| == |b|
    ensures forall j :: 0 <= j < |b| ==> r[j] == if offset <= j < offset + |s| then CharByte(s[j - offset]) else b[j]
  {
    var n := Min(|s|, |b| - offset);
    b[..offset] + AsciiEncode(s[..n]) + b[offset + n..]
  }

  /** `buffer.write(s, offset, s.length, 'ascii')`; an offset past the end is a RangeError and writes nothing. */
  method WriteAscii(buffer: array<Byte>, s: string, offset: nat) returns (ok: bool)
    modifies buffer
    ensures ok <==> offset <= buffer.Length
    ensures ok ==> buffer[..] == AsciiWritten(old(buffer[..]), s, offset)
    ensures !ok ==> buffer[..] == old(buffer[..])
  {
    if offset > buffer.Length {
      return false;
    }
    var n := Min(|s|, buffer.Length - offset);
    var k := 0;
    while k < n
      invariant 0 <= k <= n
      invariant forall j :: 0 <= j < buffer.Length ==>
        buffer[j] == if offset <= j < offset + k then CharByte(s[j - offset]) else old(buffer[j])
    {
      buffer[offset + k] := CharByte(s[k]);
      k := k + 1;
    }
    assert buffer[..] == AsciiWritten(old(buffer[..]), s, offset);
    return true;
  }

  /**
   * One step of the acknowledgement: write `s` at the cursor and move the
   * cursor past it. While the cursor stays inside the buffer, the buffer up
   * to it holds STX and the text written so far.
   */
  method WritePiece(buffer: array<Byte>, i: nat, s: string, ghost text: string) returns (ok: bool, next: nat)
    modifies buffer
    requires i == 1 + |text|
    requires i <= buffer.Length ==> buffer[..i] == [STX] + AsciiEncode(text)
    ensures ok <==> i <= buffer.Length
    ensures ok ==> buffer[..] == AsciiWritten(old(buffer[..]), s, i)
    ensures !ok ==> buffer[..] == old(buffer[..])
    ensures next == 1 + |text + s|
    ensures next <= buffer.Length ==> buffer[..next] == [STX] + AsciiEncode(text + s)
  {
    ok := WriteAscii(buffer, s, i);
    next := i + |s|;
    if next <= buffer.Length {
      AsciiEncodeAppend(text, s);
      assert buffer[..next] == [STX] + AsciiEncode(text) + AsciiEncode(s);
    }
  }

  /** `prepareResponseBuffer`: the acknowledgement written step by step into a zeroed 128-byte buffer. */
  method PrepareResponseBuffer(data: string, now: LocalTime, crc32Calc: seq<Byte> -> Crc32)
    returns (r: Result<seq<Byte>>)
    ensures r == ResponseFrame(data, now, crc32Calc)
  {
    var cleanDataString := CleanData(data);
    var dataStringArray := Split(cleanDataString, ';');
    if |dataStringArray| < 4 {
      // the first use of field 3 reads the length of `undefined`
      return Err(MissingFieldError);
    }
    r := WriteAck(dataStringArray[2], dataStringArray[3], GetCurrentDateTimeString(now), crc32Calc);
  }

  /**
   * The writes of `prepareResponseBuffer` from the version to the timestamp,
   * each at the cursor, which then moves past it. It stops at the first write
   * whose offset lies past the end of the buffer.
   */
  method WriteRequestPart(buffer: array<Byte>, packetIndex: string, dateTimeString: string)
    returns (ok: bool, next: nat)
    modifies buffer
    requires buffer.Length >= 1 && buffer[0] == STX
    ensures ok <==> 1 + |RequestPart(packetIndex, dateTimeString)| <= buffer.Length
    ensures ok ==> next == 2 + |RequestPart(packetIndex, dateTimeString)|
    ensures ok && next <= buffer.Length ==> buffer[..next] == [STX] + AsciiEncode(RequestPart(packetIndex, dateTimeString) + ";")
  {
    assert buffer[..1] == [STX] + AsciiEncode("");
    next := 1;
    ghost var text := "";
    ok, next := WritePiece(buffer, next, "1", text);
    if !ok { return; }
    assert text + "1" == "1";
    text := "1";
    ok, next := WritePiece(buffer, next, ";", text);
    if !ok { return; }
    text := text + ";";
    ok, next := WritePiece(buffer, next, "R", text);
    if !ok { return; }
    text := text + "R";
    ok, next := WritePiece(buffer, next, ";", text);
    if !ok { return; }
    text := text + ";";
    ok, next := WritePiece(buffer, next, ClientMacAddress, text);
    if !ok { return; }
    text := text + ClientMacAddress;
    ok, next := WritePiece(buffer, next, ";", text);
    if !ok { return; }
    text := text + ";";
    ok, next := WritePiece(buffer, next, packetIndex, text);
    if !ok { return; }
    text := text + packetIndex;
    ok, next := WritePiece(buffer, next, ";", text);
    if !ok { return; }
    text := text + ";";
    ok, next := WritePiece(buffer, next, dateTimeString, text);
    if !ok { return; }
    text := text + dateTimeString;
    ok, next := WritePiece(buffer, next, ";", text);
    if !ok { return; }
    text := text + ";";
    assert text == RequestPart(packetIndex, dateTimeString) + ";";
  }

  /**
   * The writes from the empty transponder and barcode fields to the response
   * index, starting at cursor `i`, behind the text `text` already written.
   */
  method WriteResponsePart(buffer: array<Byte>, i: nat, serverMacAddress: string, packetIndex: string, ghost text: string)
    returns (ok: bool, next: nat)
    modifies buffer
    requires i == 1 + |text|
    requires i <= buffer.Length ==> buffer[..i] == [STX] + AsciiEncode(text)
    ensures ok <==> i + |ResponsePart(serverMacAddress, packetIndex)| - 3 <= buffer.Length
    ensures ok ==> next == i + |ResponsePart(serverMacAddress, packetIndex)|
    ensures ok && next <= buffer.Length ==> buffer[..next] == [STX] + AsciiEncode(text + ResponsePart(serverMacAddress, packetIndex))
  {
    assert |ResponsePart(serverMacAddress, packetIndex)| == 11 + |serverMacAddress| + |packetIndex|;
    ghost var written := text;
    next := i;
    ok, next := WritePiece(buffer, next, ";;;;", written);
    if !ok { return; }
    written := written + ";;;;";
    ok, next := WritePiece(buffer, next, ";;;", written);
    if !ok { return; }
    written := written + ";;;";
    ok, next := WritePiece(buffer, next, serverMacAddress, written);
    if !ok { return; }
    written := written + serverMacAddress;
    ok, next := WritePiece(buffer, next, ";", written);
    if !ok { return; }
    written := written + ";";
    ok, next := WritePiece(buffer, next, packetIndex, written);
    if !ok { return; }
    written := written + packetIndex;
    ok, next := WritePiece(buffer, next, ";;;", written);
    if !ok { return; }
    written := written + ";;;";
    ResponsePartAfter(text, serverMacAddress, packetIndex);
  }

  lemma ResponsePartAfter(text: string, serverMac: string, packetIndex: string)
    ensures text + ";;;;" + ";;;" + serverMac + ";" + packetIndex + ";;;" == text + ResponsePart(serverMac, packetIndex)
  {
  }

  /** The writes of `prepareResponseBuffer` once the fields are known. */
  method WriteAck(serverMacAddress: string, packetIndex: string, dateTimeString: string, crc32Calc: seq<Byte> -> Crc32)
    returns (r: Result<seq<Byte>>)
    ensures r == WrittenFrame(AckBody(serverMacAddress, packetIndex, dateTimeString), crc32Calc)
  {
    ghost var body := AckBody(serverMacAddress, packetIndex, dateTimeString);
    var responseBuffer := new Byte[ResponseBufferSize](_ => 0);
    var i: nat := 0;
    responseBuffer[i] := STX;
    i := i + 1;
    var ok;
    ok, i := WriteRequestPart(responseBuffer, packetIndex, dateTimeString);
    if !ok { return Err(WriteOutOfBoundsError); }
    ghost var text := RequestPart(packetIndex, dateTimeString) + ";";
    ok, i := WriteResponsePart(responseBuffer, i, serverMacAddress, packetIndex, text);
    if !ok { return Err(WriteOutOfBoundsError); }
    text := body;

    // the checksum covers the bytes after STX written so far
    var crc32 := crc32Calc(Slice(responseBuffer[..], 1, i));
    if i <= responseBuffer.Length {
      assert Slice(responseBuffer[..], 1, i) == responseBuffer[..i][1..] == AsciiEncode(body);
    }
    var hex := CrcHex(crc32);
    ok, i := WritePiece(responseBuffer, i, hex, text);
    if !ok { return Err(WriteOutOfBoundsError); }
    text := text + hex;

    // `writeUInt8` needs the whole byte inside the buffer
    if i + 1 > responseBuffer.Length {
      return Err(OutOfRangeError);
    }
    ghost var written := responseBuffer[..i];
    assert written == [STX] + AsciiEncode(text);
    AsciiEncodeAppend(body, hex);
    assert written == [STX] + AsciiEncode(body) + AsciiEncode(hex);
    responseBuffer[i] := ETX;
    assert responseBuffer[..i] == written;
    assert responseBuffer[..i + 1] == responseBuffer[..i] + [ETX];
    i := i + 1;
    r := Ok(responseBuffer[..i]);
  }

  // ---------------------------------------------------------------------------
  // What the acknowledgement says
  // ---------------------------------------------------------------------------

  /** The characters `cleanData` keeps are 7-bit and none of them is a frame marker. */
  lemma AllowedBytes(s: string)
    requires AllAllowed(s)
    ensures IsAscii(s)
    ensures STX !in AsciiEncode(s) && ETX !in AsciiEncode(s)
  {
    forall k | 0 <= k < |s| ensures 44 <= s[k] as int < 128 {
      assert s[k] in s;
    }
    var e := AsciiEncode(s);
    assert forall k :: 0 <= k < |e| ==> e[k] >= 44;
  }

  lemma HexBytes(hex: string)
    requires forall k :: 0 <= k < |hex| ==> IsUpperHexDigit(hex[k])
    ensures IsAscii(hex)
    ensures STX !in AsciiEncode(hex) && ETX !in AsciiEncode(hex)
  {
    var e := AsciiEncode(hex);
    assert forall k :: 0 <= k < |e| ==> e[k] >= 48;
  }

  /**
   * An acknowledgement whose text uses only the characters `cleanData`
   * keeps decodes, with `getDataWithoutHeadersAndCRC`, to that text.
   */
  lemma AckFrameReadable(body: string, crc32Calc: seq<Byte> -> Crc32)
    requires AllAllowed(body)
    ensures GetDataWithoutHeadersAndCrc(AckFrame(body, crc32Calc)) == body
  {
    var text := AsciiEncode(body);
    var hex := CrcHex(crc32Calc(text));
    var crc := AsciiEncode(hex);
    AllowedBytes(body);
    HexBytes(hex);
    var frame := [STX] + text + crc + [ETX];
    assert frame == AckFrame(body, crc32Calc);
    var e := |frame| - 1;
    var inside := [STX] + text + crc;
    assert frame[..e] == inside;
    assert ETX !in inside;
    assert frame[..0] == [];
    PayloadBetweenMarkers(frame, 0, e);
    assert frame[1..e - 8] == text;
    AsciiRoundTrip(body);
  }

  /** The CRC field of an acknowledgement reads back as the checksum of the bytes between STX and that field. */
  lemma AckFrameCrc(body: string, crc32Calc: seq<Byte> -> Crc32)
    ensures var frame := AckFrame(body, crc32Calc);
      ParseNumber(AsciiDecode(frame[|frame| - 9..|frame| - 1]), 16) == Some(crc32Calc(frame[1..|frame| - 9]))
  {
    var crc := crc32Calc(AsciiEncode(body));
    var hex := CrcHex(crc);
    var frame := AckFrame(body, crc32Calc);
    assert frame[|frame| - 9..|frame| - 1] == AsciiEncode(hex);
    assert frame[1..|frame| - 9] == AsciiEncode(body);
    HexBytes(hex);
    AsciiRoundTrip(hex);
    CrcHexRoundTrip(crc);
  }

  /** The `;`-fields of the request half: version, kind, client MAC, index, date, time. */
  lemma RequestPartFields(packetIndex: string, now: LocalTime)
    requires ';' !in packetIndex
    ensures Split(RequestPart(packetIndex, GetCurrentDateTimeString(now)), ';')
         == ["1", "R", ClientMacAddress, packetIndex, DateString(now), TimeString(now)]
  {
    var date, time := DateString(now), TimeString(now);
    DateTimeFields(now);
    assert date == Split(GetCurrentDateTimeString(now), ';')[0];
    assert time == Split(GetCurrentDateTimeString(now), ';')[1];
    var p1 := "1";
    SplitWithoutSeparator(p1, ';');
    var p2 := p1 + [';'] + "R";
    SplitSnoc(p1, "R", ';');
    assert Split(p2, ';') == ["1", "R"];
    var p3 := p2 + [';'] + ClientMacAddress;
    SplitSnoc(p2, ClientMacAddress, ';');
    assert Split(p3, ';') == ["1", "R", ClientMacAddress];
    var p4 := p3 + [';'] + packetIndex;
    SplitSnoc(p3, packetIndex, ';');
    assert Split(p4, ';') == ["1", "R", ClientMacAddress, packetIndex];
    var p5 := p4 + [';'] + date;
    SplitSnoc(p4, date, ';');
    assert Split(p5, ';') == ["1", "R", ClientMacAddress, packetIndex, date];
    SplitSnoc(p5, time, ';');
    assert GetCurrentDateTimeString(now) == date + [';'] + time;
    assert RequestPart(packetIndex, GetCurrentDateTimeString(now)) == p4 + [';'] + (date + [';'] + time);
    assert p4 + [';'] + (date + [';'] + time) == p5 + [';'] + time;
  }

  /** The `;`-fields of the response half: seven empty ones, the server MAC, the index, three empty ones. */
  lemma ResponsePartFields(serverMac: string, packetIndex: string)
    requires ';' !in serverMac && ';' !in packetIndex
    ensures Split(ResponsePart(serverMac, packetIndex), ';')
         == ["", "", "", "", "", "", "", serverMac, packetIndex, "", "", ""]
  {
    var six, two := seq(6, _ => ';'), seq(2, _ => ';');
    assert ResponsePart(serverMac, packetIndex) == six + [';'] + serverMac + [';'] + packetIndex + [';'] + two;
    SplitSeparators(6, ';');
    SplitSeparators(2, ';');
    SplitSnoc(six, serverMac, ';');
    SplitSnoc(six + [';'] + serverMac, packetIndex, ';');
    SplitAtSeparator(six + [';'] + serverMac + [';'] + packetIndex, two, ';');
  }

  /** The 18 `;`-fields of an acknowledgement's text. */
  lemma AckBodyFields(serverMac: string, packetIndex: string, now: LocalTime)
    requires ';' !in serverMac && ';' !in packetIndex
    ensures Split(AckBody(serverMac, packetIndex, GetCurrentDateTimeString(now)), ';')
         == ["1", "R", ClientMacAddress, packetIndex, DateString(now), TimeString(now),
             "", "", "", "", "", "", "", serverMac, packetIndex, "", "", ""]
  {
    RequestPartFields(packetIndex, now);
    ResponsePartFields(serverMac, packetIndex);
    SplitAtSeparator(RequestPart(packetIndex, GetCurrentDateTimeString(now)), ResponsePart(serverMac, packetIndex), ';');
  }

  /** The fields of masked data hold only the characters `cleanData` keeps. */
  lemma CleanFieldsAllowed(data: string)
    ensures forall k :: 0 <= k < |Split(CleanData(data), ';')| ==> AllAllowed(Split(CleanData(data), ';')[k])
  {
    SplitFieldChars(CleanData(data), ';');
  }

  lemma AckBodyAllowed(serverMac: string, packetIndex: string, now: LocalTime)
    requires AllAllowed(serverMac) && AllAllowed(packetIndex)
    ensures AllAllowed(AckBody(serverMac, packetIndex, GetCurrentDateTimeString(now)))
  {
    DateTimeAllowed(now);
  }

  /**
   * What the device reads back from an acknowledgement: the payload, split at
   * ';', is the 18 fields with the packet index at 3 and 14, the server MAC at
   * 13 and the date and time at 4 and 5; the CRC field is the checksum of the
   * payload's bytes.
   */
  lemma AckFrameEchoes(serverMac: string, packetIndex: string, now: LocalTime, crc32Calc: seq<Byte> -> Crc32)
    requires AllAllowed(serverMac) && AllAllowed(packetIndex)
    requires ';' !in serverMac && ';' !in packetIndex
    ensures var frame := AckFrame(AckBody(serverMac, packetIndex, GetCurrentDateTimeString(now)), crc32Calc);
      var ack := Split(GetDataWithoutHeadersAndCrc(frame), ';');
      |ack| == 18 && ack[2] == ClientMacAddress && ack[3] == packetIndex && ack[4] == DateString(now)
      && ack[5] == TimeString(now) && ack[13] == serverMac && ack[14] == packetIndex
      && ParseNumber(AsciiDecode(frame[|frame| - 9..|frame| - 1]), 16) == Some(crc32Calc(frame[1..|frame| - 9]))
  {
    var body := AckBody(serverMac, packetIndex, GetCurrentDateTimeString(now));
    AckBodyAllowed(serverMac, packetIndex, now);
    AckFrameReadable(body, crc32Calc);
    AckFrameCrc(body, crc32Calc);
    AckBodyFields(serverMac, packetIndex, now);
    FieldsAt(Split(body, ';'), serverMac, packetIndex, now);
  }

  lemma FieldsAt(ack: seq<string>, serverMac: string, packetIndex: string, now: LocalTime)
    requires ack == ["1", "R", ClientMacAddress, packetIndex, DateString(now), TimeString(now),
                     "", "", "", "", "", "", "", serverMac, packetIndex, "", "", ""]
    ensures |ack| == 18 && ack[2] == ClientMacAddress && ack[3] == packetIndex && ack[4] == DateString(now)
      && ack[5] == TimeString(now) && ack[13] == serverMac && ack[14] == packetIndex
  {
  }

  /** A frame `prepareResponseBuffer` returns is the acknowledgement of fields 2 and 3 of the masked data. */
  lemma ResponseFrameIsAck(data: string, now: LocalTime, crc32Calc: seq<Byte> -> Crc32)
    requires ResponseFrame(data, now, crc32Calc).Ok?
    ensures var fields := Split(CleanData(data), ';');
      |fields| >= 4
      && ResponseFrame(data, now, crc32Calc).value == AckFrame(AckBody(fields[2], fields[3], GetCurrentDateTimeString(now)), crc32Calc)
  {
  }

  /**
   * The acknowledgement echoes the packet it answers: field 3 and field 14 of
   * what the device reads back are the packet index of the data, field 13 its
   * server MAC.
   */
  lemma ResponseEchoesPacket(data: string, now: LocalTime, crc32Calc: seq<Byte> -> Crc32)
    requires ResponseFrame(data, now, crc32Calc).Ok?
    ensures var fields := Split(CleanData(data), ';');
      var ack := Split(GetDataWithoutHeadersAndCrc(ResponseFrame(data, now, crc32Calc).value), ';');
      |ack| == 18 && ack[3] == fields[3] && ack[13] == fields[2] && ack[14] == fields[3]
  {
    var fields := Split(CleanData(data), ';');
    ResponseFrameIsAck(data, now, crc32Calc);
    CleanFieldsAllowed(data);
    AckFrameEchoes(fields[2], fields[3], now, crc32Calc);
  }

  lemma DecimalAllowed(n: nat)
    ensures AllAllowed(Decimal(n))
  {
    var s := Decimal(n);
    assert forall k :: 0 <= k < |s| ==> DigitValue(s[k]) < 10;
  }

  /** The timestamp is made of digits, '-', ';' and ':', all kept by `cleanData`. */
  lemma DateTimeAllowed(now: LocalTime)
    ensures AllAllowed(GetCurrentDateTimeString(now))
  {
    DecimalAllowed(now.fullYear);
    DecimalAllowed(now.month + 1);
    DecimalAllowed(now.date);
    DecimalAllowed(now.hours);
    DecimalAllowed(now.minutes);
    DecimalAllowed(now.seconds);
  }
}
