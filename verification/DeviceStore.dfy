/**
  The stored record of a HID device: one line of text per device, written by a formatted print and read back
  by a formatted scan.
 */
module DeviceStore {
  import opened Bytes
  import opened CText
  import EpoxQuirk

  type uint16 = x: int | 0 <= x < 0x1_0000
  type uint32 = x: int | 0 <= x < 0x1_0000_0000

  /** The fields of a connection request that the store keeps. The name lives in a buffer of 128
      characters, terminator included. */
  datatype Record = Record(vendor: uint16, product: uint16, version: uint16, subclass: byte, country: byte,
                           parser: uint16, data: seq<byte>, flags: uint32, name: cstring)
  {
    predicate Valid() { |data| < 0x1_0000 && |name| <= 127 }
  }

  /** The request, whose fields both operations work on in place. The descriptor is the first `rdSize` bytes of `rdData`. */
  class ConnaddReq {
    var vendor: uint16
    var product: uint16
    var version: uint16
    var subclass: byte
    var country: byte
    var parser: uint16
    var rdSize: uint16
    var rdData: array?<byte>
    var flags: uint32
    var name: cstring

    ghost predicate Valid()
      reads this
    {
      |name| <= 127 && (rdData != null ==> rdSize <= rdData.Length)
    }

    /** There are `rdSize` bytes to read. An allocation that failed may leave a size without any. */
    predicate Readable()
      reads this
    {
      rdData != null || rdSize == 0
    }

    ghost function Contents(): Record
      reads this, rdData
      requires Valid()
    {
      Record(vendor, product, version, subclass, country, parser, if rdData == null then [] else rdData[..rdSize], flags, name)
    }

    constructor (vendor: uint16, product: uint16, version: uint16, subclass: byte, country: byte, parser: uint16,
                 rdData: array<byte>, flags: uint32, name: cstring)
      requires rdData.Length < 0x1_0000 && |name| <= 127
      ensures Valid() && Readable() && this.rdData == rdData
      ensures Contents() == Record(vendor, product, version, subclass, country, parser, rdData[..], flags, name)
    {
      assert rdData[..rdData.Length] == rdData[..];
      this.vendor, this.product, this.version := vendor, product, version;
      this.subclass, this.country, this.parser := subclass, country, parser;
      this.rdSize, this.rdData, this.flags, this.name := rdData.Length, rdData, flags, name;
    }
  }

  const ENOMEM := 12
  const EIO := 5

  // ---------------------------------------------------------------------------------------------
  // Writing.

  function Digits(data: seq<byte>): string {
    if data == [] then "" else Digits(data[..|data| - 1]) + PrintHex(data[|data| - 1], 2)
  }

  /** The fixed-width head of a line, then the rest. */
  function Head(r: Record, rest: string): string {
    PrintHex(r.vendor, 4) + (":" + (PrintHex(r.product, 4) + (":" + (PrintHex(r.version, 4) + (" "
      + (PrintHex(r.subclass, 2) + (" " + (PrintHex(r.country, 2) + (" " + (PrintHex(r.parser, 4) + (" " + rest)))))))))))
  }

  /** The line for a record whose descriptor prints as `desc`. */
  function Format(r: Record, desc: string): string {
    Head(r, desc + (" " + (PrintHex(r.flags, 8) + (" " + r.name))))
  }

  /** The whole line of a record. */
  function Line(r: Record): string {
    Format(r, Digits(r.data))
  }

  /** The line `s` shows the record `r`, place by place. */
  predicate Laid(s: string, r: Record) {
    var end := 26 + 2 * |r.data|;
    && |s| == end + 10 + |r.name|
    && ShowsFour(s, 0, r.vendor) && s[4] == ':' && ShowsFour(s, 5, r.product) && s[9] == ':' && ShowsFour(s, 10, r.version)
    && s[14] == ' ' && ShowsTwo(s, 15, r.subclass) && s[17] == ' ' && ShowsTwo(s, 18, r.country)
    && s[20] == ' ' && ShowsFour(s, 21, r.parser) && s[25] == ' '
    && (forall k :: 0 <= k < |r.data| ==> ShowsTwo(s, 26 + 2 * k, r.data[k]))
    && s[end] == ' ' && ShowsEight(s, end + 1, r.flags) && s[end + 9] == ' ' && s[end + 10..] == r.name
  }

  /** The C string that starts a buffer. */
  function UpToTerminator(s: string): string {
    if s == "" || s[0] == '\0' then "" else [s[0]] + UpToTerminator(s[1..])
  }

  datatype Stored = StoredLine(line: string) | Failed(err: int)

  lemma DigitsGrow(data: seq<byte>, i: nat)
    requires i < |data|
    ensures Digits(data[..i + 1]) == Digits(data[..i]) + PrintHex(data[i], 2)
  {
    assert data[..i + 1][..i] == data[..i];
  }

  /** One more byte behind what is printed. */
  method PrintOne(desc: array<char>, at: nat, b: byte, ghost printed: string)
    requires at + 2 < desc.Length && desc[..at] == printed
    modifies desc
    ensures |PrintHex(b, 2)| == 2 && desc[..at + 2] == printed + PrintHex(b, 2) && desc[at + 2] == '\0'
  {
    hide PrintHex;
    SprintByte(desc, at, b);
    assert desc[..at + 2] == desc[..][..at + 2] && desc[at + 2] == desc[..][at + 2];
  }

  /** Prints the bytes pair by pair into the buffer, each with a terminator the next overwrites. */
  method PrintPairs(desc: array<char>, rdSize: nat, rdData: array?<byte>, ghost data: seq<byte>)
    requires rdData != null ==> rdSize <= rdData.Length
    requires |data| == rdSize && (rdSize > 0 ==> rdData != null && data == rdData[..rdSize])
    requires desc.Length == rdSize * 2 + 1 && desc[0] == '\0'
    modifies desc
    ensures desc[..] == Digits(data) + ['\0']
  {
    assert Digits(data[..0]) == "";
    hide Digits, PrintHex;
    var i := 0;
    while i < rdSize
      invariant 0 <= i <= rdSize
      invariant |Digits(data[..i])| == 2 * i
      invariant desc[..2 * i] == Digits(data[..i]) && desc[2 * i] == '\0'
    {
      PrintOne(desc, i * 2, rdData[i], Digits(data[..i]));
      DigitsGrow(data, i);
      i := i + 1;
    }
    assert data[..i] == data && desc[..] == desc[..2 * i] + [desc[2 * i]];
  }

  /** The descriptor as text, in a zeroed buffer. */
  method PrintDescriptor(rdSize: nat, rdData: array?<byte>) returns (desc: array<char>)
    requires if rdData == null then rdSize == 0 else rdSize <= rdData.Length
    ensures fresh(desc) && UpToTerminator(desc[..]) == Digits(if rdData == null then [] else rdData[..rdSize])
    ensures desc.Length == 2 * rdSize + 1 && desc[2 * rdSize] == '\0'
    ensures forall k :: 0 <= k < rdSize ==> ShowsTwo(desc[..], 2 * k, rdData[k])
  {
    desc := new char[rdSize * 2 + 1](_ => '\0');
    ghost var data := if rdData == null then [] else rdData[..rdSize];
    PrintPairs(desc, rdSize, rdData, data);
    DigitsAreHex(data);
    ExactTerminator(Digits(data));
    assert desc[2 * rdSize] == desc[..][2 * rdSize];
    forall k | 0 <= k < rdSize ensures ShowsTwo(desc[..], 2 * k, rdData[k]) {
      DigitsShow(data, "\0", k);
    }
  }

  /** Formats the request and hands the line to the text file. The two flags are the outcomes of the two
      allocations. */
  method StoreDeviceInfo(req: ConnaddReq, strAllocated: bool, descAllocated: bool) returns (r: Stored)
    requires req.Valid() && req.Readable()
    ensures strAllocated && descAllocated ==> r == StoredLine(Line(req.Contents())) && Laid(r.line, req.Contents())
    ensures !strAllocated || !descAllocated ==> r == Failed(-12)
  {
    hide Laid, Digits;
    var size := 15 + 3 + 3 + 5 + (req.rdSize * 2) + 1 + 9 + |req.name| + 2;
    if !strAllocated {
      return Failed(-ENOMEM);
    }
    if !descAllocated {
      return Failed(-ENOMEM);
    }
    var desc := PrintDescriptor(req.rdSize, req.rdData);
    LineLength(req.Contents());
    LineLaid(req.Contents());
    var line := Format(Record(req.vendor, req.product, req.version, req.subclass, req.country, req.parser, [],
                              req.flags, req.name), UpToTerminator(desc[..]));
    r := StoredLine(Snprintf(size - 1, line));
  }

  /** Prints one byte as two digits and a terminator into a character buffer. */
  method SprintByte(desc: array<char>, at: nat, b: byte)
    requires at + 2 < desc.Length
    modifies desc
    ensures |PrintHex(b, 2)| == 2
    ensures desc[..] == old(desc[..at]) + PrintHex(b, 2) + ['\0'] + old(desc[at + 3..])
  {
    var pair := PrintHex(b, 2);
    PrintedReadsBack(b, 2);
    desc[at] := pair[0];
    desc[at + 1] := pair[1];
    desc[at + 2] := '\0';
  }

  lemma {:induction false} ExactTerminator(s: string)
    requires '\0' !in s
    ensures UpToTerminator(s + ['\0']) == s
  {
    if s != "" {
      assert (s + ['\0'])[1..] == s[1..] + ['\0'];
      ExactTerminator(s[1..]);
    }
  }

  lemma {:induction false} DigitsAreHex(data: seq<byte>)
    ensures |Digits(data)| == 2 * |data| && AllHex(Digits(data)) && '\0' !in Digits(data)
  {
    if data != [] {
      DigitsAreHex(data[..|data| - 1]);
      PrintedReadsBack(data[|data| - 1], 2);
      HexIsNotNul(PrintHex(data[|data| - 1], 2));
    }
  }

  lemma HexIsNotNul(s: string)
    requires AllHex(s)
    ensures '\0' !in s
  {}

  lemma PrintedLength(n: nat, width: nat)
    requires 0 < width <= 8 && n < Pow16(width)
    ensures |PrintHex(n, width)| == width
  {
    PrintedReadsBack(n, width);
  }

  /** The formatted line fits the allocated buffer to the last character: two less than the size computed
      for the allocation, one less than the bound given to the print. */
  lemma LineLength(r: Record)
    ensures |Line(r)| == 36 + 2 * |r.data| + |r.name|
    ensures var size := 15 + 3 + 3 + 5 + (|r.data| * 2) + 1 + 9 + |r.name| + 2;
            |Line(r)| == size - 2 && Snprintf(size - 1, Line(r)) == Line(r)
  {
    assert Pow16(2) == 0x100 && Pow16(4) == 0x1_0000 && Pow16(8) == 0x1_0000_0000;
    PrintedLength(r.vendor, 4);
    PrintedLength(r.product, 4);
    PrintedLength(r.version, 4);
    PrintedLength(r.subclass, 2);
    PrintedLength(r.country, 2);
    PrintedLength(r.parser, 4);
    PrintedLength(r.flags, 8);
    DigitsAreHex(r.data);
  }

  lemma SkipShown(p: string, s: string, at: nat, n: int)
    ensures ShowsTwo(s, at, n) ==> ShowsTwo(p + s, |p| + at, n)
    ensures ShowsFour(s, at, n) ==> ShowsFour(p + s, |p| + at, n)
    ensures ShowsEight(s, at, n) ==> ShowsEight(p + s, |p| + at, n)
  {}

  lemma {:induction false} DigitsShow(data: seq<byte>, rest: string, k: nat)
    requires k < |data|
    ensures |Digits(data)| == 2 * |data| && ShowsTwo(Digits(data) + rest, 2 * k, data[k])
    decreases |data|
  {
    hide PrintHex, ShowsTwo;
    DigitsAreHex(data);
    var n := |data| - 1;
    DigitsAreHex(data[..n]);
    var p, x := Digits(data[..n]), PrintHex(data[n], 2);
    assert Digits(data) + rest == p + (x + rest);
    if k == n {
      PrintsTwo(data[n], rest);
      SkipShown(p, x + rest, 0, data[n]);
    } else {
      DigitsShow(data[..n], x + rest, k);
    }
  }

  /** The line behind the head, by places. */
  lemma RestLaid(r: Record)
    ensures var s, end := Digits(r.data) + (" " + (PrintHex(r.flags, 8) + (" " + r.name))), 2 * |r.data|;
            && |s| == end + 10 + |r.name|
            && (forall k :: 0 <= k < |r.data| ==> ShowsTwo(s, 2 * k, r.data[k]))
            && s[end] == ' ' && ShowsEight(s, end + 1, r.flags) && s[end + 9] == ' ' && s[end + 10..] == r.name
  {
    hide PrintHex, Digits, ShowsTwo, ShowsEight;
    DigitsAreHex(r.data);
    PrintsEight(r.flags, " " + r.name);
    var p, x, tail := Digits(r.data), PrintHex(r.flags, 8), " " + r.name;
    var s := p + (" " + (x + tail));
    assert s == (p + " ") + (x + tail);
    SkipShown(p + " ", x + tail, 0, r.flags);
    forall k | 0 <= k < |r.data| ensures ShowsTwo(s, 2 * k, r.data[k]) {
      DigitsShow(r.data, " " + (x + tail), k);
    }
    assert (x + tail)[8..] == tail && s[|p| + 1..] == x + tail;
  }

  /** One field and the character behind it, then the rest. */
  lemma FieldLaid(n: nat, width: nat, c: char, s: string)
    requires (width == 2 && n < 0x100) || (width == 4 && n < 0x1_0000)
    ensures var t := PrintHex(n, width) + ([c] + s);
            && |t| == width + 1 + |s| && t[width] == c && t[width + 1..] == s
            && (if width == 2 then ShowsTwo(t, 0, n) else ShowsFour(t, 0, n))
  {
    hide PrintHex;
    if width == 2 {
      PrintsTwo(n, [c] + s);
    } else {
      PrintsFour(n, [c] + s);
    }
  }

  lemma HeadLaid(r: Record, rest: string)
    ensures var s := Head(r, rest);
            && |s| == 26 + |rest| && s[26..] == rest
            && ShowsFour(s, 0, r.vendor) && s[4] == ':' && ShowsFour(s, 5, r.product) && s[9] == ':' && ShowsFour(s, 10, r.version)
            && s[14] == ' ' && ShowsTwo(s, 15, r.subclass) && s[17] == ' ' && ShowsTwo(s, 18, r.country)
            && s[20] == ' ' && ShowsFour(s, 21, r.parser) && s[25] == ' '
  {
    hide PrintHex;
    var t5 := PrintHex(r.parser, 4) + (" " + rest);
    var t4 := PrintHex(r.country, 2) + (" " + t5);
    var t3 := PrintHex(r.subclass, 2) + (" " + t4);
    var t2 := PrintHex(r.version, 4) + (" " + t3);
    var t1 := PrintHex(r.product, 4) + (":" + t2);
    var s := PrintHex(r.vendor, 4) + (":" + t1);
    FieldLaid(r.parser, 4, ' ', rest);
    FieldLaid(r.country, 2, ' ', t5);
    FieldLaid(r.subclass, 2, ' ', t4);
    FieldLaid(r.version, 4, ' ', t3);
    FieldLaid(r.product, 4, ':', t2);
    FieldLaid(r.vendor, 4, ':', t1);
    assert s == Head(r, rest);
    assert s[5..] == t1 && s[10..] == t2 && s[15..] == t3 && s[18..] == t4 && s[21..] == t5 && s[26..] == rest;
  }

  /** The stored line shows the record. */
  lemma LineLaid(r: Record)
    ensures Laid(Line(r), r)
  {
    hide Head, Digits, PrintHex, ShowsTwo, ShowsFour, ShowsEight;
    var rest := Digits(r.data) + (" " + (PrintHex(r.flags, 8) + (" " + r.name)));
    var s := Line(r);
    HeadLaid(r, rest);
    RestLaid(r);
    assert s == s[..26] + rest;
    forall k | 0 <= k < |r.data| ensures ShowsTwo(s, 26 + 2 * k, r.data[k]) {
      SkipShown(s[..26], rest, 2 * k, r.data[k]);
    }
    SkipShown(s[..26], rest, 2 * |r.data| + 1, r.flags);
    assert rest[2 * |r.data| + 10..] == s[26 + 2 * |r.data| + 10..];
  }

  lemma ShownOnce(c: char, e: char, d: int)
    requires Shows(c, d) && Shows(e, d)
    ensures c == e
  {}

  lemma TwoOnce(s: string, t: string, at: nat, n: int)
    requires ShowsTwo(s, at, n) && ShowsTwo(t, at, n)
    ensures s[at] == t[at] && s[at + 1] == t[at + 1]
  {
    ShownOnce(s[at], t[at], n / 16);
    ShownOnce(s[at + 1], t[at + 1], n % 16);
  }

  lemma FourOnce(s: string, t: string, at: nat, n: int)
    requires ShowsFour(s, at, n) && ShowsFour(t, at, n)
    ensures forall p :: at <= p < at + 4 ==> p < |s| && p < |t| && s[p] == t[p]
  {
    TwoOnce(s, t, at, n / 256);
    TwoOnce(s, t, at + 2, n % 256);
  }

  lemma LaidOnce(s: string, t: string, r: Record, p: nat)
    requires Laid(s, r) && Laid(t, r) && p < |s|
    ensures s[p] == t[p]
  {
    hide ShowsTwo, ShowsFour;
    var end := 26 + 2 * |r.data|;
    if p < 26 {
      FourOnce(s, t, 0, r.vendor);
      FourOnce(s, t, 5, r.product);
      FourOnce(s, t, 10, r.version);
      TwoOnce(s, t, 15, r.subclass);
      TwoOnce(s, t, 18, r.country);
      FourOnce(s, t, 21, r.parser);
    } else if p < end {
      TwoOnce(s, t, 26 + 2 * ((p - 26) / 2), r.data[(p - 26) / 2]);
    } else if p < end + 10 {
      FourOnce(s, t, end + 1, r.flags / 0x1_0000);
      FourOnce(s, t, end + 5, r.flags % 0x1_0000);
    } else {
      assert s[p] == s[end + 10..][p - end - 10] && t[p] == t[end + 10..][p - end - 10];
    }
  }

  /** The stored line shows the record, place by place, and no other line does. */
  lemma LaidIff(s: string, r: Record)
    ensures Laid(s, r) <==> s == Line(r)
  {
    LineLaid(r);
    if Laid(s, r) {
      forall p: nat | p < |s| ensures s[p] == Line(r)[p] {
        LaidOnce(s, Line(r), r, p);
      }
    }
  }

  // ---------------------------------------------------------------------------------------------
  // Reading.

  const LINE_FORMAT := [Hex(4), Lit(':'), Hex(4), Lit(':'), Hex(4), Space, Hex(2), Space, Hex(2), Space, Hex(4), Space,
                        Word(4095), Space, Hex(8), Space, Position]

  /** What a line gives back. A field the scan did not reach is `None`: the flags then keep their old value,
      the others are indeterminate. */
  datatype Parsed = Parsed(vendor: Option<uint16>, product: Option<uint16>, version: Option<uint16>,
                           subclass: Option<byte>, country: Option<byte>, parser: Option<uint16>,
                           data: seq<byte>, flags: Option<uint32>, name: Option<string>)

  function NumberAt(values: seq<Value>, k: nat): Option<nat> {
    if k < |values| && values[k].Number? then Some(values[k].n) else None
  }

  function Truncated(n: Option<nat>, modulus: nat): (r: Option<nat>)
    requires 0 < modulus
    ensures r.Some? ==> r.value < modulus
  {
    match n
    case None => None
    case Some(v) => Some(v % modulus)
  }

  function ToByte(p: string): byte
    requires |p| == 2
  {
    PairValue(p) % 256
  }

  /** The bytes of a string of digit pairs; an odd last digit is dropped. */
  function Pairs(desc: string): (data: seq<byte>)
    ensures |data| == |desc| / 2
  {
    if |desc| < 2 then [] else [ToByte(desc[..2])] + Pairs(desc[2..])
  }

  /** The text the scan leaves in the zeroed descriptor buffer. */
  function DescOf(values: seq<Value>): string {
    if |values| > 6 && values[6].Text? then values[6].s else ""
  }

  function NameOf(values: seq<Value>, line: string): Option<string> {
    if |values| > 8 && values[8].Offset? && 0 <= values[8].at <= |line| then Some(Snprintf(128, line[values[8].at..])) else None
  }

  function ParsedFrom(values: seq<Value>, line: string): Parsed {
    Parsed(Truncated(NumberAt(values, 0), 0x1_0000), Truncated(NumberAt(values, 1), 0x1_0000),
           Truncated(NumberAt(values, 2), 0x1_0000), Truncated(NumberAt(values, 3), 0x100),
           Truncated(NumberAt(values, 4), 0x100), Truncated(NumberAt(values, 5), 0x1_0000),
           Pairs(DescOf(values)), Truncated(NumberAt(values, 7), 0x1_0000_0000), NameOf(values, line))
  }

  function ScanLine(line: string): seq<Value> {
    Scan(LINE_FORMAT, line, 0)
  }

  function Parse(line: string): Parsed {
    ParsedFrom(ScanLine(line), line)
  }

  /** The request `r`, read from a line that gives `p`, when the flags were `oldFlags` before. */
  ghost predicate Matches(r: Record, p: Parsed, oldFlags: uint32) {
    && (p.vendor.Some? ==> r.vendor == p.vendor.value)
    && (p.product.Some? ==> r.product == p.product.value)
    && (p.version.Some? ==> r.version == p.version.value)
    && (p.subclass.Some? ==> r.subclass == p.subclass.value)
    && (p.country.Some? ==> r.country == p.country.value)
    && (p.parser.Some? ==> r.parser == p.parser.value)
    && r.data == p.data
    && r.flags == (if p.flags.Some? then p.flags.value else oldFlags)
    && (p.name.Some? ==> r.name == p.name.value)
  }

  /** Reads a stored line back into the request. `line` is what the text file has for the device; the two
      flags are the outcomes of the two allocations; `junk` and `junkName` stand for whatever the variables
      of a field the scan did not reach hold, `junk(k)` for the one of field `k`. */
  method GetStoredDeviceInfo(req: ConnaddReq, line: Option<cstring>, descAllocated: bool, dataAllocated: bool,
                             junk: nat -> nat, junkName: cstring) returns (err: int)
    modifies req
    ensures !descAllocated ==> err == -12 && unchanged(req)
    ensures descAllocated && line.None? ==> err == -5 && unchanged(req)
    ensures descAllocated && line.Some? && !dataAllocated ==> err == -12 && req.Valid() && req.rdData == null
    ensures descAllocated && line.Some? && dataAllocated ==>
      && err == 0 && req.Valid() && req.rdData != null && fresh(req.rdData)
      && Matches(req.Contents(), Parse(line.value), old(req.flags))
  {
    if !descAllocated {
      return -ENOMEM;
    }
    if line.None? {
      return -EIO;
    }
    var str := line.value;
    var values := ScanLine(str);
    DescFits(str);
    err := LoadRequest(req, str, values, dataAllocated, junk, junkName);
  }

  method LoadRequest(req: ConnaddReq, line: cstring, values: seq<Value>, dataAllocated: bool,
                     junk: nat -> nat, junkName: cstring) returns (err: int)
    requires |DescOf(values)| <= 4095
    modifies req
    ensures !dataAllocated ==> err == -12 && req.Valid() && req.rdData == null
    ensures dataAllocated ==>
      && err == 0 && req.Valid() && req.rdData != null && fresh(req.rdData)
      && Matches(req.Contents(), ParsedFrom(values, line), old(req.flags))
  {
    AssignedMatches(values, line, req.flags, junk, junkName);
    AssignFields(req, line, values, junk, junkName);
    var desc := DescOf(values);
    req.rdSize := |desc| / 2;
    if !dataAllocated {
      req.rdData := null;
      return -ENOMEM;
    }
    req.rdData := ReadPairs(desc);
    return 0;
  }

  /** The scanned number `k`, or what the variable held before, cut to the width of the field. */
  function Field(values: seq<Value>, k: nat, before: nat, modulus: nat): (n: nat)
    requires 0 < modulus
    ensures n < modulus
    ensures var t := Truncated(NumberAt(values, k), modulus); if t.Some? then n == t.value else before < modulus ==> n == before
  {
    (if NumberAt(values, k).Some? then values[k].n else before) % modulus
  }

  /** What the fields become: the scanned values cut to the width of the field, or what the variables held. */
  function Assigned(values: seq<Value>, line: cstring, oldFlags: uint32, junk: nat -> nat, junkName: cstring): (r: Record)
    ensures |r.name| <= 127
  {
    Record(Field(values, 0, junk(0), 0x1_0000), Field(values, 1, junk(1), 0x1_0000), Field(values, 2, junk(2), 0x1_0000),
           Field(values, 3, junk(3), 0x100), Field(values, 4, junk(4), 0x100), Field(values, 5, junk(5), 0x1_0000),
           Pairs(DescOf(values)), Field(values, 7, oldFlags, 0x1_0000_0000),
           ScannedName(line, values, junkName))
  }

  lemma AssignedMatches(values: seq<Value>, line: cstring, oldFlags: uint32, junk: nat -> nat, junkName: cstring)
    ensures Matches(Assigned(values, line, oldFlags, junk, junkName), ParsedFrom(values, line), oldFlags)
  {
    hide Field, Pairs, DescOf, Snprintf, Truncated, NumberAt;
  }

  /** Stores the scanned values into the request; the narrow fields truncate. */
  method AssignFields(req: ConnaddReq, line: cstring, values: seq<Value>, junk: nat -> nat, junkName: cstring)
    modifies req
    ensures req.rdSize == old(req.rdSize) && req.rdData == old(req.rdData) && |req.name| <= 127
    ensures Record(req.vendor, req.product, req.version, req.subclass, req.country, req.parser, Pairs(DescOf(values)), req.flags, req.name)
            == Assigned(values, line, old(req.flags), junk, junkName)
  {
    hide Field, Pairs, DescOf, ScannedName;
    req.flags := Field(values, 7, req.flags, 0x1_0000_0000);
    req.vendor := Field(values, 0, junk(0), 0x1_0000);
    req.product := Field(values, 1, junk(1), 0x1_0000);
    req.version := Field(values, 2, junk(2), 0x1_0000);
    req.subclass := Field(values, 3, junk(3), 0x100);
    req.country := Field(values, 4, junk(4), 0x100);
    req.parser := Field(values, 5, junk(5), 0x1_0000);
    req.name := ScannedName(line, values, junkName);
  }

  /** The name, from where the scan of the numbers ended. */
  function ScannedName(line: cstring, values: seq<Value>, junkName: cstring): (name: cstring)
    ensures |name| <= 127
  {
    Snprintf(128, if NameOf(values, line).Some? then line[values[8].at..] else junkName)
  }

  /** Turns the digit pairs into bytes one by one. */
  method ReadPairs(desc: string) returns (data: array<byte>)
    ensures fresh(data) && data[..] == Pairs(desc)
  {
    data := new byte[|desc| / 2];
    for i := 0 to data.Length
      invariant data[..i] == Pairs(desc)[..i]
    {
      PairsAt(desc, i);
      data[i] := ToByte(desc[i * 2..i * 2 + 2]);
      assert data[..i + 1] == data[..i] + [data[i]];
    }
  }

  predicate ShortTexts(values: seq<Value>, width: nat) {
    forall i :: 0 <= i < |values| && values[i].Text? ==> |values[i].s| <= width
  }

  predicate ShortWords(format: seq<Directive>, width: nat) {
    forall i :: 0 <= i < |format| && format[i].Word? ==> format[i].width <= width
  }

  lemma StepTexts(d: Directive, s: string, read: int, width: nat)
    requires d.Word? ==> d.width <= width
    ensures Step(d, s, read).Go? ==> ShortTexts(Step(d, s, read).out, width)
  {}

  lemma ShortAppend(a: seq<Value>, b: seq<Value>, width: nat)
    requires ShortTexts(a, width) && ShortTexts(b, width)
    ensures ShortTexts(a + b, width)
  {}

  lemma {:induction false} ScanTexts(step: Stepper, format: seq<Directive>, s: string, read: int, width: nat)
    requires ShortWords(format, width)
    requires forall d: Directive, s, read :: (d.Word? ==> d.width <= width) && step(d, s, read).Go? ==> ShortTexts(step(d, s, read).out, width)
    ensures ShortTexts(ScanBy(step, format, s, read), width)
    decreases |format|
  {
    if format != [] && step(format[0], s, read).Go? {
      var out, rest := step(format[0], s, read).out, step(format[0], s, read).rest;
      ScanTexts(step, format[1..], rest, read + |s| - |rest|, width);
      ShortAppend(out, ScanBy(step, format[1..], rest, read + |s| - |rest|), width);
    }
  }

  /** The word field never yields more than the descriptor buffer holds, so the byte count fits its field. */
  lemma DescFits(line: string)
    ensures |DescOf(ScanLine(line))| <= 4095
  {
    forall d: Directive, s, read | d.Word? ==> d.width <= 4095
      ensures Step(d, s, read).Go? ==> ShortTexts(Step(d, s, read).out, 4095)
    {
      StepTexts(d, s, read, 4095);
    }
    ScanTexts(Scanner(), LINE_FORMAT, line, 0, 4095);
  }

  lemma SliceShift(s: string, i: nat)
    requires i + 4 <= |s|
    ensures s[2..][i..i + 2] == s[i + 2..i + 4]
  {}

  lemma {:induction false} PairsAt(desc: string, k: nat)
    requires 2 * k + 1 < |desc|
    ensures Pairs(desc)[k] == ToByte(desc[2 * k..2 * k + 2])
  {
    if k > 0 {
      PairsAt(desc[2..], k - 1);
      SliceShift(desc, 2 * (k - 1));
    }
  }

  // ---------------------------------------------------------------------------------------------
  // Reading back what was written.

  function HeadValues(r: Record): seq<Value> {
    [Number(r.vendor), Number(r.product), Number(r.version), Number(r.subclass), Number(r.country), Number(r.parser)]
  }

  lemma FieldsFit(r: Record)
    ensures r.vendor < Pow16(4) && r.product < Pow16(4) && r.version < Pow16(4) && r.parser < Pow16(4)
    ensures r.subclass < Pow16(2) && r.country < Pow16(2) && r.flags < Pow16(8)
  {
    assert Pow16(2) == 0x100 && Pow16(4) == 0x1_0000 && Pow16(8) == 0x1_0000_0000;
  }

  /** Eleven directives up to the parser version, with the text each consumes. */
  function HeadPieces(r: Record): Pieces {
    HexPiece(r.vendor, 4, LitPiece(':', HexPiece(r.product, 4, LitPiece(':', HexPiece(r.version, 4, SpacePiece(
      HexPiece(r.subclass, 2, SpacePiece(HexPiece(r.country, 2, SpacePiece(HexPiece(r.parser, 4, End)))))))))))
  }

  /** `ps` reads, before `tail`, exactly the text `s` with the directives `f`, giving `v`. */
  ghost predicate Covers(ps: Pieces, tail: string, s: string, f: seq<Directive>, v: seq<Value>) {
    Reads(Scanner(), ps, tail) && TextOf(ps, tail) == s && FormatOf(ps) == f && ValuesOf(ps) == v
  }

  lemma HexCovers(n: nat, width: nat, ps: Pieces, tail: string, s: string, f: seq<Directive>, v: seq<Value>)
    requires 0 < width <= 8 && n < Pow16(width) && Covers(ps, tail, s, f, v)
    ensures Covers(HexPiece(n, width, ps), tail, PrintHex(n, width) + s, [Hex(width)] + f, [Number(n)] + v)
  {
    HexReads(n, width, ps, tail);
  }

  lemma LitCovers(c: char, ps: Pieces, tail: string, s: string, f: seq<Directive>, v: seq<Value>)
    requires Covers(ps, tail, s, f, v)
    ensures Covers(LitPiece(c, ps), tail, [c] + s, [Lit(c)] + f, v)
  {
    LitReads(c, ps, tail);
    assert [] + ValuesOf(ps) == ValuesOf(ps);
  }

  lemma SpaceCovers(ps: Pieces, tail: string, s: string, f: seq<Directive>, v: seq<Value>)
    requires Covers(ps, tail, s, f, v) && (s == "" || !IsSpace(s[0]))
    ensures Covers(SpacePiece(ps), tail, " " + s, [Space] + f, v)
  {
    SpaceReads(ps, tail);
    assert [] + ValuesOf(ps) == ValuesOf(ps);
  }

  lemma WordCovers(t: string, width: nat, ps: Pieces, tail: string, s: string, f: seq<Directive>, v: seq<Value>)
    requires Covers(ps, tail, s, f, v)
    requires t != "" && NoSpace(t) && |t| <= width && (s == "" || IsSpace(s[0]) || |t| == width)
    ensures Covers(WordPiece(t, width, ps), tail, t + s, [Word(width)] + f, [Text(t)] + v)
  {
    WordReads(t, width, ps, tail);
  }

  lemma PrintedIsVisible(n: nat, width: nat, s: string)
    requires 0 < width <= 8 && n < Pow16(width)
    ensures |PrintHex(n, width)| == width && PrintHex(n, width) + s != "" && !IsSpace((PrintHex(n, width) + s)[0])
  {
    PrintedReadsBack(n, width);
    HexIsVisible(PrintHex(n, width)[0]);
  }

  lemma SpaceHexCovers(n: nat, width: nat, ps: Pieces, tail: string, s: string, f: seq<Directive>, v: seq<Value>)
    requires 0 < width <= 8 && n < Pow16(width) && Covers(ps, tail, s, f, v)
    ensures Covers(SpacePiece(HexPiece(n, width, ps)), tail, " " + (PrintHex(n, width) + s), [Space, Hex(width)] + f, [Number(n)] + v)
  {
    HexCovers(n, width, ps, tail, s, f, v);
    PrintedIsVisible(n, width, s);
    SpaceCovers(HexPiece(n, width, ps), tail, PrintHex(n, width) + s, [Hex(width)] + f, [Number(n)] + v);
    assert [Space] + ([Hex(width)] + f) == [Space, Hex(width)] + f;
  }

  lemma LitHexCovers(c: char, n: nat, width: nat, ps: Pieces, tail: string, s: string, f: seq<Directive>, v: seq<Value>)
    requires 0 < width <= 8 && n < Pow16(width) && Covers(ps, tail, s, f, v)
    ensures Covers(LitPiece(c, HexPiece(n, width, ps)), tail, [c] + (PrintHex(n, width) + s), [Lit(c), Hex(width)] + f, [Number(n)] + v)
  {
    HexCovers(n, width, ps, tail, s, f, v);
    LitCovers(c, HexPiece(n, width, ps), tail, PrintHex(n, width) + s, [Hex(width)] + f, [Number(n)] + v);
    assert [Lit(c)] + ([Hex(width)] + f) == [Lit(c), Hex(width)] + f;
  }

  lemma HeadCovers(r: Record, rest: string)
    ensures Covers(HeadPieces(r), " " + rest, Head(r, rest), LINE_FORMAT[..11], HeadValues(r))
  {
    FieldsFit(r);
    var tail := " " + rest;
    var p5 := SpacePiece(HexPiece(r.parser, 4, End));
    var p4 := SpacePiece(HexPiece(r.country, 2, p5));
    var p3 := SpacePiece(HexPiece(r.subclass, 2, p4));
    var p2 := LitPiece(':', HexPiece(r.version, 4, p3));
    var p1 := LitPiece(':', HexPiece(r.product, 4, p2));
    var s5 := " " + (PrintHex(r.parser, 4) + tail);
    var s4 := " " + (PrintHex(r.country, 2) + s5);
    var s3 := " " + (PrintHex(r.subclass, 2) + s4);
    var s2 := ":" + (PrintHex(r.version, 4) + s3);
    var s1 := ":" + (PrintHex(r.product, 4) + s2);
    assert Covers(End, tail, tail, [], []);
    SpaceHexCovers(r.parser, 4, End, tail, tail, [], []);
    var f5, v5 := [Space, Hex(4)] + [], [Number(r.parser)] + [];
    SpaceHexCovers(r.country, 2, p5, tail, s5, f5, v5);
    var f4, v4 := [Space, Hex(2)] + f5, [Number(r.country)] + v5;
    SpaceHexCovers(r.subclass, 2, p4, tail, s4, f4, v4);
    var f3, v3 := [Space, Hex(2)] + f4, [Number(r.subclass)] + v4;
    LitHexCovers(':', r.version, 4, p3, tail, s3, f3, v3);
    var f2, v2 := [Lit(':'), Hex(4)] + f3, [Number(r.version)] + v3;
    LitHexCovers(':', r.product, 4, p2, tail, s2, f2, v2);
    var f1, v1 := [Lit(':'), Hex(4)] + f2, [Number(r.product)] + v2;
    HexCovers(r.vendor, 4, p1, tail, s1, f1, v1);
    assert [Hex(4)] + f1 == LINE_FORMAT[..11];
    assert [Number(r.vendor)] + v1 == HeadValues(r);
  }

  const REST_FORMAT := [Space, Word(4095), Space, Hex(8), Space, Position]

  lemma {:induction false} PairsAppend(s: string, t: string)
    requires |s| % 2 == 0
    ensures Pairs(s + t) == Pairs(s) + Pairs(t)
  {
    hide ToByte;
    if s == "" {
      assert s + t == t;
    } else {
      assert (s + t)[..2] == s[..2] && (s + t)[2..] == s[2..] + t;
      PairsAppend(s[2..], t);
    }
  }

  lemma ByteReadsBack(b: byte)
    ensures |PrintHex(b, 2)| == 2 && ToByte(PrintHex(b, 2)) == b
  {
    var p := PrintHex(b, 2);
    PrintedReadsBack(b, 2);
    HexIsVisible(p[0]);
    HexRunOf(p, "");
    assert p + "" == p && p[..2] == p;
  }

  lemma PairsSnoc(s: string, data: seq<byte>, b: byte)
    requires |s| % 2 == 0 && Pairs(s) == data
    ensures Pairs(s + PrintHex(b, 2)) == data + [b]
  {
    hide PrintHex, ToByte;
    var p := PrintHex(b, 2);
    PairsAppend(s, p);
    ByteReadsBack(b);
    PairOfTwo(p);
  }

  lemma PairOfTwo(p: string)
    requires |p| == 2
    ensures Pairs(p) == [ToByte(p)]
  {
    assert p[..2] == p && p[2..] == "";
  }

  /** The digits of a descriptor give back its bytes. */
  lemma {:induction false} PairsOfDigits(data: seq<byte>)
    ensures Pairs(Digits(data)) == data
  {
    if data != [] {
      var init := data[..|data| - 1];
      PairsOfDigits(init);
      assert |Digits(init)| % 2 == 0 by {
        DigitsAreHex(init);
      }
      PairsSnoc(Digits(init), init, data[|data| - 1]);
    }
  }

  // ---------------------------------------------------------------------------------------------
  // The three ways the rest of a line can be read. These are stated for any step function that treats the
  // pieces as given, so that nothing depends on how a directive works.

  lemma ScanAfterHead(step: Stepper, ps: Pieces, line: string, rest: string, f: seq<Directive>, g: seq<Directive>, v: seq<Value>)
    requires Reads(step, ps, rest) && TextOf(ps, rest) == line && FormatOf(ps) == f && ValuesOf(ps) == v
    ensures ScanBy(step, f + g, line, 0) == v + ScanBy(step, g, rest, |line| - |rest|)
  {
    ScanPieces(step, ps, g, rest, 0);
  }

  ghost predicate ReadsName(step: Stepper, name: string) {
    && (forall read :: step(Space, " " + name, read) == Go([], SkipSpace(name)))
    && (forall s, read :: step(Position, s, read) == Go([Offset(read)], s))
  }

  lemma ScanName(step: Stepper, name: string, read: int)
    requires ReadsName(step, name)
    ensures ScanBy(step, [Space, Position], " " + name, read) == [Offset(read + 1 + |name| - |SkipSpace(name)|)]
  {
    var at := read + 1 + |name| - |SkipSpace(name)|;
    assert [Space, Position][1..] == [Position] && [Position][1..] == [];
    assert ScanBy(step, [Position], SkipSpace(name), at) == [Offset(at)];
  }

  lemma ScanAfterFlags(step: Stepper, qs: Pieces, rest: string, name: string, h: seq<Directive>, w: seq<Value>, read: int)
    requires Reads(step, qs, " " + name) && TextOf(qs, " " + name) == rest && FormatOf(qs) == h && ValuesOf(qs) == w
    requires ReadsName(step, name)
    ensures ScanBy(step, h + [Space, Position], rest, read) == w + [Offset(read + |rest| - |SkipSpace(name)|)]
  {
    ScanPieces(step, qs, [Space, Position], " " + name, read);
    ScanName(step, name, read + |rest| - |" " + name|);
  }

  lemma ScanAll(step: Stepper, ps: Pieces, qs: Pieces, line: string, rest: string, name: string,
                f: seq<Directive>, h: seq<Directive>, v: seq<Value>, w: seq<Value>)
    requires Reads(step, ps, rest) && TextOf(ps, rest) == line && FormatOf(ps) == f && ValuesOf(ps) == v
    requires Reads(step, qs, " " + name) && TextOf(qs, " " + name) == rest && FormatOf(qs) == h && ValuesOf(qs) == w
    requires ReadsName(step, name)
    ensures ScanBy(step, f + (h + [Space, Position]), line, 0) == v + (w + [Offset(|line| - |SkipSpace(name)|)])
  {
    ScanAfterHead(step, ps, line, rest, f, h + [Space, Position], v);
    ScanAfterFlags(step, qs, rest, name, h, w, |line| - |rest|);
  }

  /** If the word field takes `t`, that is the first value behind the head. */
  lemma ScanWord(step: Stepper, g: seq<Directive>, rest: string, mid: string, left: string, t: string, read: int)
    requires |g| >= 2 && g[0] == Space && g[1] == Word(4095)
    requires step(Space, rest, read) == Go([], mid)
    requires step(Word(4095), mid, read + |rest| - |mid|) == Go([Text(t)], left)
    ensures var out := ScanBy(step, g, rest, read); |out| >= 1 && out[0] == Text(t)
  {
    assert g[1..][0] == Word(4095);
  }

  lemma ScanHeadAndWord(step: Stepper, f: seq<Directive>, g: seq<Directive>, line: string, rest: string, v: seq<Value>,
                        mid: string, left: string, t: string, read: int)
    requires ScanBy(step, f + g, line, 0) == v + ScanBy(step, g, rest, read) && |v| == 6
    requires |g| >= 2 && g[0] == Space && g[1] == Word(4095)
    requires step(Space, rest, read) == Go([], mid)
    requires step(Word(4095), mid, read + |rest| - |mid|) == Go([Text(t)], left)
    ensures DescOf(ScanBy(step, f + g, line, 0)) == t
  {
    hide ScanBy, DescOf;
    ScanWord(step, g, rest, mid, left, t, read);
    DescBehind(v, ScanBy(step, g, rest, read), t);
  }

  lemma DescriptorBy(step: Stepper, ps: Pieces, line: string, rest: string, f: seq<Directive>, g: seq<Directive>, v: seq<Value>,
                     mid: string, left: string, t: string, read: int)
    requires Reads(step, ps, rest) && TextOf(ps, rest) == line && FormatOf(ps) == f && ValuesOf(ps) == v && |v| == 6
    requires |g| >= 2 && g[0] == Space && g[1] == Word(4095) && read == |line| - |rest|
    requires step(Space, rest, read) == Go([], mid)
    requires step(Word(4095), mid, read + |rest| - |mid|) == Go([Text(t)], left)
    ensures DescOf(ScanBy(step, f + g, line, 0)) == t
  {
    hide ScanBy, Reads, TextOf, FormatOf, ValuesOf, DescOf;
    ScanAfterHead(step, ps, line, rest, f, g, v);
    ScanHeadAndWord(step, f, g, line, rest, v, mid, left, t, read);
  }

  lemma DescBehind(v: seq<Value>, out: seq<Value>, t: string)
    requires |v| == 6 && |out| >= 1 && out[0] == Text(t)
    ensures DescOf(v + out) == t
  {}

  lemma FormatSplits()
    ensures LINE_FORMAT == LINE_FORMAT[..11] + REST_FORMAT
    ensures LINE_FORMAT == LINE_FORMAT[..11] + ([Space, Word(4095), Space, Hex(8)] + [Space, Position])
  {}

  // ---------------------------------------------------------------------------------------------
  // The round trip.

  /** What reading back should give for `r`. */
  function Recovered(r: Record): Parsed {
    Parsed(Some(r.vendor), Some(r.product), Some(r.version), Some(r.subclass), Some(r.country), Some(r.parser),
           r.data, Some(r.flags), Some(r.name))
  }

  /** The records the format can carry. */
  predicate Storable(r: Record) {
    1 <= |r.data| <= 2047 && (r.name == "" || !IsSpace(r.name[0]))
  }

  function RestPieces(r: Record): Pieces {
    SpacePiece(WordPiece(Digits(r.data), 4095, SpacePiece(HexPiece(r.flags, 8, End))))
  }

  /** What follows the head of a line. */
  function Rest(r: Record): string {
    Digits(r.data) + (" " + (PrintHex(r.flags, 8) + (" " + r.name)))
  }

  lemma RestCovers(r: Record)
    requires 1 <= |r.data| <= 2047
    ensures Covers(RestPieces(r), " " + r.name, " " + Rest(r), [Space, Word(4095), Space, Hex(8)], [Text(Digits(r.data)), Number(r.flags)])
  {
    FieldsFit(r);
    DigitsAreHex(r.data);
    var desc, flags, tail := Digits(r.data), r.flags, " " + r.name;
    var p2 := SpacePiece(HexPiece(flags, 8, End));
    var s2 := " " + (PrintHex(flags, 8) + tail);
    assert Covers(End, tail, tail, [], []);
    SpaceHexCovers(flags, 8, End, tail, tail, [], []);
    var f2, v2 := [Space, Hex(8)] + [], [Number(flags)] + [];
    HexHasNoSpace(desc);
    WordCovers(desc, 4095, p2, tail, s2, f2, v2);
    HexIsVisible(desc[0]);
    SpaceCovers(WordPiece(desc, 4095, p2), tail, desc + s2, [Word(4095)] + f2, [Text(desc)] + v2);
    assert [Space] + ([Word(4095)] + f2) == [Space, Word(4095), Space, Hex(8)];
    assert [Text(desc)] + v2 == [Text(desc), Number(flags)];
  }

  lemma NameReads(name: string)
    ensures ReadsName(Scanner(), name)
  {
    forall read ensures Step(Space, " " + name, read) == Go([], SkipSpace(name)) {
      SpaceSteps(name, read);
    }
  }

  lemma ScanCovered(r: Record, f: seq<Directive>, h: seq<Directive>, v: seq<Value>, w: seq<Value>)
    requires Covers(HeadPieces(r), " " + Rest(r), Line(r), f, v)
    requires Covers(RestPieces(r), " " + r.name, " " + Rest(r), h, w)
    ensures ScanBy(Scanner(), f + (h + [Space, Position]), Line(r), 0) == v + (w + [Offset(|Line(r)| - |SkipSpace(r.name)|)])
  {
    NameReads(r.name);
    ScanAll(Scanner(), HeadPieces(r), RestPieces(r), Line(r), " " + Rest(r), r.name, f, h, v, w);
  }

  /** All nine values, with the name's offset behind any white space it starts with. */
  lemma ScanStorable(r: Record)
    requires 1 <= |r.data| <= 2047
    ensures ScanLine(Line(r)) == HeadValues(r) + ([Text(Digits(r.data)), Number(r.flags)] + [Offset(|Line(r)| - |SkipSpace(r.name)|)])
  {
    HeadCovers(r, Rest(r));
    RestCovers(r);
    FormatSplits();
    ScanCovered(r, LINE_FORMAT[..11], [Space, Word(4095), Space, Hex(8)], HeadValues(r), [Text(Digits(r.data)), Number(r.flags)]);
  }

  lemma {:induction false} SkipIsSuffix(s: string)
    ensures SkipSpace(s) == s[|s| - |SkipSpace(s)|..]
  {
    if s != "" && IsSpace(s[0]) {
      SkipIsSuffix(s[1..]);
    }
  }

  lemma SuffixIsName(r: Record, k: nat)
    requires k <= |r.name|
    ensures |r.name| <= |Line(r)| && Line(r)[|Line(r)| - k..] == r.name[|r.name| - k..]
  {}

  lemma NameAtOffset(r: Record, v: seq<Value>)
    requires r.Valid() && |v| == 9 && v[8] == Offset(|Line(r)| - |SkipSpace(r.name)|)
    ensures NameOf(v, Line(r)) == Some(SkipSpace(r.name))
  {
    hide Line, SkipSpace;
    SuffixIsName(r, |SkipSpace(r.name)|);
    SkipIsSuffix(r.name);
  }

  lemma AllValues(r: Record, v: seq<Value>, desc: string, at: int, line: string, name: string)
    requires v == HeadValues(r) + ([Text(desc), Number(r.flags)] + [Offset(at)])
    requires Pairs(desc) == r.data && NameOf(v, line) == Some(name)
    ensures ParsedFrom(v, line) == Recovered(r).(name := Some(name))
  {}

  lemma ParsedStorable(r: Record, v: seq<Value>)
    requires r.Valid()
    requires v == HeadValues(r) + ([Text(Digits(r.data)), Number(r.flags)] + [Offset(|Line(r)| - |SkipSpace(r.name)|)])
    ensures ParsedFrom(v, Line(r)) == Recovered(r).(name := Some(SkipSpace(r.name)))
  {
    hide Line, SkipSpace, Digits, Pairs, Recovered, ParsedFrom, NameOf;
    PairsOfDigits(r.data);
    NameAtOffset(r, v);
    AllValues(r, v, Digits(r.data), |Line(r)| - |SkipSpace(r.name)|, Line(r), SkipSpace(r.name));
  }

  lemma ParseStorable(r: Record)
    requires r.Valid() && 1 <= |r.data| <= 2047
    ensures Parse(Line(r)) == Recovered(r).(name := Some(SkipSpace(r.name)))
  {
    ScanStorable(r);
    ParsedStorable(r, ScanLine(Line(r)));
  }

  lemma PairsOfNumber(n: nat, width: nat, data: seq<byte>)
    requires width > 0 && width % 2 == 0 && n / 256 < Pow16(width) && Pairs(PrintHex(n / 256, width)) == data
    ensures Pairs(PrintHex(n, width + 2)) == data + [n % 256]
  {
    PrintedReadsBack(n / 256, width);
    LastBytePrinted(n, width);
    PairsSnoc(PrintHex(n / 256, width), data, n % 256);
  }

  lemma PairsOfByte(b: byte)
    ensures Pairs(PrintHex(b, 2)) == [b]
  {
    hide PrintHex, ToByte;
    ByteReadsBack(b);
    PairOfTwo(PrintHex(b, 2));
  }

  lemma BytesFit(n: uint32)
    ensures var m := n / 256; var k := m / 256; var h := k / 256;
            && m < Pow16(6) && k < Pow16(4) && h < Pow16(2) && h < 256
            && k == n / 0x1_0000 && h == n / 0x100_0000
  {
    assert Pow16(2) == 0x100 && Pow16(4) == 0x1_0000 && Pow16(6) == 0x100_0000;
  }

  lemma FlagBytes(n: uint32)
    ensures Pairs(PrintHex(n, 8)) == [n / 0x100_0000, (n / 0x1_0000) % 256, (n / 256) % 256, n % 256]
  {
    hide PrintHex, Pairs, Pow16;
    BytesFit(n);
    var m := n / 256;
    var k := m / 256;
    PairsOfByte(k / 256);
    PairsOfNumber(k, 2, [k / 256]);
    PairsOfNumber(m, 4, [k / 256, k % 256]);
    PairsOfNumber(n, 6, [k / 256, k % 256, m % 256]);
  }

  /** Without a descriptor the word field takes the eight digits of the flags, and the flags' bytes come back as the
      descriptor. */
  lemma EmptyDescriptorLost(r: Record)
    requires r.data == []
    ensures Parse(Line(r)).data == [r.flags / 0x100_0000, (r.flags / 0x1_0000) % 256, (r.flags / 256) % 256, r.flags % 256]
  {
    FlagBytes(r.flags);
    FieldsFit(r);
    var p := PrintHex(r.flags, 8);
    PrintedReadsBack(r.flags, 8);
    HexHasNoSpace(p);
    HexIsVisible(p[0]);
    var left := " " + r.name;
    var mid := p + left;
    HeadCovers(r, Rest(r));
    var line := Line(r);
    assert Rest(r) == " " + mid;
    SkipTwo(mid, |line| - |" " + Rest(r)|);
    WordSteps(p, left, 4095, |line| - |mid|);
    DescriptorBy(Scanner(), HeadPieces(r), line, " " + Rest(r), LINE_FORMAT[..11], REST_FORMAT, HeadValues(r), mid, left, p, |line| - |" " + Rest(r)|);
    FormatSplits();
  }

  lemma SkipTwo(mid: string, read: int)
    requires mid != "" && !IsSpace(mid[0])
    ensures Step(Space, " " + (" " + mid), read) == Go([], mid)
  {
    SpaceSteps(" " + mid, read);
    assert (" " + mid)[1..] == mid;
    NothingSkipped(mid);
  }

  /** A prefix of the digits gives a prefix of the bytes; an odd last digit is dropped. */
  lemma PairsOfPrefix(data: seq<byte>, n: nat)
    requires 2 * n + 1 <= 2 * |data|
    ensures |Digits(data)| == 2 * |data| && Pairs(Digits(data)[..2 * n + 1]) == data[..n]
  {
    hide Digits, ToByte;
    var desc := Digits(data);
    DigitsAreHex(data);
    PairsOfDigits(data);
    var p := desc[..2 * n + 1];
    forall k | 0 <= k < n ensures Pairs(p)[k] == data[k] {
      PairsAt(p, k);
      PairsAt(desc, k);
      assert p[2 * k..2 * k + 2] == desc[2 * k..2 * k + 2];
    }
  }

  /** What the word field takes of digits that are too many for it. */
  lemma LongScan(r: Record, p: string, left: string)
    requires |p| == 4095 && NoSpace(p) && !IsSpace(p[0]) && Rest(r) == p + left
    ensures DescOf(ScanLine(Line(r))) == p
  {
    hide Head, Rest, HeadPieces, Digits, NoSpace, PrintHex;
    var mid, line := p + left, Line(r);
    HeadCovers(r, Rest(r));
    LineIsHead(r);
    SpaceSteps(mid, |line| - |" " + mid|);
    NothingSkipped(mid);
    WordSteps(p, left, 4095, |line| - |mid|);
    DescriptorBy(Scanner(), HeadPieces(r), line, " " + mid, LINE_FORMAT[..11], REST_FORMAT, HeadValues(r), mid, left, p, |line| - |" " + mid|);
    FormatSplits();
  }

  lemma LineIsHead(r: Record)
    ensures Line(r) == Head(r, Rest(r))
  {}

  /** A descriptor too long for the word field comes back cut to its first 2047 bytes. */
  lemma LongDescriptorCut(r: Record)
    requires |r.data| > 2047
    ensures Parse(Line(r)).data == r.data[..2047]
  {
    hide Digits, PrintHex, NoSpace, IsSpace, IsHex, ScanLine, Line;
    var desc := Digits(r.data);
    DigitsAreHex(r.data);
    var p, left := desc[..4095], desc[4095..] + (" " + (PrintHex(r.flags, 8) + (" " + r.name)));
    assert Rest(r) == p + left;
    HexHasNoSpace(p);
    HexIsVisible(desc[0]);
    LongScan(r, p, left);
    PairsOfPrefix(r.data, 2047);
  }

  /** Reading back a stored line gives the record exactly when its descriptor has 1 to 2047 bytes and its
      name does not start with white space. */
  lemma RoundTrip(r: Record)
    requires r.Valid()
    ensures Parse(Line(r)) == Recovered(r) <==> Storable(r)
  {
    if 1 <= |r.data| <= 2047 {
      ParseStorable(r);
      SkipIsSuffix(r.name);
      if r.name != "" && IsSpace(r.name[0]) {
        assert |SkipSpace(r.name)| < |r.name|;
      }
    } else if r.data == [] {
      EmptyDescriptorLost(r);
    } else {
      LongDescriptorCut(r);
    }
  }

  /** The two operations together: a request filled from the line stored for `r`, whatever it held before, holds
      every field of `r`. */
  lemma StoredThenRead(r: Record, back: Record, oldFlags: uint32)
    requires r.Valid() && Storable(r) && Matches(back, Parse(Line(r)), oldFlags)
    ensures back == r
  {
    RoundTrip(r);
  }

  // ---------------------------------------------------------------------------------------------
  // Repair, then store: what happens to a descriptor that a device reports.

  /** What becomes of a reported descriptor: memory is touched that is not there, the request is not stored, or the store
      has an outcome. */
  datatype Taken = OutOfBounds | NotStored | Put(stored: Stored)

  /** The request holds the reported descriptor, cut to a 16-bit size and repaired, and is otherwise as it was. */
  ghost predicate Took(before: Record, after: Record, reported: seq<byte>) {
    after == before.(data := after.data) && EpoxQuirk.Repaired(reported[..|reported| % 0x1_0000], after.data)
  }

  /** Takes a reported descriptor, if there is one and there is memory for it: copies it into the request and repairs it in
      place. Without memory the request is left with its size and no bytes. `inBounds` is false when the repair left the
      array. */
  method CopyDescriptor(req: ConnaddReq, reported: Option<seq<byte>>, dataAllocated: bool) returns (inBounds: bool)
    requires req.Valid()
    requires reported.Some? ==> |reported.value| < 0x8000_0000
    modifies req
    ensures req.Valid()
    ensures inBounds <==> (reported.Some? && dataAllocated ==> |reported.value| % 0x1_0000 >= 12)
    ensures reported.None? ==> unchanged(req)
    ensures reported.Some? && !dataAllocated ==>
      req.rdData == null && req.rdSize == old(req.rdSize) && req.Contents() == old(req.Contents()).(data := [])
    ensures reported.Some? && dataAllocated && inBounds ==>
      req.Readable() && Took(old(req.Contents()), req.Contents(), reported.value)
  {
    if reported.None? {
      return true;
    }
    if !dataAllocated {
      req.rdData := null;
      return true;
    }
    var bytes := reported.value;
    var data := new byte[|bytes|](i requires 0 <= i < |bytes| => bytes[i]);
    assert data[..] == bytes;
    req.rdData := data;
    req.rdSize := |bytes| % 0x1_0000;
    assert data[..req.rdSize] == bytes[..req.rdSize];
    inBounds := EpoxQuirk.EpoxEndianQuirk(data, req.rdSize);
    EpoxQuirk.RepairMeets(bytes[..req.rdSize]);
  }

  /** Takes the reported descriptor and, unless the local address is unknown, stores the request. */
  method TakeDescriptor(req: ConnaddReq, reported: Option<seq<byte>>, dataAllocated: bool, hasAddress: bool,
                        strAllocated: bool, descAllocated: bool) returns (r: Taken)
    requires req.Valid()
    requires reported.Some? ==> |reported.value| < 0x8000_0000
    modifies req
    ensures req.Valid()
    ensures r == OutOfBounds <==>
      || (reported.Some? && dataAllocated && |reported.value| % 0x1_0000 < 12)
      || (!req.Readable() && hasAddress && strAllocated && descAllocated)
    ensures reported.None? ==> unchanged(req)
    ensures reported.Some? && !dataAllocated ==> req.rdSize == old(req.rdSize) && req.Contents() == old(req.Contents()).(data := [])
    ensures r != OutOfBounds && reported.Some? && dataAllocated ==> Took(old(req.Contents()), req.Contents(), reported.value)
    ensures r != OutOfBounds ==> r == if !hasAddress then NotStored
      else Put(if strAllocated && descAllocated then StoredLine(Line(req.Contents())) else Failed(-12))
  {
    var inBounds := CopyDescriptor(req, reported, dataAllocated);
    if !inBounds {
      return OutOfBounds;
    }
    if !hasAddress {
      return NotStored;
    }
    if !strAllocated || !descAllocated {
      return Put(Failed(-ENOMEM));
    }
    if !req.Readable() {
      return OutOfBounds;
    }
    var stored := StoreDeviceInfo(req, strAllocated, descAllocated);
    return Put(stored);
  }

  /** From there on: a request that took a reported descriptor, stored and read back, comes back with every field, the
      descriptor repaired. A second repair would change nothing, and it is free of the misordered items unless it was
      reported with them at its very end. */
  lemma RepairStoreRead(before: Record, r: Record, reported: seq<byte>, back: Record, oldFlags: uint32)
    requires before.Valid() && Took(before, r, reported) && 12 <= |reported| <= 2047
    requires r.name == "" || !IsSpace(r.name[0])
    requires Matches(back, Parse(Line(r)), oldFlags)
    ensures back == r && Took(before, back, reported) && EpoxQuirk.Repair(back.data) == back.data
    ensures (forall j :: !EpoxQuirk.Misordered(back.data, j)) <==> !EpoxQuirk.Misordered(reported, |reported| - 12)
  {
    hide EpoxQuirk.Repaired, Matches, Parse;
    assert reported[..|reported| % 0x1_0000] == reported;
    EpoxQuirk.RepairIff(reported, r.data);
    StoredThenRead(r, back, oldFlags);
    EpoxQuirk.RepairIdempotent(reported);
    EpoxQuirk.CompleteUnlessLast(reported);
    EpoxQuirk.OccursIsMisordered(reported, |reported| - 12);
    forall j ensures EpoxQuirk.Occurs(r.data, j) <==> EpoxQuirk.Misordered(r.data, j) {
      EpoxQuirk.OccursIsMisordered(r.data, j);
    }
  }
}
