/**
  What a line gives back, whatever it is; and what becomes of flags and name when the descriptor does not come back as it was
  stored, because the fields behind it are then read from the wrong place.
 */
module DeviceLine {
  import opened Bytes
  import opened CText
  import G = CGrammar
  import opened DeviceStore

  // ---------------------------------------------------------------------------------------------
  // Any line.

  /** The value assigned suits the directive. */
  predicate Suits(d: Directive, v: Value) {
    match d
    case Hex(_) => v.Number?
    case Word(_) => v.Text?
    case Position => v.Offset?
    case _ => false
  }

  /** The directives of a format that assign. */
  function Assigning(format: seq<Directive>): (a: seq<Directive>)
    ensures |a| <= |format|
  {
    if format == [] then []
    else if format[0].Lit? || format[0].Space? then Assigning(format[1..])
    else [format[0]] + Assigning(format[1..])
  }

  /** Values that were assigned by a format, as far as the reading went; offsets lie within what was read. */
  predicate Follows(format: seq<Directive>, values: seq<Value>, from: int, to: int) {
    && |values| <= |Assigning(format)|
    && forall i :: 0 <= i < |values| ==>
         Suits(Assigning(format)[i], values[i]) && (values[i].Offset? ==> from <= values[i].at <= to)
  }

  lemma StepSuits(d: Directive, s: string, read: int)
    requires Step(d, s, read).Go?
    ensures var out := Step(d, s, read).out;
            if d.Lit? || d.Space? then out == [] else |out| == 1 && Suits(d, out[0]) && (out[0].Offset? ==> out[0].at == read)
  {
    hide ScanHex, SkipSpace, WordRun;
  }

  lemma {:induction false} YieldsFollow(format: seq<Directive>, s: string, read: int, values: seq<Value>)
    requires G.Yields(format, s, read, values)
    ensures Follows(format, values, read, read + |s|)
    decreases |format|
  {
    hide Step, G.Yields;
    if format == [] {
      G.YieldsNothing(s, read, values);
    } else {
      G.YieldsStep(format, s, read, values);
      if Step(format[0], s, read).Go? {
        var out, rest := Step(format[0], s, read).out, Step(format[0], s, read).rest;
        StepSuits(format[0], s, read);
        YieldsFollow(format[1..], rest, read + |s| - |rest|, values[|out|..]);
        assert forall i :: |out| <= i < |values| ==> values[i] == values[|out|..][i - |out|];
      }
    }
  }

  lemma AssigningMore(d: Directive, format: seq<Directive>)
    ensures Assigning([d] + format) == if d.Lit? || d.Space? then Assigning(format) else [d] + Assigning(format)
  {
    assert ([d] + format)[1..] == format;
  }

  lemma RestAssigns()
    ensures Assigning([Space, Word(4095), Space, Hex(8), Space, Position]) == [Word(4095), Hex(8), Position]
  {
    assert Assigning([]) == [];
    hide Assigning;
    var e: seq<Directive> := [];
    AssigningMore(Position, e);
    assert [Position] + e == [Position];
    AssigningMore(Space, [Position]);
    AssigningMore(Hex(8), [Space, Position]);
    AssigningMore(Space, [Hex(8), Space, Position]);
    AssigningMore(Word(4095), [Space, Hex(8), Space, Position]);
    AssigningMore(Space, [Word(4095), Space, Hex(8), Space, Position]);
  }

  lemma HeadAssigns(f: seq<Directive>)
    ensures Assigning([Hex(4), Lit(':'), Hex(4)] + f) == [Hex(4), Hex(4)] + Assigning(f)
  {
    hide Assigning;
    AssigningMore(Hex(4), f);
    AssigningMore(Lit(':'), [Hex(4)] + f);
    AssigningMore(Hex(4), [Lit(':')] + ([Hex(4)] + f));
    assert [Hex(4), Lit(':'), Hex(4)] + f == [Hex(4)] + ([Lit(':')] + ([Hex(4)] + f));
  }

  lemma LineAssigns()
    ensures Assigning(LINE_FORMAT) == [Hex(4), Hex(4), Hex(4), Hex(2), Hex(2), Hex(4), Word(4095), Hex(8), Position]
  {
    hide Assigning;
    var f4 := [Space, Word(4095), Space, Hex(8), Space, Position];
    var f3 := [Space, Hex(2), Space, Hex(4)] + f4;
    var f2 := [Lit(':'), Hex(4), Space, Hex(2)] + f3;
    RestAssigns();
    AssigningFour(Space, Hex(2), Space, Hex(4), f4);
    AssigningFour(Lit(':'), Hex(4), Space, Hex(2), f3);
    HeadAssigns(f2);
    assert LINE_FORMAT == [Hex(4), Lit(':'), Hex(4)] + f2;
  }

  lemma AssigningFour(c: Directive, d: Directive, e: Directive, g: Directive, format: seq<Directive>)
    requires (c.Lit? || c.Space?) && d.Hex? && (e.Lit? || e.Space?) && g.Hex?
    ensures Assigning([c, d, e, g] + format) == [d, g] + Assigning(format)
  {
    hide Assigning;
    AssigningMore(g, format);
    AssigningMore(e, [g] + format);
    AssigningMore(d, [e] + ([g] + format));
    AssigningMore(c, [d] + ([e] + ([g] + format)));
    assert [c, d, e, g] + format == [c] + ([d] + ([e] + ([g] + format)));
  }

  /** Two characters read as a hexadecimal integer: a sign and a digit, two digits, or one. */
  function PairAmount(a: char, b: char): int {
    if a == '-' || a == '+' then (if !G.IsDigit(b) then 0 else if a == '-' then -(G.Digit(b) as int) else G.Digit(b))
    else if !G.IsDigit(a) then 0
    else if G.IsDigit(b) then 16 * G.Digit(a) + G.Digit(b) else G.Digit(a)
  }

  lemma RunOfTwo(p: string)
    requires |p| == 2
    ensures HexRun(p, 2) == if !IsHex(p[0]) then 0 else if IsHex(p[1]) then 2 else 1
  {
    assert p[1..][0] == p[1] && p[1..][1..] == "";
    assert HexRun("", 0) == 0;
    assert HexRun(p[1..], 1) == if IsHex(p[1]) then 1 else 0;
  }

  lemma ParseOne(p: string)
    requires |p| == 1 && IsHex(p[0])
    ensures AllHex(p) && ParseHex(p) == HexValue(p[0]).value
  {
    assert p[..0] == "";
  }

  lemma ParseTwo(p: string)
    requires |p| == 2 && IsHex(p[0]) && IsHex(p[1])
    ensures AllHex(p) && ParseHex(p) == 16 * HexValue(p[0]).value + HexValue(p[1]).value
  {
    ParseOne(p[..1]);
  }

  lemma PairIs(p: string)
    requires |p| == 2
    ensures PairValue(p) == PairAmount(p[0], p[1])
  {
    G.DigitIs(p[0]);
    G.DigitIs(p[1]);
    RunOfTwo(p);
    assert p[..2] == p && p[..0] == "";
    if IsHex(p[0]) {
      ParseOne(p[..1]);
      if IsHex(p[1]) {
        ParseTwo(p);
      }
    }
    assert ParseHex("") == 0;
    hide HexRun, ParseHex;
  }

  /** What the name's buffer of 128 characters holds of a text. */
  function Cut(s: string): string {
    if |s| <= 127 then s else s[..127]
  }

  lemma PairsMean(desc: string)
    ensures forall k :: 0 <= k < |desc| / 2 ==> Pairs(desc)[k] == PairAmount(desc[2 * k], desc[2 * k + 1]) % 256
  {
    forall k | 0 <= k < |desc| / 2 ensures Pairs(desc)[k] == PairAmount(desc[2 * k], desc[2 * k + 1]) % 256 {
      PairsAt(desc, k);
      PairIs(desc[2 * k..2 * k + 2]);
    }
  }

  lemma FieldsMean(v: seq<Value>, line: string)
    requires |v| <= 9 && (forall i :: 0 <= i < |v| ==> if i == 6 then v[i].Text? else if i == 8 then v[i].Offset? else v[i].Number?)
    requires |v| > 8 ==> 0 <= v[8].at <= |line|
    ensures var p := ParsedFrom(v, line);
            && p.vendor == (if |v| > 0 then Some(v[0].n % 0x1_0000) else None)
            && p.product == (if |v| > 1 then Some(v[1].n % 0x1_0000) else None)
            && p.version == (if |v| > 2 then Some(v[2].n % 0x1_0000) else None)
            && p.subclass == (if |v| > 3 then Some(v[3].n % 0x100) else None)
            && p.country == (if |v| > 4 then Some(v[4].n % 0x100) else None)
            && p.parser == (if |v| > 5 then Some(v[5].n % 0x1_0000) else None)
            && p.flags == (if |v| > 7 then Some(v[7].n % 0x1_0000_0000) else None)
            && p.data == Pairs(DescOf(v)) && DescOf(v) == (if |v| > 6 then v[6].s else "")
            && p.name == (if |v| > 8 then Some(Cut(line[v[8].at..])) else None)
  {
    hide Pairs;
  }

  /** What any line gives back: what the grammar of the format assigns, up to the first directive that finds nothing, numbers
      cut to their fields, the text as bytes, two characters each, and the name from where the numbers end. There is one
      such `v` for every line (`CGrammar.ScanIff`). */
  lemma ParseMeans(line: string, v: seq<Value>)
    requires G.Yields([Hex(4), Lit(':'), Hex(4), Lit(':'), Hex(4), Space, Hex(2), Space, Hex(2), Space, Hex(4), Space,
                      Word(4095), Space, Hex(8), Space, Position], line, 0, v)
    ensures |v| <= 9 && (forall i :: 0 <= i < |v| ==> if i == 6 then v[i].Text? else if i == 8 then v[i].Offset? else v[i].Number?)
    ensures var p := Parse(line);
            && p.vendor == (if |v| > 0 then Some(v[0].n % 0x1_0000) else None)
            && p.product == (if |v| > 1 then Some(v[1].n % 0x1_0000) else None)
            && p.version == (if |v| > 2 then Some(v[2].n % 0x1_0000) else None)
            && p.subclass == (if |v| > 3 then Some(v[3].n % 0x100) else None)
            && p.country == (if |v| > 4 then Some(v[4].n % 0x100) else None)
            && p.parser == (if |v| > 5 then Some(v[5].n % 0x1_0000) else None)
            && p.flags == (if |v| > 7 then Some(v[7].n % 0x1_0000_0000) else None)
    ensures var p, desc := Parse(line), if |v| > 6 then v[6].s else "";
            |p.data| == |desc| / 2 && forall k :: 0 <= k < |p.data| ==> p.data[k] == PairAmount(desc[2 * k], desc[2 * k + 1]) % 256
    ensures if |v| > 8 then 0 <= v[8].at <= |line| && Parse(line).name == Some(Cut(line[v[8].at..])) else Parse(line).name == None
  {
    G.ScanIff(LINE_FORMAT, line, 0, v);
    assert v == ScanLine(line);
    hide ScanLine, G.Yields, Pairs, PairAmount, Assigning, Follows, ParsedFrom;
    YieldsFollow(LINE_FORMAT, line, 0, v);
    LineAssigns();
    ValuesSuit(v, line);
    FieldsMean(v, line);
    PairsMean(DescOf(v));
  }

  lemma ValuesSuit(v: seq<Value>, line: string)
    requires Follows(LINE_FORMAT, v, 0, |line|)
    requires Assigning(LINE_FORMAT) == [Hex(4), Hex(4), Hex(4), Hex(2), Hex(2), Hex(4), Word(4095), Hex(8), Position]
    ensures |v| <= 9 && (forall i :: 0 <= i < |v| ==> if i == 6 then v[i].Text? else if i == 8 then v[i].Offset? else v[i].Number?)
    ensures |v| > 8 ==> 0 <= v[8].at <= |line|
  {
    var a := Assigning(LINE_FORMAT);
    hide Assigning;
    forall i | 0 <= i < |v| ensures if i == 6 then v[i].Text? else if i == 8 then v[i].Offset? else v[i].Number? {
      assert Suits(a[i], v[i]);
    }
  }

  // ---------------------------------------------------------------------------------------------
  // Behind the text field. As before, for any step function that does what is given.

  const TAIL_FORMAT := [Space, Hex(8), Space, Position]

  lemma ScanGoes(step: Stepper, d: Directive, f: seq<Directive>, s: string, read: int, out: seq<Value>, rest: string)
    requires step(d, s, read) == Go(out, rest)
    ensures ScanBy(step, [d] + f, s, read) == out + ScanBy(step, f, rest, read + |s| - |rest|)
  {
    ConsParts(d, f);
    ScanUnfolds(step, [d] + f, s, read, out, rest);
  }

  lemma ConsParts(d: Directive, f: seq<Directive>)
    ensures var g := [d] + f; g != [] && g[0] == d && g[1..] == f
  {}

  lemma ScanUnfolds(step: Stepper, g: seq<Directive>, s: string, read: int, out: seq<Value>, rest: string)
    requires g != [] && step(g[0], s, read) == Go(out, rest)
    ensures ScanBy(step, g, s, read) == out + ScanBy(step, g[1..], rest, read + |s| - |rest|)
  {}

  lemma TailStops(step: Stepper, s: string, t: string, read: int)
    requires step(Space, s, read) == Go([], t) && step(Hex(8), t, read + |s| - |t|) == Stop
    ensures ScanBy(step, TAIL_FORMAT, s, read) == []
  {
    assert TAIL_FORMAT[1..][0] == Hex(8);
  }

  lemma NameAfter(step: Stepper, u: string, w: string, read: int)
    requires step(Space, u, read) == Go([], w)
    requires step(Position, w, read + |u| - |w|) == Go([Offset(read + |u| - |w|)], w)
    ensures ScanBy(step, [Space, Position], u, read) == [Offset(read + |u| - |w|)]
  {
    var at := read + |u| - |w|;
    assert [Space, Position][1..] == [Position] && [Position][1..] == [];
    assert ScanBy(step, [Position], w, at) == [Offset(at)];
  }

  lemma TailReads(step: Stepper, s: string, t: string, n: nat, u: string, w: string, read: int)
    requires step(Space, s, read) == Go([], t) && step(Hex(8), t, read + |s| - |t|) == Go([Number(n)], u)
    requires step(Space, u, read + |s| - |u|) == Go([], w)
    requires step(Position, w, read + |s| - |w|) == Go([Offset(read + |s| - |w|)], w)
    ensures ScanBy(step, TAIL_FORMAT, s, read) == [Number(n)] + [Offset(read + |s| - |w|)]
  {
    hide ScanBy;
    NameAfter(step, u, w, read + |s| - |u|);
    ScanGoes(step, Hex(8), [Space, Position], t, read + |s| - |t|, [Number(n)], u);
    ScanGoes(step, Space, [Hex(8)] + [Space, Position], s, read, [], t);
    assert [Space] + ([Hex(8)] + [Space, Position]) == TAIL_FORMAT;
  }

  lemma WordThenTail(step: Stepper, s: string, mid: string, p: string, left: string, read: int)
    requires step(Space, s, read) == Go([], mid) && step(Word(4095), mid, read + |s| - |mid|) == Go([Text(p)], left)
    ensures ScanBy(step, REST_FORMAT, s, read) == [Text(p)] + ScanBy(step, TAIL_FORMAT, left, read + |s| - |left|)
  {
    hide ScanBy;
    ScanGoes(step, Word(4095), TAIL_FORMAT, mid, read + |s| - |mid|, [Text(p)], left);
    ScanGoes(step, Space, [Word(4095)] + TAIL_FORMAT, s, read, [], mid);
    assert [Space] + ([Word(4095)] + TAIL_FORMAT) == REST_FORMAT;
  }

  lemma TextBehindHead(step: Stepper, ps: Pieces, line: string, rest: string, f: seq<Directive>, v: seq<Value>,
                       mid: string, p: string, left: string)
    requires CText.Reads(step, ps, rest) && TextOf(ps, rest) == line && FormatOf(ps) == f && ValuesOf(ps) == v
    requires forall read :: step(Space, rest, read) == Go([], mid)
    requires forall read :: step(Word(4095), mid, read) == Go([Text(p)], left)
    ensures ScanBy(step, f + REST_FORMAT, line, 0) == v + ([Text(p)] + ScanBy(step, TAIL_FORMAT, left, |line| - |left|))
  {
    hide ScanBy, CText.Reads, TextOf, FormatOf, ValuesOf;
    ScanAfterHead(step, ps, line, rest, f, REST_FORMAT, v);
    WordThenTail(step, rest, mid, p, left, |line| - |rest|);
  }

  /** The line's values when the text field takes `p` and leaves `left`. */
  lemma ScanWithText(r: Record, mid: string, p: string, left: string)
    requires forall read :: Step(Space, " " + Rest(r), read) == Go([], mid)
    requires forall read :: Step(Word(4095), mid, read) == Go([Text(p)], left)
    ensures ScanLine(Line(r)) == HeadValues(r) + ([Text(p)] + ScanBy(Scanner(), TAIL_FORMAT, left, |Line(r)| - |left|))
  {
    hide Head, Rest, HeadPieces, HeadValues, ScanBy, SkipSpace, WordRun, CText.Reads, TextOf, FormatOf, ValuesOf, Line;
    HeadCovers(r, Rest(r));
    LineIsHead(r);
    FormatSplits();
    TextBehindHead(Scanner(), HeadPieces(r), Line(r), " " + Rest(r), LINE_FORMAT[..11], HeadValues(r), mid, p, left);
  }

  // ---------------------------------------------------------------------------------------------
  // Flags and name, read behind a text that is not the whole descriptor.

  lemma ValuesGive(r: Record, v: seq<Value>, p: string, tail: seq<Value>, line: string)
    requires v == HeadValues(r) + ([Text(p)] + tail) && |tail| <= 2
    requires |tail| >= 1 ==> tail[0].Number?
    requires |tail| == 2 ==> tail[1].Offset? && 0 <= tail[1].at <= |line|
    ensures ParsedFrom(v, line) == Recovered(r).(data := Pairs(p),
              flags := if |tail| >= 1 then Some(tail[0].n % 0x1_0000_0000) else None,
              name := if |tail| == 2 then Some(Cut(line[tail[1].at..])) else None)
  {
    hide Pairs;
  }

  /** If no number is found behind the text, neither flags nor name are reached. */
  lemma TextThenNothing(r: Record, mid: string, p: string, left: string, t: string)
    requires forall read :: Step(Space, " " + Rest(r), read) == Go([], mid)
    requires forall read :: Step(Word(4095), mid, read) == Go([Text(p)], left)
    requires forall read :: Step(Space, left, read) == Go([], t)
    requires forall read :: Step(Hex(8), t, read) == Stop
    ensures Parse(Line(r)) == Recovered(r).(data := Pairs(p), flags := None, name := None)
  {
    hide Line, Rest, HeadValues, ScanBy, SkipSpace, WordRun, ScanHex, Pairs, Recovered, ParsedFrom, ScanLine;
    ScanWithText(r, mid, p, left);
    TailStops(Scanner(), left, t, |Line(r)| - |left|);
    ValuesGive(r, ScanLine(Line(r)), p, [], Line(r));
  }

  /** Otherwise the number becomes the flags, and what is behind it the name. */
  lemma TextThenNumber(r: Record, mid: string, p: string, left: string, t: string, n: uint32, u: string, w: string)
    requires forall read :: Step(Space, " " + Rest(r), read) == Go([], mid)
    requires forall read :: Step(Word(4095), mid, read) == Go([Text(p)], left)
    requires forall read :: Step(Space, left, read) == Go([], t)
    requires forall read :: Step(Hex(8), t, read) == Go([Number(n)], u)
    requires forall read :: Step(Space, u, read) == Go([], w)
    requires |w| <= |Line(r)| && w == Line(r)[|Line(r)| - |w|..]
    ensures Parse(Line(r)) == Recovered(r).(data := Pairs(p), flags := Some(n), name := Some(Cut(w)))
  {
    hide Line, Rest, HeadValues, ScanBy, SkipSpace, WordRun, ScanHex, Pairs, Recovered, ParsedFrom, ScanLine;
    ScanWithText(r, mid, p, left);
    TailReads(Scanner(), left, t, n, u, w, |Line(r)| - |left|);
    ValuesGive(r, ScanLine(Line(r)), p, [Number(n), Offset(|Line(r)| - |w|)], Line(r));
  }

  // ---------------------------------------------------------------------------------------------
  // No descriptor: the flags are taken for it, and what the name starts with for the flags.

  /** The name starts with the number `m` behind white space, and `rest` follows. */
  predicate Starts(name: string, sp: string, m: G.Numeral, rest: string) {
    name == sp + m.Written() + rest && G.Blanks(sp) && m.Taken(8, rest)
  }

  /** The bytes of a number, most significant first. */
  function BytesOf(n: uint32): seq<byte> {
    [n / 0x100_0000, (n / 0x1_0000) % 256, (n / 256) % 256, n % 256]
  }

  /** What comes back of a record without a descriptor: the bytes of the flags as the descriptor, other flags, another name. */
  function WithoutDescriptor(r: Record, flags: Option<uint32>, name: Option<string>): Parsed {
    Recovered(r).(data := BytesOf(r.flags), flags := flags, name := name)
  }

  lemma FlagsTaken(r: Record)
    requires r.data == []
    ensures var f := PrintHex(r.flags, 8);
            && (forall read :: Step(Space, " " + Rest(r), read) == Go([], f + (" " + r.name)))
            && (forall read :: Step(Word(4095), f + (" " + r.name), read) == Go([Text(f)], " " + r.name))
            && (forall read :: Step(Space, " " + r.name, read) == Go([], SkipSpace(r.name)))
            && Pairs(f) == BytesOf(r.flags)
  {
    FlagBytes(r.flags);
    FieldsFit(r);
    var f := PrintHex(r.flags, 8);
    PrintedReadsBack(r.flags, 8);
    HexHasNoSpace(f);
    HexIsVisible(f[0]);
    var mid := f + (" " + r.name);
    assert Rest(r) == " " + mid;
    hide PrintHex, Rest, Step, Pairs, ParseHex, AllHex;
    forall read ensures Step(Space, " " + Rest(r), read) == Go([], mid) {
      SkipTwo(mid, read);
    }
    forall read ensures Step(Word(4095), mid, read) == Go([Text(f)], " " + r.name) {
      WordSteps(f, " " + r.name, 4095, read);
    }
    forall read ensures Step(Space, " " + r.name, read) == Go([], SkipSpace(r.name)) {
      SpaceSteps(r.name, read);
    }
  }

  lemma NumberSteps(m: G.Numeral, rest: string)
    requires m.Taken(8, rest)
    ensures forall read :: Step(Hex(8), m.Written() + rest, read) == Go([Number(m.Value())], rest)
  {
    hide ScanHex, G.Wrapped, G.AllDigits;
    G.NumeralRead("", m, rest, 8);
    assert "" + m.Written() + rest == m.Written() + rest;
  }

  lemma GapSteps(gap: string, kept: string)
    requires G.Blanks(gap) && !G.StartsBlank(kept)
    ensures forall read :: Step(Space, gap + kept, read) == Go([], kept)
  {
    G.BlanksSkipped(gap, kept);
    hide SkipSpace;
  }

  lemma NumeralVisible(m: G.Numeral, rest: string)
    requires m.Taken(8, rest)
    ensures !G.StartsBlank(m.Written() + rest) && m.Value() < 0x1_0000_0000
  {
    G.SignRead(m, rest, 8);
  }

  /** Without a descriptor: if the name starts with a number, in up to eight characters, that number comes back as the flags,
      and the name without it. The descriptor is the four bytes of the flags. */
  lemma EmptyDescriptorRead(r: Record, sp: string, m: G.Numeral, gap: string, kept: string)
    requires r.Valid() && r.data == [] && Starts(r.name, sp, m, gap + kept) && G.Blanks(gap) && !G.StartsBlank(kept)
    ensures m.Value() < 0x1_0000_0000 && Parse(Line(r)) == WithoutDescriptor(r, Some(m.Value()), Some(kept))
  {
    var f, t := PrintHex(r.flags, 8), m.Written() + (gap + kept);
    hide Line, Rest, Pairs, PrintHex, Recovered, Parse, Step, ShowsTwo, ShowsFour, ShowsEight;
    FlagsTaken(r);
    NumeralVisible(m, gap + kept);
    assert r.name == sp + t;
    G.BlanksSkipped(sp, t);
    NumberSteps(m, gap + kept);
    GapSteps(gap, kept);
    NameEnds(r, kept);
    TextThenNumber(r, f + (" " + r.name), f, " " + r.name, t, m.Value(), gap + kept, kept);
  }

  lemma NameEnds(r: Record, kept: string)
    requires r.Valid() && |kept| <= |r.name| && kept == r.name[|r.name| - |kept|..]
    ensures |kept| <= |Line(r)| && kept == Line(r)[|Line(r)| - |kept|..] && Cut(kept) == kept
  {
    SuffixIsName(r, |kept|);
  }

  /** And if it does not, neither flags nor name come back at all. */
  lemma EmptyDescriptorUnread(r: Record)
    requires r.data == [] && !exists sp, m, rest :: Starts(r.name, sp, m, rest)
    ensures Parse(Line(r)) == WithoutDescriptor(r, None, None)
  {
    var f, t := PrintHex(r.flags, 8), SkipSpace(r.name);
    hide Line, Rest, Pairs, PrintHex, Recovered, Parse, ScanHex, SkipSpace, Starts, BytesOf;
    FlagsTaken(r);
    var sp, m, rest := SomethingStarts(r.name);
    forall read ensures Step(Hex(8), t, read) == Stop {}
    hide Step;
    TextThenNothing(r, f + (" " + r.name), f, " " + r.name, t);
  }

  lemma SomethingStarts(name: string) returns (sp: string, m: G.Numeral, rest: string)
    ensures ScanHex(SkipSpace(name), 8).Some? ==> Starts(name, sp, m, rest)
  {
    hide ScanHex, SkipSpace;
    var t := SkipSpace(name);
    G.SkippedBlanks(name);
    sp, m := G.ReadNumeral(t, 8);
    rest := "";
    if ScanHex(t, 8).Some? {
      var lead := name[..|name| - |t|];
      rest := ScanHex(t, 8).value.1;
      assert name == lead + sp + m.Written() + rest;
      sp := lead + sp;
    }
  }

  /** So it is, for one, when the name, behind white space, starts with neither a digit nor a sign. */
  lemma NoNumberFirst(sp: string, t: string)
    requires G.Blanks(sp) && (t == "" || (!G.Blank(t[0]) && !G.IsDigit(t[0]) && t[0] != '+' && t[0] != '-'))
    ensures !exists lead, m, rest :: Starts(sp + t, lead, m, rest)
  {
    forall lead, m, rest ensures !Starts(sp + t, lead, m, rest) {
      if Starts(sp + t, lead, m, rest) {
        NumeralVisible(m, rest);
        assert lead + m.Written() + rest == lead + (m.Written() + rest);
        G.BlanksSkipped(lead, m.Written() + rest);
        G.BlanksSkipped(sp, t);
        assert t == m.Written() + rest;
        FirstOfNumeral(m, rest);
      }
    }
  }

  lemma FirstOfNumeral(m: G.Numeral, rest: string)
    requires m.Valid()
    ensures var t := m.Written() + rest; t != "" && (G.IsDigit(t[0]) || t[0] == '+' || t[0] == '-')
  {}

  lemma OneDigit()
    ensures G.AllDigits("B") && G.Amount("B") == 11
  {
    assert "B"[1..] == "" && Pow16(0) == 1;
  }

  /** A device without a descriptor by the name of "Bluetooth Mouse" comes back with flags 0xB, as "luetooth Mouse". */
  lemma BluetoothMouse(r: Record)
    requires r.data == [] && r.name == "Bluetooth Mouse"
    ensures Parse(Line(r)).flags == Some(0xB) && Parse(Line(r)).name == Some("luetooth Mouse")
  {
    var m := G.Numeral("", "", "B");
    OneDigit();
    hide Line, Parse, G.Amount, Rest, Recovered;
    assert m.Value() == 0xB;
    assert r.name == "" + m.Written() + ("" + "luetooth Mouse");
    EmptyDescriptorRead(r, "", m, "", "luetooth Mouse");
  }

  // ---------------------------------------------------------------------------------------------
  // Too long a descriptor: the digits left over are taken for the flags.

  lemma DigitsSnoc(data: seq<byte>, b: byte)
    ensures Digits(data + [b]) == Digits(data) + PrintHex(b, 2)
  {
    hide PrintHex;
    assert (data + [b])[..|data|] == data;
  }

  lemma AppendSnoc(a: seq<byte>, c: seq<byte>, x: byte)
    ensures a + (c + [x]) == (a + c) + [x]
  {}

  lemma TextsAppend(a: string, b: string, c: string)
    ensures a + (b + c) == a + b + c
  {}

  lemma {:induction false} DigitsAppend(a: seq<byte>, b: seq<byte>)
    ensures Digits(a + b) == Digits(a) + Digits(b)
    decreases |b|
  {
    if b == [] {
      assert a + b == a;
      assert Digits(b) == "";
    } else {
      hide PrintHex, Digits;
      var n := |b| - 1;
      var c, x := b[..n], b[n];
      DigitsAppend(a, c);
      DigitsSnoc(c, x);
      DigitsSnoc(a + c, x);
      assert b == c + [x];
      AppendSnoc(a, c, x);
      TextsAppend(Digits(a), Digits(c), PrintHex(x, 2));
    }
  }

  /** A number whose leading part is `top` and whose further bytes are `s`. */
  function BigEndian(top: nat, s: seq<byte>): nat {
    if s == [] then top else 256 * BigEndian(top, s[..|s| - 1]) + s[|s| - 1]
  }

  lemma DigitAmount(s: string, d: nat)
    requires G.AllDigits(s) && d < 16
    ensures G.AllDigits(s + [HexDigit(d)]) && G.Amount(s + [HexDigit(d)]) == 16 * G.Amount(s) + d
  {
    DigitReadsBack(d);
    G.DigitIs(HexDigit(d));
    hide G.Amount, HexDigit;
    G.AmountSnoc(s, HexDigit(d));
  }

  lemma TwoDigits(b: byte)
    ensures PrintHex(b, 2) == [HexDigit(b / 16), HexDigit(b % 16)]
  {
    assert PrintHex(b, 2) == PrintHex(b / 16, 1) + [HexDigit(b % 16)];
  }

  lemma {:induction false} DigitsAmount(s: string, data: seq<byte>)
    requires G.AllDigits(s)
    ensures var t := s + Digits(data); G.AllDigits(t) && G.Amount(t) == BigEndian(G.Amount(s), data)
    decreases |data|
  {
    hide PrintHex, HexDigit, G.Amount, G.AllDigits;
    if data == [] {
      assert s + "" == s;
    } else {
      var n := |data| - 1;
      DigitsAmount(s, data[..n]);
      TwoDigits(data[n]);
      var t := s + Digits(data[..n]);
      DigitAmount(t, data[n] / 16);
      DigitAmount(t + [HexDigit(data[n] / 16)], data[n] % 16);
      assert s + Digits(data) == t + [HexDigit(data[n] / 16)] + [HexDigit(data[n] % 16)];
    }
  }

  /** The digits the text field leaves. */
  function LeftOver(data: seq<byte>): string
    requires |data| > 2047
  {
    DigitsAreHex(data);
    Digits(data)[4095..]
  }

  /** They are the low one of byte 2047, then those of the bytes behind it. */
  lemma LeftDigits(data: seq<byte>)
    requires |data| > 2047
    ensures |LeftOver(data)| == 2 * |data| - 4095
    ensures LeftOver(data) == [HexDigit(data[2047] % 16)] + Digits(data[2048..])
  {
    hide PrintHex, HexDigit, Digits, AllHex;
    var a, b, c := data[..2047], data[2047], data[2048..];
    DigitsAreHex(data);
    DigitsAreHex(a);
    TwoDigits(b);
    OneByte(b);
    DigitsAppend(a, [b] + c);
    DigitsAppend([b], c);
    assert data == a + ([b] + c);
  }

  lemma OneByte(b: byte)
    ensures Digits([b]) == PrintHex(b, 2)
  {
    hide PrintHex;
    assert [b][..0] == [];
    assert Digits([]) == "";
    assert "" + PrintHex(b, 2) == PrintHex(b, 2);
  }

  /** How many of the digits left over the flags take. */
  function LeftCount(data: seq<byte>): nat
    requires |data| > 2047
  {
    if |data| <= 2051 then 2 * |data| - 4095 else 8
  }

  /** Their value. */
  lemma LeftAmount(data: seq<byte>)
    requires |data| > 2047
    ensures var left := LeftOver(data);
            var k := LeftCount(data);
            && |left| == 2 * |data| - 4095 && k <= |left| && G.AllDigits(left)
            && G.Amount(left[..k]) == LeftValue(data)
  {
    hide PrintHex, HexDigit, Digits, G.Amount, AllHex, G.AllDigits, BigEndian;
    var left, top := LeftOver(data), data[2047] % 16;
    LeftDigits(data);
    TopDigit(top);
    var s := [HexDigit(top)];
    DigitsAmount(s, data[2048..]);
    if |data| <= 2051 {
      assert left[..|left|] == left;
    } else {
      var a, b, c := data[2048..2051], data[2051], data[2052..];
      DigitsAreHex(a);
      DigitsAmount(s, a);
      TwoDigits(b);
      OneByte(b);
      DigitsAppend(a, [b] + c);
      DigitsAppend([b], c);
      assert data[2048..] == a + ([b] + c);
      DigitAmount(s + Digits(a), b / 16);
      assert left[..8] == s + Digits(a) + [HexDigit(b / 16)];
    }
  }

  lemma TopDigit(d: nat)
    requires d < 16
    ensures G.AllDigits([HexDigit(d)]) && G.Amount([HexDigit(d)]) == d
  {
    assert "" + [HexDigit(d)] == [HexDigit(d)];
    DigitAmount("", d);
  }

  /** The value of up to eight digits from the low one of byte 2047 on. */
  function LeftValue(data: seq<byte>): nat
    requires |data| > 2047
  {
    if |data| <= 2051 then BigEndian(data[2047] % 16, data[2048..])
    else 16 * BigEndian(data[2047] % 16, data[2048..2051]) + data[2051] / 16
  }

  lemma DigitsTaken(digits: string, rest: string)
    requires digits != "" && G.AllDigits(digits) && |digits| <= 8
    requires |digits| == 8 || (rest != "" && rest[0] == ' ')
    ensures G.Numeral("", "", digits).Taken(8, rest) && G.Numeral("", "", digits).Written() == digits
  {}

  lemma {:induction false} ParseHexBound(s: string)
    requires AllHex(s)
    ensures ParseHex(s) < Pow16(|s|)
  {
    if s != "" {
      ParseHexBound(s[..|s| - 1]);
    }
  }

  lemma AmountBound(s: string)
    requires G.AllDigits(s) && |s| <= 8
    ensures G.Amount(s) < 0x1_0000_0000
  {
    G.AmountIs(s);
    ParseHexBound(s);
    Pow16Bound(|s|);
  }

  /** The name's buffer after that: the line from behind the digits taken, and behind the blank if there is one. */
  function LeftName(r: Record): string
    requires |r.data| > 2047
  {
    LineLength(r);
    Cut(Line(r)[if |r.data| <= 2051 then 27 + 2 * |r.data| else 4129..])
  }

  lemma SplitsAt(s: string, a: nat, b: nat, tail: string)
    requires a <= |s| && b <= |s[a..]|
    ensures s + tail == s[..a] + (s[a..][..b] + (s[a..][b..] + tail))
  {
    assert s == s[..a] + s[a..] && s[a..] == s[a..][..b] + s[a..][b..];
  }

  lemma SuffixOf(line: string, whole: string, p: string, digits: string, rest: string)
    requires |line| == 26 + |whole| && line[26..] == whole && whole == p + (digits + rest)
    ensures |line| == 26 + |p| + |digits| + |rest| && line[26 + |p| + |digits|..] == rest
  {
    assert whole[|p|..] == digits + rest && whole[|p|..][|digits|..] == rest;
    assert line[26 + |p| + |digits|..] == whole[|p| + |digits|..];
  }

  /** How the rest of the line splits: text taken, digits taken, and what the name is read from. */
  lemma LeftSplits(r: Record, p: string, digits: string, rest: string)
    requires |r.data| > 2047
    requires |p| == 4095 <= |Digits(r.data)| && p == Digits(r.data)[..4095]
    requires |digits| <= |LeftOver(r.data)| && digits == LeftOver(r.data)[..|digits|]
    requires rest == LeftOver(r.data)[|digits|..] + (" " + (PrintHex(r.flags, 8) + (" " + r.name)))
    ensures Rest(r) == p + (digits + rest) && |Line(r)| == 26 + 4095 + |digits| + |rest| && Line(r)[26 + 4095 + |digits|..] == rest
  {
    hide PrintHex, Digits, Head, Line, ShowsTwo, ShowsFour, AllHex;
    HeadLaid(r, Rest(r));
    LineIsHead(r);
    SplitsAt(Digits(r.data), 4095, |digits|, " " + (PrintHex(r.flags, 8) + (" " + r.name)));
    SuffixOf(Line(r), Rest(r), p, digits, rest);
  }

  lemma StaysPut(s: string)
    requires s != "" && !IsSpace(s[0])
    ensures forall read :: Step(Space, s, read) == Go([], s)
  {
    NothingSkipped(s);
    hide SkipSpace;
  }

  lemma BlankSteps(s: string)
    requires s != "" && !IsSpace(s[0])
    ensures forall read :: Step(Space, " " + s, read) == Go([], s)
  {
    NothingSkipped(s);
    forall read ensures Step(Space, " " + s, read) == Go([], s) {
      SpaceSteps(s, read);
    }
  }

  /** What the name is read from: behind the digits comes a blank and the flags, or else another digit. */
  lemma NameSteps(r: Record, digits: string, rest: string)
    requires |r.data| > 2047
    requires |digits| == if |r.data| <= 2051 then 2 * |r.data| - 4095 else 8
    requires |LeftOver(r.data)| == 2 * |r.data| - 4095 && G.AllDigits(LeftOver(r.data))
    requires rest == LeftOver(r.data)[|digits|..] + (" " + (PrintHex(r.flags, 8) + (" " + r.name)))
    ensures rest != "" && (|digits| == 8 || rest[0] == ' ')
    ensures forall read :: Step(Space, rest, read) == Go([], if |r.data| <= 2051 then rest[1..] else rest)
  {
    hide Step, AllHex, LeftOver, SkipSpace;
    FieldsFit(r);
    PrintedIsVisible(r.flags, 8, " " + r.name);
    hide PrintHex;
    var left, tail := LeftOver(r.data), PrintHex(r.flags, 8) + (" " + r.name);
    if |r.data| <= 2051 {
      assert rest == " " + tail && rest[1..] == tail;
      BlankSteps(tail);
    } else {
      assert rest[0] == left[8];
      G.DigitIs(left[8]);
      HexIsVisible(left[8]);
      StaysPut(rest);
    }
  }

  lemma TextSteps(p: string, left: string)
    requires |p| == 4095 && AllHex(p)
    ensures forall read :: Step(Space, " " + (p + left), read) == Go([], p + left)
    ensures forall read :: Step(Word(4095), p + left, read) == Go([Text(p)], left)
  {
    HexHasNoSpace(p);
    HexIsVisible(p[0]);
    BlankSteps(p + left);
    forall read ensures Step(Word(4095), p + left, read) == Go([Text(p)], left) {
      WordSteps(p, left, 4095, read);
    }
  }

  lemma LongParse(r: Record, p: string, digits: string, rest: string)
    requires |r.data| > 2047 && |LeftOver(r.data)| == 2 * |r.data| - 4095 && G.AllDigits(LeftOver(r.data))
    requires |p| == 4095 <= |Digits(r.data)| && AllHex(p) && p == Digits(r.data)[..4095]
    requires |digits| == LeftCount(r.data) && digits == LeftOver(r.data)[..LeftCount(r.data)] && G.AllDigits(digits)
    requires rest == LeftOver(r.data)[|digits|..] + (" " + (PrintHex(r.flags, 8) + (" " + r.name)))
    ensures G.Amount(digits) < 0x1_0000_0000 && rest != ""
    ensures |Line(r)| == 26 + 4095 + |digits| + |rest| && Line(r)[26 + 4095 + |digits|..] == rest
    ensures Parse(Line(r)) == Recovered(r).(data := Pairs(p), flags := Some(G.Amount(digits)),
                                            name := Some(Cut(if |r.data| <= 2051 then rest[1..] else rest)))
  {
    hide PrintHex, Digits, AllHex, Line, Rest, Recovered, Parse, Step, LeftOver, G.Amount, Pairs, Cut, G.AllDigits;
    LeftSplits(r, p, digits, rest);
    NameSteps(r, digits, rest);
    TextSteps(p, digits + rest);
    DigitsTaken(digits, rest);
    AmountBound(digits);
    LeftFlags(r, p, digits, rest, if |r.data| <= 2051 then rest[1..] else rest);
  }

  /** With a descriptor of more than 2047 bytes: its first 2047 come back, up to eight digits of the rest as the flags, and as
      the name, cut to 127 characters, the line from there on. */
  lemma LongDescriptorRead(r: Record)
    requires r.Valid() && |r.data| > 2047
    ensures LeftValue(r.data) < 0x1_0000_0000
    ensures Parse(Line(r)) == Recovered(r).(data := r.data[..2047], flags := Some(LeftValue(r.data)), name := Some(LeftName(r)))
  {
    hide PrintHex, Digits, AllHex, Line, Recovered, Parse, LeftOver, LeftValue, G.Amount, Pairs, Cut, G.AllDigits;
    var d, left, k := Digits(r.data), LeftOver(r.data), LeftCount(r.data);
    DigitsAreHex(r.data);
    LeftAmount(r.data);
    PrefixIsHex(d, 4095);
    PrefixIsDigits(left, k);
    PairsOfPrefix(r.data, 2047);
    LongParse(r, d[..4095], left[..k], left[k..] + (" " + (PrintHex(r.flags, 8) + (" " + r.name))));
    assert Line(r)[26 + 4095 + k..][1..] == Line(r)[26 + 4095 + k + 1..];
  }

  lemma PrefixIsHex(s: string, n: nat)
    requires AllHex(s) && n <= |s|
    ensures AllHex(s[..n])
  {}

  lemma PrefixIsDigits(s: string, n: nat)
    requires G.AllDigits(s) && n <= |s|
    ensures G.AllDigits(s[..n])
  {}

  lemma DigitsStep(digits: string, rest: string)
    requires G.Numeral("", "", digits).Taken(8, rest) && G.Numeral("", "", digits).Written() == digits
    requires G.AllDigits(digits) && G.Amount(digits) < 0x1_0000_0000
    ensures forall read :: Step(Space, digits + rest, read) == Go([], digits + rest)
    ensures forall read :: Step(Hex(8), digits + rest, read) == Go([Number(G.Amount(digits))], rest)
  {
    hide G.Amount, ScanHex;
    var m := G.Numeral("", "", digits);
    assert m.Value() == G.Amount(digits);
    NumberSteps(m, rest);
    G.DigitIs(digits[0]);
    HexIsVisible(digits[0]);
    StaysPut(digits + rest);
  }

  lemma LeftFlags(r: Record, p: string, digits: string, rest: string, w: string)
    requires forall read :: Step(Space, " " + Rest(r), read) == Go([], p + (digits + rest))
    requires forall read :: Step(Word(4095), p + (digits + rest), read) == Go([Text(p)], digits + rest)
    requires forall read :: Step(Space, rest, read) == Go([], w)
    requires G.Numeral("", "", digits).Taken(8, rest) && G.Numeral("", "", digits).Written() == digits
    requires G.AllDigits(digits) && G.Amount(digits) < 0x1_0000_0000
    requires |w| <= |Line(r)| && w == Line(r)[|Line(r)| - |w|..]
    ensures Parse(Line(r)) == Recovered(r).(data := Pairs(p), flags := Some(G.Amount(digits)), name := Some(Cut(w)))
  {
    hide Line, Rest, Recovered, Parse, G.Amount, Pairs, Cut, Step, G.AllDigits;
    DigitsStep(digits, rest);
    TextThenNumber(r, p + (digits + rest), p, digits + rest, digits + rest, G.Amount(digits), rest, w);
  }
}
