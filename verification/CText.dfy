/**
  The parts of C's formatted text that the record store relies on: upper-case hexadecimal output, and input
  by a format of hexadecimal fields, literal characters, white space, words and the position directive
  (section 7.21.6 of ISO/IEC 9899:2011).
 */
module CText {
  import opened Bytes

  /** A C string holds no terminator. */
  type cstring = s: string | '\0' !in s

  predicate IsSpace(c: char) {
    c == ' ' || c == '\t' || c == '\n' || c == '\U{0B}' || c == '\U{0C}' || c == '\r'
  }

  function HexDigit(d: nat): char
    requires d < 16
  {
    "0123456789ABCDEF"[d]
  }

  function HexValue(c: char): Option<nat> {
    if '0' <= c <= '9' then Some(c as int - '0' as int)
    else if 'A' <= c <= 'F' then Some(c as int - 'A' as int + 10)
    else if 'a' <= c <= 'f' then Some(c as int - 'a' as int + 10)
    else None
  }

  predicate IsHex(c: char) { HexValue(c).Some? }

  // ---------------------------------------------------------------------------------------------
  // Output.

  /** `n` in upper-case hexadecimal, with leading zeros up to `width` digits. */
  function PrintHex(n: nat, width: nat): string {
    if n < 16 && width <= 1 then [HexDigit(n)]
    else PrintHex(n / 16, if width == 0 then 0 else width - 1) + [HexDigit(n % 16)]
  }

  /** What a formatted print into a buffer of `bound` characters leaves there, terminator aside. */
  function Snprintf(bound: nat, s: string): string
    requires 0 < bound
  {
    if |s| < bound then s else s[..bound - 1]
  }

  /** The character code of an upper-case hexadecimal digit. */
  predicate Shows(c: char, d: int) {
    0 <= d < 16 && c as int == if d < 10 then 48 + d else 55 + d
  }

  /** A byte, as two such digits at a place of `s`; then wider numbers. */
  predicate ShowsTwo(s: string, at: nat, n: int) {
    at + 2 <= |s| && Shows(s[at], n / 16) && Shows(s[at + 1], n % 16)
  }

  predicate ShowsFour(s: string, at: nat, n: int) {
    ShowsTwo(s, at, n / 256) && ShowsTwo(s, at + 2, n % 256)
  }

  predicate ShowsEight(s: string, at: nat, n: int) {
    ShowsFour(s, at, n / 0x1_0000) && ShowsFour(s, at + 4, n % 0x1_0000)
  }

  lemma DigitShows(d: nat)
    requires d < 16
    ensures Shows(HexDigit(d), d)
  {}

  lemma PrintsTwo(n: nat, rest: string)
    requires n < 0x100
    ensures |PrintHex(n, 2)| == 2 && ShowsTwo(PrintHex(n, 2) + rest, 0, n)
  {
    DigitShows(n / 16);
    DigitShows(n % 16);
    assert PrintHex(n, 2) == PrintHex(n / 16, 1) + [HexDigit(n % 16)];
  }

  /** The last two digits of a number print its last byte. */
  lemma LastBytePrinted(n: nat, width: nat)
    requires width > 0
    ensures PrintHex(n, width + 2) == PrintHex(n / 256, width) + PrintHex(n % 256, 2)
  {
    var d := n % 256;
    assert n / 16 / 16 == n / 256 && n % 16 == d % 16 && (n / 16) % 16 == d / 16;
    assert PrintHex(n, width + 2) == PrintHex(n / 16, width + 1) + [HexDigit(n % 16)];
    assert PrintHex(n / 16, width + 1) == PrintHex(n / 16 / 16, width) + [HexDigit((n / 16) % 16)];
    assert PrintHex(d, 2) == PrintHex(d / 16, 1) + [HexDigit(d % 16)];
  }

  lemma PrintsFour(n: nat, rest: string)
    requires n < 0x1_0000
    ensures |PrintHex(n, 4)| == 4 && ShowsFour(PrintHex(n, 4) + rest, 0, n)
  {
    LastBytePrinted(n, 2);
    PrintsTwo(n / 256, "");
    PrintsTwo(n % 256, "");
    hide PrintHex;
    var a, b := PrintHex(n / 256, 2), PrintHex(n % 256, 2);
    assert a + "" == a && b + "" == b;
    assert (a + b + rest)[0] == a[0] && (a + b + rest)[1] == a[1] && (a + b + rest)[2] == b[0] && (a + b + rest)[3] == b[1];
  }

  lemma PrintsEight(n: nat, rest: string)
    requires n < 0x1_0000_0000
    ensures |PrintHex(n, 8)| == 8 && ShowsEight(PrintHex(n, 8) + rest, 0, n)
  {
    hide PrintHex;
    var q := n / 256;
    LastBytePrinted(n, 6);
    LastBytePrinted(q, 4);
    var h := n / 0x1_0000;
    assert q / 256 == h && q % 256 == (n % 0x1_0000) / 256 && n % 256 == (n % 0x1_0000) % 256;
    PrintsFour(h, "");
    PrintsTwo(q % 256, "");
    PrintsTwo(n % 256, "");
    var a, b, c := PrintHex(h, 4), PrintHex(q % 256, 2), PrintHex(n % 256, 2);
    var s := a + b + c + rest;
    assert PrintHex(n, 8) + rest == s;
    assert a + "" == a && b + "" == b && c + "" == c;
    assert s[0] == a[0] && s[1] == a[1] && s[2] == a[2] && s[3] == a[3];
    assert s[4] == b[0] && s[5] == b[1] && s[6] == c[0] && s[7] == c[1];
  }

  // ---------------------------------------------------------------------------------------------
  // Input.

  datatype Directive = Hex(width: nat) | Lit(c: char) | Space | Word(width: nat) | Position

  datatype Value = Number(n: nat) | Text(s: string) | Offset(at: int)

  function SkipSpace(s: string): (r: string)
    ensures |r| <= |s|
  {
    if s != "" && IsSpace(s[0]) then SkipSpace(s[1..]) else s
  }

  predicate AllHex(s: string) {
    forall i :: 0 <= i < |s| ==> IsHex(s[i])
  }

  /** How many of the first `width` characters of `s` are hexadecimal digits without a break. */
  function HexRun(s: string, width: nat): (k: nat)
    ensures k <= width && k <= |s| && AllHex(s[..k])
  {
    if width > 0 && s != "" && IsHex(s[0]) then 1 + HexRun(s[1..], width - 1) else 0
  }

  function ParseHex(s: string): nat
    requires AllHex(s)
  {
    if s == "" then 0 else 16 * ParseHex(s[..|s| - 1]) + HexValue(s[|s| - 1]).value
  }

  function SignLength(t: string, width: nat): (k: nat)
    ensures k <= width && k <= |t|
  {
    if width > 0 && t != "" && (t[0] == '+' || t[0] == '-') then 1 else 0
  }

  function PrefixLength(u: string, width: nat): (k: nat)
    ensures k <= width && k <= |u|
  {
    if width >= 2 && |u| >= 2 && u[0] == '0' && (u[1] == 'x' || u[1] == 'X') then 2 else 0
  }

  function ScanDigits(d: string, width: nat, negative: bool): (r: Option<(nat, string)>)
    ensures r.Some? ==> |r.value.1| <= |d|
  {
    var k := HexRun(d, width);
    if k == 0 then None
    else
      var v: int := ParseHex(d[..k]);
      Some(((if negative then -v else v) % 0x1_0000_0000, d[k..]))
  }

  function ScanUnsigned(u: string, width: nat, negative: bool): (r: Option<(nat, string)>)
    ensures r.Some? ==> |r.value.1| <= |u|
  {
    var prefix := PrefixLength(u, width);
    ScanDigits(u[prefix..], width - prefix, negative)
  }

  /** A hexadecimal field: white space is skipped, then at most `width` characters of an optional sign, an
      optional 0x and digits; at least one digit must be found. */
  function ScanHex(s: string, width: nat): (r: Option<(nat, string)>)
    ensures r.Some? ==> |r.value.1| <= |s|
  {
    var t := SkipSpace(s);
    var sign := SignLength(t, width);
    ScanUnsigned(t[sign..], width - sign, sign == 1 && t[0] == '-')
  }

  function WordRun(s: string, width: nat): (k: nat)
    ensures k <= width && k <= |s|
  {
    if width > 0 && s != "" && !IsSpace(s[0]) then 1 + WordRun(s[1..], width - 1) else 0
  }

  /** One directive either fails or yields the values it assigns and what is left to read. */
  datatype Outcome = Stop | Go(out: seq<Value>, rest: string)

  function Step(d: Directive, s: string, read: int): Outcome {
    match d
    case Space => Go([], SkipSpace(s))
    case Lit(c) => if s != "" && s[0] == c then Go([], s[1..]) else Stop
    case Position => Go([Offset(read)], s)
    case Hex(width) =>
      (match ScanHex(s, width)
       case None => Stop
       case Some((n, rest)) => Go([Number(n)], rest))
    case Word(width) =>
      var t := SkipSpace(s);
      var k := WordRun(t, width);
      if k == 0 then Stop else Go([Text(t[..k])], t[k..])
  }

  /** The values assigned by reading `s` with a format, `read` characters having been consumed before. The
      reading stops at the first directive that fails. */
  type Stepper = (Directive, string, int) -> Outcome

  function ScanBy(step: Stepper, format: seq<Directive>, s: string, read: int): seq<Value>
    decreases |format|
  {
    if format == [] then [] else
      match step(format[0], s, read)
      case Stop => []
      case Go(out, rest) => out + ScanBy(step, format[1..], rest, read + |s| - |rest|)
  }

  function Scan(format: seq<Directive>, s: string, read: int): seq<Value> {
    ScanBy(Scanner(), format, s, read)
  }

  /** The value of at most two characters read as a hexadecimal integer: an optional sign, then digits up to
      the first character that is none. */
  function PairValue(p: string): int
    requires |p| == 2
  {
    if p[0] == '-' || p[0] == '+' then
      (if !IsHex(p[1]) then 0 else if p[0] == '-' then -(HexValue(p[1]).value as int) else HexValue(p[1]).value)
    else ParseHex(p[..HexRun(p, 2)])
  }

  // ---------------------------------------------------------------------------------------------
  // Reading back what was printed.

  function Pow16(n: nat): nat { if n == 0 then 1 else 16 * Pow16(n - 1) }

  lemma DigitReadsBack(d: nat)
    requires d < 16
    ensures IsHex(HexDigit(d)) && HexValue(HexDigit(d)).value == d
    ensures HexDigit(d) != 'X' && HexDigit(d) != 'x' && HexDigit(d) != '+' && HexDigit(d) != '-' && !IsSpace(HexDigit(d))
  {}

  /** A number that fits prints as exactly `width` digits, which read back as the number. */
  lemma {:induction false} PrintedReadsBack(n: nat, width: nat)
    requires 0 < width && n < Pow16(width)
    ensures var s := PrintHex(n, width); |s| == width && AllHex(s) && ParseHex(s) == n
  {
    var s := PrintHex(n, width);
    if width == 1 {
      DigitReadsBack(n);
      assert s[..0] == "";
    } else {
      PrintedReadsBack(n / 16, width - 1);
      DigitReadsBack(n % 16);
      var p := PrintHex(n / 16, width - 1);
      assert s == p + [HexDigit(n % 16)];
      assert s[..|s| - 1] == p;
    }
  }

  lemma HexIsVisible(c: char)
    requires IsHex(c)
    ensures !IsSpace(c) && c != '+' && c != '-' && c != 'x' && c != 'X'
  {}

  lemma {:induction false} HexRunOf(s: string, rest: string)
    requires AllHex(s)
    ensures HexRun(s + rest, |s|) == |s|
  {
    if s != "" {
      assert (s + rest)[1..] == s[1..] + rest;
      HexRunOf(s[1..], rest);
    }
  }

  lemma DigitsScan(p: string, rest: string, n: nat)
    requires AllHex(p) && p != "" && ParseHex(p) == n < 0x1_0000_0000
    ensures ScanDigits(p + rest, |p|, false) == Some((n, rest))
  {
    hide HexRun, ParseHex, AllHex;
    HexRunOf(p, rest);
    assert (p + rest)[..|p|] == p && (p + rest)[|p|..] == rest;
  }

  lemma NothingSkipped(s: string)
    requires s == "" || !IsSpace(s[0])
    ensures SkipSpace(s) == s
  {}

  lemma NoSign(s: string, width: nat)
    requires s == "" || (s[0] != '+' && s[0] != '-')
    ensures SignLength(s, width) == 0
  {}

  lemma NoPrefix(s: string, width: nat)
    requires width >= 2 && |s| >= 2 ==> s[1] != 'x' && s[1] != 'X'
    ensures PrefixLength(s, width) == 0
  {}

  lemma VisibleStart(p: string, s: string)
    requires AllHex(p) && p <= s
    ensures |p| >= 1 ==> !IsSpace(s[0]) && s[0] != '+' && s[0] != '-'
    ensures |p| >= 2 ==> s[1] != 'x' && s[1] != 'X'
  {
    if |p| >= 1 {
      HexIsVisible(p[0]);
    }
    if |p| >= 2 {
      HexIsVisible(p[1]);
    }
  }

  /** A field that starts with a digit is neither signed nor prefixed unless its second character says so. */
  lemma DirectScan(s: string, width: nat)
    requires s != "" && !IsSpace(s[0]) && s[0] != '+' && s[0] != '-'
    requires width >= 2 && |s| >= 2 ==> s[1] != 'x' && s[1] != 'X'
    ensures ScanHex(s, width) == ScanDigits(s, width, false)
  {
    NothingSkipped(s);
    NoSign(s, width);
    NoPrefix(s, width);
    assert s[0..] == s;
  }

  lemma KnownScans(p: string, rest: string, n: nat)
    requires AllHex(p) && p != "" && ParseHex(p) == n < 0x1_0000_0000
    ensures ScanHex(p + rest, |p|) == Some((n, rest))
  {
    VisibleStart(p, p + rest);
    DirectScan(p + rest, |p|);
    DigitsScan(p, rest, n);
  }

  /** A hexadecimal field reads back a printed number of its own width, whatever follows. */
  lemma ScanPrinted(n: nat, width: nat, p: string, rest: string)
    requires 0 < width <= 8 && n < Pow16(width) && p == PrintHex(n, width)
    ensures |p| == width && AllHex(p) && ScanHex(p + rest, |p|) == Some((n, rest))
  {
    PrintedReadsBack(n, width);
    Pow16Bound(width);
    KnownScans(p, rest, n);
  }

  lemma Pow16Bound(n: nat)
    requires n <= 8
    ensures Pow16(n) <= 0x1_0000_0000
  {
    assert Pow16(8) == 0x1_0000_0000;
    Pow16Grows(n, 8);
  }

  lemma {:induction false} Pow16Grows(n: nat, m: nat)
    requires n <= m
    ensures Pow16(n) <= Pow16(m)
    decreases m
  {
    if n < m {
      Pow16Grows(n, m - 1);
    }
  }

  predicate NoSpace(s: string) {
    forall i :: 0 <= i < |s| ==> !IsSpace(s[i])
  }

  lemma {:induction false} WordRunOf(s: string, rest: string, width: nat)
    requires NoSpace(s)
    requires |s| <= width && (rest == "" || IsSpace(rest[0]) || |s| == width)
    ensures WordRun(s + rest, width) == |s|
  {
    if s == "" {
      assert s + rest == rest;
    } else {
      assert (s + rest)[1..] == s[1..] + rest;
      WordRunOf(s[1..], rest, width - 1);
    }
  }

  // ---------------------------------------------------------------------------------------------
  // One directive against the text printed for it.

  lemma HexSteps(n: nat, width: nat, rest: string, read: int)
    requires 0 < width <= 8 && n < Pow16(width)
    ensures Step(Hex(width), PrintHex(n, width) + rest, read) == Go([Number(n)], rest)
  {
    ScanPrinted(n, width, PrintHex(n, width), rest);
  }

  lemma LitSteps(c: char, rest: string, read: int)
    ensures Step(Lit(c), [c] + rest, read) == Go([], rest)
  {
    assert ([c] + rest)[1..] == rest;
  }

  lemma SpaceSteps(rest: string, read: int)
    ensures Step(Space, " " + rest, read) == Go([], SkipSpace(rest))
  {
    assert (" " + rest)[1..] == rest;
  }

  lemma WordSteps(t: string, rest: string, width: nat, read: int)
    requires t != "" && NoSpace(t) && |t| <= width && (rest == "" || IsSpace(rest[0]) || |t| == width)
    ensures Step(Word(width), t + rest, read) == Go([Text(t)], rest)
  {
    assert (t + rest)[0] == t[0];
    NothingSkipped(t + rest);
    WordRunOf(t, rest, width);
    assert (t + rest)[..|t|] == t && (t + rest)[|t|..] == rest;
  }

  lemma HexHasNoSpace(s: string)
    requires AllHex(s)
    ensures NoSpace(s)
  {}

  // ---------------------------------------------------------------------------------------------
  // A whole line against the directives that read it.

  /** Pieces of text, each with the directive that consumes it and the values that gives. */
  datatype Pieces = End | Piece(d: Directive, text: string, out: seq<Value>, next: Pieces)

  function TextOf(ps: Pieces, tail: string): string {
    match ps
    case End => tail
    case Piece(_, text, _, next) => text + TextOf(next, tail)
  }

  function ValuesOf(ps: Pieces): seq<Value> {
    match ps
    case End => []
    case Piece(_, _, out, next) => out + ValuesOf(next)
  }

  function FormatOf(ps: Pieces): seq<Directive> {
    match ps
    case End => []
    case Piece(d, _, _, next) => [d] + FormatOf(next)
  }

  ghost predicate Reads(step: Stepper, ps: Pieces, tail: string) {
    match ps
    case End => true
    case Piece(d, text, out, next) =>
      Reads(step, next, tail) && forall read :: step(d, text + TextOf(next, tail), read) == Go(out, TextOf(next, tail))
  }

  /** Pieces that are each read by their directive are read one after the other. */
  lemma {:induction false} ScanPieces(step: Stepper, ps: Pieces, f: seq<Directive>, tail: string, read: int)
    requires Reads(step, ps, tail)
    ensures ScanBy(step, FormatOf(ps) + f, TextOf(ps, tail), read)
         == ValuesOf(ps) + ScanBy(step, f, tail, read + |TextOf(ps, tail)| - |tail|)
    decreases ps
  {
    match ps
    case End =>
      assert FormatOf(ps) + f == f;
    case Piece(d, text, out, next) =>
      assert (FormatOf(ps) + f)[1..] == FormatOf(next) + f;
      ScanPieces(step, next, f, tail, read + |text|);
      assert ValuesOf(ps) + ScanBy(step, f, tail, read + |TextOf(ps, tail)| - |tail|)
          == out + (ValuesOf(next) + ScanBy(step, f, tail, read + |text| + |TextOf(next, tail)| - |tail|));
  }

  function Scanner(): Stepper {
    (d, s, read) => Step(d, s, read)
  }

  function HexPiece(n: nat, width: nat, next: Pieces): Pieces {
    Piece(Hex(width), PrintHex(n, width), [Number(n)], next)
  }

  lemma HexReads(n: nat, width: nat, next: Pieces, tail: string)
    requires 0 < width <= 8 && n < Pow16(width) && Reads(Scanner(), next, tail)
    ensures Reads(Scanner(), HexPiece(n, width, next), tail)
  {
    forall read ensures Step(Hex(width), PrintHex(n, width) + TextOf(next, tail), read) == Go([Number(n)], TextOf(next, tail)) {
      HexSteps(n, width, TextOf(next, tail), read);
    }
  }

  function LitPiece(c: char, next: Pieces): Pieces {
    Piece(Lit(c), [c], [], next)
  }

  lemma LitReads(c: char, next: Pieces, tail: string)
    requires Reads(Scanner(), next, tail)
    ensures Reads(Scanner(), LitPiece(c, next), tail)
  {
    forall read ensures Step(Lit(c), [c] + TextOf(next, tail), read) == Go([], TextOf(next, tail)) {
      LitSteps(c, TextOf(next, tail), read);
    }
  }

  function SpacePiece(next: Pieces): Pieces {
    Piece(Space, " ", [], next)
  }

  lemma SpaceReads(next: Pieces, tail: string)
    requires Reads(Scanner(), next, tail)
    requires TextOf(next, tail) == "" || !IsSpace(TextOf(next, tail)[0])
    ensures Reads(Scanner(), SpacePiece(next), tail)
  {
    forall read ensures Step(Space, " " + TextOf(next, tail), read) == Go([], TextOf(next, tail)) {
      SpaceSteps(TextOf(next, tail), read);
      NothingSkipped(TextOf(next, tail));
    }
  }

  function WordPiece(t: string, width: nat, next: Pieces): Pieces {
    Piece(Word(width), t, [Text(t)], next)
  }

  lemma WordReads(t: string, width: nat, next: Pieces, tail: string)
    requires Reads(Scanner(), next, tail)
    requires t != "" && NoSpace(t) && |t| <= width
    requires TextOf(next, tail) == "" || IsSpace(TextOf(next, tail)[0]) || |t| == width
    ensures Reads(Scanner(), WordPiece(t, width, next), tail)
  {
    forall read ensures Step(Word(width), t + TextOf(next, tail), read) == Go([Text(t)], TextOf(next, tail)) {
      WordSteps(t, TextOf(next, tail), width, read);
    }
  }
}
