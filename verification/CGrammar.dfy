/**
  What a formatted scan reads, as a grammar: which texts each directive consumes, and what a format yields. It is written
  down without the scanner, over character codes, and the scanner is proved to read exactly this
  (section 7.21.6.2 of ISO/IEC 9899:2011).
 */
module CGrammar {
  import opened Bytes
  import opened CText

  // ---------------------------------------------------------------------------------------------
  // Characters.

  /** Space, or one of the codes from tab to carriage return. */
  predicate Blank(c: char) { c as int == 32 || 9 <= c as int <= 13 }

  predicate Blanks(s: string) {
    forall i :: 0 <= i < |s| ==> Blank(s[i])
  }

  predicate NoBlanks(s: string) {
    forall i :: 0 <= i < |s| ==> !Blank(s[i])
  }

  predicate StartsBlank(s: string) { s != "" && Blank(s[0]) }

  predicate IsDigit(c: char) { 48 <= c as int <= 57 || 65 <= c as int <= 70 || 97 <= c as int <= 102 }

  predicate AllDigits(s: string) {
    forall i :: 0 <= i < |s| ==> IsDigit(s[i])
  }

  function Digit(c: char): nat
    requires IsDigit(c)
  {
    if c as int <= 57 then c as int - 48 else if c as int <= 70 then c as int - 55 else c as int - 87
  }

  /** The value of digits, most significant first. */
  function Amount(s: string): nat
    requires AllDigits(s)
  {
    if s == "" then 0 else Digit(s[0]) * Pow16(|s| - 1) + Amount(s[1..])
  }

  lemma BlankIs(c: char)
    ensures IsSpace(c) <==> Blank(c)
  {}

  lemma DigitIs(c: char)
    ensures IsHex(c) <==> IsDigit(c)
    ensures IsDigit(c) ==> HexValue(c) == Some(Digit(c))
  {}

  lemma DigitsAre(s: string)
    ensures AllHex(s) <==> AllDigits(s)
  {
    forall i | 0 <= i < |s| ensures IsHex(s[i]) <==> IsDigit(s[i]) {
      DigitIs(s[i]);
    }
  }

  lemma {:induction false} AmountSnoc(s: string, c: char)
    requires AllDigits(s) && IsDigit(c)
    ensures AllDigits(s + [c]) && Amount(s + [c]) == 16 * Amount(s) + Digit(c)
  {
    hide Digit, IsDigit;
    var t := s + [c];
    if s == "" {
      assert t[1..] == "" && Pow16(0) == 1;
    } else {
      assert t[1..] == s[1..] + [c];
      AmountSnoc(s[1..], c);
      assert Pow16(|s|) == 16 * Pow16(|s| - 1);
    }
  }

  lemma {:induction false} AmountIs(s: string)
    requires AllDigits(s)
    ensures AllHex(s) && ParseHex(s) == Amount(s)
  {
    DigitsAre(s);
    if s != "" {
      var n := |s| - 1;
      AmountIs(s[..n]);
      AmountSnoc(s[..n], s[n]);
      DigitIs(s[n]);
      assert s == s[..n] + [s[n]];
    }
  }

  // ---------------------------------------------------------------------------------------------
  // Numerals.

  /** What an unsigned int makes of a signed number. */
  function Wrapped(negative: bool, n: nat): nat {
    var v: int := n;
    (if negative then -v else v) % 0x1_0000_0000
  }

  predicate IsSign(s: string) { s == "" || s == "+" || s == "-" }

  predicate IsPrefix(s: string) { s == "" || s == "0x" || s == "0X" }

  /** A hexadecimal number as written. */
  datatype Numeral = Numeral(sign: string, prefix: string, digits: string)
  {
    predicate Valid() {
      IsSign(sign) && IsPrefix(prefix) && digits != "" && AllDigits(digits)
    }

    function Written(): string { sign + prefix + digits }

    /** Its value in an unsigned int. */
    function Value(): nat
      requires Valid()
    {
      Wrapped(sign == "-", Amount(digits))
    }

    /** It is all that a field of `width` characters takes when `rest` follows. */
    predicate Taken(width: nat, rest: string) {
      Valid() && Complete(prefix, digits, width - |sign|, rest)
    }
  }

  /** In `width` characters no more than prefix and digits can be taken when `rest` follows. */
  predicate Complete(prefix: string, digits: string, width: int, rest: string) {
    && |prefix| + |digits| <= width
    && (rest == "" || !IsDigit(rest[0]) || |prefix| + |digits| == width)
    && !(prefix == "" && digits == "0" && rest != "" && (rest[0] == 'x' || rest[0] == 'X') && 2 <= width)
  }

  lemma {:induction false} BlanksSkipped(sp: string, s: string)
    requires Blanks(sp) && !StartsBlank(s)
    ensures SkipSpace(sp + s) == s
  {
    if sp == "" {
      assert sp + s == s;
      if s != "" {
        BlankIs(s[0]);
      }
    } else {
      BlankIs(sp[0]);
      assert (sp + s)[1..] == sp[1..] + s;
      BlanksSkipped(sp[1..], s);
    }
  }

  lemma {:induction false} SkippedBlanks(s: string)
    ensures var t := SkipSpace(s); Blanks(s[..|s| - |t|]) && !StartsBlank(t) && s == s[..|s| - |t|] + t
  {
    if s != "" {
      BlankIs(s[0]);
      if IsSpace(s[0]) {
        var t := SkipSpace(s[1..]);
        SkippedBlanks(s[1..]);
        BlanksCons(s, |s| - |t|);
      } else {
        assert s[..0] == "" && SkipSpace(s) == s;
      }
    }
  }

  lemma BlanksCons(s: string, n: nat)
    requires 0 < n <= |s| && Blank(s[0]) && Blanks(s[1..][..n - 1])
    ensures Blanks(s[..n])
  {
    assert s[..n] == [s[0]] + s[1..][..n - 1];
  }

  lemma {:induction false} RunOfDigits(p: string, rest: string, width: nat)
    requires AllDigits(p) && |p| <= width && (rest == "" || !IsDigit(rest[0]) || |p| == width)
    ensures HexRun(p + rest, width) == |p|
  {
    if p == "" {
      assert p + rest == rest;
      if rest != "" {
        DigitIs(rest[0]);
      }
    } else {
      DigitIs(p[0]);
      assert (p + rest)[1..] == p[1..] + rest;
      RunOfDigits(p[1..], rest, width - 1);
    }
  }

  lemma {:induction false} RunEnds(s: string, width: nat)
    ensures var k := HexRun(s, width); AllDigits(s[..k]) && (k == width || k == |s| || !IsDigit(s[k]))
  {
    DigitsAre(s[..HexRun(s, width)]);
    if s != "" {
      DigitIs(s[0]);
      if width > 0 && IsDigit(s[0]) {
        RunEnds(s[1..], width - 1);
      }
    }
  }

  lemma ScannedDigits(d: string, width: nat, negative: bool, v: nat)
    requires HexRun(d, width) > 0 && ParseHex(d[..HexRun(d, width)]) == v
    ensures ScanDigits(d, width, negative) == Some((Wrapped(negative, v), d[HexRun(d, width)..]))
  {
    hide HexRun, ParseHex, AllHex;
  }

  lemma DigitsRead(p: string, rest: string, width: nat, negative: bool)
    requires p != "" && AllDigits(p) && |p| <= width && (rest == "" || !IsDigit(rest[0]) || |p| == width)
    ensures ScanDigits(p + rest, width, negative) == Some((Wrapped(negative, Amount(p)), rest))
  {
    RunOfDigits(p, rest, width);
    AmountIs(p);
    assert (p + rest)[..|p|] == p && (p + rest)[|p|..] == rest;
    hide HexRun, ParseHex, AllHex, Amount, Wrapped, ScanDigits, AllDigits, IsDigit;
    ScannedDigits(p + rest, width, negative, Amount(p));
  }

  lemma SignRead(m: Numeral, rest: string, width: nat)
    requires m.Valid() && |m.Written()| <= width
    ensures var t := m.Written() + rest;
            && SignLength(t, width) == |m.sign| && t[|m.sign|..] == m.prefix + m.digits + rest
            && !StartsBlank(t) && (|m.sign| == 1 && t[0] == '-' <==> m.sign == "-")
  {
    var t := m.Written() + rest;
    assert t == m.sign + (m.prefix + m.digits + rest);
    if m.sign == "" {
      assert t == m.prefix + m.digits + rest;
      assert m.prefix == "" ==> t[0] == m.digits[0];
    }
  }

  lemma PrefixRead(m: Numeral, rest: string, width: nat)
    requires m.Taken(width, rest)
    ensures var u := m.prefix + m.digits + rest;
            PrefixLength(u, width - |m.sign|) == |m.prefix| && u[|m.prefix|..] == m.digits + rest
  {
    var u := m.prefix + m.digits + rest;
    assert u == m.prefix + (m.digits + rest);
    if m.prefix == "" {
      assert u == m.digits + rest;
      if |m.digits| > 1 {
        assert u[1] == m.digits[1];
      } else {
        assert m.digits[0] == '0' ==> m.digits == "0";
        assert |u| > 1 ==> u[1] == rest[0];
      }
    }
  }

  lemma SignFits(m: Numeral, width: nat)
    requires m.Valid() && |m.Written()| <= width
    ensures |m.sign| + |m.prefix| + |m.digits| <= width
  {}

  /** A numeral is read as a whole, for its value, wherever it stands. */
  lemma NumeralRead(sp: string, m: Numeral, rest: string, width: nat)
    requires Blanks(sp) && m.Taken(width, rest)
    ensures ScanHex(sp + m.Written() + rest, width) == Some((m.Value(), rest))
  {
    hide SkipSpace, SignLength, PrefixLength, ScanDigits, Blanks, StartsBlank, Amount, AllDigits;
    var t := m.Written() + rest;
    SignFits(m, width);
    SignRead(m, rest, width);
    PrefixRead(m, rest, width);
    assert sp + m.Written() + rest == sp + t;
    BlanksSkipped(sp, t);
    DigitsRead(m.digits, rest, width - |m.sign| - |m.prefix|, m.sign == "-");
  }

  lemma SignPart(t: string, width: nat) returns (a: string, u: string)
    ensures t == a + u && |a| == SignLength(t, width) && u == t[SignLength(t, width)..] && IsSign(a)
  {
    a, u := t[..SignLength(t, width)], t[SignLength(t, width)..];
  }

  lemma PrefixPart(u: string, width: nat) returns (b: string, d: string)
    ensures u == b + d && |b| == PrefixLength(u, width) && d == u[PrefixLength(u, width)..] && IsPrefix(b)
    ensures b == "" && |d| > 1 && d[0] == '0' && (d[1] == 'x' || d[1] == 'X') ==> width < 2
  {
    b, d := u[..PrefixLength(u, width)], u[PrefixLength(u, width)..];
    if PrefixLength(u, width) == 2 {
      assert b == [u[0], u[1]];
    } else {
      assert d == u;
    }
  }

  lemma DigitsPart(d: string, width: nat) returns (c: string, e: string)
    ensures d == c + e && |c| == HexRun(d, width) <= width && AllDigits(c) && (e == "" || !IsDigit(e[0]) || |c| == width)
    ensures c == "0" && e != "" ==> |d| > 1 && d[0] == '0' && d[1] == e[0]
  {
    hide HexRun;
    c, e := d[..HexRun(d, width)], d[HexRun(d, width)..];
    RunEnds(d, width);
    if c == "0" && e != "" {
      assert d[0] == c[0];
    }
  }

  lemma CompleteWhen(prefix: string, digits: string, width: nat, d: string, rest: string)
    requires |digits| <= width - |prefix| && (rest == "" || !IsDigit(rest[0]) || |digits| == width - |prefix|)
    requires digits == "0" && rest != "" ==> |d| > 1 && d[0] == '0' && d[1] == rest[0]
    requires prefix == "" && |d| > 1 && d[0] == '0' && (d[1] == 'x' || d[1] == 'X') ==> width < 2
    ensures Complete(prefix, digits, width, rest)
  {
    hide IsDigit;
  }

  /** A field without digits is not read. */
  lemma NeedsDigits(u: string, width: nat, negative: bool, prefix: nat, d: string)
    requires prefix == PrefixLength(u, width) && d == u[prefix..] && HexRun(d, width - prefix) == 0
    ensures ScanUnsigned(u, width, negative).None?
  {
    hide PrefixLength, HexRun, ParseHex, AllHex;
  }

  lemma Regrouped(a: string, b: string, c: string)
    ensures a + (b + c) == a + b + c
  {}

  /** What follows a sign splits into what a field takes, if it finds a digit, and the rest. */
  lemma UnsignedSplits(u: string, width: nat, negative: bool) returns (b: string, c: string, rest: string)
    ensures u == b + c + rest && IsPrefix(b) && AllDigits(c)
    ensures if c != "" then Complete(b, c, width, rest) else ScanUnsigned(u, width, negative).None?
  {
    hide ScanUnsigned, PrefixLength, HexRun, AllDigits, IsDigit, IsPrefix, Complete;
    var d;
    b, d := PrefixPart(u, width);
    c, rest := DigitsPart(d, width - |b|);
    Regrouped(b, c, rest);
    if c != "" {
      CompleteWhen(b, c, width, d, rest);
    } else {
      NeedsDigits(u, width, negative, |b|, d);
    }
  }

  lemma WrittenIs(m: Numeral, u: string, rest: string)
    requires u == m.prefix + m.digits + rest
    ensures m.sign + u == m.Written() + rest
  {}

  /** And so does what follows white space. */
  lemma FrontSplits(t: string, width: nat) returns (m: Numeral, rest: string)
    ensures t == m.Written() + rest
    ensures var sign := SignLength(t, width);
            if m.digits != "" then m.Taken(width, rest) else ScanUnsigned(t[sign..], width - sign, sign == 1 && t[0] == '-').None?
  {
    hide ScanUnsigned, SignLength, AllDigits, IsSign, IsPrefix, Complete, Numeral.Written;
    var a, u := SignPart(t, width);
    var b, c;
    b, c, rest := UnsignedSplits(u, width - |a|, |a| == 1 && t[0] == '-');
    m := Numeral(a, b, c);
    WrittenIs(m, u, rest);
  }

  lemma FieldOf(s: string, width: nat)
    ensures var t := SkipSpace(s); var sign := SignLength(t, width);
            ScanHex(s, width) == ScanUnsigned(t[sign..], width - sign, sign == 1 && t[0] == '-')
  {
    hide SkipSpace, SignLength, ScanUnsigned;
  }

  /** And whatever is read is such a numeral. */
  lemma ReadNumeral(s: string, width: nat) returns (sp: string, m: Numeral)
    ensures var r := ScanHex(s, width);
            r.Some? ==> Blanks(sp) && m.Taken(width, r.value.1) && s == sp + m.Written() + r.value.1 && r.value.0 == m.Value()
  {
    hide ScanHex, ScanUnsigned, SkipSpace, SignLength, Blanks, StartsBlank, Numeral.Taken, Numeral.Written;
    var t := SkipSpace(s);
    SkippedBlanks(s);
    sp := s[..|s| - |t|];
    var rest;
    m, rest := FrontSplits(t, width);
    if m.digits != "" {
      Regrouped(sp, m.Written(), rest);
      NumeralRead(sp, m, rest, width);
    } else {
      FieldOf(s, width);
    }
  }

  // ---------------------------------------------------------------------------------------------
  // Directives.

  predicate IsField(text: string, sp: string, m: Numeral) {
    Blanks(sp) && text == sp + m.Written()
  }

  predicate IsWord(text: string, sp: string, w: string) {
    Blanks(sp) && text == sp + w && w != "" && NoBlanks(w)
  }

  /** The directive consumes exactly `text`, before `rest`, and assigns `out`. */
  ghost predicate Consumes(d: Directive, text: string, rest: string, read: int, out: seq<Value>) {
    match d
    case Lit(c) => text == [c] && out == []
    case Space => Blanks(text) && !StartsBlank(rest) && out == []
    case Position => text == "" && out == [Offset(read)]
    case Hex(width) => exists sp, m :: IsField(text, sp, m) && m.Taken(width, rest) && out == [Number(m.Value())]
    case Word(width) =>
      exists sp, w :: IsWord(text, sp, w) && |w| <= width && (rest == "" || StartsBlank(rest) || |w| == width) && out == [Text(w)]
  }

  lemma {:induction false} RunOfWord(w: string, rest: string, width: nat)
    requires NoBlanks(w) && |w| <= width && (rest == "" || StartsBlank(rest) || |w| == width)
    ensures WordRun(w + rest, width) == |w|
  {
    if w == "" {
      assert w + rest == rest;
      if rest != "" {
        BlankIs(rest[0]);
      }
    } else {
      BlankIs(w[0]);
      assert (w + rest)[1..] == w[1..] + rest;
      RunOfWord(w[1..], rest, width - 1);
    }
  }

  lemma {:induction false} WordEnds(s: string, width: nat)
    ensures var k := WordRun(s, width); NoBlanks(s[..k]) && (k == width || k == |s| || Blank(s[k]))
  {
    if s != "" {
      BlankIs(s[0]);
      if width > 0 && !IsSpace(s[0]) {
        WordEnds(s[1..], width - 1);
        var k := WordRun(s[1..], width - 1);
        assert s[..k + 1] == [s[0]] + s[1..][..k];
      }
    }
  }

  /** A text that a directive consumes is what it reads. */
  lemma ConsumedIsRead(d: Directive, text: string, rest: string, read: int, out: seq<Value>)
    requires Consumes(d, text, rest, read, out)
    ensures Step(d, text + rest, read) == Go(out, rest)
  {
    match d
    case Lit(c) => assert (text + rest)[1..] == rest;
    case Space => BlanksSkipped(text, rest);
    case Position => assert text + rest == rest;
    case Hex(width) =>
      var sp, m :| IsField(text, sp, m) && m.Taken(width, rest) && out == [Number(m.Value())];
      NumeralRead(sp, m, rest, width);
    case Word(width) =>
      var sp, w :| IsWord(text, sp, w) && |w| <= width && (rest == "" || StartsBlank(rest) || |w| == width) && out == [Text(w)];
      assert text + rest == sp + (w + rest);
      BlanksSkipped(sp, w + rest);
      RunOfWord(w, rest, width);
      assert (w + rest)[..|w|] == w && (w + rest)[|w|..] == rest;
  }

  /** The directive consumes the first `k` characters of `s`. */
  ghost predicate Cuts(d: Directive, s: string, k: int, read: int, out: seq<Value>) {
    0 <= k <= |s| && Consumes(d, s[..k], s[k..], read, out)
  }

  lemma CutAt(d: Directive, s: string, text: string, rest: string, read: int, out: seq<Value>)
    requires s == text + rest && Consumes(d, text, rest, read, out)
    ensures |rest| <= |s| && rest == s[|s| - |rest|..] && Cuts(d, s, |s| - |rest|, read, out)
  {
    hide Consumes;
    assert s[..|text|] == text && s[|text|..] == rest;
  }

  lemma FieldCuts(s: string, width: nat, read: int)
    requires Step(Hex(width), s, read).Go?
    ensures var g := Step(Hex(width), s, read);
            |g.rest| <= |s| && g.rest == s[|s| - |g.rest|..] && Cuts(Hex(width), s, |s| - |g.rest|, read, g.out)
  {
    hide ScanHex, Cuts, Blanks;
    var sp, m := ReadNumeral(s, width);
    var rest := ScanHex(s, width).value.1;
    assert IsField(sp + m.Written(), sp, m);
    CutAt(Hex(width), s, sp + m.Written(), rest, read, [Number(m.Value())]);
  }

  lemma WordConsumed(sp: string, w: string, rest: string, width: nat, read: int)
    requires Blanks(sp) && w != "" && NoBlanks(w) && |w| <= width && (rest == "" || StartsBlank(rest) || |w| == width)
    ensures Consumes(Word(width), sp + w, rest, read, [Text(w)])
  {
    hide Blanks, NoBlanks, StartsBlank;
    assert IsWord(sp + w, sp, w);
  }

  lemma WordCuts(s: string, width: nat, read: int)
    requires Step(Word(width), s, read).Go?
    ensures var g := Step(Word(width), s, read);
            |g.rest| <= |s| && g.rest == s[|s| - |g.rest|..] && Cuts(Word(width), s, |s| - |g.rest|, read, g.out)
  {
    hide Cuts, Consumes, Blanks, NoBlanks, SkipSpace, WordRun;
    var t := SkipSpace(s);
    SkippedBlanks(s);
    var k, sp := WordRun(t, width), s[..|s| - |t|];
    WordEnds(t, width);
    var w, rest := t[..k], t[k..];
    assert rest != "" ==> rest[0] == t[k];
    assert s == sp + w + rest by {
      assert t == w + rest;
    }
    WordConsumed(sp, w, rest, width, read);
    CutAt(Word(width), s, sp + w, rest, read, [Text(w)]);
  }

  lemma LitCuts(c: char, s: string, read: int)
    requires Step(Lit(c), s, read).Go?
    ensures var g := Step(Lit(c), s, read);
            |g.rest| <= |s| && g.rest == s[|s| - |g.rest|..] && Cuts(Lit(c), s, |s| - |g.rest|, read, g.out)
  {
    assert s == [c] + s[1..];
    hide Cuts;
    CutAt(Lit(c), s, [c], s[1..], read, []);
  }

  lemma SpaceConsumed(text: string, rest: string, read: int)
    requires Blanks(text) && !StartsBlank(rest)
    ensures Consumes(Space, text, rest, read, [])
  {}

  lemma SpaceCuts(s: string, read: int)
    ensures var g := Step(Space, s, read);
            g.Go? && |g.rest| <= |s| && g.rest == s[|s| - |g.rest|..] && Cuts(Space, s, |s| - |g.rest|, read, g.out)
  {
    hide SkipSpace, Cuts, Consumes, Blanks, StartsBlank;
    var t := SkipSpace(s);
    SkippedBlanks(s);
    SpaceConsumed(s[..|s| - |t|], t, read);
    CutAt(Space, s, s[..|s| - |t|], t, read, []);
  }

  lemma PositionCuts(s: string, read: int)
    ensures var g := Step(Position, s, read);
            g.Go? && |g.rest| <= |s| && g.rest == s[|s| - |g.rest|..] && Cuts(Position, s, |s| - |g.rest|, read, g.out)
  {
    assert s == "" + s;
    hide Cuts;
    CutAt(Position, s, "", s, read, [Offset(read)]);
  }

  /** What a directive reads it consumes. */
  lemma ReadIsConsumed(d: Directive, s: string, read: int)
    requires Step(d, s, read).Go?
    ensures var g := Step(d, s, read); |g.rest| <= |s| && g.rest == s[|s| - |g.rest|..] && Cuts(d, s, |s| - |g.rest|, read, g.out)
  {
    hide Step, Cuts;
    match d
    case Lit(c) => LitCuts(c, s, read);
    case Space => SpaceCuts(s, read);
    case Position => PositionCuts(s, read);
    case Hex(width) => FieldCuts(s, width, read);
    case Word(width) => WordCuts(s, width, read);
  }

  /** What a directive consumes of `s`, and what it assigns, is determined. */
  lemma CutRead(d: Directive, s: string, k: int, read: int, out: seq<Value>)
    requires Cuts(d, s, k, read, out)
    ensures Step(d, s, read) == Go(out, s[k..])
  {
    assert s == s[..k] + s[k..];
    ConsumedIsRead(d, s[..k], s[k..], read, out);
  }

  // ---------------------------------------------------------------------------------------------
  // Formats.

  /** Reading `s` with a format, `read` characters having been consumed before, assigns `values`: each directive consumes its
      text in turn, up to the first that can consume none. */
  ghost predicate Yields(format: seq<Directive>, s: string, read: int, values: seq<Value>)
    decreases |format|
  {
    if format == [] then values == []
    else if exists k, out :: Cuts(format[0], s, k, read, out) then
      exists k, out :: Cuts(format[0], s, k, read, out) && out <= values && Yields(format[1..], s[k..], read + k, values[|out|..])
    else values == []
  }

  lemma YieldsStep(format: seq<Directive>, s: string, read: int, values: seq<Value>)
    requires format != []
    ensures Yields(format, s, read, values) <==>
            match Step(format[0], s, read)
            case Stop => values == []
            case Go(out, rest) =>
              |rest| <= |s| && rest == s[|s| - |rest|..] && out <= values && Yields(format[1..], rest, read + |s| - |rest|, values[|out|..])
  {
    hide Cuts, Step;
    var d := format[0];
    match Step(d, s, read)
    case Stop =>
      if k, out :| Cuts(d, s, k, read, out) {
        CutRead(d, s, k, read, out);
      }
    case Go(out, rest) =>
      ReadIsConsumed(d, s, read);
      var n := |s| - |rest|;
      assert Cuts(d, s, n, read, out);
      forall k, o | Cuts(d, s, k, read, o) ensures o == out && k == n {
        CutRead(d, s, k, read, o);
        CutInside(d, s, k, read, o);
      }
  }

  lemma CutInside(d: Directive, s: string, k: int, read: int, out: seq<Value>)
    requires Cuts(d, s, k, read, out)
    ensures 0 <= k <= |s|
  {}

  lemma YieldsNothing(s: string, read: int, values: seq<Value>)
    ensures Yields([], s, read, values) <==> values == []
    ensures Scan([], s, read) == []
  {}

  /** The scanner reads what the grammar says, and nothing else. */
  lemma {:induction false} ScanIff(format: seq<Directive>, s: string, read: int, values: seq<Value>)
    ensures Yields(format, s, read, values) <==> values == Scan(format, s, read)
    decreases |format|
  {
    hide Step, Cuts, Yields, Scan;
    if format == [] {
      YieldsNothing(s, read, values);
    } else {
      YieldsStep(format, s, read, values);
      match Step(format[0], s, read)
      case Stop => ScanStops(format, s, read);
      case Go(out, rest) =>
        ReadIsConsumed(format[0], s, read);
        ScanMore(format, s, read, out, rest);
        var more := Scan(format[1..], rest, read + |s| - |rest|);
        if out <= values {
          ScanIff(format[1..], rest, read + |s| - |rest|, values[|out|..]);
          assert values == out + values[|out|..];
        } else {
          assert out <= out + more;
        }
    }
  }

  lemma ScanStops(format: seq<Directive>, s: string, read: int)
    requires format != [] && Step(format[0], s, read) == Stop
    ensures Scan(format, s, read) == []
  {
    hide Step;
  }

  lemma ScanMore(format: seq<Directive>, s: string, read: int, out: seq<Value>, rest: string)
    requires format != [] && Step(format[0], s, read) == Go(out, rest)
    ensures Scan(format, s, read) == out + Scan(format[1..], rest, read + |s| - |rest|)
  {
    hide Step;
  }
}
