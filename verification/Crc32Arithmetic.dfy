/**
  The CRC-32 code when the right shift of a negative value carries the sign, as the declared type of its loop variable
  usually has it: which table entries are wrong, and which errors go unseen.
 */
module Crc32Arithmetic {
  import opened Registers
  import opened Crc32

  // ---------------------------------------------------------------------------------------------
  // The table is determined by the entries for the eight single bits.

  function Pick(i: bv32, bit: bv32, e: bv32): bv32 {
    if i & bit != 0 then e else 0
  }

  function SumOf(i: bv32, e: bv32, f: bv32, g: bv32, h: bv32, p: bv32, q: bv32, r: bv32, s: bv32): bv32 {
    Add(Add(Add(Pick(i, 1, e), Pick(i, 2, f)), Add(Pick(i, 4, g), Pick(i, 8, h))),
        Add(Add(Pick(i, 16, p), Pick(i, 32, q)), Add(Pick(i, 64, r), Pick(i, 128, s))))
  }

  function ArithmeticSum(i: bv32): bv32 {
    SumOf(i, 0x0907_3096, 0x120E_612C, 0xFF6D_C419, 0xFEDB_8832, 0xFDB7_1064, 0xFB6E_20C8, 0xF6DC_4190, 0xEDB8_8320)
  }

  function LogicalSum(i: bv32): bv32 {
    SumOf(i, 0x7707_3096, 0xEE0E_612C, 0x076D_C419, 0x0EDB_8832, 0x1DB7_1064, 0x3B6E_20C8, 0x76DC_4190, 0xEDB8_8320)
  }

  lemma {:induction false} StepsThenClock(sh: Shift, n: nat, c: bv32)
    ensures Steps(Crc(sh), n, Clock(sh, c)) == Clock(sh, Steps(Crc(sh), n, c))
  {
    hide Clock;
    if n > 0 {
      StepsThenClock(sh, n - 1, Clock(sh, c));
    }
  }

  /** An index that only moves down in its first clock: its entry is one clock behind that of half of it. */
  lemma EntryOfHalf(sh: Shift, i: bv32, h: bv32)
    requires Clock(sh, i) == h
    ensures Entry(sh, h) == Clock(sh, Entry(sh, i))
  {
    hide Clock;
    StepsThenClock(sh, 8, i);
  }

  /** The entry for the highest bit is the polynomial: it comes down to the lowest place, and goes out. */
  lemma EntryOfTop(sh: Shift)
    ensures Entry(sh, 128) == POLY
  {
    assert Clock(sh, 128) == 64 && Clock(sh, 64) == 32 && Clock(sh, 32) == 16 && Clock(sh, 16) == 8;
    assert Clock(sh, 8) == 4 && Clock(sh, 4) == 2 && Clock(sh, 2) == 1 && Clock(sh, 1) == POLY;
  }

  lemma BitsMoveDown(sh: Shift)
    ensures Clock(sh, 128) == 64 && Clock(sh, 64) == 32 && Clock(sh, 32) == 16 && Clock(sh, 16) == 8
    ensures Clock(sh, 8) == 4 && Clock(sh, 4) == 2 && Clock(sh, 2) == 1
  {}

  /** The entries for the eight single bits, each a clock behind the one for the next higher bit. */
  lemma EntriesOfBits(sh: Shift)
    ensures Entry(sh, 128) == POLY && Entry(sh, 64) == Clock(sh, Entry(sh, 128)) && Entry(sh, 32) == Clock(sh, Entry(sh, 64))
    ensures Entry(sh, 16) == Clock(sh, Entry(sh, 32)) && Entry(sh, 8) == Clock(sh, Entry(sh, 16))
    ensures Entry(sh, 4) == Clock(sh, Entry(sh, 8)) && Entry(sh, 2) == Clock(sh, Entry(sh, 4)) && Entry(sh, 1) == Clock(sh, Entry(sh, 2))
  {
    EntryOfTop(sh);
    BitsMoveDown(sh);
    hide Clock, Entry;
    EntryOfHalf(sh, 128, 64);
    EntryOfHalf(sh, 64, 32);
    EntryOfHalf(sh, 32, 16);
    EntryOfHalf(sh, 16, 8);
    EntryOfHalf(sh, 8, 4);
    EntryOfHalf(sh, 4, 2);
    EntryOfHalf(sh, 2, 1);
  }

  lemma ArithmeticClocks()
    ensures POLY == 0xEDB8_8320
    ensures Clock(Arithmetic, 0xEDB8_8320) == 0xF6DC_4190 && Clock(Arithmetic, 0xF6DC_4190) == 0xFB6E_20C8 && Clock(Arithmetic, 0xFB6E_20C8) == 0xFDB7_1064 && Clock(Arithmetic, 0xFDB7_1064) == 0xFEDB_8832
    ensures Clock(Arithmetic, 0xFEDB_8832) == 0xFF6D_C419 && Clock(Arithmetic, 0xFF6D_C419) == 0x120E_612C && Clock(Arithmetic, 0x120E_612C) == 0x0907_3096
  {}

  lemma LogicalClocks()
    ensures POLY == 0xEDB8_8320
    ensures Clock(Logical, 0xEDB8_8320) == 0x76DC_4190 && Clock(Logical, 0x76DC_4190) == 0x3B6E_20C8 && Clock(Logical, 0x3B6E_20C8) == 0x1DB7_1064 && Clock(Logical, 0x1DB7_1064) == 0x0EDB_8832
    ensures Clock(Logical, 0x0EDB_8832) == 0x076D_C419 && Clock(Logical, 0x076D_C419) == 0xEE0E_612C && Clock(Logical, 0xEE0E_612C) == 0x7707_3096
  {}

  lemma EntryZero(sh: Shift)
    ensures Entry(sh, 0) == 0
  {}

  lemma SplitBits(i: bv32)
    requires i < 256
    ensures Add(Add(Add(i & 1, i & 2), Add(i & 4, i & 8)), Add(Add(i & 16, i & 32), Add(i & 64, i & 128))) == i
    ensures (i & 1 == 0 || i & 1 == 1) && (i & 2 == 0 || i & 2 == 2) && (i & 4 == 0 || i & 4 == 4) && (i & 8 == 0 || i & 8 == 8)
    ensures (i & 16 == 0 || i & 16 == 16) && (i & 32 == 0 || i & 32 == 32) && (i & 64 == 0 || i & 64 == 64) && (i & 128 == 0 || i & 128 == 128)
  {}

  /** An entry is the sum of the entries for the bits of its index. */
  lemma EntryIsSum(sh: Shift, i: bv32)
    requires i < 256
    ensures Entry(sh, i) == SumOf(i, Entry(sh, 1), Entry(sh, 2), Entry(sh, 4), Entry(sh, 8), Entry(sh, 16), Entry(sh, 32), Entry(sh, 64), Entry(sh, 128))
  {
    hide Entry, Add;
    SplitBits(i);
    EntryZero(sh);
    var a, b, c, d := Add(i & 1, i & 2), Add(i & 4, i & 8), Add(i & 16, i & 32), Add(i & 64, i & 128);
    EntryLinear(sh, i & 1, i & 2);
    EntryLinear(sh, i & 4, i & 8);
    EntryLinear(sh, i & 16, i & 32);
    EntryLinear(sh, i & 64, i & 128);
    EntryLinear(sh, a, b);
    EntryLinear(sh, c, d);
    EntryLinear(sh, Add(a, b), Add(c, d));
  }

  lemma ArithmeticTable(i: bv32)
    requires i < 256
    ensures Entry(Arithmetic, i) == ArithmeticSum(i)
  {
    hide Entry, SumOf, Clock;
    EntryIsSum(Arithmetic, i);
    EntriesOfBits(Arithmetic);
    ArithmeticClocks();
  }

  lemma LogicalTable(i: bv32)
    requires i < 256
    ensures Entry(Logical, i) == LogicalSum(i)
  {
    hide Entry, SumOf, Clock;
    EntryIsSum(Logical, i);
    EntriesOfBits(Logical);
    LogicalClocks();
  }

  lemma SumsAgree(i: bv32)
    requires i < 256
    ensures ArithmeticSum(i) == LogicalSum(i) <==> i == 0 || i == 128
  {}

  /** Exactly entries 0 and 128 of the table are right. */
  lemma ArithmeticEntryRight(i: bv32)
    requires i < 256
    ensures Entry(Arithmetic, i) == Entry(Logical, i) <==> i == 0 || i == 128
  {
    hide Entry, ArithmeticSum, LogicalSum;
    ArithmeticTable(i);
    LogicalTable(i);
    SumsAgree(i);
  }

  // ---------------------------------------------------------------------------------------------
  // What a difference in the register becomes.

  /** One zero byte through the table. */
  function Blank(c: bv32): bv32 {
    Add(Entry(Arithmetic, LowByte(c)), ShiftByte(c))
  }

  function Blanks(n: nat, c: bv32): bv32 {
    if n == 0 then c else Blanks(n - 1, Blank(c))
  }

  /** The differences that a zero byte erases. */
  predicate Silent(c: bv32) {
    c == 0 || c == 0x6D93_0AC3 || c == 0xB6B5_1F45 || c == 0xDB26_1586
  }

  lemma LowByteFits(c: bv32)
    ensures LowByte(c) < 256
  {}

  lemma SumErases(c: bv32)
    ensures Add(ArithmeticSum(LowByte(c)), ShiftByte(c)) == 0 <==> Silent(c)
  {}

  function TopByte(c: bv32): bv32 { c & 0xFF00_0000 }

  lemma TopStays(e: bv32, c: bv32)
    ensures TopByte(Add(e, ShiftByte(c))) == TopByte(e)
  {}

  lemma TopOfSum(i: bv32)
    requires i < 256
    ensures TopByte(ArithmeticSum(i)) != 0x6D00_0000 && TopByte(ArithmeticSum(i)) != 0xB600_0000 && TopByte(ArithmeticSum(i)) != 0xDB00_0000
  {}

  lemma TopOfSilent(c: bv32)
    requires Silent(c) && c != 0
    ensures TopByte(c) == 0x6D00_0000 || TopByte(c) == 0xB600_0000 || TopByte(c) == 0xDB00_0000
  {}

  lemma SumNeverSilent(c: bv32)
    ensures var d := Add(ArithmeticSum(LowByte(c)), ShiftByte(c)); Silent(d) ==> d == 0
  {
    var e := ArithmeticSum(LowByte(c));
    var d := Add(e, ShiftByte(c));
    LowByteFits(c);
    TopStays(e, c);
    TopOfSum(LowByte(c));
    hide Add, ArithmeticSum, TopByte, Silent, LowByte, ShiftByte;
    if Silent(d) && d != 0 {
      TopOfSilent(d);
    }
  }

  lemma BlankErases(c: bv32)
    ensures Blank(c) == 0 <==> Silent(c)
  {
    hide Entry, Add, ArithmeticSum, Silent;
    LowByteFits(c);
    ArithmeticTable(LowByte(c));
    SumErases(c);
  }

  /** A zero byte never makes such a difference of another. */
  lemma BlankNeverSilent(c: bv32)
    ensures Silent(Blank(c)) <==> Silent(c)
  {
    hide Entry, Add, ArithmeticSum;
    LowByteFits(c);
    ArithmeticTable(LowByte(c));
    SumNeverSilent(c);
    BlankErases(c);
  }

  /** However many zero bytes follow, they erase those differences and no others. */
  lemma {:induction false} BlanksErase(n: nat, c: bv32)
    requires n > 0
    ensures Blanks(n, c) == 0 <==> Silent(c)
  {
    hide Blank, Silent;
    if n == 1 {
      assert Blanks(1, c) == Blank(c);
      BlankErases(c);
    } else {
      BlanksErase(n - 1, Blank(c));
      BlankNeverSilent(c);
    }
  }

  // ---------------------------------------------------------------------------------------------
  // A difference in the message becomes a difference in the register.

  function UpByte(t: bv32): bv32 { t << 8 }

  /** The word of up to four bytes, the first in the lowest place. */
  function WordOf(s: seq<bv8>): bv32 {
    if s == [] then 0 else Add(Widen(s[0]), UpByte(WordOf(s[1..])))
  }

  predicate Below(t: bv32, bytes: nat) {
    (bytes == 0 ==> t == 0) && (bytes == 1 ==> t < 0x100) && (bytes == 2 ==> t < 0x1_0000) && (bytes == 3 ==> t < 0x100_0000)
  }

  lemma BelowGrows(b: bv8, t: bv32, bytes: nat)
    requires Below(t, bytes) && bytes <= 3
    ensures Below(Add(Widen(b), UpByte(t)), bytes + 1)
  {}

  lemma {:induction false} WordBelow(s: seq<bv8>)
    requires |s| <= 4
    ensures Below(WordOf(s), |s|)
  {
    hide Below, Add, Widen, UpByte;
    if s == [] {
      BelowNothing();
    } else {
      WordBelow(s[1..]);
      BelowGrows(s[0], WordOf(s[1..]), |s| - 1);
    }
  }

  lemma BelowNothing()
    ensures Below(0, 0)
  {}

  lemma LaterBytesWait(c: bv32, t: bv32)
    requires t < 0x100_0000
    ensures LowByte(Add(c, UpByte(t))) == LowByte(c) && ShiftByte(Add(c, UpByte(t))) == Add(ShiftByte(c), t)
  {}

  /** What sits above the low byte only moves down. */
  lemma BlankPasses(c: bv32, t: bv32)
    requires t < 0x100_0000
    ensures Blank(Add(c, UpByte(t))) == Add(Blank(c), t)
  {
    LaterBytesWait(c, t);
    hide Entry, Add, LowByte, ShiftByte, UpByte;
    AddAssociates(Entry(Arithmetic, LowByte(c)), ShiftByte(c), t);
  }

  /** One byte of the checksum loop. */
  function Next(c: bv32, b: bv8): bv32 {
    Lookup(Crc(Arithmetic), ByteLanes(), 8, c, b)
  }

  lemma NextIsBlank(c: bv32, b: bv8)
    ensures Next(c, b) == Blank(Add(c, Widen(b)))
  {
    ByteShiftedOut(c, b);
    hide Add, LowByte, ShiftByte, Widen;
    assert Next(c, b) == Add(Entry(Arithmetic, LowByte(Add(c, Widen(b)))), ShiftByte(c));
  }

  lemma SmallWord(t: bv32, bytes: nat)
    requires Below(t, bytes) && bytes <= 3
    ensures t < 0x100_0000
  {}

  lemma {:induction false} FoldIsBlanks(c: bv32, s: seq<bv8>)
    requires |s| <= 4
    ensures Fold((c, b) => Next(c, b), c, s) == Blanks(|s|, Add(c, WordOf(s)))
    decreases |s|
  {
    hide Next, Blank, Add, Widen, UpByte, Below;
    var f := (c, b) => Next(c, b);
    if s == [] {
      AddZero(c);
    } else {
      var t, w := WordOf(s[1..]), Widen(s[0]);
      FoldIsBlanks(f(c, s[0]), s[1..]);
      NextIsBlank(c, s[0]);
      WordBelow(s[1..]);
      SmallWord(t, |s| - 1);
      AddAssociates(c, w, UpByte(t));
      BlankPasses(Add(c, w), t);
    }
  }

  function ZeroBytes(n: nat): (z: seq<bv8>)
    ensures |z| == n
  {
    seq(n, _ => 0)
  }

  lemma WidenZero(c: bv32)
    ensures Add(c, Widen(0)) == c
  {}

  lemma {:induction false} FoldZeros(c: bv32, n: nat)
    ensures Fold((c, b) => Next(c, b), c, ZeroBytes(n)) == Blanks(n, c)
    decreases n
  {
    hide Next, Blank, Add, Widen;
    if n > 0 {
      assert ZeroBytes(n)[1..] == ZeroBytes(n - 1);
      NextIsBlank(c, 0);
      WidenZero(c);
      FoldZeros(Blank(c), n - 1);
    }
  }

  lemma {:induction false} BlanksOfZero(n: nat)
    ensures Blanks(n, 0) == 0
  {
    hide Blank;
    if n > 0 {
      BlankErases(0);
      BlanksOfZero(n - 1);
    }
  }

  lemma {:induction false} BlanksAgain(m: nat, n: nat, c: bv32)
    ensures Blanks(n, Blanks(m, c)) == Blanks(m + n, c)
  {
    hide Blank;
    if m > 0 {
      BlanksAgain(m - 1, n, Blank(c));
    }
  }

  lemma AddSelf(x: bv32)
    ensures Add(x, x) == 0
  {}

  lemma AddSame(x: bv32, y: bv32)
    ensures Add(x, y) == 0 <==> x == y
  {
    hide Add;
    AddSelf(x);
    AddCancels(x, x, y);
  }

  lemma AddOnesZero()
    ensures Add(ONES, ONES) == 0
  {}

  lemma ByteXorSame(a: bv8, b: bv8)
    ensures a ^ b == 0 <==> a == b
  {}

  lemma XorInParts(p: seq<bv8>, a: seq<bv8>, b: seq<bv8>, s: seq<bv8>)
    requires |a| == |b|
    ensures Xor(p + a + s, p + b + s) == ZeroBytes(|p|) + Xor(a, b) + ZeroBytes(|s|)
  {
    var x, y, z := p + a + s, p + b + s, ZeroBytes(|p|) + Xor(a, b) + ZeroBytes(|s|);
    forall i | 0 <= i < |x| ensures Xor(x, y)[i] == z[i] {
      ByteXorSame(x[i], y[i]);
    }
  }

  /** A register that starts clear, fed zeros, a few bytes and zeros again. */
  lemma FoldStretch(n: nat, d: seq<bv8>, m: nat)
    requires |d| <= 4
    ensures Fold((c, b) => Next(c, b), 0, ZeroBytes(n) + d + ZeroBytes(m)) == Blanks(|d| + m, WordOf(d))
  {
    hide Add, Next, Blank, Blanks, WordOf, Fold, ZeroBytes;
    var f := (c, b) => Next(c, b);
    FoldAppend(f, 0, ZeroBytes(n) + d, ZeroBytes(m));
    FoldAppend(f, 0, ZeroBytes(n), d);
    FoldZeros(0, n);
    BlanksOfZero(n);
    FoldIsBlanks(0, d);
    AddCommutes(0, WordOf(d));
    AddZero(WordOf(d));
    FoldZeros(Blanks(|d|, WordOf(d)), m);
    BlanksAgain(|d|, m, WordOf(d));
  }

  /** The register's difference after two messages that differ in one stretch. */
  lemma DifferenceIsBlanks(p: seq<bv8>, a: seq<bv8>, b: seq<bv8>, s: seq<bv8>)
    requires |a| == |b| <= 4
    ensures TableChecksum(Arithmetic, p + a + s) == TableChecksum(Arithmetic, p + b + s)
            <==> Blanks(|a| + |s|, WordOf(Xor(a, b))) == 0
  {
    hide TableChecksum, Next, Blanks, WordOf, Xor, Fold, ZeroBytes;
    SameChecksums(p + a + s, p + b + s);
    XorInParts(p, a, b, s);
    FoldStretch(|p|, Xor(a, b), |s|);
  }

  /** Checksums are equal when the difference of the messages leaves the register clear. */
  lemma SameChecksums(x: seq<bv8>, y: seq<bv8>)
    requires |x| == |y|
    ensures TableChecksum(Arithmetic, x) == TableChecksum(Arithmetic, y) <==> Fold((c, b) => Next(c, b), 0, Xor(x, y)) == 0
  {
    hide Add, Next, Xor;
    var f, g := (c, b) => Next(c, b), (c, b) => Lookup(Crc(Arithmetic), ByteLanes(), 8, c, b);
    NextIsLookup();
    SameFold(f, g, 0, Xor(x, y));
    AddOnesZero();
    FoldXor(Arithmetic, ONES, ONES, x, y);
    AddSame(Fold(g, ONES, x), Fold(g, ONES, y));
    AddCancels(ONES, Fold(g, ONES, x), Fold(g, ONES, y));
  }

  lemma NextIsLookup()
    ensures forall c, b :: Next(c, b) == Lookup(Crc(Arithmetic), ByteLanes(), 8, c, b)
  {
    hide Lookup;
  }

  /** Exactly which short errors go unseen: two messages that differ within four consecutive bytes have the same checksum
      if and only if those bytes differ by nothing or by one of three words, wherever they stand and whatever
      surrounds them. */
  lemma UnseenDifferences(p: seq<bv8>, a: seq<bv8>, b: seq<bv8>, s: seq<bv8>)
    requires |a| == |b| <= 4
    ensures TableChecksum(Arithmetic, p + a + s) == TableChecksum(Arithmetic, p + b + s) <==> Silent(WordOf(Xor(a, b)))
  {
    hide TableChecksum, Xor, Silent, WordOf;
    DifferenceIsBlanks(p, a, b, s);
    if |a| + |s| > 0 {
      BlanksErase(|a| + |s|, WordOf(Xor(a, b)));
    } else {
      EmptyIsSilent(a, b);
    }
  }

  lemma EmptyIsSilent(a: seq<bv8>, b: seq<bv8>)
    requires |a| == |b| == 0
    ensures WordOf(Xor(a, b)) == 0 && Silent(0)
  {}

  lemma WordStep(b: bv8, t: bv32)
    requires t < 0x100_0000
    ensures Add(Widen(b), UpByte(t)) == 0 <==> b == 0 && t == 0
  {}

  lemma {:induction false} WordZero(s: seq<bv8>)
    requires |s| <= 4
    ensures WordOf(s) == 0 <==> s == ZeroBytes(|s|)
  {
    hide Add, Widen, UpByte, Below;
    if s != [] {
      WordZero(s[1..]);
      WordBelow(s[1..]);
      SmallWord(WordOf(s[1..]), |s| - 1);
      WordStep(s[0], WordOf(s[1..]));
      assert s == [s[0]] + s[1..] && ZeroBytes(|s|) == [0] + ZeroBytes(|s| - 1);
    }
  }

  lemma XorZero(a: seq<bv8>, b: seq<bv8>)
    requires |a| == |b|
    ensures Xor(a, b) == ZeroBytes(|a|) <==> a == b
  {
    var x, z := Xor(a, b), ZeroBytes(|a|);
    forall i | 0 <= i < |a| ensures x[i] == z[i] <==> a[i] == b[i] {
      ByteXorSame(a[i], b[i]);
    }
    if x == z {
      assert forall i :: 0 <= i < |a| ==> x[i] == z[i];
    }
  }

  lemma SmallSilent(t: bv32)
    requires t < 0x100_0000
    ensures Silent(t) <==> t == 0
  {}

  /** Differences within three consecutive bytes are seen. */
  lemma ThreeBytesSeen(p: seq<bv8>, a: seq<bv8>, b: seq<bv8>, s: seq<bv8>)
    requires |a| == |b| <= 3 && a != b
    ensures TableChecksum(Arithmetic, p + a + s) != TableChecksum(Arithmetic, p + b + s)
  {
    hide TableChecksum, Xor, Silent, WordOf, Below;
    var d := Xor(a, b);
    UnseenDifferences(p, a, b, s);
    WordBelow(d);
    SmallWord(WordOf(d), |a|);
    SmallSilent(WordOf(d));
    WordZero(d);
    XorZero(a, b);
  }

  lemma SilentBytes()
    ensures WordOf([0xC3, 0x0A, 0x93, 0x6D]) == 0x6D93_0AC3
  {
    var s: seq<bv8> := [0xC3, 0x0A, 0x93, 0x6D];
    assert s[1..] == [0x0A, 0x93, 0x6D] && s[1..][1..] == [0x93, 0x6D] && s[1..][1..][1..] == [0x6D];
    assert WordOf([]) == 0 && WordOf([0x6D]) == 0x6D && WordOf([0x93, 0x6D]) == 0x6D93 && WordOf([0x0A, 0x93, 0x6D]) == 0x6D_930A;
  }

  /** Four consecutive bytes are not always seen: every message has a different one, at every place, with the same
      checksum. */
  lemma FourBytesUnseen(p: seq<bv8>, a: seq<bv8>, s: seq<bv8>)
    requires |a| == 4
    ensures var b := Xor(a, [0xC3, 0x0A, 0x93, 0x6D]);
            a != b && TableChecksum(Arithmetic, p + a + s) == TableChecksum(Arithmetic, p + b + s)
  {
    hide TableChecksum, WordOf;
    var d: seq<bv8> := [0xC3, 0x0A, 0x93, 0x6D];
    var b := Xor(a, d);
    forall i | 0 <= i < 4 ensures Xor(a, b)[i] == d[i] {
      ByteTwice(a[i], d[i]);
    }
    assert Xor(a, b) == d;
    ByteTwice(a[0], d[0]);
    assert b[0] != a[0];
    SilentBytes();
    UnseenDifferences(p, a, b, s);
  }

  lemma ByteTwice(a: bv8, d: bv8)
    ensures a ^ (a ^ d) == d
    ensures d != 0 ==> a ^ d != a
  {}
}
