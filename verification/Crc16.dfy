/**
  The CRC-16 code of the OTA client: the loop over the constant table, which is the bit-serial CCITT
  register (polynomial 0x1021, most significant bit first, all zeros in).
 */
module Crc16 {
  import opened Registers
  import opened Crc16Table

  function Bit(b: bool): bv16 { if b then 0x8000 else 0 }

  function Add(x: bv16, y: bv16): bv16 { x ^ y }

  function Down(w: bv16): bv16 { w >> 1 }

  function Ccitt(): Register<bv16> {
    Register(0, (x, y) => Add(x, y), c => Clock(c), b => Bit(b), w => Down(w))
  }

  function HighByte(c: bv16): bv16 { c & 0xFF00 }

  function LowByte(c: bv16): bv16 { c & 0x00FF }

  function ShiftByte(c: bv16): bv16 { c << 8 }

  function Widen(b: bv8): bv16 { (b as bv16) << 8 }

  /** The bits of a byte in the order they enter the register. */
  function ByteBits(b: bv8): (bits: seq<bool>)
    ensures |bits| == 8
  {
    [b & 128 != 0, b & 64 != 0, b & 32 != 0, b & 16 != 0, b & 8 != 0, b & 4 != 0, b & 2 != 0, b & 1 != 0]
  }

  function ByteLanes(): Lanes<bv16, bv8> {
    Lanes(c => HighByte(c), c => LowByte(c), c => ShiftByte(c), b => Widen(b), b => ByteBits(b))
  }

  function Bits(buf: seq<bv8>): seq<bool> {
    Stream(ByteLanes().bits, buf)
  }

  /** The reference: nothing in, one message bit per clock. */
  function BitSerial(buf: seq<bv8>): bv16 {
    Serial(Ccitt(), 0, Bits(buf))
  }

  // ---------------------------------------------------------------------------------------------
  // The code.

  /** The table index of the loop body. */
  function Index(c: bv16, b: bv8): bv16 {
    ((c >> 8) ^ (b as bv16)) & 0x00FF
  }

  function ByTable(c: bv16, b: bv8): bv16 {
    Add(ShiftByte(c), Table(Index(c, b)))
  }

  method Crc16Ccitt(buf: array<bv8>) returns (crc: bv16)
    ensures crc == BitSerial(buf[..])
  {
    ghost var f := (c, b) => ByTable(c, b);
    crc := 0;
    var counter := 0;
    while counter < buf.Length
      invariant 0 <= counter <= buf.Length
      invariant Fold(f, crc, buf[counter..]) == Fold(f, 0, buf[..])
    {
      assert buf[counter..][1..] == buf[counter + 1..];
      crc := Add(ShiftByte(crc), Table(Index(crc, buf[counter])));
      counter := counter + 1;
    }
    TableIsBitSerial(0, buf[..]);
  }

  // ---------------------------------------------------------------------------------------------
  // The laws of the register, each decided on words.

  lemma XorLaws(x: bv16, y: bv16, z: bv16)
    ensures (x ^ y) ^ z == x ^ (y ^ z)
    ensures z ^ x == z ^ y ==> x == y
    ensures x ^ z == y ^ z ==> x == y
  {}

  predicate First(c: bv16) { c & 0x8000 != 0 }

  function Up(c: bv16): bv16 { c << 1 }

  function Feed(first: bool, h: bv16): bv16 {
    if first then POLY ^ h else h
  }

  lemma ClockFeeds(c: bv16)
    ensures Clock(c) == Feed(First(c), Up(c))
  {}

  lemma XorShift(x: bv16, y: bv16)
    ensures (x ^ y) << 1 == (x << 1) ^ (y << 1)
  {}

  lemma UpLinear(x: bv16, y: bv16)
    ensures Up(x ^ y) == Up(x) ^ Up(y)
  {
    XorShift(x, y);
  }

  lemma XorFirst(x: bv16, y: bv16)
    ensures First(x ^ y) == (First(x) != First(y))
  {}

  lemma XorPoly(h: bv16, k: bv16)
    ensures POLY ^ (h ^ k) == (POLY ^ h) ^ k
    ensures POLY ^ (h ^ k) == h ^ (POLY ^ k)
    ensures (POLY ^ h) ^ (POLY ^ k) == h ^ k
  {}

  lemma XorFeed(b: bool, h: bv16, d: bool, k: bv16)
    ensures Feed(b != d, h ^ k) == Feed(b, h) ^ Feed(d, k)
  {
    XorPoly(h, k);
    if b {
      if d {} else {}
    } else {
      if d {} else {}
    }
  }

  lemma FeedLinear(x: bv16, y: bv16)
    ensures Feed(First(x ^ y), Up(x ^ y)) == Feed(First(x), Up(x)) ^ Feed(First(y), Up(y))
  {
    UpLinear(x, y);
    XorFirst(x, y);
    XorFeed(First(x), Up(x), First(y), Up(y));
  }

  lemma ClockXor(x: bv16, y: bv16)
    ensures Clock(Add(x, y)) == Add(Clock(x), Clock(y))
  {
    FeedLinear(x, y);
    ClockFeeds(x);
    ClockFeeds(y);
    ClockFeeds(Add(x, y));
  }

  /** The clock can be undone: the low bit tells what the top bit was. */
  lemma ClockBack(c: bv16, d: bv16)
    requires d == Clock(c)
    ensures d & 1 == 0 ==> c == d >> 1
    ensures d & 1 != 0 ==> c == ((POLY ^ d) >> 1) | 0x8000
  {}

  lemma ClockInjective(x: bv16, y: bv16, d: bv16)
    requires d == Clock(x) && d == Clock(y)
    ensures x == y
  {
    ClockBack(x, d);
    ClockBack(y, d);
  }

  lemma CcittLinear()
    ensures Linear(Ccitt())
  {
    forall x, y ensures Clock(Add(x, y)) == Add(Clock(x), Clock(y)) {
      ClockXor(x, y);
    }
  }

  lemma CcittAssociative()
    ensures Associative(Ccitt()) && RightUnit(Ccitt())
  {
    forall x, y, z ensures Add(Add(x, y), z) == Add(x, Add(y, z)) {
      XorLaws(x, y, z);
    }
  }

  lemma CcittCancels()
    ensures Cancels(Ccitt()) && CancelsRight(Ccitt())
  {
    forall c, x, y ensures Add(c, x) == Add(c, y) ==> x == y {
      XorLaws(x, y, c);
    }
    forall c, x, y ensures Add(x, c) == Add(y, c) ==> x == y {
      XorLaws(x, y, c);
    }
  }

  lemma CcittInjective()
    ensures Injective(Ccitt())
  {
    forall x, y | Clock(x) == Clock(y) ensures x == y {
      ClockInjective(x, y, Clock(x));
    }
  }

  // ---------------------------------------------------------------------------------------------
  // Up to 16 message bits fit in one word.

  predicate Last(w: bv16) { w & 1 != 0 }

  lemma XorPlaces(x: bv16, y: bv16)
    ensures Last(Add(x, y)) == (Last(x) != Last(y))
    ensures Down(Add(x, y)) == Add(Down(x), Down(y))
  {}

  lemma DownAndUp(w: bv16)
    requires !Last(w)
    ensures Clock(Down(w)) == w
  {}

  lemma FirstShows(w: bv16, b: bool)
    ensures First(Add(Bit(b), Down(w))) == b
  {}

  lemma CcittPlacesLinear()
    ensures PlacesLinear(Ccitt(), w => Last(w))
  {
    forall x, y ensures Last(Add(x, y)) == (Last(x) != Last(y)) {
      XorPlaces(x, y);
    }
    forall x, y ensures Down(Add(x, y)) == Add(Down(x), Down(y)) {
      XorPlaces(x, y);
    }
  }

  lemma ClearNibble(w: bv16, k: nat)
    requires w & 0x000F == 0 && Clear(Ccitt(), v => Last(v), Down(Down(Down(Down(w)))), k)
    ensures Clear(Ccitt(), v => Last(v), w, k + 4)
  {
    assert Clear(Ccitt(), v => Last(v), Down(Down(Down(w))), k + 1);
    assert Clear(Ccitt(), v => Last(v), Down(Down(w)), k + 2);
    assert Clear(Ccitt(), v => Last(v), Down(w), k + 3);
  }

  lemma {:induction false} ZeroClear(k: nat)
    ensures Clear(Ccitt(), v => Last(v), 0, k)
  {
    if k > 0 {
      ZeroClear(k - 1);
      assert Down(0) == 0;
    }
  }

  lemma FirstBitClear()
    ensures Clear(Ccitt(), v => Last(v), 0x8000, 15)
  {
    assert Clear(Ccitt(), v => Last(v), 0x0001, 0);
    assert Clear(Ccitt(), v => Last(v), 0x0002, 1);
    assert Clear(Ccitt(), v => Last(v), 0x0004, 2);
    assert Clear(Ccitt(), v => Last(v), 0x0008, 3);
    ClearNibble(0x0080, 3);
    ClearNibble(0x0800, 7);
    ClearNibble(0x8000, 11);
  }

  lemma CcittStartsClear()
    ensures StartsClear(Ccitt(), w => Last(w), 16)
  {
    ZeroClear(16);
    ZeroClear(15);
    FirstBitClear();
    forall b ensures Clear(Ccitt(), w => Last(w), Bit(b), 15) {}
  }

  lemma CcittClocksBack()
    ensures ClocksBack(Ccitt(), w => Last(w))
  {
    forall w | !Last(w) ensures Clock(Down(w)) == w {
      DownAndUp(w);
    }
  }

  lemma CcittShowsFirst()
    ensures ShowsFirst(Ccitt(), w => First(w))
  {
    forall w, b ensures First(Add(Bit(b), Down(w))) == b {
      FirstShows(w, b);
    }
  }

  lemma CcittRoom()
    ensures HasRoom(Ccitt(), 16) && HasRoom(Ccitt(), 8) && WordInjective(Ccitt(), 16)
  {
    CcittPlacesLinear();
    CcittStartsClear();
    CcittClocksBack();
    CcittShowsFirst();
    CcittCancels();
    ClearHasRoom(Ccitt(), w => Last(w), 16);
    ClearWordInjective(Ccitt(), w => Last(w), w => First(w), 16);
  }

  // ---------------------------------------------------------------------------------------------
  // Bytes.

  lemma EightBits(b: bv8)
    ensures Add(Bit(b & 128 != 0), Down(Add(Bit(b & 64 != 0), Down(Add(Bit(b & 32 != 0), Down(Add(Bit(b & 16 != 0),
            Down(Add(Bit(b & 8 != 0), Down(Add(Bit(b & 4 != 0), Down(Add(Bit(b & 2 != 0), Down(Add(Bit(b & 1 != 0),
            Down(0)))))))))))))))) == Widen(b)
  {}

  lemma WordOfByte(b: bv8)
    ensures Word(Ccitt(), ByteBits(b)) == Widen(b)
  {
    WordOfEight(Ccitt(), ByteBits(b));
    EightBits(b);
  }

  lemma ByteWidens()
    ensures Widens(Ccitt(), ByteLanes(), 8)
  {
    forall b ensures Word(Ccitt(), ByteBits(b)) == Widen(b) {
      WordOfByte(b);
    }
  }

  lemma Clock8IsSteps(c: bv16)
    ensures Steps(Ccitt(), 8, c) == Clock8(c)
  {}

  lemma LowByteShifts(c: bv16)
    ensures Clock8(LowByte(c)) == ShiftByte(c)
  {}

  lemma SplitBytes(c: bv16, b: bv8)
    ensures Add(HighByte(c), LowByte(c)) == c
    ensures ShiftByte(Add(c, Widen(b))) == ShiftByte(c)
  {}

  lemma ByteSplits()
    ensures Splits(Ccitt(), ByteLanes(), 8)
  {
    forall c ensures Add(HighByte(c), LowByte(c)) == c {
      SplitBytes(c, 0);
    }
    forall c ensures Steps(Ccitt(), 8, LowByte(c)) == ShiftByte(c) {
      Clock8IsSteps(LowByte(c));
      LowByteShifts(c);
    }
    forall c, b ensures ShiftByte(Add(c, Widen(b))) == ShiftByte(c) {
      SplitBytes(c, b);
    }
  }

  lemma IndexInHighByte(c: bv16, b: bv8)
    ensures Index(c, b) < 256 && Index(c, b) << 8 == HighByte(Add(c, Widen(b)))
  {}

  lemma XorCommutes(x: bv16, y: bv16)
    ensures Add(x, y) == Add(y, x)
  {}

  /** The loop body is the byte by table of the register. */
  lemma ByTableIsLookup(c: bv16, b: bv8)
    ensures ByTable(c, b) == Lookup(Ccitt(), ByteLanes(), 8, c, b)
  {
    IndexInHighByte(c, b);
    TableRight(Index(c, b));
    Clock8IsSteps(HighByte(Add(c, Widen(b))));
    XorCommutes(ShiftByte(c), Table(Index(c, b)));
  }

  lemma LookupShifts(c: bv16, b: bv8)
    ensures Lookup(Ccitt(), ByteLanes(), 8, c, b) == Serial(Ccitt(), c, ByteLanes().bits(b))
  {
    CcittAssociative();
    CcittLinear();
    CcittRoom();
    ByteSplits();
    ByteWidens();
    LookupIsSerial(Ccitt(), ByteLanes(), 8, c, b);
  }

  /** The loop over the constant table is the bit-serial register, from any start and for every buffer. */
  lemma TableIsBitSerial(c: bv16, buf: seq<bv8>)
    ensures Fold((c, b) => ByTable(c, b), c, buf) == Serial(Ccitt(), c, Bits(buf))
  {
    var f := (c, b) => ByTable(c, b);
    forall c, b ensures f(c, b) == Serial(Ccitt(), c, ByteLanes().bits(b)) {
      ByTableIsLookup(c, b);
      LookupShifts(c, b);
    }
    FoldIsSerial(Ccitt(), f, ByteLanes().bits, c, buf);
  }

  // ---------------------------------------------------------------------------------------------
  // The trailer: the checksum appended, high byte first.

  function Joined(hi: bv8, lo: bv8): bv16 {
    ((hi as bv16) << 8) | (lo as bv16)
  }

  lemma SerialOfParts(c: bv16, x: seq<bv8>, y: seq<bv8>)
    ensures Serial(Ccitt(), c, Bits(x + y)) == Serial(Ccitt(), Serial(Ccitt(), c, Bits(x)), Bits(y))
  {
    StreamAppend(ByteLanes().bits, x, y);
    SerialAppend(Ccitt(), c, Bits(x), Bits(y));
  }

  lemma IndexOfOwnByte(hi: bv8, lo: bv8)
    ensures Index(Joined(hi, lo), hi) == 0 && ShiftByte(Joined(hi, lo)) == Joined(lo, 0)
  {}

  lemma EntryZero()
    ensures Table(0) == 0
  {}

  lemma XorZero(x: bv16)
    ensures Add(x, 0) == x
  {}

  lemma ByteVanishes(hi: bv8, lo: bv8)
    ensures ByTable(Joined(hi, lo), hi) == Joined(lo, 0)
  {
    IndexOfOwnByte(hi, lo);
    EntryZero();
    XorZero(ShiftByte(Joined(hi, lo)));
  }

  lemma TrailerVanishes(hi: bv8, lo: bv8)
    ensures Serial(Ccitt(), Joined(hi, lo), Bits([hi, lo])) == 0
  {
    var f := (c, b) => ByTable(c, b);
    TableIsBitSerial(Joined(hi, lo), [hi, lo]);
    ByteVanishes(hi, lo);
    ByteVanishes(lo, 0);
    assert [hi, lo][1..] == [lo];
    assert Fold(f, Joined(lo, 0), [lo]) == Fold(f, f(Joined(lo, 0), lo), []);
    assert Joined(0, 0) == 0;
  }

  /** A message with a two-byte trailer checks to zero if and only if the trailer is the message's checksum,
      high byte first. */
  lemma Residue(m: seq<bv8>, hi: bv8, lo: bv8)
    ensures BitSerial(m + [hi, lo]) == 0 <==> Joined(hi, lo) == BitSerial(m)
  {
    SerialOfParts(0, m, [hi, lo]);
    TrailerVanishes(hi, lo);
    if BitSerial(m + [hi, lo]) == 0 {
      CcittInjective();
      CcittCancels();
      SerialInjective(Ccitt(), BitSerial(m), Joined(hi, lo), Bits([hi, lo]));
    }
  }

  /** Leading zero bytes go unnoticed. */
  lemma {:induction false} LeadingZeros(n: nat, m: seq<bv8>)
    ensures BitSerial(seq(n, _ => 0) + m) == BitSerial(m)
  {
    var zeros := seq(n, _ => 0);
    if n == 0 {
      assert zeros + m == m;
    } else {
      var rest := seq(n - 1, _ => 0);
      assert zeros + m == [0] + (rest + m);
      LeadingZeros(n - 1, m);
      SerialOfParts(0, [0], rest + m);
      TableIsBitSerial(0, [0]);
      ByteVanishes(0, 0);
      assert Joined(0, 0) == 0;
      assert Fold((c, b) => ByTable(c, b), 0, [0]) == Fold((c, b) => ByTable(c, b), ByTable(0, 0), []);
    }
  }

  // ---------------------------------------------------------------------------------------------
  // What of this needs no more of the table than that its entry 0 is zero.

  /** The loop body over any table. */
  function ByEntries(entry: bv16 -> bv16, c: bv16, b: bv8): bv16 {
    Add(ShiftByte(c), entry(Index(c, b)))
  }

  /** The loop over any table. */
  function Remainder(entry: bv16 -> bv16, buf: seq<bv8>): bv16 {
    Fold((c, b) => ByEntries(entry, c, b), 0, buf)
  }

  lemma OwnByteVanishes(entry: bv16 -> bv16, hi: bv8, lo: bv8)
    requires entry(0) == 0
    ensures ByEntries(entry, Joined(hi, lo), hi) == Joined(lo, 0)
  {
    IndexOfOwnByte(hi, lo);
    XorZero(ShiftByte(Joined(hi, lo)));
  }

  /** Over any table whose entry 0 is zero, a message followed by its own checksum, high byte first, checks to
      zero. */
  lemma AnyTableResidue(entry: bv16 -> bv16, m: seq<bv8>, hi: bv8, lo: bv8)
    requires entry(0) == 0 && Joined(hi, lo) == Remainder(entry, m)
    ensures Remainder(entry, m + [hi, lo]) == 0
  {
    var f := (c, b) => ByEntries(entry, c, b);
    FoldAppend(f, 0, m, [hi, lo]);
    OwnByteVanishes(entry, hi, lo);
    OwnByteVanishes(entry, lo, 0);
    assert [hi, lo][1..] == [lo];
    assert Fold(f, Joined(lo, 0), [lo]) == Fold(f, f(Joined(lo, 0), lo), []);
    assert Joined(0, 0) == 0;
  }

  /** Over any table whose entry 0 is zero, leading zero bytes go unnoticed. */
  lemma {:induction false} AnyTableLeadingZeros(entry: bv16 -> bv16, n: nat, m: seq<bv8>)
    requires entry(0) == 0
    ensures Remainder(entry, seq(n, _ => 0) + m) == Remainder(entry, m)
  {
    var zeros := seq(n, _ => 0);
    if n == 0 {
      assert zeros + m == m;
    } else {
      AnyTableLeadingZeros(entry, n - 1, m);
      assert (zeros + m)[1..] == seq(n - 1, _ => 0) + m;
      OwnByteVanishes(entry, 0, 0);
      assert Joined(0, 0) == 0;
    }
  }

  // ---------------------------------------------------------------------------------------------
  // Error detection.

  lemma ByteBitsInjective(a: bv8, b: bv8)
    requires ByteBits(a) == ByteBits(b)
    ensures a == b
  {
    var p, q := ByteBits(a), ByteBits(b);
    assert p[0] == q[0] && p[1] == q[1] && p[2] == q[2] && p[3] == q[3];
    assert p[4] == q[4] && p[5] == q[5] && p[6] == q[6] && p[7] == q[7];
  }

  lemma BitsInjective(x: seq<bv8>, y: seq<bv8>)
    requires |x| == |y| && Bits(x) == Bits(y)
    ensures x == y
  {
    forall a, b | ByteBits(a) == ByteBits(b) ensures a == b {
      ByteBitsInjective(a, b);
    }
    StreamInjective(ByteLanes().bits, 8, x, y);
  }

  /** Any error confined to 16 consecutive bits of the message changes the checksum. */
  lemma BurstChangesChecksum(x: seq<bv8>, y: seq<bv8>, lo: nat)
    requires |x| == |y| && x != y
    requires DifferOnlyIn(Bits(x), Bits(y), lo, 16)
    ensures BitSerial(x) != BitSerial(y)
  {
    if BitSerial(x) == BitSerial(y) {
      CcittAssociative();
      CcittCancels();
      CcittLinear();
      CcittInjective();
      CcittRoom();
      BurstDetected(Ccitt(), 0, Bits(x), Bits(y), lo, 16);
      BitsInjective(x, y);
    }
  }
}
