/**
  The CRC-32 code of the OTA client: a 256-entry table built in place and a table-driven checksum.

  The reference is the bit-serial register of section 8 of RFC 1952: one bit of the message enters per
  clock, least significant bit of each byte first.
 */
module Crc32 {
  import opened Registers

  const POLY: bv32 := 0xEDB8_8320
  const ONES: bv32 := 0xFFFF_FFFF

  /** How the right shift of a signed register value with its top bit set behaves. The language of the
      original leaves this open; the checksum of RFC 1952 needs `Logical`. */
  datatype Shift = Logical | Arithmetic

  function Half(c: bv32): bv32 { c >> 1 }

  function Sign(c: bv32): bv32 { c & 0x8000_0000 }

  function Join(h: bv32, s: bv32): bv32 { h | s }

  function Halve(sh: Shift, c: bv32): bv32 {
    match sh
    case Logical => Half(c)
    case Arithmetic => Join(Half(c), Sign(c))
  }

  predicate Odd(c: bv32) { c & 1 == 1 }

  function Feed(odd: bool, h: bv32): bv32 {
    if odd then Add(POLY, h) else h
  }

  /** One clock of the register. */
  function Clock(sh: Shift, c: bv32): bv32 {
    Feed(Odd(c), Halve(sh, c))
  }

  function Bit(b: bool): bv32 { if b then 1 else 0 }

  function Add(x: bv32, y: bv32): bv32 { x ^ y }

  function Up(w: bv32): bv32 { w << 1 }

  function Crc(sh: Shift): Register<bv32> {
    Register(0, (x, y) => Add(x, y), c => Clock(sh, c), b => Bit(b), w => Up(w))
  }

  function LowByte(c: bv32): bv32 { c & 0xFF }

  function HighBytes(c: bv32): bv32 { c & 0xFFFF_FF00 }

  function ShiftByte(c: bv32): bv32 { c >> 8 }

  function Widen(b: bv8): bv32 { b as bv32 }

  /** The bits of a byte in the order they enter the register. */
  function ByteBits(b: bv8): (bits: seq<bool>)
    ensures |bits| == 8
  {
    [b & 1 != 0, b & 2 != 0, b & 4 != 0, b & 8 != 0, b & 16 != 0, b & 32 != 0, b & 64 != 0, b & 128 != 0]
  }

  function ByteLanes(): Lanes<bv32, bv8> {
    Lanes(c => LowByte(c), c => HighBytes(c), c => ShiftByte(c), b => Widen(b), b => ByteBits(b))
  }

  // ---------------------------------------------------------------------------------------------
  // The code.

  /** The value the table holds for index `i`. */
  function Entry(sh: Shift, i: bv32): bv32 {
    Steps(Crc(sh), 8, i)
  }

  /** The inner loop: one table entry, clock by clock. */
  method MakeEntry(sh: Shift, i: bv32, clocks: nat) returns (c: bv32)
    ensures c == Steps(Crc(sh), clocks, i)
  {
    hide Halve, Odd;
    c := i;
    for j := 0 to clocks
      invariant Steps(Crc(sh), clocks - j, c) == Steps(Crc(sh), clocks, i)
    {
      c := if Odd(c) then POLY ^ Halve(sh, c) else Halve(sh, c);
    }
  }

  method MakeCrcTable(sh: Shift, crcTable: array<bv32>)
    requires crcTable.Length == 256
    modifies crcTable
    ensures forall i :: 0 <= i < 256 ==> crcTable[i] == Entry(sh, i as bv32)
  {
    hide Steps;
    for i := 0 to 256
      invariant forall k :: 0 <= k < i ==> crcTable[k] == Entry(sh, k as bv32)
    {
      crcTable[i] := MakeEntry(sh, i as bv32, 8);
    }
  }

  ghost predicate IsTable(entry: bv32 -> bv32, table: seq<bv32>) {
    |table| == 256 && forall i :: 0 <= i < 256 ==> table[i] == entry(i as bv32)
  }

  /** The body of the checksum loop over a table that holds `entry`. */
  function ByTable(entry: bv32 -> bv32, c: bv32, b: bv8): bv32 {
    Add(entry(LowByte(Add(c, Widen(b)))), ShiftByte(c))
  }

  /** The checksum loop, over whatever the table holds. */
  method Checksum(ghost entry: bv32 -> bv32, crcTable: array<bv32>, buf: array<bv8>) returns (r: bv32)
    requires IsTable(entry, crcTable[..])
    ensures r == Add(Fold((c, b) => ByTable(entry, c, b), ONES, buf[..]), ONES)
  {
    ghost var f := (c, b) => ByTable(entry, c, b);
    var c := ONES;
    var i := 0;
    while i < buf.Length
      invariant 0 <= i <= buf.Length
      invariant Fold(f, c, buf[i..]) == Fold(f, ONES, buf[..])
    {
      assert buf[i..][1..] == buf[i + 1..];
      c := NextRegister(entry, crcTable, c, buf[i]);
      i := i + 1;
    }
    r := c ^ ONES;
  }

  method NextRegister(ghost entry: bv32 -> bv32, crcTable: array<bv32>, c: bv32, b: bv8) returns (r: bv32)
    requires IsTable(entry, crcTable[..])
    ensures r == ByTable(entry, c, b)
  {
    var ix := LowByte(Add(c, Widen(b)));
    var t := Fetch(entry, crcTable, ix);
    r := Add(t, ShiftByte(c));
  }

  method Fetch(ghost entry: bv32 -> bv32, crcTable: array<bv32>, ix: bv32) returns (t: bv32)
    requires IsTable(entry, crcTable[..]) && ix & 0xFF == ix
    ensures t == entry(ix)
  {
    IndexFits(ix);
    t := crcTable[ix as int];
    assert t == crcTable[..][ix as int];
  }

  lemma IndexFits(ix: bv32)
    requires ix & 0xFF == ix
    ensures ix as int < 256 && (ix as int) as bv32 == ix
  {
    assert (ix & 0xFF) as int < 256;
  }

  // ---------------------------------------------------------------------------------------------
  // The laws of the register, each decided on words.

  lemma XorLaws(x: bv32, y: bv32, z: bv32)
    ensures (x ^ y) ^ z == x ^ (y ^ z)
    ensures z ^ x == z ^ y ==> x == y
    ensures x ^ z == y ^ z ==> x == y
  {}

  lemma AddAssociates(x: bv32, y: bv32, z: bv32)
    ensures Add(Add(x, y), z) == Add(x, Add(y, z))
  {
    XorLaws(x, y, z);
  }

  lemma AddZero(x: bv32)
    ensures Add(x, 0) == x
  {}

  lemma AddCancels(c: bv32, x: bv32, y: bv32)
    ensures Add(c, x) == Add(c, y) ==> x == y
    ensures Add(x, c) == Add(y, c) ==> x == y
  {
    XorLaws(x, y, c);
  }

  lemma AddCommutes(x: bv32, y: bv32)
    ensures Add(x, y) == Add(y, x)
  {}

  lemma AddInterchanges(a: bv32, b: bv32, c: bv32, d: bv32)
    ensures Add(Add(a, b), Add(c, d)) == Add(Add(a, c), Add(b, d))
  {
    hide Add;
    AddAssociates(a, b, Add(c, d));
    AddAssociates(b, c, d);
    AddCommutes(b, c);
    AddAssociates(c, b, d);
    AddAssociates(a, c, Add(b, d));
  }

  lemma XorOdd(x: bv32, y: bv32)
    ensures Odd(Add(x, y)) == (Odd(x) != Odd(y))
  {}

  lemma AddTwice(x: bv32, y: bv32)
    ensures Add(x, Add(x, y)) == y
  {}

  lemma FeedLinear(b: bool, h: bv32, d: bool, k: bv32)
    ensures Feed(b != d, Add(h, k)) == Add(Feed(b, h), Feed(d, k))
  {
    hide Add;
    AddAssociates(POLY, h, k);
    AddCommutes(h, POLY);
    AddAssociates(h, POLY, k);
    AddInterchanges(POLY, h, POLY, k);
    AddAssociates(POLY, POLY, Add(h, k));
    AddTwice(POLY, Add(h, k));
  }

  lemma HalfLinear(x: bv32, y: bv32)
    ensures Half(Add(x, y)) == Add(Half(x), Half(y))
  {}

  lemma SignLinear(x: bv32, y: bv32)
    ensures Sign(Add(x, y)) == Add(Sign(x), Sign(y))
  {}

  /** Half a word leaves its sign bit free. */
  lemma SignFits(c: bv32)
    ensures Join(Half(c), Sign(c)) == Add(Half(c), Sign(c))
  {}

  lemma HalveLinear(sh: Shift, x: bv32, y: bv32)
    ensures Halve(sh, Add(x, y)) == Add(Halve(sh, x), Halve(sh, y))
  {
    hide Add, Half, Sign, Join;
    HalfLinear(x, y);
    SignLinear(x, y);
    SignFits(x);
    SignFits(y);
    SignFits(Add(x, y));
    AddInterchanges(Half(x), Half(y), Sign(x), Sign(y));
  }

  lemma ClockLinear(sh: Shift, x: bv32, y: bv32)
    ensures Clock(sh, Add(x, y)) == Add(Clock(sh, x), Clock(sh, y))
  {
    hide Add, Halve, Odd, Feed;
    HalveLinear(sh, x, y);
    XorOdd(x, y);
    FeedLinear(Odd(x), Halve(sh, x), Odd(y), Halve(sh, y));
  }

  lemma ClockInjective(x: bv32, y: bv32)
    ensures Clock(Logical, x) == Clock(Logical, y) ==> x == y
  {}

  lemma CrcLinear(sh: Shift)
    ensures Linear(Crc(sh))
  {
    hide Clock, Add;
    forall x, y ensures Clock(sh, Add(x, y)) == Add(Clock(sh, x), Clock(sh, y)) {
      ClockLinear(sh, x, y);
    }
  }

  lemma CrcRightUnit(sh: Shift)
    ensures RightUnit(Crc(sh))
  {
    hide Clock, Add;
    var r := Crc(sh);
    forall x ensures r.xor(x, r.zero) == x {
      AddZero(x);
    }
  }

  lemma CrcAssociative(sh: Shift)
    ensures Associative(Crc(sh)) && RightUnit(Crc(sh))
  {
    hide Clock, Add, RightUnit;
    CrcRightUnit(sh);
    var r := Crc(sh);
    forall x, y, z ensures r.xor(r.xor(x, y), z) == r.xor(x, r.xor(y, z)) {
      AddAssociates(x, y, z);
    }
  }

  lemma CrcCancels(sh: Shift)
    ensures Cancels(Crc(sh)) && CancelsRight(Crc(sh))
  {
    hide Clock, Add;
    forall c, x, y ensures Add(c, x) == Add(c, y) ==> x == y {
      AddCancels(c, x, y);
    }
    forall c, x, y ensures Add(x, c) == Add(y, c) ==> x == y {
      AddCancels(c, x, y);
    }
  }

  lemma CrcInterchanges(sh: Shift)
    ensures Interchanges(Crc(sh))
  {
    hide Clock, Add;
    forall a, b, c, d ensures Add(Add(a, b), Add(c, d)) == Add(Add(a, c), Add(b, d)) {
      AddInterchanges(a, b, c, d);
    }
  }

  lemma CrcInjective()
    ensures Injective(Crc(Logical))
  {
    hide Clock, Add;
    forall x, y ensures Clock(Logical, x) == Clock(Logical, y) ==> x == y {
      ClockInjective(x, y);
    }
  }

  // ---------------------------------------------------------------------------------------------
  // Up to 32 message bits fit in one word.

  predicate Top(w: bv32) { w & 0x8000_0000 != 0 }

  lemma XorMask(x: bv32, y: bv32)
    ensures (x ^ y) & 0x8000_0000 == (x & 0x8000_0000) ^ (y & 0x8000_0000)
    ensures x & 0x8000_0000 == 0 || x & 0x8000_0000 == 0x8000_0000
  {}

  lemma XorTop(x: bv32, y: bv32)
    ensures Top(Add(x, y)) == (Top(x) != Top(y))
  {
    XorMask(x, y);
    XorMask(y, x);
  }

  lemma XorUp(x: bv32, y: bv32)
    ensures Up(Add(x, y)) == Add(Up(x), Up(y))
  {}

  lemma UpAndDown(w: bv32)
    requires !Top(w)
    ensures Clock(Logical, Up(w)) == w
  {}

  lemma LowBit(w: bv32, b: bool)
    ensures Odd(Add(Bit(b), Up(w))) == b
  {}

  lemma CrcPlacesLinear()
    ensures PlacesLinear(Crc(Logical), w => Top(w))
  {
    hide Clock, Add, Top, Up;
    forall x, y ensures Top(Add(x, y)) == (Top(x) != Top(y)) {
      XorTop(x, y);
    }
    forall x, y ensures Up(Add(x, y)) == Add(Up(x), Up(y)) {
      XorUp(x, y);
    }
  }

  lemma ClearNibble(w: bv32, k: nat)
    requires w & 0xF000_0000 == 0 && Clear(Crc(Logical), v => Top(v), Up(Up(Up(Up(w)))), k)
    ensures Clear(Crc(Logical), v => Top(v), w, k + 4)
  {
    assert Clear(Crc(Logical), v => Top(v), Up(Up(Up(w))), k + 1);
    assert Clear(Crc(Logical), v => Top(v), Up(Up(w)), k + 2);
    assert Clear(Crc(Logical), v => Top(v), Up(w), k + 3);
  }

  lemma {:induction false} ZeroClear(k: nat)
    ensures Clear(Crc(Logical), v => Top(v), 0, k)
  {
    if k > 0 {
      ZeroClear(k - 1);
      assert Up(0) == 0;
    }
  }

  lemma OneClear()
    ensures Clear(Crc(Logical), v => Top(v), 1, 31)
  {
    assert Clear(Crc(Logical), v => Top(v), 0x8000_0000, 0);
    assert Clear(Crc(Logical), v => Top(v), 0x4000_0000, 1);
    assert Clear(Crc(Logical), v => Top(v), 0x2000_0000, 2);
    assert Clear(Crc(Logical), v => Top(v), 0x1000_0000, 3);
    ClearNibble(0x0100_0000, 3);
    ClearNibble(0x0010_0000, 7);
    ClearNibble(0x0001_0000, 11);
    ClearNibble(0x0000_1000, 15);
    ClearNibble(0x0000_0100, 19);
    ClearNibble(0x0000_0010, 23);
    ClearNibble(0x0000_0001, 27);
  }

  lemma CrcStartsClear()
    ensures StartsClear(Crc(Logical), w => Top(w), 32)
  {
    ZeroClear(32);
    ZeroClear(31);
    OneClear();
    forall b ensures Clear(Crc(Logical), w => Top(w), Bit(b), 31) {}
  }

  lemma CrcClocksBack()
    ensures ClocksBack(Crc(Logical), w => Top(w))
  {
    hide Clock, Up, Top;
    forall w | !Top(w) ensures Clock(Logical, Up(w)) == w {
      UpAndDown(w);
    }
  }

  lemma CrcShowsFirst()
    ensures ShowsFirst(Crc(Logical), w => Odd(w))
  {
    hide Clock, Add, Up, Odd, Bit;
    forall w, b ensures Odd(Add(Bit(b), Up(w))) == b {
      LowBit(w, b);
    }
  }

  lemma CrcRoom()
    ensures HasRoom(Crc(Logical), 32) && HasRoom(Crc(Logical), 8) && WordInjective(Crc(Logical), 32)
  {
    CrcPlacesLinear();
    CrcStartsClear();
    CrcClocksBack();
    CrcShowsFirst();
    CrcCancels(Logical);
    ClearHasRoom(Crc(Logical), w => Top(w), 32);
    ClearWordInjective(Crc(Logical), w => Top(w), w => Odd(w), 32);
  }

  // ---------------------------------------------------------------------------------------------
  // Bytes.

  lemma EightBits(b: bv8)
    ensures Add(Bit(b & 1 != 0), Up(Add(Bit(b & 2 != 0), Up(Add(Bit(b & 4 != 0), Up(Add(Bit(b & 8 != 0),
            Up(Add(Bit(b & 16 != 0), Up(Add(Bit(b & 32 != 0), Up(Add(Bit(b & 64 != 0), Up(Add(Bit(b & 128 != 0),
            Up(0)))))))))))))))) == Widen(b)
  {}

  lemma WordOfByte(b: bv8)
    ensures Word(Crc(Logical), ByteBits(b)) == Widen(b)
  {
    WordOfEight(Crc(Logical), ByteBits(b));
    EightBits(b);
  }

  lemma ByteWidens()
    ensures Widens(Crc(Logical), ByteLanes(), 8)
  {
    forall b ensures Word(Crc(Logical), ByteBits(b)) == Widen(b) {
      WordOfByte(b);
    }
  }

  /** A register whose low byte is clear only shifts during eight clocks. */
  lemma EightShifts(c: bv32)
    requires c & 0xFF == 0
    ensures Entry(Logical, c) == c >> 8
  {}

  lemma SplitLowByte(c: bv32)
    ensures Add(LowByte(c), HighBytes(c)) == c
    ensures HighBytes(c) & 0xFF == 0 && HighBytes(c) >> 8 == ShiftByte(c)
  {}

  lemma ByteShiftedOut(c: bv32, b: bv8)
    ensures ShiftByte(Add(c, Widen(b))) == ShiftByte(c)
  {}

  lemma HighBytesShift(x: bv32)
    ensures Steps(Crc(Logical), 8, HighBytes(x)) == ShiftByte(x)
  {
    SplitLowByte(x);
    EightShifts(HighBytes(x));
  }

  lemma ByteSplits()
    ensures Splits(Crc(Logical), ByteLanes(), 8)
  {
    hide Clock, Add, Widen, LowByte, HighBytes, ShiftByte;
    forall x ensures Add(LowByte(x), HighBytes(x)) == x {
      SplitLowByte(x);
    }
    forall x ensures Steps(Crc(Logical), 8, HighBytes(x)) == ShiftByte(x) {
      HighBytesShift(x);
    }
    forall c, b ensures ShiftByte(Add(c, Widen(b))) == ShiftByte(c) {
      ByteShiftedOut(c, b);
    }
  }

  function AddByte(a: bv8, b: bv8): bv8 { a ^ b }

  lemma WidenXor(a: bv8, b: bv8)
    ensures Widen(AddByte(a, b)) == Add(Widen(a), Widen(b))
  {}

  lemma LowByteXor(x: bv32, y: bv32)
    ensures LowByte(Add(x, y)) == Add(LowByte(x), LowByte(y))
  {}

  lemma ShiftByteXor(x: bv32, y: bv32)
    ensures ShiftByte(Add(x, y)) == Add(ShiftByte(x), ShiftByte(y))
  {}

  lemma ByteLanesLinear(sh: Shift)
    ensures LanesLinear(Crc(sh), ByteLanes(), (a, b) => AddByte(a, b))
  {
    hide Clock, Add, Widen, AddByte, LowByte, ShiftByte;
    forall x, y ensures LowByte(Add(x, y)) == Add(LowByte(x), LowByte(y)) {
      LowByteXor(x, y);
    }
    forall x, y ensures ShiftByte(Add(x, y)) == Add(ShiftByte(x), ShiftByte(y)) {
      ShiftByteXor(x, y);
    }
    forall a, b ensures Widen(AddByte(a, b)) == Add(Widen(a), Widen(b)) {
      WidenXor(a, b);
    }
  }

  // ---------------------------------------------------------------------------------------------
  // The table-driven loop computes the bit-serial checksum.

  /** What `Checksum` returns over a table made by `MakeCrcTable`. */
  function TableChecksum(sh: Shift, buf: seq<bv8>): bv32 {
    Add(Fold((c, b) => Lookup(Crc(sh), ByteLanes(), 8, c, b), ONES, buf), ONES)
  }

  function Bits(buf: seq<bv8>): seq<bool> {
    Stream(ByteLanes().bits, buf)
  }

  /** The checksum of RFC 1952: all ones in, one message bit per clock, complement out. */
  function Rfc1952(buf: seq<bv8>): bv32 {
    Add(Serial(Crc(Logical), 0xFFFF_FFFF, Bits(buf)), 0xFFFF_FFFF)
  }

  /** The two methods together: the table as built, then the loop over it. */
  method Crc32(sh: Shift, buf: array<bv8>) returns (r: bv32)
    ensures r == TableChecksum(sh, buf[..])
    ensures sh == Logical ==> r == Rfc1952(buf[..])
  {
    var crcTable := new bv32[256];
    MakeCrcTable(sh, crcTable);
    ghost var entry := (i: bv32) => Entry(sh, i);
    r := Checksum(entry, crcTable, buf);
    SameFold((c, b) => ByTable(entry, c, b), (c, b) => Lookup(Crc(sh), ByteLanes(), 8, c, b), ONES, buf[..]);
    if sh == Logical {
      ChecksumIsRfc1952(buf[..]);
    }
  }

  lemma LookupShifts(c: bv32, b: bv8)
    ensures Lookup(Crc(Logical), ByteLanes(), 8, c, b) == Serial(Crc(Logical), c, ByteLanes().bits(b))
  {
    CrcAssociative(Logical);
    CrcLinear(Logical);
    CrcRoom();
    ByteSplits();
    ByteWidens();
    LookupIsSerial(Crc(Logical), ByteLanes(), 8, c, b);
  }

  /** The table-driven checksum is the checksum of RFC 1952, for every buffer. */
  lemma ChecksumIsRfc1952(buf: seq<bv8>)
    ensures TableChecksum(Logical, buf) == Rfc1952(buf)
  {
    var f := (c, b) => Lookup(Crc(Logical), ByteLanes(), 8, c, b);
    forall c, b ensures f(c, b) == Serial(Crc(Logical), c, ByteLanes().bits(b)) {
      LookupShifts(c, b);
    }
    FoldIsSerial(Crc(Logical), f, ByteLanes().bits, ONES, buf);
  }

  // ---------------------------------------------------------------------------------------------
  // Error detection.

  lemma ByteBitsInjective(a: bv8, b: bv8)
    requires ByteBits(a) == ByteBits(b)
    ensures a == b
  {
    var p, q := ByteBits(a), ByteBits(b);
    assert p[0] == q[0] && p[1] == q[1] && p[2] == q[2] && p[3] == q[3];
    assert p[4] == q[4] && p[5] == q[5] && p[6] == q[6] && p[7] == q[7];
  }

  lemma BitsInjective(x: seq<bv8>, y: seq<bv8>)
    requires |x| == |y| && Bits(x) == Bits(y)
    ensures x == y
  {
    forall a, b | ByteBits(a) == ByteBits(b) ensures a == b {
      ByteBitsInjective(a, b);
    }
    StreamInjective(ByteLanes().bits, 8, x, y);
  }

  /** Any error confined to 32 consecutive bits of the message changes the checksum. */
  lemma BurstChangesChecksum(x: seq<bv8>, y: seq<bv8>, lo: nat)
    requires |x| == |y| && x != y
    requires DifferOnlyIn(Bits(x), Bits(y), lo, 32)
    ensures TableChecksum(Logical, x) != TableChecksum(Logical, y)
  {
    ChecksumIsRfc1952(x);
    ChecksumIsRfc1952(y);
    if TableChecksum(Logical, x) == TableChecksum(Logical, y) {
      SameRegister(x, y);
      CrcAssociative(Logical);
      CrcCancels(Logical);
      CrcLinear(Logical);
      CrcInjective();
      CrcRoom();
      BurstDetected(Crc(Logical), ONES, Bits(x), Bits(y), lo, 32);
      BitsInjective(x, y);
    }
  }

  lemma SameRegister(x: seq<bv8>, y: seq<bv8>)
    requires Rfc1952(x) == Rfc1952(y)
    ensures Serial(Crc(Logical), ONES, Bits(x)) == Serial(Crc(Logical), ONES, Bits(y))
  {
    AddCancels(ONES, Serial(Crc(Logical), ONES, Bits(x)), Serial(Crc(Logical), ONES, Bits(y)));
  }

  /** In particular any error confined to four consecutive bytes does. */
  lemma ByteBurstChangesChecksum(x: seq<bv8>, y: seq<bv8>, lo: nat)
    requires DifferOnlyIn(x, y, lo, 4) && x != y
    ensures TableChecksum(Logical, x) != TableChecksum(Logical, y)
  {
    StreamWindow(ByteLanes().bits, 8, x, y, lo, 4);
    BurstChangesChecksum(x, y, 8 * lo);
  }

  // ---------------------------------------------------------------------------------------------
  // Linearity, for either shift.

  /** The table is linear: the entry of an exclusive or is the exclusive or of the entries. */
  lemma EntryLinear(sh: Shift, i: bv32, j: bv32)
    ensures Entry(sh, Add(i, j)) == Add(Entry(sh, i), Entry(sh, j))
  {
    CrcLinear(sh);
    StepsLinear(Crc(sh), 8, i, j);
  }

  function Xor(x: seq<bv8>, y: seq<bv8>): (r: seq<bv8>)
    requires |x| == |y|
    ensures |r| == |x| && forall i :: 0 <= i < |x| ==> r[i] == x[i] ^ y[i]
  {
    Zip((a, b) => AddByte(a, b), x, y)
  }

  lemma LookupXor(sh: Shift, clocks: nat, c: bv32, d: bv32, a: bv8, b: bv8)
    ensures Lookup(Crc(sh), ByteLanes(), clocks, Crc(sh).xor(c, d), AddByte(a, b))
         == Crc(sh).xor(Lookup(Crc(sh), ByteLanes(), clocks, c, a), Lookup(Crc(sh), ByteLanes(), clocks, d, b))
  {
    CrcLinear(sh);
    CrcInterchanges(sh);
    ByteLanesLinear(sh);
    LookupLinear(Crc(sh), ByteLanes(), (a, b) => AddByte(a, b), clocks, c, d, a, b);
  }

  lemma TableXor(sh: Shift, clocks: nat, c: bv32, d: bv32, x: seq<bv8>, y: seq<bv8>)
    requires |x| == |y|
    ensures var f := (c, b) => Lookup(Crc(sh), ByteLanes(), clocks, c, b);
            Fold(f, Crc(sh).xor(c, d), Zip((a, b) => AddByte(a, b), x, y)) == Crc(sh).xor(Fold(f, c, x), Fold(f, d, y))
  {
    hide Lookup, Clock, Add, AddByte;
    var f, g := (c, b) => Lookup(Crc(sh), ByteLanes(), clocks, c, b), (a, b) => AddByte(a, b);
    forall c, d, a, b ensures f(Crc(sh).xor(c, d), g(a, b)) == Crc(sh).xor(f(c, a), f(d, b)) {
      LookupXor(sh, clocks, c, d, a, b);
    }
    FoldLinear(Crc(sh).xor, g, f, c, d, x, y);
  }

  lemma FoldXor(sh: Shift, c: bv32, d: bv32, x: seq<bv8>, y: seq<bv8>)
    requires |x| == |y|
    ensures var f := (c, b) => Lookup(Crc(sh), ByteLanes(), 8, c, b);
            Fold(f, Add(c, d), Xor(x, y)) == Add(Fold(f, c, x), Fold(f, d, y))
  {
    TableXor(sh, 8, c, d, x, y);
  }

  lemma CancelComplements(a: bv32, b: bv32, c: bv32)
    ensures Add(Add(Add(a, ONES), Add(b, ONES)), Add(c, ONES)) == Add(Add(Add(a, b), c), ONES)
  {}

  lemma OnesCancel()
    ensures Add(Add(ONES, ONES), ONES) == ONES
  {}

  /** The checksum is affine: the checksums of three buffers of equal length combine into that of their
      exclusive or. */
  lemma ChecksumAffine(sh: Shift, x: seq<bv8>, y: seq<bv8>, z: seq<bv8>)
    requires |x| == |y| == |z|
    ensures Add(Add(TableChecksum(sh, x), TableChecksum(sh, y)), TableChecksum(sh, z))
         == TableChecksum(sh, Xor(Xor(x, y), z))
  {
    var f := (c, b) => Lookup(Crc(sh), ByteLanes(), 8, c, b);
    FoldXor(sh, ONES, ONES, x, y);
    FoldXor(sh, Add(ONES, ONES), ONES, Xor(x, y), z);
    OnesCancel();
    CancelComplements(Fold(f, ONES, x), Fold(f, ONES, y), Fold(f, ONES, z));
  }
}
