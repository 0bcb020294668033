/**
  What the CRC-32 code makes of a message that carries its own checksum, and what its start value amounts to. Both hold
  however the right shift behaves; only the one word that every intact message leaves depends on it.
 */
module Crc32Residue {
  import opened Registers
  import opened Crc32
  import Crc32Arithmetic

  /** The loop over the table, from any register. */
  function Run(sh: Shift, c: bv32, buf: seq<bv8>): bv32 {
    Fold((c, b) => Lookup(Crc(sh), ByteLanes(), 8, c, b), c, buf)
  }

  function LastByte(c: bv32): bv8 { (c & 0xFF) as bv8 }

  /** A register's bytes, low byte first. */
  function Trailer(c: bv32): (t: seq<bv8>)
    ensures |t| == 4
  {
    [LastByte(c), LastByte(ShiftByte(c)), LastByte(ShiftByte(ShiftByte(c))), LastByte(ShiftByte(ShiftByte(ShiftByte(c))))]
  }

  // ---------------------------------------------------------------------------------------------
  // A register that is fed its own bytes is emptied.

  lemma OwnIndex(c: bv32)
    ensures LowByte(Add(c, Widen(LastByte(c)))) == 0 && Add(0, ShiftByte(c)) == ShiftByte(c)
  {}

  lemma OwnByte(sh: Shift, c: bv32)
    ensures Lookup(Crc(sh), ByteLanes(), 8, c, LastByte(c)) == ShiftByte(c)
  {
    Crc32Arithmetic.EntryZero(sh);
    OwnIndex(c);
  }

  lemma RunOne(sh: Shift, c: bv32, b: bv8, buf: seq<bv8>)
    ensures Run(sh, c, [b] + buf) == Run(sh, Lookup(Crc(sh), ByteLanes(), 8, c, b), buf)
  {
    hide Lookup, Clock, Add;
    assert ([b] + buf)[1..] == buf;
  }

  lemma RunNone(sh: Shift, c: bv32)
    ensures Run(sh, c, []) == c
  {}

  lemma NothingLeft(c: bv32)
    ensures ShiftByte(ShiftByte(ShiftByte(ShiftByte(c)))) == 0
  {}

  lemma Drained(sh: Shift, c: bv32)
    ensures Run(sh, c, Trailer(c)) == 0
  {
    hide Lookup, ShiftByte, LastByte, Clock, Add, Run;
    var d := ShiftByte(c);
    var e := ShiftByte(d);
    var f := ShiftByte(e);
    OwnByte(sh, c);
    OwnByte(sh, d);
    OwnByte(sh, e);
    OwnByte(sh, f);
    NothingLeft(c);
    var p, q, x, y := LastByte(c), LastByte(d), LastByte(e), LastByte(f);
    RunNone(sh, 0);
    RunOne(sh, f, y, []);
    RunOne(sh, e, x, [y]);
    RunOne(sh, d, q, [x, y]);
    RunOne(sh, c, p, [q, x, y]);
    assert [y] + [] == [y] && [x] + [y] == [x, y] && [q] + [x, y] == [q, x, y] && [p] + [q, x, y] == Trailer(c);
  }

  // ---------------------------------------------------------------------------------------------
  // The start value.

  lemma RunXor(sh: Shift, c: bv32, d: bv32, x: seq<bv8>, y: seq<bv8>)
    requires |x| == |y|
    ensures Run(sh, Add(c, d), Xor(x, y)) == Add(Run(sh, c, x), Run(sh, d, y))
  {
    FoldXor(sh, c, d, x, y);
  }

  lemma RunAppend(sh: Shift, c: bv32, x: seq<bv8>, y: seq<bv8>)
    ensures Run(sh, c, x + y) == Run(sh, Run(sh, c, x), y)
  {
    FoldAppend((c, b) => Lookup(Crc(sh), ByteLanes(), 8, c, b), c, x, y);
  }

  /** The message with its first four bytes, or as many as it has, complemented. */
  function Complemented(m: seq<bv8>): (r: seq<bv8>)
    ensures |r| == |m|
  {
    seq(|m|, i requires 0 <= i < |m| => if i < 4 then m[i] ^ 0xFF else m[i])
  }

  /** What an all-ones register keeps after `n` of its own bytes. */
  function Kept(n: nat): bv32 {
    if n == 0 then 0xFFFF_FFFF else if n == 1 then 0x00FF_FFFF else if n == 2 then 0x0000_FFFF else if n == 3 then 0x0000_00FF else 0
  }

  function AllOnes(n: nat): (r: seq<bv8>)
    ensures |r| == n
  {
    seq(n, _ => 0xFF)
  }

  lemma KeptByte(n: nat)
    requires n < 4
    ensures LastByte(Kept(n)) == 0xFF && ShiftByte(Kept(n)) == Kept(n + 1)
  {}

  lemma {:induction false} OnesDrain(sh: Shift, n: nat)
    requires n <= 4
    ensures Run(sh, 0xFFFF_FFFF, AllOnes(n)) == Kept(n)
  {
    hide Lookup, ShiftByte, LastByte, Clock, Add, Run;
    if n == 0 {
      assert AllOnes(0) == [];
      RunNone(sh, 0xFFFF_FFFF);
    } else {
      OnesDrain(sh, n - 1);
      KeptByte(n - 1);
      OwnByte(sh, Kept(n - 1));
      var none: seq<bv8>, last: seq<bv8> := [], [0xFF];
      assert AllOnes(n) == AllOnes(n - 1) + last;
      RunAppend(sh, 0xFFFF_FFFF, AllOnes(n - 1), last);
      RunOne(sh, Kept(n - 1), 0xFF, none);
      RunNone(sh, Kept(n));
      assert [0xFF] + none == last;
    }
  }

  lemma ByteComplemented(b: bv8)
    ensures AddByte(b ^ 0xFF, 0xFF) == b
  {}

  lemma AddFromZero(x: bv32)
    ensures Add(0, x) == x && Add(x, 0) == x
  {}

  lemma HeadComplemented(m: seq<bv8>, n: nat)
    requires n <= 4 && n <= |m|
    ensures Xor(Complemented(m)[..n], AllOnes(n)) == m[..n]
  {
    forall i | 0 <= i < n ensures Xor(Complemented(m)[..n], AllOnes(n))[i] == m[..n][i] {
      ByteComplemented(m[i]);
    }
  }

  lemma ChecksumIsRun(sh: Shift, m: seq<bv8>)
    ensures TableChecksum(sh, m) == Add(Run(sh, 0xFFFF_FFFF, m), 0xFFFF_FFFF)
  {}

  lemma HeadRuns(sh: Shift, m: seq<bv8>, n: nat)
    requires n == if |m| < 4 then |m| else 4
    ensures Run(sh, 0xFFFF_FFFF, m[..n]) == Add(Run(sh, 0, Complemented(m)[..n]), Kept(n))
  {
    hide Run, Add;
    AddFromZero(0xFFFF_FFFF);
    HeadComplemented(m, n);
    RunXor(sh, 0, 0xFFFF_FFFF, Complemented(m)[..n], AllOnes(n));
    OnesDrain(sh, n);
  }

  /** The start value complements the first four bytes of the message: the checksum is the complement of what the loop makes,
      from zero, of the message so changed. A message of fewer bytes leaves some of the ones behind. */
  lemma StartComplements(sh: Shift, m: seq<bv8>)
    ensures TableChecksum(sh, m) == Add(Add(Run(sh, 0, Complemented(m)), Kept(|m|)), 0xFFFF_FFFF)
    ensures |m| >= 4 ==> TableChecksum(sh, m) == Add(Run(sh, 0, Complemented(m)), 0xFFFF_FFFF)
  {
    hide Run, Add, TableChecksum;
    var n := if |m| < 4 then |m| else 4;
    var x := Complemented(m);
    ChecksumIsRun(sh, m);
    HeadRuns(sh, m, n);
    AddFromZero(Run(sh, 0, x[..n]));
    AddFromZero(Run(sh, 0, x));
    assert m == m[..n] + m[n..] && x == x[..n] + x[n..];
    RunAppend(sh, 0xFFFF_FFFF, m[..n], m[n..]);
    RunAppend(sh, 0, x[..n], x[n..]);
    if |m| < 4 {
      assert m[..n] == m && x[..n] == x;
    } else {
      assert x[n..] == m[n..];
    }
  }

  // ---------------------------------------------------------------------------------------------
  // The residue.

  function FourZeros(): seq<bv8> { [0, 0, 0, 0] }

  /** The register all ones leave after four zero bytes. */
  function Settled(sh: Shift): bv32 {
    match sh
    case Logical => 0xDEBB_20E3
    case Arithmetic => 0xE8BB_7CC9
  }

  function Looked(e: bv32, c: bv32): bv32 { Add(e, ShiftByte(c)) }

  lemma LogicalWords()
    ensures Crc32Arithmetic.LogicalSum(0xFF) == 0x2D02_EF8D && Looked(0x2D02_EF8D, 0xFFFF_FFFF) == 0x2DFD_1072
    ensures Crc32Arithmetic.LogicalSum(0x72) == 0xBE0B_1010 && Looked(0xBE0B_1010, 0x2DFD_1072) == 0xBE26_ED00
    ensures Crc32Arithmetic.LogicalSum(0x00) == 0 && Looked(0, 0xBE26_ED00) == 0x00BE_26ED
    ensures Crc32Arithmetic.LogicalSum(0xED) == 0xDEBB_9EC5 && Looked(0xDEBB_9EC5, 0x00BE_26ED) == 0xDEBB_20E3
  {}

  lemma ArithmeticWords()
    ensures Crc32Arithmetic.ArithmeticSum(0xFF) == 0x0702_EF8D && Looked(0x0702_EF8D, 0xFFFF_FFFF) == 0x07FD_1072
    ensures Crc32Arithmetic.ArithmeticSum(0x72) == 0xE20B_1010 && Looked(0xE20B_1010, 0x07FD_1072) == 0xE20C_ED00
    ensures Crc32Arithmetic.ArithmeticSum(0x00) == 0 && Looked(0, 0xE20C_ED00) == 0x00E2_0CED
    ensures Crc32Arithmetic.ArithmeticSum(0xED) == 0xE8BB_9EC5 && Looked(0xE8BB_9EC5, 0x00E2_0CED) == 0xE8BB_7CC9
  {}

  lemma ZeroIndex(c: bv32)
    ensures LowByte(Add(c, Widen(0))) == LowByte(c)
  {}

  /** A zero byte looks up the register's own low byte. */
  lemma ZeroByte(sh: Shift, c: bv32, i: bv32, e: bv32, d: bv32)
    requires LowByte(c) == i && Entry(sh, i) == e && Looked(e, c) == d
    ensures Lookup(Crc(sh), ByteLanes(), 8, c, 0) == d
  {
    ZeroIndex(c);
  }

  lemma LowBytes()
    ensures LowByte(0xFFFF_FFFF) == 0xFF && LowByte(0x2DFD_1072) == 0x72 && LowByte(0xBE26_ED00) == 0 && LowByte(0x00BE_26ED) == 0xED
    ensures LowByte(0x07FD_1072) == 0x72 && LowByte(0xE20C_ED00) == 0 && LowByte(0x00E2_0CED) == 0xED
  {}

  lemma ZeroBytes(sh: Shift, c: bv32, d: bv32, e: bv32, f: bv32, g: bv32)
    requires Lookup(Crc(sh), ByteLanes(), 8, c, 0) == d && Lookup(Crc(sh), ByteLanes(), 8, d, 0) == e
    requires Lookup(Crc(sh), ByteLanes(), 8, e, 0) == f && Lookup(Crc(sh), ByteLanes(), 8, f, 0) == g
    ensures Run(sh, c, FourZeros()) == g
  {
    hide Lookup, Run;
    var none: seq<bv8>, one: seq<bv8>, two: seq<bv8>, three: seq<bv8> := [], [0], [0, 0], [0, 0, 0];
    RunNone(sh, g);
    RunOne(sh, f, 0, none);
    RunOne(sh, e, 0, one);
    RunOne(sh, d, 0, two);
    RunOne(sh, c, 0, three);
    assert [0] + none == one && [0] + one == two && [0] + two == three && [0] + three == FourZeros();
  }

  lemma OnesSettle(sh: Shift)
    ensures Run(sh, 0xFFFF_FFFF, FourZeros()) == Settled(sh)
  {
    hide Lookup, Entry, Looked, LowByte, Crc32Arithmetic.LogicalSum, Crc32Arithmetic.ArithmeticSum;
    LowBytes();
    match sh
    case Logical =>
      LogicalWords();
      Crc32Arithmetic.LogicalTable(0xFF);
      Crc32Arithmetic.LogicalTable(0x72);
      Crc32Arithmetic.LogicalTable(0x00);
      Crc32Arithmetic.LogicalTable(0xED);
      ZeroByte(sh, 0xFFFF_FFFF, 0xFF, 0x2D02_EF8D, 0x2DFD_1072);
      ZeroByte(sh, 0x2DFD_1072, 0x72, 0xBE0B_1010, 0xBE26_ED00);
      ZeroByte(sh, 0xBE26_ED00, 0x00, 0, 0x00BE_26ED);
      ZeroByte(sh, 0x00BE_26ED, 0xED, 0xDEBB_9EC5, 0xDEBB_20E3);
      ZeroBytes(sh, 0xFFFF_FFFF, 0x2DFD_1072, 0xBE26_ED00, 0x00BE_26ED, 0xDEBB_20E3);
    case Arithmetic =>
      ArithmeticWords();
      Crc32Arithmetic.ArithmeticTable(0xFF);
      Crc32Arithmetic.ArithmeticTable(0x72);
      Crc32Arithmetic.ArithmeticTable(0x00);
      Crc32Arithmetic.ArithmeticTable(0xED);
      ZeroByte(sh, 0xFFFF_FFFF, 0xFF, 0x0702_EF8D, 0x07FD_1072);
      ZeroByte(sh, 0x07FD_1072, 0x72, 0xE20B_1010, 0xE20C_ED00);
      ZeroByte(sh, 0xE20C_ED00, 0x00, 0, 0x00E2_0CED);
      ZeroByte(sh, 0x00E2_0CED, 0xED, 0xE8BB_9EC5, 0xE8BB_7CC9);
      ZeroBytes(sh, 0xFFFF_FFFF, 0x07FD_1072, 0xE20C_ED00, 0x00E2_0CED, 0xE8BB_7CC9);
  }

  lemma XorFromZeros(t: seq<bv8>)
    requires |t| == 4
    ensures Xor(FourZeros(), t) == t
  {
    forall i | 0 <= i < 4 ensures FourZeros()[i] ^ t[i] == t[i] {}
  }

  lemma Uncomplement(x: bv32)
    ensures Add(0xFFFF_FFFF, Add(x, 0xFFFF_FFFF)) == x
  {}


  lemma SettledResidue()
    ensures Add(Settled(Logical), 0xFFFF_FFFF) == 0x2144_DF1C && Add(Settled(Arithmetic), 0xFFFF_FFFF) == 0x1744_8336
  {}

  lemma OwnTrailer(sh: Shift, m: seq<bv8>)
    ensures TableChecksum(sh, m + Trailer(TableChecksum(sh, m))) == Add(Settled(sh), 0xFFFF_FFFF)
  {
    hide Run, Add, TableChecksum, Trailer, Settled, FourZeros;
    var c := TableChecksum(sh, m);
    var r := Run(sh, 0xFFFF_FFFF, m);
    ChecksumIsRun(sh, m);
    ChecksumIsRun(sh, m + Trailer(c));
    RunAppend(sh, 0xFFFF_FFFF, m, Trailer(c));
    Uncomplement(r);
    assert |FourZeros()| == 4 by { XorFromZeros([0, 0, 0, 0]); }
    XorFromZeros(Trailer(c));
    RunXor(sh, 0xFFFF_FFFF, c, FourZeros(), Trailer(c));
    OnesSettle(sh);
    Drained(sh, c);
    AddFromZero(Settled(sh));
  }

  /** A message with a four-byte trailer checks to 0x2144DF1C if and only if the trailer is the message's checksum, low byte
      first. */
  lemma Residue(m: seq<bv8>, t: seq<bv8>)
    requires |t| == 4
    ensures TableChecksum(Logical, m + t) == 0x2144_DF1C <==> t == Trailer(TableChecksum(Logical, m))
  {
    hide TableChecksum, Trailer;
    var own := Trailer(TableChecksum(Logical, m));
    OwnTrailer(Logical, m);
    SettledResidue();
    if TableChecksum(Logical, m + t) == 0x2144_DF1C && m + t != m + own {
      ByteBurstChangesChecksum(m + t, m + own, |m|);
    }
    assert (m + t)[|m|..] == t && (m + own)[|m|..] == own;
  }

  /** With an arithmetic shift the word is another, and three other trailers check to it as well. */
  lemma ArithmeticResidue(m: seq<bv8>, t: seq<bv8>)
    requires |t| == 4
    ensures TableChecksum(Arithmetic, m + t) == 0x1744_8336
       <==> Crc32Arithmetic.Silent(Crc32Arithmetic.WordOf(Xor(t, Trailer(TableChecksum(Arithmetic, m)))))
  {
    hide TableChecksum, Trailer, Crc32Arithmetic.Silent, Crc32Arithmetic.WordOf;
    var own := Trailer(TableChecksum(Arithmetic, m));
    OwnTrailer(Arithmetic, m);
    SettledResidue();
    Crc32Arithmetic.UnseenDifferences(m, t, own, []);
    assert m + t + [] == m + t && m + own + [] == m + own;
  }
}
