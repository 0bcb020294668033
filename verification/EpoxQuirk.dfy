/**
  The repair of report descriptors that carry a known byte-order mistake: every occurrence of a 12-byte
  pattern is rewritten in place.
 */
module EpoxQuirk {
  import opened Bytes

  const PATTERN: seq<byte> := [0x05, 0x07, 0x19, 0x00, 0x2a, 0x00, 0xff, 0x15, 0x00, 0x26, 0x00, 0xff]

  /** The pattern with both misordered words put right. */
  const REPAIRED: seq<byte> := [0x05, 0x07, 0x19, 0x00, 0x2a, 0xff, 0x00, 0x15, 0x00, 0x26, 0xff, 0x00]

  /** The pattern occurs in `s` at `i`. */
  predicate Occurs(s: seq<byte>, i: int) {
    0 <= i <= |s| - 12 && s[i..i + 12] == PATTERN
  }

  /** The occurrences the loop visits: those that start before the last 12 bytes. */
  predicate Visited(s: seq<byte>, i: int) {
    i < |s| - 12 && Occurs(s, i)
  }

  /** Simultaneous replacement, in the original `s`, of the visited occurrences that start before `n`. */
  function ByteAt(s: seq<byte>, n: int, k: nat): byte
    requires k < |s|
  {
    if k - 5 < n && Visited(s, k - 5) then REPAIRED[5]
    else if k - 6 < n && Visited(s, k - 6) then REPAIRED[6]
    else if k - 10 < n && Visited(s, k - 10) then REPAIRED[10]
    else if k - 11 < n && Visited(s, k - 11) then REPAIRED[11]
    else s[k]
  }

  function Replaced(s: seq<byte>, n: int): (r: seq<byte>)
    ensures |r| == |s|
  {
    seq(|s|, k requires 0 <= k < |s| => ByteAt(s, n, k))
  }

  /** What the repair makes of a whole descriptor. */
  function Repair(s: seq<byte>): (r: seq<byte>)
    ensures |r| == |s|
  {
    Replaced(s, |s|)
  }

  /** What `memcmp` compares, if it lies within the array. */
  method Matches(data: array<byte>, i: nat) returns (inBounds: bool, same: bool)
    ensures inBounds <==> i + 12 <= data.Length
    ensures inBounds ==> (same <==> data[i..i + 12] == PATTERN)
  {
    if i + 12 > data.Length {
      return false, false;
    }
    return true, data[i..i + 12] == PATTERN;
  }

  /** The repair in place, of the first `size` bytes. A null descriptor is left alone. The loop bound is unsigned: for a
      size below that of the pattern it wraps around, and the loop runs out of the array, after which nothing is promised.
      For every other size the bytes are repaired. */
  method EpoxEndianQuirk(data: array?<byte>, size: nat) returns (inBounds: bool)
    requires data != null ==> size <= data.Length < 0x8000_0000
    modifies data
    ensures inBounds <==> data == null || size >= 12
    ensures data != null && inBounds ==> data[..size] == Repair(old(data[..size])) && data[size..] == old(data[size..])
  {
    if data == null {
      return true;
    }
    ghost var s, rest := data[..size], data[size..];
    var bound := (size + 0x1_0000_0000 - 12) % 0x1_0000_0000;
    var i := 0;
    while i < bound
      invariant 0 <= i <= bound
      invariant size < 12 ==> i <= data.Length
      invariant size >= 12 ==> data[..size] == Replaced(s, i) && data[size..] == rest
    {
      ghost var before := data[..];
      var found;
      inBounds, found := Matches(data, i);
      if !inBounds {
        return;
      }
      if found {
        RewriteAt(data, i);
      }
      if size >= 12 {
        LoopStep(s, before, size, i, found);
      }
      i := i + 1;
    }
    assert Replaced(s, size - 12) == Repair(s);
    inBounds := true;
  }

  /** The four writes of the loop body. */
  method RewriteAt(data: array<byte>, i: nat)
    requires i + 12 <= data.Length
    modifies data
    ensures data[..] == Rewrite(old(data[..]), i)
  {
    data[i + 5] := 0xff;
    data[i + 6] := 0x00;
    data[i + 10] := 0xff;
    data[i + 11] := 0x00;
  }

  function Rewrite(r: seq<byte>, i: nat): (q: seq<byte>)
    requires i + 12 <= |r|
    ensures |q| == |r|
  {
    r[i + 5 := 0xff][i + 6 := 0x00][i + 10 := 0xff][i + 11 := 0x00]
  }

  /** One turn of the loop carries the replacement one position further, and stays within the first `size` bytes. */
  lemma LoopStep(s: seq<byte>, before: seq<byte>, size: nat, i: nat, found: bool)
    requires i < size - 12 && |s| == size <= |before| && before[..size] == Replaced(s, i)
    requires found <==> before[i..i + 12] == PATTERN
    ensures var after := if found then Rewrite(before, i) else before;
            after[..size] == Replaced(s, i + 1) && after[size..] == before[size..]
  {
    SameOccurrence(s, i);
    assert before[..size][i..i + 12] == before[i..i + 12];
    if found {
      OneMore(s, i);
      assert Rewrite(before, i)[..size] == Rewrite(before[..size], i);
    } else {
      NoneMore(s, i);
    }
  }

  // ---------------------------------------------------------------------------------------------
  // Occurrences do not overlap: the first byte of the pattern is nowhere else in it.

  predicate Has(s: seq<byte>, i: int, k: nat) {
    k < 12 && 0 <= i + k < |s| && s[i + k] == PATTERN[k]
  }

  lemma OccursBytes(s: seq<byte>, i: int)
    ensures Occurs(s, i) <==> 0 <= i <= |s| - 12 && forall k: nat :: k < 12 ==> Has(s, i, k)
  {
    if 0 <= i <= |s| - 12 {
      var w := s[i..i + 12];
      if w == PATTERN {
        forall k: nat | k < 12 ensures Has(s, i, k) {
          assert w[k] == s[i + k];
        }
      } else if forall k: nat :: k < 12 ==> Has(s, i, k) {
        forall k: nat | k < 12 ensures w[k] == PATTERN[k] {
          assert Has(s, i, k);
        }
      }
    }
  }

  lemma NoneInside(s: seq<byte>, i: int, d: nat)
    requires Occurs(s, i) && 0 < d < 12
    ensures !Occurs(s, i + d)
  {
    OccursBytes(s, i);
    OccursBytes(s, i + d);
    assert Has(s, i, d) && PATTERN[d] != PATTERN[0];
    assert !Has(s, i + d, 0);
  }

  lemma Apart(s: seq<byte>, i: int, j: int)
    requires Occurs(s, i)
    ensures Occurs(s, j) ==> i == j || i + 12 <= j || j + 12 <= i
  {
    if i < j < i + 12 {
      NoneInside(s, i, j - i);
    } else if j < i < j + 12 && Occurs(s, j) {
      NoneInside(s, j, i - j);
    }
  }

  /** Inside a visited occurrence that the bound `n` has passed stand the repaired bytes. */
  lemma InsideRepaired(s: seq<byte>, n: int, i: int, k: nat)
    requires Visited(s, i) && i < n && k < 12
    ensures Replaced(s, n)[i + k] == REPAIRED[k]
  {
    OccursBytes(s, i);
    assert Has(s, i, k);
    Apart(s, i, i + k - 5);
    Apart(s, i, i + k - 6);
    Apart(s, i, i + k - 10);
    Apart(s, i, i + k - 11);
  }

  /** Everywhere else the original bytes stand. */
  lemma OutsideKept(s: seq<byte>, n: int, p: nat)
    requires p < |s|
    requires forall i :: i < n && Visited(s, i) ==> p < i || i + 12 <= p
    ensures Replaced(s, n)[p] == s[p]
  {}

  /** Replacing earlier occurrences neither makes nor breaks the one at `i`. */
  lemma SameOccurrence(s: seq<byte>, i: int)
    ensures Occurs(Replaced(s, i), i) <==> Occurs(s, i)
  {
    var r := Replaced(s, i);
    if Occurs(s, i) || Occurs(r, i) {
      forall j | j < i && Visited(s, j) ensures j + 12 <= i || i + 12 <= j {
        NoneAcross(s, i, j, i);
        Apart(s, j, i);
      }
      SameWindow(s, i, i);
    }
  }

  lemma NoneBehind(s: seq<byte>, n: int, i: int, d: nat)
    requires Visited(s, i) && i < n && 0 < d < 12
    ensures !Occurs(Replaced(s, n), i + d)
  {
    var r := Replaced(s, n);
    OccursBytes(r, i + d);
    InsideRepaired(s, n, i, d);
    assert REPAIRED[d] != PATTERN[0];
    assert !Has(r, i + d, 0);
  }

  lemma NoneAt(s: seq<byte>, n: int, i: int)
    requires Visited(s, i) && i < n
    ensures !Occurs(Replaced(s, n), i)
  {
    var r := Replaced(s, n);
    OccursBytes(r, i);
    InsideRepaired(s, n, i, 5);
    assert !Has(r, i, 5);
  }

  lemma NoneBefore(s: seq<byte>, n: int, i: int, d: nat)
    requires Visited(s, i) && i < n && 0 < d < 12
    ensures !Occurs(Replaced(s, n), i - d)
  {
    var r := Replaced(s, n);
    OccursBytes(r, i - d);
    InsideRepaired(s, n, i, 0);
    assert PATTERN[d] != REPAIRED[0];
    assert !Has(r, i - d, d);
  }

  /** No occurrence in the rewritten descriptor touches a rewritten one. */
  lemma NoneAcross(s: seq<byte>, n: int, i: int, j: int)
    requires Visited(s, i) && i < n
    ensures i - 12 < j < i + 12 ==> !Occurs(Replaced(s, n), j)
  {
    if i < j < i + 12 {
      NoneBehind(s, n, i, j - i);
    } else if j == i {
      NoneAt(s, n, i);
    } else if i - 12 < j < i {
      NoneBefore(s, n, i, i - j);
    }
  }

  /** Where no replaced occurrence reaches, a window is as it was. */
  lemma SameWindow(s: seq<byte>, n: int, i: int)
    requires 0 <= i <= |s| - 12
    requires forall j :: j < n && Visited(s, j) ==> j + 12 <= i || i + 12 <= j
    ensures Replaced(s, n)[i..i + 12] == s[i..i + 12]
  {
    forall p: nat | i <= p < i + 12 ensures Replaced(s, n)[p] == s[p] {
      OutsideKept(s, n, p);
    }
  }

  /** Up to its own rewriting a visited occurrence stands as it was. */
  lemma StillPattern(s: seq<byte>, i: nat, k: nat)
    requires Visited(s, i) && k < 12
    ensures Replaced(s, i)[i + k] == PATTERN[k]
  {
    SameOccurrence(s, i);
    OccursBytes(Replaced(s, i), i);
    assert Has(Replaced(s, i), i, k);
  }

  lemma OneMoreInside(s: seq<byte>, i: nat, k: nat)
    requires Visited(s, i) && k < 12
    ensures Replaced(s, i + 1)[i + k] == Rewrite(Replaced(s, i), i)[i + k]
  {
    InsideRepaired(s, i + 1, i, k);
    StillPattern(s, i, k);
  }

  lemma OneMoreOutside(s: seq<byte>, i: nat, p: nat)
    requires Visited(s, i) && p < |s| && !(i <= p < i + 12)
    ensures Replaced(s, i + 1)[p] == Replaced(s, i)[p]
  {}

  lemma OneMore(s: seq<byte>, i: nat)
    requires Visited(s, i)
    ensures Replaced(s, i + 1) == Rewrite(Replaced(s, i), i)
  {
    forall p: nat | p < |s| ensures Replaced(s, i + 1)[p] == Rewrite(Replaced(s, i), i)[p] {
      if i <= p < i + 12 {
        OneMoreInside(s, i, p - i);
      } else {
        OneMoreOutside(s, i, p);
      }
    }
  }

  lemma NoneMore(s: seq<byte>, i: int)
    requires !Visited(s, i)
    ensures Replaced(s, i + 1) == Replaced(s, i)
  {}

  // ---------------------------------------------------------------------------------------------
  // What the repair achieves.

  /** Each visited occurrence gets both words swapped. */
  lemma RepairsOccurrence(s: seq<byte>, i: nat)
    requires Visited(s, i)
    ensures Repair(s)[i..i + 12] == [0x05, 0x07, 0x19, 0x00, 0x2a, 0xff, 0x00, 0x15, 0x00, 0x26, 0xff, 0x00]
    ensures Repair(s)[i + 5] == s[i + 6] && Repair(s)[i + 6] == s[i + 5]
    ensures Repair(s)[i + 10] == s[i + 11] && Repair(s)[i + 11] == s[i + 10]
  {
    OccursBytes(s, i);
    forall k: nat | k < 12 ensures Repair(s)[i..i + 12][k] == REPAIRED[k] {
      InsideRepaired(s, |s|, i, k);
    }
    assert Repair(s)[i..i + 12] == REPAIRED;
    InsideRepaired(s, |s|, i, 5);
    InsideRepaired(s, |s|, i, 6);
    InsideRepaired(s, |s|, i, 10);
    InsideRepaired(s, |s|, i, 11);
    assert Has(s, i, 5) && Has(s, i, 6) && Has(s, i, 10) && Has(s, i, 11);
  }

  /** A byte outside every visited occurrence is unchanged. */
  lemma KeepsTheRest(s: seq<byte>, p: nat)
    requires p < |s|
    requires forall i :: Visited(s, i) ==> p < i || i + 12 <= p
    ensures Repair(s)[p] == s[p]
  {
    OutsideKept(s, |s|, p);
  }

  /** The rewriting creates no occurrence, and leaves only the one that ends the descriptor, if any. */
  lemma OccurrencesLeft(s: seq<byte>, j: int)
    ensures Occurs(Repair(s), j) <==> Occurs(s, j) && j == |s| - 12
  {
    var r := Repair(s);
    if Visited(s, j) {
      RepairsOccurrence(s, j);
    } else if Occurs(s, j) || Occurs(r, j) {
      forall i | Visited(s, i) ensures i + 12 <= j || j + 12 <= i {
        NoneAcross(s, |s|, i, j);
        Apart(s, i, j);
      }
      SameWindow(s, |s|, j);
    }
  }

  /** The repair is complete exactly when the descriptor does not end in the pattern: the loop stops one
      position short of the last occurrence. */
  lemma CompleteUnlessLast(s: seq<byte>)
    ensures (forall j :: !Occurs(Repair(s), j)) <==> !Occurs(s, |s| - 12)
  {
    forall j ensures Occurs(Repair(s), j) <==> Occurs(s, j) && j == |s| - 12 {
      OccurrencesLeft(s, j);
    }
  }

  /** The misordered items start at `i`: USAGE_PAGE, USAGE_MINIMUM, USAGE_MAXIMUM, LOGICAL_MINIMUM, LOGICAL_MAXIMUM. */
  predicate Misordered(s: seq<byte>, i: int) {
    0 <= i <= |s| - 12 && s[i..i + 12] == [0x05, 0x07, 0x19, 0x00, 0x2a, 0x00, 0xff, 0x15, 0x00, 0x26, 0x00, 0xff]
  }

  /** The same items with both maxima put right. */
  predicate PutRight(s: seq<byte>, i: int) {
    0 <= i <= |s| - 12 && s[i..i + 12] == [0x05, 0x07, 0x19, 0x00, 0x2a, 0xff, 0x00, 0x15, 0x00, 0x26, 0xff, 0x00]
  }

  /** `d` is `s` with its misordered items put right, but for any that end it: those before the last twelve bytes read
      right, no others have come up there, and every byte outside them is as it was. */
  ghost predicate Repaired(s: seq<byte>, d: seq<byte>) {
    && |d| == |s|
    && (forall i :: i < |s| - 12 && Misordered(s, i) ==> PutRight(d, i))
    && (forall i :: i < |d| - 12 ==> !Misordered(d, i))
    && (forall p :: 0 <= p < |s| && (forall i :: i < |s| - 12 && Misordered(s, i) ==> p < i || i + 12 <= p) ==> d[p] == s[p])
  }

  lemma OccursIsMisordered(s: seq<byte>, i: int)
    ensures Occurs(s, i) <==> Misordered(s, i)
  {}

  lemma RepairMeets(s: seq<byte>)
    ensures Repaired(s, Repair(s))
  {
    var d := Repair(s);
    forall i ensures Occurs(s, i) <==> Misordered(s, i) {
      OccursIsMisordered(s, i);
    }
    forall i | i < |s| - 12 && Misordered(s, i) ensures PutRight(d, i) {
      RepairsOccurrence(s, i);
    }
    forall i | i < |d| - 12 ensures !Misordered(d, i) {
      OccurrencesLeft(s, i);
      OccursIsMisordered(d, i);
    }
    forall p | 0 <= p < |s| && (forall i :: i < |s| - 12 && Misordered(s, i) ==> p < i || i + 12 <= p) ensures d[p] == s[p] {
      forall i | Visited(s, i) ensures p < i || i + 12 <= p {
        assert Misordered(s, i);
      }
      KeepsTheRest(s, p);
    }
  }

  lemma RepairedOnce(s: seq<byte>, d: seq<byte>, e: seq<byte>)
    requires Repaired(s, d) && Repaired(s, e)
    ensures d == e
  {
    forall p | 0 <= p < |s| ensures d[p] == e[p] {
      if i :| i < |s| - 12 && Misordered(s, i) && i <= p < i + 12 {
        assert PutRight(d, i) && PutRight(e, i);
        assert d[p] == d[i..i + 12][p - i] && e[p] == e[i..i + 12][p - i];
      }
    }
  }

  /** What the loop computes is the repair in that sense, and nothing else is. */
  lemma RepairIff(s: seq<byte>, d: seq<byte>)
    ensures Repaired(s, d) <==> d == Repair(s)
  {
    RepairMeets(s);
    if Repaired(s, d) {
      RepairedOnce(s, d, Repair(s));
    }
  }

  /** A second run changes nothing. */
  lemma RepairIdempotent(s: seq<byte>)
    ensures Repair(Repair(s)) == Repair(s)
  {
    var r := Repair(s);
    forall i ensures !Visited(r, i) {
      OccurrencesLeft(s, i);
    }
    forall p: nat | p < |r| ensures Repair(r)[p] == r[p] {
      KeepsTheRest(r, p);
    }
  }

  lemma RewriteConserves(r: seq<byte>, i: nat)
    requires i + 12 <= |r| && r[i + 5] == 0x00 && r[i + 6] == 0xff && r[i + 10] == 0x00 && r[i + 11] == 0xff
    ensures multiset(Rewrite(r, i)) == multiset(r)
  {
    var a := r[i + 5 := 0xff];
    var b := a[i + 6 := 0x00];
    assert multiset(b) == multiset(r);
    var c := b[i + 10 := 0xff];
    assert multiset(c[i + 11 := 0x00]) == multiset(b);
  }

  lemma VisitedBytes(s: seq<byte>, i: nat)
    requires Visited(s, i)
    ensures var r := Replaced(s, i); r[i + 5] == 0x00 && r[i + 6] == 0xff && r[i + 10] == 0x00 && r[i + 11] == 0xff
  {
    var r := Replaced(s, i);
    SameOccurrence(s, i);
    OccursBytes(r, i);
    assert Has(r, i, 5) && Has(r, i, 6) && Has(r, i, 10) && Has(r, i, 11);
  }

  lemma {:induction false} ReplacedConserves(s: seq<byte>, n: nat)
    requires n <= |s|
    ensures multiset(Replaced(s, n)) == multiset(s)
  {
    if n == 0 {
      assert Replaced(s, 0) == s;
    } else {
      ReplacedConserves(s, n - 1);
      if Visited(s, n - 1) {
        OneMore(s, n - 1);
        VisitedBytes(s, n - 1);
        RewriteConserves(Replaced(s, n - 1), n - 1);
      } else {
        NoneMore(s, n - 1);
      }
    }
  }

  /** The repair only moves bytes. */
  lemma RepairConserves(s: seq<byte>)
    ensures multiset(Repair(s)) == multiset(s)
  {
    ReplacedConserves(s, |s|);
  }
}
