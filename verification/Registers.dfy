/**
  Feedback shift registers over any word type, and folds of a byte step over a buffer.

  The checksums of the OTA client are instances; what is proved here needs only that the word operations
  obey the laws named below, never how wide the words are.
 */
module Registers {

  /** A word type with its exclusive or, one clock of the register, the word of one input bit, and the
      shift that makes room for one more input bit. */
  datatype Register<!T> = Register(zero: T, xor: (T, T) -> T, step: T -> T, bit: bool -> T, shl: T -> T)

  ghost predicate Associative<T(!new)>(r: Register<T>) {
    forall x, y, z :: r.xor(r.xor(x, y), z) == r.xor(x, r.xor(y, z))
  }

  ghost predicate RightUnit<T(!new)>(r: Register<T>) {
    forall x :: r.xor(x, r.zero) == x
  }

  ghost predicate Cancels<T(!new)>(r: Register<T>) {
    forall c, x, y :: r.xor(c, x) == r.xor(c, y) ==> x == y
  }

  ghost predicate CancelsRight<T(!new)>(r: Register<T>) {
    forall c, x, y :: r.xor(x, c) == r.xor(y, c) ==> x == y
  }

  ghost predicate Linear<T(!new)>(r: Register<T>) {
    forall x, y :: r.step(r.xor(x, y)) == r.xor(r.step(x), r.step(y))
  }

  ghost predicate Injective<T(!new)>(r: Register<T>) {
    forall x, y :: r.step(x) == r.step(y) ==> x == y
  }

  function Steps<T>(r: Register<T>, n: nat, c: T): T {
    if n == 0 then c else Steps(r, n - 1, r.step(c))
  }

  /** The register after the bits have entered one per clock. */
  function Serial<T>(r: Register<T>, c: T, bits: seq<bool>): T
    decreases |bits|
  {
    if bits == [] then c else Serial(r, r.step(r.xor(c, r.bit(bits[0]))), bits[1..])
  }

  /** The bits collected in one word, the first to enter in the lowest place. */
  function Word<T>(r: Register<T>, bits: seq<bool>): T {
    if bits == [] then r.zero else r.xor(r.bit(bits[0]), r.shl(Word(r, bits[1..])))
  }

  /** A word built from fewer than `width` bits can be shifted up and clocked back down. */
  ghost predicate HasRoom<T(!new)>(r: Register<T>, width: nat) {
    forall bits: seq<bool> :: |bits| < width ==> r.step(r.shl(Word(r, bits))) == Word(r, bits)
  }

  lemma {:induction false} StepsLinear<T(!new)>(r: Register<T>, n: nat, x: T, y: T)
    requires Linear(r)
    ensures Steps(r, n, r.xor(x, y)) == r.xor(Steps(r, n, x), Steps(r, n, y))
  {
    if n > 0 {
      StepsLinear(r, n - 1, r.step(x), r.step(y));
    }
  }

  lemma {:induction false} StepsInjective<T(!new)>(r: Register<T>, n: nat, x: T, y: T)
    requires Injective(r)
    requires Steps(r, n, x) == Steps(r, n, y)
    ensures x == y
  {
    if n > 0 {
      StepsInjective(r, n - 1, r.step(x), r.step(y));
    }
  }

  lemma {:induction false} SerialAppend<T>(r: Register<T>, c: T, a: seq<bool>, b: seq<bool>)
    ensures Serial(r, c, a + b) == Serial(r, Serial(r, c, a), b)
    decreases |a|
  {
    if a == [] {
      assert a + b == b;
    } else {
      assert (a + b)[1..] == a[1..] + b;
      SerialAppend(r, r.step(r.xor(c, r.bit(a[0]))), a[1..], b);
    }
  }

  lemma {:induction false} SerialInjective<T(!new)>(r: Register<T>, c: T, d: T, bits: seq<bool>)
    requires Injective(r) && CancelsRight(r)
    requires Serial(r, c, bits) == Serial(r, d, bits)
    ensures c == d
    decreases |bits|
  {
    if bits != [] {
      var b := r.bit(bits[0]);
      SerialInjective(r, r.step(r.xor(c, b)), r.step(r.xor(d, b)), bits[1..]);
      assert r.xor(c, b) == r.xor(d, b);
    }
  }

  /** A window of bits may be added to the register at once, before it is clocked. */
  lemma {:induction false} SerialIsSteps<T(!new)>(r: Register<T>, c: T, bits: seq<bool>, width: nat)
    requires Associative(r) && RightUnit(r) && Linear(r) && HasRoom(r, width)
    requires |bits| <= width
    ensures Serial(r, c, bits) == Steps(r, |bits|, r.xor(c, Word(r, bits)))
    decreases |bits|
  {
    if bits != [] {
      var b, w := r.bit(bits[0]), Word(r, bits[1..]);
      SerialIsSteps(r, r.step(r.xor(c, b)), bits[1..], width);
      calc {
        r.step(r.xor(c, Word(r, bits)));
        r.step(r.xor(r.xor(c, b), r.shl(w)));
        r.xor(r.step(r.xor(c, b)), w);
      }
    }
  }

  /** `x` and `y` differ at most in `len` consecutive places that start at `lo`. */
  ghost predicate DifferOnlyIn<A>(x: seq<A>, y: seq<A>, lo: nat, len: nat) {
    |x| == |y| && forall k :: 0 <= k < |x| && !(lo <= k < lo + len) ==> x[k] == y[k]
  }

  ghost predicate WordInjective<T(!new)>(r: Register<T>, width: nat) {
    forall a: seq<bool>, b: seq<bool> :: |a| == |b| <= width && Word(r, a) == Word(r, b) ==> a == b
  }

  // ---------------------------------------------------------------------------------------------
  // When a word can hold the bits: `Clear(r, top, w, k)` says that the `k` highest places of `w` are empty.

  predicate Clear<T>(r: Register<T>, top: T -> bool, w: T, k: nat)
    decreases k
  {
    k == 0 || (!top(w) && Clear(r, top, r.shl(w), k - 1))
  }

  ghost predicate PlacesLinear<T(!new)>(r: Register<T>, top: T -> bool) {
    && (forall x, y :: top(r.xor(x, y)) == (top(x) != top(y)))
    && (forall x, y :: r.shl(r.xor(x, y)) == r.xor(r.shl(x), r.shl(y)))
  }

  ghost predicate StartsClear<T(!new)>(r: Register<T>, top: T -> bool, width: nat) {
    0 < width && Clear(r, top, r.zero, width) && forall b :: Clear(r, top, r.bit(b), width - 1)
  }

  ghost predicate ClocksBack<T(!new)>(r: Register<T>, top: T -> bool) {
    forall w :: !top(w) ==> r.step(r.shl(w)) == w
  }

  ghost predicate ShowsFirst<T(!new)>(r: Register<T>, low: T -> bool) {
    forall w, b :: low(r.xor(r.bit(b), r.shl(w))) == b
  }

  lemma {:induction false} ClearXor<T(!new)>(r: Register<T>, top: T -> bool, x: T, y: T, k: nat)
    requires PlacesLinear(r, top) && Clear(r, top, x, k) && Clear(r, top, y, k)
    ensures Clear(r, top, r.xor(x, y), k)
    decreases k
  {
    if k > 0 {
      ClearXor(r, top, r.shl(x), r.shl(y), k - 1);
    }
  }

  lemma ClearTop<T>(r: Register<T>, top: T -> bool, w: T, k: nat)
    requires Clear(r, top, w, k) && k > 0
    ensures !top(w)
  {}

  lemma {:induction false} ClearLess<T>(r: Register<T>, top: T -> bool, w: T, k: nat, j: nat)
    requires Clear(r, top, w, k) && j <= k
    ensures Clear(r, top, w, j)
    decreases k
  {
    if j > 0 {
      ClearLess(r, top, r.shl(w), k - 1, j - 1);
    }
  }

  lemma {:induction false} WordClear<T(!new)>(r: Register<T>, top: T -> bool, width: nat, bits: seq<bool>)
    requires PlacesLinear(r, top) && StartsClear(r, top, width)
    requires |bits| <= width
    ensures Clear(r, top, Word(r, bits), width - |bits|)
  {
    if bits != [] {
      var b, k := bits[0], width - |bits|;
      WordClear(r, top, width, bits[1..]);
      assert Clear(r, top, r.bit(b), width - 1);
      ClearLess(r, top, r.bit(b), width - 1, k);
      ClearXor(r, top, r.bit(b), r.shl(Word(r, bits[1..])), k);
    }
  }

  lemma ClearHasRoom<T(!new)>(r: Register<T>, top: T -> bool, width: nat)
    requires PlacesLinear(r, top) && StartsClear(r, top, width) && ClocksBack(r, top)
    ensures HasRoom(r, width)
  {
    forall bits: seq<bool> | |bits| < width ensures r.step(r.shl(Word(r, bits))) == Word(r, bits) {
      WordClear(r, top, width, bits);
    }
  }

  lemma {:induction false} WordDetermines<T(!new)>(r: Register<T>, top: T -> bool, low: T -> bool, width: nat,
                                                   a: seq<bool>, b: seq<bool>)
    requires PlacesLinear(r, top) && StartsClear(r, top, width) && ClocksBack(r, top) && ShowsFirst(r, low) && Cancels(r)
    requires |a| == |b| <= width && Word(r, a) == Word(r, b)
    ensures a == b
  {
    hide Clear, StartsClear, PlacesLinear;
    if a != [] {
      WordClear(r, top, width, a[1..]);
      WordClear(r, top, width, b[1..]);
      var v, w, p, q := Word(r, a[1..]), Word(r, b[1..]), a[0], b[0];
      ClearTop(r, top, v, width - |a[1..]|);
      ClearTop(r, top, w, width - |b[1..]|);
      assert p == low(Word(r, a)) == low(Word(r, b)) == q;
      assert r.shl(v) == r.shl(w);
      assert v == r.step(r.shl(v)) == w;
      WordDetermines(r, top, low, width, a[1..], b[1..]);
      assert a == [a[0]] + a[1..] && b == [b[0]] + b[1..];
    }
  }

  lemma ClearWordInjective<T(!new)>(r: Register<T>, top: T -> bool, low: T -> bool, width: nat)
    requires PlacesLinear(r, top) && StartsClear(r, top, width) && ClocksBack(r, top) && ShowsFirst(r, low) && Cancels(r)
    ensures WordInjective(r, width)
  {
    forall a: seq<bool>, b: seq<bool> | |a| == |b| <= width && Word(r, a) == Word(r, b) ensures a == b {
      WordDetermines(r, top, low, width, a, b);
    }
  }

  /** The word of eight bits, written out. */
  lemma WordOfEight<T>(r: Register<T>, b: seq<bool>)
    requires |b| == 8
    ensures var s := (x: bool, w: T) => r.xor(r.bit(x), r.shl(w));
            Word(r, b) == s(b[0], s(b[1], s(b[2], s(b[3], s(b[4], s(b[5], s(b[6], s(b[7], r.zero))))))))
  {
    assert b[1..][1..] == b[2..] && b[2..][1..] == b[3..] && b[3..][1..] == b[4..];
    assert b[4..][1..] == b[5..] && b[5..][1..] == b[6..] && b[6..][1..] == b[7..];
    assert Word(r, b[7..]) == r.xor(r.bit(b[7]), r.shl(r.zero)) by { assert b[7..][1..] == []; }
    assert Word(r, b[6..]) == r.xor(r.bit(b[6]), r.shl(Word(r, b[7..])));
    assert Word(r, b[5..]) == r.xor(r.bit(b[5]), r.shl(Word(r, b[6..])));
    assert Word(r, b[4..]) == r.xor(r.bit(b[4]), r.shl(Word(r, b[5..])));
    assert Word(r, b[3..]) == r.xor(r.bit(b[3]), r.shl(Word(r, b[4..])));
    assert Word(r, b[2..]) == r.xor(r.bit(b[2]), r.shl(Word(r, b[3..])));
    assert Word(r, b[1..]) == r.xor(r.bit(b[1]), r.shl(Word(r, b[2..])));
  }

  // ---------------------------------------------------------------------------------------------
  // Errors in one window.

  lemma WindowDetermined<T(!new)>(r: Register<T>, c: T, a: seq<bool>, b: seq<bool>, width: nat)
    requires Associative(r) && RightUnit(r) && Cancels(r) && Linear(r) && Injective(r)
    requires HasRoom(r, width) && WordInjective(r, width)
    requires |a| == |b| <= width && Serial(r, c, a) == Serial(r, c, b)
    ensures a == b
  {
    SerialIsSteps(r, c, a, width);
    SerialIsSteps(r, c, b, width);
    StepsInjective(r, |a|, r.xor(c, Word(r, a)), r.xor(c, Word(r, b)));
    assert Word(r, a) == Word(r, b);
  }

  lemma SerialInThree<T>(r: Register<T>, c: T, p: seq<bool>, a: seq<bool>, s: seq<bool>)
    ensures Serial(r, c, p + a + s) == Serial(r, Serial(r, Serial(r, c, p), a), s)
  {
    SerialAppend(r, c, p + a, s);
    SerialAppend(r, c, p, a);
  }

  lemma Cut<A>(x: seq<A>, y: seq<A>, lo: nat, len: nat) returns (p: seq<A>, a: seq<A>, b: seq<A>, s: seq<A>)
    requires DifferOnlyIn(x, y, lo, len)
    ensures x == p + a + s && y == p + b + s && |a| == |b|
    ensures |p| <= lo && |p| + |a| <= lo + len && (|p| < lo ==> a == [] && s == [])
  {
    var from := if lo <= |x| then lo else |x|;
    var to := if lo + len <= |x| then lo + len else |x|;
    p, a, b, s := x[..from], x[from..to], y[from..to], x[to..];
    assert y[..from] == p && y[to..] == s;
  }

  /** Two streams that leave the same register cannot differ in just one window. */
  lemma BurstDetected<T(!new)>(r: Register<T>, c: T, x: seq<bool>, y: seq<bool>, lo: nat, width: nat)
    requires Associative(r) && RightUnit(r) && Cancels(r) && CancelsRight(r) && Linear(r) && Injective(r)
    requires HasRoom(r, width) && WordInjective(r, width)
    requires DifferOnlyIn(x, y, lo, width)
    requires Serial(r, c, x) == Serial(r, c, y)
    ensures x == y
  {
    var p, a, b, s := Cut(x, y, lo, width);
    var c0 := Serial(r, c, p);
    SerialInThree(r, c, p, a, s);
    SerialInThree(r, c, p, b, s);
    SerialInjective(r, Serial(r, c0, a), Serial(r, c0, b), s);
    WindowDetermined(r, c0, a, b, width);
  }

  // ---------------------------------------------------------------------------------------------
  // Consuming a buffer a byte at a time.

  function Fold<T, B>(f: (T, B) -> T, c: T, buf: seq<B>): T
    decreases |buf|
  {
    if buf == [] then c else Fold(f, f(c, buf[0]), buf[1..])
  }

  /** The bits of a buffer, byte after byte. */
  function Stream<B>(bits: B -> seq<bool>, buf: seq<B>): seq<bool> {
    if buf == [] then [] else bits(buf[0]) + Stream(bits, buf[1..])
  }

  lemma {:induction false} FoldAppend<T, B>(f: (T, B) -> T, c: T, x: seq<B>, y: seq<B>)
    ensures Fold(f, c, x + y) == Fold(f, Fold(f, c, x), y)
  {
    if x == [] {
      assert x + y == y;
    } else {
      assert (x + y)[1..] == x[1..] + y;
      FoldAppend(f, f(c, x[0]), x[1..], y);
    }
  }

  lemma {:induction false} SameFold<T(!new), B(!new)>(f: (T, B) -> T, g: (T, B) -> T, c: T, buf: seq<B>)
    requires forall c, b :: f(c, b) == g(c, b)
    ensures Fold(f, c, buf) == Fold(g, c, buf)
    decreases |buf|
  {
    if buf != [] {
      SameFold(f, g, f(c, buf[0]), buf[1..]);
    }
  }

  lemma {:induction false} StreamLength<B(!new)>(bits: B -> seq<bool>, n: nat, buf: seq<B>)
    requires forall b :: |bits(b)| == n
    ensures |Stream(bits, buf)| == n * |buf|
  {
    if buf != [] {
      StreamLength(bits, n, buf[1..]);
      assert n * |buf| == n + n * |buf[1..]|;
    }
  }

  lemma {:induction false} StreamInjective<B(!new)>(bits: B -> seq<bool>, n: nat, x: seq<B>, y: seq<B>)
    requires forall b :: |bits(b)| == n
    requires forall a, b :: bits(a) == bits(b) ==> a == b
    requires |x| == |y| && Stream(bits, x) == Stream(bits, y)
    ensures x == y
  {
    if x != [] {
      assert Stream(bits, x)[..n] == bits(x[0]) && Stream(bits, y)[..n] == bits(y[0]);
      assert Stream(bits, x)[n..] == Stream(bits, x[1..]) && Stream(bits, y)[n..] == Stream(bits, y[1..]);
      StreamInjective(bits, n, x[1..], y[1..]);
      assert x == [x[0]] + x[1..] && y == [y[0]] + y[1..];
    }
  }

  lemma {:induction false} StreamAppend<B>(bits: B -> seq<bool>, x: seq<B>, y: seq<B>)
    ensures Stream(bits, x + y) == Stream(bits, x) + Stream(bits, y)
  {
    if x == [] {
      assert x + y == y;
    } else {
      assert (x + y)[1..] == x[1..] + y;
      StreamAppend(bits, x[1..], y);
    }
  }

  lemma WindowOfParts<A>(p: seq<A>, a: seq<A>, b: seq<A>, s: seq<A>, lo: nat, len: nat)
    requires |a| == |b| && |p| <= lo && |p| + |a| <= lo + len && (|p| < lo ==> a == [] && s == [])
    ensures DifferOnlyIn(p + a + s, p + b + s, lo, len)
  {}

  /** A window of bytes is a window of bits. */
  lemma StreamWindow<B(!new)>(bits: B -> seq<bool>, n: nat, x: seq<B>, y: seq<B>, lo: nat, len: nat)
    requires forall b :: |bits(b)| == n
    requires DifferOnlyIn(x, y, lo, len)
    ensures DifferOnlyIn(Stream(bits, x), Stream(bits, y), n * lo, n * len)
  {
    hide Stream, DifferOnlyIn;
    var p, a, b, s := Cut(x, y, lo, len);
    StreamAppend(bits, p + a, s);
    StreamAppend(bits, p, a);
    StreamAppend(bits, p + b, s);
    StreamAppend(bits, p, b);
    StreamLength(bits, n, p);
    StreamLength(bits, n, a);
    StreamLength(bits, n, b);
    WindowScales(n, |p|, |a|, lo, len);
    StreamLength(bits, n, s);
    WindowOfParts(Stream(bits, p), Stream(bits, a), Stream(bits, b), Stream(bits, s), n * lo, n * len);
  }

  lemma WindowScales(n: nat, p: nat, a: nat, lo: nat, len: nat)
    requires p <= lo && p + a <= lo + len
    ensures n * p <= n * lo && n * p + n * a <= n * lo + n * len
  {
    assert n * (lo - p) >= 0 && n * (lo + len - p - a) >= 0;
  }

  /** How bytes meet a register: the part of the word that indexes the table, the part that only shifts and
      where it ends up, the word of a byte, and the byte's bits in the order they enter. */
  datatype Lanes<!T, !B> = Lanes(index: T -> T, rest: T -> T, shifted: T -> T, widen: B -> T, bits: B -> seq<bool>)

  /** One byte by table: the entry for an index is the index clocked once per bit. */
  function Lookup<T, B>(r: Register<T>, l: Lanes<T, B>, clocks: nat, c: T, b: B): T {
    r.xor(Steps(r, clocks, l.index(r.xor(c, l.widen(b)))), l.shifted(c))
  }

  ghost predicate Splits<T(!new), B(!new)>(r: Register<T>, l: Lanes<T, B>, clocks: nat) {
    && (forall x :: r.xor(l.index(x), l.rest(x)) == x)
    && (forall x :: Steps(r, clocks, l.rest(x)) == l.shifted(x))
    && (forall c, b :: l.shifted(r.xor(c, l.widen(b))) == l.shifted(c))
  }

  ghost predicate Widens<T(!new), B(!new)>(r: Register<T>, l: Lanes<T, B>, clocks: nat) {
    forall b :: |l.bits(b)| == clocks && Word(r, l.bits(b)) == l.widen(b)
  }

  lemma LookupIsSteps<T(!new), B(!new)>(r: Register<T>, l: Lanes<T, B>, clocks: nat, c: T, b: B)
    requires Linear(r) && Splits(r, l, clocks)
    ensures Lookup(r, l, clocks, c, b) == Steps(r, clocks, r.xor(c, l.widen(b)))
  {
    var x := r.xor(c, l.widen(b));
    StepsLinear(r, clocks, l.index(x), l.rest(x));
  }

  /** One table step is the byte's bits entering one per clock. */
  lemma LookupIsSerial<T(!new), B(!new)>(r: Register<T>, l: Lanes<T, B>, clocks: nat, c: T, b: B)
    requires Associative(r) && RightUnit(r) && Linear(r) && HasRoom(r, clocks)
    requires Splits(r, l, clocks) && Widens(r, l, clocks)
    ensures Lookup(r, l, clocks, c, b) == Serial(r, c, l.bits(b))
  {
    LookupIsSteps(r, l, clocks, c, b);
    SerialIsSteps(r, c, l.bits(b), clocks);
  }

  /** Consuming a buffer by table is the bit-serial register over its bits. */
  lemma {:induction false} FoldIsSerial<T(!new), B(!new)>(r: Register<T>, f: (T, B) -> T, bits: B -> seq<bool>, c: T, buf: seq<B>)
    requires forall c, b :: f(c, b) == Serial(r, c, bits(b))
    ensures Fold(f, c, buf) == Serial(r, c, Stream(bits, buf))
    decreases |buf|
  {
    if buf != [] {
      SerialAppend(r, c, bits(buf[0]), Stream(bits, buf[1..]));
      FoldIsSerial(r, f, bits, f(c, buf[0]), buf[1..]);
    }
  }

  function Zip<B>(g: (B, B) -> B, x: seq<B>, y: seq<B>): (z: seq<B>)
    requires |x| == |y|
    ensures |z| == |x|
  {
    seq(|x|, i requires 0 <= i < |x| => g(x[i], y[i]))
  }

  /** A byte step that is linear in register and byte together folds linearly. */
  lemma {:induction false} FoldLinear<T(!new), B(!new)>(add: (T, T) -> T, g: (B, B) -> B, f: (T, B) -> T,
                                                        c: T, d: T, x: seq<B>, y: seq<B>)
    requires |x| == |y|
    requires forall c, d, a, b :: f(add(c, d), g(a, b)) == add(f(c, a), f(d, b))
    ensures Fold(f, add(c, d), Zip(g, x, y)) == add(Fold(f, c, x), Fold(f, d, y))
    decreases |x|
  {
    if x != [] {
      assert Zip(g, x, y)[1..] == Zip(g, x[1..], y[1..]);
      FoldLinear(add, g, f, f(c, x[0]), f(d, y[0]), x[1..], y[1..]);
    }
  }

  ghost predicate Interchanges<T(!new)>(r: Register<T>) {
    forall a, b, c, d :: r.xor(r.xor(a, b), r.xor(c, d)) == r.xor(r.xor(a, c), r.xor(b, d))
  }

  ghost predicate LanesLinear<T(!new), B(!new)>(r: Register<T>, l: Lanes<T, B>, g: (B, B) -> B) {
    && (forall x, y :: l.index(r.xor(x, y)) == r.xor(l.index(x), l.index(y)))
    && (forall x, y :: l.shifted(r.xor(x, y)) == r.xor(l.shifted(x), l.shifted(y)))
    && (forall a, b :: l.widen(g(a, b)) == r.xor(l.widen(a), l.widen(b)))
  }

  lemma LookupLinear<T(!new), B(!new)>(r: Register<T>, l: Lanes<T, B>, g: (B, B) -> B, clocks: nat, c: T, d: T, a: B, b: B)
    requires Linear(r) && Interchanges(r) && LanesLinear(r, l, g)
    ensures Lookup(r, l, clocks, r.xor(c, d), g(a, b)) == r.xor(Lookup(r, l, clocks, c, a), Lookup(r, l, clocks, d, b))
  {
    var i, j := l.index(r.xor(c, l.widen(a))), l.index(r.xor(d, l.widen(b)));
    assert r.xor(r.xor(c, d), l.widen(g(a, b))) == r.xor(r.xor(c, l.widen(a)), r.xor(d, l.widen(b)));
    StepsLinear(r, clocks, i, j);
  }
}
