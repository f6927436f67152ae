/** The checksum: a table-driven CRC-32C, proved to be the remainder of a polynomial division
    over GF(2) (RFC 3720 section 12.1, RFC 4960 appendix B). */
module Crc32c {

  const POLY: bv32 := 0x82F63B78

  // ---------------------------------------------------------------- the definition: long division

  /** Polynomials over GF(2), highest coefficient first. */
  type Poly = seq<bool>

  function Plus(a: Poly, b: Poly): (r: Poly)
    requires |a| == |b|
    ensures |r| == |a|
  {
    seq(|a|, i requires 0 <= i < |a| => a[i] != b[i])
  }

  /** c added to the highest coefficients of d. */
  function PlusHead(d: Poly, c: Poly): (r: Poly)
    requires |c| <= |d|
    ensures |r| == |d|
  {
    Plus(d[..|c|], c) + d[|c|..]
  }

  /** The Castagnoli polynomial without its leading term x^32. */
  function Castagnoli(): (r: Poly)
    ensures |r| == 32
  {
    seq(32, i => 31 - i in {28, 27, 26, 25, 23, 22, 20, 19, 18, 14, 13, 11, 10, 9, 8, 6, 0})
  }

  /** Schoolbook division by x^32 + Castagnoli: while d has more than 32 coefficients, its first
      one is cancelled. */
  function Remainder(d: Poly): (r: Poly)
    requires |d| >= 32
    ensures |r| == 32
    decreases |d|
  {
    if |d| == 32 then d
    else Remainder(if d[0] then PlusHead(d[1..], Castagnoli()) else d[1..])
  }

  predicate Low(r: bv32) { r & 1 == 1 }

  function Half(r: bv32): bv32 { r >> 1 }

  function Xor(a: bv32, b: bv32): bv32 { a ^ b }

  /** The n lowest bits of r, lowest first: the lowest bit of a reflected register is its
      highest coefficient. */
  function Coeffs(r: bv32, n: nat): (s: Poly)
    ensures |s| == n
    decreases n
  {
    if n == 0 then [] else [Low(r)] + Coeffs(Half(r), n - 1)
  }

  /** A message as a polynomial: its bytes in order, the lowest bit of each first. */
  function BitsOf(data: seq<bv8>): Poly {
    if data == [] then [] else Coeffs(Wide(data[0]), 8) + BitsOf(data[1..])
  }

  function Zeros(): (r: Poly)
    ensures |r| == 32 && forall i :: 0 <= i < 32 ==> !r[i]
  {
    seq(32, _ => false)
  }

  // ---------------------------------------------------------------- the register, bit by bit

  function BitStep(c: bv32): bv32 {
    (c >> 1) ^ (POLY & (0 - (c & 1)))
  }

  function Steps(c: bv32, n: nat): bv32
    decreases n
  {
    if n == 0 then c else Steps(BitStep(c), n - 1)
  }

  function Bit(b: bool): bv32 { if b then 1 else 0 }

  function Feed(c: bv32, m: Poly): bv32
    decreases |m|
  {
    if m == [] then c else Feed(BitStep(Xor(c, Bit(m[0]))), m[1..])
  }

  // ---------------------------------------------------------------- bits and coefficients

  function Eighth(r: bv32): bv32 { r >> 8 }

  lemma Halves(r: bv32)
    ensures Half(Half(Half(Half(Half(Half(Half(Half(r)))))))) == Eighth(r)
  {}

  /** The eight lowest bits, lowest first. */
  function LowBits(r: bv32): (s: Poly)
    ensures |s| == 8
  {
    var r1 := Half(r); var r2 := Half(r1); var r3 := Half(r2); var r4 := Half(r3);
    var r5 := Half(r4); var r6 := Half(r5); var r7 := Half(r6);
    [Low(r), Low(r1), Low(r2), Low(r3), Low(r4), Low(r5), Low(r6), Low(r7)]
  }

  lemma CoeffsTwo(r: bv32, n: nat)
    ensures Coeffs(r, n + 2) == [Low(r), Low(Half(r))] + Coeffs(Half(Half(r)), n)
  {
    hide Low, Half;
    assert Coeffs(Half(r), n + 1) == [Low(Half(r))] + Coeffs(Half(Half(r)), n);
  }

  lemma CoeffsFour(r: bv32, n: nat)
    ensures var r2 := Half(Half(r));
            Coeffs(r, n + 4) == [Low(r), Low(Half(r)), Low(r2), Low(Half(r2))] + Coeffs(Half(Half(r2)), n)
  {
    hide Low, Half, Coeffs;
    CoeffsTwo(r, n + 2);
    CoeffsTwo(Half(Half(r)), n);
  }

  lemma CoeffsBlock(r: bv32, n: nat)
    ensures Coeffs(r, n + 8) == LowBits(r) + Coeffs(Eighth(r), n)
  {
    Halves(r);
    hide Low, Half, Eighth, Coeffs;
    CoeffsFour(r, n + 4);
    CoeffsFour(Half(Half(Half(Half(r)))), n);
  }

  lemma PolyBytes()
    ensures LowBits(POLY) == [false, false, false, true, true, true, true, false]
    ensures LowBits(Eighth(POLY)) == [true, true, false, true, true, true, false, false]
    ensures LowBits(Eighth(Eighth(POLY))) == [false, true, true, false, true, true, true, true]
    ensures LowBits(Eighth(Eighth(Eighth(POLY)))) == [false, true, false, false, false, false, false, true]
  {}

  lemma FourBlocks(r: bv32)
    ensures Coeffs(r, 32) == LowBits(r) + (LowBits(Eighth(r)) + (LowBits(Eighth(Eighth(r))) + LowBits(Eighth(Eighth(Eighth(r))))))
  {
    CoeffsBlock(r, 24);
    CoeffsBlock(Eighth(r), 16);
    CoeffsBlock(Eighth(Eighth(r)), 8);
    CoeffsBlock(Eighth(Eighth(Eighth(r))), 0);
    hide LowBits, Eighth, Low, Half, Coeffs;
    var last := LowBits(Eighth(Eighth(Eighth(r))));
    assert last + Coeffs(Eighth(Eighth(Eighth(Eighth(r)))), 0) == last;
  }

  /** The constant of the source is the Castagnoli polynomial, reflected. */
  lemma PolyIsCastagnoli()
    ensures Coeffs(POLY, 32) == Castagnoli()
  {
    FourBlocks(POLY);
    PolyBytes();
    hide LowBits, Eighth, Low, Half, Coeffs;
    assert Castagnoli() == [false, false, false, true, true, true, true, false]
                         + [true, true, false, true, true, true, false, false]
                         + [false, true, true, false, true, true, true, true]
                         + [false, true, false, false, false, false, false, true];
  }

  lemma XorHalves(a: bv32, b: bv32)
    ensures Half(Xor(a, b)) == Xor(Half(a), Half(b))
    ensures Low(Xor(a, b)) == (Low(a) != Low(b))
  {}

  lemma {:induction false} CoeffsPlus(a: bv32, b: bv32, n: nat)
    ensures Coeffs(Xor(a, b), n) == Plus(Coeffs(a, n), Coeffs(b, n))
    decreases n
  {
    hide Low, Half, Xor;
    if n > 0 {
      CoeffsPlus(Half(a), Half(b), n - 1);
      XorHalves(a, b);
    }
  }

  /** r has no more than n bits. */
  predicate Fits(r: bv32, n: nat)
    decreases n
  {
    if n == 0 then r == 0 else Fits(Half(r), n - 1)
  }

  lemma FitsBlock(r: bv32, n: nat)
    ensures Fits(r, n + 8) == Fits(Eighth(r), n)
  {
    Halves(r);
    hide Low, Half, Eighth;
    var r1 := Half(r); var r2 := Half(r1); var r3 := Half(r2); var r4 := Half(r3);
    var r5 := Half(r4); var r6 := Half(r5); var r7 := Half(r6); var r8 := Half(r7);
    assert Fits(r7, n + 1) == Fits(r8, n);
    assert Fits(r6, n + 2) == Fits(r7, n + 1);
    assert Fits(r5, n + 3) == Fits(r6, n + 2);
    assert Fits(r4, n + 4) == Fits(r5, n + 3);
    assert Fits(r3, n + 5) == Fits(r4, n + 4);
    assert Fits(r2, n + 6) == Fits(r3, n + 5);
    assert Fits(r1, n + 7) == Fits(r2, n + 6);
  }

  lemma Eighths(r: bv32)
    ensures Eighth(Eighth(Eighth(Eighth(r)))) == 0
  {}

  lemma AllFit(r: bv32)
    ensures Fits(r, 32)
  {
    Eighths(r);
    hide Eighth, Half;
    FitsBlock(r, 24);
    FitsBlock(Eighth(r), 16);
    FitsBlock(Eighth(Eighth(r)), 8);
    FitsBlock(Eighth(Eighth(Eighth(r))), 0);
  }

  lemma {:induction false} CoeffsPadded(r: bv32, n: nat)
    requires Fits(r, n)
    ensures Coeffs(r, n + 1) == Coeffs(r, n) + [false]
    decreases n
  {
    if n > 0 {
      hide Low, Half;
      CoeffsPadded(Half(r), n - 1);
    } else {
      assert !Low(r);
      assert Coeffs(Half(r), 0) == [];
    }
  }

  /** Shifting the register right drops its first coefficient and appends a zero. */
  lemma CoeffsShift(r: bv32)
    ensures Coeffs(Half(r), 32) == Coeffs(r, 32)[1..] + [false]
    ensures Coeffs(r, 32)[0] == Low(r)
  {
    hide Low, Half;
    AllFit(r);
    CoeffsPadded(Half(r), 31);
  }

  lemma StepBits(c: bv32)
    ensures BitStep(c) == if Low(c) then Xor(Half(c), POLY) else Half(c)
  {
    LowMask(c);
    if Low(c) {
      assert POLY & 0xFFFFFFFF == POLY;
    } else {
      assert POLY & 0 == 0;
      XorZero(Half(c));
    }
  }

  lemma LowMask(c: bv32)
    ensures 0 - (c & 1) == if Low(c) then 0xFFFFFFFF else 0
  {
    assert c & 1 == 0 || c & 1 == 1;
  }

  lemma XorZero(c: bv32)
    ensures Xor(c, 0) == c
  {}

  lemma StepCoeffs(c: bv32)
    ensures var s := Coeffs(c, 32)[1..] + [false];
            Coeffs(BitStep(c), 32) == if Coeffs(c, 32)[0] then Plus(s, Castagnoli()) else s
  {
    StepBits(c);
    CoeffsShift(c);
    PolyIsCastagnoli();
    CoeffsPlus(Half(c), POLY, 32);
  }

  // ---------------------------------------------------------------- the register divides

  lemma BitCoeffs(c: bv32, b: bool)
    ensures Low(Xor(c, Bit(b))) == (Low(c) != b) && Half(Xor(c, Bit(b))) == Half(c)
  {}

  /** One step of the register cancels one coefficient of the dividend. */
  lemma StepDivides(c: bv32, d: Poly)
    requires |d| > 32
    ensures Remainder(PlusHead(d, Coeffs(c, 32))) == Remainder(PlusHead(d[1..], Coeffs(BitStep(Xor(c, Bit(d[0]))), 32)))
  {
    var s := Xor(c, Bit(d[0]));
    BitCoeffs(c, d[0]);
    StepCoeffs(s);
    hide Low, Half, Xor, Bit, BitStep, Castagnoli;
    assert Coeffs(c, 32) == [Low(c)] + Coeffs(Half(c), 31);
    assert Coeffs(s, 32) == [Low(s)] + Coeffs(Half(s), 31);
    hide Coeffs;
    OneStep(d, Coeffs(c, 32), Coeffs(s, 32));
  }

  lemma OneStep(d: Poly, c: Poly, s: Poly)
    requires |d| > 32 && |c| == |s| == 32 && s == [c[0] != d[0]] + c[1..]
    ensures var t := s[1..] + [false];
            Remainder(PlusHead(d, c)) == Remainder(PlusHead(d[1..], if s[0] then Plus(t, Castagnoli()) else t))
  {
    hide Castagnoli;
    var t, e := s[1..] + [false], PlusHead(d, c);
    assert e[0] == s[0];
    assert e[1..] == PlusHead(d[1..], t);
    if s[0] {
      assert PlusHead(e[1..], Castagnoli()) == PlusHead(d[1..], Plus(t, Castagnoli()));
    }
  }

  /** Feeding a message bit by bit leaves in the register the remainder of the division of
      message * x^32, the register at the start having been added to its head. */
  lemma {:induction false} FeedDivides(c: bv32, m: Poly)
    ensures Coeffs(Feed(c, m), 32) == Remainder(PlusHead(m + Zeros(), Coeffs(c, 32)))
    decreases |m|
  {
    if m == [] {
      hide Coeffs;
      assert PlusHead(m + Zeros(), Coeffs(c, 32)) == Coeffs(c, 32);
    } else {
      StepDivides(c, m + Zeros());
      hide Coeffs, BitStep, Xor, Bit;
      FeedDivides(BitStep(Xor(c, Bit(m[0]))), m[1..]);
      assert (m + Zeros())[1..] == m[1..] + Zeros();
    }
  }

  // ---------------------------------------------------------------- byte by byte

  lemma XorMoves(a: bv32, b: bv32, p: bv32)
    ensures Xor(Xor(a, p), b) == Xor(Xor(a, b), p)
  {
    assert Xor(p, b) == Xor(b, p);
    hide Xor;
    XorAssoc(a, p, b);
    XorAssoc(a, b, p);
  }

  lemma XorAssoc(a: bv32, b: bv32, p: bv32)
    ensures Xor(Xor(a, b), p) == Xor(a, Xor(b, p))
  {}

  lemma XorTwice(a: bv32, p: bv32)
    ensures Xor(Xor(a, p), p) == a
  {}

  lemma XorLaws(a: bv32, b: bv32, p: bv32)
    ensures Xor(Xor(a, p), Xor(b, p)) == Xor(a, b)
    ensures Xor(Xor(a, p), b) == Xor(Xor(a, b), p) == Xor(a, Xor(b, p))
  {
    hide Xor;
    XorMoves(a, b, p);
    XorAssoc(a, b, p);
    XorAssoc(Xor(a, p), b, p);
    XorTwice(Xor(a, b), p);
  }

  /** A step is linear. */
  lemma StepPlus(a: bv32, b: bv32)
    ensures BitStep(Xor(a, b)) == Xor(BitStep(a), BitStep(b))
  {
    StepBits(a);
    StepBits(b);
    StepBits(Xor(a, b));
    XorHalves(a, b);
    hide Xor, Low, Half, BitStep;
    XorLaws(Half(a), Half(b), POLY);
  }

  lemma {:induction false} StepsPlus(a: bv32, b: bv32, n: nat)
    ensures Steps(Xor(a, b), n) == Xor(Steps(a, n), Steps(b, n))
    decreases n
  {
    hide Xor, BitStep;
    if n > 0 {
      StepPlus(a, b);
      StepsPlus(BitStep(a), BitStep(b), n - 1);
    }
  }

  lemma Absorbs(c: bv32, x: bv32)
    ensures Xor(BitStep(Xor(c, Bit(Low(x)))), Half(x)) == BitStep(Xor(c, x))
  {
    var l := Xor(c, Bit(Low(x)));
    BitCoeffs(c, Low(x));
    StepBits(l);
    StepBits(Xor(c, x));
    XorHalves(c, x);
    hide Xor, Low, Half, BitStep, Bit;
    XorLaws(Half(c), Half(x), POLY);
  }

  /** Feeding the n bits of x one by one is adding them all and then stepping n times. */
  lemma {:induction false} FeedAll(c: bv32, x: bv32, n: nat)
    requires Fits(x, n)
    ensures Feed(c, Coeffs(x, n)) == Steps(Xor(c, x), n)
    decreases n
  {
    Absorbs(c, x);
    XorZero(c);
    hide Xor, BitStep, Half, Low, Bit;
    if n > 0 {
      assert Coeffs(x, n)[1..] == Coeffs(Half(x), n - 1);
      FeedAll(BitStep(Xor(c, Bit(Low(x)))), Half(x), n - 1);
    }
  }

  lemma {:induction false} FeedTwice(c: bv32, m: Poly, m': Poly)
    ensures Feed(c, m + m') == Feed(Feed(c, m), m')
    decreases |m|
  {
    hide BitStep, Bit, Xor;
    if m == [] {
      assert m + m' == m';
    } else {
      FeedTwice(BitStep(Xor(c, Bit(m[0]))), m[1..], m');
      assert (m + m')[1..] == m[1..] + m';
    }
  }

  /** What the table is for: eight steps on a byte. */
  function Entry(b: bv8): bv32 {
    Steps(Wide(b), 8)
  }

  function LowByte(c: bv32): bv8 { (c & 0xFF) as bv8 }

  function Wide(b: bv8): bv32 { b as bv32 }

  /** All but the low byte. */
  function High(c: bv32): bv32 { c & 0xFFFFFF00 }

  /** One round of the source's loop. */
  function ByteStep(c: bv32, b: bv8): bv32 {
    Xor(Eighth(c), Entry(LowByte(Xor(c, Wide(b)))))
  }

  /** A register whose low byte is clear is only shifted by eight steps. */
  lemma HighSteps(c: bv32)
    ensures Steps(High(c), 8) == Eighth(High(c))
  {
    var h := High(c);
    var r1 := Half(h); var r2 := Half(r1); var r3 := Half(r2); var r4 := Half(r3);
    var r5 := Half(r4); var r6 := Half(r5); var r7 := Half(r6); var r8 := Half(r7);
    Halves(h);
    NoLowBits(c);
    StepBits(h); StepBits(r1); StepBits(r2); StepBits(r3); StepBits(r4); StepBits(r5); StepBits(r6); StepBits(r7);
    hide BitStep, Half, Low, Eighth, Xor, High;
    assert Steps(r6, 2) == r8;
    assert Steps(r4, 4) == Steps(r5, 3) == r8;
    assert Steps(r2, 6) == Steps(r3, 5) == r8;
    assert Steps(h, 8) == Steps(r1, 7) == r8;
  }

  lemma NoLowBits(c: bv32)
    ensures LowBits(High(c)) == [false, false, false, false, false, false, false, false]
  {}

  lemma HighAndLow(x: bv32)
    ensures x == Xor(High(x), Wide(LowByte(x))) && Eighth(High(x)) == Eighth(x)
  {}

  lemma ByteAdded(c: bv32, b: bv8)
    ensures Eighth(Xor(c, Wide(b))) == Eighth(c)
  {}

  lemma ByteFits(b: bv8)
    ensures Fits(Wide(b), 8)
  {
    assert Eighth(Wide(b)) == 0;
    FitsBlock(Wide(b), 0);
  }

  /** Looking up the table is feeding the eight bits of the byte. */
  lemma ByteStepFeeds(c: bv32, b: bv8)
    ensures ByteStep(c, b) == Feed(c, Coeffs(Wide(b), 8))
  {
    hide Xor, Eighth, Fits, BitStep, Coeffs, LowByte, High, Wide, Feed, Steps, Half, Low, Bit;
    var x := Xor(c, Wide(b));
    HighAndLow(x);
    ByteAdded(c, b);
    HighSteps(x);
    ByteFits(b);
    FeedAll(c, Wide(b), 8);
    StepsPlus(High(x), Wide(LowByte(x)), 8);
  }

  /** The source's loop over the bytes. */
  function Fold(c: bv32, data: seq<bv8>): bv32
    decreases |data|
  {
    if data == [] then c else Fold(ByteStep(c, data[0]), data[1..])
  }

  lemma {:induction false} FoldFeeds(c: bv32, data: seq<bv8>)
    ensures Fold(c, data) == Feed(c, BitsOf(data))
    decreases |data|
  {
    hide ByteStep, Coeffs;
    if data != [] {
      ByteStepFeeds(c, data[0]);
      FoldFeeds(ByteStep(c, data[0]), data[1..]);
      FeedTwice(c, Coeffs(Wide(data[0]), 8), BitsOf(data[1..]));
    }
  }

  lemma {:induction false} FoldTwice(c: bv32, a: seq<bv8>, b: seq<bv8>)
    ensures Fold(c, a + b) == Fold(Fold(c, a), b)
    decreases |a|
  {
    hide ByteStep;
    if a == [] {
      assert a + b == b;
    } else {
      FoldTwice(ByteStep(c, a[0]), a[1..], b);
      assert (a + b)[1..] == a[1..] + b;
    }
  }

  // ---------------------------------------------------------------- the checksum

  /** The state after more data; a new state is 0, and the state is the checksum so far. */
  function Updated(state: bv32, data: seq<bv8>): bv32 {
    Not(Fold(Not(state), data))
  }

  function Not(c: bv32): bv32 { !c }

  lemma NotNot(c: bv32)
    ensures Not(Not(c)) == c
  {}

  /** Checksumming in pieces is checksumming the whole. */
  lemma SplitsAnywhere(state: bv32, a: seq<bv8>, b: seq<bv8>)
    ensures Updated(state, a + b) == Updated(Updated(state, a), b)
  {
    hide Not, ByteStep, Fold;
    FoldTwice(Not(state), a, b);
    NotNot(Fold(Not(state), a));
  }

  lemma NotCoeffs(n: nat)
    requires n <= 32
    ensures forall i :: 0 <= i < n ==> Coeffs(0xFFFFFFFF, 32)[i]
  {
    FourBlocks(0xFFFFFFFF);
    AllOnes();
  }

  lemma AllOnes()
    ensures var f := 0xFFFFFFFF as bv32; var t := [true, true, true, true, true, true, true, true];
            LowBits(f) == LowBits(Eighth(f)) == LowBits(Eighth(Eighth(f))) == LowBits(Eighth(Eighth(Eighth(f)))) == t
  {}

  function Ones(): (r: Poly)
    ensures |r| == 32
  {
    seq(32, _ => true)
  }

  /** The checksum of a message: complement its first 32 bits, multiply by x^32, divide by the
      Castagnoli polynomial, complement the remainder; the checksum holds it reflected. */
  lemma ChecksumIsRemainder(data: seq<bv8>)
    ensures Coeffs(Updated(0, data), 32) == Plus(Remainder(PlusHead(BitsOf(data) + Zeros(), Ones())), Ones())
  {
    var ones: bv32 := 0xFFFFFFFF;
    NotCoeffs(32);
    var c := Fold(ones, data);
    assert Not(0) == ones;
    assert Not(c) == Xor(c, ones);
    hide Xor, Not, Coeffs, Remainder, BitsOf, Fold;
    assert Coeffs(ones, 32) == Ones();
    FoldFeeds(ones, data);
    FeedDivides(ones, BitsOf(data));
    CoeffsPlus(c, ones, 32);
  }

  class Checksum {
    const tbl: array<bv32>
    var inited: bool

    ghost predicate Valid()
      reads this, tbl
    {
      tbl.Length == 256 && (inited ==> Filled(tbl[..], 256))
    }

    constructor ()
      ensures Valid() && !inited && fresh(tbl)
    {
      tbl := new bv32[256];
      inited := false;
    }

    method Init()
      requires tbl.Length == 256
      modifies this, tbl
      ensures Valid() && inited
    {
      hide BitStep, Byte, Wide;
      var i := 0;
      while i < 256
        invariant 0 <= i <= 256 && Filled(tbl[..], i)
      {
        var c := Wide(Byte(i));
        var k := 0;
        while k < 8
          invariant 0 <= k <= 8 && Steps(c, 8 - k) == Entry(Byte(i))
        {
          c := BitStep(c);
          k := k + 1;
        }
        tbl[i] := c;
        i := i + 1;
      }
      inited := true;
    }

    /** Folds data into the state. */
    method Execute(state: bv32, data: seq<bv8>) returns (state': bv32)
      requires Valid() && |data| > 0
      modifies this, tbl
      ensures Valid() && inited
      ensures state' == Updated(state, data)
    {
      hide Entry, LowByte, Eighth, Xor, Wide, Not, Filled;
      if !inited {
        Init();
      }
      var c := Not(state);
      var i := 0;
      while i < |data|
        invariant 0 <= i <= |data| && Valid() && inited
        invariant Fold(c, data[i..]) == Fold(Not(state), data)
      {
        var b := LowByte(Xor(c, Wide(data[i])));
        Indexed(tbl[..], b);
        assert data[i..][1..] == data[i + 1..];
        c := Xor(Eighth(c), tbl[Index(b)]);
        i := i + 1;
      }
      state' := Not(c);
    }
  }

  function Byte(i: int): bv8
    requires 0 <= i < 256
  {
    i as bv8
  }

  function Index(b: bv8): (i: int)
    ensures 0 <= i < 256
  {
    b as int
  }

  /** The first n entries of the table are right. */
  ghost predicate Filled(tbl: seq<bv32>, n: int) {
    forall j :: 0 <= j < n && j < |tbl| && j < 256 ==> tbl[j] == Entry(Byte(j))
  }

  lemma Indexed(tbl: seq<bv32>, b: bv8)
    requires |tbl| == 256 && Filled(tbl, 256)
    ensures tbl[Index(b)] == Entry(b)
  {
    ByteIndex(b);
    hide Entry, Byte, Index;
  }

  lemma ByteIndex(b: bv8)
    ensures Byte(Index(b)) == b
  {}
}
