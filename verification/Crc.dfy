/** `_getCRC` (extApi.c): the 16-bit check of a message, with a zero start value and the generator polynomial
    x^16 + x^12 + x^5 + 1 of section 2 of ITU-T Recommendation V.41. A byte and a 16-bit word are given by their
    bits; bit `i` is the coefficient of x^i. */
module Crcs {

  type Bits8 = s: seq<bool> | |s| == 8 witness [false, false, false, false, false, false, false, false]
  type Bits16 = s: seq<bool> | |s| == 16 witness [
    false, false, false, false, false, false, false, false,
    false, false, false, false, false, false, false, false]

  function Zero(): (r: Bits16)
    ensures forall i :: 0 <= i < 16 ==> !r[i]
  {
    seq(16, i requires 0 <= i < 16 => false)
  }

  /** 0x1021: the generator polynomial without its leading term. */
  function Generator(): (r: Bits16)
    ensures forall i :: 0 <= i < 16 ==> r[i] == (i == 0 || i == 5 || i == 12)
  {
    seq(16, i requires 0 <= i < 16 => i == 0 || i == 5 || i == 12)
  }

  function Xor(a: Bits16, b: Bits16): (r: Bits16)
    ensures forall i :: 0 <= i < 16 ==> r[i] == (a[i] != b[i])
  {
    seq(16, i requires 0 <= i < 16 => a[i] != b[i])
  }

  /** `crc << 1`. */
  function Left(crc: Bits16): (r: Bits16)
    ensures forall i :: 0 <= i < 16 ==> r[i] == (i > 0 && crc[i - 1])
  {
    seq(16, i requires 0 <= i < 16 => i > 0 && crc[i - 1])
  }

  /** A byte in the upper half of a word. */
  function High(b: Bits8): (r: Bits16)
    ensures forall i :: 0 <= i < 16 ==> r[i] == (i >= 8 && b[i - 8])
  {
    seq(16, i requires 0 <= i < 16 => i >= 8 && b[i - 8])
  }

  /** One step of the inner loop: the generator is taken away if the bit shifted out is set. */
  function Shift(crc: Bits16): Bits16 {
    if crc[15] then Xor(Left(crc), Generator()) else Left(crc)
  }

  function Shifted(crc: Bits16, n: nat): Bits16 {
    if n == 0 then crc else Shift(Shifted(crc, n - 1))
  }

  /** One turn of the outer loop: as many steps as the byte has bits. */
  function ByteStep(crc: Bits16, b: Bits8): Bits16 {
    Shifted(Xor(crc, High(b)), |b|)
  }

  /** The check after the first `n` bytes of `data`, from the check `crc` before them. */
  function CrcFrom(crc: Bits16, data: seq<Bits8>, n: nat): Bits16
    requires n <= |data|
  {
    if n == 0 then crc else ByteStep(CrcFrom(crc, data, n - 1), data[n - 1])
  }

  function Crc(data: seq<Bits8>): Bits16 {
    CrcFrom(Zero(), data, |data|)
  }

  /** `_getCRC`. */
  method GetCrc(data: seq<Bits8>) returns (crc: Bits16)
    ensures crc == Crc(data)
  {
    crc := Zero();
    var i := 0;
    while i < |data|
      invariant 0 <= i <= |data| && crc == CrcFrom(Zero(), data, i)
    {
      crc := Xor(crc, High(data[i]));
      ghost var start := crc;
      var j := 0;
      while j < 8
        invariant 0 <= j <= 8 && crc == Shifted(start, j)
      {
        if crc[15] {
          crc := Xor(Left(crc), Generator());
        } else {
          crc := Left(crc);
        }
        j := j + 1;
      }
      i := i + 1;
    }
  }

  /** The check of one byte with the value one is 0x1021. */
  lemma CheckOfOne(one: Bits8)
    requires one[0] && forall i :: 0 < i < 8 ==> !one[i]
    ensures forall i :: 0 <= i < 16 ==> (Crc([one])[i] <==> i == 0 || i == 5 || i == 12)
  {
    var start := Xor(Zero(), High(one));
    assert forall i :: 0 <= i < 16 ==> start[i] == (i == 8);
    OneMoves(start, 7);
    var last := Shifted(start, 7);
    assert Shifted(start, 8) == Shift(last);
    assert CrcFrom(Zero(), [one], 0) == Zero();
  }

  lemma {:induction false} OneMoves(start: Bits16, n: nat)
    requires n < 8 && forall i :: 0 <= i < 16 ==> start[i] == (i == 8)
    ensures forall i :: 0 <= i < 16 ==> Shifted(start, n)[i] == (i == 8 + n)
  {
    if n > 0 {
      OneMoves(start, n - 1);
    }
  }

  // ---------- linear over exclusive or ----------

  lemma ShiftLinear(x: Bits16, y: Bits16)
    ensures Shift(Xor(x, y)) == Xor(Shift(x), Shift(y))
  {
  }

  lemma {:induction false} ShiftedLinear(x: Bits16, y: Bits16, n: nat)
    ensures Shifted(Xor(x, y), n) == Xor(Shifted(x, n), Shifted(y, n))
  {
    if n > 0 {
      ShiftedLinear(x, y, n - 1);
      ShiftLinear(Shifted(x, n - 1), Shifted(y, n - 1));
    }
  }

  function XorByte(a: Bits8, b: Bits8): (r: Bits8)
    ensures forall i :: 0 <= i < 8 ==> r[i] == (a[i] != b[i])
  {
    seq(8, i requires 0 <= i < 8 => a[i] != b[i])
  }

  lemma XorPairs(a: Bits16, b: Bits16, c: Bits8, d: Bits8)
    ensures Xor(Xor(a, b), High(XorByte(c, d))) == Xor(Xor(a, High(c)), Xor(b, High(d)))
  {
  }

  lemma ByteStepLinear(x: Bits16, y: Bits16, c: Bits8, d: Bits8)
    ensures ByteStep(Xor(x, y), XorByte(c, d)) == Xor(ByteStep(x, c), ByteStep(y, d))
  {
    XorPairs(x, y, c, d);
    ShiftedLinear(Xor(x, High(c)), Xor(y, High(d)), |c|);
  }

  function XorData(a: seq<Bits8>, b: seq<Bits8>): (r: seq<Bits8>)
    requires |a| == |b|
    ensures |r| == |a| && forall i :: 0 <= i < |a| ==> r[i] == XorByte(a[i], b[i])
  {
    seq(|a|, i requires 0 <= i < |a| => XorByte(a[i], b[i]))
  }

  lemma {:induction false} CrcFromLinear(x: Bits16, y: Bits16, a: seq<Bits8>, b: seq<Bits8>, n: nat)
    requires |a| == |b| && n <= |a|
    ensures CrcFrom(Xor(x, y), XorData(a, b), n) == Xor(CrcFrom(x, a, n), CrcFrom(y, b, n))
  {
    if n > 0 {
      CrcFromLinear(x, y, a, b, n - 1);
      ByteStepLinear(CrcFrom(x, a, n - 1), CrcFrom(y, b, n - 1), a[n - 1], b[n - 1]);
    }
  }

  lemma XorSelf(x: Bits16, y: Bits16)
    ensures Xor(x, Zero()) == x && Xor(Zero(), x) == x && (Xor(x, y) == Zero() <==> x == y)
  {
    if Xor(x, y) == Zero() {
      forall i | 0 <= i < 16 ensures x[i] == y[i] {
        assert !Xor(x, y)[i];
      }
    }
  }

  /** The check is linear over exclusive or, for data of equal lengths. */
  lemma CrcLinear(a: seq<Bits8>, b: seq<Bits8>)
    requires |a| == |b|
    ensures Crc(XorData(a, b)) == Xor(Crc(a), Crc(b))
  {
    XorSelf(Zero(), Zero());
    CrcFromLinear(Zero(), Zero(), a, b, |a|);
  }

  // ---------- only zero shifts to zero ----------

  lemma ShiftZero(x: Bits16)
    ensures Shift(x) == Zero() <==> x == Zero()
  {
    if Shift(x) == Zero() {
      assert !Shift(x)[0];
      assert !x[15];
      forall i | 0 <= i < 15 ensures !x[i] {
        assert !Shift(x)[i + 1];
      }
    }
  }

  lemma {:induction false} ShiftedZero(x: Bits16, n: nat)
    ensures Shifted(x, n) == Zero() <==> x == Zero()
  {
    if n > 0 {
      ShiftedZero(x, n - 1);
      ShiftZero(Shifted(x, n - 1));
    }
  }

  /** `x << n`. */
  function Moved(x: Bits16, n: nat): (r: Bits16)
    ensures forall i :: 0 <= i < 16 ==> r[i] == (i >= n && x[i - n])
  {
    seq(16, i requires 0 <= i < 16 => i >= n && x[i - n])
  }

  /** As long as no bit is shifted out, shifting only moves. */
  lemma {:induction false} ShiftedMoves(x: Bits16, n: nat)
    requires n <= 16 && forall i :: 16 - n <= i < 16 ==> !x[i]
    ensures Shifted(x, n) == Moved(x, n)
  {
    if n > 0 {
      ShiftedMoves(x, n - 1);
    }
  }

  // ---------- data followed by its own check ----------

  function HighByte(crc: Bits16): Bits8 {
    crc[8..]
  }

  function LowByte(crc: Bits16): Bits8 {
    crc[..8]
  }

  lemma OwnCheckIsZero(crc: Bits16)
    ensures ByteStep(ByteStep(crc, HighByte(crc)), LowByte(crc)) == Zero()
  {
    var low := Xor(crc, High(HighByte(crc)));
    var n := |HighByte(crc)|;
    ShiftedMoves(low, n);
    assert Moved(low, n) == High(LowByte(crc));
    XorSelf(High(LowByte(crc)), High(LowByte(crc)));
    ShiftedZero(Zero(), |LowByte(crc)|);
  }

  lemma {:induction false} CrcOfPrefix(crc: Bits16, a: seq<Bits8>, b: seq<Bits8>, n: nat)
    requires n <= |a| && n <= |b| && forall i :: 0 <= i < n ==> a[i] == b[i]
    ensures CrcFrom(crc, a, n) == CrcFrom(crc, b, n)
  {
    if n > 0 {
      CrcOfPrefix(crc, a, b, n - 1);
    }
  }

  /** The check of data followed by its own check, high byte first, is zero. */
  lemma SelfCheck(data: seq<Bits8>)
    ensures Crc(data + [HighByte(Crc(data)), LowByte(Crc(data))]) == Zero()
  {
    var all := data + [HighByte(Crc(data)), LowByte(Crc(data))];
    CrcOfPrefix(Zero(), all, data, |data|);
    OwnCheckIsZero(Crc(data));
    assert all[|data|] == HighByte(Crc(data)) && all[|data| + 1] == LowByte(Crc(data));
    assert CrcFrom(Zero(), all, |data| + 1) == ByteStep(Crc(data), HighByte(Crc(data)));
  }

  // ---------- two bytes ----------

  function Nothing(): (r: Bits8)
    ensures forall i :: 0 <= i < 8 ==> !r[i]
  {
    seq(8, i requires 0 <= i < 8 => false)
  }

  lemma {:induction false} ZerosKeepZero(e: seq<Bits8>, n: nat)
    requires n <= |e| && forall i :: 0 <= i < n ==> e[i] == Nothing()
    ensures CrcFrom(Zero(), e, n) == Zero()
  {
    if n > 0 {
      ZerosKeepZero(e, n - 1);
      assert Xor(Zero(), High(Nothing())) == Zero();
      ShiftedZero(Zero(), |e[n - 1]|);
    }
  }

  lemma {:induction false} ZerosKeepOther(e: seq<Bits8>, k: nat, n: nat)
    requires k <= n <= |e| && (forall i :: k <= i < n ==> e[i] == Nothing()) && CrcFrom(Zero(), e, k) != Zero()
    ensures CrcFrom(Zero(), e, n) != Zero()
  {
    if n > k {
      ZerosKeepOther(e, k, n - 1);
      var c := CrcFrom(Zero(), e, n - 1);
      assert Xor(c, High(Nothing())) == c;
      ShiftedZero(c, |e[n - 1]|);
    }
  }

  /** Two adjacent bytes that are not both zero leave a check that is not zero. */
  lemma TwoBytesShow(a: Bits8, b: Bits8)
    requires a != Nothing() || b != Nothing()
    ensures ByteStep(ByteStep(Zero(), a), b) != Zero()
  {
    var first := ByteStep(Zero(), a);
    XorSelf(High(a), High(a));
    FirstByteShows(a, b);
    XorSelf(first, High(b));
    ShiftedZero(Xor(first, High(b)), |b|);
  }

  lemma FirstByteShows(a: Bits8, b: Bits8)
    requires a != Nothing() || b != Nothing()
    ensures ByteStep(Zero(), a) != High(b)
  {
    XorSelf(High(a), High(a));
    LowMoves(b, |a|);
    ShiftedLinear(High(a), Low(b), |a|);
    HighIsNotLow(a, b);
    XorSelf(High(a), Low(b));
    ShiftedZero(Xor(High(a), Low(b)), |a|);
    XorSelf(ByteStep(Zero(), a), High(b));
  }

  /** A byte in the lower half of a word. */
  function Low(b: Bits8): (r: Bits16)
    ensures forall i :: 0 <= i < 16 ==> r[i] == (i < 8 && b[i])
  {
    seq(16, i requires 0 <= i < 16 => i < 8 && b[i])
  }

  lemma LowMoves(b: Bits8, n: nat)
    requires n == 8
    ensures Shifted(Low(b), n) == High(b)
  {
    ShiftedMoves(Low(b), n);
    assert Moved(Low(b), n) == High(b);
  }

  lemma HighIsNotLow(a: Bits8, b: Bits8)
    requires a != Nothing() || b != Nothing()
    ensures High(a) != Low(b)
  {
    var i :| 0 <= i < 8 && (a[i] || b[i]) by {
      SomeBit(a);
      SomeBit(b);
    }
    assert High(a)[i + 8] == a[i] && !Low(b)[i + 8] && !High(a)[i] && Low(b)[i] == b[i];
  }

  lemma SomeBit(b: Bits8)
    ensures b != Nothing() ==> exists i :: 0 <= i < 8 && b[i]
  {
    if forall i :: 0 <= i < 8 ==> !b[i] {
      assert b == Nothing();
    }
  }

  lemma XorByteNothing(a: Bits8, b: Bits8)
    ensures XorByte(a, b) == Nothing() <==> a == b
  {
    if XorByte(a, b) == Nothing() {
      forall i | 0 <= i < 8 ensures a[i] == b[i] {
        assert !XorByte(a, b)[i];
      }
    }
  }

  // ---------- long division ----------

  /** The word with lowest bit `b` and no other. */
  function Unit(b: bool): (r: Bits16)
    ensures forall i :: 0 <= i < 16 ==> r[i] == (i == 0 && b)
  {
    seq(16, i requires 0 <= i < 16 => i == 0 && b)
  }

  /** One step of the long division by the generator: the next bit is brought down, and the generator is taken away
      when its leading term fits. */
  function BringDown(r: Bits16, b: bool): Bits16 {
    Xor(Shift(r), Unit(b))
  }

  /** The division goes on over the `n` highest bits of a byte, the highest first. */
  function DivideByte(r: Bits16, b: Bits8, n: nat): Bits16
    requires n <= 8
  {
    if n == 0 then r else BringDown(DivideByte(r, b, n - 1), b[8 - n])
  }

  /** What is left of the first `n` bytes, read as a polynomial with the highest bit of the first byte in front, after
      the long division by the generator. */
  function Remainder(data: seq<Bits8>, n: nat): Bits16
    requires n <= |data|
  {
    if n == 0 then Zero() else DivideByte(Remainder(data, n - 1), data[n - 1], |data[n - 1]|)
  }

  /** The `n` highest bits of a byte, at the low end of a word. */
  function Top(b: Bits8, n: nat): (r: Bits16)
    requires n <= 8
    ensures forall i :: 0 <= i < 16 ==> r[i] == (i < n && b[8 - n + i])
  {
    seq(16, i requires 0 <= i < 16 => i < n && b[8 - n + i])
  }

  lemma TopGrows(b: Bits8, n: nat)
    requires 0 < n <= 8
    ensures Xor(Shift(Top(b, n - 1)), Unit(b[8 - n])) == Top(b, n)
  {
  }

  lemma XorAround(a: Bits16, b: Bits16, c: Bits16)
    ensures Xor(Xor(a, b), c) == Xor(a, Xor(b, c))
  {
  }

  lemma BringDownNext(s: Bits16, b: Bits8, n: nat, r: Bits16)
    requires 0 < n <= 8 && r == Xor(s, Top(b, n - 1))
    ensures BringDown(r, b[8 - n]) == Xor(Shift(s), Top(b, n))
  {
    ShiftLinear(s, Top(b, n - 1));
    XorAround(Shift(s), Shift(Top(b, n - 1)), Unit(b[8 - n]));
    TopGrows(b, n);
  }

  lemma {:induction false} DivideByteSays(r: Bits16, b: Bits8, n: nat)
    requires n <= 8
    ensures DivideByte(r, b, n) == Xor(Shifted(r, n), Top(b, n))
  {
    if n == 0 {
      assert Top(b, n) == Zero();
      XorSelf(r, Zero());
    } else {
      DivideByteSays(r, b, n - 1);
      BringDownNext(Shifted(r, n - 1), b, n, DivideByte(r, b, n - 1));
    }
  }

  lemma {:induction false} ShiftedTwice(x: Bits16, n: nat, m: nat)
    ensures Shifted(Shifted(x, n), m) == Shifted(x, n + m)
  {
    if m > 0 {
      ShiftedTwice(x, n, m - 1);
    }
  }

  /** A byte divided in is a byte taken into the check, sixteen bits later. */
  lemma ByteDivides(r: Bits16, b: Bits8, n: nat)
    requires n == 8
    ensures Shifted(DivideByte(r, b, n), n + n) == Shifted(Xor(Shifted(r, n + n), High(b)), n)
  {
    DivideByteSays(r, b, n);
    assert Top(b, n) == Low(b);
    ShiftedTwice(DivideByte(r, b, n), n, n);
    ShiftedLinear(Shifted(r, n), Low(b), n);
    ShiftedTwice(r, n, n);
    LowMoves(b, n);
  }

  lemma RemainderStep(data: seq<Bits8>, i: nat, b: Bits8, n: nat)
    requires i < |data| && data[i] == b && n == 8
    ensures Remainder(data, i + 1) == DivideByte(Remainder(data, i), b, n)
  {
  }

  lemma {:induction false} CrcIsAhead(data: seq<Bits8>, i: nat, n: nat)
    requires i <= |data| && n == 8
    ensures CrcFrom(Zero(), data, i) == Shifted(Remainder(data, i), n + n)
  {
    if i == 0 {
      ShiftedZero(Zero(), n + n);
    } else {
      var p, b := i - 1, data[i - 1];
      CrcIsAhead(data, p, n);
      ByteDivides(Remainder(data, p), b, n);
      RemainderStep(data, p, b, n);
      assert CrcFrom(Zero(), data, i) == ByteStep(CrcFrom(Zero(), data, p), b);
    }
  }

  lemma TopNothing(n: nat)
    requires n <= 8
    ensures Top(Nothing(), n) == Zero()
  {
  }

  lemma NothingShifts(r: Bits16, n: nat)
    requires n == 8
    ensures DivideByte(r, Nothing(), n) == Shifted(r, n)
  {
    DivideByteSays(r, Nothing(), n);
    TopNothing(n);
    XorSelf(Shifted(r, n), Zero());
  }

  lemma {:induction false} RemainderOfPrefix(a: seq<Bits8>, b: seq<Bits8>, n: nat)
    requires n <= |a| && n <= |b| && forall i :: 0 <= i < n ==> a[i] == b[i]
    ensures Remainder(a, n) == Remainder(b, n)
  {
    if n > 0 {
      RemainderOfPrefix(a, b, n - 1);
    }
  }

  lemma TwoNothings(r: Bits16, n: nat)
    requires n == 8
    ensures DivideByte(DivideByte(r, Nothing(), n), Nothing(), n) == Shifted(r, n + n)
  {
    NothingShifts(r, n);
    NothingShifts(Shifted(r, n), n);
    ShiftedTwice(r, n, n);
  }

  /** The check is the remainder of the data, followed by sixteen zero bits, in the long division by the generator. */
  lemma CrcIsRemainder(data: seq<Bits8>)
    ensures Crc(data) == Remainder(data + [Nothing(), Nothing()], |data| + 2)
  {
    var all, i, n := data + [Nothing(), Nothing()], |data|, |Nothing()|;
    RemainderOfPrefix(all, data, i);
    RemainderStep(all, i, Nothing(), n);
    RemainderStep(all, i + 1, Nothing(), n);
    TwoNothings(Remainder(data, i), n);
    CrcIsAhead(data, i, n);
  }

  // ---------- bursts ----------

  /** `x >> (8 - s)` of a byte, in the lower half of a word. */
  function TopBits(b: Bits8, s: nat): (r: Bits16)
    requires s <= 8
    ensures forall i :: 0 <= i < 16 ==> r[i] == (i < s && b[i + 8 - s])
  {
    seq(16, i requires 0 <= i < 16 => i < s && b[i + 8 - s])
  }

  lemma TopBitsMove(b: Bits8, s: nat)
    requires s <= 8 && forall i :: 0 <= i < 8 - s ==> !b[i]
    ensures Shifted(TopBits(b, s), 8 - s) == Low(b)
  {
    ShiftedMoves(TopBits(b, s), 8 - s);
    assert Moved(TopBits(b, s), 8 - s) == Low(b);
  }

  lemma MovedIsTop(x: Bits16, c: Bits8, s: nat)
    requires s <= 8 && (forall i :: 16 - s <= i < 16 ==> !x[i]) && forall i :: 0 <= i < 8 - s ==> !c[i]
    ensures Moved(x, s) == TopBits(c, s) ==> x == Zero() && c == Nothing()
  {
    var m, d := Moved(x, s), TopBits(c, s);
    if m == d {
      forall i | 0 <= i < 8 ensures !c[i] {
        assert i >= 8 - s ==> d[i - (8 - s)] == c[i] && !m[i - (8 - s)];
      }
      forall i | 0 <= i < 16 ensures !x[i] {
        assert i < 16 - s ==> m[i + s] == x[i] && !d[i + s];
      }
    }
  }

  lemma BurstShifts(x: Bits16, c: Bits8, s: nat, n: nat)
    requires n == 8 && s <= n && (forall i :: 16 - s <= i < 16 ==> !x[i]) && forall i :: 0 <= i < n - s ==> !c[i]
    ensures Xor(Shifted(x, n), Low(c)) == Shifted(Xor(Moved(x, s), TopBits(c, s)), n - s)
  {
    ShiftedMoves(x, s);
    ShiftedTwice(x, s, n - s);
    TopBitsMove(c, s);
    ShiftedLinear(Moved(x, s), TopBits(c, s), n - s);
  }

  lemma BurstRemains(x: Bits16, c: Bits8, s: nat)
    requires s <= 8 && (forall i :: 16 - s <= i < 16 ==> !x[i]) && forall i :: 0 <= i < 8 - s ==> !c[i]
    requires x != Zero() || c != Nothing()
    ensures Xor(Moved(x, s), TopBits(c, s)) != Zero()
  {
    MovedIsTop(x, c, s);
    XorSelf(Moved(x, s), TopBits(c, s));
  }

  lemma BurstDivides(x: Bits16, c: Bits8, s: nat, n: nat)
    requires n == 8 && s <= n && (forall i :: 16 - s <= i < 16 ==> !x[i]) && forall i :: 0 <= i < n - s ==> !c[i]
    requires x != Zero() || c != Nothing()
    ensures Xor(Shifted(x, n), Low(c)) != Zero()
  {
    BurstShifts(x, c, s, n);
    BurstRemains(x, c, s);
    ShiftedZero(Xor(Moved(x, s), TopBits(c, s)), n - s);
  }

  /** Two bytes as a word. */
  function WordOf(a: Bits8, b: Bits8): (r: Bits16)
    ensures forall i :: 0 <= i < 16 ==> r[i] == if i < 8 then b[i] else a[i - 8]
  {
    seq(16, i requires 0 <= i < 16 => if i < 8 then b[i] else a[i - 8])
  }

  lemma WordIsZero(a: Bits8, b: Bits8)
    ensures WordOf(a, b) == Zero() <==> a == Nothing() && b == Nothing()
  {
    var w := WordOf(a, b);
    if w == Zero() {
      forall i | 0 <= i < 8 ensures !a[i] && !b[i] {
        assert !w[i] && !w[i + 8];
      }
    }
  }

  lemma DivideWhole(r: Bits16, b: Bits8, n: nat)
    requires n == 8
    ensures DivideByte(r, b, n) == Xor(Shifted(r, n), Low(b))
  {
    DivideByteSays(r, b, n);
    TopIsLow(b, n);
  }

  lemma TopIsLow(b: Bits8, n: nat)
    requires n == 8
    ensures Top(b, n) == Low(b)
  {
  }

  lemma HighAndLow(a: Bits8, b: Bits8)
    ensures Xor(High(a), Low(b)) == WordOf(a, b)
  {
  }

  lemma TwoBytesDivide(a: Bits8, b: Bits8, n: nat)
    requires n == 8
    ensures DivideByte(DivideByte(Zero(), a, n), b, n) == WordOf(a, b)
  {
    DivideWhole(Zero(), a, n);
    ShiftedZero(Zero(), n);
    XorSelf(Low(a), Zero());
    DivideWhole(Low(a), b, n);
    LowMoves(a, n);
    HighAndLow(a, b);
  }

  lemma WordEnds(a: Bits8, b: Bits8, s: nat, n: nat)
    requires n == 8 && s <= n && forall i :: n - s <= i < n ==> !a[i]
    ensures forall i :: 16 - s <= i < 16 ==> !WordOf(a, b)[i]
  {
  }

  /** Three adjacent bytes whose set bits lie within sixteen adjacent ones leave a check that is not zero. */
  lemma BurstShows(a: Bits8, b: Bits8, c: Bits8, s: nat, n: nat)
    requires n == 8 && s <= n && (forall i :: n - s <= i < n ==> !a[i]) && (forall i :: 0 <= i < n - s ==> !c[i])
    requires a != Nothing() || b != Nothing() || c != Nothing()
    ensures ByteStep(ByteStep(ByteStep(Zero(), a), b), c) != Zero()
  {
    var w := WordOf(a, b);
    TwoBytesDivide(a, b, n);
    WordIsZero(a, b);
    WordEnds(a, b, s, n);
    DivideWhole(w, c, n);
    BurstDivides(w, c, s, n);
    ThreeBytesAhead(a, b, c, n);
    ShiftedZero(DivideByte(w, c, n), n + n);
  }

  lemma ThreeBytesAhead(a: Bits8, b: Bits8, c: Bits8, n: nat)
    requires n == 8
    ensures ByteStep(ByteStep(ByteStep(Zero(), a), b), c)
         == Shifted(DivideByte(DivideByte(DivideByte(Zero(), a, n), b, n), c, n), n + n)
  {
    ShiftedZero(Zero(), n + n);
    ByteDivides(Zero(), a, n);
    ByteDivides(DivideByte(Zero(), a, n), b, n);
    ByteDivides(DivideByte(DivideByte(Zero(), a, n), b, n), c, n);
  }

  // ---------- changes that are always noticed ----------

  /** The difference between two data is zero but for the bytes from `k` to `m`, and these leave a check. */
  lemma DifferenceShows(data: seq<Bits8>, other: seq<Bits8>, k: nat, m: nat)
    requires |data| == |other| && k <= m <= |data|
    requires forall i :: 0 <= i < |data| && !(k <= i < m) ==> data[i] == other[i]
    requires CrcFrom(Zero(), XorData(data, other), k) == Zero() ==> CrcFrom(Zero(), XorData(data, other), m) != Zero()
    ensures Crc(other) != Crc(data)
  {
    var e := XorData(data, other);
    forall i | 0 <= i < |e| && !(k <= i < m) ensures e[i] == Nothing() {
      XorByteNothing(data[i], other[i]);
    }
    ZerosKeepZero(e, k);
    ZerosKeepOther(e, m, |e|);
    CrcLinear(data, other);
    XorSelf(Crc(data), Crc(other));
  }

  lemma CrcStep(data: seq<Bits8>, i: nat, b: Bits8)
    requires i < |data| && data[i] == b
    ensures CrcFrom(Zero(), data, i + 1) == ByteStep(CrcFrom(Zero(), data, i), b)
  {
  }

  lemma OneByteShows(a: Bits8)
    requires a != Nothing()
    ensures ByteStep(Zero(), a) != Zero()
  {
    XorSelf(High(a), High(a));
    assert High(a) != Zero() by {
      SomeBit(a);
      var i :| 0 <= i < 8 && a[i];
      assert High(a)[i + 8];
    }
    ShiftedZero(Xor(Zero(), High(a)), |a|);
  }

  /** Any change within two adjacent bytes, or of the last byte alone, changes the check. */
  lemma ChangesAreNoticed(data: seq<Bits8>, other: seq<Bits8>, k: nat)
    requires |data| == |other| && k < |data| && data != other
    requires forall i :: 0 <= i < |data| && i != k && i != k + 1 ==> data[i] == other[i]
    ensures Crc(other) != Crc(data)
  {
    var e := XorData(data, other);
    XorByteNothing(data[k], other[k]);
    CrcStep(e, k, e[k]);
    if k + 1 == |data| {
      assert data[k] != other[k];
      OneByteShows(e[k]);
      DifferenceShows(data, other, k, k + 1);
    } else {
      XorByteNothing(data[k + 1], other[k + 1]);
      assert data[k] != other[k] || data[k + 1] != other[k + 1];
      CrcStep(e, k + 1, e[k + 1]);
      TwoBytesShow(e[k], e[k + 1]);
      DifferenceShows(data, other, k, k + 2);
    }
  }

  /** Any burst of at most sixteen bits changes the check: one that spans three bytes begins `s` bits into the first and
      ends before the last `8 - s` bits of the third. */
  lemma BurstsAreNoticed(data: seq<Bits8>, other: seq<Bits8>, k: nat, m: nat, s: nat)
    requires |data| == |other| && m == k + 2 < |data| && data != other && s <= 8
    requires forall i :: 0 <= i < |data| && !(k <= i <= m) ==> data[i] == other[i]
    requires forall i :: 8 - s <= i < 8 ==> data[k][i] == other[k][i]
    requires forall i :: 0 <= i < 8 - s ==> data[m][i] == other[m][i]
    ensures Crc(other) != Crc(data)
  {
    var e := XorData(data, other);
    XorByteNothing(data[k], other[k]);
    XorByteNothing(data[k + 1], other[k + 1]);
    XorByteNothing(data[k + 2], other[k + 2]);
    CrcStep(e, k, e[k]);
    CrcStep(e, k + 1, e[k + 1]);
    CrcStep(e, k + 2, e[k + 2]);
    BurstShows(e[k], e[k + 1], e[k + 2], s, |e[k]|);
    DifferenceShows(data, other, k, k + 3);
  }
}
