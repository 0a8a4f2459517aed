/** Error detection of the packet test: minimum distance 4, bursts of up to 16 bits
    (main/protocol.c:46-122). */
module CrcDistance {
  import opened Crc16
  import opened CrcCode
  import opened CrcAlgebra

  /* ---- Checksums of sparse error patterns ---- */

  predicate Odd(r: Word) {
    Weight(LowBits(r, 16)) % 2 == 1
  }

  lemma {:induction false} WeightOfErrors(s: seq<bool>, t: seq<bool>)
    requires |s| == |t|
    ensures Weight(Errors(s, t)) % 2 == (Weight(s) + Weight(t)) % 2
  {
    if s != [] {
      assert Errors(s, t)[1..] == Errors(s[1..], t[1..]);
      WeightOfErrors(s[1..], t[1..]);
    }
  }

  lemma OddXor(r: Word, q: Word, s: Word)
    requires s == r ^ q
    ensures Odd(s) == (Odd(r) != Odd(q))
  {
    hide LowBits, Errors, Weight;
    LowBitsOfXor(r, q, s, 16);
    WeightOfErrors(LowBits(r, 16), LowBits(q, 16));
  }

  lemma WeightOfCons(bit: bool, s: seq<bool>)
    ensures Weight([bit] + s) == (if bit then 1 else 0) + Weight(s)
  {
    assert ([bit] + s)[1..] == s;
  }

  lemma {:induction false} OneMoreLowBit(v: Word, n: nat)
    requires Narrow(v, n)
    ensures Weight(LowBits(v, n + 1)) == Weight(LowBits(v, n))
    decreases n
  {
    hide LowBits, Weight;
    LowBitsStep(v, n + 1);
    WeightOfCons(v & 1 == 1, LowBits(v >> 1, n));
    if n == 0 {
      NoLowBits(v);
      NoLowBits(v >> 1);
      LowBitOfZero(v);
    } else {
      OneMoreLowBit(v >> 1, n - 1);
      LowBitsStep(v, n);
      WeightOfCons(v & 1 == 1, LowBits(v >> 1, n - 1));
    }
  }

  lemma LowBitOfZero(v: Word)
    requires v == 0
    ensures !(v & 1 == 1)
  {}

  lemma SixteenBits(v: Word)
    ensures Narrow(v, 16)
  {
    hide Narrow;
    var v1 := v >> 1;
    var v2 := v1 >> 1;
    var v3 := v2 >> 1;
    var v4 := v3 >> 1;
    var v5 := v4 >> 1;
    var v6 := v5 >> 1;
    var v7 := v6 >> 1;
    var v8 := v7 >> 1;
    UpperByte(v8);
    EightBits((v8 & 0xFF) as Byte);
    NarrowStep(v7, 9);
    NarrowStep(v6, 10);
    NarrowStep(v5, 11);
    NarrowStep(v4, 12);
    NarrowStep(v3, 13);
    NarrowStep(v2, 14);
    NarrowStep(v1, 15);
    NarrowStep(v, 16);
  }

  lemma UpperByte(v: Word)
    requires v <= 0xFF
    ensures ((v & 0xFF) as Byte) as Word == v
  {}

  lemma OddHalf(r: Word)
    ensures Odd(r >> 1) == (Odd(r) != (r & 1 == 1))
  {
    hide LowBits, Weight, Narrow;
    SixteenBits(r);
    OneMoreLowBit(r, 16);
    LowBitsStep(r, 17);
    WeightOfCons(r & 1 == 1, LowBits(r >> 1, 16));
  }

  lemma OddConstants()
    ensures !Odd(0) && Odd(1) && Odd(0xA001)
  {
    hide LowBits, Weight;
    WeightOfZero(16);
    OddHalf(1);
    OddHalf(2);
    OddHalf(5);
    OddHalf(0xA);
    OddHalf(0x14);
    OddHalf(0x28);
    OddHalf(0x50);
    OddHalf(0xA0);
    OddHalf(0x140);
    OddHalf(0x280);
    OddHalf(0x500);
    OddHalf(0xA00);
    OddHalf(0x1400);
    OddHalf(0x2800);
    OddHalf(0x5000);
    OddHalf(0xA001);
  }

  lemma Shift1Cases(r: Word, half: Word)
    requires half == r >> 1
    ensures if r & 1 == 1 then Shift1(r) == half ^ 0xA001 else Shift1(r) == half
  {}

  lemma OddShift1(r: Word)
    ensures Odd(Shift1(r)) == Odd(r)
  {
    hide Odd, Shift1;
    var half := r >> 1;
    OddHalf(r);
    Shift1Cases(r, half);
    OddConstants();
    OddXor(half, 0xA001, half ^ 0xA001);
  }

  lemma OddFeed(r: Word, bit: bool)
    ensures Odd(Feed(r, bit)) == (Odd(r) != bit)
  {
    hide Odd, Shift1;
    OddConstants();
    if bit {
      OddXor(r, 1, r ^ 1);
      FeedIsShift1(r, true, r ^ 1);
      OddShift1(r ^ 1);
    } else {
      FeedIsShift1(r, false, r);
      OddShift1(r);
    }
  }

  lemma FeedIsShift1(r: Word, bit: bool, s: Word)
    requires s == if bit then r ^ 1 else r
    ensures Feed(r, bit) == Shift1(s)
  {}

  // Every shift keeps the parity, so the checksum of an odd number of errors is odd.
  lemma {:induction false} OddLfsr(e: seq<bool>, r: Word)
    ensures Odd(Lfsr(e, r)) == (Odd(r) != (Weight(e) % 2 == 1))
  {
    hide Odd, Feed;
    if e != [] {
      OddFeed(r, e[0]);
      OddLfsr(e[1..], Feed(r, e[0]));
    }
  }

  lemma FeedFalse(r: Word)
    ensures Feed(r, false) == Shift1(r)
  {}

  lemma FeedTrue(r: Word)
    ensures Feed(r, true) == Shift1(r) ^ X(16)
  {
    hide X;
    XSixteen();
  }

  lemma XSixteen()
    ensures X(16) == 0xA001
  {
    XEight();
    XEven(8, 0x0080, 0xA001);
  }

  lemma XEight()
    ensures X(8) == 0x0080
  {}

  lemma FeedZero()
    ensures Feed(0, true) == X(16) && Feed(0, false) == 0
  {
    hide X;
    XSixteen();
  }

  lemma {:induction false} NoError(e: seq<bool>, r: Word)
    requires Weight(e) == 0
    ensures Lfsr(e, r) == Shift(|e|, r)
  {
    hide Feed, Shift1;
    if e != [] {
      FeedFalse(r);
      NoError(e[1..], Shift1(r));
    }
  }

  // The error's contribution after n more shifts.
  lemma ErrorShifted(r: Word, n: nat, s: Word, x: Word, f: Word)
    requires f == Feed(r, true) && s == Shift1(r) && x == X(16)
    ensures Shift(n, f) == Shift(n + 1, r) ^ X(16 + n)
  {
    hide Feed, Shift1, X, Shift;
    FeedTrue(r);
    ShiftLinear(n, s, x, f);
    XShift(16, n);
    ShiftUnfold(n + 1, r);
  }

  lemma ShiftUnfold(n: nat, r: Word)
    requires n > 0
    ensures Shift(n, r) == Shift(n - 1, Shift1(r))
  {
    hide Shift1;
  }

  lemma {:induction false} OneError(e: seq<bool>, r: Word) returns (k: nat)
    requires Weight(e) == 1
    ensures 16 <= k < 16 + |e|
    ensures Lfsr(e, r) == Shift(|e|, r) ^ X(k)
  {
    hide Feed, Shift1, X, Shift;
    if e[0] {
      NoError(e[1..], Feed(r, true));
      ErrorShifted(r, |e| - 1, Shift1(r), X(16), Feed(r, true));
      k := 16 + |e| - 1;
    } else {
      FeedFalse(r);
      k := OneError(e[1..], Shift1(r));
      ShiftUnfold(|e|, r);
    }
  }

  lemma XShift(m: nat, n: nat)
    ensures Shift(n, X(m)) == X(m + n)
  {
    hide Shift;
    ShiftAdd(m, n, 0x8000);
  }

  lemma PowersDiffer(n: nat, k: nat, r: Word)
    requires 0 < n - k < ORDER && r == X(n) ^ X(k)
    ensures r != 0
  {
    hide X;
    XorIsZero(X(n), X(k), r);
    if r == 0 {
      XCancel(k, n);
      NoShortPeriod(n - k);
    }
  }

  lemma SecondError(e: seq<bool>)
    requires Weight(e) == 1 && |e| < ORDER
    ensures Lfsr(e, X(16)) != 0
  {
    hide Lfsr, X, Shift;
    var k := OneError(e, X(16));
    XShift(16, |e|);
    PowersDiffer(16 + |e|, k, Lfsr(e, X(16)));
  }

  lemma {:induction false} TwoErrors(e: seq<bool>)
    requires Weight(e) == 2 && |e| <= ORDER
    ensures Lfsr(e, 0) != 0
  {
    hide Feed, X;
    FeedZero();
    if e[0] {
      SecondError(e[1..]);
    } else {
      TwoErrors(e[1..]);
    }
  }

  /* ---- Minimum distance 4 ---- */

  lemma {:induction false} EqualIfNoError(s: seq<bool>, t: seq<bool>)
    requires |s| == |t|
    ensures Weight(Errors(s, t)) == 0 <==> s == t
  {
    if s != [] {
      assert Errors(s, t)[1..] == Errors(s[1..], t[1..]);
      EqualIfNoError(s[1..], t[1..]);
      assert s == [s[0]] + s[1..] && t == [t[0]] + t[1..];
    }
  }

  // Feeding the bits determines the value they encode.
  lemma LowBitsInjective(v: Word, w: Word, n: nat)
    requires Narrow(v, n) && Narrow(w, n) && LowBits(v, n) == LowBits(w, n)
    ensures v == w
  {
    hide LowBits, Narrow, Lfsr, Shift;
    XorZeroLeft(v);
    XorZeroLeft(w);
    LfsrLowBits(v, n, 0, v);
    LfsrLowBits(w, n, 0, w);
    ShiftInjective(n, v, w);
  }

  lemma XorZeroLeft(v: Word)
    ensures v == 0 ^ v
  {}

  lemma NarrowStep(v: Word, n: nat)
    ensures Narrow(v, n) <==> if n == 0 then v == 0 else Narrow(v >> 1, n - 1)
  {}

  lemma ByteBitsInjective(x: Byte, y: Byte)
    requires LowBits(x as Word, 8) == LowBits(y as Word, 8)
    ensures x == y
  {
    hide LowBits, Narrow;
    EightBits(x);
    EightBits(y);
    LowBitsInjective(x as Word, y as Word, 8);
  }

  lemma {:induction false} BitsInjective(a: seq<Byte>, b: seq<Byte>)
    requires |a| == |b| && Bits(a) == Bits(b)
    ensures a == b
  {
    hide LowBits;
    if a != [] {
      var x, y, a', b' := a[0], b[0], a[1..], b[1..];
      assert a == [x] + a' && b == [y] + b';
      var s, t := LowBits(x as Word, 8), LowBits(y as Word, 8);
      assert s == Bits(a)[..8] && t == Bits(b)[..8];
      assert Bits(a') == Bits(a)[8..] && Bits(b') == Bits(b)[8..];
      ByteBitsInjective(x, y);
      BitsInjective(a', b');
    }
  }

  // The error pattern between two accepted packets has checksum 0.
  lemma AcceptedDifference(a: seq<Byte>, b: seq<Byte>)
    requires |a| == |b| && Accepted(a) && Accepted(b)
    ensures Lfsr(Errors(Bits(a), Bits(b)), 0) == 0
  {
    hide Lfsr, Verdict, Errors;
    assert |a| >= MIN_PACKET by { LongEnough(a); }
    Residue(a);
    Residue(b);
    LfsrLinear(Bits(a), Bits(b), CRC_INIT, CRC_INIT, 0);
  }

  lemma LongEnough(a: seq<Byte>)
    requires Accepted(a)
    ensures |a| >= MIN_PACKET
  {}

  const MAX_CODE := 4095

  // Two different accepted packets of equal length differ in at least four bits, for every
  // length up to 4095 bytes; the receive buffer holds at most 499.
  lemma MinimumDistance(a: seq<Byte>, b: seq<Byte>)
    requires |a| == |b| <= MAX_CODE && Accepted(a) && Accepted(b)
    requires a != b
    ensures Distance(Bits(a), Bits(b)) >= 4
  {
    hide Accepted, Lfsr, Errors, Bits, Odd;
    var e := Errors(Bits(a), Bits(b));
    AcceptedDifference(a, b);
    DistanceIsWeight(Bits(a), Bits(b));
    OddLfsr(e, 0);
    OddConstants();
    if Weight(e) == 0 {
      EqualIfNoError(Bits(a), Bits(b));
      BitsInjective(a, b);
    } else if Weight(e) == 2 {
      TwoErrors(e);
    }
  }

  // A message of the length of a sealed packet, with up to three bits wrong, is not accepted.
  lemma FewErrorsRejected(packet: seq<Byte>, received: seq<Byte>)
    requires 2 <= |packet| && |received| == |packet| + 2 <= MAX_CODE
    requires 1 <= Distance(Bits(Sealed(packet)), Bits(received)) <= 3
    ensures !Accepted(received)
  {
    hide Bits, Crc, Verdict, Distance;
    SealedIsAccepted(packet);
    DistanceToSelf(Bits(received));
    if Accepted(received) {
      MinimumDistance(Sealed(packet), received);
    }
  }

  lemma {:induction false} DistanceToSelf(s: seq<bool>)
    ensures Distance(s, s) == 0
  {
    if s != [] {
      DistanceToSelf(s[1..]);
    }
  }

  // Why the length is limited: two errors go unnoticed exactly when their distance is a
  // multiple of the order of x.
  function Zeros(n: nat): (z: seq<bool>)
    ensures |z| == n && forall i :: 0 <= i < n ==> !z[i]
  {
    seq(n, _ => false)
  }

  lemma TwoErrorsExactly(before: nat, gap: nat, behind: nat)
    requires gap > 0
    ensures Lfsr(Zeros(before) + [true] + Zeros(gap - 1) + [true] + Zeros(behind), 0) == 0 <==> gap % ORDER == 0
  {
    hide Lfsr, X, Shift, Feed, Zeros;
    var head := Zeros(before) + [true];
    var middle := head + Zeros(gap - 1);
    LfsrAppend(middle + [true], Zeros(behind), 0);
    LfsrAppend(middle, [true], 0);
    LfsrAppend(head, Zeros(gap - 1), 0);
    LfsrAppend(Zeros(before), [true], 0);
    ZerosShift(before, 0);
    ShiftOfZero(before);
    FeedZero();
    LfsrOne(true, 0);
    assert Lfsr(head, 0) == X(16);
    ZerosShift(gap - 1, X(16));
    XShift(16, gap - 1);
    LfsrOne(true, X(16 + gap - 1));
    SecondFeed(gap, X(16 + gap - 1), Feed(X(16 + gap - 1), true), X(16 + gap), X(16));
    ZerosShift(behind, Feed(X(16 + gap - 1), true));
    ShiftOfZero(behind);
    if Shift(behind, Feed(X(16 + gap - 1), true)) == 0 {
      ShiftInjective(behind, Feed(X(16 + gap - 1), true), 0);
    }
  }

  lemma ZerosShift(n: nat, r: Word)
    ensures Lfsr(Zeros(n), r) == Shift(n, r)
  {
    Quiet(Zeros(n));
    NoError(Zeros(n), r);
  }

  lemma LfsrOne(bit: bool, r: Word)
    ensures Lfsr([bit], r) == Feed(r, bit)
  {
    hide Feed;
    LfsrStep(bit, [], r);
    LfsrNone(Feed(r, bit));
    assert [bit] + [] == [bit];
  }

  lemma SecondFeed(gap: nat, r: Word, f: Word, far: Word, near: Word)
    requires gap > 0 && r == X(16 + gap - 1) && f == Feed(r, true) && far == X(16 + gap) && near == X(16)
    ensures f == 0 <==> gap % ORDER == 0
  {
    hide X, Feed, Shift1;
    XSucc(16 + gap - 1);
    FeedIsSum(r, f, far, near);
    XorIsZero(far, near, f);
    OrderOfX(gap);
    if gap % ORDER == 0 {
      XSame(gap);
    } else if f == 0 {
      XCancel(16, 16 + gap);
    }
  }

  lemma FeedIsSum(r: Word, f: Word, far: Word, near: Word)
    requires f == Feed(r, true) && far == Shift1(r) && near == X(16)
    ensures f == far ^ near
  {
    hide X, Feed, Shift1;
    FeedTrue(r);
  }

  lemma XSame(gap: nat)
    requires X(gap) == X(0)
    ensures X(16 + gap) == X(16)
  {
    hide Shift;
    ShiftAdd(gap, 16, 0x8000);
    XZero();
  }

  /* ---- Bursts ---- */

  function ValueOf(w: seq<bool>): Word {
    if w == [] then 0 else (if w[0] then 1 else 0) | (ValueOf(w[1..]) << 1)
  }

  lemma {:induction false} NarrowWiden(v: Word, n: nat, m: nat)
    requires n <= m && Narrow(v, n)
    ensures Narrow(v, m)
    decreases m
  {
    if n == 0 {
      if m > 0 {
        ZeroHalf(v);
        NarrowWiden(v >> 1, 0, m - 1);
      }
    } else {
      NarrowWiden(v >> 1, n - 1, m - 1);
    }
  }

  lemma ZeroHalf(v: Word)
    requires v == 0
    ensures v >> 1 == 0
  {}

  lemma TopBitClear(v: Word)
    requires Narrow(v, 15)
    ensures v < 0x8000
  {}

  lemma Prepend(bit: bool, v: Word, w: Word)
    requires v < 0x8000
    requires w == (if bit then 1 else 0) | (v << 1)
    ensures w >> 1 == v && (w & 1 == 1) == bit
  {}

  // Every string of at most 16 bits is the low bits of a word.
  lemma {:induction false} ValueOfBits(w: seq<bool>)
    requires |w| <= 16
    ensures Narrow(ValueOf(w), |w|) && LowBits(ValueOf(w), |w|) == w
  {
    hide LowBits, Narrow, ValueOf;
    if w == [] {
      ValueOfNone();
      NoLowBits(0);
      NarrowStep(0, 0);
    } else {
      var bit, rest := w[0], w[1..];
      var v, v' := ValueOf(rest), ValueOf(w);
      assert w == [bit] + rest;
      ValueOfCons(bit, rest, v);
      ValueOfBits(rest);
      NarrowWiden(v, |rest|, 15);
      TopBitClear(v);
      Prepend(bit, v, v');
      LowBitsStep(v', |w|);
      NarrowStep(v', |w|);
    }
  }

  lemma ValueOfNone()
    ensures ValueOf([]) == 0
  {}

  lemma ValueOfCons(bit: bool, rest: seq<bool>, v: Word)
    requires v == ValueOf(rest)
    ensures ValueOf([bit] + rest) == (if bit then 1 else 0) | (v << 1)
  {
    assert ([bit] + rest)[1..] == rest;
  }

  lemma {:induction false} WeightOfZero(n: nat)
    ensures Weight(LowBits(0, n)) == 0
  {
    if n > 0 {
      WeightOfZero(n - 1);
      ZeroHalf(0);
      LowBitsStep(0, n);
    }
  }

  lemma {:induction false} WeightAppend(s: seq<bool>, t: seq<bool>)
    ensures Weight(s + t) == Weight(s) + Weight(t)
  {
    if s == [] {
      assert s + t == t;
    } else {
      assert (s + t)[1..] == s[1..] + t;
      WeightAppend(s[1..], t);
    }
  }

  lemma BurstWord(w: seq<bool>)
    requires |w| <= 16 && Lfsr(w, 0) == 0
    ensures Weight(w) == 0
  {
    hide Lfsr, LowBits, Weight, ValueOf, Narrow, Shift;
    var v := ValueOf(w);
    ValueOfBits(w);
    XorZeroLeft(v);
    LfsrLowBits(v, |w|, 0, v);
    ShiftOfZero(|w|);
    ShiftInjective(|w|, v, 0);
    WeightOfZero(|w|);
  }

  // An error burst within 16 consecutive bits always shows.
  lemma Burst(pre: seq<bool>, w: seq<bool>, post: seq<bool>)
    requires Weight(pre) == 0 && Weight(post) == 0 && |w| <= 16
    requires Lfsr(pre + w + post, 0) == 0
    ensures Weight(pre + w + post) == 0
  {
    hide Lfsr, Weight;
    LfsrAppend(pre + w, post, 0);
    LfsrAppend(pre, w, 0);
    NoError(pre, 0);
    ShiftOfZero(|pre|);
    NoError(post, Lfsr(w, 0));
    ShiftOfZero(|post|);
    ShiftInjective(|post|, Lfsr(w, 0), 0);
    BurstWord(w);
    WeightAppend(pre + w, post);
    WeightAppend(pre, w);
  }

  lemma {:induction false} Quiet(e: seq<bool>)
    requires forall i :: 0 <= i < |e| ==> !e[i]
    ensures Weight(e) == 0
  {
    if e != [] {
      Quiet(e[1..]);
    }
  }

  // Two accepted packets of equal length that agree outside 16 consecutive bits are equal.
  lemma BurstDetection(a: seq<Byte>, b: seq<Byte>, p: nat)
    requires |a| == |b| && Accepted(a) && Accepted(b)
    requires p + 16 <= 8 * |a|
    requires forall i :: 0 <= i < 8 * |a| && !(p <= i < p + 16) ==> Bits(a)[i] == Bits(b)[i]
    ensures a == b
  {
    hide Accepted, Lfsr, Bits, Weight;
    var e := Errors(Bits(a), Bits(b));
    AcceptedDifference(a, b);
    var pre, w, post := e[..p], e[p..p + 16], e[p + 16..];
    assert e == pre + w + post;
    Quiet(pre);
    Quiet(post);
    Burst(pre, w, post);
    EqualIfNoError(Bits(a), Bits(b));
    BitsInjective(a, b);
  }
}
