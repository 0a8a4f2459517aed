/** The algebra behind the checksum: it is linear, and x has order 32767 modulo its
    polynomial (main/protocol.c:46-94). */
module CrcAlgebra {
  import opened Crc16
  import opened CrcCode

  /* ---- Error patterns ---- */

  // Number of positions in which two bit strings of equal length differ.
  function Distance(s: seq<bool>, t: seq<bool>): nat
    requires |s| == |t|
  {
    if s == [] then 0 else (if s[0] != t[0] then 1 else 0) + Distance(s[1..], t[1..])
  }

  function Errors(s: seq<bool>, t: seq<bool>): (e: seq<bool>)
    requires |s| == |t|
    ensures |e| == |s| && forall i :: 0 <= i < |s| ==> e[i] == (s[i] != t[i])
  {
    seq(|s|, i requires 0 <= i < |s| => s[i] != t[i])
  }

  function Weight(e: seq<bool>): nat {
    if e == [] then 0 else (if e[0] then 1 else 0) + Weight(e[1..])
  }

  lemma {:induction false} DistanceIsWeight(s: seq<bool>, t: seq<bool>)
    requires |s| == |t|
    ensures Distance(s, t) == Weight(Errors(s, t))
  {
    if s != [] {
      DistanceIsWeight(s[1..], t[1..]);
      assert Errors(s, t)[1..] == Errors(s[1..], t[1..]);
    }
  }

  lemma FeedLinear(r: Word, q: Word, d: Word, x: bool, y: bool)
    requires d == r ^ q
    ensures Feed(d, x != y) == Feed(r, x) ^ Feed(q, y)
  {}

  lemma {:induction false} LfsrLinear(s: seq<bool>, t: seq<bool>, r: Word, q: Word, d: Word)
    requires |s| == |t| && d == r ^ q
    ensures Lfsr(Errors(s, t), d) == Lfsr(s, r) ^ Lfsr(t, q)
  {
    hide Feed, Lfsr, Errors;
    if s == [] {
      NoErrors(s, t);
      LfsrNone(r);
      LfsrNone(q);
      LfsrNone(d);
    } else {
      var x, y, s', t' := s[0], t[0], s[1..], t[1..];
      assert s == [x] + s' && t == [y] + t';
      FeedLinear(r, q, d, x, y);
      LfsrLinear(s', t', Feed(r, x), Feed(q, y), Feed(d, x != y));
      ErrorsOfCons(x, y, s', t');
      LfsrStep(x, s', r);
      LfsrStep(y, t', q);
      LfsrStep(x != y, Errors(s', t'), d);
    }
  }

  lemma LfsrNone(r: Word)
    ensures Lfsr([], r) == r
  {}

  function XorBytes(a: seq<Byte>, b: seq<Byte>): (c: seq<Byte>)
    requires |a| == |b|
    ensures |c| == |a|
  {
    if a == [] then [] else [a[0] ^ b[0]] + XorBytes(a[1..], b[1..])
  }

  // The checksum is linear: xoring two inputs of equal length xors their checksums.
  lemma CrcLinear(a: seq<Byte>, b: seq<Byte>, r: Word, q: Word, d: Word)
    requires |a| == |b| && d == r ^ q
    ensures Crc(XorBytes(a, b), d) == Crc(a, r) ^ Crc(b, q)
  {
    hide Lfsr, XorBytes;
    BitsOfXor(a, b);
    LfsrLinear(Bits(a), Bits(b), r, q, d);
  }

  lemma {:induction false} LowBitsOfXor(v: Word, w: Word, x: Word, n: nat)
    requires x == v ^ w
    ensures LowBits(x, n) == Errors(LowBits(v, n), LowBits(w, n))
    decreases n
  {
    hide Errors, LowBits;
    if n == 0 {
      NoLowBits(v);
      NoLowBits(w);
      NoLowBits(x);
      NoErrors(LowBits(v, 0), LowBits(w, 0));
    } else {
      var v', w', x' := v >> 1, w >> 1, x >> 1;
      LowBitOfXor(v, w, x);
      LowBitsOfXor(v', w', x', n - 1);
      ErrorsOfCons(v & 1 == 1, w & 1 == 1, LowBits(v', n - 1), LowBits(w', n - 1));
      LowBitsStep(v, n);
      LowBitsStep(w, n);
      LowBitsStep(x, n);
    }
  }

  lemma NoLowBits(v: Word)
    ensures LowBits(v, 0) == []
  {}

  lemma LowBitsStep(v: Word, n: nat)
    requires n > 0
    ensures LowBits(v, n) == [v & 1 == 1] + LowBits(v >> 1, n - 1)
  {
  }

  lemma LowBitOfXor(v: Word, w: Word, x: Word)
    requires x == v ^ w
    ensures x >> 1 == (v >> 1) ^ (w >> 1)
    ensures (x & 1 == 1) == ((v & 1 == 1) != (w & 1 == 1))
  {}

  lemma ErrorsOfCons(x: bool, y: bool, s: seq<bool>, t: seq<bool>)
    requires |s| == |t|
    ensures Errors([x] + s, [y] + t) == [x != y] + Errors(s, t)
  {}

  lemma ErrorsOfAppend(s: seq<bool>, t: seq<bool>, s': seq<bool>, t': seq<bool>)
    requires |s| == |t| && |s'| == |t'|
    ensures Errors(s + s', t + t') == Errors(s, t) + Errors(s', t')
  {}

  lemma WidenXor(x: Byte, y: Byte, z: Byte)
    requires z == x ^ y
    ensures z as Word == (x as Word) ^ (y as Word)
  {}

  lemma BitsOfCons(x: Byte, rest: seq<Byte>)
    ensures Bits([x] + rest) == LowBits(x as Word, 8) + Bits(rest)
  {
    hide LowBits;
    assert ([x] + rest)[1..] == rest;
  }

  lemma {:induction false} BitsOfXor(a: seq<Byte>, b: seq<Byte>)
    requires |a| == |b|
    ensures Bits(XorBytes(a, b)) == Errors(Bits(a), Bits(b))
  {
    hide LowBits, Errors, Bits, XorBytes;
    if a == [] {
      NoBytes(a);
      NoBytes(b);
      NoBytes(XorBytes(a, b));
      NoErrors(Bits(a), Bits(b));
    } else {
      var x, y, a', b' := a[0], b[0], a[1..], b[1..];
      assert a == [x] + a' && b == [y] + b';
      BitsOfXor(a', b');
      BitsOfCons(x, a');
      BitsOfCons(y, b');
      XorBytesCons(x, y, x ^ y, a', b');
      BitsOfCons(x ^ y, XorBytes(a', b'));
      ByteBitsOfXor(x, y, x ^ y);
      ErrorsOfAppend(LowBits(x as Word, 8), LowBits(y as Word, 8), Bits(a'), Bits(b'));
    }
  }

  lemma XorBytesCons(x: Byte, y: Byte, z: Byte, a: seq<Byte>, b: seq<Byte>)
    requires |a| == |b| && z == x ^ y
    ensures XorBytes([x] + a, [y] + b) == [z] + XorBytes(a, b)
  {
    assert ([x] + a)[1..] == a && ([y] + b)[1..] == b;
  }

  lemma NoBytes(a: seq<Byte>)
    requires a == []
    ensures Bits(a) == []
  {}

  lemma ByteBitsOfXor(x: Byte, y: Byte, z: Byte)
    requires z == x ^ y
    ensures LowBits(z as Word, 8) == Errors(LowBits(x as Word, 8), LowBits(y as Word, 8))
  {
    hide LowBits, Errors;
    WidenXor(x, y, z);
    LowBitsOfXor(x as Word, y as Word, z as Word, 8);
  }

  lemma NoErrors(s: seq<bool>, t: seq<bool>)
    requires s == [] && t == []
    ensures Errors(s, t) == []
  {}

  /* ---- Powers of x modulo the polynomial ---- */

  // x^n; the coefficient of x^0 is the top bit.
  function X(n: nat): Word {
    Shift(n, 0x8000)
  }

  lemma {:induction false} ShiftAdd(m: nat, n: nat, r: Word)
    ensures Shift(m + n, r) == Shift(n, Shift(m, r))
  {
    hide Shift1;
    if m > 0 {
      assert m + n - 1 == m - 1 + n;
      ShiftAdd(m - 1, n, Shift1(r));
    }
  }

  lemma XSucc(n: nat)
    ensures X(n + 1) == Shift1(X(n))
  {
    hide Shift1;
    ShiftAdd(n, 1, 0x8000);
    ShiftOne(X(n));
  }

  lemma ShiftOne(r: Word)
    ensures Shift(1, r) == Shift1(r)
  {}

  lemma XCancel(j: nat, k: nat)
    requires j <= k && X(j) == X(k)
    ensures X(k - j) == X(0)
  {
    hide Shift;
    ShiftAdd(k - j, j, 0x8000);
    ShiftInjective(j, X(k - j), 0x8000);
    assert X(0) == 0x8000 by { XZero(); }
  }

  lemma XZero()
    ensures X(0) == 0x8000
  {}

  // Squaring modulo the polynomial: coefficient i moves to x^(2i).
  function Square(v: Word): Word {
      (0x8000 * ((v >> 15) & 1)) ^ (0x2000 * ((v >> 14) & 1))
    ^ (0x0800 * ((v >> 13) & 1)) ^ (0x0200 * ((v >> 12) & 1))
    ^ (0x0080 * ((v >> 11) & 1)) ^ (0x0020 * ((v >> 10) & 1))
    ^ (0x0008 * ((v >> 9) & 1)) ^ (0x0002 * ((v >> 8) & 1))
    ^ (0xA001 * ((v >> 7) & 1)) ^ (0xD801 * ((v >> 6) & 1))
    ^ (0xC601 * ((v >> 5) & 1)) ^ (0xC181 * ((v >> 4) & 1))
    ^ (0xC061 * ((v >> 3) & 1)) ^ (0xC019 * ((v >> 2) & 1))
    ^ (0xC007 * ((v >> 1) & 1)) ^ (0x6001 * (v & 1))
  }

  lemma SquareShift1(v: Word)
    ensures Square(Shift1(v)) == Shift1(Shift1(Square(v)))
  {}

  lemma {:induction false} SquareX(n: nat)
    ensures X(2 * n) == Square(X(n))
  {
    hide X, Shift1, Square;
    if n == 0 {
      SquareXZero();
    } else {
      SquareX(n - 1);
      XSucc(n - 1);
      XSucc(2 * n - 2);
      XSucc(2 * n - 1);
      SquareShift1(X(n - 1));
    }
  }

  lemma SquareXZero()
    ensures X(0) == Square(X(0))
  {}

  lemma {:induction false} XMultiple(m: nat, q: nat)
    requires X(m) == X(0)
    ensures X(m * q) == X(0)
  {
    hide Shift;
    if q > 0 {
      XMultiple(m, q - 1);
      XZero();
      assert m * q == m * (q - 1) + m;
      ShiftAdd(m * (q - 1), m, 0x8000);
    }
  }

  lemma XRemainder(m: nat, n: nat)
    requires m > 0 && X(m) == X(0)
    ensures X(n) == X(n % m)
  {
    hide Shift;
    XMultiple(m, n / m);
    XZero();
    assert n == m * (n / m) + n % m;
    ShiftAdd(m * (n / m), n % m, 0x8000);
  }

  const ORDER := 32767

  // x^32768 is x, by squaring 15 times; so x^32767 is 1.
  lemma XOrder()
    ensures X(ORDER) == X(0)
  {
    hide Square, Shift;
    SquareX(1); SquareX(2); SquareX(4); SquareX(8); SquareX(16);
    SquareX(32); SquareX(64); SquareX(128); SquareX(256); SquareX(512);
    SquareX(1024); SquareX(2048); SquareX(4096); SquareX(8192); SquareX(16384);
    XOne();
    FifteenSquares();
    assert X(32768) == X(1);
    XCancel(1, 32768);
  }

  lemma XOne()
    ensures X(1) == 0x4000
  {}

  lemma FifteenSquares()
    ensures Square(Square(Square(Square(Square(Square(Square(Square(
              Square(Square(Square(Square(Square(Square(Square(0x4000))))))))))))))) == 0x4000
  {}

  lemma XEven(n: nat, v: Word, w: Word)
    requires X(n) == v && w == Square(v)
    ensures X(2 * n) == w
  {
    hide Square, X;
    SquareX(n);
  }

  lemma XOdd(n: nat, v: Word, w: Word)
    requires X(n) == v && w == Shift1(Square(v))
    ensures X(2 * n + 1) == w
  {
    hide Square, X, Shift1;
    SquareX(n);
    XSucc(2 * n);
  }

  lemma X217IsNotOne()
    ensures X(217) != X(0)
  {
    hide X;
    XOne();
    XOdd(1, 0x4000, 0x1000);
    XEven(3, 0x1000, 0x0200);
    XOdd(6, 0x0200, 0x0004);
    XOdd(13, 0x0004, 0xC00D);
    XEven(27, 0xC00D, 0xC079);
    XEven(54, 0xC079, 0xDFE1);
    XOdd(108, 0xDFE1, 0x3E55);
    XZero();
  }

  lemma X1057IsNotOne()
    ensures X(1057) != X(0)
  {
    hide X;
    XOne();
    XEven(1, 0x4000, 0x2000);
    XEven(2, 0x2000, 0x0800);
    XEven(4, 0x0800, 0x0080);
    XEven(8, 0x0080, 0xA001);
    XOdd(16, 0xA001, 0xD401);
    XEven(33, 0xD401, 0xC221);
    XEven(66, 0xC221, 0x0608);
    XEven(132, 0x0608, 0xC049);
    XEven(264, 0xC049, 0xD861);
    XOdd(528, 0xD861, 0xCE41);
    XZero();
  }

  lemma X4681IsNotOne()
    ensures X(4681) != X(0)
  {
    hide X;
    XOne();
    XEven(1, 0x4000, 0x2000);
    XEven(2, 0x2000, 0x0800);
    XOdd(4, 0x0800, 0x0040);
    XEven(9, 0x0040, 0xD801);
    XEven(18, 0xD801, 0xC281);
    XOdd(36, 0xC281, 0x3004);
    XEven(73, 0x3004, 0xCA19);
    XEven(146, 0xCA19, 0xC169);
    XOdd(292, 0xC169, 0x0F31);
    XEven(585, 0x0F31, 0x672B);
    XEven(1170, 0x672B, 0x8E4C);
    XOdd(2340, 0x8E4C, 0x8C69);
    XZero();
  }

  /* ---- The order of x is 32767 = 7 * 31 * 151 ---- */

  predicate IsSmallDivisor(c: int) {
    c == 1 || c == 7 || c == 31 || c == 151
  }

  lemma {:induction false} SmallDivisors(c: nat)
    requires 1 <= c <= 90 && ORDER % c == 0
    ensures IsSmallDivisor(c)
  {}

  lemma {:induction false} LargerDivisors(c: nat)
    requires 91 <= c <= 181 && ORDER % c == 0
    ensures IsSmallDivisor(c)
  {}

  lemma FactorDivides(m: nat, k: nat)
    requires m * k == ORDER
    ensures m > 0 && k > 0 && ORDER % m == 0
  {
    var q, rest := ORDER / m, ORDER % m;
    assert m * (k - q) == rest;
    assert k - q >= 1 ==> m * (k - q) >= m;
  }

  lemma TooBig(m: nat, k: nat)
    requires m > 181 && k > 181
    ensures m * k > ORDER
  {
    assert m * k >= 182 * k;
  }

  lemma Divisors(m: nat, k: nat)
    requires m * k == ORDER && m != ORDER
    ensures m > 0 && (217 % m == 0 || 1057 % m == 0 || 4681 % m == 0)
  {
    FactorDivides(m, k);
    FactorDivides(k, m);
    if m <= 181 {
      if m <= 90 { SmallDivisors(m); } else { LargerDivisors(m); }
    } else if k <= 181 {
      if k <= 90 { SmallDivisors(k); } else { LargerDivisors(k); }
    } else {
      TooBig(m, k);
    }
  }

  // The least n >= lo with x^n = 1, searched up to hi where it holds.
  lemma {:induction false} LeastPeriod(lo: nat, hi: nat) returns (m: nat)
    requires 1 <= lo <= hi && X(hi) == X(0)
    requires forall j :: 1 <= j < lo ==> X(j) != X(0)
    ensures lo <= m <= hi && X(m) == X(0)
    ensures forall j :: 1 <= j < m ==> X(j) != X(0)
    decreases hi - lo
  {
    hide X;
    if X(lo) == X(0) {
      m := lo;
    } else {
      m := LeastPeriod(lo + 1, hi);
    }
  }

  lemma NotOneBy(m: nat, n: nat)
    requires m > 0 && n % m == 0 && X(n) != X(0)
    ensures X(m) != X(0)
  {
    hide X;
    if X(m) == X(0) {
      XRemainder(m, n);
    }
  }

  lemma NoShortPeriod(d: nat)
    requires 1 <= d < ORDER
    ensures X(d) != X(0)
  {
    hide X;
    if X(d) == X(0) {
      var m := LeastPeriod(1, d);
      XOrder();
      XRemainder(m, ORDER);
      assert ORDER % m == 0;
      var k := ORDER / m;
      assert m * k == ORDER;
      Divisors(m, k);
      X217IsNotOne();
      X1057IsNotOne();
      X4681IsNotOne();
      if 217 % m == 0 { NotOneBy(m, 217); }
      else if 1057 % m == 0 { NotOneBy(m, 1057); }
      else { NotOneBy(m, 4681); }
    }
  }

  // The order of x is exactly 32767.
  lemma OrderOfX(n: nat)
    ensures X(n) == X(0) <==> n % ORDER == 0
  {
    hide X;
    XOrder();
    XRemainder(ORDER, n);
    if n % ORDER != 0 {
      NoShortPeriod(n % ORDER);
    }
  }
}
