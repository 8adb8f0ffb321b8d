/** The word operations of the digest are those of native 32-bit vectors, like the unsigned integers of the source: the
    bitwise operations, shifts and circular shifts for all vectors. A round can so be worked out on vectors. */
module Sha1Native {
  import opened Flatten
  import opened Sha1
  import opened Vector32

  // ---- Digits ----

  function Bit(b: bool): nat {
    if b then 1 else 0
  }

  /** The number that the last `n` digits of a vector stand for. */
  function Number(n: nat, a: bv32): nat {
    if n == 0 then 0 else 2 * Number(n - 1, Half(a)) + Bit(Odd(a))
  }

  lemma {:induction false} NumberFits(n: nat, a: bv32)
    ensures Number(n, a) < Pow2(n)
  {
    if n > 0 {
      NumberFits(n - 1, Half(a));
    }
  }

  lemma NumberIs(n: nat, a: bv32)
    requires n > 0
    ensures Number(n, a) == 2 * Number(n - 1, Half(a)) + Bit(Odd(a))
    ensures Number(n, a) / 2 == Number(n - 1, Half(a)) && (Number(n, a) % 2 == 1 <==> Odd(a))
  {
  }

  const DIGITS: nat := 32

  function Val(a: bv32): word {
    Pow32();
    NumberFits(DIGITS, a);
    Number(DIGITS, a)
  }

  /** At least the last `n` digits of `k` are ones. */
  ghost predicate Covers(k: bv32, n: nat) {
    n == 0 || (Odd(k) && Covers(Half(k), n - 1))
  }

  lemma {:induction false} CoversFewer(k: bv32, n: nat, m: nat)
    requires Covers(k, n) && m <= n
    ensures Covers(k, m)
    decreases n
  {
    hide Odd, Half;
    if m > 0 {
      CoversFewer(Half(k), n - 1, m - 1);
    }
  }

  lemma {:induction false} AgreeNumber(n: nat, k: bv32, a: bv32, b: bv32)
    requires Covers(k, n) && Agree(k, a, b)
    ensures Number(n, a) == Number(n, b)
  {
    hide Odd, Half, Agree;
    if n > 0 {
      AgreeHalf(k, a, b);
      AgreeNumber(n - 1, Half(k), Half(a), Half(b));
    }
  }

  lemma LowCovers(n: nat)
    requires n <= 31
    ensures Covers(LOW, n)
  {
    assert Covers(0x7F, 7);
    assert Covers(0x7FFF, 15);
    assert Covers(0x7F_FFFF, 23);
    assert Covers(0x7FFF_FFFF, 31);
    CoversFewer(LOW, 31, n);
  }

  lemma {:induction false} AndNumber(n: nat, op: (bool, bool) -> bool, a: bv32, b: bv32)
    requires forall p, q :: op(p, q) == (p && q)
    ensures Bitwise(n, op, Number(n, a), Number(n, b)) == Number(n, AndV(a, b))
  {
    if n > 0 {
      hide Odd, Half, AndV, Number;
      AndDigit(a, b);
      NumberIs(n, a);
      NumberIs(n, b);
      NumberIs(n, AndV(a, b));
      AndNumber(n - 1, op, Half(a), Half(b));
    }
  }

  lemma AndIs(a: bv32, b: bv32)
    ensures And(Val(a), Val(b)) == Val(AndV(a, b))
  {
    hide AndV, Bitwise, Number;
    AndNumber(32, (a: bool, b: bool) => a && b, a, b);
  }

  lemma {:induction false} OrNumber(n: nat, op: (bool, bool) -> bool, a: bv32, b: bv32)
    requires forall p, q :: op(p, q) == (p || q)
    ensures Bitwise(n, op, Number(n, a), Number(n, b)) == Number(n, OrV(a, b))
  {
    if n > 0 {
      hide Odd, Half, OrV, Number;
      OrDigits(a, b);
      NumberIs(n, a);
      NumberIs(n, b);
      NumberIs(n, OrV(a, b));
      OrNumber(n - 1, op, Half(a), Half(b));
    }
  }

  lemma OrIs(a: bv32, b: bv32)
    ensures Or(Val(a), Val(b)) == Val(OrV(a, b))
  {
    hide OrV, Bitwise, Number;
    OrNumber(32, (a: bool, b: bool) => a || b, a, b);
  }

  lemma {:induction false} XorNumber(n: nat, op: (bool, bool) -> bool, a: bv32, b: bv32)
    requires forall p, q :: op(p, q) == (p != q)
    ensures Bitwise(n, op, Number(n, a), Number(n, b)) == Number(n, XorV(a, b))
  {
    if n > 0 {
      hide Odd, Half, XorV, Number;
      XorDigit(a, b);
      NumberIs(n, a);
      NumberIs(n, b);
      NumberIs(n, XorV(a, b));
      XorNumber(n - 1, op, Half(a), Half(b));
    }
  }

  lemma XorIs(a: bv32, b: bv32)
    ensures Xor(Val(a), Val(b)) == Val(XorV(a, b))
  {
    hide XorV, Bitwise, Number;
    XorNumber(32, (a: bool, b: bool) => a != b, a, b);
  }

  lemma {:induction false} NotNumber(n: nat, a: bv32)
    requires n <= 32
    ensures Number(n, NotV(a)) == Pow2(n) - 1 - Number(n, a)
  {
    hide Odd, Half, NotV, Agree, Covers;
    if n > 0 {
      NotDigit(a);
      LowCovers(n - 1);
      AgreeNumber(n - 1, LOW, Half(NotV(a)), NotV(Half(a)));
      NotNumber(n - 1, Half(a));
    }
  }

  lemma NotIs(a: bv32)
    ensures Not(Val(a)) == Val(NotV(a))
  {
    hide NotV, Number, Pow2;
    Pow32();
    NotNumber(32, a);
  }

  // ---- Shifts ----

  lemma {:induction false} NumberMod(n: nat, a: bv32)
    ensures Number(n, a) == Number(n + 1, a) % Pow2(n)
  {
    if n == 0 {
      assert Pow2(0) == 1;
    } else {
      hide Odd, Half;
      NumberMod(n - 1, Half(a));
      EvenMod(Number(n, Half(a)), Bit(Odd(a)), Pow2(n - 1));
    }
  }

  lemma EvenMod(x: nat, b: nat, m: nat)
    requires m > 0 && b <= 1
    ensures (2 * x + b) % (2 * m) == 2 * (x % m) + b
  {
    var d, r := x / m, x % m;
    assert x == m * d + r;
    assert 2 * x + b == (2 * m) * d + (2 * r + b);
    RemainderIs(2 * x + b, 2 * m, d, 2 * r + b);
  }

  lemma DoubleIs(a: bv32)
    ensures Sum(2 * Val(a)) == Val(Double(a))
  {
    hide Number, Double, Half, Odd, Agree, Covers, Pow2;
    DoubleDigit(a);
    NumberIs(32, Double(a));
    LowCovers(31);
    AgreeNumber(31, LOW, Half(Double(a)), a);
    NumberMod(31, a);
    Pow32();
    PowNext(31);
    EvenMod(Number(32, a), 0, Pow2(31));
  }

  lemma PowNext(n: nat)
    ensures Pow2(n + 1) == 2 * Pow2(n)
  {
  }

  function LeftV(a: bv32, k: nat): bv32 {
    if k == 0 then a else Double(LeftV(a, k - 1))
  }

  function RightV(a: bv32, k: nat): bv32 {
    if k == 0 then a else Half(RightV(a, k - 1))
  }

  lemma SumDouble(x: nat)
    ensures Sum(2 * Sum(x)) == Sum(2 * x)
  {
  }

  lemma {:induction false} LeftIs(a: bv32, k: nat)
    requires k < 32
    ensures Left(Val(a), k) == Val(LeftV(a, k))
  {
    if k > 0 {
      hide Val, Double, Left, Sum;
      LeftIs(a, k - 1);
      DoubleIs(LeftV(a, k - 1));
      LeftStep(Val(a), k);
    } else {
      assert Pow2(0) == 1;
    }
  }

  lemma LeftStep(x: word, k: nat)
    requires 0 < k < 32
    ensures Left(x, k) == Sum(2 * Left(x, k - 1))
  {
    var y := x * Pow2(k - 1);
    DoubledProduct(x, Pow2(k - 1));
    SumDouble(y);
  }

  lemma DoubledProduct(x: nat, p: nat)
    ensures x * (2 * p) == 2 * (x * p)
  {
  }

  /** Only the last `n` digits may be ones. */
  ghost predicate Short(n: nat, a: bv32) {
    if n == 0 then a == 0 else Short(n - 1, Half(a))
  }

  lemma {:induction false} ShortNumber(n: nat, a: bv32)
    requires Short(n, a)
    ensures Number(n + 1, a) == Number(n, a)
  {
    hide Odd, Half;
    if n > 0 {
      ShortNumber(n - 1, Half(a));
    } else {
      ZeroNumber();
    }
  }

  lemma ZeroNumber()
    ensures Number(1, 0) == 0
  {
  }

  lemma {:induction false} ShortEnough(n: nat, k: nat, a: bv32)
    requires RightV(a, n + k) == 0
    ensures Short(n, RightV(a, k))
    decreases n
  {
    hide Half;
    if n > 0 {
      ShortEnough(n - 1, k + 1, a);
    }
  }

  lemma HalfIs(a: bv32)
    ensures Val(a) / 2 == Val(Half(a))
  {
    hide Half, Odd, Number;
    NumberIs(32, a);
    NoneLeft(a);
    ShortEnough(31, 1, a);
    ShortNumber(31, Half(a));
  }

  lemma NoneLeft(a: bv32)
    ensures RightV(a, 32) == 0 && RightV(a, 1) == Half(a)
  {
    hide Half, RightByte;
    RightEight(a, 0);
    RightEight(a, 8);
    RightEight(a, 16);
    RightEight(a, 24);
    AllGone(a);
  }

  lemma RightEight(a: bv32, k: nat)
    ensures RightV(a, k + 8) == RightByte(RightV(a, k))
  {
    hide Half, RightByte;
    var x := RightV(a, k);
    assert RightV(a, k + 1) == Half(x);
    assert RightV(a, k + 3) == Half(Half(Half(x)));
    assert RightV(a, k + 5) == Half(Half(Half(Half(Half(x)))));
    assert RightV(a, k + 7) == Half(Half(Half(Half(Half(Half(Half(x)))))));
    HalfEight(x);
  }

  lemma LeftEight(a: bv32, k: nat)
    ensures LeftV(a, k + 8) == LeftByte(LeftV(a, k))
  {
    hide Double, LeftByte;
    var x := LeftV(a, k);
    assert LeftV(a, k + 1) == Double(x);
    assert LeftV(a, k + 3) == Double(Double(Double(x)));
    assert LeftV(a, k + 5) == Double(Double(Double(Double(Double(x)))));
    assert LeftV(a, k + 7) == Double(Double(Double(Double(Double(Double(Double(x)))))));
    DoubleEight(x);
  }

  lemma {:induction false} RightIs(a: bv32, k: nat)
    requires k < 32
    ensures Right(Val(a), k) == Val(RightV(a, k))
  {
    if k > 0 {
      RightIs(a, k - 1);
      hide Val, Half;
      HalfIs(RightV(a, k - 1));
      QuotientHalf(Val(a), Pow2(k - 1));
    } else {
      assert Pow2(0) == 1;
    }
  }

  lemma QuotientHalf(x: nat, p: nat)
    requires p > 0
    ensures x / p / 2 == x / (2 * p)
  {
    var d, r := x / p, x % p;
    assert x == p * d + r;
    var e, q := d / 2, d % 2;
    assert p * d == 2 * p * e + p * q;
    QuotientIs(x, 2 * p, e, p * q + r);
  }

  lemma LeftBytes(a: bv32)
    ensures LeftV(a, 8) == LeftByte(a) && LeftV(a, 16) == LeftByte(LeftByte(a)) && LeftV(a, 24) == LeftByte(LeftByte(LeftByte(a)))
  {
    hide Double, LeftByte;
    LeftEight(a, 0);
    LeftEight(a, 8);
    LeftEight(a, 16);
  }

  lemma RightBytes(a: bv32)
    ensures RightV(a, 24) == RightByte(RightByte(RightByte(a)))
  {
    hide Half, RightByte;
    RightEight(a, 0);
    RightEight(a, 8);
    RightEight(a, 16);
  }

  /** CircularShift on vectors. */
  lemma CircularIs(a: bv32, bits: nat)
    requires 0 < bits < 32
    ensures CircularShift(bits, Val(a)) == Val(OrV(LeftV(a, bits), RightV(a, 32 - bits)))
  {
    hide Val, LeftV, RightV, Left, Right, Or, OrV;
    LeftIs(a, bits);
    RightIs(a, 32 - bits);
    OrIs(LeftV(a, bits), RightV(a, 32 - bits));
  }

  lemma ByOne(a: bv32)
    ensures CircularShift(1, Val(a)) == Val(RotateOne(a))
  {
    hide Val, CircularShift, OrV, Double, Half, RightByte, RotateOne;
    CircularIs(a, 1);
    RightBytes(a);
    var r := RightV(a, 24);
    assert LeftV(a, 1) == Double(a);
    assert RightV(a, 26) == Half(Half(r)) && RightV(a, 28) == Half(Half(Half(Half(r))));
    assert RightV(a, 30) == Half(Half(Half(Half(Half(Half(r))))));
    RotatedOne(a);
  }

  lemma ByFive(a: bv32)
    ensures CircularShift(5, Val(a)) == Val(RotateFive(a))
  {
    hide Val, CircularShift, OrV, Double, Half, RightByte, RotateFive;
    CircularIs(a, 5);
    RightBytes(a);
    assert LeftV(a, 1) == Double(a) && LeftV(a, 3) == Double(Double(Double(a)));
    assert RightV(a, 26) == Half(Half(RightV(a, 24)));
    RotatedFive(a);
  }

  lemma ByThirty(a: bv32)
    ensures CircularShift(30, Val(a)) == Val(RotateThirty(a))
  {
    hide Val, CircularShift, OrV, Double, Half, LeftByte, RotateThirty;
    CircularIs(a, 30);
    LeftBytes(a);
    var l := LeftV(a, 24);
    assert LeftV(a, 26) == Double(Double(l)) && LeftV(a, 28) == Double(Double(Double(Double(l))));
    assert RightV(a, 1) == Half(a);
    RotatedThirty(a);
  }

  // ---- Bytes ----

  lemma {:induction false} RightInner(a: bv32, k: nat)
    ensures RightV(Half(a), k) == RightV(a, k + 1)
  {
    hide Half;
    if k > 0 {
      RightInner(a, k - 1);
    }
  }

  lemma {:induction false} NumberParts(n: nat, k: nat, a: bv32)
    ensures Number(n + k, a) == Pow2(k) * Number(n, RightV(a, k)) + Number(k, a)
    decreases k
  {
    if k == 0 {
      assert Pow2(0) == 1;
    } else {
      NumberIs(n + k, a);
      NumberIs(k, a);
      hide Half, Odd, Number, RightV, Pow2;
      NumberParts(n, k - 1, Half(a));
      RightInner(a, k - 1);
      PowNext(k - 1);
      Combined(Pow2(k - 1), Number(n, RightV(a, k)), Number(k - 1, Half(a)), Bit(Odd(a)));
    }
  }

  lemma Combined(p: nat, x: nat, r: nat, b: nat)
    ensures 2 * (p * x + r) + b == 2 * p * x + (2 * r + b)
  {
  }

  lemma {:induction false} WideNumber(n: nat, x: bv8)
    requires Int(x) < Pow2(n)
    ensures Number(n, Wide(x)) == Int(x)
  {
    hide Wide, Int, HalfByte, OddByte, Half, Odd;
    if n == 0 {
      IntZero(x);
    } else {
      IntHalf(x);
      WideHalf(x);
      WideNumber(n - 1, HalfByte(x));
    }
  }

  lemma ByteNumber(n: nat, a: bv32)
    ensures Number(n + 8, a) == 256 * Number(n, RightByte(a)) + Int(LastByte(a))
  {
    hide Number, RightByte, LastByte, Wide, Int, Half, Odd, Agree, Covers;
    NumberParts(n, 8, a);
    RightEight(a, 0);
    EightCovered();
    LastAgrees(a);
    AgreeNumber(8, 0xFF, a, Wide(LastByte(a)));
    WideNumber(8, LastByte(a));
  }

  lemma EightCovered()
    ensures Covers(0xFF, 8) && Pow2(8) == 256
  {
    assert Pow2(4) == 16;
    Pow2Sum(4, 4);
  }

  lemma ValIs(a: bv32)
    ensures Val(a) == Decimal(a)
  {
    hide Number, RightByte, LastByte, Int, Decimal;
    var b := RightByte(a);
    var c := RightByte(b);
    ByteNumber(24, a);
    ByteNumber(16, b);
    ByteNumber(8, c);
    ByteNumber(0, RightByte(c));
    NoNumber(RightByte(RightByte(c)));
    DecimalIs(a);
  }

  lemma NoNumber(a: bv32)
    ensures Number(0, a) == 0
  {
  }

  // ---- The functions of SHA-1 ----

  lemma FIs(t: nat, b: bv32, c: bv32, d: bv32)
    ensures F(t, Val(b), Val(c), Val(d)) == Val(FVector(t, b, c, d))
  {
    hide Val, And, Or, Xor, Not, AndV, OrV, XorV, NotV;
    NotIs(b);
    AndIs(b, c);
    AndIs(NotV(b), d);
    AndIs(b, d);
    AndIs(c, d);
    OrIs(AndV(b, c), AndV(NotV(b), d));
    OrIs(AndV(b, c), AndV(b, d));
    OrIs(OrV(AndV(b, c), AndV(b, d)), AndV(c, d));
    XorIs(b, c);
    XorIs(XorV(b, c), d);
  }

  lemma MixedIs(w3: bv32, w8: bv32, w14: bv32, w16: bv32)
    ensures CircularShift(1, Xor(Xor(Xor(Val(w3), Val(w8)), Val(w14)), Val(w16))) == Val(Mixed(w3, w8, w14, w16))
  {
    hide Val, Xor, XorV, RotateOne, CircularShift;
    XorIs(w3, w8);
    XorIs(XorV(w3, w8), w14);
    XorIs(XorV(XorV(w3, w8), w14), w16);
    ByOne(XorV(XorV(XorV(w3, w8), w14), w16));
  }

  datatype Vectors = Vectors(a: bv32, b: bv32, c: bv32, d: bv32, e: bv32)

  function Numbers(v: Vectors): Words {
    Words(Val(v.a), Val(v.b), Val(v.c), Val(v.d), Val(v.e))
  }

  /** One round: `a` is the vector of the sum. */
  lemma RoundIs(v: Vectors, t: nat, w: bv32, a: bv32)
    requires Decimal(a) ==
      Sum(Decimal(RotateFive(v.a)) + Decimal(FVector(t, v.b, v.c, v.d)) + Decimal(v.e) + Decimal(w) + K(t))
    ensures Round(Numbers(v), t, Val(w)) == Numbers(Vectors(a, v.a, RotateThirty(v.b), v.c, v.d))
  {
    hide Val, Decimal, RotateFive, RotateThirty, FVector, K, CircularShift, F, Sum;
    ByFive(v.a);
    ByThirty(v.b);
    FIs(t, v.b, v.c, v.d);
    ValIs(a);
    ValIs(RotateFive(v.a));
    ValIs(FVector(t, v.b, v.c, v.d));
    ValIs(v.e);
    ValIs(w);
  }
}
