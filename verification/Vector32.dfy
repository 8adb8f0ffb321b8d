/** Native 32-bit vectors, digit by digit. */
module Vector32 {
  predicate Odd(a: bv32) {
    a & 1 == 1
  }

  function Half(a: bv32): bv32 {
    a >> 1
  }

  /** `a` and `b` have the same digits where `k` has ones. */
  predicate Agree(k: bv32, a: bv32, b: bv32) {
    (a ^ b) & k == 0
  }

  lemma AgreeHalf(k: bv32, a: bv32, b: bv32)
    requires Agree(k, a, b) && Odd(k)
    ensures Agree(Half(k), Half(a), Half(b)) && (Odd(a) <==> Odd(b))
  {
  }

  const LOW: bv32 := 0x7FFF_FFFF

  function AndV(a: bv32, b: bv32): bv32 {
    a & b
  }

  function OrV(a: bv32, b: bv32): bv32 {
    a | b
  }

  function XorV(a: bv32, b: bv32): bv32 {
    a ^ b
  }

  function NotV(a: bv32): bv32 {
    !a
  }

  lemma AndDigit(a: bv32, b: bv32)
    ensures Half(AndV(a, b)) == AndV(Half(a), Half(b)) && (Odd(AndV(a, b)) <==> Odd(a) && Odd(b))
  {
  }

  lemma OrDigits(a: bv32, b: bv32)
    ensures Half(OrV(a, b)) == OrV(Half(a), Half(b)) && (Odd(OrV(a, b)) <==> Odd(a) || Odd(b))
  {
  }

  lemma XorDigit(a: bv32, b: bv32)
    ensures Half(XorV(a, b)) == XorV(Half(a), Half(b)) && (Odd(XorV(a, b)) <==> Odd(a) != Odd(b))
  {
  }

  lemma NotDigit(a: bv32)
    ensures Agree(LOW, Half(NotV(a)), NotV(Half(a))) && (Odd(NotV(a)) <==> !Odd(a))
  {
  }

  function Double(a: bv32): bv32 {
    a << 1
  }

  function LeftByte(a: bv32): bv32 {
    a << 8
  }

  function RightByte(a: bv32): bv32 {
    a >> 8
  }

  lemma DoubleDigit(a: bv32)
    ensures Agree(LOW, Half(Double(a)), a) && !Odd(Double(a))
  {
  }

  lemma HalfEight(x: bv32)
    ensures Half(Half(Half(Half(Half(Half(Half(Half(x)))))))) == RightByte(x)
  {
  }

  lemma DoubleEight(x: bv32)
    ensures Double(Double(Double(Double(Double(Double(Double(Double(x)))))))) == LeftByte(x)
  {
  }

  lemma AllGone(x: bv32)
    ensures RightByte(RightByte(RightByte(RightByte(x)))) == 0
  {
  }

  // ---- Rotations ----

  function RotateOne(a: bv32): bv32 {
    (a << 1) | (a >> 31)
  }

  function RotateFive(a: bv32): bv32 {
    (a << 5) | (a >> 27)
  }

  function RotateThirty(a: bv32): bv32 {
    (a << 30) | (a >> 2)
  }

  lemma RotatedOne(a: bv32)
    ensures RotateOne(a) == OrV(Double(a), Half(Half(Half(Half(Half(Half(Half(RightByte(RightByte(RightByte(a)))))))))))
  {
  }

  lemma RotatedFive(a: bv32)
    ensures RotateFive(a) == OrV(Double(Double(Double(Double(Double(a))))), Half(Half(Half(RightByte(RightByte(RightByte(a)))))))
  {
  }

  lemma RotatedThirty(a: bv32)
    ensures RotateThirty(a) ==
      OrV(Double(Double(Double(Double(Double(Double(LeftByte(LeftByte(LeftByte(a))))))))), Half(Half(a)))
  {
  }

  // ---- Bytes ----

  function LastByte(a: bv32): bv8 {
    (a & 0xFF) as bv8
  }

  function Wide(x: bv8): bv32 {
    x as bv32
  }

  predicate OddByte(x: bv8) {
    x & 1 == 1
  }

  function HalfByte(x: bv8): bv8 {
    x >> 1
  }

  /** The number that a byte stands for. */
  function Int(x: bv8): (n: nat)
    ensures n < 256
  {
    x as int
  }

  lemma IntHalf(x: bv8)
    ensures Int(x) == 2 * Int(HalfByte(x)) + if OddByte(x) then 1 else 0
  {
  }

  lemma IntZero(x: bv8)
    requires Int(x) < 1
    ensures Wide(x) == 0 && Int(x) == 0
  {
  }

  lemma WideHalf(x: bv8)
    ensures Half(Wide(x)) == Wide(HalfByte(x)) && Odd(Wide(x)) == OddByte(x)
  {
  }

  lemma LastAgrees(a: bv32)
    ensures Agree(0xFF, a, Wide(LastByte(a)))
  {
  }

  /** The number of the four bytes of a vector. */
  function Decimal(a: bv32): nat {
    256 * (256 * (256 * Int(((a >> 24) & 0xFF) as bv8) + Int(((a >> 16) & 0xFF) as bv8)) + Int(((a >> 8) & 0xFF) as bv8)) +
    Int((a & 0xFF) as bv8)
  }

  lemma DecimalIs(a: bv32)
    ensures var b := RightByte(a); var c := RightByte(b); var d := RightByte(c);
      Decimal(a) == 256 * (256 * (256 * Int(LastByte(d)) + Int(LastByte(c))) + Int(LastByte(b))) + Int(LastByte(a))
  {
    SameBytes(a);
    hide Int;
  }

  lemma SameBytes(a: bv32)
    ensures LastByte(a) == (a & 0xFF) as bv8 && LastByte(RightByte(a)) == ((a >> 8) & 0xFF) as bv8
    ensures LastByte(RightByte(RightByte(a))) == ((a >> 16) & 0xFF) as bv8
    ensures LastByte(RightByte(RightByte(RightByte(a)))) == ((a >> 24) & 0xFF) as bv8
  {
  }

  // ---- The functions of SHA-1 ----

  function FVector(t: nat, b: bv32, c: bv32, d: bv32): bv32 {
    if t < 20 then OrV(AndV(b, c), AndV(NotV(b), d))
    else if t < 40 then XorV(XorV(b, c), d)
    else if t < 60 then OrV(OrV(AndV(b, c), AndV(b, d)), AndV(c, d))
    else XorV(XorV(b, c), d)
  }

  function Mixed(w3: bv32, w8: bv32, w14: bv32, w16: bv32): bv32 {
    RotateOne(XorV(XorV(XorV(w3, w8), w14), w16))
  }
}
