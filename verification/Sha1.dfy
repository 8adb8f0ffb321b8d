/** The incremental SHA-1 of libbase/sha1.cpp against the digest of FIPS PUB 180-1. */
module Sha1 {
  import opened Flatten

  const U32 := 0x1_0000_0000
  const U64 := 0x1_0000_0000_0000_0000

  /** A 32-bit word. Sums are taken modulo 2^32; the bitwise operations go through the binary digits. */
  type word = x: int | 0 <= x < U32

  function Pow2(n: nat): (p: nat)
    ensures p > 0
  {
    if n == 0 then 1 else 2 * Pow2(n - 1)
  }

  lemma {:induction false} Pow2Sum(a: nat, b: nat)
    ensures Pow2(a + b) == Pow2(a) * Pow2(b)
  {
    if a > 0 {
      Pow2Sum(a - 1, b);
    }
  }

  lemma Pow32()
    ensures Pow2(32) == U32
  {
    assert Pow2(4) == 16;
    Pow2Sum(4, 4);
    Pow2Sum(8, 8);
    Pow2Sum(16, 16);
  }

  /** The number of `n` binary digits whose digits are `op` of the digits of `x` and `y`. */
  function Bitwise(n: nat, op: (bool, bool) -> bool, x: nat, y: nat): (r: nat)
    ensures r < Pow2(n)
  {
    if n == 0 then 0
    else 2 * Bitwise(n - 1, op, x / 2, y / 2) + if op(x % 2 == 1, y % 2 == 1) then 1 else 0
  }

  function And(x: word, y: word): word {
    Pow32();
    Bitwise(32, (a: bool, b: bool) => a && b, x, y)
  }

  function Or(x: word, y: word): word {
    Pow32();
    Bitwise(32, (a: bool, b: bool) => a || b, x, y)
  }

  function Xor(x: word, y: word): word {
    Pow32();
    Bitwise(32, (a: bool, b: bool) => a != b, x, y)
  }

  function Not(x: word): word {
    U32 - 1 - x
  }

  function Left(x: word, bits: nat): word
    requires bits < 32
  {
    x * Pow2(bits) % U32
  }

  function Right(x: word, bits: nat): word
    requires bits < 32
  {
    Quotient(x, Pow2(bits))
  }

  function Quotient(x: nat, p: nat): (q: nat)
    requires p > 0
    ensures q <= x
  {
    RightFits(x, p);
    x / p
  }

  lemma RightFits(x: nat, p: nat)
    requires p > 0
    ensures x / p <= x
  {
    var q := x / p;
    assert x == p * q + x % p;
    MulAtLeast(p, q);
  }

  lemma MulAtLeast(p: nat, q: nat)
    requires p > 0
    ensures p * q >= q
  {
  }

  function Sum(x: int): word {
    x % U32
  }

  /** The five words of the digest buffers. */
  datatype Words = Words(a: word, b: word, c: word, d: word, e: word)

  /** The initial values of section 7 of FIPS PUB 180-1. */
  const H0 := Words(0x67452301, 0xEFCDAB89, 0x98BADCFE, 0x10325476, 0xC3D2E1F0)

  /** CircularShift, the operation S of section 3. */
  function CircularShift(bits: nat, x: word): word
    requires 0 < bits < 32
  {
    Or(Left(x, bits), Right(x, 32 - bits))
  }

  /** The functions of section 5. */
  function F(t: nat, b: word, c: word, d: word): word {
    if t < 20 then Or(And(b, c), And(Not(b), d))
    else if t < 40 then Xor(Xor(b, c), d)
    else if t < 60 then Or(Or(And(b, c), And(b, d)), And(c, d))
    else Xor(Xor(b, c), d)
  }

  const K0: word := 0x5A827999
  const K1: word := 0x6ED9EBA1
  const K2: word := 0x8F1BBCDC
  const K3: word := 0xCA62C1D6

  /** The constants of section 6. */
  function K(t: nat): word {
    if t < 20 then K0 else if t < 40 then K1 else if t < 60 then K2 else K3
  }

  /** The number whose root the constant of round `t` is. */
  function Radicand(t: nat): nat {
    if t < 20 then 2 else if t < 40 then 3 else if t < 60 then 5 else 10
  }

  /** The constants are the roots of 2, 3, 5 and 10, with thirty binary places. */
  lemma Roots(t: nat)
    ensures K(t) * K(t) <= Radicand(t) * Pow2(60) < (K(t) + 1) * (K(t) + 1)
  {
    Pow60();
    assert K0 * K0 <= 2 * 0x1000_0000_0000_0000 < (K0 + 1) * (K0 + 1);
    assert K1 * K1 <= 3 * 0x1000_0000_0000_0000 < (K1 + 1) * (K1 + 1);
    assert K2 * K2 <= 5 * 0x1000_0000_0000_0000 < (K2 + 1) * (K2 + 1);
    assert K3 * K3 <= 10 * 0x1000_0000_0000_0000 < (K3 + 1) * (K3 + 1);
  }

  lemma Pow60()
    ensures Pow2(60) == 0x1000_0000_0000_0000
  {
    Pow32();
    Pow4();
    hide Pow2;
    Pow2Sum(4, 4);
    Pow2Sum(8, 8);
    Pow2Sum(16, 8);
    Pow2Sum(24, 4);
    Pow2Sum(28, 32);
  }

  lemma Pow4()
    ensures Pow2(4) == 16
  {
  }

  /** Four octets as a word, the first one the highest. */
  function Word(b0: byte, b1: byte, b2: byte, b3: byte): word {
    Or(Or(Or(Left(b0, 24), Left(b1, 16)), Left(b2, 8)), b3)
  }

  /** The word sequence of section 7 for one block. */
  function W(m: seq<byte>, t: nat): word
    requires |m| == 64 && t < 80
  {
    if t < 16 then Word(m[4 * t], m[4 * t + 1], m[4 * t + 2], m[4 * t + 3])
    else CircularShift(1, Xor(Xor(Xor(W(m, t - 3), W(m, t - 8)), W(m, t - 14)), W(m, t - 16)))
  }

  function Round(r: Words, t: nat, w: word): Words {
    Words(Sum(CircularShift(5, r.a) + F(t, r.b, r.c, r.d) + r.e + w + K(t)), r.a, CircularShift(30, r.b), r.c, r.d)
  }

  /** The word buffers after `t` rounds. */
  function Rounds(h: Words, m: seq<byte>, t: nat): Words
    requires |m| == 64 && t <= 80
  {
    if t == 0 then h else Round(Rounds(h, m, t - 1), t - 1, W(m, t - 1))
  }

  const ROUNDS: nat := 80

  function Compress(h: Words, m: seq<byte>): Words
    requires |m| == 64
  {
    var r := Rounds(h, m, ROUNDS);
    Words(Sum(h.a + r.a), Sum(h.b + r.b), Sum(h.c + r.c), Sum(h.d + r.d), Sum(h.e + r.e))
  }

  /** All whole blocks, one after the other. */
  function Hash(h: Words, data: seq<byte>): Words
    decreases |data|
  {
    if |data| < 64 then h else Hash(Compress(h, data[..64]), data[64..])
  }

  lemma {:induction false} HashMore(h: Words, data: seq<byte>, m: seq<byte>)
    requires |data| % 64 == 0 && |m| == 64
    ensures Hash(h, data + m) == Compress(Hash(h, data), m)
    decreases |data|
  {
    hide Compress;
    if |data| < 64 {
      assert data + m == m && m[..64] == m;
      assert Hash(Compress(h, m), m[64..]) == Compress(h, m);
    } else {
      assert (data + m)[..64] == data[..64] && (data + m)[64..] == data[64..] + m;
      HashMore(Compress(h, data[..64]), data[64..], m);
    }
  }

  function Zeros(n: nat): (z: seq<byte>)
    ensures |z| == n
  {
    seq(n, _ => 0)
  }

  /** How many zero octets follow the first padding octet. */
  function PadZeros(length: nat): (k: nat)
    ensures k < 64 && (length + 1 + k + 8) % 64 == 0
  {
    (119 - length % 64) % 64
  }

  /** The octet of weight 256^i in `n`. */
  function Octet(n: nat, i: nat): byte {
    if i == 0 then n % 256 else Octet(n / 256, i - 1)
  }

  /** The length in bits, as eight octets. */
  function LengthOctets(bits: nat): seq<byte> {
    [Octet(bits, 7), Octet(bits, 6), Octet(bits, 5), Octet(bits, 4), Octet(bits, 3), Octet(bits, 2), Octet(bits, 1), Octet(bits, 0)]
  }

  /** Message padding, section 4 of FIPS PUB 180-1. */
  function Padded(msg: seq<byte>): (p: seq<byte>)
    ensures |p| % 64 == 0
  {
    msg + [0x80] + Zeros(PadZeros(|msg|)) + LengthOctets(8 * |msg|)
  }

  /** The digest of a message, section 7 of FIPS PUB 180-1. */
  function Digest(msg: seq<byte>): Words {
    Hash(H0, Padded(msg))
  }

  class SHA1 {
    const H: array<word>
    const messageBlock: array<byte>
    var messageBlockIndex: nat
    var lengthLow: nat
    var lengthHigh: nat
    var computed: bool
    var corrupted: bool
    /** All octets that went in since the last Reset. */
    ghost var msg: seq<byte>
    /** Those that have been processed. */
    ghost var done: seq<byte>

    constructor ()
      ensures Valid() && fresh(H) && fresh(messageBlock) && !computed && !corrupted && msg == []
    {
      H := new word[5](_ => 0);
      messageBlock := new byte[64](_ => 0);
      messageBlockIndex, lengthLow, lengthHigh, computed, corrupted, msg, done := 0, 0, 0, false, false, [], [];
      new;
      Reset();
    }

    function Buffers(): Words
      requires H.Length == 5
      reads H
    {
      Words(H[0], H[1], H[2], H[3], H[4])
    }

    ghost predicate Shape() {
      H.Length == 5 && messageBlock.Length == 64
    }

    /** The two length words count the bits. */
    ghost predicate Counted(bits: nat)
      reads this`lengthLow, this`lengthHigh
    {
      lengthLow < U32 && lengthHigh < U32 && lengthHigh * U32 + lengthLow == bits
    }

    /** Whole blocks have been processed, what is left of the message is in the block. */
    ghost predicate Absorbing()
      reads this, H, messageBlock
    {
      Shape() && messageBlockIndex < 64 && |done| % 64 == 0 && Buffers() == Hash(H0, done) &&
      msg == done + messageBlock[..messageBlockIndex] && Counted(8 * |msg|)
    }

    ghost predicate Valid()
      reads this, H, messageBlock
    {
      Shape() && if corrupted then true else if computed then Buffers() == Digest(msg) else Absorbing()
    }

    method Reset()
      requires Shape()
      modifies this, H
      ensures Valid() && !computed && !corrupted && msg == []
    {
      hide Hash;
      lengthLow, lengthHigh, messageBlockIndex := 0, 0, 0;
      H[0], H[1], H[2], H[3], H[4] := 0x67452301, 0xEFCDAB89, 0x98BADCFE, 0x10325476, 0xC3D2E1F0;
      computed, corrupted, msg, done := false, false, [], [];
      NoBlocks();
    }

    /** One of the first sixteen words. */
    method FirstWord(t: nat) returns (w: word)
      requires Shape() && t < 16
      ensures w == W(messageBlock[..], t)
    {
      w := Left(messageBlock[t * 4], 24);
      w := Or(w, Left(messageBlock[t * 4 + 1], 16));
      w := Or(w, Left(messageBlock[t * 4 + 2], 8));
      w := Or(w, messageBlock[t * 4 + 3]);
    }

    /** The first loops of ProcessMessageBlock: the word sequence. */
    method Expand(w: array<word>)
      requires Shape() && w.Length == 80
      modifies w
      ensures forall t :: 0 <= t < 80 ==> w[t] == W(messageBlock[..], t)
    {
      hide W, CircularShift, Word, Xor;
      ghost var m := messageBlock[..];
      for t := 0 to 16
        invariant forall i :: 0 <= i < t ==> w[i] == W(m, i)
        modifies w
      {
        var x := FirstWord(t);
        w[t] := x;
      }
      for t := 16 to 80
        invariant forall i :: 0 <= i < t ==> w[i] == W(m, i)
        modifies w
      {
        LaterWord(m, t);
        w[t] := CircularShift(1, Xor(Xor(Xor(w[t - 3], w[t - 8]), w[t - 14]), w[t - 16]));
      }
    }

    /** ProcessMessageBlock */
    method ProcessMessageBlock()
      requires Shape()
      modifies this`messageBlockIndex, H
      ensures Buffers() == Compress(old(Buffers()), messageBlock[..]) && messageBlockIndex == 0
    {
      hide W, Rounds, Sum;
      var w := new word[80];
      Expand(w);
      ghost var m, h := messageBlock[..], Buffers();
      var r := Words(H[0], H[1], H[2], H[3], H[4]);
      NoRounds(h, m);
      r := FirstLoop(w, r, h, m);
      r := SecondLoop(w, r, h, m);
      r := ThirdLoop(w, r, h, m);
      r := FourthLoop(w, r, h, m);
      H[0] := Sum(H[0] + r.a);
      H[1] := Sum(H[1] + r.b);
      H[2] := Sum(H[2] + r.c);
      H[3] := Sum(H[3] + r.d);
      H[4] := Sum(H[4] + r.e);
      messageBlockIndex := 0;
    }

    /** Eight more bits; 2^64 of them are too many. */
    method CountOctet(ghost bits: nat)
      requires Counted(bits) && bits % 8 == 0 && !corrupted
      modifies this`lengthLow, this`lengthHigh, this`corrupted
      ensures corrupted <==> bits + 8 >= U64
      ensures !corrupted ==> Counted(bits + 8)
    {
      lengthLow := (lengthLow + 8) % U32;
      if lengthLow == 0 {
        lengthHigh := (lengthHigh + 1) % U32;
        if lengthHigh == 0 {
          corrupted := true;
        }
      }
    }

    /** A full block is processed. */
    method FinishBlock()
      requires Shape() && |done| % 64 == 0 && Buffers() == Hash(H0, done)
      modifies this`messageBlockIndex, this`done, H
      ensures messageBlockIndex == 0 && done == old(done) + messageBlock[..] && |done| % 64 == 0 && Buffers() == Hash(H0, done)
    {
      hide Hash, Compress;
      ProcessMessageBlock();
      HashMore(H0, done, messageBlock[..]);
      done := done + messageBlock[..];
    }

    /** One octet of Input. */
    method Take(octet: byte)
      requires Valid() && !computed && !corrupted
      modifies this, H, messageBlock
      ensures Valid() && !computed && msg == old(msg) + [octet]
      ensures corrupted <==> 8 * |msg| >= U64
    {
      hide Hash, Compress, Digest, Buffers, Counted;
      messageBlock[messageBlockIndex] := octet;
      messageBlockIndex := messageBlockIndex + 1;
      CountOctet(8 * |msg|);
      assert messageBlock[..messageBlockIndex] == old(messageBlock[..messageBlockIndex]) + [octet];
      msg := msg + [octet];
      if messageBlockIndex == 64 {
        FinishBlock();
        assert messageBlock[..64] == messageBlock[..];
      }
    }

    /** Input: no octets change nothing; octets after the result, or 2^64 bits and more, corrupt the digest. */
    method Input(data: seq<byte>)
      requires Valid()
      modifies this, H, messageBlock
      ensures Valid() && (data == [] ==> computed == old(computed) && corrupted == old(corrupted) && msg == old(msg))
      ensures corrupted <==> old(corrupted) || (data != [] && (old(computed) || 8 * (|old(msg)| + |data|) >= U64))
      ensures !corrupted ==> computed == old(computed) && msg == old(msg) + data
    {
      hide Absorbing, Digest;
      if data == [] {
        assert msg + data == msg;
        return;
      }
      if computed || corrupted {
        corrupted := true;
        return;
      }
      BitsSoFar();
      var i := 0;
      while i < |data| && !corrupted
        invariant 0 <= i <= |data| && Valid() && !computed && msg == old(msg) + data[..i]
        invariant corrupted <==> 8 * |msg| >= U64
      {
        Take(data[i]);
        assert data[..i] + [data[i]] == data[..i + 1];
        i := i + 1;
      }
    }

    lemma BitsSoFar()
      requires Valid() && !computed && !corrupted
      ensures 8 * |msg| < U64
    {
    }

    /** Zero octets fill the block up to `upto`. */
    method FillZeros(upto: nat)
      requires Shape() && messageBlockIndex <= upto <= 64
      modifies this`messageBlockIndex, messageBlock
      ensures messageBlockIndex == upto
      ensures messageBlock[..upto] == old(messageBlock[..messageBlockIndex]) + Zeros(upto - old(messageBlockIndex))
    {
      ghost var n, before := messageBlockIndex, messageBlock[..messageBlockIndex];
      while messageBlockIndex < upto
        invariant n <= messageBlockIndex <= upto && messageBlock[..n] == before
        invariant forall i :: n <= i < messageBlockIndex ==> messageBlock[i] == 0
      {
        messageBlock[messageBlockIndex] := 0;
        messageBlockIndex := messageBlockIndex + 1;
      }
    }

    /** The length goes into the last eight octets. */
    method StoreLength(ghost bits: nat)
      requires Shape() && Counted(bits)
      modifies messageBlock
      ensures messageBlock[..56] == old(messageBlock[..56]) && messageBlock[56..] == LengthOctets(bits)
    {
      LengthWords(lengthHigh, lengthLow);
      messageBlock[56] := lengthHigh / 0x100_0000 % 256;
      messageBlock[57] := lengthHigh / 0x1_0000 % 256;
      messageBlock[58] := lengthHigh / 0x100 % 256;
      messageBlock[59] := lengthHigh % 256;
      messageBlock[60] := lengthLow / 0x100_0000 % 256;
      messageBlock[61] := lengthLow / 0x1_0000 % 256;
      messageBlock[62] := lengthLow / 0x100 % 256;
      messageBlock[63] := lengthLow % 256;
    }

    /** PadMessage: one block more, or two when the length does not fit behind the message any more. */
    method PadMessage()
      requires Absorbing()
      modifies this`messageBlockIndex, this`done, H, messageBlock
      ensures Buffers() == Digest(msg)
    {
      hide Hash, Compress, Digest, Counted, Padded, LengthOctets, Zeros;
      ghost var n, bits, tail := messageBlockIndex, 8 * |msg|, messageBlock[..messageBlockIndex];
      ghost var start := done;
      if messageBlockIndex > 55 {
        messageBlock[messageBlockIndex] := 0x80;
        messageBlockIndex := messageBlockIndex + 1;
        assert messageBlock[..n + 1] == tail + [0x80];
        FillZeros(64);
        assert messageBlock[..64] == messageBlock[..];
        FinishBlock();
        assert messageBlock[..0] == [];
        FillZeros(56);
        TwoBlocks(msg, start, tail);
      } else {
        messageBlock[messageBlockIndex] := 0x80;
        messageBlockIndex := messageBlockIndex + 1;
        assert messageBlock[..n + 1] == tail + [0x80];
        FillZeros(56);
        OneBlock(msg, start, tail);
      }
      StoreLength(bits);
      assert messageBlock[..] == messageBlock[..56] + messageBlock[56..];
      FinishBlock();
      DigestIs(msg);
      assert done == Padded(msg);
    }

    /** Result: the digest of all that went in, as often as it is asked for; false if it is corrupted. */
    method Result(digest: array<word>) returns (ok: bool)
      requires Valid() && digest.Length == 5 && digest != H
      modifies this, H, messageBlock, digest
      ensures Valid() && ok == !old(corrupted) && corrupted == old(corrupted) && msg == old(msg)
      ensures ok ==> computed && Words(digest[0], digest[1], digest[2], digest[3], digest[4]) == Digest(msg)
      ensures !ok ==> digest[..] == old(digest[..])
    {
      hide Digest, Absorbing;
      if corrupted {
        return false;
      }
      if !computed {
        PadMessage();
        computed := true;
      }
      for i := 0 to 5
        invariant forall j :: 0 <= j < i ==> digest[j] == H[j]
        modifies digest
      {
        digest[i] := H[i];
      }
      return true;
    }
  }

  /** A message that goes in piece by piece gives the digest of the whole, if it has less than 2^64 bits, and is found
      corrupted otherwise. */
  method HashPieces(pieces: seq<seq<byte>>) returns (ok: bool, digest: array<word>)
    ensures digest.Length == 5 && fresh(digest)
    ensures ok <==> 8 * |Flat(pieces)| < U64
    ensures ok ==> Words(digest[0], digest[1], digest[2], digest[3], digest[4]) == Digest(Flat(pieces))
  {
    hide Digest, SHA1.Valid, Flat;
    var sha := new SHA1();
    digest := new word[5](_ => 0);
    FlatEmpty(pieces[..0]);
    var i := 0;
    while i < |pieces|
      invariant 0 <= i <= |pieces| && sha.Valid() && fresh(sha.H) && fresh(sha.messageBlock) && digest != sha.H
      invariant sha.corrupted <==> 8 * |Flat(pieces[..i])| >= U64
      invariant !sha.corrupted ==> !sha.computed && sha.msg == Flat(pieces[..i])
    {
      FlatAt(pieces, i);
      sha.Input(pieces[i]);
      i := i + 1;
    }
    assert pieces[..i] == pieces;
    ok := sha.Result(digest);
  }

  lemma DigestIs(msg: seq<byte>)
    ensures Digest(msg) == Hash(H0, Padded(msg))
  {
  }

  /** The message ends in the block that takes the length as well. */
  lemma OneBlock(msg: seq<byte>, start: seq<byte>, tail: seq<byte>)
    requires msg == start + tail && |start| % 64 == 0 && |tail| <= 55
    ensures Padded(msg) == start + ((tail + [0x80] + Zeros(56 - (|tail| + 1))) + LengthOctets(8 * |msg|))
  {
    assert |msg| % 64 == |tail|;
    assert PadZeros(|msg|) == 55 - |tail|;
    var z, l := Zeros(55 - |tail|), LengthOctets(8 * |msg|);
    assert (start + tail) + [0x80] + z + l == start + ((tail + [0x80] + z) + l);
  }

  /** The length needs a further block. */
  lemma TwoBlocks(msg: seq<byte>, start: seq<byte>, tail: seq<byte>)
    requires msg == start + tail && |start| % 64 == 0 && 55 < |tail| < 64
    ensures Padded(msg) == (start + (tail + [0x80] + Zeros(64 - (|tail| + 1)))) + (([] + Zeros(56)) + LengthOctets(8 * |msg|))
  {
    assert |msg| % 64 == |tail|;
    assert PadZeros(|msg|) == 119 - |tail|;
    var z1, z2, l := Zeros(63 - |tail|), Zeros(56), LengthOctets(8 * |msg|);
    assert Zeros(119 - |tail|) == z1 + z2;
    assert (start + tail) + [0x80] + (z1 + z2) + l == (start + (tail + [0x80] + z1)) + (([] + z2) + l);
  }

  lemma LengthWords(high: nat, low: nat)
    requires high < U32 && low < U32
    ensures LengthOctets(high * U32 + low) ==
            [high / 0x100_0000 % 256, high / 0x1_0000 % 256, high / 0x100 % 256, high % 256,
             low / 0x100_0000 % 256, low / 0x1_0000 % 256, low / 0x100 % 256, low % 256]
  {
    var n := high * U32 + low;
    OctetsOf(low);
    OctetsOf(high);
    LowOctets(high, low);
    assert n / 256 / 256 / 256 / 256 == high;
  }

  lemma OctetsOf(n: nat)
    ensures Octet(n, 0) == n % 256 && Octet(n, 1) == n / 0x100 % 256 && Octet(n, 2) == n / 0x1_0000 % 256
    ensures Octet(n, 3) == n / 0x100_0000 % 256
  {
    Bytewise(n);
    Bytewise(n / 256);
    assert Octet(n / 256, 2) == Octet(n / 256 / 256, 1);
  }

  lemma Bytewise(n: nat)
    ensures n / 256 / 256 == n / 0x1_0000 && n / 256 / 0x1_0000 == n / 0x100_0000
  {
  }

  lemma HighOctet(n: nat, i: nat)
    ensures Octet(n, i + 4) == Octet(n / 256 / 256 / 256 / 256, i)
  {
    assert Octet(n, i + 4) == Octet(n / 256, i + 3);
    assert Octet(n / 256, i + 3) == Octet(n / 256 / 256, i + 2);
    assert Octet(n / 256 / 256, i + 2) == Octet(n / 256 / 256 / 256, i + 1);
  }

  lemma LowOctets(high: nat, low: nat)
    requires low < U32
    ensures forall i :: 0 <= i < 4 ==> Octet(high * U32 + low, i) == Octet(low, i)
    ensures forall i :: 0 <= i < 4 ==> Octet(high * U32 + low, i + 4) == Octet(high, i)
  {
    var n := high * U32 + low;
    DivSum(high * 0x100_0000, low, 256);
    DivSum(high * 0x1_0000, low / 256, 256);
    DivSum(high * 0x100, low / 256 / 256, 256);
    DivSum(high, low / 256 / 256 / 256, 256);
    assert n / 256 / 256 / 256 / 256 == high;
    forall i | 0 <= i < 4
      ensures Octet(n, i + 4) == Octet(high, i)
    {
      HighOctet(n, i);
    }
    LowOctet(n, low, high * 0x100_0000);
    LowOctet(n / 256, low / 256, high * 0x1_0000);
    LowOctet(n / 256 / 256, low / 256 / 256, high * 0x100);
    LowOctet(n / 256 / 256 / 256, low / 256 / 256 / 256, high);
    assert forall i :: 0 < i < 4 ==> Octet(n, i) == Octet(n / 256, i - 1) && Octet(low, i) == Octet(low / 256, i - 1);
    assert Octet(n / 256, 2) == Octet(n / 256 / 256, 1) && Octet(low / 256, 2) == Octet(low / 256 / 256, 1);
  }

  lemma LowOctet(n: nat, low: nat, k: nat)
    requires n == k * 256 + low
    ensures Octet(n, 0) == Octet(low, 0)
  {
  }

  lemma DivSum(k: nat, m: nat, p: nat)
    requires p > 0
    ensures (k * p + m) / p == k + m / p
  {
    var x, q := k * p + m, m / p;
    assert m == p * q + m % p;
    assert x == p * (k + q) + m % p;
    QuotientIs(x, p, k + q, m % p);
  }

  lemma QuotientIs(x: nat, p: nat, q: nat, r: nat)
    requires x == p * q + r && r < p
    ensures x / p == q
  {
    var d := x / p;
    assert x == p * d + x % p;
    if d > q {
      Product(p, q + 1, d);
    } else if d < q {
      Product(p, d + 1, q);
    }
  }

  lemma Product(p: nat, a: nat, b: nat)
    requires a <= b
    ensures p * a <= p * b
  {
  }

  lemma NoBlocks()
    ensures Hash(H0, []) == H0
  {
  }

  lemma LaterWord(m: seq<byte>, t: nat)
    requires |m| == 64 && 16 <= t < 80
    ensures W(m, t) == CircularShift(1, Xor(Xor(Xor(W(m, t - 3), W(m, t - 8)), W(m, t - 14)), W(m, t - 16)))
  {
  }

  lemma NoRounds(h: Words, m: seq<byte>)
    requires |m| == 64
    ensures Rounds(h, m, 0) == h
  {
  }

  lemma OneRound(h: Words, m: seq<byte>, t: nat)
    requires |m| == 64 && t < 80
    ensures Rounds(h, m, t + 1) == Round(Rounds(h, m, t), t, W(m, t))
  {
  }

  /** The first of the four loops over the rounds. */
  method FirstLoop(w: array<word>, r0: Words, ghost h: Words, ghost m: seq<byte>) returns (r: Words)
    requires |m| == 64 && w.Length == 80 && (forall t :: 0 <= t < 80 ==> w[t] == W(m, t)) && r0 == Rounds(h, m, 0)
    ensures r == Rounds(h, m, 20)
  {
    hide F, K, CircularShift, W, Rounds, And, Or, Xor, Not, Sum;
    var A, B, C, D, E := r0.a, r0.b, r0.c, r0.d, r0.e;
    for t := 0 to 20
      invariant Words(A, B, C, D, E) == Rounds(h, m, t)
    {
      OneRound(h, m, t);
      FirstRounds(t, B, C, D);
      var temp := Sum(CircularShift(5, A) + Or(And(B, C), And(Not(B), D)) + E + w[t] + K0);
      E := D;
      D := C;
      C := CircularShift(30, B);
      B := A;
      A := temp;
    }
    r := Words(A, B, C, D, E);
  }

  /** The second of the four loops over the rounds. */
  method SecondLoop(w: array<word>, r0: Words, ghost h: Words, ghost m: seq<byte>) returns (r: Words)
    requires |m| == 64 && w.Length == 80 && (forall t :: 0 <= t < 80 ==> w[t] == W(m, t)) && r0 == Rounds(h, m, 20)
    ensures r == Rounds(h, m, 40)
  {
    hide F, K, CircularShift, W, Rounds, And, Or, Xor, Not, Sum;
    var A, B, C, D, E := r0.a, r0.b, r0.c, r0.d, r0.e;
    for t := 20 to 40
      invariant Words(A, B, C, D, E) == Rounds(h, m, t)
    {
      OneRound(h, m, t);
      SecondRounds(t, B, C, D);
      var temp := Sum(CircularShift(5, A) + Xor(Xor(B, C), D) + E + w[t] + K1);
      E := D;
      D := C;
      C := CircularShift(30, B);
      B := A;
      A := temp;
    }
    r := Words(A, B, C, D, E);
  }

  /** The third of the four loops over the rounds. */
  method ThirdLoop(w: array<word>, r0: Words, ghost h: Words, ghost m: seq<byte>) returns (r: Words)
    requires |m| == 64 && w.Length == 80 && (forall t :: 0 <= t < 80 ==> w[t] == W(m, t)) && r0 == Rounds(h, m, 40)
    ensures r == Rounds(h, m, 60)
  {
    hide F, K, CircularShift, W, Rounds, And, Or, Xor, Not, Sum;
    var A, B, C, D, E := r0.a, r0.b, r0.c, r0.d, r0.e;
    for t := 40 to 60
      invariant Words(A, B, C, D, E) == Rounds(h, m, t)
    {
      OneRound(h, m, t);
      ThirdRounds(t, B, C, D);
      var temp := Sum(CircularShift(5, A) + Or(Or(And(B, C), And(B, D)), And(C, D)) + E + w[t] + K2);
      E := D;
      D := C;
      C := CircularShift(30, B);
      B := A;
      A := temp;
    }
    r := Words(A, B, C, D, E);
  }

  /** The fourth of the four loops over the rounds. */
  method FourthLoop(w: array<word>, r0: Words, ghost h: Words, ghost m: seq<byte>) returns (r: Words)
    requires |m| == 64 && w.Length == 80 && (forall t :: 0 <= t < 80 ==> w[t] == W(m, t)) && r0 == Rounds(h, m, 60)
    ensures r == Rounds(h, m, 80)
  {
    hide F, K, CircularShift, W, Rounds, And, Or, Xor, Not, Sum;
    var A, B, C, D, E := r0.a, r0.b, r0.c, r0.d, r0.e;
    for t := 60 to 80
      invariant Words(A, B, C, D, E) == Rounds(h, m, t)
    {
      OneRound(h, m, t);
      FourthRounds(t, B, C, D);
      var temp := Sum(CircularShift(5, A) + Xor(Xor(B, C), D) + E + w[t] + K3);
      E := D;
      D := C;
      C := CircularShift(30, B);
      B := A;
      A := temp;
    }
    r := Words(A, B, C, D, E);
  }

  lemma FirstRounds(t: nat, b: word, c: word, d: word)
    requires t < 20
    ensures F(t, b, c, d) == Or(And(b, c), And(Not(b), d)) && K(t) == K0
  {
  }

  lemma SecondRounds(t: nat, b: word, c: word, d: word)
    requires 20 <= t < 40
    ensures F(t, b, c, d) == Xor(Xor(b, c), d) && K(t) == K1
  {
  }

  lemma ThirdRounds(t: nat, b: word, c: word, d: word)
    requires 40 <= t < 60
    ensures F(t, b, c, d) == Or(Or(And(b, c), And(b, d)), And(c, d)) && K(t) == K2
  {
  }

  lemma FourthRounds(t: nat, b: word, c: word, d: word)
    requires 60 <= t
    ensures F(t, b, c, d) == Xor(Xor(b, c), d) && K(t) == K3
  {
  }

  /** The number that octets stand for, the highest first. */
  function Value(octets: seq<byte>): nat {
    if octets == [] then 0 else 256 * Value(octets[..|octets| - 1]) + octets[|octets| - 1]
  }

  function Octets(n: nat, k: nat): (s: seq<byte>)
    ensures |s| == k
  {
    if k == 0 then [] else Octets(n / 256, k - 1) + [(n % 256) as byte]
  }

  function Pow256(k: nat): nat {
    if k == 0 then 1 else 256 * Pow256(k - 1)
  }

  lemma {:induction false} OctetsValue(n: nat, k: nat)
    requires n < Pow256(k)
    ensures Value(Octets(n, k)) == n
  {
    if k > 0 {
      assert n / 256 < Pow256(k - 1);
      OctetsValue(n / 256, k - 1);
      assert Octets(n, k)[..k - 1] == Octets(n / 256, k - 1);
    }
  }

  lemma {:induction false} OctetsAre(n: nat, k: nat, i: nat)
    requires i < k
    ensures Octets(n, k)[k - 1 - i] == Octet(n, i)
  {
    if i > 0 {
      OctetsAre(n / 256, k - 1, i - 1);
    }
  }

  /** The length can be read off a padded message. */
  lemma LengthDecoded(bits: nat)
    requires bits < U64
    ensures Value(LengthOctets(bits)) == bits
  {
    var s := Octets(bits, 8);
    assert Pow256(4) == U32;
    assert Pow256(8) == U64;
    OctetsValue(bits, 8);
    OctetsAre(bits, 8, 0);
    OctetsAre(bits, 8, 1);
    OctetsAre(bits, 8, 2);
    OctetsAre(bits, 8, 3);
    OctetsAre(bits, 8, 4);
    OctetsAre(bits, 8, 5);
    OctetsAre(bits, 8, 6);
    OctetsAre(bits, 8, 7);
    assert s == LengthOctets(bits);
  }

  /** Different messages stay different when they are padded. */
  lemma PaddingInjective(a: seq<byte>, b: seq<byte>)
    requires 8 * |a| < U64 && 8 * |b| < U64 && Padded(a) == Padded(b)
    ensures a == b
  {
    PaddedEnds(a);
    PaddedEnds(b);
    LengthDecoded(8 * |a|);
    LengthDecoded(8 * |b|);
  }

  lemma PaddedEnds(a: seq<byte>)
    ensures var p := Padded(a);
      |p| >= 8 && p[|p| - 8..] == LengthOctets(8 * |a|) && |a| <= |p| && p[..|a|] == a
  {
  }

  // ---- What the bitwise operations are, digit by digit ----

  /** The binary digit of weight 2^i. */
  function Digit(x: nat, i: nat): bool {
    if i == 0 then x % 2 == 1 else Digit(x / 2, i - 1)
  }

  lemma {:induction false} BitwiseDigit(n: nat, op: (bool, bool) -> bool, x: nat, y: nat, i: nat)
    requires i < n
    ensures Digit(Bitwise(n, op, x, y), i) == op(Digit(x, i), Digit(y, i))
  {
    if i > 0 {
      var r := Bitwise(n, op, x, y);
      assert r / 2 == Bitwise(n - 1, op, x / 2, y / 2);
      BitwiseDigit(n - 1, op, x / 2, y / 2, i - 1);
    }
  }

  lemma HalfMod(x: nat, p: nat)
    requires p > 0
    ensures x % (2 * p) / 2 == x / 2 % p && x % (2 * p) % 2 == x % 2
  {
    var q, r := x / (2 * p), x % (2 * p);
    assert x == 2 * p * q + r;
    assert 2 * p * q == 2 * (p * q);
    assert x / 2 == p * q + r / 2 && x % 2 == r % 2;
    RemainderIs(x / 2, p, q, r / 2);
  }

  lemma RemainderIs(x: nat, p: nat, q: nat, r: nat)
    requires x == p * q + r && r < p
    ensures x % p == r
  {
    QuotientIs(x, p, q, r);
    assert x == p * (x / p) + x % p;
  }

  lemma {:induction false} DigitMod(x: nat, n: nat, i: nat)
    requires i < n
    ensures Digit(x % Pow2(n), i) == Digit(x, i)
  {
    HalfMod(x, Pow2(n - 1));
    if i > 0 {
      DigitMod(x / 2, n - 1, i - 1);
    }
  }

  lemma {:induction false} DigitMul(x: nat, bits: nat, i: nat)
    ensures Digit(x * Pow2(bits), i) == (i >= bits && Digit(x, i - bits))
    decreases bits
  {
    if bits > 0 {
      var y := x * Pow2(bits - 1);
      Doubled(x, Pow2(bits - 1));
      if i > 0 {
        DigitMul(x, bits - 1, i - 1);
      }
    }
  }

  lemma Doubled(x: nat, p: nat)
    ensures x * (2 * p) == 2 * (x * p)
  {
  }

  lemma {:induction false} DigitDiv(x: nat, bits: nat, i: nat)
    ensures Digit(Quotient(x, Pow2(bits)), i) == Digit(x, i + bits)
    decreases bits
  {
    if bits > 0 {
      DivHalf(x, Pow2(bits - 1));
      DigitDiv(x / 2, bits - 1, i);
    }
  }

  lemma DivHalf(x: nat, p: nat)
    requires p > 0
    ensures x / (2 * p) == x / 2 / p
  {
    var q, r := x / 2 / p, x / 2 % p;
    assert x / 2 == p * q + r;
    assert x == 2 * (x / 2) + x % 2;
    Doubled(q, p);
    assert p * q == q * p && (2 * p) * q == q * (2 * p);
    QuotientIs(x, 2 * p, q, 2 * r + x % 2);
  }

  lemma {:induction false} NoDigit(x: nat, n: nat, i: nat)
    requires x < Pow2(n) && i >= n
    ensures !Digit(x, i)
  {
    if i > 0 {
      if n > 0 {
        NoDigit(x / 2, n - 1, i - 1);
      } else {
        NoDigit(0, 0, i - 1);
      }
    }
  }

  lemma OrDigit(x: word, y: word, i: nat)
    requires i < 32
    ensures Digit(Or(x, y), i) == (Digit(x, i) || Digit(y, i))
  {
    hide Bitwise, Digit;
    BitwiseDigit(32, (a: bool, b: bool) => a || b, x, y, i);
  }

  lemma LeftDigit(x: word, bits: nat, i: nat)
    requires bits < 32 && i < 32
    ensures Digit(Left(x, bits), i) == (i >= bits && Digit(x, i - bits))
  {
    hide Digit;
    Pow32();
    hide Pow2;
    DigitMod(x * Pow2(bits), 32, i);
    DigitMul(x, bits, i);
  }

  lemma RightDigit(x: word, bits: nat, i: nat)
    requires bits < 32
    ensures Digit(Right(x, bits), i) == Digit(x, i + bits)
  {
    hide Digit, Pow2;
    DigitDiv(x, bits, i);
  }

  /** CircularShift moves each binary digit up by `bits` places, those that leave at the top come in at the bottom. */
  lemma ShiftedDigit(bits: nat, x: word, i: nat)
    requires 0 < bits < 32 && i < 32
    ensures Digit(CircularShift(bits, x), i) == Digit(x, if i >= bits then i - bits else i + 32 - bits)
  {
    Pow32();
    hide Digit, Or, Left, Right, Pow2;
    OrDigit(Left(x, bits), Right(x, 32 - bits), i);
    LeftDigit(x, bits, i);
    RightDigit(x, 32 - bits, i);
    if i >= bits {
      NoDigit(x, 32, i + 32 - bits);
    }
  }
}
