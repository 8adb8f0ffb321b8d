/** The example of appendix A of FIPS PUB 180-1: the digest of "abc", worked out round by round. */
module Sha1Example {
  import opened Flatten
  import opened Sha1
  import opened Vector32
  import opened Sha1Native

  /** Four octets as a vector. */
  lemma WordIs(b0: bv32, b1: bv32, b2: bv32, b3: bv32)
    requires Val(b0) < 256 && Val(b1) < 256 && Val(b2) < 256 && Val(b3) < 256
    ensures Word(Val(b0), Val(b1), Val(b2), Val(b3)) ==
      Val(OrV(OrV(OrV(LeftByte(LeftByte(LeftByte(b0))), LeftByte(LeftByte(b1))), LeftByte(b2)), b3))
  {
    hide Val, Or, OrV, Left, LeftV, LeftByte;
    LeftIs(b0, 24);
    LeftIs(b1, 16);
    LeftIs(b2, 8);
    LeftBytes(b0);
    LeftBytes(b1);
    LeftBytes(b2);
    var x0, x1, x2 := LeftByte(LeftByte(LeftByte(b0))), LeftByte(LeftByte(b1)), LeftByte(b2);
    OrIs(x0, x1);
    OrIs(OrV(x0, x1), x2);
    OrIs(OrV(OrV(x0, x1), x2), b3);
  }

  lemma Octets()
    ensures Val(0) == 0 && Val(0x18) == 0x18 && Val(0x80) == 0x80
    ensures Val(0x61) == 0x61 && Val(0x62) == 0x62 && Val(0x63) == 0x63
  {
    hide Val;
    ValIs(0);
    ValIs(0x18);
    ValIs(0x61);
    ValIs(0x62);
    ValIs(0x63);
    ValIs(0x80);
  }

  /** The message, padded to one block. */
  function Block(): (m: seq<byte>)
    ensures |m| == 64
  {
    [0x61, 0x62, 0x63, 0x80] + Zeros(52) + [0, 0, 0, 0, 0, 0, 0, 0x18]
  }

  lemma PaddedIs()
    ensures Padded([0x61, 0x62, 0x63]) == Block()
  {
    assert PadZeros(3) == 52;
    assert LengthOctets(24) == [0, 0, 0, 0, 0, 0, 0, 0x18];
    assert [0x61, 0x62, 0x63] + [0x80] == [0x61, 0x62, 0x63, 0x80];
  }

  /** The word W(t) is `w`. */
  ghost predicate Given(m: seq<byte>, t: nat, w: bv32) {
    hide Val, W;
    |m| == 64 && t < 80 && W(m, t) == Val(w)
  }

  /** The buffers are `v` when the rounds before `t` are done. */
  ghost predicate Before(m: seq<byte>, t: nat, v: Vectors) {
    hide Val, Rounds;
    |m| == 64 && t <= 80 && Rounds(H0, m, t) == Numbers(v)
  }

  ghost predicate Words0(m: seq<byte>) {
    hide Given;
    Given(m, 0, 0x61626380) && Given(m, 1, 0x00000000) && Given(m, 2, 0x00000000) && Given(m, 3, 0x00000000) &&
    Given(m, 4, 0x00000000) && Given(m, 5, 0x00000000) && Given(m, 6, 0x00000000) && Given(m, 7, 0x00000000) &&
    Given(m, 8, 0x00000000) && Given(m, 9, 0x00000000) && Given(m, 10, 0x00000000) && Given(m, 11, 0x00000000) &&
    Given(m, 12, 0x00000000) && Given(m, 13, 0x00000000) && Given(m, 14, 0x00000000) && Given(m, 15, 0x00000018)
  }

  ghost predicate Words16(m: seq<byte>) {
    hide Given;
    Given(m, 16, 0xC2C4C700) && Given(m, 17, 0x00000000) && Given(m, 18, 0x00000030) && Given(m, 19, 0x85898E01) &&
    Given(m, 20, 0x00000000) && Given(m, 21, 0x00000060) && Given(m, 22, 0x0B131C03) && Given(m, 23, 0x00000030) &&
    Given(m, 24, 0x85898EC1) && Given(m, 25, 0x16263806) && Given(m, 26, 0x00000000) && Given(m, 27, 0x00000180) &&
    Given(m, 28, 0x2C4C700C) && Given(m, 29, 0x000000F0) && Given(m, 30, 0x93AFB507) && Given(m, 31, 0x5898E048)
  }

  ghost predicate Words32(m: seq<byte>) {
    hide Given;
    Given(m, 32, 0x8E9A9202) && Given(m, 33, 0x00000600) && Given(m, 34, 0xB131C0F0) && Given(m, 35, 0x16263BC6) &&
    Given(m, 36, 0x4EBED41E) && Given(m, 37, 0x626380A1) && Given(m, 38, 0x16263806) && Given(m, 39, 0x000018C0) &&
    Given(m, 40, 0xD2E138C4) && Given(m, 41, 0x00000F00) && Given(m, 42, 0x3AFB5079) && Given(m, 43, 0x898E04E5) &&
    Given(m, 44, 0xE2BA3C2B) && Given(m, 45, 0x000060C0) && Given(m, 46, 0x053A37CD) && Given(m, 47, 0x74458547)
  }

  ghost predicate Words48(m: seq<byte>) {
    hide Given;
    Given(m, 48, 0xDA9415ED) && Given(m, 49, 0x26380A16) && Given(m, 50, 0x626383A1) && Given(m, 51, 0x4EBF54DE) &&
    Given(m, 52, 0x3835B44B) && Given(m, 53, 0x0000F600) && Given(m, 54, 0x1E84C7A3) && Given(m, 55, 0x98E04D98) &&
    Given(m, 56, 0x651D16A0) && Given(m, 57, 0x62658CA1) && Given(m, 58, 0x458544D6) && Given(m, 59, 0x44584CB7) &&
    Given(m, 60, 0x7BA06619) && Given(m, 61, 0x6380AEA2) && Given(m, 62, 0x0AE55269) && Given(m, 63, 0x627B49A1)
  }

  ghost predicate Words64(m: seq<byte>) {
    hide Given;
    Given(m, 64, 0x7CD45C9D) && Given(m, 65, 0x000F0000) && Given(m, 66, 0xFB50753A) && Given(m, 67, 0xEC6765E8) &&
    Given(m, 68, 0xBA3C2BE2) && Given(m, 69, 0x0060C000) && Given(m, 70, 0x3A37CD05) && Given(m, 71, 0x458546F4) &&
    Given(m, 72, 0xB8599DD6) && Given(m, 73, 0x380A1A26) && Given(m, 74, 0x01E02203) && Given(m, 75, 0xE7CC3456) &&
    Given(m, 76, 0xE6E60B69) && Given(m, 77, 0x00F60A00) && Given(m, 78, 0x5795EF4F) && Given(m, 79, 0x822E0879)
  }

  lemma FirstWords(m: seq<byte>)
    requires m == Block()
    ensures hide Words0; Words0(m)
  {
    hide Val, Word;
    Octets();
    WordIs(0x61, 0x62, 0x63, 0x80);
    WordIs(0, 0, 0, 0);
    WordIs(0, 0, 0, 0x18);
    assert OrV(OrV(OrV(LeftByte(LeftByte(LeftByte(0x61))), LeftByte(LeftByte(0x62))), LeftByte(0x63)), 0x80) ==
      0x61626380;
  }

  lemma NextWord(m: seq<byte>, t: nat, w3: bv32, w8: bv32, w14: bv32, w16: bv32)
    requires 16 <= t < 80
    requires Given(m, t - 3, w3) && Given(m, t - 8, w8) && Given(m, t - 14, w14) && Given(m, t - 16, w16)
    ensures hide Given; Given(m, t, Mixed(w3, w8, w14, w16))
  {
    hide Val, CircularShift, Xor;
    LaterWord(m, t);
    MixedIs(w3, w8, w14, w16);
  }

  lemma WordsFrom16(m: seq<byte>)
    requires hide Given; Words0(m)
    ensures hide Given; Words16(m)
  {
    hide Given;
    NextWord(m, 16, 0x00000000, 0x00000000, 0x00000000, 0x61626380);
    NextWord(m, 17, 0x00000000, 0x00000000, 0x00000000, 0x00000000);
    NextWord(m, 18, 0x00000018, 0x00000000, 0x00000000, 0x00000000);
    NextWord(m, 19, 0xC2C4C700, 0x00000000, 0x00000000, 0x00000000);
    NextWord(m, 20, 0x00000000, 0x00000000, 0x00000000, 0x00000000);
    NextWord(m, 21, 0x00000030, 0x00000000, 0x00000000, 0x00000000);
    NextWord(m, 22, 0x85898E01, 0x00000000, 0x00000000, 0x00000000);
    NextWord(m, 23, 0x00000000, 0x00000018, 0x00000000, 0x00000000);
    NextWord(m, 24, 0x00000060, 0xC2C4C700, 0x00000000, 0x00000000);
    NextWord(m, 25, 0x0B131C03, 0x00000000, 0x00000000, 0x00000000);
    NextWord(m, 26, 0x00000030, 0x00000030, 0x00000000, 0x00000000);
    NextWord(m, 27, 0x85898EC1, 0x85898E01, 0x00000000, 0x00000000);
    NextWord(m, 28, 0x16263806, 0x00000000, 0x00000000, 0x00000000);
    NextWord(m, 29, 0x00000000, 0x00000060, 0x00000018, 0x00000000);
    NextWord(m, 30, 0x00000180, 0x0B131C03, 0xC2C4C700, 0x00000000);
    NextWord(m, 31, 0x2C4C700C, 0x00000030, 0x00000000, 0x00000018);
  }

  lemma WordsFrom32(m: seq<byte>)
    requires hide Given; Words16(m)
    ensures hide Given; Words32(m)
  {
    hide Given;
    NextWord(m, 32, 0x000000F0, 0x85898EC1, 0x00000030, 0xC2C4C700);
    NextWord(m, 33, 0x93AFB507, 0x16263806, 0x85898E01, 0x00000000);
    NextWord(m, 34, 0x5898E048, 0x00000000, 0x00000000, 0x00000030);
    NextWord(m, 35, 0x8E9A9202, 0x00000180, 0x00000060, 0x85898E01);
    NextWord(m, 36, 0x00000600, 0x2C4C700C, 0x0B131C03, 0x00000000);
    NextWord(m, 37, 0xB131C0F0, 0x000000F0, 0x00000030, 0x00000060);
    NextWord(m, 38, 0x16263BC6, 0x93AFB507, 0x85898EC1, 0x0B131C03);
    NextWord(m, 39, 0x4EBED41E, 0x5898E048, 0x16263806, 0x00000030);
    NextWord(m, 40, 0x626380A1, 0x8E9A9202, 0x00000000, 0x85898EC1);
    NextWord(m, 41, 0x16263806, 0x00000600, 0x00000180, 0x16263806);
    NextWord(m, 42, 0x000018C0, 0xB131C0F0, 0x2C4C700C, 0x00000000);
    NextWord(m, 43, 0xD2E138C4, 0x16263BC6, 0x000000F0, 0x00000180);
    NextWord(m, 44, 0x00000F00, 0x4EBED41E, 0x93AFB507, 0x2C4C700C);
    NextWord(m, 45, 0x3AFB5079, 0x626380A1, 0x5898E048, 0x000000F0);
    NextWord(m, 46, 0x898E04E5, 0x16263806, 0x8E9A9202, 0x93AFB507);
    NextWord(m, 47, 0xE2BA3C2B, 0x000018C0, 0x00000600, 0x5898E048);
  }

  lemma WordsFrom48(m: seq<byte>)
    requires hide Given; Words32(m)
    ensures hide Given; Words48(m)
  {
    hide Given;
    NextWord(m, 48, 0x000060C0, 0xD2E138C4, 0xB131C0F0, 0x8E9A9202);
    NextWord(m, 49, 0x053A37CD, 0x00000F00, 0x16263BC6, 0x00000600);
    NextWord(m, 50, 0x74458547, 0x3AFB5079, 0x4EBED41E, 0xB131C0F0);
    NextWord(m, 51, 0xDA9415ED, 0x898E04E5, 0x626380A1, 0x16263BC6);
    NextWord(m, 52, 0x26380A16, 0xE2BA3C2B, 0x16263806, 0x4EBED41E);
    NextWord(m, 53, 0x626383A1, 0x000060C0, 0x000018C0, 0x626380A1);
    NextWord(m, 54, 0x4EBF54DE, 0x053A37CD, 0xD2E138C4, 0x16263806);
    NextWord(m, 55, 0x3835B44B, 0x74458547, 0x00000F00, 0x000018C0);
    NextWord(m, 56, 0x0000F600, 0xDA9415ED, 0x3AFB5079, 0xD2E138C4);
    NextWord(m, 57, 0x1E84C7A3, 0x26380A16, 0x898E04E5, 0x00000F00);
    NextWord(m, 58, 0x98E04D98, 0x626383A1, 0xE2BA3C2B, 0x3AFB5079);
    NextWord(m, 59, 0x651D16A0, 0x4EBF54DE, 0x000060C0, 0x898E04E5);
    NextWord(m, 60, 0x62658CA1, 0x3835B44B, 0x053A37CD, 0xE2BA3C2B);
    NextWord(m, 61, 0x458544D6, 0x0000F600, 0x74458547, 0x000060C0);
    NextWord(m, 62, 0x44584CB7, 0x1E84C7A3, 0xDA9415ED, 0x053A37CD);
    NextWord(m, 63, 0x7BA06619, 0x98E04D98, 0x26380A16, 0x74458547);
  }

  lemma WordsFrom64(m: seq<byte>)
    requires hide Given; Words48(m)
    ensures hide Given; Words64(m)
  {
    hide Given;
    NextWord(m, 64, 0x6380AEA2, 0x651D16A0, 0x626383A1, 0xDA9415ED);
    NextWord(m, 65, 0x0AE55269, 0x62658CA1, 0x4EBF54DE, 0x26380A16);
    NextWord(m, 66, 0x627B49A1, 0x458544D6, 0x3835B44B, 0x626383A1);
    NextWord(m, 67, 0x7CD45C9D, 0x44584CB7, 0x0000F600, 0x4EBF54DE);
    NextWord(m, 68, 0x000F0000, 0x7BA06619, 0x1E84C7A3, 0x3835B44B);
    NextWord(m, 69, 0xFB50753A, 0x6380AEA2, 0x98E04D98, 0x0000F600);
    NextWord(m, 70, 0xEC6765E8, 0x0AE55269, 0x651D16A0, 0x1E84C7A3);
    NextWord(m, 71, 0xBA3C2BE2, 0x627B49A1, 0x62658CA1, 0x98E04D98);
    NextWord(m, 72, 0x0060C000, 0x7CD45C9D, 0x458544D6, 0x651D16A0);
    NextWord(m, 73, 0x3A37CD05, 0x000F0000, 0x44584CB7, 0x62658CA1);
    NextWord(m, 74, 0x458546F4, 0xFB50753A, 0x7BA06619, 0x458544D6);
    NextWord(m, 75, 0xB8599DD6, 0xEC6765E8, 0x6380AEA2, 0x44584CB7);
    NextWord(m, 76, 0x380A1A26, 0xBA3C2BE2, 0x0AE55269, 0x7BA06619);
    NextWord(m, 77, 0x01E02203, 0x0060C000, 0x627B49A1, 0x6380AEA2);
    NextWord(m, 78, 0xE7CC3456, 0x3A37CD05, 0x7CD45C9D, 0x0AE55269);
    NextWord(m, 79, 0xE6E60B69, 0x458546F4, 0x000F0000, 0x627B49A1);
  }

  lemma NextRound(m: seq<byte>, t: nat, v: Vectors, w: bv32, a: bv32)
    requires t < 80 && Before(m, t, v) && Given(m, t, w)
    requires Decimal(a) ==
      Sum(Decimal(RotateFive(v.a)) + Decimal(FVector(t, v.b, v.c, v.d)) + Decimal(v.e) + Decimal(w) + K(t))
    ensures hide Before; Before(m, t + 1, Vectors(a, v.a, RotateThirty(v.b), v.c, v.d))
  {
    hide Val, Round, Decimal, Numbers, RotateFive, RotateThirty, FVector, K, Sum, W;
    RoundIs(v, t, w, a);
    OneRound(H0, m, t);
  }

  lemma RoundsFrom0(m: seq<byte>)
    requires hide Before, Given;
      Words0(m) && Before(m, 0, Vectors(0x67452301, 0xEFCDAB89, 0x98BADCFE, 0x10325476, 0xC3D2E1F0))
    ensures hide Before; Before(m, 8, Vectors(0x9E8C07D4, 0x993E30C1, 0x0FF1F290, 0xB3F52677, 0xF3763846))
  {
    hide Before, Given;
    NextRound(m, 0, Vectors(0x67452301, 0xEFCDAB89, 0x98BADCFE, 0x10325476, 0xC3D2E1F0), 0x61626380, 0x0116FC33);
    NextRound(m, 1, Vectors(0x0116FC33, 0x67452301, 0x7BF36AE2, 0x98BADCFE, 0x10325476), 0x00000000, 0x8990536D);
    NextRound(m, 2, Vectors(0x8990536D, 0x0116FC33, 0x59D148C0, 0x7BF36AE2, 0x98BADCFE), 0x00000000, 0xA1390F08);
    NextRound(m, 3, Vectors(0xA1390F08, 0x8990536D, 0xC045BF0C, 0x59D148C0, 0x7BF36AE2), 0x00000000, 0xCDD8E11B);
    NextRound(m, 4, Vectors(0xCDD8E11B, 0xA1390F08, 0x626414DB, 0xC045BF0C, 0x59D148C0), 0x00000000, 0xCFD499DE);
    NextRound(m, 5, Vectors(0xCFD499DE, 0xCDD8E11B, 0x284E43C2, 0x626414DB, 0xC045BF0C), 0x00000000, 0x3FC7CA40);
    NextRound(m, 6, Vectors(0x3FC7CA40, 0xCFD499DE, 0xF3763846, 0x284E43C2, 0x626414DB), 0x00000000, 0x993E30C1);
    NextRound(m, 7, Vectors(0x993E30C1, 0x3FC7CA40, 0xB3F52677, 0xF3763846, 0x284E43C2), 0x00000000, 0x9E8C07D4);
  }

  lemma RoundsFrom8(m: seq<byte>)
    requires hide Before, Given;
      Words0(m) && Before(m, 8, Vectors(0x9E8C07D4, 0x993E30C1, 0x0FF1F290, 0xB3F52677, 0xF3763846))
    ensures hide Before; Before(m, 16, Vectors(0x20BDD62F, 0x196BEE77, 0x644A3DA5, 0x1181ED99, 0x18C623F9))
  {
    hide Before, Given;
    NextRound(m, 8, Vectors(0x9E8C07D4, 0x993E30C1, 0x0FF1F290, 0xB3F52677, 0xF3763846), 0x00000000, 0x4B6AE328);
    NextRound(m, 9, Vectors(0x4B6AE328, 0x9E8C07D4, 0x664F8C30, 0x0FF1F290, 0xB3F52677), 0x00000000, 0x8351F929);
    NextRound(m, 10, Vectors(0x8351F929, 0x4B6AE328, 0x27A301F5, 0x664F8C30, 0x0FF1F290), 0x00000000, 0xFBDA9E89);
    NextRound(m, 11, Vectors(0xFBDA9E89, 0x8351F929, 0x12DAB8CA, 0x27A301F5, 0x664F8C30), 0x00000000, 0x63188FE4);
    NextRound(m, 12, Vectors(0x63188FE4, 0xFBDA9E89, 0x60D47E4A, 0x12DAB8CA, 0x27A301F5), 0x00000000, 0x4607B664);
    NextRound(m, 13, Vectors(0x4607B664, 0x63188FE4, 0x7EF6A7A2, 0x60D47E4A, 0x12DAB8CA), 0x00000000, 0x9128F695);
    NextRound(m, 14, Vectors(0x9128F695, 0x4607B664, 0x18C623F9, 0x7EF6A7A2, 0x60D47E4A), 0x00000000, 0x196BEE77);
    NextRound(m, 15, Vectors(0x196BEE77, 0x9128F695, 0x1181ED99, 0x18C623F9, 0x7EF6A7A2), 0x00000018, 0x20BDD62F);
  }

  lemma RoundsFrom16(m: seq<byte>)
    requires hide Before, Given;
      Words16(m) && Before(m, 16, Vectors(0x20BDD62F, 0x196BEE77, 0x644A3DA5, 0x1181ED99, 0x18C623F9))
    ensures hide Before; Before(m, 24, Vectors(0xD541F12D, 0x21283486, 0x0CE88EFF, 0x868DEC32, 0x7F67875F))
  {
    hide Before, Given;
    NextRound(m, 16, Vectors(0x20BDD62F, 0x196BEE77, 0x644A3DA5, 0x1181ED99, 0x18C623F9), 0xC2C4C700, 0x4E925823);
    NextRound(m, 17, Vectors(0x4E925823, 0x20BDD62F, 0xC65AFB9D, 0x644A3DA5, 0x1181ED99), 0x00000000, 0x82AA6728);
    NextRound(m, 18, Vectors(0x82AA6728, 0x4E925823, 0xC82F758B, 0xC65AFB9D, 0x644A3DA5), 0x00000030, 0xDC64901D);
    NextRound(m, 19, Vectors(0xDC64901D, 0x82AA6728, 0xD3A49608, 0xC82F758B, 0xC65AFB9D), 0x85898E01, 0xFD9E1D7D);
    NextRound(m, 20, Vectors(0xFD9E1D7D, 0xDC64901D, 0x20AA99CA, 0xD3A49608, 0xC82F758B), 0x00000000, 0x1A37B0CA);
    NextRound(m, 21, Vectors(0x1A37B0CA, 0xFD9E1D7D, 0x77192407, 0x20AA99CA, 0xD3A49608), 0x00000060, 0x33A23BFC);
    NextRound(m, 22, Vectors(0x33A23BFC, 0x1A37B0CA, 0x7F67875F, 0x77192407, 0x20AA99CA), 0x0B131C03, 0x21283486);
    NextRound(m, 23, Vectors(0x21283486, 0x33A23BFC, 0x868DEC32, 0x7F67875F, 0x77192407), 0x00000030, 0xD541F12D);
  }

  lemma RoundsFrom24(m: seq<byte>)
    requires hide Before, Given;
      Words16(m) && Before(m, 24, Vectors(0xD541F12D, 0x21283486, 0x0CE88EFF, 0x868DEC32, 0x7F67875F))
    ensures hide Before; Before(m, 32, Vectors(0x3B845D33, 0x1267B407, 0x717EEBD7, 0xA0DC2D4B, 0xD2AA1365))
  {
    hide Before, Given;
    NextRound(m, 24, Vectors(0xD541F12D, 0x21283486, 0x0CE88EFF, 0x868DEC32, 0x7F67875F), 0x85898EC1, 0xC7567DC6);
    NextRound(m, 25, Vectors(0xC7567DC6, 0xD541F12D, 0x884A0D21, 0x0CE88EFF, 0x868DEC32), 0x16263806, 0x48413BA4);
    NextRound(m, 26, Vectors(0x48413BA4, 0xC7567DC6, 0x75507C4B, 0x884A0D21, 0x0CE88EFF), 0x00000000, 0xBE35FBD5);
    NextRound(m, 27, Vectors(0xBE35FBD5, 0x48413BA4, 0xB1D59F71, 0x75507C4B, 0x884A0D21), 0x00000180, 0x4AA84D97);
    NextRound(m, 28, Vectors(0x4AA84D97, 0xBE35FBD5, 0x12104EE9, 0xB1D59F71, 0x75507C4B), 0x2C4C700C, 0x8370B52E);
    NextRound(m, 29, Vectors(0x8370B52E, 0x4AA84D97, 0x6F8D7EF5, 0x12104EE9, 0xB1D59F71), 0x000000F0, 0xC5FBAF5D);
    NextRound(m, 30, Vectors(0xC5FBAF5D, 0x8370B52E, 0xD2AA1365, 0x6F8D7EF5, 0x12104EE9), 0x93AFB507, 0x1267B407);
    NextRound(m, 31, Vectors(0x1267B407, 0xC5FBAF5D, 0xA0DC2D4B, 0xD2AA1365, 0x6F8D7EF5), 0x5898E048, 0x3B845D33);
  }

  lemma RoundsFrom32(m: seq<byte>)
    requires hide Before, Given;
      Words32(m) && Before(m, 32, Vectors(0x3B845D33, 0x1267B407, 0x717EEBD7, 0xA0DC2D4B, 0xD2AA1365))
    ensures hide Before; Before(m, 40, Vectors(0x32DE1CBA, 0x4C986405, 0xF718E5CF, 0x03D447F6, 0xF72EEC32))
  {
    hide Before, Given;
    NextRound(m, 32, Vectors(0x3B845D33, 0x1267B407, 0x717EEBD7, 0xA0DC2D4B, 0xD2AA1365), 0x8E9A9202, 0x046FAA0A);
    NextRound(m, 33, Vectors(0x046FAA0A, 0x3B845D33, 0xC499ED01, 0x717EEBD7, 0xA0DC2D4B), 0x00000600, 0x2C0EBC11);
    NextRound(m, 34, Vectors(0x2C0EBC11, 0x046FAA0A, 0xCEE1174C, 0xC499ED01, 0x717EEBD7), 0xB131C0F0, 0x21796AD4);
    NextRound(m, 35, Vectors(0x21796AD4, 0x2C0EBC11, 0x811BEA82, 0xCEE1174C, 0xC499ED01), 0x16263BC6, 0xDCBBB0CB);
    NextRound(m, 36, Vectors(0xDCBBB0CB, 0x21796AD4, 0x4B03AF04, 0x811BEA82, 0xCEE1174C), 0x4EBED41E, 0x0F511FD8);
    NextRound(m, 37, Vectors(0x0F511FD8, 0xDCBBB0CB, 0x085E5AB5, 0x4B03AF04, 0x811BEA82), 0x626380A1, 0xDC63973F);
    NextRound(m, 38, Vectors(0xDC63973F, 0x0F511FD8, 0xF72EEC32, 0x085E5AB5, 0x4B03AF04), 0x16263806, 0x4C986405);
    NextRound(m, 39, Vectors(0x4C986405, 0xDC63973F, 0x03D447F6, 0xF72EEC32, 0x085E5AB5), 0x000018C0, 0x32DE1CBA);
  }

  lemma RoundsFrom40(m: seq<byte>)
    requires hide Before, Given;
      Words32(m) && Before(m, 40, Vectors(0x32DE1CBA, 0x4C986405, 0xF718E5CF, 0x03D447F6, 0xF72EEC32))
    ensures hide Before; Before(m, 48, Vectors(0xBEAD02CA, 0xA01B846C, 0x8714787C, 0x503CA382, 0xFB86C6AB))
  {
    hide Before, Given;
    NextRound(m, 40, Vectors(0x32DE1CBA, 0x4C986405, 0xF718E5CF, 0x03D447F6, 0xF72EEC32), 0xD2E138C4, 0xFC87DEDF);
    NextRound(m, 41, Vectors(0xFC87DEDF, 0x32DE1CBA, 0x53261901, 0xF718E5CF, 0x03D447F6), 0x00000F00, 0x970A0D5C);
    NextRound(m, 42, Vectors(0x970A0D5C, 0xFC87DEDF, 0x8CB7872E, 0x53261901, 0xF718E5CF), 0x3AFB5079, 0x7F193DC5);
    NextRound(m, 43, Vectors(0x7F193DC5, 0x970A0D5C, 0xFF21F7B7, 0x8CB7872E, 0x53261901), 0x898E04E5, 0xEE1B1AAF);
    NextRound(m, 44, Vectors(0xEE1B1AAF, 0x7F193DC5, 0x25C28357, 0xFF21F7B7, 0x8CB7872E), 0xE2BA3C2B, 0x40F28E09);
    NextRound(m, 45, Vectors(0x40F28E09, 0xEE1B1AAF, 0x5FC64F71, 0x25C28357, 0xFF21F7B7), 0x000060C0, 0x1C51E1F2);
    NextRound(m, 46, Vectors(0x1C51E1F2, 0x40F28E09, 0xFB86C6AB, 0x5FC64F71, 0x25C28357), 0x053A37CD, 0xA01B846C);
    NextRound(m, 47, Vectors(0xA01B846C, 0x1C51E1F2, 0x503CA382, 0xFB86C6AB, 0x5FC64F71), 0x74458547, 0xBEAD02CA);
  }

  lemma RoundsFrom48(m: seq<byte>)
    requires hide Before, Given;
      Words48(m) && Before(m, 48, Vectors(0xBEAD02CA, 0xA01B846C, 0x8714787C, 0x503CA382, 0xFB86C6AB))
    ensures hide Before; Before(m, 56, Vectors(0x5E6456AF, 0x7B71F76D, 0x09FA7C76, 0x792410DB, 0x8E11EB59))
  {
    hide Before, Given;
    NextRound(m, 48, Vectors(0xBEAD02CA, 0xA01B846C, 0x8714787C, 0x503CA382, 0xFB86C6AB), 0xDA9415ED, 0xBAF39337);
    NextRound(m, 49, Vectors(0xBAF39337, 0xBEAD02CA, 0x2806E11B, 0x8714787C, 0x503CA382), 0x26380A16, 0x120731C5);
    NextRound(m, 50, Vectors(0x120731C5, 0xBAF39337, 0xAFAB40B2, 0x2806E11B, 0x8714787C), 0x626383A1, 0x641DB2CE);
    NextRound(m, 51, Vectors(0x641DB2CE, 0x120731C5, 0xEEBCE4CD, 0xAFAB40B2, 0x2806E11B), 0x4EBF54DE, 0x3847AD66);
    NextRound(m, 52, Vectors(0x3847AD66, 0x641DB2CE, 0x4481CC71, 0xEEBCE4CD, 0xAFAB40B2), 0x3835B44B, 0xE490436D);
    NextRound(m, 53, Vectors(0xE490436D, 0x3847AD66, 0x99076CB3, 0x4481CC71, 0xEEBCE4CD), 0x0000F600, 0x27E9F1D8);
    NextRound(m, 54, Vectors(0x27E9F1D8, 0xE490436D, 0x8E11EB59, 0x99076CB3, 0x4481CC71), 0x1E84C7A3, 0x7B71F76D);
    NextRound(m, 55, Vectors(0x7B71F76D, 0x27E9F1D8, 0x792410DB, 0x8E11EB59, 0x99076CB3), 0x98E04D98, 0x5E6456AF);
  }

  lemma RoundsFrom56(m: seq<byte>)
    requires hide Before, Given;
      Words48(m) && Before(m, 56, Vectors(0x5E6456AF, 0x7B71F76D, 0x09FA7C76, 0x792410DB, 0x8E11EB59))
    ensures hide Before; Before(m, 64, Vectors(0x6B61C9E1, 0xB66C020B, 0x9523272C, 0xF5D5B051, 0x8FD4B796))
  {
    hide Before, Given;
    NextRound(m, 56, Vectors(0x5E6456AF, 0x7B71F76D, 0x09FA7C76, 0x792410DB, 0x8E11EB59), 0x651D16A0, 0xC846093F);
    NextRound(m, 57, Vectors(0xC846093F, 0x5E6456AF, 0x5EDC7DDB, 0x09FA7C76, 0x792410DB), 0x62658CA1, 0xD262FF50);
    NextRound(m, 58, Vectors(0xD262FF50, 0xC846093F, 0xD79915AB, 0x5EDC7DDB, 0x09FA7C76), 0x458544D6, 0x09D785FD);
    NextRound(m, 59, Vectors(0x09D785FD, 0xD262FF50, 0xF211824F, 0xD79915AB, 0x5EDC7DDB), 0x44584CB7, 0x3F52DE5A);
    NextRound(m, 60, Vectors(0x3F52DE5A, 0x09D785FD, 0x3498BFD4, 0xF211824F, 0xD79915AB), 0x7BA06619, 0xD756C147);
    NextRound(m, 61, Vectors(0xD756C147, 0x3F52DE5A, 0x4275E17F, 0x3498BFD4, 0xF211824F), 0x6380AEA2, 0x548C9CB2);
    NextRound(m, 62, Vectors(0x548C9CB2, 0xD756C147, 0x8FD4B796, 0x4275E17F, 0x3498BFD4), 0x0AE55269, 0xB66C020B);
    NextRound(m, 63, Vectors(0xB66C020B, 0x548C9CB2, 0xF5D5B051, 0x8FD4B796, 0x4275E17F), 0x627B49A1, 0x6B61C9E1);
  }

  lemma RoundsFrom64(m: seq<byte>)
    requires hide Before, Given;
      Words64(m) && Before(m, 64, Vectors(0x6B61C9E1, 0xB66C020B, 0x9523272C, 0xF5D5B051, 0x8FD4B796))
    ensures hide Before; Before(m, 72, Vectors(0x39859DE7, 0xC199F8C7, 0x8FC96230, 0x125C24F0, 0xDE37534A))
  {
    hide Before, Given;
    NextRound(m, 64, Vectors(0x6B61C9E1, 0xB66C020B, 0x9523272C, 0xF5D5B051, 0x8FD4B796), 0x7CD45C9D, 0x19DFA7AC);
    NextRound(m, 65, Vectors(0x19DFA7AC, 0x6B61C9E1, 0xED9B0082, 0x9523272C, 0xF5D5B051), 0x000F0000, 0x101655F9);
    NextRound(m, 66, Vectors(0x101655F9, 0x19DFA7AC, 0x5AD87278, 0xED9B0082, 0x9523272C), 0xFB50753A, 0x0C3DF2B4);
    NextRound(m, 67, Vectors(0x0C3DF2B4, 0x101655F9, 0x0677E9EB, 0x5AD87278, 0xED9B0082), 0xEC6765E8, 0x78DD4D2B);
    NextRound(m, 68, Vectors(0x78DD4D2B, 0x0C3DF2B4, 0x4405957E, 0x0677E9EB, 0x5AD87278), 0xBA3C2BE2, 0x497093C0);
    NextRound(m, 69, Vectors(0x497093C0, 0x78DD4D2B, 0x030F7CAD, 0x4405957E, 0x0677E9EB), 0x0060C000, 0x3F2588C2);
    NextRound(m, 70, Vectors(0x3F2588C2, 0x497093C0, 0xDE37534A, 0x030F7CAD, 0x4405957E), 0x3A37CD05, 0xC199F8C7);
    NextRound(m, 71, Vectors(0xC199F8C7, 0x3F2588C2, 0x125C24F0, 0xDE37534A, 0x030F7CAD), 0x458546F4, 0x39859DE7);
  }

  lemma RoundsFrom72(m: seq<byte>)
    requires hide Before, Given;
      Words64(m) && Before(m, 72, Vectors(0x39859DE7, 0xC199F8C7, 0x8FC96230, 0x125C24F0, 0xDE37534A))
    ensures hide Before; Before(m, 80, Vectors(0x42541B35, 0x5738D5E1, 0x21834873, 0x681E6DF6, 0xD8FDF6AD))
  {
    hide Before, Given;
    NextRound(m, 72, Vectors(0x39859DE7, 0xC199F8C7, 0x8FC96230, 0x125C24F0, 0xDE37534A), 0xB8599DD6, 0xEDB42DE4);
    NextRound(m, 73, Vectors(0xEDB42DE4, 0x39859DE7, 0xF0667E31, 0x8FC96230, 0x125C24F0), 0x380A1A26, 0x11793F6F);
    NextRound(m, 74, Vectors(0x11793F6F, 0xEDB42DE4, 0xCE616779, 0xF0667E31, 0x8FC96230), 0x01E02203, 0x5EE76897);
    NextRound(m, 75, Vectors(0x5EE76897, 0x11793F6F, 0x3B6D0B79, 0xCE616779, 0xF0667E31), 0xE7CC3456, 0x63F7DAB7);
    NextRound(m, 76, Vectors(0x63F7DAB7, 0x5EE76897, 0xC45E4FDB, 0x3B6D0B79, 0xCE616779), 0xE6E60B69, 0xA079B7D9);
    NextRound(m, 77, Vectors(0xA079B7D9, 0x63F7DAB7, 0xD7B9DA25, 0xC45E4FDB, 0x3B6D0B79), 0x00F60A00, 0x860D21CC);
    NextRound(m, 78, Vectors(0x860D21CC, 0xA079B7D9, 0xD8FDF6AD, 0xD7B9DA25, 0xC45E4FDB), 0x5795EF4F, 0x5738D5E1);
    NextRound(m, 79, Vectors(0x5738D5E1, 0x860D21CC, 0x681E6DF6, 0xD8FDF6AD, 0xD7B9DA25), 0x822E0879, 0x42541B35);
  }

  lemma Start(m: seq<byte>)
    requires |m| == 64
    ensures hide Before; Before(m, 0, Vectors(0x67452301, 0xEFCDAB89, 0x98BADCFE, 0x10325476, 0xC3D2E1F0))
  {
    hide Val;
    ValIs(0x67452301);
    ValIs(0xEFCDAB89);
    ValIs(0x98BADCFE);
    ValIs(0x10325476);
    ValIs(0xC3D2E1F0);
  }

  lemma AllRounds(m: seq<byte>)
    requires m == Block()
    ensures hide Before; Before(m, 80, Vectors(0x42541B35, 0x5738D5E1, 0x21834873, 0x681E6DF6, 0xD8FDF6AD))
  {
    FirstWords(m);
    hide Words0, Words16, Words32, Words48, Words64, Before;
    WordsFrom16(m);
    WordsFrom32(m);
    WordsFrom48(m);
    WordsFrom64(m);
    Start(m);
    RoundsFrom0(m);
    RoundsFrom8(m);
    RoundsFrom16(m);
    RoundsFrom24(m);
    RoundsFrom32(m);
    RoundsFrom40(m);
    RoundsFrom48(m);
    RoundsFrom56(m);
    RoundsFrom64(m);
    RoundsFrom72(m);
  }

  lemma Sums()
    ensures var r := Numbers(Vectors(0x42541B35, 0x5738D5E1, 0x21834873, 0x681E6DF6, 0xD8FDF6AD));
      Words(Sum(H0.a + r.a), Sum(H0.b + r.b), Sum(H0.c + r.c), Sum(H0.d + r.d), Sum(H0.e + r.e)) ==
      Words(0xA9993E36, 0x4706816A, 0xBA3E2571, 0x7850C26C, 0x9CD0D89D)
  {
    hide Val;
    ValIs(0x42541B35);
    ValIs(0x5738D5E1);
    ValIs(0x21834873);
    ValIs(0x681E6DF6);
    ValIs(0xD8FDF6AD);
  }

  /** The digest of "abc", appendix A of FIPS PUB 180-1. */
  lemma Abc()
    ensures Digest([0x61, 0x62, 0x63]) == Words(0xA9993E36, 0x4706816A, 0xBA3E2571, 0x7850C26C, 0x9CD0D89D)
  {
    hide Rounds, Numbers, Padded, Sum;
    var m := Block();
    PaddedIs();
    AllRounds(m);
    Sums();
    assert m[..64] == m && m[64..] == [];
    assert Hash(Compress(H0, m), []) == Compress(H0, m);
  }
}
