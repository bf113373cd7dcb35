// The first test vector that sha1.c names, of FIPS 180-4: the digest of "abc".
module Sha1Vector {
  import opened Sha1Standard
  import S = Sha1

  function Abc(): seq<octet> { [97, 98, 99] }

  /** The only block of the padded message. */
  function Block(): (m: seq<word>)
    ensures |m| == 16
  {
    [0x61626380, 0, 0, 0, 0, 0, 0, 0, 0, 0, 0, 0, 0, 0, 0, 24]
  }

  lemma LengthOctets()
    ensures Big64(24) == [0, 0, 0, 0, 0, 0, 0, 24]
  {
    assert Octet(0) == 0 && Octet(24) == 24;
    hide Octet;
    assert Big64(24) == [Octet(0), Octet(0), Octet(0), Octet(0), Octet(0), Octet(0), Octet(0), Octet(24)];
  }

  lemma AbcPadded()
    ensures |Padded(Abc())| == 64
    ensures Padded(Abc())[..4] == [97, 98, 99, 0x80] && Padded(Abc())[60..] == [0, 0, 0, 24]
    ensures forall i :: 4 <= i < 60 ==> Padded(Abc())[i] == 0
  {
    hide Big64;
    LengthOctets();
    var l: seq<octet> := [0, 0, 0, 0, 0, 0, 0, 24];
    var p := Abc() + [0x80] + Zeros(52) + l;
    assert Padded(Abc()) == p;
    hide Padded;
    assert p[..4] == [97, 98, 99, 0x80];
    assert forall i :: 4 <= i < 56 ==> p[i] == Zeros(52)[i - 4] == 0;
    assert forall i :: 56 <= i < 64 ==> p[i] == l[i - 56];
  }

  lemma AbcWords(p: seq<octet>)
    requires |p| == 64 && p[..4] == [97, 98, 99, 0x80] && p[60..] == [0, 0, 0, 24] && forall i :: 4 <= i < 60 ==> p[i] == 0
    ensures Words(p) == Block()
  {
    assert BigWord(97, 98, 99, 0x80) == 0x61626380 && BigWord(0, 0, 0, 0) == 0 && BigWord(0, 0, 0, 24) == 24;
    hide BigWord;
    assert p[0] == p[..4][0] && p[1] == p[..4][1] && p[2] == p[..4][2] && p[3] == p[..4][3];
    assert p[60] == p[60..][0] && p[61] == p[60..][1] && p[62] == p[60..][2] && p[63] == p[60..][3];
    var m := Words(p);
    forall i | 0 < i < 15 ensures m[i] == 0 { assert m[i] == BigWord(0, 0, 0, 0); }
    assert forall i :: 0 < i < 15 ==> Block()[i] == 0;
  }

  /** One step on known values. */
  lemma Next(t: nat, s: State, w: word, r: State)
    requires Steps(Initial(), Block(), t) == s && W(Block(), t) == w && Step(s, t, w) == r
    ensures Steps(Initial(), Block(), t + 1) == r
  {}

  lemma TenWords()
    ensures W(Block(), 0) == 0x61626380 && W(Block(), 1) == 0x00000000 && W(Block(), 2) == 0x00000000 && W(Block(), 3) == 0x00000000
    ensures W(Block(), 4) == 0x00000000 && W(Block(), 5) == 0x00000000 && W(Block(), 6) == 0x00000000 && W(Block(), 7) == 0x00000000
    ensures W(Block(), 8) == 0x00000000 && W(Block(), 9) == 0x00000000
  {
  }

  lemma TwentyWords()
    ensures W(Block(), 10) == 0x00000000 && W(Block(), 11) == 0x00000000 && W(Block(), 12) == 0x00000000 && W(Block(), 13) == 0x00000000
    ensures W(Block(), 14) == 0x00000000 && W(Block(), 15) == 0x00000018 && W(Block(), 16) == 0xC2C4C700 && W(Block(), 17) == 0x00000000
    ensures W(Block(), 18) == 0x00000030 && W(Block(), 19) == 0x85898E01
  {
    TenWords();
    assert W(Block(), 16) == Rol1(0x00000000 ^ 0x00000000 ^ 0x00000000 ^ 0x61626380) == 0xC2C4C700;
    assert W(Block(), 17) == Rol1(0x00000000 ^ 0x00000000 ^ 0x00000000 ^ 0x00000000) == 0x00000000;
    assert W(Block(), 18) == Rol1(0x00000018 ^ 0x00000000 ^ 0x00000000 ^ 0x00000000) == 0x00000030;
    assert W(Block(), 19) == Rol1(0xC2C4C700 ^ 0x00000000 ^ 0x00000000 ^ 0x00000000) == 0x85898E01;
  }

  lemma ThirtyWords()
    ensures W(Block(), 20) == 0x00000000 && W(Block(), 21) == 0x00000060 && W(Block(), 22) == 0x0B131C03 && W(Block(), 23) == 0x00000030
    ensures W(Block(), 24) == 0x85898EC1 && W(Block(), 25) == 0x16263806 && W(Block(), 26) == 0x00000000 && W(Block(), 27) == 0x00000180
    ensures W(Block(), 28) == 0x2C4C700C && W(Block(), 29) == 0x000000F0
  {
    TwentyWords();
    TenWords();
    assert W(Block(), 20) == Rol1(0x00000000 ^ 0x00000000 ^ 0x00000000 ^ 0x00000000) == 0x00000000;
    assert W(Block(), 21) == Rol1(0x00000030 ^ 0x00000000 ^ 0x00000000 ^ 0x00000000) == 0x00000060;
    assert W(Block(), 22) == Rol1(0x85898E01 ^ 0x00000000 ^ 0x00000000 ^ 0x00000000) == 0x0B131C03;
    assert W(Block(), 23) == Rol1(0x00000000 ^ 0x00000018 ^ 0x00000000 ^ 0x00000000) == 0x00000030;
    assert W(Block(), 24) == Rol1(0x00000060 ^ 0xC2C4C700 ^ 0x00000000 ^ 0x00000000) == 0x85898EC1;
    assert W(Block(), 25) == Rol1(0x0B131C03 ^ 0x00000000 ^ 0x00000000 ^ 0x00000000) == 0x16263806;
    assert W(Block(), 26) == Rol1(0x00000030 ^ 0x00000030 ^ 0x00000000 ^ 0x00000000) == 0x00000000;
    assert W(Block(), 27) == Rol1(0x85898EC1 ^ 0x85898E01 ^ 0x00000000 ^ 0x00000000) == 0x00000180;
    assert W(Block(), 28) == Rol1(0x16263806 ^ 0x00000000 ^ 0x00000000 ^ 0x00000000) == 0x2C4C700C;
    assert W(Block(), 29) == Rol1(0x00000000 ^ 0x00000060 ^ 0x00000018 ^ 0x00000000) == 0x000000F0;
  }

  lemma FortyWords()
    ensures W(Block(), 30) == 0x93AFB507 && W(Block(), 31) == 0x5898E048 && W(Block(), 32) == 0x8E9A9202 && W(Block(), 33) == 0x00000600
    ensures W(Block(), 34) == 0xB131C0F0 && W(Block(), 35) == 0x16263BC6 && W(Block(), 36) == 0x4EBED41E && W(Block(), 37) == 0x626380A1
    ensures W(Block(), 38) == 0x16263806 && W(Block(), 39) == 0x000018C0
  {
    ThirtyWords();
    TwentyWords();
    assert W(Block(), 30) == Rol1(0x00000180 ^ 0x0B131C03 ^ 0xC2C4C700 ^ 0x00000000) == 0x93AFB507;
    assert W(Block(), 31) == Rol1(0x2C4C700C ^ 0x00000030 ^ 0x00000000 ^ 0x00000018) == 0x5898E048;
    assert W(Block(), 32) == Rol1(0x000000F0 ^ 0x85898EC1 ^ 0x00000030 ^ 0xC2C4C700) == 0x8E9A9202;
    assert W(Block(), 33) == Rol1(0x93AFB507 ^ 0x16263806 ^ 0x85898E01 ^ 0x00000000) == 0x00000600;
    assert W(Block(), 34) == Rol1(0x5898E048 ^ 0x00000000 ^ 0x00000000 ^ 0x00000030) == 0xB131C0F0;
    assert W(Block(), 35) == Rol1(0x8E9A9202 ^ 0x00000180 ^ 0x00000060 ^ 0x85898E01) == 0x16263BC6;
    assert W(Block(), 36) == Rol1(0x00000600 ^ 0x2C4C700C ^ 0x0B131C03 ^ 0x00000000) == 0x4EBED41E;
    assert W(Block(), 37) == Rol1(0xB131C0F0 ^ 0x000000F0 ^ 0x00000030 ^ 0x00000060) == 0x626380A1;
    assert W(Block(), 38) == Rol1(0x16263BC6 ^ 0x93AFB507 ^ 0x85898EC1 ^ 0x0B131C03) == 0x16263806;
    assert W(Block(), 39) == Rol1(0x4EBED41E ^ 0x5898E048 ^ 0x16263806 ^ 0x00000030) == 0x000018C0;
  }

  lemma FiftyWords()
    ensures W(Block(), 40) == 0xD2E138C4 && W(Block(), 41) == 0x00000F00 && W(Block(), 42) == 0x3AFB5079 && W(Block(), 43) == 0x898E04E5
    ensures W(Block(), 44) == 0xE2BA3C2B && W(Block(), 45) == 0x000060C0 && W(Block(), 46) == 0x053A37CD && W(Block(), 47) == 0x74458547
    ensures W(Block(), 48) == 0xDA9415ED && W(Block(), 49) == 0x26380A16
  {
    FortyWords();
    ThirtyWords();
    assert W(Block(), 40) == Rol1(0x626380A1 ^ 0x8E9A9202 ^ 0x00000000 ^ 0x85898EC1) == 0xD2E138C4;
    assert W(Block(), 41) == Rol1(0x16263806 ^ 0x00000600 ^ 0x00000180 ^ 0x16263806) == 0x00000F00;
    assert W(Block(), 42) == Rol1(0x000018C0 ^ 0xB131C0F0 ^ 0x2C4C700C ^ 0x00000000) == 0x3AFB5079;
    assert W(Block(), 43) == Rol1(0xD2E138C4 ^ 0x16263BC6 ^ 0x000000F0 ^ 0x00000180) == 0x898E04E5;
    assert W(Block(), 44) == Rol1(0x00000F00 ^ 0x4EBED41E ^ 0x93AFB507 ^ 0x2C4C700C) == 0xE2BA3C2B;
    assert W(Block(), 45) == Rol1(0x3AFB5079 ^ 0x626380A1 ^ 0x5898E048 ^ 0x000000F0) == 0x000060C0;
    assert W(Block(), 46) == Rol1(0x898E04E5 ^ 0x16263806 ^ 0x8E9A9202 ^ 0x93AFB507) == 0x053A37CD;
    assert W(Block(), 47) == Rol1(0xE2BA3C2B ^ 0x000018C0 ^ 0x00000600 ^ 0x5898E048) == 0x74458547;
    assert W(Block(), 48) == Rol1(0x000060C0 ^ 0xD2E138C4 ^ 0xB131C0F0 ^ 0x8E9A9202) == 0xDA9415ED;
    assert W(Block(), 49) == Rol1(0x053A37CD ^ 0x00000F00 ^ 0x16263BC6 ^ 0x00000600) == 0x26380A16;
  }

  lemma SixtyWords()
    ensures W(Block(), 50) == 0x626383A1 && W(Block(), 51) == 0x4EBF54DE && W(Block(), 52) == 0x3835B44B && W(Block(), 53) == 0x0000F600
    ensures W(Block(), 54) == 0x1E84C7A3 && W(Block(), 55) == 0x98E04D98 && W(Block(), 56) == 0x651D16A0 && W(Block(), 57) == 0x62658CA1
    ensures W(Block(), 58) == 0x458544D6 && W(Block(), 59) == 0x44584CB7
  {
    FiftyWords();
    FortyWords();
    assert W(Block(), 50) == Rol1(0x74458547 ^ 0x3AFB5079 ^ 0x4EBED41E ^ 0xB131C0F0) == 0x626383A1;
    assert W(Block(), 51) == Rol1(0xDA9415ED ^ 0x898E04E5 ^ 0x626380A1 ^ 0x16263BC6) == 0x4EBF54DE;
    assert W(Block(), 52) == Rol1(0x26380A16 ^ 0xE2BA3C2B ^ 0x16263806 ^ 0x4EBED41E) == 0x3835B44B;
    assert W(Block(), 53) == Rol1(0x626383A1 ^ 0x000060C0 ^ 0x000018C0 ^ 0x626380A1) == 0x0000F600;
    assert W(Block(), 54) == Rol1(0x4EBF54DE ^ 0x053A37CD ^ 0xD2E138C4 ^ 0x16263806) == 0x1E84C7A3;
    assert W(Block(), 55) == Rol1(0x3835B44B ^ 0x74458547 ^ 0x00000F00 ^ 0x000018C0) == 0x98E04D98;
    assert W(Block(), 56) == Rol1(0x0000F600 ^ 0xDA9415ED ^ 0x3AFB5079 ^ 0xD2E138C4) == 0x651D16A0;
    assert W(Block(), 57) == Rol1(0x1E84C7A3 ^ 0x26380A16 ^ 0x898E04E5 ^ 0x00000F00) == 0x62658CA1;
    assert W(Block(), 58) == Rol1(0x98E04D98 ^ 0x626383A1 ^ 0xE2BA3C2B ^ 0x3AFB5079) == 0x458544D6;
    assert W(Block(), 59) == Rol1(0x651D16A0 ^ 0x4EBF54DE ^ 0x000060C0 ^ 0x898E04E5) == 0x44584CB7;
  }

  lemma SeventyWords()
    ensures W(Block(), 60) == 0x7BA06619 && W(Block(), 61) == 0x6380AEA2 && W(Block(), 62) == 0x0AE55269 && W(Block(), 63) == 0x627B49A1
    ensures W(Block(), 64) == 0x7CD45C9D && W(Block(), 65) == 0x000F0000 && W(Block(), 66) == 0xFB50753A && W(Block(), 67) == 0xEC6765E8
    ensures W(Block(), 68) == 0xBA3C2BE2 && W(Block(), 69) == 0x0060C000
  {
    SixtyWords();
    FiftyWords();
    assert W(Block(), 60) == Rol1(0x62658CA1 ^ 0x3835B44B ^ 0x053A37CD ^ 0xE2BA3C2B) == 0x7BA06619;
    assert W(Block(), 61) == Rol1(0x458544D6 ^ 0x0000F600 ^ 0x74458547 ^ 0x000060C0) == 0x6380AEA2;
    assert W(Block(), 62) == Rol1(0x44584CB7 ^ 0x1E84C7A3 ^ 0xDA9415ED ^ 0x053A37CD) == 0x0AE55269;
    assert W(Block(), 63) == Rol1(0x7BA06619 ^ 0x98E04D98 ^ 0x26380A16 ^ 0x74458547) == 0x627B49A1;
    assert W(Block(), 64) == Rol1(0x6380AEA2 ^ 0x651D16A0 ^ 0x626383A1 ^ 0xDA9415ED) == 0x7CD45C9D;
    assert W(Block(), 65) == Rol1(0x0AE55269 ^ 0x62658CA1 ^ 0x4EBF54DE ^ 0x26380A16) == 0x000F0000;
    assert W(Block(), 66) == Rol1(0x627B49A1 ^ 0x458544D6 ^ 0x3835B44B ^ 0x626383A1) == 0xFB50753A;
    assert W(Block(), 67) == Rol1(0x7CD45C9D ^ 0x44584CB7 ^ 0x0000F600 ^ 0x4EBF54DE) == 0xEC6765E8;
    assert W(Block(), 68) == Rol1(0x000F0000 ^ 0x7BA06619 ^ 0x1E84C7A3 ^ 0x3835B44B) == 0xBA3C2BE2;
    assert W(Block(), 69) == Rol1(0xFB50753A ^ 0x6380AEA2 ^ 0x98E04D98 ^ 0x0000F600) == 0x0060C000;
  }

  lemma EightyWords()
    ensures W(Block(), 70) == 0x3A37CD05 && W(Block(), 71) == 0x458546F4 && W(Block(), 72) == 0xB8599DD6 && W(Block(), 73) == 0x380A1A26
    ensures W(Block(), 74) == 0x01E02203 && W(Block(), 75) == 0xE7CC3456 && W(Block(), 76) == 0xE6E60B69 && W(Block(), 77) == 0x00F60A00
    ensures W(Block(), 78) == 0x5795EF4F && W(Block(), 79) == 0x822E0879
  {
    SeventyWords();
    SixtyWords();
    assert W(Block(), 70) == Rol1(0xEC6765E8 ^ 0x0AE55269 ^ 0x651D16A0 ^ 0x1E84C7A3) == 0x3A37CD05;
    assert W(Block(), 71) == Rol1(0xBA3C2BE2 ^ 0x627B49A1 ^ 0x62658CA1 ^ 0x98E04D98) == 0x458546F4;
    assert W(Block(), 72) == Rol1(0x0060C000 ^ 0x7CD45C9D ^ 0x458544D6 ^ 0x651D16A0) == 0xB8599DD6;
    assert W(Block(), 73) == Rol1(0x3A37CD05 ^ 0x000F0000 ^ 0x44584CB7 ^ 0x62658CA1) == 0x380A1A26;
    assert W(Block(), 74) == Rol1(0x458546F4 ^ 0xFB50753A ^ 0x7BA06619 ^ 0x458544D6) == 0x01E02203;
    assert W(Block(), 75) == Rol1(0xB8599DD6 ^ 0xEC6765E8 ^ 0x6380AEA2 ^ 0x44584CB7) == 0xE7CC3456;
    assert W(Block(), 76) == Rol1(0x380A1A26 ^ 0xBA3C2BE2 ^ 0x0AE55269 ^ 0x7BA06619) == 0xE6E60B69;
    assert W(Block(), 77) == Rol1(0x01E02203 ^ 0x0060C000 ^ 0x627B49A1 ^ 0x6380AEA2) == 0x00F60A00;
    assert W(Block(), 78) == Rol1(0xE7CC3456 ^ 0x3A37CD05 ^ 0x7CD45C9D ^ 0x0AE55269) == 0x5795EF4F;
    assert W(Block(), 79) == Rol1(0xE6E60B69 ^ 0x458546F4 ^ 0x000F0000 ^ 0x627B49A1) == 0x822E0879;
  }

  lemma TenSteps()
    ensures Steps(Initial(), Block(), 10) == State(0x8351F929, 0x4B6AE328, 0x27A301F5, 0x664F8C30, 0x0FF1F290)
  {
    assert Steps(Initial(), Block(), 0) == State(0x67452301, 0xEFCDAB89, 0x98BADCFE, 0x10325476, 0xC3D2E1F0);
    TenWords();
    hide W, Steps, Block;
    Next(0, State(0x67452301, 0xEFCDAB89, 0x98BADCFE, 0x10325476, 0xC3D2E1F0), 0x61626380,
         State(0x0116FC33, 0x67452301, 0x7BF36AE2, 0x98BADCFE, 0x10325476));
    Next(1, State(0x0116FC33, 0x67452301, 0x7BF36AE2, 0x98BADCFE, 0x10325476), 0x00000000,
         State(0x8990536D, 0x0116FC33, 0x59D148C0, 0x7BF36AE2, 0x98BADCFE));
    Next(2, State(0x8990536D, 0x0116FC33, 0x59D148C0, 0x7BF36AE2, 0x98BADCFE), 0x00000000,
         State(0xA1390F08, 0x8990536D, 0xC045BF0C, 0x59D148C0, 0x7BF36AE2));
    Next(3, State(0xA1390F08, 0x8990536D, 0xC045BF0C, 0x59D148C0, 0x7BF36AE2), 0x00000000,
         State(0xCDD8E11B, 0xA1390F08, 0x626414DB, 0xC045BF0C, 0x59D148C0));
    Next(4, State(0xCDD8E11B, 0xA1390F08, 0x626414DB, 0xC045BF0C, 0x59D148C0), 0x00000000,
         State(0xCFD499DE, 0xCDD8E11B, 0x284E43C2, 0x626414DB, 0xC045BF0C));
    Next(5, State(0xCFD499DE, 0xCDD8E11B, 0x284E43C2, 0x626414DB, 0xC045BF0C), 0x00000000,
         State(0x3FC7CA40, 0xCFD499DE, 0xF3763846, 0x284E43C2, 0x626414DB));
    Next(6, State(0x3FC7CA40, 0xCFD499DE, 0xF3763846, 0x284E43C2, 0x626414DB), 0x00000000,
         State(0x993E30C1, 0x3FC7CA40, 0xB3F52677, 0xF3763846, 0x284E43C2));
    Next(7, State(0x993E30C1, 0x3FC7CA40, 0xB3F52677, 0xF3763846, 0x284E43C2), 0x00000000,
         State(0x9E8C07D4, 0x993E30C1, 0x0FF1F290, 0xB3F52677, 0xF3763846));
    Next(8, State(0x9E8C07D4, 0x993E30C1, 0x0FF1F290, 0xB3F52677, 0xF3763846), 0x00000000,
         State(0x4B6AE328, 0x9E8C07D4, 0x664F8C30, 0x0FF1F290, 0xB3F52677));
    Next(9, State(0x4B6AE328, 0x9E8C07D4, 0x664F8C30, 0x0FF1F290, 0xB3F52677), 0x00000000,
         State(0x8351F929, 0x4B6AE328, 0x27A301F5, 0x664F8C30, 0x0FF1F290));
  }

  lemma TwentySteps()
    ensures Steps(Initial(), Block(), 20) == State(0xFD9E1D7D, 0xDC64901D, 0x20AA99CA, 0xD3A49608, 0xC82F758B)
  {
    TenSteps();
    TwentyWords();
    hide W, Steps, Block;
    Next(10, State(0x8351F929, 0x4B6AE328, 0x27A301F5, 0x664F8C30, 0x0FF1F290), 0x00000000,
         State(0xFBDA9E89, 0x8351F929, 0x12DAB8CA, 0x27A301F5, 0x664F8C30));
    Next(11, State(0xFBDA9E89, 0x8351F929, 0x12DAB8CA, 0x27A301F5, 0x664F8C30), 0x00000000,
         State(0x63188FE4, 0xFBDA9E89, 0x60D47E4A, 0x12DAB8CA, 0x27A301F5));
    Next(12, State(0x63188FE4, 0xFBDA9E89, 0x60D47E4A, 0x12DAB8CA, 0x27A301F5), 0x00000000,
         State(0x4607B664, 0x63188FE4, 0x7EF6A7A2, 0x60D47E4A, 0x12DAB8CA));
    Next(13, State(0x4607B664, 0x63188FE4, 0x7EF6A7A2, 0x60D47E4A, 0x12DAB8CA), 0x00000000,
         State(0x9128F695, 0x4607B664, 0x18C623F9, 0x7EF6A7A2, 0x60D47E4A));
    Next(14, State(0x9128F695, 0x4607B664, 0x18C623F9, 0x7EF6A7A2, 0x60D47E4A), 0x00000000,
         State(0x196BEE77, 0x9128F695, 0x1181ED99, 0x18C623F9, 0x7EF6A7A2));
    Next(15, State(0x196BEE77, 0x9128F695, 0x1181ED99, 0x18C623F9, 0x7EF6A7A2), 0x00000018,
         State(0x20BDD62F, 0x196BEE77, 0x644A3DA5, 0x1181ED99, 0x18C623F9));
    Next(16, State(0x20BDD62F, 0x196BEE77, 0x644A3DA5, 0x1181ED99, 0x18C623F9), 0xC2C4C700,
         State(0x4E925823, 0x20BDD62F, 0xC65AFB9D, 0x644A3DA5, 0x1181ED99));
    Next(17, State(0x4E925823, 0x20BDD62F, 0xC65AFB9D, 0x644A3DA5, 0x1181ED99), 0x00000000,
         State(0x82AA6728, 0x4E925823, 0xC82F758B, 0xC65AFB9D, 0x644A3DA5));
    Next(18, State(0x82AA6728, 0x4E925823, 0xC82F758B, 0xC65AFB9D, 0x644A3DA5), 0x00000030,
         State(0xDC64901D, 0x82AA6728, 0xD3A49608, 0xC82F758B, 0xC65AFB9D));
    Next(19, State(0xDC64901D, 0x82AA6728, 0xD3A49608, 0xC82F758B, 0xC65AFB9D), 0x85898E01,
         State(0xFD9E1D7D, 0xDC64901D, 0x20AA99CA, 0xD3A49608, 0xC82F758B));
  }

  lemma ThirtySteps()
    ensures Steps(Initial(), Block(), 30) == State(0xC5FBAF5D, 0x8370B52E, 0xD2AA1365, 0x6F8D7EF5, 0x12104EE9)
  {
    TwentySteps();
    ThirtyWords();
    hide W, Steps, Block;
    Next(20, State(0xFD9E1D7D, 0xDC64901D, 0x20AA99CA, 0xD3A49608, 0xC82F758B), 0x00000000,
         State(0x1A37B0CA, 0xFD9E1D7D, 0x77192407, 0x20AA99CA, 0xD3A49608));
    Next(21, State(0x1A37B0CA, 0xFD9E1D7D, 0x77192407, 0x20AA99CA, 0xD3A49608), 0x00000060,
         State(0x33A23BFC, 0x1A37B0CA, 0x7F67875F, 0x77192407, 0x20AA99CA));
    Next(22, State(0x33A23BFC, 0x1A37B0CA, 0x7F67875F, 0x77192407, 0x20AA99CA), 0x0B131C03,
         State(0x21283486, 0x33A23BFC, 0x868DEC32, 0x7F67875F, 0x77192407));
    Next(23, State(0x21283486, 0x33A23BFC, 0x868DEC32, 0x7F67875F, 0x77192407), 0x00000030,
         State(0xD541F12D, 0x21283486, 0x0CE88EFF, 0x868DEC32, 0x7F67875F));
    Next(24, State(0xD541F12D, 0x21283486, 0x0CE88EFF, 0x868DEC32, 0x7F67875F), 0x85898EC1,
         State(0xC7567DC6, 0xD541F12D, 0x884A0D21, 0x0CE88EFF, 0x868DEC32));
    Next(25, State(0xC7567DC6, 0xD541F12D, 0x884A0D21, 0x0CE88EFF, 0x868DEC32), 0x16263806,
         State(0x48413BA4, 0xC7567DC6, 0x75507C4B, 0x884A0D21, 0x0CE88EFF));
    Next(26, State(0x48413BA4, 0xC7567DC6, 0x75507C4B, 0x884A0D21, 0x0CE88EFF), 0x00000000,
         State(0xBE35FBD5, 0x48413BA4, 0xB1D59F71, 0x75507C4B, 0x884A0D21));
    Next(27, State(0xBE35FBD5, 0x48413BA4, 0xB1D59F71, 0x75507C4B, 0x884A0D21), 0x00000180,
         State(0x4AA84D97, 0xBE35FBD5, 0x12104EE9, 0xB1D59F71, 0x75507C4B));
    Next(28, State(0x4AA84D97, 0xBE35FBD5, 0x12104EE9, 0xB1D59F71, 0x75507C4B), 0x2C4C700C,
         State(0x8370B52E, 0x4AA84D97, 0x6F8D7EF5, 0x12104EE9, 0xB1D59F71));
    Next(29, State(0x8370B52E, 0x4AA84D97, 0x6F8D7EF5, 0x12104EE9, 0xB1D59F71), 0x000000F0,
         State(0xC5FBAF5D, 0x8370B52E, 0xD2AA1365, 0x6F8D7EF5, 0x12104EE9));
  }

  lemma FortySteps()
    ensures Steps(Initial(), Block(), 40) == State(0x32DE1CBA, 0x4C986405, 0xF718E5CF, 0x03D447F6, 0xF72EEC32)
  {
    ThirtySteps();
    FortyWords();
    hide W, Steps, Block;
    Next(30, State(0xC5FBAF5D, 0x8370B52E, 0xD2AA1365, 0x6F8D7EF5, 0x12104EE9), 0x93AFB507,
         State(0x1267B407, 0xC5FBAF5D, 0xA0DC2D4B, 0xD2AA1365, 0x6F8D7EF5));
    Next(31, State(0x1267B407, 0xC5FBAF5D, 0xA0DC2D4B, 0xD2AA1365, 0x6F8D7EF5), 0x5898E048,
         State(0x3B845D33, 0x1267B407, 0x717EEBD7, 0xA0DC2D4B, 0xD2AA1365));
    Next(32, State(0x3B845D33, 0x1267B407, 0x717EEBD7, 0xA0DC2D4B, 0xD2AA1365), 0x8E9A9202,
         State(0x046FAA0A, 0x3B845D33, 0xC499ED01, 0x717EEBD7, 0xA0DC2D4B));
    Next(33, State(0x046FAA0A, 0x3B845D33, 0xC499ED01, 0x717EEBD7, 0xA0DC2D4B), 0x00000600,
         State(0x2C0EBC11, 0x046FAA0A, 0xCEE1174C, 0xC499ED01, 0x717EEBD7));
    Next(34, State(0x2C0EBC11, 0x046FAA0A, 0xCEE1174C, 0xC499ED01, 0x717EEBD7), 0xB131C0F0,
         State(0x21796AD4, 0x2C0EBC11, 0x811BEA82, 0xCEE1174C, 0xC499ED01));
    Next(35, State(0x21796AD4, 0x2C0EBC11, 0x811BEA82, 0xCEE1174C, 0xC499ED01), 0x16263BC6,
         State(0xDCBBB0CB, 0x21796AD4, 0x4B03AF04, 0x811BEA82, 0xCEE1174C));
    Next(36, State(0xDCBBB0CB, 0x21796AD4, 0x4B03AF04, 0x811BEA82, 0xCEE1174C), 0x4EBED41E,
         State(0x0F511FD8, 0xDCBBB0CB, 0x085E5AB5, 0x4B03AF04, 0x811BEA82));
    Next(37, State(0x0F511FD8, 0xDCBBB0CB, 0x085E5AB5, 0x4B03AF04, 0x811BEA82), 0x626380A1,
         State(0xDC63973F, 0x0F511FD8, 0xF72EEC32, 0x085E5AB5, 0x4B03AF04));
    Next(38, State(0xDC63973F, 0x0F511FD8, 0xF72EEC32, 0x085E5AB5, 0x4B03AF04), 0x16263806,
         State(0x4C986405, 0xDC63973F, 0x03D447F6, 0xF72EEC32, 0x085E5AB5));
    Next(39, State(0x4C986405, 0xDC63973F, 0x03D447F6, 0xF72EEC32, 0x085E5AB5), 0x000018C0,
         State(0x32DE1CBA, 0x4C986405, 0xF718E5CF, 0x03D447F6, 0xF72EEC32));
  }

  lemma FiftySteps()
    ensures Steps(Initial(), Block(), 50) == State(0x120731C5, 0xBAF39337, 0xAFAB40B2, 0x2806E11B, 0x8714787C)
  {
    FortySteps();
    FiftyWords();
    hide W, Steps, Block;
    Next(40, State(0x32DE1CBA, 0x4C986405, 0xF718E5CF, 0x03D447F6, 0xF72EEC32), 0xD2E138C4,
         State(0xFC87DEDF, 0x32DE1CBA, 0x53261901, 0xF718E5CF, 0x03D447F6));
    Next(41, State(0xFC87DEDF, 0x32DE1CBA, 0x53261901, 0xF718E5CF, 0x03D447F6), 0x00000F00,
         State(0x970A0D5C, 0xFC87DEDF, 0x8CB7872E, 0x53261901, 0xF718E5CF));
    Next(42, State(0x970A0D5C, 0xFC87DEDF, 0x8CB7872E, 0x53261901, 0xF718E5CF), 0x3AFB5079,
         State(0x7F193DC5, 0x970A0D5C, 0xFF21F7B7, 0x8CB7872E, 0x53261901));
    Next(43, State(0x7F193DC5, 0x970A0D5C, 0xFF21F7B7, 0x8CB7872E, 0x53261901), 0x898E04E5,
         State(0xEE1B1AAF, 0x7F193DC5, 0x25C28357, 0xFF21F7B7, 0x8CB7872E));
    Next(44, State(0xEE1B1AAF, 0x7F193DC5, 0x25C28357, 0xFF21F7B7, 0x8CB7872E), 0xE2BA3C2B,
         State(0x40F28E09, 0xEE1B1AAF, 0x5FC64F71, 0x25C28357, 0xFF21F7B7));
    Next(45, State(0x40F28E09, 0xEE1B1AAF, 0x5FC64F71, 0x25C28357, 0xFF21F7B7), 0x000060C0,
         State(0x1C51E1F2, 0x40F28E09, 0xFB86C6AB, 0x5FC64F71, 0x25C28357));
    Next(46, State(0x1C51E1F2, 0x40F28E09, 0xFB86C6AB, 0x5FC64F71, 0x25C28357), 0x053A37CD,
         State(0xA01B846C, 0x1C51E1F2, 0x503CA382, 0xFB86C6AB, 0x5FC64F71));
    Next(47, State(0xA01B846C, 0x1C51E1F2, 0x503CA382, 0xFB86C6AB, 0x5FC64F71), 0x74458547,
         State(0xBEAD02CA, 0xA01B846C, 0x8714787C, 0x503CA382, 0xFB86C6AB));
    Next(48, State(0xBEAD02CA, 0xA01B846C, 0x8714787C, 0x503CA382, 0xFB86C6AB), 0xDA9415ED,
         State(0xBAF39337, 0xBEAD02CA, 0x2806E11B, 0x8714787C, 0x503CA382));
    Next(49, State(0xBAF39337, 0xBEAD02CA, 0x2806E11B, 0x8714787C, 0x503CA382), 0x26380A16,
         State(0x120731C5, 0xBAF39337, 0xAFAB40B2, 0x2806E11B, 0x8714787C));
  }

  lemma SixtySteps()
    ensures Steps(Initial(), Block(), 60) == State(0x3F52DE5A, 0x09D785FD, 0x3498BFD4, 0xF211824F, 0xD79915AB)
  {
    FiftySteps();
    SixtyWords();
    hide W, Steps, Block;
    Next(50, State(0x120731C5, 0xBAF39337, 0xAFAB40B2, 0x2806E11B, 0x8714787C), 0x626383A1,
         State(0x641DB2CE, 0x120731C5, 0xEEBCE4CD, 0xAFAB40B2, 0x2806E11B));
    Next(51, State(0x641DB2CE, 0x120731C5, 0xEEBCE4CD, 0xAFAB40B2, 0x2806E11B), 0x4EBF54DE,
         State(0x3847AD66, 0x641DB2CE, 0x4481CC71, 0xEEBCE4CD, 0xAFAB40B2));
    Next(52, State(0x3847AD66, 0x641DB2CE, 0x4481CC71, 0xEEBCE4CD, 0xAFAB40B2), 0x3835B44B,
         State(0xE490436D, 0x3847AD66, 0x99076CB3, 0x4481CC71, 0xEEBCE4CD));
    Next(53, State(0xE490436D, 0x3847AD66, 0x99076CB3, 0x4481CC71, 0xEEBCE4CD), 0x0000F600,
         State(0x27E9F1D8, 0xE490436D, 0x8E11EB59, 0x99076CB3, 0x4481CC71));
    Next(54, State(0x27E9F1D8, 0xE490436D, 0x8E11EB59, 0x99076CB3, 0x4481CC71), 0x1E84C7A3,
         State(0x7B71F76D, 0x27E9F1D8, 0x792410DB, 0x8E11EB59, 0x99076CB3));
    Next(55, State(0x7B71F76D, 0x27E9F1D8, 0x792410DB, 0x8E11EB59, 0x99076CB3), 0x98E04D98,
         State(0x5E6456AF, 0x7B71F76D, 0x09FA7C76, 0x792410DB, 0x8E11EB59));
    Next(56, State(0x5E6456AF, 0x7B71F76D, 0x09FA7C76, 0x792410DB, 0x8E11EB59), 0x651D16A0,
         State(0xC846093F, 0x5E6456AF, 0x5EDC7DDB, 0x09FA7C76, 0x792410DB));
    Next(57, State(0xC846093F, 0x5E6456AF, 0x5EDC7DDB, 0x09FA7C76, 0x792410DB), 0x62658CA1,
         State(0xD262FF50, 0xC846093F, 0xD79915AB, 0x5EDC7DDB, 0x09FA7C76));
    Next(58, State(0xD262FF50, 0xC846093F, 0xD79915AB, 0x5EDC7DDB, 0x09FA7C76), 0x458544D6,
         State(0x09D785FD, 0xD262FF50, 0xF211824F, 0xD79915AB, 0x5EDC7DDB));
    Next(59, State(0x09D785FD, 0xD262FF50, 0xF211824F, 0xD79915AB, 0x5EDC7DDB), 0x44584CB7,
         State(0x3F52DE5A, 0x09D785FD, 0x3498BFD4, 0xF211824F, 0xD79915AB));
  }

  lemma SeventySteps()
    ensures Steps(Initial(), Block(), 70) == State(0x3F2588C2, 0x497093C0, 0xDE37534A, 0x030F7CAD, 0x4405957E)
  {
    SixtySteps();
    SeventyWords();
    hide W, Steps, Block;
    Next(60, State(0x3F52DE5A, 0x09D785FD, 0x3498BFD4, 0xF211824F, 0xD79915AB), 0x7BA06619,
         State(0xD756C147, 0x3F52DE5A, 0x4275E17F, 0x3498BFD4, 0xF211824F));
    Next(61, State(0xD756C147, 0x3F52DE5A, 0x4275E17F, 0x3498BFD4, 0xF211824F), 0x6380AEA2,
         State(0x548C9CB2, 0xD756C147, 0x8FD4B796, 0x4275E17F, 0x3498BFD4));
    Next(62, State(0x548C9CB2, 0xD756C147, 0x8FD4B796, 0x4275E17F, 0x3498BFD4), 0x0AE55269,
         State(0xB66C020B, 0x548C9CB2, 0xF5D5B051, 0x8FD4B796, 0x4275E17F));
    Next(63, State(0xB66C020B, 0x548C9CB2, 0xF5D5B051, 0x8FD4B796, 0x4275E17F), 0x627B49A1,
         State(0x6B61C9E1, 0xB66C020B, 0x9523272C, 0xF5D5B051, 0x8FD4B796));
    Next(64, State(0x6B61C9E1, 0xB66C020B, 0x9523272C, 0xF5D5B051, 0x8FD4B796), 0x7CD45C9D,
         State(0x19DFA7AC, 0x6B61C9E1, 0xED9B0082, 0x9523272C, 0xF5D5B051));
    Next(65, State(0x19DFA7AC, 0x6B61C9E1, 0xED9B0082, 0x9523272C, 0xF5D5B051), 0x000F0000,
         State(0x101655F9, 0x19DFA7AC, 0x5AD87278, 0xED9B0082, 0x9523272C));
    Next(66, State(0x101655F9, 0x19DFA7AC, 0x5AD87278, 0xED9B0082, 0x9523272C), 0xFB50753A,
         State(0x0C3DF2B4, 0x101655F9, 0x0677E9EB, 0x5AD87278, 0xED9B0082));
    Next(67, State(0x0C3DF2B4, 0x101655F9, 0x0677E9EB, 0x5AD87278, 0xED9B0082), 0xEC6765E8,
         State(0x78DD4D2B, 0x0C3DF2B4, 0x4405957E, 0x0677E9EB, 0x5AD87278));
    Next(68, State(0x78DD4D2B, 0x0C3DF2B4, 0x4405957E, 0x0677E9EB, 0x5AD87278), 0xBA3C2BE2,
         State(0x497093C0, 0x78DD4D2B, 0x030F7CAD, 0x4405957E, 0x0677E9EB));
    Next(69, State(0x497093C0, 0x78DD4D2B, 0x030F7CAD, 0x4405957E, 0x0677E9EB), 0x0060C000,
         State(0x3F2588C2, 0x497093C0, 0xDE37534A, 0x030F7CAD, 0x4405957E));
  }

  lemma EightySteps()
    ensures Steps(Initial(), Block(), 80) == State(0x42541B35, 0x5738D5E1, 0x21834873, 0x681E6DF6, 0xD8FDF6AD)
  {
    SeventySteps();
    EightyWords();
    hide W, Steps, Block;
    Next(70, State(0x3F2588C2, 0x497093C0, 0xDE37534A, 0x030F7CAD, 0x4405957E), 0x3A37CD05,
         State(0xC199F8C7, 0x3F2588C2, 0x125C24F0, 0xDE37534A, 0x030F7CAD));
    Next(71, State(0xC199F8C7, 0x3F2588C2, 0x125C24F0, 0xDE37534A, 0x030F7CAD), 0x458546F4,
         State(0x39859DE7, 0xC199F8C7, 0x8FC96230, 0x125C24F0, 0xDE37534A));
    Next(72, State(0x39859DE7, 0xC199F8C7, 0x8FC96230, 0x125C24F0, 0xDE37534A), 0xB8599DD6,
         State(0xEDB42DE4, 0x39859DE7, 0xF0667E31, 0x8FC96230, 0x125C24F0));
    Next(73, State(0xEDB42DE4, 0x39859DE7, 0xF0667E31, 0x8FC96230, 0x125C24F0), 0x380A1A26,
         State(0x11793F6F, 0xEDB42DE4, 0xCE616779, 0xF0667E31, 0x8FC96230));
    Next(74, State(0x11793F6F, 0xEDB42DE4, 0xCE616779, 0xF0667E31, 0x8FC96230), 0x01E02203,
         State(0x5EE76897, 0x11793F6F, 0x3B6D0B79, 0xCE616779, 0xF0667E31));
    Next(75, State(0x5EE76897, 0x11793F6F, 0x3B6D0B79, 0xCE616779, 0xF0667E31), 0xE7CC3456,
         State(0x63F7DAB7, 0x5EE76897, 0xC45E4FDB, 0x3B6D0B79, 0xCE616779));
    Next(76, State(0x63F7DAB7, 0x5EE76897, 0xC45E4FDB, 0x3B6D0B79, 0xCE616779), 0xE6E60B69,
         State(0xA079B7D9, 0x63F7DAB7, 0xD7B9DA25, 0xC45E4FDB, 0x3B6D0B79));
    Next(77, State(0xA079B7D9, 0x63F7DAB7, 0xD7B9DA25, 0xC45E4FDB, 0x3B6D0B79), 0x00F60A00,
         State(0x860D21CC, 0xA079B7D9, 0xD8FDF6AD, 0xD7B9DA25, 0xC45E4FDB));
    Next(78, State(0x860D21CC, 0xA079B7D9, 0xD8FDF6AD, 0xD7B9DA25, 0xC45E4FDB), 0x5795EF4F,
         State(0x5738D5E1, 0x860D21CC, 0x681E6DF6, 0xD8FDF6AD, 0xD7B9DA25));
    Next(79, State(0x5738D5E1, 0x860D21CC, 0x681E6DF6, 0xD8FDF6AD, 0xD7B9DA25), 0x822E0879,
         State(0x42541B35, 0x5738D5E1, 0x21834873, 0x681E6DF6, 0xD8FDF6AD));
  }

  lemma AbcCompressed(p: seq<octet>)
    requires |p| == 64 && Words(p) == Block()
    ensures Process(Initial(), p) == State(0xA9993E36, 0x4706816A, 0xBA3E2571, 0x7850C26C, 0x9CD0D89D)
  {
    EightySteps();
    hide Steps, Words, Block;
    assert Compress(Initial(), p) == State(0xA9993E36, 0x4706816A, 0xBA3E2571, 0x7850C26C, 0x9CD0D89D);
    assert p[..64] == p && p[64..] == [];
  }

  lemma AbcOctets()
    ensures WordOctets(0xA9993E36) == [0xA9, 0x99, 0x3E, 0x36]
    ensures WordOctets(0x4706816A) == [0x47, 0x06, 0x81, 0x6A]
    ensures WordOctets(0xBA3E2571) == [0xBA, 0x3E, 0x25, 0x71]
    ensures WordOctets(0x7850C26C) == [0x78, 0x50, 0xC2, 0x6C]
    ensures WordOctets(0x9CD0D89D) == [0x9C, 0xD0, 0xD8, 0x9D]
  {}

  /** A9993E36 4706816A BA3E2571 7850C26C 9CD0D89D. */
  lemma AbcDigest()
    ensures Sha1(Abc()) ==
            [0xA9, 0x99, 0x3E, 0x36] +
            [0x47, 0x06, 0x81, 0x6A] +
            [0xBA, 0x3E, 0x25, 0x71] +
            [0x78, 0x50, 0xC2, 0x6C] +
            [0x9C, 0xD0, 0xD8, 0x9D]
  {
    hide Process, Padded, Words, Initial, WordOctets;
    AbcPadded();
    AbcWords(Padded(Abc()));
    AbcCompressed(Padded(Abc()));
    AbcOctets();
  }

  /** The same from the code, in one update. */
  method HashAbc() returns (digest: seq<octet>)
    ensures digest ==
            [0xA9, 0x99, 0x3E, 0x36] +
            [0x47, 0x06, 0x81, 0x6A] +
            [0xBA, 0x3E, 0x25, 0x71] +
            [0x78, 0x50, 0xC2, 0x6C] +
            [0x9C, 0xD0, 0xD8, 0x9D]
  {
    AbcDigest();
    var c := new S.Context();
    c.Update(Abc());
    digest := c.Final();
  }
}
