// The known answer of section 7.3 of RFC 3174 for the message "abc", worked out
// round by round from the definitions of Sha1Spec.
module Sha1Vector {
  import opened Sha1Spec
  import Sha1

  const ABC: seq<Byte> := [0x61, 0x62, 0x63]

  const ABC_DIGEST: seq<Byte> := [
    0xA9, 0x99, 0x3E, 0x36,
    0x47, 0x06, 0x81, 0x6A,
    0xBA, 0x3E, 0x25, 0x71,
    0x78, 0x50, 0xC2, 0x6C,
    0x9C, 0xD0, 0xD8, 0x9D]

  // ----- One word, one round -----

  // Word t of the schedule, and the five words after t rounds.
  predicate IsWord(block: seq<Byte>, t: nat, w: bv32)
    requires |block| == 64
  {
    Schedule(block, t) == Word(w)
  }

  predicate IsState(block: seq<Byte>, t: nat, a: bv32, b: bv32, c: bv32, d: bv32, e: bv32)
    requires |block| == 64
  {
    Rounds(INITIAL_HASH, block, t) == Hash(Word(a), Word(b), Word(c), Word(d), Word(e))
  }

  lemma WordIs(block: seq<Byte>, t: nat, w3: bv32, w8: bv32, w14: bv32, w16: bv32, w: bv32)
    requires |block| == 64 && 16 <= t
    requires IsWord(block, t - 3, w3) && IsWord(block, t - 8, w8)
    requires IsWord(block, t - 14, w14) && IsWord(block, t - 16, w16)
    requires RotateLeft1(Xor4(Word(w3), Word(w8), Word(w14), Word(w16))) == Word(w)
    ensures IsWord(block, t, w)
  {
    hide RotateLeft1;
    hide Xor4;
  }

  lemma RoundIs(block: seq<Byte>, t: nat, a: bv32, b: bv32, c: bv32, d: bv32, e: bv32, w: bv32, temp: bv32, b': bv32)
    requires |block| == 64 && IsWord(block, t, w) && IsState(block, t, a, b, c, d, e)
    requires Temp(t, Word(a), Word(b), Word(c), Word(d), Word(e), Word(w)) == Word(temp)
    requires RotateLeft30(Word(b)) == Word(b')
    ensures IsState(block, t + 1, temp, a, b', c, d)
  {
    hide Schedule;
    hide Temp;
    hide RotateLeft30;
  }

  // ----- The block of the padded message -----

  lemma PaddedAbc()
    ensures var p := Pad(ABC);
            && |p| == 64 && p[..4] == [0x61, 0x62, 0x63, 0x80] && p[60..] == [0, 0, 0, 24]
            && forall i :: 4 <= i < 60 ==> p[i] == 0
  {
    assert LengthField(24) == [0, 0, 0, 0, 0, 0, 0, 24];
  }

  lemma FirstWords(block: seq<Byte>)
    requires block == Pad(ABC)
    ensures |block| == 64 && IsWord(block, 0, 0x61626380) && IsWord(block, 15, 24)
    ensures forall t :: 1 <= t < 15 ==> IsWord(block, t, 0)
  {
    PaddedAbc();
    FirstWord();
    LastWord();
    ZeroWord();
    hide BigEndianWord;
    hide Pad;
    assert block[0] == 0x61 && block[1] == 0x62 && block[2] == 0x63 && block[3] == 0x80;
    assert block[60] == 0 && block[61] == 0 && block[62] == 0 && block[63] == 24;
  }

  lemma FirstWord()
    ensures BigEndianWord(0x61, 0x62, 0x63, 0x80) == Word(0x61626380)
  {
  }

  lemma LastWord()
    ensures BigEndianWord(0, 0, 0, 24) == Word(24)
  {
  }

  lemma ZeroWord()
    ensures BigEndianWord(0, 0, 0, 0) == Word(0)
  {
  }

  // ----- The schedule, in pieces -----

  lemma Words16(block: seq<Byte>)
    requires block == Pad(ABC)
    ensures |block| == 64
    ensures IsWord(block, 16, 0xC2C4C700) && IsWord(block, 17, 0x00000000)
    ensures IsWord(block, 18, 0x00000030) && IsWord(block, 19, 0x85898E01)
    ensures IsWord(block, 20, 0x00000000) && IsWord(block, 21, 0x00000060)
    ensures IsWord(block, 22, 0x0B131C03) && IsWord(block, 23, 0x00000030)
    ensures IsWord(block, 24, 0x85898EC1) && IsWord(block, 25, 0x16263806)
    ensures IsWord(block, 26, 0x00000000) && IsWord(block, 27, 0x00000180)
    ensures IsWord(block, 28, 0x2C4C700C) && IsWord(block, 29, 0x000000F0)
    ensures IsWord(block, 30, 0x93AFB507) && IsWord(block, 31, 0x5898E048)
  {
    FirstWords(block);
    hide Pad;
    hide IsWord;
    WordIs(block, 16, 0x00000000, 0x00000000, 0x00000000, 0x61626380, 0xC2C4C700);
    WordIs(block, 17, 0x00000000, 0x00000000, 0x00000000, 0x00000000, 0x00000000);
    WordIs(block, 18, 0x00000018, 0x00000000, 0x00000000, 0x00000000, 0x00000030);
    WordIs(block, 19, 0xC2C4C700, 0x00000000, 0x00000000, 0x00000000, 0x85898E01);
    WordIs(block, 20, 0x00000000, 0x00000000, 0x00000000, 0x00000000, 0x00000000);
    WordIs(block, 21, 0x00000030, 0x00000000, 0x00000000, 0x00000000, 0x00000060);
    WordIs(block, 22, 0x85898E01, 0x00000000, 0x00000000, 0x00000000, 0x0B131C03);
    WordIs(block, 23, 0x00000000, 0x00000018, 0x00000000, 0x00000000, 0x00000030);
    WordIs(block, 24, 0x00000060, 0xC2C4C700, 0x00000000, 0x00000000, 0x85898EC1);
    WordIs(block, 25, 0x0B131C03, 0x00000000, 0x00000000, 0x00000000, 0x16263806);
    WordIs(block, 26, 0x00000030, 0x00000030, 0x00000000, 0x00000000, 0x00000000);
    WordIs(block, 27, 0x85898EC1, 0x85898E01, 0x00000000, 0x00000000, 0x00000180);
    WordIs(block, 28, 0x16263806, 0x00000000, 0x00000000, 0x00000000, 0x2C4C700C);
    WordIs(block, 29, 0x00000000, 0x00000060, 0x00000018, 0x00000000, 0x000000F0);
    WordIs(block, 30, 0x00000180, 0x0B131C03, 0xC2C4C700, 0x00000000, 0x93AFB507);
    WordIs(block, 31, 0x2C4C700C, 0x00000030, 0x00000000, 0x00000018, 0x5898E048);
  }

  lemma Words32(block: seq<Byte>)
    requires block == Pad(ABC)
    ensures |block| == 64
    ensures IsWord(block, 32, 0x8E9A9202) && IsWord(block, 33, 0x00000600)
    ensures IsWord(block, 34, 0xB131C0F0) && IsWord(block, 35, 0x16263BC6)
    ensures IsWord(block, 36, 0x4EBED41E) && IsWord(block, 37, 0x626380A1)
    ensures IsWord(block, 38, 0x16263806) && IsWord(block, 39, 0x000018C0)
    ensures IsWord(block, 40, 0xD2E138C4) && IsWord(block, 41, 0x00000F00)
    ensures IsWord(block, 42, 0x3AFB5079) && IsWord(block, 43, 0x898E04E5)
    ensures IsWord(block, 44, 0xE2BA3C2B) && IsWord(block, 45, 0x000060C0)
    ensures IsWord(block, 46, 0x053A37CD) && IsWord(block, 47, 0x74458547)
  {
    Words16(block);
    hide Pad;
    hide IsWord;
    WordIs(block, 32, 0x000000F0, 0x85898EC1, 0x00000030, 0xC2C4C700, 0x8E9A9202);
    WordIs(block, 33, 0x93AFB507, 0x16263806, 0x85898E01, 0x00000000, 0x00000600);
    WordIs(block, 34, 0x5898E048, 0x00000000, 0x00000000, 0x00000030, 0xB131C0F0);
    WordIs(block, 35, 0x8E9A9202, 0x00000180, 0x00000060, 0x85898E01, 0x16263BC6);
    WordIs(block, 36, 0x00000600, 0x2C4C700C, 0x0B131C03, 0x00000000, 0x4EBED41E);
    WordIs(block, 37, 0xB131C0F0, 0x000000F0, 0x00000030, 0x00000060, 0x626380A1);
    WordIs(block, 38, 0x16263BC6, 0x93AFB507, 0x85898EC1, 0x0B131C03, 0x16263806);
    WordIs(block, 39, 0x4EBED41E, 0x5898E048, 0x16263806, 0x00000030, 0x000018C0);
    WordIs(block, 40, 0x626380A1, 0x8E9A9202, 0x00000000, 0x85898EC1, 0xD2E138C4);
    WordIs(block, 41, 0x16263806, 0x00000600, 0x00000180, 0x16263806, 0x00000F00);
    WordIs(block, 42, 0x000018C0, 0xB131C0F0, 0x2C4C700C, 0x00000000, 0x3AFB5079);
    WordIs(block, 43, 0xD2E138C4, 0x16263BC6, 0x000000F0, 0x00000180, 0x898E04E5);
    WordIs(block, 44, 0x00000F00, 0x4EBED41E, 0x93AFB507, 0x2C4C700C, 0xE2BA3C2B);
    WordIs(block, 45, 0x3AFB5079, 0x626380A1, 0x5898E048, 0x000000F0, 0x000060C0);
    WordIs(block, 46, 0x898E04E5, 0x16263806, 0x8E9A9202, 0x93AFB507, 0x053A37CD);
    WordIs(block, 47, 0xE2BA3C2B, 0x000018C0, 0x00000600, 0x5898E048, 0x74458547);
  }

  lemma Words48(block: seq<Byte>)
    requires block == Pad(ABC)
    ensures |block| == 64
    ensures IsWord(block, 48, 0xDA9415ED) && IsWord(block, 49, 0x26380A16)
    ensures IsWord(block, 50, 0x626383A1) && IsWord(block, 51, 0x4EBF54DE)
    ensures IsWord(block, 52, 0x3835B44B) && IsWord(block, 53, 0x0000F600)
    ensures IsWord(block, 54, 0x1E84C7A3) && IsWord(block, 55, 0x98E04D98)
    ensures IsWord(block, 56, 0x651D16A0) && IsWord(block, 57, 0x62658CA1)
    ensures IsWord(block, 58, 0x458544D6) && IsWord(block, 59, 0x44584CB7)
    ensures IsWord(block, 60, 0x7BA06619) && IsWord(block, 61, 0x6380AEA2)
    ensures IsWord(block, 62, 0x0AE55269) && IsWord(block, 63, 0x627B49A1)
  {
    Words32(block);
    hide Pad;
    hide IsWord;
    WordIs(block, 48, 0x000060C0, 0xD2E138C4, 0xB131C0F0, 0x8E9A9202, 0xDA9415ED);
    WordIs(block, 49, 0x053A37CD, 0x00000F00, 0x16263BC6, 0x00000600, 0x26380A16);
    WordIs(block, 50, 0x74458547, 0x3AFB5079, 0x4EBED41E, 0xB131C0F0, 0x626383A1);
    WordIs(block, 51, 0xDA9415ED, 0x898E04E5, 0x626380A1, 0x16263BC6, 0x4EBF54DE);
    WordIs(block, 52, 0x26380A16, 0xE2BA3C2B, 0x16263806, 0x4EBED41E, 0x3835B44B);
    WordIs(block, 53, 0x626383A1, 0x000060C0, 0x000018C0, 0x626380A1, 0x0000F600);
    WordIs(block, 54, 0x4EBF54DE, 0x053A37CD, 0xD2E138C4, 0x16263806, 0x1E84C7A3);
    WordIs(block, 55, 0x3835B44B, 0x74458547, 0x00000F00, 0x000018C0, 0x98E04D98);
    WordIs(block, 56, 0x0000F600, 0xDA9415ED, 0x3AFB5079, 0xD2E138C4, 0x651D16A0);
    WordIs(block, 57, 0x1E84C7A3, 0x26380A16, 0x898E04E5, 0x00000F00, 0x62658CA1);
    WordIs(block, 58, 0x98E04D98, 0x626383A1, 0xE2BA3C2B, 0x3AFB5079, 0x458544D6);
    WordIs(block, 59, 0x651D16A0, 0x4EBF54DE, 0x000060C0, 0x898E04E5, 0x44584CB7);
    WordIs(block, 60, 0x62658CA1, 0x3835B44B, 0x053A37CD, 0xE2BA3C2B, 0x7BA06619);
    WordIs(block, 61, 0x458544D6, 0x0000F600, 0x74458547, 0x000060C0, 0x6380AEA2);
    WordIs(block, 62, 0x44584CB7, 0x1E84C7A3, 0xDA9415ED, 0x053A37CD, 0x0AE55269);
    WordIs(block, 63, 0x7BA06619, 0x98E04D98, 0x26380A16, 0x74458547, 0x627B49A1);
  }

  lemma Words64(block: seq<Byte>)
    requires block == Pad(ABC)
    ensures |block| == 64
    ensures IsWord(block, 64, 0x7CD45C9D) && IsWord(block, 65, 0x000F0000)
    ensures IsWord(block, 66, 0xFB50753A) && IsWord(block, 67, 0xEC6765E8)
    ensures IsWord(block, 68, 0xBA3C2BE2) && IsWord(block, 69, 0x0060C000)
    ensures IsWord(block, 70, 0x3A37CD05) && IsWord(block, 71, 0x458546F4)
    ensures IsWord(block, 72, 0xB8599DD6) && IsWord(block, 73, 0x380A1A26)
    ensures IsWord(block, 74, 0x01E02203) && IsWord(block, 75, 0xE7CC3456)
    ensures IsWord(block, 76, 0xE6E60B69) && IsWord(block, 77, 0x00F60A00)
    ensures IsWord(block, 78, 0x5795EF4F) && IsWord(block, 79, 0x822E0879)
  {
    Words48(block);
    hide Pad;
    hide IsWord;
    WordIs(block, 64, 0x6380AEA2, 0x651D16A0, 0x626383A1, 0xDA9415ED, 0x7CD45C9D);
    WordIs(block, 65, 0x0AE55269, 0x62658CA1, 0x4EBF54DE, 0x26380A16, 0x000F0000);
    WordIs(block, 66, 0x627B49A1, 0x458544D6, 0x3835B44B, 0x626383A1, 0xFB50753A);
    WordIs(block, 67, 0x7CD45C9D, 0x44584CB7, 0x0000F600, 0x4EBF54DE, 0xEC6765E8);
    WordIs(block, 68, 0x000F0000, 0x7BA06619, 0x1E84C7A3, 0x3835B44B, 0xBA3C2BE2);
    WordIs(block, 69, 0xFB50753A, 0x6380AEA2, 0x98E04D98, 0x0000F600, 0x0060C000);
    WordIs(block, 70, 0xEC6765E8, 0x0AE55269, 0x651D16A0, 0x1E84C7A3, 0x3A37CD05);
    WordIs(block, 71, 0xBA3C2BE2, 0x627B49A1, 0x62658CA1, 0x98E04D98, 0x458546F4);
    WordIs(block, 72, 0x0060C000, 0x7CD45C9D, 0x458544D6, 0x651D16A0, 0xB8599DD6);
    WordIs(block, 73, 0x3A37CD05, 0x000F0000, 0x44584CB7, 0x62658CA1, 0x380A1A26);
    WordIs(block, 74, 0x458546F4, 0xFB50753A, 0x7BA06619, 0x458544D6, 0x01E02203);
    WordIs(block, 75, 0xB8599DD6, 0xEC6765E8, 0x6380AEA2, 0x44584CB7, 0xE7CC3456);
    WordIs(block, 76, 0x380A1A26, 0xBA3C2BE2, 0x0AE55269, 0x7BA06619, 0xE6E60B69);
    WordIs(block, 77, 0x01E02203, 0x0060C000, 0x627B49A1, 0x6380AEA2, 0x00F60A00);
    WordIs(block, 78, 0xE7CC3456, 0x3A37CD05, 0x7CD45C9D, 0x0AE55269, 0x5795EF4F);
    WordIs(block, 79, 0xE6E60B69, 0x458546F4, 0x000F0000, 0x627B49A1, 0x822E0879);
  }

  // ----- The rounds, in pieces -----

  lemma Rounds0(block: seq<Byte>)
    requires block == Pad(ABC)
    ensures |block| == 64 && IsState(block, 0, 0x67452301, 0xEFCDAB89, 0x98BADCFE, 0x10325476, 0xC3D2E1F0)
  {
    PaddedAbc();
  }

  lemma Rounds8(block: seq<Byte>)
    requires block == Pad(ABC)
    ensures |block| == 64 && IsState(block, 8, 0x9E8C07D4, 0x993E30C1, 0x0FF1F290, 0xB3F52677, 0xF3763846)
  {
    FirstWords(block);
    Rounds0(block);
    hide Pad;
    hide IsWord;
    hide IsState;
    RoundIs(block, 0, 0x67452301, 0xEFCDAB89, 0x98BADCFE, 0x10325476, 0xC3D2E1F0,
            0x61626380, 0x0116FC33, 0x7BF36AE2);
    RoundIs(block, 1, 0x0116FC33, 0x67452301, 0x7BF36AE2, 0x98BADCFE, 0x10325476,
            0x00000000, 0x8990536D, 0x59D148C0);
    RoundIs(block, 2, 0x8990536D, 0x0116FC33, 0x59D148C0, 0x7BF36AE2, 0x98BADCFE,
            0x00000000, 0xA1390F08, 0xC045BF0C);
    RoundIs(block, 3, 0xA1390F08, 0x8990536D, 0xC045BF0C, 0x59D148C0, 0x7BF36AE2,
            0x00000000, 0xCDD8E11B, 0x626414DB);
    RoundIs(block, 4, 0xCDD8E11B, 0xA1390F08, 0x626414DB, 0xC045BF0C, 0x59D148C0,
            0x00000000, 0xCFD499DE, 0x284E43C2);
    RoundIs(block, 5, 0xCFD499DE, 0xCDD8E11B, 0x284E43C2, 0x626414DB, 0xC045BF0C,
            0x00000000, 0x3FC7CA40, 0xF3763846);
    RoundIs(block, 6, 0x3FC7CA40, 0xCFD499DE, 0xF3763846, 0x284E43C2, 0x626414DB,
            0x00000000, 0x993E30C1, 0xB3F52677);
    RoundIs(block, 7, 0x993E30C1, 0x3FC7CA40, 0xB3F52677, 0xF3763846, 0x284E43C2,
            0x00000000, 0x9E8C07D4, 0x0FF1F290);
  }

  lemma Rounds16(block: seq<Byte>)
    requires block == Pad(ABC)
    ensures |block| == 64 && IsState(block, 16, 0x20BDD62F, 0x196BEE77, 0x644A3DA5, 0x1181ED99, 0x18C623F9)
  {
    FirstWords(block);
    Rounds8(block);
    hide Pad;
    hide IsWord;
    hide IsState;
    RoundIs(block, 8, 0x9E8C07D4, 0x993E30C1, 0x0FF1F290, 0xB3F52677, 0xF3763846,
            0x00000000, 0x4B6AE328, 0x664F8C30);
    RoundIs(block, 9, 0x4B6AE328, 0x9E8C07D4, 0x664F8C30, 0x0FF1F290, 0xB3F52677,
            0x00000000, 0x8351F929, 0x27A301F5);
    RoundIs(block, 10, 0x8351F929, 0x4B6AE328, 0x27A301F5, 0x664F8C30, 0x0FF1F290,
            0x00000000, 0xFBDA9E89, 0x12DAB8CA);
    RoundIs(block, 11, 0xFBDA9E89, 0x8351F929, 0x12DAB8CA, 0x27A301F5, 0x664F8C30,
            0x00000000, 0x63188FE4, 0x60D47E4A);
    RoundIs(block, 12, 0x63188FE4, 0xFBDA9E89, 0x60D47E4A, 0x12DAB8CA, 0x27A301F5,
            0x00000000, 0x4607B664, 0x7EF6A7A2);
    RoundIs(block, 13, 0x4607B664, 0x63188FE4, 0x7EF6A7A2, 0x60D47E4A, 0x12DAB8CA,
            0x00000000, 0x9128F695, 0x18C623F9);
    RoundIs(block, 14, 0x9128F695, 0x4607B664, 0x18C623F9, 0x7EF6A7A2, 0x60D47E4A,
            0x00000000, 0x196BEE77, 0x1181ED99);
    RoundIs(block, 15, 0x196BEE77, 0x9128F695, 0x1181ED99, 0x18C623F9, 0x7EF6A7A2,
            0x00000018, 0x20BDD62F, 0x644A3DA5);
  }

  lemma Rounds24(block: seq<Byte>)
    requires block == Pad(ABC)
    ensures |block| == 64 && IsState(block, 24, 0xD541F12D, 0x21283486, 0x0CE88EFF, 0x868DEC32, 0x7F67875F)
  {
    Words16(block);
    Rounds16(block);
    hide Pad;
    hide IsWord;
    hide IsState;
    RoundIs(block, 16, 0x20BDD62F, 0x196BEE77, 0x644A3DA5, 0x1181ED99, 0x18C623F9,
            0xC2C4C700, 0x4E925823, 0xC65AFB9D);
    RoundIs(block, 17, 0x4E925823, 0x20BDD62F, 0xC65AFB9D, 0x644A3DA5, 0x1181ED99,
            0x00000000, 0x82AA6728, 0xC82F758B);
    RoundIs(block, 18, 0x82AA6728, 0x4E925823, 0xC82F758B, 0xC65AFB9D, 0x644A3DA5,
            0x00000030, 0xDC64901D, 0xD3A49608);
    RoundIs(block, 19, 0xDC64901D, 0x82AA6728, 0xD3A49608, 0xC82F758B, 0xC65AFB9D,
            0x85898E01, 0xFD9E1D7D, 0x20AA99CA);
    RoundIs(block, 20, 0xFD9E1D7D, 0xDC64901D, 0x20AA99CA, 0xD3A49608, 0xC82F758B,
            0x00000000, 0x1A37B0CA, 0x77192407);
    RoundIs(block, 21, 0x1A37B0CA, 0xFD9E1D7D, 0x77192407, 0x20AA99CA, 0xD3A49608,
            0x00000060, 0x33A23BFC, 0x7F67875F);
    RoundIs(block, 22, 0x33A23BFC, 0x1A37B0CA, 0x7F67875F, 0x77192407, 0x20AA99CA,
            0x0B131C03, 0x21283486, 0x868DEC32);
    RoundIs(block, 23, 0x21283486, 0x33A23BFC, 0x868DEC32, 0x7F67875F, 0x77192407,
            0x00000030, 0xD541F12D, 0x0CE88EFF);
  }

  lemma Rounds32(block: seq<Byte>)
    requires block == Pad(ABC)
    ensures |block| == 64 && IsState(block, 32, 0x3B845D33, 0x1267B407, 0x717EEBD7, 0xA0DC2D4B, 0xD2AA1365)
  {
    Words16(block);
    Rounds24(block);
    hide Pad;
    hide IsWord;
    hide IsState;
    RoundIs(block, 24, 0xD541F12D, 0x21283486, 0x0CE88EFF, 0x868DEC32, 0x7F67875F,
            0x85898EC1, 0xC7567DC6, 0x884A0D21);
    RoundIs(block, 25, 0xC7567DC6, 0xD541F12D, 0x884A0D21, 0x0CE88EFF, 0x868DEC32,
            0x16263806, 0x48413BA4, 0x75507C4B);
    RoundIs(block, 26, 0x48413BA4, 0xC7567DC6, 0x75507C4B, 0x884A0D21, 0x0CE88EFF,
            0x00000000, 0xBE35FBD5, 0xB1D59F71);
    RoundIs(block, 27, 0xBE35FBD5, 0x48413BA4, 0xB1D59F71, 0x75507C4B, 0x884A0D21,
            0x00000180, 0x4AA84D97, 0x12104EE9);
    RoundIs(block, 28, 0x4AA84D97, 0xBE35FBD5, 0x12104EE9, 0xB1D59F71, 0x75507C4B,
            0x2C4C700C, 0x8370B52E, 0x6F8D7EF5);
    RoundIs(block, 29, 0x8370B52E, 0x4AA84D97, 0x6F8D7EF5, 0x12104EE9, 0xB1D59F71,
            0x000000F0, 0xC5FBAF5D, 0xD2AA1365);
    RoundIs(block, 30, 0xC5FBAF5D, 0x8370B52E, 0xD2AA1365, 0x6F8D7EF5, 0x12104EE9,
            0x93AFB507, 0x1267B407, 0xA0DC2D4B);
    RoundIs(block, 31, 0x1267B407, 0xC5FBAF5D, 0xA0DC2D4B, 0xD2AA1365, 0x6F8D7EF5,
            0x5898E048, 0x3B845D33, 0x717EEBD7);
  }

  lemma Rounds40(block: seq<Byte>)
    requires block == Pad(ABC)
    ensures |block| == 64 && IsState(block, 40, 0x32DE1CBA, 0x4C986405, 0xF718E5CF, 0x03D447F6, 0xF72EEC32)
  {
    Words32(block);
    Rounds32(block);
    hide Pad;
    hide IsWord;
    hide IsState;
    RoundIs(block, 32, 0x3B845D33, 0x1267B407, 0x717EEBD7, 0xA0DC2D4B, 0xD2AA1365,
            0x8E9A9202, 0x046FAA0A, 0xC499ED01);
    RoundIs(block, 33, 0x046FAA0A, 0x3B845D33, 0xC499ED01, 0x717EEBD7, 0xA0DC2D4B,
            0x00000600, 0x2C0EBC11, 0xCEE1174C);
    RoundIs(block, 34, 0x2C0EBC11, 0x046FAA0A, 0xCEE1174C, 0xC499ED01, 0x717EEBD7,
            0xB131C0F0, 0x21796AD4, 0x811BEA82);
    RoundIs(block, 35, 0x21796AD4, 0x2C0EBC11, 0x811BEA82, 0xCEE1174C, 0xC499ED01,
            0x16263BC6, 0xDCBBB0CB, 0x4B03AF04);
    RoundIs(block, 36, 0xDCBBB0CB, 0x21796AD4, 0x4B03AF04, 0x811BEA82, 0xCEE1174C,
            0x4EBED41E, 0x0F511FD8, 0x085E5AB5);
    RoundIs(block, 37, 0x0F511FD8, 0xDCBBB0CB, 0x085E5AB5, 0x4B03AF04, 0x811BEA82,
            0x626380A1, 0xDC63973F, 0xF72EEC32);
    RoundIs(block, 38, 0xDC63973F, 0x0F511FD8, 0xF72EEC32, 0x085E5AB5, 0x4B03AF04,
            0x16263806, 0x4C986405, 0x03D447F6);
    RoundIs(block, 39, 0x4C986405, 0xDC63973F, 0x03D447F6, 0xF72EEC32, 0x085E5AB5,
            0x000018C0, 0x32DE1CBA, 0xF718E5CF);
  }

  lemma Rounds48(block: seq<Byte>)
    requires block == Pad(ABC)
    ensures |block| == 64 && IsState(block, 48, 0xBEAD02CA, 0xA01B846C, 0x8714787C, 0x503CA382, 0xFB86C6AB)
  {
    Words32(block);
    Rounds40(block);
    hide Pad;
    hide IsWord;
    hide IsState;
    RoundIs(block, 40, 0x32DE1CBA, 0x4C986405, 0xF718E5CF, 0x03D447F6, 0xF72EEC32,
            0xD2E138C4, 0xFC87DEDF, 0x53261901);
    RoundIs(block, 41, 0xFC87DEDF, 0x32DE1CBA, 0x53261901, 0xF718E5CF, 0x03D447F6,
            0x00000F00, 0x970A0D5C, 0x8CB7872E);
    RoundIs(block, 42, 0x970A0D5C, 0xFC87DEDF, 0x8CB7872E, 0x53261901, 0xF718E5CF,
            0x3AFB5079, 0x7F193DC5, 0xFF21F7B7);
    RoundIs(block, 43, 0x7F193DC5, 0x970A0D5C, 0xFF21F7B7, 0x8CB7872E, 0x53261901,
            0x898E04E5, 0xEE1B1AAF, 0x25C28357);
    RoundIs(block, 44, 0xEE1B1AAF, 0x7F193DC5, 0x25C28357, 0xFF21F7B7, 0x8CB7872E,
            0xE2BA3C2B, 0x40F28E09, 0x5FC64F71);
    RoundIs(block, 45, 0x40F28E09, 0xEE1B1AAF, 0x5FC64F71, 0x25C28357, 0xFF21F7B7,
            0x000060C0, 0x1C51E1F2, 0xFB86C6AB);
    RoundIs(block, 46, 0x1C51E1F2, 0x40F28E09, 0xFB86C6AB, 0x5FC64F71, 0x25C28357,
            0x053A37CD, 0xA01B846C, 0x503CA382);
    RoundIs(block, 47, 0xA01B846C, 0x1C51E1F2, 0x503CA382, 0xFB86C6AB, 0x5FC64F71,
            0x74458547, 0xBEAD02CA, 0x8714787C);
  }

  lemma Rounds56(block: seq<Byte>)
    requires block == Pad(ABC)
    ensures |block| == 64 && IsState(block, 56, 0x5E6456AF, 0x7B71F76D, 0x09FA7C76, 0x792410DB, 0x8E11EB59)
  {
    Words48(block);
    Rounds48(block);
    hide Pad;
    hide IsWord;
    hide IsState;
    RoundIs(block, 48, 0xBEAD02CA, 0xA01B846C, 0x8714787C, 0x503CA382, 0xFB86C6AB,
            0xDA9415ED, 0xBAF39337, 0x2806E11B);
    RoundIs(block, 49, 0xBAF39337, 0xBEAD02CA, 0x2806E11B, 0x8714787C, 0x503CA382,
            0x26380A16, 0x120731C5, 0xAFAB40B2);
    RoundIs(block, 50, 0x120731C5, 0xBAF39337, 0xAFAB40B2, 0x2806E11B, 0x8714787C,
            0x626383A1, 0x641DB2CE, 0xEEBCE4CD);
    RoundIs(block, 51, 0x641DB2CE, 0x120731C5, 0xEEBCE4CD, 0xAFAB40B2, 0x2806E11B,
            0x4EBF54DE, 0x3847AD66, 0x4481CC71);
    RoundIs(block, 52, 0x3847AD66, 0x641DB2CE, 0x4481CC71, 0xEEBCE4CD, 0xAFAB40B2,
            0x3835B44B, 0xE490436D, 0x99076CB3);
    RoundIs(block, 53, 0xE490436D, 0x3847AD66, 0x99076CB3, 0x4481CC71, 0xEEBCE4CD,
            0x0000F600, 0x27E9F1D8, 0x8E11EB59);
    RoundIs(block, 54, 0x27E9F1D8, 0xE490436D, 0x8E11EB59, 0x99076CB3, 0x4481CC71,
            0x1E84C7A3, 0x7B71F76D, 0x792410DB);
    RoundIs(block, 55, 0x7B71F76D, 0x27E9F1D8, 0x792410DB, 0x8E11EB59, 0x99076CB3,
            0x98E04D98, 0x5E6456AF, 0x09FA7C76);
  }

  lemma Rounds64(block: seq<Byte>)
    requires block == Pad(ABC)
    ensures |block| == 64 && IsState(block, 64, 0x6B61C9E1, 0xB66C020B, 0x9523272C, 0xF5D5B051, 0x8FD4B796)
  {
    Words48(block);
    Rounds56(block);
    hide Pad;
    hide IsWord;
    hide IsState;
    RoundIs(block, 56, 0x5E6456AF, 0x7B71F76D, 0x09FA7C76, 0x792410DB, 0x8E11EB59,
            0x651D16A0, 0xC846093F, 0x5EDC7DDB);
    RoundIs(block, 57, 0xC846093F, 0x5E6456AF, 0x5EDC7DDB, 0x09FA7C76, 0x792410DB,
            0x62658CA1, 0xD262FF50, 0xD79915AB);
    RoundIs(block, 58, 0xD262FF50, 0xC846093F, 0xD79915AB, 0x5EDC7DDB, 0x09FA7C76,
            0x458544D6, 0x09D785FD, 0xF211824F);
    RoundIs(block, 59, 0x09D785FD, 0xD262FF50, 0xF211824F, 0xD79915AB, 0x5EDC7DDB,
            0x44584CB7, 0x3F52DE5A, 0x3498BFD4);
    RoundIs(block, 60, 0x3F52DE5A, 0x09D785FD, 0x3498BFD4, 0xF211824F, 0xD79915AB,
            0x7BA06619, 0xD756C147, 0x4275E17F);
    RoundIs(block, 61, 0xD756C147, 0x3F52DE5A, 0x4275E17F, 0x3498BFD4, 0xF211824F,
            0x6380AEA2, 0x548C9CB2, 0x8FD4B796);
    RoundIs(block, 62, 0x548C9CB2, 0xD756C147, 0x8FD4B796, 0x4275E17F, 0x3498BFD4,
            0x0AE55269, 0xB66C020B, 0xF5D5B051);
    RoundIs(block, 63, 0xB66C020B, 0x548C9CB2, 0xF5D5B051, 0x8FD4B796, 0x4275E17F,
            0x627B49A1, 0x6B61C9E1, 0x9523272C);
  }

  lemma Rounds72(block: seq<Byte>)
    requires block == Pad(ABC)
    ensures |block| == 64 && IsState(block, 72, 0x39859DE7, 0xC199F8C7, 0x8FC96230, 0x125C24F0, 0xDE37534A)
  {
    Words64(block);
    Rounds64(block);
    hide Pad;
    hide IsWord;
    hide IsState;
    RoundIs(block, 64, 0x6B61C9E1, 0xB66C020B, 0x9523272C, 0xF5D5B051, 0x8FD4B796,
            0x7CD45C9D, 0x19DFA7AC, 0xED9B0082);
    RoundIs(block, 65, 0x19DFA7AC, 0x6B61C9E1, 0xED9B0082, 0x9523272C, 0xF5D5B051,
            0x000F0000, 0x101655F9, 0x5AD87278);
    RoundIs(block, 66, 0x101655F9, 0x19DFA7AC, 0x5AD87278, 0xED9B0082, 0x9523272C,
            0xFB50753A, 0x0C3DF2B4, 0x0677E9EB);
    RoundIs(block, 67, 0x0C3DF2B4, 0x101655F9, 0x0677E9EB, 0x5AD87278, 0xED9B0082,
            0xEC6765E8, 0x78DD4D2B, 0x4405957E);
    RoundIs(block, 68, 0x78DD4D2B, 0x0C3DF2B4, 0x4405957E, 0x0677E9EB, 0x5AD87278,
            0xBA3C2BE2, 0x497093C0, 0x030F7CAD);
    RoundIs(block, 69, 0x497093C0, 0x78DD4D2B, 0x030F7CAD, 0x4405957E, 0x0677E9EB,
            0x0060C000, 0x3F2588C2, 0xDE37534A);
    RoundIs(block, 70, 0x3F2588C2, 0x497093C0, 0xDE37534A, 0x030F7CAD, 0x4405957E,
            0x3A37CD05, 0xC199F8C7, 0x125C24F0);
    RoundIs(block, 71, 0xC199F8C7, 0x3F2588C2, 0x125C24F0, 0xDE37534A, 0x030F7CAD,
            0x458546F4, 0x39859DE7, 0x8FC96230);
  }

  lemma Rounds80(block: seq<Byte>)
    requires block == Pad(ABC)
    ensures |block| == 64 && IsState(block, 80, 0x42541B35, 0x5738D5E1, 0x21834873, 0x681E6DF6, 0xD8FDF6AD)
  {
    Words64(block);
    Rounds72(block);
    hide Pad;
    hide IsWord;
    hide IsState;
    RoundIs(block, 72, 0x39859DE7, 0xC199F8C7, 0x8FC96230, 0x125C24F0, 0xDE37534A,
            0xB8599DD6, 0xEDB42DE4, 0xF0667E31);
    RoundIs(block, 73, 0xEDB42DE4, 0x39859DE7, 0xF0667E31, 0x8FC96230, 0x125C24F0,
            0x380A1A26, 0x11793F6F, 0xCE616779);
    RoundIs(block, 74, 0x11793F6F, 0xEDB42DE4, 0xCE616779, 0xF0667E31, 0x8FC96230,
            0x01E02203, 0x5EE76897, 0x3B6D0B79);
    RoundIs(block, 75, 0x5EE76897, 0x11793F6F, 0x3B6D0B79, 0xCE616779, 0xF0667E31,
            0xE7CC3456, 0x63F7DAB7, 0xC45E4FDB);
    RoundIs(block, 76, 0x63F7DAB7, 0x5EE76897, 0xC45E4FDB, 0x3B6D0B79, 0xCE616779,
            0xE6E60B69, 0xA079B7D9, 0xD7B9DA25);
    RoundIs(block, 77, 0xA079B7D9, 0x63F7DAB7, 0xD7B9DA25, 0xC45E4FDB, 0x3B6D0B79,
            0x00F60A00, 0x860D21CC, 0xD8FDF6AD);
    RoundIs(block, 78, 0x860D21CC, 0xA079B7D9, 0xD8FDF6AD, 0xD7B9DA25, 0xC45E4FDB,
            0x5795EF4F, 0x5738D5E1, 0x681E6DF6);
    RoundIs(block, 79, 0x5738D5E1, 0x860D21CC, 0x681E6DF6, 0xD8FDF6AD, 0xD7B9DA25,
            0x822E0879, 0x42541B35, 0x21834873);
  }

  // ----- The digest -----

  lemma HashOfAbc()
    ensures HashBlocks(INITIAL_HASH, Pad(ABC)) ==
            Hash(Word(0xA9993E36), Word(0x4706816A), Word(0xBA3E2571), Word(0x7850C26C), Word(0x9CD0D89D))
  {
    var block := Pad(ABC);
    FirstWords(block);
    Rounds80(block);
    hide Pad;
    hide Rounds;
    assert block[..64] == block && block[64..] == [];
  }

  lemma Bytes0()
    ensures WordBytes(Word(0xA9993E36)) == [0xA9, 0x99, 0x3E, 0x36]
  {
  }

  lemma Bytes1()
    ensures WordBytes(Word(0x4706816A)) == [0x47, 0x06, 0x81, 0x6A]
  {
  }

  lemma Bytes2()
    ensures WordBytes(Word(0xBA3E2571)) == [0xBA, 0x3E, 0x25, 0x71]
  {
  }

  lemma Bytes3()
    ensures WordBytes(Word(0x7850C26C)) == [0x78, 0x50, 0xC2, 0x6C]
  {
  }

  lemma Bytes4()
    ensures WordBytes(Word(0x9CD0D89D)) == [0x9C, 0xD0, 0xD8, 0x9D]
  {
  }

  // SHA-1 of "abc".
  lemma KnownAnswer()
    ensures Digest(ABC) == ABC_DIGEST
  {
    HashOfAbc();
    Bytes0();
    Bytes1();
    Bytes2();
    Bytes3();
    Bytes4();
    hide HashBlocks;
    hide Pad;
    hide WordBytes;
  }

  // And that is what the program gives, however the message is cut.
  method HashAbc(pieces: seq<seq<Byte>>) returns (err: int, digest: seq<Byte>, again: seq<Byte>)
    requires Sha1.Flatten(pieces) == ABC && forall i :: 0 <= i < |pieces| ==> |pieces[i]| < TWO_32
    ensures err == Sha1.SHA_SUCCESS && digest == again == ABC_DIGEST
  {
    hide Digest;
    hide Sha1.Flatten;
    KnownAnswer();
    err, digest, again := Sha1.DigestOfPieces(pieces);
  }
}
