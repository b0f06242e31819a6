/** The hash of `abc`, the known answer of the examples to FIPS 180-4: schedule words and round states one by one. */
module Sha1Answer {
  import opened Bytes
  import opened Sha1Spec
  import Sha1Stream

  const ABC: bytes := [97, 98, 99]

  // ----- the message schedule

  lemma {:induction false} ScheduleAt(m: block, n: nat, t: nat)
    requires t < n <= 80
    ensures Schedule(m, n)[t] == NextWord(m, Schedule(m, n)[..t], t)
    decreases n
  {
    if t < n - 1 {
      ScheduleAt(m, n - 1, t);
      assert Schedule(m, n)[..t] == Schedule(m, n - 1)[..t];
    } else {
      assert Schedule(m, n)[..t] == Schedule(m, n - 1);
    }
  }

  /** The recurrence of section 6.1.2. */
  ghost predicate Continues(w: seq<word>, t: nat)
    requires 16 <= t < |w|
  {
    w[t] == Extended(w[t - 3], w[t - 8], w[t - 14], w[t - 16])
  }

  ghost predicate Recurs(w: seq<word>) {
    |w| == 80 && forall t {:trigger Continues(w, t)} :: 16 <= t < 80 ==> Continues(w, t)
  }

  /** The schedule of every block goes on by the recurrence. */
  lemma ScheduleRecurs(m: block)
    ensures Recurs(Schedule(m, 80))
  {
    forall t | 16 <= t < 80 ensures Continues(Schedule(m, 80), t) {
      ScheduleAt(m, 80, t);
    }
  }

  ghost predicate Words(w: seq<word>, t: nat, a: word, b: word, c: word, d: word, e: word, f: word, g: word, h: word) {
    && t + 8 <= |w| && w[t] == a && w[t + 1] == b && w[t + 2] == c && w[t + 3] == d
    && w[t + 4] == e && w[t + 5] == f && w[t + 6] == g && w[t + 7] == h
  }

  lemma Follows(w: seq<word>, t: nat, w3: word, w8: word, w14: word, w16: word, next: word)
    requires Recurs(w) && 16 <= t < 80
    requires w[t - 3] == w3 && w[t - 8] == w8 && w[t - 14] == w14 && w[t - 16] == w16
    requires next == Extended(w3, w8, w14, w16)
    ensures w[t] == next
  {
    assert Continues(w, t);
  }

  lemma Padded()
    ensures Pad(ABC) == ABC + [0x80] + Zeros(52) + [0, 0, 0, 0, 0, 0, 0, 24]
  {
    assert BigEndian(0, 4) == [0, 0, 0, 0];
    assert BigEndian(24, 8) == [0, 0, 0, 0, 0, 0, 0, 24];
  }

  lemma Words16(w: seq<word>)
    requires Recurs(w)
    requires Words(w, 0, 0x61626380, 0x00000000, 0x00000000, 0x00000000,
                     0x00000000, 0x00000000, 0x00000000, 0x00000000)
    requires Words(w, 8, 0x00000000, 0x00000000, 0x00000000, 0x00000000,
                     0x00000000, 0x00000000, 0x00000000, 0x00000018)
    ensures Words(w, 16, 0xC2C4C700, 0x00000000, 0x00000030, 0x85898E01,
                     0x00000000, 0x00000060, 0x0B131C03, 0x00000030)
  {
    Follows(w, 16, 0x00000000, 0x00000000, 0x00000000, 0x61626380, 0xC2C4C700);
    Follows(w, 17, 0x00000000, 0x00000000, 0x00000000, 0x00000000, 0x00000000);
    Follows(w, 18, 0x00000018, 0x00000000, 0x00000000, 0x00000000, 0x00000030);
    Follows(w, 19, 0xC2C4C700, 0x00000000, 0x00000000, 0x00000000, 0x85898E01);
    Follows(w, 20, 0x00000000, 0x00000000, 0x00000000, 0x00000000, 0x00000000);
    Follows(w, 21, 0x00000030, 0x00000000, 0x00000000, 0x00000000, 0x00000060);
    Follows(w, 22, 0x85898E01, 0x00000000, 0x00000000, 0x00000000, 0x0B131C03);
    Follows(w, 23, 0x00000000, 0x00000018, 0x00000000, 0x00000000, 0x00000030);
  }

  lemma Words24(w: seq<word>)
    requires Recurs(w)
    requires Words(w, 8, 0x00000000, 0x00000000, 0x00000000, 0x00000000,
                     0x00000000, 0x00000000, 0x00000000, 0x00000018)
    requires Words(w, 16, 0xC2C4C700, 0x00000000, 0x00000030, 0x85898E01,
                     0x00000000, 0x00000060, 0x0B131C03, 0x00000030)
    ensures Words(w, 24, 0x85898EC1, 0x16263806, 0x00000000, 0x00000180,
                     0x2C4C700C, 0x000000F0, 0x93AFB507, 0x5898E048)
  {
    Follows(w, 24, 0x00000060, 0xC2C4C700, 0x00000000, 0x00000000, 0x85898EC1);
    Follows(w, 25, 0x0B131C03, 0x00000000, 0x00000000, 0x00000000, 0x16263806);
    Follows(w, 26, 0x00000030, 0x00000030, 0x00000000, 0x00000000, 0x00000000);
    Follows(w, 27, 0x85898EC1, 0x85898E01, 0x00000000, 0x00000000, 0x00000180);
    Follows(w, 28, 0x16263806, 0x00000000, 0x00000000, 0x00000000, 0x2C4C700C);
    Follows(w, 29, 0x00000000, 0x00000060, 0x00000018, 0x00000000, 0x000000F0);
    Follows(w, 30, 0x00000180, 0x0B131C03, 0xC2C4C700, 0x00000000, 0x93AFB507);
    Follows(w, 31, 0x2C4C700C, 0x00000030, 0x00000000, 0x00000018, 0x5898E048);
  }

  lemma Words32(w: seq<word>)
    requires Recurs(w)
    requires Words(w, 16, 0xC2C4C700, 0x00000000, 0x00000030, 0x85898E01,
                     0x00000000, 0x00000060, 0x0B131C03, 0x00000030)
    requires Words(w, 24, 0x85898EC1, 0x16263806, 0x00000000, 0x00000180,
                     0x2C4C700C, 0x000000F0, 0x93AFB507, 0x5898E048)
    ensures Words(w, 32, 0x8E9A9202, 0x00000600, 0xB131C0F0, 0x16263BC6,
                     0x4EBED41E, 0x626380A1, 0x16263806, 0x000018C0)
  {
    Follows(w, 32, 0x000000F0, 0x85898EC1, 0x00000030, 0xC2C4C700, 0x8E9A9202);
    Follows(w, 33, 0x93AFB507, 0x16263806, 0x85898E01, 0x00000000, 0x00000600);
    Follows(w, 34, 0x5898E048, 0x00000000, 0x00000000, 0x00000030, 0xB131C0F0);
    Follows(w, 35, 0x8E9A9202, 0x00000180, 0x00000060, 0x85898E01, 0x16263BC6);
    Follows(w, 36, 0x00000600, 0x2C4C700C, 0x0B131C03, 0x00000000, 0x4EBED41E);
    Follows(w, 37, 0xB131C0F0, 0x000000F0, 0x00000030, 0x00000060, 0x626380A1);
    Follows(w, 38, 0x16263BC6, 0x93AFB507, 0x85898EC1, 0x0B131C03, 0x16263806);
    Follows(w, 39, 0x4EBED41E, 0x5898E048, 0x16263806, 0x00000030, 0x000018C0);
  }

  lemma Words40(w: seq<word>)
    requires Recurs(w)
    requires Words(w, 24, 0x85898EC1, 0x16263806, 0x00000000, 0x00000180,
                     0x2C4C700C, 0x000000F0, 0x93AFB507, 0x5898E048)
    requires Words(w, 32, 0x8E9A9202, 0x00000600, 0xB131C0F0, 0x16263BC6,
                     0x4EBED41E, 0x626380A1, 0x16263806, 0x000018C0)
    ensures Words(w, 40, 0xD2E138C4, 0x00000F00, 0x3AFB5079, 0x898E04E5,
                     0xE2BA3C2B, 0x000060C0, 0x053A37CD, 0x74458547)
  {
    Follows(w, 40, 0x626380A1, 0x8E9A9202, 0x00000000, 0x85898EC1, 0xD2E138C4);
    Follows(w, 41, 0x16263806, 0x00000600, 0x00000180, 0x16263806, 0x00000F00);
    Follows(w, 42, 0x000018C0, 0xB131C0F0, 0x2C4C700C, 0x00000000, 0x3AFB5079);
    Follows(w, 43, 0xD2E138C4, 0x16263BC6, 0x000000F0, 0x00000180, 0x898E04E5);
    Follows(w, 44, 0x00000F00, 0x4EBED41E, 0x93AFB507, 0x2C4C700C, 0xE2BA3C2B);
    Follows(w, 45, 0x3AFB5079, 0x626380A1, 0x5898E048, 0x000000F0, 0x000060C0);
    Follows(w, 46, 0x898E04E5, 0x16263806, 0x8E9A9202, 0x93AFB507, 0x053A37CD);
    Follows(w, 47, 0xE2BA3C2B, 0x000018C0, 0x00000600, 0x5898E048, 0x74458547);
  }

  lemma Words48(w: seq<word>)
    requires Recurs(w)
    requires Words(w, 32, 0x8E9A9202, 0x00000600, 0xB131C0F0, 0x16263BC6,
                     0x4EBED41E, 0x626380A1, 0x16263806, 0x000018C0)
    requires Words(w, 40, 0xD2E138C4, 0x00000F00, 0x3AFB5079, 0x898E04E5,
                     0xE2BA3C2B, 0x000060C0, 0x053A37CD, 0x74458547)
    ensures Words(w, 48, 0xDA9415ED, 0x26380A16, 0x626383A1, 0x4EBF54DE,
                     0x3835B44B, 0x0000F600, 0x1E84C7A3, 0x98E04D98)
  {
    Follows(w, 48, 0x000060C0, 0xD2E138C4, 0xB131C0F0, 0x8E9A9202, 0xDA9415ED);
    Follows(w, 49, 0x053A37CD, 0x00000F00, 0x16263BC6, 0x00000600, 0x26380A16);
    Follows(w, 50, 0x74458547, 0x3AFB5079, 0x4EBED41E, 0xB131C0F0, 0x626383A1);
    Follows(w, 51, 0xDA9415ED, 0x898E04E5, 0x626380A1, 0x16263BC6, 0x4EBF54DE);
    Follows(w, 52, 0x26380A16, 0xE2BA3C2B, 0x16263806, 0x4EBED41E, 0x3835B44B);
    Follows(w, 53, 0x626383A1, 0x000060C0, 0x000018C0, 0x626380A1, 0x0000F600);
    Follows(w, 54, 0x4EBF54DE, 0x053A37CD, 0xD2E138C4, 0x16263806, 0x1E84C7A3);
    Follows(w, 55, 0x3835B44B, 0x74458547, 0x00000F00, 0x000018C0, 0x98E04D98);
  }

  lemma Words56(w: seq<word>)
    requires Recurs(w)
    requires Words(w, 40, 0xD2E138C4, 0x00000F00, 0x3AFB5079, 0x898E04E5,
                     0xE2BA3C2B, 0x000060C0, 0x053A37CD, 0x74458547)
    requires Words(w, 48, 0xDA9415ED, 0x26380A16, 0x626383A1, 0x4EBF54DE,
                     0x3835B44B, 0x0000F600, 0x1E84C7A3, 0x98E04D98)
    ensures Words(w, 56, 0x651D16A0, 0x62658CA1, 0x458544D6, 0x44584CB7,
                     0x7BA06619, 0x6380AEA2, 0x0AE55269, 0x627B49A1)
  {
    Follows(w, 56, 0x0000F600, 0xDA9415ED, 0x3AFB5079, 0xD2E138C4, 0x651D16A0);
    Follows(w, 57, 0x1E84C7A3, 0x26380A16, 0x898E04E5, 0x00000F00, 0x62658CA1);
    Follows(w, 58, 0x98E04D98, 0x626383A1, 0xE2BA3C2B, 0x3AFB5079, 0x458544D6);
    Follows(w, 59, 0x651D16A0, 0x4EBF54DE, 0x000060C0, 0x898E04E5, 0x44584CB7);
    Follows(w, 60, 0x62658CA1, 0x3835B44B, 0x053A37CD, 0xE2BA3C2B, 0x7BA06619);
    Follows(w, 61, 0x458544D6, 0x0000F600, 0x74458547, 0x000060C0, 0x6380AEA2);
    Follows(w, 62, 0x44584CB7, 0x1E84C7A3, 0xDA9415ED, 0x053A37CD, 0x0AE55269);
    Follows(w, 63, 0x7BA06619, 0x98E04D98, 0x26380A16, 0x74458547, 0x627B49A1);
  }

  lemma Words64(w: seq<word>)
    requires Recurs(w)
    requires Words(w, 48, 0xDA9415ED, 0x26380A16, 0x626383A1, 0x4EBF54DE,
                     0x3835B44B, 0x0000F600, 0x1E84C7A3, 0x98E04D98)
    requires Words(w, 56, 0x651D16A0, 0x62658CA1, 0x458544D6, 0x44584CB7,
                     0x7BA06619, 0x6380AEA2, 0x0AE55269, 0x627B49A1)
    ensures Words(w, 64, 0x7CD45C9D, 0x000F0000, 0xFB50753A, 0xEC6765E8,
                     0xBA3C2BE2, 0x0060C000, 0x3A37CD05, 0x458546F4)
  {
    Follows(w, 64, 0x6380AEA2, 0x651D16A0, 0x626383A1, 0xDA9415ED, 0x7CD45C9D);
    Follows(w, 65, 0x0AE55269, 0x62658CA1, 0x4EBF54DE, 0x26380A16, 0x000F0000);
    Follows(w, 66, 0x627B49A1, 0x458544D6, 0x3835B44B, 0x626383A1, 0xFB50753A);
    Follows(w, 67, 0x7CD45C9D, 0x44584CB7, 0x0000F600, 0x4EBF54DE, 0xEC6765E8);
    Follows(w, 68, 0x000F0000, 0x7BA06619, 0x1E84C7A3, 0x3835B44B, 0xBA3C2BE2);
    Follows(w, 69, 0xFB50753A, 0x6380AEA2, 0x98E04D98, 0x0000F600, 0x0060C000);
    Follows(w, 70, 0xEC6765E8, 0x0AE55269, 0x651D16A0, 0x1E84C7A3, 0x3A37CD05);
    Follows(w, 71, 0xBA3C2BE2, 0x627B49A1, 0x62658CA1, 0x98E04D98, 0x458546F4);
  }

  lemma Words72(w: seq<word>)
    requires Recurs(w)
    requires Words(w, 56, 0x651D16A0, 0x62658CA1, 0x458544D6, 0x44584CB7,
                     0x7BA06619, 0x6380AEA2, 0x0AE55269, 0x627B49A1)
    requires Words(w, 64, 0x7CD45C9D, 0x000F0000, 0xFB50753A, 0xEC6765E8,
                     0xBA3C2BE2, 0x0060C000, 0x3A37CD05, 0x458546F4)
    ensures Words(w, 72, 0xB8599DD6, 0x380A1A26, 0x01E02203, 0xE7CC3456,
                     0xE6E60B69, 0x00F60A00, 0x5795EF4F, 0x822E0879)
  {
    Follows(w, 72, 0x0060C000, 0x7CD45C9D, 0x458544D6, 0x651D16A0, 0xB8599DD6);
    Follows(w, 73, 0x3A37CD05, 0x000F0000, 0x44584CB7, 0x62658CA1, 0x380A1A26);
    Follows(w, 74, 0x458546F4, 0xFB50753A, 0x7BA06619, 0x458544D6, 0x01E02203);
    Follows(w, 75, 0xB8599DD6, 0xEC6765E8, 0x6380AEA2, 0x44584CB7, 0xE7CC3456);
    Follows(w, 76, 0x380A1A26, 0xBA3C2BE2, 0x0AE55269, 0x7BA06619, 0xE6E60B69);
    Follows(w, 77, 0x01E02203, 0x0060C000, 0x627B49A1, 0x6380AEA2, 0x00F60A00);
    Follows(w, 78, 0xE7CC3456, 0x3A37CD05, 0x7CD45C9D, 0x0AE55269, 0x5795EF4F);
    Follows(w, 79, 0xE6E60B69, 0x458546F4, 0x000F0000, 0x627B49A1, 0x822E0879);
  }

  // ----- the rounds

  lemma RoundIs(w: seq<word>, t: nat, s: State, x: word, next: State)
    requires t < 80 && |w| == 80 && w[t] == x && Rounds(INITIAL, w, t) == s
    requires next == State(T(s.a, F(t, s.b, s.c, s.d), s.e, K(t), x), s.a, ROTL(30, s.b), s.c, s.d)
    ensures Rounds(INITIAL, w, t + 1) == next
  {
  }

  lemma Rounds8(w: seq<word>)
    requires |w| == 80 && Rounds(INITIAL, w, 0) == State(0x67452301, 0xEFCDAB89, 0x98BADCFE, 0x10325476, 0xC3D2E1F0)
    requires Words(w, 0, 0x61626380, 0x00000000, 0x00000000, 0x00000000,
                     0x00000000, 0x00000000, 0x00000000, 0x00000000)
    ensures Rounds(INITIAL, w, 8) == State(0x9E8C07D4, 0x993E30C1, 0x0FF1F290, 0xB3F52677, 0xF3763846)
  {
    RoundIs(w, 0, State(0x67452301, 0xEFCDAB89, 0x98BADCFE, 0x10325476, 0xC3D2E1F0), 0x61626380,
            State(0x0116FC33, 0x67452301, 0x7BF36AE2, 0x98BADCFE, 0x10325476));
    RoundIs(w, 1, State(0x0116FC33, 0x67452301, 0x7BF36AE2, 0x98BADCFE, 0x10325476), 0x00000000,
            State(0x8990536D, 0x0116FC33, 0x59D148C0, 0x7BF36AE2, 0x98BADCFE));
    RoundIs(w, 2, State(0x8990536D, 0x0116FC33, 0x59D148C0, 0x7BF36AE2, 0x98BADCFE), 0x00000000,
            State(0xA1390F08, 0x8990536D, 0xC045BF0C, 0x59D148C0, 0x7BF36AE2));
    RoundIs(w, 3, State(0xA1390F08, 0x8990536D, 0xC045BF0C, 0x59D148C0, 0x7BF36AE2), 0x00000000,
            State(0xCDD8E11B, 0xA1390F08, 0x626414DB, 0xC045BF0C, 0x59D148C0));
    RoundIs(w, 4, State(0xCDD8E11B, 0xA1390F08, 0x626414DB, 0xC045BF0C, 0x59D148C0), 0x00000000,
            State(0xCFD499DE, 0xCDD8E11B, 0x284E43C2, 0x626414DB, 0xC045BF0C));
    RoundIs(w, 5, State(0xCFD499DE, 0xCDD8E11B, 0x284E43C2, 0x626414DB, 0xC045BF0C), 0x00000000,
            State(0x3FC7CA40, 0xCFD499DE, 0xF3763846, 0x284E43C2, 0x626414DB));
    RoundIs(w, 6, State(0x3FC7CA40, 0xCFD499DE, 0xF3763846, 0x284E43C2, 0x626414DB), 0x00000000,
            State(0x993E30C1, 0x3FC7CA40, 0xB3F52677, 0xF3763846, 0x284E43C2));
    RoundIs(w, 7, State(0x993E30C1, 0x3FC7CA40, 0xB3F52677, 0xF3763846, 0x284E43C2), 0x00000000,
            State(0x9E8C07D4, 0x993E30C1, 0x0FF1F290, 0xB3F52677, 0xF3763846));
  }

  lemma Rounds16(w: seq<word>)
    requires |w| == 80 && Rounds(INITIAL, w, 8) == State(0x9E8C07D4, 0x993E30C1, 0x0FF1F290, 0xB3F52677, 0xF3763846)
    requires Words(w, 8, 0x00000000, 0x00000000, 0x00000000, 0x00000000,
                     0x00000000, 0x00000000, 0x00000000, 0x00000018)
    ensures Rounds(INITIAL, w, 16) == State(0x20BDD62F, 0x196BEE77, 0x644A3DA5, 0x1181ED99, 0x18C623F9)
  {
    RoundIs(w, 8, State(0x9E8C07D4, 0x993E30C1, 0x0FF1F290, 0xB3F52677, 0xF3763846), 0x00000000,
            State(0x4B6AE328, 0x9E8C07D4, 0x664F8C30, 0x0FF1F290, 0xB3F52677));
    RoundIs(w, 9, State(0x4B6AE328, 0x9E8C07D4, 0x664F8C30, 0x0FF1F290, 0xB3F52677), 0x00000000,
            State(0x8351F929, 0x4B6AE328, 0x27A301F5, 0x664F8C30, 0x0FF1F290));
    RoundIs(w, 10, State(0x8351F929, 0x4B6AE328, 0x27A301F5, 0x664F8C30, 0x0FF1F290), 0x00000000,
            State(0xFBDA9E89, 0x8351F929, 0x12DAB8CA, 0x27A301F5, 0x664F8C30));
    RoundIs(w, 11, State(0xFBDA9E89, 0x8351F929, 0x12DAB8CA, 0x27A301F5, 0x664F8C30), 0x00000000,
            State(0x63188FE4, 0xFBDA9E89, 0x60D47E4A, 0x12DAB8CA, 0x27A301F5));
    RoundIs(w, 12, State(0x63188FE4, 0xFBDA9E89, 0x60D47E4A, 0x12DAB8CA, 0x27A301F5), 0x00000000,
            State(0x4607B664, 0x63188FE4, 0x7EF6A7A2, 0x60D47E4A, 0x12DAB8CA));
    RoundIs(w, 13, State(0x4607B664, 0x63188FE4, 0x7EF6A7A2, 0x60D47E4A, 0x12DAB8CA), 0x00000000,
            State(0x9128F695, 0x4607B664, 0x18C623F9, 0x7EF6A7A2, 0x60D47E4A));
    RoundIs(w, 14, State(0x9128F695, 0x4607B664, 0x18C623F9, 0x7EF6A7A2, 0x60D47E4A), 0x00000000,
            State(0x196BEE77, 0x9128F695, 0x1181ED99, 0x18C623F9, 0x7EF6A7A2));
    RoundIs(w, 15, State(0x196BEE77, 0x9128F695, 0x1181ED99, 0x18C623F9, 0x7EF6A7A2), 0x00000018,
            State(0x20BDD62F, 0x196BEE77, 0x644A3DA5, 0x1181ED99, 0x18C623F9));
  }

  lemma Rounds24(w: seq<word>)
    requires |w| == 80 && Rounds(INITIAL, w, 16) == State(0x20BDD62F, 0x196BEE77, 0x644A3DA5, 0x1181ED99, 0x18C623F9)
    requires Words(w, 16, 0xC2C4C700, 0x00000000, 0x00000030, 0x85898E01,
                     0x00000000, 0x00000060, 0x0B131C03, 0x00000030)
    ensures Rounds(INITIAL, w, 24) == State(0xD541F12D, 0x21283486, 0x0CE88EFF, 0x868DEC32, 0x7F67875F)
  {
    RoundIs(w, 16, State(0x20BDD62F, 0x196BEE77, 0x644A3DA5, 0x1181ED99, 0x18C623F9), 0xC2C4C700,
            State(0x4E925823, 0x20BDD62F, 0xC65AFB9D, 0x644A3DA5, 0x1181ED99));
    RoundIs(w, 17, State(0x4E925823, 0x20BDD62F, 0xC65AFB9D, 0x644A3DA5, 0x1181ED99), 0x00000000,
            State(0x82AA6728, 0x4E925823, 0xC82F758B, 0xC65AFB9D, 0x644A3DA5));
    RoundIs(w, 18, State(0x82AA6728, 0x4E925823, 0xC82F758B, 0xC65AFB9D, 0x644A3DA5), 0x00000030,
            State(0xDC64901D, 0x82AA6728, 0xD3A49608, 0xC82F758B, 0xC65AFB9D));
    RoundIs(w, 19, State(0xDC64901D, 0x82AA6728, 0xD3A49608, 0xC82F758B, 0xC65AFB9D), 0x85898E01,
            State(0xFD9E1D7D, 0xDC64901D, 0x20AA99CA, 0xD3A49608, 0xC82F758B));
    RoundIs(w, 20, State(0xFD9E1D7D, 0xDC64901D, 0x20AA99CA, 0xD3A49608, 0xC82F758B), 0x00000000,
            State(0x1A37B0CA, 0xFD9E1D7D, 0x77192407, 0x20AA99CA, 0xD3A49608));
    RoundIs(w, 21, State(0x1A37B0CA, 0xFD9E1D7D, 0x77192407, 0x20AA99CA, 0xD3A49608), 0x00000060,
            State(0x33A23BFC, 0x1A37B0CA, 0x7F67875F, 0x77192407, 0x20AA99CA));
    RoundIs(w, 22, State(0x33A23BFC, 0x1A37B0CA, 0x7F67875F, 0x77192407, 0x20AA99CA), 0x0B131C03,
            State(0x21283486, 0x33A23BFC, 0x868DEC32, 0x7F67875F, 0x77192407));
    RoundIs(w, 23, State(0x21283486, 0x33A23BFC, 0x868DEC32, 0x7F67875F, 0x77192407), 0x00000030,
            State(0xD541F12D, 0x21283486, 0x0CE88EFF, 0x868DEC32, 0x7F67875F));
  }

  lemma Rounds32(w: seq<word>)
    requires |w| == 80 && Rounds(INITIAL, w, 24) == State(0xD541F12D, 0x21283486, 0x0CE88EFF, 0x868DEC32, 0x7F67875F)
    requires Words(w, 24, 0x85898EC1, 0x16263806, 0x00000000, 0x00000180,
                     0x2C4C700C, 0x000000F0, 0x93AFB507, 0x5898E048)
    ensures Rounds(INITIAL, w, 32) == State(0x3B845D33, 0x1267B407, 0x717EEBD7, 0xA0DC2D4B, 0xD2AA1365)
  {
    RoundIs(w, 24, State(0xD541F12D, 0x21283486, 0x0CE88EFF, 0x868DEC32, 0x7F67875F), 0x85898EC1,
            State(0xC7567DC6, 0xD541F12D, 0x884A0D21, 0x0CE88EFF, 0x868DEC32));
    RoundIs(w, 25, State(0xC7567DC6, 0xD541F12D, 0x884A0D21, 0x0CE88EFF, 0x868DEC32), 0x16263806,
            State(0x48413BA4, 0xC7567DC6, 0x75507C4B, 0x884A0D21, 0x0CE88EFF));
    RoundIs(w, 26, State(0x48413BA4, 0xC7567DC6, 0x75507C4B, 0x884A0D21, 0x0CE88EFF), 0x00000000,
            State(0xBE35FBD5, 0x48413BA4, 0xB1D59F71, 0x75507C4B, 0x884A0D21));
    RoundIs(w, 27, State(0xBE35FBD5, 0x48413BA4, 0xB1D59F71, 0x75507C4B, 0x884A0D21), 0x00000180,
            State(0x4AA84D97, 0xBE35FBD5, 0x12104EE9, 0xB1D59F71, 0x75507C4B));
    RoundIs(w, 28, State(0x4AA84D97, 0xBE35FBD5, 0x12104EE9, 0xB1D59F71, 0x75507C4B), 0x2C4C700C,
            State(0x8370B52E, 0x4AA84D97, 0x6F8D7EF5, 0x12104EE9, 0xB1D59F71));
    RoundIs(w, 29, State(0x8370B52E, 0x4AA84D97, 0x6F8D7EF5, 0x12104EE9, 0xB1D59F71), 0x000000F0,
            State(0xC5FBAF5D, 0x8370B52E, 0xD2AA1365, 0x6F8D7EF5, 0x12104EE9));
    RoundIs(w, 30, State(0xC5FBAF5D, 0x8370B52E, 0xD2AA1365, 0x6F8D7EF5, 0x12104EE9), 0x93AFB507,
            State(0x1267B407, 0xC5FBAF5D, 0xA0DC2D4B, 0xD2AA1365, 0x6F8D7EF5));
    RoundIs(w, 31, State(0x1267B407, 0xC5FBAF5D, 0xA0DC2D4B, 0xD2AA1365, 0x6F8D7EF5), 0x5898E048,
            State(0x3B845D33, 0x1267B407, 0x717EEBD7, 0xA0DC2D4B, 0xD2AA1365));
  }

  lemma Rounds40(w: seq<word>)
    requires |w| == 80 && Rounds(INITIAL, w, 32) == State(0x3B845D33, 0x1267B407, 0x717EEBD7, 0xA0DC2D4B, 0xD2AA1365)
    requires Words(w, 32, 0x8E9A9202, 0x00000600, 0xB131C0F0, 0x16263BC6,
                     0x4EBED41E, 0x626380A1, 0x16263806, 0x000018C0)
    ensures Rounds(INITIAL, w, 40) == State(0x32DE1CBA, 0x4C986405, 0xF718E5CF, 0x03D447F6, 0xF72EEC32)
  {
    RoundIs(w, 32, State(0x3B845D33, 0x1267B407, 0x717EEBD7, 0xA0DC2D4B, 0xD2AA1365), 0x8E9A9202,
            State(0x046FAA0A, 0x3B845D33, 0xC499ED01, 0x717EEBD7, 0xA0DC2D4B));
    RoundIs(w, 33, State(0x046FAA0A, 0x3B845D33, 0xC499ED01, 0x717EEBD7, 0xA0DC2D4B), 0x00000600,
            State(0x2C0EBC11, 0x046FAA0A, 0xCEE1174C, 0xC499ED01, 0x717EEBD7));
    RoundIs(w, 34, State(0x2C0EBC11, 0x046FAA0A, 0xCEE1174C, 0xC499ED01, 0x717EEBD7), 0xB131C0F0,
            State(0x21796AD4, 0x2C0EBC11, 0x811BEA82, 0xCEE1174C, 0xC499ED01));
    RoundIs(w, 35, State(0x21796AD4, 0x2C0EBC11, 0x811BEA82, 0xCEE1174C, 0xC499ED01), 0x16263BC6,
            State(0xDCBBB0CB, 0x21796AD4, 0x4B03AF04, 0x811BEA82, 0xCEE1174C));
    RoundIs(w, 36, State(0xDCBBB0CB, 0x21796AD4, 0x4B03AF04, 0x811BEA82, 0xCEE1174C), 0x4EBED41E,
            State(0x0F511FD8, 0xDCBBB0CB, 0x085E5AB5, 0x4B03AF04, 0x811BEA82));
    RoundIs(w, 37, State(0x0F511FD8, 0xDCBBB0CB, 0x085E5AB5, 0x4B03AF04, 0x811BEA82), 0x626380A1,
            State(0xDC63973F, 0x0F511FD8, 0xF72EEC32, 0x085E5AB5, 0x4B03AF04));
    RoundIs(w, 38, State(0xDC63973F, 0x0F511FD8, 0xF72EEC32, 0x085E5AB5, 0x4B03AF04), 0x16263806,
            State(0x4C986405, 0xDC63973F, 0x03D447F6, 0xF72EEC32, 0x085E5AB5));
    RoundIs(w, 39, State(0x4C986405, 0xDC63973F, 0x03D447F6, 0xF72EEC32, 0x085E5AB5), 0x000018C0,
            State(0x32DE1CBA, 0x4C986405, 0xF718E5CF, 0x03D447F6, 0xF72EEC32));
  }

  lemma Rounds48(w: seq<word>)
    requires |w| == 80 && Rounds(INITIAL, w, 40) == State(0x32DE1CBA, 0x4C986405, 0xF718E5CF, 0x03D447F6, 0xF72EEC32)
    requires Words(w, 40, 0xD2E138C4, 0x00000F00, 0x3AFB5079, 0x898E04E5,
                     0xE2BA3C2B, 0x000060C0, 0x053A37CD, 0x74458547)
    ensures Rounds(INITIAL, w, 48) == State(0xBEAD02CA, 0xA01B846C, 0x8714787C, 0x503CA382, 0xFB86C6AB)
  {
    RoundIs(w, 40, State(0x32DE1CBA, 0x4C986405, 0xF718E5CF, 0x03D447F6, 0xF72EEC32), 0xD2E138C4,
            State(0xFC87DEDF, 0x32DE1CBA, 0x53261901, 0xF718E5CF, 0x03D447F6));
    RoundIs(w, 41, State(0xFC87DEDF, 0x32DE1CBA, 0x53261901, 0xF718E5CF, 0x03D447F6), 0x00000F00,
            State(0x970A0D5C, 0xFC87DEDF, 0x8CB7872E, 0x53261901, 0xF718E5CF));
    RoundIs(w, 42, State(0x970A0D5C, 0xFC87DEDF, 0x8CB7872E, 0x53261901, 0xF718E5CF), 0x3AFB5079,
            State(0x7F193DC5, 0x970A0D5C, 0xFF21F7B7, 0x8CB7872E, 0x53261901));
    RoundIs(w, 43, State(0x7F193DC5, 0x970A0D5C, 0xFF21F7B7, 0x8CB7872E, 0x53261901), 0x898E04E5,
            State(0xEE1B1AAF, 0x7F193DC5, 0x25C28357, 0xFF21F7B7, 0x8CB7872E));
    RoundIs(w, 44, State(0xEE1B1AAF, 0x7F193DC5, 0x25C28357, 0xFF21F7B7, 0x8CB7872E), 0xE2BA3C2B,
            State(0x40F28E09, 0xEE1B1AAF, 0x5FC64F71, 0x25C28357, 0xFF21F7B7));
    RoundIs(w, 45, State(0x40F28E09, 0xEE1B1AAF, 0x5FC64F71, 0x25C28357, 0xFF21F7B7), 0x000060C0,
            State(0x1C51E1F2, 0x40F28E09, 0xFB86C6AB, 0x5FC64F71, 0x25C28357));
    RoundIs(w, 46, State(0x1C51E1F2, 0x40F28E09, 0xFB86C6AB, 0x5FC64F71, 0x25C28357), 0x053A37CD,
            State(0xA01B846C, 0x1C51E1F2, 0x503CA382, 0xFB86C6AB, 0x5FC64F71));
    RoundIs(w, 47, State(0xA01B846C, 0x1C51E1F2, 0x503CA382, 0xFB86C6AB, 0x5FC64F71), 0x74458547,
            State(0xBEAD02CA, 0xA01B846C, 0x8714787C, 0x503CA382, 0xFB86C6AB));
  }

  lemma Rounds56(w: seq<word>)
    requires |w| == 80 && Rounds(INITIAL, w, 48) == State(0xBEAD02CA, 0xA01B846C, 0x8714787C, 0x503CA382, 0xFB86C6AB)
    requires Words(w, 48, 0xDA9415ED, 0x26380A16, 0x626383A1, 0x4EBF54DE,
                     0x3835B44B, 0x0000F600, 0x1E84C7A3, 0x98E04D98)
    ensures Rounds(INITIAL, w, 56) == State(0x5E6456AF, 0x7B71F76D, 0x09FA7C76, 0x792410DB, 0x8E11EB59)
  {
    RoundIs(w, 48, State(0xBEAD02CA, 0xA01B846C, 0x8714787C, 0x503CA382, 0xFB86C6AB), 0xDA9415ED,
            State(0xBAF39337, 0xBEAD02CA, 0x2806E11B, 0x8714787C, 0x503CA382));
    RoundIs(w, 49, State(0xBAF39337, 0xBEAD02CA, 0x2806E11B, 0x8714787C, 0x503CA382), 0x26380A16,
            State(0x120731C5, 0xBAF39337, 0xAFAB40B2, 0x2806E11B, 0x8714787C));
    RoundIs(w, 50, State(0x120731C5, 0xBAF39337, 0xAFAB40B2, 0x2806E11B, 0x8714787C), 0x626383A1,
            State(0x641DB2CE, 0x120731C5, 0xEEBCE4CD, 0xAFAB40B2, 0x2806E11B));
    RoundIs(w, 51, State(0x641DB2CE, 0x120731C5, 0xEEBCE4CD, 0xAFAB40B2, 0x2806E11B), 0x4EBF54DE,
            State(0x3847AD66, 0x641DB2CE, 0x4481CC71, 0xEEBCE4CD, 0xAFAB40B2));
    RoundIs(w, 52, State(0x3847AD66, 0x641DB2CE, 0x4481CC71, 0xEEBCE4CD, 0xAFAB40B2), 0x3835B44B,
            State(0xE490436D, 0x3847AD66, 0x99076CB3, 0x4481CC71, 0xEEBCE4CD));
    RoundIs(w, 53, State(0xE490436D, 0x3847AD66, 0x99076CB3, 0x4481CC71, 0xEEBCE4CD), 0x0000F600,
            State(0x27E9F1D8, 0xE490436D, 0x8E11EB59, 0x99076CB3, 0x4481CC71));
    RoundIs(w, 54, State(0x27E9F1D8, 0xE490436D, 0x8E11EB59, 0x99076CB3, 0x4481CC71), 0x1E84C7A3,
            State(0x7B71F76D, 0x27E9F1D8, 0x792410DB, 0x8E11EB59, 0x99076CB3));
    RoundIs(w, 55, State(0x7B71F76D, 0x27E9F1D8, 0x792410DB, 0x8E11EB59, 0x99076CB3), 0x98E04D98,
            State(0x5E6456AF, 0x7B71F76D, 0x09FA7C76, 0x792410DB, 0x8E11EB59));
  }

  lemma Rounds64(w: seq<word>)
    requires |w| == 80 && Rounds(INITIAL, w, 56) == State(0x5E6456AF, 0x7B71F76D, 0x09FA7C76, 0x792410DB, 0x8E11EB59)
    requires Words(w, 56, 0x651D16A0, 0x62658CA1, 0x458544D6, 0x44584CB7,
                     0x7BA06619, 0x6380AEA2, 0x0AE55269, 0x627B49A1)
    ensures Rounds(INITIAL, w, 64) == State(0x6B61C9E1, 0xB66C020B, 0x9523272C, 0xF5D5B051, 0x8FD4B796)
  {
    RoundIs(w, 56, State(0x5E6456AF, 0x7B71F76D, 0x09FA7C76, 0x792410DB, 0x8E11EB59), 0x651D16A0,
            State(0xC846093F, 0x5E6456AF, 0x5EDC7DDB, 0x09FA7C76, 0x792410DB));
    RoundIs(w, 57, State(0xC846093F, 0x5E6456AF, 0x5EDC7DDB, 0x09FA7C76, 0x792410DB), 0x62658CA1,
            State(0xD262FF50, 0xC846093F, 0xD79915AB, 0x5EDC7DDB, 0x09FA7C76));
    RoundIs(w, 58, State(0xD262FF50, 0xC846093F, 0xD79915AB, 0x5EDC7DDB, 0x09FA7C76), 0x458544D6,
            State(0x09D785FD, 0xD262FF50, 0xF211824F, 0xD79915AB, 0x5EDC7DDB));
    RoundIs(w, 59, State(0x09D785FD, 0xD262FF50, 0xF211824F, 0xD79915AB, 0x5EDC7DDB), 0x44584CB7,
            State(0x3F52DE5A, 0x09D785FD, 0x3498BFD4, 0xF211824F, 0xD79915AB));
    RoundIs(w, 60, State(0x3F52DE5A, 0x09D785FD, 0x3498BFD4, 0xF211824F, 0xD79915AB), 0x7BA06619,
            State(0xD756C147, 0x3F52DE5A, 0x4275E17F, 0x3498BFD4, 0xF211824F));
    RoundIs(w, 61, State(0xD756C147, 0x3F52DE5A, 0x4275E17F, 0x3498BFD4, 0xF211824F), 0x6380AEA2,
            State(0x548C9CB2, 0xD756C147, 0x8FD4B796, 0x4275E17F, 0x3498BFD4));
    RoundIs(w, 62, State(0x548C9CB2, 0xD756C147, 0x8FD4B796, 0x4275E17F, 0x3498BFD4), 0x0AE55269,
            State(0xB66C020B, 0x548C9CB2, 0xF5D5B051, 0x8FD4B796, 0x4275E17F));
    RoundIs(w, 63, State(0xB66C020B, 0x548C9CB2, 0xF5D5B051, 0x8FD4B796, 0x4275E17F), 0x627B49A1,
            State(0x6B61C9E1, 0xB66C020B, 0x9523272C, 0xF5D5B051, 0x8FD4B796));
  }

  lemma Rounds72(w: seq<word>)
    requires |w| == 80 && Rounds(INITIAL, w, 64) == State(0x6B61C9E1, 0xB66C020B, 0x9523272C, 0xF5D5B051, 0x8FD4B796)
    requires Words(w, 64, 0x7CD45C9D, 0x000F0000, 0xFB50753A, 0xEC6765E8,
                     0xBA3C2BE2, 0x0060C000, 0x3A37CD05, 0x458546F4)
    ensures Rounds(INITIAL, w, 72) == State(0x39859DE7, 0xC199F8C7, 0x8FC96230, 0x125C24F0, 0xDE37534A)
  {
    RoundIs(w, 64, State(0x6B61C9E1, 0xB66C020B, 0x9523272C, 0xF5D5B051, 0x8FD4B796), 0x7CD45C9D,
            State(0x19DFA7AC, 0x6B61C9E1, 0xED9B0082, 0x9523272C, 0xF5D5B051));
    RoundIs(w, 65, State(0x19DFA7AC, 0x6B61C9E1, 0xED9B0082, 0x9523272C, 0xF5D5B051), 0x000F0000,
            State(0x101655F9, 0x19DFA7AC, 0x5AD87278, 0xED9B0082, 0x9523272C));
    RoundIs(w, 66, State(0x101655F9, 0x19DFA7AC, 0x5AD87278, 0xED9B0082, 0x9523272C), 0xFB50753A,
            State(0x0C3DF2B4, 0x101655F9, 0x0677E9EB, 0x5AD87278, 0xED9B0082));
    RoundIs(w, 67, State(0x0C3DF2B4, 0x101655F9, 0x0677E9EB, 0x5AD87278, 0xED9B0082), 0xEC6765E8,
            State(0x78DD4D2B, 0x0C3DF2B4, 0x4405957E, 0x0677E9EB, 0x5AD87278));
    RoundIs(w, 68, State(0x78DD4D2B, 0x0C3DF2B4, 0x4405957E, 0x0677E9EB, 0x5AD87278), 0xBA3C2BE2,
            State(0x497093C0, 0x78DD4D2B, 0x030F7CAD, 0x4405957E, 0x0677E9EB));
    RoundIs(w, 69, State(0x497093C0, 0x78DD4D2B, 0x030F7CAD, 0x4405957E, 0x0677E9EB), 0x0060C000,
            State(0x3F2588C2, 0x497093C0, 0xDE37534A, 0x030F7CAD, 0x4405957E));
    RoundIs(w, 70, State(0x3F2588C2, 0x497093C0, 0xDE37534A, 0x030F7CAD, 0x4405957E), 0x3A37CD05,
            State(0xC199F8C7, 0x3F2588C2, 0x125C24F0, 0xDE37534A, 0x030F7CAD));
    RoundIs(w, 71, State(0xC199F8C7, 0x3F2588C2, 0x125C24F0, 0xDE37534A, 0x030F7CAD), 0x458546F4,
            State(0x39859DE7, 0xC199F8C7, 0x8FC96230, 0x125C24F0, 0xDE37534A));
  }

  lemma Rounds80(w: seq<word>)
    requires |w| == 80 && Rounds(INITIAL, w, 72) == State(0x39859DE7, 0xC199F8C7, 0x8FC96230, 0x125C24F0, 0xDE37534A)
    requires Words(w, 72, 0xB8599DD6, 0x380A1A26, 0x01E02203, 0xE7CC3456,
                     0xE6E60B69, 0x00F60A00, 0x5795EF4F, 0x822E0879)
    ensures Rounds(INITIAL, w, 80) == State(0x42541B35, 0x5738D5E1, 0x21834873, 0x681E6DF6, 0xD8FDF6AD)
  {
    RoundIs(w, 72, State(0x39859DE7, 0xC199F8C7, 0x8FC96230, 0x125C24F0, 0xDE37534A), 0xB8599DD6,
            State(0xEDB42DE4, 0x39859DE7, 0xF0667E31, 0x8FC96230, 0x125C24F0));
    RoundIs(w, 73, State(0xEDB42DE4, 0x39859DE7, 0xF0667E31, 0x8FC96230, 0x125C24F0), 0x380A1A26,
            State(0x11793F6F, 0xEDB42DE4, 0xCE616779, 0xF0667E31, 0x8FC96230));
    RoundIs(w, 74, State(0x11793F6F, 0xEDB42DE4, 0xCE616779, 0xF0667E31, 0x8FC96230), 0x01E02203,
            State(0x5EE76897, 0x11793F6F, 0x3B6D0B79, 0xCE616779, 0xF0667E31));
    RoundIs(w, 75, State(0x5EE76897, 0x11793F6F, 0x3B6D0B79, 0xCE616779, 0xF0667E31), 0xE7CC3456,
            State(0x63F7DAB7, 0x5EE76897, 0xC45E4FDB, 0x3B6D0B79, 0xCE616779));
    RoundIs(w, 76, State(0x63F7DAB7, 0x5EE76897, 0xC45E4FDB, 0x3B6D0B79, 0xCE616779), 0xE6E60B69,
            State(0xA079B7D9, 0x63F7DAB7, 0xD7B9DA25, 0xC45E4FDB, 0x3B6D0B79));
    RoundIs(w, 77, State(0xA079B7D9, 0x63F7DAB7, 0xD7B9DA25, 0xC45E4FDB, 0x3B6D0B79), 0x00F60A00,
            State(0x860D21CC, 0xA079B7D9, 0xD8FDF6AD, 0xD7B9DA25, 0xC45E4FDB));
    RoundIs(w, 78, State(0x860D21CC, 0xA079B7D9, 0xD8FDF6AD, 0xD7B9DA25, 0xC45E4FDB), 0x5795EF4F,
            State(0x5738D5E1, 0x860D21CC, 0x681E6DF6, 0xD8FDF6AD, 0xD7B9DA25));
    RoundIs(w, 79, State(0x5738D5E1, 0x860D21CC, 0x681E6DF6, 0xD8FDF6AD, 0xD7B9DA25), 0x822E0879,
            State(0x42541B35, 0x5738D5E1, 0x21834873, 0x681E6DF6, 0xD8FDF6AD));
  }

  lemma AllWords(w: seq<word>)
    requires Recurs(w)
    requires Words(w, 0, 0x61626380, 0x00000000, 0x00000000, 0x00000000,
                     0x00000000, 0x00000000, 0x00000000, 0x00000000)
    requires Words(w, 8, 0x00000000, 0x00000000, 0x00000000, 0x00000000,
                     0x00000000, 0x00000000, 0x00000000, 0x00000018)
    ensures Words(w, 16, 0xC2C4C700, 0x00000000, 0x00000030, 0x85898E01,
                     0x00000000, 0x00000060, 0x0B131C03, 0x00000030)
    ensures Words(w, 24, 0x85898EC1, 0x16263806, 0x00000000, 0x00000180,
                     0x2C4C700C, 0x000000F0, 0x93AFB507, 0x5898E048)
    ensures Words(w, 32, 0x8E9A9202, 0x00000600, 0xB131C0F0, 0x16263BC6,
                     0x4EBED41E, 0x626380A1, 0x16263806, 0x000018C0)
    ensures Words(w, 40, 0xD2E138C4, 0x00000F00, 0x3AFB5079, 0x898E04E5,
                     0xE2BA3C2B, 0x000060C0, 0x053A37CD, 0x74458547)
    ensures Words(w, 48, 0xDA9415ED, 0x26380A16, 0x626383A1, 0x4EBF54DE,
                     0x3835B44B, 0x0000F600, 0x1E84C7A3, 0x98E04D98)
    ensures Words(w, 56, 0x651D16A0, 0x62658CA1, 0x458544D6, 0x44584CB7,
                     0x7BA06619, 0x6380AEA2, 0x0AE55269, 0x627B49A1)
    ensures Words(w, 64, 0x7CD45C9D, 0x000F0000, 0xFB50753A, 0xEC6765E8,
                     0xBA3C2BE2, 0x0060C000, 0x3A37CD05, 0x458546F4)
    ensures Words(w, 72, 0xB8599DD6, 0x380A1A26, 0x01E02203, 0xE7CC3456,
                     0xE6E60B69, 0x00F60A00, 0x5795EF4F, 0x822E0879)
  {
    Words16(w);
    Words24(w);
    Words32(w);
    Words40(w);
    Words48(w);
    Words56(w);
    Words64(w);
    Words72(w);
  }

  lemma AllRounds(w: seq<word>)
    requires Recurs(w)
    requires Words(w, 0, 0x61626380, 0x00000000, 0x00000000, 0x00000000,
                     0x00000000, 0x00000000, 0x00000000, 0x00000000)
    requires Words(w, 8, 0x00000000, 0x00000000, 0x00000000, 0x00000000,
                     0x00000000, 0x00000000, 0x00000000, 0x00000018)
    ensures Rounds(INITIAL, w, 80) == State(0x42541B35, 0x5738D5E1, 0x21834873, 0x681E6DF6, 0xD8FDF6AD)
  {
    AllWords(w);
    Rounds8(w);
    Rounds16(w);
    Rounds24(w);
    Rounds32(w);
    Rounds40(w);
    Rounds48(w);
    Rounds56(w);
    Rounds64(w);
    Rounds72(w);
    Rounds80(w);
  }

  lemma WordIs(m: block, t: nat, w: seq<word>, b0: byte, b1: byte, b2: byte, b3: byte, x: word)
    requires t < 16 && w == Schedule(m, 80) && x == WordOf(b0, b1, b2, b3)
    requires m[4 * t] == b0 && m[4 * t + 1] == b1 && m[4 * t + 2] == b2 && m[4 * t + 3] == b3
    ensures w[t] == x
  {
    ScheduleAt(m, 80, t);
  }

  lemma FirstWords(m: block, w: seq<word>)
    requires w == Schedule(m, 80) && m[0] == 97 && m[1] == 98 && m[2] == 99 && m[3] == 128 && m[63] == 24
    requires forall i :: 4 <= i < 63 ==> m[i] == 0
    ensures Words(w, 0, 0x61626380, 0x00000000, 0x00000000, 0x00000000, 0x00000000, 0x00000000, 0x00000000, 0x00000000)
    ensures Words(w, 8, 0x00000000, 0x00000000, 0x00000000, 0x00000000, 0x00000000, 0x00000000, 0x00000000, 0x00000018)
  {
    WordIs(m, 0, w, 97, 98, 99, 128, 0x61626380);
    forall t | 1 <= t < 15 ensures w[t] == 0 {
      WordIs(m, t, w, 0, 0, 0, 0, 0);
    }
    WordIs(m, 15, w, 0, 0, 0, 24, 0x00000018);
  }

  lemma PaddedBytes(m: block)
    requires m == Pad(ABC)
    ensures m[0] == 97 && m[1] == 98 && m[2] == 99 && m[3] == 128 && m[63] == 24
    ensures forall i :: 4 <= i < 63 ==> m[i] == 0
  {
    Padded();
  }

  lemma AnswerBytes()
    ensures WordBytes(0xA9993E36) == [0xa9, 0x99, 0x3e, 0x36]
    ensures WordBytes(0x4706816A) == [0x47, 0x06, 0x81, 0x6a]
    ensures WordBytes(0xBA3E2571) == [0xba, 0x3e, 0x25, 0x71]
    ensures WordBytes(0x7850C26C) == [0x78, 0x50, 0xc2, 0x6c]
    ensures WordBytes(0x9CD0D89D) == [0x9c, 0xd0, 0xd8, 0x9d]
  {
  }

  lemma AbcCompressed(m: block)
    requires m == Pad(ABC)
    ensures Compress(INITIAL, m) == State(0xA9993E36, 0x4706816A, 0xBA3E2571, 0x7850C26C, 0x9CD0D89D)
  {
    PaddedBytes(m);
    FirstWords(m, Schedule(m, 80));
    ScheduleRecurs(m);
    AllRounds(Schedule(m, 80));
  }

  lemma OneBlock(m: block)
    ensures |m| % 64 == 0 && Digested(m) == Compress(INITIAL, m)
  {
    assert m[..|m| - 64] == [] && m[|m| - 64..] == m;
  }

  lemma AnswerOf(s: State)
    requires s == State(0xA9993E36, 0x4706816A, 0xBA3E2571, 0x7850C26C, 0x9CD0D89D)
    ensures StateBytes(s) == ANSWER
  {
    AnswerBytes();
  }

  const ANSWER: bytes :=
    [0xa9, 0x99, 0x3e, 0x36, 0x47, 0x06, 0x81, 0x6a, 0xba, 0x3e,
     0x25, 0x71, 0x78, 0x50, 0xc2, 0x6c, 0x9c, 0xd0, 0xd8, 0x9d]

  /** SHA-1 of `abc`. */
  lemma Answer()
    ensures Sha1Spec.Sha1(ABC) == ANSWER
  {
    var m: block := Pad(ABC);
    AbcCompressed(m);
    OneBlock(m);
    AnswerOf(Digested(m));
  }
}
