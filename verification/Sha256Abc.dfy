/** The digest of "abc", worked out word by word and round by round. */
module Sha256Abc {
  import opened Bytes
  import opened Sha256Spec
  import opened BitVector

  /** The message schedule of its one block. */
  const ABC_SCHEDULE: seq<Word> :=
    [0x61626380, 0x00000000, 0x00000000, 0x00000000, 0x00000000, 0x00000000, 0x00000000, 0x00000000] +
    [0x00000000, 0x00000000, 0x00000000, 0x00000000, 0x00000000, 0x00000000, 0x00000000, 0x00000018] +
    [0x61626380, 0x000f0000, 0x7da86405, 0x600003c6, 0x3e9d7b78, 0x0183fc00, 0x12dcbfdb, 0xe2e2c38e] +
    [0xc8215c1a, 0xb73679a2, 0xe5bc3909, 0x32663c5b, 0x9d209d67, 0xec8726cb, 0x702138a4, 0xd3b7973b] +
    [0x93f5997f, 0x3b68ba73, 0xaff4ffc1, 0xf10a5c62, 0x0a8b3996, 0x72af830a, 0x9409e33e, 0x24641522] +
    [0x9f47bf94, 0xf0a64f5a, 0x3e246a79, 0x27333ba3, 0x0c4763f2, 0x840abf27, 0x7a290d5d, 0x065c43da] +
    [0xfb3e89cb, 0xcc7617db, 0xb9e66c34, 0xa9993667, 0x84badedd, 0xc21462bc, 0x1487472c, 0xb20f7a99] +
    [0xef57b9cd, 0xebe6b238, 0x9fe3095e, 0x78bc8d4b, 0xa43fcf15, 0x668b2ff8, 0xeeaba2cc, 0x12b1edeb]

  /** Eight words of `s` from `t` on. */
  ghost predicate Eight(
    s: seq<Word>, t: nat, x0: Word, x1: Word, x2: Word, x3: Word, x4: Word, x5: Word, x6: Word, x7: Word)
  {
    && t + 8 <= |s| && s[t] == x0 && s[t + 1] == x1 && s[t + 2] == x2 && s[t + 3] == x3
    && s[t + 4] == x4 && s[t + 5] == x5 && s[t + 6] == x6 && s[t + 7] == x7
  }

  ghost predicate Four(s: seq<Word>, t: nat, x0: Word, x1: Word, x2: Word, x3: Word) {
    t + 4 <= |s| && s[t] == x0 && s[t + 1] == x1 && s[t + 2] == x2 && s[t + 3] == x3
  }

  // ---- the schedule -----------------------------------------------------------------------------

  /** Word `t` is the one the earlier words call for. */
  ghost predicate Fits(ws: seq<Word>, t: nat) {
    16 <= t < |ws| && ws[t] == NextWord(ws[t - 2], ws[t - 7], ws[t - 15], ws[t - 16])
  }

  lemma {:induction false} ScheduleIs(ws: seq<Word>, n: nat)
    requires 16 <= n <= |ws| && forall t :: 16 <= t < n ==> Fits(ws, t)
    ensures Schedule(ws[..16], n) == ws[..n]
  {
    hide NextWord;
    if n > 16 {
      ScheduleIs(ws, n - 1);
      assert Fits(ws, n - 1);
      assert ws[..n] == ws[..n - 1] + [ws[n - 1]];
    }
  }

  lemma FitsBy(ws: seq<Word>, t: nat, w2: bv32, w7: bv32, w15: bv32, w16: bv32, s1: bv32, s0: bv32)
    requires 16 <= t < |ws| && ws[t - 2] == NumV(w2) && ws[t - 7] == NumV(w7)
    requires ws[t - 15] == NumV(w15) && ws[t - 16] == NumV(w16)
    requires SmallSigma1V(w2) == s1 && SmallSigma0V(w15) == s0
    requires ws[t] == Wrap32((NumV(s1) as int) + NumV(w7) + NumV(s0) + NumV(w16))
    ensures Fits(ws, t)
  {
    hide NextWord, NumV, SmallSigma0V, SmallSigma1V, Wrap32;
    Next(w2, w7, w15, w16, s1, s0);
  }

  lemma Words16(ws: seq<Word>, t: nat)
    requires t >= 16
    requires Eight(ws, t - 16, 0x61626380, 0x00000000, 0x00000000, 0x00000000, 0x00000000, 0x00000000,
        0x00000000, 0x00000000)
    requires Eight(ws, t - 8, 0x00000000, 0x00000000, 0x00000000, 0x00000000, 0x00000000, 0x00000000,
        0x00000000, 0x00000018)
    requires Eight(ws, t, 0x61626380, 0x000f0000, 0x7da86405, 0x600003c6, 0x3e9d7b78, 0x0183fc00, 0x12dcbfdb,
        0xe2e2c38e)
    ensures forall i :: t <= i < t + 8 ==> Fits(ws, i)
  {
    hide Fits, Num;
    FitsBy(ws, t + 0, 0x00000000, 0x00000000, 0x00000000, 0x61626380,
           0x00000000, 0x00000000);
    FitsBy(ws, t + 1, 0x00000018, 0x00000000, 0x00000000, 0x00000000,
           0x000f0000, 0x00000000);
    FitsBy(ws, t + 2, 0x61626380, 0x00000000, 0x00000000, 0x00000000,
           0x7da86405, 0x00000000);
    FitsBy(ws, t + 3, 0x000f0000, 0x00000000, 0x00000000, 0x00000000,
           0x600003c6, 0x00000000);
    FitsBy(ws, t + 4, 0x7da86405, 0x00000000, 0x00000000, 0x00000000,
           0x3e9d7b78, 0x00000000);
    FitsBy(ws, t + 5, 0x600003c6, 0x00000000, 0x00000000, 0x00000000,
           0x0183fc00, 0x00000000);
    FitsBy(ws, t + 6, 0x3e9d7b78, 0x00000018, 0x00000000, 0x00000000,
           0x12dcbfc3, 0x00000000);
    FitsBy(ws, t + 7, 0x0183fc00, 0x61626380, 0x00000000, 0x00000000,
           0x8180600e, 0x00000000);
  }

  lemma Words24(ws: seq<Word>, t: nat)
    requires t >= 16
    requires Eight(ws, t - 16, 0x00000000, 0x00000000, 0x00000000, 0x00000000, 0x00000000, 0x00000000,
        0x00000000, 0x00000018)
    requires Eight(ws, t - 8, 0x61626380, 0x000f0000, 0x7da86405, 0x600003c6, 0x3e9d7b78, 0x0183fc00,
        0x12dcbfdb, 0xe2e2c38e)
    requires Eight(ws, t, 0xc8215c1a, 0xb73679a2, 0xe5bc3909, 0x32663c5b, 0x9d209d67, 0xec8726cb, 0x702138a4,
        0xd3b7973b)
    ensures forall i :: t <= i < t + 8 ==> Fits(ws, i)
  {
    hide Fits, Num;
    FitsBy(ws, t + 0, 0x12dcbfdb, 0x000f0000, 0x00000000, 0x00000000,
           0xc8125c1a, 0x00000000);
    FitsBy(ws, t + 1, 0xe2e2c38e, 0x7da86405, 0x00000000, 0x00000000,
           0x398e159d, 0x00000000);
    FitsBy(ws, t + 2, 0xc8215c1a, 0x600003c6, 0x00000000, 0x00000000,
           0x85bc3543, 0x00000000);
    FitsBy(ws, t + 3, 0xb73679a2, 0x3e9d7b78, 0x00000000, 0x00000000,
           0xf3c8c0e3, 0x00000000);
    FitsBy(ws, t + 4, 0xe5bc3909, 0x0183fc00, 0x00000000, 0x00000000,
           0x9b9ca167, 0x00000000);
    FitsBy(ws, t + 5, 0x32663c5b, 0x12dcbfdb, 0x00000000, 0x00000000,
           0xd9aa66f0, 0x00000000);
    FitsBy(ws, t + 6, 0x9d209d67, 0xe2e2c38e, 0x00000018, 0x00000000,
           0x5d387513, 0x30060003);
    FitsBy(ws, t + 7, 0xec8726cb, 0xc8215c1a, 0x61626380, 0x00000018,
           0x7787aa1a, 0x940e90ef);
  }

  lemma Words32(ws: seq<Word>, t: nat)
    requires t >= 16
    requires Eight(ws, t - 16, 0x61626380, 0x000f0000, 0x7da86405, 0x600003c6, 0x3e9d7b78, 0x0183fc00,
        0x12dcbfdb, 0xe2e2c38e)
    requires Eight(ws, t - 8, 0xc8215c1a, 0xb73679a2, 0xe5bc3909, 0x32663c5b, 0x9d209d67, 0xec8726cb,
        0x702138a4, 0xd3b7973b)
    requires Eight(ws, t, 0x93f5997f, 0x3b68ba73, 0xaff4ffc1, 0xf10a5c62, 0x0a8b3996, 0x72af830a, 0x9409e33e,
        0x24641522)
    ensures forall i :: t <= i < t + 8 ==> Fits(ws, i)
  {
    hide Fits, Num;
    FitsBy(ws, t + 0, 0x702138a4, 0xb73679a2, 0x000f0000, 0x61626380,
           0xbb5abe5a, 0xc001fe03);
    FitsBy(ws, t + 1, 0xd3b7973b, 0xe5bc3909, 0x7da86405, 0x000f0000,
           0x394e7e48, 0x1c4f0322);
    FitsBy(ws, t + 2, 0x93f5997f, 0x32663c5b, 0x600003c6, 0x7da86405,
           0x7fb4c6e2, 0x8031987f);
    FitsBy(ws, t + 3, 0x3b68ba73, 0x9d209d67, 0x3e9d7b78, 0x600003c6,
           0x4a7920f7, 0xa9709a3e);
    FitsBy(ws, t + 4, 0xaff4ffc1, 0xec8726cb, 0x0183fc00, 0x3e9d7b78,
           0xe0331f3b, 0xff337818);
    FitsBy(ws, t + 5, 0xf10a5c62, 0x702138a4, 0x12dcbfdb, 0x0183fc00,
           0x65816433, 0x9b88ea33);
    FitsBy(ws, t + 6, 0x0a8b3996, 0xd3b7973b, 0xe2e2c38e, 0x12dcbfdb,
           0xfbfb66da, 0xb17a254e);
    FitsBy(ws, t + 7, 0x72af830a, 0x93f5997f, 0xc8215c1a, 0xe2e2c38e,
           0x31f8dce2, 0x7b92db33);
  }

  lemma Words40(ws: seq<Word>, t: nat)
    requires t >= 16
    requires Eight(ws, t - 16, 0xc8215c1a, 0xb73679a2, 0xe5bc3909, 0x32663c5b, 0x9d209d67, 0xec8726cb,
        0x702138a4, 0xd3b7973b)
    requires Eight(ws, t - 8, 0x93f5997f, 0x3b68ba73, 0xaff4ffc1, 0xf10a5c62, 0x0a8b3996, 0x72af830a,
        0x9409e33e, 0x24641522)
    requires Eight(ws, t, 0x9f47bf94, 0xf0a64f5a, 0x3e246a79, 0x27333ba3, 0x0c4763f2, 0x840abf27, 0x7a290d5d,
        0x065c43da)
    ensures forall i :: t <= i < t + 8 ==> Fits(ws, i)
  {
    hide Fits, Num;
    FitsBy(ws, t + 0, 0x9409e33e, 0x3b68ba73, 0xb73679a2, 0xc8215c1a,
           0xcddd9afd, 0xcde00e0a);
    FitsBy(ws, t + 1, 0x24641522, 0xaff4ffc1, 0xe5bc3909, 0xb73679a2,
           0x883c4fbb, 0x013e863c);
    FitsBy(ws, t + 2, 0x9f47bf94, 0xf10a5c62, 0x32663c5b, 0xe5bc3909,
           0x281f0da4, 0x3f3ec76a);
    FitsBy(ws, t + 3, 0xf0a64f5a, 0x0a8b3996, 0x9d209d67, 0x32663c5b,
           0xee7a0fd4, 0xfbc7b5de);
    FitsBy(ws, t + 4, 0x3e246a79, 0x72af830a, 0xec8726cb, 0x9d209d67,
           0xb87c31cc, 0x43fb11b5);
    FitsBy(ws, t + 5, 0x27333ba3, 0x9409e33e, 0x702138a4, 0xec8726cb,
           0xfaac3bb1, 0x08cd796d);
    FitsBy(ws, t + 6, 0x0c4763f2, 0x24641522, 0xd3b7973b, 0x702138a4,
           0x5d845673, 0x881f6924);
    FitsBy(ws, t + 7, 0x840abf27, 0x9f47bf94, 0x93f5997f, 0xd3b7973b,
           0x0856302b, 0x8b06bce0);
  }

  lemma Words48(ws: seq<Word>, t: nat)
    requires t >= 16
    requires Eight(ws, t - 16, 0x93f5997f, 0x3b68ba73, 0xaff4ffc1, 0xf10a5c62, 0x0a8b3996, 0x72af830a,
        0x9409e33e, 0x24641522)
    requires Eight(ws, t - 8, 0x9f47bf94, 0xf0a64f5a, 0x3e246a79, 0x27333ba3, 0x0c4763f2, 0x840abf27,
        0x7a290d5d, 0x065c43da)
    requires Eight(ws, t, 0xfb3e89cb, 0xcc7617db, 0xb9e66c34, 0xa9993667, 0x84badedd, 0xc21462bc, 0x1487472c,
        0xb20f7a99)
    ensures forall i :: t <= i < t + 8 ==> Fits(ws, i)
  {
    hide Fits, Num;
    FitsBy(ws, t + 0, 0x7a290d5d, 0xf0a64f5a, 0x3b68ba73, 0x93f5997f,
           0xa71b9812, 0xcf8708e0);
    FitsBy(ws, t + 1, 0x065c43da, 0x3e246a79, 0xaff4ffc1, 0x3b68ba73,
           0xa997d4f5, 0xa9511dfa);
    FitsBy(ws, t + 2, 0xfb3e89cb, 0x27333ba3, 0xf10a5c62, 0xaff4ffc1,
           0x95e24d5a, 0x4cdbe376);
    FitsBy(ws, t + 3, 0xcc7617db, 0x0c4763f2, 0x0a8b3996, 0xf10a5c62,
           0xc9258230, 0xe321f3e3);
    FitsBy(ws, t + 4, 0xb9e66c34, 0x840abf27, 0x72af830a, 0x0a8b3996,
           0xfbb2b254, 0xfa7233cc);
    FitsBy(ws, t + 5, 0xa9993667, 0x7a290d5d, 0x9409e33e, 0x72af830a,
           0xbdd547b2, 0x17668aa3);
    FitsBy(ws, t + 6, 0x84badedd, 0x065c43da, 0x24641522, 0x9409e33e,
           0x34945c7d, 0x458cc397);
    FitsBy(ws, t + 7, 0xc21462bc, 0xfb3e89cb, 0x9f47bf94, 0x24641522,
           0xbd397c50, 0xd5335f5c);
  }

  lemma Words56(ws: seq<Word>, t: nat)
    requires t >= 16
    requires Eight(ws, t - 16, 0x9f47bf94, 0xf0a64f5a, 0x3e246a79, 0x27333ba3, 0x0c4763f2, 0x840abf27,
        0x7a290d5d, 0x065c43da)
    requires Eight(ws, t - 8, 0xfb3e89cb, 0xcc7617db, 0xb9e66c34, 0xa9993667, 0x84badedd, 0xc21462bc,
        0x1487472c, 0xb20f7a99)
    requires Eight(ws, t, 0xef57b9cd, 0xebe6b238, 0x9fe3095e, 0x78bc8d4b, 0xa43fcf15, 0x668b2ff8, 0xeeaba2cc,
        0x12b1edeb)
    ensures forall i :: t <= i < t + 8 ==> Fits(ws, i)
  {
    hide Fits, Num;
    FitsBy(ws, t + 0, 0x1487472c, 0xcc7617db, 0xf0a64f5a, 0x9f47bf94,
           0x4b76a902, 0x3823395c);
    FitsBy(ws, t + 1, 0xb20f7a99, 0xb9e66c34, 0x3e246a79, 0xf0a64f5a,
           0x52336c98, 0xef268a12);
    FitsBy(ws, t + 2, 0xef57b9cd, 0xa9993667, 0x27333ba3, 0x3e246a79,
           0x2be49faf, 0x8c40c8cf);
    FitsBy(ws, t + 3, 0xebe6b238, 0x84badedd, 0x0c4763f2, 0x27333ba3,
           0x8f619123, 0x3d6ce1a8);
    FitsBy(ws, t + 4, 0x9fe3095e, 0xc21462bc, 0x840abf27, 0x0c4763f2,
           0xe5a364cf, 0xf040a398);
    FitsBy(ws, t + 5, 0x78bc8d4b, 0x1487472c, 0x7a290d5d, 0x840abf27,
           0xd712fc6a, 0xf6e62d3b);
    FitsBy(ws, t + 6, 0xa43fcf15, 0xb20f7a99, 0x065c43da, 0x7a290d5d,
           0x1e41696b, 0xa431b16b);
    FitsBy(ws, t + 7, 0x668b2ff8, 0xef57b9cd, 0xfb3e89cb, 0x065c43da,
           0xf21a9d5f, 0x2ae352e5);
  }

  // ---- the rounds -------------------------------------------------------------------------------

  /** The working variables after `t` rounds with constants `ks` and schedule `ws`. */
  ghost predicate RoundIs(ks: seq<Word>, ws: seq<Word>, t: nat, r: Regs) {
    t <= |ks| == |ws| && Rounds(ks, ws, H0, t) == r
  }

  lemma RoundNext(ks: seq<Word>, ws: seq<Word>, t: nat, r: Regs, k: Word, w: Word)
    requires RoundIs(ks, ws, t, r) && t < |ks| && t < |ws| && ks[t] == k && ws[t] == w
    ensures RoundIs(ks, ws, t + 1, OneRound(r, k, w))
  {
    hide OneRound;
  }

  lemma Turn(
    ks: seq<Word>, ws: seq<Word>, t: nat,
    a: bv32, b: bv32, c: bv32, d: bv32, e: bv32, f: bv32, g: bv32, h: bv32, k: Word, w: Word,
    sum1: bv32, choice: bv32, sum0: bv32, majority: bv32, t1: Word, t2: Word, nextA: Word, nextE: Word)
    requires RoundIs(ks, ws, t, Regs(NumV(a), NumV(b), NumV(c), NumV(d), NumV(e), NumV(f), NumV(g), NumV(h)))
    requires t < |ks| && t < |ws| && ks[t] == k && ws[t] == w
    requires BigSigma1V(e) == sum1 && ChV(e, f, g) == choice && BigSigma0V(a) == sum0 && MajV(a, b, c) == majority
    requires Wrap32((NumV(h) as int) + NumV(sum1) + NumV(choice) + k + w) == t1
    requires Wrap32((NumV(sum0) as int) + NumV(majority)) == t2
    requires nextA == Add(t1, t2) && nextE == Add(NumV(d), t1)
    ensures RoundIs(ks, ws, t + 1, Regs(nextA, NumV(a), NumV(b), NumV(c), nextE, NumV(e), NumV(f), NumV(g)))
  {
    hide RoundIs, NumV, BigSigma0V, BigSigma1V, ChV, MajV, OneRound, Add, Wrap32;
    Step(a, b, c, d, e, f, g, h, k, w, sum1, choice, sum0, majority, t1, t2);
    RoundNext(ks, ws, t, Regs(NumV(a), NumV(b), NumV(c), NumV(d), NumV(e), NumV(f), NumV(g), NumV(h)), k, w);
  }

  lemma Rounds0(ks: seq<Word>, ws: seq<Word>, t: nat)
    requires RoundIs(ks, ws, t, Regs(0x6a09e667, 0xbb67ae85, 0x3c6ef372, 0xa54ff53a, 0x510e527f, 0x9b05688c,
        0x1f83d9ab, 0x5be0cd19))
    requires Four(ks, t, 0x428a2f98, 0x71374491, 0xb5c0fbcf, 0xe9b5dba5)
    requires Four(ws, t, 0x61626380, 0x00000000, 0x00000000, 0x00000000)
    ensures RoundIs(ks, ws, t + 4, Regs(0xd550f666, 0xc8c347a7, 0x5a6ad9ad, 0x5d6aebcd, 0x24e00850, 0xf92939eb,
        0x78ce7989, 0xfa2a4622))
  {
    hide RoundIs, Num;
    Turn(ks, ws, t + 0, 0x6a09e667, 0xbb67ae85, 0x3c6ef372, 0xa54ff53a, 0x510e527f, 0x9b05688c, 0x1f83d9ab, 0x5be0cd19,
         0x428a2f98, 0x61626380, 0x3587272b, 0x1f85c98c, 0xce20b47e, 0x3a6fe667,
         0x54da50e8, 0x08909ae5, 0x5d6aebcd, 0xfa2a4622);
    Turn(ks, ws, t + 1, 0x5d6aebcd, 0x6a09e667, 0xbb67ae85, 0x3c6ef372, 0xfa2a4622, 0x510e527f, 0x9b05688c, 0x1f83d9ab,
         0x71374491, 0x00000000, 0x5a94fd2d, 0x510f6aae, 0xa29f64d1, 0x7b6beec5,
         0x3c5f8617, 0x1e0b5396, 0x5a6ad9ad, 0x78ce7989);
    Turn(ks, ws, t + 2, 0x5a6ad9ad, 0x5d6aebcd, 0x6a09e667, 0xbb67ae85, 0x78ce7989, 0xfa2a4622, 0x510e527f, 0x9b05688c,
         0xb5c0fbcf, 0x00000000, 0x73f0e495, 0x790a4276, 0x3096d054, 0x5a6aebed,
         0x3dc18b66, 0x8b01bc41, 0xc8c347a7, 0xf92939eb);
    Turn(ks, ws, t + 3, 0xc8c347a7, 0x5a6ad9ad, 0x5d6aebcd, 0x6a09e667, 0xf92939eb, 0x78ce7989, 0xfa2a4622, 0x510e527f,
         0xe9b5dba5, 0x00000000, 0x0607743c, 0x7a0a7f89, 0xc21008d0, 0x586acbad,
         0xbad621e9, 0x1a7ad47d, 0xd550f666, 0x24e00850);
  }

  lemma Rounds4(ks: seq<Word>, ws: seq<Word>, t: nat)
    requires RoundIs(ks, ws, t, Regs(0xd550f666, 0xc8c347a7, 0x5a6ad9ad, 0x5d6aebcd, 0x24e00850, 0xf92939eb,
        0x78ce7989, 0xfa2a4622))
    requires Four(ks, t, 0x3956c25b, 0x59f111f1, 0x923f82a4, 0xab1c5ed5)
    requires Four(ws, t, 0x00000000, 0x00000000, 0x00000000, 0x00000000)
    ensures RoundIs(ks, ws, t + 4, Regs(0x85a07b5f, 0xe5030380, 0x2b4209f5, 0x04409a6a, 0x0c657a79, 0x9b27a401,
        0x714260ad, 0x43ada245))
  {
    hide RoundIs, Num;
    Turn(ks, ws, t + 0, 0xd550f666, 0xc8c347a7, 0x5a6ad9ad, 0x5d6aebcd, 0x24e00850, 0xf92939eb, 0x78ce7989, 0xfa2a4622,
         0x3956c25b, 0x00000000, 0x3a933432, 0x782e79c9, 0x45bb0c4b, 0xd842d7a7,
         0xe642b678, 0x1dfde3f2, 0x04409a6a, 0x43ada245);
    Turn(ks, ws, t + 1, 0x04409a6a, 0xd550f666, 0xc8c347a7, 0x5a6ad9ad, 0x43ada245, 0x24e00850, 0xf92939eb, 0x78ce7989,
         0x59f111f1, 0x00000000, 0x8b77e19c, 0xb8a019ea, 0x5029ac8f, 0xc440d666,
         0x16d78700, 0x146a82f5, 0x2b4209f5, 0x714260ad);
    Turn(ks, ws, t + 2, 0x2b4209f5, 0x04409a6a, 0xd550f666, 0xc8c347a7, 0x714260ad, 0x43ada245, 0x24e00850, 0xf92939eb,
         0x923f82a4, 0x00000000, 0x015b7776, 0x45a02855, 0x0d5e0cc0, 0x05409a66,
         0xd2645c5a, 0x129ea726, 0xe5030380, 0x9b27a401);
    Turn(ks, ws, t + 3, 0xe5030380, 0x2b4209f5, 0x04409a6a, 0xd550f666, 0x9b27a401, 0x714260ad, 0x43ada245, 0x24e00850,
         0xab1c5ed5, 0x00000000, 0x158dfaa9, 0x518a2245, 0x2949eb6c, 0x25420be0,
         0x37148413, 0x4e8bf74c, 0x85a07b5f, 0x0c657a79);
  }

  lemma Rounds8(ks: seq<Word>, ws: seq<Word>, t: nat)
    requires RoundIs(ks, ws, t, Regs(0x85a07b5f, 0xe5030380, 0x2b4209f5, 0x04409a6a, 0x0c657a79, 0x9b27a401,
        0x714260ad, 0x43ada245))
    requires Four(ks, t, 0xd807aa98, 0x12835b01, 0x243185be, 0x550c7dc3)
    requires Four(ws, t, 0x00000000, 0x00000000, 0x00000000, 0x00000000)
    ensures RoundIs(ks, ws, t + 4, Regs(0xf71fc5a9, 0x4798a3f4, 0x8c87346b, 0x8e04ecb9, 0x816fd6e9, 0x436b23e8,
        0x1cc92596, 0x32ca2d8c))
  {
    hide RoundIs, Num;
    Turn(ks, ws, t + 0, 0x85a07b5f, 0xe5030380, 0x2b4209f5, 0x04409a6a, 0x0c657a79, 0x9b27a401, 0x714260ad, 0x43ada245,
         0xd807aa98, 0x00000000, 0x99ad25c0, 0x79272085, 0xba794dc2, 0xa5020bd5,
         0x2e899322, 0x5f7b5997, 0x8e04ecb9, 0x32ca2d8c);
    Turn(ks, ws, t + 1, 0x8e04ecb9, 0x85a07b5f, 0xe5030380, 0x2b4209f5, 0x32ca2d8c, 0x0c657a79, 0x9b27a401, 0x714260ad,
         0x12835b01, 0x00000000, 0xe45bb7ea, 0x8965a809, 0x15ffad31, 0x85006b99,
         0xf1871ba1, 0x9b0018ca, 0x8c87346b, 0x1cc92596);
    Turn(ks, ws, t + 2, 0x8c87346b, 0x8e04ecb9, 0x85a07b5f, 0xe5030380, 0x1cc92596, 0x32ca2d8c, 0x0c657a79, 0x9b27a401,
         0x243185be, 0x00000000, 0x8e2276bc, 0x10ec7fed, 0x5cac0711, 0x8c847c7b,
         0x5e682068, 0xe930838c, 0x4798a3f4, 0x436b23e8);
    Turn(ks, ws, t + 3, 0x4798a3f4, 0x8c87346b, 0x8e04ecb9, 0x85a07b5f, 0x436b23e8, 0x1cc92596, 0x32ca2d8c, 0x0c657a79,
         0x550c7dc3, 0x00000000, 0x699435ca, 0x30c92d84, 0x6ccbc526, 0x8e84a4f9,
         0xfbcf5b8a, 0xfb506a1f, 0xf71fc5a9, 0x816fd6e9);
  }

  lemma Rounds12(ks: seq<Word>, ws: seq<Word>, t: nat)
    requires RoundIs(ks, ws, t, Regs(0xf71fc5a9, 0x4798a3f4, 0x8c87346b, 0x8e04ecb9, 0x816fd6e9, 0x436b23e8,
        0x1cc92596, 0x32ca2d8c))
    requires Four(ks, t, 0x72be5d74, 0x80deb1fe, 0x9bdc06a7, 0xc19bf174)
    requires Four(ws, t, 0x00000000, 0x00000000, 0x00000000, 0x00000018)
    ensures RoundIs(ks, ws, t + 4, Regs(0xb0fa238e, 0xc0645fde, 0xd932eb16, 0x87912990, 0x07590dcd, 0x0b92f20c,
        0x745a48de, 0x1e578218))
  {
    hide RoundIs, Num;
    Turn(ks, ws, t + 0, 0xf71fc5a9, 0x4798a3f4, 0x8c87346b, 0x8e04ecb9, 0x816fd6e9, 0x436b23e8, 0x1cc92596, 0x32ca2d8c,
         0x72be5d74, 0x00000000, 0xccdee661, 0x1deb23fe, 0x2f9eee48, 0xc79fa5e9,
         0x9052955f, 0xf73e9431, 0x87912990, 0x1e578218);
    Turn(ks, ws, t + 1, 0x87912990, 0xf71fc5a9, 0x4798a3f4, 0x8c87346b, 0x1e578218, 0x816fd6e9, 0x436b23e8, 0x1cc92596,
         0x80deb1fe, 0x00000000, 0x08bb98f7, 0x416fa3e8, 0x29c634f3, 0xc799a1b0,
         0xe7d31473, 0xf15fd6a3, 0xd932eb16, 0x745a48de);
    Turn(ks, ws, t + 2, 0xd932eb16, 0x87912990, 0xf71fc5a9, 0x4798a3f4, 0x745a48de, 0x1e578218, 0x816fd6e9, 0x436b23e8,
         0x9bdc06a7, 0x00000000, 0x4f3b8d50, 0x95779639, 0x25562836, 0xd713e990,
         0xc3fa4e18, 0xfc6a11c6, 0xc0645fde, 0x0b92f20c);
    Turn(ks, ws, t + 3, 0xc0645fde, 0xd932eb16, 0x87912990, 0xf71fc5a9, 0x0b92f20c, 0x745a48de, 0x1e578218, 0x816fd6e9,
         0xc19bf174, 0x00000018, 0xb8d63f93, 0x1457401c, 0xdf906fd4, 0xc1306b96,
         0x10394824, 0xa0c0db6a, 0xb0fa238e, 0x07590dcd);
  }

  lemma Rounds16(ks: seq<Word>, ws: seq<Word>, t: nat)
    requires RoundIs(ks, ws, t, Regs(0xb0fa238e, 0xc0645fde, 0xd932eb16, 0x87912990, 0x07590dcd, 0x0b92f20c,
        0x745a48de, 0x1e578218))
    requires Four(ks, t, 0xe49b69c1, 0xefbe4786, 0x0fc19dc6, 0x240ca1cc)
    requires Four(ws, t, 0x61626380, 0x000f0000, 0x7da86405, 0x600003c6)
    ensures RoundIs(ks, ws, t + 4, Regs(0xe1f20c33, 0xfe777bbf, 0xc2fbd9d1, 0x21da9a9b, 0xb0638179, 0xcc899961,
        0x846ee454, 0x8034229c))
  {
    hide RoundIs, Num;
    Turn(ks, ws, t + 0, 0xb0fa238e, 0xc0645fde, 0xd932eb16, 0x87912990, 0x07590dcd, 0x0b92f20c, 0x745a48de, 0x1e578218,
         0xe49b69c1, 0x61626380, 0x213b6995, 0x7312401e, 0x58c535f1, 0xd0726b9e,
         0xf8a2f90c, 0x2937a18f, 0x21da9a9b, 0x8034229c);
    Turn(ks, ws, t + 1, 0x21da9a9b, 0xb0fa238e, 0xc0645fde, 0xd932eb16, 0x8034229c, 0x07590dcd, 0x0b92f20c, 0x745a48de,
         0xefbe4786, 0x000f0000, 0x3b81984e, 0x0b92d08c, 0x76c5c4f5, 0xa0fa1b9e,
         0xab3bf93e, 0x17bfe093, 0xc2fbd9d1, 0x846ee454);
    Turn(ks, ws, t + 2, 0xc2fbd9d1, 0x21da9a9b, 0xb0fa238e, 0xc0645fde, 0x846ee454, 0x8034229c, 0x07590dcd, 0x0b92f20c,
         0x0fc19dc6, 0x7da86405, 0xeff31c0f, 0x8335299d, 0x5157a6a1, 0xa0fa9b9b,
         0x0c253983, 0xf252423c, 0xfe777bbf, 0xcc899961);
    Turn(ks, ws, t + 3, 0xfe777bbf, 0xc2fbd9d1, 0x21da9a9b, 0xb0fa238e, 0xcc899961, 0x846ee454, 0x8034229c, 0x07590dcd,
         0x240ca1cc, 0x600003c6, 0xefc707b0, 0x843ca2dc, 0xff8cd2ad, 0xe2fbdb9b,
         0xff695deb, 0xe288ae48, 0xe1f20c33, 0xb0638179);
  }

  lemma Rounds20(ks: seq<Word>, ws: seq<Word>, t: nat)
    requires RoundIs(ks, ws, t, Regs(0xe1f20c33, 0xfe777bbf, 0xc2fbd9d1, 0x21da9a9b, 0xb0638179, 0xcc899961,
        0x846ee454, 0x8034229c))
    requires Four(ks, t, 0x2de92c6f, 0x4a7484aa, 0x5cb0a9dc, 0x76f988da)
    requires Four(ws, t, 0x3e9d7b78, 0x0183fc00, 0x12dcbfdb, 0xe2e2c38e)
    ensures RoundIs(ks, ws, t + 4, Regs(0xc5d53d8d, 0xa7a3623f, 0xc2606d6d, 0x9dc68b63, 0xaa47c347, 0x49f5114a,
        0xe1257970, 0x8ada8930))
  {
    hide RoundIs, Num;
    Turn(ks, ws, t + 0, 0xe1f20c33, 0xfe777bbf, 0xc2fbd9d1, 0x21da9a9b, 0xb0638179, 0xcc899961, 0x846ee454, 0x8034229c,
         0x2de92c6f, 0x3e9d7b78, 0xf8373ead, 0x840de565, 0x51d3431b, 0xe2f359b3,
         0x68ffee95, 0x34c69cce, 0x9dc68b63, 0x8ada8930);
    Turn(ks, ws, t + 1, 0x9dc68b63, 0xe1f20c33, 0xfe777bbf, 0xc2fbd9d1, 0x8ada8930, 0xb0638179, 0xcc899961, 0x846ee454,
         0x4a7484aa, 0x0183fc00, 0x897ea930, 0xc4439171, 0xa640c29b, 0xfdf60b33,
         0x1e299f9f, 0xa436cdce, 0xc2606d6d, 0xe1257970);
    Turn(ks, ws, t + 2, 0xc2606d6d, 0x9dc68b63, 0xe1f20c33, 0xfe777bbf, 0xe1257970, 0x8ada8930, 0xb0638179, 0xcc899961,
         0x5cb0a9dc, 0x12dcbfdb, 0x7f24093a, 0x90428939, 0x9a43bf51, 0xc1e20d63,
         0x4b7d958b, 0x5c25ccb4, 0xa7a3623f, 0x49f5114a);
    Turn(ks, ws, t + 3, 0xa7a3623f, 0xc2606d6d, 0x9dc68b63, 0xe1f20c33, 0x49f5114a, 0xe1257970, 0x8ada8930, 0xb0638179,
         0x76f988da, 0xe2e2c38e, 0xfae64fc3, 0xc32f9970, 0x759d1b0a, 0x87e26b6f,
         0xc855b714, 0xfd7f8679, 0xc5d53d8d, 0xaa47c347);
  }

  lemma Rounds24(ks: seq<Word>, ws: seq<Word>, t: nat)
    requires RoundIs(ks, ws, t, Regs(0xc5d53d8d, 0xa7a3623f, 0xc2606d6d, 0x9dc68b63, 0xaa47c347, 0x49f5114a,
        0xe1257970, 0x8ada8930))
    requires Four(ks, t, 0x983e5152, 0xa831c66d, 0xb00327c8, 0xbf597fc7)
    requires Four(ws, t, 0xc8215c1a, 0xb73679a2, 0xe5bc3909, 0x32663c5b)
    ensures RoundIs(ks, ws, t + 4, Regs(0x77d37528, 0xb62ec4bc, 0xcde8037d, 0x1c2c2838, 0xedffbff8, 0xc74c6516,
        0x14383d8e, 0x2823ef91))
  {
    hide RoundIs, Num;
    Turn(ks, ws, t + 0, 0xc5d53d8d, 0xa7a3623f, 0xc2606d6d, 0x9dc68b63, 0xaa47c347, 0x49f5114a, 0xe1257970, 0x8ada8930,
         0x983e5152, 0xc8215c1a, 0x55bdf420, 0x49653972, 0xc9ed56dd, 0xc7e16d2d,
         0x8a5d642e, 0x91cec40a, 0x1c2c2838, 0x2823ef91);
    Turn(ks, ws, t + 1, 0x1c2c2838, 0xc5d53d8d, 0xa7a3623f, 0xc2606d6d, 0x2823ef91, 0xaa47c347, 0x49f5114a, 0xe1257970,
         0xa831c66d, 0xb73679a2, 0xa7724357, 0x69d7d34b, 0xf66b0b1f, 0x85a5283d,
         0x51d7d021, 0x7c10335c, 0xcde8037d, 0x14383d8e);
    Turn(ks, ws, t + 2, 0xcde8037d, 0x1c2c2838, 0xc5d53d8d, 0xa7a3623f, 0x14383d8e, 0x2823ef91, 0xaa47c347, 0x49f5114a,
         0xb00327c8, 0xe5bc3909, 0x958ca0fb, 0xaa67efc1, 0xc89998a8, 0xcdec293d,
         0x1fa902d7, 0x9685c1e5, 0xb62ec4bc, 0xc74c6516);
    Turn(ks, ws, t + 3, 0xb62ec4bc, 0xcde8037d, 0x1c2c2838, 0xc5d53d8d, 0xc74c6516, 0x14383d8e, 0x2823ef91, 0xaa47c347,
         0xbf597fc7, 0x32663c5b, 0x5ff7537b, 0x2c2baf87, 0xb37cf281, 0x9c2c003c,
         0x282a826b, 0x4fa8f2bd, 0x77d37528, 0xedffbff8);
  }

  lemma Rounds28(ks: seq<Word>, ws: seq<Word>, t: nat)
    requires RoundIs(ks, ws, t, Regs(0x77d37528, 0xb62ec4bc, 0xcde8037d, 0x1c2c2838, 0xedffbff8, 0xc74c6516,
        0x14383d8e, 0x2823ef91))
    requires Four(ks, t, 0xc6e00bf3, 0xd5a79147, 0x06ca6351, 0x14292967)
    requires Four(ws, t, 0x9d209d67, 0xec8726cb, 0x702138a4, 0xd3b7973b)
    ensures RoundIs(ks, ws, t + 4, Regs(0x73b33bf5, 0xea992a22, 0xa0060b30, 0x363482c9, 0xba591112, 0x0109ab3a,
        0xade79437, 0x6112a3b7))
  {
    hide RoundIs, Num;
    Turn(ks, ws, t + 0, 0x77d37528, 0xb62ec4bc, 0xcde8037d, 0x1c2c2838, 0xedffbff8, 0xc74c6516, 0x14383d8e, 0x2823ef91,
         0xc6e00bf3, 0x9d209d67, 0xe375bd7e, 0xd54c2516, 0xf963c20e, 0xf7ea453c,
         0x44e67b7f, 0xf14e074a, 0x363482c9, 0x6112a3b7);
    Turn(ks, ws, t + 1, 0x363482c9, 0x77d37528, 0xb62ec4bc, 0xcde8037d, 0x6112a3b7, 0xedffbff8, 0xc74c6516, 0x14383d8e,
         0xd5a79147, 0xec8726cb, 0x2239b36a, 0xe75ee7b0, 0x89cfb5ce, 0x3636c4a8,
         0xdfff90ba, 0xc0067a76, 0xa0060b30, 0xade79437);
    Turn(ks, ws, t + 2, 0xa0060b30, 0x363482c9, 0x77d37528, 0xb62ec4bc, 0xade79437, 0x6112a3b7, 0xedffbff8, 0xc74c6516,
         0x06ca6351, 0x702138a4, 0xab883974, 0x611aabff, 0x69a8407c, 0x36160328,
         0x4adae67e, 0x9fbe43a4, 0xea992a22, 0x0109ab3a);
    Turn(ks, ws, t + 3, 0xea992a22, 0xa0060b30, 0x363482c9, 0x77d37528, 0x0109ab3a, 0xade79437, 0x6112a3b7, 0xedffbff8,
         0x14292967, 0xd3b7973b, 0x0b919a99, 0x611380b7, 0x8f1995eb, 0xa2140a20,
         0x42859bea, 0x312da00b, 0x73b33bf5, 0xba591112);
  }

  lemma Rounds32(ks: seq<Word>, ws: seq<Word>, t: nat)
    requires RoundIs(ks, ws, t, Regs(0x73b33bf5, 0xea992a22, 0xa0060b30, 0x363482c9, 0xba591112, 0x0109ab3a,
        0xade79437, 0x6112a3b7))
    requires Four(ks, t, 0x27b70a85, 0x2e1b2138, 0x4d2c6dfc, 0x53380d13)
    requires Four(ws, t, 0x93f5997f, 0x3b68ba73, 0xaff4ffc1, 0xf10a5c62)
    ensures RoundIs(ks, ws, t + 4, Regs(0x65a0cfe4, 0xa9a7738c, 0xfe604df5, 0x98e12507, 0xf4b002d6, 0x085f3833,
        0x59249dd3, 0x9cd9f5f6))
  {
    hide RoundIs, Num;
    Turn(ks, ws, t + 0, 0x73b33bf5, 0xea992a22, 0xa0060b30, 0x363482c9, 0xba591112, 0x0109ab3a, 0xade79437, 0x6112a3b7,
         0x27b70a85, 0x93f5997f, 0x4436a63b, 0x05af8537, 0x4fa886aa, 0xe2932b30,
         0x66a5732d, 0x323bb1da, 0x98e12507, 0x9cd9f5f6);
    Turn(ks, ws, t + 1, 0x98e12507, 0x73b33bf5, 0xea992a22, 0xa0060b30, 0x9cd9f5f6, 0xba591112, 0x0109ab3a, 0xade79437,
         0x2e1b2138, 0x3b68ba73, 0x085a07a7, 0x99591b1a, 0x4a90902b, 0xfab12b27,
         0xb91e92a3, 0x4541bb52, 0xfe604df5, 0x59249dd3);
    Turn(ks, ws, t + 2, 0xfe604df5, 0x98e12507, 0x73b33bf5, 0xea992a22, 0x59249dd3, 0x9cd9f5f6, 0xba591112, 0x0109ab3a,
         0x4d2c6dfc, 0xaff4ffc1, 0x65415f48, 0xba5995d2, 0x91003786, 0xfae12df5,
         0x1dc60e11, 0x8be1657b, 0xa9a7738c, 0x085f3833);
    Turn(ks, ws, t + 3, 0xa9a7738c, 0xfe604df5, 0x98e12507, 0x73b33bf5, 0x085f3833, 0x59249dd3, 0x9cd9f5f6, 0xba591112,
         0x53380d13, 0xf10a5c62, 0xe5dc6e83, 0x9c84ddd7, 0x2bc2a37e, 0xb8e16585,
         0x80fcc6e1, 0xe4a40903, 0x65a0cfe4, 0xf4b002d6);
  }

  lemma Rounds36(ks: seq<Word>, ws: seq<Word>, t: nat)
    requires RoundIs(ks, ws, t, Regs(0x65a0cfe4, 0xa9a7738c, 0xfe604df5, 0x98e12507, 0xf4b002d6, 0x085f3833,
        0x59249dd3, 0x9cd9f5f6))
    requires Four(ks, t, 0x650a7354, 0x766a0abb, 0x81c2c92e, 0x92722c85)
    requires Four(ws, t, 0x0a8b3996, 0x72af830a, 0x9409e33e, 0x24641522)
    ensures RoundIs(ks, ws, t + 4, Regs(0x79ea687a, 0x6dc57a8a, 0x34df1604, 0x41a65cb1, 0x1efbc0a0, 0xf0781bc8,
        0xa507a53d, 0x0772a26b))
  {
    hide RoundIs, Num;
    Turn(ks, ws, t + 0, 0x65a0cfe4, 0xa9a7738c, 0xfe604df5, 0x98e12507, 0xf4b002d6, 0x085f3833, 0x59249dd3, 0x9cd9f5f6,
         0x650a7354, 0x0a8b3996, 0x590d3d71, 0x09149d13, 0xe5748f69, 0xeda04fe4,
         0x6e917d64, 0xd314df4d, 0x41a65cb1, 0x0772a26b);
    Turn(ks, ws, t + 1, 0x41a65cb1, 0x65a0cfe4, 0xa9a7738c, 0xfe604df5, 0x0772a26b, 0xf4b002d6, 0x085f3833, 0x59249dd3,
         0x766a0abb, 0x72af830a, 0x582c115e, 0x0c3d1a52, 0x2c915f18, 0x61a65fa4,
         0xa6a75748, 0x8e37bebc, 0x34df1604, 0xa507a53d);
    Turn(ks, ws, t + 2, 0x34df1604, 0x41a65cb1, 0x65a0cfe4, 0xa9a7738c, 0xa507a53d, 0x0772a26b, 0xf4b002d6, 0x085f3833,
         0x81c2c92e, 0x9409e33e, 0xd2f220b2, 0x55b2a2eb, 0xc14e73aa, 0x65a65ea4,
         0x46d0a83c, 0x26f4d24e, 0x6dc57a8a, 0xf0781bc8);
    Turn(ks, ws, t + 3, 0x6dc57a8a, 0x34df1604, 0x41a65cb1, 0x65a0cfe4, 0xf0781bc8, 0xa507a53d, 0x0772a26b, 0xf4b002d6,
         0x92722c85, 0x24641522, 0x66d20b14, 0xa702a12b, 0x5ac8193e, 0x65c75e80,
         0xb95af0bc, 0xc08f77be, 0x79ea687a, 0x1efbc0a0);
  }

  lemma Rounds40(ks: seq<Word>, ws: seq<Word>, t: nat)
    requires RoundIs(ks, ws, t, Regs(0x79ea687a, 0x6dc57a8a, 0x34df1604, 0x41a65cb1, 0x1efbc0a0, 0xf0781bc8,
        0xa507a53d, 0x0772a26b))
    requires Four(ks, t, 0xa2bfe8a1, 0xa81a664b, 0xc24b8b70, 0xc76c51a3)
    requires Four(ws, t, 0x9f47bf94, 0xf0a64f5a, 0x3e246a79, 0x27333ba3)
    ensures RoundIs(ks, ws, t + 4, Regs(0x9d4baf93, 0x17aa0dfe, 0xdf46652f, 0xd6670766, 0xfda24c2e, 0xdecd4715,
        0x838b2711, 0x26352d63))
  {
    hide RoundIs, Num;
    Turn(ks, ws, t + 0, 0x79ea687a, 0x6dc57a8a, 0x34df1604, 0x41a65cb1, 0x1efbc0a0, 0xf0781bc8, 0xa507a53d, 0x0772a26b,
         0xa2bfe8a1, 0x9f47bf94, 0xe9986075, 0xb17c259d, 0x7408bcaa, 0x7dcf7a0a,
         0xe48ed0b2, 0xf1d836b4, 0xd6670766, 0x26352d63);
    Turn(ks, ws, t + 1, 0xd6670766, 0x79ea687a, 0x6dc57a8a, 0x34df1604, 0x26352d63, 0x1efbc0a0, 0xf0781bc8, 0xa507a53d,
         0xa81a664b, 0xf0a64f5a, 0x3a6aa383, 0xd67912a8, 0x12b2e9b8, 0x7de76a6a,
         0x4eac110d, 0x909a5422, 0xdf46652f, 0x838b2711);
    Turn(ks, ws, t + 2, 0xdf46652f, 0xd6670766, 0x79ea687a, 0x6dc57a8a, 0x838b2711, 0x26352d63, 0x1efbc0a0, 0xf0781bc8,
         0xc24b8b70, 0x3e246a79, 0x61add539, 0x1e71e5a1, 0xc73bdc05, 0xdf66656e,
         0x7107cc8b, 0xa6a24173, 0x17aa0dfe, 0xdecd4715);
    Turn(ks, ws, t + 3, 0x17aa0dfe, 0xdf46652f, 0xd6670766, 0x79ea687a, 0xdecd4715, 0x838b2711, 0x26352d63, 0x1efbc0a0,
         0xc76c51a3, 0x27333ba3, 0xd363665b, 0xa2b92f73, 0x422dc671, 0xd766056e,
         0x83b7e3b4, 0x1993cbdf, 0x9d4baf93, 0xfda24c2e);
  }

  lemma Rounds44(ks: seq<Word>, ws: seq<Word>, t: nat)
    requires RoundIs(ks, ws, t, Regs(0x9d4baf93, 0x17aa0dfe, 0xdf46652f, 0xd6670766, 0xfda24c2e, 0xdecd4715,
        0x838b2711, 0x26352d63))
    requires Four(ks, t, 0xd192e819, 0xd6990624, 0xf40e3585, 0x106aa070)
    requires Four(ws, t, 0x0c4763f2, 0x840abf27, 0x7a290d5d, 0x065c43da)
    ensures RoundIs(ks, ws, t + 4, Regs(0x4172328d, 0xa14c14b0, 0x72ab4b91, 0x26628815, 0xfecf0bc6, 0xd57b94a9,
        0xb7755da1, 0xa80f11f0))
  {
    hide RoundIs, Num;
    Turn(ks, ws, t + 0, 0x9d4baf93, 0x17aa0dfe, 0xdf46652f, 0xd6670766, 0xfda24c2e, 0xdecd4715, 0x838b2711, 0x26352d63,
         0xd192e819, 0x0c4763f2, 0xef0f2a07, 0xde896715, 0xb5704fcc, 0x9f4a2dbf,
         0xd1a80a8a, 0x54ba7d8b, 0x26628815, 0xa80f11f0);
    Turn(ks, ws, t + 1, 0x26628815, 0x9d4baf93, 0x17aa0dfe, 0xdf46652f, 0xa80f11f0, 0xfda24c2e, 0xdecd4715, 0x838b2711,
         0xd6990624, 0x840abf27, 0xfb3dc5f1, 0xfec24625, 0x8311c588, 0x176a8d97,
         0xd82ef872, 0x9a7c531f, 0x72ab4b91, 0xb7755da1);
    Turn(ks, ws, t + 2, 0x72ab4b91, 0x26628815, 0x9d4baf93, 0x17aa0dfe, 0xb7755da1, 0xa80f11f0, 0xfda24c2e, 0xdecd4715,
         0xf40e3585, 0x7a290d5d, 0x8845eb06, 0xe88711ae, 0xad0f0274, 0x366b8b91,
         0xbdd186ab, 0xe37a8e05, 0xa14c14b0, 0xd57b94a9);
    Turn(ks, ws, t + 3, 0xa14c14b0, 0x72ab4b91, 0x26628815, 0x9d4baf93, 0xd57b94a9, 0xb7755da1, 0xa80f11f0, 0xfda24c2e,
         0x106aa070, 0x065c43da, 0x8fa515ca, 0xbd7515f1, 0xbd84cdc9, 0x226a0891,
         0x61835c33, 0xdfeed65a, 0x4172328d, 0xfecf0bc6);
  }

  lemma Rounds48(ks: seq<Word>, ws: seq<Word>, t: nat)
    requires RoundIs(ks, ws, t, Regs(0x4172328d, 0xa14c14b0, 0x72ab4b91, 0x26628815, 0xfecf0bc6, 0xd57b94a9,
        0xb7755da1, 0xa80f11f0))
    requires Four(ks, t, 0x19a4c116, 0x1e376c08, 0x2748774c, 0x34b0bcb5)
    requires Four(ws, t, 0xfb3e89cb, 0xcc7617db, 0xb9e66c34, 0xa9993667)
    ensures RoundIs(ks, ws, t + 4, Regs(0x886e7a22, 0x7a0508a1, 0xf11bfaa8, 0x05757ceb, 0x49231c1e, 0x52f1ccf7,
        0x6e5c390c, 0xbd714038))
  {
    hide RoundIs, Num;
    Turn(ks, ws, t + 0, 0x4172328d, 0xa14c14b0, 0x72ab4b91, 0x26628815, 0xfecf0bc6, 0xd57b94a9, 0xb7755da1, 0xa80f11f0,
         0x19a4c116, 0xfb3e89cb, 0x04a106b1, 0xd57b54a1, 0x0cfcb237, 0x616a1291,
         0x970eb823, 0x6e66c4c8, 0x05757ceb, 0xbd714038);
    Turn(ks, ws, t + 1, 0x05757ceb, 0x4172328d, 0xa14c14b0, 0x72ab4b91, 0xbd714038, 0xfecf0bc6, 0xd57b94a9, 0xb7755da1,
         0x1e376c08, 0xcc7617db, 0x5d427776, 0xfc4b9481, 0xf3f6d884, 0x017434a9,
         0xfbb0ed7b, 0xf56b0d2d, 0xf11bfaa8, 0x6e5c390c);
    Turn(ks, ws, t + 2, 0xf11bfaa8, 0x05757ceb, 0x4172328d, 0xa14c14b0, 0x6e5c390c, 0xbd714038, 0xfecf0bc6, 0xd57b94a9,
         0x2748774c, 0xb9e66c34, 0x3e283d54, 0xbcd302ca, 0x86ebd5b1, 0x41737aa9,
         0xb1a5b847, 0xc85f505a, 0x7a0508a1, 0x52f1ccf7);
    Turn(ks, ws, t + 3, 0x7a0508a1, 0xf11bfaa8, 0x05757ceb, 0x4172328d, 0x52f1ccf7, 0x6e5c390c, 0xbd714038, 0xfecf0bc6,
         0x34b0bcb5, 0xa9993667, 0x3b47e2a3, 0xef50080c, 0x0fa817e8, 0x711578a9,
         0x07b0e991, 0x80bd9091, 0x886e7a22, 0x49231c1e);
  }

  lemma Rounds52(ks: seq<Word>, ws: seq<Word>, t: nat)
    requires RoundIs(ks, ws, t, Regs(0x886e7a22, 0x7a0508a1, 0xf11bfaa8, 0x05757ceb, 0x49231c1e, 0x52f1ccf7,
        0x6e5c390c, 0xbd714038))
    requires Four(ks, t, 0x391c0cb3, 0x4ed8aa4a, 0x5b9cca4f, 0x682e6ff3)
    requires Four(ws, t, 0x84badedd, 0xc21462bc, 0x1487472c, 0xb20f7a99)
    ensures RoundIs(ks, ws, t + 4, Regs(0x38cc9913, 0x3ec45cdb, 0xf5702fdb, 0x101fd28f, 0x54cb266b, 0xe50e1b4f,
        0x9f4787c3, 0x529e7d00))
  {
    hide RoundIs, Num;
    Turn(ks, ws, t + 0, 0x886e7a22, 0x7a0508a1, 0xf11bfaa8, 0x05757ceb, 0x49231c1e, 0x52f1ccf7, 0x6e5c390c, 0xbd714038,
         0x391c0cb3, 0x84badedd, 0x6b63a737, 0x667d2d16, 0xcae757da, 0xf80f7aa0,
         0x4d290015, 0xc2f6d27a, 0x101fd28f, 0x529e7d00);
    Turn(ks, ws, t + 1, 0x101fd28f, 0x886e7a22, 0x7a0508a1, 0xf11bfaa8, 0x529e7d00, 0x49231c1e, 0x52f1ccf7, 0x6e5c390c,
         0x4ed8aa4a, 0xc21462bc, 0xee7eaa12, 0x40639cf7, 0x2f35481d, 0x180f5aa3,
         0xae2b8d1b, 0x4744a2c0, 0xf5702fdb, 0x9f4787c3);
    Turn(ks, ws, t + 2, 0xf5702fdb, 0x101fd28f, 0x886e7a22, 0x7a0508a1, 0x9f4787c3, 0x529e7d00, 0x49231c1e, 0x52f1ccf7,
         0x5b9cca4f, 0x1487472c, 0x55cd1720, 0x52261d1c, 0x433ccfa2, 0x907e7a8b,
         0x6b0912ae, 0xd3bb4a2d, 0x3ec45cdb, 0xe50e1b4f);
    Turn(ks, ws, t + 3, 0x3ec45cdb, 0xf5702fdb, 0x101fd28f, 0x886e7a22, 0xe50e1b4f, 0x9f4787c3, 0x529e7d00, 0x49231c1e,
         0x682e6ff3, 0xb20f7a99, 0xd1653e5c, 0x97966743, 0x381b8def, 0x34545edb,
         0xcc5cac49, 0x6c6fecca, 0x38cc9913, 0x54cb266b);
  }

  lemma Rounds56(ks: seq<Word>, ws: seq<Word>, t: nat)
    requires RoundIs(ks, ws, t, Regs(0x38cc9913, 0x3ec45cdb, 0xf5702fdb, 0x101fd28f, 0x54cb266b, 0xe50e1b4f,
        0x9f4787c3, 0x529e7d00))
    requires Four(ks, t, 0x748f82ee, 0x78a5636f, 0x84c87814, 0x8cc70208)
    requires Four(ws, t, 0xef57b9cd, 0xebe6b238, 0x9fe3095e, 0x78bc8d4b)
    ensures RoundIs(ks, ws, t + 4, Regs(0xb6ae8fff, 0xffb70472, 0xc062d46f, 0xfcd1887b, 0xb21bad3d, 0x6d83bfc6,
        0x7e44008e, 0x9b5e906c))
  {
    hide RoundIs, Num;
    Turn(ks, ws, t + 0, 0x38cc9913, 0x3ec45cdb, 0xf5702fdb, 0x101fd28f, 0x54cb266b, 0xe50e1b4f, 0x9f4787c3, 0x529e7d00,
         0x748f82ee, 0xef57b9cd, 0x05aa8057, 0xcf0e83cb, 0x34ceacc3, 0x3cc41ddb,
         0x8b3ebddd, 0x7192ca9e, 0xfcd1887b, 0x9b5e906c);
    Turn(ks, ws, t + 1, 0xfcd1887b, 0x38cc9913, 0x3ec45cdb, 0xf5702fdb, 0x9b5e906c, 0x54cb266b, 0xe50e1b4f, 0x9f4787c3,
         0x78a5636f, 0xebe6b238, 0x10b627de, 0x744a0b6b, 0xfaca6b61, 0x3cc4985b,
         0x88d3d0b3, 0x378f03bc, 0xc062d46f, 0x7e44008e);
    Turn(ks, ws, t + 2, 0xc062d46f, 0xfcd1887b, 0x38cc9913, 0x3ec45cdb, 0x7e44008e, 0x9b5e906c, 0x54cb266b, 0xe50e1b4f,
         0x84c87814, 0x9fe3095e, 0x0a369fbd, 0x1acf266d, 0xd837090c, 0xf8c0987b,
         0x2ebf62eb, 0xd0f7a187, 0xffb70472, 0x6d83bfc6);
    Turn(ks, ws, t + 3, 0xffb70472, 0xc062d46f, 0xfcd1887b, 0x38cc9913, 0x6d83bfc6, 0x7e44008e, 0x9b5e906c, 0x54cb266b,
         0x8cc70208, 0x78bc8d4b, 0x20a45dbe, 0xfe5c00ae, 0x406bf75a, 0xfcf3847b,
         0x794f142a, 0x3d5f7bd5, 0xb6ae8fff, 0xb21bad3d);
  }

  lemma Rounds60(ks: seq<Word>, ws: seq<Word>, t: nat)
    requires RoundIs(ks, ws, t, Regs(0xb6ae8fff, 0xffb70472, 0xc062d46f, 0xfcd1887b, 0xb21bad3d, 0x6d83bfc6,
        0x7e44008e, 0x9b5e906c))
    requires Four(ks, t, 0x90befffa, 0xa4506ceb, 0xbef9a3f7, 0xc67178f2)
    requires Four(ws, t, 0xa43fcf15, 0x668b2ff8, 0xeeaba2cc, 0x12b1edeb)
    ensures RoundIs(ks, ws, t + 4, Regs(0x506e3058, 0xd39a2165, 0x04d24d6c, 0xb85e2ce9, 0x5ef50f24, 0xfb121210,
        0x948d25b6, 0x961f4894))
  {
    hide RoundIs, Num;
    Turn(ks, ws, t + 0, 0xb6ae8fff, 0xffb70472, 0xc062d46f, 0xfcd1887b, 0xb21bad3d, 0x6d83bfc6, 0x7e44008e, 0x9b5e906c,
         0x90befffa, 0xa43fcf15, 0x5ca8b318, 0x6c47ad86, 0x2869e851, 0xf6a6847f,
         0x994dc019, 0x1f106cd0, 0xb85e2ce9, 0x961f4894);
    Turn(ks, ws, t + 1, 0xb85e2ce9, 0xb6ae8fff, 0xffb70472, 0xc062d46f, 0x961f4894, 0xb21bad3d, 0x6d83bfc6, 0x7e44008e,
         0xa4506ceb, 0x668b2ff8, 0x4f6ef480, 0xfb9bbf56, 0x71e9ef2a, 0xbebe0cfb,
         0xd42a5147, 0x30a7fc25, 0x04d24d6c, 0x948d25b6);
    Turn(ks, ws, t + 2, 0x04d24d6c, 0xb85e2ce9, 0xb6ae8fff, 0xffb70472, 0x948d25b6, 0x961f4894, 0xb21bad3d, 0x6d83bfc6,
         0xbef9a3f7, 0xeeaba2cc, 0x2a127e78, 0xb61f889d, 0x236105da, 0xb4de0ded,
         0xfb5b0d9e, 0xd83f13c7, 0xd39a2165, 0xfb121210);
    Turn(ks, ws, t + 3, 0xd39a2165, 0x04d24d6c, 0xb85e2ce9, 0xb6ae8fff, 0xfb121210, 0x948d25b6, 0x961f4894, 0xb21bad3d,
         0xc67178f2, 0x12b1edeb, 0x88fa2277, 0x940d4894, 0x174d83c6, 0x90da2d6d,
         0xa8467f25, 0xa827b133, 0x506e3058, 0x5ef50f24);
  }

  lemma Row0()
    ensures Eight(K, 0, 0x428a2f98, 0x71374491, 0xb5c0fbcf, 0xe9b5dba5, 0x3956c25b, 0x59f111f1, 0x923f82a4, 0xab1c5ed5)
    ensures Eight(ABC_SCHEDULE, 0, 0x61626380, 0x00000000, 0x00000000, 0x00000000, 0x00000000, 0x00000000,
        0x00000000, 0x00000000)
  {
  }

  lemma Row8()
    ensures Eight(K, 8, 0xd807aa98, 0x12835b01, 0x243185be, 0x550c7dc3, 0x72be5d74, 0x80deb1fe, 0x9bdc06a7, 0xc19bf174)
    ensures Eight(ABC_SCHEDULE, 8, 0x00000000, 0x00000000, 0x00000000, 0x00000000, 0x00000000, 0x00000000,
        0x00000000, 0x00000018)
  {
  }

  lemma Row16()
    ensures Eight(K, 16, 0xe49b69c1, 0xefbe4786, 0x0fc19dc6, 0x240ca1cc, 0x2de92c6f, 0x4a7484aa, 0x5cb0a9dc, 0x76f988da)
    ensures Eight(ABC_SCHEDULE, 16, 0x61626380, 0x000f0000, 0x7da86405, 0x600003c6, 0x3e9d7b78, 0x0183fc00,
        0x12dcbfdb, 0xe2e2c38e)
  {
  }

  lemma Row24()
    ensures Eight(K, 24, 0x983e5152, 0xa831c66d, 0xb00327c8, 0xbf597fc7, 0xc6e00bf3, 0xd5a79147, 0x06ca6351, 0x14292967)
    ensures Eight(ABC_SCHEDULE, 24, 0xc8215c1a, 0xb73679a2, 0xe5bc3909, 0x32663c5b, 0x9d209d67, 0xec8726cb,
        0x702138a4, 0xd3b7973b)
  {
  }

  lemma Row32()
    ensures Eight(K, 32, 0x27b70a85, 0x2e1b2138, 0x4d2c6dfc, 0x53380d13, 0x650a7354, 0x766a0abb, 0x81c2c92e, 0x92722c85)
    ensures Eight(ABC_SCHEDULE, 32, 0x93f5997f, 0x3b68ba73, 0xaff4ffc1, 0xf10a5c62, 0x0a8b3996, 0x72af830a,
        0x9409e33e, 0x24641522)
  {
  }

  lemma Row40()
    ensures Eight(K, 40, 0xa2bfe8a1, 0xa81a664b, 0xc24b8b70, 0xc76c51a3, 0xd192e819, 0xd6990624, 0xf40e3585, 0x106aa070)
    ensures Eight(ABC_SCHEDULE, 40, 0x9f47bf94, 0xf0a64f5a, 0x3e246a79, 0x27333ba3, 0x0c4763f2, 0x840abf27,
        0x7a290d5d, 0x065c43da)
  {
  }

  lemma Row48()
    ensures Eight(K, 48, 0x19a4c116, 0x1e376c08, 0x2748774c, 0x34b0bcb5, 0x391c0cb3, 0x4ed8aa4a, 0x5b9cca4f, 0x682e6ff3)
    ensures Eight(ABC_SCHEDULE, 48, 0xfb3e89cb, 0xcc7617db, 0xb9e66c34, 0xa9993667, 0x84badedd, 0xc21462bc,
        0x1487472c, 0xb20f7a99)
  {
  }

  lemma Row56()
    ensures Eight(K, 56, 0x748f82ee, 0x78a5636f, 0x84c87814, 0x8cc70208, 0x90befffa, 0xa4506ceb, 0xbef9a3f7, 0xc67178f2)
    ensures Eight(ABC_SCHEDULE, 56, 0xef57b9cd, 0xebe6b238, 0x9fe3095e, 0x78bc8d4b, 0xa43fcf15, 0x668b2ff8,
        0xeeaba2cc, 0x12b1edeb)
  {
  }

  lemma AllFit(ws: seq<Word>)
    requires ws == ABC_SCHEDULE && |ws| == 64
    ensures forall t :: 16 <= t < 64 ==> Fits(ws, t)
  {
    Row0();
    Row8();
    Row16();
    Row24();
    Row32();
    Row40();
    Row48();
    Row56();
    hide Fits, ABC_SCHEDULE, Eight;
    Words16(ws, 16);
    Words24(ws, 24);
    Words32(ws, 32);
    Words40(ws, 40);
    Words48(ws, 48);
    Words56(ws, 56);
  }

  lemma AllRounds(ks: seq<Word>, ws: seq<Word>)
    requires ks == K && ws == ABC_SCHEDULE && RoundIs(ks, ws, 0, H0)
    ensures RoundIs(ks, ws, 64, Regs(0x506e3058, 0xd39a2165, 0x04d24d6c, 0xb85e2ce9, 0x5ef50f24, 0xfb121210,
        0x948d25b6, 0x961f4894))
  {
    Row0();
    Row8();
    Row16();
    Row24();
    Row32();
    Row40();
    Row48();
    Row56();
    hide RoundIs, K, ABC_SCHEDULE, Rounds;
    Rounds0(ks, ws, 0);
    Rounds4(ks, ws, 4);
    Rounds8(ks, ws, 8);
    Rounds12(ks, ws, 12);
    Rounds16(ks, ws, 16);
    Rounds20(ks, ws, 20);
    Rounds24(ks, ws, 24);
    Rounds28(ks, ws, 28);
    Rounds32(ks, ws, 32);
    Rounds36(ks, ws, 36);
    Rounds40(ks, ws, 40);
    Rounds44(ks, ws, 44);
    Rounds48(ks, ws, 48);
    Rounds52(ks, ws, 52);
    Rounds56(ks, ws, 56);
    Rounds60(ks, ws, 60);
  }

  // ---- the message ------------------------------------------------------------------------------

  const ABC: seq<u8> := [0x61, 0x62, 0x63]

  const ABC_DIGEST: seq<u8> :=
    [0xba, 0x78, 0x16, 0xbf] + [0x8f, 0x01, 0xcf, 0xea] + [0x41, 0x41, 0x40, 0xde] + [0x5d, 0xae, 0x22, 0x23] +
    [0xb0, 0x03, 0x61, 0xa3] + [0x96, 0x17, 0x7a, 0x9c] + [0xb4, 0x10, 0xff, 0x61] + [0xf2, 0x00, 0x15, 0xad]

  lemma {:induction false} BigEndianZero(k: nat)
    ensures forall i :: 0 <= i < k ==> BigEndian(0, k)[i] == 0
  {
    if k > 0 {
      BigEndianZero(k - 1);
    }
  }

  /** The padded message, byte by byte and word by word. */
  ghost predicate AbcBlock(p: seq<u8>) {
    && |p| == 64 && p[0] == 0x61 && p[1] == 0x62 && p[2] == 0x63 && p[3] == 0x80
    && (forall k :: 4 <= k < 63 ==> p[k] == 0) && p[63] == 0x18
  }

  lemma AbcPadded(p: seq<u8>)
    requires IsPadded(ABC, p, 0, 3)
    ensures AbcBlock(p)
  {
    BigEndianZero(7);
    assert BigEndian(24, 8) == BigEndian(0, 7) + [24];
    hide BigEndian;
    assert p[0] == p[..3][0] && p[1] == p[..3][1] && p[2] == p[..3][2];
    assert forall k :: 56 <= k < 64 ==> p[k] == p[56..][k - 56];
  }

  lemma AbcWords(p: seq<u8>)
    requires AbcBlock(p)
    ensures Words(p) == ABC_SCHEDULE[..16]
  {
    Row0();
    Row8();
    hide ABC_SCHEDULE;
    assert Words(p)[0] == 0x61626380 && Words(p)[15] == 0x18;
    forall t | 0 < t < 15
      ensures Words(p)[t] == 0
    {
    }
    hide Words;
  }

  lemma AbcCompressed(p: seq<u8>)
    requires |p| == 64 && Words(p) == ABC_SCHEDULE[..16]
    ensures Compress(H0, p) == Regs(0xba7816bf, 0x8f01cfea, 0x414140de, 0x5dae2223, 0xb00361a3, 0x96177a9c,
        0xb410ff61, 0xf20015ad)
  {
    var ks, ws := K, ABC_SCHEDULE;
    AllFit(ws);
    ScheduleIs(ws, 64);
    assert ws[..64] == ws;
    AllRounds(ks, ws);
    hide Rounds, Schedule, Words, K, ABC_SCHEDULE;
  }

  lemma BytesOfWord(b0: u8, b1: u8, b2: u8, b3: u8)
    ensures WordBytes(WordOf(b0, b1, b2, b3)) == [b0, b1, b2, b3]
  {
    var c: seq<u8>, v := Le32(WordOf(b0, b1, b2, b3)), WordOf(b0, b1, b2, b3);
    assert c == [b3, b2, b1, b0] by {
      Digits(b3, b2, b1, b0);
    }
    assert c == [v % 0x100, v / 0x100 % 0x100, v / 0x1_0000 % 0x100, v / 0x100_0000];
    hide Le32, WordOf;
  }

  lemma AbcBytes()
    ensures RegsBytes(Regs(0xba7816bf, 0x8f01cfea, 0x414140de, 0x5dae2223, 0xb00361a3, 0x96177a9c, 0xb410ff61,
        0xf20015ad)) == ABC_DIGEST
  {
    BytesOfWord(0xba, 0x78, 0x16, 0xbf);
    BytesOfWord(0x8f, 0x01, 0xcf, 0xea);
    BytesOfWord(0x41, 0x41, 0x40, 0xde);
    BytesOfWord(0x5d, 0xae, 0x22, 0x23);
    BytesOfWord(0xb0, 0x03, 0x61, 0xa3);
    BytesOfWord(0x96, 0x17, 0x7a, 0x9c);
    BytesOfWord(0xb4, 0x10, 0xff, 0x61);
    BytesOfWord(0xf2, 0x00, 0x15, 0xad);
    hide WordBytes;
  }

  /** The known answer. */
  lemma AbcKnown()
    ensures SHA256(ABC) == ABC_DIGEST
  {
    var p := Pad(ABC);
    PadIsPadded(ABC, 0, 3);
    AbcPadded(p);
    AbcWords(p);
    AbcCompressed(p);
    AbcBytes();
    assert p[0..64] == p;
    hide Compress, Pad, AbcBlock, ABC_DIGEST, RegsBytes;
    assert Fold(Compress, p, 1) == Compress(H0, p);
  }
}
