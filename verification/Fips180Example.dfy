// SHA-256 of "abc", the one-block example of the standard, worked through: whatever else
// FIPS 180-4 says, this is what its steps come to.

module Fips180Example {
  import opened Wrappers
  import opened Fips180
  import opened Fips180Constants
  import opened Sha256

  const ABC: Bytes := [97, 98, 99]

  // ------------------------------------------------------------------- the schedule

  const WORDS_0: seq<bv32> := [
    0x61626380, 0x00000000, 0x00000000, 0x00000000, 0x00000000, 0x00000000, 0x00000000, 0x00000000]
  const WORDS_1: seq<bv32> := [
    0x00000000, 0x00000000, 0x00000000, 0x00000000, 0x00000000, 0x00000000, 0x00000000, 0x00000018]
  const WORDS_2: seq<bv32> := [
    0x61626380, 0x000f0000, 0x7da86405, 0x600003c6, 0x3e9d7b78, 0x0183fc00, 0x12dcbfdb, 0xe2e2c38e]
  const WORDS_3: seq<bv32> := [
    0xc8215c1a, 0xb73679a2, 0xe5bc3909, 0x32663c5b, 0x9d209d67, 0xec8726cb, 0x702138a4, 0xd3b7973b]
  const WORDS_4: seq<bv32> := [
    0x93f5997f, 0x3b68ba73, 0xaff4ffc1, 0xf10a5c62, 0x0a8b3996, 0x72af830a, 0x9409e33e, 0x24641522]
  const WORDS_5: seq<bv32> := [
    0x9f47bf94, 0xf0a64f5a, 0x3e246a79, 0x27333ba3, 0x0c4763f2, 0x840abf27, 0x7a290d5d, 0x065c43da]
  const WORDS_6: seq<bv32> := [
    0xfb3e89cb, 0xcc7617db, 0xb9e66c34, 0xa9993667, 0x84badedd, 0xc21462bc, 0x1487472c, 0xb20f7a99]
  const WORDS_7: seq<bv32> := [
    0xef57b9cd, 0xebe6b238, 0x9fe3095e, 0x78bc8d4b, 0xa43fcf15, 0x668b2ff8, 0xeeaba2cc, 0x12b1edeb]

  /** The words from `t` on, by a row. */
  predicate RowAt(words: nat -> bv32, t: nat, row: seq<bv32>) {
    && |row| == 8
    && words(t) == row[0] && words(t + 1) == row[1] && words(t + 2) == row[2] && words(t + 3) == row[3]
    && words(t + 4) == row[4] && words(t + 5) == row[5] && words(t + 6) == row[6] && words(t + 7) == row[7]
  }

  /** Every word from the seventeenth on is made of the words 16, 15, 7 and 2 places
      before it. */
  predicate Recurs(words: nat -> bv32, t: nat) {
    words(t + 16) == Sum4(SmallSigma1(words(t + 14)), words(t + 9), SmallSigma0(words(t + 1)), words(t))
  }

  ghost predicate Recurring(words: nat -> bv32) {
    forall t :: Recurs(words, t)
  }

  predicate Makes(w16: bv32, w15: bv32, w7: bv32, w2: bv32, w: bv32) {
    w == Sum4(SmallSigma1(w2), w7, SmallSigma0(w15), w16)
  }

  lemma NextWord(words: nat -> bv32, t: nat, w16: bv32, w15: bv32, w7: bv32, w2: bv32, w: bv32)
    requires Recurs(words, t) && words(t) == w16 && words(t + 1) == w15 && words(t + 9) == w7 && words(t + 14) == w2
    requires Makes(w16, w15, w7, w2, w)
    ensures words(t + 16) == w
  {
  }

  lemma Words2(words: nat -> bv32)
    requires Recurring(words) && RowAt(words, 0, WORDS_0) && RowAt(words, 8, WORDS_1)
    ensures RowAt(words, 16, WORDS_2)
  {
    NextWord(words, 0, 0x61626380, 0x00000000, 0x00000000, 0x00000000, 0x61626380);
    NextWord(words, 1, 0x00000000, 0x00000000, 0x00000000, 0x00000018, 0x000f0000);
    NextWord(words, 2, 0x00000000, 0x00000000, 0x00000000, 0x61626380, 0x7da86405);
    NextWord(words, 3, 0x00000000, 0x00000000, 0x00000000, 0x000f0000, 0x600003c6);
    NextWord(words, 4, 0x00000000, 0x00000000, 0x00000000, 0x7da86405, 0x3e9d7b78);
    NextWord(words, 5, 0x00000000, 0x00000000, 0x00000000, 0x600003c6, 0x0183fc00);
    NextWord(words, 6, 0x00000000, 0x00000000, 0x00000018, 0x3e9d7b78, 0x12dcbfdb);
    NextWord(words, 7, 0x00000000, 0x00000000, 0x61626380, 0x0183fc00, 0xe2e2c38e);
  }

  lemma Words3(words: nat -> bv32)
    requires Recurring(words) && RowAt(words, 8, WORDS_1) && RowAt(words, 16, WORDS_2)
    ensures RowAt(words, 24, WORDS_3)
  {
    NextWord(words, 8, 0x00000000, 0x00000000, 0x000f0000, 0x12dcbfdb, 0xc8215c1a);
    NextWord(words, 9, 0x00000000, 0x00000000, 0x7da86405, 0xe2e2c38e, 0xb73679a2);
    NextWord(words, 10, 0x00000000, 0x00000000, 0x600003c6, 0xc8215c1a, 0xe5bc3909);
    NextWord(words, 11, 0x00000000, 0x00000000, 0x3e9d7b78, 0xb73679a2, 0x32663c5b);
    NextWord(words, 12, 0x00000000, 0x00000000, 0x0183fc00, 0xe5bc3909, 0x9d209d67);
    NextWord(words, 13, 0x00000000, 0x00000000, 0x12dcbfdb, 0x32663c5b, 0xec8726cb);
    NextWord(words, 14, 0x00000000, 0x00000018, 0xe2e2c38e, 0x9d209d67, 0x702138a4);
    NextWord(words, 15, 0x00000018, 0x61626380, 0xc8215c1a, 0xec8726cb, 0xd3b7973b);
  }

  lemma Words4(words: nat -> bv32)
    requires Recurring(words) && RowAt(words, 16, WORDS_2) && RowAt(words, 24, WORDS_3)
    ensures RowAt(words, 32, WORDS_4)
  {
    NextWord(words, 16, 0x61626380, 0x000f0000, 0xb73679a2, 0x702138a4, 0x93f5997f);
    NextWord(words, 17, 0x000f0000, 0x7da86405, 0xe5bc3909, 0xd3b7973b, 0x3b68ba73);
    NextWord(words, 18, 0x7da86405, 0x600003c6, 0x32663c5b, 0x93f5997f, 0xaff4ffc1);
    NextWord(words, 19, 0x600003c6, 0x3e9d7b78, 0x9d209d67, 0x3b68ba73, 0xf10a5c62);
    NextWord(words, 20, 0x3e9d7b78, 0x0183fc00, 0xec8726cb, 0xaff4ffc1, 0x0a8b3996);
    NextWord(words, 21, 0x0183fc00, 0x12dcbfdb, 0x702138a4, 0xf10a5c62, 0x72af830a);
    NextWord(words, 22, 0x12dcbfdb, 0xe2e2c38e, 0xd3b7973b, 0x0a8b3996, 0x9409e33e);
    NextWord(words, 23, 0xe2e2c38e, 0xc8215c1a, 0x93f5997f, 0x72af830a, 0x24641522);
  }

  lemma Words5(words: nat -> bv32)
    requires Recurring(words) && RowAt(words, 24, WORDS_3) && RowAt(words, 32, WORDS_4)
    ensures RowAt(words, 40, WORDS_5)
  {
    NextWord(words, 24, 0xc8215c1a, 0xb73679a2, 0x3b68ba73, 0x9409e33e, 0x9f47bf94);
    NextWord(words, 25, 0xb73679a2, 0xe5bc3909, 0xaff4ffc1, 0x24641522, 0xf0a64f5a);
    NextWord(words, 26, 0xe5bc3909, 0x32663c5b, 0xf10a5c62, 0x9f47bf94, 0x3e246a79);
    NextWord(words, 27, 0x32663c5b, 0x9d209d67, 0x0a8b3996, 0xf0a64f5a, 0x27333ba3);
    NextWord(words, 28, 0x9d209d67, 0xec8726cb, 0x72af830a, 0x3e246a79, 0x0c4763f2);
    NextWord(words, 29, 0xec8726cb, 0x702138a4, 0x9409e33e, 0x27333ba3, 0x840abf27);
    NextWord(words, 30, 0x702138a4, 0xd3b7973b, 0x24641522, 0x0c4763f2, 0x7a290d5d);
    NextWord(words, 31, 0xd3b7973b, 0x93f5997f, 0x9f47bf94, 0x840abf27, 0x065c43da);
  }

  lemma Words6(words: nat -> bv32)
    requires Recurring(words) && RowAt(words, 32, WORDS_4) && RowAt(words, 40, WORDS_5)
    ensures RowAt(words, 48, WORDS_6)
  {
    NextWord(words, 32, 0x93f5997f, 0x3b68ba73, 0xf0a64f5a, 0x7a290d5d, 0xfb3e89cb);
    NextWord(words, 33, 0x3b68ba73, 0xaff4ffc1, 0x3e246a79, 0x065c43da, 0xcc7617db);
    NextWord(words, 34, 0xaff4ffc1, 0xf10a5c62, 0x27333ba3, 0xfb3e89cb, 0xb9e66c34);
    NextWord(words, 35, 0xf10a5c62, 0x0a8b3996, 0x0c4763f2, 0xcc7617db, 0xa9993667);
    NextWord(words, 36, 0x0a8b3996, 0x72af830a, 0x840abf27, 0xb9e66c34, 0x84badedd);
    NextWord(words, 37, 0x72af830a, 0x9409e33e, 0x7a290d5d, 0xa9993667, 0xc21462bc);
    NextWord(words, 38, 0x9409e33e, 0x24641522, 0x065c43da, 0x84badedd, 0x1487472c);
    NextWord(words, 39, 0x24641522, 0x9f47bf94, 0xfb3e89cb, 0xc21462bc, 0xb20f7a99);
  }

  lemma Words7(words: nat -> bv32)
    requires Recurring(words) && RowAt(words, 40, WORDS_5) && RowAt(words, 48, WORDS_6)
    ensures RowAt(words, 56, WORDS_7)
  {
    NextWord(words, 40, 0x9f47bf94, 0xf0a64f5a, 0xcc7617db, 0x1487472c, 0xef57b9cd);
    NextWord(words, 41, 0xf0a64f5a, 0x3e246a79, 0xb9e66c34, 0xb20f7a99, 0xebe6b238);
    NextWord(words, 42, 0x3e246a79, 0x27333ba3, 0xa9993667, 0xef57b9cd, 0x9fe3095e);
    NextWord(words, 43, 0x27333ba3, 0x0c4763f2, 0x84badedd, 0xebe6b238, 0x78bc8d4b);
    NextWord(words, 44, 0x0c4763f2, 0x840abf27, 0xc21462bc, 0x9fe3095e, 0xa43fcf15);
    NextWord(words, 45, 0x840abf27, 0x7a290d5d, 0x1487472c, 0x78bc8d4b, 0x668b2ff8);
    NextWord(words, 46, 0x7a290d5d, 0x065c43da, 0xb20f7a99, 0xa43fcf15, 0xeeaba2cc);
    NextWord(words, 47, 0x065c43da, 0xfb3e89cb, 0xef57b9cd, 0x668b2ff8, 0x12b1edeb);
  }

  // ------------------------------------------------------------------- the rounds

  predicate RoundRow(t: nat, ks: seq<bv32>) {
    && |ks| == 8 && t + 8 <= |ROUND|
    && ROUND[t] == ks[0] && ROUND[t + 1] == ks[1] && ROUND[t + 2] == ks[2] && ROUND[t + 3] == ks[3]
    && ROUND[t + 4] == ks[4] && ROUND[t + 5] == ks[5] && ROUND[t + 6] == ks[6] && ROUND[t + 7] == ks[7]
  }

  lemma RoundRows()
    ensures RoundRow(0, ROUND_0)
    ensures RoundRow(8, ROUND_1)
    ensures RoundRow(16, ROUND_2)
    ensures RoundRow(24, ROUND_3)
    ensures RoundRow(32, ROUND_4)
    ensures RoundRow(40, ROUND_5)
    ensures RoundRow(48, ROUND_6)
    ensures RoundRow(56, ROUND_7)
  {
    forall i: nat | i < 64
      ensures ROUND[i] == if i < 8 then ROUND_0[i]
              else if i < 16 then ROUND_1[i - 8]
              else if i < 24 then ROUND_2[i - 16]
              else if i < 32 then ROUND_3[i - 24]
              else if i < 40 then ROUND_4[i - 32]
              else if i < 48 then ROUND_5[i - 40]
              else if i < 56 then ROUND_6[i - 48]
              else ROUND_7[i - 56]
    {
      RowItem(ROUND_0, ROUND_1, ROUND_2, ROUND_3, ROUND_4, ROUND_5, ROUND_6, ROUND_7, i);
    }
  }

  /** One round. */
  predicate Turns(state: nat -> Vars<bv32>, words: nat -> bv32, t: nat) {
    t < |ROUND| && state(t + 1) == Round(STANDARD, state(t), ROUND[t], words(t))
  }

  ghost predicate Turning(state: nat -> Vars<bv32>, words: nat -> bv32) {
    forall t :: 0 <= t < 64 ==> Turns(state, words, t)
  }

  predicate Gives(a: bv32, b: bv32, c: bv32, d: bv32, e: bv32, f: bv32, g: bv32, h: bv32, k: bv32, w: bv32, a': bv32, e': bv32) {
    var t1 := Add(Sum4(h, BigSigma1(e), Ch(e, f, g), k), w);
    a' == Add(t1, Add(BigSigma0(a), Maj(a, b, c))) && e' == Add(d, t1)
  }

  lemma GivesRound(a: bv32, b: bv32, c: bv32, d: bv32, e: bv32, f: bv32, g: bv32, h: bv32, k: bv32, w: bv32, a': bv32, e': bv32)
    requires Gives(a, b, c, d, e, f, g, h, k, w, a', e')
    ensures Round(STANDARD, Vars(a, b, c, d, e, f, g, h), k, w) == Vars(a', a, b, c, e', e, f, g)
  {
  }

  lemma NextVars(state: nat -> Vars<bv32>, words: nat -> bv32, t: nat,
                 a: bv32, b: bv32, c: bv32, d: bv32, e: bv32, f: bv32, g: bv32, h: bv32, k: bv32, w: bv32, a': bv32, e': bv32)
    requires Turns(state, words, t) && state(t) == Vars(a, b, c, d, e, f, g, h) && ROUND[t] == k && words(t) == w
    requires Gives(a, b, c, d, e, f, g, h, k, w, a', e')
    ensures state(t + 1) == Vars(a', a, b, c, e', e, f, g)
  {
    GivesRound(a, b, c, d, e, f, g, h, k, w, a', e');
  }

  const VARS_0: Vars<bv32> := Vars(0x6a09e667, 0xbb67ae85, 0x3c6ef372, 0xa54ff53a, 0x510e527f, 0x9b05688c, 0x1f83d9ab, 0x5be0cd19)
  const VARS_1: Vars<bv32> := Vars(0x85a07b5f, 0xe5030380, 0x2b4209f5, 0x04409a6a, 0x0c657a79, 0x9b27a401, 0x714260ad, 0x43ada245)
  const VARS_2: Vars<bv32> := Vars(0xb0fa238e, 0xc0645fde, 0xd932eb16, 0x87912990, 0x07590dcd, 0x0b92f20c, 0x745a48de, 0x1e578218)
  const VARS_3: Vars<bv32> := Vars(0xc5d53d8d, 0xa7a3623f, 0xc2606d6d, 0x9dc68b63, 0xaa47c347, 0x49f5114a, 0xe1257970, 0x8ada8930)
  const VARS_4: Vars<bv32> := Vars(0x73b33bf5, 0xea992a22, 0xa0060b30, 0x363482c9, 0xba591112, 0x0109ab3a, 0xade79437, 0x6112a3b7)
  const VARS_5: Vars<bv32> := Vars(0x79ea687a, 0x6dc57a8a, 0x34df1604, 0x41a65cb1, 0x1efbc0a0, 0xf0781bc8, 0xa507a53d, 0x0772a26b)
  const VARS_6: Vars<bv32> := Vars(0x4172328d, 0xa14c14b0, 0x72ab4b91, 0x26628815, 0xfecf0bc6, 0xd57b94a9, 0xb7755da1, 0xa80f11f0)
  const VARS_7: Vars<bv32> := Vars(0x38cc9913, 0x3ec45cdb, 0xf5702fdb, 0x101fd28f, 0x54cb266b, 0xe50e1b4f, 0x9f4787c3, 0x529e7d00)
  const VARS_8: Vars<bv32> := Vars(0x506e3058, 0xd39a2165, 0x04d24d6c, 0xb85e2ce9, 0x5ef50f24, 0xfb121210, 0x948d25b6, 0x961f4894)

  lemma Rounds0(state: nat -> Vars<bv32>, words: nat -> bv32)
    requires Turning(state, words) && RowAt(words, 0, WORDS_0) && RoundRow(0, ROUND_0) && state(0) == VARS_0
    ensures state(8) == VARS_1
  {
    NextVars(state, words, 0,
      0x6a09e667, 0xbb67ae85, 0x3c6ef372, 0xa54ff53a, 0x510e527f, 0x9b05688c, 0x1f83d9ab, 0x5be0cd19,
      0x428a2f98, 0x61626380, 0x5d6aebcd, 0xfa2a4622);
    NextVars(state, words, 1,
      0x5d6aebcd, 0x6a09e667, 0xbb67ae85, 0x3c6ef372, 0xfa2a4622, 0x510e527f, 0x9b05688c, 0x1f83d9ab,
      0x71374491, 0x00000000, 0x5a6ad9ad, 0x78ce7989);
    NextVars(state, words, 2,
      0x5a6ad9ad, 0x5d6aebcd, 0x6a09e667, 0xbb67ae85, 0x78ce7989, 0xfa2a4622, 0x510e527f, 0x9b05688c,
      0xb5c0fbcf, 0x00000000, 0xc8c347a7, 0xf92939eb);
    NextVars(state, words, 3,
      0xc8c347a7, 0x5a6ad9ad, 0x5d6aebcd, 0x6a09e667, 0xf92939eb, 0x78ce7989, 0xfa2a4622, 0x510e527f,
      0xe9b5dba5, 0x00000000, 0xd550f666, 0x24e00850);
    NextVars(state, words, 4,
      0xd550f666, 0xc8c347a7, 0x5a6ad9ad, 0x5d6aebcd, 0x24e00850, 0xf92939eb, 0x78ce7989, 0xfa2a4622,
      0x3956c25b, 0x00000000, 0x04409a6a, 0x43ada245);
    NextVars(state, words, 5,
      0x04409a6a, 0xd550f666, 0xc8c347a7, 0x5a6ad9ad, 0x43ada245, 0x24e00850, 0xf92939eb, 0x78ce7989,
      0x59f111f1, 0x00000000, 0x2b4209f5, 0x714260ad);
    NextVars(state, words, 6,
      0x2b4209f5, 0x04409a6a, 0xd550f666, 0xc8c347a7, 0x714260ad, 0x43ada245, 0x24e00850, 0xf92939eb,
      0x923f82a4, 0x00000000, 0xe5030380, 0x9b27a401);
    NextVars(state, words, 7,
      0xe5030380, 0x2b4209f5, 0x04409a6a, 0xd550f666, 0x9b27a401, 0x714260ad, 0x43ada245, 0x24e00850,
      0xab1c5ed5, 0x00000000, 0x85a07b5f, 0x0c657a79);
  }

  lemma Rounds1(state: nat -> Vars<bv32>, words: nat -> bv32)
    requires Turning(state, words) && RowAt(words, 8, WORDS_1) && RoundRow(8, ROUND_1) && state(8) == VARS_1
    ensures state(16) == VARS_2
  {
    NextVars(state, words, 8,
      0x85a07b5f, 0xe5030380, 0x2b4209f5, 0x04409a6a, 0x0c657a79, 0x9b27a401, 0x714260ad, 0x43ada245,
      0xd807aa98, 0x00000000, 0x8e04ecb9, 0x32ca2d8c);
    NextVars(state, words, 9,
      0x8e04ecb9, 0x85a07b5f, 0xe5030380, 0x2b4209f5, 0x32ca2d8c, 0x0c657a79, 0x9b27a401, 0x714260ad,
      0x12835b01, 0x00000000, 0x8c87346b, 0x1cc92596);
    NextVars(state, words, 10,
      0x8c87346b, 0x8e04ecb9, 0x85a07b5f, 0xe5030380, 0x1cc92596, 0x32ca2d8c, 0x0c657a79, 0x9b27a401,
      0x243185be, 0x00000000, 0x4798a3f4, 0x436b23e8);
    NextVars(state, words, 11,
      0x4798a3f4, 0x8c87346b, 0x8e04ecb9, 0x85a07b5f, 0x436b23e8, 0x1cc92596, 0x32ca2d8c, 0x0c657a79,
      0x550c7dc3, 0x00000000, 0xf71fc5a9, 0x816fd6e9);
    NextVars(state, words, 12,
      0xf71fc5a9, 0x4798a3f4, 0x8c87346b, 0x8e04ecb9, 0x816fd6e9, 0x436b23e8, 0x1cc92596, 0x32ca2d8c,
      0x72be5d74, 0x00000000, 0x87912990, 0x1e578218);
    NextVars(state, words, 13,
      0x87912990, 0xf71fc5a9, 0x4798a3f4, 0x8c87346b, 0x1e578218, 0x816fd6e9, 0x436b23e8, 0x1cc92596,
      0x80deb1fe, 0x00000000, 0xd932eb16, 0x745a48de);
    NextVars(state, words, 14,
      0xd932eb16, 0x87912990, 0xf71fc5a9, 0x4798a3f4, 0x745a48de, 0x1e578218, 0x816fd6e9, 0x436b23e8,
      0x9bdc06a7, 0x00000000, 0xc0645fde, 0x0b92f20c);
    NextVars(state, words, 15,
      0xc0645fde, 0xd932eb16, 0x87912990, 0xf71fc5a9, 0x0b92f20c, 0x745a48de, 0x1e578218, 0x816fd6e9,
      0xc19bf174, 0x00000018, 0xb0fa238e, 0x07590dcd);
  }

  lemma Rounds2(state: nat -> Vars<bv32>, words: nat -> bv32)
    requires Turning(state, words) && RowAt(words, 16, WORDS_2) && RoundRow(16, ROUND_2) && state(16) == VARS_2
    ensures state(24) == VARS_3
  {
    NextVars(state, words, 16,
      0xb0fa238e, 0xc0645fde, 0xd932eb16, 0x87912990, 0x07590dcd, 0x0b92f20c, 0x745a48de, 0x1e578218,
      0xe49b69c1, 0x61626380, 0x21da9a9b, 0x8034229c);
    NextVars(state, words, 17,
      0x21da9a9b, 0xb0fa238e, 0xc0645fde, 0xd932eb16, 0x8034229c, 0x07590dcd, 0x0b92f20c, 0x745a48de,
      0xefbe4786, 0x000f0000, 0xc2fbd9d1, 0x846ee454);
    NextVars(state, words, 18,
      0xc2fbd9d1, 0x21da9a9b, 0xb0fa238e, 0xc0645fde, 0x846ee454, 0x8034229c, 0x07590dcd, 0x0b92f20c,
      0x0fc19dc6, 0x7da86405, 0xfe777bbf, 0xcc899961);
    NextVars(state, words, 19,
      0xfe777bbf, 0xc2fbd9d1, 0x21da9a9b, 0xb0fa238e, 0xcc899961, 0x846ee454, 0x8034229c, 0x07590dcd,
      0x240ca1cc, 0x600003c6, 0xe1f20c33, 0xb0638179);
    NextVars(state, words, 20,
      0xe1f20c33, 0xfe777bbf, 0xc2fbd9d1, 0x21da9a9b, 0xb0638179, 0xcc899961, 0x846ee454, 0x8034229c,
      0x2de92c6f, 0x3e9d7b78, 0x9dc68b63, 0x8ada8930);
    NextVars(state, words, 21,
      0x9dc68b63, 0xe1f20c33, 0xfe777bbf, 0xc2fbd9d1, 0x8ada8930, 0xb0638179, 0xcc899961, 0x846ee454,
      0x4a7484aa, 0x0183fc00, 0xc2606d6d, 0xe1257970);
    NextVars(state, words, 22,
      0xc2606d6d, 0x9dc68b63, 0xe1f20c33, 0xfe777bbf, 0xe1257970, 0x8ada8930, 0xb0638179, 0xcc899961,
      0x5cb0a9dc, 0x12dcbfdb, 0xa7a3623f, 0x49f5114a);
    NextVars(state, words, 23,
      0xa7a3623f, 0xc2606d6d, 0x9dc68b63, 0xe1f20c33, 0x49f5114a, 0xe1257970, 0x8ada8930, 0xb0638179,
      0x76f988da, 0xe2e2c38e, 0xc5d53d8d, 0xaa47c347);
  }

  lemma Rounds3(state: nat -> Vars<bv32>, words: nat -> bv32)
    requires Turning(state, words) && RowAt(words, 24, WORDS_3) && RoundRow(24, ROUND_3) && state(24) == VARS_3
    ensures state(32) == VARS_4
  {
    NextVars(state, words, 24,
      0xc5d53d8d, 0xa7a3623f, 0xc2606d6d, 0x9dc68b63, 0xaa47c347, 0x49f5114a, 0xe1257970, 0x8ada8930,
      0x983e5152, 0xc8215c1a, 0x1c2c2838, 0x2823ef91);
    NextVars(state, words, 25,
      0x1c2c2838, 0xc5d53d8d, 0xa7a3623f, 0xc2606d6d, 0x2823ef91, 0xaa47c347, 0x49f5114a, 0xe1257970,
      0xa831c66d, 0xb73679a2, 0xcde8037d, 0x14383d8e);
    NextVars(state, words, 26,
      0xcde8037d, 0x1c2c2838, 0xc5d53d8d, 0xa7a3623f, 0x14383d8e, 0x2823ef91, 0xaa47c347, 0x49f5114a,
      0xb00327c8, 0xe5bc3909, 0xb62ec4bc, 0xc74c6516);
    NextVars(state, words, 27,
      0xb62ec4bc, 0xcde8037d, 0x1c2c2838, 0xc5d53d8d, 0xc74c6516, 0x14383d8e, 0x2823ef91, 0xaa47c347,
      0xbf597fc7, 0x32663c5b, 0x77d37528, 0xedffbff8);
    NextVars(state, words, 28,
      0x77d37528, 0xb62ec4bc, 0xcde8037d, 0x1c2c2838, 0xedffbff8, 0xc74c6516, 0x14383d8e, 0x2823ef91,
      0xc6e00bf3, 0x9d209d67, 0x363482c9, 0x6112a3b7);
    NextVars(state, words, 29,
      0x363482c9, 0x77d37528, 0xb62ec4bc, 0xcde8037d, 0x6112a3b7, 0xedffbff8, 0xc74c6516, 0x14383d8e,
      0xd5a79147, 0xec8726cb, 0xa0060b30, 0xade79437);
    NextVars(state, words, 30,
      0xa0060b30, 0x363482c9, 0x77d37528, 0xb62ec4bc, 0xade79437, 0x6112a3b7, 0xedffbff8, 0xc74c6516,
      0x06ca6351, 0x702138a4, 0xea992a22, 0x0109ab3a);
    NextVars(state, words, 31,
      0xea992a22, 0xa0060b30, 0x363482c9, 0x77d37528, 0x0109ab3a, 0xade79437, 0x6112a3b7, 0xedffbff8,
      0x14292967, 0xd3b7973b, 0x73b33bf5, 0xba591112);
  }

  lemma Rounds4(state: nat -> Vars<bv32>, words: nat -> bv32)
    requires Turning(state, words) && RowAt(words, 32, WORDS_4) && RoundRow(32, ROUND_4) && state(32) == VARS_4
    ensures state(40) == VARS_5
  {
    NextVars(state, words, 32,
      0x73b33bf5, 0xea992a22, 0xa0060b30, 0x363482c9, 0xba591112, 0x0109ab3a, 0xade79437, 0x6112a3b7,
      0x27b70a85, 0x93f5997f, 0x98e12507, 0x9cd9f5f6);
    NextVars(state, words, 33,
      0x98e12507, 0x73b33bf5, 0xea992a22, 0xa0060b30, 0x9cd9f5f6, 0xba591112, 0x0109ab3a, 0xade79437,
      0x2e1b2138, 0x3b68ba73, 0xfe604df5, 0x59249dd3);
    NextVars(state, words, 34,
      0xfe604df5, 0x98e12507, 0x73b33bf5, 0xea992a22, 0x59249dd3, 0x9cd9f5f6, 0xba591112, 0x0109ab3a,
      0x4d2c6dfc, 0xaff4ffc1, 0xa9a7738c, 0x085f3833);
    NextVars(state, words, 35,
      0xa9a7738c, 0xfe604df5, 0x98e12507, 0x73b33bf5, 0x085f3833, 0x59249dd3, 0x9cd9f5f6, 0xba591112,
      0x53380d13, 0xf10a5c62, 0x65a0cfe4, 0xf4b002d6);
    NextVars(state, words, 36,
      0x65a0cfe4, 0xa9a7738c, 0xfe604df5, 0x98e12507, 0xf4b002d6, 0x085f3833, 0x59249dd3, 0x9cd9f5f6,
      0x650a7354, 0x0a8b3996, 0x41a65cb1, 0x0772a26b);
    NextVars(state, words, 37,
      0x41a65cb1, 0x65a0cfe4, 0xa9a7738c, 0xfe604df5, 0x0772a26b, 0xf4b002d6, 0x085f3833, 0x59249dd3,
      0x766a0abb, 0x72af830a, 0x34df1604, 0xa507a53d);
    NextVars(state, words, 38,
      0x34df1604, 0x41a65cb1, 0x65a0cfe4, 0xa9a7738c, 0xa507a53d, 0x0772a26b, 0xf4b002d6, 0x085f3833,
      0x81c2c92e, 0x9409e33e, 0x6dc57a8a, 0xf0781bc8);
    NextVars(state, words, 39,
      0x6dc57a8a, 0x34df1604, 0x41a65cb1, 0x65a0cfe4, 0xf0781bc8, 0xa507a53d, 0x0772a26b, 0xf4b002d6,
      0x92722c85, 0x24641522, 0x79ea687a, 0x1efbc0a0);
  }

  lemma Rounds5(state: nat -> Vars<bv32>, words: nat -> bv32)
    requires Turning(state, words) && RowAt(words, 40, WORDS_5) && RoundRow(40, ROUND_5) && state(40) == VARS_5
    ensures state(48) == VARS_6
  {
    NextVars(state, words, 40,
      0x79ea687a, 0x6dc57a8a, 0x34df1604, 0x41a65cb1, 0x1efbc0a0, 0xf0781bc8, 0xa507a53d, 0x0772a26b,
      0xa2bfe8a1, 0x9f47bf94, 0xd6670766, 0x26352d63);
    NextVars(state, words, 41,
      0xd6670766, 0x79ea687a, 0x6dc57a8a, 0x34df1604, 0x26352d63, 0x1efbc0a0, 0xf0781bc8, 0xa507a53d,
      0xa81a664b, 0xf0a64f5a, 0xdf46652f, 0x838b2711);
    NextVars(state, words, 42,
      0xdf46652f, 0xd6670766, 0x79ea687a, 0x6dc57a8a, 0x838b2711, 0x26352d63, 0x1efbc0a0, 0xf0781bc8,
      0xc24b8b70, 0x3e246a79, 0x17aa0dfe, 0xdecd4715);
    NextVars(state, words, 43,
      0x17aa0dfe, 0xdf46652f, 0xd6670766, 0x79ea687a, 0xdecd4715, 0x838b2711, 0x26352d63, 0x1efbc0a0,
      0xc76c51a3, 0x27333ba3, 0x9d4baf93, 0xfda24c2e);
    NextVars(state, words, 44,
      0x9d4baf93, 0x17aa0dfe, 0xdf46652f, 0xd6670766, 0xfda24c2e, 0xdecd4715, 0x838b2711, 0x26352d63,
      0xd192e819, 0x0c4763f2, 0x26628815, 0xa80f11f0);
    NextVars(state, words, 45,
      0x26628815, 0x9d4baf93, 0x17aa0dfe, 0xdf46652f, 0xa80f11f0, 0xfda24c2e, 0xdecd4715, 0x838b2711,
      0xd6990624, 0x840abf27, 0x72ab4b91, 0xb7755da1);
    NextVars(state, words, 46,
      0x72ab4b91, 0x26628815, 0x9d4baf93, 0x17aa0dfe, 0xb7755da1, 0xa80f11f0, 0xfda24c2e, 0xdecd4715,
      0xf40e3585, 0x7a290d5d, 0xa14c14b0, 0xd57b94a9);
    NextVars(state, words, 47,
      0xa14c14b0, 0x72ab4b91, 0x26628815, 0x9d4baf93, 0xd57b94a9, 0xb7755da1, 0xa80f11f0, 0xfda24c2e,
      0x106aa070, 0x065c43da, 0x4172328d, 0xfecf0bc6);
  }

  lemma Rounds6(state: nat -> Vars<bv32>, words: nat -> bv32)
    requires Turning(state, words) && RowAt(words, 48, WORDS_6) && RoundRow(48, ROUND_6) && state(48) == VARS_6
    ensures state(56) == VARS_7
  {
    NextVars(state, words, 48,
      0x4172328d, 0xa14c14b0, 0x72ab4b91, 0x26628815, 0xfecf0bc6, 0xd57b94a9, 0xb7755da1, 0xa80f11f0,
      0x19a4c116, 0xfb3e89cb, 0x05757ceb, 0xbd714038);
    NextVars(state, words, 49,
      0x05757ceb, 0x4172328d, 0xa14c14b0, 0x72ab4b91, 0xbd714038, 0xfecf0bc6, 0xd57b94a9, 0xb7755da1,
      0x1e376c08, 0xcc7617db, 0xf11bfaa8, 0x6e5c390c);
    NextVars(state, words, 50,
      0xf11bfaa8, 0x05757ceb, 0x4172328d, 0xa14c14b0, 0x6e5c390c, 0xbd714038, 0xfecf0bc6, 0xd57b94a9,
      0x2748774c, 0xb9e66c34, 0x7a0508a1, 0x52f1ccf7);
    NextVars(state, words, 51,
      0x7a0508a1, 0xf11bfaa8, 0x05757ceb, 0x4172328d, 0x52f1ccf7, 0x6e5c390c, 0xbd714038, 0xfecf0bc6,
      0x34b0bcb5, 0xa9993667, 0x886e7a22, 0x49231c1e);
    NextVars(state, words, 52,
      0x886e7a22, 0x7a0508a1, 0xf11bfaa8, 0x05757ceb, 0x49231c1e, 0x52f1ccf7, 0x6e5c390c, 0xbd714038,
      0x391c0cb3, 0x84badedd, 0x101fd28f, 0x529e7d00);
    NextVars(state, words, 53,
      0x101fd28f, 0x886e7a22, 0x7a0508a1, 0xf11bfaa8, 0x529e7d00, 0x49231c1e, 0x52f1ccf7, 0x6e5c390c,
      0x4ed8aa4a, 0xc21462bc, 0xf5702fdb, 0x9f4787c3);
    NextVars(state, words, 54,
      0xf5702fdb, 0x101fd28f, 0x886e7a22, 0x7a0508a1, 0x9f4787c3, 0x529e7d00, 0x49231c1e, 0x52f1ccf7,
      0x5b9cca4f, 0x1487472c, 0x3ec45cdb, 0xe50e1b4f);
    NextVars(state, words, 55,
      0x3ec45cdb, 0xf5702fdb, 0x101fd28f, 0x886e7a22, 0xe50e1b4f, 0x9f4787c3, 0x529e7d00, 0x49231c1e,
      0x682e6ff3, 0xb20f7a99, 0x38cc9913, 0x54cb266b);
  }

  lemma Rounds7(state: nat -> Vars<bv32>, words: nat -> bv32)
    requires Turning(state, words) && RowAt(words, 56, WORDS_7) && RoundRow(56, ROUND_7) && state(56) == VARS_7
    ensures state(64) == VARS_8
  {
    NextVars(state, words, 56,
      0x38cc9913, 0x3ec45cdb, 0xf5702fdb, 0x101fd28f, 0x54cb266b, 0xe50e1b4f, 0x9f4787c3, 0x529e7d00,
      0x748f82ee, 0xef57b9cd, 0xfcd1887b, 0x9b5e906c);
    NextVars(state, words, 57,
      0xfcd1887b, 0x38cc9913, 0x3ec45cdb, 0xf5702fdb, 0x9b5e906c, 0x54cb266b, 0xe50e1b4f, 0x9f4787c3,
      0x78a5636f, 0xebe6b238, 0xc062d46f, 0x7e44008e);
    NextVars(state, words, 58,
      0xc062d46f, 0xfcd1887b, 0x38cc9913, 0x3ec45cdb, 0x7e44008e, 0x9b5e906c, 0x54cb266b, 0xe50e1b4f,
      0x84c87814, 0x9fe3095e, 0xffb70472, 0x6d83bfc6);
    NextVars(state, words, 59,
      0xffb70472, 0xc062d46f, 0xfcd1887b, 0x38cc9913, 0x6d83bfc6, 0x7e44008e, 0x9b5e906c, 0x54cb266b,
      0x8cc70208, 0x78bc8d4b, 0xb6ae8fff, 0xb21bad3d);
    NextVars(state, words, 60,
      0xb6ae8fff, 0xffb70472, 0xc062d46f, 0xfcd1887b, 0xb21bad3d, 0x6d83bfc6, 0x7e44008e, 0x9b5e906c,
      0x90befffa, 0xa43fcf15, 0xb85e2ce9, 0x961f4894);
    NextVars(state, words, 61,
      0xb85e2ce9, 0xb6ae8fff, 0xffb70472, 0xc062d46f, 0x961f4894, 0xb21bad3d, 0x6d83bfc6, 0x7e44008e,
      0xa4506ceb, 0x668b2ff8, 0x04d24d6c, 0x948d25b6);
    NextVars(state, words, 62,
      0x04d24d6c, 0xb85e2ce9, 0xb6ae8fff, 0xffb70472, 0x948d25b6, 0x961f4894, 0xb21bad3d, 0x6d83bfc6,
      0xbef9a3f7, 0xeeaba2cc, 0xd39a2165, 0xfb121210);
    NextVars(state, words, 63,
      0xd39a2165, 0x04d24d6c, 0xb85e2ce9, 0xb6ae8fff, 0xfb121210, 0x948d25b6, 0x961f4894, 0xb21bad3d,
      0xc67178f2, 0x12b1edeb, 0x506e3058, 0x5ef50f24);
  }

  lemma PaddedAbc()
    ensures Pad(ABC) == [97, 98, 99, 0x80] + Zeros(52) + [0, 0, 0, 0, 0, 0, 0, 24]
  {
    assert BigEndian(24, 8) == [0, 0, 0, 0, 0, 0, 0, 24];
  }

  lemma WordsOfAbc()
    ensures Word(97, 98, 99, 0x80) == 0x61626380
    ensures Word(0, 0, 0, 0) == 0
    ensures Word(0, 0, 0, 24) == 24
  {
    FourBytes(0x61626380, 0x616263, 0x6162, 0x61, 97, 98, 99, 0x80, 4);
    WordOfBytes(0x61626380, 97, 98, 99, 0x80);
    FourBytes(0, 0, 0, 0, 0, 0, 0, 0, 4);
    WordOfBytes(0, 0, 0, 0, 0);
    FourBytes(24, 0, 0, 0, 0, 0, 0, 24, 4);
    WordOfBytes(24, 0, 0, 0, 24);
  }

  lemma FirstWords(block: Bytes, j: nat)
    requires block == Pad(ABC) && j < 16
    ensures |block| == 64
    ensures WordAt(STANDARD, block, j) == if j == 0 then 0x61626380 else if j == 15 then 24 else 0
  {
    PaddedAbc();
    WordsOfAbc();
  }

  function WordsOf(block: Bytes): nat -> bv32
    requires |block| == 64
  {
    (t: nat) => W(STANDARD, block, t)
  }

  lemma Recurrence(block: Bytes, t: nat)
    requires |block| == 64
    ensures Recurs(WordsOf(block), t)
  {
  }

  predicate Opens(words: nat -> bv32, j: nat) {
    words(j) == if j == 0 then 0x61626380 else if j == 15 then 24 else 0
  }

  lemma OpeningRows(words: nat -> bv32)
    requires forall j :: 0 <= j < 16 ==> Opens(words, j)
    ensures RowAt(words, 0, WORDS_0) && RowAt(words, 8, WORDS_1)
  {
    assert Opens(words, 0) && Opens(words, 1) && Opens(words, 2) && Opens(words, 3);
    assert Opens(words, 4) && Opens(words, 5) && Opens(words, 6) && Opens(words, 7);
    assert Opens(words, 8) && Opens(words, 9) && Opens(words, 10) && Opens(words, 11);
    assert Opens(words, 12) && Opens(words, 13) && Opens(words, 14) && Opens(words, 15);
  }

  lemma FirstRows(block: Bytes)
    requires block == Pad(ABC)
    ensures |block| == 64 && RowAt(WordsOf(block), 0, WORDS_0) && RowAt(WordsOf(block), 8, WORDS_1)
  {
    FirstWords(block, 0);
    forall j: nat | j < 16
      ensures Opens(WordsOf(block), j)
    {
      FirstWords(block, j);
    }
    OpeningRows(WordsOf(block));
  }

  lemma AllRows(words: nat -> bv32)
    requires Recurring(words) && RowAt(words, 0, WORDS_0) && RowAt(words, 8, WORDS_1)
    ensures RowAt(words, 16, WORDS_2)
    ensures RowAt(words, 24, WORDS_3)
    ensures RowAt(words, 32, WORDS_4)
    ensures RowAt(words, 40, WORDS_5)
    ensures RowAt(words, 48, WORDS_6)
    ensures RowAt(words, 56, WORDS_7)
  {
    Words2(words);
    Words3(words);
    Words4(words);
    Words5(words);
    Words6(words);
    Words7(words);
  }

  lemma AllRounds(state: nat -> Vars<bv32>, words: nat -> bv32)
    requires Turning(state, words) && Recurring(words) && RowAt(words, 0, WORDS_0) && RowAt(words, 8, WORDS_1)
    requires state(0) == VARS_0
    ensures state(64) == VARS_8
  {
    AllRows(words);
    RoundRows();
    Rounds0(state, words);
    Rounds1(state, words);
    Rounds2(state, words);
    Rounds3(state, words);
    Rounds4(state, words);
    Rounds5(state, words);
    Rounds6(state, words);
    Rounds7(state, words);
  }

  function StateOf(block: Bytes): nat -> Vars<bv32>
    requires |block| == 64 == |ROUND|
  {
    (t: nat) => if t <= 64 then Rounds(STANDARD, Schedule(STANDARD, block), VarsOf(INITIAL), t) else VarsOf(INITIAL)
  }

  lemma OneRound(block: Bytes, t: nat)
    requires |block| == 64 == |ROUND| && t < 64
    ensures Turns(StateOf(block), WordsOf(block), t)
  {
    assert Schedule(STANDARD, block)[t] == W(STANDARD, block, t);
  }

  lemma RoundsOfAbc(block: Bytes)
    requires block == Pad(ABC)
    ensures |block| == 64 == |ROUND| && StateOf(block)(64) == VARS_8
  {
    FirstRows(block);
    StandardSized();
    forall t: nat
      ensures Recurs(WordsOf(block), t)
    {
      Recurrence(block, t);
    }
    forall t: nat | t < 64
      ensures Turns(StateOf(block), WordsOf(block), t)
    {
      OneRound(block, t);
    }
    AllRounds(StateOf(block), WordsOf(block));
  }

  const HASH: seq<bv32> := [
    0xba7816bf, 0x8f01cfea, 0x414140de, 0x5dae2223, 0xb00361a3, 0x96177a9c, 0xb410ff61, 0xf20015ad]

  lemma Sums()
    ensures Add(0x6a09e667, 0x506e3058) == 0xba7816bf
    ensures Add(0xbb67ae85, 0xd39a2165) == 0x8f01cfea
    ensures Add(0x3c6ef372, 0x04d24d6c) == 0x414140de
    ensures Add(0xa54ff53a, 0xb85e2ce9) == 0x5dae2223
    ensures Add(0x510e527f, 0x5ef50f24) == 0xb00361a3
    ensures Add(0x9b05688c, 0xfb121210) == 0x96177a9c
    ensures Add(0x1f83d9ab, 0x948d25b6) == 0xb410ff61
    ensures Add(0x5be0cd19, 0x961f4894) == 0xf20015ad
  {
  }

  lemma HashOfAbc(block: Bytes)
    requires block == Pad(ABC)
    ensures |block| == 64 && Sized(STANDARD) && Compress(STANDARD, INITIAL, block) == HASH
  {
    RoundsOfAbc(block);
    StandardSized();
    Sums();
  }

  lemma OneBlock(padded: Bytes, n: nat)
    requires Sized(STANDARD) && |padded| == 64 && n == 1
    ensures Hash(STANDARD, padded, n) == Compress(STANDARD, INITIAL, padded)
  {
    assert Block(padded, 0) == padded;
    assert Hash(STANDARD, padded, n - 1) == INITIAL;
  }

  /** The bytes of the four words from word `n` on. */
  function BytesOfFour(words: seq<bv32>, n: nat): Bytes
    requires n + 4 <= |words|
  {
    WordBytes(words[n]) + WordBytes(words[n + 1]) + WordBytes(words[n + 2]) + WordBytes(words[n + 3])
  }

  lemma LastWord(words: seq<bv32>, w: bv32)
    ensures AllBytes(STANDARD, words + [w]) == AllBytes(STANDARD, words) + WordBytes(w)
  {
    assert (words + [w])[..|words|] == words;
  }

  lemma LastOf(words: seq<bv32>, n: nat)
    requires n < |words|
    ensures AllBytes(STANDARD, words[..n + 1]) == AllBytes(STANDARD, words[..n]) + WordBytes(words[n])
  {
    assert words[..n + 1] == words[..n] + [words[n]];
    LastWord(words[..n], words[n]);
  }

  const PART_0: Bytes := [0xba, 0x78, 0x16, 0xbf, 0x8f, 0x01, 0xcf, 0xea]
  const PART_1: Bytes := [0x41, 0x41, 0x40, 0xde, 0x5d, 0xae, 0x22, 0x23]
  const PART_2: Bytes := [0xb0, 0x03, 0x61, 0xa3, 0x96, 0x17, 0x7a, 0x9c]
  const PART_3: Bytes := [0xb4, 0x10, 0xff, 0x61, 0xf2, 0x00, 0x15, 0xad]

  lemma BytesOfHash0()
    ensures BytesOfFour(HASH, 0) == PART_0 + PART_1
  {
    FourBytes(0xba7816bf, 0xba7816, 0xba78, 0xba, 0xba, 0x78, 0x16, 0xbf, 4);
    FourBytes(0x8f01cfea, 0x8f01cf, 0x8f01, 0x8f, 0x8f, 0x01, 0xcf, 0xea, 4);
    FourBytes(0x414140de, 0x414140, 0x4141, 0x41, 0x41, 0x41, 0x40, 0xde, 4);
    FourBytes(0x5dae2223, 0x5dae22, 0x5dae, 0x5d, 0x5d, 0xae, 0x22, 0x23, 4);
  }

  lemma BytesOfHash1()
    ensures BytesOfFour(HASH, 4) == PART_2 + PART_3
  {
    FourBytes(0xb00361a3, 0xb00361, 0xb003, 0xb0, 0xb0, 0x03, 0x61, 0xa3, 4);
    FourBytes(0x96177a9c, 0x96177a, 0x9617, 0x96, 0x96, 0x17, 0x7a, 0x9c, 4);
    FourBytes(0xb410ff61, 0xb410ff, 0xb410, 0xb4, 0xb4, 0x10, 0xff, 0x61, 4);
    FourBytes(0xf20015ad, 0xf20015, 0xf200, 0xf2, 0xf2, 0x00, 0x15, 0xad, 4);
  }

  function Front(words: seq<bv32>): nat -> Bytes {
    (n: nat) => if n <= |words| then AllBytes(STANDARD, words[..n]) else []
  }

  predicate Grows(words: seq<bv32>, all: nat -> Bytes) {
    all(0) == [] && forall n :: 0 <= n < |words| ==> all(n + 1) == all(n) + WordBytes(words[n])
  }

  lemma Joined(s0: Bytes, s1: Bytes, s2: Bytes, s3: Bytes, s4: Bytes, w0: Bytes, w1: Bytes, w2: Bytes, w3: Bytes)
    requires s1 == s0 + w0 && s2 == s1 + w1 && s3 == s2 + w2 && s4 == s3 + w3
    ensures s4 == s0 + (w0 + w1 + w2 + w3)
  {
  }

  lemma Grown(words: seq<bv32>, all: nat -> Bytes, n: nat, next: nat)
    requires Grows(words, all) && n < |words| && next == n + 1
    ensures all(next) == all(n) + WordBytes(words[n])
  {
  }

  lemma FourWords(words: seq<bv32>, all: nat -> Bytes, n: nat)
    requires n + 4 <= |words| && Grows(words, all)
    ensures all(n + 4) == all(n) + BytesOfFour(words, n)
  {
    Grown(words, all, n, n + 1);
    Grown(words, all, n + 1, n + 2);
    Grown(words, all, n + 2, n + 3);
    Grown(words, all, n + 3, n + 4);
    Joined(all(n), all(n + 1), all(n + 2), all(n + 3), all(n + 4),
      WordBytes(words[n]), WordBytes(words[n + 1]), WordBytes(words[n + 2]), WordBytes(words[n + 3]));
  }

  lemma TwoHalves(words: seq<bv32>, all: nat -> Bytes)
    requires |words| == 8 && Grows(words, all)
    ensures all(8) == BytesOfFour(words, 0) + BytesOfFour(words, 4)
  {
    FourWords(words, all, 0);
    FourWords(words, all, 4);
  }

  lemma FrontGrows(words: seq<bv32>)
    ensures Grows(words, Front(words))
  {
    forall n: nat | n < |words|
      ensures Front(words)(n + 1) == Front(words)(n) + WordBytes(words[n])
    {
      LastOf(words, n);
    }
  }

  lemma Whole<T>(s: seq<T>)
    ensures s[..|s|] == s
  {
  }

  lemma EightWords(words: seq<bv32>, n: nat)
    requires |words| == n == 8
    ensures AllBytes(STANDARD, words) == BytesOfFour(words, 0) + BytesOfFour(words, 4)
  {
    FrontGrows(words);
    TwoHalves(words, Front(words));
    Whole(words);
    assert Front(words)(n) == AllBytes(STANDARD, words);
  }

  /** The digest of "abc". */
  lemma DigestOfAbc()
    ensures Digest(ABC) == (PART_0 + PART_1) + (PART_2 + PART_3)
  {
    var padded := Pad(ABC);
    HashOfAbc(padded);
    OneBlock(padded, |padded| / 64);
    EightWords(HASH, 8);
    BytesOfHash0();
    BytesOfHash1();
  }

  lemma HexConcat(a: Bytes, b: Bytes)
    ensures Hex(a + b) == Hex(a) + Hex(b)
  {
    if b == [] {
      assert a + b == a;
    } else {
      var front := b[..|b| - 1];
      assert (a + b)[..|a + b| - 1] == a + front;
      HexConcat(a, front);
    }
  }

  lemma HexOfFour(a: byte, b: byte, c: byte, d: byte)
    ensures Hex([a, b, c, d]) == HexPair(a) + HexPair(b) + HexPair(c) + HexPair(d)
  {
    HexOfOne(a);
    HexOfOne(b);
    HexOfOne(c);
    HexOfOne(d);
    HexConcat([a], [b]);
    HexConcat([a, b], [c]);
    HexConcat([a, b, c], [d]);
    assert [a] + [b] == [a, b] && [a, b] + [c] == [a, b, c] && [a, b, c] + [d] == [a, b, c, d];
  }

  lemma HexOfOne(a: byte)
    ensures Hex([a]) == HexPair(a)
  {
    assert [a][..0] == [];
  }

  lemma HexOfEight(a: byte, b: byte, c: byte, d: byte, e: byte, f: byte, g: byte, h: byte)
    ensures Hex([a, b, c, d, e, f, g, h]) ==
            HexPair(a) + HexPair(b) + HexPair(c) + HexPair(d) + (HexPair(e) + HexPair(f) + HexPair(g) + HexPair(h))
  {
    HexOfFour(a, b, c, d);
    HexOfFour(e, f, g, h);
    HexConcat([a, b, c, d], [e, f, g, h]);
    assert [a, b, c, d] + [e, f, g, h] == [a, b, c, d, e, f, g, h];
  }

  lemma HexOfAbc0()
    ensures Hex(PART_0) == "ba7816bf8f01cfea"
  {
    HexOfEight(0xba, 0x78, 0x16, 0xbf, 0x8f, 0x01, 0xcf, 0xea);
  }

  lemma HexOfAbc1()
    ensures Hex(PART_1) == "414140de5dae2223"
  {
    HexOfEight(0x41, 0x41, 0x40, 0xde, 0x5d, 0xae, 0x22, 0x23);
  }

  lemma HexOfAbc2()
    ensures Hex(PART_2) == "b00361a396177a9c"
  {
    HexOfEight(0xb0, 0x03, 0x61, 0xa3, 0x96, 0x17, 0x7a, 0x9c);
  }

  lemma HexOfAbc3()
    ensures Hex(PART_3) == "b410ff61f20015ad"
  {
    HexOfEight(0xb4, 0x10, 0xff, 0x61, 0xf2, 0x00, 0x15, 0xad);
  }

  lemma HexOfParts(a: Bytes, b: Bytes, c: Bytes, d: Bytes)
    ensures Hex((a + b) + (c + d)) == (Hex(a) + Hex(b)) + (Hex(c) + Hex(d))
  {
    HexConcat(a + b, c + d);
    HexConcat(a, b);
    HexConcat(c, d);
  }

  /** The vector that the repository tests its own digest with. */
  lemma HexOfAbc()
    ensures Hex(Digest(ABC)) == ("ba7816bf8f01cfea" + "414140de5dae2223") + ("b00361a396177a9c" + "b410ff61f20015ad")
  {
    DigestOfAbc();
    HexOfAbc0();
    HexOfAbc1();
    HexOfAbc2();
    HexOfAbc3();
    HexOfParts(PART_0, PART_1, PART_2, PART_3);
  }
}
