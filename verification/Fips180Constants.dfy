// The constants and functions of FIPS 180-4 by what they mean: sections 4.1.2, 4.2.2 and
// 5.3.3.

module Fips180Constants {
  import opened Wrappers
  import opened Fips180

  // The first 64 primes.

  const PRIMES_0: seq<nat> := [2, 3, 5, 7, 11, 13, 17, 19]
  const PRIMES_1: seq<nat> := [23, 29, 31, 37, 41, 43, 47, 53]
  const PRIMES_2: seq<nat> := [59, 61, 67, 71, 73, 79, 83, 89]
  const PRIMES_3: seq<nat> := [97, 101, 103, 107, 109, 113, 127, 131]
  const PRIMES_4: seq<nat> := [137, 139, 149, 151, 157, 163, 167, 173]
  const PRIMES_5: seq<nat> := [179, 181, 191, 193, 197, 199, 211, 223]
  const PRIMES_6: seq<nat> := [227, 229, 233, 239, 241, 251, 257, 263]
  const PRIMES_7: seq<nat> := [269, 271, 277, 281, 283, 293, 307, 311]

  // The whole parts of their cube roots.

  const WHOLE_0: seq<nat> := [1, 1, 1, 1, 2, 2, 2, 2]
  const WHOLE_1: seq<nat> := [2, 3, 3, 3, 3, 3, 3, 3]
  const WHOLE_2: seq<nat> := [3, 3, 4, 4, 4, 4, 4, 4]
  const WHOLE_3: seq<nat> := [4, 4, 4, 4, 4, 4, 5, 5]
  const WHOLE_4: seq<nat> := [5, 5, 5, 5, 5, 5, 5, 5]
  const WHOLE_5: seq<nat> := [5, 5, 5, 5, 5, 5, 5, 6]
  const WHOLE_6: seq<nat> := [6, 6, 6, 6, 6, 6, 6, 6]
  const WHOLE_7: seq<nat> := [6, 6, 6, 6, 6, 6, 6, 6]

  const PRIMES: seq<nat> := PRIMES_0 + PRIMES_1 + PRIMES_2 + PRIMES_3 + PRIMES_4 + PRIMES_5 + PRIMES_6 + PRIMES_7
  const WHOLE: seq<nat> := WHOLE_0 + WHOLE_1 + WHOLE_2 + WHOLE_3 + WHOLE_4 + WHOLE_5 + WHOLE_6 + WHOLE_7

  const TWO_32: nat := 0x1_0000_0000

  function Square(n: nat): nat {
    n * n
  }

  function Cube(n: nat): nat {
    n * n * n
  }

  /** The first 32 bits of the fractional part of the square root of `p`, whose whole part
      is `whole`. */
  predicate RootBits(p: nat, whole: nat, bits: nat) {
    && Square(whole) <= p < Square(whole + 1) && bits < TWO_32
    && Square(whole * TWO_32 + bits) <= p * TWO_32 * TWO_32 < Square(whole * TWO_32 + bits + 1)
  }

  /** The same of the cube root. */
  predicate CubeRootBits(p: nat, whole: nat, bits: nat) {
    && Cube(whole) <= p < Cube(whole + 1) && bits < TWO_32
    && Cube(whole * TWO_32 + bits) <= p * TWO_32 * TWO_32 * TWO_32 < Cube(whole * TWO_32 + bits + 1)
  }

  lemma Eight(j: nat)
    requires j < 8
    ensures j == 0 || j == 1 || j == 2 || j == 3 || j == 4 || j == 5 || j == 6 || j == 7
  {
  }

  /** The initial hash value is made of square roots of the first eight primes. */
  lemma InitialWords(j: nat)
    requires j < 8
    ensures RootBits(PRIMES_0[j], [1, 1, 2, 2, 3, 3, 4, 4][j], INITIAL[j] as nat)
  {
    Eight(j);
  }

  lemma Row0(j: nat)
    requires j < 8
    ensures CubeRootBits(PRIMES_0[j], WHOLE_0[j], ROUND_0[j] as nat)
  {
    Eight(j);
  }

  lemma Row1(j: nat)
    requires j < 8
    ensures CubeRootBits(PRIMES_1[j], WHOLE_1[j], ROUND_1[j] as nat)
  {
    Eight(j);
  }

  lemma Row2(j: nat)
    requires j < 8
    ensures CubeRootBits(PRIMES_2[j], WHOLE_2[j], ROUND_2[j] as nat)
  {
    Eight(j);
  }

  lemma Row3(j: nat)
    requires j < 8
    ensures CubeRootBits(PRIMES_3[j], WHOLE_3[j], ROUND_3[j] as nat)
  {
    Eight(j);
  }

  lemma Row4(j: nat)
    requires j < 8
    ensures CubeRootBits(PRIMES_4[j], WHOLE_4[j], ROUND_4[j] as nat)
  {
    Eight(j);
  }

  lemma Row5(j: nat)
    requires j < 8
    ensures CubeRootBits(PRIMES_5[j], WHOLE_5[j], ROUND_5[j] as nat)
  {
    Eight(j);
  }

  lemma Row6(j: nat)
    requires j < 8
    ensures CubeRootBits(PRIMES_6[j], WHOLE_6[j], ROUND_6[j] as nat)
  {
    Eight(j);
  }

  lemma Row7(j: nat)
    requires j < 8
    ensures CubeRootBits(PRIMES_7[j], WHOLE_7[j], ROUND_7[j] as nat)
  {
    Eight(j);
  }

  lemma RowItem<T>(a0: seq<T>, a1: seq<T>, a2: seq<T>, a3: seq<T>, a4: seq<T>, a5: seq<T>, a6: seq<T>, a7: seq<T>, i: nat)
    requires |a0| == |a1| == |a2| == |a3| == |a4| == |a5| == |a6| == |a7| == 8 && i < 64
    ensures (a0 + a1 + a2 + a3 + a4 + a5 + a6 + a7)[i] ==
            if i < 8 then a0[i]
            else if i < 16 then a1[i - 8]
            else if i < 24 then a2[i - 16]
            else if i < 32 then a3[i - 24]
            else if i < 40 then a4[i - 32]
            else if i < 48 then a5[i - 40]
            else if i < 56 then a6[i - 48]
            else a7[i - 56]
  {
  }

  /** The round constants are made of cube roots of the first 64 primes. */
  lemma RoundWords(i: nat)
    requires i < 64
    ensures |PRIMES| == |WHOLE| == |ROUND| == 64 && CubeRootBits(PRIMES[i], WHOLE[i], ROUND[i] as nat)
  {
    RowItem(PRIMES_0, PRIMES_1, PRIMES_2, PRIMES_3, PRIMES_4, PRIMES_5, PRIMES_6, PRIMES_7, i);
    RowItem(WHOLE_0, WHOLE_1, WHOLE_2, WHOLE_3, WHOLE_4, WHOLE_5, WHOLE_6, WHOLE_7, i);
    RowItem(ROUND_0, ROUND_1, ROUND_2, ROUND_3, ROUND_4, ROUND_5, ROUND_6, ROUND_7, i);
    if i < 8 {
      Row0(i);
    } else if i < 16 {
      Row1(i - 8);
    } else if i < 24 {
      Row2(i - 16);
    } else if i < 32 {
      Row3(i - 24);
    } else if i < 40 {
      Row4(i - 32);
    } else if i < 48 {
      Row5(i - 40);
    } else if i < 56 {
      Row6(i - 48);
    } else {
      Row7(i - 56);
    }
  }

  // ------------------------------------------------------------------- functions

  /** `Ch` takes the second word where the first has ones, and the third elsewhere. */
  lemma ChoiceBits(x: bv32, y: bv32, z: bv32)
    ensures Ch(x, y, z) & x == y & x
    ensures Ch(x, y, z) & !x == z & !x
  {
  }

  /** `Maj` takes what two words agree on, and the third where they differ. */
  lemma MajorityBits(x: bv32, y: bv32, z: bv32)
    ensures Maj(x, y, z) & !(x ^ y) == x & !(x ^ y)
    ensures Maj(x, y, z) & (x ^ y) == z & (x ^ y)
  {
  }

  // ------------------------------------------------------------------- words

  /** The bytes of a word have its value. */
  lemma BytesOfWord(w: bv32)
    ensures FromBigEndian(WordBytes(w)) == w as nat
  {
    assert Power256(4) == 0x1_0000_0000;
    BigEndianRoundTrip(w as nat, 4);
  }

  lemma Converted(n: nat, w: bv32)
    requires w as nat == n
    ensures n as bv32 == w
  {
  }

  /** A word is put together from its own bytes. */
  lemma WordOfBytes(w: bv32, a: byte, b: byte, c: byte, d: byte)
    requires WordBytes(w) == [a, b, c, d]
    ensures Word(a, b, c, d) == w
  {
    BytesOfWord(w);
    Converted(w as nat, w);
  }

  lemma LastByte(n: nat, width: nat, rest: nat, low: byte)
    requires width > 0 && low as nat == n % 256 && rest == n / 256
    ensures BigEndian(n, width) == BigEndian(rest, width - 1) + [low]
  {
  }

  lemma FourBytes(n0: nat, n1: nat, n2: nat, n3: nat, a: byte, b: byte, c: byte, d: byte, width: nat)
    requires width == 4
    requires n0 / 256 == n1 && n1 / 256 == n2 && n2 / 256 == n3
    requires n0 % 256 == d as nat && n1 % 256 == c as nat && n2 % 256 == b as nat && n3 % 256 == a as nat
    ensures BigEndian(n0, width) == [a, b, c, d]
  {
    LastByte(n0, width, n1, d);
    LastByte(n1, width - 1, n2, c);
    LastByte(n2, width - 2, n3, b);
    LastByte(n3, width - 3, n3 / 256, a);
    var none := width - 4;
    assert BigEndian(n3 / 256, none) == [];
  }
}
