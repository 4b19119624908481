// SHA-256 as FIPS 180-4 defines it: padding (section 5.1.1), parsing into blocks
// (5.2.1), the functions and constants (4.1.2, 4.2.2, 5.3.3) and the hash
// computation (6.2.2). The computation is stated over any word arithmetic, of which
// the standard's is one.

module Fips180 {
  import opened Wrappers

  // ------------------------------------------------------------------- numbers

  const TWO_64: nat := 0x1_0000_0000_0000_0000

  /** The low `width` bytes of a number, most significant first. */
  function BigEndian(n: nat, width: nat): (s: Bytes)
    ensures |s| == width
  {
    if width == 0 then [] else BigEndian(n / 256, width - 1) + [(n % 256) as byte]
  }

  function FromBigEndian(s: Bytes): (n: nat)
    ensures n < Power256(|s|)
  {
    if s == [] then 0 else 256 * FromBigEndian(s[..|s| - 1]) + s[|s| - 1] as nat
  }

  function Power256(width: nat): (p: nat)
    ensures p > 0
  {
    if width == 0 then 1 else 256 * Power256(width - 1)
  }

  lemma {:induction false} BigEndianRoundTrip(n: nat, width: nat)
    requires n < Power256(width)
    ensures FromBigEndian(BigEndian(n, width)) == n
  {
    if width > 0 {
      var front := BigEndian(n / 256, width - 1);
      BigEndianRoundTrip(n / 256, width - 1);
      assert (front + [(n % 256) as byte])[..|front|] == front;
    }
  }

  lemma Power256Of8()
    ensures Power256(8) == TWO_64
  {
    assert Power256(2) == 0x1_0000;
    assert Power256(4) == 0x1_0000_0000;
    assert Power256(6) == 0x1_0000_0000_0000;
  }

  /** Unsigned 64-bit wrap-around. */
  function Wrap64(n: nat): (r: nat)
    ensures r < TWO_64
    ensures n < TWO_64 ==> r == n
  {
    n % TWO_64
  }

  /** A count below 2^64 as eight bytes. */
  function Length64(n: nat): (s: Bytes)
    ensures |s| == 8
  {
    BigEndian(Wrap64(n), 8)
  }

  lemma Length64RoundTrip(n: nat)
    requires n < TWO_64
    ensures FromBigEndian(Length64(n)) == n
  {
    Power256Of8();
    BigEndianRoundTrip(Wrap64(n), 8);
  }

  // ------------------------------------------------------------------- padding

  function Zeros(n: nat): (s: Bytes)
    ensures |s| == n && forall i :: 0 <= i < n ==> s[i] == 0
  {
    seq(n, _ => 0)
  }

  /** The number of zero bytes between the marker and the length. */
  function ZeroCount(length: nat): (k: nat)
    ensures k < 64
  {
    (55 - length) % 64
  }

  /** The padded message. The length in bits is written modulo 2^64. */
  function Pad(message: Bytes): Bytes {
    message + [0x80] + Zeros(ZeroCount(|message|)) + Length64(8 * |message|)
  }

  lemma ZerosFill(length: nat, k: nat)
    ensures (length + 1 + ZeroCount(length) + 8) % 64 == 0
    ensures (length + 1 + k + 8) % 64 == 0 ==> ZeroCount(length) <= k
  {
  }

  lemma PadEnds(message: Bytes)
    ensures |Pad(message)| == |message| + 1 + ZeroCount(|message|) + 8
    ensures message + [0x80] <= Pad(message)
    ensures Pad(message)[|Pad(message)| - 8..] == Length64(8 * |message|)
  {
    var front := message + [0x80] + Zeros(ZeroCount(|message|));
    assert Pad(message) == front + Length64(8 * |message|);
    assert Pad(message)[|front|..] == Length64(8 * |message|);
  }

  /** Below 2^64 bits this is the padding of section 5.1.1: whole blocks, as few as
      possible, ending in the exact length. */
  lemma PadMeetsStandard(message: Bytes, k: nat)
    ensures |Pad(message)| % 64 == 0
    ensures (|message| + 1 + k + 8) % 64 == 0 ==> |Pad(message)| <= |message| + 1 + k + 8
    ensures message + [0x80] <= Pad(message)
    ensures 8 * |message| < TWO_64 ==> FromBigEndian(Pad(message)[|Pad(message)| - 8..]) == 8 * |message|
  {
    ZerosFill(|message|, k);
    PadEnds(message);
    if 8 * |message| < TWO_64 {
      Length64RoundTrip(8 * |message|);
    }
  }

  lemma PadTail(message: Bytes, i: nat)
    requires |message| <= i < |Pad(message)| - 8
    ensures Pad(message)[i] == if i == |message| then 0x80 else 0
  {
  }

  /** Different messages have different paddings, whatever their length. */
  lemma PadInjective(a: Bytes, b: Bytes)
    requires Pad(a) == Pad(b)
    ensures a == b
  {
    PadTail(a, |a|);
    PadTail(b, |b|);
    if |a| < |b| {
      PadTail(a, |b|);
    } else if |b| < |a| {
      PadTail(b, |a|);
    } else {
      assert a == Pad(a)[..|a|] && b == Pad(b)[..|b|];
    }
  }

  // ----------------------------------------------------------- the computation

  /** The operations on words that the computation is built from. */
  datatype Arithmetic<!T> = Arithmetic(
    initial: seq<T>, round: seq<T>, word: (byte, byte, byte, byte) -> T, bytes: T -> Bytes,
    add: (T, T) -> T, sum4: (T, T, T, T) -> T, ch: (T, T, T) -> T, maj: (T, T, T) -> T,
    bigSigma0: T -> T, bigSigma1: T -> T, smallSigma0: T -> T, smallSigma1: T -> T)

  predicate Sized<T>(ar: Arithmetic<T>) {
    |ar.initial| == 8 && |ar.round| == 64
  }

  function WordAt<T>(ar: Arithmetic<T>, s: Bytes, i: nat): T
    requires 4 * i + 4 <= |s|
  {
    ar.word(s[4 * i], s[4 * i + 1], s[4 * i + 2], s[4 * i + 3])
  }

  /** The message schedule of a 64-byte block. */
  function W<T>(ar: Arithmetic<T>, block: Bytes, t: nat): T
    requires |block| == 64
  {
    if t < 16 then WordAt(ar, block, t)
    else ar.sum4(ar.smallSigma1(W(ar, block, t - 2)), W(ar, block, t - 7),
              ar.smallSigma0(W(ar, block, t - 15)), W(ar, block, t - 16))
  }

  function Schedule<T>(ar: Arithmetic<T>, block: Bytes): seq<T>
    requires |block| == 64
  {
    seq(64, t requires 0 <= t => W(ar, block, t))
  }

  datatype Vars<T> = Vars(a: T, b: T, c: T, d: T, e: T, f: T, g: T, h: T)

  function Round<T>(ar: Arithmetic<T>, v: Vars<T>, k: T, w: T): Vars<T> {
    var t1 := ar.add(ar.sum4(v.h, ar.bigSigma1(v.e), ar.ch(v.e, v.f, v.g), k), w);
    var t2 := ar.add(ar.bigSigma0(v.a), ar.maj(v.a, v.b, v.c));
    Vars(ar.add(t1, t2), v.a, v.b, v.c, ar.add(v.d, t1), v.e, v.f, v.g)
  }

  function Rounds<T>(ar: Arithmetic<T>, schedule: seq<T>, v: Vars<T>, t: nat): Vars<T>
    requires t <= |ar.round| <= |schedule|
  {
    if t == 0 then v else Round(ar, Rounds(ar, schedule, v, t - 1), ar.round[t - 1], schedule[t - 1])
  }

  function VarsOf<T>(s: seq<T>): Vars<T>
    requires |s| == 8
  {
    Vars(s[0], s[1], s[2], s[3], s[4], s[5], s[6], s[7])
  }

  function Words<T>(v: Vars<T>): seq<T> {
    [v.a, v.b, v.c, v.d, v.e, v.f, v.g, v.h]
  }

  function Compress<T>(ar: Arithmetic<T>, h: seq<T>, block: Bytes): (r: seq<T>)
    requires Sized(ar) && |h| == 8 && |block| == 64
    ensures |r| == 8
  {
    var words := Words(Rounds(ar, Schedule(ar, block), VarsOf(h), |ar.round|));
    seq(8, i requires 0 <= i < 8 => ar.add(h[i], words[i]))
  }

  function Block(padded: Bytes, n: nat): (block: Bytes)
    requires 64 * n + 64 <= |padded|
    ensures |block| == 64
  {
    padded[64 * n..64 * n + 64]
  }

  /** The hash value after the first `n` blocks. */
  function Hash<T>(ar: Arithmetic<T>, padded: Bytes, n: nat): (h: seq<T>)
    requires Sized(ar) && 64 * n <= |padded|
    ensures |h| == 8
  {
    if n == 0 then ar.initial else Compress(ar, Hash(ar, padded, n - 1), Block(padded, n - 1))
  }

  function AllBytes<T>(ar: Arithmetic<T>, words: seq<T>): Bytes {
    if words == [] then [] else AllBytes(ar, words[..|words| - 1]) + ar.bytes(words[|words| - 1])
  }

  function DigestIn<T>(ar: Arithmetic<T>, message: Bytes): Bytes
    requires Sized(ar)
  {
    AllBytes(ar, Hash(ar, Pad(message), |Pad(message)| / 64))
  }

  // ----------------------------------------------------- the standard's arithmetic

  const INITIAL: seq<bv32> := [
    0x6a09e667, 0xbb67ae85, 0x3c6ef372, 0xa54ff53a, 0x510e527f, 0x9b05688c, 0x1f83d9ab, 0x5be0cd19]

  const ROUND_0: seq<bv32> := [
    0x428a2f98, 0x71374491, 0xb5c0fbcf, 0xe9b5dba5, 0x3956c25b, 0x59f111f1, 0x923f82a4, 0xab1c5ed5]
  const ROUND_1: seq<bv32> := [
    0xd807aa98, 0x12835b01, 0x243185be, 0x550c7dc3, 0x72be5d74, 0x80deb1fe, 0x9bdc06a7, 0xc19bf174]
  const ROUND_2: seq<bv32> := [
    0xe49b69c1, 0xefbe4786, 0x0fc19dc6, 0x240ca1cc, 0x2de92c6f, 0x4a7484aa, 0x5cb0a9dc, 0x76f988da]
  const ROUND_3: seq<bv32> := [
    0x983e5152, 0xa831c66d, 0xb00327c8, 0xbf597fc7, 0xc6e00bf3, 0xd5a79147, 0x06ca6351, 0x14292967]
  const ROUND_4: seq<bv32> := [
    0x27b70a85, 0x2e1b2138, 0x4d2c6dfc, 0x53380d13, 0x650a7354, 0x766a0abb, 0x81c2c92e, 0x92722c85]
  const ROUND_5: seq<bv32> := [
    0xa2bfe8a1, 0xa81a664b, 0xc24b8b70, 0xc76c51a3, 0xd192e819, 0xd6990624, 0xf40e3585, 0x106aa070]
  const ROUND_6: seq<bv32> := [
    0x19a4c116, 0x1e376c08, 0x2748774c, 0x34b0bcb5, 0x391c0cb3, 0x4ed8aa4a, 0x5b9cca4f, 0x682e6ff3]
  const ROUND_7: seq<bv32> := [
    0x748f82ee, 0x78a5636f, 0x84c87814, 0x8cc70208, 0x90befffa, 0xa4506ceb, 0xbef9a3f7, 0xc67178f2]

  const ROUND: seq<bv32> := ROUND_0 + ROUND_1 + ROUND_2 + ROUND_3 + ROUND_4 + ROUND_5 + ROUND_6 + ROUND_7

  /** A word from its bytes, most significant first. */
  function Word(a: byte, b: byte, c: byte, d: byte): bv32 {
    assert Power256(4) == 0x1_0000_0000;
    FromBigEndian([a, b, c, d]) as bv32
  }

  function WordBytes(w: bv32): (s: Bytes)
    ensures |s| == 4
  {
    BigEndian(w as nat, 4)
  }

  // A rotation by n is (x >> n) | (x << 32 - n), section 3.2.

  function Add(x: bv32, y: bv32): bv32 {
    x + y
  }

  function Sum4(a: bv32, b: bv32, c: bv32, d: bv32): bv32 {
    a + b + c + d
  }

  function Ch(x: bv32, y: bv32, z: bv32): bv32 {
    (x & y) ^ ((!x) & z)
  }

  function Maj(x: bv32, y: bv32, z: bv32): bv32 {
    (x & y) ^ (x & z) ^ (y & z)
  }

  function BigSigma0(x: bv32): bv32 {
    ((x >> 2) | (x << 30)) ^ ((x >> 13) | (x << 19)) ^ ((x >> 22) | (x << 10))
  }

  function BigSigma1(x: bv32): bv32 {
    ((x >> 6) | (x << 26)) ^ ((x >> 11) | (x << 21)) ^ ((x >> 25) | (x << 7))
  }

  function SmallSigma0(x: bv32): bv32 {
    ((x >> 7) | (x << 25)) ^ ((x >> 18) | (x << 14)) ^ (x >> 3)
  }

  function SmallSigma1(x: bv32): bv32 {
    ((x >> 17) | (x << 15)) ^ ((x >> 19) | (x << 13)) ^ (x >> 10)
  }

  const STANDARD: Arithmetic<bv32> := Arithmetic(
    INITIAL, ROUND, Word, WordBytes, Add, Sum4, Ch, Maj, BigSigma0, BigSigma1, SmallSigma0, SmallSigma1)

  lemma StandardSized()
    ensures Sized(STANDARD)
  {
    assert |INITIAL| == 8;
    assert |ROUND| == 64;
  }

  function Digest(message: Bytes): Bytes {
    StandardSized();
    DigestIn(STANDARD, message)
  }
}
