// The hand-written SHA-256 of crates/conformance/src/integrity.rs computes the
// standard's function.

module Sha256 {
  import opened Wrappers
  import opened Text
  import opened Fips180

  // ------------------------------------------------ the arithmetic of the program

  function Sum0(a: bv32): bv32 {
    a.RotateRight(2) ^ a.RotateRight(13) ^ a.RotateRight(22)
  }

  function Sum1(e: bv32): bv32 {
    e.RotateRight(6) ^ e.RotateRight(11) ^ e.RotateRight(25)
  }

  function S0(x: bv32): bv32 {
    x.RotateRight(7) ^ x.RotateRight(18) ^ (x >> 3)
  }

  function S1(x: bv32): bv32 {
    x.RotateRight(17) ^ x.RotateRight(19) ^ (x >> 10)
  }

  const PROGRAM: Arithmetic<bv32> := Arithmetic(
    INITIAL, ROUND, Word, WordBytes, Add, Sum4, Ch, Maj, Sum0, Sum1, S0, S1)

  /** The same arithmetic, function by function. */
  ghost predicate Agree<T(!new)>(p: Arithmetic<T>, s: Arithmetic<T>) {
    && p.initial == s.initial && p.round == s.round
    && (forall a, b, c, d :: p.word(a, b, c, d) == s.word(a, b, c, d))
    && (forall x :: p.bytes(x) == s.bytes(x) && |s.bytes(x)| == 4)
    && (forall x, y :: p.add(x, y) == s.add(x, y))
    && (forall a, b, c, d :: p.sum4(a, b, c, d) == s.sum4(a, b, c, d))
    && (forall x, y, z :: p.ch(x, y, z) == s.ch(x, y, z))
    && (forall x, y, z :: p.maj(x, y, z) == s.maj(x, y, z))
    && (forall x :: p.bigSigma0(x) == s.bigSigma0(x))
    && (forall x :: p.bigSigma1(x) == s.bigSigma1(x))
    && (forall x :: p.smallSigma0(x) == s.smallSigma0(x))
    && (forall x :: p.smallSigma1(x) == s.smallSigma1(x))
  }

  predicate Reversible<T(==)>(ar: Arithmetic<T>, a: T, b: T, c: T, d: T) {
    ar.sum4(a, b, c, d) == ar.sum4(d, c, b, a)
  }

  /** Four terms may be added in either order. */
  ghost predicate Commutes<T(!new)>(ar: Arithmetic<T>) {
    forall a, b, c, d :: Reversible(ar, a, b, c, d)
  }

  /** The program's rotations are the standard's. */
  lemma ProgramAgrees()
    ensures Agree(PROGRAM, STANDARD)
  {
    forall x: bv32
      ensures Sum0(x) == BigSigma0(x) && Sum1(x) == BigSigma1(x) && S0(x) == SmallSigma0(x) && S1(x) == SmallSigma1(x)
    {
    }
  }

  lemma StandardCommutes()
    ensures Commutes(STANDARD)
  {
    forall a, b, c, d: bv32
      ensures Sum4(a, b, c, d) == Sum4(d, c, b, a)
    {
    }
  }

  // ------------------------------------------------------------------- the steps

  lemma WholeBlocks(length: nat)
    ensures (length + 1 + 8 + 63) / 64 * 64 == length + 1 + ZeroCount(length) + 8
  {
    ZerosFill(length, 0);
  }

  method PadMessage(bytes: Bytes) returns (padded: Bytes)
    ensures padded == Pad(bytes)
  {
    WholeBlocks(|bytes|);
    var bitLength := Wrap64(|bytes| * 8);
    var paddedLength := (|bytes| + 1 + 8 + 63) / 64 * 64;
    padded := bytes;
    padded := padded + [0x80];
    padded := padded + Zeros(paddedLength - 8 - |padded|);
    padded := padded + BigEndian(bitLength, 8);
  }

  /** The 16 words of the chunk and the 48 computed from them. */
  method FillSchedule<T(!new)>(ar: Arithmetic<T>, ghost std: Arithmetic<T>, chunk: Bytes, schedule: array<T>)
    requires Agree(ar, std) && Commutes(std) && |chunk| == 64 && schedule.Length == 64
    modifies schedule
    ensures schedule[..] == Schedule(std, chunk)
  {
    ghost var words := Schedule(std, chunk);
    for index := 0 to 16
      invariant forall t :: 0 <= t < index ==> schedule[t] == words[t]
    {
      schedule[index] := ar.word(chunk[4 * index], chunk[4 * index + 1], chunk[4 * index + 2], chunk[4 * index + 3]);
    }
    for index := 16 to 64
      invariant forall t :: 0 <= t < index ==> schedule[t] == words[t]
    {
      var s0, s1 := ar.smallSigma0(schedule[index - 15]), ar.smallSigma1(schedule[index - 2]);
      assert Reversible(std, schedule[index - 16], s0, schedule[index - 7], s1);
      schedule[index] := ar.sum4(schedule[index - 16], s0, schedule[index - 7], s1);
    }
  }

  lemma RoundAgrees<T(!new)>(p: Arithmetic<T>, s: Arithmetic<T>, v: Vars<T>, k: T, w: T)
    requires Agree(p, s)
    ensures Round(p, v, k, w) == Round(s, v, k, w)
  {
  }

  lemma {:induction false} RoundsAgree<T(!new)>(p: Arithmetic<T>, s: Arithmetic<T>, schedule: seq<T>, v: Vars<T>, t: nat)
    requires Agree(p, s) && t <= |p.round| <= |schedule|
    ensures Rounds(p, schedule, v, t) == Rounds(s, schedule, v, t)
  {
    if t > 0 {
      RoundsAgree(p, s, schedule, v, t - 1);
      RoundAgrees(p, s, Rounds(p, schedule, v, t - 1), p.round[t - 1], schedule[t - 1]);
    }
  }

  /** The 64 rounds. */
  method RunRounds<T>(ar: Arithmetic<T>, schedule: seq<T>, state: seq<T>) returns (values: seq<T>)
    requires |ar.round| == 64 && |state| == 8 && |schedule| == 64
    ensures values == Words(Rounds(ar, schedule, VarsOf(state), |ar.round|))
  {
    var a, b, c, d, e, f, g, h := state[0], state[1], state[2], state[3], state[4], state[5], state[6], state[7];
    for index := 0 to 64
      invariant Vars(a, b, c, d, e, f, g, h) == Rounds(ar, schedule, VarsOf(state), index)
    {
      var sum1, choose := ar.bigSigma1(e), ar.ch(e, f, g);
      var temp1 := ar.add(ar.sum4(h, sum1, choose, ar.round[index]), schedule[index]);
      var sum0, majority := ar.bigSigma0(a), ar.maj(a, b, c);
      var temp2 := ar.add(sum0, majority);
      h := g;
      g := f;
      f := e;
      e := ar.add(d, temp1);
      d := c;
      c := b;
      b := a;
      a := ar.add(temp1, temp2);
    }
    return [a, b, c, d, e, f, g, h];
  }

  /** The addition into the state, slot by slot. */
  method AddInto<T>(ar: Arithmetic<T>, state: array<T>, values: seq<T>)
    requires state.Length == |values|
    modifies state
    ensures forall i :: 0 <= i < |values| ==> state[i] == ar.add(old(state[i]), values[i])
  {
    for slot := 0 to |values|
      invariant forall i :: 0 <= i < slot ==> state[i] == ar.add(old(state[i]), values[i])
      invariant forall i :: slot <= i < |values| ==> state[i] == old(state[i])
    {
      state[slot] := ar.add(state[slot], values[slot]);
    }
  }

  /** One chunk: the rounds and the addition into the state, in place. */
  method CompressChunk<T(0,!new)>(ar: Arithmetic<T>, ghost std: Arithmetic<T>, chunk: Bytes, state: array<T>)
    requires Sized(std) && Agree(ar, std) && Commutes(std) && |chunk| == 64 && state.Length == 8
    modifies state
    ensures state[..] == Compress(std, old(state[..]), chunk)
  {
    var schedule := new T[64];
    FillSchedule(ar, std, chunk, schedule);
    var values := RunRounds(ar, schedule[..], state[..]);
    RoundsAgree(ar, std, schedule[..], VarsOf(state[..]), |std.round|);
    AddInto(ar, state, values);
  }

  /** Copies one word into its four bytes of the output. */
  method CopyWord(output: array<byte>, at: nat, word: Bytes)
    requires |word| == 4 && at + 4 <= output.Length
    modifies output
    ensures output[..at + 4] == old(output[..at]) + word
  {
    for i := 0 to 4
      invariant output[..at] == old(output[..at]) && output[at..at + i] == word[..i]
    {
      output[at + i] := word[i];
    }
  }

  /** The eight words as 32 bytes. */
  method WriteDigest<T(!new)>(ar: Arithmetic<T>, ghost std: Arithmetic<T>, state: array<T>) returns (output: array<byte>)
    requires Agree(ar, std) && state.Length == 8
    ensures fresh(output) && output.Length == 32 && output[..] == AllBytes(std, state[..])
  {
    output := new byte[32](_ => 0);
    for slot := 0 to 8
      invariant output[..4 * slot] == AllBytes(std, state[..slot])
    {
      var word := ar.bytes(state[slot]);
      CopyWord(output, 4 * slot, word);
      assert state[..slot + 1][..slot] == state[..slot];
    }
    assert state[..8] == state[..] && output[..32] == output[..];
  }

  lemma HashStep<T>(ar: Arithmetic<T>, padded: Bytes, n: nat, h: seq<T>)
    requires Sized(ar) && 64 * n + 64 <= |padded| && h == Hash(ar, padded, n)
    ensures Hash(ar, padded, n + 1) == Compress(ar, h, Block(padded, n))
  {
  }

  /** All chunks in turn, starting from the initial words. */
  method HashChunks<T(0,!new)>(ar: Arithmetic<T>, ghost std: Arithmetic<T>, padded: Bytes, state: array<T>)
    requires Sized(std) && Agree(ar, std) && Commutes(std) && state.Length == 8
    requires state[..] == std.initial
    modifies state
    ensures state[..] == Hash(std, padded, |padded| / 64)
  {
    var n, blocks := 0, |padded| / 64;
    while n < blocks
      invariant n <= blocks && state[..] == Hash(std, padded, n)
    {
      HashStep(std, padded, n, state[..]);
      CompressChunk(ar, std, Block(padded, n), state);
      n := n + 1;
    }
  }

  method HashIn<T(0,!new)>(ar: Arithmetic<T>, ghost std: Arithmetic<T>, bytes: Bytes) returns (digest: Bytes)
    requires Sized(std) && Agree(ar, std) && Commutes(std)
    ensures digest == DigestIn(std, bytes) && |digest| == 32
  {
    var padded := PadMessage(bytes);
    var state := new T[8](i requires 0 <= i < 8 => ar.initial[i]);
    assert state[..] == std.initial;
    HashChunks(ar, std, padded, state);
    var output := WriteDigest(ar, std, state);
    digest := output[..];
  }

  /** The program computes SHA-256, for messages of any length (with the length
      written modulo 2^64 bits). */
  method Sha256(bytes: Bytes) returns (digest: Bytes)
    ensures digest == Digest(bytes) && |digest| == 32
  {
    ProgramAgrees();
    StandardCommutes();
    StandardSized();
    digest := HashIn(PROGRAM, STANDARD, bytes);
  }

  // --------------------------------------------------------------- hexadecimal

  function HexDigit(n: nat): (c: char)
    requires n < 16
    ensures IsLowerHexDigit(c)
  {
    if n < 10 then '0' + n as char else 'a' + (n - 10) as char
  }

  function HexPair(b: byte): (s: string)
    ensures |s| == 2 && IsLowerHexDigit(s[0]) && IsLowerHexDigit(s[1])
  {
    [HexDigit(b as nat / 16), HexDigit(b as nat % 16)]
  }

  function Hex(bytes: Bytes): (s: string)
    ensures |s| == 2 * |bytes|
  {
    if bytes == [] then "" else Hex(bytes[..|bytes| - 1]) + HexPair(bytes[|bytes| - 1])
  }

  lemma {:induction false} HexIsLower(bytes: Bytes)
    ensures IsLowerHex(Hex(bytes), 2 * |bytes|)
  {
    if bytes != [] {
      HexIsLower(bytes[..|bytes| - 1]);
    }
  }

  /** A digit's place in "0123456789abcdef". */
  function HexDigitValue(c: char): Option<nat> {
    if '0' <= c <= '9' then Some((c - '0') as nat)
    else if 'a' <= c <= 'f' then Some(10 + (c - 'a') as nat)
    else None
  }

  /** The bytes a hexadecimal text spells, high digit first. */
  function ReadHex(text: string): Option<Bytes> {
    if text == "" then Some([])
    else if |text| == 1 then None
    else match (HexDigitValue(text[0]), HexDigitValue(text[1]), ReadHex(text[2..]))
         case (Some(high), Some(low), Some(rest)) => Some([(16 * high + low) as byte] + rest)
         case _ => None
  }

  lemma HexFromLeft(b: byte, rest: Bytes)
    ensures Hex([b] + rest) == HexPair(b) + Hex(rest)
  {
    var bytes := [b] + rest;
    if rest != [] {
      assert bytes[..|bytes| - 1] == [b] + rest[..|rest| - 1];
      HexFromLeft(b, rest[..|rest| - 1]);
    } else {
      assert bytes[..0] == [];
    }
  }

  lemma ReadPair(b: byte, text: string, rest: Bytes)
    requires ReadHex(text) == Some(rest)
    ensures ReadHex(HexPair(b) + text) == Some([b] + rest)
  {
    var pair, all := HexPair(b), HexPair(b) + text;
    assert all[0] == pair[0] && all[1] == pair[1] && all[2..] == text;
    assert HexDigitValue(pair[0]) == Some(b as nat / 16) && HexDigitValue(pair[1]) == Some(b as nat % 16);
  }

  /** Reading the text gives the bytes back. */
  lemma {:induction false} ReadHexUndoes(bytes: Bytes)
    ensures ReadHex(Hex(bytes)) == Some(bytes)
  {
    if bytes != [] {
      var rest := bytes[1..];
      assert bytes == [bytes[0]] + rest;
      ReadHexUndoes(rest);
      HexFromLeft(bytes[0], rest);
      ReadPair(bytes[0], Hex(rest), rest);
    }
  }

  method WriteHex(bytes: Bytes) returns (text: string)
    ensures text == Hex(bytes)
  {
    text := "";
    for i := 0 to |bytes|
      invariant text == Hex(bytes[..i])
    {
      assert bytes[..i + 1][..i] == bytes[..i];
      text := text + HexPair(bytes[i]);
    }
    assert bytes[..|bytes|] == bytes;
  }

  /** Every digest is 64 lower-case hexadecimal digits. */
  method Sha256Bytes(bytes: Bytes) returns (text: string)
    ensures text == Hex(Digest(bytes)) && IsLowerHex(text, 64)
  {
    var digest := Sha256(bytes);
    HexIsLower(digest);
    text := WriteHex(digest);
  }
}
