// Decoding of source files with byte order marks: crates/conformance/src/text_decode.rs,
// with UTF-16 as in sections 2.1 and 2.2 of RFC 2781. A character is a Unicode scalar
// value.

module SourceText {
  import opened Wrappers

  datatype Decoded = Text(text: string) | TextWithOriginalBytes(text: string, original: Bytes) | Binary(bytes: Bytes)

  newtype Unit = x: int | 0 <= x < 0x1_0000

  predicate IsHigh(u: Unit) {
    0xD800 <= u < 0xDC00
  }

  predicate IsLow(u: Unit) {
    0xDC00 <= u < 0xE000
  }

  // --------------------------------------------------------- encoding and decoding

  function EncodeChar(c: char): (units: seq<Unit>)
    ensures 1 <= |units| <= 2
  {
    var n := c as int;
    if n < 0x1_0000 then [n as Unit]
    else [(0xD800 + (n - 0x1_0000) / 0x400) as Unit, (0xDC00 + (n - 0x1_0000) % 0x400) as Unit]
  }

  function Encode(text: string): seq<Unit> {
    if text == "" then [] else EncodeChar(text[0]) + Encode(text[1..])
  }

  function Pair(high: Unit, low: Unit): char
    requires IsHigh(high) && IsLow(low)
  {
    (0x1_0000 + (high as int - 0xD800) * 0x400 + (low as int - 0xDC00)) as char
  }

  /** The first character and how many units it takes. */
  function DecodeChar(units: seq<Unit>): (r: Option<(char, nat)>)
    requires units != []
    ensures r.Some? ==> 1 <= r.value.1 <= |units|
  {
    var u := units[0];
    if !IsHigh(u) && !IsLow(u) then Some((u as int as char, 1))
    else if IsLow(u) || |units| == 1 || !IsLow(units[1]) then None
    else Some((Pair(u, units[1]), 2))
  }

  function Decode(units: seq<Unit>): Option<string> {
    if units == [] then Some("") else
    var first := DecodeChar(units);
    if first.None? then None else
    var rest := Decode(units[first.value.1..]);
    if rest.None? then None else Some([first.value.0] + rest.value)
  }

  lemma DecodeCharOfEncoded(c: char, rest: seq<Unit>)
    ensures DecodeChar(EncodeChar(c) + rest) == Some((c, |EncodeChar(c)|))
  {
    var n := c as int - 0x1_0000;
    if n >= 0 {
      assert n / 0x400 * 0x400 + n % 0x400 == n && n / 0x400 < 0x400;
    }
  }

  lemma EncodeCharOfDecoded(units: seq<Unit>)
    requires units != [] && DecodeChar(units).Some?
    ensures EncodeChar(DecodeChar(units).value.0) == units[..DecodeChar(units).value.1]
  {
    if IsHigh(units[0]) {
      var high, low := units[0] as int - 0xD800, units[1] as int - 0xDC00;
      assert (high * 0x400 + low) / 0x400 == high && (high * 0x400 + low) % 0x400 == low;
    }
  }

  lemma EncodeCons(c: char, rest: string)
    ensures Encode([c] + rest) == EncodeChar(c) + Encode(rest)
  {
    assert ([c] + rest)[1..] == rest;
  }

  lemma DecodeCons(units: seq<Unit>)
    requires units != [] && DecodeChar(units).Some?
    ensures var (c, n) := DecodeChar(units).value; var rest := Decode(units[n..]);
            Decode(units) == if rest.None? then None else Some([c] + rest.value)
  {
  }

  lemma {:induction false} DecodeEncoded(text: string)
    ensures Decode(Encode(text)) == Some(text)
  {
    if text != "" {
      var c, rest := text[0], Encode(text[1..]);
      DecodeCharOfEncoded(c, rest);
      DecodeEncoded(text[1..]);
      assert (EncodeChar(c) + rest)[|EncodeChar(c)|..] == rest && text == [c] + text[1..];
      DecodeCons(EncodeChar(c) + rest);
    }
  }

  lemma Recombine(units: seq<Unit>, n: nat, c: char, rest: string)
    requires n <= |units| && EncodeChar(c) == units[..n] && Encode(rest) == units[n..]
    ensures Encode([c] + rest) == units
  {
    EncodeCons(c, rest);
  }

  lemma {:induction false} EncodeDecoded(units: seq<Unit>)
    requires Decode(units).Some?
    ensures Encode(Decode(units).value) == units
  {
    if units != [] {
      var (c, n) := DecodeChar(units).value;
      DecodeCons(units);
      EncodeCharOfDecoded(units);
      EncodeDecoded(units[n..]);
      Recombine(units, n, c, Decode(units[n..]).value);
    }
  }

  // ------------------------------------------------------------------- the bytes

  function UnitOf(a: byte, b: byte, little: bool): Unit {
    if little then (b as int * 256 + a as int) as Unit else (a as int * 256 + b as int) as Unit
  }

  function BytesOf(u: Unit, little: bool): Bytes {
    var high, low := (u as int / 256) as byte, (u as int % 256) as byte;
    if little then [low, high] else [high, low]
  }

  function Units(bytes: Bytes, little: bool): seq<Unit>
    requires |bytes| % 2 == 0
  {
    if bytes == [] then [] else [UnitOf(bytes[0], bytes[1], little)] + Units(bytes[2..], little)
  }

  function Serialize(units: seq<Unit>, little: bool): (bytes: Bytes)
    ensures |bytes| == 2 * |units|
  {
    if units == [] then [] else BytesOf(units[0], little) + Serialize(units[1..], little)
  }

  lemma UnitBytes(u: Unit, a: byte, b: byte, little: bool)
    ensures UnitOf(BytesOf(u, little)[0], BytesOf(u, little)[1], little) == u
    ensures BytesOf(UnitOf(a, b, little), little) == [a, b]
  {
  }

  lemma {:induction false} UnitsOfSerialized(units: seq<Unit>, little: bool)
    ensures Units(Serialize(units, little), little) == units
  {
    if units != [] {
      UnitBytes(units[0], 0, 0, little);
      UnitsOfSerialized(units[1..], little);
      assert Serialize(units, little)[2..] == Serialize(units[1..], little);
    }
  }

  lemma {:induction false} SerializedUnits(bytes: Bytes, little: bool)
    requires |bytes| % 2 == 0
    ensures Serialize(Units(bytes, little), little) == bytes
  {
    if bytes != [] {
      UnitBytes(0, bytes[0], bytes[1], little);
      SerializedUnits(bytes[2..], little);
      assert Units(bytes, little)[1..] == Units(bytes[2..], little) && bytes == [bytes[0], bytes[1]] + bytes[2..];
    }
  }

  function DecodeUtf16(bytes: Bytes, little: bool): Option<string> {
    if |bytes| % 2 != 0 then None else Decode(Units(bytes, little))
  }

  const UTF8_MARK: Bytes := [0xEF, 0xBB, 0xBF]

  function Mark(little: bool): Bytes {
    if little then [0xFF, 0xFE] else [0xFE, 0xFF]
  }

  function Utf16Or(bytes: Bytes, little: bool): Decoded
    requires |bytes| >= 2
  {
    var text := DecodeUtf16(bytes[2..], little);
    if text.None? then Binary(bytes) else TextWithOriginalBytes(text.value, bytes)
  }

  /** The decoder, over the decoding of well-formed UTF-8. */
  function DecodeSourceText(utf8: Bytes -> Option<string>, bytes: Bytes): Decoded {
    if UTF8_MARK <= bytes then
      (if utf8(bytes[3..]).Some? then Text(utf8(bytes[3..]).value) else Binary(bytes))
    else if Mark(true) <= bytes then Utf16Or(bytes, true)
    else if Mark(false) <= bytes then Utf16Or(bytes, false)
    else if utf8(bytes).Some? then Text(utf8(bytes).value)
    else Binary(bytes)
  }

  /** A text in UTF-16 with its byte order mark. */
  function EncodeUtf16(text: string, little: bool): Bytes {
    Mark(little) + Serialize(Encode(text), little)
  }

  lemma MarkedDecodes(text: string, little: bool)
    ensures DecodeUtf16(EncodeUtf16(text, little)[2..], little) == Some(text)
  {
    assert EncodeUtf16(text, little)[2..] == Serialize(Encode(text), little);
    UnitsOfSerialized(Encode(text), little);
    DecodeEncoded(text);
  }

  lemma DecodedIsMarked(bytes: Bytes, little: bool)
    requires Mark(little) <= bytes && DecodeUtf16(bytes[2..], little).Some?
    ensures bytes == EncodeUtf16(DecodeUtf16(bytes[2..], little).value, little)
  {
    var rest := bytes[2..];
    SerializedUnits(rest, little);
    EncodeDecoded(Units(rest, little));
    assert bytes == Mark(little) + rest;
  }

  lemma MarkedIsText(utf8: Bytes -> Option<string>, text: string, little: bool)
    ensures var bytes := EncodeUtf16(text, little); DecodeSourceText(utf8, bytes) == TextWithOriginalBytes(text, bytes)
  {
    var bytes := EncodeUtf16(text, little);
    assert bytes[..2] == Mark(little) && bytes[0] == Mark(little)[0];
    MarkedDecodes(text, little);
  }

  /** Round trip: exactly the marked encodings of a text, in either byte order, decode
      to that text with the original bytes. */
  lemma Utf16RoundTrip(utf8: Bytes -> Option<string>, bytes: Bytes, text: string, original: Bytes)
    ensures DecodeSourceText(utf8, bytes) == TextWithOriginalBytes(text, original) <==>
            original == bytes && (bytes == EncodeUtf16(text, true) || bytes == EncodeUtf16(text, false))
  {
    forall little | bytes == EncodeUtf16(text, little)
      ensures DecodeSourceText(utf8, bytes) == TextWithOriginalBytes(text, bytes)
    {
      MarkedIsText(utf8, text, little);
    }
    forall little | Mark(little) <= bytes && DecodeUtf16(bytes[2..], little).Some?
      ensures bytes == EncodeUtf16(DecodeUtf16(bytes[2..], little).value, little)
    {
      DecodedIsMarked(bytes, little);
    }
  }

  /** Text in UTF-8, with its mark or without any mark, and no other bytes decode to just a
      text. */
  lemma Utf8Exactly(utf8: Bytes -> Option<string>, bytes: Bytes, text: string)
    ensures DecodeSourceText(utf8, bytes) == Text(text) <==>
            || (exists rest :: bytes == [0xEF, 0xBB, 0xBF] + rest && utf8(rest) == Some(text))
            || (!([0xEF, 0xBB, 0xBF] <= bytes) && !([0xFF, 0xFE] <= bytes) && !([0xFE, 0xFF] <= bytes)
                && utf8(bytes) == Some(text))
  {
    if [0xEF, 0xBB, 0xBF] <= bytes {
      assert bytes == [0xEF, 0xBB, 0xBF] + bytes[3..];
    }
    forall rest | bytes == [0xEF, 0xBB, 0xBF] + rest
      ensures bytes[3..] == rest
    {
    }
  }

  /** The bytes that no decoding makes a text of are exactly the binary ones: marked UTF-8
      and unmarked bytes that are not UTF-8, and marked UTF-16 that encodes no text. */
  lemma BinaryExactly(utf8: Bytes -> Option<string>, bytes: Bytes)
    ensures DecodeSourceText(utf8, bytes) == Binary(bytes) <==>
            && (forall rest :: bytes == [0xEF, 0xBB, 0xBF] + rest ==> utf8(rest).None?)
            && (!([0xEF, 0xBB, 0xBF] <= bytes) && !([0xFF, 0xFE] <= bytes) && !([0xFE, 0xFF] <= bytes) ==> utf8(bytes).None?)
            && (forall text, little :: bytes != EncodeUtf16(text, little))
  {
    if text, little :| bytes == EncodeUtf16(text, little) {
      MarkedIsText(utf8, text, little);
    } else {
      forall little | Mark(little) <= bytes
        ensures DecodeUtf16(bytes[2..], little).None?
      {
        if DecodeUtf16(bytes[2..], little).Some? {
          DecodedIsMarked(bytes, little);
        }
      }
      if [0xEF, 0xBB, 0xBF] <= bytes {
        assert bytes == [0xEF, 0xBB, 0xBF] + bytes[3..];
      }
      forall rest | bytes == [0xEF, 0xBB, 0xBF] + rest
        ensures bytes[3..] == rest
      {
      }
    }
  }

  /** The marks and the first and last characters of each range, in both byte orders. */
  lemma EncodedSamples()
    ensures EncodeUtf16("", true) == [0xFF, 0xFE] && EncodeUtf16("", false) == [0xFE, 0xFF]
    ensures EncodeChar(0x41 as char) == [0x41] && EncodeChar(0xFFFF as char) == [0xFFFF]
    ensures EncodeChar(0x1_0000 as char) == [0xD800, 0xDC00] && EncodeChar(0x10_FFFF as char) == [0xDBFF, 0xDFFF]
    ensures BytesOf(0x1234, true) == [0x34, 0x12] && BytesOf(0x1234, false) == [0x12, 0x34]
  {
  }

  /** What is not text is handed on unchanged. */
  lemma BinaryUnchanged(utf8: Bytes -> Option<string>, bytes: Bytes)
    requires DecodeSourceText(utf8, bytes).Binary?
    ensures DecodeSourceText(utf8, bytes) == Binary(bytes)
    ensures forall text, little :: bytes != EncodeUtf16(text, little)
  {
    forall text, little
      ensures bytes != EncodeUtf16(text, little)
    {
      MarkedDecodes(text, little);
    }
  }
}
