/**
 * UTF-8 as section 3 of RFC 3629 defines it: the encoding of a string of
 * Unicode scalar values as bytes (`data(using: .utf8)`), and the strict
 * decoding of `String(data:encoding: .utf8)`, which gives no string at all
 * when any part of its input is not a well-formed sequence: a stray
 * continuation byte, a sequence cut short, an overlong form, a surrogate or
 * a value past U+10FFFF.
 */
module Utf8 {
  import opened Wrappers
  import Select

  type Byte = b: int | 0 <= b < 0x100

  predicate IsContinuation(b: Byte) {
    0x80 <= b < 0xC0
  }

  /** The one to four bytes of a scalar value: six payload bits per continuation byte. */
  function EncodeChar(c: char): (r: seq<Byte>)
    ensures 1 <= |r| <= 4
    ensures |r| == 1 <==> c as int < 0x80
  {
    var n := c as int;
    if n < 0x80 then [n]
    else if n < 0x800 then [0xC0 + n / 64, 0x80 + n % 64]
    else if n < 0x10000 then [0xE0 + n / 64 / 64, 0x80 + n / 64 % 64, 0x80 + n % 64]
    else [0xF0 + n / 64 / 64 / 64, 0x80 + n / 64 / 64 % 64, 0x80 + n / 64 % 64, 0x80 + n % 64]
  }

  function Encode(s: string): (r: seq<Byte>)
    ensures |r| >= |s|
  {
    if s == [] then [] else EncodeChar(s[0]) + Encode(s[1..])
  }

  /**
   * The character a well-formed sequence at the start of `b` stands for and
   * the sequence's length, or `None` when `b` does not start with one.
   */
  function DecodeFirst(b: seq<Byte>): (r: Option<(char, nat)>)
    requires b != []
    ensures r.Some? ==> 1 <= r.value.1 <= |b| && r.value.1 <= 4
  {
    var b0 := b[0];
    if b0 < 0x80 then Some((b0 as char, 1))
    else if 0xC0 <= b0 < 0xE0 then
      if |b| < 2 || !IsContinuation(b[1]) then None
      else
        var n := (b0 as int - 0xC0) * 64 + (b[1] as int - 0x80);
        if n < 0x80 then None else Some((n as char, 2))
    else if 0xE0 <= b0 < 0xF0 then
      if |b| < 3 || !IsContinuation(b[1]) || !IsContinuation(b[2]) then None
      else
        var n := ((b0 as int - 0xE0) * 64 + (b[1] as int - 0x80)) * 64 + (b[2] as int - 0x80);
        if n < 0x800 || (0xD800 <= n < 0xE000) then None else Some((n as char, 3))
    else if 0xF0 <= b0 < 0xF8 then
      if |b| < 4 || !IsContinuation(b[1]) || !IsContinuation(b[2]) || !IsContinuation(b[3]) then None
      else
        var n := (((b0 as int - 0xF0) * 64 + (b[1] as int - 0x80)) * 64 + (b[2] as int - 0x80)) * 64 + (b[3] as int - 0x80);
        if n < 0x10000 || n > 0x10FFFF then None else Some((n as char, 4))
    else None
  }

  /** `String(data:encoding: .utf8)`: the whole input as well-formed sequences, or `None`. */
  function Decode(b: seq<Byte>): (r: Option<string>)
    decreases |b|
  {
    if b == [] then Some([])
    else match DecodeFirst(b)
      case None => None
      case Some((c, k)) =>
        match Decode(b[k..])
        case None => None
        case Some(rest) => Some([c] + rest)
  }

  lemma {:induction false} EncodeAppend(a: string, b: string)
    ensures Encode(a + b) == Encode(a) + Encode(b)
  {
    if a == [] {
      assert a + b == b;
    } else {
      assert (a + b)[0] == a[0] && (a + b)[1..] == a[1..] + b;
      EncodeAppend(a[1..], b);
      Select.AppendAssoc(EncodeChar(a[0]), Encode(a[1..]), Encode(b));
    }
  }

  /** The decoder reads back the character the encoder wrote, whatever follows it. */
  lemma DecodeFirstEncodeChar(c: char, rest: seq<Byte>)
    ensures DecodeFirst(EncodeChar(c) + rest) == Some((c, |EncodeChar(c)|))
  {
    var n := c as int;
    var b := EncodeChar(c) + rest;
    if n < 0x80 {
    } else if n < 0x800 {
      assert b[0] == 0xC0 + n / 64 && b[1] == 0x80 + n % 64;
    } else if n < 0x10000 {
      assert b[0] == 0xE0 + n / 64 / 64 && b[1] == 0x80 + n / 64 % 64 && b[2] == 0x80 + n % 64;
    } else {
      assert b[0] == 0xF0 + n / 64 / 64 / 64 && b[1] == 0x80 + n / 64 / 64 % 64;
      assert b[2] == 0x80 + n / 64 % 64 && b[3] == 0x80 + n % 64;
    }
  }

  /** The first sequence is read from its own bytes only: what follows does not change it. */
  lemma DecodeFirstPrefix(a: seq<Byte>, b: seq<Byte>)
    requires a != [] && DecodeFirst(a).Some?
    ensures DecodeFirst(a + b) == DecodeFirst(a)
  {
    var k := DecodeFirst(a).value.1;
    assert forall i :: 0 <= i < k ==> (a + b)[i] == a[i];
  }

  /** A well-formed sequence is the encoding of the character it decodes to. */
  lemma EncodeCharOfFirst(b: seq<Byte>)
    requires b != [] && DecodeFirst(b).Some?
    ensures EncodeChar(DecodeFirst(b).value.0) == b[..DecodeFirst(b).value.1]
  {
    var k := DecodeFirst(b).value.1;
    if k == 1 {
      assert EncodeChar(DecodeFirst(b).value.0) == [b[0]];
    } else if k == 2 {
      EncodeTwo(b);
    } else if k == 3 {
      EncodeThree(b);
    } else {
      EncodeFour(b);
    }
  }

  lemma EncodeTwo(b: seq<Byte>)
    requires b != [] && DecodeFirst(b).Some? && DecodeFirst(b).value.1 == 2
    ensures EncodeChar(DecodeFirst(b).value.0) == b[..2]
  {
    var n := DecodeFirst(b).value.0 as int;
    assert n == (b[0] as int - 0xC0) * 64 + (b[1] as int - 0x80);
    assert n / 64 == b[0] - 0xC0 && n % 64 == b[1] - 0x80;
  }

  lemma EncodeThree(b: seq<Byte>)
    requires b != [] && DecodeFirst(b).Some? && DecodeFirst(b).value.1 == 3
    ensures EncodeChar(DecodeFirst(b).value.0) == b[..3]
  {
    var n := DecodeFirst(b).value.0 as int;
    var q := (b[0] as int - 0xE0) * 64 + (b[1] as int - 0x80);
    assert n == q * 64 + (b[2] as int - 0x80);
    assert n / 64 == q && n % 64 == b[2] - 0x80;
    assert q / 64 == b[0] - 0xE0 && q % 64 == b[1] - 0x80;
  }

  lemma EncodeFour(b: seq<Byte>)
    requires b != [] && DecodeFirst(b).Some? && DecodeFirst(b).value.1 == 4
    ensures EncodeChar(DecodeFirst(b).value.0) == b[..4]
  {
    var n := DecodeFirst(b).value.0 as int;
    var q := ((b[0] as int - 0xF0) * 64 + (b[1] as int - 0x80)) * 64 + (b[2] as int - 0x80);
    assert n == q * 64 + (b[3] as int - 0x80);
    assert n / 64 == q && n % 64 == b[3] - 0x80;
    assert q / 64 == (b[0] as int - 0xF0) * 64 + (b[1] as int - 0x80) && q % 64 == b[2] - 0x80;
    assert q / 64 / 64 == b[0] - 0xF0 && q / 64 % 64 == b[1] - 0x80;
  }

  /** Round trip: decoding an encoding gives the string back. */
  lemma {:induction false} DecodeEncode(s: string)
    ensures Decode(Encode(s)) == Some(s)
  {
    if s != [] {
      var e, rest := EncodeChar(s[0]), Encode(s[1..]);
      DecodeFirstEncodeChar(s[0], rest);
      assert (e + rest)[|e|..] == rest;
      DecodeEncode(s[1..]);
      assert [s[0]] + s[1..] == s;
    }
  }

  /** The other direction: the decoder accepts nothing but encodings, so a decoded string re-encodes to its bytes. */
  lemma {:induction false} EncodeDecode(b: seq<Byte>)
    requires Decode(b).Some?
    ensures Encode(Decode(b).value) == b
    decreases |b|
  {
    if b != [] {
      var c, k := DecodeFirst(b).value.0, DecodeFirst(b).value.1;
      EncodeCharOfFirst(b);
      EncodeDecode(b[k..]);
      var s := Decode(b).value;
      assert s[0] == c && s[1..] == Decode(b[k..]).value;
      assert b[..k] + b[k..] == b;
    }
  }

  /**
   * Decoding a well-formed prefix and then the rest: the rest decides.
   * Appending to well-formed bytes keeps them readable exactly when the
   * appended bytes are well-formed themselves.
   */
  lemma {:induction false} DecodeAppend(a: seq<Byte>, b: seq<Byte>)
    requires Decode(a).Some?
    ensures Decode(b).None? ==> Decode(a + b).None?
    ensures Decode(b).Some? ==> Decode(a + b) == Some(Decode(a).value + Decode(b).value)
    decreases |a|
  {
    if a == [] {
      assert a + b == b;
      assert Decode(a).value == [];
      if Decode(b).Some? {
        assert Decode(a).value + Decode(b).value == Decode(b).value;
      }
    } else {
      var c, k := DecodeFirst(a).value.0, DecodeFirst(a).value.1;
      DecodeFirstPrefix(a, b);
      assert (a + b)[k..] == a[k..] + b;
      DecodeAppend(a[k..], b);
      if Decode(b).Some? {
        Select.AppendAssoc([c], Decode(a[k..]).value, Decode(b).value);
      }
    }
  }

  /** Appending well-formed bytes keeps a string readable, and the text grows by what they encode. */
  lemma AppendEncoded(a: seq<Byte>, s: string)
    requires Decode(a).Some?
    ensures Decode(a + Encode(s)) == Some(Decode(a).value + s)
  {
    DecodeEncode(s);
    DecodeAppend(a, Encode(s));
  }

  /**
   * A multi-byte character cut after its first byte: "é" is C3 A9, and C3
   * alone is not well-formed.
   */
  lemma TornCharacter()
    ensures EncodeChar('é') == [0xC3, 0xA9]
    ensures Decode([0xC3]) == None
  {
  }
}
