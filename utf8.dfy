/**
  UTF-8, as Rust's standard library implements it: `str::as_bytes` (Encode),
  `String::from_utf8` (Decode, which rejects any ill-formed input) and
  `String::from_utf8_lossy` (Lossy, which replaces each maximal ill-formed
  part with U+FFFD). Decoding walks the input one scalar value at a time with
  the same byte-range tests as the standard library's validator, so both
  decoders agree on what is well formed.
 */
module Utf8 {
  import opened Wrappers

  type byte = x: int | 0 <= x < 256

  /** One step of the decoder: a scalar value and the number of bytes it took,
      or an ill-formed part of `len` bytes. */
  datatype Step = Char(c: char, len: nat) | Bad(len: nat)

  /** The width a leading byte announces (`utf8_char_width`); 0 marks a byte
      that cannot start a sequence. */
  function Width(b0: byte): nat {
    if b0 < 0x80 then 1
    else if 0xC2 <= b0 <= 0xDF then 2
    else if 0xE0 <= b0 <= 0xEF then 3
    else if 0xF0 <= b0 <= 0xF4 then 4
    else 0
  }

  predicate IsCont(b: byte) {
    0x80 <= b <= 0xBF
  }

  /** The range the second byte must fall in, which excludes overlong forms,
      surrogates and values above U+10FFFF. */
  predicate SecondOk(b0: byte, b1: byte) {
    if b0 == 0xE0 then 0xA0 <= b1 <= 0xBF
    else if b0 == 0xED then 0x80 <= b1 <= 0x9F
    else if b0 == 0xF0 then 0x90 <= b1 <= 0xBF
    else if b0 == 0xF4 then 0x80 <= b1 <= 0x8F
    else IsCont(b1)
  }

  /** The scalar values that two, three and four bytes spell. */
  function Scalar2(b0: int, b1: int): int {
    (b0 - 0xC0) * 64 + (b1 - 0x80)
  }

  function Scalar3(b0: int, b1: int, b2: int): int {
    (b0 - 0xE0) * 4096 + (b1 - 0x80) * 64 + (b2 - 0x80)
  }

  function Scalar4(b0: int, b1: int, b2: int, b3: int): int {
    (b0 - 0xF0) * 262144 + (b1 - 0x80) * 4096 + (b2 - 0x80) * 64 + (b3 - 0x80)
  }

  function DecodeStep(b: seq<byte>): (st: Step)
    requires |b| > 0
    ensures 1 <= st.len <= |b|
    ensures st.Bad? ==> st.len <= 3
  {
    var w := Width(b[0]);
    if w == 1 then Char(b[0] as char, 1)
    else if w == 0 then Bad(1)
    else if |b| < 2 || !SecondOk(b[0], b[1]) then Bad(1)
    else if w == 2 then Char(Scalar2(b[0], b[1]) as char, 2)
    else if |b| < 3 || !IsCont(b[2]) then Bad(2)
    else if w == 3 then Char(Scalar3(b[0], b[1], b[2]) as char, 3)
    else if |b| < 4 || !IsCont(b[3]) then Bad(3)
    else Char(Scalar4(b[0], b[1], b[2], b[3]) as char, 4)
  }

  /** `String::from_utf8`: the text, or None when the bytes are not UTF-8. */
  function Decode(b: seq<byte>): (r: Option<string>)
    ensures r.Some? ==> |r.value| <= |b|
    decreases |b|
  {
    if b == [] then Some([])
    else match DecodeStep(b)
      case Bad(_) => None
      case Char(c, n) =>
        match Decode(b[n..])
        case None => None
        case Some(s) => Some([c] + s)
  }

  /** `String::from_utf8_lossy`. */
  function Lossy(b: seq<byte>): (r: string)
    ensures |r| <= |b|
    decreases |b|
  {
    if b == [] then []
    else match DecodeStep(b)
      case Bad(n) => ['\U{FFFD}'] + Lossy(b[n..])
      case Char(c, n) => [c] + Lossy(b[n..])
  }

  predicate IsValid(b: seq<byte>) {
    Decode(b).Some?
  }

  function EncodeChar(c: char): (r: seq<byte>)
    ensures 1 <= |r| <= 4
  {
    var cp := c as int;
    if cp < 0x80 then [cp]
    else if cp < 0x800 then [0xC0 + cp / 64, 0x80 + cp % 64]
    else if cp < 0x10000 then [0xE0 + cp / 4096, 0x80 + (cp / 64) % 64, 0x80 + cp % 64]
    else [0xF0 + cp / 262144, 0x80 + (cp / 4096) % 64, 0x80 + (cp / 64) % 64, 0x80 + cp % 64]
  }

  /** `str::as_bytes` */
  function Encode(s: string): (r: seq<byte>)
    ensures |s| <= |r| <= 4 * |s|
  {
    if s == [] then [] else EncodeChar(s[0]) + Encode(s[1..])
  }

  lemma {:induction false} EncodeAppend(s: string, t: string)
    ensures Encode(s + t) == Encode(s) + Encode(t)
  {
    if s == [] {
      assert s + t == t;
    } else {
      assert (s + t)[1..] == s[1..] + t;
      EncodeAppend(s[1..], t);
    }
  }

  /** Text in ASCII is its own byte string: one byte per character, the
      character's code. */
  lemma {:induction false} EncodeAscii(s: string)
    requires forall i :: 0 <= i < |s| ==> s[i] as int < 0x80
    ensures |Encode(s)| == |s|
    ensures forall i :: 0 <= i < |s| ==> Encode(s)[i] == s[i] as int
  {
    if s != [] {
      EncodeAscii(s[1..]);
      assert Encode(s) == [s[0] as int] + Encode(s[1..]);
    }
  }

  lemma DecodeStepEncode2(c: char, rest: seq<byte>)
    requires 0x80 <= c as int < 0x800
    ensures DecodeStep(EncodeChar(c) + rest) == Char(c, 2)
  {
    var cp := c as int;
    var b := EncodeChar(c) + rest;
    assert b[0] == 0xC0 + cp / 64 && b[1] == 0x80 + cp % 64;
    assert Width(b[0]) == 2 && SecondOk(b[0], b[1]);
    assert Scalar2(b[0], b[1]) == cp;
  }

  lemma DecodeStepEncode3(c: char, rest: seq<byte>)
    requires 0x800 <= c as int < 0x10000
    ensures DecodeStep(EncodeChar(c) + rest) == Char(c, 3)
  {
    var cp := c as int;
    var b := EncodeChar(c) + rest;
    var q := cp / 64;
    assert b[0] == 0xE0 + cp / 4096 && b[1] == 0x80 + q % 64 && b[2] == 0x80 + cp % 64;
    assert cp / 4096 == q / 64;
    assert Width(b[0]) == 3 && SecondOk(b[0], b[1]) && IsCont(b[2]);
    assert Scalar3(b[0], b[1], b[2]) == cp;
  }

  lemma DecodeStepEncode4(c: char, rest: seq<byte>)
    requires 0x10000 <= c as int
    ensures DecodeStep(EncodeChar(c) + rest) == Char(c, 4)
  {
    var cp := c as int;
    var b := EncodeChar(c) + rest;
    var q := cp / 64;
    var p := q / 64;
    assert cp / 4096 == p;
    assert cp / 262144 == p / 64;
    assert b[0] == 0xF0 + p / 64 && b[1] == 0x80 + p % 64 && b[2] == 0x80 + q % 64 && b[3] == 0x80 + cp % 64;
    assert Width(b[0]) == 4 && SecondOk(b[0], b[1]) && IsCont(b[2]) && IsCont(b[3]);
    assert Scalar4(b[0], b[1], b[2], b[3]) == cp;
  }

  /** The decoder reads back exactly the bytes EncodeChar wrote. */
  lemma DecodeStepEncodeChar(c: char, rest: seq<byte>)
    ensures DecodeStep(EncodeChar(c) + rest) == Char(c, |EncodeChar(c)|)
  {
    var cp := c as int;
    if cp < 0x80 {
    } else if cp < 0x800 {
      DecodeStepEncode2(c, rest);
    } else if cp < 0x10000 {
      DecodeStepEncode3(c, rest);
    } else {
      DecodeStepEncode4(c, rest);
    }
  }

  lemma DivMod64(q: int, r: int)
    requires 0 <= r < 64
    ensures (q * 64 + r) / 64 == q && (q * 64 + r) % 64 == r
  {
  }

  lemma EncodeScalar2(b0: byte, b1: byte)
    requires Width(b0) == 2 && IsCont(b1)
    ensures EncodeChar(Scalar2(b0, b1) as char) == [b0, b1]
  {
    DivMod64(b0 - 0xC0, b1 - 0x80);
  }

  lemma EncodeScalar3(b0: byte, b1: byte, b2: byte)
    requires Width(b0) == 3 && SecondOk(b0, b1) && IsCont(b2)
    ensures EncodeChar(Scalar3(b0, b1, b2) as char) == [b0, b1, b2]
  {
    var q := (b0 - 0xE0) * 64 + (b1 - 0x80);
    DivMod64(q, b2 - 0x80);
    DivMod64(b0 - 0xE0, b1 - 0x80);
    assert Scalar3(b0, b1, b2) == q * 64 + (b2 - 0x80);
    assert Scalar3(b0, b1, b2) / 4096 == q / 64;
  }

  lemma EncodeScalar4(b0: byte, b1: byte, b2: byte, b3: byte)
    requires Width(b0) == 4 && SecondOk(b0, b1) && IsCont(b2) && IsCont(b3)
    ensures EncodeChar(Scalar4(b0, b1, b2, b3) as char) == [b0, b1, b2, b3]
  {
    var p := (b0 - 0xF0) * 64 + (b1 - 0x80);
    var q := p * 64 + (b2 - 0x80);
    var cp := Scalar4(b0, b1, b2, b3);
    assert cp == q * 64 + (b3 - 0x80);
    DivMod64(q, b3 - 0x80);
    DivMod64(p, b2 - 0x80);
    DivMod64(b0 - 0xF0, b1 - 0x80);
    assert cp / 4096 == q / 64;
    assert cp / 262144 == p / 64;
  }

  /** A scalar value the decoder accepts is re-encoded to the very bytes it
      was read from. */
  lemma EncodeCharDecodeStep(b: seq<byte>)
    requires |b| > 0 && DecodeStep(b).Char?
    ensures EncodeChar(DecodeStep(b).c) == b[..DecodeStep(b).len]
  {
    var n := DecodeStep(b).len;
    if n == 2 {
      EncodeScalar2(b[0], b[1]);
    } else if n == 3 {
      EncodeScalar3(b[0], b[1], b[2]);
    } else if n == 4 {
      EncodeScalar4(b[0], b[1], b[2], b[3]);
    }
  }

  /** Decoding is a left inverse of encoding: every string's bytes are valid
      UTF-8 and decode to that string. */
  lemma {:induction false} DecodeEncode(s: string)
    ensures Decode(Encode(s)) == Some(s)
  {
    if s != [] {
      var e := EncodeChar(s[0]);
      DecodeStepEncodeChar(s[0], Encode(s[1..]));
      assert (e + Encode(s[1..]))[|e|..] == Encode(s[1..]);
      DecodeEncode(s[1..]);
      assert [s[0]] + s[1..] == s;
    }
  }

  /** A valid non-empty input decodes to its first scalar value followed by
      the decoding of the rest. */
  lemma DecodeCons(b: seq<byte>)
    requires b != [] && Decode(b).Some?
    ensures DecodeStep(b).Char? && Decode(b[DecodeStep(b).len..]).Some?
    ensures Decode(b).value == [DecodeStep(b).c] + Decode(b[DecodeStep(b).len..]).value
  {
  }

  lemma EncodeCons(c: char, s: string)
    ensures Encode([c] + s) == EncodeChar(c) + Encode(s)
  {
    var t := [c] + s;
    assert t[0] == c && t[1..] == s;
  }

  lemma SplitAt(b: seq<byte>, n: nat)
    requires n <= |b|
    ensures b[..n] + b[n..] == b
  {
  }

  /** ... and a right inverse on valid input: the decoded text re-encodes to
      the original bytes, so two byte sequences with the same text are equal. */
  lemma {:induction false} EncodeDecode(b: seq<byte>)
    requires Decode(b).Some?
    ensures Encode(Decode(b).value) == b
    decreases |b|
  {
    if b != [] {
      DecodeCons(b);
      var st := DecodeStep(b);
      var rest := b[st.len..];
      EncodeCharDecodeStep(b);
      EncodeDecode(rest);
      EncodeCons(st.c, Decode(rest).value);
      SplitAt(b, st.len);
    }
  }

  /** On valid input the lossy decoder replaces nothing. */
  lemma {:induction false} LossyOfValid(b: seq<byte>)
    requires Decode(b).Some?
    ensures Lossy(b) == Decode(b).value
    decreases |b|
  {
    if b != [] {
      LossyOfValid(b[DecodeStep(b).len..]);
    }
  }

  /** Non-empty bytes never decode to the empty text. */
  lemma DecodeNonEmpty(b: seq<byte>)
    requires b != [] && Decode(b).Some?
    ensures Decode(b).value != []
  {
  }

  /** Any byte that no sequence may start with makes the input invalid. */
  lemma {:induction false} StrayByteInvalid(b: seq<byte>, i: nat)
    requires i < |b| && 0x80 <= b[i] <= 0xC1 && (forall j :: 0 <= j < i ==> b[j] < 0x80)
    ensures Decode(b).None?
    decreases i
  {
    if i > 0 {
      StrayByteInvalid(b[1..], i - 1);
    }
  }
}
