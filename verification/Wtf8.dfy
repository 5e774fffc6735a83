/**
 WTF-8: UTF-8 extended to surrogate code points (`common/unicode.rs`, `common/wtf_8.rs`).

 Masks and shifts of bytes are written as division and remainder by powers of two.
 */
module Wtf8 {
  import opened Wrappers
  import opened Bits

  const MAX_CODE_POINT := 0x10FFFF

  // ----- One code point -----

  /** The number of bytes needed by a code point. */
  function ByteCount(cp: nat): nat
    requires cp <= MAX_CODE_POINT
  {
    if cp < 0x80 then 1 else if cp <= 0x7FF then 2 else if cp <= 0xFFFF then 3 else 4
  }

  function Continuation(bits: nat): byte
    requires bits < 0x40
  {
    0x80 + bits
  }

  predicate IsContinuation(b: byte) {
    b / 0x40 == 2
  }

  /** The form of a code point in 2, 3 or 4 bytes, which may be more than it needs. */
  function Form(cp: nat, length: nat): seq<byte>
    requires 2 <= length <= 4 && cp < FormLimit(length)
  {
    if length == 2 then [0xC0 + cp / 0x40, Continuation(cp % 0x40)]
    else if length == 3 then [0xE0 + cp / 0x1000, Continuation(cp / 0x40 % 0x40), Continuation(cp % 0x40)]
    else [0xF0 + cp / 0x4_0000, Continuation(cp / 0x1000 % 0x40), Continuation(cp / 0x40 % 0x40), Continuation(cp % 0x40)]
  }

  function FormLimit(length: nat): nat {
    if length == 2 then 0x800 else if length == 3 then 0x1_0000 else 0x20_0000
  }

  /** The shortest form of a code point. */
  function Encode(cp: nat): (bytes: seq<byte>)
    requires cp <= MAX_CODE_POINT
    ensures |bytes| == ByteCount(cp)
  {
    if cp < 0x80 then [cp] else Form(cp, ByteCount(cp))
  }

  /** `encode_utf8_codepoint`: None is the panic on a code point that is out of range or does not fit. */
  method EncodeInto(buf: array<byte>, cp: nat) returns (length: Option<nat>)
    modifies buf
    ensures length == if cp <= MAX_CODE_POINT && ByteCount(cp) <= buf.Length
                      then Some(ByteCount(cp)) else None
    ensures length.None? ==> buf[..] == old(buf[..])
    ensures length.Some? ==> buf[..] == Encode(cp) + old(buf[..])[length.value..]
  {
    if cp < 0x80 && buf.Length != 0 {
      buf[0] := cp;
      length := Some(1);
    } else if cp <= 0x7FF && buf.Length >= 2 {
      buf[0] := 0xC0 + cp / 0x40;
      buf[1] := Continuation(cp % 0x40);
      length := Some(2);
    } else if cp <= 0xFFFF && buf.Length >= 3 {
      buf[0] := 0xE0 + cp / 0x1000;
      buf[1] := Continuation(cp / 0x40 % 0x40);
      buf[2] := Continuation(cp % 0x40);
      length := Some(3);
    } else if cp <= MAX_CODE_POINT && buf.Length >= 4 {
      buf[0] := 0xF0 + cp / 0x4_0000;
      buf[1] := Continuation(cp / 0x1000 % 0x40);
      buf[2] := Continuation(cp / 0x40 % 0x40);
      buf[3] := Continuation(cp % 0x40);
      length := Some(4);
    } else {
      length := None;
    }
  }

  datatype Decoded = CodePoint(value: nat, length: nat) | Invalid(length: nat)

  /** The low bits of a byte. */
  function Payload(b: byte, size: nat): nat
    requires size > 0
  {
    b % size
  }

  /** Decode a multi-byte code point. The caller makes sure that there is a first byte. */
  function Decode(buf: seq<byte>): (d: Decoded)
    requires |buf| > 0
    ensures 1 <= d.length <= |buf|
    ensures d.CodePoint? ==> 2 <= d.length <= 4
  {
    var b1 := buf[0];
    if b1 / 0x20 == 6 && |buf| >= 2 then
      if !IsContinuation(buf[1]) then Invalid(2)
      else CodePoint(Payload(b1, 0x20) * 0x40 + Payload(buf[1], 0x40), 2)
    else if b1 / 0x10 == 14 && |buf| >= 3 then
      if !IsContinuation(buf[1]) || !IsContinuation(buf[2]) then Invalid(3)
      else CodePoint(Payload(b1, 0x10) * 0x1000 + Payload(buf[1], 0x40) * 0x40 + Payload(buf[2], 0x40), 3)
    else if b1 / 8 == 30 && |buf| >= 4 then
      if !IsContinuation(buf[1]) || !IsContinuation(buf[2]) || !IsContinuation(buf[3]) then Invalid(4)
      else CodePoint(Payload(b1, 8) * 0x4_0000 + Payload(buf[1], 0x40) * 0x1000
                     + Payload(buf[2], 0x40) * 0x40 + Payload(buf[3], 0x40), 4)
    else Invalid(1)
  }

  /** Decoding undoes encoding, whatever follows. */
  lemma DecodeEncode(cp: nat, rest: seq<byte>)
    requires 0x80 <= cp <= MAX_CODE_POINT
    ensures Decode(Encode(cp) + rest) == CodePoint(cp, ByteCount(cp))
  {
    DecodeForm(cp, ByteCount(cp), rest);
  }

  lemma Decode2(a: nat, b: nat, rest: seq<byte>)
    requires a < 0x20 && b < 0x40
    ensures Decode([0xC0 + a, Continuation(b)] + rest) == CodePoint(a * 0x40 + b, 2)
  {}

  lemma Decode3(a: nat, b: nat, c: nat, rest: seq<byte>)
    requires a < 0x10 && b < 0x40 && c < 0x40
    ensures Decode([0xE0 + a, Continuation(b), Continuation(c)] + rest)
         == CodePoint(a * 0x1000 + b * 0x40 + c, 3)
  {}

  lemma Decode4(a: nat, b: nat, c: nat, d: nat, rest: seq<byte>)
    requires a < 8 && b < 0x40 && c < 0x40 && d < 0x40
    ensures Decode([0xF0 + a, Continuation(b), Continuation(c), Continuation(d)] + rest)
         == CodePoint(a * 0x4_0000 + b * 0x1000 + c * 0x40 + d, 4)
  {}

  /** The decoder accepts exactly the forms, those with more bytes than needed and those out of range included. */
  lemma DecodeIff(buf: seq<byte>, cp: nat, length: nat)
    requires |buf| > 0
    ensures Decode(buf) == CodePoint(cp, length) <==>
              2 <= length <= 4 && length <= |buf| && cp < FormLimit(length) && buf[..length] == Form(cp, length)
  {
    if 2 <= length <= 4 && length <= |buf| && cp < FormLimit(length) && buf[..length] == Form(cp, length) {
      DecodeForm(cp, length, buf[length..]);
      assert buf == Form(cp, length) + buf[length..];
    }
    if Decode(buf) == CodePoint(cp, length) {
      FormOfDecoded(buf);
    }
  }

  lemma DecodeForm(cp: nat, length: nat, rest: seq<byte>)
    requires 2 <= length <= 4 && cp < FormLimit(length)
    ensures Decode(Form(cp, length) + rest) == CodePoint(cp, length)
  {
    if length == 2 {
      Decode2(cp / 0x40, cp % 0x40, rest);
    } else if length == 3 {
      Decode3(cp / 0x1000, cp / 0x40 % 0x40, cp % 0x40, rest);
      assert cp / 0x1000 == cp / 0x40 / 0x40;
    } else {
      Decode4(cp / 0x4_0000, cp / 0x1000 % 0x40, cp / 0x40 % 0x40, cp % 0x40, rest);
      assert cp / 0x1000 == cp / 0x40 / 0x40 && cp / 0x4_0000 == cp / 0x1000 / 0x40;
    }
  }

  lemma FormOfDecoded(buf: seq<byte>)
    requires |buf| > 0 && Decode(buf).CodePoint?
    ensures var d := Decode(buf); d.value < FormLimit(d.length) && buf[..d.length] == Form(d.value, d.length)
  {
    var d := Decode(buf);
    if d.length == 2 {
      Form2(buf[0] % 0x20, buf[1] % 0x40);
    } else if d.length == 3 {
      Form3(buf[0] % 0x10, buf[1] % 0x40, buf[2] % 0x40);
    } else {
      Form4(buf[0] % 8, buf[1] % 0x40, buf[2] % 0x40, buf[3] % 0x40);
    }
  }

  lemma Form2(a: nat, b: nat)
    requires a < 0x20 && b < 0x40
    ensures a * 0x40 + b < 0x800 && Form(a * 0x40 + b, 2) == [0xC0 + a, Continuation(b)]
  {}

  lemma Form3(a: nat, b: nat, c: nat)
    requires a < 0x10 && b < 0x40 && c < 0x40
    ensures var cp := a * 0x1000 + b * 0x40 + c;
            cp < 0x1_0000 && Form(cp, 3) == [0xE0 + a, Continuation(b), Continuation(c)]
  {
    assert (a * 0x1000 + b * 0x40 + c) / 0x40 == a * 0x40 + b;
  }

  lemma Form4(a: nat, b: nat, c: nat, d: nat)
    requires a < 8 && b < 0x40 && c < 0x40 && d < 0x40
    ensures var cp := a * 0x4_0000 + b * 0x1000 + c * 0x40 + d;
            cp < 0x20_0000 && Form(cp, 4) == [0xF0 + a, Continuation(b), Continuation(c), Continuation(d)]
  {
    var cp := a * 0x4_0000 + b * 0x1000 + c * 0x40 + d;
    assert cp / 0x40 == a * 0x1000 + b * 0x40 + c;
    assert cp / 0x1000 == a * 0x40 + b;
  }

  /** A form that the encoder would have chosen: in range and not overlong. */
  predicate ShortestForm(cp: nat, length: nat) {
    cp <= MAX_CODE_POINT && ByteCount(cp) == length
  }

  /** The decoder also accepts overlong forms and values above the Unicode range; encoding undoes
      decoding on exactly the other ones. */
  lemma EncodeDecode(buf: seq<byte>)
    requires |buf| > 0 && Decode(buf).CodePoint?
    ensures var d := Decode(buf);
            ShortestForm(d.value, d.length) <==>
            d.value <= MAX_CODE_POINT && Encode(d.value) == buf[..d.length]
  {
    FormOfDecoded(buf);
  }

  // ----- Order -----

  /** Bytes in the order of a dictionary. */
  predicate Precedes(a: seq<byte>, b: seq<byte>) {
    b != [] && (a == [] || a[0] < b[0] || (a[0] == b[0] && Precedes(a[1..], b[1..])))
  }

  /** The order of code points is the order of their bytes. */
  lemma EncodeIsOrdered(a: nat, b: nat)
    requires a <= MAX_CODE_POINT && b <= MAX_CODE_POINT
    ensures a < b <==> Precedes(Encode(a), Encode(b))
  {
    if a < b {
      EncodePrecedes(a, b);
    } else if b < a {
      EncodePrecedes(b, a);
      PrecedesIsStrict(Encode(b), Encode(a));
    } else {
      PrecedesIsStrict(Encode(a), Encode(a));
    }
  }

  lemma {:induction false} PrecedesIsStrict(a: seq<byte>, b: seq<byte>)
    requires Precedes(a, b) || a == b
    ensures !Precedes(b, a)
    decreases |a|
  {
    if a != [] && b != [] && a[0] == b[0] {
      PrecedesIsStrict(a[1..], b[1..]);
    }
  }

  lemma EncodePrecedes(a: nat, b: nat)
    requires a < b <= MAX_CODE_POINT
    ensures Precedes(Encode(a), Encode(b))
  {
    if 0x80 <= a && ByteCount(a) == ByteCount(b) {
      FormPrecedes(a, b, ByteCount(a));
    } else {
      assert Encode(a)[0] < Encode(b)[0];
    }
  }

  lemma {:induction false} PrecedesAt(a: seq<byte>, b: seq<byte>, k: nat)
    requires k < |a| && k < |b| && a[..k] == b[..k] && a[k] < b[k]
    ensures Precedes(a, b)
  {
    if k > 0 {
      assert a[..k][0] == a[0] && b[..k][0] == b[0];
      assert a[1..][..k - 1] == a[..k][1..] && b[1..][..k - 1] == b[..k][1..];
      PrecedesAt(a[1..], b[1..], k - 1);
    }
  }

  /** Also of forms with more bytes than needed. */
  lemma FormPrecedes(a: nat, b: nat, length: nat)
    requires 2 <= length <= 4 && a < b < FormLimit(length)
    ensures Precedes(Form(a, length), Form(b, length))
  {
    var x, y := Form(a, length), Form(b, length);
    FormDigits(a, b, length);
    var k := if x[0] < y[0] then 0 else if x[1] < y[1] then 1 else if x[2] < y[2] then 2 else 3;
    PrecedesAt(x, y, k);
  }

  /** The first byte in which two forms differ is smaller in the smaller one. */
  lemma FormDigits(a: nat, b: nat, length: nat)
    requires 2 <= length <= 4 && a < b < FormLimit(length)
    ensures var x, y := Form(a, length), Form(b, length);
            || x[0] < y[0]
            || (x[0] == y[0] && x[1] < y[1])
            || (length > 2 && x[0] == y[0] && x[1] == y[1] && x[2] < y[2])
            || (length > 3 && x[0] == y[0] && x[1] == y[1] && x[2] == y[2] && x[3] < y[3])
  {
    assert a / 0x40 <= b / 0x40 && a / 0x1000 == a / 0x40 / 0x40 && b / 0x1000 == b / 0x40 / 0x40;
    assert a / 0x4_0000 == a / 0x1000 / 0x40 && b / 0x4_0000 == b / 0x1000 / 0x40;
  }

  /** The first and the last code point of each length (section 3 of RFC 3629). */
  lemma EncodeBounds()
    ensures Encode(0) == [0x00] && Encode(0x7F) == [0x7F]
    ensures Encode(0x80) == [0xC2, 0x80] && Encode(0x7FF) == [0xDF, 0xBF]
    ensures Encode(0x800) == [0xE0, 0xA0, 0x80] && Encode(0xFFFF) == [0xEF, 0xBF, 0xBF]
    ensures Encode(0x1_0000) == [0xF0, 0x90, 0x80, 0x80] && Encode(0x10_FFFF) == [0xF4, 0x8F, 0xBF, 0xBF]
  {}

  // ----- Whole strings -----

  /** The next code point of a non-empty string, an ASCII byte being its own code point. */
  function DecodeChar(buf: seq<byte>): (d: Decoded)
    requires |buf| > 0
    ensures 1 <= d.length <= |buf|
  {
    if buf[0] < 0x80 then CodePoint(buf[0], 1) else Decode(buf)
  }

  /** All code points of a string, in order; None if some bytes do not decode. */
  function CodePoints(buf: seq<byte>): Option<seq<nat>>
    decreases |buf|
  {
    if buf == [] then Some([])
    else
      var d := DecodeChar(buf);
      if d.Invalid? then None
      else
        match CodePoints(buf[d.length..])
        case None => None
        case Some(rest) => Some([d.value] + rest)
  }

  predicate InRange(cps: seq<nat>) {
    forall i | 0 <= i < |cps| :: cps[i] <= MAX_CODE_POINT
  }

  function EncodeAll(cps: seq<nat>): seq<byte>
    requires InRange(cps)
  {
    if cps == [] then [] else Encode(cps[0]) + EncodeAll(cps[1..])
  }

  lemma DecodeCharEncode(cp: nat, rest: seq<byte>)
    requires cp <= MAX_CODE_POINT
    ensures DecodeChar(Encode(cp) + rest) == CodePoint(cp, ByteCount(cp))
  {
    if cp >= 0x80 {
      DecodeEncode(cp, rest);
      assert (Encode(cp) + rest)[0] >= 0x80;
    }
  }

  /** Iterating over an encoded string gives back its code points. */
  lemma {:induction false} CodePointsOfEncoding(cps: seq<nat>)
    requires InRange(cps)
    ensures CodePoints(EncodeAll(cps)) == Some(cps)
  {
    if cps != [] {
      var rest := EncodeAll(cps[1..]);
      DecodeCharEncode(cps[0], rest);
      CodePointsOfEncoding(cps[1..]);
      assert (Encode(cps[0]) + rest)[ByteCount(cps[0])..] == rest;
      assert [cps[0]] + cps[1..] == cps;
    }
  }

  lemma {:induction false} EncodeAllConcat(a: seq<nat>, b: seq<nat>)
    requires InRange(a) && InRange(b)
    ensures InRange(a + b) && EncodeAll(a + b) == EncodeAll(a) + EncodeAll(b)
  {
    if a == [] {
      assert a + b == b;
    } else {
      EncodeAllConcat(a[1..], b);
      assert (a + b)[1..] == a[1..] + b;
      assert (a + b)[0] == a[0];
    }
  }

  lemma EncodeAllOne(cp: nat)
    requires cp <= MAX_CODE_POINT
    ensures EncodeAll([cp]) == Encode(cp)
  {
    assert EncodeAll([cp][1..]) == [];
  }

  lemma EncodeAllSnoc(cps: seq<nat>, i: nat)
    requires InRange(cps) && i < |cps|
    ensures EncodeAll(cps[..i + 1]) == EncodeAll(cps[..i]) + Encode(cps[i])
  {
    EncodeAllConcat(cps[..i], [cps[i]]);
    EncodeAllOne(cps[i]);
    assert cps[..i + 1] == cps[..i] + [cps[i]];
  }

  /** What decodes is not changed by what follows. */
  lemma DecodeCharExtend(a: seq<byte>, b: seq<byte>)
    requires |a| > 0 && DecodeChar(a).CodePoint?
    ensures DecodeChar(a + b) == DecodeChar(a)
  {}

  lemma CodePointsStep(a: seq<byte>, b: seq<byte>)
    requires |a| > 0 && DecodeChar(a).CodePoint?
    ensures var d := DecodeChar(a);
            var rest := CodePoints(a[d.length..] + b);
            CodePoints(a + b) == if rest.None? then None else Some([d.value] + rest.value)
  {
    DecodeCharExtend(a, b);
    assert (a + b)[DecodeChar(a).length..] == a[DecodeChar(a).length..] + b;
  }

  lemma {:induction false} CodePointsConcat(a: seq<byte>, b: seq<byte>)
    requires CodePoints(a).Some?
    ensures CodePoints(a + b).Some? <==> CodePoints(b).Some?
    ensures CodePoints(b).Some? ==> CodePoints(a + b).value == CodePoints(a).value + CodePoints(b).value
    decreases |a|
  {
    if a == [] {
      assert a + b == b;
    } else {
      CodePointsStep(a, b);
      CodePointsConcat(a[DecodeChar(a).length..], b);
    }
  }

  /** Every code point of the string is in its shortest form. */
  predicate Canonical(buf: seq<byte>)
    decreases |buf|
  {
    buf == [] ||
    var d := DecodeChar(buf);
    d.CodePoint? && ShortestForm(d.value, d.length) && Canonical(buf[d.length..])
  }

  lemma EncodeDecodeChar(buf: seq<byte>)
    requires |buf| > 0 && DecodeChar(buf).CodePoint?
    ensures var d := DecodeChar(buf);
            ShortestForm(d.value, d.length) <==>
            d.value <= MAX_CODE_POINT && Encode(d.value) == buf[..d.length]
  {
    if buf[0] >= 0x80 {
      EncodeDecode(buf);
    }
  }

  /** A string is what its code points encode to exactly when it is canonical. */
  lemma {:induction false} CanonicalIffReencodes(buf: seq<byte>)
    requires CodePoints(buf).Some?
    ensures var cps := CodePoints(buf).value;
            Canonical(buf) <==> InRange(cps) && EncodeAll(cps) == buf
    decreases |buf|
  {
    if buf != [] {
      var d, cps := DecodeChar(buf), CodePoints(buf).value;
      var rest := buf[d.length..];
      CanonicalIffReencodes(rest);
      EncodeDecodeChar(buf);
      assert cps[1..] == CodePoints(rest).value;
      assert buf == buf[..d.length] + rest;
      if InRange(cps) && EncodeAll(cps) == buf {
        assert InRange(cps[1..]);
        DecodeCharEncode(cps[0], EncodeAll(cps[1..]));
        assert EncodeAll(cps)[..d.length] == Encode(cps[0]);
      }
      if Canonical(buf) {
        assert InRange([d.value] + cps[1..]);
      }
    }
  }

  /** An owned string, extended code point by code point. */
  class Wtf8String {
    var buf: seq<byte>

    constructor ()
      ensures buf == []
    {
      buf := [];
    }

    /** False is the panic on a code point that is out of range. */
    method Push(cp: nat) returns (ok: bool)
      modifies this
      ensures ok <==> cp <= MAX_CODE_POINT
      ensures buf == if ok then old(buf) + Encode(cp) else old(buf)
    {
      var encoded := new byte[4];
      var length := EncodeInto(encoded, cp);
      ok := length.Some?;
      if ok {
        assert encoded[..length.value] == Encode(cp);
        buf := buf + encoded[..length.value];
      }
    }

    /** Pushing any sequence of code points builds a string that iterates as that sequence. */
    method PushAll(cps: seq<nat>)
      requires InRange(cps)
      modifies this
      ensures buf == old(buf) + EncodeAll(cps)
      ensures old(buf) == [] ==> CodePoints(buf) == Some(cps)
    {
      assert cps[..0] == [];
      for i := 0 to |cps|
        invariant buf == old(buf) + EncodeAll(cps[..i])
      {
        EncodeAllSnoc(cps, i);
        var ok := Push(cps[i]);
      }
      assert cps[..|cps|] == cps;
      if old(buf) == [] {
        assert buf == EncodeAll(cps);
        CodePointsOfEncoding(cps);
      }
    }
  }

  datatype Step = End | Item(value: nat) | Panic

  /** The iterator over a string keeps the bytes that have not been consumed. */
  class CodePointsIterator {
    var buf: seq<byte>

    constructor (bytes: seq<byte>)
      ensures buf == bytes
    {
      buf := bytes;
    }

    method Next() returns (step: Step)
      modifies this
      ensures step.End? <==> old(buf) == []
      ensures step.Panic? <==> old(buf) != [] && DecodeChar(old(buf)).Invalid?
      ensures !step.Item? ==> buf == old(buf)
      ensures step.Item? ==>
                var d := DecodeChar(old(buf));
                step.value == d.value && buf == old(buf)[d.length..]
      ensures CodePoints(old(buf)).Some? ==>
                && !step.Panic?
                && CodePoints(old(buf)).value
                   == (if step.Item? then [step.value] else []) + CodePoints(old(buf)).value[if step.Item? then 1 else 0..]
                && CodePoints(buf) == Some(CodePoints(old(buf)).value[if step.Item? then 1 else 0..])
    {
      if buf == [] {
        return End;
      }
      var first := buf[0];
      if first < 0x80 {
        buf := buf[1..];
        return Item(first);
      }
      match Decode(buf)
      case CodePoint(value, length) =>
        buf := buf[length..];
        step := Item(value);
      case Invalid(_) =>
        step := Panic;
    }
  }
}
