/**
 What literals mean: numerals (section 12.9.3 of ECMA-262), escape sequences and string values (section
 12.9.4), template values (section 12.9.6), as recursive functions of the source text.
 */
module Literals {
  import opened Wrappers
  import opened Bits
  import opened Wtf8
  import opened Characters

  datatype LexError =
    | InvalidUnicode
    | UnterminatedComment
    | UnknownToken
    | HashNotFollowedByIdentifier
    | MalformedNumericLiteral
    | AdjacentNumericSeparators
    | TrailingNumericSeparator
    | BigIntLeadingZero
    | InvalidNumericLiteralNextChar
    | LegacyOctalLiteralInStrictMode
    | UnterminatedStringLiteral
    | MalformedEscapeSequence
    | LegacyOctalEscapeInStrictMode
    | LegacyNonOctalEscapeInStrictMode

  datatype Outcome<+T> = Ok(value: T) | Err(error: LexError) | Panicked

  // ----- Digits -----

  /** The value of a digit in base 2, 8, 10 or 16. */
  function DigitValue(c: nat, base: nat): Option<nat> {
    var v := if IsDecimalDigit(c) then Some(c - '0' as int)
             else if 'a' as int <= c <= 'f' as int then Some(c - 'a' as int + 10)
             else if 'A' as int <= c <= 'F' as int then Some(c - 'A' as int + 10)
             else None;
    if v.Some? && v.value < base then v else None
  }

  predicate IsDigit(c: nat, base: nat) { DigitValue(c, base).Some? }

  predicate IsSeparator(c: nat) { c == '_' as int }

  /** The value of a run of digits, which separators do not change. */
  function NumberValue(text: seq<byte>, base: nat): nat {
    if text == [] then 0
    else
      var high, d := NumberValue(text[..|text| - 1], base), DigitValue(text[|text| - 1], base);
      if d.None? then high else Append(high, base, d.value)
  }

  function Append(high: nat, base: nat, digit: nat): nat {
    high * base + digit
  }

  lemma NumberValueNext(buf: seq<byte>, i: nat, j: nat, base: nat)
    requires i <= j && IsDigit(At(buf, j), base)
    ensures NumberValue(buf[i..j + 1], base) == NumberValue(buf[i..j], base) * base + DigitValue(At(buf, j), base).value
  {
    assert buf[i..j + 1][..j - i] == buf[i..j];
  }

  /** How many digits there are from i, counting at most n. */
  function DigitCount(buf: seq<byte>, i: nat, base: nat, n: nat): (k: nat)
    ensures k <= n && (k > 0 ==> i + k <= |buf|)
    decreases n
  {
    if n == 0 || !IsDigit(At(buf, i), base) then 0 else 1 + DigitCount(buf, i + 1, base, n - 1)
  }

  // ----- Escape sequences -----

  /** A malformed escape also has an end: a template goes on there. */
  datatype Escape =
    | Escaped(cps: seq<nat>, end: nat)
    | LegacyOctal(cp: nat, end: nat)
    | LegacyNonOctal(cp: nat)
    | Malformed(end: nat)
    | BadCharacter
    | AtEof

  /** After \u{. */
  function BracedEscape(buf: seq<byte>, i: nat): (e: Escape)
    ensures e.Escaped? ==> |e.cps| == 1 && i < e.end <= |buf| && e.cps[0] <= MAX_CODE_POINT
    ensures e.Malformed? ==> i <= e.end && (i <= |buf| ==> e.end <= |buf|)
    ensures e.Escaped? || e.Malformed?
  {
    var n := DigitCount(buf, i, 16, 6);
    if At(buf, i + n) != '}' as int then Malformed(i + n)
    else if n == 0 || NumberValue(buf[i..i + n], 16) > MAX_CODE_POINT then Malformed(i + n + 1)
    else Escaped([NumberValue(buf[i..i + n], 16)], i + n + 1)
  }

  /** After \u. */
  function UnicodeEscape(buf: seq<byte>, i: nat): (e: Escape)
    ensures e.Escaped? ==> |e.cps| == 1 && i < e.end <= |buf| && e.cps[0] <= MAX_CODE_POINT
    ensures e.Malformed? ==> i <= e.end && (i <= |buf| ==> e.end <= |buf|)
    ensures e.Escaped? || e.Malformed?
  {
    if At(buf, i) == '{' as int then BracedEscape(buf, i + 1)
    else
      var n := DigitCount(buf, i, 16, 4);
      if n < 4 then Malformed(i + n)
      else
        HexBound(buf[i..i + 4]);
        Escaped([NumberValue(buf[i..i + 4], 16)], i + 4)
  }

  lemma HexBound(text: seq<byte>)
    requires |text| == 4
    ensures NumberValue(text, 16) < 0x1_0000
  {
    HexBoundNext(text[..0]);
    HexBoundNext(text[..1]);
    HexBoundNext(text[..2]);
    HexBoundNext(text[..3]);
    assert NumberValue(text[..1], 16) < 0x10 by { assert text[..1][..0] == text[..0]; }
    assert NumberValue(text[..2], 16) < 0x100 by { assert text[..2][..1] == text[..1]; }
    assert NumberValue(text[..3], 16) < 0x1000 by { assert text[..3][..2] == text[..2]; }
    assert text[..4] == text;
  }

  lemma HexBoundNext(text: seq<byte>)
    ensures forall c: byte :: NumberValue(text + [c], 16) < NumberValue(text, 16) * 16 + 16
  {
    forall c: byte
      ensures NumberValue(text + [c], 16) < NumberValue(text, 16) * 16 + 16
    {
      assert (text + [c])[..|text|] == text;
    }
  }

  /** The characters that stand for themselves or a control character after a backslash. */
  function SingleEscape(c: nat): Option<nat> {
    if c == 'n' as int then Some(0x0A)
    else if c == 't' as int then Some(0x09)
    else if c == 'r' as int then Some(0x0D)
    else if c == 'b' as int then Some(0x08)
    else if c == 'v' as int then Some(0x0B)
    else if c == 'f' as int then Some(0x0C)
    else if c == '\\' as int || c == '\'' as int || c == '\"' as int then Some(c)
    else None
  }

  /** At most three octal digits, and at most 0o377. */
  function OctalEscapeLength(buf: seq<byte>, i: nat): (n: nat)
    ensures 1 <= n <= 3
  {
    if !IsDigit(At(buf, i + 1), 8) then 1
    else if At(buf, i) <= '3' as int && IsDigit(At(buf, i + 2), 8) then 3
    else 2
  }

  /** A backslash at i and a decimal digit. */
  function DigitEscape(buf: seq<byte>, i: nat): (e: Escape)
    requires IsDecimalDigit(At(buf, i + 1))
    ensures e.Escaped? || e.LegacyOctal? ==> i + 2 <= e.end <= |buf|
    ensures e.Escaped? || e.LegacyOctal? || e.LegacyNonOctal?
  {
    var c := At(buf, i + 1);
    if c == '0' as int && !IsDecimalDigit(At(buf, i + 2)) then Escaped([0], i + 2)
    else if IsDigit(c, 8) then
      var n := OctalEscapeLength(buf, i + 1);
      LegacyOctal(NumberValue(buf[i + 1..i + 1 + n], 8), i + 1 + n)
    else LegacyNonOctal(c)
  }

  /** After \x. */
  function HexEscape(buf: seq<byte>, i: nat): (e: Escape)
    ensures e.Escaped? ==> |e.cps| == 1 && i < e.end <= |buf|
    ensures e.Malformed? ==> i <= e.end && (i <= |buf| ==> e.end <= |buf|)
    ensures e.Escaped? || e.Malformed?
  {
    if !IsDigit(At(buf, i), 16) then Malformed(i)
    else if !IsDigit(At(buf, i + 1), 16) then Malformed(i + 1)
    else Escaped([NumberValue(buf[i..i + 2], 16)], i + 2)
  }

  /** A backslash at i and a line continuation, or a character that stands for itself. */
  function OtherEscape(buf: seq<byte>, i: nat): (e: Escape)
    ensures e.Escaped? ==> i + 2 <= e.end <= |buf|
    ensures e.Escaped? || e.BadCharacter? || e.AtEof?
  {
    var c := At(buf, i + 1);
    if c == 0x0A then Escaped([], i + 2)
    else if c == 0x0D then Escaped([], if At(buf, i + 2) == 0x0A then i + 3 else i + 2)
    else if c == EOF_CHAR then AtEof
    else
      match CharAt(buf, i + 1)
      case None => BadCharacter
      case Some(ch) => Escaped(if IsNewline(ch) then [] else [ch.cp], i + 1 + ch.length)
  }

  /** The escape sequence whose backslash is at i. */
  function EscapeAt(buf: seq<byte>, i: nat): (e: Escape)
    requires At(buf, i) == '\\' as int
    ensures e.Escaped? || e.LegacyOctal? || e.Malformed? ==> i + 2 <= e.end <= |buf|
    ensures e.LegacyNonOctal? ==> i + 2 <= |buf|
  {
    var c := At(buf, i + 1);
    if SingleEscape(c).Some? then Escaped([SingleEscape(c).value], i + 2)
    else if IsDecimalDigit(c) then DigitEscape(buf, i)
    else if c == 'x' as int then HexEscape(buf, i + 2)
    else if c == 'u' as int then UnicodeEscape(buf, i + 2)
    else OtherEscape(buf, i)
  }

  // ----- String literals -----

  predicate IsQuote(c: nat) { c == '\'' as int || c == '\"' as int }

  datatype Literal = Done(cps: seq<nat>, end: nat) | Fails(error: LexError) | Panics

  /** What an escape adds to a string literal, and where it ends. */
  datatype Piece = Piece(cps: seq<nat>, end: nat)

  function StringEscape(buf: seq<byte>, i: nat, strict: bool): (r: Outcome<Piece>)
    requires At(buf, i) == '\\' as int
    ensures r.Ok? ==> i + 2 <= r.value.end <= |buf|
  {
    match EscapeAt(buf, i)
    case Escaped(cps, end) => Ok(Piece(cps, end))
    case LegacyOctal(cp, end) => if strict then Err(LegacyOctalEscapeInStrictMode) else Ok(Piece([cp], end))
    case LegacyNonOctal(cp) => if strict then Err(LegacyNonOctalEscapeInStrictMode) else Ok(Piece([cp], i + 2))
    case Malformed(_) => Err(MalformedEscapeSequence)
    case BadCharacter => Err(InvalidUnicode)
    case AtEof => Panicked
  }

  /** The same literal with more in front. */
  function After(cps: seq<nat>, rest: Literal): Literal {
    if rest.Done? then Done(cps + rest.cps, rest.end) else rest
  }

  /**
   The value of a string literal from position i to its closing quote. Once an escape has been seen, the
   value is copied, which panics on a character out of range.
   */
  function StringValue(buf: seq<byte>, i: nat, quote: byte, strict: bool, copying: bool): (r: Literal)
    ensures r.Done? ==> i < r.end <= |buf|
    decreases |buf| - i
  {
    var c := At(buf, i);
    if c == '\\' as int then
      match StringEscape(buf, i, strict)
      case Ok(e) => if InRange(e.cps) then After(e.cps, StringValue(buf, e.end, quote, strict, true)) else Panics
      case Err(error) => Fails(error)
      case Panicked => Panics
    else if c == quote then Done([], i + 1)
    else if c == 0x0A || c == 0x0D || c == EOF_CHAR then Fails(UnterminatedStringLiteral)
    else
      match CharAt(buf, i)
      case None => Fails(InvalidUnicode)
      case Some(ch) =>
        if copying && ch.cp > MAX_CODE_POINT then Panics
        else After([ch.cp], StringValue(buf, i + ch.length, quote, strict, copying))
  }

  lemma AfterAfter(a: seq<nat>, b: seq<nat>, rest: Literal)
    ensures After(a, After(b, rest)) == After(a + b, rest)
  {
    if rest.Done? {
      assert a + (b + rest.cps) == a + b + rest.cps;
    }
  }

  /** A value that grows by encoded code points. */
  lemma CodePointsGrow(value: seq<byte>, cps: seq<nat>)
    requires CodePoints(value).Some? && InRange(cps)
    ensures CodePoints(value + EncodeAll(cps)) == Some(CodePoints(value).value + cps)
  {
    CodePointsOfEncoding(cps);
    CodePointsConcat(value, EncodeAll(cps));
  }

  function Cps(text: seq<Char>): seq<nat> {
    if text == [] then [] else Cps(text[..|text| - 1]) + [text[|text| - 1].cp]
  }

  lemma {:induction false} CpsCons(c: Char, text: seq<Char>)
    ensures Cps([c] + text) == [c.cp] + Cps(text)
  {
    if text == [] {
      assert [c] + text == [c] && [c][..0] == [];
    } else {
      var all, last := [c] + text, text[|text| - 1];
      assert all[..|text|] == [c] + text[..|text| - 1] && all[|text|] == last;
      CpsCons(c, text[..|text| - 1]);
    }
  }

  /** A slice of whole characters. */
  lemma {:induction false} SliceCodePoints(buf: seq<byte>, i: nat, j: nat)
    requires Chars(buf, i, j).Some? && j <= |buf|
    ensures i <= j && CodePoints(buf[i..j]) == Some(Cps(Chars(buf, i, j).value))
    decreases j - i
  {
    CharsBounds(buf, i, j);
    if i == j {
      assert buf[i..j] == [];
    } else {
      var c := CharAt(buf, i).value;
      var k := i + c.length;
      CharsBounds(buf, k, j);
      SliceCodePoints(buf, k, j);
      SliceChar(buf, i, k, j);
      CodePointsConcat(buf[i..k], buf[k..j]);
      CpsCons(c, Chars(buf, k, j).value);
    }
  }

  /** A slice of the source is what copying its characters would build exactly if it is canonical. */
  lemma SliceIsCopy(buf: seq<byte>, i: nat, j: nat)
    requires Chars(buf, i, j).Some? && j <= |buf|
    ensures var cps := Cps(Chars(buf, i, j).value);
            i <= j && (Canonical(buf[i..j]) <==> InRange(cps) && EncodeAll(cps) == buf[i..j])
  {
    SliceCodePoints(buf, i, j);
    CanonicalIffReencodes(buf[i..j]);
  }

  /** Copying makes no difference where all characters are in range. */
  lemma {:induction false} CopyingIsExact(buf: seq<byte>, i: nat, quote: byte, strict: bool)
    requires InRangeFrom(buf, i)
    ensures StringValue(buf, i, quote, strict, true) == StringValue(buf, i, quote, strict, false)
    ensures !StringValue(buf, i, quote, strict, true).Done? || InRange(StringValue(buf, i, quote, strict, true).cps)
    decreases |buf| - i
  {
    if i < |buf| {
      var c := At(buf, i);
      if c == '\\' as int {
        EscapeInRange(buf, i);
        var e := StringEscape(buf, i, strict);
        if e.Ok? {
          CopyingIsExact(buf, e.value.end, quote, strict);
        }
      } else if CharAt(buf, i).Some? {
        CopyingIsExact(buf, i + CharAt(buf, i).value.length, quote, strict);
      }
    }
  }

  /** Every character from i on, wherever it is read, is a code point. */
  ghost predicate InRangeFrom(buf: seq<byte>, i: nat) {
    forall j | i <= j < |buf| && CharAt(buf, j).Some? :: CharAt(buf, j).value.cp <= MAX_CODE_POINT
  }

  /** Canonical source is in range: inside its characters no other character can be read. */
  lemma {:induction false} CanonicalInRange(buf: seq<byte>, i: nat)
    requires i <= |buf| && Canonical(buf[i..])
    ensures InRangeFrom(buf, i)
    decreases |buf| - i
  {
    if i < |buf| {
      var d := DecodeChar(buf[i..]);
      var k := i + d.length;
      assert buf[i..][d.length..] == buf[k..];
      CanonicalInRange(buf, k);
      CharAtDecodes(buf, i);
      forall j | i < j < k
        ensures CharAt(buf, j).None?
      {
        InsideChar(buf[i..], j - i);
        assert buf[i..][j - i..] == buf[j..];
        CharAtDecodes(buf, j);
      }
    }
  }

  lemma InsideChar(buf: seq<byte>, j: nat)
    requires 0 < |buf| && DecodeChar(buf).CodePoint? && 0 < j < DecodeChar(buf).length
    ensures DecodeChar(buf[j..]).Invalid?
  {
    assert IsContinuation(buf[j]);
  }

  lemma EscapeInRange(buf: seq<byte>, i: nat)
    requires At(buf, i) == '\\' as int && InRangeFrom(buf, i)
    ensures var e := EscapeAt(buf, i);
            (e.Escaped? ==> InRange(e.cps)) && (e.LegacyOctal? || e.LegacyNonOctal? ==> e.cp <= 0xFF)
  {
    var c := At(buf, i + 1);
    if SingleEscape(c).None? {
      if IsDecimalDigit(c) {
        DigitEscapeInRange(buf, i);
      } else if c == 'x' as int {
        HexEscapeInRange(buf, i + 2);
      } else if c != 'u' as int {
        OtherEscapeInRange(buf, i);
      }
    }
  }

  lemma DigitEscapeInRange(buf: seq<byte>, i: nat)
    requires IsDecimalDigit(At(buf, i + 1))
    ensures var e := DigitEscape(buf, i); if e.Escaped? then e.cps == [0] else e.cp <= 0xFF
  {
    if IsDigit(At(buf, i + 1), 8) {
      OctalBound(buf, i + 1);
    }
  }

  lemma HexEscapeInRange(buf: seq<byte>, i: nat)
    ensures var e := HexEscape(buf, i); e.Escaped? ==> e.cps[0] <= 0xFF
  {
    if IsDigit(At(buf, i), 16) && IsDigit(At(buf, i + 1), 16) {
      TwoDigits(buf, i, 16);
    }
  }

  lemma OtherEscapeInRange(buf: seq<byte>, i: nat)
    requires InRangeFrom(buf, i)
    ensures var e := OtherEscape(buf, i); e.Escaped? ==> InRange(e.cps)
  {}

  lemma TwoDigits(buf: seq<byte>, i: nat, base: nat)
    requires IsDigit(At(buf, i), base) && IsDigit(At(buf, i + 1), base)
    ensures NumberValue(buf[i..i + 1], base) == DigitValue(At(buf, i), base).value
    ensures NumberValue(buf[i..i + 2], base) == DigitValue(At(buf, i), base).value * base + DigitValue(At(buf, i + 1), base).value
  {
    assert buf[i..i + 1][..0] == [] && buf[i..i + 2][..1] == buf[i..i + 1];
  }

  lemma OctalBound(buf: seq<byte>, i: nat)
    requires IsDigit(At(buf, i), 8)
    ensures NumberValue(buf[i..i + OctalEscapeLength(buf, i)], 8) <= 0xFF
  {
    var n := OctalEscapeLength(buf, i);
    assert buf[i..i + 1][..0] == [];
    if n > 1 {
      TwoDigits(buf, i, 8);
    }
    if n > 2 {
      assert buf[i..i + 3][..2] == buf[i..i + 2];
    }
  }

  // ----- Templates -----

  /** The part of a template up to its end or the next substitution. */
  datatype TemplatePart = Part(cps: seq<nat>, isMalformed: bool, rawEnd: nat, isTail: bool) | PartFails(error: LexError) | PartPanics

  datatype TemplatePiece = TemplatePiece(piece: Piece, isMalformed: bool)

  /** Octal escapes are malformed in templates; a malformed escape does not end the template. */
  function TemplateEscape(buf: seq<byte>, i: nat): (r: Outcome<TemplatePiece>)
    requires At(buf, i) == '\\' as int
    ensures r.Ok? ==> i + 2 <= r.value.piece.end <= |buf|
  {
    match EscapeAt(buf, i)
    case Escaped(cps, end) => Ok(TemplatePiece(Piece(cps, end), false))
    case LegacyOctal(_, _) => Ok(TemplatePiece(Piece([], i + 2), true))
    case LegacyNonOctal(_) => Ok(TemplatePiece(Piece([], i + 2), true))
    case Malformed(end) => Ok(TemplatePiece(Piece([], end), true))
    case BadCharacter => Err(InvalidUnicode)
    case AtEof => Panicked
  }

  function PartAfter(cps: seq<nat>, isMalformed: bool, rest: TemplatePart): TemplatePart {
    if rest.Part? then rest.(cps := cps + rest.cps, isMalformed := isMalformed || rest.isMalformed) else rest
  }

  lemma PartAfterAfter(a: seq<nat>, m: bool, b: seq<nat>, n: bool, rest: TemplatePart)
    ensures PartAfter(a, m, PartAfter(b, n, rest)) == PartAfter(a + b, m || n, rest)
  {
    if rest.Part? {
      assert a + (b + rest.cps) == a + b + rest.cps;
    }
  }

  function TemplateValue(buf: seq<byte>, i: nat, copying: bool): (r: TemplatePart)
    ensures r.Part? ==> i <= r.rawEnd && r.rawEnd + (if r.isTail then 1 else 2) <= |buf|
    decreases |buf| - i
  {
    var c := At(buf, i);
    if c == '$' as int && At(buf, i + 1) == '{' as int then Part([], false, i, false)
    else if c == '`' as int then Part([], false, i, true)
    else if c == '\\' as int then
      match TemplateEscape(buf, i)
      case Ok(e) =>
        if InRange(e.piece.cps) then PartAfter(e.piece.cps, e.isMalformed, TemplateValue(buf, e.piece.end, true)) else PartPanics
      case Err(error) => PartFails(error)
      case Panicked => PartPanics
    else if c == 0x0D then
      PartAfter([0x0A], false, TemplateValue(buf, if At(buf, i + 1) == 0x0A then i + 2 else i + 1, true))
    else if c == EOF_CHAR then PartPanics
    else
      match CharAt(buf, i)
      case None => PartFails(InvalidUnicode)
      case Some(ch) =>
        if copying && ch.cp > MAX_CODE_POINT then PartPanics
        else PartAfter([ch.cp], false, TemplateValue(buf, i + ch.length, copying))
  }

  /** CR LF and CR become LF. */
  function Normalized<T(==)>(text: seq<T>, cr: T, lf: T): seq<T>
    decreases |text|
  {
    if text == [] then []
    else if text[0] != cr then [text[0]] + Normalized(text[1..], cr, lf)
    else [lf] + Normalized(text[if |text| > 1 && text[1] == lf then 2 else 1..], cr, lf)
  }

  const CR: byte := 0x0D
  const LF: byte := 0x0A

  lemma {:induction false} NormalizedConcat(a: seq<byte>, b: seq<byte>)
    requires CR !in a
    ensures Normalized(a + b, CR, LF) == a + Normalized(b, CR, LF)
  {
    if a == [] {
      assert a + b == b;
    } else {
      assert (a + b)[1..] == a[1..] + b;
      NormalizedConcat(a[1..], b);
    }
  }

  /** A character is read in the same way in a slice that holds all of it. */
  lemma DecodeCharInSlice(buf: seq<byte>, n: nat)
    requires 0 < |buf| && DecodeChar(buf).CodePoint? && DecodeChar(buf).length <= n <= |buf|
    ensures DecodeChar(buf[..n]) == DecodeChar(buf)
  {}

  /** All bytes of a longer character are above ASCII. */
  lemma LongCharBytes(buf: seq<byte>)
    requires 0 < |buf| && DecodeChar(buf).CodePoint?
    ensures forall b <- buf[..DecodeChar(buf).length] :: b == buf[0] || b >= 0x80
    ensures buf[0] < 0x80 ==> DecodeChar(buf) == CodePoint(buf[0], 1)
  {}

  /** The first character of a slice of the source, and the rest. */
  lemma SliceChar(buf: seq<byte>, i: nat, k: nat, j: nat)
    requires CharAt(buf, i).Some? && k == i + CharAt(buf, i).value.length && k <= j <= |buf|
    ensures buf[i..j] == buf[i..k] + buf[k..j] && CodePoints(buf[i..k]) == Some([CharAt(buf, i).value.cp])
  {
    var c := CharAt(buf, i).value;
    CharAtDecodes(buf, i);
    assert buf[i..][..c.length] == buf[i..k];
    DecodeCharInSlice(buf[i..], c.length);
    assert buf[i..k][c.length..] == [];
    assert [c.cp] + [] == [c.cp];
  }

  /** Without a backslash, the value of a template part is its source with line ends normalized. */
  lemma {:induction false} PlainTemplate(buf: seq<byte>, i: nat, copying: bool)
    requires TemplateValue(buf, i, copying).Part?
    requires '\\' as int !in buf[i..TemplateValue(buf, i, copying).rawEnd]
    ensures var r := TemplateValue(buf, i, copying);
            !r.isMalformed && CodePoints(Normalized(buf[i..r.rawEnd], CR, LF)) == Some(r.cps)
    decreases |buf| - i
  {
    var r := TemplateValue(buf, i, copying);
    if r.rawEnd > i {
      assert buf[i..r.rawEnd][0] == buf[i];
      var k := if buf[i] != CR then i + CharAt(buf, i).value.length else if At(buf, i + 1) == LF then i + 2 else i + 1;
      var copying' := copying || buf[i] == CR;
      PlainTemplateStep(buf, i, copying);
      assert buf[i..r.rawEnd][k - i..] == buf[k..r.rawEnd];
      PlainTemplate(buf, k, copying');
      if buf[i] == CR {
        PlainCr(buf, i, k, r.rawEnd);
      } else {
        PlainChar(buf, i, k, r.rawEnd);
      }
    } else {
      assert buf[i..r.rawEnd] == [];
    }
  }

  lemma PlainTemplateStep(buf: seq<byte>, i: nat, copying: bool)
    requires TemplateValue(buf, i, copying).Part? && i < TemplateValue(buf, i, copying).rawEnd && buf[i] != '\\' as int
    ensures buf[i] != CR ==> CharAt(buf, i).Some?
    ensures var k := if buf[i] != CR then i + CharAt(buf, i).value.length else if At(buf, i + 1) == LF then i + 2 else i + 1;
            var cp := if buf[i] != CR then CharAt(buf, i).value.cp else 0x0A;
            TemplateValue(buf, i, copying) == PartAfter([cp], false, TemplateValue(buf, k, copying || buf[i] == CR))
  {}

  lemma PlainCr(buf: seq<byte>, i: nat, k: nat, j: nat)
    requires i < j <= |buf| && buf[i] == CR && k <= j && k == (if At(buf, i + 1) == LF then i + 2 else i + 1)
    requires CodePoints(Normalized(buf[k..j], CR, LF)).Some?
    ensures CodePoints(Normalized(buf[i..j], CR, LF)) == Some([0x0A] + CodePoints(Normalized(buf[k..j], CR, LF)).value)
  {
    var body, n := buf[i..j], [LF] + Normalized(buf[k..j], CR, LF);
    assert body[k - i..] == buf[k..j];
    assert Normalized(body, CR, LF) == n;
    assert n[1..] == Normalized(buf[k..j], CR, LF);
  }

  lemma PlainChar(buf: seq<byte>, i: nat, k: nat, j: nat)
    requires CharAt(buf, i).Some? && buf[i] != CR && k == i + CharAt(buf, i).value.length && k <= j <= |buf|
    requires CodePoints(Normalized(buf[k..j], CR, LF)).Some?
    ensures CodePoints(Normalized(buf[i..j], CR, LF))
         == Some([CharAt(buf, i).value.cp] + CodePoints(Normalized(buf[k..j], CR, LF)).value)
  {
    SliceChar(buf, i, k, j);
    CharHasNo(CR, buf, i, k);
    PlainRaw(buf[i..k], buf[k..j], CharAt(buf, i).value.cp);
  }

  /** An ASCII byte is in no other character. */
  lemma CharHasNo(b: byte, buf: seq<byte>, i: nat, k: nat)
    requires b < 0x80 && CharAt(buf, i).Some? && buf[i] != b && k == i + CharAt(buf, i).value.length
    ensures b !in buf[i..k]
  {
    CharAtDecodes(buf, i);
    LongCharBytes(buf[i..]);
    assert buf[i..][..k - i] == buf[i..k];
  }

  lemma PlainRaw(a: seq<byte>, b: seq<byte>, cp: nat)
    requires CR !in a && CodePoints(a) == Some([cp]) && CodePoints(Normalized(b, CR, LF)).Some?
    ensures CodePoints(Normalized(a + b, CR, LF)) == Some([cp] + CodePoints(Normalized(b, CR, LF)).value)
  {
    NormalizedConcat(a, b);
    CodePointsConcat(a, Normalized(b, CR, LF));
  }

  /** On canonical source, normalizing bytes is normalizing code points, and the result is canonical again. */
  lemma {:induction false} NormalizedCodePoints(body: seq<byte>)
    requires Canonical(body)
    ensures CodePoints(body).Some? && Canonical(Normalized(body, CR, LF))
    ensures CodePoints(Normalized(body, CR, LF)) == Some(Normalized(CodePoints(body).value, 0x0D, 0x0A))
    decreases |body|
  {
    if body != [] {
      var d := DecodeChar(body);
      var rest := body[d.length..];
      if body[0] != CR {
        NormalizedCodePoints(rest);
        NormalizedChar(body);
      } else {
        var k := if |body| > 1 && body[1] == LF then 2 else 1;
        if k == 2 {
          AsciiFirst(LF, body[2..]);
          assert body[1..] == [LF] + body[2..];
        }
        NormalizedCodePoints(body[k..]);
        NormalizedCr(body, k);
      }
    }
  }

  lemma NormalizedCr(body: seq<byte>, k: nat)
    requires body != [] && Canonical(body) && body[0] == CR && k == if |body| > 1 && body[1] == LF then 2 else 1
    requires var rest := body[k..];
             && CodePoints(rest).Some? && Canonical(Normalized(rest, CR, LF))
             && CodePoints(Normalized(rest, CR, LF)) == Some(Normalized(CodePoints(rest).value, 0x0D, 0x0A))
    ensures CodePoints(body).Some? && Canonical(Normalized(body, CR, LF))
    ensures CodePoints(Normalized(body, CR, LF)) == Some(Normalized(CodePoints(body).value, 0x0D, 0x0A))
  {
    var rest := body[k..];
    AsciiFirst(LF, Normalized(rest, CR, LF));
    CrCodePoints(body, k);
    var cps := CodePoints(body).value;
    assert cps[k..] == CodePoints(rest).value;
  }

  /** CR is a code point of its own, and LF after it is the next. */
  lemma CrCodePoints(body: seq<byte>, k: nat)
    requires body != [] && Canonical(body) && body[0] == CR && k == if |body| > 1 && body[1] == LF then 2 else 1
    requires CodePoints(body[k..]).Some?
    ensures CodePoints(body) == Some((if k == 2 then [0x0D, 0x0A] else [0x0D]) + CodePoints(body[k..]).value)
    ensures k == 1 && |CodePoints(body).value| > 1 ==> CodePoints(body).value[1] != 0x0A
  {
    var tail := body[1..];
    assert body == [CR] + tail;
    AsciiFirst(CR, tail);
    if k == 2 {
      assert tail == [LF] + body[2..];
      AsciiFirst(LF, body[2..]);
      assert [0x0D] + ([0x0A] + CodePoints(body[2..]).value) == [0x0D, 0x0A] + CodePoints(body[2..]).value;
    } else if tail != [] {
      FirstIsNotLf(tail);
    }
  }

  lemma FirstIsNotLf(bytes: seq<byte>)
    requires bytes != [] && Canonical(bytes) && bytes[0] != LF && CodePoints(bytes).Some?
    ensures CodePoints(bytes).value[0] != 0x0A
  {
    assert DecodeChar(bytes).value != 0x0A;
  }

  lemma AsciiFirst(b: byte, rest: seq<byte>)
    requires b < 0x80
    ensures Canonical([b] + rest) == Canonical(rest)
    ensures CodePoints(rest).Some? ==> CodePoints([b] + rest) == Some([b] + CodePoints(rest).value)
  {
    assert ([b] + rest)[1..] == rest;
  }

  /** A character that is not CR stays as it is. */
  lemma NormalizedChar(body: seq<byte>)
    requires body != [] && Canonical(body) && body[0] != CR
    requires var rest := body[DecodeChar(body).length..];
             && CodePoints(rest).Some? && Canonical(Normalized(rest, CR, LF))
             && CodePoints(Normalized(rest, CR, LF)) == Some(Normalized(CodePoints(rest).value, 0x0D, 0x0A))
    ensures CodePoints(body).Some? && Canonical(Normalized(body, CR, LF))
    ensures CodePoints(Normalized(body, CR, LF)) == Some(Normalized(CodePoints(body).value, 0x0D, 0x0A))
  {
    var d := DecodeChar(body);
    var first, rest := body[..d.length], body[d.length..];
    var rest' := Normalized(rest, CR, LF);
    LongCharBytes(body);
    assert body == first + rest && CR !in first;
    NormalizedConcat(first, rest);
    DecodeCharInSlice(body, d.length);
    DecodeCharExtend(first, rest');
    assert (first + rest')[d.length..] == rest';
    var cps := CodePoints(body).value;
    assert cps[1..] == CodePoints(rest).value && cps[0] == d.value != 0x0D;
  }

  /** On canonical source without a backslash, the value and the raw text of a template part agree in every byte. */
  lemma PlainTemplateBytes(buf: seq<byte>, i: nat, copying: bool)
    requires TemplateValue(buf, i, copying).Part?
    requires '\\' as int !in buf[i..TemplateValue(buf, i, copying).rawEnd]
    requires Canonical(buf[i..TemplateValue(buf, i, copying).rawEnd])
    ensures var r := TemplateValue(buf, i, copying);
            var body := buf[i..r.rawEnd];
            && CodePoints(body).Some? && r.cps == Normalized(CodePoints(body).value, 0x0D, 0x0A)
            && InRange(r.cps) && EncodeAll(r.cps) == Normalized(body, CR, LF)
  {
    var body := buf[i..TemplateValue(buf, i, copying).rawEnd];
    PlainTemplate(buf, i, copying);
    NormalizedCodePoints(body);
    CanonicalIffReencodes(Normalized(body, CR, LF));
  }

  /** Without a CR there is nothing to normalize. */
  lemma NothingToNormalize(body: seq<byte>)
    requires CR !in body
    ensures Normalized(body, CR, LF) == body
  {
    NormalizedConcat(body, []);
    assert body + [] == body;
  }

  // ----- Normalizing the raw text of a template -----

  /** The slices between the CRs. */
  function Split(bytes: seq<byte>): (r: seq<seq<byte>>)
    ensures |r| > 0
  {
    if bytes == [] then [[]]
    else
      var rest := Split(bytes[1..]);
      if bytes[0] == CR then [[]] + rest else [[bytes[0]] + rest[0]] + rest[1..]
  }

  function WithoutLf(slice: seq<byte>): seq<byte> {
    if slice != [] && slice[0] == LF then slice[1..] else slice
  }

  /** The slices after the first, each with a LF in front instead of what separated it. */
  function Rejoined(slices: seq<seq<byte>>): seq<byte> {
    if slices == [] then [] else [LF] + WithoutLf(slices[0]) + Rejoined(slices[1..])
  }

  method NormalizeRaw(raw: seq<byte>) returns (r: seq<byte>)
    ensures r == Normalized(raw, CR, LF)
  {
    var slices := Split(raw);
    SplitNormalizes(raw);
    r := slices[0];
    for i := 1 to |slices|
      invariant r + Rejoined(slices[i..]) == Normalized(raw, CR, LF)
    {
      assert slices[i..][1..] == slices[i + 1..];
      r := r + [LF] + WithoutLf(slices[i]);
    }
  }

  lemma {:induction false} SplitNormalizes(bytes: seq<byte>)
    ensures Split(bytes)[0] + Rejoined(Split(bytes)[1..]) == Normalized(bytes, CR, LF)
    decreases |bytes|
  {
    if bytes != [] {
      var rest := bytes[1..];
      SplitNormalizes(rest);
      if bytes[0] == CR {
        assert Split(bytes)[1..] == Split(rest);
        if rest != [] && rest[0] == LF {
          SplitNormalizes(rest[1..]);
          assert WithoutLf(Split(rest)[0]) == Split(rest[1..])[0];
          assert Split(rest)[1..] == Split(rest[1..])[1..];
          assert bytes[2..] == rest[1..];
        } else {
          assert WithoutLf(Split(rest)[0]) == Split(rest)[0];
        }
      } else {
        assert Split(bytes)[1..] == Split(rest)[1..];
      }
    }
  }

  // ----- What is not inside an escape -----

  /** A byte that is no part of the digits of an escape, nor of a longer character. */
  predicate IsOutsider(b: byte) { b < 0x80 && !IsDigit(b, 16) && b != '{' as int && b != '}' as int }

  lemma {:induction false} DigitsHaveNo(b: byte, buf: seq<byte>, i: nat, n: nat)
    requires i <= |buf| && IsOutsider(b)
    ensures var k := DigitCount(buf, i, 16, n); i + k <= |buf| && b !in buf[i..i + k]
    decreases n
  {
    var k := DigitCount(buf, i, 16, n);
    if k > 0 {
      DigitsHaveNo(b, buf, i + 1, n - 1);
      assert buf[i..i + k] == [buf[i]] + buf[i + 1..i + k];
    }
  }

  /** The part of a template escape that the cursor moves over has a CR only if it is a line continuation. */
  lemma EscapeHasNoCr(buf: seq<byte>, i: nat)
    requires At(buf, i) == '\\' as int && TemplateEscape(buf, i).Ok?
    ensures var end := TemplateEscape(buf, i).value.piece.end; CR in buf[i..end] <==> At(buf, i + 1) == CR
  {
    var c, end := At(buf, i + 1), TemplateEscape(buf, i).value.piece.end;
    assert end > i + 1 && buf[i..end][1] == c;
    if c != CR {
      assert buf[i..end] == [buf[i], buf[i + 1]] + buf[i + 2..end];
      TailHasNo(CR, buf, i);
    }
  }

  /** Behind its first two bytes an escape holds only digits, braces and rests of characters, or the LF of a CR LF. */
  lemma TailHasNo(b: byte, buf: seq<byte>, i: nat)
    requires At(buf, i) == '\\' as int && TemplateEscape(buf, i).Ok? && IsOutsider(b) && (At(buf, i + 1) == CR ==> b != LF)
    ensures b !in buf[i + 2..TemplateEscape(buf, i).value.piece.end]
  {
    var c, end := At(buf, i + 1), TemplateEscape(buf, i).value.piece.end;
    if SingleEscape(c).None? {
      if c == 'u' as int {
        UnicodeHasNo(b, buf, i + 2);
      } else if c == 'x' as int {
        HexHasNo(b, buf, i + 2);
      } else if !IsDecimalDigit(c) && c != LF && c != CR {
        RestHasNo(b, buf, i + 1, end);
      }
    }
  }

  /** An ASCII byte is not in a character behind its first byte. */
  lemma RestHasNo(b: byte, buf: seq<byte>, i: nat, k: nat)
    requires b < 0x80 && CharAt(buf, i).Some? && k == i + CharAt(buf, i).value.length
    ensures b !in buf[i + 1..k]
  {
    CharAtDecodes(buf, i);
    LongCharBytes(buf[i..]);
    if buf[i] != b {
      CharHasNo(b, buf, i, k);
      assert buf[i..k][1..] == buf[i + 1..k];
    }
  }

  lemma HexHasNo(b: byte, buf: seq<byte>, i: nat)
    requires i <= |buf| && IsOutsider(b)
    ensures i <= HexEscape(buf, i).end <= |buf| && b !in buf[i..HexEscape(buf, i).end]
  {
    var end := HexEscape(buf, i).end;
    if end == i + 2 {
      assert buf[i..end] == [buf[i], buf[i + 1]];
    } else if end == i + 1 {
      assert buf[i..end] == [buf[i]];
    }
  }

  lemma UnicodeHasNo(b: byte, buf: seq<byte>, i: nat)
    requires i <= |buf| && IsOutsider(b)
    ensures i <= UnicodeEscape(buf, i).end <= |buf| && b !in buf[i..UnicodeEscape(buf, i).end]
  {
    if At(buf, i) == '{' as int {
      BracedHasNo(b, buf, i + 1);
      var end := BracedEscape(buf, i + 1).end;
      assert buf[i..end] == [buf[i]] + buf[i + 1..end];
    } else {
      DigitsHaveNo(b, buf, i, 4);
    }
  }

  lemma BracedHasNo(b: byte, buf: seq<byte>, i: nat)
    requires i <= |buf| && IsOutsider(b)
    ensures i <= BracedEscape(buf, i).end <= |buf| && b !in buf[i..BracedEscape(buf, i).end]
  {
    DigitsHaveNo(b, buf, i, 6);
    var k, end := i + DigitCount(buf, i, 16, 6), BracedEscape(buf, i).end;
    assert buf[i..end] == buf[i..k] + buf[k..end];
  }

  /** A template part ends here. */
  predicate AtPartEnd(buf: seq<byte>, i: nat) {
    At(buf, i) == '`' as int || (At(buf, i) == '$' as int && At(buf, i + 1) == '{' as int)
  }

  lemma CrInSlice(buf: seq<byte>, i: nat, j: nat, k: nat)
    requires i <= j <= k <= |buf|
    ensures CR in buf[i..k] <==> CR in buf[i..j] || CR in buf[j..k]
  {
    assert buf[i..k] == buf[i..j] + buf[j..k];
  }

  // ----- Characters that stand for themselves -----

  datatype Place = InString(quote: byte) | InTemplate

  /** A character that has a meaning of its own in a string literal or template, or ends it. */
  predicate Stops(place: Place, buf: seq<byte>, i: nat) {
    var c := At(buf, i);
    || c == '\\' as int || c == CR
    || match place
       case InString(quote) => c == quote || c == LF || c == EOF_CHAR
       case InTemplate => AtPartEnd(buf, i)
  }

  /** The end of the characters from i that stand for themselves. */
  function PlainEnd(place: Place, buf: seq<byte>, i: nat): (j: nat)
    requires i <= |buf|
    ensures i <= j <= |buf|
    decreases |buf| - i
  {
    if Stops(place, buf, i) || CharAt(buf, i).None? then i else PlainEnd(place, buf, i + CharAt(buf, i).value.length)
  }

  lemma {:induction false} PlainEndStops(place: Place, buf: seq<byte>, i: nat)
    requires i <= |buf|
    ensures var j := PlainEnd(place, buf, i); Stops(place, buf, j) || CharAt(buf, j).None?
    decreases |buf| - i
  {
    if !Stops(place, buf, i) && CharAt(buf, i).Some? {
      PlainEndStops(place, buf, i + CharAt(buf, i).value.length);
    }
  }

  /** Such characters are copied into the value. */
  lemma {:induction false} PlainString(buf: seq<byte>, i: nat, quote: byte, strict: bool)
    requires i <= |buf|
    ensures var j := PlainEnd(InString(quote), buf, i);
            && Chars(buf, i, j).Some?
            && StringValue(buf, i, quote, strict, false)
               == After(Cps(Chars(buf, i, j).value), StringValue(buf, j, quote, strict, false))
    decreases |buf| - i
  {
    if !Stops(InString(quote), buf, i) && CharAt(buf, i).Some? {
      var c := CharAt(buf, i).value;
      var k, j := i + c.length, PlainEnd(InString(quote), buf, i);
      PlainString(buf, k, quote, strict);
      var text := Chars(buf, k, j).value;
      CpsCons(c, text);
      AfterAfter([c.cp], Cps(text), StringValue(buf, j, quote, strict, false));
    } else {
      assert After([], StringValue(buf, i, quote, strict, false)) == StringValue(buf, i, quote, strict, false);
    }
  }

  lemma {:induction false} PlainPart(buf: seq<byte>, i: nat)
    requires i <= |buf|
    ensures var j := PlainEnd(InTemplate, buf, i);
            && Chars(buf, i, j).Some?
            && TemplateValue(buf, i, false) == PartAfter(Cps(Chars(buf, i, j).value), false, TemplateValue(buf, j, false))
    decreases |buf| - i
  {
    if !Stops(InTemplate, buf, i) && CharAt(buf, i).Some? {
      var c := CharAt(buf, i).value;
      var k, j := i + c.length, PlainEnd(InTemplate, buf, i);
      PlainPart(buf, k);
      var text := Chars(buf, k, j).value;
      CpsCons(c, text);
      PartAfterAfter([c.cp], false, Cps(text), false, TemplateValue(buf, j, false));
    } else {
      assert PartAfter([], false, TemplateValue(buf, i, false)) == TemplateValue(buf, i, false);
    }
  }

  lemma {:induction false} PlainHasNoCr(place: Place, buf: seq<byte>, i: nat)
    requires i <= |buf|
    ensures CR !in buf[i..PlainEnd(place, buf, i)]
    decreases |buf| - i
  {
    if !Stops(place, buf, i) && CharAt(buf, i).Some? {
      var k := i + CharAt(buf, i).value.length;
      PlainHasNoCr(place, buf, k);
      CharHasNo(CR, buf, i, k);
      CrInSlice(buf, i, k, PlainEnd(place, buf, i));
    }
  }
}
