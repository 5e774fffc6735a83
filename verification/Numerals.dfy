/** Numeric literals (section 12.9.3 of ECMA-262, and its legacy octal literals). */
module Numerals {
  import opened Wrappers
  import opened Bits
  import opened Characters
  import opened Literals

  const TWO_64 := 0x1_0000_0000_0000_0000

  /** A number is an exact integer or a decimal text without separators; how it is rounded is left out. */
  datatype Numeral =
    | Integer(value: nat)
    | Decimal(text: seq<byte>)
    | BigInt(digits: seq<byte>, base: nat)

  datatype Lexed = Lexed(numeral: Numeral, end: nat)

  /** The end of the longest run of digits, and of separators if they are allowed. */
  function RunEnd(buf: seq<byte>, i: nat, base: nat, separators: bool): (r: nat)
    ensures i <= r && (i <= |buf| ==> r <= |buf|)
    decreases |buf| - i
  {
    if IsDigit(At(buf, i), base) || (separators && IsSeparator(At(buf, i))) then RunEnd(buf, i + 1, base, separators) else i
  }

  predicate HasAdjacentSeparators(text: seq<byte>) {
    var n := |text|;
    n > 1 && (HasAdjacentSeparators(text[..n - 1]) || (IsSeparator(text[n - 2]) && IsSeparator(text[n - 1])))
  }

  /** Separators have to stand between two digits. */
  function NumeralError(text: seq<byte>, base: nat): Option<LexError> {
    if text == [] || !IsDigit(text[0], base) then Some(MalformedNumericLiteral)
    else if HasAdjacentSeparators(text) then Some(AdjacentNumericSeparators)
    else if IsSeparator(text[|text| - 1]) then Some(TrailingNumericSeparator)
    else None
  }

  function WithoutSeparators(text: seq<byte>): seq<byte> {
    if text == [] then []
    else WithoutSeparators(text[..|text| - 1]) + (if IsSeparator(text[|text| - 1]) then [] else [text[|text| - 1]])
  }

  // ----- Literals -----

  /** 0b, 0o or 0x and digits. */
  function BasedLiteral(buf: seq<byte>, i: nat, base: nat): (r: Outcome<Lexed>)
    requires i + 2 <= |buf|
    ensures !r.Panicked?
  {
    var end := RunEnd(buf, i + 2, base, true);
    var text := buf[i + 2..end];
    var error := NumeralError(text, base);
    if error.Some? then Err(error.value)
    else if At(buf, end) == 'n' as int then Ok(Lexed(BigInt(text, base), end + 1))
    else Ok(Lexed(Integer(NumberValue(text, base)), end))
  }

  /** Optional decimal digits; gives where they end. */
  function DecimalDigits(buf: seq<byte>, i: nat, separators: bool): (r: Outcome<nat>)
    requires i <= |buf|
    ensures !r.Panicked? && (r.Ok? ==> i <= r.value <= |buf|)
  {
    if !IsDecimalDigit(At(buf, i)) then Ok(i)
    else
      var end := RunEnd(buf, i, 10, separators);
      var error := NumeralError(buf[i..end], 10);
      if error.Some? then Err(error.value) else Ok(end)
  }

  /** The fraction and the exponent of a decimal literal, from behind its integer digits. */
  function DecimalTail(buf: seq<byte>, i: nat, separators: bool): (r: Outcome<nat>)
    requires i <= |buf|
    ensures !r.Panicked? && (r.Ok? ==> i <= r.value <= |buf|)
  {
    var fraction := if At(buf, i) == '.' as int then DecimalDigits(buf, i + 1, separators) else Ok(i);
    if !fraction.Ok? then fraction else ExponentPart(buf, fraction.value, separators)
  }

  function ExponentPart(buf: seq<byte>, i: nat, separators: bool): (r: Outcome<nat>)
    requires i <= |buf|
    ensures !r.Panicked? && (r.Ok? ==> i <= r.value <= |buf|)
  {
    if At(buf, i) != 'e' as int && At(buf, i) != 'E' as int then Ok(i)
    else
      var k := if At(buf, i + 1) == '-' as int || At(buf, i + 1) == '+' as int then i + 2 else i + 1;
      if !IsDecimalDigit(At(buf, k)) then Err(MalformedNumericLiteral) else DecimalDigits(buf, k, separators)
  }

  function DecimalLiteral(buf: seq<byte>, i: nat): (r: Outcome<Lexed>)
    requires i <= |buf|
    ensures !r.Panicked?
  {
    var hasLeadingZero := At(buf, i) == '0' as int;
    var digits := DecimalDigits(buf, i, !hasLeadingZero);
    if digits.Err? then Err(digits.error)
    else if At(buf, digits.value) == 'n' as int then
      if hasLeadingZero && digits.value != i + 1 then Err(BigIntLeadingZero)
      else Ok(Lexed(BigInt(buf[i..digits.value], 10), digits.value + 1))
    else
      var end := DecimalTail(buf, digits.value, !hasLeadingZero);
      if end.Err? then Err(end.error)
      else Ok(Lexed(Decimal(WithoutSeparators(buf[i..end.value])), end.value))
  }

  /** A zero and octal digits only. A literal with the digit 8 or 9 is a decimal one. */
  function LegacyOctalLiteral(buf: seq<byte>, i: nat): Option<Lexed>
    requires i <= |buf|
  {
    var end := RunEnd(buf, i, 8, false);
    if At(buf, end) == '8' as int || At(buf, end) == '9' as int then None
    else Some(Lexed(Integer(NumberValue(buf[i..end], 8)), end))
  }

  /** Any numeric literal, by its first characters. */
  function NumericLiteral(buf: seq<byte>, i: nat, strict: bool): (r: Outcome<Lexed>)
    requires i <= |buf|
    ensures !r.Panicked?
  {
    var next := At(buf, i + 1);
    if At(buf, i) != '0' as int then DecimalLiteral(buf, i)
    else if next == 'b' as int || next == 'B' as int then BasedLiteral(buf, i, 2)
    else if next == 'o' as int || next == 'O' as int then BasedLiteral(buf, i, 8)
    else if next == 'x' as int || next == 'X' as int then BasedLiteral(buf, i, 16)
    else if !IsDecimalDigit(next) then DecimalLiteral(buf, i)
    else if strict then Err(LegacyOctalLiteralInStrictMode)
    else if LegacyOctalLiteral(buf, i).Some? then Ok(LegacyOctalLiteral(buf, i).value)
    else DecimalLiteral(buf, i)
  }

  // ----- Reading digits -----

  /** A 64-bit value and whether it has overflowed stand for an exact number. */
  ghost predicate Represents(value: nat, overflows: bool, exact: nat) {
    && value < TWO_64
    && (overflows <==> exact >= TWO_64)
    && (!overflows ==> value == exact)
  }

  /** One more digit, with checked multiplication and addition. */
  method AppendDigit(value: nat, overflows: bool, digit: nat, base: nat, ghost buf: seq<byte>, ghost i: nat, ghost j: nat)
    returns (value': nat, overflows': bool)
    requires base == 2 || base == 8 || base == 16
    requires i <= j && DigitValue(At(buf, j), base) == Some(digit)
    requires Represents(value, overflows, NumberValue(buf[i..j], base))
    ensures Represents(value', overflows', NumberValue(buf[i..j + 1], base))
  {
    NumberValueNext(buf, i, j, base);
    value', overflows' := value, overflows;
    if value' * base < TWO_64 {
      value' := value' * base;
    } else {
      overflows' := true;
    }
    if value' + digit < TWO_64 {
      value' := value' + digit;
    } else {
      overflows' := true;
    }
  }

  lemma SeparatorHasNoValue(buf: seq<byte>, i: nat, j: nat, base: nat)
    requires i <= j < |buf| && IsSeparator(buf[j])
    ensures NumberValue(buf[i..j + 1], base) == NumberValue(buf[i..j], base)
  {
    assert buf[i..j + 1][..j - i] == buf[i..j];
  }

  /** buf[i..j] is the start of a run, without an error so far but maybe with a separator at its end. */
  ghost predicate RunSoFar(buf: seq<byte>, i: nat, j: nat, base: nat, separators: bool, endsInSeparator: bool) {
    && i < j <= |buf| && IsDigit(buf[i], base) && RunEnd(buf, j, base, separators) == RunEnd(buf, i, base, separators)
    && !HasAdjacentSeparators(buf[i..j]) && endsInSeparator == IsSeparator(buf[j - 1])
  }

  lemma RunStarts(buf: seq<byte>, i: nat, base: nat, separators: bool)
    requires IsDigit(At(buf, i), base)
    ensures RunSoFar(buf, i, i + 1, base, separators, false)
  {}

  /** A run goes on with a digit, or with a separator behind a digit. */
  lemma RunGrows(buf: seq<byte>, i: nat, j: nat, base: nat, separators: bool, endsInSeparator: bool)
    requires RunSoFar(buf, i, j, base, separators, endsInSeparator)
    requires IsDigit(At(buf, j), base) || (separators && IsSeparator(At(buf, j)) && !endsInSeparator)
    ensures RunSoFar(buf, i, j + 1, base, separators, IsSeparator(buf[j]))
  {
    var text := buf[i..j + 1];
    assert text[..j - i] == buf[i..j] && text[j - i] == buf[j] && text[j - i - 1] == buf[j - 1];
  }

  lemma {:induction false} AdjacentStays(buf: seq<byte>, i: nat, j: nat, k: nat)
    requires i <= j <= k <= |buf| && HasAdjacentSeparators(buf[i..j])
    ensures HasAdjacentSeparators(buf[i..k])
    decreases k - j
  {
    if j < k {
      AdjacentStays(buf, i, j, k - 1);
      assert buf[i..k][..k - 1 - i] == buf[i..k - 1];
    }
  }

  /** Two separators in a row in a run are an error of the whole run. */
  lemma AdjacentSeparators(buf: seq<byte>, i: nat, j: nat, base: nat)
    requires RunSoFar(buf, i, j, base, true, true) && IsSeparator(At(buf, j))
    ensures NumeralError(buf[i..RunEnd(buf, i, base, true)], base) == Some(AdjacentNumericSeparators)
  {
    var end := RunEnd(buf, j, base, true);
    var text := buf[i..j + 1];
    assert text[j - i] == buf[j] && text[j - i - 1] == buf[j - 1];
    AdjacentStays(buf, i, j + 1, end);
    assert buf[i..end][0] == buf[i];
  }

  /** The verdict on a run of digits that has been read. */
  lemma RunVerdict(buf: seq<byte>, i: nat, j: nat, base: nat, separators: bool, endsInSeparator: bool)
    requires RunSoFar(buf, i, j, base, separators, endsInSeparator)
    requires !IsDigit(At(buf, j), base) && !(separators && IsSeparator(At(buf, j)))
    ensures RunEnd(buf, i, base, separators) == j
    ensures NumeralError(buf[i..j], base) == if endsInSeparator then Some(TrailingNumericSeparator) else None
  {
    assert buf[i..j][0] == buf[i] && buf[i..j][j - i - 1] == buf[j - 1];
  }

  /** A numeric literal is not empty. */
  lemma NumericLiteralMoves(buf: seq<byte>, i: nat, strict: bool)
    requires IsDecimalDigit(At(buf, i)) || (At(buf, i) == '.' as int && IsDecimalDigit(At(buf, i + 1)))
    ensures NumericLiteral(buf, i, strict).Ok? ==> i < NumericLiteral(buf, i, strict).value.end
  {
    DecimalLiteralMoves(buf, i);
  }

  lemma DecimalLiteralMoves(buf: seq<byte>, i: nat)
    requires IsDecimalDigit(At(buf, i)) || (At(buf, i) == '.' as int && IsDecimalDigit(At(buf, i + 1)))
    ensures DecimalLiteral(buf, i).Ok? ==> i < DecimalLiteral(buf, i).value.end
  {
    if IsDecimalDigit(At(buf, i)) {
      var separators := At(buf, i) != '0' as int;
      assert RunEnd(buf, i, 10, separators) > i;
    }
  }
}
