/**
 How numbers are written: digits by their place in "0123456789abcdef", numbers by repeated division. Numeric
 literals are proved to be read as the number that they write, and to be nothing else.
 */
module Writing {
  import opened Wrappers
  import opened Bits
  import opened Characters
  import opened Literals
  import opened Numerals

  const LOWER := "0123456789abcdef"
  const UPPER := "0123456789ABCDEF"

  predicate IsBase(base: nat) { base == 2 || base == 8 || base == 10 || base == 16 }

  /** The character is the digit with this value. */
  predicate WritesDigit(c: nat, d: nat)
    requires d < 16
  {
    c == LOWER[d] as int || c == UPPER[d] as int
  }

  lemma DigitIsWritten(c: nat, d: nat, base: nat)
    requires IsBase(base) && d < base
    ensures DigitValue(c, base) == Some(d) <==> WritesDigit(c, d)
  {}

  /** The text writes the number: its last digit, and before it, maybe with a separator between, the rest. */
  predicate Writes(text: seq<byte>, n: nat, base: nat)
    requires IsBase(base)
  {
    text != [] && WritesDigit(text[|text| - 1], n % base) &&
    var before := text[..|text| - 1];
    if before == [] then n < base
    else Writes(if IsSeparator(before[|before| - 1]) then before[..|before| - 1] else before, n / base, base)
  }

  /** The same without separators. */
  predicate WritesPlainly(text: seq<byte>, n: nat, base: nat)
    requires IsBase(base)
  {
    Writes(text, n, base) && '_' as int !in text
  }

  function Written(n: nat, base: nat): seq<byte>
    requires IsBase(base)
  {
    (if n < base then [] else Written(n / base, base)) + [LOWER[n % base] as int]
  }

  /** Every number can be written. */
  lemma {:induction false} WrittenWrites(n: nat, base: nat)
    requires IsBase(base)
    ensures WritesPlainly(Written(n, base), n, base)
  {
    var text := Written(n, base);
    DigitIsNoSeparator(LOWER[n % base] as int, n % base);
    if n >= base {
      WrittenWrites(n / base, base);
      assert text[..|text| - 1] == Written(n / base, base);
    }
  }

  lemma DigitIsNoSeparator(c: nat, d: nat)
    requires d < 16 && WritesDigit(c, d)
    ensures !IsSeparator(c)
  {}

  // ----- Runs of digits -----

  predicate IsRun(text: seq<byte>, base: nat) {
    forall c <- text :: IsDigit(c, base) || IsSeparator(c)
  }

  lemma Places(high: nat, base: nat, d: nat, n: nat)
    requires IsBase(base) && d < base
    ensures n == high * base + d <==> n / base == high && n % base == d
  {}

  /** What is before the last digit and the separator that may stand there. */
  function Before(text: seq<byte>): seq<byte>
    requires text != []
  {
    var n := |text| - 1;
    text[..if n > 0 && IsSeparator(text[n - 1]) then n - 1 else n]
  }

  /** The text is read as the number. */
  ghost predicate Reads(text: seq<byte>, n: nat, base: nat) {
    IsRun(text, base) && NumeralError(text, base).None? && NumberValue(text, base) == n
  }

  /** A run of digits writes a number exactly if it has no error and that value. */
  lemma {:induction false} WritesIff(text: seq<byte>, n: nat, base: nat)
    requires IsBase(base)
    ensures Writes(text, n, base) <==> Reads(text, n, base)
    decreases |text|
  {
    if text != [] {
      if !IsDigit(text[|text| - 1], base) {
        NoLastDigit(text, n, base);
      } else if |text| == 1 {
        OneDigit(text, n, base);
      } else {
        WritesIff(Before(text), n / base, base);
        MoreDigits(text, n, base);
      }
    }
  }

  lemma NoLastDigit(text: seq<byte>, n: nat, base: nat)
    requires IsBase(base) && text != [] && !IsDigit(text[|text| - 1], base)
    ensures !Writes(text, n, base) && !Reads(text, n, base)
  {
    DigitIsWritten(text[|text| - 1], n % base, base);
    assert text[|text| - 1] in text;
  }

  lemma OneDigit(text: seq<byte>, n: nat, base: nat)
    requires IsBase(base) && |text| == 1 && IsDigit(text[0], base)
    ensures Writes(text, n, base) <==> Reads(text, n, base)
  {
    DigitIsWritten(text[0], n % base, base);
    OneDigitReads(text, base);
    SmallNumber(n, base, DigitValue(text[0], base).value);
  }

  lemma OneDigitReads(text: seq<byte>, base: nat)
    requires |text| == 1 && IsDigit(text[0], base)
    ensures IsRun(text, base) && NumeralError(text, base).None? && NumberValue(text, base) == DigitValue(text[0], base).value
  {
    assert text[..0] == [];
  }

  lemma SmallNumber(n: nat, base: nat, d: nat)
    requires IsBase(base) && d < base
    ensures n == d <==> n % base == d && n < base
  {}

  lemma MoreDigits(text: seq<byte>, n: nat, base: nat)
    requires IsBase(base) && |text| > 1 && IsDigit(text[|text| - 1], base)
    requires Writes(Before(text), n / base, base) <==> Reads(Before(text), n / base, base)
    ensures Writes(text, n, base) <==> Reads(text, n, base)
  {
    var last := text[|text| - 1];
    DigitIsWritten(last, n % base, base);
    WritesNext(text, n, base);
    BeforeLast(text, base);
    Places(NumberValue(Before(text), base), base, DigitValue(last, base).value, n);
  }

  lemma WritesNext(text: seq<byte>, n: nat, base: nat)
    requires IsBase(base) && |text| > 1
    ensures Writes(text, n, base) <==> WritesDigit(text[|text| - 1], n % base) && Writes(Before(text), n / base, base)
  {
    var before := text[..|text| - 1];
    assert before[..|before| - 1] == text[..|text| - 2];
  }

  lemma BeforeLast(text: seq<byte>, base: nat)
    requires |text| > 1 && IsDigit(text[|text| - 1], base)
    ensures var rest := Before(text);
            && (NumeralError(text, base).None? <==> NumeralError(rest, base).None?)
            && (IsRun(text, base) <==> IsRun(rest, base))
            && NumberValue(text, base) == NumberValue(rest, base) * base + DigitValue(text[|text| - 1], base).value
  {
    var before := text[..|text| - 1];
    assert text == before + [text[|text| - 1]] && before[|before| - 1] == text[|text| - 2];
    assert HasAdjacentSeparators(text) <==> HasAdjacentSeparators(before);
    if IsSeparator(text[|text| - 2]) {
      SeparatorLast(before, base);
      assert before[..|before| - 1] == Before(text);
    }
  }

  lemma SeparatorLast(text: seq<byte>, base: nat)
    requires text != [] && IsSeparator(text[|text| - 1])
    ensures var rest := text[..|text| - 1];
            && (IsRun(text, base) <==> IsRun(rest, base)) && NumberValue(text, base) == NumberValue(rest, base)
            && (HasAdjacentSeparators(text) <==> HasAdjacentSeparators(rest) || (rest != [] && IsSeparator(rest[|rest| - 1])))
  {
    var rest := text[..|text| - 1];
    assert text == rest + [text[|text| - 1]];
    if rest != [] {
      assert rest[|rest| - 1] == text[|text| - 2];
    }
  }

  /** A digit or separator comes next. */
  ghost predicate GoesOn(c: nat, base: nat, separators: bool)
    requires IsBase(base)
  {
    (separators && c == '_' as int) || exists d: nat :: d < base && WritesDigit(c, d)
  }

  lemma GoesOnIff(c: nat, base: nat, separators: bool)
    requires IsBase(base)
    ensures GoesOn(c, base, separators) <==> IsDigit(c, base) || (separators && IsSeparator(c))
  {
    if IsDigit(c, base) {
      DigitIsWritten(c, DigitValue(c, base).value, base);
    }
    if d: nat :| d < base && WritesDigit(c, d) {
      DigitIsWritten(c, d, base);
    }
  }

  /** The end of a run is where it does not go on. */
  lemma {:induction false} RunEndIff(buf: seq<byte>, i: nat, j: nat, base: nat, separators: bool)
    requires IsBase(base) && i <= j <= |buf|
    ensures RunEnd(buf, i, base, separators) == j <==>
              IsRun(buf[i..j], base) && (!separators ==> '_' as int !in buf[i..j]) && !GoesOn(At(buf, j), base, separators)
    decreases j - i
  {
    GoesOnIff(At(buf, i), base, separators);
    if i < j {
      RunEndIff(buf, i + 1, j, base, separators);
      assert buf[i..j] == [buf[i]] + buf[i + 1..j];
    } else {
      assert buf[i..j] == [];
    }
  }

  /** The longest run from i, taken together with its verdict and value. */
  lemma RunWritesIff(buf: seq<byte>, i: nat, j: nat, n: nat, base: nat, separators: bool)
    requires IsBase(base) && i <= j <= |buf|
    ensures RunEnd(buf, i, base, separators) == j && NumeralError(buf[i..j], base).None? && NumberValue(buf[i..j], base) == n <==>
              Writes(buf[i..j], n, base) && (!separators ==> '_' as int !in buf[i..j]) && !GoesOn(At(buf, j), base, separators)
  {
    RunEndIff(buf, i, j, base, separators);
    WritesIff(buf[i..j], n, base);
  }

  // ----- Literals with a base -----

  const PREFIXES := {('b', 2), ('B', 2), ('o', 8), ('O', 8), ('x', 16), ('X', 16)}

  /** 0 and the letter of a base. */
  predicate StartsBased(buf: seq<byte>, i: nat, letter: char, base: nat) {
    (letter, base) in PREFIXES && At(buf, i) == '0' as int && At(buf, i + 1) == letter as int
  }

  lemma BasedIsDispatched(buf: seq<byte>, i: nat, strict: bool, letter: char, base: nat)
    requires StartsBased(buf, i, letter, base)
    ensures i + 2 <= |buf| && IsBase(base) && NumericLiteral(buf, i, strict) == BasedLiteral(buf, i, base)
  {}

  /** A literal with a base is a number exactly if the longest run behind its prefix writes that number. */
  lemma BasedIff(buf: seq<byte>, i: nat, strict: bool, letter: char, base: nat, n: nat, end: nat)
    requires StartsBased(buf, i, letter, base)
    ensures IsBase(base)
    ensures NumericLiteral(buf, i, strict) == Ok(Lexed(Integer(n), end)) <==>
              && i + 2 <= end <= |buf| && Writes(buf[i + 2..end], n, base)
              && !GoesOn(At(buf, end), base, true) && At(buf, end) != 'n' as int
  {
    BasedIsDispatched(buf, i, strict, letter, base);
    if i + 2 <= end <= |buf| {
      RunWritesIff(buf, i + 2, end, n, base, true);
    }
  }

  /** A big integer keeps the digits, which write some number. */
  lemma BasedBigIntIff(buf: seq<byte>, i: nat, strict: bool, letter: char, base: nat, n: nat, end: nat)
    requires StartsBased(buf, i, letter, base) && i + 2 <= end <= |buf|
    ensures IsBase(base)
    ensures NumericLiteral(buf, i, strict) == Ok(Lexed(BigInt(buf[i + 2..end], base), end + 1)) && NumberValue(buf[i + 2..end], base) == n <==>
              Writes(buf[i + 2..end], n, base) && At(buf, end) == 'n' as int
  {
    BasedIsDispatched(buf, i, strict, letter, base);
    RunWritesIff(buf, i + 2, end, n, base, true);
    NEndsRun(At(buf, end), base);
  }

  lemma NEndsRun(c: nat, base: nat)
    requires IsBase(base)
    ensures c == 'n' as int ==> !GoesOn(c, base, true)
  {
    GoesOnIff(c, base, true);
  }

  /** A number written in any base behind its prefix is read back, wherever it stands. */
  lemma WrittenIsRead(buf: seq<byte>, i: nat, strict: bool, letter: char, base: nat, n: nat, end: nat)
    requires StartsBased(buf, i, letter, base) && IsBase(base)
    requires i + 2 <= end <= |buf| && buf[i + 2..end] == Written(n, base)
    requires !GoesOn(At(buf, end), base, true) && At(buf, end) != 'n' as int
    ensures NumericLiteral(buf, i, strict) == Ok(Lexed(Integer(n), end))
  {
    WrittenWrites(n, base);
    BasedIff(buf, i, strict, letter, base, n, end);
  }

  // ----- Legacy octal literals -----

  /** A zero and octal digits, not followed by a digit, write a number in base 8, outside strict mode. */
  lemma LegacyOctalIff(buf: seq<byte>, i: nat, strict: bool, n: nat, end: nat)
    requires At(buf, i) == '0' as int && IsDecimalDigit(At(buf, i + 1))
    ensures NumericLiteral(buf, i, strict) == Ok(Lexed(Integer(n), end)) <==>
              !strict && i + 2 <= end <= |buf| && WritesPlainly(buf[i..end], n, 8) && !IsDecimalDigit(At(buf, end))
  {
    var run := RunEnd(buf, i, 8, false);
    OctalRun(buf, i, run);
    if i <= end <= |buf| {
      RunWritesIff(buf, i, end, n, 8, false);
      GoesOnIff(At(buf, end), 8, false);
    }
  }

  lemma OctalRun(buf: seq<byte>, i: nat, end: nat)
    requires At(buf, i) == '0' as int && end == RunEnd(buf, i, 8, false)
    ensures i < end <= |buf| && NumeralError(buf[i..end], 8).None? && (end == i + 1 ==> !IsDigit(At(buf, i + 1), 8))
  {
    RunEndIff(buf, i, end, 8, false);
    PlainRunHasNoError(buf[i..end], 8);
  }

  lemma PlainRunHasNoError(text: seq<byte>, base: nat)
    requires text != [] && IsRun(text, base) && '_' as int !in text
    ensures NumeralError(text, base).None?
  {
    NoAdjacent(text);
    assert text[0] in text && text[|text| - 1] in text;
  }

  lemma {:induction false} NoAdjacent(text: seq<byte>)
    requires '_' as int !in text
    ensures !HasAdjacentSeparators(text)
  {
    if |text| > 1 {
      NoAdjacent(text[..|text| - 1]);
    }
  }

  // ----- Decimal literals -----

  datatype Exponent = Exponent(letter: char, sign: Option<char>, digits: seq<byte>)

  datatype DecimalParts = DecimalParts(whole: seq<byte>, fraction: Option<seq<byte>>, exponent: Option<Exponent>)

  function FractionText(fraction: Option<seq<byte>>): seq<byte> {
    if fraction.None? then [] else ['.' as int] + fraction.value
  }

  function Mark(e: Exponent): seq<byte>
    requires IsMarked(e)
  {
    [e.letter as int] + if e.sign.None? then [] else [e.sign.value as int]
  }

  predicate IsMarked(e: Exponent) { e.letter in {'e', 'E'} && (e.sign.None? || e.sign.value in {'+', '-'}) }

  function ExponentText(exponent: Option<Exponent>): seq<byte>
    requires exponent.Some? ==> IsMarked(exponent.value)
  {
    if exponent.None? then [] else Mark(exponent.value) + exponent.value.digits
  }

  ghost predicate AreDigits(text: seq<byte>, separators: bool) {
    (exists n: nat :: Writes(text, n, 10)) && (!separators ==> '_' as int !in text)
  }

  /** The parts of a decimal literal, of which each but the exponent may be missing its digits. */
  ghost predicate IsDecimal(d: DecimalParts, separators: bool) {
    && (d.whole == [] || AreDigits(d.whole, separators))
    && (d.fraction.None? || d.fraction.value == [] || AreDigits(d.fraction.value, separators))
    && (d.exponent.None? || (IsMarked(d.exponent.value) && AreDigits(d.exponent.value.digits, separators)))
  }

  function DecimalText(d: DecimalParts): seq<byte>
    requires d.exponent.Some? ==> IsMarked(d.exponent.value)
  {
    d.whole + FractionText(d.fraction) + ExponentText(d.exponent)
  }

  lemma DigitsIff(buf: seq<byte>, i: nat, j: nat, separators: bool)
    requires i <= j <= |buf|
    ensures DecimalDigits(buf, i, separators) == Ok(j) <==>
              if i == j then !IsDecimalDigit(At(buf, i)) else AreDigits(buf[i..j], separators) && !GoesOn(At(buf, j), 10, separators)
  {
    var ten := 10;
    if i < j {
      RunWritesIff(buf, i, j, NumberValue(buf[i..j], ten), ten, separators);
      if n: nat :| Writes(buf[i..j], n, ten) {
        WritesIff(buf[i..j], n, ten);
        assert IsDigit(buf[i..j][0], ten);
      }
    } else if IsDecimalDigit(At(buf, i)) {
      assert RunEnd(buf, i, ten, separators) > i;
    }
  }

  /** Nothing of a decimal literal follows. */
  predicate DecimalEnds(d: DecimalParts, c: nat) {
    && !IsDecimalDigit(c) && c != '_' as int
    && (d.exponent.None? ==> c != 'e' as int && c != 'E' as int)
    && (d.exponent.None? && d.fraction.None? ==> c != '.' as int && c != 'n' as int)
  }

  lemma ExponentIsRead(buf: seq<byte>, i: nat, end: nat, exponent: Option<Exponent>, separators: bool)
    requires exponent.Some? ==> IsMarked(exponent.value) && AreDigits(exponent.value.digits, separators)
    requires i <= end <= |buf| && buf[i..end] == ExponentText(exponent)
    requires !IsDecimalDigit(At(buf, end)) && At(buf, end) != '_' as int
    requires exponent.None? ==> At(buf, end) != 'e' as int && At(buf, end) != 'E' as int
    ensures ExponentPart(buf, i, separators) == Ok(end)
  {
    if exponent.Some? {
      var e := exponent.value;
      var k := i + |Mark(e)|;
      SliceSplits(buf, i, end, Mark(e), e.digits);
      DigitsCome(buf, k, end, separators);
      assert At(buf, i) == Mark(e)[0] && (e.sign.Some? ==> At(buf, i + 1) == Mark(e)[1]);
    }
  }

  /** Digits up to a character that is none. */
  lemma DigitsCome(buf: seq<byte>, i: nat, j: nat, separators: bool)
    requires i <= j <= |buf| && AreDigits(buf[i..j], separators) && !IsDecimalDigit(At(buf, j)) && At(buf, j) != '_' as int
    ensures DecimalDigits(buf, i, separators) == Ok(j) && IsDecimalDigit(At(buf, i)) && i < j
  {
    var ten := 10;
    GoesOnIff(At(buf, j), ten, separators);
    DigitsIff(buf, i, j, separators);
    var n: nat :| Writes(buf[i..j], n, ten);
    WritesIff(buf[i..j], n, ten);
    assert IsDigit(buf[i..j][0], ten);
  }

  lemma SliceSplits(buf: seq<byte>, i: nat, end: nat, a: seq<byte>, b: seq<byte>)
    requires i <= end <= |buf| && buf[i..end] == a + b
    ensures i + |a| <= end && buf[i..i + |a|] == a && buf[i + |a|..end] == b
    ensures forall k | 0 <= k < |a| :: At(buf, i + k) == a[k]
  {
    var k := i + |a|;
    assert |buf[i..end]| == end - i == |a| + |b|;
    assert buf[i..k] == buf[i..end][..|a|] && buf[k..end] == buf[i..end][|a|..];
    assert forall k | 0 <= k < |a| :: buf[i + k] == buf[i..end][k];
  }

  lemma FractionIsRead(buf: seq<byte>, i: nat, j: nat, fraction: Option<seq<byte>>, separators: bool)
    requires fraction.None? || fraction.value == [] || AreDigits(fraction.value, separators)
    requires i <= j <= |buf| && buf[i..j] == FractionText(fraction)
    requires !IsDecimalDigit(At(buf, j)) && At(buf, j) != '_' as int
    requires fraction.None? ==> At(buf, j) != '.' as int
    ensures (if At(buf, i) == '.' as int then DecimalDigits(buf, i + 1, separators) else Ok(i)) == Ok(j)
  {
    if fraction.Some? {
      SliceSplits(buf, i, j, ['.' as int], fraction.value);
      assert At(buf, i + 0) == '.' as int;
      if fraction.value != [] {
        DigitsCome(buf, i + 1, j, separators);
      }
    }
  }

  /** What comes directly behind the digits before the point, and behind those after it. */
  lemma Followers(buf: seq<byte>, a: nat, b: nat, end: nat, d: DecimalParts)
    requires d.exponent.Some? ==> IsMarked(d.exponent.value)
    requires a <= b <= end <= |buf| && buf[a..b] == FractionText(d.fraction) && buf[b..end] == ExponentText(d.exponent)
    requires DecimalEnds(d, At(buf, end))
    ensures d.fraction.Some? ==> At(buf, a) == '.' as int
    ensures d.fraction.None? ==> At(buf, a) == At(buf, b)
    ensures d.exponent.Some? ==> At(buf, b) == 'e' as int || At(buf, b) == 'E' as int
    ensures d.exponent.None? ==> b == end
  {
    if d.fraction.Some? {
      assert buf[a..b][0] == buf[a];
    }
    if d.exponent.Some? {
      assert buf[b..end][0] == buf[b];
    }
  }

  lemma TailIsRead(buf: seq<byte>, a: nat, b: nat, end: nat, d: DecimalParts, separators: bool)
    requires IsDecimal(d, separators) && DecimalEnds(d, At(buf, end))
    requires a <= b <= end <= |buf| && buf[a..b] == FractionText(d.fraction) && buf[b..end] == ExponentText(d.exponent)
    ensures DecimalTail(buf, a, separators) == Ok(end)
  {
    Followers(buf, a, b, end, d);
    FractionIsRead(buf, a, b, d.fraction, separators);
    ExponentIsRead(buf, b, end, d.exponent, separators);
  }

  /** Where the parts of a decimal literal meet. */
  lemma PartsMeet(buf: seq<byte>, i: nat, end: nat, d: DecimalParts) returns (a: nat, b: nat)
    requires d.exponent.Some? ==> IsMarked(d.exponent.value)
    requires i <= end <= |buf| && buf[i..end] == DecimalText(d)
    ensures i <= a <= b <= end && buf[i..a] == d.whole && buf[a..b] == FractionText(d.fraction) && buf[b..end] == ExponentText(d.exponent)
  {
    a := i + |d.whole|;
    b := a + |FractionText(d.fraction)|;
    SliceSplits(buf, i, end, d.whole + FractionText(d.fraction), ExponentText(d.exponent));
    SliceSplits(buf, i, b, d.whole, FractionText(d.fraction));
  }

  lemma WholeIsRead(buf: seq<byte>, i: nat, a: nat, separators: bool)
    requires i <= a <= |buf| && (i == a || AreDigits(buf[i..a], separators)) && !IsDecimalDigit(At(buf, a)) && At(buf, a) != '_' as int
    ensures DecimalDigits(buf, i, separators) == Ok(a)
  {
    if i < a {
      DigitsCome(buf, i, a, separators);
    }
  }

  lemma DecimalFromParts(buf: seq<byte>, i: nat, a: nat, end: nat)
    requires i <= a <= end <= |buf| && At(buf, a) != 'n' as int
    requires var separators := At(buf, i) != '0' as int;
             DecimalDigits(buf, i, separators) == Ok(a) && DecimalTail(buf, a, separators) == Ok(end)
    ensures DecimalLiteral(buf, i) == Ok(Lexed(Decimal(WithoutSeparators(buf[i..end])), end))
  {}

  lemma DecimalLiteralIsRead(buf: seq<byte>, i: nat, end: nat, d: DecimalParts)
    requires i <= end <= |buf| && IsDecimal(d, At(buf, i) != '0' as int) && buf[i..end] == DecimalText(d)
    requires DecimalEnds(d, At(buf, end)) && (d.whole != [] || d.fraction.Some?)
    ensures DecimalLiteral(buf, i) == Ok(Lexed(Decimal(WithoutSeparators(buf[i..end])), end))
  {
    var separators := At(buf, i) != '0' as int;
    var a, b := PartsMeet(buf, i, end, d);
    Followers(buf, a, b, end, d);
    WholeIsRead(buf, i, a, separators);
    TailIsRead(buf, a, b, end, d, separators);
    DecimalFromParts(buf, i, a, end);
  }

  /** A literal with a leading zero is decimal only if that is all before the point, or if it has a digit 8 or 9. */
  predicate IsDecimalStart(whole: seq<byte>, strict: bool) {
    |whole| > 1 && whole[0] == '0' as int ==> !strict && ('8' as int in whole || '9' as int in whole)
  }

  /** Every decimal literal is read as it is written, without its separators. */
  lemma DecimalIsRead(buf: seq<byte>, i: nat, end: nat, d: DecimalParts, strict: bool)
    requires i <= end <= |buf| && IsDecimal(d, At(buf, i) != '0' as int) && buf[i..end] == DecimalText(d)
    requires DecimalEnds(d, At(buf, end)) && (d.whole != [] || d.fraction.Some?) && IsDecimalStart(d.whole, strict)
    requires buf[i..end] == ['0' as int] ==> At(buf, end) !in {'b' as int, 'B' as int, 'o' as int, 'O' as int, 'x' as int, 'X' as int}
    ensures NumericLiteral(buf, i, strict) == Ok(Lexed(Decimal(WithoutSeparators(buf[i..end])), end))
  {
    DecimalLiteralIsRead(buf, i, end, d);
    if At(buf, i) == '0' as int {
      ZeroIsDecimal(buf, i, end, d, strict);
    }
  }

  lemma ZeroIsDecimal(buf: seq<byte>, i: nat, end: nat, d: DecimalParts, strict: bool)
    requires i <= end <= |buf| && IsDecimal(d, false) && buf[i..end] == DecimalText(d) && At(buf, i) == '0' as int
    requires DecimalEnds(d, At(buf, end)) && (d.whole != [] || d.fraction.Some?) && IsDecimalStart(d.whole, strict)
    requires buf[i..end] == ['0' as int] ==> At(buf, end) !in {'b' as int, 'B' as int, 'o' as int, 'O' as int, 'x' as int, 'X' as int}
    ensures NumericLiteral(buf, i, strict) == DecimalLiteral(buf, i)
  {
    var a, b := PartsMeet(buf, i, end, d);
    Followers(buf, a, b, end, d);
    assert d.whole != [];
    if |d.whole| == 1 {
      assert a == i + 1 && (a == end ==> buf[i..end] == ['0' as int]);
      LoneZeroIsDecimal(buf, i, strict);
    } else {
      AllDigits(d.whole);
      LongZeroIsDecimal(buf, i, a, strict);
    }
  }

  lemma LoneZeroIsDecimal(buf: seq<byte>, i: nat, strict: bool)
    requires At(buf, i) == '0' as int && !IsDecimalDigit(At(buf, i + 1))
    requires At(buf, i + 1) !in {'b' as int, 'B' as int, 'o' as int, 'O' as int, 'x' as int, 'X' as int}
    ensures NumericLiteral(buf, i, strict) == DecimalLiteral(buf, i)
  {}

  lemma LongZeroIsDecimal(buf: seq<byte>, i: nat, j: nat, strict: bool)
    requires i + 1 < j <= |buf| && buf[i] == '0' as int && IsDecimalStart(buf[i..j], strict) && forall c <- buf[i..j] :: IsDecimalDigit(c)
    ensures NumericLiteral(buf, i, strict) == DecimalLiteral(buf, i)
  {
    assert buf[i..j][0] == buf[i] && buf[i..j][1] == buf[i + 1] && buf[i..j][1] in buf[i..j];
    EightOrNine(buf, i, j);
  }

  lemma AllDigits(text: seq<byte>)
    requires AreDigits(text, false)
    ensures IsRun(text, 10) && forall c <- text :: IsDecimalDigit(c)
  {
    var n: nat :| Writes(text, n, 10);
    WritesIff(text, n, 10);
  }

  lemma {:induction false} EightOrNine(buf: seq<byte>, i: nat, j: nat)
    requires i <= j <= |buf| && ('8' as int in buf[i..j] || '9' as int in buf[i..j]) && forall c <- buf[i..j] :: IsDecimalDigit(c)
    ensures At(buf, RunEnd(buf, i, 8, false)) == '8' as int || At(buf, RunEnd(buf, i, 8, false)) == '9' as int
    decreases j - i
  {
    assert buf[i..j] == [buf[i]] + buf[i + 1..j];
    assert buf[i] in buf[i..j] && forall c <- buf[i + 1..j] :: c in buf[i..j];
    if IsDigit(At(buf, i), 8) {
      EightOrNine(buf, i + 1, j);
    }
  }

  /** Whatever is read as a decimal literal has the parts of one. */
  lemma DecimalIsWritten(buf: seq<byte>, i: nat, strict: bool) returns (d: DecimalParts)
    requires i <= |buf| && NumericLiteral(buf, i, strict).Ok? && NumericLiteral(buf, i, strict).value.numeral.Decimal?
    ensures var r := NumericLiteral(buf, i, strict).value;
            && i <= r.end <= |buf| && IsDecimal(d, At(buf, i) != '0' as int) && buf[i..r.end] == DecimalText(d)
            && r.numeral.text == WithoutSeparators(buf[i..r.end])
  {
    assert NumericLiteral(buf, i, strict) == DecimalLiteral(buf, i);
    var separators, r := At(buf, i) != '0' as int, DecimalLiteral(buf, i).value;
    var a := DecimalDigits(buf, i, separators).value;
    assert DecimalTail(buf, a, separators) == Ok(r.end);
    d := PartsAreWritten(buf, i, a, r.end, separators);
  }

  lemma PartsAreWritten(buf: seq<byte>, i: nat, a: nat, end: nat, separators: bool) returns (d: DecimalParts)
    requires i <= a <= end <= |buf| && DecimalDigits(buf, i, separators) == Ok(a) && DecimalTail(buf, a, separators) == Ok(end)
    ensures IsDecimal(d, separators) && buf[i..end] == DecimalText(d)
  {
    var fraction, b := FractionIsWritten(buf, a, separators);
    var exponent := ExponentIsWritten(buf, b, end, separators);
    DigitsIff(buf, i, a, separators);
    d := DecimalParts(buf[i..a], fraction, exponent);
    SliceJoins(buf, i, a, b);
    SliceJoins(buf, i, b, end);
  }

  lemma SliceJoins(buf: seq<byte>, i: nat, j: nat, k: nat)
    requires i <= j <= k <= |buf|
    ensures buf[i..k] == buf[i..j] + buf[j..k]
  {}

  lemma FractionIsWritten(buf: seq<byte>, i: nat, separators: bool) returns (fraction: Option<seq<byte>>, j: nat)
    requires i <= |buf| && (At(buf, i) == '.' as int ==> DecimalDigits(buf, i + 1, separators).Ok?)
    ensures i <= j <= |buf| && buf[i..j] == FractionText(fraction)
    ensures fraction.None? || fraction.value == [] || AreDigits(fraction.value, separators)
    ensures (if At(buf, i) == '.' as int then DecimalDigits(buf, i + 1, separators) else Ok(i)) == Ok(j)
  {
    if At(buf, i) == '.' as int {
      j := DecimalDigits(buf, i + 1, separators).value;
      DigitsIff(buf, i + 1, j, separators);
      fraction := Some(buf[i + 1..j]);
      SliceJoins(buf, i, i + 1, j);
    } else {
      fraction, j := None, i;
    }
  }

  lemma ExponentIsWritten(buf: seq<byte>, i: nat, end: nat, separators: bool) returns (exponent: Option<Exponent>)
    requires i <= end <= |buf| && ExponentPart(buf, i, separators) == Ok(end)
    ensures exponent.Some? ==> IsMarked(exponent.value) && AreDigits(exponent.value.digits, separators)
    ensures buf[i..end] == ExponentText(exponent)
  {
    if i == end {
      exponent := None;
    } else {
      var k := if At(buf, i + 1) == '-' as int || At(buf, i + 1) == '+' as int then i + 2 else i + 1;
      DigitsIff(buf, k, end, separators);
      var letter := if At(buf, i) == 'e' as int then 'e' else 'E';
      var sign := if k == i + 1 then None else if At(buf, i + 1) == '-' as int then Some('-') else Some('+');
      exponent := Some(Exponent(letter, sign, buf[k..end]));
      SliceJoins(buf, i, k, end);
      MarkIs(buf, i, k, exponent.value);
    }
  }

  lemma MarkIs(buf: seq<byte>, i: nat, k: nat, e: Exponent)
    requires IsMarked(e) && i < k <= |buf| && k == i + (if e.sign.None? then 1 else 2)
    requires buf[i] == e.letter as int && (e.sign.Some? ==> buf[i + 1] == e.sign.value as int)
    ensures buf[i..k] == Mark(e)
  {}

  /** A decimal big integer is digits and an n; it may not start with a zero, unless it is one. */
  lemma DecimalBigIntIff(buf: seq<byte>, i: nat, strict: bool, end: nat)
    requires IsDecimalDigit(At(buf, i)) && i < end <= |buf|
    ensures NumericLiteral(buf, i, strict) == Ok(Lexed(BigInt(buf[i..end], 10), end + 1)) <==>
              At(buf, end) == 'n' as int && AreDigits(buf[i..end], true) && (buf[i] == '0' as int ==> end == i + 1)
  {
    var ten := 10;
    NEndsRun(At(buf, end), ten);
    DigitsIff(buf, i, end, buf[i] != '0' as int);
    if end == i + 1 {
      assert buf[i..end] == [buf[i]];
    }
  }

  /** Dropping separators drops nothing else. */
  lemma {:induction false} WithoutSeparatorsConcat(a: seq<byte>, b: seq<byte>)
    ensures WithoutSeparators(a + b) == WithoutSeparators(a) + WithoutSeparators(b)
    ensures '_' as int !in a ==> WithoutSeparators(a) == a
    ensures WithoutSeparators(['_' as int]) == []
    decreases |a| + |b|
  {
    if a != [] {
      WithoutSeparatorsConcat(a[..|a| - 1], []);
      assert a[..|a| - 1] + [a[|a| - 1]] == a;
    }
    assert ['_' as int][..0] == [];
    if b == [] {
      assert a + b == a;
    } else {
      var n := |b| - 1;
      WithoutSeparatorsConcat(a, b[..n]);
      assert (a + b)[..|a + b| - 1] == a + b[..n];
    }
  }
}
