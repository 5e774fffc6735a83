/**
 Escape sequences as the grammar of section 12.9.4 of ECMA-262 gives them: a relation between the text of an
 escape and the code points that it stands for, which says nothing of how it is read. Escapes are proved to be
 read exactly so. One restriction of the code is kept: there are at most six digits in \u{...}.
 */
module Escapes {
  import opened Wrappers
  import opened Bits
  import opened Wtf8
  import opened Characters
  import opened Literals
  import opened Numerals
  import opened Writing

  /** The single character escapes of table 37 of ECMA-262. */
  const NAMED := {('b', 0x08), ('t', 0x09), ('n', 0x0A), ('v', 0x0B), ('f', 0x0C), ('r', 0x0D), ('\"', 0x22), ('\'', 0x27), ('\\', 0x5C)}

  const BACKSLASH: byte := 0x5C

  predicate IsNamed(c: byte, cp: nat) { (c as char, cp) in NAMED }

  predicate HasName(c: byte) { exists p <- NAMED :: p.0 == c as char }

  lemma NamedIff(c: byte, cp: nat)
    ensures SingleEscape(c) == Some(cp) <==> IsNamed(c, cp)
    ensures SingleEscape(c).Some? <==> HasName(c)
  {
    if SingleEscape(c).Some? {
      assert (c as char, SingleEscape(c).value) in NAMED;
    }
  }

  // ----- The grammar -----

  predicate IsNamedEscape(text: seq<byte>, cps: seq<nat>) {
    |text| == 2 && |cps| == 1 && IsNamed(text[1], cps[0])
  }

  /** \0, which no digit may follow. */
  predicate IsNulEscape(text: seq<byte>, next: nat, cps: seq<nat>) {
    |text| == 2 && text[1] == '0' as int && !IsDecimalDigit(next) && cps == [0]
  }

  predicate IsHexEscape(text: seq<byte>, cps: seq<nat>) {
    |text| == 4 && text[1] == 'x' as int && |cps| == 1 && WritesPlainly(text[2..], cps[0], 16)
  }

  predicate IsFourDigitEscape(text: seq<byte>, cps: seq<nat>) {
    |text| == 6 && text[1] == 'u' as int && |cps| == 1 && WritesPlainly(text[2..], cps[0], 16)
  }

  predicate IsBracedEscape(text: seq<byte>, cps: seq<nat>) {
    && |text| > 4 && text[1] == 'u' as int && text[2] == '{' as int && text[|text| - 1] == '}' as int
    && |cps| == 1 && cps[0] <= MAX_CODE_POINT && WritesPlainly(text[3..|text| - 1], cps[0], 16)
  }

  /** The bytes are one character. */
  predicate IsChar(bytes: seq<byte>, cp: nat) {
    bytes != [] && DecodeChar(bytes) == CodePoint(cp, |bytes|)
  }

  predicate IsLineSeparator(cp: nat) { cp == 0x2028 || cp == 0x2029 }

  /** A line end behind a backslash stands for nothing. */
  predicate IsContinuationEscape(text: seq<byte>, next: nat, cps: seq<nat>) {
    cps == [] && |text| >= 2 &&
    if text[1] == LF then |text| == 2
    else if text[1] == CR then if |text| == 2 then next != 0x0A else |text| == 3 && text[2] == LF
    else IsChar(text[1..], 0x2028) || IsChar(text[1..], 0x2029)
  }

  /** Any other character behind a backslash stands for itself. */
  predicate IsOtherEscape(text: seq<byte>, cps: seq<nat>) {
    && |text| >= 2 && |cps| == 1 && IsChar(text[1..], cps[0]) && !IsLineSeparator(cps[0])
    && text[1] != LF && text[1] != CR && !IsDecimalDigit(text[1]) && text[1] != 'x' as int && text[1] != 'u' as int
    && !HasName(text[1])
  }

  /** The text is an escape that stands for these code points, if this comes next. */
  predicate Stands(text: seq<byte>, next: nat, cps: seq<nat>) {
    && |text| >= 2 && text[0] == BACKSLASH
    && (|| IsNamedEscape(text, cps) || IsNulEscape(text, next, cps) || IsHexEscape(text, cps)
        || IsFourDigitEscape(text, cps) || (IsBracedEscape(text, cps) && |text| <= 10)
        || IsContinuationEscape(text, next, cps) || IsOtherEscape(text, cps))
  }

  // ----- Digits -----

  /** Plain digits are read as the number that they write. */
  lemma PlainIff(text: seq<byte>, n: nat, base: nat)
    requires IsBase(base)
    ensures WritesPlainly(text, n, base) <==> text != [] && (forall c <- text :: IsDigit(c, base)) && NumberValue(text, base) == n
  {
    WritesIff(text, n, base);
    if text != [] && '_' as int !in text && IsRun(text, base) {
      PlainRunHasNoError(text, base);
    }
  }

  /** Exactly k digits come, out of at most n. */
  lemma {:induction false} DigitCountIff(buf: seq<byte>, i: nat, base: nat, n: nat, k: nat)
    requires k <= n && i + k <= |buf|
    ensures DigitCount(buf, i, base, n) == k <==> (forall c <- buf[i..i + k] :: IsDigit(c, base)) && (k < n ==> !IsDigit(At(buf, i + k), base))
    decreases n
  {
    if k > 0 {
      DigitCountIff(buf, i + 1, base, n - 1, k - 1);
      assert buf[i..i + k] == [buf[i]] + buf[i + 1..i + k];
    }
  }

  lemma HexIff(buf: seq<byte>, i: nat, end: nat, cp: nat)
    requires i <= end <= |buf|
    ensures HexEscape(buf, i) == Escaped([cp], end) <==> end == i + 2 && WritesPlainly(buf[i..end], cp, 16)
  {
    if end == i + 2 {
      assert buf[i..end] == [buf[i], buf[i + 1]];
      PlainIff(buf[i..end], cp, 16);
    }
  }

  lemma FourDigitsIff(buf: seq<byte>, i: nat, end: nat, cp: nat)
    requires i <= end <= |buf| && At(buf, i) != '{' as int
    ensures UnicodeEscape(buf, i) == Escaped([cp], end) <==> end == i + 4 && WritesPlainly(buf[i..end], cp, 16)
  {
    if end == i + 4 {
      DigitCountIff(buf, i, 16, 4, 4);
      PlainIff(buf[i..end], cp, 16);
    }
  }

  lemma BracedIff(buf: seq<byte>, i: nat, end: nat, cp: nat)
    requires i <= end <= |buf|
    ensures BracedEscape(buf, i) == Escaped([cp], end) <==>
              && i + 2 <= end <= i + 7 && buf[end - 1] == '}' as int
              && WritesPlainly(buf[i..end - 1], cp, 16) && cp <= MAX_CODE_POINT
  {
    var n := DigitCount(buf, i, 16, 6);
    if i + 2 <= end <= i + 7 {
      BracedDigits(buf, i, end - 1, cp, n);
    }
  }

  lemma BracedDigits(buf: seq<byte>, i: nat, j: nat, cp: nat, n: nat)
    requires i < j <= i + 6 && j < |buf| && n == DigitCount(buf, i, 16, 6)
    ensures buf[j] == '}' as int ==>
              (WritesPlainly(buf[i..j], cp, 16) <==> i + n == j && NumberValue(buf[i..j], 16) == cp)
  {
    DigitCountIff(buf, i, 16, 6, j - i);
    PlainIff(buf[i..j], cp, 16);
  }

  // ----- Escapes are read as they are written -----

  lemma {:induction false} SliceAt(buf: seq<byte>, i: nat, k: nat, end: nat)
    requires i <= k <= end <= |buf|
    ensures buf[i..end][k - i..] == buf[k..end] && (k < end ==> buf[i..end][k - i] == buf[k])
  {}

  lemma UnicodeIff(buf: seq<byte>, i: nat, end: nat, cps: seq<nat>)
    requires i + 2 <= end <= |buf| && buf[i] == BACKSLASH && buf[i + 1] == 'u' as int
    ensures var text := buf[i..end];
            UnicodeEscape(buf, i + 2) == Escaped(cps, end) <==> IsFourDigitEscape(text, cps) || (IsBracedEscape(text, cps) && |text| <= 10)
  {
    var text := buf[i..end];
    if |cps| == 1 {
      assert cps == [cps[0]];
      if At(buf, i + 2) == '{' as int {
        BracedTextIff(buf, i, end, cps[0]);
      } else {
        FourDigitsIff(buf, i + 2, end, cps[0]);
        SliceAt(buf, i, i + 2, end);
      }
    }
  }

  lemma BracedTextIff(buf: seq<byte>, i: nat, end: nat, cp: nat)
    requires i + 2 <= end <= |buf| && buf[i] == BACKSLASH && buf[i + 1] == 'u' as int && At(buf, i + 2) == '{' as int
    ensures var text := buf[i..end];
            BracedEscape(buf, i + 3) == Escaped([cp], end) <==> IsFourDigitEscape(text, [cp]) || (IsBracedEscape(text, [cp]) && |text| <= 10)
  {
    var text := buf[i..end];
    BraceIsNoDigit(text, cp);
    if end > i + 2 {
      BracedIff(buf, i + 3, end, cp);
    }
    if end > i + 4 {
      SubSlice(buf, i, end, i + 3, end - 1);
    }
  }

  lemma BraceIsNoDigit(text: seq<byte>, cp: nat)
    requires |text| > 2 ==> text[2] == '{' as int
    ensures !IsFourDigitEscape(text, [cp])
  {
    if |text| == 6 {
      PlainIff(text[2..], cp, 16);
      assert text[2..][0] == text[2] && text[2] in text[2..];
    }
  }

  lemma SubSlice(buf: seq<byte>, i: nat, end: nat, a: nat, b: nat)
    requires i <= a <= b <= end <= |buf|
    ensures buf[i..end][a - i..b - i] == buf[a..b]
  {
    assert forall k | 0 <= k < b - a :: buf[i..end][a - i..b - i][k] == buf[a..b][k];
  }

  lemma OtherIff(buf: seq<byte>, i: nat, end: nat, cps: seq<nat>)
    requires i + 2 <= end <= |buf| && buf[i] == BACKSLASH
    requires !HasName(buf[i + 1]) && !IsDecimalDigit(buf[i + 1]) && buf[i + 1] != 'x' as int && buf[i + 1] != 'u' as int
    ensures var text := buf[i..end];
            OtherEscape(buf, i) == Escaped(cps, end) <==> IsContinuationEscape(text, At(buf, end), cps) || IsOtherEscape(text, cps)
  {
    var text := buf[i..end];
    SliceAt(buf, i, i + 1, end);
    if buf[i + 1] != LF && buf[i + 1] != CR {
      OtherCharIff(buf, i, end, cps);
      if |cps| == 1 {
        CharIff(buf, i + 1, end, cps[0]);
      }
    } else if buf[i + 1] == CR && end > i + 2 {
      assert text[2] == buf[i + 2];
    }
  }

  lemma OtherCharIff(buf: seq<byte>, i: nat, end: nat, cps: seq<nat>)
    requires i + 2 <= end <= |buf| && buf[i + 1] != LF && buf[i + 1] != CR
    ensures OtherEscape(buf, i) == Escaped(cps, end) <==>
              || (cps == [] && (IsChar(buf[i + 1..end], 0x2028) || IsChar(buf[i + 1..end], 0x2029)))
              || (|cps| == 1 && IsChar(buf[i + 1..end], cps[0]) && !IsLineSeparator(cps[0]))
  {
    CharIff(buf, i + 1, end, 0x2028);
    CharIff(buf, i + 1, end, 0x2029);
    CharAtDecodes(buf, i + 1);
    if |cps| == 1 {
      CharIff(buf, i + 1, end, cps[0]);
    }
  }

  /** One character from i to end. */
  lemma CharIff(buf: seq<byte>, i: nat, end: nat, cp: nat)
    requires i < end <= |buf|
    ensures CharAt(buf, i) == Some(Char(cp, end - i)) <==> IsChar(buf[i..end], cp)
  {
    CharAtDecodes(buf, i);
    assert buf[i..][..end - i] == buf[i..end] && buf[i..] == buf[i..end] + buf[end..];
    if CharAt(buf, i) == Some(Char(cp, end - i)) {
      DecodeCharInSlice(buf[i..], end - i);
    }
    if IsChar(buf[i..end], cp) {
      DecodeCharExtend(buf[i..end], buf[end..]);
    }
  }

  /** Exactly what the grammar calls an escape is read as one, and as what it stands for. */
  lemma EscapeIff(buf: seq<byte>, i: nat, end: nat, cps: seq<nat>)
    requires i + 2 <= end <= |buf| && buf[i] == BACKSLASH
    ensures EscapeAt(buf, i) == Escaped(cps, end) <==> Stands(buf[i..end], At(buf, end), cps)
  {
    var c, text := buf[i + 1], buf[i..end];
    assert text[0] == buf[i] && text[1] == c;
    NamedIff(c, if |cps| == 1 then cps[0] else 0);
    if HasName(c) {
      NamedTextIff(text, At(buf, end), cps);
    } else if IsDecimalDigit(c) {
    } else if c == 'x' as int {
      SliceAt(buf, i, i + 2, end);
      if |cps| == 1 {
        assert cps == [cps[0]];
        HexIff(buf, i + 2, end, cps[0]);
      }
    } else if c == 'u' as int {
      UnicodeIff(buf, i, end, cps);
    } else {
      OtherIff(buf, i, end, cps);
    }
  }

  lemma NamedTextIff(text: seq<byte>, next: nat, cps: seq<nat>)
    requires |text| >= 2 && text[0] == BACKSLASH && HasName(text[1])
    ensures Stands(text, next, cps) <==> IsNamedEscape(text, cps)
  {
    NamedIff(text[1], 0);
  }

  /** The standard allows any number of digits in braces; the code takes exactly the escapes with more than six for malformed. */
  lemma LongBraces(buf: seq<byte>, i: nat, end: nat, cps: seq<nat>)
    requires i + 2 <= end <= |buf| && buf[i] == BACKSLASH && IsBracedEscape(buf[i..end], cps)
    ensures EscapeAt(buf, i) == Escaped(cps, end) <==> end - i <= 10
    ensures EscapeAt(buf, i).Malformed? <==> end - i > 10
  {
    EscapeIff(buf, i, end, cps);
    var text := buf[i..end];
    assert text[1] == buf[i + 1] && text[2] == buf[i + 2];
    NamedIff(buf[i + 1], 0);
    if end - i > 10 {
      BracesHoldDigits(buf, i, end, cps);
    } else {
      assert Stands(text, At(buf, end), cps);
    }
  }

  lemma BracesHoldDigits(buf: seq<byte>, i: nat, end: nat, cps: seq<nat>)
    requires i + 10 < end <= |buf| && buf[i] == BACKSLASH && IsBracedEscape(buf[i..end], cps)
    ensures BracedEscape(buf, i + 3).Malformed?
  {
    PlainIff(buf[i..end][3..end - i - 1], cps[0], 16);
    SubSlice(buf, i, end, i + 3, end - 1);
    var digits := buf[i + 3..end - 1];
    assert buf[i + 3..i + 9] == digits[..6] && buf[i + 9] == digits[6];
    DigitCountIff(buf, i + 3, 16, 6, 6);
    assert digits[6] in digits;
  }

  // ----- Legacy escapes -----

  /** One to three octal digits that write at most 0o377. */
  ghost predicate IsOctal(buf: seq<byte>, i: nat, end: nat, cp: nat) {
    i < end <= i + 3 && end <= |buf| && WritesPlainly(buf[i..end], cp, 8) && cp <= 0xFF
  }

  /** The longest octal escape, which is not \0 before something other than a digit. */
  ghost predicate StandsLegacy(buf: seq<byte>, i: nat, end: nat, cp: nat) {
    IsLongestOctal(buf, i + 1, end, cp) && !IsNul(buf, i)
  }

  ghost predicate IsLongestOctal(buf: seq<byte>, i: nat, end: nat, cp: nat) {
    IsOctal(buf, i, end, cp) && forall end': nat, cp': nat | IsOctal(buf, i, end', cp') :: end' <= end
  }

  predicate IsNul(buf: seq<byte>, i: nat) {
    At(buf, i + 1) == '0' as int && !IsDecimalDigit(At(buf, i + 2))
  }

  predicate IsOctalDigit(c: nat) { '0' as int <= c <= '7' as int }

  lemma OctalDigits(buf: seq<byte>, i: nat, end: nat, cp: nat)
    requires i < end <= i + 3
    ensures IsOctal(buf, i, end, cp) <==>
              && IsOctalDigit(At(buf, i)) && (end > i + 1 ==> IsOctalDigit(At(buf, i + 1)))
              && (end > i + 2 ==> IsOctalDigit(At(buf, i + 2)) && At(buf, i) <= '3' as int)
              && NumberValue(buf[i..if end <= |buf| then end else i], 8) == cp
  {
    if end <= |buf| {
      PlainIff(buf[i..end], cp, 8);
      OctalSlice(buf, i, end);
      if forall c <- buf[i..end] :: IsDigit(c, 8) {
        OctalValue(buf, i, end);
      }
    }
  }

  lemma OctalSlice(buf: seq<byte>, i: nat, end: nat)
    requires i < end <= i + 3 && end <= |buf|
    ensures (forall c <- buf[i..end] :: IsDigit(c, 8)) <==>
              IsOctalDigit(buf[i]) && (end > i + 1 ==> IsOctalDigit(buf[i + 1])) && (end > i + 2 ==> IsOctalDigit(buf[i + 2]))
  {
    var text := buf[i..end];
    assert text[0] == buf[i] && (end > i + 1 ==> text[1] == buf[i + 1]) && (end > i + 2 ==> text[2] == buf[i + 2]);
    assert text[0] in text && (end > i + 1 ==> text[1] in text) && (end > i + 2 ==> text[2] in text);
    forall c | c in text
      ensures c == text[0] || (end > i + 1 && c == text[1]) || (end > i + 2 && c == text[2])
    {
      var k :| 0 <= k < end - i && text[k] == c;
    }
  }

  lemma OctalValue(buf: seq<byte>, i: nat, end: nat)
    requires i < end <= i + 3 && end <= |buf| && IsOctalDigit(buf[i])
    requires (end > i + 1 ==> IsOctalDigit(buf[i + 1])) && (end > i + 2 ==> IsOctalDigit(buf[i + 2]))
    ensures NumberValue(buf[i..end], 8) <= 0xFF <==> end < i + 3 || buf[i] <= '3' as int
  {
    assert buf[i..i + 1][..0] == [];
    if end > i + 1 {
      TwoDigits(buf, i, 8);
    }
    if end > i + 2 {
      assert buf[i..i + 3][..2] == buf[i..i + 2];
    }
  }

  /** A legacy octal escape is as long as it can be. */
  lemma LegacyIff(buf: seq<byte>, i: nat, end: nat, cp: nat)
    requires At(buf, i) == BACKSLASH
    ensures EscapeAt(buf, i) == LegacyOctal(cp, end) <==> StandsLegacy(buf, i, end, cp)
    ensures EscapeAt(buf, i) == LegacyNonOctal(cp) <==> At(buf, i + 1) == cp && (cp == '8' as int || cp == '9' as int)
  {
    var c := At(buf, i + 1);
    if c < 0x100 {
      NamedIff(c, 0);
    }
    if IsOctalDigit(c) && !IsNul(buf, i) {
      LongestOctal(buf, i + 1, end, cp);
      assert EscapeAt(buf, i) == DigitEscape(buf, i);
    } else if IsOctal(buf, i + 1, end, cp) {
      OctalDigits(buf, i + 1, end, cp);
    }
  }

  lemma LongestOctal(buf: seq<byte>, i: nat, end: nat, cp: nat)
    requires IsOctalDigit(At(buf, i))
    ensures end == i + OctalEscapeLength(buf, i) && NumberValue(buf[i..end], 8) == cp <==>
              IsLongestOctal(buf, i, end, cp)
  {
    var longest := i + OctalEscapeLength(buf, i);
    OctalDigits(buf, i, longest, NumberValue(buf[i..longest], 8));
    forall end': nat, cp': nat | IsOctal(buf, i, end', cp')
      ensures end' <= longest
    {
      OctalDigits(buf, i, end', cp');
    }
    if IsOctal(buf, i, end, cp) {
      OctalDigits(buf, i, end, cp);
    }
  }

  /** A legacy escape as a text: octal digits that cannot go on, or 8 or 9. */
  predicate IsLegacyEscape(text: seq<byte>, next: nat, cps: seq<nat>) {
    && |text| >= 2 && text[0] == BACKSLASH && |cps| == 1
    && ((|text| == 2 && text[1] == cps[0] && (cps[0] == '8' as int || cps[0] == '9' as int)) || IsOctalEscape(text, next, cps[0]))
  }

  predicate IsOctalEscape(text: seq<byte>, next: nat, cp: nat)
    requires |text| >= 2
  {
    && |text| <= 4 && WritesPlainly(text[1..], cp, 8) && cp <= 0xFF
    && !(|text| < 4 && IsOctalDigit(next) && cp * 8 + (next - '0' as int) <= 0xFF)
    && !(|text| == 2 && text[1] == '0' as int && !IsDecimalDigit(next))
  }

  lemma LegacyTextIff(buf: seq<byte>, i: nat, end: nat, cps: seq<nat>)
    requires i + 2 <= end <= |buf| && buf[i] == BACKSLASH
    ensures (|cps| == 1 && EscapeAt(buf, i) == LegacyOctal(cps[0], end)) || (|cps| == 1 && end == i + 2 && EscapeAt(buf, i) == LegacyNonOctal(cps[0]))
       <==> IsLegacyEscape(buf[i..end], At(buf, end), cps)
  {
    if |cps| == 1 {
      LegacyIff(buf, i, end, cps[0]);
      OctalTextIff(buf, i, end, cps[0]);
      SliceAt(buf, i, i + 1, end);
    }
  }

  lemma OctalTextIff(buf: seq<byte>, i: nat, end: nat, cp: nat)
    requires i + 2 <= end <= |buf| && buf[i] == BACKSLASH
    ensures StandsLegacy(buf, i, end, cp) <==> IsOctalEscape(buf[i..end], At(buf, end), cp)
  {
    SliceAt(buf, i, i + 1, end);
    if IsOctal(buf, i + 1, end, cp) {
      OctalDigits(buf, i + 1, end, cp);
      CannotGoOn(buf, i + 1, end, cp);
    }
  }

  /** Octal digits are the longest if and only if one more is too much. */
  lemma CannotGoOn(buf: seq<byte>, i: nat, end: nat, cp: nat)
    requires IsOctal(buf, i, end, cp)
    ensures IsLongestOctal(buf, i, end, cp) <==>
              !(end < i + 3 && IsOctalDigit(At(buf, end)) && cp * 8 + (At(buf, end) - '0' as int) <= 0xFF)
  {
    OctalDigits(buf, i, end, cp);
    if end < i + 3 && IsOctalDigit(At(buf, end)) {
      var more := NumberValue(buf[i..end + 1], 8);
      NumberValueNext(buf, i, end, 8);
      OctalDigits(buf, i, end + 1, more);
      if end == i + 2 {
        OctalValue(buf, i, end + 1);
      }
    }
    forall end': nat, cp': nat | IsOctal(buf, i, end', cp') && end < end'
      ensures IsOctalDigit(At(buf, end)) && end < i + 3 && IsOctal(buf, i, end + 1, NumberValue(buf[i..end + 1], 8))
    {
      OctalDigits(buf, i, end', cp');
      OctalDigits(buf, i, end + 1, NumberValue(buf[i..end + 1], 8));
    }
  }
}
