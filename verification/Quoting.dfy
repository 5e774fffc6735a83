/**
 Writing and reading strings: a text is read as a string literal exactly if it is written sign by sign by the
 grammar of section 12.9.4 of ECMA-262, and its value is what the signs stand for. In particular every string of
 code points is read back from its quotation, in whatever way each of them is written.
 */
module Quoting {
  import opened Wrappers
  import opened Bits
  import opened Wtf8
  import opened Characters
  import opened Literals
  import opened Numerals
  import opened Writing
  import opened Escapes

  // ----- One escape in a string -----

  /** Some escape of the grammar starts here. */
  ghost predicate StartsEscape(buf: seq<byte>, i: nat) {
    exists end: nat, cps :: i + 2 <= end <= |buf| && Stands(buf[i..end], At(buf, end), cps)
  }

  lemma StartsEscapeIff(buf: seq<byte>, i: nat)
    requires At(buf, i) == BACKSLASH
    ensures StartsEscape(buf, i) <==> EscapeAt(buf, i).Escaped?
  {
    var e := EscapeAt(buf, i);
    if e.Escaped? {
      EscapeIff(buf, i, e.end, e.cps);
    }
    if end: nat, cps :| i + 2 <= end <= |buf| && Stands(buf[i..end], At(buf, end), cps) {
      EscapeIff(buf, i, end, cps);
    }
  }

  /** An escape of the grammar, or outside strict mode a legacy one. */
  predicate StandsIn(text: seq<byte>, next: nat, cps: seq<nat>, strict: bool) {
    Stands(text, next, cps) || (!strict && IsLegacyEscape(text, next, cps))
  }

  /** Exactly these escapes are read in a string literal. */
  lemma StringEscapeIff(buf: seq<byte>, i: nat, strict: bool, end: nat, cps: seq<nat>)
    requires i + 2 <= end <= |buf| && buf[i] == BACKSLASH
    ensures StringEscape(buf, i, strict) == Ok(Piece(cps, end)) <==> StandsIn(buf[i..end], At(buf, end), cps, strict)
  {
    EscapeIff(buf, i, end, cps);
    LegacyTextIff(buf, i, end, cps);
    assert |cps| == 1 ==> cps == [cps[0]];
  }

  /** Why an escape is none. */
  lemma StringEscapeFails(buf: seq<byte>, i: nat, strict: bool)
    requires At(buf, i) == BACKSLASH
    ensures var c, r := At(buf, i + 1), StringEscape(buf, i, strict);
            && (r == Err(LegacyOctalEscapeInStrictMode) <==> strict && IsOctalDigit(c) && !IsNul(buf, i))
            && (r == Err(LegacyNonOctalEscapeInStrictMode) <==> strict && (c == '8' as int || c == '9' as int))
            && (r == Err(MalformedEscapeSequence) <==> (c == 'x' as int || c == 'u' as int) && !StartsEscape(buf, i))
            && (r == Err(InvalidUnicode) <==> i + 1 < |buf| && CharAt(buf, i + 1).None?)
            && (r.Panicked? <==> i + 1 == |buf|)
  {
    StartsEscapeIff(buf, i);
    if At(buf, i + 1) < 0x80 {
      CharAtAscii(buf, i + 1);
    }
  }

  // ----- Whole strings -----

  /** A text and what it stands for. */
  datatype Sign = Sign(text: seq<byte>, cps: seq<nat>)

  predicate IsPlainByte(b: byte, quote: byte) { b != BACKSLASH && b != LF && b != CR && b != quote }

  /** A character that stands for itself. */
  predicate IsPlainSign(sign: Sign, quote: byte) {
    |sign.cps| == 1 && sign.cps[0] <= MAX_CODE_POINT && IsChar(sign.text, sign.cps[0]) && IsPlainByte(sign.text[0], quote)
  }

  predicate IsSign(sign: Sign, next: nat, quote: byte, strict: bool) {
    IsPlainSign(sign, quote) || (InRange(sign.cps) && StandsIn(sign.text, next, sign.cps, strict))
  }

  /** Each sign stands for something, before what comes next; the last one is before the closing quote. */
  predicate AreSigns(signs: seq<Sign>, quote: byte, strict: bool) {
    signs != [] ==> IsSign(signs[0], NextByte(signs[1..], quote), quote, strict) && AreSigns(signs[1..], quote, strict)
  }

  function NextByte(signs: seq<Sign>, quote: byte): byte { (Text(signs) + [quote])[0] }

  function Text(signs: seq<Sign>): seq<byte> {
    if signs == [] then [] else signs[0].text + Text(signs[1..])
  }

  function Meaning(signs: seq<Sign>): seq<nat> {
    if signs == [] then [] else signs[0].cps + Meaning(signs[1..])
  }

  /** Signs up to the closing quote are read as what they stand for, wherever they stand. */
  lemma {:induction false} SignsAreRead(buf: seq<byte>, i: nat, end: nat, signs: seq<Sign>, quote: byte, strict: bool, copying: bool)
    requires AreSigns(signs, quote, strict) && quote != BACKSLASH
    requires i <= end < |buf| && buf[i..end] == Text(signs) && buf[end] == quote
    ensures StringValue(buf, i, quote, strict, copying) == Done(Meaning(signs), end + 1)
    decreases |signs|
  {
    if signs != [] {
      var sign, k := signs[0], i + |signs[0].text|;
      SliceSplits(buf, i, end, sign.text, Text(signs[1..]));
      NextByteIs(buf, k, end, signs[1..], quote);
      if IsPlainSign(sign, quote) {
        PlainSignIsRead(buf, i, k, sign, quote, strict, copying);
        SignsAreRead(buf, k, end, signs[1..], quote, strict, copying);
      } else {
        EscapeSignIsRead(buf, i, k, sign, quote, strict, copying);
        SignsAreRead(buf, k, end, signs[1..], quote, strict, true);
      }
    }
  }

  lemma NextByteIs(buf: seq<byte>, k: nat, end: nat, signs: seq<Sign>, quote: byte)
    requires k <= end < |buf| && buf[k..end] == Text(signs) && buf[end] == quote
    ensures At(buf, k) == NextByte(signs, quote)
  {
    if k < end {
      assert buf[k..end][0] == buf[k];
    }
  }

  lemma PlainSignIsRead(buf: seq<byte>, i: nat, k: nat, sign: Sign, quote: byte, strict: bool, copying: bool)
    requires IsPlainSign(sign, quote) && i < k <= |buf| && buf[i..k] == sign.text
    ensures StringValue(buf, i, quote, strict, copying) == After(sign.cps, StringValue(buf, k, quote, strict, copying))
  {
    var cp := sign.cps[0];
    CharIff(buf, i, k, cp);
    assert buf[i] == sign.text[0] && sign.cps == [cp];
  }

  lemma EscapeSignIsRead(buf: seq<byte>, i: nat, k: nat, sign: Sign, quote: byte, strict: bool, copying: bool)
    requires i <= k <= |buf| && buf[i..k] == sign.text && quote != BACKSLASH && InRange(sign.cps)
    ensures StandsIn(sign.text, At(buf, k), sign.cps, strict) ==>
              StringValue(buf, i, quote, strict, copying) == After(sign.cps, StringValue(buf, k, quote, strict, true))
  {
    if StandsIn(sign.text, At(buf, k), sign.cps, strict) {
      assert buf[i] == sign.text[0];
      StringEscapeIff(buf, i, strict, k, sign.cps);
      EscapedValue(buf, i, k, sign.cps, quote, strict, copying);
    }
  }

  lemma EscapedValue(buf: seq<byte>, i: nat, k: nat, cps: seq<nat>, quote: byte, strict: bool, copying: bool)
    requires At(buf, i) == BACKSLASH && StringEscape(buf, i, strict) == Ok(Piece(cps, k)) && InRange(cps)
    ensures StringValue(buf, i, quote, strict, copying) == After(cps, StringValue(buf, k, quote, strict, true))
  {}

  lemma OneMoreSign(first: Sign, rest: seq<Sign>, quote: byte, strict: bool)
    ensures IsSign(first, NextByte(rest, quote), quote, strict) && AreSigns(rest, quote, strict) ==> AreSigns([first] + rest, quote, strict)
    ensures Text([first] + rest) == first.text + Text(rest) && Meaning([first] + rest) == first.cps + Meaning(rest)
  {
    assert ([first] + rest)[1..] == rest;
  }

  // ----- Only signs are read -----

  /** What is read next, and where it ends. */
  ghost predicate IsPiece(buf: seq<byte>, i: nat, piece: Piece, quote: byte, strict: bool) {
    && i < piece.end <= |buf| && InRange(piece.cps)
    && if buf[i] == BACKSLASH then StringEscape(buf, i, strict) == Ok(piece)
       else IsPlainByte(buf[i], quote) && |piece.cps| == 1 && CharAt(buf, i) == Some(Char(piece.cps[0], piece.end - i))
  }

  ghost predicate ArePieces(buf: seq<byte>, i: nat, end: nat, pieces: seq<Piece>, quote: byte, strict: bool)
    decreases |pieces|
  {
    if pieces == [] then i == end && At(buf, end) == quote
    else IsPiece(buf, i, pieces[0], quote, strict) && ArePieces(buf, pieces[0].end, end, pieces[1..], quote, strict)
  }

  function Value(pieces: seq<Piece>): seq<nat> {
    if pieces == [] then [] else pieces[0].cps + Value(pieces[1..])
  }

  lemma NextPiece(buf: seq<byte>, i: nat, quote: byte, strict: bool) returns (piece: Piece)
    requires StringValue(buf, i, quote, strict, true).Done? && At(buf, i) != quote
    ensures IsPiece(buf, i, piece, quote, strict)
    ensures StringValue(buf, i, quote, strict, true) == After(piece.cps, StringValue(buf, piece.end, quote, strict, true))
  {
    if buf[i] == BACKSLASH {
      piece := StringEscape(buf, i, strict).value;
    } else {
      var c := CharAt(buf, i).value;
      piece := Piece([c.cp], i + c.length);
    }
  }

  lemma OneMorePiece(buf: seq<byte>, i: nat, piece: Piece, end: nat, rest: seq<Piece>, quote: byte, strict: bool)
    ensures IsPiece(buf, i, piece, quote, strict) && ArePieces(buf, piece.end, end, rest, quote, strict) ==>
              ArePieces(buf, i, end, [piece] + rest, quote, strict)
    ensures Value([piece] + rest) == piece.cps + Value(rest)
  {
    assert ([piece] + rest)[1..] == rest;
  }

  lemma {:induction false} StringIsPieces(buf: seq<byte>, i: nat, quote: byte, strict: bool) returns (pieces: seq<Piece>)
    requires StringValue(buf, i, quote, strict, true).Done? && quote != BACKSLASH
    ensures var r := StringValue(buf, i, quote, strict, true);
            ArePieces(buf, i, r.end - 1, pieces, quote, strict) && Value(pieces) == r.cps
    decreases |buf| - i
  {
    if At(buf, i) == quote {
      pieces := [];
    } else {
      var piece := NextPiece(buf, i, quote, strict);
      var rest := StringIsPieces(buf, piece.end, quote, strict);
      OneMorePiece(buf, i, piece, StringValue(buf, piece.end, quote, strict, true).end - 1, rest, quote, strict);
      pieces := [piece] + rest;
    }
  }

  lemma PieceIsSign(buf: seq<byte>, i: nat, piece: Piece, quote: byte, strict: bool)
    requires i < piece.end <= |buf|
    ensures IsPiece(buf, i, piece, quote, strict) ==> IsSign(Sign(buf[i..piece.end], piece.cps), At(buf, piece.end), quote, strict)
  {
    if IsPiece(buf, i, piece, quote, strict) {
      if buf[i] == BACKSLASH {
        StringEscapeIff(buf, i, strict, piece.end, piece.cps);
      } else {
        CharIff(buf, i, piece.end, piece.cps[0]);
      }
    }
  }

  /** The signs are what is written from i to the closing quote at end. */
  ghost predicate AreWritten(buf: seq<byte>, i: nat, end: nat, signs: seq<Sign>, quote: byte, strict: bool) {
    i <= end < |buf| && buf[end] == quote && buf[i..end] == Text(signs) && AreSigns(signs, quote, strict)
  }

  lemma {:induction false} PiecesAreWritten(buf: seq<byte>, i: nat, end: nat, pieces: seq<Piece>, quote: byte, strict: bool) returns (signs: seq<Sign>)
    requires ArePieces(buf, i, end, pieces, quote, strict)
    ensures AreWritten(buf, i, end, signs, quote, strict) && Meaning(signs) == Value(pieces)
    decreases |pieces|
  {
    if pieces == [] {
      signs := [];
    } else {
      var piece := pieces[0];
      var rest := PiecesAreWritten(buf, piece.end, end, pieces[1..], quote, strict);
      PieceIsSign(buf, i, piece, quote, strict);
      signs := [Sign(buf[i..piece.end], piece.cps)] + rest;
      OneMoreIsWritten(buf, i, piece.end, Sign(buf[i..piece.end], piece.cps), end, rest, quote, strict);
    }
  }

  lemma OneMoreIsWritten(buf: seq<byte>, i: nat, k: nat, sign: Sign, end: nat, rest: seq<Sign>, quote: byte, strict: bool)
    requires i < k <= |buf| && sign.text == buf[i..k]
    ensures IsSign(sign, At(buf, k), quote, strict) && AreWritten(buf, k, end, rest, quote, strict) ==>
              AreWritten(buf, i, end, [sign] + rest, quote, strict)
    ensures Meaning([sign] + rest) == sign.cps + Meaning(rest)
  {
    OneMoreSign(sign, rest, quote, strict);
    if AreWritten(buf, k, end, rest, quote, strict) {
      NextByteIs(buf, k, end, rest, quote);
      SliceJoins(buf, i, k, end);
    }
  }

  /** Whatever is read as a string literal is written in signs, and its value is what they stand for. */
  lemma StringIsWritten(buf: seq<byte>, i: nat, quote: byte, strict: bool) returns (signs: seq<Sign>)
    requires StringValue(buf, i, quote, strict, true).Done? && quote != BACKSLASH
    ensures var r := StringValue(buf, i, quote, strict, true);
            AreWritten(buf, i, r.end - 1, signs, quote, strict) && Meaning(signs) == r.cps
  {
    var pieces := StringIsPieces(buf, i, quote, strict);
    signs := PiecesAreWritten(buf, i, StringValue(buf, i, quote, strict, true).end - 1, pieces, quote, strict);
  }

  /** On source whose characters are in range, exactly what is written in signs is read as a string literal. */
  lemma StringIff(buf: seq<byte>, i: nat, end: nat, cps: seq<nat>, quote: byte, strict: bool)
    requires InRangeFrom(buf, i) && quote != BACKSLASH
    ensures StringValue(buf, i, quote, strict, false) == Done(cps, end + 1) <==>
              exists signs :: AreWritten(buf, i, end, signs, quote, strict) && Meaning(signs) == cps
  {
    CopyingIsExact(buf, i, quote, strict);
    if StringValue(buf, i, quote, strict, false) == Done(cps, end + 1) {
      var signs := StringIsWritten(buf, i, quote, strict);
    }
    if signs :| AreWritten(buf, i, end, signs, quote, strict) && Meaning(signs) == cps {
      SignsAreRead(buf, i, end, signs, quote, strict, false);
    }
  }

  // ----- Quoting -----

  datatype Way = Plainly | ByName | InBraces

  ghost predicate CanWrite(cp: nat, way: Way, quote: byte) {
    match way
    case Plainly => cp != BACKSLASH && cp != quote && cp != LF && cp != CR
    case ByName => exists c: byte :: IsNamed(c, cp)
    case InBraces => true
  }

  /** A code point written in one of three ways. */
  ghost function Quoted(cp: nat, way: Way, quote: byte): Sign
    requires cp <= MAX_CODE_POINT && CanWrite(cp, way, quote)
  {
    match way
    case Plainly => Sign(Encode(cp), [cp])
    case ByName => var c: byte :| IsNamed(c, cp); Sign([BACKSLASH, c], [cp])
    case InBraces => Sign([BACKSLASH, 'u' as int, '{' as int] + Written(cp, 16) + ['}' as int], [cp])
  }

  lemma QuotedIsSign(cp: nat, way: Way, next: nat, quote: byte, strict: bool)
    requires cp <= MAX_CODE_POINT && CanWrite(cp, way, quote) && quote < 0x80
    ensures IsSign(Quoted(cp, way, quote), next, quote, strict)
  {
    if way.Plainly? {
      EncodedIsChar(cp);
    } else if way.InBraces? {
      InBracesIsEscape(cp, Quoted(cp, way, quote).text);
    }
  }

  lemma InBracesIsEscape(cp: nat, text: seq<byte>)
    requires cp <= MAX_CODE_POINT && text == [BACKSLASH, 'u' as int, '{' as int] + Written(cp, 16) + ['}' as int]
    ensures text[0] == BACKSLASH && IsBracedEscape(text, [cp]) && |text| <= 10
  {
    WrittenWrites(cp, 16);
    WrittenLength(cp, 6);
    assert text[3..|text| - 1] == Written(cp, 16);
  }

  function Pow16(k: nat): nat {
    if k == 0 then 1 else 16 * Pow16(k - 1)
  }

  lemma {:induction false} WrittenShort(n: nat, k: nat)
    requires k > 0 && n < Pow16(k)
    ensures 0 < |Written(n, 16)| <= k
  {
    if n >= 16 {
      WrittenShort(n / 16, k - 1);
    }
  }

  lemma WrittenLength(cp: nat, six: nat)
    requires cp <= MAX_CODE_POINT && six == 6
    ensures 0 < |Written(cp, 16)| <= 6
  {
    assert Pow16(six) == 0x100_0000;
    WrittenShort(cp, six);
  }

  lemma EncodedIsChar(cp: nat)
    requires cp <= MAX_CODE_POINT
    ensures IsChar(Encode(cp), cp) && (if cp < 0x80 then Encode(cp)[0] == cp else Encode(cp)[0] >= 0x80)
  {
    DecodeCharEncode(cp, []);
    assert Encode(cp) + [] == Encode(cp);
  }

  ghost function QuotedAll(cps: seq<nat>, ways: seq<Way>, quote: byte): seq<Sign>
    requires |ways| == |cps| && InRange(cps) && forall i | 0 <= i < |cps| :: CanWrite(cps[i], ways[i], quote)
  {
    if cps == [] then [] else [Quoted(cps[0], ways[0], quote)] + QuotedAll(cps[1..], ways[1..], quote)
  }

  lemma {:induction false} QuotedAllAreSigns(cps: seq<nat>, ways: seq<Way>, quote: byte, strict: bool)
    requires |ways| == |cps| && InRange(cps) && forall i | 0 <= i < |cps| :: CanWrite(cps[i], ways[i], quote)
    requires quote < 0x80
    ensures AreSigns(QuotedAll(cps, ways, quote), quote, strict) && Meaning(QuotedAll(cps, ways, quote)) == cps
  {
    if cps != [] {
      var first, rest := Quoted(cps[0], ways[0], quote), QuotedAll(cps[1..], ways[1..], quote);
      QuotedIsSign(cps[0], ways[0], NextByte(rest, quote), quote, strict);
      QuotedAllAreSigns(cps[1..], ways[1..], quote, strict);
      OneMoreSign(first, rest, quote, strict);
      assert first.cps == [cps[0]] && cps == [cps[0]] + cps[1..];
    }
  }

  /** Every string of code points is read back from its quotation, in whatever way each of them is written. */
  lemma QuotedIsRead(buf: seq<byte>, i: nat, end: nat, cps: seq<nat>, ways: seq<Way>, quote: byte, strict: bool)
    requires IsQuote(quote)
    requires |ways| == |cps| && InRange(cps) && forall i | 0 <= i < |cps| :: CanWrite(cps[i], ways[i], quote)
    requires i <= end < |buf| && buf[i..end] == Text(QuotedAll(cps, ways, quote)) && buf[end] == quote
    ensures StringValue(buf, i, quote, strict, false) == Done(cps, end + 1)
  {
    QuotedAllAreSigns(cps, ways, quote, strict);
    SignsAreRead(buf, i, end, QuotedAll(cps, ways, quote), quote, strict, false);
  }
}
