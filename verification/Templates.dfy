/**
 Templates and strings: a template part has a value exactly if all of its escapes are escapes of the grammar,
 and the value is that of a string literal with the same text.
 */
module Templates {
  import opened Wrappers
  import opened Bits
  import opened Wtf8
  import opened Characters
  import opened Literals
  import opened Numerals
  import opened Writing
  import opened Escapes
  import opened Quoting

  // ----- Templates without a value -----

  /** Some backslash in buf[i..end], not counting those behind a backslash, starts no escape of the grammar. */
  ghost predicate HasBadEscape(buf: seq<byte>, i: nat, end: nat)
    requires end <= |buf|
    decreases end - i
  {
    i < end &&
    if buf[i] == BACKSLASH then !StartsEscape(buf, i) || HasBadEscape(buf, i + 2, end) else HasBadEscape(buf, i + 1, end)
  }

  lemma {:induction false} NoBackslash(buf: seq<byte>, i: nat, j: nat, end: nat)
    requires i <= j <= end <= |buf| && BACKSLASH !in buf[i..j]
    ensures HasBadEscape(buf, i, end) <==> HasBadEscape(buf, j, end)
    decreases j - i
  {
    if i < j {
      assert buf[i..j] == [buf[i]] + buf[i + 1..j];
      NoBackslash(buf, i + 1, j, end);
    }
  }

  /** The value of a template part is missing if and only if some escape in it is none of the grammar. */
  lemma {:induction false} MalformedIff(buf: seq<byte>, i: nat, copying: bool)
    requires TemplateValue(buf, i, copying).Part?
    ensures TemplateValue(buf, i, copying).isMalformed <==> HasBadEscape(buf, i, TemplateValue(buf, i, copying).rawEnd)
    decreases |buf| - i
  {
    var r := TemplateValue(buf, i, copying);
    if !AtPartEnd(buf, i) {
      if buf[i] == BACKSLASH {
        var e := TemplateEscape(buf, i).value;
        MalformedIff(buf, e.piece.end, true);
        EscapeMalformedIff(buf, i, r.rawEnd);
      } else {
        PlainTemplateStep(buf, i, copying);
        var k := if buf[i] != CR then i + CharAt(buf, i).value.length else if At(buf, i + 1) == LF then i + 2 else i + 1;
        MalformedIff(buf, k, copying || buf[i] == CR);
        StepHasNoBackslash(buf, i, k);
        NoBackslash(buf, i, k, r.rawEnd);
      }
    }
  }

  lemma EscapeMalformedIff(buf: seq<byte>, i: nat, end: nat)
    requires At(buf, i) == BACKSLASH && TemplateEscape(buf, i).Ok? && TemplateEscape(buf, i).value.piece.end <= end <= |buf|
    ensures var e := TemplateEscape(buf, i).value;
            HasBadEscape(buf, i, end) <==> e.isMalformed || HasBadEscape(buf, e.piece.end, end)
  {
    StartsEscapeIff(buf, i);
    TailHasNo(BACKSLASH, buf, i);
    NoBackslash(buf, i + 2, TemplateEscape(buf, i).value.piece.end, end);
  }

  lemma StepHasNoBackslash(buf: seq<byte>, i: nat, k: nat)
    requires i < k <= |buf| && buf[i] != BACKSLASH
    requires if buf[i] != CR then CharAt(buf, i).Some? && k == i + CharAt(buf, i).value.length
             else k == if At(buf, i + 1) == LF then i + 2 else i + 1
    ensures BACKSLASH !in buf[i..k]
  {
    if buf[i] != CR {
      CharHasNo(BACKSLASH, buf, i, k);
    }
  }

  // ----- The value of a template -----

  /** The text of a string literal that has the value of a template with this raw text. */
  function AsString(raw: seq<byte>, quote: byte): seq<byte>
    decreases |raw|
  {
    if raw == [] then []
    else if raw[0] == BACKSLASH && |raw| > 1 then raw[..2] + AsString(raw[2..], quote)
    else InString(raw[0], quote) + AsString(raw[1..], quote)
  }

  function InString(b: byte, quote: byte): seq<byte> {
    if b == LF then [BACKSLASH, 'n' as int] else if b == quote then [BACKSLASH, quote] else [b]
  }

  /** Behind a line end that starts with CR. */
  function BehindCr(buf: seq<byte>, i: nat): nat {
    if At(buf, i + 1) == LF then i + 2 else i + 1
  }

  /** The same of buf[i..end], with the closing quote, without normalizing line ends first. */
  function StringText(buf: seq<byte>, i: nat, end: nat, quote: byte): (s: seq<byte>)
    requires end <= |buf|
    ensures s != []
    decreases end - i
  {
    if i >= end then [quote]
    else if buf[i] == BACKSLASH && i + 1 < end then
      if buf[i + 1] == CR then [BACKSLASH, LF] + StringText(buf, BehindCr(buf, i + 1), end, quote)
      else [BACKSLASH, buf[i + 1]] + StringText(buf, i + 2, end, quote)
    else if buf[i] == CR then InString(LF, quote) + StringText(buf, BehindCr(buf, i), end, quote)
    else InString(buf[i], quote) + StringText(buf, i + 1, end, quote)
  }

  lemma FirstOfSlice(buf: seq<byte>, i: nat, k: nat)
    requires i < k <= |buf|
    ensures buf[i..k] == [buf[i]] + buf[i + 1..k]
  {}

  lemma Associative(a: seq<byte>, b: seq<byte>, c: seq<byte>)
    ensures a + (b + c) == a + b + c
  {}

  lemma {:induction false} PlainText(buf: seq<byte>, i: nat, k: nat, end: nat, quote: byte)
    requires i <= k <= end <= |buf| && BACKSLASH !in buf[i..k] && LF !in buf[i..k] && CR !in buf[i..k] && quote !in buf[i..k]
    ensures StringText(buf, i, end, quote) == buf[i..k] + StringText(buf, k, end, quote)
    decreases k - i
  {
    if i < k {
      FirstOfSlice(buf, i, k);
      PlainText(buf, i + 1, k, end, quote);
      Associative([buf[i]], buf[i + 1..k], StringText(buf, k, end, quote));
    }
  }

  lemma {:induction false} PartEndsThere(buf: seq<byte>, i: nat, copying: bool)
    requires TemplateValue(buf, i, copying).Part?
    ensures AtPartEnd(buf, TemplateValue(buf, i, copying).rawEnd)
    decreases |buf| - i
  {
    if !AtPartEnd(buf, i) {
      if buf[i] == BACKSLASH {
        PartEndsThere(buf, TemplateEscape(buf, i).value.piece.end, true);
      } else {
        PlainTemplateStep(buf, i, copying);
        var k := if buf[i] != CR then i + CharAt(buf, i).value.length else if At(buf, i + 1) == LF then i + 2 else i + 1;
        PartEndsThere(buf, k, copying || buf[i] == CR);
      }
    }
  }

  lemma StandsElsewhere(text: seq<byte>, next: nat, next': nat, cps: seq<nat>)
    requires |text| >= 2 && text[1] != CR && (IsDecimalDigit(next') ==> IsDecimalDigit(next))
    ensures Stands(text, next, cps) ==> Stands(text, next', cps)
  {}

  lemma SecondByte(buf: seq<byte>, i: nat, k: nat)
    requires i + 2 <= k <= |buf|
    ensures |buf[i..k]| == k - i && buf[i..k][1] == buf[i + 1] && buf[i..k][0] == buf[i]
  {}

  lemma TailIsPlain(buf: seq<byte>, i: nat, quote: byte)
    requires At(buf, i) == BACKSLASH && EscapeAt(buf, i).Escaped? && At(buf, i + 1) != CR && IsQuote(quote)
    ensures var tail := buf[i + 2..EscapeAt(buf, i).end];
            BACKSLASH !in tail && LF !in tail && CR !in tail && quote !in tail
  {
    TailHasNo(BACKSLASH, buf, i);
    TailHasNo(LF, buf, i);
    TailHasNo(CR, buf, i);
    TailHasNo(quote, buf, i);
  }

  lemma NextIsDigit(buf: seq<byte>, k: nat, end: nat, quote: byte)
    requires k <= end <= |buf| && IsQuote(quote)
    ensures IsDecimalDigit(StringText(buf, k, end, quote)[0]) ==> IsDecimalDigit(At(buf, k))
  {}

  lemma CopiedText(buf: seq<byte>, i: nat, k: nat, end: nat, quote: byte)
    requires i + 2 <= k <= end <= |buf| && buf[i] == BACKSLASH && buf[i + 1] != CR
    requires var tail := buf[i + 2..k]; BACKSLASH !in tail && LF !in tail && CR !in tail && quote !in tail
    ensures StringText(buf, i, end, quote) == buf[i..k] + StringText(buf, k, end, quote)
  {
    PlainText(buf, i + 2, k, end, quote);
    assert buf[i..i + 2] == [BACKSLASH, buf[i + 1]];
    SliceJoins(buf, i, i + 2, k);
    Associative(buf[i..i + 2], buf[i + 2..k], StringText(buf, k, end, quote));
  }

  lemma CrStandsForNothing(buf: seq<byte>, i: nat)
    requires At(buf, i) == BACKSLASH && At(buf, i + 1) == CR
    ensures EscapeAt(buf, i) == Escaped([], BehindCr(buf, i + 1))
  {}

  /** The text of an escape, in the text of the string. */
  function EscapeText(buf: seq<byte>, i: nat, k: nat): seq<byte>
    requires i + 2 <= k <= |buf|
  {
    if buf[i + 1] == CR then [BACKSLASH, LF] else buf[i..k]
  }

  /** An escape is copied. */
  lemma EscapeIsCopied(buf: seq<byte>, i: nat, k: nat, cps: seq<nat>, end: nat, quote: byte)
    requires At(buf, i) == BACKSLASH && EscapeAt(buf, i) == Escaped(cps, k) && k <= end <= |buf| && IsQuote(quote)
    ensures StringText(buf, i, end, quote) == EscapeText(buf, i, k) + StringText(buf, k, end, quote)
  {
    if buf[i + 1] == CR {
      CrStandsForNothing(buf, i);
    } else {
      TailIsPlain(buf, i, quote);
      CopiedText(buf, i, k, end, quote);
    }
  }

  /** A character, in the text of the string. */
  lemma CharText(buf: seq<byte>, i: nat, k: nat, end: nat, cp: nat, quote: byte)
    requires i < k <= end <= |buf| && CharAt(buf, i) == Some(Char(cp, k - i)) && IsPlainByte(buf[i], quote) && IsQuote(quote)
    ensures StringText(buf, i, end, quote) == buf[i..k] + StringText(buf, k, end, quote)
  {
    CharHasNo(BACKSLASH, buf, i, k);
    CharHasNo(LF, buf, i, k);
    CharHasNo(CR, buf, i, k);
    CharHasNo(quote, buf, i, k);
    PlainText(buf, i, k, end, quote);
  }

  // ----- What is read in a template -----

  /** What is read next, and where it ends. */
  ghost predicate IsPartPiece(buf: seq<byte>, i: nat, piece: Piece) {
    && i < piece.end <= |buf| && InRange(piece.cps)
    && if buf[i] == BACKSLASH then EscapeAt(buf, i) == Escaped(piece.cps, piece.end)
       else if buf[i] == CR then piece == Piece([0x0A], BehindCr(buf, i))
       else |piece.cps| == 1 && CharAt(buf, i) == Some(Char(piece.cps[0], piece.end - i))
  }

  ghost predicate ArePartPieces(buf: seq<byte>, i: nat, end: nat, pieces: seq<Piece>)
    decreases |pieces|
  {
    if pieces == [] then i == end
    else IsPartPiece(buf, i, pieces[0]) && pieces[0].end <= end && ArePartPieces(buf, pieces[0].end, end, pieces[1..])
  }

  lemma NextPartPiece(buf: seq<byte>, i: nat, copying: bool) returns (piece: Piece)
    requires TemplateValue(buf, i, copying).Part? && !TemplateValue(buf, i, copying).isMalformed && !AtPartEnd(buf, i) && InRangeFrom(buf, i)
    ensures IsPartPiece(buf, i, piece)
    ensures TemplateValue(buf, i, copying)
         == PartAfter(piece.cps, false, TemplateValue(buf, piece.end, copying || buf[i] == BACKSLASH || buf[i] == CR))
  {
    if buf[i] == BACKSLASH {
      piece := Piece(EscapeAt(buf, i).cps, EscapeAt(buf, i).end);
    } else if buf[i] == CR {
      piece := Piece([0x0A], BehindCr(buf, i));
    } else {
      var c := CharAt(buf, i).value;
      piece := Piece([c.cp], i + c.length);
    }
  }

  lemma OneMorePartPiece(buf: seq<byte>, i: nat, piece: Piece, end: nat, rest: seq<Piece>)
    requires piece.end <= end
    ensures IsPartPiece(buf, i, piece) && ArePartPieces(buf, piece.end, end, rest) ==> ArePartPieces(buf, i, end, [piece] + rest)
    ensures Value([piece] + rest) == piece.cps + Value(rest)
  {
    assert ([piece] + rest)[1..] == rest;
  }

  lemma {:induction false} PartIsPieces(buf: seq<byte>, i: nat, copying: bool) returns (pieces: seq<Piece>)
    requires TemplateValue(buf, i, copying).Part? && !TemplateValue(buf, i, copying).isMalformed && InRangeFrom(buf, i)
    ensures var r := TemplateValue(buf, i, copying); ArePartPieces(buf, i, r.rawEnd, pieces) && Value(pieces) == r.cps
    decreases |buf| - i
  {
    if AtPartEnd(buf, i) {
      pieces := [];
    } else {
      var piece := NextPartPiece(buf, i, copying);
      var rest := PartIsPieces(buf, piece.end, copying || buf[i] == BACKSLASH || buf[i] == CR);
      OneMorePartPiece(buf, i, piece, TemplateValue(buf, i, copying).rawEnd, rest);
      pieces := [piece] + rest;
    }
  }

  // ----- The same in a string -----

  /** The sign of a string literal for a piece of a template. */
  ghost function SignOf(buf: seq<byte>, i: nat, piece: Piece, quote: byte): Sign
    requires IsPartPiece(buf, i, piece)
  {
    if buf[i] == BACKSLASH then Sign(EscapeText(buf, i, piece.end), piece.cps)
    else if buf[i] == CR || buf[i] == LF || buf[i] == quote then Sign(InString(if buf[i] == CR then LF else buf[i], quote), piece.cps)
    else Sign(buf[i..piece.end], piece.cps)
  }

  lemma SignIsText(buf: seq<byte>, i: nat, piece: Piece, end: nat, quote: byte)
    requires IsPartPiece(buf, i, piece) && piece.end <= end <= |buf| && IsQuote(quote)
    ensures StringText(buf, i, end, quote) == SignOf(buf, i, piece, quote).text + StringText(buf, piece.end, end, quote)
  {
    if buf[i] == BACKSLASH {
      EscapeIsCopied(buf, i, piece.end, piece.cps, end, quote);
    } else if buf[i] == LF || buf[i] == quote {
      CharAtAscii(buf, i);
    } else if buf[i] != CR {
      CharText(buf, i, piece.end, end, piece.cps[0], quote);
    }
  }

  lemma SignStands(buf: seq<byte>, i: nat, piece: Piece, next: nat, quote: byte)
    requires IsPartPiece(buf, i, piece) && IsQuote(quote) && (IsDecimalDigit(next) ==> IsDecimalDigit(At(buf, piece.end)))
    ensures IsSign(SignOf(buf, i, piece, quote), next, quote, true)
  {
    if buf[i] == BACKSLASH {
      EscapeStands(buf, i, piece.end, piece.cps, next);
    } else if buf[i] == LF || buf[i] == quote {
      CharAtAscii(buf, i);
    } else if buf[i] != CR {
      CharIff(buf, i, piece.end, piece.cps[0]);
    }
  }

  lemma EscapeStands(buf: seq<byte>, i: nat, k: nat, cps: seq<nat>, next: nat)
    requires At(buf, i) == BACKSLASH && EscapeAt(buf, i) == Escaped(cps, k) && (IsDecimalDigit(next) ==> IsDecimalDigit(At(buf, k)))
    ensures Stands(EscapeText(buf, i, k), next, cps)
  {
    if buf[i + 1] == CR {
      CrStandsForNothing(buf, i);
    } else {
      EscapeIff(buf, i, k, cps);
      SecondByte(buf, i, k);
      StandsElsewhere(buf[i..k], At(buf, k), next, cps);
    }
  }

  lemma OneMoreSignInText(sign: Sign, rest: seq<Sign>, tail: seq<byte>, quote: byte)
    requires tail == Text(rest) + [quote]
    ensures Text([sign] + rest) + [quote] == sign.text + tail && Meaning([sign] + rest) == sign.cps + Meaning(rest)
    ensures IsSign(sign, tail[0], quote, true) && AreSigns(rest, quote, true) ==> AreSigns([sign] + rest, quote, true)
  {
    OneMoreSign(sign, rest, quote, true);
    Associative(sign.text, Text(rest), [quote]);
  }

  lemma {:induction false} PiecesAreSigns(buf: seq<byte>, i: nat, end: nat, pieces: seq<Piece>, quote: byte) returns (signs: seq<Sign>)
    requires ArePartPieces(buf, i, end, pieces) && end <= |buf| && IsQuote(quote)
    ensures Text(signs) + [quote] == StringText(buf, i, end, quote)
    ensures AreSigns(signs, quote, true) && Meaning(signs) == Value(pieces)
    decreases |pieces|
  {
    if pieces == [] {
      signs := [];
    } else {
      var piece := pieces[0];
      var rest := PiecesAreSigns(buf, piece.end, end, pieces[1..], quote);
      var sign, tail := SignOf(buf, i, piece, quote), StringText(buf, piece.end, end, quote);
      SignIsText(buf, i, piece, end, quote);
      NextIsDigit(buf, piece.end, end, quote);
      SignStands(buf, i, piece, tail[0], quote);
      OneMoreSignInText(sign, rest, tail, quote);
      signs := [sign] + rest;
    }
  }

  // ----- The raw text -----

  lemma NormalizedByte(buf: seq<byte>, i: nat, end: nat)
    requires i < end <= |buf|
    ensures var rest := Normalized(buf[if buf[i] == CR then if BehindCr(buf, i) <= end then BehindCr(buf, i) else end else i + 1..end], CR, LF);
            Normalized(buf[i..end], CR, LF) == [if buf[i] == CR then LF else buf[i]] + rest
  {
    var text := buf[i..end];
    assert text[0] == buf[i] && (|text| > 1 ==> text[1] == buf[i + 1]);
    assert text[1..] == buf[i + 1..end] && (|text| > 1 ==> text[2..] == buf[i + 2..end]);
  }

  /** Normalizing line ends first makes no difference. */
  lemma {:induction false} StringTextIsRaw(buf: seq<byte>, i: nat, end: nat, quote: byte)
    requires i <= end <= |buf| && (end > 0 ==> At(buf, end) != LF)
    ensures StringText(buf, i, end, quote) == AsString(Normalized(buf[i..end], CR, LF), quote) + [quote]
    decreases end - i
  {
    if i == end {
      assert buf[i..end] == [];
    } else if buf[i] == BACKSLASH && i + 1 < end {
      var k := if buf[i + 1] == CR then BehindCr(buf, i + 1) else i + 2;
      StringTextIsRaw(buf, k, end, quote);
      NormalizedByte(buf, i, end);
      NormalizedByte(buf, i + 1, end);
      BackslashInString(buf[i], if buf[i + 1] == CR then LF else buf[i + 1], Normalized(buf[k..end], CR, LF), quote);
    } else {
      var k := if buf[i] == CR then BehindCr(buf, i) else i + 1;
      StringTextIsRaw(buf, k, end, quote);
      NormalizedByte(buf, i, end);
      ByteInString(if buf[i] == CR then LF else buf[i], Normalized(buf[k..end], CR, LF), quote);
    }
  }

  lemma BackslashInString(a: byte, b: byte, rest: seq<byte>, quote: byte)
    requires a == BACKSLASH
    ensures AsString([a] + ([b] + rest), quote) + [quote] == [a, b] + (AsString(rest, quote) + [quote])
  {
    var raw := [a] + ([b] + rest);
    assert raw[..2] == [a, b] && raw[2..] == rest;
  }

  lemma ByteInString(b: byte, rest: seq<byte>, quote: byte)
    requires b == BACKSLASH ==> rest == []
    ensures AsString([b] + rest, quote) + [quote] == InString(b, quote) + (AsString(rest, quote) + [quote])
  {
    assert ([b] + rest)[1..] == rest;
  }

  /** The value of a well-formed template part is that of a string literal with its raw text. */
  lemma TemplateIsString(buf: seq<byte>, i: nat, quote: byte)
    requires TemplateValue(buf, i, false).Part? && InRangeFrom(buf, i) && IsQuote(quote)
    ensures var r := TemplateValue(buf, i, false);
            var s := AsString(Normalized(buf[i..r.rawEnd], CR, LF), quote) + [quote];
            !r.isMalformed ==> StringValue(s, 0, quote, true, false) == Done(r.cps, |s|)
  {
    var r := TemplateValue(buf, i, false);
    if !r.isMalformed {
      var pieces := PartIsPieces(buf, i, false);
      var signs := PiecesAreSigns(buf, i, r.rawEnd, pieces, quote);
      PartEndsThere(buf, i, false);
      StringTextIsRaw(buf, i, r.rawEnd, quote);
      TextIsRead(signs, quote);
    }
  }

  lemma TextIsRead(signs: seq<Sign>, quote: byte)
    requires AreSigns(signs, quote, true) && IsQuote(quote)
    ensures var s := Text(signs) + [quote]; StringValue(s, 0, quote, true, false) == Done(Meaning(signs), |s|)
  {
    var s := Text(signs) + [quote];
    assert s[0..|s| - 1] == Text(signs);
    SignsAreRead(s, 0, |s| - 1, signs, quote, true, false);
  }
}
