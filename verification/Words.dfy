/** Identifiers and keywords (section 12.7 of ECMA-262): characters or Unicode escapes. */
module Words {
  import opened Wrappers
  import opened Bits
  import opened Wtf8
  import opened Characters
  import opened Literals

  predicate IsIdStartAscii(c: nat) {
    'a' as int <= c <= 'z' as int || 'A' as int <= c <= 'Z' as int || c == '_' as int || c == '$' as int
  }

  predicate IsIdPartAscii(c: nat) {
    IsIdStartAscii(c) || IsDecimalDigit(c)
  }

  /** The Unicode properties ID_Start and ID_Continue, and what the lexer makes of them. */
  datatype Properties = Properties(idStart: nat -> bool, idContinue: nat -> bool)
  {
    predicate IsIdStartUnicode(cp: nat) { cp <= MAX_CODE_POINT && idStart(cp) }

    predicate IsIdPartUnicode(cp: nat) { cp <= MAX_CODE_POINT && (idContinue(cp) || cp == 0x200C || cp == 0x200D) }

    predicate IsIdStart(cp: nat) { IsIdStartAscii(cp) || IsIdStartUnicode(cp) }

    predicate IsIdPart(cp: nat) { IsIdPartAscii(cp) || IsIdPartUnicode(cp) }
  }

  /** A character or a Unicode escape, with the length of its text. */
  function WordPart(buf: seq<byte>, i: nat): (c: Option<Char>)
    ensures c.Some? ==> 0 < c.value.length && i + c.value.length <= |buf|
  {
    if At(buf, i) != '\\' as int then CharAt(buf, i)
    else if At(buf, i + 1) != 'u' as int then None
    else
      var e := UnicodeEscape(buf, i + 2);
      if e.Escaped? then Some(Char(e.cps[0], e.end - i)) else None
  }

  lemma EscapedPart(buf: seq<byte>, i: nat, cp: nat, end: nat)
    requires At(buf, i) == '\\' as int && At(buf, i + 1) == 'u' as int && UnicodeEscape(buf, i + 2) == Escaped([cp], end)
    ensures WordPart(buf, i) == Some(Char(cp, end - i)) && cp <= MAX_CODE_POINT
  {}

  lemma MalformedPart(buf: seq<byte>, i: nat)
    requires At(buf, i) == '\\' as int && UnicodeEscape(buf, i + 2).Malformed?
    ensures WordPart(buf, i).None?
  {}

  /** The code points that buf[i..j] spells. */
  function WordParts(buf: seq<byte>, i: nat, j: nat): Option<seq<nat>>
    decreases j - i
  {
    if i >= j then if i == j then Some([]) else None
    else
      var c := WordPart(buf, i);
      if c.None? then None
      else
        var rest := WordParts(buf, i + c.value.length, j);
        if rest.None? then None else Some([c.value.cp] + rest.value)
  }

  lemma {:induction false} WordPartsNext(buf: seq<byte>, i: nat, j: nat)
    requires WordParts(buf, i, j).Some? && WordPart(buf, j).Some?
    ensures var c := WordPart(buf, j).value; WordParts(buf, i, j + c.length) == Some(WordParts(buf, i, j).value + [c.cp])
    decreases j - i
  {
    var c := WordPart(buf, j).value;
    var k := j + c.length;
    if i == j {
      assert WordParts(buf, k, k) == Some([]);
      assert [c.cp] + [] == [] + [c.cp];
    } else {
      var first := WordPart(buf, i).value;
      WordPartsBound(buf, i + first.length, j);
      WordPartsNext(buf, i + first.length, j);
      var rest := WordParts(buf, i + first.length, j).value;
      assert [first.cp] + (rest + [c.cp]) == [first.cp] + rest + [c.cp];
    }
  }

  lemma WordPartsBound(buf: seq<byte>, i: nat, j: nat)
    requires WordParts(buf, i, j).Some?
    ensures i <= j
  {}

  /** What is spelled up to k goes on from what is spelled up to j. */
  lemma {:induction false} WordPartsSplit(buf: seq<byte>, i: nat, j: nat, k: nat)
    requires WordParts(buf, i, j).Some? && WordParts(buf, i, k).Some? && j < k
    ensures WordPart(buf, j).Some? && |WordParts(buf, i, j).value| < |WordParts(buf, i, k).value|
    ensures WordParts(buf, i, k).value[|WordParts(buf, i, j).value|] == WordPart(buf, j).value.cp
    decreases j - i
  {
    if i < j {
      var next := i + WordPart(buf, i).value.length;
      WordPartsSplit(buf, next, j, k);
    }
  }

  /** The end of the ASCII characters of a word from i. */
  function AsciiEnd(buf: seq<byte>, i: nat): (j: nat)
    requires i <= |buf|
    ensures i <= j <= |buf| && !IsIdPartAscii(At(buf, j))
    decreases |buf| - i
  {
    if IsIdPartAscii(At(buf, i)) then AsciiEnd(buf, i + 1) else i
  }

  // ----- Where a name ends -----

  /** No character that could only be part of a word, nor the backslash of an escape. */
  predicate IsPlainAscii(c: nat) { c == EOF_CHAR || (c < 0x80 && c != '\\' as int) }

  /** The error of a part that is malformed. */
  function PartError(c: nat): LexError {
    if c == '\\' as int then MalformedEscapeSequence else InvalidUnicode
  }

  /** The end of a word on the slow path, which asks the Unicode property of characters that are not ASCII. */
  function SlowEnd(buf: seq<byte>, i: nat, props: Properties): (r: Outcome<nat>)
    ensures !r.Panicked? && (r.Ok? ==> i <= r.value && (i <= |buf| ==> r.value <= |buf|))
    decreases |buf| - i
  {
    var c := At(buf, i);
    if IsIdPartAscii(c) then SlowEnd(buf, i + 1, props)
    else if IsPlainAscii(c) then Ok(i)
    else
      match WordPart(buf, i)
      case None => Err(PartError(c))
      case Some(p) =>
        if c == '\\' as int then if props.IsIdPart(p.cp) then SlowEnd(buf, i + p.length, props) else Err(UnknownToken)
        else if props.IsIdPartUnicode(p.cp) then SlowEnd(buf, i + p.length, props) else Ok(i)
  }

  /** The end of a word on the fast path, which asks the table of the first part that is not an ASCII character too. */
  function FastEnd(buf: seq<byte>, i: nat, props: Properties): (r: Outcome<nat>)
    requires i <= |buf|
    ensures !r.Panicked? && (r.Ok? ==> i <= r.value <= |buf|)
  {
    var j := AsciiEnd(buf, i);
    if IsPlainAscii(At(buf, j)) then Ok(j)
    else
      match WordPart(buf, j)
      case None => Err(PartError(At(buf, j)))
      case Some(p) => if props.IsIdPart(p.cp) then SlowEnd(buf, j + p.length, props) else Ok(j)
  }

  /** Whether the first part of a name, which is not an ASCII letter, may start it. */
  predicate MayStart(c: nat, cp: nat, isPrivate: bool, props: Properties) {
    if isPrivate || c == '\\' as int then props.IsIdStart(cp) else props.IsIdStartUnicode(cp)
  }

  /** The end of a name. A private name, whose # is not included, panics at the end of the source. */
  function NameEnd(buf: seq<byte>, i: nat, isPrivate: bool, props: Properties): (r: Outcome<nat>)
    requires i <= |buf|
    ensures r.Ok? ==> i < r.value <= |buf|
  {
    var c := At(buf, i);
    if IsIdStartAscii(c) then
      AsciiEndMoves(buf, i);
      FastEnd(buf, i, props)
    else if c == EOF_CHAR then Panicked
    else if c < 0x80 && c != '\\' as int then Err(InvalidUnicode)
    else
      match WordPart(buf, i)
      case None => Err(PartError(c))
      case Some(p) =>
        if MayStart(c, p.cp, isPrivate, props) then SlowEnd(buf, i + p.length, props)
        else Err(if isPrivate then HashNotFollowedByIdentifier else UnknownToken)
  }

  lemma AsciiEndMoves(buf: seq<byte>, i: nat)
    requires IsIdPartAscii(At(buf, i))
    ensures i < AsciiEnd(buf, i)
  {}

  /** ASCII characters of a word spell themselves. */
  lemma {:induction false} AsciiWord(buf: seq<byte>, i: nat)
    requires i <= |buf|
    ensures var j := AsciiEnd(buf, i);
            && WordParts(buf, i, j) == Some(buf[i..j]) && AllAscii(buf[i..j])
            && forall k | i <= k < j :: IsIdPartAscii(buf[k])
    decreases |buf| - i
  {
    var j := AsciiEnd(buf, i);
    if i < j {
      AsciiWord(buf, i + 1);
      CharAtAscii(buf, i);
      assert buf[i..j] == [buf[i]] + buf[i + 1..j];
    } else {
      assert buf[i..j] == [];
    }
  }

  predicate AllAscii(bytes: seq<byte>) {
    forall i | 0 <= i < |bytes| :: bytes[i] < 0x80
  }

  /** ASCII is its own encoding. */
  lemma {:induction false} EncodeAscii(bytes: seq<byte>)
    requires AllAscii(bytes)
    ensures InRange(bytes) && EncodeAll(bytes) == bytes
  {
    if bytes != [] {
      EncodeAscii(bytes[1..]);
      assert bytes == [bytes[0]] + bytes[1..];
    }
  }

  /** A name is the encoding of a prefix and of the code points that are spelled from i to j. */
  ghost predicate Names(buf: seq<byte>, name: seq<byte>, prefix: seq<nat>, i: nat, j: nat) {
    var cps := WordParts(buf, i, j);
    cps.Some? && cps.value != [] && InRange(prefix + cps.value) && name == EncodeAll(prefix + cps.value)
  }

  lemma NameGrows(buf: seq<byte>, name: seq<byte>, prefix: seq<nat>, i: nat, j: nat, k: nat, cp: nat)
    requires Names(buf, name, prefix, i, j) && cp <= MAX_CODE_POINT
    requires WordParts(buf, i, k) == Some(WordParts(buf, i, j).value + [cp])
    ensures Names(buf, name + Encode(cp), prefix, i, k)
  {
    var cps := WordParts(buf, i, j).value;
    EncodeAllNext(prefix + cps, cp);
    assert prefix + cps + [cp] == prefix + (cps + [cp]);
  }

  lemma NameStarts(buf: seq<byte>, prefix: seq<nat>, i: nat, c: Char)
    requires InRange(prefix) && c.cp <= MAX_CODE_POINT && WordPart(buf, i) == Some(c)
    ensures Names(buf, EncodeAll(prefix) + Encode(c.cp), prefix, i, i + c.length)
    ensures WordParts(buf, i, i + c.length) == Some([c.cp])
  {
    assert WordParts(buf, i, i) == Some([]);
    WordPartsNext(buf, i, i);
    assert [] + [c.cp] == [c.cp];
    EncodeAllNext(prefix, c.cp);
  }

  lemma EncodeAllNext(cps: seq<nat>, cp: nat)
    requires InRange(cps) && cp <= MAX_CODE_POINT
    ensures InRange(cps + [cp]) && EncodeAll(cps + [cp]) == EncodeAll(cps) + Encode(cp)
  {
    EncodeAllOne(cp);
    EncodeAllConcat(cps, [cp]);
  }

  lemma AsciiName(buf: seq<byte>, start: nat, from: nat)
    requires start <= from < |buf| && IsIdPartAscii(buf[from]) && AllAscii(buf[start..from])
    ensures Names(buf, buf[start..AsciiEnd(buf, from)], buf[start..from], from, AsciiEnd(buf, from))
  {
    var end := AsciiEnd(buf, from);
    AsciiWord(buf, from);
    assert buf[start..end] == buf[start..from] + buf[from..end];
    EncodeAscii(buf[start..end]);
  }

  /** The code points of a name. */
  lemma NameMeaning(buf: seq<byte>, name: seq<byte>, prefix: seq<nat>, i: nat, j: nat)
    requires Names(buf, name, prefix, i, j)
    ensures CodePoints(name) == Some(prefix + WordParts(buf, i, j).value)
  {
    CodePointsOfEncoding(prefix + WordParts(buf, i, j).value);
  }

  // ----- Names are words -----

  /** The code points after the first are parts of a word. */
  ghost predicate IsWord(cps: seq<nat>, props: Properties) {
    forall i | 0 < i < |cps| :: props.IsIdPart(cps[i])
  }

  /** The name is the word that is spelled from i to j, behind a prefix. */
  ghost predicate NamesWord(buf: seq<byte>, name: seq<byte>, prefix: seq<nat>, i: nat, j: nat, props: Properties) {
    Names(buf, name, prefix, i, j) && IsWord(WordParts(buf, i, j).value, props)
  }

  lemma WordGrows(buf: seq<byte>, name: seq<byte>, prefix: seq<nat>, i: nat, j: nat, c: Char, props: Properties)
    requires NamesWord(buf, name, prefix, i, j, props) && WordPart(buf, j) == Some(c)
    requires c.cp <= MAX_CODE_POINT && props.IsIdPart(c.cp)
    ensures NamesWord(buf, name + Encode(c.cp), prefix, i, j + c.length, props)
  {
    WordPartsNext(buf, i, j);
    NameGrows(buf, name, prefix, i, j, j + c.length, c.cp);
  }

  lemma AsciiWordName(buf: seq<byte>, start: nat, from: nat, props: Properties)
    requires start <= from < |buf| && IsIdStartAscii(buf[from]) && AllAscii(buf[start..from])
    ensures NamesWord(buf, buf[start..AsciiEnd(buf, from)], buf[start..from], from, AsciiEnd(buf, from), props)
  {
    AsciiName(buf, start, from);
    AsciiWord(buf, from);
  }

  /** No part of a word follows, neither a character nor an escape. */
  ghost predicate WordEnds(buf: seq<byte>, i: nat, props: Properties) {
    var c := At(buf, i);
    if IsPlainAscii(c) then !IsIdPartAscii(c)
    else
      WordPart(buf, i).Some? &&
      if c == '\\' as int then !props.IsIdPart(WordPart(buf, i).value.cp) else !props.IsIdPartUnicode(WordPart(buf, i).value.cp)
  }

  lemma {:induction false} SlowEndEnds(buf: seq<byte>, i: nat, props: Properties)
    ensures var r := SlowEnd(buf, i, props); r.Ok? ==> WordEnds(buf, r.value, props)
    decreases |buf| - i
  {
    var c := At(buf, i);
    if IsIdPartAscii(c) {
      SlowEndEnds(buf, i + 1, props);
    } else if !IsPlainAscii(c) && WordPart(buf, i).Some? {
      SlowEndEnds(buf, i + WordPart(buf, i).value.length, props);
    }
  }

  /** A name starts with what may start one, be it a character or an escape. */
  lemma NamesStartRight(buf: seq<byte>, i: nat, isPrivate: bool, props: Properties)
    requires i <= |buf|
    ensures NameEnd(buf, i, isPrivate, props).Ok? ==> WordPart(buf, i).Some? && props.IsIdStart(WordPart(buf, i).value.cp)
  {
    if IsIdStartAscii(At(buf, i)) {
      CharAtAscii(buf, i);
    }
  }

  /** A name ends where no part of a word follows. */
  lemma NameEndEnds(buf: seq<byte>, i: nat, isPrivate: bool, props: Properties)
    requires i <= |buf|
    ensures var r := NameEnd(buf, i, isPrivate, props); r.Ok? ==> WordEnds(buf, r.value, props)
  {
    if IsIdStartAscii(At(buf, i)) {
      FastEndEnds(buf, i, props);
    } else if WordPart(buf, i).Some? {
      SlowEndEnds(buf, i + WordPart(buf, i).value.length, props);
    }
  }

  lemma FastEndEnds(buf: seq<byte>, i: nat, props: Properties)
    requires i <= |buf|
    ensures var r := FastEnd(buf, i, props); r.Ok? ==> WordEnds(buf, r.value, props)
  {
    var j := AsciiEnd(buf, i);
    if !IsPlainAscii(At(buf, j)) && WordPart(buf, j).Some? {
      if props.IsIdPart(WordPart(buf, j).value.cp) {
        SlowEndEnds(buf, j + WordPart(buf, j).value.length, props);
      } else {
        assert WordEnds(buf, j, props);
      }
    }
  }

  /**
   The table for ASCII and the Unicode property do not agree on a character: the property adds it, or it is
   an ASCII character in an overlong form that the property does not have.
   */
  ghost predicate IsDisputed(buf: seq<byte>, i: nat, props: Properties) {
    var c := At(buf, i);
    || (c < 0x80 && c != '\\' as int && !IsIdPartAscii(c) && props.IsIdPartUnicode(c))
    || (0x80 <= c < 0x100 && CharAt(buf, i).Some?
        && IsIdPartAscii(CharAt(buf, i).value.cp) && !props.IsIdPartUnicode(CharAt(buf, i).value.cp))
  }

  /** Where a word ends, a longer word goes on if and only if the next character is disputed. */
  lemma LongerIffDisputed(buf: seq<byte>, name: seq<byte>, prefix: seq<nat>, i: nat, j: nat, props: Properties)
    requires NamesWord(buf, name, prefix, i, j, props) && WordEnds(buf, j, props)
    ensures (exists longer, k: nat :: j < k && NamesWord(buf, longer, prefix, i, k, props)) <==> IsDisputed(buf, j, props)
  {
    DisputedIff(buf, j, props);
    if IsDisputed(buf, j, props) {
      var c := WordPart(buf, j).value;
      WordGrows(buf, name, prefix, i, j, c, props);
      assert j < j + c.length;
    }
    if longer, k: nat :| j < k && NamesWord(buf, longer, prefix, i, k, props) {
      WordPartsSplit(buf, i, j, k);
      var cps := WordParts(buf, i, k).value;
      assert props.IsIdPart(cps[|WordParts(buf, i, j).value|]);
    }
  }

  lemma DisputedIff(buf: seq<byte>, i: nat, props: Properties)
    requires WordEnds(buf, i, props)
    ensures IsDisputed(buf, i, props) <==> WordPart(buf, i).Some? && props.IsIdPart(WordPart(buf, i).value.cp)
    ensures IsDisputed(buf, i, props) ==> WordPart(buf, i).value.cp <= MAX_CODE_POINT
  {
    CharAtDecodes(buf, i);
    if At(buf, i) == EOF_CHAR {
      assert CharAt(buf, i).None?;
    }
  }

  /** A name is the longest word, if and only if the next character is not disputed. */
  lemma NamesAreLongest(buf: seq<byte>, name: seq<byte>, prefix: seq<nat>, i: nat, j: nat, isPrivate: bool, props: Properties)
    requires i <= |buf| && NameEnd(buf, i, isPrivate, props) == Ok(j) && NamesWord(buf, name, prefix, i, j, props)
    ensures (forall longer, k: nat | NamesWord(buf, longer, prefix, i, k, props) :: k <= j) <==> !IsDisputed(buf, j, props)
  {
    NameEndEnds(buf, i, isPrivate, props);
    LongerIffDisputed(buf, name, prefix, i, j, props);
  }

  /** An overlong dollar sign is a part of a word behind an ASCII letter, and none behind another letter. */
  lemma OverlongDollar(ascii: seq<byte>, accented: seq<byte>, props: Properties)
    requires ascii == [0x61, 0xC0, 0xA4] && accented == [0xC3, 0xA9, 0xC0, 0xA4]
    requires props.idStart(0xE9) && !props.idContinue('$' as int)
    ensures NameEnd(ascii, 0, false, props) == Ok(3) && NameEnd(accented, 0, false, props) == Ok(2)
    ensures IsDisputed(accented, 2, props)
  {
    CharAtDecodes(ascii, 1);
    assert ascii[1..] == [0xC0, 0xA4] && CharAt(ascii, 1) == Some(Char('$' as int, 2));
    assert AsciiEnd(ascii, 1) == 1 && AsciiEnd(ascii, 0) == 1;
    assert SlowEnd(ascii, 3, props) == Ok(3);
    CharAtDecodes(accented, 0);
    CharAtDecodes(accented, 2);
    assert accented[0..] == accented && CharAt(accented, 0) == Some(Char(0xE9, 2));
    assert accented[2..] == [0xC0, 0xA4] && CharAt(accented, 2) == Some(Char('$' as int, 2));
    assert SlowEnd(accented, 2, props) == Ok(2);
  }
}
