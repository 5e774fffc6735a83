/**
 Source text as the lexer sees it: bytes, read as characters. An ASCII byte is a character by itself;
 everything else is decoded (`common/unicode.rs`).
 */
module Characters {
  import opened Wrappers
  import opened Bits
  import opened Wtf8

  /** Stands for the byte after the last. Not a code point. */
  const EOF_CHAR := 0x11_0000

  function At(buf: seq<byte>, i: nat): nat {
    if i < |buf| then buf[i] else EOF_CHAR
  }

  datatype Char = Char(cp: nat, length: nat)

  function Ascii(c: char): Char {
    Char(c as int, 1)
  }

  /** The character at a position; None if there is none or its bytes are malformed. */
  function CharAt(buf: seq<byte>, i: nat): (c: Option<Char>)
    ensures c.Some? ==> 0 < c.value.length && i + c.value.length <= |buf|
    decreases i
  {
    if buf == [] then None
    else if i > 0 then CharAt(buf[1..], i - 1)
    else
      match DecodeChar(buf)
      case CodePoint(cp, length) => Some(Char(cp, length))
      case Invalid(_) => None
  }

  lemma {:induction false} CharAtDecodes(buf: seq<byte>, i: nat)
    ensures i >= |buf| ==> CharAt(buf, i).None?
    ensures i < |buf| ==>
              var d := DecodeChar(buf[i..]);
              CharAt(buf, i) == if d.CodePoint? then Some(Char(d.value, d.length)) else None
  {
    if i > 0 && buf != [] {
      CharAtDecodes(buf[1..], i - 1);
      assert i < |buf| ==> buf[i..] == buf[1..][i - 1..];
    } else if buf != [] {
      assert buf[0..] == buf;
    }
  }

  lemma CharAtAscii(buf: seq<byte>, i: nat)
    requires At(buf, i) < 0x80
    ensures CharAt(buf, i) == Some(Char(buf[i], 1))
  {
    CharAtDecodes(buf, i);
  }

  /** The characters of buf[i..j]; None if it does not consist of whole characters. */
  function Chars(buf: seq<byte>, i: nat, j: nat): Option<seq<Char>>
    decreases j - i
  {
    if i >= j then if i == j then Some([]) else None
    else
      var c := CharAt(buf, i);
      if c.None? then None
      else
        var rest := Chars(buf, i + c.value.length, j);
        if rest.None? then None else Some([c.value] + rest.value)
  }

  lemma {:induction false} CharsBounds(buf: seq<byte>, i: nat, j: nat)
    requires Chars(buf, i, j).Some?
    ensures i <= j && (i < j ==> j <= |buf|)
    decreases j - i
  {
    if i < j {
      var c := CharAt(buf, i).value;
      CharsBounds(buf, i + c.length, j);
    }
  }

  lemma {:induction false} CharsConcat(buf: seq<byte>, i: nat, j: nat, k: nat)
    requires Chars(buf, i, j).Some? && Chars(buf, j, k).Some?
    ensures Chars(buf, i, k) == Some(Chars(buf, i, j).value + Chars(buf, j, k).value)
    decreases j - i
  {
    CharsBounds(buf, i, j);
    CharsBounds(buf, j, k);
    if i == j {
      assert [] + Chars(buf, j, k).value == Chars(buf, j, k).value;
    } else {
      var c := CharAt(buf, i).value;
      CharsBounds(buf, i + c.length, j);
      CharsConcat(buf, i + c.length, j, k);
      var rest, more := Chars(buf, i + c.length, j).value, Chars(buf, j, k).value;
      assert [c] + (rest + more) == ([c] + rest) + more;
    }
  }

  lemma CharsOne(buf: seq<byte>, i: nat)
    requires CharAt(buf, i).Some?
    ensures var c := CharAt(buf, i).value; Chars(buf, i, i + c.length) == Some([c])
  {
    var c := CharAt(buf, i).value;
    assert Chars(buf, i + c.length, i + c.length) == Some([]);
    assert [c] + [] == [c];
  }

  /** Reading one more character. */
  lemma CharsNext(buf: seq<byte>, i: nat, j: nat)
    requires Chars(buf, i, j).Some? && CharAt(buf, j).Some?
    ensures var c := CharAt(buf, j).value; Chars(buf, i, j + c.length) == Some(Chars(buf, i, j).value + [c])
  {
    CharsOne(buf, j);
    CharsConcat(buf, i, j, j + CharAt(buf, j).value.length);
  }

  lemma CharsNextAscii(buf: seq<byte>, i: nat, j: nat)
    requires Chars(buf, i, j).Some? && At(buf, j) < 0x80
    ensures Chars(buf, i, j + 1) == Some(Chars(buf, i, j).value + [Char(buf[j], 1)])
  {
    CharAtAscii(buf, j);
    CharsNext(buf, i, j);
  }

  predicate IsNewline(c: Char) {
    if c.length == 1 then c.cp == 0x0A || c.cp == 0x0D else c.cp == 0x2028 || c.cp == 0x2029
  }

  predicate IsUnicodeWhitespace(cp: nat) {
    cp == 0xA0 || cp == 0x1680 || 0x2000 <= cp <= 0x200A || cp == 0x202F || cp == 0x205F || cp == 0x3000 || cp == 0xFEFF
  }

  predicate IsWhitespace(c: Char) {
    if c.length == 1 then c.cp == 0x09 || c.cp == 0x0B || c.cp == 0x0C || c.cp == 0x20 else IsUnicodeWhitespace(c.cp)
  }

  /** The white space and the line terminators of sections 12.2 and 12.3 of ECMA-262, the general category "Zs" included. */
  const WHITE_SPACE := {0x0009, 0x000B, 0x000C, 0xFEFF,
                        0x0020, 0x00A0, 0x1680, 0x2000, 0x2001, 0x2002, 0x2003, 0x2004, 0x2005, 0x2006, 0x2007, 0x2008, 0x2009, 0x200A,
                        0x202F, 0x205F, 0x3000}
  const LINE_TERMINATORS := {0x000A, 0x000D, 0x2028, 0x2029}

  /** Exactly these are taken for white space and line ends in their shortest forms, and those beyond ASCII also in longer ones. */
  lemma SpacesAndNewlines(c: Char)
    requires 1 <= c.length <= 4 && (c.length == 1 <==> c.cp < 0x80)
    ensures IsWhitespace(c) <==> c.cp in WHITE_SPACE
    ensures IsNewline(c) <==> c.cp in LINE_TERMINATORS
  {}

  predicate IsDecimalDigit(cp: nat) { '0' as int <= cp <= '9' as int }

  predicate HasNewline(text: seq<Char>) {
    exists c <- text :: IsNewline(c)
  }

  lemma HasNewlineConcat(a: seq<Char>, b: seq<Char>)
    ensures HasNewline(a + b) <==> HasNewline(a) || HasNewline(b)
  {
    assert forall c <- a :: c in a + b;
    assert forall c <- b :: c in a + b;
  }

  // ----- Between tokens (sections 12.2 to 12.5 of ECMA-262) -----

  datatype Element =
    | Space(c: Char)
    | LineEnd(c: Char)
    | LineComment(text: seq<Char>)
    | Hashbang(text: seq<Char>)
    | BlockComment(text: seq<Char>)

  function ElementText(e: Element): seq<Char> {
    match e
    case Space(c) => [c]
    case LineEnd(c) => [c]
    case LineComment(text) => [Ascii('/'), Ascii('/')] + text
    case Hashbang(text) => [Ascii('#'), Ascii('!')] + text
    case BlockComment(text) => [Ascii('/'), Ascii('*')] + text + [Ascii('*'), Ascii('/')]
  }

  predicate IsElement(e: Element) {
    match e
    case Space(c) => IsWhitespace(c)
    case LineEnd(c) => IsNewline(c)
    case LineComment(text) => !HasNewline(text)
    case Hashbang(text) => !HasNewline(text)
    case BlockComment(text) => !HasCommentEnd(text)
  }

  predicate HasCommentEnd(text: seq<Char>) {
    exists i | 0 < i < |text| :: text[i - 1] == Ascii('*') && text[i] == Ascii('/')
  }

  function GapText(gap: seq<Element>): seq<Char> {
    if gap == [] then [] else GapText(gap[..|gap| - 1]) + ElementText(gap[|gap| - 1])
  }

  /** The comments that run to the end of the line. */
  predicate RunsToLineEnd(e: Element) { e.LineComment? || e.Hashbang? }

  /**
   What may stand between tokens: spaces, line ends and comments. A line comment has to be followed by a
   line end or by the end of the source; a hashbang comment has to come first in the source.
   */
  predicate IsGap(gap: seq<Element>, allowHashbang: bool, atEof: bool) {
    gap == [] ||
    var e, before := gap[|gap| - 1], gap[..|gap| - 1];
    && IsElement(e)
    && (e.Hashbang? ==> before == [] && allowHashbang)
    && (RunsToLineEnd(e) ==> atEof)
    && IsGap(before, allowHashbang, e.LineEnd?)
  }

  predicate EndsLine(e: Element) { e.LineEnd? || (e.BlockComment? && HasNewline(e.text)) }

  predicate AnyEndsLine(gap: seq<Element>) {
    gap != [] && (AnyEndsLine(gap[..|gap| - 1]) || EndsLine(gap[|gap| - 1]))
  }

  /** Whether a line ends in buf[i..j]; None unless it is a gap with these elements. */
  ghost function GapNewline(buf: seq<byte>, i: nat, j: nat, gap: seq<Element>, allowHashbang: bool, atEof: bool): Option<bool> {
    if Chars(buf, i, j) == Some(GapText(gap)) && IsGap(gap, allowHashbang, atEof) then Some(AnyEndsLine(gap)) else None
  }

  lemma ElementNewline(e: Element)
    requires IsElement(e)
    ensures HasNewline(ElementText(e)) <==> EndsLine(e)
  {
    var slashes, opening, closing := [Ascii('/'), Ascii('/')], [Ascii('/'), Ascii('*')], [Ascii('*'), Ascii('/')];
    match e
    case Space(c) =>
    case LineEnd(c) => assert c in ElementText(e);
    case LineComment(text) => HasNewlineConcat(slashes, text);
    case Hashbang(text) => HasNewlineConcat([Ascii('#'), Ascii('!')], text);
    case BlockComment(text) =>
      HasNewlineConcat(opening, text);
      HasNewlineConcat(opening + text, closing);
  }

  /** A line ends in a gap exactly if there is a newline among its characters. */
  lemma {:induction false} AnyEndsLineMeaning(gap: seq<Element>, allowHashbang: bool, atEof: bool)
    requires IsGap(gap, allowHashbang, atEof)
    ensures AnyEndsLine(gap) <==> HasNewline(GapText(gap))
  {
    if gap != [] {
      var e, before := gap[|gap| - 1], gap[..|gap| - 1];
      AnyEndsLineMeaning(before, allowHashbang, e.LineEnd?);
      HasNewlineConcat(GapText(before), ElementText(e));
      ElementNewline(e);
    }
  }

  /** A gap that does not need the end of the source does not mind it. */
  lemma GapAnywhere(buf: seq<byte>, i: nat, j: nat, gap: seq<Element>, allowHashbang: bool, atEof: bool)
    requires GapNewline(buf, i, j, gap, allowHashbang, false).Some?
    ensures GapNewline(buf, i, j, gap, allowHashbang, atEof) == GapNewline(buf, i, j, gap, allowHashbang, false)
  {}

  /** A gap that goes on with one more element. */
  lemma GapGrows(buf: seq<byte>, i: nat, j: nat, gap: seq<Element>, allowHashbang: bool, e: Element, k: nat, atEof: bool)
    requires GapNewline(buf, i, j, gap, allowHashbang, e.LineEnd?).Some?
    requires IsElement(e) && Chars(buf, j, k) == Some(ElementText(e))
    requires (e.Hashbang? ==> gap == [] && allowHashbang) && (RunsToLineEnd(e) ==> atEof)
    ensures GapNewline(buf, i, k, gap + [e], allowHashbang, atEof)
         == Some(GapNewline(buf, i, j, gap, allowHashbang, e.LineEnd?).value || EndsLine(e))
  {
    CharsConcat(buf, i, j, k);
    assert (gap + [e])[..|gap|] == gap;
  }

  /** What a gap is: text by the grammar, and there is a newline before the next token exactly if one is in the text. */
  lemma GapMeaning(buf: seq<byte>, i: nat, j: nat, gap: seq<Element>, allowHashbang: bool, atEof: bool)
    requires GapNewline(buf, i, j, gap, allowHashbang, atEof).Some?
    ensures Chars(buf, i, j) == Some(GapText(gap)) && IsGap(gap, allowHashbang, atEof)
    ensures GapNewline(buf, i, j, gap, allowHashbang, atEof).value <==> HasNewline(GapText(gap))
  {
    AnyEndsLineMeaning(gap, allowHashbang, atEof);
  }
}
