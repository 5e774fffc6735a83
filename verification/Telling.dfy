/**
 A source has at most one telling: its gaps and tokens are determined, and where it cannot be read on there
 is none. So the lexer succeeds exactly on the sources that have one.
 */
module Telling {
  import opened Wrappers
  import opened Bits
  import opened Wtf8
  import opened Characters
  import opened Literals
  import opened Numerals
  import opened Punctuators
  import opened Words
  import opened Tokens

  // ----- Characters -----

  /** Of two readings from the same place, the longer one goes on from the shorter one. */
  lemma {:induction false} CharsSplit(buf: seq<byte>, i: nat, j: nat, k: nat)
    requires Chars(buf, i, j).Some? && Chars(buf, i, k).Some? && j <= k
    ensures Chars(buf, j, k).Some? && Chars(buf, i, k).value == Chars(buf, i, j).value + Chars(buf, j, k).value
    decreases j - i
  {
    CharsBounds(buf, i, j);
    if i < j {
      var c := CharAt(buf, i).value;
      CharsSplit(buf, i + c.length, j, k);
      var a, b := Chars(buf, i + c.length, j).value, Chars(buf, j, k).value;
      assert [c] + (a + b) == ([c] + a) + b;
    } else {
      assert [] + Chars(buf, j, k).value == Chars(buf, j, k).value;
    }
  }

  /** The character at which the shorter reading ends is the next one of the longer. */
  lemma CharsGoOn(buf: seq<byte>, i: nat, j: nat, k: nat)
    requires Chars(buf, i, j).Some? && Chars(buf, i, k).Some? && j < k
    ensures CharAt(buf, j).Some? && j < |buf|
    ensures var n := |Chars(buf, i, j).value|; n < |Chars(buf, i, k).value| && Chars(buf, i, k).value[n] == CharAt(buf, j).value
    ensures Chars(buf, i, j).value <= Chars(buf, i, k).value
  {
    CharsSplit(buf, i, j, k);
    assert Chars(buf, j, k).value[0] == CharAt(buf, j).value;
  }

  /** Characters can be taken apart where their text can. */
  lemma {:induction false} CharsApart(buf: seq<byte>, i: nat, j: nat, a: seq<Char>, b: seq<Char>) returns (k: nat)
    requires Chars(buf, i, j) == Some(a + b)
    ensures i <= k <= j && Chars(buf, i, k) == Some(a) && Chars(buf, k, j) == Some(b)
    decreases |a|
  {
    CharsBounds(buf, i, j);
    if a == [] {
      k := i;
      assert a + b == b;
    } else {
      var c := CharAt(buf, i).value;
      assert (a + b)[0] == a[0] && (a + b)[1..] == a[1..] + b;
      var rest := Chars(buf, i + c.length, j).value;
      assert ([c] + rest)[1..] == rest;
      k := CharsApart(buf, i + c.length, j, a[1..], b);
      assert a == [a[0]] + a[1..];
    }
  }

  lemma FirstChar(buf: seq<byte>, i: nat, j: nat)
    requires Chars(buf, i, j).Some? && Chars(buf, i, j).value != []
    ensures CharAt(buf, i) == Some(Chars(buf, i, j).value[0]) && i + CharAt(buf, i).value.length <= j
    ensures Chars(buf, i + CharAt(buf, i).value.length, j) == Some(Chars(buf, i, j).value[1..])
  {
    var c := CharAt(buf, i).value;
    CharsBounds(buf, i + c.length, j);
    assert ([c] + Chars(buf, i + c.length, j).value)[1..] == Chars(buf, i + c.length, j).value;
  }

  // ----- Elements -----

  /** An element stands complete in buf[i..k]: a line comment reaches a line end or the end of the source. */
  ghost predicate IsComplete(s: Source, i: nat, e: Element, k: nat) {
    && k <= |s.buf| && IsElement(e) && Chars(s.buf, i, k) == Some(ElementText(e))
    && (e.Hashbang? ==> i == 0 && s.hashbang)
    && (RunsToLineEnd(e) ==> k == |s.buf| || (CharAt(s.buf, k).Some? && IsNewline(CharAt(s.buf, k).value)))
  }

  /** How an element starts. */
  lemma ElementStarts(s: Source, i: nat, e: Element, k: nat)
    requires IsComplete(s, i, e, k)
    ensures i < k && CharAt(s.buf, i) == Some(ElementText(e)[0])
    ensures !e.Space? && !e.LineEnd? ==>
              && At(s.buf, i) == ElementText(e)[0].cp && At(s.buf, i + 1) == ElementText(e)[1].cp
              && Chars(s.buf, i + 2, k) == Some(ElementText(e)[2..])
  {
    var buf, text := s.buf, ElementText(e);
    FirstChar(buf, i, k);
    OneByte(buf, i);
    if !e.Space? && !e.LineEnd? {
      assert text[1..] != [] && text[1..][0] == text[1];
      FirstChar(buf, i + 1, k);
      OneByte(buf, i + 1);
      assert text[1..][1..] == text[2..];
    }
  }

  /** A character of one byte is that byte, and is below 0x80. */
  lemma OneByte(buf: seq<byte>, i: nat)
    requires CharAt(buf, i).Some?
    ensures i < |buf| && (CharAt(buf, i).value.length == 1 <==> buf[i] < 0x80)
    ensures CharAt(buf, i).value.length == 1 ==> CharAt(buf, i).value.cp == buf[i]
  {
    CharAtDecodes(buf, i);
  }

  lemma LineCommentEnds(s: Source, i: nat, text: seq<Char>, k: nat, longer: seq<Char>, k': nat)
    requires Chars(s.buf, i, k) == Some(text) && Chars(s.buf, i, k') == Some(longer) && k < k' <= |s.buf|
    requires k == |s.buf| || (CharAt(s.buf, k).Some? && IsNewline(CharAt(s.buf, k).value))
    ensures HasNewline(longer)
  {
    CharsGoOn(s.buf, i, k, k');
    assert longer[|text|] in longer;
  }

  lemma BlockCommentEnds(buf: seq<byte>, i: nat, text: seq<Char>, k: nat, longer: seq<Char>, k': nat)
    requires Chars(buf, i, k) == Some(text + [Ascii('*'), Ascii('/')]) && k < k'
    requires Chars(buf, i, k') == Some(longer + [Ascii('*'), Ascii('/')])
    ensures HasCommentEnd(longer)
  {
    CharsGoOn(buf, i, k, k');
    var a, b, n := text + [Ascii('*'), Ascii('/')], longer + [Ascii('*'), Ascii('/')], |text|;
    assert a[n] == b[n] == Ascii('*') && a[n + 1] == b[n + 1] == Ascii('/');
    assert n + 1 < |longer|;
    assert longer[n + 1 - 1] == Ascii('*') && longer[n + 1] == Ascii('/');
  }

  /** There is only one element at a place. */
  lemma ElementIsUnique(s: Source, i: nat, e: Element, k: nat, e': Element, k': nat)
    requires IsComplete(s, i, e, k) && IsComplete(s, i, e', k')
    ensures e == e' && k == k'
  {
    ElementStarts(s, i, e, k);
    ElementStarts(s, i, e', k');
    if e.Space? || e.LineEnd? {
      OneChar(s.buf, i, k);
      OneChar(s.buf, i, k');
    } else {
      SameComment(s, i, e, k, e', k');
    }
  }

  lemma OneChar(buf: seq<byte>, i: nat, k: nat)
    requires Chars(buf, i, k).Some? && |Chars(buf, i, k).value| == 1
    ensures CharAt(buf, i).Some? && k == i + CharAt(buf, i).value.length
  {
    FirstChar(buf, i, k);
    var j := i + CharAt(buf, i).value.length;
    assert Chars(buf, j, k) == Some([]);
    CharsBounds(buf, j, k);
    NotEmpty(buf, j, k);
  }

  lemma NotEmpty(buf: seq<byte>, i: nat, k: nat)
    requires Chars(buf, i, k).Some?
    ensures i < k ==> Chars(buf, i, k).value != []
  {}

  lemma SameComment(s: Source, i: nat, e: Element, k: nat, e': Element, k': nat)
    requires IsComplete(s, i, e, k) && IsComplete(s, i, e', k') && !e.Space? && !e.LineEnd? && !e'.Space? && !e'.LineEnd?
    ensures e == e' && k == k'
  {
    CommentParts(s, i, e, k);
    CommentParts(s, i, e', k');
    if e.BlockComment? {
      SameBlock(s.buf, i + 2, e.text, k, e'.text, k');
    } else {
      SameLine(s, i + 2, e.text, k, e'.text, k');
    }
  }

  /** The kind of a comment is told by its first two characters. */
  lemma CommentParts(s: Source, i: nat, e: Element, k: nat)
    requires IsComplete(s, i, e, k) && !e.Space? && !e.LineEnd?
    ensures (e.Hashbang? <==> At(s.buf, i) == '#' as int) && (e.BlockComment? <==> At(s.buf, i + 1) == '*' as int)
    ensures Chars(s.buf, i + 2, k) == Some(if e.BlockComment? then e.text + [Ascii('*'), Ascii('/')] else e.text)
  {
    ElementStarts(s, i, e, k);
    CommentTail(e);
  }

  lemma SameBlock(buf: seq<byte>, i: nat, text: seq<Char>, k: nat, text': seq<Char>, k': nat)
    requires Chars(buf, i, k) == Some(text + [Ascii('*'), Ascii('/')]) && !HasCommentEnd(text)
    requires Chars(buf, i, k') == Some(text' + [Ascii('*'), Ascii('/')]) && !HasCommentEnd(text')
    ensures text == text' && k == k'
  {
    if k < k' {
      BlockCommentEnds(buf, i, text, k, text', k');
    } else if k' < k {
      BlockCommentEnds(buf, i, text', k', text, k);
    }
    SameTail(text, text', [Ascii('*'), Ascii('/')]);
  }

  ghost predicate LineStops(s: Source, k: nat) {
    k == |s.buf| || (CharAt(s.buf, k).Some? && IsNewline(CharAt(s.buf, k).value))
  }

  lemma SameLine(s: Source, i: nat, text: seq<Char>, k: nat, text': seq<Char>, k': nat)
    requires Chars(s.buf, i, k) == Some(text) && !HasNewline(text) && LineStops(s, k) && k <= |s.buf|
    requires Chars(s.buf, i, k') == Some(text') && !HasNewline(text') && LineStops(s, k') && k' <= |s.buf|
    ensures text == text' && k == k'
  {
    if k < k' {
      LineCommentEnds(s, i, text, k, text', k');
    } else if k' < k {
      LineCommentEnds(s, i, text', k', text, k);
    }
  }

  lemma CommentTail(e: Element)
    requires !e.Space? && !e.LineEnd?
    ensures ElementText(e)[2..] == if e.BlockComment? then e.text + [Ascii('*'), Ascii('/')] else e.text
  {}

  lemma SameTail(a: seq<Char>, b: seq<Char>, tail: seq<Char>)
    ensures a + tail == b + tail ==> a == b
  {
    if a + tail == b + tail {
      assert |a| == |b|;
      assert (a + tail)[..|a|] == a && (b + tail)[..|b|] == b;
    }
  }

  // ----- Gaps -----

  /** A gap without its first element. */
  lemma {:induction false} RestIsGap(gap: seq<Element>, allowHashbang: bool, atEof: bool)
    requires gap != [] && IsGap(gap, allowHashbang, atEof)
    ensures IsElement(gap[0]) && (gap[0].Hashbang? ==> allowHashbang) && IsGap(gap[1..], false, atEof)
    ensures RunsToLineEnd(gap[0]) ==> if |gap| > 1 then gap[1].LineEnd? else atEof
  {
    var n := |gap| - 1;
    if n > 0 {
      var e, before := gap[n], gap[..n];
      RestIsGap(before, allowHashbang, e.LineEnd?);
      assert gap[1..][..n - 1] == before[1..] && gap[1..][n - 1] == e;
      assert n > 1 ==> before[1] == gap[1];
    }
  }

  lemma {:induction false} RestText(gap: seq<Element>)
    requires gap != []
    ensures GapText(gap) == ElementText(gap[0]) + GapText(gap[1..])
  {
    var n := |gap| - 1;
    var e, before := gap[n], gap[..n];
    assert gap == before + [e];
    GapTextNext(before, e);
    if n > 0 {
      RestText(before);
      assert gap[1..] == before[1..] + [e];
      GapTextNext(before[1..], e);
      Associative(ElementText(gap[0]), GapText(before[1..]), ElementText(e));
    } else {
      assert before == [] && gap[1..] == [];
      Associative(GapText([]), ElementText(e), GapText([]));
    }
  }

  lemma GapTextNext(gap: seq<Element>, e: Element)
    ensures GapText(gap + [e]) == GapText(gap) + ElementText(e)
  {
    assert (gap + [e])[..|gap|] == gap;
  }

  lemma Associative(a: seq<Char>, b: seq<Char>, c: seq<Char>)
    ensures a + (b + c) == a + b + c
  {}

  /** The rest of a gap, behind its first element. */
  ghost predicate IsRest(s: Source, i: nat, j: nat, gap: seq<Element>) {
    j <= |s.buf| && Chars(s.buf, i, j) == Some(GapText(gap)) && IsGap(gap, i == 0 && s.hashbang, j == |s.buf|)
  }

  /** The first element of a gap stands complete at its start. */
  lemma GapSplits(s: Source, i: nat, j: nat, gap: seq<Element>) returns (k: nat)
    requires IsRest(s, i, j, gap) && gap != []
    ensures IsComplete(s, i, gap[0], k) && i < k && IsRest(s, k, j, gap[1..])
  {
    RestIsGap(gap, i == 0 && s.hashbang, j == |s.buf|);
    RestText(gap);
    k := CharsApart(s.buf, i, j, ElementText(gap[0]), GapText(gap[1..]));
    ElementIsNotEmpty(s.buf, i, gap[0], k);
    if RunsToLineEnd(gap[0]) {
      if |gap| > 1 {
        RestIsGap(gap[1..], false, j == |s.buf|);
        RestText(gap[1..]);
        assert gap[1..][0] == gap[1];
        FirstChar(s.buf, k, j);
      } else {
        assert gap[1..] == [];
        NotEmpty(s.buf, k, j);
        CharsBounds(s.buf, k, j);
      }
    }
  }

  lemma ElementIsNotEmpty(buf: seq<byte>, i: nat, e: Element, k: nat)
    requires Chars(buf, i, k) == Some(ElementText(e))
    ensures i < k
  {
    CharsBounds(buf, i, k);
    assert ElementText(e) != [];
  }

  /** No gap goes on here. */
  ghost predicate IsStop(s: Source, i: nat) {
    forall e, k :: !IsComplete(s, i, e, k)
  }

  /** There is only one gap from a place to where no gap goes on. */
  lemma {:induction false} GapIsUnique(s: Source, i: nat, j: nat, gap: seq<Element>, j': nat, gap': seq<Element>)
    requires IsRest(s, i, j, gap) && IsRest(s, i, j', gap') && IsStop(s, j) && IsStop(s, j')
    ensures j == j' && gap == gap'
    decreases |gap|
  {
    EmptyGapStays(s, i, j, gap);
    EmptyGapStays(s, i, j', gap');
    if gap != [] && gap' != [] {
      var k := GapSplits(s, i, j, gap);
      var k' := GapSplits(s, i, j', gap');
      ElementIsUnique(s, i, gap[0], k, gap'[0], k');
      GapIsUnique(s, k, j, gap[1..], j', gap'[1..]);
      assert gap == [gap[0]] + gap[1..] && gap' == [gap'[0]] + gap'[1..];
    } else {
      FirstElement(s, i, j, gap);
      FirstElement(s, i, j', gap');
    }
  }

  lemma EmptyGapStays(s: Source, i: nat, j: nat, gap: seq<Element>)
    requires IsRest(s, i, j, gap)
    ensures gap == [] ==> i == j
  {
    if gap == [] {
      NotEmpty(s.buf, i, j);
      CharsBounds(s.buf, i, j);
    }
  }

  lemma FirstElement(s: Source, i: nat, j: nat, gap: seq<Element>)
    requires IsRest(s, i, j, gap)
    ensures gap != [] ==> !IsStop(s, i)
  {
    if gap != [] {
      var k := GapSplits(s, i, j, gap);
    }
  }

  // ----- Where gaps stop -----

  /** Nothing that starts a word is white space or a line end. This is so of the Unicode property ID_Start. */
  ghost predicate IsSane(props: Properties) {
    forall cp | props.IsIdStartUnicode(cp) :: !IsUnicodeWhitespace(cp) && cp != 0x2028 && cp != 0x2029
  }

  lemma TokenStops(s: Source, i: nat)
    requires IsSane(s.props) && StartsToken(s, i)
    ensures IsStop(s, i)
  {
    forall e, k
      ensures !IsComplete(s, i, e, k)
    {
      if IsComplete(s, i, e, k) {
        ElementStarts(s, i, e, k);
        OneByte(s.buf, i);
        assert false;
      }
    }
  }

  /** A line comment that is complete has no malformed character. */
  lemma CompleteLine(s: Source, i: nat, text: seq<Char>, k: nat, error: LexError)
    requires Chars(s.buf, i, k) == Some(text) && !HasNewline(text) && LineStops(s, k) && k <= |s.buf|
    ensures !LineFails(s.buf, i, error)
  {
    forall j: nat, before
      ensures !(BadCharAfter(s.buf, i, j, before) && !HasNewline(before))
    {
      if BadCharAfter(s.buf, i, j, before) {
        if j < k {
          CharsGoOn(s.buf, i, j, k);
        } else if k < j {
          LineCommentEnds(s, i, text, k, before, j);
        }
      }
    }
  }

  /** A block comment that is complete has an end, and no malformed character before it. */
  lemma CompleteBlock(buf: seq<byte>, i: nat, text: seq<Char>, k: nat, error: LexError)
    requires Chars(buf, i, k) == Some(text + [Ascii('*'), Ascii('/')]) && k <= |buf|
    ensures !BlockFails(buf, i, error)
  {
    forall j: nat, before
      ensures !(BadCharAfter(buf, i, j, before) && !HasCommentEnd(before))
    {
      if BadCharAfter(buf, i, j, before) {
        if j < k {
          CharsGoOn(buf, i, j, k);
        } else {
          EndIsInside(buf, i, text, k, j, before);
        }
      }
    }
    forall before
      ensures !(Chars(buf, i, |buf|) == Some(before) && !HasCommentEnd(before))
    {
      if Chars(buf, i, |buf|) == Some(before) {
        EndIsInside(buf, i, text, k, |buf|, before);
      }
    }
  }

  lemma EndIsInside(buf: seq<byte>, i: nat, text: seq<Char>, k: nat, j: nat, before: seq<Char>)
    requires Chars(buf, i, k) == Some(text + [Ascii('*'), Ascii('/')]) && Chars(buf, i, j) == Some(before) && k <= j
    ensures HasCommentEnd(before)
  {
    CharsSplit(buf, i, k, j);
    var n := |text|;
    assert before[n + 1 - 1] == Ascii('*') && before[n + 1] == Ascii('/');
  }

  lemma GapFailureStops(s: Source, i: nat, error: LexError)
    requires GapFails(s, i, error)
    ensures IsStop(s, i)
  {
    forall e, k
      ensures !IsComplete(s, i, e, k)
    {
      if IsComplete(s, i, e, k) {
        CompleteSucceeds(s, i, e, k, error);
        assert false;
      }
    }
  }

  lemma CompleteSucceeds(s: Source, i: nat, e: Element, k: nat, error: LexError)
    requires IsComplete(s, i, e, k)
    ensures !GapFails(s, i, error)
  {
    if e.Space? || e.LineEnd? {
      SpaceSucceeds(s, i, e, k, error);
    } else {
      CommentSucceeds(s, i, e, k, error);
    }
  }

  lemma SpaceSucceeds(s: Source, i: nat, e: Element, k: nat, error: LexError)
    requires IsComplete(s, i, e, k) && (e.Space? || e.LineEnd?)
    ensures !GapFails(s, i, error)
  {
    ElementStarts(s, i, e, k);
    OneByte(s.buf, i);
    assert At(s.buf, i) != '/' as int && At(s.buf, i) != '#' as int;
  }

  lemma CommentSucceeds(s: Source, i: nat, e: Element, k: nat, error: LexError)
    requires IsComplete(s, i, e, k) && !e.Space? && !e.LineEnd?
    ensures !GapFails(s, i, error)
  {
    CommentParts(s, i, e, k);
    CommentIsAscii(s, i, e, k, error);
    if e.BlockComment? {
      CompleteBlock(s.buf, i + 2, e.text, k, error);
      BlockOnly(s, i, error);
    } else {
      CompleteLine(s, i + 2, e.text, k, error);
      LineOnly(s, i, error);
    }
  }

  lemma CommentIsAscii(s: Source, i: nat, e: Element, k: nat, error: LexError)
    requires IsComplete(s, i, e, k) && !e.Space? && !e.LineEnd?
    ensures !NonAsciiFails(s, i, error) && (e.BlockComment? ==> At(s.buf, i) == '/' as int)
  {
    ElementStarts(s, i, e, k);
  }

  lemma BlockOnly(s: Source, i: nat, error: LexError)
    requires At(s.buf, i) == '/' as int && At(s.buf, i + 1) == '*' as int
    ensures CommentFails(s, i, error) <==> BlockFails(s.buf, i + 2, error)
  {}

  lemma LineOnly(s: Source, i: nat, error: LexError)
    requires At(s.buf, i + 1) != '*' as int
    ensures CommentFails(s, i, error) ==> LineFails(s.buf, i + 2, error)
  {}

  // ----- Tokens -----

  /** Tokens that mean the same: the value of a literal counts by its code points. */
  ghost predicate IsSame(a: Token, b: Token) {
    match a
    case StringLiteral(value) => b.StringLiteral? && CodePoints(value) == CodePoints(b.value)
    case Template(part) =>
      && b.Template? && part.raw == b.part.raw && part.isTail == b.part.isTail && part.cooked.Some? == b.part.cooked.Some?
      && (part.cooked.Some? ==> CodePoints(part.cooked.value) == CodePoints(b.part.cooked.value))
    case _ => a == b
  }

  /** There is only one token at a place. */
  lemma TokenIsUnique(s: Source, a: Span, b: Span)
    requires IsToken(s, a) && IsToken(s, b) && a.start == b.start
    ensures a.end == b.end && IsSame(a.token, b.token)
  {
    if a.token.Punctuator? {
      LongestIsUnique(a.token.spelling, b.token.spelling, s.buf, a.start);
    }
  }

  lemma LongestIsUnique(p: Spelling, q: Spelling, buf: seq<byte>, i: nat)
    requires IsLongest(p, buf, i) && IsLongest(q, buf, i)
    ensures p == q
  {
    assert Length(p) == Length(q);
  }

  /**
   Directly behind a number there is no word, unless it starts with an escape, and no other number, unless it
   starts with its point.
   */
  lemma NumbersStandApart(s: Source, a: Span, b: Span)
    requires IsToken(s, a) && IsToken(s, b) && a.token.Number? && b.start == a.end
    ensures b.token.Word? ==> At(s.buf, b.start) == '\\' as int
    ensures b.token.Number? ==> At(s.buf, b.start) == '.' as int
  {
    assert FollowError(s.buf, a.end, s.props).None?;
  }

  /** Where there is a token, nothing fails. */
  lemma TokenSucceeds(s: Source, span: Span, why: Outcome<()>)
    requires IsToken(s, span)
    ensures !CannotGoOn(s, span.start, why)
  {
    if why.Err? {
      TokenIsNoGap(s, span.start, why.error);
    }
  }

  lemma TokenIsNoGap(s: Source, i: nat, error: LexError)
    requires StartsToken(s, i)
    ensures !GapFails(s, i, error)
  {}

  // ----- The whole source -----

  lemma CannotGoOnStops(s: Source, i: nat, why: Outcome<()>)
    requires IsSane(s.props) && CannotGoOn(s, i, why)
    ensures IsStop(s, i)
  {
    if StartsToken(s, i) {
      TokenStops(s, i);
    } else {
      GapFailureStops(s, i, why.error);
    }
  }

  /** A gap with an empty start is a rest. */
  lemma GapIsRest(s: Source, i: nat, j: nat, gap: seq<Element>)
    requires IsGapAt(s, i, j, gap)
    ensures IsRest(s, i, j, gap)
  {
    GapMeaning(s.buf, i, j, gap, i == 0 && s.hashbang, j == |s.buf|);
  }

  lemma {:induction false} ToldPrefix(s: Source, spans: seq<Span>, gaps: seq<seq<Element>>, n: nat)
    requires AllTold(s, spans, gaps) && n <= |spans|
    ensures AllTold(s, spans[..n], gaps[..n])
    decreases |spans|
  {
    if n == |spans| {
      assert spans[..n] == spans && gaps[..n] == gaps;
    } else {
      var m := |spans| - 1;
      ToldPrefix(s, spans[..m], gaps[..m], n);
      assert spans[..m][..n] == spans[..n] && gaps[..m][..n] == gaps[..n];
    }
  }

  /** The n-th token of a telling and the gap before it. */
  lemma ToldAt(s: Source, spans: seq<Span>, gaps: seq<seq<Element>>, n: nat)
    requires AllTold(s, spans, gaps) && n < |spans|
    ensures IsToken(s, spans[n]) && IsGapAt(s, EndOf(spans[..n]), spans[n].start, gaps[n])
  {
    ToldPrefix(s, spans, gaps, n + 1);
    assert spans[..n + 1][..n] == spans[..n] && spans[..n + 1][n] == spans[n] && gaps[..n + 1][n] == gaps[n];
  }

  /** The same place, and the same token. */
  ghost predicate IsSameSpan(a: Span, b: Span) {
    a.start == b.start && a.end == b.end && IsSame(a.token, b.token)
  }

  /** Two tellings agree in their first n tokens and the gaps before them. */
  ghost predicate Agree(a: seq<Span>, gaps: seq<seq<Element>>, b: seq<Span>, gaps': seq<seq<Element>>, n: nat)
    requires n <= |a| == |gaps| && n <= |b| == |gaps'|
  {
    n == 0 || (Agree(a, gaps, b, gaps', n - 1) && gaps[n - 1] == gaps'[n - 1] && IsSameSpan(a[n - 1], b[n - 1]))
  }

  lemma ToldAgree(s: Source, a: seq<Span>, gaps: seq<seq<Element>>, b: seq<Span>, gaps': seq<seq<Element>>, n: nat)
    requires IsSane(s.props) && AllTold(s, a, gaps) && AllTold(s, b, gaps') && n <= |a| && n <= |b|
    ensures Agree(a, gaps, b, gaps', n)
  {
    forall m | 0 <= m < n
      ensures AgreesIf(a, gaps, b, gaps', m)
    {
      if EndOf(a[..m]) == EndOf(b[..m]) {
        AgreeAt(s, a, gaps, b, gaps', m);
      }
    }
    StepByStep(a, gaps, b, gaps', n);
  }

  /** Behind the same end the next tokens agree. */
  ghost predicate AgreesIf(a: seq<Span>, gaps: seq<seq<Element>>, b: seq<Span>, gaps': seq<seq<Element>>, m: nat)
    requires m < |a| == |gaps| && m < |b| == |gaps'|
  {
    EndOf(a[..m]) == EndOf(b[..m]) ==> gaps[m] == gaps'[m] && IsSameSpan(a[m], b[m])
  }

  lemma {:induction false} StepByStep(a: seq<Span>, gaps: seq<seq<Element>>, b: seq<Span>, gaps': seq<seq<Element>>, n: nat)
    requires n <= |a| == |gaps| && n <= |b| == |gaps'| && forall m | 0 <= m < n :: AgreesIf(a, gaps, b, gaps', m)
    ensures Agree(a, gaps, b, gaps', n)
  {
    if n > 0 {
      StepByStep(a, gaps, b, gaps', n - 1);
      SameEnd(a, gaps, b, gaps', n - 1);
      assert AgreesIf(a, gaps, b, gaps', n - 1);
    }
  }

  lemma AgreeAt(s: Source, a: seq<Span>, gaps: seq<seq<Element>>, b: seq<Span>, gaps': seq<seq<Element>>, n: nat)
    requires IsSane(s.props) && AllTold(s, a, gaps) && AllTold(s, b, gaps') && n < |a| && n < |b| && EndOf(a[..n]) == EndOf(b[..n])
    ensures gaps[n] == gaps'[n] && IsSameSpan(a[n], b[n])
  {
    ToldAt(s, a, gaps, n);
    ToldAt(s, b, gaps', n);
    NextAgrees(s, EndOf(a[..n]), a[n], gaps[n], b[n], gaps'[n]);
  }

  lemma SameEnd(a: seq<Span>, gaps: seq<seq<Element>>, b: seq<Span>, gaps': seq<seq<Element>>, n: nat)
    requires n <= |a| == |gaps| && n <= |b| == |gaps'| && Agree(a, gaps, b, gaps', n)
    ensures EndOf(a[..n]) == EndOf(b[..n])
  {
    if n > 0 {
      assert a[..n][n - 1] == a[n - 1] && b[..n][n - 1] == b[n - 1];
    }
  }

  lemma NextAgrees(s: Source, from: nat, a: Span, gap: seq<Element>, b: Span, gap': seq<Element>)
    requires IsSane(s.props) && IsToken(s, a) && IsToken(s, b) && IsGapAt(s, from, a.start, gap) && IsGapAt(s, from, b.start, gap')
    ensures gap == gap' && IsSameSpan(a, b)
  {
    GapIsRest(s, from, a.start, gap);
    GapIsRest(s, from, b.start, gap');
    TokenStops(s, a.start);
    TokenStops(s, b.start);
    GapIsUnique(s, from, a.start, gap, b.start, gap');
    TokenIsUnique(s, a, b);
  }

  /** A source has at most one telling. */
  lemma TellingIsUnique(s: Source, a: seq<Span>, gaps: seq<seq<Element>>, b: seq<Span>, gaps': seq<seq<Element>>)
    requires IsSane(s.props) && IsTelling(s, a, gaps) && IsTelling(s, b, gaps')
    ensures |a| == |b| && Agree(a, gaps, b, gaps', |a|)
  {
    var n := if |a| <= |b| then |a| else |b|;
    ToldAgree(s, a, gaps, b, gaps', n);
    LastAgrees(a, gaps, b, gaps', n);
  }

  lemma LastAgrees(a: seq<Span>, gaps: seq<seq<Element>>, b: seq<Span>, gaps': seq<seq<Element>>, n: nat)
    requires n <= |a| == |gaps| && n <= |b| == |gaps'| && Agree(a, gaps, b, gaps', n)
    ensures n > 0 ==> (a[n - 1].token.Eof? <==> b[n - 1].token.Eof?)
  {}

  /** Where a source cannot be read on, it has no telling. */
  lemma StuckHasNoTelling(s: Source, a: seq<Span>, gaps: seq<seq<Element>>, gap: seq<Element>, at: nat, why: Outcome<()>,
                          b: seq<Span>, gaps': seq<seq<Element>>)
    requires IsSane(s.props) && IsStuck(s, a, gaps, gap, at, why)
    ensures !IsTelling(s, b, gaps')
  {
    if IsTelling(s, b, gaps') {
      StuckIsLast(s, a, gaps, gap, at, why, b, gaps');
      ToldAgree(s, a, gaps, b, gaps', |b|);
      LastAgrees(a, gaps, b, gaps', |b|);
      assert false;
    }
  }

  /** Nothing is told beyond the place where a source cannot be read on. */
  lemma StuckIsLast(s: Source, a: seq<Span>, gaps: seq<seq<Element>>, gap: seq<Element>, at: nat, why: Outcome<()>,
                    b: seq<Span>, gaps': seq<seq<Element>>)
    requires IsSane(s.props) && IsStuck(s, a, gaps, gap, at, why) && AllTold(s, b, gaps')
    ensures |b| <= |a|
  {
    if |a| < |b| {
      var n := |a|;
      ToldAgree(s, a, gaps, b, gaps', n);
      SameEnd(a, gaps, b, gaps', n);
      ToldAt(s, b, gaps', n);
      assert a[..n] == a;
      StuckIsNoToken(s, EndOf(a), gap, at, why, b[n], gaps'[n]);
      assert false;
    }
  }

  /** A source cannot be read on in at most one place, and for one reason. */
  lemma StuckIsUnique(s: Source, a: seq<Span>, gaps: seq<seq<Element>>, gap: seq<Element>, at: nat, why: Outcome<()>,
                      b: seq<Span>, gaps': seq<seq<Element>>, gap': seq<Element>, at': nat, why': Outcome<()>)
    requires IsSane(s.props) && IsStuck(s, a, gaps, gap, at, why) && IsStuck(s, b, gaps', gap', at', why')
    ensures |a| == |b| && Agree(a, gaps, b, gaps', |a|)
    ensures gap == gap' && at == at' && why == why'
  {
    StuckIsLast(s, a, gaps, gap, at, why, b, gaps');
    StuckIsLast(s, b, gaps', gap', at', why', a, gaps);
    var n := |a|;
    ToldAgree(s, a, gaps, b, gaps', n);
    SameEnd(a, gaps, b, gaps', n);
    assert a[..n] == a && b[..n] == b;
    StuckAgrees(s, EndOf(a), gap, at, why, gap', at', why');
  }

  lemma StuckAgrees(s: Source, from: nat, gap: seq<Element>, at: nat, why: Outcome<()>, gap': seq<Element>, at': nat, why': Outcome<()>)
    requires IsSane(s.props) && IsGapAt(s, from, at, gap) && CannotGoOn(s, at, why)
    requires IsGapAt(s, from, at', gap') && CannotGoOn(s, at', why')
    ensures gap == gap' && at == at' && why == why'
  {
    GapIsRest(s, from, at, gap);
    GapIsRest(s, from, at', gap');
    CannotGoOnStops(s, at, why);
    CannotGoOnStops(s, at', why');
    GapIsUnique(s, from, at, gap, at', gap');
    ReasonIsUnique(s, at, why, why');
  }

  lemma ReasonIsUnique(s: Source, i: nat, why: Outcome<()>, why': Outcome<()>)
    requires CannotGoOn(s, i, why) && CannotGoOn(s, i, why')
    ensures why == why'
  {
    if !StartsToken(s, i) {
      GapErrorIsUnique(s, i, why.error, why'.error);
    } else {
      if why.Err? {
        TokenIsNoGap(s, i, why.error);
      }
      if why'.Err? {
        TokenIsNoGap(s, i, why'.error);
      }
    }
  }

  lemma GapErrorIsUnique(s: Source, i: nat, a: LexError, b: LexError)
    requires GapFails(s, i, a) && GapFails(s, i, b)
    ensures a == b
  {
    if At(s.buf, i) == '/' as int && At(s.buf, i + 1) == '*' as int {
      BlockErrorIsUnique(s.buf, i + 2, a, b);
    }
  }

  /** A block comment without an end has no malformed character. */
  lemma BlockErrorIsUnique(buf: seq<byte>, i: nat, a: LexError, b: LexError)
    requires BlockFails(buf, i, a) && BlockFails(buf, i, b)
    ensures a == b
  {
    if Chars(buf, i, |buf|).Some? {
      forall j: nat, text
        ensures !BadCharAfter(buf, i, j, text)
      {
        if BadCharAfter(buf, i, j, text) {
          CharsGoOn(buf, i, j, |buf|);
        }
      }
    }
  }

  lemma StuckIsNoToken(s: Source, from: nat, gap: seq<Element>, at: nat, why: Outcome<()>, span: Span, gap': seq<Element>)
    requires IsSane(s.props) && IsGapAt(s, from, at, gap) && CannotGoOn(s, at, why)
    ensures !(IsToken(s, span) && IsGapAt(s, from, span.start, gap'))
  {
    if IsToken(s, span) && IsGapAt(s, from, span.start, gap') {
      GapIsRest(s, from, at, gap);
      GapIsRest(s, from, span.start, gap');
      TokenStops(s, span.start);
      CannotGoOnStops(s, at, why);
      GapIsUnique(s, from, at, gap, span.start, gap');
      TokenSucceeds(s, span, why);
      assert false;
    }
  }

  ghost predicate HasTelling(s: Source) {
    exists spans, gaps :: IsTelling(s, spans, gaps)
  }

  lemma NoTellingIfStuck(s: Source, a: seq<Span>, gaps: seq<seq<Element>>, gap: seq<Element>, at: nat, why: Outcome<()>)
    requires IsSane(s.props) && IsStuck(s, a, gaps, gap, at, why)
    ensures !HasTelling(s)
  {
    forall b, gaps'
      ensures !IsTelling(s, b, gaps')
    {
      StuckHasNoTelling(s, a, gaps, gap, at, why, b, gaps');
    }
  }

  /** The source " " is told, and " @" cannot be read on behind the space. */
  lemma Examples(space: Source, at: Source)
    requires space.buf == [0x20] && at.buf == [0x20, '@' as int]
    ensures IsTelling(space, [Span(Eof, 1, 1)], [[Space(Char(0x20, 1))]])
    ensures IsStuck(at, [], [], [Space(Char(0x20, 1))], 1, Err(UnknownToken))
  {
    var gap := [Space(Char(0x20, 1))];
    OneSpace(space, 0, gap);
    OneSpace(at, 0, gap);
    var spans, gaps: seq<seq<Element>> := [Span(Eof, 1, 1)], [gap];
    assert spans[..0] == [] && gaps[..0] == [] && AllTold(space, [], []);
    assert IsToken(space, spans[0]);
    assert AllTold(space, spans, gaps);
  }

  lemma OneSpace(s: Source, i: nat, gap: seq<Element>)
    requires i < |s.buf| && s.buf[i] == 0x20 && gap == [Space(Char(s.buf[i], 1))]
    ensures IsGapAt(s, i, i + 1, gap)
  {
    CharAtAscii(s.buf, i);
    assert Chars(s.buf, i + 1, i + 1) == Some([]);
    assert Chars(s.buf, i, i + 1) == Some([Char(s.buf[i], 1)] + []);
    var before := gap[..|gap| - 1];
    assert before == [] && GapText(before) == [] && IsGap(before, i == 0 && s.hashbang, false);
    assert Chars(s.buf, i, i + 1).value == GapText(gap);
    assert IsGap(gap, i == 0 && s.hashbang, i + 1 == |s.buf|);
  }
}
