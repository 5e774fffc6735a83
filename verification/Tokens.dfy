/**
 What a source says: the tokens in it, the gaps before them, and where and why it cannot be read on.
 */
module Tokens {
  import opened Wrappers
  import opened Bits
  import opened Wtf8
  import opened Characters
  import opened Literals
  import opened Numerals
  import opened Punctuators
  import opened Words

  datatype TemplateToken = TemplateToken(raw: seq<byte>, cooked: Option<seq<byte>>, isTail: bool)

  datatype Token =
    | Eof
    | Punctuator(spelling: Spelling)
    | Number(numeral: Numeral)
    | StringLiteral(value: seq<byte>)
    | Template(part: TemplateToken)
    | Word(name: seq<byte>)
    | PrivateWord(name: seq<byte>)

  datatype Span = Span(token: Token, start: nat, end: nat)

  /** The bytes, and what else the lexer goes by. */
  datatype Source = Source(buf: seq<byte>, strict: bool, hashbang: bool, props: Properties)

  // ----- Values -----

  ghost predicate Matches(r: Outcome<Numeral>, pos: nat, literal: Outcome<Lexed>) {
    match literal
    case Ok(lexed) => r == Ok(lexed.numeral) && pos == lexed.end
    case Err(error) => r == Err(error)
    case Panicked => r.Panicked?
  }

  /** The outcome of lexing a string literal is what the literal means. */
  ghost predicate Spells(r: Outcome<seq<byte>>, pos: nat, literal: Literal) {
    match literal
    case Done(cps, end) => r.Ok? && pos == end && CodePoints(r.value) == Some(cps)
    case Fails(error) => r == Err(error)
    case Panics => r.Panicked?
  }

  /** The outcome of lexing a part of a template is what the part means; its raw text has its line ends normalized. */
  ghost predicate SpellsTemplate(r: Outcome<TemplateToken>, pos: nat, buf: seq<byte>, rawStart: nat, part: TemplatePart)
    requires part.Part? ==> rawStart <= part.rawEnd <= |buf|
  {
    match part
    case Part(cps, isMalformed, rawEnd, isTail) =>
      && r.Ok? && pos == rawEnd + (if isTail then 1 else 2) && r.value.isTail == isTail
      && r.value.raw == Normalized(buf[rawStart..rawEnd], CR, LF)
      && (if isMalformed then r.value.cooked.None? else r.value.cooked.Some? && CodePoints(r.value.cooked.value) == Some(cps))
    case PartFails(error) => r == Err(error)
    case PartPanics => r.Panicked?
  }

  /** What may not directly follow a numeric literal: the start of a word, a digit, or a malformed character. */
  function FollowError(buf: seq<byte>, i: nat, props: Properties): Option<LexError> {
    var c := At(buf, i);
    if c < 0x80 then if IsIdPartAscii(c) then Some(InvalidNumericLiteralNextChar) else None
    else if c == EOF_CHAR then None
    else
      match CharAt(buf, i)
      case None => Some(InvalidUnicode)
      case Some(ch) => if props.IsIdStartUnicode(ch.cp) then Some(InvalidNumericLiteralNextChar) else None
  }

  /** A numeric literal together with what follows it. */
  function NumberAt(s: Source, i: nat): Outcome<Lexed>
    requires i <= |s.buf|
  {
    var r := NumericLiteral(s.buf, i, s.strict);
    if r.Ok? && FollowError(s.buf, r.value.end, s.props).Some? then Err(FollowError(s.buf, r.value.end, s.props).value) else r
  }

  // ----- Tokens -----

  predicate StartsNumber(buf: seq<byte>, i: nat) {
    IsDecimalDigit(At(buf, i)) || (At(buf, i) == '.' as int && IsDecimalDigit(At(buf, i + 1)))
  }

  datatype Kind = PunctuatorKind | EofKind | NumberKind | StringKind | TemplateKind | PrivateKind | WordKind | NoKind

  /** The kind of a token is told by its first characters. */
  function KindAt(buf: seq<byte>, i: nat): Kind {
    var c := At(buf, i);
    if Choose(c, At(buf, i + 1), At(buf, i + 2), At(buf, i + 3)).Some? then PunctuatorKind
    else if c == EOF_CHAR then EofKind
    else if StartsNumber(buf, i) then NumberKind
    else if IsQuote(c) then StringKind
    else if c == '`' as int then TemplateKind
    else if c == '#' as int then PrivateKind
    else if c == '\\' as int || IsIdStartAscii(c) || c >= 0x80 then WordKind
    else NoKind
  }

  predicate StartsComment(buf: seq<byte>, i: nat) {
    At(buf, i) == '/' as int && (At(buf, i + 1) == '/' as int || At(buf, i + 1) == '*' as int)
  }

  predicate StartsHashbang(s: Source, i: nat) {
    i == 0 && s.hashbang && At(s.buf, i) == '#' as int && At(s.buf, i + 1) == '!' as int
  }

  /** No gap goes on here: the end of the source, an ASCII character that is no space and starts no comment, or the start of a word. */
  predicate StartsToken(s: Source, i: nat) {
    var c := At(s.buf, i);
    if c < 0x80 then
      !IsWhitespace(Char(c, 1)) && !IsNewline(Char(c, 1)) && !StartsComment(s.buf, i) && !StartsHashbang(s, i)
    else
      c == EOF_CHAR || (CharAt(s.buf, i).Some? && s.props.IsIdStartUnicode(CharAt(s.buf, i).value.cp))
  }

  /** The token is what stands at its place. */
  ghost predicate IsToken(s: Source, span: Span) {
    var Span(token, start, end) := span;
    && start <= end <= |s.buf| && StartsToken(s, start)
    && match token
       case Eof => KindAt(s.buf, start) == EofKind && end == start
       case Punctuator(p) => KindAt(s.buf, start) == PunctuatorKind && IsLongest(p, s.buf, start) && end == start + Length(p)
       case Number(numeral) => KindAt(s.buf, start) == NumberKind && NumberAt(s, start) == Ok(Lexed(numeral, end)) && start < end
       case StringLiteral(value) =>
         && KindAt(s.buf, start) == StringKind && start < |s.buf|
         && Spells(Ok(value), end, StringValue(s.buf, start + 1, s.buf[start], s.strict, false))
       case Template(part) =>
         KindAt(s.buf, start) == TemplateKind && SpellsTemplate(Ok(part), end, s.buf, start + 1, TemplateValue(s.buf, start + 1, false))
       case Word(name) =>
         && KindAt(s.buf, start) == WordKind && NameEnd(s.buf, start, false, s.props) == Ok(end)
         && NamesWord(s.buf, name, [], start, end, s.props)
       case PrivateWord(name) =>
         && KindAt(s.buf, start) == PrivateKind && start < |s.buf| && NameEnd(s.buf, start + 1, true, s.props) == Ok(end)
         && NamesWord(s.buf, name, ['#' as int], start + 1, end, s.props)
  }

  /** The token at i ends in this error: each kind of token has its own. */
  ghost predicate TokenFails(s: Source, i: nat, error: LexError) {
    && i < |s.buf| && StartsToken(s, i)
    && match KindAt(s.buf, i)
       case PunctuatorKind => false
       case EofKind => false
       case NumberKind => NumberAt(s, i) == Err(error)
       case StringKind => StringValue(s.buf, i + 1, s.buf[i], s.strict, false) == Fails(error)
       case TemplateKind => TemplateValue(s.buf, i + 1, false) == PartFails(error)
       case PrivateKind => NameEnd(s.buf, i + 1, true, s.props) == Err(error)
       case WordKind => NameEnd(s.buf, i, false, s.props) == Err(error)
       case NoKind => error == UnknownToken
  }

  /** The token at i panics: a string or template that does, or a # at the end of the source. */
  ghost predicate TokenPanics(s: Source, i: nat) {
    && i < |s.buf| && StartsToken(s, i)
    && match KindAt(s.buf, i)
       case StringKind => StringValue(s.buf, i + 1, s.buf[i], s.strict, false) == Panics
       case TemplateKind => TemplateValue(s.buf, i + 1, false) == PartPanics
       case PrivateKind => NameEnd(s.buf, i + 1, true, s.props).Panicked?
       case _ => false
  }

  /** What was read at i is the token there, or its error or panic. */
  ghost predicate IsRead(s: Source, r: Outcome<Span>, i: nat, j: nat) {
    match r
    case Ok(span) => IsToken(s, span) && span.start == i && span.end == j
    case Err(error) => TokenFails(s, i, error)
    case Panicked => TokenPanics(s, i)
  }

  /** A name was read up to its end, or failed or panicked as it does. */
  ghost predicate Ends(r: Outcome<seq<byte>>, pos: nat, end: Outcome<nat>) {
    match end
    case Ok(j) => r.Ok? && pos == j
    case Err(error) => r == Err(error)
    case Panicked => r.Panicked?
  }

  lemma WordIsRead(s: Source, i: nat, name: Outcome<seq<byte>>, j: nat)
    requires i < |s.buf| && j <= |s.buf| && StartsToken(s, i) && KindAt(s.buf, i) == WordKind && !name.Panicked?
    requires Ends(name, j, NameEnd(s.buf, i, false, s.props)) && (name.Ok? ==> NamesWord(s.buf, name.value, [], i, j, s.props))
    ensures IsRead(s, if name.Ok? then Ok(Span(Word(name.value), i, j)) else Err(name.error), i, j)
  {}

  /** Every token but the last is not empty. */
  lemma TokensMove(s: Source, span: Span)
    requires IsToken(s, span)
    ensures span.start < span.end || (span.token.Eof? && span.start == span.end == |s.buf|)
  {}

  // ----- Gaps that fail -----

  /** The first character that is malformed. */
  ghost predicate BadCharAfter(buf: seq<byte>, i: nat, j: nat, text: seq<Char>) {
    Chars(buf, i, j) == Some(text) && j < |buf| && CharAt(buf, j).None?
  }

  /** A line comment fails only on a malformed character before its end. */
  ghost predicate LineFails(buf: seq<byte>, i: nat, error: LexError) {
    error == InvalidUnicode && exists j, text :: BadCharAfter(buf, i, j, text) && !HasNewline(text)
  }

  /** A block comment fails on a malformed character before its end, or if it has no end. */
  ghost predicate BlockFails(buf: seq<byte>, i: nat, error: LexError) {
    || (error == InvalidUnicode && exists j, text :: BadCharAfter(buf, i, j, text) && !HasCommentEnd(text))
    || (error == UnterminatedComment && exists text :: Chars(buf, i, |buf|) == Some(text) && !HasCommentEnd(text))
  }

  ghost predicate CommentFails(s: Source, i: nat, error: LexError) {
    if At(s.buf, i) == '/' as int && At(s.buf, i + 1) == '*' as int then BlockFails(s.buf, i + 2, error)
    else
      && ((At(s.buf, i) == '/' as int && At(s.buf, i + 1) == '/' as int) || StartsHashbang(s, i))
      && LineFails(s.buf, i + 2, error)
  }

  /** A character that is not ASCII and belongs neither to a gap nor to a token. */
  ghost predicate NonAsciiFails(s: Source, i: nat, error: LexError) {
    && i < |s.buf| && s.buf[i] >= 0x80
    && match CharAt(s.buf, i)
       case None => error == InvalidUnicode
       case Some(c) => error == UnknownToken && !s.props.IsIdStartUnicode(c.cp) && !IsWhitespace(c) && !IsNewline(c)
  }

  /** A gap ends in an error on a comment or on a character that starts no token. */
  ghost predicate GapFails(s: Source, i: nat, error: LexError) {
    CommentFails(s, i, error) || NonAsciiFails(s, i, error)
  }

  // ----- The whole source -----

  /** Where the last token ends. */
  function EndOf(spans: seq<Span>): nat {
    if spans == [] then 0 else spans[|spans| - 1].end
  }

  /** buf[i..j] is a gap that can stand before a token. */
  ghost predicate IsGapAt(s: Source, i: nat, j: nat, gap: seq<Element>) {
    i <= j <= |s.buf| && GapNewline(s.buf, i, j, gap, i == 0 && s.hashbang, j == |s.buf|).Some?
  }

  /** The tokens are what stands in the source, and so are the gaps before them. */
  ghost predicate AllTold(s: Source, spans: seq<Span>, gaps: seq<seq<Element>>) {
    && |spans| == |gaps|
    && (spans == [] ||
        var n := |spans| - 1;
        && AllTold(s, spans[..n], gaps[..n])
        && IsToken(s, spans[n]) && IsGapAt(s, EndOf(spans[..n]), spans[n].start, gaps[n]))
  }

  /** The end of the source is told once, at the end. */
  ghost predicate IsTelling(s: Source, spans: seq<Span>, gaps: seq<seq<Element>>) {
    && AllTold(s, spans, gaps) && spans != [] && spans[|spans| - 1].token.Eof?
    && forall i | 0 <= i < |spans| - 1 :: !spans[i].token.Eof?
  }

  /** Behind some tokens and a gap the source cannot be read on, for the reason given. */
  ghost predicate IsStuck(s: Source, spans: seq<Span>, gaps: seq<seq<Element>>, gap: seq<Element>, at: nat, why: Outcome<()>) {
    && AllTold(s, spans, gaps) && (forall i | 0 <= i < |spans| :: !spans[i].token.Eof?)
    && IsGapAt(s, EndOf(spans), at, gap) && CannotGoOn(s, at, why)
  }

  ghost predicate CannotGoOn(s: Source, at: nat, why: Outcome<()>) {
    match why
    case Ok(_) => false
    case Err(error) => GapFails(s, at, error) || TokenFails(s, at, error)
    case Panicked => TokenPanics(s, at)
  }

  /** How lexing stops on the result of a call that is no token. */
  function Stop(r: Outcome<Span>): Outcome<()> {
    match r
    case Ok(_) => Ok(())
    case Err(error) => Err(error)
    case Panicked => Panicked
  }

  lemma ToldNext(s: Source, spans: seq<Span>, gaps: seq<seq<Element>>, span: Span, gap: seq<Element>)
    requires AllTold(s, spans, gaps) && IsToken(s, span) && IsGapAt(s, EndOf(spans), span.start, gap)
    ensures AllTold(s, spans + [span], gaps + [gap])
  {
    assert (spans + [span])[..|spans|] == spans && (gaps + [gap])[..|gaps|] == gaps;
  }

  /** The bytes before and in each token, one after the other. */
  ghost function Retold(buf: seq<byte>, spans: seq<Span>): seq<byte> {
    if spans == [] then []
    else
      var span, before := spans[|spans| - 1], spans[..|spans| - 1];
      Retold(buf, before) +
      (if EndOf(before) <= span.start <= span.end <= |buf| then buf[EndOf(before)..span.start] + buf[span.start..span.end] else [])
  }

  lemma RetoldNext(buf: seq<byte>, spans: seq<Span>, span: Span)
    requires EndOf(spans) <= span.start <= span.end <= |buf| && Retold(buf, spans) == buf[..EndOf(spans)]
    ensures Retold(buf, spans + [span]) == buf[..span.end]
  {
    assert (spans + [span])[..|spans|] == spans;
    SliceInThree(buf, EndOf(spans), span.start, span.end);
  }

  lemma SliceInThree(buf: seq<byte>, i: nat, j: nat, k: nat)
    requires i <= j <= k <= |buf|
    ensures buf[..i] + (buf[i..j] + buf[j..k]) == buf[..k]
  {}
}
