/**
 The lexer (`parser/lexer.rs`): a cursor over bytes that skips what stands between tokens and reads
 tokens. A panic is an outcome of its own. Keywords are not told from other words, and the positions in
 errors are left out.
 */
module Lexer {
  import opened Wrappers
  import opened Bits
  import opened Wtf8
  import opened Characters
  import opened Literals
  import opened Numerals
  import opened Punctuators
  import opened Words
  import opened Tokens
  import opened Telling

  datatype SavedLexerState = SavedLexerState(current: nat, pos: nat)

  /** Where skipping ended: before a token, or behind its first character, which is not ASCII. */
  datatype Found = AtToken | AfterChar(start: nat, cp: nat)

  class Lexer {
    const buf: seq<byte>
    const props: Properties
    var current: nat
    var pos: nat
    var isNewLineBeforeCurrent: bool
    var inStrictMode: bool
    var allowHashbangComment: bool

    ghost predicate Valid()
      reads this
    {
      pos <= |buf| && current == At(buf, pos)
    }

    /** The source, and how it is read. */
    ghost function Text(): Source
      reads `inStrictMode, `allowHashbangComment
    {
      Source(buf, inStrictMode, allowHashbangComment, props)
    }

    constructor (buf: seq<byte>, props: Properties)
      ensures Valid() && this.buf == buf && pos == 0 && allowHashbangComment
    {
      this.buf := buf;
      this.props := props;
      current := if buf == [] then EOF_CHAR else buf[0];
      pos := 0;
      isNewLineBeforeCurrent := false;
      inStrictMode := false;
      allowHashbangComment := true;
    }

    // ----- The cursor -----

    function Save(): SavedLexerState
      reads this
    {
      SavedLexerState(current, pos)
    }

    method Restore(saved: SavedLexerState)
      modifies `pos, `current
      ensures pos == saved.pos && current == saved.current
    {
      current := saved.current;
      pos := saved.pos;
    }

    method AdvanceN(n: nat)
      modifies `pos, `current
      ensures Valid() && pos == if old(pos) + n < |buf| then old(pos) + n else |buf|
    {
      pos := pos + n;
      if pos < |buf| {
        current := buf[pos];
      } else {
        current := EOF_CHAR;
        pos := |buf|;
      }
    }

    method Advance()
      modifies `pos, `current
      ensures Valid() && pos == if old(pos) < |buf| then old(pos) + 1 else |buf|
    {
      AdvanceN(1);
    }

    function PeekN(n: nat): (c: nat)
      reads this
      ensures c == At(buf, pos + n)
    {
      var next := pos + n;
      if next < |buf| then buf[next] else EOF_CHAR
    }

    method Eat(c: char) returns (eaten: bool)
      requires Valid()
      modifies `pos, `current
      ensures Valid() && eaten == (At(buf, old(pos)) == c as int)
      ensures pos == if eaten then old(pos) + 1 else old(pos)
    {
      eaten := current == c as int;
      if eaten {
        Advance();
      }
    }

    /** Reads a character that is not ASCII. Panics at the end of the source. */
    method LexUtf8CodePoint() returns (r: Outcome<nat>)
      requires Valid()
      modifies `pos, `current
      ensures Valid()
      ensures old(pos) == |buf| ==> r.Panicked? && pos == old(pos)
      ensures old(pos) < |buf| ==>
                var d := Decode(buf[old(pos)..]);
                && pos == old(pos) + d.length
                && r == (if d.CodePoint? then Ok(d.value) else Err(InvalidUnicode))
    {
      if pos == |buf| {
        return Panicked;
      }
      match Decode(buf[pos..])
      case CodePoint(cp, length) =>
        AdvanceN(length);
        r := Ok(cp);
      case Invalid(length) =>
        AdvanceN(length);
        r := Err(InvalidUnicode);
    }

    method LexAsciiOrUnicodeCharacter() returns (r: Outcome<nat>)
      requires Valid()
      modifies `pos, `current
      ensures Valid() && pos >= old(pos)
      ensures r == if old(pos) == |buf| then Panicked
                   else if CharAt(buf, old(pos)).None? then Err(InvalidUnicode)
                   else Ok(CharAt(buf, old(pos)).value.cp)
      ensures r.Ok? ==> pos == old(pos) + CharAt(buf, old(pos)).value.length
    {
      CharAtDecodes(buf, pos);
      if current < 0x80 {
        r := Ok(current);
        Advance();
      } else {
        r := LexUtf8CodePoint();
      }
    }

    // ----- Between tokens -----

    /** The rest of a line comment and the line end after it, if any. */
    method SkipLineComment() returns (r: Outcome<()>, ghost text: seq<Char>, ghost end: Option<Char>)
      requires Valid()
      modifies `pos, `current, `isNewLineBeforeCurrent
      ensures Valid() && pos >= old(pos) && !HasNewline(text) && !r.Panicked?
      ensures r.Ok? && end.Some? ==>
                && IsNewline(end.value) && pos >= end.value.length && Chars(buf, pos - end.value.length, pos) == Some([end.value])
                && Chars(buf, old(pos), pos - end.value.length) == Some(text) && isNewLineBeforeCurrent
      ensures r.Ok? && end.None? ==>
                pos == |buf| && Chars(buf, old(pos), pos) == Some(text) && isNewLineBeforeCurrent == old(isNewLineBeforeCurrent)
      ensures r.Err? ==> LineFails(buf, old(pos), r.error)
    {
      text, end := [], None;
      while true
        invariant Valid() && pos >= old(pos) && !HasNewline(text)
        invariant Chars(buf, old(pos), pos) == Some(text) && isNewLineBeforeCurrent == old(isNewLineBeforeCurrent)
        decreases |buf| - pos
      {
        if current == EOF_CHAR {
          return Ok(()), text, None;
        }
        ghost var c := CharAt(buf, pos);
        CharAtDecodes(buf, pos);
        if c.Some? {
          CharsNext(buf, old(pos), pos);
          CharsOne(buf, pos);
          HasNewlineNext(text, c.value);
        }
        if current == 0x0A || current == 0x0D {
          Advance();
          isNewLineBeforeCurrent := true;
          return Ok(()), text, c;
        } else if current < 0x80 {
          Advance();
        } else {
          ghost var at := pos;
          var cp := LexUtf8CodePoint();
          if cp.Err? {
            assert BadCharAfter(buf, old(pos), at, text);
            return Err(cp.error), text, None;
          }
          if cp.value == 0x2028 || cp.value == 0x2029 {
            isNewLineBeforeCurrent := true;
            return Ok(()), text, c;
          }
        }
        text := text + [c.value];
      }
    }

    /** The rest of a block comment. */
    method SkipBlockComment() returns (r: Outcome<()>, ghost text: seq<Char>)
      requires Valid()
      modifies `pos, `current, `isNewLineBeforeCurrent
      ensures Valid() && pos >= old(pos) && !r.Panicked?
      ensures r.Ok? ==>
                && !HasCommentEnd(text) && Chars(buf, old(pos), pos) == Some(text + [Ascii('*'), Ascii('/')])
                && isNewLineBeforeCurrent == (old(isNewLineBeforeCurrent) || HasNewline(text))
      ensures r.Err? ==> BlockFails(buf, old(pos), r.error)
    {
      text := [];
      while true
        invariant Valid() && pos >= old(pos) && Chars(buf, old(pos), pos) == Some(text)
        invariant !HasCommentEnd(text) && (text != [] && text[|text| - 1] == Ascii('*') ==> current != '/' as int)
        invariant isNewLineBeforeCurrent == (old(isNewLineBeforeCurrent) || HasNewline(text))
        decreases |buf| - pos
      {
        if current == EOF_CHAR {
          return Err(UnterminatedComment), text;
        }
        ghost var c := CharAt(buf, pos);
        CharAtDecodes(buf, pos);
        if c.Some? {
          CharsNext(buf, old(pos), pos);
          HasNewlineNext(text, c.value);
          CommentGoesOn(text, c.value);
        }
        if current == '*' as int {
          var next := PeekN(1);
          if next == '/' as int {
            CommentCloses(buf, old(pos), pos, text);
            AdvanceN(2);
            return Ok(()), text;
          } else if next == EOF_CHAR {
            assert pos + 1 == |buf| && Chars(buf, old(pos), pos + 1) == Some(text + [c.value]);
            return Err(UnterminatedComment), text;
          }
        }
        ghost var at := pos;
        var ok := SkipCommentChar();
        if ok.Err? {
          assert BadCharAfter(buf, old(pos), at, text);
          return ok, text;
        }
        text := text + [c.value];
      }
    }

    /** One character of a block comment. */
    method SkipCommentChar() returns (r: Outcome<()>)
      requires Valid() && pos < |buf|
      modifies `pos, `current, `isNewLineBeforeCurrent
      ensures Valid() && pos > old(pos)
      ensures r == if CharAt(buf, old(pos)).Some? then Ok(()) else Err(InvalidUnicode)
      ensures r.Ok? ==>
                && pos == old(pos) + CharAt(buf, old(pos)).value.length
                && isNewLineBeforeCurrent == (old(isNewLineBeforeCurrent) || IsNewline(CharAt(buf, old(pos)).value))
    {
      CharAtDecodes(buf, pos);
      if current == 0x0A || current == 0x0D {
        Advance();
        isNewLineBeforeCurrent := true;
      } else if current < 0x80 {
        Advance();
      } else {
        var cp := LexUtf8CodePoint();
        if cp.Err? {
          return Err(cp.error);
        }
        if cp.value == 0x2028 || cp.value == 0x2029 {
          isNewLineBeforeCurrent := true;
        }
      }
      r := Ok(());
    }

    /** ASCII white space and line ends. */
    method SkipAsciiWhitespace(ghost start: nat, ghost before: seq<Element>, ghost hashbang: bool) returns (ghost gap: seq<Element>)
      requires Valid() && start <= pos && GapNewline(buf, start, pos, before, hashbang, pos == |buf|) == Some(isNewLineBeforeCurrent)
      modifies `pos, `current, `isNewLineBeforeCurrent
      ensures Valid() && pos >= old(pos) && GapNewline(buf, start, pos, gap, hashbang, pos == |buf|) == Some(isNewLineBeforeCurrent)
      ensures current < 0x80 ==> !IsWhitespace(Char(current, 1)) && !IsNewline(Char(current, 1))
      ensures old(pos) == pos ==> gap == before
    {
      gap := before;
      while current < 0x80 && (IsWhitespace(Char(current, 1)) || IsNewline(Char(current, 1)))
        invariant Valid() && pos >= old(pos) && GapNewline(buf, start, pos, gap, hashbang, pos == |buf|) == Some(isNewLineBeforeCurrent)
        invariant old(pos) == pos ==> gap == before
        decreases |buf| - pos
      {
        gap := SkipSpace(start, gap, hashbang);
      }
    }

    /** One white space or line end. */
    method SkipSpace(ghost start: nat, ghost before: seq<Element>, ghost hashbang: bool) returns (ghost gap: seq<Element>)
      requires Valid() && start <= pos && GapNewline(buf, start, pos, before, hashbang, pos == |buf|) == Some(isNewLineBeforeCurrent)
      requires current < 0x80 && (IsWhitespace(Char(current, 1)) || IsNewline(Char(current, 1)))
      modifies `pos, `current, `isNewLineBeforeCurrent
      ensures Valid() && pos == old(pos) + 1
      ensures GapNewline(buf, start, pos, gap, hashbang, pos == |buf|) == Some(isNewLineBeforeCurrent)
    {
      gap := SpaceSkipped(buf, start, pos, before, hashbang, isNewLineBeforeCurrent);
      if current == 0x0A || current == 0x0D {
        isNewLineBeforeCurrent := true;
      }
      Advance();
    }

    /** A line comment or hashbang comment at the cursor, whose first two characters are known. */
    method SkipLine(ghost start: nat, ghost before: seq<Element>, ghost hashbang: bool) returns (r: Outcome<()>, ghost gap: seq<Element>)
      requires Valid() && start <= pos && GapNewline(buf, start, pos, before, hashbang, pos == |buf|) == Some(isNewLineBeforeCurrent)
      requires (current == '/' as int && At(buf, pos + 1) == '/' as int)
            || (current == '#' as int && At(buf, pos + 1) == '!' as int && before == [] && hashbang)
      modifies `pos, `current, `isNewLineBeforeCurrent
      ensures Valid() && pos > old(pos) && !r.Panicked?
      ensures r.Ok? ==> GapNewline(buf, start, pos, gap, hashbang, pos == |buf|) == Some(isNewLineBeforeCurrent)
      ensures r.Err? ==> gap == before && LineFails(buf, old(pos) + 2, r.error)
    {
      ghost var isHashbang, from := current == '#' as int, pos;
      assert from < |buf|;
      AdvanceN(2);
      ghost var text, end;
      r, text, end := SkipLineComment();
      gap := before;
      if r.Ok? {
        gap := LineSkipped(buf, start, from, before, hashbang, isHashbang, text, end, pos);
      }
    }

    /** A block comment at the cursor. */
    method SkipBlock(ghost start: nat, ghost before: seq<Element>, ghost hashbang: bool) returns (r: Outcome<()>, ghost gap: seq<Element>)
      requires Valid() && start <= pos && GapNewline(buf, start, pos, before, hashbang, pos == |buf|) == Some(isNewLineBeforeCurrent)
      requires current == '/' as int && At(buf, pos + 1) == '*' as int
      modifies `pos, `current, `isNewLineBeforeCurrent
      ensures Valid() && pos > old(pos) && !r.Panicked?
      ensures r.Ok? ==> GapNewline(buf, start, pos, gap, hashbang, pos == |buf|) == Some(isNewLineBeforeCurrent)
      ensures r.Err? ==> gap == before && BlockFails(buf, old(pos) + 2, r.error)
    {
      ghost var from := pos;
      assert from < |buf|;
      AdvanceN(2);
      ghost var text;
      r, text := SkipBlockComment();
      gap := before;
      if r.Ok? {
        gap := BlockSkipped(buf, start, from, before, hashbang, text, pos);
      }
    }

    /** Any comment at the cursor; false if there is none. */
    method SkipComment(ghost start: nat, ghost before: seq<Element>, ghost hashbang: bool) returns (r: Outcome<bool>, ghost gap: seq<Element>)
      requires Valid() && start <= pos && GapNewline(buf, start, pos, before, hashbang, pos == |buf|) == Some(isNewLineBeforeCurrent)
      requires hashbang == (start == 0 && allowHashbangComment)
      modifies `pos, `current, `isNewLineBeforeCurrent
      ensures Valid() && pos >= old(pos) && !r.Panicked?
      ensures r.Ok? ==> GapNewline(buf, start, pos, gap, hashbang, pos == |buf|) == Some(isNewLineBeforeCurrent) && (r.value ==> pos > old(pos))
      ensures r.Ok? && !r.value ==> pos == old(pos) && !StartsComment(buf, pos) && !StartsHashbang(Text(), pos)
      ensures r.Err? ==> gap == before && CommentFails(Text(), old(pos), r.error)
    {
      gap := before;
      var next, ok := PeekN(1), Ok(());
      if current == '/' as int && next == '/' as int {
        ok, gap := SkipLine(start, gap, hashbang);
      } else if current == '/' as int && next == '*' as int {
        ok, gap := SkipBlock(start, gap, hashbang);
      } else if current == '#' as int && pos == 0 && next == '!' as int && allowHashbangComment {
        EmptyGap(buf, gap);
        ok, gap := SkipLine(start, gap, hashbang);
      } else {
        return Ok(false), gap;
      }
      r := if ok.Ok? then Ok(true) else Err(ok.error);
    }

    /** Skips to the next token. The gap is what was skipped. */
    method SkipGap() returns (r: Outcome<Found>, ghost gap: seq<Element>, ghost at: nat)
      requires Valid()
      modifies `pos, `current, `isNewLineBeforeCurrent
      ensures Valid() && pos >= old(pos) && !r.Panicked? && old(pos) <= at <= |buf|
      ensures GapNewline(buf, old(pos), at, gap, old(pos) == 0 && allowHashbangComment, at == |buf|).Some?
      ensures r.Ok? ==>
                && at == (if r.value.AtToken? then pos else r.value.start)
                && GapNewline(buf, old(pos), at, gap, old(pos) == 0 && allowHashbangComment, at == |buf|) == Some(isNewLineBeforeCurrent)
      ensures r.Err? ==> GapFails(Text(), at, r.error)
      ensures r.Ok? && r.value.AtToken? ==> (current < 0x80 || current == EOF_CHAR) && StartsToken(Text(), pos)
      ensures r.Ok? && r.value.AfterChar? ==> IsLongChar(buf, r.value.start, r.value.cp, pos) && props.IsIdStartUnicode(r.value.cp)
    {
      isNewLineBeforeCurrent := false;
      gap, at := [], pos;
      ghost var hashbang := old(pos) == 0 && allowHashbangComment;
      while true
        invariant Valid() && pos >= old(pos) && GapNewline(buf, old(pos), pos, gap, hashbang, pos == |buf|) == Some(isNewLineBeforeCurrent)
        decreases |buf| - pos
      {
        gap := SkipAsciiWhitespace(old(pos), gap, hashbang);
        at := pos;
        var skipped;
        skipped, gap := SkipComment(old(pos), gap, hashbang);
        if skipped.Err? {
          return Err(skipped.error), gap, at;
        } else if !skipped.value {
          if current < 0x80 || current == EOF_CHAR {
            return Ok(AtToken), gap, at;
          }
          var stop;
          stop, gap := SkipNonAscii(old(pos), gap, hashbang);
          if stop.Err? {
            return Err(stop.error), gap, at;
          } else if stop.value.Some? {
            return Ok(stop.value.value), gap, at;
          }
        }
      }
    }

    /** A character that is not ASCII: the start of a token, or white space, or a line end. */
    method SkipNonAscii(ghost start: nat, ghost before: seq<Element>, ghost hashbang: bool)
      returns (r: Outcome<Option<Found>>, ghost gap: seq<Element>)
      requires Valid() && start <= pos < |buf| && current >= 0x80
      requires GapNewline(buf, start, pos, before, hashbang, pos == |buf|) == Some(isNewLineBeforeCurrent)
      modifies `pos, `current, `isNewLineBeforeCurrent
      ensures Valid() && pos > old(pos) && !r.Panicked?
      ensures r.Err? ==> gap == before && NonAsciiFails(Text(), old(pos), r.error)
      ensures r.Ok? && r.value.None? ==> GapNewline(buf, start, pos, gap, hashbang, pos == |buf|) == Some(isNewLineBeforeCurrent)
      ensures r.Ok? && r.value.Some? ==>
                && r.value.value.AfterChar? && r.value.value.start == old(pos) && gap == before
                && IsLongChar(buf, old(pos), r.value.value.cp, pos) && props.IsIdStartUnicode(r.value.value.cp)
                && isNewLineBeforeCurrent == old(isNewLineBeforeCurrent)
    {
      gap := before;
      var startPos := pos;
      CharAtDecodes(buf, pos);
      var cp := LexUtf8CodePoint();
      if cp.Err? {
        return Err(cp.error), gap;
      }
      ghost var c := Char(cp.value, pos - startPos);
      assert CharAt(buf, startPos) == Some(c) && c.length > 1;
      CharsOne(buf, startPos);
      if props.IsIdStartUnicode(cp.value) {
        r := Ok(Some(AfterChar(startPos, cp.value)));
      } else if IsUnicodeWhitespace(cp.value) {
        GapAnywhere(buf, start, startPos, gap, hashbang, false);
        GapGrows(buf, start, startPos, gap, hashbang, Space(c), pos, pos == |buf|);
        gap := gap + [Space(c)];
        r := Ok(None);
      } else if cp.value == 0x2028 || cp.value == 0x2029 {
        GapAnywhere(buf, start, startPos, gap, hashbang, true);
        GapGrows(buf, start, startPos, gap, hashbang, LineEnd(c), pos, pos == |buf|);
        gap := gap + [LineEnd(c)];
        isNewLineBeforeCurrent := true;
        r := Ok(None);
      } else {
        r := Err(UnknownToken);
      }
    }

    // ----- Escape sequences -----

    /** At most n hexadecimal digits. */
    method ScanHex(n: nat) returns (value: nat, count: nat)
      requires Valid()
      modifies `pos, `current
      ensures Valid() && count == DigitCount(buf, old(pos), 16, n) && pos == old(pos) + count
      ensures value == NumberValue(buf[old(pos)..pos], 16)
    {
      value, count := 0, 0;
      assert buf[pos..pos] == [];
      while count < n && IsDigit(current, 16)
        invariant Valid() && count <= n && pos == old(pos) + count
        invariant DigitCount(buf, old(pos), 16, n) == count + DigitCount(buf, pos, 16, n - count)
        invariant value == NumberValue(buf[old(pos)..pos], 16)
        decreases n - count
      {
        NumberValueNext(buf, old(pos), pos, 16);
        value := value * 16 + DigitValue(current, 16).value;
        Advance();
        count := count + 1;
      }
    }

    /** After \u. The cursor also moves over a malformed escape. */
    method LexUnicodeEscapeSequence() returns (r: Outcome<nat>)
      requires Valid()
      modifies `pos, `current
      ensures Valid()
      ensures var e := UnicodeEscape(buf, old(pos));
              pos == e.end && r == (if e.Escaped? then Ok(e.cps[0]) else Err(MalformedEscapeSequence))
    {
      var braces := Eat('{');
      if braces {
        r := LexBracedEscape();
      } else {
        var value, count := ScanHex(4);
        r := if count < 4 then Err(MalformedEscapeSequence) else Ok(value);
      }
    }

    /** After \u{. */
    method LexBracedEscape() returns (r: Outcome<nat>)
      requires Valid()
      modifies `pos, `current
      ensures Valid()
      ensures var e := BracedEscape(buf, old(pos));
              pos == e.end && r == (if e.Escaped? then Ok(e.cps[0]) else Err(MalformedEscapeSequence))
    {
      var value, count := ScanHex(6);
      var closed := Eat('}');
      r := if count == 0 || !closed || value > MAX_CODE_POINT then Err(MalformedEscapeSequence) else Ok(value);
    }

    /** After \x. */
    method LexHexEscape() returns (r: Outcome<nat>)
      requires Valid()
      modifies `pos, `current
      ensures Valid()
      ensures var e := HexEscape(buf, old(pos));
              pos == e.end && r == (if e.Escaped? then Ok(e.cps[0]) else Err(MalformedEscapeSequence))
    {
      if !IsDigit(current, 16) {
        return Err(MalformedEscapeSequence);
      }
      if !IsDigit(PeekN(1), 16) {
        Advance();
        return Err(MalformedEscapeSequence);
      }
      TwoDigits(buf, pos, 16);
      r := Ok(DigitValue(current, 16).value * 16 + DigitValue(PeekN(1), 16).value);
      AdvanceN(2);
    }

    /** A backslash and an octal digit. */
    method LexLegacyOctalEscape() returns (value: nat)
      requires Valid() && current == '\\' as int && IsDigit(At(buf, pos + 1), 8)
      modifies `pos, `current
      ensures Valid()
      ensures var n := OctalEscapeLength(buf, old(pos) + 1);
              pos == old(pos) + 1 + n && value == NumberValue(buf[old(pos) + 1..old(pos) + 1 + n], 8)
    {
      var first := PeekN(1);
      Advance();
      OctalEscapeValue(buf, pos);
      value := DigitValue(first, 8).value;
      Advance();
      if IsDigit(current, 8) {
        value := value * 8 + DigitValue(current, 8).value;
        Advance();
      }
      if first <= '3' as int && IsDigit(current, 8) {
        value := value * 8 + DigitValue(current, 8).value;
        Advance();
      }
    }

    /** An escape sequence in a string literal. */
    method LexStringEscape() returns (r: Outcome<seq<nat>>)
      requires Valid() && current == '\\' as int
      modifies `pos, `current
      ensures Valid() && pos >= old(pos)
      ensures var e := StringEscape(buf, old(pos), inStrictMode);
              && r == (if e.Ok? then Ok(e.value.cps) else if e.Err? then Err(e.error) else Panicked)
              && (e.Ok? ==> pos == e.value.end)
    {
      var c := PeekN(1);
      ghost var e := EscapeAt(buf, pos);
      if SingleEscape(c).Some? {
        AdvanceN(2);
        r := Ok([SingleEscape(c).value]);
      } else if IsDecimalDigit(c) {
        assert e == DigitEscape(buf, pos);
        r := LexDigitEscape();
      } else if c == 'x' as int || c == 'u' as int {
        var value := LexCodedEscape();
        r := if value.Ok? then Ok([value.value]) else Err(MalformedEscapeSequence);
      } else {
        assert e == OtherEscape(buf, pos);
        r := LexOtherEscape();
      }
    }

    /** A backslash and x or u. */
    method LexCodedEscape() returns (r: Outcome<nat>)
      requires Valid() && current == '\\' as int && (At(buf, pos + 1) == 'x' as int || At(buf, pos + 1) == 'u' as int)
      modifies `pos, `current
      ensures Valid()
      ensures var e := EscapeAt(buf, old(pos));
              && (e.Escaped? || e.Malformed?) && pos == e.end
              && (if e.Escaped? then e.cps == [e.cps[0]] && r == Ok(e.cps[0]) else r == Err(MalformedEscapeSequence))
    {
      ghost var e := EscapeAt(buf, pos);
      if PeekN(1) == 'x' as int {
        assert e == HexEscape(buf, pos + 2);
        AdvanceN(2);
        r := LexHexEscape();
      } else {
        assert e == UnicodeEscape(buf, pos + 2);
        AdvanceN(2);
        r := LexUnicodeEscapeSequence();
      }
    }

    /** A backslash and a decimal digit. */
    method LexDigitEscape() returns (r: Outcome<seq<nat>>)
      requires Valid() && current == '\\' as int && IsDecimalDigit(At(buf, pos + 1))
      modifies `pos, `current
      ensures Valid() && pos >= old(pos) && !r.Panicked?
      ensures var e := DigitEscape(buf, old(pos));
              && (e.Escaped? ==> r == Ok(e.cps) && pos == e.end)
              && (e.LegacyOctal? ==> if inStrictMode then r == Err(LegacyOctalEscapeInStrictMode) else r == Ok([e.cp]) && pos == e.end)
              && (e.LegacyNonOctal? ==>
                    if inStrictMode then r == Err(LegacyNonOctalEscapeInStrictMode) else r == Ok([e.cp]) && pos == old(pos) + 2)
    {
      var c := PeekN(1);
      if c == '0' as int && !IsDecimalDigit(PeekN(2)) {
        AdvanceN(2);
        r := Ok([0]);
      } else if IsDigit(c, 8) {
        var value := LexLegacyOctalEscape();
        r := if inStrictMode then Err(LegacyOctalEscapeInStrictMode) else Ok([value]);
      } else {
        AdvanceN(2);
        r := if inStrictMode then Err(LegacyNonOctalEscapeInStrictMode) else Ok([c]);
      }
    }

    /** A line continuation, or a character that stands for itself. */
    method LexOtherEscape() returns (r: Outcome<seq<nat>>)
      requires Valid() && current == '\\' as int
      modifies `pos, `current
      ensures Valid() && pos >= old(pos)
      ensures var e := OtherEscape(buf, old(pos));
              r == (if e.Escaped? then Ok(e.cps) else if e.BadCharacter? then Err(InvalidUnicode) else Panicked)
              && (e.Escaped? ==> pos == e.end)
    {
      var c := PeekN(1);
      CharAtDecodes(buf, pos + 1);
      if c == 0x0A {
        AdvanceN(2);
        r := Ok([]);
      } else if c == 0x0D {
        AdvanceN(2);
        var eaten := Eat('\n');
        r := Ok([]);
      } else if c < 0x80 {
        AdvanceN(2);
        r := Ok([c]);
      } else {
        Advance();
        var cp := LexUtf8CodePoint();
        r := if !cp.Ok? then if cp.Err? then Err(cp.error) else Panicked
             else if cp.value == 0x2028 || cp.value == 0x2029 then Ok([]) else Ok([cp.value]);
      }
    }

    // ----- String literals -----

    /** Returns a slice of the source if there is no escape in the literal. */
    method LexStringLiteral() returns (r: Outcome<seq<byte>>)
      requires Valid() && IsQuote(current)
      modifies `pos, `current
      ensures Valid() && pos > old(pos)
      ensures Spells(r, pos, StringValue(buf, old(pos) + 1, buf[old(pos)], inStrictMode, false))
    {
      var quote: byte := current;
      Advance();
      var start := pos;
      PlainString(buf, start, quote, inStrictMode);
      PlainEndStops(InString(quote), buf, start);
      var ok := SkipPlain(InString(quote));
      if !ok.Ok? {
        return Err(ok.error);
      }
      SliceCodePoints(buf, start, pos);
      ghost var cps := Cps(Chars(buf, start, pos).value);
      if current == quote {
        assert cps + [] == cps;
        r := Ok(buf[start..pos]);
        Advance();
      } else if current == '\\' as int {
        r := LexStringSlow(quote, buf[start..pos], cps);
      } else {
        r := Err(UnterminatedStringLiteral);
      }
    }

    /** The fast path: characters that stand for themselves. Panics at the end of the source in a template. */
    method SkipPlain(place: Place) returns (r: Outcome<()>)
      requires Valid()
      modifies `pos, `current
      ensures Valid() && pos >= old(pos)
      ensures var end := PlainEnd(place, buf, old(pos));
              && r == (if Stops(place, buf, end) then Ok(()) else if end == |buf| then Panicked else Err(InvalidUnicode))
              && (r.Ok? ==> pos == end)
    {
      while !Stops(place, buf, pos)
        invariant Valid() && pos >= old(pos) && PlainEnd(place, buf, pos) == PlainEnd(place, buf, old(pos))
        decreases |buf| - pos
      {
        var cp := LexAsciiOrUnicodeCharacter();
        if !cp.Ok? {
          return if cp.Err? then Err(cp.error) else Panicked;
        }
      }
      r := Ok(());
    }

    /** The rest of a string literal, from its first escape; the value is copied. */
    method LexStringSlow(quote: byte, prefix: seq<byte>, ghost before: seq<nat>) returns (r: Outcome<seq<byte>>)
      requires Valid() && current == '\\' as int && CodePoints(prefix) == Some(before)
      modifies `pos, `current
      ensures Valid() && pos >= old(pos)
      ensures Spells(r, pos, After(before, StringValue(buf, old(pos), quote, inStrictMode, false)))
    {
      var value := prefix;
      ghost var cps := before;
      ghost var all := After(before, StringValue(buf, pos, quote, inStrictMode, false));
      while current == '\\' as int || current != quote
        invariant Valid() && pos >= old(pos) && CodePoints(value) == Some(cps)
        invariant all == After(cps, StringValue(buf, pos, quote, inStrictMode, true))
        decreases |buf| - pos
      {
        if current != '\\' as int && (current == 0x0A || current == 0x0D || current == EOF_CHAR) {
          return Err(UnterminatedStringLiteral);
        }
        var piece := LexStringPiece(quote);
        if !piece.Ok? {
          return if piece.Err? then Err(piece.error) else Panicked;
        }
        CodePointsGrow(value, piece.value);
        AfterAfter(cps, piece.value, StringValue(buf, pos, quote, inStrictMode, true));
        value := value + EncodeAll(piece.value);
        cps := cps + piece.value;
      }
      assert cps + [] == cps;
      r := Ok(value);
      Advance();
    }

    /** An escape or a character to be copied. */
    method LexStringPiece(ghost quote: byte) returns (r: Outcome<seq<nat>>)
      requires Valid() && current != EOF_CHAR
      requires current == '\\' as int || (current != quote && current != 0x0A && current != 0x0D)
      modifies `pos, `current
      ensures Valid() && pos >= old(pos)
      ensures var all := StringValue(buf, old(pos), quote, inStrictMode, true);
              && (r.Ok? ==> InRange(r.value) && pos > old(pos) && all == After(r.value, StringValue(buf, pos, quote, inStrictMode, true)))
              && (r.Err? ==> all == Fails(r.error)) && (r.Panicked? ==> all == Panics)
    {
      if current == '\\' as int {
        r := LexStringEscape();
      } else {
        var cp := LexAsciiOrUnicodeCharacter();
        r := if cp.Ok? then Ok([cp.value]) else Err(cp.error);
        assert r.Ok? ==> r.value[0] == cp.value && (InRange(r.value) <==> cp.value <= MAX_CODE_POINT);
      }
      if r.Ok? && !InRange(r.value) {
        r := Panicked;
      }
    }

    // ----- Templates -----

    /** A part of a template, from behind its opening. Without escapes and CRs, its value and its raw text are the same slice. */
    method LexTemplateLiteral() returns (r: Outcome<TemplateToken>)
      requires Valid()
      modifies `pos, `current
      ensures Valid() && pos >= old(pos)
      ensures SpellsTemplate(r, pos, buf, old(pos), TemplateValue(buf, old(pos), false))
    {
      var rawStart := pos;
      PlainPart(buf, rawStart);
      PlainEndStops(InTemplate, buf, rawStart);
      PlainHasNoCr(InTemplate, buf, rawStart);
      var ok := SkipPlain(InTemplate);
      if !ok.Ok? {
        return if ok.Err? then Err(ok.error) else Panicked;
      }
      SliceCodePoints(buf, rawStart, pos);
      ghost var cps := Cps(Chars(buf, rawStart, pos).value);
      if current == '\\' as int || current == CR {
        r := LexTemplateSlow(rawStart, buf[rawStart..pos], cps);
      } else {
        assert cps + [] == cps;
        NothingToNormalize(buf[rawStart..pos]);
        var raw, isTail := buf[rawStart..pos], current == '`' as int;
        AdvanceN(if isTail then 1 else 2);
        r := Ok(TemplateToken(raw, Some(raw), isTail));
      }
    }

    /** The rest of a template part, from its first escape or CR; the value is copied. */
    method LexTemplateSlow(rawStart: nat, prefix: seq<byte>, ghost before: seq<nat>) returns (r: Outcome<TemplateToken>)
      requires Valid() && (current == '\\' as int || current == CR) && CodePoints(prefix) == Some(before)
      requires rawStart <= pos && CR !in buf[rawStart..pos]
      modifies `pos, `current
      ensures Valid() && pos >= old(pos)
      ensures SpellsTemplate(r, pos, buf, rawStart, PartAfter(before, false, TemplateValue(buf, old(pos), false)))
    {
      var value, hasCr, isMalformed := prefix, false, false;
      ghost var cps := before;
      ghost var all := PartAfter(before, false, TemplateValue(buf, pos, false));
      while !(current == '`' as int || (current == '$' as int && PeekN(1) == '{' as int))
        invariant Valid() && pos >= old(pos) && CodePoints(value) == Some(cps)
        invariant all == PartAfter(cps, isMalformed, TemplateValue(buf, pos, true))
        invariant hasCr <==> CR in buf[rawStart..pos]
        decreases |buf| - pos
      {
        ghost var from := pos;
        var piece, isCr := LexTemplatePiece();
        if !piece.Ok? {
          return if piece.Err? then Err(piece.error) else Panicked;
        }
        CodePointsGrow(value, piece.value.piece.cps);
        PartAfterAfter(cps, isMalformed, piece.value.piece.cps, piece.value.isMalformed, TemplateValue(buf, pos, true));
        CrInSlice(buf, rawStart, from, pos);
        value := value + EncodeAll(piece.value.piece.cps);
        cps := cps + piece.value.piece.cps;
        isMalformed := isMalformed || piece.value.isMalformed;
        hasCr := hasCr || isCr;
      }
      assert cps + [] == cps;
      var raw, isTail := buf[rawStart..pos], current == '`' as int;
      AdvanceN(if isTail then 1 else 2);
      if hasCr {
        raw := NormalizeRaw(raw);
      } else {
        NothingToNormalize(raw);
      }
      r := Ok(TemplateToken(raw, if isMalformed then None else Some(value), isTail));
    }

    /** An escape, a line end or a character to be copied; also says whether there was a CR. */
    method LexTemplatePiece() returns (r: Outcome<TemplatePiece>, isCr: bool)
      requires Valid() && !AtPartEnd(buf, pos)
      modifies `pos, `current
      ensures Valid() && pos >= old(pos)
      ensures var all := TemplateValue(buf, old(pos), true);
              && (r.Err? ==> all == PartFails(r.error)) && (r.Panicked? ==> all == PartPanics)
              && (r.Ok? ==>
                    && InRange(r.value.piece.cps) && pos > old(pos)
                    && all == PartAfter(r.value.piece.cps, r.value.isMalformed, TemplateValue(buf, pos, true))
                    && (isCr <==> CR in buf[old(pos)..pos]))
    {
      ghost var from := pos;
      isCr := current == CR;
      if current == '\\' as int {
        isCr := PeekN(1) == CR;
        r := LexTemplateEscape();
        if r.Ok? {
          EscapeHasNoCr(buf, from);
        }
      } else if current == CR {
        Advance();
        var eaten := Eat('\n');
        assert buf[from..pos][0] == CR;
        r := Ok(TemplatePiece(Piece([0x0A], pos), false));
      } else {
        if CharAt(buf, pos).Some? {
          CharHasNo(CR, buf, pos, pos + CharAt(buf, pos).value.length);
        }
        var cp := LexAsciiOrUnicodeCharacter();
        r := if cp.Ok? then Ok(TemplatePiece(Piece([cp.value], pos), false)) else if cp.Err? then Err(cp.error) else Panicked;
        assert r.Ok? ==> r.value.piece.cps[0] == cp.value && (InRange(r.value.piece.cps) <==> cp.value <= MAX_CODE_POINT);
      }
      if r.Ok? && !InRange(r.value.piece.cps) {
        r := Panicked;
      }
    }

    method LexTemplateEscape() returns (r: Outcome<TemplatePiece>)
      requires Valid() && current == '\\' as int
      modifies `pos, `current
      ensures Valid() && pos >= old(pos)
      ensures r == TemplateEscape(buf, old(pos)) && (r.Ok? ==> pos == r.value.piece.end)
    {
      var c := PeekN(1);
      var cps, isMalformed := [], false;
      if SingleEscape(c).Some? {
        AdvanceN(2);
        cps := [SingleEscape(c).value];
      } else if IsDecimalDigit(c) {
        isMalformed := !(c == '0' as int && !IsDecimalDigit(PeekN(2)));
        cps := if isMalformed then [] else [0];
        AdvanceN(2);
      } else if c == 'x' as int || c == 'u' as int {
        var value := LexCodedEscape();
        isMalformed := !value.Ok?;
        cps := if isMalformed then [] else [value.value];
      } else {
        var other := LexOtherEscape();
        if !other.Ok? {
          return if other.Err? then Err(other.error) else Panicked;
        }
        cps := other.value;
      }
      r := Ok(TemplatePiece(Piece(cps, pos), isMalformed));
    }

    // ----- Numbers -----

    /** Digits with separators between them, and their value in 64 bits, with whether it overflowed. */
    method ScanNumeral(base: nat) returns (error: Option<LexError>, value: nat, overflows: bool)
      requires Valid() && (base == 2 || base == 8 || base == 16)
      modifies `pos, `current
      ensures Valid() && pos >= old(pos)
      ensures var end := RunEnd(buf, old(pos), base, true);
              && error == NumeralError(buf[old(pos)..end], base)
              && (error.None? ==> pos == end && Represents(value, overflows, NumberValue(buf[old(pos)..end], base)))
    {
      ghost var start := pos;
      value, overflows := 0, false;
      if !IsDigit(current, base) {
        FirstIsNoDigit(buf, start, base);
        return Some(MalformedNumericLiteral), value, overflows;
      }
      assert buf[start..start] == [];
      NumberValueNext(buf, start, start, base);
      RunStarts(buf, start, base, true);
      value := DigitValue(current, base).value;
      Advance();
      error, value, overflows := ScanNumeralRest(base, value, start);
    }

    method ScanNumeralRest(base: nat, first: nat, ghost start: nat) returns (error: Option<LexError>, value: nat, overflows: bool)
      requires Valid() && (base == 2 || base == 8 || base == 16)
      requires RunSoFar(buf, start, pos, base, true, false) && first == NumberValue(buf[start..pos], base) < TWO_64
      modifies `pos, `current
      ensures Valid() && pos >= old(pos)
      ensures var end := RunEnd(buf, start, base, true);
              && error == NumeralError(buf[start..end], base)
              && (error.None? ==> pos == end && Represents(value, overflows, NumberValue(buf[start..end], base)))
    {
      value, overflows := first, false;
      var isLastSeparator := false;
      while IsDigit(current, base) || IsSeparator(current)
        invariant Valid() && pos >= old(pos) && RunSoFar(buf, start, pos, base, true, isLastSeparator)
        invariant Represents(value, overflows, NumberValue(buf[start..pos], base))
        decreases |buf| - pos
      {
        if isLastSeparator && IsSeparator(current) {
          AdjacentSeparators(buf, start, pos, base);
          return Some(AdjacentNumericSeparators), value, overflows;
        }
        RunGrows(buf, start, pos, base, true, isLastSeparator);
        isLastSeparator := IsSeparator(current);
        value, overflows := ScanDigit(base, value, overflows, start);
      }
      RunVerdict(buf, start, pos, base, true, isLastSeparator);
      error := if isLastSeparator then Some(TrailingNumericSeparator) else None;
    }

    /** A digit or a separator. */
    method ScanDigit(base: nat, value: nat, overflows: bool, ghost start: nat) returns (value': nat, overflows': bool)
      requires Valid() && (base == 2 || base == 8 || base == 16) && start <= pos
      requires (IsDigit(current, base) || IsSeparator(current)) && Represents(value, overflows, NumberValue(buf[start..pos], base))
      modifies `pos, `current
      ensures Valid() && pos == old(pos) + 1 && Represents(value', overflows', NumberValue(buf[start..pos], base))
    {
      value', overflows' := value, overflows;
      if IsSeparator(current) {
        SeparatorHasNoValue(buf, start, pos, base);
      } else {
        value', overflows' := AppendDigit(value, overflows, DigitValue(current, base).value, base, buf, start, pos);
      }
      Advance();
    }

    /** A number that overflows 64 bits is read again as a big integer. */
    method LexLiteralWithBase(base: nat) returns (r: Outcome<Numeral>)
      requires Valid() && pos + 2 <= |buf| && (base == 2 || base == 8 || base == 16)
      modifies `pos, `current
      ensures Valid() && pos >= old(pos)
      ensures Matches(r, pos, BasedLiteral(buf, old(pos), base))
    {
      AdvanceN(2);
      var start := pos;
      var error, value, overflows := ScanNumeral(base);
      if error.Some? {
        return Err(error.value);
      }
      var digits := buf[start..pos];
      if current == 'n' as int {
        Advance();
        return Ok(BigInt(digits, base));
      }
      r := Ok(Integer(if overflows then NumberValue(digits, base) else value));
    }

    /** Puts the cursor back if the literal turns out to be decimal. */
    method LexLegacyOctalLiteral() returns (r: Option<Numeral>)
      requires Valid()
      modifies `pos, `current
      ensures Valid()
      ensures var octal := LegacyOctalLiteral(buf, old(pos));
              if octal.Some? then r == Some(octal.value.numeral) && pos == octal.value.end
              else r.None? && pos == old(pos) && current == old(current)
    {
      var saved, start := Save(), pos;
      var value, overflows := 0, false;
      assert buf[start..pos] == [];
      while IsDigit(current, 8)
        invariant Valid() && start <= pos && RunEnd(buf, start, 8, false) == RunEnd(buf, pos, 8, false)
        invariant Represents(value, overflows, NumberValue(buf[start..pos], 8))
        decreases |buf| - pos
      {
        value, overflows := AppendDigit(value, overflows, DigitValue(current, 8).value, 8, buf, start, pos);
        Advance();
      }
      if current == '8' as int || current == '9' as int {
        Restore(saved);
        return None;
      }
      r := Some(Integer(if overflows then NumberValue(buf[start..pos], 8) else value));
    }

    /** Optional decimal digits; says whether there was a separator. */
    method SkipDecimalDigits(allowSeparator: bool) returns (r: Outcome<bool>)
      requires Valid()
      modifies `pos, `current
      ensures Valid() && pos >= old(pos)
      ensures Skipped(r, pos, buf, old(pos), DecimalDigits(buf, old(pos), allowSeparator))
    {
      ghost var start := pos;
      if !IsDecimalDigit(current) {
        return Ok(false);
      }
      RunStarts(buf, start, 10, allowSeparator);
      Advance();
      var hasSeparator, isLastSeparator := false, false;
      while IsDecimalDigit(current) || (IsSeparator(current) && allowSeparator)
        invariant Valid() && RunSoFar(buf, start, pos, 10, allowSeparator, isLastSeparator)
        invariant hasSeparator <==> '_' as int in buf[start..pos]
        decreases |buf| - pos
      {
        if isLastSeparator && IsSeparator(current) {
          AdjacentSeparators(buf, start, pos, 10);
          return Err(AdjacentNumericSeparators);
        }
        RunGrows(buf, start, pos, 10, allowSeparator, isLastSeparator);
        SeparatorNext(buf, start, pos);
        isLastSeparator := IsSeparator(current);
        hasSeparator := hasSeparator || isLastSeparator;
        Advance();
      }
      RunVerdict(buf, start, pos, 10, allowSeparator, isLastSeparator);
      r := if isLastSeparator then Err(TrailingNumericSeparator) else Ok(hasSeparator);
    }

    method LexDecimalLiteral() returns (r: Outcome<Numeral>)
      requires Valid()
      modifies `pos, `current
      ensures Valid() && pos >= old(pos)
      ensures Matches(r, pos, DecimalLiteral(buf, old(pos)))
    {
      var start := pos;
      var hasLeadingZero := current == '0' as int;
      var digits := SkipDecimalDigits(!hasLeadingZero);
      if !digits.Ok? {
        return if digits.Err? then Err(digits.error) else Panicked;
      }
      if current == 'n' as int {
        var text := buf[start..pos];
        Advance();
        return if hasLeadingZero && pos - 2 != start then Err(BigIntLeadingZero) else Ok(BigInt(text, 10));
      }
      ghost var middle := pos;
      var tail := LexDecimalTail(!hasLeadingZero);
      if !tail.Ok? {
        return if tail.Err? then Err(tail.error) else Panicked;
      }
      assert buf[start..pos] == buf[start..middle] + buf[middle..pos];
      var text := buf[start..pos];
      NoSeparators(text);
      r := Ok(Decimal(if digits.value || tail.value then WithoutSeparators(text) else text));
    }

    /** The fraction and the exponent; says whether there was a separator. */
    method LexDecimalTail(separators: bool) returns (r: Outcome<bool>)
      requires Valid()
      modifies `pos, `current
      ensures Valid() && pos >= old(pos)
      ensures Skipped(r, pos, buf, old(pos), DecimalTail(buf, old(pos), separators))
    {
      ghost var start := pos;
      var hasSeparator := false;
      if current == '.' as int {
        Advance();
        var fraction := SkipDecimalDigits(separators);
        if !fraction.Ok? {
          return fraction;
        }
        hasSeparator := fraction.value;
        assert buf[start..pos] == [buf[start]] + buf[start + 1..pos];
      } else {
        assert buf[start..pos] == [];
      }
      ghost var middle := pos;
      r := LexExponent(separators);
      if r.Ok? {
        assert buf[start..pos] == buf[start..middle] + buf[middle..pos];
        r := Ok(hasSeparator || r.value);
      }
    }

    method LexExponent(separators: bool) returns (r: Outcome<bool>)
      requires Valid()
      modifies `pos, `current
      ensures Valid() && pos >= old(pos)
      ensures Skipped(r, pos, buf, old(pos), ExponentPart(buf, old(pos), separators))
    {
      ghost var start := pos;
      if current != 'e' as int && current != 'E' as int {
        assert buf[start..pos] == [];
        return Ok(false);
      }
      Advance();
      if current == '-' as int || current == '+' as int {
        Advance();
      }
      if !IsDecimalDigit(current) {
        return Err(MalformedNumericLiteral);
      }
      ghost var k := pos;
      r := SkipDecimalDigits(separators);
      if r.Ok? {
        NoSeparatorFirst(buf, start, k, pos);
      }
    }

    /** A numeric literal, and the check of what follows it directly. */
    method LexNumber() returns (r: Outcome<Numeral>)
      requires Valid() && pos < |buf|
      modifies `pos, `current
      ensures Valid() && pos >= old(pos) && Matches(r, pos, NumberAt(Text(), old(pos)))
    {
      r := LexNumericLiteral();
      if r.Ok? {
        var ok := ErrorIfCannotFollowNumericLiteral();
        if ok.Err? {
          r := Err(ok.error);
        }
      }
    }

    method LexNumericLiteral() returns (r: Outcome<Numeral>)
      requires Valid() && pos < |buf|
      modifies `pos, `current
      ensures Valid() && pos >= old(pos)
      ensures Matches(r, pos, NumericLiteral(buf, old(pos), inStrictMode))
    {
      var next := PeekN(1);
      if current != '0' as int {
        r := LexDecimalLiteral();
      } else if next == 'b' as int || next == 'B' as int {
        r := LexLiteralWithBase(2);
      } else if next == 'o' as int || next == 'O' as int {
        r := LexLiteralWithBase(8);
      } else if next == 'x' as int || next == 'X' as int {
        r := LexLiteralWithBase(16);
      } else if IsDecimalDigit(next) && inStrictMode {
        Advance();
        r := Err(LegacyOctalLiteralInStrictMode);
      } else if IsDecimalDigit(next) {
        var octal := LexLegacyOctalLiteral();
        if octal.Some? {
          r := Ok(octal.value);
        } else {
          r := LexDecimalLiteral();
        }
      } else {
        r := LexDecimalLiteral();
      }
    }

    /** Looks at the next character without moving. */
    method ErrorIfCannotFollowNumericLiteral() returns (r: Outcome<()>)
      requires Valid()
      modifies `pos, `current
      ensures var error := FollowError(buf, old(pos), props); r == if error.Some? then Err(error.value) else Ok(())
      ensures Valid() && pos >= old(pos) && (r.Ok? ==> pos == old(pos))
    {
      var cannotFollow := false;
      CharAtDecodes(buf, pos);
      if current < 0x80 {
        cannotFollow := IsIdStartAscii(current) || IsDecimalDigit(current);
      } else if current != EOF_CHAR {
        var saved := Save();
        var cp := LexUtf8CodePoint();
        if !cp.Ok? {
          return Err(cp.error);
        }
        cannotFollow := props.IsIdStartUnicode(cp.value);
        Restore(saved);
      }
      r := if cannotFollow then Err(InvalidNumericLiteralNextChar) else Ok(());
    }

    // ----- Words -----

    /** The rest of a word in which there is a character or escape that is not ASCII. */
    method LexIdentifierNonAscii(spelled: seq<byte>, ghost prefix: seq<nat>, ghost from: nat) returns (r: Outcome<seq<byte>>)
      requires Valid() && from < pos && NamesWord(buf, spelled, prefix, from, pos, props)
      modifies `pos, `current
      ensures Valid() && pos >= old(pos) && Ends(r, pos, SlowEnd(buf, old(pos), props))
      ensures r.Ok? ==> NamesWord(buf, r.value, prefix, from, pos, props)
    {
      var name := spelled;
      while true
        invariant Valid() && pos >= old(pos) && NamesWord(buf, name, prefix, from, pos, props)
        invariant SlowEnd(buf, pos, props) == SlowEnd(buf, old(pos), props)
        decreases |buf| - pos
      {
        ghost var at := pos;
        var part := LexIdPart();
        if !part.Ok? {
          return Err(part.error);
        }
        if part.value.None? {
          return Ok(name);
        }
        WordGrows(buf, name, prefix, from, at, Char(part.value.value, pos - at), props);
        name := name + Encode(part.value.value);
      }
    }

    /** The next part of a word; None at its end. */
    method LexIdPart() returns (r: Outcome<Option<nat>>)
      requires Valid()
      modifies `pos, `current
      ensures Valid() && pos >= old(pos) && !r.Panicked?
      ensures r.Err? ==> SlowEnd(buf, old(pos), props) == Err(r.error)
      ensures r.Ok? && r.value.None? ==> pos == old(pos) && SlowEnd(buf, pos, props) == Ok(pos)
      ensures r.Ok? && r.value.Some? ==>
                && pos > old(pos) && WordPart(buf, old(pos)) == Some(Char(r.value.value, pos - old(pos)))
                && props.IsIdPart(r.value.value) && r.value.value <= MAX_CODE_POINT
                && SlowEnd(buf, old(pos), props) == SlowEnd(buf, pos, props)
    {
      CharAtDecodes(buf, pos);
      if IsIdPartAscii(current) {
        r := Ok(Some(current));
        Advance();
      } else if current == '\\' as int {
        var cp := LexIdentifierUnicodeEscapeSequence();
        r := if !cp.Ok? then Err(cp.error) else if props.IsIdPart(cp.value) then Ok(Some(cp.value)) else Err(UnknownToken);
      } else if current < 0x80 || current == EOF_CHAR {
        r := Ok(None);
      } else {
        var saved := Save();
        var cp := LexUtf8CodePoint();
        if !cp.Ok? {
          return Err(cp.error);
        }
        if !props.IsIdPartUnicode(cp.value) {
          Restore(saved);
          return Ok(None);
        }
        r := Ok(Some(cp.value));
      }
    }

    /** The fast path; falls back when a part that is not ASCII follows. The name starts at start, its parts at the cursor. */
    method LexIdentifierAscii(start: nat) returns (r: Outcome<seq<byte>>)
      requires Valid() && start <= pos && IsIdStartAscii(current) && AllAscii(buf[start..pos])
      modifies `pos, `current
      ensures Valid() && pos > old(pos) && Ends(r, pos, FastEnd(buf, old(pos), props))
      ensures r.Ok? ==> NamesWord(buf, r.value, buf[start..old(pos)], old(pos), pos, props)
    {
      ghost var from, prefix := pos, buf[start..pos];
      SkipIdAscii();
      AsciiWordName(buf, start, from, props);
      r := LexAfterAscii(buf[start..pos], prefix, from);
    }

    /** Behind the ASCII characters of a name: its end, or the slow path. */
    method LexAfterAscii(name: seq<byte>, ghost prefix: seq<nat>, ghost from: nat) returns (r: Outcome<seq<byte>>)
      requires Valid() && from < pos == AsciiEnd(buf, from) && NamesWord(buf, name, prefix, from, pos, props)
      modifies `pos, `current
      ensures Valid() && pos >= old(pos) && Ends(r, pos, FastEnd(buf, from, props))
      ensures r.Ok? ==> NamesWord(buf, r.value, prefix, from, pos, props)
    {
      if IsPlainAscii(current) {
        return Ok(name);
      }
      var saved := Save();
      var part := LexMaybeIdPart();
      if !part.Ok? {
        return Err(part.error);
      }
      if part.value.Some? {
        WordGrows(buf, name, prefix, from, saved.pos, Char(part.value.value, pos - saved.pos), props);
        r := LexIdentifierNonAscii(name + Encode(part.value.value), prefix, from);
      } else {
        Restore(saved);
        r := Ok(name);
      }
    }

    method SkipIdAscii()
      requires Valid() && IsIdStartAscii(current)
      modifies `pos, `current
      ensures Valid() && pos == AsciiEnd(buf, old(pos)) > old(pos)
    {
      Advance();
      while IsIdPartAscii(current)
        invariant Valid() && old(pos) < pos && AsciiEnd(buf, pos) == AsciiEnd(buf, old(pos))
        decreases |buf| - pos
      {
        Advance();
      }
    }

    /** A character or escape that may or may not belong to a word; None if it does not. */
    method LexMaybeIdPart() returns (r: Outcome<Option<nat>>)
      requires Valid() && (current == '\\' as int || (current >= 0x80 && current != EOF_CHAR))
      modifies `pos, `current
      ensures Valid() && pos >= old(pos)
      ensures var part := WordPart(buf, old(pos));
              if part.None? then r == Err(PartError(At(buf, old(pos))))
              else r == Ok(if props.IsIdPart(part.value.cp) then Some(part.value.cp) else None)
                   && pos == old(pos) + part.value.length && (r.value.Some? ==> r.value.value <= MAX_CODE_POINT)
    {
      CharAtDecodes(buf, pos);
      var cp;
      if current == '\\' as int {
        cp := LexIdentifierUnicodeEscapeSequence();
      } else {
        cp := LexUtf8CodePoint();
      }
      r := if !cp.Ok? then Err(cp.error) else Ok(if props.IsIdPart(cp.value) then Some(cp.value) else None);
    }

    /** A word whose first character, which has been read, is not ASCII or was escaped. */
    method LexWordFrom(spelled: seq<byte>, cp: nat, ghost prefix: seq<nat>, ghost from: nat) returns (r: Outcome<seq<byte>>)
      requires Valid() && from < pos && cp <= MAX_CODE_POINT && WordPart(buf, from) == Some(Char(cp, pos - from))
      requires InRange(prefix) && spelled == EncodeAll(prefix)
      modifies `pos, `current
      ensures Valid() && pos >= old(pos) && Ends(r, pos, SlowEnd(buf, old(pos), props))
      ensures r.Ok? ==> NamesWord(buf, r.value, prefix, from, pos, props)
    {
      NameStarts(buf, prefix, from, Char(cp, pos - from));
      r := LexIdentifierNonAscii(spelled + Encode(cp), prefix, from);
    }

    method LexIdentifierUnicodeEscapeSequence() returns (r: Outcome<nat>)
      requires Valid() && current == '\\' as int
      modifies `pos, `current
      ensures Valid() && pos > old(pos) && !r.Panicked?
      ensures r.Ok? ==> r.value <= MAX_CODE_POINT && WordPart(buf, old(pos)) == Some(Char(r.value, pos - old(pos)))
      ensures r.Err? ==> r.error == MalformedEscapeSequence && WordPart(buf, old(pos)).None?
    {
      ghost var from := pos;
      Advance();
      if current != 'u' as int {
        return Err(MalformedEscapeSequence);
      }
      Advance();
      assert pos == from + 2;
      r := LexUnicodeEscapeSequence();
      if r.Ok? {
        EscapedPart(buf, from, r.value, pos);
      } else {
        MalformedPart(buf, from);
      }
    }

    /** A word or private name, whose first part is at the cursor. */
    method LexName(start: nat) returns (r: Outcome<seq<byte>>)
      requires Valid() && start <= pos && AllAscii(buf[start..pos])
      requires start < pos || current == '\\' as int || IsIdStartAscii(current)
      modifies `pos, `current
      ensures Valid() && pos >= old(pos) && Ends(r, pos, NameEnd(buf, old(pos), start < old(pos), props))
      ensures r.Ok? ==> NamesWord(buf, r.value, buf[start..old(pos)], old(pos), pos, props)
    {
      if IsIdStartAscii(current) {
        r := LexIdentifierAscii(start);
      } else {
        ghost var from := pos;
        var spelled := buf[start..pos];
        EncodeAscii(spelled);
        var cp := LexFirstPart(spelled != []);
        if !cp.Ok? {
          return if cp.Err? then Err(cp.error) else Panicked;
        }
        r := LexWordFrom(spelled, cp.value, spelled, from);
      }
    }

    /** The first part of a name, which is not an ASCII letter. */
    method LexFirstPart(isPrivate: bool) returns (r: Outcome<nat>)
      requires Valid() && !IsIdStartAscii(current) && (isPrivate || current == '\\' as int)
      modifies `pos, `current
      ensures Valid() && pos >= old(pos)
      ensures r.Ok? ==>
                && pos > old(pos) && r.value <= MAX_CODE_POINT && WordPart(buf, old(pos)) == Some(Char(r.value, pos - old(pos)))
                && NameEnd(buf, old(pos), isPrivate, props) == SlowEnd(buf, pos, props)
      ensures r.Err? ==> NameEnd(buf, old(pos), isPrivate, props) == Err(r.error)
      ensures r.Panicked? ==> NameEnd(buf, old(pos), isPrivate, props).Panicked?
    {
      CharAtDecodes(buf, pos);
      if current == '\\' as int {
        r := LexIdentifierUnicodeEscapeSequence();
      } else {
        r := LexUtf8CodePoint();
      }
      if r.Ok? && !props.IsIdStart(r.value) {
        r := Err(if isPrivate then HashNotFollowedByIdentifier else UnknownToken);
      }
    }

    // ----- Tokens -----

    method LexPunctuator() returns (r: Option<Span>)
      requires Valid() && StartsToken(Text(), pos)
      modifies `pos, `current
      ensures Valid() && pos >= old(pos)
      ensures r.Some? ==> IsToken(Text(), r.value) && r.value.start == old(pos) && r.value.end == pos
      ensures r.None? ==> pos == old(pos) && KindAt(buf, pos) != PunctuatorKind
    {
      var start := pos;
      var choice := Choose(current, PeekN(1), PeekN(2), PeekN(3));
      ChoiceIsLongest(current, PeekN(1), PeekN(2), PeekN(3));
      if choice.None? {
        return None;
      }
      ComesNextFits(choice.value.spelling, buf, pos);
      AdvanceN(choice.value.length);
      r := Some(Span(Punctuator(choice.value.spelling), start, pos));
    }

    /** A token that starts with an ASCII character, or the end of the source. */
    method LexToken() returns (r: Outcome<Span>)
      requires Valid() && (current < 0x80 || current == EOF_CHAR) && StartsToken(Text(), pos)
      modifies `pos, `current
      ensures Valid() && pos >= old(pos) && IsRead(Text(), r, old(pos), pos)
    {
      var start := pos;
      var punctuator := LexPunctuator();
      if punctuator.Some? {
        r := Ok(punctuator.value);
      } else if current == EOF_CHAR {
        r := Ok(Span(Eof, start, pos));
      } else if IsDecimalDigit(current) || (current == '.' as int && IsDecimalDigit(PeekN(1))) {
        r := LexNumberToken();
      } else if IsQuote(current) {
        r := LexStringToken();
      } else if current == '`' as int {
        r := LexTemplateToken();
      } else if current == '#' as int {
        r := LexPrivateToken();
      } else if current == '\\' as int || IsIdStartAscii(current) {
        r := LexWordToken();
      } else {
        Advance();
        r := Err(UnknownToken);
      }
    }

    method LexNumberToken() returns (r: Outcome<Span>)
      requires Valid() && StartsToken(Text(), pos) && KindAt(buf, pos) == NumberKind
      modifies `pos, `current
      ensures Valid() && pos >= old(pos) && IsRead(Text(), r, old(pos), pos)
    {
      var start := pos;
      NumericLiteralMoves(buf, pos, inStrictMode);
      var number := LexNumber();
      r := if number.Ok? then Ok(Span(Number(number.value), start, pos)) else Err(number.error);
    }

    method LexStringToken() returns (r: Outcome<Span>)
      requires Valid() && StartsToken(Text(), pos) && KindAt(buf, pos) == StringKind
      modifies `pos, `current
      ensures Valid() && pos >= old(pos) && IsRead(Text(), r, old(pos), pos)
    {
      var start := pos;
      var value := LexStringLiteral();
      r := if value.Ok? then Ok(Span(StringLiteral(value.value), start, pos))
           else if value.Err? then Err(value.error) else Panicked;
    }

    method LexTemplateToken() returns (r: Outcome<Span>)
      requires Valid() && StartsToken(Text(), pos) && KindAt(buf, pos) == TemplateKind
      modifies `pos, `current
      ensures Valid() && pos >= old(pos) && IsRead(Text(), r, old(pos), pos)
    {
      var start := pos;
      Advance();
      var part := LexTemplateLiteral();
      r := if part.Ok? then Ok(Span(Template(part.value), start, pos))
           else if part.Err? then Err(part.error) else Panicked;
    }

    method LexWordToken() returns (r: Outcome<Span>)
      requires Valid() && StartsToken(Text(), pos) && current < 0x80 && KindAt(buf, pos) == WordKind
      modifies `pos, `current
      ensures Valid() && pos >= old(pos) && IsRead(Text(), r, old(pos), pos)
    {
      var start := pos;
      assert buf[start..pos] == [];
      var name := LexName(start);
      r := if name.Ok? then Ok(Span(Word(name.value), start, pos)) else Err(name.error);
      WordIsRead(Text(), start, name, pos);
    }

    method LexPrivateToken() returns (r: Outcome<Span>)
      requires Valid() && StartsToken(Text(), pos) && KindAt(buf, pos) == PrivateKind
      modifies `pos, `current
      ensures Valid() && pos >= old(pos) && IsRead(Text(), r, old(pos), pos)
    {
      var start := pos;
      Advance();
      assert buf[start..pos] == ['#' as int];
      var name := LexName(start);
      r := if name.Ok? then Ok(Span(PrivateWord(name.value), start, pos)) else if name.Err? then Err(name.error) else Panicked;
    }

    /** A word whose first character has been read and is not ASCII. */
    method LexUnicodeWord(start: nat, cp: nat) returns (r: Outcome<Span>)
      requires Valid() && IsLongChar(buf, start, cp, pos) && props.IsIdStartUnicode(cp)
      modifies `pos, `current
      ensures Valid() && pos >= old(pos) && IsRead(Text(), r, start, pos)
    {
      EncodeAscii([]);
      LongCharStarts(Text(), start, cp, pos);
      var name := LexWordFrom([], cp, [], start);
      r := if name.Ok? then Ok(Span(Word(name.value), start, pos)) else Err(name.error);
      WordIsRead(Text(), start, name, pos);
    }

    /** The next token; the gap is what stands before it, up to where the token starts or lexing fails. */
    method Next() returns (r: Outcome<Span>, ghost gap: seq<Element>, ghost at: nat)
      requires Valid()
      modifies `pos, `current, `isNewLineBeforeCurrent
      ensures Valid() && pos >= old(pos) && IsGapAt(Text(), old(pos), at, gap)
      ensures r.Ok? ==> GapNewline(buf, old(pos), at, gap, old(pos) == 0 && allowHashbangComment, at == |buf|) == Some(isNewLineBeforeCurrent)
      ensures IsRead(Text(), r, at, pos) || (r.Err? && GapFails(Text(), at, r.error))
    {
      var found;
      found, gap, at := SkipGap();
      if found.Err? {
        return Err(found.error), gap, at;
      }
      if found.value.AtToken? {
        r := LexToken();
      } else {
        r := LexUnicodeWord(found.value.start, found.value.cp);
      }
    }

    // ----- The whole source -----

    /** The lexer succeeds exactly on the sources that have a telling, which it then gives. */
    method LexSource() returns (spans: seq<Span>, stop: Outcome<()>, ghost gaps: seq<seq<Element>>)
      requires Valid() && pos == 0
      modifies `pos, `current, `isNewLineBeforeCurrent
      ensures stop.Ok? ==> IsTelling(Text(), spans, gaps)
      ensures IsSane(props) ==> (stop.Ok? <==> HasTelling(Text()))
    {
      var calls;
      ghost var gap, at;
      spans, stop, calls, gaps, gap, at := LexAll();
      if IsSane(props) && !stop.Ok? {
        NoTellingIfStuck(Text(), spans, gaps, gap, at, stop);
      }
    }

    /** All tokens, up to the end of the source or an error, in at most one call for each byte and one more. */
    method LexAll() returns (spans: seq<Span>, stop: Outcome<()>, calls: nat, ghost gaps: seq<seq<Element>>, ghost gap: seq<Element>, ghost at: nat)
      requires Valid() && pos == 0
      modifies `pos, `current, `isNewLineBeforeCurrent
      ensures calls <= |buf| + 1
      ensures !stop.Ok? || (IsTelling(Text(), spans, gaps) && Retold(buf, spans) == buf)
      ensures stop.Ok? || IsStuck(Text(), spans, gaps, gap, at, stop)
    {
      spans, gaps, calls, gap, at := [], [], 0, [], 0;
      while true
        invariant Valid() && |spans| == calls <= pos == EndOf(spans) && AllTold(Text(), spans, gaps) && Retold(buf, spans) == buf[..pos]
        invariant forall i | 0 <= i < |spans| :: !spans[i].token.Eof?
        decreases |buf| - pos
      {
        calls := calls + 1;
        var span;
        span, gap, at := NextTold(spans, gaps);
        if !span.Ok? {
          return spans, Stop(span), calls, gaps, gap, at;
        }
        spans, gaps := spans + [span.value], gaps + [gap];
        if span.value.token.Eof? {
          return spans, Ok(()), calls, gaps, gap, at;
        }
      }
    }

    method NextTold(ghost spans: seq<Span>, ghost gaps: seq<seq<Element>>) returns (r: Outcome<Span>, ghost gap: seq<Element>, ghost at: nat)
      requires Valid() && pos == EndOf(spans) && AllTold(Text(), spans, gaps) && Retold(buf, spans) == buf[..pos]
      requires forall i | 0 <= i < |spans| :: !spans[i].token.Eof?
      modifies `pos, `current, `isNewLineBeforeCurrent
      ensures Valid()
      ensures r.Ok? || IsStuck(Text(), spans, gaps, gap, at, Stop(r))
      ensures r.Ok? ==>
                && AllTold(Text(), spans + [r.value], gaps + [gap]) && Retold(buf, spans + [r.value]) == buf[..pos]
                && r.value.end == pos && (!r.value.token.Eof? ==> pos > old(pos))
      ensures !r.Ok? || !r.value.token.Eof? || (IsTelling(Text(), spans + [r.value], gaps + [gap]) && Retold(buf, spans + [r.value]) == buf)
    {
      r, gap, at := Next();
      if r.Ok? {
        TokensMove(Text(), r.value);
        ToldNext(Text(), spans, gaps, r.value, gap);
        RetoldNext(buf, spans, r.value);
      }
    }
  }

  lemma LongCharStarts(s: Source, i: nat, cp: nat, j: nat)
    requires IsLongChar(s.buf, i, cp, j) && s.props.IsIdStartUnicode(cp)
    ensures i < |s.buf| && StartsToken(s, i) && KindAt(s.buf, i) == WordKind && WordPart(s.buf, i) == Some(Char(cp, j - i))
    ensures NameEnd(s.buf, i, false, s.props) == SlowEnd(s.buf, j, s.props)
  {
    CharAtDecodes(s.buf, i);
  }

  /** A punctuator that comes next is inside the source. */
  lemma ComesNextFits(s: Spelling, buf: seq<byte>, i: nat)
    requires ComesNext(s, At(buf, i), At(buf, i + 1), At(buf, i + 2), At(buf, i + 3)) && IsPunctuator(s)
    ensures i + Length(s) <= |buf|
  {}

  /** A part of a decimal literal was skipped; the result says whether there is a separator in it. */
  ghost predicate Skipped(r: Outcome<bool>, pos: nat, buf: seq<byte>, start: nat, end: Outcome<nat>)
    requires end.Ok? ==> start <= end.value <= |buf|
  {
    match end
    case Ok(j) => pos == j && r == Ok('_' as int in buf[start..j])
    case Err(error) => r == Err(error)
    case Panicked => r.Panicked?
  }

  lemma {:induction false} NoSeparators(text: seq<byte>)
    ensures '_' as int !in text ==> WithoutSeparators(text) == text
  {
    if text != [] {
      NoSeparators(text[..|text| - 1]);
    }
  }

  lemma SeparatorNext(buf: seq<byte>, i: nat, j: nat)
    requires i <= j < |buf|
    ensures '_' as int in buf[i..j + 1] <==> '_' as int in buf[i..j] || IsSeparator(buf[j])
  {
    assert buf[i..j + 1] == buf[i..j] + [buf[j]];
  }

  lemma NoSeparatorFirst(buf: seq<byte>, i: nat, k: nat, j: nat)
    requires i < k <= i + 2 && k <= j <= |buf| && buf[i] != '_' as int && buf[k - 1] != '_' as int
    ensures '_' as int in buf[i..j] <==> '_' as int in buf[k..j]
  {
    assert buf[i..j] == buf[i..k] + buf[k..j];
    assert buf[i..k] == if k == i + 1 then [buf[i]] else [buf[i], buf[k - 1]];
  }

  lemma FirstIsNoDigit(buf: seq<byte>, i: nat, base: nat)
    requires i <= |buf| && !IsDigit(At(buf, i), base)
    ensures NumeralError(buf[i..RunEnd(buf, i, base, true)], base) == Some(MalformedNumericLiteral)
  {
    var text := buf[i..RunEnd(buf, i, base, true)];
    assert text != [] ==> text[0] == buf[i];
  }

  /** A character that is not ASCII. */
  ghost predicate IsLongChar(buf: seq<byte>, i: nat, cp: nat, j: nat) {
    i < j && At(buf, i) >= 0x80 && CharAt(buf, i) == Some(Char(cp, j - i))
  }

  lemma SpaceSkipped(buf: seq<byte>, start: nat, from: nat, gap: seq<Element>, hashbang: bool, newline: bool) returns (gap': seq<Element>)
    requires GapNewline(buf, start, from, gap, hashbang, from == |buf|) == Some(newline) && At(buf, from) < 0x80
    requires var c := Char(buf[from], 1); IsWhitespace(c) || IsNewline(c)
    ensures GapNewline(buf, start, from + 1, gap', hashbang, from + 1 == |buf|) == Some(newline || buf[from] == 0x0A || buf[from] == 0x0D)
  {
    var c := Char(buf[from], 1);
    var e := if IsNewline(c) then LineEnd(c) else Space(c);
    gap' := gap + [e];
    CharAtAscii(buf, from);
    CharsOne(buf, from);
    GapAnywhere(buf, start, from, gap, hashbang, e.LineEnd?);
    GapGrows(buf, start, from, gap, hashbang, e, from + 1, from + 1 == |buf|);
  }

  lemma LineSkipped(buf: seq<byte>, start: nat, from: nat, before: seq<Element>, hashbang: bool,
                    isHashbang: bool, text: seq<Char>, end: Option<Char>, k: nat) returns (gap: seq<Element>)
    requires GapNewline(buf, start, from, before, hashbang, false).Some? && !HasNewline(text)
    requires if isHashbang then At(buf, from) == '#' as int && At(buf, from + 1) == '!' as int && before == [] && hashbang
             else At(buf, from) == '/' as int && At(buf, from + 1) == '/' as int
    requires if end.Some? then IsNewline(end.value) && k >= end.value.length && Chars(buf, k - end.value.length, k) == Some([end.value])
             else k == |buf|
    requires Chars(buf, from + 2, if end.Some? then k - end.value.length else k) == Some(text)
    ensures GapNewline(buf, start, k, gap, hashbang, k == |buf|)
         == Some(GapNewline(buf, start, from, before, hashbang, false).value || end.Some?)
  {
    var opening := if isHashbang then [Ascii('#'), Ascii('!')] else [Ascii('/'), Ascii('/')];
    var e := if isHashbang then Hashbang(text) else LineComment(text);
    var m := if end.Some? then k - end.value.length else k;
    CharsTwo(buf, from, opening[0], opening[1]);
    CharsConcat(buf, from, from + 2, m);
    GapGrows(buf, start, from, before, hashbang, e, m, true);
    gap := before + [e];
    if end.Some? {
      GapGrows(buf, start, m, gap, hashbang, LineEnd(end.value), k, k == |buf|);
      gap := gap + [LineEnd(end.value)];
    }
  }

  lemma BlockSkipped(buf: seq<byte>, start: nat, from: nat, before: seq<Element>, hashbang: bool, text: seq<Char>, k: nat)
    returns (gap: seq<Element>)
    requires GapNewline(buf, start, from, before, hashbang, false).Some?
    requires At(buf, from) == '/' as int && At(buf, from + 1) == '*' as int
    requires !HasCommentEnd(text) && Chars(buf, from + 2, k) == Some(text + [Ascii('*'), Ascii('/')])
    ensures GapNewline(buf, start, k, gap, hashbang, k == |buf|)
         == Some(GapNewline(buf, start, from, before, hashbang, false).value || HasNewline(text))
  {
    var e := BlockComment(text);
    CharsTwo(buf, from, Ascii('/'), Ascii('*'));
    CharsConcat(buf, from, from + 2, k);
    assert [Ascii('/'), Ascii('*')] + (text + [Ascii('*'), Ascii('/')]) == ElementText(e);
    GapGrows(buf, start, from, before, hashbang, e, k, k == |buf|);
    gap := before + [e];
  }

  lemma CharsTwo(buf: seq<byte>, i: nat, a: Char, b: Char)
    requires At(buf, i) == a.cp < 0x80 && At(buf, i + 1) == b.cp < 0x80 && a.length == b.length == 1
    ensures Chars(buf, i, i + 2) == Some([a, b])
  {
    assert Chars(buf, i, i) == Some([]);
    CharsNextAscii(buf, i, i);
    CharsNextAscii(buf, i, i + 1);
    assert [] + [a] + [b] == [a, b];
  }

  lemma EmptyGap(buf: seq<byte>, gap: seq<Element>)
    requires Chars(buf, 0, 0) == Some(GapText(gap))
    ensures gap == []
  {
    assert forall e :: |ElementText(e)| > 0;
  }

  lemma OctalEscapeValue(buf: seq<byte>, i: nat)
    requires IsDigit(At(buf, i), 8)
    ensures var n, first := OctalEscapeLength(buf, i), DigitValue(At(buf, i), 8).value;
            NumberValue(buf[i..i + n], 8) ==
              if n == 1 then first
              else if n == 2 then first * 8 + DigitValue(At(buf, i + 1), 8).value
              else (first * 8 + DigitValue(At(buf, i + 1), 8).value) * 8 + DigitValue(At(buf, i + 2), 8).value
  {
    var n := OctalEscapeLength(buf, i);
    assert buf[i..i] == [];
    NumberValueNext(buf, i, i, 8);
    if n > 1 {
      NumberValueNext(buf, i, i + 1, 8);
    }
    if n > 2 {
      NumberValueNext(buf, i, i + 2, 8);
    }
  }

  lemma HasNewlineNext(text: seq<Char>, c: Char)
    ensures HasNewline(text + [c]) <==> HasNewline(text) || IsNewline(c)
  {
    HasNewlineConcat(text, [c]);
    assert c in [c];
  }

  lemma CommentGoesOn(text: seq<Char>, c: Char)
    requires !HasCommentEnd(text) && (text != [] && text[|text| - 1] == Ascii('*') ==> c != Ascii('/'))
    ensures !HasCommentEnd(text + [c])
  {
    var t := text + [c];
    assert forall i | 0 <= i < |text| :: t[i] == text[i];
  }

  lemma CommentCloses(buf: seq<byte>, i: nat, j: nat, text: seq<Char>)
    requires Chars(buf, i, j) == Some(text) && At(buf, j) == '*' as int && At(buf, j + 1) == '/' as int
    ensures Chars(buf, i, j + 2) == Some(text + [Ascii('*'), Ascii('/')])
  {
    CharsNextAscii(buf, i, j);
    CharsNextAscii(buf, i, j + 1);
    assert text + [Ascii('*')] + [Ascii('/')] == text + [Ascii('*'), Ascii('/')];
  }
}
