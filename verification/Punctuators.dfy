/** Punctuators (section 12.8 of ECMA-262) and the choice that the lexer makes between them. */
module Punctuators {
  import opened Wrappers
  import opened Bits
  import opened Characters

  /** A punctuator is named by its spelling. */
  datatype Spelling = One(a: char) | Two(a: char, b: char) | Three(a: char, b: char, c: char) | Four(a: char, b: char, c: char, d: char)

  function Length(s: Spelling): nat {
    match s
    case One(_) => 1
    case Two(_, _) => 2
    case Three(_, _, _) => 3
    case Four(_, _, _, _) => 4
  }

  /** The spelling is what comes next. */
  predicate ComesNext(s: Spelling, c0: nat, c1: nat, c2: nat, c3: nat) {
    && s.a as int == c0
    && (!s.One? ==> s.b as int == c1)
    && (s.Three? || s.Four? ==> s.c as int == c2)
    && (s.Four? ==> s.d as int == c3)
  }

  predicate IsPunctuator(s: Spelling) {
    match s
    case One(a) =>
      || a == '+' || a == '-' || a == '*' || a == '/' || a == '%' || a == '&' || a == '|' || a == '^' || a == '~' || a == '!'
      || a == '<' || a == '>' || a == '=' || a == '?' || a == ':' || a == '.' || a == ',' || a == ';'
      || a == '(' || a == ')' || a == '[' || a == ']' || a == '{' || a == '}'
    case Two(a, b) =>
      if b == '=' then
        || a == '+' || a == '-' || a == '*' || a == '/' || a == '%' || a == '&' || a == '|' || a == '^'
        || a == '<' || a == '>' || a == '=' || a == '!'
      else if a == b then
        a == '+' || a == '-' || a == '*' || a == '&' || a == '|' || a == '?' || a == '<' || a == '>'
      else
        (a == '=' && b == '>') || (a == '?' && b == '.')
    case Three(a, b, c) =>
      if c == '=' then
        (a == b && (a == '*' || a == '&' || a == '|' || a == '?' || a == '<' || a == '>' || a == '=')) || (a == '!' && b == '=')
      else
        a == b == c && (a == '>' || a == '.')
    case Four(a, b, c, d) => a == b == c == '>' && d == '='
  }

  /** The punctuator could start here; optional chaining may not be followed by a digit. */
  predicate Fits(s: Spelling, c0: nat, c1: nat, c2: nat, c3: nat) {
    IsPunctuator(s) && ComesNext(s, c0, c1, c2, c3) && (s == Two('?', '.') ==> !IsDecimalDigit(c2))
  }

  datatype Choice = Choice(spelling: Spelling, length: nat)

  // The choice by the next characters, and how far the lexer then moves. Comments and numbers go elsewhere.

  function Choose(c0: nat, c1: nat, c2: nat, c3: nat): Option<Choice> {
    if IsArithmetic(c0) then ChooseArithmetic(c0, c1, c2)
    else if IsLogical(c0) then ChooseLogical(c0, c1, c2)
    else if IsComparison(c0) then ChooseComparison(c0, c1, c2, c3)
    else ChooseOther(c0, c1, c2)
  }

  predicate IsArithmetic(c: nat) {
    c == '+' as int || c == '-' as int || c == '*' as int || c == '/' as int || c == '%' as int
  }

  predicate IsLogical(c: nat) {
    c == '&' as int || c == '|' as int || c == '?' as int || c == '^' as int
  }

  predicate IsComparison(c: nat) {
    c == '>' as int || c == '<' as int || c == '=' as int || c == '!' as int
  }

  function ChooseArithmetic(c0: nat, c1: nat, c2: nat): Option<Choice> {
    if c0 == '+' as int then
      Some(if c1 == '+' as int then Choice(Two('+', '+'), 2) else if c1 == '=' as int then Choice(Two('+', '='), 2) else Choice(One('+'), 1))
    else if c0 == '-' as int then
      Some(if c1 == '-' as int then Choice(Two('-', '-'), 2) else if c1 == '=' as int then Choice(Two('-', '='), 2) else Choice(One('-'), 1))
    else if c0 == '*' as int then
      Some(if c1 == '*' as int then if c2 == '=' as int then Choice(Three('*', '*', '='), 3) else Choice(Two('*', '*'), 2)
           else if c1 == '=' as int then Choice(Two('*', '='), 2) else Choice(One('*'), 1))
    else if c0 == '/' as int then
      if c1 == '/' as int || c1 == '*' as int then None
      else Some(if c1 == '=' as int then Choice(Two('/', '='), 2) else Choice(One('/'), 1))
    else if c0 == '%' as int then
      Some(if c1 == '=' as int then Choice(Two('%', '='), 2) else Choice(One('%'), 1))
    else None
  }

  function ChooseLogical(c0: nat, c1: nat, c2: nat): Option<Choice> {
    if c0 == '&' as int then
      Some(if c1 == '&' as int then if c2 == '=' as int then Choice(Three('&', '&', '='), 3) else Choice(Two('&', '&'), 2)
           else if c1 == '=' as int then Choice(Two('&', '='), 2) else Choice(One('&'), 1))
    else if c0 == '|' as int then
      Some(if c1 == '|' as int then if c2 == '=' as int then Choice(Three('|', '|', '='), 3) else Choice(Two('|', '|'), 2)
           else if c1 == '=' as int then Choice(Two('|', '='), 2) else Choice(One('|'), 1))
    else if c0 == '?' as int then
      Some(if c1 == '?' as int then if c2 == '=' as int then Choice(Three('?', '?', '='), 3) else Choice(Two('?', '?'), 2)
           else if c1 == '.' as int && !IsDecimalDigit(c2) then Choice(Two('?', '.'), 2) else Choice(One('?'), 1))
    else if c0 == '^' as int then
      Some(if c1 == '=' as int then Choice(Two('^', '='), 2) else Choice(One('^'), 1))
    else None
  }

  function ChooseComparison(c0: nat, c1: nat, c2: nat, c3: nat): Option<Choice> {
    if c0 == '>' as int then
      Some(if c1 == '>' as int then
             if c2 == '>' as int then if c3 == '=' as int then Choice(Four('>', '>', '>', '='), 4) else Choice(Three('>', '>', '>'), 3)
             else if c2 == '=' as int then Choice(Three('>', '>', '='), 3) else Choice(Two('>', '>'), 2)
           else if c1 == '=' as int then Choice(Two('>', '='), 2) else Choice(One('>'), 1))
    else if c0 == '<' as int then
      Some(if c1 == '<' as int then if c2 == '=' as int then Choice(Three('<', '<', '='), 3) else Choice(Two('<', '<'), 2)
           else if c1 == '=' as int then Choice(Two('<', '='), 2) else Choice(One('<'), 1))
    else if c0 == '=' as int then
      Some(if c1 == '=' as int then if c2 == '=' as int then Choice(Three('=', '=', '='), 3) else Choice(Two('=', '='), 2)
           else if c1 == '>' as int then Choice(Two('=', '>'), 2) else Choice(One('='), 1))
    else if c0 == '!' as int then
      Some(if c1 == '=' as int then if c2 == '=' as int then Choice(Three('!', '=', '='), 3) else Choice(Two('!', '='), 2) else Choice(One('!'), 1))
    else None
  }

  function ChooseOther(c: nat, c1: nat, c2: nat): Option<Choice> {
    if c == '.' as int then
      if c1 == '.' as int && c2 == '.' as int then Some(Choice(Three('.', '.', '.'), 3))
      else if IsDecimalDigit(c1) then None
      else Some(Choice(One('.'), 1))
    else if c == '~' as int then Some(Choice(One('~'), 1))
    else if c == '(' as int then Some(Choice(One('('), 1))
    else if c == ')' as int then Some(Choice(One(')'), 1))
    else if c == '{' as int then Some(Choice(One('{'), 1))
    else if c == '}' as int then Some(Choice(One('}'), 1))
    else if c == '[' as int then Some(Choice(One('['), 1))
    else if c == ']' as int then Some(Choice(One(']'), 1))
    else if c == ';' as int then Some(Choice(One(';'), 1))
    else if c == ',' as int then Some(Choice(One(','), 1))
    else if c == ':' as int then Some(Choice(One(':'), 1))
    else None
  }

  /** A comment or a number starts here. */
  predicate StartsOther(c0: nat, c1: nat) {
    (c0 == '/' as int && (c1 == '/' as int || c1 == '*' as int)) || (c0 == '.' as int && IsDecimalDigit(c1))
  }

  lemma NothingLonger(s: Spelling, c0: nat, c1: nat, c2: nat, c3: nat)
    requires Fits(s, c0, c1, c2, c3)
    ensures var choice := Choose(c0, c1, c2, c3);
            if choice.Some? then Length(s) <= choice.value.length else StartsOther(c0, c1)
  {
    match s
    case One(_) =>
    case Two(_, _) =>
    case Three(_, _, _) =>
    case Four(_, _, _, _) =>
  }

  /** The lexer chooses the longest punctuator. */
  lemma ChoiceIsLongest(c0: nat, c1: nat, c2: nat, c3: nat)
    ensures var choice := Choose(c0, c1, c2, c3);
            && IsRight(choice, c0, c1, c2, c3)
            && forall s | Fits(s, c0, c1, c2, c3) ::
                 if choice.Some? then Length(s) <= choice.value.length else StartsOther(c0, c1)
  {
    forall s | Fits(s, c0, c1, c2, c3)
      ensures var choice := Choose(c0, c1, c2, c3);
              if choice.Some? then Length(s) <= choice.value.length else StartsOther(c0, c1)
    {
      NothingLonger(s, c0, c1, c2, c3);
    }
    ChoiceFits(c0, c1, c2, c3);
  }

  ghost predicate IsRight(choice: Option<Choice>, c0: nat, c1: nat, c2: nat, c3: nat) {
    choice.Some? ==> Fits(choice.value.spelling, c0, c1, c2, c3) && choice.value.length == Length(choice.value.spelling)
  }

  lemma ChoiceFits(c0: nat, c1: nat, c2: nat, c3: nat)
    ensures IsRight(Choose(c0, c1, c2, c3), c0, c1, c2, c3)
  {
    if IsArithmetic(c0) {
      ArithmeticFits(c0, c1, c2, c3);
    } else if IsLogical(c0) {
      LogicalFits(c0, c1, c2, c3);
    } else if IsComparison(c0) {
      ComparisonFits(c0, c1, c2, c3);
    } else {
      OtherFits(c0, c1, c2, c3);
    }
  }

  lemma ArithmeticFits(c0: nat, c1: nat, c2: nat, c3: nat)
    ensures IsRight(ChooseArithmetic(c0, c1, c2), c0, c1, c2, c3)
  {}

  lemma LogicalFits(c0: nat, c1: nat, c2: nat, c3: nat)
    ensures IsRight(ChooseLogical(c0, c1, c2), c0, c1, c2, c3)
  {}

  lemma ComparisonFits(c0: nat, c1: nat, c2: nat, c3: nat)
    ensures IsRight(ChooseComparison(c0, c1, c2, c3), c0, c1, c2, c3)
  {}

  lemma OtherFits(c0: nat, c1: nat, c2: nat, c3: nat)
    ensures IsRight(ChooseOther(c0, c1, c2), c0, c1, c2, c3)
  {}

  /** The punctuator is the longest that fits at a position. */
  ghost predicate IsLongest(s: Spelling, buf: seq<byte>, i: nat) {
    var c0, c1, c2, c3 := At(buf, i), At(buf, i + 1), At(buf, i + 2), At(buf, i + 3);
    Fits(s, c0, c1, c2, c3) && forall t | Fits(t, c0, c1, c2, c3) :: Length(t) <= Length(s)
  }
}
