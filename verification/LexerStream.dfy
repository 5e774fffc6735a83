/**
 The unicode aware stream over a two-byte string (`parser/lexer_stream.rs`), as the regular expression
 parser and matcher use it.

 A stream read forwards is in step if `current` is the code point behind the position; one read backwards
 is in step if `current` is the code point in front of it. The moves of the code are functions of the
 position and of `current`, and are compared with the moves that the interface promises, in every state.
 */
module LexerStream {
  import opened Utf16

  /** Marks the end of the input; not a code point. */
  const EOF_CHAR := 0x11_0000

  predicate NeedsSurrogatePair(c: int) { c >= 0x1_0000 }

  datatype Cursor = Cursor(pos: nat, current: nat)

  // ----- What the interface promises -----

  /** A cursor on a boundary, with the code point that follows. */
  function Ahead(s: seq<unit>, pos: nat): Cursor {
    Cursor(pos, if pos < |s| then CodePointAt(s, pos).0 else EOF_CHAR)
  }

  /** A cursor on a boundary, with the code point that precedes. */
  function Behind(s: seq<unit>, pos: nat): Cursor
    requires pos <= |s|
  {
    Cursor(pos, if pos > 0 then CodePointBefore(s, pos).0 else EOF_CHAR)
  }

  /** One code point forwards. */
  function PosAfter(s: seq<unit>, pos: nat): nat
    requires pos < |s|
  {
    pos + CodePointAt(s, pos).1
  }

  /** One code point backwards. */
  function PosBefore(s: seq<unit>, pos: nat): nat
    requires 0 < pos <= |s|
  {
    pos - CodePointBefore(s, pos).1
  }

  /** The code point n units further on. */
  function PeekAhead(s: seq<unit>, pos: nat, n: nat): nat {
    Ahead(s, pos + n).current
  }

  // ----- What the code does -----

  function Width(current: nat): nat {
    if NeedsSurrogatePair(current) then 2 else 1
  }

  /** A move forwards by the width of the current code point. */
  function StepForwards(s: seq<unit>, c: Cursor): Cursor
    requires c.pos <= |s|
  {
    if c.pos == |s| then c
    else Ahead(s, if c.pos + Width(c.current) < |s| then c.pos + Width(c.current) else |s|)
  }

  /** Where the first of the two moves backwards ends. */
  function Middle(c: Cursor): nat {
    if c.pos > Width(c.current) then c.pos - Width(c.current) else 0
  }

  datatype Step = Moved(to: Cursor) | Panics

  /** A move backwards by the width of the current code point, and then over one more code point. */
  function StepBackwards(s: seq<unit>, c: Cursor): Step
    requires c.pos <= |s|
  {
    if c.pos == 0 then Moved(c)
    else if Middle(c) == 0 then Panics
    else Moved(Cursor(PosBefore(s, Middle(c)), CodePointBefore(s, Middle(c)).0))
  }

  function Peek(s: seq<unit>, pos: nat, n: nat): nat {
    if pos + n < |s| then CodePointAt(s, pos).0 else EOF_CHAR
  }

  // ----- When it is what was promised -----

  /** At any position and with any current value: exactly when a step forwards moves over one code point. */
  lemma ForwardsIff(s: seq<unit>, c: Cursor)
    requires c.pos < |s|
    ensures StepForwards(s, c).pos == PosAfter(s, c.pos) <==> Width(c.current) == CodePointAt(s, c.pos).1 || c.pos + 1 == |s|
    ensures StepForwards(s, c) == Ahead(s, StepForwards(s, c).pos)
  {}

  /**
   At any position and with any current value: exactly when a step backwards moves over one code point.
   A stream in step never meets the condition, because then a pair in front gives a wide current value.
   */
  lemma BackwardsIff(s: seq<unit>, c: Cursor)
    requires 0 < c.pos <= |s|
    ensures var step := StepBackwards(s, c);
            step.Moved? && step.to.pos == PosBefore(s, c.pos) <==> !NeedsSurrogatePair(c.current) && CodePointBefore(s, c.pos).1 == 2
  {}

  /** Exactly when a step backwards also leaves the stream in step: a lone high surrogate has to precede the same one of a pair. */
  lemma BackwardsInStepIff(s: seq<unit>, c: Cursor)
    requires 0 < c.pos <= |s| && Boundary(s, c.pos)
    ensures StepBackwards(s, c) == Moved(Behind(s, PosBefore(s, c.pos))) <==>
              && !NeedsSurrogatePair(c.current) && CodePointBefore(s, c.pos).1 == 2
              && c.pos > 2 && s[c.pos - 3] == s[c.pos - 2]
  {
    BackwardsIff(s, c);
    if !NeedsSurrogatePair(c.current) && CodePointBefore(s, c.pos).1 == 2 {
      var high := s[c.pos - 2];
      assert StepBackwards(s, c) == Moved(Cursor(c.pos - 2, high));
      if c.pos > 2 && IsLow(s[c.pos - 3]) {
        assert s[c.pos - 3] != high;
      }
    }
  }

  /** From a stream in step, a step backwards never moves over one code point: it moves over two, or panics if there is only one. */
  lemma BackwardsFromInStep(s: seq<unit>, pos: nat)
    requires 0 < pos <= |s| && Boundary(s, pos)
    ensures var step, before := StepBackwards(s, Behind(s, pos)), PosBefore(s, pos);
            step == if before == 0 then Panics else Moved(Cursor(PosBefore(s, before), CodePointBefore(s, before).0))
  {
    StepsAreInverse(s, pos);
  }

  /** A step backwards ends on a boundary; then the stream is in step for reading forwards exactly if the first move did. */
  lemma BackwardsEndsOnBoundary(s: seq<unit>, c: Cursor)
    requires 0 < c.pos <= |s| && Boundary(s, c.pos) && StepBackwards(s, c).Moved?
    ensures var to := StepBackwards(s, c).to;
            to.pos < |s| && Boundary(s, to.pos) && (to == Ahead(s, to.pos) <==> Boundary(s, Middle(c)))
  {
    StepsAreInverse(s, c.pos);
    if Boundary(s, Middle(c)) {
      StepsAreInverse(s, Middle(c));
    }
  }

  /** For every position and distance: exactly when the code point at the cursor is the one that was asked for. */
  lemma PeekIff(s: seq<unit>, pos: nat, n: nat)
    requires pos <= |s|
    ensures Peek(s, pos, n) == PeekAhead(s, pos, n) <==>
              pos + n >= |s| || CodePointAt(s, pos).0 == CodePointAt(s, pos + n).0
  {}

  /** Inputs on which the code does not do what was promised. */
  lemma Examples(a: unit, b: unit, c: unit)
    requires a < 0xD800 && b < 0xD800 && c < 0xD800 && a != b
    ensures Peek([a, b], 0, 1) == a && PeekAhead([a, b], 0, 1) == b
    ensures StepBackwards([a, b, c], Behind([a, b, c], 3)) == Moved(Cursor(1, b)) != Moved(Behind([a, b, c], 2))
    ensures StepBackwards([a], Behind([a], 1)) == Panics
    ensures StepForwards([0xD800, 0xDC00], Cursor(0, 0xD800)) == Cursor(1, 0xDC00) != Ahead([0xD800, 0xDC00], 2)
  {
    var s := [a, b, c];
    assert CodePointBefore(s, 3) == (c, 1) && CodePointBefore(s, 2) == (b, 1);
  }

  // ----- Whole runs -----

  /** The values read by reading and stepping forwards, until the end mark is read. */
  function ReadForwards(s: seq<unit>, c: Cursor): seq<nat>
    requires c.pos <= |s| && (c.pos == |s| ==> c.current == EOF_CHAR)
    decreases |s| - c.pos
  {
    if c.pos == |s| then [] else [c.current] + ReadForwards(s, StepForwards(s, c))
  }

  lemma {:induction false} ReadForwardsInStep(s: seq<unit>, pos: nat)
    requires pos <= |s| && Boundary(s, pos)
    ensures ReadForwards(s, Ahead(s, pos)) == Forwards(s, pos)
    decreases |s| - pos
  {
    if pos < |s| {
      StepsAreInverse(s, pos);
      var next := PosAfter(s, pos);
      assert StepForwards(s, Ahead(s, pos)) == Ahead(s, next);
      ReadForwardsInStep(s, next);
    }
  }

  function Start(s: seq<unit>): Cursor {
    Cursor(0, if s == [] then EOF_CHAR else s[0])
  }

  /** Reading a whole string forwards gives its code points exactly if it does not start with a surrogate pair. */
  lemma ReadForwardsIff(s: seq<unit>)
    ensures ReadForwards(s, Start(s)) == Decode(s) <==> !(|s| >= 2 && Pairs(s[0], s[1]))
  {
    DecodeIsForwards(s, 0);
    assert s[0..] == s;
    if |s| >= 2 && Pairs(s[0], s[1]) {
      assert Forwards(s, 0)[0] == FromPair(s[0], s[1]) != s[0];
      assert ReadForwards(s, Start(s))[0] == s[0];
    } else {
      assert Start(s) == Ahead(s, 0);
      ReadForwardsInStep(s, 0);
    }
  }

  /** Any number of steps backwards. */
  function StepsBackwards(s: seq<unit>, c: Cursor, n: nat): (r: Step)
    requires c.pos <= |s|
    ensures r.Moved? ==> r.to.pos <= c.pos
    decreases n
  {
    if n == 0 then Moved(c)
    else
      var step := StepBackwards(s, c);
      if step.Panics? then Panics else StepsBackwards(s, step.to, n - 1)
  }

  /** A run backwards never reads the end mark at the start of the input: it panics, or goes on reading code points. */
  lemma {:induction false} BackwardsNeverEnds(s: seq<unit>, c: Cursor, n: nat)
    requires c.pos <= |s| && (c.pos > 0 || c.current != EOF_CHAR) && n > 0
    ensures var r := StepsBackwards(s, c, n); r.Panics? || r.to.current != EOF_CHAR
    decreases n
  {
    var step := StepBackwards(s, c);
    if step.Moved? {
      assert step.to.current != EOF_CHAR;
      if n > 1 {
        BackwardsNeverEnds(s, step.to, n - 1);
      } else {
        assert StepsBackwards(s, step.to, 0) == Moved(step.to);
      }
    }
  }

  // ----- The stream -----

  datatype Parsed = CodePoint(value: codepoint) | End | ParsePanics

  class CodePointStream {
    const buf: seq<unit>
    var pos: nat
    var current: nat

    ghost predicate Valid()
      reads this
    {
      pos <= |buf|
    }

    ghost function State(): Cursor
      reads this
    {
      Cursor(pos, current)
    }

    /** The first current value is a code unit. */
    constructor (units: seq<unit>)
      ensures buf == units && Valid() && State() == Start(units)
      ensures State() == Ahead(units, 0) <==> !(|units| >= 2 && Pairs(units[0], units[1]))
    {
      buf := units;
      pos := 0;
      current := if units == [] then EOF_CHAR else units[0];
    }

    method AdvanceN(n: nat)
      requires Valid()
      modifies this
      ensures Valid() && State() == Ahead(buf, if old(pos) + n < |buf| then old(pos) + n else |buf|)
    {
      pos := pos + n;
      if pos < |buf| {
        current := CodePointAt(buf, pos).0;
      } else {
        current := EOF_CHAR;
        pos := |buf|;
      }
    }

    method AdvanceBackwardsN(n: nat)
      requires Valid()
      modifies this
      ensures Valid() && State() == Behind(buf, if old(pos) >= n then old(pos) - n else 0)
    {
      if pos >= n && pos - n > 0 {
        pos := pos - n;
        current := CodePointBefore(buf, pos).0;
      } else {
        pos := 0;
        current := EOF_CHAR;
      }
    }

    method AdvanceCodePoint()
      requires Valid()
      modifies this
      ensures Valid() && State() == StepForwards(buf, old(State()))
    {
      if pos == |buf| {
        return;
      }
      if NeedsSurrogatePair(current) {
        AdvanceN(2);
      } else {
        AdvanceN(1);
      }
    }

    /** As the code has it: the second move repeats what the first one did. True is a panic. */
    method AdvanceBackwardsCodePoint() returns (panicked: bool)
      requires Valid()
      modifies this
      ensures Valid()
      ensures var step := StepBackwards(buf, old(State())); panicked == step.Panics? && (!panicked ==> State() == step.to)
    {
      if pos == 0 {
        return false;
      }
      if NeedsSurrogatePair(current) {
        AdvanceBackwardsN(2);
      } else {
        AdvanceBackwardsN(1);
      }
      if pos == 0 {
        return true;
      }
      var unit := buf[pos - 1];
      if IsLow(unit) && pos >= 2 && IsHigh(buf[pos - 2]) {
        var high := buf[pos - 2];
        pos := pos - 2;
        current := FromPair(high, unit);
        return false;
      }
      pos := pos - 1;
      current := unit;
      return false;
    }

    /** The code point in front of the cursor, by which reading forwards looks behind. */
    method PeekPrevCodePoint() returns (c: nat)
      requires Valid()
      ensures c == Behind(buf, pos).current
      ensures Boundary(buf, pos) && pos > 0 ==> c == Ahead(buf, PosBefore(buf, pos)).current
    {
      if pos == 0 {
        return EOF_CHAR;
      }
      c := CodePointBefore(buf, pos).0;
      if Boundary(buf, pos) {
        StepsAreInverse(buf, pos);
      }
    }

    /** The code point n units ahead is asked for, the one at the cursor is returned. */
    method PeekN(n: nat) returns (c: nat)
      requires Valid()
      ensures c == Peek(buf, pos, n)
      ensures c == PeekAhead(buf, pos, n) <==> pos + n >= |buf| || CodePointAt(buf, pos).0 == CodePointAt(buf, pos + n).0
    {
      PeekIff(buf, pos, n);
      var next := pos + n;
      c := if next < |buf| then CodePointAt(buf, pos).0 else EOF_CHAR;
    }

    /**
     The next code point of the decoded string. There is none if the end mark is current, also behind a move
     backwards to the start; with another current value at the end of the buffer the code panics.
     */
    method ParseUnicodeCodePoint() returns (c: Parsed)
      requires Valid()
      modifies this
      ensures Valid() && (c.End? <==> old(current) == EOF_CHAR)
      ensures c.ParsePanics? <==> old(current) != EOF_CHAR && old(pos) == |buf|
      ensures !c.CodePoint? ==> State() == old(State())
      ensures c.CodePoint? ==>
                && Decode(buf[old(pos)..]) == [c.value] + Decode(buf[pos..]) && State() == Ahead(buf, pos)
                && (Boundary(buf, old(pos)) ==> Boundary(buf, pos))
    {
      if current == EOF_CHAR {
        return End;
      }
      if pos == |buf| {
        return ParsePanics;
      }
      DecodeIsForwards(buf, pos);
      if Boundary(buf, pos) {
        StepsAreInverse(buf, pos);
      }
      var (codePoint, width) := CodePointAt(buf, pos);
      AdvanceN(width);
      DecodeIsForwards(buf, pos);
      c := CodePoint(codePoint);
    }

    method Save() returns (saved: Cursor)
      ensures saved == State()
    {
      saved := Cursor(pos, current);
    }

    method Restore(saved: Cursor)
      modifies this
      ensures State() == saved
    {
      current := saved.current;
      pos := saved.pos;
    }
  }
}
