/**
 UTF-16 code units, surrogate pairs, and walking over them in both directions
 (`common/unicode.rs`, `common/string_iterators.rs`, `parser/lexer_stream.rs`).
 */
module Utf16 {

  type unit = u: int | 0 <= u < 0x1_0000

  type codepoint = c: int | 0 <= c < 0x11_0000

  predicate IsHigh(u: int) { 0xD800 <= u <= 0xDBFF }

  predicate IsLow(u: int) { 0xDC00 <= u <= 0xDFFF }

  predicate IsSurrogate(u: int) { 0xD800 <= u <= 0xDFFF }

  /** Two code units form a surrogate pair. */
  predicate Pairs(a: int, b: int) { IsHigh(a) && IsLow(b) }

  function FromPair(high: unit, low: unit): codepoint
    requires Pairs(high, low)
  {
    var highBits: nat := high - 0xD800;
    var lowBits: nat := low - 0xDC00;
    highBits * 0x400 + lowBits + 0x1_0000
  }

  function Encode(cp: codepoint): (units: seq<unit>) {
    if cp < 0x1_0000 then [cp]
    else
      var offset: nat := cp - 0x1_0000;
      [offset / 0x400 + 0xD800, offset % 0x400 + 0xDC00]
  }

  lemma EncodePair(cp: codepoint)
    requires cp >= 0x1_0000
    ensures var e := Encode(cp); |e| == 2 && Pairs(e[0], e[1]) && FromPair(e[0], e[1]) == cp
  {}

  lemma PairEncodes(high: unit, low: unit)
    requires Pairs(high, low)
    ensures FromPair(high, low) >= 0x1_0000 && Encode(FromPair(high, low)) == [high, low]
  {}

  // ----- Pairs are in order -----

  /** The order of pairs, by the high surrogate first, is the order of their code points. */
  lemma PairsAreOrdered(high: unit, low: unit, high': unit, low': unit)
    requires Pairs(high, low) && Pairs(high', low')
    ensures FromPair(high, low) < FromPair(high', low') <==> high < high' || (high == high' && low < low')
  {}

  /** The pair after a pair, in that order. */
  function NextPair(high: unit, low: unit): (unit, unit)
    requires Pairs(high, low) && (high, low) != (0xDBFF, 0xDFFF)
  {
    if low < 0xDFFF then (high, low + 1) else (high + 1, 0xDC00)
  }

  predicate IsNext(f: (unit, unit) -> int, high: unit, low: unit)
    requires Pairs(high, low) && (high, low) != (0xDBFF, 0xDFFF)
  {
    var next := NextPair(high, low);
    f(next.0, next.1) == f(high, low) + 1
  }

  /** The code points above the first 2^16 are given out in the order of the pairs, without gaps. */
  ghost predicate CountsPairs(f: (unit, unit) -> int) {
    && f(0xD800, 0xDC00) == 0x1_0000
    && forall high: unit, low: unit | Pairs(high, low) && (high, low) != (0xDBFF, 0xDFFF) :: IsNext(f, high, low)
  }

  function FromUnits(high: unit, low: unit): int {
    if Pairs(high, low) then FromPair(high, low) else 0
  }

  lemma PairsAreCounted()
    ensures CountsPairs(FromUnits) && FromPair(0xDBFF, 0xDFFF) == 0x10_FFFF
  {}

  lemma PairBefore(high: unit, low: unit) returns (high': unit, low': unit)
    requires Pairs(high, low) && (high, low) != (0xD800, 0xDC00)
    ensures Pairs(high', low') && (high', low') != (0xDBFF, 0xDFFF) && NextPair(high', low') == (high, low)
    ensures FromPair(high', low') == FromPair(high, low) - 1
  {
    if low > 0xDC00 {
      high', low' := high, low - 1;
    } else {
      high', low' := high - 1, 0xDFFF;
    }
  }

  /** There is only one such assignment. */
  lemma {:induction false} OneCount(f: (unit, unit) -> int, high: unit, low: unit)
    requires CountsPairs(f) && Pairs(high, low)
    ensures f(high, low) == FromPair(high, low)
    decreases FromPair(high, low)
  {
    if (high, low) != (0xD800, 0xDC00) {
      var high', low' := PairBefore(high, low);
      OneCount(f, high', low');
      assert IsNext(f, high', low');
    }
  }

  function EncodeAll(cps: seq<codepoint>): seq<unit> {
    if cps == [] then [] else Encode(cps[0]) + EncodeAll(cps[1..])
  }

  /** What `GenericCodePointIterator::next` yields over a whole string. */
  function Decode(s: seq<unit>): seq<codepoint> {
    if s == [] then []
    else if |s| >= 2 && Pairs(s[0], s[1]) then [FromPair(s[0], s[1])] + Decode(s[2..])
    else [s[0]] + Decode(s[1..])
  }

  // ----- Round trips -----

  /** Re-encoding the code points of any sequence of code units gives it back. */
  lemma {:induction false} EncodeDecode(s: seq<unit>)
    ensures EncodeAll(Decode(s)) == s
  {
    if s == [] {
    } else if |s| >= 2 && Pairs(s[0], s[1]) {
      PairEncodes(s[0], s[1]);
      EncodeDecode(s[2..]);
      assert Decode(s)[1..] == Decode(s[2..]);
      assert s == [s[0], s[1]] + s[2..];
    } else {
      EncodeDecode(s[1..]);
      assert Decode(s)[1..] == Decode(s[1..]);
      assert s == [s[0]] + s[1..];
    }
  }

  /** No high surrogate is directly followed by a low one. */
  predicate NoAdjacentPair(cps: seq<codepoint>) {
    forall i | 0 <= i < |cps| - 1 :: !Pairs(cps[i], cps[i + 1])
  }

  lemma EncodeHead(cp: codepoint)
    ensures |Encode(cp)| >= 1
    ensures IsLow(Encode(cp)[0]) <==> IsLow(cp)
  {}

  /** Decoding undoes encoding exactly when no two adjacent surrogates could be taken for a pair. */
  lemma {:induction false} DecodeEncode(cps: seq<codepoint>)
    ensures Decode(EncodeAll(cps)) == cps <==> NoAdjacentPair(cps)
  {
    if cps != [] {
      var cp, rest := cps[0], EncodeAll(cps[1..]);
      var s := Encode(cp) + rest;
      DecodeEncode(cps[1..]);
      assert cps == [cp] + cps[1..];
      if |cps| > 1 {
        EncodeHead(cps[1]);
        assert rest[0] == Encode(cps[1])[0];
      }
      if cp >= 0x1_0000 {
        EncodePair(cp);
        assert s[0] == Encode(cp)[0] && s[1] == Encode(cp)[1] && s[2..] == rest;
        assert Decode(s) == [cp] + Decode(rest);
        NoAdjacentPairCons(cps);
      } else if |cps| > 1 && Pairs(cp, cps[1]) {
        assert s[0] == cp && s[1] == rest[0];
        assert Decode(s)[0] >= 0x1_0000 by { PairEncodes(s[0], s[1]); }
        assert !NoAdjacentPair(cps) by { assert Pairs(cps[0], cps[0 + 1]); }
      } else {
        assert s[0] == cp && s[1..] == rest;
        assert Decode(s) == [cp] + Decode(rest);
        NoAdjacentPairCons(cps);
      }
    }
  }

  lemma NoAdjacentPairCons(cps: seq<codepoint>)
    requires cps != [] && (|cps| > 1 ==> !Pairs(cps[0], cps[1]))
    ensures NoAdjacentPair(cps) <==> NoAdjacentPair(cps[1..])
  {
    if NoAdjacentPair(cps) {
      forall i | 0 <= i < |cps[1..]| - 1 ensures !Pairs(cps[1..][i], cps[1..][i + 1]) {
        assert !Pairs(cps[i + 1], cps[i + 1 + 1]);
      }
    }
    if NoAdjacentPair(cps[1..]) {
      forall i | 0 <= i < |cps| - 1 ensures !Pairs(cps[i], cps[i + 1]) {
        if i > 0 {
          assert !Pairs(cps[1..][i - 1], cps[1..][i - 1 + 1]);
        }
      }
    }
  }

  // ----- Segmentation from both ends -----

  /** Position i does not fall inside a surrogate pair. */
  predicate Boundary(s: seq<unit>, i: nat) {
    i <= |s| && (0 < i < |s| ==> !Pairs(s[i - 1], s[i]))
  }

  /** The code point at a position, and how many code units it takes. */
  function CodePointAt(s: seq<unit>, i: nat): (codepoint, nat)
    requires i < |s|
  {
    if IsHigh(s[i]) && i + 1 < |s| && IsLow(s[i + 1]) then (FromPair(s[i], s[i + 1]), 2) else (s[i], 1)
  }

  /** The code point ending at a position, and how many code units it takes. */
  function CodePointBefore(s: seq<unit>, i: nat): (codepoint, nat)
    requires 0 < i <= |s|
  {
    if IsLow(s[i - 1]) && i >= 2 && IsHigh(s[i - 2]) then (FromPair(s[i - 2], s[i - 1]), 2) else (s[i - 1], 1)
  }

  /** Stepping forwards and stepping backwards undo each other at every boundary, and stay on boundaries. */
  lemma StepsAreInverse(s: seq<unit>, i: nat)
    requires Boundary(s, i)
    ensures i < |s| ==>
              var (cp, n) := CodePointAt(s, i);
              i + n <= |s| && Boundary(s, i + n) && CodePointBefore(s, i + n) == (cp, n)
    ensures i > 0 ==>
              var (cp, n) := CodePointBefore(s, i);
              n <= i && Boundary(s, i - n) && CodePointAt(s, i - n) == (cp, n)
  {}

  /** The code points from a position to the end, walking forwards. */
  function Forwards(s: seq<unit>, i: nat): seq<codepoint>
    requires i <= |s|
    decreases |s| - i
  {
    if i == |s| then [] else
      var (cp, n) := CodePointAt(s, i);
      [cp] + Forwards(s, i + n)
  }

  /** The code points from a position to the start, walking backwards. */
  function Backwards(s: seq<unit>, i: nat): seq<codepoint>
    requires i <= |s|
    decreases i
  {
    if i == 0 then [] else
      var (cp, n) := CodePointBefore(s, i);
      [cp] + Backwards(s, i - n)
  }

  function Reverse<T>(s: seq<T>): seq<T> {
    if s == [] then [] else Reverse(s[1..]) + [s[0]]
  }

  lemma {:induction false} ReverseSnoc<T>(s: seq<T>, x: T)
    ensures Reverse(s + [x]) == [x] + Reverse(s)
  {
    if s == [] {
      assert s + [x] == [x] && [x][1..] == [];
    } else {
      ReverseSnoc(s[1..], x);
      assert (s + [x])[1..] == s[1..] + [x];
    }
  }

  lemma {:induction false} DecodeIsForwards(s: seq<unit>, i: nat)
    requires i <= |s|
    ensures Forwards(s, i) == Decode(s[i..])
    decreases |s| - i
  {
    if i < |s| {
      var n := CodePointAt(s, i).1;
      DecodeIsForwards(s, i + n);
      assert s[i..][n..] == s[i + n..];
    }
  }

  /** Forward and backward walks that meet at a boundary cover the string between them. */
  lemma {:induction false} WalksMeet(s: seq<unit>, i: nat)
    requires Boundary(s, i)
    ensures Reverse(Backwards(s, i)) + Forwards(s, i) == Forwards(s, 0)
    decreases i
  {
    if i > 0 {
      StepsAreInverse(s, i);
      var (cp, n) := CodePointBefore(s, i);
      WalksMeet(s, i - n);
      assert Forwards(s, i - n) == [cp] + Forwards(s, i);
      assert Backwards(s, i)[1..] == Backwards(s, i - n);
      var b, f := Reverse(Backwards(s, i - n)), Forwards(s, i);
      assert (b + [cp]) + f == b + ([cp] + f);
    }
  }

  lemma {:induction false} ReverseReverse<T>(s: seq<T>)
    ensures Reverse(Reverse(s)) == s
  {
    if s != [] {
      ReverseReverse(s[1..]);
      ReverseSnoc(Reverse(s[1..]), s[0]);
    }
  }

  /** Walking backwards from the end yields the decoded string in reverse order. */
  lemma BackwardsIsReverse(s: seq<unit>)
    ensures Backwards(s, |s|) == Reverse(Decode(s))
  {
    WalksMeet(s, |s|);
    DecodeIsForwards(s, 0);
    assert s[0..] == s;
    assert Reverse(Backwards(s, |s|)) + [] == Reverse(Backwards(s, |s|));
    ReverseReverse(Backwards(s, |s|));
  }
}
