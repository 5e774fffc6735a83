/** The check for unpaired surrogates in a WTF-8 string (`common/wtf_8.rs`). */
module Wtf8Strings {
  import Bits
  import Wtf8
  import Utf16

  /** A surrogate that would stay unpaired if the string were converted to UTF-16. */
  ghost predicate HasUnpairedSurrogate(cps: seq<Utf16.codepoint>) {
    exists c <- Utf16.Decode(Utf16.EncodeAll(cps)) :: Utf16.IsSurrogate(c)
  }

  /** The reading of the code points that the loop makes: surrogates only as high-low pairs. */
  predicate Paired(cps: seq<nat>) {
    if cps == [] then true
    else if !Utf16.IsSurrogate(cps[0]) then Paired(cps[1..])
    else |cps| >= 2 && Utf16.Pairs(cps[0], cps[1]) && Paired(cps[2..])
  }

  /** IsStringWellFormedUnicode: no unpaired surrogate is left by a conversion to UTF-16. */
  lemma {:induction false} PairedIsWellFormed(cps: seq<Utf16.codepoint>)
    ensures Paired(cps) <==> !HasUnpairedSurrogate(cps)
  {
    if cps == [] {
    } else if !Utf16.IsSurrogate(cps[0]) {
      PairedIsWellFormed(cps[1..]);
      DecodeFirst(cps);
      ConsSurrogate(cps[0], Utf16.Decode(Utf16.EncodeAll(cps[1..])));
    } else if |cps| >= 2 && Utf16.Pairs(cps[0], cps[1]) {
      PairedIsWellFormed(cps[2..]);
      DecodePair(cps);
      ConsSurrogate(Utf16.FromPair(cps[0], cps[1]), Utf16.Decode(Utf16.EncodeAll(cps[2..])));
    } else {
      DecodeFirst(cps);
      ConsSurrogate(cps[0], Utf16.Decode(Utf16.EncodeAll(cps[1..])));
    }
  }

  /** A code point that does not start a pair decodes to itself. */
  lemma DecodeFirst(cps: seq<Utf16.codepoint>)
    requires cps != [] && !(|cps| >= 2 && Utf16.Pairs(cps[0], cps[1]))
    ensures Utf16.Decode(Utf16.EncodeAll(cps)) == [cps[0]] + Utf16.Decode(Utf16.EncodeAll(cps[1..]))
  {
    var units, rest := Utf16.EncodeAll(cps), Utf16.EncodeAll(cps[1..]);
    if cps[0] >= 0x1_0000 {
      Utf16.EncodePair(cps[0]);
      assert units[0] == Utf16.Encode(cps[0])[0] && units[1] == Utf16.Encode(cps[0])[1];
      assert units[2..] == rest;
    } else {
      assert units[0] == cps[0] && units[1..] == rest;
      if |cps| >= 2 {
        Utf16.EncodeHead(cps[1]);
        assert units[1] == Utf16.Encode(cps[1])[0];
      }
    }
  }

  lemma DecodePair(cps: seq<Utf16.codepoint>)
    requires |cps| >= 2 && Utf16.Pairs(cps[0], cps[1])
    ensures var c := Utf16.FromPair(cps[0], cps[1]);
            && !Utf16.IsSurrogate(c)
            && Utf16.Decode(Utf16.EncodeAll(cps)) == [c] + Utf16.Decode(Utf16.EncodeAll(cps[2..]))
  {
    var units, rest := Utf16.EncodeAll(cps), Utf16.EncodeAll(cps[2..]);
    assert Utf16.EncodeAll(cps[1..]) == [cps[1]] + rest by { assert cps[1..][1..] == cps[2..]; }
    assert units[0] == cps[0] && units[1] == cps[1] && units[2..] == rest;
  }

  lemma ConsSurrogate(c: Utf16.codepoint, rest: seq<Utf16.codepoint>)
    ensures (exists d <- [c] + rest :: Utf16.IsSurrogate(d)) <==>
            Utf16.IsSurrogate(c) || exists d <- rest :: Utf16.IsSurrogate(d)
  {
    if Utf16.IsSurrogate(c) {
      assert c in [c] + rest;
    }
    if d :| d in rest && Utf16.IsSurrogate(d) {
      assert d in [c] + rest;
    }
  }

  method IsWellFormed(bytes: seq<Bits.byte>) returns (wellFormed: bool)
    requires Wtf8.CodePoints(bytes).Some?
    ensures var cps := Wtf8.CodePoints(bytes).value;
            && (wellFormed <==> Paired(cps))
            && (Wtf8.InRange(cps) ==> (wellFormed <==> !HasUnpairedSurrogate(cps)))
  {
    ghost var cps := Wtf8.CodePoints(bytes).value;
    if Wtf8.InRange(cps) {
      PairedIsWellFormed(cps);
    }
    var iter := new Wtf8.CodePointsIterator(bytes);
    wellFormed := true;
    var step := iter.Next();
    while step.Item?
      invariant wellFormed && !step.Panic?
      invariant Wtf8.CodePoints(iter.buf).Some?
      invariant Paired(cps) <==>
                Paired((if step.Item? then [step.value] else []) + Wtf8.CodePoints(iter.buf).value)
      invariant step.End? ==> iter.buf == []
      decreases |iter.buf| + if step.Item? then 1 else 0
    {
      ghost var left := Wtf8.CodePoints(iter.buf).value;
      assert ([step.value] + left)[1..] == left;
      if Utf16.IsSurrogate(step.value) {
        var paired := false;
        if Utf16.IsHigh(step.value) {
          var next := iter.Next();
          if next.Item? && Utf16.IsLow(next.value) {
            assert ([step.value] + left)[2..] == left[1..];
            paired := true;
          }
        }
        if !paired {
          return false;
        }
      }
      step := iter.Next();
    }
  }
}
