/** Iterators over the code units and code points of a string (`common/string_iterators.rs`). */
module StringIterators {
  import opened Utf16
  import opened Wrappers

  /** The code units between two moving ends. */
  class CodeUnitIterator {
    const buf: seq<unit>
    var ptr: nat
    var end: nat

    ghost predicate Valid()
      reads this
    {
      ptr <= end <= |buf|
    }

    /** The code units not yet consumed from either end. */
    ghost function Remaining(): seq<unit>
      requires Valid()
      reads this
    {
      buf[ptr..end]
    }

    constructor (slice: seq<unit>)
      ensures Valid() && Remaining() == slice
    {
      buf := slice;
      ptr := 0;
      end := |slice|;
    }

    method Next() returns (item: Option<unit>)
      requires Valid()
      modifies this
      ensures Valid()
      ensures var r := old(Remaining());
              if r == [] then item == None && Remaining() == r
              else item == Some(r[0]) && Remaining() == r[1..]
    {
      if ptr == end {
        return None;
      }
      item := Some(buf[ptr]);
      ptr := ptr + 1;
    }

    method NextBack() returns (item: Option<unit>)
      requires Valid()
      modifies this
      ensures Valid()
      ensures var r := old(Remaining());
              if r == [] then item == None && Remaining() == r
              else item == Some(r[|r| - 1]) && Remaining() == r[..|r| - 1]
    {
      if ptr == end {
        return None;
      }
      end := end - 1;
      item := Some(buf[end]);
    }

    method Peek() returns (item: Option<unit>)
      requires Valid()
      ensures item == if Remaining() == [] then None else Some(Remaining()[0])
    {
      item := if ptr == end then None else Some(buf[ptr]);
    }

    method PeekBack() returns (item: Option<unit>)
      requires Valid()
      ensures item == if Remaining() == [] then None else Some(Remaining()[|Remaining()| - 1])
    {
      item := if ptr == end then None else Some(buf[end - 1]);
    }

    /** Consume both iterators while they agree; true means that they held the same code units. */
    method ConsumeEquals(other: CodeUnitIterator) returns (equal: bool)
      requires Valid() && other.Valid() && other != this
      modifies this, other
      ensures Valid() && other.Valid()
      ensures equal <==> old(Remaining()) == old(other.Remaining())
    {
      ghost var a, b := Remaining(), other.Remaining();
      ghost var n: nat := 0;
      while true
        invariant Valid() && other.Valid()
        invariant n <= |a| && n <= |b| && a[..n] == b[..n]
        invariant Remaining() == a[n..] && other.Remaining() == b[n..]
        decreases |a| - n
      {
        var x := Next();
        var y := other.Next();
        if x.None? && y.None? {
          assert a == a[..n] && b == b[..n];
          return true;
        }
        if x.None? || y.None? || x != y {
          assert |a| == n || |b| == n || a[n] != b[n];
          return false;
        }
        n := n + 1;
      }
    }
  }

  /** The code points between two moving ends. */
  class CodePointIterator {
    const iter: CodeUnitIterator

    ghost predicate Valid()
      reads this, iter
    {
      iter.Valid()
    }

    constructor (slice: seq<unit>)
      ensures Valid() && fresh(iter) && iter.Remaining() == slice
    {
      iter := new CodeUnitIterator(slice);
    }

    /** The next code point is the first one of what remains. */
    method Next() returns (item: Option<codepoint>)
      requires Valid()
      modifies iter
      ensures Valid()
      ensures item.None? <==> old(iter.Remaining()) == []
      ensures item.None? ==> iter.Remaining() == []
      ensures item.Some? ==> Decode(old(iter.Remaining())) == [item.value] + Decode(iter.Remaining())
      ensures item.Some? ==> old(iter.Remaining()) == Encode(item.value) + iter.Remaining()
    {
      ghost var r := iter.Remaining();
      var first := iter.Next();
      if first.None? {
        return None;
      }
      if IsHigh(first.value) {
        var second := iter.Peek();
        if second.Some? && IsLow(second.value) {
          var _ := iter.Next();
          PairEncodes(first.value, second.value);
          assert r[2..] == r[1..][1..];
          return Some(FromPair(first.value, second.value));
        }
      }
      item := Some(first.value);
    }

    /** The code point at the back, as the code has it: after a surrogate pair it is the front of the
        iterator, not the back, that moves once more. */
    method NextBack() returns (item: Option<codepoint>)
      requires Valid()
      modifies iter
      ensures Valid()
      ensures item.None? <==> old(iter.Remaining()) == []
      ensures item.None? ==> iter.Remaining() == []
      ensures item.Some? ==>
                var r := old(iter.Remaining());
                item.value == CodePointBefore(r, |r|).0 && iter.Remaining() == AfterNextBack(r)
    {
      ghost var r := iter.Remaining();
      var last := iter.NextBack();
      if last.None? {
        return None;
      }
      if IsLow(last.value) {
        var previous := iter.PeekBack();
        if previous.Some? && IsHigh(previous.value) {
          var _ := iter.Next();
          assert r[..|r| - 1][1..] == r[1..|r| - 1];
          return Some(FromPair(previous.value, last.value));
        }
      }
      item := Some(last.value);
    }
  }

  /** What a call of the code point `next_back` leaves. */
  function AfterNextBack(s: seq<unit>): seq<unit>
    requires s != []
  {
    if CodePointBefore(s, |s|).1 == 2 then s[1..|s| - 1] else s[..|s| - 1]
  }

  /** One call leaves the string without its last code point, exactly if that is no surrogate pair or only
      copies of its high surrogate precede it. */
  lemma NextBackStep(s: seq<unit>)
    requires s != []
    ensures var (_, n) := CodePointBefore(s, |s|);
            AfterNextBack(s) == s[..|s| - n] <==> n == 1 || forall i | 0 < i < |s| - 1 :: s[i] == s[i - 1]
  {
    if CodePointBefore(s, |s|).1 == 2 {
      var left, right := s[1..|s| - 1], s[..|s| - 2];
      assert forall i | 0 <= i < |s| - 2 :: left[i] == s[i + 1] && right[i] == s[i];
      if left == right {
        forall i | 0 < i < |s| - 1 ensures s[i] == s[i - 1] {
          assert left[i - 1] == right[i - 1];
        }
      } else {
        var i :| 0 <= i < |left| && left[i] != right[i];
        assert s[i + 1] != s[i + 1 - 1];
      }
    }
  }

  /** What a whole reverse iteration yields. */
  function NextBackAll(s: seq<unit>): seq<codepoint>
    decreases |s|
  {
    if s == [] then [] else [CodePointBefore(s, |s|).0] + NextBackAll(AfterNextBack(s))
  }

  predicate PairAt(s: seq<unit>, p: nat) {
    p + 1 < |s| && Pairs(s[p], s[p + 1])
  }

  /** Every surrogate pair is preceded by nothing but copies of its own high surrogate. */
  ghost predicate PairOnlyAtFront(s: seq<unit>) {
    forall p: nat, i: nat {:trigger PairAt(s, p), s[i]} | PairAt(s, p) && i < p :: s[i] == s[p]
  }

  lemma {:induction false} BackwardsPrefix(s: seq<unit>, i: nat, j: nat)
    requires i <= j <= |s|
    ensures Backwards(s[..j], i) == Backwards(s, i)
    decreases i
  {
    if i > 0 {
      var n := CodePointBefore(s, i).1;
      BackwardsPrefix(s, i - n, j);
    }
  }

  /** A string whose front was lost instead of its last unit, a high surrogate, still reads the same
      backwards only if all its units are that surrogate. */
  lemma {:induction false} ShiftedReading(t: seq<unit>)
    requires t != [] && IsHigh(t[|t| - 1])
    ensures NextBackAll(t[1..]) == Backwards(t, |t| - 1) <==>
            forall i | 0 <= i < |t| :: t[i] == t[|t| - 1]
    decreases |t|
  {
    var m := |t|;
    if m > 1 {
      var high, back := t[m - 1], t[..m - 1];
      var (cp, n) := CodePointBefore(t, m - 1);
      assert AfterNextBack(t[1..]) == back[1..];
      SameCons(high, NextBackAll(back[1..]), cp, Backwards(t, m - 1 - n));
      if n == 2 {
        PairEncodes(t[m - 3], t[m - 2]);
        assert t[m - 2] != high;
      } else if cp == high {
        ShiftedReading(back);
        BackwardsPrefix(t, m - 2, m - 1);
        assert forall i | 0 <= i < m - 1 :: back[i] == t[i];
      } else {
        assert t[m - 2] != high;
      }
    }
  }

  lemma SameCons<T>(x: T, xs: seq<T>, y: T, ys: seq<T>)
    ensures [x] + xs == [y] + ys <==> x == y && xs == ys
  {
    if [x] + xs == [y] + ys {
      assert ([x] + xs)[0] == x && ([y] + ys)[0] == y;
      assert ([x] + xs)[1..] == xs && ([y] + ys)[1..] == ys;
    }
  }

  /** The reverse iteration yields the code points in reverse order exactly when every surrogate pair
      is preceded by nothing but copies of its own high surrogate. */
  lemma {:induction false} NextBackAllCorrect(s: seq<unit>)
    ensures NextBackAll(s) == Reverse(Decode(s)) <==> PairOnlyAtFront(s)
    decreases |s|
  {
    BackwardsIsReverse(s);
    var n := |s|;
    if n > 0 {
      var (cp, k) := CodePointBefore(s, n);
      var t := s[..n - 1];
      SameCons(cp, NextBackAll(AfterNextBack(s)), cp, Backwards(s, n - k));
      BackwardsPrefix(s, n - k, n - 1);
      if k == 1 {
        NextBackAllCorrect(t);
        BackwardsIsReverse(t);
        DropLast(s);
      } else {
        LastPairReads(s);
        LastPair(s);
      }
    }
  }

  lemma LastPairReads(s: seq<unit>)
    requires |s| >= 2 && PairAt(s, |s| - 2)
    ensures NextBackAll(s[1..|s| - 1]) == Backwards(s[..|s| - 1], |s| - 2) <==> forall i | 0 <= i < |s| - 1 :: s[i] == s[|s| - 2]
  {
    var t := s[..|s| - 1];
    assert t[1..] == s[1..|s| - 1] && t[|t| - 1] == s[|s| - 2];
    assert forall i | 0 <= i < |t| :: t[i] == s[i];
    ShiftedReading(t);
  }

  lemma DropLast(s: seq<unit>)
    requires |s| > 0 && CodePointBefore(s, |s|).1 == 1
    ensures PairOnlyAtFront(s) <==> PairOnlyAtFront(s[..|s| - 1])
  {
    var t := s[..|s| - 1];
    forall p: nat ensures PairAt(s, p) <==> PairAt(t, p) {}
    if PairOnlyAtFront(s) {
      forall p: nat, i: nat | PairAt(t, p) && i < p ensures t[i] == t[p] {
        assert PairAt(s, p) && s[i] == s[p];
      }
    }
    if PairOnlyAtFront(t) {
      forall p: nat, i: nat | PairAt(s, p) && i < p ensures s[i] == s[p] {
        assert PairAt(t, p) && t[i] == t[p];
      }
    }
  }

  lemma LastPair(s: seq<unit>)
    requires |s| >= 2 && PairAt(s, |s| - 2)
    ensures PairOnlyAtFront(s) <==> forall i | 0 <= i < |s| - 1 :: s[i] == s[|s| - 2]
  {
    var q := |s| - 2;
    if forall i | 0 <= i < |s| - 1 :: s[i] == s[q] {
      assert forall p: nat | PairAt(s, p) :: p == q;
    }
  }

  /** The simplest string that the reverse iteration gets wrong: a letter before a surrogate pair. */
  lemma NextBackAllExample()
    ensures var s := [0x61, 0xD800, 0xDC00];
            NextBackAll(s) == [0x1_0000, 0xD800] && Reverse(Decode(s)) == [0x1_0000, 0x61]
  {
    var s: seq<unit> := [0x61, 0xD800, 0xDC00];
    assert AfterNextBack(s) == [0xD800];
    assert AfterNextBack([0xD800]) == [];
    BackwardsIsReverse(s);
    assert Backwards(s, 3) == [0x1_0000] + Backwards(s, 1);
    assert Backwards(s, 1) == [0x61] + Backwards(s, 0);
  }
}
