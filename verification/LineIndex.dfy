/** Line and column numbers (`parser/loc.rs`) and the source that caches its line index (`parser/source.rs`). */
module LineIndex {
  import opened Wrappers
  import opened Bits

  const LF: byte := 0x0A
  const TWO_32 := 0x1_0000_0000

  // ----- Lines -----

  /** Where the lines start that start at or before position n: at 0 and after each line feed. */
  function Starts(source: seq<byte>, n: nat): (r: seq<nat>)
    requires n <= |source|
    ensures |r| > 0 && forall i | 0 <= i < |r| :: r[i] <= n
  {
    if n == 0 then [0] else Starts(source, n - 1) + (if source[n - 1] == LF then [n] else [])
  }

  function Offsets(source: seq<byte>): seq<nat> {
    Starts(source, |source|)
  }

  function LfCount(bytes: seq<byte>): nat {
    if bytes == [] then 0 else LfCount(bytes[..|bytes| - 1]) + (if bytes[|bytes| - 1] == LF then 1 else 0)
  }

  /** No line feed in source[m..n], and one just before unless m is 0. */
  ghost predicate IsLineStart(source: seq<byte>, m: nat, n: nat) {
    m <= n <= |source| && (m == 0 || source[m - 1] == LF) && LF !in source[m..n]
  }

  lemma {:induction false} StartsFacts(source: seq<byte>, n: nat)
    requires n <= |source|
    ensures var s := Starts(source, n);
            && |s| == 1 + LfCount(source[..n])
            && s[0] == 0
            && IsLineStart(source, s[|s| - 1], n)
            && forall i, j | 0 <= i < j < |s| :: s[i] < s[j]
  {
    if n > 0 {
      StartsFacts(source, n - 1);
      assert source[..n][..n - 1] == source[..n - 1];
      var s := Starts(source, n - 1);
      LineGrows(source, s[|s| - 1], n);
    }
  }

  lemma LineGrows(source: seq<byte>, m: nat, n: nat)
    requires 0 < n <= |source| && IsLineStart(source, m, n - 1)
    ensures if source[n - 1] == LF then IsLineStart(source, n, n) else IsLineStart(source, m, n)
  {
    assert source[m..n] == source[m..n - 1] + [source[n - 1]];
  }

  /** The starts are exactly 0 and each position after a line feed. */
  lemma {:induction false} StartsMembers(source: seq<byte>, n: nat, p: nat)
    requires n <= |source|
    ensures p in Starts(source, n) <==> p <= n && (p == 0 || source[p - 1] == LF)
  {
    if n > 0 {
      StartsMembers(source, n - 1, p);
    }
  }

  lemma {:induction false} StartsPrefix(source: seq<byte>, m: nat, n: nat)
    requires m <= n <= |source|
    ensures Starts(source, m) <= Starts(source, n)
    ensures forall i | |Starts(source, m)| <= i < |Starts(source, n)| :: Starts(source, n)[i] > m
  {
    if m < n {
      StartsPrefix(source, m, n - 1);
    }
  }

  // ----- Calculating the index -----

  function Truncated(offsets: seq<nat>): seq<nat> {
    seq(|offsets|, i requires 0 <= i < |offsets| => offsets[i] % TWO_32)
  }

  /** The index in words of 32 bits. */
  method CalculateLineOffsets(source: seq<byte>) returns (offsets: seq<nat>)
    ensures offsets == Truncated(Offsets(source))
  {
    offsets := [0];
    var pos := 0;
    while true
      invariant pos <= |source| && offsets == Truncated(Starts(source, pos))
      decreases |source| - pos
    {
      var newline := FindLf(source, pos);
      if newline == |source| {
        SameStarts(source, pos, |source|);
        break;
      }
      SameStarts(source, pos, newline);
      pos := newline + 1;
      offsets := offsets + [pos % TWO_32];
    }
  }

  /** The position of the next line feed, or the end. */
  method FindLf(source: seq<byte>, pos: nat) returns (i: nat)
    requires pos <= |source|
    ensures pos <= i <= |source| && LF !in source[pos..i]
    ensures i < |source| ==> source[i] == LF
  {
    i := pos;
    while i < |source| && source[i] != LF
      invariant pos <= i <= |source| && LF !in source[pos..i]
    {
      assert source[pos..i + 1] == source[pos..i] + [source[i]];
      i := i + 1;
    }
  }

  lemma {:induction false} SameStarts(source: seq<byte>, m: nat, n: nat)
    requires m <= n <= |source| && LF !in source[m..n]
    ensures Starts(source, n) == Starts(source, m)
  {
    if m < n {
      assert source[m..n][n - 1 - m] == source[n - 1];
      assert source[m..n] == source[m..n - 1] + [source[n - 1]];
      SameStarts(source, m, n - 1);
    }
  }

  /** Below the size limit nothing is truncated. */
  lemma NothingIsTruncated(source: seq<byte>)
    requires |source| < TWO_32
    ensures Truncated(Offsets(source)) == Offsets(source)
  {}

  // ----- Finding a line -----

  method FindLargestOffsetLessThanOrEqual(target: nat, offsets: seq<nat>) returns (line: nat)
    requires offsets != [] && offsets[0] <= target
    requires forall i, j | 0 <= i < j < |offsets| :: offsets[i] < offsets[j]
    ensures line < |offsets| && offsets[line] <= target
    ensures line + 1 < |offsets| ==> target < offsets[line + 1]
  {
    var lo, hi := 0, |offsets|;
    while lo < hi
      invariant lo <= hi <= |offsets|
      invariant forall i | 0 <= i < lo :: offsets[i] <= target
      invariant forall i | hi <= i < |offsets| :: offsets[i] > target
    {
      var mid := (lo + hi) / 2;
      if offsets[mid] < target + 1 {
        lo := mid + 1;
      } else {
        hi := mid;
      }
    }
    line := lo - 1;
  }

  /** One more than the line feeds before the position, and one more than the bytes since the last of them. */
  method FindLineColForPos(pos: nat, offsets: seq<nat>, ghost source: seq<byte>) returns (line: nat, col: nat)
    requires offsets == Offsets(source)
    ensures var p := if pos <= |source| then pos else |source|;
            line == 1 + LfCount(source[..p]) && 1 <= col <= pos + 1 && IsLineStart(source, pos - (col - 1), p)
  {
    StartsFacts(source, |source|);
    var index := FindLargestOffsetLessThanOrEqual(pos, offsets);
    LineOf(source, if pos <= |source| then pos else |source|, index);
    line, col := index + 1, pos - offsets[index] + 1;
  }

  lemma LineOf(source: seq<byte>, pos: nat, index: nat)
    requires pos <= |source| && index < |Offsets(source)| && Offsets(source)[index] <= pos
    requires index + 1 < |Offsets(source)| ==> pos < Offsets(source)[index + 1]
    ensures index == LfCount(source[..pos]) && IsLineStart(source, Offsets(source)[index], pos)
  {
    StartsFacts(source, |source|);
    StartsFacts(source, pos);
    StartsPrefix(source, pos, |source|);
    var s, all := Starts(source, pos), Offsets(source);
    assert forall i | 0 <= i < |s| :: all[i] == s[i];
  }

  // ----- The source -----

  /** The bytes of a line, without its line feed. */
  function Line(source: seq<byte>, i: nat): seq<byte>
    requires i < |Offsets(source)|
  {
    var offsets := Offsets(source);
    LineBounds(source, i);
    source[offsets[i]..LineEnd(source, i)]
  }

  function LineEnd(source: seq<byte>, i: nat): int
    requires i < |Offsets(source)|
  {
    if i + 1 < |Offsets(source)| then Offsets(source)[i + 1] - 1 else |source|
  }

  lemma LineBounds(source: seq<byte>, i: nat)
    requires i < |Offsets(source)|
    ensures Offsets(source)[i] <= LineEnd(source, i) <= |source|
    ensures i + 1 < |Offsets(source)| ==> LineEnd(source, i) < |source| && source[LineEnd(source, i)] == LF
  {
    StartsFacts(source, |source|);
    if i + 1 < |Offsets(source)| {
      StartsMembers(source, |source|, Offsets(source)[i + 1]);
    }
  }

  /** The lines with line feeds between them. */
  function Join(lines: seq<seq<byte>>): seq<byte>
    requires lines != []
  {
    if |lines| == 1 then lines[0] else lines[0] + [LF] + Join(lines[1..])
  }

  /** The lines from the i-th. */
  function Lines(source: seq<byte>, i: nat): seq<seq<byte>>
    requires i < |Offsets(source)|
    decreases |Offsets(source)| - i
  {
    [Line(source, i)] + if i + 1 < |Offsets(source)| then Lines(source, i + 1) else []
  }

  lemma {:induction false} JoinFrom(source: seq<byte>, i: nat)
    requires i < |Offsets(source)|
    ensures Offsets(source)[i] <= |source| && Join(Lines(source, i)) == source[Offsets(source)[i]..]
    decreases |Offsets(source)| - i
  {
    LineBounds(source, i);
    if i + 1 < |Offsets(source)| {
      JoinFrom(source, i + 1);
      assert Lines(source, i)[1..] == Lines(source, i + 1);
      SplitAt(source, Offsets(source)[i], LineEnd(source, i));
    }
  }

  lemma SplitAt(bytes: seq<byte>, m: nat, n: nat)
    requires m <= n < |bytes|
    ensures bytes[m..] == bytes[m..n] + [bytes[n]] + bytes[n + 1..]
  {}

  /** The lines, joined with line feeds, are the source. */
  lemma LinesRebuildSource(source: seq<byte>)
    ensures Join(Lines(source, 0)) == source
  {
    StartsFacts(source, |source|);
    JoinFrom(source, 0);
  }

  /** No line starts inside a line or at its line feed. */
  lemma NoOffsetInside(source: seq<byte>, i: nat, p: nat)
    requires i < |Offsets(source)| && Offsets(source)[i] < p <= LineEnd(source, i)
    ensures p !in Offsets(source)
  {
    StartsFacts(source, |source|);
    var offsets := Offsets(source);
    forall j | 0 <= j < |offsets|
      ensures offsets[j] != p
    {}
  }

  /** No line holds a line feed. */
  lemma NoLfInLine(source: seq<byte>, i: nat)
    requires i < |Offsets(source)|
    ensures LF !in Line(source, i)
  {
    LineBounds(source, i);
    var offsets, end := Offsets(source), LineEnd(source, i);
    StartsFacts(source, |source|);
    forall p | offsets[i] <= p < end
      ensures source[p] != LF
    {
      StartsMembers(source, |source|, p + 1);
      NoOffsetInside(source, i, p + 1);
    }
  }

  const MAX_U32 := 0xFFFF_FFFF

  class Source {
    const contents: seq<byte>
    var lineOffsets: Option<seq<nat>>

    ghost predicate Valid()
      reads this
    {
      |contents| < MAX_U32 && (lineOffsets.Some? ==> lineOffsets.value == Offsets(contents))
    }

    constructor (contents: seq<byte>)
      requires |contents| < MAX_U32
      ensures Valid() && this.contents == contents
    {
      this.contents := contents;
      lineOffsets := None;
    }

    /** A source that is too large is an error. */
    static method NewForString(contents: seq<byte>) returns (source: Option<Source>)
      ensures source.None? <==> |contents| >= MAX_U32
      ensures source.Some? ==> fresh(source.value) && source.value.Valid() && source.value.contents == contents
    {
      if |contents| >= MAX_U32 {
        return None;
      }
      var s := new Source(contents);
      return Some(s);
    }

    /** The index is calculated on first use only. */
    method GetLineOffsets() returns (offsets: seq<nat>)
      requires Valid()
      modifies `lineOffsets
      ensures Valid() && lineOffsets == Some(offsets) && offsets == Offsets(contents)
      ensures old(lineOffsets).Some? ==> lineOffsets == old(lineOffsets)
    {
      if lineOffsets.None? {
        var calculated := CalculateLineOffsets(contents);
        NothingIsTruncated(contents);
        lineOffsets := Some(calculated);
      }
      offsets := lineOffsets.value;
    }

    /** None is the panic on a line that does not exist. */
    method GetLine(line: nat) returns (r: Option<seq<byte>>)
      requires Valid()
      modifies `lineOffsets
      ensures Valid()
      ensures r == if line < |Offsets(contents)| then Some(Line(contents, line)) else None
    {
      var offsets := GetLineOffsets();
      if line >= |offsets| {
        return None;
      }
      LineBounds(contents, line);
      var end := if line + 1 < |offsets| then offsets[line + 1] - 1 else |contents|;
      r := Some(contents[offsets[line]..end]);
    }
  }
}
