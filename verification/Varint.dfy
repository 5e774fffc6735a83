/** Variable-length encoding of 64-bit numbers (`common/varint.rs`). */
module Varint {
  import opened Wrappers
  import opened Bits

  type u64 = v: int | 0 <= v < 0x1_0000_0000_0000_0000

  const TWO_64 := 0x1_0000_0000_0000_0000
  const MAX_LENGTH := 10

  // ----- The format -----

  /** Seven bits a byte, the lowest first; the top bit says that more follow. */
  function Encode(v: nat): (bytes: seq<byte>)
    ensures |bytes| > 0
  {
    if v < 0x80 then [v] else [0x80 + v % 0x80] + Encode(v / 0x80)
  }

  /** The number that a sequence of bytes stands for. */
  function Value(bytes: seq<byte>): nat {
    if bytes == [] then 0 else bytes[0] % 0x80 + 0x80 * Value(bytes[1..])
  }

  /** The length of the first encoding in a buffer: up to the first byte without a top bit. */
  function Extent(buf: seq<byte>): (n: Option<nat>)
    ensures n.Some? ==> 0 < n.value <= |buf|
  {
    if buf == [] then None
    else if buf[0] < 0x80 then Some(1)
    else
      var n := Extent(buf[1..]);
      if n.None? then None else Some(n.value + 1)
  }

  datatype Decoded = Decoded(value: nat, length: nat) | Panic

  /** There has to be an end within ten bytes; bits above the 64th are lost. */
  function Decode(buf: seq<byte>): Decoded {
    var n := Extent(buf);
    if n.Some? && n.value <= MAX_LENGTH then Decoded(Value(buf[..n.value]) % TWO_64, n.value) else Panic
  }

  // ----- The code -----

  method EncodeVarint(buf: seq<byte>, v: u64) returns (r: seq<byte>)
    ensures r == buf + Encode(v)
  {
    var value: nat := v;
    r := buf;
    while value >= 0x80
      invariant r + Encode(value) == buf + Encode(v)
    {
      LowBits(value);
      var low := SetTopBit(value % 0x100);
      EncodeNext(r, value, low);
      r := r + [low];
      value := value / 0x80;
    }
    r := r + [value];
  }

  lemma EncodeNext(r: seq<byte>, value: nat, low: byte)
    requires value >= 0x80 && low == 0x80 + value % 0x80
    ensures r + Encode(value) == r + [low] + Encode(value / 0x80)
  {
    Associative(r, [low], Encode(value / 0x80));
  }

  lemma LowBits(value: nat)
    ensures value % 0x100 % 0x80 == value % 0x80
  {}

  lemma Associative(a: seq<byte>, b: seq<byte>, c: seq<byte>)
    ensures a + (b + c) == a + b + c
  {}

  /** Setting the top bit of a byte. */
  method SetTopBit(b: byte) returns (r: byte)
    ensures r == 0x80 + b % 0x80
  {
    var top := 0x80;
    OrTopBit(b, top, 7);
    r := Or(b, top);
  }

  lemma OrTopBit(b: byte, top: nat, n: nat)
    requires n == 7 && top == 0x80
    ensures Or(b, top) == 0x80 + b % 0x80
  {
    var one := 1;
    Shl7(one, 1);
    assert Shl(one, n) == top;
    if b < 0x80 {
      OrOfDisjoint(b, one, n);
    } else {
      OrTop(b - 0x80, n);
    }
  }

  lemma {:induction false} OrTop(x: nat, n: nat)
    requires x < Shl(1, n)
    ensures Or(x + Shl(1, n), Shl(1, n)) == x + Shl(1, n)
  {
    if n > 0 {
      ShlOdd(1, n);
      OrTop(x / 2, n - 1);
    }
  }

  /** Panics without an end; also in the eleventh byte, where the shift exceeds the width of a word. */
  method DecodeVarint(buf: seq<byte>) returns (d: Decoded)
    ensures d == Decode(buf)
  {
    var value, shift: nat, i: nat := 0, 0, 0;
    assert buf[0..] == buf;
    while i < |buf|
      invariant i <= |buf| && shift == 7 * i && i <= MAX_LENGTH
      invariant forall j | 0 <= j < i :: buf[j] >= 0x80
      invariant value == Value(buf[..i]) % TWO_64
    {
      if shift >= 64 {
        LongExtent(buf, i);
        return Panic;
      }
      var b := buf[i];
      value := AppendByte(value, b, shift, buf, i);
      shift := shift + 7;
      i := i + 1;
      if b < 0x80 {
        ExtentIs(buf, i);
        return Decoded(value, i);
      }
    }
    if Extent(buf).Some? {
      LongExtent(buf, i);
    }
    return Panic;
  }

  method AppendByte(value: nat, b: byte, shift: nat, ghost buf: seq<byte>, ghost i: nat) returns (r: nat)
    requires i < |buf| && i < MAX_LENGTH && b == buf[i] && shift == 7 * i && value == Value(buf[..i]) % TWO_64
    ensures r == Value(buf[..i + 1]) % TWO_64
  {
    NextValue(buf[..i], b);
    FitsWord(buf[..i]);
    assert buf[..i + 1] == buf[..i] + [b];
    r := Join(value, b % 0x80, shift, i);
  }

  lemma FitsWord(bytes: seq<byte>)
    requires |bytes| < MAX_LENGTH
    ensures Value(bytes) % TWO_64 == Value(bytes)
  {
    var nine := 9;
    ValueBound(bytes);
    Pow128Order(|bytes|, nine);
    assert Pow128(nine) == 0x8000_0000_0000_0000;
  }

  /** Joining the next seven bits is addition, up to the loss of bits above the 64th. */
  method Join(value: nat, payload: nat, shift: nat, ghost i: nat) returns (r: nat)
    requires value < Pow128(i) && payload < 0x80 && i < MAX_LENGTH && shift == 7 * i
    ensures r == (value + Shl(payload, shift)) % TWO_64
  {
    ghost var kept := KeptBits(value, payload, i);
    Shl7(1, i);
    OrOfDisjoint(value, kept, shift);
    r := Or(value, Shl(payload, shift) % TWO_64);
  }

  // ----- Arithmetic -----

  function Pow128(n: nat): (p: nat)
    ensures p > 0
  {
    if n == 0 then 1 else 0x80 * Pow128(n - 1)
  }

  lemma {:induction false} Shl7(a: nat, n: nat)
    ensures Shl(a, 7 * n) == a * Pow128(n)
  {
    if n > 0 {
      Shl7(a, n - 1);
      ShlBy7(a, 7 * (n - 1));
    }
  }

  lemma {:induction false} Pow128Order(m: nat, n: nat)
    requires m <= n
    ensures Pow128(m) <= Pow128(n)
  {
    if m < n {
      Pow128Order(m, n - 1);
    }
  }

  lemma {:induction false} ValueBound(bytes: seq<byte>)
    ensures Value(bytes) < Pow128(|bytes|)
  {
    if bytes != [] {
      ValueBound(bytes[1..]);
    }
  }

  lemma {:induction false} ValueOfNext(bytes: seq<byte>, b: byte)
    ensures Value(bytes + [b]) == Value(bytes) + Shl(b % 0x80, 7 * |bytes|)
  {
    if bytes == [] {
      assert [b][1..] == [] && bytes + [b] == [b];
    } else {
      var n := 7 * (|bytes| - 1);
      ValueOfNext(bytes[1..], b);
      assert (bytes + [b])[1..] == bytes[1..] + [b];
      ShlBy7(b % 0x80, n);
      assert 7 * |bytes| == n + 7;
    }
  }

  /** The bits of a payload that fit in the word. */
  lemma KeptBits(value: nat, payload: nat, i: nat) returns (kept: nat)
    requires value < Pow128(i) && payload < 0x80 && i < MAX_LENGTH
    ensures Shl(payload, 7 * i) % TWO_64 == Shl(kept, 7 * i)
    ensures (value + Shl(payload, 7 * i)) % TWO_64 == value + Shl(kept, 7 * i)
  {
    var nine := 9;
    assert Pow128(nine) == 0x8000_0000_0000_0000;
    if i < 9 {
      kept := payload;
      PayloadFits(payload, i);
    } else {
      kept := payload % 2;
      Shl63(payload);
      Shl63(kept);
      Drop(payload / 2, kept * 0x8000_0000_0000_0000);
      Drop(payload / 2, value + kept * 0x8000_0000_0000_0000);
    }
  }

  lemma Drop(high: nat, low: nat)
    requires low < TWO_64
    ensures (high * TWO_64 + low) % TWO_64 == low
  {}

  lemma PayloadFits(payload: nat, i: nat)
    requires payload < 0x80 && i < 9
    ensures Shl(payload, 7 * i) + Pow128(i) <= Pow128(9)
  {
    var one, nine, n := 1, 9, 7 * i;
    Shl7(one, i);
    ShlAdd(payload, one, n);
    Shl7(0x80, i);
    ShlOrder(0x80, payload + 1, n);
    Pow128Order(i + 1, nine);
  }

  lemma Shl63(a: nat)
    ensures Shl(a, 63) == a * 0x8000_0000_0000_0000
  {
    var nine := 9;
    Shl7(a, nine);
  }

  lemma NextValue(bytes: seq<byte>, b: byte)
    ensures Value(bytes) < Pow128(|bytes|)
    ensures Value(bytes + [b]) == Value(bytes) + Shl(b % 0x80, 7 * |bytes|)
  {
    ValueOfNext(bytes, b);
    ValueBound(bytes);
  }

  lemma {:induction false} ExtentIs(buf: seq<byte>, n: nat)
    requires 0 < n <= |buf| && buf[n - 1] < 0x80 && forall j | 0 <= j < n - 1 :: buf[j] >= 0x80
    ensures Extent(buf) == Some(n)
  {
    if n > 1 {
      ExtentIs(buf[1..], n - 1);
    }
  }

  lemma {:induction false} LongExtent(buf: seq<byte>, n: nat)
    requires n <= |buf| && forall j | 0 <= j < n :: buf[j] >= 0x80
    ensures Extent(buf).None? || Extent(buf).value > n
  {
    if n > 0 {
      LongExtent(buf[1..], n - 1);
    }
  }

  // ----- Round trips -----

  lemma {:induction false} EncodeExtent(v: nat, rest: seq<byte>)
    ensures Extent(Encode(v) + rest) == Some(|Encode(v)|) && Value(Encode(v)) == v
  {
    if v >= 0x80 {
      EncodeExtent(v / 0x80, rest);
      assert (Encode(v) + rest)[1..] == Encode(v / 0x80) + rest;
      assert Encode(v)[1..] == Encode(v / 0x80);
    }
  }

  /** The length is the number of groups of seven bits. */
  lemma {:induction false} EncodeLength(v: nat, n: nat)
    requires n > 0
    ensures |Encode(v)| <= n <==> v < Pow128(n)
  {
    if v >= 0x80 && n > 1 {
      EncodeLength(v / 0x80, n - 1);
    } else if n > 1 {
      Pow128Order(1, n);
    }
  }

  /** Decoding undoes encoding, whatever follows, and the length is 1 to 10. */
  lemma DecodeEncode(v: u64, rest: seq<byte>)
    ensures Decode(Encode(v) + rest) == Decoded(v, |Encode(v)|) && 1 <= |Encode(v)| <= MAX_LENGTH
  {
    EncodeExtent(v, rest);
    var ten := MAX_LENGTH;
    assert Pow128(9) == 0x8000_0000_0000_0000;
    EncodeLength(v, ten);
    assert (Encode(v) + rest)[..|Encode(v)|] == Encode(v);
  }

  function EncodeAll(vs: seq<u64>): seq<byte> {
    if vs == [] then [] else Encode(vs[0]) + EncodeAll(vs[1..])
  }

  /** Decode a number of values, one after the other; also gives what is left. */
  function DecodeAll(buf: seq<byte>, count: nat): Option<(seq<nat>, seq<byte>)> {
    if count == 0 then Some(([], buf))
    else
      var d := Decode(buf);
      if d.Panic? then None
      else
        var rest := DecodeAll(buf[d.length..], count - 1);
        if rest.None? then None else Some(([d.value] + rest.value.0, rest.value.1))
  }

  /** A list comes back from its concatenated encodings, whatever follows. */
  lemma {:induction false} DecodeAllEncodeAll(vs: seq<u64>, rest: seq<byte>)
    ensures DecodeAll(EncodeAll(vs) + rest, |vs|) == Some((vs, rest))
  {
    if vs == [] {
      assert EncodeAll(vs) + rest == rest;
    } else {
      var tail := EncodeAll(vs[1..]) + rest;
      assert EncodeAll(vs) + rest == Encode(vs[0]) + tail;
      DecodeAllEncodeAll(vs[1..], rest);
      DecodeAllNext(vs[0], tail, |vs| - 1);
      assert vs == [vs[0]] + vs[1..];
    }
  }

  lemma DecodeAllNext(v: u64, tail: seq<byte>, count: nat)
    requires DecodeAll(tail, count).Some?
    ensures DecodeAll(Encode(v) + tail, count + 1)
         == Some(([v] + DecodeAll(tail, count).value.0, DecodeAll(tail, count).value.1))
  {
    DecodeEncode(v, tail);
    assert (Encode(v) + tail)[|Encode(v)|..] == tail;
  }

  /** No encoding is a proper prefix of another. */
  lemma PrefixFree(v: u64, w: u64)
    requires Encode(v) <= Encode(w)
    ensures v == w
  {
    var rest := Encode(w)[|Encode(v)|..];
    assert Encode(w) == Encode(v) + rest;
    DecodeEncode(v, rest);
    assert Encode(w) == Encode(w) + [];
    DecodeEncode(w, []);
  }

  /** What was decoded is encoded back to the same bytes exactly if these were the shortest and fit a word. */
  lemma ReencodeIff(buf: seq<byte>)
    requires Decode(buf).Decoded?
    ensures var d := Decode(buf);
            Encode(d.value) == buf[..d.length] <==>
              Value(buf[..d.length]) < TWO_64 && (d.length == 1 || buf[d.length - 1] != 0)
  {
    var d, used := Decode(buf), buf[..Decode(buf).length];
    ExtentOfPrefix(buf);
    if Encode(d.value) == used {
      EncodeExtent(d.value, []);
      LastOfEncode(d.value);
    }
    if Value(used) < TWO_64 && (d.length == 1 || buf[d.length - 1] != 0) {
      EncodeValue(used);
    }
  }

  lemma {:induction false} ExtentOfPrefix(buf: seq<byte>)
    requires Extent(buf).Some?
    ensures Extent(buf[..Extent(buf).value]) == Extent(buf)
  {
    if buf[0] >= 0x80 {
      ExtentOfPrefix(buf[1..]);
      assert buf[..Extent(buf).value][1..] == buf[1..][..Extent(buf[1..]).value];
    }
  }

  lemma {:induction false} LastOfEncode(v: nat)
    ensures var e := Encode(v); |e| == 1 || e[|e| - 1] != 0
  {
    if v >= 0x80 {
      LastOfEncode(v / 0x80);
    }
  }

  lemma {:induction false} EncodeValue(bytes: seq<byte>)
    requires Extent(bytes) == Some(|bytes|) && (|bytes| == 1 || bytes[|bytes| - 1] != 0)
    ensures Encode(Value(bytes)) == bytes && (|bytes| > 1 ==> Value(bytes) > 0)
  {
    if |bytes| > 1 {
      EncodeValue(bytes[1..]);
      assert bytes == [bytes[0]] + bytes[1..];
      assert Value(bytes[1..]) > 0;
    }
  }
}
