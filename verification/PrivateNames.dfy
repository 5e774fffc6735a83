/** The collection of a class's private names (`collect_class_private_names` in `parser/analyze.rs`). */
module PrivateNames {
  import opened Wrappers
  import opened Ast

  datatype Usage = Usage(isStatic: bool, hasGetter: bool, hasSetter: bool)

  datatype Collected = Collected(names: map<Name, Usage>, errors: seq<Error>, hasPair: bool)

  predicate IsAccessor(e: Element) {
    e.Method? && e.privateName.Some? && (e.methodKind == Get || e.methodKind == Set)
  }

  /** The usage recorded for the first declaration of a name. */
  function FirstUsage(e: Element): Usage {
    if e.Field? then Usage(false, true, true)
    else Usage(e.isStatic, e.methodKind != Set, e.methodKind != Get)
  }

  /** The usage after a further declaration of a name. */
  function NextUsage(u: Usage, e: Element): Usage {
    if e.Method? && e.methodKind == Get then u.(hasGetter := true)
    else if e.Method? && e.methodKind == Set then u.(hasSetter := true)
    else u
  }

  /** Whether a further declaration of a name is reported. */
  predicate IsDuplicate(u: Usage, e: Element) {
    if e.Method? && e.methodKind == Get then u.hasGetter || e.isStatic != u.isStatic
    else if e.Method? && e.methodKind == Set then u.hasSetter || e.isStatic != u.isStatic
    else true
  }

  function Step(c: Collected, e: Element): Collected {
    if e.privateName.None? then c
    else
      var n := e.privateName.value;
      var constructorError := if n == "#constructor" then [PrivateNameConstructor] else [];
      if n !in c.names then
        Collected(c.names[n := FirstUsage(e)], c.errors + constructorError, c.hasPair)
      else
        var u := NextUsage(c.names[n], e);
        var duplicate := if IsDuplicate(c.names[n], e) then [DuplicatePrivateName] else [];
        Collected(c.names[n := u], c.errors + duplicate + constructorError,
                  c.hasPair || (e.Method? && u.hasGetter && u.hasSetter))
  }

  /** The state of the collection after a sequence of class elements. */
  function Collect(es: seq<Element>): Collected {
    if es == [] then Collected(map[], [], false)
    else Step(Collect(es[..|es| - 1]), es[|es| - 1])
  }

  predicate HasAccessor(es: seq<Element>, n: Name) {
    exists e <- es :: IsAccessor(e) && e.privateName == Some(n)
  }

  /** The element at index i after the pass that marks the first part of every accessor pair. */
  function Marked(es: seq<Element>, c: Collected, i: nat): Element
    requires i < |es|
  {
    var e := es[i];
    if c.hasPair && IsAccessor(e) && e.privateName.value in c.names
       && c.names[e.privateName.value].hasGetter && c.names[e.privateName.value].hasSetter
       && !HasAccessor(es[..i], e.privateName.value)
    then e.(isPairStart := true) else e
  }

  function MarkPairs(es: seq<Element>): seq<Element> {
    seq(|es|, i requires 0 <= i < |es| => Marked(es, Collect(es), i))
  }

  method CollectPrivateNames(es: seq<Element>) returns (names: map<Name, Usage>, errors: seq<Error>, body: seq<Element>)
    ensures Collect(es) == Collected(names, errors, Collect(es).hasPair)
    ensures body == MarkPairs(es)
  {
    names := map[];
    errors := [];
    var hasPair := false;
    for i := 0 to |es|
      invariant Collected(names, errors, hasPair) == Collect(es[..i])
    {
      assert es[..i + 1][..i] == es[..i];
      var e := es[i];
      if e.privateName.Some? {
        var n := e.privateName.value;
        if n !in names {
          names := names[n := FirstUsage(e)];
        } else {
          var duplicate := IsDuplicate(names[n], e);
          names := names[n := NextUsage(names[n], e)];
          if e.Method? && names[n].hasGetter && names[n].hasSetter {
            hasPair := true;
          }
          if duplicate {
            errors := errors + [DuplicatePrivateName];
          }
        }
        if n == "#constructor" {
          errors := errors + [PrivateNameConstructor];
        }
      }
    }
    assert es[..|es|] == es;
    body := es;
    if hasPair {
      var marked: set<Name> := {};
      body := [];
      for i := 0 to |es|
        invariant |body| == i
        invariant forall j | 0 <= j < i :: body[j] == Marked(es, Collect(es), j)
        invariant forall n :: n in marked <==> n in names && names[n].hasGetter && names[n].hasSetter && HasAccessor(es[..i], n)
      {
        var e := es[i];
        assert es[..i + 1] == es[..i] + [e];
        if IsAccessor(e) && e.privateName.value in names && names[e.privateName.value].hasGetter
           && names[e.privateName.value].hasSetter {
          if e.privateName.value !in marked {
            marked := marked + {e.privateName.value};
            e := e.(isPairStart := true);
          }
        }
        body := body + [e];
      }
    }
  }

  // ----- The rule of section 15.7.1 of ECMA-262 -----

  /** The declarations of one name, in order. */
  function Declarations(es: seq<Element>, n: Name): seq<Element> {
    if es == [] then []
    else
      Declarations(es[..|es| - 1], n)
      + if es[|es| - 1].privateName == Some(n) then [es[|es| - 1]] else []
  }

  /** A getter and a setter with the same placement. */
  predicate Partners(a: Element, b: Element) {
    && a.Method? && b.Method? && a.isStatic == b.isStatic
    && ((a.methodKind == Get && b.methodKind == Set) || (a.methodKind == Set && b.methodKind == Get))
  }

  /** A name is declared once, or once by a getter and once by a setter with the same placement. */
  predicate Legal(ds: seq<Element>) {
    |ds| <= 1 || (|ds| == 2 && Partners(ds[0], ds[1]))
  }

  ghost predicate NamesAreUnique(es: seq<Element>) {
    forall n :: Legal(Declarations(es, n))
  }

  /** What is recorded for a legally declared name. */
  function UsageOf(ds: seq<Element>): Usage
    requires ds != []
  {
    if |ds| == 1 then FirstUsage(ds[0]) else Usage(FirstUsage(ds[0]).isStatic, true, true)
  }

  ghost predicate Records(c: Collected, n: Name, ds: seq<Element>) {
    && (n in c.names <==> ds != [])
    && (n in c.names && Legal(ds) ==> c.names[n] == UsageOf(ds))
  }

  ghost predicate ReportsDuplicate(es: seq<Element>) {
    DuplicatePrivateName in Collect(es).errors
  }

  lemma {:induction false} CollectRecords(es: seq<Element>, n: Name)
    ensures Records(Collect(es), n, Declarations(es, n))
  {
    if es != [] {
      CollectRecords(es[..|es| - 1], n);
    }
  }

  /** A duplicate is reported exactly when some name is neither unique nor a getter-setter pair. */
  lemma {:induction false} DuplicatesAreReported(es: seq<Element>)
    ensures ReportsDuplicate(es) <==> !NamesAreUnique(es)
  {
    if es == [] {
      assert forall n :: Declarations(es, n) == [];
    } else {
      var p, e := es[..|es| - 1], es[|es| - 1];
      DuplicatesAreReported(p);
      if e.privateName.None? {
        assert forall n :: Declarations(es, n) == Declarations(p, n);
      } else {
        var n := e.privateName.value;
        CollectRecords(p, n);
        assert forall m | m != n :: Declarations(es, m) == Declarations(p, m);
        assert Declarations(es, n) == Declarations(p, n) + [e];
        if NamesAreUnique(p) {
          assert Legal(Declarations(p, n));
        } else {
          var m :| !Legal(Declarations(p, m));
          assert !Legal(Declarations(es, m));
        }
      }
    }
  }

  lemma {:induction false} DeclarationIndex(es: seq<Element>, n: Name, i: nat) returns (k: nat)
    requires i < |es| && es[i].privateName == Some(n)
    ensures k < |Declarations(es, n)| && Declarations(es, n)[k] == es[i]
    ensures Declarations(es[..i], n) == Declarations(es, n)[..k]
    decreases |es|
  {
    var p := es[..|es| - 1];
    if i == |es| - 1 {
      k := |Declarations(p, n)|;
    } else {
      k := DeclarationIndex(p, n, i);
      assert p[..i] == es[..i];
    }
  }

  lemma {:induction false} DeclarationAt(es: seq<Element>, n: Name, k: nat) returns (i: nat)
    requires k < |Declarations(es, n)|
    ensures i < |es| && es[i].privateName == Some(n) && es[i] == Declarations(es, n)[k]
    decreases |es|
  {
    var p := es[..|es| - 1];
    if k < |Declarations(p, n)| {
      i := DeclarationAt(p, n, k);
    } else {
      i := |es| - 1;
    }
  }

  lemma UniquePrefix(es: seq<Element>)
    requires es != [] && NamesAreUnique(es)
    ensures NamesAreUnique(es[..|es| - 1])
  {
    var p := es[..|es| - 1];
    forall n ensures Legal(Declarations(p, n)) {
      assert Legal(Declarations(es, n));
    }
  }

  lemma {:induction false} PairIsNoticed(es: seq<Element>, n: Name)
    requires NamesAreUnique(es) && |Declarations(es, n)| == 2
    ensures Collect(es).hasPair
  {
    var p, e := es[..|es| - 1], es[|es| - 1];
    UniquePrefix(es);
    if e.privateName == Some(n) {
      CollectRecords(p, n);
      assert Legal(Declarations(es, n));
    } else {
      PairIsNoticed(p, n);
    }
  }

  /** Some accessor of the same name follows. */
  ghost predicate PartnerFollows(es: seq<Element>, i: nat)
    requires i < |es|
  {
    exists j | i < j < |es| :: IsAccessor(es[j]) && es[j].privateName == es[i].privateName
  }

  /** In a class without duplicates exactly the accessors whose partner appears later are marked. */
  lemma PairStartsAreMarked(es: seq<Element>, i: nat)
    requires NamesAreUnique(es) && i < |es| && (es[i].Method? ==> !es[i].isPairStart)
    ensures var e := MarkPairs(es)[i];
            e.Method? && e.isPairStart <==> IsAccessor(es[i]) && PartnerFollows(es, i)
  {
    if IsAccessor(es[i]) {
      var n := es[i].privateName.value;
      var ds := Declarations(es, n);
      assert Legal(ds);
      CollectRecords(es, n);
      var k := DeclarationIndex(es, n, i);
      if PartnerFollows(es, i) {
        var j :| i < j < |es| && IsAccessor(es[j]) && es[j].privateName == es[i].privateName;
        FirstOfTwo(es, n, i, j);
        PairIsNoticed(es, n);
        if HasAccessor(es[..i], n) {
          var m :| 0 <= m < i && IsAccessor(es[..i][m]) && es[..i][m].privateName == Some(n);
          var _ := DeclarationIndex(es[..i], n, m);
        }
      } else if |ds| == 2 {
        var j := DeclarationAt(es, n, 1 - k);
        assert j < i;
        assert es[..i][j] == es[j];
      }
    }
  }

  lemma FirstOfTwo(es: seq<Element>, n: Name, i: nat, j: nat)
    requires NamesAreUnique(es) && i < j < |es|
    requires es[i].privateName == Some(n) && es[j].privateName == Some(n)
    ensures |Declarations(es, n)| == 2 && Declarations(es[..i], n) == []
  {
    assert Legal(Declarations(es, n));
    var k := DeclarationIndex(es, n, j);
    var m := DeclarationIndex(es[..j], n, i);
    assert es[..j][..i] == es[..i];
  }
}
