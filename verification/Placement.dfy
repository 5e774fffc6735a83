/**
 Rules about places: what may stand in strict code, in a method, in a constructor, in parameters, in a class
 initializer. They are stated on the syntax tree alone, in terms of what is around a node, and analysis is
 proved to report each of these errors exactly when its rule is broken in what it visits.
 */
module Placement {
  import opened Wrappers
  import opened Ast
  import opened Analysis
  import opened EarlyErrors
  import PrivateNames

  /** What is around a node. */
  datatype Place = Place(
    inStrict: bool,       // strict code
    inInitializer: bool,  // a field initializer or static block, maybe through arrow functions
    inFunction: bool,     // some function or initializer, arrow functions apart
    inMethod: bool,       // a method or initializer, maybe through arrow functions
    inDerived: bool,      // the constructor of a class with heritage, maybe through arrow functions
    inBody: bool,         // a function that can be returned from
    inParameters: bool,   // the parameters of the innermost function
    inStaticBlock: bool,  // directly a static block
    inClass: bool,        // the elements of a class
    declared: set<Name>)  // the private names of all classes around
  {
    function EnterFunction(kind: FunctionKind, isStrict: bool): Place {
      var isArrow := kind.ArrowFunction?;
      Place(inStrict || isStrict, isArrow && inInitializer, !isArrow || inFunction, kind.ObjectMethod? || (isArrow && inMethod),
            isArrow && inDerived, true, false, false, inClass, declared)
    }

    function EnterMethod(kind: MethodKind, isStrict: bool, hasHeritage: bool): Place {
      var isBlock := kind == StaticInitializer;
      Place(inStrict || isStrict, isBlock, true, true, kind == Constructor && hasHeritage, !isBlock, false, isBlock, inClass, declared)
    }

    function EnterField(): Place {
      this.(inInitializer := true, inFunction := true, inMethod := true, inDerived := false, inStaticBlock := false)
    }

    ghost function EnterElements(es: seq<Element>): Place {
      this.(inClass := true, declared := declared + Declared(es))
    }
  }

  function AtTop(isStrict: bool): Place {
    Place(isStrict, false, false, false, false, false, false, false, false, {})
  }

  ghost function Declared(es: seq<Element>): set<Name> {
    set e | e in es && e.privateName.Some? :: e.privateName.value
  }

  // ----- The rules -----

  /** What is looked at: everything, or what is visited, or the rest, which is the options of imports. */
  datatype Part = All | Visited | Options

  /** The early errors of ECMA-262 that depend on what is around a node, for the node itself. */
  predicate OperatorBreaks(op: Operator, p: Place, error: Error) {
    match error
    case ArgumentsInClassInitializer => p.inInitializer && (op == Ident("arguments") || op == Binding("arguments"))
    case AssignEvalInStrictMode => p.inStrict && op == Binding("eval")
    case AssignArgumentsInStrictMode => p.inStrict && !p.inInitializer && op == Binding("arguments")
    case SuperPropertyOutsideMethod => op.SuperMember? && !p.inMethod
    case SuperCallOutsideDerivedConstructor => op.SuperCall? && !p.inDerived
    case NewTargetOutsideFunction => op.NewTarget? && !p.inFunction
    case AwaitInParameters => op.Await? && p.inParameters
    case AwaitInStaticInitializer => op.Await? && p.inStaticBlock && !p.inParameters
    case YieldInParameters => op.Yield? && p.inParameters
    case PrivateNameOutsideClass => op.PrivateUse? && !p.inClass
    case PrivateNameNotDefined => op.PrivateUse? && p.inClass && op.name !in p.declared
    case _ => false
  }

  /** A function or class may not be called eval or arguments in strict code. */
  predicate NameBreaks(name: Option<Name>, strict: bool, error: Error) {
    strict && ((name == Some("eval") && error.AssignEvalInStrictMode?) || (name == Some("arguments") && error.AssignArgumentsInStrictMode?))
  }

  predicate NestBreaks(kind: NestKind, p: Place, error: Error) {
    match error
    case WithInStrictMode => kind.With? && p.inStrict
    case ReturnOutsideFunction => kind.Return? && !p.inBody
    case _ => false
  }

  ghost predicate NamesBreak(es: seq<Element>, error: Error) {
    match error
    case DuplicatePrivateName => !PrivateNames.NamesAreUnique(es)
    case PrivateNameConstructor => exists e <- es :: e.privateName == Some("#constructor")
    case _ => false
  }

  // ----- Trees that break a rule somewhere -----

  ghost predicate ExprBreaks(e: Expr, p: Place, error: Error, part: Part) {
    match e
    case Op(op, operands) => (!part.Options? && OperatorBreaks(op, p, error)) || ExprsBreak(operands, p, error, part)
    case Function(kind, func) =>
      var inner := p.EnterFunction(kind, func.isStrict);
      || (!part.Options? && !kind.ObjectMethod? && NameBreaks(func.name, inner.inStrict, error))
      || FuncBreaks(func, inner, error, part)
    case ClassExpr(cls) => ClassBreaks(cls, p.(inStrict := true), error, part)
    case Import(source, options) => ExprBreaks(source, p, error, part) || (!part.Visited? && ExprsBreak(options, p, error, All))
  }

  ghost predicate ExprsBreak(es: seq<Expr>, p: Place, error: Error, part: Part) {
    es != [] && (ExprBreaks(es[0], p, error, part) || ExprsBreak(es[1..], p, error, part))
  }

  ghost predicate OuterBreaks(o: Outer, p: Place, error: Error, part: Part) {
    ExprBreaks(o.expr, p, error, part)
  }

  ghost predicate OutersBreak(os: seq<Outer>, p: Place, error: Error, part: Part) {
    os != [] && (OuterBreaks(os[0], p, error, part) || OutersBreak(os[1..], p, error, part))
  }

  ghost predicate FuncBreaks(func: Func, p: Place, error: Error, part: Part) {
    OutersBreak(func.params, p.(inParameters := true), error, part) || StmtBreaks(func.body, p, error, part)
  }

  ghost predicate ClassBreaks(cls: Class, p: Place, error: Error, part: Part) {
    || (!part.Options? && (NameBreaks(cls.name, true, error) || NamesBreak(cls.elements, error)))
    || OutersBreak(cls.heritage, p, error, part)
    || ElementsBreak(cls.elements, p.EnterElements(cls.elements), error, part, cls.heritage != [])
  }

  ghost predicate ElementsBreak(es: seq<Element>, p: Place, error: Error, part: Part, hasHeritage: bool) {
    es != [] && (ElementBreaks(es[0], p, error, part, hasHeritage) || ElementsBreak(es[1..], p, error, part, hasHeritage))
  }

  ghost predicate ElementBreaks(e: Element, p: Place, error: Error, part: Part, hasHeritage: bool) {
    OutersBreak(e.key, p, error, part) ||
    match e
    case Method(_, func, kind, _, _, _) => FuncBreaks(func, p.EnterMethod(kind, func.isStrict, hasHeritage), error, part)
    case Field(_, value, _, _) => OutersBreak(value, p.EnterField(), error, part)
  }

  ghost predicate StmtBreaks(s: Stmt, p: Place, error: Error, part: Part) {
    match s
    case ExprStmt(o) => OuterBreaks(o, p, error, part)
    case Decl(e) => ExprBreaks(e, p, error, part)
    case Nest(kind, _, exprs, body) =>
      (!part.Options? && NestBreaks(kind, p, error)) || OutersBreak(exprs, p, error, part) || StmtsBreak(body, p, error, part)
    case Jump(_, _) => false
    case Labeled(_, labeled) => StmtBreaks(labeled, p, error, part)
  }

  ghost predicate StmtsBreak(ss: seq<Stmt>, p: Place, error: Error, part: Part) {
    ss != [] && (StmtBreaks(ss[0], p, error, part) || StmtsBreak(ss[1..], p, error, part))
  }

  // ----- The environment of analysis stands for a place -----

  ghost predicate IsPlace(c: Context, p: Place) {
    && c.strict == p.inStrict && c.allowArguments == !p.inInitializer && c.inParameters == p.inParameters
    && ArePlaced(c.functions, p)
    && (p.inClass <==> c.classes != []) && (forall n :: n in p.declared <==> IsDeclaredPrivate(c.classes, n))
  }

  ghost predicate ArePlaced(fs: seq<FunctionEntry>, p: Place) {
    && (p.inFunction <==> Enclosing(fs).Some?)
    && (p.inMethod <==> SuperOf(fs).Allow?)
    && (p.inDerived <==> Enclosing(fs).Some? && Enclosing(fs).value.isDerived)
    && (p.inBody <==> CanReturn(fs))
    && (p.inStaticBlock <==> fs != [] && fs[|fs| - 1].isStaticInitializer)
  }

  lemma EnterFunctionIsPlace(c: Context, p: Place, kind: FunctionKind, isStrict: bool)
    requires IsPlace(c, p)
    ensures IsPlace(InsideFunction(c, EntryOf(kind), isStrict), p.EnterFunction(kind, isStrict))
  {
    PushFunction(c.functions, EntryOf(kind));
  }

  lemma EnterMethodIsPlace(c: Context, p: Place, kind: MethodKind, isStatic: bool, isStrict: bool, hasHeritage: bool)
    requires IsPlace(c, p)
    ensures var f := MethodFunction(isStatic, kind == Constructor && hasHeritage, kind == StaticInitializer);
            IsPlace(InsideFunction(c, f, isStrict), p.EnterMethod(kind, isStrict, hasHeritage))
  {
    PushFunction(c.functions, MethodFunction(isStatic, kind == Constructor && hasHeritage, kind == StaticInitializer));
  }

  lemma EnterFieldIsPlace(c: Context, p: Place, isStatic: bool)
    requires IsPlace(c, p)
    ensures IsPlace(InsideField(c, isStatic), p.EnterField())
  {
    PushFunction(c.functions, FieldInitializer(isStatic));
  }

  lemma EnterElementsIsPlace(c: Context, p: Place, es: seq<Element>, isDerived: bool)
    requires IsPlace(c, p)
    ensures IsPlace(c.(classes := c.classes + [ClassEntry(PrivateNames.Collect(es).names.Keys, isDerived)]), p.EnterElements(es))
  {
    var entry := ClassEntry(PrivateNames.Collect(es).names.Keys, isDerived);
    forall n
      ensures n in p.EnterElements(es).declared <==> IsDeclaredPrivate(c.classes + [entry], n)
    {
      DeclaredIsCollected(es, n);
      DeclaredInside(c.classes, entry, n);
    }
  }

  lemma DeclaredInside(classes: seq<ClassEntry>, entry: ClassEntry, n: Name)
    ensures IsDeclaredPrivate(classes + [entry], n) <==> IsDeclaredPrivate(classes, n) || n in entry.privateNames
  {
    assert entry in classes + [entry];
    assert forall e <- classes :: e in classes + [entry];
  }

  lemma DeclaredIsCollected(es: seq<Element>, n: Name)
    ensures n in Declared(es) <==> n in PrivateNames.Collect(es).names
  {
    PrivateNames.CollectRecords(es, n);
    if n in Declared(es) {
      var i :| 0 <= i < |es| && es[i].privateName == Some(n);
      var _ := PrivateNames.DeclarationIndex(es, n, i);
    }
    if PrivateNames.Declarations(es, n) != [] {
      var i := PrivateNames.DeclarationAt(es, n, 0);
      assert es[i] in es;
    }
  }

  // ----- Analysis reports what breaks a rule -----

  lemma OperatorReported(op: Operator, c: Context, p: Place, error: Error)
    requires IsPlace(c, p) && !IsLabelError(error)
    ensures error in OperatorErrors(op, c) <==> OperatorBreaks(op, p, error)
  {}

  lemma NameReported(name: Option<Name>, strict: bool, error: Error)
    ensures error in OptionalNameErrors(name, strict) <==> NameBreaks(name, strict, error)
  {}

  lemma NestReported(kind: NestKind, c: Context, p: Place, error: Error)
    requires IsPlace(c, p)
    ensures error in NestErrors(kind, c) <==> NestBreaks(kind, p, error)
  {}

  lemma NamesReported(es: seq<Element>, error: Error)
    ensures error in PrivateNames.Collect(es).errors <==> NamesBreak(es, error)
  {
    PrivateNames.DuplicatesAreReported(es);
    ConstructorReported(es);
    OnlyNamesReported(es, error);
  }

  lemma {:induction false} ConstructorReported(es: seq<Element>)
    ensures PrivateNameConstructor in PrivateNames.Collect(es).errors <==> exists e <- es :: e.privateName == Some("#constructor")
  {
    if es != [] {
      var before, e := es[..|es| - 1], es[|es| - 1];
      ConstructorReported(before);
      assert es == before + [e];
    }
  }

  lemma {:induction false} OnlyNamesReported(es: seq<Element>, error: Error)
    ensures error in PrivateNames.Collect(es).errors ==> error.DuplicatePrivateName? || error.PrivateNameConstructor?
  {
    if es != [] {
      OnlyNamesReported(es[..|es| - 1], error);
    }
  }

  lemma {:induction false} ExprsReported(es: seq<Expr>, c: Context, p: Place, error: Error)
    requires IsPlace(c, p) && !IsLabelError(error)
    ensures error in WalkExprs(es, c).errors <==> ExprsBreak(es, p, error, Visited)
    decreases es
  {
    if es != [] {
      ExprReported(es[0], c, p, error);
      ExprsReported(es[1..], c, p, error);
    }
  }

  lemma {:induction false} ExprReported(e: Expr, c: Context, p: Place, error: Error)
    requires IsPlace(c, p) && !IsLabelError(error)
    ensures error in WalkExpr(e, c).errors <==> ExprBreaks(e, p, error, Visited)
    decreases e
  {
    match e
    case Op(op, operands) =>
      OperatorReported(op, c, p, error);
      ExprsReported(operands, c, p, error);
    case Function(kind, func) =>
      EnterFunctionIsPlace(c, p, kind, func.isStrict);
      FuncReported(func, c, EntryOf(kind), p.EnterFunction(kind, func.isStrict), error);
    case ClassExpr(cls) =>
      ClassReported(cls, c, p, error);
    case Import(source, _) =>
      ExprReported(source, c, p, error);
  }

  lemma {:induction false} OutersReported(os: seq<Outer>, c: Context, p: Place, error: Error)
    requires IsPlace(c, p) && !IsLabelError(error)
    ensures error in WalkOuters(os, c).errors <==> OutersBreak(os, p, error, Visited)
    decreases os
  {
    if os != [] {
      OuterReported(os[0], c, p, error);
      OutersReported(os[1..], c, p, error);
    }
  }

  lemma {:induction false} OuterReported(o: Outer, c: Context, p: Place, error: Error)
    requires IsPlace(c, p) && !IsLabelError(error)
    ensures error in WalkOuter(o, c).errors <==> OuterBreaks(o, p, error, Visited)
    decreases o
  {
    ExprReported(o.expr, c, p, error);
  }

  lemma {:induction false} FuncReported(func: Func, c: Context, f: FunctionEntry, p: Place, error: Error)
    requires IsPlace(InsideFunction(c, f, func.isStrict), p) && !IsLabelError(error)
    ensures error in WalkFunc(func, c, f).errors <==>
              (!f.isMethod && NameBreaks(func.name, p.inStrict, error)) || FuncBreaks(func, p, error, Visited)
    decreases func, 1
  {
    var inner := InsideFunction(c, f, func.isStrict);
    var named := OptionalNameErrors(if f.isMethod then None else func.name, inner.strict);
    assert WalkFunc(func, c, f).errors == named + WalkFuncParts(func, inner).errors;
    NameReported(func.name, inner.strict, error);
    FuncPartsReported(func, inner, p, error);
  }

  lemma {:induction false} FuncPartsReported(func: Func, c: Context, p: Place, error: Error)
    requires IsPlace(c, p) && !IsLabelError(error)
    ensures error in WalkFuncParts(func, c).errors <==> FuncBreaks(func, p, error, Visited)
    decreases func, 0
  {
    OutersReported(func.params, c.(inParameters := true), p.(inParameters := true), error);
    StmtReported(func.body, c, map[], p, error);
  }

  lemma {:induction false} ClassReported(cls: Class, c: Context, p: Place, error: Error)
    requires IsPlace(c, p) && !IsLabelError(error)
    ensures error in WalkClass(cls, c).errors <==> ClassBreaks(cls, p.(inStrict := true), error, Visited)
    decreases cls, 1
  {
    NameReported(cls.name, true, error);
    ClassBodyReported(cls, InsideClass(c), p.(inStrict := true), error);
  }

  lemma {:induction false} ClassBodyReported(cls: Class, c: Context, p: Place, error: Error)
    requires IsPlace(c, p) && !IsLabelError(error)
    ensures error in WalkClassBody(cls, c).errors <==>
              || NamesBreak(cls.elements, error) || OutersBreak(cls.heritage, p, error, Visited)
              || ElementsBreak(cls.elements, p.EnterElements(cls.elements), error, Visited, cls.heritage != [])
    decreases cls, 0
  {
    var collected := PrivateNames.Collect(cls.elements);
    var inner := c.(classes := c.classes + [ClassEntry(collected.names.Keys, cls.heritage != [])]);
    OutersReported(cls.heritage, c, p, error);
    NamesReported(cls.elements, error);
    EnterElementsIsPlace(c, p, cls.elements, cls.heritage != []);
    ElementsReported(cls.elements, inner, PrivateNames.MarkPairs(cls.elements), p.EnterElements(cls.elements), error);
  }

  lemma {:induction false} ElementsReported(es: seq<Element>, c: Context, marked: seq<Element>, p: Place, error: Error)
    requires |marked| == |es| && c.classes != [] && IsPlace(c, p) && !IsLabelError(error)
    ensures error in WalkElements(es, c, marked).errors <==> ElementsBreak(es, p, error, Visited, c.classes[|c.classes| - 1].isDerived)
    decreases es
  {
    if es != [] {
      ElementReported(es[0], c, marked[0], p, error);
      ElementsReported(es[1..], c, marked[1..], p, error);
    }
  }

  lemma {:induction false} ElementReported(e: Element, c: Context, marked: Element, p: Place, error: Error)
    requires c.classes != [] && IsPlace(c, p) && !IsLabelError(error)
    ensures error in WalkElement(e, c, marked).errors <==> ElementBreaks(e, p, error, Visited, c.classes[|c.classes| - 1].isDerived)
    decreases e, 1
  {
    OutersReported(e.key, c, p, error);
    if e.Method? {
      MethodReported(e, c, p, error);
    } else {
      FieldReported(e, c, p, error);
    }
  }

  lemma {:induction false} MethodReported(e: Element, c: Context, p: Place, error: Error)
    requires e.Method? && c.classes != [] && IsPlace(c, p) && !IsLabelError(error)
    ensures var hasHeritage := c.classes[|c.classes| - 1].isDerived;
            var f := MethodFunction(e.isStatic, e.methodKind == Constructor && hasHeritage, e.methodKind == StaticInitializer);
            error in WalkFunc(e.func, c, f).errors <==>
              FuncBreaks(e.func, p.EnterMethod(e.methodKind, e.func.isStrict, hasHeritage), error, Visited)
    decreases e, 0
  {
    var hasHeritage := c.classes[|c.classes| - 1].isDerived;
    var f := MethodFunction(e.isStatic, e.methodKind == Constructor && hasHeritage, e.methodKind == StaticInitializer);
    EnterMethodIsPlace(c, p, e.methodKind, e.isStatic, e.func.isStrict, hasHeritage);
    FuncReported(e.func, c, f, p.EnterMethod(e.methodKind, e.func.isStrict, hasHeritage), error);
  }

  lemma {:induction false} FieldReported(e: Element, c: Context, p: Place, error: Error)
    requires e.Field? && IsPlace(c, p) && !IsLabelError(error)
    ensures error in WalkOuters(e.value, InsideField(c, e.isStatic)).errors <==> OutersBreak(e.value, p.EnterField(), error, Visited)
    decreases e, 0
  {
    EnterFieldIsPlace(c, p, e.isStatic);
    OutersReported(e.value, InsideField(c, e.isStatic), p.EnterField(), error);
  }

  lemma {:induction false} StmtsReported(ss: seq<Stmt>, c: Context, labels: Labels, p: Place, error: Error)
    requires IsPlace(c, p) && !IsLabelError(error)
    ensures error in WalkStmts(ss, c, labels).errors <==> StmtsBreak(ss, p, error, Visited)
    decreases ss
  {
    if ss != [] {
      StmtReported(ss[0], c, labels, p, error);
      StmtsReported(ss[1..], c, WalkStmt(ss[0], c, labels).labels, p, error);
    }
  }

  lemma {:induction false} StmtReported(s: Stmt, c: Context, labels: Labels, p: Place, error: Error)
    requires IsPlace(c, p) && !IsLabelError(error)
    ensures error in WalkStmt(s, c, labels).errors <==> StmtBreaks(s, p, error, Visited)
    decreases s, 1
  {
    match s
    case ExprStmt(o) => ExprReported(o.expr, c, p, error);
    case Decl(e) => ExprReported(e, c, p, error);
    case Nest(kind, _, _, _) =>
      NestReported(kind, c, p, error);
      NestPartsReported(s, InsideNest(kind, c), labels, p, error);
    case Jump(isContinue, target) => JumpReportsLabelErrors(isContinue, target, c, labels, error);
    case Labeled(_, _) => LabeledReported(s, c, labels, p, error);
  }

  lemma JumpReportsLabelErrors(isContinue: bool, target: Option<Label>, c: Context, labels: Labels, error: Error)
    requires !IsLabelError(error)
    ensures error !in JumpErrors(isContinue, target, c, labels)
  {}

  lemma {:induction false} NestPartsReported(s: Stmt, c: Context, labels: Labels, p: Place, error: Error)
    requires s.Nest? && IsPlace(c, p) && !IsLabelError(error)
    ensures error in WalkNest(s, c, labels).errors <==> OutersBreak(s.exprs, p, error, Visited) || StmtsBreak(s.body, p, error, Visited)
    decreases s, 0
  {
    OutersReported(s.exprs, c, p, error);
    StmtsReported(s.body, c, labels, p, error);
  }

  lemma {:induction false} LabeledReported(s: Stmt, c: Context, labels: Labels, p: Place, error: Error)
    requires s.Labeled? && IsPlace(c, p) && !IsLabelError(error)
    ensures error in WalkLabeled(s, c, labels).errors <==> StmtBreaks(s, p, error, Visited)
    decreases s, 0
  {
    var inner, id := Unlabeled(s.labeled), c.labelDepth + 1;
    var c', entered := c.(labelDepth := id), Entered(LabelNames(s), id, labels, IsContinueTarget(inner));
    StmtReported(inner, c', entered, p, error);
    LabelsReportLabelErrors(s, c, labels, error);
    UnlabeledBreaks(s, p, error);
  }

  lemma LabelsReportLabelErrors(s: Stmt, c: Context, labels: Labels, error: Error)
    requires s.Labeled? && !IsLabelError(error)
    ensures var inner, id := Unlabeled(s.labeled), c.labelDepth + 1;
            var entered := Entered(LabelNames(s), id, labels, IsContinueTarget(inner));
            error in WalkLabeled(s, c, labels).errors <==> error in WalkStmt(inner, c.(labelDepth := id), entered).errors
  {
    var inner, id := Unlabeled(s.labeled), c.labelDepth + 1;
    var b := WalkStmt(inner, c.(labelDepth := id), Entered(LabelNames(s), id, labels, IsContinueTarget(inner)));
    var duplicates := DuplicateErrors(LabelNames(s), labels.Keys);
    assert WalkLabeled(s, c, labels).errors == duplicates + b.errors;
    DuplicatesAreLabelErrors(LabelNames(s), labels.Keys, error);
    InSecond(duplicates, b.errors, error);
  }

  lemma InSecond(a: seq<Error>, b: seq<Error>, error: Error)
    requires error !in a
    ensures error in a + b <==> error in b
  {}

  lemma {:induction false} DuplicatesAreLabelErrors(names: seq<Name>, seen: set<Name>, error: Error)
    requires !IsLabelError(error)
    ensures error !in DuplicateErrors(names, seen)
  {
    if names != [] {
      DuplicatesAreLabelErrors(names[1..], seen + {names[0]}, error);
    }
  }

  lemma {:induction false} UnlabeledBreaks(s: Stmt, p: Place, error: Error)
    ensures StmtBreaks(s, p, error, Visited) <==> StmtBreaks(Unlabeled(s), p, error, Visited)
  {
    if s.Labeled? {
      UnlabeledBreaks(s.labeled, p, error);
    }
  }

  // ----- Options of imports -----

  lemma {:induction false} ExprSplits(e: Expr, p: Place, error: Error)
    ensures ExprBreaks(e, p, error, All) <==> ExprBreaks(e, p, error, Visited) || ExprBreaks(e, p, error, Options)
    decreases e
  {
    match e
    case Op(_, operands) => ExprsSplit(operands, p, error);
    case Function(kind, func) => FuncSplits(func, p.EnterFunction(kind, func.isStrict), error);
    case ClassExpr(cls) => ClassSplits(cls, p.(inStrict := true), error);
    case Import(source, _) => ExprSplits(source, p, error);
  }

  lemma {:induction false} ExprsSplit(es: seq<Expr>, p: Place, error: Error)
    ensures ExprsBreak(es, p, error, All) <==> ExprsBreak(es, p, error, Visited) || ExprsBreak(es, p, error, Options)
    decreases es
  {
    if es != [] {
      ExprSplits(es[0], p, error);
      ExprsSplit(es[1..], p, error);
    }
  }

  lemma {:induction false} OuterSplits(o: Outer, p: Place, error: Error)
    ensures OuterBreaks(o, p, error, All) <==> OuterBreaks(o, p, error, Visited) || OuterBreaks(o, p, error, Options)
    decreases o
  {
    ExprSplits(o.expr, p, error);
  }

  lemma {:induction false} OutersSplit(os: seq<Outer>, p: Place, error: Error)
    ensures OutersBreak(os, p, error, All) <==> OutersBreak(os, p, error, Visited) || OutersBreak(os, p, error, Options)
    decreases os
  {
    if os != [] {
      OuterSplits(os[0], p, error);
      OutersSplit(os[1..], p, error);
    }
  }

  lemma {:induction false} FuncSplits(func: Func, p: Place, error: Error)
    ensures FuncBreaks(func, p, error, All) <==> FuncBreaks(func, p, error, Visited) || FuncBreaks(func, p, error, Options)
    decreases func
  {
    OutersSplit(func.params, p.(inParameters := true), error);
    StmtSplits(func.body, p, error);
  }

  lemma {:induction false} ClassSplits(cls: Class, p: Place, error: Error)
    ensures ClassBreaks(cls, p, error, All) <==> ClassBreaks(cls, p, error, Visited) || ClassBreaks(cls, p, error, Options)
    decreases cls
  {
    OutersSplit(cls.heritage, p, error);
    ElementsSplit(cls.elements, p.EnterElements(cls.elements), error, cls.heritage != []);
  }

  lemma {:induction false} ElementsSplit(es: seq<Element>, p: Place, error: Error, hasHeritage: bool)
    ensures ElementsBreak(es, p, error, All, hasHeritage) <==>
              ElementsBreak(es, p, error, Visited, hasHeritage) || ElementsBreak(es, p, error, Options, hasHeritage)
    decreases es
  {
    if es != [] {
      ElementSplits(es[0], p, error, hasHeritage);
      ElementsSplit(es[1..], p, error, hasHeritage);
    }
  }

  lemma {:induction false} ElementSplits(e: Element, p: Place, error: Error, hasHeritage: bool)
    ensures ElementBreaks(e, p, error, All, hasHeritage) <==>
              ElementBreaks(e, p, error, Visited, hasHeritage) || ElementBreaks(e, p, error, Options, hasHeritage)
    decreases e
  {
    OutersSplit(e.key, p, error);
    match e
    case Method(_, func, kind, _, _, _) => FuncSplits(func, p.EnterMethod(kind, func.isStrict, hasHeritage), error);
    case Field(_, value, _, _) => OutersSplit(value, p.EnterField(), error);
  }

  lemma {:induction false} StmtSplits(s: Stmt, p: Place, error: Error)
    ensures StmtBreaks(s, p, error, All) <==> StmtBreaks(s, p, error, Visited) || StmtBreaks(s, p, error, Options)
    decreases s
  {
    match s
    case ExprStmt(o) => OuterSplits(o, p, error);
    case Decl(e) => ExprSplits(e, p, error);
    case Nest(_, _, exprs, body) => OutersSplit(exprs, p, error); StmtsSplit(body, p, error);
    case Jump(_, _) =>
    case Labeled(_, labeled) => StmtSplits(labeled, p, error);
  }

  lemma {:induction false} StmtsSplit(ss: seq<Stmt>, p: Place, error: Error)
    ensures StmtsBreak(ss, p, error, All) <==> StmtsBreak(ss, p, error, Visited) || StmtsBreak(ss, p, error, Options)
    decreases ss
  {
    if ss != [] {
      StmtSplits(ss[0], p, error);
      StmtsSplit(ss[1..], p, error);
    }
  }

  // ----- The main results -----

  /** Each error that is no label error is reported, if and only if its rule is broken outside options of imports. */
  lemma ErrorsAreReported(p: Program, error: Error)
    requires !IsLabelError(error)
    ensures error in WalkProgram(p).errors <==> StmtsBreak(p.toplevels, AtTop(p.isStrict), error, Visited)
  {
    var c := Context(0, false, false, p.isStrict, true, false, [], []);
    StmtsReported(p.toplevels, c, map[], AtTop(p.isStrict), error);
  }

  /** What is not reported is in the options of imports. */
  lemma OnlyOptionsBreakUnreported(p: Program, error: Error)
    requires !IsLabelError(error)
    ensures StmtsBreak(p.toplevels, AtTop(p.isStrict), error, All) <==>
              error in WalkProgram(p).errors || StmtsBreak(p.toplevels, AtTop(p.isStrict), error, Options)
  {
    ErrorsAreReported(p, error);
    StmtsSplit(p.toplevels, AtTop(p.isStrict), error);
  }
}
