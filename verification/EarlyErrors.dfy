/**
 The label rules of section 8.3 of ECMA-262 and the placement rules for break and continue (sections
 14.8.1 and 14.9.1), as recursive definitions over the syntax tree, and the proof that analysis reports
 a label error exactly when they are broken.

 In two respects the code is more generous than the standard: the labels of a switch count as continue
 targets, and functions in the options of an import are not visited. The rules are therefore parameterised.
 */
module EarlyErrors {
  import opened Wrappers
  import opened Ast
  import opened Analysis
  import PrivateNames

  /** What is asked of function bodies. */
  datatype Rules =
    | Standard         // the rules of the standard, of all function bodies
    | Lenient          // the same, but with labelled switches as continue targets
    | Code             // the same as Lenient, but only of function bodies that are visited
    | Unvisited        // what Lenient asks in addition to Code: the options of imports
    | NoSwitchTargets  // what Standard asks in addition to Lenient: not to continue to a switch

  // ----- Section 8.3.1 -----

  predicate ContainsDuplicateLabels(s: Stmt, labelSet: set<Name>) {
    match s
    case Nest(_, _, _, body) => AnyDuplicateLabels(body, labelSet)
    case Labeled(tag, labeled) => tag.name in labelSet || ContainsDuplicateLabels(labeled, labelSet + {tag.name})
    case _ => false
  }

  predicate AnyDuplicateLabels(ss: seq<Stmt>, labelSet: set<Name>) {
    ss != [] && (ContainsDuplicateLabels(ss[0], labelSet) || AnyDuplicateLabels(ss[1..], labelSet))
  }

  // ----- Section 8.3.2 -----

  predicate ContainsUndefinedBreakTarget(s: Stmt, labelSet: set<Name>) {
    match s
    case Nest(_, _, _, body) => AnyUndefinedBreakTarget(body, labelSet)
    case Labeled(tag, labeled) => ContainsUndefinedBreakTarget(labeled, labelSet + {tag.name})
    case Jump(isContinue, target) => !isContinue && target.Some? && target.value.name !in labelSet
    case _ => false
  }

  predicate AnyUndefinedBreakTarget(ss: seq<Stmt>, labelSet: set<Name>) {
    ss != [] && (ContainsUndefinedBreakTarget(ss[0], labelSet) || AnyUndefinedBreakTarget(ss[1..], labelSet))
  }

  // ----- Section 8.3.3 -----

  /** The statements whose labels a continue may name. */
  predicate TakesContinue(kind: NestKind, switches: bool) { kind.Loop? || (kind.Switch? && switches) }

  predicate ContainsUndefinedContinueTarget(s: Stmt, iterationSet: set<Name>, labelSet: set<Name>, switches: bool) {
    match s
    case Nest(kind, _, _, body) =>
      AnyUndefinedContinueTarget(body, if TakesContinue(kind, switches) then iterationSet + labelSet else iterationSet, switches)
    case Labeled(tag, labeled) =>
      ContainsUndefinedContinueTarget(labeled, iterationSet, labelSet + {tag.name}, switches)
    case Jump(isContinue, target) => isContinue && target.Some? && target.value.name !in iterationSet
    case _ => false
  }

  predicate AnyUndefinedContinueTarget(ss: seq<Stmt>, iterationSet: set<Name>, switches: bool) {
    ss != []
    && (ContainsUndefinedContinueTarget(ss[0], iterationSet, {}, switches) || AnyUndefinedContinueTarget(ss[1..], iterationSet, switches))
  }

  // ----- Sections 14.8.1 and 14.9.1 -----

  predicate ContainsMisplacedJump(s: Stmt, breakable: bool, iterable: bool) {
    match s
    case Nest(kind, _, _, body) => AnyMisplacedJump(body, breakable || kind.Loop? || kind.Switch?, iterable || kind.Loop?)
    case Labeled(_, labeled) => ContainsMisplacedJump(labeled, breakable, iterable)
    case Jump(isContinue, target) => if isContinue then !iterable else target.None? && !breakable
    case _ => false
  }

  predicate AnyMisplacedJump(ss: seq<Stmt>, breakable: bool, iterable: bool) {
    ss != [] && (ContainsMisplacedJump(ss[0], breakable, iterable) || AnyMisplacedJump(ss[1..], breakable, iterable))
  }

  // ----- The one difference -----

  /** Some continue statement names the label of an enclosing switch. */
  predicate ContinuesToSwitch(s: Stmt, switchSet: set<Name>, labelSet: set<Name>) {
    match s
    case Nest(kind, _, _, body) => AnyContinuesToSwitch(body, if kind.Switch? then switchSet + labelSet else switchSet)
    case Labeled(tag, labeled) => ContinuesToSwitch(labeled, switchSet, labelSet + {tag.name})
    case Jump(isContinue, target) => isContinue && target.Some? && target.value.name in switchSet
    case _ => false
  }

  predicate AnyContinuesToSwitch(ss: seq<Stmt>, switchSet: set<Name>) {
    ss != [] && (ContinuesToSwitch(ss[0], switchSet, {}) || AnyContinuesToSwitch(ss[1..], switchSet))
  }

  // ----- All function bodies -----

  /** A function body or script obeys the rules; nothing outside it is visible. */
  predicate BodyObeys(ss: seq<Stmt>, rules: Rules) {
    if rules.NoSwitchTargets? then !AnyContinuesToSwitch(ss, {})
    else if rules.Unvisited? then true
    else
      && !AnyDuplicateLabels(ss, {})
      && !AnyUndefinedBreakTarget(ss, {})
      && !AnyUndefinedContinueTarget(ss, {}, !rules.Standard?)
      && !AnyMisplacedJump(ss, false, false)
  }

  /** The bodies of all functions in a statement obey the rules. */
  predicate FunctionsObey(s: Stmt, rules: Rules) {
    match s
    case ExprStmt(o) => ExprObeys(o.expr, rules)
    case Decl(e) => ExprObeys(e, rules)
    case Nest(_, _, exprs, body) => OutersObey(exprs, rules) && AllFunctionsObey(body, rules)
    case Jump(_, _) => true
    case Labeled(_, labeled) => FunctionsObey(labeled, rules)
  }

  predicate AllFunctionsObey(ss: seq<Stmt>, rules: Rules) {
    ss != [] ==> FunctionsObey(ss[0], rules) && AllFunctionsObey(ss[1..], rules)
  }

  predicate OutersObey(os: seq<Outer>, rules: Rules) {
    os != [] ==> OuterObeys(os[0], rules) && OutersObey(os[1..], rules)
  }

  predicate OuterObeys(o: Outer, rules: Rules) {
    ExprObeys(o.expr, rules)
  }

  predicate ExprsObey(es: seq<Expr>, rules: Rules) {
    es != [] ==> ExprObeys(es[0], rules) && ExprsObey(es[1..], rules)
  }

  predicate ExprObeys(e: Expr, rules: Rules) {
    match e
    case Op(_, operands) => ExprsObey(operands, rules)
    case Function(_, func) => FuncObeys(func, rules)
    case ClassExpr(cls) => OutersObey(cls.heritage, rules) && ElementsObey(cls.elements, rules)
    case Import(source, options) =>
      ExprObeys(source, rules) && (rules.Code? || ExprsObey(options, if rules.Unvisited? then Lenient else rules))
  }

  predicate FuncObeys(func: Func, rules: Rules) {
    OutersObey(func.params, rules) && BodyObeys([func.body], rules) && FunctionsObey(func.body, rules)
  }

  predicate ElementsObey(es: seq<Element>, rules: Rules) {
    es != [] ==> ElementObeys(es[0], rules) && ElementsObey(es[1..], rules)
  }

  predicate ElementObeys(e: Element, rules: Rules) {
    OutersObey(e.key, rules) && if e.Method? then FuncObeys(e.func, rules) else OutersObey(e.value, rules)
  }

  predicate ProgramObeys(p: Program, rules: Rules) {
    BodyObeys(p.toplevels, rules) && AllFunctionsObey(p.toplevels, rules)
  }

  // ----- What analysis reports -----

  predicate IsLabelError(e: Error) {
    e.DuplicateLabel? || e.LabelNotFound? || e.UnlabeledBreakOutsideBreakable? || e.ContinueOutsideIterable?
  }

  predicate NoLabelErrors(errors: seq<Error>) {
    forall e <- errors :: !IsLabelError(e)
  }

  lemma NoLabelErrorsConcat(a: seq<Error>, b: seq<Error>)
    ensures NoLabelErrors(a + b) <==> NoLabelErrors(a) && NoLabelErrors(b)
  {
    assert forall e <- a :: e in a + b;
    assert forall e <- b :: e in a + b;
  }

  lemma NoLabelErrorsIf(condition: bool, error: Error)
    requires IsLabelError(error)
    ensures NoLabelErrors(ErrorIf(condition, error)) <==> !condition
  {
    if condition {
      assert error in ErrorIf(condition, error);
    }
  }

  function Targets(labels: Labels): set<Name> {
    set n | n in labels && labels[n].isContinueTarget
  }

  /** The rules for a statement that stands in a context. */
  ghost predicate StmtObeys(s: Stmt, c: Context, labels: Labels) {
    && !ContainsDuplicateLabels(s, labels.Keys)
    && !ContainsUndefinedBreakTarget(s, labels.Keys)
    && !ContainsUndefinedContinueTarget(s, Targets(labels), {}, true)
    && !ContainsMisplacedJump(s, c.breakable, c.iterable)
    && FunctionsObey(s, Code)
  }

  ghost predicate StmtsObey(ss: seq<Stmt>, c: Context, labels: Labels) {
    && !AnyDuplicateLabels(ss, labels.Keys)
    && !AnyUndefinedBreakTarget(ss, labels.Keys)
    && !AnyUndefinedContinueTarget(ss, Targets(labels), true)
    && !AnyMisplacedJump(ss, c.breakable, c.iterable)
    && AllFunctionsObey(ss, Code)
  }

  lemma {:induction false} OutersReport(os: seq<Outer>, c: Context)
    ensures NoLabelErrors(WalkOuters(os, c).errors) <==> OutersObey(os, Code)
    decreases os
  {
    if os != [] {
      OuterReport(os[0], c);
      OutersReport(os[1..], c);
      NoLabelErrorsConcat(WalkOuter(os[0], c).errors, WalkOuters(os[1..], c).errors);
    }
  }

  lemma {:induction false} OuterReport(o: Outer, c: Context)
    ensures NoLabelErrors(WalkOuter(o, c).errors) <==> OuterObeys(o, Code)
    decreases o
  {
    ExprReport(o.expr, c);
  }

  lemma {:induction false} ExprsReport(es: seq<Expr>, c: Context)
    ensures NoLabelErrors(WalkExprs(es, c).errors) <==> ExprsObey(es, Code)
    decreases es
  {
    if es != [] {
      ExprReport(es[0], c);
      ExprsReport(es[1..], c);
      NoLabelErrorsConcat(WalkExpr(es[0], c).errors, WalkExprs(es[1..], c).errors);
    }
  }

  lemma OperatorReportsNone(op: Operator, c: Context)
    ensures NoLabelErrors(OperatorErrors(op, c))
  {}

  lemma NameReportsNone(name: Option<Name>, strict: bool)
    ensures NoLabelErrors(OptionalNameErrors(name, strict))
  {}

  lemma NestReportsNone(kind: NestKind, c: Context)
    ensures NoLabelErrors(NestErrors(kind, c))
  {}

  lemma {:induction false} CollectReportsNone(es: seq<Element>)
    ensures NoLabelErrors(PrivateNames.Collect(es).errors)
  {
    if es != [] {
      CollectReportsNone(es[..|es| - 1]);
    }
  }

  lemma {:induction false} ExprReport(e: Expr, c: Context)
    ensures NoLabelErrors(WalkExpr(e, c).errors) <==> ExprObeys(e, Code)
    decreases e
  {
    match e
    case Op(op, operands) =>
      ExprsReport(operands, c);
      OperatorReportsNone(op, c);
      NoLabelErrorsConcat(OperatorErrors(op, c), WalkExprs(operands, c).errors);
    case Function(kind, func) =>
      FuncReport(func, c, EntryOf(kind));
    case ClassExpr(cls) =>
      ClassReport(cls, c);
    case Import(source, _) =>
      ExprReport(source, c);
  }

  lemma {:induction false} FuncReport(func: Func, c: Context, f: FunctionEntry)
    ensures NoLabelErrors(WalkFunc(func, c, f).errors) <==> FuncObeys(func, Code)
    decreases func, 1
  {
    var inner := InsideFunction(c, f, func.isStrict);
    var name := if f.isMethod then None else func.name;
    FuncPartsReport(func, inner);
    NameReportsNone(name, inner.strict);
    NoLabelErrorsConcat(OptionalNameErrors(name, inner.strict), WalkFuncParts(func, inner).errors);
  }

  lemma {:induction false} FuncPartsReport(func: Func, c: Context)
    requires !c.breakable && !c.iterable
    ensures NoLabelErrors(WalkFuncParts(func, c).errors) <==> FuncObeys(func, Code)
    decreases func, 0
  {
    var pc := c.(inParameters := true);
    OutersReport(func.params, pc);
    StmtReport(func.body, c, map[]);
    BodyOfOne(func.body, c);
    NoLabelErrorsConcat(WalkOuters(func.params, pc).errors, WalkStmt(func.body, c, map[]).errors);
  }

  lemma BodyOfOne(s: Stmt, c: Context)
    requires !c.breakable && !c.iterable
    ensures StmtObeys(s, c, map[]) <==> BodyObeys([s], Code) && FunctionsObey(s, Code)
  {
    var labels: Labels := map[];
    assert Targets(labels) == {} && labels.Keys == {};
    OneStatement(s, Code);
  }

  lemma {:induction false} ClassReport(cls: Class, c: Context)
    ensures NoLabelErrors(WalkClass(cls, c).errors) <==> ExprObeys(ClassExpr(cls), Code)
    decreases cls, 1
  {
    var inner := InsideClass(c);
    ClassBodyReport(cls, inner);
    NameReportsNone(cls.name, true);
    NoLabelErrorsConcat(OptionalNameErrors(cls.name, true), WalkClassBody(cls, inner).errors);
  }

  lemma {:induction false} ClassBodyReport(cls: Class, c: Context)
    ensures NoLabelErrors(WalkClassBody(cls, c).errors) <==> OutersObey(cls.heritage, Code) && ElementsObey(cls.elements, Code)
    decreases cls, 0
  {
    var collected := PrivateNames.Collect(cls.elements);
    var inner := c.(classes := c.classes + [ClassEntry(collected.names.Keys, cls.heritage != [])]);
    var marked := PrivateNames.MarkPairs(cls.elements);
    OutersReport(cls.heritage, c);
    CollectReportsNone(cls.elements);
    ElementsReport(cls.elements, inner, marked);
    NoLabelErrorsConcat(collected.errors, WalkElements(cls.elements, inner, marked).errors);
    NoLabelErrorsConcat(WalkOuters(cls.heritage, c).errors, collected.errors + WalkElements(cls.elements, inner, marked).errors);
  }

  lemma {:induction false} ElementsReport(es: seq<Element>, c: Context, marked: seq<Element>)
    requires |marked| == |es| && c.classes != []
    ensures NoLabelErrors(WalkElements(es, c, marked).errors) <==> ElementsObey(es, Code)
    decreases es
  {
    if es != [] {
      ElementReport(es[0], c, marked[0]);
      ElementsReport(es[1..], c, marked[1..]);
      NoLabelErrorsConcat(WalkElement(es[0], c, marked[0]).errors, WalkElements(es[1..], c, marked[1..]).errors);
    }
  }

  lemma {:induction false} ElementReport(e: Element, c: Context, marked: Element)
    requires c.classes != []
    ensures NoLabelErrors(WalkElement(e, c, marked).errors) <==> ElementObeys(e, Code)
    decreases e
  {
    OutersReport(e.key, c);
    match e
    case Method(key, func, kind, isStatic, _, _) =>
      var isDerived := kind == Constructor && c.classes[|c.classes| - 1].isDerived;
      var f := MethodFunction(isStatic, isDerived, kind == StaticInitializer);
      FuncReport(func, c, f);
      NoLabelErrorsConcat(WalkOuters(key, c).errors, WalkFunc(func, c, f).errors);
    case Field(key, value, isStatic, _) =>
      var inner := InsideField(c, isStatic);
      OutersReport(value, inner);
      NoLabelErrorsConcat(WalkOuters(key, c).errors, WalkOuters(value, inner).errors);
  }

  // ----- Statements -----

  lemma {:induction false} StmtsReport(ss: seq<Stmt>, c: Context, labels: Labels)
    ensures NoLabelErrors(WalkStmts(ss, c, labels).errors) <==> StmtsObey(ss, c, labels)
    ensures !AnyDuplicateLabels(ss, labels.Keys) ==> WalkStmts(ss, c, labels).labels == labels
    decreases ss
  {
    if ss != [] {
      var first := WalkStmt(ss[0], c, labels);
      StmtReport(ss[0], c, labels);
      NoLabelErrorsConcat(first.errors, WalkStmts(ss[1..], c, first.labels).errors);
      if !ContainsDuplicateLabels(ss[0], labels.Keys) {
        StmtsReport(ss[1..], c, labels);
      }
    }
  }

  lemma {:induction false} StmtReport(s: Stmt, c: Context, labels: Labels)
    ensures NoLabelErrors(WalkStmt(s, c, labels).errors) <==> StmtObeys(s, c, labels)
    ensures !ContainsDuplicateLabels(s, labels.Keys) ==> WalkStmt(s, c, labels).labels == labels
    decreases s, 1
  {
    match s
    case ExprStmt(o) => ExprReport(o.expr, c);
    case Decl(expr) => ExprReport(expr, c);
    case Nest(_, _, _, _) => NestReport(s, c, labels);
    case Jump(_, _) => JumpReport(s, c, labels);
    case Labeled(_, _) =>
      LabeledReport(s, c, labels);
      if !ContainsDuplicateLabels(s, labels.Keys) {
        LabeledRestores(s, c, labels);
      }
  }

  lemma JumpReport(s: Stmt, c: Context, labels: Labels)
    requires s.Jump?
    ensures NoLabelErrors(JumpErrors(s.isContinue, s.target, c, labels)) <==> StmtObeys(s, c, labels)
  {
    var placed := if s.isContinue then ErrorIf(!c.iterable, ContinueOutsideIterable)
                  else ErrorIf(s.target.None? && !c.breakable, UnlabeledBreakOutsideBreakable);
    NoLabelErrorsConcat(LabelUseErrors(s.target, labels, s.isContinue), placed);
    NoLabelErrorsIf(!c.iterable, ContinueOutsideIterable);
    NoLabelErrorsIf(s.target.None? && !c.breakable, UnlabeledBreakOutsideBreakable);
    if s.target.Some? {
      var n := s.target.value.name;
      NoLabelErrorsIf(n !in labels || (s.isContinue && !labels[n].isContinueTarget), LabelNotFound);
    }
  }

  lemma {:induction false} NestReport(s: Stmt, c: Context, labels: Labels)
    requires s.Nest?
    ensures NoLabelErrors(WalkStmt(s, c, labels).errors) <==> StmtObeys(s, c, labels)
    ensures !ContainsDuplicateLabels(s, labels.Keys) ==> WalkStmt(s, c, labels).labels == labels
    decreases s, 0
  {
    var inner := InsideNest(s.nest, c);
    OutersReport(s.exprs, inner);
    StmtsReport(s.body, inner, labels);
    NestReportsNone(s.nest, c);
    NoLabelErrorsConcat(WalkOuters(s.exprs, inner).errors, WalkStmts(s.body, inner, labels).errors);
    NoLabelErrorsConcat(NestErrors(s.nest, c), WalkNest(s, inner, labels).errors);
    NestObeys(s, c, labels);
  }

  lemma NestObeys(s: Stmt, c: Context, labels: Labels)
    requires s.Nest?
    ensures StmtObeys(s, c, labels) <==> OutersObey(s.exprs, Code) && StmtsObey(s.body, InsideNest(s.nest, c), labels)
  {
    assert Targets(labels) + {} == Targets(labels);
  }

  lemma {:induction false} LabeledReport(s: Stmt, c: Context, labels: Labels)
    requires s.Labeled?
    ensures NoLabelErrors(WalkLabeled(s, c, labels).errors) == StmtObeys(s, c, labels)
    decreases s, 0
  {
    var names, inner, id := LabelNames(s), Unlabeled(s.labeled), c.labelDepth + 1;
    var c', entered := c.(labelDepth := id), Entered(names, id, labels, IsContinueTarget(inner));
    var b := WalkStmt(inner, c', entered);
    assert WalkLabeled(s, c, labels).errors == DuplicateErrors(names, labels.Keys) + b.errors;
    StmtReport(inner, c', entered);
    NoLabelErrorsConcat(DuplicateErrors(names, labels.Keys), b.errors);
    LabeledObeys(s, c, labels);
  }

  lemma {:induction false} LabeledRestores(s: Stmt, c: Context, labels: Labels)
    requires s.Labeled? && !ContainsDuplicateLabels(s, labels.Keys)
    ensures WalkLabeled(s, c, labels).labels == labels
    decreases s, 0
  {
    var names, inner, id := LabelNames(s), Unlabeled(s.labeled), c.labelDepth + 1;
    var c', entered := c.(labelDepth := id), Entered(names, id, labels, IsContinueTarget(inner));
    var b := WalkStmt(inner, c', entered);
    assert WalkLabeled(s, c, labels).labels == Left(names, labels, b.labels);
    StmtReport(inner, c', entered);
    EnteredIsLeft(s, id, labels);
  }

  // ----- The labels on one statement, taken together -----

  ghost function NamesOf(names: seq<Name>): set<Name> {
    set n | n in names
  }

  lemma {:induction false} NewLabels(names: seq<Name>, seen: set<Name>)
    ensures NoLabelErrors(DuplicateErrors(names, seen)) <==> DuplicateErrors(names, seen) == []
    ensures DuplicateErrors(names, seen) == [] ==> NamesOf(names) !! seen
  {
    if names != [] {
      NewLabels(names[1..], seen + {names[0]});
      NoLabelErrorsIf(names[0] in seen, DuplicateLabel);
      NoLabelErrorsConcat(ErrorIf(names[0] in seen, DuplicateLabel), DuplicateErrors(names[1..], seen + {names[0]}));
      assert names == [names[0]] + names[1..];
    }
  }

  lemma NamesOfCons(name: Name, names: seq<Name>, seen: set<Name>)
    ensures seen + {name} + NamesOf(names) == seen + NamesOf([name] + names)
  {}

  lemma {:induction false} LabelsDuplicate(s: Stmt, seen: set<Name>)
    ensures ContainsDuplicateLabels(s, seen)
       <==> DuplicateErrors(LabelNames(s), seen) != [] || ContainsDuplicateLabels(Unlabeled(s), seen + NamesOf(LabelNames(s)))
  {
    if s.Labeled? {
      var rest := LabelNames(s.labeled);
      LabelsDuplicate(s.labeled, seen + {s.tag.name});
      NamesOfCons(s.tag.name, rest, seen);
      assert LabelNames(s)[1..] == rest;
    } else {
      assert seen + NamesOf([]) == seen;
    }
  }

  lemma {:induction false} LabelsBreak(s: Stmt, seen: set<Name>)
    ensures ContainsUndefinedBreakTarget(s, seen)
       <==> ContainsUndefinedBreakTarget(Unlabeled(s), seen + NamesOf(LabelNames(s)))
  {
    if s.Labeled? {
      LabelsBreak(s.labeled, seen + {s.tag.name});
      NamesOfCons(s.tag.name, LabelNames(s.labeled), seen);
    } else {
      assert seen + NamesOf([]) == seen;
    }
  }

  lemma {:induction false} LabelsContinue(s: Stmt, iterationSet: set<Name>, seen: set<Name>, switches: bool)
    ensures ContainsUndefinedContinueTarget(s, iterationSet, seen, switches)
       <==> ContainsUndefinedContinueTarget(Unlabeled(s), iterationSet, seen + NamesOf(LabelNames(s)), switches)
  {
    if s.Labeled? {
      LabelsContinue(s.labeled, iterationSet, seen + {s.tag.name}, switches);
      NamesOfCons(s.tag.name, LabelNames(s.labeled), seen);
    } else {
      assert seen + NamesOf([]) == seen;
    }
  }

  lemma {:induction false} LabelsElse(s: Stmt, breakable: bool, iterable: bool)
    ensures ContainsMisplacedJump(s, breakable, iterable) <==> ContainsMisplacedJump(Unlabeled(s), breakable, iterable)
    ensures FunctionsObey(s, Code) <==> FunctionsObey(Unlabeled(s), Code)
  {
    if s.Labeled? {
      LabelsElse(s.labeled, breakable, iterable);
    }
  }

  /** For the code, labels either become continue targets at once or not at all. */
  lemma PendingLabels(s: Stmt, iterationSet: set<Name>, seen: set<Name>)
    requires !s.Labeled?
    ensures ContainsUndefinedContinueTarget(s, iterationSet, seen, true)
       <==> ContainsUndefinedContinueTarget(s, if IsContinueTarget(s) then iterationSet + seen else iterationSet, {}, true)
  {
    assert iterationSet + seen + {} == iterationSet + seen;
  }

  /** New labels are added on the way in and removed on the way out. */
  lemma EnteredLabels(names: seq<Name>, id: nat, labels: Labels, isTarget: bool)
    requires NamesOf(names) !! labels.Keys
    ensures var entered := Entered(names, id, labels, isTarget);
            && entered.Keys == labels.Keys + NamesOf(names)
            && Targets(entered) == (if isTarget then Targets(labels) + NamesOf(names) else Targets(labels))
            && Left(names, labels, entered) == labels
  {}

  lemma EnteredIsLeft(s: Stmt, id: nat, labels: Labels)
    requires s.Labeled? && !ContainsDuplicateLabels(s, labels.Keys)
    ensures var names, inner := LabelNames(s), Unlabeled(s.labeled);
            var entered := Entered(names, id, labels, IsContinueTarget(inner));
            !ContainsDuplicateLabels(inner, entered.Keys) && Left(names, labels, entered) == labels
  {
    NewLabels(LabelNames(s), labels.Keys);
    LabelsDuplicate(s, labels.Keys);
    EnteredLabels(LabelNames(s), id, labels, IsContinueTarget(Unlabeled(s.labeled)));
  }

  lemma LabeledObeys(s: Stmt, c: Context, labels: Labels)
    requires s.Labeled?
    ensures var names, inner, id := LabelNames(s), Unlabeled(s.labeled), c.labelDepth + 1;
            StmtObeys(s, c, labels) <==>
              && NoLabelErrors(DuplicateErrors(names, labels.Keys))
              && StmtObeys(inner, c.(labelDepth := id), Entered(names, id, labels, IsContinueTarget(inner)))
  {
    var names, inner, id := LabelNames(s), Unlabeled(s.labeled), c.labelDepth + 1;
    NewLabels(names, labels.Keys);
    LabelsDuplicate(s, labels.Keys);
    if DuplicateErrors(names, labels.Keys) == [] {
      LabelsBreak(s, labels.Keys);
      LabelsContinue(s, Targets(labels), {}, true);
      assert {} + NamesOf(names) == NamesOf(names);
      LabelsElse(s, c.breakable, c.iterable);
      PendingLabels(inner, Targets(labels), NamesOf(names));
      EnteredLabels(names, id, labels, IsContinueTarget(inner));
    }
  }

  // ----- The main results -----

  /** Analysis reports a label error exactly when the rules, with the code's continue targets, are broken. */
  lemma LabelErrorsAreReported(p: Program)
    ensures NoLabelErrors(WalkProgram(p).errors) <==> ProgramObeys(p, Code)
  {
    var c, labels: Labels := Context(0, false, false, p.isStrict, true, false, [], []), map[];
    StmtsReport(p.toplevels, c, labels);
    assert Targets(labels) == {} && labels.Keys == {};
  }

  /** No label error is reported and the options of imports obey the same rules, exactly if all function bodies do. */
  lemma OnlyOptionsAreMissed(p: Program)
    ensures ProgramObeys(p, Lenient) <==> NoLabelErrors(WalkProgram(p).errors) && ProgramObeys(p, Unvisited)
  {
    LabelErrorsAreReported(p);
    ProgramSplits(p, Lenient, Code, Unvisited);
  }

  /** The code accepts more than the standard: exactly programs that continue to a switch, or break the rules in options of imports. */
  lemma StandardIsStricter(p: Program)
    ensures ProgramObeys(p, Standard) <==>
              NoLabelErrors(WalkProgram(p).errors) && ProgramObeys(p, Unvisited) && ProgramObeys(p, NoSwitchTargets)
  {
    OnlyOptionsAreMissed(p);
    ProgramSplits(p, Standard, Lenient, NoSwitchTargets);
  }

  /** import(source, function () { break }) */
  lemma BreakInOptionsIsAccepted(source: Expr, func: Func) returns (p: Program)
    requires ExprObeys(source, Standard) && func.body == Jump(false, None)
    ensures NoLabelErrors(WalkProgram(p).errors) && !ProgramObeys(p, Unvisited) && !ProgramObeys(p, Standard)
  {
    var options := [Function(FunctionExpression, func)];
    var s := ExprStmt(Outer(Import(source, options), false));
    p := Program(false, 0, [s]);
    ExprSplits(source, Standard, Lenient, NoSwitchTargets);
    ExprSplits(source, Lenient, Code, Unvisited);
    OneStatement(s, Code);
    OneFunctionsObeys(s, Code);
    LabelErrorsAreReported(p);
    OneStatement(func.body, Lenient);
    OneStatement(func.body, Standard);
    OptionFails(source, func, Lenient, Unvisited);
    OptionFails(source, func, Standard, Standard);
    OneFunctionsObeys(s, Unvisited);
    OneFunctionsObeys(s, Standard);
  }

  lemma OptionFails(source: Expr, func: Func, inner: Rules, outer: Rules)
    requires !FuncObeys(func, inner) && !outer.Code? && inner == if outer.Unvisited? then Lenient else outer
    ensures !ExprObeys(Import(source, [Function(FunctionExpression, func)]), outer)
  {
    var option := Function(FunctionExpression, func);
    assert !ExprObeys(option, inner);
    assert [option][0] == option;
    assert !ExprsObey([option], inner);
  }

  lemma OneStatement(s: Stmt, rules: Rules)
    requires !rules.NoSwitchTargets? && !rules.Unvisited?
    ensures BodyObeys([s], rules) <==>
              && !ContainsDuplicateLabels(s, {}) && !ContainsUndefinedBreakTarget(s, {})
              && !ContainsUndefinedContinueTarget(s, {}, {}, !rules.Standard?) && !ContainsMisplacedJump(s, false, false)
  {
    assert [s][1..] == [];
    assert AnyDuplicateLabels([s], {}) == ContainsDuplicateLabels(s, {});
    assert AnyUndefinedBreakTarget([s], {}) == ContainsUndefinedBreakTarget(s, {});
    assert AnyUndefinedContinueTarget([s], {}, !rules.Standard?) == ContainsUndefinedContinueTarget(s, {}, {}, !rules.Standard?);
    assert AnyMisplacedJump([s], false, false) == ContainsMisplacedJump(s, false, false);
  }

  /** for (;;) a: switch (0) { case 0: continue a } */
  lemma ContinueToSwitchIsAccepted(zero: Outer, name: Name) returns (p: Program)
    requires ExprObeys(zero.expr, Standard)
    ensures NoLabelErrors(WalkProgram(p).errors) && !ProgramObeys(p, Standard)
  {
    var a := Label(name, 0);
    var jump := Jump(true, Some(a));
    var switch := Nest(Switch, None, [zero], [jump]);
    var labeled := Labeled(a, switch);
    var loop := Nest(Loop, None, [], [labeled]);
    p := Program(false, 0, [loop]);
    OuterSplits(zero, Standard, Lenient, NoSwitchTargets);
    OuterSplits(zero, Lenient, Code, Unvisited);
    assert [zero][1..] == [];
    ExampleBody(jump, switch, labeled, loop, Code);
    ExampleBody(jump, switch, labeled, loop, Standard);
    OneFunctionsObeys(jump, Code);
    assert FunctionsObey(switch, Code);
    OneFunctionsObeys(labeled, Code);
    OneFunctionsObeys(loop, Code);
    LabelErrorsAreReported(p);
  }

  lemma OneFunctionsObeys(s: Stmt, rules: Rules)
    ensures AllFunctionsObey([s], rules) <==> FunctionsObey(s, rules)
  {
    assert [s][1..] == [];
  }

  lemma ExampleBody(jump: Stmt, switch: Stmt, labeled: Stmt, loop: Stmt, rules: Rules)
    requires jump.Jump? && jump.isContinue && jump.target.Some?
    requires switch.Nest? && switch.nest.Switch? && switch.body == [jump]
    requires labeled.Labeled? && labeled.tag.name == jump.target.value.name && labeled.labeled == switch
    requires loop.Nest? && loop.nest.Loop? && loop.body == [labeled]
    requires rules.Code? || rules.Standard?
    ensures BodyObeys([loop], rules) <==> rules.Code?
  {
    var a := labeled.tag.name;
    assert [jump][1..] == [] && [labeled][1..] == [] && [loop][1..] == [];
    assert !AnyDuplicateLabels([jump], {} + {a});
    assert !ContainsDuplicateLabels(labeled, {});
    assert !AnyDuplicateLabels([labeled], {});
    assert !AnyUndefinedBreakTarget([jump], {} + {a});
    assert !ContainsUndefinedBreakTarget(labeled, {});
    assert !AnyUndefinedBreakTarget([labeled], {});
    assert !AnyMisplacedJump([jump], true, true);
    assert !ContainsMisplacedJump(labeled, true, true);
    assert !AnyMisplacedJump([labeled], true, true);
    var targets := if rules.Code? then {} + {} + ({} + {a}) else {} + {};
    assert AnyUndefinedContinueTarget([jump], targets, rules.Code?) <==> !rules.Code?;
    assert ContainsUndefinedContinueTarget(labeled, {} + {}, {}, rules.Code?) <==> !rules.Code?;
    assert AnyUndefinedContinueTarget([labeled], {} + {}, rules.Code?) <==> !rules.Code?;
    assert ContainsUndefinedContinueTarget(loop, {}, {}, rules.Code?) <==> !rules.Code?;
    assert AnyUndefinedContinueTarget([loop], {}, rules.Code?) <==> !rules.Code?;
    assert !ContainsDuplicateLabels(loop, {});
    assert !AnyDuplicateLabels([loop], {});
    assert !ContainsUndefinedBreakTarget(loop, {});
    assert !AnyUndefinedBreakTarget([loop], {});
    assert !ContainsMisplacedJump(loop, false, false);
    assert !AnyMisplacedJump([loop], false, false);
  }

  // ----- The difference, statement by statement -----

  lemma {:induction false} StmtsDiffer(ss: seq<Stmt>, iterationSet: set<Name>, switchSet: set<Name>, visible: set<Name>)
    requires iterationSet !! switchSet && iterationSet + switchSet <= visible && !AnyDuplicateLabels(ss, visible)
    ensures AnyUndefinedContinueTarget(ss, iterationSet, false)
       <==> AnyUndefinedContinueTarget(ss, iterationSet + switchSet, true) || AnyContinuesToSwitch(ss, switchSet)
    decreases ss
  {
    if ss != [] {
      StmtDiffers(ss[0], iterationSet, switchSet, {}, visible);
      StmtsDiffer(ss[1..], iterationSet, switchSet, visible);
    }
  }

  /** A label belongs to a loop, to a switch, or to a statement that is yet to come. */
  lemma {:induction false} StmtDiffers(s: Stmt, iterationSet: set<Name>, switchSet: set<Name>, labelSet: set<Name>, visible: set<Name>)
    requires iterationSet !! switchSet && labelSet !! iterationSet + switchSet
    requires iterationSet + switchSet + labelSet <= visible && !ContainsDuplicateLabels(s, visible)
    ensures ContainsUndefinedContinueTarget(s, iterationSet, labelSet, false)
       <==> ContainsUndefinedContinueTarget(s, iterationSet + switchSet, labelSet, true) || ContinuesToSwitch(s, switchSet, labelSet)
    decreases s
  {
    match s
    case Nest(kind, _, _, body) =>
      var iterationSet', switchSet' := if kind.Loop? then iterationSet + labelSet else iterationSet,
                                       if kind.Switch? then switchSet + labelSet else switchSet;
      StmtsDiffer(body, iterationSet', switchSet', visible);
      assert TakesContinue(kind, true) ==> iterationSet' + switchSet' == iterationSet + switchSet + labelSet;
    case Labeled(tag, labeled) =>
      StmtDiffers(labeled, iterationSet, switchSet, labelSet + {tag.name}, visible + {tag.name});
    case _ =>
  }

  /** Rules that ask the same as two others together. */
  predicate IsSplit(whole: Rules, a: Rules, b: Rules) {
    (whole.Standard? && a.Lenient? && b.NoSwitchTargets?) || (whole.Lenient? && a.Code? && b.Unvisited?)
  }

  lemma BodySplits(ss: seq<Stmt>, whole: Rules, a: Rules, b: Rules)
    requires IsSplit(whole, a, b)
    ensures BodyObeys(ss, whole) <==> BodyObeys(ss, a) && BodyObeys(ss, b)
  {
    if whole.Standard? && !AnyDuplicateLabels(ss, {}) {
      StmtsDiffer(ss, {}, {}, {});
      var none: set<Name> := {};
      assert none + none == none;
    }
  }

  lemma ProgramSplits(p: Program, whole: Rules, a: Rules, b: Rules)
    requires IsSplit(whole, a, b)
    ensures ProgramObeys(p, whole) <==> ProgramObeys(p, a) && ProgramObeys(p, b)
  {
    BodySplits(p.toplevels, whole, a, b);
    AllFunctionsSplit(p.toplevels, whole, a, b);
  }

  lemma {:induction false} AllFunctionsSplit(ss: seq<Stmt>, whole: Rules, a: Rules, b: Rules)
    requires IsSplit(whole, a, b)
    ensures AllFunctionsObey(ss, whole) <==> AllFunctionsObey(ss, a) && AllFunctionsObey(ss, b)
    decreases ss
  {
    if ss != [] {
      FunctionsSplit(ss[0], whole, a, b);
      AllFunctionsSplit(ss[1..], whole, a, b);
    }
  }

  lemma {:induction false} FunctionsSplit(s: Stmt, whole: Rules, a: Rules, b: Rules)
    requires IsSplit(whole, a, b)
    ensures FunctionsObey(s, whole) <==> FunctionsObey(s, a) && FunctionsObey(s, b)
    decreases s
  {
    match s
    case ExprStmt(o) => ExprSplits(o.expr, whole, a, b);
    case Decl(e) => ExprSplits(e, whole, a, b);
    case Nest(_, _, exprs, body) => OutersSplit(exprs, whole, a, b); AllFunctionsSplit(body, whole, a, b);
    case Jump(_, _) =>
    case Labeled(_, labeled) => FunctionsSplit(labeled, whole, a, b);
  }

  lemma {:induction false} OutersSplit(os: seq<Outer>, whole: Rules, a: Rules, b: Rules)
    requires IsSplit(whole, a, b)
    ensures OutersObey(os, whole) <==> OutersObey(os, a) && OutersObey(os, b)
    decreases os
  {
    if os != [] {
      OuterSplits(os[0], whole, a, b);
      OutersSplit(os[1..], whole, a, b);
    }
  }

  lemma {:induction false} OuterSplits(o: Outer, whole: Rules, a: Rules, b: Rules)
    requires IsSplit(whole, a, b)
    ensures OuterObeys(o, whole) <==> OuterObeys(o, a) && OuterObeys(o, b)
    decreases o
  {
    ExprSplits(o.expr, whole, a, b);
  }

  lemma {:induction false} ExprsSplit(es: seq<Expr>, whole: Rules, a: Rules, b: Rules)
    requires IsSplit(whole, a, b)
    ensures ExprsObey(es, whole) <==> ExprsObey(es, a) && ExprsObey(es, b)
    decreases es
  {
    if es != [] {
      ExprSplits(es[0], whole, a, b);
      ExprsSplit(es[1..], whole, a, b);
    }
  }

  lemma {:induction false} ExprSplits(e: Expr, whole: Rules, a: Rules, b: Rules)
    requires IsSplit(whole, a, b)
    ensures ExprObeys(e, whole) <==> ExprObeys(e, a) && ExprObeys(e, b)
    decreases e
  {
    match e
    case Op(_, operands) => ExprsSplit(operands, whole, a, b);
    case Function(_, func) => FuncSplits(func, whole, a, b);
    case ClassExpr(cls) => OutersSplit(cls.heritage, whole, a, b); ElementsSplit(cls.elements, whole, a, b);
    case Import(source, options) => ExprSplits(source, whole, a, b); ExprsSplit(options, whole, a, b);
  }

  lemma {:induction false} FuncSplits(func: Func, whole: Rules, a: Rules, b: Rules)
    requires IsSplit(whole, a, b)
    ensures FuncObeys(func, whole) <==> FuncObeys(func, a) && FuncObeys(func, b)
    decreases func
  {
    OutersSplit(func.params, whole, a, b);
    BodySplits([func.body], whole, a, b);
    FunctionsSplit(func.body, whole, a, b);
  }

  lemma {:induction false} ElementsSplit(es: seq<Element>, whole: Rules, a: Rules, b: Rules)
    requires IsSplit(whole, a, b)
    ensures ElementsObey(es, whole) <==> ElementsObey(es, a) && ElementsObey(es, b)
    decreases es
  {
    if es != [] {
      ElementSplits(es[0], whole, a, b);
      ElementsSplit(es[1..], whole, a, b);
    }
  }

  lemma {:induction false} ElementSplits(e: Element, whole: Rules, a: Rules, b: Rules)
    requires IsSplit(whole, a, b)
    ensures ElementObeys(e, whole) <==> ElementObeys(e, a) && ElementObeys(e, b)
    decreases e
  {
    OutersSplit(e.key, whole, a, b);
    if e.Method? {
      FuncSplits(e.func, whole, a, b);
    } else {
      OutersSplit(e.value, whole, a, b);
    }
  }

  // ----- The label map -----

  /** The name is a label of a continue target inside the statement. */
  predicate LabelsTarget(s: Stmt, n: Name) {
    match s
    case Nest(_, _, _, body) => AnyLabelsTarget(body, n)
    case Labeled(_, labeled) =>
      (n in LabelNames(s) && IsContinueTarget(Unlabeled(labeled))) || LabelsTarget(Unlabeled(labeled), n)
    case _ => false
  }

  predicate AnyLabelsTarget(ss: seq<Stmt>, n: Name) {
    ss != [] && (LabelsTarget(ss[0], n) || AnyLabelsTarget(ss[1..], n))
  }

  /** All that is left of a statement: an outer label with the name of a continue target inside. */
  lemma {:induction false} LabelTrace(s: Stmt, c: Context, labels: Labels, n: Name)
    ensures var after := WalkStmt(s, c, labels).labels;
            && after.Keys == labels.Keys
            && (n in labels ==> after[n] == LabelInfo(labels[n].id, labels[n].isContinueTarget || LabelsTarget(s, n)))
    decreases s, 1
  {
    match s
    case Nest(kind, _, _, body) => AllLabelTraces(body, InsideNest(kind, c), labels, n);
    case Labeled(_, _) => LabeledTrace(s, c, labels, n);
    case _ =>
  }

  lemma {:induction false} LabeledTrace(s: Stmt, c: Context, labels: Labels, n: Name)
    requires s.Labeled?
    ensures var after := WalkLabeled(s, c, labels).labels;
            && after.Keys == labels.Keys
            && (n in labels ==> after[n] == LabelInfo(labels[n].id, labels[n].isContinueTarget || LabelsTarget(s, n)))
    decreases s, 0
  {
    var names, inner, id := LabelNames(s), Unlabeled(s.labeled), c.labelDepth + 1;
    var c', entered := c.(labelDepth := id), Entered(names, id, labels, IsContinueTarget(inner));
    var after := WalkStmt(inner, c', entered).labels;
    assert WalkLabeled(s, c, labels).labels == Left(names, labels, after);
    LabelTrace(inner, c', entered, n);
    LeftLabels(names, id, labels, IsContinueTarget(inner), after, n);
  }

  lemma LeftLabels(names: seq<Name>, id: nat, labels: Labels, isTarget: bool, after: Labels, n: Name)
    requires Entered(names, id, labels, isTarget).Keys == after.Keys
    ensures Left(names, labels, after).Keys == labels.Keys
    ensures n in labels ==> Left(names, labels, after)[n] == after[n]
    ensures var entered := Entered(names, id, labels, isTarget);
            n in labels ==> entered[n] == LabelInfo(labels[n].id, labels[n].isContinueTarget || (n in names && isTarget))
  {
    var entered := Entered(names, id, labels, isTarget);
    assert forall m | m in entered :: m in labels || m in names;
    assert forall m | m in labels :: m in entered && m in after;
  }

  lemma {:induction false} AllLabelTraces(ss: seq<Stmt>, c: Context, labels: Labels, n: Name)
    ensures var after := WalkStmts(ss, c, labels).labels;
            && after.Keys == labels.Keys
            && (n in labels ==> after[n] == LabelInfo(labels[n].id, labels[n].isContinueTarget || AnyLabelsTarget(ss, n)))
    decreases ss
  {
    if ss != [] {
      LabelTrace(ss[0], c, labels, n);
      AllLabelTraces(ss[1..], c, WalkStmt(ss[0], c, labels).labels, n);
    }
  }

  /** A statement restores the label map exactly, unless it labels a continue target like an outer statement that is none. */
  lemma LabelsRestoredIff(s: Stmt, c: Context, labels: Labels)
    ensures WalkStmt(s, c, labels).labels == labels
       <==> forall n | n in labels :: LabelsTarget(s, n) ==> labels[n].isContinueTarget
  {
    var after := WalkStmt(s, c, labels).labels;
    forall n
      ensures after.Keys == labels.Keys
      ensures n in labels ==> after[n] == LabelInfo(labels[n].id, labels[n].isContinueTarget || LabelsTarget(s, n))
    {
      LabelTrace(s, c, labels, n);
    }
    if forall n | n in labels :: LabelsTarget(s, n) ==> labels[n].isContinueTarget {
      assert forall n | n in labels :: after[n] == labels[n];
    } else {
      var n :| n in labels && LabelsTarget(s, n) && !labels[n].isContinueTarget;
      assert after[n] != labels[n];
    }
  }

  /** a: while (..) ; inside a statement that is labelled a and is no continue target. */
  lemma LabelsAreNotAlwaysRestored(a: Label, test: Outer, c: Context, labels: Labels) returns (s: Stmt)
    requires a.name in labels && !labels[a.name].isContinueTarget
    ensures WalkStmt(s, c, labels).labels != labels
  {
    var loop := Nest(Loop, None, [test], [Nest(Simple, None, [], [])]);
    s := Labeled(a, loop);
    assert LabelNames(s)[0] == a.name && Unlabeled(loop) == loop;
    assert LabelsTarget(s, a.name);
    LabelsRestoredIff(s, c, labels);
  }
}
