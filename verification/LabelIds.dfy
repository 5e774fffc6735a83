/**
 Label ids: in a program without label errors every break and continue carries the number of the
 labelled statement that it names, counted from the outside, and different enclosing statements have
 different numbers. Options of imports are not visited and keep the ids that they have.
 */
module LabelIds {
  import opened Wrappers
  import opened Ast
  import opened Analysis
  import opened EarlyErrors
  import PrivateNames

  /** The labels of one statement. */
  datatype Group = Group(names: set<Name>, isContinueTarget: bool)

  /** The label map says for each label which enclosing labelled statement it belongs to. */
  ghost predicate Represents(labels: Labels, groups: seq<Group>) {
    && (forall n | n in labels :: 1 <= labels[n].id <= |groups| && n in groups[labels[n].id - 1].names)
    && (forall i, n | 0 <= i < |groups| && n in groups[i].names ::
          n in labels && labels[n] == LabelInfo(i + 1, groups[i].isContinueTarget))
  }

  /** Two visible labels have the same id exactly if they are labels of the same statement. */
  lemma SameIdSameStatement(labels: Labels, groups: seq<Group>, m: Name, n: Name)
    requires Represents(labels, groups) && m in labels && n in labels
    ensures labels[m].id == labels[n].id <==> exists g <- groups :: m in g.names && n in g.names
  {
    if labels[m].id == labels[n].id {
      assert groups[labels[m].id - 1] in groups;
    }
  }

  // ----- Trees with the right ids -----

  /** All labels on a statement have the id. */
  predicate HaveId(s: Stmt, id: nat) {
    s.Labeled? ==> s.tag.id == id && HaveId(s.labeled, id)
  }

  ghost predicate JumpResolved(isContinue: bool, target: Option<Label>, groups: seq<Group>) {
    target.Some? ==>
      && 1 <= target.value.id <= |groups|
      && target.value.name in groups[target.value.id - 1].names
      && (isContinue ==> groups[target.value.id - 1].isContinueTarget)
  }

  ghost function GroupOf(s: Stmt): Group {
    Group(NamesOf(LabelNames(s)), IsContinueTarget(Unlabeled(s)))
  }

  ghost predicate StmtResolved(s: Stmt, groups: seq<Group>) {
    match s
    case ExprStmt(o) => ExprResolved(o.expr)
    case Decl(e) => ExprResolved(e)
    case Nest(_, _, exprs, body) => OutersResolved(exprs) && StmtsResolved(body, groups)
    case Jump(isContinue, target) => JumpResolved(isContinue, target, groups)
    case Labeled(_, labeled) => HaveId(s, |groups| + 1) && StmtResolved(Unlabeled(labeled), groups + [GroupOf(s)])
  }

  ghost predicate StmtsResolved(ss: seq<Stmt>, groups: seq<Group>) {
    ss != [] ==> StmtResolved(ss[0], groups) && StmtsResolved(ss[1..], groups)
  }

  ghost predicate OutersResolved(os: seq<Outer>) {
    os != [] ==> OuterResolved(os[0]) && OutersResolved(os[1..])
  }

  ghost predicate OuterResolved(o: Outer) {
    ExprResolved(o.expr)
  }

  ghost predicate ExprsResolved(es: seq<Expr>) {
    es != [] ==> ExprResolved(es[0]) && ExprsResolved(es[1..])
  }

  ghost predicate ExprResolved(e: Expr) {
    match e
    case Op(_, operands) => ExprsResolved(operands)
    case Function(_, func) => FuncResolved(func)
    case ClassExpr(cls) => ClassResolved(cls)
    case Import(source, options) => ExprResolved(source) && ExprsResolved(options)
  }

  ghost predicate ClassResolved(cls: Class) {
    OutersResolved(cls.heritage) && ElementsResolved(cls.elements)
  }

  /** The count starts again in each function. */
  ghost predicate FuncResolved(func: Func) {
    OutersResolved(func.params) && StmtResolved(func.body, [])
  }

  ghost predicate ElementsResolved(es: seq<Element>) {
    es != [] ==> ElementResolved(es[0]) && ElementsResolved(es[1..])
  }

  ghost predicate ElementResolved(e: Element) {
    OutersResolved(e.key) && if e.Method? then FuncResolved(e.func) else OutersResolved(e.value)
  }

  // ----- What is not visited -----

  // Analysis leaves the options of imports as they are, so their ids have to be right from the start.

  ghost predicate StmtSettled(s: Stmt) {
    match s
    case ExprStmt(o) => ExprSettled(o.expr)
    case Decl(e) => ExprSettled(e)
    case Nest(_, _, exprs, body) => OutersSettled(exprs) && StmtsSettled(body)
    case Jump(_, _) => true
    case Labeled(_, labeled) => StmtSettled(labeled)
  }

  ghost predicate StmtsSettled(ss: seq<Stmt>) {
    ss != [] ==> StmtSettled(ss[0]) && StmtsSettled(ss[1..])
  }

  ghost predicate OutersSettled(os: seq<Outer>) {
    os != [] ==> OuterSettled(os[0]) && OutersSettled(os[1..])
  }

  ghost predicate OuterSettled(o: Outer) {
    ExprSettled(o.expr)
  }

  ghost predicate ExprsSettled(es: seq<Expr>) {
    es != [] ==> ExprSettled(es[0]) && ExprsSettled(es[1..])
  }

  ghost predicate ExprSettled(e: Expr) {
    match e
    case Op(_, operands) => ExprsSettled(operands)
    case Function(_, func) => FuncSettled(func)
    case ClassExpr(cls) => ClassSettled(cls)
    case Import(source, options) => ExprSettled(source) && ExprsResolved(options)
  }

  ghost predicate ClassSettled(cls: Class) {
    OutersSettled(cls.heritage) && ElementsSettled(cls.elements)
  }

  ghost predicate FuncSettled(func: Func) {
    OutersSettled(func.params) && StmtSettled(func.body)
  }

  ghost predicate ElementsSettled(es: seq<Element>) {
    es != [] ==> ElementSettled(es[0]) && ElementsSettled(es[1..])
  }

  ghost predicate ElementSettled(e: Element) {
    OutersSettled(e.key) && if e.Method? then FuncSettled(e.func) else OutersSettled(e.value)
  }

  // ----- Analysis gives the right ids -----

  lemma {:induction false} OutersResolve(os: seq<Outer>, c: Context)
    requires NoLabelErrors(WalkOuters(os, c).errors)
    ensures OutersResolved(WalkOuters(os, c).node) <==> OutersSettled(os)
    decreases os
  {
    if os != [] {
      var first, rest := WalkOuter(os[0], c), WalkOuters(os[1..], c);
      NoLabelErrorsConcat(first.errors, rest.errors);
      OuterResolve(os[0], c);
      OutersResolve(os[1..], c);
      assert ([first.node] + rest.node)[1..] == rest.node;
    }
  }

  lemma {:induction false} OuterResolve(o: Outer, c: Context)
    requires NoLabelErrors(WalkOuter(o, c).errors)
    ensures OuterResolved(WalkOuter(o, c).node) <==> OuterSettled(o)
    decreases o
  {
    ExprResolve(o.expr, c);
  }

  lemma {:induction false} ExprsResolve(es: seq<Expr>, c: Context)
    requires NoLabelErrors(WalkExprs(es, c).errors)
    ensures ExprsResolved(WalkExprs(es, c).node) <==> ExprsSettled(es)
    decreases es
  {
    if es != [] {
      var first, rest := WalkExpr(es[0], c), WalkExprs(es[1..], c);
      NoLabelErrorsConcat(first.errors, rest.errors);
      ExprResolve(es[0], c);
      ExprsResolve(es[1..], c);
      assert ([first.node] + rest.node)[1..] == rest.node;
    }
  }

  lemma {:induction false} ExprResolve(e: Expr, c: Context)
    requires NoLabelErrors(WalkExpr(e, c).errors)
    ensures ExprResolved(WalkExpr(e, c).node) <==> ExprSettled(e)
    decreases e
  {
    match e
    case Op(op, operands) =>
      NoLabelErrorsConcat(OperatorErrors(op, c), WalkExprs(operands, c).errors);
      ExprsResolve(operands, c);
    case Function(kind, func) =>
      FuncResolve(func, c, EntryOf(kind));
    case ClassExpr(cls) =>
      ClassResolve(cls, c);
    case Import(source, _) =>
      ExprResolve(source, c);
  }

  lemma {:induction false} FuncResolve(func: Func, c: Context, f: FunctionEntry)
    requires NoLabelErrors(WalkFunc(func, c, f).errors)
    ensures FuncResolved(WalkFunc(func, c, f).node) <==> FuncSettled(func)
    decreases func, 1
  {
    var inner := InsideFunction(c, f, func.isStrict);
    var r := WalkFuncParts(func, inner);
    var named := OptionalNameErrors(if f.isMethod then None else func.name, inner.strict);
    assert WalkFunc(func, c, f).errors == named + r.errors;
    NoLabelErrorsConcat(named, r.errors);
    FuncPartsResolve(func, inner);
  }

  lemma {:induction false} FuncPartsResolve(func: Func, c: Context)
    requires c.labelDepth == 0 && NoLabelErrors(WalkFuncParts(func, c).errors)
    ensures FuncResolved(WalkFuncParts(func, c).node) <==> FuncSettled(func)
    decreases func, 0
  {
    var pc := c.(inParameters := true);
    NoLabelErrorsConcat(WalkOuters(func.params, pc).errors, WalkStmt(func.body, c, map[]).errors);
    OutersResolve(func.params, pc);
    StmtResolve(func.body, c, map[], []);
  }

  lemma {:induction false} ClassResolve(cls: Class, c: Context)
    requires NoLabelErrors(WalkClass(cls, c).errors)
    ensures ClassResolved(WalkClass(cls, c).node) <==> ClassSettled(cls)
    decreases cls, 1
  {
    NoLabelErrorsConcat(OptionalNameErrors(cls.name, true), WalkClassBody(cls, InsideClass(c)).errors);
    ClassBodyResolve(cls, InsideClass(c));
  }

  lemma {:induction false} ClassBodyResolve(cls: Class, c: Context)
    requires NoLabelErrors(WalkClassBody(cls, c).errors)
    ensures ClassResolved(WalkClassBody(cls, c).node) <==> ClassSettled(cls)
    decreases cls, 0
  {
    var collected := PrivateNames.Collect(cls.elements);
    var inner := c.(classes := c.classes + [ClassEntry(collected.names.Keys, cls.heritage != [])]);
    var marked := PrivateNames.MarkPairs(cls.elements);
    var elements := WalkElements(cls.elements, inner, marked);
    NoLabelErrorsConcat(WalkOuters(cls.heritage, c).errors, collected.errors + elements.errors);
    NoLabelErrorsConcat(collected.errors, elements.errors);
    OutersResolve(cls.heritage, c);
    ElementsResolve(cls.elements, inner, marked);
  }

  lemma {:induction false} ElementsResolve(es: seq<Element>, c: Context, marked: seq<Element>)
    requires |marked| == |es| && c.classes != [] && NoLabelErrors(WalkElements(es, c, marked).errors)
    ensures ElementsResolved(WalkElements(es, c, marked).node) <==> ElementsSettled(es)
    decreases es
  {
    if es != [] {
      var first, rest := WalkElement(es[0], c, marked[0]), WalkElements(es[1..], c, marked[1..]);
      NoLabelErrorsConcat(first.errors, rest.errors);
      ElementResolve(es[0], c, marked[0]);
      ElementsResolve(es[1..], c, marked[1..]);
      assert ([first.node] + rest.node)[1..] == rest.node;
    }
  }

  lemma {:induction false} ElementResolve(e: Element, c: Context, marked: Element)
    requires c.classes != [] && NoLabelErrors(WalkElement(e, c, marked).errors)
    ensures ElementResolved(WalkElement(e, c, marked).node) <==> ElementSettled(e)
    decreases e
  {
    match e
    case Method(key, func, kind, isStatic, _, _) =>
      var isDerived := kind == Constructor && c.classes[|c.classes| - 1].isDerived;
      var f := MethodFunction(isStatic, isDerived, kind == StaticInitializer);
      NoLabelErrorsConcat(WalkOuters(key, c).errors, WalkFunc(func, c, f).errors);
      OutersResolve(key, c);
      FuncResolve(func, c, f);
    case Field(key, value, isStatic, _) =>
      var inner := InsideField(c, isStatic);
      NoLabelErrorsConcat(WalkOuters(key, c).errors, WalkOuters(value, inner).errors);
      OutersResolve(key, c);
      OutersResolve(value, inner);
  }

  lemma {:induction false} StmtsResolve(ss: seq<Stmt>, c: Context, labels: Labels, groups: seq<Group>)
    requires Represents(labels, groups) && c.labelDepth == |groups| && NoLabelErrors(WalkStmts(ss, c, labels).errors)
    ensures StmtsResolved(WalkStmts(ss, c, labels).node, groups) <==> StmtsSettled(ss)
    decreases ss
  {
    if ss != [] {
      var first := WalkStmt(ss[0], c, labels);
      var rest := WalkStmts(ss[1..], c, first.labels);
      NoLabelErrorsConcat(first.errors, rest.errors);
      StmtReport(ss[0], c, labels);
      StmtResolve(ss[0], c, labels, groups);
      StmtsResolve(ss[1..], c, labels, groups);
      assert ([first.node] + rest.node)[1..] == rest.node;
    }
  }

  lemma {:induction false} StmtResolve(s: Stmt, c: Context, labels: Labels, groups: seq<Group>)
    requires Represents(labels, groups) && c.labelDepth == |groups| && NoLabelErrors(WalkStmt(s, c, labels).errors)
    ensures StmtResolved(WalkStmt(s, c, labels).node, groups) <==> StmtSettled(s)
    decreases s, 1
  {
    match s
    case ExprStmt(o) => ExprResolve(o.expr, c);
    case Decl(expr) => ExprResolve(expr, c);
    case Nest(kind, _, _, _) =>
      NoLabelErrorsConcat(NestErrors(kind, c), WalkNest(s, InsideNest(kind, c), labels).errors);
      NestResolve(s, InsideNest(kind, c), labels, groups);
    case Jump(isContinue, target) => JumpResolve(isContinue, target, c, labels, groups);
    case Labeled(_, _) => LabeledResolve(s, c, labels, groups);
  }

  lemma {:induction false} NestResolve(s: Stmt, c: Context, labels: Labels, groups: seq<Group>)
    requires s.Nest? && Represents(labels, groups) && c.labelDepth == |groups|
    requires NoLabelErrors(WalkNest(s, c, labels).errors)
    ensures StmtResolved(WalkNest(s, c, labels).node, groups) <==> StmtSettled(s)
    decreases s, 0
  {
    NoLabelErrorsConcat(WalkOuters(s.exprs, c).errors, WalkStmts(s.body, c, labels).errors);
    OutersResolve(s.exprs, c);
    StmtsResolve(s.body, c, labels, groups);
  }

  lemma JumpResolve(isContinue: bool, target: Option<Label>, c: Context, labels: Labels, groups: seq<Group>)
    requires Represents(labels, groups) && NoLabelErrors(JumpErrors(isContinue, target, c, labels))
    ensures JumpResolved(isContinue, ResolvedLabel(target, labels, isContinue), groups)
  {
    if target.Some? {
      var n := target.value.name;
      var isBad := n !in labels || (isContinue && !labels[n].isContinueTarget);
      NoLabelErrorsIf(isBad, LabelNotFound);
      var placed := JumpErrors(isContinue, target, c, labels)[|LabelUseErrors(target, labels, isContinue)|..];
      assert JumpErrors(isContinue, target, c, labels) == LabelUseErrors(target, labels, isContinue) + placed;
      NoLabelErrorsConcat(LabelUseErrors(target, labels, isContinue), placed);
      assert !isBad;
    }
  }

  lemma {:induction false} LabeledResolve(s: Stmt, c: Context, labels: Labels, groups: seq<Group>)
    requires s.Labeled? && Represents(labels, groups) && c.labelDepth == |groups|
    requires NoLabelErrors(WalkLabeled(s, c, labels).errors)
    ensures StmtResolved(WalkLabeled(s, c, labels).node, groups) <==> StmtSettled(s)
    decreases s, 0
  {
    var names, inner, id := LabelNames(s), Unlabeled(s.labeled), c.labelDepth + 1;
    var c', entered := c.(labelDepth := id), Entered(names, id, labels, IsContinueTarget(inner));
    var b := WalkStmt(inner, c', entered);
    NoLabelErrorsConcat(DuplicateErrors(names, labels.Keys), b.errors);
    NewLabels(names, labels.Keys);
    EnteredRepresents(names, labels, groups, IsContinueTarget(inner));
    StmtResolve(inner, c', entered, groups + [GroupOf(s)]);
    WalkKeepsKind(inner, c', entered);
    RelabeledIsResolved(s, b.node, groups);
    LabelsSettle(s);
  }

  lemma EnteredRepresents(names: seq<Name>, labels: Labels, groups: seq<Group>, isTarget: bool)
    requires Represents(labels, groups) && NamesOf(names) !! labels.Keys
    ensures Represents(Entered(names, |groups| + 1, labels, isTarget), groups + [Group(NamesOf(names), isTarget)])
  {
    var entered, groups' := Entered(names, |groups| + 1, labels, isTarget), groups + [Group(NamesOf(names), isTarget)];
    forall n | n in entered
      ensures entered[n] == if n in labels then labels[n] else LabelInfo(|groups| + 1, isTarget)
      ensures n in labels || n in names
    {}
    assert forall n | n in labels :: n in entered;
    assert forall n <- names :: n in entered && n !in labels;
  }

  lemma WalkKeepsKind(s: Stmt, c: Context, labels: Labels)
    requires !s.Labeled?
    ensures var r := WalkStmt(s, c, labels).node; !r.Labeled? && IsContinueTarget(r) == IsContinueTarget(s)
  {}

  lemma {:induction false} RelabeledParts(s: Stmt, id: nat, inner: Stmt)
    requires !inner.Labeled?
    ensures var r := Relabeled(s, id, inner);
            HaveId(r, id) && LabelNames(r) == LabelNames(s) && Unlabeled(r) == inner
  {
    if s.Labeled? {
      RelabeledParts(s.labeled, id, inner);
    }
  }

  lemma RelabeledIsResolved(s: Stmt, inner: Stmt, groups: seq<Group>)
    requires s.Labeled? && !inner.Labeled? && IsContinueTarget(inner) == IsContinueTarget(Unlabeled(s.labeled))
    ensures StmtResolved(Relabeled(s, |groups| + 1, inner), groups) <==> StmtResolved(inner, groups + [GroupOf(s)])
  {
    RelabeledParts(s, |groups| + 1, inner);
    assert GroupOf(Relabeled(s, |groups| + 1, inner)) == GroupOf(s);
  }

  lemma {:induction false} LabelsSettle(s: Stmt)
    ensures StmtSettled(s) <==> StmtSettled(Unlabeled(s))
  {
    if s.Labeled? {
      LabelsSettle(s.labeled);
    }
  }

  /**
   The main result: a program without label errors comes out with the right ids everywhere, if and only if
   those in options of imports, which stay as they are, were right before.
   */
  lemma LabelIdsAreRight(p: Program)
    requires NoLabelErrors(WalkProgram(p).errors)
    ensures StmtsResolved(WalkProgram(p).node, []) <==> StmtsSettled(p.toplevels)
  {
    StmtsResolve(p.toplevels, Context(0, false, false, p.isStrict, true, false, [], []), map[], []);
  }
}
