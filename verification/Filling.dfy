/**
 Analysis only fills in: the tree that it returns is the tree that it was given, node by node and in order, but
 for label ids, assignment marks and static bits, and with two more fields filled in. A function that is not an
 arrow function needs an arguments object exactly if its scope binds one. In a class without duplicate private
 names exactly the accessors whose partner follows are marked as the start of a pair.
 */
module Filling {
  import opened Wrappers
  import opened Ast
  import opened Analysis
  import PrivateNames

  // ----- Trees that are filled in -----

  predicate OperatorFilled(op: Operator, r: Operator) {
    if op.SuperMember? then r.SuperMember? else r == op
  }

  ghost predicate ExprFilled(e: Expr, r: Expr) {
    match e
    case Op(op, operands) => r.Op? && OperatorFilled(op, r.op) && ExprsFilled(operands, r.operands)
    case Function(kind, func) => r.Function? && r.kind == kind && FuncFilled(func, r.func, kind.ArrowFunction?)
    case ClassExpr(cls) => r.ClassExpr? && ClassFilled(cls, r.cls)
    case Import(source, options) => r.Import? && ExprFilled(source, r.source) && r.options == options
  }

  ghost predicate ExprsFilled(es: seq<Expr>, rs: seq<Expr>) {
    |rs| == |es| && (es != [] ==> ExprFilled(es[0], rs[0]) && ExprsFilled(es[1..], rs[1..]))
  }

  ghost predicate OuterFilled(o: Outer, r: Outer) {
    ExprFilled(o.expr, r.expr)
  }

  ghost predicate OutersFilled(os: seq<Outer>, rs: seq<Outer>) {
    |rs| == |os| && (os != [] ==> OuterFilled(os[0], rs[0]) && OutersFilled(os[1..], rs[1..]))
  }

  ghost predicate FuncFilled(func: Func, r: Func, isArrow: bool) {
    && r == func.(params := r.params, body := r.body, needsArguments := r.needsArguments)
    && OutersFilled(func.params, r.params) && StmtFilled(func.body, r.body)
    && (isArrow ==> r.needsArguments == func.needsArguments) && (!isArrow ==> r.needsArguments == func.bindsArguments)
  }

  ghost predicate ClassFilled(cls: Class, r: Class) {
    && r == cls.(heritage := r.heritage, elements := r.elements)
    && OutersFilled(cls.heritage, r.heritage) && ElementsFilled(cls.elements, r.elements) && PairsAreMarked(cls.elements, r.elements)
  }

  ghost predicate ElementsFilled(es: seq<Element>, rs: seq<Element>) {
    |rs| == |es| && (es != [] ==> ElementFilled(es[0], rs[0]) && ElementsFilled(es[1..], rs[1..]))
  }

  ghost predicate ElementFilled(e: Element, r: Element) {
    OutersFilled(e.key, r.key) &&
    match e
    case Method(_, func, _, _, _, _) => r.Method? && r == e.(key := r.key, func := r.func, isPairStart := r.isPairStart) && FuncFilled(func, r.func, false)
    case Field(_, value, _, _) => r.Field? && r == e.(key := r.key, value := r.value) && OutersFilled(value, r.value)
  }

  ghost predicate PairsAreMarked(es: seq<Element>, rs: seq<Element>) {
    |rs| == |es| && forall i | 0 <= i < |es| && es[i].Method? :: PairIsMarked(es, i, rs[i])
  }

  ghost predicate PairIsMarked(es: seq<Element>, i: nat, r: Element)
    requires i < |es| && es[i].Method?
  {
    r.Method? && if es[i].isPairStart then r.isPairStart
                 else PrivateNames.NamesAreUnique(es) ==> (r.isPairStart <==> PrivateNames.IsAccessor(es[i]) && PrivateNames.PartnerFollows(es, i))
  }

  ghost predicate StmtFilled(s: Stmt, r: Stmt) {
    match s
    case ExprStmt(o) => r.ExprStmt? && OuterFilled(o, r.outer)
    case Decl(e) => r.Decl? && ExprFilled(e, r.expr)
    case Nest(kind, own, exprs, body) => r.Nest? && r.nest == kind && r.own == own && OutersFilled(exprs, r.exprs) && StmtsFilled(body, r.body)
    case Jump(isContinue, target) => r.Jump? && r.isContinue == isContinue && TargetFilled(target, r.target)
    case Labeled(tag, labeled) => r.Labeled? && r.tag.name == tag.name && StmtFilled(labeled, r.labeled)
  }

  predicate TargetFilled(target: Option<Label>, r: Option<Label>) {
    if target.None? then r.None? else r.Some? && r.value.name == target.value.name
  }

  ghost predicate StmtsFilled(ss: seq<Stmt>, rs: seq<Stmt>) {
    |rs| == |ss| && (ss != [] ==> StmtFilled(ss[0], rs[0]) && StmtsFilled(ss[1..], rs[1..]))
  }

  // ----- Analysis fills in -----

  lemma {:induction false} ExprFills(e: Expr, c: Context)
    ensures ExprFilled(e, WalkExpr(e, c).node)
    decreases e
  {
    match e
    case Op(_, operands) => ExprsFill(operands, c);
    case Function(kind, func) => FuncFills(func, c, EntryOf(kind));
    case ClassExpr(cls) => ClassFills(cls, InsideClass(c));
    case Import(source, _) => ExprFills(source, c);
  }

  lemma {:induction false} ExprsFill(es: seq<Expr>, c: Context)
    ensures ExprsFilled(es, WalkExprs(es, c).node)
    decreases es
  {
    if es != [] {
      ExprFills(es[0], c);
      ExprsFill(es[1..], c);
      assert WalkExprs(es, c).node[1..] == WalkExprs(es[1..], c).node;
    }
  }

  lemma {:induction false} OutersFill(os: seq<Outer>, c: Context)
    ensures OutersFilled(os, WalkOuters(os, c).node)
    decreases os
  {
    if os != [] {
      OuterFills(os[0], c);
      OutersFill(os[1..], c);
      assert WalkOuters(os, c).node[1..] == WalkOuters(os[1..], c).node;
    }
  }

  lemma {:induction false} OuterFills(o: Outer, c: Context)
    ensures OuterFilled(o, WalkOuter(o, c).node)
    decreases o
  {
    ExprFills(o.expr, c);
  }

  lemma {:induction false} FuncFills(func: Func, c: Context, f: FunctionEntry)
    ensures FuncFilled(func, WalkFunc(func, c, f).node, f.isArrow)
    decreases func
  {
    var inner := InsideFunction(c, f, func.isStrict);
    var r := WalkFuncParts(func, inner).node;
    assert r == func.(params := WalkOuters(func.params, inner.(inParameters := true)).node, body := WalkStmt(func.body, inner, map[]).node);
    assert WalkFunc(func, c, f).node == r.(needsArguments := if f.isArrow then func.needsArguments else func.bindsArguments);
    OutersFill(func.params, inner.(inParameters := true));
    StmtFills(func.body, inner, map[]);
  }

  lemma {:induction false} ClassFills(cls: Class, c: Context)
    ensures ClassFilled(cls, WalkClassBody(cls, c).node)
    decreases cls
  {
    var collected, marked := PrivateNames.Collect(cls.elements), PrivateNames.MarkPairs(cls.elements);
    var inner := c.(classes := c.classes + [ClassEntry(collected.names.Keys, cls.heritage != [])]);
    OutersFill(cls.heritage, c);
    ElementsFill(cls.elements, inner, marked);
    ElementsMark(cls.elements, inner);
  }

  lemma {:induction false} ElementsFill(es: seq<Element>, c: Context, marked: seq<Element>)
    requires |marked| == |es| && c.classes != []
    ensures ElementsFilled(es, WalkElements(es, c, marked).node)
    decreases es
  {
    if es != [] {
      ElementFills(es[0], c, marked[0]);
      ElementsFill(es[1..], c, marked[1..]);
      assert WalkElements(es, c, marked).node[1..] == WalkElements(es[1..], c, marked[1..]).node;
    }
  }

  lemma {:induction false} ElementFills(e: Element, c: Context, marked: Element)
    requires c.classes != []
    ensures ElementFilled(e, WalkElement(e, c, marked).node)
    decreases e
  {
    OutersFill(e.key, c);
    match e
    case Method(_, func, kind, isStatic, _, _) =>
      FuncFills(func, c, MethodFunction(isStatic, kind == Constructor && c.classes[|c.classes| - 1].isDerived, kind == StaticInitializer));
    case Field(_, value, isStatic, _) =>
      OutersFill(value, InsideField(c, isStatic));
  }

  lemma {:induction false} ElementKeepsMark(es: seq<Element>, c: Context, marked: seq<Element>, i: nat)
    requires |marked| == |es| && c.classes != [] && i < |es|
    ensures var rs := WalkElements(es, c, marked).node;
            && |rs| == |es|
            && (es[i].Method? && marked[i].Method? ==> rs[i].Method? && rs[i].isPairStart == marked[i].isPairStart)
    decreases es
  {
    if |es| > 1 {
      ElementKeepsMark(es[1..], c, marked[1..], if i > 0 then i - 1 else 0);
    }
  }

  lemma ElementsMark(es: seq<Element>, c: Context)
    requires c.classes != []
    ensures PairsAreMarked(es, WalkElements(es, c, PrivateNames.MarkPairs(es)).node)
  {
    var marked := PrivateNames.MarkPairs(es);
    var rs := WalkElements(es, c, marked).node;
    if es != [] {
      ElementKeepsMark(es, c, marked, 0);
    }
    forall i | 0 <= i < |es| && es[i].Method?
      ensures PairIsMarked(es, i, rs[i])
    {
      ElementKeepsMark(es, c, marked, i);
      MarkIsRight(es, i);
    }
  }

  lemma MarkIsRight(es: seq<Element>, i: nat)
    requires i < |es| && es[i].Method?
    ensures PairIsMarked(es, i, PrivateNames.MarkPairs(es)[i])
  {
    if !es[i].isPairStart && PrivateNames.NamesAreUnique(es) {
      PrivateNames.PairStartsAreMarked(es, i);
    }
  }

  lemma {:induction false} StmtsFill(ss: seq<Stmt>, c: Context, labels: Labels)
    ensures StmtsFilled(ss, WalkStmts(ss, c, labels).node)
    decreases ss
  {
    if ss != [] {
      var first := WalkStmt(ss[0], c, labels);
      StmtFills(ss[0], c, labels);
      StmtsFill(ss[1..], c, first.labels);
      assert WalkStmts(ss, c, labels).node[1..] == WalkStmts(ss[1..], c, first.labels).node;
    }
  }

  lemma {:induction false} StmtFills(s: Stmt, c: Context, labels: Labels)
    ensures StmtFilled(s, WalkStmt(s, c, labels).node)
    decreases s, 1
  {
    match s
    case ExprStmt(o) => ExprFills(o.expr, c);
    case Decl(e) => ExprFills(e, c);
    case Nest(kind, _, exprs, body) => OutersFill(exprs, InsideNest(kind, c)); StmtsFill(body, InsideNest(kind, c), labels);
    case Jump(_, _) =>
    case Labeled(_, _) => LabeledFills(s, c, labels);
  }

  lemma {:induction false} LabeledFills(s: Stmt, c: Context, labels: Labels)
    requires s.Labeled?
    ensures StmtFilled(s, WalkLabeled(s, c, labels).node)
    decreases s, 0
  {
    var inner, id := Unlabeled(s.labeled), c.labelDepth + 1;
    var c', entered := c.(labelDepth := id), Entered(LabelNames(s), id, labels, IsContinueTarget(inner));
    var b := WalkStmt(inner, c', entered).node;
    assert WalkLabeled(s, c, labels).node == Relabeled(s, id, b);
    StmtFills(inner, c', entered);
    RelabeledIsFilled(s, id, b);
  }

  lemma {:induction false} RelabeledIsFilled(s: Stmt, id: nat, r: Stmt)
    requires StmtFilled(Unlabeled(s), r)
    ensures StmtFilled(s, Relabeled(s, id, r))
  {
    if s.Labeled? {
      RelabeledIsFilled(s.labeled, id, r);
    }
  }

  /** The main result: the tree of every analyzed program is the one that was given, filled in. */
  lemma AnalysisFillsIn(p: Program)
    ensures StmtsFilled(p.toplevels, WalkProgram(p).node)
  {
    StmtsFill(p.toplevels, Context(0, false, false, p.isStrict, true, false, [], []), map[]);
  }
}
