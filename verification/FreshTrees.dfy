/**
 Trees as the parser makes them: every label has id 0, no expression is marked and no super member is
 static. For them it can be told without looking at annotations when analysis gets everything right: there
 must be nothing to fill in where it does not look, which is in the options of imports.
 */
module FreshTrees {
  import opened Wrappers
  import opened Ast
  import opened Analysis
  import opened Annotations
  import opened LabelIds
  import EarlyErrors

  datatype Quality =
    | Fresh      // nothing has been filled in
    | Unlabeled  // there are no labels: nothing needs an id
    | Unmarked   // there are no assignments, and no super members in static methods: nothing needs a mark

  /** `all` is false if the quality is asked only of the options of imports. */
  predicate OperatorIs(op: Operator, home: Home, q: Quality, all: bool) {
    all && op.SuperMember? ==>
      match q
      case Fresh => !op.isStatic
      case Unlabeled => true
      case Unmarked => home != Some(true)
  }

  /** Where options do not count, an assignment in them does no harm if there is another one in the same context. */
  predicate MarkIs(hasAssign: bool, visited: bool, inOptions: bool, q: Quality, all: bool) {
    match q
    case Fresh => all ==> !hasAssign
    case Unlabeled => true
    case Unmarked => if all then !visited && !inOptions else inOptions ==> visited
  }

  predicate LabelIs(tag: Label, q: Quality, all: bool) {
    all ==> match q case Fresh => tag.id == 0 case Unlabeled => false case Unmarked => true
  }

  predicate ExprIs(e: Expr, home: Home, q: Quality, all: bool) {
    match e
    case Op(op, operands) => OperatorIs(op, home, q, all) && ExprsAre(operands, home, q, all)
    case Function(kind, func) => FuncIs(func, HomeInFunction(kind, home), q, all)
    case ClassExpr(cls) => ClassIs(cls, home, q, all)
    case Import(source, options) => ExprIs(source, home, q, all) && ExprsAre(options, home, q, true)
  }

  predicate ExprsAre(es: seq<Expr>, home: Home, q: Quality, all: bool) {
    es != [] ==> ExprIs(es[0], home, q, all) && ExprsAre(es[1..], home, q, all)
  }

  predicate OuterIs(o: Outer, home: Home, q: Quality, all: bool) {
    MarkIs(o.hasAssign, Assigns(o.expr, false), OptionsAssign(o.expr), q, all) && ExprIs(o.expr, home, q, all)
  }

  predicate OutersAre(os: seq<Outer>, home: Home, q: Quality, all: bool) {
    os != [] ==> OuterIs(os[0], home, q, all) && OutersAre(os[1..], home, q, all)
  }

  predicate FuncIs(func: Func, home: Home, q: Quality, all: bool) {
    OutersAre(func.params, home, q, all) && StmtIs(func.body, home, q, all)
  }

  predicate ClassIs(cls: Class, home: Home, q: Quality, all: bool) {
    OutersAre(cls.heritage, home, q, all) && ElementsAre(cls.elements, home, q, all)
  }

  predicate ElementsAre(es: seq<Element>, home: Home, q: Quality, all: bool) {
    es != [] ==> ElementIs(es[0], home, q, all) && ElementsAre(es[1..], home, q, all)
  }

  predicate ElementIs(e: Element, home: Home, q: Quality, all: bool) {
    OutersAre(e.key, home, q, all) &&
    match e
    case Method(_, func, kind, isStatic, _, _) => FuncIs(func, HomeInMethod(isStatic, kind), q, all)
    case Field(_, value, isStatic, _) => OutersAre(value, Some(isStatic), q, all)
  }

  predicate StmtIs(s: Stmt, home: Home, q: Quality, all: bool) {
    match s
    case ExprStmt(o) =>
      && MarkIs(o.hasAssign, StatementAssigns(o.expr, false), OptionsAssign(o.expr), q, all)
      && ExprIs(o.expr, home, q, all)
    case Decl(e) => ExprIs(e, home, q, all)
    case Nest(_, _, exprs, body) => OutersAre(exprs, home, q, all) && StmtsAre(body, home, q, all)
    case Jump(_, target) => target.Some? ==> LabelIs(target.value, q, all)
    case Labeled(tag, labeled) => LabelIs(tag, q, all) && StmtIs(labeled, home, q, all)
  }

  predicate StmtsAre(ss: seq<Stmt>, home: Home, q: Quality, all: bool) {
    ss != [] ==> StmtIs(ss[0], home, q, all) && StmtsAre(ss[1..], home, q, all)
  }

  // ----- A fresh tree is right exactly if there is nothing to fill in -----

  lemma {:induction false} FreshExpr(e: Expr, home: Home)
    requires ExprIs(e, home, Fresh, true)
    ensures ExprResolved(e) <==> ExprIs(e, home, Unlabeled, true)
    ensures ExprSettled(e) <==> ExprIs(e, home, Unlabeled, false)
    ensures ExprRight(e, home) <==> ExprIs(e, home, Unmarked, true)
    ensures ExprSound(e, home) <==> ExprIs(e, home, Unmarked, false)
    decreases e
  {
    match e
    case Op(_, operands) => FreshExprs(operands, home);
    case Function(kind, func) => FreshFunc(func, HomeInFunction(kind, home));
    case ClassExpr(cls) => FreshOuters(cls.heritage, home); FreshElements(cls.elements, home);
    case Import(source, options) => FreshExpr(source, home); FreshExprs(options, home);
  }

  lemma {:induction false} FreshExprs(es: seq<Expr>, home: Home)
    requires ExprsAre(es, home, Fresh, true)
    ensures ExprsResolved(es) <==> ExprsAre(es, home, Unlabeled, true)
    ensures ExprsSettled(es) <==> ExprsAre(es, home, Unlabeled, false)
    ensures ExprsRight(es, home) <==> ExprsAre(es, home, Unmarked, true)
    ensures ExprsSound(es, home) <==> ExprsAre(es, home, Unmarked, false)
    decreases es
  {
    if es != [] {
      FreshExpr(es[0], home);
      FreshExprs(es[1..], home);
    }
  }

  lemma {:induction false} FreshOuter(o: Outer, home: Home)
    requires OuterIs(o, home, Fresh, true)
    ensures OuterResolved(o) <==> OuterIs(o, home, Unlabeled, true)
    ensures OuterSettled(o) <==> OuterIs(o, home, Unlabeled, false)
    ensures OuterRight(o, home) <==> OuterIs(o, home, Unmarked, true)
    ensures OuterSound(o, home) <==> OuterIs(o, home, Unmarked, false)
    decreases o
  {
    FreshExpr(o.expr, home);
    AssignsSplits(o.expr);
  }

  lemma {:induction false} FreshOuters(os: seq<Outer>, home: Home)
    requires OutersAre(os, home, Fresh, true)
    ensures OutersResolved(os) <==> OutersAre(os, home, Unlabeled, true)
    ensures OutersSettled(os) <==> OutersAre(os, home, Unlabeled, false)
    ensures OutersRight(os, home) <==> OutersAre(os, home, Unmarked, true)
    ensures OutersSound(os, home) <==> OutersAre(os, home, Unmarked, false)
    decreases os
  {
    if os != [] {
      FreshOuter(os[0], home);
      FreshOuters(os[1..], home);
    }
  }

  lemma {:induction false} FreshFunc(func: Func, home: Home)
    requires FuncIs(func, home, Fresh, true)
    ensures FuncResolved(func) <==> FuncIs(func, home, Unlabeled, true)
    ensures FuncSettled(func) <==> FuncIs(func, home, Unlabeled, false)
    ensures FuncRight(func, home) <==> FuncIs(func, home, Unmarked, true)
    ensures FuncSound(func, home) <==> FuncIs(func, home, Unmarked, false)
    decreases func
  {
    FreshOuters(func.params, home);
    FreshStmt(func.body, home, []);
  }

  lemma {:induction false} FreshElements(es: seq<Element>, home: Home)
    requires ElementsAre(es, home, Fresh, true)
    ensures ElementsResolved(es) <==> ElementsAre(es, home, Unlabeled, true)
    ensures ElementsSettled(es) <==> ElementsAre(es, home, Unlabeled, false)
    ensures ElementsRight(es, home) <==> ElementsAre(es, home, Unmarked, true)
    ensures ElementsSound(es, home) <==> ElementsAre(es, home, Unmarked, false)
    decreases es
  {
    if es != [] {
      FreshElement(es[0], home);
      FreshElements(es[1..], home);
    }
  }

  lemma {:induction false} FreshElement(e: Element, home: Home)
    requires ElementIs(e, home, Fresh, true)
    ensures ElementResolved(e) <==> ElementIs(e, home, Unlabeled, true)
    ensures ElementSettled(e) <==> ElementIs(e, home, Unlabeled, false)
    ensures ElementRight(e, home) <==> ElementIs(e, home, Unmarked, true)
    ensures ElementSound(e, home) <==> ElementIs(e, home, Unmarked, false)
    decreases e
  {
    FreshOuters(e.key, home);
    match e
    case Method(_, func, kind, isStatic, _, _) => FreshFunc(func, HomeInMethod(isStatic, kind));
    case Field(_, value, isStatic, _) => FreshOuters(value, Some(isStatic));
  }

  lemma {:induction false} FreshStmt(s: Stmt, home: Home, groups: seq<Group>)
    requires StmtIs(s, home, Fresh, true)
    ensures StmtResolved(s, groups) <==> StmtIs(s, home, Unlabeled, true)
    ensures StmtSettled(s) <==> StmtIs(s, home, Unlabeled, false)
    ensures StmtRight(s, home) <==> StmtIs(s, home, Unmarked, true)
    ensures StmtSound(s, home) <==> StmtIs(s, home, Unmarked, false)
    decreases s
  {
    match s
    case ExprStmt(o) => FreshExpr(o.expr, home); StatementAssignsSplits(o.expr);
    case Decl(e) => FreshExpr(e, home);
    case Nest(_, _, exprs, body) => FreshOuters(exprs, home); FreshStmts(body, home, groups);
    case Jump(_, _) =>
    case Labeled(_, labeled) => FreshStmt(labeled, home, groups);
  }

  lemma StatementAssignsSplits(e: Expr)
    ensures StatementAssigns(e, true) <==> StatementAssigns(e, false) || OptionsAssign(e)
  {
    AssignsSplits(e);
    if e.Op? {
      AnyAssignsSplits(e.operands);
    }
  }

  lemma {:induction false} FreshStmts(ss: seq<Stmt>, home: Home, groups: seq<Group>)
    requires StmtsAre(ss, home, Fresh, true)
    ensures StmtsResolved(ss, groups) <==> StmtsAre(ss, home, Unlabeled, true)
    ensures StmtsSettled(ss) <==> StmtsAre(ss, home, Unlabeled, false)
    ensures StmtsRight(ss, home) <==> StmtsAre(ss, home, Unmarked, true)
    ensures StmtsSound(ss, home) <==> StmtsAre(ss, home, Unmarked, false)
    decreases ss
  {
    if ss != [] {
      FreshStmt(ss[0], home, groups);
      FreshStmts(ss[1..], home, groups);
    }
  }

  // ----- The main results -----

  /** What the parser makes gets the right ids everywhere, if and only if options of imports hold no labels. */
  lemma ParsedLabelIdsAreRight(p: Program)
    requires StmtsAre(p.toplevels, None, Fresh, true) && EarlyErrors.NoLabelErrors(WalkProgram(p).errors)
    ensures StmtsResolved(WalkProgram(p).node, []) <==> StmtsAre(p.toplevels, None, Unlabeled, false)
  {
    LabelIdsAreRight(p);
    FreshStmts(p.toplevels, None, []);
  }

  /**
   What the parser makes gets the right marks and static bits everywhere, if and only if there are none to be
   set in options of imports, and no context has its only assignment there.
   */
  lemma ParsedAnnotationsAreRight(p: Program)
    requires StmtsAre(p.toplevels, None, Fresh, true)
    ensures StmtsRight(WalkProgram(p).node, None) <==> StmtsAre(p.toplevels, None, Unmarked, false)
  {
    AnnotationsAreRight(p);
    FreshStmts(p.toplevels, None, []);
  }
}
