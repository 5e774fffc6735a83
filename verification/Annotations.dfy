/**
 Annotations: in the tree that analysis returns, every expression with a context of its own is marked
 exactly if there is an assignment in it, and every super member knows whether it goes through a static
 home object. A super member outside a method is reported. The exception is the options of imports, which
 are not visited; what they must be like for the results to hold everywhere is stated exactly.

 What a super member may refer to is defined on the tree alone: a method, accessor or field initializer
 gives its static bit to everything in it, arrow functions pass it on, other functions take it away.
 */
module Annotations {
  import opened Wrappers
  import opened Ast
  import opened Analysis
  import PrivateNames

  /** The static bit of the innermost method around an expression, seen through arrow functions. */
  type Home = Option<bool>

  function HomeInFunction(kind: FunctionKind, home: Home): Home {
    match kind
    case ArrowFunction => home
    case ObjectMethod => Some(false)
    case FunctionExpression => None
  }

  function HomeInMethod(isStatic: bool, kind: MethodKind): Home {
    Some(isStatic || kind == StaticInitializer)
  }

  ghost predicate IsHome(functions: seq<FunctionEntry>, home: Home) {
    SuperOf(functions) == if home.None? then Disallow else Allow(home.value)
  }

  // ----- Trees in which every super member is in a method -----

  /** What is looked at: everything, or what is visited, or the rest, which is the options of imports. */
  datatype Part = All | Visited | Options

  predicate ExprLegal(e: Expr, home: Home, part: Part) {
    match e
    case Op(op, operands) => (op.SuperMember? && !part.Options? ==> home.Some?) && ExprsLegal(operands, home, part)
    case Function(kind, func) => FuncLegal(func, HomeInFunction(kind, home), part)
    case ClassExpr(cls) => ClassLegal(cls, home, part)
    case Import(source, options) => ExprLegal(source, home, part) && (part.Visited? || ExprsLegal(options, home, All))
  }

  predicate ExprsLegal(es: seq<Expr>, home: Home, part: Part) {
    es != [] ==> ExprLegal(es[0], home, part) && ExprsLegal(es[1..], home, part)
  }

  predicate OuterLegal(o: Outer, home: Home, part: Part) {
    ExprLegal(o.expr, home, part)
  }

  predicate OutersLegal(os: seq<Outer>, home: Home, part: Part) {
    os != [] ==> OuterLegal(os[0], home, part) && OutersLegal(os[1..], home, part)
  }

  predicate FuncLegal(func: Func, home: Home, part: Part) {
    OutersLegal(func.params, home, part) && StmtLegal(func.body, home, part)
  }

  predicate ClassLegal(cls: Class, home: Home, part: Part) {
    OutersLegal(cls.heritage, home, part) && ElementsLegal(cls.elements, home, part)
  }

  predicate ElementsLegal(es: seq<Element>, home: Home, part: Part) {
    es != [] ==> ElementLegal(es[0], home, part) && ElementsLegal(es[1..], home, part)
  }

  predicate ElementLegal(e: Element, home: Home, part: Part) {
    OutersLegal(e.key, home, part) &&
    match e
    case Method(_, func, kind, isStatic, _, _) => FuncLegal(func, HomeInMethod(isStatic, kind), part)
    case Field(_, value, isStatic, _) => OutersLegal(value, Some(isStatic), part)
  }

  predicate StmtLegal(s: Stmt, home: Home, part: Part) {
    match s
    case ExprStmt(o) => OuterLegal(o, home, part)
    case Decl(e) => ExprLegal(e, home, part)
    case Nest(_, _, exprs, body) => OutersLegal(exprs, home, part) && StmtsLegal(body, home, part)
    case Jump(_, _) => true
    case Labeled(_, labeled) => StmtLegal(labeled, home, part)
  }

  predicate StmtsLegal(ss: seq<Stmt>, home: Home, part: Part) {
    ss != [] ==> StmtLegal(ss[0], home, part) && StmtsLegal(ss[1..], home, part)
  }

  // ----- Trees with the right annotations -----

  predicate ExprRight(e: Expr, home: Home) {
    match e
    case Op(op, operands) => (op.SuperMember? && home.Some? ==> op.isStatic == home.value) && ExprsRight(operands, home)
    case Function(kind, func) => FuncRight(func, HomeInFunction(kind, home))
    case ClassExpr(cls) => ClassRight(cls, home)
    case Import(source, options) => ExprRight(source, home) && ExprsRight(options, home)
  }

  predicate ExprsRight(es: seq<Expr>, home: Home) {
    es != [] ==> ExprRight(es[0], home) && ExprsRight(es[1..], home)
  }

  predicate OuterRight(o: Outer, home: Home) {
    o.hasAssign == Assigns(o.expr, true) && ExprRight(o.expr, home)
  }

  predicate OutersRight(os: seq<Outer>, home: Home) {
    os != [] ==> OuterRight(os[0], home) && OutersRight(os[1..], home)
  }

  predicate FuncRight(func: Func, home: Home) {
    OutersRight(func.params, home) && StmtRight(func.body, home)
  }

  predicate ClassRight(cls: Class, home: Home) {
    OutersRight(cls.heritage, home) && ElementsRight(cls.elements, home)
  }

  predicate ElementsRight(es: seq<Element>, home: Home) {
    es != [] ==> ElementRight(es[0], home) && ElementsRight(es[1..], home)
  }

  predicate ElementRight(e: Element, home: Home) {
    OutersRight(e.key, home) &&
    match e
    case Method(_, func, kind, isStatic, _, _) => FuncRight(func, HomeInMethod(isStatic, kind))
    case Field(_, value, isStatic, _) => OutersRight(value, Some(isStatic))
  }

  /** An assignment statement is judged on its two sides only. */
  predicate StmtRight(s: Stmt, home: Home) {
    match s
    case ExprStmt(o) => o.hasAssign == StatementAssigns(o.expr, true) && ExprRight(o.expr, home)
    case Decl(e) => ExprRight(e, home)
    case Nest(_, _, exprs, body) => OutersRight(exprs, home) && StmtsRight(body, home)
    case Jump(_, _) => true
    case Labeled(_, labeled) => StmtRight(labeled, home)
  }

  predicate StmtsRight(ss: seq<Stmt>, home: Home) {
    ss != [] ==> StmtRight(ss[0], home) && StmtsRight(ss[1..], home)
  }

  // ----- What is not visited -----

  /** An assignment occurs in the options of an import, outside nested functions and classes. */
  predicate OptionsAssign(e: Expr) {
    match e
    case Op(_, operands) => AnyOptionsAssign(operands)
    case Import(source, options) => OptionsAssign(source) || AnyAssigns(options, true)
    case _ => false
  }

  predicate AnyOptionsAssign(es: seq<Expr>) {
    es != [] && (OptionsAssign(es[0]) || AnyOptionsAssign(es[1..]))
  }

  lemma {:induction false} AssignsSplits(e: Expr)
    ensures Assigns(e, true) <==> Assigns(e, false) || OptionsAssign(e)
    decreases e
  {
    match e
    case Op(_, operands) => AnyAssignsSplits(operands);
    case Import(source, _) => AssignsSplits(source);
    case _ =>
  }

  lemma {:induction false} AnyAssignsSplits(es: seq<Expr>)
    ensures AnyAssigns(es, true) <==> AnyAssigns(es, false) || AnyOptionsAssign(es)
    decreases es
  {
    if es != [] {
      AssignsSplits(es[0]);
      AnyAssignsSplits(es[1..]);
    }
  }

  // Analysis leaves the options of imports as they are. So an assignment in them must not be the only one
  // of its context, and their own annotations have to be right from the start.

  predicate ExprSound(e: Expr, home: Home) {
    match e
    case Op(_, operands) => ExprsSound(operands, home)
    case Function(kind, func) => FuncSound(func, HomeInFunction(kind, home))
    case ClassExpr(cls) => ClassSound(cls, home)
    case Import(source, options) => ExprSound(source, home) && ExprsRight(options, home)
  }

  predicate ExprsSound(es: seq<Expr>, home: Home) {
    es != [] ==> ExprSound(es[0], home) && ExprsSound(es[1..], home)
  }

  predicate OuterSound(o: Outer, home: Home) {
    (OptionsAssign(o.expr) ==> Assigns(o.expr, false)) && ExprSound(o.expr, home)
  }

  predicate OutersSound(os: seq<Outer>, home: Home) {
    os != [] ==> OuterSound(os[0], home) && OutersSound(os[1..], home)
  }

  predicate FuncSound(func: Func, home: Home) {
    OutersSound(func.params, home) && StmtSound(func.body, home)
  }

  predicate ClassSound(cls: Class, home: Home) {
    OutersSound(cls.heritage, home) && ElementsSound(cls.elements, home)
  }

  predicate ElementsSound(es: seq<Element>, home: Home) {
    es != [] ==> ElementSound(es[0], home) && ElementsSound(es[1..], home)
  }

  predicate ElementSound(e: Element, home: Home) {
    OutersSound(e.key, home) &&
    match e
    case Method(_, func, kind, isStatic, _, _) => FuncSound(func, HomeInMethod(isStatic, kind))
    case Field(_, value, isStatic, _) => OutersSound(value, Some(isStatic))
  }

  predicate StmtSound(s: Stmt, home: Home) {
    match s
    case ExprStmt(o) => (OptionsAssign(o.expr) ==> StatementAssigns(o.expr, false)) && ExprSound(o.expr, home)
    case Decl(e) => ExprSound(e, home)
    case Nest(_, _, exprs, body) => OutersSound(exprs, home) && StmtsSound(body, home)
    case Jump(_, _) => true
    case Labeled(_, labeled) => StmtSound(labeled, home)
  }

  predicate StmtsSound(ss: seq<Stmt>, home: Home) {
    ss != [] ==> StmtSound(ss[0], home) && StmtsSound(ss[1..], home)
  }

  // ----- Analysis gives the right annotations -----

  predicate NoSuperErrors(errors: seq<Error>) {
    SuperPropertyOutsideMethod !in errors
  }

  lemma NoSuperErrorsConcat(a: seq<Error>, b: seq<Error>)
    ensures NoSuperErrors(a + b) <==> NoSuperErrors(a) && NoSuperErrors(b)
  {}

  lemma HomeInside(functions: seq<FunctionEntry>, home: Home, f: FunctionEntry)
    requires IsHome(functions, home)
    ensures IsHome(functions + [f], if f.isArrow then home else if f.isMethod then Some(f.isStatic || f.isStaticInitializer) else None)
  {
    PushFunction(functions, f);
  }

  lemma {:induction false} OutersAnnotate(os: seq<Outer>, c: Context, home: Home)
    requires IsHome(c.functions, home)
    ensures OutersRight(WalkOuters(os, c).node, home) <==> OutersSound(os, home)
    ensures NoSuperErrors(WalkOuters(os, c).errors) <==> OutersLegal(os, home, Visited)
    decreases os
  {
    if os != [] {
      var first, rest := WalkOuter(os[0], c), WalkOuters(os[1..], c);
      OuterAnnotate(os[0], c, home);
      OutersAnnotate(os[1..], c, home);
      assert ([first.node] + rest.node)[1..] == rest.node;
    }
  }

  lemma {:induction false} OuterAnnotate(o: Outer, c: Context, home: Home)
    requires IsHome(c.functions, home)
    ensures OuterRight(WalkOuter(o, c).node, home) <==> OuterSound(o, home)
    ensures NoSuperErrors(WalkOuter(o, c).errors) <==> OuterLegal(o, home, Visited)
    decreases o
  {
    ExprAnnotate(o.expr, c, home);
    AssignsStay(o.expr, c, true);
    AssignsSplits(o.expr);
  }

  lemma {:induction false} ExprsAnnotate(es: seq<Expr>, c: Context, home: Home)
    requires IsHome(c.functions, home)
    ensures ExprsRight(WalkExprs(es, c).node, home) <==> ExprsSound(es, home)
    ensures NoSuperErrors(WalkExprs(es, c).errors) <==> ExprsLegal(es, home, Visited)
    decreases es
  {
    if es != [] {
      var first, rest := WalkExpr(es[0], c), WalkExprs(es[1..], c);
      ExprAnnotate(es[0], c, home);
      ExprsAnnotate(es[1..], c, home);
      assert ([first.node] + rest.node)[1..] == rest.node;
    }
  }

  lemma {:induction false} ExprAnnotate(e: Expr, c: Context, home: Home)
    requires IsHome(c.functions, home)
    ensures ExprRight(WalkExpr(e, c).node, home) <==> ExprSound(e, home)
    ensures NoSuperErrors(WalkExpr(e, c).errors) <==> ExprLegal(e, home, Visited)
    decreases e
  {
    match e
    case Op(op, operands) =>
      ExprsAnnotate(operands, c, home);
      OperatorAnnotate(op, c, home);
    case Function(kind, func) =>
      HomeInside(c.functions, home, EntryOf(kind));
      FuncAnnotate(func, c, EntryOf(kind), HomeInFunction(kind, home));
    case ClassExpr(cls) =>
      ClassAnnotate(cls, c, home);
    case Import(source, _) =>
      ExprAnnotate(source, c, home);
  }

  lemma OperatorAnnotate(op: Operator, c: Context, home: Home)
    requires IsHome(c.functions, home)
    ensures NoSuperErrors(OperatorErrors(op, c)) <==> (op.SuperMember? ==> home.Some?)
    ensures ResolvedOperator(op, c).SuperMember? <==> op.SuperMember?
    ensures ResolvedOperator(op, c).Assignment? <==> op.Assignment?
    ensures op.SuperMember? && home.Some? ==> ResolvedOperator(op, c).isStatic == home.value
  {}

  lemma {:induction false} FuncAnnotate(func: Func, c: Context, f: FunctionEntry, home: Home)
    requires IsHome(c.functions + [f], home)
    ensures FuncRight(WalkFunc(func, c, f).node, home) <==> FuncSound(func, home)
    ensures NoSuperErrors(WalkFunc(func, c, f).errors) <==> FuncLegal(func, home, Visited)
    decreases func, 1
  {
    var inner := InsideFunction(c, f, func.isStrict);
    var r := WalkFuncParts(func, inner);
    var named := OptionalNameErrors(if f.isMethod then None else func.name, inner.strict);
    assert WalkFunc(func, c, f).errors == named + r.errors;
    FuncPartsAnnotate(func, inner, home);
  }

  lemma {:induction false} FuncPartsAnnotate(func: Func, c: Context, home: Home)
    requires IsHome(c.functions, home)
    ensures FuncRight(WalkFuncParts(func, c).node, home) <==> FuncSound(func, home)
    ensures NoSuperErrors(WalkFuncParts(func, c).errors) <==> FuncLegal(func, home, Visited)
    decreases func, 0
  {
    OutersAnnotate(func.params, c.(inParameters := true), home);
    StmtAnnotate(func.body, c, map[], home);
  }

  lemma {:induction false} ClassAnnotate(cls: Class, c: Context, home: Home)
    requires IsHome(c.functions, home)
    ensures ClassRight(WalkClass(cls, c).node, home) <==> ClassSound(cls, home)
    ensures NoSuperErrors(WalkClass(cls, c).errors) <==> ClassLegal(cls, home, Visited)
    decreases cls, 1
  {
    ClassBodyAnnotate(cls, InsideClass(c), home);
  }

  lemma {:induction false} ClassBodyAnnotate(cls: Class, c: Context, home: Home)
    requires IsHome(c.functions, home)
    ensures ClassRight(WalkClassBody(cls, c).node, home) <==> ClassSound(cls, home)
    ensures NoSuperErrors(WalkClassBody(cls, c).errors) <==> ClassLegal(cls, home, Visited)
    decreases cls, 0
  {
    var collected := PrivateNames.Collect(cls.elements);
    var inner := c.(classes := c.classes + [ClassEntry(collected.names.Keys, cls.heritage != [])]);
    OutersAnnotate(cls.heritage, c, home);
    CollectReportsNoSuper(cls.elements);
    ElementsAnnotate(cls.elements, inner, PrivateNames.MarkPairs(cls.elements), home);
  }

  lemma {:induction false} CollectReportsNoSuper(es: seq<Element>)
    ensures NoSuperErrors(PrivateNames.Collect(es).errors)
  {
    if es != [] {
      CollectReportsNoSuper(es[..|es| - 1]);
    }
  }

  lemma {:induction false} ElementsAnnotate(es: seq<Element>, c: Context, marked: seq<Element>, home: Home)
    requires |marked| == |es| && c.classes != [] && IsHome(c.functions, home)
    ensures ElementsRight(WalkElements(es, c, marked).node, home) <==> ElementsSound(es, home)
    ensures NoSuperErrors(WalkElements(es, c, marked).errors) <==> ElementsLegal(es, home, Visited)
    decreases es
  {
    if es != [] {
      var first, rest := WalkElement(es[0], c, marked[0]), WalkElements(es[1..], c, marked[1..]);
      ElementAnnotate(es[0], c, marked[0], home);
      ElementsAnnotate(es[1..], c, marked[1..], home);
      assert ([first.node] + rest.node)[1..] == rest.node;
    }
  }

  lemma {:induction false} ElementAnnotate(e: Element, c: Context, marked: Element, home: Home)
    requires c.classes != [] && IsHome(c.functions, home)
    ensures ElementRight(WalkElement(e, c, marked).node, home) <==> ElementSound(e, home)
    ensures NoSuperErrors(WalkElement(e, c, marked).errors) <==> ElementLegal(e, home, Visited)
    decreases e, 1
  {
    if e.Method? {
      MethodAnnotate(e, c, marked, home);
    } else {
      FieldAnnotate(e, c, marked, home);
    }
  }

  lemma {:induction false} MethodAnnotate(e: Element, c: Context, marked: Element, home: Home)
    requires e.Method? && c.classes != [] && IsHome(c.functions, home)
    ensures ElementRight(WalkElement(e, c, marked).node, home) <==> ElementSound(e, home)
    ensures NoSuperErrors(WalkElement(e, c, marked).errors) <==> ElementLegal(e, home, Visited)
    decreases e, 0
  {
    var isDerived := e.methodKind == Constructor && c.classes[|c.classes| - 1].isDerived;
    var f := MethodFunction(e.isStatic, isDerived, e.methodKind == StaticInitializer);
    OutersAnnotate(e.key, c, home);
    HomeInside(c.functions, home, f);
    FuncAnnotate(e.func, c, f, HomeInMethod(e.isStatic, e.methodKind));
    var key, func, w := WalkOuters(e.key, c), WalkFunc(e.func, c, f), WalkElement(e, c, marked);
    assert w.errors == key.errors + func.errors && w.node.key == key.node && w.node.func == func.node;
    NoSuperErrorsConcat(key.errors, func.errors);
  }

  lemma {:induction false} FieldAnnotate(e: Element, c: Context, marked: Element, home: Home)
    requires e.Field? && c.classes != [] && IsHome(c.functions, home)
    ensures ElementRight(WalkElement(e, c, marked).node, home) <==> ElementSound(e, home)
    ensures NoSuperErrors(WalkElement(e, c, marked).errors) <==> ElementLegal(e, home, Visited)
    decreases e, 0
  {
    var inner := InsideField(c, e.isStatic);
    OutersAnnotate(e.key, c, home);
    HomeInside(c.functions, home, FieldInitializer(e.isStatic));
    OutersAnnotate(e.value, inner, Some(e.isStatic));
    NoSuperErrorsConcat(WalkOuters(e.key, c).errors, WalkOuters(e.value, inner).errors);
  }

  lemma {:induction false} StmtsAnnotate(ss: seq<Stmt>, c: Context, labels: Labels, home: Home)
    requires IsHome(c.functions, home)
    ensures StmtsRight(WalkStmts(ss, c, labels).node, home) <==> StmtsSound(ss, home)
    ensures NoSuperErrors(WalkStmts(ss, c, labels).errors) <==> StmtsLegal(ss, home, Visited)
    decreases ss
  {
    if ss != [] {
      var first := WalkStmt(ss[0], c, labels);
      var rest := WalkStmts(ss[1..], c, first.labels);
      StmtAnnotate(ss[0], c, labels, home);
      StmtsAnnotate(ss[1..], c, first.labels, home);
      assert ([first.node] + rest.node)[1..] == rest.node;
    }
  }

  lemma {:induction false} StmtAnnotate(s: Stmt, c: Context, labels: Labels, home: Home)
    requires IsHome(c.functions, home)
    ensures StmtRight(WalkStmt(s, c, labels).node, home) <==> StmtSound(s, home)
    ensures NoSuperErrors(WalkStmt(s, c, labels).errors) <==> StmtLegal(s, home, Visited)
    decreases s, 1
  {
    match s
    case ExprStmt(o) =>
      ExprAnnotate(o.expr, c, home);
      StatementSplits(o.expr, c);
    case Decl(expr) => ExprAnnotate(expr, c, home);
    case Nest(kind, _, _, _) =>
      NestAnnotate(s, InsideNest(kind, c), labels, home);
      NoSuperErrorsConcat(NestErrors(kind, c), WalkNest(s, InsideNest(kind, c), labels).errors);
    case Jump(_, _) =>
    case Labeled(_, _) => LabeledAnnotate(s, c, labels, home);
  }

  lemma StatementSplits(e: Expr, c: Context)
    ensures StatementAssigns(e, true) <==> StatementAssigns(e, false) || OptionsAssign(e)
    ensures StatementAssigns(WalkExpr(e, c).node, true) <==> StatementAssigns(e, true)
  {
    AssignsSplits(e);
    AssignsStay(e, c, true);
    if e.Op? {
      AnyAssignsSplits(e.operands);
      AnyAssignsStay(e.operands, c, true);
    }
  }

  /** Assignments stay where they are. */
  lemma {:induction false} AssignsStay(e: Expr, c: Context, all: bool)
    ensures Assigns(WalkExpr(e, c).node, all) == Assigns(e, all)
    decreases e
  {
    match e
    case Op(_, operands) => AnyAssignsStay(operands, c, all);
    case Import(source, _) => AssignsStay(source, c, all);
    case _ =>
  }

  lemma {:induction false} AnyAssignsStay(es: seq<Expr>, c: Context, all: bool)
    ensures AnyAssigns(WalkExprs(es, c).node, all) == AnyAssigns(es, all)
    decreases es
  {
    if es != [] {
      AssignsStay(es[0], c, all);
      AnyAssignsStay(es[1..], c, all);
      var first, rest := WalkExpr(es[0], c).node, WalkExprs(es[1..], c).node;
      assert ([first] + rest)[1..] == rest;
    }
  }

  lemma {:induction false} NestAnnotate(s: Stmt, c: Context, labels: Labels, home: Home)
    requires s.Nest? && IsHome(c.functions, home)
    ensures StmtRight(WalkNest(s, c, labels).node, home) <==> StmtSound(s, home)
    ensures NoSuperErrors(WalkNest(s, c, labels).errors) <==> StmtLegal(s, home, Visited)
    decreases s, 0
  {
    OutersAnnotate(s.exprs, c, home);
    StmtsAnnotate(s.body, c, labels, home);
    NoSuperErrorsConcat(WalkOuters(s.exprs, c).errors, WalkStmts(s.body, c, labels).errors);
  }

  lemma {:induction false} LabeledAnnotate(s: Stmt, c: Context, labels: Labels, home: Home)
    requires s.Labeled? && IsHome(c.functions, home)
    ensures StmtRight(WalkLabeled(s, c, labels).node, home) <==> StmtSound(s, home)
    ensures NoSuperErrors(WalkLabeled(s, c, labels).errors) <==> StmtLegal(s, home, Visited)
    decreases s, 0
  {
    var names, inner, id := LabelNames(s), Unlabeled(s.labeled), c.labelDepth + 1;
    var c', entered := c.(labelDepth := id), Entered(names, id, labels, IsContinueTarget(inner));
    var b := WalkStmt(inner, c', entered);
    assert WalkLabeled(s, c, labels).node == Relabeled(s, id, b.node);
    assert WalkLabeled(s, c, labels).errors == DuplicateErrors(names, labels.Keys) + b.errors;
    StmtAnnotate(inner, c', entered, home);
    DuplicateReportsNoSuper(names, labels.Keys);
    NoSuperErrorsConcat(DuplicateErrors(names, labels.Keys), b.errors);
    LabelsChangeNothing(s, id, b.node, home);
  }

  lemma {:induction false} DuplicateReportsNoSuper(names: seq<Name>, seen: set<Name>)
    ensures NoSuperErrors(DuplicateErrors(names, seen))
  {
    if names != [] {
      DuplicateReportsNoSuper(names[1..], seen + {names[0]});
    }
  }

  lemma {:induction false} LabelsChangeNothing(s: Stmt, id: nat, inner: Stmt, home: Home)
    ensures StmtRight(Relabeled(s, id, inner), home) <==> StmtRight(inner, home)
    ensures StmtSound(s, home) <==> StmtSound(Unlabeled(s), home)
    ensures StmtLegal(s, home, Visited) <==> StmtLegal(Unlabeled(s), home, Visited)
  {
    if s.Labeled? {
      LabelsChangeNothing(s.labeled, id, inner, home);
    }
  }

  // ----- What is visited and what is not -----

  lemma {:induction false} ExprSplits(e: Expr, home: Home)
    ensures ExprLegal(e, home, All) <==> ExprLegal(e, home, Visited) && ExprLegal(e, home, Options)
    decreases e
  {
    match e
    case Op(_, operands) => ExprsSplit(operands, home);
    case Function(kind, func) => FuncSplits(func, HomeInFunction(kind, home));
    case ClassExpr(cls) => OutersSplit(cls.heritage, home); ElementsSplit(cls.elements, home);
    case Import(source, _) => ExprSplits(source, home);
  }

  lemma {:induction false} ExprsSplit(es: seq<Expr>, home: Home)
    ensures ExprsLegal(es, home, All) <==> ExprsLegal(es, home, Visited) && ExprsLegal(es, home, Options)
    decreases es
  {
    if es != [] {
      ExprSplits(es[0], home);
      ExprsSplit(es[1..], home);
    }
  }

  lemma {:induction false} OuterSplits(o: Outer, home: Home)
    ensures OuterLegal(o, home, All) <==> OuterLegal(o, home, Visited) && OuterLegal(o, home, Options)
    decreases o
  {
    ExprSplits(o.expr, home);
  }

  lemma {:induction false} OutersSplit(os: seq<Outer>, home: Home)
    ensures OutersLegal(os, home, All) <==> OutersLegal(os, home, Visited) && OutersLegal(os, home, Options)
    decreases os
  {
    if os != [] {
      OuterSplits(os[0], home);
      OutersSplit(os[1..], home);
    }
  }

  lemma {:induction false} FuncSplits(func: Func, home: Home)
    ensures FuncLegal(func, home, All) <==> FuncLegal(func, home, Visited) && FuncLegal(func, home, Options)
    decreases func
  {
    OutersSplit(func.params, home);
    StmtSplits(func.body, home);
  }

  lemma {:induction false} ElementsSplit(es: seq<Element>, home: Home)
    ensures ElementsLegal(es, home, All) <==> ElementsLegal(es, home, Visited) && ElementsLegal(es, home, Options)
    decreases es
  {
    if es != [] {
      ElementSplits(es[0], home);
      ElementsSplit(es[1..], home);
    }
  }

  lemma {:induction false} ElementSplits(e: Element, home: Home)
    ensures ElementLegal(e, home, All) <==> ElementLegal(e, home, Visited) && ElementLegal(e, home, Options)
    decreases e
  {
    OutersSplit(e.key, home);
    match e
    case Method(_, func, kind, isStatic, _, _) => FuncSplits(func, HomeInMethod(isStatic, kind));
    case Field(_, value, isStatic, _) => OutersSplit(value, Some(isStatic));
  }

  lemma {:induction false} StmtSplits(s: Stmt, home: Home)
    ensures StmtLegal(s, home, All) <==> StmtLegal(s, home, Visited) && StmtLegal(s, home, Options)
    decreases s
  {
    match s
    case ExprStmt(o) => OuterSplits(o, home);
    case Decl(e) => ExprSplits(e, home);
    case Nest(_, _, exprs, body) => OutersSplit(exprs, home); StmtsSplit(body, home);
    case Jump(_, _) =>
    case Labeled(_, labeled) => StmtSplits(labeled, home);
  }

  lemma {:induction false} StmtsSplit(ss: seq<Stmt>, home: Home)
    ensures StmtsLegal(ss, home, All) <==> StmtsLegal(ss, home, Visited) && StmtsLegal(ss, home, Options)
    decreases ss
  {
    if ss != [] {
      StmtSplits(ss[0], home);
      StmtsSplit(ss[1..], home);
    }
  }

  // ----- The main results -----

  /**
   For every program, with or without errors, all annotations are right, if and only if in no context the
   only assignment is in options of an import, and the annotations in options were right before.
   */
  lemma AnnotationsAreRight(p: Program)
    ensures StmtsRight(WalkProgram(p).node, None) <==> StmtsSound(p.toplevels, None)
  {
    StmtsAnnotate(p.toplevels, Context(0, false, false, p.isStrict, true, false, [], []), map[], None);
  }

  /** Super outside a method is reported, if and only if it occurs outside options of imports. */
  lemma SuperIsReported(p: Program)
    ensures SuperPropertyOutsideMethod !in WalkProgram(p).errors <==> StmtsLegal(p.toplevels, None, Visited)
    ensures StmtsLegal(p.toplevels, None, All) <==>
              SuperPropertyOutsideMethod !in WalkProgram(p).errors && StmtsLegal(p.toplevels, None, Options)
  {
    StmtsAnnotate(p.toplevels, Context(0, false, false, p.isStrict, true, false, [], []), map[], None);
    StmtsSplit(p.toplevels, None);
  }

  /** import(a, b = c) is not marked, and import(a, super.b) is not reported. */
  lemma OptionsAreMissed(a: Expr, assignment: Expr, member: Expr, c: Context)
    requires !Assigns(a, true) && ExprLegal(a, None, All) && IsHome(c.functions, None)
    requires assignment.Op? && assignment.op.Assignment? && member.Op? && member.op.SuperMember?
    ensures var o := Outer(Import(a, [assignment]), false);
            !WalkOuter(o, c).node.hasAssign && Assigns(o.expr, true) && !OuterRight(WalkOuter(o, c).node, None)
    ensures var e := Import(a, [member]); NoSuperErrors(WalkExpr(e, c).errors) && !ExprLegal(e, None, All)
  {
    AssignsSplits(a);
    AssignsStay(a, c, true);
    ExprSplits(a, None);
    var o, e := Outer(Import(a, [assignment]), false), Import(a, [member]);
    assert Assigns(assignment, true) && AnyAssigns([assignment], true);
    ExprAnnotate(o.expr, c, None);
    ExprAnnotate(e, c, None);
    assert !ExprLegal(member, None, All);
    assert !ExprsLegal([member], None, All);
  }
}
