/**
 What analysis means: a recursive reading of the syntax tree in an environment.

 The analyzer keeps counters, stacks, a label map and one flag, and changes them while it walks. Here
 the same result is given without any of that: everything but the label map is an immutable
 environment, extended on the way down, and the flag is a property of the expression. (A label map goes
 in and out, because a duplicate label leaves a trace in the entry that it clashes with.)
 */
module Analysis {
  import opened Wrappers
  import opened Ast
  import PrivateNames

  datatype LabelInfo = LabelInfo(id: nat, isContinueTarget: bool)

  type Labels = map<Name, LabelInfo>

  datatype FunctionEntry = FunctionEntry(isArrow: bool, isMethod: bool, isStatic: bool, isDerived: bool,
                                         isStaticInitializer: bool, isFieldInitializer: bool)

  datatype ClassEntry = ClassEntry(privateNames: set<Name>, isDerived: bool)

  datatype SuperEntry = Allow(isStatic: bool) | Disallow

  datatype Context = Context(
    labelDepth: nat,
    breakable: bool,
    iterable: bool,
    strict: bool,
    allowArguments: bool,
    inParameters: bool,
    functions: seq<FunctionEntry>,
    classes: seq<ClassEntry>)

  datatype Out<T> = Out(node: T, errors: seq<Error>)

  datatype StmtOut<T> = StmtOut(node: T, errors: seq<Error>, labels: Labels)

  // ----- Questions asked of the environment -----

  /** The innermost function that is not an arrow function. */
  function Enclosing(fs: seq<FunctionEntry>): Option<FunctionEntry> {
    if fs == [] then None
    else if fs[|fs| - 1].isArrow then Enclosing(fs[..|fs| - 1])
    else Some(fs[|fs| - 1])
  }

  /** Super members may be used in methods, in which arrow functions take part. */
  function SuperOf(fs: seq<FunctionEntry>): SuperEntry {
    match Enclosing(fs)
    case None => Disallow
    case Some(f) => if f.isMethod then Allow(f.isStatic || f.isStaticInitializer) else Disallow
  }

  /** The innermost function that has a body of statements. */
  function Body(fs: seq<FunctionEntry>): Option<FunctionEntry> {
    if fs == [] then None
    else if fs[|fs| - 1].isFieldInitializer then Body(fs[..|fs| - 1])
    else Some(fs[|fs| - 1])
  }

  predicate CanReturn(fs: seq<FunctionEntry>) {
    Body(fs).Some? && !Body(fs).value.isStaticInitializer
  }

  lemma PushFunction(fs: seq<FunctionEntry>, f: FunctionEntry)
    ensures Enclosing(fs + [f]) == if f.isArrow then Enclosing(fs) else Some(f)
    ensures Body(fs + [f]) == if f.isFieldInitializer then Body(fs) else Some(f)
  {
    assert (fs + [f])[..|fs|] == fs;
  }

  predicate IsDeclaredPrivate(classes: seq<ClassEntry>, name: Name) {
    exists c <- classes :: name in c.privateNames
  }

  function StrictNameErrors(name: Name, strict: bool): seq<Error> {
    if !strict then []
    else if name == "eval" then [AssignEvalInStrictMode]
    else if name == "arguments" then [AssignArgumentsInStrictMode]
    else []
  }

  function OptionalNameErrors(name: Option<Name>, strict: bool): seq<Error> {
    if name.None? then [] else StrictNameErrors(name.value, strict)
  }

  function ErrorIf(condition: bool, error: Error): seq<Error> {
    if condition then [error] else []
  }

  // ----- Assignments -----

  /**
   An assignment occurs in the expression, outside nested functions and classes: in all of it, or in what
   is visited, which does not include the options of an import.
   */
  predicate Assigns(e: Expr, all: bool) {
    match e
    case Op(op, operands) => op.Assignment? || AnyAssigns(operands, all)
    case Import(source, options) => Assigns(source, all) || (all && AnyAssigns(options, all))
    case _ => false
  }

  predicate AnyAssigns(es: seq<Expr>, all: bool) {
    es != [] && (Assigns(es[0], all) || AnyAssigns(es[1..], all))
  }

  /** The mark of an expression statement: an assignment statement is judged on its two sides only. */
  predicate StatementAssigns(e: Expr, all: bool) {
    if e.Op? && e.op.Assignment? then AnyAssigns(e.operands, all) else Assigns(e, all)
  }

  // ----- Expressions, functions and classes -----

  function WalkOuter(o: Outer, c: Context): Out<Outer> {
    var e := WalkExpr(o.expr, c);
    Out(Outer(e.node, Assigns(o.expr, false)), e.errors)
  }

  function WalkOuters(os: seq<Outer>, c: Context): Out<seq<Outer>> {
    if os == [] then Out([], [])
    else
      var first, rest := WalkOuter(os[0], c), WalkOuters(os[1..], c);
      Out([first.node] + rest.node, first.errors + rest.errors)
  }

  function WalkExprs(es: seq<Expr>, c: Context): Out<seq<Expr>> {
    if es == [] then Out([], [])
    else
      var first, rest := WalkExpr(es[0], c), WalkExprs(es[1..], c);
      Out([first.node] + rest.node, first.errors + rest.errors)
  }

  function WalkExpr(e: Expr, c: Context): Out<Expr> {
    match e
    case Op(op, operands) =>
      var r := WalkExprs(operands, c);
      Out(Op(ResolvedOperator(op, c), r.node), OperatorErrors(op, c) + r.errors)
    case Function(kind, func) =>
      var r := WalkFunc(func, c, EntryOf(kind));
      Out(Function(kind, r.node), r.errors)
    case ClassExpr(cls) =>
      var r := WalkClass(cls, c);
      Out(ClassExpr(r.node), r.errors)
    case Import(source, options) =>
      var r := WalkExpr(source, c);
      Out(Import(r.node, options), r.errors)
  }

  function OperatorErrors(op: Operator, c: Context): seq<Error> {
    match op
    case Ident(name) => ErrorIf(name == "arguments" && !c.allowArguments, ArgumentsInClassInitializer)
    case Binding(name) =>
      if name == "arguments" && !c.allowArguments then [ArgumentsInClassInitializer]
      else StrictNameErrors(name, c.strict)
    case SuperMember(_) => ErrorIf(SuperOf(c.functions).Disallow?, SuperPropertyOutsideMethod)
    case SuperCall =>
      var f := Enclosing(c.functions);
      ErrorIf(f.None? || !f.value.isDerived, SuperCallOutsideDerivedConstructor)
    case NewTarget => ErrorIf(Enclosing(c.functions).None?, NewTargetOutsideFunction)
    case Await => AwaitErrors(c)
    case Yield => ErrorIf(c.inParameters, YieldInParameters)
    case PrivateUse(name) => PrivateUseErrors(name, c)
    case _ => []
  }

  /** A super member is told whether it goes through the static home object. */
  function ResolvedOperator(op: Operator, c: Context): Operator {
    if op.SuperMember? && SuperOf(c.functions).Allow? then SuperMember(SuperOf(c.functions).isStatic) else op
  }

  function AwaitErrors(c: Context): seq<Error> {
    if c.inParameters then [AwaitInParameters]
    else if c.functions != [] && c.functions[|c.functions| - 1].isStaticInitializer then [AwaitInStaticInitializer]
    else []
  }

  function PrivateUseErrors(name: Name, c: Context): seq<Error> {
    if c.classes == [] then [PrivateNameOutsideClass]
    else ErrorIf(!IsDeclaredPrivate(c.classes, name), PrivateNameNotDefined)
  }

  function EntryOf(kind: FunctionKind): FunctionEntry {
    FunctionEntry(kind.ArrowFunction?, kind.ObjectMethod?, false, false, false, false)
  }

  function MethodFunction(isStatic: bool, isDerived: bool, isStaticInitializer: bool): FunctionEntry {
    FunctionEntry(false, true, isStatic, isDerived, isStaticInitializer, false)
  }

  function FieldInitializer(isStatic: bool): FunctionEntry {
    FunctionEntry(false, true, isStatic, false, false, true)
  }

  /** Labels, loops and switches do not reach into a function; everything else is inherited or replaced. */
  function InsideFunction(c: Context, f: FunctionEntry, isStrict: bool): Context {
    Context(0, false, false, c.strict || isStrict,
            if f.isStaticInitializer then false else if f.isArrow then c.allowArguments else true,
            false, c.functions + [f], c.classes)
  }

  function WalkFunc(func: Func, c: Context, f: FunctionEntry): Out<Func>
    decreases func, 2
  {
    WalkFuncInside(func, InsideFunction(c, f, func.isStrict), f)
  }

  function WalkFuncInside(func: Func, inner: Context, f: FunctionEntry): Out<Func>
    decreases func, 1
  {
    var r := WalkFuncParts(func, inner);
    Out(r.node.(needsArguments := if f.isArrow then func.needsArguments else func.bindsArguments),
        OptionalNameErrors(if f.isMethod then None else func.name, inner.strict) + r.errors)
  }

  function WalkFuncParts(func: Func, inner: Context): Out<Func>
    decreases func, 0
  {
    var params := WalkOuters(func.params, inner.(inParameters := true));
    var body := WalkStmt(func.body, inner, map[]);
    Out(func.(params := params.node, body := body.node), params.errors + body.errors)
  }

  /** A class is strict throughout, its heritage included. */
  function InsideClass(c: Context): Context {
    c.(labelDepth := 0, breakable := false, iterable := false, strict := true)
  }

  function WalkClass(cls: Class, c: Context): Out<Class>
    decreases cls, 1
  {
    var r := WalkClassBody(cls, InsideClass(c));
    Out(r.node, OptionalNameErrors(cls.name, true) + r.errors)
  }

  /** The class's own private names are visible in its elements. */
  function WalkClassBody(cls: Class, inner: Context): Out<Class>
    decreases cls, 0
  {
    var heritage := WalkOuters(cls.heritage, inner);
    var collected := PrivateNames.Collect(cls.elements);
    var entry := ClassEntry(collected.names.Keys, cls.heritage != []);
    var elements := WalkElements(cls.elements, inner.(classes := inner.classes + [entry]), PrivateNames.MarkPairs(cls.elements));
    Out(cls.(heritage := heritage.node, elements := elements.node),
        heritage.errors + (collected.errors + elements.errors))
  }

  /** The elements keep the pair marks that the collection of private names gave them. */
  function WalkElements(es: seq<Element>, c: Context, marked: seq<Element>): Out<seq<Element>>
    requires |marked| == |es| && c.classes != []
  {
    if es == [] then Out([], [])
    else
      var first, rest := WalkElement(es[0], c, marked[0]), WalkElements(es[1..], c, marked[1..]);
      Out([first.node] + rest.node, first.errors + rest.errors)
  }

  function WalkElement(e: Element, c: Context, marked: Element): Out<Element>
    requires c.classes != []
  {
    match e
    case Method(key, func, kind, isStatic, privateName, isPairStart) =>
      var k := WalkOuters(key, c);
      var isDerived := kind == Constructor && c.classes[|c.classes| - 1].isDerived;
      var r := WalkFunc(func, c, MethodFunction(isStatic, isDerived, kind == StaticInitializer));
      Out(Method(k.node, r.node, kind, isStatic, privateName, if marked.Method? then marked.isPairStart else isPairStart),
          k.errors + r.errors)
    case Field(key, value, isStatic, privateName) =>
      var k := WalkOuters(key, c);
      var v := WalkOuters(value, InsideField(c, isStatic));
      Out(Field(k.node, v.node, isStatic, privateName), k.errors + v.errors)
  }

  /** A field initializer is like a method, without "arguments". */
  function InsideField(c: Context, isStatic: bool): Context {
    c.(allowArguments := false, functions := c.functions + [FieldInitializer(isStatic)])
  }

  // ----- Labels -----

  /** The labels on a statement, outermost first. */
  function LabelNames(s: Stmt): seq<Name> {
    if s.Labeled? then [s.tag.name] + LabelNames(s.labeled) else []
  }

  /** The statement under all of its labels. */
  function Unlabeled(s: Stmt): (r: Stmt)
    ensures r == s || r < s
    ensures !r.Labeled?
  {
    if s.Labeled? then Unlabeled(s.labeled) else s
  }

  /** The same labels, with an id, on another statement. */
  function Relabeled(s: Stmt, id: nat, inner: Stmt): Stmt {
    if s.Labeled? then Labeled(Label(s.tag.name, id), Relabeled(s.labeled, id, inner)) else inner
  }

  /** What the code takes for the target of a labelled continue. */
  predicate IsContinueTarget(s: Stmt) { s.Nest? && (s.nest.Loop? || s.nest.Switch?) }

  /** Each repeated label is reported. */
  function DuplicateErrors(names: seq<Name>, seen: set<Name>): seq<Error> {
    if names == [] then []
    else ErrorIf(names[0] in seen, DuplicateLabel) + DuplicateErrors(names[1..], seen + {names[0]})
  }

  function Defined(names: seq<Name>, id: nat, labels: Labels): Labels {
    labels + map n | n in names && n !in labels :: LabelInfo(id, false)
  }

  function Targeted(names: seq<Name>, labels: Labels): Labels {
    map n | n in labels :: if n in names then labels[n].(isContinueTarget := true) else labels[n]
  }

  /** The labels visible inside a labelled statement. */
  function Entered(names: seq<Name>, id: nat, labels: Labels, isTarget: bool): Labels {
    var defined := Defined(names, id, labels);
    if isTarget then Targeted(names, defined) else defined
  }

  /** The labels visible after a labelled statement. */
  function Left(names: seq<Name>, before: Labels, after: Labels): Labels {
    map n | n in after && (n in before || n !in names) :: after[n]
  }

  function LabelUseErrors(target: Option<Label>, labels: Labels, isContinue: bool): seq<Error> {
    if target.None? then []
    else
      var n := target.value.name;
      ErrorIf(n !in labels || (isContinue && !labels[n].isContinueTarget), LabelNotFound)
  }

  function ResolvedLabel(target: Option<Label>, labels: Labels, isContinue: bool): Option<Label> {
    if target.None? || LabelUseErrors(target, labels, isContinue) != [] then target
    else Some(target.value.(id := labels[target.value.name].id))
  }

  // ----- Statements -----

  function WalkStmts(ss: seq<Stmt>, c: Context, labels: Labels): StmtOut<seq<Stmt>> {
    if ss == [] then StmtOut([], [], labels)
    else
      var first := WalkStmt(ss[0], c, labels);
      var rest := WalkStmts(ss[1..], c, first.labels);
      StmtOut([first.node] + rest.node, first.errors + rest.errors, rest.labels)
  }

  /** What a statement adds to the environment of its expressions and sub-statements. */
  function InsideNest(kind: NestKind, c: Context): Context {
    match kind
    case Loop => c.(breakable := true, iterable := true)
    case Switch => c.(breakable := true)
    case _ => c
  }

  function NestErrors(kind: NestKind, c: Context): seq<Error> {
    match kind
    case With => ErrorIf(c.strict, WithInStrictMode)
    case Return => ErrorIf(!CanReturn(c.functions), ReturnOutsideFunction)
    case _ => []
  }

  function JumpErrors(isContinue: bool, target: Option<Label>, c: Context, labels: Labels): seq<Error> {
    LabelUseErrors(target, labels, isContinue)
    + if isContinue then ErrorIf(!c.iterable, ContinueOutsideIterable)
      else ErrorIf(target.None? && !c.breakable, UnlabeledBreakOutsideBreakable)
  }

  function WalkStmt(s: Stmt, c: Context, labels: Labels): StmtOut<Stmt>
    decreases s, 1
  {
    match s
    case ExprStmt(o) =>
      var e := WalkExpr(o.expr, c);
      StmtOut(ExprStmt(Outer(e.node, StatementAssigns(o.expr, false))), e.errors, labels)
    case Decl(expr) =>
      var e := WalkExpr(expr, c);
      StmtOut(Decl(e.node), e.errors, labels)
    case Nest(kind, _, _, _) =>
      var r := WalkNest(s, InsideNest(kind, c), labels);
      StmtOut(r.node, NestErrors(kind, c) + r.errors, r.labels)
    case Jump(isContinue, target) =>
      StmtOut(Jump(isContinue, ResolvedLabel(target, labels, isContinue)),
              JumpErrors(isContinue, target, c, labels), labels)
    case Labeled(_, _) => WalkLabeled(s, c, labels)
  }

  function WalkNest(s: Stmt, inner: Context, labels: Labels): StmtOut<Stmt>
    requires s.Nest?
    decreases s, 0
  {
    var e, b := WalkOuters(s.exprs, inner), WalkStmts(s.body, inner, labels);
    StmtOut(Nest(s.nest, s.own, e.node, b.node), e.errors + b.errors, b.labels)
  }

  /** All labels on a statement get the same id; inside, they are visible. */
  function WalkLabeled(s: Stmt, c: Context, labels: Labels): StmtOut<Stmt>
    requires s.Labeled?
    decreases s, 0
  {
    var names, inner, id := LabelNames(s), Unlabeled(s.labeled), c.labelDepth + 1;
    var b := WalkStmt(inner, c.(labelDepth := id), Entered(names, id, labels, IsContinueTarget(inner)));
    StmtOut(Relabeled(s, id, b.node), DuplicateErrors(names, labels.Keys) + b.errors, Left(names, labels, b.labels))
  }

  function WalkProgram(p: Program): StmtOut<seq<Stmt>> {
    WalkStmts(p.toplevels, Context(0, false, false, p.isStrict, true, false, [], []), map[])
  }
}
