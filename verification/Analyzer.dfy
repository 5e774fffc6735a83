/**
 The analyzer (`parser/analyze.rs`, driven by `parser/ast_visitor.rs`): a visitor that keeps counters,
 stacks, a label map and one flag while it walks the syntax tree, reports errors and fills in fields.

 Every visit is proved to leave all counters and stacks as they were, and to report and to fill in
 exactly what the recursive reading in `Analysis` says.
 */
module Analyzer {
  import opened Wrappers
  import opened Ast
  import opened Analysis
  import PrivateNames

  /** The counters and stacks, which every visit has to restore. */
  datatype State = State(
    strictDepth: nat,
    labelDepth: nat,
    breakableDepth: nat,
    iterableDepth: nat,
    allowArguments: bool,
    functionStack: seq<FunctionEntry>,
    classStack: seq<ClassEntry>,
    scopeStack: seq<Scope>,
    allowReturnStack: seq<bool>,
    allowSuperStack: seq<SuperEntry>,
    inParametersStack: seq<bool>)
  {
    /** The environment that the counters and stacks stand for. */
    ghost function Env(): Context {
      Context(labelDepth, breakableDepth > 0, iterableDepth > 0, strictDepth > 0, allowArguments,
              inParametersStack != [] && Top(inParametersStack), functionStack, classStack)
    }

    function InScope(scope: Option<Scope>): State {
      if scope.None? then this else this.(scopeStack := scopeStack + [scope.value])
    }

    /** The state inside a function. */
    function InFunction(f: FunctionEntry, isStrict: bool): State {
      State(if isStrict then strictDepth + 1 else strictDepth, 0, 0, 0,
            if f.isStaticInitializer then false else if !f.isArrow then true else allowArguments,
            functionStack + [f], classStack, scopeStack,
            allowReturnStack + [!f.isStaticInitializer],
            if f.isArrow then allowSuperStack
            else allowSuperStack + [if f.isMethod then Allow(f.isStatic || f.isStaticInitializer) else Disallow],
            inParametersStack + [false])
    }

    function InClass(): State {
      this.(strictDepth := strictDepth + 1, labelDepth := 0, breakableDepth := 0, iterableDepth := 0)
    }

    function InField(isStatic: bool): State {
      this.(allowArguments := false, functionStack := functionStack + [FieldInitializer(isStatic)],
            allowSuperStack := allowSuperStack + [Allow(isStatic)])
    }

    function InNest(kind: NestKind): State {
      match kind
      case Loop => this.(breakableDepth := breakableDepth + 1, iterableDepth := iterableDepth + 1)
      case Switch => this.(breakableDepth := breakableDepth + 1)
      case _ => this
    }

    /** The stacks kept for super members and for return statements say what the function stack says. */
    ghost predicate InSync() {
      && SuperOf(functionStack) == (if allowSuperStack == [] then Disallow else Top(allowSuperStack))
      && CanReturn(functionStack) == (allowReturnStack != [] && Top(allowReturnStack))
    }
  }

  /** What is saved on the way into a function or class. */
  datatype SavedState = SavedState(labels: Labels, labelDepth: nat, breakableDepth: nat, iterableDepth: nat,
                                   allowArguments: bool, hasAssign: bool)

  function Top<T>(s: seq<T>): T
    requires s != []
  {
    s[|s| - 1]
  }

  function Pop<T>(s: seq<T>): seq<T>
    requires s != []
  {
    s[..|s| - 1]
  }

  lemma PushPop<T>(s: seq<T>, x: T)
    ensures Top(s + [x]) == x && Pop(s + [x]) == s
  {}

  lemma InFunctionIsInside(st: State, f: FunctionEntry, isStrict: bool)
    requires st.InSync() && !f.isFieldInitializer
    ensures var inner := st.InFunction(f, isStrict);
            inner.InSync() && inner.Env() == InsideFunction(st.Env(), f, isStrict)
  {
    PushFunction(st.functionStack, f);
  }

  lemma Associative<T>(a: seq<T>, b: seq<T>, c: seq<T>)
    ensures a + (b + c) == (a + b) + c
  {}

  class Analyzer {
    var st: State
    var labels: Labels
    var hasAssign: bool
    var errors: seq<Error>

    constructor ()
      ensures st.InSync() && errors == [] && labels == map[]
      ensures st.Env() == Context(0, false, false, false, true, false, [], [])
      ensures st.scopeStack == []
    {
      st := State(0, 0, 0, 0, true, [], [], [], [false], [], []);
      labels := map[];
      hasAssign := false;
      errors := [];
    }

    method EmitError(error: Error)
      modifies `errors
      ensures errors == old(errors) + [error]
    {
      errors := errors + [error];
    }

    /** Entering a scope changes nothing but the stack of scopes. */
    method EnterScope(scope: Option<Scope>)
      modifies `st
      ensures st == old(st).InScope(scope) && st.Env() == old(st).Env() && (st.InSync() <==> old(st).InSync())
    {
      if scope.Some? {
        st := st.(scopeStack := st.scopeStack + [scope.value]);
      }
    }

    method ExitScope(scope: Option<Scope>, ghost outer: State)
      requires st == outer.InScope(scope)
      modifies `st
      ensures st == outer
    {
      if scope.Some? {
        PushPop(outer.scopeStack, scope.value);
        st := st.(scopeStack := Pop(st.scopeStack));
      }
    }

    // ----- Expressions -----

    /** The single flag is enough: the mark of an outer expression does not depend on what came before. */
    method VisitOuter(o: Outer) returns (r: Outer)
      requires st.InSync()
      modifies this
      ensures st == old(st) && labels == old(labels)
      ensures var w := WalkOuter(o, st.Env()); r == w.node && errors == old(errors) + w.errors
      decreases o, 0
    {
      hasAssign := false;
      var e := VisitExpr(o.expr);
      r := Outer(e, hasAssign);
      hasAssign := false;
    }

    method VisitOuters(os: seq<Outer>) returns (r: seq<Outer>)
      requires st.InSync()
      modifies this
      ensures st == old(st) && labels == old(labels)
      ensures var w := WalkOuters(os, st.Env()); r == w.node && errors == old(errors) + w.errors
      decreases os, 0
    {
      ghost var c, w := st.Env(), WalkOuters(os, st.Env());
      r := [];
      for i := 0 to |os|
        invariant st == old(st) && labels == old(labels)
        invariant r + WalkOuters(os[i..], c).node == w.node
        invariant errors + WalkOuters(os[i..], c).errors == old(errors) + w.errors
      {
        assert os[i..][1..] == os[i + 1..];
        ghost var first, rest := WalkOuter(os[i], c), WalkOuters(os[i + 1..], c);
        Associative(r, [first.node], rest.node);
        Associative(errors, first.errors, rest.errors);
        var o := VisitOuter(os[i]);
        r := r + [o];
      }
    }

    method VisitExprs(es: seq<Expr>) returns (r: seq<Expr>)
      requires st.InSync()
      modifies this
      ensures st == old(st) && labels == old(labels)
      ensures var w := WalkExprs(es, st.Env()); r == w.node && errors == old(errors) + w.errors
      ensures hasAssign == (old(hasAssign) || AnyAssigns(es, false))
      decreases es
    {
      ghost var c, w := st.Env(), WalkExprs(es, st.Env());
      r := [];
      for i := 0 to |es|
        invariant st == old(st) && labels == old(labels)
        invariant r + WalkExprs(es[i..], c).node == w.node
        invariant errors + WalkExprs(es[i..], c).errors == old(errors) + w.errors
        invariant (hasAssign || AnyAssigns(es[i..], false)) == (old(hasAssign) || AnyAssigns(es, false))
      {
        assert es[i..][1..] == es[i + 1..];
        ghost var first, rest := WalkExpr(es[i], c), WalkExprs(es[i + 1..], c);
        Associative(r, [first.node], rest.node);
        Associative(errors, first.errors, rest.errors);
        var e := VisitExpr(es[i]);
        r := r + [e];
      }
    }

    /** The flag is raised exactly by an assignment outside nested functions and classes. */
    method VisitExpr(e: Expr) returns (r: Expr)
      requires st.InSync()
      modifies this
      ensures st == old(st) && labels == old(labels)
      ensures var w := WalkExpr(e, st.Env()); r == w.node && errors == old(errors) + w.errors
      ensures hasAssign == (old(hasAssign) || Assigns(e, false))
      decreases e
    {
      match e
      case Op(op, operands) =>
        ghost var outer, before := st, errors;
        Associative(before, OperatorErrors(op, st.Env()), WalkExprs(operands, st.Env()).errors);
        var op' := VisitOperator(op);
        var scope := if op.Object? then Some(op.scope) else None;
        EnterScope(scope);
        var operands' := VisitExprs(operands);
        ExitScope(scope, outer);
        r := Op(op', operands');
      case Function(kind, func) =>
        var func' := VisitFunctionCommon(func, kind.ArrowFunction?, kind.ObjectMethod?, false, false, false);
        r := Function(kind, func');
      case ClassExpr(cls) =>
        var cls' := VisitClass(cls);
        r := ClassExpr(cls');
      case Import(source, options) =>
        var source' := VisitExpr(source);
        r := Import(source', options);
    }

    /** The check that an operator makes before its operands are visited. */
    method VisitOperator(op: Operator) returns (r: Operator)
      requires st.InSync()
      modifies `errors, `hasAssign
      ensures r == ResolvedOperator(op, st.Env())
      ensures errors == old(errors) + OperatorErrors(op, st.Env())
      ensures hasAssign == (old(hasAssign) || op.Assignment?)
    {
      r := op;
      match op
      case Plain =>
      case Object(_) =>
      case Ident(name) =>
        if name == "arguments" && !st.allowArguments {
          EmitError(ArgumentsInClassInitializer);
        }
      case Binding(name) =>
        if name == "arguments" && !st.allowArguments {
          EmitError(ArgumentsInClassInitializer);
        } else {
          ErrorIfStrictEvalOrArguments(name);
        }
      case Assignment =>
        hasAssign := true;
      case SuperMember(_) =>
        if st.allowSuperStack != [] && Top(st.allowSuperStack).Allow? {
          r := SuperMember(Top(st.allowSuperStack).isStatic);
        } else {
          EmitError(SuperPropertyOutsideMethod);
        }
      case SuperCall =>
        var f := EnclosingNonArrowFunction();
        if f.None? || !f.value.isDerived {
          EmitError(SuperCallOutsideDerivedConstructor);
        }
      case NewTarget =>
        var f := EnclosingNonArrowFunction();
        if f.None? {
          EmitError(NewTargetOutsideFunction);
        }
      case Await =>
        if st.inParametersStack != [] && Top(st.inParametersStack) {
          EmitError(AwaitInParameters);
        } else if st.functionStack != [] && Top(st.functionStack).isStaticInitializer {
          EmitError(AwaitInStaticInitializer);
        }
      case Yield =>
        if st.inParametersStack != [] && Top(st.inParametersStack) {
          EmitError(YieldInParameters);
        }
      case PrivateUse(name) =>
        VisitPrivateNameUse(name);
    }

    method ErrorIfStrictEvalOrArguments(name: Name)
      modifies `errors
      ensures errors == old(errors) + StrictNameErrors(name, st.strictDepth > 0)
    {
      if st.strictDepth > 0 {
        if name == "eval" {
          EmitError(AssignEvalInStrictMode);
        } else if name == "arguments" {
          EmitError(AssignArgumentsInStrictMode);
        }
      }
    }

    method EnclosingNonArrowFunction() returns (f: Option<FunctionEntry>)
      ensures f == Enclosing(st.functionStack)
    {
      var fs := st.functionStack;
      var i := |fs|;
      assert fs[..i] == fs;
      while i > 0 && fs[i - 1].isArrow
        invariant 0 <= i <= |fs|
        invariant Enclosing(fs[..i]) == Enclosing(fs)
      {
        assert fs[..i][..i - 1] == fs[..i - 1];
        i := i - 1;
      }
      f := if i == 0 then None else Some(fs[i - 1]);
    }

    method VisitPrivateNameUse(name: Name)
      modifies `errors
      ensures errors == old(errors) + PrivateUseErrors(name, st.Env())
    {
      var classes := st.classStack;
      if classes == [] {
        EmitError(PrivateNameOutsideClass);
        return;
      }
      var isDefined := false;
      var i := |classes|;
      while i > 0 && !isDefined
        invariant 0 <= i <= |classes|
        invariant isDefined ==> IsDeclaredPrivate(classes, name)
        invariant !isDefined ==> forall j | i <= j < |classes| :: name !in classes[j].privateNames
      {
        i := i - 1;
        if name in classes[i].privateNames {
          isDefined := true;
          assert classes[i] in classes;
        }
      }
      if !isDefined {
        EmitError(PrivateNameNotDefined);
      }
    }

    // ----- Functions and classes -----

    /** Labels and some context are kept from leaking into a function or class. */
    method SaveState() returns (saved: SavedState)
      modifies `labels, `st
      ensures saved == SavedState(old(labels), old(st.labelDepth), old(st.breakableDepth), old(st.iterableDepth),
                                  old(st.allowArguments), hasAssign)
      ensures labels == map[]
      ensures st == old(st).(labelDepth := 0, breakableDepth := 0, iterableDepth := 0)
    {
      saved := SavedState(labels, st.labelDepth, st.breakableDepth, st.iterableDepth, st.allowArguments, hasAssign);
      labels := map[];
      st := st.(labelDepth := 0, breakableDepth := 0, iterableDepth := 0);
    }

    method RestoreState(saved: SavedState)
      modifies `labels, `st, `hasAssign
      ensures labels == saved.labels && hasAssign == saved.hasAssign
      ensures st == old(st).(labelDepth := saved.labelDepth, breakableDepth := saved.breakableDepth,
                             iterableDepth := saved.iterableDepth, allowArguments := saved.allowArguments)
    {
      labels := saved.labels;
      st := st.(labelDepth := saved.labelDepth, breakableDepth := saved.breakableDepth,
                iterableDepth := saved.iterableDepth, allowArguments := saved.allowArguments);
      hasAssign := saved.hasAssign;
    }

    /** A name that is bound may not be "eval" or "arguments" in strict mode. */
    method CheckName(name: Option<Name>)
      modifies `errors
      ensures errors == old(errors) + OptionalNameErrors(name, st.strictDepth > 0)
    {
      if name.Some? {
        ErrorIfStrictEvalOrArguments(name.value);
      }
    }

    method VisitFunctionCommon(func: Func, isArrow: bool, isMethod: bool, isStaticMethod: bool,
                               isDerivedConstructor: bool, isStaticInitializer: bool) returns (r: Func)
      requires st.InSync()
      modifies this
      ensures st == old(st) && labels == old(labels) && hasAssign == old(hasAssign)
      ensures var f := FunctionEntry(isArrow, isMethod, isStaticMethod, isDerivedConstructor, isStaticInitializer, false);
              var w := WalkFunc(func, st.Env(), f);
              r == w.node && errors == old(errors) + w.errors
      decreases func, 1
    {
      var f := FunctionEntry(isArrow, isMethod, isStaticMethod, isDerivedConstructor, isStaticInitializer, false);
      ghost var outer, inner := st, InsideFunction(st.Env(), f, func.isStrict);
      InFunctionIsInside(st, f, func.isStrict);
      var saved := EnterFunction(f, func.isStrict);
      ghost var name := if isMethod then None else func.name;
      Associative(errors, OptionalNameErrors(name, inner.strict), WalkFuncParts(func, inner).errors);
      CheckName(if isMethod then None else func.name);
      r := VisitFunctionParts(func);
      r := r.(needsArguments := if isArrow then r.needsArguments else r.bindsArguments);
      ExitFunction(f, r.isStrict, saved, outer);
    }

    method EnterFunction(f: FunctionEntry, isStrict: bool) returns (saved: SavedState)
      modifies `st, `labels
      ensures st == old(st).InFunction(f, isStrict) && labels == map[]
      ensures saved == SavedState(old(labels), old(st.labelDepth), old(st.breakableDepth), old(st.iterableDepth),
                                  old(st.allowArguments), hasAssign)
    {
      st := st.(functionStack := st.functionStack + [f],
                allowReturnStack := st.allowReturnStack + [!f.isStaticInitializer],
                inParametersStack := st.inParametersStack + [false]);
      if !f.isArrow {
        var entry := if f.isMethod then Allow(f.isStatic || f.isStaticInitializer) else Disallow;
        st := st.(allowSuperStack := st.allowSuperStack + [entry]);
      }
      saved := SaveState();
      if isStrict {
        st := st.(strictDepth := st.strictDepth + 1);
      }
      if f.isStaticInitializer {
        st := st.(allowArguments := false);
      } else if !f.isArrow {
        st := st.(allowArguments := true);
      }
    }

    method ExitFunction(f: FunctionEntry, isStrict: bool, saved: SavedState, ghost outer: State)
      requires st == outer.InFunction(f, isStrict)
      requires saved.labelDepth == outer.labelDepth && saved.breakableDepth == outer.breakableDepth
      requires saved.iterableDepth == outer.iterableDepth && saved.allowArguments == outer.allowArguments
      modifies `st, `labels, `hasAssign
      ensures st == outer && labels == saved.labels && hasAssign == saved.hasAssign
    {
      if isStrict {
        st := st.(strictDepth := st.strictDepth - 1);
      }
      if !f.isArrow {
        st := st.(allowSuperStack := Pop(st.allowSuperStack));
      }
      st := st.(inParametersStack := Pop(st.inParametersStack),
                allowReturnStack := Pop(st.allowReturnStack),
                functionStack := Pop(st.functionStack));
      RestoreState(saved);
    }

    /** Parameters and body are in the function's scope. */
    method VisitFunctionParts(func: Func) returns (r: Func)
      requires st.InSync() && labels == map[] && !st.Env().inParameters && st.inParametersStack != []
      modifies this
      ensures st == old(st)
      ensures var w := WalkFuncParts(func, st.Env()); r == w.node && errors == old(errors) + w.errors
      decreases func, 0
    {
      ghost var c, outer := st.Env(), st;
      EnterScope(Some(func.scope));
      ghost var p, b := WalkOuters(func.params, c.(inParameters := true)), WalkStmt(func.body, c, map[]);
      Associative(errors, p.errors, b.errors);
      var params := VisitParams(func.params);
      var body := VisitStmt(func.body);
      ExitScope(Some(func.scope), outer);
      r := func.(params := params, body := body);
    }

    /** Await and yield are not allowed in parameters. */
    method VisitParams(params: seq<Outer>) returns (r: seq<Outer>)
      requires st.InSync()
      modifies this
      ensures st == old(st) && labels == old(labels)
      ensures var w := WalkOuters(params, st.Env().(inParameters := true)); r == w.node && errors == old(errors) + w.errors
      decreases params, 1
    {
      PushPop(st.inParametersStack, true);
      st := st.(inParametersStack := st.inParametersStack + [true]);
      r := VisitOuters(params);
      st := st.(inParametersStack := Pop(st.inParametersStack));
    }

    method VisitClass(cls: Class) returns (r: Class)
      requires st.InSync()
      modifies this
      ensures st == old(st) && labels == old(labels) && hasAssign == old(hasAssign)
      ensures var w := WalkClass(cls, st.Env()); r == w.node && errors == old(errors) + w.errors
      decreases cls, 2
    {
      ghost var outer := st;
      Associative(errors, OptionalNameErrors(cls.name, true), WalkClassBody(cls, InsideClass(st.Env())).errors);
      st := st.(strictDepth := st.strictDepth + 1);
      CheckName(cls.name);
      var saved := SaveState();
      assert st == outer.InClass() && st.Env() == InsideClass(outer.Env());
      EnterScope(Some(cls.scope));
      r := VisitClassBody(cls);
      ExitScope(Some(cls.scope), outer.InClass());
      RestoreState(saved);
      st := st.(strictDepth := st.strictDepth - 1);
    }

    method VisitClassBody(cls: Class) returns (r: Class)
      requires st.InSync()
      modifies this
      ensures st == old(st)
      ensures var w := WalkClassBody(cls, st.Env()); r == w.node && errors == old(errors) + w.errors
      decreases cls, 1
    {
      ghost var outer, c, before := st, st.Env(), errors;
      ghost var h := WalkOuters(cls.heritage, c);
      var heritage := VisitOuters(cls.heritage);
      var names, privateErrors, body := PrivateNames.CollectPrivateNames(cls.elements);
      errors := errors + privateErrors;
      var entry := ClassEntry(names.Keys, cls.heritage != []);
      PushPop(st.classStack, entry);
      st := st.(classStack := st.classStack + [entry]);
      ghost var inner := c.(classes := c.classes + [entry]);
      assert st.Env() == inner;
      ghost var e := WalkElements(cls.elements, inner, body);
      Associative(before, h.errors, privateErrors + e.errors);
      Associative(before + h.errors, privateErrors, e.errors);
      var elements := VisitElements(cls.elements, body, cls);
      st := st.(classStack := Pop(st.classStack));
      r := cls.(heritage := heritage, elements := elements);
    }

    method VisitElements(es: seq<Element>, marked: seq<Element>, cls: Class) returns (r: seq<Element>)
      requires st.InSync() && st.classStack != [] && |marked| == |es|
      modifies this
      ensures st == old(st)
      ensures var w := WalkElements(es, st.Env(), marked); r == w.node && errors == old(errors) + w.errors
      decreases es
    {
      ghost var c, w := st.Env(), WalkElements(es, st.Env(), marked);
      r := [];
      for i := 0 to |es|
        invariant st == old(st)
        invariant r + WalkElements(es[i..], c, marked[i..]).node == w.node
        invariant errors + WalkElements(es[i..], c, marked[i..]).errors == old(errors) + w.errors
      {
        assert es[i..][1..] == es[i + 1..] && marked[i..][1..] == marked[i + 1..];
        ghost var first, rest := WalkElement(es[i], c, marked[i]), WalkElements(es[i + 1..], c, marked[i + 1..]);
        Associative(r, [first.node], rest.node);
        Associative(errors, first.errors, rest.errors);
        var e := VisitElement(es[i], marked[i], cls);
        r := r + [e];
      }
    }

    method VisitElement(e: Element, marked: Element, cls: Class) returns (r: Element)
      requires st.InSync() && st.classStack != []
      modifies this
      ensures st == old(st)
      ensures var w := WalkElement(e, st.Env(), marked); r == w.node && errors == old(errors) + w.errors
      decreases e, 1
    {
      if e.Method? {
        r := VisitMethod(e, marked);
      } else {
        r := VisitField(e, marked, cls);
      }
    }

    method VisitMethod(e: Element, marked: Element) returns (r: Element)
      requires st.InSync() && st.classStack != [] && e.Method?
      modifies this
      ensures st == old(st)
      ensures var w := WalkElement(e, st.Env(), marked); r == w.node && errors == old(errors) + w.errors
      decreases e, 0
    {
      var isDerived := e.methodKind == Constructor && Top(st.classStack).isDerived;
      ghost var f := MethodFunction(e.isStatic, isDerived, e.methodKind == StaticInitializer);
      Associative(errors, WalkOuters(e.key, st.Env()).errors, WalkFunc(e.func, st.Env(), f).errors);
      var key := VisitOuters(e.key);
      var func := VisitFunctionCommon(e.func, false, true, e.isStatic, isDerived, e.methodKind == StaticInitializer);
      r := Method(key, func, e.methodKind, e.isStatic, e.privateName,
                  if marked.Method? then marked.isPairStart else e.isPairStart);
    }

    method VisitField(e: Element, ghost marked: Element, cls: Class) returns (r: Element)
      requires st.InSync() && st.classStack != [] && e.Field?
      modifies this
      ensures st == old(st)
      ensures var w := WalkElement(e, st.Env(), marked); r == w.node && errors == old(errors) + w.errors
      decreases e, 0
    {
      ghost var inner := InsideField(st.Env(), e.isStatic);
      Associative(errors, WalkOuters(e.key, st.Env()).errors, WalkOuters(e.value, inner).errors);
      var key := VisitOuters(e.key);
      var value := VisitFieldValue(e.value, e.isStatic, if e.isStatic then cls.staticScope else cls.fieldScope);
      r := Field(key, value, e.isStatic, e.privateName);
    }

    method VisitFieldValue(value: seq<Outer>, isStatic: bool, scope: Option<Scope>) returns (r: seq<Outer>)
      requires st.InSync()
      modifies this
      ensures st == old(st)
      ensures var w := WalkOuters(value, InsideField(st.Env(), isStatic)); r == w.node && errors == old(errors) + w.errors
      decreases value, 1
    {
      ghost var outer := st;
      var oldAllowArguments := EnterField(isStatic, scope);
      r := VisitOuters(value);
      ExitField(isStatic, scope, oldAllowArguments, outer);
    }

    method EnterField(isStatic: bool, scope: Option<Scope>) returns (oldAllowArguments: bool)
      requires st.InSync()
      modifies `st
      ensures oldAllowArguments == old(st).allowArguments
      ensures st == old(st).InField(isStatic).InScope(scope) && st.InSync() && st.Env() == InsideField(old(st).Env(), isStatic)
    {
      PushFunction(st.functionStack, FieldInitializer(isStatic));
      oldAllowArguments := st.allowArguments;
      st := st.(allowArguments := false);
      EnterScope(scope);
      st := st.(allowSuperStack := st.allowSuperStack + [Allow(isStatic)]);
      st := st.(functionStack := st.functionStack + [FieldInitializer(isStatic)]);
    }

    method ExitField(isStatic: bool, scope: Option<Scope>, oldAllowArguments: bool, ghost outer: State)
      requires st == outer.InField(isStatic).InScope(scope) && oldAllowArguments == outer.allowArguments
      modifies `st
      ensures st == outer
    {
      PushPop(outer.functionStack, FieldInitializer(isStatic));
      PushPop(outer.allowSuperStack, Allow(isStatic));
      st := st.(functionStack := Pop(st.functionStack));
      st := st.(allowSuperStack := Pop(st.allowSuperStack));
      ExitScope(scope, outer.(allowArguments := false));
      st := st.(allowArguments := oldAllowArguments);
    }

    // ----- Statements -----

    method VisitStmts(ss: seq<Stmt>) returns (r: seq<Stmt>)
      requires st.InSync()
      modifies this
      ensures st == old(st)
      ensures var w := WalkStmts(ss, st.Env(), old(labels));
              r == w.node && errors == old(errors) + w.errors && labels == w.labels
      decreases ss
    {
      ghost var c, w := st.Env(), WalkStmts(ss, st.Env(), labels);
      r := [];
      for i := 0 to |ss|
        invariant st == old(st)
        invariant r + WalkStmts(ss[i..], c, labels).node == w.node
        invariant errors + WalkStmts(ss[i..], c, labels).errors == old(errors) + w.errors
        invariant WalkStmts(ss[i..], c, labels).labels == w.labels
      {
        assert ss[i..][1..] == ss[i + 1..];
        ghost var first := WalkStmt(ss[i], c, labels);
        ghost var rest := WalkStmts(ss[i + 1..], c, first.labels);
        Associative(r, [first.node], rest.node);
        Associative(errors, first.errors, rest.errors);
        var s := VisitStmt(ss[i]);
        r := r + [s];
      }
    }

    method VisitStmt(s: Stmt) returns (r: Stmt)
      requires st.InSync()
      modifies this
      ensures st == old(st)
      ensures var w := WalkStmt(s, st.Env(), old(labels));
              r == w.node && errors == old(errors) + w.errors && labels == w.labels
      decreases s, 3
    {
      match s
      case ExprStmt(o) =>
        var e := VisitExpressionStatement(o);
        r := ExprStmt(e);
      case Decl(expr) =>
        var e := VisitExpr(expr);
        r := Decl(e);
      case Nest(kind, _, _, _) =>
        Associative(errors, NestErrors(kind, st.Env()), WalkNest(s, InsideNest(kind, st.Env()), labels).errors);
        CheckNest(kind);
        r := VisitNest(s);
      case Jump(isContinue, target) =>
        var target' := VisitJump(isContinue, target);
        r := Jump(isContinue, target');
      case Labeled(_, _) =>
        r := VisitLabeled(s);
    }

    /** A top level assignment is judged on its two sides only. */
    method VisitExpressionStatement(o: Outer) returns (r: Outer)
      requires st.InSync()
      modifies this
      ensures st == old(st) && labels == old(labels)
      ensures var w := WalkExpr(o.expr, st.Env());
              r == Outer(w.node, StatementAssigns(o.expr, false)) && errors == old(errors) + w.errors
      decreases o, 1
    {
      if o.expr.Op? && o.expr.op.Assignment? {
        hasAssign := false;
        var operands := VisitExprs(o.expr.operands);
        r := Outer(Op(Assignment, operands), hasAssign);
        hasAssign := false;
        assert OperatorErrors(o.expr.op, st.Env()) == [];
      } else {
        r := VisitOuter(o);
      }
    }

    method CheckNest(kind: NestKind)
      requires st.InSync()
      modifies `errors
      ensures errors == old(errors) + NestErrors(kind, st.Env())
    {
      if kind.With? && st.strictDepth > 0 {
        EmitError(WithInStrictMode);
      } else if kind.Return? && !(st.allowReturnStack != [] && Top(st.allowReturnStack)) {
        EmitError(ReturnOutsideFunction);
      }
    }

    method VisitNest(s: Stmt) returns (r: Stmt)
      requires st.InSync() && s.Nest?
      modifies this
      ensures st == old(st)
      ensures var w := WalkNest(s, InsideNest(s.nest, st.Env()), old(labels));
              r == w.node && errors == old(errors) + w.errors && labels == w.labels
      decreases s, 2
    {
      ghost var outer := st;
      EnterNest(s.nest);
      r := VisitNestParts(s);
      ExitNest(s.nest, outer);
    }

    /** Every iterable is also breakable. */
    method EnterNest(kind: NestKind)
      requires st.InSync()
      modifies `st
      ensures st == old(st).InNest(kind) && st.InSync() && st.Env() == InsideNest(kind, old(st).Env())
    {
      if kind.Loop? {
        st := st.(breakableDepth := st.breakableDepth + 1, iterableDepth := st.iterableDepth + 1);
      } else if kind.Switch? {
        st := st.(breakableDepth := st.breakableDepth + 1);
      }
    }

    method ExitNest(kind: NestKind, ghost outer: State)
      requires st == outer.InNest(kind)
      modifies `st
      ensures st == outer
    {
      if kind.Loop? {
        st := st.(breakableDepth := st.breakableDepth - 1, iterableDepth := st.iterableDepth - 1);
      } else if kind.Switch? {
        st := st.(breakableDepth := st.breakableDepth - 1);
      }
    }

    /** The discriminant of a switch and the object of a with are visited outside their scope. */
    method VisitNestParts(s: Stmt) returns (r: Stmt)
      requires st.InSync() && s.Nest?
      modifies this
      ensures st == old(st)
      ensures var w := WalkNest(s, st.Env(), old(labels));
              r == w.node && errors == old(errors) + w.errors && labels == w.labels
      decreases s, 1
    {
      ghost var outer, c := st, st.Env();
      Associative(errors, WalkOuters(s.exprs, c).errors, WalkStmts(s.body, c, labels).errors);
      var scopeFirst := !s.nest.Switch? && !s.nest.With?;
      EnterScope(if scopeFirst then s.own else None);
      var exprs := VisitOuters(s.exprs);
      EnterScope(if scopeFirst then None else s.own);
      var body := VisitStmts(s.body);
      ExitScope(s.own, outer);
      r := Nest(s.nest, s.own, exprs, body);
    }

    /** Break and continue statements. */
    method VisitJump(isContinue: bool, target: Option<Label>) returns (r: Option<Label>)
      modifies `errors
      ensures r == ResolvedLabel(target, labels, isContinue)
      ensures errors == old(errors) + JumpErrors(isContinue, target, st.Env(), labels)
    {
      r := target;
      if target.Some? {
        var name := target.value.name;
        if name !in labels || (isContinue && !labels[name].isContinueTarget) {
          EmitError(LabelNotFound);
        } else {
          r := Some(target.value.(id := labels[name].id));
        }
      }
      if isContinue {
        if !(st.iterableDepth > 0) {
          EmitError(ContinueOutsideIterable);
        }
      } else if target.None? && !(st.breakableDepth > 0) {
        EmitError(UnlabeledBreakOutsideBreakable);
      }
    }

    // ----- Labels -----

    method VisitLabeled(s: Stmt) returns (r: Stmt)
      requires st.InSync() && s.Labeled?
      modifies this
      ensures st == old(st)
      ensures var w := WalkLabeled(s, st.Env(), old(labels));
              r == w.node && errors == old(errors) + w.errors && labels == w.labels
      decreases s, 0
    {
      ghost var outer, before, errorsBefore := st, labels, errors;
      var inner, stack := PushAllLabels(s);
      var id := st.labelDepth;
      assert st.Env() == outer.Env().(labelDepth := id);
      ghost var b := WalkStmt(inner, st.Env(), labels);
      Associative(errorsBefore, DuplicateErrors(LabelNames(s), before.Keys), b.errors);
      var inner' := VisitStmt(inner);
      PopAllLabels(stack, LabelNames(s), before);
      r := Relabeled(s, id, inner');
    }

    /** Enters all labels on a statement at once; a label that is visible already is only reported. */
    method PushAllLabels(s: Stmt) returns (inner: Stmt, stack: seq<(Name, bool)>)
      requires s.Labeled?
      modifies `st, `labels, `errors
      ensures st == old(st).(labelDepth := old(st).labelDepth + 1)
      ensures inner == Unlabeled(s.labeled) && Stacked(stack, LabelNames(s), old(labels))
      ensures labels == Entered(LabelNames(s), st.labelDepth, old(labels), IsContinueTarget(inner))
      ensures errors == old(errors) + DuplicateErrors(LabelNames(s), old(labels).Keys)
    {
      ghost var before := labels;
      st := st.(labelDepth := st.labelDepth + 1);
      inner, stack := DefineAllLabels(s, st.labelDepth);
      if IsContinueTarget(inner) {
        MarkContinueTargets(stack, LabelNames(s));
      }
    }

    method DefineAllLabels(s: Stmt, id: nat) returns (inner: Stmt, stack: seq<(Name, bool)>)
      modifies `labels, `errors
      ensures inner == Unlabeled(s) && Stacked(stack, LabelNames(s), old(labels))
      ensures labels == Defined(LabelNames(s), id, old(labels))
      ensures errors == old(errors) + DuplicateErrors(LabelNames(s), old(labels).Keys)
    {
      inner, stack := s, [];
      ghost var names, before, done := LabelNames(s), labels, [];
      while inner.Labeled?
        invariant names == done + LabelNames(inner) && Unlabeled(inner) == Unlabeled(s)
        invariant Stacked(stack, done, before)
        invariant labels == Defined(done, id, before)
        invariant errors + DuplicateErrors(LabelNames(inner), labels.Keys) == old(errors) + DuplicateErrors(names, before.Keys)
        decreases inner
      {
        var name := inner.tag.name;
        ghost var rest, seen := LabelNames(inner.labeled), labels.Keys;
        Associative(done, [name], rest);
        DuplicateErrorsNext(errors, name, rest, seen);
        DefinedNext(done, name, id, before);
        DefinedKeys(done, name, id, before);
        StackedNext(stack, done, before, name);
        var isDuplicate := VisitLabelDef(name, id);
        stack := stack + [(name, isDuplicate)];
        inner := inner.labeled;
        done := done + [name];
      }
      assert LabelNames(inner) == [];
      assert done == names;
    }

    method VisitLabelDef(name: Name, id: nat) returns (isDuplicate: bool)
      modifies `labels, `errors
      ensures isDuplicate == (name in old(labels))
      ensures labels == Defined([name], id, old(labels))
      ensures errors == old(errors) + ErrorIf(isDuplicate, DuplicateLabel)
    {
      isDuplicate := name in labels;
      if isDuplicate {
        EmitError(DuplicateLabel);
      } else {
        labels := labels[name := LabelInfo(id, false)];
      }
    }

    method MarkContinueTargets(stack: seq<(Name, bool)>, ghost names: seq<Name>)
      requires |stack| == |names| && forall i | 0 <= i < |names| :: stack[i].0 == names[i] && names[i] in labels
      modifies `labels
      ensures labels == Targeted(names, old(labels))
    {
      TargetedNone(labels);
      for i := 0 to |stack|
        invariant labels == Targeted(names[..i], old(labels))
      {
        assert names[..i + 1] == names[..i] + [names[i]];
        TargetedNext(names[..i], names[i], old(labels));
        labels := labels[stack[i].0 := labels[stack[i].0].(isContinueTarget := true)];
      }
      assert names[..|stack|] == names;
    }

    /** Leaves all labels on a statement, except those that were visible before. */
    method PopAllLabels(stack: seq<(Name, bool)>, ghost names: seq<Name>, ghost before: Labels)
      requires Stacked(stack, names, before) && st.labelDepth > 0
      modifies `st, `labels
      ensures st == old(st).(labelDepth := old(st).labelDepth - 1)
      ensures labels == Left(names, before, old(labels))
    {
      assert names[|stack|..] == [];
      var i := |stack|;
      while i > 0
        invariant 0 <= i <= |stack| && st == old(st)
        invariant labels == Unstacked(stack[i..], old(labels))
      {
        i := i - 1;
        assert stack[i..] == [stack[i]] + stack[i + 1..];
        if !stack[i].1 {
          labels := labels - {stack[i].0};
        }
      }
      assert stack[0..] == stack;
      UnstackedIsLeft(stack, names, before, old(labels));
      st := st.(labelDepth := st.labelDepth - 1);
    }

    // ----- The program -----

    /** A whole program, analyzed by a new analyzer. */
    method VisitProgram(p: Program) returns (r: seq<Stmt>)
      requires st.InSync() && st.Env() == Context(0, false, false, false, true, false, [], [])
      requires labels == map[] && errors == []
      modifies this
      ensures st == old(st)
      ensures r == WalkProgram(p).node && errors == WalkProgram(p).errors && labels == WalkProgram(p).labels
    {
      ghost var outer := st;
      if p.isStrict {
        st := st.(strictDepth := st.strictDepth + 1);
      }
      ghost var middle := st;
      EnterScope(Some(p.scope));
      r := VisitStmts(p.toplevels);
      ExitScope(Some(p.scope), middle);
      if p.isStrict {
        st := st.(strictDepth := st.strictDepth - 1);
      }
    }
  }

  // ----- The stack of labels on a statement -----

  /** The labels on a statement, each with whether it was a duplicate when it was reached. */
  ghost predicate Stacked(stack: seq<(Name, bool)>, names: seq<Name>, before: Labels) {
    |stack| == |names|
    && forall i | 0 <= i < |stack| :: stack[i] == (names[i], names[i] in before || names[i] in names[..i])
  }

  /** The labels without those that are not duplicates. */
  ghost function Unstacked(stack: seq<(Name, bool)>, labels: Labels): Labels {
    map n | n in labels && (n, false) !in stack :: labels[n]
  }

  lemma DefinedNext(names: seq<Name>, name: Name, id: nat, before: Labels)
    ensures Defined([name], id, Defined(names, id, before)) == Defined(names + [name], id, before)
  {
    var l, l' := Defined([name], id, Defined(names, id, before)), Defined(names + [name], id, before);
    assert l.Keys == l'.Keys;
  }

  lemma DefinedKeys(names: seq<Name>, name: Name, id: nat, before: Labels)
    ensures Defined(names + [name], id, before).Keys == Defined(names, id, before).Keys + {name}
  {}

  lemma TargetedNone(labels: Labels)
    ensures Targeted([], labels) == labels
  {}

  lemma StackedNext(stack: seq<(Name, bool)>, names: seq<Name>, before: Labels, name: Name)
    requires Stacked(stack, names, before)
    ensures Stacked(stack + [(name, name in before || name in names)], names + [name], before)
  {
    forall i | 0 <= i <= |names|
      ensures (names + [name])[..i] == names[..i]
    {}
  }

  lemma DuplicateErrorsNext(errors: seq<Error>, name: Name, rest: seq<Name>, seen: set<Name>)
    ensures errors + DuplicateErrors([name] + rest, seen)
         == (errors + ErrorIf(name in seen, DuplicateLabel)) + DuplicateErrors(rest, seen + {name})
  {
    assert ([name] + rest)[1..] == rest;
  }

  lemma TargetedNext(names: seq<Name>, name: Name, labels: Labels)
    requires name in labels
    ensures var l := Targeted(names, labels);
            l[name := l[name].(isContinueTarget := true)] == Targeted(names + [name], labels)
  {}

  /** Each label that was not visible before has an entry that is not a duplicate: its first. */
  lemma FirstIsNoDuplicate(stack: seq<(Name, bool)>, names: seq<Name>, before: Labels, name: Name, i: nat)
    requires Stacked(stack, names, before) && i < |names| && name == names[i] && name !in before
    ensures (name, false) in stack
  {
    if name in names[..i] {
      var j :| 0 <= j < i && names[j] == name;
      FirstIsNoDuplicate(stack, names, before, name, j);
    } else {
      assert stack[i] == (name, false);
    }
  }

  lemma UnstackedIsLeft(stack: seq<(Name, bool)>, names: seq<Name>, before: Labels, after: Labels)
    requires Stacked(stack, names, before)
    ensures Unstacked(stack, after) == Left(names, before, after)
  {
    forall n | n in after
      ensures (n, false) in stack <==> n in names && n !in before
    {
      if n in names && n !in before {
        var i :| 0 <= i < |names| && names[i] == n;
        FirstIsNoDuplicate(stack, names, before, n, i);
      }
    }
  }
}
