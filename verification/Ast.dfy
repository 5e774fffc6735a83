/**
 The part of the syntax tree that the analyzer models, with the fields that analysis fills in.

 Nodes are grouped by how they are visited. An operator stands for every expression that is visited by
 a check of its own followed by its operands from left to right; a `Nest` for every statement that is
 visited by a check of its own, its expressions and its sub-statements. An `Outer` is any expression or
 pattern that has its own "has assignment expression" context: an OuterExpression, a function
 parameter, a declarator's pattern or initializer, the pattern of a for-each loop, a catch parameter.
 A pattern is an expression whose identifiers are `Binding`s.
 */
module Ast {
  import opened Wrappers

  type Name = string
  type Scope = nat

  datatype Outer = Outer(expr: Expr, hasAssign: bool)

  datatype Operator =
    | Plain                       // literals, and operators without a check of their own
    | Ident(name: Name)
    | Binding(name: Name)
    | Object(scope: Scope)
    | Assignment                  // its operands are the left and the right side
    | SuperMember(isStatic: bool)
    | SuperCall
    | NewTarget
    | Await
    | Yield
    | PrivateUse(name: Name)      // o.#x and #x in o

  datatype FunctionKind = FunctionExpression | ArrowFunction | ObjectMethod

  datatype Expr =
    | Op(op: Operator, operands: seq<Expr>)
    | Function(kind: FunctionKind, func: Func)
    | ClassExpr(cls: Class)
    | Import(source: Expr, options: seq<Expr>)  // the options, at most one expression, are never visited

  /** `bindsArguments` is the answer of the scope tree; `needsArguments` is set from it by analysis. */
  datatype Func = Func(name: Option<Name>, isStrict: bool, params: seq<Outer>, body: Stmt, scope: Scope,
                       bindsArguments: bool, needsArguments: bool)

  datatype MethodKind = Normal | Constructor | Get | Set | StaticInitializer

  /** The optional parts (computed keys, initializers, heritage) are sequences of at most one. */
  datatype Element =
    | Method(key: seq<Outer>, func: Func, methodKind: MethodKind, isStatic: bool,
             privateName: Option<Name>, isPairStart: bool)
    | Field(key: seq<Outer>, value: seq<Outer>, isStatic: bool, privateName: Option<Name>)

  datatype Class = Class(name: Option<Name>, heritage: seq<Outer>, elements: seq<Element>, scope: Scope,
                         fieldScope: Option<Scope>, staticScope: Option<Scope>)

  datatype Label = Label(name: Name, id: nat)

  datatype NestKind =
    | Simple  // block, if, declaration, throw, try, catch clause, switch case, function body, empty statement
    | Loop    // while, do-while, for, for-in, for-of
    | Switch
    | With
    | Return

  datatype Stmt =
    | ExprStmt(outer: Outer)
    | Decl(expr: Expr)            // a function or class declaration
    | Nest(nest: NestKind, own: Option<Scope>, exprs: seq<Outer>, body: seq<Stmt>)
    | Jump(isContinue: bool, target: Option<Label>)
    | Labeled(tag: Label, labeled: Stmt)

  /** The errors that the modelled part of the analyzer reports. */
  datatype Error =
    | DuplicateLabel
    | LabelNotFound
    | UnlabeledBreakOutsideBreakable
    | ContinueOutsideIterable
    | ReturnOutsideFunction
    | WithInStrictMode
    | AssignEvalInStrictMode
    | AssignArgumentsInStrictMode
    | ArgumentsInClassInitializer
    | NewTargetOutsideFunction
    | AwaitInParameters
    | AwaitInStaticInitializer
    | YieldInParameters
    | SuperPropertyOutsideMethod
    | SuperCallOutsideDerivedConstructor
    | DuplicatePrivateName
    | PrivateNameConstructor
    | PrivateNameOutsideClass
    | PrivateNameNotDefined

  datatype Program = Program(isStrict: bool, scope: Scope, toplevels: seq<Stmt>)
}
