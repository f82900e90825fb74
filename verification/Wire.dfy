/** The LF2 wire messages a package is made of: terms that mention the package's interning tables by
    index, and the tables themselves.

    A message that is absent and a message whose `oneof` is absent are rejected at the same point
    with the same error, so one `...Unset` constructor stands for both. Indices are the wire's signed
    integers: negative and out-of-range ones are representable. */
module Wire {

  // ---------- Kinds ----------

  datatype Kind =
    | KindUnset
    | KindStar
    | KindNat
    | KindArrow(params: seq<Kind>, result: Kind)
    | KindInterned(idx: int)

  datatype TypeVarWithKind = TypeVarWithKind(name: int, kind: Kind)

  // ---------- References ----------

  datatype PackageRef =
    | PackageRefUnset
    | SelfPackage
    | ImportedPackage(name: int)
    | PackageImport(id: int)

  datatype ModuleId =
    | ModuleIdUnset
    | ModuleId(package: PackageRef, name: int)

  /** A type constructor, type synonym or value reference: a module and a dotted name in it. */
  datatype QualifiedId =
    | QualifiedIdUnset
    | QualifiedId(mod: ModuleId, name: int)

  // ---------- Types ----------

  datatype BuiltinType =
    | Unit | Bool | Int64 | Date | Timestamp | Numeric | Party | Text | ContractId | Optional | List
    | Genmap | Any | AnyException | TypeRep | Arrow | Update | FailureCategory | Textmap | Bignumeric
    | RoundingMode
    | UnknownBuiltinType(code: int)

  datatype Type =
    | TypeUnset
    | TypeVar(name: int, args: seq<Type>)
    | TypeCon(tycon: QualifiedId, args: seq<Type>)
    | TypeSyn(tysyn: QualifiedId, args: seq<Type>)
    | TypeBuiltin(builtin: BuiltinType, args: seq<Type>)
    | TypeForall(vars: seq<TypeVarWithKind>, body: Type)
    | TypeStruct(fields: seq<FieldWithType>)
    | TypeNat(n: int)
    | TypeInterned(idx: int)
    | TypeApp

  datatype FieldWithType = FieldWithType(name: int, ty: Type)

  // ---------- Expressions ----------

  datatype VarWithType =
    | VarWithTypeUnset
    | VarWithType(name: int, ty: Type)

  datatype Binding = Binding(binder: VarWithType, bound: Expr)

  datatype FieldWithExpr = FieldWithExpr(name: int, expr: Expr)

  datatype Pattern =
    | PatternUnset
    | PatternDefault
    | PatternVariant(con: QualifiedId, variant: int, binder: int)
    | PatternNil
    | PatternCons(head: int, tail: int)
    | PatternEnum(con: QualifiedId, constructor_: int)

  datatype CaseAlt = CaseAlt(body: Expr, pattern: Pattern)

  datatype Expr =
    | ExprUnset
    | ExprVar(name: int)
    | ExprVal(id: QualifiedId)
    | ExprNil(ty: Type)
    | ExprRecCon(tycon: QualifiedId, tyargs: seq<Type>, fields: seq<FieldWithExpr>)
    | ExprApp(fun: Expr, args: seq<Expr>)
    | ExprTyApp(expr: Expr, types: seq<Type>)
    | ExprAbs(params: seq<VarWithType>, body: Expr)
    | ExprTyAbs(tyParams: seq<TypeVarWithKind>, body: Expr)
    | ExprCase(scrut: Expr, alts: seq<CaseAlt>)
    | ExprLet(bindings: seq<Binding>, body: Expr)
    | ExprUpdate(update: Update)
    | ExprInterned(idx: int)
    | ExprExperimental

  datatype Update =
    | UpdateUnset
    | UpdatePure(ty: Type, expr: Expr)
    | UpdateBlock(bindings: seq<Binding>, body: Expr)
    | UpdateCreate(template: QualifiedId, expr: Expr)
    | UpdateExercise(template: QualifiedId, cid: Expr, arg: Expr, choice: int)
    | UpdateGetTime

  // ---------- Declarations ----------

  datatype DataCons =
    | DataConsUnset
    | ConsRecord(fields: seq<FieldWithType>)
    | ConsVariant(fields: seq<FieldWithType>)
    | ConsEnum(constructors: seq<int>)
    | ConsInterface

  datatype DefDataType =
    DefDataType(name: int, params: seq<TypeVarWithKind>, serializable: bool, cons: DataCons)

  datatype TemplateChoice = TemplateChoice(
    name: int, selfBinder: int, argBinder: VarWithType, retType: Type, consuming: bool, authorizers: bool)

  datatype DefKey = NoKey | DefKey(ty: Type)

  datatype DefTemplate = DefTemplate(
    tycon: int, param: int, choices: seq<TemplateChoice>, key: DefKey, implements: seq<QualifiedId>)

  datatype InterfaceMethod = InterfaceMethod(name: int, ty: Type)

  datatype DefInterface = DefInterface(
    tycon: int, param: int, methods: seq<InterfaceMethod>, choices: seq<TemplateChoice>, view: Type,
    requires_: seq<QualifiedId>)

  datatype DefException = DefException(name: int)

  datatype DefTypeSyn = DefTypeSyn(name: int, params: seq<TypeVarWithKind>, ty: Type)

  datatype ModuleFlags =
    | ModuleFlagsUnset
    | ModuleFlags(
        forbidPartyLiterals: bool,
        dontDivulgeContractIdsInCreateArguments: bool,
        dontDiscloseNonConsumingChoicesToObservers: bool)

  datatype Module = Module(
    name: int, flags: ModuleFlags, synonyms: seq<DefTypeSyn>, dataTypes: seq<DefDataType>,
    templates: seq<DefTemplate>, interfaces: seq<DefInterface>, exceptions: seq<DefException>)

  /** One decoded package with its tables, and the package-name table shared across the archive. */
  datatype Package = Package(
    name: string,
    packageId: string,
    strings: seq<string>,
    dottedNames: seq<seq<int>>,
    types: seq<Type>,
    kinds: seq<Kind>,
    exprs: seq<Expr>,
    modules: seq<Module>,
    pkgNames: map<string, string>)

  // ---------- Acyclic interning tables ----------
  //
  // The converters chase interned nodes with no cycle check, so they return only when the tables are
  // acyclic. A table is acyclic when its entries can be ranked so that every in-range index an entry
  // mentions has a smaller rank than the entry. `...Bound` is the least rank above everything a term
  // mentions.

  ghost function Max(a: nat, b: nat): nat {
    if a < b then b else a
  }

  ghost function IndexBound(idx: int, rank: seq<nat>): nat {
    if 0 <= idx < |rank| then rank[idx] + 1 else 0
  }

  ghost function KindBound(k: Kind, rank: seq<nat>): nat
    decreases k
  {
    match k
    case KindArrow(params, result) => Max(KindsBound(params, rank), KindBound(result, rank))
    case KindInterned(idx) => IndexBound(idx, rank)
    case _ => 0
  }

  ghost function KindsBound(ks: seq<Kind>, rank: seq<nat>): nat
    decreases ks
  {
    if ks == [] then 0 else Max(KindBound(ks[0], rank), KindsBound(ks[1..], rank))
  }

  ghost predicate KindsRanked(kinds: seq<Kind>, rank: seq<nat>) {
    && |rank| == |kinds|
    && forall i :: 0 <= i < |kinds| ==> KindBound(kinds[i], rank) <= rank[i]
  }

  ghost predicate AcyclicKinds(kinds: seq<Kind>) {
    exists rank :: KindsRanked(kinds, rank)
  }

  ghost function KindRank(kinds: seq<Kind>): (rank: seq<nat>)
    requires AcyclicKinds(kinds)
    ensures KindsRanked(kinds, rank)
  {
    var rank :| KindsRanked(kinds, rank);
    rank
  }

  ghost function TypeBound(t: Type, rank: seq<nat>): nat
    decreases t
  {
    match t
    case TypeVar(_, args) => TypesBound(args, rank)
    case TypeCon(_, args) => TypesBound(args, rank)
    case TypeSyn(_, args) => TypesBound(args, rank)
    case TypeBuiltin(_, args) => TypesBound(args, rank)
    case TypeForall(_, body) => TypeBound(body, rank)
    case TypeStruct(fields) => FieldsBound(fields, rank)
    case TypeInterned(idx) => IndexBound(idx, rank)
    case _ => 0
  }

  ghost function TypesBound(ts: seq<Type>, rank: seq<nat>): nat
    decreases ts
  {
    if ts == [] then 0 else Max(TypeBound(ts[0], rank), TypesBound(ts[1..], rank))
  }

  ghost function FieldsBound(fs: seq<FieldWithType>, rank: seq<nat>): nat
    decreases fs
  {
    if fs == [] then 0 else
      assert fs[0].ty < fs[0];
      Max(TypeBound(fs[0].ty, rank), FieldsBound(fs[1..], rank))
  }

  ghost predicate TypesRanked(types: seq<Type>, rank: seq<nat>) {
    && |rank| == |types|
    && forall i :: 0 <= i < |types| ==> TypeBound(types[i], rank) <= rank[i]
  }

  ghost predicate AcyclicTypes(types: seq<Type>) {
    exists rank :: TypesRanked(types, rank)
  }

  ghost function TypeRank(types: seq<Type>): (rank: seq<nat>)
    requires AcyclicTypes(types)
    ensures TypesRanked(types, rank)
  {
    var rank :| TypesRanked(types, rank);
    rank
  }

  ghost function ExprBound(e: Expr, rank: seq<nat>): nat
    decreases e
  {
    match e
    case ExprRecCon(_, _, fields) => FieldExprsBound(fields, rank)
    case ExprApp(fun, args) => Max(ExprBound(fun, rank), ExprsBound(args, rank))
    case ExprTyApp(expr, _) => ExprBound(expr, rank)
    case ExprAbs(_, body) => ExprBound(body, rank)
    case ExprTyAbs(_, body) => ExprBound(body, rank)
    case ExprCase(scrut, alts) => Max(ExprBound(scrut, rank), AltsBound(alts, rank))
    case ExprLet(bindings, body) => Max(BindingsBound(bindings, rank), ExprBound(body, rank))
    case ExprUpdate(update) => UpdateBound(update, rank)
    case ExprInterned(idx) => IndexBound(idx, rank)
    case _ => 0
  }

  ghost function UpdateBound(u: Update, rank: seq<nat>): nat
    decreases u
  {
    match u
    case UpdatePure(_, expr) => ExprBound(expr, rank)
    case UpdateBlock(bindings, body) => Max(BindingsBound(bindings, rank), ExprBound(body, rank))
    case UpdateCreate(_, expr) => ExprBound(expr, rank)
    case UpdateExercise(_, cid, arg, _) => Max(ExprBound(cid, rank), ExprBound(arg, rank))
    case _ => 0
  }

  ghost function ExprsBound(es: seq<Expr>, rank: seq<nat>): nat
    decreases es
  {
    if es == [] then 0 else Max(ExprBound(es[0], rank), ExprsBound(es[1..], rank))
  }

  ghost function FieldExprsBound(fs: seq<FieldWithExpr>, rank: seq<nat>): nat
    decreases fs
  {
    if fs == [] then 0 else
      assert fs[0].expr < fs[0];
      Max(ExprBound(fs[0].expr, rank), FieldExprsBound(fs[1..], rank))
  }

  ghost function AltsBound(alts: seq<CaseAlt>, rank: seq<nat>): nat
    decreases alts
  {
    if alts == [] then 0 else
      assert alts[0].body < alts[0];
      Max(ExprBound(alts[0].body, rank), AltsBound(alts[1..], rank))
  }

  ghost function BindingsBound(bs: seq<Binding>, rank: seq<nat>): nat
    decreases bs
  {
    if bs == [] then 0 else
      assert bs[0].bound < bs[0];
      Max(ExprBound(bs[0].bound, rank), BindingsBound(bs[1..], rank))
  }

  ghost predicate ExprsRanked(exprs: seq<Expr>, rank: seq<nat>) {
    && |rank| == |exprs|
    && forall i :: 0 <= i < |exprs| ==> ExprBound(exprs[i], rank) <= rank[i]
  }

  ghost predicate AcyclicExprs(exprs: seq<Expr>) {
    exists rank :: ExprsRanked(exprs, rank)
  }

  ghost function ExprRank(exprs: seq<Expr>): (rank: seq<nat>)
    requires AcyclicExprs(exprs)
    ensures ExprsRanked(exprs, rank)
  {
    var rank :| ExprsRanked(exprs, rank);
    rank
  }

  /** What every declaration converter needs of its package in order to return. */
  ghost predicate Acyclic(pkg: Package) {
    && AcyclicTypes(pkg.types)
    && AcyclicKinds(pkg.kinds)
  }
}
