/** Conversion of wire expressions: a representative set of constructors, with binders, lists of
    children, the update language, and the interned node. */
module ExprConversion {
  import opened Wrappers
  import opened Element
  import opened Interned
  import opened TypeConversion
  import Wire

  /** What expression conversion needs of its package in order to return. */
  ghost predicate AcyclicAll(pkg: Wire.Package) {
    Wire.Acyclic(pkg) && Wire.AcyclicExprs(pkg.exprs)
  }

  /** Value references always come out as `Local`. */
  function ConvertValueId(id: Wire.QualifiedId, pkg: Wire.Package): ConvertResult<DamlTyConName> {
    var n :- ConvertQualifiedId(id, pkg);
    Success(Local(n.dataName, n.ReferencePackage(), n.packageName, n.ReferencePath()))
  }

  function ConvertVarWithType(v: Wire.VarWithType, pkg: Wire.Package): ConvertResult<DamlVarWithType>
    requires Wire.Acyclic(pkg)
  {
    match v
    case VarWithTypeUnset => Failure(MissingRequiredField)
    case VarWithType(name, ty) =>
      var n :- ResolveString(name, pkg);
      var t :- ConvertType(ty, pkg);
      Success(DamlVarWithType(t, n))
  }

  function ConvertVarsWithType(vs: seq<Wire.VarWithType>, pkg: Wire.Package)
    : ConvertResult<seq<DamlVarWithType>>
    requires Wire.Acyclic(pkg)
  {
    if vs == [] then Success([]) else
      var head :- ConvertVarWithType(vs[0], pkg);
      var tail :- ConvertVarsWithType(vs[1..], pkg);
      Success([head] + tail)
  }

  function ConvertPattern(p: Wire.Pattern, pkg: Wire.Package): ConvertResult<DamlPattern> {
    match p
    case PatternUnset => Failure(MissingRequiredField)
    case PatternDefault => Success(PDefault)
    case PatternVariant(con, variant, binder) =>
      var c :- ConvertQualifiedId(con, pkg);
      var v :- ResolveString(variant, pkg);
      var b :- ResolveString(binder, pkg);
      Success(PVariant(c, v, b))
    case PatternNil => Success(PNil)
    case PatternCons(head, tail) =>
      var h :- ResolveString(head, pkg);
      var t :- ResolveString(tail, pkg);
      Success(PCons(h, t))
    case PatternEnum(con, constructor_) =>
      var c :- ConvertQualifiedId(con, pkg);
      var k :- ResolveString(constructor_, pkg);
      Success(PEnum(c, k))
  }

  function ConvertExpr(e: Wire.Expr, pkg: Wire.Package): ConvertResult<DamlExpr>
    requires AcyclicAll(pkg)
    decreases Wire.ExprBound(e, Wire.ExprRank(pkg.exprs)), e
  {
    match e
    case ExprUnset => Failure(MissingRequiredField)
    case ExprVar(name) =>
      var n :- ResolveString(name, pkg);
      Success(EVar(n))
    case ExprVal(id) =>
      var n :- ConvertValueId(id, pkg);
      Success(EVal(n))
    case ExprNil(ty) =>
      var t :- ConvertType(ty, pkg);
      Success(ENil(t))
    case ExprRecCon(tycon, tyargs, fields) =>
      var c :- ConvertQualifiedId(tycon, pkg);
      var ts :- ConvertTypes(tyargs, pkg);
      var fs :- ConvertFieldExprs(fields, pkg);
      Success(ERecCon(c, ts, fs))
    case ExprApp(fun, args) =>
      var f :- ConvertExpr(fun, pkg);
      var xs :- ConvertExprs(args, pkg);
      Success(EApp(f, xs))
    case ExprTyApp(expr, types) =>
      var x :- ConvertExpr(expr, pkg);
      var ts :- ConvertTypes(types, pkg);
      Success(ETyApp(x, ts))
    case ExprAbs(params, body) =>
      var ps :- ConvertVarsWithType(params, pkg);
      var b :- ConvertExpr(body, pkg);
      Success(EAbs(ps, b))
    case ExprTyAbs(params, body) =>
      var ps :- ConvertTypeVars(params, pkg);
      var b :- ConvertExpr(body, pkg);
      Success(ETyAbs(ps, b))
    case ExprCase(scrut, alts) =>
      var s :- ConvertExpr(scrut, pkg);
      var xs :- ConvertAlts(alts, pkg);
      Success(ECase(s, xs))
    case ExprLet(bindings, body) =>
      var bs :- ConvertBindings(bindings, pkg);
      var b :- ConvertExpr(body, pkg);
      Success(ELet(bs, b))
    case ExprUpdate(update) =>
      var u :- ConvertUpdate(update, pkg);
      Success(EUpdate(u))
    case ExprInterned(idx) =>
      :- Need(0 <= idx, InternalError);
      :- Need(idx < |pkg.exprs|, InternalError);
      ConvertExpr(pkg.exprs[idx], pkg)
    case ExprExperimental => Failure(UnsupportedFeatureUsed)
  }

  function ConvertUpdate(u: Wire.Update, pkg: Wire.Package): ConvertResult<DamlUpdate>
    requires AcyclicAll(pkg)
    decreases Wire.UpdateBound(u, Wire.ExprRank(pkg.exprs)), u
  {
    match u
    case UpdateUnset => Failure(MissingRequiredField)
    case UpdatePure(ty, expr) =>
      var t :- ConvertType(ty, pkg);
      var x :- ConvertExpr(expr, pkg);
      Success(UPure(t, x))
    case UpdateBlock(bindings, body) =>
      var bs :- ConvertBindings(bindings, pkg);
      var b :- ConvertExpr(body, pkg);
      Success(UBlock(bs, b))
    case UpdateCreate(template, expr) =>
      var c :- ConvertQualifiedId(template, pkg);
      var x :- ConvertExpr(expr, pkg);
      Success(UCreate(c, x))
    case UpdateExercise(template, cid, arg, choice) =>
      var c :- ConvertQualifiedId(template, pkg);
      var x :- ConvertExpr(cid, pkg);
      var y :- ConvertExpr(arg, pkg);
      var n :- ResolveString(choice, pkg);
      Success(UExercise(c, x, y, n))
    case UpdateGetTime => Success(UGetTime)
  }

  function ConvertExprs(es: seq<Wire.Expr>, pkg: Wire.Package): ConvertResult<seq<DamlExpr>>
    requires AcyclicAll(pkg)
    decreases Wire.ExprsBound(es, Wire.ExprRank(pkg.exprs)), es
  {
    if es == [] then Success([]) else
      var head :- ConvertExpr(es[0], pkg);
      var tail :- ConvertExprs(es[1..], pkg);
      Success([head] + tail)
  }

  function ConvertFieldExprs(fs: seq<Wire.FieldWithExpr>, pkg: Wire.Package)
    : ConvertResult<seq<DamlFieldWithExpr>>
    requires AcyclicAll(pkg)
    decreases Wire.FieldExprsBound(fs, Wire.ExprRank(pkg.exprs)), fs
  {
    if fs == [] then Success([]) else
      assert fs[0].expr < fs[0];
      var name :- ResolveString(fs[0].name, pkg);
      var expr :- ConvertExpr(fs[0].expr, pkg);
      var tail :- ConvertFieldExprs(fs[1..], pkg);
      Success([DamlFieldWithExpr(name, expr)] + tail)
  }

  /** An alternative's body is converted before its pattern. */
  function ConvertAlts(alts: seq<Wire.CaseAlt>, pkg: Wire.Package): ConvertResult<seq<DamlCaseAlt>>
    requires AcyclicAll(pkg)
    decreases Wire.AltsBound(alts, Wire.ExprRank(pkg.exprs)), alts
  {
    if alts == [] then Success([]) else
      assert alts[0].body < alts[0];
      var body :- ConvertExpr(alts[0].body, pkg);
      var pattern :- ConvertPattern(alts[0].pattern, pkg);
      var tail :- ConvertAlts(alts[1..], pkg);
      Success([DamlCaseAlt(body, pattern)] + tail)
  }

  function ConvertBindings(bs: seq<Wire.Binding>, pkg: Wire.Package): ConvertResult<seq<DamlBinding>>
    requires AcyclicAll(pkg)
    decreases Wire.BindingsBound(bs, Wire.ExprRank(pkg.exprs)), bs
  {
    if bs == [] then Success([]) else
      assert bs[0].bound < bs[0];
      var binder :- ConvertVarWithType(bs[0].binder, pkg);
      var bound :- ConvertExpr(bs[0].bound, pkg);
      var tail :- ConvertBindings(bs[1..], pkg);
      Success([DamlBinding(binder, bound)] + tail)
  }
}
