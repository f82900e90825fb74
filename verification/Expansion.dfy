/** Conversion equals expansion: converting a term through the interning tables gives the result, or
    the error, of converting the term in which every interned node is replaced by its definition, with
    no tables at all. */
module Expansion {
  import opened Wrappers
  import opened Element
  import opened Interned
  import opened TypeConversion
  import opened ExprConversion
  import Wire

  // ---------- Expansion ----------
  //
  // An index that names no entry has no definition; it is left in place.

  ghost function ExpandKind(k: Wire.Kind, kinds: seq<Wire.Kind>): Wire.Kind
    requires Wire.AcyclicKinds(kinds)
    decreases Wire.KindBound(k, Wire.KindRank(kinds)), k
  {
    match k
    case KindArrow(params, result) => Wire.KindArrow(ExpandKinds(params, kinds), ExpandKind(result, kinds))
    case KindInterned(idx) => if 0 <= idx < |kinds| then ExpandKind(kinds[idx], kinds) else k
    case _ => k
  }

  ghost function ExpandKinds(ks: seq<Wire.Kind>, kinds: seq<Wire.Kind>): (r: seq<Wire.Kind>)
    requires Wire.AcyclicKinds(kinds)
    ensures |r| == |ks|
    decreases Wire.KindsBound(ks, Wire.KindRank(kinds)), ks
  {
    if ks == [] then [] else [ExpandKind(ks[0], kinds)] + ExpandKinds(ks[1..], kinds)
  }

  ghost function ExpandTypeVars(vs: seq<Wire.TypeVarWithKind>, kinds: seq<Wire.Kind>): seq<Wire.TypeVarWithKind>
    requires Wire.AcyclicKinds(kinds)
  {
    if vs == [] then [] else
      [Wire.TypeVarWithKind(vs[0].name, ExpandKind(vs[0].kind, kinds))] + ExpandTypeVars(vs[1..], kinds)
  }

  ghost function ExpandType(t: Wire.Type, pkg: Wire.Package): Wire.Type
    requires Wire.Acyclic(pkg)
    decreases Wire.TypeBound(t, Wire.TypeRank(pkg.types)), t
  {
    match t
    case TypeVar(name, args) => Wire.TypeVar(name, ExpandTypes(args, pkg))
    case TypeCon(id, args) => Wire.TypeCon(id, ExpandTypes(args, pkg))
    case TypeSyn(id, args) => Wire.TypeSyn(id, ExpandTypes(args, pkg))
    case TypeBuiltin(b, args) => Wire.TypeBuiltin(b, ExpandTypes(args, pkg))
    case TypeForall(vars, body) => Wire.TypeForall(ExpandTypeVars(vars, pkg.kinds), ExpandType(body, pkg))
    case TypeStruct(fields) => Wire.TypeStruct(ExpandFields(fields, pkg))
    case TypeInterned(idx) => if 0 <= idx < |pkg.types| then ExpandType(pkg.types[idx], pkg) else t
    case _ => t
  }

  ghost function ExpandTypes(ts: seq<Wire.Type>, pkg: Wire.Package): (r: seq<Wire.Type>)
    requires Wire.Acyclic(pkg)
    ensures |r| == |ts|
    decreases Wire.TypesBound(ts, Wire.TypeRank(pkg.types)), ts
  {
    if ts == [] then [] else [ExpandType(ts[0], pkg)] + ExpandTypes(ts[1..], pkg)
  }

  ghost function ExpandFields(fs: seq<Wire.FieldWithType>, pkg: Wire.Package): (r: seq<Wire.FieldWithType>)
    requires Wire.Acyclic(pkg)
    ensures |r| == |fs|
    decreases Wire.FieldsBound(fs, Wire.TypeRank(pkg.types)), fs
  {
    if fs == [] then [] else
      assert fs[0].ty < fs[0];
      [Wire.FieldWithType(fs[0].name, ExpandType(fs[0].ty, pkg))] + ExpandFields(fs[1..], pkg)
  }

  ghost function ExpandVarWithType(v: Wire.VarWithType, pkg: Wire.Package): Wire.VarWithType
    requires Wire.Acyclic(pkg)
  {
    if v.VarWithTypeUnset? then v else Wire.VarWithType(v.name, ExpandType(v.ty, pkg))
  }

  ghost function ExpandVarsWithType(vs: seq<Wire.VarWithType>, pkg: Wire.Package): seq<Wire.VarWithType>
    requires Wire.Acyclic(pkg)
  {
    if vs == [] then [] else [ExpandVarWithType(vs[0], pkg)] + ExpandVarsWithType(vs[1..], pkg)
  }

  ghost function ExpandExpr(e: Wire.Expr, pkg: Wire.Package): Wire.Expr
    requires AcyclicAll(pkg)
    decreases Wire.ExprBound(e, Wire.ExprRank(pkg.exprs)), e
  {
    match e
    case ExprNil(ty) => Wire.ExprNil(ExpandType(ty, pkg))
    case ExprRecCon(tycon, tyargs, fields) =>
      Wire.ExprRecCon(tycon, ExpandTypes(tyargs, pkg), ExpandFieldExprs(fields, pkg))
    case ExprApp(fun, args) => Wire.ExprApp(ExpandExpr(fun, pkg), ExpandExprs(args, pkg))
    case ExprTyApp(expr, types) => Wire.ExprTyApp(ExpandExpr(expr, pkg), ExpandTypes(types, pkg))
    case ExprAbs(params, body) => Wire.ExprAbs(ExpandVarsWithType(params, pkg), ExpandExpr(body, pkg))
    case ExprTyAbs(params, body) => Wire.ExprTyAbs(ExpandTypeVars(params, pkg.kinds), ExpandExpr(body, pkg))
    case ExprCase(scrut, alts) => Wire.ExprCase(ExpandExpr(scrut, pkg), ExpandAlts(alts, pkg))
    case ExprLet(bindings, body) => Wire.ExprLet(ExpandBindings(bindings, pkg), ExpandExpr(body, pkg))
    case ExprUpdate(update) => Wire.ExprUpdate(ExpandUpdate(update, pkg))
    case ExprInterned(idx) => if 0 <= idx < |pkg.exprs| then ExpandExpr(pkg.exprs[idx], pkg) else e
    case _ => e
  }

  ghost function ExpandUpdate(u: Wire.Update, pkg: Wire.Package): Wire.Update
    requires AcyclicAll(pkg)
    decreases Wire.UpdateBound(u, Wire.ExprRank(pkg.exprs)), u
  {
    match u
    case UpdatePure(ty, expr) => Wire.UpdatePure(ExpandType(ty, pkg), ExpandExpr(expr, pkg))
    case UpdateBlock(bindings, body) => Wire.UpdateBlock(ExpandBindings(bindings, pkg), ExpandExpr(body, pkg))
    case UpdateCreate(template, expr) => Wire.UpdateCreate(template, ExpandExpr(expr, pkg))
    case UpdateExercise(template, cid, arg, choice) =>
      Wire.UpdateExercise(template, ExpandExpr(cid, pkg), ExpandExpr(arg, pkg), choice)
    case _ => u
  }

  ghost function ExpandExprs(es: seq<Wire.Expr>, pkg: Wire.Package): (r: seq<Wire.Expr>)
    requires AcyclicAll(pkg)
    ensures |r| == |es|
    decreases Wire.ExprsBound(es, Wire.ExprRank(pkg.exprs)), es
  {
    if es == [] then [] else [ExpandExpr(es[0], pkg)] + ExpandExprs(es[1..], pkg)
  }

  ghost function ExpandFieldExprs(fs: seq<Wire.FieldWithExpr>, pkg: Wire.Package): (r: seq<Wire.FieldWithExpr>)
    requires AcyclicAll(pkg)
    ensures |r| == |fs|
    decreases Wire.FieldExprsBound(fs, Wire.ExprRank(pkg.exprs)), fs
  {
    if fs == [] then [] else
      assert fs[0].expr < fs[0];
      [Wire.FieldWithExpr(fs[0].name, ExpandExpr(fs[0].expr, pkg))] + ExpandFieldExprs(fs[1..], pkg)
  }

  ghost function ExpandAlts(alts: seq<Wire.CaseAlt>, pkg: Wire.Package): (r: seq<Wire.CaseAlt>)
    requires AcyclicAll(pkg)
    ensures |r| == |alts|
    decreases Wire.AltsBound(alts, Wire.ExprRank(pkg.exprs)), alts
  {
    if alts == [] then [] else
      assert alts[0].body < alts[0];
      [Wire.CaseAlt(ExpandExpr(alts[0].body, pkg), alts[0].pattern)] + ExpandAlts(alts[1..], pkg)
  }

  ghost function ExpandBindings(bs: seq<Wire.Binding>, pkg: Wire.Package): (r: seq<Wire.Binding>)
    requires AcyclicAll(pkg)
    ensures |r| == |bs|
    decreases Wire.BindingsBound(bs, Wire.ExprRank(pkg.exprs)), bs
  {
    if bs == [] then [] else
      assert bs[0].bound < bs[0];
      [Wire.Binding(ExpandVarWithType(bs[0].binder, pkg), ExpandExpr(bs[0].bound, pkg))]
      + ExpandBindings(bs[1..], pkg)
  }

  // ---------- The package without term tables ----------

  ghost function NoKinds(): (r: seq<Wire.Kind>)
    ensures r == [] && Wire.AcyclicKinds(r)
  {
    assert Wire.KindsRanked([], []);
    []
  }

  ghost function Bare(pkg: Wire.Package): (r: Wire.Package)
    ensures AcyclicAll(r)
  {
    var r := pkg.(types := [], kinds := [], exprs := []);
    assert Wire.TypesRanked(r.types, []) && Wire.KindsRanked(r.kinds, []) && Wire.ExprsRanked(r.exprs, []);
    r
  }

  lemma BareResolves(pkg: Wire.Package)
    ensures forall i :: ResolveString(i, Bare(pkg)) == ResolveString(i, pkg)
    ensures forall i :: ResolveDotted(i, Bare(pkg)) == ResolveDotted(i, pkg)
    ensures forall id :: ConvertQualifiedId(id, Bare(pkg)) == ConvertQualifiedId(id, pkg)
  {
    forall i
      ensures ResolveDotted(i, Bare(pkg)) == ResolveDotted(i, pkg)
    {
      if 0 <= i < |pkg.dottedNames| {
        BareResolvesStrings(pkg.dottedNames[i], pkg);
      }
    }
  }

  lemma {:induction false} BareResolvesStrings(indices: seq<int>, pkg: Wire.Package)
    ensures ResolveStrings(indices, Bare(pkg)) == ResolveStrings(indices, pkg)
  {
    if indices != [] {
      BareResolvesStrings(indices[1..], pkg);
    }
  }

  // ---------- Kinds ----------

  lemma {:induction false} KindConversionIsExpansion(k: Wire.Kind, kinds: seq<Wire.Kind>)
    requires Wire.AcyclicKinds(kinds)
    ensures ConvertKind(k, kinds) == ConvertKind(ExpandKind(k, kinds), NoKinds())
    decreases Wire.KindBound(k, Wire.KindRank(kinds)), k
  {
    match k
    case KindArrow(params, result) =>
      KindsConversionIsExpansion(params, kinds);
      KindConversionIsExpansion(result, kinds);
    case KindInterned(idx) =>
      if 0 <= idx < |kinds| {
        KindConversionIsExpansion(kinds[idx], kinds);
      }
    case _ =>
  }

  lemma {:induction false} KindsConversionIsExpansion(ks: seq<Wire.Kind>, kinds: seq<Wire.Kind>)
    requires Wire.AcyclicKinds(kinds)
    ensures ConvertKinds(ks, kinds) == ConvertKinds(ExpandKinds(ks, kinds), NoKinds())
    decreases Wire.KindsBound(ks, Wire.KindRank(kinds)), ks
  {
    if ks != [] {
      KindConversionIsExpansion(ks[0], kinds);
      KindsConversionIsExpansion(ks[1..], kinds);
    }
  }

  lemma {:induction false} TypeVarsConversionIsExpansion(vs: seq<Wire.TypeVarWithKind>, pkg: Wire.Package)
    requires Wire.AcyclicKinds(pkg.kinds)
    ensures ConvertTypeVars(vs, pkg) == ConvertTypeVars(ExpandTypeVars(vs, pkg.kinds), Bare(pkg))
  {
    if vs != [] {
      BareResolves(pkg);
      KindConversionIsExpansion(vs[0].kind, pkg.kinds);
      TypeVarsConversionIsExpansion(vs[1..], pkg);
    }
  }

  // ---------- Types ----------

  lemma {:induction false} TypeConversionIsExpansion(t: Wire.Type, pkg: Wire.Package)
    requires Wire.Acyclic(pkg)
    ensures ConvertType(t, pkg) == ConvertType(ExpandType(t, pkg), Bare(pkg))
    decreases Wire.TypeBound(t, Wire.TypeRank(pkg.types)), t
  {
    BareResolves(pkg);
    match t
    case TypeVar(_, args) => TypesConversionIsExpansion(args, pkg);
    case TypeCon(_, args) => TypesConversionIsExpansion(args, pkg);
    case TypeSyn(_, args) => TypesConversionIsExpansion(args, pkg);
    case TypeBuiltin(_, args) => TypesConversionIsExpansion(args, pkg);
    case TypeForall(vars, body) =>
      TypeVarsConversionIsExpansion(vars, pkg);
      TypeConversionIsExpansion(body, pkg);
    case TypeStruct(fields) => FieldsConversionIsExpansion(fields, pkg);
    case TypeInterned(idx) =>
      if 0 <= idx < |pkg.types| {
        TypeConversionIsExpansion(pkg.types[idx], pkg);
      }
    case _ =>
  }

  lemma {:induction false} TypesConversionIsExpansion(ts: seq<Wire.Type>, pkg: Wire.Package)
    requires Wire.Acyclic(pkg)
    ensures ConvertTypes(ts, pkg) == ConvertTypes(ExpandTypes(ts, pkg), Bare(pkg))
    decreases Wire.TypesBound(ts, Wire.TypeRank(pkg.types)), ts
  {
    if ts != [] {
      TypeConversionIsExpansion(ts[0], pkg);
      TypesConversionIsExpansion(ts[1..], pkg);
    }
  }

  lemma {:induction false} FieldsConversionIsExpansion(fs: seq<Wire.FieldWithType>, pkg: Wire.Package)
    requires Wire.Acyclic(pkg)
    ensures ConvertFields(fs, pkg) == ConvertFields(ExpandFields(fs, pkg), Bare(pkg))
    decreases Wire.FieldsBound(fs, Wire.TypeRank(pkg.types)), fs
  {
    if fs != [] {
      BareResolves(pkg);
      assert fs[0].ty < fs[0];
      TypeConversionIsExpansion(fs[0].ty, pkg);
      FieldsConversionIsExpansion(fs[1..], pkg);
    }
  }

  lemma {:induction false} VarsConversionIsExpansion(vs: seq<Wire.VarWithType>, pkg: Wire.Package)
    requires Wire.Acyclic(pkg)
    ensures ConvertVarsWithType(vs, pkg) == ConvertVarsWithType(ExpandVarsWithType(vs, pkg), Bare(pkg))
  {
    if vs != [] {
      VarConversionIsExpansion(vs[0], pkg);
      VarsConversionIsExpansion(vs[1..], pkg);
    }
  }

  lemma VarConversionIsExpansion(v: Wire.VarWithType, pkg: Wire.Package)
    requires Wire.Acyclic(pkg)
    ensures ConvertVarWithType(v, pkg) == ConvertVarWithType(ExpandVarWithType(v, pkg), Bare(pkg))
  {
    BareResolves(pkg);
    if v.VarWithType? {
      TypeConversionIsExpansion(v.ty, pkg);
    }
  }

  // ---------- Expressions ----------

  lemma PatternConversionIsBare(p: Wire.Pattern, pkg: Wire.Package)
    ensures ConvertPattern(p, pkg) == ConvertPattern(p, Bare(pkg))
  {
    BareResolves(pkg);
  }

  lemma {:induction false} ExprConversionIsExpansion(e: Wire.Expr, pkg: Wire.Package)
    requires AcyclicAll(pkg)
    ensures ConvertExpr(e, pkg) == ConvertExpr(ExpandExpr(e, pkg), Bare(pkg))
    decreases Wire.ExprBound(e, Wire.ExprRank(pkg.exprs)), e
  {
    hide ResolveString, ConvertQualifiedId;
    BareResolves(pkg);
    if e.ExprAbs? || e.ExprTyAbs? || e.ExprCase? || e.ExprLet? {
      BinderConversionIsExpansion(e, pkg);
      return;
    }
    match e
    case ExprNil(ty) => TypeConversionIsExpansion(ty, pkg);
    case ExprRecCon(_, tyargs, fields) =>
      TypesConversionIsExpansion(tyargs, pkg);
      FieldExprsConversionIsExpansion(fields, pkg);
    case ExprApp(fun, args) =>
      ExprConversionIsExpansion(fun, pkg);
      ExprsConversionIsExpansion(args, pkg);
    case ExprTyApp(expr, types) =>
      ExprConversionIsExpansion(expr, pkg);
      TypesConversionIsExpansion(types, pkg);
    case ExprUpdate(update) => UpdateConversionIsExpansion(update, pkg);
    case ExprInterned(idx) =>
      if 0 <= idx < |pkg.exprs| {
        ExprConversionIsExpansion(pkg.exprs[idx], pkg);
      }
    case _ =>
  }

  /** The expressions with binders or alternatives. */
  lemma {:induction false} BinderConversionIsExpansion(e: Wire.Expr, pkg: Wire.Package)
    requires AcyclicAll(pkg) && (e.ExprAbs? || e.ExprTyAbs? || e.ExprCase? || e.ExprLet?)
    ensures ConvertExpr(e, pkg) == ConvertExpr(ExpandExpr(e, pkg), Bare(pkg))
    decreases Wire.ExprBound(e, Wire.ExprRank(pkg.exprs)), e, 0
  {
    hide ResolveString, ConvertQualifiedId;
    match e
    case ExprAbs(params, body) =>
      VarsConversionIsExpansion(params, pkg);
      ExprConversionIsExpansion(body, pkg);
    case ExprTyAbs(params, body) =>
      TypeVarsConversionIsExpansion(params, pkg);
      ExprConversionIsExpansion(body, pkg);
    case ExprCase(scrut, alts) =>
      ExprConversionIsExpansion(scrut, pkg);
      AltsConversionIsExpansion(alts, pkg);
    case ExprLet(bindings, body) =>
      BindingsConversionIsExpansion(bindings, pkg);
      ExprConversionIsExpansion(body, pkg);
  }

  lemma {:induction false} UpdateConversionIsExpansion(u: Wire.Update, pkg: Wire.Package)
    requires AcyclicAll(pkg)
    ensures ConvertUpdate(u, pkg) == ConvertUpdate(ExpandUpdate(u, pkg), Bare(pkg))
    decreases Wire.UpdateBound(u, Wire.ExprRank(pkg.exprs)), u
  {
    BareResolves(pkg);
    match u
    case UpdatePure(ty, expr) =>
      TypeConversionIsExpansion(ty, pkg);
      ExprConversionIsExpansion(expr, pkg);
    case UpdateBlock(bindings, body) =>
      BindingsConversionIsExpansion(bindings, pkg);
      ExprConversionIsExpansion(body, pkg);
    case UpdateCreate(_, expr) => ExprConversionIsExpansion(expr, pkg);
    case UpdateExercise(_, cid, arg, _) =>
      ExprConversionIsExpansion(cid, pkg);
      ExprConversionIsExpansion(arg, pkg);
    case _ =>
  }

  lemma {:induction false} ExprsConversionIsExpansion(es: seq<Wire.Expr>, pkg: Wire.Package)
    requires AcyclicAll(pkg)
    ensures ConvertExprs(es, pkg) == ConvertExprs(ExpandExprs(es, pkg), Bare(pkg))
    decreases Wire.ExprsBound(es, Wire.ExprRank(pkg.exprs)), es
  {
    if es != [] {
      ExprConversionIsExpansion(es[0], pkg);
      ExprsConversionIsExpansion(es[1..], pkg);
    }
  }

  lemma {:induction false} FieldExprsConversionIsExpansion(fs: seq<Wire.FieldWithExpr>, pkg: Wire.Package)
    requires AcyclicAll(pkg)
    ensures ConvertFieldExprs(fs, pkg) == ConvertFieldExprs(ExpandFieldExprs(fs, pkg), Bare(pkg))
    decreases Wire.FieldExprsBound(fs, Wire.ExprRank(pkg.exprs)), fs
  {
    if fs != [] {
      BareResolves(pkg);
      assert fs[0].expr < fs[0];
      ExprConversionIsExpansion(fs[0].expr, pkg);
      FieldExprsConversionIsExpansion(fs[1..], pkg);
    }
  }

  lemma {:induction false} AltsConversionIsExpansion(alts: seq<Wire.CaseAlt>, pkg: Wire.Package)
    requires AcyclicAll(pkg)
    ensures ConvertAlts(alts, pkg) == ConvertAlts(ExpandAlts(alts, pkg), Bare(pkg))
    decreases Wire.AltsBound(alts, Wire.ExprRank(pkg.exprs)), alts
  {
    if alts != [] {
      PatternConversionIsBare(alts[0].pattern, pkg);
      assert alts[0].body < alts[0];
      ExprConversionIsExpansion(alts[0].body, pkg);
      AltsConversionIsExpansion(alts[1..], pkg);
    }
  }

  lemma {:induction false} BindingsConversionIsExpansion(bs: seq<Wire.Binding>, pkg: Wire.Package)
    requires AcyclicAll(pkg)
    ensures ConvertBindings(bs, pkg) == ConvertBindings(ExpandBindings(bs, pkg), Bare(pkg))
    decreases Wire.BindingsBound(bs, Wire.ExprRank(pkg.exprs)), bs
  {
    if bs != [] {
      VarConversionIsExpansion(bs[0].binder, pkg);
      assert bs[0].bound < bs[0];
      ExprConversionIsExpansion(bs[0].bound, pkg);
      BindingsConversionIsExpansion(bs[1..], pkg);
    }
  }
}
