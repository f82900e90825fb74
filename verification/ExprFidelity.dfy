/** What a wire expression means, said as a relation: every child, binder, string, type and reference in its own
    role and order, with interned nodes followed. Conversion succeeds exactly on the expressions that mean
    something, with what they mean. */
module ExprFidelity {
  import opened Wrappers
  import opened Element
  import opened Interned
  import opened TypeConversion
  import opened ExprConversion
  import opened TypeFidelity
  import opened Occurrences
  import Wire

  // ---------- Leaves ----------

  /** A reference to a value is a local name, wherever it points. */
  predicate SameValueName(id: Wire.QualifiedId, n: DamlTyConName, pkg: Wire.Package) {
    n.Local? && SameName(id, Absolute(n.dataName, n.packageId, n.packageName, n.modulePath), pkg)
  }

  ghost predicate SameVar(v: Wire.VarWithType, w: DamlVarWithType, pkg: Wire.Package)
    requires Wire.Acyclic(pkg)
  {
    v.VarWithType? && Spells(v.name, w.name, pkg) && SameType(v.ty, w.ty, pkg)
  }

  ghost predicate SameVars(vs: seq<Wire.VarWithType>, ws: seq<DamlVarWithType>, pkg: Wire.Package)
    requires Wire.Acyclic(pkg)
  {
    |vs| == |ws| && forall i :: 0 <= i < |vs| ==> SameVar(vs[i], ws[i], pkg)
  }

  predicate SamePattern(p: Wire.Pattern, q: DamlPattern, pkg: Wire.Package) {
    match p
    case PatternUnset => false
    case PatternDefault => q.PDefault?
    case PatternVariant(con, variant, binder) =>
      q.PVariant? && SameName(con, q.con, pkg) && Spells(variant, q.variant, pkg) && Spells(binder, q.binder, pkg)
    case PatternNil => q.PNil?
    case PatternCons(head, tail) => q.PCons? && Spells(head, q.head, pkg) && Spells(tail, q.tail, pkg)
    case PatternEnum(con, constructor_) =>
      q.PEnum? && SameName(con, q.con, pkg) && Spells(constructor_, q.constructor_, pkg)
  }

  // ---------- Expressions ----------

  /** `g` is what `e` means. */
  ghost predicate SameExpr(e: Wire.Expr, g: DamlExpr, pkg: Wire.Package)
    requires AcyclicAll(pkg)
    decreases Wire.ExprBound(e, Wire.ExprRank(pkg.exprs)), e
  {
    match e
    case ExprUnset => false
    case ExprVar(name) => g.EVar? && Spells(name, g.name, pkg)
    case ExprVal(id) => g.EVal? && SameValueName(id, g.id, pkg)
    case ExprNil(ty) => g.ENil? && SameType(ty, g.ty, pkg)
    case ExprRecCon(tycon, tyargs, fields) =>
      && g.ERecCon? && SameName(tycon, g.tycon, pkg) && SameTypes(tyargs, g.tyargs, pkg)
      && SameFieldExprs(fields, g.fields, pkg)
    case ExprApp(fun, args) => g.EApp? && SameExpr(fun, g.fun, pkg) && SameExprs(args, g.args, pkg)
    case ExprTyApp(expr, types) => g.ETyApp? && SameExpr(expr, g.expr, pkg) && SameTypes(types, g.types, pkg)
    case ExprAbs(params, body) => g.EAbs? && SameVars(params, g.params, pkg) && SameExpr(body, g.body, pkg)
    case ExprTyAbs(params, body) =>
      g.ETyAbs? && SameTypeVars(params, g.tyParams, pkg) && SameExpr(body, g.body, pkg)
    case ExprCase(scrut, alts) => g.ECase? && SameExpr(scrut, g.scrut, pkg) && SameAlts(alts, g.alts, pkg)
    case ExprLet(bindings, body) =>
      g.ELet? && SameBindings(bindings, g.bindings, pkg) && SameExpr(body, g.body, pkg)
    case ExprUpdate(update) => g.EUpdate? && SameUpdate(update, g.update, pkg)
    case ExprInterned(idx) => 0 <= idx < |pkg.exprs| && SameExpr(pkg.exprs[idx], g, pkg)
    case ExprExperimental => false
  }

  ghost predicate SameUpdate(u: Wire.Update, g: DamlUpdate, pkg: Wire.Package)
    requires AcyclicAll(pkg)
    decreases Wire.UpdateBound(u, Wire.ExprRank(pkg.exprs)), u
  {
    match u
    case UpdateUnset => false
    case UpdatePure(ty, expr) => g.UPure? && SameType(ty, g.ty, pkg) && SameExpr(expr, g.expr, pkg)
    case UpdateBlock(bindings, body) =>
      g.UBlock? && SameBindings(bindings, g.bindings, pkg) && SameExpr(body, g.body, pkg)
    case UpdateCreate(template, expr) =>
      g.UCreate? && SameName(template, g.template, pkg) && SameExpr(expr, g.expr, pkg)
    case UpdateExercise(template, cid, arg, choice) =>
      && g.UExercise? && SameName(template, g.template, pkg) && Spells(choice, g.choice, pkg)
      && SameExpr(cid, g.cid, pkg) && SameExpr(arg, g.arg, pkg)
    case UpdateGetTime => g.UGetTime?
  }

  ghost predicate SameExprs(es: seq<Wire.Expr>, gs: seq<DamlExpr>, pkg: Wire.Package)
    requires AcyclicAll(pkg)
    decreases Wire.ExprsBound(es, Wire.ExprRank(pkg.exprs)), es
  {
    if es == [] then gs == []
    else gs != [] && SameExpr(es[0], gs[0], pkg) && SameExprs(es[1..], gs[1..], pkg)
  }

  ghost predicate SameFieldExprs(fs: seq<Wire.FieldWithExpr>, gs: seq<DamlFieldWithExpr>, pkg: Wire.Package)
    requires AcyclicAll(pkg)
    decreases Wire.FieldExprsBound(fs, Wire.ExprRank(pkg.exprs)), fs
  {
    if fs == [] then gs == []
    else
      assert fs[0].expr < fs[0];
      && gs != [] && Spells(fs[0].name, gs[0].name, pkg) && SameExpr(fs[0].expr, gs[0].expr, pkg)
      && SameFieldExprs(fs[1..], gs[1..], pkg)
  }

  ghost predicate SameAlts(alts: seq<Wire.CaseAlt>, gs: seq<DamlCaseAlt>, pkg: Wire.Package)
    requires AcyclicAll(pkg)
    decreases Wire.AltsBound(alts, Wire.ExprRank(pkg.exprs)), alts
  {
    if alts == [] then gs == []
    else
      assert alts[0].body < alts[0];
      && gs != [] && SamePattern(alts[0].pattern, gs[0].pattern, pkg) && SameExpr(alts[0].body, gs[0].body, pkg)
      && SameAlts(alts[1..], gs[1..], pkg)
  }

  ghost predicate SameBindings(bs: seq<Wire.Binding>, gs: seq<DamlBinding>, pkg: Wire.Package)
    requires AcyclicAll(pkg)
    decreases Wire.BindingsBound(bs, Wire.ExprRank(pkg.exprs)), bs
  {
    if bs == [] then gs == []
    else
      assert bs[0].bound < bs[0];
      && gs != [] && SameVar(bs[0].binder, gs[0].binder, pkg) && SameExpr(bs[0].bound, gs[0].bound, pkg)
      && SameBindings(bs[1..], gs[1..], pkg)
  }

  // ---------- Conversion of leaves ----------

  lemma ValueNameMeans(id: Wire.QualifiedId, n: DamlTyConName, pkg: Wire.Package)
    ensures ConvertValueId(id, pkg) == Success(n) <==> SameValueName(id, n, pkg)
  {
    hide ConvertQualifiedId, SameName;
    if n.Local? {
      NameMeans(id, Absolute(n.dataName, n.packageId, n.packageName, n.modulePath), pkg);
    }
    if ConvertQualifiedId(id, pkg).Success? {
      var m := ConvertQualifiedId(id, pkg).value;
      NameMeans(id, m, pkg);
      IsAbsolute(id, m, pkg);
    }
  }

  lemma IsAbsolute(id: Wire.QualifiedId, n: DamlTyConName, pkg: Wire.Package)
    requires SameName(id, n, pkg)
    ensures n.Absolute?
  {
  }

  lemma VarMeans(v: Wire.VarWithType, w: DamlVarWithType, pkg: Wire.Package)
    requires Wire.Acyclic(pkg)
    ensures ConvertVarWithType(v, pkg) == Success(w) <==> SameVar(v, w, pkg)
  {
    hide ConvertType, SameType, ResolveString, Spells;
    if v.VarWithType? {
      StringMeans(v.name, w.name, pkg);
      TypeMeans(v.ty, w.ty, pkg);
    }
  }

  lemma {:induction false} VarsMean(vs: seq<Wire.VarWithType>, ws: seq<DamlVarWithType>, pkg: Wire.Package)
    requires Wire.Acyclic(pkg)
    ensures ConvertVarsWithType(vs, pkg) == Success(ws) <==> SameVars(vs, ws, pkg)
  {
    hide ConvertVarWithType, SameVar;
    if vs != [] && ws != [] {
      VarMeans(vs[0], ws[0], pkg);
      VarsMean(vs[1..], ws[1..], pkg);
      assert ws == [ws[0]] + ws[1..];
      assert forall i :: 0 < i < |vs| ==> vs[i] == vs[1..][i - 1];
      assert forall i :: 0 < i < |ws| ==> ws[i] == ws[1..][i - 1];
    }
  }

  lemma PatternMeans(p: Wire.Pattern, q: DamlPattern, pkg: Wire.Package)
    ensures ConvertPattern(p, pkg) == Success(q) <==> SamePattern(p, q, pkg)
  {
    hide ConvertQualifiedId, SameName, ResolveString, Spells;
    match p
    case PatternVariant(con, variant, binder) =>
      if q.PVariant? {
        NameMeans(con, q.con, pkg);
        StringMeans(variant, q.variant, pkg);
        StringMeans(binder, q.binder, pkg);
      }
    case PatternCons(head, tail) =>
      if q.PCons? {
        StringMeans(head, q.head, pkg);
        StringMeans(tail, q.tail, pkg);
      }
    case PatternEnum(con, constructor_) =>
      if q.PEnum? {
        NameMeans(con, q.con, pkg);
        StringMeans(constructor_, q.constructor_, pkg);
      }
    case _ =>
  }

  // ---------- Conversion of expressions ----------

  /** Conversion of an expression succeeds exactly when it means something, and gives what it means. */
  lemma {:induction false} ExprMeans(e: Wire.Expr, g: DamlExpr, pkg: Wire.Package)
    requires AcyclicAll(pkg)
    ensures ConvertExpr(e, pkg) == Success(g) <==> SameExpr(e, g, pkg)
    decreases Wire.ExprBound(e, Wire.ExprRank(pkg.exprs)), e, 1
  {
    hide ResolveString, Spells, ConvertQualifiedId, SameName, ConvertValueId, SameValueName, ConvertType, SameType,
      ConvertTypes, SameTypes, ConvertTypeVars, SameTypeVars, ConvertVarsWithType, SameVars, ConvertFieldExprs,
      SameFieldExprs, ConvertExprs, SameExprs, ConvertAlts, SameAlts, ConvertBindings, SameBindings, ConvertUpdate,
      SameUpdate, Wire.Acyclic;
    match e
    case ExprVar(name) => if g.EVar? { StringMeans(name, g.name, pkg); }
    case ExprVal(id) => if g.EVal? { ValueNameMeans(id, g.id, pkg); }
    case ExprNil(ty) => if g.ENil? { TypeMeans(ty, g.ty, pkg); }
    case ExprRecCon(tycon, tyargs, fields) =>
      if g.ERecCon? {
        NameMeans(tycon, g.tycon, pkg);
        TypesMean(tyargs, g.tyargs, pkg);
        FieldExprsMean(fields, g.fields, pkg);
      }
    case ExprApp(fun, args) =>
      if g.EApp? {
        ExprMeans(fun, g.fun, pkg);
        ExprsMean(args, g.args, pkg);
      }
    case ExprTyApp(expr, types) =>
      if g.ETyApp? {
        ExprMeans(expr, g.expr, pkg);
        TypesMean(types, g.types, pkg);
      }
    case ExprAbs(_, _) => BinderMeans(e, g, pkg);
    case ExprTyAbs(_, _) => BinderMeans(e, g, pkg);
    case ExprCase(_, _) => BinderMeans(e, g, pkg);
    case ExprLet(_, _) => BinderMeans(e, g, pkg);
    case ExprUpdate(update) => if g.EUpdate? { UpdateMeans(update, g.update, pkg); }
    case ExprInterned(idx) => if 0 <= idx < |pkg.exprs| { ExprMeans(pkg.exprs[idx], g, pkg); }
    case _ =>
  }

  lemma {:induction false} BinderMeans(e: Wire.Expr, g: DamlExpr, pkg: Wire.Package)
    requires AcyclicAll(pkg) && (e.ExprAbs? || e.ExprTyAbs? || e.ExprCase? || e.ExprLet?)
    ensures ConvertExpr(e, pkg) == Success(g) <==> SameExpr(e, g, pkg)
    decreases Wire.ExprBound(e, Wire.ExprRank(pkg.exprs)), e, 0
  {
    hide ConvertTypeVars, SameTypeVars, ConvertVarsWithType, SameVars, ConvertAlts, SameAlts, ConvertBindings,
      SameBindings;
    match e
    case ExprAbs(params, body) =>
      if g.EAbs? {
        VarsMean(params, g.params, pkg);
        ExprMeans(body, g.body, pkg);
      }
    case ExprTyAbs(params, body) =>
      if g.ETyAbs? {
        TypeVarsMean(params, g.tyParams, pkg);
        ExprMeans(body, g.body, pkg);
      }
    case ExprCase(scrut, alts) =>
      if g.ECase? {
        ExprMeans(scrut, g.scrut, pkg);
        AltsMean(alts, g.alts, pkg);
      }
    case ExprLet(bindings, body) =>
      if g.ELet? {
        BindingsMean(bindings, g.bindings, pkg);
        ExprMeans(body, g.body, pkg);
      }
  }

  lemma {:induction false} UpdateMeans(u: Wire.Update, g: DamlUpdate, pkg: Wire.Package)
    requires AcyclicAll(pkg)
    ensures ConvertUpdate(u, pkg) == Success(g) <==> SameUpdate(u, g, pkg)
    decreases Wire.UpdateBound(u, Wire.ExprRank(pkg.exprs)), u
  {
    hide ResolveString, Spells, ConvertQualifiedId, SameName, ConvertType, SameType, ConvertExpr, SameExpr,
      ConvertBindings, SameBindings, Wire.Acyclic;
    match u
    case UpdatePure(ty, expr) =>
      if g.UPure? {
        TypeMeans(ty, g.ty, pkg);
        ExprMeans(expr, g.expr, pkg);
      }
    case UpdateBlock(bindings, body) =>
      if g.UBlock? {
        BindingsMean(bindings, g.bindings, pkg);
        ExprMeans(body, g.body, pkg);
      }
    case UpdateCreate(template, expr) =>
      if g.UCreate? {
        NameMeans(template, g.template, pkg);
        ExprMeans(expr, g.expr, pkg);
      }
    case UpdateExercise(template, cid, arg, choice) =>
      if g.UExercise? {
        NameMeans(template, g.template, pkg);
        ExprMeans(cid, g.cid, pkg);
        ExprMeans(arg, g.arg, pkg);
        StringMeans(choice, g.choice, pkg);
      }
    case _ =>
  }

  lemma {:induction false} ExprsMean(es: seq<Wire.Expr>, gs: seq<DamlExpr>, pkg: Wire.Package)
    requires AcyclicAll(pkg)
    ensures ConvertExprs(es, pkg) == Success(gs) <==> SameExprs(es, gs, pkg)
    decreases Wire.ExprsBound(es, Wire.ExprRank(pkg.exprs)), es
  {
    hide ConvertExpr, SameExpr, AcyclicAll;
    if es != [] && gs != [] {
      ExprMeans(es[0], gs[0], pkg);
      ExprsMean(es[1..], gs[1..], pkg);
      assert gs == [gs[0]] + gs[1..];
    }
  }

  lemma {:induction false} FieldExprsMean(
    fs: seq<Wire.FieldWithExpr>, gs: seq<DamlFieldWithExpr>, pkg: Wire.Package)
    requires AcyclicAll(pkg)
    ensures ConvertFieldExprs(fs, pkg) == Success(gs) <==> SameFieldExprs(fs, gs, pkg)
    decreases Wire.FieldExprsBound(fs, Wire.ExprRank(pkg.exprs)), fs
  {
    hide ConvertExpr, SameExpr, ResolveString, Spells, AcyclicAll;
    if fs != [] && gs != [] {
      assert fs[0].expr < fs[0];
      StringMeans(fs[0].name, gs[0].name, pkg);
      ExprMeans(fs[0].expr, gs[0].expr, pkg);
      FieldExprsMean(fs[1..], gs[1..], pkg);
      assert gs == [gs[0]] + gs[1..];
    }
  }

  lemma {:induction false} AltsMean(alts: seq<Wire.CaseAlt>, gs: seq<DamlCaseAlt>, pkg: Wire.Package)
    requires AcyclicAll(pkg)
    ensures ConvertAlts(alts, pkg) == Success(gs) <==> SameAlts(alts, gs, pkg)
    decreases Wire.AltsBound(alts, Wire.ExprRank(pkg.exprs)), alts
  {
    hide ConvertExpr, SameExpr, ConvertPattern, SamePattern, AcyclicAll;
    if alts != [] && gs != [] {
      assert alts[0].body < alts[0];
      ExprMeans(alts[0].body, gs[0].body, pkg);
      PatternMeans(alts[0].pattern, gs[0].pattern, pkg);
      AltsMean(alts[1..], gs[1..], pkg);
      assert gs == [gs[0]] + gs[1..];
    }
  }

  lemma {:induction false} BindingsMean(bs: seq<Wire.Binding>, gs: seq<DamlBinding>, pkg: Wire.Package)
    requires AcyclicAll(pkg)
    ensures ConvertBindings(bs, pkg) == Success(gs) <==> SameBindings(bs, gs, pkg)
    decreases Wire.BindingsBound(bs, Wire.ExprRank(pkg.exprs)), bs
  {
    hide ConvertExpr, SameExpr, ConvertVarWithType, SameVar;
    if bs != [] && gs != [] {
      assert bs[0].bound < bs[0];
      VarMeans(bs[0].binder, gs[0].binder, pkg);
      ExprMeans(bs[0].bound, gs[0].bound, pkg);
      BindingsMean(bs[1..], gs[1..], pkg);
      assert gs == [gs[0]] + gs[1..];
    }
  }

  // ---------- References to values ----------

  /** A reference to a value of another package becomes a local name, which points into no package: what visits
      the expression does not see the package, as it would if the same reference were to a type. */
  lemma ForeignValueForgotten(id: Wire.QualifiedId, n: DamlTyConName, pkg: Wire.Package)
    requires AcyclicAll(pkg) && SameName(id, n, pkg)
    ensures var v := Local(n.dataName, n.packageId, n.packageName, n.modulePath);
      && ConvertExpr(Wire.ExprVal(id), pkg) == Success(EVal(v))
      && PointsTo(n, n.packageId) && forall package :: !PointsTo(v, package)
  {
    hide SameName, ConvertValueId, AcyclicAll;
    IsAbsolute(id, n, pkg);
    var v := Local(n.dataName, n.packageId, n.packageName, n.modulePath);
    ValueNameMeans(id, v, pkg);
  }
}
