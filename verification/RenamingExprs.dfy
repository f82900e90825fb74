/** Representation independence for expressions: as in `Renaming`, with the expression table laid out again
    too. */
module RenamingExprs {
  import opened Wrappers
  import opened Element
  import opened Interned
  import opened TypeConversion
  import opened ExprConversion
  import opened Renaming
  import Wire

  /** A renaming of all tables. */
  datatype FullRenaming = FullRenaming(tables: Renaming, expr: int -> int)

  // ---------- Rewriting indices ----------

  ghost function RenameVars(vs: seq<Wire.VarWithType>, r: Renaming): seq<Wire.VarWithType> {
    if vs == [] then [] else [RenameVar(vs[0], r)] + RenameVars(vs[1..], r)
  }

  ghost function RenamePattern(p: Wire.Pattern, r: Renaming): Wire.Pattern {
    match p
    case PatternVariant(con, variant, binder) =>
      Wire.PatternVariant(RenameId(con, r), r.str(variant), r.str(binder))
    case PatternCons(head, tail) => Wire.PatternCons(r.str(head), r.str(tail))
    case PatternEnum(con, constructor_) => Wire.PatternEnum(RenameId(con, r), r.str(constructor_))
    case _ => p
  }

  ghost function RenameExpr(e: Wire.Expr, r: FullRenaming): Wire.Expr
    decreases e
  {
    match e
    case ExprVar(name) => Wire.ExprVar(r.tables.str(name))
    case ExprVal(id) => Wire.ExprVal(RenameId(id, r.tables))
    case ExprNil(ty) => Wire.ExprNil(RenameType(ty, r.tables))
    case ExprRecCon(tycon, tyargs, fields) =>
      Wire.ExprRecCon(RenameId(tycon, r.tables), RenameTypes(tyargs, r.tables), RenameFieldExprs(fields, r))
    case ExprApp(fun, args) => Wire.ExprApp(RenameExpr(fun, r), RenameExprs(args, r))
    case ExprTyApp(expr, types) => Wire.ExprTyApp(RenameExpr(expr, r), RenameTypes(types, r.tables))
    case ExprAbs(params, body) => Wire.ExprAbs(RenameVars(params, r.tables), RenameExpr(body, r))
    case ExprTyAbs(params, body) => Wire.ExprTyAbs(RenameTypeVars(params, r.tables), RenameExpr(body, r))
    case ExprCase(scrut, alts) => Wire.ExprCase(RenameExpr(scrut, r), RenameAlts(alts, r))
    case ExprLet(bindings, body) => Wire.ExprLet(RenameBindings(bindings, r), RenameExpr(body, r))
    case ExprUpdate(update) => Wire.ExprUpdate(RenameUpdate(update, r))
    case ExprInterned(idx) => Wire.ExprInterned(r.expr(idx))
    case _ => e
  }

  ghost function RenameUpdate(u: Wire.Update, r: FullRenaming): Wire.Update
    decreases u
  {
    match u
    case UpdatePure(ty, expr) => Wire.UpdatePure(RenameType(ty, r.tables), RenameExpr(expr, r))
    case UpdateBlock(bindings, body) => Wire.UpdateBlock(RenameBindings(bindings, r), RenameExpr(body, r))
    case UpdateCreate(template, expr) => Wire.UpdateCreate(RenameId(template, r.tables), RenameExpr(expr, r))
    case UpdateExercise(template, cid, arg, choice) =>
      Wire.UpdateExercise(RenameId(template, r.tables), RenameExpr(cid, r), RenameExpr(arg, r), r.tables.str(choice))
    case _ => u
  }

  ghost function RenameExprs(es: seq<Wire.Expr>, r: FullRenaming): seq<Wire.Expr>
    decreases es
  {
    if es == [] then [] else [RenameExpr(es[0], r)] + RenameExprs(es[1..], r)
  }

  ghost function RenameFieldExprs(fs: seq<Wire.FieldWithExpr>, r: FullRenaming): seq<Wire.FieldWithExpr>
    decreases fs
  {
    if fs == [] then [] else
      assert fs[0].expr < fs[0];
      [Wire.FieldWithExpr(r.tables.str(fs[0].name), RenameExpr(fs[0].expr, r))] + RenameFieldExprs(fs[1..], r)
  }

  ghost function RenameAlts(alts: seq<Wire.CaseAlt>, r: FullRenaming): seq<Wire.CaseAlt>
    decreases alts
  {
    if alts == [] then [] else
      assert alts[0].body < alts[0];
      [Wire.CaseAlt(RenameExpr(alts[0].body, r), RenamePattern(alts[0].pattern, r.tables))] + RenameAlts(alts[1..], r)
  }

  ghost function RenameBindings(bs: seq<Wire.Binding>, r: FullRenaming): seq<Wire.Binding>
    decreases bs
  {
    if bs == [] then [] else
      assert bs[0].bound < bs[0];
      [Wire.Binding(RenameVar(bs[0].binder, r.tables), RenameExpr(bs[0].bound, r))] + RenameBindings(bs[1..], r)
  }

  /** `q` holds, at the renamed index, whatever `p` holds at an index of any table. */
  ghost predicate SameTables(p: Wire.Package, q: Wire.Package, r: FullRenaming) {
    && SamePackage(p, q, r.tables) && AcyclicAll(p) && AcyclicAll(q)
    && (forall i {:trigger r.expr(i)} :: 0 <= i < |p.exprs| ==>
          0 <= r.expr(i) < |q.exprs| && q.exprs[r.expr(i)] == RenameExpr(p.exprs[i], r))
  }

  // ---------- Conversion keeps its results ----------

  lemma NameIndependent(i: int, p: Wire.Package, q: Wire.Package, r: FullRenaming)
    requires SameTables(p, q, r) && ResolveString(i, p).Success?
    ensures ResolveString(r.tables.str(i), q) == ResolveString(i, p)
  {
  }

  lemma RefIndependent(id: Wire.QualifiedId, p: Wire.Package, q: Wire.Package, r: FullRenaming)
    requires SameTables(p, q, r) && ConvertQualifiedId(id, p).Success?
    ensures ConvertQualifiedId(RenameId(id, r.tables), q) == ConvertQualifiedId(id, p)
  {
    IdIndependent(id, p, q, r.tables);
  }

  lemma VarIndependent(v: Wire.VarWithType, p: Wire.Package, q: Wire.Package, r: FullRenaming)
    requires SameTables(p, q, r) && ConvertVarWithType(v, p).Success?
    ensures ConvertVarWithType(RenameVar(v, r.tables), q) == ConvertVarWithType(v, p)
  {
    hide ConvertType, RenameType;
    TypeIndependent(v.ty, p, q, r.tables);
  }

  lemma {:induction false} VarsIndependent(vs: seq<Wire.VarWithType>, p: Wire.Package, q: Wire.Package, r: FullRenaming)
    requires SameTables(p, q, r) && ConvertVarsWithType(vs, p).Success?
    ensures ConvertVarsWithType(RenameVars(vs, r.tables), q) == ConvertVarsWithType(vs, p)
  {
    hide SameTables, ConvertVarWithType, RenameVar;
    if vs != [] {
      assert Wire.Acyclic(p) && Wire.Acyclic(q) by { TablesAcyclic(p, q, r); }
      VarIndependent(vs[0], p, q, r);
      VarsIndependent(vs[1..], p, q, r);
    }
  }

  lemma TablesAcyclic(p: Wire.Package, q: Wire.Package, r: FullRenaming)
    requires SameTables(p, q, r)
    ensures Wire.Acyclic(p) && Wire.Acyclic(q) && AcyclicAll(p) && AcyclicAll(q) && SamePackage(p, q, r.tables)
  {
  }

  lemma PatternIndependent(x: Wire.Pattern, p: Wire.Package, q: Wire.Package, r: FullRenaming)
    requires SameTables(p, q, r) && ConvertPattern(x, p).Success?
    ensures ConvertPattern(RenamePattern(x, r.tables), q) == ConvertPattern(x, p)
  {
    hide SameTables, ConvertQualifiedId, RenameId, ResolveString;
    match x
    case PatternVariant(con, variant, binder) =>
      RefIndependent(con, p, q, r);
      NameIndependent(variant, p, q, r);
      NameIndependent(binder, p, q, r);
    case PatternCons(head, tail) =>
      NameIndependent(head, p, q, r);
      NameIndependent(tail, p, q, r);
    case PatternEnum(con, constructor_) =>
      RefIndependent(con, p, q, r);
      NameIndependent(constructor_, p, q, r);
    case _ =>
  }

  /** Rewriting the indices of an expression and of the tables it is read with keeps what it converts to. */
  lemma {:induction false} ExprIndependent(e: Wire.Expr, p: Wire.Package, q: Wire.Package, r: FullRenaming)
    requires SameTables(p, q, r) && ConvertExpr(e, p).Success?
    ensures AcyclicAll(q) && ConvertExpr(RenameExpr(e, r), q) == ConvertExpr(e, p)
    decreases Wire.ExprBound(e, Wire.ExprRank(p.exprs)), e
  {
    hide SameTables, ResolveString, ConvertQualifiedId, RenameId, AcyclicAll, Wire.Acyclic, SamePackage;
    TablesAcyclic(p, q, r);
    if e.ExprAbs? || e.ExprTyAbs? || e.ExprCase? || e.ExprLet? {
      BinderIndependent(e, p, q, r);
      return;
    }
    match e
    case ExprVar(name) => NameIndependent(name, p, q, r);
    case ExprVal(id) => RefIndependent(id, p, q, r);
    case ExprNil(ty) =>
      Layouts(p, q, r);
      TypeIndependent(ty, p, q, r.tables);
    case ExprRecCon(tycon, tyargs, fields) =>
      RefIndependent(tycon, p, q, r);
      Layouts(p, q, r);
      TypesIndependent(tyargs, p, q, r.tables);
      FieldExprsIndependent(fields, p, q, r);
    case ExprApp(fun, args) =>
      ExprIndependent(fun, p, q, r);
      ExprsIndependent(args, p, q, r);
    case ExprTyApp(expr, types) =>
      ExprIndependent(expr, p, q, r);
      Layouts(p, q, r);
      TypesIndependent(types, p, q, r.tables);
    case ExprUpdate(update) => UpdateIndependent(update, p, q, r);
    case ExprInterned(idx) =>
      InternedAt(idx, p, q, r);
      ExprIndependent(p.exprs[idx], p, q, r);
    case _ =>
  }

  lemma Layouts(p: Wire.Package, q: Wire.Package, r: FullRenaming)
    requires SameTables(p, q, r)
    ensures Represents(p, q, r.tables) && Wire.Acyclic(p) && Wire.Acyclic(q)
    ensures Wire.AcyclicKinds(p.kinds) && Wire.AcyclicKinds(q.kinds)
  {
    hide Represents;
  }

  lemma InternedAt(idx: int, p: Wire.Package, q: Wire.Package, r: FullRenaming)
    requires SameTables(p, q, r) && 0 <= idx < |p.exprs|
    ensures 0 <= r.expr(idx) < |q.exprs| && q.exprs[r.expr(idx)] == RenameExpr(p.exprs[idx], r)
  {
    hide SamePackage, AcyclicAll, RenameExpr;
  }

  lemma {:induction false} BinderIndependent(e: Wire.Expr, p: Wire.Package, q: Wire.Package, r: FullRenaming)
    requires SameTables(p, q, r) && ConvertExpr(e, p).Success?
    requires e.ExprAbs? || e.ExprTyAbs? || e.ExprCase? || e.ExprLet?
    ensures AcyclicAll(q) && ConvertExpr(RenameExpr(e, r), q) == ConvertExpr(e, p)
    decreases Wire.ExprBound(e, Wire.ExprRank(p.exprs)), e, 0
  {
    hide SameTables, ResolveString, ConvertQualifiedId, RenameId, AcyclicAll, Wire.Acyclic, SamePackage;
    TablesAcyclic(p, q, r);
    match e
    case ExprAbs(params, body) =>
      VarsIndependent(params, p, q, r);
      ExprIndependent(body, p, q, r);
    case ExprTyAbs(params, body) =>
      Layouts(p, q, r);
      TypeVarsIndependent(params, p, q, r.tables);
      ExprIndependent(body, p, q, r);
    case ExprCase(scrut, alts) =>
      ExprIndependent(scrut, p, q, r);
      AltsIndependent(alts, p, q, r);
    case ExprLet(bindings, body) =>
      BindingsIndependent(bindings, p, q, r);
      ExprIndependent(body, p, q, r);
  }

  lemma {:induction false} UpdateIndependent(u: Wire.Update, p: Wire.Package, q: Wire.Package, r: FullRenaming)
    requires SameTables(p, q, r) && ConvertUpdate(u, p).Success?
    ensures AcyclicAll(q) && ConvertUpdate(RenameUpdate(u, r), q) == ConvertUpdate(u, p)
    decreases Wire.UpdateBound(u, Wire.ExprRank(p.exprs)), u
  {
    hide SameTables, ResolveString, ConvertQualifiedId, RenameId, AcyclicAll, Wire.Acyclic, SamePackage;
    TablesAcyclic(p, q, r);
    match u
    case UpdatePure(ty, expr) =>
      Layouts(p, q, r);
      TypeIndependent(ty, p, q, r.tables);
      ExprIndependent(expr, p, q, r);
    case UpdateBlock(bindings, body) =>
      BindingsIndependent(bindings, p, q, r);
      ExprIndependent(body, p, q, r);
    case UpdateCreate(template, expr) =>
      RefIndependent(template, p, q, r);
      ExprIndependent(expr, p, q, r);
    case UpdateExercise(template, cid, arg, choice) =>
      RefIndependent(template, p, q, r);
      ExprIndependent(cid, p, q, r);
      ExprIndependent(arg, p, q, r);
      NameIndependent(choice, p, q, r);
    case _ =>
  }

  lemma {:induction false} ExprsIndependent(es: seq<Wire.Expr>, p: Wire.Package, q: Wire.Package, r: FullRenaming)
    requires SameTables(p, q, r) && ConvertExprs(es, p).Success?
    ensures AcyclicAll(q) && ConvertExprs(RenameExprs(es, r), q) == ConvertExprs(es, p)
    decreases Wire.ExprsBound(es, Wire.ExprRank(p.exprs)), es
  {
    hide SameTables, ConvertExpr, RenameExpr, AcyclicAll, Wire.Acyclic, SamePackage;
    TablesAcyclic(p, q, r);
    if es != [] {
      ExprIndependent(es[0], p, q, r);
      ExprsIndependent(es[1..], p, q, r);
    }
  }

  lemma {:induction false} FieldExprsIndependent(
    fs: seq<Wire.FieldWithExpr>, p: Wire.Package, q: Wire.Package, r: FullRenaming)
    requires SameTables(p, q, r) && ConvertFieldExprs(fs, p).Success?
    ensures AcyclicAll(q) && ConvertFieldExprs(RenameFieldExprs(fs, r), q) == ConvertFieldExprs(fs, p)
    decreases Wire.FieldExprsBound(fs, Wire.ExprRank(p.exprs)), fs
  {
    hide SameTables, ConvertExpr, RenameExpr, ResolveString, AcyclicAll, Wire.Acyclic, SamePackage;
    TablesAcyclic(p, q, r);
    if fs != [] {
      assert fs[0].expr < fs[0];
      NameIndependent(fs[0].name, p, q, r);
      ExprIndependent(fs[0].expr, p, q, r);
      FieldExprsIndependent(fs[1..], p, q, r);
    }
  }

  lemma {:induction false} AltsIndependent(alts: seq<Wire.CaseAlt>, p: Wire.Package, q: Wire.Package, r: FullRenaming)
    requires SameTables(p, q, r) && ConvertAlts(alts, p).Success?
    ensures AcyclicAll(q) && ConvertAlts(RenameAlts(alts, r), q) == ConvertAlts(alts, p)
    decreases Wire.AltsBound(alts, Wire.ExprRank(p.exprs)), alts
  {
    hide SameTables, ConvertExpr, RenameExpr, ConvertPattern, RenamePattern, AcyclicAll, Wire.Acyclic, SamePackage;
    TablesAcyclic(p, q, r);
    if alts != [] {
      assert alts[0].body < alts[0];
      ExprIndependent(alts[0].body, p, q, r);
      PatternIndependent(alts[0].pattern, p, q, r);
      AltsIndependent(alts[1..], p, q, r);
    }
  }

  lemma {:induction false} BindingsIndependent(bs: seq<Wire.Binding>, p: Wire.Package, q: Wire.Package, r: FullRenaming)
    requires SameTables(p, q, r) && ConvertBindings(bs, p).Success?
    ensures AcyclicAll(q) && ConvertBindings(RenameBindings(bs, r), q) == ConvertBindings(bs, p)
    decreases Wire.BindingsBound(bs, Wire.ExprRank(p.exprs)), bs
  {
    hide SameTables, ConvertExpr, RenameExpr, ConvertVarWithType, RenameVar, AcyclicAll, Wire.Acyclic, SamePackage;
    TablesAcyclic(p, q, r);
    if bs != [] {
      assert bs[0].bound < bs[0];
      VarIndependent(bs[0].binder, p, q, r);
      ExprIndependent(bs[0].bound, p, q, r);
      BindingsIndependent(bs[1..], p, q, r);
    }
  }

  // ---------- Appended entries ----------

  ghost function NothingMoved(): FullRenaming {
    FullRenaming(Identity(), i => i)
  }

  lemma {:induction false} SameVars(vs: seq<Wire.VarWithType>)
    ensures RenameVars(vs, Identity()) == vs
  {
    if vs != [] {
      SameVar(vs[0]);
      SameVars(vs[1..]);
    }
  }

  lemma SameVar(v: Wire.VarWithType)
    ensures RenameVar(v, Identity()) == v
  {
    if v.VarWithType? {
      SameType(v.ty);
    }
  }

  lemma SamePattern(p: Wire.Pattern)
    ensures RenamePattern(p, Identity()) == p
  {
    match p
    case PatternVariant(con, _, _) => SameId(con);
    case PatternEnum(con, _) => SameId(con);
    case _ =>
  }

  lemma {:induction false} SameExpr(e: Wire.Expr)
    ensures RenameExpr(e, NothingMoved()) == e
    decreases e
  {
    hide RenameId, RenameType;
    match e
    case ExprVal(id) => SameId(id);
    case ExprNil(ty) => SameType(ty);
    case ExprRecCon(tycon, tyargs, fields) =>
      SameId(tycon);
      SameTypes(tyargs);
      SameFieldExprs(fields);
    case ExprApp(fun, args) =>
      SameExpr(fun);
      SameExprs(args);
    case ExprTyApp(expr, types) =>
      SameExpr(expr);
      SameTypes(types);
    case ExprAbs(params, body) =>
      SameVars(params);
      SameExpr(body);
    case ExprTyAbs(params, body) =>
      SameTypeVars(params);
      SameExpr(body);
    case ExprCase(scrut, alts) =>
      SameExpr(scrut);
      SameAlts(alts);
    case ExprLet(bindings, body) =>
      SameBindings(bindings);
      SameExpr(body);
    case ExprUpdate(update) => SameUpdate(update);
    case _ =>
  }

  lemma {:induction false} SameUpdate(u: Wire.Update)
    ensures RenameUpdate(u, NothingMoved()) == u
    decreases u
  {
    hide RenameId, RenameType;
    match u
    case UpdatePure(ty, expr) =>
      SameType(ty);
      SameExpr(expr);
    case UpdateBlock(bindings, body) =>
      SameBindings(bindings);
      SameExpr(body);
    case UpdateCreate(template, expr) =>
      SameId(template);
      SameExpr(expr);
    case UpdateExercise(template, cid, arg, _) =>
      SameId(template);
      SameExpr(cid);
      SameExpr(arg);
    case _ =>
  }

  lemma {:induction false} SameExprs(es: seq<Wire.Expr>)
    ensures RenameExprs(es, NothingMoved()) == es
    decreases es
  {
    hide RenameExpr;
    if es != [] {
      SameExpr(es[0]);
      SameExprs(es[1..]);
    }
  }

  lemma {:induction false} SameFieldExprs(fs: seq<Wire.FieldWithExpr>)
    ensures RenameFieldExprs(fs, NothingMoved()) == fs
    decreases fs
  {
    hide RenameExpr;
    if fs != [] {
      assert fs[0].expr < fs[0];
      SameExpr(fs[0].expr);
      SameFieldExprs(fs[1..]);
    }
  }

  lemma {:induction false} SameAlts(alts: seq<Wire.CaseAlt>)
    ensures RenameAlts(alts, NothingMoved()) == alts
    decreases alts
  {
    hide RenameExpr, RenamePattern;
    if alts != [] {
      assert alts[0].body < alts[0];
      SameExpr(alts[0].body);
      SamePattern(alts[0].pattern);
      SameAlts(alts[1..]);
    }
  }

  lemma {:induction false} SameBindings(bs: seq<Wire.Binding>)
    ensures RenameBindings(bs, NothingMoved()) == bs
    decreases bs
  {
    hide RenameExpr, RenameVar;
    if bs != [] {
      assert bs[0].bound < bs[0];
      SameVar(bs[0].binder);
      SameExpr(bs[0].bound);
      SameBindings(bs[1..]);
    }
  }

  lemma AppendedSame(p: Wire.Package, q: Wire.Package)
    requires Appended(p, q) && p.exprs <= q.exprs && AcyclicAll(p) && AcyclicAll(q)
    ensures SameTables(p, q, NothingMoved())
  {
    hide RenameExpr, Represents, Wire.Acyclic, Appended;
    AppendedRepresents(p, q);
    forall i | 0 <= i < |p.exprs|
      ensures RenameExpr(p.exprs[i], NothingMoved()) == p.exprs[i] == q.exprs[i]
    {
      SameExpr(p.exprs[i]);
    }
  }

  /** Entries appended to any table change no expression that converts. */
  lemma AppendedUnusedByExprs(e: Wire.Expr, p: Wire.Package, q: Wire.Package)
    requires Appended(p, q) && p.exprs <= q.exprs && AcyclicAll(p) && AcyclicAll(q) && ConvertExpr(e, p).Success?
    ensures ConvertExpr(e, q) == ConvertExpr(e, p)
  {
    hide RenameExpr, SameTables, AcyclicAll, Appended, ConvertExpr;
    AppendedSame(p, q);
    SameExpr(e);
    ExprIndependent(e, p, q, NothingMoved());
  }
}
