/** Why a wire type or expression is refused: what may be wrong with each part of it, and that conversion fails
    exactly when something is, with an error of something that is. */
module Faults {
  import opened Wrappers
  import opened Element
  import opened Interned
  import opened TypeConversion
  import opened ExprConversion
  import Wire

  // ---------- Indices and names ----------

  predicate StringFault(index: int, e: ConvertError, pkg: Wire.Package) {
    !(0 <= index < |pkg.strings|) && e == InternalError
  }

  predicate DottedFault(index: int, e: ConvertError, pkg: Wire.Package) {
    if 0 <= index < |pkg.dottedNames| then
      exists i :: 0 <= i < |pkg.dottedNames[index]| && StringFault(pkg.dottedNames[index][i], e, pkg)
    else e == InternalError
  }

  predicate PackageRefFault(ref: Wire.PackageRef, e: ConvertError, pkg: Wire.Package) {
    match ref
    case PackageRefUnset => e == MissingRequiredField
    case SelfPackage => false
    case ImportedPackage(name) => StringFault(name, e, pkg)
    case PackageImport(_) => e == UnsupportedFeatureUsed
  }

  predicate NameFault(id: Wire.QualifiedId, e: ConvertError, pkg: Wire.Package) {
    if id.QualifiedIdUnset? || id.mod.ModuleIdUnset? then e == MissingRequiredField
    else
      || PackageRefFault(id.mod.package, e, pkg) || DottedFault(id.mod.name, e, pkg) || DottedFault(id.name, e, pkg)
      || (0 <= id.name < |pkg.dottedNames| && pkg.dottedNames[id.name] == [] && e == MissingRequiredField)
  }

  lemma StringFaulty(index: int, e: ConvertError, pkg: Wire.Package)
    ensures ResolveString(index, pkg) == Failure(e) <==> StringFault(index, e, pkg)
  {
  }

  lemma {:induction false} StringsFaulty(indices: seq<int>, e: ConvertError, pkg: Wire.Package)
    ensures ResolveStrings(indices, pkg) == Failure(e)
        <==> exists i :: 0 <= i < |indices| && StringFault(indices[i], e, pkg)
  {
    if indices != [] {
      StringsFaulty(indices[1..], e, pkg);
      assert forall i :: 0 < i < |indices| ==> indices[i] == indices[1..][i - 1];
      if i :| 0 <= i < |indices[1..]| && StringFault(indices[1..][i], e, pkg) {
        assert indices[i + 1] == indices[1..][i];
      }
    }
  }

  lemma DottedFaulty(index: int, e: ConvertError, pkg: Wire.Package)
    ensures ResolveDotted(index, pkg) == Failure(e) <==> DottedFault(index, e, pkg)
    ensures ResolveDotted(index, pkg).Success? ==>
      0 <= index < |pkg.dottedNames| && |ResolveDotted(index, pkg).value| == |pkg.dottedNames[index]|
  {
    hide StringFault, ResolveStrings;
    if 0 <= index < |pkg.dottedNames| {
      StringsFaulty(pkg.dottedNames[index], e, pkg);
    }
  }

  /** A name that is refused is refused for a fault, and one that is not has none. */
  lemma NameFaulty(id: Wire.QualifiedId, e: ConvertError, pkg: Wire.Package)
    ensures ConvertQualifiedId(id, pkg) == Failure(e) ==> NameFault(id, e, pkg)
    ensures ConvertQualifiedId(id, pkg).Success? ==> !NameFault(id, e, pkg)
  {
    hide ResolveDotted, DottedFault, StringFault, ResolveString;
    if id.QualifiedId? && id.mod.ModuleId? {
      DottedFaulty(id.mod.name, e, pkg);
      DottedFaulty(id.name, e, pkg);
      if id.mod.package.ImportedPackage? {
        StringFaulty(id.mod.package.name, e, pkg);
      }
    }
  }

  // ---------- Kinds ----------

  ghost predicate KindFault(k: Wire.Kind, e: ConvertError, kinds: seq<Wire.Kind>)
    requires Wire.AcyclicKinds(kinds)
    decreases Wire.KindBound(k, Wire.KindRank(kinds)), k
  {
    match k
    case KindUnset => e == MissingRequiredField
    case KindArrow(params, result) => KindsFault(params, e, kinds) || KindFault(result, e, kinds)
    case KindInterned(idx) => if 0 <= idx < |kinds| then KindFault(kinds[idx], e, kinds) else e == InternalError
    case _ => false
  }

  ghost predicate KindsFault(ks: seq<Wire.Kind>, e: ConvertError, kinds: seq<Wire.Kind>)
    requires Wire.AcyclicKinds(kinds)
    decreases Wire.KindsBound(ks, Wire.KindRank(kinds)), ks
  {
    ks != [] && (KindFault(ks[0], e, kinds) || KindsFault(ks[1..], e, kinds))
  }

  lemma {:induction false} KindFaulty(k: Wire.Kind, e: ConvertError, kinds: seq<Wire.Kind>)
    requires Wire.AcyclicKinds(kinds)
    ensures ConvertKind(k, kinds) == Failure(e) ==> KindFault(k, e, kinds)
    ensures ConvertKind(k, kinds).Success? ==> !KindFault(k, e, kinds)
    decreases Wire.KindBound(k, Wire.KindRank(kinds)), k
  {
    match k
    case KindArrow(params, result) =>
      KindsFaulty(params, e, kinds);
      KindFaulty(result, e, kinds);
    case KindInterned(idx) =>
      if 0 <= idx < |kinds| {
        KindFaulty(kinds[idx], e, kinds);
      }
    case _ =>
  }

  lemma {:induction false} KindsFaulty(ks: seq<Wire.Kind>, e: ConvertError, kinds: seq<Wire.Kind>)
    requires Wire.AcyclicKinds(kinds)
    ensures ConvertKinds(ks, kinds) == Failure(e) ==> KindsFault(ks, e, kinds)
    ensures ConvertKinds(ks, kinds).Success? ==> !KindsFault(ks, e, kinds)
    decreases Wire.KindsBound(ks, Wire.KindRank(kinds)), ks
  {
    hide ConvertKind, KindFault;
    if ks != [] {
      KindFaulty(ks[0], e, kinds);
      KindsFaulty(ks[1..], e, kinds);
    }
  }

  ghost predicate TypeVarsFault(vs: seq<Wire.TypeVarWithKind>, e: ConvertError, pkg: Wire.Package)
    requires Wire.AcyclicKinds(pkg.kinds)
  {
    vs != [] &&
    (StringFault(vs[0].name, e, pkg) || KindFault(vs[0].kind, e, pkg.kinds) || TypeVarsFault(vs[1..], e, pkg))
  }

  lemma {:induction false} TypeVarsFaulty(vs: seq<Wire.TypeVarWithKind>, e: ConvertError, pkg: Wire.Package)
    requires Wire.AcyclicKinds(pkg.kinds)
    ensures ConvertTypeVars(vs, pkg) == Failure(e) ==> TypeVarsFault(vs, e, pkg)
    ensures ConvertTypeVars(vs, pkg).Success? ==> !TypeVarsFault(vs, e, pkg)
  {
    hide ConvertKind, KindFault, ResolveString, StringFault;
    if vs != [] {
      StringFaulty(vs[0].name, e, pkg);
      KindFaulty(vs[0].kind, e, pkg.kinds);
      TypeVarsFaulty(vs[1..], e, pkg);
    }
  }

  // ---------- Types ----------

  /** `e` is what some part of the type is refused with. */
  ghost predicate TypeFault(t: Wire.Type, e: ConvertError, pkg: Wire.Package)
    requires Wire.Acyclic(pkg)
    decreases Wire.TypeBound(t, Wire.TypeRank(pkg.types)), t
  {
    match t
    case TypeUnset => e == MissingRequiredField
    case TypeVar(name, args) => StringFault(name, e, pkg) || TypesFault(args, e, pkg)
    case TypeCon(id, args) => NameFault(id, e, pkg) || TypesFault(args, e, pkg)
    case TypeSyn(id, args) => NameFault(id, e, pkg) || TypesFault(args, e, pkg)
    case TypeBuiltin(b, args) =>
      || (b.UnknownBuiltinType? && e == MissingRequiredField)
      || TypesFault(args, e, pkg)
      || (b.ContractId? && |args| > 1 && e == UnexpectedContractIdTypeArguments)
    case TypeForall(vars, body) => TypeVarsFault(vars, e, pkg) || TypeFault(body, e, pkg)
    case TypeStruct(fields) => FieldsFault(fields, e, pkg)
    case TypeNat(n) => !(0 <= n <= 37) && e == NatOutOfRange(n)
    case TypeInterned(idx) =>
      if 0 <= idx < |pkg.types| then TypeFault(pkg.types[idx], e, pkg) else e == InternalError
    case TypeApp => e == UnsupportedFeatureUsed
  }

  ghost predicate TypesFault(ts: seq<Wire.Type>, e: ConvertError, pkg: Wire.Package)
    requires Wire.Acyclic(pkg)
    decreases Wire.TypesBound(ts, Wire.TypeRank(pkg.types)), ts
  {
    ts != [] && (TypeFault(ts[0], e, pkg) || TypesFault(ts[1..], e, pkg))
  }

  ghost predicate FieldsFault(fs: seq<Wire.FieldWithType>, e: ConvertError, pkg: Wire.Package)
    requires Wire.Acyclic(pkg)
    decreases Wire.FieldsBound(fs, Wire.TypeRank(pkg.types)), fs
  {
    fs != [] &&
      assert fs[0].ty < fs[0];
      (StringFault(fs[0].name, e, pkg) || TypeFault(fs[0].ty, e, pkg) || FieldsFault(fs[1..], e, pkg))
  }

  /** Conversion of a type fails exactly when something is wrong with it, and then with an error of something
      that is. */
  lemma {:induction false} TypeFaulty(t: Wire.Type, e: ConvertError, pkg: Wire.Package)
    requires Wire.Acyclic(pkg)
    ensures ConvertType(t, pkg) == Failure(e) ==> TypeFault(t, e, pkg)
    ensures ConvertType(t, pkg).Success? ==> !TypeFault(t, e, pkg)
    decreases Wire.TypeBound(t, Wire.TypeRank(pkg.types)), t
  {
    hide ResolveString, StringFault, ConvertQualifiedId, NameFault, ConvertTypeVars, TypeVarsFault, ConvertTypes,
      TypesFault, ConvertFields, FieldsFault;
    match t
    case TypeVar(name, args) =>
      StringFaulty(name, e, pkg);
      TypesFaulty(args, e, pkg);
    case TypeCon(id, args) =>
      NameFaulty(id, e, pkg);
      TypesFaulty(args, e, pkg);
    case TypeSyn(id, args) =>
      NameFaulty(id, e, pkg);
      TypesFaulty(args, e, pkg);
    case TypeBuiltin(b, args) => TypesFaulty(args, e, pkg);
    case TypeForall(vars, body) =>
      TypeVarsFaulty(vars, e, pkg);
      TypeFaulty(body, e, pkg);
    case TypeStruct(fields) => FieldsFaulty(fields, e, pkg);
    case TypeInterned(idx) =>
      if 0 <= idx < |pkg.types| {
        TypeFaulty(pkg.types[idx], e, pkg);
      }
    case _ =>
  }

  lemma {:induction false} TypesFaulty(ts: seq<Wire.Type>, e: ConvertError, pkg: Wire.Package)
    requires Wire.Acyclic(pkg)
    ensures ConvertTypes(ts, pkg) == Failure(e) ==> TypesFault(ts, e, pkg)
    ensures ConvertTypes(ts, pkg).Success? ==> !TypesFault(ts, e, pkg)
    decreases Wire.TypesBound(ts, Wire.TypeRank(pkg.types)), ts
  {
    hide ConvertType, TypeFault;
    if ts != [] {
      TypeFaulty(ts[0], e, pkg);
      TypesFaulty(ts[1..], e, pkg);
    }
  }

  lemma {:induction false} FieldsFaulty(fs: seq<Wire.FieldWithType>, e: ConvertError, pkg: Wire.Package)
    requires Wire.Acyclic(pkg)
    ensures ConvertFields(fs, pkg) == Failure(e) ==> FieldsFault(fs, e, pkg)
    ensures ConvertFields(fs, pkg).Success? ==> !FieldsFault(fs, e, pkg)
    decreases Wire.FieldsBound(fs, Wire.TypeRank(pkg.types)), fs
  {
    hide ConvertType, TypeFault, ResolveString, StringFault;
    if fs != [] {
      assert fs[0].ty < fs[0];
      StringFaulty(fs[0].name, e, pkg);
      TypeFaulty(fs[0].ty, e, pkg);
      FieldsFaulty(fs[1..], e, pkg);
      assert ConvertField(fs[0], pkg) == Failure(e) ==>
        StringFault(fs[0].name, e, pkg) || TypeFault(fs[0].ty, e, pkg);
      assert ConvertField(fs[0], pkg).Success? ==>
        !StringFault(fs[0].name, e, pkg) && !TypeFault(fs[0].ty, e, pkg);
    }
  }

  // ---------- Expressions ----------

  ghost predicate VarFault(v: Wire.VarWithType, e: ConvertError, pkg: Wire.Package)
    requires Wire.Acyclic(pkg)
  {
    match v
    case VarWithTypeUnset => e == MissingRequiredField
    case VarWithType(name, ty) => StringFault(name, e, pkg) || TypeFault(ty, e, pkg)
  }

  ghost predicate VarsFault(vs: seq<Wire.VarWithType>, e: ConvertError, pkg: Wire.Package)
    requires Wire.Acyclic(pkg)
  {
    vs != [] && (VarFault(vs[0], e, pkg) || VarsFault(vs[1..], e, pkg))
  }

  predicate PatternFault(p: Wire.Pattern, e: ConvertError, pkg: Wire.Package) {
    match p
    case PatternUnset => e == MissingRequiredField
    case PatternVariant(con, variant, binder) =>
      NameFault(con, e, pkg) || StringFault(variant, e, pkg) || StringFault(binder, e, pkg)
    case PatternCons(head, tail) => StringFault(head, e, pkg) || StringFault(tail, e, pkg)
    case PatternEnum(con, constructor_) => NameFault(con, e, pkg) || StringFault(constructor_, e, pkg)
    case _ => false
  }

  /** `e` is what some part of the expression is refused with. */
  ghost predicate ExprFault(x: Wire.Expr, e: ConvertError, pkg: Wire.Package)
    requires AcyclicAll(pkg)
    decreases Wire.ExprBound(x, Wire.ExprRank(pkg.exprs)), x
  {
    match x
    case ExprUnset => e == MissingRequiredField
    case ExprVar(name) => StringFault(name, e, pkg)
    case ExprVal(id) => NameFault(id, e, pkg)
    case ExprNil(ty) => TypeFault(ty, e, pkg)
    case ExprRecCon(tycon, tyargs, fields) =>
      NameFault(tycon, e, pkg) || TypesFault(tyargs, e, pkg) || FieldExprsFault(fields, e, pkg)
    case ExprApp(fun, args) => ExprFault(fun, e, pkg) || ExprsFault(args, e, pkg)
    case ExprTyApp(expr, types) => ExprFault(expr, e, pkg) || TypesFault(types, e, pkg)
    case ExprAbs(params, body) => VarsFault(params, e, pkg) || ExprFault(body, e, pkg)
    case ExprTyAbs(params, body) => TypeVarsFault(params, e, pkg) || ExprFault(body, e, pkg)
    case ExprCase(scrut, alts) => ExprFault(scrut, e, pkg) || AltsFault(alts, e, pkg)
    case ExprLet(bindings, body) => BindingsFault(bindings, e, pkg) || ExprFault(body, e, pkg)
    case ExprUpdate(update) => UpdateFault(update, e, pkg)
    case ExprInterned(idx) =>
      if 0 <= idx < |pkg.exprs| then ExprFault(pkg.exprs[idx], e, pkg) else e == InternalError
    case ExprExperimental => e == UnsupportedFeatureUsed
  }

  ghost predicate UpdateFault(u: Wire.Update, e: ConvertError, pkg: Wire.Package)
    requires AcyclicAll(pkg)
    decreases Wire.UpdateBound(u, Wire.ExprRank(pkg.exprs)), u
  {
    match u
    case UpdateUnset => e == MissingRequiredField
    case UpdatePure(ty, expr) => TypeFault(ty, e, pkg) || ExprFault(expr, e, pkg)
    case UpdateBlock(bindings, body) => BindingsFault(bindings, e, pkg) || ExprFault(body, e, pkg)
    case UpdateCreate(template, expr) => NameFault(template, e, pkg) || ExprFault(expr, e, pkg)
    case UpdateExercise(template, cid, arg, choice) =>
      || NameFault(template, e, pkg) || ExprFault(cid, e, pkg) || ExprFault(arg, e, pkg)
      || StringFault(choice, e, pkg)
    case UpdateGetTime => false
  }

  ghost predicate ExprsFault(xs: seq<Wire.Expr>, e: ConvertError, pkg: Wire.Package)
    requires AcyclicAll(pkg)
    decreases Wire.ExprsBound(xs, Wire.ExprRank(pkg.exprs)), xs
  {
    xs != [] && (ExprFault(xs[0], e, pkg) || ExprsFault(xs[1..], e, pkg))
  }

  ghost predicate FieldExprsFault(fs: seq<Wire.FieldWithExpr>, e: ConvertError, pkg: Wire.Package)
    requires AcyclicAll(pkg)
    decreases Wire.FieldExprsBound(fs, Wire.ExprRank(pkg.exprs)), fs
  {
    fs != [] &&
      assert fs[0].expr < fs[0];
      (StringFault(fs[0].name, e, pkg) || ExprFault(fs[0].expr, e, pkg) || FieldExprsFault(fs[1..], e, pkg))
  }

  ghost predicate AltsFault(alts: seq<Wire.CaseAlt>, e: ConvertError, pkg: Wire.Package)
    requires AcyclicAll(pkg)
    decreases Wire.AltsBound(alts, Wire.ExprRank(pkg.exprs)), alts
  {
    alts != [] &&
      assert alts[0].body < alts[0];
      (ExprFault(alts[0].body, e, pkg) || PatternFault(alts[0].pattern, e, pkg) || AltsFault(alts[1..], e, pkg))
  }

  ghost predicate BindingsFault(bs: seq<Wire.Binding>, e: ConvertError, pkg: Wire.Package)
    requires AcyclicAll(pkg)
    decreases Wire.BindingsBound(bs, Wire.ExprRank(pkg.exprs)), bs
  {
    bs != [] &&
      assert bs[0].bound < bs[0];
      (VarFault(bs[0].binder, e, pkg) || ExprFault(bs[0].bound, e, pkg) || BindingsFault(bs[1..], e, pkg))
  }

  lemma VarFaulty(v: Wire.VarWithType, e: ConvertError, pkg: Wire.Package)
    requires Wire.Acyclic(pkg)
    ensures ConvertVarWithType(v, pkg) == Failure(e) ==> VarFault(v, e, pkg)
    ensures ConvertVarWithType(v, pkg).Success? ==> !VarFault(v, e, pkg)
  {
    hide ConvertType, TypeFault, ResolveString, StringFault;
    if v.VarWithType? {
      StringFaulty(v.name, e, pkg);
      TypeFaulty(v.ty, e, pkg);
    }
  }

  lemma {:induction false} VarsFaulty(vs: seq<Wire.VarWithType>, e: ConvertError, pkg: Wire.Package)
    requires Wire.Acyclic(pkg)
    ensures ConvertVarsWithType(vs, pkg) == Failure(e) ==> VarsFault(vs, e, pkg)
    ensures ConvertVarsWithType(vs, pkg).Success? ==> !VarsFault(vs, e, pkg)
  {
    hide ConvertVarWithType, VarFault;
    if vs != [] {
      VarFaulty(vs[0], e, pkg);
      VarsFaulty(vs[1..], e, pkg);
    }
  }

  lemma PatternFaulty(p: Wire.Pattern, e: ConvertError, pkg: Wire.Package)
    ensures ConvertPattern(p, pkg) == Failure(e) ==> PatternFault(p, e, pkg)
    ensures ConvertPattern(p, pkg).Success? ==> !PatternFault(p, e, pkg)
  {
    hide ConvertQualifiedId, NameFault, ResolveString, StringFault;
    match p
    case PatternVariant(con, variant, binder) =>
      NameFaulty(con, e, pkg);
      StringFaulty(variant, e, pkg);
      StringFaulty(binder, e, pkg);
    case PatternCons(head, tail) =>
      StringFaulty(head, e, pkg);
      StringFaulty(tail, e, pkg);
    case PatternEnum(con, constructor_) =>
      NameFaulty(con, e, pkg);
      StringFaulty(constructor_, e, pkg);
    case _ =>
  }

  /** Conversion of an expression fails exactly when something is wrong with it, and then with an error of
      something that is. */
  lemma {:induction false} ExprFaulty(x: Wire.Expr, e: ConvertError, pkg: Wire.Package)
    requires AcyclicAll(pkg)
    ensures ConvertExpr(x, pkg) == Failure(e) ==> ExprFault(x, e, pkg)
    ensures ConvertExpr(x, pkg).Success? ==> !ExprFault(x, e, pkg)
    decreases Wire.ExprBound(x, Wire.ExprRank(pkg.exprs)), x, 1
  {
    hide ResolveString, StringFault, ConvertQualifiedId, NameFault, ConvertType, TypeFault, ConvertTypes, TypesFault,
      ConvertFieldExprs, FieldExprsFault, ConvertExprs, ExprsFault, ConvertUpdate, UpdateFault, Wire.Acyclic;
    match x
    case ExprVar(name) => StringFaulty(name, e, pkg);
    case ExprVal(id) => NameFaulty(id, e, pkg);
    case ExprNil(ty) => TypeFaulty(ty, e, pkg);
    case ExprRecCon(tycon, tyargs, fields) =>
      NameFaulty(tycon, e, pkg);
      TypesFaulty(tyargs, e, pkg);
      FieldExprsFaulty(fields, e, pkg);
    case ExprApp(fun, args) =>
      ExprFaulty(fun, e, pkg);
      ExprsFaulty(args, e, pkg);
    case ExprTyApp(expr, types) =>
      ExprFaulty(expr, e, pkg);
      TypesFaulty(types, e, pkg);
    case ExprUpdate(update) => UpdateFaulty(update, e, pkg);
    case ExprInterned(idx) =>
      if 0 <= idx < |pkg.exprs| {
        ExprFaulty(pkg.exprs[idx], e, pkg);
      }
    case ExprAbs(_, _) => BinderFaulty(x, e, pkg);
    case ExprTyAbs(_, _) => BinderFaulty(x, e, pkg);
    case ExprCase(_, _) => BinderFaulty(x, e, pkg);
    case ExprLet(_, _) => BinderFaulty(x, e, pkg);
    case _ =>
  }

  lemma {:induction false} BinderFaulty(x: Wire.Expr, e: ConvertError, pkg: Wire.Package)
    requires AcyclicAll(pkg) && (x.ExprAbs? || x.ExprTyAbs? || x.ExprCase? || x.ExprLet?)
    ensures ConvertExpr(x, pkg) == Failure(e) ==> ExprFault(x, e, pkg)
    ensures ConvertExpr(x, pkg).Success? ==> !ExprFault(x, e, pkg)
    decreases Wire.ExprBound(x, Wire.ExprRank(pkg.exprs)), x, 0
  {
    hide ConvertTypeVars, TypeVarsFault, ConvertVarsWithType, VarsFault, ConvertAlts, AltsFault, ConvertBindings,
      BindingsFault;
    match x
    case ExprAbs(params, body) =>
      VarsFaulty(params, e, pkg);
      ExprFaulty(body, e, pkg);
    case ExprTyAbs(params, body) =>
      TypeVarsFaulty(params, e, pkg);
      ExprFaulty(body, e, pkg);
    case ExprCase(scrut, alts) =>
      ExprFaulty(scrut, e, pkg);
      AltsFaulty(alts, e, pkg);
    case ExprLet(bindings, body) =>
      BindingsFaulty(bindings, e, pkg);
      ExprFaulty(body, e, pkg);
  }

  lemma {:induction false} UpdateFaulty(u: Wire.Update, e: ConvertError, pkg: Wire.Package)
    requires AcyclicAll(pkg)
    ensures ConvertUpdate(u, pkg) == Failure(e) ==> UpdateFault(u, e, pkg)
    ensures ConvertUpdate(u, pkg).Success? ==> !UpdateFault(u, e, pkg)
    decreases Wire.UpdateBound(u, Wire.ExprRank(pkg.exprs)), u
  {
    hide ResolveString, StringFault, ConvertQualifiedId, NameFault, ConvertType, TypeFault, ConvertExpr, ExprFault,
      ConvertBindings, BindingsFault, Wire.Acyclic;
    match u
    case UpdatePure(ty, expr) =>
      TypeFaulty(ty, e, pkg);
      ExprFaulty(expr, e, pkg);
    case UpdateBlock(bindings, body) =>
      BindingsFaulty(bindings, e, pkg);
      ExprFaulty(body, e, pkg);
    case UpdateCreate(template, expr) =>
      NameFaulty(template, e, pkg);
      ExprFaulty(expr, e, pkg);
    case UpdateExercise(template, cid, arg, choice) =>
      NameFaulty(template, e, pkg);
      ExprFaulty(cid, e, pkg);
      ExprFaulty(arg, e, pkg);
      StringFaulty(choice, e, pkg);
    case _ =>
  }

  lemma {:induction false} ExprsFaulty(xs: seq<Wire.Expr>, e: ConvertError, pkg: Wire.Package)
    requires AcyclicAll(pkg)
    ensures ConvertExprs(xs, pkg) == Failure(e) ==> ExprsFault(xs, e, pkg)
    ensures ConvertExprs(xs, pkg).Success? ==> !ExprsFault(xs, e, pkg)
    decreases Wire.ExprsBound(xs, Wire.ExprRank(pkg.exprs)), xs
  {
    hide ConvertExpr, ExprFault, AcyclicAll;
    if xs != [] {
      ExprFaulty(xs[0], e, pkg);
      ExprsFaulty(xs[1..], e, pkg);
    }
  }

  lemma {:induction false} FieldExprsFaulty(fs: seq<Wire.FieldWithExpr>, e: ConvertError, pkg: Wire.Package)
    requires AcyclicAll(pkg)
    ensures ConvertFieldExprs(fs, pkg) == Failure(e) ==> FieldExprsFault(fs, e, pkg)
    ensures ConvertFieldExprs(fs, pkg).Success? ==> !FieldExprsFault(fs, e, pkg)
    decreases Wire.FieldExprsBound(fs, Wire.ExprRank(pkg.exprs)), fs
  {
    hide ConvertExpr, ExprFault, ResolveString, StringFault, AcyclicAll;
    if fs != [] {
      assert fs[0].expr < fs[0];
      StringFaulty(fs[0].name, e, pkg);
      ExprFaulty(fs[0].expr, e, pkg);
      FieldExprsFaulty(fs[1..], e, pkg);
    }
  }

  lemma {:induction false} AltsFaulty(alts: seq<Wire.CaseAlt>, e: ConvertError, pkg: Wire.Package)
    requires AcyclicAll(pkg)
    ensures ConvertAlts(alts, pkg) == Failure(e) ==> AltsFault(alts, e, pkg)
    ensures ConvertAlts(alts, pkg).Success? ==> !AltsFault(alts, e, pkg)
    decreases Wire.AltsBound(alts, Wire.ExprRank(pkg.exprs)), alts
  {
    hide ConvertExpr, ExprFault, ConvertPattern, PatternFault, AcyclicAll;
    if alts != [] {
      assert alts[0].body < alts[0];
      ExprFaulty(alts[0].body, e, pkg);
      PatternFaulty(alts[0].pattern, e, pkg);
      AltsFaulty(alts[1..], e, pkg);
    }
  }

  lemma {:induction false} BindingsFaulty(bs: seq<Wire.Binding>, e: ConvertError, pkg: Wire.Package)
    requires AcyclicAll(pkg)
    ensures ConvertBindings(bs, pkg) == Failure(e) ==> BindingsFault(bs, e, pkg)
    ensures ConvertBindings(bs, pkg).Success? ==> !BindingsFault(bs, e, pkg)
    decreases Wire.BindingsBound(bs, Wire.ExprRank(pkg.exprs)), bs
  {
    hide ConvertExpr, ExprFault, ConvertVarWithType, VarFault;
    if bs != [] {
      assert bs[0].bound < bs[0];
      VarFaulty(bs[0].binder, e, pkg);
      ExprFaulty(bs[0].bound, e, pkg);
      BindingsFaulty(bs[1..], e, pkg);
    }
  }
}
