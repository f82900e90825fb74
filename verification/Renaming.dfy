/** Representation independence: conversion sees only what indices stand for. A package may be laid out
    again - tables permuted, entries appended, equal entries merged - with every index rewritten to match,
    and each successful conversion keeps its result. The one exception is that templates are attached to
    records by dotted-name index, not by name. */
module Renaming {
  import opened Wrappers
  import opened Element
  import opened Interned
  import opened TypeConversion
  import opened Declarations
  import F = FlatTree
  import Wire

  /** Where each table index of the old layout went. */
  datatype Renaming = Renaming(str: int -> int, dotted: int -> int, ty: int -> int, kind: int -> int)

  // ---------- Rewriting indices ----------

  ghost function RenameIndices(xs: seq<int>, f: int -> int): (r: seq<int>)
    ensures |r| == |xs|
  {
    if xs == [] then [] else [f(xs[0])] + RenameIndices(xs[1..], f)
  }

  ghost function RenameKind(k: Wire.Kind, r: Renaming): Wire.Kind
    decreases k
  {
    match k
    case KindArrow(params, result) => Wire.KindArrow(RenameKinds(params, r), RenameKind(result, r))
    case KindInterned(idx) => Wire.KindInterned(r.kind(idx))
    case _ => k
  }

  ghost function RenameKinds(ks: seq<Wire.Kind>, r: Renaming): seq<Wire.Kind>
    decreases ks
  {
    if ks == [] then [] else [RenameKind(ks[0], r)] + RenameKinds(ks[1..], r)
  }

  ghost function RenameTypeVars(vs: seq<Wire.TypeVarWithKind>, r: Renaming): seq<Wire.TypeVarWithKind> {
    if vs == [] then [] else
      [Wire.TypeVarWithKind(r.str(vs[0].name), RenameKind(vs[0].kind, r))] + RenameTypeVars(vs[1..], r)
  }

  ghost function RenameId(id: Wire.QualifiedId, r: Renaming): Wire.QualifiedId {
    match id
    case QualifiedId(ModuleId(ImportedPackage(p), m), n) =>
      Wire.QualifiedId(Wire.ModuleId(Wire.ImportedPackage(r.str(p)), r.dotted(m)), r.dotted(n))
    case QualifiedId(ModuleId(ref, m), n) => Wire.QualifiedId(Wire.ModuleId(ref, r.dotted(m)), r.dotted(n))
    case _ => id
  }

  ghost function RenameIds(ids: seq<Wire.QualifiedId>, r: Renaming): seq<Wire.QualifiedId> {
    if ids == [] then [] else [RenameId(ids[0], r)] + RenameIds(ids[1..], r)
  }

  ghost function RenameType(t: Wire.Type, r: Renaming): Wire.Type
    decreases t
  {
    match t
    case TypeVar(n, args) => Wire.TypeVar(r.str(n), RenameTypes(args, r))
    case TypeCon(id, args) => Wire.TypeCon(RenameId(id, r), RenameTypes(args, r))
    case TypeSyn(id, args) => Wire.TypeSyn(RenameId(id, r), RenameTypes(args, r))
    case TypeBuiltin(b, args) => Wire.TypeBuiltin(b, RenameTypes(args, r))
    case TypeForall(vs, body) => Wire.TypeForall(RenameTypeVars(vs, r), RenameType(body, r))
    case TypeStruct(fields) => Wire.TypeStruct(RenameFields(fields, r))
    case TypeInterned(idx) => Wire.TypeInterned(r.ty(idx))
    case _ => t
  }

  ghost function RenameTypes(ts: seq<Wire.Type>, r: Renaming): seq<Wire.Type>
    decreases ts
  {
    if ts == [] then [] else [RenameType(ts[0], r)] + RenameTypes(ts[1..], r)
  }

  ghost function RenameFields(fs: seq<Wire.FieldWithType>, r: Renaming): seq<Wire.FieldWithType>
    decreases fs
  {
    if fs == [] then [] else
      assert fs[0].ty < fs[0];
      [Wire.FieldWithType(r.str(fs[0].name), RenameType(fs[0].ty, r))] + RenameFields(fs[1..], r)
  }

  /** `q` holds, at the renamed index, whatever `p` holds at an index. It may hold more. */
  ghost predicate Represents(p: Wire.Package, q: Wire.Package, r: Renaming) {
    && q.packageId == p.packageId && q.name == p.name && q.pkgNames == p.pkgNames
    && (forall i {:trigger r.str(i)} :: 0 <= i < |p.strings| ==>
          0 <= r.str(i) < |q.strings| && q.strings[r.str(i)] == p.strings[i])
    && (forall i {:trigger r.dotted(i)} :: 0 <= i < |p.dottedNames| ==>
          0 <= r.dotted(i) < |q.dottedNames| &&
          q.dottedNames[r.dotted(i)] == RenameIndices(p.dottedNames[i], r.str))
    && (forall i {:trigger r.ty(i)} :: 0 <= i < |p.types| ==>
          0 <= r.ty(i) < |q.types| && q.types[r.ty(i)] == RenameType(p.types[i], r))
    && (forall i {:trigger r.kind(i)} :: 0 <= i < |p.kinds| ==>
          0 <= r.kind(i) < |q.kinds| && q.kinds[r.kind(i)] == RenameKind(p.kinds[i], r))
  }

  // ---------- Names ----------

  lemma {:induction false} StringsIndependent(xs: seq<int>, p: Wire.Package, q: Wire.Package, r: Renaming)
    requires Represents(p, q, r) && ResolveStrings(xs, p).Success?
    ensures ResolveStrings(RenameIndices(xs, r.str), q) == ResolveStrings(xs, p)
  {
    if xs != [] {
      StringsIndependent(xs[1..], p, q, r);
    }
  }

  lemma DottedIndependent(i: int, p: Wire.Package, q: Wire.Package, r: Renaming)
    requires Represents(p, q, r) && ResolveDotted(i, p).Success?
    ensures ResolveDotted(r.dotted(i), q) == ResolveDotted(i, p)
  {
    StringsIndependent(p.dottedNames[i], p, q, r);
  }

  lemma IdIndependent(id: Wire.QualifiedId, p: Wire.Package, q: Wire.Package, r: Renaming)
    requires Represents(p, q, r) && ConvertQualifiedId(id, p).Success?
    ensures ConvertQualifiedId(RenameId(id, r), q) == ConvertQualifiedId(id, p)
  {
    DottedIndependent(id.mod.name, p, q, r);
    DottedIndependent(id.name, p, q, r);
  }

  lemma {:induction false} IdsIndependent(ids: seq<Wire.QualifiedId>, p: Wire.Package, q: Wire.Package, r: Renaming)
    requires Represents(p, q, r) && ConvertQualifiedIds(ids, p).Success?
    ensures ConvertQualifiedIds(RenameIds(ids, r), q) == ConvertQualifiedIds(ids, p)
  {
    if ids != [] {
      IdIndependent(ids[0], p, q, r);
      IdsIndependent(ids[1..], p, q, r);
    }
  }

  // ---------- Kinds and types ----------

  lemma {:induction false} KindIndependent(k: Wire.Kind, p: Wire.Package, q: Wire.Package, r: Renaming)
    requires Represents(p, q, r) && Wire.AcyclicKinds(p.kinds) && Wire.AcyclicKinds(q.kinds)
    requires ConvertKind(k, p.kinds).Success?
    ensures ConvertKind(RenameKind(k, r), q.kinds) == ConvertKind(k, p.kinds)
    decreases Wire.KindBound(k, Wire.KindRank(p.kinds)), k
  {
    match k
    case KindArrow(params, result) =>
      KindsIndependent(params, p, q, r);
      KindIndependent(result, p, q, r);
    case KindInterned(idx) => KindIndependent(p.kinds[idx], p, q, r);
    case _ =>
  }

  lemma {:induction false} KindsIndependent(ks: seq<Wire.Kind>, p: Wire.Package, q: Wire.Package, r: Renaming)
    requires Represents(p, q, r) && Wire.AcyclicKinds(p.kinds) && Wire.AcyclicKinds(q.kinds)
    requires ConvertKinds(ks, p.kinds).Success?
    ensures ConvertKinds(RenameKinds(ks, r), q.kinds) == ConvertKinds(ks, p.kinds)
    decreases Wire.KindsBound(ks, Wire.KindRank(p.kinds)), ks
  {
    if ks != [] {
      KindIndependent(ks[0], p, q, r);
      KindsIndependent(ks[1..], p, q, r);
    }
  }

  lemma {:induction false} TypeVarsIndependent(
    vs: seq<Wire.TypeVarWithKind>, p: Wire.Package, q: Wire.Package, r: Renaming)
    requires Represents(p, q, r) && Wire.AcyclicKinds(p.kinds) && Wire.AcyclicKinds(q.kinds)
    requires ConvertTypeVars(vs, p).Success?
    ensures ConvertTypeVars(RenameTypeVars(vs, r), q) == ConvertTypeVars(vs, p)
  {
    if vs != [] {
      KindIndependent(vs[0].kind, p, q, r);
      TypeVarsIndependent(vs[1..], p, q, r);
    }
  }

  lemma {:induction false} TypeIndependent(t: Wire.Type, p: Wire.Package, q: Wire.Package, r: Renaming)
    requires Represents(p, q, r) && Wire.Acyclic(p) && Wire.Acyclic(q) && ConvertType(t, p).Success?
    ensures ConvertType(RenameType(t, r), q) == ConvertType(t, p)
    decreases Wire.TypeBound(t, Wire.TypeRank(p.types)), t
  {
    hide RenameId, ConvertQualifiedId;
    match t
    case TypeVar(_, args) => TypesIndependent(args, p, q, r);
    case TypeCon(id, args) =>
      IdIndependent(id, p, q, r);
      TypesIndependent(args, p, q, r);
    case TypeSyn(id, args) =>
      IdIndependent(id, p, q, r);
      TypesIndependent(args, p, q, r);
    case TypeBuiltin(_, args) => TypesIndependent(args, p, q, r);
    case TypeForall(vars, body) =>
      TypeVarsIndependent(vars, p, q, r);
      TypeIndependent(body, p, q, r);
    case TypeStruct(fields) => FieldsIndependent(fields, p, q, r);
    case TypeInterned(idx) => TypeIndependent(p.types[idx], p, q, r);
    case _ =>
  }

  lemma {:induction false} TypesIndependent(ts: seq<Wire.Type>, p: Wire.Package, q: Wire.Package, r: Renaming)
    requires Represents(p, q, r) && Wire.Acyclic(p) && Wire.Acyclic(q) && ConvertTypes(ts, p).Success?
    ensures ConvertTypes(RenameTypes(ts, r), q) == ConvertTypes(ts, p)
    decreases Wire.TypesBound(ts, Wire.TypeRank(p.types)), ts
  {
    if ts != [] {
      TypeIndependent(ts[0], p, q, r);
      TypesIndependent(ts[1..], p, q, r);
    }
  }

  lemma {:induction false} FieldsIndependent(
    fs: seq<Wire.FieldWithType>, p: Wire.Package, q: Wire.Package, r: Renaming)
    requires Represents(p, q, r) && Wire.Acyclic(p) && Wire.Acyclic(q) && ConvertFields(fs, p).Success?
    ensures ConvertFields(RenameFields(fs, r), q) == ConvertFields(fs, p)
    decreases Wire.FieldsBound(fs, Wire.TypeRank(p.types)), fs
  {
    if fs != [] {
      assert fs[0].ty < fs[0];
      TypeIndependent(fs[0].ty, p, q, r);
      FieldsIndependent(fs[1..], p, q, r);
    }
  }

  // ---------- Declarations ----------

  ghost function RenameVar(v: Wire.VarWithType, r: Renaming): Wire.VarWithType {
    if v.VarWithTypeUnset? then v else Wire.VarWithType(r.str(v.name), RenameType(v.ty, r))
  }

  ghost function RenameChoice(c: Wire.TemplateChoice, r: Renaming): Wire.TemplateChoice {
    Wire.TemplateChoice(
      r.str(c.name), r.str(c.selfBinder), RenameVar(c.argBinder, r), RenameType(c.retType, r), c.consuming,
      c.authorizers)
  }

  ghost function RenameChoices(cs: seq<Wire.TemplateChoice>, r: Renaming): seq<Wire.TemplateChoice> {
    if cs == [] then [] else [RenameChoice(cs[0], r)] + RenameChoices(cs[1..], r)
  }

  ghost function RenameTemplate(t: Wire.DefTemplate, r: Renaming): Wire.DefTemplate {
    Wire.DefTemplate(
      r.dotted(t.tycon), r.str(t.param), RenameChoices(t.choices, r),
      if t.key.NoKey? then t.key else Wire.DefKey(RenameType(t.key.ty, r)), RenameIds(t.implements, r))
  }

  ghost function RenameTemplates(ts: seq<Wire.DefTemplate>, r: Renaming): (rs: seq<Wire.DefTemplate>)
    ensures |rs| == |ts| && forall i :: 0 <= i < |ts| ==> rs[i] == RenameTemplate(ts[i], r)
  {
    if ts == [] then [] else [RenameTemplate(ts[0], r)] + RenameTemplates(ts[1..], r)
  }

  ghost function RenameCons(c: Wire.DataCons, r: Renaming): Wire.DataCons {
    match c
    case ConsRecord(fields) => Wire.ConsRecord(RenameFields(fields, r))
    case ConsVariant(fields) => Wire.ConsVariant(RenameFields(fields, r))
    case ConsEnum(constructors) => Wire.ConsEnum(RenameIndices(constructors, r.str))
    case _ => c
  }

  ghost function RenameDataType(d: Wire.DefDataType, r: Renaming): Wire.DefDataType {
    Wire.DefDataType(r.dotted(d.name), RenameTypeVars(d.params, r), d.serializable, RenameCons(d.cons, r))
  }

  ghost function RenameDataTypes(ds: seq<Wire.DefDataType>, r: Renaming): seq<Wire.DefDataType> {
    if ds == [] then [] else [RenameDataType(ds[0], r)] + RenameDataTypes(ds[1..], r)
  }

  ghost function RenameSynonyms(ss: seq<Wire.DefTypeSyn>, r: Renaming): seq<Wire.DefTypeSyn> {
    if ss == [] then [] else
      [Wire.DefTypeSyn(r.dotted(ss[0].name), RenameTypeVars(ss[0].params, r), RenameType(ss[0].ty, r))]
      + RenameSynonyms(ss[1..], r)
  }

  ghost function RenameMethods(ms: seq<Wire.InterfaceMethod>, r: Renaming): seq<Wire.InterfaceMethod> {
    if ms == [] then [] else
      [Wire.InterfaceMethod(r.str(ms[0].name), RenameType(ms[0].ty, r))] + RenameMethods(ms[1..], r)
  }

  ghost function RenameInterface(i: Wire.DefInterface, r: Renaming): Wire.DefInterface {
    Wire.DefInterface(
      r.dotted(i.tycon), r.str(i.param), RenameMethods(i.methods, r), RenameChoices(i.choices, r),
      RenameType(i.view, r), RenameIds(i.requires_, r))
  }

  ghost function RenameInterfaces(xs: seq<Wire.DefInterface>, r: Renaming): seq<Wire.DefInterface> {
    if xs == [] then [] else [RenameInterface(xs[0], r)] + RenameInterfaces(xs[1..], r)
  }

  ghost function RenameExceptions(xs: seq<Wire.DefException>, r: Renaming): seq<Wire.DefException> {
    if xs == [] then [] else [Wire.DefException(r.dotted(xs[0].name))] + RenameExceptions(xs[1..], r)
  }

  ghost function RenameModule(m: Wire.Module, r: Renaming): Wire.Module {
    Wire.Module(
      r.dotted(m.name), m.flags, RenameSynonyms(m.synonyms, r), RenameDataTypes(m.dataTypes, r),
      RenameTemplates(m.templates, r), RenameInterfaces(m.interfaces, r), RenameExceptions(m.exceptions, r))
  }

  ghost function RenameModules(ms: seq<Wire.Module>, r: Renaming): seq<Wire.Module> {
    if ms == [] then [] else [RenameModule(ms[0], r)] + RenameModules(ms[1..], r)
  }

  /** The renaming does not identify a template's dotted-name index with that of another data type. */
  ghost predicate KeepsTemplates(m: Wire.Module, r: Renaming) {
    forall t, d :: t in m.templates && d in m.dataTypes && r.dotted(t.tycon) == r.dotted(d.name) ==>
      t.tycon == d.name
  }

  /** What every lemma below assumes of the two layouts. */
  ghost predicate SamePackage(p: Wire.Package, q: Wire.Package, r: Renaming) {
    Represents(p, q, r) && Wire.Acyclic(p) && Wire.Acyclic(q)
  }

  lemma ChoiceIndependent(c: Wire.TemplateChoice, p: Wire.Package, q: Wire.Package, r: Renaming, path: Path)
    requires SamePackage(p, q, r) && ConvertChoice(c, p, path).Success?
    ensures ConvertChoice(RenameChoice(c, r), q, path) == ConvertChoice(c, p, path)
  {
    hide ConvertType, RenameType;
    TypeIndependent(c.argBinder.ty, p, q, r);
    TypeIndependent(c.retType, p, q, r);
  }

  lemma {:induction false} ChoicesIndependent(
    cs: seq<Wire.TemplateChoice>, p: Wire.Package, q: Wire.Package, r: Renaming, path: Path)
    requires SamePackage(p, q, r) && ConvertChoices(cs, p, path).Success?
    ensures ConvertChoices(RenameChoices(cs, r), q, path) == ConvertChoices(cs, p, path)
  {
    hide ConvertChoice, RenameChoice, Represents, Wire.Acyclic;
    if cs != [] {
      ChoiceIndependent(cs[0], p, q, r, path);
      ChoicesIndependent(cs[1..], p, q, r, path);
    }
  }

  lemma TemplateIndependent(
    t: Wire.DefTemplate, p: Wire.Package, q: Wire.Package, r: Renaming, name: string, path: Path,
    fields: seq<DamlField>, serializable: bool)
    requires SamePackage(p, q, r) && BuildTemplate(t, name, path, fields, p, serializable).Success?
    ensures BuildTemplate(RenameTemplate(t, r), name, path, fields, q, serializable)
         == BuildTemplate(t, name, path, fields, p, serializable)
  {
    hide ConvertType, RenameType, ConvertChoices, RenameChoices, ConvertQualifiedIds, RenameIds;
    ChoicesIndependent(t.choices, p, q, r, path);
    IdsIndependent(t.implements, p, q, r);
    if t.key.DefKey? {
      TypeIndependent(t.key.ty, p, q, r);
    }
  }

  /** Which template a data type is paired with, under a renaming that keeps templates apart. */
  lemma RenamedTycon(t: Wire.DefTemplate, r: Renaming)
    ensures RenameTemplate(t, r).tycon == r.dotted(t.tycon)
  {
  }

  lemma {:induction false} TemplateByTyconIndependent(ts: seq<Wire.DefTemplate>, r: Renaming, name: int)
    requires forall t :: t in ts && r.dotted(t.tycon) == r.dotted(name) ==> t.tycon == name
    ensures r.dotted(name) in TemplateByTycon(RenameTemplates(ts, r)) <==> name in TemplateByTycon(ts)
    ensures name in TemplateByTycon(ts) ==>
      TemplateByTycon(RenameTemplates(ts, r))[r.dotted(name)] == RenameTemplate(TemplateByTycon(ts)[name], r)
  {
    hide RenameTemplate, RenameTemplates;
    if ts == [] {
      assert RenameTemplates(ts, r) == [];
    } else {
      var init, last := ts[..|ts| - 1], ts[|ts| - 1];
      assert RenameTemplate(last, r).tycon == r.dotted(last.tycon) by { RenamedTycon(last, r); }
      var renamed := RenameTemplates(ts, r);
      assert renamed[..|renamed| - 1] == RenameTemplates(init, r);
      TemplateByTyconIndependent(init, r, name);
    }
  }

  lemma BuildDataTypeIndependent(
    d: Wire.DefDataType, p: Wire.Package, q: Wire.Package, r: Renaming, name: string, path: Path,
    ts: seq<Wire.DefTemplate>)
    requires SamePackage(p, q, r)
    requires forall t :: t in ts && r.dotted(t.tycon) == r.dotted(d.name) ==> t.tycon == d.name
    requires BuildDataType(d, name, p, path, TemplateByTycon(ts)).Success?
    ensures BuildDataType(RenameDataType(d, r), name, q, path, TemplateByTycon(RenameTemplates(ts, r)))
         == BuildDataType(d, name, p, path, TemplateByTycon(ts))
  {
    hide ConvertFields, RenameFields, ConvertTypeVars, RenameTypeVars, BuildTemplate, RenameTemplate,
      TemplateByTycon, RenameTemplates, Wire.Acyclic;
    AcyclicParts(p, q, r);
    TypeVarsIndependent(d.params, p, q, r);
    match d.cons
    case ConsRecord(fields) =>
      FieldsIndependent(fields, p, q, r);
      TemplateByTyconIndependent(ts, r, d.name);
      if d.name in TemplateByTycon(ts) {
        TemplateIndependent(
          TemplateByTycon(ts)[d.name], p, q, r, name, path, ConvertFields(fields, p).value, d.serializable);
      }
    case ConsVariant(fields) => FieldsIndependent(fields, p, q, r);
    case ConsEnum(constructors) => StringsIndependent(constructors, p, q, r);
    case _ =>
  }

  lemma AcyclicParts(p: Wire.Package, q: Wire.Package, r: Renaming)
    requires SamePackage(p, q, r)
    ensures Wire.AcyclicKinds(p.kinds) && Wire.AcyclicKinds(q.kinds)
  {
  }

  lemma {:induction false} DataTypesIndependent(
    ds: seq<Wire.DefDataType>, p: Wire.Package, q: Wire.Package, r: Renaming, path: Path,
    ts: seq<Wire.DefTemplate>)
    requires SamePackage(p, q, r)
    requires forall t, d :: t in ts && d in ds && r.dotted(t.tycon) == r.dotted(d.name) ==> t.tycon == d.name
    requires ConvertDataTypes(ds, p, path, TemplateByTycon(ts)).Success?
    ensures ConvertDataTypes(RenameDataTypes(ds, r), q, path, TemplateByTycon(RenameTemplates(ts, r)))
         == ConvertDataTypes(ds, p, path, TemplateByTycon(ts))
  {
    hide BuildDataType, TemplateByTycon, RenameTemplates, Wire.Acyclic;
    if ds != [] {
      DottedIndependent(ds[0].name, p, q, r);
      var segments := ResolveDotted(ds[0].name, p).value;
      var (last, prefix) := SplitLast(segments, MissingRequiredField).value;
      BuildDataTypeIndependent(ds[0], p, q, r, last, path + prefix, ts);
      DataTypesIndependent(ds[1..], p, q, r, path, ts);
    }
  }

  lemma {:induction false} SynonymsIndependent(
    ss: seq<Wire.DefTypeSyn>, p: Wire.Package, q: Wire.Package, r: Renaming, path: Path)
    requires SamePackage(p, q, r) && ConvertSynonyms(ss, p, path).Success?
    ensures ConvertSynonyms(RenameSynonyms(ss, r), q, path) == ConvertSynonyms(ss, p, path)
  {
    hide ConvertType, RenameType, ConvertTypeVars, RenameTypeVars, ResolveDotted;
    if ss != [] {
      DottedIndependent(ss[0].name, p, q, r);
      TypeVarsIndependent(ss[0].params, p, q, r);
      TypeIndependent(ss[0].ty, p, q, r);
      SynonymsIndependent(ss[1..], p, q, r, path);
    }
  }

  lemma {:induction false} MethodsIndependent(
    ms: seq<Wire.InterfaceMethod>, p: Wire.Package, q: Wire.Package, r: Renaming)
    requires SamePackage(p, q, r) && ConvertMethods(ms, p).Success?
    ensures ConvertMethods(RenameMethods(ms, r), q) == ConvertMethods(ms, p)
  {
    hide ConvertType, RenameType;
    if ms != [] {
      TypeIndependent(ms[0].ty, p, q, r);
      MethodsIndependent(ms[1..], p, q, r);
    }
  }

  lemma InterfaceIndependent(i: Wire.DefInterface, p: Wire.Package, q: Wire.Package, r: Renaming, path: Path)
    requires SamePackage(p, q, r) && ConvertInterface(i, p, path).Success?
    ensures ConvertInterface(RenameInterface(i, r), q, path) == ConvertInterface(i, p, path)
  {
    hide ConvertType, RenameType, ConvertMethods, RenameMethods, ConvertChoices, RenameChoices,
      ConvertQualifiedIds, RenameIds, ResolveDotted;
    DottedIndependent(i.tycon, p, q, r);
    var (_, prefix) := SplitLast(ResolveDotted(i.tycon, p).value, InternalError).value;
    MethodsIndependent(i.methods, p, q, r);
    ChoicesIndependent(i.choices, p, q, r, path + prefix);
    TypeIndependent(i.view, p, q, r);
    IdsIndependent(i.requires_, p, q, r);
  }

  lemma {:induction false} InterfacesIndependent(
    xs: seq<Wire.DefInterface>, p: Wire.Package, q: Wire.Package, r: Renaming, path: Path)
    requires SamePackage(p, q, r) && ConvertInterfaces(xs, p, path).Success?
    ensures ConvertInterfaces(RenameInterfaces(xs, r), q, path) == ConvertInterfaces(xs, p, path)
  {
    hide ConvertInterface, RenameInterface, Represents, Wire.Acyclic;
    if xs != [] {
      InterfaceIndependent(xs[0], p, q, r, path);
      InterfacesIndependent(xs[1..], p, q, r, path);
    }
  }

  lemma {:induction false} ExceptionsIndependent(
    xs: seq<Wire.DefException>, p: Wire.Package, q: Wire.Package, r: Renaming, path: Path)
    requires SamePackage(p, q, r) && ConvertExceptions(xs, p, path).Success?
    ensures ConvertExceptions(RenameExceptions(xs, r), q, path) == ConvertExceptions(xs, p, path)
  {
    hide ResolveDotted;
    if xs != [] {
      DottedIndependent(xs[0].name, p, q, r);
      ExceptionsIndependent(xs[1..], p, q, r, path);
    }
  }

  lemma ModuleIndependent(m: Wire.Module, p: Wire.Package, q: Wire.Package, r: Renaming)
    requires SamePackage(p, q, r) && KeepsTemplates(m, r) && ConvertModule(m, p).Success?
    ensures ConvertModule(RenameModule(m, r), q) == ConvertModule(m, p)
  {
    hide ConvertDataTypes, ConvertSynonyms, ConvertInterfaces, ConvertExceptions, RenameDataTypes, RenameSynonyms,
      RenameInterfaces, RenameExceptions, RenameTemplates, TemplateByTycon, ResolveDotted, Represents, Wire.Acyclic,
      InterfacesByName, ExceptionsByName;
    DottedIndependent(m.name, p, q, r);
    var path := ResolveDotted(m.name, p).value;
    DataTypesIndependent(m.dataTypes, p, q, r, path, m.templates);
    SynonymsIndependent(m.synonyms, p, q, r, path);
    InterfacesIndependent(m.interfaces, p, q, r, path);
    ExceptionsIndependent(m.exceptions, p, q, r, path);
  }

  /** A package that converts, laid out again without merging template names, builds the same tree. */
  lemma {:induction false} ModulesIndependent(ms: seq<Wire.Module>, p: Wire.Package, q: Wire.Package, r: Renaming)
    requires SamePackage(p, q, r) && ConvertModules(ms, p).Success?
    requires forall m :: m in ms ==> KeepsTemplates(m, r)
    ensures ConvertModules(RenameModules(ms, r), q) == ConvertModules(ms, p)
  {
    hide ConvertModule, RenameModule, Represents, Wire.Acyclic, KeepsTemplates;
    if ms != [] {
      ModuleIndependent(ms[0], p, q, r);
      ModulesIndependent(ms[1..], p, q, r);
    }
  }

  /** A record that no template wraps keeps converting to the same thing exactly when the renaming does not
      give it the index of some template. */
  lemma MergedTemplateName(
    d: Wire.DefDataType, p: Wire.Package, q: Wire.Package, r: Renaming, name: string, path: Path,
    ts: seq<Wire.DefTemplate>)
    requires SamePackage(p, q, r) && d.cons.ConsRecord? && d.name !in TemplateByTycon(ts)
    requires BuildDataType(d, name, p, path, TemplateByTycon(ts)).Success?
    ensures BuildDataType(RenameDataType(d, r), name, q, path, TemplateByTycon(RenameTemplates(ts, r)))
         == BuildDataType(d, name, p, path, TemplateByTycon(ts))
        <==> forall t :: t in ts ==> r.dotted(t.tycon) != r.dotted(d.name)
  {
    hide BuildDataType, TemplateByTycon, RenameTemplates, RenameCons, RenameFields, RenameTypeVars, Represents,
      Wire.Acyclic;
    RecordOrTemplate(d, p, name, path, TemplateByTycon(ts));
    if t :| t in ts && r.dotted(t.tycon) == r.dotted(d.name) {
      var i :| 0 <= i < |ts| && ts[i] == t;
      assert RenameTemplates(ts, r)[i] == RenameTemplate(t, r);
      assert RenameTemplate(t, r) in RenameTemplates(ts, r);
      RenamedRecord(d, r);
      if BuildDataType(RenameDataType(d, r), name, q, path, TemplateByTycon(RenameTemplates(ts, r))).Success? {
        RecordOrTemplate(RenameDataType(d, r), q, name, path, TemplateByTycon(RenameTemplates(ts, r)));
      }
    } else {
      BuildDataTypeIndependent(d, p, q, r, name, path, ts);
    }
  }

  lemma RenamedRecord(d: Wire.DefDataType, r: Renaming)
    requires d.cons.ConsRecord?
    ensures RenameDataType(d, r).cons.ConsRecord? && RenameDataType(d, r).name == r.dotted(d.name)
  {
  }

  lemma RecordOrTemplate(
    d: Wire.DefDataType, p: Wire.Package, name: string, path: Path, templates: map<int, Wire.DefTemplate>)
    requires Wire.Acyclic(p) && d.cons.ConsRecord? && BuildDataType(d, name, p, path, templates).Success?
    ensures var data := BuildDataType(d, name, p, path, templates).value;
      data.Some? && if d.name in templates then data.value.Template? else data.value.Record?
  {
    hide ConvertFields, ConvertTypeVars, BuildTemplate, Wire.Acyclic;
  }

  // ---------- Appended entries ----------

  ghost function Identity(): Renaming {
    Renaming(i => i, i => i, i => i, i => i)
  }

  lemma {:induction false} SameIndices(xs: seq<int>)
    ensures RenameIndices(xs, Identity().str) == xs
  {
    if xs != [] {
      SameIndices(xs[1..]);
    }
  }

  lemma {:induction false} SameKind(k: Wire.Kind)
    ensures RenameKind(k, Identity()) == k
    decreases k
  {
    match k
    case KindArrow(params, result) =>
      SameKinds(params);
      SameKind(result);
    case _ =>
  }

  lemma {:induction false} SameKinds(ks: seq<Wire.Kind>)
    ensures RenameKinds(ks, Identity()) == ks
    decreases ks
  {
    if ks != [] {
      SameKind(ks[0]);
      SameKinds(ks[1..]);
    }
  }

  lemma {:induction false} SameTypeVars(vs: seq<Wire.TypeVarWithKind>)
    ensures RenameTypeVars(vs, Identity()) == vs
  {
    if vs != [] {
      SameKind(vs[0].kind);
      SameTypeVars(vs[1..]);
    }
  }

  lemma {:induction false} SameType(t: Wire.Type)
    ensures RenameType(t, Identity()) == t
    decreases t
  {
    match t
    case TypeVar(_, args) => SameTypes(args);
    case TypeCon(_, args) => SameTypes(args);
    case TypeSyn(_, args) => SameTypes(args);
    case TypeBuiltin(_, args) => SameTypes(args);
    case TypeForall(vars, body) =>
      SameTypeVars(vars);
      SameType(body);
    case TypeStruct(fields) => SameFields(fields);
    case _ =>
  }

  lemma {:induction false} SameTypes(ts: seq<Wire.Type>)
    ensures RenameTypes(ts, Identity()) == ts
    decreases ts
  {
    if ts != [] {
      SameType(ts[0]);
      SameTypes(ts[1..]);
    }
  }

  lemma {:induction false} SameFields(fs: seq<Wire.FieldWithType>)
    ensures RenameFields(fs, Identity()) == fs
    decreases fs
  {
    if fs != [] {
      assert fs[0].ty < fs[0];
      SameType(fs[0].ty);
      SameFields(fs[1..]);
    }
  }

  lemma SameId(id: Wire.QualifiedId)
    ensures RenameId(id, Identity()) == id
  {
  }

  lemma {:induction false} SameIds(xs: seq<Wire.QualifiedId>)
    ensures RenameIds(xs, Identity()) == xs
  {
    if xs != [] {
      SameId(xs[0]);
      SameIds(xs[1..]);
    }
  }

  lemma SameChoice(c: Wire.TemplateChoice)
    ensures RenameChoice(c, Identity()) == c
  {
    if c.argBinder.VarWithType? {
      SameType(c.argBinder.ty);
    }
    SameType(c.retType);
  }

  lemma {:induction false} SameChoices(xs: seq<Wire.TemplateChoice>)
    ensures RenameChoices(xs, Identity()) == xs
  {
    if xs != [] {
      SameChoice(xs[0]);
      SameChoices(xs[1..]);
    }
  }

  lemma SameTemplate(t: Wire.DefTemplate)
    ensures RenameTemplate(t, Identity()) == t
  {
    SameChoices(t.choices);
    SameIds(t.implements);
    if t.key.DefKey? {
      SameType(t.key.ty);
    }
  }

  lemma SameTemplates(ts: seq<Wire.DefTemplate>)
    ensures RenameTemplates(ts, Identity()) == ts
  {
    hide RenameTemplate, RenameTemplates;
    forall i | 0 <= i < |ts|
      ensures RenameTemplates(ts, Identity())[i] == ts[i]
    {
      SameTemplate(ts[i]);
    }
  }

  lemma SameDataType(d: Wire.DefDataType)
    ensures RenameDataType(d, Identity()) == d
  {
    SameTypeVars(d.params);
    match d.cons
    case ConsRecord(fields) => SameFields(fields);
    case ConsVariant(fields) => SameFields(fields);
    case ConsEnum(constructors) => SameIndices(constructors);
    case _ =>
  }

  lemma {:induction false} SameDataTypes(xs: seq<Wire.DefDataType>)
    ensures RenameDataTypes(xs, Identity()) == xs
  {
    if xs != [] {
      SameDataType(xs[0]);
      SameDataTypes(xs[1..]);
    }
  }

  lemma {:induction false} SameSynonyms(xs: seq<Wire.DefTypeSyn>)
    ensures RenameSynonyms(xs, Identity()) == xs
  {
    if xs != [] {
      SameTypeVars(xs[0].params);
      SameType(xs[0].ty);
      SameSynonyms(xs[1..]);
    }
  }

  lemma {:induction false} SameMethods(xs: seq<Wire.InterfaceMethod>)
    ensures RenameMethods(xs, Identity()) == xs
  {
    if xs != [] {
      SameType(xs[0].ty);
      SameMethods(xs[1..]);
    }
  }

  lemma SameInterface(i: Wire.DefInterface)
    ensures RenameInterface(i, Identity()) == i
  {
    SameMethods(i.methods);
    SameChoices(i.choices);
    SameType(i.view);
    SameIds(i.requires_);
  }

  lemma {:induction false} SameInterfaces(xs: seq<Wire.DefInterface>)
    ensures RenameInterfaces(xs, Identity()) == xs
  {
    if xs != [] {
      SameInterface(xs[0]);
      SameInterfaces(xs[1..]);
    }
  }

  lemma {:induction false} SameExceptions(xs: seq<Wire.DefException>)
    ensures RenameExceptions(xs, Identity()) == xs
  {
    if xs != [] {
      SameExceptions(xs[1..]);
    }
  }

  lemma {:induction false} SameModules(ms: seq<Wire.Module>)
    ensures RenameModules(ms, Identity()) == ms
  {
    if ms != [] {
      var m := ms[0];
      SameSynonyms(m.synonyms);
      SameDataTypes(m.dataTypes);
      SameTemplates(m.templates);
      SameInterfaces(m.interfaces);
      SameExceptions(m.exceptions);
      SameModules(ms[1..]);
    }
  }

  /** `q` has the tables of `p` with entries appended. */
  ghost predicate Appended(p: Wire.Package, q: Wire.Package) {
    && q.packageId == p.packageId && q.name == p.name && q.pkgNames == p.pkgNames
    && p.strings <= q.strings && p.dottedNames <= q.dottedNames && p.types <= q.types && p.kinds <= q.kinds
  }

  lemma AppendedRepresents(p: Wire.Package, q: Wire.Package)
    requires Appended(p, q)
    ensures Represents(p, q, Identity())
  {
    hide RenameType, RenameKind, RenameIndices;
    forall xs {
      SameIndices(xs);
    }
    forall x {
      SameType(x);
    }
    forall k {
      SameKind(k);
    }
    assert forall i :: 0 <= i < |p.strings| ==> q.strings[i] == p.strings[i];
    assert forall i :: 0 <= i < |p.dottedNames| ==> q.dottedNames[i] == p.dottedNames[i];
    assert forall i :: 0 <= i < |p.types| ==> q.types[i] == p.types[i];
    assert forall i :: 0 <= i < |p.kinds| ==> q.kinds[i] == p.kinds[i];
  }

  /** Entries appended to the tables change nothing: modules that convert still convert to the same. */
  lemma AppendedEntriesUnused(ms: seq<Wire.Module>, p: Wire.Package, q: Wire.Package)
    requires Wire.Acyclic(p) && Wire.Acyclic(q) && Appended(p, q) && ConvertModules(ms, p).Success?
    ensures ConvertModules(ms, q) == ConvertModules(ms, p)
  {
    hide RenameModules, Represents, ConvertModules, Wire.Acyclic, Appended;
    AppendedRepresents(p, q);
    SameModules(ms);
    ModulesIndependent(ms, p, q, Identity());
  }
}
