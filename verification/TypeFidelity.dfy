/** What a wire type means, said as a relation: which element type stands for it, constructor by constructor,
    with strings read from the table and interned nodes followed. Conversion succeeds exactly on the types that
    mean something, with what they mean. */
module TypeFidelity {
  import opened Wrappers
  import opened Element
  import opened Interned
  import opened TypeConversion
  import opened Occurrences
  import Wire

  // ---------- Strings and names ----------

  /** `s` is the string the table holds at `index`. */
  predicate Spells(index: int, s: string, pkg: Wire.Package) {
    0 <= index < |pkg.strings| && pkg.strings[index] == s
  }

  predicate SpellsAll(indices: seq<int>, path: Path, pkg: Wire.Package) {
    |indices| == |path| && forall i :: 0 <= i < |path| ==> Spells(indices[i], path[i], pkg)
  }

  predicate SpellsDotted(index: int, path: Path, pkg: Wire.Package) {
    0 <= index < |pkg.dottedNames| && SpellsAll(pkg.dottedNames[index], path, pkg)
  }

  predicate SamePackageRef(ref: Wire.PackageRef, id: string, pkg: Wire.Package) {
    match ref
    case SelfPackage => id == pkg.packageId
    case ImportedPackage(name) => Spells(name, id, pkg)
    case _ => false
  }

  /** The module's segments and those of the dotted name, of which there is at least one, are together the path
      and the name; a package of the archive is named, any other is not. */
  predicate SameName(id: Wire.QualifiedId, n: DamlTyConName, pkg: Wire.Package) {
    && id.QualifiedId? && id.mod.ModuleId? && n.Absolute?
    && SamePackageRef(id.mod.package, n.packageId, pkg)
    && (if n.packageId == pkg.packageId then n.packageName == pkg.name
        else if n.packageId in pkg.pkgNames then n.packageName == pkg.pkgNames[n.packageId]
        else n.packageName == "")
    && 0 <= id.mod.name < |pkg.dottedNames| && 0 <= id.name < |pkg.dottedNames|
    && pkg.dottedNames[id.name] != []
    && SpellsAll(pkg.dottedNames[id.mod.name] + pkg.dottedNames[id.name], n.modulePath + [n.dataName], pkg)
  }

  predicate SameNames(ids: seq<Wire.QualifiedId>, ns: seq<DamlTyConName>, pkg: Wire.Package) {
    |ids| == |ns| && forall i :: 0 <= i < |ids| ==> SameName(ids[i], ns[i], pkg)
  }

  // ---------- Kinds ----------

  ghost predicate SameKind(k: Wire.Kind, g: DamlKind, kinds: seq<Wire.Kind>)
    requires Wire.AcyclicKinds(kinds)
    decreases Wire.KindBound(k, Wire.KindRank(kinds)), k
  {
    match k
    case KindUnset => false
    case KindStar => g == Star
    case KindNat => g == KNat
    case KindArrow(params, result) =>
      g.KArrow? && SameKinds(params, g.params, kinds) && SameKind(result, g.result, kinds)
    case KindInterned(idx) => 0 <= idx < |kinds| && SameKind(kinds[idx], g, kinds)
  }

  ghost predicate SameKinds(ks: seq<Wire.Kind>, gs: seq<DamlKind>, kinds: seq<Wire.Kind>)
    requires Wire.AcyclicKinds(kinds)
    decreases Wire.KindsBound(ks, Wire.KindRank(kinds)), ks
  {
    if ks == [] then gs == []
    else gs != [] && SameKind(ks[0], gs[0], kinds) && SameKinds(ks[1..], gs[1..], kinds)
  }

  ghost predicate SameTypeVar(v: Wire.TypeVarWithKind, w: DamlTypeVarWithKind, pkg: Wire.Package)
    requires Wire.AcyclicKinds(pkg.kinds)
  {
    Spells(v.name, w.name, pkg) && SameKind(v.kind, w.kind, pkg.kinds)
  }

  ghost predicate SameTypeVars(vs: seq<Wire.TypeVarWithKind>, ws: seq<DamlTypeVarWithKind>, pkg: Wire.Package)
    requires Wire.AcyclicKinds(pkg.kinds)
  {
    |vs| == |ws| && forall i :: 0 <= i < |vs| ==> SameTypeVar(vs[i], ws[i], pkg)
  }

  // ---------- Types ----------

  /** A builtin applied to arguments. A contract id is of its argument, if it has one, and has no second; the
      builtins without arguments in the element layer lose whatever they are applied to. */
  predicate SameBuiltin(b: Wire.BuiltinType, args: seq<DamlType>, g: DamlType) {
    match b
    case Unit => g.TUnit?
    case Bool => g.TBool?
    case Int64 => g.TInt64?
    case Date => g.TDate?
    case Timestamp => g.TTimestamp?
    case Party => g.TParty?
    case Text => g.TText?
    case Numeric => g.TNumeric? && g.args == args
    case Optional => g.TOptional? && g.args == args
    case List => g.TList? && g.args == args
    case Genmap => g.TGenMap? && g.args == args
    case Textmap => g.TTextMap? && g.args == args
    case ContractId => g.TContractId? && args == if g.inner.None? then [] else [g.inner.value]
    case Any => g.TAny?
    case AnyException => g.TAnyException?
    case TypeRep => g.TTypeRep?
    case Arrow => g.TArrow?
    case Update => g.TUpdate?
    case FailureCategory => g.TFailureCategory?
    case Bignumeric => g.TBignumeric?
    case RoundingMode => g.TRoundingMode?
    case UnknownBuiltinType(_) => false
  }

  /** `g` is what `t` means. */
  ghost predicate SameType(t: Wire.Type, g: DamlType, pkg: Wire.Package)
    requires Wire.Acyclic(pkg)
    decreases Wire.TypeBound(t, Wire.TypeRank(pkg.types)), t
  {
    match t
    case TypeUnset => false
    case TypeVar(name, args) => g.TVar? && Spells(name, g.name, pkg) && SameTypes(args, g.args, pkg)
    case TypeCon(id, args) => g.TTyCon? && SameName(id, g.tycon, pkg) && SameTypes(args, g.args, pkg)
    case TypeSyn(id, args) => g.TSyn? && SameName(id, g.tysyn, pkg) && SameTypes(args, g.args, pkg)
    case TypeBuiltin(b, args) => exists gs :: SameTypes(args, gs, pkg) && SameBuiltin(b, gs, g)
    case TypeForall(vars, body) => g.TForall? && SameTypeVars(vars, g.vars, pkg) && SameType(body, g.body, pkg)
    case TypeStruct(fields) => g.TStruct? && SameFields(fields, g.fields, pkg)
    case TypeNat(n) => 0 <= n <= 37 && g == TNat(n)
    case TypeInterned(idx) => 0 <= idx < |pkg.types| && SameType(pkg.types[idx], g, pkg)
    case TypeApp => false
  }

  ghost predicate SameTypes(ts: seq<Wire.Type>, gs: seq<DamlType>, pkg: Wire.Package)
    requires Wire.Acyclic(pkg)
    decreases Wire.TypesBound(ts, Wire.TypeRank(pkg.types)), ts
  {
    if ts == [] then gs == []
    else gs != [] && SameType(ts[0], gs[0], pkg) && SameTypes(ts[1..], gs[1..], pkg)
  }

  ghost predicate SameFields(fs: seq<Wire.FieldWithType>, gs: seq<DamlField>, pkg: Wire.Package)
    requires Wire.Acyclic(pkg)
    decreases Wire.FieldsBound(fs, Wire.TypeRank(pkg.types)), fs
  {
    if fs == [] then gs == []
    else
      assert fs[0].ty < fs[0];
      && gs != [] && Spells(fs[0].name, gs[0].name, pkg) && SameType(fs[0].ty, gs[0].ty, pkg)
      && SameFields(fs[1..], gs[1..], pkg)
  }

  // ---------- Conversion of names ----------

  lemma StringMeans(index: int, s: string, pkg: Wire.Package)
    ensures ResolveString(index, pkg) == Success(s) <==> Spells(index, s, pkg)
  {
  }

  lemma {:induction false} StringsMean(indices: seq<int>, path: Path, pkg: Wire.Package)
    ensures ResolveStrings(indices, pkg) == Success(path) <==> SpellsAll(indices, path, pkg)
  {
    if indices != [] {
      if path != [] {
        StringsMean(indices[1..], path[1..], pkg);
        assert path == [path[0]] + path[1..];
        assert forall i :: 0 < i < |indices| ==> indices[i] == indices[1..][i - 1];
        assert forall i :: 0 < i < |path| ==> path[i] == path[1..][i - 1];
      }
    }
  }

  lemma DottedMeans(index: int, path: Path, pkg: Wire.Package)
    ensures ResolveDotted(index, pkg) == Success(path) <==> SpellsDotted(index, path, pkg)
  {
    hide ResolveStrings, SpellsAll;
    if 0 <= index < |pkg.dottedNames| {
      StringsMean(pkg.dottedNames[index], path, pkg);
    }
  }

  lemma PackageRefMeans(ref: Wire.PackageRef, id: string, pkg: Wire.Package)
    ensures ResolvePackageRef(ref, pkg) == Success(id) <==> SamePackageRef(ref, id, pkg)
  {
  }

  lemma SpellsBoth(a: seq<int>, b: seq<int>, p: Path, q: Path, pkg: Wire.Package)
    requires |a| == |p|
    ensures SpellsAll(a + b, p + q, pkg) <==> SpellsAll(a, p, pkg) && SpellsAll(b, q, pkg)
  {
    if SpellsAll(a + b, p + q, pkg) {
      assert forall i :: 0 <= i < |p| ==> (a + b)[i] == a[i] && (p + q)[i] == p[i];
      assert forall i :: 0 <= i < |q| ==> (a + b)[|a| + i] == b[i] && (p + q)[|a| + i] == q[i];
    }
  }

  /** A name converts to what it names. */
  lemma NameConverts(id: Wire.QualifiedId, pkg: Wire.Package)
    requires ConvertQualifiedId(id, pkg).Success?
    ensures SameName(id, ConvertQualifiedId(id, pkg).value, pkg)
  {
    hide ResolveDotted, SpellsAll, ResolvePackageRef;
    var (packageId, modulePath) := ResolveModuleId(id.mod, pkg).value;
    var segments := ResolveDotted(id.name, pkg).value;
    PackageRefMeans(id.mod.package, packageId, pkg);
    DottedMeans(id.mod.name, modulePath, pkg);
    DottedMeans(id.name, segments, pkg);
    SpellsLengths(pkg.dottedNames[id.mod.name], modulePath, pkg);
    SpellsLengths(pkg.dottedNames[id.name], segments, pkg);
    SpellsBoth(pkg.dottedNames[id.mod.name], pkg.dottedNames[id.name], modulePath, segments, pkg);
    var n := ConvertQualifiedId(id, pkg).value;
    assert modulePath + segments == n.modulePath + [n.dataName];
  }

  lemma SpellsLengths(indices: seq<int>, path: Path, pkg: Wire.Package)
    requires SpellsAll(indices, path, pkg)
    ensures |indices| == |path|
  {
  }

  /** What names something converts. */
  lemma NamedConverts(id: Wire.QualifiedId, n: DamlTyConName, pkg: Wire.Package)
    requires SameName(id, n, pkg)
    ensures ConvertQualifiedId(id, pkg) == Success(n)
  {
    hide ResolveDotted, SpellsAll, ResolvePackageRef;
    var a, b := pkg.dottedNames[id.mod.name], pkg.dottedNames[id.name];
    var whole := n.modulePath + [n.dataName];
    SpellsLengths(a + b, whole, pkg);
    var p, q := whole[..|a|], whole[|a|..];
    assert whole == p + q;
    SpellsBoth(a, b, p, q, pkg);
    DottedMeans(id.mod.name, p, pkg);
    DottedMeans(id.name, q, pkg);
    PackageRefMeans(id.mod.package, n.packageId, pkg);
    assert q[|q| - 1] == n.dataName && p + q[..|q| - 1] == n.modulePath;
  }

  /** A reference converts exactly to the name it spells. */
  lemma NameMeans(id: Wire.QualifiedId, n: DamlTyConName, pkg: Wire.Package)
    ensures ConvertQualifiedId(id, pkg) == Success(n) <==> SameName(id, n, pkg)
  {
    hide SameName, ConvertQualifiedId;
    if ConvertQualifiedId(id, pkg).Success? {
      NameConverts(id, pkg);
    }
    if SameName(id, n, pkg) {
      NamedConverts(id, n, pkg);
    }
  }

  lemma {:induction false} NamesMean(ids: seq<Wire.QualifiedId>, ns: seq<DamlTyConName>, pkg: Wire.Package)
    ensures ConvertQualifiedIds(ids, pkg) == Success(ns) <==> SameNames(ids, ns, pkg)
  {
    hide ConvertQualifiedId, SameName;
    if ids != [] && ns != [] {
      NameMeans(ids[0], ns[0], pkg);
      NamesMean(ids[1..], ns[1..], pkg);
      assert ns == [ns[0]] + ns[1..];
      assert forall i :: 0 < i < |ids| ==> ids[i] == ids[1..][i - 1];
      assert forall i :: 0 < i < |ns| ==> ns[i] == ns[1..][i - 1];
    }
  }

  // ---------- Conversion of kinds ----------

  lemma {:induction false} KindMeans(k: Wire.Kind, g: DamlKind, kinds: seq<Wire.Kind>)
    requires Wire.AcyclicKinds(kinds)
    ensures ConvertKind(k, kinds) == Success(g) <==> SameKind(k, g, kinds)
    decreases Wire.KindBound(k, Wire.KindRank(kinds)), k
  {
    match k
    case KindArrow(params, result) =>
      if g.KArrow? {
        KindsMean(params, g.params, kinds);
        KindMeans(result, g.result, kinds);
      }
    case KindInterned(idx) =>
      if 0 <= idx < |kinds| {
        KindMeans(kinds[idx], g, kinds);
      }
    case _ =>
  }

  lemma {:induction false} KindsMean(ks: seq<Wire.Kind>, gs: seq<DamlKind>, kinds: seq<Wire.Kind>)
    requires Wire.AcyclicKinds(kinds)
    ensures ConvertKinds(ks, kinds) == Success(gs) <==> SameKinds(ks, gs, kinds)
    decreases Wire.KindsBound(ks, Wire.KindRank(kinds)), ks
  {
    hide ConvertKind, SameKind;
    if ks != [] && gs != [] {
      KindMeans(ks[0], gs[0], kinds);
      KindsMean(ks[1..], gs[1..], kinds);
      assert gs == [gs[0]] + gs[1..];
    }
  }

  lemma TypeVarMeans(v: Wire.TypeVarWithKind, w: DamlTypeVarWithKind, pkg: Wire.Package)
    requires Wire.AcyclicKinds(pkg.kinds)
    ensures ConvertTypeVar(v, pkg) == Success(w) <==> SameTypeVar(v, w, pkg)
  {
    hide ConvertKind, SameKind;
    KindMeans(v.kind, w.kind, pkg.kinds);
    StringMeans(v.name, w.name, pkg);
  }

  lemma {:induction false} TypeVarsMean(
    vs: seq<Wire.TypeVarWithKind>, ws: seq<DamlTypeVarWithKind>, pkg: Wire.Package)
    requires Wire.AcyclicKinds(pkg.kinds)
    ensures ConvertTypeVars(vs, pkg) == Success(ws) <==> SameTypeVars(vs, ws, pkg)
  {
    hide ConvertTypeVar, SameTypeVar;
    if vs != [] && ws != [] {
      TypeVarMeans(vs[0], ws[0], pkg);
      TypeVarsMean(vs[1..], ws[1..], pkg);
      assert ws == [ws[0]] + ws[1..];
      assert forall i :: 0 < i < |vs| ==> vs[i] == vs[1..][i - 1];
      assert forall i :: 0 < i < |ws| ==> ws[i] == ws[1..][i - 1];
    }
  }

  // ---------- Conversion of types ----------

  lemma BuiltinMeans(b: Wire.BuiltinType, args: seq<DamlType>, g: DamlType)
    requires !b.UnknownBuiltinType?
    ensures ApplyBuiltin(b, args) == Success(g) <==> SameBuiltin(b, args, g)
  {
  }

  /** Conversion of a type succeeds exactly when the type means something, and gives what it means. */
  lemma {:induction false} TypeMeans(t: Wire.Type, g: DamlType, pkg: Wire.Package)
    requires Wire.Acyclic(pkg)
    ensures ConvertType(t, pkg) == Success(g) <==> SameType(t, g, pkg)
    decreases Wire.TypeBound(t, Wire.TypeRank(pkg.types)), t
  {
    hide ResolveString, Spells, ConvertQualifiedId, SameName, ConvertTypeVars, SameTypeVars, ApplyBuiltin, SameBuiltin,
      ConvertFields, SameFields, ConvertTypes, SameTypes;
    match t
    case TypeVar(name, args) =>
      if g.TVar? {
        StringMeans(name, g.name, pkg);
        TypesMean(args, g.args, pkg);
      }
    case TypeCon(id, args) =>
      if g.TTyCon? {
        NameMeans(id, g.tycon, pkg);
        TypesMean(args, g.args, pkg);
      }
    case TypeSyn(id, args) =>
      if g.TSyn? {
        NameMeans(id, g.tysyn, pkg);
        TypesMean(args, g.args, pkg);
      }
    case TypeBuiltin(b, args) => AppliedMeans(b, args, g, pkg);
    case TypeForall(vars, body) =>
      if g.TForall? {
        TypeVarsMean(vars, g.vars, pkg);
        TypeMeans(body, g.body, pkg);
      }
    case TypeStruct(fields) =>
      if g.TStruct? {
        FieldsMean(fields, g.fields, pkg);
      }
    case TypeInterned(idx) =>
      if 0 <= idx < |pkg.types| {
        TypeMeans(pkg.types[idx], g, pkg);
      }
    case _ =>
  }

  lemma {:induction false} AppliedMeans(b: Wire.BuiltinType, args: seq<Wire.Type>, g: DamlType, pkg: Wire.Package)
    requires Wire.Acyclic(pkg)
    ensures !b.UnknownBuiltinType? && ConvertTypes(args, pkg).Success? &&
            ApplyBuiltin(b, ConvertTypes(args, pkg).value) == Success(g)
        <==> exists gs :: SameTypes(args, gs, pkg) && SameBuiltin(b, gs, g)
    decreases Wire.TypesBound(args, Wire.TypeRank(pkg.types)), args, 1
  {
    hide ApplyBuiltin, ConvertTypes, SameTypes;
    if !b.UnknownBuiltinType? {
      if ConvertTypes(args, pkg).Success? {
        var gs := ConvertTypes(args, pkg).value;
        TypesMean(args, gs, pkg);
        BuiltinMeans(b, gs, g);
      }
      forall gs | SameTypes(args, gs, pkg)
        ensures ConvertTypes(args, pkg) == Success(gs)
      {
        TypesMean(args, gs, pkg);
      }
    }
  }

  lemma {:induction false} TypesMean(ts: seq<Wire.Type>, gs: seq<DamlType>, pkg: Wire.Package)
    requires Wire.Acyclic(pkg)
    ensures ConvertTypes(ts, pkg) == Success(gs) <==> SameTypes(ts, gs, pkg)
    decreases Wire.TypesBound(ts, Wire.TypeRank(pkg.types)), ts, 0
  {
    hide ConvertType, SameType;
    if ts != [] && gs != [] {
      TypeMeans(ts[0], gs[0], pkg);
      TypesMean(ts[1..], gs[1..], pkg);
      assert gs == [gs[0]] + gs[1..];
    }
  }

  lemma {:induction false} FieldsMean(fs: seq<Wire.FieldWithType>, gs: seq<DamlField>, pkg: Wire.Package)
    requires Wire.Acyclic(pkg)
    ensures ConvertFields(fs, pkg) == Success(gs) <==> SameFields(fs, gs, pkg)
    decreases Wire.FieldsBound(fs, Wire.TypeRank(pkg.types)), fs
  {
    hide ConvertType, SameType, ResolveString, Spells;
    if fs != [] && gs != [] {
      assert fs[0].ty < fs[0];
      StringMeans(fs[0].name, gs[0].name, pkg);
      TypeMeans(fs[0].ty, gs[0].ty, pkg);
      FieldsMean(fs[1..], gs[1..], pkg);
      assert gs == [gs[0]] + gs[1..];
    }
  }

  // ---------- Which names a type holds ----------

  /** The builtins that keep what they are applied to. */
  predicate KeepsArgs(b: Wire.BuiltinType) {
    b.Numeric? || b.Optional? || b.List? || b.Genmap? || b.Textmap? || b.ContractId?
  }

  /** The type constructors a wire type is written with, where they are kept: not in what an arrow, say, is
      applied to. */
  ghost function TyCons(t: Wire.Type, pkg: Wire.Package): set<Wire.QualifiedId>
    requires Wire.Acyclic(pkg)
    decreases Wire.TypeBound(t, Wire.TypeRank(pkg.types)), t
  {
    match t
    case TypeVar(_, args) => TyConsOfAll(args, pkg)
    case TypeCon(id, args) => {id} + TyConsOfAll(args, pkg)
    case TypeSyn(_, args) => TyConsOfAll(args, pkg)
    case TypeBuiltin(b, args) => if KeepsArgs(b) then TyConsOfAll(args, pkg) else {}
    case TypeForall(_, body) => TyCons(body, pkg)
    case TypeStruct(fields) => TyConsOfFields(fields, pkg)
    case TypeInterned(idx) => if 0 <= idx < |pkg.types| then TyCons(pkg.types[idx], pkg) else {}
    case _ => {}
  }

  ghost function TyConsOfAll(ts: seq<Wire.Type>, pkg: Wire.Package): set<Wire.QualifiedId>
    requires Wire.Acyclic(pkg)
    decreases Wire.TypesBound(ts, Wire.TypeRank(pkg.types)), ts
  {
    if ts == [] then {} else TyCons(ts[0], pkg) + TyConsOfAll(ts[1..], pkg)
  }

  ghost function TyConsOfFields(fs: seq<Wire.FieldWithType>, pkg: Wire.Package): set<Wire.QualifiedId>
    requires Wire.Acyclic(pkg)
    decreases Wire.FieldsBound(fs, Wire.TypeRank(pkg.types)), fs
  {
    if fs == [] then {} else
      assert fs[0].ty < fs[0];
      TyCons(fs[0].ty, pkg) + TyConsOfFields(fs[1..], pkg)
  }

  /** The synonyms a wire type is written with, where they are kept. */
  ghost function Synonyms(t: Wire.Type, pkg: Wire.Package): set<Wire.QualifiedId>
    requires Wire.Acyclic(pkg)
    decreases Wire.TypeBound(t, Wire.TypeRank(pkg.types)), t
  {
    match t
    case TypeVar(_, args) => SynonymsOfAll(args, pkg)
    case TypeCon(_, args) => SynonymsOfAll(args, pkg)
    case TypeSyn(id, args) => {id} + SynonymsOfAll(args, pkg)
    case TypeBuiltin(b, args) => if KeepsArgs(b) then SynonymsOfAll(args, pkg) else {}
    case TypeForall(_, body) => Synonyms(body, pkg)
    case TypeStruct(fields) => SynonymsOfFields(fields, pkg)
    case TypeInterned(idx) => if 0 <= idx < |pkg.types| then Synonyms(pkg.types[idx], pkg) else {}
    case _ => {}
  }

  ghost function SynonymsOfAll(ts: seq<Wire.Type>, pkg: Wire.Package): set<Wire.QualifiedId>
    requires Wire.Acyclic(pkg)
    decreases Wire.TypesBound(ts, Wire.TypeRank(pkg.types)), ts
  {
    if ts == [] then {} else Synonyms(ts[0], pkg) + SynonymsOfAll(ts[1..], pkg)
  }

  ghost function SynonymsOfFields(fs: seq<Wire.FieldWithType>, pkg: Wire.Package): set<Wire.QualifiedId>
    requires Wire.Acyclic(pkg)
    decreases Wire.FieldsBound(fs, Wire.TypeRank(pkg.types)), fs
  {
    if fs == [] then {} else
      assert fs[0].ty < fs[0];
      Synonyms(fs[0].ty, pkg) + SynonymsOfFields(fs[1..], pkg)
  }

  /** `names` are what `ids` name. */
  ghost predicate AreNamed(names: set<DamlTyConName>, ids: set<Wire.QualifiedId>, pkg: Wire.Package) {
    forall n :: n in names <==> exists id :: id in ids && SameName(id, n, pkg)
  }

  lemma NoneNamed(pkg: Wire.Package)
    ensures AreNamed({}, {}, pkg)
  {
  }

  lemma OneNamed(id: Wire.QualifiedId, n: DamlTyConName, pkg: Wire.Package)
    requires SameName(id, n, pkg)
    ensures AreNamed({n}, {id}, pkg)
  {
    hide SameName;
    forall m | SameName(id, m, pkg)
      ensures m == n
    {
      NameMeans(id, m, pkg);
      NameMeans(id, n, pkg);
    }
  }

  lemma BothNamed(
    names: set<DamlTyConName>, ids: set<Wire.QualifiedId>, names': set<DamlTyConName>, ids': set<Wire.QualifiedId>,
    pkg: Wire.Package)
    requires AreNamed(names, ids, pkg) && AreNamed(names', ids', pkg)
    ensures AreNamed(names + names', ids + ids', pkg)
  {
    hide SameName;
    forall n
      ensures n in names + names' <==> exists id :: id in ids + ids' && SameName(id, n, pkg)
    {
      if n in names {
        var id :| id in ids && SameName(id, n, pkg);
        assert id in ids + ids';
      }
      if n in names' {
        var id :| id in ids' && SameName(id, n, pkg);
        assert id in ids + ids';
      }
    }
  }

  /** A converted type holds exactly the names of the type constructors, and of the synonyms, that the wire type
      is written with where they are kept. */
  lemma {:induction false} TypeNames(t: Wire.Type, g: DamlType, pkg: Wire.Package)
    requires Wire.Acyclic(pkg) && SameType(t, g, pkg)
    ensures AreNamed(Names(g), TyCons(t, pkg), pkg) && AreNamed(SynonymNames(g), Synonyms(t, pkg), pkg)
    decreases Wire.TypeBound(t, Wire.TypeRank(pkg.types)), t
  {
    hide SameName, Spells, AreNamed, SameTypeVars, SameTypes, SameFields, SameBuiltin, TyConsOfAll, SynonymsOfAll,
      TyConsOfFields, SynonymsOfFields, NamesOfAll, SynonymNamesOfAll, NamesOfFields, SynonymNamesOfFields, KeepsArgs;
    NoneNamed(pkg);
    match t
    case TypeVar(_, args) => TypesNames(args, g.args, pkg);
    case TypeCon(id, args) =>
      TypesNames(args, g.args, pkg);
      OneNamed(id, g.tycon, pkg);
      BothNamed({g.tycon}, {id}, NamesOfAll(g.args), TyConsOfAll(args, pkg), pkg);
    case TypeSyn(id, args) =>
      TypesNames(args, g.args, pkg);
      OneNamed(id, g.tysyn, pkg);
      BothNamed({g.tysyn}, {id}, SynonymNamesOfAll(g.args), SynonymsOfAll(args, pkg), pkg);
    case TypeBuiltin(b, args) =>
      var gs :| SameTypes(args, gs, pkg) && SameBuiltin(b, gs, g);
      TypesNames(args, gs, pkg);
      BuiltinNames(b, gs, g);
    case TypeForall(_, body) => TypeNames(body, g.body, pkg);
    case TypeStruct(fields) => FieldsNames(fields, g.fields, pkg);
    case TypeInterned(idx) => TypeNames(pkg.types[idx], g, pkg);
    case _ =>
  }

  lemma BuiltinNames(b: Wire.BuiltinType, args: seq<DamlType>, g: DamlType)
    requires SameBuiltin(b, args, g)
    ensures Names(g) == if KeepsArgs(b) then NamesOfAll(args) else {}
    ensures SynonymNames(g) == if KeepsArgs(b) then SynonymNamesOfAll(args) else {}
  {
  }

  lemma {:induction false} TypesNames(ts: seq<Wire.Type>, gs: seq<DamlType>, pkg: Wire.Package)
    requires Wire.Acyclic(pkg) && SameTypes(ts, gs, pkg)
    ensures AreNamed(NamesOfAll(gs), TyConsOfAll(ts, pkg), pkg)
    ensures AreNamed(SynonymNamesOfAll(gs), SynonymsOfAll(ts, pkg), pkg)
    decreases Wire.TypesBound(ts, Wire.TypeRank(pkg.types)), ts
  {
    hide SameType, AreNamed, Names, SynonymNames, TyCons, Synonyms;
    if ts == [] {
      NoneNamed(pkg);
    } else {
      TypeNames(ts[0], gs[0], pkg);
      TypesNames(ts[1..], gs[1..], pkg);
      BothNamed(Names(gs[0]), TyCons(ts[0], pkg), NamesOfAll(gs[1..]), TyConsOfAll(ts[1..], pkg), pkg);
      BothNamed(
        SynonymNames(gs[0]), Synonyms(ts[0], pkg), SynonymNamesOfAll(gs[1..]), SynonymsOfAll(ts[1..], pkg), pkg);
    }
  }

  lemma {:induction false} FieldsNames(fs: seq<Wire.FieldWithType>, gs: seq<DamlField>, pkg: Wire.Package)
    requires Wire.Acyclic(pkg) && SameFields(fs, gs, pkg)
    ensures AreNamed(NamesOfFields(gs), TyConsOfFields(fs, pkg), pkg)
    ensures AreNamed(SynonymNamesOfFields(gs), SynonymsOfFields(fs, pkg), pkg)
    decreases Wire.FieldsBound(fs, Wire.TypeRank(pkg.types)), fs
  {
    hide SameType, AreNamed, Names, SynonymNames, TyCons, Synonyms, Spells;
    if fs == [] {
      NoneNamed(pkg);
    } else {
      assert fs[0].ty < fs[0] && gs[0].ty < gs[0];
      TypeNames(fs[0].ty, gs[0].ty, pkg);
      FieldsNames(fs[1..], gs[1..], pkg);
      BothNamed(Names(gs[0].ty), TyCons(fs[0].ty, pkg), NamesOfFields(gs[1..]), TyConsOfFields(fs[1..], pkg), pkg);
      BothNamed(SynonymNames(gs[0].ty), Synonyms(fs[0].ty, pkg), SynonymNamesOfFields(gs[1..]),
                SynonymsOfFields(fs[1..], pkg), pkg);
    }
  }

  /** What an arrow is applied to is lost, and the names in it with it. */
  lemma ArrowForgets(id: Wire.QualifiedId, n: DamlTyConName, pkg: Wire.Package)
    requires Wire.Acyclic(pkg) && SameName(id, n, pkg)
    ensures var argument := Wire.TypeCon(id, []);
      && ConvertType(argument, pkg) == Success(TTyCon(n, [])) && Names(TTyCon(n, [])) == {n}
      && ConvertType(Wire.TypeBuiltin(Wire.Arrow, [argument, argument]), pkg) == Success(TArrow) && Names(TArrow) == {}
  {
    hide SameName, ConvertQualifiedId, Wire.Acyclic;
    var argument := Wire.TypeCon(id, []);
    NameMeans(id, n, pkg);
    assert ConvertTypes([], pkg) == Success([]);
    assert ConvertType(argument, pkg) == Success(TTyCon(n, []));
    assert [argument, argument][1..] == [argument] && [argument][1..] == [];
    assert ConvertTypes([argument], pkg).Success?;
    assert ConvertTypes([argument, argument], pkg).Success?;
    assert NamesOfAll([]) == {};
  }
}
