/** Conversion of wire kinds, references and types into the element layer. */
module TypeConversion {
  import opened Wrappers
  import opened Element
  import opened Interned
  import Wire

  // ---------- Kinds ----------

  function ConvertKind(k: Wire.Kind, kinds: seq<Wire.Kind>): ConvertResult<DamlKind>
    requires Wire.AcyclicKinds(kinds)
    decreases Wire.KindBound(k, Wire.KindRank(kinds)), k
  {
    match k
    case KindUnset => Failure(MissingRequiredField)
    case KindStar => Success(Star)
    case KindNat => Success(KNat)
    case KindArrow(params, result) =>
      var ps :- ConvertKinds(params, kinds);
      var r :- ConvertKind(result, kinds);
      Success(KArrow(ps, r))
    case KindInterned(idx) =>
      :- Need(0 <= idx, InternalError);
      :- Need(idx < |kinds|, InternalError);
      ConvertKind(kinds[idx], kinds)
  }

  function ConvertKinds(ks: seq<Wire.Kind>, kinds: seq<Wire.Kind>): (r: ConvertResult<seq<DamlKind>>)
    requires Wire.AcyclicKinds(kinds)
    ensures r.Success? ==> |r.value| == |ks|
    decreases Wire.KindsBound(ks, Wire.KindRank(kinds)), ks
  {
    if ks == [] then Success([]) else
      var head :- ConvertKind(ks[0], kinds);
      var tail :- ConvertKinds(ks[1..], kinds);
      Success([head] + tail)
  }

  function ConvertTypeVar(v: Wire.TypeVarWithKind, pkg: Wire.Package): ConvertResult<DamlTypeVarWithKind>
    requires Wire.AcyclicKinds(pkg.kinds)
  {
    var name :- ResolveString(v.name, pkg);
    var kind :- ConvertKind(v.kind, pkg.kinds);
    Success(DamlTypeVarWithKind(name, kind))
  }

  function ConvertTypeVars(vs: seq<Wire.TypeVarWithKind>, pkg: Wire.Package)
    : ConvertResult<seq<DamlTypeVarWithKind>>
    requires Wire.AcyclicKinds(pkg.kinds)
  {
    if vs == [] then Success([]) else
      var head :- ConvertTypeVar(vs[0], pkg);
      var tail :- ConvertTypeVars(vs[1..], pkg);
      Success([head] + tail)
  }

  // ---------- References ----------

  function ResolvePackageRef(ref: Wire.PackageRef, pkg: Wire.Package): ConvertResult<string> {
    match ref
    case PackageRefUnset => Failure(MissingRequiredField)
    case SelfPackage => Success(pkg.packageId)
    case ImportedPackage(name) => ResolveString(name, pkg)
    case PackageImport(_) => Failure(UnsupportedFeatureUsed)
  }

  function ResolveModuleId(id: Wire.ModuleId, pkg: Wire.Package): ConvertResult<(string, Path)> {
    match id
    case ModuleIdUnset => Failure(MissingRequiredField)
    case ModuleId(ref, name) =>
      var packageId :- ResolvePackageRef(ref, pkg);
      var path :- ResolveDotted(name, pkg);
      Success((packageId, path))
  }

  /** The name a reference to `packageId` is printed with; empty when the archive does not know it. */
  function ResolvePackageName(pkg: Wire.Package, packageId: string): string {
    if packageId == pkg.packageId then pkg.name
    else if packageId in pkg.pkgNames then pkg.pkgNames[packageId]
    else ""
  }

  /** Type-constructor, type-synonym and value references all resolve this way: the last segment is
      the name, the segments before it extend the module path. */
  function ConvertQualifiedId(id: Wire.QualifiedId, pkg: Wire.Package): ConvertResult<DamlTyConName> {
    match id
    case QualifiedIdUnset => Failure(MissingRequiredField)
    case QualifiedId(mod, name) =>
      var (packageId, modulePath) :- ResolveModuleId(mod, pkg);
      var segments :- ResolveDotted(name, pkg);
      var (last, prefix) :- SplitLast(segments, MissingRequiredField);
      Success(Absolute(last, packageId, ResolvePackageName(pkg, packageId), modulePath + prefix))
  }

  function ConvertQualifiedIds(ids: seq<Wire.QualifiedId>, pkg: Wire.Package)
    : ConvertResult<seq<DamlTyConName>>
  {
    if ids == [] then Success([]) else
      var head :- ConvertQualifiedId(ids[0], pkg);
      var tail :- ConvertQualifiedIds(ids[1..], pkg);
      Success([head] + tail)
  }

  // ---------- Types ----------

  function ConvertType(t: Wire.Type, pkg: Wire.Package): ConvertResult<DamlType>
    requires Wire.Acyclic(pkg)
    decreases Wire.TypeBound(t, Wire.TypeRank(pkg.types)), t
  {
    match t
    case TypeUnset => Failure(MissingRequiredField)
    case TypeVar(name, args) =>
      var v :- ResolveString(name, pkg);
      var ts :- ConvertTypes(args, pkg);
      Success(TVar(v, ts))
    case TypeCon(id, args) =>
      var tycon :- ConvertQualifiedId(id, pkg);
      var ts :- ConvertTypes(args, pkg);
      Success(TTyCon(tycon, ts))
    case TypeSyn(id, args) =>
      var tysyn :- ConvertQualifiedId(id, pkg);
      var ts :- ConvertTypes(args, pkg);
      Success(TSyn(tysyn, ts))
    case TypeBuiltin(builtin, args) =>
      :- Need(!builtin.UnknownBuiltinType?, MissingRequiredField);
      var ts :- ConvertTypes(args, pkg);
      ApplyBuiltin(builtin, ts)
    case TypeForall(vars, body) =>
      var vs :- ConvertTypeVars(vars, pkg);
      var b :- ConvertType(body, pkg);
      Success(TForall(vs, b))
    case TypeStruct(fields) =>
      var fs :- ConvertFields(fields, pkg);
      Success(TStruct(fs))
    case TypeNat(n) =>
      :- Need(0 <= n <= 255, NatOutOfRange(n));
      :- Need(n <= 37, NatOutOfRange(n));
      Success(TNat(n))
    case TypeInterned(idx) =>
      :- Need(0 <= idx, InternalError);
      :- Need(idx < |pkg.types|, InternalError);
      ConvertType(pkg.types[idx], pkg)
    case TypeApp => Failure(UnsupportedFeatureUsed)
  }

  function ConvertTypes(ts: seq<Wire.Type>, pkg: Wire.Package): (r: ConvertResult<seq<DamlType>>)
    requires Wire.Acyclic(pkg)
    ensures r.Success? ==> |r.value| == |ts|
    decreases Wire.TypesBound(ts, Wire.TypeRank(pkg.types)), ts
  {
    if ts == [] then Success([]) else
      var head :- ConvertType(ts[0], pkg);
      var tail :- ConvertTypes(ts[1..], pkg);
      Success([head] + tail)
  }

  function ConvertField(f: Wire.FieldWithType, pkg: Wire.Package): ConvertResult<DamlField>
    requires Wire.Acyclic(pkg)
    decreases Wire.TypeBound(f.ty, Wire.TypeRank(pkg.types)), f
  {
    var name :- ResolveString(f.name, pkg);
    var ty :- ConvertType(f.ty, pkg);
    Success(DamlField(name, ty))
  }

  function ConvertFields(fs: seq<Wire.FieldWithType>, pkg: Wire.Package): ConvertResult<seq<DamlField>>
    requires Wire.Acyclic(pkg)
    decreases Wire.FieldsBound(fs, Wire.TypeRank(pkg.types)), fs
  {
    if fs == [] then Success([]) else
      var head :- ConvertField(fs[0], pkg);
      var tail :- ConvertFields(fs[1..], pkg);
      Success([head] + tail)
  }

  function ApplyBuiltin(builtin: Wire.BuiltinType, args: seq<DamlType>): ConvertResult<DamlType>
    requires !builtin.UnknownBuiltinType?
  {
    match builtin
    case Unit => Success(TUnit)
    case Bool => Success(TBool)
    case Int64 => Success(TInt64)
    case Date => Success(TDate)
    case Timestamp => Success(TTimestamp)
    case Numeric => Success(TNumeric(args))
    case Party => Success(TParty)
    case Text => Success(TText)
    case ContractId =>
      :- Need(|args| <= 1, UnexpectedContractIdTypeArguments);
      Success(TContractId(if args == [] then None else Some(args[0])))
    case Optional => Success(TOptional(args))
    case List => Success(TList(args))
    case Genmap => Success(TGenMap(args))
    case Textmap => Success(TTextMap(args))
    case Any => Success(TAny)
    case AnyException => Success(TAnyException)
    case TypeRep => Success(TTypeRep)
    case Arrow => Success(TArrow)
    case Update => Success(TUpdate)
    case Bignumeric => Success(TBignumeric)
    case FailureCategory => Success(TFailureCategory)
    case RoundingMode => Success(TRoundingMode)
  }
}
