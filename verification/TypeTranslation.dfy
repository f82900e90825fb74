/** Wire types straight to Rust: what conversion and printing do together, said without the layer between. */
module TypeTranslation {
  import opened Wrappers
  import opened Element
  import opened Interned
  import opened TypeConversion
  import opened Identifiers
  import opened Renderer
  import opened TypeRenderer
  import Wire

  type Printed = Result<TypeTokens, Panic>

  /** A Rust type and how many arguments are printed with it. */
  datatype RustType = RustType(name: string, arity: nat)

  /** The Rust type each builtin stands for. */
  function RustBuiltin(b: Wire.BuiltinType): Option<RustType> {
    match b
    case Unit => Some(RustType("DamlUnit", 0))
    case Bool => Some(RustType("DamlBool", 0))
    case Int64 => Some(RustType("DamlInt64", 0))
    case Text => Some(RustType("DamlText", 0))
    case Date => Some(RustType("DamlDate", 0))
    case Timestamp => Some(RustType("DamlTimestamp", 0))
    case Party => Some(RustType("DamlParty", 0))
    case ContractId => Some(RustType("DamlContractId", 0))
    case Numeric => Some(RustType("DamlFixedNumeric", 1))
    case List => Some(RustType("DamlList", 1))
    case Optional => Some(RustType("DamlOptional", 1))
    case Textmap => Some(RustType("DamlTextMap", 2))
    case Genmap => Some(RustType("DamlGenMap", 2))
    case _ => None
  }

  /** A reference whose module and name resolve. */
  predicate ReferenceResolves(id: Wire.QualifiedId, pkg: Wire.Package) {
    && id.QualifiedId?
    && ResolveModuleId(id.mod, pkg).Success?
    && ResolveDotted(id.name, pkg).Success?
    && ResolveDotted(id.name, pkg).value != []
  }

  /** The crate path of the module a reference names: its package's name, unless it has none, then the
      module's segments and those of the dotted name before the last. */
  function CratePath(s: Settings, packageName: string, modulePath: Path, segments: Path): RustPath
    requires segments != []
  {
    var path := modulePath + segments[..|segments| - 1];
    InCrate(if packageName == "" then ModIdents(s, path) else ModIdents(s, [packageName] + path))
  }

  function Translate(s: Settings, t: Wire.Type, pkg: Wire.Package): Printed
    requires Wire.Acyclic(pkg)
    decreases Wire.TypeBound(t, Wire.TypeRank(pkg.types)), t
  {
    match t
    case TypeBuiltin(b, args) =>
      var rust := RustBuiltin(b);
      if rust.None? then Failure(CannotRender)
      else TranslateArgs(s, rust.value.name, rust.value.arity, args, pkg)
    case TypeCon(id, args) =>
      if !ReferenceResolves(id, pkg) then Failure(CannotRender) else
        var ts :- TranslateAll(s, args, pkg);
        var (packageId, modulePath) := ResolveModuleId(id.mod, pkg).value;
        var segments := ResolveDotted(id.name, pkg).value;
        Success(Named(CratePath(s, ResolvePackageName(pkg, packageId), modulePath, segments),
                      Escape(segments[|segments| - 1]), ts))
    case TypeVar(name, _) =>
      if 0 <= name < |pkg.strings| then Success(Parameter(pkg.strings[name])) else Failure(CannotRender)
    case TypeNat(n) => if 0 <= n then Success(NatMarker(n)) else Failure(CannotRender)
    case TypeInterned(idx) =>
      if 0 <= idx < |pkg.types| then Translate(s, pkg.types[idx], pkg) else Failure(CannotRender)
    case _ => Failure(CannotRender)
  }

  /** The first `arity` arguments, or none when there are fewer. */
  function TranslateArgs(s: Settings, name: string, arity: nat, args: seq<Wire.Type>, pkg: Wire.Package): Printed
    requires Wire.Acyclic(pkg)
    decreases Wire.TypesBound(args, Wire.TypeRank(pkg.types)), args, 1
  {
    if arity == 0 || |args| < arity then Success(Primitive(name, []))
    else if arity == 1 then
      var arg :- Translate(s, args[0], pkg);
      Success(Primitive(name, [arg]))
    else
      var key :- Translate(s, args[0], pkg);
      assert Wire.TypeBound(args[1..][0], Wire.TypeRank(pkg.types))
          <= Wire.TypesBound(args[1..], Wire.TypeRank(pkg.types));
      assert args[1] == args[1..][0] && args[1] in args;
      var value :- Translate(s, args[1], pkg);
      Success(Primitive(name, [key, value]))
  }

  function TranslateAll(s: Settings, ts: seq<Wire.Type>, pkg: Wire.Package): Result<seq<TypeTokens>, Panic>
    requires Wire.Acyclic(pkg)
    decreases Wire.TypesBound(ts, Wire.TypeRank(pkg.types)), ts, 0
  {
    if ts == [] then Success([]) else
      var head :- Translate(s, ts[0], pkg);
      var tail :- TranslateAll(s, ts[1..], pkg);
      Success([head] + tail)
  }

  // ---------- Conversion then printing is translation ----------

  /** What the generator prints for a converted type is the translation of the wire type. */
  lemma {:induction false} PrintedIsTranslated(s: Settings, t: Wire.Type, pkg: Wire.Package)
    requires Wire.Acyclic(pkg) && ConvertType(t, pkg).Success?
    ensures QuoteType(s, ConvertType(t, pkg).value) == Translate(s, t, pkg)
    decreases Wire.TypeBound(t, Wire.TypeRank(pkg.types)), t
  {
    hide Wire.Acyclic, ConvertTypeVars, ConvertFields, ConvertQualifiedId, QuoteTyCon;
    hide TranslateArgs, TranslateAll, RustBuiltin, ApplyBuiltin, ReferenceResolves, ConvertTypes, CratePath, PrimitiveName;
    hide QuoteOneArg, QuoteTwoArgs, ResolveModuleId, ResolveDotted, Escape;
    match t
    case TypeBuiltin(b, args) => BuiltinTranslated(s, b, args, pkg);
    case TypeCon(id, args) =>
      AllTranslated(s, args, pkg);
      TyConTranslated(s, id, args, pkg);
    case TypeInterned(idx) => PrintedIsTranslated(s, pkg.types[idx], pkg);
    case _ =>
  }

  lemma TyConTranslated(s: Settings, id: Wire.QualifiedId, args: seq<Wire.Type>, pkg: Wire.Package)
    requires Wire.Acyclic(pkg) && ConvertQualifiedId(id, pkg).Success? && ConvertTypes(args, pkg).Success?
    requires QuoteTypes(s, ConvertTypes(args, pkg).value) == TranslateAll(s, args, pkg)
    ensures QuoteTyCon(s, ConvertQualifiedId(id, pkg).value, ConvertTypes(args, pkg).value)
         == Translate(s, Wire.TypeCon(id, args), pkg)
  {
    hide Wire.Acyclic, ResolvePackageName, ResolveModuleId, ResolveDotted, ModIdents;
    hide TranslateAll, QuoteTypes, ConvertTypes;
  }

  lemma {:induction false} BuiltinTranslated(s: Settings, b: Wire.BuiltinType, args: seq<Wire.Type>, pkg: Wire.Package)
    requires Wire.Acyclic(pkg) && ConvertTypes(args, pkg).Success?
    requires !b.UnknownBuiltinType? && ApplyBuiltin(b, ConvertTypes(args, pkg).value).Success?
    ensures QuoteType(s, ApplyBuiltin(b, ConvertTypes(args, pkg).value).value)
         == if RustBuiltin(b).None? then Failure(CannotRender)
            else TranslateArgs(s, RustBuiltin(b).value.name, RustBuiltin(b).value.arity, args, pkg)
    decreases Wire.TypesBound(args, Wire.TypeRank(pkg.types)), args, 1
  {
    hide Wire.Acyclic, Translate, QuoteType;
    var ts := ConvertTypes(args, pkg).value;
    FirstConverted(args, pkg);
    if |args| >= 1 {
      PrintedIsTranslated(s, args[0], pkg);
    }
    if |args| >= 2 {
      assert Wire.TypeBound(args[1..][0], Wire.TypeRank(pkg.types))
          <= Wire.TypesBound(args[1..], Wire.TypeRank(pkg.types));
      assert args[1] == args[1..][0] && args[1] in args;
      FirstConverted(args[1..], pkg);
      PrintedIsTranslated(s, args[1], pkg);
    }
    BuiltinQuoted(s, b, ts);
  }

  lemma FirstConverted(args: seq<Wire.Type>, pkg: Wire.Package)
    requires Wire.Acyclic(pkg) && ConvertTypes(args, pkg).Success?
    ensures args != [] ==>
      && ConvertType(args[0], pkg) == Success(ConvertTypes(args, pkg).value[0])
      && ConvertTypes(args[1..], pkg) == Success(ConvertTypes(args, pkg).value[1..])
  {
    hide ConvertType;
  }

  /** A builtin's converted type prints under the builtin's name, with its own arguments in order. */
  lemma BuiltinQuoted(s: Settings, b: Wire.BuiltinType, ts: seq<DamlType>)
    requires !b.UnknownBuiltinType? && ApplyBuiltin(b, ts).Success?
    ensures QuoteType(s, ApplyBuiltin(b, ts).value) ==
      var rust := RustBuiltin(b);
      if rust.None? then Failure(CannotRender)
      else if rust.value.arity == 0 then Success(Primitive(rust.value.name, []))
      else if rust.value.arity == 1 then QuoteOneArg(s, rust.value.name, ts)
      else QuoteTwoArgs(s, rust.value.name, ts)
  {
    hide QuoteOneArg, QuoteTwoArgs, QuoteTyCon, Escape, QuotePath;
  }

  lemma {:induction false} AllTranslated(s: Settings, ts: seq<Wire.Type>, pkg: Wire.Package)
    requires Wire.Acyclic(pkg) && ConvertTypes(ts, pkg).Success?
    ensures QuoteTypes(s, ConvertTypes(ts, pkg).value) == TranslateAll(s, ts, pkg)
    decreases Wire.TypesBound(ts, Wire.TypeRank(pkg.types)), ts, 0
  {
    if ts != [] {
      hide Wire.Acyclic, Translate, QuoteType, ConvertType;
      PrintedIsTranslated(s, ts[0], pkg);
      AllTranslated(s, ts[1..], pkg);
      FirstConverted(ts, pkg);
    }
  }
}
