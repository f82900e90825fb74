/** Conversion of one wire module's declarations. */
module Declarations {
  import opened Wrappers
  import opened Element
  import opened Interned
  import opened TypeConversion
  import Wire

  /** What a module holds besides its place in the tree and its children. */
  datatype ModuleContent = ModuleContent(
    flags: DamlFeatureFlags,
    synonyms: seq<DamlDefTypeSyn>,
    dataTypes: map<string, DamlData>,
    interfaces: map<string, DamlInterface>,
    exceptions: map<string, DamlException>,
    synthetic: bool)

  /** A converted data definition: `prefix` is what its dotted name carries before the last segment. */
  datatype Definition = Definition(prefix: Path, name: string, data: DamlData)

  /** A wire module after conversion, before it is placed in the tree. */
  datatype BuiltModule = BuiltModule(
    path: Path,
    flags: DamlFeatureFlags,
    definitions: seq<Definition>,
    synonyms: seq<DamlDefTypeSyn>,
    interfaces: map<string, DamlInterface>,
    exceptions: map<string, DamlException>)
  {
    /** The content installed at the module's own path. */
    function Leaf(): ModuleContent {
      ModuleContent(flags, synonyms, Direct(definitions), interfaces, exceptions, false)
    }
  }

  // ---------- Templates and choices ----------

  function ConvertChoice(c: Wire.TemplateChoice, pkg: Wire.Package, modulePath: Path): ConvertResult<DamlChoice>
    requires Wire.Acyclic(pkg)
  {
    if c.authorizers then Failure(UnsupportedFeatureUsed) else
      var name :- ResolveString(c.name, pkg);
      var selfBinder :- ResolveString(c.selfBinder, pkg);
      :- Need(c.argBinder.VarWithType?, MissingRequiredField);
      var argName :- ResolveString(c.argBinder.name, pkg);
      var argType :- ConvertType(c.argBinder.ty, pkg);
      var returnType :- ConvertType(c.retType, pkg);
      Success(DamlChoice(
        name, pkg.packageId, modulePath, [DamlField(argName, argType)], returnType, c.consuming, selfBinder))
  }

  function ConvertChoices(cs: seq<Wire.TemplateChoice>, pkg: Wire.Package, modulePath: Path)
    : ConvertResult<seq<DamlChoice>>
    requires Wire.Acyclic(pkg)
  {
    if cs == [] then Success([]) else
      var head :- ConvertChoice(cs[0], pkg, modulePath);
      var tail :- ConvertChoices(cs[1..], pkg, modulePath);
      Success([head] + tail)
  }

  function ConvertDefKey(key: Wire.DefKey, pkg: Wire.Package): ConvertResult<Option<DamlType>>
    requires Wire.Acyclic(pkg)
  {
    if key.NoKey? then Success(None) else
      var ty :- ConvertType(key.ty, pkg);
      Success(Some(ty))
  }

  function BuildTemplate(
    template: Wire.DefTemplate, name: string, modulePath: Path, fields: seq<DamlField>,
    pkg: Wire.Package, serializable: bool): (r: ConvertResult<DamlData>)
    requires Wire.Acyclic(pkg)
    ensures r.Success? ==> r.value.Template? && r.value.name == name && r.value.modulePath == modulePath
  {
    var param :- ResolveString(template.param, pkg);
    var choices :- ConvertChoices(template.choices, pkg, modulePath);
    var key :- ConvertDefKey(template.key, pkg);
    var implements :- ConvertQualifiedIds(template.implements, pkg);
    Success(Template(name, pkg.packageId, modulePath, fields, choices, param, implements, key, serializable))
  }

  // ---------- Data types ----------

  /** Templates indexed by the dotted-name index of the record they wrap; the last one wins. */
  function TemplateByTycon(templates: seq<Wire.DefTemplate>): (r: map<int, Wire.DefTemplate>)
    ensures forall i :: i in r ==> r[i].tycon == i && r[i] in templates
    ensures forall t :: t in templates ==> t.tycon in r
  {
    if templates == [] then map[] else
      var last := templates[|templates| - 1];
      TemplateByTycon(templates[..|templates| - 1])[last.tycon := last]
  }

  /** `None` for the marker entry of an interface. */
  function BuildDataType(
    d: Wire.DefDataType, name: string, pkg: Wire.Package, modulePath: Path,
    templates: map<int, Wire.DefTemplate>): (r: ConvertResult<Option<DamlData>>)
    requires Wire.Acyclic(pkg)
    ensures r.Success? && r.value.Some? ==> r.value.value.name == name && r.value.value.modulePath == modulePath
  {
    var params :- ConvertTypeVars(d.params, pkg);
    match d.cons
    case ConsRecord(fields) =>
      var fs :- ConvertFields(fields, pkg);
      if d.name in templates then
        var template :- BuildTemplate(templates[d.name], name, modulePath, fs, pkg, d.serializable);
        Success(Some(template))
      else
        Success(Some(Record(name, pkg.packageId, modulePath, fs, params, d.serializable)))
    case ConsVariant(fields) =>
      var fs :- ConvertFields(fields, pkg);
      Success(Some(Variant(name, pkg.packageId, modulePath, fs, params, d.serializable)))
    case ConsEnum(constructors) =>
      var cs :- ResolveStrings(constructors, pkg);
      Success(Some(Enum(name, pkg.packageId, modulePath, cs, params, d.serializable)))
    case ConsInterface => Success(None)
    case DataConsUnset => Failure(MissingRequiredField)
  }

  /** The definitions a single wire data type contributes: one, or none for an interface marker. */
  function ConvertDataType(
    d: Wire.DefDataType, pkg: Wire.Package, modulePath: Path, templates: map<int, Wire.DefTemplate>)
    : (r: ConvertResult<seq<Definition>>)
    requires Wire.Acyclic(pkg)
    ensures r.Success? ==> |r.value| <= 1
    ensures r.Success? ==> forall def :: def in r.value ==>
      def.data.name == def.name && def.data.modulePath == modulePath + def.prefix
  {
    var segments :- ResolveDotted(d.name, pkg);
    var (last, prefix) :- SplitLast(segments, MissingRequiredField);
    var data :- BuildDataType(d, last, pkg, modulePath + prefix, templates);
    Success(if data.Some? then [Definition(prefix, last, data.value)] else [])
  }

  function ConvertDataTypes(
    ds: seq<Wire.DefDataType>, pkg: Wire.Package, modulePath: Path, templates: map<int, Wire.DefTemplate>)
    : (r: ConvertResult<seq<Definition>>)
    requires Wire.Acyclic(pkg)
    ensures r.Success? ==> forall def :: def in r.value ==>
      def.data.name == def.name && def.data.modulePath == modulePath + def.prefix
  {
    if ds == [] then Success([]) else
      var head :- ConvertDataType(ds[0], pkg, modulePath, templates);
      var tail :- ConvertDataTypes(ds[1..], pkg, modulePath, templates);
      Success(head + tail)
  }

  /** Definitions with a plain name, keyed by it; the last one wins. */
  function Direct(defs: seq<Definition>): map<string, DamlData> {
    if defs == [] then map[] else
      var last := defs[|defs| - 1];
      var rest := Direct(defs[..|defs| - 1]);
      if last.prefix == [] then rest[last.name := last.data] else rest
  }

  /** Definitions whose dotted name has a prefix, in order. */
  function Nested(defs: seq<Definition>): (r: seq<Definition>)
    ensures forall d :: d in r <==> d in defs && d.prefix != []
  {
    if defs == [] then [] else
      var last := defs[|defs| - 1];
      var rest := Nested(defs[..|defs| - 1]);
      if last.prefix == [] then rest else rest + [last]
  }

  // ---------- Synonyms, interfaces, exceptions ----------

  function ConvertSynonyms(syns: seq<Wire.DefTypeSyn>, pkg: Wire.Package, modulePath: Path)
    : ConvertResult<seq<DamlDefTypeSyn>>
    requires Wire.Acyclic(pkg)
  {
    if syns == [] then Success([]) else
      var name :- ResolveDotted(syns[0].name, pkg);
      var params :- ConvertTypeVars(syns[0].params, pkg);
      var ty :- ConvertType(syns[0].ty, pkg);
      var tail :- ConvertSynonyms(syns[1..], pkg, modulePath);
      Success([DamlDefTypeSyn(params, ty, modulePath + name)] + tail)
  }

  function ConvertMethods(ms: seq<Wire.InterfaceMethod>, pkg: Wire.Package)
    : ConvertResult<seq<DamlInterfaceMethod>>
    requires Wire.Acyclic(pkg)
  {
    if ms == [] then Success([]) else
      var name :- ResolveString(ms[0].name, pkg);
      var ty :- ConvertType(ms[0].ty, pkg);
      var tail :- ConvertMethods(ms[1..], pkg);
      Success([DamlInterfaceMethod(name, ty)] + tail)
  }

  function ConvertInterface(i: Wire.DefInterface, pkg: Wire.Package, modulePath: Path): ConvertResult<DamlInterface>
    requires Wire.Acyclic(pkg)
  {
    var segments :- ResolveDotted(i.tycon, pkg);
    var (name, prefix) :- SplitLast(segments, InternalError);
    var param :- ResolveString(i.param, pkg);
    var methods :- ConvertMethods(i.methods, pkg);
    var choices :- ConvertChoices(i.choices, pkg, modulePath + prefix);
    var view :- ConvertType(i.view, pkg);
    var required :- ConvertQualifiedIds(i.requires_, pkg);
    Success(DamlInterface(name, pkg.packageId, modulePath + prefix, param, methods, choices, view, required))
  }

  function ConvertInterfaces(ifaces: seq<Wire.DefInterface>, pkg: Wire.Package, modulePath: Path)
    : ConvertResult<seq<DamlInterface>>
    requires Wire.Acyclic(pkg)
  {
    if ifaces == [] then Success([]) else
      var head :- ConvertInterface(ifaces[0], pkg, modulePath);
      var tail :- ConvertInterfaces(ifaces[1..], pkg, modulePath);
      Success([head] + tail)
  }

  /** Interfaces keyed by their last name segment, whatever their prefix; the last one wins. */
  function InterfacesByName(ifaces: seq<DamlInterface>): (r: map<string, DamlInterface>)
    ensures forall n :: n in r ==> r[n].name == n && r[n] in ifaces
  {
    if ifaces == [] then map[] else
      var last := ifaces[|ifaces| - 1];
      InterfacesByName(ifaces[..|ifaces| - 1])[last.name := last]
  }

  function ConvertException(e: Wire.DefException, pkg: Wire.Package, modulePath: Path): ConvertResult<DamlException> {
    var segments :- ResolveDotted(e.name, pkg);
    var (name, prefix) :- SplitLast(segments, InternalError);
    Success(DamlException(name, pkg.packageId, modulePath + prefix))
  }

  function ConvertExceptions(es: seq<Wire.DefException>, pkg: Wire.Package, modulePath: Path)
    : ConvertResult<seq<DamlException>>
  {
    if es == [] then Success([]) else
      var head :- ConvertException(es[0], pkg, modulePath);
      var tail :- ConvertExceptions(es[1..], pkg, modulePath);
      Success([head] + tail)
  }

  function ExceptionsByName(es: seq<DamlException>): map<string, DamlException> {
    if es == [] then map[] else
      var last := es[|es| - 1];
      ExceptionsByName(es[..|es| - 1])[last.name := last]
  }

  // ---------- Modules ----------

  /** An LF2 module must set all three transitional flags. */
  predicate FlagsAccepted(flags: Wire.ModuleFlags) {
    && flags.ModuleFlags?
    && flags.forbidPartyLiterals
    && flags.dontDivulgeContractIdsInCreateArguments
    && flags.dontDiscloseNonConsumingChoicesToObservers
  }

  function ConvertFlags(flags: Wire.ModuleFlags): DamlFeatureFlags
    requires flags.ModuleFlags?
  {
    DamlFeatureFlags(
      flags.forbidPartyLiterals,
      flags.dontDivulgeContractIdsInCreateArguments,
      flags.dontDiscloseNonConsumingChoicesToObservers)
  }

  /** Everything the converter computes for one module; the order of the steps fixes which error is
      reported. */
  function ConvertModuleAt(m: Wire.Module, pkg: Wire.Package, path: Path): (r: ConvertResult<BuiltModule>)
    requires Wire.Acyclic(pkg)
    ensures r.Success? ==> r.value.path == path && r.value.flags == DamlFeatureFlags(true, true, true)
    ensures r.Success? ==> forall d :: d in r.value.definitions ==>
      d.data.name == d.name && d.data.modulePath == path + d.prefix
  {
    if !FlagsAccepted(m.flags) then Failure(UnsupportedFeatureUsed) else
      var defs :- ConvertDataTypes(m.dataTypes, pkg, path, TemplateByTycon(m.templates));
      var synonyms :- ConvertSynonyms(m.synonyms, pkg, path);
      var interfaces :- ConvertInterfaces(m.interfaces, pkg, path);
      var exceptions :- ConvertExceptions(m.exceptions, pkg, path);
      Success(BuiltModule(
        path, ConvertFlags(m.flags), defs, synonyms, InterfacesByName(interfaces), ExceptionsByName(exceptions)))
  }

  function ConvertModule(m: Wire.Module, pkg: Wire.Package): (r: ConvertResult<BuiltModule>)
    requires Wire.Acyclic(pkg)
    ensures r.Success? ==> r.value.flags == DamlFeatureFlags(true, true, true)
    ensures r.Success? ==> forall d :: d in r.value.definitions ==>
      d.data.name == d.name && d.data.modulePath == r.value.path + d.prefix
  {
    var path :- ResolveDotted(m.name, pkg);
    ConvertModuleAt(m, pkg, path)
  }

  function ConvertModules(ms: seq<Wire.Module>, pkg: Wire.Package): (r: ConvertResult<seq<BuiltModule>>)
    requires Wire.Acyclic(pkg)
    ensures r.Success? ==> |r.value| == |ms|
    ensures r.Success? ==> forall i :: 0 <= i < |ms| ==> ConvertModule(ms[i], pkg) == Success(r.value[i])
    ensures r.Failure? ==> exists i :: 0 <= i < |ms| && ConvertModule(ms[i], pkg) == Failure(r.error)
  {
    if ms == [] then Success([]) else
      var head :- ConvertModule(ms[0], pkg);
      var tail :- ConvertModules(ms[1..], pkg);
      Success([head] + tail)
  }
}
