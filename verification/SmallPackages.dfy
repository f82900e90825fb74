/** Small wire packages over one set of tables, and what they convert to. */
module SmallPackages {
  import opened Wrappers
  import opened Element
  import opened Interned
  import opened TypeConversion
  import opened Declarations
  import Wire

  // ---------- Tables ----------

  function Strings(): seq<string> {
    ["A", "B", "D", "main", "other"]
  }

  /** `A`, `A.B`, `B.D`, `D`, `D` a second time, and the empty name. */
  function DottedNames(): seq<seq<int>> {
    [[0], [0, 1], [1, 2], [2], [2], []]
  }

  const A_ := 0
  const A_B := 1
  const B_D := 2
  const D_ := 3
  const D_AGAIN := 4
  const ROOT := 5
  const MAIN := 3
  const OTHER := 4

  function DottedPaths(): seq<Path> {
    [["A"], ["A", "B"], ["B", "D"], ["D"], ["D"], []]
  }

  predicate IsName(n: int) {
    0 <= n < |DottedPaths()| && DottedPaths()[n] != []
  }

  /** Every index is one of a dotted name that is not empty. */
  predicate Listed(ns: seq<int>) {
    forall i :: 0 <= i < |ns| ==> IsName(ns[i])
  }

  function PackageWith(id: string, modules: seq<Wire.Module>): Wire.Package {
    Wire.Package(id, id, Strings(), DottedNames(), [], [], [], modules, map[id := id])
  }

  /** The tables, whatever the package they are in. */
  ghost predicate HasTables(pkg: Wire.Package) {
    pkg.strings == Strings() && pkg.dottedNames == DottedNames() && pkg.types == [] && pkg.kinds == []
  }

  lemma TablesAcyclic(pkg: Wire.Package)
    requires HasTables(pkg)
    ensures Wire.Acyclic(pkg)
  {
    assert Wire.TypesRanked([], []) && Wire.KindsRanked([], []);
  }

  lemma StringsResolve(i: int, k: int, pkg: Wire.Package)
    requires HasTables(pkg) && 0 <= i < |Strings()| && 0 <= k < |Strings()|
    ensures ResolveString(i, pkg) == Success(Strings()[i])
    ensures ResolveStrings([i], pkg) == Success([Strings()[i]])
    ensures ResolveStrings([i, k], pkg) == Success([Strings()[i], Strings()[k]])
  {
    assert [i][1..] == [] && [i, k][1..] == [k] && [k][1..] == [];
    assert ResolveStrings([], pkg) == Success([]);
    assert [Strings()[i]] + [] == [Strings()[i]] && [Strings()[k]] + [] == [Strings()[k]];
    assert [Strings()[i]] + [Strings()[k]] == [Strings()[i], Strings()[k]];
  }

  lemma NoStrings(pkg: Wire.Package)
    ensures ResolveStrings([], pkg) == Success([])
  {
  }

  lemma NamesResolve(n: int, pkg: Wire.Package)
    requires HasTables(pkg) && 0 <= n < |DottedPaths()|
    ensures ResolveDotted(n, pkg) == Success(DottedPaths()[n])
  {
    hide ResolveStrings;
    assert ResolveStrings([], pkg) == Success([]) by { NoStrings(pkg); }
    StringsResolve(0, 1, pkg);
    StringsResolve(1, 2, pkg);
    StringsResolve(2, 0, pkg);
  }

  // ---------- Declarations ----------

  /** An enumeration without constructors. */
  function EnumCalled(n: int): Wire.DefDataType {
    Wire.DefDataType(n, [], true, Wire.ConsEnum([]))
  }

  function RecordCalled(n: int): Wire.DefDataType {
    Wire.DefDataType(n, [], true, Wire.ConsRecord([]))
  }

  function TemplateOf(n: int, implements: seq<Wire.QualifiedId>): Wire.DefTemplate {
    Wire.DefTemplate(n, 0, [], Wire.NoKey, implements)
  }

  function InterfaceCalled(n: int): Wire.DefInterface {
    Wire.DefInterface(n, 0, [], [], Wire.TypeBuiltin(Wire.Unit, []), [])
  }

  function ModuleWith(n: int, dataTypes: seq<Wire.DefDataType>, templates: seq<Wire.DefTemplate>,
                      interfaces: seq<Wire.DefInterface>): Wire.Module {
    Wire.Module(n, Wire.ModuleFlags(true, true, true), [], dataTypes, templates, interfaces, [])
  }

  function Prefix(n: int): Path
    requires IsName(n)
  {
    DottedPaths()[n][..|DottedPaths()[n]| - 1]
  }

  function Last(n: int): string
    requires IsName(n)
  {
    DottedPaths()[n][|DottedPaths()[n]| - 1]
  }

  function EnumIn(id: string, at: Path, n: int): Definition
    requires IsName(n)
  {
    Definition(Prefix(n), Last(n), Enum(Last(n), id, at + Prefix(n), [], [], true))
  }

  lemma EnumConverts(n: int, pkg: Wire.Package, at: Path, templates: map<int, Wire.DefTemplate>)
    requires HasTables(pkg) && IsName(n)
    ensures Wire.Acyclic(pkg)
    ensures ConvertDataType(EnumCalled(n), pkg, at, templates) == Success([EnumIn(pkg.packageId, at, n)])
  {
    hide ResolveDotted;
    TablesAcyclic(pkg);
    NamesResolve(n, pkg);
    assert ConvertTypeVars([], pkg) == Success([]) && ResolveStrings([], pkg) == Success([]);
  }

  function EnumsIn(id: string, at: Path, ns: seq<int>): seq<Definition>
    requires Listed(ns)
  {
    if ns == [] then [] else [EnumIn(id, at, ns[0])] + EnumsIn(id, at, ns[1..])
  }

  lemma EnumsListed(id: string, at: Path, n: int, k: int)
    requires IsName(n) && IsName(k)
    ensures EnumsIn(id, at, []) == []
    ensures EnumsIn(id, at, [n]) == [EnumIn(id, at, n)]
    ensures EnumsIn(id, at, [n, k]) == [EnumIn(id, at, n), EnumIn(id, at, k)]
  {
    hide EnumIn;
    assert [n][1..] == [] && [n, k][1..] == [k] && [k][1..] == [];
  }

  function EnumsCalled(ns: seq<int>): seq<Wire.DefDataType> {
    if ns == [] then [] else [EnumCalled(ns[0])] + EnumsCalled(ns[1..])
  }

  lemma {:induction false} EnumsConvert(ns: seq<int>, pkg: Wire.Package, at: Path, templates: map<int, Wire.DefTemplate>)
    requires HasTables(pkg) && Listed(ns)
    ensures Wire.Acyclic(pkg)
    ensures ConvertDataTypes(EnumsCalled(ns), pkg, at, templates) == Success(EnumsIn(pkg.packageId, at, ns))
  {
    hide ConvertDataType, EnumIn, EnumCalled;
    TablesAcyclic(pkg);
    if ns != [] {
      EnumConverts(ns[0], pkg, at, templates);
      EnumsConvert(ns[1..], pkg, at, templates);
      assert EnumsCalled(ns)[1..] == EnumsCalled(ns[1..]);
    }
  }

  // ---------- Modules of enumerations ----------

  function EnumModule(m: int, ns: seq<int>): Wire.Module {
    ModuleWith(m, EnumsCalled(ns), [], [])
  }

  function BuiltEnums(id: string, m: int, ns: seq<int>): BuiltModule
    requires 0 <= m < |DottedPaths()| && Listed(ns)
  {
    BuiltModule(
      DottedPaths()[m], DamlFeatureFlags(true, true, true), EnumsIn(id, DottedPaths()[m], ns), [], map[], map[])
  }

  lemma EnumModuleConverts(m: int, ns: seq<int>, pkg: Wire.Package)
    requires HasTables(pkg) && 0 <= m < |DottedPaths()| && Listed(ns)
    ensures Wire.Acyclic(pkg)
    ensures ConvertModule(EnumModule(m, ns), pkg) == Success(BuiltEnums(pkg.packageId, m, ns))
  {
    hide ResolveDotted, ConvertDataTypes;
    TablesAcyclic(pkg);
    NamesResolve(m, pkg);
    EnumsConvert(ns, pkg, DottedPaths()[m], TemplateByTycon([]));
  }

  lemma OneModule(m: Wire.Module, b: BuiltModule, pkg: Wire.Package)
    requires Wire.Acyclic(pkg) && ConvertModule(m, pkg) == Success(b)
    ensures ConvertModules([m], pkg) == Success([b])
  {
    hide ConvertModule;
    assert [m][1..] == [] && ConvertModules([], pkg) == Success([]) && [b] + [] == [b];
  }

  lemma TwoModules(m: Wire.Module, n: Wire.Module, b: BuiltModule, c: BuiltModule, pkg: Wire.Package)
    requires Wire.Acyclic(pkg) && ConvertModule(m, pkg) == Success(b) && ConvertModule(n, pkg) == Success(c)
    ensures ConvertModules([m, n], pkg) == Success([b, c])
  {
    hide ConvertModule;
    OneModule(n, c, pkg);
    assert [m, n][1..] == [n] && [b] + [c] == [b, c];
  }

  // ---------- A module of interfaces ----------

  function InterfaceIn(id: string, at: Path, n: int): DamlInterface
    requires IsName(n)
  {
    DamlInterface(Last(n), id, at + Prefix(n), "A", [], [], TUnit, [])
  }

  lemma InterfaceConverts(n: int, pkg: Wire.Package, at: Path)
    requires HasTables(pkg) && IsName(n)
    ensures Wire.Acyclic(pkg)
    ensures ConvertInterface(InterfaceCalled(n), pkg, at) == Success(InterfaceIn(pkg.packageId, at, n))
  {
    hide ResolveDotted;
    TablesAcyclic(pkg);
    NamesResolve(n, pkg);
    StringsResolve(0, 0, pkg);
    assert ConvertMethods([], pkg) == Success([]) && ConvertChoices([], pkg, at + Prefix(n)) == Success([]);
    assert ConvertQualifiedIds([], pkg) == Success([]) && ConvertTypes([], pkg) == Success([]);
  }

  lemma TwoInterfacesConvert(n: int, k: int, pkg: Wire.Package, at: Path)
    requires HasTables(pkg) && IsName(n) && IsName(k)
    ensures Wire.Acyclic(pkg)
    ensures ConvertInterfaces([InterfaceCalled(n), InterfaceCalled(k)], pkg, at)
         == Success([InterfaceIn(pkg.packageId, at, n), InterfaceIn(pkg.packageId, at, k)])
  {
    hide ConvertInterface, InterfaceCalled, InterfaceIn;
    InterfaceConverts(n, pkg, at);
    InterfaceConverts(k, pkg, at);
    var i, j := InterfaceIn(pkg.packageId, at, n), InterfaceIn(pkg.packageId, at, k);
    assert [InterfaceCalled(n), InterfaceCalled(k)][1..] == [InterfaceCalled(k)];
    assert [InterfaceCalled(k)][1..] == [] && ConvertInterfaces([], pkg, at) == Success([]);
    assert [j] + [] == [j] && [i] + [j] == [i, j];
  }

  function InterfaceModule(m: int, n: int, k: int): Wire.Module {
    ModuleWith(m, [], [], [InterfaceCalled(n), InterfaceCalled(k)])
  }

  function BuiltInterfaces(id: string, m: int, n: int, k: int): BuiltModule
    requires 0 <= m < |DottedPaths()| && IsName(n) && IsName(k)
  {
    BuiltModule(
      DottedPaths()[m], DamlFeatureFlags(true, true, true), [], [],
      InterfacesByName([InterfaceIn(id, DottedPaths()[m], n), InterfaceIn(id, DottedPaths()[m], k)]), map[])
  }

  lemma InterfaceModuleConverts(m: int, n: int, k: int, pkg: Wire.Package)
    requires HasTables(pkg) && 0 <= m < |DottedPaths()| && IsName(n) && IsName(k)
    ensures Wire.Acyclic(pkg)
    ensures ConvertModule(InterfaceModule(m, n, k), pkg) == Success(BuiltInterfaces(pkg.packageId, m, n, k))
  {
    hide ResolveDotted, ConvertInterfaces, InterfaceCalled, InterfaceIn;
    TablesAcyclic(pkg);
    NamesResolve(m, pkg);
    TwoInterfacesConvert(n, k, pkg, DottedPaths()[m]);
  }

  // ---------- A module of one record and one template ----------

  /** Interface `D` of module `A` of package `other`. */
  function OtherInterface(): Wire.QualifiedId {
    Wire.QualifiedId(Wire.ModuleId(Wire.ImportedPackage(OTHER), A_), D_)
  }

  function OtherName(): DamlTyConName {
    Absolute("D", "other", "", ["A"])
  }

  /** The record named by `n`, the template attached to whatever `t` names. */
  function RecordModule(n: int, t: int): Wire.Module {
    ModuleWith(A_, [RecordCalled(n)], [TemplateOf(t, [OtherInterface()])], [])
  }

  function RecordOrTemplate(id: string, n: int, t: int): DamlData
    requires IsName(n)
  {
    if n == t then Template(Last(n), id, ["A"] + Prefix(n), [], [], "A", [OtherName()], None, true)
    else Record(Last(n), id, ["A"] + Prefix(n), [], [], true)
  }

  function BuiltRecord(id: string, n: int, t: int): BuiltModule
    requires IsName(n)
  {
    BuiltModule(
      ["A"], DamlFeatureFlags(true, true, true), [Definition(Prefix(n), Last(n), RecordOrTemplate(id, n, t))], [],
      map[], map[])
  }

  /** The package does not know the name of package `other`. */
  ghost predicate Alone(pkg: Wire.Package) {
    HasTables(pkg) && pkg.packageId != "other" && "other" !in pkg.pkgNames
  }

  lemma OtherConverts(pkg: Wire.Package)
    requires Alone(pkg)
    ensures ConvertQualifiedIds([OtherInterface()], pkg) == Success([OtherName()])
  {
    hide ResolveDotted, ResolveString;
    NamesResolve(A_, pkg);
    NamesResolve(D_, pkg);
    StringsResolve(OTHER, 0, pkg);
    assert ["D"][..0] == [] && ["A"] + [] == ["A"];
    assert ConvertQualifiedId(OtherInterface(), pkg) == Success(OtherName());
    assert [OtherInterface()][1..] == [] && ConvertQualifiedIds([], pkg) == Success([]);
    assert [OtherName()] + [] == [OtherName()];
  }

  lemma TemplateConverts(n: int, t: int, pkg: Wire.Package)
    requires Alone(pkg) && IsName(n)
    ensures Wire.Acyclic(pkg)
    ensures BuildTemplate(TemplateOf(t, [OtherInterface()]), Last(n), ["A"] + Prefix(n), [], pkg, true)
         == Success(RecordOrTemplate(pkg.packageId, n, n))
  {
    hide ResolveString, ConvertQualifiedIds;
    TablesAcyclic(pkg);
    OtherConverts(pkg);
    StringsResolve(0, 0, pkg);
    assert ConvertChoices([], pkg, ["A"] + Prefix(n)) == Success([]);
  }

  lemma RecordConverts(n: int, t: int, pkg: Wire.Package)
    requires Alone(pkg) && IsName(n)
    ensures Wire.Acyclic(pkg)
    ensures ConvertDataTypes([RecordCalled(n)], pkg, ["A"], TemplateByTycon([TemplateOf(t, [OtherInterface()])]))
         == Success(BuiltRecord(pkg.packageId, n, t).definitions)
  {
    hide ResolveDotted, BuildTemplate;
    TablesAcyclic(pkg);
    NamesResolve(n, pkg);
    TemplateConverts(n, t, pkg);
    var template := TemplateOf(t, [OtherInterface()]);
    var templates := TemplateByTycon([template]);
    assert [template][..0] == [] && templates == map[t := template];
    assert ConvertTypeVars([], pkg) == Success([]) && ConvertFields([], pkg) == Success([]);
    var r, def := RecordCalled(n), BuiltRecord(pkg.packageId, n, t).definitions[0];
    assert ConvertDataType(r, pkg, ["A"], templates) == Success([def]);
    assert [r][1..] == [] && ConvertDataTypes([], pkg, ["A"], templates) == Success([]) && [def] + [] == [def];
  }

  lemma RecordModuleConverts(n: int, t: int, pkg: Wire.Package)
    requires Alone(pkg) && IsName(n)
    ensures Wire.Acyclic(pkg)
    ensures ConvertModules([RecordModule(n, t)], pkg) == Success([BuiltRecord(pkg.packageId, n, t)])
  {
    hide ResolveDotted, ConvertDataTypes, RecordOrTemplate;
    RecordConverts(n, t, pkg);
    NamesResolve(A_, pkg);
    var m, b := RecordModule(n, t), BuiltRecord(pkg.packageId, n, t);
    assert ConvertModule(m, pkg) == Success(b);
    OneModule(m, b, pkg);
  }

  // ---------- A choice whose argument is applied to an arrow ----------

  function ArrowOf(): Wire.Type {
    Wire.TypeCon(
      Wire.QualifiedId(Wire.ModuleId(Wire.SelfPackage, A_), D_), [Wire.TypeBuiltin(Wire.Arrow, [])])
  }

  function ArrowArgument(id: string, name: string): DamlType {
    TTyCon(Absolute("D", id, name, ["A"]), [TArrow])
  }

  function WireChoice(): Wire.TemplateChoice {
    Wire.TemplateChoice(A_, A_, Wire.VarWithType(A_, ArrowOf()), Wire.TypeBuiltin(Wire.Unit, []), true, false)
  }

  function ArrowChoice(id: string, name: string): DamlChoice {
    DamlChoice("A", id, ["A"], [DamlField("A", ArrowArgument(id, name))], TUnit, true, "A")
  }

  /** Template `A` with that choice, and the record `D` its argument names. */
  function ChoiceModule(): Wire.Module {
    ModuleWith(
      A_, [RecordCalled(A_), RecordCalled(D_)], [Wire.DefTemplate(A_, A_, [WireChoice()], Wire.NoKey, [])], [])
  }

  function ChoosingTemplate(id: string, name: string): DamlData {
    Template("A", id, ["A"], [], [ArrowChoice(id, name)], "A", [], None, true)
  }

  function PlainRecord(id: string): DamlData {
    Record("D", id, ["A"], [], [], true)
  }

  function BuiltChoice(id: string, name: string): BuiltModule {
    BuiltModule(
      ["A"], DamlFeatureFlags(true, true, true),
      [Definition([], "A", ChoosingTemplate(id, name)), Definition([], "D", PlainRecord(id))], [], map[], map[])
  }

  lemma ArrowConverts(pkg: Wire.Package)
    requires HasTables(pkg)
    ensures Wire.Acyclic(pkg)
    ensures ConvertType(ArrowOf(), pkg) == Success(ArrowArgument(pkg.packageId, pkg.name))
  {
    hide ResolveDotted;
    TablesAcyclic(pkg);
    NamesResolve(A_, pkg);
    NamesResolve(D_, pkg);
    assert ["D"][..0] == [] && ["A"] + [] == ["A"];
    var arrow := Wire.TypeBuiltin(Wire.Arrow, []);
    assert [arrow][1..] == [] && ConvertTypes([], pkg) == Success([]) && [TArrow] + [] == [TArrow];
    assert ConvertType(arrow, pkg) == Success(TArrow);
    assert ConvertTypes([arrow], pkg) == Success([TArrow]);
  }

  lemma ChoiceConverts(pkg: Wire.Package)
    requires HasTables(pkg)
    ensures Wire.Acyclic(pkg)
    ensures ConvertChoices([WireChoice()], pkg, ["A"]) == Success([ArrowChoice(pkg.packageId, pkg.name)])
  {
    hide ResolveString, ArrowOf;
    TablesAcyclic(pkg);
    ArrowConverts(pkg);
    StringsResolve(0, 0, pkg);
    assert ConvertTypes([], pkg) == Success([]);
    var c, d := WireChoice(), ArrowChoice(pkg.packageId, pkg.name);
    assert ConvertChoice(c, pkg, ["A"]) == Success(d);
    assert [c][1..] == [] && ConvertChoices([], pkg, ["A"]) == Success([]) && [d] + [] == [d];
  }

  lemma ChoosingConverts(pkg: Wire.Package)
    requires HasTables(pkg)
    ensures Wire.Acyclic(pkg)
    ensures BuildTemplate(ChoiceModule().templates[0], "A", ["A"], [], pkg, true)
         == Success(ChoosingTemplate(pkg.packageId, pkg.name))
  {
    hide ResolveString, ConvertChoices, WireChoice, ArrowChoice;
    ChoiceConverts(pkg);
    StringsResolve(0, 0, pkg);
    assert ConvertQualifiedIds([], pkg) == Success([]);
  }

  lemma ChoiceDataConverts(pkg: Wire.Package)
    requires HasTables(pkg)
    ensures Wire.Acyclic(pkg)
    ensures ConvertDataTypes(
        [RecordCalled(A_), RecordCalled(D_)], pkg, ["A"], TemplateByTycon(ChoiceModule().templates))
      == Success(BuiltChoice(pkg.packageId, pkg.name).definitions)
  {
    hide ResolveDotted, BuildTemplate, ChoosingTemplate, ConvertDataType, ConvertDataTypes, WireChoice;
    var template := ChoiceModule().templates[0];
    var templates := TemplateByTycon([template]);
    assert [template][..0] == [] && templates == map[A_ := template];
    BothConvert(pkg, templates);
    var defs := BuiltChoice(pkg.packageId, pkg.name).definitions;
    TwoDefinitions(RecordCalled(A_), RecordCalled(D_), pkg, templates, defs[0], defs[1]);
  }

  lemma BothConvert(pkg: Wire.Package, templates: map<int, Wire.DefTemplate>)
    requires HasTables(pkg) && templates == map[A_ := ChoiceModule().templates[0]]
    ensures Wire.Acyclic(pkg)
    ensures ConvertDataType(RecordCalled(A_), pkg, ["A"], templates)
         == Success([BuiltChoice(pkg.packageId, pkg.name).definitions[0]])
    ensures ConvertDataType(RecordCalled(D_), pkg, ["A"], templates)
         == Success([BuiltChoice(pkg.packageId, pkg.name).definitions[1]])
  {
    hide ResolveDotted, BuildTemplate, ChoosingTemplate, WireChoice;
    TablesAcyclic(pkg);
    NamesResolve(A_, pkg);
    NamesResolve(D_, pkg);
    ChoosingConverts(pkg);
    assert ConvertTypeVars([], pkg) == Success([]) && ConvertFields([], pkg) == Success([]);
    assert ["A"][..0] == [] && ["D"][..0] == [] && ["A"] + [] == ["A"];
  }

  lemma TwoDefinitions(d: Wire.DefDataType, e: Wire.DefDataType, pkg: Wire.Package,
                       templates: map<int, Wire.DefTemplate>, f: Definition, g: Definition)
    requires Wire.Acyclic(pkg) && ConvertDataType(d, pkg, ["A"], templates) == Success([f])
    requires ConvertDataType(e, pkg, ["A"], templates) == Success([g])
    ensures ConvertDataTypes([d, e], pkg, ["A"], templates) == Success([f, g])
  {
    hide ConvertDataType, Wire.Acyclic;
    assert [d, e][1..] == [e] && [e][1..] == [] && ConvertDataTypes([], pkg, ["A"], templates) == Success([]);
    assert [g] + [] == [g] && [f] + [g] == [f, g];
    assert ConvertDataTypes([e], pkg, ["A"], templates) == Success([g]);
  }

  lemma ChoiceModuleConverts(pkg: Wire.Package)
    requires HasTables(pkg)
    ensures Wire.Acyclic(pkg)
    ensures ConvertModules([ChoiceModule()], pkg) == Success([BuiltChoice(pkg.packageId, pkg.name)])
  {
    hide ResolveDotted, ConvertDataTypes, ChoosingTemplate, WireChoice;
    ChoiceDataConverts(pkg);
    NamesResolve(A_, pkg);
    var m, b := ChoiceModule(), BuiltChoice(pkg.packageId, pkg.name);
    assert ConvertModule(m, pkg) == Success(b);
    OneModule(m, b, pkg);
  }
}
