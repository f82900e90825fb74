/** A declaration in the finished tree is the wire declaration: nothing lost, renamed or reordered. */
module Fidelity {
  import opened Wrappers
  import opened Element
  import opened Interned
  import opened TypeConversion
  import opened Declarations
  import opened Placement
  import opened TypeFidelity
  import F = FlatTree
  import Wire

  // ---------- What a faithful declaration is ----------

  /** The argument becomes the choice's only field. */
  ghost predicate SameChoice(c: Wire.TemplateChoice, d: DamlChoice, path: Path, pkg: Wire.Package)
    requires Wire.Acyclic(pkg)
  {
    && !c.authorizers && c.argBinder.VarWithType?
    && d.packageId == pkg.packageId && d.modulePath == path
    && Spells(c.name, d.name, pkg) && Spells(c.selfBinder, d.selfBinder, pkg) && d.consuming == c.consuming
    && SameFields([Wire.FieldWithType(c.argBinder.name, c.argBinder.ty)], d.fields, pkg)
    && SameType(c.retType, d.returnType, pkg)
  }

  ghost predicate SameChoices(cs: seq<Wire.TemplateChoice>, ds: seq<DamlChoice>, path: Path, pkg: Wire.Package)
    requires Wire.Acyclic(pkg)
  {
    |cs| == |ds| && forall i :: 0 <= i < |cs| ==> SameChoice(cs[i], ds[i], path, pkg)
  }

  ghost predicate SameKey(k: Wire.DefKey, t: Option<DamlType>, pkg: Wire.Package)
    requires Wire.Acyclic(pkg)
  {
    if k.NoKey? then t.None? else t.Some? && SameType(k.ty, t.value, pkg)
  }

  ghost predicate SameTemplate(
    t: Wire.DefTemplate, fs: seq<Wire.FieldWithType>, data: DamlData, path: Path, pkg: Wire.Package)
    requires Wire.Acyclic(pkg)
  {
    && data.Template? && SameFields(fs, data.fields, pkg) && SameChoices(t.choices, data.choices, path, pkg)
    && Spells(t.param, data.param, pkg) && SameKey(t.key, data.key, pkg)
    && SameNames(t.implements, data.implements, pkg)
  }

  /** The last template for the records with that dotted-name index. */
  ghost predicate LastFor(ts: seq<Wire.DefTemplate>, k: int, name: int) {
    0 <= k < |ts| && ts[k].tycon == name && forall l :: k < l < |ts| ==> ts[l].tycon != name
  }

  /** A record some template wraps is the last such template, which has no type parameters; every other data
      type keeps its kind and its type parameters. */
  ghost predicate SameData(
    d: Wire.DefDataType, data: DamlData, ts: seq<Wire.DefTemplate>, path: Path, pkg: Wire.Package)
    requires Wire.Acyclic(pkg)
  {
    && data.serializable == d.serializable && data.packageId == pkg.packageId && data.modulePath == path
    && match d.cons
       case ConsRecord(fs) =>
         if exists k :: LastFor(ts, k, d.name)
         then exists k :: LastFor(ts, k, d.name) && SameTemplate(ts[k], fs, data, path, pkg)
         else data.Record? && SameFields(fs, data.fields, pkg) && SameTypeVars(d.params, data.typeParams, pkg)
       case ConsVariant(fs) =>
         data.Variant? && SameFields(fs, data.fields, pkg) && SameTypeVars(d.params, data.typeParams, pkg)
       case ConsEnum(cs) =>
         data.Enum? && SameTypeVars(d.params, data.typeParams, pkg) && SpellsAll(cs, data.constructors, pkg)
       case _ => false
  }

  // ---------- Conversion is faithful ----------

  /** Templates are found by index, and of several with one index the last. */
  lemma LastTemplateWins(ts: seq<Wire.DefTemplate>, name: int)
    ensures name in TemplateByTycon(ts) <==> exists k :: LastFor(ts, k, name)
    ensures forall k :: LastFor(ts, k, name) ==>
      name in TemplateByTycon(ts) && TemplateByTycon(ts)[name] == ts[k]
  {
    hide TemplateByTycon, LastFor;
    if name in TemplateByTycon(ts) {
      var k := LastFound(ts, name);
    }
    forall k | LastFor(ts, k, name)
      ensures 0 <= k < |ts| && name in TemplateByTycon(ts) && TemplateByTycon(ts)[name] == ts[k]
    {
      assert 0 <= k < |ts| && ts[k] in ts && ts[k].tycon == name by { LastIsOne(ts, k, name); }
      var l := LastFound(ts, name);
      OnlyLast(ts, k, l, name);
    }
  }

  lemma {:induction false} LastFound(ts: seq<Wire.DefTemplate>, name: int) returns (k: int)
    requires name in TemplateByTycon(ts)
    ensures LastFor(ts, k, name) && TemplateByTycon(ts)[name] == ts[k]
  {
    hide LastFor;
    var init, last := ts[..|ts| - 1], ts[|ts| - 1];
    if last.tycon == name {
      k := |ts| - 1;
      NewLast(ts, name);
    } else {
      k := LastFound(init, name);
      StillLast(ts, k, name);
    }
  }

  lemma NewLast(ts: seq<Wire.DefTemplate>, name: int)
    requires ts != [] && ts[|ts| - 1].tycon == name
    ensures LastFor(ts, |ts| - 1, name)
  {
  }

  lemma StillLast(ts: seq<Wire.DefTemplate>, k: int, name: int)
    requires ts != [] && ts[|ts| - 1].tycon != name && LastFor(ts[..|ts| - 1], k, name)
    ensures LastFor(ts, k, name) && ts[k] == ts[..|ts| - 1][k]
  {
    var init := ts[..|ts| - 1];
    assert forall l :: 0 <= l < |init| ==> init[l] == ts[l];
  }

  lemma LastIsOne(ts: seq<Wire.DefTemplate>, k: int, name: int)
    requires LastFor(ts, k, name)
    ensures 0 <= k < |ts| && ts[k].tycon == name
  {
  }

  lemma OnlyLast(ts: seq<Wire.DefTemplate>, k: int, l: int, name: int)
    requires LastFor(ts, k, name) && LastFor(ts, l, name)
    ensures k == l
  {
  }

  lemma ChoiceSame(c: Wire.TemplateChoice, pkg: Wire.Package, path: Path)
    requires Wire.Acyclic(pkg) && ConvertChoice(c, pkg, path).Success?
    ensures SameChoice(c, ConvertChoice(c, pkg, path).value, path, pkg)
  {
    hide ConvertType, SameType, Wire.Acyclic;
    var d := ConvertChoice(c, pkg, path).value;
    var f := Wire.FieldWithType(c.argBinder.name, c.argBinder.ty);
    TypeMeans(f.ty, d.fields[0].ty, pkg);
    TypeMeans(c.retType, d.returnType, pkg);
    OneField(f, d.fields[0], pkg);
  }

  lemma OneField(f: Wire.FieldWithType, g: DamlField, pkg: Wire.Package)
    requires Wire.Acyclic(pkg) && Spells(f.name, g.name, pkg) && SameType(f.ty, g.ty, pkg)
    ensures SameFields([f], [g], pkg)
  {
    hide SameType, Wire.Acyclic;
    assert [f][1..] == [] && [g][1..] == [];
    assert SameFields([], [], pkg);
  }

  lemma {:induction false} ChoicesSame(cs: seq<Wire.TemplateChoice>, pkg: Wire.Package, path: Path)
    requires Wire.Acyclic(pkg) && ConvertChoices(cs, pkg, path).Success?
    ensures SameChoices(cs, ConvertChoices(cs, pkg, path).value, path, pkg)
  {
    hide ConvertChoice, SameChoice, Wire.Acyclic;
    if cs != [] {
      ChoicesSame(cs[1..], pkg, path);
      ChoiceSame(cs[0], pkg, path);
      assert forall i :: 0 < i < |cs| ==> cs[i] == cs[1..][i - 1];
    }
  }

  lemma KeySame(k: Wire.DefKey, pkg: Wire.Package)
    requires Wire.Acyclic(pkg) && ConvertDefKey(k, pkg).Success?
    ensures SameKey(k, ConvertDefKey(k, pkg).value, pkg)
  {
    hide ConvertType, SameType, Wire.Acyclic;
    if k.DefKey? {
      TypeMeans(k.ty, ConvertType(k.ty, pkg).value, pkg);
    }
  }

  lemma TemplateSame(
    t: Wire.DefTemplate, name: string, path: Path, fs: seq<Wire.FieldWithType>, pkg: Wire.Package, serializable: bool)
    requires Wire.Acyclic(pkg) && ConvertFields(fs, pkg).Success?
    requires BuildTemplate(t, name, path, ConvertFields(fs, pkg).value, pkg, serializable).Success?
    ensures SameTemplate(
              t, fs, BuildTemplate(t, name, path, ConvertFields(fs, pkg).value, pkg, serializable).value, path, pkg)
  {
    hide ConvertDefKey, SameKey, ConvertFields, ConvertChoices, ConvertQualifiedIds, SameFields, SameChoices, SameNames,
      Wire.Acyclic;
    FieldsMean(fs, ConvertFields(fs, pkg).value, pkg);
    ChoicesSame(t.choices, pkg, path);
    NamesMean(t.implements, ConvertQualifiedIds(t.implements, pkg).value, pkg);
    KeySame(t.key, pkg);
  }

  /** Converting a data type keeps its kind, its fields or constructors in order, and its flags; a record
      a template wraps gets that template's choices, parameter, key and interfaces. */
  lemma DataSame(d: Wire.DefDataType, name: string, pkg: Wire.Package, path: Path, ts: seq<Wire.DefTemplate>)
    requires Wire.Acyclic(pkg)
    requires BuildDataType(d, name, pkg, path, TemplateByTycon(ts)).Success?
    requires BuildDataType(d, name, pkg, path, TemplateByTycon(ts)).value.Some?
    ensures SameData(d, BuildDataType(d, name, pkg, path, TemplateByTycon(ts)).value.value, ts, path, pkg)
  {
    hide ConvertFields, ConvertTypeVars, BuildTemplate, SameTemplate, SameFields, TemplateByTycon, Wire.Acyclic;
    hide SameTypeVars, LastFor, ResolveStrings, SpellsAll;
    TypeVarsConverted(d.params, pkg);
    LastTemplateWins(ts, d.name);
    match d.cons
    case ConsRecord(fs) =>
      FieldsMean(fs, ConvertFields(fs, pkg).value, pkg);
      if d.name in TemplateByTycon(ts) {
        var t := TemplateByTycon(ts)[d.name];
        TemplateSame(t, name, path, fs, pkg, d.serializable);
        TemplateFlags(t, name, path, ConvertFields(fs, pkg).value, pkg, d.serializable);
        var k :| LastFor(ts, k, d.name);
      }
    case ConsVariant(fs) => FieldsMean(fs, ConvertFields(fs, pkg).value, pkg);
    case ConsEnum(cs) => StringsMean(cs, ResolveStrings(cs, pkg).value, pkg);
    case _ =>
  }

  lemma TypeVarsConverted(vs: seq<Wire.TypeVarWithKind>, pkg: Wire.Package)
    requires Wire.Acyclic(pkg) && ConvertTypeVars(vs, pkg).Success?
    ensures SameTypeVars(vs, ConvertTypeVars(vs, pkg).value, pkg)
  {
    hide ConvertTypeVars, SameTypeVars, Wire.AcyclicTypes;
    TypeVarsMean(vs, ConvertTypeVars(vs, pkg).value, pkg);
  }

  lemma TemplateFlags(
    t: Wire.DefTemplate, name: string, path: Path, fields: seq<DamlField>, pkg: Wire.Package, serializable: bool)
    requires Wire.Acyclic(pkg) && BuildTemplate(t, name, path, fields, pkg, serializable).Success?
    ensures var data := BuildTemplate(t, name, path, fields, pkg, serializable).value;
      data.serializable == serializable && data.packageId == pkg.packageId && data.modulePath == path
  {
    hide ConvertChoices, ConvertDefKey, ConvertQualifiedIds, Wire.Acyclic;
  }

  /** The segments of a module and of a dotted name in it. */
  predicate SpellsPath(mod: int, name: int, path: Path, pkg: Wire.Package) {
    && 0 <= mod < |pkg.dottedNames| && 0 <= name < |pkg.dottedNames|
    && SpellsAll(pkg.dottedNames[mod] + pkg.dottedNames[name], path, pkg)
  }

  lemma PathSpelled(mod: int, name: int, pkg: Wire.Package)
    requires ResolveDotted(mod, pkg).Success? && ResolveDotted(name, pkg).Success?
    ensures SpellsPath(mod, name, ResolveDotted(mod, pkg).value + ResolveDotted(name, pkg).value, pkg)
  {
    hide ResolveDotted, SpellsAll;
    var p, q := ResolveDotted(mod, pkg).value, ResolveDotted(name, pkg).value;
    DottedMeans(mod, p, pkg);
    DottedMeans(name, q, pkg);
    SpellsLengths(pkg.dottedNames[mod], p, pkg);
    SpellsBoth(pkg.dottedNames[mod], pkg.dottedNames[name], p, q, pkg);
  }

  // ---------- From the wire to the tree ----------

  /** Where the wire data type `j` ends up among the definitions of its module. */
  lemma {:induction false} DefinitionOf(
    ds: seq<Wire.DefDataType>, j: nat, pkg: Wire.Package, path: Path, templates: map<int, Wire.DefTemplate>)
    returns (k: nat)
    requires Wire.Acyclic(pkg) && ConvertDataTypes(ds, pkg, path, templates).Success?
    requires j < |ds| && !ds[j].cons.ConsInterface?
    ensures ResolveDotted(ds[j].name, pkg).Success? && ResolveDotted(ds[j].name, pkg).value != []
    ensures var segments := ResolveDotted(ds[j].name, pkg).value;
      var defs := ConvertDataTypes(ds, pkg, path, templates).value;
      && k < |defs| && defs[k].prefix + [defs[k].name] == segments
      && BuildDataType(ds[j], defs[k].name, pkg, path + defs[k].prefix, templates) == Success(Some(defs[k].data))
  {
    hide BuildDataType, ResolveDotted, Wire.Acyclic;
    if j == 0 {
      k := 0;
      NoMarker(ds[0], pkg, path, templates);
    } else {
      k := DefinitionOf(ds[1..], j - 1, pkg, path, templates);
      k := k + |ConvertDataType(ds[0], pkg, path, templates).value|;
    }
  }

  lemma NoMarker(d: Wire.DefDataType, pkg: Wire.Package, path: Path, templates: map<int, Wire.DefTemplate>)
    requires Wire.Acyclic(pkg) && ConvertDataType(d, pkg, path, templates).Success? && !d.cons.ConsInterface?
    ensures ResolveDotted(d.name, pkg).Success? && ResolveDotted(d.name, pkg).value != []
    ensures var defs := ConvertDataType(d, pkg, path, templates).value;
      && |defs| == 1 && defs[0].prefix + [defs[0].name] == ResolveDotted(d.name, pkg).value
      && BuildDataType(d, defs[0].name, pkg, path + defs[0].prefix, templates) == Success(Some(defs[0].data))
  {
    hide ResolveDotted, BuildTemplate, ConvertFields, ConvertTypeVars, Wire.Acyclic;
  }

  /** Every data type of the wire package, interfaces apart, is found in the finished tree under its fully
      qualified name and is faithful, unless a later module is installed at its path. */
  lemma WireDataFound(pkg: Wire.Package, i: nat, j: nat) returns (path: Path, name: string)
    requires Wire.Acyclic(pkg) && ConvertModules(pkg.modules, pkg).Success?
    requires DistinctData(ConvertModules(pkg.modules, pkg).value)
    requires i < |pkg.modules| && j < |pkg.modules[i].dataTypes|
    requires !pkg.modules[i].dataTypes[j].cons.ConsInterface?
    ensures var m := pkg.modules[i];
      var built := ConvertModules(pkg.modules, pkg).value;
      && ResolveDotted(m.name, pkg).Success? && ResolveDotted(m.dataTypes[j].name, pkg).Success?
      && path + [name] == ResolveDotted(m.name, pkg).value + ResolveDotted(m.dataTypes[j].name, pkg).value
      && SpellsPath(m.name, m.dataTypes[j].name, path + [name], pkg)
      && (!Overwritten(built, i, path) ==>
           var found := Lookup(F.InsertModules(built), path, name);
           found.Some? && found.value.name == name && SameData(m.dataTypes[j], found.value, m.templates, path, pkg))
  {
    hide ConvertModules, F.InsertModules, DistinctData, BuildDataType, SameData, ResolveDotted, ConvertDataTypes;
    hide Wire.Acyclic;
    var m, built := pkg.modules[i], ConvertModules(pkg.modules, pkg).value;
    assert ConvertModule(m, pkg) == Success(built[i]);
    var at := ResolveDotted(m.name, pkg).value;
    var k := DefinitionOf(m.dataTypes, j, pkg, at, TemplateByTycon(m.templates));
    var def := built[i].definitions[k];
    path, name := at + def.prefix, def.name;
    assert IsDefinition(built, i, k) && PathOf(built, i, k) == path;
    DefinitionFound(built, i, k);
    DataSame(m.dataTypes[j], name, pkg, path, m.templates);
    PathSpelled(m.name, m.dataTypes[j].name, pkg);
  }
}
