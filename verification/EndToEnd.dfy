/** From wire package to generated code: the paths the generator prints name the modules it emits. */
module EndToEnd {
  import opened Wrappers
  import opened Element
  import opened Interned
  import opened TypeConversion
  import opened Declarations
  import opened Placement
  import opened Archive
  import opened ArchivePayload
  import opened Identifiers
  import opened Renderer
  import opened TypeRenderer
  import opened Validate
  import opened Occurrences
  import F = FlatTree
  import Order = OrderIndependence
  import Wire

  // ---------- The archive's generated code ----------

  /** `ids` lists every package once, in the order the package map happens to give them. */
  ghost predicate Enumerates(ids: seq<string>, a: DamlArchive) {
    && (forall id :: id in ids <==> id in a.packages)
    && (forall i, j :: 0 <= i < j < |ids| ==> ids[i] != ids[j])
  }

  /** Packages are named, by names that give different identifiers, and so are sibling modules. */
  ghost predicate NamesApart(s: Settings, a: DamlArchive) {
    && (forall id :: id in a.packages ==> a.packages[id].name != "" && SiblingsApart(s, a.packages[id].root))
    && (forall id, id' :: id in a.packages && id' in a.packages && id != id' ==>
          s.ModIdent(a.packages[id].name) != s.ModIdent(a.packages[id'].name))
  }

  lemma {:induction false} PackageFound(s: Settings, a: DamlArchive, ids: seq<string>, id: string)
    requires (forall x :: x in ids ==> x in a.packages) && id in a.packages
    requires forall i, j :: 0 <= i < j < |ids| ==> ids[i] != ids[j]
    requires forall x, y :: x in a.packages && y in a.packages && x != y ==>
      s.ModIdent(a.packages[x].name) != s.ModIdent(a.packages[y].name)
    ensures FindMod(QuoteArchive(s, a, ids), s.ModIdent(a.packages[id].name)) ==
            if id in ids then First(QuotePackage(s, a.packages[id])) else None
  {
    hide QuoteModule;
    if ids != [] {
      PackageFound(s, a, ids[1..], id);
      FindIn(QuotePackage(s, a.packages[ids[0]]), QuoteArchive(s, a, ids[1..]), s.ModIdent(a.packages[id].name));
    }
  }

  /** The mod a path in the archive's code names is the one the package itself rendered there. */
  lemma ResolvesInPackage(s: Settings, a: DamlArchive, ids: seq<string>, id: string, path: Path)
    requires Enumerates(ids, a) && NamesApart(s, a) && id in a.packages
    ensures Resolve(QuoteArchive(s, a, ids), ModIdents(s, [a.packages[id].name] + path))
         == Resolve(QuotePackage(s, a.packages[id]), [s.ModIdent(a.packages[id].name)] + ModIdents(s, path))
  {
    hide QuoteModule, SiblingsApart;
    var p := a.packages[id];
    PackageFound(s, a, ids, id);
    FindOne(QuotePackage(s, p), s.ModIdent(p.name));
    ModIdentsStep(s, p.name, path);
  }

  lemma {:induction false} RootReal(bs: seq<BuiltModule>)
    ensures [] in F.InsertModules(bs) && !F.InsertModules(bs)[[]].synthetic
  {
    hide F.InsertModule;
    RootStays(bs);
    if bs != [] {
      RootReal(bs[..|bs| - 1]);
      InsertModuleAt(F.InsertModules(bs[..|bs| - 1]), bs[|bs| - 1], []);
    }
  }

  /** A definition is keyed by the name it carries. */
  lemma FoundUnderOwnName(pkg: Wire.Package, path: Path, name: string)
    requires Wire.Acyclic(pkg) && ConvertModules(pkg.modules, pkg).Success?
    requires Lookup(F.InsertModules(ConvertModules(pkg.modules, pkg).value), path, name).Some?
    ensures Lookup(F.InsertModules(ConvertModules(pkg.modules, pkg).value), path, name).value.name == name
  {
    hide F.InsertModules, ConvertModules, ConvertModule, Wire.Acyclic;
    var built := ConvertModules(pkg.modules, pkg).value;
    OnlyDefinitionsFound(built, path, name);
    var i: nat, k: nat :| IsDefinition(built, i, k) && PathOf(built, i, k) == path && NameOf(built, i, k) == name &&
                Lookup(F.InsertModules(built), path, name) == Some(DataOf(built, i, k));
    assert ConvertModule(pkg.modules[i], pkg) == Success(built[i]);
    assert built[i].definitions[k] in built[i].definitions;
  }

  lemma RootWellFormed(a: DamlArchive, packages: map<string, Wire.Package>, id: string)
    requires ArchiveOf(a, packages) && id in packages
    ensures WellFormed(a.packages[id].root)
  {
    hide ConvertModules, F.InsertModules, Wire.Acyclic;
    assert PackageOf(a.packages[id], packages[id]);
    ViewWellFormed(
      a.packages[id].root, F.InsertModules(ConvertModules(packages[id].modules, packages[id]).value), []);
  }

  ghost predicate Contains(m: Option<Mod>, item: Item) {
    m.Some? && item in m.value.items
  }

  /** The mod rendered for the module at `path` holds an item of that module exactly when the module
      renders its declarations. */
  lemma ItemOfModule(s: Settings, a: DamlArchive, ids: seq<string>, id: string, path: Path, item: Item)
    requires Enumerates(ids, a) && NamesApart(s, a) && id in a.packages && WellFormed(a.packages[id].root)
    requires a.FindModule(id, path).Some? && item in Items(s, a.FindModule(id, path).value)
    ensures Contains(Resolve(QuoteArchive(s, a, ids), ModIdents(s, [a.packages[id].name] + path)), item)
        <==> RendersAt(s, a.packages[id].root, false, path)
  {
    hide Items, RendersData, Resolve, ModIdents, FlagAt, SiblingsApart;
    var p := a.packages[id];
    ResolvesInPackage(s, a, ids, id, path);
    assert SiblingsApart(s, p.root);
    RenderedWhereNamed(s, p.name, p.root, false, path);
  }

  /** A path of names that become the same identifiers as those of `path`. */
  ghost predicate SpelledAlike(s: Settings, path: Path, other: Path) {
    ModIdents(s, other) == ModIdents(s, path)
  }

  /** Following the identifiers of a path in the generated code finds an item exactly when some module whose
      path is spelled alike exists, renders its declarations, and declares the item. */
  lemma ItemWhereRendered(s: Settings, a: DamlArchive, ids: seq<string>, id: string, path: Path, item: Item)
    requires Enumerates(ids, a) && NamesApart(s, a) && id in a.packages && WellFormed(a.packages[id].root)
    ensures Contains(Resolve(QuoteArchive(s, a, ids), ModIdents(s, [a.packages[id].name] + path)), item) <==>
      exists other ::
        && SpelledAlike(s, path, other) && a.FindModule(id, other).Some?
        && item in Items(s, a.FindModule(id, other).value)
        && RendersAt(s, a.packages[id].root, false, other)
  {
    hide Items, RendersAt, Resolve, ModIdents, SiblingsApart, QuoteModule, QuoteArchive, WellFormed;
    var p := a.packages[id];
    ResolvesInPackage(s, a, ids, id, path);
    var at := [s.ModIdent(p.name)] + ModIdents(s, path);
    if Contains(Resolve(QuotePackage(s, p), at), item) {
      var other := ResolvedIsModule(s, p.name, p.root, false, at);
      SameTail(s.ModIdent(p.name), ModIdents(s, path), ModIdents(s, other));
      assert SpelledAlike(s, path, other);
      assert SiblingsApart(s, p.root);
      RenderedWhereNamed(s, p.name, p.root, false, other);
      RenderedItems(s, a, id, other, item);
    }
    forall other | SpelledAlike(s, path, other) && a.FindModule(id, other).Some? &&
      item in Items(s, a.FindModule(id, other).value) && RendersAt(s, p.root, false, other)
      ensures Contains(Resolve(QuoteArchive(s, a, ids), ModIdents(s, [p.name] + path)), item)
    {
      ItemOfModule(s, a, ids, id, other, item);
      ResolvesInPackage(s, a, ids, id, other);
    }
  }

  lemma SameTail(ident: string, a: seq<string>, b: seq<string>)
    ensures [ident] + a == [ident] + b ==> a == b
  {
    assert ([ident] + a)[1..] == a && ([ident] + b)[1..] == b;
  }

  /** What a module rendered holds an item only if it renders its declarations, and they hold it. */
  lemma RenderedItems(s: Settings, a: DamlArchive, id: string, path: Path, item: Item)
    requires id in a.packages && a.FindModule(id, path).Some?
    requires var w, root := a.FindModule(id, path).value, a.packages[id].root;
      Contains(First(QuoteModule(s, if path == [] then a.packages[id].name else w.LocalName(), w,
                                 FlagAt(s, root, false, path))), item)
    ensures item in Items(s, a.FindModule(id, path).value) && RendersAt(s, a.packages[id].root, false, path)
  {
    hide Items, RendersData, FlagAt, QuoteModules;
  }

  /** A data type is found along identifiers exactly where a module whose path is spelled alike declares it and
      renders its declarations. */
  lemma DataWhereRendered(s: Settings, a: DamlArchive, ids: seq<string>, id: string, path: Path, data: DamlData)
    requires Enumerates(ids, a) && NamesApart(s, a) && id in a.packages && WellFormed(a.packages[id].root)
    ensures Contains(Resolve(QuoteArchive(s, a, ids), ModIdents(s, [a.packages[id].name] + path)),
                     DataItem(Escape(data.name), data)) <==>
      exists other ::
        && SpelledAlike(s, path, other) && a.FindModule(id, other).Some?
        && data in a.FindModule(id, other).value.content.dataTypes.Values
        && RendersAt(s, a.packages[id].root, false, other)
  {
    hide RendersAt, Resolve, ModIdents, SiblingsApart, QuoteArchive, WellFormed, Escape, SpelledAlike;
    ItemWhereRendered(s, a, ids, id, path, DataItem(Escape(data.name), data));
  }

  /** The same for an interface, but only by the full method: the other one renders none. */
  lemma InterfaceWhereRendered(
    s: Settings, a: DamlArchive, ids: seq<string>, id: string, path: Path, iface: DamlInterface)
    requires Enumerates(ids, a) && NamesApart(s, a) && id in a.packages && WellFormed(a.packages[id].root)
    ensures Contains(Resolve(QuoteArchive(s, a, ids), ModIdents(s, [a.packages[id].name] + path)),
                     InterfaceItem(Escape(iface.name), iface)) <==>
      s.renderMethod.Full? && exists other ::
        && SpelledAlike(s, path, other) && a.FindModule(id, other).Some?
        && iface in a.FindModule(id, other).value.content.interfaces.Values
        && RendersAt(s, a.packages[id].root, false, other)
  {
    hide RendersAt, Resolve, ModIdents, SiblingsApart, QuoteArchive, WellFormed, Escape, SpelledAlike;
    ItemWhereRendered(s, a, ids, id, path, InterfaceItem(Escape(iface.name), iface));
  }

  /** End to end, for one data type: the path printed for a reference to it names a mod that holds it
      exactly when the module it lives in is rendered. */
  lemma PrintedPathNamesData(
    s: Settings, a: DamlArchive, packages: map<string, Wire.Package>, ids: seq<string>, name: DamlTyConName,
    data: DamlData)
    requires ArchiveOf(a, packages) && Enumerates(ids, a) && NamesApart(s, a)
    requires name.Absolute? && name.packageId in packages && name.packageName == packages[name.packageId].name
    requires a.DataByTyConName(name) == Some(data)
    ensures Contains(
              Resolve(QuoteArchive(s, a, ids), QuoteAbsolutePath(s, name).segments),
              DataItem(Escape(name.dataName), data))
        <==> RendersAt(s, a.packages[name.packageId].root, false, name.modulePath)
  {
    hide ConvertModules, F.InsertModules, Wire.Acyclic, Escape, ModIdents, Resolve, RendersAt, ViewOf, SiblingsApart,
      WellFormed;
    var id := name.packageId;
    assert PackageOf(a.packages[id], packages[id]);
    RootWellFormed(a, packages, id);
    LookupInTree(a, packages, id, name.modulePath, name.dataName);
    FoundUnderOwnName(packages[id], name.modulePath, name.dataName);
    var v := a.FindModule(id, name.modulePath).value;
    assert v.content.dataTypes[name.dataName] == data;
    ItemOfModule(s, a, ids, id, name.modulePath, DataItem(Escape(data.name), data));
  }

  // ---------- Names carry their package's name ----------

  ghost predicate Stamps(names: set<DamlTyConName>, pkg: Wire.Package) {
    forall n :: n in names ==> n.Absolute? && n.packageName == ResolvePackageName(pkg, n.packageId)
  }

  lemma {:induction false} TypeStamped(t: Wire.Type, pkg: Wire.Package)
    requires Wire.Acyclic(pkg) && ConvertType(t, pkg).Success?
    ensures Stamps(Names(ConvertType(t, pkg).value), pkg)
    decreases Wire.TypeBound(t, Wire.TypeRank(pkg.types)), t
  {
    hide ResolvePackageName, ResolveString, ResolveDotted, ConvertTypeVars, ResolveModuleId;
    match t
    case TypeVar(_, args) => TypesStamped(args, pkg);
    case TypeCon(_, args) => TypesStamped(args, pkg);
    case TypeSyn(_, args) => TypesStamped(args, pkg);
    case TypeBuiltin(b, args) =>
      TypesStamped(args, pkg);
      BuiltinStamped(b, ConvertTypes(args, pkg).value);
    case TypeForall(_, body) => TypeStamped(body, pkg);
    case TypeStruct(fields) => FieldsStamped(fields, pkg);
    case TypeInterned(idx) => TypeStamped(pkg.types[idx], pkg);
    case _ =>
  }

  lemma BuiltinStamped(b: Wire.BuiltinType, args: seq<DamlType>)
    requires !b.UnknownBuiltinType? && ApplyBuiltin(b, args).Success?
    ensures Names(ApplyBuiltin(b, args).value) <= NamesOfAll(args)
  {
  }

  lemma {:induction false} TypesStamped(ts: seq<Wire.Type>, pkg: Wire.Package)
    requires Wire.Acyclic(pkg) && ConvertTypes(ts, pkg).Success?
    ensures Stamps(NamesOfAll(ConvertTypes(ts, pkg).value), pkg)
    decreases Wire.TypesBound(ts, Wire.TypeRank(pkg.types)), ts
  {
    hide ResolvePackageName;
    if ts != [] {
      TypeStamped(ts[0], pkg);
      TypesStamped(ts[1..], pkg);
      var tail := ConvertTypes(ts[1..], pkg).value;
      assert ConvertTypes(ts, pkg).value[1..] == tail;
    }
  }

  lemma {:induction false} FieldsStamped(fs: seq<Wire.FieldWithType>, pkg: Wire.Package)
    requires Wire.Acyclic(pkg) && ConvertFields(fs, pkg).Success?
    ensures Stamps(NamesOfFields(ConvertFields(fs, pkg).value), pkg)
    ensures forall f :: f in ConvertFields(fs, pkg).value ==> Stamps(Names(f.ty), pkg)
    decreases Wire.FieldsBound(fs, Wire.TypeRank(pkg.types)), fs
  {
    hide ResolvePackageName, ResolveString;
    if fs != [] {
      assert fs[0].ty < fs[0];
      TypeStamped(fs[0].ty, pkg);
      FieldsStamped(fs[1..], pkg);
      var tail := ConvertFields(fs[1..], pkg).value;
      assert ConvertFields(fs, pkg).value[1..] == tail;
    }
  }

  ghost function NameSet(names: seq<DamlTyConName>): set<DamlTyConName> {
    set n | n in names
  }

  ghost predicate DataStamped(d: DamlData, pkg: Wire.Package) {
    && (forall t :: TypeOf(d, t) ==> Stamps(Names(t), pkg))
    && (d.Template? ==> Stamps(NameSet(d.implements), pkg))
  }

  lemma {:induction false} ChoicesStamped(cs: seq<Wire.TemplateChoice>, pkg: Wire.Package, path: Path)
    requires Wire.Acyclic(pkg) && ConvertChoices(cs, pkg, path).Success?
    ensures forall t :: TypeOfChoices(ConvertChoices(cs, pkg, path).value, t) ==> Stamps(Names(t), pkg)
  {
    hide ConvertType, ResolveString, Stamps, Names, Wire.Acyclic;
    if cs != [] {
      ChoicesStamped(cs[1..], pkg, path);
      TypeStamped(cs[0].argBinder.ty, pkg);
      TypeStamped(cs[0].retType, pkg);
      var all, tail := ConvertChoices(cs, pkg, path).value, ConvertChoices(cs[1..], pkg, path).value;
      assert all[1..] == tail;
      forall t | TypeOfChoices(all, t)
        ensures Stamps(Names(t), pkg)
      {
        var c :| c in all && ((c.fields != [] && t == c.fields[0].ty) || t == c.returnType);
        if c in tail {
          assert TypeOfChoices(tail, t);
        }
      }
    }
  }

  lemma {:induction false} IdsStamped(ids: seq<Wire.QualifiedId>, pkg: Wire.Package)
    requires ConvertQualifiedIds(ids, pkg).Success?
    ensures Stamps(NameSet(ConvertQualifiedIds(ids, pkg).value), pkg)
  {
    hide ResolvePackageName, ResolveModuleId, ResolveDotted;
    if ids != [] {
      IdsStamped(ids[1..], pkg);
      assert ConvertQualifiedIds(ids, pkg).value[1..] == ConvertQualifiedIds(ids[1..], pkg).value;
    }
  }

  lemma TemplateStamped(
    t: Wire.DefTemplate, name: string, path: Path, fields: seq<DamlField>, pkg: Wire.Package, serializable: bool)
    requires Wire.Acyclic(pkg) && BuildTemplate(t, name, path, fields, pkg, serializable).Success?
    requires forall f :: f in fields ==> Stamps(Names(f.ty), pkg)
    ensures DataStamped(BuildTemplate(t, name, path, fields, pkg, serializable).value, pkg)
  {
    hide ConvertChoices, ConvertQualifiedIds, ConvertType, Stamps, Names, Wire.Acyclic;
    ChoicesStamped(t.choices, pkg, path);
    IdsStamped(t.implements, pkg);
    if !t.key.NoKey? {
      TypeStamped(t.key.ty, pkg);
    }
  }

  lemma DataTypeStamped(
    d: Wire.DefDataType, name: string, pkg: Wire.Package, path: Path, templates: map<int, Wire.DefTemplate>)
    requires Wire.Acyclic(pkg) && BuildDataType(d, name, pkg, path, templates).Success?
    requires BuildDataType(d, name, pkg, path, templates).value.Some?
    ensures DataStamped(BuildDataType(d, name, pkg, path, templates).value.value, pkg)
  {
    hide ConvertFields, ConvertTypeVars, BuildTemplate, ResolveStrings, Stamps, Names, Wire.Acyclic;
    match d.cons
    case ConsRecord(fields) =>
      FieldsStamped(fields, pkg);
      if d.name in templates {
        TemplateStamped(templates[d.name], name, path, ConvertFields(fields, pkg).value, pkg, d.serializable);
      }
    case ConsVariant(fields) => FieldsStamped(fields, pkg);
    case _ =>
  }

  lemma {:induction false} DataTypesStamped(
    ds: seq<Wire.DefDataType>, pkg: Wire.Package, path: Path, templates: map<int, Wire.DefTemplate>)
    requires Wire.Acyclic(pkg) && ConvertDataTypes(ds, pkg, path, templates).Success?
    ensures forall def :: def in ConvertDataTypes(ds, pkg, path, templates).value ==> DataStamped(def.data, pkg)
  {
    hide BuildDataType, DataStamped, ResolveDotted, Wire.Acyclic;
    if ds != [] {
      DataTypesStamped(ds[1..], pkg, path, templates);
      var (last, prefix) := SplitLast(ResolveDotted(ds[0].name, pkg).value, MissingRequiredField).value;
      if BuildDataType(ds[0], last, pkg, path + prefix, templates).value.Some? {
        DataTypeStamped(ds[0], last, pkg, path + prefix, templates);
      }
    }
  }

  lemma ModuleStamped(m: Wire.Module, pkg: Wire.Package)
    requires Wire.Acyclic(pkg) && ConvertModule(m, pkg).Success?
    ensures forall def :: def in ConvertModule(m, pkg).value.definitions ==> DataStamped(def.data, pkg)
  {
    hide ConvertDataTypes, ConvertSynonyms, ConvertInterfaces, ConvertExceptions, DataStamped, ResolveDotted,
      TemplateByTycon, Wire.Acyclic;
    DataTypesStamped(m.dataTypes, pkg, ResolveDotted(m.name, pkg).value, TemplateByTycon(m.templates));
  }

  /** Every name in the types of a declaration of the archive, and in its `implements` list, is absolute and
      carries its package's name. */
  lemma FoundDataStamped(pkg: Wire.Package, path: Path, name: string)
    requires Wire.Acyclic(pkg) && ConvertModules(pkg.modules, pkg).Success?
    requires Lookup(F.InsertModules(ConvertModules(pkg.modules, pkg).value), path, name).Some?
    ensures DataStamped(Lookup(F.InsertModules(ConvertModules(pkg.modules, pkg).value), path, name).value, pkg)
  {
    hide F.InsertModules, ConvertModules, ConvertModule, DataStamped, Wire.Acyclic;
    var built := ConvertModules(pkg.modules, pkg).value;
    OnlyDefinitionsFound(built, path, name);
    var i: nat, k: nat :| IsDefinition(built, i, k) && PathOf(built, i, k) == path && NameOf(built, i, k) == name &&
                Lookup(F.InsertModules(built), path, name) == Some(DataOf(built, i, k));
    assert ConvertModule(pkg.modules[i], pkg) == Success(built[i]);
    ModuleStamped(pkg.modules[i], pkg);
    assert built[i].definitions[k] in built[i].definitions;
  }

  // ---------- The whole pipeline ----------

  lemma RootIsReal(a: DamlArchive, packages: map<string, Wire.Package>, id: string)
    requires ArchiveOf(a, packages) && id in packages
    ensures !a.packages[id].root.content.synthetic
  {
    hide ConvertModules, F.InsertModules, Wire.Acyclic;
    assert PackageOf(a.packages[id], packages[id]);
    RootReal(ConvertModules(packages[id].modules, packages[id]).value);
  }

  ghost predicate Valid(a: DamlArchive) {
    forall e :: !Violates(a, e)
  }

  lemma ValidMeans(a: DamlArchive, e: ConvertError)
    requires Valid(a)
    ensures !Violates(a, e)
  {
  }

  /** A name in a type of a declaration that does not resolve is a violation. */
  lemma UnresolvedName(
    a: DamlArchive, id: string, path: Path, name: string, t: DamlType, n: DamlTyConName)
    requires id in a.packages && WellFormed(a.packages[id].root)
    requires a.Data(id, path, name).Some? && TypeOf(a.Data(id, path, name).value, t) && n in Names(t)
    ensures Resolves(a, n) || Violates(a, NameError(a, n))
  {
    hide Names, NameError, Resolves, WellFormed, ModuleViolation, InterfaceViolation;
    if !Resolves(a, n) {
      var e := NameError(a, n);
      var m, data := a.FindModule(id, path).value, a.Data(id, path, name).value;
      assert TypeViolation(a, t, e);
      TypeViolates(a, data, t, e);
      assert DataViolation(a, m.content.dataTypes[name], e);
      assert ViolationAt(a, a.packages[id].root, path, e);
      CheckedByPath(a, a.packages[id].root, e);
    }
  }

  lemma TypeViolates(a: DamlArchive, d: DamlData, t: DamlType, e: ConvertError)
    requires TypeOf(d, t) && TypeViolation(a, t, e)
    ensures DataViolation(a, d, e)
  {
    hide TypeViolation, ResolvesToRecord, ChoicesViolation, TypeOfChoices;
    if f :| f in Fields(d) && t == f.ty {
      assert FieldsViolation(a, Fields(d), e);
    } else if d.Template? && TypeOfChoices(d.choices, t) {
      ChoiceTypeViolates(a, d.choices, t, e);
    }
  }

  lemma ChoiceTypeViolates(a: DamlArchive, cs: seq<DamlChoice>, t: DamlType, e: ConvertError)
    requires TypeOfChoices(cs, t) && TypeViolation(a, t, e)
    ensures ChoicesViolation(a, cs, e)
  {
    hide TypeViolation, ResolvesToRecord;
    var c :| c in cs && ((c.fields != [] && t == c.fields[0].ty) || t == c.returnType);
    assert ChoiceViolation(a, c, e);
  }

  /** The argument of a choice is printed without being checked. In a valid archive it names a record, and it
      prints exactly when none of the types that record is applied to has anything unsupported in a printed
      position. */
  lemma ChoiceArgumentPrints(s: Settings, a: DamlArchive, id: string, path: Path, name: string, c: DamlChoice)
    requires id in a.packages && WellFormed(a.packages[id].root) && Valid(a)
    requires a.Data(id, path, name).Some? && a.Data(id, path, name).value.Template?
    requires c in a.Data(id, path, name).value.choices
    ensures c.fields != [] && ResolvesToRecord(a, c.fields[0].ty)
    ensures QuoteType(s, c.fields[0].ty).Success?
        <==> forall i :: 0 <= i < |c.fields[0].ty.args| ==> Printable(c.fields[0].ty.args[i])
  {
    hide WellFormed, ModuleViolation, InterfaceViolation, ResolvesToRecord, QuoteType, Violates, TypeViolation,
      FieldsViolation;
    if c.fields == [] || !ResolvesToRecord(a, c.fields[0].ty) {
      var data := a.Data(id, path, name).value;
      assert ChoiceViolation(a, c, UnexpectedChoiceData);
      assert ChoicesViolation(a, data.choices, UnexpectedChoiceData);
      assert DataViolation(a, data, UnexpectedChoiceData);
      assert ViolationAt(a, a.packages[id].root, path, UnexpectedChoiceData) by {
        assert a.FindModule(id, path).value.content.dataTypes[name] == data;
      }
      CheckedByPath(a, a.packages[id].root, UnexpectedChoiceData);
      assert Violates(a, UnexpectedChoiceData) by { ModuleViolates(a, id, UnexpectedChoiceData); }
      ValidMeans(a, UnexpectedChoiceData);
      assert false;
    }
    RecordPrints(s, a, c.fields[0].ty);
  }

  lemma ModuleViolates(a: DamlArchive, id: string, e: ConvertError)
    requires id in a.packages && ModuleViolation(a, a.packages[id].root, e)
    ensures Violates(a, e)
  {
    hide ModuleViolation;
  }

  lemma RecordPrints(s: Settings, a: DamlArchive, t: DamlType)
    requires ResolvesToRecord(a, t)
    ensures (t.TTyCon? || t.TBoxedTyCon?) &&
      (QuoteType(s, t).Success? <==> forall i :: 0 <= i < |t.args| ==> Printable(t.args[i]))
  {
    hide QuoteType;
    PrintsIffPrintable(s, t);
  }

  /** The path printed for a name leads to a mod that holds the data type, or an interface, the name stands
      for. */
  ghost predicate NameFound(s: Settings, a: DamlArchive, ids: seq<string>, n: DamlTyConName)
    requires forall id :: id in ids ==> id in a.packages
  {
    n.Absolute? &&
    var mod := Resolve(QuoteArchive(s, a, ids), QuoteAbsolutePath(s, n).segments);
    var data := a.DataByTyConName(n);
    if data.Some? then Contains(mod, DataItem(Escape(n.dataName), data.value))
    else exists i :: StandsFor(a, n, i) && Contains(mod, InterfaceItem(Escape(n.dataName), i))
  }

  /** `i` is what the name finds among the interfaces of the archive. */
  ghost predicate StandsFor(a: DamlArchive, n: DamlTyConName, i: DamlInterface) {
    var m := a.FindModule(n.ReferencePackage(), n.ReferencePath());
    m.Some? && i.name == n.dataName && i in m.value.content.interfaces.Values
  }

  lemma ResolvedNameMentioned(
    s: Settings, a: DamlArchive, packages: map<string, Wire.Package>, ids: seq<string>, n: DamlTyConName)
    requires ArchiveOf(a, packages) && Enumerates(ids, a) && NamesApart(s, a)
    requires |s.matcher.matchers| == 0 && s.renderMethod.Full?
    requires n.Absolute? && Resolves(a, n)
    requires n.packageId in packages ==> n.packageName == packages[n.packageId].name
    ensures NameFound(s, a, ids, n)
  {
    hide Escape, ModIdents, Resolve, RendersAt, SiblingsApart, WellFormed, PackageOf, QuoteArchive;
    var id := n.packageId;
    RootWellFormed(a, packages, id);
    RootIsReal(a, packages, id);
    UnfilteredRenders(s, a.packages[id].root, false, n.modulePath);
    var v := a.FindModule(id, n.modulePath).value;
    if a.DataByTyConName(n).Some? {
      PrintedPathNamesData(s, a, packages, ids, n, a.DataByTyConName(n).value);
    } else {
      var k :| k in v.content.interfaces && v.content.interfaces[k].name == n.dataName;
      assert StandsFor(a, n, v.content.interfaces[k]);
      ItemOfModule(
        s, a, ids, id, n.modulePath, InterfaceItem(Escape(n.dataName), v.content.interfaces[k]));
    }
    assert a.packages[id].name == packages[id].name by { PackageNamed(a, packages, id); }
  }

  lemma PackageNamed(a: DamlArchive, packages: map<string, Wire.Package>, id: string)
    requires ArchiveOf(a, packages) && id in packages
    ensures a.packages[id].name == packages[id].name
  {
    hide ConvertModules, F.InsertModules, Wire.Acyclic;
    assert PackageOf(a.packages[id], packages[id]);
  }

  /** The pipeline as a whole: in the unfiltered code generated for a valid archive, of every type of a
      declaration, a type the renderability check accepts is printed, and if a type is printed, every path
      in it belongs to a name of the type and leads to the very declaration the name stands for. */
  lemma GeneratedReferencesResolve(
    s: Settings, a: DamlArchive, packages: map<string, Wire.Package>, ids: seq<string>, mode: RenderFilterMode,
    id: string, path: Path, name: string, t: DamlType)
    requires ArchiveOf(a, packages) && SharedNames(packages) && Enumerates(ids, a) && NamesApart(s, a) && Valid(a)
    requires |s.matcher.matchers| == 0 && s.renderMethod.Full?
    requires a.Data(id, path, name).Some? && TypeOf(a.Data(id, path, name).value, t)
    ensures CheckType(a, mode, t) ==> QuoteType(s, t).Success?
    ensures QuoteType(s, t).Success? ==>
      forall m :: m in Mentions(QuoteType(s, t).value) ==>
        exists n :: n in Names(t) && m == MentionOf(s, n) && NameFound(s, a, ids, n)
  {
    hide ConvertModules, F.InsertModules, PackageOf, Names, Mentions, QuoteType, CheckType, Valid, NameFound,
      Resolves, ResolvePackageName, MentionOf, SiblingsApart, TypeOf, WellFormed;
    if CheckType(a, mode, t) {
      CheckedTypePrints(a, mode, s, t);
    }
    if QuoteType(s, t).Success? {
      MentionsAreNames(s, t);
      RootWellFormed(a, packages, id);
      DataTypesNamed(a, packages, id, path, name, t);
      forall m | m in Mentions(QuoteType(s, t).value)
        ensures exists n :: n in Names(t) && m == MentionOf(s, n) && NameFound(s, a, ids, n)
      {
        var n :| n in Names(t) && m == MentionOf(s, n);
        UnresolvedName(a, id, path, name, t, n);
        assert Resolves(a, n) by { ValidMeans(a, NameError(a, n)); }
        PackageNameAgrees(packages, id, n.packageId);
        ResolvedNameMentioned(s, a, packages, ids, n);
      }
    }
  }

  lemma DataTypesNamed(
    a: DamlArchive, packages: map<string, Wire.Package>, id: string, path: Path, name: string, t: DamlType)
    requires ArchiveOf(a, packages) && id in packages
    requires a.Data(id, path, name).Some? && TypeOf(a.Data(id, path, name).value, t)
    ensures Stamps(Names(t), packages[id])
  {
    hide ConvertModules, F.InsertModules, Wire.Acyclic, Names, Stamps, TypeOf;
    assert PackageOf(a.packages[id], packages[id]);
    LookupInTree(a, packages, id, path, name);
    FoundDataStamped(packages[id], path, name);
  }
}
