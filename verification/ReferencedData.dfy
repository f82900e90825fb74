/** What the checks that look at the target of a reference see of it: each in terms of the wire data type the
    reference names. */
module ReferencedData {
  import opened Wrappers
  import opened Element
  import opened Interned
  import opened TypeConversion
  import opened Declarations
  import opened Placement
  import opened Archive
  import opened ArchivePayload
  import opened TypeFidelity
  import opened Fidelity
  import opened TypeRenderer
  import opened Validate
  import F = FlatTree
  import Wire

  /** The name is that of data type `j` of module `i` of the package it points into. */
  ghost predicate NamesDataType(n: DamlTyConName, pkg: Wire.Package, i: int, j: int) {
    && 0 <= i < |pkg.modules| && 0 <= j < |pkg.modules[i].dataTypes|
    && !pkg.modules[i].dataTypes[j].cons.ConsInterface?
    && SpellsPath(pkg.modules[i].name, pkg.modules[i].dataTypes[j].name, n.ReferencePath() + [n.dataName], pkg)
  }

  /** The same in a converted archive, and no later module is installed where the name points. */
  ghost predicate NamesKept(a: DamlArchive, packages: map<string, Wire.Package>, n: DamlTyConName, i: nat, j: nat) {
    && ArchiveOf(a, packages) && n.ReferencePackage() in packages
    && var pkg := packages[n.ReferencePackage()];
       && NamesDataType(n, pkg, i, j) && PackageOf(a.packages[n.ReferencePackage()], pkg)
       && DistinctData(ConvertModules(pkg.modules, pkg).value)
       && !Overwritten(ConvertModules(pkg.modules, pkg).value, i, n.ReferencePath())
  }

  lemma SpelledOnce(indices: seq<int>, p: Path, q: Path, pkg: Wire.Package)
    requires SpellsAll(indices, p, pkg) && SpellsAll(indices, q, pkg)
    ensures p == q
  {
  }

  /** A name of a data type finds it as it is written, unless a later module is installed at its path. */
  lemma NamedDataFound(
    a: DamlArchive, packages: map<string, Wire.Package>, n: DamlTyConName, i: nat, j: nat)
    requires NamesKept(a, packages, n, i, j)
    ensures n.ReferencePackage() in packages && Wire.Acyclic(packages[n.ReferencePackage()])
    ensures 0 <= i < |packages[n.ReferencePackage()].modules|
    ensures 0 <= j < |packages[n.ReferencePackage()].modules[i].dataTypes|
    ensures var pkg := packages[n.ReferencePackage()];
      var m := pkg.modules[i];
      && a.DataByTyConName(n).Some?
      && SameData(m.dataTypes[j], a.DataByTyConName(n).value, m.templates, n.ReferencePath(), pkg)
  {
    hide ConvertModules, F.InsertModules, DistinctData, SameData, SpellsAll, Wire.Acyclic, ResolveDotted;
    var id := n.ReferencePackage();
    var pkg := packages[id];
    assert PackageOf(a.packages[id], pkg);
    var m := pkg.modules[i];
    var path, name := WireDataFound(pkg, i, j);
    SpelledOnce(
      pkg.dottedNames[m.name] + pkg.dottedNames[m.dataTypes[j].name], path + [name],
      n.ReferencePath() + [n.dataName], pkg);
    assert (path + [name])[..|path|] == path && (n.ReferencePath() + [n.dataName])[..|path|] == n.ReferencePath();
    assert (path + [name])[|path|] == name && (n.ReferencePath() + [n.dataName])[|path|] == n.dataName;
    LookupInTree(a, packages, id, path, name);
  }

  // ---------- Filter modes ----------

  /** A kind that is an arrow once interned nodes are followed. */
  ghost predicate IsArrow(k: Wire.Kind, kinds: seq<Wire.Kind>)
    requires Wire.AcyclicKinds(kinds)
    decreases Wire.KindBound(k, Wire.KindRank(kinds)), k
  {
    match k
    case KindArrow(_, _) => true
    case KindInterned(idx) => 0 <= idx < |kinds| && IsArrow(kinds[idx], kinds)
    case _ => false
  }

  lemma {:induction false} ArrowConverts(k: Wire.Kind, g: DamlKind, kinds: seq<Wire.Kind>)
    requires Wire.AcyclicKinds(kinds) && SameKind(k, g, kinds)
    ensures g.KArrow? <==> IsArrow(k, kinds)
    decreases Wire.KindBound(k, Wire.KindRank(kinds)), k
  {
    if k.KindInterned? {
      ArrowConverts(kinds[k.idx], g, kinds);
    }
  }

  /** Some parameter is itself a type constructor. */
  ghost predicate HigherKinded(d: Wire.DefDataType, pkg: Wire.Package)
    requires Wire.AcyclicKinds(pkg.kinds)
  {
    exists k :: 0 <= k < |d.params| && IsArrow(d.params[k].kind, pkg.kinds)
  }

  /** A template of the module wraps the record. */
  ghost predicate Wrapped(d: Wire.DefDataType, ts: seq<Wire.DefTemplate>) {
    d.cons.ConsRecord? && exists t :: t in ts && t.tycon == d.name
  }

  lemma WrappedHasLast(d: Wire.DefDataType, ts: seq<Wire.DefTemplate>)
    requires d.cons.ConsRecord?
    ensures Wrapped(d, ts) <==> exists k :: LastFor(ts, k, d.name)
  {
    LastTemplateWins(ts, d.name);
    if t :| t in ts && t.tycon == d.name {
      assert t.tycon in TemplateByTycon(ts);
    }
    if d.name in TemplateByTycon(ts) {
      assert TemplateByTycon(ts)[d.name] in ts;
    }
  }

  lemma ParamsConvert(d: Wire.DefDataType, ws: seq<DamlTypeVarWithKind>, pkg: Wire.Package)
    requires Wire.AcyclicKinds(pkg.kinds) && SameTypeVars(d.params, ws, pkg)
    ensures (forall p :: p in ws ==> !p.kind.KArrow?) <==> !HigherKinded(d, pkg)
  {
    hide SameKind, IsArrow;
    forall k | 0 <= k < |ws|
      ensures ws[k].kind.KArrow? <==> IsArrow(d.params[k].kind, pkg.kinds)
    {
      assert SameTypeVar(d.params[k], ws[k], pkg);
      ArrowConverts(d.params[k].kind, ws[k].kind, pkg.kinds);
    }
    if k :| 0 <= k < |d.params| && IsArrow(d.params[k].kind, pkg.kinds) {
      assert ws[k] in ws;
    }
  }

  /** What each mode and the check for records see of a data type that is as written. */
  lemma SeenOfData(d: Wire.DefDataType, data: DamlData, ts: seq<Wire.DefTemplate>, path: Path, pkg: Wire.Package)
    requires Wire.Acyclic(pkg) && SameData(d, data, ts, path, pkg)
    ensures (forall p :: p in TypeParams(data) ==> !p.kind.KArrow?) <==> Wrapped(d, ts) || !HigherKinded(d, pkg)
    ensures data.serializable == d.serializable
    ensures data.Record? <==> d.cons.ConsRecord? && !Wrapped(d, ts)
  {
    hide SameFields, SameTypeVars, SameTemplate, HigherKinded, LastFor, Wire.AcyclicTypes, Wire.AcyclicKinds;
    if d.cons.ConsRecord? {
      WrappedHasLast(d, ts);
      if Wrapped(d, ts) {
        TemplatesAreTemplates(d, data, ts, path, pkg);
      } else {
        ParamsConvert(d, data.typeParams, pkg);
      }
    } else {
      ParamsConvert(d, data.typeParams, pkg);
    }
  }

  lemma TemplatesAreTemplates(
    d: Wire.DefDataType, data: DamlData, ts: seq<Wire.DefTemplate>, path: Path, pkg: Wire.Package)
    requires Wire.Acyclic(pkg) && SameData(d, data, ts, path, pkg) && d.cons.ConsRecord?
    requires exists k :: LastFor(ts, k, d.name)
    ensures data.Template?
  {
    hide SameFields, SameChoices, SameKey, SameNames, LastFor, Wire.Acyclic;
  }

  /** What the data found under a name of data type `j` of module `i` is seen as. */
  lemma SeenByName(a: DamlArchive, packages: map<string, Wire.Package>, n: DamlTyConName, i: nat, j: nat)
    returns (data: DamlData)
    requires NamesKept(a, packages, n, i, j)
    ensures var pkg := packages[n.ReferencePackage()];
      var d, ts := pkg.modules[i].dataTypes[j], pkg.modules[i].templates;
      && a.DataByTyConName(n) == Some(data)
      && ((forall p :: p in TypeParams(data) ==> !p.kind.KArrow?) <==> Wrapped(d, ts) || !HigherKinded(d, pkg))
      && data.serializable == d.serializable && (data.Record? <==> d.cons.ConsRecord? && !Wrapped(d, ts))
  {
    hide NamesKept, SameData, Wrapped, HigherKinded, Wire.Acyclic;
    NamedDataFound(a, packages, n, i, j);
    var pkg := packages[n.ReferencePackage()];
    var m := pkg.modules[i];
    data := a.DataByTyConName(n).value;
    SeenOfData(m.dataTypes[j], data, m.templates, n.ReferencePath(), pkg);
  }

  /** A field whose type is a reference to a data type is rendered in the default mode exactly when a template
      wraps the type or none of its parameters is itself a type constructor, and in the other mode exactly when
      the type is serializable. */
  lemma FilterModes(a: DamlArchive, packages: map<string, Wire.Package>, n: DamlTyConName, i: nat, j: nat)
    requires NamesKept(a, packages, n, i, j)
    ensures var pkg := packages[n.ReferencePackage()];
      var d, ts := pkg.modules[i].dataTypes[j], pkg.modules[i].templates;
      && (CheckType(a, HigherKindedType, TTyCon(n, [])) <==> Wrapped(d, ts) || !HigherKinded(d, pkg))
      && (CheckType(a, NonSerializable, TTyCon(n, [])) <==> d.serializable)
  {
    hide NamesKept, Wrapped, HigherKinded;
    var data := SeenByName(a, packages, n, i, j);
    assert CheckTypes(a, HigherKindedType, []) && CheckTypes(a, NonSerializable, []);
  }

  /** Both modes let a name pass that finds no data type. */
  lemma UnknownPasses(a: DamlArchive, mode: RenderFilterMode, n: DamlTyConName)
    requires a.DataByTyConName(n).None?
    ensures CheckType(a, mode, TTyCon(n, [])) && CheckType(a, mode, TBoxedTyCon(n, []))
  {
  }

  // ---------- Records ----------

  /** What a choice takes and what an interface shows must be a record: the reference to a data type passes
      exactly when the wire data type is a record no template wraps, whatever it is applied to. */
  lemma RecordsOnly(
    a: DamlArchive, packages: map<string, Wire.Package>, n: DamlTyConName, args: seq<DamlType>, i: nat, j: nat)
    requires NamesKept(a, packages, n, i, j)
    ensures var pkg := packages[n.ReferencePackage()];
      var d, ts := pkg.modules[i].dataTypes[j], pkg.modules[i].templates;
      && (ResolvesToRecord(a, TTyCon(n, args)) <==> d.cons.ConsRecord? && !Wrapped(d, ts))
      && (ResolvesToRecord(a, TBoxedTyCon(n, args)) <==> d.cons.ConsRecord? && !Wrapped(d, ts))
  {
    hide NamesKept, Wrapped, HigherKinded;
    var data := SeenByName(a, packages, n, i, j);
  }
}
