/** When laying a package out again keeps all its modules: exactly when every record keeps the template it
    wraps, or another one with the same content. */
module RenamingExactly {
  import opened Wrappers
  import opened Element
  import opened Interned
  import opened TypeConversion
  import opened Declarations
  import opened Renaming
  import Wire

  // ---------- Templates of a record ----------

  /** The last template whose index goes where that of the record goes. */
  ghost function Merged(ts: seq<Wire.DefTemplate>, r: Renaming, name: int): Option<Wire.DefTemplate> {
    if ts == [] then None
    else if r.dotted(ts[|ts| - 1].tycon) == r.dotted(name) then Some(ts[|ts| - 1])
    else Merged(ts[..|ts| - 1], r, name)
  }

  ghost function Own(ts: seq<Wire.DefTemplate>, name: int): Option<Wire.DefTemplate> {
    if name in TemplateByTycon(ts) then Some(TemplateByTycon(ts)[name]) else None
  }

  lemma {:induction false} MergedFound(ts: seq<Wire.DefTemplate>, r: Renaming, name: int)
    ensures Merged(ts, r, name).Some? <==> r.dotted(name) in TemplateByTycon(RenameTemplates(ts, r))
    ensures Merged(ts, r, name).Some? ==>
      TemplateByTycon(RenameTemplates(ts, r))[r.dotted(name)] == RenameTemplate(Merged(ts, r, name).value, r)
  {
    hide RenameTemplate, RenameTemplates;
    if ts == [] {
      assert RenameTemplates(ts, r) == [];
    } else {
      var init, last := ts[..|ts| - 1], ts[|ts| - 1];
      RenamedTycon(last, r);
      var renamed := RenameTemplates(ts, r);
      assert renamed[..|renamed| - 1] == RenameTemplates(init, r);
      MergedFound(init, r, name);
    }
  }

  /** Template `t` over the new layout and template `u` over the old one have the same parameter, choices, key
      and interfaces. */
  ghost predicate SameContent(
    t: Wire.DefTemplate, u: Wire.DefTemplate, p: Wire.Package, q: Wire.Package, r: Renaming, path: Path)
    requires SamePackage(p, q, r)
  {
    && ResolveString(r.str(t.param), q) == ResolveString(u.param, p)
    && ConvertChoices(RenameChoices(t.choices, r), q, path) == ConvertChoices(u.choices, p, path)
    && ConvertDefKey(RenameTemplate(t, r).key, q) == ConvertDefKey(u.key, p)
    && ConvertQualifiedIds(RenameIds(t.implements, r), q) == ConvertQualifiedIds(u.implements, p)
  }

  /** The record has no template before and after, or templates of the same content. */
  ghost predicate KeepsRecord(
    name: int, p: Wire.Package, q: Wire.Package, r: Renaming, path: Path, ts: seq<Wire.DefTemplate>)
    requires SamePackage(p, q, r)
  {
    match (Merged(ts, r, name), Own(ts, name))
    case (None, None) => true
    case (Some(t), Some(u)) => SameContent(t, u, p, q, r, path)
    case _ => false
  }

  lemma TemplateExactly(
    t: Wire.DefTemplate, u: Wire.DefTemplate, p: Wire.Package, q: Wire.Package, r: Renaming, name: string, path: Path,
    fields: seq<DamlField>, serializable: bool)
    requires SamePackage(p, q, r) && BuildTemplate(u, name, path, fields, p, serializable).Success?
    ensures BuildTemplate(RenameTemplate(t, r), name, path, fields, q, serializable)
         == BuildTemplate(u, name, path, fields, p, serializable)
        <==> SameContent(t, u, p, q, r, path)
  {
    hide ConvertChoices, ConvertQualifiedIds, ConvertDefKey, ResolveString, RenameChoices, RenameIds, Wire.Acyclic;
    assert q.packageId == p.packageId;
    RenamedParts(t, r);
  }

  lemma RenamedParts(t: Wire.DefTemplate, r: Renaming)
    ensures RenameTemplate(t, r).param == r.str(t.param)
    ensures RenameTemplate(t, r).choices == RenameChoices(t.choices, r)
    ensures RenameTemplate(t, r).implements == RenameIds(t.implements, r)
  {
  }

  // ---------- One data type ----------

  lemma RecordExactly(
    d: Wire.DefDataType, p: Wire.Package, q: Wire.Package, r: Renaming, name: string, path: Path,
    ts: seq<Wire.DefTemplate>)
    requires SamePackage(p, q, r) && d.cons.ConsRecord?
    requires BuildDataType(d, name, p, path, TemplateByTycon(ts)).Success?
    ensures BuildDataType(RenameDataType(d, r), name, q, path, TemplateByTycon(RenameTemplates(ts, r)))
         == BuildDataType(d, name, p, path, TemplateByTycon(ts))
        <==> KeepsRecord(d.name, p, q, r, path, ts)
  {
    hide ConvertFields, RenameFields, ConvertTypeVars, RenameTypeVars, BuildTemplate, RenameTemplate,
      TemplateByTycon, RenameTemplates, Merged, SameContent, Wire.Acyclic, Represents;
    AcyclicParts(p, q, r);
    TypeVarsIndependent(d.params, p, q, r);
    FieldsIndependent(d.cons.fields, p, q, r);
    MergedFound(ts, r, d.name);
    SameOwner(p, q, r);
    var fields := ConvertFields(d.cons.fields, p).value;
    var renamed := TemplateByTycon(RenameTemplates(ts, r));
    if Own(ts, d.name).Some? && Merged(ts, r, d.name).Some? {
      TemplateExactly(
        Merged(ts, r, d.name).value, Own(ts, d.name).value, p, q, r, name, path, fields, d.serializable);
    } else if Merged(ts, r, d.name).Some? {
      OnlyTemplates(renamed[r.dotted(d.name)], name, path, fields, q, d.serializable);
    } else if Own(ts, d.name).Some? {
      OnlyTemplates(TemplateByTycon(ts)[d.name], name, path, fields, p, d.serializable);
    }
  }

  lemma SameOwner(p: Wire.Package, q: Wire.Package, r: Renaming)
    requires SamePackage(p, q, r)
    ensures q.packageId == p.packageId
  {
  }

  lemma OnlyTemplates(
    t: Wire.DefTemplate, name: string, path: Path, fields: seq<DamlField>, pkg: Wire.Package, serializable: bool)
    requires Wire.Acyclic(pkg)
    ensures BuildTemplate(t, name, path, fields, pkg, serializable).Success? ==>
      BuildTemplate(t, name, path, fields, pkg, serializable).value.Template?
  {
    hide ConvertChoices, ConvertQualifiedIds, ConvertDefKey, Wire.Acyclic;
  }

  /** Where the records of a module live. */
  ghost function HomeOf(d: Wire.DefDataType, p: Wire.Package, path: Path): Path {
    var segments := ResolveDotted(d.name, p);
    if segments.Success? && segments.value != [] then path + segments.value[..|segments.value| - 1] else path
  }

  ghost predicate KeepsData(
    d: Wire.DefDataType, p: Wire.Package, q: Wire.Package, r: Renaming, path: Path, ts: seq<Wire.DefTemplate>)
    requires SamePackage(p, q, r)
  {
    d.cons.ConsRecord? ==> KeepsRecord(d.name, p, q, r, HomeOf(d, p, path), ts)
  }

  lemma DataExactly(
    d: Wire.DefDataType, p: Wire.Package, q: Wire.Package, r: Renaming, name: string, path: Path,
    ts: seq<Wire.DefTemplate>)
    requires SamePackage(p, q, r) && !d.cons.ConsRecord?
    requires BuildDataType(d, name, p, path, TemplateByTycon(ts)).Success?
    ensures BuildDataType(RenameDataType(d, r), name, q, path, TemplateByTycon(RenameTemplates(ts, r)))
         == BuildDataType(d, name, p, path, TemplateByTycon(ts))
  {
    hide BuildDataType, RenameDataType, TemplateByTycon, RenameTemplates;
    TemplatesUnused(d, p, name, path, ts, []);
    BuildDataTypeIndependent(d, p, q, r, name, path, []);
    RenamedKind(d, r);
    TemplatesUnused(RenameDataType(d, r), q, name, path, RenameTemplates(ts, r), RenameTemplates([], r));
  }

  lemma RenamedKind(d: Wire.DefDataType, r: Renaming)
    ensures RenameDataType(d, r).cons.ConsRecord? <==> d.cons.ConsRecord?
    ensures RenameDataType(d, r).cons.ConsInterface? <==> d.cons.ConsInterface?
    ensures RenameDataType(d, r).name == r.dotted(d.name)
  {
  }

  lemma TemplatesUnused(
    d: Wire.DefDataType, pkg: Wire.Package, name: string, path: Path, ts: seq<Wire.DefTemplate>,
    us: seq<Wire.DefTemplate>)
    requires Wire.Acyclic(pkg) && !d.cons.ConsRecord?
    ensures BuildDataType(d, name, pkg, path, TemplateByTycon(ts)) == BuildDataType(d, name, pkg, path, TemplateByTycon(us))
  {
    hide ConvertTypeVars, ConvertFields, ResolveStrings, TemplateByTycon, Wire.Acyclic;
  }

  /** One wire data type makes the same definitions exactly when its record keeps its template. */
  lemma DefinitionExactly(
    d: Wire.DefDataType, p: Wire.Package, q: Wire.Package, r: Renaming, path: Path, ts: seq<Wire.DefTemplate>)
    requires SamePackage(p, q, r) && ConvertDataType(d, p, path, TemplateByTycon(ts)).Success?
    ensures var renamed := ConvertDataType(RenameDataType(d, r), q, path, TemplateByTycon(RenameTemplates(ts, r)));
      var own := ConvertDataType(d, p, path, TemplateByTycon(ts));
      && (renamed == own <==> KeepsData(d, p, q, r, path, ts))
      && (renamed.Success? ==> |renamed.value| == |own.value|)
  {
    hide BuildDataType, RenameDataType, TemplateByTycon, RenameTemplates, KeepsRecord, ResolveDotted, Wire.Acyclic,
      Represents;
    DottedIndependent(d.name, p, q, r);
    RenamedKind(d, r);
    var segments := ResolveDotted(d.name, p).value;
    var (last, prefix) := SplitLast(segments, MissingRequiredField).value;
    assert HomeOf(d, p, path) == path + prefix;
    if d.cons.ConsRecord? {
      RecordExactly(d, p, q, r, last, path + prefix, ts);
    } else {
      DataExactly(d, p, q, r, last, path + prefix, ts);
    }
    NoneForMarkers(d, last, p, path + prefix, TemplateByTycon(ts));
    NoneForMarkers(RenameDataType(d, r), last, q, path + prefix, TemplateByTycon(RenameTemplates(ts, r)));
  }

  lemma NoneForMarkers(
    d: Wire.DefDataType, name: string, pkg: Wire.Package, path: Path, templates: map<int, Wire.DefTemplate>)
    requires Wire.Acyclic(pkg)
    ensures BuildDataType(d, name, pkg, path, templates).Success? ==>
      (BuildDataType(d, name, pkg, path, templates).value.None? <==> d.cons.ConsInterface?)
  {
    hide ConvertTypeVars, ConvertFields, ResolveStrings, BuildTemplate, Wire.Acyclic;
  }

  // ---------- Modules ----------

  lemma SameParts<T>(a: seq<T>, b: seq<T>, c: seq<T>, d: seq<T>)
    requires |a| == |c|
    ensures a + b == c + d <==> a == c && b == d
  {
    assert (a + b)[..|a|] == a && (a + b)[|a|..] == b && (c + d)[..|c|] == c && (c + d)[|c|..] == d;
  }

  lemma {:induction false} DefinitionsExactly(
    ds: seq<Wire.DefDataType>, p: Wire.Package, q: Wire.Package, r: Renaming, path: Path, ts: seq<Wire.DefTemplate>)
    requires SamePackage(p, q, r) && ConvertDataTypes(ds, p, path, TemplateByTycon(ts)).Success?
    ensures ConvertDataTypes(RenameDataTypes(ds, r), q, path, TemplateByTycon(RenameTemplates(ts, r)))
         == ConvertDataTypes(ds, p, path, TemplateByTycon(ts))
        <==> forall i :: 0 <= i < |ds| ==> KeepsData(ds[i], p, q, r, path, ts)
  {
    hide ConvertDataType, RenameDataType, TemplateByTycon, RenameTemplates, KeepsData, Represents, Wire.Acyclic;
    if ds != [] {
      var own, renamed := TemplateByTycon(ts), TemplateByTycon(RenameTemplates(ts, r));
      DefinitionExactly(ds[0], p, q, r, path, ts);
      DefinitionsExactly(ds[1..], p, q, r, path, ts);
      assert forall i :: 0 < i < |ds| ==> ds[i] == ds[1..][i - 1];
      var head, tail := ConvertDataType(ds[0], p, path, own).value, ConvertDataTypes(ds[1..], p, path, own).value;
      var head', tail' := ConvertDataType(RenameDataType(ds[0], r), q, path, renamed),
        ConvertDataTypes(RenameDataTypes(ds[1..], r), q, path, renamed);
      assert RenameDataTypes(ds, r)[1..] == RenameDataTypes(ds[1..], r);
      if head'.Success? && tail'.Success? {
        SameParts(head, tail, head'.value, tail'.value);
      }
    }
  }

  /** Every record of the module keeps its template, up to content. */
  ghost predicate KeepsModule(m: Wire.Module, p: Wire.Package, q: Wire.Package, r: Renaming)
    requires SamePackage(p, q, r)
  {
    var path := ResolveDotted(m.name, p);
    forall i :: 0 <= i < |m.dataTypes| ==>
      KeepsData(m.dataTypes[i], p, q, r, if path.Success? then path.value else [], m.templates)
  }

  lemma ModuleExactly(m: Wire.Module, p: Wire.Package, q: Wire.Package, r: Renaming)
    requires SamePackage(p, q, r) && ConvertModule(m, p).Success?
    ensures ConvertModule(RenameModule(m, r), q) == ConvertModule(m, p) <==> KeepsModule(m, p, q, r)
  {
    hide ConvertDataTypes, ConvertSynonyms, ConvertInterfaces, ConvertExceptions, RenameDataTypes, RenameSynonyms,
      RenameInterfaces, RenameExceptions, RenameTemplates, TemplateByTycon, ResolveDotted, Represents, Wire.Acyclic,
      InterfacesByName, ExceptionsByName, KeepsData;
    DottedIndependent(m.name, p, q, r);
    var path := ResolveDotted(m.name, p).value;
    DefinitionsExactly(m.dataTypes, p, q, r, path, m.templates);
    SynonymsIndependent(m.synonyms, p, q, r, path);
    InterfacesIndependent(m.interfaces, p, q, r, path);
    ExceptionsIndependent(m.exceptions, p, q, r, path);
  }

  /** A package that converts, laid out again, makes the same modules exactly when every record keeps the template
      it wraps or gets another one with the same content. */
  lemma {:induction false} ModulesExactly(ms: seq<Wire.Module>, p: Wire.Package, q: Wire.Package, r: Renaming)
    requires SamePackage(p, q, r) && ConvertModules(ms, p).Success?
    ensures ConvertModules(RenameModules(ms, r), q) == ConvertModules(ms, p)
        <==> forall i :: 0 <= i < |ms| ==> KeepsModule(ms[i], p, q, r)
  {
    hide ConvertModule, RenameModule, Represents, Wire.Acyclic, KeepsModule;
    if ms != [] {
      ModuleExactly(ms[0], p, q, r);
      ModulesExactly(ms[1..], p, q, r);
      assert forall i :: 0 < i < |ms| ==> ms[i] == ms[1..][i - 1];
      var head, tail := ConvertModule(ms[0], p).value, ConvertModules(ms[1..], p).value;
      var head', tail' := ConvertModule(RenameModule(ms[0], r), q), ConvertModules(RenameModules(ms[1..], r), q);
      assert RenameModules(ms, r)[1..] == RenameModules(ms[1..], r);
      if head'.Success? && tail'.Success? {
        SameParts([head], tail, [head'.value], tail'.value);
      }
    }
  }
}
