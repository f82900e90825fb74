/** The combined and the separate mode side by side: whose data each of them generates. */
module Modes {
  import opened Wrappers
  import opened Element
  import opened Declarations
  import opened Archive
  import opened ArchivePayload
  import opened Identifiers
  import opened Renderer
  import opened TypeRenderer
  import opened Separate
  import opened Validate
  import opened Occurrences
  import opened EndToEnd
  import F = FlatTree
  import Wire

  /** What makes both modes emit Rust that keeps modules apart, in an archive whose roots are real. */
  ghost predicate Generable(s: Settings, a: DamlArchive, ids: seq<string>) {
    && Enumerates(ids, a) && NamesApart(s, a) && Separable(s, a)
    && forall id :: id in a.packages ==> !a.packages[id].root.content.synthetic
  }

  ghost predicate HasData(a: DamlArchive, id: string, path: Path) {
    a.FindModule(id, path).Some? && a.FindModule(id, path).value.content.dataTypes != map[]
  }

  /** Separate mode writes the data types of the module into the file of its path. */
  ghost predicate SeparateGenerates(s: Settings, a: DamlArchive, ids: seq<string>, id: string, path: Path)
    requires Generable(s, a, ids) && HasData(a, id, path)
  {
    var at, files := [s.ModIdent(a.packages[id].name)] + ModIdents(s, path), ArchiveFiles(s, a, ids);
    at in files && DataItems(a.FindModule(id, path).value) <= files[at].items
  }

  /** The combined mode writes the data types of the module into the `pub mod` of its path. */
  ghost predicate CombinedGenerates(s: Settings, a: DamlArchive, ids: seq<string>, id: string, path: Path)
    requires Generable(s, a, ids) && HasData(a, id, path)
  {
    var m := Resolve(QuoteArchive(s, a, ids), ModIdents(s, [a.packages[id].name] + path));
    m.Some? && DataItems(a.FindModule(id, path).value) <= m.value.items
  }

  // ---------- Separate mode ----------

  /** A package's own file holds no declarations. */
  lemma RootFile(s: Settings, a: DamlArchive, ids: seq<string>, id: string)
    requires Separable(s, a) && Lists(ids, a) && id in ids
    ensures var at := [s.ModIdent(a.packages[id].name)];
      at in ArchiveFiles(s, a, ids) && ArchiveFiles(s, a, ids)[at].items == {}
  {
    hide ArchiveFiles, WellFormed, SiblingsApart, AllFiles, EachClosed, AllBelow, ChildrenAt, Interesting, InterestingOf;
    var p, dir := a.packages[id], [s.ModIdent(a.packages[id].name)];
    ChildrenClosed(s, dir, p.root);
    BaseAbove(s, dir, p.root.children, []);
    assert dir + ModIdents(s, []) == dir;
    PackageOwns(s, a, ids, id);
  }

  /** Separate mode generates a module's data exactly when it is not the root and it or a module below it
      has data and a matched path. */
  lemma SeparateIff(s: Settings, a: DamlArchive, ids: seq<string>, id: string, path: Path)
    requires Generable(s, a, ids) && HasData(a, id, path)
    ensures SeparateGenerates(s, a, ids, id, path)
        <==> path != [] && exists rest :: MatchedData(s, a.FindModule(id, path).value, rest)
  {
    hide ArchiveFiles, WellFormed, SiblingsApart, Interesting, MatchedData, ModIdents;
    var w := a.FindModule(id, path).value;
    var n :| n in w.content.dataTypes;
    assert DataItem(Escape(w.content.dataTypes[n].name), w.content.dataTypes[n]) in DataItems(w);
    if path == [] {
      RootFile(s, a, ids, id);
      assert [s.ModIdent(a.packages[id].name)] + ModIdents(s, []) == [s.ModIdent(a.packages[id].name)];
    } else {
      ModuleWritten(s, a, ids, id, path);
      FoundWellFormed(a.packages[id].root, path);
      InterestingIff(s, w);
    }
  }

  lemma {:induction false} FoundWellFormed(v: ModuleView, rest: Path)
    requires WellFormed(v) && v.ChildModulePath(rest).Some?
    ensures WellFormed(v.ChildModulePath(rest).value)
    ensures v.ChildModulePath(rest).value.path == v.path + rest
    decreases rest
  {
    if rest == [] {
      assert v.path + rest == v.path;
    } else {
      var c := v.ChildModule(rest[0]).value;
      FoundWellFormed(c, rest[1..]);
      assert v.path + rest == c.path + rest[1..];
    }
  }

  // ---------- The combined mode ----------

  /** How far down `path` the nearest real ancestor-or-self of its module is; the root is real. */
  ghost function NearestReal(v: ModuleView, path: Path): (i: nat)
    ensures i <= |path|
    decreases |path|
  {
    var w := v.ChildModulePath(path);
    if path == [] || (w.Some? && !w.value.content.synthetic) then |path|
    else NearestReal(v, path[..|path| - 1])
  }

  lemma {:induction false} OnTheWay(v: ModuleView, path: Path, i: nat)
    requires v.ChildModulePath(path).Some? && i <= |path|
    ensures v.ChildModulePath(path[..i]).Some?
    decreases path
  {
    if i > 0 {
      OnTheWay(v.ChildModule(path[0]).value, path[1..], i - 1);
      assert path[..i][1..] == path[1..][..i - 1];
    }
  }

  lemma {:induction false} NearestIsReal(v: ModuleView, path: Path)
    requires v.ChildModulePath(path).Some? && !v.content.synthetic
    ensures var i := NearestReal(v, path);
      && v.ChildModulePath(path[..i]).Some? && !v.ChildModulePath(path[..i]).value.content.synthetic
      && forall j :: i < j <= |path| ==>
           v.ChildModulePath(path[..j]).Some? && v.ChildModulePath(path[..j]).value.content.synthetic
    decreases |path|
  {
    assert path[..|path|] == path;
    if path != [] && v.ChildModulePath(path).value.content.synthetic {
      var init := path[..|path| - 1];
      OnTheWay(v, path, |path| - 1);
      NearestIsReal(v, init);
      assert forall j :: 0 <= j <= |init| ==> init[..j] == path[..j];
    }
  }

  /** A module's data is rendered exactly when the path of its nearest real ancestor-or-self is matched. */
  lemma RendersIff(s: Settings, v: ModuleView, path: Path)
    requires WellFormed(v) && v.path == [] && !v.content.synthetic && v.ChildModulePath(path).Some?
    ensures RendersAt(s, v, false, path) <==> s.MatchesPath(path[..NearestReal(v, path)])
  {
    hide RendersAt, WellFormed, NearestReal;
    FlagIsNearestReal(s, v, false, path);
    NearestIsReal(v, path);
    var i := NearestReal(v, path);
    FoundWellFormed(v, path[..i]);
    assert [] + path[..i] == path[..i];
    assert SelfIncluded(s, v.ChildModulePath(path[..i]).value) <==> s.MatchesPath(path[..i]);
    assert s.MatchesPath(path[..i]) ==> NearestRealMatched(s, v, path, i);
    forall j: nat | NearestRealMatched(s, v, path, j)
      ensures j == i
    {
      RealIfIncluded(s, v.ChildModulePath(path[..j]).value);
    }
  }

  lemma CombinedIff(s: Settings, a: DamlArchive, ids: seq<string>, id: string, path: Path)
    requires Generable(s, a, ids) && HasData(a, id, path)
    ensures CombinedGenerates(s, a, ids, id, path)
        <==> s.MatchesPath(path[..NearestReal(a.packages[id].root, path)])
  {
    hide Resolve, ModIdents, WellFormed, SiblingsApart, RendersAt, QuoteArchive, NearestReal;
    var root, w := a.packages[id].root, a.FindModule(id, path).value;
    RendersIff(s, root, path);
    forall item | item in DataItems(w)
      ensures Contains(Resolve(QuoteArchive(s, a, ids), ModIdents(s, [a.packages[id].name] + path)), item)
          <==> RendersAt(s, root, false, path)
    {
      ItemOfModule(s, a, ids, id, path, item);
    }
    var n :| n in w.content.dataTypes;
    assert DataItem(Escape(w.content.dataTypes[n].name), w.content.dataTypes[n]) in DataItems(w);
  }

  // ---------- Both ----------

  /** Something strictly below `w` has data and a matched path. */
  ghost predicate MatchedStrictlyBelow(s: Settings, w: ModuleView) {
    exists rest :: rest != [] && MatchedData(s, w, rest)
  }

  /** When both modes generate a module's data or both do not. Never of the root, whose data only the
      combined mode generates. Of another real module, exactly when it is matched or nothing below it has
      matched data. Of a synthetic one, exactly when its nearest real ancestor is matched if and only if it
      is matched itself or something below it has matched data. */
  ghost predicate SameInBothModes(s: Settings, a: DamlArchive, id: string, path: Path)
    requires HasData(a, id, path)
  {
    var root, w := a.packages[id].root, a.FindModule(id, path).value;
    && path != []
    && if !w.content.synthetic then s.MatchesPath(path) || !MatchedStrictlyBelow(s, w)
       else s.MatchesPath(path[..NearestReal(root, path)]) == (s.MatchesPath(path) || MatchedStrictlyBelow(s, w))
  }

  lemma MatchedHereOrBelow(s: Settings, w: ModuleView)
    requires w.content.dataTypes != map[]
    ensures (exists rest :: MatchedData(s, w, rest)) <==> s.MatchesPath(w.path) || MatchedStrictlyBelow(s, w)
  {
    assert w.ChildModulePath([]) == Some(w);
    assert MatchedData(s, w, []) <==> s.MatchesPath(w.path);
  }

  lemma ModesAgree(s: Settings, a: DamlArchive, ids: seq<string>, id: string, path: Path)
    requires Generable(s, a, ids) && HasData(a, id, path)
    ensures (SeparateGenerates(s, a, ids, id, path) <==> CombinedGenerates(s, a, ids, id, path))
        <==> SameInBothModes(s, a, id, path)
  {
    hide SeparateGenerates, CombinedGenerates, WellFormed, SiblingsApart, MatchedData;
    var root, w := a.packages[id].root, a.FindModule(id, path).value;
    SeparateIff(s, a, ids, id, path);
    CombinedIff(s, a, ids, id, path);
    FoundWellFormed(root, path);
    assert root.path + path == path;
    MatchedHereOrBelow(s, w);
    if path == [] {
      assert ToModulePath(path[..NearestReal(root, path)]) == "";
    } else if !w.content.synthetic {
      assert path[..|path|] == path;
    }
  }

  /** Without a filter both modes generate the data of every module but the root; the root's is generated by
      the combined mode only. */
  lemma UnfilteredModes(s: Settings, a: DamlArchive, ids: seq<string>, id: string, path: Path)
    requires Generable(s, a, ids) && HasData(a, id, path) && s.matcher.matchers == []
    ensures CombinedGenerates(s, a, ids, id, path)
    ensures SeparateGenerates(s, a, ids, id, path) <==> path != []
  {
    hide SeparateGenerates, CombinedGenerates, WellFormed, SiblingsApart;
    SeparateIff(s, a, ids, id, path);
    CombinedIff(s, a, ids, id, path);
    assert MatchedData(s, a.FindModule(id, path).value, []);
  }

  // ---------- References in separate mode ----------

  ghost predicate OnlyData(items: set<Item>) {
    forall item :: item in items ==> item.DataItem?
  }

  ghost predicate FilesOnlyData(files: Files) {
    forall p :: p in files ==> OnlyData(files[p].items)
  }

  lemma {:induction false} ModuleOnlyData(s: Settings, dir: FilePath, v: ModuleView)
    ensures FilesOnlyData(ModuleFiles(s, dir, v))
    decreases v, 0
  {
    hide Interesting, InterestingOf, Idents, ModIdents;
    AllOnlyData(s, dir, v.children);
  }

  lemma {:induction false} AllOnlyData(s: Settings, dir: FilePath, vs: seq<ModuleView>)
    ensures FilesOnlyData(AllFiles(s, dir, vs))
    decreases vs
  {
    hide Interesting, ModuleFiles;
    if vs != [] {
      ModuleOnlyData(s, dir, vs[0]);
      AllOnlyData(s, dir, vs[1..]);
    }
  }

  /** Separate mode writes no interfaces. */
  lemma {:induction false} NoInterfacesWritten(s: Settings, a: DamlArchive, ids: seq<string>)
    requires forall id :: id in ids ==> id in a.packages
    ensures FilesOnlyData(ArchiveFiles(s, a, ids))
  {
    hide AllFiles, Idents, InterestingOf;
    if ids != [] {
      AllOnlyData(s, [s.ModIdent(a.packages[ids[0]].name)], a.packages[ids[0]].root.children);
      NoInterfacesWritten(s, a, ids[1..]);
    }
  }

  /** The file the path printed for a name leads to holds the data type the name stands for. */
  ghost predicate FoundInFile(s: Settings, a: DamlArchive, ids: seq<string>, n: DamlTyConName)
    requires forall id :: id in ids ==> id in a.packages
  {
    n.Absolute? &&
    var at, files := QuoteAbsolutePath(s, n).segments, ArchiveFiles(s, a, ids);
    at in files && exists item :: item in files[at].items && item.ident == Escape(n.dataName) && Named(a, n, item)
  }

  /** The item is the data type or an interface the name finds. */
  ghost predicate Named(a: DamlArchive, n: DamlTyConName, item: Item) {
    match item
    case DataItem(_, data) => a.DataByTyConName(n) == Some(data)
    case InterfaceItem(_, i) => StandsFor(a, n, i)
  }

  /** Without a filter, the path printed for a name that resolves leads to its declaration in the separate
      files exactly when the name is that of a data type outside the root module. */
  lemma SeparateReference(
    s: Settings, a: DamlArchive, packages: map<string, Wire.Package>, ids: seq<string>, n: DamlTyConName)
    requires ArchiveOf(a, packages) && Generable(s, a, ids) && s.matcher.matchers == []
    requires n.Absolute? && n.packageId in packages && n.packageName == packages[n.packageId].name
    requires Resolves(a, n)
    ensures FoundInFile(s, a, ids, n) <==> a.DataByTyConName(n).Some? && n.modulePath != []
  {
    hide ArchiveFiles, ModIdents, Escape, WellFormed, SiblingsApart, ArchiveOf, OnlyData, FoundInFile, DataItems,
      FilesOnlyData;
    var id := n.packageId;
    PackageNamed(a, packages, id);
    NoInterfacesWritten(s, a, ids);
    PrintedAt(s, a, n);
    if a.DataByTyConName(n).None? {
      NoItemFound(s, a, ids, n);
    } else if n.modulePath == [] {
      RootFile(s, a, ids, id);
      assert [s.ModIdent(a.packages[id].name)] + ModIdents(s, []) == [s.ModIdent(a.packages[id].name)];
      NothingIn(s, a, ids, n);
    } else {
      UnfilteredModes(s, a, ids, id, n.modulePath);
      OwnItem(a, packages, n);
      ItemFound(s, a, ids, n, DataItem(Escape(n.dataName), a.DataByTyConName(n).value));
    }
  }

  lemma ItemFound(s: Settings, a: DamlArchive, ids: seq<string>, n: DamlTyConName, item: Item)
    requires forall id :: id in ids ==> id in a.packages
    requires n.Absolute? && QuoteAbsolutePath(s, n).segments in ArchiveFiles(s, a, ids)
    requires item in ArchiveFiles(s, a, ids)[QuoteAbsolutePath(s, n).segments].items
    requires item.ident == Escape(n.dataName) && Named(a, n, item)
    ensures FoundInFile(s, a, ids, n)
  {
    hide ArchiveFiles, QuoteAbsolutePath, Escape;
  }

  lemma NothingIn(s: Settings, a: DamlArchive, ids: seq<string>, n: DamlTyConName)
    requires forall id :: id in ids ==> id in a.packages
    requires n.Absolute? && QuoteAbsolutePath(s, n).segments in ArchiveFiles(s, a, ids)
    requires ArchiveFiles(s, a, ids)[QuoteAbsolutePath(s, n).segments].items == {}
    ensures !FoundInFile(s, a, ids, n)
  {
    hide ArchiveFiles, QuoteAbsolutePath, Escape;
  }

  lemma NoItemFound(s: Settings, a: DamlArchive, ids: seq<string>, n: DamlTyConName)
    requires forall id :: id in ids ==> id in a.packages
    requires n.Absolute? && a.DataByTyConName(n).None? && FilesOnlyData(ArchiveFiles(s, a, ids))
    ensures !FoundInFile(s, a, ids, n)
  {
    hide ArchiveFiles, QuoteAbsolutePath, Escape;
  }

  lemma PrintedAt(s: Settings, a: DamlArchive, n: DamlTyConName)
    requires n.Absolute? && n.packageId in a.packages && n.packageName == a.packages[n.packageId].name != ""
    ensures QuoteAbsolutePath(s, n).segments == [s.ModIdent(a.packages[n.packageId].name)] + ModIdents(s, n.modulePath)
  {
    hide ModIdents, Escape;
    ModIdentsStep(s, n.packageName, n.modulePath);
  }

  lemma OwnItem(a: DamlArchive, packages: map<string, Wire.Package>, n: DamlTyConName)
    requires ArchiveOf(a, packages) && n.Absolute? && n.packageId in packages && a.DataByTyConName(n).Some?
    ensures DataItem(Escape(n.dataName), a.DataByTyConName(n).value)
         in DataItems(a.FindModule(n.packageId, n.modulePath).value)
  {
    hide ConvertModules, F.InsertModules, Wire.Acyclic, Escape, ViewOf;
    assert PackageOf(a.packages[n.packageId], packages[n.packageId]);
    LookupInTree(a, packages, n.packageId, n.modulePath, n.dataName);
    FoundUnderOwnName(packages[n.packageId], n.modulePath, n.dataName);
  }
}
