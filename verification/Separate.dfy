/** Separate mode: one file per module, declared by `pub mod` lines that Rust must be able to follow. */
module Separate {
  import opened Wrappers
  import opened Element
  import opened Declarations
  import opened Archive
  import opened Identifiers
  import opened Renderer

  /** A file below the output directory: its directories, then its name without `.rs`. */
  type FilePath = seq<string>

  /** The `pub mod` lines of a file and the declarations after them. */
  datatype SourceFile = SourceFile(mods: seq<string>, items: set<Item>)

  type Files = map<FilePath, SourceFile>

  /** A module that has matched data types, or a descendant that has. */
  predicate Interesting(s: Settings, v: ModuleView)
    decreases v
  {
    (v.content.dataTypes != map[] && s.MatchesPath(v.path)) || exists c :: c in v.children && Interesting(s, c)
  }

  function InterestingOf(s: Settings, vs: seq<ModuleView>): (r: seq<ModuleView>)
    ensures forall c :: c in r <==> c in vs && Interesting(s, c)
  {
    if vs == [] then []
    else if Interesting(s, vs[0]) then [vs[0]] + InterestingOf(s, vs[1..])
    else InterestingOf(s, vs[1..])
  }

  function Idents(s: Settings, vs: seq<ModuleView>): (r: seq<string>)
    ensures |r| == |vs| && forall i :: 0 <= i < |vs| ==> r[i] == s.ModIdent(vs[i].LocalName())
  {
    seq(|vs|, i requires 0 <= i < |vs| => s.ModIdent(vs[i].LocalName()))
  }

  function DataItems(v: ModuleView): set<Item> {
    set n | n in v.content.dataTypes :: DataItem(Escape(v.content.dataTypes[n].name), v.content.dataTypes[n])
  }

  function FileOf(s: Settings, v: ModuleView): SourceFile {
    SourceFile(Idents(s, InterestingOf(s, v.children)), DataItems(v))
  }

  function PathOfFile(s: Settings, dir: FilePath, v: ModuleView): FilePath {
    dir + ModIdents(s, v.path)
  }

  /** The files of an interesting module; of two files at one path the one written later stays. */
  function ModuleFiles(s: Settings, dir: FilePath, v: ModuleView): Files
    decreases v
  {
    map[PathOfFile(s, dir, v) := FileOf(s, v)] + AllFiles(s, dir, v.children)
  }

  function AllFiles(s: Settings, dir: FilePath, vs: seq<ModuleView>): Files
    decreases vs
  {
    if vs == [] then map[]
    else (if Interesting(s, vs[0]) then ModuleFiles(s, dir, vs[0]) else map[]) + AllFiles(s, dir, vs[1..])
  }

  /** A package's own file only declares its top-level modules. */
  function PackageFile(s: Settings, p: DamlPackage): SourceFile {
    SourceFile(Idents(s, InterestingOf(s, p.root.children)), {})
  }

  function PackageFiles(s: Settings, p: DamlPackage): Files {
    var dir := [s.ModIdent(p.name)];
    map[dir := PackageFile(s, p)] + AllFiles(s, dir, p.root.children)
  }

  function ArchiveFiles(s: Settings, a: DamlArchive, ids: seq<string>): Files
    requires forall id :: id in ids ==> id in a.packages
  {
    if ids == [] then map[] else PackageFiles(s, a.packages[ids[0]]) + ArchiveFiles(s, a, ids[1..])
  }

  /** Packages are written one after the other: at a path two of them write, the later one stays. */
  lemma {:induction false} LaterPackageStays(s: Settings, a: DamlArchive, ids: seq<string>, more: seq<string>)
    requires forall id :: id in ids + more ==> id in a.packages
    ensures ArchiveFiles(s, a, ids + more) == ArchiveFiles(s, a, ids) + ArchiveFiles(s, a, more)
  {
    hide PackageFiles;
    if ids == [] {
      assert ids + more == more;
    } else {
      assert (ids + more)[1..] == ids[1..] + more && ids[0] in ids + more;
      assert forall id :: id in ids[1..] + more ==> id in ids + more;
      LaterPackageStays(s, a, ids[1..], more);
      MapsAssociate(PackageFiles(s, a.packages[ids[0]]), ArchiveFiles(s, a, ids[1..]), ArchiveFiles(s, a, more));
    }
  }

  // ---------- Writing ----------

  lemma MapsAssociate<K, T>(a: map<K, T>, b: map<K, T>, c: map<K, T>)
    ensures (a + b) + c == a + (b + c)
  {
  }

  lemma {:induction false} FilteredFiles(s: Settings, dir: FilePath, vs: seq<ModuleView>)
    ensures AllFiles(s, dir, InterestingOf(s, vs)) == AllFiles(s, dir, vs)
  {
    hide Interesting, ModuleFiles;
    if vs != [] {
      FilteredFiles(s, dir, vs[1..]);
      if Interesting(s, vs[0]) {
        assert InterestingOf(s, vs)[1..] == InterestingOf(s, vs[1..]);
      }
    }
  }

  /** Writing a module's own file and then those below it gives the module's files. */
  lemma ModuleFileFirst(s: Settings, dir: FilePath, v: ModuleView, files: Files)
    requires v.path != []
    ensures var own := dir + ModIdents(s, v.path[..|v.path| - 1]) + [s.ModIdent(v.LocalName())];
      var subModules := InterestingOf(s, v.children);
      files[own := SourceFile(Idents(s, subModules), DataItems(v))] + AllFiles(s, dir, subModules)
      == files + ModuleFiles(s, dir, v)
  {
    hide Interesting, AllFiles, InterestingOf, Idents, DataItems, ModIdents;
    var own := dir + ModIdents(s, v.path[..|v.path| - 1]) + [s.ModIdent(v.LocalName())];
    var file := SourceFile(Idents(s, InterestingOf(s, v.children)), DataItems(v));
    LastIdent(s, v);
    assert own == PathOfFile(s, dir, v);
    FilteredFiles(s, dir, v.children);
    MapsAssociate(files, map[own := file], AllFiles(s, dir, v.children));
    assert files[own := file] == files + map[own := file];
  }

  lemma PackageFileFirst(s: Settings, p: DamlPackage, files: Files)
    ensures var own := [s.ModIdent(p.name)];
      var rootModules := InterestingOf(s, p.root.children);
      files[own := SourceFile(Idents(s, rootModules), {})] + AllFiles(s, own, rootModules)
      == files + PackageFiles(s, p)
  {
    hide Interesting, AllFiles, InterestingOf, Idents;
    var own := [s.ModIdent(p.name)];
    FilteredFiles(s, own, p.root.children);
    MapsAssociate(files, map[own := PackageFile(s, p)], AllFiles(s, own, p.root.children));
    assert files[own := PackageFile(s, p)] == files + map[own := PackageFile(s, p)];
  }

  class Generator {
    const settings: Settings
    var files: Files

    constructor (settings: Settings)
      ensures this.settings == settings && files == map[]
    {
      this.settings := settings;
      files := map[];
    }

    method CreateFile(path: FilePath, file: SourceFile)
      modifies this
      ensures files == old(files)[path := file]
    {
      files := files[path := file];
    }

    method GenerateModuleSource(v: ModuleView, dir: FilePath)
      requires WellFormed(v) && v.path != []
      modifies this
      ensures files == old(files) + ModuleFiles(settings, dir, v)
      decreases v
    {
      hide Interesting, ModuleFiles, ModIdents;
      var subModules := InterestingOf(settings, v.children);
      var moduleDir := dir + ModIdents(settings, v.path[..|v.path| - 1]);
      CreateFile(moduleDir + [settings.ModIdent(v.LocalName())],
                 SourceFile(Idents(settings, subModules), DataItems(v)));
      ModuleFileFirst(settings, dir, v, old(files));
      GenerateAll(v, subModules, dir);
    }

    method GenerateAll(ghost parent: ModuleView, modules: seq<ModuleView>, dir: FilePath)
      requires WellFormed(parent)
      requires forall c :: c in modules ==> c in parent.children && Interesting(settings, c)
      modifies this
      ensures files == old(files) + AllFiles(settings, dir, modules)
      decreases parent, 0
    {
      hide Interesting, ModuleFiles;
      for i := 0 to |modules|
        invariant files + AllFiles(settings, dir, modules[i..]) == old(files) + AllFiles(settings, dir, modules)
      {
        ghost var before := files;
        var c := modules[i];
        assert c in modules;
        GenerateModuleSource(c, dir);
        assert modules[i..][0] == c && modules[i..][1..] == modules[i + 1..];
        MapsAssociate(before, ModuleFiles(settings, dir, c), AllFiles(settings, dir, modules[i + 1..]));
      }
      assert modules[|modules|..] == [];
    }

    method GeneratePackageSource(p: DamlPackage)
      requires WellFormed(p.root)
      modifies this
      ensures files == old(files) + PackageFiles(settings, p)
    {
      hide Interesting, PackageFiles;
      var rootModules := InterestingOf(settings, p.root.children);
      var dir := [settings.ModIdent(p.name)];
      CreateFile(dir, SourceFile(Idents(settings, rootModules), {}));
      PackageFileFirst(settings, p, old(files));
      GenerateAll(p.root, rootModules, dir);
    }

    /** `ids` is the order in which the archive's packages are visited. */
    method GenerateArchive(a: DamlArchive, ids: seq<string>)
      requires forall id :: id in ids ==> id in a.packages && WellFormed(a.packages[id].root)
      modifies this
      ensures files == old(files) + ArchiveFiles(settings, a, ids)
    {
      hide PackageFiles;
      for i := 0 to |ids|
        invariant files + ArchiveFiles(settings, a, ids[i..]) == old(files) + ArchiveFiles(settings, a, ids)
      {
        ghost var before := files;
        GeneratePackageSource(a.packages[ids[i]]);
        assert ids[i..][0] == ids[i] && ids[i..][1..] == ids[i + 1..];
        MapsAssociate(before, PackageFiles(settings, a.packages[ids[i]]), ArchiveFiles(settings, a, ids[i + 1..]));
      }
      assert ids[|ids|..] == [];
    }
  }

  lemma LastIdent(s: Settings, v: ModuleView)
    requires v.path != []
    ensures ModIdents(s, v.path) == ModIdents(s, v.path[..|v.path| - 1]) + [s.ModIdent(v.LocalName())]
  {
    hide ModIdents;
    var init := v.path[..|v.path| - 1];
    var r := ModIdents(s, init) + [s.ModIdent(v.LocalName())];
    forall i | 0 <= i < |v.path|
      ensures ModIdents(s, v.path)[i] == r[i]
    {
      assert i < |init| ==> init[i] == v.path[i];
    }
  }

  // ---------- What is written ----------

  /** Every file other than the one at `base` is declared in the file one level up, every declaration has
      its file, and no file declares a name twice or by a keyword. */
  ghost predicate Closed(files: Files, base: FilePath) {
    && base in files
    && (forall p :: p in files ==> base <= p)
    && (forall p :: p in files && p != base ==> p[..|p| - 1] in files && p[|p| - 1] in files[p[..|p| - 1]].mods)
    && (forall p, x :: p in files && x in files[p].mods ==> p + [x] in files && !IsKeyword(x))
    && (forall p, i, j :: p in files && 0 <= i < j < |files[p].mods| ==> files[p].mods[i] != files[p].mods[j])
  }

  /** What makes the files of siblings stay apart. */
  ghost predicate ChildrenAt(s: Settings, vs: seq<ModuleView>, at: Path) {
    && (forall c :: c in vs ==> c.path == at + [c.LocalName()])
    && IdentsApart(s, vs)
  }

  ghost predicate AllBelow(s: Settings, dir: FilePath, vs: seq<ModuleView>) {
    forall c, p :: c in vs && p in ModuleFiles(s, dir, c) ==> PathOfFile(s, dir, c) <= p
  }

  lemma Tail(s: Settings, dir: FilePath, vs: seq<ModuleView>, at: Path, c: ModuleView)
    requires ChildrenAt(s, vs, at) && AllBelow(s, dir, vs) && vs != []
    ensures ChildrenAt(s, vs[1..], at) && AllBelow(s, dir, vs[1..])
    ensures vs[0].path == at + [vs[0].LocalName()]
    ensures forall p :: p in ModuleFiles(s, dir, vs[0]) ==> PathOfFile(s, dir, vs[0]) <= p
    ensures forall d :: d in vs[1..] ==> s.ModIdent(vs[0].LocalName()) != s.ModIdent(d.LocalName())
    ensures c in vs ==> c.path == at + [c.LocalName()]
  {
    hide ModuleFiles, PathOfFile;
    assert vs[0] in vs;
  }

  lemma ChildFile(s: Settings, dir: FilePath, c: ModuleView, at: Path)
    requires c.path == at + [c.LocalName()]
    ensures PathOfFile(s, dir, c) == dir + ModIdents(s, at) + [s.ModIdent(c.LocalName())]
  {
    hide ModIdents;
    LastIdent(s, c);
    assert c.path[..|c.path| - 1] == at;
    assert PathOfFile(s, dir, c) == dir + (ModIdents(s, at) + [s.ModIdent(c.LocalName())]);
  }

  /** A file of the siblings is a file of exactly the sibling it lies below. */
  lemma {:induction false} FileOfSibling(s: Settings, dir: FilePath, vs: seq<ModuleView>, at: Path, c: ModuleView,
                                         p: FilePath)
    requires ChildrenAt(s, vs, at) && AllBelow(s, dir, vs) && c in vs
    requires PathOfFile(s, dir, c) <= p
    ensures p in AllFiles(s, dir, vs) <==> Interesting(s, c) && p in ModuleFiles(s, dir, c)
    ensures p in AllFiles(s, dir, vs) ==> AllFiles(s, dir, vs)[p] == ModuleFiles(s, dir, c)[p]
  {
    hide Interesting, ModuleFiles, PathOfFile, ChildrenAt, AllBelow;
    Tail(s, dir, vs, at, c);
    ChildFile(s, dir, c, at);
    if c == vs[0] {
      ForeignFile(s, dir, vs[1..], at, c.LocalName(), p);
    } else {
      FileOfSibling(s, dir, vs[1..], at, c, p);
      NotBelow(s, dir, vs[0], at, c.LocalName(), p);
    }
  }

  lemma NotBelow(s: Settings, dir: FilePath, c: ModuleView, at: Path, name: string, p: FilePath)
    requires c.path == at + [c.LocalName()] && s.ModIdent(c.LocalName()) != s.ModIdent(name)
    requires dir + ModIdents(s, at) + [s.ModIdent(name)] <= p
    ensures !(PathOfFile(s, dir, c) <= p)
  {
    hide ModIdents, PathOfFile;
    ChildFile(s, dir, c, at);
    var n := |dir + ModIdents(s, at)|;
    assert PathOfFile(s, dir, c)[n] != p[n];
  }

  lemma {:induction false} ForeignFile(s: Settings, dir: FilePath, vs: seq<ModuleView>, at: Path, name: string,
                                       p: FilePath)
    requires ChildrenAt(s, vs, at) && AllBelow(s, dir, vs)
    requires forall c :: c in vs ==> s.ModIdent(c.LocalName()) != s.ModIdent(name)
    requires dir + ModIdents(s, at) + [s.ModIdent(name)] <= p
    ensures p !in AllFiles(s, dir, vs)
  {
    hide Interesting, ModuleFiles, ModIdents, PathOfFile, ChildrenAt, AllBelow;
    if vs != [] {
      Tail(s, dir, vs, at, vs[0]);
      ForeignFile(s, dir, vs[1..], at, name, p);
      NotBelow(s, dir, vs[0], at, name, p);
    }
  }

  lemma {:induction false} FilesBelong(s: Settings, dir: FilePath, vs: seq<ModuleView>, p: FilePath)
    returns (c: ModuleView)
    requires p in AllFiles(s, dir, vs)
    ensures c in vs && Interesting(s, c) && p in ModuleFiles(s, dir, c)
  {
    if Interesting(s, vs[0]) && p in ModuleFiles(s, dir, vs[0]) {
      c := vs[0];
    } else {
      c := FilesBelong(s, dir, vs[1..], p);
    }
  }

  lemma {:induction false} FilesExtend(s: Settings, dir: FilePath, v: ModuleView)
    requires WellFormed(v)
    ensures forall p :: p in ModuleFiles(s, dir, v) ==> PathOfFile(s, dir, v) <= p
    decreases v
  {
    hide Interesting, FileOf, ModIdents;
    forall p | p in AllFiles(s, dir, v.children)
      ensures PathOfFile(s, dir, v) <= p
    {
      var c := FilesBelong(s, dir, v.children, p);
      FilesExtend(s, dir, c);
      ChildFile(s, dir, c, v.path);
    }
  }

  lemma AllExtend(s: Settings, dir: FilePath, v: ModuleView)
    requires WellFormed(v)
    ensures AllBelow(s, dir, v.children)
  {
    forall c | c in v.children
      ensures forall p :: p in ModuleFiles(s, dir, c) ==> PathOfFile(s, dir, c) <= p
    {
      FilesExtend(s, dir, c);
    }
  }

  /** The sibling a file belongs to, whose files are all there from its own file down. */
  lemma OwningSibling(s: Settings, dir: FilePath, vs: seq<ModuleView>, at: Path, p: FilePath)
    returns (c: ModuleView)
    requires ChildrenAt(s, vs, at) && AllBelow(s, dir, vs) && p in AllFiles(s, dir, vs)
    ensures c in vs && Interesting(s, c) && p in ModuleFiles(s, dir, c) && PathOfFile(s, dir, c) <= p
    ensures PathOfFile(s, dir, c) == dir + ModIdents(s, at) + [s.ModIdent(c.LocalName())]
    ensures HoldsFrom(AllFiles(s, dir, vs), ModuleFiles(s, dir, c), PathOfFile(s, dir, c))
  {
    hide Interesting, ModuleFiles, PathOfFile, ModIdents, AllFiles;
    c := FilesBelong(s, dir, vs, p);
    ChildFile(s, dir, c, at);
    SiblingHolds(s, dir, vs, at, c);
  }

  /** From `base` down the two hold the same files. */
  ghost predicate HoldsFrom(all: Files, own: Files, base: FilePath) {
    forall q :: base <= q ==> (q in all <==> q in own) && (q in all ==> all[q] == own[q])
  }

  lemma SiblingHolds(s: Settings, dir: FilePath, vs: seq<ModuleView>, at: Path, c: ModuleView)
    requires ChildrenAt(s, vs, at) && AllBelow(s, dir, vs) && c in vs && Interesting(s, c)
    ensures HoldsFrom(AllFiles(s, dir, vs), ModuleFiles(s, dir, c), PathOfFile(s, dir, c))
  {
    hide Interesting, ModuleFiles, PathOfFile, ModIdents, AllFiles, ChildrenAt, AllBelow;
    forall q | PathOfFile(s, dir, c) <= q
      ensures q in AllFiles(s, dir, vs) <==> q in ModuleFiles(s, dir, c)
      ensures q in AllFiles(s, dir, vs) ==> AllFiles(s, dir, vs)[q] == ModuleFiles(s, dir, c)[q]
    {
      FileOfSibling(s, dir, vs, at, c, q);
    }
  }

  ghost predicate IdentsApart(s: Settings, vs: seq<ModuleView>) {
    forall i, j :: 0 <= i < j < |vs| ==> s.ModIdent(vs[i].LocalName()) != s.ModIdent(vs[j].LocalName())
  }

  lemma {:induction false} FilteredApart(s: Settings, vs: seq<ModuleView>)
    requires IdentsApart(s, vs)
    ensures IdentsApart(s, InterestingOf(s, vs))
  {
    hide Interesting;
    if vs != [] {
      assert IdentsApart(s, vs[1..]);
      FilteredApart(s, vs[1..]);
      AddedApart(s, vs, InterestingOf(s, vs[1..]));
    }
  }

  lemma AddedApart(s: Settings, vs: seq<ModuleView>, rest: seq<ModuleView>)
    requires vs != [] && IdentsApart(s, vs) && IdentsApart(s, rest)
    requires forall c :: c in rest ==> c in vs[1..]
    ensures IdentsApart(s, [vs[0]] + rest)
  {
    forall j | 0 <= j < |rest|
      ensures s.ModIdent(vs[0].LocalName()) != s.ModIdent(rest[j].LocalName())
    {
      assert rest[j] in vs[1..];
      var i :| 1 <= i < |vs| && vs[i] == rest[j];
    }
  }

  lemma IdentsOnce(s: Settings, vs: seq<ModuleView>)
    requires IdentsApart(s, vs)
    ensures var ids := Idents(s, InterestingOf(s, vs)); forall i, j :: 0 <= i < j < |ids| ==> ids[i] != ids[j]
  {
    hide Interesting, InterestingOf;
    FilteredApart(s, vs);
  }

  /** A file that declares the interesting ones among `vs`, above the files of `vs`. */
  ghost predicate Declares(s: Settings, file: SourceFile, vs: seq<ModuleView>) {
    file.mods == Idents(s, InterestingOf(s, vs))
  }

  lemma DeclaredOf(s: Settings, vs: seq<ModuleView>, x: string) returns (c: ModuleView)
    requires x in Idents(s, InterestingOf(s, vs))
    ensures c in vs && Interesting(s, c) && s.ModIdent(c.LocalName()) == x && !IsKeyword(x)
  {
    hide Interesting, InterestingOf;
    var some := InterestingOf(s, vs);
    var i :| 0 <= i < |some| && Idents(s, some)[i] == x;
    c := some[i];
    EscapedIsNoKeyword(s.snake(c.LocalName()));
  }

  lemma DeclaredIf(s: Settings, vs: seq<ModuleView>, c: ModuleView)
    requires c in vs && Interesting(s, c)
    ensures s.ModIdent(c.LocalName()) in Idents(s, InterestingOf(s, vs))
  {
    hide Interesting, InterestingOf;
    var some := InterestingOf(s, vs);
    assert c in some;
    var i :| 0 <= i < |some| && some[i] == c;
    assert Idents(s, some)[i] == s.ModIdent(c.LocalName());
  }

  ghost predicate EachClosed(s: Settings, dir: FilePath, vs: seq<ModuleView>) {
    forall c :: c in vs && Interesting(s, c) ==> Closed(ModuleFiles(s, dir, c), PathOfFile(s, dir, c))
  }

  /** One file inside a closed forest: where it is declared, and where what it declares is. */
  lemma ClosedInside(s: Settings, dir: FilePath, vs: seq<ModuleView>, at: Path, p: FilePath)
    requires ChildrenAt(s, vs, at) && AllBelow(s, dir, vs) && p in AllFiles(s, dir, vs)
    requires EachClosed(s, dir, vs)
    ensures var all := AllFiles(s, dir, vs);
      var base := dir + ModIdents(s, at);
      && base < p
      && (if |p| == |base| + 1 then p[|p| - 1] in Idents(s, InterestingOf(s, vs))
          else p[..|p| - 1] in all && p[|p| - 1] in all[p[..|p| - 1]].mods)
      && (forall x :: x in all[p].mods ==> p + [x] in all && !IsKeyword(x))
      && (forall i, j :: 0 <= i < j < |all[p].mods| ==> all[p].mods[i] != all[p].mods[j])
  {
    hide Interesting, ModuleFiles, PathOfFile, ModIdents, AllFiles, ChildrenAt, AllBelow, Idents, InterestingOf;
    hide Closed, IsKeyword, HoldsFrom;
    var c := OwningSibling(s, dir, vs, at, p);
    DeclaredIf(s, vs, c);
    ClosedHolds(
      AllFiles(s, dir, vs), ModuleFiles(s, dir, c), PathOfFile(s, dir, c), dir + ModIdents(s, at),
      s.ModIdent(c.LocalName()), p);
  }

  /** What a closed part says of one of its files holds of that file in the whole. */
  lemma ClosedHolds(all: Files, own: Files, top: FilePath, base: FilePath, x: string, p: FilePath)
    requires HoldsFrom(all, own, top) && Closed(own, top) && top == base + [x]
    requires p in all && top <= p
    ensures base < p
    ensures if |p| == |base| + 1 then p[|p| - 1] == x
            else p[..|p| - 1] in all && p[|p| - 1] in all[p[..|p| - 1]].mods
    ensures forall x :: x in all[p].mods ==> p + [x] in all && !IsKeyword(x)
    ensures forall i, j :: 0 <= i < j < |all[p].mods| ==> all[p].mods[i] != all[p].mods[j]
  {
    hide IsKeyword, Closed, HoldsFrom;
    Held(all, own, top, p);
    ClosedOf(own, top, p);
    if p != top {
      assert top <= p[..|p| - 1];
      Held(all, own, top, p[..|p| - 1]);
    }
    forall x | x in all[p].mods
      ensures p + [x] in all
    {
      Held(all, own, top, p + [x]);
    }
  }

  lemma Held(all: Files, own: Files, top: FilePath, q: FilePath)
    requires HoldsFrom(all, own, top) && top <= q
    ensures (q in all <==> q in own) && (q in all ==> all[q] == own[q])
  {
  }

  lemma ClosedOf(files: Files, base: FilePath, p: FilePath)
    requires Closed(files, base) && p in files
    ensures FileClosed(files, base, p)
  {
    hide IsKeyword;
  }

  lemma ClosedUnder(s: Settings, dir: FilePath, vs: seq<ModuleView>, at: Path, file: SourceFile)
    requires ChildrenAt(s, vs, at) && AllBelow(s, dir, vs) && Declares(s, file, vs)
    requires EachClosed(s, dir, vs)
    ensures Closed(map[dir + ModIdents(s, at) := file] + AllFiles(s, dir, vs), dir + ModIdents(s, at))
  {
    hide Interesting, ModuleFiles, PathOfFile, ModIdents, AllFiles, AllBelow, EachClosed, Idents, InterestingOf;
    hide ChildrenAt, IsKeyword, FileClosed;
    var base := dir + ModIdents(s, at);
    var all := map[base := file] + AllFiles(s, dir, vs);
    forall p | p in all
      ensures FileClosed(all, base, p)
    {
      if p in AllFiles(s, dir, vs) {
        LowerFileClosed(s, dir, vs, at, file, p);
      } else {
        BaseFileClosed(s, dir, vs, at, file);
      }
    }
    EachFileClosed(all, base);
  }

  /** `Closed`, of one file. */
  ghost predicate FileClosed(files: Files, base: FilePath, p: FilePath)
    requires p in files
  {
    && base <= p
    && (p != base ==> p[..|p| - 1] in files && p[|p| - 1] in files[p[..|p| - 1]].mods)
    && (forall x :: x in files[p].mods ==> p + [x] in files && !IsKeyword(x))
    && (forall i, j :: 0 <= i < j < |files[p].mods| ==> files[p].mods[i] != files[p].mods[j])
  }

  lemma EachFileClosed(files: Files, base: FilePath)
    requires base in files && forall p :: p in files ==> FileClosed(files, base, p)
    ensures Closed(files, base)
  {
    hide IsKeyword;
  }

  lemma BaseAbove(s: Settings, dir: FilePath, vs: seq<ModuleView>, at: Path)
    requires ChildrenAt(s, vs, at) && AllBelow(s, dir, vs) && EachClosed(s, dir, vs)
    ensures dir + ModIdents(s, at) !in AllFiles(s, dir, vs)
  {
    hide AllBelow, EachClosed, ModIdents, AllFiles, ChildrenAt, IsKeyword, InterestingOf, Idents;
    if dir + ModIdents(s, at) in AllFiles(s, dir, vs) {
      ClosedInside(s, dir, vs, at, dir + ModIdents(s, at));
    }
  }

  lemma LowerFileClosed(s: Settings, dir: FilePath, vs: seq<ModuleView>, at: Path, file: SourceFile, p: FilePath)
    requires ChildrenAt(s, vs, at) && AllBelow(s, dir, vs) && Declares(s, file, vs) && EachClosed(s, dir, vs)
    requires p in AllFiles(s, dir, vs)
    ensures FileClosed(map[dir + ModIdents(s, at) := file] + AllFiles(s, dir, vs), dir + ModIdents(s, at), p)
  {
    hide Interesting, ModIdents, AllFiles, AllBelow, EachClosed, Idents, InterestingOf, ChildrenAt, IsKeyword;
    var base := dir + ModIdents(s, at);
    ClosedInside(s, dir, vs, at, p);
    assert |p| == |base| + 1 ==> p[..|p| - 1] == base;
    BaseAbove(s, dir, vs, at);
  }

  lemma BaseFileClosed(s: Settings, dir: FilePath, vs: seq<ModuleView>, at: Path, file: SourceFile)
    requires ChildrenAt(s, vs, at) && AllBelow(s, dir, vs) && Declares(s, file, vs) && EachClosed(s, dir, vs)
    ensures FileClosed(map[dir + ModIdents(s, at) := file] + AllFiles(s, dir, vs), dir + ModIdents(s, at),
                       dir + ModIdents(s, at))
  {
    hide Interesting, ModIdents, AllFiles, AllBelow, EachClosed, Idents, InterestingOf, IsKeyword;
    var base, below := dir + ModIdents(s, at), AllFiles(s, dir, vs);
    var all := map[base := file] + below;
    BaseAbove(s, dir, vs, at);
    assert base in all && all[base] == file;
    IdentsOnce(s, vs);
    assert file.mods == Idents(s, InterestingOf(s, vs));
    forall x | x in file.mods
      ensures base + [x] in all && !IsKeyword(x)
    {
      DeclaredFile(s, dir, vs, at, x);
    }
  }

  lemma DeclaredFile(s: Settings, dir: FilePath, vs: seq<ModuleView>, at: Path, x: string)
    requires ChildrenAt(s, vs, at) && AllBelow(s, dir, vs) && EachClosed(s, dir, vs)
    requires x in Idents(s, InterestingOf(s, vs))
    ensures dir + ModIdents(s, at) + [x] in AllFiles(s, dir, vs) && !IsKeyword(x)
  {
    hide Interesting, ModuleFiles, PathOfFile, ModIdents, AllFiles, AllBelow, Idents, InterestingOf;
    var c := DeclaredOf(s, vs, x);
    ChildFile(s, dir, c, at);
    SiblingHolds(s, dir, vs, at, c);
  }

  lemma {:induction false} ModuleClosed(s: Settings, dir: FilePath, v: ModuleView)
    requires WellFormed(v) && SiblingsApart(s, v)
    ensures Closed(ModuleFiles(s, dir, v), PathOfFile(s, dir, v))
    decreases v
  {
    hide Closed, Interesting, ModIdents;
    ChildrenClosed(s, dir, v);
    ClosedUnder(s, dir, v.children, v.path, FileOf(s, v));
  }

  lemma {:induction false} ChildrenClosed(s: Settings, dir: FilePath, v: ModuleView)
    requires WellFormed(v) && SiblingsApart(s, v)
    ensures ChildrenAt(s, v.children, v.path) && AllBelow(s, dir, v.children) && EachClosed(s, dir, v.children)
    decreases v, 0
  {
    hide Closed, Interesting, ModIdents, ModuleFiles;
    AllExtend(s, dir, v);
    forall c | c in v.children
      ensures Closed(ModuleFiles(s, dir, c), PathOfFile(s, dir, c))
    {
      ModuleClosed(s, dir, c);
    }
  }

  lemma PackageClosed(s: Settings, p: DamlPackage)
    requires WellFormed(p.root) && p.root.path == [] && SiblingsApart(s, p.root)
    ensures Closed(PackageFiles(s, p), [s.ModIdent(p.name)])
  {
    hide Closed, Interesting, WellFormed, SiblingsApart;
    var dir := [s.ModIdent(p.name)];
    ChildrenClosed(s, dir, p.root);
    assert dir + ModIdents(s, []) == dir;
    ClosedUnder(s, dir, p.root.children, [], PackageFile(s, p));
  }

  // ---------- The whole archive ----------

  /** What the separate files need: real roots, and names that stay apart as identifiers. */
  ghost predicate Separable(s: Settings, a: DamlArchive) {
    && (forall id :: id in a.packages ==>
          var root := a.packages[id].root; root.path == [] && WellFormed(root) && SiblingsApart(s, root))
    && (forall id, id' :: id in a.packages && id' in a.packages && id != id' ==>
          s.ModIdent(a.packages[id].name) != s.ModIdent(a.packages[id'].name))
  }

  ghost predicate Lists(ids: seq<string>, a: DamlArchive) {
    && (forall id :: id in ids ==> id in a.packages)
    && (forall i, j :: 0 <= i < j < |ids| ==> ids[i] != ids[j])
  }

  lemma UnionHolds(first: Files, rest: Files, own: Files, base: FilePath)
    requires HoldsFrom(rest, own, base)
    requires forall q :: q in first ==> !(base <= q)
    ensures HoldsFrom(first + rest, own, base)
  {
  }

  lemma FirstHolds(first: Files, rest: Files, base: FilePath)
    requires HoldsFrom(rest, map[], base)
    ensures HoldsFrom(first + rest, first, base)
  {
  }

  lemma OtherPackage(s: Settings, p: DamlPackage, ident: string)
    requires p.root.path == [] && WellFormed(p.root) && SiblingsApart(s, p.root) && s.ModIdent(p.name) != ident
    ensures forall q :: q in PackageFiles(s, p) ==> !([ident] <= q)
  {
    hide PackageFiles;
    PackageClosed(s, p);
    forall q | q in PackageFiles(s, p)
      ensures !([ident] <= q)
    {
      assert [s.ModIdent(p.name)] <= q;
      assert q[0] == s.ModIdent(p.name);
    }
  }

  /** The files below a package's identifier are the package's. */
  lemma {:induction false} PackageOwns(s: Settings, a: DamlArchive, ids: seq<string>, id: string)
    requires Separable(s, a) && Lists(ids, a) && id in a.packages
    ensures HoldsFrom(ArchiveFiles(s, a, ids), if id in ids then PackageFiles(s, a.packages[id]) else map[],
                      [s.ModIdent(a.packages[id].name)])
  {
    hide PackageFiles, WellFormed, SiblingsApart, HoldsFrom;
    if ids == [] {
      NothingHolds([s.ModIdent(a.packages[id].name)]);
    } else {
      var base := [s.ModIdent(a.packages[id].name)];
      var first, rest := PackageFiles(s, a.packages[ids[0]]), ArchiveFiles(s, a, ids[1..]);
      PackageOwns(s, a, ids[1..], id);
      assert ids[0] in ids;
      if ids[0] == id {
        FirstHolds(first, rest, base);
      } else {
        OtherPackage(s, a.packages[ids[0]], base[0]);
        UnionHolds(first, rest, if id in ids then PackageFiles(s, a.packages[id]) else map[], base);
      }
    }
  }

  lemma NothingHolds(base: FilePath)
    ensures HoldsFrom(map[], map[], base)
  {
  }

  lemma {:induction false} OwningPackage(s: Settings, a: DamlArchive, ids: seq<string>, p: FilePath)
    returns (id: string)
    requires (forall x :: x in ids ==> x in a.packages) && p in ArchiveFiles(s, a, ids)
    ensures id in ids && p in PackageFiles(s, a.packages[id])
  {
    hide PackageFiles;
    if p in PackageFiles(s, a.packages[ids[0]]) {
      id := ids[0];
    } else {
      id := OwningPackage(s, a, ids[1..], p);
    }
  }

  ghost predicate DeclaredAt(file: SourceFile, x: string, i: nat) {
    i < |file.mods| && file.mods[i] == x
  }

  ghost predicate DeclaredOnce(file: SourceFile, x: string) {
    && (exists i :: DeclaredAt(file, x, i))
    && (forall i, j :: DeclaredAt(file, x, i) && DeclaredAt(file, x, j) ==> i == j)
  }

  /** Every `pub mod x;` of a file has its file where Rust looks and none at the other place Rust looks;
      unless the file is a package's, it is declared once in the file one level up. */
  ghost predicate FileLinked(files: Files, p: FilePath)
    requires p in files
  {
    && (forall x :: x in files[p].mods ==> p + [x] in files && p + [x, "mod"] !in files)
    && |p| >= 1
    && (|p| > 1 ==> p[..|p| - 1] in files && DeclaredOnce(files[p[..|p| - 1]], p[|p| - 1]))
  }

  lemma ClosedParent(files: Files, base: FilePath, q: FilePath)
    requires Closed(files, base) && q in files && q != base
    ensures |q| > 0 && q[..|q| - 1] in files && q[|q| - 1] in files[q[..|q| - 1]].mods
  {
    hide IsKeyword;
  }

  lemma ClosedDeclares(files: Files, base: FilePath, p: FilePath, x: string)
    requires Closed(files, base) && p in files && x in files[p].mods
    ensures DeclaredOnce(files[p], x) && !IsKeyword(x)
  {
    hide IsKeyword;
    var mods := files[p].mods;
    var i: nat :| i < |mods| && mods[i] == x;
    assert DeclaredAt(files[p], x, i);
  }

  lemma ClosedUp(files: Files, base: FilePath, p: FilePath, x: string)
    requires Closed(files, base) && p + [x] in files && p + [x] != base
    ensures p in files && DeclaredOnce(files[p], x) && !IsKeyword(x)
  {
    hide IsKeyword, Closed, DeclaredOnce;
    var q := p + [x];
    assert q[..|q| - 1] == p && q[|q| - 1] == x;
    ClosedParent(files, base, q);
    ClosedDeclares(files, base, p, x);
  }

  lemma ClosedDown(files: Files, base: FilePath, p: FilePath, x: string)
    requires Closed(files, base) && p in files && x in files[p].mods
    ensures p + [x] in files
  {
  }

  lemma ClosedLinks(files: Files, base: FilePath, p: FilePath)
    requires Closed(files, base) && |base| == 1 && p in files
    ensures FileLinked(files, p)
  {
    hide IsKeyword, DeclaredOnce, Closed;
    assert base <= p by { ClosedAbove(files, base, p); }
    forall x | x in files[p].mods
      ensures p + [x] in files && p + [x, "mod"] !in files
    {
      ClosedDown(files, base, p, x);
      if p + [x, "mod"] in files {
        assert p + [x, "mod"] == (p + [x]) + ["mod"];
        ClosedUp(files, base, p + [x], "mod");
        ModIsKeyword();
      }
    }
    if |p| > 1 {
      assert p == p[..|p| - 1] + [p[|p| - 1]];
      ClosedUp(files, base, p[..|p| - 1], p[|p| - 1]);
    }
  }

  lemma ClosedAbove(files: Files, base: FilePath, p: FilePath)
    requires Closed(files, base) && p in files
    ensures base <= p
  {
  }

  lemma ModIsKeyword()
    ensures IsKeyword("mod")
  {
  }

  lemma LinkHolds(all: Files, own: Files, base: FilePath, p: FilePath)
    requires HoldsFrom(all, own, base) && base <= p && |base| == 1 && p in own && FileLinked(own, p)
    ensures p in all && FileLinked(all, p)
  {
    hide DeclaredOnce;
    assert |p| > 1 ==> base <= p[..|p| - 1];
    forall x | x in all[p].mods
      ensures p + [x] in all && p + [x, "mod"] !in all
    {
      assert base <= p + [x] && base <= p + [x, "mod"];
    }
  }

  /** Separate mode is closed: every declaration has its file and every file its one declaration. */
  lemma SeparateModeCloses(s: Settings, a: DamlArchive, ids: seq<string>)
    requires Separable(s, a) && Lists(ids, a)
    ensures var files := ArchiveFiles(s, a, ids); forall p :: p in files ==> FileLinked(files, p)
  {
    hide PackageFiles, ArchiveFiles, WellFormed, SiblingsApart, FileLinked, HoldsFrom;
    forall p | p in ArchiveFiles(s, a, ids)
      ensures FileLinked(ArchiveFiles(s, a, ids), p)
    {
      var id := OwningPackage(s, a, ids, p);
      var own, base := PackageFiles(s, a.packages[id]), [s.ModIdent(a.packages[id].name)];
      PackageClosed(s, a.packages[id]);
      PackageOwns(s, a, ids, id);
      ClosedLinks(own, base, p);
      LinkHolds(ArchiveFiles(s, a, ids), own, base, p);
    }
  }

  // ---------- Which modules are written ----------

  /** Below a module, the file of a descendant is written exactly when the descendant is interesting, and
      it is the descendant's own: nothing overwrites it. */
  lemma {:induction false} DescendantWritten(s: Settings, dir: FilePath, v: ModuleView, rest: Path)
    requires WellFormed(v) && SiblingsApart(s, v) && rest != [] && v.ChildModulePath(rest).Some?
    ensures var w := v.ChildModulePath(rest).value;
      var p := PathOfFile(s, dir, w);
      var files := AllFiles(s, dir, v.children);
      && w.path == v.path + rest
      && (p in files <==> Interesting(s, w))
      && (p in files ==> files[p] == FileOf(s, w))
    decreases rest
  {
    hide ModIdents, FileOf, AllFiles, ModuleFiles, PathOfFile, Interesting, AllBelow, IdentsApart;
    hide SiblingsApart, WellFormed;
    var c := v.ChildModule(rest[0]).value;
    var w := v.ChildModulePath(rest).value;
    ChildGood(s, dir, v, c);
    if |rest| == 1 {
      assert c.ChildModulePath([]).value == c;
      assert w == c && rest == [c.LocalName()];
      OwnFileKept(s, dir, c);
    } else {
      DescendantWritten(s, dir, c, rest[1..]);
      assert v.path + rest == c.path + rest[1..];
      if Interesting(s, w) {
        InterestingBelow(s, c, rest[1..]);
      }
      BelowOwn(s, dir, c, w);
    }
    BelowInTree(s, dir, c, w);
    FileOfSibling(s, dir, v.children, v.path, c, PathOfFile(s, dir, w));
  }

  lemma ChildGood(s: Settings, dir: FilePath, v: ModuleView, c: ModuleView)
    requires WellFormed(v) && SiblingsApart(s, v) && c in v.children
    ensures WellFormed(c) && SiblingsApart(s, c) && c.path == v.path + [c.LocalName()]
    ensures ChildrenAt(s, v.children, v.path) && AllBelow(s, dir, v.children)
  {
    hide ModuleFiles, PathOfFile;
    AllExtend(s, dir, v);
  }

  /** The file of a module further down is among the files of the children. */
  lemma BelowOwn(s: Settings, dir: FilePath, c: ModuleView, w: ModuleView)
    requires |w.path| > |c.path|
    ensures var p := PathOfFile(s, dir, w);
      && (p in ModuleFiles(s, dir, c) <==> p in AllFiles(s, dir, c.children))
      && (p in ModuleFiles(s, dir, c) ==> ModuleFiles(s, dir, c)[p] == AllFiles(s, dir, c.children)[p])
  {
    hide ModIdents, FileOf, AllFiles;
  }

  lemma BelowInTree(s: Settings, dir: FilePath, c: ModuleView, w: ModuleView)
    requires c.path <= w.path
    ensures PathOfFile(s, dir, c) <= PathOfFile(s, dir, w)
  {
    hide ModIdents;
    PrefixIdents(s, c.path, w.path);
  }

  lemma OwnFileKept(s: Settings, dir: FilePath, v: ModuleView)
    requires WellFormed(v)
    ensures PathOfFile(s, dir, v) in ModuleFiles(s, dir, v)
    ensures ModuleFiles(s, dir, v)[PathOfFile(s, dir, v)] == FileOf(s, v)
  {
    hide ModIdents, FileOf, Interesting;
    var p := PathOfFile(s, dir, v);
    if p in AllFiles(s, dir, v.children) {
      var c := FilesBelong(s, dir, v.children, p);
      FilesExtend(s, dir, c);
      ChildFile(s, dir, c, v.path);
    }
  }

  lemma PrefixIdents(s: Settings, a: Path, b: Path)
    requires a <= b
    ensures ModIdents(s, a) <= ModIdents(s, b)
  {
  }

  lemma {:induction false} InterestingBelow(s: Settings, v: ModuleView, rest: Path)
    requires v.ChildModulePath(rest).Some? && Interesting(s, v.ChildModulePath(rest).value)
    ensures Interesting(s, v)
    decreases rest
  {
    if rest != [] {
      InterestingBelow(s, v.ChildModule(rest[0]).value, rest[1..]);
    }
  }

  /** The file of a module in the archive: written exactly when the module is interesting, with the
      declarations of its interesting children and all of its data types. */
  lemma ModuleWritten(s: Settings, a: DamlArchive, ids: seq<string>, id: string, path: Path)
    requires Separable(s, a) && Lists(ids, a) && id in ids && path != []
    requires a.FindModule(id, path).Some?
    ensures var w := a.FindModule(id, path).value;
      var p := [s.ModIdent(a.packages[id].name)] + ModIdents(s, path);
      var files := ArchiveFiles(s, a, ids);
      && (p in files <==> Interesting(s, w))
      && (p in files ==> files[p] == FileOf(s, w))
  {
    hide ArchiveFiles, WellFormed, SiblingsApart, Interesting, FileOf, AllFiles, ModIdents;
    var dir := [s.ModIdent(a.packages[id].name)];
    var root := a.packages[id].root;
    DescendantWritten(s, dir, root, path);
    assert root.path + path == path;
    PackageOwns(s, a, ids, id);
    assert dir <= dir + ModIdents(s, path);
    assert |ModIdents(s, path)| > 0;
  }

  /** The descendant at `rest` has data types and a matched path of its own. */
  ghost predicate MatchedData(s: Settings, v: ModuleView, rest: Path) {
    var w := v.ChildModulePath(rest);
    w.Some? && w.value.content.dataTypes != map[] && s.MatchesPath(w.value.path)
  }

  lemma MatchedBelow(s: Settings, v: ModuleView, c: ModuleView, rest: Path)
    requires WellFormed(v) && c in v.children && MatchedData(s, c, rest)
    ensures MatchedData(s, v, [c.LocalName()] + rest)
  {
    Extended(s, v, c, rest);
  }

  lemma {:induction false} InterestingReason(s: Settings, v: ModuleView) returns (rest: Path)
    requires WellFormed(v) && Interesting(s, v)
    ensures MatchedData(s, v, rest)
    decreases v
  {
    hide MatchedData;
    if v.content.dataTypes != map[] && s.MatchesPath(v.path) {
      rest := [];
      OwnMatch(s, v);
    } else {
      var c :| c in v.children && Interesting(s, c);
      var below := InterestingReason(s, c);
      MatchedBelow(s, v, c, below);
      rest := [c.LocalName()] + below;
    }
  }

  lemma OwnMatch(s: Settings, v: ModuleView)
    requires v.content.dataTypes != map[] && s.MatchesPath(v.path)
    ensures MatchedData(s, v, [])
  {
  }

  lemma MatchInterests(s: Settings, v: ModuleView, rest: Path)
    requires MatchedData(s, v, rest)
    ensures Interesting(s, v)
  {
    assert Interesting(s, v.ChildModulePath(rest).value);
    InterestingBelow(s, v, rest);
  }

  /** A module is interesting exactly when it or a descendant has data types and a matched path. */
  lemma InterestingIff(s: Settings, v: ModuleView)
    requires WellFormed(v)
    ensures Interesting(s, v) <==> exists rest :: MatchedData(s, v, rest)
  {
    hide Interesting, MatchedData;
    if Interesting(s, v) {
      var rest := InterestingReason(s, v);
    }
    if rest :| MatchedData(s, v, rest) {
      MatchInterests(s, v, rest);
    }
  }
}
