/** Wire packages on which promises fail; the theorems that give the exact conditions are named with them. */
module Counterexamples {
  import opened Wrappers
  import opened Element
  import opened Interned
  import opened TypeConversion
  import opened Declarations
  import opened FlatTree
  import opened Placement
  import opened Archive
  import opened ArchivePayload
  import opened Renderer
  import opened Separate
  import opened EndToEnd
  import opened Interfaces
  import opened Modes
  import opened Coverage
  import opened Implements
  import opened PackageClosure
  import opened References
  import opened SmallPackages
  import opened TypeRenderer
  import opened Validate
  import opened Occurrences
  import Order = OrderIndependence
  import Wire

  // ---------- A definition that is overwritten ----------

  function DefiningFirst(): seq<Wire.Module> {
    [EnumModule(A_, [B_D]), EnumModule(A_B, [])]
  }

  function DefiningLast(): seq<Wire.Module> {
    [EnumModule(A_B, []), EnumModule(A_, [B_D])]
  }

  /** Definition `B.D` of module `A` is lost when module `A.B` comes after `A`, and kept when it comes
      before: `Placement.DefinitionFound`. */
  lemma LostDefinition()
    ensures var early, late := PackageWith("main", DefiningFirst()), PackageWith("main", DefiningLast());
      && Wire.Acyclic(early) && ConvertModules(early.modules, early).Success?
      && Lookup(InsertModules(ConvertModules(early.modules, early).value), ["A", "B"], "D") == None
      && Wire.Acyclic(late) && ConvertModules(late.modules, late).Success?
      && Lookup(InsertModules(ConvertModules(late.modules, late).value), ["A", "B"], "D").Some?
  {
    hide InsertModules, ConvertModules, Wire.Acyclic;
    var early, late := PackageWith("main", DefiningFirst()), PackageWith("main", DefiningLast());
    var a, ab := BuiltEnums("main", A_, [B_D]), BuiltEnums("main", A_B, []);
    EnumModuleConverts(A_, [B_D], early);
    EnumModuleConverts(A_B, [], early);
    TwoModules(early.modules[0], early.modules[1], a, ab, early);
    EnumModuleConverts(A_, [B_D], late);
    EnumModuleConverts(A_B, [], late);
    TwoModules(late.modules[0], late.modules[1], ab, a, late);
    OneDefinition(a, ab);
  }

  lemma OneDefinition(a: BuiltModule, ab: BuiltModule)
    requires a == BuiltEnums("main", A_, [B_D]) && ab == BuiltEnums("main", A_B, [])
    ensures Lookup(InsertModules([a, ab]), ["A", "B"], "D") == None
    ensures Lookup(InsertModules([ab, a]), ["A", "B"], "D").Some?
  {
    hide InsertModules;
    assert ["A"] + ["B"] == ["A", "B"] && Prefix(B_D) == ["B"] && Last(B_D) == "D";
    EnumsListed("main", ["A"], B_D, B_D);
    EnumsListed("main", ["A", "B"], B_D, B_D);
    assert IsDefinition([a, ab], 0, 0) && PathOf([a, ab], 0, 0) == ["A", "B"];
    assert [a, ab][1].path == ["A", "B"];
    DefinitionFound([a, ab], 0, 0);
    if Lookup(InsertModules([a, ab]), ["A", "B"], "D").Some? {
      OnlyDefinitionsFound([a, ab], ["A", "B"], "D");
    }
    assert IsDefinition([ab, a], 1, 0) && PathOf([ab, a], 1, 0) == ["A", "B"];
    DefinitionFound([ab, a], 1, 0);
  }

  // ---------- The two modes under a filter ----------

  function ArchiveOver(root: ModuleView): DamlArchive {
    DamlArchive(map["main" := DamlPackage("main", "main", root)])
  }

  ghost function OneFilter(path: string): Settings {
    Settings(ModuleMatcher([p => p == path]), Full, x => x)
  }

  lemma OneFilterMatches(path: string, other: string)
    ensures OneFilter(path).matcher.Matches(other) <==> other == "" || other == path
  {
    var m := OneFilter(path).matcher;
    assert m.matchers[0](other) <==> other == path;
  }

  lemma Dotted()
    ensures ToModulePath(["A"]) == "A" && ToModulePath(["A", "B"]) == "A.B"
  {
    assert ["A", "B"][1..] == ["B"];
    assert ToModulePath(["A", "B"]) == "A" + "." + ToModulePath(["B"]);
  }

  /** No node of the tree has two children. */
  ghost predicate InChain(f: FlatTree) {
    forall p :: p in f ==> p <= ["A", "B"]
  }

  lemma {:induction false} ChainApart(s: Settings, v: ModuleView, f: FlatTree, p: Path)
    requires InChain(f) && ViewOf(v, f, p)
    ensures SiblingsApart(s, v)
    decreases v
  {
    forall c | c in v.children
      ensures |p| < 2 && c.LocalName() == ["A", "B"][|p|] && SiblingsApart(s, c)
    {
      assert ViewOf(c, f, c.path) && c.path <= ["A", "B"];
      assert c.path[|p|] == ["A", "B"][|p|];
      ChainApart(s, c, f, c.path);
    }
    assert forall i :: 0 <= i < |v.children| ==> v.children[i] in v.children;
  }

  lemma ViewRoot(v: ModuleView, f: FlatTree, p: Path)
    requires ViewOf(v, f, p)
    ensures p in f && v.path == p && v.content == f[p]
  {
  }

  lemma {:induction false} ChainGenerable(s: Settings, pkg: Wire.Package, bs: seq<BuiltModule>, root: ModuleView)
    requires pkg.name == "main" && pkg.packageId == "main" && Wire.Acyclic(pkg)
    requires ConvertModules(pkg.modules, pkg) == Success(bs) && InChain(InsertModules(bs))
    requires ViewOf(root, InsertModules(bs), [])
    ensures ArchiveOf(ArchiveOver(root), map["main" := pkg]) && Generable(s, ArchiveOver(root), ["main"])
  {
    hide InsertModules, ConvertModules, Wire.Acyclic, ViewOf, SiblingsApart, WellFormed, InChain;
    RootReal(bs);
    ViewRoot(root, InsertModules(bs), []);
    ViewWellFormed(root, InsertModules(bs), []);
    ChainApart(s, root, InsertModules(bs), []);
  }

  lemma {:induction false} NodeOf(a: DamlArchive, bs: seq<BuiltModule>, root: ModuleView, p: Path)
    requires a == ArchiveOver(root) && ViewOf(root, InsertModules(bs), [])
    ensures p in InsertModules(bs) <==> a.FindModule("main", p).Some?
    ensures p in InsertModules(bs) ==> a.FindModule("main", p).value.content == InsertModules(bs)[p]
  {
    hide InsertModules, ViewOf;
    TreePrefixClosed(bs);
    ChildPathFinds(root, InsertModules(bs), [], p);
    assert [] + p == p;
    if p in InsertModules(bs) {
      ViewRoot(root.ChildModulePath(p).value, InsertModules(bs), p);
    }
  }

  lemma {:induction false} ChildIn(a: DamlArchive, bs: seq<BuiltModule>, root: ModuleView, p: Path, rest: Path)
    requires a == ArchiveOver(root) && ViewOf(root, InsertModules(bs), []) && a.FindModule("main", p).Some?
    ensures a.FindModule("main", p).value.ChildModulePath(rest).Some? <==> p + rest in InsertModules(bs)
  {
    hide InsertModules, ViewOf;
    TreePrefixClosed(bs);
    ChildPathFinds(root, InsertModules(bs), [], p);
    assert [] + p == p;
    ChildPathFinds(a.FindModule("main", p).value, InsertModules(bs), p, rest);
  }

  /** A variant's payload records sit in a synthetic module. The combined mode generates them with the real
      module above them, separate mode only when their own module's path is matched: `Modes.ModesAgree`. */
  lemma {:induction false} PayloadsLost() returns (s: Settings, pkg: Wire.Package, a: DamlArchive)
    ensures ArchiveOf(a, map["main" := pkg]) && Generable(s, a, ["main"]) && HasData(a, "main", ["A", "B"])
    ensures CombinedGenerates(s, a, ["main"], "main", ["A", "B"])
    ensures !SeparateGenerates(s, a, ["main"], "main", ["A", "B"])
  {
    hide InsertModules, ConvertModules, Wire.Acyclic, ArchiveOf, Generable, ViewOf, CombinedGenerates, SeparateGenerates;
    hide BuiltEnums, InChain, EnumModule, SameInBothModes;
    var b := BuiltEnums("main", A_, [D_, B_D]);
    s, pkg := OneFilter("A"), PackageWith("main", [EnumModule(A_, [D_, B_D])]);
    EnumModuleConverts(A_, [D_, B_D], pkg);
    OneModule(pkg.modules[0], b, pkg);
    PayloadTree(b);
    RootStays([b]);
    var root := ViewExists(InsertModules([b]), []);
    a := ArchiveOver(root);
    ChainGenerable(s, pkg, [b], root);
    NodeOf(a, [b], root, ["A", "B"]);
    PayloadModes(a, b, root);
  }

  lemma {:induction false} PayloadModes(a: DamlArchive, b: BuiltModule, root: ModuleView)
    requires b == BuiltEnums("main", A_, [D_, B_D])
    requires a == ArchiveOver(root) && ViewOf(root, InsertModules([b]), [])
    requires Generable(OneFilter("A"), a, ["main"]) && HasData(a, "main", ["A", "B"])
    ensures CombinedGenerates(OneFilter("A"), a, ["main"], "main", ["A", "B"])
    ensures !SeparateGenerates(OneFilter("A"), a, ["main"], "main", ["A", "B"])
  {
    hide InsertModules, Generable, ViewOf, CombinedGenerates, SeparateGenerates, BuiltEnums, InChain;
    var s, p := OneFilter("A"), ["A", "B"];
    PayloadTree(b);
    NodeOf(a, [b], root, ["A"]);
    NodeOf(a, [b], root, p);
    assert p[..1] == ["A"] && p[..2] == p;
    assert NearestReal(root, p) == 1;
    Dotted();
    OneFilterMatches("A", "A");
    OneFilterMatches("A", "A.B");
    CombinedIff(s, a, ["main"], "main", p);
    SeparateIff(s, a, ["main"], "main", p);
    forall rest
      ensures !MatchedData(s, a.FindModule("main", p).value, rest)
    {
      ChildIn(a, [b], root, p, rest);
      if p + rest in InsertModules([b]) {
        assert p + rest <= p by { ChainHolds(InsertModules([b]), p + rest); }
        assert rest == [] && p + rest == p;
        FoundPath(s, a, root, p);
      }
    }
  }

  lemma ChainHolds(f: FlatTree, p: Path)
    requires InChain(f) && p in f
    ensures p <= ["A", "B"]
  {
  }

  lemma {:induction false} FoundPath(s: Settings, a: DamlArchive, root: ModuleView, p: Path)
    requires a == ArchiveOver(root) && Generable(s, a, ["main"]) && a.FindModule("main", p).Some?
    ensures a.FindModule("main", p).value.path == p
  {
    hide WellFormed, SiblingsApart;
    FoundWellFormed(root, p);
    assert [] + p == p;
  }

  lemma PayloadTree(b: BuiltModule)
    requires b == BuiltEnums("main", A_, [D_, B_D])
    ensures InChain(InsertModules([b]))
    ensures ["A"] in InsertModules([b]) && !InsertModules([b])[["A"]].synthetic
    ensures var p := ["A", "B"];
      p in InsertModules([b]) && InsertModules([b])[p].synthetic && "D" in InsertModules([b])[p].dataTypes
  {
    hide InsertModule, At, EnumsIn;
    assert [b][..0] == [] && InsertModules([]) == map[[] := EmptyContent(false)];
    var f := InsertModules([]);
    EnumsListed("main", ["A"], D_, B_D);
    var d := EnumIn("main", ["A"], B_D);
    assert d.prefix == ["B"] && d.name == "D" && d in b.definitions;
    assert b.path + d.prefix == ["A", "B"] && ["A", "B"][1..] == ["B"];
    forall p
      ensures p in InsertModules([b]) ==> p <= ["A", "B"]
    {
      InsertModuleCovers(f, b, p);
    }
    InsertModuleCovers(f, b, ["A", "B"]);
    InsertModuleAt(f, b, ["A"]);
    InsertModuleAt(f, b, ["A", "B"]);
  }

  /** An unmatched module above a matched one gets its data in separate mode only: `Modes.ModesAgree`. */
  lemma {:induction false} UnmatchedWritten() returns (s: Settings, pkg: Wire.Package, a: DamlArchive)
    ensures ArchiveOf(a, map["main" := pkg]) && Generable(s, a, ["main"]) && HasData(a, "main", ["A"])
    ensures !CombinedGenerates(s, a, ["main"], "main", ["A"])
    ensures SeparateGenerates(s, a, ["main"], "main", ["A"])
  {
    hide InsertModules, ConvertModules, Wire.Acyclic, ArchiveOf, Generable, ViewOf, CombinedGenerates, SeparateGenerates;
    hide BuiltEnums, InChain, EnumModule, SameInBothModes;
    var b, c := BuiltEnums("main", A_, [D_]), BuiltEnums("main", A_B, [D_]);
    s, pkg := OneFilter("A.B"), PackageWith("main", [EnumModule(A_, [D_]), EnumModule(A_B, [D_])]);
    EnumModuleConverts(A_, [D_], pkg);
    EnumModuleConverts(A_B, [D_], pkg);
    TwoModules(pkg.modules[0], pkg.modules[1], b, c, pkg);
    NestedTree(b, c);
    RootStays([b, c]);
    var root := ViewExists(InsertModules([b, c]), []);
    a := ArchiveOver(root);
    ChainGenerable(s, pkg, [b, c], root);
    NodeOf(a, [b, c], root, ["A"]);
    NestedModes(a, b, c, root);
  }

  lemma {:induction false} NestedModes(a: DamlArchive, b: BuiltModule, c: BuiltModule, root: ModuleView)
    requires b == BuiltEnums("main", A_, [D_]) && c == BuiltEnums("main", A_B, [D_])
    requires a == ArchiveOver(root) && ViewOf(root, InsertModules([b, c]), [])
    requires Generable(OneFilter("A.B"), a, ["main"]) && HasData(a, "main", ["A"])
    ensures !CombinedGenerates(OneFilter("A.B"), a, ["main"], "main", ["A"])
    ensures SeparateGenerates(OneFilter("A.B"), a, ["main"], "main", ["A"])
  {
    hide InsertModules, Generable, ViewOf, CombinedGenerates, SeparateGenerates, BuiltEnums, InChain;
    var s, p, q := OneFilter("A.B"), ["A"], ["A", "B"];
    NestedTree(b, c);
    NodeOf(a, [b, c], root, p);
    NodeOf(a, [b, c], root, q);
    FoundPath(s, a, root, q);
    assert p[..1] == p && NearestReal(root, p) == 1;
    Dotted();
    OneFilterMatches("A.B", "A");
    OneFilterMatches("A.B", "A.B");
    CombinedIff(s, a, ["main"], "main", p);
    SeparateIff(s, a, ["main"], "main", p);
    assert p + ["B"] == q;
    ChildPathTwice(root, p, ["B"]);
    assert MatchedData(s, a.FindModule("main", p).value, ["B"]);
  }

  lemma {:induction false} ChildPathTwice(v: ModuleView, p: Path, rest: Path)
    requires v.ChildModulePath(p).Some?
    ensures v.ChildModulePath(p + rest) == v.ChildModulePath(p).value.ChildModulePath(rest)
    decreases p
  {
    if p == [] {
      assert p + rest == rest;
    } else {
      ChildPathTwice(v.ChildModule(p[0]).value, p[1..], rest);
      assert (p + rest)[1..] == p[1..] + rest;
    }
  }

  lemma NestedTree(b: BuiltModule, c: BuiltModule)
    requires b == BuiltEnums("main", A_, [D_]) && c == BuiltEnums("main", A_B, [D_])
    ensures InChain(InsertModules([b, c]))
    ensures var f, p, q := InsertModules([b, c]), ["A"], ["A", "B"];
      && p in f && !f[p].synthetic && "D" in f[p].dataTypes
      && q in f && !f[q].synthetic && "D" in f[q].dataTypes
  {
    hide InsertModule, At, EnumsIn;
    var e, f := InsertModules([]), InsertModules([b]);
    assert [b][..0] == [] && [b, c][..1] == [b] && e == map[[] := EmptyContent(false)];
    EnumsListed("main", ["A"], D_, D_);
    EnumsListed("main", ["A", "B"], D_, D_);
    NoPrefix(b.definitions);
    NoPrefix(c.definitions);
    assert ["A", "B"][..1] == ["A"];
    forall p
      ensures p in InsertModules([b, c]) ==> p <= ["A", "B"]
    {
      InsertModuleCovers(e, b, p);
      RootStays([b]);
      InsertModuleCovers(f, c, p);
    }
    RootStays([b]);
    InsertModuleCovers(e, b, ["A"]);
    InsertModuleCovers(f, c, ["A"]);
    InsertModuleAt(e, b, ["A"]);
    InsertModuleAt(f, c, ["A"]);
    InsertModuleAt(f, c, ["A", "B"]);
  }

  lemma NoPrefix(defs: seq<Definition>)
    requires |defs| == 1 && defs[0].prefix == [] && defs[0].name == "D"
    ensures "D" in Direct(defs)
  {
    assert defs[..0] == [];
  }

  /** Data types of the root module are generated by the combined mode only, filter or not:
      `Modes.UnfilteredModes`. */
  lemma {:induction false} RootDataNotWritten() returns (s: Settings, pkg: Wire.Package, a: DamlArchive)
    ensures ArchiveOf(a, map["main" := pkg]) && Generable(s, a, ["main"]) && HasData(a, "main", [])
    ensures s.matcher.matchers == []
    ensures CombinedGenerates(s, a, ["main"], "main", []) && !SeparateGenerates(s, a, ["main"], "main", [])
  {
    hide InsertModules, ConvertModules, Wire.Acyclic, ArchiveOf, Generable, ViewOf, CombinedGenerates, SeparateGenerates;
    hide BuiltEnums, InChain, EnumModule;
    var b := BuiltEnums("main", ROOT, [D_]);
    s, pkg := Settings(ModuleMatcher([]), Full, x => x), PackageWith("main", [EnumModule(ROOT, [D_])]);
    EnumModuleConverts(ROOT, [D_], pkg);
    OneModule(pkg.modules[0], b, pkg);
    RootTree(b);
    var root := ViewExists(InsertModules([b]), []);
    a := ArchiveOver(root);
    ChainGenerable(s, pkg, [b], root);
    NodeOf(a, [b], root, []);
    UnfilteredModes(s, a, ["main"], "main", []);
  }

  lemma RootTree(b: BuiltModule)
    requires b == BuiltEnums("main", ROOT, [D_])
    ensures InChain(InsertModules([b]))
    ensures [] in InsertModules([b]) && "D" in InsertModules([b])[[]].dataTypes
  {
    hide InsertModule, At, EnumsIn;
    var e := InsertModules([]);
    assert [b][..0] == [] && e == map[[] := EmptyContent(false)];
    EnumsListed("main", [], D_, D_);
    NoPrefix(b.definitions);
    forall p
      ensures p in InsertModules([b]) <==> p == []
    {
      InsertModuleCovers(e, b, p);
    }
    assert InsertModules([b]) == InsertModule(e, b);
    InsertModuleAt(e, b, []);
  }

  // ---------- Interfaces that references miss ----------

  /** Module `A` declares interfaces `D` and `B.D`. The second replaces the first and stays in `A` itself: under
      the name of the first the second is found, under its own name nothing: `Interfaces.InterfaceFound`. */
  lemma InterfacesLost() returns (pkg: Wire.Package, first: DamlInterface, second: DamlInterface)
    ensures Wire.Acyclic(pkg) && ConvertModules(pkg.modules, pkg).Success? && |pkg.modules| == 1
    ensures DistinctInterfaces(pkg) && Declared(pkg, 0) == [first, second]
    ensures first.modulePath == ["A"] && second.modulePath == ["A", "B"] && first.name == "D" == second.name
    ensures LookupInterface(InsertModules(ConvertModules(pkg.modules, pkg).value), ["A"], "D") == Some(second)
    ensures LookupInterface(InsertModules(ConvertModules(pkg.modules, pkg).value), ["A", "B"], "D") == None
  {
    hide InsertModules, ConvertModules, Wire.Acyclic, BuiltInterfaces, InterfaceModule, Declared, ConvertInterfaces;
    hide LookupInterface, DistinctInterfaces;
    pkg := PackageWith("main", [InterfaceModule(A_, D_, B_D)]);
    first, second := InterfaceIn("main", ["A"], D_), InterfaceIn("main", ["A"], B_D);
    InterfaceModuleConverts(A_, D_, B_D, pkg);
    var b := BuiltInterfaces("main", A_, D_, B_D);
    OneModule(pkg.modules[0], b, pkg);
    TwoDeclared(pkg, b);
    TwoDistinct(pkg, first, second);
    LostTree(b);
  }

  lemma TwoDistinct(pkg: Wire.Package, first: DamlInterface, second: DamlInterface)
    requires Wire.Acyclic(pkg) && ConvertModules(pkg.modules, pkg).Success? && |pkg.modules| == 1
    requires Declared(pkg, 0) == [first, second] && first.modulePath != second.modulePath
    ensures DistinctInterfaces(pkg)
  {
    hide Declared, ConvertModules, Wire.Acyclic;
  }

  lemma TwoDeclared(pkg: Wire.Package, b: BuiltModule)
    requires pkg == PackageWith("main", [InterfaceModule(A_, D_, B_D)]) && b == BuiltInterfaces("main", A_, D_, B_D)
    requires Wire.Acyclic(pkg) && ConvertModules(pkg.modules, pkg) == Success([b])
    ensures Declared(pkg, 0) == [InterfaceIn("main", ["A"], D_), InterfaceIn("main", ["A"], B_D)]
  {
    hide ConvertModules, Wire.Acyclic, ConvertInterfaces, InterfaceIn;
    TwoInterfacesConvert(D_, B_D, pkg, ["A"]);
  }

  lemma LostTree(b: BuiltModule)
    requires b == BuiltInterfaces("main", A_, D_, B_D)
    ensures LookupInterface(InsertModules([b]), ["A"], "D") == Some(InterfaceIn("main", ["A"], B_D))
    ensures LookupInterface(InsertModules([b]), ["A", "B"], "D") == None
  {
    hide InsertModule;
    var e := InsertModules([]);
    assert [b][..0] == [] && e == map[[] := EmptyContent(false)];
    assert InsertModules([b]) == InsertModule(e, b);
    InsertModuleCovers(e, b, ["A"]);
    InsertModuleCovers(e, b, ["A", "B"]);
    TreeInterfaces([b], ["A"]);
    var i, j := InterfaceIn("main", ["A"], D_), InterfaceIn("main", ["A"], B_D);
    assert [i, j][..1] == [i];
    assert InterfacesByName([i, j])["D"] == j;
  }

  // ---------- Templates ----------

  /** The tree of a module `A` with one definition. */
  function OneLeafTree(b: BuiltModule): FlatTree {
    map[[] := EmptyContent(false), ["A"] := b.Leaf()]
  }

  lemma OneLeaf(b: BuiltModule)
    requires b.path == ["A"] && |b.definitions| == 1 && b.definitions[0].prefix == []
    ensures InsertModules([b]) == OneLeafTree(b)
    ensures b.Leaf().dataTypes == map[b.definitions[0].name := b.definitions[0].data]
  {
    assert [b][..0] == [] && InsertModules([]) == map[[] := EmptyContent(false)];
    assert [] + ["A"] == ["A"] && ["A"][1..] == [];
    assert b.definitions[..0] == [] && Direct([]) == map[];
    assert Direct(b.definitions) == map[b.definitions[0].name := b.definitions[0].data];
    assert Nested(b.definitions) == [];
    assert Install(InsertModules([]), b) == OneLeafTree(b);
  }

  /** The template is named `D` like the record, but through another entry of the table. The record stays a
      plain record; with one entry it becomes a template: `Renaming.MergedTemplateName`. */
  lemma HiddenTemplate()
    ensures var hidden, attached :=
        PackageWith("main", [RecordModule(D_, D_AGAIN)]), PackageWith("main", [RecordModule(D_, D_)]);
      && ResolveDotted(D_, hidden) == ResolveDotted(D_AGAIN, hidden) == Success(["D"])
      && Wire.Acyclic(hidden) && ConvertModules(hidden.modules, hidden).Success?
      && Wire.Acyclic(attached) && ConvertModules(attached.modules, attached).Success?
      && var data := Lookup(InsertModules(ConvertModules(hidden.modules, hidden).value), ["A"], "D");
         var data' := Lookup(InsertModules(ConvertModules(attached.modules, attached).value), ["A"], "D");
         data.Some? && data.value.Record? && data'.Some? && data'.value.Template?
  {
    hide InsertModules, ConvertModules, Wire.Acyclic, RecordModule, ResolveDotted;
    var hidden, attached :=
      PackageWith("main", [RecordModule(D_, D_AGAIN)]), PackageWith("main", [RecordModule(D_, D_)]);
    NamesResolve(D_, hidden);
    NamesResolve(D_AGAIN, hidden);
    RecordModuleConverts(D_, D_AGAIN, hidden);
    RecordModuleConverts(D_, D_, attached);
    OneLeaf(BuiltRecord("main", D_, D_AGAIN));
    OneLeaf(BuiltRecord("main", D_, D_));
  }

  function Implementing(): Wire.Package {
    PackageWith("main", [RecordModule(D_, D_)])
  }

  lemma ImplementingConverts()
    ensures Wire.Acyclic(Implementing()) && ConvertModules(Implementing().modules, Implementing()).Success?
    ensures ConvertModules(Implementing().modules, Implementing()).value == [BuiltRecord("main", D_, D_)]
    ensures InsertModules([BuiltRecord("main", D_, D_)]) == OneLeafTree(BuiltRecord("main", D_, D_))
    ensures BuiltRecord("main", D_, D_).Leaf().dataTypes == map["D" := RecordOrTemplate("main", D_, D_)]
  {
    hide InsertModules, ConvertModules, Wire.Acyclic, RecordModule;
    RecordModuleConverts(D_, D_, Implementing());
    OneLeaf(BuiltRecord("main", D_, D_));
  }

  /** An archive passes `validate` although its template implements an interface of a package that is not
      there: `Coverage.ValidCovers`. */
  lemma {:induction false} DanglingImplements() returns (a: DamlArchive)
    ensures ArchiveOf(a, map["main" := Implementing()]) && Valid(a)
    ensures IsModule(a, "main", ["A"]) && Implemented(a.FindModule("main", ["A"]).value.content, OtherName())
    ensures !Resolves(a, OtherName())
  {
    hide InsertModules, ConvertModules, Wire.Acyclic, ViewOf, Violates, BuiltRecord, RecordOrTemplate;
    hide Implementing, Resolves, Implemented, OneLeafTree;
    ImplementingConverts();
    var b := BuiltRecord("main", D_, D_);
    RootStays([b]);
    var root := ViewExists(InsertModules([b]), []);
    a := ArchiveOver(root);
    ImplementingArchive(a, b, root);
    forall e
      ensures !Violates(a, e)
    {
      NothingViolated(a, b, root, e);
    }
  }

  lemma {:induction false} ImplementingArchive(a: DamlArchive, b: BuiltModule, root: ModuleView)
    requires b == BuiltRecord("main", D_, D_) && a == ArchiveOver(root) && ViewOf(root, InsertModules([b]), [])
    ensures ArchiveOf(a, map["main" := Implementing()])
    ensures IsModule(a, "main", ["A"]) && Implemented(a.FindModule("main", ["A"]).value.content, OtherName())
    ensures !Resolves(a, OtherName())
  {
    hide InsertModules, ConvertModules, Wire.Acyclic, ViewOf, BuiltRecord, RecordOrTemplate, Implemented;
    ImplementingConverts();
    NodeOf(a, [b], root, ["A"]);
    ImplementsOther(b.Leaf());
  }

  lemma ImplementsOther(c: ModuleContent)
    requires c.dataTypes == map["D" := RecordOrTemplate("main", D_, D_)]
    ensures Implemented(c, OtherName())
  {
    assert OtherName() in c.dataTypes["D"].implements;
  }

  lemma {:induction false} NothingViolated(a: DamlArchive, b: BuiltModule, root: ModuleView, e: ConvertError)
    requires b == BuiltRecord("main", D_, D_) && a == ArchiveOver(root) && ViewOf(root, InsertModules([b]), [])
    ensures !Violates(a, e)
  {
    hide InsertModules, ViewOf, ModuleViolation, OwnViolation, BuiltRecord, RecordOrTemplate;
    if Violates(a, e) {
      ViewWellFormed(root, InsertModules([b]), []);
      CheckedByPath(a, root, e);
      var p :| ViolationAt(a, root, p, e);
      ImplementingNode(a, b, root, p);
      NoOwnViolation(a, root.ChildModulePath(p).value, e);
    }
  }

  lemma {:induction false} ImplementingNode(a: DamlArchive, b: BuiltModule, root: ModuleView, p: Path)
    requires b == BuiltRecord("main", D_, D_) && a == ArchiveOver(root) && ViewOf(root, InsertModules([b]), [])
    requires root.ChildModulePath(p).Some?
    ensures var c := root.ChildModulePath(p).value.content;
      c.interfaces == map[] && (c.dataTypes == map[] || c.dataTypes == map["D" := RecordOrTemplate("main", D_, D_)])
  {
    hide InsertModules, ViewOf, RecordOrTemplate;
    OneLeaf(b);
    NodeOf(a, [b], root, p);
    assert a.FindModule("main", p) == root.ChildModulePath(p);
  }

  lemma NoOwnViolation(a: DamlArchive, m: ModuleView, e: ConvertError)
    requires m.content.interfaces == map[]
    requires m.content.dataTypes == map[] || m.content.dataTypes == map["D" := RecordOrTemplate("main", D_, D_)]
    ensures !OwnViolation(a, m, e)
  {
  }

  // ---------- A choice argument that does not print ----------

  function Choosing(): Wire.Package {
    PackageWith("main", [ChoiceModule()])
  }

  lemma ChoosingTree()
    ensures Wire.Acyclic(Choosing()) && ConvertModules(Choosing().modules, Choosing()).Success?
    ensures ConvertModules(Choosing().modules, Choosing()).value == [BuiltChoice("main", "main")]
    ensures InsertModules([BuiltChoice("main", "main")]) == OneLeafTree(BuiltChoice("main", "main"))
    ensures BuiltChoice("main", "main").Leaf().dataTypes
         == map["A" := ChoosingTemplate("main", "main"), "D" := PlainRecord("main")]
  {
    hide InsertModules, ConvertModules, Wire.Acyclic, ChoiceModule;
    ChoiceModuleConverts(Choosing());
    TwoLeaf(BuiltChoice("main", "main"));
  }

  lemma TwoLeaf(b: BuiltModule)
    requires b == BuiltChoice("main", "main")
    ensures InsertModules([b]) == OneLeafTree(b)
    ensures Direct(b.definitions) == map["A" := ChoosingTemplate("main", "main"), "D" := PlainRecord("main")]
  {
    hide ChoosingTemplate;
    var d, e := b.definitions[0], b.definitions[1];
    assert [b][..0] == [] && InsertModules([]) == map[[] := EmptyContent(false)];
    assert [] + ["A"] == ["A"] && ["A"][1..] == [];
    assert [d, e][..1] == [d] && [d][..0] == [] && Direct([]) == map[] && Nested([]) == [];
    assert Nested([d]) == [] && Nested(b.definitions) == [];
    assert Install(InsertModules([]), b) == OneLeafTree(b);
  }

  /** An archive passes `validate` although the argument of a choice, a record applied to an arrow, is a type
      the generator cannot print: `EndToEnd.ChoiceArgumentPrints`. */
  lemma {:induction false} UnprintableArgument(s: Settings) returns (a: DamlArchive)
    ensures ArchiveOf(a, map["main" := Choosing()]) && Valid(a)
    ensures a.Data("main", ["A"], "A") == Some(ChoosingTemplate("main", "main"))
    ensures ChoosingTemplate("main", "main").choices[0].fields[0].ty == ArrowArgument("main", "main")
    ensures !Printable(ArrowArgument("main", "main").args[0])
    ensures QuoteType(s, ArrowArgument("main", "main")).Failure?
  {
    hide InsertModules, ConvertModules, Wire.Acyclic, ViewOf, Violates, BuiltChoice, ChoosingTemplate, Choosing,
      QuoteType;
    ChoosingTree();
    var b := BuiltChoice("main", "main");
    RootStays([b]);
    var root := ViewExists(InsertModules([b]), []);
    a := ArchiveOver(root);
    ChoosingArchive(a, b, root);
    forall e
      ensures !Violates(a, e)
    {
      ChoosingNotViolated(a, b, root, e);
    }
    ArrowUnprintable(s);
  }

  lemma {:induction false} ChoosingArchive(a: DamlArchive, b: BuiltModule, root: ModuleView)
    requires b == BuiltChoice("main", "main") && a == ArchiveOver(root) && ViewOf(root, InsertModules([b]), [])
    ensures ArchiveOf(a, map["main" := Choosing()])
    ensures a.Data("main", ["A"], "A") == Some(ChoosingTemplate("main", "main"))
    ensures a.Data("main", ["A"], "D") == Some(PlainRecord("main"))
  {
    hide InsertModules, ConvertModules, Wire.Acyclic, ViewOf, BuiltChoice, ChoosingTemplate;
    ChoosingTree();
    NodeOf(a, [b], root, ["A"]);
  }

  lemma ArrowUnprintable(s: Settings)
    ensures ChoosingTemplate("main", "main").choices[0].fields[0].ty == ArrowArgument("main", "main")
    ensures !Printable(ArrowArgument("main", "main").args[0])
    ensures QuoteType(s, ArrowArgument("main", "main")).Failure?
  {
    hide QuoteType;
    PrintsIffPrintable(s, ArrowArgument("main", "main"));
  }

  lemma {:induction false} ChoosingNotViolated(a: DamlArchive, b: BuiltModule, root: ModuleView, e: ConvertError)
    requires b == BuiltChoice("main", "main") && a == ArchiveOver(root) && ViewOf(root, InsertModules([b]), [])
    ensures !Violates(a, e)
  {
    hide InsertModules, ViewOf, ModuleViolation, OwnViolation, BuiltChoice, ChoosingTemplate, Choosing, PlainRecord,
      ArchiveOf;
    if Violates(a, e) {
      ViewWellFormed(root, InsertModules([b]), []);
      CheckedByPath(a, root, e);
      var p :| ViolationAt(a, root, p, e);
      ChoosingArchive(a, b, root);
      ChoosingNode(a, b, root, p);
      ChoosingHasNone(a, root.ChildModulePath(p).value, e);
    }
  }

  lemma {:induction false} ChoosingNode(a: DamlArchive, b: BuiltModule, root: ModuleView, p: Path)
    requires b == BuiltChoice("main", "main") && a == ArchiveOver(root) && ViewOf(root, InsertModules([b]), [])
    requires root.ChildModulePath(p).Some?
    ensures var c := root.ChildModulePath(p).value.content;
      c.interfaces == map[] && (c.dataTypes == map[] ||
        c.dataTypes == map["A" := ChoosingTemplate("main", "main"), "D" := PlainRecord("main")])
  {
    hide InsertModules, ViewOf, ConvertModules, ChoosingTemplate, PlainRecord, Direct, Wire.Acyclic;
    TwoLeaf(b);
    NodeOf(a, [b], root, p);
    assert a.FindModule("main", p) == root.ChildModulePath(p);
  }

  lemma ChoosingHasNone(a: DamlArchive, m: ModuleView, e: ConvertError)
    requires m.content.interfaces == map[]
    requires m.content.dataTypes == map[] ||
      m.content.dataTypes == map["A" := ChoosingTemplate("main", "main"), "D" := PlainRecord("main")]
    requires a.Data("main", ["A"], "D") == Some(PlainRecord("main"))
    ensures !OwnViolation(a, m, e)
  {
    hide DataViolation, InterfaceViolation, ChoosingTemplate, PlainRecord;
    ChoosingFine(a, e);
  }

  lemma ChoosingFine(a: DamlArchive, e: ConvertError)
    requires a.Data("main", ["A"], "D") == Some(PlainRecord("main"))
    ensures !DataViolation(a, ChoosingTemplate("main", "main"), e) && !DataViolation(a, PlainRecord("main"), e)
  {
    hide TypeViolation, ResolvesToRecord, ArrowArgument;
    NamesOfArgument(a, ArrowArgument("main", "main"), e);
  }

  lemma NamesOfArgument(a: DamlArchive, t: DamlType, e: ConvertError)
    requires t == ArrowArgument("main", "main") && a.Data("main", ["A"], "D") == Some(PlainRecord("main"))
    ensures !TypeViolation(a, t, e) && !TypeViolation(a, TUnit, e) && ResolvesToRecord(a, t)
  {
    assert Occurrences.NamesOfAll([]) == {} && [TArrow][1..] == [];
    assert Occurrences.Names(t) == {t.tycon};
    assert Resolves(a, t.tycon);
  }

  // ---------- A DAR without an implemented interface ----------

  function PayloadWith(name: int, modules: seq<Wire.Module>): DamlLfArchive {
    DamlLfArchive("", "", Metadata(name, name), Strings(), DottedNames(), [], [], [], modules)
  }

  /** Package `main` implements interface `D` of module `A` of package `other`. */
  function MainPayload(): DamlLfArchive {
    PayloadWith(MAIN, [RecordModule(D_, D_)])
  }

  function OtherPayload(): DamlLfArchive {
    PayloadWith(OTHER, [ModuleWith(A_, [], [], [InterfaceCalled(D_)])])
  }

  function Parse(bytes: Bytes): ConvertResult<DamlLfArchive> {
    Success(if bytes == [] then MainPayload() else OtherPayload())
  }

  function NoBodies(payload: DamlLfArchive): ConvertResult<set<string>> {
    Success({})
  }

  ghost function TwoPayloads(): Decoder {
    Decoder(Parse, NoBodies)
  }

  function TwoPackages(): seq<LedgerPackage> {
    [LedgerPackage("main", []), LedgerPackage("other", [0])]
  }

  lemma BothConvertible()
    ensures PackagesConvertible(TwoPackages(), TwoPayloads()) && !Unparsable(TwoPackages(), TwoPayloads())
    ensures UniqueHashes(TwoPackages())
    ensures Convertible(MainPayload())
  {
    hide RecordModule, InterfaceCalled, ModuleWith;
    TablesConvertible(MAIN, [RecordModule(D_, D_)]);
    TablesConvertible(OTHER, [ModuleWith(A_, [], [], [InterfaceCalled(D_)])]);
  }

  lemma TablesConvertible(name: int, modules: seq<Wire.Module>)
    ensures Convertible(PayloadWith(name, modules))
  {
    var pkg := PackagePayload(PayloadWith(name, modules).(hash := ""));
    if pkg.Success? {
      TablesAcyclic(pkg.value);
    }
  }

  /** Payload `main` as the closure converts it, without its id. */
  lemma MainConverts()
    ensures PackagePayload(MainPayload().(hash := "")).Success?
    ensures var pkg := PackagePayload(MainPayload().(hash := "")).value;
      && Wire.Acyclic(pkg) && pkg.modules == [RecordModule(D_, D_)]
      && ConvertModules(pkg.modules, pkg) == Success([BuiltRecord("", D_, D_)])
  {
    hide ConvertModules, Wire.Acyclic, RecordModule, BuiltRecord;
    assert RecordModule(D_, D_).flags == Wire.ModuleFlags(true, true, true) by { FlagsSet(); }
    var pkg := PackagePayload(MainPayload().(hash := "")).value;
    RecordModuleConverts(D_, D_, pkg);
  }

  lemma FlagsSet()
    ensures RecordModule(D_, D_).flags == Wire.ModuleFlags(true, true, true)
  {
  }

  lemma MainTree()
    ensures TreeRefs(InsertModules([BuiltRecord("", D_, D_)])) == {}
    ensures TreeImplements(InsertModules([BuiltRecord("", D_, D_)]), "other")
  {
    hide InsertModules, ContentRefs;
    var b := BuiltRecord("", D_, D_);
    OneLeaf(b);
    var c := b.Leaf();
    NoRefs(EmptyContent(false));
    NoRefs(c);
    ImplementsIn(InsertModules([b]), ["A"], "D", OtherName());
  }

  lemma ImplementsIn(f: FlatTree, p: Path, k: string, n: DamlTyConName)
    requires p in f && k in f[p].dataTypes && f[p].dataTypes[k].Template? && n in f[p].dataTypes[k].implements
    ensures TreeImplements(f, n.ReferencePackage())
  {
  }

  lemma NoRefs(c: ModuleContent)
    requires c.synonyms == [] && c.interfaces == map[]
    requires c.dataTypes == map[] || c.dataTypes == map["D" := RecordOrTemplate("", D_, D_)]
    ensures ContentRefs(c) == {}
  {
  }

  lemma MainRefersToNothing()
    ensures Convertible(MainPayload()) && CollectReferencedPackageIds(MainPayload(), TwoPayloads()) == Success({})
  {
    hide ConvertModules, Wire.Acyclic, InsertModules, TreeRefs, RecordModule, BuiltRecord, Convertible, MainPayload;
    BothConvertible();
    MainConverts();
    MainTree();
    assert {} + {} - {""} == {};
  }

  lemma TwoInMap()
    ensures PackagesConvertible(TwoPackages(), TwoPayloads())
    ensures PayloadsOf(TwoPackages(), TwoPayloads()) == map["main" := MainPayload(), "other" := OtherPayload()]
  {
    hide PackagesConvertible, MainPayload, OtherPayload, AllConvertible;
    BothConvertible();
    var p, q, d := TwoPackages()[0], TwoPackages()[1], TwoPayloads();
    assert [p, q][..1] == [p] && [p][..0] == [] && PayloadsById([], d) == Success(map[]);
    assert PayloadsById([p], d) == Success(map["main" := MainPayload()]);
    assert PayloadsById([p, q], d) == Success(map["main" := MainPayload(), "other" := OtherPayload()]);
  }

  lemma OnlyMainReachable(id: string)
    ensures PackagesConvertible(TwoPackages(), TwoPayloads())
    ensures Reachable(PayloadsOf(TwoPackages(), TwoPayloads()), TwoPayloads(), "main", id) <==> id == "main"
    ensures !Broken(PayloadsOf(TwoPackages(), TwoPayloads()), TwoPayloads(), "main")
  {
    hide PackagesConvertible, MainPayload, OtherPayload, CollectReferencedPackageIds, PayloadsOf, TwoPayloads, Convertible;
    TwoInMap();
    MainRefersToNothing();
    var payloads, d := PayloadsOf(TwoPackages(), TwoPayloads()), TwoPayloads();
    assert Targets(payloads, d, "main") == {};
    RootReachable(payloads, d, "main");
    if Reachable(payloads, d, "main", id) {
      var path :| ReferencePath(payloads, d, path) && path[0] == "main" && path[|path| - 1] == id;
      if |path| > 1 {
        assert path[1] in Targets(payloads, d, path[0]);
      }
    }
  }

  lemma MainImplementsOther()
    ensures PackagesConvertible(TwoPackages(), TwoPayloads())
    ensures ImplementsFrom(PayloadsOf(TwoPackages(), TwoPayloads()), "main", "other")
  {
    hide PackagesConvertible, MainPayload, OtherPayload, PayloadsOf, TwoPayloads, ConvertModules, InsertModules,
      TreeImplements, Wire.Acyclic, RecordModule, BuiltRecord;
    TwoInMap();
    MainConverts();
    MainTree();
  }

  /** Filtering keeps package `main` and drops package `other`, which it contains and implements an interface
      of: `Implements.ImplementedKeptIff`. */
  lemma ImplementedDropped(kept: seq<LedgerPackage>)
    ensures PackagesConvertible(TwoPackages(), TwoPayloads()) && UniqueHashes(TwoPackages())
    ensures !Unparsable(TwoPackages(), TwoPayloads()) && ResolveMainId(TwoPackages(), None) == Success("main")
    ensures !BrokenDependency(TwoPackages(), "main", TwoPayloads())
    ensures ImplementsFrom(PayloadsOf(TwoPackages(), TwoPayloads()), "main", "other")
    ensures IsKept(TwoPackages(), kept, true, "main", TwoPayloads()) ==>
      TwoPackages()[0] in kept && TwoPackages()[1] !in kept && !KeepsImplemented(TwoPackages(), kept, TwoPayloads())
  {
    hide PackagesConvertible, Unparsable, PayloadsOf, TwoPayloads, ImplementsFrom, Reachable, Broken, IsKept;
    BothConvertible();
    MainImplementsOther();
    var packages, d := TwoPackages(), TwoPayloads();
    forall id
      ensures Reachable(PayloadsOf(packages, d), d, "main", id) <==> id == "main"
      ensures !Broken(PayloadsOf(packages, d), d, "main")
    {
      OnlyMainReachable(id);
    }
    if IsKept(packages, kept, true, "main", d) {
      KeptIff(packages, kept, "main", d, packages[0]);
      KeptIff(packages, kept, "main", d, packages[1]);
    }
  }
}
