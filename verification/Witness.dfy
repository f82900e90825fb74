/** A small archive that meets every premise of the end-to-end theorem: one package whose module `M` has a
    record `R` with a field of its own type. */
module Witness {
  import opened Wrappers
  import opened Element
  import opened Interned
  import opened TypeConversion
  import opened Declarations
  import opened Placement
  import opened Archive
  import opened ArchivePayload
  import opened Identifiers
  import opened Renderer
  import opened TypeRenderer
  import opened Validate
  import opened Occurrences
  import opened EndToEnd
  import F = FlatTree
  import Wire

  function SelfReference(): Wire.Type {
    Wire.TypeCon(Wire.QualifiedId(Wire.ModuleId(Wire.SelfPackage, 0), 1), [])
  }

  function WireModule(): Wire.Module {
    Wire.Module(
      0, Wire.ModuleFlags(true, true, true), [],
      [Wire.DefDataType(1, [], true, Wire.ConsRecord([Wire.FieldWithType(2, SelfReference())]))], [], [], [])
  }

  function WirePackage(): Wire.Package {
    Wire.Package("p", "id", ["M", "R", "f"], [[0], [1]], [], [], [], [WireModule()], map["id" := "p"])
  }

  function Field(): DamlField {
    DamlField("f", TTyCon(Absolute("R", "id", "p", ["M"]), []))
  }

  function RecordR(): DamlData {
    Record("R", "id", ["M"], [Field()], [], true)
  }

  function ModuleM(): BuiltModule {
    BuiltModule(["M"], DamlFeatureFlags(true, true, true), [Definition([], "R", RecordR())], [], map[], map[])
  }

  lemma TablesAcyclic()
    ensures Wire.Acyclic(WirePackage())
  {
    assert Wire.TypesRanked([], []) && Wire.KindsRanked([], []);
  }

  lemma OneString(index: int)
    requires 0 <= index < |WirePackage().strings|
    ensures ResolveStrings([index], WirePackage()) == Success([WirePackage().strings[index]])
  {
    assert [index][1..] == [];
    assert ResolveString(index, WirePackage()) == Success(WirePackage().strings[index]);
    assert [WirePackage().strings[index]] + [] == [WirePackage().strings[index]];
  }

  lemma NamesResolve()
    ensures ResolveDotted(0, WirePackage()) == Success(["M"])
    ensures ResolveDotted(1, WirePackage()) == Success(["R"])
    ensures ResolveString(2, WirePackage()) == Success("f")
  {
    OneString(0);
    OneString(1);
  }

  lemma FieldConverts()
    ensures Wire.Acyclic(WirePackage())
    ensures ConvertFields([Wire.FieldWithType(2, SelfReference())], WirePackage()) == Success([Field()])
  {
    TablesAcyclic();
    NamesResolve();
    var pkg := WirePackage();
    assert ConvertQualifiedId(SelfReference().tycon, pkg) == Success(Absolute("R", "id", "p", ["M"])) by {
      assert ["R"][..0] == [] && ["M"] + [] == ["M"];
    }
    assert ConvertType(SelfReference(), pkg) == Success(Field().ty);
    var f := Wire.FieldWithType(2, SelfReference());
    assert ConvertField(f, pkg) == Success(Field());
    assert [f][1..] == [] && ConvertFields([], pkg) == Success([]) && [Field()] + [] == [Field()];
  }

  lemma DataTypeConverts()
    ensures Wire.Acyclic(WirePackage())
    ensures ConvertDataTypes(WireModule().dataTypes, WirePackage(), ["M"], map[])
         == Success([Definition([], "R", RecordR())])
  {
    hide ConvertFields, ResolveDotted;
    FieldConverts();
    NamesResolve();
    var d, pkg := WireModule().dataTypes[0], WirePackage();
    assert ["R"][..0] == [] && ["M"] + [] == ["M"];
    assert BuildDataType(d, "R", pkg, ["M"], map[]) == Success(Some(RecordR()));
    assert ConvertDataType(d, pkg, ["M"], map[]) == Success([Definition([], "R", RecordR())]);
    var def := Definition([], "R", RecordR());
    assert [d][1..] == [] && ConvertDataTypes([], pkg, ["M"], map[]) == Success([]) && [def] + [] == [def];
  }

  lemma ModuleConverts()
    ensures Wire.Acyclic(WirePackage())
    ensures ConvertModules(WirePackage().modules, WirePackage()) == Success([ModuleM()])
  {
    hide ConvertDataTypes, ResolveDotted;
    DataTypeConverts();
    NamesResolve();
    var m, pkg := WireModule(), WirePackage();
    assert ConvertModule(m, pkg) == Success(ModuleM());
    assert [m][1..] == [] && ConvertModules([], pkg) == Success([]) && [ModuleM()] + [] == [ModuleM()];
  }

  // ---------- The tree and the archive ----------

  function Tree(): F.FlatTree {
    map[[] := F.EmptyContent(false), ["M"] := ModuleM().Leaf()]
  }

  lemma TreeBuilt()
    ensures F.InsertModules([ModuleM()]) == Tree()
  {
    var b := ModuleM();
    assert [b][..0] == [] && F.InsertModules([]) == map[[] := F.EmptyContent(false)];
    assert [] + ["M"] == ["M"] && ["M"][1..] == [];
    assert Nested(b.definitions) == [] by {
      assert b.definitions[..0] == [];
    }
    assert F.Install(F.InsertModules([]), b) == Tree();
  }

  lemma LeafHolds()
    ensures ModuleM().Leaf().dataTypes == map["R" := RecordR()]
    ensures ModuleM().Leaf().interfaces == map[] && !ModuleM().Leaf().synthetic
  {
    assert ModuleM().definitions[..0] == [];
  }

  function Unfiltered(): Settings {
    Settings(ModuleMatcher([]), Full, x => x)
  }

  function ArchiveOver(root: ModuleView): DamlArchive {
    DamlArchive(map["id" := DamlPackage("p", "id", root)])
  }

  function Payloads(): map<string, Wire.Package> {
    map["id" := WirePackage()]
  }

  lemma ArchiveConverted(root: ModuleView)
    requires ViewOf(root, Tree(), [])
    ensures ArchiveOf(ArchiveOver(root), Payloads()) && SharedNames(Payloads())
    ensures EndToEnd.Enumerates(["id"], ArchiveOver(root))
  {
    hide ConvertModules, F.InsertModules, ViewOf, Wire.Acyclic;
    ModuleConverts();
    TreeBuilt();
    assert NameTable(Payloads()) == map["id" := "p"];
  }

  lemma FieldFound(root: ModuleView)
    requires ViewOf(root, Tree(), [])
    ensures ArchiveOver(root).Data("id", ["M"], "R") == Some(RecordR())
  {
    hide ConvertModules, F.InsertModules, ViewOf, Wire.Acyclic;
    ArchiveConverted(root);
    ModuleConverts();
    TreeBuilt();
    LeafHolds();
    LookupInTree(ArchiveOver(root), Payloads(), "id", ["M"], "R");
  }

  /** Nodes other than the two of the tree are not there. */
  lemma NothingBelow(k: string)
    ensures [k] in Tree() <==> k == "M"
    ensures ["M", k] !in Tree()
  {
    assert [k] == ["M"] ==> [k][0] == "M";
  }

  lemma NoGrandchild(c: ModuleView, d: ModuleView)
    requires ViewOf(c, Tree(), ["M"])
    ensures d !in c.children
  {
    hide Tree;
    NothingBelow(d.LocalName());
    assert ["M"] + [d.LocalName()] == ["M", d.LocalName()];
  }

  lemma OnlyChild(root: ModuleView, c: ModuleView)
    requires ViewOf(root, Tree(), []) && c in root.children
    ensures c.LocalName() == "M" && c.children == []
  {
    hide Tree;
    NothingBelow(c.LocalName());
    assert [] + [c.LocalName()] == [c.LocalName()];
    assert ViewOf(c, Tree(), ["M"]);
    if c.children != [] {
      NoGrandchild(c, c.children[0]);
    }
  }

  lemma SiblingsAreApart(root: ModuleView)
    requires ViewOf(root, Tree(), [])
    ensures SiblingsApart(Unfiltered(), root)
  {
    hide Tree;
    forall c | c in root.children
      ensures c.LocalName() == "M" && SiblingsApart(Unfiltered(), c)
    {
      OnlyChild(root, c);
    }
    assert forall i :: 0 <= i < |root.children| ==> root.children[i] in root.children;
  }

  lemma NodesHold(root: ModuleView, p: Path)
    requires ViewOf(root, Tree(), []) && root.ChildModulePath(p).Some?
    ensures var content := root.ChildModulePath(p).value.content;
      content.interfaces == map[] && forall n :: n in content.dataTypes ==> content.dataTypes[n] == RecordR()
  {
    hide F.InsertModules;
    TreeBuilt();
    TreePrefixClosed([ModuleM()]);
    ChildPathFinds(root, Tree(), [], p);
    assert [] + p == p;
    LeafHolds();
    assert root.ChildModulePath(p).value.content == Tree()[p];
  }

  lemma NothingViolated(root: ModuleView, e: ConvertError)
    requires ViewOf(root, Tree(), [])
    ensures !Violates(ArchiveOver(root), e)
  {
    hide ViewOf, ModuleViolation, DataViolation, InterfaceViolation, Tree;
    var a := ArchiveOver(root);
    if Violates(a, e) {
      ViewWellFormed(root, Tree(), []);
      CheckedByPath(a, root, e);
      var p :| ViolationAt(a, root, p, e);
      NodesHold(root, p);
      FieldFound(root);
      NoViolationIn(a, root.ChildModulePath(p).value.content, e);
    }
  }

  lemma NoViolationIn(a: DamlArchive, content: ModuleContent, e: ConvertError)
    requires a.Data("id", ["M"], "R") == Some(RecordR())
    requires content.interfaces == map[] && forall n :: n in content.dataTypes ==> content.dataTypes[n] == RecordR()
    ensures !exists n :: n in content.dataTypes && DataViolation(a, content.dataTypes[n], e)
    ensures !exists n :: n in content.interfaces && InterfaceViolation(a, content.interfaces[n], e)
  {
    var name := Absolute("R", "id", "p", ["M"]);
    assert Names(Field().ty) == {name} by {
      assert NamesOfAll([]) == {};
    }
    assert Resolves(a, name);
    assert !TypeViolation(a, Field().ty, e);
    assert !FieldsViolation(a, [Field()], e);
  }

  /** The premises of `GeneratedReferencesResolve` hold together, of a field whose type mentions a path. */
  lemma PremisesHold(mode: RenderFilterMode) returns (s: Settings, a: DamlArchive, packages: map<string, Wire.Package>)
    ensures ArchiveOf(a, packages) && SharedNames(packages) && EndToEnd.Enumerates(["id"], a)
    ensures NamesApart(s, a) && Valid(a)
    ensures |s.matcher.matchers| == 0 && s.renderMethod.Full?
    ensures a.Data("id", ["M"], "R") == Some(RecordR()) && TypeOf(RecordR(), Field().ty)
    ensures CheckType(a, mode, Field().ty)
    ensures QuoteType(s, Field().ty) == Success(Named(InCrate(["p", "M"]), "R", []))
  {
    hide ArchiveOf, SharedNames, Violates, ViewOf, SiblingsApart, QuoteType, Tree, CheckType, TypeOf, DamlArchive.Data;
    assert [] in Tree() by { TreeHasRoot(); }
    var root := ViewExists(Tree(), []);
    s, a, packages := Unfiltered(), ArchiveOver(root), Payloads();
    ArchiveConverted(root);
    SiblingsAreApart(root);
    FieldFound(root);
    forall e
      ensures !Violates(a, e)
    {
      NothingViolated(root, e);
    }
    FieldChecked(a, mode);
    PathPrinted();
  }

  lemma FieldChecked(a: DamlArchive, mode: RenderFilterMode)
    requires a.Data("id", ["M"], "R") == Some(RecordR())
    ensures TypeOf(RecordR(), Field().ty) && CheckType(a, mode, Field().ty)
  {
    assert Field() in Fields(RecordR());
  }

  lemma TreeHasRoot()
    ensures [] in Tree()
  {
  }

  lemma LettersEscape()
    ensures Escape("p") == "p" && Escape("M") == "M" && Escape("R") == "R"
  {
    hide IsKeyword;
    NoKeywords();
    assert Sanitize("p") == "p" && Sanitize("M") == "M" && Sanitize("R") == "R";
  }

  lemma NoKeywords()
    ensures !IsKeyword("p") && !IsKeyword("M") && !IsKeyword("R")
  {
    assert forall s :: IsKeyword(s) ==> |s| > 1;
  }

  lemma PathPrinted()
    ensures QuoteType(Unfiltered(), Field().ty) == Success(Named(InCrate(["p", "M"]), "R", []))
  {
    hide Escape;
    LettersEscape();
    var s := Unfiltered();
    assert ["p"] + ["M"] == ["p", "M"];
    assert ModIdents(s, ["p", "M"]) == ["p", "M"];
    assert QuoteTypes(s, []) == Success([]);
  }
}
