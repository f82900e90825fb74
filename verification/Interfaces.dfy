/** Where interfaces end up: always in the module that declares them, keyed by their last name segment. */
module Interfaces {
  import opened Wrappers
  import opened Element
  import opened Interned
  import opened TypeConversion
  import opened Declarations
  import opened FlatTree
  import opened Placement
  import opened Archive
  import opened ArchivePayload
  import Order = OrderIndependence
  import Wire

  /** What a lookup of an interface finds in a tree. */
  function LookupInterface(f: FlatTree, p: Path, n: string): Option<DamlInterface> {
    if p in f && n in f[p].interfaces then Some(f[p].interfaces[n]) else None
  }

  // ---------- The interfaces of a node ----------

  /** The interfaces of the last module at `p`. */
  ghost function InterfacesAt(bs: seq<BuiltModule>, p: Path): map<string, DamlInterface> {
    if bs == [] then map[]
    else if bs[|bs| - 1].path == p then bs[|bs| - 1].interfaces
    else InterfacesAt(bs[..|bs| - 1], p)
  }

  lemma {:induction false} TreeInterfaces(bs: seq<BuiltModule>, p: Path)
    requires p in InsertModules(bs)
    ensures InsertModules(bs)[p].interfaces == InterfacesAt(bs, p)
  {
    hide InsertModule, At;
    if bs != [] {
      var rest, b := bs[..|bs| - 1], bs[|bs| - 1];
      RootStays(rest);
      InsertModuleAt(InsertModules(rest), b, p);
      if p in InsertModules(rest) {
        TreeInterfaces(rest, p);
      } else {
        NoInterfaces(rest, p);
      }
    }
  }

  lemma {:induction false} NoInterfaces(bs: seq<BuiltModule>, p: Path)
    requires p !in InsertModules(bs)
    ensures InterfacesAt(bs, p) == map[]
  {
    hide InsertModule;
    if bs != [] {
      var rest, b := bs[..|bs| - 1], bs[|bs| - 1];
      RootStays(rest);
      InsertModuleCovers(InsertModules(rest), b, p);
      InsertModuleCovers(InsertModules(rest), b, b.path);
      NoInterfaces(rest, p);
    }
  }

  lemma {:induction false} LastAt(bs: seq<BuiltModule>, p: Path, n: string) returns (k: nat)
    requires n in InterfacesAt(bs, p)
    ensures k < |bs| && bs[k].path == p && InterfacesAt(bs, p) == bs[k].interfaces && !Overwritten(bs, k, p)
  {
    if bs[|bs| - 1].path == p {
      k := |bs| - 1;
    } else {
      k := LastAt(bs[..|bs| - 1], p, n);
    }
  }

  lemma {:induction false} NotReplaced(bs: seq<BuiltModule>, i: nat)
    requires i < |bs| && !Overwritten(bs, i, bs[i].path)
    ensures InterfacesAt(bs, bs[i].path) == bs[i].interfaces
  {
    if i < |bs| - 1 {
      assert bs[|bs| - 1].path != bs[i].path;
      NotReplaced(bs[..|bs| - 1], i);
    }
  }

  // ---------- The interfaces of a module ----------

  lemma {:induction false} LastNamed(ifaces: seq<DamlInterface>, n: string) returns (l: nat)
    requires n in InterfacesByName(ifaces)
    ensures l < |ifaces| && InterfacesByName(ifaces)[n] == ifaces[l] && ifaces[l].name == n
    ensures forall k :: l < k < |ifaces| ==> ifaces[k].name != n
  {
    if ifaces[|ifaces| - 1].name == n {
      l := |ifaces| - 1;
    } else {
      l := LastNamed(ifaces[..|ifaces| - 1], n);
    }
  }

  lemma {:induction false} AllNamed(ifaces: seq<DamlInterface>, j: nat)
    requires j < |ifaces|
    ensures ifaces[j].name in InterfacesByName(ifaces)
  {
    if j < |ifaces| - 1 {
      AllNamed(ifaces[..|ifaces| - 1], j);
    }
  }

  /** The interfaces module `i` declares, in order. */
  ghost function Declared(pkg: Wire.Package, i: nat): seq<DamlInterface>
    requires Wire.Acyclic(pkg) && ConvertModules(pkg.modules, pkg).Success? && i < |pkg.modules|
  {
    var path := ConvertModules(pkg.modules, pkg).value[i].path;
    var r := ConvertInterfaces(pkg.modules[i].interfaces, pkg, path);
    if r.Success? then r.value else []
  }

  lemma {:induction false} SameCount(ifaces: seq<Wire.DefInterface>, pkg: Wire.Package, path: Path)
    requires Wire.Acyclic(pkg) && ConvertInterfaces(ifaces, pkg, path).Success?
    ensures |ConvertInterfaces(ifaces, pkg, path).value| == |ifaces|
    ensures forall j :: 0 <= j < |ifaces| ==>
      ConvertInterface(ifaces[j], pkg, path) == Success(ConvertInterfaces(ifaces, pkg, path).value[j])
  {
    hide ConvertInterface;
    if ifaces != [] {
      SameCount(ifaces[1..], pkg, path);
      assert forall j :: 0 < j < |ifaces| ==> ifaces[j] == ifaces[1..][j - 1];
    }
  }

  /** The module keeps what it declares by name, and nothing else. */
  lemma DeclaredByName(pkg: Wire.Package, i: nat)
    requires Wire.Acyclic(pkg) && ConvertModules(pkg.modules, pkg).Success? && i < |pkg.modules|
    ensures |Declared(pkg, i)| == |pkg.modules[i].interfaces|
    ensures ConvertModules(pkg.modules, pkg).value[i].interfaces == InterfacesByName(Declared(pkg, i))
    ensures forall j :: 0 <= j < |pkg.modules[i].interfaces| ==>
      ConvertInterface(pkg.modules[i].interfaces[j], pkg, ConvertModules(pkg.modules, pkg).value[i].path)
      == Success(Declared(pkg, i)[j])
  {
    hide ConvertModules, ConvertInterface, ConvertInterfaces, ConvertDataTypes, ConvertSynonyms, ConvertExceptions;
    var m, b := pkg.modules[i], ConvertModules(pkg.modules, pkg).value[i];
    assert ConvertModule(m, pkg) == Success(b);
    SameCount(m.interfaces, pkg, b.path);
  }

  /** No two interfaces of the package have one fully qualified name. */
  ghost predicate DistinctInterfaces(pkg: Wire.Package)
    requires Wire.Acyclic(pkg) && ConvertModules(pkg.modules, pkg).Success?
  {
    forall i, j, k, l | 0 <= i < |pkg.modules| && 0 <= j < |Declared(pkg, i)| &&
                        0 <= k < |pkg.modules| && 0 <= l < |Declared(pkg, k)| && (i, j) != (k, l) ::
      || Declared(pkg, i)[j].modulePath != Declared(pkg, k)[l].modulePath
      || Declared(pkg, i)[j].name != Declared(pkg, k)[l].name
  }

  /** Nothing later takes the place of interface `j` of module `i`, and it has no prefix. */
  ghost predicate Kept(pkg: Wire.Package, i: nat, j: nat)
    requires Wire.Acyclic(pkg) && ConvertModules(pkg.modules, pkg).Success?
    requires i < |pkg.modules| && j < |Declared(pkg, i)|
  {
    var built, ifaces := ConvertModules(pkg.modules, pkg).value, Declared(pkg, i);
    && ifaces[j].modulePath == built[i].path
    && (forall l :: j < l < |ifaces| ==> ifaces[l].name != ifaces[j].name)
    && !Overwritten(built, i, built[i].path)
  }

  lemma KeptIfFound(pkg: Wire.Package, i: nat, j: nat)
    requires Wire.Acyclic(pkg) && ConvertModules(pkg.modules, pkg).Success? && DistinctInterfaces(pkg)
    requires i < |pkg.modules| && j < |Declared(pkg, i)|
    requires var iface := Declared(pkg, i)[j];
      iface.name in InterfacesAt(ConvertModules(pkg.modules, pkg).value, iface.modulePath) &&
      InterfacesAt(ConvertModules(pkg.modules, pkg).value, iface.modulePath)[iface.name] == iface
    ensures Kept(pkg, i, j)
  {
    hide ConvertModules, Declared, InterfacesByName, InterfacesAt;
    var built, iface := ConvertModules(pkg.modules, pkg).value, Declared(pkg, i)[j];
    var k := LastAt(built, iface.modulePath, iface.name);
    DeclaredByName(pkg, k);
    var l := LastNamed(Declared(pkg, k), iface.name);
    assert Declared(pkg, k)[l] == iface;
  }

  /** A module's own path is in the tree. */
  lemma ModulePathStays(bs: seq<BuiltModule>, i: nat)
    requires i < |bs|
    ensures bs[i].path in InsertModules(bs)
  {
    hide InsertModules, Order.BelowReal;
    assert bs[i] in bs && bs[i].path <= bs[i].path;
    Order.TreePaths(bs, bs[i].path);
  }

  /** Of several interfaces with one last segment the last one is kept. */
  lemma LastKept(ifaces: seq<DamlInterface>, j: nat)
    requires j < |ifaces| && forall l :: j < l < |ifaces| ==> ifaces[l].name != ifaces[j].name
    ensures ifaces[j].name in InterfacesByName(ifaces) && InterfacesByName(ifaces)[ifaces[j].name] == ifaces[j]
  {
    hide InterfacesByName;
    AllNamed(ifaces, j);
    var l := LastNamed(ifaces, ifaces[j].name);
  }

  lemma {:induction false} FoundIfKept(pkg: Wire.Package, i: nat, j: nat)
    requires Wire.Acyclic(pkg) && ConvertModules(pkg.modules, pkg).Success?
    requires i < |pkg.modules| && j < |Declared(pkg, i)| && Kept(pkg, i, j)
    ensures var iface := Declared(pkg, i)[j];
      && iface.modulePath in InsertModules(ConvertModules(pkg.modules, pkg).value)
      && iface.name in InterfacesAt(ConvertModules(pkg.modules, pkg).value, iface.modulePath)
      && InterfacesAt(ConvertModules(pkg.modules, pkg).value, iface.modulePath)[iface.name] == iface
  {
    hide ConvertModules, ConvertInterface, Declared, InterfacesByName, InterfacesAt, InsertModules, Wire.Acyclic;
    var built, ifaces := ConvertModules(pkg.modules, pkg).value, Declared(pkg, i);
    DeclaredByName(pkg, i);
    NotReplaced(built, i);
    ModulePathStays(built, i);
    LastKept(ifaces, j);
  }

  /** An interface is found under its fully qualified name, where references to it look, exactly when its
      dotted name has no prefix, no later interface of its module ends in the same segment, and no later
      module is installed at its module's path. */
  lemma InterfaceFound(pkg: Wire.Package, i: nat, j: nat)
    requires Wire.Acyclic(pkg) && ConvertModules(pkg.modules, pkg).Success? && DistinctInterfaces(pkg)
    requires i < |pkg.modules| && j < |Declared(pkg, i)|
    ensures var built, iface := ConvertModules(pkg.modules, pkg).value, Declared(pkg, i)[j];
      var found := LookupInterface(InsertModules(built), iface.modulePath, iface.name);
      found == Some(iface) <==> Kept(pkg, i, j)
  {
    hide ConvertModules, InsertModules, Declared, InterfacesAt, Kept, DistinctInterfaces;
    var built, iface := ConvertModules(pkg.modules, pkg).value, Declared(pkg, i)[j];
    if Kept(pkg, i, j) {
      FoundIfKept(pkg, i, j);
    }
    if iface.modulePath in InsertModules(built) {
      TreeInterfaces(built, iface.modulePath);
      if LookupInterface(InsertModules(built), iface.modulePath, iface.name) == Some(iface) {
        KeptIfFound(pkg, i, j);
      }
    }
  }

  /** A converted interface carries the path a reference to it names: the module's, extended by the prefix of
      its dotted name. */
  lemma QualifiedName(pkg: Wire.Package, i: nat, j: nat)
    requires Wire.Acyclic(pkg) && ConvertModules(pkg.modules, pkg).Success?
    requires i < |pkg.modules| && j < |pkg.modules[i].interfaces|
    ensures j < |Declared(pkg, i)| && ResolveDotted(pkg.modules[i].interfaces[j].tycon, pkg).Success?
    ensures var iface := Declared(pkg, i)[j];
      && iface.modulePath + [iface.name] == ConvertModules(pkg.modules, pkg).value[i].path
                                         + ResolveDotted(pkg.modules[i].interfaces[j].tycon, pkg).value
      && |iface.modulePath| >= |ConvertModules(pkg.modules, pkg).value[i].path|
  {
    hide ConvertModules, Declared, ConvertMethods, ConvertChoices, ConvertType, ConvertQualifiedIds, ResolveDotted;
    DeclaredByName(pkg, i);
    var path := ConvertModules(pkg.modules, pkg).value[i].path;
    var d := pkg.modules[i].interfaces[j];
    assert ConvertInterface(d, pkg, path).Success?;
    var (name, prefix) := SplitLast(ResolveDotted(d.tycon, pkg).value, InternalError).value;
    assert path + prefix + [name] == path + (prefix + [name]);
  }

  /** What a name finds among the interfaces of an archive. */
  function InterfaceByTyConName(a: DamlArchive, name: DamlTyConName): Option<DamlInterface> {
    var m :- a.FindModule(name.ReferencePackage(), name.ReferencePath());
    if name.dataName in m.content.interfaces then Some(m.content.interfaces[name.dataName]) else None
  }

  lemma InterfaceInTree(a: DamlArchive, packages: map<string, Wire.Package>, name: DamlTyConName)
    requires ArchiveOf(a, packages) && name.ReferencePackage() in packages
    ensures var pkg := packages[name.ReferencePackage()];
      && Wire.Acyclic(pkg) && ConvertModules(pkg.modules, pkg).Success?
      && InterfaceByTyConName(a, name) == LookupInterface(
           InsertModules(ConvertModules(pkg.modules, pkg).value), name.ReferencePath(), name.dataName)
  {
    hide InsertModules, ConvertModules, Wire.Acyclic;
    var id, path := name.ReferencePackage(), name.ReferencePath();
    assert PackageOf(a.packages[id], packages[id]);
    var built := ConvertModules(packages[id].modules, packages[id]).value;
    TreePrefixClosed(built);
    ChildPathFinds(a.packages[id].root, InsertModules(built), [], path);
    assert [] + path == path;
  }

  /** Made from anywhere in the archive, a reference to interface `j` of module `i` of package `target` finds
      it exactly when its dotted name has no prefix, no later interface of its module ends in the same
      segment, and no later module is installed at its module's path. */
  lemma ReferenceMeetsInterface(
    a: DamlArchive, packages: map<string, Wire.Package>, source: string, target: string, ref: Wire.QualifiedId,
    i: nat, j: nat)
    requires ArchiveOf(a, packages) && SharedNames(packages) && source in packages && target in packages
    requires var pkg := packages[target];
      && Wire.Acyclic(pkg) && ConvertModules(pkg.modules, pkg).Success? && DistinctInterfaces(pkg)
      && i < |pkg.modules| && j < |pkg.modules[i].interfaces| && ref.QualifiedId?
      && ResolveModuleId(ref.mod, packages[source])
         == Success((target, ConvertModules(pkg.modules, pkg).value[i].path))
      && ResolveDotted(ref.name, packages[source]) == ResolveDotted(pkg.modules[i].interfaces[j].tycon, pkg)
    ensures var pkg := packages[target];
      var ifaces := Declared(pkg, i);
      && j < |ifaces| && ConvertQualifiedId(ref, packages[source]).Success?
      && (InterfaceByTyConName(a, ConvertQualifiedId(ref, packages[source]).value) == Some(ifaces[j])
          <==> Kept(pkg, i, j))
  {
    hide ConvertModules, InsertModules, Declared, LookupInterface, InterfaceByTyConName, ArchiveOf, SharedNames;
    hide DistinctInterfaces, Kept, ResolveDotted, ResolveModuleId, Wire.Acyclic;
    var pkg := packages[target];
    QualifiedName(pkg, i, j);
    var iface := Declared(pkg, i)[j];
    var at, segments := ConvertModules(pkg.modules, pkg).value[i].path, ResolveDotted(ref.name, packages[source]).value;
    assert (at + segments)[..|at + segments| - 1] == iface.modulePath;
    InterfaceFound(pkg, i, j);
    SamePath(at, segments, iface.modulePath, iface.name);
    InterfaceInTree(a, packages, ConvertQualifiedId(ref, packages[source]).value);
  }

  lemma SamePath(at: Path, segments: Path, modulePath: Path, name: string)
    requires modulePath + [name] == at + segments && |modulePath| >= |at|
    ensures segments != [] && segments[|segments| - 1] == name
    ensures at + segments[..|segments| - 1] == modulePath
  {
    assert (modulePath + [name])[..|modulePath|] == modulePath;
    assert (at + segments)[..|modulePath|] == at + segments[..|segments| - 1];
    assert (modulePath + [name])[|modulePath|] == name;
  }
}
