/** From the archives of a DAR to package payloads that share one package-name table, and from those to
    an archive in which references find their definitions. */
module ArchivePayload {
  import opened Wrappers
  import opened Element
  import opened Interned
  import opened TypeConversion
  import opened Declarations
  import opened Placement
  import opened Archive
  import F = FlatTree
  import Order = OrderIndependence
  import Wire

  datatype Metadata = NoMetadata | Metadata(name: int, version: int)

  /** A decoded LF2 archive: its hash is its package id. */
  datatype DamlLfArchive = DamlLfArchive(
    name: string, hash: string, metadata: Metadata, strings: seq<string>, dottedNames: seq<seq<int>>,
    types: seq<Wire.Type>, kinds: seq<Wire.Kind>, exprs: seq<Wire.Expr>, modules: seq<Wire.Module>)

  datatype DarFile = DarFile(main: DamlLfArchive, dependencies: seq<DamlLfArchive>)

  /** A stand-alone payload: the name table holds the package itself and nothing else. */
  function PackagePayload(dalf: DamlLfArchive): (r: ConvertResult<Wire.Package>)
    ensures r.Success? <==>
      && dalf.metadata.Metadata?
      && 0 <= dalf.metadata.name < |dalf.strings| && 0 <= dalf.metadata.version < |dalf.strings|
      && forall m :: m in dalf.modules ==> !m.flags.ModuleFlagsUnset?
    ensures r.Success? ==>
      r.value.packageId == dalf.hash && r.value.pkgNames == map[dalf.hash := r.value.name]
    ensures r.Success? ==> r.value.strings == dalf.strings && r.value.dottedNames == dalf.dottedNames
    ensures r.Success? ==> r.value.types == dalf.types && r.value.kinds == dalf.kinds && r.value.exprs == dalf.exprs
    ensures r.Success? ==> r.value.modules == dalf.modules && r.value.name == dalf.strings[dalf.metadata.name]
  {
    if dalf.metadata.NoMetadata? then Failure(MissingRequiredField)
    else if !(0 <= dalf.metadata.name < |dalf.strings|) then Failure(InternalError)
    else if !(0 <= dalf.metadata.version < |dalf.strings|) then Failure(InternalError)
    else if exists m :: m in dalf.modules && m.flags.ModuleFlagsUnset? then Failure(MissingRequiredField)
    else
      var name := dalf.strings[dalf.metadata.name];
      Success(Wire.Package(
        name, dalf.hash, dalf.strings, dalf.dottedNames, dalf.types, dalf.kinds, dalf.exprs, dalf.modules,
        map[dalf.hash := name]))
  }

  /** Payloads by package id; a later dependency with the same id replaces an earlier package. */
  function PackagePayloads(dalfs: seq<DamlLfArchive>): (r: ConvertResult<map<string, Wire.Package>>)
    ensures r.Success? ==> forall id :: id in r.value ==> r.value[id].packageId == id
    ensures r.Success? ==> r.value.Keys == set d | d in dalfs :: d.hash
  {
    if dalfs == [] then Success(map[]) else
      var rest :- PackagePayloads(dalfs[..|dalfs| - 1]);
      var last :- PackagePayload(dalfs[|dalfs| - 1]);
      assert dalfs == dalfs[..|dalfs| - 1] + [dalfs[|dalfs| - 1]];
      Success(rest[last.packageId := last])
  }

  /** No later archive has the same hash. */
  ghost predicate LastWithId(dalfs: seq<DamlLfArchive>, i: int)
    requires 0 <= i < |dalfs|
  {
    forall j :: i < j < |dalfs| ==> dalfs[j].hash != dalfs[i].hash
  }

  /** Archive `i` is bad, and none before it. */
  ghost predicate FirstBad(dalfs: seq<DamlLfArchive>, i: int, e: ConvertError) {
    && 0 <= i < |dalfs| && PackagePayload(dalfs[i]) == Failure(e)
    && forall j :: 0 <= j < i ==> PackagePayload(dalfs[j]).Success?
  }

  /** The first archive that is bad fails them all. */
  lemma {:induction false} FirstBadFails(dalfs: seq<DamlLfArchive>)
    ensures PackagePayloads(dalfs).Failure? ==> exists i :: FirstBad(dalfs, i, PackagePayloads(dalfs).error)
    ensures PackagePayloads(dalfs).Success? ==> forall i :: 0 <= i < |dalfs| ==> PackagePayload(dalfs[i]).Success?
  {
    hide PackagePayload;
    if dalfs != [] {
      var init, last := dalfs[..|dalfs| - 1], |dalfs| - 1;
      FirstBadFails(init);
      if PackagePayloads(init).Failure? {
        var i :| FirstBad(init, i, PackagePayloads(init).error);
        assert FirstBad(dalfs, i, PackagePayloads(dalfs).error);
      } else if PackagePayload(dalfs[last]).Failure? {
        assert FirstBad(dalfs, last, PackagePayloads(dalfs).error);
      }
    }
  }

  /** There is one payload for each package id, that of the last archive with it. */
  lemma {:induction false} LastPayloadStays(dalfs: seq<DamlLfArchive>, i: nat)
    requires PackagePayloads(dalfs).Success? && i < |dalfs| && LastWithId(dalfs, i)
    ensures dalfs[i].hash in PackagePayloads(dalfs).value
    ensures PackagePayload(dalfs[i]) == Success(PackagePayloads(dalfs).value[dalfs[i].hash])
  {
    hide PackagePayload;
    var init, last := dalfs[..|dalfs| - 1], |dalfs| - 1;
    assert PackagePayload(dalfs[last]).value.packageId == dalfs[last].hash;
    if i < last {
      assert dalfs[last].hash != dalfs[i].hash;
      assert LastWithId(init, i);
      LastPayloadStays(init, i);
    }
  }

  function NameTable(packages: map<string, Wire.Package>): map<string, string> {
    map id | id in packages :: packages[id].name
  }

  /** Every package with the table of all packages. */
  function Stamped(packages: map<string, Wire.Package>): map<string, Wire.Package> {
    map id | id in packages :: packages[id].(pkgNames := NameTable(packages))
  }

  class DamlPackagePayload {
    const tables: Wire.Package
    var pkgNames: map<string, string>

    constructor (payload: Wire.Package)
      ensures Value() == payload
    {
      tables, pkgNames := payload, payload.pkgNames;
    }

    function Value(): Wire.Package
      reads this
    {
      tables.(pkgNames := pkgNames)
    }

    method SetPkgNames(names: map<string, string>)
      modifies this
      ensures Value() == old(Value()).(pkgNames := names)
    {
      pkgNames := names;
    }
  }

  type Payloads = map<string, DamlPackagePayload>

  ghost predicate Holds(payloads: Payloads, packages: map<string, Wire.Package>)
    reads payloads.Values
  {
    && payloads.Keys == packages.Keys
    && (forall id :: id in payloads ==> payloads[id].Value() == packages[id])
    && (forall id, id' :: id in payloads && id' in payloads && id != id' ==> payloads[id] != payloads[id'])
  }

  /** Inserts the main package, then every dependency. */
  method CollectPayloads(dalfs: seq<DamlLfArchive>) returns (r: ConvertResult<Payloads>)
    ensures r.Failure? <==> PackagePayloads(dalfs).Failure?
    ensures r.Failure? ==> r.error == PackagePayloads(dalfs).error
    ensures r.Success? ==> Holds(r.value, PackagePayloads(dalfs).value)
    ensures r.Success? ==> forall id :: id in r.value ==> fresh(r.value[id])
  {
    var packages: Payloads := map[];
    ghost var done: map<string, Wire.Package> := map[];
    for i := 0 to |dalfs|
      invariant PackagePayloads(dalfs[..i]) == Success(done)
      invariant Holds(packages, done)
      invariant forall id :: id in packages ==> fresh(packages[id])
    {
      assert dalfs[..i + 1][..i] == dalfs[..i] && dalfs[..i + 1][i] == dalfs[i];
      var payload := PackagePayload(dalfs[i]);
      if payload.Failure? {
        EarlyFailure(dalfs, i + 1);
        return Failure(payload.error);
      }
      var p := new DamlPackagePayload(payload.value);
      packages := packages[payload.value.packageId := p];
      done := done[payload.value.packageId := payload.value];
    }
    assert dalfs[..|dalfs|] == dalfs;
    r := Success(packages);
  }

  lemma {:induction false} EarlyFailure(dalfs: seq<DamlLfArchive>, i: nat)
    requires i <= |dalfs| && PackagePayloads(dalfs[..i]).Failure?
    ensures PackagePayloads(dalfs) == PackagePayloads(dalfs[..i])
    decreases |dalfs| - i
  {
    if i == |dalfs| {
      assert dalfs[..i] == dalfs;
    } else {
      assert dalfs[..i + 1][..i] == dalfs[..i];
      EarlyFailure(dalfs, i + 1);
    }
  }

  method NamesOf(packages: Payloads, ghost plain: map<string, Wire.Package>) returns (names: map<string, string>)
    requires Holds(packages, plain)
    ensures names == NameTable(plain)
  {
    names := map id | id in packages :: packages[id].Value().name;
  }

  method StampAll(packages: Payloads, names: map<string, string>, ghost plain: map<string, Wire.Package>)
    requires Holds(packages, plain) && names == NameTable(plain)
    modifies packages.Values
    ensures Holds(packages, Stamped(plain))
  {
    hide Holds, NameTable, Stamped;
    HoldsMeans(packages, plain);
    var left := packages.Keys;
    while left != {}
      invariant left <= packages.Keys
      invariant forall id :: id in left ==> packages[id].Value() == plain[id]
      invariant forall id :: id in packages && id !in left ==> packages[id].Value() == plain[id].(pkgNames := names)
    {
      var id :| id in left;
      assert forall other :: other in packages && other != id ==> packages[other] != packages[id];
      packages[id].SetPkgNames(names);
      left := left - {id};
    }
    AllStamped(packages, names, plain);
  }

  lemma HoldsMeans(payloads: Payloads, packages: map<string, Wire.Package>)
    requires Holds(payloads, packages)
    ensures payloads.Keys == packages.Keys && forall id :: id in payloads ==> payloads[id].Value() == packages[id]
    ensures forall id, id' :: id in payloads && id' in payloads && id != id' ==> payloads[id] != payloads[id']
  {
  }

  lemma AllStamped(packages: Payloads, names: map<string, string>, plain: map<string, Wire.Package>)
    requires packages.Keys == plain.Keys && names == NameTable(plain)
    requires forall id :: id in packages ==> packages[id].Value() == plain[id].(pkgNames := names)
    requires forall id, id' :: id in packages && id' in packages && id != id' ==> packages[id] != packages[id']
    ensures Holds(packages, Stamped(plain))
  {
  }

  /** Stamps every package of the DAR with the table of all their names. */
  method FromDar(dar: DarFile) returns (r: ConvertResult<Payloads>)
    ensures r.Failure? <==> PackagePayloads([dar.main] + dar.dependencies).Failure?
    ensures r.Failure? ==> r.error == PackagePayloads([dar.main] + dar.dependencies).error
    ensures r.Success? ==>
      var packages := Stamped(PackagePayloads([dar.main] + dar.dependencies).value);
      Holds(r.value, packages) && SharedNames(packages)
  {
    hide PackagePayloads, Stamped, Holds, SharedNames;
    var collected := CollectPayloads([dar.main] + dar.dependencies);
    if collected.Failure? {
      return collected;
    }
    var packages := collected.value;
    ghost var plain := PackagePayloads([dar.main] + dar.dependencies).value;
    var names := NamesOf(packages, plain);
    StampAll(packages, names, plain);
    StampedSharesNames(plain);
    r := Success(packages);
  }

  // ---------- Names in a stamped archive ----------

  /** The payloads of one archive: keyed by package id, all sharing the table of their names. */
  ghost predicate SharedNames(packages: map<string, Wire.Package>) {
    forall id :: id in packages ==>
      packages[id].packageId == id && packages[id].pkgNames == NameTable(packages)
  }

  lemma StampedSharesNames(packages: map<string, Wire.Package>)
    requires forall id :: id in packages ==> packages[id].packageId == id
    ensures SharedNames(Stamped(packages))
  {
    assert NameTable(Stamped(packages)) == NameTable(packages);
  }

  /** From whichever package a reference is made, self or cross, the target's own name is printed; only a
      package outside the archive has none. */
  lemma PackageNameAgrees(packages: map<string, Wire.Package>, id: string, target: string)
    requires SharedNames(packages) && id in packages
    ensures ResolvePackageName(packages[id], target) == if target in packages then packages[target].name else ""
  {
    assert NameTable(packages).Keys == packages.Keys;
  }

  // ---------- The archive ----------

  ghost predicate PackageOf(p: DamlPackage, payload: Wire.Package) {
    && p.name == payload.name && p.packageId == payload.packageId
    && Wire.Acyclic(payload)
    && ConvertModules(payload.modules, payload).Success?
    && ViewOf(p.root, F.InsertModules(ConvertModules(payload.modules, payload).value), [])
  }

  /** `a` is what conversion makes of the payloads. */
  ghost predicate ArchiveOf(a: DamlArchive, packages: map<string, Wire.Package>) {
    && a.packages.Keys == packages.Keys
    && forall id :: id in packages ==> PackageOf(a.packages[id], packages[id])
  }

  lemma TreePrefixClosed(bs: seq<BuiltModule>)
    ensures PrefixClosed(F.InsertModules(bs))
  {
    hide F.InsertModules;
    RootStays(bs);
    var f := F.InsertModules(bs);
    forall p, k | p + [k] in f
      ensures p in f
    {
      Order.TreePaths(bs, p + [k]);
      Order.TreePaths(bs, p);
      ShorterCovered(bs, p, k);
    }
  }

  lemma ShorterCovered(bs: seq<BuiltModule>, p: Path, k: string)
    requires Order.AboveReal(bs, p + [k]) || Order.BelowReal(bs, p + [k])
    ensures Order.AboveReal(bs, p) || Order.BelowReal(bs, p)
  {
    assert p <= p + [k];
    if Order.AboveReal(bs, p + [k]) {
      var b :| b in bs && p + [k] <= b.path;
      assert p <= b.path;
    } else {
      var b :| b in bs && b.path < p + [k] && Prefixed(b.definitions, b.path, p + [k]);
      var d :| d in b.definitions && p + [k] <= b.path + d.prefix;
      assert p <= b.path + d.prefix;
      assert b.path <= p;
      if b.path == p {
        assert p <= b.path;
      } else {
        assert b.path < p && Prefixed(b.definitions, b.path, p);
      }
    }
  }

  /** Lookup in an archive is lookup in the tree of the package it names. */
  lemma LookupInTree(a: DamlArchive, packages: map<string, Wire.Package>, id: string, path: Path, name: string)
    requires ArchiveOf(a, packages) && id in packages
    ensures a.Data(id, path, name) ==
            Lookup(F.InsertModules(ConvertModules(packages[id].modules, packages[id]).value), path, name)
  {
    hide F.InsertModules, ConvertModules, Wire.Acyclic;
    assert PackageOf(a.packages[id], packages[id]);
    var built := ConvertModules(packages[id].modules, packages[id]).value;
    TreePrefixClosed(built);
    ChildPathFinds(a.packages[id].root, F.InsertModules(built), [], path);
    assert [] + path == path;
  }

  /** Definition and reference meet. A reference made anywhere in the archive to definition `k` of module
      `i` of package `target` converts to a name carrying that package's id and name, and finds that
      definition exactly when no later module of the target package is installed at its path. */
  lemma ReferenceMeetsDefinition(
    a: DamlArchive, packages: map<string, Wire.Package>, source: string, target: string, ref: Wire.QualifiedId,
    i: nat, k: nat)
    requires ArchiveOf(a, packages) && SharedNames(packages) && source in packages && target in packages
    requires var built := ConvertModules(packages[target].modules, packages[target]).value;
      && DistinctData(built) && IsDefinition(built, i, k) && ref.QualifiedId?
      && ResolveModuleId(ref.mod, packages[source]) == Success((target, built[i].path))
      && ResolveDotted(ref.name, packages[source])
         == Success(built[i].definitions[k].prefix + [NameOf(built, i, k)])
    ensures var built := ConvertModules(packages[target].modules, packages[target]).value;
      var name := Absolute(NameOf(built, i, k), target, packages[target].name, PathOf(built, i, k));
      && ConvertQualifiedId(ref, packages[source]) == Success(name)
      && (a.DataByTyConName(name) == Some(DataOf(built, i, k))
          <==> !Overwritten(built, i, PathOf(built, i, k)))
  {
    hide F.InsertModules, ConvertModules, Wire.Acyclic, DistinctData, ResolveModuleId, ResolveDotted;
    var built := ConvertModules(packages[target].modules, packages[target]).value;
    var prefix, n := built[i].definitions[k].prefix, NameOf(built, i, k);
    assert (prefix + [n])[..|prefix + [n]| - 1] == prefix;
    PackageNameAgrees(packages, source, target);
    LookupInTree(a, packages, target, PathOf(built, i, k), n);
    DefinitionFound(built, i, k);
  }
}
