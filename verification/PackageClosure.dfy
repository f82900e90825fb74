/** Assembling a DAR from the packages of a ledger: the packages reachable from the main one, found by a
    breadth-first search, and the archive they are put into. */
module PackageClosure {
  import opened Wrappers
  import opened Element
  import opened Declarations
  import opened ArchivePayload
  import opened References
  import opened Occurrences
  import opened Manifest
  import F = FlatTree
  import Wire

  type Bytes = seq<bv8>

  /** A package as the ledger hands it out. */
  datatype LedgerPackage = LedgerPackage(hash: string, payload: Bytes)

  /** `parse` decodes a payload, still without name and hash. `bodyRefs` is what the visitor records in the
      expressions of a payload, or why they do not convert. */
  datatype Decoder = Decoder(
    parse: Bytes -> ConvertResult<DamlLfArchive>,
    bodyRefs: DamlLfArchive -> ConvertResult<set<string>>)

  type Payloads = map<string, DamlLfArchive>

  /** Conversion returns: the payload's interning tables are acyclic. */
  ghost predicate Convertible(payload: DamlLfArchive) {
    var pkg := PackagePayload(payload.(hash := ""));
    pkg.Success? ==> Wire.Acyclic(pkg.value)
  }

  /** The packages a payload refers to. It is converted without its hash, so only the empty id is its own. */
  function CollectReferencedPackageIds(payload: DamlLfArchive, d: Decoder): ConvertResult<set<string>>
    requires Convertible(payload)
  {
    var pkg :- PackagePayload(payload.(hash := ""));
    var built :- ConvertModules(pkg.modules, pkg);
    var inBodies :- d.bodyRefs(payload);
    Success(TreeRefs(F.InsertModules(built)) + inBodies - {""})
  }

  // ---------- Reachability ----------

  ghost predicate AllConvertible(payloads: Payloads) {
    forall id :: id in payloads ==> Convertible(payloads[id])
  }

  /** What `id` refers to, when its payload is there and converts. */
  ghost function Targets(payloads: Payloads, d: Decoder, id: string): set<string>
    requires AllConvertible(payloads)
  {
    if id in payloads && CollectReferencedPackageIds(payloads[id], d).Success?
    then CollectReferencedPackageIds(payloads[id], d).value else {}
  }

  /** The payload without its hash, converted: what the visitor walks. */
  ghost predicate IsTreeOf(payload: DamlLfArchive, f: F.FlatTree)
    requires Convertible(payload)
  {
    var pkg := PackagePayload(payload.(hash := ""));
    && pkg.Success? && ConvertModules(pkg.value.modules, pkg.value).Success?
    && f == F.InsertModules(ConvertModules(pkg.value.modules, pkg.value).value)
  }

  /** A payload refers to the packages that some name at a visited position of its tree points into, and to
      those its expressions name; the empty id is its own. It refers to nothing if any part of it does not
      convert. */
  lemma TargetsPoint(payloads: Payloads, d: Decoder, id: string, target: string)
    requires AllConvertible(payloads)
    ensures target in Targets(payloads, d, id) <==>
      && id in payloads && target != "" && d.bodyRefs(payloads[id]).Success?
      && exists f :: IsTreeOf(payloads[id], f) &&
           (target in d.bodyRefs(payloads[id]).value || exists p :: p in f && ContentPoints(f[p], target))
  {
    hide ConvertModules, F.InsertModules, ContentRefs, ContentPoints, Wire.Acyclic;
    if id in payloads && d.bodyRefs(payloads[id]).Success? {
      var pkg := PackagePayload(payloads[id].(hash := ""));
      if pkg.Success? && ConvertModules(pkg.value.modules, pkg.value).Success? {
        var f := F.InsertModules(ConvertModules(pkg.value.modules, pkg.value).value);
        assert IsTreeOf(payloads[id], f);
        forall p | p in f
          ensures target in ContentRefs(f[p]) <==> ContentPoints(f[p], target)
        {
          ContentRefsPoint(f[p], target);
        }
      }
    }
  }

  /** A payload that is there but does not convert. */
  ghost predicate Broken(payloads: Payloads, d: Decoder, id: string)
    requires AllConvertible(payloads)
  {
    id in payloads && CollectReferencedPackageIds(payloads[id], d).Failure?
  }

  ghost predicate ReferencePath(payloads: Payloads, d: Decoder, path: seq<string>)
    requires AllConvertible(payloads)
  {
    path != [] && forall i :: 0 < i < |path| ==> path[i] in Targets(payloads, d, path[i - 1])
  }

  /** `id` is the root or referenced, over any number of steps, from the root. */
  ghost predicate Reachable(payloads: Payloads, d: Decoder, root: string, id: string)
    requires AllConvertible(payloads)
  {
    exists path :: ReferencePath(payloads, d, path) && path[0] == root && path[|path| - 1] == id
  }

  ghost predicate ClosedUnderReferences(payloads: Payloads, d: Decoder, ids: set<string>)
    requires AllConvertible(payloads)
  {
    forall id :: id in ids ==> Targets(payloads, d, id) <= ids
  }

  lemma RootReachable(payloads: Payloads, d: Decoder, root: string)
    requires AllConvertible(payloads)
    ensures Reachable(payloads, d, root, root)
  {
    assert ReferencePath(payloads, d, [root]);
  }

  lemma ReachesFurther(payloads: Payloads, d: Decoder, root: string, id: string, target: string)
    requires AllConvertible(payloads)
    requires Reachable(payloads, d, root, id) && target in Targets(payloads, d, id)
    ensures Reachable(payloads, d, root, target)
  {
    hide Targets;
    var path :| ReferencePath(payloads, d, path) && path[0] == root && path[|path| - 1] == id;
    assert ReferencePath(payloads, d, path + [target]);
    assert (path + [target])[|path|] == target;
  }

  /** Every closed set that holds the root holds whatever is reachable. */
  lemma {:induction false} ClosedHoldsPath(payloads: Payloads, d: Decoder, ids: set<string>, path: seq<string>)
    requires AllConvertible(payloads) && ClosedUnderReferences(payloads, d, ids)
    requires ReferencePath(payloads, d, path) && path[0] in ids
    ensures path[|path| - 1] in ids
    decreases |path|
  {
    if |path| > 1 {
      var init := path[..|path| - 1];
      assert ReferencePath(payloads, d, init);
      ClosedHoldsPath(payloads, d, ids, init);
      assert path[|path| - 1] in Targets(payloads, d, path[|path| - 2]);
    }
  }

  lemma ClosedHoldsReachable(payloads: Payloads, d: Decoder, root: string, ids: set<string>, id: string)
    requires AllConvertible(payloads) && root in ids && ClosedUnderReferences(payloads, d, ids)
    requires Reachable(payloads, d, root, id)
    ensures id in ids
  {
    hide Targets, ClosedUnderReferences;
    var path :| ReferencePath(payloads, d, path) && path[0] == root && path[|path| - 1] == id;
    ClosedHoldsPath(payloads, d, ids, path);
  }

  /** The reachable ids hold the root, are closed, and are the least such set. */
  lemma ReachableIsLeastClosed(payloads: Payloads, d: Decoder, root: string, ids: set<string>)
    requires AllConvertible(payloads) && forall id :: id in ids <==> Reachable(payloads, d, root, id)
    ensures root in ids && ClosedUnderReferences(payloads, d, ids)
    ensures forall other: set<string> :: root in other && ClosedUnderReferences(payloads, d, other) ==> ids <= other
  {
    hide Targets, Reachable;
    RootReachable(payloads, d, root);
    forall id, target | id in ids && target in Targets(payloads, d, id)
      ensures target in ids
    {
      ReachesFurther(payloads, d, root, id, target);
    }
    forall other: set<string>, id |
      root in other && ClosedUnderReferences(payloads, d, other) && Reachable(payloads, d, root, id)
      ensures id in other
    {
      ClosedHoldsReachable(payloads, d, root, other, id);
    }
  }

  /** Everything that can ever be queued. */
  ghost function Universe(payloads: Payloads, d: Decoder, root: string): set<string>
    requires AllConvertible(payloads)
  {
    {root} + set id, target | id in payloads && target in Targets(payloads, d, id) :: target
  }

  /** What holds between two rounds of the search. */
  ghost predicate Searching(payloads: Payloads, d: Decoder, root: string, visited: set<string>, queue: seq<string>)
    requires AllConvertible(payloads)
  {
    && (root in visited || root in queue)
    && (forall id :: id in visited || id in queue ==>
          Reachable(payloads, d, root, id) && id in Universe(payloads, d, root))
    && (forall id, target :: id in visited && target in Targets(payloads, d, id) ==>
          target in visited || target in queue)
    && (forall id :: id in visited ==> !Broken(payloads, d, id))
  }

  /** Appends what is not visited yet; the referenced ids come in an arbitrary order. */
  method Enqueue(queue: seq<string>, visited: set<string>, refs: set<string>) returns (r: seq<string>)
    ensures queue <= r
    ensures forall id :: id in r <==> id in queue || (id in refs && id !in visited)
  {
    r := queue;
    var left := refs;
    while left != {}
      invariant queue <= r && left <= refs
      invariant forall id :: id in r <==> id in queue || (id in refs - left && id !in visited)
    {
      var id :| id in left;
      if id !in visited {
        r := r + [id];
      }
      left := left - {id};
    }
  }

  /** The search ends, cycles and repeated queue entries or not, with exactly the reachable ids, those
      without a payload included; it fails exactly when some reachable payload does not convert. */
  method ReachableFrom(root: string, payloads: Payloads, d: Decoder) returns (r: ConvertResult<set<string>>)
    requires AllConvertible(payloads)
    ensures r.Success? ==> forall id :: id in r.value <==> Reachable(payloads, d, root, id)
    ensures r.Failure? <==> exists id :: Reachable(payloads, d, root, id) && Broken(payloads, d, id)
  {
    hide CollectReferencedPackageIds, Convertible, Reachable, Searching, Targets;
    var visited: set<string> := {};
    var queue := [root];
    SearchStarts(payloads, d, root);
    while queue != []
      invariant Searching(payloads, d, root, visited, queue)
      decreases Universe(payloads, d, root) - visited, |queue|
    {
      var id := queue[0];
      ghost var before := queue;
      queue := queue[1..];
      if id in visited {
        SkipVisited(payloads, d, root, visited, before);
      } else {
        NewInUniverse(payloads, d, root, visited, before);
        if id !in payloads {
          assert Targets(payloads, d, id) == {} by { NoPayload(payloads, d, id); }
          VisitNext(payloads, d, root, visited, before, queue);
        } else {
          var refs := CollectReferencedPackageIds(payloads[id], d);
          if refs.Failure? {
            BrokenReached(payloads, d, root, visited, before);
            return Failure(refs.error);
          }
          queue := Enqueue(queue, visited + {id}, refs.value);
          assert Targets(payloads, d, id) == refs.value by { SomePayload(payloads, d, id); }
          VisitNext(payloads, d, root, visited, before, queue);
        }
        visited := visited + {id};
      }
    }
    SearchEnds(payloads, d, root, visited);
    r := Success(visited);
  }

  lemma SearchStarts(payloads: Payloads, d: Decoder, root: string)
    requires AllConvertible(payloads)
    ensures Searching(payloads, d, root, {}, [root])
  {
    RootReachable(payloads, d, root);
  }

  lemma SkipVisited(payloads: Payloads, d: Decoder, root: string, visited: set<string>, queue: seq<string>)
    requires AllConvertible(payloads) && Searching(payloads, d, root, visited, queue)
    requires queue != [] && queue[0] in visited
    ensures Searching(payloads, d, root, visited, queue[1..])
  {
    hide Targets, Reachable, Universe, Broken;
    assert forall id :: id in queue <==> id == queue[0] || id in queue[1..];
  }

  lemma NewInUniverse(payloads: Payloads, d: Decoder, root: string, visited: set<string>, queue: seq<string>)
    requires AllConvertible(payloads) && Searching(payloads, d, root, visited, queue)
    requires queue != [] && queue[0] !in visited
    ensures Universe(payloads, d, root) - (visited + {queue[0]}) < Universe(payloads, d, root) - visited
  {
    hide Targets, Reachable, Universe, Broken;
    assert queue[0] in queue;
  }

  lemma NoPayload(payloads: Payloads, d: Decoder, id: string)
    requires AllConvertible(payloads) && id !in payloads
    ensures Targets(payloads, d, id) == {}
  {
  }

  lemma SomePayload(payloads: Payloads, d: Decoder, id: string)
    requires AllConvertible(payloads) && id in payloads
    requires CollectReferencedPackageIds(payloads[id], d).Success?
    ensures Targets(payloads, d, id) == CollectReferencedPackageIds(payloads[id], d).value
    ensures !Broken(payloads, d, id)
  {
  }

  lemma VisitNext(payloads: Payloads, d: Decoder, root: string, visited: set<string>, queue: seq<string>,
                  next: seq<string>)
    requires AllConvertible(payloads) && Searching(payloads, d, root, visited, queue) && queue != []
    requires !Broken(payloads, d, queue[0])
    requires forall id ::
      id in next <==> id in queue[1..] || (id in Targets(payloads, d, queue[0]) && id !in visited + {queue[0]})
    ensures Searching(payloads, d, root, visited + {queue[0]}, next)
  {
    hide Targets, Reachable, Broken;
    assert forall id :: id in queue <==> id == queue[0] || id in queue[1..];
    forall id | id in Targets(payloads, d, queue[0])
      ensures Reachable(payloads, d, root, id) && id in Universe(payloads, d, root)
    {
      ReachesFurther(payloads, d, root, queue[0], id);
      TargetInUniverse(payloads, d, root, queue[0], id);
    }
  }

  lemma TargetInUniverse(payloads: Payloads, d: Decoder, root: string, id: string, target: string)
    requires AllConvertible(payloads) && target in Targets(payloads, d, id)
    ensures target in Universe(payloads, d, root)
  {
  }

  lemma BrokenReached(payloads: Payloads, d: Decoder, root: string, visited: set<string>, queue: seq<string>)
    requires AllConvertible(payloads) && Searching(payloads, d, root, visited, queue) && queue != []
    requires queue[0] in payloads && CollectReferencedPackageIds(payloads[queue[0]], d).Failure?
    ensures Reachable(payloads, d, root, queue[0]) && Broken(payloads, d, queue[0])
  {
    hide Targets, Reachable, Universe;
    assert queue[0] in queue;
  }

  lemma SearchEnds(payloads: Payloads, d: Decoder, root: string, visited: set<string>)
    requires AllConvertible(payloads) && Searching(payloads, d, root, visited, [])
    ensures forall id :: id in visited <==> Reachable(payloads, d, root, id)
    ensures forall id :: Reachable(payloads, d, root, id) ==> !Broken(payloads, d, id)
  {
    hide Targets, Reachable, Universe, Broken;
    assert ClosedUnderReferences(payloads, d, visited);
    forall id | Reachable(payloads, d, root, id)
      ensures id in visited
    {
      ClosedHoldsReachable(payloads, d, root, visited, id);
    }
  }

  // ---------- The DAR ----------

  datatype ArchiveAutoNamingStyle = Empty | Hash | Uuid

  datatype DarError = NoPackages | MainNotPresent(id: string) | BadPayload(error: ConvertError)

  type DarResult<+T> = Result<T, DarError>

  datatype Dar = Dar(manifest: DarManifest, main: DamlLfArchive, dependencies: seq<DamlLfArchive>)

  function ResolveMainId(packages: seq<LedgerPackage>, hint: Option<string>): DarResult<string> {
    match hint
    case Some(id) =>
      if exists p :: p in packages && p.hash == id then Success(id) else Failure(MainNotPresent(id))
    case None => if packages == [] then Failure(NoPackages) else Success(packages[0].hash)
  }

  /** Payloads by hash; of two packages with one hash the later one's payload stays. */
  function PayloadsById(packages: seq<LedgerPackage>, d: Decoder): DarResult<Payloads> {
    if packages == [] then Success(map[]) else
      var init, last := packages[..|packages| - 1], packages[|packages| - 1];
      var rest :- PayloadsById(init, d);
      match d.parse(last.payload)
      case Success(payload) => Success(rest[last.hash := payload])
      case Failure(e) => Failure(BadPayload(e))
  }

  function Keep(packages: seq<LedgerPackage>, ids: set<string>): seq<LedgerPackage> {
    if packages == [] then []
    else if packages[0].hash in ids then [packages[0]] + Keep(packages[1..], ids)
    else Keep(packages[1..], ids)
  }

  function ArchiveName(hash: string, style: ArchiveAutoNamingStyle, uuid: string): string {
    match style
    case Empty => ""
    case Hash => hash
    case Uuid => uuid
  }

  /** The archive has the payload's content under the package's hash, and the name the style asks for. */
  ghost predicate IsArchiveOf(
    a: DamlLfArchive, p: LedgerPackage, style: ArchiveAutoNamingStyle, uuid: string, d: Decoder)
  {
    && a.hash == p.hash && d.parse(p.payload).Success?
    && a == d.parse(p.payload).value.(name := a.name, hash := a.hash)
    && (style.Empty? ==> a.name == "") && (style.Hash? ==> a.name == p.hash) && (style.Uuid? ==> a.name == uuid)
  }

  function ToArchive(p: LedgerPackage, style: ArchiveAutoNamingStyle, uuid: string, d: Decoder)
    : DarResult<DamlLfArchive>
  {
    match d.parse(p.payload)
    case Failure(e) => Failure(BadPayload(e))
    case Success(payload) => Success(payload.(name := ArchiveName(p.hash, style, uuid), hash := p.hash))
  }

  /** `uuid` supplies the fresh names, by position from the end of the list. */
  function PackagesToArchives(
    packages: seq<LedgerPackage>, style: ArchiveAutoNamingStyle, uuid: nat -> string, d: Decoder)
    : (r: DarResult<seq<DamlLfArchive>>)
    ensures r.Failure? ==> exists i :: 0 <= i < |packages| && d.parse(packages[i].payload).Failure?
    ensures r.Failure? ==> r.error.BadPayload?
    ensures r.Success? ==> |r.value| == |packages|
    ensures r.Success? ==> forall i :: 0 <= i < |packages| ==>
      ToArchive(packages[i], style, uuid(|packages| - i), d) == Success(r.value[i])
    ensures r.Success? ==> forall i :: 0 <= i < |packages| ==>
      IsArchiveOf(r.value[i], packages[i], style, uuid(|packages| - i), d)
  {
    if packages == [] then Success([]) else
      var first :- ToArchive(packages[0], style, uuid(|packages|), d);
      var rest :- PackagesToArchives(packages[1..], style, uuid, d);
      Success([first] + rest)
  }

  /** One archive for each package, in order. */
  ghost predicate ArchivesOf(packages: seq<LedgerPackage>, archives: seq<DamlLfArchive>, style: ArchiveAutoNamingStyle,
                             uuid: nat -> string, d: Decoder)
  {
    && |archives| == |packages|
    && forall i :: 0 <= i < |packages| ==> IsArchiveOf(archives[i], packages[i], style, uuid(|packages| - i), d)
  }

  function ArchiveNames(archives: seq<DamlLfArchive>): (r: seq<string>)
    ensures |r| == |archives| && forall i :: 0 <= i < |archives| ==> r[i] == archives[i].name
  {
    if archives == [] then [] else [archives[0].name] + ArchiveNames(archives[1..])
  }

  lemma SwapRemoveKeeps<T>(s: seq<T>, i: nat)
    requires i < |s|
    ensures multiset([s[i]] + s[i := s[|s| - 1]][..|s| - 1]) == multiset(s)
  {
    var last := |s| - 1;
    assert s == s[..last] + [s[last]];
    if i < last {
      var t := s[i := s[last]][..last];
      assert t == s[..last][i := s[last]];
      assert multiset(t) == multiset(s[..last]) - multiset{s[i]} + multiset{s[last]};
      assert s[i] in s[..last];
    } else {
      assert s[i := s[last]] == s;
    }
  }

  /** The main archive is the first with the main hash; the last archive takes its place. */
  ghost predicate TakenOut(archives: seq<DamlLfArchive>, mainId: string, i: int, dar: Dar) {
    && 0 <= i < |archives| && archives[i].hash == mainId && (forall j :: 0 <= j < i ==> archives[j].hash != mainId)
    && dar.main == archives[i] && |dar.dependencies| == |archives| - 1
    && forall j :: 0 <= j < |dar.dependencies| ==>
      dar.dependencies[j] == if j == i then archives[|archives| - 1] else archives[j]
  }

  /** The manifest names the archives of the DAR, in order, and says nothing else. */
  ghost predicate ImpliedManifest(dar: Dar) {
    var m := dar.manifest;
    && m.version == UnknownVersion && m.format == UnknownFormat && m.encryption == UnknownEncryption
    && m.createdBy == "implied" && m.dalfMain == dar.main.name
    && |m.dalfDependencies| == |dar.dependencies|
    && forall i :: 0 <= i < |dar.dependencies| ==> m.dalfDependencies[i] == dar.dependencies[i].name
  }

  /** Takes the first archive with the main hash out by swapping the last one into its place. */
  method ArchivesToDar(archives: seq<DamlLfArchive>, mainId: string) returns (r: DarResult<Dar>)
    ensures r.Failure? <==> forall i :: 0 <= i < |archives| ==> archives[i].hash != mainId
    ensures r.Failure? ==> r.error == if archives == [] then NoPackages else MainNotPresent(mainId)
    ensures r.Success? ==> r.value.main.hash == mainId
    ensures r.Success? ==> exists i :: TakenOut(archives, mainId, i, r.value)
    ensures r.Success? ==> multiset([r.value.main] + r.value.dependencies) == multiset(archives)
    ensures r.Success? ==> ImpliedManifest(r.value)
  {
    if archives == [] {
      return Failure(NoPackages);
    }
    var mainIdx := 0;
    while mainIdx < |archives| && archives[mainIdx].hash != mainId
      invariant mainIdx <= |archives|
      invariant forall i :: 0 <= i < mainIdx ==> archives[i].hash != mainId
    {
      mainIdx := mainIdx + 1;
    }
    if mainIdx == |archives| {
      return Failure(MainNotPresent(mainId));
    }
    var main := archives[mainIdx];
    var rest := archives[mainIdx := archives[|archives| - 1]][..|archives| - 1];
    SwapRemoveKeeps(archives, mainIdx);
    r := Success(Dar(NewImplied(main.name, ArchiveNames(rest)), main, rest));
    assert TakenOut(archives, mainId, mainIdx, r.value);
  }

  /** Payloads of all packages convertible, as far as they parse. */
  ghost predicate PackagesConvertible(packages: seq<LedgerPackage>, d: Decoder) {
    forall p :: p in packages && d.parse(p.payload).Success? ==> Convertible(d.parse(p.payload).value)
  }

  ghost predicate Unparsable(packages: seq<LedgerPackage>, d: Decoder) {
    exists p :: p in packages && d.parse(p.payload).Failure?
  }

  ghost predicate LastWithHash(packages: seq<LedgerPackage>, i: int)
    requires 0 <= i < |packages|
  {
    forall j :: i < j < |packages| ==> packages[j].hash != packages[i].hash
  }

  lemma {:induction false} PayloadsFacts(packages: seq<LedgerPackage>, d: Decoder)
    requires PackagesConvertible(packages, d)
    ensures PayloadsById(packages, d).Failure? <==> Unparsable(packages, d)
    ensures PayloadsById(packages, d).Failure? ==> PayloadsById(packages, d).error.BadPayload?
    ensures PayloadsById(packages, d).Success? ==>
      var payloads := PayloadsById(packages, d).value;
      && AllConvertible(payloads)
      && (forall p :: p in packages ==> p.hash in payloads)
      && (forall id :: id in payloads ==>
            exists p :: p in packages && p.hash == id && d.parse(p.payload) == Success(payloads[id]))
      && (forall i :: 0 <= i < |packages| && LastWithHash(packages, i) ==>
            d.parse(packages[i].payload) == Success(payloads[packages[i].hash]))
  {
    hide Convertible;
    if packages != [] {
      var init, last := packages[..|packages| - 1], packages[|packages| - 1];
      assert forall p :: p in packages <==> p in init || p == last by {
        assert packages == init + [last];
      }
      PayloadsFacts(init, d);
    }
  }

  lemma {:induction false} KeepFacts(packages: seq<LedgerPackage>, ids: set<string>)
    ensures forall p :: p in Keep(packages, ids) <==> p in packages && p.hash in ids
    ensures forall p :: multiset(Keep(packages, ids))[p] == if p.hash in ids then multiset(packages)[p] else 0
  {
    if packages != [] {
      KeepFacts(packages[1..], ids);
      assert packages == [packages[0]] + packages[1..];
    }
  }

  ghost predicate UniqueHashes(packages: seq<LedgerPackage>) {
    forall i, j :: 0 <= i < j < |packages| ==> packages[i].hash != packages[j].hash
  }

  ghost function PayloadsOf(packages: seq<LedgerPackage>, d: Decoder): (r: Payloads)
    requires PackagesConvertible(packages, d)
    ensures AllConvertible(r)
  {
    PayloadsFacts(packages, d);
    if PayloadsById(packages, d).Success? then PayloadsById(packages, d).value else map[]
  }

  /** `kept` are the packages at the positions `at`, in order. */
  ghost predicate Selects(packages: seq<LedgerPackage>, kept: seq<LedgerPackage>, at: seq<int>) {
    && |at| == |kept| && (forall i :: 0 <= i < |at| ==> 0 <= at[i] < |packages| && kept[i] == packages[at[i]])
    && forall i, j :: 0 <= i < j < |at| ==> at[i] < at[j]
  }

  /** The packages at the positions are those with a hash in `ids`. */
  ghost predicate Chosen(packages: seq<LedgerPackage>, at: seq<int>, ids: set<string>) {
    forall i :: 0 <= i < |packages| ==> (i in at <==> packages[i].hash in ids)
  }

  /** The positions one further on. */
  ghost function Shifted(at: seq<int>): (later: seq<int>)
    ensures |later| == |at| && forall k :: 0 <= k < |at| ==> later[k] == at[k] + 1
  {
    seq(|at|, k requires 0 <= k < |at| => at[k] + 1)
  }

  lemma ShiftedIn(at: seq<int>, i: int)
    ensures i in Shifted(at) <==> i - 1 in at
  {
    if i - 1 in at {
      var k :| 0 <= k < |at| && at[k] == i - 1;
      assert Shifted(at)[k] == i;
    }
  }

  lemma SelectsLater(packages: seq<LedgerPackage>, kept: seq<LedgerPackage>, at: seq<int>)
    requires packages != [] && Selects(packages[1..], kept, at)
    ensures Selects(packages, kept, Shifted(at)) && Selects(packages, [packages[0]] + kept, [0] + Shifted(at))
  {
    var later, all := Shifted(at), [0] + Shifted(at);
    assert forall k :: 0 <= k < |at| ==> packages[1..][at[k]] == packages[later[k]];
    assert forall k :: 0 < k < |all| ==> all[k] == later[k - 1] && ([packages[0]] + kept)[k] == kept[k - 1];
  }

  lemma ChosenLater(packages: seq<LedgerPackage>, kept: seq<LedgerPackage>, at: seq<int>, ids: set<string>)
    requires packages != [] && Selects(packages[1..], kept, at) && Chosen(packages[1..], at, ids)
    ensures Chosen(packages, if packages[0].hash in ids then [0] + Shifted(at) else Shifted(at), ids)
  {
    var all := if packages[0].hash in ids then [0] + Shifted(at) else Shifted(at);
    forall i | 0 <= i < |packages|
      ensures i in all <==> packages[i].hash in ids
    {
      ShiftedIn(at, i);
      if i > 0 {
        assert packages[i] == packages[1..][i - 1];
      }
    }
  }

  lemma {:induction false} KeepInOrder(packages: seq<LedgerPackage>, ids: set<string>) returns (at: seq<int>)
    ensures Selects(packages, Keep(packages, ids), at) && Chosen(packages, at, ids)
  {
    hide Selects, Chosen;
    if packages == [] {
      at := [];
      NothingSelected(ids);
    } else {
      at := KeepInOrder(packages[1..], ids);
      SelectsLater(packages, Keep(packages[1..], ids), at);
      ChosenLater(packages, Keep(packages[1..], ids), at, ids);
      at := if packages[0].hash in ids then [0] + Shifted(at) else Shifted(at);
    }
  }

  lemma NothingSelected(ids: set<string>)
    ensures Selects([], [], []) && Chosen([], [], ids)
  {
  }

  /** The packages that go into the DAR: all of them, or as often as they are contained, and in their order,
      those that are reachable from the main one. */
  ghost predicate IsKept(packages: seq<LedgerPackage>, kept: seq<LedgerPackage>, filterDeps: bool, mainId: string,
                         d: Decoder)
    requires PackagesConvertible(packages, d)
  {
    if !filterDeps then kept == packages
    else
      && (forall p :: multiset(kept)[p] ==
            if Reachable(PayloadsOf(packages, d), d, mainId, p.hash) then multiset(packages)[p] else 0)
      && KeptInOrder(packages, kept, mainId, d)
  }

  ghost predicate KeptInOrder(packages: seq<LedgerPackage>, kept: seq<LedgerPackage>, mainId: string, d: Decoder)
    requires PackagesConvertible(packages, d)
  {
    exists at :: Selects(packages, kept, at) && forall i :: 0 <= i < |packages| ==>
      (i in at <==> Reachable(PayloadsOf(packages, d), d, mainId, packages[i].hash))
  }

  ghost predicate BrokenDependency(packages: seq<LedgerPackage>, mainId: string, d: Decoder)
    requires PackagesConvertible(packages, d)
  {
    exists id :: Reachable(PayloadsOf(packages, d), d, mainId, id) && Broken(PayloadsOf(packages, d), d, id)
  }

  lemma KeepIsKept(packages: seq<LedgerPackage>, ids: set<string>, mainId: string, d: Decoder)
    requires PackagesConvertible(packages, d)
    requires forall id :: id in ids <==> Reachable(PayloadsOf(packages, d), d, mainId, id)
    ensures IsKept(packages, Keep(packages, ids), true, mainId, d)
  {
    hide Reachable, PayloadsOf, PackagesConvertible, Selects, Keep;
    KeepFacts(packages, ids);
    var at := KeepInOrder(packages, ids);
  }

  lemma AllAreKept(packages: seq<LedgerPackage>, mainId: string, d: Decoder)
    requires PackagesConvertible(packages, d)
    ensures IsKept(packages, packages, false, mainId, d)
  {
  }

  method KeptPackages(packages: seq<LedgerPackage>, filterDeps: bool, mainId: string, d: Decoder)
    returns (r: DarResult<seq<LedgerPackage>>)
    requires PackagesConvertible(packages, d)
    ensures r.Failure? <==> filterDeps && (Unparsable(packages, d) || BrokenDependency(packages, mainId, d))
    ensures r.Failure? ==> r.error.BadPayload?
    ensures r.Success? ==> IsKept(packages, r.value, filterDeps, mainId, d)
  {
    hide Reachable, Broken, Unparsable, AllConvertible, PackagesConvertible, IsKept;
    if !filterDeps {
      AllAreKept(packages, mainId, d);
      return Success(packages);
    }
    PayloadsFacts(packages, d);
    var payloads := PayloadsById(packages, d);
    if payloads.Failure? {
      return Failure(payloads.error);
    }
    assert payloads.value == PayloadsOf(packages, d);
    var reachable := ReachableFrom(mainId, payloads.value, d);
    if reachable.Failure? {
      return Failure(BadPayload(reachable.error));
    }
    KeepIsKept(packages, reachable.value, mainId, d);
    r := Success(Keep(packages, reachable.value));
  }

  /** There is no package at all, or none with the hash asked for. */
  ghost predicate NoMain(packages: seq<LedgerPackage>, hint: Option<string>) {
    packages == [] || (hint.Some? && forall p :: p in packages ==> p.hash != hint.value)
  }

  /** The hash asked for, or that of the first package. */
  ghost function MainHash(packages: seq<LedgerPackage>, hint: Option<string>): string
    requires packages != []
  {
    if hint.Some? then hint.value else packages[0].hash
  }

  lemma MainResolved(packages: seq<LedgerPackage>, hint: Option<string>)
    ensures ResolveMainId(packages, hint).Failure? <==> NoMain(packages, hint)
    ensures ResolveMainId(packages, hint).Failure? ==>
      ResolveMainId(packages, hint).error == if hint.Some? then MainNotPresent(hint.value) else NoPackages
    ensures ResolveMainId(packages, hint).Success? ==>
      packages != [] && ResolveMainId(packages, hint).value == MainHash(packages, hint)
  {
  }

  /** The main package is always among the kept ones, so no DAR is ever refused for lack of it. */
  lemma MainKept(packages: seq<LedgerPackage>, kept: seq<LedgerPackage>, hint: Option<string>, filterDeps: bool,
                 d: Decoder)
    requires PackagesConvertible(packages, d) && !NoMain(packages, hint)
    requires IsKept(packages, kept, filterDeps, MainHash(packages, hint), d)
    ensures exists i :: 0 <= i < |kept| && kept[i].hash == MainHash(packages, hint)
  {
    hide Reachable, PackagesConvertible, PayloadsOf, KeptInOrder;
    var mainId := MainHash(packages, hint);
    assert packages[0] in packages;
    var p :| p in packages && p.hash == mainId;
    RootReachable(PayloadsOf(packages, d), d, mainId);
    assert p in multiset(packages);
    assert p in multiset(kept) ==> p in kept;
    assert p in kept;
  }

  lemma UnparsableKept(packages: seq<LedgerPackage>, kept: seq<LedgerPackage>, filterDeps: bool, mainId: string,
                       d: Decoder)
    requires PackagesConvertible(packages, d) && IsKept(packages, kept, filterDeps, mainId, d)
    ensures Unparsable(kept, d) ==> Unparsable(packages, d)
    ensures !filterDeps ==> kept == packages
  {
    hide Reachable, PackagesConvertible, PayloadsOf;
    if filterDeps {
      forall p | p in kept
        ensures p in packages
      {
        assert p in multiset(kept);
        assert p in multiset(packages) ==> p in packages;
      }
    }
  }

  /** Fails exactly when there is no main package, some payload does not parse, or filtering meets a
      reachable payload that does not convert. Otherwise the main archive is the one asked for, and main
      and dependencies together are exactly the archives of the kept packages. */
  method IntoDar(packages: seq<LedgerPackage>, mainHint: Option<string>, filterDeps: bool,
                 style: ArchiveAutoNamingStyle, uuid: nat -> string, d: Decoder)
    returns (r: DarResult<Dar>, ghost kept: seq<LedgerPackage>)
    requires PackagesConvertible(packages, d)
    ensures r.Failure? <==>
      || NoMain(packages, mainHint)
      || Unparsable(packages, d)
      || (filterDeps && BrokenDependency(packages, MainHash(packages, mainHint), d))
    ensures r.Failure? ==>
      if !NoMain(packages, mainHint) then r.error.BadPayload?
      else r.error == if mainHint.Some? then MainNotPresent(mainHint.value) else NoPackages
    ensures r.Success? ==> packages != [] && IsKept(packages, kept, filterDeps, MainHash(packages, mainHint), d)
    ensures r.Success? ==> r.value.main.hash == if mainHint.Some? then mainHint.value else packages[0].hash
    ensures r.Success? ==> exists archives, i ::
      && ArchivesOf(kept, archives, style, uuid, d)
      && TakenOut(archives, MainHash(packages, mainHint), i, r.value)
      && multiset([r.value.main] + r.value.dependencies) == multiset(archives)
    ensures r.Success? ==> ImpliedManifest(r.value)
  {
    hide IsKept, BrokenDependency, PackagesConvertible, ResolveMainId, ImpliedManifest, TakenOut, IsArchiveOf, NoMain;
    kept := [];
    MainResolved(packages, mainHint);
    var mainId := ResolveMainId(packages, mainHint);
    if mainId.Failure? {
      return Failure(mainId.error), kept;
    }
    var keep := KeptPackages(packages, filterDeps, mainId.value, d);
    if keep.Failure? {
      return Failure(keep.error), kept;
    }
    kept := keep.value;
    UnparsableKept(packages, kept, filterDeps, mainId.value, d);
    var archives := PackagesToArchives(keep.value, style, uuid, d);
    if archives.Failure? {
      return Failure(archives.error), kept;
    }
    MainKept(packages, kept, mainHint, filterDeps, d);
    r := ArchivesToDar(archives.value, mainId.value);
    assert ArchivesOf(kept, archives.value, style, uuid, d);
  }

  // ---------- What a filtered DAR keeps ----------

  lemma {:induction false} UniquePayload(packages: seq<LedgerPackage>, i: nat, d: Decoder)
    requires PackagesConvertible(packages, d) && UniqueHashes(packages) && i < |packages|
    requires PayloadsById(packages, d).Success?
    ensures packages[i].hash in PayloadsById(packages, d).value
    ensures d.parse(packages[i].payload) == Success(PayloadsById(packages, d).value[packages[i].hash])
  {
    if i < |packages| - 1 {
      UniquePayload(packages[..|packages| - 1], i, d);
    }
  }

  /** A reference of a kept package to a contained package is kept: filtering leaves nothing dangling that
      was not dangling before. */
  lemma KeptReferencesKept(packages: seq<LedgerPackage>, kept: seq<LedgerPackage>, filterDeps: bool, mainId: string,
                           d: Decoder, p: LedgerPackage, q: LedgerPackage)
    requires PackagesConvertible(packages, d) && UniqueHashes(packages) && !Unparsable(packages, d)
    requires IsKept(packages, kept, filterDeps, mainId, d)
    requires p in kept && q in packages
    requires d.parse(p.payload).Success? && Convertible(d.parse(p.payload).value)
    requires var refs := CollectReferencedPackageIds(d.parse(p.payload).value, d);
      refs.Success? && q.hash in refs.value
    ensures q in kept
  {
    hide Reachable, CollectReferencedPackageIds, Convertible;
    if filterDeps {
      var payloads := PayloadsOf(packages, d);
      assert p in multiset(kept) && q in multiset(packages);
      assert p in multiset(packages);
      var i: nat :| i < |packages| && packages[i] == p;
      PayloadsFacts(packages, d);
      UniquePayload(packages, i, d);
      assert q.hash in Targets(payloads, d, p.hash);
      ReachesFurther(payloads, d, mainId, p.hash, q.hash);
      assert q in multiset(kept);
    }
  }

  /** With unique hashes no archive is in the DAR twice. */
  lemma KeptOnce(packages: seq<LedgerPackage>, kept: seq<LedgerPackage>, filterDeps: bool, mainId: string, d: Decoder)
    requires PackagesConvertible(packages, d) && UniqueHashes(packages)
    requires IsKept(packages, kept, filterDeps, mainId, d)
    ensures UniqueHashes(kept)
  {
    hide Reachable, PayloadsOf, PackagesConvertible, KeptInOrder;
    if filterDeps {
      forall i, j | 0 <= i < j < |kept|
        ensures kept[i].hash != kept[j].hash
      {
        if kept[i] == kept[j] {
          CountsTwice(kept, i, j);
          CountedOnce(packages, kept[i]);
        } else {
          assert kept[i] in multiset(kept) && kept[j] in multiset(kept);
          assert kept[i] in multiset(packages) && kept[j] in multiset(packages);
          var a: nat :| a < |packages| && packages[a] == kept[i];
          var b: nat :| b < |packages| && packages[b] == kept[j];
        }
      }
    }
  }

  lemma CountsTwice<T>(s: seq<T>, i: nat, j: nat)
    requires i < j < |s| && s[i] == s[j]
    ensures multiset(s)[s[i]] >= 2
  {
    assert s == s[..i] + [s[i]] + s[i + 1..];
    assert s[j] == s[i + 1..][j - i - 1];
    assert s[j] in s[i + 1..];
  }

  lemma {:induction false} CountedOnce(packages: seq<LedgerPackage>, p: LedgerPackage)
    requires UniqueHashes(packages)
    ensures multiset(packages)[p] <= 1
  {
    if packages != [] {
      CountedOnce(packages[1..], p);
      assert packages == [packages[0]] + packages[1..];
      assert packages[0] !in packages[1..];
    }
  }
}
