/** The packages of implemented interfaces, which the reference visitor does not record, and when a filtered
    DAR keeps them all the same. */
module Implements {
  import opened Wrappers
  import opened Element
  import opened Declarations
  import opened ArchivePayload
  import opened PackageClosure
  import F = FlatTree
  import Wire

  /** The packages a tree's templates implement interfaces of. */
  ghost predicate TreeImplements(f: F.FlatTree, id: string) {
    exists p, k, n ::
      && p in f && k in f[p].dataTypes && f[p].dataTypes[k].Template?
      && n in f[p].dataTypes[k].implements && n.ReferencePackage() == id
  }

  /** A template of payload `from` implements an interface of package `to`. As for recorded references, the
      empty id is the payload's own. */
  ghost predicate ImplementsFrom(payloads: PackageClosure.Payloads, from: string, to: string)
    requires AllConvertible(payloads)
  {
    from in payloads && to != "" &&
    var pkg := PackagePayload(payloads[from].(hash := ""));
    && pkg.Success? && ConvertModules(pkg.value.modules, pkg.value).Success?
    && TreeImplements(F.InsertModules(ConvertModules(pkg.value.modules, pkg.value).value), to)
  }

  /** Every package that some kept package implements an interface of, and that is there to be kept, is kept. */
  ghost predicate KeepsImplemented(packages: seq<LedgerPackage>, kept: seq<LedgerPackage>, d: Decoder)
    requires PackagesConvertible(packages, d)
  {
    forall p, q | p in kept && q in packages && ImplementsFrom(PayloadsOf(packages, d), p.hash, q.hash) ::
      q in kept
  }

  /** A walk over recorded references and implemented interfaces. */
  ghost predicate WideStep(payloads: PackageClosure.Payloads, d: Decoder, from: string, to: string)
    requires AllConvertible(payloads)
  {
    to in Targets(payloads, d, from) || ImplementsFrom(payloads, from, to)
  }

  ghost predicate WidePath(payloads: PackageClosure.Payloads, d: Decoder, path: seq<string>)
    requires AllConvertible(payloads)
  {
    path != [] && forall i :: 0 < i < |path| ==> WideStep(payloads, d, path[i - 1], path[i])
  }

  ghost predicate WidelyReachable(payloads: PackageClosure.Payloads, d: Decoder, root: string, id: string)
    requires AllConvertible(payloads)
  {
    exists path :: WidePath(payloads, d, path) && path[0] == root && path[|path| - 1] == id
  }

  /** Implemented interfaces lead to no contained package that recorded references do not lead to. */
  ghost predicate NothingFurther(packages: seq<LedgerPackage>, mainId: string, d: Decoder)
    requires PackagesConvertible(packages, d)
  {
    forall q | q in packages && WidelyReachable(PayloadsOf(packages, d), d, mainId, q.hash) ::
      Reachable(PayloadsOf(packages, d), d, mainId, q.hash)
  }

  // ---------- Kept packages and hashes ----------

  lemma KeptIff(packages: seq<LedgerPackage>, kept: seq<LedgerPackage>, mainId: string, d: Decoder, p: LedgerPackage)
    requires PackagesConvertible(packages, d) && IsKept(packages, kept, true, mainId, d)
    ensures p in kept <==> p in packages && Reachable(PayloadsOf(packages, d), d, mainId, p.hash)
  {
    hide Reachable, PayloadsOf, PackagesConvertible;
    assert p in kept <==> p in multiset(kept);
    assert p in packages <==> p in multiset(packages);
  }

  lemma PayloadOfPackage(packages: seq<LedgerPackage>, d: Decoder, id: string) returns (p: LedgerPackage)
    requires PackagesConvertible(packages, d) && id in PayloadsOf(packages, d)
    ensures p in packages && p.hash == id
  {
    hide PackagesConvertible;
    PayloadsFacts(packages, d);
    p :| p in packages && p.hash == id;
  }

  lemma StepFromPayload(payloads: PackageClosure.Payloads, d: Decoder, from: string, to: string)
    requires AllConvertible(payloads) && WideStep(payloads, d, from, to)
    ensures from in payloads
  {
    hide CollectReferencedPackageIds, ConvertModules, F.InsertModules, Convertible;
  }

  lemma WiderStill(payloads: PackageClosure.Payloads, d: Decoder, root: string, id: string, to: string)
    requires AllConvertible(payloads)
    requires Reachable(payloads, d, root, id) && WideStep(payloads, d, id, to)
    ensures WidelyReachable(payloads, d, root, to)
  {
    hide Targets, ImplementsFrom;
    var path :| ReferencePath(payloads, d, path) && path[0] == root && path[|path| - 1] == id;
    assert forall i :: 0 < i < |path| ==> WideStep(payloads, d, path[i - 1], path[i]);
    assert WidePath(payloads, d, path + [to]);
    assert (path + [to])[|path|] == to;
  }

  /** If what kept packages implement is kept, a wide path stays among the reachable packages as long as it
      stays among the contained ones. */
  lemma {:induction false} WidePathKept(
    packages: seq<LedgerPackage>, kept: seq<LedgerPackage>, mainId: string, d: Decoder, path: seq<string>)
    requires PackagesConvertible(packages, d) && IsKept(packages, kept, true, mainId, d)
    requires KeepsImplemented(packages, kept, d)
    requires WidePath(PayloadsOf(packages, d), d, path) && path[0] == mainId
    requires path[|path| - 1] in PayloadsOf(packages, d)
    ensures Reachable(PayloadsOf(packages, d), d, mainId, path[|path| - 1])
    decreases |path|
  {
    hide Reachable, PayloadsOf, PackagesConvertible, WideStep, IsKept, KeepsImplemented;
    var payloads := PayloadsOf(packages, d);
    if |path| == 1 {
      RootReachable(payloads, d, mainId);
    } else {
      var init, from, to := path[..|path| - 1], path[|path| - 2], path[|path| - 1];
      assert WideStep(payloads, d, from, to);
      StepFromPayload(payloads, d, from, to);
      assert WidePath(payloads, d, init) && init[|init| - 1] == from;
      WidePathKept(packages, kept, mainId, d, init);
      StepKept(packages, kept, mainId, d, from, to);
    }
  }

  lemma StepKept(packages: seq<LedgerPackage>, kept: seq<LedgerPackage>, mainId: string, d: Decoder, from: string,
                 to: string)
    requires PackagesConvertible(packages, d) && IsKept(packages, kept, true, mainId, d)
    requires KeepsImplemented(packages, kept, d)
    requires from in PayloadsOf(packages, d) && to in PayloadsOf(packages, d)
    requires Reachable(PayloadsOf(packages, d), d, mainId, from) && WideStep(PayloadsOf(packages, d), d, from, to)
    ensures Reachable(PayloadsOf(packages, d), d, mainId, to)
  {
    hide Reachable, PayloadsOf, PackagesConvertible, Targets, ImplementsFrom, IsKept;
    var payloads := PayloadsOf(packages, d);
    if to in Targets(payloads, d, from) {
      ReachesFurther(payloads, d, mainId, from, to);
    } else {
      var p := PayloadOfPackage(packages, d, from);
      var q := PayloadOfPackage(packages, d, to);
      KeptIff(packages, kept, mainId, d, p);
      KeptIff(packages, kept, mainId, d, q);
    }
  }

  /** A DAR holds every contained package that its packages implement interfaces of exactly when it is not
      filtered, or implemented interfaces lead to no package that recorded references do not lead to anyway. */
  lemma ImplementedKeptIff(packages: seq<LedgerPackage>, kept: seq<LedgerPackage>, filterDeps: bool, mainId: string,
                           d: Decoder)
    requires PackagesConvertible(packages, d) && !Unparsable(packages, d)
    requires IsKept(packages, kept, filterDeps, mainId, d)
    ensures KeepsImplemented(packages, kept, d) <==> !filterDeps || NothingFurther(packages, mainId, d)
  {
    hide PackagesConvertible, PayloadsOf, ImplementsFrom, NothingFurther, Unparsable, Reachable;
    if filterDeps {
      FilteredKeptIff(packages, kept, mainId, d);
    }
  }

  lemma FilteredKeptIff(packages: seq<LedgerPackage>, kept: seq<LedgerPackage>, mainId: string, d: Decoder)
    requires PackagesConvertible(packages, d) && !Unparsable(packages, d)
    requires IsKept(packages, kept, true, mainId, d)
    ensures KeepsImplemented(packages, kept, d) <==> NothingFurther(packages, mainId, d)
  {
    hide Reachable, PayloadsOf, PackagesConvertible, ImplementsFrom, IsKept, Unparsable;
    var payloads := PayloadsOf(packages, d);
    if KeepsImplemented(packages, kept, d) {
      forall q | q in packages && WidelyReachable(payloads, d, mainId, q.hash)
        ensures Reachable(payloads, d, mainId, q.hash)
      {
        var path :| WidePath(payloads, d, path) && path[0] == mainId && path[|path| - 1] == q.hash;
        assert q.hash in payloads by { HasPayload(packages, d, q); }
        WidePathKept(packages, kept, mainId, d, path);
      }
    }
    if NothingFurther(packages, mainId, d) {
      forall p, q | p in kept && q in packages && ImplementsFrom(payloads, p.hash, q.hash)
        ensures q in kept
      {
        KeptIff(packages, kept, mainId, d, p);
        KeptIff(packages, kept, mainId, d, q);
        WiderStill(payloads, d, mainId, p.hash, q.hash);
      }
    }
  }

  lemma HasPayload(packages: seq<LedgerPackage>, d: Decoder, p: LedgerPackage)
    requires PackagesConvertible(packages, d) && !Unparsable(packages, d) && p in packages
    ensures p.hash in PayloadsOf(packages, d)
  {
    hide PackagesConvertible, Unparsable;
    PayloadsFacts(packages, d);
  }
}
