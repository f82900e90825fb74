/** Where definitions end up in the module tree. */
module Placement {
  import opened Wrappers
  import opened Element
  import opened Declarations
  import opened FlatTree

  // ---------- What one insertion does at one path ----------

  /** The definitions a module routes to `prefix`, keyed by name; the last one wins. */
  ghost function At(defs: seq<Definition>, prefix: Path): (r: map<string, DamlData>)
    ensures forall n :: n in r ==> exists d :: d in defs && d.prefix == prefix && d.name == n && d.data == r[n]
    ensures forall d :: d in defs && d.prefix == prefix ==> d.name in r
  {
    if defs == [] then map[] else
      var last := defs[|defs| - 1];
      var rest := At(defs[..|defs| - 1], prefix);
      if last.prefix == prefix then rest[last.name := last.data] else rest
  }

  lemma {:induction false} DirectIsAt(defs: seq<Definition>)
    ensures Direct(defs) == At(defs, [])
  {
    if defs != [] {
      DirectIsAt(defs[..|defs| - 1]);
    }
  }

  lemma {:induction false} NestedKeepsPrefixed(defs: seq<Definition>, prefix: Path)
    requires prefix != []
    ensures At(Nested(defs), prefix) == At(defs, prefix)
  {
    if defs != [] {
      var rest := defs[..|defs| - 1];
      NestedKeepsPrefixed(rest, prefix);
      var last := defs[|defs| - 1];
      if last.prefix != [] {
        assert (Nested(rest) + [last])[..|Nested(rest)|] == Nested(rest);
      }
    }
  }

  /** `Descend` adds exactly the missing paths strictly below `base` on the way down `rest`. */
  lemma {:induction false} DescendAdds(f: FlatTree, base: Path, rest: Path, synthetic: bool, p: Path)
    ensures p in Descend(f, base, rest, synthetic) <==> p in f || (base < p <= base + rest)
    ensures p in Descend(f, base, rest, synthetic) ==>
      Descend(f, base, rest, synthetic)[p] == if p in f then f[p] else EmptyContent(synthetic)
    decreases rest
  {
    if rest == [] {
      assert base + rest == base;
    } else {
      var next := base + [rest[0]];
      var g := if next in f then f else f[next := EmptyContent(synthetic)];
      DescendAdds(g, next, rest[1..], synthetic, p);
      assert next + rest[1..] == base + rest;
      if base < p <= base + rest {
        assert p[|base|] == rest[0] && p[..|next|] == next;
        assert p == next || next < p;
      }
      if next < p {
        assert base < p;
      }
    }
  }

  /** Is `p` on the way down one of the prefixes the definitions of a module at `path` carry? */
  ghost predicate Prefixed(defs: seq<Definition>, path: Path, p: Path) {
    path <= p && exists d :: d in defs && p <= path + d.prefix
  }

  ghost function ContentOr(f: FlatTree, p: Path, synthetic: bool): ModuleContent {
    if p in f then f[p] else EmptyContent(synthetic)
  }

  lemma RouteAt(f: FlatTree, path: Path, d: Definition, p: Path)
    requires path in f && d.prefix != []
    ensures p in Route(f, path, d) <==> p in f || path < p <= path + d.prefix
    ensures p in Route(f, path, d) ==>
      var here := ContentOr(f, p, true);
      Route(f, path, d)[p] ==
      if p == path + d.prefix then here.(dataTypes := here.dataTypes[d.name := d.data]) else here
  {
    DescendAdds(f, path, d.prefix, true, p);
    DescendAdds(f, path, d.prefix, true, path + d.prefix);
    assert path < path + d.prefix;
  }

  lemma {:induction false} RouteAllReaches(f: FlatTree, path: Path, defs: seq<Definition>, p: Path)
    requires path in f && forall d :: d in defs ==> d.prefix != []
    ensures path in RouteAll(f, path, defs)
    ensures p in RouteAll(f, path, defs) <==> p in f || Prefixed(defs, path, p)
  {
    hide Route;
    if defs != [] {
      var rest, d := defs[..|defs| - 1], defs[|defs| - 1];
      RouteAllReaches(f, path, rest, p);
      RouteAt(RouteAll(f, path, rest), path, d, p);
      RouteAt(RouteAll(f, path, rest), path, d, path);
      assert defs == rest + [d];
      assert Prefixed(defs, path, p) <==> Prefixed(rest, path, p) || (path <= p && p <= path + d.prefix);
      assert path <= p ==> path == p || path < p;
    }
  }

  lemma {:induction false} RouteAllAt(f: FlatTree, path: Path, defs: seq<Definition>, p: Path)
    requires path in f && forall d :: d in defs ==> d.prefix != []
    requires p in RouteAll(f, path, defs)
    ensures var here := ContentOr(f, p, true);
      RouteAll(f, path, defs)[p] ==
      if path < p then here.(dataTypes := here.dataTypes + At(defs, p[|path|..])) else here
  {
    hide Route, At, Prefixed;
    var here := ContentOr(f, p, true);
    RouteAllReaches(f, path, defs, p);
    if defs == [] {
      NothingAt(here, p[if path < p then |path| else 0..]);
    } else {
      var rest, d := defs[..|defs| - 1], defs[|defs| - 1];
      var g := RouteAll(f, path, rest);
      assert defs == rest + [d];
      RouteAllReaches(f, path, rest, path);
      RouteAllReaches(f, path, rest, p);
      RouteAt(g, path, d, p);
      if p in g {
        RouteAllAt(f, path, rest, p);
      }
      if path < p {
        assert p == path + p[|path|..];
        RoutedData(here, rest, d, p[|path|..]);
        if p !in g {
          NothingRouted(rest, path, p);
          NothingAt(here, p[|path|..]);
        }
      }
    }
  }

  lemma NothingAt(here: ModuleContent, prefix: Path)
    ensures here.dataTypes + At([], prefix) == here.dataTypes
  {
  }

  lemma RoutedData(here: ModuleContent, rest: seq<Definition>, d: Definition, prefix: Path)
    ensures here.dataTypes + At(rest + [d], prefix) ==
            if d.prefix == prefix then (here.dataTypes + At(rest, prefix))[d.name := d.data]
            else here.dataTypes + At(rest, prefix)
  {
    AtSnoc(rest, d, prefix);
    MergePut(here.dataTypes, At(rest, prefix), d.name, d.data);
  }

  lemma AtSnoc(rest: seq<Definition>, d: Definition, prefix: Path)
    ensures At(rest + [d], prefix) ==
            if d.prefix == prefix then At(rest, prefix)[d.name := d.data] else At(rest, prefix)
  {
    assert (rest + [d])[..|rest|] == rest;
  }

  lemma MergePut<K, V>(a: map<K, V>, b: map<K, V>, k: K, v: V)
    ensures a + b[k := v] == (a + b)[k := v]
  {
  }

  lemma {:induction false} NothingRouted(defs: seq<Definition>, path: Path, p: Path)
    requires path < p && !Prefixed(defs, path, p)
    ensures At(defs, p[|path|..]) == At([], p[|path|..])
  {
    if defs != [] {
      var rest := defs[..|defs| - 1];
      NothingRouted(rest, path, p);
      var d := defs[|defs| - 1];
      assert d in defs && !(p <= path + d.prefix);
    }
  }

  // ---------- Inserting a module ----------

  /** The paths inserting a module makes sure of. */
  ghost predicate Covers(b: BuiltModule, p: Path) {
    p <= b.path || Prefixed(b.definitions, b.path, p)
  }

  lemma InsertModuleCovers(f: FlatTree, b: BuiltModule, p: Path)
    requires [] in f
    ensures b.path in InsertModule(f, b)
    ensures p in InsertModule(f, b) <==> p in f || Covers(b, p)
  {
    hide RouteAll, Descend;
    var g := Descend(f, [], b.path, false);
    DescendAdds(f, [], b.path, false, p);
    assert [] + b.path == b.path;
    RouteAllReaches(Install(f, b), b.path, Nested(b.definitions), p);
    assert p == [] || [] < p;
    assert Prefixed(Nested(b.definitions), b.path, p) ==> Prefixed(b.definitions, b.path, p);
    if Prefixed(b.definitions, b.path, p) && !Prefixed(Nested(b.definitions), b.path, p) {
      var d :| d in b.definitions && p <= b.path + d.prefix;
      assert d.prefix == [] && b.path + [] == b.path;
    }
  }

  /** What is at `p` after inserting `b`, in terms of what was there before. */
  ghost function Inserted(f: FlatTree, b: BuiltModule, p: Path): ModuleContent {
    if p == b.path then b.Leaf()
    else if b.path < p then
      var here := ContentOr(f, p, true);
      here.(dataTypes := here.dataTypes + At(b.definitions, p[|b.path|..]))
    else ContentOr(f, p, false)
  }

  lemma InsertModuleAt(f: FlatTree, b: BuiltModule, p: Path)
    requires [] in f && p in InsertModule(f, b)
    ensures InsertModule(f, b)[p] == Inserted(f, b, p)
  {
    hide RouteAll, Descend, At, Prefixed;
    var g := Install(f, b);
    assert [] + b.path == b.path;
    DescendAdds(f, [], b.path, false, p);
    RouteAllReaches(g, b.path, Nested(b.definitions), p);
    RouteAllAt(g, b.path, Nested(b.definitions), p);
    if b.path < p {
      assert p == b.path + p[|b.path|..];
      NestedKeepsPrefixed(b.definitions, p[|b.path|..]);
      assert !(p <= b.path);
    } else if p != b.path {
      NotBelow(Nested(b.definitions), b.path, p);
    }
  }

  lemma NotBelow(defs: seq<Definition>, path: Path, p: Path)
    requires !(path < p) && p != path
    ensures !Prefixed(defs, path, p)
  {
  }

  // ---------- The finished tree ----------

  ghost function Lookup(f: FlatTree, path: Path, name: string): Option<DamlData> {
    if path in f && name in f[path].dataTypes then Some(f[path].dataTypes[name]) else None
  }

  /** Data definition `k` of module `i`, named by the module's path, the definition's prefix and name. */
  ghost predicate IsDefinition(bs: seq<BuiltModule>, i: nat, k: nat) {
    i < |bs| && k < |bs[i].definitions|
  }

  ghost function PathOf(bs: seq<BuiltModule>, i: nat, k: nat): Path
    requires IsDefinition(bs, i, k)
  {
    bs[i].path + bs[i].definitions[k].prefix
  }

  ghost function NameOf(bs: seq<BuiltModule>, i: nat, k: nat): string
    requires IsDefinition(bs, i, k)
  {
    bs[i].definitions[k].name
  }

  ghost function DataOf(bs: seq<BuiltModule>, i: nat, k: nat): DamlData
    requires IsDefinition(bs, i, k)
  {
    bs[i].definitions[k].data
  }

  /** No two definitions of the package have the same fully qualified name. */
  ghost predicate DistinctData(bs: seq<BuiltModule>) {
    forall i, k, j, l :: IsDefinition(bs, i, k) && IsDefinition(bs, j, l) && (i, k) != (j, l) ==>
      PathOf(bs, i, k) != PathOf(bs, j, l) || NameOf(bs, i, k) != NameOf(bs, j, l)
  }

  /** A module installed at `p` after module `i` replaces what earlier modules put there. */
  ghost predicate Overwritten(bs: seq<BuiltModule>, i: nat, p: Path) {
    exists j :: i < j < |bs| && bs[j].path == p
  }

  lemma {:induction false} RootStays(bs: seq<BuiltModule>)
    ensures [] in InsertModules(bs)
  {
    if bs != [] {
      RootStays(bs[..|bs| - 1]);
      InsertModuleCovers(InsertModules(bs[..|bs| - 1]), bs[|bs| - 1], []);
    }
  }

  /** A data definition is what lookup returns under its qualified name exactly when no later module is
      installed at the path its prefix names. */
  lemma {:induction false} DefinitionFound(bs: seq<BuiltModule>, i: nat, k: nat)
    requires DistinctData(bs) && IsDefinition(bs, i, k)
    ensures Lookup(InsertModules(bs), PathOf(bs, i, k), NameOf(bs, i, k)) == Some(DataOf(bs, i, k))
        <==> !Overwritten(bs, i, PathOf(bs, i, k))
  {
    hide InsertModule;
    var rest, b := bs[..|bs| - 1], bs[|bs| - 1];
    var f, p, n := InsertModules(rest), PathOf(bs, i, k), NameOf(bs, i, k);
    RootStays(rest);
    InsertModuleCovers(f, b, p);
    if i == |bs| - 1 {
      assert Prefixed(b.definitions, b.path, p);
      LastDefinitionFound(f, bs, k);
    } else {
      assert DistinctData(rest) by { PrefixDistinct(bs); }
      assert IsDefinition(rest, i, k);
      DefinitionFound(rest, i, k);
      assert Overwritten(bs, i, p) <==> Overwritten(rest, i, p) || b.path == p;
      if p in InsertModule(f, b) {
        InsertModuleAt(f, b, p);
        NotRedefined(bs, i, k);
      }
    }
  }

  lemma PrefixDistinct(bs: seq<BuiltModule>)
    requires bs != [] && DistinctData(bs)
    ensures DistinctData(bs[..|bs| - 1])
  {
    var rest := bs[..|bs| - 1];
    forall i, k, j, l | IsDefinition(rest, i, k) && IsDefinition(rest, j, l) && (i, k) != (j, l)
      ensures PathOf(rest, i, k) != PathOf(rest, j, l) || NameOf(rest, i, k) != NameOf(rest, j, l)
    {
      assert IsDefinition(bs, i, k) && IsDefinition(bs, j, l);
    }
  }

  lemma SplitPath(base: Path, prefix: Path)
    ensures base <= base + prefix && (base + prefix)[|base|..] == prefix
    ensures if prefix == [] then base + prefix == base else base < base + prefix && base + prefix != base
  {
    assert |base + prefix| == |base| + |prefix|;
  }

  lemma LastDefinitionFound(f: FlatTree, bs: seq<BuiltModule>, k: nat)
    requires bs != [] && DistinctData(bs) && IsDefinition(bs, |bs| - 1, k)
    requires [] in f
    ensures Lookup(InsertModule(f, bs[|bs| - 1]), PathOf(bs, |bs| - 1, k), NameOf(bs, |bs| - 1, k))
         == Some(DataOf(bs, |bs| - 1, k))
  {
    hide InsertModule, At, Direct;
    var b, p := bs[|bs| - 1], PathOf(bs, |bs| - 1, k);
    var d := b.definitions[k];
    SplitPath(b.path, d.prefix);
    assert d in b.definitions && p <= b.path + d.prefix;
    InsertModuleCovers(f, b, p);
    InsertModuleAt(f, b, p);
    DefinitionsDiffer(bs, k);
    AtDistinct(b.definitions, k);
    DirectIsAt(b.definitions);
  }

  lemma DefinitionsDiffer(bs: seq<BuiltModule>, k: nat)
    requires bs != [] && DistinctData(bs) && IsDefinition(bs, |bs| - 1, k)
    ensures var defs := bs[|bs| - 1].definitions;
      forall l :: 0 <= l < |defs| && defs[l].prefix == defs[k].prefix && defs[l].name == defs[k].name ==> l == k
  {
    var defs := bs[|bs| - 1].definitions;
    forall l | 0 <= l < |defs| && defs[l].prefix == defs[k].prefix && defs[l].name == defs[k].name
      ensures l == k
    {
      assert IsDefinition(bs, |bs| - 1, l);
    }
  }

  lemma {:induction false} AtDistinct(defs: seq<Definition>, k: nat)
    requires k < |defs|
    requires forall l :: 0 <= l < |defs| && defs[l].prefix == defs[k].prefix && defs[l].name == defs[k].name ==> l == k
    ensures defs[k].name in At(defs, defs[k].prefix) && At(defs, defs[k].prefix)[defs[k].name] == defs[k].data
  {
    assert defs[k] in defs && defs[k].name in At(defs, defs[k].prefix);
    var d :| d in defs && d.prefix == defs[k].prefix && d.name == defs[k].name &&
             d.data == At(defs, defs[k].prefix)[defs[k].name];
  }

  lemma NotRedefined(bs: seq<BuiltModule>, i: nat, k: nat)
    requires DistinctData(bs) && IsDefinition(bs, i, k) && i < |bs| - 1
    ensures var b, p := bs[|bs| - 1], PathOf(bs, i, k);
      && (p == b.path ==> NameOf(bs, i, k) !in Direct(b.definitions))
      && (b.path < p ==> NameOf(bs, i, k) !in At(b.definitions, p[|b.path|..]))
  {
    hide At, Direct;
    var b, p, n := bs[|bs| - 1], PathOf(bs, i, k), NameOf(bs, i, k);
    DirectIsAt(b.definitions);
    forall d | d in b.definitions && d.name == n
      ensures p != b.path + d.prefix
    {
      var l :| 0 <= l < |b.definitions| && b.definitions[l] == d;
      assert IsDefinition(bs, |bs| - 1, l);
    }
    assert b.path + [] == b.path;
    assert b.path < p ==> b.path <= p && p == b.path + p[|b.path|..];
  }

  /** Nothing else is in the tree. */
  lemma {:induction false} OnlyDefinitionsFound(bs: seq<BuiltModule>, p: Path, n: string)
    requires Lookup(InsertModules(bs), p, n).Some?
    ensures exists i, k ::
      IsDefinition(bs, i, k) && PathOf(bs, i, k) == p && NameOf(bs, i, k) == n &&
      Lookup(InsertModules(bs), p, n) == Some(DataOf(bs, i, k))
  {
    hide InsertModule, At, Direct;
    if bs != [] {
      var rest, b := bs[..|bs| - 1], bs[|bs| - 1];
      var f := InsertModules(rest);
      RootStays(rest);
      InsertModuleAt(f, b, p);
      DirectIsAt(b.definitions);
      if Lookup(f, p, n).Some? {
        OnlyDefinitionsFound(rest, p, n);
        var i, k :| IsDefinition(rest, i, k) && PathOf(rest, i, k) == p && NameOf(rest, i, k) == n &&
                    Lookup(f, p, n) == Some(DataOf(rest, i, k));
        assert IsDefinition(bs, i, k) && PathOf(bs, i, k) == p && NameOf(bs, i, k) == n;
      }
      if b.path <= p && n in At(b.definitions, p[|b.path|..]) {
        LastDefines(bs, p, n);
      }
    }
  }

  lemma LastDefines(bs: seq<BuiltModule>, p: Path, n: string)
    requires bs != [] && bs[|bs| - 1].path <= p
    requires n in At(bs[|bs| - 1].definitions, p[|bs[|bs| - 1].path|..])
    ensures exists i, k ::
      IsDefinition(bs, i, k) && PathOf(bs, i, k) == p && NameOf(bs, i, k) == n &&
      At(bs[|bs| - 1].definitions, p[|bs[|bs| - 1].path|..])[n] == DataOf(bs, i, k)
  {
    hide At;
    var b := bs[|bs| - 1];
    assert p == b.path + p[|b.path|..];
    var d :| d in b.definitions && d.prefix == p[|b.path|..] && d.name == n &&
             d.data == At(b.definitions, p[|b.path|..])[n];
    var k :| 0 <= k < |b.definitions| && b.definitions[k] == d;
    assert IsDefinition(bs, |bs| - 1, k) && PathOf(bs, |bs| - 1, k) == p;
  }
}
