/** When the order of a package's modules does not matter, exactly. */
module OrderIndependence {
  import opened Wrappers
  import opened Element
  import opened Declarations
  import opened FlatTree
  import opened Placement
  import Wire

  ghost predicate Real(bs: seq<BuiltModule>, p: Path) {
    exists b :: b in bs && b.path == p
  }

  /** `p` lies on the way down to some real module. */
  ghost predicate AboveReal(bs: seq<BuiltModule>, p: Path) {
    exists b :: b in bs && p <= b.path
  }

  /** `p` lies strictly below a real module, on the way down to one of its dotted definitions. */
  ghost predicate BelowReal(bs: seq<BuiltModule>, p: Path) {
    exists b :: b in bs && b.path < p && Prefixed(b.definitions, b.path, p)
  }

  /** Some definition with a dotted name is routed to exactly `p`. */
  ghost predicate RoutedTo(bs: seq<BuiltModule>, p: Path) {
    exists b, d :: b in bs && d in b.definitions && d.prefix != [] && p == b.path + d.prefix
  }

  ghost predicate DistinctModules(bs: seq<BuiltModule>) {
    forall i, j :: 0 <= i < j < |bs| ==> bs[i].path != bs[j].path
  }

  /** Nothing is routed into a real module, and no other synthetic node lies above one. */
  ghost predicate OrderFree(bs: seq<BuiltModule>) {
    && (forall p :: Real(bs, p) ==> !RoutedTo(bs, p))
    && (forall p :: BelowReal(bs, p) && !Real(bs, p) ==> !AboveReal(bs, p))
  }

  // ---------- The tree without an order ----------

  ghost predicate Defines(bs: seq<BuiltModule>, p: Path, n: string, data: DamlData) {
    exists b, d :: b in bs && d in b.definitions && p == b.path + d.prefix && n == d.name && data == d.data
  }

  /** `f` is described by which modules there are, not by their order. */
  ghost predicate Describes(f: FlatTree, bs: seq<BuiltModule>) {
    && (forall p :: p in f <==> p == [] || AboveReal(bs, p) || BelowReal(bs, p))
    && (forall p, b :: p in f && b in bs && b.path == p ==> f[p] == b.Leaf())
    && (forall p :: p in f && !Real(bs, p) ==>
          f[p].(dataTypes := map[]) == EmptyContent(p != [] && !AboveReal(bs, p)))
    && (forall p, n, data :: p in f && !Real(bs, p) ==>
          (Lookup(f, p, n) == Some(data) <==> Defines(bs, p, n, data)))
  }

  lemma DescribesOne(f: FlatTree, g: FlatTree, bs: seq<BuiltModule>, cs: seq<BuiltModule>)
    requires Describes(f, bs) && Describes(g, cs)
    requires forall b :: b in bs <==> b in cs
    ensures f == g
  {
    assert forall p :: AboveReal(bs, p) <==> AboveReal(cs, p);
    assert forall p :: BelowReal(bs, p) <==> BelowReal(cs, p);
    assert forall p :: Real(bs, p) <==> Real(cs, p);
    assert f.Keys == g.Keys;
    forall p | p in f
      ensures f[p] == g[p]
    {
      if Real(bs, p) {
        var b :| b in bs && b.path == p;
        assert f[p] == b.Leaf() == g[p];
      } else {
        SameData(f, g, bs, cs, p);
        assert f[p].(dataTypes := map[]) == g[p].(dataTypes := map[]);
      }
    }
  }

  lemma SameData(f: FlatTree, g: FlatTree, bs: seq<BuiltModule>, cs: seq<BuiltModule>, p: Path)
    requires Describes(f, bs) && Describes(g, cs)
    requires forall b :: b in bs <==> b in cs
    requires p in f && p in g && !Real(bs, p) && !Real(cs, p)
    ensures f[p].dataTypes == g[p].dataTypes
  {
    var a, b := f[p].dataTypes, g[p].dataTypes;
    forall n | n in a
      ensures n in b && b[n] == a[n]
    {
      assert Lookup(f, p, n) == Some(a[n]);
      assert Defines(bs, p, n, a[n]) && Defines(cs, p, n, a[n]);
      assert Lookup(g, p, n) == Some(a[n]);
    }
    forall n | n in b
      ensures n in a
    {
      assert Lookup(g, p, n) == Some(b[n]);
      assert Defines(cs, p, n, b[n]) && Defines(bs, p, n, b[n]);
      assert Lookup(f, p, n) == Some(b[n]);
    }
  }

  // ---------- What the finished tree looks like at one path ----------

  lemma CoversMeans(b: BuiltModule, p: Path)
    ensures Covers(b, p) <==> p <= b.path || (b.path < p && Prefixed(b.definitions, b.path, p))
  {
    if Prefixed(b.definitions, b.path, p) {
      assert b.path < p || b.path == p;
    }
  }

  lemma {:induction false} TreePaths(bs: seq<BuiltModule>, p: Path)
    ensures p in InsertModules(bs) <==> p == [] || AboveReal(bs, p) || BelowReal(bs, p)
  {
    hide InsertModule, Covers, Prefixed;
    if bs != [] {
      var rest, b := bs[..|bs| - 1], bs[|bs| - 1];
      TreePaths(rest, p);
      RootStays(rest);
      InsertModuleCovers(InsertModules(rest), b, p);
      CoversMeans(b, p);
      assert bs == rest + [b];
      assert AboveReal(bs, p) <==> AboveReal(rest, p) || p <= b.path;
      assert BelowReal(bs, p) <==> BelowReal(rest, p) || (b.path < p && Prefixed(b.definitions, b.path, p));
    }
  }

  /** A node that is no real module holds nothing but routed data; whether it is marked synthetic was
      settled when it was created. */
  lemma {:induction false} NotRealContent(bs: seq<BuiltModule>, p: Path, synthetic: bool)
    requires !Real(bs, p) && p in InsertModules(bs)
    requires p == [] ==> !synthetic
    requires if synthetic then !AboveReal(bs, p) else !BelowReal(bs, p)
    ensures InsertModules(bs)[p].(dataTypes := map[]) == EmptyContent(synthetic)
  {
    hide InsertModule, Prefixed, At;
    if bs != [] {
      var rest, b := bs[..|bs| - 1], bs[|bs| - 1];
      assert bs == rest + [b];
      var f := InsertModules(rest);
      RootStays(rest);
      assert b in bs && b.path != p;
      assert forall c :: c in rest ==> c in bs;
      assert synthetic ==> !(p <= b.path);
      if p in f {
        assert if synthetic then !AboveReal(rest, p) else !BelowReal(rest, p);
        NotRealContent(rest, p, synthetic);
      } else {
        InsertModuleCovers(f, b, p);
        CoversMeans(b, p);
      }
      InsertModuleAt(f, b, p);
    }
  }

  lemma NothingRoutedAt(b: BuiltModule, p: Path)
    requires b.path < p
    requires forall d :: d in b.definitions ==> p != b.path + d.prefix
    ensures At(b.definitions, p[|b.path|..]) == map[]
  {
    hide At;
    var r := At(b.definitions, p[|b.path|..]);
    assert p == b.path + p[|b.path|..];
    assert forall n :: n !in r;
  }

  lemma {:induction false} RealContent(bs: seq<BuiltModule>, i: nat)
    requires i < |bs| && DistinctModules(bs) && !RoutedTo(bs, bs[i].path)
    ensures bs[i].path in InsertModules(bs) && InsertModules(bs)[bs[i].path] == bs[i].Leaf()
  {
    hide InsertModule, Prefixed, At;
    var rest, b, p := bs[..|bs| - 1], bs[|bs| - 1], bs[i].path;
    var f := InsertModules(rest);
    RootStays(rest);
    InsertModuleCovers(f, b, p);
    if i < |bs| - 1 {
      assert !RoutedTo(rest, p);
      RealContent(rest, i);
      assert b.path != p && b in bs;
      InsertModuleAt(f, b, p);
      if b.path < p {
        forall d | d in b.definitions
          ensures p != b.path + d.prefix
        {
          SplitPath(b.path, d.prefix);
        }
        NothingRoutedAt(b, p);
        assert b.path < p && f[p].dataTypes + map[] == f[p].dataTypes;
      }
    } else {
      InsertModuleAt(f, b, p);
    }
  }

  lemma LookupDefines(bs: seq<BuiltModule>, p: Path, n: string)
    requires Lookup(InsertModules(bs), p, n).Some?
    ensures Defines(bs, p, n, Lookup(InsertModules(bs), p, n).value)
  {
    hide InsertModules;
    OnlyDefinitionsFound(bs, p, n);
    var i: nat, k: nat :| IsDefinition(bs, i, k) && PathOf(bs, i, k) == p && NameOf(bs, i, k) == n &&
                Lookup(InsertModules(bs), p, n) == Some(DataOf(bs, i, k));
    assert bs[i] in bs && bs[i].definitions[k] in bs[i].definitions;
  }

  lemma DefinedFound(bs: seq<BuiltModule>, p: Path, n: string, data: DamlData)
    requires DistinctData(bs) && !Real(bs, p) && Defines(bs, p, n, data)
    ensures Lookup(InsertModules(bs), p, n) == Some(data)
  {
    hide InsertModules, DistinctData;
    var b, d :| b in bs && d in b.definitions && p == b.path + d.prefix && n == d.name && data == d.data;
    var i :| 0 <= i < |bs| && bs[i] == b;
    var k :| 0 <= k < |b.definitions| && b.definitions[k] == d;
    assert IsDefinition(bs, i, k) && PathOf(bs, i, k) == p;
    DefinitionFound(bs, i, k);
    assert forall j :: 0 <= j < |bs| ==> bs[j] in bs;
  }

  lemma BuiltTreeDescribed(bs: seq<BuiltModule>)
    requires DistinctModules(bs) && DistinctData(bs) && OrderFree(bs)
    ensures Describes(InsertModules(bs), bs)
  {
    hide InsertModules, Prefixed;
    var f := InsertModules(bs);
    forall p
      ensures p in f <==> p == [] || AboveReal(bs, p) || BelowReal(bs, p)
    {
      TreePaths(bs, p);
    }
    forall p, b | p in f && b in bs && b.path == p
      ensures f[p] == b.Leaf()
    {
      var i :| 0 <= i < |bs| && bs[i] == b;
      assert Real(bs, p);
      RealContent(bs, i);
    }
    forall p | p in f && !Real(bs, p)
      ensures f[p].(dataTypes := map[]) == EmptyContent(p != [] && !AboveReal(bs, p))
    {
      assert p == [] ==> !BelowReal(bs, p);
      NotRealContent(bs, p, p != [] && !AboveReal(bs, p));
    }
    forall p, n, data | p in f && !Real(bs, p)
      ensures Lookup(f, p, n) == Some(data) <==> Defines(bs, p, n, data)
    {
      if Lookup(f, p, n).Some? {
        LookupDefines(bs, p, n);
      }
      if Defines(bs, p, n, data) {
        DefinedFound(bs, p, n, data);
      }
    }
  }

  // ---------- Permutations ----------

  lemma PermutedHasSame(bs: seq<BuiltModule>, cs: seq<BuiltModule>)
    requires multiset(bs) == multiset(cs)
    ensures forall b :: b in bs <==> b in cs
    ensures forall p :: Real(bs, p) <==> Real(cs, p)
    ensures forall p :: AboveReal(bs, p) <==> AboveReal(cs, p)
    ensures forall p :: BelowReal(bs, p) <==> BelowReal(cs, p)
    ensures forall p :: RoutedTo(bs, p) <==> RoutedTo(cs, p)
  {
    hide Prefixed;
    assert forall b :: b in bs <==> b in multiset(bs);
    assert forall b :: b in cs <==> b in multiset(cs);
  }

  lemma RepeatedCounts<T>(s: seq<T>, i: nat, j: nat)
    requires i < j < |s| && s[i] == s[j]
    ensures multiset(s)[s[i]] >= 2
  {
    assert s == s[..j] + s[j..];
    assert s[i] in s[..j] && s[j] in s[j..];
    assert multiset(s) == multiset(s[..j]) + multiset(s[j..]);
  }

  /** Takes the first occurrence of `x` out. */
  function Without<T(==)>(s: seq<T>, x: T): (r: seq<T>)
    requires x in s
    ensures multiset([x] + r) == multiset(s) && multiset(r + [x]) == multiset(s)
  {
    if s[0] == x then
      assert s == [x] + s[1..];
      s[1..]
    else
      assert s == [s[0]] + s[1..];
      [s[0]] + Without(s[1..], x)
  }

  lemma RepeatedTwice<T>(s: seq<T>, x: T)
    requires multiset(s)[x] >= 2
    ensures exists i, j :: 0 <= i < j < |s| && s[i] == x && s[j] == x
  {
    assert x in multiset(s) && x in s;
    var i: nat :| i < |s| && s[i] == x;
    var first, rest := s[..i], s[i + 1..];
    assert s == first + [x] + rest;
    assert multiset(s)[x] == multiset(first)[x] + 1 + multiset(rest)[x];
    if x in multiset(first) {
      var k :| 0 <= k < |first| && first[k] == x;
      assert s[k] == x;
    } else {
      assert x in multiset(rest) && x in rest;
      var k :| 0 <= k < |rest| && rest[k] == x;
      assert s[i + 1 + k] == x;
    }
  }

  lemma PermutedDistinct(bs: seq<BuiltModule>, cs: seq<BuiltModule>)
    requires multiset(bs) == multiset(cs) && DistinctModules(bs)
    ensures DistinctModules(cs)
  {
    PermutedHasSame(bs, cs);
    forall i, j | 0 <= i < j < |cs|
      ensures cs[i].path != cs[j].path
    {
      if cs[i] == cs[j] {
        RepeatedCounts(cs, i, j);
        RepeatedTwice(bs, cs[i]);
      } else {
        assert cs[i] in bs && cs[j] in bs;
      }
    }
  }

  lemma PermutedDistinctData(bs: seq<BuiltModule>, cs: seq<BuiltModule>)
    requires multiset(bs) == multiset(cs) && DistinctModules(bs) && DistinctData(bs)
    ensures DistinctData(cs)
  {
    PermutedHasSame(bs, cs);
    PermutedDistinct(bs, cs);
    forall i: nat, k: nat, j: nat, l: nat | IsDefinition(cs, i, k) && IsDefinition(cs, j, l) && (i, k) != (j, l)
      ensures PathOf(cs, i, k) != PathOf(cs, j, l) || NameOf(cs, i, k) != NameOf(cs, j, l)
    {
      assert cs[i] in bs && cs[j] in bs;
      var i' :| 0 <= i' < |bs| && bs[i'] == cs[i];
      var j' :| 0 <= j' < |bs| && bs[j'] == cs[j];
      assert i == j ==> i' == j';
      assert IsDefinition(bs, i', k) && IsDefinition(bs, j', l);
    }
  }

  // ---------- The exact condition ----------

  lemma {:induction false} FlagStays(bs: seq<BuiltModule>, p: Path)
    requires bs != [] && !Real(bs, p) && p in InsertModules(bs[..1])
    ensures p in InsertModules(bs) && InsertModules(bs)[p].synthetic == InsertModules(bs[..1])[p].synthetic
  {
    hide InsertModule, At;
    if |bs| == 1 {
      assert bs[..1] == bs;
    } else {
      var rest, b := bs[..|bs| - 1], bs[|bs| - 1];
      assert rest[..1] == bs[..1];
      assert b in bs && forall c :: c in rest ==> c in bs;
      FlagStays(rest, p);
      RootStays(rest);
      InsertModuleCovers(InsertModules(rest), b, p);
      InsertModuleAt(InsertModules(rest), b, p);
    }
  }

  /** Whichever module creates a node decides whether it is marked synthetic. */
  lemma FirstDecides(b: BuiltModule, rest: seq<BuiltModule>, p: Path)
    requires !Real([b] + rest, p) && p != [] && Covers(b, p)
    ensures p in InsertModules([b] + rest)
    ensures InsertModules([b] + rest)[p].synthetic <==> b.path < p
  {
    hide InsertModule, At, Prefixed;
    var bs := [b] + rest;
    assert bs[..1] == [b] && [b][..0] == [] && b in bs;
    var f := InsertModules([]);
    assert f == map[[] := EmptyContent(false)];
    InsertModuleCovers(f, b, p);
    InsertModuleAt(f, b, p);
    assert InsertModules([b]) == InsertModule(f, b);
    FlagStays(bs, p);
  }

  lemma LaterModuleReplaces(b: BuiltModule, rest: seq<BuiltModule>, k: nat)
    requires DistinctData([b] + rest) && DistinctData(rest + [b]) && k < |b.definitions|
    requires Real(rest, b.path + b.definitions[k].prefix)
    ensures InsertModules([b] + rest) != InsertModules(rest + [b])
  {
    hide InsertModules, DistinctData;
    var xs, ys := [b] + rest, rest + [b];
    var p, n := b.path + b.definitions[k].prefix, b.definitions[k].name;
    var c :| c in rest && c.path == p;
    var j :| 0 <= j < |rest| && rest[j] == c;
    assert xs[j + 1] == c && Overwritten(xs, 0, p);
    assert IsDefinition(xs, 0, k) && PathOf(xs, 0, k) == p;
    DefinitionFound(xs, 0, k);
    assert !Overwritten(ys, |rest|, p);
    assert ys[|rest|] == b && IsDefinition(ys, |rest|, k) && PathOf(ys, |rest|, k) == p;
    DefinitionFound(ys, |rest|, k);
  }

  lemma RoutedIntoRealDepends(bs: seq<BuiltModule>, p: Path) returns (xs: seq<BuiltModule>, ys: seq<BuiltModule>)
    requires DistinctModules(bs) && DistinctData(bs) && Real(bs, p) && RoutedTo(bs, p)
    ensures multiset(xs) == multiset(bs) && multiset(ys) == multiset(bs)
    ensures InsertModules(xs) != InsertModules(ys)
  {
    hide InsertModules, DistinctModules, DistinctData;
    var b, d :| b in bs && d in b.definitions && d.prefix != [] && p == b.path + d.prefix;
    var c :| c in bs && c.path == p;
    SplitPath(b.path, d.prefix);
    var k :| 0 <= k < |b.definitions| && b.definitions[k] == d;
    var rest := Without(bs, b);
    xs, ys := [b] + rest, rest + [b];
    PermutedDistinctData(bs, xs);
    PermutedDistinctData(bs, ys);
    assert c in multiset(xs) && c in xs && c != b;
    LaterModuleReplaces(b, rest, k);
  }

  lemma SyntheticAboveRealDepends(bs: seq<BuiltModule>, p: Path)
    returns (xs: seq<BuiltModule>, ys: seq<BuiltModule>)
    requires BelowReal(bs, p) && !Real(bs, p) && AboveReal(bs, p)
    ensures multiset(xs) == multiset(bs) && multiset(ys) == multiset(bs)
    ensures InsertModules(xs) != InsertModules(ys)
  {
    hide InsertModules, Prefixed, Real;
    var b :| b in bs && b.path < p && Prefixed(b.definitions, b.path, p);
    var c :| c in bs && p <= c.path;
    var rest, others := Without(bs, b), Without(bs, c);
    xs, ys := [b] + rest, [c] + others;
    PermutedHasSame(bs, xs);
    PermutedHasSame(bs, ys);
    assert Covers(b, p) && Covers(c, p) && !(c.path < p);
    FirstDecides(b, rest, p);
    FirstDecides(c, others, p);
  }

  /** The order of the modules does not matter exactly when nothing is routed into a real module and no
      other synthetic node lies above one. */
  lemma OrderDoesNotMatter(bs: seq<BuiltModule>)
    requires DistinctModules(bs) && DistinctData(bs)
    ensures OrderFree(bs)
        <==> forall cs :: multiset(cs) == multiset(bs) ==> InsertModules(cs) == InsertModules(bs)
  {
    hide InsertModules, DistinctModules, DistinctData, Describes;
    if OrderFree(bs) {
      forall cs | multiset(cs) == multiset(bs)
        ensures InsertModules(cs) == InsertModules(bs)
      {
        PermutedHasSame(bs, cs);
        PermutedDistinct(bs, cs);
        PermutedDistinctData(bs, cs);
        BuiltTreeDescribed(bs);
        BuiltTreeDescribed(cs);
        DescribesOne(InsertModules(bs), InsertModules(cs), bs, cs);
      }
    } else if p :| Real(bs, p) && RoutedTo(bs, p) {
      var xs, ys := RoutedIntoRealDepends(bs, p);
    } else {
      var p :| BelowReal(bs, p) && !Real(bs, p) && AboveReal(bs, p);
      var xs, ys := SyntheticAboveRealDepends(bs, p);
    }
  }

  // ---------- Down to the wire ----------

  function RemovedAt<T>(s: seq<T>, i: nat): seq<T>
    requires i < |s|
  {
    s[..i] + s[i + 1..]
  }

  lemma WithoutCounts<T>(s: seq<T>, i: nat)
    requires i < |s|
    ensures multiset(s) == multiset{s[i]} + multiset(RemovedAt(s, i))
  {
    assert s == s[..i] + [s[i]] + s[i + 1..];
  }

  lemma RemovedSplits<T>(s: seq<T>, i: nat)
    requires i < |s|
    ensures i == 0 ==> RemovedAt(s, i) == s[1..]
    ensures i > 0 ==> RemovedAt(s, i) == [s[0]] + RemovedAt(s[1..], i - 1)
    ensures i > 0 ==> RemovedAt(s, i)[0] == s[0] && RemovedAt(s, i)[1..] == RemovedAt(s[1..], i - 1)
  {
    if i > 0 {
      assert s[..i] == [s[0]] + s[1..][..i - 1] && s[1..][i..] == s[i + 1..];
    }
  }

  lemma ConvertTail(ms: seq<Wire.Module>, pkg: Wire.Package)
    requires Wire.Acyclic(pkg) && ms != [] && ConvertModules(ms, pkg).Success?
    ensures ConvertModules(ms[1..], pkg) == Success(ConvertModules(ms, pkg).value[1..])
  {
    hide ConvertModule;
  }

  lemma {:induction false} ConvertWithout(ms: seq<Wire.Module>, pkg: Wire.Package, i: nat)
    requires Wire.Acyclic(pkg) && i < |ms| && ConvertModules(ms, pkg).Success?
    ensures ConvertModules(RemovedAt(ms, i), pkg) == Success(RemovedAt(ConvertModules(ms, pkg).value, i))
  {
    hide ConvertModule, ConvertModules, RemovedAt;
    var built := ConvertModules(ms, pkg).value;
    ConvertTail(ms, pkg);
    RemovedSplits(ms, i);
    RemovedSplits(built, i);
    if i > 0 {
      ConvertWithout(ms[1..], pkg, i - 1);
      ConvertCons(RemovedAt(ms, i), pkg, built[0]);
    }
  }

  /** Permuted wire modules convert to permuted modules. */
  lemma {:induction false} PermutedConverts(ms: seq<Wire.Module>, ns: seq<Wire.Module>, pkg: Wire.Package)
    requires Wire.Acyclic(pkg) && multiset(ms) == multiset(ns) && ConvertModules(ms, pkg).Success?
    ensures ConvertModules(ns, pkg).Success?
    ensures multiset(ConvertModules(ns, pkg).value) == multiset(ConvertModules(ms, pkg).value)
    decreases |ns|
  {
    hide ConvertModule, ConvertModules, RemovedAt;
    if ns == [] {
      assert |multiset(ms)| == |ms| && multiset(ns) == multiset{};
      assert ms == ns;
    } else {
      assert ns[0] in multiset(ms);
      var i: nat :| i < |ms| && ms[i] == ns[0];
      var built := ConvertModules(ms, pkg).value;
      assert ns == [ns[0]] + ns[1..];
      WithoutCounts(ms, i);
      WithoutCounts(built, i);
      assert multiset(ns[1..]) == multiset(ns) - multiset{ns[0]};
      ConvertWithout(ms, pkg, i);
      PermutedConverts(RemovedAt(ms, i), ns[1..], pkg);
      ConvertCons(ns, pkg, built[i]);
    }
  }

  lemma ConvertCons(ms: seq<Wire.Module>, pkg: Wire.Package, b: BuiltModule)
    requires Wire.Acyclic(pkg) && ms != [] && ConvertModule(ms[0], pkg) == Success(b)
    requires ConvertModules(ms[1..], pkg).Success?
    ensures ConvertModules(ms, pkg) == Success([b] + ConvertModules(ms[1..], pkg).value)
  {
    hide ConvertModule;
  }

  /** Every order of the converted modules is that of some order of the wire modules. */
  lemma {:induction false} PermutedFrom(ms: seq<Wire.Module>, cs: seq<BuiltModule>, pkg: Wire.Package)
    returns (ns: seq<Wire.Module>)
    requires Wire.Acyclic(pkg) && ConvertModules(ms, pkg).Success?
    requires multiset(cs) == multiset(ConvertModules(ms, pkg).value)
    ensures multiset(ns) == multiset(ms) && ConvertModules(ns, pkg) == Success(cs)
    decreases |cs|
  {
    hide ConvertModule, ConvertModules, RemovedAt;
    var built := ConvertModules(ms, pkg).value;
    if cs == [] {
      assert |multiset(built)| == |built| == |ms| && multiset(cs) == multiset{};
      assert built == cs;
      ns := ms;
    } else {
      assert cs[0] in multiset(built);
      var i: nat :| i < |built| && built[i] == cs[0];
      assert cs == [cs[0]] + cs[1..];
      WithoutCounts(ms, i);
      WithoutCounts(built, i);
      assert multiset(cs[1..]) == multiset(cs) - multiset{cs[0]};
      ConvertWithout(ms, pkg, i);
      var rest := PermutedFrom(RemovedAt(ms, i), cs[1..], pkg);
      ns := [ms[i]] + rest;
      assert ns[1..] == rest;
      ConvertCons(ns, pkg, cs[0]);
    }
  }

  ghost predicate SameTree(ms: seq<Wire.Module>, ns: seq<Wire.Module>, pkg: Wire.Package)
    requires Wire.Acyclic(pkg) && ConvertModules(ms, pkg).Success?
  {
    && ConvertModules(ns, pkg).Success?
    && InsertModules(ConvertModules(ns, pkg).value) == InsertModules(ConvertModules(ms, pkg).value)
  }

  /** Listing the wire modules of a package in another order builds the same tree, exactly when nothing is
      routed into a real module and no other synthetic node lies above one. */
  lemma WireOrderDoesNotMatter(ms: seq<Wire.Module>, pkg: Wire.Package)
    requires Wire.Acyclic(pkg) && ConvertModules(ms, pkg).Success?
    requires var built := ConvertModules(ms, pkg).value; DistinctModules(built) && DistinctData(built)
    ensures OrderFree(ConvertModules(ms, pkg).value)
        <==> forall ns :: multiset(ns) == multiset(ms) ==> SameTree(ms, ns, pkg)
  {
    hide InsertModules, DistinctModules, DistinctData, OrderFree, ConvertModules, Wire.Acyclic;
    var built := ConvertModules(ms, pkg).value;
    OrderDoesNotMatter(built);
    if OrderFree(built) {
      forall ns | multiset(ns) == multiset(ms)
        ensures SameTree(ms, ns, pkg)
      {
        PermutedConverts(ms, ns, pkg);
        var cs := ConvertModules(ns, pkg).value;
        assert multiset(cs) == multiset(built) && InsertModules(cs) == InsertModules(built);
      }
    } else {
      var cs :| multiset(cs) == multiset(built) && InsertModules(cs) != InsertModules(built);
      var ns := PermutedFrom(ms, cs, pkg);
      assert !SameTree(ms, ns, pkg);
    }
  }
}
