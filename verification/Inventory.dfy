/** What the node of a module holds in the finished tree besides data types: the wire module's synonyms,
    interfaces and exceptions, as they are written there. */
module Inventory {
  import opened Wrappers
  import opened Element
  import opened Interned
  import opened TypeConversion
  import opened Declarations
  import opened Placement
  import opened TypeFidelity
  import opened Fidelity
  import opened Interfaces
  import F = FlatTree
  import Wire

  // ---------- Faithful synonyms, interfaces and exceptions ----------

  ghost predicate SameSynonym(s: Wire.DefTypeSyn, g: DamlDefTypeSyn, mod: int, pkg: Wire.Package)
    requires Wire.Acyclic(pkg)
  {
    SpellsPath(mod, s.name, g.name, pkg) && SameTypeVars(s.params, g.params, pkg) && SameType(s.ty, g.ty, pkg)
  }

  ghost predicate SameSynonyms(ss: seq<Wire.DefTypeSyn>, gs: seq<DamlDefTypeSyn>, mod: int, pkg: Wire.Package)
    requires Wire.Acyclic(pkg)
  {
    |ss| == |gs| && forall i :: 0 <= i < |ss| ==> SameSynonym(ss[i], gs[i], mod, pkg)
  }

  ghost predicate SameMethod(m: Wire.InterfaceMethod, g: DamlInterfaceMethod, pkg: Wire.Package)
    requires Wire.Acyclic(pkg)
  {
    Spells(m.name, g.name, pkg) && SameType(m.ty, g.ty, pkg)
  }

  ghost predicate SameMethods(ms: seq<Wire.InterfaceMethod>, gs: seq<DamlInterfaceMethod>, pkg: Wire.Package)
    requires Wire.Acyclic(pkg)
  {
    |ms| == |gs| && forall i :: 0 <= i < |ms| ==> SameMethod(ms[i], gs[i], pkg)
  }

  ghost predicate SameInterface(d: Wire.DefInterface, g: DamlInterface, mod: int, pkg: Wire.Package)
    requires Wire.Acyclic(pkg)
  {
    && g.packageId == pkg.packageId && SpellsPath(mod, d.tycon, g.modulePath + [g.name], pkg)
    && Spells(d.param, g.param, pkg) && SameMethods(d.methods, g.methods, pkg)
    && SameChoices(d.choices, g.choices, g.modulePath, pkg) && SameType(d.view, g.view, pkg)
    && SameNames(d.requires_, g.required, pkg)
  }

  predicate SameException(d: Wire.DefException, g: DamlException, mod: int, pkg: Wire.Package) {
    g.packageId == pkg.packageId && SpellsPath(mod, d.name, g.modulePath + [g.name], pkg)
  }

  // ---------- Conversion is faithful ----------

  lemma SynonymSame(s: Wire.DefTypeSyn, mod: int, pkg: Wire.Package)
    requires Wire.Acyclic(pkg) && ResolveDotted(mod, pkg).Success? && ResolveDotted(s.name, pkg).Success?
    requires ConvertTypeVars(s.params, pkg).Success? && ConvertType(s.ty, pkg).Success?
    ensures var path := ResolveDotted(mod, pkg).value;
      SameSynonym(s, DamlDefTypeSyn(ConvertTypeVars(s.params, pkg).value, ConvertType(s.ty, pkg).value,
                                    path + ResolveDotted(s.name, pkg).value), mod, pkg)
  {
    hide ConvertType, SameType, ConvertTypeVars, SameTypeVars, Wire.Acyclic, ResolveDotted, SpellsPath;
    PathSpelled(mod, s.name, pkg);
    TypeVarsConverted(s.params, pkg);
    TypeMeans(s.ty, ConvertType(s.ty, pkg).value, pkg);
  }

  lemma {:induction false} SynonymsSame(ss: seq<Wire.DefTypeSyn>, mod: int, pkg: Wire.Package)
    requires Wire.Acyclic(pkg) && ResolveDotted(mod, pkg).Success?
    requires ConvertSynonyms(ss, pkg, ResolveDotted(mod, pkg).value).Success?
    ensures SameSynonyms(ss, ConvertSynonyms(ss, pkg, ResolveDotted(mod, pkg).value).value, mod, pkg)
  {
    hide ConvertType, ConvertTypeVars, SameSynonym, Wire.Acyclic, ResolveDotted;
    if ss != [] {
      SynonymSame(ss[0], mod, pkg);
      SynonymsSame(ss[1..], mod, pkg);
      assert forall i :: 0 < i < |ss| ==> ss[i] == ss[1..][i - 1];
    }
  }

  lemma {:induction false} MethodsSame(ms: seq<Wire.InterfaceMethod>, pkg: Wire.Package)
    requires Wire.Acyclic(pkg) && ConvertMethods(ms, pkg).Success?
    ensures SameMethods(ms, ConvertMethods(ms, pkg).value, pkg)
  {
    hide ConvertType, SameType, ResolveString, Spells, Wire.Acyclic;
    if ms != [] {
      var g := ConvertMethods(ms, pkg).value[0];
      StringMeans(ms[0].name, g.name, pkg);
      TypeMeans(ms[0].ty, g.ty, pkg);
      MethodsSame(ms[1..], pkg);
      assert forall i :: 0 < i < |ms| ==> ms[i] == ms[1..][i - 1];
    }
  }

  lemma SplitSpelled(mod: int, name: int, pkg: Wire.Package, last: string, prefix: Path)
    requires ResolveDotted(mod, pkg).Success? && ResolveDotted(name, pkg).Success?
    requires prefix + [last] == ResolveDotted(name, pkg).value
    ensures SpellsPath(mod, name, ResolveDotted(mod, pkg).value + prefix + [last], pkg)
  {
    hide ResolveDotted, SpellsPath;
    PathSpelled(mod, name, pkg);
    var path := ResolveDotted(mod, pkg).value;
    assert path + prefix + [last] == path + (prefix + [last]);
  }

  lemma InterfaceSame(d: Wire.DefInterface, mod: int, pkg: Wire.Package)
    requires Wire.Acyclic(pkg) && ResolveDotted(mod, pkg).Success?
    requires ConvertInterface(d, pkg, ResolveDotted(mod, pkg).value).Success?
    ensures SameInterface(d, ConvertInterface(d, pkg, ResolveDotted(mod, pkg).value).value, mod, pkg)
  {
    hide ConvertType, SameType, ConvertMethods, SameMethods, ConvertChoices, SameChoices, ConvertQualifiedIds,
      SameNames, ResolveString, Spells, ResolveDotted, SpellsPath, Wire.Acyclic;
    var g := ConvertInterface(d, pkg, ResolveDotted(mod, pkg).value).value;
    var (name, prefix) := SplitLast(ResolveDotted(d.tycon, pkg).value, InternalError).value;
    SplitSpelled(mod, d.tycon, pkg, name, prefix);
    StringMeans(d.param, g.param, pkg);
    MethodsSame(d.methods, pkg);
    ChoicesSame(d.choices, pkg, g.modulePath);
    TypeMeans(d.view, g.view, pkg);
    NamesMean(d.requires_, g.required, pkg);
  }

  lemma ExceptionSame(d: Wire.DefException, mod: int, pkg: Wire.Package)
    requires ResolveDotted(mod, pkg).Success? && ConvertException(d, pkg, ResolveDotted(mod, pkg).value).Success?
    ensures SameException(d, ConvertException(d, pkg, ResolveDotted(mod, pkg).value).value, mod, pkg)
  {
    hide ResolveDotted, SpellsPath;
    var (name, prefix) := SplitLast(ResolveDotted(d.name, pkg).value, InternalError).value;
    SplitSpelled(mod, d.name, pkg, name, prefix);
  }

  // ---------- Kept by name ----------

  /** Of the exceptions with one last segment the last is kept. */
  lemma {:induction false} LastException(es: seq<DamlException>, n: string) returns (l: nat)
    requires n in ExceptionsByName(es)
    ensures l < |es| && ExceptionsByName(es)[n] == es[l] && es[l].name == n
    ensures forall k :: l < k < |es| ==> es[k].name != n
  {
    if es[|es| - 1].name == n {
      l := |es| - 1;
    } else {
      l := LastException(es[..|es| - 1], n);
    }
  }

  lemma {:induction false} ExceptionNamed(es: seq<DamlException>, j: nat)
    requires j < |es|
    ensures es[j].name in ExceptionsByName(es)
  {
    if j < |es| - 1 {
      ExceptionNamed(es[..|es| - 1], j);
    }
  }

  lemma {:induction false} ExceptionsConverted(es: seq<Wire.DefException>, pkg: Wire.Package, path: Path)
    requires ConvertExceptions(es, pkg, path).Success?
    ensures |ConvertExceptions(es, pkg, path).value| == |es|
    ensures forall j :: 0 <= j < |es| ==>
      ConvertException(es[j], pkg, path) == Success(ConvertExceptions(es, pkg, path).value[j])
  {
    hide ConvertException;
    if es != [] {
      ExceptionsConverted(es[1..], pkg, path);
      assert forall j :: 0 < j < |es| ==> es[j] == es[1..][j - 1];
    }
  }

  /** `n` is the last segment of the dotted name at `index`. */
  predicate EndsIn(index: int, n: string, pkg: Wire.Package) {
    && 0 <= index < |pkg.dottedNames| && pkg.dottedNames[index] != []
    && Spells(pkg.dottedNames[index][|pkg.dottedNames[index]| - 1], n, pkg)
  }

  /** Interface `j` is the last of its module whose name ends in `n`. */
  ghost predicate LastInterface(ds: seq<Wire.DefInterface>, j: int, n: string, pkg: Wire.Package) {
    && 0 <= j < |ds| && EndsIn(ds[j].tycon, n, pkg)
    && forall l :: j < l < |ds| ==> !EndsIn(ds[l].tycon, n, pkg)
  }

  ghost predicate LastExceptionOf(ds: seq<Wire.DefException>, j: int, n: string, pkg: Wire.Package) {
    && 0 <= j < |ds| && EndsIn(ds[j].name, n, pkg)
    && forall l :: j < l < |ds| ==> !EndsIn(ds[l].name, n, pkg)
  }

  lemma SegmentEnds(index: int, n: string, pkg: Wire.Package)
    requires ResolveDotted(index, pkg).Success? && ResolveDotted(index, pkg).value != []
    ensures var path := ResolveDotted(index, pkg).value; path[|path| - 1] == n <==> EndsIn(index, n, pkg)
  {
    hide ResolveDotted, SpellsAll;
    var path := ResolveDotted(index, pkg).value;
    DottedMeans(index, path, pkg);
    SpelledAt(pkg.dottedNames[index], path, |path| - 1, pkg);
  }

  lemma SpelledAt(indices: seq<int>, path: Path, i: nat, pkg: Wire.Package)
    requires SpellsAll(indices, path, pkg) && i < |path|
    ensures |indices| == |path| && Spells(indices[i], path[i], pkg)
  {
  }

  // ---------- In the tree ----------

  /** Apart from data types, a node holds what the last module installed at its path brought. */
  lemma {:induction false} NodeOfModule(bs: seq<BuiltModule>, i: nat)
    requires i < |bs| && !Overwritten(bs, i, bs[i].path)
    ensures bs[i].path in F.InsertModules(bs)
    ensures F.InsertModules(bs)[bs[i].path].(dataTypes := map[]) == bs[i].Leaf().(dataTypes := map[])
  {
    hide F.InsertModule, Direct, At;
    var rest, b, p := bs[..|bs| - 1], bs[|bs| - 1], bs[i].path;
    ModulePathStays(bs, i);
    RootStays(rest);
    InsertModuleAt(F.InsertModules(rest), b, p);
    if i < |bs| - 1 {
      assert b.path != p;
      assert !Overwritten(rest, i, p);
      NodeOfModule(rest, i);
    }
  }

  /** Whatever is at the node of module `i` unless a later module is installed at its path: an ordinary module
      with the wire module's synonyms in order, and under every name the last interface, and the last exception,
      of the wire module that ends in that name. */
  ghost predicate HoldsModule(c: ModuleContent, m: Wire.Module, pkg: Wire.Package)
    requires Wire.Acyclic(pkg)
  {
    && !c.synthetic && c.flags == DamlFeatureFlags(true, true, true)
    && SameSynonyms(m.synonyms, c.synonyms, m.name, pkg)
    && (forall n :: n in c.interfaces <==> exists j :: LastInterface(m.interfaces, j, n, pkg))
    && (forall n, j :: n in c.interfaces && LastInterface(m.interfaces, j, n, pkg) ==>
          SameInterface(m.interfaces[j], c.interfaces[n], m.name, pkg))
    && (forall n :: n in c.exceptions <==> exists j :: LastExceptionOf(m.exceptions, j, n, pkg))
    && (forall n, j :: n in c.exceptions && LastExceptionOf(m.exceptions, j, n, pkg) ==>
          SameException(m.exceptions[j], c.exceptions[n], m.name, pkg))
  }

  lemma InterfacesHeld(ds: seq<Wire.DefInterface>, mod: int, pkg: Wire.Package)
    requires Wire.Acyclic(pkg) && ResolveDotted(mod, pkg).Success?
    requires ConvertInterfaces(ds, pkg, ResolveDotted(mod, pkg).value).Success?
    ensures var held := InterfacesByName(ConvertInterfaces(ds, pkg, ResolveDotted(mod, pkg).value).value);
      && (forall n :: n in held <==> exists j :: LastInterface(ds, j, n, pkg))
      && (forall n, j :: n in held && LastInterface(ds, j, n, pkg) ==> SameInterface(ds[j], held[n], mod, pkg))
  {
    hide ConvertInterface, ConvertInterfaces, InterfacesByName, ResolveDotted, SameInterface, EndsIn, Wire.Acyclic;
    var path := ResolveDotted(mod, pkg).value;
    var gs := ConvertInterfaces(ds, pkg, path).value;
    var held := InterfacesByName(gs);
    SameCount(ds, pkg, path);
    forall j: nat, n | j < |ds|
      ensures gs[j].name == n <==> EndsIn(ds[j].tycon, n, pkg)
    {
      InterfaceEnds(ds[j], pkg, path, n);
    }
    forall n | n in held
      ensures exists j :: LastInterface(ds, j, n, pkg)
    {
      var l := LastNamed(gs, n);
      assert LastInterface(ds, l, n, pkg);
    }
    forall n, j | LastInterface(ds, j, n, pkg)
      ensures n in held && SameInterface(ds[j], held[n], mod, pkg)
    {
      AllNamed(gs, j);
      var l := LastNamed(gs, n);
      assert l == j;
      InterfaceSame(ds[j], mod, pkg);
    }
  }

  lemma InterfaceEnds(d: Wire.DefInterface, pkg: Wire.Package, path: Path, n: string)
    requires Wire.Acyclic(pkg) && ConvertInterface(d, pkg, path).Success?
    ensures ConvertInterface(d, pkg, path).value.name == n <==> EndsIn(d.tycon, n, pkg)
  {
    hide ConvertMethods, ConvertChoices, ConvertType, ConvertQualifiedIds, ResolveDotted, EndsIn, Wire.Acyclic;
    SegmentEnds(d.tycon, n, pkg);
  }

  lemma ExceptionsHeld(ds: seq<Wire.DefException>, mod: int, pkg: Wire.Package)
    requires ResolveDotted(mod, pkg).Success?
    requires ConvertExceptions(ds, pkg, ResolveDotted(mod, pkg).value).Success?
    ensures var held := ExceptionsByName(ConvertExceptions(ds, pkg, ResolveDotted(mod, pkg).value).value);
      && (forall n :: n in held <==> exists j :: LastExceptionOf(ds, j, n, pkg))
      && (forall n, j :: n in held && LastExceptionOf(ds, j, n, pkg) ==> SameException(ds[j], held[n], mod, pkg))
  {
    hide ConvertException, ConvertExceptions, ExceptionsByName, ResolveDotted, SameException, EndsIn;
    var path := ResolveDotted(mod, pkg).value;
    var gs := ConvertExceptions(ds, pkg, path).value;
    var held := ExceptionsByName(gs);
    ExceptionsConverted(ds, pkg, path);
    forall j: nat, n | j < |ds|
      ensures gs[j].name == n <==> EndsIn(ds[j].name, n, pkg)
    {
      ExceptionEnds(ds[j], pkg, path, n);
    }
    forall n | n in held
      ensures exists j :: LastExceptionOf(ds, j, n, pkg)
    {
      var l := LastException(gs, n);
      assert LastExceptionOf(ds, l, n, pkg);
    }
    forall n, j | LastExceptionOf(ds, j, n, pkg)
      ensures n in held && SameException(ds[j], held[n], mod, pkg)
    {
      ExceptionNamed(gs, j);
      var l := LastException(gs, n);
      assert l == j;
      ExceptionSame(ds[j], mod, pkg);
    }
  }

  lemma ExceptionEnds(d: Wire.DefException, pkg: Wire.Package, path: Path, n: string)
    requires ConvertException(d, pkg, path).Success?
    ensures ConvertException(d, pkg, path).value.name == n <==> EndsIn(d.name, n, pkg)
  {
    hide ResolveDotted, EndsIn;
    SegmentEnds(d.name, n, pkg);
  }

  /** Every wire module is found at its own path with its synonyms, interfaces and exceptions as written, unless
      a later module is installed there. */
  lemma WireModuleFound(pkg: Wire.Package, i: nat)
    requires Wire.Acyclic(pkg) && ConvertModules(pkg.modules, pkg).Success? && i < |pkg.modules|
    ensures var built := ConvertModules(pkg.modules, pkg).value;
      && SpellsDotted(pkg.modules[i].name, built[i].path, pkg)
      && (!Overwritten(built, i, built[i].path) ==>
            var f := F.InsertModules(built);
            built[i].path in f && HoldsModule(f[built[i].path], pkg.modules[i], pkg))
  {
    hide ConvertModules, F.InsertModules, ConvertInterfaces, ConvertSynonyms, ConvertExceptions, ConvertDataTypes,
      ResolveDotted, SpellsDotted, SameSynonyms, LastInterface, LastExceptionOf, SameInterface, SameException, Direct,
      InterfacesByName, ExceptionsByName, Wire.Acyclic;
    var m, built := pkg.modules[i], ConvertModules(pkg.modules, pkg).value;
    assert ConvertModule(m, pkg) == Success(built[i]);
    DottedMeans(m.name, built[i].path, pkg);
    SynonymsSame(m.synonyms, m.name, pkg);
    InterfacesHeld(m.interfaces, m.name, pkg);
    ExceptionsHeld(m.exceptions, m.name, pkg);
    if !Overwritten(built, i, built[i].path) {
      NodeOfModule(built, i);
      var c, b := F.InsertModules(built)[built[i].path], built[i];
      var bare := c.(dataTypes := map[]);
      assert bare.synonyms == b.synonyms && bare.interfaces == b.interfaces && bare.exceptions == b.exceptions;
      assert !c.synthetic && c.flags == DamlFeatureFlags(true, true, true);
      assert SameSynonyms(m.synonyms, c.synonyms, m.name, pkg);
      assert c.interfaces == InterfacesByName(ConvertInterfaces(m.interfaces, pkg, b.path).value);
      assert c.exceptions == ExceptionsByName(ConvertExceptions(m.exceptions, pkg, b.path).value);
      assert b.path == ResolveDotted(m.name, pkg).value;
    }
  }

  ghost predicate AllFlags(c: ModuleContent) {
    c.flags == DamlFeatureFlags(true, true, true)
  }

  ghost predicate OnlyData(c: ModuleContent) {
    c.synonyms == [] && c.interfaces == map[] && c.exceptions == map[]
  }

  /** What inserting a module does to the flags and the rest of a node. */
  lemma InsertedRest(f: F.FlatTree, b: BuiltModule, p: Path)
    requires b.flags == DamlFeatureFlags(true, true, true)
    ensures (p in f ==> AllFlags(f[p])) ==> AllFlags(Inserted(f, b, p))
    ensures b.path != p && (p in f ==> OnlyData(f[p])) ==> OnlyData(Inserted(f, b, p))
  {
    hide At, Direct;
  }

  /** A node no module is installed at holds data types and nothing else, and all feature flags are set
      everywhere. */
  lemma {:induction false} OtherNodes(bs: seq<BuiltModule>, p: Path)
    requires p in F.InsertModules(bs) && forall b :: b in bs ==> b.flags == DamlFeatureFlags(true, true, true)
    ensures AllFlags(F.InsertModules(bs)[p])
    ensures (forall b :: b in bs ==> b.path != p) ==> OnlyData(F.InsertModules(bs)[p])
  {
    hide F.InsertModule, Inserted, AllFlags, OnlyData;
    if bs == [] {
      NothingAtRoot(bs, p);
    } else {
      var rest, b := bs[..|bs| - 1], bs[|bs| - 1];
      assert b in bs && forall x :: x in rest ==> x in bs;
      RootStays(rest);
      InsertModuleAt(F.InsertModules(rest), b, p);
      if p in F.InsertModules(rest) {
        OtherNodes(rest, p);
      }
      InsertedRest(F.InsertModules(rest), b, p);
    }
  }

  lemma NothingAtRoot(bs: seq<BuiltModule>, p: Path)
    requires bs == [] && p in F.InsertModules(bs)
    ensures AllFlags(F.InsertModules(bs)[p]) && OnlyData(F.InsertModules(bs)[p])
  {
  }
}
