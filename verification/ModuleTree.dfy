/** The mutable module tree the converter builds by walking a cursor, proved against `FlatTree`. */
module ModuleTree {
  import opened Wrappers
  import opened Element
  import opened Interned
  import opened Declarations
  import F = FlatTree
  import Wire

  class DamlModule {
    const path: Path
    var flags: DamlFeatureFlags
    var synonyms: seq<DamlDefTypeSyn>
    var childModules: map<string, DamlModule>
    var dataTypes: map<string, DamlData>
    var interfaces: map<string, DamlInterface>
    var exceptions: map<string, DamlException>
    var synthetic: bool

    constructor NewEmpty(path: Path, synthetic: bool)
      ensures this.path == path && childModules == map[]
      ensures Content() == F.EmptyContent(synthetic)
    {
      this.path := path;
      flags := DamlFeatureFlags(true, true, true);
      synonyms, childModules, dataTypes, interfaces, exceptions := [], map[], map[], map[], map[];
      this.synthetic := synthetic;
    }

    constructor NewLeaf(
      path: Path, flags: DamlFeatureFlags, synonyms: seq<DamlDefTypeSyn>, dataTypes: map<string, DamlData>,
      interfaces: map<string, DamlInterface>, exceptions: map<string, DamlException>)
      ensures this.path == path && childModules == map[]
      ensures Content() == ModuleContent(flags, synonyms, dataTypes, interfaces, exceptions, false)
    {
      this.path, this.flags, this.synonyms := path, flags, synonyms;
      this.dataTypes, this.interfaces, this.exceptions := dataTypes, interfaces, exceptions;
      childModules, synthetic := map[], false;
    }

    function Content(): ModuleContent
      reads this
    {
      ModuleContent(flags, synonyms, dataTypes, interfaces, exceptions, synthetic)
    }

    method ChildModuleOrNew(name: string) returns (child: DamlModule)
      modifies this`childModules
      ensures childModules == old(childModules)[name := child]
      ensures name in old(childModules) ==> child == old(childModules)[name]
      ensures name !in old(childModules) ==>
        fresh(child) && child.path == path + [name] && child.childModules == map[] &&
        child.Content() == F.EmptyContent(false)
    {
      if name !in childModules {
        var created := new DamlModule.NewEmpty(path + [name], false);
        childModules := childModules[name := created];
      }
      child := childModules[name];
    }

    method SyntheticChildOrNew(name: string) returns (child: DamlModule)
      modifies this`childModules
      ensures childModules == old(childModules)[name := child]
      ensures name in old(childModules) ==> child == old(childModules)[name]
      ensures name !in old(childModules) ==>
        fresh(child) && child.path == path + [name] && child.childModules == map[] &&
        child.Content() == F.EmptyContent(true)
    {
      if name !in childModules {
        var created := new DamlModule.NewEmpty(path + [name], true);
        childModules := childModules[name := created];
      }
      child := childModules[name];
    }

    method InsertDataType(name: string, data: DamlData)
      modifies this`dataTypes
      ensures dataTypes == old(dataTypes)[name := data]
    {
      dataTypes := dataTypes[name := data];
    }

    /** Replaces everything but the children. The callers keep the two paths equal. */
    method TakeFrom(other: DamlModule)
      requires path == other.path
      modifies this
      ensures Content() == old(other.Content()).(synthetic := false)
      ensures childModules == old(childModules)
    {
      flags := other.flags;
      dataTypes := other.dataTypes;
      synonyms := other.synonyms;
      interfaces := other.interfaces;
      exceptions := other.exceptions;
      synthetic := false;
    }
  }

  // ---------- The tree as a whole ----------

  type Index = map<Path, DamlModule>
  type Links = map<Path, map<string, DamlModule>>

  /** `nodes` lists exactly the nodes reachable from `root` over `links`, each at its own path: a node's
      path is its parent's path followed by the key it hangs under. */
  ghost predicate Linked(root: DamlModule, nodes: Index, links: Links) {
    && links.Keys == nodes.Keys
    && [] in nodes && nodes[[]] == root
    && (forall p :: p in nodes ==> nodes[p].path == p)
    && (forall p, k :: p in nodes && k in links[p] ==> p + [k] in nodes && links[p][k] == nodes[p + [k]])
    && (forall p, k :: p + [k] in nodes ==> p in nodes && k in links[p])
  }

  ghost function Children(nodes: Index): Links
    reads nodes.Values
  {
    map p | p in nodes :: nodes[p].childModules
  }

  ghost predicate Indexes(root: DamlModule, nodes: Index)
    reads nodes.Values
  {
    Linked(root, nodes, Children(nodes))
  }

  ghost function View(nodes: Index): F.FlatTree
    reads nodes.Values
  {
    map p | p in nodes :: nodes[p].Content()
  }

  /** An index only ever grows. */
  ghost predicate Extends(before: Index, after: Index) {
    forall p :: p in before ==> p in after && after[p] == before[p]
  }

  lemma AddedChildLinked(root: DamlModule, nodes: Index, links: Links, at: Path, name: string, child: DamlModule)
    requires Linked(root, nodes, links) && at in nodes && at + [name] !in nodes
    requires child.path == at + [name]
    ensures Linked(root, nodes[at + [name] := child], links[at := links[at][name := child]][at + [name] := map[]])
  {
    var next := at + [name];
    var nodes', links' := nodes[next := child], links[at := links[at][name := child]][next := map[]];
    forall p, k | p + [k] in nodes'
      ensures p in nodes' && k in links'[p]
    {
      SameStep(p, k, at, name);
    }
    forall p, k | p in nodes' && k in links'[p]
      ensures p + [k] in nodes' && links'[p][k] == nodes'[p + [k]]
    {
      SameStep(p, k, at, name);
    }
  }

  lemma SameStep(p: Path, k: string, at: Path, name: string)
    ensures p + [k] == at + [name] <==> p == at && k == name
  {
    assert (p + [k])[..|p + [k]| - 1] == p && (at + [name])[..|at + [name]| - 1] == at;
    assert (p + [k])[|p|] == k && (at + [name])[|at|] == name;
  }

  lemma SameChildren(nodes: Index, links: Links)
    requires links.Keys == nodes.Keys
    requires forall p :: p in nodes ==> nodes[p].childModules == links[p]
    ensures Children(nodes) == links
  {
  }

  lemma SameView(nodes: Index, view: F.FlatTree)
    requires view.Keys == nodes.Keys
    requires forall p :: p in nodes ==> nodes[p].Content() == view[p]
    ensures View(nodes) == view
  {
  }

  lemma IndexFacts(root: DamlModule, nodes: Index)
    requires Indexes(root, nodes)
    ensures [] in nodes && nodes[[]] == root
    ensures forall p :: p in nodes ==> nodes[p].path == p
  {
  }

  lemma ChildFacts(root: DamlModule, nodes: Index, links: Links, at: Path, name: string)
    requires Linked(root, nodes, links) && at in nodes
    ensures links.Keys == nodes.Keys && nodes[at].path == at
    ensures name in links[at] <==> at + [name] in nodes
    ensures name in links[at] ==> links[at][name] == nodes[at + [name]]
  {
  }

  /** The tree after a new child was hung under the node at `at`; `links` and `view` describe it before. */
  lemma NewChildIndexed(
    root: DamlModule, nodes: Index, links: Links, view: F.FlatTree, at: Path, name: string, child: DamlModule)
    requires Linked(root, nodes, links) && view.Keys == nodes.Keys && at in nodes && name !in links[at]
    requires forall p :: p in nodes ==> nodes[p].Content() == view[p]
    requires forall p :: p in nodes && p != at ==> nodes[p].childModules == links[p]
    requires nodes[at].childModules == links[at][name := child]
    requires child.path == at + [name] && child.childModules == map[]
    ensures at + [name] !in nodes
    ensures Indexes(root, nodes[at + [name] := child])
    ensures View(nodes[at + [name] := child]) == view[at + [name] := child.Content()]
  {
    hide Linked;
    var next := at + [name];
    ChildFacts(root, nodes, links, at, name);
    AddedChildLinked(root, nodes, links, at, name, child);
    SameChildren(nodes[next := child], links[at := links[at][name := child]][next := map[]]);
    SameView(nodes[next := child], view[next := child.Content()]);
  }

  /** One step of the cursor: into the child `name`, created if missing. */
  method Step(root: DamlModule, here: DamlModule, ghost at: Path, name: string, synthetic: bool, ghost nodes: Index)
    returns (cursor: DamlModule, ghost nodes': Index)
    requires Indexes(root, nodes) && at in nodes && nodes[at] == here
    modifies nodes.Values
    ensures Indexes(root, nodes') && Extends(nodes, nodes')
    ensures forall p :: p in nodes' && p !in nodes ==> fresh(nodes'[p])
    ensures at + [name] in nodes' && nodes'[at + [name]] == cursor
    ensures View(nodes') ==
            if at + [name] in nodes then old(View(nodes))
            else old(View(nodes))[at + [name] := F.EmptyContent(synthetic)]
  {
    hide Linked;
    ghost var links, view := Children(nodes), View(nodes);
    IndexFacts(root, nodes);
    ChildFacts(root, nodes, links, at, name);
    if synthetic {
      cursor := here.SyntheticChildOrNew(name);
    } else {
      cursor := here.ChildModuleOrNew(name);
    }
    forall p | p in nodes
      ensures nodes[p].Content() == view[p] && (p != at ==> nodes[p].childModules == links[p])
    {
    }
    if name in links[at] {
      nodes' := nodes;
      assert here.childModules == links[at];
      SameChildren(nodes, links);
      SameView(nodes, view);
    } else {
      nodes' := nodes[at + [name] := cursor];
      NewChildIndexed(root, nodes, links, view, at, name, cursor);
    }
  }

  lemma DescendFrom(f: F.FlatTree, at: Path, rest: Path, i: nat, synthetic: bool)
    requires i < |rest|
    ensures at + rest[..i + 1] == at + rest[..i] + [rest[i]]
    ensures F.Descend(f, at + rest[..i], rest[i..], synthetic) ==
            F.Descend(
              if at + rest[..i + 1] in f then f else f[at + rest[..i + 1] := F.EmptyContent(synthetic)],
              at + rest[..i + 1], rest[i + 1..], synthetic)
  {
    assert at + rest[..i + 1] == at + rest[..i] + [rest[i]];
    assert rest[i..][0] == rest[i] && rest[i..][1..] == rest[i + 1..];
  }

  /** Moves the cursor from `at` down `rest`, creating missing nodes, synthetic ones on request. */
  method Walk(root: DamlModule, start: DamlModule, ghost at: Path, rest: Path, synthetic: bool, ghost nodes: Index)
    returns (cursor: DamlModule, ghost nodes': Index)
    requires Indexes(root, nodes) && at in nodes && nodes[at] == start
    modifies nodes.Values
    ensures Indexes(root, nodes') && Extends(nodes, nodes')
    ensures forall p :: p in nodes' && p !in nodes ==> fresh(nodes'[p])
    ensures at + rest in nodes' && nodes'[at + rest] == cursor
    ensures View(nodes') == F.Descend(old(View(nodes)), at, rest, synthetic)
  {
    hide Linked, F.Descend;
    cursor, nodes' := start, nodes;
    ghost var target := F.Descend(View(nodes), at, rest, synthetic);
    assert at + rest[..0] == at && rest[0..] == rest;
    for i := 0 to |rest|
      invariant Indexes(root, nodes') && Extends(nodes, nodes')
      invariant forall p :: p in nodes' && p !in nodes ==> fresh(nodes'[p])
      invariant at + rest[..i] in nodes' && nodes'[at + rest[..i]] == cursor
      invariant F.Descend(View(nodes'), at + rest[..i], rest[i..], synthetic) == target
    {
      DescendFrom(View(nodes'), at, rest, i, synthetic);
      cursor, nodes' := Step(root, cursor, at + rest[..i], rest[i], synthetic, nodes');
    }
    assert rest[..|rest|] == rest && rest[|rest|..] == [];
    NothingLeft(View(nodes'), at + rest, synthetic);
  }

  lemma NothingLeft(f: F.FlatTree, base: Path, synthetic: bool)
    ensures F.Descend(f, base, [], synthetic) == f
  {
  }

  // ---------- Converting one module's declarations ----------

  /** What a loop has collected, followed by the outcome of what is left. */
  ghost function Then<T>(done: seq<T>, left: ConvertResult<seq<T>>): ConvertResult<seq<T>> {
    match left
    case Failure(e) => Failure(e)
    case Success(rest) => Success(done + rest)
  }

  lemma ThenNil<T>(xs: seq<T>, left: ConvertResult<seq<T>>)
    ensures Then([], left) == left && Then(xs, Success([])) == Success(xs)
  {
    assert xs + [] == xs;
    if left.Success? {
      assert [] + left.value == left.value;
    }
  }

  lemma ThenThen<T>(done: seq<T>, built: seq<T>, left: ConvertResult<seq<T>>)
    ensures Then(done, Then(built, left)) == Then(done + built, left)
  {
    if left.Success? {
      assert done + (built + left.value) == (done + built) + left.value;
    }
  }

  /** Splits converted data into what the module holds itself and what is routed to synthetic children. */
  method BuildDataTypes(m: Wire.Module, pkg: Wire.Package, path: Path)
    returns (r: ConvertResult<(map<string, DamlData>, seq<Definition>)>)
    requires Wire.Acyclic(pkg)
    ensures r ==
            match ConvertDataTypes(m.dataTypes, pkg, path, TemplateByTycon(m.templates))
            case Failure(e) => Failure(e)
            case Success(defs) => Success((Direct(defs), Nested(defs)))
  {
    hide ConvertDataType, BuildDataType, Direct, Nested, Wire.Acyclic;
    var templates := TemplateByTycon(m.templates);
    var direct: map<string, DamlData>, nested: seq<Definition> := map[], [];
    ghost var defs: seq<Definition> := [];
    ghost var all := ConvertDataTypes(m.dataTypes, pkg, path, templates);
    assert m.dataTypes[0..] == m.dataTypes;
    ThenNil([], all);
    SplitNil();
    for i := 0 to |m.dataTypes|
      invariant direct == Direct(defs) && nested == Nested(defs)
      invariant all == Then(defs, ConvertDataTypes(m.dataTypes[i..], pkg, path, templates))
    {
      assert m.dataTypes[i..][1..] == m.dataTypes[i + 1..];
      var built :- ConvertDataType(m.dataTypes[i], pkg, path, templates);
      assert built == [] || built == [built[0]];
      assert defs + [] == defs;
      if built != [] {
        SplitSnoc(defs, built[0]);
        if built[0].prefix == [] {
          direct := direct[built[0].name := built[0].data];
        } else {
          nested := nested + [built[0]];
        }
      }
      ThenThen(defs, built, ConvertDataTypes(m.dataTypes[i + 1..], pkg, path, templates));
      defs := defs + built;
    }
    ThenNil(defs, all);
    r := Success((direct, nested));
  }

  lemma SplitNil()
    ensures Direct([]) == map[] && Nested([]) == []
  {
  }

  lemma SplitSnoc(defs: seq<Definition>, d: Definition)
    ensures Direct(defs + [d]) == if d.prefix == [] then Direct(defs)[d.name := d.data] else Direct(defs)
    ensures Nested(defs + [d]) == if d.prefix == [] then Nested(defs) else Nested(defs) + [d]
  {
    assert (defs + [d])[..|defs|] == defs;
  }

  method BuildInterfaces(ifaces: seq<Wire.DefInterface>, pkg: Wire.Package, path: Path)
    returns (r: ConvertResult<map<string, DamlInterface>>)
    requires Wire.Acyclic(pkg)
    ensures r ==
            match ConvertInterfaces(ifaces, pkg, path)
            case Failure(e) => Failure(e)
            case Success(list) => Success(InterfacesByName(list))
  {
    var out: map<string, DamlInterface> := map[];
    ghost var done: seq<DamlInterface> := [];
    ghost var all := ConvertInterfaces(ifaces, pkg, path);
    assert ifaces[0..] == ifaces;
    ThenNil([], all);
    for i := 0 to |ifaces|
      invariant out == InterfacesByName(done)
      invariant all == Then(done, ConvertInterfaces(ifaces[i..], pkg, path))
    {
      assert ifaces[i..][1..] == ifaces[i + 1..];
      var built :- ConvertInterface(ifaces[i], pkg, path);
      out := out[built.name := built];
      assert (done + [built])[..|done|] == done;
      ThenThen(done, [built], ConvertInterfaces(ifaces[i + 1..], pkg, path));
      done := done + [built];
    }
    ThenNil(done, all);
    r := Success(out);
  }

  method BuildExceptions(es: seq<Wire.DefException>, pkg: Wire.Package, path: Path)
    returns (r: ConvertResult<map<string, DamlException>>)
    ensures r ==
            match ConvertExceptions(es, pkg, path)
            case Failure(e) => Failure(e)
            case Success(list) => Success(ExceptionsByName(list))
  {
    var out: map<string, DamlException> := map[];
    ghost var done: seq<DamlException> := [];
    ghost var all := ConvertExceptions(es, pkg, path);
    assert es[0..] == es;
    ThenNil([], all);
    for i := 0 to |es|
      invariant out == ExceptionsByName(done)
      invariant all == Then(done, ConvertExceptions(es[i..], pkg, path))
    {
      assert es[i..][1..] == es[i + 1..];
      var built :- ConvertException(es[i], pkg, path);
      out := out[built.name := built];
      assert (done + [built])[..|done|] == done;
      ThenThen(done, [built], ConvertExceptions(es[i + 1..], pkg, path));
      done := done + [built];
    }
    ThenNil(done, all);
    r := Success(out);
  }

  // ---------- Building the tree ----------

  /** Overwriting the content of the node at `at`, and nothing else. */
  lemma ContentChanged(
    root: DamlModule, nodes: Index, links: Links, view: F.FlatTree, at: Path, content: ModuleContent)
    requires Linked(root, nodes, links) && view.Keys == nodes.Keys && at in nodes
    requires forall p :: p in nodes ==> nodes[p].childModules == links[p]
    requires forall p :: p in nodes && p != at ==> nodes[p].Content() == view[p]
    requires nodes[at].Content() == content
    ensures Indexes(root, nodes) && View(nodes) == view[at := content]
  {
    SameChildren(nodes, links);
    SameView(nodes, view[at := content]);
  }

  method Install(root: DamlModule, cursor: DamlModule, leaf: DamlModule, ghost path: Path, ghost nodes: Index)
    requires Indexes(root, nodes) && path in nodes && nodes[path] == cursor
    requires leaf.path == path && leaf !in nodes.Values && !leaf.synthetic
    modifies nodes.Values
    ensures Indexes(root, nodes)
    ensures View(nodes) == old(View(nodes))[path := old(leaf.Content())]
  {
    hide Linked;
    ghost var links, view := Children(nodes), View(nodes);
    IndexFacts(root, nodes);
    cursor.TakeFrom(leaf);
    ContentChanged(root, nodes, links, view, path, cursor.Content());
  }

  method Route(root: DamlModule, cursor: DamlModule, ghost path: Path, d: Definition, ghost nodes: Index)
    returns (ghost nodes': Index)
    requires Indexes(root, nodes) && path in nodes && nodes[path] == cursor
    modifies nodes.Values
    ensures Indexes(root, nodes') && Extends(nodes, nodes')
    ensures forall p :: p in nodes' && p !in nodes ==> fresh(nodes'[p])
    ensures View(nodes') == F.Route(old(View(nodes)), path, d)
  {
    hide Linked, F.Descend;
    var target;
    target, nodes' := Walk(root, cursor, path, d.prefix, true, nodes);
    ghost var links, view := Children(nodes'), View(nodes');
    IndexFacts(root, nodes');
    target.InsertDataType(d.name, d.data);
    ContentChanged(root, nodes', links, view, path + d.prefix, target.Content());
  }

  /** Checks the flags and converts the declarations, in the order that fixes which error is reported. */
  method BuildLeaf(m: Wire.Module, pkg: Wire.Package, path: Path)
    returns (r: ConvertResult<DamlModule>, nested: seq<Definition>)
    requires Wire.Acyclic(pkg)
    ensures match ConvertModuleAt(m, pkg, path)
            case Failure(e) => r == Failure(e)
            case Success(built) =>
              && r.Success? && fresh(r.value) && r.value.path == path
              && r.value.Content() == built.Leaf() && nested == Nested(built.definitions)
  {
    hide ConvertDataTypes, ConvertSynonyms, ConvertInterfaces, ConvertExceptions, TemplateByTycon, Direct, Nested,
      InterfacesByName, ExceptionsByName, Wire.Acyclic;
    nested := [];
    if !FlagsAccepted(m.flags) {
      return Failure(UnsupportedFeatureUsed), nested;
    }
    var data := BuildDataTypes(m, pkg, path);
    if data.Failure? {
      return Failure(data.error), nested;
    }
    var synonyms := ConvertSynonyms(m.synonyms, pkg, path);
    if synonyms.Failure? {
      return Failure(synonyms.error), nested;
    }
    var interfaces := BuildInterfaces(m.interfaces, pkg, path);
    if interfaces.Failure? {
      return Failure(interfaces.error), nested;
    }
    var exceptions := BuildExceptions(m.exceptions, pkg, path);
    if exceptions.Failure? {
      return Failure(exceptions.error), nested;
    }
    var leaf := new DamlModule.NewLeaf(
      path, ConvertFlags(m.flags), synonyms.value, data.value.0, interfaces.value, exceptions.value);
    r, nested := Success(leaf), data.value.1;
  }

  method RouteNested(
    root: DamlModule, cursor: DamlModule, ghost path: Path, nested: seq<Definition>, ghost nodes: Index)
    returns (ghost nodes': Index)
    requires Indexes(root, nodes) && path in nodes && nodes[path] == cursor
    modifies nodes.Values
    ensures Indexes(root, nodes') && Extends(nodes, nodes')
    ensures forall p :: p in nodes' && p !in nodes ==> fresh(nodes'[p])
    ensures View(nodes') == F.RouteAll(old(View(nodes)), path, nested)
  {
    hide Linked, F.Route;
    nodes' := nodes;
    ghost var view := View(nodes);
    for i := 0 to |nested|
      invariant Indexes(root, nodes') && Extends(nodes, nodes')
      invariant forall p :: p in nodes' && p !in nodes ==> fresh(nodes'[p])
      invariant View(nodes') == F.RouteAll(view, path, nested[..i])
    {
      assert nested[..i + 1][..i] == nested[..i] && nested[..i + 1][i] == nested[i];
      nodes' := Route(root, cursor, path, nested[i], nodes');
    }
    assert nested[..|nested|] == nested;
  }

  /** Walks to the module's path, converts its declarations, installs them there, and routes definitions
      with dotted names into synthetic children. */
  method InsertModule(root: DamlModule, path: Path, m: Wire.Module, pkg: Wire.Package, ghost nodes: Index)
    returns (r: Outcome<ConvertError>, ghost nodes': Index)
    requires Wire.Acyclic(pkg) && Indexes(root, nodes)
    modifies nodes.Values
    ensures Indexes(root, nodes') && Extends(nodes, nodes')
    ensures forall p :: p in nodes' && p !in nodes ==> fresh(nodes'[p])
    ensures match ConvertModuleAt(m, pkg, path)
            case Failure(e) => r == Fail(e)
            case Success(built) => r == Pass && View(nodes') == F.InsertModule(old(View(nodes)), built)
  {
    hide Linked, F.Descend, F.RouteAll, ConvertModuleAt, Nested, Wire.Acyclic;
    IndexFacts(root, nodes);
    var cursor;
    cursor, nodes' := Walk(root, root, [], path, false, nodes);
    assert [] + path == path;
    var leaf, nested := BuildLeaf(m, pkg, path);
    if leaf.Failure? {
      return Fail(leaf.error), nodes';
    }
    Install(root, cursor, leaf.value, path, nodes');
    nodes' := RouteNested(root, cursor, path, nested, nodes');
    r := Pass;
  }

  lemma ModulesFrom(ms: seq<Wire.Module>, i: nat, pkg: Wire.Package)
    requires Wire.Acyclic(pkg) && i < |ms|
    ensures ConvertModules(ms[i..], pkg) ==
            match ConvertModule(ms[i], pkg)
            case Failure(e) => Failure(e)
            case Success(built) => Then([built], ConvertModules(ms[i + 1..], pkg))
  {
    assert ms[i..][0] == ms[i] && ms[i..][1..] == ms[i + 1..];
  }

  /** The package's module tree: every module inserted in order, stopping at the first error. */
  method BuildModuleTree(pkg: Wire.Package)
    returns (r: ConvertResult<DamlModule>, ghost nodes: Index)
    requires Wire.Acyclic(pkg)
    ensures r.Failure? <==> ConvertModules(pkg.modules, pkg).Failure?
    ensures r.Failure? ==> r.error == ConvertModules(pkg.modules, pkg).error
    ensures r.Success? ==>
      Indexes(r.value, nodes) && View(nodes) == F.InsertModules(ConvertModules(pkg.modules, pkg).value)
  {
    hide Linked, F.InsertModule, ConvertModuleAt, ConvertModules, Wire.Acyclic;
    var root := new DamlModule.NewEmpty([], false);
    nodes := map[[] := root];
    FreshRootIndexed(root);
    ghost var done: seq<BuiltModule> := [];
    ghost var all := ConvertModules(pkg.modules, pkg);
    assert pkg.modules[0..] == pkg.modules;
    ThenNil([], all);
    for i := 0 to |pkg.modules|
      invariant Indexes(root, nodes) && View(nodes) == F.InsertModules(done)
      invariant forall p :: p in nodes ==> fresh(nodes[p])
      invariant all == Then(done, ConvertModules(pkg.modules[i..], pkg))
    {
      ModulesFrom(pkg.modules, i, pkg);
      var path := ResolveDotted(pkg.modules[i].name, pkg);
      if path.Failure? {
        return Failure(path.error), nodes;
      }
      var outcome;
      outcome, nodes := InsertModule(root, path.value, pkg.modules[i], pkg, nodes);
      if outcome.Fail? {
        return Failure(outcome.error), nodes;
      }
      ghost var built := ConvertModuleAt(pkg.modules[i], pkg, path.value).value;
      assert (done + [built])[..|done|] == done;
      ThenThen(done, [built], ConvertModules(pkg.modules[i + 1..], pkg));
      done := done + [built];
    }
    NoModules(pkg);
    ThenNil(done, all);
    r := Success(root);
  }

  lemma NoModules(pkg: Wire.Package)
    requires Wire.Acyclic(pkg)
    ensures ConvertModules([], pkg) == Success([])
  {
  }

  lemma FreshRootIndexed(root: DamlModule)
    requires root.path == [] && root.childModules == map[] && root.Content() == F.EmptyContent(false)
    ensures Indexes(root, map[[] := root]) && View(map[[] := root]) == F.InsertModules([])
  {
  }
}
