/** A finished archive: module trees as values, and the lookups over them. */
module Archive {
  import opened Wrappers
  import opened Element
  import opened Declarations
  import F = FlatTree

  /** The value a finished module tree denotes. `children` lists the child map in its iteration order,
      which is arbitrary; a child's key is its local name. */
  datatype ModuleView = ModuleView(path: Path, content: ModuleContent, children: seq<ModuleView>) {

    function LocalName(): string {
      if path == [] then "root" else path[|path| - 1]
    }

    /** The child called `name`, if there is one. */
    function ChildModule(name: string): (r: Option<ModuleView>)
      ensures r.Some? ==> r.value in children && r.value.LocalName() == name
      ensures r.None? ==> forall c :: c in children ==> c.LocalName() != name
    {
      FindChild(children, name)
    }

    function ChildModulePath(relativePath: Path): Option<ModuleView>
      decreases relativePath
    {
      if relativePath == [] then Some(this) else
        var child :- ChildModule(relativePath[0]);
        child.ChildModulePath(relativePath[1..])
    }

    function DataType(name: string): Option<DamlData> {
      if name in content.dataTypes then Some(content.dataTypes[name]) else None
    }

    /** Interfaces are looked up by the name they carry. */
    predicate HasInterface(name: string) {
      exists k :: k in content.interfaces && content.interfaces[k].name == name
    }
  }

  function FindChild(children: seq<ModuleView>, name: string): (r: Option<ModuleView>)
    ensures r.Some? ==> r.value in children && r.value.LocalName() == name
    ensures r.None? ==> forall c :: c in children ==> c.LocalName() != name
  {
    if children == [] then None
    else if children[0].LocalName() == name then Some(children[0])
    else FindChild(children[1..], name)
  }

  datatype DamlPackage = DamlPackage(name: string, packageId: string, root: ModuleView)

  datatype DamlArchive = DamlArchive(packages: map<string, DamlPackage>) {

    function FindModule(packageId: string, path: Path): Option<ModuleView> {
      if packageId in packages then packages[packageId].root.ChildModulePath(path) else None
    }

    function Data(packageId: string, path: Path, name: string): Option<DamlData> {
      var m :- FindModule(packageId, path);
      m.DataType(name)
    }

    function DataByTyConName(name: DamlTyConName): Option<DamlData> {
      Data(name.ReferencePackage(), name.ReferencePath(), name.dataName)
    }

    predicate HasInterface(name: DamlTyConName) {
      var m := FindModule(name.ReferencePackage(), name.ReferencePath());
      m.Some? && m.value.HasInterface(name.dataName)
    }
  }

  /** What a name finds: a name from another module of a package is looked up where it points, not where it
      stands. */
  lemma FoundWhereItPoints(a: DamlArchive, name: DamlTyConName)
    ensures a.DataByTyConName(name) ==
      match name
      case Local(n, id, _, path) => a.Data(id, path, n)
      case NonLocal(n, _, _, _, id, _, path) => a.Data(id, path, n)
      case Absolute(n, id, _, path) => a.Data(id, path, n)
  {
  }

  // ---------- Well-formed views ----------

  /** A child's path is its parent's followed by its local name, and siblings have different names. */
  ghost predicate WellFormed(v: ModuleView) {
    && (forall c :: c in v.children ==> c.path == v.path + [c.LocalName()] && WellFormed(c))
    && (forall i, j :: 0 <= i < j < |v.children| ==> v.children[i].LocalName() != v.children[j].LocalName())
  }

  /** `v` is the subtree of `f` at `p`, with the children in some order. */
  ghost predicate ViewOf(v: ModuleView, f: F.FlatTree, p: Path)
    decreases v
  {
    && p in f && v.path == p && v.content == f[p]
    && (forall c :: c in v.children ==> c.path == p + [c.LocalName()] && ViewOf(c, f, c.path))
    && (forall k :: p + [k] in f ==> exists c :: c in v.children && c.path == p + [k])
    && (forall i, j :: 0 <= i < j < |v.children| ==> v.children[i].LocalName() != v.children[j].LocalName())
  }

  ghost predicate PrefixClosed(f: F.FlatTree) {
    [] in f && forall p, k :: p + [k] in f ==> p in f
  }

  lemma {:induction false} ViewWellFormed(v: ModuleView, f: F.FlatTree, p: Path)
    requires ViewOf(v, f, p)
    ensures WellFormed(v)
    decreases v
  {
    forall c | c in v.children
      ensures WellFormed(c)
    {
      ViewWellFormed(c, f, c.path);
    }
  }

  lemma {:induction false} PrefixIn(f: F.FlatTree, p: Path, rest: Path)
    requires PrefixClosed(f)
    ensures p + rest in f ==> p in f
    decreases rest
  {
    if rest == [] {
      assert p + rest == p;
    } else {
      var init := rest[..|rest| - 1];
      assert p + rest == (p + init) + [rest[|rest| - 1]];
      PrefixIn(f, p, init);
    }
  }

  /** Following a relative path through a view finds exactly the node of the tree at that path. */
  lemma {:induction false} ChildPathFinds(v: ModuleView, f: F.FlatTree, p: Path, rest: Path)
    requires ViewOf(v, f, p) && PrefixClosed(f)
    ensures v.ChildModulePath(rest).Some? <==> p + rest in f
    ensures v.ChildModulePath(rest).Some? ==> ViewOf(v.ChildModulePath(rest).value, f, p + rest)
    decreases rest
  {
    if rest == [] {
      assert p + rest == p;
    } else {
      var k := rest[0];
      assert p + rest == (p + [k]) + rest[1..];
      var child := v.ChildModule(k);
      if child.Some? {
        assert child.value.path == p + [k];
        ChildPathFinds(child.value, f, p + [k], rest[1..]);
      } else {
        PrefixIn(f, p + [k], rest[1..]);
        assert (p + [k])[|p|] == k;
        assert forall c :: c in v.children ==> c.path != p + [k];
      }
    }
  }

  // ---------- Every tree has a view ----------

  ghost function Below(f: F.FlatTree, p: Path): set<Path> {
    set q | q in f && p <= q
  }

  ghost function ChildNames(f: F.FlatTree, p: Path): set<string> {
    set q | q in f && p < q && |q| == |p| + 1 :: q[|p|]
  }

  /** Views of the children called `names`. */
  ghost predicate ViewsOf(vs: seq<ModuleView>, f: F.FlatTree, p: Path, names: set<string>) {
    && (forall c :: c in vs ==> c.LocalName() in names && c.path == p + [c.LocalName()] && ViewOf(c, f, c.path))
    && (forall k :: k in names ==> exists c :: c in vs && c.path == p + [k])
    && (forall i, j :: 0 <= i < j < |vs| ==> vs[i].LocalName() != vs[j].LocalName())
  }

  lemma {:induction false} ViewExists(f: F.FlatTree, p: Path) returns (v: ModuleView)
    requires p in f
    ensures ViewOf(v, f, p)
    decreases Below(f, p), 1
  {
    var names := ChildNames(f, p);
    forall k | k in names
      ensures p + [k] in f
    {
      var q :| q in f && p < q && |q| == |p| + 1 && q[|p|] == k;
      assert q == p + [k];
    }
    var vs := ViewsExist(f, p, names);
    v := ModuleView(p, f[p], vs);
    forall k | p + [k] in f
      ensures exists c :: c in vs && c.path == p + [k]
    {
      assert p < p + [k] && (p + [k])[|p|] == k;
      assert k in names;
    }
  }

  lemma {:induction false} ViewsExist(f: F.FlatTree, p: Path, names: set<string>) returns (vs: seq<ModuleView>)
    requires p in f && forall k :: k in names ==> p + [k] in f
    ensures ViewsOf(vs, f, p, names)
    decreases Below(f, p), 0, |names|
  {
    if names == {} {
      vs := [];
    } else {
      var k :| k in names;
      assert Below(f, p + [k]) < Below(f, p) by {
        assert p in Below(f, p) && p !in Below(f, p + [k]);
        forall q | q in Below(f, p + [k])
          ensures q in Below(f, p)
        {
          assert p <= p + [k] <= q;
        }
      }
      var v := ViewExists(f, p + [k]);
      var rest := ViewsExist(f, p, names - {k});
      assert v.LocalName() == k;
      vs := [v] + rest;
      ViewAdded(v, rest, f, p, names, k);
    }
  }

  lemma ViewAdded(v: ModuleView, rest: seq<ModuleView>, f: F.FlatTree, p: Path, names: set<string>, k: string)
    requires k in names && ViewOf(v, f, p + [k]) && v.path == p + [k] && v.LocalName() == k
    requires ViewsOf(rest, f, p, names - {k})
    ensures ViewsOf([v] + rest, f, p, names)
  {
    hide ViewOf;
    var vs := [v] + rest;
    forall j | j in names
      ensures exists c :: c in vs && c.path == p + [j]
    {
      if j == k {
        assert v in vs;
      } else {
        assert j in names - {k};
        var c :| c in rest && c.path == p + [j];
        assert c in vs;
      }
    }
    forall j | 0 <= j < |rest|
      ensures rest[j].LocalName() != k
    {
      assert rest[j] in rest;
    }
  }
}
