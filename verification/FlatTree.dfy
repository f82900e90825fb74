/** The module tree as a map from module path to content, and what placing a converted module does to
    it. This is the specification the mutable tree in `ModuleTree` is proved against. */
module FlatTree {
  import opened Element
  import opened Declarations

  type FlatTree = map<Path, ModuleContent>

  /** A node that exists only because something below it does. */
  function EmptyContent(synthetic: bool): ModuleContent {
    ModuleContent(DamlFeatureFlags(true, true, true), [], map[], map[], map[], synthetic)
  }

  /** Creates whatever is missing on the way from `base` down `rest`. */
  function Descend(f: FlatTree, base: Path, rest: Path, synthetic: bool): FlatTree
    decreases rest
  {
    if rest == [] then f else
      var next := base + [rest[0]];
      Descend(if next in f then f else f[next := EmptyContent(synthetic)], next, rest[1..], synthetic)
  }

  /** Installs a real module's own content, whatever was at its path before. */
  function Install(f: FlatTree, b: BuiltModule): FlatTree {
    Descend(f, [], b.path, false)[b.path := b.Leaf()]
  }

  function PutData(f: FlatTree, path: Path, name: string, data: DamlData): FlatTree {
    if path in f then f[path := f[path].(dataTypes := f[path].dataTypes[name := data])] else f
  }

  /** Routes one definition with a dotted name into the synthetic child its prefix names. */
  function Route(f: FlatTree, path: Path, d: Definition): FlatTree {
    PutData(Descend(f, path, d.prefix, true), path + d.prefix, d.name, d.data)
  }

  function RouteAll(f: FlatTree, path: Path, defs: seq<Definition>): FlatTree {
    if defs == [] then f else
      Route(RouteAll(f, path, defs[..|defs| - 1]), path, defs[|defs| - 1])
  }

  function InsertModule(f: FlatTree, b: BuiltModule): FlatTree {
    RouteAll(Install(f, b), b.path, Nested(b.definitions))
  }

  function InsertModules(bs: seq<BuiltModule>): FlatTree {
    if bs == [] then map[[] := EmptyContent(false)] else
      InsertModule(InsertModules(bs[..|bs| - 1]), bs[|bs| - 1])
  }
}
