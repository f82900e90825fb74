/** The generated module tree: which modules are rendered and which `pub mod`s are emitted. */
module Renderer {
  import opened Wrappers
  import opened Element
  import opened Declarations
  import opened Archive
  import opened Identifiers
  import Manifest
  import Validate

  /** A module is matched when its dotted path is empty, no filter is set, or some filter accepts it. */
  datatype ModuleMatcher = ModuleMatcher(matchers: seq<string -> bool>) {
    predicate Matches(path: string) {
      path == "" || |matchers| == 0 || exists i :: 0 <= i < |matchers| && matchers[i](path)
    }
  }

  /** Without filters every path is matched. With one filter its paths are, and that of the root; with more,
      those that some of them matches. */
  lemma SomeFilterMatches(first: string -> bool, rest: seq<string -> bool>, path: string)
    ensures ModuleMatcher([]).Matches(path)
    ensures ModuleMatcher([first]).Matches(path) <==> path == "" || first(path)
    ensures rest != [] ==>
      (ModuleMatcher([first] + rest).Matches(path) <==>
         ModuleMatcher([first]).Matches(path) || ModuleMatcher(rest).Matches(path))
  {
    var all := [first] + rest;
    assert all[0] == first && [first][0] == first;
    assert forall i :: 0 <= i < |rest| ==> all[i + 1] == rest[i];
  }

  datatype RenderMethod = Full | Intermediate

  /** What a module renders for one of its declarations, under the identifier it is emitted with. */
  datatype Item =
    | DataItem(ident: string, data: DamlData)
    | InterfaceItem(ident: string, interface_: DamlInterface)

  /** `pub mod ident { items children }` */
  datatype Mod = Mod(ident: string, items: set<Item>, children: seq<Mod>)

  /** How the generator is run. `snake` is the snake-casing of names. */
  datatype Settings = Settings(matcher: ModuleMatcher, renderMethod: RenderMethod, snake: string -> string) {

    function ModIdent(name: string): string {
      Escape(snake(name))
    }

    predicate MatchesPath(path: Path) {
      matcher.Matches(ToModulePath(path))
    }
  }

  /** `snake` gives snake-case names, as the snake-casing the generator uses does. */
  ghost predicate SnakeCases(s: Settings) {
    forall name :: SnakeShaped(s.snake(name))
  }

  /** Modules get different identifiers exactly when their snake-case names differ. */
  lemma ModIdentsApart(s: Settings, a: string, b: string)
    requires SnakeCases(s)
    ensures s.ModIdent(a) == s.ModIdent(b) <==> s.snake(a) == s.snake(b)
  {
    hide SnakeShaped, Escape;
    EscapeInjective(s.snake(a), s.snake(b));
  }

  /** No module is called by a Rust keyword, unless its snake-case name is `Self`. */
  lemma ModIdentUsable(s: Settings, name: string)
    ensures IsRustKeyword(s.ModIdent(name)) <==> s.snake(name) == "Self"
    ensures s.ModIdent(name) == "" || !IsDigit(s.ModIdent(name)[0])
  {
    hide Escape, IsRustKeyword;
    EscapedRustKeyword(s.snake(name));
    EscapedStartsWell(s.snake(name));
  }

  function ToModulePath(path: Path): string {
    if path == [] then ""
    else if |path| == 1 then path[0]
    else path[0] + "." + ToModulePath(path[1..])
  }

  /** Filters see the segments of a path with a dot between them. */
  lemma {:induction false} PathIsDotted(path: Path)
    requires forall segment :: segment in path ==> '.' !in segment
    ensures ToModulePath(path) == Manifest.Join(path, ".")
    ensures path != [] ==> Manifest.SplitOn(ToModulePath(path), '.') == path
  {
    if |path| > 1 {
      PathIsDotted(path[1..]);
    }
    if path != [] {
      Manifest.SplitOnJoin(path, '.');
    }
  }

  function ModIdents(s: Settings, path: Path): (r: seq<string>)
    ensures |r| == |path| && forall i :: 0 <= i < |path| ==> r[i] == s.ModIdent(path[i])
  {
    seq(|path|, i requires 0 <= i < |path| => s.ModIdent(path[i]))
  }

  lemma ModIdentsStep(s: Settings, name: string, path: Path)
    ensures ModIdents(s, [name] + path) == [s.ModIdent(name)] + ModIdents(s, path)
    ensures ModIdents(s, []) == []
  {
    hide Escape;
    assert ([name] + path)[1..] == path;
  }

  /** The declarations of a rendered module. Interfaces are rendered by the full method only. */
  function Items(s: Settings, v: ModuleView): set<Item> {
    (set n | n in v.content.dataTypes ::
       DataItem(Escape(v.content.dataTypes[n].name), v.content.dataTypes[n]))
    + (if s.renderMethod.Full? then
         set n | n in v.content.interfaces ::
           InterfaceItem(Escape(v.content.interfaces[n].name), v.content.interfaces[n])
       else {})
  }

  predicate SelfIncluded(s: Settings, v: ModuleView) {
    !v.content.synthetic && s.MatchesPath(v.path)
  }

  /** Does `v` render its own declarations, given whether its nearest real ancestor was matched? */
  predicate RendersData(s: Settings, v: ModuleView, ancestorIncluded: bool) {
    SelfIncluded(s, v) || (v.content.synthetic && ancestorIncluded)
  }

  predicate ChildFlag(s: Settings, v: ModuleView, ancestorIncluded: bool) {
    if v.content.synthetic then ancestorIncluded else SelfIncluded(s, v)
  }

  /** The `pub mod` of a module, or nothing. */
  function QuoteModule(s: Settings, name: string, v: ModuleView, ancestorIncluded: bool): (r: seq<Mod>)
    ensures |r| <= 1 && forall m :: m in r ==> m.ident == s.ModIdent(name)
    decreases v
  {
    var children := QuoteModules(s, v.children, ChildFlag(s, v, ancestorIncluded));
    if !RendersData(s, v, ancestorIncluded) && children == [] then []
    else [Mod(s.ModIdent(name), if RendersData(s, v, ancestorIncluded) then Items(s, v) else {}, children)]
  }

  function QuoteModules(s: Settings, vs: seq<ModuleView>, ancestorIncluded: bool): seq<Mod>
    decreases vs
  {
    if vs == [] then []
    else QuoteModule(s, vs[0].LocalName(), vs[0], ancestorIncluded) + QuoteModules(s, vs[1..], ancestorIncluded)
  }

  function QuotePackage(s: Settings, p: DamlPackage): seq<Mod> {
    QuoteModule(s, p.name, p.root, false)
  }

  /** The packages of an archive, rendered in the order `ids` lists them. */
  function QuoteArchive(s: Settings, a: DamlArchive, ids: seq<string>): seq<Mod>
    requires forall id :: id in ids ==> id in a.packages
  {
    if ids == [] then [] else QuotePackage(s, a.packages[ids[0]]) + QuoteArchive(s, a, ids[1..])
  }

  // ---------- The inherited flag ----------

  /** The flag a node inherits when the walk reaches it along `rest`. */
  function FlagAt(s: Settings, v: ModuleView, flag: bool, rest: Path): bool
    decreases rest
  {
    if rest == [] then flag else
      var child := v.ChildModule(rest[0]);
      if child.None? then false else FlagAt(s, child.value, ChildFlag(s, v, flag), rest[1..])
  }

  /** Does the node at `rest` render its declarations? */
  predicate RendersAt(s: Settings, v: ModuleView, flag: bool, rest: Path) {
    var w := v.ChildModulePath(rest);
    w.Some? && RendersData(s, w.value, FlagAt(s, v, flag, rest))
  }

  /** Node `i` steps down `rest` is real and matched, and every later node down to `rest` is synthetic. */
  ghost predicate NearestRealMatched(s: Settings, v: ModuleView, rest: Path, i: nat) {
    && i <= |rest|
    && v.ChildModulePath(rest[..i]).Some?
    && SelfIncluded(s, v.ChildModulePath(rest[..i]).value)
    && forall j :: i < j <= |rest| ==>
         v.ChildModulePath(rest[..j]).Some? && v.ChildModulePath(rest[..j]).value.content.synthetic
  }

  /** Every node from `v` down to `rest` is synthetic. */
  ghost predicate AllSynthetic(v: ModuleView, rest: Path) {
    forall j :: 0 <= j <= |rest| ==>
      v.ChildModulePath(rest[..j]).Some? && v.ChildModulePath(rest[..j]).value.content.synthetic
  }

  lemma StepDown(v: ModuleView, rest: Path, j: nat)
    requires rest != [] && 1 <= j <= |rest| && v.ChildModule(rest[0]).Some?
    ensures v.ChildModulePath(rest[..j]) == v.ChildModule(rest[0]).value.ChildModulePath(rest[1..][..j - 1])
  {
    assert rest[..j][0] == rest[0] && rest[..j][1..] == rest[1..][..j - 1];
  }

  /** A module's declarations are rendered exactly when its nearest real ancestor-or-self is matched; the
      flag handed in from above stands for the ancestors above `v`. */
  lemma {:induction false} FlagIsNearestReal(s: Settings, v: ModuleView, flag: bool, rest: Path)
    requires v.ChildModulePath(rest).Some?
    ensures RendersAt(s, v, flag, rest)
        <==> (exists i :: NearestRealMatched(s, v, rest, i)) || (flag && AllSynthetic(v, rest))
    decreases rest
  {
    hide SelfIncluded;
    assert rest[..|rest|] == rest && rest[..0] == [];
    if rest == [] {
      assert NearestRealMatched(s, v, rest, 0) <==> SelfIncluded(s, v);
      assert SelfIncluded(s, v) ==> !v.content.synthetic by { RealIfIncluded(s, v); }
      assert AllSynthetic(v, rest) <==> v.content.synthetic;
    } else {
      var child, tail := v.ChildModule(rest[0]).value, rest[1..];
      FlagIsNearestReal(s, child, ChildFlag(s, v, flag), tail);
      RealIfIncluded(s, v);
      SyntheticShifts(v, rest);
      NearestShifts(s, v, rest);
    }
  }

  lemma RealIfIncluded(s: Settings, v: ModuleView)
    ensures SelfIncluded(s, v) ==> !v.content.synthetic
  {
  }

  lemma SyntheticShifts(v: ModuleView, rest: Path)
    requires rest != [] && v.ChildModule(rest[0]).Some?
    ensures AllSynthetic(v, rest)
        <==> v.content.synthetic && AllSynthetic(v.ChildModule(rest[0]).value, rest[1..])
  {
    var child, tail := v.ChildModule(rest[0]).value, rest[1..];
    assert v.ChildModulePath(rest[..0]) == Some(v);
    forall j: nat | 1 <= j <= |rest|
      ensures v.ChildModulePath(rest[..j]) == child.ChildModulePath(tail[..j - 1])
    {
      StepDown(v, rest, j);
    }
    if AllSynthetic(v, rest) {
      forall j | 0 <= j <= |tail|
        ensures child.ChildModulePath(tail[..j]).Some?
        ensures child.ChildModulePath(tail[..j]).value.content.synthetic
      {
        assert v.ChildModulePath(rest[..j + 1]) == child.ChildModulePath(tail[..j + 1 - 1]);
      }
    }
  }

  lemma NearestStepDown(s: Settings, v: ModuleView, rest: Path, i: nat)
    requires rest != [] && v.ChildModule(rest[0]).Some?
    ensures NearestRealMatched(s, v, rest, i + 1)
        <==> NearestRealMatched(s, v.ChildModule(rest[0]).value, rest[1..], i)
  {
    hide SelfIncluded;
    var child, tail := v.ChildModule(rest[0]).value, rest[1..];
    forall j: nat | 1 <= j <= |rest|
      ensures v.ChildModulePath(rest[..j]) == child.ChildModulePath(tail[..j - 1])
    {
      StepDown(v, rest, j);
    }
    if NearestRealMatched(s, v, rest, i + 1) {
      forall j | i < j <= |tail|
        ensures child.ChildModulePath(tail[..j]).Some?
        ensures child.ChildModulePath(tail[..j]).value.content.synthetic
      {
        assert v.ChildModulePath(rest[..j + 1]) == child.ChildModulePath(tail[..j + 1 - 1]);
      }
    }
  }

  lemma NearestShifts(s: Settings, v: ModuleView, rest: Path)
    requires rest != [] && v.ChildModule(rest[0]).Some?
    ensures var child := v.ChildModule(rest[0]).value;
      (exists i :: NearestRealMatched(s, v, rest, i)) <==>
        (exists i :: NearestRealMatched(s, child, rest[1..], i)) ||
        (SelfIncluded(s, v) && AllSynthetic(child, rest[1..]))
  {
    hide SelfIncluded;
    var child, tail := v.ChildModule(rest[0]).value, rest[1..];
    assert NearestRealMatched(s, v, rest, 0) <==> SelfIncluded(s, v) && AllSynthetic(child, tail) by {
      assert v.ChildModulePath(rest[..0]) == Some(v);
      forall j: nat | 1 <= j <= |rest|
        ensures v.ChildModulePath(rest[..j]) == child.ChildModulePath(tail[..j - 1])
      {
        StepDown(v, rest, j);
      }
      assert forall j :: 0 <= j <= |tail| ==> v.ChildModulePath(rest[..j + 1]) == child.ChildModulePath(tail[..j]);
    }
    if i: nat :| NearestRealMatched(s, v, rest, i) {
      if i > 0 {
        NearestStepDown(s, v, rest, i - 1);
      }
    }
    if i: nat :| NearestRealMatched(s, child, tail, i) {
      NearestStepDown(s, v, rest, i);
    }
  }

  /** Without a filter every module renders its declarations. */
  lemma {:induction false} UnfilteredRenders(s: Settings, v: ModuleView, flag: bool, rest: Path)
    requires |s.matcher.matchers| == 0 && (flag || !v.content.synthetic) && v.ChildModulePath(rest).Some?
    ensures RendersAt(s, v, flag, rest)
    decreases rest
  {
    if rest != [] {
      UnfilteredRenders(s, v.ChildModule(rest[0]).value, ChildFlag(s, v, flag), rest[1..]);
    }
  }

  // ---------- Resolving paths in the generated code ----------

  function FindMod(ms: seq<Mod>, ident: string): (r: Option<Mod>)
    ensures r.Some? ==> r.value in ms && r.value.ident == ident
    ensures r.None? ==> forall m :: m in ms ==> m.ident != ident
  {
    if ms == [] then None
    else if ms[0].ident == ident then Some(ms[0])
    else FindMod(ms[1..], ident)
  }

  /** The module a path names, starting among `ms`. */
  function Resolve(ms: seq<Mod>, path: seq<string>): Option<Mod>
    decreases path
  {
    if path == [] then None else
      var m :- FindMod(ms, path[0]);
      if |path| == 1 then Some(m) else Resolve(m.children, path[1..])
  }

  /** Siblings get different identifiers, all the way down. */
  ghost predicate SiblingsApart(s: Settings, v: ModuleView)
    decreases v
  {
    && (forall i, j :: 0 <= i < j < |v.children| ==>
          s.ModIdent(v.children[i].LocalName()) != s.ModIdent(v.children[j].LocalName()))
    && (forall c :: c in v.children ==> SiblingsApart(s, c))
  }

  function First(ms: seq<Mod>): Option<Mod> {
    if ms == [] then None else Some(ms[0])
  }

  lemma {:induction false} QuotedAmong(s: Settings, vs: seq<ModuleView>, flag: bool, c: ModuleView)
    requires c in vs
    ensures forall m :: m in QuoteModule(s, c.LocalName(), c, flag) ==> m in QuoteModules(s, vs, flag)
  {
    if vs[0] != c {
      assert c in vs[1..];
      QuotedAmong(s, vs[1..], flag, c);
    }
  }

  lemma FindIn(head: seq<Mod>, tail: seq<Mod>, ident: string)
    requires |head| <= 1
    ensures FindMod(head + tail, ident) ==
            if head != [] && head[0].ident == ident then Some(head[0]) else FindMod(tail, ident)
  {
    if head == [] {
      assert head + tail == tail;
    } else {
      assert (head + tail)[0] == head[0] && (head + tail)[1..] == tail;
    }
  }

  /** Looking among the siblings' modules for one sibling's identifier finds what that sibling rendered. */
  lemma {:induction false} FindsOwn(s: Settings, vs: seq<ModuleView>, flag: bool, c: ModuleView)
    requires c in vs
    requires forall i, j :: 0 <= i < j < |vs| ==> s.ModIdent(vs[i].LocalName()) != s.ModIdent(vs[j].LocalName())
    ensures FindMod(QuoteModules(s, vs, flag), s.ModIdent(c.LocalName()))
         == First(QuoteModule(s, c.LocalName(), c, flag))
  {
    hide QuoteModule, FindMod;
    FindIn(QuoteModule(s, vs[0].LocalName(), vs[0], flag), QuoteModules(s, vs[1..], flag), s.ModIdent(c.LocalName()));
    FindOne(QuoteModule(s, c.LocalName(), c, flag), s.ModIdent(c.LocalName()));
    if vs[0] == c {
      NoneQuoted(s, vs[1..], flag, s.ModIdent(c.LocalName()));
    } else {
      var k :| 0 <= k < |vs| && vs[k] == c;
      assert c in vs[1..];
      FindsOwn(s, vs[1..], flag, c);
    }
  }

  lemma FindOne(ms: seq<Mod>, ident: string)
    requires |ms| <= 1 && forall m :: m in ms ==> m.ident == ident
    ensures FindMod(ms, ident) == First(ms)
  {
  }

  lemma {:induction false} NoneQuoted(s: Settings, vs: seq<ModuleView>, flag: bool, ident: string)
    requires forall v :: v in vs ==> s.ModIdent(v.LocalName()) != ident
    ensures FindMod(QuoteModules(s, vs, flag), ident).None?
  {
    hide QuoteModule;
    if vs != [] {
      NoneQuoted(s, vs[1..], flag, ident);
      FindIn(QuoteModule(s, vs[0].LocalName(), vs[0], flag), QuoteModules(s, vs[1..], flag), ident);
    }
  }

  /** The path built from module names leads to what the module at the end of it rendered, if anything. */
  lemma {:induction false} RenderedWhereNamed(s: Settings, name: string, v: ModuleView, flag: bool, rest: Path)
    requires WellFormed(v) && SiblingsApart(s, v) && v.ChildModulePath(rest).Some?
    ensures var w := v.ChildModulePath(rest).value;
      Resolve(QuoteModule(s, name, v, flag), [s.ModIdent(name)] + ModIdents(s, rest))
      == First(QuoteModule(s, if rest == [] then name else w.LocalName(), w, FlagAt(s, v, flag, rest)))
    decreases rest
  {
    hide Items, RendersData, ModIdents, Escape, ChildFlag;
    ModIdentsStep(s, name, rest);
    var ms := QuoteModule(s, name, v, flag);
    var path := [s.ModIdent(name)] + ModIdents(s, rest);
    assert ms == [] || FindMod(ms, path[0]) == Some(ms[0]);
    if rest != [] {
      var c, down := v.ChildModule(rest[0]).value, ChildFlag(s, v, flag);
      RenderedWhereNamed(s, c.LocalName(), c, down, rest[1..]);
      ModIdentsStep(s, rest[0], rest[1..]);
      assert rest == [rest[0]] + rest[1..];
      assert path[1..] == [s.ModIdent(c.LocalName())] + ModIdents(s, rest[1..]);
      FindsOwn(s, v.children, down, c);
      var quoted := QuoteModule(s, c.LocalName(), c, down);
      assert quoted == [] || FindMod(quoted, path[1]) == Some(quoted[0]);
      assert Resolve(QuoteModules(s, v.children, down), path[1..]) == Resolve(quoted, path[1..]);
      if ms == [] {
        assert QuoteModules(s, v.children, down) == [];
      }
    }
  }

  /** Every module of the generated code is a module of the package, under its own name. */
  lemma {:induction false} ResolvedIsModule(s: Settings, name: string, v: ModuleView, flag: bool, path: seq<string>)
    returns (rest: Path)
    requires WellFormed(v) && Resolve(QuoteModule(s, name, v, flag), path).Some?
    ensures v.ChildModulePath(rest).Some? && path == [s.ModIdent(name)] + ModIdents(s, rest)
    decreases path
  {
    hide QuoteModule, ChildFlag, WellFormed, ModIdents, Resolve;
    if |path| <= 1 {
      ResolvesHere(s, name, v, flag, path);
      rest := [];
    } else {
      ResolvesBelow(s, name, v, flag, path);
      var c := QuotedBy(s, v.children, ChildFlag(s, v, flag), path[1..]);
      ChildWellFormed(v, c);
      var below := ResolvedIsModule(s, c.LocalName(), c, ChildFlag(s, v, flag), path[1..]);
      Extended(s, v, c, below);
      rest := [c.LocalName()] + below;
      assert path == [path[0]] + path[1..];
    }
  }

  lemma ChildWellFormed(v: ModuleView, c: ModuleView)
    requires WellFormed(v) && c in v.children
    ensures WellFormed(c)
  {
  }

  lemma ResolvesHere(s: Settings, name: string, v: ModuleView, flag: bool, path: seq<string>)
    requires Resolve(QuoteModule(s, name, v, flag), path).Some? && |path| <= 1
    ensures path == [s.ModIdent(name)]
  {
    hide Items, RendersData, QuoteModules;
  }

  lemma ResolvesBelow(s: Settings, name: string, v: ModuleView, flag: bool, path: seq<string>)
    requires Resolve(QuoteModule(s, name, v, flag), path).Some? && |path| > 1
    ensures path[0] == s.ModIdent(name)
    ensures Resolve(QuoteModules(s, v.children, ChildFlag(s, v, flag)), path[1..]).Some?
  {
    hide Items, RendersData, QuoteModules;
  }

  lemma Extended(s: Settings, v: ModuleView, c: ModuleView, rest: Path)
    requires WellFormed(v) && c in v.children
    ensures v.ChildModulePath([c.LocalName()] + rest) == c.ChildModulePath(rest)
    ensures ModIdents(s, [c.LocalName()] + rest) == [s.ModIdent(c.LocalName())] + ModIdents(s, rest)
    ensures forall flag :: FlagAt(s, v, flag, [c.LocalName()] + rest) == FlagAt(s, c, ChildFlag(s, v, flag), rest)
  {
    hide ChildFlag;
    Validate.ChildFound(v, c);
    assert ([c.LocalName()] + rest)[1..] == rest;
  }

  /** Some sibling rendered the module the path starts in. */
  lemma {:induction false} QuotedBy(s: Settings, vs: seq<ModuleView>, flag: bool, path: seq<string>)
    returns (c: ModuleView)
    requires Resolve(QuoteModules(s, vs, flag), path).Some?
    ensures c in vs && Resolve(QuoteModule(s, c.LocalName(), c, flag), path).Some?
  {
    hide QuoteModule;
    var head, tail := QuoteModule(s, vs[0].LocalName(), vs[0], flag), QuoteModules(s, vs[1..], flag);
    FindIn(head, tail, path[0]);
    if head != [] && head[0].ident == path[0] {
      c := vs[0];
    } else {
      c := QuotedBy(s, vs[1..], flag, path);
    }
  }

  lemma {:induction false} EmittedRenders(s: Settings, name: string, v: ModuleView, flag: bool) returns (rest: Path)
    requires WellFormed(v) && QuoteModule(s, name, v, flag) != []
    ensures RendersAt(s, v, flag, rest)
    decreases v
  {
    hide Items, RendersData, ChildFlag;
    var down := ChildFlag(s, v, flag);
    if RendersData(s, v, flag) {
      rest := [];
    } else {
      var c := SomeQuoted(s, v.children, down);
      rest := EmittedRenders(s, c.LocalName(), c, down);
      Extended(s, v, c, rest);
      rest := [c.LocalName()] + rest;
    }
  }

  lemma {:induction false} RenderingEmits(s: Settings, name: string, v: ModuleView, flag: bool, rest: Path)
    requires WellFormed(v) && RendersAt(s, v, flag, rest)
    ensures QuoteModule(s, name, v, flag) != []
    decreases rest
  {
    hide Items, RendersData, ChildFlag;
    if rest != [] {
      var c, down := v.ChildModule(rest[0]).value, ChildFlag(s, v, flag);
      assert rest == [c.LocalName()] + rest[1..];
      Extended(s, v, c, rest[1..]);
      RenderingEmits(s, c.LocalName(), c, down, rest[1..]);
      QuotedAmong(s, v.children, down, c);
      assert QuoteModule(s, c.LocalName(), c, down)[0] in QuoteModules(s, v.children, down);
    }
  }

  /** A `pub mod` is emitted exactly when the module or something below it renders its declarations. */
  lemma EmittedIffNeeded(s: Settings, name: string, v: ModuleView, flag: bool)
    requires WellFormed(v)
    ensures QuoteModule(s, name, v, flag) != [] <==> exists rest :: RendersAt(s, v, flag, rest)
  {
    hide QuoteModule, RendersAt;
    if QuoteModule(s, name, v, flag) != [] {
      var rest := EmittedRenders(s, name, v, flag);
    }
    if rest :| RendersAt(s, v, flag, rest) {
      RenderingEmits(s, name, v, flag, rest);
    }
  }

  lemma {:induction false} SomeQuoted(s: Settings, vs: seq<ModuleView>, flag: bool) returns (c: ModuleView)
    requires QuoteModules(s, vs, flag) != []
    ensures c in vs && QuoteModule(s, c.LocalName(), c, flag) != []
  {
    if QuoteModule(s, vs[0].LocalName(), vs[0], flag) != [] {
      c := vs[0];
    } else {
      c := SomeQuoted(s, vs[1..], flag);
    }
  }
}
