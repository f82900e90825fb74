/** `DamlArchive::validate`: worklist walks over modules and types, proved against a recursive
    description of every violation. */
module Validate {
  import opened Wrappers
  import opened Element
  import opened Declarations
  import opened Archive
  import opened Occurrences

  // ---------- What is checked ----------

  predicate Resolves(a: DamlArchive, name: DamlTyConName) {
    a.DataByTyConName(name).Some? || a.HasInterface(name)
  }

  predicate ResolvesToRecord(a: DamlArchive, t: DamlType) {
    (t.TTyCon? || t.TBoxedTyCon?) &&
    var data := a.DataByTyConName(t.tycon);
    data.Some? && data.value.Record?
  }

  /** The first missing step on the way to an unresolved name. */
  function NameError(a: DamlArchive, name: DamlTyConName): ConvertError {
    if name.ReferencePackage() !in a.packages then UnknownPackage(name.ReferencePackage())
    else if a.FindModule(name.ReferencePackage(), name.ReferencePath()).None? then
      UnknownModule(name.ReferencePath())
    else UnknownData(name.dataName)
  }

  // ---------- Violations ----------

  ghost predicate NameViolation(a: DamlArchive, name: DamlTyConName, e: ConvertError) {
    !Resolves(a, name) && e == NameError(a, name)
  }

  ghost predicate TypeViolation(a: DamlArchive, t: DamlType, e: ConvertError) {
    exists n :: n in Names(t) && NameViolation(a, n, e)
  }

  ghost predicate FieldsViolation(a: DamlArchive, fs: seq<DamlField>, e: ConvertError) {
    exists f :: f in fs && TypeViolation(a, f.ty, e)
  }

  /** A choice's argument must be a record. */
  ghost predicate ChoiceViolation(a: DamlArchive, c: DamlChoice, e: ConvertError) {
    || ((c.fields == [] || !ResolvesToRecord(a, c.fields[0].ty)) && e == UnexpectedChoiceData)
    || (c.fields != [] && TypeViolation(a, c.fields[0].ty, e))
    || TypeViolation(a, c.returnType, e)
  }

  ghost predicate ChoicesViolation(a: DamlArchive, cs: seq<DamlChoice>, e: ConvertError) {
    exists c :: c in cs && ChoiceViolation(a, c, e)
  }

  ghost predicate DataViolation(a: DamlArchive, d: DamlData, e: ConvertError) {
    match d
    case Template(_, _, _, fields, choices, _, _, key, _) =>
      || FieldsViolation(a, fields, e)
      || ChoicesViolation(a, choices, e)
      || (key.Some? && TypeViolation(a, key.value, e))
    case Record(_, _, _, fields, _, _) => FieldsViolation(a, fields, e)
    case Variant(_, _, _, fields, _, _) => FieldsViolation(a, fields, e)
    case Enum(_, _, _, _, _, _) => false
  }

  /** An interface's view must be a record. */
  ghost predicate InterfaceViolation(a: DamlArchive, i: DamlInterface, e: ConvertError) {
    || (!ResolvesToRecord(a, i.view) && e == UnexpectedType)
    || TypeViolation(a, i.view, e)
    || (exists m :: m in i.methods && TypeViolation(a, m.ty, e))
    || ChoicesViolation(a, i.choices, e)
    || (exists n :: n in i.required && NameViolation(a, n, e))
  }

  ghost predicate ModuleViolation(a: DamlArchive, m: ModuleView, e: ConvertError)
    decreases m
  {
    || (exists n :: n in m.content.dataTypes && DataViolation(a, m.content.dataTypes[n], e))
    || (exists n :: n in m.content.interfaces && InterfaceViolation(a, m.content.interfaces[n], e))
    || (exists c :: c in m.children && ModuleViolation(a, c, e))
  }

  ghost predicate Violates(a: DamlArchive, e: ConvertError) {
    exists id :: id in a.packages && ModuleViolation(a, a.packages[id].root, e)
  }

  // ---------- Type walk ----------

  ghost function TypeSize(t: DamlType): nat
    decreases t
  {
    1 + match t
        case TContractId(inner) => if inner.Some? then TypeSize(inner.value) else 0
        case TTyCon(_, args) => TypesSize(args)
        case TBoxedTyCon(_, args) => TypesSize(args)
        case TNumeric(args) => TypesSize(args)
        case TList(args) => TypesSize(args)
        case TTextMap(args) => TypesSize(args)
        case TGenMap(args) => TypesSize(args)
        case TOptional(args) => TypesSize(args)
        case TVar(_, args) => TypesSize(args)
        case TForall(_, body) => TypeSize(body)
        case TStruct(fields) => FieldsSize(fields)
        case TSyn(_, args) => TypesSize(args)
        case _ => 0
  }

  ghost function TypesSize(ts: seq<DamlType>): nat
    decreases ts
  {
    if ts == [] then 0 else TypeSize(ts[0]) + TypesSize(ts[1..])
  }

  ghost function FieldsSize(fs: seq<DamlField>): nat
    decreases fs
  {
    if fs == [] then 0 else
      assert fs[0].ty < fs[0];
      TypeSize(fs[0].ty) + FieldsSize(fs[1..])
  }

  function FieldTypes(fs: seq<DamlField>): (ts: seq<DamlType>)
    ensures TypesSize(ts) == FieldsSize(fs) && NamesOfAll(ts) == NamesOfFields(fs)
  {
    if fs == [] then [] else [fs[0].ty] + FieldTypes(fs[1..])
  }

  lemma {:induction false} TypesAppend(xs: seq<DamlType>, ys: seq<DamlType>)
    ensures TypesSize(xs + ys) == TypesSize(xs) + TypesSize(ys)
    ensures NamesOfAll(xs + ys) == NamesOfAll(xs) + NamesOfAll(ys)
  {
    if xs == [] {
      assert xs + ys == ys;
    } else {
      assert (xs + ys)[1..] == xs[1..] + ys;
      TypesAppend(xs[1..], ys);
    }
  }

  /** What is pushed for a type: its immediate component types. */
  function Components(t: DamlType): seq<DamlType> {
    match t
    case TContractId(inner) => if inner.Some? then [inner.value] else []
    case TTyCon(_, args) => args
    case TBoxedTyCon(_, args) => args
    case TNumeric(args) => args
    case TList(args) => args
    case TTextMap(args) => args
    case TGenMap(args) => args
    case TOptional(args) => args
    case TVar(_, args) => args
    case TForall(_, body) => [body]
    case TStruct(fields) => FieldTypes(fields)
    case TSyn(_, args) => args
    case _ => []
  }

  lemma ComponentsSmaller(t: DamlType)
    ensures TypesSize(Components(t)) < TypeSize(t)
  {
    match t
    case TContractId(inner) => if inner.Some? { OneType(inner.value); }
    case TForall(_, body) => OneType(body);
    case _ =>
  }

  lemma ComponentsCover(t: DamlType)
    ensures Names(t) == NamesOfAll(Components(t)) + (if t.TTyCon? || t.TBoxedTyCon? then {t.tycon} else {})
  {
    match t
    case TContractId(inner) => if inner.Some? { OneType(inner.value); }
    case TForall(_, body) => OneType(body);
    case _ =>
  }

  lemma OneType(t: DamlType)
    ensures NamesOfAll([t]) == Names(t) && TypesSize([t]) == TypeSize(t)
  {
    hide Names, TypeSize;
  }

  function ValidateTyConName(a: DamlArchive, name: DamlTyConName): (r: Outcome<ConvertError>)
    ensures r == if Resolves(a, name) then Pass else Fail(NameError(a, name))
  {
    if a.DataByTyConName(name).Some? || a.HasInterface(name) then Pass
    else if name.ReferencePackage() !in a.packages then Fail(UnknownPackage(name.ReferencePackage()))
    else if a.packages[name.ReferencePackage()].root.ChildModulePath(name.ReferencePath()).None? then
      Fail(UnknownModule(name.ReferencePath()))
    else Fail(UnknownData(name.dataName))
  }

  /** Pops a type, checks its own name, pushes its components. */
  method ValidateType(a: DamlArchive, ty: DamlType) returns (r: Outcome<ConvertError>)
    ensures r.Pass? ==> forall e :: !TypeViolation(a, ty, e)
    ensures r.Fail? ==> TypeViolation(a, ty, r.error)
  {
    hide Names, TypeSize, Components, Resolves, NameError;
    var stack := [ty];
    ghost var checked: set<DamlTyConName> := {};
    OneType(ty);
    while stack != []
      invariant Names(ty) == checked + NamesOfAll(stack)
      invariant forall n :: n in checked ==> Resolves(a, n)
      decreases TypesSize(stack)
    {
      var rest, t := stack[..|stack| - 1], stack[|stack| - 1];
      assert stack == rest + [t];
      OneType(t);
      ComponentsCover(t);
      ComponentsSmaller(t);
      TypesAppend(rest, [t]);
      TypesAppend(rest, Components(t));
      if t.TTyCon? || t.TBoxedTyCon? {
        var outcome := ValidateTyConName(a, t.tycon);
        if outcome.Fail? {
          assert t.tycon in Names(ty) && NameViolation(a, t.tycon, outcome.error);
          return outcome;
        }
        checked := checked + {t.tycon};
      }
      stack := rest + Components(t);
    }
    r := Pass;
  }

  // ---------- Declarations ----------

  method ValidateFields(a: DamlArchive, fs: seq<DamlField>) returns (r: Outcome<ConvertError>)
    ensures r.Pass? ==> forall e :: !FieldsViolation(a, fs, e)
    ensures r.Fail? ==> FieldsViolation(a, fs, r.error)
  {
    hide TypeViolation;
    for i := 0 to |fs|
      invariant forall e, j :: 0 <= j < i ==> !TypeViolation(a, fs[j].ty, e)
    {
      var outcome := ValidateType(a, fs[i].ty);
      if outcome.Fail? {
        assert fs[i] in fs;
        return outcome;
      }
    }
    r := Pass;
  }

  method ValidateChoice(a: DamlArchive, c: DamlChoice) returns (r: Outcome<ConvertError>)
    ensures r.Pass? ==> forall e :: !ChoiceViolation(a, c, e)
    ensures r.Fail? ==> ChoiceViolation(a, c, r.error)
  {
    hide TypeViolation, ResolvesToRecord;
    if c.fields == [] || !ResolvesToRecord(a, c.fields[0].ty) {
      return Fail(UnexpectedChoiceData);
    }
    var outcome := ValidateType(a, c.fields[0].ty);
    if outcome.Fail? {
      return outcome;
    }
    r := ValidateType(a, c.returnType);
  }

  method ValidateChoices(a: DamlArchive, cs: seq<DamlChoice>) returns (r: Outcome<ConvertError>)
    ensures r.Pass? ==> forall e :: !ChoicesViolation(a, cs, e)
    ensures r.Fail? ==> ChoicesViolation(a, cs, r.error)
  {
    hide ChoiceViolation;
    for i := 0 to |cs|
      invariant forall e, j :: 0 <= j < i ==> !ChoiceViolation(a, cs[j], e)
    {
      var outcome := ValidateChoice(a, cs[i]);
      if outcome.Fail? {
        assert cs[i] in cs;
        return outcome;
      }
    }
    r := Pass;
  }

  method ValidateData(a: DamlArchive, d: DamlData) returns (r: Outcome<ConvertError>)
    ensures r.Pass? ==> forall e :: !DataViolation(a, d, e)
    ensures r.Fail? ==> DataViolation(a, d, r.error)
  {
    hide FieldsViolation, ChoicesViolation, TypeViolation;
    match d {
      case Template(_, _, _, fields, choices, _, _, key, _) =>
        var outcome := ValidateFields(a, fields);
        if outcome.Fail? {
          return outcome;
        }
        outcome := ValidateChoices(a, choices);
        if outcome.Fail? {
          return outcome;
        }
        if key.Some? {
          r := ValidateType(a, key.value);
          return;
        }
        return Pass;
      case Record(_, _, _, fields, _, _) =>
        r := ValidateFields(a, fields);
      case Variant(_, _, _, fields, _, _) =>
        r := ValidateFields(a, fields);
      case Enum(_, _, _, _, _, _) =>
        r := Pass;
    }
  }

  method ValidateMethods(a: DamlArchive, ms: seq<DamlInterfaceMethod>) returns (r: Outcome<ConvertError>)
    ensures r.Pass? ==> forall m, e :: m in ms ==> !TypeViolation(a, m.ty, e)
    ensures r.Fail? ==> exists m :: m in ms && TypeViolation(a, m.ty, r.error)
  {
    hide TypeViolation;
    for i := 0 to |ms|
      invariant forall e, j :: 0 <= j < i ==> !TypeViolation(a, ms[j].ty, e)
    {
      var outcome := ValidateType(a, ms[i].ty);
      if outcome.Fail? {
        assert ms[i] in ms;
        return outcome;
      }
    }
    r := Pass;
  }

  method ValidateInterface(a: DamlArchive, i: DamlInterface) returns (r: Outcome<ConvertError>)
    ensures r.Pass? ==> forall e :: !InterfaceViolation(a, i, e)
    ensures r.Fail? ==> InterfaceViolation(a, i, r.error)
  {
    hide ChoicesViolation, TypeViolation, ResolvesToRecord, Resolves, NameError;
    if !ResolvesToRecord(a, i.view) {
      return Fail(UnexpectedType);
    }
    var outcome := ValidateType(a, i.view);
    if outcome.Fail? {
      return outcome;
    }
    outcome := ValidateMethods(a, i.methods);
    if outcome.Fail? {
      return outcome;
    }
    outcome := ValidateChoices(a, i.choices);
    if outcome.Fail? {
      return outcome;
    }
    for k := 0 to |i.required|
      invariant forall j :: 0 <= j < k ==> Resolves(a, i.required[j])
    {
      outcome := ValidateTyConName(a, i.required[k]);
      if outcome.Fail? {
        assert i.required[k] in i.required && NameViolation(a, i.required[k], outcome.error);
        return outcome;
      }
    }
    r := Pass;
  }

  // ---------- Module walk ----------

  ghost function ModuleSize(m: ModuleView): nat
    decreases m
  {
    1 + ModulesSize(m.children)
  }

  ghost function ModulesSize(ms: seq<ModuleView>): nat
    decreases ms
  {
    if ms == [] then 0 else ModuleSize(ms[0]) + ModulesSize(ms[1..])
  }

  lemma {:induction false} ModulesAppend(xs: seq<ModuleView>, ys: seq<ModuleView>)
    ensures ModulesSize(xs + ys) == ModulesSize(xs) + ModulesSize(ys)
  {
    if xs == [] {
      assert xs + ys == ys;
    } else {
      assert (xs + ys)[1..] == xs[1..] + ys;
      ModulesAppend(xs[1..], ys);
    }
  }

  ghost predicate OwnViolation(a: DamlArchive, m: ModuleView, e: ConvertError) {
    || (exists n :: n in m.content.dataTypes && DataViolation(a, m.content.dataTypes[n], e))
    || (exists n :: n in m.content.interfaces && InterfaceViolation(a, m.content.interfaces[n], e))
  }

  /** The data types and interfaces of one module, in whatever order the maps give them. */
  method ValidateOwn(a: DamlArchive, m: ModuleView) returns (r: Outcome<ConvertError>)
    ensures r.Pass? ==> forall e :: !OwnViolation(a, m, e)
    ensures r.Fail? ==> OwnViolation(a, m, r.error)
  {
    hide DataViolation, InterfaceViolation;
    var left := m.content.dataTypes.Keys;
    while left != {}
      invariant left <= m.content.dataTypes.Keys
      invariant forall e, n :: n in m.content.dataTypes && n !in left ==>
        !DataViolation(a, m.content.dataTypes[n], e)
    {
      var n :| n in left;
      var outcome := ValidateData(a, m.content.dataTypes[n]);
      if outcome.Fail? {
        assert n in m.content.dataTypes;
        return outcome;
      }
      left := left - {n};
    }
    left := m.content.interfaces.Keys;
    while left != {}
      invariant left <= m.content.interfaces.Keys
      invariant forall e, n :: n in m.content.interfaces && n !in left ==>
        !InterfaceViolation(a, m.content.interfaces[n], e)
    {
      var n :| n in left;
      var outcome := ValidateInterface(a, m.content.interfaces[n]);
      if outcome.Fail? {
        assert n in m.content.interfaces;
        return outcome;
      }
      left := left - {n};
    }
    r := Pass;
  }

  ghost predicate SomeViolation(a: DamlArchive, ms: seq<ModuleView>, e: ConvertError) {
    exists m :: m in ms && ModuleViolation(a, m, e)
  }

  /** The roots of all packages, in whatever order the map gives them. */
  method RootModules(a: DamlArchive) returns (modules: seq<ModuleView>)
    ensures forall e :: SomeViolation(a, modules, e) <==> Violates(a, e)
  {
    hide ModuleViolation;
    modules := [];
    var left := a.packages.Keys;
    while left != {}
      invariant left <= a.packages.Keys
      invariant forall m :: m in modules ==> exists id :: id in a.packages && a.packages[id].root == m
      invariant forall id :: id in a.packages && id !in left ==> a.packages[id].root in modules
    {
      var id :| id in left;
      assert id in a.packages;
      modules := modules + [a.packages[id].root];
      left := left - {id};
    }
  }

  /** Passes exactly when the archive has no violation, and otherwise reports one of them. */
  method Validate(a: DamlArchive) returns (r: Outcome<ConvertError>)
    ensures r.Pass? ==> forall e :: !Violates(a, e)
    ensures r.Fail? ==> Violates(a, r.error)
  {
    hide OwnViolation, ModuleSize;
    var modules := RootModules(a);
    while modules != []
      invariant forall e :: Violates(a, e) <==> SomeViolation(a, modules, e)
      decreases ModulesSize(modules)
    {
      var rest, m := modules[..|modules| - 1], modules[|modules| - 1];
      assert modules == rest + [m];
      ModulesAppend(rest, [m]);
      ModulesAppend(rest, m.children);
      ModuleSizeAbove(m);
      var outcome := ValidateOwn(a, m);
      if outcome.Fail? {
        OwnIsViolation(a, m, outcome.error);
        assert SomeViolation(a, modules, outcome.error);
        return outcome;
      }
      forall e
        ensures SomeViolation(a, modules, e) <==> SomeViolation(a, rest + m.children, e)
      {
        ChildrenTakeOver(a, rest, m, e);
      }
      modules := rest + m.children;
    }
    r := Pass;
  }

  lemma ModuleSizeAbove(m: ModuleView)
    ensures ModulesSize([m]) > ModulesSize(m.children)
  {
  }

  lemma OwnIsViolation(a: DamlArchive, m: ModuleView, e: ConvertError)
    ensures OwnViolation(a, m, e) ==> ModuleViolation(a, m, e)
  {
  }

  lemma ChildrenTakeOver(a: DamlArchive, rest: seq<ModuleView>, m: ModuleView, e: ConvertError)
    requires !OwnViolation(a, m, e)
    ensures SomeViolation(a, rest + [m], e) <==> SomeViolation(a, rest + m.children, e)
  {
    hide DataViolation, InterfaceViolation;
    assert ModuleViolation(a, m, e) <==> exists c :: c in m.children && ModuleViolation(a, c, e);
    if SomeViolation(a, rest + [m], e) {
      var x :| x in rest + [m] && ModuleViolation(a, x, e);
      if x in rest {
        assert x in rest + m.children;
      } else {
        var c :| c in m.children && ModuleViolation(a, c, e);
        assert c in rest + m.children;
      }
    }
    if SomeViolation(a, rest + m.children, e) {
      var x :| x in rest + m.children && ModuleViolation(a, x, e);
      assert x in rest + [m] || m in rest + [m];
    }
  }

  // ---------- Reachability by path ----------

  ghost predicate ViolationAt(a: DamlArchive, m: ModuleView, p: Path, e: ConvertError) {
    m.ChildModulePath(p).Some? && OwnViolation(a, m.ChildModulePath(p).value, e)
  }

  /** The nodes the walk checks are exactly the ones lookups by path can reach. */
  lemma {:induction false} CheckedByPath(a: DamlArchive, m: ModuleView, e: ConvertError)
    requires WellFormed(m)
    ensures ModuleViolation(a, m, e) <==> exists p :: ViolationAt(a, m, p, e)
    decreases m
  {
    hide OwnViolation, ModuleViolation, ViolationAt;
    ModuleViolationSplits(a, m, e);
    OwnIsAt(a, m, e);
    forall c | c in m.children
      ensures ModuleViolation(a, c, e) <==> exists p :: ViolationAt(a, c, p, e)
    {
      CheckedByPath(a, c, e);
    }
    if c :| c in m.children && ModuleViolation(a, c, e) {
      var p :| ViolationAt(a, c, p, e);
      ViolationBelow(a, m, c, p, e);
    }
    if p :| ViolationAt(a, m, p, e) {
      if p != [] {
        var c := ViolatedChild(a, m, p, e);
      }
    }
  }

  lemma OwnIsAt(a: DamlArchive, m: ModuleView, e: ConvertError)
    ensures ViolationAt(a, m, [], e) <==> OwnViolation(a, m, e)
  {
    hide OwnViolation;
  }

  lemma ViolationBelow(a: DamlArchive, m: ModuleView, c: ModuleView, p: Path, e: ConvertError)
    requires WellFormed(m) && c in m.children && ViolationAt(a, c, p, e)
    ensures ViolationAt(a, m, [c.LocalName()] + p, e)
  {
    hide OwnViolation;
    ChildFound(m, c);
    assert ([c.LocalName()] + p)[1..] == p;
  }

  lemma ViolatedChild(a: DamlArchive, m: ModuleView, p: Path, e: ConvertError) returns (c: ModuleView)
    requires p != [] && ViolationAt(a, m, p, e)
    ensures c in m.children && ViolationAt(a, c, p[1..], e)
  {
    hide OwnViolation;
    c := m.ChildModule(p[0]).value;
  }

  lemma ModuleViolationSplits(a: DamlArchive, m: ModuleView, e: ConvertError)
    ensures ModuleViolation(a, m, e)
        <==> OwnViolation(a, m, e) || exists c :: c in m.children && ModuleViolation(a, c, e)
  {
  }

  lemma {:induction false} FoundFirst(children: seq<ModuleView>, c: ModuleView)
    requires c in children
    requires forall i, j :: 0 <= i < j < |children| ==> children[i].LocalName() != children[j].LocalName()
    ensures FindChild(children, c.LocalName()) == Some(c)
  {
    if children[0] != c {
      assert c in children[1..];
      var j :| 0 < j < |children| && children[j] == c;
      FoundFirst(children[1..], c);
    }
  }

  lemma ChildFound(m: ModuleView, c: ModuleView)
    requires WellFormed(m) && c in m.children
    ensures m.ChildModule(c.LocalName()) == Some(c)
  {
    FoundFirst(m.children, c);
  }
}
