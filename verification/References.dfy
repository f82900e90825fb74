/** Which packages a module tree refers to: the visitor, and the set it records. */
module References {
  import opened Wrappers
  import opened Element
  import opened Declarations
  import opened Archive
  import opened Occurrences
  import F = FlatTree

  // ---------- What is recorded ----------

  /** A local name points into its own package and records nothing. */
  function NameRefs(n: DamlTyConName): set<string> {
    if n.Local? then {} else {n.ReferencePackage()}
  }

  /** Every name in a type counts, those of synonyms included. */
  function TypeRefs(t: DamlType): set<string>
    decreases t
  {
    match t
    case TTyCon(tycon, args) => NameRefs(tycon) + AllTypeRefs(args)
    case TBoxedTyCon(tycon, args) => NameRefs(tycon) + AllTypeRefs(args)
    case TSyn(tysyn, args) => NameRefs(tysyn) + AllTypeRefs(args)
    case TContractId(inner) => if inner.Some? then TypeRefs(inner.value) else {}
    case TNumeric(args) => AllTypeRefs(args)
    case TList(args) => AllTypeRefs(args)
    case TTextMap(args) => AllTypeRefs(args)
    case TGenMap(args) => AllTypeRefs(args)
    case TOptional(args) => AllTypeRefs(args)
    case TVar(_, args) => AllTypeRefs(args)
    case TForall(_, body) => TypeRefs(body)
    case TStruct(fields) => FieldRefs(fields)
    case _ => {}
  }

  function AllTypeRefs(ts: seq<DamlType>): set<string>
    decreases ts
  {
    if ts == [] then {} else TypeRefs(ts[0]) + AllTypeRefs(ts[1..])
  }

  function FieldRefs(fs: seq<DamlField>): set<string>
    decreases fs
  {
    if fs == [] then {} else
      assert fs[0].ty < fs[0];
      TypeRefs(fs[0].ty) + FieldRefs(fs[1..])
  }

  function ChoiceRefs(cs: seq<DamlChoice>): set<string> {
    if cs == [] then {} else FieldRefs(cs[0].fields) + TypeRefs(cs[0].returnType) + ChoiceRefs(cs[1..])
  }

  /** A template's `implements` list is not visited. */
  function DataRefs(d: DamlData): set<string> {
    match d
    case Template(_, _, _, fields, choices, _, _, key, _) =>
      FieldRefs(fields) + ChoiceRefs(choices) + (if key.Some? then TypeRefs(key.value) else {})
    case Record(_, _, _, fields, _, _) => FieldRefs(fields)
    case Variant(_, _, _, fields, _, _) => FieldRefs(fields)
    case Enum(_, _, _, _, _, _) => {}
  }

  function MethodRefs(ms: seq<DamlInterfaceMethod>): set<string> {
    if ms == [] then {} else TypeRefs(ms[0].ty) + MethodRefs(ms[1..])
  }

  function RequiredRefs(ns: seq<DamlTyConName>): set<string> {
    if ns == [] then {} else NameRefs(ns[0]) + RequiredRefs(ns[1..])
  }

  function InterfaceRefs(i: DamlInterface): set<string> {
    MethodRefs(i.methods) + ChoiceRefs(i.choices) + TypeRefs(i.view) + RequiredRefs(i.required)
  }

  function SynonymRefs(ss: seq<DamlDefTypeSyn>): set<string> {
    if ss == [] then {} else TypeRefs(ss[0].ty) + SynonymRefs(ss[1..])
  }

  function DataTypesRefs(m: map<string, DamlData>): set<string> {
    set n, r | n in m && r in DataRefs(m[n]) :: r
  }

  function InterfacesRefs(m: map<string, DamlInterface>): set<string> {
    set n, r | n in m && r in InterfaceRefs(m[n]) :: r
  }

  function ContentRefs(c: ModuleContent): set<string> {
    SynonymRefs(c.synonyms) + DataTypesRefs(c.dataTypes) + InterfacesRefs(c.interfaces)
  }

  function ModuleRefs(v: ModuleView): set<string>
    decreases v
  {
    ContentRefs(v.content) + AllModuleRefs(v.children)
  }

  function AllModuleRefs(vs: seq<ModuleView>): set<string>
    decreases vs
  {
    if vs == [] then {} else ModuleRefs(vs[0]) + AllModuleRefs(vs[1..])
  }

  // ---------- It is where names point ----------

  lemma NamePoints(n: DamlTyConName, id: string)
    ensures id in NameRefs(n) <==> PointsTo(n, id)
  {
  }

  lemma OnePoints(n: DamlTyConName, names: set<DamlTyConName>, id: string)
    ensures SomePoints({n} + names, id) <==> PointsTo(n, id) || SomePoints(names, id)
  {
    hide PointsTo;
    if PointsTo(n, id) {
      assert n in {n} + names;
    }
    if m :| m in names && PointsTo(m, id) {
      assert m in {n} + names;
    }
  }

  lemma BothPoint(a: set<DamlTyConName>, b: set<DamlTyConName>, id: string)
    ensures SomePoints(a + b, id) <==> SomePoints(a, id) || SomePoints(b, id)
  {
    hide PointsTo;
    if n :| n in a && PointsTo(n, id) {
      assert n in a + b;
    }
    if n :| n in b && PointsTo(n, id) {
      assert n in a + b;
    }
  }

  /** What is recorded for a type is where the names in it point, those of synonyms included. */
  lemma {:induction false} TypeRefsPoint(t: DamlType, id: string)
    ensures id in TypeRefs(t) <==> TypePoints(t, id)
    decreases t
  {
    hide NameRefs, PointsTo, SomePoints, AllTypeRefs, FieldRefs, NamesOfAll, SynonymNamesOfAll, NamesOfFields,
      SynonymNamesOfFields;
    match t
    case TTyCon(tycon, args) => NamedRefsPoint(t, tycon, args, id);
    case TBoxedTyCon(tycon, args) => NamedRefsPoint(t, tycon, args, id);
    case TSyn(tysyn, args) => NamedRefsPoint(t, tysyn, args, id);
    case TContractId(inner) => if inner.Some? { TypeRefsPoint(inner.value, id); } else { NothingPoints(id); }
    case TNumeric(args) => AllRefsPoint(args, id);
    case TList(args) => AllRefsPoint(args, id);
    case TTextMap(args) => AllRefsPoint(args, id);
    case TGenMap(args) => AllRefsPoint(args, id);
    case TOptional(args) => AllRefsPoint(args, id);
    case TVar(_, args) => AllRefsPoint(args, id);
    case TForall(_, body) => TypeRefsPoint(body, id);
    case TStruct(fields) => FieldRefsPoint(fields, id);
    case _ => NothingPoints(id);
  }

  lemma NothingPoints(id: string)
    ensures !SomePoints({}, id) && !SomePoints({} + {}, id)
  {
  }

  lemma {:induction false} NamedRefsPoint(t: DamlType, n: DamlTyConName, args: seq<DamlType>, id: string)
    requires Names(t) + SynonymNames(t) == {n} + (NamesOfAll(args) + SynonymNamesOfAll(args))
    ensures id in NameRefs(n) + AllTypeRefs(args) <==> TypePoints(t, id)
    decreases args, 1
  {
    hide NameRefs, PointsTo, SomePoints, Names, SynonymNames;
    AllRefsPoint(args, id);
    NamePoints(n, id);
    OnePoints(n, NamesOfAll(args) + SynonymNamesOfAll(args), id);
  }

  lemma {:induction false} AllRefsPoint(ts: seq<DamlType>, id: string)
    ensures id in AllTypeRefs(ts) <==> SomePoints(NamesOfAll(ts) + SynonymNamesOfAll(ts), id)
    decreases ts, 0
  {
    hide TypeRefs, Names, SynonymNames, SomePoints;
    if ts == [] {
      NothingPoints(id);
    } else {
      TypeRefsPoint(ts[0], id);
      AllRefsPoint(ts[1..], id);
      BothPoint(Names(ts[0]) + SynonymNames(ts[0]), NamesOfAll(ts[1..]) + SynonymNamesOfAll(ts[1..]), id);
      assert NamesOfAll(ts) + SynonymNamesOfAll(ts)
          == (Names(ts[0]) + SynonymNames(ts[0])) + (NamesOfAll(ts[1..]) + SynonymNamesOfAll(ts[1..]));
    }
  }

  lemma {:induction false} FieldRefsPoint(fs: seq<DamlField>, id: string)
    ensures id in FieldRefs(fs) <==> SomePoints(NamesOfFields(fs) + SynonymNamesOfFields(fs), id)
    decreases fs
  {
    hide TypeRefs, Names, SynonymNames, SomePoints;
    if fs == [] {
      NothingPoints(id);
    } else {
      var ty := fs[0].ty;
      assert ty < fs[0];
      TypeRefsPoint(ty, id);
      FieldRefsPoint(fs[1..], id);
      BothPoint(Names(ty) + SynonymNames(ty), NamesOfFields(fs[1..]) + SynonymNamesOfFields(fs[1..]), id);
      assert NamesOfFields(fs) + SynonymNamesOfFields(fs)
          == (Names(ty) + SynonymNames(ty)) + (NamesOfFields(fs[1..]) + SynonymNamesOfFields(fs[1..]));
    }
  }

  // ---------- In declarations ----------

  ghost predicate SomeFieldPoints(fs: seq<DamlField>, id: string) {
    exists f :: f in fs && TypePoints(f.ty, id)
  }

  ghost predicate SomeChoicePoints(cs: seq<DamlChoice>, id: string) {
    exists c :: c in cs && (SomeFieldPoints(c.fields, id) || TypePoints(c.returnType, id))
  }

  lemma {:induction false} FieldsPoint(fs: seq<DamlField>, id: string)
    ensures id in FieldRefs(fs) <==> SomeFieldPoints(fs, id)
  {
    hide TypeRefs, TypePoints;
    if fs != [] {
      TypeRefsPoint(fs[0].ty, id);
      FieldsPoint(fs[1..], id);
      assert forall f :: f in fs <==> f == fs[0] || f in fs[1..];
    }
  }

  lemma {:induction false} ChoicesPoint(cs: seq<DamlChoice>, id: string)
    ensures id in ChoiceRefs(cs) <==> SomeChoicePoints(cs, id)
  {
    hide TypeRefs, TypePoints, FieldRefs, SomeFieldPoints;
    if cs != [] {
      FieldsPoint(cs[0].fields, id);
      TypeRefsPoint(cs[0].returnType, id);
      ChoicesPoint(cs[1..], id);
      assert forall c :: c in cs <==> c == cs[0] || c in cs[1..];
    }
  }

  /** The choices point where their fields, the first and any further ones, and their results do. */
  lemma ChoiceTypesPoint(cs: seq<DamlChoice>, id: string)
    ensures SomeChoicePoints(cs, id)
        <==> exists t :: (TypeOfChoices(cs, t) || FurtherField(cs, t)) && TypePoints(t, id)
  {
    hide TypePoints;
    if SomeChoicePoints(cs, id) {
      var c :| c in cs && (SomeFieldPoints(c.fields, id) || TypePoints(c.returnType, id));
      if TypePoints(c.returnType, id) {
        assert TypeOfChoices(cs, c.returnType);
      } else {
        var f :| f in c.fields && TypePoints(f.ty, id);
        var k :| 0 <= k < |c.fields| && c.fields[k] == f;
        assert TypeOfChoices(cs, f.ty) || FurtherField(cs, f.ty);
      }
    }
    if t :| TypeOfChoices(cs, t) && TypePoints(t, id) {
      var c :| c in cs && ((c.fields != [] && t == c.fields[0].ty) || t == c.returnType);
      assert SomeFieldPoints(c.fields, id) || TypePoints(c.returnType, id);
    }
    if t :| FurtherField(cs, t) && TypePoints(t, id) {
      var c, k :| c in cs && 0 < k < |c.fields| && t == c.fields[k].ty;
      assert SomeFieldPoints(c.fields, id);
    }
  }

  lemma DataRefsPoint(d: DamlData, id: string)
    ensures id in DataRefs(d) <==> DataPoints(d, id)
  {
    hide TypeRefs, TypePoints, FieldRefs, ChoiceRefs, SomeChoicePoints, TypeOfChoices, FurtherField;
    FieldsPoint(Fields(d), id);
    ChoicesPoint(ChoicesOf(d), id);
    ChoiceTypesPoint(ChoicesOf(d), id);
    NoChoices();
    if d.Template? && d.key.Some? {
      TypeRefsPoint(d.key.value, id);
      assert TypeOf(d, d.key.value);
    }
    if f :| f in Fields(d) && TypePoints(f.ty, id) {
      assert TypeOf(d, f.ty);
    }
    if t :| (TypeOfChoices(ChoicesOf(d), t) || FurtherField(ChoicesOf(d), t)) && TypePoints(t, id) {
      assert TypeInData(d, t);
    }
  }

  lemma NoChoices()
    ensures forall t :: !TypeOfChoices([], t) && !FurtherField([], t)
  {
  }

  lemma {:induction false} MethodsPoint(ms: seq<DamlInterfaceMethod>, id: string)
    ensures id in MethodRefs(ms) <==> exists m :: m in ms && TypePoints(m.ty, id)
  {
    hide TypeRefs, TypePoints;
    if ms != [] {
      TypeRefsPoint(ms[0].ty, id);
      MethodsPoint(ms[1..], id);
      assert forall m :: m in ms <==> m == ms[0] || m in ms[1..];
    }
  }

  lemma {:induction false} RequiredPoint(ns: seq<DamlTyConName>, id: string)
    ensures id in RequiredRefs(ns) <==> exists n :: n in ns && PointsTo(n, id)
  {
    hide NameRefs, PointsTo;
    if ns != [] {
      NamePoints(ns[0], id);
      RequiredPoint(ns[1..], id);
      assert forall n :: n in ns <==> n == ns[0] || n in ns[1..];
    }
  }

  lemma InterfaceRefsPoint(i: DamlInterface, id: string)
    ensures id in InterfaceRefs(i) <==> InterfacePoints(i, id)
  {
    hide TypeRefs, TypePoints, MethodRefs, ChoiceRefs, RequiredRefs, SomeChoicePoints, TypeOfChoices, FurtherField,
      PointsTo;
    MethodsPoint(i.methods, id);
    ChoicesPoint(i.choices, id);
    ChoiceTypesPoint(i.choices, id);
    TypeRefsPoint(i.view, id);
    RequiredPoint(i.required, id);
    assert TypeInInterface(i, i.view);
    if m :| m in i.methods && TypePoints(m.ty, id) {
      assert TypeInInterface(i, m.ty);
    }
    if t :| (TypeOfChoices(i.choices, t) || FurtherField(i.choices, t)) && TypePoints(t, id) {
      assert TypeInInterface(i, t);
    }
  }

  lemma {:induction false} SynonymsPoint(ss: seq<DamlDefTypeSyn>, id: string)
    ensures id in SynonymRefs(ss) <==> exists s :: s in ss && TypePoints(s.ty, id)
  {
    hide TypeRefs, TypePoints;
    if ss != [] {
      TypeRefsPoint(ss[0].ty, id);
      SynonymsPoint(ss[1..], id);
      assert forall s :: s in ss <==> s == ss[0] || s in ss[1..];
    }
  }

  /** What is recorded for a module is where the names at the positions visited in it point. */
  lemma ContentRefsPoint(c: ModuleContent, id: string)
    ensures id in ContentRefs(c) <==> ContentPoints(c, id)
  {
    hide SynonymRefs, DataRefs, InterfaceRefs, TypePoints, TypeInData, TypeInInterface, PointsTo;
    SynonymsPoint(c.synonyms, id);
    forall k | k in c.dataTypes
      ensures id in DataRefs(c.dataTypes[k]) <==> DataPoints(c.dataTypes[k], id)
    {
      DataRefsPoint(c.dataTypes[k], id);
    }
    forall k | k in c.interfaces
      ensures id in InterfaceRefs(c.interfaces[k]) <==> InterfacePoints(c.interfaces[k], id)
    {
      InterfaceRefsPoint(c.interfaces[k], id);
    }
    if s :| s in c.synonyms && TypePoints(s.ty, id) {
      assert TypeIn(c, s.ty);
    }
    if k :| k in c.dataTypes && DataPoints(c.dataTypes[k], id) {
      var t :| TypeInData(c.dataTypes[k], t) && TypePoints(t, id);
      assert TypeIn(c, t);
    }
    if k :| k in c.interfaces && InterfacePoints(c.interfaces[k], id) {
      if t :| TypeInInterface(c.interfaces[k], t) && TypePoints(t, id) {
        assert TypeIn(c, t);
      } else {
        var n :| n in c.interfaces[k].required && PointsTo(n, id);
        assert Required(c, n);
      }
    }
    if ContentPoints(c, id) {
      PointsIsRecorded(c, id);
    }
  }

  lemma PointsIsRecorded(c: ModuleContent, id: string)
    requires ContentPoints(c, id)
    ensures || (exists s :: s in c.synonyms && TypePoints(s.ty, id))
            || (exists k :: k in c.dataTypes && DataPoints(c.dataTypes[k], id))
            || (exists k :: k in c.interfaces && InterfacePoints(c.interfaces[k], id))
  {
    hide TypePoints, TypeInData, TypeInInterface, PointsTo;
    if t :| TypeIn(c, t) && TypePoints(t, id) {
      if k :| k in c.dataTypes && TypeInData(c.dataTypes[k], t) {
        assert DataPoints(c.dataTypes[k], id);
      } else if k :| k in c.interfaces && TypeInInterface(c.interfaces[k], t) {
        assert InterfacePoints(c.interfaces[k], id);
      }
    } else {
      var n :| Required(c, n) && PointsTo(n, id);
      var k :| k in c.interfaces && n in c.interfaces[k].required;
      assert InterfacePoints(c.interfaces[k], id);
    }
  }

  /** The same for a module and everything below it. */
  ghost predicate ModulePoints(v: ModuleView, id: string)
    decreases v
  {
    ContentPoints(v.content, id) || exists c :: c in v.children && ModulePoints(c, id)
  }

  lemma {:induction false} ModuleRefsPoint(v: ModuleView, id: string)
    ensures id in ModuleRefs(v) <==> ModulePoints(v, id)
    decreases v
  {
    hide ContentRefs, ContentPoints;
    ContentRefsPoint(v.content, id);
    forall c | c in v.children
      ensures id in ModuleRefs(c) <==> ModulePoints(c, id)
    {
      ModuleRefsPoint(c, id);
    }
    AllRefsMember(v.children, id);
  }

  // ---------- The visitor ----------

  lemma SplitDataTypes(m: map<string, DamlData>, n: string)
    requires n in m
    ensures DataTypesRefs(m) == DataRefs(m[n]) + DataTypesRefs(m - {n})
  {
    hide DataRefs;
    forall r | r in DataTypesRefs(m)
      ensures r in DataRefs(m[n]) + DataTypesRefs(m - {n})
    {
      var k :| k in m && r in DataRefs(m[k]);
      if k != n {
        assert k in m - {n} && (m - {n})[k] == m[k];
      }
    }
  }

  lemma SplitInterfaces(m: map<string, DamlInterface>, n: string)
    requires n in m
    ensures InterfacesRefs(m) == InterfaceRefs(m[n]) + InterfacesRefs(m - {n})
  {
    hide InterfaceRefs;
    forall r | r in InterfacesRefs(m)
      ensures r in InterfaceRefs(m[n]) + InterfacesRefs(m - {n})
    {
      var k :| k in m && r in InterfaceRefs(m[k]);
      if k != n {
        assert k in m - {n} && (m - {n})[k] == m[k];
      }
    }
  }

  lemma EmptyMapsRecordNothing()
    ensures DataTypesRefs(map[]) == {} && InterfacesRefs(map[]) == {}
  {
  }

  class ReferencedPackagesVisitor {
    const selfPackageId: string
    var referenced: set<string>

    constructor (selfPackageId: string)
      ensures this.selfPackageId == selfPackageId && referenced == {}
    {
      this.selfPackageId := selfPackageId;
      referenced := {};
    }

    /** The empty id and the package itself are not recorded. */
    ghost function Foreign(refs: set<string>): set<string> {
      refs - {"", selfPackageId}
    }

    /** A package other than the visitor's own. */
    predicate Others(id: string) {
      id != "" && id != selfPackageId
    }

    method Record(packageId: string)
      modifies this
      ensures referenced == old(referenced) + Foreign({packageId})
      ensures forall id :: id in referenced <==> id in old(referenced) || (id == packageId && Others(id))
    {
      if packageId != "" && packageId != selfPackageId {
        referenced := referenced + {packageId};
      }
    }

    method VisitName(n: DamlTyConName)
      modifies this
      ensures referenced == old(referenced) + Foreign(NameRefs(n))
    {
      match n {
        case Local(_, _, _, _) =>
        case NonLocal(_, _, _, _, target, _, _) => Record(target);
        case Absolute(_, packageId, _, _) => Record(packageId);
      }
    }

    method VisitType(t: DamlType)
      modifies this
      ensures referenced == old(referenced) + Foreign(TypeRefs(t))
      ensures forall id :: id in referenced <==> id in old(referenced) || (Others(id) && TypePoints(t, id))
      decreases t
    {
      hide AllTypeRefs, FieldRefs, NameRefs, TypePoints;
      match t {
        case TTyCon(tycon, args) => VisitName(tycon); VisitTypes(args);
        case TBoxedTyCon(tycon, args) => VisitName(tycon); VisitTypes(args);
        case TSyn(tysyn, args) => VisitName(tysyn); VisitTypes(args);
        case TContractId(inner) => if inner.Some? { VisitType(inner.value); }
        case TNumeric(args) => VisitTypes(args);
        case TList(args) => VisitTypes(args);
        case TTextMap(args) => VisitTypes(args);
        case TGenMap(args) => VisitTypes(args);
        case TOptional(args) => VisitTypes(args);
        case TVar(_, args) => VisitTypes(args);
        case TForall(_, body) => VisitType(body);
        case TStruct(fields) => VisitFields(fields);
        case _ =>
      }
      forall id
        ensures id in TypeRefs(t) <==> TypePoints(t, id)
      {
        TypeRefsPoint(t, id);
      }
    }

    method VisitTypes(ts: seq<DamlType>)
      modifies this
      ensures referenced == old(referenced) + Foreign(AllTypeRefs(ts))
      decreases ts
    {
      hide TypeRefs, TypePoints;
      for i := 0 to |ts|
        invariant referenced + Foreign(AllTypeRefs(ts[i..])) == old(referenced) + Foreign(AllTypeRefs(ts))
      {
        VisitType(ts[i]);
        assert ts[i..][1..] == ts[i + 1..];
      }
      assert ts[|ts|..] == [];
    }

    method VisitFields(fs: seq<DamlField>)
      modifies this
      ensures referenced == old(referenced) + Foreign(FieldRefs(fs))
      decreases fs
    {
      hide TypeRefs, TypePoints;
      for i := 0 to |fs|
        invariant referenced + Foreign(FieldRefs(fs[i..])) == old(referenced) + Foreign(FieldRefs(fs))
      {
        assert fs[i].ty < fs[i];
        VisitType(fs[i].ty);
        assert fs[i..][1..] == fs[i + 1..];
      }
      assert fs[|fs|..] == [];
    }

    method VisitChoices(cs: seq<DamlChoice>)
      modifies this
      ensures referenced == old(referenced) + Foreign(ChoiceRefs(cs))
    {
      hide TypeRefs, FieldRefs, TypePoints;
      for i := 0 to |cs|
        invariant referenced + Foreign(ChoiceRefs(cs[i..])) == old(referenced) + Foreign(ChoiceRefs(cs))
      {
        VisitFields(cs[i].fields);
        VisitType(cs[i].returnType);
        assert cs[i..][1..] == cs[i + 1..];
      }
      assert cs[|cs|..] == [];
    }

    method VisitData(d: DamlData)
      modifies this
      ensures referenced == old(referenced) + Foreign(DataRefs(d))
      ensures forall id :: id in referenced <==> id in old(referenced) || (Others(id) && DataPoints(d, id))
    {
      hide TypeRefs, FieldRefs, ChoiceRefs, DataPoints, TypePoints;
      match d {
        case Template(_, _, _, fields, choices, _, _, key, _) =>
          VisitFields(fields);
          VisitChoices(choices);
          if key.Some? {
            VisitType(key.value);
          }
        case Record(_, _, _, fields, _, _) => VisitFields(fields);
        case Variant(_, _, _, fields, _, _) => VisitFields(fields);
        case Enum(_, _, _, _, _, _) =>
      }
      forall id
        ensures id in DataRefs(d) <==> DataPoints(d, id)
      {
        DataRefsPoint(d, id);
      }
    }

    method VisitInterface(iface: DamlInterface)
      modifies this
      ensures referenced == old(referenced) + Foreign(InterfaceRefs(iface))
      ensures forall id :: id in referenced <==> id in old(referenced) || (Others(id) && InterfacePoints(iface, id))
    {
      hide TypeRefs, ChoiceRefs, InterfacePoints, TypePoints;
      VisitMethods(iface.methods);
      VisitChoices(iface.choices);
      VisitType(iface.view);
      VisitNames(iface.required);
      forall id
        ensures id in InterfaceRefs(iface) <==> InterfacePoints(iface, id)
      {
        InterfaceRefsPoint(iface, id);
      }
    }

    method VisitMethods(ms: seq<DamlInterfaceMethod>)
      modifies this
      ensures referenced == old(referenced) + Foreign(MethodRefs(ms))
    {
      hide TypeRefs, TypePoints;
      for i := 0 to |ms|
        invariant referenced + Foreign(MethodRefs(ms[i..])) == old(referenced) + Foreign(MethodRefs(ms))
      {
        VisitType(ms[i].ty);
        assert ms[i..][1..] == ms[i + 1..];
      }
      assert ms[|ms|..] == [];
    }

    method VisitNames(ns: seq<DamlTyConName>)
      modifies this
      ensures referenced == old(referenced) + Foreign(RequiredRefs(ns))
    {
      for i := 0 to |ns|
        invariant referenced + Foreign(RequiredRefs(ns[i..])) == old(referenced) + Foreign(RequiredRefs(ns))
      {
        VisitName(ns[i]);
        assert ns[i..][1..] == ns[i + 1..];
      }
      assert ns[|ns|..] == [];
    }

    method VisitSynonyms(ss: seq<DamlDefTypeSyn>)
      modifies this
      ensures referenced == old(referenced) + Foreign(SynonymRefs(ss))
    {
      hide TypeRefs, TypePoints;
      for i := 0 to |ss|
        invariant referenced + Foreign(SynonymRefs(ss[i..])) == old(referenced) + Foreign(SynonymRefs(ss))
      {
        VisitType(ss[i].ty);
        assert ss[i..][1..] == ss[i + 1..];
      }
      assert ss[|ss|..] == [];
    }

    /** Maps are walked in whatever order they iterate. */
    method VisitDataTypes(m: map<string, DamlData>)
      modifies this
      ensures referenced == old(referenced) + Foreign(DataTypesRefs(m))
    {
      hide DataRefs, DataTypesRefs, DataPoints;
      var left := m;
      while left != map[]
        invariant forall n :: n in left ==> n in m && left[n] == m[n]
        invariant referenced + Foreign(DataTypesRefs(left)) == old(referenced) + Foreign(DataTypesRefs(m))
        decreases |left|
      {
        var n :| n in left;
        VisitData(left[n]);
        SplitDataTypes(left, n);
        left := left - {n};
      }
      EmptyMapsRecordNothing();
    }

    method VisitInterfaces(m: map<string, DamlInterface>)
      modifies this
      ensures referenced == old(referenced) + Foreign(InterfacesRefs(m))
    {
      hide InterfaceRefs, InterfacesRefs, InterfacePoints;
      var left := m;
      while left != map[]
        invariant forall n :: n in left ==> n in m && left[n] == m[n]
        invariant referenced + Foreign(InterfacesRefs(left)) == old(referenced) + Foreign(InterfacesRefs(m))
        decreases |left|
      {
        var n :| n in left;
        VisitInterface(left[n]);
        SplitInterfaces(left, n);
        left := left - {n};
      }
      EmptyMapsRecordNothing();
    }

    method VisitModule(v: ModuleView)
      modifies this
      ensures referenced == old(referenced) + Foreign(ModuleRefs(v))
      ensures forall id :: id in referenced <==> id in old(referenced) || (Others(id) && ModulePoints(v, id))
      decreases v
    {
      hide SynonymRefs, DataTypesRefs, InterfacesRefs, ContentPoints;
      VisitSynonyms(v.content.synonyms);
      VisitDataTypes(v.content.dataTypes);
      VisitInterfaces(v.content.interfaces);
      VisitModules(v.children);
      forall id
        ensures id in ModuleRefs(v) <==> ModulePoints(v, id)
      {
        ModuleRefsPoint(v, id);
      }
    }

    method VisitModules(vs: seq<ModuleView>)
      modifies this
      ensures referenced == old(referenced) + Foreign(AllModuleRefs(vs))
      decreases vs
    {
      hide ModuleRefs, ModulePoints;
      for i := 0 to |vs|
        invariant referenced + Foreign(AllModuleRefs(vs[i..])) == old(referenced) + Foreign(AllModuleRefs(vs))
      {
        VisitModule(vs[i]);
        assert vs[i..][1..] == vs[i + 1..];
      }
      assert vs[|vs|..] == [];
    }
  }

  // ---------- The tree as a whole ----------

  function TreeRefs(f: F.FlatTree): set<string> {
    set p, r | p in f && r in ContentRefs(f[p]) :: r
  }

  ghost predicate RefersBelow(f: F.FlatTree, p: Path, r: string) {
    exists q :: p <= q && q in f && r in ContentRefs(f[q])
  }

  /** What the visitor records does not depend on the order of the child maps. */
  lemma {:induction false} ViewRefs(v: ModuleView, f: F.FlatTree, p: Path, r: string)
    requires ViewOf(v, f, p) && PrefixClosed(f)
    ensures r in ModuleRefs(v) <==> RefersBelow(f, p, r)
    decreases v
  {
    hide ContentRefs;
    forall c | c in v.children
      ensures r in ModuleRefs(c) <==> RefersBelow(f, c.path, r)
    {
      ViewRefs(c, f, c.path, r);
    }
    AllRefsMember(v.children, r);
    if RefersBelow(f, p, r) {
      var q :| p <= q && q in f && r in ContentRefs(f[q]);
      if q != p {
        var c := ChildAbove(v, f, p, q);
        assert RefersBelow(f, c.path, r);
      }
    }
    if r in ModuleRefs(v) {
      if r in ContentRefs(v.content) {
        assert p <= p && r in ContentRefs(f[p]);
      } else {
        var c :| c in v.children && r in ModuleRefs(c);
        assert p <= c.path;
        RefersHigher(f, p, c.path, r);
      }
    }
  }

  lemma ChildAbove(v: ModuleView, f: F.FlatTree, p: Path, q: Path) returns (c: ModuleView)
    requires ViewOf(v, f, p) && PrefixClosed(f) && p < q && q in f
    ensures c in v.children && c.path <= q
  {
    hide PrefixClosed, ViewOf;
    var k := q[|p|];
    assert q == (p + [k]) + q[|p| + 1..];
    PrefixIn(f, p + [k], q[|p| + 1..]);
    c := ChildAt(v, f, p, k);
  }

  lemma ChildAt(v: ModuleView, f: F.FlatTree, p: Path, k: string) returns (c: ModuleView)
    requires ViewOf(v, f, p) && p + [k] in f
    ensures c in v.children && c.path == p + [k]
  {
    c :| c in v.children && c.path == p + [k];
  }

  lemma RefersHigher(f: F.FlatTree, p: Path, p': Path, r: string)
    requires p <= p' && RefersBelow(f, p', r)
    ensures RefersBelow(f, p, r)
  {
    hide ContentRefs;
    var q :| p' <= q && q in f && r in ContentRefs(f[q]);
    assert p <= q;
  }

  lemma {:induction false} AllRefsMember(vs: seq<ModuleView>, r: string)
    ensures r in AllModuleRefs(vs) <==> exists c :: c in vs && r in ModuleRefs(c)
  {
    hide ModuleRefs;
    if vs != [] {
      AllRefsMember(vs[1..], r);
      assert vs[0] in vs;
      if c :| c in vs && r in ModuleRefs(c) {
        assert c == vs[0] || c in vs[1..];
      }
      if c :| c in vs[1..] && r in ModuleRefs(c) {
        assert c in vs;
      }
    }
  }

  lemma VisitedTree(v: ModuleView, f: F.FlatTree)
    requires ViewOf(v, f, []) && PrefixClosed(f)
    ensures ModuleRefs(v) == TreeRefs(f)
    ensures forall id :: id in ModuleRefs(v) <==> exists p :: p in f && ContentPoints(f[p], id)
  {
    hide ContentRefs, ContentPoints, ViewOf;
    forall r
      ensures r in ModuleRefs(v) <==> r in TreeRefs(f)
    {
      ViewRefs(v, f, [], r);
    }
    forall p, id | p in f
      ensures id in ContentRefs(f[p]) <==> ContentPoints(f[p], id)
    {
      ContentRefsPoint(f[p], id);
    }
  }
}
