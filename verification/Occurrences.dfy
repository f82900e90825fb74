/** Which types a declaration is written with, and which names those types hold. */
module Occurrences {
  import opened Wrappers
  import opened Element
  import opened Declarations

  // ---------- The names of a type ----------

  /** The type-constructor names in a type. Those in a synonym's arguments count, its own name does not. */
  ghost function Names(t: DamlType): set<DamlTyConName>
    decreases t
  {
    match t
    case TTyCon(tycon, args) => {tycon} + NamesOfAll(args)
    case TBoxedTyCon(tycon, args) => {tycon} + NamesOfAll(args)
    case TContractId(inner) => if inner.Some? then Names(inner.value) else {}
    case TNumeric(args) => NamesOfAll(args)
    case TList(args) => NamesOfAll(args)
    case TTextMap(args) => NamesOfAll(args)
    case TGenMap(args) => NamesOfAll(args)
    case TOptional(args) => NamesOfAll(args)
    case TVar(_, args) => NamesOfAll(args)
    case TForall(_, body) => Names(body)
    case TStruct(fields) => NamesOfFields(fields)
    case TSyn(_, args) => NamesOfAll(args)
    case _ => {}
  }

  ghost function NamesOfAll(ts: seq<DamlType>): set<DamlTyConName>
    decreases ts
  {
    if ts == [] then {} else Names(ts[0]) + NamesOfAll(ts[1..])
  }

  ghost function NamesOfFields(fs: seq<DamlField>): set<DamlTyConName>
    decreases fs
  {
    if fs == [] then {} else
      assert fs[0].ty < fs[0];
      Names(fs[0].ty) + NamesOfFields(fs[1..])
  }

  /** The synonyms a type is written with. */
  ghost function SynonymNames(t: DamlType): set<DamlTyConName>
    decreases t
  {
    match t
    case TSyn(tysyn, args) => {tysyn} + SynonymNamesOfAll(args)
    case TTyCon(_, args) => SynonymNamesOfAll(args)
    case TBoxedTyCon(_, args) => SynonymNamesOfAll(args)
    case TContractId(inner) => if inner.Some? then SynonymNames(inner.value) else {}
    case TNumeric(args) => SynonymNamesOfAll(args)
    case TList(args) => SynonymNamesOfAll(args)
    case TTextMap(args) => SynonymNamesOfAll(args)
    case TGenMap(args) => SynonymNamesOfAll(args)
    case TOptional(args) => SynonymNamesOfAll(args)
    case TVar(_, args) => SynonymNamesOfAll(args)
    case TForall(_, body) => SynonymNames(body)
    case TStruct(fields) => SynonymNamesOfFields(fields)
    case _ => {}
  }

  ghost function SynonymNamesOfAll(ts: seq<DamlType>): set<DamlTyConName>
    decreases ts
  {
    if ts == [] then {} else SynonymNames(ts[0]) + SynonymNamesOfAll(ts[1..])
  }

  ghost function SynonymNamesOfFields(fs: seq<DamlField>): set<DamlTyConName>
    decreases fs
  {
    if fs == [] then {} else
      assert fs[0].ty < fs[0];
      SynonymNames(fs[0].ty) + SynonymNamesOfFields(fs[1..])
  }

  // ---------- The types of a declaration ----------

  function Fields(d: DamlData): seq<DamlField> {
    if d.Enum? then [] else d.fields
  }

  ghost predicate TypeOfChoices(cs: seq<DamlChoice>, t: DamlType) {
    exists c :: c in cs && ((c.fields != [] && t == c.fields[0].ty) || t == c.returnType)
  }

  /** The types of a declaration: of its fields, of its choices' arguments and results, and of its key. */
  ghost predicate TypeOf(d: DamlData, t: DamlType) {
    || (exists f :: f in Fields(d) && t == f.ty)
    || (d.Template? && TypeOfChoices(d.choices, t))
    || (d.Template? && d.key == Some(t))
  }

  // ---------- The names of a module ----------

  ghost predicate TypeOfInterface(i: DamlInterface, t: DamlType) {
    || t == i.view
    || (exists m :: m in i.methods && t == m.ty)
    || TypeOfChoices(i.choices, t)
  }

  ghost predicate TypeOfSynonyms(ss: seq<DamlDefTypeSyn>, t: DamlType) {
    exists s :: s in ss && t == s.ty
  }

  /** The type of a field of a choice other than the first. */
  ghost predicate FurtherField(cs: seq<DamlChoice>, t: DamlType) {
    exists c, k :: c in cs && 0 < k < |c.fields| && t == c.fields[k].ty
  }

  ghost function ChoicesOf(d: DamlData): seq<DamlChoice> {
    if d.Template? then d.choices else []
  }

  /** A type of a data type, in any position: fields, fields and result of a choice, key. */
  ghost predicate TypeInData(d: DamlData, t: DamlType) {
    TypeOf(d, t) || FurtherField(ChoicesOf(d), t)
  }

  ghost predicate TypeInInterface(i: DamlInterface, t: DamlType) {
    TypeOfInterface(i, t) || FurtherField(i.choices, t)
  }

  /** A type anywhere in a module. */
  ghost predicate TypeIn(c: ModuleContent, t: DamlType) {
    || (exists k :: k in c.dataTypes && TypeInData(c.dataTypes[k], t))
    || (exists k :: k in c.interfaces && TypeInInterface(c.interfaces[k], t))
    || TypeOfSynonyms(c.synonyms, t)
  }

  ghost predicate Implemented(c: ModuleContent, n: DamlTyConName) {
    exists k :: k in c.dataTypes && c.dataTypes[k].Template? && n in c.dataTypes[k].implements
  }

  ghost predicate Required(c: ModuleContent, n: DamlTyConName) {
    exists k :: k in c.interfaces && n in c.interfaces[k].required
  }

  /** A type-constructor name anywhere in a module. */
  ghost predicate Mentioned(c: ModuleContent, n: DamlTyConName) {
    (exists t :: TypeIn(c, t) && n in Names(t)) || Implemented(c, n) || Required(c, n)
  }

  /** A synonym's name anywhere in a module. */
  ghost predicate SynonymMentioned(c: ModuleContent, n: DamlTyConName) {
    exists t :: TypeIn(c, t) && n in SynonymNames(t)
  }

  // ---------- References to packages ----------

  /** A name that is not local points into a package. */
  predicate PointsTo(n: DamlTyConName, id: string) {
    match n
    case Local(_, _, _, _) => false
    case NonLocal(_, _, _, _, target, _, _) => target == id
    case Absolute(_, packageId, _, _) => packageId == id
  }

  ghost predicate SomePoints(names: set<DamlTyConName>, id: string) {
    exists n :: n in names && PointsTo(n, id)
  }

  /** Some name the type is written with, of a type constructor or of a synonym, points into the package. */
  ghost predicate TypePoints(t: DamlType, id: string) {
    SomePoints(Names(t) + SynonymNames(t), id)
  }

  ghost predicate DataPoints(d: DamlData, id: string) {
    exists t :: TypeInData(d, t) && TypePoints(t, id)
  }

  ghost predicate InterfacePoints(i: DamlInterface, id: string) {
    || (exists t :: TypeInInterface(i, t) && TypePoints(t, id))
    || (exists n :: n in i.required && PointsTo(n, id))
  }

  /** Some name in the module points into the package: in the type of a declaration or synonym, or among the
      interfaces an interface requires, but not in an `implements` list. */
  ghost predicate ContentPoints(c: ModuleContent, id: string) {
    || (exists t :: TypeIn(c, t) && TypePoints(t, id))
    || (exists n :: Required(c, n) && PointsTo(n, id))
  }
}
