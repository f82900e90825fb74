/** Printing types and the paths in them, and deciding beforehand whether a type can be printed. */
module TypeRenderer {
  import opened Wrappers
  import opened Element
  import opened Archive
  import opened Identifiers
  import opened Renderer
  import Occurrences

  /** `crate::a::b::`, or some `super::`s followed by a tail. */
  datatype RustPath =
    | InCrate(segments: seq<string>)
    | Relative(supers: nat, tail: seq<string>)

  datatype TypeTokens =
    | Primitive(name: string, args: seq<TypeTokens>)
    | NatMarker(n: nat)
    | Named(path: RustPath, ident: string, args: seq<TypeTokens>)
    | Boxed(inner: TypeTokens)
    | Parameter(name: string)

  datatype Panic = CannotRender

  // ---------- Paths ----------

  function Snakes(s: Settings, path: Path): (r: seq<string>)
    ensures |r| == |path| && forall i :: 0 <= i < |path| ==> r[i] == s.snake(path[i])
  {
    if path == [] then [] else [s.snake(path[0])] + Snakes(s, path[1..])
  }

  function Escapes(path: seq<string>): (r: seq<string>)
    ensures |r| == |path| && forall i :: 0 <= i < |path| ==> r[i] == Escape(path[i])
  {
    if path == [] then [] else [Escape(path[0])] + Escapes(path[1..])
  }

  /** How many leading segments two paths share. */
  function CommonPrefix(a: seq<string>, b: seq<string>): (n: nat)
    ensures n <= |a| && n <= |b| && a[..n] == b[..n]
    ensures n < |a| && n < |b| ==> a[n] != b[n]
  {
    if a == [] || b == [] || a[0] != b[0] then 0 else 1 + CommonPrefix(a[1..], b[1..])
  }

  function QuoteNonLocalPath(s: Settings, name: DamlTyConName): RustPath
    requires name.NonLocal?
  {
    var current := Snakes(s, [name.sourcePackageName] + name.sourceModulePath);
    var target := Snakes(s, [name.targetPackageName] + name.targetModulePath);
    var common := CommonPrefix(current, target);
    Relative(|current| - common, Escapes(target[common..]))
  }

  function QuoteAbsolutePath(s: Settings, name: DamlTyConName): RustPath
    requires name.Absolute?
  {
    InCrate(
      if name.packageName == "" then ModIdents(s, name.modulePath)
      else ModIdents(s, [name.packageName] + name.modulePath))
  }

  function QuotePath(s: Settings, name: DamlTyConName): RustPath {
    match name
    case Local(_, _, _, _) => Relative(0, [])
    case NonLocal(_, _, _, _, _, _, _) => QuoteNonLocalPath(s, name)
    case Absolute(_, _, _, _) => QuoteAbsolutePath(s, name)
  }

  // ---------- Types ----------

  function PrimitiveName(t: DamlType): string {
    match t
    case TContractId(_) => "DamlContractId"
    case TInt64 => "DamlInt64"
    case TNumeric(_) => "DamlFixedNumeric"
    case TText => "DamlText"
    case TTimestamp => "DamlTimestamp"
    case TParty => "DamlParty"
    case TBool => "DamlBool"
    case TUnit => "DamlUnit"
    case TDate => "DamlDate"
    case TList(_) => "DamlList"
    case TTextMap(_) => "DamlTextMap"
    case TGenMap(_) => "DamlGenMap"
    case TOptional(_) => "DamlOptional"
    case _ => ""
  }

  /** Only the first argument of a one-argument primitive is printed, and the first two of a map; the
      argument of a contract id is not printed at all. */
  function QuoteType(s: Settings, t: DamlType): Result<TypeTokens, Panic>
    decreases t
  {
    match t
    case TList(args) => QuoteOneArg(s, PrimitiveName(t), args)
    case TOptional(args) => QuoteOneArg(s, PrimitiveName(t), args)
    case TNumeric(args) => QuoteOneArg(s, PrimitiveName(t), args)
    case TTextMap(args) => QuoteTwoArgs(s, PrimitiveName(t), args)
    case TGenMap(args) => QuoteTwoArgs(s, PrimitiveName(t), args)
    case TTyCon(tycon, args) => QuoteTyCon(s, tycon, args)
    case TBoxedTyCon(tycon, args) =>
      var inner :- QuoteTyCon(s, tycon, args);
      Success(Boxed(inner))
    case TVar(name, _) => Success(Parameter(name))
    case TNat(n) => Success(NatMarker(n))
    case TContractId(_) => Success(Primitive(PrimitiveName(t), []))
    case TInt64 => Success(Primitive(PrimitiveName(t), []))
    case TText => Success(Primitive(PrimitiveName(t), []))
    case TTimestamp => Success(Primitive(PrimitiveName(t), []))
    case TParty => Success(Primitive(PrimitiveName(t), []))
    case TBool => Success(Primitive(PrimitiveName(t), []))
    case TUnit => Success(Primitive(PrimitiveName(t), []))
    case TDate => Success(Primitive(PrimitiveName(t), []))
    case _ => Failure(CannotRender)
  }

  function QuoteOneArg(s: Settings, name: string, args: seq<DamlType>): Result<TypeTokens, Panic>
    decreases args, 1
  {
    if args == [] then Success(Primitive(name, [])) else
      var arg :- QuoteType(s, args[0]);
      Success(Primitive(name, [arg]))
  }

  function QuoteTwoArgs(s: Settings, name: string, args: seq<DamlType>): Result<TypeTokens, Panic>
    decreases args, 1
  {
    if |args| < 2 then Success(Primitive(name, [])) else
      var key :- QuoteType(s, args[0]);
      var value :- QuoteType(s, args[1]);
      Success(Primitive(name, [key, value]))
  }

  function QuoteTyCon(s: Settings, tycon: DamlTyConName, args: seq<DamlType>): Result<TypeTokens, Panic>
    decreases args, 1
  {
    var ts :- QuoteTypes(s, args);
    Success(Named(QuotePath(s, tycon), Escape(tycon.dataName), ts))
  }

  function QuoteTypes(s: Settings, ts: seq<DamlType>): Result<seq<TypeTokens>, Panic>
    decreases ts, 0
  {
    if ts == [] then Success([]) else
      var head :- QuoteType(s, ts[0]);
      var tail :- QuoteTypes(s, ts[1..]);
      Success([head] + tail)
  }

  // ---------- Renderability ----------

  datatype RenderFilterMode = HigherKindedType | NonSerializable

  function TypeParams(d: DamlData): seq<DamlTypeVarWithKind> {
    if d.Template? then [] else d.typeParams
  }

  /** May a type constructor with this target be printed? Unknown targets may. */
  predicate CheckTargetData(a: DamlArchive, mode: RenderFilterMode, tycon: DamlTyConName) {
    var data := a.DataByTyConName(tycon);
    data.None? ||
    match mode
    case HigherKindedType => forall p :: p in TypeParams(data.value) ==> !p.kind.KArrow?
    case NonSerializable => data.value.serializable
  }

  predicate CheckType(a: DamlArchive, mode: RenderFilterMode, t: DamlType)
    decreases t
  {
    match t
    case TInt64 => true
    case TText => true
    case TTimestamp => true
    case TParty => true
    case TBool => true
    case TUnit => true
    case TDate => true
    case TNat(_) => true
    case TList(args) => CheckTypes(a, mode, args)
    case TTextMap(args) => CheckTypes(a, mode, args)
    case TGenMap(args) => CheckTypes(a, mode, args)
    case TOptional(args) => CheckTypes(a, mode, args)
    case TNumeric(args) => CheckTypes(a, mode, args)
    case TContractId(inner) => inner.None? || CheckType(a, mode, inner.value)
    case TTyCon(tycon, args) => CheckTargetData(a, mode, tycon) && CheckTypes(a, mode, args)
    case TBoxedTyCon(tycon, args) => CheckTargetData(a, mode, tycon) && CheckTypes(a, mode, args)
    case TVar(_, args) => CheckTypes(a, mode, args)
    case _ => false
  }

  predicate CheckTypes(a: DamlArchive, mode: RenderFilterMode, ts: seq<DamlType>)
    decreases ts
  {
    ts == [] || (CheckType(a, mode, ts[0]) && CheckTypes(a, mode, ts[1..]))
  }

  lemma {:induction false} CheckedEach(a: DamlArchive, mode: RenderFilterMode, ts: seq<DamlType>, i: nat)
    requires CheckTypes(a, mode, ts) && i < |ts|
    ensures CheckType(a, mode, ts[i])
  {
    if i > 0 {
      CheckedEach(a, mode, ts[1..], i - 1);
    }
  }

  /** A type the check accepts is always printed, in both filter modes. */
  lemma {:induction false} CheckedTypePrints(a: DamlArchive, mode: RenderFilterMode, s: Settings, t: DamlType)
    requires CheckType(a, mode, t)
    ensures QuoteType(s, t).Success?
    decreases t
  {
    match t
    case TList(args) => FirstPrints(a, mode, s, args);
    case TOptional(args) => FirstPrints(a, mode, s, args);
    case TNumeric(args) => FirstPrints(a, mode, s, args);
    case TTextMap(args) => FirstTwoPrint(a, mode, s, args);
    case TGenMap(args) => FirstTwoPrint(a, mode, s, args);
    case TTyCon(_, args) => CheckedTypesPrint(a, mode, s, args);
    case TBoxedTyCon(_, args) => CheckedTypesPrint(a, mode, s, args);
    case _ =>
  }

  lemma {:induction false} FirstPrints(a: DamlArchive, mode: RenderFilterMode, s: Settings, args: seq<DamlType>)
    requires CheckTypes(a, mode, args)
    ensures args != [] ==> QuoteType(s, args[0]).Success?
    decreases args, 1
  {
    if args != [] {
      CheckedTypePrints(a, mode, s, args[0]);
    }
  }

  lemma {:induction false} FirstTwoPrint(a: DamlArchive, mode: RenderFilterMode, s: Settings, args: seq<DamlType>)
    requires CheckTypes(a, mode, args)
    ensures |args| >= 2 ==> QuoteType(s, args[0]).Success? && QuoteType(s, args[1]).Success?
    decreases args, 1
  {
    if |args| >= 2 {
      CheckedEach(a, mode, args, 1);
      CheckedTypePrints(a, mode, s, args[0]);
      CheckedTypePrints(a, mode, s, args[1]);
    }
  }

  lemma {:induction false} CheckedTypesPrint(a: DamlArchive, mode: RenderFilterMode, s: Settings, ts: seq<DamlType>)
    requires CheckTypes(a, mode, ts)
    ensures QuoteTypes(s, ts).Success?
    decreases ts, 0
  {
    if ts != [] {
      CheckedTypePrints(a, mode, s, ts[0]);
      CheckedTypesPrint(a, mode, s, ts[1..]);
    }
  }

  /** No constructor the generator cannot print, anywhere in the type. */
  ghost predicate Supported(t: DamlType)
    decreases t
  {
    match t
    case TInt64 => true
    case TText => true
    case TTimestamp => true
    case TParty => true
    case TBool => true
    case TUnit => true
    case TDate => true
    case TNat(_) => true
    case TList(args) => AllSupported(args)
    case TTextMap(args) => AllSupported(args)
    case TGenMap(args) => AllSupported(args)
    case TOptional(args) => AllSupported(args)
    case TNumeric(args) => AllSupported(args)
    case TContractId(inner) => inner.None? || Supported(inner.value)
    case TTyCon(_, args) => AllSupported(args)
    case TBoxedTyCon(_, args) => AllSupported(args)
    case TVar(_, args) => AllSupported(args)
    case _ => false
  }

  ghost predicate AllSupported(ts: seq<DamlType>)
    decreases ts
  {
    forall i :: 0 <= i < |ts| ==> Supported(ts[i])
  }

  /** The same of the positions that are not printed: what a contract id is of, arguments a primitive has
      too many of, the lone argument of a map, and the arguments of a variable. */
  ghost predicate UnprintedSupported(t: DamlType)
    decreases t
  {
    match t
    case TContractId(inner) => inner.None? || Supported(inner.value)
    case TList(args) => args == [] || (UnprintedSupported(args[0]) && AllSupported(args[1..]))
    case TOptional(args) => args == [] || (UnprintedSupported(args[0]) && AllSupported(args[1..]))
    case TNumeric(args) => args == [] || (UnprintedSupported(args[0]) && AllSupported(args[1..]))
    case TTextMap(args) => UnprintedInMap(args)
    case TGenMap(args) => UnprintedInMap(args)
    case TVar(_, args) => AllSupported(args)
    case TTyCon(_, args) => forall i :: 0 <= i < |args| ==> UnprintedSupported(args[i])
    case TBoxedTyCon(_, args) => forall i :: 0 <= i < |args| ==> UnprintedSupported(args[i])
    case _ => true
  }

  ghost predicate UnprintedInMap(args: seq<DamlType>)
    decreases args
  {
    if |args| < 2 then AllSupported(args)
    else UnprintedSupported(args[0]) && UnprintedSupported(args[1]) && AllSupported(args[2..])
  }

  /** Every type-constructor name in the type may be printed. */
  ghost predicate TargetsPass(a: DamlArchive, mode: RenderFilterMode, names: set<DamlTyConName>) {
    forall n :: n in names ==> CheckTargetData(a, mode, n)
  }

  lemma {:induction false} CheckedIffSupported(a: DamlArchive, mode: RenderFilterMode, t: DamlType)
    ensures CheckType(a, mode, t) <==> Supported(t) && TargetsPass(a, mode, Occurrences.Names(t))
    decreases t
  {
    hide CheckTargetData;
    match t
    case TList(args) => AllCheckedIffSupported(a, mode, args);
    case TOptional(args) => AllCheckedIffSupported(a, mode, args);
    case TNumeric(args) => AllCheckedIffSupported(a, mode, args);
    case TTextMap(args) => AllCheckedIffSupported(a, mode, args);
    case TGenMap(args) => AllCheckedIffSupported(a, mode, args);
    case TVar(_, args) => AllCheckedIffSupported(a, mode, args);
    case TTyCon(_, args) => AllCheckedIffSupported(a, mode, args);
    case TBoxedTyCon(_, args) => AllCheckedIffSupported(a, mode, args);
    case TContractId(inner) => if inner.Some? { CheckedIffSupported(a, mode, inner.value); }
    case _ =>
  }

  lemma {:induction false} AllCheckedIffSupported(a: DamlArchive, mode: RenderFilterMode, ts: seq<DamlType>)
    ensures CheckTypes(a, mode, ts) <==> AllSupported(ts) && TargetsPass(a, mode, Occurrences.NamesOfAll(ts))
    decreases ts
  {
    hide CheckType, CheckTargetData, Supported, Occurrences.Names;
    if ts != [] {
      CheckedIffSupported(a, mode, ts[0]);
      AllCheckedIffSupported(a, mode, ts[1..]);
      FirstAndRest(ts);
    }
  }

  lemma FirstAndRest(ts: seq<DamlType>)
    requires ts != []
    ensures AllSupported(ts) <==> Supported(ts[0]) && AllSupported(ts[1..])
  {
    hide Supported;
    assert forall i :: 0 < i < |ts| ==> ts[i] == ts[1..][i - 1];
  }

  /** A type is supported when what is printed of it prints and the rest is supported. */
  lemma {:induction false} SupportedIffPrints(s: Settings, t: DamlType)
    ensures Supported(t) <==> QuoteType(s, t).Success? && UnprintedSupported(t)
    decreases t
  {
    hide QuoteOneArg, QuoteTwoArgs, QuoteTyCon, QuoteTypes, AllSupported, PrimitiveName, UnprintedInMap;
    match t
    case TList(args) => OneArgSupported(s, PrimitiveName(t), args);
    case TOptional(args) => OneArgSupported(s, PrimitiveName(t), args);
    case TNumeric(args) => OneArgSupported(s, PrimitiveName(t), args);
    case TTextMap(args) => TwoArgsSupported(s, PrimitiveName(t), args);
    case TGenMap(args) => TwoArgsSupported(s, PrimitiveName(t), args);
    case TTyCon(tycon, args) =>
      ArgsSupported(s, args);
      TyConPrints(s, tycon, args);
    case TBoxedTyCon(tycon, args) =>
      ArgsSupported(s, args);
      TyConPrints(s, tycon, args);
    case _ =>
  }

  /** A type constructor prints when its arguments do. */
  lemma TyConPrints(s: Settings, tycon: DamlTyConName, args: seq<DamlType>)
    ensures QuoteTyCon(s, tycon, args).Success? <==> QuoteTypes(s, args).Success?
  {
    hide QuoteTypes, QuotePath, Escape;
  }

  lemma {:induction false} OneArgSupported(s: Settings, name: string, args: seq<DamlType>)
    ensures AllSupported(args) <==>
      QuoteOneArg(s, name, args).Success? &&
      (args == [] || (UnprintedSupported(args[0]) && AllSupported(args[1..])))
    decreases args, 1
  {
    hide QuoteType, Supported, UnprintedSupported;
    if args != [] {
      SupportedIffPrints(s, args[0]);
      FirstAndRest(args);
    }
  }

  lemma {:induction false} TwoArgsSupported(s: Settings, name: string, args: seq<DamlType>)
    ensures AllSupported(args) <==> QuoteTwoArgs(s, name, args).Success? && UnprintedInMap(args)
    decreases args, 1
  {
    hide QuoteType, Supported, UnprintedSupported;
    if |args| >= 2 {
      SupportedIffPrints(s, args[0]);
      SupportedIffPrints(s, args[1]);
      FirstAndRest(args);
      FirstAndRest(args[1..]);
      assert args[1..][0] == args[1] && args[1..][1..] == args[2..];
    }
  }

  lemma {:induction false} ArgsSupported(s: Settings, args: seq<DamlType>)
    ensures AllSupported(args) <==>
      QuoteTypes(s, args).Success? && forall i :: 0 <= i < |args| ==> UnprintedSupported(args[i])
    decreases args, 1
  {
    hide QuoteType, Supported, UnprintedSupported;
    if args != [] {
      SupportedIffPrints(s, args[0]);
      ArgsSupported(s, args[1..]);
      FirstAndRest(args);
      assert forall i :: 0 < i < |args| ==> args[i] == args[1..][i - 1];
    }
  }

  /** A type passes the check exactly when it prints, every target passes, and the positions that are not
      printed hold nothing unsupported. */
  lemma CheckTypeExactly(a: DamlArchive, mode: RenderFilterMode, s: Settings, t: DamlType)
    ensures CheckType(a, mode, t) <==>
      && QuoteType(s, t).Success?
      && TargetsPass(a, mode, Occurrences.Names(t))
      && UnprintedSupported(t)
  {
    hide CheckType, QuoteType, Supported, UnprintedSupported, TargetsPass;
    CheckedIffSupported(a, mode, t);
    SupportedIffPrints(s, t);
  }

  /** A type that passes everywhere else and prints is refused for what a contract id is of. */
  lemma RefusedThoughPrinted(a: DamlArchive, mode: RenderFilterMode, s: Settings)
    ensures var t := TContractId(Some(TArrow));
      && QuoteType(s, t).Success? && TargetsPass(a, mode, Occurrences.Names(t)) && !UnprintedSupported(t)
      && !CheckType(a, mode, t)
  {
    CheckTypeExactly(a, mode, s, TContractId(Some(TArrow)));
  }

  // ---------- Boxes and local names ----------

  /** A boxed type constructor prints as a box of what it prints as unboxed. */
  lemma BoxPrints(s: Settings, tycon: DamlTyConName, args: seq<DamlType>)
    ensures QuoteType(s, TBoxedTyCon(tycon, args)).Success? <==> QuoteType(s, TTyCon(tycon, args)).Success?
    ensures QuoteType(s, TTyCon(tycon, args)).Success? ==>
      QuoteType(s, TBoxedTyCon(tycon, args)).value == Boxed(QuoteType(s, TTyCon(tycon, args)).value)
  {
  }

  /** A name of the current module prints without a path. */
  lemma LocalPrints(s: Settings, tycon: DamlTyConName)
    requires tycon.Local?
    ensures QuoteType(s, TTyCon(tycon, [])) == Success(Named(Relative(0, []), Escape(tycon.dataName), []))
  {
    assert QuoteTypes(s, []) == Success([]);
  }

  // ---------- What prints ----------

  /** Nothing unsupported is in a printed position. Of the primitives with one argument the first is printed,
      of a map the first two when there are two, of a type constructor all; of a contract id, a variable or a
      natural number none. */
  predicate Printable(t: DamlType)
    decreases t
  {
    match t
    case TInt64 => true
    case TText => true
    case TTimestamp => true
    case TParty => true
    case TBool => true
    case TUnit => true
    case TDate => true
    case TNat(_) => true
    case TContractId(_) => true
    case TVar(_, _) => true
    case TList(args) => args == [] || Printable(args[0])
    case TOptional(args) => args == [] || Printable(args[0])
    case TNumeric(args) => args == [] || Printable(args[0])
    case TTextMap(args) => |args| < 2 || (Printable(args[0]) && Printable(args[1]))
    case TGenMap(args) => |args| < 2 || (Printable(args[0]) && Printable(args[1]))
    case TTyCon(_, args) => forall i :: 0 <= i < |args| ==> Printable(args[i])
    case TBoxedTyCon(_, args) => forall i :: 0 <= i < |args| ==> Printable(args[i])
    case _ => false
  }

  /** Printing panics exactly on types that have something unsupported in a printed position. */
  lemma {:induction false} PrintsIffPrintable(s: Settings, t: DamlType)
    ensures QuoteType(s, t).Success? <==> Printable(t)
    decreases t
  {
    hide QuoteTyCon, QuoteTypes, QuoteOneArg, QuoteTwoArgs, PrimitiveName;
    match t
    case TList(args) => OnePrints(s, PrimitiveName(t), args);
    case TOptional(args) => OnePrints(s, PrimitiveName(t), args);
    case TNumeric(args) => OnePrints(s, PrimitiveName(t), args);
    case TTextMap(args) => TwoPrint(s, PrimitiveName(t), args);
    case TGenMap(args) => TwoPrint(s, PrimitiveName(t), args);
    case TTyCon(tycon, args) =>
      AllPrint(s, args);
      TyConPrints(s, tycon, args);
    case TBoxedTyCon(tycon, args) =>
      AllPrint(s, args);
      TyConPrints(s, tycon, args);
    case _ =>
  }

  lemma {:induction false} OnePrints(s: Settings, name: string, args: seq<DamlType>)
    ensures QuoteOneArg(s, name, args).Success? <==> args == [] || Printable(args[0])
    decreases args, 1
  {
    hide QuoteType, Printable;
    if args != [] {
      PrintsIffPrintable(s, args[0]);
    }
  }

  lemma {:induction false} TwoPrint(s: Settings, name: string, args: seq<DamlType>)
    ensures QuoteTwoArgs(s, name, args).Success? <==> |args| < 2 || (Printable(args[0]) && Printable(args[1]))
    decreases args, 1
  {
    hide QuoteType, Printable;
    if |args| >= 2 {
      PrintsIffPrintable(s, args[0]);
      PrintsIffPrintable(s, args[1]);
    }
  }

  lemma {:induction false} AllPrint(s: Settings, ts: seq<DamlType>)
    ensures QuoteTypes(s, ts).Success? <==> forall i :: 0 <= i < |ts| ==> Printable(ts[i])
    decreases ts, 0
  {
    hide QuoteType, Printable;
    if ts != [] {
      PrintsIffPrintable(s, ts[0]);
      AllPrint(s, ts[1..]);
      assert forall i :: 0 < i < |ts| ==> ts[i] == ts[1..][i - 1];
    }
  }

  // ---------- The paths a printed type mentions ----------

  datatype Mention = Mention(path: RustPath, ident: string)

  ghost function Mentions(t: TypeTokens): set<Mention>
    decreases t
  {
    match t
    case Primitive(_, args) => MentionsOfAll(args)
    case Named(path, ident, args) => {Mention(path, ident)} + MentionsOfAll(args)
    case Boxed(inner) => Mentions(inner)
    case _ => {}
  }

  ghost function MentionsOfAll(ts: seq<TypeTokens>): set<Mention>
    decreases ts
  {
    if ts == [] then {} else Mentions(ts[0]) + MentionsOfAll(ts[1..])
  }

  /** The mention a type-constructor name is printed as. */
  function MentionOf(s: Settings, name: DamlTyConName): Mention {
    Mention(QuotePath(s, name), Escape(name.dataName))
  }

  ghost predicate OnlyNames(s: Settings, mentions: set<Mention>, names: set<DamlTyConName>) {
    forall m :: m in mentions ==> exists n :: n in names && m == MentionOf(s, n)
  }

  /** A printed type mentions only names validation looks at. */
  lemma {:induction false} MentionsAreNames(s: Settings, t: DamlType)
    requires QuoteType(s, t).Success?
    ensures OnlyNames(s, Mentions(QuoteType(s, t).value), Occurrences.Names(t))
    decreases t
  {
    hide QuotePath, PrimitiveName;
    match t
    case TList(args) => OneArgMentions(s, PrimitiveName(t), args);
    case TOptional(args) => OneArgMentions(s, PrimitiveName(t), args);
    case TNumeric(args) => OneArgMentions(s, PrimitiveName(t), args);
    case TTextMap(args) => TwoArgMentions(s, PrimitiveName(t), args);
    case TGenMap(args) => TwoArgMentions(s, PrimitiveName(t), args);
    case TTyCon(tycon, args) => MentionsOfAllAreNames(s, args); TyConMentions(s, t);
    case TBoxedTyCon(tycon, args) => MentionsOfAllAreNames(s, args); TyConMentions(s, t);
    case _ =>
  }

  lemma TyConMentions(s: Settings, t: DamlType)
    requires (t.TTyCon? || t.TBoxedTyCon?) && QuoteType(s, t).Success?
    requires QuoteTypes(s, t.args).Success? ==>
      OnlyNames(s, MentionsOfAll(QuoteTypes(s, t.args).value), Occurrences.NamesOfAll(t.args))
    ensures OnlyNames(s, Mentions(QuoteType(s, t).value), Occurrences.Names(t))
  {
    hide QuotePath, PrimitiveName, QuoteTypes, MentionsOfAll, Occurrences.NamesOfAll, QuoteOneArg, QuoteTwoArgs, Escape;
    assert MentionOf(s, t.tycon) == Mention(QuotePath(s, t.tycon), Escape(t.tycon.dataName));
  }

  lemma {:induction false} OneArgMentions(s: Settings, name: string, args: seq<DamlType>)
    requires QuoteOneArg(s, name, args).Success?
    ensures OnlyNames(s, Mentions(QuoteOneArg(s, name, args).value), Occurrences.NamesOfAll(args))
    decreases args, 1
  {
    if args != [] {
      MentionsAreNames(s, args[0]);
      var q := QuoteType(s, args[0]).value;
      assert MentionsOfAll([q]) == Mentions(q);
    }
  }

  lemma {:induction false} TwoArgMentions(s: Settings, name: string, args: seq<DamlType>)
    requires QuoteTwoArgs(s, name, args).Success?
    ensures OnlyNames(s, Mentions(QuoteTwoArgs(s, name, args).value), Occurrences.NamesOfAll(args))
    decreases args, 1
  {
    if |args| >= 2 {
      MentionsAreNames(s, args[0]);
      MentionsAreNames(s, args[1]);
      var q, r := QuoteType(s, args[0]).value, QuoteType(s, args[1]).value;
      assert [q, r][1..] == [r];
      assert MentionsOfAll([r]) == Mentions(r);
      assert Mentions(Primitive(name, [q, r])) == Mentions(q) + Mentions(r);
      assert args[1..][0] == args[1];
      assert Occurrences.NamesOfAll(args) ==
             Occurrences.Names(args[0]) + (Occurrences.Names(args[1]) + Occurrences.NamesOfAll(args[1..][1..]));
    }
  }

  lemma {:induction false} MentionsOfAllAreNames(s: Settings, ts: seq<DamlType>)
    requires QuoteTypes(s, ts).Success?
    ensures OnlyNames(s, MentionsOfAll(QuoteTypes(s, ts).value), Occurrences.NamesOfAll(ts))
    decreases ts, 0
  {
    if ts != [] {
      MentionsAreNames(s, ts[0]);
      MentionsOfAllAreNames(s, ts[1..]);
      var q, rest := QuoteType(s, ts[0]).value, QuoteTypes(s, ts[1..]).value;
      assert ([q] + rest)[1..] == rest;
    }
  }

  // ---------- Relative paths ----------

  /** Where a path leads from inside the module at `current`. */
  function Follow(current: seq<string>, path: RustPath): Option<seq<string>> {
    match path
    case InCrate(segments) => Some(segments)
    case Relative(supers, tail) =>
      if supers <= |current| then Some(current[..|current| - supers] + tail) else None
  }

  ghost function SourceModule(s: Settings, name: DamlTyConName): seq<string>
    requires name.NonLocal?
  {
    Escapes(Snakes(s, [name.sourcePackageName] + name.sourceModulePath))
  }

  ghost function TargetModule(s: Settings, name: DamlTyConName): seq<string>
    requires name.NonLocal?
  {
    Escapes(Snakes(s, [name.targetPackageName] + name.targetModulePath))
  }

  lemma CommonPart(a: seq<string>, b: seq<string>)
    ensures var n := CommonPrefix(a, b); Escapes(a)[..n] == Escapes(b)[..n]
  {
    hide CommonPrefix, Escapes, Escape;
    var n := CommonPrefix(a, b);
    forall i | 0 <= i < n
      ensures Escapes(a)[i] == Escapes(b)[i]
    {
      assert a[i] == a[..n][i] == b[..n][i] == b[i];
    }
  }

  lemma EscapesFrom(b: seq<string>, n: nat)
    requires n <= |b|
    ensures Escapes(b[n..]) == Escapes(b)[n..]
  {
    hide Escapes, Escape;
  }

  /** A non-local path leads from the source module to exactly the target module. */
  lemma NonLocalPathReaches(s: Settings, name: DamlTyConName)
    requires name.NonLocal?
    ensures Follow(SourceModule(s, name), QuoteNonLocalPath(s, name)) == Some(TargetModule(s, name))
  {
    hide CommonPrefix, Escapes, Snakes, Escape;
    var current := Snakes(s, [name.sourcePackageName] + name.sourceModulePath);
    var target := Snakes(s, [name.targetPackageName] + name.targetModulePath);
    CommonPart(current, target);
    EscapesFrom(target, CommonPrefix(current, target));
    var n, to := CommonPrefix(current, target), Escapes(target);
    assert to == to[..n] + to[n..];
  }

  /** No relative path to the target climbs less. */
  ghost predicate Shortest(s: Settings, name: DamlTyConName)
    requires name.NonLocal?
  {
    forall supers: nat, tail ::
      Follow(SourceModule(s, name), Relative(supers, tail)) == Some(TargetModule(s, name)) ==>
      QuoteNonLocalPath(s, name).supers <= supers
  }

  /** Do the first segments in which source and target differ become the same identifier? */
  ghost predicate DifferenceEscapedAway(s: Settings, name: DamlTyConName)
    requires name.NonLocal?
  {
    var current := Snakes(s, [name.sourcePackageName] + name.sourceModulePath);
    var target := Snakes(s, [name.targetPackageName] + name.targetModulePath);
    var common := CommonPrefix(current, target);
    common < |current| && common < |target| && Escape(current[common]) == Escape(target[common])
  }

  /** Whatever `snake` is: the path is as short as any exactly when the first difference survives
      escaping, since segments are compared before they are escaped. */
  lemma ShortestUnlessEscapedAway(s: Settings, name: DamlTyConName)
    requires name.NonLocal?
    ensures Shortest(s, name) <==> !DifferenceEscapedAway(s, name)
  {
    hide CommonPrefix, Escapes, Snakes, Escape;
    var current := Snakes(s, [name.sourcePackageName] + name.sourceModulePath);
    var target := Snakes(s, [name.targetPackageName] + name.targetModulePath);
    if DifferenceEscapedAway(s, name) {
      ShorterExists(current, target);
    } else {
      forall supers: nat, tail | Follow(Escapes(current), Relative(supers, tail)) == Some(Escapes(target))
        ensures |current| - CommonPrefix(current, target) <= supers
      {
        NoneShorter(current, target, supers, tail);
      }
    }
  }

  /** Snake-case segments that differ stay different identifiers, so the path is always shortest. */
  lemma NonLocalPathShortest(s: Settings, name: DamlTyConName)
    requires name.NonLocal? && SnakeCases(s)
    ensures Shortest(s, name)
  {
    hide Escapes, Escape, Shortest, SnakeShaped;
    var from, to := [name.sourcePackageName] + name.sourceModulePath, [name.targetPackageName] + name.targetModulePath;
    var common := CommonPrefix(Snakes(s, from), Snakes(s, to));
    ShortestUnlessEscapedAway(s, name);
    if common < |from| && common < |to| {
      EscapeInjective(s.snake(from[common]), s.snake(to[common]));
    }
  }

  lemma ShorterExists(a: seq<string>, b: seq<string>)
    requires var n := CommonPrefix(a, b); n < |a| && n < |b| && Escape(a[n]) == Escape(b[n])
    ensures var n := CommonPrefix(a, b);
      Follow(Escapes(a), Relative(|a| - n - 1, Escapes(b)[n + 1..])) == Some(Escapes(b))
  {
    hide CommonPrefix, Escapes, Escape;
    var n := CommonPrefix(a, b);
    CommonPart(a, b);
    var from, to := Escapes(a), Escapes(b);
    OneMore(from, to, n);
    assert to == to[..n + 1] + to[n + 1..];
  }

  lemma OneMore(from: seq<string>, to: seq<string>, n: nat)
    requires n < |from| && n < |to| && from[..n] == to[..n] && from[n] == to[n]
    ensures from[..n + 1] == to[..n + 1]
  {
    assert from[..n + 1] == from[..n] + [from[n]];
    assert to[..n + 1] == to[..n] + [to[n]];
  }

  lemma NoneShorter(a: seq<string>, b: seq<string>, supers: nat, tail: seq<string>)
    requires var n := CommonPrefix(a, b); n < |a| && n < |b| ==> Escape(a[n]) != Escape(b[n])
    requires Follow(Escapes(a), Relative(supers, tail)) == Some(Escapes(b))
    ensures |a| - CommonPrefix(a, b) <= supers
  {
    hide CommonPrefix, Escapes, Escape;
    var n := CommonPrefix(a, b);
    var from, to := Escapes(a), Escapes(b);
    var kept := from[..|from| - supers];
    assert kept + tail == to;
  }
}
