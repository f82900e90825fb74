/** The element layer: what conversion produces and every later stage reads. */
module Element {
  import opened Wrappers

  type Path = seq<string>

  datatype DamlKind = Star | KNat | KArrow(params: seq<DamlKind>, result: DamlKind)

  datatype DamlTypeVarWithKind = DamlTypeVarWithKind(name: string, kind: DamlKind)

  datatype DamlTyConName =
    | Local(dataName: string, packageId: string, packageName: string, modulePath: Path)
    | NonLocal(
        dataName: string, sourcePackageId: string, sourcePackageName: string, sourceModulePath: Path,
        targetPackageId: string, targetPackageName: string, targetModulePath: Path)
    | Absolute(dataName: string, packageId: string, packageName: string, modulePath: Path)
  {
    /** The package a name points into. */
    function ReferencePackage(): string {
      if NonLocal? then targetPackageId else packageId
    }

    /** The module path a name points at. */
    function ReferencePath(): Path {
      if NonLocal? then targetModulePath else modulePath
    }
  }

  datatype DamlField = DamlField(name: string, ty: DamlType)

  datatype DamlType =
    | TContractId(inner: Option<DamlType>)
    | TInt64 | TText | TTimestamp | TParty | TBool | TUnit | TDate
    | TNumeric(args: seq<DamlType>)
    | TList(args: seq<DamlType>)
    | TTextMap(args: seq<DamlType>)
    | TGenMap(args: seq<DamlType>)
    | TOptional(args: seq<DamlType>)
    | TTyCon(tycon: DamlTyConName, args: seq<DamlType>)
    | TBoxedTyCon(tycon: DamlTyConName, args: seq<DamlType>)
    | TVar(name: string, args: seq<DamlType>)
    | TNat(n: nat)
    | TArrow | TAny | TTypeRep | TBignumeric | TRoundingMode | TAnyException | TUpdate | TFailureCategory
    | TForall(vars: seq<DamlTypeVarWithKind>, body: DamlType)
    | TStruct(fields: seq<DamlField>)
    | TSyn(tysyn: DamlTyConName, args: seq<DamlType>)

  datatype DamlChoice = DamlChoice(
    name: string, packageId: string, modulePath: Path, fields: seq<DamlField>, returnType: DamlType,
    consuming: bool, selfBinder: string)

  datatype DamlData =
    | Template(
        name: string, packageId: string, modulePath: Path, fields: seq<DamlField>,
        choices: seq<DamlChoice>, param: string, implements: seq<DamlTyConName>, key: Option<DamlType>,
        serializable: bool)
    | Record(
        name: string, packageId: string, modulePath: Path, fields: seq<DamlField>,
        typeParams: seq<DamlTypeVarWithKind>, serializable: bool)
    | Variant(
        name: string, packageId: string, modulePath: Path, fields: seq<DamlField>,
        typeParams: seq<DamlTypeVarWithKind>, serializable: bool)
    | Enum(
        name: string, packageId: string, modulePath: Path, constructors: seq<string>,
        typeParams: seq<DamlTypeVarWithKind>, serializable: bool)

  datatype DamlInterfaceMethod = DamlInterfaceMethod(name: string, ty: DamlType)

  datatype DamlInterface = DamlInterface(
    name: string, packageId: string, modulePath: Path, param: string,
    methods: seq<DamlInterfaceMethod>, choices: seq<DamlChoice>, view: DamlType,
    required: seq<DamlTyConName>)

  datatype DamlException = DamlException(name: string, packageId: string, modulePath: Path)

  datatype DamlDefTypeSyn = DamlDefTypeSyn(params: seq<DamlTypeVarWithKind>, ty: DamlType, name: Path)

  datatype DamlFeatureFlags = DamlFeatureFlags(
    forbidPartyLiterals: bool,
    dontDivulgeContractIdsInCreateArguments: bool,
    dontDiscloseNonConsumingChoicesToObservers: bool)

  // ---------- Expressions ----------

  datatype DamlVarWithType = DamlVarWithType(ty: DamlType, name: string)

  datatype DamlBinding = DamlBinding(binder: DamlVarWithType, bound: DamlExpr)

  datatype DamlFieldWithExpr = DamlFieldWithExpr(name: string, expr: DamlExpr)

  datatype DamlPattern =
    | PDefault
    | PVariant(con: DamlTyConName, variant: string, binder: string)
    | PNil
    | PCons(head: string, tail: string)
    | PEnum(con: DamlTyConName, constructor_: string)

  datatype DamlCaseAlt = DamlCaseAlt(body: DamlExpr, pattern: DamlPattern)

  datatype DamlExpr =
    | EVar(name: string)
    | EVal(id: DamlTyConName)
    | ENil(ty: DamlType)
    | ERecCon(tycon: DamlTyConName, tyargs: seq<DamlType>, fields: seq<DamlFieldWithExpr>)
    | EApp(fun: DamlExpr, args: seq<DamlExpr>)
    | ETyApp(expr: DamlExpr, types: seq<DamlType>)
    | EAbs(params: seq<DamlVarWithType>, body: DamlExpr)
    | ETyAbs(tyParams: seq<DamlTypeVarWithKind>, body: DamlExpr)
    | ECase(scrut: DamlExpr, alts: seq<DamlCaseAlt>)
    | ELet(bindings: seq<DamlBinding>, body: DamlExpr)
    | EUpdate(update: DamlUpdate)

  datatype DamlUpdate =
    | UPure(ty: DamlType, expr: DamlExpr)
    | UBlock(bindings: seq<DamlBinding>, body: DamlExpr)
    | UCreate(template: DamlTyConName, expr: DamlExpr)
    | UExercise(template: DamlTyConName, cid: DamlExpr, arg: DamlExpr, choice: string)
    | UGetTime

  /** Conversion and validation errors; message texts are not modelled. */
  datatype ConvertError =
    | MissingRequiredField
    | InternalError
    | UnsupportedFeatureUsed
    | NatOutOfRange(n: int)
    | UnexpectedContractIdTypeArguments
    | UnexpectedChoiceData
    | UnexpectedType
    | UnknownPackage(id: string)
    | UnknownModule(path: Path)
    | UnknownData(name: string)

  type ConvertResult<+T> = Result<T, ConvertError>
}
