/** Why a wire module is refused: what may be wrong with each declaration, and that conversion of modules fails
    exactly when something is, with an error of something that is. */
module DeclarationFaults {
  import opened Wrappers
  import opened Element
  import opened Interned
  import opened TypeConversion
  import opened Declarations
  import opened Fidelity
  import opened Faults
  import Wire

  // ---------- Templates and choices ----------

  /** Authorizers are not supported, and an argument there must be. */
  ghost predicate ChoiceFault(c: Wire.TemplateChoice, e: ConvertError, pkg: Wire.Package)
    requires Wire.Acyclic(pkg)
  {
    || (c.authorizers && e == UnsupportedFeatureUsed)
    || StringFault(c.name, e, pkg) || StringFault(c.selfBinder, e, pkg)
    || VarFault(c.argBinder, e, pkg) || TypeFault(c.retType, e, pkg)
  }

  ghost predicate ChoicesFault(cs: seq<Wire.TemplateChoice>, e: ConvertError, pkg: Wire.Package)
    requires Wire.Acyclic(pkg)
  {
    exists i :: 0 <= i < |cs| && ChoiceFault(cs[i], e, pkg)
  }

  ghost predicate NamesFault(ids: seq<Wire.QualifiedId>, e: ConvertError, pkg: Wire.Package) {
    exists i :: 0 <= i < |ids| && NameFault(ids[i], e, pkg)
  }

  ghost predicate TemplateFault(t: Wire.DefTemplate, e: ConvertError, pkg: Wire.Package)
    requires Wire.Acyclic(pkg)
  {
    || StringFault(t.param, e, pkg) || ChoicesFault(t.choices, e, pkg) || NamesFault(t.implements, e, pkg)
    || (t.key.DefKey? && TypeFault(t.key.ty, e, pkg))
  }

  lemma ChoiceFaulty(c: Wire.TemplateChoice, e: ConvertError, pkg: Wire.Package, path: Path)
    requires Wire.Acyclic(pkg)
    ensures ConvertChoice(c, pkg, path) == Failure(e) ==> ChoiceFault(c, e, pkg)
    ensures ConvertChoice(c, pkg, path).Success? ==> !ChoiceFault(c, e, pkg)
  {
    hide ConvertType, TypeFault, ResolveString, StringFault, Wire.Acyclic;
    StringFaulty(c.name, e, pkg);
    StringFaulty(c.selfBinder, e, pkg);
    TypeFaulty(c.retType, e, pkg);
    if c.argBinder.VarWithType? {
      StringFaulty(c.argBinder.name, e, pkg);
      TypeFaulty(c.argBinder.ty, e, pkg);
    }
  }

  lemma {:induction false} ChoicesFaulty(cs: seq<Wire.TemplateChoice>, e: ConvertError, pkg: Wire.Package, path: Path)
    requires Wire.Acyclic(pkg)
    ensures ConvertChoices(cs, pkg, path) == Failure(e) ==> ChoicesFault(cs, e, pkg)
    ensures ConvertChoices(cs, pkg, path).Success? ==> !ChoicesFault(cs, e, pkg)
  {
    hide ConvertChoice, ChoiceFault, Wire.Acyclic;
    if cs != [] {
      ChoiceFaulty(cs[0], e, pkg, path);
      ChoicesFaulty(cs[1..], e, pkg, path);
      assert forall i :: 0 < i < |cs| ==> cs[i] == cs[1..][i - 1];
      if i :| 0 <= i < |cs[1..]| && ChoiceFault(cs[1..][i], e, pkg) {
        assert cs[i + 1] == cs[1..][i];
      }
    }
  }

  lemma {:induction false} NamesFaulty(ids: seq<Wire.QualifiedId>, e: ConvertError, pkg: Wire.Package)
    ensures ConvertQualifiedIds(ids, pkg) == Failure(e) ==> NamesFault(ids, e, pkg)
    ensures ConvertQualifiedIds(ids, pkg).Success? ==> !NamesFault(ids, e, pkg)
  {
    hide ConvertQualifiedId, NameFault;
    if ids != [] {
      NameFaulty(ids[0], e, pkg);
      NamesFaulty(ids[1..], e, pkg);
      assert forall i :: 0 < i < |ids| ==> ids[i] == ids[1..][i - 1];
      if i :| 0 <= i < |ids[1..]| && NameFault(ids[1..][i], e, pkg) {
        assert ids[i + 1] == ids[1..][i];
      }
    }
  }

  lemma TemplateFaulty(
    t: Wire.DefTemplate, name: string, path: Path, fields: seq<DamlField>, pkg: Wire.Package, serializable: bool,
    e: ConvertError)
    requires Wire.Acyclic(pkg)
    ensures BuildTemplate(t, name, path, fields, pkg, serializable) == Failure(e) ==> TemplateFault(t, e, pkg)
    ensures BuildTemplate(t, name, path, fields, pkg, serializable).Success? ==> !TemplateFault(t, e, pkg)
  {
    hide ConvertType, TypeFault, ResolveString, StringFault, ConvertChoices, ChoicesFault, ConvertQualifiedIds,
      NamesFault, Wire.Acyclic;
    StringFaulty(t.param, e, pkg);
    ChoicesFaulty(t.choices, e, pkg, path);
    NamesFaulty(t.implements, e, pkg);
    if t.key.DefKey? {
      TypeFaulty(t.key.ty, e, pkg);
    }
  }

  // ---------- Data types ----------

  /** A dotted name that is refused, or has no segment to be a name. */
  predicate SegmentsFault(index: int, empty: ConvertError, e: ConvertError, pkg: Wire.Package) {
    || DottedFault(index, e, pkg)
    || (0 <= index < |pkg.dottedNames| && pkg.dottedNames[index] == [] && e == empty)
  }

  /** Of the templates only the last that wraps the record is looked at. */
  ghost predicate DataTypeFault(
    d: Wire.DefDataType, ts: seq<Wire.DefTemplate>, e: ConvertError, pkg: Wire.Package)
    requires Wire.Acyclic(pkg)
  {
    || SegmentsFault(d.name, MissingRequiredField, e, pkg) || TypeVarsFault(d.params, e, pkg)
    || match d.cons
       case DataConsUnset => e == MissingRequiredField
       case ConsRecord(fs) =>
         FieldsFault(fs, e, pkg) || exists k :: LastFor(ts, k, d.name) && TemplateFault(ts[k], e, pkg)
       case ConsVariant(fs) => FieldsFault(fs, e, pkg)
       case ConsEnum(cs) => exists i :: 0 <= i < |cs| && StringFault(cs[i], e, pkg)
       case ConsInterface => false
  }

  lemma BuildFaulty(
    d: Wire.DefDataType, name: string, pkg: Wire.Package, path: Path, ts: seq<Wire.DefTemplate>, e: ConvertError)
    requires Wire.Acyclic(pkg)
    ensures BuildDataType(d, name, pkg, path, TemplateByTycon(ts)) == Failure(e) ==> DataTypeFault(d, ts, e, pkg)
    ensures BuildDataType(d, name, pkg, path, TemplateByTycon(ts)).Success? ==>
      DataTypeFault(d, ts, e, pkg) ==> SegmentsFault(d.name, MissingRequiredField, e, pkg)
  {
    hide ConvertFields, FieldsFault, ConvertTypeVars, TypeVarsFault, BuildTemplate, TemplateFault, TemplateByTycon,
      LastFor, ResolveStrings, StringFault, SegmentsFault, Wire.AcyclicTypes;
    TypeVarsFaulty(d.params, e, pkg);
    match d.cons
    case ConsRecord(fs) =>
      FieldsFaulty(fs, e, pkg);
      LastTemplateWins(ts, d.name);
      if ConvertFields(fs, pkg).Success? && d.name in TemplateByTycon(ts) {
        TemplateFaulty(
          TemplateByTycon(ts)[d.name], name, path, ConvertFields(fs, pkg).value, pkg, d.serializable, e);
      }
    case ConsVariant(fs) => FieldsFaulty(fs, e, pkg);
    case ConsEnum(cs) => StringsFaulty(cs, e, pkg);
    case _ =>
  }

  lemma SegmentsFaulty(index: int, empty: ConvertError, e: ConvertError, pkg: Wire.Package)
    ensures ResolveDotted(index, pkg) == Failure(e) ==> SegmentsFault(index, empty, e, pkg)
    ensures ResolveDotted(index, pkg) == Success([]) ==> SegmentsFault(index, empty, empty, pkg)
    ensures ResolveDotted(index, pkg).Success? && ResolveDotted(index, pkg).value != [] ==>
      !SegmentsFault(index, empty, e, pkg)
  {
    hide ResolveDotted, DottedFault;
    DottedFaulty(index, e, pkg);
  }

  lemma DataTypeFaulty(
    d: Wire.DefDataType, pkg: Wire.Package, path: Path, ts: seq<Wire.DefTemplate>, e: ConvertError)
    requires Wire.Acyclic(pkg)
    ensures ConvertDataType(d, pkg, path, TemplateByTycon(ts)) == Failure(e) ==> DataTypeFault(d, ts, e, pkg)
    ensures ConvertDataType(d, pkg, path, TemplateByTycon(ts)).Success? ==> !DataTypeFault(d, ts, e, pkg)
  {
    hide ResolveDotted, BuildDataType, TemplateByTycon, SegmentsFault, FieldsFault, TypeVarsFault, TemplateFault,
      LastFor, StringFault, Wire.Acyclic;
    SegmentsFaulty(d.name, MissingRequiredField, e, pkg);
    var segments := ResolveDotted(d.name, pkg);
    if segments.Success? && segments.value != [] {
      var (last, prefix) := SplitLast(segments.value, MissingRequiredField).value;
      BuildFaulty(d, last, pkg, path + prefix, ts, e);
    }
  }

  ghost predicate DataTypesFault(
    ds: seq<Wire.DefDataType>, ts: seq<Wire.DefTemplate>, e: ConvertError, pkg: Wire.Package)
    requires Wire.Acyclic(pkg)
  {
    exists i :: 0 <= i < |ds| && DataTypeFault(ds[i], ts, e, pkg)
  }

  lemma {:induction false} DataTypesFaulty(
    ds: seq<Wire.DefDataType>, pkg: Wire.Package, path: Path, ts: seq<Wire.DefTemplate>, e: ConvertError)
    requires Wire.Acyclic(pkg)
    ensures ConvertDataTypes(ds, pkg, path, TemplateByTycon(ts)) == Failure(e) ==> DataTypesFault(ds, ts, e, pkg)
    ensures ConvertDataTypes(ds, pkg, path, TemplateByTycon(ts)).Success? ==> !DataTypesFault(ds, ts, e, pkg)
  {
    hide ConvertDataType, DataTypeFault, TemplateByTycon, Wire.Acyclic;
    if ds != [] {
      DataTypeFaulty(ds[0], pkg, path, ts, e);
      DataTypesFaulty(ds[1..], pkg, path, ts, e);
      assert forall i :: 0 < i < |ds| ==> ds[i] == ds[1..][i - 1];
      if i :| 0 <= i < |ds[1..]| && DataTypeFault(ds[1..][i], ts, e, pkg) {
        assert ds[i + 1] == ds[1..][i];
      }
    }
  }

  // ---------- Synonyms, interfaces, exceptions ----------

  ghost predicate SynonymFault(s: Wire.DefTypeSyn, e: ConvertError, pkg: Wire.Package)
    requires Wire.Acyclic(pkg)
  {
    DottedFault(s.name, e, pkg) || TypeVarsFault(s.params, e, pkg) || TypeFault(s.ty, e, pkg)
  }

  ghost predicate MethodFault(m: Wire.InterfaceMethod, e: ConvertError, pkg: Wire.Package)
    requires Wire.Acyclic(pkg)
  {
    StringFault(m.name, e, pkg) || TypeFault(m.ty, e, pkg)
  }

  ghost predicate InterfaceFault(i: Wire.DefInterface, e: ConvertError, pkg: Wire.Package)
    requires Wire.Acyclic(pkg)
  {
    || SegmentsFault(i.tycon, InternalError, e, pkg) || StringFault(i.param, e, pkg)
    || (exists k :: 0 <= k < |i.methods| && MethodFault(i.methods[k], e, pkg))
    || ChoicesFault(i.choices, e, pkg) || TypeFault(i.view, e, pkg) || NamesFault(i.requires_, e, pkg)
  }

  lemma {:induction false} SynonymsFaulty(ss: seq<Wire.DefTypeSyn>, e: ConvertError, pkg: Wire.Package, path: Path)
    requires Wire.Acyclic(pkg)
    ensures ConvertSynonyms(ss, pkg, path) == Failure(e) ==>
      exists i :: 0 <= i < |ss| && SynonymFault(ss[i], e, pkg)
    ensures ConvertSynonyms(ss, pkg, path).Success? ==> forall i :: 0 <= i < |ss| ==> !SynonymFault(ss[i], e, pkg)
  {
    hide ConvertType, TypeFault, ConvertTypeVars, TypeVarsFault, ResolveDotted, DottedFault, Wire.AcyclicTypes;
    if ss != [] {
      DottedFaulty(ss[0].name, e, pkg);
      TypeVarsFaulty(ss[0].params, e, pkg);
      TypeFaulty(ss[0].ty, e, pkg);
      SynonymsFaulty(ss[1..], e, pkg, path);
      assert forall i :: 0 < i < |ss| ==> ss[i] == ss[1..][i - 1];
      if i :| 0 <= i < |ss[1..]| && SynonymFault(ss[1..][i], e, pkg) {
        assert ss[i + 1] == ss[1..][i];
      }
    }
  }

  lemma {:induction false} MethodsFaulty(ms: seq<Wire.InterfaceMethod>, e: ConvertError, pkg: Wire.Package)
    requires Wire.Acyclic(pkg)
    ensures ConvertMethods(ms, pkg) == Failure(e) ==> exists i :: 0 <= i < |ms| && MethodFault(ms[i], e, pkg)
    ensures ConvertMethods(ms, pkg).Success? ==> forall i :: 0 <= i < |ms| ==> !MethodFault(ms[i], e, pkg)
  {
    hide ConvertType, TypeFault, ResolveString, StringFault, Wire.Acyclic;
    if ms != [] {
      StringFaulty(ms[0].name, e, pkg);
      TypeFaulty(ms[0].ty, e, pkg);
      MethodsFaulty(ms[1..], e, pkg);
      assert forall i :: 0 < i < |ms| ==> ms[i] == ms[1..][i - 1];
      if i :| 0 <= i < |ms[1..]| && MethodFault(ms[1..][i], e, pkg) {
        assert ms[i + 1] == ms[1..][i];
      }
    }
  }

  lemma InterfaceFaulty(i: Wire.DefInterface, e: ConvertError, pkg: Wire.Package, path: Path)
    requires Wire.Acyclic(pkg)
    ensures ConvertInterface(i, pkg, path) == Failure(e) ==> InterfaceFault(i, e, pkg)
    ensures ConvertInterface(i, pkg, path).Success? ==> !InterfaceFault(i, e, pkg)
  {
    hide ConvertType, TypeFault, ResolveString, StringFault, ConvertChoices, ChoicesFault, ConvertQualifiedIds,
      NamesFault, ConvertMethods, MethodFault, ResolveDotted, SegmentsFault, Wire.Acyclic;
    SegmentsFaulty(i.tycon, InternalError, e, pkg);
    StringFaulty(i.param, e, pkg);
    MethodsFaulty(i.methods, e, pkg);
    TypeFaulty(i.view, e, pkg);
    NamesFaulty(i.requires_, e, pkg);
    if ResolveDotted(i.tycon, pkg).Success? && ResolveDotted(i.tycon, pkg).value != [] {
      var (name, prefix) := SplitLast(ResolveDotted(i.tycon, pkg).value, InternalError).value;
      ChoicesFaulty(i.choices, e, pkg, path + prefix);
    }
  }

  lemma {:induction false} InterfacesFaulty(is_: seq<Wire.DefInterface>, e: ConvertError, pkg: Wire.Package, path: Path)
    requires Wire.Acyclic(pkg)
    ensures ConvertInterfaces(is_, pkg, path) == Failure(e) ==>
      exists i :: 0 <= i < |is_| && InterfaceFault(is_[i], e, pkg)
    ensures ConvertInterfaces(is_, pkg, path).Success? ==>
      forall i :: 0 <= i < |is_| ==> !InterfaceFault(is_[i], e, pkg)
  {
    hide ConvertInterface, InterfaceFault, Wire.Acyclic;
    if is_ != [] {
      InterfaceFaulty(is_[0], e, pkg, path);
      InterfacesFaulty(is_[1..], e, pkg, path);
      assert forall i :: 0 < i < |is_| ==> is_[i] == is_[1..][i - 1];
      if i :| 0 <= i < |is_[1..]| && InterfaceFault(is_[1..][i], e, pkg) {
        assert is_[i + 1] == is_[1..][i];
      }
    }
  }

  lemma {:induction false} ExceptionsFaulty(es: seq<Wire.DefException>, e: ConvertError, pkg: Wire.Package, path: Path)
    ensures ConvertExceptions(es, pkg, path) == Failure(e) ==>
      exists i :: 0 <= i < |es| && SegmentsFault(es[i].name, InternalError, e, pkg)
    ensures ConvertExceptions(es, pkg, path).Success? ==>
      forall i :: 0 <= i < |es| ==> !SegmentsFault(es[i].name, InternalError, e, pkg)
  {
    hide ResolveDotted, SegmentsFault;
    if es != [] {
      SegmentsFaulty(es[0].name, InternalError, e, pkg);
      ExceptionsFaulty(es[1..], e, pkg, path);
      assert forall i :: 0 < i < |es| ==> es[i] == es[1..][i - 1];
      if i :| 0 <= i < |es[1..]| && SegmentsFault(es[1..][i].name, InternalError, e, pkg) {
        assert es[i + 1] == es[1..][i];
      }
    }
  }

  // ---------- Modules ----------

  /** All three transitional flags must be set. */
  predicate FlagsFault(flags: Wire.ModuleFlags, e: ConvertError) {
    e == UnsupportedFeatureUsed && flags != Wire.ModuleFlags(true, true, true)
  }

  /** `e` is what some part of the module is refused with. */
  ghost predicate ModuleFault(m: Wire.Module, e: ConvertError, pkg: Wire.Package)
    requires Wire.Acyclic(pkg)
  {
    || DottedFault(m.name, e, pkg) || FlagsFault(m.flags, e)
    || DataTypesFault(m.dataTypes, m.templates, e, pkg)
    || (exists i :: 0 <= i < |m.synonyms| && SynonymFault(m.synonyms[i], e, pkg))
    || (exists i :: 0 <= i < |m.interfaces| && InterfaceFault(m.interfaces[i], e, pkg))
    || (exists i :: 0 <= i < |m.exceptions| && SegmentsFault(m.exceptions[i].name, InternalError, e, pkg))
  }

  lemma ModuleFaulty(m: Wire.Module, e: ConvertError, pkg: Wire.Package)
    requires Wire.Acyclic(pkg)
    ensures ConvertModule(m, pkg) == Failure(e) ==> ModuleFault(m, e, pkg)
    ensures ConvertModule(m, pkg).Success? ==> !ModuleFault(m, e, pkg)
  {
    hide ConvertDataTypes, DataTypesFault, ConvertSynonyms, SynonymFault, ConvertInterfaces, InterfaceFault,
      ConvertExceptions, SegmentsFault, ResolveDotted, DottedFault, TemplateByTycon, InterfacesByName, ExceptionsByName,
      Wire.Acyclic;
    DottedFaulty(m.name, e, pkg);
    if ResolveDotted(m.name, pkg).Success? {
      var path := ResolveDotted(m.name, pkg).value;
      DataTypesFaulty(m.dataTypes, pkg, path, m.templates, e);
      SynonymsFaulty(m.synonyms, e, pkg, path);
      InterfacesFaulty(m.interfaces, e, pkg, path);
      ExceptionsFaulty(m.exceptions, e, pkg, path);
    }
  }

  /** The modules of a package are refused exactly when something is wrong with one of them, and with an error of
      something that is. */
  lemma ModulesFaulty(ms: seq<Wire.Module>, pkg: Wire.Package)
    requires Wire.Acyclic(pkg)
    ensures ConvertModules(ms, pkg).Failure? <==>
      exists i, e :: 0 <= i < |ms| && ModuleFault(ms[i], e, pkg)
    ensures ConvertModules(ms, pkg).Failure? ==>
      exists i :: 0 <= i < |ms| && ModuleFault(ms[i], ConvertModules(ms, pkg).error, pkg)
  {
    hide ConvertModule, ModuleFault, Wire.Acyclic;
    if ConvertModules(ms, pkg).Failure? {
      var i :| 0 <= i < |ms| && ConvertModule(ms[i], pkg) == Failure(ConvertModules(ms, pkg).error);
      ModuleFaulty(ms[i], ConvertModules(ms, pkg).error, pkg);
    } else {
      forall i, e | 0 <= i < |ms|
        ensures !ModuleFault(ms[i], e, pkg)
      {
        ModuleFaulty(ms[i], e, pkg);
      }
    }
  }
}
