/** What `validate` covers: which of the names in an archive resolve when it passes. */
module Coverage {
  import opened Wrappers
  import opened Element
  import opened Declarations
  import opened Archive
  import opened Validate
  import opened EndToEnd
  import opened Occurrences

  /** The type-constructor names of a module that `validate` does not look at. */
  ghost predicate Unchecked(c: ModuleContent, n: DamlTyConName) {
    || Implemented(c, n)
    || (exists t :: TypeOfSynonyms(c.synonyms, t) && n in Names(t))
    || (exists k, t :: k in c.dataTypes && FurtherField(ChoicesOf(c.dataTypes[k]), t) && n in Names(t))
    || (exists k, t :: k in c.interfaces && FurtherField(c.interfaces[k].choices, t) && n in Names(t))
  }

  // ---------- The whole archive ----------

  /** Some module of the package the name points into defines that synonym. */
  ghost predicate SynonymResolves(a: DamlArchive, n: DamlTyConName) {
    exists path, s ::
      && a.FindModule(n.ReferencePackage(), path).Some?
      && s in a.FindModule(n.ReferencePackage(), path).value.content.synonyms
      && s.name == n.ReferencePath() + [n.dataName]
  }

  ghost predicate IsModule(a: DamlArchive, id: string, path: Path) {
    a.FindModule(id, path).Some?
  }

  ghost predicate SynonymsResolve(a: DamlArchive) {
    forall id, path, n :: IsModule(a, id, path) && SynonymMentioned(a.FindModule(id, path).value.content, n) ==>
      SynonymResolves(a, n)
  }

  ghost predicate EveryNameResolves(a: DamlArchive) {
    && (forall id, path, n :: IsModule(a, id, path) && Mentioned(a.FindModule(id, path).value.content, n) ==>
          Resolves(a, n))
    && SynonymsResolve(a)
  }

  ghost predicate UncheckedNamesResolve(a: DamlArchive) {
    && (forall id, path, n :: IsModule(a, id, path) && Unchecked(a.FindModule(id, path).value.content, n) ==>
          Resolves(a, n))
    && SynonymsResolve(a)
  }

  lemma UncheckedIsMentioned(c: ModuleContent, n: DamlTyConName)
    requires Unchecked(c, n)
    ensures Mentioned(c, n)
  {
    hide Names, TypeOf, TypeOfInterface, FurtherField, ChoicesOf;
    if t :| TypeOfSynonyms(c.synonyms, t) && n in Names(t) {
      assert TypeIn(c, t);
    } else if k, t :| k in c.dataTypes && FurtherField(ChoicesOf(c.dataTypes[k]), t) && n in Names(t) {
      assert TypeIn(c, t);
    } else if k, t :| k in c.interfaces && FurtherField(c.interfaces[k].choices, t) && n in Names(t) {
      assert TypeIn(c, t);
    }
  }

  lemma InterfaceTypeViolates(a: DamlArchive, i: DamlInterface, t: DamlType, e: ConvertError)
    requires TypeOfInterface(i, t) && TypeViolation(a, t, e)
    ensures InterfaceViolation(a, i, e)
  {
    hide TypeViolation, ResolvesToRecord, ChoicesViolation, TypeOfChoices;
    if TypeOfChoices(i.choices, t) {
      ChoiceTypeViolates(a, i.choices, t, e);
    }
  }

  /** Whatever is mentioned and not unchecked is checked. */
  lemma MentionedIsChecked(a: DamlArchive, m: ModuleView, n: DamlTyConName)
    requires Mentioned(m.content, n) && !Unchecked(m.content, n) && !Resolves(a, n)
    ensures OwnViolation(a, m, NameError(a, n))
  {
    hide Names, TypeOf, TypeOfInterface, FurtherField, ChoicesOf, Resolves, NameError, DataViolation,
      InterfaceViolation;
    var c, e := m.content, NameError(a, n);
    if Required(c, n) {
      var k :| k in c.interfaces && n in c.interfaces[k].required;
      RequiredViolates(a, c.interfaces[k], n);
    } else {
      var t :| TypeIn(c, t) && n in Names(t);
      assert TypeViolation(a, t, e);
      if k :| k in c.dataTypes && TypeOf(c.dataTypes[k], t) {
        TypeViolates(a, c.dataTypes[k], t, e);
      } else {
        var k :| k in c.interfaces && TypeOfInterface(c.interfaces[k], t);
        InterfaceTypeViolates(a, c.interfaces[k], t, e);
      }
    }
  }

  lemma RequiredViolates(a: DamlArchive, i: DamlInterface, n: DamlTyConName)
    requires n in i.required && !Resolves(a, n)
    ensures InterfaceViolation(a, i, NameError(a, n))
  {
    hide Resolves, NameError, TypeViolation, ChoicesViolation, ResolvesToRecord;
    assert NameViolation(a, n, NameError(a, n));
  }

  /** When an archive passes `validate`, every name anywhere in it resolves exactly when those do that it does
      not look at: those in `implements` lists, in synonym definitions and in fields of a choice beyond the
      first, and the names of synonyms. */
  lemma ValidCovers(a: DamlArchive)
    requires Valid(a) && forall id :: id in a.packages ==> WellFormed(a.packages[id].root)
    ensures EveryNameResolves(a) <==> UncheckedNamesResolve(a)
  {
    hide Mentioned, Unchecked, Resolves, SynonymsResolve, WellFormed, Violates, NameError;
    forall id, path, n | IsModule(a, id, path) && Unchecked(a.FindModule(id, path).value.content, n)
      ensures Mentioned(a.FindModule(id, path).value.content, n)
    {
      UncheckedIsMentioned(a.FindModule(id, path).value.content, n);
    }
    forall id, path, n | IsModule(a, id, path) && Mentioned(a.FindModule(id, path).value.content, n)
      ensures Unchecked(a.FindModule(id, path).value.content, n) || Resolves(a, n)
    {
      var m := a.FindModule(id, path).value;
      if !Unchecked(m.content, n) && !Resolves(a, n) {
        MentionedIsChecked(a, m, n);
        ViolatedModule(a, id, path, NameError(a, n));
      }
    }
  }

  lemma ViolatedModule(a: DamlArchive, id: string, path: Path, e: ConvertError)
    requires IsModule(a, id, path) && OwnViolation(a, a.FindModule(id, path).value, e)
    requires WellFormed(a.packages[id].root)
    ensures Violates(a, e)
  {
    hide OwnViolation, ModuleViolation, WellFormed;
    assert ViolationAt(a, a.packages[id].root, path, e);
    CheckedByPath(a, a.packages[id].root, e);
  }

  // ---------- What is reported ----------

  /** Without an argument, or with one that is no record. */
  ghost predicate NoRecord(a: DamlArchive, cs: seq<DamlChoice>) {
    exists c :: c in cs && (c.fields == [] || !ResolvesToRecord(a, c.fields[0].ty))
  }

  /** The name finds nothing: there is no such package, no such module in it, or nothing so called in that. */
  ghost predicate Missing(a: DamlArchive, n: DamlTyConName, e: ConvertError) {
    var id, path := n.ReferencePackage(), n.ReferencePath();
    match e
    case UnknownPackage(package) => id !in a.packages && package == id
    case UnknownModule(p) => id in a.packages && !IsModule(a, id, path) && p == path
    case UnknownData(name) =>
      && IsModule(a, id, path) && name == n.dataName
      && (var m := a.FindModule(id, path).value;
          && name !in m.content.dataTypes
          && forall k :: k in m.content.interfaces ==> m.content.interfaces[k].name != name)
    case _ => false
  }

  ghost predicate MissingIn(a: DamlArchive, t: DamlType, e: ConvertError) {
    exists n :: n in Names(t) && Missing(a, n, e)
  }

  ghost predicate DataReported(a: DamlArchive, d: DamlData, e: ConvertError) {
    || (e == UnexpectedChoiceData && NoRecord(a, ChoicesOf(d)))
    || (exists t :: TypeOf(d, t) && MissingIn(a, t, e))
  }

  ghost predicate InterfaceReported(a: DamlArchive, i: DamlInterface, e: ConvertError) {
    || (e == UnexpectedChoiceData && NoRecord(a, i.choices))
    || (e == UnexpectedType && !ResolvesToRecord(a, i.view))
    || (exists t :: TypeOfInterface(i, t) && MissingIn(a, t, e))
    || (exists n :: n in i.required && Missing(a, n, e))
  }

  /** What is wrong with a module: a name in a type of a data type or interface, or of an interface another one
      requires, finds nothing, or a choice's argument or an interface's view is no record. */
  ghost predicate ReportedAt(a: DamlArchive, c: ModuleContent, e: ConvertError) {
    || (exists k :: k in c.dataTypes && DataReported(a, c.dataTypes[k], e))
    || (exists k :: k in c.interfaces && InterfaceReported(a, c.interfaces[k], e))
  }

  lemma MissingIs(a: DamlArchive, n: DamlTyConName, e: ConvertError)
    ensures NameViolation(a, n, e) <==> Missing(a, n, e)
  {
  }

  lemma MissingInIs(a: DamlArchive, e: ConvertError)
    ensures forall t :: TypeViolation(a, t, e) <==> MissingIn(a, t, e)
  {
    hide NameViolation, Missing, Names;
    forall n
      ensures NameViolation(a, n, e) <==> Missing(a, n, e)
    {
      MissingIs(a, n, e);
    }
  }

  lemma ChoicesReport(a: DamlArchive, cs: seq<DamlChoice>, e: ConvertError)
    ensures ChoicesViolation(a, cs, e) <==>
      (e == UnexpectedChoiceData && NoRecord(a, cs)) || exists t :: TypeOfChoices(cs, t) && TypeViolation(a, t, e)
  {
    hide TypeViolation, ResolvesToRecord;
    if c :| c in cs && (c.fields == [] || !ResolvesToRecord(a, c.fields[0].ty)) && e == UnexpectedChoiceData {
      assert ChoiceViolation(a, c, e);
    }
    if c :| c in cs && ChoiceViolation(a, c, e) {
      if c.fields != [] && TypeViolation(a, c.fields[0].ty, e) {
        assert TypeOfChoices(cs, c.fields[0].ty);
      } else if TypeViolation(a, c.returnType, e) {
        assert TypeOfChoices(cs, c.returnType);
      }
    }
    if t :| TypeOfChoices(cs, t) && TypeViolation(a, t, e) {
      var c :| c in cs && ((c.fields != [] && t == c.fields[0].ty) || t == c.returnType);
      assert ChoiceViolation(a, c, e);
    }
  }

  lemma DataReports(a: DamlArchive, d: DamlData, e: ConvertError)
    ensures DataViolation(a, d, e) <==> DataReported(a, d, e)
  {
    hide TypeViolation, MissingIn, ResolvesToRecord, ChoicesViolation, TypeOfChoices;
    MissingInIs(a, e);
    ChoicesReport(a, ChoicesOf(d), e);
    if f :| f in Fields(d) && TypeViolation(a, f.ty, e) {
      assert TypeOf(d, f.ty);
    }
    if d.Template? && d.key.Some? && TypeViolation(a, d.key.value, e) {
      assert TypeOf(d, d.key.value);
    }
    if t :| d.Template? && TypeOfChoices(d.choices, t) && TypeViolation(a, t, e) {
      assert TypeOf(d, t);
    }
    if t :| TypeOf(d, t) && TypeViolation(a, t, e) {
      if f :| f in Fields(d) && t == f.ty {
        assert FieldsViolation(a, Fields(d), e);
      }
    }
  }

  lemma InterfaceReports(a: DamlArchive, i: DamlInterface, e: ConvertError)
    ensures InterfaceViolation(a, i, e) <==> InterfaceReported(a, i, e)
  {
    hide TypeViolation, MissingIn, ResolvesToRecord, ChoicesViolation, TypeOfChoices, NameViolation, NoRecord, Missing;
    MissingInIs(a, e);
    forall n | n in i.required
      ensures NameViolation(a, n, e) <==> Missing(a, n, e)
    {
      MissingIs(a, n, e);
    }
    ChoicesReport(a, i.choices, e);
    if m :| m in i.methods && TypeViolation(a, m.ty, e) {
      assert TypeOfInterface(i, m.ty);
    }
    assert TypeOfInterface(i, i.view);
    if t :| TypeOfChoices(i.choices, t) && TypeViolation(a, t, e) {
      assert TypeOfInterface(i, t);
    }
  }

  lemma ModuleReports(a: DamlArchive, m: ModuleView, e: ConvertError)
    ensures OwnViolation(a, m, e) <==> ReportedAt(a, m.content, e)
  {
    hide DataViolation, InterfaceViolation, DataReported, InterfaceReported;
    var c := m.content;
    forall k | k in c.dataTypes
      ensures DataViolation(a, c.dataTypes[k], e) <==> DataReported(a, c.dataTypes[k], e)
    {
      DataReports(a, c.dataTypes[k], e);
    }
    forall k | k in c.interfaces
      ensures InterfaceViolation(a, c.interfaces[k], e) <==> InterfaceReported(a, c.interfaces[k], e)
    {
      InterfaceReports(a, c.interfaces[k], e);
    }
  }

  /** What `validate` may report, and exactly that: a name it looks at that finds nothing, by the first step
      missing on its way, a choice without a record for argument, and an interface without a record for view. */
  lemma ViolationsAre(a: DamlArchive, e: ConvertError)
    requires forall id :: id in a.packages ==> WellFormed(a.packages[id].root)
    ensures Violates(a, e) <==>
      exists id, path :: IsModule(a, id, path) && ReportedAt(a, a.FindModule(id, path).value.content, e)
  {
    hide ModuleViolation, OwnViolation, ReportedAt, WellFormed;
    if id :| id in a.packages && ModuleViolation(a, a.packages[id].root, e) {
      CheckedByPath(a, a.packages[id].root, e);
      var path :| ViolationAt(a, a.packages[id].root, path, e);
      ModuleReports(a, a.FindModule(id, path).value, e);
      assert IsModule(a, id, path);
    }
    forall id, path | IsModule(a, id, path) && ReportedAt(a, a.FindModule(id, path).value.content, e)
      ensures Violates(a, e)
    {
      ModuleReports(a, a.FindModule(id, path).value, e);
      ViolatedModule(a, id, path, e);
    }
  }
}
