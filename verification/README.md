# A verified model of the Daml LF tool chain

This project models, in Dafny, the parts of the `daml-rust` repository that form a small compiler, and
proves what they promise.

* **Conversion** (`daml-lf/src/convert`). `Wire` is a decoded LF2 package: lists of modules and tables of
  strings, dotted names, types, kinds and expressions. `Interned`, `TypeConversion`, `ExprConversion` and
  `Declarations` convert it into the layer of `Element`. `ModuleTree` is the mutable module tree with its
  cursor, as a class; `FlatTree` is what that tree denotes, a map from module path to content, and the tree is
  proved against it. `TypeFidelity` and `ExprFidelity` say what wire terms mean, `Faults` and
  `DeclarationFaults` what is wrong with those that mean nothing, `Fidelity` and `Inventory` what becomes of
  declarations. `Expansion`, `Acyclicity`, `Termination`, `Renaming`, `RenamingExactly`, `RenamingExprs`,
  `Placement`, `Interfaces` and `OrderIndependence` prove more about conversion. `ArchivePayload` builds the
  shared table of package names.
* **The archive** (`daml-lf/src/element`). `Archive` has the lookups over a finished archive, `Validate` the
  two worklist walks of `validate`, `Coverage` what they report and what they leave out, `ReferencedData` what the
  checks see of a reference's target. `Occurrences` says which names a declaration is written with.
* **The generator** (`daml-codegen`). `Identifiers` escapes names, `Renderer` emits nested `pub mod`s with the
  inherited inclusion flag, `TypeRenderer` prints types and paths and decides what can be printed, `Separate`
  writes one file per module, `Modes` compares the two. `TypeTranslation` and `EndToEnd` join both ends: what is
  printed for a wire type, and that generated references name what they mean; `Witness` is an archive that meets
  the premises of that theorem.
* **Package closure** (`daml-util/src/package.rs`). `References` is the visitor that records which packages a
  package names, `PackageClosure` the breadth-first search and the assembly of a DAR, `Implements` what becomes
  of the packages of implemented interfaces.
* **Smaller cores.** `Manifest`, `ManifestLines` and `ManifestRoundTrip` fold, render, load and parse DAR
  manifests, `ManifestShape` says what a manifest looks like, `YamlScalars` scans the plain scalars in it;
  `TextMap` is the order of text maps.

`Counterexamples` holds wire packages on which a promise fails; they are built over the tables of
`SmallPackages`. Objects the source updates in place are classes (`DamlModule`, `DamlPackagePayload`, the
reference visitor, the file generator), loops are loops; each such method states its result by a function of its
inputs or the old state, and the properties are proved about that function.

## What the proofs found

Where a promise of the code is not kept on all inputs, the code is modelled as it is, the exact condition is
proved, and an input that fails it is given.

* `take_from` replaces the content of a node. A real module installed at the path of a synthetic one discards
  the payload records already routed there (`Counterexamples.LostDefinition`); a definition is found exactly when
  that does not happen to it (`Placement.DefinitionFound`).
* The order of the modules matters exactly in that case and when another synthetic node lies above a real
  module, whose mark then depends on which came first (`OrderIndependence.WireOrderDoesNotMatter`).
* A template is attached to a record by dotted-name index, not by name. A table with the same name twice can
  hide a template from its record (`Counterexamples.HiddenTemplate`, `Renaming.MergedTemplateName`); another
  layout of the tables keeps all modules exactly under the condition of `RenamingExactly.ModulesExactly`.
* Interfaces stay in the module that declares them whatever prefix their dotted name has, keyed by the last
  segment, while references are made to the prefixed path. An interface is found exactly when it has no prefix,
  no later interface of its module ends in the same segment, and its module is not overwritten
  (`Interfaces.InterfaceFound`, `Counterexamples.InterfacesLost`).
* `validate` is documented to walk every type-constructor reference. It does not look at `implements` lists and
  synonym definitions, nor at the names of synonyms; when it passes, everything resolves exactly when those do
  (`Coverage.ValidCovers`, `Counterexamples.DanglingImplements`).
* The visitor behind `reachable_from` does not visit `implements` either, so a filtered DAR may lack the package
  of an implemented interface; exactly when it does not is `Implements.ImplementedKeptIff`, and
  `Counterexamples.ImplementedDropped` is a DAR that does.
* Choice arguments are printed by the full method without the check that guards fields. In a valid archive one
  fails to print exactly when a type its record is applied to has something unsupported in a printed position
  (`EndToEnd.ChoiceArgumentPrints`, `TypeRenderer.PrintsIffPrintable`, `Counterexamples.UnprintableArgument`).
* `check_type` also refuses types that print: exactly those with a target that does not pass, or something
  unsupported in a position that is not printed (`TypeRenderer.CheckTypeExactly`), as in the contract id of an
  arrow (`TypeRenderer.RefusedThoughPrinted`).
* Separate mode tests each module's own path and ignores the synthetic mark, so under a filter it generates other
  modules than the combined mode, in both directions; and it never writes the data of the root module, filter or
  not. When the two agree is `Modes.ModesAgree`; `Counterexamples` has `PayloadsLost`, `UnmatchedWritten` and
  `RootDataNotWritten`. It writes no interfaces (`Modes.SeparateReference`).
* Types lose what arrows, updates and other builtins without arguments in the element layer are applied to. The
  names in there are neither validated nor recorded; which ones are left is `TypeFidelity.TypeNames`, and
  `TypeFidelity.ArrowForgets` loses one.
* A reference to a value of another package converts to a local name, and the visitor records nothing for local
  names; so it does not record packages of which only values are used (`ExprFidelity.ForeignValueForgotten`).
* Text maps are documented to compare lexicographically by their sorted pairs. Maps of different sizes compare by
  size alone (`TextMap.Decided`, `TextMap.SizeBeforeKeys`).
* The converters do not look for cycles in the type table. Conversion of a type returns exactly when it comes to
  no entry that leads it back to itself (`Termination.EndsIffNoCycle`), and never for an entry that refers to
  itself (`Termination.SelfReferenceNeverEnds`).
* The list of Rust keywords lacks `Self` (`Identifiers.EscapedRustKeyword`).
* A manifest without dependencies renders as one that does not parse, and so does one whose creator YAML refuses
  as written (`ManifestRoundTrip.ParseRender`, `ManifestRoundTrip.MappingRefused`). An unknown version renders as
  `1.0`. The creator comes back exactly under the condition of `ManifestRoundTrip.CreatorRecovered`: a long one is
  broken and gets a space there, `1.0` is read as a number (`ManifestRoundTrip.NumberLost`), and of `a #b: c` only
  what is before the comment is read (`ManifestRoundTrip.CommentLost`).

## Model

| member | source | states |
|---|---|---|
| EndToEnd.GeneratedReferencesResolve | daml-codegen/src/renderer/type_renderer.rs:91-103 | In a converted archive that validates, with package names that are not empty and identifiers that stay apart among packages and among siblings, generated without a filter: every type of a field, choice argument, choice result or key that passes `check_type` prints, and in every such type that prints each path belongs to a name of the type and leads to the emitted `pub mod` that holds the very data type, or an interface, that name finds |
| Witness.PremisesHold | daml-codegen/src/renderer/type_renderer.rs:91-103 | The premises of the previous theorem hold together: of an archive with a module `M` and a record `R` with a field of its own type, printed under a path of package and module |
| EndToEnd.PrintedPathNamesData | daml-codegen/src/renderer/type_renderer.rs:91-103 | For any filter: the printed absolute path of a name that resolves leads to a module holding that very data exactly when the data's module renders its declarations |
| EndToEnd.ItemWhereRendered | daml-codegen/src/renderer/module_renderer.rs:35-95 | Following the package's identifier and the identifiers of a module path in the generated code finds a declaration exactly when some module whose path is spelled by the same identifiers exists, renders, and declares it |
| EndToEnd.DataWhereRendered | daml-codegen/src/renderer/module_renderer.rs:72-94 | A data type is found along identifiers exactly where a module whose path is spelled alike declares it and renders its declarations |
| EndToEnd.InterfaceWhereRendered | daml-codegen/src/renderer/module_renderer.rs:72-94 | An interface likewise, but only in code generated by the full method |
| EndToEnd.FoundDataStamped | daml-lf/src/convert/type_payload.rs:160-206 | Every name in the fields, choices, key and `implements` list of data found in the tree is absolute and carries the package name its archive knows for the package it points at |
| EndToEnd.FoundUnderOwnName | daml-lf/src/convert.rs:273-305 | Data found under a name carries that name |
| EndToEnd.UnresolvedName | daml-lf/src/element/daml_archive.rs:189-250 | A name in a field, choice argument, choice result or key of any data type that does not resolve is a violation `validate` is bound to report |
| EndToEnd.ChoiceArgumentPrints | daml-codegen/src/renderer/data_renderer/full/quote_choices.rs:37-42 | The full method prints a choice argument without `check_type`. In an archive that validates the argument names a record, and it prints exactly when no type the record is applied to has anything unsupported in a printed position |
| Counterexamples.UnprintableArgument | daml-codegen/src/renderer/data_renderer/full/quote_choices.rs:37-42 | A wire package whose archive validates and whose choice argument, a record applied to an arrow, does not print: the generator panics |
| TypeTranslation.PrintedIsTranslated | daml-lf/src/convert/type_payload.rs:22-142 | Converting a wire type and printing it gives what a direct translation of wire types to Rust types gives: right primitive, arguments in order, right crate path |
| TypeFidelity.TypeMeans | daml-lf/src/convert/type_payload.rs:22-142 | Conversion of a type succeeds exactly when the type means something, and gives what it means; meaning is a relation between wire types with interned nodes followed and element types: the right constructor, every argument in order, the argument of a contract id if there is one, struct fields, forall binders and bodies, names and strings as they are spelled in the tables |
| TypeFidelity.TypeNames | daml-lf/src/convert/type_payload.rs:22-142 | The type-constructor names, and the synonym names, in a converted type are exactly those the wire type is written with, except in what builtins without arguments in the element layer are applied to |
| TypeFidelity.ArrowForgets | daml-lf/src/convert/type_payload.rs:102-142 | What an arrow is applied to is lost, and the names in it |
| TypeFidelity.NameMeans | daml-lf/src/convert/type_payload.rs:160-206 | A reference converts exactly to the absolute name it spells: package, module segments followed by those of the dotted name, and the package's name if the archive knows it |
| TypeFidelity.KindMeans | daml-lf/src/convert/typevar_payload.rs:19-41 | The same for kinds: arrows with parameters in order and result, interned nodes followed |
| ExprFidelity.ExprMeans | daml-lf/src/convert/expr_payload.rs:50-283 | Conversion of a modelled expression succeeds exactly when it means something, and gives what it means: the right constructor, every child, binder, string, type and reference in its own role and order |
| ExprFidelity.UpdateMeans | daml-lf/src/convert/expr_payload.rs:287-399 | The same for the modelled updates: of an exercise the template, contract id, argument and choice each in its place |
| ExprFidelity.PatternMeans | daml-lf/src/convert/expr_payload.rs:429-461 | The same for patterns |
| ExprFidelity.ForeignValueForgotten | daml-lf/src/convert/expr_payload.rs:480-513 | A reference to a value of another package becomes a local name, which points into no package |
| Faults.TypeFaulty | daml-lf/src/convert/type_payload.rs:22-206 | Conversion of a type fails exactly when something in it is wrong, with an error of something that is: unset parts, indices outside a table, a natural above 37, a second argument of a contract id, what is not supported |
| Faults.ExprFaulty | daml-lf/src/convert/expr_payload.rs:50-283 | The same for the modelled expressions |
| DeclarationFaults.ModulesFaulty | daml-lf/src/convert.rs:110-383 | The modules of a package are refused exactly when something is wrong with a declaration, name or flag of one of them, with an error of something that is |
| Expansion.TypeConversionIsExpansion | daml-lf/src/convert/type_payload.rs:22-76 | Over acyclic tables, converting a type gives the same type or the same error as converting it with every interned node replaced by its definition and no tables left |
| Expansion.FieldsConversionIsExpansion | daml-lf/src/convert/field_payload.rs:14-21 | The same for the fields of records, variants and structs |
| Expansion.KindConversionIsExpansion | daml-lf/src/convert/typevar_payload.rs:19-41 | The same for kinds |
| Expansion.ExprConversionIsExpansion | daml-lf/src/convert/expr_payload.rs:50-283 | The same for the modelled expressions, binders and lists of children included |
| Expansion.UpdateConversionIsExpansion | daml-lf/src/convert/expr_payload.rs:287-399 | The same for the modelled update expressions |
| Expansion.BareResolves | daml-lf/src/convert/interned.rs:24-53 | Dropping the type, kind and expression tables changes no string, dotted name or reference |
| Acyclicity.TypesAcyclicIff | daml-lf/src/convert/type_payload.rs:59-66 | A type table meets the premise of conversion exactly when no walk along mentions returns to its start, so in particular when entries mention only earlier entries; the converter has no cycle check |
| Termination.EndsIffNoCycle | daml-lf/src/convert/type_payload.rs:22-76 | Over any type table, conversion of a type returns exactly when it comes to no entry from which it would come back to that entry: cycles that are not used, or lie behind an error, do no harm (kind tables without cycles) |
| Termination.SelfReferenceNeverEnds | daml-lf/src/convert/type_payload.rs:59-66 | An entry that refers to itself is chased for ever |
| Termination.RunIsConversion | daml-lf/src/convert/type_payload.rs:22-76 | Over a table without cycles the conversion with fuel always returns in the end, and only ever with the result of conversion |
| Acyclicity.KindsAcyclicIff | daml-lf/src/convert/typevar_payload.rs:19-41 | The same for kind tables |
| Acyclicity.ExprsAcyclicIff | daml-lf/src/convert/expr_payload.rs:50-283 | The same for expression tables |
| Acyclicity.RankableIffNoCycle | daml-lf/src/convert/type_payload.rs:59-66 | A table can be ranked exactly when no walk through it returns to its start: the number of entries reachable is a rank |
| Acyclicity.BoundIsLeast | daml-lf/src/convert/type_payload.rs:59-66 | The termination measure of a type is the least number above the ranks of everything it mentions |
| Renaming.TypeIndependent | daml-lf/src/convert/type_payload.rs:22-76 | Permuting or extending the string, dotted-name, kind and type tables and rewriting the indices leaves every successful type conversion as it was |
| Renaming.ModulesIndependent | daml-lf/src/convert.rs:110-196 | The same for all modules of a package, provided no dotted name of a template is merged with that of another data type |
| RenamingExactly.ModulesExactly | daml-lf/src/convert.rs:110-330 | A package that converts makes the same modules under another layout exactly when every record keeps the template it wraps, or gets one with the same parameter, choices, key and interfaces |
| RenamingExprs.ExprIndependent | daml-lf/src/convert/expr_payload.rs:50-283 | The same for the modelled expressions, with the expression table laid out again too |
| Renaming.MergedTemplateName | daml-lf/src/convert.rs:281-330 | Templates are attached by dotted-name index: a plain record stays a record under a renaming exactly when its index is not merged with a template's |
| Counterexamples.HiddenTemplate | daml-lf/src/convert.rs:278-330 | A wire package with one name twice in its table: record and template are both named `D`, and the record found is no template; with one entry it is |
| Renaming.AppendedEntriesUnused | daml-lf/src/convert/interned.rs:24-53 | Entries appended to the string, dotted-name, kind and type tables change nothing: all modules convert to the same |
| RenamingExprs.AppendedUnusedByExprs | daml-lf/src/convert/expr_payload.rs:50-283 | Entries appended to any table, that of expressions included, change no modelled expression that converts |
| ModuleTree.BuildModuleTree | daml-lf/src/convert.rs:110-117 | The loop fails with the first module's error or leaves a well-formed mutable tree that denotes exactly the specification of inserting the modules in order |
| ModuleTree.InsertModule | daml-lf/src/convert.rs:119-196 | One insertion: the cursor walk, `take_from` and the routing of dotted definitions denote the specification step; every node keeps its place and its path; the path equality asserted in `take_from` holds |
| ModuleTree.Walk | daml-lf/src/convert.rs:125-128 | Moving the cursor creates what is missing on the way, keeps the rest, and ends at the node of the target path |
| ModuleTree.Step | daml-lf/src/convert.rs:126-128 | One step of the cursor: the child is found or created, flags of an existing node are left alone |
| ModuleTree.NewChildIndexed | daml-lf/src/element/daml_module.rs:168-176 | Linking a new child keeps the tree well formed: every path is its parent's path followed by its key |
| ModuleTree.Route | daml-lf/src/convert.rs:180-194 | A definition with a dotted name ends up in the synthetic child its prefix names, and nowhere else |
| ModuleTree.Install | daml-lf/src/convert.rs:165-179 | Installing a real module replaces the content at its path and leaves children and all other nodes as they were |
| ModuleTree.BuildLeaf | daml-lf/src/convert.rs:130-178 | A module's own content and its nested definitions, or its first error |
| ModuleTree.BuildDataTypes | daml-lf/src/convert.rs:273-305 | The loop splits the definitions into direct ones by name and nested ones in order |
| ModuleTree.BuildInterfaces | daml-lf/src/convert.rs:211-222 | The loop converts every interface and keys it by name |
| ModuleTree.BuildExceptions | daml-lf/src/convert.rs:224-235 | The loop converts every exception and keys it by name |
| ModuleTree.DamlModule.ChildModuleOrNew | daml-lf/src/element/daml_module.rs:168-180 | Returns the child of that name, created empty and real if there was none |
| ModuleTree.DamlModule.SyntheticChildOrNew | daml-lf/src/element/daml_module.rs:239-247 | Returns the child of that name with its flag left alone, created synthetic if there was none |
| ModuleTree.DamlModule.InsertDataType | daml-lf/src/element/daml_module.rs:182-184 | Adds or replaces one data type |
| ModuleTree.DamlModule.TakeFrom | daml-lf/src/element/daml_module.rs:191-207 | Takes over the whole content of the other module, whatever was there before, and keeps the children |
| Fidelity.LastTemplateWins | daml-lf/src/convert.rs:278-282 | A template is found for a dotted-name index exactly when some template has that index, and it is the last one |
| Interned.SplitLast | daml-lf/src/convert/type_payload.rs:262-265 | Splits a dotted name into last segment and prefix; fails exactly on the empty name |
| Placement.DefinitionFound | daml-lf/src/convert.rs:110-196 | With fully qualified data names distinct, a definition is found at its path after the whole run exactly when no later module is installed at that path |
| Placement.OnlyDefinitionsFound | daml-lf/src/convert.rs:110-196 | Whatever is found in the finished tree is a definition of some module, at its own path and name |
| Counterexamples.LostDefinition | daml-lf/src/element/daml_module.rs:191-207 | A wire package that loses data: definition `B.D` of module `A` is gone when module `A.B` is listed after `A`, and found when it is listed before |
| Placement.InsertModuleAt | daml-lf/src/convert.rs:119-196 | The content of any node after an insertion, said without the walk |
| Placement.InsertModuleCovers | daml-lf/src/convert.rs:119-196 | Which nodes exist after an insertion |
| OrderIndependence.OrderDoesNotMatter | daml-lf/src/convert.rs:110-196 | With module paths and data names distinct, every permutation of the modules builds the same tree, flags and synthetic marks included, exactly when nothing is routed into a real module's path and no other synthetic node lies above a real module |
| OrderIndependence.WireOrderDoesNotMatter | daml-lf/src/convert.rs:110-117 | The same, exactly when, for the order in which the wire package lists its modules |
| OrderIndependence.BuiltTreeDescribed | daml-lf/src/convert.rs:110-196 | Under that condition the tree is described by the set of modules alone |
| OrderIndependence.TreePaths | daml-lf/src/convert.rs:119-194 | The nodes of the finished tree are the root, everything on the way to a real module, and everything on the way to a dotted definition |
| Fidelity.WireDataFound | daml-lf/src/convert.rs:110-383 | Every data type of the wire package, interface markers apart, is found in the finished tree under its module path and dotted name with its kind, its type parameters, its fields, constructors and choices in order and the names and types that the wire type means, unless a later module is installed at its path |
| Fidelity.DataSame | daml-lf/src/convert.rs:307-383 | Converting a data type keeps kind, type parameters, fields or constructors in order, and flags; a record some template wraps gets the choices, parameter, key and interfaces of the last such template |
| Inventory.WireModuleFound | daml-lf/src/convert.rs:119-260 | Every wire module is found at its own path, not synthetic, with its synonyms in order, and under each name the last of its interfaces and of its exceptions that ends in it, each with its path, parameter, methods, choices, view and required interfaces as written, unless a later module is installed there |
| Inventory.OtherNodes | daml-lf/src/element/daml_module.rs:216-250 | A node no module is installed at holds data types and nothing else, and all feature flags are set everywhere |
| Archive.ChildPathFinds | daml-lf/src/element/daml_module.rs:145-154 | `child_module_path` finds a node exactly when the tree has that path, and it is that node's subtree |
| Archive.ViewExists | daml-lf/src/convert.rs:96-105 | Every tree that building leaves has a value view, so the theorems about views speak about something |
| ArchivePayload.FromDar | daml-lf/src/convert/archive_payload.rs:47-72 | Fails with the first bad archive, or leaves every payload stamped with the one table of all package names: all packages know the name of every package of the archive |
| ArchivePayload.CollectPayloads | daml-lf/src/convert/archive_payload.rs:50-60 | Main package first, then dependencies; a later one with the same id replaces an earlier one |
| ArchivePayload.FirstBadFails | daml-lf/src/convert/archive_payload.rs:50-60 | The first archive that is bad fails them all, with its error |
| ArchivePayload.LastPayloadStays | daml-lf/src/convert/archive_payload.rs:50-60 | Under each package id there is the payload of the last archive with it |
| ArchivePayload.StampAll | daml-lf/src/convert/archive_payload.rs:61-66 | Stamping changes the name table of every payload and nothing else |
| ArchivePayload.PackagePayload | daml-lf/src/convert/package_payload.rs:116-180 | Fails exactly without metadata, with a name or version outside the string table, or with a module without flags; otherwise a stand-alone payload has the archive's tables and modules, is named by the string its metadata points at, and knows that name under its own id and no other |
| ArchivePayload.DamlPackagePayload.SetPkgNames | daml-lf/src/convert/package_payload.rs:90-92 | Replaces the name table and nothing else |
| ArchivePayload.PackageNameAgrees | daml-lf/src/convert/type_payload.rs:197-206 | From whichever package a reference is made, self or cross, the target's own name is printed; only a package outside the archive has none |
| ArchivePayload.ReferenceMeetsDefinition | daml-lf/src/convert/type_payload.rs:160-195 | The name made for a reference to a definition finds that definition in the converted archive exactly when no later module of the target package is installed at its path |
| Interfaces.InterfaceFound | daml-lf/src/convert.rs:211-222 | With fully qualified interface names distinct, an interface is found under the name references use exactly when its dotted name has no prefix, no later interface of its module ends in the same segment, and no later module is installed at its module's path |
| Interfaces.ReferenceMeetsInterface | daml-lf/src/element/daml_archive.rs:96-121 | The same from the reference: the name made for a reference to an interface, from any package of the archive, finds that interface under exactly that condition |
| Interfaces.QualifiedName | daml-lf/src/convert/interface_payload.rs:20-55 | A converted interface carries the path and name its dotted name spells below its module, whatever node it is kept in |
| Counterexamples.InterfacesLost | daml-lf/src/convert.rs:211-222 | A wire module `A` with interfaces `D` and `B.D`: under the name of the first the second is found, under the name of the second nothing |
| ArchivePayload.LookupInTree | daml-lf/src/element/daml_archive.rs:83-94 | Lookup in the archive is lookup in the tree of the package it names |
| Validate.Validate | daml-lf/src/element/daml_archive.rs:175-187 | The worklist walk over modules ends; it passes exactly when nothing anywhere in the archive is violated, and an error it returns is a violation of its own kind |
| Coverage.ValidCovers | daml-lf/src/element/daml_archive.rs:146-187 | When an archive passes, every type-constructor and synonym name anywhere in it resolves exactly when those do that are not looked at: in `implements` lists, in synonym definitions, in choice fields beyond the first, and the names of synonyms |
| Coverage.ViolationsAre | daml-lf/src/element/daml_archive.rs:146-318 | What `validate` may report, and exactly that: for a name in a type of a data type or interface, or required by an interface, that finds nothing, the first of package, module and data that is missing; a choice without a record for argument; an interface without a record for view |
| ReferencedData.RecordsOnly | daml-lf/src/element/daml_archive.rs:310-317 | In a converted archive a reference to a data type passes for a record exactly when the wire data type is a record no template wraps |
| Archive.FoundWhereItPoints | daml-lf/src/element/daml_type.rs:421-429 | A name is looked up in the package and module it points to; a non-local one not where it stands |
| Counterexamples.DanglingImplements | daml-lf/src/element/daml_archive.rs:207-218 | A wire package whose archive passes although its template implements an interface of a package that is not there |
| Validate.ValidateOwn | daml-lf/src/element/daml_archive.rs:176-186 | What is checked of one module: its data types and interfaces |
| Validate.ValidateType | daml-lf/src/element/daml_archive.rs:252-293 | The worklist walk over a type ends; it passes exactly when every type-constructor name in the type resolves, and an error belongs to a name that does not |
| Validate.ValidateChoice | daml-lf/src/element/daml_archive.rs:238-250 | Passes exactly when the argument is a record and every name in argument and return type resolves |
| Validate.ValidateInterface | daml-lf/src/element/daml_archive.rs:220-236 | Passes exactly when the view is a record and every name in view, methods, choices and requires resolves |
| Validate.ValidateData | daml-lf/src/element/daml_archive.rs:189-218 | Passes exactly when every name in fields, choices and key resolves and every choice argument is a record |
| Validate.CheckedByPath | daml-lf/src/element/daml_archive.rs:175-187 | A violation below a module is a violation in some module reachable from it by a path of names |
| Identifiers.EscapeIdentifier | daml-codegen/src/renderer/renderer_utils.rs:38-59 | Editing the identifier in place computes the escaped identifier |
| Identifiers.EscapedRustKeyword | daml-codegen/src/renderer/renderer_utils.rs:38-71 | The result is a Rust keyword for exactly one input, `Self`, which the keyword list lacks |
| Identifiers.EscapeSpelled | daml-codegen/src/renderer/renderer_utils.rs:38-71 | The escaped identifier is the name with `-`, `$` and `.` made underscores, an underscore in front if it starts with a digit, and one behind if it is a Rust keyword other than `Self` |
| Identifiers.KeywordsKnown | daml-codegen/src/renderer/renderer_utils.rs:61-71 | The words of the generator and `Self` are together exactly the strict and reserved keywords of Rust 2024 ("Keywords", The Rust Reference) |
| Identifiers.EscapedStartsWell | daml-codegen/src/renderer/renderer_utils.rs:50-56 | The result never starts with a digit |
| Identifiers.EscapeIdempotent | daml-codegen/src/renderer/renderer_utils.rs:38-59 | Escaping an identifier again changes nothing |
| Identifiers.EscapeClash | daml-codegen/src/renderer/renderer_utils.rs:61-71 | Two plain names become the same identifier exactly when they are equal or one is a keyword and the other that keyword with an underscore |
| Identifiers.EscapeInjective | daml-codegen/src/renderer/renderer_utils.rs:38-59 | Escaping keeps snake-case names apart |
| Renderer.ModIdentsApart | daml-codegen/src/renderer/module_renderer.rs:80-94 | Two modules get the same identifier exactly when their snake-case names are equal |
| Renderer.ModIdentUsable | daml-codegen/src/renderer/module_renderer.rs:80-94 | No `pub mod` is called by a Rust keyword unless its snake-case name is `Self`, and none starts with a digit |
| Renderer.SomeFilterMatches | daml-codegen/src/generator/module_matcher.rs:16-18 | With several filters a path is matched exactly when one of them alone matches it, with one when that accepts it or it is the root's, and without any always |
| Renderer.PathIsDotted | daml-codegen/src/renderer/renderer_utils.rs:22-25 | Filters see a path with dots between its segments, and splitting at the dots gives the segments back |
| Renderer.FlagIsNearestReal | daml-codegen/src/renderer/module_renderer.rs:43-94 | A module renders its declarations exactly when its nearest ancestor-or-self that is not synthetic is matched |
| Renderer.EmittedIffNeeded | daml-codegen/src/renderer/module_renderer.rs:80-94 | A `pub mod` is emitted exactly when the module or a descendant renders declarations |
| Renderer.RenderedWhereNamed | daml-codegen/src/renderer/module_renderer.rs:35-95 | Following escaped path segments through the nested `pub mod`s finds what that module rendered |
| Renderer.ResolvedIsModule | daml-codegen/src/renderer/module_renderer.rs:35-95 | Every path that resolves in the generated code is the path of a module |
| Renderer.UnfilteredRenders | daml-codegen/src/generator/module_matcher.rs:16-18 | Without a filter every module renders its declarations |
| TypeRenderer.CheckedTypePrints | daml-codegen/src/renderer/renderable.rs:34-81 | In both filter modes, a type that passes `check_type` prints: the unsupported-type panic is never reached |
| TypeRenderer.CheckTypeExactly | daml-codegen/src/renderer/renderable.rs:34-81 | A type passes `check_type` exactly when it prints, every type-constructor name in it has a target that passes, and the positions that are not printed (a contract id's argument, surplus arguments of primitives, arguments of variables) hold no unsupported type |
| TypeRenderer.PrintsIffPrintable | daml-codegen/src/renderer/type_renderer.rs:9-89 | A type prints exactly when nothing unsupported is in a printed position: the first argument of one-argument primitives, the first two of a map, all of a type constructor |
| TypeRenderer.RefusedThoughPrinted | daml-codegen/src/renderer/renderable.rs:34-81 | The contract id of an arrow prints and is refused by `check_type` |
| ReferencedData.FilterModes | daml-codegen/src/renderer/renderable.rs:70-77 | In a converted archive, for a name that finds a wire data type not overwritten: the default mode lets a field of that type pass exactly when a template wraps the type or none of its parameters has a kind that is an arrow, and the other mode exactly when the type is serializable |
| ReferencedData.UnknownPasses | daml-codegen/src/renderer/renderable.rs:70-77 | A name that finds no data type passes in both modes |
| TypeRenderer.BoxPrints | daml-codegen/src/renderer/type_renderer.rs:30-34 | A boxed type constructor prints as the box of what it prints as unboxed |
| TypeRenderer.LocalPrints | daml-codegen/src/renderer/type_renderer.rs:62-68 | A local name prints as its bare identifier |
| TypeRenderer.MentionsAreNames | daml-codegen/src/renderer/type_renderer.rs:9-89 | Every path a printed type contains is that of a type-constructor name in the type |
| TypeRenderer.NonLocalPathReaches | daml-codegen/src/renderer/type_renderer.rs:105-121 | From the current module, the printed `super`s followed by the tail lead to exactly the target module |
| TypeRenderer.NonLocalPathShortest | daml-codegen/src/renderer/type_renderer.rs:105-121 | No relative path with fewer `super`s gets there, given that snake-case names do not start or end with an underscore and hold none of the characters that are replaced |
| Separate.Generator.GenerateArchive | daml-codegen/src/generator/separate.rs:15-26 | The files written are those of every package, in order, later ones over earlier ones |
| Separate.LaterPackageStays | daml-codegen/src/generator/separate.rs:15-26 | At a path that several packages write, the file of the last one stays |
| Separate.Generator.GeneratePackageSource | daml-codegen/src/generator/separate.rs:28-46 | The package's own file and the files of its interesting modules |
| Separate.Generator.GenerateModuleSource | daml-codegen/src/generator/separate.rs:48-68 | The module's file at its path and the files of its interesting children |
| Separate.SeparateModeCloses | daml-codegen/src/generator/separate.rs:28-68 | With identifiers apart, every `pub mod x;` has its file where Rust looks and none at `x/mod.rs`, and every module file is declared exactly once, in the file one level up |
| Separate.ModuleWritten | daml-codegen/src/generator/separate.rs:48-76 | A module's file is in the result exactly when the module is interesting, and it is the module's own: nothing overwrites it |
| Separate.InterestingIff | daml-codegen/src/generator/separate.rs:70-76 | A module is interesting exactly when it or a descendant has data types and a matched path of its own |
| Modes.ModesAgree | daml-codegen/src/generator/separate.rs:28-76 | When the two modes agree on generating a module's data: never for the root; for another real module exactly when its path is matched or nothing below it has matched data; for a synthetic one exactly when the path of its nearest real ancestor is matched if and only if its own is or something below it has matched data |
| Modes.SeparateIff | daml-codegen/src/generator/separate.rs:28-76 | Separate mode generates a module's data exactly when it is not the root and it or a module below it has data and a matched path |
| Modes.CombinedIff | daml-codegen/src/renderer/module_renderer.rs:43-94 | The combined mode generates a module's data exactly when the path of its nearest real ancestor-or-self is matched |
| Modes.UnfilteredModes | daml-codegen/src/generator/separate.rs:28-46 | Without a filter both generate the data of every module but the root, whose data only the combined mode generates |
| Modes.SeparateReference | daml-codegen/src/generator/separate.rs:28-68 | Without a filter, the path printed for a name that resolves leads to its declaration in the separate files exactly when it is a data type outside the root module: interfaces are not written |
| Counterexamples.PayloadsLost | daml-codegen/src/generator/separate.rs:70-76 | A wire package and a filter with which payload records in a synthetic module are generated by the combined mode only |
| Counterexamples.UnmatchedWritten | daml-codegen/src/generator/separate.rs:70-76 | A wire package and a filter with which an unmatched module above a matched one is generated by separate mode only |
| Counterexamples.RootDataNotWritten | daml-codegen/src/generator/separate.rs:28-46 | A wire package whose root module has data that separate mode does not generate, without a filter |
| PackageClosure.ReachableFrom | daml-util/src/package.rs:190-209 | Ends on cyclic graphs and repeated queue entries with exactly the ids reachable over references, those without a payload included; fails exactly when a reachable payload does not convert |
| PackageClosure.ReachableIsLeastClosed | daml-util/src/package.rs:183-209 | The set of reachable ids holds the root, is closed under references, and is the least such set |
| PackageClosure.TargetsPoint | daml-util/src/package.rs:220-229 | A payload refers to exactly the packages, the empty id apart, that a name at a visited position of its module tree points into or its expressions name; to none if any of it does not convert |
| PackageClosure.IntoDar | daml-util/src/package.rs:79-95 | Fails exactly without a main package, with a payload that does not parse, or, filtering, with a reachable payload that does not convert; otherwise main has the hash asked for, or that of the first package if none is; each kept package is one archive with its payload, its hash and the name its style asks for; main is taken out of them and the last put in its place; the manifest names them in that order. Each kind of failure has its own error |
| PackageClosure.KeptPackages | daml-util/src/package.rs:86-92 | Filtering keeps a package, as often as it is contained and in the same order, exactly when its hash is reachable; without filtering all are kept |
| PackageClosure.ArchivesToDar | daml-util/src/package.rs:138-150 | The first archive with the main hash becomes main, the last one takes its place, and nothing is lost or duplicated |
| PackageClosure.SwapRemoveKeeps | daml-util/src/package.rs:146-147 | Removing by swapping the last element in conserves the elements |
| PackageClosure.MainKept | daml-util/src/package.rs:155-171 | The main package is always among the kept ones |
| PackageClosure.KeptReferencesKept | daml-util/src/package.rs:79-95 | With unique hashes, every reference of a kept package to a contained package is kept |
| Implements.ImplementedKeptIff | daml-util/src/package.rs:79-95 | A DAR holds every contained package that its packages implement interfaces of exactly when it is not filtered, or implemented interfaces lead, over any number of steps, to no contained package that recorded references do not lead to |
| Counterexamples.ImplementedDropped | daml-lf/src/element/daml_data.rs:399-415 | Two packages of which filtering drops the one the other, kept, implements an interface of |
| PackageClosure.KeptOnce | daml-util/src/package.rs:86-92 | With unique hashes no package is kept twice |
| PackageClosure.PayloadsFacts | daml-util/src/package.rs:172-181 | The payload map holds every contained hash, each with the payload of the last package of that hash |
| PackageClosure.PackagesToArchives | daml-util/src/package.rs:104-122 | Every package becomes one archive, in order, with its own payload and hash and the name its style asks for |
| References.ReferencedPackagesVisitor.VisitModule | daml-lf/src/element/daml_module.rs:251-268 | Visiting a module tree records exactly the packages, other than its own and the empty id, that some name points into: in a type of a field, of a field or the result of a choice, of a key, method, view or synonym, or among required interfaces; not in `implements` lists |
| References.ReferencedPackagesVisitor.VisitType | daml-lf/src/element/daml_type.rs:162-194 | Visiting a type records exactly the packages its absolute and non-local names point into, those of synonyms included |
| References.ReferencedPackagesVisitor.VisitData | daml-lf/src/element/daml_data.rs:400-415 | Visiting a data type records exactly those its names in fields, choice fields, choice results and key point into |
| References.ReferencedPackagesVisitor.VisitInterface | daml-lf/src/element/daml_interface.rs:98-105 | Visiting an interface records exactly those its names in methods, choice fields, choice results, view and requires point into |
| References.ReferencedPackagesVisitor.Record | daml-util/src/package.rs:236-242 | The empty id and the visitor's own package are not recorded |
| References.VisitedTree | daml-util/src/package.rs:220-229 | What is recorded does not depend on the iteration order of the maps: it is where the names in some node of the tree point |
| Manifest.FoldingObeysJarRule | daml-lf/src/manifest.rs:268-279 | For every single-line input: no line is over 72 bytes, continuation lines start with one space, unfolding gives the input back ("Line length", Notes on Manifest and Signature Files, JAR File Specification) |
| Manifest.SplitOnJoin | daml-lf/src/manifest.rs:215-225 | Joining names and splitting them on the separator gives them back |
| Manifest.StripCommutesWithSplit | daml-lf/src/manifest.rs:186-194 | Removing whitespace before or after splitting makes no difference |
| ManifestShape.ParsesExactly | daml-lf/src/manifest.rs:155-225 | A loaded document is a manifest exactly when main and dependencies are texts, format and encryption are `daml-lf` and `non-encrypted` in any case of letters, and the version is 1.0 or missing; otherwise it is refused. What each field comes from |
| ManifestShape.RendersAs | daml-lf/src/manifest.rs:214-225 | A manifest whose entries fit on a line renders as six lines with these keys and constants in this order |
| ManifestShape.StripsWhite | daml-lf/src/manifest.rs:258-260 | Exactly the white characters go from a name |
| ManifestShape.OnlyMainGoes | daml-lf/src/manifest.rs:186-194 | Of the dependencies every occurrence of the main archive goes and nothing else, in order |
| ManifestRoundTrip.ParseRender | daml-lf/src/manifest.rs:155-225 | Parsing a rendered manifest fails exactly when there are no dependencies or YAML refuses the creator as written; otherwise it gives main, the dependencies other than main in order, format and encryption, wherever lines were broken, and the creator if what YAML reads is a string |
| ManifestRoundTrip.ArchivesRoundTrip | daml-lf/src/manifest.rs:155-225 | With a dependency, main not among them, and a creator YAML does not refuse, everything but the creator comes back; an unknown version, format or encryption comes back as the one it is rendered as |
| ManifestRoundTrip.CreatorRecovered | daml-lf/src/manifest.rs:155-225 | The parsed creator is the rendered one exactly when it is empty, or plain YAML text that resolves to a string, without a space at either end, whose lines were broken at single spaces only: the writer breaks lines anywhere, and YAML folding puts a space where a line was broken |
| ManifestRoundTrip.CreatorWithoutSpaces | daml-lf/src/manifest.rs:258-279 | For a creator without spaces that is: at most 59 bytes, does not start with an indicator, holds no comment or mapping, and resolves to a string |
| ManifestRoundTrip.CreatorScanned | daml-lf/src/manifest.rs:155-194 | For a creator whose first line may start a plain scalar: the manifest is refused exactly when scanning its lines meets a mapping, or text after a comment; otherwise the creator is what the scanned text, up to a comment, resolves to, if that is a string |
| ManifestRoundTrip.CommentLost | daml-lf/src/manifest.rs:155-194 | Of the creator `a #b: c` only `a` comes back |
| YamlScalars.ReadAsWritten | daml-lf/src/manifest.rs:179-179 | Lines are scanned as the text written on them only when they hold no comment, no mapping and no blank line |
| ManifestRoundTrip.NumberLost | daml-lf/src/manifest.rs:179-179 | The creator `1.0` comes back empty, because it is read as a number |
| ManifestRoundTrip.MappingRefused | daml-lf/src/manifest.rs:155-194 | The creator `a: b` makes a manifest that does not parse |
| ManifestLines.FoldedIsValue | daml-lf/src/manifest.rs:258-279 | A value folds back to itself exactly when it is empty, or has no blank at either end and was broken at single spaces only |
| ManifestRoundTrip.LoadRendered | daml-lf/src/manifest.rs:156-225 | Loading the rendered text finds every entry under its key, or is refused exactly when YAML refuses one of the values |
| ManifestLines.FoldedKeeps | daml-lf/src/manifest.rs:262-279 | Folding changes nothing in a value but whitespace |
| TextMap.IterationOrderIrrelevant | daml-grpc/src/primitive_types.rs:197-206 | The comparison does not depend on the iteration order of either hash map |
| TextMap.EqualIffMapsEqual | daml-grpc/src/primitive_types.rs:215-220 | It answers "equal" exactly when the maps are equal |
| TextMap.Antisymmetric | daml-grpc/src/primitive_types.rs:197-206 | Swapping the sides reverses the answer |
| TextMap.Transitive | daml-grpc/src/primitive_types.rs:197-206 | "Less" and "greater" are transitive, and equal maps are interchangeable |
| TextMap.Total | daml-grpc/src/primitive_types.rs:197-206 | Any two maps compare when any two of their values do |
| TextMap.Decided | daml-grpc/src/primitive_types.rs:197-206 | The map with fewer keys comes first. Of two with as many, the bytewise first key they do not agree at decides: by its values if both have it, otherwise the map that has it comes first |
| TextMap.SizeBeforeKeys | daml-grpc/src/primitive_types.rs:188-206 | The order is not the lexicographic one of the sorted pairs that its documentation names |
| TextMap.SortSorts | daml-grpc/src/primitive_types.rs:202-204 | Sorting by key keeps the pairs and puts the keys in ascending order |

## Left out

* Protobuf decoding, zip reading, hashing, SHA checks and version sniffing. A decoded package is where the
  model starts; `PackageClosure` takes the decoder of a payload as a given function.
* What conversion does on cyclic tables other than those of types: the model asks for tables that can be ranked,
  which are exactly those no walk through which returns to its start (`Acyclicity`). For types, `Termination`
  says which conversions return on any table.
* Most expression constructors and the table of builtin functions; thirteen expression forms, five
  updates, patterns, binders and the interned node are modelled.
* The `full` feature on declarations: values, and the expressions of templates, choices and keys. What the
  reference visitor records in them is a given function of `PackageClosure.Decoder`.
* The iteration order of hash maps and sets is arbitrary: child maps of a finished tree are sequences in some
  order, package ids and queue insertions come in any order, and which of several errors is reported first is
  left open where the code leaves it open. `ViewExists` shows that every tree has such a view; that the mutable
  tree's child maps are keyed by local name is part of its invariant.
* Snake-casing and regular expressions are given functions. YAML loading is modelled for `key: value` lines with
  continuation lines, for printable ASCII. Lines the first of which may start a plain scalar are scanned:
  folding, blank lines, comments, mappings. Given functions say what the scanned text resolves to, and what lines
  in other styles (quotes, brackets, tags, anchors, block headers, a comment first) stand for; of the latter
  `ReadsYaml` asks only that they never stand for the very text they are written as. Quotes and brackets that
  are not closed count as refused. Repeated keys are not modelled.
* Error messages, version strings and names of archives; error kinds are kept.
* How a declaration is printed beyond its identifier and the types in its fields: derives, constructors,
  choices and the method bodies of the two render methods. Type parameters print under their own name, without
  the upper-casing.
* Panics of identifier construction on characters Rust does not allow.
* In a manifest one character stands for one byte, so only printable ASCII text is covered; archive names that
  start with a YAML indicator or hold a colon, comma or `#`, or do not end in `.dalf`, are excluded.
* File-system errors and directories; a written file is an entry of a map.
* Conversions of timestamps, durations and dates in `daml-grpc/src/util.rs`: one branch each.
* The ledger client, executor, services, JSON codecs, macros, derive crate and examples.
- TextMap.Transitive: asks that equal values be interchangeable, which Rust's laws for partial orders do not spell out.
- Separate.SeparateModeCloses: asks for distinct identifiers among packages and among siblings, as the generated code does.
- PackageClosure.KeptReferencesKept: asks for unique hashes, because the payload map keeps one payload per hash.
- Interfaces.InterfaceFound: asks for distinct interface names; with the same qualified name twice another module at the prefixed path may supply one.
- Renaming.AppendedEntriesUnused: about modules that convert; a module that does not may convert once an entry it lacks is appended.
