# What the services promise, proved

A Dafny 4.11 model of the parts of the repository whose correctness other
parties rely on, and proofs of what those parts promise.
`dafny verify dfyconfig.toml` checks all of it.

**The GraphQL mapper** (`services/ftv-graphql-mapper`) turns a GraphQL request
into the list of fields a policy is evaluated on. `Documents`, `Walk`, `WalkFacts`,
`Coverage`, `CoverageExactness`, `CheckArguments`, `RecordArguments` and `Mapper`
model the walk of a document and prove that its list is that of the expanded
document and exactly what executions can select, that it reports the first offence
in document order, and that it visits a bounded number of selections. `Coercion`, `CoercionLaws`, `CoercedValues`,
`SuppliedValues`, `LiteralForms`, `Coercers`, `Arguments`, `DefaultPaths` and
`VariableOrder` model input coercion: what every literal and supplied value is
worth, that only values of the declared type come out, that coercing is idempotent
and a literal means what its JSON form means, and that the paths reported as schema
defaults are exactly those of the fields nobody wrote. `Decimal` proves that JSON
numbers are read exactly. `Canonical`, `Drift`, `DriftFacts`, `Agreement`,
`WalkAgreement`, `DriftSoundness` and `DriftExactness` model the comparison of the
bundled schema with the source's: what it finds, and that when it finds nothing the
source maps every document alike, up to what the comparison does not look at, and
exactly up to that. `DocGrammar`, `DocLaws`, `DocReading`, `DocScan`, `StrictJson`,
`StrictFaults` and `Surrogates` model the document splitter and the strict JSON
decoder.

**The query planner** (`services/asi-mapping`): `SelectionSets`, `PathDocument`,
`AsiMapping`, `MappingFacts`, `PlanFacts` and `Adequacy` model the selection trie,
the planner and the value builder; they prove what is asked and what is built, and
that the planned query loses nothing the builder needs.

**The outboxes** (`services/ldv-client`, `services/consent-register`): `Fifo` is
a queue delivered exactly once; `Spool` and `ConsentOutbox` refine it through
every failure and crash.

**Releases and registry** (`services/eudi-adapter`): `ReleaseRuntime` is the
single-flight refresh in every interleaving, `Lifecycle` the incremental update
against a rebuild, `ReleaseFacts` what a release builds, `Registry` the version and
payload discipline.

**The chain reader** (`services/dev-portal-backend`): `Chain` proves that its
worklist computes reachability, in the order in which logbooks are found.

`Base` and `Order` hold JSON values, string operations and sorting.

## How to read it

Code that works by recursion is a function; a loop or an object with mutable
fields is a method or a class, proved against a function or a step relation,
and the laws are lemmas about those. What a function computes is said once more
where it matters, without that function: by relations, positions or paths (the
modules named `Facts`, `CoercedValues`, `DocReading`). Every lemma carries `{:induction false}`
where Dafny would otherwise try induction by itself: its proof is the one
written.

A `rank` orders the schema's input-field defaults and the document's fragments;
it replaces the assumption that both are acyclic. The methods take it as ghost,
and the coercions and walks are shown to end.

Validation is a set of predicates: `Documents.SpreadsBelow` and
`CheckArguments.ValidDocument` for documents, `Arguments.UsesAllowed`,
`Arguments.KnownFields` and `CoercionLaws.Unique` for values,
`CoercionLaws.WellFormed` and `DriftSoundness.AstOk` for schemas. Float parsing,
date formats, number formatting, JSON coding of records and run-time types are
parameters.

## Where the code and its description differ

- The comparison of schemas does not look at `@oneOf` and cannot tell a block
  string from a plain one at an ID. An empty comparison is sound exactly where
  neither differs, strings of defaults that are never taken aside
  (`DriftExactness.DriftExact`); either difference goes unseen
  (`DriftSoundness.OneOfGoesUnseen`, `DriftSoundness.BlockStringGoesUnseen`).
- `coercer.used` is said to be in document order; inside an input object it is
  in the order of the type's fields (`Arguments.UsedInFieldOrder`), so it is
  as said exactly for what is written in that order
  (`VariableOrder.DocumentOrderIff`).
- The scanner records an operation's own description behind those of its
  variables, so the list of description spans is disjoint
  (`DocScan.SpansDisjoint`) but ordered exactly when no definition that begins
  with a text describes a variable (`DocScan.DescriptionsOrdered`,
  `DocScan.DescriptionsOutOfOrder`).
- A plan asks for `__typename` only when a fragment is not empty. An attribute
  on a type whose members are all constants then fails, where the full answer
  would say whether it is held (`Adequacy.TypeUnasked`,
  `Adequacy.TypeGoesUnasked`); `Adequacy.AdequateIff` says exactly when.
- An appended record without a span id is passed over by the deliverer, which
  takes it for a line that does not parse (`Spool.AppendedItem`).
- A refresh takes its times from the registry's rows, a build from the stored
  snapshots; storing a release again replaces only rows, so the two agree only
  while the snapshots carry the times (`Lifecycle.RowsAreNotEnough`). A source
  without types is built, then refused by every refresh
  (`Lifecycle.RefreshSucceeds`).
- A pointer result names its origin by configured id, while that logbook may
  have been shown under an id of its own (`Chain.FromIsShown`,
  `Chain.OriginNotShown`).
- An integer at an ID keeps its spelling as a literal and is rewritten, and kept
  within int64, as a supplied number (`LiteralForms.IdDiffers`); the two agree
  exactly on canonical int64 texts (`LiteralForms.IdAgreesIff`).

## Model

| member | source | states |
|---|---|---|
| `Mapper.MapOperation` | services/ftv-graphql-mapper/mapper.go:196-203 | The stages report in order: failing variables are VARIABLE_ERROR, then the verdict on the arguments; after both pass, either the list has one record for each field of the expanded document, within the limits, is exactly what executions can select, and holds arguments of their types, or the failure is the limit that the first field too many exceeds. |
| `Coverage.EveryExecutionIsCovered` | services/ftv-graphql-mapper/walk.go:32-96 | For every runtime object type at every position, every outcome of @skip and @include and every applicability of type conditions: a field that field collection and execution select has a record with its response path, its name, its alias if it has one, whether it is a leaf, and the arguments that its definition on the recorded parent type resolves from what the field was given. |
| `CoverageExactness.EveryRecordIsExecuted` | services/ftv-graphql-mapper/walk.go:32-96 | The converse: every record of a walk that succeeds is that of a field which some execution selects at its path, on whatever object types, for some outcome of @skip and @include and some applicability of type conditions; so the list is exactly what executions can select. |
| `Coverage.CollectedIsWalked` | services/ftv-graphql-mapper/walk.go:32-59 | Field collection, which visits each fragment once, finds only selections the walk meets at that path. |
| `Coverage.InliningKeepsWalk` | services/ftv-graphql-mapper/walk.go:46-52 | Walking a document with spreads meets exactly what walking its fully inlined form meets. |
| `Walk.WalkOperation` | services/ftv-graphql-mapper/walk.go:11-18 | The walker returns the result of running the limits over the pre-order flattening, and visits exactly the selections counted there. |
| `WalkFacts.WalkLists` | services/ftv-graphql-mapper/walk.go:61-96 | A returned list has one record for each field of the expanded document, in order, each with its path, alias, parent type, the condition of the fragment it stands in directly, and resolved arguments; every path keeps within the depth limit, the list within the record limit, and the fields written with an alias within the alias limit. A limit is reported only at the first field too many, another failure only at the first field that does not resolve. |
| `WalkFacts.WalkSucceedsIff` | services/ftv-graphql-mapper/walk.go:61-96 | The walk succeeds if and only if every field of the expanded document resolves and all keep within the limits. |
| `WalkFacts.ChildTypeExact` | services/ftv-graphql-mapper/walk.go:95 | Below a field stands the type its declared type ends in, if the schema has it, and none otherwise. |
| `WalkFacts.ResolveArgsFails` | services/ftv-graphql-mapper/walk.go:180-203 | A field's arguments fail if and only if one does not resolve, and then as the first of these fails: as a variable's fault or the document's. |
| `Walk.RunIsFirstOffence` | services/ftv-graphql-mapper/walk.go:61-96 | The walk succeeds if and only if no item of the flattening offends a limit or is at fault, and then lists exactly its records in order; otherwise it reports what the first offending item offends against. |
| `Walk.VisitsAtMost` | services/ftv-graphql-mapper/walk.go:32-59 | Selections visited are at most (record limit + 1) times (the document's longest chain of directly nested spreads and inline fragments + 1). |
| `Walk.VisitsExact` | services/ftv-graphql-mapper/walk.go:32-59 | Every item up to the first that offends is visited, that one included, and none behind it. |
| `WalkFacts.VisitsEach` | services/ftv-graphql-mapper/walk.go:32-59 | A walk that succeeds visits every field, inline fragment and spread of the document once for each place the fragments bring it to; one that fails visits no more. |
| `Walk.Walker.CheckLimits` | services/ftv-graphql-mapper/walk.go:162-176 | Depth, then records, then aliases; an alias counts only when the two before it hold. |
| `Walk.Walker.FieldAt` | services/ftv-graphql-mapper/walk.go:61-96 | One field changes the walker as a run over its flattening does. |
| `Walk.Walker.SelectionAt` | services/ftv-graphql-mapper/walk.go:35-53 | A field, inline fragment or spread changes the walker as a run over its flattening does; each spread of a fragment counts anew. |
| `Walk.Walker.SelectionsAt` | services/ftv-graphql-mapper/walk.go:32-59 | A selection set changes the walker as a run over its flattening does, stopping at the first failure. |
| `Walk.Walker.ArgsOf` | services/ftv-graphql-mapper/walk.go:180-203 | Every argument the field defines is resolved, in order, up to the first failure. |
| `Documents.FlattenStable` | services/ftv-graphql-mapper/walk.go:46-52 | With acyclic fragments the ranks that bound the recursion make no difference to the flattening. |
| `CheckArguments.CheckAll` | services/ftv-graphql-mapper/walk.go:103-148 | The verdict names the first argument in visiting order that fails by a fault of the document; if there is none, the first that fails by a fault of a variable; and passes if and only if every argument resolves. |
| `CheckArguments.FirstBadIsFirst` | services/ftv-graphql-mapper/walk.go:117-123 | The check reported is one that fails, and none before it fails that way. |
| `CheckArguments.Checker.CheckField` | services/ftv-graphql-mapper/walk.go:111-125 | One field's arguments: the first document error ends the visit, the first variable error is kept. |
| `CheckArguments.Checker.VisitAll` | services/ftv-graphql-mapper/walk.go:107-142 | The recursive visit checks the fields of the visiting order and remembers the fragments seen. |
| `CheckArguments.VisitCovers` | services/ftv-graphql-mapper/walk.go:133-139 | A visit that enters each fragment once covers every field of its selections and of every fragment reachable from them. |
| `CheckArguments.ExpansionEmits` | services/ftv-graphql-mapper/walk.go:61-96 | After a passed check, every field the full expansion meets resolves. |
| `CheckArguments.OnlyLimitsRemain` | services/ftv-graphql-mapper/walk.go:98-102 | When the check passes on a valid document, the walk can fail only with an exceeded limit. |
| `Arguments.ArgumentSound` | services/ftv-graphql-mapper/coerce.go:69-90 | A resolved argument holds a value of its declared type, each of its schema-default paths leads to an input field holding its coerced default, and resolution returns when the schema's defaults are acyclic. |
| `RecordArguments.ListedArgumentsSound` | services/ftv-graphql-mapper/walk.go:61-96 | In every list a walk of a validated operation returns, every argument of every record is one its field defines, holds a value of its declared type, and each of its schema-default paths leads to a field with its coerced default. |
| `Arguments.ArgumentVariables` | services/ftv-graphql-mapper/coerce.go:103-127 | The variables an argument reports are exactly those that occur in what was written, each once; its origin is literal if and only if none occurs. |
| `Arguments.UsedInFieldOrder` | services/ftv-graphql-mapper/coerce.go:99 | A concrete input object written against the order of its type's fields, whose variables come in the order of the fields. |
| `VariableOrder.DocumentOrderIff` | services/ftv-graphql-mapper/coerce.go:99 | An argument that writes each variable once reports them in document order, as the comment on the field says, if and only if in every input object it nests, the members that hold variables stand in the order of the type's fields. |
| `Arguments.ResolveArgument` | services/ftv-graphql-mapper/coerce.go:69-90 | The method on a fresh coercer computes the argument's specification, which CoercedValues.ArgumentExact characterises. |
| `CoercedValues.ArgumentExact` | services/ftv-graphql-mapper/coerce.go:69-90 | An argument is worth what the selection passes for it, and says whether that is a variable, a variable's own default, a literal or a mixture; else it is its schema default; it has no value if and only if there is neither; it fails if and only if what is to be taken is worth nothing at its type. |
| `Arguments.CoerceVariables` | services/ftv-graphql-mapper/coerce.go:27-50 | Variables of distinct names are returned if and only if each is bound as its definition says: a supplied name to the value of what was supplied, at its type and not marked as a default, whether or not a default is declared; another with a default to the value of that, marked; any other not at all, its type being nullable; and nothing else is bound. |
| `Arguments.VariablesTyped` | services/ftv-graphql-mapper/coerce.go:27-50 | Every coerced variable holds a value of its declared type with its defaults in place, and every non-null variable has one. |
| `Arguments.AllowedFits` | services/ftv-graphql-mapper/coerce.go:132-141 | A variable at a position its declared type is compatible with holds a value of that position, up to a null that is refused there. |
| `Arguments.LiteralReturns` | services/ftv-graphql-mapper/coerce.go:217-245 | With acyclic defaults the coercion of a literal, which coerces defaults recursively, ends. |
| `Arguments.InputReturns` | services/ftv-graphql-mapper/coerce.go:315-377 | With acyclic defaults the coercion of a supplied value ends. |
| `Coercers.Coercer.Use` | services/ftv-graphql-mapper/coerce.go:116-127 | A variable is noted once and its default paths are recorded below the current path. |
| `Coercers.Coercer.LiteralAt` | services/ftv-graphql-mapper/coerce.go:132-185 | The method computes the literal's specification and adds exactly its variables and default paths to what was there. |
| `Coercers.Coercer.ListItems` | services/ftv-graphql-mapper/coerce.go:196-212 | The list loop computes the specification; an item without value is null, or an error where items are non-null. |
| `Coercers.Coercer.LiteralObject` | services/ftv-graphql-mapper/coerce.go:217-245 | The field loop over an input object literal computes its specification. |
| `Coercers.Coercer.TakeDefault` | services/ftv-graphql-mapper/coerce.go:228-244 | A default is coerced as a whole by a coercer of its own and recorded at its field. |
| `Coercers.Coercer.UntypedObject` | services/ftv-graphql-mapper/coerce.go:297-308 | A custom scalar's object leaves out members that are variables without a value. |
| `Coercers.Coercer.InputAt` | services/ftv-graphql-mapper/coerce.go:315-377 | The method computes the supplied value's specification and adds exactly its default paths. |
| `CoercionLaws.LiteralSound` | services/ftv-graphql-mapper/coerce.go:132-245 | Whatever a literal coerces to conforms to its type, and every recorded default path leads, through lists, single-value lists, variables and custom scalars, to an input field with its coerced default. |
| `CoercedValues.LiteralMeans` | services/ftv-graphql-mapper/coerce.go:132-306 | At every type a literal is worth exactly one value or fails: a variable its value; a list its items one by one, null for an item without value; a single value a list of one; an input object, for each field, what was written, else its default, else nothing where it may be left out; a scalar or enum value what it spells. |
| `CoercedValues.InputSuits` | services/ftv-graphql-mapper/coerce.go:315-428 | The same of a supplied value: exactly one value or failure, items one by one, fields from what was supplied or their defaults, a number at an Int or ID as the integer it is. |
| `CoercedValues.VariableFault` | services/ftv-graphql-mapper/coerce.go:132-245 | Coercing a literal blames a variable only where the literal uses one that is null or has no value. |
| `CoercionLaws.DefaultAtResolves` | services/ftv-graphql-mapper/coerce.go:93-101 | Such a path resolves inside the value to the coerced default of an input field of the schema that has that name and a default. |
| `DefaultPaths.ArgumentDefaultsExact` | services/ftv-graphql-mapper/coerce.go:93-127 | The default paths an argument reports are exactly those that lead, through what was written and the variables in it, to an input field with a default that nobody wrote. |
| `DefaultPaths.LiteralPaths` | services/ftv-graphql-mapper/coerce.go:132-245 | The same of a literal at any type, custom scalars included. |
| `DefaultPaths.InputPaths` | services/ftv-graphql-mapper/coerce.go:315-377 | The default paths of a supplied value are exactly those that lead to an input field with a default that was not supplied. |
| `SuppliedValues.InputSound` | services/ftv-graphql-mapper/coerce.go:315-377 | Input coercion returns only values of the declared type, with the default paths where it says. |
| `SuppliedValues.FixedIffConforms` | services/ftv-graphql-mapper/coerce.go:315-426 | The values of a type are exactly the fixed points of its input coercion, with no default filled in. |
| `SuppliedValues.InputIdempotent` | services/ftv-graphql-mapper/coerce.go:315-426 | Coercing a coerced value returns it unchanged. |
| `LiteralForms.LiteralAgrees` | services/ftv-graphql-mapper/coerce.go:132-245 | A validated, variable-free literal that coerces at a type coerces, as its JSON form supplied through a variable, to the same value with the same defaults; its integers at an ID are canonical int64 texts. |
| `LiteralForms.IdAgreesIff` | services/ftv-graphql-mapper/coerce.go:269-272 | At an ID an integer token means the same as literal and as supplied number if and only if it is the canonical text of an int64. |
| `LiteralForms.IdDiffers` | services/ftv-graphql-mapper/coerce.go:269-272 | Two ways to differ: the literal -0 keeps its spelling where the number becomes 0, and an integer beyond int64 is an ID as literal and refused as number. |
| `Decimal.IntegralExact` | services/ftv-graphql-mapper/coerce.go:432-469 | For every JSON number text, integral returns i if and only if the exact decimal value is the integer i within the bounds: no rounding, no overflow; a text with an exponent is shorter than 2^20 - 32. |
| `Decimal.IntegralOfIntText` | services/ftv-graphql-mapper/coerce.go:391-426 | What FormatInt writes, integral reads back on every range that holds it. |
| `DriftSoundness.DriftSound` | services/ftv-graphql-mapper/drift.go:179-219 | If the comparison finds nothing, and @oneOf flags and string styles of defaults agree, every document valid against the bundle maps with the source's schema, each from its own root type, to the same paths, parent types, fields and argument values; or both fail, over the same limit or both on an argument, where the kind of argument failure may differ. |
| `DriftExactness.DriftExact` | services/ftv-graphql-mapper/drift.go:179-219 | After an empty comparison, supplied values coerce alike on both sides if and only if the same input objects are OneOf and every default in use, which some accepted object takes, has strings of the same style at every ID. |
| `DriftExactness.OneOfTells` | services/ftv-graphql-mapper/drift.go:271-275 | An input object that is OneOf on one side only takes the empty object on the other side only. |
| `DriftExactness.StyleTells` | services/ftv-graphql-mapper/drift.go:435-437 | Where the style of a default differs at an ID, an object that leaves the field out coerces on one side at most. |
| `DriftExactness.UnwrittenAlikeIff` | services/ftv-graphql-mapper/coerce.go:84-90 | An argument nobody wrote, whose default at least one side takes, comes out alike if and only if the two defaults have the same string style at every ID. |
| `DriftSoundness.OneOfGoesUnseen` | services/ftv-graphql-mapper/drift.go:271-275 | Making any input object with nullable, default-free fields OneOf leaves the comparison empty. |
| `DriftSoundness.BlockStringGoesUnseen` | services/ftv-graphql-mapper/drift.go:435-437 | A block string and a plain string have one canonical text, where an ID literal takes only the plain one. |
| `DriftSoundness.ModelFromAst` | services/ftv-graphql-mapper/drift.go:246-295 | The loops compute the model of a schema: fields, arguments, inputs, sorted members and values, built-in and introspection names left out. |
| `DriftSoundness.SameInput` | services/ftv-graphql-mapper/drift.go:265-274 | Equal models of an argument mean equal types and equal defaults. |
| `Drift.DriftOf` | services/ftv-graphql-mapper/drift.go:179-219 | The list holds exactly the forbidden differences, and is empty if and only if there is none. |
| `DriftFacts.NoDriftMeans` | services/ftv-graphql-mapper/drift.go:179-296 | The comparison finds nothing if and only if the source's schema has every root, own type, field, argument, input field and enum value of the bundle's and, as often, every object an abstract type can be, with equal types and equal defaults, and no further argument, input field, enum value or such object. |
| `DriftFacts.OneChangeOneReport` | services/ftv-graphql-mapper/drift.go:179-244 | One change of a schema, be it of a root, a type, a kind, a field, a result type, an argument or input field in any way, members or values, is reported as that and as nothing else. |
| `Drift.InputDrift` | services/ftv-graphql-mapper/drift.go:223-244 | Arguments or input fields: exactly the names missing on either side, and the types and defaults that differ. |
| `Drift.NoDriftIffExtends` | services/ftv-graphql-mapper/drift.go:13-18 | There is no difference if and only if the source extends the bundle: more types and fields, all else the same. |
| `Drift.NoDriftPreorder` | services/ftv-graphql-mapper/drift.go:179-219 | An empty comparison is reflexive, and transitive for schemas whose roots have names. |
| `WalkAgreement.WalksAlike` | services/ftv-graphql-mapper/walk.go:11-96 | Under agreeing schemas a document valid against the first walks alike with both: like records in the same order, or like failures. |
| `Agreement.LiteralLike` | services/ftv-graphql-mapper/coerce.go:132-245 | Under agreeing schemas, literals equal up to field order, with strings of the same style at every ID, coerce to the same value, whatever the order of the types' fields. |
| `Agreement.InputLike` | services/ftv-graphql-mapper/coerce.go:315-377 | Under agreeing schemas a supplied value coerces to the same value. |
| `Canonical.CanonSame` | services/ftv-graphql-mapper/drift.go:430-455 | Two values have the same canonical text if and only if they are equal up to the order of object fields and the style of strings. |
| `Canonical.CanonApart` | services/ftv-graphql-mapper/drift.go:430-455 | A canonical text can be read off the front of a longer text, up to spelling. |
| `Canonical.TypeTextInjective` | services/ftv-graphql-mapper/drift.go:339-348 | Two types render alike if and only if they are the same. |
| `Canonical.ReportedText` | services/ftv-graphql-mapper/drift.go:107-112 | A reported type reads as SDL writes it if and only if the query nests ofType as deep as its wrappers go. |
| `DocScan.ScanDocument` | services/ftv-graphql-mapper/docscan.go:38-54 | The split succeeds if and only if every definition reads. The executable text is the document with exactly the runes of type-system definitions, from first token to last, and of descriptions blanked; the type-system text, empty without such definitions, has exactly their runes; line breaks stay in both. The aliases are the names before a colon outside parentheses in the selection sets; the position is where the first definition of the type system begins, quotes included. |
| `DocReading.DocumentExact` | services/ftv-graphql-mapper/docscan.go:163-200 | A document is split into exactly the definitions that the grammar, given as relations between where a construct begins and ends, finds in it one behind the other, and refused if and only if it is not made of them; a type-system definition that breaks off is passed over up to the first token that does not fit. |
| `DocReading.TypeSystemExact` | services/ftv-graphql-mapper/docscan.go:364-424 | A type-system definition or extension reads if and only if it has the form the grammar gives it, and ends where that ends. |
| `DocReading.TypeSystemBreakExact` | services/ftv-graphql-mapper/docscan.go:364-424 | A type-system definition that does not read stops exactly at the first token that does not fit its form, or at the end of a document that leaves a bracket open. |
| `DocReading.CountsExact` | services/ftv-graphql-mapper/docscan.go:309-360 | The two depths count the brackets that open less those that close, of all three kinds or of parentheses. |
| `DocScan.Blank` | services/ftv-graphql-mapper/docscan.go:80-95 | Exactly the runes inside, or outside, the spans become spaces; line breaks stay. |
| `DocScan.TypedSpansOrdered` | services/ftv-graphql-mapper/docscan.go:180-187 | The type-system spans are recorded in order and do not overlap. |
| `DocScan.DescriptionsOrdered` | services/ftv-graphql-mapper/docscan.go:163-200 | The description spans are recorded in order if and only if no definition that begins with a text has a text standing directly in its group of variables, other than as a default. |
| `DocScan.SpansDisjoint` | services/ftv-graphql-mapper/docscan.go:163-200 | All recorded spans are disjoint: those of descriptions from each other and from those of the type system. |
| `DocScan.DescriptionsOutOfOrder` | services/ftv-graphql-mapper/docscan.go:163-200 | In the tokens of a described query with a described variable, the scan records the two descriptions out of order. |
| `DocScan.DescriptionApart` | services/ftv-graphql-mapper/docscan.go:163-200 | A blanked description lies in no type-system span. |
| `DocScan.DocScanner.Document` | services/ftv-graphql-mapper/docscan.go:163-200 | The scan succeeds if and only if every definition reads, and then ends at the end token with the aliases, descriptions, type-system spans and position of exactly the document's definitions. |
| `DocScan.DocScanner.SelectionSet` | services/ftv-graphql-mapper/docscan.go:309-338 | Skips the set the grammar recognises and records exactly the names before a colon outside parentheses in it. |
| `DocScan.DocScanner.Group` | services/ftv-graphql-mapper/docscan.go:341-360 | Skips the group the grammar recognises, or stops where that does. |
| `DocScan.DocScanner.VariableDefinitions` | services/ftv-graphql-mapper/docscan.go:236-261 | Reads the variables the grammar recognises and records the descriptions of all of them, in order. |
| `DocScan.DocScanner.Definition` | services/ftv-graphql-mapper/docscan.go:163-200 | One round records the definition that begins here, passes over a type-system definition that does not read, or fails. |
| `DocScan.DocScanner.TypeSystemDefinition` | services/ftv-graphql-mapper/docscan.go:364-424 | Reads a type-system definition or extension as the grammar does, and stops where that does. |
| `DocLaws.RegionsDefine` | services/ftv-graphql-mapper/docscan.go:163-200 | The document's definitions follow each other; each begins, behind an optional description, with its keyword or the brace of a shorthand query; an executable one ends with its first selection set, is described if and only if it begins with a text, and the descriptions of its variables are exactly the texts that stand directly in its group of variables and are no default. |
| `DocLaws.Accounted` | services/ftv-graphql-mapper/docscan.go:163-200 | Every token but the end token belongs to a definition, or to a type-system definition that did not read and was passed over. |
| `DocLaws.DefinesOnce` | services/ftv-graphql-mapper/docscan.go:163-200 | These facts determine an executable definition by where it begins. |
| `DocLaws.GroupIsClosed` | services/ftv-graphql-mapper/docscan.go:341-360 | A group that reads is closed by its last token and by none before. |
| `DocLaws.VariablesLoose` | services/ftv-graphql-mapper/docscan.go:236-261 | The descriptions found among an operation's variables are exactly the texts that stand directly in the group and are no default, in order. |
| `StrictJson.StrictAccepts` | services/ftv-graphql-mapper/body.go:99-154 | A body is accepted if and only if it is one JSON text, with nothing behind it, that repeats no member name at any depth and nests within the limit. |
| `StrictJson.StrictReturns` | services/ftv-graphql-mapper/body.go:99-154 | What is returned is the value the text means; what is refused is refused for a repeated name or the nesting. |
| `StrictFaults.StrictFaultsExact` | services/ftv-graphql-mapper/body.go:99-154 | The decoder succeeds or fails as an automaton does that reads one token after the other: the first token that does not fit decides between a repeated name, too deep a nesting, trailing data and no JSON. |
| `StrictJson.DecodeStrictJson` | services/ftv-graphql-mapper/body.go:99-110 | The decoder's loops compute the specification the two properties are about. |
| `Surrogates.HasLoneSurrogate` | services/ftv-graphql-mapper/body.go:160-183 | True if and only if the left-to-right sequence of escapes holds an unpaired surrogate. |
| `Surrogates.EscapeSpells` | services/ftv-graphql-mapper/body.go:186-195 | An escape is a backslash, a u and four hexadecimal digits in either case, the first the most significant. |
| `Surrogates.SurrogatesExact` | services/ftv-graphql-mapper/body.go:160-183 | The high and low surrogates are exactly the first and second units of the code points beyond the first plane. |
| `Adequacy.Adequate` | services/asi-mapping/plan.go:25-59 | For every request of a plan and every full answer of every concrete type: Build on the part of the answer the plan selects gives the same value, held flag and error as Build on all of it, when the attribute stands at the root, a constant is named, or the plan asks the answer's type. |
| `Adequacy.AdequateIff` | services/asi-mapping/plan.go:25-59 | That holds of every full answer if and only if the attribute stands at the root, a constant is named, a live pointer leads to __typename, or some request on a type has a pointer; or both sides fail anyway, on a refused constant where the attribute's type is the only one. |
| `Adequacy.RequestOrderIsForgotten` | services/asi-mapping/plan.go:36-48 | Requests asking for the same paths on the same types, in any order and repetition, make the same selection, fragments included. |
| `Adequacy.KeptIffLeaf` | services/asi-mapping/build.go:144-159 | A lookup gives the same on every projected answer as on the full one if and only if it ends in a leaf of the selection. |
| `Adequacy.TypeIsAsked` | services/asi-mapping/plan.go:49-57 | An attribute on a type with a requested member that is no constant makes the plan ask the answer's type. |
| `Adequacy.TypeUnasked` | services/asi-mapping/plan.go:49-57 | Where the plan does not ask the type, an attribute on a type fails; the full answer says it is not held when the type is another, and fails too only on a refused constant when it is the attribute's. |
| `Adequacy.TypeGoesUnasked` | services/asi-mapping/plan.go:49-57 | Such a request exists: a constant attribute on a type, asked for as a whole beside one at the root. |
| `Adequacy.LeavesAreWished` | services/asi-mapping/plan.go:36-57 | Every leaf of a plan is a requested pointer or __typename. |
| `Adequacy.PlanAsks` | services/asi-mapping/plan.go:36-57 | What a plan asks of an answer of a type is exactly the prefixes of the pointers that apply to the type, and __typename when a fragment is asked. |
| `Adequacy.FieldSame` | services/asi-mapping/build.go:84-139 | A member whose pointers are leaves of the selection is made alike from the projected answer. |
| `AsiMapping.Plan` | services/asi-mapping/plan.go:25-59 | The loops compute the plan: refused, nothing to ask, or the selection, which PlanFacts.PlanExact characterises. |
| `PlanFacts.PlanExact` | services/asi-mapping/plan.go:25-59 | A plan is refused if and only if a request names an attribute that is not offered or a member the attribute has not; it asks nothing if and only if nothing requested is read from the source; otherwise its part for a type, or the root, holds exactly the paths to what is read there, and the root the answer's type when something is read on a type. |
| `AsiMapping.BuildValue` | services/asi-mapping/build.go:33-79 | The loops compute the value: failed, not held, or the value, which MappingFacts.BuildExact characterises. |
| `MappingFacts.BuildExact` | services/asi-mapping/build.go:33-79 | The attribute is held with a value if and only if the answer is of its type, no constant is named, and the value has exactly the requested members that the answer has a value for, each as its mapping makes it and conforming to its property, no member missing that was named or is required; it is not held if and only if there is no answer, it is of another type, a constant is named, or the first member not in order is such a missing one; anything else fails. |
| `MappingFacts.MemberExact` | services/asi-mapping/build.go:84-139 | A member is the constant; or the non-empty values its pointer leads to in the elements of its list, in order; or the non-empty texts of several pointers, in order, with the separator between them; or the non-empty value its pointer leads to; and has no value if and only if these lead to nothing. |
| `MappingFacts.FollowExact` | services/asi-mapping/build.go:144-159 | A lookup finds the value the names lead to through objects, and misses if and only if a null, or an object without the next name, stands on the way. |
| `MappingFacts.ConformsExact` | services/asi-mapping/build.go:188-224 | A value conforms if and only if everything in it that the schema speaks of, at every path, has the shape its schema gives. |
| `MappingFacts.JoinApart` | services/asi-mapping/build.go:112-132 | Joining puts the separator between what is joined, and nothing else. |
| `MappingFacts.NamesSpell` | services/asi-mapping/build.go:146 | The names of a pointer spell it, its leading slash aside, and hold no slash themselves. |
| `AsiMapping.BuildField` | services/asi-mapping/build.go:84-139 | One member: constant, list, join or copy; what is empty, or a list left without elements, makes no member. |
| `AsiMapping.Lookup` | services/asi-mapping/build.go:144-159 | Follows the pointer: Missing when it ends at nothing or at a null, Astray when it leads through anything but an object. |
| `AsiMapping.RequestedMembers` | services/asi-mapping/plan.go:71-86 | The named members, or all of them sorted; an unknown one is refused. |
| `SelectionSets.AddAllPaths` | services/asi-mapping/plan.go:119-127 | After any additions the node paths are the prefix closure of the pointers added. |
| `SelectionSets.OrderIsForgotten` | services/asi-mapping/plan.go:119-127 | Pointer lists with the same elements, in any order and repetition, make the same trie. |
| `Order.LeqExact` | services/asi-mapping/plan.go:161-168 | Names are sorted as their bytes compare: the shorter of two that begin alike first, else the first character that differs decides. |
| `SelectionSets.RenderRoundTrip` | services/asi-mapping/plan.go:141-157 | Reading the rendered text back gives the trie, without its empty fragments. |
| `SelectionSets.PrunedPaths` | services/asi-mapping/plan.go:141-157 | What the text leaves out holds no field, at the root or on a type. |
| `PathDocument.ValidatePath` | services/asi-mapping/capability.go:108-135 | Accepts exactly a path of single fields ending in ...Selected, without a directive on it. |
| `PathDocument.PathExact` | services/asi-mapping/capability.go:108-135 | Such a path is a chain of fields, of any length, with the spread of the selection alone at its end. |
| `PathDocument.ReplaceSelected` | services/asi-mapping/plan.go:170-198 | Succeeds exactly on such a path, directives aside, and puts the selection in the place of the spread. |
| `PathDocument.ValidThenReplaced` | services/asi-mapping/capability.go:105-135 | A document that passes validation always takes a selection; only directives set the two apart. |
| `PathDocument.FilledBelow` | services/asi-mapping/plan.go:179-197 | The filled document asks for the selection below the same fields and for nothing beside it. |
| `Fifo.ExactlyOnce` | services/ldv-client/outbox.go:36-39 | In every run of the queue the logbook is a prefix of what was appended, deduplicated by identity; what is acknowledged is in it; once all is delivered it is all of it. |
| `Fifo.LoggedOnce` | services/ldv-client/outbox.go:131-136 | The deduplicated sequence holds no identity twice. |
| `Fifo.LoggedComplete` | services/ldv-client/outbox.go:131-136 | It holds every appended record's identity. |
| `Fifo.AppendOnly` | services/ldv-client/outbox.go:36-39 | The appended sequence and the logbook only grow. |
| `Spool.RunRefines` | services/ldv-client/outbox.go:66-206 | Every run of append, post, cursor-advance, failure and crash steps is a run of the queue, to which exactly the records the run's append steps append are appended, at those steps; every state on the way stands for a state of it. |
| `Spool.NothingLostOrRepeated` | services/ldv-client/outbox.go:66-206 | At every point of every run the file is exactly the records appended so far, one line each; the cursor stands on a line boundary with every record before it in the logbook; reading from it finds every record behind it; and the logbook is a prefix of the appended records, deduplicated. |
| `Spool.AppendedItem` | services/ldv-client/outbox.go:142-149 | An appended record is delivered as itself if and only if it has a span id; one without is passed over. |
| `Spool.Drained` | services/ldv-client/outbox.go:137-158 | At any point of a run where the cursor is at the end of the file, the logbook is all that was appended, deduplicated. |
| `Spool.Outbox.Deliver` | services/ldv-client/outbox.go:137-158 | Whatever happens is a run of the steps. The records waiting are posted in order, the cursor moved behind each; it stops with an error only where a post is not confirmed or the cursor is not written, the cursor then standing behind what was delivered before, and without an error everything waiting is delivered. |
| `Spool.Outbox.Append` | services/ldv-client/outbox.go:66-82 | One encoded line is added at the end. |
| `Spool.Outbox.Undelivered` | services/ldv-client/outbox.go:93-129 | The lines behind the cursor, each with the offset it ends at. |
| `Spool.ScanCarriageReturn` | services/ldv-client/outbox.go:104-118 | A line that ends with a carriage return is read without it, and its end offset, counted from what was read, falls short by one. |
| `Spool.Outbox.WriteCursor` | services/ldv-client/outbox.go:197-206 | The cursor is replaced whole or stays. |
| `ConsentOutbox.ExecutionRefines` | services/consent-register/ldv_consent.go:122-149 | Every run of the id-keyed outbox is a run of the same queue, to which exactly the records the run spools are appended; every state on the way stands for a state of it. |
| `ConsentOutbox.NothingLostOrRepeated` | services/consent-register/ldv_consent.go:122-149 | At every point of every run the outbox is exactly the records spooled so far and not yet done with, numbered in order; those done with are in the logbook; and the logbook is a prefix of the spooled records, deduplicated, and all of them once the outbox is empty. |
| `ConsentOutbox.DeliverOutbox` | services/consent-register/ldv_consent.go:122-149 | Whatever happens is a run of the steps. Up to a hundred records are posted in order and each removed; it stops with an error only where a post is not confirmed, what was delivered before being gone from the outbox, and without an error the batch is gone. |
| `ConsentOutbox.Store.Create` | services/consent-register/main.go:187-197 | The consent and its record are stored in one step. |
| `ConsentOutbox.Store.AppendRecord` | services/consent-register/main.go:208-213 | A record is spooled under the next number; an empty one is none. |
| `ConsentOutbox.Store.PendingRecords` | services/consent-register/main.go:215-222 | The oldest entries up to the limit. |
| `ConsentOutbox.Store.MarkDelivered` | services/consent-register/main.go:224-234 | The first entry of that id is removed, the others stay in order. |
| `ConsentOutbox.WithoutExact` | services/consent-register/main.go:224-234 | Exactly the first entry of that id is gone, and the others stay in their order; without one nothing changes. |
| `ReleaseRuntime.SingleFlightAlways` | services/eudi-adapter/source_release_runtime.go:108-209 | In every interleaving at most one refresh runs, its channel is open while it runs and closed once, every caller that is done holds a snapshot or an error and not both, and every snapshot comes from one release. |
| `ReleaseRuntime.PublishedStays` | services/eudi-adapter/source_release_runtime.go:259-274 | A published snapshot is never replaced by none, and closed channels stay closed. |
| `ReleaseRuntime.WaitersCanWake` | services/eudi-adapter/source_release_runtime.go:140-152 | A waiting caller's channel is closed, or belongs to the refresh that runs. |
| `ReleaseRuntime.EnterNeverStuck` | services/eudi-adapter/source_release_runtime.go:108-138 | A call always answers or waits on a channel that was made. |
| `ReleaseRuntime.NextKeepsInv` | services/eudi-adapter/source_release_runtime.go:108-274 | Every step of every caller and refresh keeps the invariant. |
| `ReleaseRuntime.Runtime.EnterCurrent` | services/eudi-adapter/source_release_runtime.go:108-138 | A published snapshot is answered, also while it is checked; without one the last error, until it is time to check again; else the call waits for the refresh that runs or starts. A refresh starts if and only if none runs and it is time, or there is neither snapshot nor error; nothing else changes. |
| `ReleaseRuntime.Runtime.Refresh` | services/eudi-adapter/source_release_runtime.go:154-209 | A refresh succeeds if and only if the active release's state loads and is found and either the running release is that one and its lifetimes fit, or the release loads, has that id and can be built; it gives the running snapshot with renewed bindings and the first stale time, or what the release builds. Each failure has its own error: the registry's, no active release, lifetimes that do not fit, a release that changed, a release that cannot be built. |
| `ReleaseRuntime.Runtime.FinishRefresh` | services/eudi-adapter/source_release_runtime.go:259-274 | Publishes the snapshot if there is one, keeps the error, sets the next check five seconds later after an error and the refresh interval later otherwise, and closes the refresh's channel. |
| `Lifecycle.IncrementalIsRebuild` | services/eudi-adapter/source_release_runtime.go:211-257 | The incremental refresh of a built snapshot equals building the release with those times in rows and snapshots, staleUntil included. |
| `Lifecycle.RefreshSucceeds` | services/eudi-adapter/source_release_runtime.go:211-257 | With a state naming exactly the release's sources it succeeds if and only if every source offers a type. |
| `Lifecycle.RowsAreNotEnough` | services/eudi-adapter/source_release_runtime.go:276-343 | With only the rows replaced, a rebuild gives the refreshed bindings if and only if the stored snapshots already carry the new times. |
| `Lifecycle.RefreshReleaseRuntimeLifecycle` | services/eudi-adapter/source_release_runtime.go:211-257 | The loops succeed exactly on a refreshable pair and return every binding renewed and the minimum stale time. |
| `Lifecycle.RefreshableExact` | services/eudi-adapter/source_release_runtime.go:211-257 | A state fits a snapshot if and only if it is of the same release and has exactly one source for each that has a binding, and no other, each with a name and a lifetime in order. |
| `Lifecycle.BuildReleaseRuntimeSnapshot` | services/eudi-adapter/source_release_runtime.go:276-343 | The loops compute the snapshot of a release, which ReleaseFacts.BuildExact characterises. |
| `ReleaseFacts.BuildExact` | services/eudi-adapter/source_release_runtime.go:276-343 | A release is built if and only if it has an id and sources, every source's snapshot decodes and is its own, all type metadata is valid, and no type key and no metadata path occurs twice. What is built has the release's id and offers, exactly its type metadata under their paths, exactly one binding for each type of each source, with every field of its configuration and metadata from its own place in the activation or the type, and the first stale time of the sources. |
| `Registry.VersionDiscipline` | services/eudi-adapter/source_registry_backend.go:143-227 | In every run of Activate and RefreshCandidate, from the empty store or any sound one, a stored source stays; read as numbers, its version never decreases; versions that are equal part by part, however written, have one payload digest; and lifetimes are in order. |
| `Registry.SameLifecycle` | services/eudi-adapter/source_registry_backend.go:276-277 | Both operations give the same lifetime: fresh for 15 minutes and usable for 75, but never beyond the expiry, and always in order. |
| `Registry.CompareFlips` | services/eudi-adapter/source_metadata_cache.go:51-93 | Comparing versions the other way round flips the sign. |
| `Registry.CompareTransitive` | services/eudi-adapter/source_metadata_cache.go:51-93 | Comparing versions is transitive, so a total preorder. |
| `Registry.CompareNumericVersion` | services/eudi-adapter/source_metadata_cache.go:51-93 | Both versions must be numeric; the first is lower if and only if some part of it is below that of the second and all parts before are equal, a missing part counting as 0. |
| `Registry.CompareExact` | services/eudi-adapter/source_metadata_cache.go:76-92 | The comparison is below, above or equal to zero if and only if the first part that differs is lower, is higher, or does not exist. |
| `Registry.VersionIs` | services/eudi-adapter/source_metadata_cache.go:52-67 | A version parses to some numbers if and only if it is these, written as decimal numbers not below zero, with points between them behind an optional v. |
| `Registry.Backend.Activate` | services/eudi-adapter/source_registry_backend.go:143-183 | Succeeds if and only if the certificates and the registry allow it and, where a candidate is stored, both versions are numeric and the new one is not below the stored one, nor equal to it with another payload. Then exactly this source's candidate changes: columns and snapshot say the version and digest of the fetched metadata, with the lifetime it gives; otherwise nothing does. |
| `Registry.Backend.RefreshCandidate` | services/eudi-adapter/source_registry_backend.go:185-227 | Succeeds if and only if a candidate is stored that can be read, belongs to the source registered and is valid for an hour more. Then exactly this candidate changes: its version and digest stay, its lifetime is the one from now; otherwise nothing does. |
| `Chain.ReadChain` | services/dev-portal-backend/ldv.go:204-260 | The traversal ends, reports every configured logbook exactly once and every other one it learns of once, and reports one as start or by pointer if and only if it is reachable from a start logbook; each with its own records and error, by the id and name it gives itself or is configured under. Those reached come in the order in which they were first found, the starts as configured, then by turn and first record; the others behind them, as configured. |
| `Chain.FollowPointers` | services/dev-portal-backend/ldv.go:204-241 | The worklist loop visits exactly the reachable ids, each explained by a start or by an earlier result that points to it. |
| `Chain.FromIsShown` | services/dev-portal-backend/ldv.go:204-260 | A pointer result names as its origin a logbook asked earlier that points at it; the result of that logbook shows this name if and only if the logbook does not call itself something else. |
| `Chain.OriginNotShown` | services/dev-portal-backend/ldv.go:204-260 | A configuration in which no earlier result shows the name a pointer result gives its origin. |
| `Chain.NextLogbookIds` | services/dev-portal-backend/ldv.go:119-132 | Every pointer among the records, each once, in order of first appearance. |
| `Chain.TrimSpaceExact` | services/dev-portal-backend/ldv.go:126 | A pointer loses the spaces at both ends and nothing else. |
| `Chain.PointerExact` | services/dev-portal-backend/ldv.go:126 | A record points to its next logbook, trimmed, and nowhere if it names none. |

## Left out

- Mapper.MapOperation: starts at a validated query operation; transport, body shape, parsing, validation, its time limit and operation selection are not part of it.
- Walk.WalkOperation: failures carry their code and which limit was exceeded, not their message text or source position.
- Coverage.EveryExecutionIsCovered: the record's parent type is the static one at the selection, under a condition if there is one; how it relates to the object types that come back is left to validation.
- CoverageExactness.EveryRecordIsExecuted: which conditions apply is as free as in the coverage; that some object type meets all those on the way is what validation grants.
- Walk.VisitsAtMost: assumes non-empty selection sets, which validation grants; without them a document of empty fragments would be unbounded.
- LiteralForms.LiteralAgrees: goes from literal to JSON form only; the other way fails for kinds JSON lacks, such as a string supplied for an enum.
- DriftSoundness.DriftSound: compares argument values and origins, not the order of the variables and default paths reported with them, which follows the order of the source's fields; which of several failing arguments is named may differ too.
- VariableOrder.DocumentOrderIff: an argument that writes a variable more than once reports it once, at its first use in field order; the order is characterised for variables written once.
- Drift.DriftOf: yields the differences themselves, not their sorted messages.
- DriftSoundness.ModelFromAst: the model of an introspection answer is represented by the model of the schema it describes; of that path only type references are modelled.
- DocScan.ScanDocument: works on tokens; the lexer is assumed to yield ordered, non-empty tokens and one end token. Of a selection set or group only the brackets are read, as in the source, and failures carry no message.
- StrictJson.StrictAccepts: works on the tokens of the JSON decoder; lexical errors reach it as a missing token, and the check for lone surrogates as a flag computed by Surrogates.HasLoneSurrogate.
- AsiMapping.Plan: yields the selection; its text is SelectionSets.Render, and putting it into the document is PathDocument.ReplaceSelected.
- AsiMapping.BuildValue: all errors are one outcome; a list schema without items and a date that is no string count as errors, where the source relies on the catalogue to rule them out.
- PathDocument.ReplaceSelected: the source overwrites a set through a pointer; here the fields passed on the way are kept and put back around the new set.
- SelectionSets.AddAllPaths: the trie's nodes are values, so adding makes a new trie instead of changing nodes in place.
- Spool.NothingLostOrRepeated: an append is one atomic step, no reader runs beside it, a line is no longer than the scanner's bound, and there is one deliverer.
- Lifecycle.RefreshReleaseRuntimeLifecycle: the minimum stale time is stated for states without a zero time, which registration refuses; with one, the result depends on the order of the map.
- Registry.VersionDiscipline: the certificate set and the stored rollout state are reduced to whether they let a call pass.
- Registry.Backend.Activate: activations and refreshes follow each other; a race between one's check of the stored candidate and its write, and another's, is not modelled.
- Chain.ReadChain: assumes unique configured ids; fetching is a function of the logbook, so a failed read is an answer with an error and no records.
- Revocation in the in-memory consent store, which changes the status before its record builder can fail.
- The Postgres stores, HTTP, OpenTelemetry, cryptography and certificates, and the key of a release's bindings as joined text (a pair here).
- The trace hub, front ends, mock sources, configuration and composition roots.
- Float formatting and parsing: numbers stay decimal text, and whether one fits a float64 is a parameter.
