# Frontify metadata schema copy, modelled in Dafny

The app copies custom metadata field definitions from a source asset library
into the library it runs in. The user picks a source library, selects fields,
and for SELECT and MULTISELECT fields picks which options to copy. Then the
user applies the selection in one of two modes:

- **Create-new** issues one `createCustomMetadataProperty` mutation per
  selected field.
- **Merge** (the default) reads the destination's fields and indexes them by
  name. Each selected field is then treated in one of three ways:
  - if its trimmed name and its type both match a destination field, the
    missing options are added with `addCustomMetadataPropertyOptions`;
  - if the name matches but the type does not, or nothing matches, the field
    is created;
  - a matching field of a non-choice type is left alone.

The project has four modules:

- `Fields` (`fields.dfy`) holds the data model: a source `Field`, a destination
  `DestField`, and the choice-type test. It also holds JavaScript behaviour the
  app relies on:
  - a missing object key reads the same as an `undefined` value (`Entry`);
  - `String.prototype.trim` removes the ECMAScript white-space and
    line-terminator code points;
  - the two order-preserving array filters (`RemoveAll`, `Missing`).
- `Remote` (`remote.dfy`) holds the mutations as `Action`s and one apply-loop
  iteration as a `Step`.
  - A step either does nothing, awaits one call, or throws a `TypeError`
    before calling.
  - `Execute` runs steps sequentially and stops at the first rejected call or
    throw.
  - The class `Api` is the mutation endpoint. Its log holds the accepted
    mutations, and a failure oracle (`rejects`, a set of attempt numbers)
    decides which calls are rejected.
- `FrontifyQueries` (`frontify_queries.dfy`) models `src/helpers/frontifyQueries.ts`:
  - the field-reading loop of `getMetadataFields`;
  - `constructSelectedFields`, which works in place on the component's field
    array (`array<Field>`) and overwrites each chosen choice field's options;
  - the create-new and merge loops. Each loop is proved to issue exactly the
    calls of a plan function (`CreateNewPlan`, `MergePlan`), and the plan
    functions carry the lemmas.
- `Manager` (`manager.dfy`) models `src/components/metadata-manager.tsx`.
  - The class `MetadataManager` has one field per `useState` hook the
    handlers touch, plus the field catalog as an array.
  - Each handler is a method, proved equal to a transition function on
    `UiState`. The properties are lemmas about those functions.
  - Validation is the pure function `Validate`. `HandleApplyMetadata`
    validates, dispatches to merge or create-new on the component's own
    catalog, and opens the confirmation dialog.

Three behaviours of the code shape the model:

- A choice-typed field whose option list cannot be mapped is **dropped** from
  the catalog, not kept with an empty list: the `catch` at
  `src/helpers/frontifyQueries.ts:129-133` ends with `continue`.
- The confirmation dialog opens whether or not the run succeeds, and no
  failure reaches the user: the mutations are not awaited
  (`src/components/metadata-manager.tsx:209-214`).
- `handleSelectAllOptions` does not check the field type, so an options entry
  can exist for a non-choice field.

## Model

| member | source | states |
|---|---|---|
| Fields.Entry | src/components/metadata-manager.tsx:138 | defines `obj[key]` on a string-keyed object: a missing key reads as `undefined`, like a key holding `undefined` |
| Fields.Trim | src/helpers/frontifyQueries.ts:315 | `trim` leaves a string that neither starts nor ends with white space |
| Fields.TrimSlice | src/helpers/frontifyQueries.ts:315 | `trim` removes only white space, only from the two ends, and keeps the middle run of the string unchanged |
| Fields.TrimOfTrimmed | src/helpers/frontifyQueries.ts:315 | a name without surrounding white space is its own trimmed form |
| Fields.RemoveAll | src/components/metadata-manager.tsx:119 | `filter(id => id !== x)` removes every occurrence of x, keeps every other element with its multiplicity, and keeps their order |
| Fields.Missing | src/helpers/frontifyQueries.ts:335 | the option diff is the chosen options not already present, with their multiplicity and in chosen order |
| Fields.MissingAfterAdding | src/helpers/frontifyQueries.ts:335 | once the diff is appended to the existing options, the diff is empty |
| Remote.Execute | src/helpers/frontifyQueries.ts:314-354 | the awaited loop, with no `try`: at most one call per step; the exact outcome is stated by `ExecuteOutcome` |
| Remote.Intended | src/helpers/frontifyQueries.ts:314-354 | the mutations the loop would make if every call were accepted: at most one per step, each one issued by some step |
| Remote.ExecuteOutcome | src/helpers/frontifyQueries.ts:228-249 | abort on failure: if the (j+1)-th call is the first rejected one, the destination holds exactly the first j intended mutations, and j+1 calls were attempted; a run succeeds iff no call is rejected and no iteration throws |
| Remote.ExecuteAppend | src/helpers/frontifyQueries.ts:314-354 | running steps one after another composes: a prefix that fails ends the run, otherwise the rest continues with the next call number |
| Remote.Api.Call | src/helpers/frontifyQueries.ts:205-211 | one awaited mutation: it is counted, and it joins the log iff the oracle accepts it |
| Remote.Perform | src/helpers/frontifyQueries.ts:314-354 | one loop iteration changes the log and the call count exactly as `Execute` on that one step says |
| FrontifyQueries.NormalizeField | src/helpers/frontifyQueries.ts:122-139 | one property is skipped iff it is choice-typed and its option list cannot be mapped; otherwise it keeps its id, name and type, is well formed, and has options iff it is choice-typed with a non-empty mapped list, which it then keeps |
| FrontifyQueries.Normalized | src/helpers/frontifyQueries.ts:121-140 | every listed field is well formed: options only on choice types, never an empty list; there are no more fields than properties |
| FrontifyQueries.NormalizedKeeps | src/helpers/frontifyQueries.ts:121-140 | every property the loop does not skip is listed |
| FrontifyQueries.NormalizedFrom | src/helpers/frontifyQueries.ts:126-133 | every listed field comes from some property, so an unmappable choice field is never listed |
| FrontifyQueries.NormalizedAppend | src/helpers/frontifyQueries.ts:121-140 | the loop handles properties one at a time, in order: the listing of two runs of properties is the first run's listing followed by the second's, so order and multiplicity are kept |
| FrontifyQueries.NormalizedSingle | src/helpers/frontifyQueries.ts:122-139 | one property is listed as its normalised field or not at all |
| FrontifyQueries.GetMetadataFields | src/helpers/frontifyQueries.ts:120-143 | the reading loop returns nothing for a null library and otherwise exactly the normalised list |
| FrontifyQueries.ConstructSelectFieldOptions | src/helpers/frontifyQueries.ts:177-179 | each option string is wrapped as `{value}`, with the same length and order |
| FrontifyQueries.ValuesOfConstructed | src/helpers/frontifyQueries.ts:177-179 | unwrapping the payload gives back the option strings |
| FrontifyQueries.FindIndex | src/helpers/frontifyQueries.ts:255 | `find` returns an entry with the requested id |
| FrontifyQueries.FindIndexFirst | src/helpers/frontifyQueries.ts:255 | the entry found is the first with that id, and no match means no entry has it |
| FrontifyQueries.FindIndexSameIds | src/helpers/frontifyQueries.ts:255 | lookup depends only on the ids, so overwriting options never changes what is found |
| FrontifyQueries.Narrow | src/helpers/frontifyQueries.ts:256-258 | narrowing keeps id, name and type; a choice-typed field gets `selectedOptions[id]` as its options, and any other field is left as it is |
| FrontifyQueries.SelectedFields | src/helpers/frontifyQueries.ts:252-263 | the fields to copy number one per selected id |
| FrontifyQueries.SelectedFieldsSpec | src/helpers/frontifyQueries.ts:252-263 | construction fails iff some selected id is missing; otherwise field i is the first catalog entry for id i, with its options replaced by `selectedOptions[id]` when it is choice-typed |
| FrontifyQueries.FirstMissingSpec | src/helpers/frontifyQueries.ts:254-256 | every id before the first missing one is found, and the one at that position is not |
| FrontifyQueries.Overwrite | src/helpers/frontifyQueries.ts:254-258 | the in-place assignments over the processed ids keep the catalog's length; which entries change is stated by `OverwriteAt` |
| FrontifyQueries.OverwriteSameIds | src/helpers/frontifyQueries.ts:256-258 | overwriting options never changes an id or the catalog's length |
| FrontifyQueries.OverwriteAt | src/helpers/frontifyQueries.ts:256-258 | exactly the catalog entries found for a processed id are narrowed to their chosen options; all others are unchanged |
| FrontifyQueries.NarrowInPlace | src/helpers/frontifyQueries.ts:256-258 | `field.options = selectedOptions[id]` changes that one array slot and nothing else |
| FrontifyQueries.ConstructSelectedFields | src/helpers/frontifyQueries.ts:252-263 | the loop returns the fields `SelectedFields` describes and leaves the catalog overwritten for the ids processed before any missing one |
| FrontifyQueries.ConstructTwice | src/helpers/frontifyQueries.ts:357 | constructing again on the overwritten catalog gives the same fields and changes the catalog no further |
| FrontifyQueries.CreateStep | src/helpers/frontifyQueries.ts:181-214 | one create: it throws iff the field is choice-typed and has no options, and otherwise issues a create carrying the field's name and type, and options iff the type is a choice type |
| FrontifyQueries.CreateNewPlan | src/helpers/frontifyQueries.ts:227-250 | create-new mode either throws at once or makes one loop iteration per selected id |
| FrontifyQueries.CreateStepsIntended | src/helpers/frontifyQueries.ts:181-214 | with options present on every choice field, the loop never throws and intends one create per field, in order, with that field's name and type and, for a choice type only, its options wrapped one to one |
| FrontifyQueries.CreateNewPlanShape | src/helpers/frontifyQueries.ts:217-250 | create-new mode intends exactly one create per selected id, in selection order, named and typed as the catalog entry and carrying the chosen options |
| FrontifyQueries.ApplyEach | src/helpers/frontifyQueries.ts:314-354 | the awaited loop's effect on the endpoint is `Execute` of the planned steps |
| FrontifyQueries.CreateNewMetadataFields | src/helpers/frontifyQueries.ts:217-250 | the endpoint's log and call count follow `CreateNewPlan` exactly, and the catalog is overwritten as construction says |
| FrontifyQueries.IndexOf | src/helpers/frontifyQueries.ts:306-310 | the `Map` of destination fields by name, later fields replacing earlier ones; its keys and entries are stated by `IndexKeys`, `IndexEntries` and `IndexLastWins` |
| FrontifyQueries.IndexKeys | src/helpers/frontifyQueries.ts:306-310 | the name index has exactly one key per destination name |
| FrontifyQueries.IndexEntries | src/helpers/frontifyQueries.ts:306-310 | every indexed field is a destination field with that name |
| FrontifyQueries.IndexLastWins | src/helpers/frontifyQueries.ts:308-310 | among same-named destination fields, the last one is indexed |
| FrontifyQueries.BuildIndex | src/helpers/frontifyQueries.ts:306-310 | the filling loop builds the last-wins index |
| FrontifyQueries.MergeWith | src/helpers/frontifyQueries.ts:316-353 | given the destination field of the same name, if any, a field throws only when it is choice-typed without options; any create made is the create-new request for that field; an add-options call is made only against a same-named destination field of the same choice type, and targets that field's id |
| FrontifyQueries.MergeStep | src/helpers/frontifyQueries.ts:314-353 | a field whose trimmed name is not in the index is created exactly as in create-new mode |
| FrontifyQueries.MergeOutcome | src/helpers/frontifyQueries.ts:325-353 | against a same-named destination field: a type mismatch creates; the same non-choice type does nothing; the same choice type throws without options, does nothing iff every chosen option is already present, and otherwise adds options |
| FrontifyQueries.MergeAgainstDestination | src/helpers/frontifyQueries.ts:306-316 | against the destination list itself: a field whose trimmed name no destination field has is created; otherwise it is decided against the last destination field of that name |
| FrontifyQueries.MergeSettles | src/helpers/frontifyQueries.ts:325-342 | an add-options call targets the matched destination field and carries exactly the chosen options not yet present, in chosen order; once they are appended to that destination field, the same decision does nothing |
| FrontifyQueries.PaddedNamesNeverMatch | src/helpers/frontifyQueries.ts:309-315 | trimming is one-sided: a destination field whose own name has surrounding white space is never matched, so the field is created |
| FrontifyQueries.MergePlan | src/helpers/frontifyQueries.ts:305-358 | merge mode on an empty destination makes exactly the create-new calls |
| FrontifyQueries.CheckExistingMetadataFields | src/helpers/frontifyQueries.ts:265-359 | the endpoint's log and call count follow `MergePlan` exactly (create-new when the destination is empty, although construction runs twice), and the catalog is overwritten once as construction says |
| Manager.LibrarySelected | src/components/metadata-manager.tsx:104-109 | a new library empties the selection, the expanded panels and the chosen options, and changes nothing else |
| Manager.Flag | src/components/metadata-manager.tsx:136 | defines `prev[id]` as a flag: a missing key is `undefined`, which is falsy |
| Manager.MetadataToggled | src/components/metadata-manager.tsx:111-131 | the select handler as a transition: deselect when the id is selected, select otherwise; the two outcomes are stated by `DeselectSpec` and `SelectSpec` |
| Manager.DeselectSpec | src/components/metadata-manager.tsx:113-119 | deselecting removes every occurrence of the id, keeps the other ids in order, drops its options entry and nothing else |
| Manager.SelectSpec | src/components/metadata-manager.tsx:120-129 | selecting appends the id and, for a choice type only, chooses all of the field's options; no other entry changes |
| Manager.SelectThenDeselect | src/components/metadata-manager.tsx:111-131 | for a field that is not selected and has no options entry, selecting it and deselecting it again restores the state exactly |
| Manager.Expanded | src/components/metadata-manager.tsx:133-144 | expanding flips the panel flag of that field only, and fills its options entry only when the entry is missing and the field is choice-typed |
| Manager.ExpandTwice | src/components/metadata-manager.tsx:133-144 | expanding twice restores every flag and keeps the options the first expansion set |
| Manager.Toggle | src/components/metadata-manager.tsx:149-151 | ticking an option flips its membership and leaves every other option's count unchanged; an unchosen option is appended at the end, and unticking keeps the rest in order |
| Manager.ToggleTwice | src/components/metadata-manager.tsx:149-151 | ticking an unchosen option twice gives back the same list |
| Manager.OptionToggled | src/components/metadata-manager.tsx:146-153 | the handler throws iff the field has no options entry; otherwise only that entry changes, to the toggled list |
| Manager.AllOptionsSelected | src/components/metadata-manager.tsx:155-161 | the handler throws iff no catalog field has the id; otherwise only that entry changes, to the first such field's catalog options |
| Manager.AllOptionsDeselected | src/components/metadata-manager.tsx:163-168 | only that entry changes, to the empty list |
| Manager.Ids | src/components/metadata-manager.tsx:171 | the id list has one id per catalog field, in catalog order |
| Manager.ChoiceOptions | src/components/metadata-manager.tsx:173-178 | the `forEach` filling of the options object, a later field of the same id overwriting an earlier one; stated by `ChoiceOptionsKeys` and `ChoiceOptionsLastWins` |
| Manager.ChoiceOptionsKeys | src/components/metadata-manager.tsx:173-178 | select-all records options for exactly the choice-typed fields |
| Manager.ChoiceOptionsLastWins | src/components/metadata-manager.tsx:174-177 | each choice-typed field with no later choice-typed field of the same id has its own catalog options recorded |
| Manager.AllMetadataSelected | src/components/metadata-manager.tsx:170-180 | select-all selects every catalog id in catalog order, replaces the options by the object rebuilt from the choice-typed fields (`ChoiceOptions`), and changes nothing else |
| Manager.AllMetadataDeselected | src/components/metadata-manager.tsx:182-185 | deselect-all empties the selection and the options and keeps the panels |
| Manager.LacksOptions | src/components/metadata-manager.tsx:190-191 | defines the filter's test: choice-typed and with an options entry that is missing or empty |
| Manager.InvalidIds | src/components/metadata-manager.tsx:188-192 | the offending ids are in selection order and are all in the catalog, and when the filter does not throw every selected id is in the catalog |
| Manager.InvalidIdsSpec | src/components/metadata-manager.tsx:188-192 | the filter throws iff some selected id is missing; otherwise it keeps exactly the selected choice fields whose options are missing or empty |
| Manager.Validate | src/components/metadata-manager.tsx:187-201 | a blocked selection always names at least one field |
| Manager.ValidateOutcome | src/components/metadata-manager.tsx:187-201 | validation throws iff some selected id is missing from the catalog, and passes iff no selected choice field lacks chosen options |
| Manager.ValidateBlocked | src/components/metadata-manager.tsx:194-196 | a blocked selection names the offending fields, in selection order, and only those |
| Manager.Join | src/components/metadata-manager.tsx:195 | joining no names gives the empty string and joining one gives that name |
| Manager.JoinPart | src/components/metadata-manager.tsx:195 | in the joined text, part k sits at its offset: the parts before it, each followed by one separator |
| Manager.JoinSeparator | src/components/metadata-manager.tsx:195 | every part but the first is immediately preceded by the separator |
| Manager.JoinLength | src/components/metadata-manager.tsx:195 | the joined text ends with the last part, so it holds the parts and separators and nothing else |
| Manager.WarningText | src/components/metadata-manager.tsx:196 | the warning starts with the fixed text before the names |
| Manager.WarningNames | src/components/metadata-manager.tsx:195-196 | after the fixed text the warning lists the blocked names in order, name k at its offset in the ", "-joined list, and ends with the last name |
| Manager.ApplyPlan | src/components/metadata-manager.tsx:209-213 | with the overwrite flag clear, or an empty destination, an apply makes exactly the create-new calls |
| Manager.ValidatedApplyRunsThrough | src/components/metadata-manager.tsx:203-216 | once validation passes, neither mode throws before a call, construction reaches every selected id, and create-new intends one create per selected id |
| Manager.SelectAllValidates | src/components/metadata-manager.tsx:170-201 | after select-all on a catalog with distinct ids, validation passes iff every choice field has a non-empty option list |
| Manager.ApplyNarrowsCatalog | src/helpers/frontifyQueries.ts:255-258 | after an apply, each selected choice field in the component's catalog lists only its chosen options |
| Manager.ApplyThenSelectAllLosesOptions | src/components/metadata-manager.tsx:155-161 | with red and blue offered and only red chosen: before the apply, select-all-options restores both; after it, only red |
| Manager.MetadataManager.constructor | src/components/metadata-manager.tsx:26-41 | nothing is selected, no dialog is open, and merge mode is on |
| Manager.MetadataManager.LoadFields | src/components/metadata-manager.tsx:58-69 | a fetched catalog replaces the old one and the selection is kept |
| Manager.MetadataManager.SetOverwriteExisting | src/components/metadata-manager.tsx:374-378 | the checkbox sets the mode flag and nothing else |
| Manager.MetadataManager.HandleLibrarySelect | src/components/metadata-manager.tsx:104-109 | the new state is `LibrarySelected` of the old one |
| Manager.MetadataManager.HandleMetadataSelect | src/components/metadata-manager.tsx:111-131 | the new state is `MetadataToggled` of the old one |
| Manager.MetadataManager.HandleExpandMetadata | src/components/metadata-manager.tsx:133-144 | the new state is `Expanded` of the old one |
| Manager.MetadataManager.HandleOptionSelect | src/components/metadata-manager.tsx:146-153 | the new state is `OptionToggled` of the old one; a throw leaves it unchanged |
| Manager.MetadataManager.HandleSelectAllOptions | src/components/metadata-manager.tsx:155-161 | the new state is `AllOptionsSelected` over the current catalog; a throw leaves it unchanged |
| Manager.MetadataManager.HandleDeselectAllOptions | src/components/metadata-manager.tsx:163-168 | the new state is `AllOptionsDeselected` of the old one |
| Manager.MetadataManager.HandleSelectAllMetadata | src/components/metadata-manager.tsx:170-180 | the `forEach` loop builds the select-all state over the current catalog |
| Manager.MetadataManager.HandleDeselectAllMetadata | src/components/metadata-manager.tsx:182-185 | the new state is `AllMetadataDeselected` of the old one |
| Manager.MetadataManager.ValidateMetadataSelection | src/components/metadata-manager.tsx:187-201 | the result is `Validate` of the current selection; a blocked selection opens the warning with the offending names |
| Manager.MetadataManager.HandleApplyMetadata | src/components/metadata-manager.tsx:203-216 | a selection that does not pass changes no mutation and no catalog entry. A passing one runs `MergePlan` (flag set) or `CreateNewPlan` (flag clear) against the endpoint, narrows the component's own catalog, and opens the confirmation dialog |
| Manager.MetadataManager.HandleApplyMetadataOnCopy | src/components/metadata-manager.tsx:203-216 | the same validation and the same calls as the apply, with the component's catalog left as it was |

## Left out

- The GraphQL transport is not modelled: query text, variables, response shapes and network errors. A mutation is an `Action`, and whether it succeeds is decided by the oracle `Api.rejects`.
- `parentId` is the same in every mutation and is not part of `Action`.
- The destination read in merge mode (`src/helpers/frontifyQueries.ts:296-302`) is the parameter `existing`. Three things about it are not modelled:
  - a failure of that read;
  - a null destination library;
  - a choice-typed destination field whose options are not an array.
- `getLibraries` and `getLibraryPage` are not modelled: library paging and the library list.
- These parts of the component are not modelled:
  - `fetchLibraries`;
  - the `useEffect` hooks;
  - every `console.log`;
  - the search filters and `optionSearches`;
  - the loading flags;
  - the JSX rendering.
- `src/index.ts` is not part of this model.
- Manager.MetadataManager.LoadFields: models only a successful fetch. Two failure paths are left out:
  - a thrown fetch, which keeps the old catalog;
  - a null library, which stores `undefined` and breaks the next render.
- Timing is left out. `handleApplyMetadata` does not await the helpers, so user events could interleave with a running apply. The model runs the apply to its end before the dialog opens.
- A `TypeError` thrown inside a React state updater is modelled as "state unchanged". React's error propagation and StrictMode's double invocation of updaters are left out.
- Merge mode on a field whose `name` is not a string, where `trim` would throw, is left out.

## Findings

| source | as written | input that shows it | evidently intended | confidence | as-written member | corrected member |
|---|---|---|---|---|---|---|
| src/helpers/frontifyQueries.ts:255-258 | `constructSelectedFields` assigns `field.options` on the objects of the component's own `metadataFields` state, so every apply narrows the catalog the component keeps showing | a SELECT field offering red and blue, with only red chosen and applied: afterwards the option list and "Select All" offer red alone | the copy is built from the catalog without changing it, so the library's full option lists stay available | medium, not executed | Manager.ApplyThenSelectAllLosesOptions | Manager.MetadataManager.HandleApplyMetadataOnCopy |
