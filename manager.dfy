/** The metadata manager component: the selection state a user builds up
    (source library, fields, chosen options, expanded panels), the handlers that
    change it, the validation that gates an apply, and the dispatch to the two
    copy modes. Rendering, search filters and the library list are not part of
    this model. */
module Manager {
  import opened Fields
  import opened Remote
  import opened FrontifyQueries

  /** A source library as the picker lists it. */
  datatype Library = Library(id: string, name: string)

  /** The component's state apart from the field catalog, one component per
      `useState` hook the handlers touch. */
  datatype UiState = UiState(
    selectedLibrary: Option<Library>,
    selectedMetadata: seq<string>,
    expandedMetadata: map<string, bool>,
    selectedOptions: map<string, Option<seq<string>>>,
    overwriteExisting: bool,
    showWarning: bool,
    warningMessage: string,
    showConfirmation: bool)

  /** `prev[id]` read as a flag: a missing key reads as `undefined`, which is falsy. */
  predicate Flag(m: map<string, bool>, key: string) {
    key in m && m[key]
  }

  // ---------------------------------------------------------------------
  // Selection handlers, as transitions of the state

  /** `handleLibrarySelect`: a new source library starts an empty selection. */
  function LibrarySelected(s: UiState, library: Library): (t: UiState)
    ensures t.selectedLibrary == Some(library)
    ensures t.selectedMetadata == [] && t.expandedMetadata == map[] && t.selectedOptions == map[]
    ensures t.overwriteExisting == s.overwriteExisting && t.showWarning == s.showWarning
    ensures t.warningMessage == s.warningMessage && t.showConfirmation == s.showConfirmation
  {
    s.(selectedLibrary := Some(library), selectedMetadata := [], expandedMetadata := map[], selectedOptions := map[])
  }

  /** `handleMetadataSelect`: a selected field is deselected, an unselected
      one selected. */
  function MetadataToggled(s: UiState, metadata: Field): UiState {
    var id := metadata.id;
    if id in s.selectedMetadata then
      s.(selectedMetadata := RemoveAll(s.selectedMetadata, id), selectedOptions := s.selectedOptions - {id})
    else
      s.(selectedMetadata := s.selectedMetadata + [id],
         selectedOptions := if IsChoice(metadata.typeName) then s.selectedOptions[id := metadata.options] else s.selectedOptions)
  }

  /** Deselecting removes every occurrence of the id and keeps the other ids,
      in order; the field's options entry is dropped and nothing else changes. */
  lemma DeselectSpec(s: UiState, metadata: Field)
    requires metadata.id in s.selectedMetadata
    ensures var t := MetadataToggled(s, metadata);
            && metadata.id !in t.selectedMetadata
            && Subsequence(t.selectedMetadata, s.selectedMetadata)
            && (forall x :: x != metadata.id ==> multiset(t.selectedMetadata)[x] == multiset(s.selectedMetadata)[x])
            && Entry(t.selectedOptions, metadata.id).None?
            && (forall k :: k != metadata.id ==> Entry(t.selectedOptions, k) == Entry(s.selectedOptions, k))
            && t == s.(selectedMetadata := t.selectedMetadata, selectedOptions := t.selectedOptions)
  {
    var r := RemoveAll(s.selectedMetadata, metadata.id);
    assert multiset(r)[metadata.id] == 0;
  }

  /** Selecting appends the id and, for a choice type, starts with all of the
      field's options chosen; no other options entry changes. */
  lemma SelectSpec(s: UiState, metadata: Field)
    requires metadata.id !in s.selectedMetadata
    ensures var t := MetadataToggled(s, metadata);
            && t.selectedMetadata == s.selectedMetadata + [metadata.id]
            && Entry(t.selectedOptions, metadata.id) ==
                 (if IsChoice(metadata.typeName) then metadata.options else Entry(s.selectedOptions, metadata.id))
            && (forall k :: k != metadata.id ==> Entry(t.selectedOptions, k) == Entry(s.selectedOptions, k))
            && t == s.(selectedMetadata := t.selectedMetadata, selectedOptions := t.selectedOptions)
  {
  }

  /** `handleExpandMetadata`: the panel flag flips; the options entry is filled
      with the field's options only when it is missing and the field is
      choice-typed (an empty list is truthy and is kept). */
  function Expanded(s: UiState, metadata: Field): (t: UiState)
    ensures Flag(t.expandedMetadata, metadata.id) == !Flag(s.expandedMetadata, metadata.id)
    ensures forall k :: k != metadata.id ==> Flag(t.expandedMetadata, k) == Flag(s.expandedMetadata, k)
    ensures Entry(t.selectedOptions, metadata.id) ==
              if Entry(s.selectedOptions, metadata.id).None? && IsChoice(metadata.typeName) then metadata.options
              else Entry(s.selectedOptions, metadata.id)
    ensures forall k :: k != metadata.id ==> Entry(t.selectedOptions, k) == Entry(s.selectedOptions, k)
    ensures t == s.(expandedMetadata := t.expandedMetadata, selectedOptions := t.selectedOptions)
  {
    var id := metadata.id;
    var s1 := s.(expandedMetadata := s.expandedMetadata[id := !Flag(s.expandedMetadata, id)]);
    if Entry(s.selectedOptions, id).None? && IsChoice(metadata.typeName) then
      s1.(selectedOptions := s.selectedOptions[id := metadata.options])
    else s1
  }

  /** Expanding a panel twice restores what the flag reads and leaves the
      options as the first expansion set them. */
  lemma ExpandTwice(s: UiState, metadata: Field)
    ensures var t := Expanded(Expanded(s, metadata), metadata);
            && (forall k :: Flag(t.expandedMetadata, k) == Flag(s.expandedMetadata, k))
            && (forall k :: Entry(t.selectedOptions, k) == Entry(Expanded(s, metadata).selectedOptions, k))
  {
  }

  /** `prev[id].includes(option) ? filter : append`. */
  function Toggle(chosen: seq<string>, option: string): (r: seq<string>)
    ensures option in r <==> option !in chosen
    ensures forall x :: x != option ==> multiset(r)[x] == multiset(chosen)[x]
    ensures option in chosen ==> Subsequence(r, chosen)
    ensures option !in chosen ==> r == chosen + [option]
  {
    if option in chosen then RemoveAll(chosen, option) else chosen + [option]
  }

  lemma {:induction false} RemoveAppended(s: seq<string>, x: string)
    requires x !in s
    ensures RemoveAll(s + [x], x) == s
  {
    if s == [] {
      assert [x][1..] == [];
    } else {
      assert (s + [x])[0] == s[0];
      assert (s + [x])[1..] == s[1..] + [x];
      RemoveAppended(s[1..], x);
    }
  }

  /** Ticking an option that was not chosen and unticking it again gives back
      the same chosen list. */
  lemma ToggleTwice(chosen: seq<string>, option: string)
    requires option !in chosen
    ensures Toggle(Toggle(chosen, option), option) == chosen
  {
    RemoveAppended(chosen, option);
  }

  /** `handleOptionSelect`: the option is removed from the field's chosen list
      when present (all occurrences) and appended otherwise; None when the field
      has no list yet, where reading `.includes` of `undefined` throws inside
      the state updater and the state stays as it was. */
  function OptionToggled(s: UiState, metadataId: string, option: string): (t: Option<UiState>)
    ensures t.Some? <==> Entry(s.selectedOptions, metadataId).Some?
    ensures t.Some? ==>
              && Entry(t.value.selectedOptions, metadataId) == Some(Toggle(Entry(s.selectedOptions, metadataId).value, option))
              && (forall k :: k != metadataId ==> Entry(t.value.selectedOptions, k) == Entry(s.selectedOptions, k))
              && t.value == s.(selectedOptions := t.value.selectedOptions)
  {
    match Entry(s.selectedOptions, metadataId)
    case None => None
    case Some(cur) => Some(s.(selectedOptions := s.selectedOptions[metadataId := Some(Toggle(cur, option))]))
  }

  /** `handleSelectAllOptions`: the field's entry becomes the catalog's options
      for the first field with that id; None when there is no such field, where
      reading `.options` of `undefined` throws. The field's type is not checked. */
  function AllOptionsSelected(s: UiState, catalog: seq<Field>, metadataId: string): (t: Option<UiState>)
    ensures t.Some? <==> FindIndex(catalog, metadataId).Some?
    ensures t.Some? ==>
              && Entry(t.value.selectedOptions, metadataId) == catalog[FindIndex(catalog, metadataId).value].options
              && (forall k :: k != metadataId ==> Entry(t.value.selectedOptions, k) == Entry(s.selectedOptions, k))
              && t.value == s.(selectedOptions := t.value.selectedOptions)
  {
    match FindIndex(catalog, metadataId)
    case None => None
    case Some(j) => Some(s.(selectedOptions := s.selectedOptions[metadataId := catalog[j].options]))
  }

  /** `handleDeselectAllOptions`: the field's entry becomes the empty list (not
      `undefined`), so later ticks append to it. */
  function AllOptionsDeselected(s: UiState, metadataId: string): (t: UiState)
    ensures Entry(t.selectedOptions, metadataId) == Some([])
    ensures forall k :: k != metadataId ==> Entry(t.selectedOptions, k) == Entry(s.selectedOptions, k)
    ensures t == s.(selectedOptions := t.selectedOptions)
  {
    s.(selectedOptions := s.selectedOptions[metadataId := Some([])])
  }

  /** `metadataFields.map(f => f.id)`. */
  function Ids(fields: seq<Field>): (ids: seq<string>)
    ensures |ids| == |fields|
    ensures forall i :: 0 <= i < |fields| ==> ids[i] == fields[i].id
  {
    seq(|fields|, i requires 0 <= i < |fields| => fields[i].id)
  }

  /** The options object `handleSelectAllMetadata` fills in catalog order: each
      choice-typed field's id mapped to its options, a later field with the same
      id overwriting an earlier one. */
  function ChoiceOptions(fields: seq<Field>): map<string, Option<seq<string>>> {
    if fields == [] then map[]
    else
      var last := fields[|fields| - 1];
      var m := ChoiceOptions(fields[..|fields| - 1]);
      if IsChoice(last.typeName) then m[last.id := last.options] else m
  }

  /** The keys are exactly the ids of choice-typed fields. */
  lemma {:induction false} ChoiceOptionsKeys(fields: seq<Field>)
    ensures ChoiceOptions(fields).Keys == set f | f in fields && IsChoice(f.typeName) :: f.id
  {
    if fields != [] {
      var n := |fields| - 1;
      ChoiceOptionsKeys(fields[..n]);
      assert fields == fields[..n] + [fields[n]];
    }
  }

  /** Last wins: a choice-typed field with no later choice-typed field of the
      same id has its own options recorded. */
  lemma {:induction false} ChoiceOptionsLastWins(fields: seq<Field>, j: nat)
    requires j < |fields| && IsChoice(fields[j].typeName)
    requires forall k :: j < k < |fields| && IsChoice(fields[k].typeName) ==> fields[k].id != fields[j].id
    ensures fields[j].id in ChoiceOptions(fields) && ChoiceOptions(fields)[fields[j].id] == fields[j].options
  {
    var n := |fields| - 1;
    if j < n {
      assert fields[..n][j] == fields[j];
      ChoiceOptionsLastWins(fields[..n], j);
    }
  }

  /** `handleSelectAllMetadata`: every catalog id in catalog order, and options
      for choice-typed fields only; entries for other fields are dropped. */
  function AllMetadataSelected(s: UiState, catalog: seq<Field>): (t: UiState)
    ensures t.selectedMetadata == Ids(catalog)
    ensures t.selectedOptions == ChoiceOptions(catalog)
    ensures t == s.(selectedMetadata := Ids(catalog), selectedOptions := t.selectedOptions)
  {
    s.(selectedMetadata := Ids(catalog), selectedOptions := ChoiceOptions(catalog))
  }

  /** `handleDeselectAllMetadata`: selection and options cleared; panels stay
      as they were. */
  function AllMetadataDeselected(s: UiState): (t: UiState)
    ensures t.selectedMetadata == [] && t.selectedOptions == map[]
    ensures t.expandedMetadata == s.expandedMetadata
    ensures t == s.(selectedMetadata := [], selectedOptions := map[])
  {
    s.(selectedMetadata := [], selectedOptions := map[])
  }

  /** Selecting a field that has no options entry and deselecting it again
      restores the state exactly. */
  lemma SelectThenDeselect(s: UiState, metadata: Field)
    requires metadata.id !in s.selectedMetadata && metadata.id !in s.selectedOptions
    ensures MetadataToggled(MetadataToggled(s, metadata), metadata) == s
  {
    var id := metadata.id;
    var t := MetadataToggled(s, metadata);
    assert t.selectedMetadata == s.selectedMetadata + [id];
    var u := MetadataToggled(t, metadata);
    assert id in t.selectedMetadata;
    assert u == t.(selectedMetadata := RemoveAll(t.selectedMetadata, id), selectedOptions := t.selectedOptions - {id});
    RemoveAppended(s.selectedMetadata, id);
    assert t.selectedOptions - {id} == s.selectedOptions;
  }

  // ---------------------------------------------------------------------
  // Validation (validateMetadataSelection)

  /** A choice-typed field whose chosen options are missing or empty. `[]` is
      truthy, so only the length test catches an emptied list. */
  predicate LacksOptions(f: Field, chosen: Option<seq<string>>) {
    IsChoice(f.typeName) && (chosen.None? || |chosen.value| == 0)
  }

  /** `selectedMetadata.filter(...)`: the selected ids whose field lacks options,
      in selection order; None when some selected id has no catalog field, where
      reading `.type` of `undefined` throws. */
  function InvalidIds(catalog: seq<Field>, selected: seq<string>, chosen: map<string, Option<seq<string>>>)
    : (r: Option<seq<string>>)
    ensures r.Some? ==> Subsequence(r.value, selected)
    ensures r.Some? ==> forall k :: 0 <= k < |r.value| ==> FindIndex(catalog, r.value[k]).Some?
    ensures r.Some? ==> forall i :: 0 <= i < |selected| ==> FindIndex(catalog, selected[i]).Some?
  {
    if selected == [] then Some([])
    else match FindIndex(catalog, selected[0])
      case None => None
      case Some(j) =>
        match InvalidIds(catalog, selected[1..], chosen)
        case None => None
        case Some(rest) =>
          if LacksOptions(catalog[j], Entry(chosen, selected[0])) then Some([selected[0]] + rest)
          else
            SubsequenceSkip(rest, selected);
            Some(rest)
  }

  /** The filter fails exactly when some selected id is missing from the
      catalog, and otherwise keeps exactly the selected ids whose field lacks
      options. */
  lemma {:induction false} InvalidIdsSpec(catalog: seq<Field>, selected: seq<string>, chosen: map<string, Option<seq<string>>>)
    ensures var r := InvalidIds(catalog, selected, chosen);
            && (r.Some? <==> forall i :: 0 <= i < |selected| ==> FindIndex(catalog, selected[i]).Some?)
            && (r.Some? ==> forall i :: 0 <= i < |selected| ==>
                  (selected[i] in r.value <==> LacksOptions(catalog[FindIndex(catalog, selected[i]).value], Entry(chosen, selected[i]))))
            && (r.Some? ==> forall id :: id in r.value ==> id in selected)
  {
    if selected != [] {
      var rest := selected[1..];
      InvalidIdsSpec(catalog, rest, chosen);
      assert forall i :: 1 <= i < |selected| ==> selected[i] == rest[i - 1];
    }
  }

  /** `list.join(sep)`. */
  function Join(parts: seq<string>, sep: string): (r: string)
    ensures parts == [] ==> r == ""
    ensures |parts| == 1 ==> r == parts[0]
  {
    if parts == [] then ""
    else if |parts| == 1 then parts[0]
    else parts[0] + sep + Join(parts[1..], sep)
  }

  /** Where the k-th part starts in the joined text: the parts before it, each
      followed by one separator. */
  function Offset(parts: seq<string>, sep: string, k: nat): (o: nat)
    requires k <= |parts|
    ensures 0 < k ==> |sep| <= o
  {
    if k == 0 then 0 else |parts[0]| + |sep| + Offset(parts[1..], sep, k - 1)
  }

  /** A slice of the right operand, read inside a concatenation. */
  lemma SliceShift(x: string, y: string, a: nat, b: nat)
    requires a <= b <= |y|
    ensures (x + y)[|x| + a..|x| + b] == y[a..b]
  {
    assert forall i :: 0 <= i < b - a ==> (x + y)[|x| + a..|x| + b][i] == y[a..b][i];
  }

  /** A joined text of two or more parts is the first part, the separator, and
      the join of the rest. */
  lemma JoinCons(parts: seq<string>, sep: string)
    requires |parts| >= 2
    ensures Join(parts, sep) == (parts[0] + sep) + Join(parts[1..], sep)
  {
  }

  /** The k-th part sits at its offset in the joined text. */
  lemma {:induction false} JoinPart(parts: seq<string>, sep: string, k: nat)
    requires k < |parts|
    ensures Offset(parts, sep, k) + |parts[k]| <= |Join(parts, sep)|
    ensures Join(parts, sep)[Offset(parts, sep, k)..Offset(parts, sep, k) + |parts[k]|] == parts[k]
  {
    if |parts| >= 2 {
      JoinCons(parts, sep);
      var tail := parts[1..];
      if k == 0 {
        assert (parts[0] + sep + Join(tail, sep))[..|parts[0]|] == parts[0];
      } else {
        var o := Offset(tail, sep, k - 1);
        JoinPart(tail, sep, k - 1);
        assert tail[k - 1] == parts[k];
        SliceShift(parts[0] + sep, Join(tail, sep), o, o + |parts[k]|);
      }
    }
  }

  /** Every part but the first is preceded by the separator. */
  lemma {:induction false} JoinSeparator(parts: seq<string>, sep: string, k: nat)
    requires 0 < k < |parts|
    ensures Offset(parts, sep, k) <= |Join(parts, sep)|
    ensures Join(parts, sep)[Offset(parts, sep, k) - |sep|..Offset(parts, sep, k)] == sep
  {
    JoinPart(parts, sep, k);
    JoinCons(parts, sep);
    var tail := parts[1..];
    var jt := Join(tail, sep);
    var o := Offset(tail, sep, k - 1);
    assert Offset(parts, sep, k) == |parts[0]| + |sep| + o;
    if k == 1 {
      assert Join(parts, sep) == parts[0] + (sep + jt);
      SliceShift(parts[0], sep + jt, 0, |sep|);
      assert (sep + jt)[0..|sep|] == sep;
    } else {
      JoinSeparator(tail, sep, k - 1);
      SliceShift(parts[0] + sep, jt, o - |sep|, o);
    }
  }

  /** The joined text ends with the last part. */
  lemma {:induction false} JoinLength(parts: seq<string>, sep: string)
    requires parts != []
    ensures |Join(parts, sep)| == Offset(parts, sep, |parts| - 1) + |parts[|parts| - 1]|
  {
    if |parts| >= 2 {
      JoinCons(parts, sep);
      JoinLength(parts[1..], sep);
    }
  }

  const WarningPrefix := "The following fields have no options selected: "

  /** What goes between two names in the warning. */
  const NameSeparator := ", "

  /** The outcome of validation: the apply may go ahead, it is blocked with the
      names of the offending fields, or validation throws. */
  datatype Validation = Passed | Blocked(names: seq<string>) | Fault

  /** `validateMetadataSelection` as a value. */
  function Validate(catalog: seq<Field>, selected: seq<string>, chosen: map<string, Option<seq<string>>>): (v: Validation)
    ensures v.Blocked? ==> |v.names| > 0
  {
    match InvalidIds(catalog, selected, chosen)
    case None => Fault
    case Some(ids) =>
      if |ids| == 0 then Passed
      else Blocked(seq(|ids|, k requires 0 <= k < |ids| => catalog[FindIndex(catalog, ids[k]).value].name))
  }

  /** Validation throws exactly when some selected id is missing from the
      catalog, and passes exactly when every selected id is in the catalog and
      no selected choice-typed field lacks chosen options. */
  lemma ValidateOutcome(catalog: seq<Field>, selected: seq<string>, chosen: map<string, Option<seq<string>>>)
    ensures var v := Validate(catalog, selected, chosen);
            && (v.Fault? <==> exists i :: 0 <= i < |selected| && FindIndex(catalog, selected[i]).None?)
            && (v.Passed? <==> forall i :: 0 <= i < |selected| ==>
                  && FindIndex(catalog, selected[i]).Some?
                  && !LacksOptions(catalog[FindIndex(catalog, selected[i]).value], Entry(chosen, selected[i])))
  {
    InvalidIdsSpec(catalog, selected, chosen);
    var r := InvalidIds(catalog, selected, chosen);
    if r.Some? && |r.value| > 0 {
      assert r.value[0] in selected;
      var i :| 0 <= i < |selected| && selected[i] == r.value[0];
    }
  }

  /** A blocked selection names, in selection order, the fields of exactly the
      selected ids that lack options. */
  lemma ValidateBlocked(catalog: seq<Field>, selected: seq<string>, chosen: map<string, Option<seq<string>>>)
    requires Validate(catalog, selected, chosen).Blocked?
    ensures var names := Validate(catalog, selected, chosen).names;
            var ids := InvalidIds(catalog, selected, chosen).value;
            && Subsequence(ids, selected)
            && (forall i :: 0 <= i < |selected| ==>
                  (selected[i] in ids <==> LacksOptions(catalog[FindIndex(catalog, selected[i]).value], Entry(chosen, selected[i]))))
            && |names| == |ids|
            && (forall k :: 0 <= k < |ids| ==> names[k] == catalog[FindIndex(catalog, ids[k]).value].name)
  {
    InvalidIdsSpec(catalog, selected, chosen);
  }

  /** The warning text for the blocked fields. */
  function WarningText(names: seq<string>): (w: string)
    ensures WarningPrefix <= w
  {
    WarningPrefix + Join(names, NameSeparator)
  }

  /** After the fixed text the warning lists the names in order: name k sits at
      its offset in the joined list, where the names before it each take their
      length plus the separator's, and the warning ends with the last name.
      What lies between two names is the separator (`JoinSeparator`). */
  lemma WarningNames(names: seq<string>, k: nat)
    requires k < |names|
    ensures var p := |WarningPrefix| + Offset(names, NameSeparator, k);
            && p + |names[k]| <= |WarningText(names)|
            && WarningText(names)[p..p + |names[k]|] == names[k]
            && (k == |names| - 1 ==> |WarningText(names)| == p + |names[k]|)
  {
    PrefixedPart(WarningPrefix, names, NameSeparator, k);
    if k == |names| - 1 {
      JoinLength(names, NameSeparator);
    }
  }

  /** Part k of a joined text read after a fixed prefix. */
  lemma PrefixedPart(prefix: string, parts: seq<string>, sep: string, k: nat)
    requires k < |parts|
    ensures |prefix| + Offset(parts, sep, k) + |parts[k]| <= |prefix + Join(parts, sep)|
    ensures (prefix + Join(parts, sep))[|prefix| + Offset(parts, sep, k)..|prefix| + Offset(parts, sep, k) + |parts[k]|] == parts[k]
  {
    JoinPart(parts, sep, k);
    SliceShift(prefix, Join(parts, sep), Offset(parts, sep, k), Offset(parts, sep, k) + |parts[k]|);
  }

  // ---------------------------------------------------------------------
  // What an apply does (handleApplyMetadata)

  /** The calls an apply makes: merge mode when the overwrite flag is set,
      create-new mode otherwise. */
  function ApplyPlan(overwrite: bool, catalog: seq<Field>, selected: seq<string>,
                     chosen: map<string, Option<seq<string>>>, existing: seq<DestField>): (r: seq<Step>)
    ensures !overwrite || |existing| == 0 ==> r == CreateNewPlan(catalog, selected, chosen)
  {
    if overwrite then MergePlan(catalog, selected, chosen, existing) else CreateNewPlan(catalog, selected, chosen)
  }

  /** No merge decision crashes on a field whose options are present. */
  lemma MergeStepsDoNotCrash(fs: seq<Field>, index: map<string, DestField>)
    requires forall i :: 0 <= i < |fs| ==> IsChoice(fs[i].typeName) ==> fs[i].options.Some?
    ensures !Crashes(StepsFor(fs, f => MergeStep(f, index)))
  {
    var steps := StepsFor(fs, f => MergeStep(f, index));
    forall i | 0 <= i < |steps|
      ensures steps[i] != Crash
    {
      assert steps[i] == MergeStep(fs[i], index);
    }
  }

  /** Validation guards both modes: once it passes, neither mode throws before
      a call, construction reaches every selected id, and create-new mode
      intends exactly one create per selected id. */
  lemma ValidatedApplyRunsThrough(catalog: seq<Field>, selected: seq<string>, chosen: map<string, Option<seq<string>>>,
                                  existing: seq<DestField>, overwrite: bool)
    requires Validate(catalog, selected, chosen) == Passed
    ensures FirstMissing(catalog, selected) == |selected|
    ensures !Crashes(ApplyPlan(overwrite, catalog, selected, chosen, existing))
    ensures |Intended(CreateNewPlan(catalog, selected, chosen))| == |selected|
  {
    ValidateOutcome(catalog, selected, chosen);
    FirstMissingSpec(catalog, selected);
    CreateNewPlanShape(catalog, selected, chosen);
    SelectedFieldsSpec(catalog, selected, chosen);
    var fs := SelectedFields(catalog, selected, chosen).value;
    assert forall i :: 0 <= i < |fs| ==> IsChoice(fs[i].typeName) ==> fs[i].options.Some?;
    if |existing| > 0 {
      MergeStepsDoNotCrash(fs, IndexOf(existing));
    }
  }

  /** After select-all on a catalog with distinct ids, validation passes exactly
      when every choice-typed field of the catalog has a non-empty option list. */
  lemma SelectAllValidates(s: UiState, catalog: seq<Field>)
    requires forall i, j :: 0 <= i < j < |catalog| ==> catalog[i].id != catalog[j].id
    ensures var t := AllMetadataSelected(s, catalog);
            Validate(catalog, t.selectedMetadata, t.selectedOptions) == Passed <==>
              forall i :: 0 <= i < |catalog| ==> IsChoice(catalog[i].typeName) ==>
                catalog[i].options.Some? && |catalog[i].options.value| > 0
  {
    var ids := Ids(catalog);
    var m := ChoiceOptions(catalog);
    ValidateOutcome(catalog, ids, m);
    forall i | 0 <= i < |catalog|
      ensures FindIndex(catalog, ids[i]) == Some(i)
      ensures IsChoice(catalog[i].typeName) ==> Entry(m, ids[i]) == catalog[i].options
    {
      FindIndexFirst(catalog, ids[i]);
      if IsChoice(catalog[i].typeName) {
        ChoiceOptionsLastWins(catalog, i);
      }
    }
  }

  /** Applying narrows the catalog: every selected choice-typed field's options
      become its chosen list, so the option list the component shows for it,
      and what select-all-options restores, is the chosen subset from then on. */
  lemma ApplyNarrowsCatalog(catalog: seq<Field>, selected: seq<string>, chosen: map<string, Option<seq<string>>>, i: nat)
    requires forall k :: 0 <= k < |selected| ==> FindIndex(catalog, selected[k]).Some?
    requires i < |selected|
    ensures var j := FindIndex(catalog, selected[i]).value;
            var c := Overwrite(catalog, selected, chosen);
            IsChoice(catalog[j].typeName) ==> c[j].options == Entry(chosen, selected[i])
  {
    var j := FindIndex(catalog, selected[i]).value;
    OverwriteAt(catalog, selected, chosen, j);
    FindIndexFirst(catalog, selected[i]);
  }

  /** A concrete case: a SELECT field with options red and blue, of which only
      red is chosen. After the apply the catalog lists red alone, and
      select-all-options chooses red alone. */
  lemma ApplyThenSelectAllLosesOptions(s: UiState)
    ensures var before := [Field("c", "Colour", "SELECT", Some(["red", "blue"]))];
            var chosen := map["c" := Some(["red"])];
            var after := Overwrite(before, ["c"], chosen);
            && Validate(before, ["c"], chosen) == Passed
            && AllOptionsSelected(s, before, "c").value.selectedOptions["c"] == Some(["red", "blue"])
            && AllOptionsSelected(s, after, "c").value.selectedOptions["c"] == Some(["red"])
  {
    var before := [Field("c", "Colour", "SELECT", Some(["red", "blue"]))];
    var chosen := map["c" := Some(["red"])];
    ApplyNarrowsCatalog(before, ["c"], chosen, 0);
    OverwriteSameIds(before, ["c"], chosen);
    ValidateOutcome(before, ["c"], chosen);
  }

  // ---------------------------------------------------------------------
  // The component

  class MetadataManager {
    /** `metadataFields`: the source library's fields. The query helpers update
        its entries in place. */
    var catalog: array<Field>
    var selectedLibrary: Option<Library>
    var selectedMetadata: seq<string>
    var expandedMetadata: map<string, bool>
    var selectedOptions: map<string, Option<seq<string>>>
    var overwriteExisting: bool
    var showWarning: bool
    var warningMessage: string
    var showConfirmation: bool

    function State(): UiState
      reads this
    {
      UiState(selectedLibrary, selectedMetadata, expandedMetadata, selectedOptions,
              overwriteExisting, showWarning, warningMessage, showConfirmation)
    }

    /** The initial values of the hooks: nothing selected, merge mode on. */
    constructor ()
      ensures fresh(catalog) && catalog.Length == 0
      ensures State() == UiState(None, [], map[], map[], true, false, "", false)
    {
      catalog := new Field[0];
      selectedLibrary := None;
      selectedMetadata := [];
      expandedMetadata := map[];
      selectedOptions := map[];
      overwriteExisting := true;
      showWarning := false;
      warningMessage := "";
      showConfirmation := false;
    }

    /** `fetchMetadataFields` once the reader has returned: the catalog is
        replaced and the selection is kept. */
    method LoadFields(fields: seq<Field>)
      modifies this
      ensures fresh(catalog) && catalog[..] == fields
      ensures State() == old(State())
    {
      catalog := new Field[|fields|](i requires 0 <= i < |fields| => fields[i]);
    }

    /** The merge checkbox. */
    method SetOverwriteExisting(checked: bool)
      modifies this
      ensures State() == old(State()).(overwriteExisting := checked) && catalog == old(catalog)
    {
      overwriteExisting := checked;
    }

    method HandleLibrarySelect(library: Library)
      modifies this
      ensures State() == LibrarySelected(old(State()), library) && catalog == old(catalog)
    {
      selectedLibrary := Some(library);
      selectedMetadata := [];
      expandedMetadata := map[];
      selectedOptions := map[];
    }

    method HandleMetadataSelect(metadata: Field)
      modifies this
      ensures State() == MetadataToggled(old(State()), metadata) && catalog == old(catalog)
    {
      if metadata.id in selectedMetadata {
        selectedOptions := selectedOptions - {metadata.id};
        selectedMetadata := RemoveAll(selectedMetadata, metadata.id);
      } else {
        if IsChoice(metadata.typeName) {
          selectedOptions := selectedOptions[metadata.id := metadata.options];
        }
        selectedMetadata := selectedMetadata + [metadata.id];
      }
    }

    method HandleExpandMetadata(metadata: Field)
      modifies this
      ensures State() == Expanded(old(State()), metadata) && catalog == old(catalog)
    {
      expandedMetadata := expandedMetadata[metadata.id := !Flag(expandedMetadata, metadata.id)];
      if Entry(selectedOptions, metadata.id).None? && IsChoice(metadata.typeName) {
        selectedOptions := selectedOptions[metadata.id := metadata.options];
      }
    }

    /** `ok` is false when the handler throws; the state is then unchanged. */
    method HandleOptionSelect(metadataId: string, option: string) returns (ok: bool)
      modifies this
      ensures var t := OptionToggled(old(State()), metadataId, option);
              ok == t.Some? && State() == (if ok then t.value else old(State())) && catalog == old(catalog)
    {
      var cur := Entry(selectedOptions, metadataId);
      if cur.None? {
        return false;
      }
      var next := if option in cur.value then RemoveAll(cur.value, option) else cur.value + [option];
      selectedOptions := selectedOptions[metadataId := Some(next)];
      ok := true;
    }

    /** `ok` is false when the handler throws; the state is then unchanged. */
    method HandleSelectAllOptions(metadataId: string) returns (ok: bool)
      modifies this
      ensures var t := AllOptionsSelected(old(State()), catalog[..], metadataId);
              ok == t.Some? && State() == (if ok then t.value else old(State())) && catalog == old(catalog)
    {
      var metadata := FindIndex(catalog[..], metadataId);
      if metadata.None? {
        return false;
      }
      selectedOptions := selectedOptions[metadataId := catalog[metadata.value].options];
      ok := true;
    }

    method HandleDeselectAllOptions(metadataId: string)
      modifies this
      ensures State() == AllOptionsDeselected(old(State()), metadataId) && catalog == old(catalog)
    {
      selectedOptions := selectedOptions[metadataId := Some([])];
    }

    /** The `forEach` that fills the new options object runs over the catalog
        in order. */
    method HandleSelectAllMetadata()
      modifies this
      ensures State() == AllMetadataSelected(old(State()), catalog[..]) && catalog == old(catalog)
    {
      selectedMetadata := Ids(catalog[..]);
      var newSelectedOptions: map<string, Option<seq<string>>> := map[];
      for i := 0 to catalog.Length
        invariant newSelectedOptions == ChoiceOptions(catalog[..i])
      {
        var field := catalog[i];
        assert catalog[..i + 1][..i] == catalog[..i];
        if IsChoice(field.typeName) {
          newSelectedOptions := newSelectedOptions[field.id := field.options];
        }
      }
      assert catalog[..catalog.Length] == catalog[..];
      selectedOptions := newSelectedOptions;
    }

    method HandleDeselectAllMetadata()
      modifies this
      ensures State() == AllMetadataDeselected(old(State())) && catalog == old(catalog)
    {
      selectedMetadata := [];
      selectedOptions := map[];
    }

    /** `validateMetadataSelection`: a blocked selection raises the warning
        dialog with the offending field names. */
    method ValidateMetadataSelection() returns (v: Validation)
      modifies this
      ensures v == Validate(catalog[..], old(selectedMetadata), old(selectedOptions))
      ensures State() == if v.Blocked? then old(State()).(showWarning := true, warningMessage := WarningText(v.names))
                         else old(State())
      ensures catalog == old(catalog)
    {
      v := Validate(catalog[..], selectedMetadata, selectedOptions);
      if v.Blocked? {
        warningMessage := WarningText(v.names);
        showWarning := true;
      }
    }

    /** `handleApplyMetadata`: validate, then run merge or create-new mode on the
        component's own catalog, then open the confirmation dialog. The run is
        not awaited: the dialog opens whatever the calls do, and `ok` is the
        outcome of the run. `existing` is the destination library's fields. */
    method HandleApplyMetadata(api: Api, existing: seq<DestField>) returns (v: Validation, ok: bool)
      modifies this, catalog, api
      ensures catalog == old(catalog)
      ensures v == Validate(old(catalog[..]), old(selectedMetadata), old(selectedOptions))
      ensures v != Passed ==>
                && catalog[..] == old(catalog[..]) && api.log == old(api.log) && api.calls == old(api.calls)
                && State() == (if v.Blocked? then old(State()).(showWarning := true, warningMessage := WarningText(v.names))
                               else old(State()))
      ensures v == Passed ==>
                && catalog[..] == Overwrite(old(catalog[..]), old(selectedMetadata), old(selectedOptions))
                && State() == old(State()).(showConfirmation := true)
                && var r := Execute(ApplyPlan(old(overwriteExisting), old(catalog[..]), old(selectedMetadata),
                                              old(selectedOptions), existing), api.rejects, old(api.calls));
                   api.log == old(api.log) + r.applied && api.calls == old(api.calls) + r.calls && ok == r.ok
    {
      v := ValidateMetadataSelection();
      if v != Passed {
        return v, false;
      }
      ValidatedApplyRunsThrough(catalog[..], selectedMetadata, selectedOptions, existing, overwriteExisting);
      assert selectedMetadata[..|selectedMetadata|] == selectedMetadata;
      if overwriteExisting {
        ok := CheckExistingMetadataFields(api, catalog, selectedMetadata, selectedOptions, existing);
      } else {
        ok := CreateNewMetadataFields(api, catalog, selectedMetadata, selectedOptions);
      }
      showConfirmation := true;
    }

    /** The apply with the helpers run on a copy of the catalog: the same calls,
        and the component's catalog keeps the library's full option lists. */
    method HandleApplyMetadataOnCopy(api: Api, existing: seq<DestField>) returns (v: Validation, ok: bool)
      modifies this, api
      ensures catalog == old(catalog) && catalog[..] == old(catalog[..])
      ensures v == Validate(catalog[..], old(selectedMetadata), old(selectedOptions))
      ensures v != Passed ==>
                && api.log == old(api.log) && api.calls == old(api.calls)
                && State() == (if v.Blocked? then old(State()).(showWarning := true, warningMessage := WarningText(v.names))
                               else old(State()))
      ensures v == Passed ==>
                && State() == old(State()).(showConfirmation := true)
                && var r := Execute(ApplyPlan(old(overwriteExisting), catalog[..], old(selectedMetadata),
                                              old(selectedOptions), existing), api.rejects, old(api.calls));
                   api.log == old(api.log) + r.applied && api.calls == old(api.calls) + r.calls && ok == r.ok
    {
      v := ValidateMetadataSelection();
      if v != Passed {
        return v, false;
      }
      var copy := new Field[catalog.Length](i requires 0 <= i < catalog.Length reads this, catalog => catalog[i]);
      assert copy[..] == catalog[..];
      if overwriteExisting {
        ok := CheckExistingMetadataFields(api, copy, selectedMetadata, selectedOptions, existing);
      } else {
        ok := CreateNewMetadataFields(api, copy, selectedMetadata, selectedOptions);
      }
      showConfirmation := true;
    }
  }
}
