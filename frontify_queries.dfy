/** The query helpers that read a library's field definitions, build the list
    of fields to copy, and copy them into the destination library either by
    always creating new fields or by merging into same-named ones. */
module FrontifyQueries {
  import opened Fields
  import opened Remote

  // ---------------------------------------------------------------------
  // Reading a library's fields (getMetadataFields)

  /** A custom metadata property as the library query returns it. For a choice
      type, `options` holds the option values, or None when the option list
      cannot be mapped (missing or null). */
  datatype RawField = RawField(id: string, name: string, typeName: string, options: Option<seq<string>>)

  /** One iteration of the reading loop: the normalised field, or None when the
      loop skips the property because its options cannot be mapped. */
  function NormalizeField(raw: RawField): (r: Option<Field>)
    ensures r.None? <==> IsChoice(raw.typeName) && raw.options.None?
    ensures r.Some? ==> && WellFormed(r.value)
                        && r.value.id == raw.id && r.value.name == raw.name && r.value.typeName == raw.typeName
                        && (IsChoice(raw.typeName) && |raw.options.value| > 0 ==> r.value.options == raw.options)
    ensures r.Some? ==> (r.value.options.Some? <==> IsChoice(raw.typeName) && |raw.options.value| > 0)
  {
    if IsChoice(raw.typeName) then
      match raw.options
      case None => None
      case Some(values) => Some(Field(raw.id, raw.name, raw.typeName, if |values| > 0 then Some(values) else None))
    else Some(Field(raw.id, raw.name, raw.typeName, None))
  }

  /** The shape the reader guarantees: options only on choice types, never an
      empty list (an empty list is left out altogether). */
  predicate WellFormed(f: Field) {
    f.options.Some? ==> IsChoice(f.typeName) && |f.options.value| > 0
  }

  /** The fields the reader lists for the given properties, in order. */
  function Normalized(raws: seq<RawField>): (fields: seq<Field>)
    ensures |fields| <= |raws|
    ensures forall f :: f in fields ==> WellFormed(f)
  {
    if raws == [] then []
    else
      var init := Normalized(raws[..|raws| - 1]);
      match NormalizeField(raws[|raws| - 1])
      case None => init
      case Some(f) => init + [f]
  }

  /** Every property the reader does not skip is listed. */
  lemma {:induction false} NormalizedKeeps(raws: seq<RawField>, i: nat)
    requires i < |raws| && NormalizeField(raws[i]).Some?
    ensures NormalizeField(raws[i]).value in Normalized(raws)
  {
    var n := |raws| - 1;
    if i < n {
      assert raws[..n][i] == raws[i];
      NormalizedKeeps(raws[..n], i);
    }
  }

  /** Every listed field is the normalisation of some property; in particular a
      choice-typed property whose options cannot be mapped is never listed. */
  lemma {:induction false} NormalizedFrom(raws: seq<RawField>, f: Field)
    requires f in Normalized(raws)
    ensures exists i :: 0 <= i < |raws| && NormalizeField(raws[i]) == Some(f)
  {
    var n := |raws| - 1;
    if f in Normalized(raws[..n]) {
      NormalizedFrom(raws[..n], f);
      var i :| 0 <= i < n && NormalizeField(raws[..n][i]) == Some(f);
      assert raws[i] == raws[..n][i];
    } else {
      assert NormalizeField(raws[n]) == Some(f);
    }
  }

  /** The reader works property by property, in order: the listing of two runs
      of properties is the listing of the first followed by that of the second,
      so each kept property appears once, in its own place. */
  lemma {:induction false} NormalizedAppend(a: seq<RawField>, b: seq<RawField>)
    ensures Normalized(a + b) == Normalized(a) + Normalized(b)
  {
    if b == [] {
      assert a + b == a;
    } else {
      var n := |b| - 1;
      assert (a + b)[..|a + b| - 1] == a + b[..n];
      assert (a + b)[|a + b| - 1] == b[n];
      NormalizedAppend(a, b[..n]);
    }
  }

  /** A single property is listed as its normalisation, or not at all. */
  lemma NormalizedSingle(r: RawField)
    ensures Normalized([r]) == match NormalizeField(r) case None => [] case Some(f) => [f]
  {
    assert [r][..0] == [];
  }

  /** The reading loop of `getMetadataFields`; None when the library is null. */
  method GetMetadataFields(library: Option<seq<RawField>>) returns (fields: Option<seq<Field>>)
    ensures library.None? ==> fields.None?
    ensures library.Some? ==> fields == Some(Normalized(library.value))
  {
    if library.None? {
      return None;
    }
    var raws := library.value;
    var metadataFields: seq<Field> := [];
    for i := 0 to |raws|
      invariant metadataFields == Normalized(raws[..i])
    {
      assert raws[..i + 1][..i] == raws[..i];
      var raw := raws[i];
      var options: seq<string> := [];
      if IsChoice(raw.typeName) {
        if raw.options.None? {
          continue;
        }
        options := raw.options.value;
      }
      var field := Field(raw.id, raw.name, raw.typeName, if |options| > 0 then Some(options) else None);
      metadataFields := metadataFields + [field];
    }
    assert raws[..|raws|] == raws;
    return Some(metadataFields);
  }

  // ---------------------------------------------------------------------
  // Option payloads (constructSelectFieldOptions)

  /** Each option string wrapped as `{value}`, same length and order. */
  function ConstructSelectFieldOptions(options: seq<string>): (r: seq<OptionInput>)
    ensures |r| == |options|
    ensures forall i :: 0 <= i < |r| ==> r[i].value == options[i]
  {
    seq(|options|, i requires 0 <= i < |options| => OptionInput(options[i]))
  }

  /** The option strings a payload carries. */
  function Values(inputs: seq<OptionInput>): (r: seq<string>)
    ensures |r| == |inputs|
  {
    if inputs == [] then [] else [inputs[0].value] + Values(inputs[1..])
  }

  /** Unwrapping a constructed payload gives back the option strings. */
  lemma {:induction false} ValuesOfConstructed(options: seq<string>)
    ensures Values(ConstructSelectFieldOptions(options)) == options
  {
    if options != [] {
      ValuesOfConstructed(options[1..]);
      assert ConstructSelectFieldOptions(options)[1..] == ConstructSelectFieldOptions(options[1..]);
    }
  }

  // ---------------------------------------------------------------------
  // Building the fields to copy (constructSelectedFields)

  /** `metadataFields.find(f => f.id === id)`, as the index of the first match. */
  function FindIndex(catalog: seq<Field>, id: string): (r: Option<nat>)
    ensures r.Some? ==> r.value < |catalog| && catalog[r.value].id == id
  {
    if catalog == [] then None
    else if catalog[0].id == id then Some(0)
    else match FindIndex(catalog[1..], id)
      case None => None
      case Some(k) => Some(k + 1)
  }

  /** The match found is the first one, and no match means no entry has the id. */
  lemma {:induction false} FindIndexFirst(catalog: seq<Field>, id: string)
    ensures var r := FindIndex(catalog, id);
            && (r.Some? ==> forall j :: 0 <= j < r.value ==> catalog[j].id != id)
            && (r.None? ==> forall j :: 0 <= j < |catalog| ==> catalog[j].id != id)
  {
    if catalog != [] && catalog[0].id != id {
      FindIndexFirst(catalog[1..], id);
      assert forall j :: 1 <= j < |catalog| ==> catalog[j] == catalog[1..][j - 1];
    }
  }

  /** Two catalogs with the same ids at the same positions. */
  predicate SameIds(a: seq<Field>, b: seq<Field>) {
    |a| == |b| && forall j :: 0 <= j < |a| ==> a[j].id == b[j].id
  }

  /** Lookup by id only looks at ids. */
  lemma {:induction false} FindIndexSameIds(a: seq<Field>, b: seq<Field>, id: string)
    requires SameIds(a, b)
    ensures FindIndex(a, id) == FindIndex(b, id)
  {
    if a != [] && a[0].id != id {
      assert SameIds(a[1..], b[1..]);
      FindIndexSameIds(a[1..], b[1..], id);
    }
  }

  /** A catalog entry as it is handed to the apply loop: a choice-typed field
      carries the chosen options for its id (possibly none); any other field is
      unchanged. */
  function Narrow(f: Field, chosen: map<string, Option<seq<string>>>): (r: Field)
    ensures r.id == f.id && r.name == f.name && r.typeName == f.typeName
    ensures r.options == if IsChoice(f.typeName) then Entry(chosen, f.id) else f.options
  {
    if IsChoice(f.typeName) then f.(options := Entry(chosen, f.id)) else f
  }

  /** The fields to copy, or None when some selected id is not in the catalog
      (reading `field.type` of undefined throws). */
  function SelectedFields(catalog: seq<Field>, selected: seq<string>, chosen: map<string, Option<seq<string>>>): (r: Option<seq<Field>>)
    ensures r.Some? ==> |r.value| == |selected|
  {
    if selected == [] then Some([])
    else
      var n := |selected| - 1;
      var init := SelectedFields(catalog, selected[..n], chosen);
      var found := FindIndex(catalog, selected[n]);
      if init.Some? && found.Some? then Some(init.value + [Narrow(catalog[found.value], chosen)])
      else None
  }

  /** One field per selected id, in selection order, the i-th being the first
      catalog entry with id `selected[i]`, narrowed to the chosen options; and
      a result exactly when every selected id is in the catalog. */
  lemma {:induction false} SelectedFieldsSpec(catalog: seq<Field>, selected: seq<string>, chosen: map<string, Option<seq<string>>>)
    ensures var r := SelectedFields(catalog, selected, chosen);
            && (r.Some? <==> forall i :: 0 <= i < |selected| ==> FindIndex(catalog, selected[i]).Some?)
            && (r.Some? ==> forall i :: 0 <= i < |selected| ==>
                 r.value[i] == Narrow(catalog[FindIndex(catalog, selected[i]).value], chosen))
  {
    if selected != [] {
      var n := |selected| - 1;
      SelectedFieldsSpec(catalog, selected[..n], chosen);
      assert forall i :: 0 <= i < n ==> selected[..n][i] == selected[i];
    }
  }

  /** How many selected ids are processed before the first one missing from the
      catalog (all of them when none is missing). */
  function FirstMissing(catalog: seq<Field>, selected: seq<string>): (k: nat)
    ensures k <= |selected|
  {
    if selected == [] || FindIndex(catalog, selected[0]).None? then 0
    else 1 + FirstMissing(catalog, selected[1..])
  }

  /** Every id before the first missing one is in the catalog. */
  lemma {:induction false} FirstMissingSpec(catalog: seq<Field>, selected: seq<string>)
    ensures var k := FirstMissing(catalog, selected);
            && (forall i :: 0 <= i < k ==> FindIndex(catalog, selected[i]).Some?)
            && (k < |selected| ==> FindIndex(catalog, selected[k]).None?)
  {
    if selected != [] && FindIndex(catalog, selected[0]).Some? {
      FirstMissingSpec(catalog, selected[1..]);
      assert forall i :: 1 <= i < |selected| ==> selected[i] == selected[1..][i - 1];
    }
  }

  /** The catalog after `field.options = selectedOptions[id]` has run for each of
      `ids` in turn, on the entry found for that id. */
  function Overwrite(catalog: seq<Field>, ids: seq<string>, chosen: map<string, Option<seq<string>>>): (c: seq<Field>)
    ensures |c| == |catalog|
  {
    if ids == [] then catalog
    else
      var n := |ids| - 1;
      var c := Overwrite(catalog, ids[..n], chosen);
      match FindIndex(c, ids[n])
      case None => c
      case Some(j) => c[j := Narrow(c[j], chosen)]
  }

  /** Overwriting never changes an id. */
  lemma {:induction false} OverwriteSameIds(catalog: seq<Field>, ids: seq<string>, chosen: map<string, Option<seq<string>>>)
    ensures SameIds(Overwrite(catalog, ids, chosen), catalog)
  {
    if ids != [] {
      OverwriteSameIds(catalog, ids[..|ids| - 1], chosen);
    }
  }

  /** In place: exactly the catalog entries found for the given ids are
      narrowed to the chosen options, and every other entry is untouched. */
  lemma {:induction false} OverwriteAt(catalog: seq<Field>, ids: seq<string>, chosen: map<string, Option<seq<string>>>, j: nat)
    requires j < |catalog|
    ensures Overwrite(catalog, ids, chosen)[j] ==
      if catalog[j].id in ids && FindIndex(catalog, catalog[j].id) == Some(j) then Narrow(catalog[j], chosen) else catalog[j]
  {
    if ids != [] {
      var n := |ids| - 1;
      var c := Overwrite(catalog, ids[..n], chosen);
      OverwriteAt(catalog, ids[..n], chosen, j);
      OverwriteSameIds(catalog, ids[..n], chosen);
      FindIndexSameIds(c, catalog, ids[n]);
      assert ids == ids[..n] + [ids[n]];
      assert catalog[j].id in ids <==> catalog[j].id in ids[..n] || catalog[j].id == ids[n];
    }
  }

  /** One iteration of the construction loop on the catalog left by the earlier
      ones. */
  lemma ConstructStep(original: seq<Field>, selected: seq<string>, i: nat, chosen: map<string, Option<seq<string>>>)
    requires i < |selected|
    requires SelectedFields(original, selected[..i], chosen).Some?
    requires FindIndex(original, selected[i]).Some?
    ensures var c := Overwrite(original, selected[..i], chosen);
            var j := FindIndex(original, selected[i]).value;
            && FindIndex(c, selected[i]) == Some(j)
            && Narrow(c[j], chosen) == Narrow(original[j], chosen)
            && Overwrite(original, selected[..i + 1], chosen) == c[j := Narrow(c[j], chosen)]
            && SelectedFields(original, selected[..i + 1], chosen) ==
                 Some(SelectedFields(original, selected[..i], chosen).value + [Narrow(original[j], chosen)])
  {
    var c := Overwrite(original, selected[..i], chosen);
    var j := FindIndex(original, selected[i]).value;
    OverwriteSameIds(original, selected[..i], chosen);
    FindIndexSameIds(c, original, selected[i]);
    OverwriteAt(original, selected[..i], chosen, j);
    assert selected[..i + 1][..i] == selected[..i];
  }

  /** Walking the selection in order, the first missing id is where it stops. */
  lemma FirstMissingAt(catalog: seq<Field>, selected: seq<string>, i: nat)
    requires i < |selected| && i <= FirstMissing(catalog, selected)
    ensures FindIndex(catalog, selected[i]).None? <==> FirstMissing(catalog, selected) == i
  {
    FirstMissingSpec(catalog, selected);
  }

  /** A selected id missing from the catalog yields no fields. */
  lemma SelectedFieldsMissing(catalog: seq<Field>, selected: seq<string>, i: nat, chosen: map<string, Option<seq<string>>>)
    requires i < |selected| && FindIndex(catalog, selected[i]).None?
    ensures SelectedFields(catalog, selected, chosen).None?
  {
    SelectedFieldsSpec(catalog, selected, chosen);
  }

  /** `field.options = selectedOptions[id]` on a choice-typed catalog entry. */
  method NarrowInPlace(catalog: array<Field>, j: nat, chosen: map<string, Option<seq<string>>>) returns (field: Field)
    requires j < catalog.Length
    modifies catalog
    ensures field == Narrow(old(catalog[j]), chosen)
    ensures catalog[..] == old(catalog[..])[j := field]
  {
    field := catalog[j];
    if IsChoice(field.typeName) {
      field := field.(options := Entry(chosen, field.id));
      catalog[j] := field;
    }
  }

  /** `constructSelectedFields`: collects the fields to copy and, as a side
      effect, overwrites the options of the catalog entries themselves. When a
      selected id is missing it throws after the entries before it were
      overwritten. */
  method ConstructSelectedFields(catalog: array<Field>, selected: seq<string>, chosen: map<string, Option<seq<string>>>)
    returns (fields: Option<seq<Field>>)
    modifies catalog
    ensures fields == SelectedFields(old(catalog[..]), selected, chosen)
    ensures catalog[..] == Overwrite(old(catalog[..]), selected[..FirstMissing(old(catalog[..]), selected)], chosen)
  {
    ghost var original := catalog[..];
    var fs: seq<Field> := [];
    for i := 0 to |selected|
      invariant i <= FirstMissing(original, selected)
      invariant catalog[..] == Overwrite(original, selected[..i], chosen)
      invariant SelectedFields(original, selected[..i], chosen) == Some(fs)
    {
      ghost var c := catalog[..];
      OverwriteSameIds(original, selected[..i], chosen);
      FindIndexSameIds(c, original, selected[i]);
      var found := FindIndex(catalog[..], selected[i]);
      FirstMissingAt(original, selected, i);
      if found.None? {
        SelectedFieldsMissing(original, selected, i, chosen);
        return None;
      }
      var j := found.value;
      ConstructStep(original, selected, i, chosen);
      var field := NarrowInPlace(catalog, j, chosen);
      fs := fs + [field];
    }
    assert selected[..|selected|] == selected;
    fields := Some(fs);
  }

  /** Running the construction a second time, on the catalog the first run left
      behind, changes nothing and yields the same fields. */
  lemma ConstructTwice(catalog: seq<Field>, selected: seq<string>, chosen: map<string, Option<seq<string>>>)
    requires SelectedFields(catalog, selected, chosen).Some?
    ensures FirstMissing(catalog, selected) == |selected|
    ensures var c := Overwrite(catalog, selected, chosen);
            && SelectedFields(c, selected, chosen) == SelectedFields(catalog, selected, chosen)
            && FirstMissing(c, selected) == |selected|
            && Overwrite(c, selected, chosen) == c
  {
    var c := Overwrite(catalog, selected, chosen);
    OverwriteSameIds(catalog, selected, chosen);
    FirstMissingSpec(catalog, selected);
    FirstMissingSpec(c, selected);
    SelectedFieldsSpec(catalog, selected, chosen);
    SelectedFieldsSpec(c, selected, chosen);
    forall i | 0 <= i < |selected|
      ensures FindIndex(c, selected[i]) == FindIndex(catalog, selected[i])
    {
      FindIndexSameIds(c, catalog, selected[i]);
    }
    forall j | 0 <= j < |c|
      ensures Narrow(c[j], chosen) == Narrow(catalog[j], chosen)
    {
      OverwriteAt(catalog, selected, chosen, j);
    }
    var a, b := SelectedFields(c, selected, chosen), SelectedFields(catalog, selected, chosen);
    assert a.value == b.value;
    var c2 := Overwrite(c, selected, chosen);
    forall j | 0 <= j < |c|
      ensures c2[j] == c[j]
    {
      OverwriteAt(c, selected, chosen, j);
      OverwriteAt(catalog, selected, chosen, j);
      FindIndexSameIds(c, catalog, c[j].id);
    }
    assert c2 == c;
  }

  // ---------------------------------------------------------------------
  // Create-new mode (createNewMetadataFields, createNewMetadataField)

  /** The request for one field: a create carrying, for a choice type only, its
      options wrapped as `{value}`; a TypeError when a choice-typed field has no
      options to wrap. */
  function CreateStep(f: Field): (r: Step)
    ensures r == Crash <==> IsChoice(f.typeName) && f.options.None?
    ensures r != Crash ==> r.Issue?
    ensures r.Issue? ==> && r.action.Create? && r.action.name == f.name && r.action.typeName == f.typeName
                         && (r.action.typeOptions.Some? <==> IsChoice(f.typeName))
  {
    if IsChoice(f.typeName) then
      match f.options
      case None => Crash
      case Some(o) => Issue(Create(f.name, f.typeName, Some(ConstructSelectFieldOptions(o))))
    else Issue(Create(f.name, f.typeName, None))
  }

  function StepsFor(fields: seq<Field>, decide: Field -> Step): (steps: seq<Step>)
    ensures |steps| == |fields|
  {
    seq(|fields|, i requires 0 <= i < |fields| => decide(fields[i]))
  }

  /** The calls create-new mode makes, in order: a crash before any call when
      a selected id is missing, otherwise one create per selected field. */
  function CreateNewPlan(catalog: seq<Field>, selected: seq<string>, chosen: map<string, Option<seq<string>>>): (r: seq<Step>)
    ensures r == [Crash] || |r| == |selected|
  {
    match SelectedFields(catalog, selected, chosen)
    case None => [Crash]
    case Some(fs) => StepsFor(fs, CreateStep)
  }

  /** When every field is creatable, create-new mode intends exactly one create
      per field, in field order, with the field's own name and type and, for a
      choice type, its chosen options wrapped one to one. */
  lemma {:induction false} CreateStepsIntended(fs: seq<Field>)
    requires forall i :: 0 <= i < |fs| ==> IsChoice(fs[i].typeName) ==> fs[i].options.Some?
    ensures !Crashes(StepsFor(fs, CreateStep))
    ensures |Intended(StepsFor(fs, CreateStep))| == |fs|
    ensures forall i :: 0 <= i < |fs| ==>
      (Intended(StepsFor(fs, CreateStep))[i] ==
        Create(fs[i].name, fs[i].typeName,
               if IsChoice(fs[i].typeName) then Some(ConstructSelectFieldOptions(fs[i].options.value)) else None))
  {
    var steps := StepsFor(fs, CreateStep);
    if fs != [] {
      assert steps[1..] == StepsFor(fs[1..], CreateStep);
      CreateStepsIntended(fs[1..]);
      assert Intended(steps) == [steps[0].action] + Intended(steps[1..]);
      forall i | 0 <= i < |steps| ensures steps[i] != Crash {
        assert steps[i] == CreateStep(fs[i]);
      }
    }
  }

  /** Create-new mode on a selection whose choice-typed fields all have chosen
      options: one create per selected id, in selection order, named and typed
      as the catalog entry for that id, carrying the chosen options. */
  lemma CreateNewPlanShape(catalog: seq<Field>, selected: seq<string>, chosen: map<string, Option<seq<string>>>)
    requires forall i :: 0 <= i < |selected| ==> FindIndex(catalog, selected[i]).Some?
    requires forall i :: 0 <= i < |selected| ==>
      IsChoice(catalog[FindIndex(catalog, selected[i]).value].typeName) ==> Entry(chosen, selected[i]).Some?
    ensures !Crashes(CreateNewPlan(catalog, selected, chosen))
    ensures |Intended(CreateNewPlan(catalog, selected, chosen))| == |selected|
    ensures forall i :: 0 <= i < |selected| ==>
      var f := catalog[FindIndex(catalog, selected[i]).value];
      Intended(CreateNewPlan(catalog, selected, chosen))[i] ==
        Create(f.name, f.typeName, if IsChoice(f.typeName) then Some(ConstructSelectFieldOptions(Entry(chosen, selected[i]).value)) else None)
  {
    SelectedFieldsSpec(catalog, selected, chosen);
    var fs := SelectedFields(catalog, selected, chosen).value;
    CreateStepsIntended(fs);
  }

  /** The apply loop shared by both modes: for each field in turn, decide what
      to do and await that call before the next; a rejected call or a TypeError
      ends the loop. */
  method ApplyEach(api: Api, fields: seq<Field>, decide: Field -> Step) returns (ok: bool)
    modifies api
    ensures var r := Execute(StepsFor(fields, decide), api.rejects, old(api.calls));
            api.log == old(api.log) + r.applied && api.calls == old(api.calls) + r.calls && ok == r.ok
  {
    ghost var steps := StepsFor(fields, decide);
    ghost var first := api.calls;
    ghost var done: seq<Action> := [];
    ghost var used: nat := 0;
    ok := true;
    var i := 0;
    while i < |fields| && ok
      invariant 0 <= i <= |fields|
      invariant api.log == old(api.log) + done && api.calls == first + used
      invariant Execute(steps[..i], api.rejects, first) == RunResult(done, used, ok)
    {
      var step := decide(fields[i]);
      assert steps[..i + 1] == steps[..i] + [step];
      ExecuteAppend(steps[..i], [step], api.rejects, first);
      ghost var one := Execute([step], api.rejects, api.calls);
      ok := Perform(api, step);
      done, used := done + one.applied, used + one.calls;
      i := i + 1;
    }
    ExecuteAppend(steps[..i], steps[i..], api.rejects, first);
    assert steps[..i] + steps[i..] == steps;
  }

  /** `createNewMetadataFields`: construct the fields, then one create request
      per field, in order, with no lookup against the destination. */
  method CreateNewMetadataFields(api: Api, catalog: array<Field>, selected: seq<string>, chosen: map<string, Option<seq<string>>>)
    returns (ok: bool)
    modifies api, catalog
    ensures catalog[..] == Overwrite(old(catalog[..]), selected[..FirstMissing(old(catalog[..]), selected)], chosen)
    ensures var r := Execute(CreateNewPlan(old(catalog[..]), selected, chosen), api.rejects, old(api.calls));
            api.log == old(api.log) + r.applied && api.calls == old(api.calls) + r.calls && ok == r.ok
  {
    var fields := ConstructSelectedFields(catalog, selected, chosen);
    if fields.None? {
      return false;
    }
    ok := ApplyEach(api, fields.value, CreateStep);
  }

  // ---------------------------------------------------------------------
  // Merge mode (checkExistingMetadataFields)

  /** The existing-field index: destination name to destination field, filled in
      destination order so that a later field overwrites an earlier namesake. */
  function IndexOf(existing: seq<DestField>): map<string, DestField> {
    if existing == [] then map[]
    else
      var last := existing[|existing| - 1];
      IndexOf(existing[..|existing| - 1])[last.name := last]
  }

  /** The index has one key per destination name and nothing else. */
  lemma {:induction false} IndexKeys(existing: seq<DestField>)
    ensures IndexOf(existing).Keys == set e | e in existing :: e.name
  {
    if existing != [] {
      var n := |existing| - 1;
      IndexKeys(existing[..n]);
      assert existing == existing[..n] + [existing[n]];
    }
  }

  /** Each index entry is a destination field carrying that very name. */
  lemma {:induction false} IndexEntries(existing: seq<DestField>, name: string)
    requires name in IndexOf(existing)
    ensures IndexOf(existing)[name] in existing && IndexOf(existing)[name].name == name
  {
    var n := |existing| - 1;
    if existing[n].name != name {
      IndexEntries(existing[..n], name);
    }
  }

  /** Last wins: a destination field with no later namesake is the one indexed
      under its name. */
  lemma {:induction false} IndexLastWins(existing: seq<DestField>, j: nat)
    requires j < |existing|
    requires forall k :: j < k < |existing| ==> existing[k].name != existing[j].name
    ensures existing[j].name in IndexOf(existing) && IndexOf(existing)[existing[j].name] == existing[j]
  {
    var n := |existing| - 1;
    if j < n {
      assert existing[..n][j] == existing[j];
      IndexLastWins(existing[..n], j);
    }
  }

  /** The index-filling loop. */
  method BuildIndex(existing: seq<DestField>) returns (index: map<string, DestField>)
    ensures index == IndexOf(existing)
  {
    index := map[];
    for i := 0 to |existing|
      invariant index == IndexOf(existing[..i])
    {
      assert existing[..i + 1][..i] == existing[..i];
      index := index[existing[i].name := existing[i]];
    }
    assert existing[..|existing|] == existing;
  }

  /** The decision for one field given the destination field of the same name,
      if any: create on no match or a type mismatch, nothing for the same
      non-choice type, and for the same choice type an add-options call with
      the chosen options not yet present, or nothing when there are none. */
  function MergeWith(f: Field, namesake: Option<DestField>): (r: Step)
    ensures r == Crash ==> IsChoice(f.typeName) && f.options.None?
    ensures r.Issue? && r.action.Create? ==> r == CreateStep(f)
    ensures r.Issue? && r.action.AddOptions? ==>
              && namesake.Some? && namesake.value.typeName == f.typeName && IsChoice(f.typeName)
              && r.action.propertyId == namesake.value.id
  {
    match namesake
    case None => CreateStep(f)
    case Some(e) =>
      if e.typeName != f.typeName then CreateStep(f)
      else if !IsChoice(f.typeName) then Skip
      else match f.options
        case None => Crash
        case Some(chosen) =>
          var diff := Missing(chosen, e.options);
          if |diff| > 0 then Issue(AddOptions(e.id, ConstructSelectFieldOptions(diff))) else Skip
  }

  /** The decision for one field in merge mode. The source name is trimmed
      before lookup; the index keys are not. */
  function MergeStep(f: Field, index: map<string, DestField>): (r: Step)
    ensures Trim(f.name) !in index ==> r == CreateStep(f)
  {
    var key := Trim(f.name);
    MergeWith(f, if key in index then Some(index[key]) else None)
  }

  /** The decision for one field against the destination list: a field whose
      trimmed name no destination field has is created anew; otherwise it is
      decided against the last destination field of that name, the one the
      index keeps. */
  lemma MergeAgainstDestination(f: Field, existing: seq<DestField>)
    ensures (forall k :: 0 <= k < |existing| ==> existing[k].name != Trim(f.name)) ==>
              MergeStep(f, IndexOf(existing)) == CreateStep(f)
    ensures forall j :: 0 <= j < |existing| && existing[j].name == Trim(f.name)
                        && (forall k :: j < k < |existing| ==> existing[k].name != Trim(f.name)) ==>
              MergeStep(f, IndexOf(existing)) == MergeWith(f, Some(existing[j]))
  {
    var key := Trim(f.name);
    IndexKeys(existing);
    if key in IndexOf(existing) {
      assert key in set e | e in existing :: e.name;
      var e :| e in existing && e.name == key;
      var k :| 0 <= k < |existing| && existing[k] == e;
    }
    forall j | 0 <= j < |existing| && existing[j].name == key
               && (forall k :: j < k < |existing| ==> existing[k].name != key)
      ensures MergeStep(f, IndexOf(existing)) == MergeWith(f, Some(existing[j]))
    {
      IndexLastWins(existing, j);
    }
  }

  /** When each merge outcome happens, given the destination field of the same
      name: a type mismatch creates the field anew; the same non-choice type does
      nothing; the same choice type throws without options, does nothing when
      every chosen option is already present, and otherwise adds options. */
  lemma MergeOutcome(f: Field, e: DestField)
    ensures e.typeName != f.typeName ==> MergeWith(f, Some(e)) == CreateStep(f)
    ensures e.typeName == f.typeName && !IsChoice(f.typeName) ==> MergeWith(f, Some(e)) == Skip
    ensures e.typeName == f.typeName && IsChoice(f.typeName) && f.options.None? ==> MergeWith(f, Some(e)) == Crash
    ensures e.typeName == f.typeName && IsChoice(f.typeName) && f.options.Some? ==>
              && (MergeWith(f, Some(e)) == Skip <==> forall x :: x in f.options.value ==> x in e.options)
              && (MergeWith(f, Some(e)) != Skip ==> MergeWith(f, Some(e)).Issue? && MergeWith(f, Some(e)).action.AddOptions?)
  {
    if e.typeName == f.typeName && IsChoice(f.typeName) && f.options.Some? {
      var diff := Missing(f.options.value, e.options);
      if |diff| > 0 {
        assert diff[0] in diff;
      }
    }
  }

  /** The merge is additive and settles: an add-options call targets the
      matched destination field and carries exactly the chosen options not yet
      present, in chosen order; once they are appended to that field, the
      same decision does nothing. */
  lemma MergeSettles(f: Field, e: DestField)
    requires MergeWith(f, Some(e)).Issue? && MergeWith(f, Some(e)).action.AddOptions?
    ensures var added := Values(MergeWith(f, Some(e)).action.added);
            && f.options.Some?
            && MergeWith(f, Some(e)).action.propertyId == e.id
            && added == Missing(f.options.value, e.options)
            && (forall x :: x in added <==> x in f.options.value && x !in e.options)
            && MergeWith(f, Some(e.(options := e.options + added))) == Skip
  {
    var diff := Missing(f.options.value, e.options);
    ValuesOfConstructed(diff);
    MissingAfterAdding(f.options.value, e.options);
  }

  /** Asymmetric trimming: a destination field whose own name has surrounding
      whitespace is never matched, so when every would-be match is padded the
      field is created anew. */
  lemma PaddedNamesNeverMatch(f: Field, existing: seq<DestField>)
    requires forall k :: 0 <= k < |existing| && Trim(existing[k].name) == Trim(f.name) ==> !IsTrimmed(existing[k].name)
    ensures MergeStep(f, IndexOf(existing)) == CreateStep(f)
  {
    var key := Trim(f.name);
    if key in IndexOf(existing) {
      IndexEntries(existing, key);
      var e := IndexOf(existing)[key];
      var k :| 0 <= k < |existing| && existing[k] == e;
      TrimOfTrimmed(key);
    }
  }

  /** The calls merge mode makes, in order: a crash before any call when a
      selected id is missing; create-new behaviour when the destination has no
      fields; otherwise the merge decision for each field against the index. */
  function MergePlan(catalog: seq<Field>, selected: seq<string>, chosen: map<string, Option<seq<string>>>,
                     existing: seq<DestField>): (r: seq<Step>)
    ensures |existing| == 0 ==> r == CreateNewPlan(catalog, selected, chosen)
  {
    match SelectedFields(catalog, selected, chosen)
    case None => [Crash]
    case Some(fs) =>
      if |existing| == 0 then StepsFor(fs, CreateStep)
      else StepsFor(fs, f => MergeStep(f, IndexOf(existing)))
  }

  /** `checkExistingMetadataFields`: construct the fields, read the destination
      (`existing`), and either fall back to create-new mode (which constructs the
      fields a second time) or merge field by field. */
  method CheckExistingMetadataFields(api: Api, catalog: array<Field>, selected: seq<string>,
                                     chosen: map<string, Option<seq<string>>>, existing: seq<DestField>)
    returns (ok: bool)
    modifies api, catalog
    ensures catalog[..] == Overwrite(old(catalog[..]), selected[..FirstMissing(old(catalog[..]), selected)], chosen)
    ensures var r := Execute(MergePlan(old(catalog[..]), selected, chosen, existing), api.rejects, old(api.calls));
            api.log == old(api.log) + r.applied && api.calls == old(api.calls) + r.calls && ok == r.ok
  {
    ghost var original := catalog[..];
    var fields := ConstructSelectedFields(catalog, selected, chosen);
    if fields.None? {
      return false;
    }
    if |existing| > 0 {
      var existingFieldsMap := BuildIndex(existing);
      ok := ApplyEach(api, fields.value, f => MergeStep(f, existingFieldsMap));
    } else {
      ConstructTwice(original, selected, chosen);
      assert selected[..|selected|] == selected;
      ok := CreateNewMetadataFields(api, catalog, selected, chosen);
    }
  }
}
