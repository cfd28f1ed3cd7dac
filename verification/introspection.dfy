/** The registry adapter and the field/relation extractor of
    `introspection.py`: which apps belong to the project, the lookups by
    label and name, and the listings of apps, models, forward fields and
    reverse relations. */
module Introspection {
  import opened Wrappers
  import opened Text
  import opened I18n
  import opened Sorting
  import opened Registry
  import opened Descriptions
  import opened Lists

  /** `_related_target`: identity of a related model, recomputed on use. */
  datatype RelationTarget = RelationTarget(appLabel: string, modelName: string, fullLabel: string)

  /** One entry of `list_project_apps` / `get_project_app`. */
  datatype AppEntry = AppEntry(
    appLabel: string, name: string, moduleName: string,
    description: string, hasDescription: bool, modelsCount: nat)

  /** One entry of `list_app_models`. */
  datatype ModelEntry = ModelEntry(
    name: string, modelName: string, dbTable: string, description: string, fieldsCount: nat)

  /** One entry of `_forward_fields`. */
  datatype FieldEntry = FieldEntry(
    name: string, fieldType: string, description: string, hasDescription: bool,
    isRelation: bool, relatedTarget: Option<RelationTarget>)

  /** One entry of `_reverse_relations`. */
  datatype RelationEntry = RelationEntry(
    name: string, relationType: string, description: string,
    sourceFieldName: string, sourceModelLabel: string, sourceTarget: RelationTarget)

  /** The result of `get_model_details`. */
  datatype ModelDetail = ModelDetail(
    appLabel: string, modelName: string, modelLabel: string, dbTable: string,
    description: string, fields: seq<FieldEntry>, reverseRelations: seq<RelationEntry>)

  /** `LookupError` with its translated message, or the exception a broken
      translation raises while its placeholders are filled in. */
  datatype Error = Lookup(message: string) | Formatting(cause: FormatError)

  /** "[App not found: %(app_label)s]" */
  const APP_NOT_FOUND: string := "[App not found: " + Placeholder("app_label") + "]"
  /** "[Model not found: %(app_label)s.%(model_name)s]" */
  const MODEL_NOT_FOUND: string := "[Model not found: " + Placeholder("app_label") + "." + Placeholder("model_name") + "]"
  /** "[Field %(field_name)s of model %(model_label)s]" */
  const RELATION_FALLBACK: string := "[Field " + Placeholder("field_name") + " of model " + Placeholder("model_label") + "]"

  /* ---------------------------------------------------------------- apps */

  /** `_is_project_path`: the resolved path lies under the project root,
      i.e. `Path.relative_to(root)` succeeds. */
  function IsProjectPath(root: seq<string>, path: seq<string>): (r: bool)
    ensures r <==> exists rest :: path == root + rest
  {
    if |root| <= |path| then
      assert path == path[..|root|] + path[|root|..];
      path[..|root|] == root
    else false
  }

  /** The comprehension of `_project_app_configs`: the registry's apps
      under the project root, each as often as the registry lists it, in
      registry order (a standalone fact about every filter, proved as
      `Lists.FilterConcat`). */
  function ProjectOnly(apps: seq<App>, root: seq<string>): (r: seq<App>)
    ensures forall a :: a in r <==> a in apps && IsProjectPath(root, a.path)
    ensures forall a :: multiset(r)[a] == if IsProjectPath(root, a.path) then multiset(apps)[a] else 0
  {
    Filter(apps, (a: App) => IsProjectPath(root, a.path))
  }

  predicate AppLabelLe(a: App, b: App) {
    StrLe(a.appLabel, b.appLabel)
  }

  lemma StrLeFacts()
    ensures forall a, b :: StrLe(a, b) || StrLe(b, a)
    ensures forall a, b, c :: StrLe(a, b) && StrLe(b, c) ==> StrLe(a, c)
    ensures forall a :: StrLe(a, a)
  {
    forall a, b
      ensures StrLe(a, b) || StrLe(b, a)
    {
      StrLeTotal(a, b);
    }
    forall a, b, c | StrLe(a, b) && StrLe(b, c)
      ensures StrLe(a, c)
    {
      StrLeTransitive(a, b, c);
    }
    forall a
      ensures StrLe(a, a)
    {
      StrLeReflexive(a);
    }
  }

  lemma AppLabelOrder()
    ensures TotalPreorder(AppLabelLe)
  {
    StrLeFacts();
  }

  /** `_project_app_configs`: the registry's apps under the project root,
      sorted by label. */
  function ProjectApps(reg: Registry): (r: seq<App>)
    ensures forall a :: a in r <==> a in reg.apps && IsProjectPath(reg.projectRoot, a.path)
    ensures forall a :: multiset(r)[a] == if IsProjectPath(reg.projectRoot, a.path) then multiset(reg.apps)[a] else 0
    ensures SortedBy(r, AppLabelLe)
  {
    var own := ProjectOnly(reg.apps, reg.projectRoot);
    SortKeepsMembers(own, AppLabelLe);
    AppLabelOrder();
    SortSorted(own, AppLabelLe);
    Sort(own, AppLabelLe)
  }

  /** Index of the first app at or after `from` with the given label. */
  function IndexOfLabel(apps: seq<App>, wanted: string, from: nat): (r: Option<nat>)
    requires from <= |apps|
    ensures r.Some? ==> from <= r.value < |apps| && apps[r.value].appLabel == wanted
                        && forall j :: from <= j < r.value ==> apps[j].appLabel != wanted
    ensures r.None? ==> forall j :: from <= j < |apps| ==> apps[j].appLabel != wanted
    decreases |apps| - from
  {
    if from == |apps| then None
    else if apps[from].appLabel == wanted then Some(from)
    else IndexOfLabel(apps, wanted, from + 1)
  }

  /** The error a failed lookup raises: a `LookupError` carrying the
      translated message, unless filling in the message itself fails. */
  function NotFound(gettext: string -> string, message: string, kwargs: map<string, string>): (e: Error)
    ensures Tr(gettext, message, kwargs).Success? ==> e == Lookup(Tr(gettext, message, kwargs).value)
    ensures Tr(gettext, message, kwargs).Failure? ==> e == Formatting(Tr(gettext, message, kwargs).error)
  {
    match Tr(gettext, message, kwargs)
    case Success(text) => Lookup(text)
    case Failure(cause) => Formatting(cause)
  }

  /** `_find_project_app_config`: the project app with exactly this label
      (the first in label order), else `LookupError`. */
  function FindProjectApp(reg: Registry, wanted: string, gettext: string -> string): (r: Result<App, Error>)
    ensures r.Success? <==> exists a :: a in reg.apps && IsProjectPath(reg.projectRoot, a.path) && a.appLabel == wanted
    ensures r.Success? ==> r.value in reg.apps && IsProjectPath(reg.projectRoot, r.value.path)
                           && r.value.appLabel == wanted
    ensures r.Failure? ==> r.error == NotFound(gettext, APP_NOT_FOUND, map["app_label" := wanted])
  {
    var apps := ProjectApps(reg);
    match IndexOfLabel(apps, wanted, 0)
    case Some(i) => Success(apps[i])
    case None => Failure(NotFound(gettext, APP_NOT_FOUND, map["app_label" := wanted]))
  }

  /** With the identity catalogue the message names the missing label. */
  lemma AppNotFoundMessage(wanted: string)
    ensures NotFound(Untranslated, APP_NOT_FOUND, map["app_label" := wanted]) == Lookup("App not found: " + wanted)
  {
    assert "[App not found: " == "[" + "App not found: ";
    TrOnePlaceholder(Untranslated, APP_NOT_FOUND, "App not found: ", "app_label", map["app_label" := wanted]);
  }

  function AppEntryOf(app: App, gettext: string -> string): (e: AppEntry)
    ensures e.appLabel == app.appLabel && e.name == StripBrackets(app.verboseName) && e.moduleName == app.name
    ensures e.description == AppDescription(app, gettext)
    ensures e.hasDescription <==> e.description != NoDescription(gettext)
    ensures e.modelsCount == |app.models|
  {
    var description := AppDescription(app, gettext);
    AppEntry(app.appLabel, StripBrackets(app.verboseName), app.name, description,
             description != NoDescription(gettext), |app.models|)
  }

  predicate AppNameLe(a: AppEntry, b: AppEntry) {
    StrLe(Lower(a.name), Lower(b.name))
  }

  predicate AppEntryLabelLe(a: AppEntry, b: AppEntry) {
    StrLe(a.appLabel, b.appLabel)
  }

  lemma AppNameOrder()
    ensures TotalPreorder(AppNameLe)
  {
    StrLeFacts();
  }

  /** `list_project_apps`: one entry per project app, sorted by lower-cased
      name; entries whose names tie stay in label order, because the sort
      is stable and its input is sorted by label. */
  function ListProjectApps(reg: Registry, gettext: string -> string): (r: seq<AppEntry>)
    ensures forall e :: e in r <==> exists a :: a in reg.apps && IsProjectPath(reg.projectRoot, a.path)
                                                && e == AppEntryOf(a, gettext)
    ensures |r| == |ProjectApps(reg)|
    ensures multiset(r) == multiset(Map(ProjectApps(reg), (a: App) => AppEntryOf(a, gettext)))
    ensures SortedBy(r, AppNameLe)
    ensures forall i, j :: 0 <= i < j < |r| && Lower(r[i].name) == Lower(r[j].name)
              ==> StrLe(r[i].appLabel, r[j].appLabel)
  {
    var apps := ProjectApps(reg);
    var entries := Map(apps, (a: App) => AppEntryOf(a, gettext));
    AppEntriesMembers(reg, gettext);
    AppEntriesOrder(apps, entries);
    SortKeepsLength(entries, AppNameLe);
    Sort(entries, AppNameLe)
  }

  lemma AppEntriesMembers(reg: Registry, gettext: string -> string)
    ensures var r := Sort(Map(ProjectApps(reg), (a: App) => AppEntryOf(a, gettext)), AppNameLe);
      forall e :: e in r <==> exists a :: a in reg.apps && IsProjectPath(reg.projectRoot, a.path)
                                        && e == AppEntryOf(a, gettext)
  {
    SortedMapMembers(ProjectApps(reg), (a: App) => a in reg.apps && IsProjectPath(reg.projectRoot, a.path),
                     (a: App) => AppEntryOf(a, gettext), AppNameLe);
  }

  lemma AppEntriesOrder(apps: seq<App>, entries: seq<AppEntry>)
    requires SortedBy(apps, AppLabelLe)
    requires |entries| == |apps| && forall i :: 0 <= i < |apps| ==> entries[i].appLabel == apps[i].appLabel
    ensures var r := Sort(entries, AppNameLe);
      && SortedBy(r, AppNameLe)
      && (forall i, j :: 0 <= i < j < |r| && Lower(r[i].name) == Lower(r[j].name)
            ==> StrLe(r[i].appLabel, r[j].appLabel))
  {
    AppNameOrder();
    SortSorted(entries, AppNameLe);
    assert SortedBy(entries, AppEntryLabelLe);
    SortThenBy(entries, AppNameLe, AppEntryLabelLe);
    StrLeFacts();
  }

  /** `get_project_app`: the entry of the project app with this label, the
      same entry `list_project_apps` shows for it. */
  function GetProjectApp(reg: Registry, wanted: string, gettext: string -> string): (r: Result<AppEntry, Error>)
    ensures r.Success? <==> FindProjectApp(reg, wanted, gettext).Success?
    ensures r.Failure? ==> r.error == FindProjectApp(reg, wanted, gettext).error
    ensures r.Success? ==> r.value.appLabel == wanted && r.value in ListProjectApps(reg, gettext)
  {
    var app :- FindProjectApp(reg, wanted, gettext);
    assert AppEntryOf(app, gettext) in ListProjectApps(reg, gettext);
    Success(AppEntryOf(app, gettext))
  }

  /* -------------------------------------------------------------- fields */

  /** Kept by `_forward_fields`: not an auto-created, non-concrete entry. */
  predicate IsForward(f: Field) {
    !(f.autoCreated && !f.concrete)
  }

  /** `[field for field in fields if not (field.auto_created and not
      field.concrete)]`: each forward field as often as the model lists
      it, in the model's order. */
  function ForwardOnly(fields: seq<Field>): (r: seq<Field>)
    ensures forall f :: f in r <==> f in fields && IsForward(f)
    ensures forall f :: multiset(r)[f] == if IsForward(f) then multiset(fields)[f] else 0
  {
    Filter(fields, IsForward)
  }

  function TargetOf(ref: ModelRef): (t: RelationTarget)
    ensures t.appLabel == ref.appLabel && t.modelName == ref.modelName && t.fullLabel == ref.fullLabel
  {
    RelationTarget(ref.appLabel, ref.modelName, ref.fullLabel)
  }

  /** `_related_target`: present exactly when the related model resolves. */
  function RelatedTarget(related: Option<ModelRef>): (r: Option<RelationTarget>)
    ensures r.Some? <==> related.Some?
    ensures r.Some? ==> r.value == TargetOf(related.value)
  {
    match related
    case Some(ref) => Some(TargetOf(ref))
    case None => None
  }

  /** The entry `_forward_fields` builds for one field. */
  function ForwardEntryOf(f: Field, gettext: string -> string): (e: FieldEntry)
    ensures e.name == f.name && e.fieldType == FieldType(f)
    ensures e.description == FieldDescription(f, gettext)
    ensures e.hasDescription <==> e.description != NoDescription(gettext)
    ensures e.isRelation <==> e.relatedTarget.Some?
    ensures e.isRelation <==> f.isRelation && f.relatedModel.Some?
    ensures e.isRelation ==> e.relatedTarget.value == TargetOf(f.relatedModel.value)
  {
    var target := if f.isRelation then RelatedTarget(f.relatedModel) else None;
    var description := FieldDescription(f, gettext);
    FieldEntry(f.name, FieldType(f), description, description != NoDescription(gettext),
               target.Some?, target)
  }

  /** `has_description` of a field entry is set exactly when the help text
      or a non-default verbose name says something, provided neither of
      them reads like the marker itself (the flag compares texts). */
  lemma FieldHasDescriptionIff(f: Field, gettext: string -> string)
    requires Normalize(f.helpText) != NoDescription(gettext)
    requires Normalize(f.verboseName) != NoDescription(gettext)
    ensures ForwardEntryOf(f, gettext).hasDescription
        <==> Normalize(f.helpText) != ""
             || (Normalize(f.verboseName) != "" && !IsDefaultName(Normalize(f.verboseName), f.name))
  {
  }

  /** The flag compares texts: help text that reads exactly like a
      non-empty marker yields an entry without a description, whatever the
      catalogue. */
  lemma HelpTextLikeMarker(f: Field, gettext: string -> string)
    requires NoDescription(gettext) != ""
    requires Normalize(f.helpText) == NoDescription(gettext)
    ensures !ForwardEntryOf(f, gettext).hasDescription
  {
  }

  predicate FieldNameLe(a: FieldEntry, b: FieldEntry) {
    StrLe(Lower(a.name), Lower(b.name))
  }

  lemma FieldNameOrder()
    ensures TotalPreorder(FieldNameLe)
  {
    StrLeFacts();
  }

  /** `_forward_fields`: an entry for exactly the fields that are not
      auto-created-and-not-concrete, sorted by lower-cased name. */
  function ForwardFields(model: Model, gettext: string -> string): (r: seq<FieldEntry>)
    ensures forall e :: e in r <==> exists f :: f in model.fields && IsForward(f) && e == ForwardEntryOf(f, gettext)
    ensures |r| == |ForwardOnly(model.fields)|
    ensures multiset(r) == multiset(Map(ForwardOnly(model.fields), (f: Field) => ForwardEntryOf(f, gettext)))
    ensures SortedBy(r, FieldNameLe)
  {
    var entries := Map(ForwardOnly(model.fields), (f: Field) => ForwardEntryOf(f, gettext));
    SortKeepsMembers(entries, FieldNameLe);
    SortKeepsLength(entries, FieldNameLe);
    MapMembers(ForwardOnly(model.fields), (f: Field) => ForwardEntryOf(f, gettext));
    FieldNameOrder();
    SortSorted(entries, FieldNameLe);
    Sort(entries, FieldNameLe)
  }

  /* ----------------------------------------------------------- relations */

  /** Considered by `_reverse_relations`: auto-created, not concrete, and a
      relation. */
  predicate IsReverse(f: Field) {
    f.autoCreated && !f.concrete && f.isRelation
  }

  /** Listed by `_reverse_relations`: a reverse entry whose source model
      resolves. */
  predicate IsShownReverse(f: Field) {
    IsReverse(f) && f.relatedModel.Some?
  }

  /** The relation objects `_reverse_relations` lists, each as often as
      the model lists it, in the model's order. */
  function ShownReverse(fields: seq<Field>): (r: seq<Field>)
    ensures forall f :: f in r <==> f in fields && IsShownReverse(f)
    ensures forall f :: multiset(r)[f] == if IsShownReverse(f) then multiset(fields)[f] else 0
    ensures forall i :: 0 <= i < |r| ==> IsShownReverse(r[i])
  {
    Filter(fields, IsShownReverse)
  }

  /** `getattr(relation.field, "name", relation.name)`. */
  function SourceFieldName(f: Field): (r: string)
    ensures f.originField.Some? ==> r == f.originField.value.name
    ensures f.originField.None? ==> r == f.name
  {
    match f.originField
    case Some(origin) => origin.name
    case None => f.name
  }

  /** The accessor name, falling back to the relation's own name. */
  function AccessorName(f: Field): (r: string)
    ensures f.accessorName.Some? ==> r == f.accessorName.value
    ensures f.accessorName.None? ==> r == f.name
  {
    match f.accessorName
    case Some(accessor) => accessor
    case None => f.name
  }

  /** `getattr(source_field, "help_text", "")`. */
  function OriginHelpText(f: Field): (r: string)
    ensures f.originField.Some? ==> r == f.originField.value.helpText
    ensures f.originField.None? ==> r == ""
  {
    match f.originField
    case Some(origin) => origin.helpText
    case None => ""
  }

  /** The entry `_reverse_relations` builds for one relation object whose
      source model is `source`. The generated fallback text is formatted
      even when the help text wins, as Python evaluates both arguments. */
  function RelationEntryOf(f: Field, source: ModelRef, gettext: string -> string): (r: Result<RelationEntry, FormatError>)
    ensures var args := map["field_name" := SourceFieldName(f), "model_label" := source.fullLabel];
      r.Success? <==> Tr(gettext, RELATION_FALLBACK, args).Success?
    ensures r.Success? ==> && r.value.name == AccessorName(f)
                           && r.value.relationType == FieldType(f)
                           && r.value.sourceFieldName == SourceFieldName(f)
                           && r.value.sourceModelLabel == source.fullLabel
                           && r.value.sourceTarget == TargetOf(source)
    ensures r.Success? ==>
      var args := map["field_name" := SourceFieldName(f), "model_label" := source.fullLabel];
      var generated := Tr(gettext, RELATION_FALLBACK, args).value;
      r.value.description
        == if Normalize(OriginHelpText(f)) != "" then Normalize(OriginHelpText(f))
           else if Normalize(generated) != "" then Normalize(generated)
           else NoDescription(gettext)
  {
    var fieldName := SourceFieldName(f);
    var help := OriginHelpText(f);
    var generated :- Tr(gettext, RELATION_FALLBACK, map["field_name" := fieldName, "model_label" := source.fullLabel]);
    PickOfTwo(help, generated, NoDescription(gettext));
    Success(RelationEntry(AccessorName(f), FieldType(f), PickDescription([help, generated], NoDescription(gettext)),
                          fieldName, source.fullLabel, TargetOf(source)))
  }

  /** With the identity catalogue the generated text fills both
      placeholders and loses its brackets. */
  lemma RelationFallbackUntranslated(fieldName: string, modelLabel: string)
    ensures Tr(Untranslated, RELATION_FALLBACK, map["field_name" := fieldName, "model_label" := modelLabel])
         == Success("Field " + fieldName + " of model " + modelLabel)
  {
    assert "[Field " == "[" + "Field ";
    TrTwoPlaceholders(Untranslated, RELATION_FALLBACK, "Field ", "field_name", " of model ", "model_label",
                      map["field_name" := fieldName, "model_label" := modelLabel]);
  }

  /** The generated text starts with a letter, so it never normalises to
      the empty text. */
  lemma GeneratedTextNonEmpty(fieldName: string, modelLabel: string)
    ensures Normalize("Field " + fieldName + " of model " + modelLabel) != ""
  {
    var text := "Field " + fieldName + " of model " + modelLabel;
    assert text[0] == 'F';
    NormalizeEmptyIff(text);
  }

  /** With the identity catalogue a reverse relation's description is its
      origin field's help text, else the generated "Field ... of model ..."
      text; never the marker. */
  lemma RelationDescriptionUntranslated(f: Field, source: ModelRef)
    ensures RelationEntryOf(f, source, Untranslated).Success?
    ensures var help := OriginHelpText(f);
      RelationEntryOf(f, source, Untranslated).value.description
        == if Normalize(help) != "" then Normalize(help)
           else Normalize("Field " + SourceFieldName(f) + " of model " + source.fullLabel)
  {
    var text := "Field " + SourceFieldName(f) + " of model " + source.fullLabel;
    RelationFallbackUntranslated(SourceFieldName(f), source.fullLabel);
    var help := OriginHelpText(f);
    GeneratedTextNonEmpty(SourceFieldName(f), source.fullLabel);
    PickOfTwo(help, text, NoDescription(Untranslated));
  }

  /** Built by `_reverse_relations` from a relation object it lists. */
  predicate BuiltFrom(f: Field, e: RelationEntry, gettext: string -> string) {
    IsShownReverse(f) && RelationEntryOf(f, f.relatedModel.value, gettext) == Success(e)
  }

  /** The loop of `_reverse_relations` before sorting: the shown relation
      objects in registry order; the first formatting failure aborts. */
  function CollectReverse(fields: seq<Field>, gettext: string -> string): (r: Result<seq<RelationEntry>, FormatError>)
    ensures r.Success? <==> forall f :: f in fields && IsShownReverse(f)
                              ==> RelationEntryOf(f, f.relatedModel.value, gettext).Success?
    ensures r.Success? ==> forall e :: e in r.value <==> exists f :: f in fields && BuiltFrom(f, e, gettext)
    ensures r.Success? ==> var shown := ShownReverse(fields);
      && |r.value| == |shown|
      && forall i :: 0 <= i < |shown| ==> BuiltFrom(shown[i], r.value[i], gettext)
    decreases |fields|
  {
    if |fields| == 0 then Success([])
    else
      var f := fields[0];
      assert fields == [f] + fields[1..];
      if !IsShownReverse(f) then
        assert ShownReverse(fields) == ShownReverse(fields[1..]);
        var r := CollectReverse(fields[1..], gettext);
        if r.Failure? then r else EntriesOfShown(fields, r.value, gettext); r
      else
        var e :- RelationEntryOf(f, f.relatedModel.value, gettext);
        var rest :- CollectReverse(fields[1..], gettext);
        PrependEntry(fields, e, rest, gettext);
        Success([e] + rest)
  }

  /** The step of the loop that appends the entry of a listed relation
      object ahead of the entries of the objects after it. */
  lemma PrependEntry(fields: seq<Field>, e: RelationEntry, rest: seq<RelationEntry>, gettext: string -> string)
    requires |fields| > 0 && BuiltFrom(fields[0], e, gettext)
    requires |rest| == |ShownReverse(fields[1..])|
    requires forall i :: 0 <= i < |rest| ==> BuiltFrom(ShownReverse(fields[1..])[i], rest[i], gettext)
    ensures |[e] + rest| == |ShownReverse(fields)|
    ensures forall i :: 0 <= i < |[e] + rest| ==> BuiltFrom(ShownReverse(fields)[i], ([e] + rest)[i], gettext)
    ensures forall x :: x in [e] + rest <==> exists f :: f in fields && BuiltFrom(f, x, gettext)
  {
    var shown, tail, entries := ShownReverse(fields), ShownReverse(fields[1..]), [e] + rest;
    assert shown == [fields[0]] + tail;
    forall i | 0 <= i < |entries|
      ensures BuiltFrom(shown[i], entries[i], gettext)
    {
      if i > 0 {
        assert shown[i] == tail[i - 1] && entries[i] == rest[i - 1];
      }
    }
    EntriesOfShown(fields, entries, gettext);
  }

  /** Entries that correspond one to one with the shown relation objects
      are exactly the entries those objects build. */
  lemma EntriesOfShown(fields: seq<Field>, entries: seq<RelationEntry>, gettext: string -> string)
    requires |entries| == |ShownReverse(fields)|
    requires forall i :: 0 <= i < |entries| ==> BuiltFrom(ShownReverse(fields)[i], entries[i], gettext)
    ensures forall e :: e in entries <==> exists f :: f in fields && BuiltFrom(f, e, gettext)
  {
    var shown := ShownReverse(fields);
    PairedMembers(shown, entries, (f: Field, e: RelationEntry) => BuiltFrom(f, e, gettext));
  }

  /** Python's `<=` on the key `(source_model_label.lower(),
      source_field_name.lower())`. */
  predicate RelationLe(a: RelationEntry, b: RelationEntry) {
    var ka := Lower(a.sourceModelLabel);
    var kb := Lower(b.sourceModelLabel);
    StrLt(ka, kb) || (ka == kb && StrLe(Lower(a.sourceFieldName), Lower(b.sourceFieldName)))
  }

  lemma RelationOrder()
    ensures TotalPreorder(RelationLe)
  {
    StrLeFacts();
    forall a, b, c | RelationLe(a, b) && RelationLe(b, c)
      ensures RelationLe(a, c)
    {
      var ka, kb, kc := Lower(a.sourceModelLabel), Lower(b.sourceModelLabel), Lower(c.sourceModelLabel);
      if ka == kc && ka != kb {
        StrLeAntisymmetric(ka, kb);
      }
    }
  }

  /** `_reverse_relations`: exactly the auto-created, non-concrete relation
      objects whose source model resolves, sorted by source model label
      and then source field name, case-insensitively. */
  function ReverseRelations(model: Model, gettext: string -> string): (r: Result<seq<RelationEntry>, FormatError>)
    ensures r.Success? <==> forall f :: f in model.fields && IsShownReverse(f)
                              ==> RelationEntryOf(f, f.relatedModel.value, gettext).Success?
    ensures r.Success? ==> forall e :: e in r.value <==> exists f :: f in model.fields && BuiltFrom(f, e, gettext)
    ensures r.Success? ==> SortedBy(r.value, RelationLe)
    ensures r.Success? ==> |r.value| == |ShownReverse(model.fields)|
    ensures r.Success? ==> multiset(r.value) == multiset(CollectReverse(model.fields, gettext).value)
  {
    var collected :- CollectReverse(model.fields, gettext);
    SortKeepsMembers(collected, RelationLe);
    SortKeepsLength(collected, RelationLe);
    RelationOrder();
    SortSorted(collected, RelationLe);
    Success(Sort(collected, RelationLe))
  }

  /** With the identity catalogue the reverse relations never fail. */
  lemma ReverseRelationsUntranslated(model: Model)
    ensures ReverseRelations(model, Untranslated).Success?
  {
    forall f | f in model.fields && IsShownReverse(f)
      ensures RelationEntryOf(f, f.relatedModel.value, Untranslated).Success?
    {
      RelationDescriptionUntranslated(f, f.relatedModel.value);
    }
  }

  /* -------------------------------------------------------------- models */

  /** The entry `list_app_models` builds for one model; its field count is
      the number of forward fields `get_model_details` lists. */
  function ModelEntryOf(model: Model, gettext: string -> string): (e: ModelEntry)
    ensures e.name == model.className && e.modelName == model.modelName && e.dbTable == model.dbTable
    ensures e.description == ModelDescription(model, gettext)
    ensures e.fieldsCount == |ForwardFields(model, gettext)|
  {
    ModelEntry(model.className, model.modelName, model.dbTable, ModelDescription(model, gettext),
               |ForwardOnly(model.fields)|)
  }

  predicate ModelNameLe(a: ModelEntry, b: ModelEntry) {
    StrLe(Lower(a.name), Lower(b.name))
  }

  lemma ModelNameOrder()
    ensures TotalPreorder(ModelNameLe)
  {
    StrLeFacts();
  }

  /** `list_app_models`: one entry per model of the app, sorted by
      lower-cased class name; `LookupError` when the app is unknown. */
  function ListAppModels(reg: Registry, wanted: string, gettext: string -> string): (r: Result<seq<ModelEntry>, Error>)
    ensures r.Success? <==> FindProjectApp(reg, wanted, gettext).Success?
    ensures r.Failure? ==> r.error == FindProjectApp(reg, wanted, gettext).error
    ensures r.Success? ==> var app := FindProjectApp(reg, wanted, gettext).value;
      && (forall e :: e in r.value <==> exists m :: m in app.models && e == ModelEntryOf(m, gettext))
      && |r.value| == |app.models|
      && SortedBy(r.value, ModelNameLe)
  {
    var app :- FindProjectApp(reg, wanted, gettext);
    var entries := Map(app.models, (m: Model) => ModelEntryOf(m, gettext));
    SortKeepsMembers(entries, ModelNameLe);
    SortKeepsLength(entries, ModelNameLe);
    MapMembers(app.models, (m: Model) => ModelEntryOf(m, gettext));
    ModelNameOrder();
    SortSorted(entries, ModelNameLe);
    Success(Sort(entries, ModelNameLe))
  }

  /** The lookup of `_find_model`: the normalised model name or the
      lower-cased class name equals the lower-cased argument. */
  predicate NameMatches(model: Model, lookup: string) {
    model.modelName == lookup || Lower(model.className) == lookup
  }

  function IndexOfModel(models: seq<Model>, lookup: string, from: nat): (r: Option<nat>)
    requires from <= |models|
    ensures r.Some? ==> from <= r.value < |models| && NameMatches(models[r.value], lookup)
                        && forall j :: from <= j < r.value ==> !NameMatches(models[j], lookup)
    ensures r.None? ==> forall j :: from <= j < |models| ==> !NameMatches(models[j], lookup)
    decreases |models| - from
  {
    if from == |models| then None
    else if NameMatches(models[from], lookup) then Some(from)
    else IndexOfModel(models, lookup, from + 1)
  }

  /** `_find_model`: the first model of the app, in registry order, whose
      name matches case-insensitively; `LookupError` otherwise. */
  function FindModel(reg: Registry, appLabel: string, modelName: string, gettext: string -> string): (r: Result<Model, Error>)
    ensures FindProjectApp(reg, appLabel, gettext).Failure? ==> r == Failure(FindProjectApp(reg, appLabel, gettext).error)
    ensures FindProjectApp(reg, appLabel, gettext).Success? ==>
      var models := FindProjectApp(reg, appLabel, gettext).value.models;
      && (r.Success? <==> exists m :: m in models && NameMatches(m, Lower(modelName)))
      && (r.Success? ==> exists i :: 0 <= i < |models| && models[i] == r.value && NameMatches(r.value, Lower(modelName))
                                     && forall j :: 0 <= j < i ==> !NameMatches(models[j], Lower(modelName)))
      && (r.Failure? ==> r.error == NotFound(gettext, MODEL_NOT_FOUND,
                                             map["app_label" := appLabel, "model_name" := modelName]))
  {
    var app :- FindProjectApp(reg, appLabel, gettext);
    var lookup := Lower(modelName);
    match IndexOfModel(app.models, lookup, 0)
    case Some(i) => Success(app.models[i])
    case None =>
      Failure(NotFound(gettext, MODEL_NOT_FOUND, map["app_label" := appLabel, "model_name" := modelName]))
  }

  /** With the identity catalogue the message names the app label and the
      model name exactly as given. */
  lemma ModelNotFoundMessage(appLabel: string, modelName: string)
    ensures NotFound(Untranslated, MODEL_NOT_FOUND, map["app_label" := appLabel, "model_name" := modelName])
         == Lookup("Model not found: " + appLabel + "." + modelName)
  {
    assert "[Model not found: " == "[" + "Model not found: ";
    TrTwoPlaceholders(Untranslated, MODEL_NOT_FOUND, "Model not found: ", "app_label", ".", "model_name",
                      map["app_label" := appLabel, "model_name" := modelName]);
  }

  /** A model is found by its class name in any letter case, and by its
      normalised name when that is lower-case, as Django makes it. */
  lemma FindModelAcceptsItsNames(reg: Registry, appLabel: string, model: Model, name: string, gettext: string -> string)
    requires FindProjectApp(reg, appLabel, gettext).Success?
    requires model in FindProjectApp(reg, appLabel, gettext).value.models
    requires Lower(name) == Lower(model.className) || (name == model.modelName && Lower(name) == name)
    ensures FindModel(reg, appLabel, name, gettext).Success?
  {
    assert NameMatches(model, Lower(name));
  }

  /** `get_model_details`: the model's identity, its explicit docstring,
      its forward fields and its reverse relations. */
  function GetModelDetails(reg: Registry, appLabel: string, modelName: string, gettext: string -> string): (r: Result<ModelDetail, Error>)
    ensures FindModel(reg, appLabel, modelName, gettext).Failure? ==>
              r == Failure(FindModel(reg, appLabel, modelName, gettext).error)
    ensures FindModel(reg, appLabel, modelName, gettext).Success? ==>
      var model := FindModel(reg, appLabel, modelName, gettext).value;
      && (r.Success? <==> ReverseRelations(model, gettext).Success?)
      && (r.Failure? ==> r.error == Formatting(ReverseRelations(model, gettext).error))
      && (r.Success? ==> && r.value.appLabel == model.appLabel
                         && r.value.modelName == model.modelName
                         && r.value.modelLabel == model.fullLabel
                         && r.value.dbTable == model.dbTable
                         && r.value.description == ModelDetailDescription(model, gettext)
                         && r.value.fields == ForwardFields(model, gettext)
                         && r.value.reverseRelations == ReverseRelations(model, gettext).value)
  {
    var model :- FindModel(reg, appLabel, modelName, gettext);
    match ReverseRelations(model, gettext)
    case Failure(cause) => Failure(Formatting(cause))
    case Success(reverse) =>
      Success(ModelDetail(model.appLabel, model.modelName, model.fullLabel, model.dbTable,
                          ModelDetailDescription(model, gettext), ForwardFields(model, gettext), reverse))
  }

  /** With the identity catalogue, details are available exactly for the
      models `_find_model` finds. */
  lemma GetModelDetailsUntranslated(reg: Registry, appLabel: string, modelName: string)
    ensures GetModelDetails(reg, appLabel, modelName, Untranslated).Success?
        <==> FindModel(reg, appLabel, modelName, Untranslated).Success?
  {
    if FindModel(reg, appLabel, modelName, Untranslated).Success? {
      ReverseRelationsUntranslated(FindModel(reg, appLabel, modelName, Untranslated).value);
    }
  }
}
