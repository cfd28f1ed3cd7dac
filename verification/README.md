# django-schema-browser, modelled in Dafny

django-schema-browser shows the apps and models of a Django project as
read-only pages. Its core is `django_schema_browser/introspection.py`, which
does two things:

- it picks the project's own apps out of Django's app registry and looks up
  apps and models by label and name;
- it turns apps, models, forward fields and reverse relations into plain
  records. Each record carries a human-readable description, resolved from
  docstrings, verbose names and help texts.

Messages are bracketed message ids. They are translated and stripped by
`strip_brackets` and `tr` in `django_schema_browser/i18n.py`.

This project models that core as pure functions over immutable values, in
these modules:

- `Registry` holds the input datatypes: the registry, apps, models, fields and
  the project root.
- `Text` models Python's `str.split`, `" ".join`, `strip`, `lower`,
  `_normalize_text` and string ordering.
- `I18n` models `strip_brackets`, `%`-formatting with a mapping, and `tr`.
  `tr` takes the translation catalogue `gettext` as a parameter.
- `Sorting` models `sorted` as a stable sort, and proves ordering,
  permutation and stability.
- `Lists` models list comprehensions.
- `Descriptions` models the description resolver.
- `Introspection` models the registry adapter and the field/relation
  extractor: `list_project_apps`, `get_project_app`, `list_app_models` and
  `get_model_details`, with their helpers.
- `Scenarios` is a small concrete "catalog" project with a `Product` model
  and the `Category` model its foreign key points at.

Lookups that fail return `Failure(Lookup(message))`, standing for
`LookupError`. If the catalogue's translation of the message cannot be
formatted, they return `Failure(Formatting(cause))` instead. `FormatError`
stands for the exception Python's `%` operator raises.

Points where the code behaves in a way worth knowing:

- `strip_brackets("[")` returns `"["` unchanged. The text starts with `[` but
  does not end with `]`. `"[]"` strips to the empty text.
- A relation target's label is the related model's `_meta.label`, that is
  `app_label.ObjectName`. This is not `app_label + "." + model_name`; the two
  differ in letter case.
- Verbose names are compared with the default name in three different ways:
  - for apps, after `strip_brackets`;
  - for models, raw;
  - for fields, after `_normalize_text`.
- In `_reverse_relations` the generated "Field … of model …" text is
  translated and formatted even when the help text wins, because Python
  evaluates both arguments. So a catalogue entry that cannot be formatted makes
  the whole listing fail.
- `has_description` compares the description with the marker text. So with
  the identity catalogue (or in English), a field whose help text reads
  exactly "No description." has no description. Under a catalogue that
  translates the marker, the same help text counts as a description.
- `list_project_apps` sorts by lower-cased name. Its input is already sorted by
  label and the sort is stable, so apps with the same name stay in label order.

## Model

| member | source | states |
|---|---|---|
| `Text.Normalize` | django_schema_browser/introspection.py:21-25 | the empty text stays empty; any other text becomes its `split()` words joined by single spaces, then stripped |
| `Text.NormalizeIsNormal` | django_schema_browser/introspection.py:21-25 | the result has no whitespace at either end, uses only plain spaces, and never has two in a row |
| `Text.NormalizeKeepsWords` | django_schema_browser/introspection.py:24 | normalising keeps exactly the words of `str.split()`, in order |
| `Text.NormalizeEmptyIff` | django_schema_browser/introspection.py:21-25 | the result is empty exactly when the input is all whitespace, the empty text included |
| `Text.NormalizeIdempotent` | django_schema_browser/introspection.py:21-25 | normalising twice is normalising once |
| `Text.NormalizeFixesExactlyNormal` | django_schema_browser/introspection.py:21-25 | a text is left unchanged exactly when it already has the normal shape |
| `Text.SplitJoin` | django_schema_browser/introspection.py:24 | splitting words joined by single spaces gives back the words |
| `Text.JoinSplitOfNormal` | django_schema_browser/introspection.py:24 | joining the words of a normal text with spaces rebuilds that text |
| `Text.StrLeTotal` | django_schema_browser/introspection.py:48 | any two strings are comparable under Python's code-point order |
| `Text.StrLeTransitive` | django_schema_browser/introspection.py:48 | Python's string order is transitive |
| `Text.StrLeAntisymmetric` | django_schema_browser/introspection.py:48 | two strings each `<=` the other are equal |
| `I18n.StripBrackets` | django_schema_browser/i18n.py:6-10 | a text that starts with "[" and ends with "]" is the result wrapped in brackets; any other text is returned as is |
| `I18n.StripBracketsOfWrapped` | django_schema_browser/i18n.py:8-9 | wrapping a text in brackets and stripping gives it back |
| `I18n.StripBracketsOneLayer` | django_schema_browser/i18n.py:8-9 | "[[x]]" becomes "[x]"; only a second strip reaches x |
| `I18n.StripBracketsShortTexts` | django_schema_browser/i18n.py:8-10 | "[" and "]" are unchanged; "[]" becomes empty |
| `I18n.Format` | django_schema_browser/i18n.py:16 | a template without `%` formats to itself |
| `I18n.FormatLiteralPrefix` | django_schema_browser/i18n.py:16 | literal text before a directive is copied unchanged |
| `I18n.FormatPlaceholder` | django_schema_browser/i18n.py:16 | `%(key)s` is replaced by the key's value, and the value is not formatted again |
| `I18n.FormatOnePlaceholder` | django_schema_browser/i18n.py:16 | a template with one placeholder between literals formats to the literals around the value |
| `I18n.FormatTwoPlaceholders` | django_schema_browser/i18n.py:16 | the same for two placeholders |
| `I18n.Tr` | django_schema_browser/i18n.py:13-17 | without kwargs the result is the stripped translation; with kwargs it succeeds exactly when formatting succeeds, and is the stripped formatted text |
| `I18n.TrOfBracketed` | django_schema_browser/i18n.py:15-17 | a translation that formats to "[x]" gives x |
| `I18n.TrOnePlaceholder` | django_schema_browser/i18n.py:13-17 | `tr` of a bracketed one-placeholder message is its inside with the value filled in |
| `I18n.TrTwoPlaceholders` | django_schema_browser/i18n.py:13-17 | the same for two placeholders |
| `I18n.TrStripsAfterSubstitution` | django_schema_browser/i18n.py:15-17 | brackets are stripped after substitution: a "]" supplied by a value closes the bracket, which stripping first would not do |
| `Sorting.Sort` | django_schema_browser/introspection.py:48 | the sorted list is a permutation of the input |
| `Sorting.SortKeepsMembers` | django_schema_browser/introspection.py:48 | sorting neither adds nor drops elements |
| `Sorting.SortKeepsLength` | django_schema_browser/introspection.py:48 | sorting keeps the length |
| `Sorting.SortSorted` | django_schema_browser/introspection.py:48 | under a total preorder key the result is ordered |
| `Sorting.InsertSorted` | django_schema_browser/introspection.py:48 | inserting into an ordered list keeps it ordered |
| `Sorting.SortThenBy` | django_schema_browser/introspection.py:168 | stability: elements with equal keys keep the order of an input already sorted by a second key |
| `Sorting.InsertThenBy` | django_schema_browser/introspection.py:168 | inserting an element that precedes all others in the second order keeps ties in that order |
| `Lists.Map` | django_schema_browser/introspection.py:155-167 | building one record per app in a loop yields as many records as apps, the record for the i-th app at position i |
| `Lists.Filter` | django_schema_browser/introspection.py:47 | a filtering comprehension keeps every element that passes, exactly as many times as the list holds it, and nothing else |
| `Lists.FilterConcat` | django_schema_browser/introspection.py:47 | the comprehension keeps the list's order: filtering a concatenation filters each part in turn |
| `Lists.PairedMembers` | django_schema_browser/introspection.py:236-265 | values built position by position from a list, one value per element, are exactly the values its elements build |
| `Lists.MapMembers` | django_schema_browser/introspection.py:153-167 | the elements of a comprehension are exactly the images of the list's elements |
| `Lists.SortedMapMembers` | django_schema_browser/introspection.py:153-168 | sorting the images of a filtered list gives exactly the images of the kept elements |
| `Descriptions.NoDescription` | django_schema_browser/introspection.py:18 | the marker is `tr(NO_DESCRIPTION)`, which never fails |
| `Descriptions.NoDescriptionUntranslated` | django_schema_browser/introspection.py:18 | without a translation the marker reads "No description." |
| `Descriptions.PickDescription` | django_schema_browser/introspection.py:28-33 | the normalised form of the first candidate that normalises to non-empty; the fallback when every candidate normalises to empty |
| `Descriptions.PickOfTwo` | django_schema_browser/introspection.py:28-33 | the same choice, spelled out for two candidates |
| `Descriptions.UniqueParts` | django_schema_browser/introspection.py:93 | exactly the non-empty parts, none twice, in order of first occurrence |
| `Descriptions.UniquePartsEmptyIff` | django_schema_browser/introspection.py:93-94 | no part survives exactly when every part is empty |
| `Descriptions.IsDefaultName` | django_schema_browser/introspection.py:83 | a verbose name is the default one when it equals the name with `_` as spaces, ignoring letter case |
| `Descriptions.AppParts` | django_schema_browser/introspection.py:73-92 | five parts, each in normal form, in this order: the bracket-stripped verbose name, empty when it is the default name; the config class's own docstring, only when its module ends in ".apps"; the docstrings of that module, of `__init__.py` and of the package |
| `Descriptions.AppDescription` | django_schema_browser/introspection.py:73-94 | the marker when all parts are empty, else the distinct non-empty parts in fixed order joined by a bar between spaces |
| `Descriptions.AppDescriptionIgnoresDefaultName` | django_schema_browser/introspection.py:81-84 | a default verbose name contributes nothing: the description equals that of the app without a verbose name |
| `Descriptions.ModelDescription` | django_schema_browser/introspection.py:97-103 | the docstring if any, else the verbose name unless it is the default name, else the marker |
| `Descriptions.ModelDetailDescription` | django_schema_browser/introspection.py:124-125 | the explicitly declared docstring, else the marker |
| `Descriptions.ModelDetailIgnoresVerboseName` | django_schema_browser/introspection.py:124-125 | the detail description does not depend on the verbose name or on inherited docstrings |
| `Descriptions.FieldType` | django_schema_browser/introspection.py:128-134 | the internal type when the field reports one, else the class name |
| `Descriptions.FieldDescription` | django_schema_browser/introspection.py:137-143 | help text first, then the verbose name unless its normalised form is the default name, then the marker |
| `Introspection.IsProjectPath` | django_schema_browser/introspection.py:36-43 | a path is under the root exactly when it is the root followed by zero or more components (the root itself counts) |
| `Introspection.ProjectOnly` | django_schema_browser/introspection.py:47 | keeps exactly the apps under the root, each as many times as the registry lists it, and no other app |
| `Introspection.ProjectApps` | django_schema_browser/introspection.py:46-48 | a permutation of the apps under the root, each as many times as the registry lists it, sorted by label |
| `Introspection.AppLabelOrder` | django_schema_browser/introspection.py:48 | the label key is a total preorder |
| `Introspection.IndexOfLabel` | django_schema_browser/introspection.py:147-149 | the first position with the label, or none when no app has it |
| `Introspection.NotFound` | django_schema_browser/introspection.py:150 | the `LookupError` carries the translated message; a formatting failure propagates instead |
| `Introspection.FindProjectApp` | django_schema_browser/introspection.py:146-150 | succeeds exactly when some project app has exactly this label, returning such an app; else the "App not found" error |
| `Introspection.AppNotFoundMessage` | django_schema_browser/introspection.py:150 | untranslated, the message is "App not found: " followed by the label |
| `Introspection.AppEntryOf` | django_schema_browser/introspection.py:158-166 | `has_description` is set exactly when the description differs from the marker; the name is the bracket-stripped verbose name; the count is the number of models |
| `Introspection.AppNameOrder` | django_schema_browser/introspection.py:168 | the lower-cased name key is a total preorder |
| `Introspection.ListProjectApps` | django_schema_browser/introspection.py:153-168 | one entry per project app: as many entries as project apps, an entry for exactly the project apps, the same multiset as the project apps' entries, sorted by lower-cased name, with equal names in label order |
| `Introspection.AppEntriesMembers` | django_schema_browser/introspection.py:153-168 | the listed entries are exactly the entries of the project apps |
| `Introspection.AppEntriesOrder` | django_schema_browser/introspection.py:168 | sorting label-ordered entries by name leaves equal names in label order |
| `Introspection.GetProjectApp` | django_schema_browser/introspection.py:171-182 | fails exactly when the app lookup fails; otherwise it returns the app's entry, the same one `list_project_apps` shows |
| `Introspection.IsForward` | django_schema_browser/introspection.py:217 | a field is forward unless it is both auto-created and not concrete |
| `Introspection.ForwardOnly` | django_schema_browser/introspection.py:216-218 | keeps exactly the fields that are not auto-created-and-not-concrete, each as many times as the model lists it |
| `Introspection.TargetOf` | django_schema_browser/introspection.py:207-211 | the target copies the related model's app label, model name and label |
| `Introspection.RelatedTarget` | django_schema_browser/introspection.py:204-211 | a target exists exactly when the related model resolves |
| `Introspection.ForwardEntryOf` | django_schema_browser/introspection.py:219-230 | `is_relation` holds exactly when a target is present, which is when the field is a relation with a resolved related model; the target comes from that model |
| `Introspection.FieldHasDescriptionIff` | django_schema_browser/introspection.py:220-226 | `has_description` holds exactly when the help text, or a verbose name that is not the default name, is non-empty (unless one of them reads like the marker) |
| `Introspection.HelpTextLikeMarker` | django_schema_browser/introspection.py:226 | for any catalogue whose marker is not empty, help text equal to the marker text yields `has_description` false |
| `Introspection.FieldNameOrder` | django_schema_browser/introspection.py:231 | the lower-cased name key is a total preorder |
| `Introspection.ForwardFields` | django_schema_browser/introspection.py:214-231 | one entry for exactly the forward fields, as many as there are, the same multiset as the forward fields' entries, sorted by lower-cased name |
| `Introspection.SourceFieldName` | django_schema_browser/introspection.py:245-246 | the origin field's name, else the relation's own name |
| `Introspection.AccessorName` | django_schema_browser/introspection.py:247 | the accessor name, else the relation's own name |
| `Introspection.OriginHelpText` | django_schema_browser/introspection.py:254 | the help text of the relation's origin field, or empty when there is none |
| `Introspection.RelationEntryOf` | django_schema_browser/introspection.py:245-265 | succeeds exactly when the generated text can be translated and formatted; it records the accessor, type, source field name, source model label and source target, and its description is the origin field's help text when that is non-blank, else the generated text, else the marker, whatever the catalogue |
| `Introspection.RelationFallbackUntranslated` | django_schema_browser/introspection.py:255-259 | untranslated, the generated text is "Field <field> of model <label>" |
| `Introspection.GeneratedTextNonEmpty` | django_schema_browser/introspection.py:253-259 | untranslated, the generated text never normalises to empty, so without a catalogue the marker is never used for a relation (a catalogue that translates the template to "[]" blanks it) |
| `Introspection.RelationDescriptionUntranslated` | django_schema_browser/introspection.py:253-260 | untranslated, a relation's description is its origin field's help text, else the generated text |
| `Introspection.IsShownReverse` | django_schema_browser/introspection.py:237-243 | a relation object is listed when it is auto-created, not concrete, a relation, and its source model resolves |
| `Introspection.ShownReverse` | django_schema_browser/introspection.py:236-243 | the listed relation objects, each as many times as the model lists it, in registry order |
| `Introspection.CollectReverse` | django_schema_browser/introspection.py:236-265 | one entry per listed relation object, position by position in registry order, so exactly those entries and as many; fails exactly when one of those cannot be formatted |
| `Introspection.RelationOrder` | django_schema_browser/introspection.py:266-272 | the (model label, field name) lower-cased tuple key is a total preorder |
| `Introspection.RelationLe` | django_schema_browser/introspection.py:268-271 | Python's `<=` on the tuple (lower-cased source model label, lower-cased source field name): the label decides, the field name breaks ties |
| `Introspection.ReverseRelations` | django_schema_browser/introspection.py:234-272 | a permutation of the collected entries, one per listed relation object, sorted by lower-cased source model label, then source field name |
| `Introspection.ReverseRelationsUntranslated` | django_schema_browser/introspection.py:234-272 | untranslated, listing reverse relations never fails |
| `Introspection.ModelEntryOf` | django_schema_browser/introspection.py:188-200 | `fields_count` equals the number of fields `get_model_details` lists for the model |
| `Introspection.ModelNameOrder` | django_schema_browser/introspection.py:201 | the lower-cased class name key is a total preorder |
| `Introspection.ListAppModels` | django_schema_browser/introspection.py:185-201 | fails exactly when the app lookup fails; otherwise one entry per model, sorted by lower-cased class name |
| `Introspection.NameMatches` | django_schema_browser/introspection.py:279 | a model matches a lower-cased lookup when its `model_name` or its lower-cased class name equals it |
| `Introspection.IndexOfModel` | django_schema_browser/introspection.py:278-280 | the first model whose name matches, or none when none matches |
| `Introspection.FindModel` | django_schema_browser/introspection.py:275-283 | succeeds exactly when some model's `model_name` or lower-cased class name equals the lower-cased argument, and returns the first such model in registry order; else the "Model not found" error |
| `Introspection.ModelNotFoundMessage` | django_schema_browser/introspection.py:281-283 | untranslated, the message is "Model not found: <app>.<name>", with the name as given |
| `Introspection.FindModelAcceptsItsNames` | django_schema_browser/introspection.py:277-279 | a model is found by its class name in any letter case, and by its lower-case model name |
| `Introspection.GetModelDetails` | django_schema_browser/introspection.py:286-296 | fails exactly when the model lookup or the reverse relations fail, with the lookup error or the reverse-relation formatting error; otherwise it carries the model's app label, model name, label, database table, explicit-doc description, forward fields and reverse relations |
| `Introspection.GetModelDetailsUntranslated` | django_schema_browser/introspection.py:286-296 | untranslated, details exist exactly for the models `_find_model` finds |
| `Scenarios.CatalogIsProjectApp` | django_schema_browser/introspection.py:146-150 | the catalog app under the root is found by its label |
| `Scenarios.VendorIsHidden` | django_schema_browser/introspection.py:36-48 | an app outside the root is neither listed nor found |
| `Scenarios.CatalogListsProduct` | django_schema_browser/introspection.py:185-201 | `list_app_models("catalog")` lists `Product` |
| `Scenarios.StockCodeIsNormal` | django_schema_browser/introspection.py:21-25 | "Stock code" is already normal |
| `Scenarios.ProductDetails` | django_schema_browser/introspection.py:286-296 | `get_model_details("catalog", "product")` shows `sku` described "Stock code" and `category` as a relation to "catalog.Category" |
| `Scenarios.CategoryReverse` | django_schema_browser/introspection.py:234-272 | `Category` shows one reverse relation, `product_set`, from field `category` of "catalog.Product" |
| `Scenarios.UnknownAppNotFound` | django_schema_browser/introspection.py:146-150 | any label but the project app's, including the label of the app outside the root, fails with "App not found: <label>" |
| `Scenarios.ProductDescriptions` | django_schema_browser/introspection.py:97-125 | a model written without a docstring is described in the list by the docstring Django generates for it ("Product(id, sku, category)") and in the detail view by the marker |

## Left out

- Docstring retrieval is not modelled, because it needs imports, file reads and `ast`. This covers `_module_docstring`, `_file_module_docstring`, `_explicit_class_docstring` and `inspect.getdoc`. Their results are fields of `App` and `Model`, and a missing docstring is the empty text. For a model class written without a docstring, `Model.doc` holds the one Django generates, such as `Product(id, sku, category)`. `Model.explicitDoc` stays empty.
- `Path.resolve()` and symbolic links are not modelled, because they are filesystem I/O. Paths are sequences of already resolved components, and `relative_to` is a prefix test.
- The translation catalogue is not modelled. `gettext` is a parameter, and `Untranslated` is the identity catalogue.
- `Text.Lower`: lower-cases ASCII letters only. Python's `str.lower()` also folds non-ASCII letters, so lookups and sort keys agree with Python only on ASCII names.
- `Text.IsSpace` is fixed to the code points CPython's `str.split()` breaks on. Unicode database changes are not followed.
- `I18n.Format`: models only the `%(name)s` and `%%` directives that the messages use. Every other directive, and every flag, width or conversion, is reported as `UnsupportedDirective`. Python would format some of them; for example, `%s` formats the whole mapping.
- `Sorting.Sort` is an insertion sort, not Timsort. Both are stable sorts by the same keys, so they produce the same list.
- Python's truthiness on non-string values is not modelled. `str()` of lazy translation objects is not modelled either. Every text is already a string, and `None` is the empty text.
- `Introspection.RelatedTarget`: `None` stands for every related model that is absent, is a lazy string reference, or has no `_meta`. The model does not distinguish these cases.
- `Descriptions.FieldType`: `None` stands for both a missing `get_internal_type` and one that raises `AttributeError` or `TypeError`.
- Other exceptions Django or user code might raise are not modelled, for example from `get_accessor_name`.
- The request and HTTP side is not part of this model: views, URL routing, app configuration, the permission model, the template tag wrapping `tr`, and `manage.py`.
