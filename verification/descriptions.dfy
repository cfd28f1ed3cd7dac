/** The description resolver: picks, suppresses, deduplicates and joins
    the candidate texts for apps, models and fields. */
module Descriptions {
  import opened Wrappers
  import opened Text
  import opened I18n
  import opened Registry

  const NO_DESCRIPTION: string := "[No description.]"

  /** `tr(NO_DESCRIPTION)`, the marker shown when nothing describes an
      item. */
  function NoDescription(gettext: string -> string): (r: string)
    ensures Tr(gettext, NO_DESCRIPTION, map[]) == Success(r)
  {
    StripBrackets(gettext(NO_DESCRIPTION))
  }

  lemma NoDescriptionUntranslated()
    ensures NoDescription(Untranslated) == "No description."
  {
    StripBracketsOfWrapped("No description.");
    assert NO_DESCRIPTION == "[" + "No description." + "]";
  }

  /** `_pick_description`: the first candidate that normalises to a
      non-empty text, normalised; the fallback when there is none. */
  function PickDescription(candidates: seq<string>, fallback: string): (r: string)
    ensures (forall j :: 0 <= j < |candidates| ==> Normalize(candidates[j]) == "") ==> r == fallback
    ensures forall k :: 0 <= k < |candidates| && Normalize(candidates[k]) != ""
              && (forall j :: 0 <= j < k ==> Normalize(candidates[j]) == "")
              ==> r == Normalize(candidates[k])
  {
    var normalized := seq(|candidates|, i requires 0 <= i < |candidates| => Normalize(candidates[i]));
    var r := match FirstNonEmptyIndex(normalized, 0)
             case None => fallback
             case Some(m) => normalized[m];
    FirstNonEmptyOfImages(candidates, Normalize, normalized, fallback, r);
    r
  }

  /** The first non-empty image, stated on the images `f(c[i])`
      themselves. */
  lemma FirstNonEmptyOfImages<T>(c: seq<T>, f: T -> string, texts: seq<string>, fallback: string, r: string)
    requires |texts| == |c| && forall i :: 0 <= i < |c| ==> texts[i] == f(c[i])
    requires r == match FirstNonEmptyIndex(texts, 0)
                  case None => fallback
                  case Some(m) => texts[m]
    ensures (forall j :: 0 <= j < |c| ==> f(c[j]) == "") ==> r == fallback
    ensures forall k :: 0 <= k < |c| && f(c[k]) != "" && (forall j :: 0 <= j < k ==> f(c[j]) == "")
              ==> r == f(c[k])
  {
    match FirstNonEmptyIndex(texts, 0)
    case None =>
    case Some(m) =>
      forall k | 0 <= k < |c| && f(c[k]) != "" && (forall j :: 0 <= j < k ==> f(c[j]) == "")
        ensures r == f(c[k])
      {
        assert texts[k] == f(c[k]);
        assert texts[m] == f(c[m]);
      }
  }

  /** Position of the first non-empty text at or after `i`. */
  function FirstNonEmptyIndex(texts: seq<string>, i: nat): (r: Option<nat>)
    requires i <= |texts|
    ensures r.None? ==> forall j :: i <= j < |texts| ==> texts[j] == ""
    ensures r.Some? ==> i <= r.value < |texts| && texts[r.value] != ""
                        && forall j :: i <= j < r.value ==> texts[j] == ""
    decreases |texts| - i
  {
    if i == |texts| then None
    else if texts[i] != "" then Some(i)
    else FirstNonEmptyIndex(texts, i + 1)
  }

  /** With two candidates: the first non-empty of the two, else the
      fallback. */
  lemma PickOfTwo(a: string, b: string, fallback: string)
    ensures PickDescription([a, b], fallback)
         == if Normalize(a) != "" then Normalize(a) else if Normalize(b) != "" then Normalize(b) else fallback
  {
    FirstOfTwoImages(a, b, Normalize, fallback, PickDescription([a, b], fallback));
  }

  /** The closed form of the first-non-empty rule for two candidates. The
      requires are `PickDescription`'s two ensures taken at the list
      `[a, b]`, as the caller has them; the conclusion speaks of `f(a)` and
      `f(b)` only. Stated over any `f` so that no `Normalize` term enters
      the proof. */
  lemma FirstOfTwoImages<T>(a: T, b: T, f: T -> string, fallback: string, r: string)
    requires (forall j :: 0 <= j < |[a, b]| ==> f([a, b][j]) == "") ==> r == fallback
    requires forall k :: 0 <= k < |[a, b]| && f([a, b][k]) != "" && (forall j :: 0 <= j < k ==> f([a, b][j]) == "")
               ==> r == f([a, b][k])
    ensures r == if f(a) != "" then f(a) else if f(b) != "" then f(b) else fallback
  {
    var c := [a, b];
    assert c[0] == a && c[1] == b;
    if f(a) == "" && f(b) != "" {
      assert forall j :: 0 <= j < 1 ==> f(c[j]) == "";
      assert r == f(c[1]);
    }
  }

  /** Whether `verbose` is just the name Django would derive from `name`
      (underscores to spaces), compared case-insensitively. */
  predicate IsDefaultName(verbose: string, name: string) {
    Lower(verbose) == Lower(UnderscoresToSpaces(name))
  }

  /** Position of the first occurrence of `x` in `s`. */
  function FirstIndex(s: seq<string>, x: string): (i: nat)
    requires x in s
    ensures i < |s| && s[i] == x && x !in s[..i]
  {
    if s[0] == x then 0
    else
      var i := 1 + FirstIndex(s[1..], x);
      assert s[..i] == [s[0]] + s[1..][..i - 1];
      i
  }

  lemma {:induction false} FirstIndexInPrefix(s: seq<string>, n: nat, x: string)
    requires n <= |s| && x in s[..n]
    ensures FirstIndex(s, x) == FirstIndex(s[..n], x)
    decreases n
  {
    if s[0] != x {
      assert s[..n][1..] == s[1..][..n - 1];
      FirstIndexInPrefix(s[1..], n - 1, x);
    }
  }

  /** `[part for part in dict.fromkeys(parts) if part]`: the non-empty parts,
      each once, in the order of their first occurrence. */
  function UniqueParts(parts: seq<string>): (r: seq<string>)
    ensures forall x :: x in r <==> x in parts && x != ""
    ensures Distinct(r)
    ensures forall i, j :: 0 <= i < j < |r| ==> FirstIndex(parts, r[i]) < FirstIndex(parts, r[j])
    decreases |parts|
  {
    if |parts| == 0 then []
    else
      var n := |parts| - 1;
      var u := UniqueParts(parts[..n]);
      assert UniqueOf(parts[..n], u);
      var r := if parts[n] == "" || parts[n] in parts[..n] then u else u + [parts[n]];
      UniquePartsStep(parts, u, r);
      r
  }

  predicate Distinct(s: seq<string>) {
    forall i, j :: 0 <= i < j < |s| ==> s[i] != s[j]
  }

  /** The properties of `UniqueParts` for the parts `init`, with `u` as
      the result. */
  ghost predicate UniqueOf(init: seq<string>, u: seq<string>) {
    && (forall x :: x in u <==> x in init && x != "")
    && Distinct(u)
    && (forall i, j :: 0 <= i < j < |u| ==>
          (u[i] in init && u[j] in init && FirstIndex(init, u[i]) < FirstIndex(init, u[j])))
  }

  /** One step of the fold: keeping or appending the last part preserves
      the three properties. */
  lemma UniquePartsStep(parts: seq<string>, u: seq<string>, r: seq<string>)
    requires |parts| > 0
    requires UniqueOf(parts[..|parts| - 1], u)
    requires r == if parts[|parts| - 1] == "" || parts[|parts| - 1] in parts[..|parts| - 1] then u
                  else u + [parts[|parts| - 1]]
    ensures UniqueOf(parts, r)
  {
    var n := |parts| - 1;
    assert parts == parts[..n] + [parts[n]];
    if parts[n] == "" || parts[n] in parts[..n] {
      UniqueKeep(parts, u);
    } else {
      UniqueAppend(parts, u);
    }
  }

  /** The last part is empty or seen before: the result stays. */
  lemma UniqueKeep(parts: seq<string>, u: seq<string>)
    requires |parts| > 0 && parts == parts[..|parts| - 1] + [parts[|parts| - 1]]
    requires parts[|parts| - 1] == "" || parts[|parts| - 1] in parts[..|parts| - 1]
    requires UniqueOf(parts[..|parts| - 1], u)
    ensures UniqueOf(parts, u)
  {
    var n := |parts| - 1;
    FirstIndexInPrefixAll(parts, n);
    forall x
      ensures x in u <==> x in parts && x != ""
    {
      assert x in parts <==> x in parts[..n] || x == parts[n];
    }
    forall i, j | 0 <= i < j < |u|
      ensures u[i] in parts && u[j] in parts && FirstIndex(parts, u[i]) < FirstIndex(parts, u[j])
    {
      assert u[i] in parts[..n] && u[j] in parts[..n];
    }
  }

  /** The last part is new and non-empty: it is appended. */
  lemma UniqueAppend(parts: seq<string>, u: seq<string>)
    requires |parts| > 0 && parts == parts[..|parts| - 1] + [parts[|parts| - 1]]
    requires parts[|parts| - 1] != "" && parts[|parts| - 1] !in parts[..|parts| - 1]
    requires UniqueOf(parts[..|parts| - 1], u)
    ensures UniqueOf(parts, u + [parts[|parts| - 1]])
  {
    var n := |parts| - 1;
    var last := parts[n];
    var r := u + [last];
    FirstIndexInPrefixAll(parts, n);
    assert FirstIndex(parts, last) == n;
    assert last !in u;
    forall x
      ensures x in r <==> x in parts && x != ""
    {
      assert x in parts <==> x in parts[..n] || x == last;
    }
    forall i, j | 0 <= i < j < |r|
      ensures r[i] != r[j]
    {
      if j < |u| { assert r[i] == u[i] && r[j] == u[j]; }
      else { assert r[i] == u[i] && r[j] == last; }
    }
    forall i, j | 0 <= i < j < |r|
      ensures r[i] in parts && r[j] in parts && FirstIndex(parts, r[i]) < FirstIndex(parts, r[j])
    {
      assert r[i] == u[i] && u[i] in parts[..n];
      if j < |u| {
        assert r[j] == u[j] && u[j] in parts[..n];
      } else {
        assert r[j] == last;
      }
    }
  }

  lemma FirstIndexInPrefixAll(s: seq<string>, n: nat)
    requires n <= |s|
    ensures forall x :: x in s[..n] ==> FirstIndex(s, x) == FirstIndex(s[..n], x) < n
  {
    forall x | x in s[..n]
      ensures FirstIndex(s, x) == FirstIndex(s[..n], x)
    {
      FirstIndexInPrefix(s, n, x);
    }
  }

  /** The five candidate parts of `_app_description`, normalised, in the
      order they are joined: the verbose name unless it is the default
      name, the config class's own docstring when that class lives in an
      `apps` module, the docstrings of that module, of `__init__.py` and of
      the package. */
  function AppParts(app: App): (parts: seq<string>)
    ensures |parts| == 5
    ensures forall i :: 0 <= i < 5 ==> IsNormal(parts[i])
    ensures IsDefaultName(StripBrackets(app.verboseName), app.appLabel) ==> parts[0] == ""
    ensures !IsDefaultName(StripBrackets(app.verboseName), app.appLabel)
            ==> parts[0] == Normalize(StripBrackets(app.verboseName))
    ensures parts[1] == if EndsWith(app.configModule, ".apps") then Normalize(app.configDoc) else ""
    ensures parts[2] == Normalize(app.configModuleDoc)
    ensures parts[3] == Normalize(app.initFileDoc)
    ensures parts[4] == Normalize(app.packageModuleDoc)
  {
    var classDoc := if EndsWith(app.configModule, ".apps") then app.configDoc else "";
    var verbose := StripBrackets(app.verboseName);
    var shown := if IsDefaultName(verbose, app.appLabel) then "" else verbose;
    var texts := [shown, classDoc, app.configModuleDoc, app.initFileDoc, app.packageModuleDoc];
    var parts := seq(5, i requires 0 <= i < 5 => Normalize(texts[i]));
    assert Normalize("") == "";
    assert forall i :: 0 <= i < 5 ==> IsNormal(parts[i]) by {
      forall i | 0 <= i < 5
        ensures IsNormal(parts[i])
      {
        NormalizeIsNormal(texts[i]);
      }
    }
    parts
  }

  /** `_app_description`: the distinct non-empty parts joined with " | ",
      or the marker when every part is empty. */
  function AppDescription(app: App, gettext: string -> string): (r: string)
    ensures (forall i :: 0 <= i < 5 ==> AppParts(app)[i] == "") ==> r == NoDescription(gettext)
    ensures (exists i :: 0 <= i < 5 && AppParts(app)[i] != "") ==>
              && |UniqueParts(AppParts(app))| > 0
              && r == Join(UniqueParts(AppParts(app)), " | ")
  {
    var parts := AppParts(app);
    var unique := UniqueParts(parts);
    UniquePartsEmptyIff(parts);
    if |unique| == 0 then NoDescription(gettext) else Join(unique, " | ")
  }

  /** No part survives exactly when every part is empty. */
  lemma UniquePartsEmptyIff(parts: seq<string>)
    ensures |UniqueParts(parts)| == 0 <==> forall i :: 0 <= i < |parts| ==> parts[i] == ""
  {
    var u := UniqueParts(parts);
    if |u| > 0 {
      assert u[0] in parts && u[0] != "";
    }
    if exists i :: 0 <= i < |parts| && parts[i] != "" {
      var i :| 0 <= i < |parts| && parts[i] != "";
      assert parts[i] in u;
    }
  }

  /** A verbose name equal to the app's default name contributes nothing:
      the description is that of the same app without a verbose name. */
  lemma AppDescriptionIgnoresDefaultName(app: App, gettext: string -> string)
    requires IsDefaultName(StripBrackets(app.verboseName), app.appLabel)
    ensures AppDescription(app, gettext) == AppDescription(app.(verboseName := ""), gettext)
  {
    assert AppParts(app) == AppParts(app.(verboseName := ""));
  }

  /** `_model_description`: the model's docstring, else its verbose name
      unless that is the default name, else the marker. */
  function ModelDescription(model: Model, gettext: string -> string): (r: string)
    ensures Normalize(model.doc) != "" ==> r == Normalize(model.doc)
    ensures (Normalize(model.doc) == "" && !IsDefaultName(model.verboseName, model.className)
             && Normalize(model.verboseName) != "") ==> r == Normalize(model.verboseName)
    ensures (Normalize(model.doc) == ""
             && (IsDefaultName(model.verboseName, model.className) || Normalize(model.verboseName) == ""))
            ==> r == NoDescription(gettext)
  {
    var verbose := if IsDefaultName(model.verboseName, model.className) then "" else model.verboseName;
    assert Normalize("") == "";
    PickOfTwo(model.doc, verbose, NoDescription(gettext));
    PickDescription([model.doc, verbose], NoDescription(gettext))
  }

  /** `_model_detail_description`: only the docstring written on the class
      itself; inherited docstrings and the verbose name are ignored. */
  function ModelDetailDescription(model: Model, gettext: string -> string): (r: string)
    ensures Normalize(model.explicitDoc) != "" ==> r == Normalize(model.explicitDoc)
    ensures Normalize(model.explicitDoc) == "" ==> r == NoDescription(gettext)
  {
    PickDescription([model.explicitDoc], NoDescription(gettext))
  }

  /** The detail description does not depend on the verbose name or the
      inherited docstring, unlike the list description. */
  lemma ModelDetailIgnoresVerboseName(model: Model, verbose: string, doc: string, gettext: string -> string)
    ensures ModelDetailDescription(model.(verboseName := verbose, doc := doc), gettext)
         == ModelDetailDescription(model, gettext)
  {
  }

  /** `_field_type`: the internal type name when the field reports one,
      else the field's class name. */
  function FieldType(field: Field): (r: string)
    ensures field.internalType.Some? ==> r == field.internalType.value
    ensures field.internalType.None? ==> r == field.className
  {
    match field.internalType
    case Some(t) => t
    case None => field.className
  }

  /** `_field_description`: help text first, then the verbose name unless
      its normalised form is the default name, then the marker. */
  function FieldDescription(field: Field, gettext: string -> string): (r: string)
    ensures Normalize(field.helpText) != "" ==> r == Normalize(field.helpText)
    ensures (Normalize(field.helpText) == "" && !IsDefaultName(Normalize(field.verboseName), field.name)
             && Normalize(field.verboseName) != "") ==> r == Normalize(field.verboseName)
    ensures (Normalize(field.helpText) == ""
             && (IsDefaultName(Normalize(field.verboseName), field.name) || Normalize(field.verboseName) == ""))
            ==> r == NoDescription(gettext)
  {
    var verbose := if IsDefaultName(Normalize(field.verboseName), field.name) then "" else field.verboseName;
    assert Normalize("") == "";
    PickOfTwo(field.helpText, verbose, NoDescription(gettext));
    PickDescription([field.helpText, verbose], NoDescription(gettext))
  }
}
