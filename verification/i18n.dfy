/** Translation helpers for bracketed message ids: `strip_brackets` and
    `tr`. The translation catalogue (`gettext`) is a parameter; Python's
    `%`-formatting with a mapping is modelled for the `%(name)s` and `%%`
    directives the messages use. */
module I18n {
  import opened Wrappers

  /** The guard of `strip_brackets`: starts with "[" and ends with "]". */
  predicate IsBracketed(s: string) {
    |s| > 0 && s[0] == '[' && s[|s| - 1] == ']'
  }

  /** `strip_brackets`: a bracketed text loses its first and last
      character, anything else is returned as is. */
  function StripBrackets(s: string): (r: string)
    ensures IsBracketed(s) ==> "[" + r + "]" == s
    ensures !IsBracketed(s) ==> r == s
  {
    if IsBracketed(s) then s[1..|s| - 1] else s
  }

  /** Wrapping in brackets and stripping them round-trips. */
  lemma StripBracketsOfWrapped(x: string)
    ensures StripBrackets("[" + x + "]") == x
  {
    var s := "[" + x + "]";
    assert IsBracketed(s);
    assert s[1..|s| - 1] == x;
  }

  /** Only one layer of brackets is removed, so stripping is not
      idempotent on nested brackets. */
  lemma StripBracketsOneLayer(x: string)
    ensures StripBrackets("[[" + x + "]]") == "[" + x + "]"
    ensures StripBrackets(StripBrackets("[[" + x + "]]")) == x
  {
    assert "[[" + x + "]]" == "[" + ("[" + x + "]") + "]";
    StripBracketsOfWrapped("[" + x + "]");
    StripBracketsOfWrapped(x);
  }

  /** A lone "[" is not bracketed (it does not end with "]"), while "[]"
      strips to the empty text. */
  lemma StripBracketsShortTexts()
    ensures StripBrackets("[") == "["
    ensures StripBrackets("]") == "]"
    ensures StripBrackets("[]") == ""
  {
  }

  datatype FormatError =
    | MissingKey(key: string)    // KeyError: the mapping lacks the key
    | IncompleteFormat           // ValueError: a lone '%' or an unclosed key at the end
    | UnsupportedDirective       // any directive other than %(name)s and %%

  /** Index of the ')' that closes a `%(` key whose text starts at `i`,
      counting nested parentheses as CPython does. */
  function KeyEnd(t: string, i: nat, depth: nat): (r: Option<nat>)
    requires i <= |t|
    ensures r.Some? ==> i <= r.value < |t| && t[r.value] == ')'
    decreases |t| - i
  {
    if i == |t| then None
    else if t[i] == ')' then (if depth == 0 then Some(i) else KeyEnd(t, i + 1, depth - 1))
    else if t[i] == '(' then KeyEnd(t, i + 1, depth + 1)
    else KeyEnd(t, i + 1, depth)
  }

  function Prepend(p: string, r: Result<string, FormatError>): Result<string, FormatError> {
    match r
    case Success(s) => Success(p + s)
    case Failure(e) => Failure(e)
  }

  /** The `%(key)s` directive. */
  function Placeholder(key: string): string {
    "%(" + key + ")s"
  }

  /** Python's `template % args` for a mapping `args` of strings. */
  function Format(t: string, args: map<string, string>): (r: Result<string, FormatError>)
    ensures '%' !in t ==> r == Success(t)
    decreases |t|
  {
    if |t| == 0 then Success("")
    else if t[0] != '%' then
      var rest := Format(t[1..], args);
      assert '%' !in t ==> '%' !in t[1..];
      assert '%' !in t ==> t == [t[0]] + t[1..];
      Prepend([t[0]], rest)
    else if |t| == 1 then Failure(IncompleteFormat)
    else if t[1] == '%' then Prepend("%", Format(t[2..], args))
    else if t[1] != '(' then Failure(UnsupportedDirective)
    else match KeyEnd(t, 2, 0)
      case None => Failure(IncompleteFormat)
      case Some(k) =>
        var key := t[2..k];
        if key !in args then Failure(MissingKey(key))
        else if k + 1 == |t| then Failure(IncompleteFormat)
        else if t[k + 1] != 's' then Failure(UnsupportedDirective)
        else Prepend(args[key], Format(t[k + 2..], args))
  }

  lemma PrependTwice(a: string, b: string, r: Result<string, FormatError>)
    ensures Prepend(a, Prepend(b, r)) == Prepend(a + b, r)
  {
    if r.Success? {
      assert a + (b + r.value) == a + b + r.value;
    }
  }

  /** One literal character is copied and formatting goes on after it. */
  lemma FormatLiteralChar(t: string, args: map<string, string>)
    requires |t| > 0 && t[0] != '%'
    ensures Format(t, args) == Prepend([t[0]], Format(t[1..], args))
  {
  }

  /** Literal text before the first directive is copied unchanged. */
  lemma {:induction false} FormatLiteralPrefix(lit: string, rest: string, args: map<string, string>)
    requires '%' !in lit
    ensures Format(lit + rest, args) == Prepend(lit, Format(rest, args))
    decreases |lit|
  {
    if |lit| == 0 {
      assert lit + rest == rest;
      if Format(rest, args).Success? {
        assert "" + Format(rest, args).value == Format(rest, args).value;
      }
    } else {
      var t := lit + rest;
      assert t[0] == lit[0] && t[1..] == lit[1..] + rest;
      FormatLiteralChar(t, args);
      FormatLiteralPrefix(lit[1..], rest, args);
      PrependTwice([lit[0]], lit[1..], Format(rest, args));
      assert [lit[0]] + lit[1..] == lit;
    }
  }

  /** A `%(key)s` directive is replaced by the key's value; the value is
      not itself formatted. */
  lemma FormatPlaceholder(key: string, rest: string, args: map<string, string>)
    requires '(' !in key && ')' !in key
    requires key in args
    ensures Format("%(" + key + ")s" + rest, args) == Prepend(args[key], Format(rest, args))
  {
    var t := "%(" + key + ")s" + rest;
    KeyEndOfPlainKey(t, key, 0);
    assert t[2..2 + |key|] == key;
    assert t[2 + |key| + 1] == 's';
    assert t[2 + |key| + 2..] == rest;
  }

  lemma {:induction false} KeyEndOfPlainKey(t: string, key: string, j: nat)
    requires '(' !in key && ')' !in key
    requires 2 + |key| + 1 <= |t| && t[2..2 + |key|] == key && t[2 + |key|] == ')'
    requires j <= |key|
    ensures KeyEnd(t, 2 + j, 0) == Some(2 + |key|)
    decreases |key| - j
  {
    if j < |key| {
      assert t[2 + j] == key[j];
      KeyEndOfPlainKey(t, key, j + 1);
    }
  }

  /** A `%(key)s` directive after a literal text, followed by more. */
  lemma FormatLiteralThenPlaceholder(lit: string, key: string, rest: string, args: map<string, string>)
    requires '%' !in lit
    requires '(' !in key && ')' !in key && key in args
    ensures Format(lit + "%(" + key + ")s" + rest, args) == Prepend(lit + args[key], Format(rest, args))
  {
    var directive := "%(" + key + ")s";
    DirectiveAfterLiteral(lit, key, rest);
    FormatLiteralPrefix(lit, directive + rest, args);
    FormatPlaceholder(key, rest, args);
    PrependTwice(lit, args[key], Format(rest, args));
  }

  /** A template with one `%(key)s` directive between literal texts. */
  lemma FormatOnePlaceholder(lit: string, key: string, tail: string, args: map<string, string>)
    requires '%' !in lit && '%' !in tail
    requires '(' !in key && ')' !in key && key in args
    ensures Format(lit + "%(" + key + ")s" + tail, args) == Success(lit + args[key] + tail)
  {
    FormatLiteralThenPlaceholder(lit, key, tail, args);
  }

  /** A template with two `%(key)s` directives between literal texts. */
  lemma FormatTwoPlaceholders(lit1: string, key1: string, lit2: string, key2: string, tail: string,
                              args: map<string, string>)
    requires '%' !in lit1 && '%' !in lit2 && '%' !in tail
    requires '(' !in key1 && ')' !in key1 && key1 in args
    requires '(' !in key2 && ')' !in key2 && key2 in args
    ensures Format(lit1 + "%(" + key1 + ")s" + (lit2 + "%(" + key2 + ")s" + tail), args)
         == Success(lit1 + args[key1] + (lit2 + args[key2] + tail))
  {
    FormatLiteralThenPlaceholder(lit1, key1, lit2 + "%(" + key2 + ")s" + tail, args);
    FormatOnePlaceholder(lit2, key2, tail, args);
  }

  /** `tr`: translate, substitute the keyword arguments (only when there
      are any), then strip one layer of brackets. */
  function Tr(gettext: string -> string, message: string, kwargs: map<string, string>): (r: Result<string, FormatError>)
    ensures |kwargs| == 0 ==> r == Success(StripBrackets(gettext(message)))
    ensures |kwargs| > 0 ==> r.Success? == Format(gettext(message), kwargs).Success?
    ensures r.Success? && |kwargs| > 0 ==> r.value == StripBrackets(Format(gettext(message), kwargs).value)
  {
    var translated := gettext(message);
    if |kwargs| == 0 then Success(StripBrackets(translated))
    else match Format(translated, kwargs)
      case Success(s) => Success(StripBrackets(s))
      case Failure(e) => Failure(e)
  }

  /** A translation that formats to a bracketed text yields its inside. */
  lemma TrOfBracketed(gettext: string -> string, message: string, kwargs: map<string, string>, x: string)
    requires |kwargs| > 0 && Format(gettext(message), kwargs) == Success("[" + x + "]")
    ensures Tr(gettext, message, kwargs) == Success(x)
  {
    StripBracketsOfWrapped(x);
  }

  /** `tr` of a bracketed message with one placeholder at its end. */
  lemma TrOnePlaceholder(gettext: string -> string, message: string, lit: string, key: string,
                         args: map<string, string>)
    requires '%' !in lit
    requires '(' !in key && ')' !in key && key in args
    requires gettext(message) == "[" + lit + Placeholder(key) + "]"
    ensures Tr(gettext, message, args) == Success(lit + args[key])
  {
    PlaceholderBetween("[" + lit, key, "]");
    FormatOnePlaceholder("[" + lit, key, "]", args);
    Rebracket(lit, args[key]);
    KeyMakesArgs(key, args);
    TrOfBracketed(gettext, message, args, lit + args[key]);
  }

  /** `tr` of a bracketed message with two placeholders. */
  lemma TrTwoPlaceholders(gettext: string -> string, message: string, lit1: string, key1: string,
                          lit2: string, key2: string, args: map<string, string>)
    requires '%' !in lit1 && '%' !in lit2
    requires '(' !in key1 && ')' !in key1 && key1 in args
    requires '(' !in key2 && ')' !in key2 && key2 in args
    requires gettext(message) == "[" + lit1 + "%(" + key1 + ")s" + (lit2 + "%(" + key2 + ")s" + "]")
    ensures Tr(gettext, message, args) == Success(lit1 + args[key1] + lit2 + args[key2])
  {
    FormatTwoPlaceholders("[" + lit1, key1, lit2, key2, "]", args);
    RebracketTwo(lit1, args[key1], lit2, args[key2]);
    KeyMakesArgs(key1, args);
    TrOfBracketed(gettext, message, args, lit1 + args[key1] + lit2 + args[key2]);
  }

  /** The identity catalogue: every message is its own translation. */
  function Untranslated(message: string): string {
    message
  }

  /** Brackets are stripped after substitution, not before: a closing
      bracket that arrives through a placeholder value counts. */
  lemma TrStripsAfterSubstitution()
    ensures Tr(Untranslated, "[%(x)s", map["x" := "]"]) == Success("")
    ensures Format(StripBrackets("[%(x)s"), map["x" := "]"]) == Success("[]")
  {
    var args := map["x" := "]"];
    OpenBracketTemplate();
    FormatOnePlaceholder("[", "x", "", args);
    KeyMakesArgs("x", args);
  }

  /* -------------------------------------------------- splitting helpers */
  /* The lemmas below state associativity and bracket facts about
     concatenations over variables. They exist only so that the solver
     need not rediscover these facts inside larger proofs. */

  lemma DirectiveAfterLiteral(lit: string, key: string, rest: string)
    ensures lit + "%(" + key + ")s" + rest == lit + ("%(" + key + ")s" + rest)
  {
  }

  lemma PlaceholderBetween(pre: string, key: string, post: string)
    ensures pre + Placeholder(key) + post == pre + "%(" + key + ")s" + post
  {
  }

  lemma Rebracket(a: string, b: string)
    ensures "[" + a + b + "]" == "[" + (a + b) + "]"
  {
  }

  lemma RebracketTwo(a: string, b: string, c: string, d: string)
    ensures "[" + a + b + (c + d + "]") == "[" + (a + b + c + d) + "]"
  {
  }

  lemma KeyMakesArgs(key: string, args: map<string, string>)
    requires key in args
    ensures |args| > 0
  {
    assert key in args.Keys;
  }

  /** The pieces of the template "[%(x)s": no closing bracket of its own. */
  lemma OpenBracketTemplate()
    ensures "[%(x)s" == "[" + "%(" + "x" + ")s" + ""
    ensures "[" + "]" + "" == "[]"
    ensures !IsBracketed("[%(x)s") && IsBracketed("[]")
  {
  }
}
