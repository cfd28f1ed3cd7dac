/** String helpers behind the description resolver: Python's whitespace
    split, `" ".join`, `strip`, ASCII `lower`, `replace("_", " ")`,
    `endswith`, and code-point string ordering. */
module Text {

  /** The code points CPython's `str.split()` (with no separator) treats as
      whitespace. */
  predicate IsSpace(c: char) {
    var n := c as int;
    || 9 <= n <= 13
    || 28 <= n <= 32
    || n == 0x85 || n == 0xA0 || n == 0x1680
    || 0x2000 <= n <= 0x200A
    || n == 0x2028 || n == 0x2029 || n == 0x202F || n == 0x205F || n == 0x3000
  }

  predicate AllSpaces(s: string) {
    forall i :: 0 <= i < |s| ==> IsSpace(s[i])
  }

  /** A word of `str.split()`: non-empty and free of whitespace. */
  predicate IsWord(w: string) {
    |w| > 0 && forall i :: 0 <= i < |w| ==> !IsSpace(w[i])
  }

  /** The shape of a normalised text: no whitespace at either end, every
      whitespace character is a plain space, and no two are adjacent. The
      adjacency clause names the neighbour `s[j]` with `j == i + 1`, rather
      than writing `s[i + 1]`, so that its trigger cannot feed itself. */
  predicate IsNormal(s: string) {
    && (|s| > 0 ==> !IsSpace(s[0]) && !IsSpace(s[|s| - 1]))
    && (forall i :: 0 <= i < |s| && IsSpace(s[i]) ==> s[i] == ' ')
    && (forall i, j :: 0 <= i < |s| && 0 <= j < |s| && j == i + 1 ==> !IsSpace(s[i]) || !IsSpace(s[j]))
  }

  function DropLeadingSpaces(s: string): string {
    if |s| > 0 && IsSpace(s[0]) then DropLeadingSpaces(s[1..]) else s
  }

  /** `DropLeadingSpaces` removes a prefix of whitespace and stops at a
      non-space character. */
  lemma {:induction false} DropLeadingSpacesFacts(s: string)
    ensures var r := DropLeadingSpaces(s);
      && |r| <= |s| && r == s[|s| - |r|..]
      && (|r| > 0 ==> !IsSpace(r[0]))
      && (forall i :: 0 <= i < |s| - |r| ==> IsSpace(s[i]))
    decreases |s|
  {
    if |s| > 0 && IsSpace(s[0]) {
      DropLeadingSpacesFacts(s[1..]);
      var r := DropLeadingSpaces(s);
      assert forall i :: 1 <= i < |s| - |r| ==> s[i] == s[1..][i - 1];
    }
  }

  function DropTrailingSpaces(s: string): string {
    if |s| > 0 && IsSpace(s[|s| - 1]) then DropTrailingSpaces(s[..|s| - 1]) else s
  }

  /** Python's `str.strip()` with no argument. */
  function Strip(s: string): string {
    DropTrailingSpaces(DropLeadingSpaces(s))
  }

  /** The longest prefix of `s` without whitespace. */
  function LeadingWord(s: string): (w: string)
    ensures |w| <= |s| && w == s[..|w|]
    ensures forall i :: 0 <= i < |w| ==> !IsSpace(w[i])
    ensures |w| < |s| ==> IsSpace(s[|w|])
    ensures |s| > 0 && !IsSpace(s[0]) ==> |w| > 0
  {
    if |s| > 0 && !IsSpace(s[0]) then [s[0]] + LeadingWord(s[1..]) else ""
  }

  /** Python's `str.split()` with no argument: the maximal runs of
      non-whitespace characters, left to right. */
  function Split(s: string): (words: seq<string>)
    ensures forall k :: 0 <= k < |words| ==> IsWord(words[k])
    decreases |s|
  {
    var t := DropLeadingSpaces(s);
    DropLeadingSpacesFacts(s);
    if |t| == 0 then []
    else
      var w := LeadingWord(t);
      var rest := Split(t[|w|..]);
      PrependWord(w, rest);
      [w] + rest
  }

  lemma PrependWord(w: string, ws: seq<string>)
    requires IsWord(w) && forall k :: 0 <= k < |ws| ==> IsWord(ws[k])
    ensures forall k :: 0 <= k < |[w] + ws| ==> IsWord(([w] + ws)[k])
  {
    forall k | 0 <= k < |[w] + ws|
      ensures IsWord(([w] + ws)[k])
    {
      if k > 0 {
        assert ([w] + ws)[k] == ws[k - 1];
      }
    }
  }

  /** Python's `sep.join(parts)`. */
  function Join(parts: seq<string>, sep: string): string {
    if |parts| == 0 then ""
    else if |parts| == 1 then parts[0]
    else parts[0] + sep + Join(parts[1..], sep)
  }

  /** `_normalize_text`: "" for an empty text, otherwise
      `" ".join(text.split()).strip()`. */
  function Normalize(s: string): string {
    if |s| == 0 then "" else Strip(Join(Split(s), " "))
  }

  /** Normalising yields a text in normal form. */
  lemma NormalizeIsNormal(s: string)
    ensures IsNormal(Normalize(s))
  {
    if |s| > 0 {
      JoinOfWordsIsNormal(Split(s));
      StripKeepsNormal(Join(Split(s), " "));
    }
  }

  lemma StripKeepsNormal(s: string)
    requires IsNormal(s)
    ensures Strip(s) == s
  {
  }

  lemma {:induction false} JoinOfWordsIsNormal(ws: seq<string>)
    requires forall k :: 0 <= k < |ws| ==> IsWord(ws[k])
    ensures IsNormal(Join(ws, " "))
    ensures |ws| > 0 ==> |Join(ws, " ")| > 0
    decreases |ws|
  {
    if |ws| > 1 {
      var w := ws[0];
      var rest := Join(ws[1..], " ");
      JoinOfWordsIsNormal(ws[1..]);
      var r := w + " " + rest;
      assert r == Join(ws, " ");
      assert forall i :: 0 <= i < |w| ==> r[i] == w[i];
      assert r[|w|] == ' ';
      assert forall i :: |w| < i < |r| ==> r[i] == rest[i - |w| - 1];
    }
  }

  /** A leading whitespace character does not change the words. */
  lemma SplitSkipsSpace(c: char, s: string)
    requires IsSpace(c)
    ensures Split([c] + s) == Split(s)
  {
    assert ([c] + s)[1..] == s;
  }

  lemma {:induction false} LeadingWordOf(w: string, s: string)
    requires forall i :: 0 <= i < |w| ==> !IsSpace(w[i])
    requires |s| == 0 || IsSpace(s[0])
    ensures LeadingWord(w + s) == w
    decreases |w|
  {
    if |w| > 0 {
      assert (w + s)[1..] == w[1..] + s;
      LeadingWordOf(w[1..], s);
      assert w == [w[0]] + w[1..];
    } else {
      assert w + s == s;
    }
  }

  /** A word followed by whitespace (or nothing) is split off first. */
  lemma SplitOfWordThen(w: string, s: string)
    requires IsWord(w)
    requires |s| == 0 || IsSpace(s[0])
    ensures Split(w + s) == [w] + Split(s)
  {
    var t := w + s;
    assert t[0] == w[0];
    assert DropLeadingSpaces(t) == t;
    LeadingWordOf(w, s);
    assert t[|w|..] == s;
  }

  lemma SplitJoinStep(ws: seq<string>)
    requires |ws| > 1 && IsWord(ws[0])
    ensures Split(Join(ws, " ")) == [ws[0]] + Split(Join(ws[1..], " "))
  {
    var rest := Join(ws[1..], " ");
    assert Join(ws, " ") == ws[0] + ([' '] + rest);
    SplitOfWordThen(ws[0], [' '] + rest);
    SplitSkipsSpace(' ', rest);
  }

  /** Splitting a space-joined list of words gives the words back. */
  lemma {:induction false} SplitJoin(ws: seq<string>)
    requires forall k :: 0 <= k < |ws| ==> IsWord(ws[k])
    ensures Split(Join(ws, " ")) == ws
    decreases |ws|
  {
    if |ws| == 1 {
      SplitOneWord(ws[0]);
    } else if |ws| > 1 {
      var tail := ws[1..];
      WordsTail(ws);
      SplitJoinStep(ws);
      SplitJoin(tail);
      assert ws == [ws[0]] + tail;
    }
  }

  lemma SplitOneWord(w: string)
    requires IsWord(w)
    ensures Split(Join([w], " ")) == [w]
  {
    SplitOfWordThen(w, "");
    assert w + "" == w;
  }

  lemma WordsTail(ws: seq<string>)
    requires |ws| > 0 && forall k :: 0 <= k < |ws| ==> IsWord(ws[k])
    ensures IsWord(ws[0]) && forall k :: 0 <= k < |ws[1..]| ==> IsWord(ws[1..][k])
  {
  }

  lemma SplitEmptyIff(s: string)
    ensures Split(s) == [] <==> AllSpaces(s)
  {
    var t := DropLeadingSpaces(s);
    DropLeadingSpacesFacts(s);
    if |t| > 0 {
      assert s[|s| - |t|] == t[0];
    }
  }

  /** Normalisation keeps exactly the words of its input. */
  lemma NormalizeKeepsWords(s: string)
    ensures Split(Normalize(s)) == Split(s)
  {
    if |s| > 0 {
      JoinOfWordsIsNormal(Split(s));
      StripKeepsNormal(Join(Split(s), " "));
      SplitJoin(Split(s));
    }
  }

  /** The normalised text is empty exactly when the input is all whitespace. */
  lemma NormalizeEmptyIff(s: string)
    ensures Normalize(s) == "" <==> AllSpaces(s)
  {
    SplitEmptyIff(s);
    if |s| > 0 {
      var ws := Split(s);
      JoinOfWordsIsNormal(ws);
      StripKeepsNormal(Join(ws, " "));
    }
  }

  lemma NormalizeIdempotent(s: string)
    ensures Normalize(Normalize(s)) == Normalize(s)
  {
    var r := Normalize(s);
    if |r| > 0 {
      NormalizeKeepsWords(s);
      assert Split(r) == Split(s);
      NormalizeEmptyIff(s);
      assert |s| > 0;
    }
  }

  /** A word, a space, and the rest: the word is split off, the space
      dropped. */
  lemma SplitWordSpace(w: string, tail: string)
    requires IsWord(w)
    ensures Split(w + ([' '] + tail)) == [w] + Split(tail)
  {
    SplitOfWordThen(w, [' '] + tail);
    SplitSkipsSpace(' ', tail);
  }

  /** A normal text with a space in it is its first word, a space, and the
      rest. */
  lemma NormalSplitStep(s: string, w: string)
    requires IsNormal(s) && |s| > 0 && w == LeadingWord(s) && |w| < |s|
    ensures IsWord(w) && s[|w|] == ' '
    ensures s == w + ([' '] + s[|w| + 1..])
  {
    var k := |w|;
    assert IsSpace(s[k]);
    assert s[k] == ' ';
    SplitAround(s, k);
  }

  lemma SplitAround(s: string, k: nat)
    requires k < |s|
    ensures s == s[..k] + ([s[k]] + s[k + 1..])
  {
    assert s == s[..k] + s[k..];
    assert s[k..] == [s[k]] + s[k + 1..];
  }

  /** A text already in normal form is the space-join of its own words. */
  lemma {:induction false} JoinSplitOfNormal(s: string)
    requires IsNormal(s)
    ensures Join(Split(s), " ") == s
    decreases |s|
  {
    if |s| > 0 {
      var w := LeadingWord(s);
      if |w| == |s| {
        JoinSplitOfWord(s);
      } else {
        var tail := s[|w| + 1..];
        NormalSplitStep(s, w);
        NormalTail(s, |w|);
        JoinSplitOfNormal(tail);
        JoinSplitCons(w, tail, s);
      }
    }
  }

  lemma JoinSplitOfWord(s: string)
    requires |s| > 0 && !IsSpace(s[0]) && |LeadingWord(s)| == |s|
    ensures Join(Split(s), " ") == s
  {
    assert LeadingWord(s) == s;
    SplitOfWordThen(s, "");
    assert s + "" == s;
  }

  lemma JoinSplitCons(w: string, tail: string, s: string)
    requires IsWord(w) && s == w + ([' '] + tail)
    requires Join(Split(tail), " ") == tail && |tail| > 0
    ensures Join(Split(s), " ") == s
  {
    SplitWordSpace(w, tail);
    JoinCons(w, Split(tail), tail);
  }

  lemma JoinCons(w: string, ws: seq<string>, tail: string)
    requires Join(ws, " ") == tail && |tail| > 0
    ensures Join([w] + ws, " ") == w + ([' '] + tail)
  {
    assert |ws| > 0;
    assert ([w] + ws)[1..] == ws;
  }

  /** Past a single space, the rest of a normal text is again normal and
      non-empty. */
  lemma NormalTail(s: string, k: nat)
    requires IsNormal(s) && k < |s| && s[k] == ' '
    ensures k + 1 < |s|
    ensures IsNormal(s[k + 1..]) && |s[k + 1..]| > 0 && !IsSpace(s[k + 1])
  {
    var tail := s[k + 1..];
    assert forall i :: 0 <= i < |tail| ==> tail[i] == s[k + 1 + i];
  }

  /** The texts normalisation leaves alone are exactly the normal ones. */
  lemma NormalizeFixesExactlyNormal(s: string)
    ensures Normalize(s) == s <==> IsNormal(s)
  {
    NormalizeIsNormal(s);
    if IsNormal(s) && |s| > 0 {
      JoinSplitOfNormal(s);
      StripKeepsNormal(s);
    }
  }

  /** ASCII-only model of `str.lower()`. */
  function LowerChar(c: char): (r: char)
    ensures 'A' <= c <= 'Z' ==> r as int == c as int + 32
    ensures !('A' <= c <= 'Z') ==> r == c
  {
    if 'A' <= c <= 'Z' then (c as int + 32) as char else c
  }

  function Lower(s: string): (r: string)
    ensures |r| == |s|
  {
    seq(|s|, i requires 0 <= i < |s| => LowerChar(s[i]))
  }

  /** `name.replace("_", " ")`, the name Django derives a default verbose
      name from. */
  function UnderscoresToSpaces(s: string): (r: string)
    ensures |r| == |s|
  {
    seq(|s|, i requires 0 <= i < |s| => if s[i] == '_' then ' ' else s[i])
  }

  predicate EndsWith(s: string, suffix: string) {
    |suffix| <= |s| && s[|s| - |suffix|..] == suffix
  }

  /** Python's `a <= b` on strings: lexicographic by code point, a proper
      prefix before its extensions. */
  predicate StrLe(a: string, b: string)
    decreases |a|
  {
    |a| == 0 || (|b| > 0 && (a[0] < b[0] || (a[0] == b[0] && StrLe(a[1..], b[1..]))))
  }

  /** Python's `a < b` on strings. */
  predicate StrLt(a: string, b: string) {
    StrLe(a, b) && a != b
  }

  lemma {:induction false} StrLeReflexive(a: string)
    ensures StrLe(a, a)
    decreases |a|
  {
    if |a| > 0 {
      StrLeReflexive(a[1..]);
    }
  }

  lemma {:induction false} StrLeTotal(a: string, b: string)
    ensures StrLe(a, b) || StrLe(b, a)
    decreases |a|
  {
    if |a| > 0 && |b| > 0 && a[0] == b[0] {
      StrLeTotal(a[1..], b[1..]);
    }
  }

  lemma {:induction false} StrLeTransitive(a: string, b: string, c: string)
    requires StrLe(a, b) && StrLe(b, c)
    ensures StrLe(a, c)
    decreases |a|
  {
    if |a| > 0 && a[0] == b[0] && b[0] == c[0] {
      StrLeTransitive(a[1..], b[1..], c[1..]);
    }
  }

  lemma {:induction false} StrLeAntisymmetric(a: string, b: string)
    requires StrLe(a, b) && StrLe(b, a)
    ensures a == b
    decreases |a|
  {
    if |a| > 0 {
      StrLeAntisymmetric(a[1..], b[1..]);
      assert a == [a[0]] + a[1..];
      assert b == [b[0]] + b[1..];
    }
  }
}
