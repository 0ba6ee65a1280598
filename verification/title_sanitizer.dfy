/** The title-cleaning chain of `moveFile`: `&` becomes `n`, `'` is dropped,
    every other character outside `[A-Za-z0-9.\-_ ]` becomes `-` or a space
    depending on its two neighbours, then the result is trimmed and its
    whitespace runs collapsed to one space.

    The replacement step runs on a JavaScript string, that is on UTF-16 code
    units: a character outside the Basic Multilingual Plane is two units, a
    high and a low surrogate, each replaced on its own and each a neighbour
    that is never alphanumeric. The model keeps that distinction explicit. */
module TitleSanitizer {
  import opened JsString

  /** The characters the cleaned title may keep: `[A-Za-z0-9.\-_ ]`. */
  predicate IsAllowed(c: char) {
    IsAsciiAlnum(c) || c == '.' || c == '-' || c == '_' || c == ' '
  }

  /** A cleaned title: only allowed characters, no space at either end and
      no two spaces in a row. */
  predicate IsCleanTitle(s: string) {
    && (forall i :: 0 <= i < |s| ==> IsAllowed(s[i]))
    && (|s| == 0 || (s[0] != ' ' && s[|s| - 1] != ' '))
    && (forall i :: 0 <= i < |s| - 1 ==> !(s[i] == ' ' && s[i + 1] == ' '))
  }

  /** `replace(/&/g, "n")`. */
  function ReplaceAmpersands(s: string): (r: string)
    ensures |r| == |s| && '&' !in r
    ensures forall i :: 0 <= i < |s| ==> r[i] == (if s[i] == '&' then 'n' else s[i])
  {
    seq(|s|, i requires 0 <= i < |s| => if s[i] == '&' then 'n' else s[i])
  }

  /** `replace(/'/g, "")`. */
  function DropApostrophes(s: string): (r: string)
    ensures '\'' !in r && |r| <= |s|
    ensures |s| == 1 ==> r == (if s[0] == '\'' then "" else s)
  {
    if |s| == 0 then "" else Kept(s[0]) + DropApostrophes(s[1..])
  }

  /** What one character leaves behind: nothing for `'`, itself otherwise. */
  function Kept(c: char): string {
    if c == '\'' then "" else [c]
  }

  /** Dropping apostrophes keeps every other character as often as it
      occurred. */
  lemma {:induction false} DropApostrophesKeepsOthers(s: string)
    ensures multiset(DropApostrophes(s)) == multiset(s)['\'' := 0]
  {
    if |s| > 0 {
      assert s == [s[0]] + s[1..];
      DropCons(s[0], s[1..]);
      DropApostrophesKeepsOthers(s[1..]);
      assert multiset(Kept(s[0])) == multiset([s[0]])['\'' := 0];
      assert multiset(s) == multiset([s[0]]) + multiset(s[1..]);
    }
  }

  /** Dropping apostrophes works piece by piece: the kept characters stay
      in their order. */
  lemma {:induction false} DropApostrophesAppend(a: string, b: string)
    ensures DropApostrophes(a + b) == DropApostrophes(a) + DropApostrophes(b)
    decreases |a|
  {
    if |a| == 0 {
      assert a + b == b;
    } else {
      var t := a[1..];
      ConsSplit(a, b);
      DropCons(a[0], t + b);
      DropCons(a[0], t);
      DropApostrophesAppend(t, b);
      assert Kept(a[0]) + (DropApostrophes(t) + DropApostrophes(b))
          == (Kept(a[0]) + DropApostrophes(t)) + DropApostrophes(b);
    }
  }

  /** Dropping from a string with a known first character. */
  lemma DropCons(c: char, t: string)
    ensures DropApostrophes([c] + t) == Kept(c) + DropApostrophes(t)
  {
    assert ([c] + t)[1..] == t;
  }

  /** A non-empty first part splits into its head and the rest. */
  lemma ConsSplit(a: string, b: string)
    requires |a| > 0
    ensures a == [a[0]] + a[1..] && a + b == [a[0]] + (a[1..] + b)
  {
  }

  /** A string without apostrophes loses nothing. */
  lemma {:induction false} DropApostrophesIdentity(s: string)
    requires '\'' !in s
    ensures DropApostrophes(s) == s
  {
    if |s| > 0 {
      DropApostrophesIdentity(s[1..]);
      assert s == [s[0]] + s[1..];
    }
  }

  predicate UnitIsAllowed(x: Unit) {
    x.Bmp? && IsAllowed(x.c)
  }

  predicate UnitIsAlnum(x: Unit) {
    x.Bmp? && IsAsciiAlnum(x.c)
  }

  /** What the replacement callback returns for the disallowed unit at
      offset `i`: `-` between two alphanumeric neighbours, a space when a
      neighbour is missing or not alphanumeric. */
  function ReplacementAt(u: seq<Unit>, i: nat): char
    requires i < |u|
  {
    if 0 < i && i + 1 < |u| && UnitIsAlnum(u[i - 1]) && UnitIsAlnum(u[i + 1]) then '-' else ' '
  }

  /** `replace(/[^a-zA-Z0-9.\-_ ]/g, callback)`: one pass over the units, the
      neighbours read from the string before the pass, never from characters
      already replaced. */
  function Substitute(u: seq<Unit>): (r: string)
    ensures |r| == |u|
    ensures forall i :: 0 <= i < |u| ==> IsAllowed(r[i])
    ensures forall i :: 0 <= i < |u| && UnitIsAllowed(u[i]) ==> r[i] == u[i].c
    ensures forall i :: 0 <= i < |u| && !UnitIsAllowed(u[i]) ==>
              (r[i] == '-' || r[i] == ' ')
              && (r[i] == '-' <==> 0 < i < |u| - 1 && UnitIsAlnum(u[i - 1]) && UnitIsAlnum(u[i + 1]))
  {
    seq(|u|, i requires 0 <= i < |u| => if UnitIsAllowed(u[i]) then u[i].c else ReplacementAt(u, i))
  }

  /** The characters of a string that are not whitespace, in order. */
  function NonWhitespace(s: string): string {
    if |s| == 0 then ""
    else (if IsWhitespace(s[0]) then "" else [s[0]]) + NonWhitespace(s[1..])
  }

  lemma {:induction false} NonWhitespaceOfLeadingWhitespace(s: string, n: nat)
    requires n <= |s|
    requires forall k :: 0 <= k < n ==> IsWhitespace(s[k])
    ensures NonWhitespace(s) == NonWhitespace(s[n..])
  {
    if n > 0 {
      NonWhitespaceOfLeadingWhitespace(s[1..], n - 1);
      assert s[1..][n - 1..] == s[n..];
    }
  }

  /** Whitespace occurs only as single spaces. */
  predicate IsSingleSpaced(s: string) {
    && (forall i :: 0 <= i < |s| && IsWhitespace(s[i]) ==> s[i] == ' ')
    && (forall i :: 0 <= i < |s| - 1 ==> !(IsWhitespace(s[i]) && IsWhitespace(s[i + 1])))
  }

  predicate AllAllowed(s: string) {
    forall i :: 0 <= i < |s| ==> IsAllowed(s[i])
  }

  /** `replace(/\s+/g, " ")`: every run of whitespace becomes one space.
      Whether the string is empty, starts with whitespace or ends with
      whitespace does not change. */
  function Collapse(s: string): (r: string)
    ensures |r| == 0 <==> |s| == 0
    ensures |s| > 0 ==> (IsWhitespace(r[0]) <==> IsWhitespace(s[0]))
    ensures |s| > 0 ==> (IsWhitespace(r[|r| - 1]) <==> IsWhitespace(s[|s| - 1]))
    decreases |s|
  {
    if |s| == 0 then ""
    else if IsWhitespace(s[0]) then
      var t := TrimStart(s);
      assert |t| > 0 ==> t[|t| - 1] == s[|s| - 1];
      " " + Collapse(t)
    else
      [s[0]] + Collapse(s[1..])
  }

  /** After collapsing, whitespace occurs only as single spaces. */
  lemma {:induction false} CollapseIsSingleSpaced(s: string)
    ensures IsSingleSpaced(Collapse(s))
    decreases |s|
  {
    if |s| > 0 {
      if IsWhitespace(s[0]) {
        CollapseIsSingleSpaced(TrimStart(s));
      } else {
        CollapseIsSingleSpaced(s[1..]);
      }
    }
  }

  /** Collapsing keeps every non-whitespace character, in order. */
  lemma {:induction false} CollapseKeepsContent(s: string)
    ensures NonWhitespace(Collapse(s)) == NonWhitespace(s)
    decreases |s|
  {
    if |s| > 0 {
      if IsWhitespace(s[0]) {
        var t := TrimStart(s);
        CollapseKeepsContent(t);
        NonWhitespaceOfLeadingWhitespace(s, |s| - |t|);
        assert (" " + Collapse(t))[1..] == Collapse(t);
      } else {
        CollapseKeepsContent(s[1..]);
        assert ([s[0]] + Collapse(s[1..]))[1..] == Collapse(s[1..]);
      }
    }
  }

  /** Collapsing introduces no character other than a space. */
  lemma {:induction false} CollapseKeepsAllowed(s: string)
    requires AllAllowed(s)
    ensures AllAllowed(Collapse(s))
    decreases |s|
  {
    if |s| > 0 {
      if IsWhitespace(s[0]) {
        var t := TrimStart(s);
        assert AllAllowed(t) by {
          forall i | 0 <= i < |t| ensures IsAllowed(t[i]) {
            assert t[i] == s[|s| - |t| + i];
          }
        }
        CollapseKeepsAllowed(t);
      } else {
        CollapseKeepsAllowed(s[1..]);
      }
    }
  }

  lemma SingleSpacedTail(s: string)
    requires |s| > 0 && IsSingleSpaced(s)
    ensures IsSingleSpaced(s[1..])
    ensures IsWhitespace(s[0]) ==> s[0] == ' ' && (|s| == 1 || !IsWhitespace(s[1]))
  {
    assert forall i :: 0 <= i < |s| - 1 ==> s[1..][i] == s[i + 1];
  }

  /** A string whose whitespace is already single spaces is its own collapse. */
  lemma {:induction false} CollapseIdentity(s: string)
    requires IsSingleSpaced(s)
    ensures Collapse(s) == s
    decreases |s|
  {
    if |s| > 0 {
      var tail := s[1..];
      SingleSpacedTail(s);
      CollapseIdentity(tail);
      if IsWhitespace(s[0]) {
        assert TrimStart(tail) == tail;
        assert Collapse(s) == " " + Collapse(tail);
      } else {
        assert Collapse(s) == [s[0]] + Collapse(tail);
      }
      assert s == [s[0]] + tail;
    }
  }

  /** A run of whitespace in front of text that does not start with
      whitespace is removed whole by `trimStart`. */
  lemma {:induction false} TrimStartOfRun(w: string, b: string)
    requires forall k :: 0 <= k < |w| ==> IsWhitespace(w[k])
    requires |b| == 0 || !IsWhitespace(b[0])
    ensures TrimStart(w + b) == b
    decreases |w|
  {
    if |w| == 0 {
      assert w + b == b;
    } else {
      assert (w + b)[0] == w[0];
      assert (w + b)[1..] == w[1..] + b;
      TrimStartOfRun(w[1..], b);
    }
  }

  /** `trimStart` of a string ending in non-whitespace stops inside it. */
  lemma {:induction false} TrimStartKeepsTail(a: string, rest: string)
    requires |a| > 0 && !IsWhitespace(a[|a| - 1])
    ensures TrimStart(a + rest) == TrimStart(a) + rest
    decreases |a|
  {
    assert (a + rest)[0] == a[0];
    if IsWhitespace(a[0]) {
      assert (a + rest)[1..] == a[1..] + rest;
      TrimStartKeepsTail(a[1..], rest);
    }
  }

  /** Each interior run of whitespace becomes exactly one space: for text
      `a` ending in non-whitespace, a run `w` and text `b` starting with
      non-whitespace, `a + w + b` collapses to the collapse of `a`, one
      space and the collapse of `b`. */
  lemma {:induction false} CollapseRun(a: string, w: string, b: string)
    requires |a| > 0 && !IsWhitespace(a[|a| - 1])
    requires |w| > 0 && forall k :: 0 <= k < |w| ==> IsWhitespace(w[k])
    requires |b| == 0 || !IsWhitespace(b[0])
    ensures Collapse(a + w + b) == Collapse(a) + " " + Collapse(b)
    decreases |a|
  {
    if IsWhitespace(a[0]) {
      var t := TrimStart(a);
      assert |t| > 0 && t[|t| - 1] == a[|a| - 1];
      assert |t| < |a|;
      CollapseRun(t, w, b);
      RunAfterLeadingSpace(a, w, b);
    } else if |a| == 1 {
      TrimStartOfRun(w, b);
      RunAfterOneChar(a, w, b);
    } else {
      assert a[1..][|a| - 2] == a[|a| - 1];
      CollapseRun(a[1..], w, b);
      RunAfterFirstChar(a, w, b);
    }
  }

  /** The step of CollapseRun for `a` starting with whitespace. */
  lemma RunAfterLeadingSpace(a: string, w: string, b: string)
    requires |a| > 0 && IsWhitespace(a[0]) && !IsWhitespace(a[|a| - 1])
    requires Collapse(TrimStart(a) + w + b) == Collapse(TrimStart(a)) + " " + Collapse(b)
    ensures Collapse(a + w + b) == Collapse(a) + " " + Collapse(b)
  {
    ThreeParts(a, w, b);
    Regroup(a, w, b);
    Regroup(TrimStart(a), w, b);
    TrimStartKeepsTail(a, w + b);
    CollapseSpaceHead(a + w + b);
    CollapseSpaceHead(a);
    SpaceBetween(" ", Collapse(TrimStart(a)), Collapse(b));
  }

  /** The step of CollapseRun for a one-character `a`. */
  lemma RunAfterOneChar(a: string, w: string, b: string)
    requires |a| == 1 && !IsWhitespace(a[0])
    requires |w| > 0 && IsWhitespace(w[0]) && TrimStart(w + b) == b
    ensures Collapse(a + w + b) == Collapse(a) + " " + Collapse(b)
  {
    ThreeParts(a, w, b);
    EmptyParts(a, w, b);
    assert (w + b)[0] == w[0];
    CollapseSpaceHead(w + b);
    CollapseCharHead(a + w + b);
    CollapseCharHead(a);
    SpaceBetween([a[0]], "", Collapse(b));
  }

  lemma EmptyParts(a: string, w: string, b: string)
    requires |a| == 1
    ensures a[1..] + w + b == w + b
    ensures "" + " " + b == " " + b
    ensures [a[0]] + "" == [a[0]]
  {
  }

  /** The step of CollapseRun for `a` starting with non-whitespace. */
  lemma RunAfterFirstChar(a: string, w: string, b: string)
    requires |a| > 1 && !IsWhitespace(a[0])
    requires Collapse(a[1..] + w + b) == Collapse(a[1..]) + " " + Collapse(b)
    ensures Collapse(a + w + b) == Collapse(a) + " " + Collapse(b)
  {
    ThreeParts(a, w, b);
    CollapseCharHead(a + w + b);
    CollapseCharHead(a);
    SpaceBetween([a[0]], Collapse(a[1..]), Collapse(b));
  }

  lemma SpaceBetween(c: string, x: string, y: string)
    ensures c + (x + " " + y) == (c + x) + " " + y
  {
  }

  /** How `a + w + b` splits at its first character and after `a`. */
  lemma ThreeParts(a: string, w: string, b: string)
    requires |a| > 0
    ensures (a + w + b)[0] == a[0]
    ensures (a + w + b)[1..] == a[1..] + w + b
  {
  }

  lemma Regroup(x: string, y: string, z: string)
    ensures x + (y + z) == x + y + z
  {
  }

  lemma CollapseSpaceHead(s: string)
    requires |s| > 0 && IsWhitespace(s[0])
    ensures Collapse(s) == " " + Collapse(TrimStart(s))
  {
  }

  lemma CollapseCharHead(s: string)
    requires |s| > 0 && !IsWhitespace(s[0])
    ensures Collapse(s) == [s[0]] + Collapse(s[1..])
  {
  }

  /** A leading whitespace run of any length becomes one space in front of
      the collapse of the text after it. */
  lemma CollapseLeadingRun(w: string, t: string)
    requires |w| > 0 && forall k :: 0 <= k < |w| ==> IsWhitespace(w[k])
    requires |t| == 0 || !IsWhitespace(t[0])
    ensures Collapse(w + t) == " " + Collapse(t)
  {
    assert (w + t)[0] == w[0];
    CollapseSpaceHead(w + t);
    TrimStartOfRun(w, t);
  }

  /** Text without whitespace collapses to itself. */
  lemma CollapseNoWhitespace(s: string)
    requires forall k :: 0 <= k < |s| ==> !IsWhitespace(s[k])
    ensures Collapse(s) == s
  {
    CollapseIdentity(s);
  }

  /** The whole cleaning chain of `moveFile`. */
  function Clean(title: string): (r: string)
    ensures IsCleanTitle(r)
  {
    var u := Substitute(ToUnits(DropApostrophes(ReplaceAmpersands(title))));
    var t := Trim(u);
    TrimKeepsAllowed(u);
    var r := Collapse(t);
    CollapseIsSingleSpaced(t);
    CollapseKeepsAllowed(t);
    SingleSpacedAllowedIsClean(r);
    r
  }

  lemma SliceKeepsAllowed(s: string, a: nat, b: nat)
    requires a <= b <= |s| && AllAllowed(s)
    ensures AllAllowed(s[a..b])
  {
    assert forall i :: 0 <= i < b - a ==> s[a..b][i] == s[a + i];
  }

  lemma TrimKeepsAllowed(s: string)
    requires AllAllowed(s)
    ensures AllAllowed(Trim(s))
  {
    var n := LeadingWhitespace(s);
    SliceKeepsAllowed(s, n, n + |Trim(s)|);
  }

  lemma SingleSpacedAllowedIsClean(r: string)
    requires AllAllowed(r) && IsSingleSpaced(r)
    requires |r| == 0 || (!IsWhitespace(r[0]) && !IsWhitespace(r[|r| - 1]))
    ensures IsCleanTitle(r)
  {
    assert IsWhitespace(' ');
  }

  /** An allowed character is whitespace only when it is a space. */
  lemma AllowedWhitespaceIsSpace(c: char)
    requires IsAllowed(c)
    ensures IsWhitespace(c) <==> c == ' '
  {
  }

  /** The context-free replacements leave a string of allowed characters alone. */
  lemma PrePassIdentity(x: string)
    requires AllAllowed(x)
    ensures DropApostrophes(ReplaceAmpersands(x)) == x
  {
    assert ReplaceAmpersands(x) == x;
    assert '\'' !in x by {
      forall i | 0 <= i < |x| ensures x[i] != '\'' { assert IsAllowed(x[i]); }
    }
    DropApostrophesIdentity(x);
  }

  /** The context-sensitive pass leaves a string of allowed characters alone. */
  lemma SubstituteIdentity(x: string)
    requires AllAllowed(x)
    ensures Substitute(ToUnits(x)) == x
  {
    assert forall i :: 0 <= i < |x| ==> x[i] as int < 0x1_0000 by {
      forall i | 0 <= i < |x| ensures x[i] as int < 0x1_0000 { assert IsAllowed(x[i]); }
    }
  }

  /** A clean title is single-spaced with no whitespace at either end. */
  lemma CleanTitleIsSingleSpaced(x: string)
    requires IsCleanTitle(x)
    ensures IsSingleSpaced(x)
    ensures |x| == 0 || (!IsWhitespace(x[0]) && !IsWhitespace(x[|x| - 1]))
  {
    forall i | 0 <= i < |x| ensures IsWhitespace(x[i]) <==> x[i] == ' ' {
      AllowedWhitespaceIsSpace(x[i]);
    }
  }

  /** Cleaning leaves a title unchanged exactly when it is already clean. */
  lemma CleanFixedPoint(x: string)
    ensures Clean(x) == x <==> IsCleanTitle(x)
  {
    if IsCleanTitle(x) {
      PrePassIdentity(x);
      SubstituteIdentity(x);
      CleanTitleIsSingleSpaced(x);
      TrimIdentity(x);
      CollapseIdentity(x);
    }
  }

  /** Cleaning twice is cleaning once. */
  lemma CleanIdempotent(x: string)
    ensures Clean(Clean(x)) == Clean(x)
  {
    CleanFixedPoint(Clean(x));
  }

  /** A character of the Basic Multilingual Plane that reaches the
      context-sensitive pass and is replaced there. */
  predicate IsReplaced(c: char) {
    c as int < 0x1_0000 && !IsAllowed(c) && c != '&' && c != '\''
  }

  /** Neither stage of the pre-pass touches a string without `&` and `'`. */
  lemma PrePassKeeps(s: string)
    requires '&' !in s && '\'' !in s
    ensures DropApostrophes(ReplaceAmpersands(s)) == s
  {
    assert ReplaceAmpersands(s) == s;
    DropApostrophesIdentity(s);
  }

  /** `x + "-" + y` and `x + " " + y` for alphanumeric x and y are already clean. */
  lemma ThreeCharactersClean(x: char, m: char, y: char)
    requires IsAsciiAlnum(x) && IsAsciiAlnum(y) && (m == '-' || m == ' ')
    ensures Collapse(Trim([x, m, y])) == [x, m, y]
  {
    assert !IsWhitespace(x) && !IsWhitespace(y);
    TrimIdentity([x, m, y]);
    CollapseIdentity([x, m, y]);
  }

  /** Two spaces between alphanumerics collapse to one. */
  lemma DoubleSpaceCollapses(x: char, y: char)
    requires IsAsciiAlnum(x) && IsAsciiAlnum(y)
    ensures Collapse(Trim([x, ' ', ' ', y])) == [x, ' ', y]
  {
    assert !IsWhitespace(x) && !IsWhitespace(y);
    TrimIdentity([x, ' ', ' ', y]);
    SpacesThenLetter(y);
    assert [x, ' ', ' ', y][1..] == [' ', ' ', y];
  }

  lemma SpacesThenLetter(y: char)
    requires IsAsciiAlnum(y)
    ensures Collapse([' ', ' ', y]) == [' ', y]
  {
    assert !IsWhitespace(y) && IsWhitespace(' ');
    assert [' ', ' ', y][1..] == [' ', y];
    assert [' ', y][1..] == [y];
    assert TrimStart([y]) == [y];
    assert TrimStart([' ', y]) == [y];
    assert TrimStart([' ', ' ', y]) == [y];
    CollapseIdentity([y]);
  }

  /** A replaced character between two alphanumerics becomes `-`: `a!b`
      gives `a-b`. */
  lemma HyphenBetweenAlnums(x: char, c: char, y: char)
    requires IsAsciiAlnum(x) && IsAsciiAlnum(y) && IsReplaced(c)
    ensures Clean([x, c, y]) == [x, '-', y]
  {
    PrePassKeeps([x, c, y]);
    HyphenUnits(x, c, y);
    ThreeCharactersClean(x, '-', y);
  }

  lemma HyphenUnits(x: char, c: char, y: char)
    requires IsAsciiAlnum(x) && IsAsciiAlnum(y) && IsReplaced(c)
    ensures Substitute(ToUnits([x, c, y])) == [x, '-', y]
  {
    assert ToUnits([x, c, y]) == [Bmp(x), Bmp(c), Bmp(y)];
  }

  /** Two replaced characters in a row each see a non-alphanumeric neighbour
      in the string before the pass, so both become spaces: `a!!b` gives
      `a b`, not `a--b`. */
  lemma SpaceBetweenTwoReplaced(x: char, c: char, d: char, y: char)
    requires IsAsciiAlnum(x) && IsAsciiAlnum(y) && IsReplaced(c) && IsReplaced(d)
    ensures Clean([x, c, d, y]) == [x, ' ', y]
  {
    PrePassKeeps([x, c, d, y]);
    TwoReplacedUnits(x, c, d, y);
    DoubleSpaceCollapses(x, y);
  }

  lemma TwoReplacedUnits(x: char, c: char, d: char, y: char)
    requires IsAsciiAlnum(x) && IsAsciiAlnum(y) && IsReplaced(c) && IsReplaced(d)
    ensures Substitute(ToUnits([x, c, d, y])) == [x, ' ', ' ', y]
  {
    assert ToUnits([x, c, d, y]) == [Bmp(x), Bmp(c), Bmp(d), Bmp(y)];
  }

  /** A character outside the Basic Multilingual Plane is a surrogate pair,
      each half next to a non-alphanumeric half, so even between two
      alphanumerics it becomes a space. */
  lemma SpaceForSurrogatePair(x: char, e: char, y: char)
    requires IsAsciiAlnum(x) && IsAsciiAlnum(y) && e as int >= 0x1_0000
    ensures Clean([x, e, y]) == [x, ' ', y]
  {
    PrePassKeeps([x, e, y]);
    SurrogatePairUnits(x, e, y);
    DoubleSpaceCollapses(x, y);
  }

  lemma SurrogatePairUnits(x: char, e: char, y: char)
    requires IsAsciiAlnum(x) && IsAsciiAlnum(y) && e as int >= 0x1_0000
    ensures Substitute(ToUnits([x, e, y])) == [x, ' ', ' ', y]
  {
    assert ToUnits([x, e, y]) == [Bmp(x), HighSurrogate(e), LowSurrogate(e), Bmp(y)];
  }

  /** `&` becomes the letter `n` before any neighbour is looked at: `a&b`
      gives `anb`. */
  lemma AmpersandBecomesN(x: char, y: char)
    requires IsAsciiAlnum(x) && IsAsciiAlnum(y)
    ensures Clean([x, '&', y]) == [x, 'n', y]
  {
    AmpersandPrePass(x, y);
    AllowedUnits([x, 'n', y]);
    ThreeLettersClean(x, 'n', y);
  }

  lemma AmpersandPrePass(x: char, y: char)
    requires IsAsciiAlnum(x) && IsAsciiAlnum(y)
    ensures DropApostrophes(ReplaceAmpersands([x, '&', y])) == [x, 'n', y]
  {
    assert ReplaceAmpersands([x, '&', y]) == [x, 'n', y];
    DropApostrophesIdentity([x, 'n', y]);
  }

  /** `'` disappears outright, joining its neighbours: `a'b` gives `ab`. */
  lemma ApostropheDropped(x: char, y: char)
    requires IsAsciiAlnum(x) && IsAsciiAlnum(y)
    ensures Clean([x, '\'', y]) == [x, y]
  {
    ApostrophePrePass(x, y);
    AllowedUnits([x, y]);
    assert IsCleanTitle([x, y]);
    CleanTitleIsSingleSpaced([x, y]);
    TrimIdentity([x, y]);
    CollapseIdentity([x, y]);
  }

  lemma ApostrophePrePass(x: char, y: char)
    requires IsAsciiAlnum(x) && IsAsciiAlnum(y)
    ensures DropApostrophes(ReplaceAmpersands([x, '\'', y])) == [x, y]
  {
    assert ReplaceAmpersands([x, '\'', y]) == [x, '\'', y];
    assert [x, '\'', y][1..] == ['\'', y];
    assert ['\'', y][1..] == [y];
    assert DropApostrophes([y]) == [y];
  }

  lemma AllowedUnits(s: string)
    requires AllAllowed(s)
    ensures Substitute(ToUnits(s)) == s
  {
    SubstituteIdentity(s);
  }

  lemma ThreeLettersClean(x: char, m: char, y: char)
    requires IsAllowed(x) && x != ' ' && IsAllowed(m) && m != ' ' && IsAllowed(y) && y != ' '
    ensures Collapse(Trim([x, m, y])) == [x, m, y]
  {
    assert IsCleanTitle([x, m, y]);
    CleanTitleIsSingleSpaced([x, m, y]);
    TrimIdentity([x, m, y]);
    CollapseIdentity([x, m, y]);
  }
}
