/** The few JavaScript string built-ins the plugin relies on, over strings
    as sequences of characters: `trim`, the `\s` class, `split` on a
    one-character separator, `startsWith`/`endsWith`, and ASCII case. */
module JsString {

  /** The characters `String.prototype.trim` removes and the regular
      expression class `\s` matches: the WhiteSpace and LineTerminator
      productions of ECMAScript, 25 code points in all. Tab, line feed,
      vertical tab, form feed and carriage return are the run U+0009 to
      U+000D; U+2000 to U+200A are the typographic spaces; U+2028 and
      U+2029 are the line and paragraph separators. */
  predicate IsWhitespace(c: char) {
    || ('\t' <= c <= '\r')
    || c == ' '
    || c == '\U{00A0}'
    || c == '\U{1680}'
    || ('\U{2000}' <= c <= '\U{200A}')
    || ('\U{2028}' <= c <= '\U{2029}')
    || c == '\U{202F}'
    || c == '\U{205F}'
    || c == '\U{3000}'
    || c == '\U{FEFF}'
  }

  predicate IsAsciiAlnum(c: char) {
    ('a' <= c <= 'z') || ('A' <= c <= 'Z') || ('0' <= c <= '9')
  }

  function AsciiLower(c: char): (r: char)
    ensures 'A' <= c <= 'Z' ==> 'a' <= r <= 'z' && r as int - c as int == 32
    ensures !('A' <= c <= 'Z') ==> r == c
  {
    if 'A' <= c <= 'Z' then (c as int + 32) as char else c
  }

  function AsciiUpper(c: char): (r: char)
    ensures 'a' <= c <= 'z' ==> 'A' <= r <= 'Z' && c as int - r as int == 32
    ensures !('a' <= c <= 'z') ==> r == c
  {
    if 'a' <= c <= 'z' then (c as int - 32) as char else c
  }

  /** `toLowerCase` on ASCII: each capital becomes its small letter and
      every other character stays. */
  function LowerCase(s: string): (r: string)
    ensures |r| == |s|
    ensures forall i :: 0 <= i < |s| ==> r[i] == AsciiLower(s[i])
  {
    seq(|s|, i requires 0 <= i < |s| => AsciiLower(s[i]))
  }

  /** The string between double quotes. */
  function Quote(s: string): (r: string)
    ensures |r| == |s| + 2 && r[0] == '"' && r[|r| - 1] == '"'
    ensures r[1..|r| - 1] == s
  {
    "\"" + s + "\""
  }

  predicate StartsWith(s: string, prefix: string) {
    |prefix| <= |s| && s[..|prefix|] == prefix
  }

  predicate EndsWith(s: string, suffix: string) {
    |suffix| <= |s| && s[|s| - |suffix|..] == suffix
  }

  /** `s.trimStart()`: the longest suffix of `s` that does not start with
      whitespace, everything before it being whitespace. */
  function TrimStart(s: string): (r: string)
    ensures |r| <= |s| && r == s[|s| - |r|..]
    ensures |r| == 0 || !IsWhitespace(r[0])
    ensures forall k :: 0 <= k < |s| - |r| ==> IsWhitespace(s[k])
    decreases |s|
  {
    if |s| > 0 && IsWhitespace(s[0]) then
      var t := TrimStart(s[1..]);
      assert s[1..][|s| - 1 - |t|..] == s[|s| - |t|..];
      t
    else
      s
  }

  /** `s.trimEnd()`: the longest prefix of `s` that does not end with
      whitespace, everything after it being whitespace. */
  function TrimEnd(s: string): (r: string)
    ensures |r| <= |s| && r == s[..|r|]
    ensures |r| == 0 || !IsWhitespace(r[|r| - 1])
    ensures forall k :: |r| <= k < |s| ==> IsWhitespace(s[k])
    decreases |s|
  {
    if |s| > 0 && IsWhitespace(s[|s| - 1]) then TrimEnd(s[..|s| - 1]) else s
  }

  /** The number of whitespace characters `s` starts with. */
  function LeadingWhitespace(s: string): nat {
    |s| - |TrimStart(s)|
  }

  /** `s.trim()`: the slice of `s` after its leading whitespace, with neither
      leading nor trailing whitespace, only whitespace removed after it. */
  function Trim(s: string): (r: string)
    ensures LeadingWhitespace(s) + |r| <= |s|
    ensures r == s[LeadingWhitespace(s)..LeadingWhitespace(s) + |r|]
    ensures forall k :: 0 <= k < LeadingWhitespace(s) ==> IsWhitespace(s[k])
    ensures forall k :: LeadingWhitespace(s) + |r| <= k < |s| ==> IsWhitespace(s[k])
    ensures |r| == 0 || (!IsWhitespace(r[0]) && !IsWhitespace(r[|r| - 1]))
  {
    TrimEnd(TrimStart(s))
  }

  /** Trimming a string that has no whitespace at either end changes nothing. */
  lemma TrimIdentity(s: string)
    requires |s| == 0 || (!IsWhitespace(s[0]) && !IsWhitespace(s[|s| - 1]))
    ensures Trim(s) == s
  {
  }

  /** Trimming twice is trimming once. */
  lemma TrimIdempotent(s: string)
    ensures Trim(Trim(s)) == Trim(s)
  {
    TrimIdentity(Trim(s));
  }

  /** Trimming only removes characters: a character absent from `s` is
      absent from its trim. */
  lemma TrimAddsNothing(s: string, c: char)
    requires c !in s
    ensures c !in Trim(s)
  {
    var t := Trim(s);
    var n := LeadingWhitespace(s);
    forall k | 0 <= k < |t| ensures t[k] != c {
      assert t[k] == s[n + k];
    }
  }

  /** A string trims to nothing exactly when it is all whitespace. */
  lemma TrimIsEmpty(s: string)
    ensures Trim(s) == "" <==> forall k :: 0 <= k < |s| ==> IsWhitespace(s[k])
  {
    if forall k :: 0 <= k < |s| ==> IsWhitespace(s[k]) {
      TrimOfWhitespace(s);
    }
  }

  /** A string of whitespace alone trims to nothing. */
  lemma {:induction false} TrimOfWhitespace(s: string)
    requires forall k :: 0 <= k < |s| ==> IsWhitespace(s[k])
    ensures TrimStart(s) == "" && Trim(s) == ""
    decreases |s|
  {
    if |s| > 0 {
      TrimOfWhitespace(s[1..]);
    }
  }

  /** `s.split(sep)` for a one-character separator: always at least one
      part, no part contains the separator. */
  function Split(s: string, sep: char): (parts: seq<string>)
    ensures |parts| >= 1
    ensures forall k :: 0 <= k < |parts| ==> sep !in parts[k]
    ensures Join(parts, sep) == s
    decreases |s|
  {
    if |s| == 0 then [""]
    else
      var rest := Split(s[1..], sep);
      if s[0] == sep then [""] + rest
      else
        assert Join(rest, sep) == s[1..];
        var parts := [[s[0]] + rest[0]] + rest[1..];
        assert Join(parts, sep) == s by {
          if |rest| == 1 {
          } else {
            assert rest == [rest[0]] + rest[1..];
            assert parts[1..] == rest[1..];
          }
        }
        parts
  }

  /** `parts.join(sep)`, the inverse of Split. */
  function Join(parts: seq<string>, sep: char): string
    requires |parts| >= 1
    decreases |parts|
  {
    if |parts| == 1 then parts[0] else parts[0] + [sep] + Join(parts[1..], sep)
  }

  /** Splitting a join of separator-free parts gives the parts back. */
  lemma {:induction false} SplitJoin(parts: seq<string>, sep: char)
    requires |parts| >= 1
    requires forall k :: 0 <= k < |parts| ==> sep !in parts[k]
    ensures Split(Join(parts, sep), sep) == parts
    decreases |parts|, |parts[0]|
  {
    var s := Join(parts, sep);
    if |parts[0]| == 0 && |parts| == 1 {
      assert s == "";
    } else if |parts[0]| == 0 {
      JoinEmptyHead(parts, sep);
      SplitJoin(parts[1..], sep);
      assert s[1..] == Join(parts[1..], sep);
      assert parts == [""] + parts[1..];
    } else {
      var tail := [parts[0][1..]] + parts[1..];
      assert sep !in parts[0][1..] by {
        assert forall c :: c in parts[0][1..] ==> c in parts[0];
      }
      JoinNonEmptyHead(parts, sep);
      SplitJoin(tail, sep);
      assert s[1..] == Join(tail, sep);
      assert s[0] != sep by {
        assert s[0] == parts[0][0];
      }
      assert parts == [[s[0]] + tail[0]] + tail[1..] by {
        assert parts[0] == [parts[0][0]] + parts[0][1..];
      }
    }
  }

  /** A join whose first part is empty starts with the separator. */
  lemma JoinEmptyHead(parts: seq<string>, sep: char)
    requires |parts| >= 2 && parts[0] == ""
    ensures Join(parts, sep) == [sep] + Join(parts[1..], sep)
  {
  }

  /** A join whose first part is not empty starts with that part's first
      character, followed by the join with that character removed. */
  lemma JoinNonEmptyHead(parts: seq<string>, sep: char)
    requires |parts| >= 1 && |parts[0]| > 0
    ensures Join(parts, sep) == [parts[0][0]] + Join([parts[0][1..]] + parts[1..], sep)
  {
    var tail := [parts[0][1..]] + parts[1..];
    if |parts| > 1 {
      assert tail[1..] == parts[1..];
    }
  }

  /** A string without the separator is split into itself alone. */
  lemma SplitNoSeparator(s: string, sep: char)
    requires sep !in s
    ensures Split(s, sep) == [s]
  {
    SplitJoin([s], sep);
  }

  /** Two separator-free strings joined by one separator split back apart. */
  lemma SplitTwo(a: string, b: string, sep: char)
    requires sep !in a && sep !in b
    ensures Split(a + [sep] + b, sep) == [a, b]
  {
    assert Join([a, b], sep) == a + [sep] + b by {
      assert [a, b][1..] == [b];
    }
    SplitJoin([a, b], sep);
  }

  /** `s.indexOf(c)`, with `|s|` standing for -1: the first position of `c`
      in `s`, or `|s|` when there is none. */
  function IndexOf(s: string, c: char): (i: nat)
    ensures i <= |s|
    ensures i == |s| <==> c !in s
    ensures i < |s| ==> s[i] == c
    ensures forall k :: 0 <= k < i ==> s[k] != c
    decreases |s|
  {
    if |s| == 0 then 0
    else if s[0] == c then 0
    else 1 + IndexOf(s[1..], c)
  }

  /** Past a prefix without `c`, the first `c` is the first one of the rest. */
  lemma {:induction false} IndexOfAfter(a: string, b: string, c: char)
    requires c !in a
    ensures IndexOf(a + b, c) == |a| + IndexOf(b, c)
    decreases |a|
  {
    if |a| == 0 {
      assert a + b == b;
    } else {
      var s := a + b;
      assert a == [a[0]] + a[1..];
      assert s[0] == a[0];
      assert s[1..] == a[1..] + b;
      IndexOfAfter(a[1..], b, c);
    }
  }

  lemma IndexOfHead(s: string, c: char)
    requires |s| > 0 && s[0] == c
    ensures IndexOf(s, c) == 0
  {
  }

  /** The first part of a split is the text before the first separator, and
      the other parts are the split of the text after it. */
  lemma SplitAtFirst(s: string, sep: char)
    ensures Split(s, sep)[0] == s[..IndexOf(s, sep)]
    ensures IndexOf(s, sep) == |s| ==> Split(s, sep) == [s]
    ensures IndexOf(s, sep) < |s| ==>
              Split(s, sep) == [s[..IndexOf(s, sep)]] + Split(s[IndexOf(s, sep) + 1..], sep)
  {
    var i := IndexOf(s, sep);
    if i == |s| {
      SplitNoSeparator(s, sep);
      assert s[..i] == s;
    } else {
      SplitAt(s, sep, i);
    }
  }

  /** Splitting at a separator with none before it. */
  lemma SplitAt(s: string, sep: char, i: nat)
    requires i < |s| && s[i] == sep && sep !in s[..i]
    ensures Split(s, sep) == [s[..i]] + Split(s[i + 1..], sep)
  {
    var head := s[..i];
    var rest := Split(s[i + 1..], sep);
    JoinCons(head, rest, sep);
    assert s == head + [sep] + s[i + 1..];
    SplitJoin([head] + rest, sep);
  }

  lemma JoinCons(head: string, rest: seq<string>, sep: char)
    requires |rest| >= 1
    ensures Join([head] + rest, sep) == head + [sep] + Join(rest, sep)
  {
    assert ([head] + rest)[1..] == rest;
  }

  /** One UTF-16 code unit of a JavaScript string. */
  datatype Unit = Bmp(c: char) | HighSurrogate(of: char) | LowSurrogate(of: char)

  /** The code units of a string, as JavaScript stores it: one per character
      of the Basic Multilingual Plane, a surrogate pair for every other
      character. */
  function ToUnits(s: string): (u: seq<Unit>)
    ensures |u| >= |s|
    ensures (forall i :: 0 <= i < |s| ==> s[i] as int < 0x1_0000) ==>
              |u| == |s| && forall i :: 0 <= i < |s| ==> u[i] == Bmp(s[i])
    ensures |s| == 1 && s[0] as int < 0x1_0000 ==> u == [Bmp(s[0])]
    ensures |s| == 1 && s[0] as int >= 0x1_0000 ==> u == [HighSurrogate(s[0]), LowSurrogate(s[0])]
  {
    if |s| == 0 then [] else CharUnits(s[0]) + ToUnits(s[1..])
  }

  /** The one or two code units of a character. */
  function CharUnits(c: char): seq<Unit> {
    if c as int < 0x1_0000 then [Bmp(c)] else [HighSurrogate(c), LowSurrogate(c)]
  }

  /** The units of a concatenation are the units of its parts, in order. */
  lemma {:induction false} ToUnitsAppend(a: string, b: string)
    ensures ToUnits(a + b) == ToUnits(a) + ToUnits(b)
    decreases |a|
  {
    if |a| > 0 {
      assert (a + b)[0] == a[0];
      assert (a + b)[1..] == a[1..] + b;
      ToUnitsAppend(a[1..], b);
    } else {
      assert a + b == b;
    }
  }
}
