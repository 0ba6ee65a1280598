/** Wiki links: the two versions of `formatLink`, which render a note name
    as `[[...]]` through the metadata cache's link resolution, and
    `cleanLink`, which reads the parts back out of link text. */
module WikiLink {
  import opened Optional
  import opened JsString

  /** A resolved vault file as `formatLink` sees it: its base name, its full
      name, its extension if it has one, and the `Title` of its frontmatter
      if that is set. */
  datatype File = File(basename: string, name: string, extension: Option<string>, title: Option<string>)

  /** `metadataCache.getFirstLinkpathDest(name, "")`, supplied by the host. */
  type Resolver = string -> Option<File>

  const ImageExtensions: seq<string> := ["png", "jpg", "jpeg", "gif", "svg"]

  /** `file.extension?.toLowerCase()`, absent when the extension is. */
  function LoweredExtension(f: File): Option<string> {
    if f.extension.Some? then Some(LowerCase(f.extension.value)) else None
  }

  /** `file.extension?.toLowerCase() === "md"`: the extension is `md` in
      any mix of cases. */
  predicate IsMarkdown(f: File)
    ensures IsMarkdown(f) <==>
              f.extension.Some? && |f.extension.value| == 2
              && AsciiLower(f.extension.value[0]) == 'm' && AsciiLower(f.extension.value[1]) == 'd'
  {
    LowerIsMd(f.extension.GetOr(""));
    LoweredExtension(f) == Some("md")
  }

  lemma LowerIsMd(e: string)
    ensures LowerCase(e) == "md" <==> |e| == 2 && AsciiLower(e[0]) == 'm' && AsciiLower(e[1]) == 'd'
  {
    var l := LowerCase(e);
    if |e| == 2 && AsciiLower(e[0]) == 'm' && AsciiLower(e[1]) == 'd' {
      assert l[0] == 'm' && l[1] == 'd';
      assert l == "md";
    }
  }

  /** The lower-cased extension is one of the image extensions, which is
      never `md`. */
  predicate IsImage(f: File)
    ensures IsImage(f) ==> !IsMarkdown(f) && f.extension.Some? && 3 <= |f.extension.value| <= 4
  {
    LoweredExtension(f).Some? && LoweredExtension(f).value in ImageExtensions
  }

  /** `title && title.trim() && title !== file.basename`: the title is set,
      holds a character other than whitespace, and differs from the base
      name. */
  predicate HasAlias(f: File)
    ensures HasAlias(f) <==>
              f.title.Some? && f.title.value != f.basename
              && !(forall k :: 0 <= k < |f.title.value| ==> IsWhitespace(f.title.value[k]))
  {
    TrimIsEmpty(f.title.GetOr(""));
    f.title.Some? && f.title.value != "" && Trim(f.title.value) != "" && f.title.value != f.basename
  }

  /** `[[target]]`, or `[[target|alias]]` with an alias. */
  function Brackets(s: string): string {
    "[[" + s + "]]"
  }

  /** The rendering of a markdown note: aliased when its title qualifies. */
  function NoteLink(f: File): string {
    if HasAlias(f) then Brackets(f.basename + "|" + f.title.value) else Brackets(f.basename)
  }

  /** `formatLink` of helpers-plugin/main.js: quoted, and attachments are
      linked by full name, images with a leading `!`. */
  function FormatLinkQuoted(value: string, resolve: Resolver): (r: string)
    ensures |r| >= 6 && r[0] == '"' && r[|r| - 1] == '"'
  {
    match resolve(value)
    case None => Quote(Brackets(value))
    case Some(f) =>
      if !IsMarkdown(f) then Quote((if IsImage(f) then "!" else "") + Brackets(f.name))
      else Quote(NoteLink(f))
  }

  /** `formatLink` of main.ts: unquoted, and every resolved file is rendered
      as a note, whatever its extension. */
  function FormatLinkPlain(value: string, resolve: Resolver): (r: string)
    ensures |r| >= 4 && r[..2] == "[[" && r[|r| - 2..] == "]]"
  {
    match resolve(value)
    case None => Brackets(value)
    case Some(f) => NoteLink(f)
  }

  /** Where the pieces of a quoted link sit. */
  lemma QuotedShape(prefix: string, x: string)
    ensures Quote(prefix + Brackets(x)) == "\"" + prefix + "[[" + x + "]]\""
    ensures |prefix| > 0 ==> Quote(prefix + Brackets(x))[1] == prefix[0]
    ensures Quote(Brackets(x))[1] == '['
  {
  }

  /** An unresolved name is linked as written in both versions, quoted only
      in the first. */
  lemma UnresolvedLinks(value: string, resolve: Resolver)
    requires resolve(value).None?
    ensures FormatLinkQuoted(value, resolve) == "\"[[" + value + "]]\""
    ensures FormatLinkPlain(value, resolve) == "[[" + value + "]]"
  {
    QuotedShape("", value);
    assert "" + Brackets(value) == Brackets(value);
  }

  /** A resolved attachment (lower-cased extension other than `md`, or none)
      is linked by its full file name; the link starts with `!` exactly when
      the extension is an image one. */
  lemma AttachmentLink(value: string, resolve: Resolver)
    requires resolve(value).Some? && !IsMarkdown(resolve(value).value)
    ensures var f := resolve(value).value;
            var r := FormatLinkQuoted(value, resolve);
            && (IsImage(f) ==> r == "\"![[" + f.name + "]]\"")
            && (!IsImage(f) ==> r == "\"[[" + f.name + "]]\"")
            && (r[1] == '!' <==> IsImage(f))
  {
    var f := resolve(value).value;
    AttachmentForms(f.name);
  }

  /** The two quoted forms of an attachment link. */
  lemma AttachmentForms(name: string)
    ensures Quote("!" + Brackets(name)) == "\"![[" + name + "]]\""
    ensures Quote("" + Brackets(name)) == "\"[[" + name + "]]\""
    ensures Quote("!" + Brackets(name))[1] == '!'
    ensures Quote("" + Brackets(name))[1] == '['
  {
    QuotedShape("!", name);
    QuotedShape("", name);
    assert "" + Brackets(name) == Brackets(name);
  }

  /** A resolved markdown note is aliased with its title exactly when the
      title is non-blank and differs from the base name; the two versions
      agree on it up to the quotes. */
  lemma NoteLinks(value: string, resolve: Resolver)
    requires resolve(value).Some? && IsMarkdown(resolve(value).value)
    ensures var f := resolve(value).value;
            var r := FormatLinkQuoted(value, resolve);
            && (HasAlias(f) <==> r == "\"[[" + f.basename + "|" + f.title.GetOr("") + "]]\"")
            && (!HasAlias(f) <==> r == "\"[[" + f.basename + "]]\"")
            && r == Quote(FormatLinkPlain(value, resolve))
  {
    var f := resolve(value).value;
    var t := f.title.GetOr("");
    var r := FormatLinkQuoted(value, resolve);
    assert r == Quote(NoteLink(f));
    QuotedNoteForms(f.basename, t);
    if HasAlias(f) {
      assert NoteLink(f) == Brackets(f.basename + "|" + t);
    } else {
      assert NoteLink(f) == Brackets(f.basename);
    }
  }

  /** The aliased and the bare quoted forms of a note link, which differ. */
  lemma QuotedNoteForms(b: string, t: string)
    ensures Quote(Brackets(b + "|" + t)) == "\"[[" + b + "|" + t + "]]\""
    ensures Quote(Brackets(b)) == "\"[[" + b + "]]\""
    ensures Quote(Brackets(b + "|" + t)) != Quote(Brackets(b))
  {
    assert |Quote(Brackets(b + "|" + t))| != |Quote(Brackets(b))|;
  }

  /** main.ts has no extension branch: an image renders like a note, by base
      name and without `!`, so the two versions differ on it beyond the
      quotes. */
  lemma PlainIgnoresExtension(value: string, resolve: Resolver)
    requires resolve(value).Some?
    ensures FormatLinkPlain(value, resolve) == NoteLink(resolve(value).value)
    ensures IsImage(resolve(value).value) ==>
              FormatLinkQuoted(value, resolve)[1] == '!'
              && Quote(FormatLinkPlain(value, resolve))[1] == '['
  {
    var f := resolve(value).value;
    if IsImage(f) {
      assert !IsMarkdown(f) by {
        assert LoweredExtension(f).value != "md";
      }
      QuotedShape("!", f.name);
      if HasAlias(f) {
        QuotedShape("", f.basename + "|" + f.title.value);
        assert "" + Brackets(f.basename + "|" + f.title.value) == Brackets(f.basename + "|" + f.title.value);
      } else {
        QuotedShape("", f.basename);
        assert "" + Brackets(f.basename) == Brackets(f.basename);
      }
    }
  }

  /** What `cleanLink` returns. */
  datatype LinkParts = LinkParts(filename: string, display: string)

  /** `replace(/^\[\[/, "")` then `replace(/\]\]$/, "")`: one leading `[[`
      and one trailing `]]`, in that order. */
  function StripBrackets(s: string): (r: string)
    ensures |r| <= |s|
    ensures StartsWith(s, "[[") && EndsWith(s[2..], "]]") ==> s == "[[" + r + "]]"
    ensures StartsWith(s, "[[") && !EndsWith(s[2..], "]]") ==> s == "[[" + r
    ensures !StartsWith(s, "[[") && EndsWith(s, "]]") ==> s == r + "]]"
    ensures !StartsWith(s, "[[") && !EndsWith(s, "]]") ==> r == s
  {
    var a := if StartsWith(s, "[[") then s[2..] else s;
    if EndsWith(a, "]]") then a[..|a| - 2] else a
  }

  /** Stripping undoes Brackets. */
  lemma StripBracketsOf(inner: string)
    ensures StripBrackets(Brackets(inner)) == inner
  {
    var s := Brackets(inner);
    assert s[..2] == "[[" && s[2..] == inner + "]]";
    assert (inner + "]]")[|inner + "]]"| - 2..] == "]]";
    assert (inner + "]]")[..|inner|] == inner;
  }

  /** A part of a parsed link: trimmed, and free of the `|` separator. */
  predicate IsTrimmedPart(s: string) {
    '|' !in s && Trim(s) == s
  }

  lemma TrimmedPart(s: string)
    requires '|' !in s
    ensures IsTrimmedPart(Trim(s))
  {
    TrimAddsNothing(s, '|');
    TrimIdempotent(s);
  }

  /** The text before the first `|`, or all of it without one. */
  function NameText(clean: string): string {
    clean[..IndexOf(clean, '|')]
  }

  /** The text between the first and the second `|`, up to the end when
      there is no second one, and empty when there is no `|` at all. */
  function AliasText(clean: string): string {
    var i := IndexOf(clean, '|');
    if i == |clean| then ""
    else
      var rest := clean[i + 1..];
      rest[..IndexOf(rest, '|')]
  }

  /** The split-and-fall-back step of `cleanLink` on bracket-free text: the
      file name is the trimmed text before the first `|`; the display is the
      trimmed text between the first and second `|`, or the file name again
      when that text is empty or there is no `|`. Text after a second `|` is
      dropped. */
  function ReadParts(clean: string): (p: LinkParts)
    ensures IsTrimmedPart(p.filename) && IsTrimmedPart(p.display)
    ensures p.filename == Trim(NameText(clean))
    ensures p.display == Trim(if AliasText(clean) == "" then NameText(clean) else AliasText(clean))
  {
    var parts := Split(clean, '|');
    SplitParts(clean);
    var filename := parts[0];
    var displayRaw := if |parts| > 1 then parts[1] else "";
    var display := if displayRaw == "" then filename else displayRaw;
    TrimmedPart(filename);
    TrimmedPart(display);
    LinkParts(Trim(filename), Trim(display))
  }

  /** The first two parts of a split on `|` are the name and alias texts. */
  lemma SplitParts(clean: string)
    ensures Split(clean, '|')[0] == NameText(clean)
    ensures (if |Split(clean, '|')| > 1 then Split(clean, '|')[1] else "") == AliasText(clean)
  {
    SplitAtFirst(clean, '|');
    var i := IndexOf(clean, '|');
    if i < |clean| {
      SplitAtFirst(clean[i + 1..], '|');
    }
  }

  /** `cleanLink(linkText)`: null exactly for empty text, otherwise two
      trimmed parts without `|`. */
  function CleanLink(linkText: string): (r: Option<LinkParts>)
    ensures r.None? <==> linkText == ""
    ensures r.Some? ==> IsTrimmedPart(r.value.filename) && IsTrimmedPart(r.value.display)
  {
    if linkText == "" then None else Some(ReadParts(StripBrackets(linkText)))
  }

  /** What `cleanLink` reads from any non-empty text: the text loses one
      leading `[[` and one trailing `]]`; the file name is the trimmed text
      before the first `|`; the display is the trimmed text between the
      first and second `|`, or the file name when that text is empty or
      there is no `|`. */
  lemma CleanLinkParts(linkText: string)
    requires linkText != ""
    ensures var c := StripBrackets(linkText);
            CleanLink(linkText) == Some(LinkParts(Trim(NameText(c)),
                                                  Trim(if AliasText(c) == "" then NameText(c) else AliasText(c))))
  {
  }

  /** With three parts, the display is the middle one and the last is
      dropped: `[[a|b|c]]` gives file name `a` and display `b`. */
  lemma CleanThreeParts(a: string, b: string, c: string)
    requires '|' !in a && '|' !in b && b != ""
    ensures CleanLink(Brackets(a + "|" + b + "|" + c)) == Some(LinkParts(Trim(a), Trim(b)))
  {
    var rest := b + "|" + c;
    var inner := a + "|" + rest;
    ThreeFields(a, b, c);
    StripBracketsOf(inner);
    FieldAt(a, rest);
    FieldAt(b, c);
    CleanLinkParts(Brackets(inner));
  }

  lemma ThreeFields(a: string, b: string, c: string)
    ensures a + "|" + b + "|" + c == a + "|" + (b + "|" + c)
  {
  }

  /** The text before and after the first `|` of `x + "|" + y` for a
      `|`-free `x`. */
  lemma FieldAt(x: string, y: string)
    requires '|' !in x
    ensures NameText(x + "|" + y) == x
    ensures IndexOf(x + "|" + y, '|') == |x|
    ensures (x + "|" + y)[|x| + 1..] == y
    ensures AliasText(x + "|" + y) == NameText(y)
  {
    var s := x + "|" + y;
    assert s == x + ("|" + y);
    IndexOfAfter(x, "|" + y, '|');
    IndexOfHead("|" + y, '|');
    assert s[..|x|] == x;
    assert s[|x| + 1..] == y;
  }

  /** Link text with an alias reads back as its two trimmed parts. */
  lemma CleanAliasedLink(target: string, alias: string)
    requires '|' !in target && '|' !in alias && alias != ""
    ensures CleanLink(Brackets(target + "|" + alias)) == Some(LinkParts(Trim(target), Trim(alias)))
  {
    var inner := target + "|" + alias;
    StripBracketsOf(inner);
    assert inner == target + ['|'] + alias;
    SplitTwo(target, alias, '|');
    assert ReadParts(inner) == LinkParts(Trim(target), Trim(alias));
  }

  /** An empty alias falls back to the file name. */
  lemma CleanEmptyAlias(target: string)
    requires '|' !in target
    ensures CleanLink(Brackets(target + "|")) == Some(LinkParts(Trim(target), Trim(target)))
  {
    StripBracketsOf(target + "|");
    SplitTwo(target, "", '|');
    assert target + "|" + "" == target + "|";
  }

  /** A blank alias is not empty, so there is no fallback: it trims to the
      empty display. */
  lemma CleanBlankAlias(target: string, blank: string)
    requires '|' !in target && blank != ""
    requires forall k :: 0 <= k < |blank| ==> IsWhitespace(blank[k])
    ensures CleanLink(Brackets(target + "|" + blank)) == Some(LinkParts(Trim(target), ""))
  {
    assert '|' !in blank by {
      forall k | 0 <= k < |blank| ensures blank[k] != '|' { assert IsWhitespace(blank[k]); }
    }
    CleanAliasedLink(target, blank);
    TrimOfWhitespace(blank);
  }

  /** A link without an alias reads back with the file name as display. */
  lemma CleanBareLink(target: string)
    requires '|' !in target
    ensures CleanLink(Brackets(target)) == Some(LinkParts(Trim(target), Trim(target)))
  {
    StripBracketsOf(target);
    SplitNoSeparator(target, '|');
  }

  /** `cleanLink` reads back what main.ts's `formatLink` wrote: the file name
      is the trimmed base name (or the unresolved name), the display is the
      trimmed title when the link is aliased and the file name otherwise. */
  lemma CleanLinkReadsPlainLink(value: string, resolve: Resolver)
    requires '|' !in value
    requires resolve(value).Some? ==>
               '|' !in resolve(value).value.basename && '|' !in resolve(value).value.title.GetOr("")
    ensures CleanLink(FormatLinkPlain(value, resolve)) ==
              match resolve(value)
              case None => Some(LinkParts(Trim(value), Trim(value)))
              case Some(f) =>
                Some(LinkParts(Trim(f.basename), if HasAlias(f) then Trim(f.title.value) else Trim(f.basename)))
  {
    match resolve(value)
    case None => CleanBareLink(value);
    case Some(f) =>
      if HasAlias(f) {
        CleanAliasedLink(f.basename, f.title.value);
      } else {
        CleanBareLink(f.basename);
      }
  }
}
