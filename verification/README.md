# Helpers plugin core, modelled in Dafny

The helpers plugin for Obsidian puts a handful of small utilities at the
disposal of templating scripts. This project models the logic of those
utilities as pure Dafny functions and proves what each one promises:

- `moveFile` cleans a note title into a safe file name and decides whether
  the note is renamed to `<folder>/<clean title>.md`
  (`TitleSanitizer`, `MoveFile`);
- `createUniqueId` writes the current Unix time in base 62 after the 🆔
  marker and an optional `prefix-` (`UniqueId`);
- `formatLink` renders a note name as a wiki link through the metadata
  cache. There are two versions: the quoted one with an attachment and
  image branch in `helpers-plugin/main.js`, and the unquoted one without
  that branch in `main.ts`. `cleanLink` reads the two parts back out of
  link text (`WikiLink`);
- `formatWebLink` renders a URL as a markdown link labelled after its host
  name (`WebLink`);
- `getNoteType` finds the first entry of the `noteTypes` array of the
  lookup file whose `key` property is strictly equal to `value`
  (`NoteType`).

`JsString` holds the JavaScript string operations these rely on:
`trim`, `\s`, `split` on one character, `indexOf` on one character,
lower and upper case, and the `"…"` quoting of the templates. It also
holds the UTF-16 code-unit view of a string (`Unit`, `ToUnits`), which
is what the title sanitizer's replace callback and a string's `length`
see.
`Optional` holds the `Option` type used for JavaScript's `null` and
`undefined`.

Host capabilities become parameters:

- the metadata cache's link resolution is a function from names to files;
- the URL constructor is a function from strings to an optional host name;
- the vault is a set of paths, and the rename's success is a boolean;
- the clock is a `nat` timestamp;
- the parsed lookup file is an optional JSON value.

A few behaviours of the code worth knowing:

- When the URL does not parse, `formatWebLink` returns the raw input
  without quotes.
- The link target is the URL as the caller gave it, not the one with
  `https://` added.
- A URL that starts with `http` is passed to the parser unchanged, so
  `httpbin.org` is parsed as it stands.

`moveFile` is modelled from both `main.ts` and `helpers-plugin/main.js`,
and the unquoted `formatLink` from `main.ts`. `createUniqueId`, the
quoted `formatLink`, `formatWebLink`, `getNoteType` and `cleanLink` are
modelled from `helpers-plugin/main.js`.

## Model

| member | source | states |
|---|---|---|
| JsString.Trim | helpers-plugin/main.js:98 | `String.prototype.trim`: the result is the slice of the input between its leading and trailing whitespace, all of which is whitespace, and it neither starts nor ends with whitespace |
| JsString.TrimStart | helpers-plugin/main.js:98 | the first half of `trim`: the longest suffix not starting with whitespace, everything before it whitespace |
| JsString.TrimEnd | helpers-plugin/main.js:98 | the second half of `trim`: the longest prefix not ending with whitespace, everything after it whitespace |
| JsString.TrimIsEmpty | helpers-plugin/main.js:63 | a string trims to empty exactly when it is all whitespace, which is when `title.trim()` is falsy |
| JsString.TrimIdentity | helpers-plugin/main.js:98 | a string without whitespace at either end is its own trim |
| JsString.TrimOfWhitespace | helpers-plugin/main.js:204 | a string of whitespace trims to the empty string |
| JsString.TrimIdempotent | helpers-plugin/main.js:203-204 | trimming twice is trimming once |
| JsString.TrimAddsNothing | helpers-plugin/main.js:203-204 | a character absent from a string is absent from its trim |
| JsString.Split | helpers-plugin/main.js:200 | `split` on one character: at least one part, no part contains the separator, and joining the parts with it gives the input back |
| JsString.SplitJoin | helpers-plugin/main.js:200 | splitting a join of separator-free parts gives exactly those parts |
| JsString.JoinEmptyHead | helpers-plugin/main.js:200 | a join whose first part is empty starts with the separator |
| JsString.JoinNonEmptyHead | helpers-plugin/main.js:200 | a join whose first part is non-empty starts with that part's first character |
| JsString.SplitNoSeparator | helpers-plugin/main.js:200 | a string without the separator splits into itself alone |
| JsString.SplitTwo | helpers-plugin/main.js:200 | `a\|b` with separator-free `a` and `b` splits into `[a, b]` |
| JsString.SplitAtFirst | helpers-plugin/main.js:200 | the first part of a split is the text before the first separator; without one the split is the string alone, otherwise the other parts are the split of the text after it |
| JsString.SplitAt | helpers-plugin/main.js:200 | splitting at a separator with none before it gives the text before it followed by the split of the rest |
| JsString.IndexOf | helpers-plugin/main.js:200 | a reader used by the round-trip lemmas: the first position of a character, which no earlier position holds, or the length exactly when it does not occur |
| JsString.IndexOfAfter | helpers-plugin/main.js:200 | a reader used by the round-trip lemmas: past a prefix without the character, its first position is the prefix length plus its first position in the rest |
| JsString.IndexOfHead | helpers-plugin/main.js:200 | a reader used by the round-trip lemmas: a string that starts with the character has it first at position 0 |
| JsString.Quote | helpers-plugin/main.js:55-77 | the double-quoted rendering: two characters longer, quotes at both ends, and the text itself between them |
| JsString.ToUnits | helpers-plugin/main.js:90-97 | the UTF-16 code units the replace callback and `length` see: at least one per character, exactly the character for a string of the Basic Multilingual Plane, and a high and a low surrogate for a single astral character |
| JsString.ToUnitsAppend | helpers-plugin/main.js:90-97 | the units of a concatenation are the units of its parts in order, so with the one-character cases the units of every string are fixed |
| JsString.LowerCase | helpers-plugin/main.js:56 | `toLowerCase` on ASCII: same length, and each character is its ASCII lower case, so capitals are lowered and everything else is kept |
| TitleSanitizer.ReplaceAmpersands | main.ts:57 | every `&` becomes `n`, every other character stays where it was |
| TitleSanitizer.DropApostrophes | main.ts:58 | no `'` is left, the string does not grow, and a one-character string is dropped if it is `'` and kept otherwise |
| TitleSanitizer.DropApostrophesAppend | main.ts:58 | dropping works piece by piece on a concatenation, so the kept characters stay in their order |
| TitleSanitizer.DropApostrophesKeepsOthers | main.ts:58 | every character other than `'` is kept as many times as it occurs |
| TitleSanitizer.DropApostrophesIdentity | main.ts:58 | a string without `'` is unchanged |
| TitleSanitizer.Substitute | helpers-plugin/main.js:90-97 | one unit out per unit in, every output character allowed, allowed units kept, and a disallowed unit becomes `-` exactly when both neighbours in the original string are ASCII alphanumerics, else a space |
| TitleSanitizer.Collapse | main.ts:69 | `replace(/\s+/g, " ")` is empty only for empty input and keeps whether the first and the last character are whitespace; CollapseLeadingRun fixes a leading run, CollapseRun an interior or trailing run and CollapseNoWhitespace the text between runs, so every run becomes one space |
| TitleSanitizer.CollapseIsSingleSpaced | main.ts:69 | after collapsing, whitespace occurs only as single spaces |
| TitleSanitizer.CollapseKeepsContent | main.ts:69 | collapsing keeps every non-whitespace character in order |
| TitleSanitizer.CollapseKeepsAllowed | main.ts:69 | collapsing a string of allowed characters leaves only allowed characters |
| TitleSanitizer.CollapseIdentity | main.ts:69 | a single-spaced string is its own collapse |
| TitleSanitizer.CollapseRun | main.ts:69 | each interior or trailing whitespace run becomes exactly one space: text ending in non-whitespace, a run and text that is empty or starts with non-whitespace collapse to the two collapses joined by one space |
| TitleSanitizer.CollapseNoWhitespace | main.ts:69 | text without whitespace collapses to itself |
| TitleSanitizer.CollapseLeadingRun | main.ts:69 | a leading whitespace run of any length becomes one space in front of the collapse of the text after it |
| TitleSanitizer.TrimStartOfRun | main.ts:69 | a whitespace run in front of text that does not start with whitespace is removed whole |
| TitleSanitizer.TrimStartKeepsTail | main.ts:69 | removing leading whitespace from text that ends in non-whitespace stops inside it and keeps whatever follows |
| TitleSanitizer.NonWhitespaceOfLeadingWhitespace | main.ts:69 | dropping leading whitespace keeps the non-whitespace content |
| TitleSanitizer.SingleSpacedTail | main.ts:69 | the tail of a single-spaced string is single-spaced, and a leading whitespace in it is a space followed by non-whitespace |
| TitleSanitizer.Clean | main.ts:56-69 | the cleaned title has only `[A-Za-z0-9.\-_ ]`, no space at either end and no two spaces in a row |
| TitleSanitizer.SliceKeepsAllowed | main.ts:68 | a slice of an allowed string is allowed |
| TitleSanitizer.TrimKeepsAllowed | main.ts:68 | trimming an allowed string keeps it allowed |
| TitleSanitizer.SingleSpacedAllowedIsClean | main.ts:56-69 | an allowed, single-spaced string with no whitespace at either end is a clean title |
| TitleSanitizer.AllowedWhitespaceIsSpace | main.ts:59 | among the allowed characters, only the space is whitespace |
| TitleSanitizer.PrePassIdentity | main.ts:57-58 | the `&` and `'` replacements leave an allowed string alone |
| TitleSanitizer.SubstituteIdentity | main.ts:59-67 | the context-sensitive pass leaves an allowed string alone |
| TitleSanitizer.CleanTitleIsSingleSpaced | main.ts:68-69 | a clean title is single-spaced with no whitespace at either end |
| TitleSanitizer.CleanFixedPoint | main.ts:56-69 | cleaning leaves a title unchanged exactly when it is already clean |
| TitleSanitizer.CleanIdempotent | main.ts:56-69 | cleaning twice is cleaning once |
| TitleSanitizer.PrePassKeeps | main.ts:57-58 | a string without `&` and `'` passes the first two replacements unchanged |
| TitleSanitizer.ThreeCharactersClean | main.ts:68-69 | two alphanumerics around a `-` or a space are already trimmed and collapsed |
| TitleSanitizer.ThreeLettersClean | main.ts:68-69 | three allowed characters other than the space are already trimmed and collapsed |
| TitleSanitizer.DoubleSpaceCollapses | main.ts:68-69 | two spaces between alphanumerics become one |
| TitleSanitizer.SpacesThenLetter | main.ts:69 | a run of two spaces before a letter becomes one space |
| TitleSanitizer.HyphenBetweenAlnums | main.ts:59-67 | a disallowed character between two alphanumerics becomes `-`, as in `a!b` to `a-b` |
| TitleSanitizer.HyphenUnits | main.ts:59-67 | the code-unit pass alone turns that middle character into `-` |
| TitleSanitizer.SpaceBetweenTwoReplaced | main.ts:59-67 | two disallowed characters in a row each have a disallowed neighbour, so both become spaces, which then collapse to one |
| TitleSanitizer.TwoReplacedUnits | main.ts:59-67 | the code-unit pass alone turns them into two spaces |
| TitleSanitizer.SpaceForSurrogatePair | helpers-plugin/main.js:90-98 | an astral character between alphanumerics is a surrogate pair, so it becomes a space and not `-` |
| TitleSanitizer.SurrogatePairUnits | helpers-plugin/main.js:90-97 | each half of the pair has a surrogate neighbour and becomes a space |
| TitleSanitizer.AmpersandBecomesN | main.ts:57 | `&` turns into the letter `n` before neighbours are looked at: `a&b` gives `anb` |
| TitleSanitizer.AmpersandPrePass | main.ts:57-58 | the first two replacements turn `x&y` into `xny` |
| TitleSanitizer.ApostropheDropped | main.ts:58 | `'` disappears and joins its neighbours: `a'b` gives `ab` |
| TitleSanitizer.ApostrophePrePass | main.ts:57-58 | the first two replacements turn `x'y` into `xy` |
| TitleSanitizer.AllowedUnits | main.ts:59-67 | allowed text passes the code-unit pass unchanged |
| MoveFile.TargetPath | helpers-plugin/main.js:99 | the target is the folder, a slash, the cleaned title itself and `.md`; the middle part is a clean title |
| MoveFile.PathParts | main.ts:71 | where folder, file name and extension sit in the target path |
| MoveFile.Decide | helpers-plugin/main.js:85-111 | for a known target path: a missing source gives null and changes nothing; a rename happens exactly when the source exists, the target differs from it and the rename succeeds; a path comes back exactly when the source exists and the target is unchanged or the rename succeeds; a returned path is the target and exists afterwards; the vault changes only by the rename |
| MoveFile.DecideAgainIsNoOp | helpers-plugin/main.js:100-102 | deciding again for the returned path with the same target returns it and renames nothing, whatever the rename would do |
| MoveFile.Move | helpers-plugin/main.js:83-111 | the same decision with the target built from the folder and the cleaned title: a missing source gives null and changes nothing; a rename happens exactly when the source exists, the target differs from it and the rename succeeds; a path comes back exactly when the source exists and the target is unchanged or the rename succeeds; a returned path is the target and exists afterwards; the vault changes only by the rename |
| MoveFile.MoveAgainIsNoOp | main.ts:71-75 | moving again with the same title and folder returns the same path and renames nothing, whatever the rename would do |
| MoveFile.TargetOfCleanedTitle | main.ts:56-71 | a cleaned title lands on the same path as the raw title it came from |
| MoveFile.TargetPathInjective | main.ts:71 | two titles go to the same path in a folder exactly when they clean to the same name |
| UniqueId.DigitValue | helpers-plugin/main.js:126 | each symbol of the alphabet maps to a digit below 62 that renders back as that symbol |
| UniqueId.DigitCharValue | helpers-plugin/main.js:126 | each digit below 62 renders as a symbol that reads back as that digit |
| UniqueId.AlphabetIsDigitChars | helpers-plugin/main.js:126 | the 62-character alphabet literal is `0-9`, then `a-z`, then `A-Z`, in digit order |
| UniqueId.DigitsRange | helpers-plugin/main.js:126 | the first ten symbols are the decimal digits |
| UniqueId.LowerRange | helpers-plugin/main.js:126 | symbols 10 to 35 are the lower-case letters |
| UniqueId.UpperRange | helpers-plugin/main.js:126 | symbols 36 to 61 are the upper-case letters |
| UniqueId.Digits | helpers-plugin/main.js:129-132 | the base-62 digits are non-empty alphabet symbols with no leading `0` for a positive number |
| UniqueId.DecodeDigits | helpers-plugin/main.js:129-132 | decoding the digits of a number gives the number back |
| UniqueId.DigitsDecode | helpers-plugin/main.js:129-132 | every canonical digit string is the encoding of the number it decodes to |
| UniqueId.DecodeBound | helpers-plugin/main.js:129-132 | a digit string without a leading `0` decodes to a positive number |
| UniqueId.PrefixPart | helpers-plugin/main.js:134 | the prefix part is `prefix-` exactly when the prefix is a non-empty string, else empty |
| UniqueId.CreateUniqueId | helpers-plugin/main.js:125-135 | the do-while loop yields the marker, the prefix part and the base-62 digits of the timestamp, whose decoding is the timestamp |
| UniqueId.DigitsStep | helpers-plugin/main.js:129-132 | one turn of the loop: the last digit is the alphabet symbol at `num % 62`, preceded by the digits of `num / 62` unless that is zero |
| UniqueId.AlphabetDigit | helpers-plugin/main.js:126 | indexing the alphabet literal gives the symbol for that digit |
| UniqueId.DigitsAfterPrefix | helpers-plugin/main.js:135 | the digits are the suffix of the id after marker and prefix, and decode to the timestamp |
| UniqueId.AfterLastDash | helpers-plugin/main.js:134-135 | a reader of the id format used by the round-trip lemma: the part after the last `-` has no `-` |
| UniqueId.AfterLastDashOf | helpers-plugin/main.js:134-135 | a reader of the id format used by the round-trip lemma: appending dash-free text extends what follows the last dash |
| UniqueId.DigitsHaveNoDash | helpers-plugin/main.js:126 | the digits never contain `-` |
| UniqueId.TimestampOfCreated | helpers-plugin/main.js:125-135 | every generated id reads back as its timestamp, with or without a prefix |
| UniqueId.ReadAfterMarker | helpers-plugin/main.js:135 | an id is read from what follows its marker |
| UniqueId.PrefixThenDigits | helpers-plugin/main.js:134-135 | whatever the prefix, what follows the last dash is the digits |
| UniqueId.DigitsAreCanonical | helpers-plugin/main.js:129-132 | the loop's output is a canonical digit string |
| UniqueId.ZeroIsSingleDigit | helpers-plugin/main.js:129-132 | the do-while loop writes timestamp zero as `0`, not as the empty string |
| WikiLink.FormatLinkQuoted | helpers-plugin/main.js:52-67 | the quoted `formatLink` always renders a double-quoted string |
| WikiLink.FormatLinkPlain | main.ts:34-43 | the unquoted `formatLink` always renders `[[...]]` |
| WikiLink.UnresolvedLinks | helpers-plugin/main.js:55 | an unresolved name is linked as written, quoted in main.js and bare in main.ts |
| WikiLink.AttachmentLink | helpers-plugin/main.js:56-61 | a non-markdown file is linked by its full name, with a leading `!` exactly when its lower-cased extension is an image one |
| WikiLink.NoteLinks | helpers-plugin/main.js:62-66 | a markdown note is aliased with its title exactly when the title is non-blank and differs from the base name, and the two versions agree on it up to the quotes |
| WikiLink.QuotedNoteForms | helpers-plugin/main.js:64-66 | the aliased and bare quoted forms of a note link, and that they differ |
| WikiLink.PlainIgnoresExtension | main.ts:36-42 | main.ts renders an image like a note, by base name and without `!`, where main.js embeds it |
| WikiLink.IsMarkdown | helpers-plugin/main.js:56-57 | a file is a note exactly when its extension is `md` in any mix of cases |
| WikiLink.IsImage | helpers-plugin/main.js:58 | an image extension is never `md` and has three or four characters |
| WikiLink.LowerIsMd | helpers-plugin/main.js:56-57 | an extension lowers to `md` exactly when it has two characters that lower to `m` and `d` |
| WikiLink.HasAlias | helpers-plugin/main.js:63 | a title aliases the link exactly when it is set, has a character other than whitespace and differs from the base name |
| WikiLink.AttachmentForms | helpers-plugin/main.js:59-60 | the two quoted attachment forms and their second character |
| WikiLink.StripBrackets | helpers-plugin/main.js:199 | only a leading `[[` and a trailing `]]` are removed, each only when present: the input is the result with whichever of them it had put back, and text with neither is untouched |
| WikiLink.StripBracketsOf | helpers-plugin/main.js:199 | stripping undoes the brackets |
| WikiLink.TrimmedPart | helpers-plugin/main.js:203-204 | trimming a part without `\|` gives a trimmed part without `\|` |
| WikiLink.ReadParts | helpers-plugin/main.js:200-205 | the file name is the trimmed text before the first `\|`; the display is the trimmed text between the first and second `\|`, or the file name when that text is empty or there is no `\|`; both are trimmed and free of `\|` |
| WikiLink.SplitParts | helpers-plugin/main.js:200 | the first two parts of the split are the text before the first `\|` and the text between the first and second |
| WikiLink.CleanLink | helpers-plugin/main.js:197-206 | null exactly for empty text, otherwise two trimmed parts without `\|`; CleanLinkParts states which parts |
| WikiLink.CleanLinkParts | helpers-plugin/main.js:197-206 | for any non-empty text, with brackets or not: after one leading `[[` and one trailing `]]` go, the file name is the trimmed text before the first `\|` and the display the trimmed text up to the second `\|`, falling back to the file name when that is empty |
| WikiLink.CleanThreeParts | helpers-plugin/main.js:200-201 | `[[a\|b\|c]]` gives file name `a` and display `b`; the third part is dropped |
| WikiLink.FieldAt | helpers-plugin/main.js:200 | in `x\|y` with `\|`-free `x`, the name text is `x` and the alias text is what precedes the next `\|` of `y` |
| WikiLink.CleanAliasedLink | helpers-plugin/main.js:197-206 | `[[target\|alias]]` reads back as the trimmed target and alias |
| WikiLink.CleanEmptyAlias | helpers-plugin/main.js:201 | an empty alias falls back to the file name |
| WikiLink.CleanBlankAlias | helpers-plugin/main.js:201-204 | a blank alias is truthy, so there is no fallback, and the display trims to empty |
| WikiLink.CleanBareLink | helpers-plugin/main.js:197-206 | `[[target]]` reads back with the file name as display |
| WikiLink.CleanLinkReadsPlainLink | main.ts:34-43 | `cleanLink` reads back what main.ts's `formatLink` wrote: the base name or the raw name, and the title exactly when the link is aliased |
| WebLink.SchemeUrl | helpers-plugin/main.js:71 | a url starting with `http` is parsed as it is, any other gets `https://` in front; either way the parsed string starts with `http` |
| WebLink.StripWww | helpers-plugin/main.js:73 | one leading `www.` is removed when present and nothing else; no character is added |
| WebLink.SiteLabel | helpers-plugin/main.js:73-76 | the label holds no dot and no character the host lacks other than an upper-case letter |
| WebLink.CapitalizeAddsNoLower | helpers-plugin/main.js:76 | capitalizing adds no character other than an upper-case letter |
| WebLink.PickLabel | helpers-plugin/main.js:75 | the chosen label is one of the host's labels |
| WebLink.Capitalize | helpers-plugin/main.js:76 | the first character is upper-cased and the rest kept |
| WebLink.FormatWebLink | helpers-plugin/main.js:68-82 | empty exactly for empty input, the raw input when parsing fails, and otherwise the quoted `[Label](url)` with the caller's url |
| WebLink.SiteLabelIsHostLabel | helpers-plugin/main.js:73-76 | the label is the capitalised second-to-last dot label of the host without `www.` when it has more than two, else the first, and holds no dot |
| WebLink.SplitLabels | helpers-plugin/main.js:74 | dot-free labels joined by dots split back into those labels |
| WebLink.TwoLabelHost | helpers-plugin/main.js:75 | `github.com` is labelled after its first label |
| WebLink.ThreeLabelHost | helpers-plugin/main.js:75 | `example.co.uk` is labelled after its middle label, `Co` |
| WebLink.WwwIsDropped | helpers-plugin/main.js:73 | one leading `www.` is dropped before the labels are counted |
| WebLink.ParseMarkdownLinkOf | helpers-plugin/main.js:77 | a reader used by the round-trip lemmas: a markdown link whose text has no `]` reads back as its text and target |
| WebLink.ParseAt | helpers-plugin/main.js:77 | a reader used by the round-trip lemmas: a markdown link is read as the text before its first `]` and the target between the following `(` and the closing `)` |
| WebLink.WebLinkReadsBack | helpers-plugin/main.js:68-82 | the rendered link reads back, between its quotes, as the site label and the caller's url when the host has no `]` |
| WebLink.SplitNoNewCharacter | helpers-plugin/main.js:74 | splitting introduces no character the host did not have |
| WebLink.SplitNoNewCharacters | helpers-plugin/main.js:74 | no part of the split holds a character the host lacks |
| NoteType.IndexKey | helpers-plugin/main.js:174 | a key is an array index exactly when it is non-empty decimal digits with no leading zero, and then it stands for its decimal value |
| NoteType.Property | helpers-plugin/main.js:174 | `item[key]`: an object has it exactly when the field is its own, and it is that field; booleans and numbers have none; an array's `length` is its number of entries and an index gives the entry; a string's `length` counts UTF-16 code units |
| NoteType.StrictEquals | helpers-plugin/main.js:174 | `===` on parsed JSON holds exactly for equal primitives; a parsed array or object equals nothing |
| NoteType.Truthy | helpers-plugin/main.js:174 | exactly `null`, `false`, `0` and `""` are falsy |
| NoteType.Matches | helpers-plugin/main.js:174 | a match needs a primitive value and an entry that is not a boolean or number |
| NoteType.NoteTypes | helpers-plugin/main.js:169-170 | the entries are present exactly when the document is an object whose `noteTypes` is an array, and are that array |
| NoteType.IndexKeyExamples | helpers-plugin/main.js:174 | `"0"` and `"12"` are indices 0 and 12; `"01"`, `""` and `"length"` are no index |
| NoteType.AstralStringLength | helpers-plugin/main.js:174 | `"a🆔".length` is 3, so a search for `length === 3` returns that entry |
| NoteType.Find | helpers-plugin/main.js:174 | `find` stops at a match or at a null entry, which throws, and every entry before where it stops was passed over; it runs off the end only when every entry is passed over |
| NoteType.GetNoteType | helpers-plugin/main.js:161-180 | null unless `noteTypes` is an array; a returned entry is a truthy member of it that matches; FirstDecidingEntry and NoMatchIsNull state which entry |
| NoteType.FirstDecidingEntry | helpers-plugin/main.js:169-174 | for any document whose `noteTypes` is the entries, the first entry that is null or matches decides the result: a truthy match is returned, anything else gives null |
| NoteType.FindFirst | helpers-plugin/main.js:174 | the scan ends exactly at the first entry it does not pass over |
| NoteType.NoMatchIsNull | helpers-plugin/main.js:169-174 | for any document whose `noteTypes` is the entries, with no match and no null entry the result is null |
| NoteType.LaterEntriesIgnored | helpers-plugin/main.js:174 | entries after a match never change the result, so the first match wins |
| NoteType.SkippedEntryInFront | helpers-plugin/main.js:174 | a passed-over entry in front shifts the match by one and changes nothing else |
| NoteType.EmptyStringMatchIsNull | helpers-plugin/main.js:174 | an empty-string entry matches `length === 0` but is falsy, so `\|\| null` gives null |
| NoteType.ObjectMatches | helpers-plugin/main.js:174 | an object entry matches exactly when it has the field and the field is the same primitive; an array or object value never matches |

## Left out

- Plugin lifecycle (`onload`, `onunload`) and the registration table. In
  main.js it binds `cleanLinkName`, which is not a method; the method is
  `cleanLink`.
- `sanitizeTime` and `calculateDuration`: they are moment.js date
  arithmetic.
- `openFileInTab` and `getActiveNoteContext`: they are workspace and UI
  code: opening tabs, focusing editors, a `setTimeout`, and reading the
  active note.
- Notices and console output: they are side effects with no bearing on the
  results.
- main.ts never imports `Notice` (only `Plugin`), yet its `moveFile` calls
  `new Notice(...)` on the missing-file branch, after a successful rename
  and in its `catch`. The model follows helpers-plugin/main.js, where
  `Notice` is imported, and returns null or the new path as that file does.
- The URL parser, the metadata cache, the vault's file lookup, its rename,
  its reads and `JSON.parse`: they are host code and become parameters.
- Obsidian's path normalisation: a file's `path` is taken to be the path
  it was looked up by.
- UniqueId.CreateUniqueId: the timestamp is an exact `nat`, not the
  string `moment().format("X")` coerced to a double. Seconds since 1970
  stay far below 2^53, where the coercion is exact.
- JsString.LowerCase: it folds ASCII only, while `toLowerCase` maps all of
  Unicode. Image extensions are ASCII, so the image test is unaffected.
- WebLink.Capitalize: it upper-cases ASCII only. Host names are ASCII:
  http(s) hosts are lower-cased and punycoded, and other schemes
  percent-encode non-ASCII code points.
- WikiLink.FormatLinkQuoted: a `Title` that is truthy but not a string
  makes `title.trim()` throw. The model's title is a string or absent.
- NoteType.GetNoteType: JSON numbers are integers, with no fractions and
  no exponents.
- NoteType.GetNoteType: `value` is a JSON value. An `undefined` value,
  which would match every entry lacking the field, is not representable.
- NoteType.Property: inherited properties of objects are not modelled,
  such as `constructor`. They are functions, or the prototype object for
  `__proto__`; none strictly equals a parsed JSON value.
- TitleSanitizer.DropApostrophes: its own contract pins down one-character
  strings only; the order of what is kept over longer strings is stated by
  DropApostrophesAppend.
- NoteType.Property: indexing a string at one half of a surrogate pair
  yields a lone surrogate, which a Dafny string cannot hold. The model
  returns no value there. Such a value strictly equals no modelled value,
  so no search result changes.
- UniqueId.PrefixPart: a truthy prefix that is not a string, such as
  `createUniqueId(5)` giving `🆔 5-…`, is not modelled; the prefix is a
  string or absent.
- WikiLink.FormatLinkPlain: a `Title` that is truthy but not a string
  makes `title.trim()` throw in main.ts as in main.js; the model's title
  is a string or absent.
- Lone UTF-16 surrogates in titles, link text or URLs are not modelled:
  a Dafny string holds only whole characters.
