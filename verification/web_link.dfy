/** `formatWebLink(url)`: a markdown link `[Label](url)` whose label is a
    capitalised label of the URL's host name. The URL parser is the host's
    `URL` constructor; here it is a parameter that yields the host name, or
    nothing when the constructor throws. */
module WebLink {
  import opened Optional
  import opened JsString

  /** `new URL(s).hostname`, or None when the constructor throws. */
  type UrlParser = string -> Option<string>

  /** `url.startsWith("http") ? url : `https://${url}``: what is parsed. */
  function SchemeUrl(url: string): (r: string)
    ensures StartsWith(r, "http")
    ensures StartsWith(url, "http") ==> r == url
    ensures !StartsWith(url, "http") ==> r == "https://" + url
  {
    if StartsWith(url, "http") then url
    else
      assert ("https://" + url)[..4] == "http";
      "https://" + url
  }

  /** `hostname.replace(/^www\./, "")`: one leading `www.` at most. */
  function StripWww(host: string): (r: string)
    ensures StartsWith(host, "www.") ==> host == "www." + r
    ensures !StartsWith(host, "www.") ==> r == host
    ensures forall c :: c !in host ==> c !in r
  {
    if StartsWith(host, "www.") then
      assert host == host[..4] + host[4..];
      host[4..]
    else host
  }

  /** `parts.length > 2 ? parts.slice(-2, -1)[0] : parts[0]`. */
  function PickLabel(parts: seq<string>): (d: string)
    requires |parts| >= 1
    ensures d in parts
  {
    if |parts| > 2 then parts[|parts| - 2] else parts[0]
  }

  /** `domain.charAt(0).toUpperCase() + domain.slice(1)`. */
  function Capitalize(d: string): (r: string)
    ensures |r| == |d|
    ensures |d| > 0 ==> r[0] == AsciiUpper(d[0]) && r[1..] == d[1..]
  {
    if |d| == 0 then d else [AsciiUpper(d[0])] + d[1..]
  }

  /** The display name for a host name: one of its labels, so it holds no
      dot, and no character other than a capital that the host lacks. */
  function SiteLabel(host: string): (r: string)
    ensures '.' !in r
    ensures forall c :: c !in host && !('A' <= c <= 'Z') ==> c !in r
  {
    var parts := Split(StripWww(host), '.');
    var d := PickLabel(parts);
    SplitNoNewCharacters(StripWww(host), '.');
    CapitalizeAddsNoLower(d);
    Capitalize(d)
  }

  /** Capitalizing adds no character other than an upper-case letter. */
  lemma CapitalizeAddsNoLower(d: string)
    ensures forall c :: c !in d && !('A' <= c <= 'Z') ==> c !in Capitalize(d)
  {
    var r := Capitalize(d);
    forall c | c !in d && !('A' <= c <= 'Z') ensures c !in r {
      forall i | 0 <= i < |r| ensures r[i] != c {
        if i > 0 {
          assert r[i] == r[1..][i - 1] == d[1..][i - 1] == d[i];
        }
      }
    }
  }

  function MarkdownLink(text: string, target: string): string {
    "[" + text + "](" + target + ")"
  }

  /** `formatWebLink(url)`: empty for empty input, the raw input when parsing
      fails, and otherwise the quoted markdown link whose target is the
      caller's url as given, not the one with a scheme added. */
  function FormatWebLink(url: string, parse: UrlParser): (r: string)
    ensures r == "" <==> url == ""
    ensures url != "" && parse(SchemeUrl(url)).None? ==> r == url
    ensures url != "" && parse(SchemeUrl(url)).Some? ==>
              r == Quote(MarkdownLink(SiteLabel(parse(SchemeUrl(url)).value), url))
  {
    if url == "" then ""
    else
      match parse(SchemeUrl(url))
      case None => url
      case Some(host) => Quote(MarkdownLink(SiteLabel(host), url))
  }

  /** The label is one of the host's dot-separated labels, after the leading
      `www.` is gone, with its first letter upper-cased: the second-to-last
      one for more than two labels, else the first. It never holds a dot. */
  lemma SiteLabelIsHostLabel(host: string)
    ensures var parts := Split(StripWww(host), '.');
            var k := if |parts| > 2 then |parts| - 2 else 0;
            && Join(parts, '.') == StripWww(host)
            && SiteLabel(host) == Capitalize(parts[k])
            && '.' !in SiteLabel(host)
  {
    var parts := Split(StripWww(host), '.');
    var d := PickLabel(parts);
    var r := SiteLabel(host);
    assert '.' !in d;
    forall i | 0 <= i < |r| ensures r[i] != '.' {
      if i > 0 {
        assert r[i] == r[1..][i - 1] == d[1..][i - 1] == d[i];
      } else {
        assert r[0] == AsciiUpper(d[0]);
        assert d[0] != '.';
      }
    }
  }

  /** Dot-free labels joined by dots split back apart. */
  lemma SplitLabels(a: string, b: string, c: string)
    requires '.' !in a && '.' !in b && '.' !in c
    ensures Split(a + "." + b, '.') == [a, b]
    ensures Split(a + "." + b + "." + c, '.') == [a, b, c]
  {
    SplitTwo(a, b, '.');
    assert a + "." + b == a + ['.'] + b;
    var parts := [a, b, c];
    assert Join(parts[1..], '.') == b + ['.'] + c by {
      assert parts[1..] == [b, c];
      assert [b, c][1..] == [c];
    }
    assert Join(parts, '.') == a + "." + b + "." + c;
    SplitJoin(parts, '.');
  }

  /** A host of two labels is named after the first: `github.com` gives
      `Github`. */
  lemma TwoLabelHost(a: string, b: string)
    requires '.' !in a && '.' !in b && !StartsWith(a + "." + b, "www.")
    ensures SiteLabel(a + "." + b) == Capitalize(a)
  {
    SplitLabels(a, b, "");
  }

  /** A host of three labels is named after the middle one, public suffix or
      not: `example.co.uk` gives `Co`. */
  lemma ThreeLabelHost(a: string, b: string, c: string)
    requires '.' !in a && '.' !in b && '.' !in c && !StartsWith(a + "." + b + "." + c, "www.")
    ensures SiteLabel(a + "." + b + "." + c) == Capitalize(b)
  {
    SplitLabels(a, b, c);
  }

  /** One leading `www.` is dropped before the labels are counted, so
      `www.github.com` gives `Github` like `github.com`. */
  lemma WwwIsDropped(rest: string)
    ensures SiteLabel("www." + rest) == Capitalize(PickLabel(Split(rest, '.')))
  {
    assert ("www." + rest)[..4] == "www.";
    assert ("www." + rest)[4..] == rest;
  }

  /** Reading a markdown link `[text](target)` back: the text runs to the
      first `]`. */
  function ParseMarkdownLink(s: string): Option<(string, string)> {
    var i := IndexOf(s, ']');
    if |s| < 4 || s[0] != '[' || s[|s| - 1] != ')' || i + 1 >= |s| - 1 || s[i + 1] != '(' then None
    else Some((s[1..i], s[i + 2..|s| - 1]))
  }

  /** A link whose text has no `]` reads back as its text and target. */
  lemma ParseMarkdownLinkOf(text: string, target: string)
    requires ']' !in text
    ensures ParseMarkdownLink(MarkdownLink(text, target)) == Some((text, target))
  {
    var a := "[" + text;
    var b := "](" + target + ")";
    var s := a + b;
    assert MarkdownLink(text, target) == s;
    assert ']' !in a by {
      assert a == ['['] + text;
    }
    IndexOfAfter(a, b, ']');
    IndexOfHead(b, ']');
    var i := |a|;
    assert s[i + 1] == b[1] == '(';
    assert s[1..i] == text;
    assert s[i + 2..|s| - 1] == target;
    ParseAt(s, i);
  }

  /** A link is read at the position of its first `]`. */
  lemma ParseAt(s: string, i: nat)
    requires |s| >= 4 && s[0] == '[' && s[|s| - 1] == ')'
    requires IndexOf(s, ']') == i && i + 1 < |s| - 1 && s[i + 1] == '('
    ensures ParseMarkdownLink(s) == Some((s[1..i], s[i + 2..|s| - 1]))
  {
  }

  /** What `formatWebLink` renders reads back, between its quotes, as the
      site label and the caller's url untouched, whenever the host name has
      no `]`. */
  lemma WebLinkReadsBack(url: string, parse: UrlParser)
    requires url != "" && parse(SchemeUrl(url)).Some?
    requires ']' !in parse(SchemeUrl(url)).value
    ensures var r := FormatWebLink(url, parse);
            ParseMarkdownLink(r[1..|r| - 1]) == Some((SiteLabel(parse(SchemeUrl(url)).value), url))
  {
    var host := parse(SchemeUrl(url)).value;
    var site := SiteLabel(host);
    assert ']' !in site;
    var m := MarkdownLink(site, url);
    var r := FormatWebLink(url, parse);
    assert r == Quote(m);
    assert r[1..|r| - 1] == m;
    ParseMarkdownLinkOf(site, url);
  }

  /** Splitting introduces no character other than those of the string. */
  lemma SplitNoNewCharacters(s: string, sep: char)
    ensures forall c, k :: c !in s && 0 <= k < |Split(s, sep)| ==> c !in Split(s, sep)[k]
  {
    forall c | c !in s {
      SplitNoNewCharacter(s, sep, c);
    }
  }

  /** Splitting introduces no character the string did not have. */
  lemma SplitNoNewCharacter(s: string, sep: char, c: char)
    requires c !in s
    ensures forall k :: 0 <= k < |Split(s, sep)| ==> c !in Split(s, sep)[k]
    decreases |s|
  {
    if |s| > 0 {
      SplitNoNewCharacter(s[1..], sep, c);
      assert s == [s[0]] + s[1..];
    }
  }
}
