/** `createUniqueId(prefix)`: the current Unix time in seconds written in
    base 62, most significant digit first, after the 🆔 marker and an
    optional `prefix-`. The clock is a parameter here. */
module UniqueId {
  import opened Optional

  /** The 62 digit symbols, in digit order: createUniqueId's `chars`
      literal `0-9a-zA-Z`, written as its three runs so that the verifier
      can index it. */
  const Alphabet: string := Decimals + LowerLetters + UpperLetters

  const Decimals: string := "0123456789"
  const LowerLetters: string := "abcdefghijklmnopqrstuvwxyz"
  const UpperLetters: string := "ABCDEFGHIJKLMNOPQRSTUVWXYZ"

  /** The emoji and space every id starts with. */
  const Marker: string := "\U{1F194} "

  /** The symbol for digit `d`: `0-9`, then `a-z`, then `A-Z`. */
  function DigitChar(d: nat): (c: char)
    requires d < 62
  {
    if d < 10 then ('0' as int + d) as char
    else if d < 36 then ('a' as int + d - 10) as char
    else ('A' as int + d - 36) as char
  }

  predicate IsDigitChar(c: char) {
    ('0' <= c <= '9') || ('a' <= c <= 'z') || ('A' <= c <= 'Z')
  }

  /** The digit a symbol stands for: the inverse of DigitChar. */
  function DigitValue(c: char): (d: nat)
    requires IsDigitChar(c)
    ensures d < 62 && DigitChar(d) == c
  {
    if '0' <= c <= '9' then c as int - '0' as int
    else if 'a' <= c <= 'z' then c as int - 'a' as int + 10
    else c as int - 'A' as int + 36
  }

  lemma DigitCharValue(d: nat)
    requires d < 62
    ensures IsDigitChar(DigitChar(d)) && DigitValue(DigitChar(d)) == d
  {
  }

  /** createUniqueId's alphabet string is exactly the DigitChar table. */
  lemma AlphabetIsDigitChars()
    ensures |Alphabet| == 62
    ensures forall d :: 0 <= d < 62 ==> Alphabet[d] == DigitChar(d)
  {
    DigitsRange();
    LowerRange();
    UpperRange();
  }

  lemma DigitsRange()
    ensures forall d :: 0 <= d < 10 ==> Alphabet[d] == DigitChar(d)
  {
    assert forall d :: 0 <= d < 10 ==> Decimals[d] == DigitChar(d);
  }

  lemma LowerRange()
    ensures forall d :: 10 <= d < 36 ==> Alphabet[d] == DigitChar(d)
  {
    assert forall d :: 0 <= d < 26 ==> LowerLetters[d] == DigitChar(d + 10);
  }

  lemma UpperRange()
    ensures forall d :: 36 <= d < 62 ==> Alphabet[d] == DigitChar(d)
  {
    assert forall d :: 0 <= d < 26 ==> UpperLetters[d] == DigitChar(d + 36);
  }

  /** The base-62 digits of `n`, most significant first, with no leading
      zero: `0` is the single digit `"0"`. */
  function Digits(n: nat): (s: string)
    ensures |s| >= 1
    ensures forall k :: 0 <= k < |s| ==> IsDigitChar(s[k])
    ensures n > 0 ==> s[0] != '0'
    decreases n
  {
    if n < 62 then [DigitChar(n)] else Digits(n / 62) + [DigitChar(n % 62)]
  }

  /** The number a string of digit symbols stands for. */
  function Decode(s: string): nat
    requires forall k :: 0 <= k < |s| ==> IsDigitChar(s[k])
    decreases |s|
  {
    if |s| == 0 then 0 else Decode(s[..|s| - 1]) * 62 + DigitValue(s[|s| - 1])
  }

  /** Decoding the digits gives back the number. */
  lemma {:induction false} DecodeDigits(n: nat)
    ensures Decode(Digits(n)) == n
    decreases n
  {
    var s := Digits(n);
    if n < 62 {
      DigitCharValue(n);
    } else {
      DecodeDigits(n / 62);
      DigitCharValue(n % 62);
      assert s[..|s| - 1] == Digits(n / 62);
    }
  }

  /** A digit string in the form Digits produces: non-empty, and no leading
      zero unless it is `"0"` itself. */
  predicate IsCanonical(s: string) {
    && |s| >= 1
    && (forall k :: 0 <= k < |s| ==> IsDigitChar(s[k]))
    && (|s| > 1 ==> s[0] != '0')
  }

  lemma {:induction false} DecodeBound(s: string)
    requires forall k :: 0 <= k < |s| ==> IsDigitChar(s[k])
    requires |s| >= 1 && s[0] != '0'
    ensures Decode(s) > 0
    decreases |s|
  {
    if |s| == 1 {
      assert Decode(s) == Decode(s[..0]) * 62 + DigitValue(s[0]);
    } else {
      DecodeBound(s[..|s| - 1]);
    }
  }

  /** Every canonical digit string is the encoding of the number it stands
      for, so the encoding is a bijection between numbers and canonical
      strings. */
  lemma {:induction false} DigitsDecode(s: string)
    requires IsCanonical(s)
    ensures Digits(Decode(s)) == s
    decreases |s|
  {
    var last := s[|s| - 1];
    var d := DigitValue(last);
    if |s| == 1 {
      assert Decode(s) == d;
    } else {
      var init := s[..|s| - 1];
      DigitsDecode(init);
      DecodeBound(init);
      var n := Decode(s);
      assert n == Decode(init) * 62 + d;
      assert n / 62 == Decode(init) && n % 62 == d;
      assert s == init + [last];
    }
  }

  /** The optional label: `prefix ? `${prefix}-` : ""`. An absent or empty
      prefix adds nothing. */
  function PrefixPart(prefix: Option<string>): (r: string)
    ensures (prefix.Some? && prefix.value != "") <==> |r| > 0
    ensures |r| > 0 ==> r == prefix.value + "-"
  {
    if prefix.Some? && prefix.value != "" then prefix.value + "-" else ""
  }

  /** One turn of the do-while loop: the last digit of `n` is the alphabet
      symbol at `n % 62`, and the digits before it are those of `n / 62`,
      or none once that is zero. */
  lemma DigitsStep(n: nat)
    ensures n < 62 ==> Digits(n) == [Alphabet[n % 62]]
    ensures n >= 62 ==> Digits(n) == Digits(n / 62) + [Alphabet[n % 62]]
  {
    var d := n % 62;
    AlphabetDigit(d);
    if n < 62 {
      assert d == n;
    }
  }

  lemma AlphabetDigit(d: nat)
    requires d < 62
    ensures Alphabet[d] == DigitChar(d)
  {
    AlphabetIsDigitChars();
  }

  /** The do-while loop of `createUniqueId`: prepend the symbol for
      `num % 62`, divide by 62, repeat while the number is positive. */
  method CreateUniqueId(timestamp: nat, prefix: Option<string>) returns (id: string)
    ensures id == Marker + PrefixPart(prefix) + Digits(timestamp)
    ensures Decode(id[|Marker| + |PrefixPart(prefix)|..]) == timestamp
  {
    var num := timestamp;
    var result := [];
    DigitsStep(num);
    result := [Alphabet[num % 62]] + result;
    num := num / 62;
    while num > 0
      invariant num > 0 ==> Digits(num) + result == Digits(timestamp)
      invariant num == 0 ==> result == Digits(timestamp)
      decreases num
    {
      DigitsStep(num);
      result := [Alphabet[num % 62]] + result;
      num := num / 62;
    }
    id := Marker + PrefixPart(prefix) + result;
    DigitsAfterPrefix(Marker + PrefixPart(prefix), timestamp);
  }

  /** The digits of an id are the suffix after its marker and prefix. */
  lemma DigitsAfterPrefix(head: string, timestamp: nat)
    ensures (head + Digits(timestamp))[|head|..] == Digits(timestamp)
    ensures Decode((head + Digits(timestamp))[|head|..]) == timestamp
  {
    assert (head + Digits(timestamp))[|head|..] == Digits(timestamp);
    DecodeDigits(timestamp);
  }

  /** Reading an id back: drop the marker, keep what follows the last `-`
      and decode it. The digits never contain `-`, so whatever the prefix
      holds, the timestamp is recovered. */
  function TimestampOf(id: string): Option<nat> {
    if |id| < |Marker| || id[..|Marker|] != Marker then None
    else
      ReadDigits(AfterLastDash(id[|Marker|..]))
  }

  /** The number a canonical digit string stands for, if it is one. */
  function ReadDigits(digits: string): Option<nat> {
    if IsCanonical(digits) then Some(Decode(digits)) else None
  }

  /** The part of `s` after its last `-`, or all of `s` without one. */
  function AfterLastDash(s: string): (r: string)
    ensures '-' !in r
    decreases |s|
  {
    if |s| == 0 then ""
    else if s[|s| - 1] == '-' then ""
    else AfterLastDash(s[..|s| - 1]) + [s[|s| - 1]]
  }

  lemma {:induction false} AfterLastDashOf(a: string, d: string)
    requires '-' !in d
    ensures AfterLastDash(a + d) == (if a != "" && a[|a| - 1] == '-' then d
                                     else AfterLastDash(a) + d)
    decreases |d|
  {
    if |d| == 0 {
      assert a + d == a;
    } else {
      var s := a + d;
      assert s[..|s| - 1] == a + d[..|d| - 1];
      AfterLastDashOf(a, d[..|d| - 1]);
      assert d == d[..|d| - 1] + [d[|d| - 1]];
    }
  }

  lemma DigitsHaveNoDash(n: nat)
    ensures '-' !in Digits(n)
  {
    var s := Digits(n);
    forall k | 0 <= k < |s| ensures s[k] != '-' {
      assert IsDigitChar(s[k]);
    }
  }

  /** Every id CreateUniqueId produces reads back as its timestamp, with or
      without a prefix. */
  lemma TimestampOfCreated(timestamp: nat, prefix: Option<string>)
    ensures TimestampOf(Marker + PrefixPart(prefix) + Digits(timestamp)) == Some(timestamp)
  {
    PrefixThenDigits(prefix, timestamp);
    DigitsAreCanonical(timestamp);
    DecodeDigits(timestamp);
    ReadAfterMarker(PrefixPart(prefix), Digits(timestamp));
  }

  /** An id is read from what follows its marker. */
  lemma ReadAfterMarker(p: string, d: string)
    ensures TimestampOf(Marker + p + d) == ReadDigits(AfterLastDash(p + d))
  {
    var id := Marker + p + d;
    assert id[..|Marker|] == Marker;
    assert id[|Marker|..] == p + d;
  }

  /** Whatever the prefix, what follows the last dash is the digits. */
  lemma PrefixThenDigits(prefix: Option<string>, timestamp: nat)
    ensures AfterLastDash(PrefixPart(prefix) + Digits(timestamp)) == Digits(timestamp)
  {
    var p := PrefixPart(prefix);
    var d := Digits(timestamp);
    DigitsHaveNoDash(timestamp);
    AfterLastDashOf(p, d);
    if p == "" {
      assert AfterLastDash(p) == "";
    } else {
      assert p[|p| - 1] == '-';
    }
  }

  lemma DigitsAreCanonical(n: nat)
    ensures IsCanonical(Digits(n))
  {
    if n == 0 {
      assert Digits(n) == "0";
    }
  }

  /** Timestamp zero gives exactly the digit `0`. */
  lemma ZeroIsSingleDigit()
    ensures Digits(0) == "0"
  {
  }
}
