/** `getNoteType(key, value)`: the first entry of the `noteTypes` array of
    the lookup file whose `key` property is strictly equal to `value`, or
    null. Reading and parsing the file are the host's; the parsed document
    is a parameter here, absent when the file is missing or does not
    parse. */
module NoteType {
  import opened Optional
  import opened JsString

  /** A parsed JSON value. Numbers are modelled as integers. */
  datatype Json =
    | Null
    | Bool(b: bool)
    | Num(n: int)
    | Str(s: string)
    | Arr(items: seq<Json>)
    | Obj(fields: map<string, Json>)

  /** `a === b` on parsed JSON: equal primitives are equal, while two arrays
      or objects are never the same object, since each parse builds fresh
      ones. */
  predicate StrictEquals(a: Json, b: Json)
    ensures StrictEquals(a, b) <==> a == b && !a.Arr? && !a.Obj?
  {
    match (a, b)
    case (Null, Null) => true
    case (Bool(x), Bool(y)) => x == y
    case (Num(x), Num(y)) => x == y
    case (Str(x), Str(y)) => x == y
    case _ => false
  }

  /** JavaScript truthiness: `false`, `0`, `""` and `null` are falsy. */
  predicate Truthy(j: Json)
    ensures Truthy(j) <==> j != Null && j != Bool(false) && j != Num(0) && j != Str("")
  {
    match j
    case Null => false
    case Bool(x) => x
    case Num(x) => x != 0
    case Str(x) => x != ""
    case _ => true
  }

  /** The number a canonical array index key stands for: decimal digits
      with no leading zero, `"0"` included. */
  function IndexKey(key: string): (r: Option<nat>)
    ensures r.Some? <==>
              |key| >= 1 && (|key| > 1 ==> key[0] != '0') && forall k :: 0 <= k < |key| ==> '0' <= key[k] <= '9'
    ensures r.Some? ==> r.value == Decimal(key)
  {
    if key == "" || (|key| > 1 && key[0] == '0') || exists k :: 0 <= k < |key| && !('0' <= key[k] <= '9') then None
    else Some(Decimal(key))
  }

  function Decimal(s: string): nat
    requires forall k :: 0 <= k < |s| ==> '0' <= s[k] <= '9'
    decreases |s|
  {
    if |s| == 0 then 0 else Decimal(s[..|s| - 1]) * 10 + (s[|s| - 1] as int - '0' as int)
  }

  /** `item[key]` on a non-null item: an own field of an object, the length
      or an element of an array, the length or a code unit of a string, and
      undefined otherwise. JavaScript strings are sequences of UTF-16 code
      units, so a string's length and indices count units. */
  function Property(item: Json, key: string): (r: Option<Json>)
    requires item != Null
    ensures item.Obj? ==> (r.Some? <==> key in item.fields) && (r.Some? ==> r.value == item.fields[key])
    ensures (item.Bool? || item.Num?) ==> r.None?
    ensures item.Arr? && key == "length" ==> r == Some(Num(|item.items|))
    ensures item.Str? && key == "length" ==> r == Some(Num(|ToUnits(item.s)|))
    ensures item.Arr? && IndexKey(key).Some? ==>
              (r.Some? <==> IndexKey(key).value < |item.items|)
              && (r.Some? ==> r.value == item.items[IndexKey(key).value])
  {
    match item
    case Obj(m) => if key in m then Some(m[key]) else None
    case Arr(xs) =>
      if key == "length" then Some(Num(|xs|))
      else
        var i := IndexKey(key);
        if i.Some? && i.value < |xs| then Some(xs[i.value]) else None
    case Str(s) =>
      var u := ToUnits(s);
      if key == "length" then Some(Num(|u|))
      else
        var i := IndexKey(key);
        if i.Some? && i.value < |u| && u[i.value].Bmp? then Some(Str([u[i.value].c])) else None
    case _ => None
  }

  /** The callback `item => item[key] === value` on a non-null item. */
  predicate Matches(item: Json, key: string, value: Json)
    requires item != Null
    ensures Matches(item, key, value) ==> !value.Arr? && !value.Obj? && !item.Bool? && !item.Num?
  {
    var p := Property(item, key);
    p.Some? && StrictEquals(p.value, value)
  }

  /** An entry the search passes over: not null, and not a match. */
  predicate Skipped(item: Json, key: string, value: Json) {
    item != Null && !Matches(item, key, value)
  }

  /** How `Array.prototype.find` ends: at a match, off the end, or at a null
      entry, where reading `item[key]` throws. */
  datatype Search = Found(index: nat) | Missing | Threw(at: nat)

  /** The scan of `noteTypes.find(...)`, front to back. Whatever it ends on,
      every entry before that point was passed over. */
  function Find(items: seq<Json>, key: string, value: Json): (r: Search)
    ensures r.Found? ==> r.index < |items| && items[r.index] != Null && Matches(items[r.index], key, value)
    ensures r.Threw? ==> r.at < |items| && items[r.at] == Null
    ensures r.Missing? ==> forall k :: 0 <= k < |items| ==> Skipped(items[k], key, value)
    ensures r.Found? ==> forall k :: 0 <= k < r.index ==> Skipped(items[k], key, value)
    ensures r.Threw? ==> forall k :: 0 <= k < r.at ==> Skipped(items[k], key, value)
    decreases |items|
  {
    if |items| == 0 then Missing
    else if items[0] == Null then Threw(0)
    else if Matches(items[0], key, value) then Found(0)
    else
      match Find(items[1..], key, value)
      case Found(i) => Found(i + 1)
      case Missing => Missing
      case Threw(i) => Threw(i + 1)
  }

  /** `doc?.noteTypes`, when it is an array. */
  function NoteTypes(doc: Option<Json>): (r: Option<seq<Json>>)
    ensures r.Some? <==>
              doc.Some? && doc.value.Obj? && "noteTypes" in doc.value.fields && doc.value.fields["noteTypes"].Arr?
    ensures r.Some? ==> doc.value.fields["noteTypes"] == Arr(r.value)
  {
    if doc.Some? && doc.value.Obj? && "noteTypes" in doc.value.fields && doc.value.fields["noteTypes"].Arr? then
      Some(doc.value.fields["noteTypes"].items)
    else None
  }

  /** `getNoteType(key, value)` on the parsed lookup file. None is
      getNoteType's null: for a missing or unparseable file, a `noteTypes`
      that is not an array, no match, a falsy match, or a null entry reached
      before any match. */
  function GetNoteType(doc: Option<Json>, key: string, value: Json): (r: Option<Json>)
    ensures NoteTypes(doc).None? ==> r.None?
    ensures r.Some? ==> r.value in NoteTypes(doc).value && Truthy(r.value)
    ensures r.Some? ==> r.value != Null && Matches(r.value, key, value)
  {
    match NoteTypes(doc)
    case None => None
    case Some(items) =>
      match Find(items, key, value)
      case Found(i) => if Truthy(items[i]) then Some(items[i]) else None
      case _ => None
  }

  /** The result in terms of positions alone: the first entry that is null
      or matches decides, and only a truthy match is returned. */
  lemma FirstDecidingEntry(doc: Option<Json>, items: seq<Json>, key: string, value: Json, i: nat)
    requires NoteTypes(doc) == Some(items)
    requires i < |items|
    requires forall k :: 0 <= k < i ==> Skipped(items[k], key, value)
    requires !Skipped(items[i], key, value)
    ensures GetNoteType(doc, key, value)
              == if items[i] != Null && Truthy(items[i]) then Some(items[i]) else None
  {
    FindFirst(items, key, value, i);
  }

  /** The scan stops at the first entry it does not pass over. */
  lemma {:induction false} FindFirst(items: seq<Json>, key: string, value: Json, i: nat)
    requires i < |items|
    requires forall k :: 0 <= k < i ==> Skipped(items[k], key, value)
    requires !Skipped(items[i], key, value)
    ensures items[i] == Null ==> Find(items, key, value) == Threw(i)
    ensures items[i] != Null ==> Find(items, key, value) == Found(i)
    decreases i
  {
    if i > 0 {
      assert Skipped(items[0], key, value);
      FindFirst(items[1..], key, value, i - 1);
    }
  }

  /** Nothing matches and nothing is null: the result is null. */
  lemma NoMatchIsNull(doc: Option<Json>, items: seq<Json>, key: string, value: Json)
    requires NoteTypes(doc) == Some(items)
    requires forall k :: 0 <= k < |items| ==> Skipped(items[k], key, value)
    ensures GetNoteType(doc, key, value).None?
  {
  }

  /** Entries after a match never change the result: the first match wins. */
  lemma {:induction false} LaterEntriesIgnored(items: seq<Json>, more: seq<Json>, key: string, value: Json)
    requires Find(items, key, value).Found?
    ensures Find(items + more, key, value) == Find(items, key, value)
    decreases |items|
  {
    var all := items + more;
    assert all[0] == items[0];
    if items[0] != Null && !Matches(items[0], key, value) {
      assert all[1..] == items[1..] + more;
      LaterEntriesIgnored(items[1..], more, key, value);
    }
  }

  /** A passed-over entry in front shifts the match by one and nothing else. */
  lemma SkippedEntryInFront(item: Json, items: seq<Json>, key: string, value: Json)
    requires Skipped(item, key, value)
    ensures Find([item] + items, key, value) ==
              match Find(items, key, value)
              case Found(i) => Found(i + 1)
              case Missing => Missing
              case Threw(i) => Threw(i + 1)
  {
    assert ([item] + items)[1..] == items;
  }

  /** A blank string entry has length 0, so it matches `length === 0`; it is
      falsy, so `|| null` turns the match into null even when a truthy match
      follows it. */
  lemma EmptyStringMatchIsNull(rest: seq<Json>)
    ensures GetNoteType(Some(Obj(map["noteTypes" := Arr([Str("")] + rest)])), "length", Num(0)).None?
  {
    var items := [Str("")] + rest;
    assert Matches(items[0], "length", Num(0));
    FindFirst(items, "length", Num(0), 0);
  }

  /** An object entry matches exactly when it has the field and the field is
      the same primitive; an object or array value never matches. */
  lemma ObjectMatches(m: map<string, Json>, key: string, value: Json)
    ensures Matches(Obj(m), key, value) <==> key in m && StrictEquals(m[key], value)
    ensures (value.Arr? || value.Obj?) ==> !Matches(Obj(m), key, value)
  {
  }

  /** Canonical decimal keys are read as their value; any other key is no
      index. */
  lemma IndexKeyExamples()
    ensures IndexKey("0") == Some(0)
    ensures IndexKey("12") == Some(12)
    ensures IndexKey("01").None? && IndexKey("").None? && IndexKey("length").None?
  {
    assert Decimal("1") == 1;
    assert "12"[..1] == "1";
    assert !('0' <= 'l' <= '9');
  }

  /** A string's length counts UTF-16 code units: `"a🆔".length` is 3, so
      the entry `"a🆔"` is what a search for `length === 3` returns. */
  lemma AstralStringLength()
    ensures Property(Str("a\U{1F194}"), "length") == Some(Num(3))
    ensures GetNoteType(Some(Obj(map["noteTypes" := Arr([Str("a\U{1F194}")])])), "length", Num(3))
              == Some(Str("a\U{1F194}"))
  {
    var s := "a\U{1F194}";
    ToUnitsAppend("a", "\U{1F194}");
    assert s == "a" + "\U{1F194}";
    assert |ToUnits(s)| == 3;
    FindFirst([Str(s)], "length", Num(3), 0);
  }
}
