/**
 Localised texts in the subscription page configuration: finding them in a JSON tree, checking that
 the required locales are there, and cleaning out the others.
 */
module LocalizedTexts {
  import opened Collections
  import opened Json

  const LANGUAGE_CODES: set<string> :=
    {"en", "ru", "zh", "fr", "fa", "uz", "de", "hi", "tr", "az", "es", "vi", "ja", "be", "uk", "pt", "pl", "id", "tk", "th"}

  /** TSubscriptionPageLanguageCode[] */
  predicate IsLocales(locales: seq<string>) {
    forall l | l in locales :: l in LANGUAGE_CODES
  }

  // ---- String.prototype.trim ----

  predicate IsSpace(c: char) {
    || '\U{0009}' <= c <= '\U{000D}' || c == ' ' || c == '\U{00A0}' || c == '\U{1680}'
    || '\U{2000}' <= c <= '\U{200A}' || c == '\U{2028}' || c == '\U{2029}' || c == '\U{202F}'
    || c == '\U{205F}' || c == '\U{3000}' || c == '\U{FEFF}'
  }

  function TrimStart(s: string): string {
    if s != "" && IsSpace(s[0]) then TrimStart(s[1..]) else s
  }

  function TrimEnd(s: string): string {
    if s != "" && IsSpace(s[|s| - 1]) then TrimEnd(s[..|s| - 1]) else s
  }

  function Trim(s: string): string {
    TrimEnd(TrimStart(s))
  }

  lemma {:induction false} TrimEndPrefix(s: string)
    ensures TrimEnd(s) <= s && (TrimEnd(s) != "" ==> !IsSpace(TrimEnd(s)[|TrimEnd(s)| - 1]))
  {
    if s != "" && IsSpace(s[|s| - 1]) {
      TrimEndPrefix(s[..|s| - 1]);
    }
  }

  lemma {:induction false} TrimStartStops(s: string)
    ensures TrimStart(s) != "" ==> !IsSpace(TrimStart(s)[0])
  {
    if s != "" && IsSpace(s[0]) {
      TrimStartStops(s[1..]);
    }
  }

  lemma TrimTwice(s: string)
    ensures Trim(Trim(s)) == Trim(s)
  {
    TrimStartStops(s);
    TrimEndPrefix(TrimStart(s));
  }

  // ---- Localised texts ----

  /** The length of a JavaScript string: a character outside the first plane counts as two code units. */
  function Units(s: string): nat {
    if s == "" then 0 else (if s[0] < '\U{10000}' then 1 else 2) + Units(s[1..])
  }

  /** isLocalizedText: an object with string values only and at least one key of length two. */
  predicate IsText(fs: seq<Field>) {
    && fs != []
    && (forall i | 0 <= i < |fs| :: fs[i].value.Str?)
    && exists i | 0 <= i < |fs| :: Units(fs[i].key) == 2
  }

  /** The locale has a text that is not blank. */
  predicate Present(fs: seq<Field>, locale: string) {
    Lookup(fs, locale).Str? && Trim(Lookup(fs, locale).s) != ""
  }

  // ---- Checking ----

  datatype PathStep = Root(name: string) | Index(i: nat) | Key(key: string)
  datatype Issue = Issue(path: seq<PathStep>, locale: string)

  function Missing(fs: seq<Field>, path: seq<PathStep>, locales: seq<string>): seq<Issue> {
    if locales == [] then []
    else (if Present(fs, locales[0]) then [] else [Issue(path, locales[0])]) + Missing(fs, path, locales[1..])
  }

  function ItemIssues(items: seq<Json>, from: nat, path: seq<PathStep>, locales: seq<string>): seq<Issue>
    decreases items, 0, 0
  {
    if items == [] then []
    else Issues(items[0], path + [Index(from)], locales) + ItemIssues(items[1..], from + 1, path, locales)
  }

  function FieldIssues(fs: seq<Field>, path: seq<PathStep>, locales: seq<string>): seq<Issue>
    decreases fs, 0, 0
  {
    if fs == [] then []
    else Issues(fs[0].value, path + [Key(fs[0].key)], locales) + FieldIssues(fs[1..], path, locales)
  }

  /** The issues that checkLocalizedText reports, in order. */
  function Issues(j: Json, path: seq<PathStep>, locales: seq<string>): seq<Issue>
    decreases j, 1, 0
  {
    match j
    case Obj(fs) => if IsText(fs) then Missing(fs, path, locales) else FieldIssues(fs, path, locales)
    case Arr(items) => ItemIssues(items, 0, path, locales)
    case _ => []
  }

  // ---- Cleaning ----

  /** What cleaning keeps of one field of a text: an active locale, trimmed, unless blank. */
  function CleanField(f: Field, locales: seq<string>): seq<Field> {
    if f.value.Str? && f.key in LANGUAGE_CODES && f.key in locales && Trim(f.value.s) != "" then [Field(f.key, Str(Trim(f.value.s)))] else []
  }

  function CleanText(fs: seq<Field>, locales: seq<string>): seq<Field> {
    if fs == [] then [] else CleanField(fs[0], locales) + CleanText(fs[1..], locales)
  }

  function CleanItems(items: seq<Json>, locales: seq<string>): (r: seq<Json>)
    ensures |r| == |items|
    decreases items, 0
  {
    if items == [] then [] else [Clean(items[0], locales)] + CleanItems(items[1..], locales)
  }

  function CleanFields(fs: seq<Field>, locales: seq<string>): (r: seq<Field>)
    ensures |r| == |fs|
    decreases fs, 0
  {
    if fs == [] then [] else [Field(fs[0].key, Clean(fs[0].value, locales))] + CleanFields(fs[1..], locales)
  }

  function Clean(j: Json, locales: seq<string>): Json
    decreases j, 1
  {
    match j
    case Obj(fs) => if IsText(fs) then Obj(CleanText(fs, locales)) else Obj(CleanFields(fs, locales))
    case Arr(items) => Arr(CleanItems(items, locales))
    case _ => j
  }

  /** null, booleans, numbers, strings, arrays and objects stay what they are. */
  lemma CleanKeepsKind(j: Json, locales: seq<string>)
    ensures var c := Clean(j, locales);
            && c.Obj? == j.Obj? && c.Arr? == j.Arr? && c.Str? == j.Str?
            && (!j.Obj? && !j.Arr? ==> c == j)
  {
  }

  /** Outside texts, cleaning keeps keys and the kinds of values, so it makes no new text and unmakes none. */
  lemma {:induction false} CleanFieldsKeeps(fs: seq<Field>, locales: seq<string>)
    ensures var r := CleanFields(fs, locales);
            forall i | 0 <= i < |fs| :: r[i].key == fs[i].key && r[i].value == Clean(fs[i].value, locales)
  {
    if fs != [] {
      CleanFieldsKeeps(fs[1..], locales);
    }
  }

  lemma NotTextStays(fs: seq<Field>, locales: seq<string>)
    ensures IsText(CleanFields(fs, locales)) == IsText(fs)
  {
    CleanFieldsKeeps(fs, locales);
    forall i | 0 <= i < |fs|
      ensures CleanFields(fs, locales)[i].value.Str? == fs[i].value.Str?
    {
      CleanKeepsKind(fs[i].value, locales);
    }
  }

  lemma {:induction false} CleanTextFields(fs: seq<Field>, locales: seq<string>)
    ensures forall f | f in CleanText(fs, locales) ::
      f.key in locales && f.key in LANGUAGE_CODES && f.value.Str? && f.value.s != "" && Trim(f.value.s) == f.value.s
  {
    if fs != [] {
      CleanTextFields(fs[1..], locales);
      if fs[0].value.Str? {
        TrimTwice(fs[0].value.s);
      }
    }
  }

  lemma {:induction false} CleanTextFixed(fs: seq<Field>, locales: seq<string>)
    requires forall f | f in fs :: f.key in locales && f.key in LANGUAGE_CODES && f.value.Str? && f.value.s != "" && Trim(f.value.s) == f.value.s
    ensures CleanText(fs, locales) == fs
  {
    if fs != [] {
      assert fs[0] in fs && forall f | f in fs[1..] :: f in fs;
      CleanTextFixed(fs[1..], locales);
    }
  }

  lemma {:induction false} CleanStrings(fs: seq<Field>, locales: seq<string>)
    requires forall f | f in fs :: f.value.Str?
    ensures CleanFields(fs, locales) == fs
  {
    if fs != [] {
      assert fs[0] in fs && forall f | f in fs[1..] :: f in fs;
      CleanStrings(fs[1..], locales);
    }
  }

  lemma {:induction false} CleanItemsTwice(items: seq<Json>, locales: seq<string>)
    ensures CleanItems(CleanItems(items, locales), locales) == CleanItems(items, locales)
    decreases items, 0
  {
    if items != [] {
      CleanTwice(items[0], locales);
      CleanItemsTwice(items[1..], locales);
    }
  }

  lemma {:induction false} CleanFieldsTwice(fs: seq<Field>, locales: seq<string>)
    ensures CleanFields(CleanFields(fs, locales), locales) == CleanFields(fs, locales)
    decreases fs, 0
  {
    if fs != [] {
      CleanTwice(fs[0].value, locales);
      CleanFieldsTwice(fs[1..], locales);
    }
  }

  /** Cleaning a clean tree changes nothing. */
  lemma {:induction false} CleanTwice(j: Json, locales: seq<string>)
    ensures Clean(Clean(j, locales), locales) == Clean(j, locales)
    decreases j, 1
  {
    match j
    case Obj(fs) =>
      if IsText(fs) {
        CleanTextFields(fs, locales);
        CleanTextFixed(CleanText(fs, locales), locales);
        CleanStrings(CleanText(fs, locales), locales);
      } else {
        NotTextStays(fs, locales);
        CleanFieldsTwice(fs, locales);
      }
    case Arr(items) => CleanItemsTwice(items, locales);
    case _ =>
  }

  // ---- Cleaning and checking with the same locales ----

  /** Every text in the tree has all the locales. */
  predicate Complete(j: Json, locales: seq<string>)
    decreases j
  {
    match j
    case Obj(fs) =>
      if IsText(fs) then forall l | l in locales :: Present(fs, l)
      else forall i | 0 <= i < |fs| :: Complete(fs[i].value, locales)
    case Arr(items) => forall i | 0 <= i < |items| :: Complete(items[i], locales)
    case _ => true
  }

  predicate DistinctKeys(fs: seq<Field>) {
    forall i, k | 0 <= i < k < |fs| :: fs[i].key != fs[k].key
  }

  /** Keys are distinct, and none is "__proto__", which an assignment would not store. */
  predicate WellFormed(j: Json)
    decreases j
  {
    match j
    case Obj(fs) => DistinctKeys(fs) && forall i | 0 <= i < |fs| :: fs[i].key != "__proto__" && WellFormed(fs[i].value)
    case Arr(items) => forall i | 0 <= i < |items| :: WellFormed(items[i])
    case _ => true
  }

  /** Every text in the tree has all the locales, or not one of them. */
  predicate AllOrNone(j: Json, locales: seq<string>)
    decreases j
  {
    match j
    case Obj(fs) =>
      if IsText(fs) then (forall l | l in locales :: Present(fs, l)) || (forall l | l in locales :: !Present(fs, l))
      else forall i | 0 <= i < |fs| :: AllOrNone(fs[i].value, locales)
    case Arr(items) => forall i | 0 <= i < |items| :: AllOrNone(items[i], locales)
    case _ => true
  }

  lemma {:induction false} MissingExact(fs: seq<Field>, path: seq<PathStep>, locales: seq<string>)
    ensures Missing(fs, path, locales) == [] <==> forall l | l in locales :: Present(fs, l)
  {
    if locales != [] {
      assert locales[0] in locales && forall l | l in locales[1..] :: l in locales;
      MissingExact(fs, path, locales[1..]);
    }
  }

  lemma {:induction false} ItemIssuesExact(items: seq<Json>, from: nat, path: seq<PathStep>, locales: seq<string>)
    ensures ItemIssues(items, from, path, locales) == [] <==> forall i | 0 <= i < |items| :: Complete(items[i], locales)
    decreases items, 0
  {
    if items != [] {
      IssuesExact(items[0], path + [Index(from)], locales);
      ItemIssuesExact(items[1..], from + 1, path, locales);
      assert forall i | 1 <= i < |items| :: items[i] == items[1..][i - 1];
    }
  }

  lemma {:induction false} FieldIssuesExact(fs: seq<Field>, path: seq<PathStep>, locales: seq<string>)
    ensures FieldIssues(fs, path, locales) == [] <==> forall i | 0 <= i < |fs| :: Complete(fs[i].value, locales)
    decreases fs, 0
  {
    if fs != [] {
      IssuesExact(fs[0].value, path + [Key(fs[0].key)], locales);
      FieldIssuesExact(fs[1..], path, locales);
      assert forall i | 1 <= i < |fs| :: fs[i] == fs[1..][i - 1];
    }
  }

  /** No issue is reported iff every text is complete. */
  lemma {:induction false} IssuesExact(j: Json, path: seq<PathStep>, locales: seq<string>)
    ensures Issues(j, path, locales) == [] <==> Complete(j, locales)
    decreases j, 1
  {
    match j
    case Obj(fs) =>
      if IsText(fs) {
        MissingExact(fs, path, locales);
      } else {
        FieldIssuesExact(fs, path, locales);
      }
    case Arr(items) => ItemIssuesExact(items, 0, path, locales);
    case _ =>
  }

  lemma PresentFirst(f: Field, rest: seq<Field>, locales: seq<string>, l: string)
    requires l in locales && l in LANGUAGE_CODES
    requires f.key == l ==> Lookup(rest, l) == Null
    ensures Present(CleanField(f, locales) + rest, l) == if f.key == l then f.value.Str? && Trim(f.value.s) != "" else Present(rest, l)
  {
    var first := CleanField(f, locales);
    assert [] + rest == rest;
    assert first != [] ==> (first + rest)[0] == first[0] && (first + rest)[1..] == rest;
    if f.value.Str? {
      TrimTwice(f.value.s);
    }
  }

  lemma {:induction false} CleanTextFrom(fs: seq<Field>, locales: seq<string>)
    ensures forall f | f in CleanText(fs, locales) :: exists g | g in fs :: g.key == f.key
    ensures forall f | f in CleanText(fs, locales) :: f.key in locales && f.key in LANGUAGE_CODES
  {
    if fs != [] {
      CleanTextFrom(fs[1..], locales);
      assert fs[0] in fs && forall g | g in fs[1..] :: g in fs;
    }
  }

  lemma NotLater(fs: seq<Field>, locales: seq<string>, l: string)
    requires DistinctKeys(fs) && fs != [] && fs[0].key == l
    ensures Lookup(CleanText(fs[1..], locales), l) == Null
  {
    CleanTextFrom(fs[1..], locales);
    LookupIn(CleanText(fs[1..], locales), l);
  }

  /** Cleaning a text keeps exactly the active locales that are present. */
  lemma {:induction false} CleanTextKeeps(fs: seq<Field>, locales: seq<string>, l: string)
    requires DistinctKeys(fs) && l in locales && l in LANGUAGE_CODES
    ensures Present(CleanText(fs, locales), l) == Present(fs, l)
    ensures Present(fs, l) ==> CleanText(fs, locales) != []
  {
    if fs != [] {
      assert forall i | 0 <= i < |fs[1..]| :: fs[1..][i] == fs[i + 1];
      CleanTextKeeps(fs[1..], locales, l);
      if fs[0].key == l {
        NotLater(fs, locales, l);
      }
      PresentFirst(fs[0], CleanText(fs[1..], locales), locales, l);
    }
  }

  lemma CodesAreLetters(l: string)
    requires l in LANGUAGE_CODES
    ensures |l| == 2 && l[0] <= 'z' && l[1] <= 'z'
  {
  }

  lemma TwoLetters(l: string)
    requires |l| == 2 && l[0] < '\U{10000}' && l[1] < '\U{10000}'
    ensures Units(l) == 2
  {
    assert l[1..][1..] == "";
    assert Units(l[1..]) == 1 + Units(l[1..][1..]);
  }

  lemma CodesAreShort(l: string)
    requires l in LANGUAGE_CODES
    ensures Units(l) == 2
  {
    CodesAreLetters(l);
    TwoLetters(l);
  }

  /** A cleaned text is empty, or again a text, whose first key is an active locale that is present. */
  lemma CleanedText(fs: seq<Field>, locales: seq<string>)
    ensures var c := CleanText(fs, locales);
            c != [] ==> IsText(c) && c[0].key in locales && Present(c, c[0].key)
  {
    var c := CleanText(fs, locales);
    if c != [] {
      CleanTextFields(fs, locales);
      assert c[0] in c;
      CodesAreShort(c[0].key);
    }
  }

  lemma CleanTextExact(fs: seq<Field>, locales: seq<string>)
    requires IsLocales(locales) && DistinctKeys(fs) && IsText(fs)
    ensures Complete(Obj(CleanText(fs, locales)), locales) <==> AllOrNone(Obj(fs), locales)
  {
    var c := CleanText(fs, locales);
    CleanedText(fs, locales);
    forall l | l in locales
      ensures Present(c, l) == Present(fs, l) && (Present(fs, l) ==> c != [])
    {
      CleanTextKeeps(fs, locales, l);
    }
  }

  lemma {:induction false} CleanItemsKeeps(items: seq<Json>, locales: seq<string>)
    ensures forall i | 0 <= i < |items| :: CleanItems(items, locales)[i] == Clean(items[i], locales)
  {
    if items != [] {
      CleanItemsKeeps(items[1..], locales);
    }
  }

  /**
   A cleaned tree passes the check with the same locales iff every text had all of them or none. So
   cleaning keeps a valid tree valid, and it hides the issue of a text that had none.
   */
  lemma {:induction false} CleanExact(j: Json, locales: seq<string>)
    requires WellFormed(j) && IsLocales(locales)
    ensures Complete(Clean(j, locales), locales) <==> AllOrNone(j, locales)
    decreases j
  {
    match j
    case Obj(fs) =>
      if IsText(fs) {
        CleanTextExact(fs, locales);
      } else {
        NotTextStays(fs, locales);
        CleanFieldsKeeps(fs, locales);
        forall i | 0 <= i < |fs|
          ensures Complete(CleanFields(fs, locales)[i].value, locales) <==> AllOrNone(fs[i].value, locales)
        {
          CleanExact(fs[i].value, locales);
        }
      }
    case Arr(items) =>
      CleanItemsKeeps(items, locales);
      forall i | 0 <= i < |items|
        ensures Complete(CleanItems(items, locales)[i], locales) <==> AllOrNone(items[i], locales)
      {
        CleanExact(items[i], locales);
      }
    case _ =>
  }

  lemma {:induction false} CompleteIsAll(j: Json, locales: seq<string>)
    requires Complete(j, locales)
    ensures AllOrNone(j, locales)
    decreases j
  {
    match j
    case Obj(fs) =>
      if !IsText(fs) {
        forall i | 0 <= i < |fs| ensures AllOrNone(fs[i].value, locales) { CompleteIsAll(fs[i].value, locales); }
      }
    case Arr(items) =>
      forall i | 0 <= i < |items| ensures AllOrNone(items[i], locales) { CompleteIsAll(items[i], locales); }
    case _ =>
  }

  /** No issues before cleaning, none after it. */
  lemma CleanKeepsValid(j: Json, path: seq<PathStep>, locales: seq<string>)
    requires WellFormed(j) && IsLocales(locales)
    requires Issues(j, path, locales) == []
    ensures Issues(Clean(j, locales), path, locales) == []
  {
    IssuesExact(j, path, locales);
    CompleteIsAll(j, locales);
    CleanExact(j, locales);
    IssuesExact(Clean(j, locales), path, locales);
  }

  predicate HasKey(fs: seq<Field>, key: string) {
    exists f | f in fs :: f.key == key
  }

  /** The text has exactly these locales, each with a trimmed text that is not empty. */
  ghost predicate ExactLocales(fs: seq<Field>, locales: seq<string>) {
    && (forall key :: HasKey(fs, key) <==> key in locales)
    && forall f | f in fs :: f.value.Str? && f.value.s != "" && f.value.s == Trim(f.value.s)
  }

  /** All texts in the tree are like that. */
  ghost predicate OnlyLocales(j: Json, locales: seq<string>)
    decreases j
  {
    match j
    case Obj(fs) =>
      if IsText(fs) then ExactLocales(fs, locales) else forall i | 0 <= i < |fs| :: OnlyLocales(fs[i].value, locales)
    case Arr(items) => forall i | 0 <= i < |items| :: OnlyLocales(items[i], locales)
    case _ => true
  }

  lemma CleanedLocales(fs: seq<Field>, locales: seq<string>)
    requires DistinctKeys(fs) && IsText(fs) && IsLocales(locales)
    requires forall l | l in locales :: Present(fs, l)
    ensures ExactLocales(CleanText(fs, locales), locales)
  {
    CleanTextFields(fs, locales);
    forall key
      ensures HasKey(CleanText(fs, locales), key) <==> key in locales
    {
      if key in locales {
        CleanTextKeeps(fs, locales, key);
        LookupIn(CleanText(fs, locales), key);
      }
    }
  }

  lemma {:induction false} CompleteIsCleaned(j: Json, locales: seq<string>)
    requires WellFormed(j) && IsLocales(locales) && Complete(j, locales)
    ensures OnlyLocales(Clean(j, locales), locales)
    decreases j
  {
    match j
    case Obj(fs) =>
      if IsText(fs) {
        CleanedLocales(fs, locales);
        CleanedText(fs, locales);
      } else {
        NotTextStays(fs, locales);
        CleanFieldsKeeps(fs, locales);
        forall i | 0 <= i < |fs|
          ensures OnlyLocales(CleanFields(fs, locales)[i].value, locales)
        {
          CompleteIsCleaned(fs[i].value, locales);
        }
      }
    case Arr(items) =>
      CleanItemsKeeps(items, locales);
      forall i | 0 <= i < |items|
        ensures OnlyLocales(CleanItems(items, locales)[i], locales)
      {
        CompleteIsCleaned(items[i], locales);
      }
    case _ =>
  }

  /** A tree without issues is left with exactly the active locales in every text, trimmed and not empty. */
  lemma CleanedTree(j: Json, path: seq<PathStep>, locales: seq<string>)
    requires WellFormed(j) && IsLocales(locales)
    requires Issues(j, path, locales) == []
    ensures OnlyLocales(Clean(j, locales), locales)
  {
    IssuesExact(j, path, locales);
    CompleteIsCleaned(j, locales);
  }

  /** A text that lacks every locale is emptied, and the empty object is no longer checked. */
  lemma CleanHidesExample(path: seq<PathStep>)
    ensures var j := Obj([Field("de", Str("Hallo"))]);
            WellFormed(j) && Issues(j, path, ["en"]) == [Issue(path, "en")] && Issues(Clean(j, ["en"]), path, ["en"]) == []
  {
    var fs := [Field("de", Str("Hallo"))];
    TwoLetters(fs[0].key);
    assert Units(fs[0].key) == 2 && IsText(fs);
    assert Lookup(fs, "en") == Lookup(fs[1..], "en") == Null;
    assert Missing(fs, path, ["en"]) == [Issue(path, "en")] + Missing(fs, path, ["en"][1..]);
    assert CleanText(fs, ["en"]) == CleanText(fs[1..], ["en"]) == [];
  }

  // ---- The words used above, in plain terms ----

  /** White space and line ends in JavaScript. */
  const WHITE_SPACE := [
    '\U{0009}', '\U{000A}', '\U{000B}', '\U{000C}', '\U{000D}', '\U{0020}', '\U{00A0}', '\U{1680}',
    '\U{2000}', '\U{2001}', '\U{2002}', '\U{2003}', '\U{2004}', '\U{2005}', '\U{2006}', '\U{2007}', '\U{2008}', '\U{2009}',
    '\U{200A}', '\U{2028}', '\U{2029}', '\U{202F}', '\U{205F}', '\U{3000}', '\U{FEFF}']

  predicate White(c: char) {
    c in WHITE_SPACE
  }

  lemma SpaceExact(c: char)
    ensures IsSpace(c) <==> White(c)
  {
    if '\U{0009}' <= c <= '\U{000D}' {
      assert c == WHITE_SPACE[c as int - 9];
    } else if '\U{2000}' <= c <= '\U{200A}' {
      assert c == WHITE_SPACE[c as int - 0x2000 + 8];
    } else if IsSpace(c) {
      assert c in [WHITE_SPACE[5], WHITE_SPACE[6], WHITE_SPACE[7], WHITE_SPACE[19], WHITE_SPACE[20], WHITE_SPACE[21], WHITE_SPACE[22],
                   WHITE_SPACE[23], WHITE_SPACE[24]];
    }
  }

  predicate Blank(s: string) {
    forall i | 0 <= i < |s| :: White(s[i])
  }

  lemma {:induction false} TrimStartExact(s: string) returns (a: nat)
    ensures a <= |s| && TrimStart(s) == s[a..] && Blank(s[..a]) && (a < |s| ==> !White(s[a]))
  {
    hide White;
    if s != "" {
      SpaceExact(s[0]);
    }
    if s != "" && IsSpace(s[0]) {
      var b := TrimStartExact(s[1..]);
      a := b + 1;
      assert s[1..][b..] == s[a..];
      assert forall i | 1 <= i < a :: s[..a][i] == s[1..][..b][i - 1];
    } else {
      a := 0;
    }
  }

  /** One more white character behind. */
  lemma BlankLonger(s: string, b: nat)
    requires s != "" && b < |s| && White(s[|s| - 1]) && Blank(s[..|s| - 1][b..])
    ensures Blank(s[b..]) && s[..|s| - 1][..b] == s[..b]
  {
    hide White;
    var front := s[..|s| - 1];
    forall i | 0 <= i < |s[b..]|
      ensures White(s[b..][i])
    {
      if i < |front[b..]| {
        assert s[b..][i] == front[b..][i];
      }
    }
  }

  lemma {:induction false} TrimEndExact(s: string) returns (b: nat)
    ensures b <= |s| && TrimEnd(s) == s[..b] && Blank(s[b..]) && (b > 0 ==> !White(s[b - 1]))
  {
    b := |s|;
    if s != "" {
      SpaceExact(s[|s| - 1]);
      hide IsSpace, White;
      if IsSpace(s[|s| - 1]) {
        var front := s[..|s| - 1];
        b := TrimEndExact(front);
        BlankLonger(s, b);
      }
    }
  }

  /** Trimming takes the white space off both ends, and nothing else. */
  lemma TrimExact(s: string) returns (a: nat, b: nat)
    ensures a <= b <= |s| && Trim(s) == s[a..b] && Blank(s[..a]) && Blank(s[b..])
    ensures a < b ==> !White(s[a]) && !White(s[b - 1])
    ensures Trim(s) == "" <==> Blank(s)
  {
    hide White;
    a := TrimStartExact(s);
    var c := TrimEndExact(s[a..]);
    b := a + c;
    assert s[a..][..c] == s[a..b] && s[a..][c..] == s[b..];
    assert forall i | 0 <= i < a :: s[i] == s[..a][i];
    assert forall i | b <= i < |s| :: s[i] == s[b..][i - b];
    if a < b {
      assert s[a] == s[a..][0] && s[b - 1] == s[a..][c - 1];
    }
  }

  lemma {:induction false} UnitsAtLeast(s: string)
    ensures Units(s) >= |s|
  {
    if s != "" {
      UnitsAtLeast(s[1..]);
    }
  }

  /** A key of length two: two characters of the first plane, or one of another. */
  lemma UnitsExact(key: string)
    ensures Units(key) == 2 <==>
            (|key| == 2 && key[0] < '\U{10000}' && key[1] < '\U{10000}') || (|key| == 1 && key[0] >= '\U{10000}')
  {
    UnitsAtLeast(key);
    if |key| == 1 {
      assert key[1..] == "";
    } else if |key| == 2 {
      assert key[1..][1..] == "";
      assert Units(key[1..]) == (if key[1] < '\U{10000}' then 1 else 2) + Units(key[1..][1..]);
    }
  }

  lemma CodesExact(l: string)
    ensures l in LANGUAGE_CODES <==>
            l in ["en", "ru", "zh", "fr", "fa", "uz", "de", "hi", "tr", "az", "es", "vi", "ja", "be", "uk", "pt", "pl", "id", "tk", "th"]
  {
  }

  // ---- Where the issues are ----

  /** Following the path from one value leads to the other. */
  predicate Leads(j: Json, path: seq<PathStep>, to: Json)
    decreases path
  {
    if path == [] then j == to
    else
      match path[0]
      case Key(k) => j.Obj? && exists i | 0 <= i < |j.fields| :: j.fields[i].key == k && Leads(j.fields[i].value, path[1..], to)
      case Index(i) => j.Arr? && i < |j.items| && Leads(j.items[i], path[1..], to)
      case Root(_) => false
  }

  /** The path leads to a localised text that has no value for this locale, or a blank one. */
  predicate IsMissing(j: Json, path: seq<PathStep>, locale: string, to: Json) {
    && Leads(j, path, to) && to.Obj? && IsText(to.fields)
    && !(Lookup(to.fields, locale).Str? && !Blank(Lookup(to.fields, locale).s))
  }

  lemma PresentExact(fs: seq<Field>, locale: string)
    ensures Present(fs, locale) <==> Lookup(fs, locale).Str? && !Blank(Lookup(fs, locale).s)
  {
    if Lookup(fs, locale).Str? {
      var a, b := TrimExact(Lookup(fs, locale).s);
    }
  }

  lemma {:induction false} MissingHas(fs: seq<Field>, path: seq<PathStep>, locales: seq<string>, issue: Issue)
    ensures issue in Missing(fs, path, locales) <==> issue.path == path && issue.locale in locales && !Present(fs, issue.locale)
  {
    if locales != [] {
      MissingHas(fs, path, locales[1..], issue);
      assert issue.locale in locales <==> issue.locale == locales[0] || issue.locale in locales[1..];
    }
  }

  lemma {:induction false} FieldIssuesHas(fs: seq<Field>, path: seq<PathStep>, locales: seq<string>, issue: Issue)
    ensures issue in FieldIssues(fs, path, locales) <==>
            exists i | 0 <= i < |fs| :: issue in Issues(fs[i].value, path + [Key(fs[i].key)], locales)
  {
    if fs != [] {
      FieldIssuesHas(fs[1..], path, locales, issue);
      assert forall i | 1 <= i < |fs| :: fs[i] == fs[1..][i - 1];
    }
  }

  predicate ItemHas(items: seq<Json>, from: nat, path: seq<PathStep>, locales: seq<string>, issue: Issue, i: nat)
    requires i < |items|
  {
    issue in Issues(items[i], path + [Index(from + i)], locales)
  }

  lemma ItemHasLater(items: seq<Json>, from: nat, path: seq<PathStep>, locales: seq<string>, issue: Issue, i: nat)
    requires 1 <= i < |items|
    ensures ItemHas(items[1..], from + 1, path, locales, issue, i - 1) == ItemHas(items, from, path, locales, issue, i)
  {
    assert items[1..][i - 1] == items[i] && from + 1 + (i - 1) == from + i;
  }

  lemma {:induction false} ItemIssuesHas(items: seq<Json>, from: nat, path: seq<PathStep>, locales: seq<string>, issue: Issue)
    ensures issue in ItemIssues(items, from, path, locales) <==>
            exists i | 0 <= i < |items| :: ItemHas(items, from, path, locales, issue, i)
  {
    if items != [] {
      var rest, next := items[1..], from + 1;
      ItemIssuesHas(rest, next, path, locales, issue);
      assert from + 0 == from;
      assert issue in ItemIssues(items, from, path, locales) <==>
             ItemHas(items, from, path, locales, issue, 0) || issue in ItemIssues(rest, next, path, locales);
      hide ItemHas, Issues, ItemIssues;
      forall i | 1 <= i < |items|
        ensures ItemHas(rest, next, path, locales, issue, i - 1) == ItemHas(items, from, path, locales, issue, i)
      {
        ItemHasLater(items, from, path, locales, issue, i);
      }
      if exists k | 0 <= k < |rest| :: ItemHas(rest, next, path, locales, issue, k) {
        var k :| 0 <= k < |rest| && ItemHas(rest, next, path, locales, issue, k);
        assert ItemHas(items, from, path, locales, issue, k + 1);
      }
    }
  }

  /** Every issue that is reported is there. */
  lemma {:induction false} IssueIsThere(j: Json, path: seq<PathStep>, locales: seq<string>, issue: Issue) returns (p: seq<PathStep>, to: Json)
    requires issue in Issues(j, path, locales)
    ensures issue.path == path + p && issue.locale in locales && IsMissing(j, p, issue.locale, to)
    decreases j
  {
    hide FieldIssues, ItemIssues, Missing;
    match j
    case Obj(fs) =>
      if IsText(fs) {
        p, to := [], j;
        MissingHas(fs, path, locales, issue);
        PresentExact(fs, issue.locale);
        assert path + [] == path;
      } else {
        FieldIssuesHas(fs, path, locales, issue);
        var i :| 0 <= i < |fs| && issue in Issues(fs[i].value, path + [Key(fs[i].key)], locales);
        var q;
        q, to := IssueIsThere(fs[i].value, path + [Key(fs[i].key)], locales, issue);
        p := [Key(fs[i].key)] + q;
        assert p[1..] == q && path + [Key(fs[i].key)] + q == path + p;
      }
    case Arr(items) =>
      ItemIssuesHas(items, 0, path, locales, issue);
      var i :| 0 <= i < |items| && ItemHas(items, 0, path, locales, issue, i);
      assert path + [Index(0 + i)] == path + [Index(i)];
      var q;
      q, to := IssueIsThere(items[i], path + [Index(i)], locales, issue);
      p := [Index(i)] + q;
      assert p[1..] == q && path + [Index(i)] + q == path + p;
  }

  /** Every issue that is there is reported. */
  lemma {:induction false} IssueIsReported(j: Json, path: seq<PathStep>, locales: seq<string>, p: seq<PathStep>, to: Json, locale: string)
    requires IsMissing(j, p, locale, to) && locale in locales
    ensures Issue(path + p, locale) in Issues(j, path, locales)
    decreases p
  {
    if p == [] {
      assert path + p == path;
      PresentExact(j.fields, locale);
      MissingHas(j.fields, path, locales, Issue(path, locale));
    } else {
      assert path + [p[0]] + p[1..] == path + p;
      match p[0]
      case Key(k) =>
        var i :| 0 <= i < |j.fields| && j.fields[i].key == k && Leads(j.fields[i].value, p[1..], to);
        IssueIsReported(j.fields[i].value, path + [p[0]], locales, p[1..], to, locale);
        assert !j.fields[i].value.Str?;
        FieldIssuesHas(j.fields, path, locales, Issue(path + p, locale));
      case Index(i) =>
        IssueIsReported(j.items[i], path + [p[0]], locales, p[1..], to, locale);
        ItemIssuesHas(j.items, 0, path, locales, Issue(path + p, locale));
        assert path + [Index(0 + i)] == path + [p[0]];
        assert ItemHas(j.items, 0, path, locales, Issue(path + p, locale), i);
    }
  }

  /** No issue is in the list twice. */
  predicate Once(issues: seq<Issue>) {
    forall a, b | 0 <= a < b < |issues| :: issues[a] != issues[b]
  }

  lemma OnceAppend(s: seq<Issue>, t: seq<Issue>)
    requires Once(s) && Once(t) && forall issue | issue in s :: issue !in t
    ensures Once(s + t)
  {
    forall a, b | 0 <= a < b < |s + t|
      ensures (s + t)[a] != (s + t)[b]
    {
      assert a < |s| <= b ==> s[a] in s && t[b - |s|] in t;
    }
  }

  lemma {:induction false} MissingOnce(fs: seq<Field>, path: seq<PathStep>, locales: seq<string>)
    requires Distinct(locales)
    ensures Once(Missing(fs, path, locales))
  {
    if locales != [] {
      MissingOnce(fs, path, locales[1..]);
      MissingHas(fs, path, locales[1..], Issue(path, locales[0]));
      OnceAppend(if Present(fs, locales[0]) then [] else [Issue(path, locales[0])], Missing(fs, path, locales[1..]));
    }
  }

  /** What is reported below a step has that step in its path. */
  lemma Below(j: Json, path: seq<PathStep>, step: PathStep, locales: seq<string>, issue: Issue)
    requires issue in Issues(j, path + [step], locales)
    ensures |path| < |issue.path| && issue.path[|path|] == step
  {
    var p, to := IssueIsThere(j, path + [step], locales, issue);
  }

  lemma {:induction false} FieldIssuesOnce(fs: seq<Field>, path: seq<PathStep>, locales: seq<string>)
    requires Distinct(locales) && DistinctKeys(fs) && forall i | 0 <= i < |fs| :: WellFormed(fs[i].value)
    ensures Once(FieldIssues(fs, path, locales))
    decreases fs, 0
  {
    hide Issues, Once;
    if fs != [] {
      var first, rest := Issues(fs[0].value, path + [Key(fs[0].key)], locales), FieldIssues(fs[1..], path, locales);
      IssuesOnce(fs[0].value, path + [Key(fs[0].key)], locales);
      FieldIssuesOnce(fs[1..], path, locales);
      forall issue | issue in first
        ensures issue !in rest
      {
        Below(fs[0].value, path, Key(fs[0].key), locales, issue);
        FieldIssuesHas(fs[1..], path, locales, issue);
        if issue in rest {
          var i :| 0 <= i < |fs[1..]| && issue in Issues(fs[1..][i].value, path + [Key(fs[1..][i].key)], locales);
          Below(fs[1..][i].value, path, Key(fs[1..][i].key), locales, issue);
        }
      }
      OnceAppend(first, rest);
    } else {
      EmptyOnce();
    }
  }

  lemma EmptyOnce()
    ensures Once([])
  {
  }

  lemma {:induction false} ItemIssuesOnce(items: seq<Json>, from: nat, path: seq<PathStep>, locales: seq<string>)
    requires Distinct(locales) && forall i | 0 <= i < |items| :: WellFormed(items[i])
    ensures Once(ItemIssues(items, from, path, locales))
    decreases items, 0
  {
    hide Issues, Once;
    if items != [] {
      var first, rest := Issues(items[0], path + [Index(from)], locales), ItemIssues(items[1..], from + 1, path, locales);
      IssuesOnce(items[0], path + [Index(from)], locales);
      ItemIssuesOnce(items[1..], from + 1, path, locales);
      forall issue | issue in first
        ensures issue !in rest
      {
        Below(items[0], path, Index(from), locales, issue);
        ItemIssuesHas(items[1..], from + 1, path, locales, issue);
        if issue in rest {
          var i :| 0 <= i < |items[1..]| && ItemHas(items[1..], from + 1, path, locales, issue, i);
          Below(items[1..][i], path, Index(from + 1 + i), locales, issue);
        }
      }
      OnceAppend(first, rest);
    } else {
      EmptyOnce();
    }
  }

  /** No issue is reported twice. */
  lemma {:induction false} IssuesOnce(j: Json, path: seq<PathStep>, locales: seq<string>)
    requires WellFormed(j) && Distinct(locales)
    ensures Once(Issues(j, path, locales))
    decreases j, 1
  {
    hide FieldIssues, ItemIssues, Missing;
    match j
    case Obj(fs) =>
      if IsText(fs) {
        MissingOnce(fs, path, locales);
      } else {
        FieldIssuesOnce(fs, path, locales);
      }
    case Arr(items) => ItemIssuesOnce(items, 0, path, locales);
    case _ =>
  }

  // ---- What cleaning leaves ----

  /** Exactly the active locales whose value is not blank, each with that value, trimmed. */
  ghost predicate TextCleaned(before: seq<Field>, after: seq<Field>, locales: seq<string>) {
    && DistinctKeys(after)
    && (forall f | f in after :: f.key in locales && f.key in LANGUAGE_CODES)
    && (forall key | key in locales && key in LANGUAGE_CODES ::
          Lookup(after, key) == if Lookup(before, key).Str? && !Blank(Lookup(before, key).s) then Str(Trim(Lookup(before, key).s)) else Null)
  }

  /** Texts are cleaned wherever they are; everything else keeps its keys, its order and its values. */
  ghost predicate CleanedTo(j: Json, c: Json, locales: seq<string>)
    decreases j
  {
    match j
    case Obj(fs) =>
      c.Obj? &&
      if fs != [] && (forall i | 0 <= i < |fs| :: fs[i].value.Str?) && (exists i | 0 <= i < |fs| :: Units(fs[i].key) == 2) then
        TextCleaned(fs, c.fields, locales)
      else
        |c.fields| == |fs| && forall i | 0 <= i < |fs| :: c.fields[i].key == fs[i].key && CleanedTo(fs[i].value, c.fields[i].value, locales)
    case Arr(items) =>
      c.Arr? && |c.items| == |items| && forall i | 0 <= i < |items| :: CleanedTo(items[i], c.items[i], locales)
    case _ => c == j
  }

  lemma LookupFirst(f: Field, rest: seq<Field>, key: string)
    ensures Lookup([f] + rest, key) == if f.key == key then f.value else Lookup(rest, key)
  {
    assert ([f] + rest)[0] == f && ([f] + rest)[1..] == rest;
  }

  lemma {:induction false} TextValues(fs: seq<Field>, locales: seq<string>, key: string)
    requires DistinctKeys(fs) && key in locales && key in LANGUAGE_CODES
    ensures Lookup(CleanText(fs, locales), key) == if Present(fs, key) then Str(Trim(Lookup(fs, key).s)) else Null
  {
    if fs != [] {
      assert forall i | 0 <= i < |fs[1..]| :: fs[1..][i] == fs[i + 1];
      TextValues(fs[1..], locales, key);
      var first, rest := CleanField(fs[0], locales), CleanText(fs[1..], locales);
      assert [] + rest == rest;
      if fs[0].key == key {
        NotLater(fs, locales, key);
      }
      if first != [] {
        LookupFirst(first[0], rest, key);
        assert first == [first[0]];
      }
    }
  }

  lemma DistinctFirst(first: seq<Field>, rest: seq<Field>, key: string)
    requires |first| <= 1 && (forall f | f in first :: f.key == key)
    requires DistinctKeys(rest) && forall k | 0 <= k < |rest| :: rest[k].key != key
    ensures DistinctKeys(first + rest)
  {
    if first == [] {
      assert first + rest == rest;
    } else {
      assert first[0] in first;
    }
  }

  lemma {:induction false} TextDistinct(fs: seq<Field>, locales: seq<string>)
    requires DistinctKeys(fs)
    ensures DistinctKeys(CleanText(fs, locales))
  {
    if fs != [] {
      assert forall i | 0 <= i < |fs[1..]| :: fs[1..][i] == fs[i + 1];
      TextDistinct(fs[1..], locales);
      CleanTextFrom(fs[1..], locales);
      var first, rest := CleanField(fs[0], locales), CleanText(fs[1..], locales);
      forall k | 0 <= k < |rest|
        ensures rest[k].key != fs[0].key
      {
        assert rest[k] in rest;
        var g :| g in fs[1..] && g.key == rest[k].key;
      }
      DistinctFirst(first, rest, fs[0].key);
    }
  }

  lemma TextIsCleaned(fs: seq<Field>, locales: seq<string>)
    requires DistinctKeys(fs)
    ensures TextCleaned(fs, CleanText(fs, locales), locales)
  {
    TextDistinct(fs, locales);
    CleanTextFrom(fs, locales);
    forall key | key in locales && key in LANGUAGE_CODES
      ensures Lookup(CleanText(fs, locales), key)
           == if Lookup(fs, key).Str? && !Blank(Lookup(fs, key).s) then Str(Trim(Lookup(fs, key).s)) else Null
    {
      TextValues(fs, locales, key);
      PresentExact(fs, key);
    }
  }

  /** What cleaning does to every tree, told from the tree alone. */
  lemma {:induction false} CleanedExact(j: Json, locales: seq<string>)
    requires WellFormed(j)
    ensures CleanedTo(j, Clean(j, locales), locales)
    decreases j
  {
    match j
    case Obj(fs) =>
      if IsText(fs) {
        TextIsCleaned(fs, locales);
      } else {
        CleanFieldsKeeps(fs, locales);
        forall i | 0 <= i < |fs|
          ensures CleanedTo(fs[i].value, CleanFields(fs, locales)[i].value, locales)
        {
          CleanedExact(fs[i].value, locales);
        }
      }
    case Arr(items) =>
      CleanItemsKeeps(items, locales);
      forall i | 0 <= i < |items|
        ensures CleanedTo(items[i], CleanItems(items, locales)[i], locales)
      {
        CleanedExact(items[i], locales);
      }
    case _ =>
  }

  // ---- The methods ----

  class RefinementCtx {
    var issues: seq<Issue>

    constructor ()
      ensures issues == []
    {
      issues := [];
    }

    method AddIssue(issue: Issue)
      modifies this
      ensures issues == old(issues) + [issue]
    {
      issues := issues + [issue];
    }
  }

  lemma {:induction false} MissingSnoc(fs: seq<Field>, path: seq<PathStep>, locales: seq<string>, i: nat)
    requires i < |locales|
    ensures Missing(fs, path, locales[..i + 1])
         == Missing(fs, path, locales[..i]) + if Present(fs, locales[i]) then [] else [Issue(path, locales[i])]
  {
    if i > 0 {
      MissingSnoc(fs, path, locales[1..], i - 1);
      assert locales[..i + 1][1..] == locales[1..][..i] && locales[..i][1..] == locales[1..][..i - 1];
    } else {
      assert locales[..1][1..] == [];
    }
  }

  method CheckLocalizedText(obj: Json, path: seq<PathStep>, requiredLocales: seq<string>, ctx: RefinementCtx)
    modifies ctx
    ensures ctx.issues == old(ctx.issues) + Issues(obj, path, requiredLocales)
    decreases obj
  {
    hide IsText, Present;
    ghost var before := ctx.issues;
    assert before + [] == before;
    match obj {
      case Obj(fs) =>
        if IsText(fs) {
          for i := 0 to |requiredLocales|
            invariant ctx.issues == before + Missing(fs, path, requiredLocales[..i])
          {
            var locale := requiredLocales[i];
            MissingSnoc(fs, path, requiredLocales, i);
            if !Present(fs, locale) {
              ctx.AddIssue(Issue(path, locale));
            }
          }
          assert requiredLocales[..|requiredLocales|] == requiredLocales;
          return;
        }
        for i := 0 to |fs|
          invariant ctx.issues + FieldIssues(fs[i..], path, requiredLocales) == before + FieldIssues(fs, path, requiredLocales)
        {
          assert fs[i..][1..] == fs[i + 1..];
          ghost var now := ctx.issues;
          if fs[i].value.Obj? || fs[i].value.Arr? {
            CheckLocalizedText(fs[i].value, path + [Key(fs[i].key)], requiredLocales, ctx);
          } else {
            assert now + [] == now;
          }
          assert now + (Issues(fs[i].value, path + [Key(fs[i].key)], requiredLocales) + FieldIssues(fs[i + 1..], path, requiredLocales))
              == now + Issues(fs[i].value, path + [Key(fs[i].key)], requiredLocales) + FieldIssues(fs[i + 1..], path, requiredLocales);
        }
        assert ctx.issues + [] == ctx.issues;
      case Arr(items) =>
        for i := 0 to |items|
          invariant ctx.issues + ItemIssues(items[i..], i, path, requiredLocales) == before + ItemIssues(items, 0, path, requiredLocales)
        {
          assert items[i..][1..] == items[i + 1..];
          ghost var now := ctx.issues;
          CheckLocalizedText(items[i], path + [Index(i)], requiredLocales, ctx);
          assert now + (Issues(items[i], path + [Index(i)], requiredLocales) + ItemIssues(items[i + 1..], i + 1, path, requiredLocales))
              == now + Issues(items[i], path + [Index(i)], requiredLocales) + ItemIssues(items[i + 1..], i + 1, path, requiredLocales);
        }
        assert ctx.issues + [] == ctx.issues;
      case _ =>
    }
  }

  lemma CleanFieldsNext(fs: seq<Field>, locales: seq<string>, i: nat, result: seq<Field>)
    requires i < |fs|
    ensures result + CleanFields(fs[i..], locales)
         == (result + [Field(fs[i].key, Clean(fs[i].value, locales))]) + CleanFields(fs[i + 1..], locales)
  {
    assert fs[i..][1..] == fs[i + 1..];
  }

  lemma CleanItemsNext(items: seq<Json>, locales: seq<string>, i: nat, result: seq<Json>)
    requires i < |items|
    ensures result + CleanItems(items[i..], locales) == (result + [Clean(items[i], locales)]) + CleanItems(items[i + 1..], locales)
  {
    assert items[i..][1..] == items[i + 1..];
  }

  lemma CleanTextNext(fs: seq<Field>, locales: seq<string>, i: nat, cleaned: seq<Field>)
    requires i < |fs|
    ensures cleaned + CleanText(fs[i..], locales) == (cleaned + CleanField(fs[i], locales)) + CleanText(fs[i + 1..], locales)
    ensures cleaned + [] == cleaned
  {
    assert fs[i..][1..] == fs[i + 1..];
  }

  /** The branch for a text: keep the active locales, trimmed, unless blank. */
  method CleanOneText(fs: seq<Field>, activeLocales: seq<string>) returns (r: Json)
    requires DistinctKeys(fs)
    ensures r == Obj(CleanText(fs, activeLocales))
  {
    var cleaned: seq<Field> := [];
    for i := 0 to |fs|
      invariant cleaned + CleanText(fs[i..], activeLocales) == CleanText(fs, activeLocales)
      invariant forall f | f in cleaned :: exists k | 0 <= k < i :: f.key == fs[k].key
    {
      var key, value := fs[i].key, fs[i].value;
      CleanTextNext(fs, activeLocales, i, cleaned);
      if value.Str? && key in LANGUAGE_CODES && key in activeLocales {
        var trimmed := Trim(value.s);
        if trimmed != "" {
          PutNew(cleaned, key, Str(trimmed));
          cleaned := Put(cleaned, key, Str(trimmed));
        }
      }
    }
    assert cleaned + [] == cleaned;
    return Obj(cleaned);
  }

  method CleanLocalizedTexts(obj: Json, activeLocales: seq<string>) returns (r: Json)
    requires WellFormed(obj)
    ensures r == Clean(obj, activeLocales)
    decreases obj, 1
  {
    match obj {
      case Obj(fs) =>
        if IsText(fs) {
          r := CleanOneText(fs, activeLocales);
        } else {
          var result := CleanProperties(fs, activeLocales);
          r := Obj(result);
        }
      case Arr(items) =>
        var result: seq<Json> := [];
        for i := 0 to |items|
          invariant result + CleanItems(items[i..], activeLocales) == CleanItems(items, activeLocales)
        {
          CleanItemsNext(items, activeLocales, i, result);
          var item := CleanLocalizedTexts(items[i], activeLocales);
          result := result + [item];
        }
        assert result + [] == result;
        return Arr(result);
      case _ =>
        return obj;
    }
  }

  /** The branch for an object that is not a text. */
  method CleanProperties(fs: seq<Field>, activeLocales: seq<string>) returns (result: seq<Field>)
    requires DistinctKeys(fs) && forall i | 0 <= i < |fs| :: fs[i].key != "__proto__" && WellFormed(fs[i].value)
    ensures result == CleanFields(fs, activeLocales)
    decreases fs, 0
  {
    result := [];
    for i := 0 to |fs|
      invariant result + CleanFields(fs[i..], activeLocales) == CleanFields(fs, activeLocales)
      invariant |result| == i && forall k | 0 <= k < i :: result[k].key == fs[k].key
    {
      CleanFieldsNext(fs, activeLocales, i, result);
      var value := CleanLocalizedTexts(fs[i].value, activeLocales);
      PutNew(result, fs[i].key, value);
      result := Put(result, fs[i].key, value);
    }
    assert result + [] == result;
  }
}
