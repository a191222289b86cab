/**
 * The small BibTeX scanner of the GitHub importer. An entry is a match of
 * `@(\w+)\{([^,]+),([^@]*)` — a word, a brace, everything up to the first
 * comma as the key, then everything up to the next `@` as the field text —
 * and the fields are the matches of `(\w+)\s*=\s*\{([^}]*)\}` in that text.
 * Both patterns match deterministically (no backtracking can rescue a failed
 * attempt), so each is written as a function of the start position, and the
 * global search tries the positions left to right, resuming after a match.
 */
module Bibtex {
  import opened Wrappers
  import opened Text

  datatype Entry = Entry(entryType: string, citationKey: string, entryTags: map<string, string>)

  /** A tag's text, or the empty string when the entry lacks it. */
  function Tag(e: Entry, name: string): string {
    if name in e.entryTags then e.entryTags[name] else ""
  }

  /** `${title || ''} ${abstract || ''}`: the text the importers detect concepts in. */
  function TextToCheck(e: Entry): string {
    Tag(e, "title") + " " + Tag(e, "abstract")
  }

  /** A match of the entry pattern: its three groups and the position after it. */
  datatype EntryMatch = EntryMatch(entryType: string, rawKey: string, fieldsText: string, end: nat)

  /** A match of the field pattern: the lower-cased name, the value and the position after it. */
  datatype Field = Field(name: string, value: string, end: nat)

  /** The end of the run of word characters starting at `i`. */
  function WordEnd(s: string, i: nat): (j: nat)
    requires i <= |s|
    ensures i <= j <= |s|
    decreases |s| - i
  {
    if i < |s| && IsWordChar(s[i]) then WordEnd(s, i + 1) else i
  }

  lemma {:induction false} WordEndExact(s: string, i: nat)
    requires i <= |s|
    ensures var j := WordEnd(s, i);
      (forall k :: i <= k < j ==> IsWordChar(s[k])) && (j < |s| ==> !IsWordChar(s[j]))
    decreases |s| - i
  {
    if i < |s| && IsWordChar(s[i]) {
      WordEndExact(s, i + 1);
    }
  }

  /** The end of the run of white space starting at `i`. */
  function SpaceEnd(s: string, i: nat): (j: nat)
    requires i <= |s|
    ensures i <= j <= |s|
    decreases |s| - i
  {
    if i < |s| && IsSpace(s[i]) then SpaceEnd(s, i + 1) else i
  }

  /** The first position from `i` on holding `c`, or the end of the text. */
  function Until(s: string, i: nat, c: char): (j: nat)
    requires i <= |s|
    ensures i <= j <= |s| && (j < |s| ==> s[j] == c)
    decreases |s| - i
  {
    if i < |s| && s[i] != c then Until(s, i + 1, c) else i
  }

  lemma {:induction false} UntilExact(s: string, i: nat, c: char)
    requires i <= |s|
    ensures forall k :: i <= k < Until(s, i, c) ==> s[k] != c
    decreases |s| - i
  {
    if i < |s| && s[i] != c {
      UntilExact(s, i + 1, c);
    }
  }

  /** The entry pattern tried at position `p`. */
  function EntryAt(s: string, p: nat): (r: Option<EntryMatch>)
    requires p < |s|
    ensures r.Some? ==> p < r.value.end <= |s|
  {
    if s[p] != '@' then None
    else
      var w := WordEnd(s, p + 1);
      if w == p + 1 || w == |s| || s[w] != '{' then None
      else
        var k := Until(s, w + 1, ',');
        if k == w + 1 || k == |s| then None
        else
          var e := Until(s, k + 1, '@');
          Some(EntryMatch(s[p + 1..w], s[w + 1..k], s[k + 1..e], e))
  }

  /** The field pattern tried at position `q`. */
  function FieldAt(t: string, q: nat): (r: Option<Field>)
    requires q < |t|
    ensures r.Some? ==> q < r.value.end <= |t|
  {
    var w := WordEnd(t, q);
    if w == q then None
    else
      var a := SpaceEnd(t, w);
      if a == |t| || t[a] != '=' then None
      else
        var b := SpaceEnd(t, a + 1);
        if b == |t| || t[b] != '{' then None
        else
          var c := Until(t, b + 1, '}');
          if c == |t| then None
          else Some(Field(Lower(t[q..w]), t[b + 1..c], c + 1))
  }

  /** The successive field matches from position `q`. */
  function Fields(t: string, q: nat): seq<Field>
    decreases |t| - q
  {
    if q >= |t| then []
    else match FieldAt(t, q)
      case Some(f) => [f] + Fields(t, f.end)
      case None => Fields(t, q + 1)
  }

  /** The tag object: each field assigned in turn, so a later duplicate overwrites. */
  function ToMap(fs: seq<Field>): map<string, string> {
    if fs == [] then map[] else ToMap(fs[..|fs| - 1])[fs[|fs| - 1].name := fs[|fs| - 1].value]
  }

  lemma ToMapSnoc(fs: seq<Field>, f: Field)
    ensures ToMap(fs + [f]) == ToMap(fs)[f.name := f.value]
  {
    assert (fs + [f])[..|fs|] == fs;
  }

  /** A located entry match. */
  datatype Found = Found(at: nat, m: EntryMatch)

  /** The successive entry matches from position `i`. */
  function Matches(s: string, i: nat): seq<Found>
    decreases |s| - i
  {
    if i >= |s| then []
    else match EntryAt(s, i)
      case Some(m) => [Found(i, m)] + Matches(s, m.end)
      case None => Matches(s, i + 1)
  }

  function EntryOf(m: EntryMatch): Entry {
    Entry(m.entryType, Trim(m.rawKey), ToMap(Fields(m.fieldsText, 0)))
  }

  /** What `parseBibtex` returns: one entry per match, in text order. */
  function Parsed(s: string): seq<Entry> {
    var found := Matches(s, 0);
    seq(|found|, k requires 0 <= k < |found| => EntryOf(found[k].m))
  }

  /** The inner `while (fieldRegex.exec(...))` loop. */
  method ParseFields(t: string) returns (tags: map<string, string>)
    ensures tags == ToMap(Fields(t, 0))
  {
    tags := map[];
    var q := 0;
    ghost var done: seq<Field> := [];
    ghost var all := Fields(t, 0);
    while q < |t|
      invariant q <= |t| && done + Fields(t, q) == all && tags == ToMap(done)
      decreases |t| - q
    {
      var f := FieldAt(t, q);
      FieldsLoopStep(t, q, done, all);
      if f.Some? {
        ToMapSnoc(done, f.value);
        tags := tags[f.value.name := f.value.value];
        done := done + [f.value];
        q := f.value.end;
      } else {
        q := q + 1;
      }
    }
    assert done == Fields(t, 0);
  }

  /** The field loop's invariant survives one round. */
  lemma FieldsLoopStep(t: string, q: nat, done: seq<Field>, all: seq<Field>)
    requires q < |t| && done + Fields(t, q) == all
    ensures FieldAt(t, q).Some? ==> (done + [FieldAt(t, q).value]) + Fields(t, FieldAt(t, q).value.end) == all
    ensures FieldAt(t, q).None? ==> done + Fields(t, q + 1) == all
  {
    var r := FieldAt(t, q);
    if r.Some? {
      FieldsSome(t, q, r.value);
      assert (done + [r.value]) + Fields(t, r.value.end) == done + ([r.value] + Fields(t, r.value.end));
    } else {
      FieldsNone(t, q);
    }
  }

  lemma FieldsSome(t: string, q: nat, f: Field)
    requires q < |t| && FieldAt(t, q) == Some(f)
    ensures Fields(t, q) == [f] + Fields(t, f.end)
  {
  }

  lemma FieldsNone(t: string, q: nat)
    requires q < |t| && FieldAt(t, q).None?
    ensures Fields(t, q) == Fields(t, q + 1)
  {
  }

  /** The entry loop's invariant survives one round. */
  lemma MatchesLoopStep(s: string, i: nat, done: seq<Found>, all: seq<Found>)
    requires i < |s| && done + Matches(s, i) == all
    ensures EntryAt(s, i).Some? ==>
      (done + [Found(i, EntryAt(s, i).value)]) + Matches(s, EntryAt(s, i).value.end) == all
    ensures EntryAt(s, i).None? ==> done + Matches(s, i + 1) == all
  {
    var r := EntryAt(s, i);
    if r.Some? {
      MatchesSome(s, i, r.value);
      assert (done + [Found(i, r.value)]) + Matches(s, r.value.end) == done + ([Found(i, r.value)] + Matches(s, r.value.end));
    } else {
      MatchesNone(s, i);
    }
  }

  lemma MatchesSome(s: string, i: nat, m: EntryMatch)
    requires i < |s| && EntryAt(s, i) == Some(m)
    ensures Matches(s, i) == [Found(i, m)] + Matches(s, m.end)
  {
  }

  lemma MatchesNone(s: string, i: nat)
    requires i < |s| && EntryAt(s, i).None?
    ensures Matches(s, i) == Matches(s, i + 1)
  {
  }

  /** `parseBibtex`: the outer `while (regex.exec(bibtex))` loop. */
  method ParseBibtex(s: string) returns (entries: seq<Entry>)
    ensures entries == Parsed(s)
  {
    entries := [];
    var i := 0;
    ghost var done: seq<Found> := [];
    ghost var all := Matches(s, 0);
    while i < |s|
      invariant i <= |s| && done + Matches(s, i) == all
      invariant |entries| == |done| && forall k :: 0 <= k < |done| ==> entries[k] == EntryOf(done[k].m)
      decreases |s| - i
    {
      var m := EntryAt(s, i);
      MatchesLoopStep(s, i, done, all);
      if m.Some? {
        var tags := ParseFields(m.value.fieldsText);
        entries := entries + [Entry(m.value.entryType, Trim(m.value.rawKey), tags)];
        done := done + [Found(i, m.value)];
        i := m.value.end;
      } else {
        i := i + 1;
      }
    }
    assert done == Matches(s, 0);
  }

  /**
   * The matches are found in text order without overlapping: each starts at
   * an `@` where the entry pattern matches, and the next starts after it.
   */
  lemma MatchesInOrder(s: string, i: nat)
    ensures var f := Matches(s, i);
      (forall k :: 0 <= k < |f| ==> i <= f[k].at < |s| && s[f[k].at] == '@' && EntryAt(s, f[k].at) == Some(f[k].m)) &&
      (forall k :: 0 <= k < |f| - 1 ==> f[k].m.end <= f[k + 1].at)
  {
    MatchesAfter(s, i);
    MatchesAt(s, i);
    MatchesOrdered(s, i);
    var f := Matches(s, i);
    forall k | 0 <= k < |f|
      ensures s[f[k].at] == '@' && EntryAt(s, f[k].at) == Some(f[k].m)
    {
      assert FoundIn(s, f[k]);
    }
  }

  lemma {:induction false} MatchesAfter(s: string, i: nat)
    ensures forall k :: 0 <= k < |Matches(s, i)| ==> i <= Matches(s, i)[k].at < |s|
    decreases |s| - i
  {
    if i < |s| {
      var r := EntryAt(s, i);
      if r.Some? {
        MatchesSome(s, i, r.value);
        MatchesAfter(s, r.value.end);
      } else {
        MatchesNone(s, i);
        MatchesAfter(s, i + 1);
      }
    }
  }

  /** `x` is what the entry pattern matches at `x.at`. */
  predicate FoundIn(s: string, x: Found) {
    x.at < |s| && EntryAt(s, x.at) == Some(x.m)
  }

  lemma {:induction false} MatchesAt(s: string, i: nat)
    ensures forall k :: 0 <= k < |Matches(s, i)| ==> FoundIn(s, Matches(s, i)[k])
    decreases |s| - i
  {
    if i < |s| {
      var r := EntryAt(s, i);
      if r.Some? {
        MatchesSome(s, i, r.value);
        MatchesAt(s, r.value.end);
        var f, rest := Matches(s, i), Matches(s, r.value.end);
        assert FoundIn(s, f[0]);
        assert forall k :: 1 <= k < |f| ==> f[k] == rest[k - 1];
      } else {
        MatchesNone(s, i);
        MatchesAt(s, i + 1);
      }
    }
  }

  lemma {:induction false} MatchesOrdered(s: string, i: nat)
    ensures var f := Matches(s, i);
      forall k :: 0 <= k < |f| - 1 ==> f[k].m.end <= f[k + 1].at
    decreases |s| - i
  {
    if i < |s| {
      var r := EntryAt(s, i);
      if r.Some? {
        MatchesSome(s, i, r.value);
        MatchesOrdered(s, r.value.end);
        MatchesAfter(s, r.value.end);
        var f, rest := Matches(s, i), Matches(s, r.value.end);
        assert forall k :: 1 <= k < |f| ==> f[k] == rest[k - 1];
      } else {
        MatchesNone(s, i);
        MatchesOrdered(s, i + 1);
      }
    }
  }

  /** Every `@` that starts a match and lies between matches is found: nothing matchable is skipped. */
  lemma {:induction false} MatchesComplete(s: string, i: nat, p: nat) returns (k: nat)
    requires i <= p < |s| && EntryAt(s, p).Some?
    ensures k < |Matches(s, i)| && Matches(s, i)[k].at <= p < Matches(s, i)[k].m.end
    decreases |s| - i
  {
    var r := EntryAt(s, i);
    if r.Some? && p < r.value.end {
      MatchesHead(s, i);
      k := 0;
    } else {
      var next := if r.Some? then r.value.end else i + 1;
      var j := MatchesComplete(s, next, p);
      MatchesSkip(s, i, j);
      k := if r.Some? then j + 1 else j;
    }
  }

  /** The match found at `i`, if any, heads the list. */
  lemma MatchesHead(s: string, i: nat)
    requires i < |s| && EntryAt(s, i).Some?
    ensures |Matches(s, i)| > 0 && Matches(s, i)[0] == Found(i, EntryAt(s, i).value)
  {
  }

  /** The list from `i` continues with the list from past the match at `i`, or from `i + 1`. */
  lemma MatchesSkip(s: string, i: nat, j: nat)
    requires i < |s|
    requires var next := if EntryAt(s, i).Some? then EntryAt(s, i).value.end else i + 1; j < |Matches(s, next)|
    ensures var r := EntryAt(s, i);
      var next := if r.Some? then r.value.end else i + 1;
      var k := if r.Some? then j + 1 else j;
      k < |Matches(s, i)| && Matches(s, i)[k] == Matches(s, next)[j]
  {
  }

  /** A text without `@` holds no entry. */
  lemma {:induction false} NoAtNoEntries(s: string, i: nat)
    requires forall k :: 0 <= k < |s| ==> s[k] != '@'
    ensures Matches(s, i) == []
    decreases |s| - i
  {
    if i < |s| {
      NoAtNoEntries(s, i + 1);
    }
  }

  /** The groups of an entry match: a non-empty word type and a non-empty key without a comma. */
  lemma EntryMatchShape(s: string, p: nat)
    requires p < |s| && EntryAt(s, p).Some?
    ensures var m := EntryAt(s, p).value;
      |m.entryType| > 0 && (forall k :: 0 <= k < |m.entryType| ==> IsWordChar(m.entryType[k])) &&
      |m.rawKey| > 0 && ',' !in m.rawKey && '@' !in m.fieldsText
  {
    var w := WordEnd(s, p + 1);
    var k := Until(s, w + 1, ',');
    var e := Until(s, k + 1, '@');
    assert EntryAt(s, p).value == EntryMatch(s[p + 1..w], s[w + 1..k], s[k + 1..e], e);
    WordEndExact(s, p + 1);
    UntilExact(s, w + 1, ',');
    UntilExact(s, k + 1, '@');
    var m := EntryAt(s, p).value;
    assert forall j :: 0 <= j < |m.entryType| ==> m.entryType[j] == s[p + 1 + j];
    assert forall j :: 0 <= j < |m.rawKey| ==> m.rawKey[j] == s[w + 1 + j];
    assert forall j :: 0 <= j < |m.fieldsText| ==> m.fieldsText[j] == s[k + 1 + j];
  }

  /**
   * A name is a tag exactly when some field has it, and its value is the one
   * of the last such field.
   */
  lemma ToMapLastWins(fs: seq<Field>, name: string)
    ensures name in ToMap(fs) <==> exists k :: 0 <= k < |fs| && fs[k].name == name
    ensures name in ToMap(fs) ==>
      exists k :: 0 <= k < |fs| && fs[k].name == name && ToMap(fs)[name] == fs[k].value &&
        forall j :: k < j < |fs| ==> fs[j].name != name
  {
    ToMapHas(fs, name);
    if name in ToMap(fs) {
      var k := ToMapLast(fs, name);
    }
  }

  lemma {:induction false} ToMapHas(fs: seq<Field>, name: string)
    ensures name in ToMap(fs) <==> exists k :: 0 <= k < |fs| && fs[k].name == name
    decreases |fs|
  {
    if fs != [] {
      var init := fs[..|fs| - 1];
      ToMapHas(init, name);
      if exists k :: 0 <= k < |init| && init[k].name == name {
        var k :| 0 <= k < |init| && init[k].name == name;
        assert fs[k] == init[k];
      }
      if exists k :: 0 <= k < |fs| && fs[k].name == name {
        var k :| 0 <= k < |fs| && fs[k].name == name;
        if k < |init| {
          assert init[k] == fs[k];
        }
      }
    }
  }

  lemma {:induction false} ToMapLast(fs: seq<Field>, name: string) returns (k: nat)
    requires name in ToMap(fs)
    ensures k < |fs| && fs[k].name == name && ToMap(fs)[name] == fs[k].value
    ensures forall j :: k < j < |fs| ==> fs[j].name != name
    decreases |fs|
  {
    var init := fs[..|fs| - 1];
    var last := fs[|fs| - 1];
    if last.name == name {
      k := |fs| - 1;
    } else {
      k := ToMapLast(init, name);
      assert fs[k] == init[k];
      assert forall j :: k < j < |init| ==> fs[j] == init[j];
    }
  }
}
