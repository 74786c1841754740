/**
 * Attendee-id allocation of `RegistrationPortal._get_next_id`: every file the
 * directory walk finds whose name looks like `attendee_<n>_info.json`
 * contributes its id `n`, and the next id is one more than the largest of
 * them, starting from 0.
 */
module AttendeeIds {
  import opened Wrappers
  import opened PyText

  const Prefix: string := "attendee_"
  const Suffix: string := "_info.json"

  /** The metadata file name the portal writes for attendee `id`. */
  function MetaFileName(id: int): string {
    Prefix + FormatInt(id) + Suffix
  }

  /** The id a file name contributes: it must start with `attendee_`, end with
      `_info.json`, and its second `_`-separated field must pass `int()`.
      A missing field (IndexError) or a failed conversion (ValueError) is
      swallowed by the bare `except` and the file is skipped. */
  function ParseAttendeeId(name: string): Option<int> {
    if StartsWith(name, Prefix) && EndsWith(name, Suffix) then
      var fields := Split(name, '_');
      if |fields| < 2 then None else ParseInt(fields[1])
    else None
  }

  /** Splitting a name that starts with `attendee_` yields `attendee` and then
      the fields of the rest. */
  lemma SplitPrefixed(rest: string)
    ensures Split(Prefix + rest, '_') == ["attendee"] + Split(rest, '_')
  {
    PrefixParts(rest);
    SplitAfterField("attendee", '_', rest);
  }

  // The three lemmas below split the name constants into parts, so that the
  // solver reasons about the pieces and never evaluates a whole literal.

  lemma PrefixParts(rest: string)
    ensures Prefix + rest == "attendee" + ['_'] + rest
  {
  }

  lemma SuffixParts(field: string)
    ensures field + Suffix == field + ['_'] + "info.json"
  {
  }

  lemma MetaNameParts(field: string)
    ensures Prefix + field + Suffix == Prefix + (field + Suffix)
  {
  }

  /** Every name with the prefix has a second field: the IndexError branch of
      the `except` never fires. */
  lemma PrefixedNameFields(name: string)
    requires StartsWith(name, Prefix)
    ensures Split(name, '_') == ["attendee"] + Split(name[|Prefix|..], '_')
    ensures |Split(name, '_')| >= 2
  {
    StartsWithPrefix(name, Prefix);
    assert name == Prefix + name[|Prefix|..];
    SplitPrefixed(name[|Prefix|..]);
  }

  /** The fields of `attendee_<field>_info.json` when the field has no `_`. */
  lemma MetaNameFields(field: string)
    requires '_' !in field
    ensures Split(Prefix + field + Suffix, '_') == ["attendee", field, "info.json"]
  {
    MetaNameParts(field);
    SplitPrefixed(field + Suffix);
    SuffixParts(field);
    SplitTwoFields(field, '_', "info.json");
  }

  /** `attendee_<field>_info.json` contributes exactly what `int()` makes of
      the field. */
  lemma ParseMetaName(field: string)
    requires '_' !in field
    ensures ParseAttendeeId(Prefix + field + Suffix) == ParseInt(field)
  {
    var name := Prefix + field + Suffix;
    assert name[..|Prefix|] == Prefix;
    StartsWithPrefix(name, Prefix);
    assert name[|name| - |Suffix|..] == Suffix;
    EndsWithSuffix(name, Suffix);
    MetaNameFields(field);
  }

  /** The file name written for `id` gives back exactly `id`. */
  lemma ParseMetaFileName(id: int)
    ensures ParseAttendeeId(MetaFileName(id)) == Some(id)
  {
    ParseFormatInt(id);
    ParseMetaName(FormatInt(id));
  }

  /** Names ending in `.jpg` (the saved photos) never contribute an id. */
  lemma PhotoFileIgnored(name: string)
    requires EndsWith(name, ".jpg")
    ensures ParseAttendeeId(name) == None
  {
    assert name[|name| - 1] == 'g';
  }

  /** `attendee_info.json`, that is `Prefix + "info.json"`, has the prefix and
      the suffix (they share the underscore), but its second field `info.json`
      is not an integer. */
  lemma SharedUnderscoreSkipped()
    ensures StartsWith(Prefix + "info.json", Prefix) && EndsWith(Prefix + "info.json", Suffix)
    ensures ParseAttendeeId(Prefix + "info.json") == None
  {
    var rest := "info.json";
    var name := Prefix + rest;
    StartsWithPrefix(name, Prefix);
    EndsWithSuffix(name, Suffix);
    assert name[..|Prefix|] == Prefix;
    assert name[|name| - |Suffix|..] == Suffix;
    PrefixParts(rest);
    SplitTwoFields("attendee", '_', rest);
    InfoJsonNotInt();
  }

  lemma InfoJsonNotInt()
    ensures ParseInt("info.json") == None
  {
    StripUnchanged(IntBlanks, "info.json");
    assert !IsDigit("info.json"[0]);
  }

  /** In `attendee_1_2_info.json`, that is `Prefix + "1_2" + Suffix`, only the
      second field `1` is read. */
  lemma ExtraFieldsIgnored()
    ensures ParseAttendeeId(Prefix + "1_2" + Suffix) == Some(1)
  {
    var name := Prefix + "1_2" + Suffix;
    assert name[..|Prefix|] == Prefix;
    StartsWithPrefix(name, Prefix);
    assert name[|name| - |Suffix|..] == Suffix;
    EndsWithSuffix(name, Suffix);
    var rest := "1" + ['_'] + ("2" + Suffix);
    assert name == Prefix + rest;
    SplitPrefixed(rest);
    SplitAfterField("1", '_', "2" + Suffix);
    assert FormatInt(1) == "1";
    ParseFormatInt(1);
  }

  /** `int()` accepts a sign and its own whitespace around the field, so
      `attendee_ -3 _info.json` contributes -3 and `attendee_+7_info.json` 7. */
  lemma PaddedSignedField(a: string, sign: string, n: nat, b: string)
    requires forall i :: 0 <= i < |a| ==> IsIntSpace(a[i])
    requires forall i :: 0 <= i < |b| ==> IsIntSpace(b[i])
    requires sign == "" || sign == "+" || sign == "-"
    ensures ParseAttendeeId(Prefix + (a + sign + FormatNat(n) + b) + Suffix) ==
            Some(if sign == "-" then -(n as int) else n)
  {
    var field := a + sign + FormatNat(n) + b;
    ParsePaddedInt(a, sign, n, b);
    assert '_' !in field by {
      forall i | 0 <= i < |field| ensures field[i] != '_' {
        NoUnderscoreInPaddedNumber(a, sign, n, b, i);
      }
    }
    ParseMetaName(field);
  }

  /** A field padded with U+001C, whitespace to `strip()` but not to `int()`,
      makes `int()` raise: `attendee_\x1c5_info.json` is skipped. */
  lemma SeparatorPaddedFieldSkipped()
    ensures ParseAttendeeId(Prefix + ['\U{1C}', '5'] + Suffix) == None
  {
    var field := ['\U{1C}', '5'];
    assert '_' !in field;
    ParseMetaName(field);
    SeparatorNotIntSpace();
  }

  lemma NoUnderscoreInPaddedNumber(a: string, sign: string, n: nat, b: string, i: int)
    requires forall i :: 0 <= i < |a| ==> IsIntSpace(a[i])
    requires forall i :: 0 <= i < |b| ==> IsIntSpace(b[i])
    requires sign == "" || sign == "+" || sign == "-"
    requires 0 <= i < |a + sign + FormatNat(n) + b|
    ensures (a + sign + FormatNat(n) + b)[i] != '_'
  {
    var d := FormatNat(n);
    if i < |a| {
      assert (a + sign + d + b)[i] == a[i];
    } else if i < |a| + |sign| {
      assert (a + sign + d + b)[i] == sign[i - |a|];
    } else if i < |a| + |sign| + |d| {
      assert (a + sign + d + b)[i] == d[i - |a| - |sign|];
    } else {
      assert (a + sign + d + b)[i] == b[i - |a| - |sign| - |d|];
    }
  }

  /** Each reason a name is skipped, stated separately. */
  lemma SkipReasons(name: string)
    ensures !StartsWith(name, Prefix) ==> ParseAttendeeId(name) == None
    ensures !EndsWith(name, Suffix) ==> ParseAttendeeId(name) == None
    ensures StartsWith(name, Prefix) ==> |Split(name, '_')| >= 2
    ensures StartsWith(name, Prefix) && ParseInt(Split(name, '_')[1]) == None ==>
              ParseAttendeeId(name) == None
  {
    if StartsWith(name, Prefix) { PrefixedNameFields(name); }
  }

  // ---------------------------------------------------------------------
  // The max-fold, on the ids the names contribute.

  /** The id each name contributes, in walk order. */
  function ParsedIds(names: seq<string>): (ps: seq<Option<int>>)
    ensures |ps| == |names|
  {
    if names == [] then []
    else ParsedIds(names[..|names| - 1]) + [ParseAttendeeId(names[|names| - 1])]
  }

  lemma {:induction false} ParsedIdsAt(names: seq<string>, i: int)
    requires 0 <= i < |names|
    ensures ParsedIds(names)[i] == ParseAttendeeId(names[i])
  {
    if i < |names| - 1 {
      ParsedIdsAt(names[..|names| - 1], i);
    }
  }

  lemma ParsedIdsSnoc(names: seq<string>, name: string)
    ensures ParsedIds(names + [name]) == ParsedIds(names) + [ParseAttendeeId(name)]
  {
    assert (names + [name])[..|names|] == names;
  }

  /** One step of `max_id = max(max_id, attendee_id)`; a skipped name changes nothing. */
  function MaxStep(m: int, parsed: Option<int>): int {
    match parsed
    case Some(id) => if m < id then id else m
    case None => m
  }

  /** The value of `max_id` after the fold over `ps`, starting from 0. */
  function MaxId(ps: seq<Option<int>>): (m: int)
    ensures m >= 0
  {
    if ps == [] then 0 else MaxStep(MaxId(ps[..|ps| - 1]), ps[|ps| - 1])
  }

  /** `MaxId` is the maximum of 0 and the ids present in `ps`. */
  lemma {:induction false} MaxIdIsMax(ps: seq<Option<int>>)
    ensures forall id :: Some(id) in ps ==> id <= MaxId(ps)
    ensures MaxId(ps) == 0 || Some(MaxId(ps)) in ps
  {
    if ps != [] {
      var init := ps[..|ps| - 1];
      MaxIdIsMax(init);
      assert ps == init + [ps[|ps| - 1]];
    }
  }

  /** The fold depends only on which ids are present. */
  lemma MaxIdSameIds(ps: seq<Option<int>>, qs: seq<Option<int>>)
    requires forall id :: Some(id) in ps <==> Some(id) in qs
    ensures MaxId(ps) == MaxId(qs)
  {
    MaxIdIsMax(ps);
    MaxIdIsMax(qs);
  }

  /** What `_get_next_id` returns for the file names `names`. */
  function NextIdOf(names: seq<string>): int {
    MaxId(ParsedIds(names)) + 1
  }

  /** The next id is at least 1 and exceeds every contributed id. */
  lemma NextIdAboveAll(names: seq<string>)
    ensures NextIdOf(names) >= 1
    ensures forall i :: 0 <= i < |names| && ParseAttendeeId(names[i]).Some? ==>
              ParseAttendeeId(names[i]).value < NextIdOf(names)
  {
    var ps := ParsedIds(names);
    MaxIdIsMax(ps);
    forall i | 0 <= i < |names| && ParseAttendeeId(names[i]).Some?
      ensures ParseAttendeeId(names[i]).value < NextIdOf(names)
    {
      ParsedIdsAt(names, i);
      assert ps[i] in ps;
    }
  }

  /** The next id is the least such number: either 1, or one more than some
      contributed id. */
  lemma NextIdAttained(names: seq<string>)
    ensures NextIdOf(names) == 1 ||
            exists i :: 0 <= i < |names| && ParseAttendeeId(names[i]) == Some(NextIdOf(names) - 1)
  {
    var ps := ParsedIds(names);
    MaxIdIsMax(ps);
    if NextIdOf(names) != 1 {
      var i :| 0 <= i < |ps| && ps[i] == Some(MaxId(ps));
      ParsedIdsAt(names, i);
    }
  }

  /** The next id is 1 exactly when no name contributes a positive id, in
      particular when no name qualifies at all. */
  lemma NextIdIsOne(names: seq<string>)
    ensures NextIdOf(names) == 1 <==>
            forall i :: 0 <= i < |names| && ParseAttendeeId(names[i]).Some? ==>
              ParseAttendeeId(names[i]).value <= 0
  {
    NextIdAboveAll(names);
    NextIdAttained(names);
  }

  /** Two walks in which the same qualifying names occur give the same next id:
      whatever does not qualify is ignored. */
  lemma NextIdSameQualifying(a: seq<string>, b: seq<string>)
    requires forall x :: ParseAttendeeId(x).Some? ==> (x in a <==> x in b)
    ensures NextIdOf(a) == NextIdOf(b)
  {
    QualifyingIdsIncluded(a, b);
    QualifyingIdsIncluded(b, a);
    MaxIdSameIds(ParsedIds(a), ParsedIds(b));
  }

  lemma QualifyingIdsIncluded(a: seq<string>, b: seq<string>)
    requires forall x :: ParseAttendeeId(x).Some? && x in a ==> x in b
    ensures forall id :: Some(id) in ParsedIds(a) ==> Some(id) in ParsedIds(b)
  {
    forall id | Some(id) in ParsedIds(a) ensures Some(id) in ParsedIds(b) {
      var i :| 0 <= i < |a| && ParsedIds(a)[i] == Some(id);
      ParsedIdsAt(a, i);
      assert a[i] in a;
      var j :| 0 <= j < |b| && b[j] == a[i];
      ParsedIdsAt(b, j);
      assert ParsedIds(b)[j] in ParsedIds(b);
    }
  }

  /** Order and duplicates do not matter: two walks that find the same set of
      file names give the same next id. */
  lemma NextIdSameNames(a: seq<string>, b: seq<string>)
    requires forall x :: x in a <==> x in b
    ensures NextIdOf(a) == NextIdOf(b)
  {
    NextIdSameQualifying(a, b);
  }

  /** A name that does not qualify (no `attendee_` prefix, no `_info.json`
      suffix, or a second field `int()` rejects) leaves the next id unchanged,
      wherever it stands in the walk. */
  lemma SkippedNameLeavesNextId(a: seq<string>, name: string, b: seq<string>)
    requires ParseAttendeeId(name) == None
    ensures NextIdOf(a + [name] + b) == NextIdOf(a + b)
  {
    forall x ensures x in a + [name] + b <==> x in a + b || x == name {
    }
    NextIdSameQualifying(a + [name] + b, a + b);
  }

  /** A negative or zero id cannot pull the result below 1 or change it. */
  lemma NonPositiveIdIgnored(names: seq<string>, name: string)
    requires ParseAttendeeId(name).Some? && ParseAttendeeId(name).value <= 0
    ensures NextIdOf(names + [name]) == NextIdOf(names)
  {
    ParsedIdsSnoc(names, name);
    assert (ParsedIds(names) + [ParseAttendeeId(name)])[..|names|] == ParsedIds(names);
  }

  // ---------------------------------------------------------------------
  // The directory walk.

  /** The file names seen by the walk, directory after directory. */
  function Flatten(walk: seq<seq<string>>): seq<string> {
    if walk == [] then [] else Flatten(walk[..|walk| - 1]) + walk[|walk| - 1]
  }

  /** `_get_next_id`: the walk yields one list of file names per directory; a
      `max` fold over every qualifying name, plus 1. */
  method NextId(walk: seq<seq<string>>) returns (next: int)
    ensures next == NextIdOf(Flatten(walk))
    ensures next >= 1
  {
    var maxId := 0;
    assert walk[..0] == [];
    for d := 0 to |walk|
      invariant maxId == MaxId(ParsedIds(Flatten(walk[..d])))
    {
      maxId := ScanDirectory(Flatten(walk[..d]), walk[d], maxId);
      assert walk[..d + 1][..d] == walk[..d];
    }
    assert walk[..|walk|] == walk;
    next := maxId + 1;
  }

  /** The inner loop of `_get_next_id`: carries `max_id` across the files of
      one directory, the names already walked being `seen`. */
  method ScanDirectory(ghost seen: seq<string>, files: seq<string>, start: int) returns (maxId: int)
    requires start == MaxId(ParsedIds(seen))
    ensures maxId == MaxId(ParsedIds(seen + files))
  {
    maxId := start;
    assert seen + files[..0] == seen;
    for j := 0 to |files|
      invariant maxId == MaxId(ParsedIds(seen + files[..j]))
    {
      var parsed := ParseAttendeeId(files[j]);
      if parsed.Some? {
        maxId := if maxId < parsed.value then parsed.value else maxId;
      }
      WalkStep(seen, files, j);
    }
    assert files[..|files|] == files;
  }

  lemma WalkStep(seen: seq<string>, files: seq<string>, j: int)
    requires 0 <= j < |files|
    ensures MaxId(ParsedIds(seen + files[..j + 1])) ==
            MaxStep(MaxId(ParsedIds(seen + files[..j])), ParseAttendeeId(files[j]))
  {
    assert seen + files[..j + 1] == (seen + files[..j]) + [files[j]];
    ParsedIdsSnoc(seen + files[..j], files[j]);
    var ps := ParsedIds(seen + files[..j]) + [ParseAttendeeId(files[j])];
    assert ps[..|ps| - 1] == ParsedIds(seen + files[..j]);
  }
}
