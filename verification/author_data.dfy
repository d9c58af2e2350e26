/**
 * The static author table and its lookup by name (`lib/authorData.ts`).
 * Names are compared after `normalizeName`, which lower-cases, turns commas
 * into spaces, trims, collapses whitespace runs and capitalises every word.
 */
module AuthorData {
  import opened Options
  import opened Text
  import Seqs

  /** One author record; `image` is optional and "" when absent. */
  datatype AuthorInfo = AuthorInfo(name: string, description: string, linkedin: string, image: string)

  // ---------------------------------------------------------------- normalizeName

  /** Every comma becomes a space and nothing else changes. */
  function CommasToSpaces(s: string): (r: string)
    ensures |r| == |s|
    ensures forall i :: 0 <= i < |s| ==> r[i] == if s[i] == ',' then ' ' else s[i]
  {
    seq(|s|, i requires 0 <= i < |s| => if s[i] == ',' then ' ' else s[i])
  }

  /** `s.split(",").join(" ")` is `CommasToSpaces(s)`: splitting at a
      one-character separator and joining with a space puts a space where
      each separator stood. */
  lemma {:induction false} CommaSplitJoin(s: string)
    ensures Join(Split(s, ","), " ") == CommasToSpaces(s)
    decreases |s|
  {
    if s != [] {
      var t := s[1..];
      CommaSplitJoin(t);
      assert s == [s[0]] + t;
      assert CommasToSpaces(s) == [CommasToSpaces(s)[0]] + CommasToSpaces(t);
      if s[0] == ',' {
        assert s[..1] == ",";
        JoinCons([], Split(t, ","), " ");
      } else {
        SplitJoinHead(s[0], t, ",", " ");
      }
    }
  }

  /** `normalizeName` up to the trim. */
  function Prepared(name: string): string
  {
    Trim(CommasToSpaces(ToLower(name)))
  }

  /** Everything `normalizeName` does before capitalising. */
  function Cleaned(name: string): string
  {
    ReplaceSpaceRuns(Prepared(name), ' ')
  }

  /** `normalizeName`. The `name || ""` guard is the identity on strings. */
  function NormalizeName(name: string): string
  {
    UpperWordStarts(Cleaned(name))
  }

  /** A character that separates words in a name: whitespace or a comma. */
  predicate IsSeparator(c: char) { IsSpace(c) || c == ',' }

  predicate NoComma(s: string) { forall i :: 0 <= i < |s| ==> s[i] != ',' }


  /** After the trim the name is lower-case and comma-free... */
  lemma PreparedChars(name: string)
    ensures IsLowerCase(Prepared(name)) && NoComma(Prepared(name))
  {
    TrimKeeps(CommasToSpaces(ToLower(name)), c => !IsUpper(c) && c != ',');
  }

  /** ...has no whitespace at either end... */
  lemma PreparedTrimmed(name: string)
    ensures Trimmed(Prepared(name))
  {
    TrimEnds(CommasToSpaces(ToLower(name)));
  }

  /** ...and is empty exactly when the name is all separators. */
  lemma PreparedEmpty(name: string)
    ensures Prepared(name) == [] <==> forall i :: 0 <= i < |name| ==> IsSeparator(name[i])
  {
    var s := CommasToSpaces(ToLower(name));
    TrimBlank(s);
    forall i | 0 <= i < |name| ensures IsSpace(s[i]) <==> IsSeparator(name[i]) {
    }
  }

  /** The string before capitalising is lower-case, comma-free, trimmed and
      single-spaced, and is empty exactly when the name is all separators. */
  lemma CleanedShape(name: string)
    ensures var c := Cleaned(name); IsLowerCase(c) && NoComma(c) && Trimmed(c) && SingleSpaced(c)
    ensures Cleaned(name) == [] <==> forall i :: 0 <= i < |name| ==> IsSeparator(name[i])
  {
    var t := Prepared(name);
    assert IsLowerCase(Cleaned(name)) && NoComma(Cleaned(name)) by {
      PreparedChars(name);
      ReplaceSpaceRunsKeeps(t, ' ', x => !IsUpper(x) && x != ',');
    }
    assert Trimmed(Cleaned(name)) by {
      PreparedTrimmed(name);
      if t != [] {
        ReplaceSpaceRunsLast(t, ' ');
      }
    }
    ReplaceSpaceRunsSingle(t);
    PreparedEmpty(name);
    ReplaceSpaceRunsEmpty(t, ' ');
  }

  /** Capitalising word starts touches neither commas nor whitespace. */
  lemma UpperWordStartsKeepsSeparators(c: string)
    ensures var n := UpperWordStarts(c);
      forall i :: 0 <= i < |c| && (IsSpace(c[i]) || c[i] == ',' || IsSpace(n[i]) || n[i] == ',') ==> n[i] == c[i]
  {
  }

  /** The shape of a normalised name: no commas, no leading, trailing or
      doubled whitespace, and empty exactly for a name made of separators. */
  lemma NormalizeNameShape(name: string)
    ensures var n := NormalizeName(name);
      && NoComma(n) && Trimmed(n) && SingleSpaced(n)
      && (n == [] <==> forall i :: 0 <= i < |name| ==> IsSeparator(name[i]))
  {
    CleanedShape(name);
    UpperWordStartsKeepsSeparators(Cleaned(name));
  }

  /** In a normalised name a letter is upper-case exactly when it starts a word. */
  lemma NormalizeNameCase(name: string)
    ensures var n := NormalizeName(name);
      forall i :: 0 <= i < |n| && IsLetter(n[i]) ==> (IsUpper(n[i]) <==> AtWordStart(n, i))
  {
    var c := Cleaned(name);
    CleanedShape(name);
    var n := UpperWordStarts(c);
    forall i | 0 <= i < |n| && IsLetter(n[i]) ensures IsUpper(n[i]) <==> AtWordStart(n, i) {
      assert AtWordStart(n, i) == AtWordStart(c, i);
    }
  }

  /** Lower-casing a normalised name gives back the string before capitalising. */
  lemma LowerOfNormalized(name: string)
    ensures ToLower(NormalizeName(name)) == Cleaned(name)
  {
    CleanedShape(name);
  }

  /** Normalising a normalised name changes nothing. */
  lemma NormalizeNameIdempotent(name: string)
    ensures NormalizeName(NormalizeName(name)) == NormalizeName(name)
  {
    var c := Cleaned(name);
    CleanedShape(name);
    var n := NormalizeName(name);
    LowerOfNormalized(name);
    assert CommasToSpaces(c) == c;
    assert TrimStart(c) == c;
    assert TrimEnd(c) == c;
    ReplaceSpaceRunsSingleSpaced(c);
  }

  /** Two names that differ only in letter case and in which separator
      (whitespace or comma) stands at each place. */
  predicate SameUpToCaseAndSeparators(a: string, b: string)
  {
    |a| == |b| &&
    forall i :: 0 <= i < |a| ==> ToLowerChar(a[i]) == ToLowerChar(b[i]) || (IsSeparator(a[i]) && IsSeparator(b[i]))
  }

  /** Such names normalise to the same string. */
  lemma NormalizeNameIgnoresCaseAndSeparators(a: string, b: string)
    requires SameUpToCaseAndSeparators(a, b)
    ensures NormalizeName(a) == NormalizeName(b)
  {
    var sa := CommasToSpaces(ToLower(a));
    var sb := CommasToSpaces(ToLower(b));
    assert SameUpToSpace(sa, sb);
    TrimStartSameUpToSpace(sa, sb);
    TrimEndSameUpToSpace(TrimStart(sa), TrimStart(sb));
    ReplaceSpaceRunsSameUpToSpace(Trim(sa), Trim(sb), ' ');
  }

  /** A name that starts with a capital letter followed by a small one keeps
      those two characters at the front of its normalised form. */
  lemma NormalizeNamePrefix(name: string)
    requires |name| >= 2 && IsUpper(name[0]) && IsLower(name[1])
    ensures var n := NormalizeName(name); |n| >= 2 && n[0] == name[0] && n[1] == name[1]
  {
    var s := CommasToSpaces(ToLower(name));
    assert !IsSpace(s[0]) && !IsSpace(s[1]);
    assert TrimStart(s) == s;
    var t := Trim(s);
    assert |t| >= 2 && t[0] == s[0] && t[1] == s[1];
    var c := ReplaceSpaceRuns(t, ' ');
    assert c == [t[0]] + ReplaceSpaceRuns(t[1..], ' ');
    assert t[1..][0] == t[1];
    assert c[1] == t[1];
    assert !AtWordStart(c, 1);
  }
}

/** The table of `lib/authorData.ts` and the lookup over it. */
module Authors {
  import opened Options
  import opened Text
  import Seqs
  import opened AuthorData

  // ---------------------------------------------------------------- building the map and looking names up

  /** The key an entry is filed under. */
  function NameKey(a: AuthorInfo): string { NormalizeName(a.name) }

  /** `Object.fromEntries(entries.map(a => [normalizeName(a.name), a]))`:
      entries are stored in order, so a later entry with the same key replaces an earlier one. */
  function EntriesMap(entries: seq<AuthorInfo>): (m: map<string, AuthorInfo>)
    ensures forall k :: k in m ==> m[k] in entries && NameKey(m[k]) == k
    decreases |entries|
  {
    if entries == [] then map[]
    else
      var last := entries[|entries| - 1];
      EntriesMap(entries[..|entries| - 1])[NameKey(last) := last]
  }

  /** `map[normalizeName(name)]`, with `None` for `undefined`. */
  function Lookup(m: map<string, AuthorInfo>, name: string): Option<AuthorInfo>
  {
    var key := NormalizeName(name);
    if key in m then Some(m[key]) else None
  }

  /** An entry that no later entry shares a key with is the one stored under its key. */
  lemma {:induction false} EntriesMapLastWins(entries: seq<AuthorInfo>, i: nat)
    requires i < |entries|
    requires forall j :: i < j < |entries| ==> NameKey(entries[j]) != NameKey(entries[i])
    ensures NameKey(entries[i]) in EntriesMap(entries)
    ensures EntriesMap(entries)[NameKey(entries[i])] == entries[i]
    decreases |entries|
  {
    if i < |entries| - 1 {
      EntriesMapLastWins(entries[..|entries| - 1], i);
    }
  }

  /** The map holds exactly the keys the entries are filed under. */
  lemma {:induction false} EntriesMapKeys(entries: seq<AuthorInfo>)
    ensures EntriesMap(entries).Keys == Seqs.Keys(entries, NameKey)
    decreases |entries|
  {
    if entries != [] {
      EntriesMapKeys(entries[..|entries| - 1]);
      Seqs.KeysSnoc(entries, NameKey);
    }
  }

  /** A lookup finds an entry whose name normalises like the name asked for;
      it fails exactly when there is none; and it cannot tell apart names that
      differ only in case or in their separators. */
  lemma LookupSpec(entries: seq<AuthorInfo>, name: string, other: string)
    ensures var r := Lookup(EntriesMap(entries), name);
      r.Some? ==> r.value in entries && NameKey(r.value) == NormalizeName(name)
    ensures Lookup(EntriesMap(entries), name).None? <==>
      forall i :: 0 <= i < |entries| ==> NameKey(entries[i]) != NormalizeName(name)
    ensures SameUpToCaseAndSeparators(name, other) ==>
      Lookup(EntriesMap(entries), other) == Lookup(EntriesMap(entries), name)
  {
    EntriesMapKeys(entries);
    if SameUpToCaseAndSeparators(name, other) {
      NormalizeNameIgnoresCaseAndSeparators(name, other);
    }
  }

  /** With one entry per key, looking up an entry's own name finds that entry. */
  lemma LookupOwnEntry(entries: seq<AuthorInfo>, i: nat)
    requires i < |entries| && Seqs.UniqueKeys(entries, NameKey)
    ensures Lookup(EntriesMap(entries), entries[i].name) == Some(entries[i])
  {
    EntriesMapLastWins(entries, i);
  }
}
