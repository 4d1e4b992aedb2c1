/** The "script" table of a language record: ISO 15924 code (lower case) to
    script name, where names are written with spaces. The alias table of the
    Unicode property `script` is the parameter `aliases`: it maps a name with
    underscores to its code, already joined and lower-cased; a name outside
    it is a KeyError. */
module ScriptTable {
  import opened Results

  type Aliases = map<string, string>

  /** `s.replace(from, to)` for single characters. */
  function Replace(s: string, from: char, to: char): (r: string)
    ensures |r| == |s|
    ensures forall i :: 0 <= i < |s| ==> r[i] == (if s[i] == from then to else s[i])
  {
    if s == [] then [] else [if s[0] == from then to else s[0]] + Replace(s[1..], from, to)
  }

  /** Script names from the Unicode tables have underscores and no spaces:
      turning underscores into spaces for storage and back again gives the
      name back. */
  lemma UnderscoreRoundTrip(name: string)
    requires ' ' !in name
    ensures Replace(Replace(name, '_', ' '), ' ', '_') == name
  {
  }

  /** The entry `code -> name` agrees with the alias table. */
  predicate Conforms(aliases: Aliases, code: string, name: string)
  {
    var key := Replace(name, ' ', '_');
    key in aliases && aliases[key] == code
  }

  /** Every name of the table is known to the alias table. */
  predicate Named(aliases: Aliases, table: map<string, string>)
  {
    forall code :: code in table ==> Replace(table[code], ' ', '_') in aliases
  }

  predicate AllConform(aliases: Aliases, table: map<string, string>)
  {
    forall code :: code in table ==> Conforms(aliases, code, table[code])
  }

  /** What `_remove_duplicates` leaves in the table: the entries that agree
      with the alias table, or the KeyError of a name the alias table lacks. */
  function Deduplicated(table: map<string, string>, aliases: Aliases): (r: Result<map<string, string>>)
    ensures r.Ok? <==> Named(aliases, table)
    ensures r.Err? ==> r.error == UnknownScriptName
    ensures r.Ok? ==> forall code :: code in r.value <==> code in table && Conforms(aliases, code, table[code])
    ensures r.Ok? ==> forall code :: code in r.value ==> r.value[code] == table[code]
  {
    if Named(aliases, table) then Ok(map code | code in table && Conforms(aliases, code, table[code]) :: table[code])
    else Err(UnknownScriptName)
  }

  /** The cleaned table agrees with the alias table everywhere. */
  lemma DeduplicatedConforms(table: map<string, string>, aliases: Aliases)
    requires Deduplicated(table, aliases).Ok?
    ensures AllConform(aliases, Deduplicated(table, aliases).value)
  {
  }

  /** Cleaning a cleaned table changes nothing. */
  lemma DeduplicatedIdempotent(table: map<string, string>, aliases: Aliases)
    requires Deduplicated(table, aliases).Ok?
    ensures Deduplicated(Deduplicated(table, aliases).value, aliases) == Deduplicated(table, aliases)
  {
    var once := Deduplicated(table, aliases).value;
    assert Named(aliases, once);
    var twice := Deduplicated(once, aliases).value;
    forall code | code in once ensures code in twice && twice[code] == once[code] {
      assert Conforms(aliases, code, table[code]);
    }
    assert twice == once;
  }

  /** A table that already agrees with the alias table is left as it is. */
  lemma DeduplicatedKeepsConforming(table: map<string, string>, aliases: Aliases)
    requires AllConform(aliases, table)
    ensures Deduplicated(table, aliases) == Ok(table)
  {
    assert Named(aliases, table);
    var kept := Deduplicated(table, aliases).value;
    assert forall code :: code in table ==> code in kept;
    assert kept == table;
  }

  /** Replacing a character the string does not contain changes nothing:
      a name without spaces is its own alias key. */
  lemma ReplaceAbsent(s: string, from: char, to: char)
    requires from !in s
    ensures Replace(s, from, to) == s
  {
  }

  /** The example of the source's documentation: of two entries with the
      same name (Azerbaijani's "ara" and "arab", both "Arabic"), the one under
      the name's own code stays and the other goes. */
  lemma DuplicateNameKeepsItsCode(aliases: Aliases, name: string, code: string, other: string)
    requires ' ' !in name && name in aliases && aliases[name] == code && other != code
    ensures Deduplicated(map[other := name, code := name], aliases) == Ok(map[code := name])
  {
    var table := map[other := name, code := name];
    ReplaceAbsent(name, ' ', '_');
    assert Named(aliases, table);
    var kept := Deduplicated(table, aliases).value;
    assert kept.Keys == {code};
    assert kept == map[code := name];
  }

  /** The cleanup drops a disagreeing entry even when its name appears only
      once in the table, which the source's documentation does not say. */
  lemma DropsUniqueNonConforming(aliases: Aliases, name: string, code: string)
    requires ' ' !in name && name in aliases && aliases[name] != code
    ensures Deduplicated(map[code := name], aliases) == Ok(map[])
  {
    ReplaceAbsent(name, ' ', '_');
    assert Named(aliases, map[code := name]);
    assert Deduplicated(map[code := name], aliases).value.Keys == {};
  }
}
