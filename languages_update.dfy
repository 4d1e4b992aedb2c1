/** The update of languages.json: every `.tsv` pronunciation file names its
    language by the prefix of its file name, and every line of it whose word
    is written in one script records that script in the language's "script"
    table. Reading and writing files is left out: a directory is the list of
    its files, each with its lines. */
module LanguagesUpdate {
  import opened Results
  import opened ScriptDetection
  import opened ScriptTable

  /** A file of the TSV directory, in the order the directory lists it. */
  datatype TsvFile = TsvFile(name: string, lines: seq<string>)

  /** The value of a record's "script" field: absent, or a table. */
  type ScriptField = Option<map<string, string>>

  /** The text of `s` before the first `c`, or all of `s` when it has none
      (`s.split(c, 1)[0]`, and `s[:s.index(c)]` when `c` occurs). */
  function Before(s: string, c: char): (r: string)
    ensures r <= s
    ensures c !in r
    ensures |r| < |s| ==> s[|r|] == c
  {
    if s == [] || s[0] == c then [] else [s[0]] + Before(s[1..], c)
  }

  /** The word of a pronunciation line: its first tab-separated column. */
  function Word(line: string): (w: string)
    ensures w <= line && '\t' !in w
    ensures |w| < |line| ==> line[|w|] == '\t'
  {
    Before(line, '\t')
  }

  /** `name.endswith(".tsv")`. */
  predicate IsTsv(name: string)
    ensures IsTsv(name) <==> exists stem :: name == stem + ".tsv"
  {
    if |name| >= 4 && name[|name| - 4..] == ".tsv" then
      assert name == name[..|name| - 4] + ".tsv";
      true
    else
      false
  }

  /** The language a file contributes to, when it contributes to one. */
  predicate Feeds(file: TsvFile, code: string)
  {
    IsTsv(file.name) && '_' in file.name && Before(file.name, '_') == code
  }

  // ---------------------------------------------------------------------------
  // The update, specified step by step
  // ---------------------------------------------------------------------------

  /** One line of a file applied to its language's "script" field. */
  function LineStep(field: ScriptField, line: string, aliases: Aliases, scriptOf: char -> string): (r: Result<ScriptField>)
    ensures r.Err? ==> r.error == UnknownScriptName && BestScriptName(Word(line), true, scriptOf).Best?
    ensures r.Ok? ==>
      || r.value == field
      || (BestScriptName(Word(line), true, scriptOf).Best? && r.value.Some? && AllConform(aliases, r.value.value))
  {
    var detection := BestScriptName(Word(line), true, scriptOf);
    if !detection.Best? then Ok(field)  // unpacking None raises TypeError, which is swallowed
    else
      var name := detection.script;
      var table := if field.Some? then field.value else map[];
      if name in table then  // the guard compares the name with the table's codes
        match Deduplicated(table, aliases)
        case Ok(kept) => Ok(Some(kept))
        case Err(e) => Err(e)
      else if name !in aliases then Err(UnknownScriptName)
      else
        match Deduplicated(table[aliases[name] := Replace(name, '_', ' ')], aliases)
        case Ok(kept) => Ok(Some(kept))
        case Err(e) => Err(e)
  }

  /** The lines of one file applied in order; the first uncaught exception
      ends the run. */
  function LinesStep(field: ScriptField, lines: seq<string>, aliases: Aliases, scriptOf: char -> string): (r: Result<ScriptField>)
    ensures r.Err? ==> r.error == UnknownScriptName
    ensures r.Ok? ==> r.value == field || (r.value.Some? && AllConform(aliases, r.value.value))
    decreases |lines|
  {
    if lines == [] then Ok(field)
    else
      match LinesStep(field, lines[..|lines| - 1], aliases, scriptOf)
      case Ok(f) => LineStep(f, lines[|lines| - 1], aliases, scriptOf)
      case Err(e) => Err(e)
  }

  /** One file of the directory applied to the languages' script fields. */
  function FileStep(fields: map<string, ScriptField>, file: TsvFile, aliases: Aliases, scriptOf: char -> string)
    : (r: Result<map<string, ScriptField>>)
    ensures !IsTsv(file.name) ==> r == Ok(fields)
    ensures r.Ok? ==> r.value.Keys == fields.Keys
    ensures r.Ok? ==> forall code :: code in fields && !Feeds(file, code) ==> r.value[code] == fields[code]
    ensures r.Ok? && IsTsv(file.name) && '_' in file.name ==>
      var code := Before(file.name, '_');
      code in fields && LinesStep(fields[code], file.lines, aliases, scriptOf) == Ok(r.value[code])
    ensures r.Err? && r.error.MissingUnderscore? ==> r.error.file == file.name && IsTsv(file.name) && '_' !in file.name
    ensures r.Err? && r.error.UnknownLanguage? ==> r.error.code !in fields && Feeds(file, r.error.code)
    ensures IsTsv(file.name) && '_' !in file.name ==> r == Err(MissingUnderscore(file.name))
    ensures IsTsv(file.name) && '_' in file.name && Before(file.name, '_') !in fields ==>
      r == Err(UnknownLanguage(Before(file.name, '_')))
    ensures r == Err(UnknownScriptName) ==>
      && IsTsv(file.name) && '_' in file.name && Before(file.name, '_') in fields
      && LinesStep(fields[Before(file.name, '_')], file.lines, aliases, scriptOf).Err?
  {
    if !IsTsv(file.name) then Ok(fields)
    else if '_' !in file.name then Err(MissingUnderscore(file.name))
    else
      var code := Before(file.name, '_');
      if code !in fields then Err(UnknownLanguage(code))
      else
        match LinesStep(fields[code], file.lines, aliases, scriptOf)
        case Ok(f) => Ok(fields[code := f])
        case Err(e) => Err(e)
  }

  /** The whole directory applied in order. */
  function UpdateAll(fields: map<string, ScriptField>, files: seq<TsvFile>, aliases: Aliases, scriptOf: char -> string)
    : (r: Result<map<string, ScriptField>>)
    ensures r.Ok? ==> r.value.Keys == fields.Keys
    ensures r.Err? && r.error.MissingUnderscore? ==>
      exists k :: 0 <= k < |files| && files[k].name == r.error.file && IsTsv(files[k].name) && '_' !in files[k].name
    ensures r.Err? && r.error.UnknownLanguage? ==>
      r.error.code !in fields && exists k :: 0 <= k < |files| && Feeds(files[k], r.error.code)
    decreases |files|
  {
    if files == [] then Ok(fields)
    else
      match UpdateAll(fields, files[..|files| - 1], aliases, scriptOf)
      case Ok(f) => FileStep(f, files[|files| - 1], aliases, scriptOf)
      case Err(e) => Err(e)
  }

  // ---------------------------------------------------------------------------
  // The language records, updated in place
  // ---------------------------------------------------------------------------

  /** A record of languages.json. */
  class Language {
    /** The "script" field: ISO 15924 code to script name. */
    var script: ScriptField
    /** The record's other fields (names, codes, flags), as JSON text. */
    var properties: map<string, string>

    /** `_remove_duplicates(lang)`: collects the codes whose entry disagrees
        with the alias table, then deletes them. A name missing from the
        alias table raises before anything is deleted. */
    method RemoveDuplicates(aliases: Aliases) returns (status: Status)
      requires script.Some?
      modifies this`script
      ensures Deduplicated(old(script.value), aliases).Ok? ==>
        status == Success && script == Some(Deduplicated(old(script.value), aliases).value)
      ensures Deduplicated(old(script.value), aliases).Err? ==>
        status == Raised(Deduplicated(old(script.value), aliases).error) && script == old(script)
    {
      var table := script.value;
      var remove: seq<string> := [];
      var pending := table.Keys;
      while pending != {}
        invariant pending <= table.Keys
        invariant forall code :: code in table && code !in pending ==> Replace(table[code], ' ', '_') in aliases
        invariant forall code :: code in remove <==> code in table && code !in pending && !Conforms(aliases, code, table[code])
        decreases pending
      {
        var code :| code in pending;
        var name := Replace(table[code], ' ', '_');
        if name !in aliases {
          assert !Named(aliases, table);
          return Raised(UnknownScriptName);
        }
        if aliases[name] != code {
          remove := remove + [code];
        }
        pending := pending - {code};
      }
      assert Named(aliases, table);
      for i := 0 to |remove|
        invariant script.Some?
        invariant forall code :: code in script.value <==> code in table && code !in remove[..i]
        invariant forall code :: code in script.value ==> script.value[code] == table[code]
      {
        assert remove[..i + 1] == remove[..i] + [remove[i]];
        script := Some(script.value - {remove[i]});
      }
      assert remove[..|remove|] == remove;
      ghost var kept := Deduplicated(table, aliases).value;
      assert forall code :: code in script.value <==> code in kept;
      assert script.value == kept;
      status := Success;
    }

    /** One line of a TSV file: detect the word's script in strict mode and,
        when there is one, record it and clean the table. */
    method AddLine(line: string, aliases: Aliases, scriptOf: char -> string) returns (status: Status)
      modifies this`script
      ensures status.Success? ==> LineStep(old(script), line, aliases, scriptOf) == Ok(script)
      ensures status.Raised? ==> LineStep(old(script), line, aliases, scriptOf) == Err(status.error)
    {
      var word := Word(line);
      var detection := DetectBestScriptName(word, true, scriptOf);
      if !detection.Best? {
        return Success;
      }
      var name := detection.script;
      if script.None? {
        script := Some(map[]);
      }
      if name !in script.value {
        if name !in aliases {
          return Raised(UnknownScriptName);
        }
        script := Some(script.value[aliases[name] := Replace(name, '_', ' ')]);
      }
      status := RemoveDuplicates(aliases);
    }

    /** The loop over the lines of one file; an exception ends it. */
    method AddLines(lines: seq<string>, aliases: Aliases, scriptOf: char -> string) returns (status: Status)
      modifies this`script
      ensures status.Success? ==> LinesStep(old(script), lines, aliases, scriptOf) == Ok(script)
      ensures status.Raised? ==> LinesStep(old(script), lines, aliases, scriptOf) == Err(status.error)
    {
      ghost var start := script;
      for j := 0 to |lines|
        invariant LinesStep(start, lines[..j], aliases, scriptOf) == Ok(script)
      {
        assert lines[..j + 1][..j] == lines[..j];
        status := AddLine(lines[j], aliases, scriptOf);
        if status.Raised? {
          LinesStopAtError(start, lines, j + 1, aliases, scriptOf);
          return;
        }
      }
      assert lines[..|lines|] == lines;
      status := Success;
    }
  }

  /** The script fields of all records, by language code. */
  ghost function Fields(languages: map<string, Language>): map<string, ScriptField>
    reads languages.Values
  {
    map code | code in languages :: languages[code].script
  }

  /** The body of the loop over the directory: a `.tsv` file is read into the
      record its name prefix selects. */
  method UpdateFromFile(languages: map<string, Language>, file: TsvFile, aliases: Aliases, scriptOf: char -> string)
    returns (status: Status)
    requires forall c, d :: c in languages && d in languages && c != d ==> languages[c] != languages[d]
    modifies languages.Values
    ensures status.Success? ==> FileStep(old(Fields(languages)), file, aliases, scriptOf) == Ok(Fields(languages))
    ensures status.Raised? ==> FileStep(old(Fields(languages)), file, aliases, scriptOf) == Err(status.error)
    ensures forall code :: code in languages ==> languages[code].properties == old(languages[code].properties)
  {
    if !IsTsv(file.name) {
      return Success;
    }
    if '_' !in file.name {
      return Raised(MissingUnderscore(file.name));
    }
    var code := Before(file.name, '_');
    if code !in languages {
      return Raised(UnknownLanguage(code));
    }
    ghost var before := Fields(languages);
    var language := languages[code];
    assert before[code] == language.script;
    status := language.AddLines(file.lines, aliases, scriptOf);
    if status.Success? {
      forall c | c in languages ensures Fields(languages)[c] == before[code := language.script][c] {
        assert c != code ==> languages[c] != language;
      }
      assert Fields(languages) == before[code := language.script];
    }
  }

  /** The loops of `_update_languages_json` over the directory's files and
      their lines; the records are distinct objects, as JSON parsing makes
      them. */
  method UpdateLanguages(languages: map<string, Language>, files: seq<TsvFile>, aliases: Aliases, scriptOf: char -> string)
    returns (status: Status)
    requires forall c, d :: c in languages && d in languages && c != d ==> languages[c] != languages[d]
    modifies languages.Values
    ensures status.Success? ==> UpdateAll(old(Fields(languages)), files, aliases, scriptOf) == Ok(Fields(languages))
    ensures status.Raised? ==> UpdateAll(old(Fields(languages)), files, aliases, scriptOf) == Err(status.error)
    ensures forall code :: code in languages ==> languages[code].properties == old(languages[code].properties)
  {
    ghost var initial := Fields(languages);
    for i := 0 to |files|
      invariant UpdateAll(initial, files[..i], aliases, scriptOf) == Ok(Fields(languages))
      invariant forall code :: code in languages ==> languages[code].properties == old(languages[code].properties)
    {
      assert files[..i + 1][..i] == files[..i];
      status := UpdateFromFile(languages, files[i], aliases, scriptOf);
      if status.Raised? {
        UpdateAllStopsAtError(initial, files, i + 1, aliases, scriptOf);
        return;
      }
    }
    assert files[..|files|] == files;
    status := Success;
  }

  // ---------------------------------------------------------------------------
  // Properties of the update
  // ---------------------------------------------------------------------------

  /** An exception ends the run: once a prefix of the lines fails, all of
      them fail with the same error. */
  lemma {:induction false} LinesStopAtError(field: ScriptField, lines: seq<string>, n: nat, aliases: Aliases, scriptOf: char -> string)
    requires n <= |lines|
    requires LinesStep(field, lines[..n], aliases, scriptOf).Err?
    ensures LinesStep(field, lines, aliases, scriptOf) == LinesStep(field, lines[..n], aliases, scriptOf)
    decreases |lines|
  {
    if n < |lines| {
      var front := lines[..|lines| - 1];
      assert front[..n] == lines[..n];
      LinesStopAtError(field, front, n, aliases, scriptOf);
    } else {
      assert lines[..n] == lines;
    }
  }

  /** An exception ends the run: once a prefix of the files fails, the whole
      directory fails with the same error. */
  lemma {:induction false} UpdateAllStopsAtError(fields: map<string, ScriptField>, files: seq<TsvFile>, n: nat, aliases: Aliases, scriptOf: char -> string)
    requires n <= |files|
    requires UpdateAll(fields, files[..n], aliases, scriptOf).Err?
    ensures UpdateAll(fields, files, aliases, scriptOf) == UpdateAll(fields, files[..n], aliases, scriptOf)
    decreases |files|
  {
    if n < |files| {
      var front := files[..|files| - 1];
      assert front[..n] == files[..n];
      UpdateAllStopsAtError(fields, front, n, aliases, scriptOf);
    } else {
      assert files[..n] == files;
    }
  }

  /** A line whose word is empty or mixes scripts leaves the record as it
      was: no "script" field is created. */
  lemma LineWithoutScriptChangesNothing(field: ScriptField, line: string, aliases: Aliases, scriptOf: char -> string)
    requires |Word(line)| == 0 || exists i, j :: 0 <= i < |Word(line)| && 0 <= j < |Word(line)| && scriptOf(Word(line)[i]) != scriptOf(Word(line)[j])
    ensures LineStep(field, line, aliases, scriptOf) == Ok(field)
  {
    StrictNeedsOneScript(Word(line), scriptOf);
  }

  /** After a line in a single script (with no space in its name, as in the
      Unicode tables) whose name is not a code of the table, the table maps
      the script's code to its name with spaces; a name the alias table lacks
      raises KeyError. */
  lemma LineRecordsScript(field: ScriptField, line: string, aliases: Aliases, scriptOf: char -> string, name: string)
    requires |Word(line)| > 0 && forall i :: 0 <= i < |Word(line)| ==> scriptOf(Word(line)[i]) == name
    requires ' ' !in name
    requires field.None? || name !in field.value
    ensures name !in aliases ==> LineStep(field, line, aliases, scriptOf) == Err(UnknownScriptName)
    ensures name in aliases && (field.None? || Named(aliases, field.value)) ==> LineStep(field, line, aliases, scriptOf).Ok?
    ensures LineStep(field, line, aliases, scriptOf).Ok? ==>
      && name in aliases
      && var after := LineStep(field, line, aliases, scriptOf).value;
      && after.Some? && aliases[name] in after.value && after.value[aliases[name]] == Replace(name, '_', ' ')
  {
    UniformWord(Word(line), true, scriptOf, name);
    UnderscoreRoundTrip(name);
  }

  /** The guard `if not script in lang["script"]` of `_update_languages_json`
      compares the detected name with the table's codes. When the name is also a code of the table, the name's own code is
      not inserted, and the cleanup that follows can leave the table without
      any entry for a script the alias table knows: a table {"latn": "latn"}
      and a word in script "latn" whose alias is "zzzz" give the empty table. */
  lemma GuardCanLoseDetectedScript(line: string, scriptOf: char -> string, name: string, code: string)
    requires |Word(line)| > 0 && forall i :: 0 <= i < |Word(line)| ==> scriptOf(Word(line)[i]) == name
    requires ' ' !in name && code != name
    ensures LineStep(Some(map[name := name]), line, map[name := code], scriptOf) == Ok(Some(map[]))
  {
    UniformWord(Word(line), true, scriptOf, name);
    ReplaceAbsent(name, ' ', '_');
    var aliases := map[name := code];
    assert Named(aliases, map[name := name]);
    assert Deduplicated(map[name := name], aliases).value.Keys == {};
  }

  /** If every table agrees with the alias table before the update, every
      table agrees with it after, and the set of languages is the same. */
  lemma {:induction false} UpdateAllConforms(fields: map<string, ScriptField>, files: seq<TsvFile>, aliases: Aliases, scriptOf: char -> string)
    requires forall code :: code in fields ==> fields[code].None? || AllConform(aliases, fields[code].value)
    requires UpdateAll(fields, files, aliases, scriptOf).Ok?
    ensures var after := UpdateAll(fields, files, aliases, scriptOf).value;
      && after.Keys == fields.Keys
      && forall code :: code in after ==> after[code].None? || AllConform(aliases, after[code].value)
    decreases |files|
  {
    if files != [] {
      var front := files[..|files| - 1];
      UpdateAllConforms(fields, front, aliases, scriptOf);
    }
  }

  /** Only `.tsv` files are read, each for the language named by its prefix:
      a language no such file names keeps its script field. */
  lemma {:induction false} UpdateAllTouchesOnlyNamedLanguages(fields: map<string, ScriptField>, files: seq<TsvFile>, aliases: Aliases, scriptOf: char -> string, code: string)
    requires code in fields
    requires forall k :: 0 <= k < |files| ==> !Feeds(files[k], code)
    requires UpdateAll(fields, files, aliases, scriptOf).Ok?
    ensures code in UpdateAll(fields, files, aliases, scriptOf).value
    ensures UpdateAll(fields, files, aliases, scriptOf).value[code] == fields[code]
    decreases |files|
  {
    if files != [] {
      var front := files[..|files| - 1];
      assert forall k :: 0 <= k < |front| ==> front[k] == files[k];
      UpdateAllTouchesOnlyNamedLanguages(fields, front, aliases, scriptOf, code);
      assert !Feeds(files[|files| - 1], code);
    }
  }

  // ---------------------------------------------------------------------------
  // A detected script reaches the table and stays there
  // ---------------------------------------------------------------------------

  /** The Unicode tables write script names with underscores, never spaces. */
  ghost predicate NamesWithoutSpaces(scriptOf: char -> string)
  {
    forall ch :: ' ' !in scriptOf(ch)
  }

  /** The entry under `code` is present and agrees with the alias table. */
  ghost predicate HoldsConforming(field: ScriptField, aliases: Aliases, code: string)
  {
    field.Some? && code in field.value && Conforms(aliases, code, field.value[code])
  }

  /** A successful line keeps an entry that agrees with the alias table: the
      cleanup keeps it, and an insertion under the same code stores a name
      whose alias is that code. */
  lemma LineStepKeepsConformingCode(field: ScriptField, line: string, aliases: Aliases, scriptOf: char -> string, code: string)
    requires NamesWithoutSpaces(scriptOf)
    requires HoldsConforming(field, aliases, code)
    requires LineStep(field, line, aliases, scriptOf).Ok?
    ensures HoldsConforming(LineStep(field, line, aliases, scriptOf).value, aliases, code)
  {
    var detection := BestScriptName(Word(line), true, scriptOf);
    if detection.Best? {
      InOrderIffOccurs(Word(line), scriptOf, detection.script);
      UnderscoreRoundTrip(detection.script);
    }
  }

  /** An entry that agrees with the alias table after the first `n` lines of
      a file is still there, still agreeing, after the whole file. */
  lemma {:induction false} LinesStepKeepsConformingCode(field: ScriptField, lines: seq<string>, n: nat, aliases: Aliases, scriptOf: char -> string, code: string)
    requires NamesWithoutSpaces(scriptOf)
    requires n <= |lines|
    requires LinesStep(field, lines[..n], aliases, scriptOf).Ok?
    requires HoldsConforming(LinesStep(field, lines[..n], aliases, scriptOf).value, aliases, code)
    requires LinesStep(field, lines, aliases, scriptOf).Ok?
    ensures HoldsConforming(LinesStep(field, lines, aliases, scriptOf).value, aliases, code)
    decreases |lines|
  {
    if n == |lines| {
      assert lines[..n] == lines;
    } else {
      var front := lines[..|lines| - 1];
      assert front[..n] == lines[..n];
      LinesStepKeepsConformingCode(field, front, n, aliases, scriptOf, code);
      LineStepKeepsConformingCode(LinesStep(field, front, aliases, scriptOf).value, lines[|lines| - 1], aliases, scriptOf, code);
    }
  }

  /** A line of a file whose word is in one script S records S: when the
      file is read without an exception, S has an alias, and the table at the
      end of the file holds an entry under that alias that agrees with the
      alias table (provided S is not already a code of the table when the
      line is read, which the guard `if not script in lang["script"]` would
      take for a hit). */
  lemma FileRecordsScript(field: ScriptField, lines: seq<string>, j: nat, aliases: Aliases, scriptOf: char -> string, name: string)
    requires NamesWithoutSpaces(scriptOf)
    requires j < |lines|
    requires |Word(lines[j])| > 0 && forall i :: 0 <= i < |Word(lines[j])| ==> scriptOf(Word(lines[j])[i]) == name
    requires LinesStep(field, lines[..j], aliases, scriptOf).Ok?
    requires var before := LinesStep(field, lines[..j], aliases, scriptOf).value; before.None? || name !in before.value
    requires LinesStep(field, lines, aliases, scriptOf).Ok?
    ensures name in aliases
    ensures HoldsConforming(LinesStep(field, lines, aliases, scriptOf).value, aliases, aliases[name])
  {
    var before := LinesStep(field, lines[..j], aliases, scriptOf).value;
    var upTo := lines[..j + 1];
    assert upTo[..j] == lines[..j] && upTo[j] == lines[j];
    var middle := LinesStep(field, upTo, aliases, scriptOf);
    assert middle == LineStep(before, lines[j], aliases, scriptOf);
    if middle.Err? {
      LinesStopAtError(field, lines, j + 1, aliases, scriptOf);
      assert false;
    }
    LineRecordsConformingEntry(before, lines[j], aliases, scriptOf, name);
    LinesStepKeepsConformingCode(field, lines, j + 1, aliases, scriptOf, aliases[name]);
  }

  /** One line in script S, when it succeeds, leaves an agreeing entry under
      the alias of S. */
  lemma LineRecordsConformingEntry(field: ScriptField, line: string, aliases: Aliases, scriptOf: char -> string, name: string)
    requires NamesWithoutSpaces(scriptOf)
    requires |Word(line)| > 0 && forall i :: 0 <= i < |Word(line)| ==> scriptOf(Word(line)[i]) == name
    requires field.None? || name !in field.value
    requires LineStep(field, line, aliases, scriptOf).Ok?
    ensures name in aliases
    ensures HoldsConforming(LineStep(field, line, aliases, scriptOf).value, aliases, aliases[name])
  {
    assert ' ' !in name by {
      assert scriptOf(Word(line)[0]) == name;
    }
    LineRecordsScript(field, line, aliases, scriptOf, name);
    UnderscoreRoundTrip(name);
  }

  /** An entry that agrees with the alias table in a language's table after
      the first `n` files is still there, still agreeing, after the whole
      directory: other files leave the language alone, and its own files keep
      the entry line by line. */
  lemma {:induction false} UpdateAllKeepsConformingCode(fields: map<string, ScriptField>, files: seq<TsvFile>, n: nat, aliases: Aliases, scriptOf: char -> string, language: string, code: string)
    requires NamesWithoutSpaces(scriptOf)
    requires n <= |files| && language in fields
    requires UpdateAll(fields, files[..n], aliases, scriptOf).Ok?
    requires HoldsConforming(UpdateAll(fields, files[..n], aliases, scriptOf).value[language], aliases, code)
    requires UpdateAll(fields, files, aliases, scriptOf).Ok?
    ensures HoldsConforming(UpdateAll(fields, files, aliases, scriptOf).value[language], aliases, code)
    decreases |files|
  {
    if n == |files| {
      assert files[..n] == files;
    } else {
      var front := files[..|files| - 1];
      assert front[..n] == files[..n];
      UpdateAllKeepsConformingCode(fields, front, n, aliases, scriptOf, language, code);
      var middle := UpdateAll(fields, front, aliases, scriptOf).value;
      var file := files[|files| - 1];
      if Feeds(file, language) {
        assert file.lines[..0] == [];
        LinesStepKeepsConformingCode(middle[language], file.lines, 0, aliases, scriptOf, code);
      }
    }
  }

  /** The promise of `_update_languages_json`: a line of the `i`-th file whose
      word is in one script S records S in the table of the language the
      file's name prefix selects, and the entry is still there when the whole
      directory has been read without an exception (provided S is not a code
      of that table when the line is read, which the guard
      `if not script in lang["script"]` would take for a hit). */
  lemma DirectoryRecordsScript(fields: map<string, ScriptField>, files: seq<TsvFile>, i: nat, j: nat, aliases: Aliases, scriptOf: char -> string, name: string)
    requires NamesWithoutSpaces(scriptOf)
    requires i < |files| && IsTsv(files[i].name) && '_' in files[i].name && Before(files[i].name, '_') in fields
    requires j < |files[i].lines|
    requires var word := Word(files[i].lines[j]);
      |word| > 0 && forall k :: 0 <= k < |word| ==> scriptOf(word[k]) == name
    requires UpdateAll(fields, files[..i], aliases, scriptOf).Ok?
    requires var field := UpdateAll(fields, files[..i], aliases, scriptOf).value[Before(files[i].name, '_')];
      && LinesStep(field, files[i].lines[..j], aliases, scriptOf).Ok?
      && var table := LinesStep(field, files[i].lines[..j], aliases, scriptOf).value;
         table.None? || name !in table.value
    requires UpdateAll(fields, files, aliases, scriptOf).Ok?
    ensures name in aliases
    ensures HoldsConforming(UpdateAll(fields, files, aliases, scriptOf).value[Before(files[i].name, '_')], aliases, aliases[name])
  {
    var language := Before(files[i].name, '_');
    var before := UpdateAll(fields, files[..i], aliases, scriptOf).value;
    assert files[..i + 1][..i] == files[..i];
    var after := UpdateAll(fields, files[..i + 1], aliases, scriptOf);
    if after.Err? {
      UpdateAllStopsAtError(fields, files, i + 1, aliases, scriptOf);
      assert false;
    }
    FileRecordsScript(before[language], files[i].lines, j, aliases, scriptOf, name);
    UpdateAllKeepsConformingCode(fields, files, i + 1, aliases, scriptOf, language, aliases[name]);
  }

  // ---------------------------------------------------------------------------
  // When the update raises nothing
  // ---------------------------------------------------------------------------

  /** The Unicode tables give every script an alias. */
  ghost predicate KnownScripts(scriptOf: char -> string, aliases: Aliases)
  {
    forall ch :: scriptOf(ch) in aliases
  }

  /** Every table of the records names only scripts the alias table knows. */
  ghost predicate AllNamed(fields: map<string, ScriptField>, aliases: Aliases)
  {
    forall code :: code in fields ==> fields[code].None? || Named(aliases, fields[code].value)
  }

  /** A line raises no KeyError when the script it detects has an alias and
      every name already in the table has one; the table it leaves again
      names only known scripts. */
  lemma LineStepSucceeds(field: ScriptField, line: string, aliases: Aliases, scriptOf: char -> string)
    requires NamesWithoutSpaces(scriptOf)
    requires field.None? || Named(aliases, field.value)
    requires BestScriptName(Word(line), true, scriptOf).Best? ==> BestScriptName(Word(line), true, scriptOf).script in aliases
    ensures LineStep(field, line, aliases, scriptOf).Ok?
    ensures var after := LineStep(field, line, aliases, scriptOf).value; after.None? || Named(aliases, after.value)
  {
    var detection := BestScriptName(Word(line), true, scriptOf);
    if detection.Best? {
      InOrderIffOccurs(Word(line), scriptOf, detection.script);
      UnderscoreRoundTrip(detection.script);
    }
  }

  /** The lines of a file raise nothing when every script has an alias and
      the table starts out naming only known scripts. */
  lemma {:induction false} LinesStepSucceeds(field: ScriptField, lines: seq<string>, aliases: Aliases, scriptOf: char -> string)
    requires NamesWithoutSpaces(scriptOf) && KnownScripts(scriptOf, aliases)
    requires field.None? || Named(aliases, field.value)
    ensures LinesStep(field, lines, aliases, scriptOf).Ok?
    ensures var after := LinesStep(field, lines, aliases, scriptOf).value; after.None? || Named(aliases, after.value)
    decreases |lines|
  {
    if lines != [] {
      var front := lines[..|lines| - 1];
      LinesStepSucceeds(field, front, aliases, scriptOf);
      var line := lines[|lines| - 1];
      var detection := BestScriptName(Word(line), true, scriptOf);
      if detection.Best? {
        InOrderIffOccurs(Word(line), scriptOf, detection.script);
      }
      LineStepSucceeds(LinesStep(field, front, aliases, scriptOf).value, line, aliases, scriptOf);
    }
  }

  /** The directory is read without an exception when every `.tsv` file name
      has a `_` and a known language before it, every script has an alias,
      and the tables start out naming only known scripts. */
  lemma {:induction false} UpdateAllSucceeds(fields: map<string, ScriptField>, files: seq<TsvFile>, aliases: Aliases, scriptOf: char -> string)
    requires NamesWithoutSpaces(scriptOf) && KnownScripts(scriptOf, aliases)
    requires AllNamed(fields, aliases)
    requires forall k :: 0 <= k < |files| && IsTsv(files[k].name) ==>
      '_' in files[k].name && Before(files[k].name, '_') in fields
    ensures UpdateAll(fields, files, aliases, scriptOf).Ok?
    ensures AllNamed(UpdateAll(fields, files, aliases, scriptOf).value, aliases)
    decreases |files|
  {
    if files != [] {
      var front := files[..|files| - 1];
      assert forall k :: 0 <= k < |front| ==> front[k] == files[k];
      UpdateAllSucceeds(fields, front, aliases, scriptOf);
      var middle := UpdateAll(fields, front, aliases, scriptOf).value;
      var file := files[|files| - 1];
      if IsTsv(file.name) {
        var code := Before(file.name, '_');
        LinesStepSucceeds(middle[code], file.lines, aliases, scriptOf);
      }
    }
  }
}
