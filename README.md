# languages.json script update, modelled in Dafny

`data/src/languages_update.py` (in the WikiPron data tooling) fills the
`"script"` field of each language record of `languages.json`. The field maps
ISO 15924 codes to Unicode script names. The tool reads every `.tsv`
pronunciation file. It takes the file's language from the file name prefix
before the first `_`. For every line, it detects the script of the line's
word and records that script in the language's table. After each line
whose word is in a single script, it removes the table entries whose code
disagrees with Unicode's alias table.

This project models that core in Dafny 4.11, in four modules:

- `Results` (`results.dfy`): the exceptions the tool does not catch, and the
  result types that carry them.
- `ScriptDetection` (`script_detection.dfy`): `_detect_best_script_name`.
  - `CountScripts` is the counting loop. It fills a dict from script to
    count, and its keys keep insertion order.
  - `SortByCount` is the stable descending `list.sort`.
  - `DetectBestScriptName` is the whole function. It is proved equal to the
    specification `BestScriptName`.
  - Lemmas about the histogram and the result follow: strict mode, uniform
    words, the maximum, and tie-breaking.
- `ScriptTable` (`script_table.dfy`): the cleanup rule of `_remove_duplicates`,
  given as the function `Deduplicated`. The module proves that it filters
  the table, that it is idempotent, and that `_` → space → `_` round-trips.
- `LanguagesUpdate` (`languages_update.dfy`): the loops of
  `_update_languages_json`.
  - `Language` is a class whose `script` field the methods
    `RemoveDuplicates`, `AddLine` and `AddLines` update in place.
    `UpdateLanguages` runs the directory loop over a map of such records,
    one `UpdateFromFile` per file.
  - Each method is proved against a specification function: `Deduplicated`,
    `LineStep`, `LinesStep`, `FileStep` or `UpdateAll`.
  - Lemmas about those functions state the promised properties. The main
    one, `DirectoryRecordsScript`, says that a detected script reaches the
    table of the language named by the file, and is still there at the end.
    This holds when the directory is read without an exception, and when
    the script name is not then a code of the table. `UpdateAllSucceeds`
    says when no exception is raised.

Modelling choices:

- The Unicode script of a character (`unicodedataplus.script`) is the
  parameter `scriptOf: char -> string`.
- The script alias table (`property_value_aliases['script']`, already joined
  and lower-cased) is the parameter `aliases: map<string, string>`. A name
  outside it is the uncaught `KeyError`, modelled as `UnknownScriptName`.
- The probability `count / len(word)` is the pair `Best(script, count, length)`.
  The sort compares counts, which orders the shares the same way because the
  denominator is shared.
- `None` from the detector makes the tuple unpacking raise `TypeError`. The
  tool swallows it, so the record is left unchanged (`LineStep` returns
  `Ok(field)`).
- `str.index("_")` on a `.tsv` name without `_` raises `ValueError`
  (`MissingUnderscore`). An unknown language code raises `KeyError`
  (`UnknownLanguage`). Either one ends the run before anything is written.
- A line is taken as the file iterator yields it, with its line terminator.
  A line without a tab is its own word, terminator included.
- The guard at line 104 tests the script *name* against the table's *codes*.
  It is modelled as written. When a name happens to be a code of the table,
  nothing is inserted, and `LineRecordsScript` therefore assumes it is not.
  `GuardCanLoseDetectedScript` shows the consequence: the cleanup can then
  leave no entry at all for the detected script.
- The lemmas that follow a recorded script through later lines and files
  assume what the Unicode tables guarantee: no script name contains a space
  (`NamesWithoutSpaces`).

Where the documentation and the code disagree, the model follows the code:

- The docstring of `_remove_duplicates` (lines 40-42) says entries are removed
  only when a name appears more than once. The code removes every entry whose
  code disagrees with the alias table. `DropsUniqueNonConforming` shows a
  lone entry being dropped.
- The docstring of `_detect_best_script_name` (lines 20-21) says `(None, None)`
  is returned on failure. The code returns `None`.

## Model

| member | source | states |
|---|---|---|
| ScriptDetection.ScriptsInOrder | data/src/languages_update.py:25-28 | the histogram's keys are pairwise distinct (a dict's keys in insertion order) |
| ScriptDetection.CountScripts | data/src/languages_update.py:25-27 | the counting loop ends with each script's key present exactly when the script occurs, its count equal to the number of characters in that script, and keys in first-occurrence order |
| ScriptDetection.SortByCount | data/src/languages_update.py:29 | sorting by count in reverse gives a permutation of the entries, in descending order of count |
| ScriptDetection.FirstMaxIndex | data/src/languages_update.py:28-29 | picks an entry whose count is at least every other count, and strictly greater than the count of every entry before it |
| ScriptDetection.BestScriptName | data/src/languages_update.py:25-36 | the specified detection: the IndexError exactly for an empty word in non-strict mode, None only in strict mode, where a script is returned exactly when the word has one script; a returned script occurs in the word, with its true count (at least 1) over the word length |
| ScriptDetection.SortedHeadIsFirstMax | data/src/languages_update.py:29-36 | because the sort is stable, its first entry is the first most frequent entry of the unsorted list |
| ScriptDetection.DetectBestScriptName | data/src/languages_update.py:14-36 | counting, listing, sorting and picking the head returns exactly the specified detection (None in strict mode unless there is one script, IndexError on an empty non-strict word, else the top script with its count and the word length) |
| ScriptDetection.InOrderIffOccurs | data/src/languages_update.py:25-27 | a script is a histogram key if and only if some character of the word is in that script |
| ScriptDetection.OccurrencesOutsideOrder | data/src/languages_update.py:25-27 | a script that is not a key counts no character |
| ScriptDetection.OccurrencesInOrder | data/src/languages_update.py:25-27 | every key counts at least one character |
| ScriptDetection.HistogramSumsToLength | data/src/languages_update.py:25-27 | the histogram's counts add up to the length of the word |
| ScriptDetection.OrderFollowsFirstOccurrence | data/src/languages_update.py:25-28 | every character of a later key is preceded by a character of each earlier key |
| ScriptDetection.StrictNeedsOneScript | data/src/languages_update.py:30-31 | in strict mode a script is returned if and only if the word is non-empty and all its characters share one script, and strict mode never hits the IndexError |
| ScriptDetection.UniformWord | data/src/languages_update.py:23-36 | a non-empty word in one script S gives (S, count = length), i.e. probability 1.0, as in the docstring example |
| ScriptDetection.BestIsMostFrequent | data/src/languages_update.py:28-36 | the returned count is the returned script's number of characters, at least 1, with the word length as denominator, and no script is more frequent |
| ScriptDetection.TiesGoToFirstOccurrence | data/src/languages_update.py:28-36 | among equally frequent scripts, the one whose first character comes earliest in the word is returned |
| ScriptTable.Replace | data/src/languages_update.py:76 | `str.replace` of one character: same length, each character replaced where it matches and kept otherwise |
| ScriptTable.UnderscoreRoundTrip | data/src/languages_update.py:105-107 | a script name without spaces, stored with `_` turned into spaces, gives the name back when its spaces are turned back into `_` |
| ScriptTable.Deduplicated | data/src/languages_update.py:73-80 | KeyError exactly when some name is missing from the alias table; otherwise the result keeps exactly the entries whose code is the alias of their name, with their values, and adds no key |
| ScriptTable.DeduplicatedConforms | data/src/languages_update.py:75-80 | after the cleanup every remaining code is the alias of its name |
| ScriptTable.DeduplicatedIdempotent | data/src/languages_update.py:73-80 | cleaning a cleaned table changes nothing |
| ScriptTable.DeduplicatedKeepsConforming | data/src/languages_update.py:75-80 | a table that already agrees with the alias table is kept whole |
| ScriptTable.DuplicateNameKeepsItsCode | data/src/languages_update.py:44-70 | the docstring example: of two codes with the same name, the name's own code stays and the other goes |
| ScriptTable.DropsUniqueNonConforming | data/src/languages_update.py:75-78 | a lone entry whose code is not its name's alias is dropped too, unlike what the docstring says |
| LanguagesUpdate.Before | data/src/languages_update.py:94-99 | the text before the first occurrence of a character: a prefix that does not contain it, followed by the character unless it is the whole string |
| LanguagesUpdate.Word | data/src/languages_update.py:99 | the word of a line is the prefix before its first tab: it contains no tab, and it is followed by a tab unless it is the whole line |
| LanguagesUpdate.IsTsv | data/src/languages_update.py:93 | `endswith('.tsv')`: true exactly when the name is some stem followed by `.tsv` |
| LanguagesUpdate.LineStep | data/src/languages_update.py:99-110 | one line raises only the KeyError of an unknown script name, and only when a script was detected; otherwise it leaves the field as it was, or, when a script was detected, a table that agrees with the alias table |
| LanguagesUpdate.LinesStep | data/src/languages_update.py:97-110 | the lines of a file, in order, stopping at the first uncaught exception: only the alias KeyError can end it, and the field is either unchanged or a table that agrees with the alias table |
| LanguagesUpdate.FileStep | data/src/languages_update.py:93-96 | a non-`.tsv` file changes nothing; a `.tsv` name without `_` raises ValueError for that name, and a ValueError comes only from such a name; an unknown prefix raises KeyError for that prefix, and such a KeyError comes only from it; the alias KeyError comes only from the file's lines failing; otherwise the language named by the prefix receives exactly the result of the file's lines, every other language is unchanged and no language is added |
| LanguagesUpdate.UpdateAll | data/src/languages_update.py:92-110 | the files in listing order: on success the same languages as before; a ValueError names a `.tsv` file of the directory without `_`; a KeyError for a language names a code that is no language but is the prefix of a `.tsv` file |
| LanguagesUpdate.Language.RemoveDuplicates | data/src/languages_update.py:73-81 | the two loops (collect, then delete) leave the table that `Deduplicated` specifies, or raise KeyError with the table untouched |
| LanguagesUpdate.Language.AddLine | data/src/languages_update.py:98-110 | one line (split, detect, create the table, insert under the guard, clean) leaves the field that `LineStep` specifies, or raises the error it specifies |
| LanguagesUpdate.Language.AddLines | data/src/languages_update.py:97-110 | the loop over a file's lines leaves the field that `LinesStep` specifies, or raises its error |
| LanguagesUpdate.UpdateFromFile | data/src/languages_update.py:93-110 | one pass of the directory loop (filter, prefix, record lookup, the file's lines) updates the records' script fields as `FileStep` specifies, or raises its error, and leaves the records' other fields untouched |
| LanguagesUpdate.UpdateLanguages | data/src/languages_update.py:92-110 | the loop over the files updates every record's script field as `UpdateAll` specifies, or raises its error, and leaves the other fields of every record untouched |
| LanguagesUpdate.LinesStopAtError | data/src/languages_update.py:97-110 | an exception that is not caught ends the run: once a prefix of the lines fails, all lines fail with the same error |
| LanguagesUpdate.UpdateAllStopsAtError | data/src/languages_update.py:92-110 | once a prefix of the files fails, the whole directory fails with the same error |
| LanguagesUpdate.LineWithoutScriptChangesNothing | data/src/languages_update.py:99-110 | a line whose word is empty or mixes scripts leaves the record as it was, and no "script" field is created |
| LanguagesUpdate.LineRecordsScript | data/src/languages_update.py:101-108 | for a line in one script S (no space in S, S not a code of the table): if S has no alias the line raises KeyError; if S and every name of the table have one, the line raises nothing; on success the table maps the alias of S to S with spaces |
| LanguagesUpdate.GuardCanLoseDetectedScript | data/src/languages_update.py:104-108 | the guard tests the name against the table's codes: a line in script S applied to the table {S: S}, with an alias of S other than S, ends with the empty table, so the alias of S is never recorded |
| LanguagesUpdate.LineStepKeepsConformingCode | data/src/languages_update.py:101-108 | a successful line keeps every entry that agrees with the alias table: the cleanup keeps it, and an insertion under the same code stores a name whose alias is that code |
| LanguagesUpdate.LinesStepKeepsConformingCode | data/src/languages_update.py:97-108 | an agreeing entry present after some lines of a file is still present, still agreeing, after the whole file |
| LanguagesUpdate.LineRecordsConformingEntry | data/src/languages_update.py:101-108 | a successful line in one script S (not then a code of the table) leaves an entry under the alias of S that agrees with the alias table |
| LanguagesUpdate.FileRecordsScript | data/src/languages_update.py:97-108 | a line whose word is in one script S (not then a code of the table) records S: if the file raises nothing, S has an alias and the table at the end of the file holds an agreeing entry under it |
| LanguagesUpdate.UpdateAllKeepsConformingCode | data/src/languages_update.py:92-108 | an agreeing entry of a language's table present after some files is still present, still agreeing, after the whole directory |
| LanguagesUpdate.DirectoryRecordsScript | data/src/languages_update.py:85-108 | the docstring's promise: a line of a `.tsv` file whose word is in one script S puts an entry for S's ISO 15924 code into the table of the language named by the file's prefix, and it is still there when the whole directory has been read without an exception |
| LanguagesUpdate.LineStepSucceeds | data/src/languages_update.py:99-108 | a line raises no KeyError when the script it detects has an alias and every name already in the table has one, and the table it leaves again names only known scripts |
| LanguagesUpdate.LinesStepSucceeds | data/src/languages_update.py:97-108 | when every script has an alias and the table starts out naming only known scripts, the lines of a file raise nothing and keep the table so |
| LanguagesUpdate.UpdateAllSucceeds | data/src/languages_update.py:92-108 | when every `.tsv` name has a `_` and a known language before it, every script has an alias, and every table names only known scripts, the whole directory is read without an exception and every table still names only known scripts |
| LanguagesUpdate.UpdateAllConforms | data/src/languages_update.py:92-108 | if every table agrees with the alias table before the update, every table agrees after it, and the set of languages is unchanged |
| LanguagesUpdate.UpdateAllTouchesOnlyNamedLanguages | data/src/languages_update.py:92-95 | only `.tsv` files are read, each for the language named by its prefix before the first `_`, so every other language keeps its script field |

## Left out

- Reading `languages.json`, listing the TSV directory, opening files,
  decoding UTF-8, writing the output file and `main`'s command line
  (lines 90-92, 96, 111-127). These are I/O. A directory is modelled as a
  list of files with their lines, in listing order.
- The Unicode data of `unicodedataplus`. It is a foreign library, so the
  script of a character and the alias table are parameters.
- Floating-point probabilities. The count and the length are kept as
  integers. The `+= 1.0` float counter is exact for any realistic word length.
- Python dict order of the `"script"` table. The table is a Dafny `map`, so
  the key order of the written JSON is not modelled. For the same reason,
  which missing name `_remove_duplicates` reports first is not modelled
  either, and `UnknownScriptName` carries no name.
- ScriptDetection.SortByCount: stability is proved only for the first entry,
  by SortedHeadIsFirstMax, which is all the source uses. Stability of the
  other entries is not stated.
- Other `TypeError`s that the `except` at line 109 would also swallow. Only
  the one from unpacking `None` can arise in the modelled code.
