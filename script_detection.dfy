/** The script detector of languages_update.py: a histogram of the Unicode
    script of every character of a word, sorted by frequency, whose top entry
    is the word's script. The Unicode script table is the parameter
    `scriptOf`; a probability `count / |word|` is kept as its two integers. */
module ScriptDetection {

  /** One histogram entry: a script name and how many characters use it. */
  type Share = (string, nat)

  /** The result of `_detect_best_script_name`. */
  datatype Detection =
    | Best(script: string, count: nat, length: nat)  // (script, count / length)
    | NoScript                                       // None: strict mode saw zero or several scripts
    | EmptyHistogram                                 // IndexError: non-strict mode on the empty word

  // ---------------------------------------------------------------------------
  // The histogram, specified character by character
  // ---------------------------------------------------------------------------

  /** How many characters of `word` belong to script `s`. */
  function Occurrences(word: string, scriptOf: char -> string, s: string): (n: nat)
    ensures n <= |word|
    decreases |word|
  {
    if word == [] then 0
    else Occurrences(word[..|word| - 1], scriptOf, s) + (if scriptOf(word[|word| - 1]) == s then 1 else 0)
  }

  ghost predicate Distinct(names: seq<string>)
  {
    forall i, j :: 0 <= i < j < |names| ==> names[i] != names[j]
  }

  /** The keys of the histogram in the order a Python dict keeps them: each
      script once, in the order of its first character in `word`. */
  function ScriptsInOrder(word: string, scriptOf: char -> string): (r: seq<string>)
    ensures Distinct(r)
    decreases |word|
  {
    if word == [] then []
    else
      var prefix := ScriptsInOrder(word[..|word| - 1], scriptOf);
      var s := scriptOf(word[|word| - 1]);
      if s in prefix then prefix else prefix + [s]
  }

  /** The histogram over the scripts `order`, as the list of pairs the
      source builds before sorting. */
  function Tally(order: seq<string>, word: string, scriptOf: char -> string): seq<Share>
  {
    seq(|order|, i requires 0 <= i < |order| => (order[i], Occurrences(word, scriptOf, order[i])))
  }

  /** The histogram of `word`, in first-occurrence order. */
  function Shares(word: string, scriptOf: char -> string): seq<Share>
  {
    Tally(ScriptsInOrder(word, scriptOf), word, scriptOf)
  }

  function TotalCount(shares: seq<Share>): nat
  {
    if shares == [] then 0 else TotalCount(shares[..|shares| - 1]) + shares[|shares| - 1].1
  }

  // ---------------------------------------------------------------------------
  // Sorting by frequency
  // ---------------------------------------------------------------------------

  ghost predicate Descending(shares: seq<Share>)
  {
    forall i, j :: 0 <= i < j < |shares| ==> shares[i].1 >= shares[j].1
  }

  /** Puts `x` in front of the first entry of `sorted` that is not more
      frequent than it. */
  function Insert(x: Share, sorted: seq<Share>): (r: seq<Share>)
    ensures |r| == |sorted| + 1
    ensures multiset(r) == multiset(sorted) + multiset{x}
  {
    if sorted == [] || sorted[0].1 <= x.1 then [x] + sorted
    else
      assert sorted == [sorted[0]] + sorted[1..];
      [sorted[0]] + Insert(x, sorted[1..])
  }

  ghost predicate AtMost(shares: seq<Share>, bound: nat)
  {
    forall i :: 0 <= i < |shares| ==> shares[i].1 <= bound
  }

  lemma {:induction false} InsertAtMost(x: Share, sorted: seq<Share>, bound: nat)
    requires AtMost(sorted, bound) && x.1 <= bound
    ensures AtMost(Insert(x, sorted), bound)
  {
    if sorted != [] && sorted[0].1 > x.1 {
      InsertAtMost(x, sorted[1..], bound);
    }
  }

  /** Inserting into a descending list keeps it descending. */
  lemma {:induction false} InsertKeepsDescending(x: Share, sorted: seq<Share>)
    requires Descending(sorted)
    ensures Descending(Insert(x, sorted))
  {
    if sorted != [] && sorted[0].1 > x.1 {
      var tail := sorted[1..];
      InsertKeepsDescending(x, tail);
      InsertAtMost(x, tail, sorted[0].1);
    }
  }

  /** The source's `sort(key=count, reverse=True)`: a stable sort in
      descending order of frequency, so equally frequent scripts keep their
      first-occurrence order. */
  function SortByCount(shares: seq<Share>): (r: seq<Share>)
    ensures |r| == |shares|
    ensures multiset(r) == multiset(shares)
    ensures Descending(r)
  {
    if shares == [] then []
    else
      assert shares == [shares[0]] + shares[1..];
      InsertKeepsDescending(shares[0], SortByCount(shares[1..]));
      Insert(shares[0], SortByCount(shares[1..]))
  }

  /** The position of the first most frequent entry. */
  function FirstMaxIndex(shares: seq<Share>): (i: nat)
    requires shares != []
    ensures i < |shares|
    ensures forall j :: 0 <= j < |shares| ==> shares[j].1 <= shares[i].1
    ensures forall j :: 0 <= j < i ==> shares[j].1 < shares[i].1
  {
    if |shares| == 1 then 0
    else
      var k := 1 + FirstMaxIndex(shares[1..]);
      if shares[0].1 >= shares[k].1 then 0 else k
  }

  /** What `_detect_best_script_name(word, strict)` returns. */
  function BestScriptName(word: string, strict: bool, scriptOf: char -> string): (r: Detection)
    ensures r.EmptyHistogram? <==> !strict && word == []
    ensures r.NoScript? ==> strict
    ensures strict ==> (r.Best? <==> |ScriptsInOrder(word, scriptOf)| == 1)
    ensures r.Best? ==> r.script in ScriptsInOrder(word, scriptOf) && r.length == |word|
    ensures r.Best? ==> 1 <= r.count == Occurrences(word, scriptOf, r.script)
  {
    var shares := Shares(word, scriptOf);
    assert word != [] ==> ScriptsInOrder(word, scriptOf) != [];
    if strict && |shares| != 1 then NoScript
    else if shares == [] then EmptyHistogram
    else
      var top := shares[FirstMaxIndex(shares)];
      OccurrencesInOrder(word, scriptOf, top.0);
      Best(top.0, top.1, |word|)
  }

  // ---------------------------------------------------------------------------
  // The detector as the source runs it
  // ---------------------------------------------------------------------------

  /** The counting loop: a dict from script to count, filled character by
      character, with its keys in insertion order. */
  method CountScripts(word: string, scriptOf: char -> string) returns (counts: map<string, nat>, order: seq<string>)
    ensures order == ScriptsInOrder(word, scriptOf)
    ensures forall s :: s in counts <==> s in order
    ensures forall s :: s in counts ==> counts[s] == Occurrences(word, scriptOf, s)
  {
    counts, order := map[], [];
    for i := 0 to |word|
      invariant order == ScriptsInOrder(word[..i], scriptOf)
      invariant forall s :: s in counts <==> s in order
      invariant forall s :: s in counts ==> counts[s] == Occurrences(word[..i], scriptOf, s)
    {
      assert word[..i + 1][..i] == word[..i];
      var s := scriptOf(word[i]);
      if s in counts {
        counts := counts[s := counts[s] + 1];
      } else {
        OccurrencesOutsideOrder(word[..i], scriptOf, s);
        counts := counts[s := 1];
        order := order + [s];
      }
    }
    assert word[..|word|] == word;
  }

  /** Counts the script of every character, lists the counts, sorts them by
      frequency and returns the first. */
  method DetectBestScriptName(word: string, strict: bool, scriptOf: char -> string) returns (r: Detection)
    ensures r == BestScriptName(word, strict, scriptOf)
  {
    var counts, order := CountScripts(word, scriptOf);
    var probs := seq(|order|, k requires 0 <= k < |order| => (order[k], counts[order[k]]));
    assert probs == Shares(word, scriptOf);
    var sorted := SortByCount(probs);
    if strict && |sorted| != 1 {
      r := NoScript;
    } else if |sorted| == 0 {
      r := EmptyHistogram;
    } else {
      SortedHeadIsFirstMax(probs);
      r := Best(sorted[0].0, sorted[0].1, |word|);
    }
  }

  // ---------------------------------------------------------------------------
  // Properties of the histogram
  // ---------------------------------------------------------------------------

  /** A script is a key of the histogram exactly when some character of the
      word belongs to it. */
  lemma {:induction false} InOrderIffOccurs(word: string, scriptOf: char -> string, s: string)
    ensures s in ScriptsInOrder(word, scriptOf) <==> exists k :: 0 <= k < |word| && scriptOf(word[k]) == s
    decreases |word|
  {
    if word != [] {
      var prefix := word[..|word| - 1];
      InOrderIffOccurs(prefix, scriptOf, s);
      if s in ScriptsInOrder(prefix, scriptOf) {
        var k :| 0 <= k < |prefix| && scriptOf(prefix[k]) == s;
        assert word[k] == prefix[k];
      }
      if exists k :: 0 <= k < |word| && scriptOf(word[k]) == s {
        var k :| 0 <= k < |word| && scriptOf(word[k]) == s;
        if k < |prefix| {
          assert prefix[k] == word[k];
        }
      }
    }
  }

  /** A script outside the histogram's keys counts no character. */
  lemma {:induction false} OccurrencesOutsideOrder(word: string, scriptOf: char -> string, s: string)
    requires s !in ScriptsInOrder(word, scriptOf)
    ensures Occurrences(word, scriptOf, s) == 0
    decreases |word|
  {
    if word != [] {
      OccurrencesOutsideOrder(word[..|word| - 1], scriptOf, s);
    }
  }

  /** A script among the histogram's keys counts at least one character. */
  lemma {:induction false} OccurrencesInOrder(word: string, scriptOf: char -> string, s: string)
    requires s in ScriptsInOrder(word, scriptOf)
    ensures Occurrences(word, scriptOf, s) >= 1
    decreases |word|
  {
    var prefix := word[..|word| - 1];
    if s in ScriptsInOrder(prefix, scriptOf) {
      OccurrencesInOrder(prefix, scriptOf, s);
    }
  }

  lemma TallyPrefix(order: seq<string>, word: string, scriptOf: char -> string)
    requires order != []
    ensures Tally(order, word, scriptOf)[..|order| - 1] == Tally(order[..|order| - 1], word, scriptOf)
  {
  }

  /** Adding the last character of the word adds one to the histogram's total
      when its script is already among `order`, and nothing otherwise. */
  lemma {:induction false} TallyGrows(order: seq<string>, word: string, scriptOf: char -> string)
    requires word != [] && Distinct(order)
    ensures TotalCount(Tally(order, word, scriptOf))
         == TotalCount(Tally(order, word[..|word| - 1], scriptOf)) + (if scriptOf(word[|word| - 1]) in order then 1 else 0)
    decreases |order|
  {
    if order != [] {
      var front := order[..|order| - 1];
      assert Distinct(front);
      TallyPrefix(order, word, scriptOf);
      TallyPrefix(order, word[..|word| - 1], scriptOf);
      TallyGrows(front, word, scriptOf);
      assert scriptOf(word[|word| - 1]) in order <==>
        scriptOf(word[|word| - 1]) in front || scriptOf(word[|word| - 1]) == order[|order| - 1];
    }
  }

  /** The histogram's counts add up to the length of the word. */
  lemma {:induction false} HistogramSumsToLength(word: string, scriptOf: char -> string)
    ensures TotalCount(Shares(word, scriptOf)) == |word|
    decreases |word|
  {
    if word != [] {
      var prefix := word[..|word| - 1];
      var s := scriptOf(word[|word| - 1]);
      var before := ScriptsInOrder(prefix, scriptOf);
      HistogramSumsToLength(prefix, scriptOf);
      TallyGrows(before, word, scriptOf);
      if s !in before {
        var order := before + [s];
        TallyPrefix(order, word, scriptOf);
        assert order[..|order| - 1] == before;
        OccurrencesOutsideOrder(prefix, scriptOf, s);
      }
    }
  }

  /** The first entry of the stable descending sort is the first most
      frequent entry of the unsorted list. */
  lemma {:induction false} SortedHeadIsFirstMax(shares: seq<Share>)
    requires shares != []
    ensures SortByCount(shares)[0] == shares[FirstMaxIndex(shares)]
  {
    if |shares| > 1 {
      SortedHeadIsFirstMax(shares[1..]);
    }
  }

  /** Histogram keys that come earlier first occur earlier in the word: any
      character of a later key is preceded by one of each earlier key. */
  lemma {:induction false} OrderFollowsFirstOccurrence(word: string, scriptOf: char -> string, p: nat, q: nat, k: nat)
    requires p < q < |ScriptsInOrder(word, scriptOf)|
    requires k < |word| && scriptOf(word[k]) == ScriptsInOrder(word, scriptOf)[q]
    ensures exists k' :: 0 <= k' < k && scriptOf(word[k']) == ScriptsInOrder(word, scriptOf)[p]
    decreases |word|
  {
    var prefix := word[..|word| - 1];
    var before := ScriptsInOrder(prefix, scriptOf);
    var order := ScriptsInOrder(word, scriptOf);
    assert before <= order;
    if k < |prefix| {
      assert prefix[k] == word[k];
      InOrderIffOccurs(prefix, scriptOf, order[q]);
      assert order[q] in before;
      assert q < |before|;
      OrderFollowsFirstOccurrence(prefix, scriptOf, p, q, k);
      var k' :| 0 <= k' < k && scriptOf(prefix[k']) == before[p];
      assert word[k'] == prefix[k'];
    } else {
      assert order[p] == before[p];
      InOrderIffOccurs(prefix, scriptOf, order[p]);
      var k' :| 0 <= k' < |prefix| && scriptOf(prefix[k']) == order[p];
      assert word[k'] == prefix[k'];
    }
  }

  // ---------------------------------------------------------------------------
  // Properties of the detector
  // ---------------------------------------------------------------------------

  /** In strict mode a script is returned exactly when the word is not empty
      and all its characters share one script; strict mode never fails on
      the empty histogram. */
  lemma StrictNeedsOneScript(word: string, scriptOf: char -> string)
    ensures BestScriptName(word, true, scriptOf) != EmptyHistogram
    ensures BestScriptName(word, true, scriptOf).Best? <==>
      (|word| > 0 && forall i, j :: 0 <= i < |word| && 0 <= j < |word| ==> scriptOf(word[i]) == scriptOf(word[j]))
  {
    var order := ScriptsInOrder(word, scriptOf);
    if BestScriptName(word, true, scriptOf).Best? {
      assert |order| == 1;
      forall i | 0 <= i < |word| ensures scriptOf(word[i]) == order[0] {
        InOrderIffOccurs(word, scriptOf, scriptOf(word[i]));
      }
    } else if |word| > 0 && forall i, j :: 0 <= i < |word| && 0 <= j < |word| ==> scriptOf(word[i]) == scriptOf(word[j]) {
      OnlyScript(word, scriptOf, scriptOf(word[0]));
    }
  }

  /** A word written in one script has that script as its only key. */
  lemma OnlyScript(word: string, scriptOf: char -> string, s: string)
    requires |word| > 0 && forall i :: 0 <= i < |word| ==> scriptOf(word[i]) == s
    ensures ScriptsInOrder(word, scriptOf) == [s]
  {
    var order := ScriptsInOrder(word, scriptOf);
    InOrderIffOccurs(word, scriptOf, s);
    forall t | t in order ensures t == s {
      InOrderIffOccurs(word, scriptOf, t);
    }
  }

  /** A word whose characters are all in script `s` gives `s` with
      probability 1, strict or not (the source's example: "ژۇرنال" gives
      ("Arabic", 1.0)). */
  lemma UniformWord(word: string, strict: bool, scriptOf: char -> string, s: string)
    requires |word| > 0 && forall i :: 0 <= i < |word| ==> scriptOf(word[i]) == s
    ensures BestScriptName(word, strict, scriptOf) == Best(s, |word|, |word|)
  {
    OnlyScript(word, scriptOf, s);
    HistogramSumsToLength(word, scriptOf);
    var shares := Shares(word, scriptOf);
    assert shares[..0] == [];
  }

  /** The returned script is the most frequent one: its count is that of its
      characters, it occurs in the word, and no script counts more. */
  lemma BestIsMostFrequent(word: string, strict: bool, scriptOf: char -> string, other: string)
    requires BestScriptName(word, strict, scriptOf).Best?
    ensures var r := BestScriptName(word, strict, scriptOf);
      && r.length == |word|
      && r.count == Occurrences(word, scriptOf, r.script) >= 1
      && (exists k :: 0 <= k < |word| && scriptOf(word[k]) == r.script)
      && Occurrences(word, scriptOf, other) <= r.count
  {
    var order := ScriptsInOrder(word, scriptOf);
    var shares := Shares(word, scriptOf);
    var i := FirstMaxIndex(shares);
    OccurrencesInOrder(word, scriptOf, order[i]);
    InOrderIffOccurs(word, scriptOf, order[i]);
    if other in order {
      var j :| 0 <= j < |order| && order[j] == other;
      assert shares[j].1 <= shares[i].1;
    } else {
      OccurrencesOutsideOrder(word, scriptOf, other);
    }
  }

  /** Ties go to the script met first: any character whose script is as
      frequent as the returned one is at or after a character of the
      returned script. */
  lemma TiesGoToFirstOccurrence(word: string, strict: bool, scriptOf: char -> string, k: nat)
    requires BestScriptName(word, strict, scriptOf).Best?
    requires k < |word|
    requires Occurrences(word, scriptOf, scriptOf(word[k])) == BestScriptName(word, strict, scriptOf).count
    ensures exists k' :: 0 <= k' <= k && scriptOf(word[k']) == BestScriptName(word, strict, scriptOf).script
  {
    var order := ScriptsInOrder(word, scriptOf);
    var shares := Shares(word, scriptOf);
    var q := FirstMaxIndex(shares);
    var t := scriptOf(word[k]);
    InOrderIffOccurs(word, scriptOf, t);
    var p :| 0 <= p < |order| && order[p] == t;
    if p != q {
      assert shares[p].1 == shares[q].1;
      assert q < p;
      OrderFollowsFirstOccurrence(word, scriptOf, q, p, k);
    }
  }
}
