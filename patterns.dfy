/**
 * The filename rules of main.py: `FILENAME_PATTERNS`, each a regular expression
 * `<prefix>.*\.csv` compiled with `re.IGNORECASE` and applied with `re.match`, and the
 * `.csv` and "historical" tests `find_latest_files` makes on the name taken from a URL.
 */
module Patterns {
  import opened Wrappers
  import opened Text

  /** The pattern `re.compile(prefix + r".*\.csv", re.IGNORECASE)`, stored under `key`. */
  datatype Pattern = Pattern(key: string, prefix: string)

  /** `FILENAME_PATTERNS`, in declaration order. */
  const FilenamePatterns: seq<Pattern> := [
    Pattern("borough", "MPS Borough Level Crime"),
    Pattern("lsoa", "MPS LSOA Level Crime"),
    Pattern("ward", "MPS Ward Level Crime")
  ]

  function Keys(patterns: seq<Pattern>): seq<string> {
    seq(|patterns|, i requires 0 <= i < |patterns| => patterns[i].key)
  }

  /** The keys of a dict are distinct. */
  predicate DistinctKeys(patterns: seq<Pattern>) {
    forall i, j :: 0 <= i < j < |patterns| ==> patterns[i].key != patterns[j].key
  }

  predicate SameIgnoringCase(a: char, b: char) {
    LowerChar(a) == LowerChar(b)
  }

  predicate StartsWithIgnoringCase(s: string, p: string) {
    |p| <= |s| && forall i :: 0 <= i < |p| ==> SameIgnoringCase(s[i], p[i])
  }

  /** `\.csv`, ignoring case, at index `j` of `s`. */
  predicate CsvAt(s: string, j: int) {
    0 <= j && j + 4 <= |s| && s[j] == '.' && SameIgnoringCase(s[j + 1], 'c')
    && SameIgnoringCase(s[j + 2], 's') && SameIgnoringCase(s[j + 3], 'v')
  }

  /** No line break in `s[from..to]`: `.` matches any character except `\n`. */
  predicate NoLineBreak(s: string, from: int, to: int) {
    forall m :: from <= m < to && 0 <= m < |s| ==> s[m] != '\n'
  }

  /** `.*\.csv` matched starting at index `j`, with the backtracking of `.*`. */
  function DotStarCsvFrom(s: string, j: nat): bool
    decreases |s| - j
  {
    if j + 4 > |s| then false
    else if CsvAt(s, j) then true
    else if s[j] == '\n' then false
    else DotStarCsvFrom(s, j + 1)
  }

  /** `pattern.match(name)` is not None. */
  predicate Matches(p: Pattern, name: string) {
    StartsWithIgnoringCase(name, p.prefix) && DotStarCsvFrom(name, |p.prefix|)
  }

  lemma {:induction false} DotStarCsvFromMeans(s: string, j: nat)
    ensures DotStarCsvFrom(s, j) <==> exists k :: j <= k && CsvAt(s, k) && NoLineBreak(s, j, k)
    decreases |s| - j
  {
    if j + 4 <= |s| && !CsvAt(s, j) {
      DotStarCsvFromMeans(s, j + 1);
      if s[j] == '\n' {
        forall k | j <= k && CsvAt(s, k) ensures !NoLineBreak(s, j, k) {
          assert k != j;
        }
      } else if !DotStarCsvFrom(s, j + 1) {
        forall k | j <= k && CsvAt(s, k) ensures !NoLineBreak(s, j, k) {
          assert k != j;
          assert !NoLineBreak(s, j + 1, k);
        }
      } else {
        var k :| j + 1 <= k && CsvAt(s, k) && NoLineBreak(s, j + 1, k);
        assert NoLineBreak(s, j, k);
      }
    } else if j + 4 <= |s| {
      assert NoLineBreak(s, j, j);
    }
  }

  /**
   * The regular expression's language: the name starts with the prefix (ignoring case)
   * and a `.csv` (ignoring case) follows somewhere after it on the same line.
   */
  lemma MatchesMeans(p: Pattern, name: string)
    ensures Matches(p, name) <==>
              StartsWithIgnoringCase(name, p.prefix)
              && exists k :: |p.prefix| <= k && CsvAt(name, k) && NoLineBreak(name, |p.prefix|, k)
  {
    DotStarCsvFromMeans(name, |p.prefix|);
  }

  /** The index of the first pattern, in declaration order, that matches `name`. */
  function FirstMatchFrom(patterns: seq<Pattern>, name: string, from: nat): (r: Option<nat>)
    ensures r.Some? ==> from <= r.value < |patterns| && Matches(patterns[r.value], name)
    ensures r.Some? ==> forall j :: from <= j < r.value ==> !Matches(patterns[j], name)
    ensures r.None? ==> forall j :: from <= j < |patterns| ==> !Matches(patterns[j], name)
    decreases |patterns| - from
  {
    if from >= |patterns| then None
    else if Matches(patterns[from], name) then Some(from)
    else FirstMatchFrom(patterns, name, from + 1)
  }

  /** The key the `for key, pattern in patterns.items()` loop stops at, if any. */
  function Category(patterns: seq<Pattern>, name: string): (r: Option<string>)
    ensures r.None? <==> forall j :: 0 <= j < |patterns| ==> !Matches(patterns[j], name)
    ensures r.Some? ==> exists i :: 0 <= i < |patterns| && r.value == patterns[i].key
                                    && Matches(patterns[i], name)
                                    && forall j :: 0 <= j < i ==> !Matches(patterns[j], name)
  {
    match FirstMatchFrom(patterns, name, 0)
    case None => None
    case Some(i) => Some(patterns[i].key)
  }

  /** The first-declared matching pattern decides, whatever later patterns also match. */
  lemma CategoryIsFirstMatch(patterns: seq<Pattern>, name: string, i: nat)
    requires i < |patterns| && Matches(patterns[i], name)
    requires forall j :: 0 <= j < i ==> !Matches(patterns[j], name)
    ensures Category(patterns, name) == Some(patterns[i].key)
  {
  }

  /** The configured patterns can never both match one name: their prefixes differ at index 4. */
  lemma ConfiguredPatternsExclusive(name: string, i: nat, j: nat)
    requires i < |FilenamePatterns| && j < |FilenamePatterns|
    requires Matches(FilenamePatterns[i], name) && Matches(FilenamePatterns[j], name)
    ensures i == j
  {
    assert FilenamePatterns[0].prefix[4] == 'B';
    assert FilenamePatterns[1].prefix[4] == 'L';
    assert FilenamePatterns[2].prefix[4] == 'W';
    assert SameIgnoringCase(name[4], FilenamePatterns[i].prefix[4]);
    assert SameIgnoringCase(name[4], FilenamePatterns[j].prefix[4]);
  }

  /** `filename.lower().endswith('.csv')`; an empty name fails it too. */
  predicate IsCsvName(name: string) {
    |name| >= 4 && Lower(name[|name| - 4..]) == ".csv"
  }

  /** `"historical" in name.lower() or "(historical)" in name.lower()`. */
  predicate IsHistorical(name: string) {
    Contains(Lower(name), "historical") || Contains(Lower(name), "(historical)")
  }

  /** The second test adds nothing: "(historical)" contains "historical". */
  lemma HistoricalMarker(name: string)
    ensures IsHistorical(name) <==> Contains(Lower(name), "historical")
  {
    var l := Lower(name);
    assert "(historical)" == "(" + "historical" + ")";
    OccursInside("(", "historical", ")");
    if Contains(l, "(historical)") {
      ContainsWithin(l, "(historical)", "historical", 1);
    }
  }
}
