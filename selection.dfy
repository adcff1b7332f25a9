/**
 * `find_latest_files` (main.py): one pass over the resources of the dataset page that
 * keeps, per pattern key, the newest matching CSV file, except that a historical file
 * for a key containing "borough" is taken whatever its date.
 */
module Selection {
  import opened Wrappers
  import opened Text
  import opened Calendar
  import opened Patterns
  import opened CoverageDates

  /**
   * A `dp-container` resource of the page: the link, the file name taken from the
   * link's path, and the texts of its `dp-temporalcoverage` blocks.
   */
  datatype Item = Item(url: string, filename: string, coverage: seq<string>)

  /** The `(download_url, last_updated_date, filename)` tuple stored per key. */
  datatype Descriptor = Descriptor(url: string, date: DateTime, filename: string)

  /** `latest_files` and `max_dates` between two items of the loop. */
  datatype Selection = Selection(latest: map<string, Option<Descriptor>>, maxDates: map<string, DateTime>)

  /** What the loop body takes from one item: the key it is filed under, whether it is forced, its tuple. */
  datatype Seen = Seen(key: Option<string>, forced: bool, desc: Descriptor)

  function KeySet(patterns: seq<Pattern>): set<string> {
    set i | 0 <= i < |patterns| :: patterns[i].key
  }

  /** The date an item is compared by, `now` when no coverage text parses. */
  function DateOf(item: Item, now: DateTime): DateTime {
    ItemDate(item.coverage, now)
  }

  function Describe(item: Item, now: DateTime): Descriptor {
    Descriptor(item.url, DateOf(item, now), item.filename)
  }

  /**
   * The key an item is filed under: none for an empty link or a name without a `.csv`
   * ending, else the first pattern that matches the name.
   */
  function Classify(item: Item, patterns: seq<Pattern>): (r: Option<string>)
    ensures r.Some? ==> r.value in KeySet(patterns)
    ensures r.Some? ==> item.url != [] && IsCsvName(item.filename) && Category(patterns, item.filename) == r
  {
    if item.url == [] || !IsCsvName(item.filename) then None
    else Category(patterns, item.filename)
  }

  /** A historical file filed under a "borough" key replaces the selection unconditionally. */
  predicate Forced(filename: string, k: string) {
    IsHistorical(filename) && Contains(k, "borough")
  }

  function Observe(item: Item, patterns: seq<Pattern>, now: DateTime): (o: Seen)
    ensures o.key.Some? ==> o.key.value in KeySet(patterns)
    ensures o.desc.url == item.url && o.desc.filename == item.filename
    ensures Valid(now) ==> Valid(o.desc.date)
  {
    var key := Classify(item, patterns);
    Seen(key, key.Some? && Forced(item.filename, key.value), Describe(item, now))
  }

  /** Every observation filed under one of `keys`. */
  predicate FiledUnder(seen: seq<Seen>, keys: set<string>) {
    forall i :: 0 <= i < |seen| && seen[i].key.Some? ==> seen[i].key.value in keys
  }

  /** Every observation with a real date. */
  predicate Dated(seen: seq<Seen>) {
    forall i :: 0 <= i < |seen| ==> Valid(seen[i].desc.date)
  }

  /** The observations of the page's items, in page order. */
  function Observed(items: seq<Item>, patterns: seq<Pattern>, now: DateTime): (seen: seq<Seen>)
    ensures |seen| == |items| && FiledUnder(seen, KeySet(patterns))
    ensures forall i :: 0 <= i < |items| ==> seen[i] == Observe(items[i], patterns, now)
    ensures Valid(now) ==> Dated(seen)
  {
    seq(|items|, i requires 0 <= i < |items| => Observe(items[i], patterns, now))
  }

  predicate Relevant(o: Seen, k: string) {
    o.key == Some(k)
  }

  /** A relevant item that competes by date. */
  predicate Candidate(o: Seen, k: string) {
    Relevant(o, k) && !o.forced
  }

  predicate WellFormed(s: Selection, keys: set<string>) {
    s.latest.Keys == keys && s.maxDates.Keys == keys
  }

  /** Every key starts with no file and with `datetime.min` as its newest date. */
  function Initial(keys: set<string>): (s: Selection)
    ensures WellFormed(s, keys)
    ensures forall k :: k in keys ==> s.latest[k] == None && s.maxDates[k] == MinDateTime
  {
    Selection(map k | k in keys :: None, map k | k in keys :: MinDateTime)
  }

  /** One iteration of the item loop; the keys the item is not filed under are untouched. */
  function Step(s: Selection, o: Seen, keys: set<string>): (r: Selection)
    requires WellFormed(s, keys) && (o.key.Some? ==> o.key.value in keys)
    ensures WellFormed(r, keys)
  {
    match o.key
    case None => s
    case Some(k) =>
      if o.forced then s.(latest := s.latest[k := Some(o.desc)])
      else if Before(s.maxDates[k], o.desc.date) then Selection(s.latest[k := Some(o.desc)], s.maxDates[k := o.desc.date])
      else s
  }

  /** The state after the loop has seen `seen`, in page order. */
  function Run(seen: seq<Seen>, keys: set<string>): (r: Selection)
    requires FiledUnder(seen, keys)
    ensures WellFormed(r, keys)
    decreases |seen|
  {
    if seen == [] then Initial(keys)
    else Step(Run(seen[..|seen| - 1], keys), seen[|seen| - 1], keys)
  }

  /** The `for key, pattern in patterns.items()` search: the key of the first pattern that matches. */
  method MatchingKey(patterns: seq<Pattern>, name: string) returns (key: Option<string>)
    ensures key == Category(patterns, name)
  {
    var p := 0;
    while p < |patterns|
      invariant 0 <= p <= |patterns|
      invariant forall j :: 0 <= j < p ==> !Matches(patterns[j], name)
    {
      if Matches(patterns[p], name) {
        CategoryIsFirstMatch(patterns, name, p);
        return Some(patterns[p].key);
      }
      p := p + 1;
    }
    return None;
  }

  /** The body of the item loop, on `latest_files` and `max_dates`. */
  method VisitItem(latest: map<string, Option<Descriptor>>, maxDates: map<string, DateTime>,
                   item: Item, patterns: seq<Pattern>, now: DateTime)
    returns (latest': map<string, Option<Descriptor>>, maxDates': map<string, DateTime>)
    requires WellFormed(Selection(latest, maxDates), KeySet(patterns))
    ensures Selection(latest', maxDates')
            == Step(Selection(latest, maxDates), Observe(item, patterns, now), KeySet(patterns))
  {
    latest', maxDates' := latest, maxDates;
    if item.url == [] || !IsCsvName(item.filename) {
      return;
    }
    var historical := IsHistorical(item.filename);
    var date := EndDate(item.coverage, now);
    var key := MatchingKey(patterns, item.filename);
    ghost var o := Observe(item, patterns, now);
    ghost var before := Selection(latest, maxDates);
    assert o.key == key;
    assert o.desc == Descriptor(item.url, date, item.filename);
    if key.Some? {
      assert o.forced == (historical && Contains(key.value, "borough"));
      var d := Descriptor(item.url, date, item.filename);
      if historical && Contains(key.value, "borough") {
        latest' := latest[key.value := Some(d)];
        assert Step(before, o, KeySet(patterns)) == before.(latest := latest');
      } else if Before(maxDates[key.value], date) {
        maxDates' := maxDates[key.value := date];
        latest' := latest[key.value := Some(d)];
      }
    }
  }

  /**
   * `find_latest_files` from the resources of the fetched page on; None stands for a
   * page that could not be fetched or parsed.
   */
  method FindLatestFiles(page: Option<seq<Item>>, patterns: seq<Pattern>, now: DateTime)
    returns (r: Option<map<string, Option<Descriptor>>>)
    ensures page.None? ==> r.None?
    ensures page.Some? ==> r == Some(Run(Observed(page.value, patterns, now), KeySet(patterns)).latest)
    ensures r.Some? ==> r.value.Keys == KeySet(patterns)
  {
    if page.None? {
      return None;
    }
    var items := page.value;
    ghost var seen := Observed(items, patterns, now);
    var latest: map<string, Option<Descriptor>> := map k | k in KeySet(patterns) :: None;
    var maxDates: map<string, DateTime> := map k | k in KeySet(patterns) :: MinDateTime;
    var n := 0;
    while n < |items|
      invariant 0 <= n <= |items|
      invariant Selection(latest, maxDates) == Run(seen[..n], KeySet(patterns))
    {
      RunExtends(seen, KeySet(patterns), n);
      assert seen[n] == Observe(items[n], patterns, now);
      latest, maxDates := VisitItem(latest, maxDates, items[n], patterns, now);
      n := n + 1;
    }
    assert seen[..n] == seen;
    return Some(latest);
  }

  /** The loop state after `n + 1` items is one more step from the state after `n`. */
  lemma RunExtends(seen: seq<Seen>, keys: set<string>, n: nat)
    requires FiledUnder(seen, keys) && n < |seen|
    ensures FiledUnder(seen[..n], keys) && FiledUnder(seen[..n + 1], keys)
    ensures Run(seen[..n + 1], keys) == Step(Run(seen[..n], keys), seen[n], keys)
  {
    assert forall i :: 0 <= i <= n ==> seen[..n + 1][i] == seen[i];
    assert seen[..n + 1][..n] == seen[..n];
  }

  lemma ValidNotBeforeMin(t: DateTime)
    requires Valid(t)
    ensures !Before(t, MinDateTime)
    ensures t == MinDateTime || Before(MinDateTime, t)
  {
  }

  /** An item leaves every key it is not filed under as it was. */
  lemma StepFrame(s: Selection, o: Seen, keys: set<string>, k: string)
    requires WellFormed(s, keys) && (o.key.Some? ==> o.key.value in keys)
    requires k in keys && !Relevant(o, k)
    ensures Step(s, o, keys).latest[k] == s.latest[k] && Step(s, o, keys).maxDates[k] == s.maxDates[k]
  {
  }

  /** `max_dates[k]` is never older than an item that competes for `k`. */
  lemma {:induction false} MaxDateBound(seen: seq<Seen>, keys: set<string>, k: string)
    requires FiledUnder(seen, keys) && k in keys
    ensures forall i :: 0 <= i < |seen| && Candidate(seen[i], k) ==> !Before(Run(seen, keys).maxDates[k], seen[i].desc.date)
    decreases |seen|
  {
    if seen != [] {
      var n := |seen| - 1;
      var prefix := seen[..n];
      assert forall i :: 0 <= i < n ==> prefix[i] == seen[i];
      MaxDateBound(prefix, keys, k);
      var m := Run(prefix, keys).maxDates[k];
      var d := seen[n].desc.date;
      if Candidate(seen[n], k) && Before(m, d) {
        assert Run(seen, keys).maxDates[k] == d;
        forall i | 0 <= i < n && Candidate(seen[i], k) ensures !Before(d, seen[i].desc.date) {
          BeforeTotal(m, seen[i].desc.date);
        }
      } else {
        assert Run(seen, keys).maxDates[k] == m;
      }
    }
  }

  /** `max_dates[k]` is `datetime.min` or the date of an item that competes for `k`. */
  lemma {:induction false} MaxDateAttained(seen: seq<Seen>, keys: set<string>, k: string)
    requires FiledUnder(seen, keys) && k in keys
    ensures Run(seen, keys).maxDates[k] == MinDateTime
            || exists i :: 0 <= i < |seen| && Candidate(seen[i], k) && seen[i].desc.date == Run(seen, keys).maxDates[k]
    decreases |seen|
  {
    if seen != [] {
      var n := |seen| - 1;
      var prefix := seen[..n];
      MaxDateAttained(prefix, keys, k);
      var m := Run(prefix, keys).maxDates[k];
      if !(Candidate(seen[n], k) && Before(m, seen[n].desc.date)) {
        assert Run(seen, keys).maxDates[k] == m;
        if m != MinDateTime {
          var i :| 0 <= i < n && Candidate(prefix[i], k) && prefix[i].desc.date == m;
          assert prefix[i] == seen[i];
        }
      }
    }
  }

  /**
   * `max_dates[k]` is the newest date among the items that compete for `k`, or
   * `datetime.min` when none is newer than that.
   */
  lemma MaxDateIsMaximum(seen: seq<Seen>, keys: set<string>, k: string)
    requires FiledUnder(seen, keys) && Dated(seen) && k in keys
    ensures Valid(Run(seen, keys).maxDates[k])
    ensures forall i :: 0 <= i < |seen| && Candidate(seen[i], k) ==> !Before(Run(seen, keys).maxDates[k], seen[i].desc.date)
    ensures Run(seen, keys).maxDates[k] == MinDateTime
            || exists i :: 0 <= i < |seen| && Candidate(seen[i], k) && seen[i].desc.date == Run(seen, keys).maxDates[k]
  {
    MaxDateBound(seen, keys, k);
    MaxDateAttained(seen, keys, k);
  }

  /** An item beats `max_dates[k]` exactly when it is newer than `datetime.min` and every earlier competitor. */
  lemma BeatsMaxDate(seen: seq<Seen>, keys: set<string>, k: string, d: DateTime)
    requires FiledUnder(seen, keys) && Dated(seen) && k in keys && Valid(d)
    ensures Before(Run(seen, keys).maxDates[k], d) <==>
              Before(MinDateTime, d) && forall i :: 0 <= i < |seen| && Candidate(seen[i], k) ==> Before(seen[i].desc.date, d)
  {
    MaxDateIsMaximum(seen, keys, k);
    var m := Run(seen, keys).maxDates[k];
    ValidNotBeforeMin(m);
    if Before(m, d) {
      forall i | 0 <= i < |seen| && Candidate(seen[i], k) ensures Before(seen[i].desc.date, d) {
        BeforeTotal(m, seen[i].desc.date);
      }
    } else if m != MinDateTime {
      var i :| 0 <= i < |seen| && Candidate(seen[i], k) && seen[i].desc.date == m;
    }
  }

  /** Item `j` is newer than `datetime.min` and than every earlier competitor for `k`. */
  predicate IsRecord(seen: seq<Seen>, j: int, k: string)
    requires 0 <= j < |seen|
  {
    Candidate(seen[j], k) && Before(MinDateTime, seen[j].desc.date)
    && forall i :: 0 <= i < j && Candidate(seen[i], k) ==> Before(seen[i].desc.date, seen[j].desc.date)
  }

  /** Item `j` replaces the selection for `k`: it is a forced historical file or a new record. */
  predicate IsUpdate(seen: seq<Seen>, j: int, k: string)
    requires 0 <= j < |seen|
  {
    Relevant(seen[j], k) && (seen[j].forced || IsRecord(seen, j, k))
  }

  lemma UpdateOnPrefix(seen: seq<Seen>, n: int, j: int, k: string)
    requires 0 <= j < n <= |seen|
    ensures IsUpdate(seen[..n], j, k) == IsUpdate(seen, j, k)
  {
    assert forall i :: 0 <= i <= j ==> seen[..n][i] == seen[i];
  }

  /** The last item replaces the selection for `k` exactly when it is an update. */
  lemma LastStep(seen: seq<Seen>, keys: set<string>, k: string)
    requires FiledUnder(seen, keys) && Dated(seen) && k in keys && seen != []
    ensures IsUpdate(seen, |seen| - 1, k) ==> Run(seen, keys).latest[k] == Some(seen[|seen| - 1].desc)
    ensures !IsUpdate(seen, |seen| - 1, k) ==> Run(seen, keys).latest[k] == Run(seen[..|seen| - 1], keys).latest[k]
  {
    var n := |seen| - 1;
    var prefix := seen[..n];
    assert forall i :: 0 <= i < n ==> prefix[i] == seen[i];
    if Candidate(seen[n], k) {
      BeatsMaxDate(prefix, keys, k, seen[n].desc.date);
      assert Before(Run(prefix, keys).maxDates[k], seen[n].desc.date) <==> IsRecord(seen, n, k);
    } else if !Relevant(seen[n], k) {
      StepFrame(Run(prefix, keys), seen[n], keys, k);
    }
  }

  /** `latest_files[k]` stays None exactly when no item replaces the selection for `k`. */
  lemma {:induction false} LatestNoneIffNoUpdate(seen: seq<Seen>, keys: set<string>, k: string)
    requires FiledUnder(seen, keys) && Dated(seen) && k in keys
    ensures Run(seen, keys).latest[k].None? <==> forall j :: 0 <= j < |seen| ==> !IsUpdate(seen, j, k)
    decreases |seen|
  {
    if seen != [] {
      var n := |seen| - 1;
      var prefix := seen[..n];
      LatestNoneIffNoUpdate(prefix, keys, k);
      LastStep(seen, keys, k);
      forall j | 0 <= j < n ensures IsUpdate(prefix, j, k) == IsUpdate(seen, j, k) {
        UpdateOnPrefix(seen, n, j, k);
      }
    }
  }

  /** Item `j` is the last item that replaces the selection for `k`. */
  predicate LastUpdateAt(seen: seq<Seen>, j: int, k: string) {
    0 <= j < |seen| && IsUpdate(seen, j, k) && forall i :: j < i < |seen| ==> !IsUpdate(seen, i, k)
  }

  /** A last update of the prefix stays the last update when the final item is no update. */
  lemma LastUpdateExtends(seen: seq<Seen>, j: int, k: string)
    requires seen != [] && LastUpdateAt(seen[..|seen| - 1], j, k) && !IsUpdate(seen, |seen| - 1, k)
    ensures LastUpdateAt(seen, j, k) && seen[..|seen| - 1][j] == seen[j]
  {
    var n := |seen| - 1;
    UpdateOnPrefix(seen, n, j, k);
    forall i | j < i < n ensures !IsUpdate(seen, i, k) {
      UpdateOnPrefix(seen, n, i, k);
    }
  }

  /**
   * What `latest_files[k]` holds after the loop: the tuple of the last item that
   * replaced the selection, or None when no item did.
   */
  lemma {:induction false} LatestIsLastUpdate(seen: seq<Seen>, keys: set<string>, k: string)
    requires FiledUnder(seen, keys) && Dated(seen) && k in keys
    ensures Run(seen, keys).latest[k].None? <==> forall j :: 0 <= j < |seen| ==> !IsUpdate(seen, j, k)
    ensures Run(seen, keys).latest[k].Some? ==>
              exists j :: LastUpdateAt(seen, j, k) && Run(seen, keys).latest[k] == Some(seen[j].desc)
    decreases |seen|
  {
    LatestNoneIffNoUpdate(seen, keys, k);
    if seen != [] {
      var n := |seen| - 1;
      var prefix := seen[..n];
      LastStep(seen, keys, k);
      if IsUpdate(seen, n, k) {
        assert LastUpdateAt(seen, n, k);
      } else if Run(prefix, keys).latest[k].Some? {
        LatestIsLastUpdate(prefix, keys, k);
        var j :| LastUpdateAt(prefix, j, k) && Run(prefix, keys).latest[k] == Some(prefix[j].desc);
        LastUpdateExtends(seen, j, k);
      }
    }
  }

  /** Without forced items, the stored tuple always carries the newest date seen. */
  lemma {:induction false} LatestCarriesMaxDate(seen: seq<Seen>, keys: set<string>, k: string)
    requires FiledUnder(seen, keys) && Dated(seen) && k in keys
    requires forall i :: 0 <= i < |seen| && Relevant(seen[i], k) ==> !seen[i].forced
    ensures Run(seen, keys).latest[k].None? <==> Run(seen, keys).maxDates[k] == MinDateTime
    ensures Run(seen, keys).latest[k].Some? ==> Run(seen, keys).latest[k].value.date == Run(seen, keys).maxDates[k]
    decreases |seen|
  {
    if seen != [] {
      var n := |seen| - 1;
      var prefix := seen[..n];
      assert forall i :: 0 <= i < n ==> prefix[i] == seen[i];
      LatestCarriesMaxDate(prefix, keys, k);
      MaxDateIsMaximum(prefix, keys, k);
      ValidNotBeforeMin(Run(prefix, keys).maxDates[k]);
      if !Relevant(seen[n], k) {
        StepFrame(Run(prefix, keys), seen[n], keys, k);
      }
    }
  }

  /**
   * With no forced item for `k`, the selection is the first of the newest relevant
   * files (a later file of the same date does not displace it), and there is none
   * exactly when every relevant file is dated `datetime.min`.
   */
  lemma FirstNewestWins(seen: seq<Seen>, keys: set<string>, k: string)
    requires FiledUnder(seen, keys) && Dated(seen) && k in keys
    requires forall i :: 0 <= i < |seen| && Relevant(seen[i], k) ==> !seen[i].forced
    ensures Run(seen, keys).latest[k].None?
            <==> forall i :: 0 <= i < |seen| && Relevant(seen[i], k) ==> seen[i].desc.date == MinDateTime
    ensures Run(seen, keys).latest[k].Some? ==>
              exists j :: 0 <= j < |seen| && Relevant(seen[j], k) && Run(seen, keys).latest[k] == Some(seen[j].desc)
                          && (forall i :: 0 <= i < |seen| && Relevant(seen[i], k) ==> !Before(seen[j].desc.date, seen[i].desc.date))
                          && (forall i :: 0 <= i < j && Relevant(seen[i], k) ==> Before(seen[i].desc.date, seen[j].desc.date))
  {
    var s := Run(seen, keys);
    LatestIsLastUpdate(seen, keys, k);
    LatestCarriesMaxDate(seen, keys, k);
    MaxDateIsMaximum(seen, keys, k);
    if s.latest[k].None? {
      forall i | 0 <= i < |seen| && Relevant(seen[i], k) ensures seen[i].desc.date == MinDateTime {
        ValidNotBeforeMin(seen[i].desc.date);
      }
    }
  }

  /** When the last relevant item for `k` is a forced historical file, it is the selection. */
  lemma LastHistoricalWins(seen: seq<Seen>, keys: set<string>, k: string, j: nat)
    requires FiledUnder(seen, keys) && Dated(seen) && k in keys
    requires j < |seen| && Relevant(seen[j], k) && seen[j].forced
    requires forall i :: j < i < |seen| ==> !Relevant(seen[i], k)
    ensures Run(seen, keys).latest[k] == Some(seen[j].desc)
  {
    LatestIsLastUpdate(seen, keys, k);
    assert IsUpdate(seen, j, k);
  }

  /**
   * A forced historical file does not stay selected: a later competitor that is newer
   * than every earlier competitor takes its place.
   */
  lemma NewerFileDisplacesHistorical(seen: seq<Seen>, keys: set<string>, k: string, h: nat, j: nat)
    requires FiledUnder(seen, keys) && Dated(seen) && k in keys
    requires h < j < |seen| && Relevant(seen[h], k) && seen[h].forced
    requires IsRecord(seen, j, k)
    requires forall i :: j < i < |seen| ==> !Relevant(seen[i], k)
    ensures Run(seen, keys).latest[k] == Some(seen[j].desc)
  {
    LatestIsLastUpdate(seen, keys, k);
    assert IsUpdate(seen, j, k);
  }

  /** A selected tuple is that of a CSV link on the page whose name is filed under `k`. */
  lemma SelectedIsRelevant(items: seq<Item>, patterns: seq<Pattern>, now: DateTime, k: string)
    requires Valid(now) && k in KeySet(patterns)
    ensures var s := Run(Observed(items, patterns, now), KeySet(patterns));
            s.latest[k].Some? ==>
              s.latest[k].value.url != [] && IsCsvName(s.latest[k].value.filename)
              && Category(patterns, s.latest[k].value.filename) == Some(k)
              && exists j :: 0 <= j < |items| && s.latest[k] == Some(Describe(items[j], now))
  {
    var seen := Observed(items, patterns, now);
    LatestIsLastUpdate(seen, KeySet(patterns), k);
  }
}
