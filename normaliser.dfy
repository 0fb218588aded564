/** The hourly-series builder: it groups the monthly reanalysis files by
    the year in their names, and for every year it floors the samples to
    the hour, keeps the target year, averages duplicate hours, reindexes
    onto the year's full hourly calendar and stops on any missing hour.
    Opening, unpacking and reducing the files (xarray) is abstracted as a
    loader that yields the wind-speed samples of one file or fails. */
module Normaliser {

  import opened Wrappers
  import opened Text
  import opened Calendar
  import opened Sorting
  import opened Seqs
  import opened Reals

  // ---------------------------------------------------------------
  // File names: era5land_(\d{4})_(\d{2})_.*\.nc$, searched, ignoring case
  // ---------------------------------------------------------------

  /** `s[i..]` starts with `lit` when letters are compared ignoring case
      (`lit` is lower-case ASCII). */
  predicate LiteralAt(s: string, i: nat, lit: string)
  {
    i + |lit| <= |s| && forall k :: 0 <= k < |lit| ==> LowerChar(s[i + k]) == lit[k]
  }

  predicate NoNewline(s: string) { forall k :: 0 <= k < |s| ==> s[k] != '\n' }

  /** `.*\.nc$` on the rest of the name: any run without a newline, then
      ".nc" (any case), then the end of the string or a final newline. */
  predicate NcTail(r: string)
  {
    || (|r| >= 3 && NoNewline(r[..|r| - 3]) && LiteralAt(r, |r| - 3, ".nc"))
    || (|r| >= 4 && r[|r| - 1] == '\n' && NoNewline(r[..|r| - 4]) && LiteralAt(r, |r| - 4, ".nc"))
  }

  /** The pattern anchored at position i; its two groups as numbers. */
  function MatchAt(name: string, i: nat): Option<(int, int)>
  {
    if i + 17 <= |name| && LiteralAt(name, i, "era5land_")
       && AllDigits(name[i + 9..i + 13]) && name[i + 13] == '_'
       && AllDigits(name[i + 14..i + 16]) && name[i + 16] == '_'
       && NcTail(name[i + 17..])
    then Some((ParseDigits(name[i + 9..i + 13]) as int, ParseDigits(name[i + 14..i + 16]) as int))
    else None
  }

  /** The value `at` gives at the first position from i up to n where it
      gives one. */
  function FirstFrom(n: nat, i: nat, at: nat -> Option<(int, int)>): Option<(int, int)>
    requires i <= n
    decreases n - i
  {
    if at(i).Some? then at(i)
    else if i == n then None
    else FirstFrom(n, i + 1, at)
  }

  /** `re.search` from position i: the leftmost position where the pattern matches. */
  function SearchFrom(name: string, i: nat): Option<(int, int)>
    requires i <= |name|
  {
    FirstFrom(|name|, i, (j: nat) => MatchAt(name, j))
  }

  /** The search finds nothing exactly when no position matches, and
      otherwise yields the groups of the leftmost matching position. */
  lemma SearchFromSpec(name: string, i: nat)
    requires i <= |name|
    ensures var r := SearchFrom(name, i);
      && (r.None? <==> forall j :: i <= j <= |name| ==> MatchAt(name, j).None?)
      && (r.Some? ==> exists j :: i <= j <= |name| && MatchAt(name, j) == r
                                 && forall k :: i <= k < j ==> MatchAt(name, k).None?)
  {
    var at := (j: nat) => MatchAt(name, j);
    var r := SearchFrom(name, i);
    assert r == FirstFrom(|name|, i, at);
    FirstFromNone(|name|, i, at);
    FirstFromSome(|name|, i, at);
    if r.None? {
      forall j | i <= j <= |name| ensures MatchAt(name, j).None? {
        assert at(j) == MatchAt(name, j);
      }
    } else {
      var j :| i <= j <= |name| && at(j) == r && forall k :: i <= k < j ==> at(k).None?;
      assert MatchAt(name, j) == r;
      forall k | i <= k < j ensures MatchAt(name, k).None? {
        assert at(k) == MatchAt(name, k);
      }
    }
  }

  lemma {:induction false} FirstFromNone(n: nat, i: nat, at: nat -> Option<(int, int)>)
    requires i <= n
    ensures FirstFrom(n, i, at).None? <==> forall j :: i <= j <= n ==> at(j).None?
    decreases n - i
  {
    if at(i).None? && i < n {
      FirstFromNone(n, i + 1, at);
    }
  }

  lemma {:induction false} FirstFromSome(n: nat, i: nat, at: nat -> Option<(int, int)>)
    requires i <= n
    ensures var r := FirstFrom(n, i, at);
      r.Some? ==> exists j :: i <= j <= n && at(j) == r && forall k :: i <= k < j ==> at(k).None?
    decreases n - i
  {
    if at(i).None? && i < n {
      FirstFromSome(n, i + 1, at);
      var r := FirstFrom(n, i, at);
      if r.Some? {
        var j :| i + 1 <= j <= n && at(j) == r && forall k :: i + 1 <= k < j ==> at(k).None?;
        assert forall k :: i <= k < j ==> at(k).None?;
      }
    }
  }

  /** Year and month captured from a file name, None when it does not match. */
  function FileYearMonth(name: string): Option<(int, int)>
  {
    SearchFrom(name, 0)
  }

  function FileYear(name: string): Option<int>
  {
    match FileYearMonth(name)
    case Some((y, _)) => Some(y)
    case None => None
  }

  /** A name built to the convention yields back its year and month. */
  lemma FileNameRoundTrip(y: nat, m: nat, tag: string)
    requires y < 10000 && m < 100 && NoNewline(tag)
    ensures FileYearMonth("era5land_" + Pad4(y) + "_" + Pad2(m) + "_" + tag + ".nc") == Some((y as int, m as int))
  {
    var p := "era5land_" + Pad4(y) + "_" + Pad2(m) + "_";
    var r := tag + ".nc";
    var name := p + r;
    assert name == "era5land_" + Pad4(y) + "_" + Pad2(m) + "_" + tag + ".nc";
    assert |p| == 17;
    assert name[9..13] == Pad4(y);
    assert name[14..16] == Pad2(m);
    assert name[17..] == r;
    assert r[..|r| - 3] == tag;
    assert LiteralAt(name, 0, "era5land_");
    assert LiteralAt(r, |r| - 3, ".nc");
    Pad4RoundTrip(y);
    Pad2RoundTrip(m);
    assert MatchAt(name, 0) == Some((y as int, m as int));
  }

  /** The underscore after the two-digit month is required. */
  lemma MonthUnderscoreRequired(y: nat, m: nat)
    requires y < 10000 && m < 100
    ensures FileYearMonth("era5land_" + Pad4(y) + "_" + Pad2(m) + ".nc") == None
  {
    var name := "era5land_" + Pad4(y) + "_" + Pad2(m) + ".nc";
    assert |name| == 19;
    SearchFromSpec(name, 0);
    forall j | 0 <= j <= |name| ensures MatchAt(name, j).None? {
      if j + 17 <= |name| {
        assert |name[j + 17..]| < 3;
      }
    }
  }

  // ---------------------------------------------------------------
  // by_year grouping
  // ---------------------------------------------------------------

  /** The elements of `files` whose key is `y`, in their order. */
  function Bucket(files: seq<string>, key: string -> Option<int>, y: int): seq<string>
  {
    if files == [] then []
    else Bucket(files[..|files| - 1], key, y)
         + (if key(files[|files| - 1]) == Some(y) then [files[|files| - 1]] else [])
  }

  /** Files of `files` whose name carries year `y`, in their order. */
  function FilesOfYear(files: seq<string>, y: int): seq<string>
  {
    Bucket(files, FileYear, y)
  }

  lemma {:induction false} BucketNonEmpty(files: seq<string>, key: string -> Option<int>, y: int)
    ensures Bucket(files, key, y) != [] <==> exists f :: f in files && key(f) == Some(y)
  {
    if files != [] {
      var n := |files|;
      BucketNonEmpty(files[..n - 1], key, y);
      assert forall f :: f in files <==> f in files[..n - 1] || f == files[n - 1];
    }
  }

  function Matching(listing: seq<string>): (r: seq<string>)
    ensures forall f :: f in r <==> f in listing && FileYearMonth(f).Some?
  {
    if listing == [] then []
    else
      var rest := Matching(listing[1..]);
      assert forall f :: f in listing <==> f == listing[0] || f in listing[1..];
      (if FileYearMonth(listing[0]).Some? then [listing[0]] else []) + rest
  }

  /** The module-level loop: the matching names sorted, and every one
      appended to the list of its captured year. */
  predicate Increasing(xs: seq<int>)
  {
    forall i, j :: 0 <= i < j < |xs| ==> xs[i] < xs[j]
  }

  /** Adds y to a strictly increasing list of years, keeping it so. */
  function InsertYear(xs: seq<int>, y: int): (r: seq<int>)
    requires Increasing(xs)
    ensures Increasing(r)
    ensures forall z :: z in r <==> z in xs || z == y
  {
    if xs == [] then [y]
    else if y < xs[0] then [y] + xs
    else if y == xs[0] then xs
    else
      var rest := InsertYear(xs[1..], y);
      assert forall z :: z in xs <==> z == xs[0] || z in xs[1..];
      assert forall z :: z in xs[1..] ==> xs[0] < z;
      assert forall z :: z in rest ==> xs[0] < z;
      assert forall i :: 0 <= i < |rest| ==> rest[i] in rest;
      [xs[0]] + rest
  }

  lemma {:induction false} FilesOfYearNonEmpty(files: seq<string>, y: int)
    ensures FilesOfYear(files, y) != [] <==> exists f :: f in files && FileYear(f) == Some(y)
  {
    if files != [] {
      var n := |files|;
      FilesOfYearNonEmpty(files[..n - 1], y);
      assert forall f :: f in files <==> f in files[..n - 1] || f == files[n - 1];
    }
  }

  /** The module-level loop: the matching names sorted, and every one
      appended to the list of its captured year; `years` lists the keys
      in ascending order, as the year loop visits them. */
  method GroupByYear(listing: seq<string>) returns (files: seq<string>, byYear: map<int, seq<string>>, years: seq<int>)
    ensures multiset(files) == multiset(Matching(listing))
    ensures SortedBy(files, StrLeFn)
    ensures forall y :: y in byYear <==> exists f :: f in files && FileYear(f) == Some(y)
    ensures forall y :: y in byYear ==> byYear[y] == FilesOfYear(files, y)
    ensures Increasing(years) && forall y :: y in years <==> y in byYear
  {
    StrLeTotalPreorder();
    files := SortBy(Matching(listing), StrLeFn);
    byYear, years := Group(files, FileYear);
  }

  /** What the loop over `files` has built: each key's files in order,
      no empty list, and the keys in ascending order. */
  ghost predicate Grouped(files: seq<string>, key: string -> Option<int>, byYear: map<int, seq<string>>)
  {
    && (forall y :: y in byYear ==> byYear[y] == Bucket(files, key, y))
    && (forall y :: y !in byYear ==> Bucket(files, key, y) == [])
    && (forall y :: y in byYear ==> byYear[y] != [])
  }

  /** `sorted(by_year.keys())`: the years that occur, each once, ascending. */
  function YearsOf(files: seq<string>, key: string -> Option<int>): (r: seq<int>)
    ensures Increasing(r)
    ensures forall y :: y in r <==> exists f :: f in files && key(f) == Some(y)
  {
    if files == [] then []
    else
      var n := |files| - 1;
      var init := YearsOf(files[..n], key);
      assert forall f :: f in files <==> f in files[..n] || f == files[n];
      match key(files[n])
      case Some(y) => InsertYear(init, y)
      case None => init
  }

  /** One file added to the grouping: a keyed file is appended to its
      year's list, an unkeyed one changes nothing. */
  lemma GroupStep(files: seq<string>, i: nat, key: string -> Option<int>,
                  byYear: map<int, seq<string>>, byYear2: map<int, seq<string>>)
    requires i < |files| && Grouped(files[..i], key, byYear)
    requires key(files[i]).None? ==> byYear2 == byYear
    requires key(files[i]).Some? ==>
      var y0 := key(files[i]).value;
      byYear2 == byYear[y0 := (if y0 in byYear then byYear[y0] else []) + [files[i]]]
    ensures Grouped(files[..i + 1], key, byYear2)
  {
    var pre, post, f := files[..i], files[..i + 1], files[i];
    assert post[..i] == pre && post[i] == f;
    forall y ensures Bucket(post, key, y) == Bucket(pre, key, y) + (if key(f) == Some(y) then [f] else []) {
    }
    forall y | y in byYear2 ensures byYear2[y] == Bucket(post, key, y) && byYear2[y] != [] {
      if key(f) != Some(y) {
        assert y in byYear;
      }
    }
    forall y | y !in byYear2 ensures Bucket(post, key, y) == [] {
      assert y !in byYear && key(f) != Some(y);
    }
  }

  /** The loop that appends every element to the list of its key. */
  method Group(files: seq<string>, key: string -> Option<int>) returns (byYear: map<int, seq<string>>, years: seq<int>)
    ensures forall y :: y in byYear <==> exists f :: f in files && key(f) == Some(y)
    ensures forall y :: y in byYear ==> byYear[y] == Bucket(files, key, y)
    ensures Increasing(years) && forall y :: y in years <==> y in byYear
  {
    byYear := map[];
    var i := 0;
    while i < |files|
      invariant 0 <= i <= |files|
      invariant Grouped(files[..i], key, byYear)
    {
      var f := files[i];
      var fy := key(f);
      ghost var before := byYear;
      if fy.Some? {
        byYear := byYear[fy.value := (if fy.value in byYear then byYear[fy.value] else []) + [f]];
      }
      GroupStep(files, i, key, before, byYear);
      i := i + 1;
    }
    assert files[..|files|] == files;
    GroupedKeys(files, key, byYear);
    years := YearsOf(files, key);
  }

  /** Once every file is grouped, the keys are exactly the years that occur. */
  lemma GroupedKeys(files: seq<string>, key: string -> Option<int>, byYear: map<int, seq<string>>)
    requires Grouped(files, key, byYear)
    ensures forall y :: y in byYear <==> exists f :: f in files && key(f) == Some(y)
    ensures forall y :: y in YearsOf(files, key) <==> y in byYear
  {
    forall y ensures y in byYear <==> exists f :: f in files && key(f) == Some(y) {
      BucketNonEmpty(files, key, y);
    }
  }

  // ---------------------------------------------------------------
  // Samples: floor to the hour, keep the year, average duplicate hours
  // ---------------------------------------------------------------

  /** One wind-speed sample. `time` is None where the timestamp is missing
      (NaT); `value` is None where the speed is NaN, as at a masked grid
      point, whose NaN components the square root keeps. */
  datatype Sample = Sample(time: Option<Instant>, value: Option<real>)

  /** The hour a sample contributes to, if it is kept for `year`. */
  function KeptHour(s: Sample, year: int): Option<Stamp>
  {
    if s.time.Some? && FloorHour(s.time.value).year == year then Some(FloorHour(s.time.value)) else None
  }

  /** The size of hour `h`'s group: its kept samples, NaN ones included. */
  function CountAt(samples: seq<Sample>, year: int, h: Stamp): nat
  {
    if samples == [] then 0
    else CountAt(samples[..|samples| - 1], year, h)
         + (if KeptHour(samples[|samples| - 1], year) == Some(h) then 1 else 0)
  }

  /** How many of hour `h`'s kept samples carry a value. */
  function ValueCountAt(samples: seq<Sample>, year: int, h: Stamp): nat
  {
    if samples == [] then 0
    else
      var s := samples[|samples| - 1];
      ValueCountAt(samples[..|samples| - 1], year, h)
      + (if KeptHour(s, year) == Some(h) && s.value.Some? then 1 else 0)
  }

  /** The sum of hour `h`'s kept values, NaN skipped. */
  function SumAt(samples: seq<Sample>, year: int, h: Stamp): real
  {
    if samples == [] then 0.0
    else
      var s := samples[|samples| - 1];
      SumAt(samples[..|samples| - 1], year, h)
      + (if KeptHour(s, year) == Some(h) && s.value.Some? then s.value.value else 0.0)
  }

  function HoursOf(samples: seq<Sample>, year: int): (hs: set<Stamp>)
    ensures forall h :: h in hs <==> CountAt(samples, year, h) > 0
  {
    if samples == [] then {}
    else
      var last := KeptHour(samples[|samples| - 1], year);
      HoursOf(samples[..|samples| - 1], year) + (if last.Some? then {last.value} else {})
  }

  /** The mean of hour `h`'s values, skipping NaN; NaN when none is left. */
  function MeanAt(samples: seq<Sample>, year: int, h: Stamp): Option<real>
  {
    var c := ValueCountAt(samples, year, h);
    if c == 0 then None else Some(SumAt(samples, year, h) / (c as real))
  }

  /** `groupby("DateTime").mean()` after flooring, the year filter and
      `dropna` on the timestamp: one entry per hour with a kept sample,
      the mean of its non-NaN samples, NaN for an hour whose samples are
      all NaN. */
  function HourlyMeans(samples: seq<Sample>, year: int): (m: map<Stamp, Option<real>>)
    ensures forall h :: h in m <==> CountAt(samples, year, h) > 0
    ensures forall h :: h in m ==> (m[h].None? <==> ValueCountAt(samples, year, h) == 0)
  {
    map h | h in HoursOf(samples, year) :: MeanAt(samples, year, h)
  }

  /** No value is left for an hour exactly when each of its kept samples is NaN. */
  lemma {:induction false} ValueCountZero(samples: seq<Sample>, year: int, h: Stamp)
    ensures ValueCountAt(samples, year, h) == 0 <==>
      forall i :: 0 <= i < |samples| && KeptHour(samples[i], year) == Some(h) ==> samples[i].value.None?
  {
    if samples != [] {
      var n := |samples|;
      ValueCountZero(samples[..n - 1], year, h);
      assert forall i :: 0 <= i < n - 1 ==> samples[..n - 1][i] == samples[i];
    }
  }

  lemma {:induction false} ValueCountBelow(samples: seq<Sample>, year: int, h: Stamp)
    ensures ValueCountAt(samples, year, h) <= CountAt(samples, year, h)
  {
    if samples != [] {
      ValueCountBelow(samples[..|samples| - 1], year, h);
    }
  }

  /** Every hour kept is an hour of the target year that some sample with a
      timestamp floors to. */
  lemma {:induction false} HourlyMeansKeys(samples: seq<Sample>, year: int, h: Stamp)
    requires h in HourlyMeans(samples, year)
    ensures h.year == year
    ensures exists i :: 0 <= i < |samples| && samples[i].time.Some? && FloorHour(samples[i].time.value) == h
  {
    var n := |samples|;
    if KeptHour(samples[n - 1], year) == Some(h) {
    } else {
      HourlyMeansKeys(samples[..n - 1], year, h);
      var i :| 0 <= i < n - 1 && samples[..n - 1][i].time.Some? && FloorHour(samples[..n - 1][i].time.value) == h;
      assert samples[i] == samples[..n - 1][i];
    }
  }

  /** The sum over an hour's values lies between count·lo and count·hi
      when all of them lie in [lo, hi]. */
  lemma {:induction false} SumBounds(samples: seq<Sample>, year: int, h: Stamp, lo: real, hi: real)
    requires forall i :: 0 <= i < |samples| && KeptHour(samples[i], year) == Some(h) && samples[i].value.Some?
               ==> lo <= samples[i].value.value <= hi
    ensures Within(ValueCountAt(samples, year, h) as real, SumAt(samples, year, h), lo, hi)
  {
    if samples != [] {
      var n := |samples|;
      var init := samples[..n - 1];
      var s := samples[n - 1];
      assert forall i :: 0 <= i < n - 1 ==> init[i] == samples[i];
      SumBounds(init, year, h, lo, hi);
      var c, t := ValueCountAt(init, year, h) as real, SumAt(init, year, h);
      var c2, t2 := ValueCountAt(samples, year, h) as real, SumAt(samples, year, h);
      if KeptHour(s, year) == Some(h) && s.value.Some? {
        assert c2 == c + 1.0 && t2 == t + s.value.value;
      } else {
        assert c2 == c && t2 == t;
      }
      StepBounds(c, t, c2, t2, lo, hi);
    }
  }

  /** Averaging duplicates never leaves the range of the hour's non-NaN
      samples; in particular an hour whose values all equal v keeps v, so
      a series without duplicate hours passes through unchanged. */
  lemma MeanWithinSamples(samples: seq<Sample>, year: int, h: Stamp, lo: real, hi: real)
    requires h in HourlyMeans(samples, year) && HourlyMeans(samples, year)[h].Some?
    requires forall i :: 0 <= i < |samples| && KeptHour(samples[i], year) == Some(h) && samples[i].value.Some?
               ==> lo <= samples[i].value.value <= hi
    ensures lo <= HourlyMeans(samples, year)[h].value <= hi
  {
    SumBounds(samples, year, h, lo, hi);
    var c := ValueCountAt(samples, year, h) as real;
    var s := SumAt(samples, year, h);
    assert c > 0.0;
    assert HourlyMeans(samples, year)[h].value == s / c;
    DivBetween(s, c, lo, hi);
  }

  /** The running sums and value counts of `ExtractHourly` after the
      samples in `done`: one entry per hour seen so far, NaN-only hours
      included with a count of 0. */
  ghost predicate Tallied(sums: map<Stamp, real>, counts: map<Stamp, nat>, done: seq<Sample>, year: int)
  {
    && sums.Keys == counts.Keys
    && (forall h :: h in counts <==> CountAt(done, year, h) > 0)
    && (forall h :: h in counts ==> counts[h] == ValueCountAt(done, year, h) && sums[h] == SumAt(done, year, h))
    && (forall h :: h !in counts ==> ValueCountAt(done, year, h) == 0 && SumAt(done, year, h) == 0.0)
  }

  /** The tally update for one sample: a kept sample opens its hour and,
      when it has a value, adds it and one to the count; any other sample
      leaves the tally as it was. */
  predicate TallyUpdate(sums: map<Stamp, real>, counts: map<Stamp, nat>, s: Sample, year: int,
                        sums2: map<Stamp, real>, counts2: map<Stamp, nat>)
  {
    && (KeptHour(s, year).None? ==> sums2 == sums && counts2 == counts)
    && (KeptHour(s, year).Some? ==>
          var h := KeptHour(s, year).value;
          && sums2 == sums[h := (if h in sums then sums[h] else 0.0) + (if s.value.Some? then s.value.value else 0.0)]
          && counts2 == counts[h := (if h in counts then counts[h] else 0) + (if s.value.Some? then 1 else 0)])
  }

  /** One sample added to the tally keeps it the tally of the samples seen. */
  lemma TallyStep(sums: map<Stamp, real>, counts: map<Stamp, nat>, done: seq<Sample>, year: int,
                  s: Sample, sums2: map<Stamp, real>, counts2: map<Stamp, nat>)
    requires Tallied(sums, counts, done, year)
    requires TallyUpdate(sums, counts, s, year, sums2, counts2)
    ensures Tallied(sums2, counts2, done + [s], year)
  {
    forall h ensures TallyAfter(done, s, year, h) {
      SnocTally(done, s, year, h);
    }
    TallyStepKeys(sums, counts, done, year, s, sums2, counts2);
    TallyStepIn(sums, counts, done, year, s, sums2, counts2);
    TallyStepOut(sums, counts, done, year, s, sums2, counts2);
  }

  lemma TallyStepKeys(sums: map<Stamp, real>, counts: map<Stamp, nat>, done: seq<Sample>, year: int,
                      s: Sample, sums2: map<Stamp, real>, counts2: map<Stamp, nat>)
    requires Tallied(sums, counts, done, year) && TallyUpdate(sums, counts, s, year, sums2, counts2)
    requires forall h :: TallyAfter(done, s, year, h)
    ensures sums2.Keys == counts2.Keys
    ensures forall h :: h in counts2 <==> CountAt(done + [s], year, h) > 0
  {
  }

  lemma TallyStepIn(sums: map<Stamp, real>, counts: map<Stamp, nat>, done: seq<Sample>, year: int,
                    s: Sample, sums2: map<Stamp, real>, counts2: map<Stamp, nat>)
    requires Tallied(sums, counts, done, year) && TallyUpdate(sums, counts, s, year, sums2, counts2)
    requires forall h :: TallyAfter(done, s, year, h)
    ensures forall h :: h in counts2 ==>
      counts2[h] == ValueCountAt(done + [s], year, h) && h in sums2 && sums2[h] == SumAt(done + [s], year, h)
  {
  }

  lemma TallyStepOut(sums: map<Stamp, real>, counts: map<Stamp, nat>, done: seq<Sample>, year: int,
                     s: Sample, sums2: map<Stamp, real>, counts2: map<Stamp, nat>)
    requires Tallied(sums, counts, done, year) && TallyUpdate(sums, counts, s, year, sums2, counts2)
    requires forall h :: TallyAfter(done, s, year, h)
    ensures forall h :: h !in counts2 ==> ValueCountAt(done + [s], year, h) == 0 && SumAt(done + [s], year, h) == 0.0
  {
  }

  /** The three tallies of hour `h` after one more sample. */
  predicate TallyAfter(done: seq<Sample>, s: Sample, year: int, h: Stamp)
  {
    var kept := KeptHour(s, year) == Some(h);
    && CountAt(done + [s], year, h) == CountAt(done, year, h) + (if kept then 1 else 0)
    && ValueCountAt(done + [s], year, h) == ValueCountAt(done, year, h) + (if kept && s.value.Some? then 1 else 0)
    && SumAt(done + [s], year, h) == SumAt(done, year, h) + (if kept && s.value.Some? then s.value.value else 0.0)
  }

  lemma SnocTally(done: seq<Sample>, s: Sample, year: int, h: Stamp)
    ensures TallyAfter(done, s, year, h)
  {
    assert (done + [s])[..|done|] == done;
  }

  /** `extract_datetime_and_values`, as the loop a group-by runs: per
      floored hour of the target year, the sum and count of its non-NaN
      values, then their quotient, NaN for an hour with no value. */
  method ExtractHourly(samples: seq<Sample>, year: int) returns (means: map<Stamp, Option<real>>)
    ensures means == HourlyMeans(samples, year)
  {
    var sums: map<Stamp, real> := map[];
    var counts: map<Stamp, nat> := map[];
    var i := 0;
    while i < |samples|
      invariant 0 <= i <= |samples|
      invariant Tallied(sums, counts, samples[..i], year)
    {
      assert samples[..i + 1] == samples[..i] + [samples[i]];
      var s := samples[i];
      ghost var (sums0, counts0) := (sums, counts);
      if s.time.Some? && FloorHour(s.time.value).year == year {
        var h := FloorHour(s.time.value);
        var sum, count := 0.0, 0;
        if h in counts {
          sum, count := sums[h], counts[h];
        }
        if s.value.Some? {
          sum, count := sum + s.value.value, count + 1;
        }
        sums := sums[h := sum];
        counts := counts[h := count];
      }
      TallyStep(sums0, counts0, samples[..i], year, s, sums, counts);
      i := i + 1;
    }
    assert samples[..|samples|] == samples;
    means := map h | h in counts :: if counts[h] == 0 then None else Some(sums[h] / (counts[h] as real));
  }

  // ---------------------------------------------------------------
  // Reindexing onto the year's calendar
  // ---------------------------------------------------------------

  datatype HourRow = HourRow(stamp: Stamp, windSpeed: real)

  /** A stamp with a value after reindexing: it has a mean, and not a NaN one. */
  predicate HasValue(means: map<Stamp, Option<real>>, s: Stamp)
  {
    s in means && means[s].Some?
  }

  /** The reindexed column at a stamp: NaN (None) where the stamp has no mean. */
  function ValueAt(means: map<Stamp, Option<real>>, s: Stamp): Option<real>
  {
    if s in means then means[s] else None
  }

  /** `isna().sum()` of the reindexed column: stamps without a mean or
      with a NaN one. */
  function MissingCount(idx: seq<Stamp>, means: map<Stamp, Option<real>>): nat
  {
    if idx == [] then 0
    else MissingCount(idx[..|idx| - 1], means) + (if HasValue(means, idx[|idx| - 1]) then 0 else 1)
  }

  lemma {:induction false} MissingCountZero(idx: seq<Stamp>, means: map<Stamp, Option<real>>)
    ensures MissingCount(idx, means) == 0 <==> forall i :: 0 <= i < |idx| ==> HasValue(means, idx[i])
  {
    if idx != [] {
      var n := |idx|;
      MissingCountZero(idx[..n - 1], means);
      assert forall i :: 0 <= i < n - 1 ==> idx[..n - 1][i] == idx[i];
    }
  }

  /** `reindex` onto `idx`: a row per stamp, or the number of NaN stamps
      (the RuntimeError). Interpolation is not applied. */
  function ReindexOn(idx: seq<Stamp>, means: map<Stamp, Option<real>>): Result<seq<HourRow>, nat>
  {
    var missing := MissingCount(idx, means);
    if missing > 0 then Err(missing)
    else
      MissingCountZero(idx, means);
      Ok(seq(|idx|, i requires 0 <= i < |idx| => HourRow(idx[i], means[idx[i]].value)))
  }

  /** The reindexed year, on the year's full hourly calendar. */
  function Reindexed(means: map<Stamp, Option<real>>, year: int): Result<seq<HourRow>, nat>
  {
    ReindexOn(ExpectedHourlyIndex(year), means)
  }

  /** Reindexing onto any index succeeds exactly when every stamp of it has
      a non-NaN mean, and then yields one row per stamp, in order, with
      that mean. */
  lemma ReindexOnSpec(idx: seq<Stamp>, means: map<Stamp, Option<real>>)
    ensures var r := ReindexOn(idx, means);
      && (r.Ok? <==> forall i :: 0 <= i < |idx| ==> HasValue(means, idx[i]))
      && (r.Err? ==> r.error > 0)
      && (r.Ok? ==> |r.value| == |idx|
                    && forall i :: 0 <= i < |idx| ==> r.value[i] == HourRow(idx[i], means[idx[i]].value))
  {
    MissingCountZero(idx, means);
  }

  /** The year is refused exactly when some hour of its calendar has no
      mean or a NaN one. */
  lemma ReindexedOk(means: map<Stamp, Option<real>>, year: int)
    ensures var r := Reindexed(means, year);
      && (r.Ok? <==> forall s :: ValidStamp(s) && s.year == year ==> HasValue(means, s))
      && (r.Err? ==> r.error > 0)
  {
    var idx := ExpectedHourlyIndex(year);
    ExpectedHourlyIndexSpec(year);
    ReindexOnSpec(idx, means);
    if forall s :: ValidStamp(s) && s.year == year ==> HasValue(means, s) {
      assert forall i :: 0 <= i < |idx| ==> HasValue(means, idx[i]);
    }
    if Reindexed(means, year).Ok? {
      forall s | ValidStamp(s) && s.year == year ensures HasValue(means, s) {
        var i :| 0 <= i < |idx| && idx[i] == s;
      }
    }
  }

  /** A reindexed year has 8760 or 8784 rows, on the expected hours in
      increasing order, each row carrying that hour's mean. */
  lemma ReindexedRows(means: map<Stamp, Option<real>>, year: int)
    requires Reindexed(means, year).Ok?
    ensures var rows := Reindexed(means, year).value;
      && |rows| == (if IsLeap(year) then 8784 else 8760)
      && (forall i :: 0 <= i < |rows| ==> rows[i].stamp == ExpectedHourlyIndex(year)[i]
                                          && rows[i].stamp in means
                                          && means[rows[i].stamp] == Some(rows[i].windSpeed))
      && (forall i, j :: 0 <= i < j < |rows| ==> Before(rows[i].stamp, rows[j].stamp))
  {
    ExpectedHourlyIndexSpec(year);
    ReindexOnSpec(ExpectedHourlyIndex(year), means);
  }

  /** A reindexed leap year keeps its Feb 29 hours. */
  lemma ReindexedFeb29(means: map<Stamp, Option<real>>, year: int)
    requires Reindexed(means, year).Ok? && IsLeap(year)
    ensures var rows := Reindexed(means, year).value;
      exists i :: 0 <= i < |rows| && IsFeb29(rows[i].stamp)
  {
    var idx := ExpectedHourlyIndex(year);
    ExpectedHourlyIndexSpec(year);
    ReindexOnSpec(idx, means);
    var s := Stamp(year, 2, 29, 0);
    assert ValidStamp(s);
    var i :| 0 <= i < |idx| && idx[i] == s;
    assert IsFeb29(Reindexed(means, year).value[i].stamp);
  }

  /** The year succeeds exactly when every hour of its calendar has a
      non-NaN mean; then it has 8760 or 8784 rows, on the expected hours
      in increasing order, Feb 29 kept in a leap year, each row carrying
      that hour's mean. */
  lemma ReindexedSpec(means: map<Stamp, Option<real>>, year: int)
    ensures var r := Reindexed(means, year);
      && (r.Ok? <==> forall s :: ValidStamp(s) && s.year == year ==> HasValue(means, s))
      && (r.Err? ==> r.error > 0)
      && (r.Ok? ==> |r.value| == (if IsLeap(year) then 8784 else 8760)
                    && (forall i :: 0 <= i < |r.value| ==> r.value[i].stamp == ExpectedHourlyIndex(year)[i]
                                                           && means[r.value[i].stamp] == Some(r.value[i].windSpeed))
                    && (forall i, j :: 0 <= i < j < |r.value| ==> Before(r.value[i].stamp, r.value[j].stamp))
                    && (IsLeap(year) ==> exists i :: 0 <= i < |r.value| && IsFeb29(r.value[i].stamp)))
  {
    ReindexedOk(means, year);
    if Reindexed(means, year).Ok? {
      ReindexedRows(means, year);
      if IsLeap(year) {
        ReindexedFeb29(means, year);
      }
    }
  }

  /** From the samples: a year is written exactly when every hour of its
      calendar has at least one kept sample with a value. An hour with no
      sample, or with NaN samples only, stops the run. */
  lemma WrittenIffEveryHourHasValue(samples: seq<Sample>, year: int)
    ensures Reindexed(HourlyMeans(samples, year), year).Ok? <==>
      forall s :: ValidStamp(s) && s.year == year ==>
        exists i :: 0 <= i < |samples| && KeptHour(samples[i], year) == Some(s) && samples[i].value.Some?
  {
    var means := HourlyMeans(samples, year);
    ReindexedOk(means, year);
    forall s | ValidStamp(s) && s.year == year
      ensures HasValue(means, s) <==>
        exists i :: 0 <= i < |samples| && KeptHour(samples[i], year) == Some(s) && samples[i].value.Some?
    {
      ValueCountZero(samples, year, s);
      ValueCountBelow(samples, year, s);
    }
  }

  /** An hour of the year whose kept samples are all NaN stops the run,
      even when every other hour has a value. */
  lemma NaNHourRefused(samples: seq<Sample>, year: int, h: Stamp)
    requires ValidStamp(h) && h.year == year
    requires forall i :: 0 <= i < |samples| && KeptHour(samples[i], year) == Some(h) ==> samples[i].value.None?
    ensures Reindexed(HourlyMeans(samples, year), year).Err?
  {
    WrittenIffEveryHourHasValue(samples, year);
  }

  /** The reindex step: the column reindexed onto `idx` (NaN where a stamp
      has no mean), its NaN stamps counted, and the result refused if any. */
  method ReindexOnto(idx: seq<Stamp>, means: map<Stamp, Option<real>>) returns (r: Result<seq<HourRow>, nat>)
    ensures r == ReindexOn(idx, means)
  {
    var column: seq<Option<real>> := [];
    var missing := 0;
    var i := 0;
    while i < |idx|
      invariant 0 <= i <= |idx| && |column| == i
      invariant forall k :: 0 <= k < i ==> column[k] == ValueAt(means, idx[k])
      invariant missing == MissingCount(idx[..i], means)
    {
      assert idx[..i + 1][..i] == idx[..i];
      var v := if idx[i] in means then means[idx[i]] else None;
      column := column + [v];
      if v.None? {
        missing := missing + 1;
      }
      i := i + 1;
    }
    assert idx[..|idx|] == idx;
    if missing > 0 {
      r := Err(missing);
    } else {
      MissingCountZero(idx, means);
      r := Ok(seq(|idx|, k requires 0 <= k < |idx| => HourRow(idx[k], column[k].value)));
      var expected := ReindexOn(idx, means);
      assert expected.Ok?;
      assert forall k :: 0 <= k < |idx| ==> r.value[k] == expected.value[k];
      assert r.value == expected.value;
    }
  }

  method ReindexYear(means: map<Stamp, Option<real>>, year: int) returns (r: Result<seq<HourRow>, nat>)
    ensures r == Reindexed(means, year)
  {
    r := ReindexOnto(ExpectedHourlyIndex(year), means);
  }

  // ---------------------------------------------------------------
  // The year loop
  // ---------------------------------------------------------------

  /** What one year of the loop did. */
  datatype YearOutcome =
    | AlreadyWritten                 // the output CSV existed: skipped
    | NothingLoaded                  // no file of the year could be processed
    | Written(rows: seq<HourRow>)    // the CSV written
    | HoursMissing(count: nat)       // the RuntimeError that ends the run

  /** `ds_list`: the datasets of the files that loaded, in file order. */
  function LoadedSets(files: seq<string>, load: string -> Option<seq<Sample>>): seq<seq<Sample>>
  {
    if files == [] then []
    else LoadedSets(files[..|files| - 1], load)
         + (match load(files[|files| - 1]) case Some(d) => [d] case None => [])
  }

  function YearResult(year: int, files: seq<string>, written: int -> bool,
                      load: string -> Option<seq<Sample>>): YearOutcome
  {
    StrLeTotalPreorder();
    if written(year) then AlreadyWritten
    else
      var dss := LoadedSets(SortBy(files, StrLeFn), load);
      if dss == [] then NothingLoaded
      else match Reindexed(HourlyMeans(Flatten(dss), year), year)
        case Ok(rows) => Written(rows)
        case Err(n) => HoursMissing(n)
  }

  /** The inner loop over the year's sorted files: the samples of every
      file that loaded, concatenated, and whether any did. */
  method LoadYear(files: seq<string>, load: string -> Option<seq<Sample>>)
    returns (samples: seq<Sample>, loadedAny: bool)
    ensures samples == Flatten(LoadedSets(files, load))
    ensures loadedAny <==> LoadedSets(files, load) != []
  {
    samples := [];
    loadedAny := false;
    var k := 0;
    while k < |files|
      invariant 0 <= k <= |files|
      invariant samples == Flatten(LoadedSets(files[..k], load))
      invariant loadedAny <==> LoadedSets(files[..k], load) != []
    {
      assert files[..k + 1][..k] == files[..k];
      var ds := load(files[k]);
      var dss := LoadedSets(files[..k], load);
      if ds.Some? {
        assert LoadedSets(files[..k + 1], load) == dss + [ds.value];
        FlattenSnoc(dss, ds.value);
        samples := samples + ds.value;
        loadedAny := true;
      } else {
        assert LoadedSets(files[..k + 1], load) == dss;
      }
      k := k + 1;
    }
    assert files[..|files|] == files;
  }

  /** One iteration of the year loop. */
  method ProcessYear(year: int, files: seq<string>, written: int -> bool,
                     load: string -> Option<seq<Sample>>) returns (outcome: YearOutcome)
    ensures outcome == YearResult(year, files, written, load)
  {
    StrLeTotalPreorder();
    if written(year) {
      return AlreadyWritten;
    }
    var samples, loadedAny := LoadYear(SortBy(files, StrLeFn), load);
    if !loadedAny {
      return NothingLoaded;
    }
    var means := ExtractHourly(samples, year);
    var r := ReindexYear(means, year);
    outcome := if r.Ok? then Written(r.value) else HoursMissing(r.error);
  }

  /** The whole script: the files grouped by year, then the loop over the
      years in ascending order. */
  method Run(listing: seq<string>, written: int -> bool, load: string -> Option<seq<Sample>>)
    returns (files: seq<string>, byYear: map<int, seq<string>>, years: seq<int>, outcomes: seq<YearOutcome>)
    ensures multiset(files) == multiset(Matching(listing)) && SortedBy(files, StrLeFn)
    ensures forall y :: y in byYear ==> byYear[y] == FilesOfYear(files, y)
    ensures Increasing(years) && forall y :: y in years <==> y in byYear
    ensures forall y :: y in years <==> exists f :: f in files && FileYear(f) == Some(y)
    ensures |outcomes| <= |years|
    ensures outcomes == YearOutcomes(years[..|outcomes|], byYear, written, load)
    ensures forall i :: 0 <= i < |outcomes| - 1 ==> !outcomes[i].HoursMissing?
    ensures |outcomes| < |years| ==> |outcomes| > 0 && outcomes[|outcomes| - 1].HoursMissing?
  {
    files, byYear, years := GroupByYear(listing);
    outcomes := YearLoop(byYear, years, written, load);
  }

  /** The loop over the years: each year is skipped, written, or ends the
      run with its count of missing hours. */
  method YearLoop(byYear: map<int, seq<string>>, years: seq<int>, written: int -> bool,
                  load: string -> Option<seq<Sample>>) returns (outcomes: seq<YearOutcome>)
    requires forall y :: y in years ==> y in byYear
    ensures |outcomes| <= |years|
    ensures outcomes == YearOutcomes(years[..|outcomes|], byYear, written, load)
    ensures forall i :: 0 <= i < |outcomes| - 1 ==> !outcomes[i].HoursMissing?
    ensures |outcomes| < |years| ==> |outcomes| > 0 && outcomes[|outcomes| - 1].HoursMissing?
  {
    outcomes := [];
    while |outcomes| < |years|
      invariant Progress(outcomes, years, byYear, written, load)
      decreases |years| - |outcomes|
    {
      var year := years[|outcomes|];
      var outcome := ProcessYear(year, byYear[year], written, load);
      ProgressStep(outcomes, years, byYear, written, load, outcome);
      outcomes := outcomes + [outcome];
      if outcome.HoursMissing? {
        return;
      }
    }
  }

  /** The state of the year loop: the outcomes of the first years so far,
      none of which ended the run. */
  ghost predicate Progress(outcomes: seq<YearOutcome>, years: seq<int>, byYear: map<int, seq<string>>,
                           written: int -> bool, load: string -> Option<seq<Sample>>)
    requires forall y :: y in years ==> y in byYear
  {
    && |outcomes| <= |years|
    && outcomes == YearOutcomes(years[..|outcomes|], byYear, written, load)
    && forall i :: 0 <= i < |outcomes| ==> !outcomes[i].HoursMissing?
  }

  /** One pass of the year loop adds the next year's outcome. */
  lemma ProgressStep(outcomes: seq<YearOutcome>, years: seq<int>, byYear: map<int, seq<string>>,
                     written: int -> bool, load: string -> Option<seq<Sample>>, o: YearOutcome)
    requires forall y :: y in years ==> y in byYear
    requires Progress(outcomes, years, byYear, written, load) && |outcomes| < |years|
    requires o == YearResult(years[|outcomes|], byYear[years[|outcomes|]], written, load)
    ensures var next := outcomes + [o];
      && |next| <= |years|
      && next == YearOutcomes(years[..|next|], byYear, written, load)
      && (forall i :: 0 <= i < |next| - 1 ==> !next[i].HoursMissing?)
      && (!o.HoursMissing? ==> Progress(next, years, byYear, written, load))
  {
    YearOutcomesSnoc(years, |outcomes|, byYear, written, load, o);
  }

  /** `f` applied to each year, one after the other. */
  function MapYears(years: seq<int>, f: int --> YearOutcome): seq<YearOutcome>
    requires forall y :: y in years ==> f.requires(y)
  {
    if years == [] then []
    else
      var n := |years| - 1;
      assert years[n] in years;
      assert f.requires(years[n]);
      MapYears(years[..n], f) + [f(years[n])]
  }

  lemma MapYearsSnoc(years: seq<int>, n: nat, f: int --> YearOutcome)
    requires forall y :: y in years ==> f.requires(y)
    requires n < |years|
    ensures MapYears(years[..n + 1], f) == MapYears(years[..n], f) + [f(years[n])]
  {
    assert years[..n + 1][..n] == years[..n];
  }

  lemma {:induction false} MapYearsAt(years: seq<int>, f: int --> YearOutcome)
    requires forall y :: y in years ==> f.requires(y)
    ensures var r := MapYears(years, f);
      && |r| == |years|
      && forall i :: 0 <= i < |years| ==> r[i] == f(years[i])
  {
    if years != [] {
      var n := |years| - 1;
      MapYearsAt(years[..n], f);
      var prev := MapYears(years[..n], f);
      var r := MapYears(years, f);
      forall i | 0 <= i < |years| ensures r[i] == f(years[i]) {
        if i < n {
          assert r[i] == prev[i];
          assert years[..n][i] == years[i];
        }
      }
    }
  }

  /** The outcome of a year with files. */
  function OutcomeOf(byYear: map<int, seq<string>>, written: int -> bool,
                     load: string -> Option<seq<Sample>>): int --> YearOutcome
  {
    y requires y in byYear => YearResult(y, byYear[y], written, load)
  }

  /** The outcomes of the given years, one after the other. */
  function YearOutcomes(years: seq<int>, byYear: map<int, seq<string>>, written: int -> bool,
                        load: string -> Option<seq<Sample>>): seq<YearOutcome>
    requires forall y :: y in years ==> y in byYear
  {
    MapYears(years, OutcomeOf(byYear, written, load))
  }

  /** One more year adds its outcome. */
  lemma YearOutcomesSnoc(years: seq<int>, n: nat, byYear: map<int, seq<string>>, written: int -> bool,
                         load: string -> Option<seq<Sample>>, o: YearOutcome)
    requires forall y :: y in years ==> y in byYear
    requires n < |years| && o == YearResult(years[n], byYear[years[n]], written, load)
    ensures YearOutcomes(years[..n + 1], byYear, written, load) == YearOutcomes(years[..n], byYear, written, load) + [o]
  {
    MapYearsSnoc(years, n, OutcomeOf(byYear, written, load));
  }

  /** The i-th outcome is the result of the i-th year. */
  lemma YearOutcomesAt(years: seq<int>, byYear: map<int, seq<string>>, written: int -> bool,
                       load: string -> Option<seq<Sample>>)
    requires forall y :: y in years ==> y in byYear
    ensures var r := YearOutcomes(years, byYear, written, load);
      && |r| == |years|
      && forall i :: 0 <= i < |years| ==> r[i] == YearResult(years[i], byYear[years[i]], written, load)
  {
    MapYearsAt(years, OutcomeOf(byYear, written, load));
  }
}
