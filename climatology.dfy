/** The monthly series of the morph pipeline: the historical climatology
    (1994-2014) and the target year's monthly values of the four climate
    variables, loaded from the CMIP6 daily files found by glob patterns,
    from the hourly reanalysis CSVs (wind), with the fallback order of the
    loaders. Directory globbing, NetCDF reading, nearest-point selection
    and spatial means are abstracted in a `Store`. */
module Climatology {

  import opened Wrappers
  import opened Text
  import opened Seqs
  import opened Reals

  type Month = m: int | 1 <= m <= 12 witness 1

  /** One daily value at the site and the calendar month of its day. */
  datatype Daily = Daily(month: Month, value: real)

  datatype ClimError =
    | NotFound                          // FileNotFoundError from a loader
    | MissingMonths                     // the month group-by did not give 12 months
    | SpreadsheetFailed                 // the spreadsheet fallback raised
    | SeriesMissing(name: string)       // a required monthly series is None
    | SeriesLength(name: string, n: nat)
    | FillMissing                       // float(None) for an absent optional series

  const MODEL := "ACCESS-CM2"
  const HIST_FIRST := 1994
  const HIST_LAST := 2014
  const VARS := ["rsds", "tas", "sfcWind", "hurs"]

  /** What the loaders can observe of the file system. */
  datatype Store = Store(
    hits: (string, string) -> seq<string>,   // rglob(pattern) under a scenario directory, in its order
    daily: string -> seq<Daily>,             // a CMIP6 file's daily series at the site
    windCsv: int -> Option<seq<Daily>>,      // (month, WindSpeed) rows of the year's hourly CSV without missing values; None if absent
    spreadsheetExists: bool)

  // ---------------------------------------------------------------
  // _as_monthly_series
  // ---------------------------------------------------------------

  /** The shapes a monthly series can arrive in. */
  datatype MonthlyInput = Absent | Scalar(x: real) | Values(vs: seq<real>)

  /** A series of 12 monthly values (index i is month i + 1), or the error
      the conversion raises. */
  function AsMonthlySeries(x: MonthlyInput, name: string, allowNone: bool, fill: Option<real>): (r: Result<seq<real>, ClimError>)
    ensures r.Ok? ==> |r.value| == 12
    ensures x.Absent? ==> (r.Ok? <==> allowNone && fill.Some?)
    ensures x.Absent? && !allowNone ==> r == Err(SeriesMissing(name))
    ensures x.Absent? && r.Ok? ==> forall i :: 0 <= i < 12 ==> r.value[i] == fill.value
    ensures x.Scalar? ==> r.Ok? && forall i :: 0 <= i < 12 ==> r.value[i] == x.x
    ensures x.Values? ==> (r.Ok? <==> |x.vs| == 12) && (r.Ok? ==> r.value == x.vs)
    ensures x.Values? && r.Err? ==> r.error == SeriesLength(name, |x.vs|)
  {
    match x
    case Absent =>
      if !allowNone then Err(SeriesMissing(name))
      else if fill.None? then Err(FillMissing)
      else Ok(seq(12, i => fill.value))
    case Scalar(v) => Ok(seq(12, i => v))
    case Values(vs) => if |vs| != 12 then Err(SeriesLength(name, |vs|)) else Ok(vs)
  }

  /** `d.get(k)` of a dictionary of monthly series. */
  function Get(d: map<string, seq<real>>, k: string): MonthlyInput
  {
    if k in d then Values(d[k]) else Absent
  }

  // ---------------------------------------------------------------
  // Monthly means of daily values
  // ---------------------------------------------------------------

  function CountIn(days: seq<Daily>, m: Month): nat
  {
    if days == [] then 0
    else CountIn(days[..|days| - 1], m) + (if days[|days| - 1].month == m then 1 else 0)
  }

  function SumIn(days: seq<Daily>, m: Month): real
  {
    if days == [] then 0.0
    else SumIn(days[..|days| - 1], m) + (if days[|days| - 1].month == m then days[|days| - 1].value else 0.0)
  }

  predicate AllMonths(days: seq<Daily>)
  {
    forall m: Month :: CountIn(days, m) > 0
  }

  /** `groupby("time.month").mean()` then `index = range(1, 13)`: the mean
      of each month's values, or an error when some month has none (the
      index assignment then fails on the length mismatch). */
  function MonthlyMeans(days: seq<Daily>): (r: Result<seq<real>, ClimError>)
    ensures r.Ok? ==> |r.value| == 12
  {
    if AllMonths(days) then Ok(seq(12, i requires 0 <= i < 12 => SumIn(days, i + 1) / (CountIn(days, i + 1) as real)))
    else Err(MissingMonths)
  }

  lemma {:induction false} SumInBounds(days: seq<Daily>, m: Month, lo: real, hi: real)
    requires forall i :: 0 <= i < |days| && days[i].month == m ==> lo <= days[i].value <= hi
    ensures Within(CountIn(days, m) as real, SumIn(days, m), lo, hi)
  {
    if days != [] {
      var n := |days|;
      var init := days[..n - 1];
      assert forall i :: 0 <= i < n - 1 ==> init[i] == days[i];
      SumInBounds(init, m, lo, hi);
      var c, t := CountIn(init, m) as real, SumIn(init, m);
      var c2, t2 := CountIn(days, m) as real, SumIn(days, m);
      if days[n - 1].month == m {
        assert c2 == c + 1.0 && t2 == t + days[n - 1].value;
      } else {
        assert c2 == c && t2 == t;
      }
      StepBounds(c, t, c2, t2, lo, hi);
    }
  }

  /** Every monthly mean lies within the range of that month's values. */
  lemma MonthlyMeanBounds(days: seq<Daily>, m: Month, lo: real, hi: real)
    requires MonthlyMeans(days).Ok?
    requires forall i :: 0 <= i < |days| && days[i].month == m ==> lo <= days[i].value <= hi
    ensures lo <= MonthlyMeans(days).value[m - 1] <= hi
  {
    SumInBounds(days, m, lo, hi);
    var c := CountIn(days, m) as real;
    var s := SumIn(days, m);
    assert MonthlyMeans(days).value[m - 1] == s / c;
    DivBetween(s, c, lo, hi);
  }

  lemma {:induction false} CountSumAppend(a: seq<Daily>, b: seq<Daily>, m: Month)
    ensures CountIn(a + b, m) == CountIn(a, m) + CountIn(b, m)
    ensures SumIn(a + b, m) == SumIn(a, m) + SumIn(b, m)
    decreases |b|
  {
    if b == [] {
      assert a + b == a;
    } else {
      var n := |b|;
      assert (a + b)[..|a + b| - 1] == a + b[..n - 1];
      CountSumAppend(a, b[..n - 1], m);
    }
  }

  /** Pooling the days of two periods before averaging (the `concat`
      then group-by of the historical loaders) gives, month by month, a
      value between the two periods' own monthly means: the pooled
      climatology is a day-weighted mean, never outside its parts. */
  lemma PooledBetween(a: seq<Daily>, b: seq<Daily>, m: Month)
    requires MonthlyMeans(a).Ok? && MonthlyMeans(b).Ok?
    ensures MonthlyMeans(a + b).Ok?
    ensures var p, x, y := MonthlyMeans(a + b).value[m - 1], MonthlyMeans(a).value[m - 1], MonthlyMeans(b).value[m - 1];
            (x <= p <= y) || (y <= p <= x)
  {
    forall k: Month ensures CountIn(a + b, k) > 0 { CountSumAppend(a, b, k); }
    CountSumAppend(a, b, m);
    Mediant(SumIn(a, m), CountIn(a, m) as real, SumIn(b, m), CountIn(b, m) as real);
  }

  /** (sa + sb) / (ca + cb) lies between sa / ca and sb / cb. */
  lemma Mediant(sa: real, ca: real, sb: real, cb: real)
    requires ca > 0.0 && cb > 0.0
    ensures var p, x, y := (sa + sb) / (ca + cb), sa / ca, sb / cb;
            (x <= p <= y) || (y <= p <= x)
  {
    var x, y := sa / ca, sb / cb;
    var c := ca + cb;
    var p := (sa + sb) / c;
    assert sa == x * ca;
    assert sb == y * cb;
    assert p * c == sa + sb;
    if x <= y {
      MulMono(x, y, cb);
      MulMono(x, y, ca);
      assert x * c == x * ca + x * cb;
      assert y * c == y * ca + y * cb;
      CancelLe(x, p, c);
      CancelLe(p, y, c);
    } else {
      MulMono(y, x, cb);
      MulMono(y, x, ca);
      assert x * c == x * ca + x * cb;
      assert y * c == y * ca + y * cb;
      CancelLe(y, p, c);
      CancelLe(p, x, c);
    }
  }

  // ---------------------------------------------------------------
  // Finding files
  // ---------------------------------------------------------------

  /** The first hit of the first pattern that has any (`_find_first_existing`). */
  function FirstHit(hits: string -> seq<string>, patterns: seq<string>): Option<string>
  {
    if patterns == [] then None
    else if hits(patterns[0]) != [] then Some(hits(patterns[0])[0])
    else FirstHit(hits, patterns[1..])
  }

  /** Nothing is found exactly when no pattern has a hit; otherwise the
      result is the first hit of the earliest pattern that has one. */
  lemma {:induction false} FirstHitSpec(hits: string -> seq<string>, patterns: seq<string>)
    ensures FirstHit(hits, patterns).None? <==> forall i :: 0 <= i < |patterns| ==> hits(patterns[i]) == []
    ensures FirstHit(hits, patterns).Some? ==>
              exists i :: 0 <= i < |patterns| && hits(patterns[i]) != []
                          && FirstHit(hits, patterns).value == hits(patterns[i])[0]
                          && forall j :: 0 <= j < i ==> hits(patterns[j]) == []
  {
    if patterns != [] && hits(patterns[0]) == [] {
      FirstHitSpec(hits, patterns[1..]);
      assert forall i :: 1 <= i < |patterns| ==> patterns[1..][i - 1] == patterns[i];
      if FirstHit(hits, patterns).Some? {
        var i :| 0 <= i < |patterns[1..]| && hits(patterns[1..][i]) != []
                 && FirstHit(hits, patterns).value == hits(patterns[1..][i])[0]
                 && forall j :: 0 <= j < i ==> hits(patterns[1..][j]) == [];
        assert forall j :: 0 <= j < i + 1 ==> hits(patterns[j]) == [] by {
          forall j | 0 <= j < i + 1 ensures hits(patterns[j]) == [] {
            if j > 0 { assert patterns[j] == patterns[1..][j - 1]; }
          }
        }
      }
    }
  }

  method FindFirstExisting(hits: string -> seq<string>, patterns: seq<string>) returns (r: Option<string>)
    ensures r == FirstHit(hits, patterns)
  {
    var i := 0;
    while i < |patterns|
      invariant 0 <= i <= |patterns|
      invariant FirstHit(hits, patterns) == FirstHit(hits, patterns[i..])
    {
      assert patterns[i..][1..] == patterns[i + 1..];
      var found := hits(patterns[i]);
      if found != [] {
        return Some(found[0]);
      }
      i := i + 1;
    }
    return None;
  }

  function HitsIn(store: Store, dir: string): string -> seq<string>
  {
    pat => store.hits(dir, pat)
  }

  /** `head` followed by each tail. */
  function Prefixed(head: string, tails: seq<string>): (ps: seq<string>)
    ensures |ps| == |tails|
    ensures forall i :: 0 <= i < |ps| ==> |ps[i]| >= |head| && ps[i][..|head|] == head
  {
    seq(|tails|, i requires 0 <= i < |tails| => head + tails[i])
  }

  /** The patterns for one target year of a scenario, in the order tried;
      each starts with `<var>_day_<model>_<scenario>_`. */
  function YearPatterns(v: string, ssp: string, year: int): (ps: seq<string>)
    ensures |ps| == 8
  {
    var y := IntToString(year);
    Prefixed(v + "_day_" + MODEL + "_" + ssp + "_",
      [ "*_gn_" + y + ".nc", "*_gn_" + y + "_*.nc",
        "r1i1p1f1_gn_" + y + ".nc", "r1i1p1f1_gn_" + y + "_*.nc",
        "*_" + y + ".nc", "*_" + y + "_*.nc",
        "*_gn_" + y + "_v2.0.nc", "*_gn_" + y + "_v2.0_*.nc" ])
  }

  /** The patterns for one historical year, in the order tried; each
      starts with `<var>_day_<model>_historical_`. */
  function HistPatterns(v: string, year: int): (ps: seq<string>)
    ensures |ps| == 5
  {
    var y := IntToString(year);
    Prefixed(v + "_day_" + MODEL + "_historical_",
      [ "*_gn_" + y + "_*.nc", "*_" + y + "_*.nc",
        "r1i1p1f1_gn_" + y + ".nc", "r1i1p1f1_gn_" + y + "_v2.0.nc",
        "r1i1p1f1_gn_" + y + ".nc4" ])
  }

  // ---------------------------------------------------------------
  // Loaders
  // ---------------------------------------------------------------

  /** "historical" before 2015, the given scenario from 2015 on. */
  function LookupScenario(ssp: string, year: int): (name: string)
    ensures year < 2015 ==> name == "historical"
    ensures year >= 2015 ==> name == ssp
  {
    if year >= 2015 then ssp else "historical"
  }

  /** `_load_nex_one_year_monthly`: the target year's monthly means, or
      NotFound when no pattern has a hit. */
  function NexOneYear(v: string, year: int, ssp: string, store: Store): (r: Result<seq<real>, ClimError>)
    ensures r.Ok? ==> |r.value| == 12
  {
    match FirstHit(HitsIn(store, ssp), YearPatterns(v, ssp, year))
    case None => Err(NotFound)
    case Some(p) => MonthlyMeans(store.daily(p))
  }

  /** The historical years, 1994 to 2014 (`range(1994, 2015)`). */
  function HistYears(): (ys: seq<int>)
    ensures |ys| == HIST_LAST - HIST_FIRST + 1
    ensures forall i :: 0 <= i < |ys| ==> ys[i] == HIST_FIRST + i
  {
    seq(HIST_LAST - HIST_FIRST + 1, i => HIST_FIRST + i)
  }

  /** The pieces a year loop appends: the days of every year for which
      `find` yields some, in year order. */
  function Found(years: seq<int>, find: int -> Option<seq<Daily>>): seq<seq<Daily>>
  {
    if years == [] then []
    else Found(years[..|years| - 1], find)
         + (match find(years[|years| - 1]) case Some(d) => [d] case None => [])
  }

  /** The pooled monthly mean of a year loop: NotFound when no year gave
      anything, else the monthly means of all the days together. */
  function PooledMeans(years: seq<int>, find: int -> Option<seq<Daily>>): (r: Result<seq<real>, ClimError>)
    ensures r.Ok? ==> |r.value| == 12
  {
    if Found(years, find) == [] then Err(NotFound) else MonthlyMeans(Flatten(Found(years, find)))
  }

  lemma {:induction false} FoundEmpty(years: seq<int>, find: int -> Option<seq<Daily>>)
    ensures Found(years, find) == [] <==> forall i :: 0 <= i < |years| ==> find(years[i]).None?
  {
    if years != [] {
      var n := |years|;
      FoundEmpty(years[..n - 1], find);
      assert forall i :: 0 <= i < n - 1 ==> years[..n - 1][i] == years[i];
    }
  }

  /** A historical pooled mean is NotFound exactly when none of the years
      1994 to 2014 yields data; otherwise it is 12 months or a missing-month
      error. */
  lemma PooledNotFound(find: int -> Option<seq<Daily>>)
    ensures PooledMeans(HistYears(), find) == Err(NotFound) <==>
              forall y :: HIST_FIRST <= y <= HIST_LAST ==> find(y).None?
    ensures PooledMeans(HistYears(), find).Err? && PooledMeans(HistYears(), find) != Err(NotFound) ==>
              PooledMeans(HistYears(), find) == Err(MissingMonths)
  {
    var ys := HistYears();
    FoundEmpty(ys, find);
    if forall i :: 0 <= i < |ys| ==> find(ys[i]).None? {
      forall y | HIST_FIRST <= y <= HIST_LAST ensures find(y).None? {
        assert ys[y - HIST_FIRST] == y;
      }
    }
  }

  /** What one historical year contributes to a CMIP6 climatology. */
  function HistFinder(v: string, store: Store): int -> Option<seq<Daily>>
  {
    y => match FirstHit(HitsIn(store, "historical"), HistPatterns(v, y))
         case Some(p) => Some(store.daily(p))
         case None => None
  }

  /** `_load_nex_hist_monthly` (and, with v = "hurs", the humidity loader). */
  function NexHist(v: string, store: Store): (r: Result<seq<real>, ClimError>)
    ensures r.Ok? ==> |r.value| == 12
  {
    PooledMeans(HistYears(), HistFinder(v, store))
  }

  /** The loop over 1994..2014 appending each found year's series. */
  method LoadNexHistMonthly(v: string, store: Store) returns (r: Result<seq<real>, ClimError>)
    ensures r == NexHist(v, store)
  {
    var years := HistYears();
    var das: seq<seq<Daily>> := [];
    var i := 0;
    while i < |years|
      invariant 0 <= i <= |years|
      invariant das == Found(years[..i], HistFinder(v, store))
    {
      assert years[..i + 1][..i] == years[..i];
      var p := FindFirstExisting(HitsIn(store, "historical"), HistPatterns(v, years[i]));
      if p.Some? {
        das := das + [store.daily(p.value)];
      }
      i := i + 1;
    }
    assert years[..i] == years;
    if das == [] {
      return Err(NotFound);
    }
    r := MonthlyMeans(Flatten(das));
  }

  /** `_load_wind_clim_from_era5_csvs`: the same pooled mean over the
      years whose hourly CSV exists. */
  function WindClim(store: Store): (r: Result<seq<real>, ClimError>)
    ensures r.Ok? ==> |r.value| == 12
  {
    PooledMeans(HistYears(), store.windCsv)
  }

  method LoadWindClim(store: Store) returns (r: Result<seq<real>, ClimError>)
    ensures r == WindClim(store)
  {
    var years := HistYears();
    var arr: seq<seq<Daily>> := [];
    var i := 0;
    while i < |years|
      invariant 0 <= i <= |years|
      invariant arr == Found(years[..i], store.windCsv)
    {
      assert years[..i + 1][..i] == years[..i];
      var rows := store.windCsv(years[i]);
      if rows.Some? {
        arr := arr + [rows.value];
      }
      i := i + 1;
    }
    assert years[..i] == years;
    if arr == [] {
      return Err(NotFound);
    }
    r := MonthlyMeans(Flatten(arr));
  }

  /** rsds and tas: the CMIP6 climatology; when it fails and the
      spreadsheet exists, the spreadsheet loader raises instead (it can
      never return); otherwise the original error is re-raised. */
  function WithSpreadsheetFallback(r: Result<seq<real>, ClimError>, spreadsheetExists: bool): Result<seq<real>, ClimError>
  {
    if r.Ok? then r else if spreadsheetExists then Err(SpreadsheetFailed) else r
  }

  /** `load_hist_clims`. */
  function HistClims(store: Store): Result<map<string, seq<real>>, ClimError>
  {
    var rsds := WithSpreadsheetFallback(NexHist("rsds", store), store.spreadsheetExists);
    var tas := WithSpreadsheetFallback(NexHist("tas", store), store.spreadsheetExists);
    var wind := if WindClim(store).Ok? then WindClim(store) else NexHist("sfcWind", store);
    var hurs := NexHist("hurs", store);
    if rsds.Err? then Err(rsds.error)
    else if tas.Err? then Err(tas.error)
    else if wind.Err? then Err(wind.error)
    else Ok(ClimDict(rsds.value, tas.value, wind.value, hurs))
  }

  /** The dictionary `load_hist_clims` returns: rsds, tas and sfcWind, and
      hurs when it loaded. */
  function ClimDict(rsds: seq<real>, tas: seq<real>, wind: seq<real>, hurs: Result<seq<real>, ClimError>): (c: map<string, seq<real>>)
    ensures "rsds" in c && "tas" in c && "sfcWind" in c && ("hurs" in c <==> hurs.Ok?)
    ensures c["rsds"] == rsds && c["tas"] == tas && c["sfcWind"] == wind
    ensures hurs.Ok? ==> c["hurs"] == hurs.value
    ensures forall k :: k in c ==> k in {"rsds", "tas", "sfcWind", "hurs"}
  {
    var clim := map["rsds" := rsds, "tas" := tas, "sfcWind" := wind];
    if hurs.Ok? then clim["hurs" := hurs.value] else clim
  }

  /** A climatology holds rsds, tas and sfcWind, each of 12 months, and
      hurs exactly when its loader succeeded; rsds and tas are the CMIP6
      climatologies and wind comes from the hourly CSVs whenever they
      give one. */
  lemma HistClimsContents(store: Store)
    requires HistClims(store).Ok?
    ensures var c := HistClims(store).value;
      && "rsds" in c && "tas" in c && "sfcWind" in c
      && ("hurs" in c <==> NexHist("hurs", store).Ok?)
      && (forall k :: k in c ==> |c[k]| == 12)
      && c["rsds"] == NexHist("rsds", store).value
      && c["tas"] == NexHist("tas", store).value
      && (WindClim(store).Ok? ==> c["sfcWind"] == WindClim(store).value)
      && (WindClim(store).Err? ==> c["sfcWind"] == NexHist("sfcWind", store).value)
  {
    var rsds := NexHist("rsds", store);
    var tas := NexHist("tas", store);
    var wind := if WindClim(store).Ok? then WindClim(store) else NexHist("sfcWind", store);
    var hurs := NexHist("hurs", store);
    assert rsds.Ok? && tas.Ok? && wind.Ok?;
    var c := ClimDict(rsds.value, tas.value, wind.value, hurs);
    assert HistClims(store).value == c;
    forall k | k in c ensures |c[k]| == 12 {
      assert k == "rsds" || k == "tas" || k == "sfcWind" || k == "hurs";
    }
  }

  /** The climatology loads exactly when rsds and tas load from CMIP6 and
      wind loads from either source; when rsds fails and the spreadsheet
      exists, the spreadsheet's error is what surfaces. */
  lemma HistClimsOutcome(store: Store)
    ensures HistClims(store).Ok? <==> NexHist("rsds", store).Ok? && NexHist("tas", store).Ok?
                                      && (WindClim(store).Ok? || NexHist("sfcWind", store).Ok?)
    ensures NexHist("rsds", store).Err? && store.spreadsheetExists ==> HistClims(store) == Err(SpreadsheetFailed)
    ensures NexHist("rsds", store).Err? && !store.spreadsheetExists ==> HistClims(store) == Err(NexHist("rsds", store).error)
  {
  }

  /** The method fills the dictionary through the try/except branches. */
  method LoadHistClims(store: Store) returns (r: Result<map<string, seq<real>>, ClimError>)
    ensures r == HistClims(store)
  {
    var clim: map<string, seq<real>> := map[];
    var vs := ["rsds", "tas"];
    var i := 0;
    while i < 2
      invariant 0 <= i <= 2
      invariant i >= 1 ==> NexHist("rsds", store).Ok?
      invariant i == 2 ==> NexHist("tas", store).Ok?
      invariant clim == if i == 0 then map[]
                        else if i == 1 then map["rsds" := NexHist("rsds", store).value]
                        else map["rsds" := NexHist("rsds", store).value, "tas" := NexHist("tas", store).value]
    {
      var s := LoadNexHistMonthly(vs[i], store);
      if s.Err? {
        if store.spreadsheetExists {
          return Err(SpreadsheetFailed);
        }
        return Err(s.error);
      }
      clim := clim[vs[i] := s.value];
      i := i + 1;
    }
    var w := LoadWindClim(store);
    if w.Err? {
      w := LoadNexHistMonthly("sfcWind", store);
      if w.Err? {
        return Err(w.error);
      }
    }
    clim := clim["sfcWind" := w.value];
    var h := LoadNexHistMonthly("hurs", store);
    if h.Ok? {
      clim := clim["hurs" := h.value];
    }
    r := Ok(clim);
  }

  /** The loop of `load_future_monthly` over the remaining variables: a
      failing rsds, tas or sfcWind raises, a failing hurs leaves the key
      without a series. */
  function FutureFold(vars: seq<string>, year: int, name: string, store: Store, fut: map<string, seq<real>>): Result<map<string, seq<real>>, ClimError>
  {
    if vars == [] then Ok(fut)
    else
      var s := NexOneYear(vars[0], year, name, store);
      if s.Ok? then FutureFold(vars[1..], year, name, store, fut[vars[0] := s.value])
      else if vars[0] != "hurs" then Err(s.error)
      else FutureFold(vars[1..], year, name, store, fut)
  }

  /** `load_future_monthly`: the target year's series from the scenario
      directory the lookup rule picks. */
  function FutureMonthly(ssp: string, year: int, store: Store): Result<map<string, seq<real>>, ClimError>
  {
    FutureFold(VARS, year, LookupScenario(ssp, year), store, map[])
  }

  method LoadFutureMonthly(ssp: string, year: int, store: Store) returns (r: Result<map<string, seq<real>>, ClimError>)
    ensures r == FutureMonthly(ssp, year, store)
  {
    var name := LookupScenario(ssp, year);
    var fut: map<string, seq<real>> := map[];
    var i := 0;
    while i < |VARS|
      invariant 0 <= i <= |VARS|
      invariant FutureMonthly(ssp, year, store) == FutureFold(VARS[i..], year, name, store, fut)
    {
      assert VARS[i..][1..] == VARS[i + 1..];
      var s := NexOneYear(VARS[i], year, name, store);
      if s.Ok? {
        fut := fut[VARS[i] := s.value];
      } else if VARS[i] != "hurs" {
        return Err(s.error);
      }
      i := i + 1;
    }
    r := Ok(fut);
  }

  /** A year before 2015 reads the historical directory whatever the
      scenario. The future series load exactly when rsds, tas and sfcWind
      load, and then hold those three and hurs only when its file loaded;
      otherwise the error is that of the first of rsds, tas, sfcWind to
      fail. */
  lemma {:induction false} FutureMonthlySpec(ssp: string, year: int, store: Store)
    ensures year < 2015 ==> FutureMonthly(ssp, year, store) == FutureMonthly("historical", year, store)
    ensures var name := LookupScenario(ssp, year);
      var rsds, tas, wind, hurs := NexOneYear("rsds", year, name, store), NexOneYear("tas", year, name, store),
                                   NexOneYear("sfcWind", year, name, store), NexOneYear("hurs", year, name, store);
      var r := FutureMonthly(ssp, year, store);
      && (r.Ok? <==> rsds.Ok? && tas.Ok? && wind.Ok?)
      && (r.Ok? ==> && "rsds" in r.value && "tas" in r.value && "sfcWind" in r.value
                    && r.value["rsds"] == rsds.value && r.value["tas"] == tas.value
                    && r.value["sfcWind"] == wind.value
                    && ("hurs" in r.value <==> hurs.Ok?)
                    && (hurs.Ok? ==> r.value["hurs"] == hurs.value)
                    && r.value.Keys <= {"rsds", "tas", "sfcWind", "hurs"})
      && (rsds.Err? ==> r == Err(rsds.error))
      && (rsds.Ok? && tas.Err? ==> r == Err(tas.error))
      && (rsds.Ok? && tas.Ok? && wind.Err? ==> r == Err(wind.error))
  {
    var name := LookupScenario(ssp, year);
    var rsds, tas, wind, hurs := NexOneYear("rsds", year, name, store), NexOneYear("tas", year, name, store),
                                 NexOneYear("sfcWind", year, name, store), NexOneYear("hurs", year, name, store);
    var v1, v2, v3 := ["tas", "sfcWind", "hurs"], ["sfcWind", "hurs"], ["hurs"];
    assert VARS[1..] == v1 && v1[1..] == v2 && v2[1..] == v3 && v3[1..] == [];
    var r := FutureMonthly(ssp, year, store);
    if rsds.Ok? {
      var f1 := map["rsds" := rsds.value];
      assert r == FutureFold(v1, year, name, store, f1);
      if tas.Ok? {
        var f2 := f1["tas" := tas.value];
        assert r == FutureFold(v2, year, name, store, f2);
        if wind.Ok? {
          var f3 := f2["sfcWind" := wind.value];
          assert r == FutureFold(v3, year, name, store, f3);
          if hurs.Ok? {
            assert r == FutureFold([], year, name, store, f3["hurs" := hurs.value]);
          } else {
            assert r == FutureFold([], year, name, store, f3);
          }
        }
      }
    }
  }
}
