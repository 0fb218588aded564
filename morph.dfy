/** The monthly morph of one target year: the reference hourly profile is
    read and checked, the climatology and the target year's monthly series
    become twelve ratios (rsds, sfcWind) and offsets (tas, hurs), these are
    applied hour by hour, the year is re-stamped, and the written table is
    validated again. */
module Morph {

  import opened Wrappers
  import opened ExtReal
  import opened Calendar
  import opened Sorting
  import opened Text
  import opened Climatology

  /** The columns a reference or morphed table must carry besides DateTime. */
  const REQUIRED := ["GHI", "DNI", "DHI", "TempC", "WindSpeed", "RelHum"]

  /** The typical peak irradiance (W/m2) the scale guess aims at. */
  const TARGET_PEAK := 900.0

  /** How far from 1 a scale must be before it is applied. */
  const SCALE_TOLERANCE := 0.000001

  /** Added to the scaled GHI before dividing DNI by it. */
  const EPS := 0.000001

  // ---------------------------------------------------------------
  // Tables as read from CSV
  // ---------------------------------------------------------------

  /** A DateTime that pandas parsed: always a real calendar date. */
  type ParsedTime = t: Instant | ValidStamp(t.hourStart) witness Instant(Stamp(2001, 1, 1, 0), 0, 0)

  /** One CSV line: its DateTime (None where it does not parse) and the
      numeric value of each column (a cell that is absent or not numeric
      reads as NaN). */
  datatype Row = Row(time: Option<ParsedTime>, cells: map<string, Ext>)

  datatype Table = Table(columns: seq<string>, rows: seq<Row>)

  function Cell(r: Row, c: string): Ext
  {
    if c in r.cells then r.cells[c] else NaN
  }

  /** One hour of a profile with its timestamp floored to the hour. */
  datatype Hour = Hour(stamp: Stamp, ghi: Ext, dni: Ext, dhi: Ext, temp: Ext, wind: Ext, rh: Ext)

  datatype MorphError =
    | NoDateTime                        // the table has no DateTime column
    | BadDateTimes(count: nat)          // lines whose DateTime does not parse
    | MissingColumn(name: string)       // the first required column absent
    | NaNValues                         // a required cell is NaN
    | RowCount(n: nat)                  // not 8760 rows after the Feb-29 rule
    | InvalidDate                       // re-stamping made a date that does not exist
    | Clim(e: ClimError)                // a monthly series could not be loaded or shaped

  /** Number of lines whose DateTime did not parse. */
  function BadTimes(rows: seq<Row>): (n: nat)
    ensures n <= |rows|
    ensures n == 0 <==> forall i :: 0 <= i < |rows| ==> rows[i].time.Some?
  {
    if rows == [] then 0
    else BadTimes(rows[..|rows| - 1]) + (if rows[|rows| - 1].time.None? then 1 else 0)
  }

  /** The first name of `req` that is not a column. */
  function FirstMissing(columns: seq<string>, req: seq<string>): (r: Option<string>)
    ensures r.None? <==> forall i :: 0 <= i < |req| ==> req[i] in columns
    ensures r.Some? ==> r.value in req && r.value !in columns
  {
    if req == [] then None
    else if req[0] !in columns then Some(req[0])
    else FirstMissing(columns, req[1..])
  }

  /** The name reported is the first missing one in `req`'s order. */
  lemma {:induction false} FirstMissingIsFirst(columns: seq<string>, req: seq<string>)
    requires FirstMissing(columns, req).Some?
    ensures exists i :: 0 <= i < |req| && req[i] == FirstMissing(columns, req).value
                        && forall j :: 0 <= j < i ==> req[j] in columns
  {
    if req[0] in columns {
      FirstMissingIsFirst(columns, req[1..]);
      var i :| 0 <= i < |req[1..]| && req[1..][i] == FirstMissing(columns, req).value
               && forall j :: 0 <= j < i ==> req[1..][j] in columns;
      assert req[i + 1] == FirstMissing(columns, req).value;
      assert forall j :: 0 <= j < i + 1 ==> req[j] in columns by {
        forall j | 0 <= j < i + 1 ensures req[j] in columns {
          if j > 0 { assert req[j] == req[1..][j - 1]; }
        }
      }
    } else {
      assert req[0] == FirstMissing(columns, req).value;
    }
  }

  /** Some required cell of some line is NaN. */
  predicate HasNaN(rows: seq<Row>)
  {
    exists i, c :: 0 <= i < |rows| && c in REQUIRED && IsNaN(Cell(rows[i], c))
  }

  /** The checks the reader and the validator share, in their order:
      DateTime column, DateTime parsing, required columns, NaN cells. */
  function Checked(t: Table): (r: Result<(), MorphError>)
  {
    if "DateTime" !in t.columns then Err(NoDateTime)
    else if BadTimes(t.rows) > 0 then Err(BadDateTimes(BadTimes(t.rows)))
    else if FirstMissing(t.columns, REQUIRED).Some? then Err(MissingColumn(FirstMissing(t.columns, REQUIRED).value))
    else if HasNaN(t.rows) then Err(NaNValues)
    else Ok(())
  }

  lemma CheckedSpec(t: Table)
    ensures Checked(t).Ok? <==> && "DateTime" in t.columns
                                 && (forall i :: 0 <= i < |t.rows| ==> t.rows[i].time.Some?)
                                 && (forall c :: c in REQUIRED ==> c in t.columns)
                                 && (forall i, c :: 0 <= i < |t.rows| && c in REQUIRED ==> !IsNaN(Cell(t.rows[i], c)))
    ensures "DateTime" !in t.columns ==> Checked(t) == Err(NoDateTime)
    ensures "DateTime" in t.columns && BadTimes(t.rows) > 0 ==> Checked(t) == Err(BadDateTimes(BadTimes(t.rows)))
  {
    if FirstMissing(t.columns, REQUIRED).None? {
      forall c | c in REQUIRED ensures c in t.columns {
        var i :| 0 <= i < |REQUIRED| && REQUIRED[i] == c;
      }
    }
  }

  /** The stamp the Feb-29 filter looks at (a line that did not parse never
      reaches it). */
  function RowStamp(r: Row): Stamp
  {
    if r.time.Some? then FloorHour(r.time.value) else Stamp(0, 0, 0, 0)
  }

  function HourStamp(h: Hour): Stamp { h.stamp }

  /** `if len(df) == 8784: drop Feb 29` followed by `len(df) != 8760`:
      the number of lines the count rule sees. */
  function CountAfterFeb29<T(!new)>(rows: seq<T>, stampOf: T -> Stamp): nat
  {
    if |rows| == 8784 then |RemoveFeb29(rows, stampOf)| else |rows|
  }

  // ---------------------------------------------------------------
  // _guess_irr_scale and read_era5_base
  // ---------------------------------------------------------------

  function ClipReal(x: real, lo: real, hi: real): (r: real)
    requires lo <= hi
    ensures lo <= r <= hi
    ensures lo <= x <= hi ==> r == x
    ensures x < lo ==> r == lo
    ensures x > hi ==> r == hi
  {
    if x < lo then lo else if x > hi then hi else x
  }

  /** `_guess_irr_scale`, from the 95th percentile of the GHI column. */
  function GuessIrrScale(p95: Ext): real
  {
    if !p95.Fin? || p95.v <= 0.0 then 1.0
    else ClipReal(TARGET_PEAK / p95.v, 0.1, 100.0)
  }

  /** The scale lies in [0.1, 100]; it is 1 for a missing, infinite or
      non-positive percentile; between 9 and 9000 W/m2 it brings the
      percentile to 900 exactly, and outside it saturates. */
  lemma GuessIrrScaleSpec(p95: Ext)
    ensures 0.1 <= GuessIrrScale(p95) <= 100.0
    ensures !(p95.Fin? && p95.v > 0.0) ==> GuessIrrScale(p95) == 1.0
    ensures p95.Fin? && 9.0 <= p95.v <= 9000.0 ==> GuessIrrScale(p95) * p95.v == TARGET_PEAK
    ensures p95.Fin? && p95.v > 9000.0 ==> GuessIrrScale(p95) == 0.1
    ensures p95.Fin? && 0.0 < p95.v < 9.0 ==> GuessIrrScale(p95) == 100.0
  {
    if p95.Fin? && p95.v > 0.0 {
      var p := p95.v;
      var q := TARGET_PEAK / p;
      assert q * p == TARGET_PEAK;
      if p > 9000.0 {
        assert q < 0.1 by { QuotientBelow(p); }
      } else if p < 9.0 {
        assert q > 100.0 by { QuotientAbove(p); }
      } else {
        assert 0.1 <= q <= 100.0 by { QuotientWithin(p); }
      }
    }
  }

  lemma QuotientBelow(p: real)
    requires p > 9000.0
    ensures TARGET_PEAK / p < 0.1
  {
    assert TARGET_PEAK < 0.1 * p;
  }

  lemma QuotientAbove(p: real)
    requires 0.0 < p < 9.0
    ensures TARGET_PEAK / p > 100.0
  {
    assert TARGET_PEAK > 100.0 * p;
  }

  lemma QuotientWithin(p: real)
    requires 9.0 <= p <= 9000.0
    ensures 0.1 <= TARGET_PEAK / p <= 100.0
  {
    assert 0.1 * p <= TARGET_PEAK <= 100.0 * p;
  }

  function Abs(x: real): real { if x < 0.0 then -x else x }

  /** The irradiance columns are multiplied by the scale only when it is
      further than 1e-6 from 1. */
  function Scaled(x: Ext, scale: real): (r: Ext)
    ensures Abs(scale - 1.0) <= SCALE_TOLERANCE ==> r == x
    ensures x.Fin? ==> r.Fin?
    ensures !IsNaN(x) && scale != 0.0 ==> !IsNaN(r)
  {
    if Abs(scale - 1.0) > SCALE_TOLERANCE then Mul(x, Fin(scale)) else x
  }

  /** One parsed line as an hour: floored DateTime, numeric columns,
      irradiance scaled. */
  function ToHour(r: Row, scale: real): Hour
    requires r.time.Some?
  {
    Hour(FloorHour(r.time.value), Scaled(Cell(r, "GHI"), scale), Scaled(Cell(r, "DNI"), scale),
         Scaled(Cell(r, "DHI"), scale), Cell(r, "TempC"), Cell(r, "WindSpeed"), Cell(r, "RelHum"))
  }

  /** Chronological order of hours (ties allowed). */
  predicate HourLe(a: Hour, b: Hour) { !Before(b.stamp, a.stamp) }

  lemma HourLeTotalPreorder()
    ensures TotalPreorder(HourLe)
  {
    forall a: Hour, b: Hour ensures HourLe(a, b) || HourLe(b, a) { }
    forall a: Hour, b: Hour, c: Hour | HourLe(a, b) && HourLe(b, c) ensures HourLe(a, c) { }
  }

  /** The lines as hours, in file order. */
  function RawHours(rows: seq<Row>, scale: real): (hs: seq<Hour>)
    requires forall i :: 0 <= i < |rows| ==> rows[i].time.Some?
    ensures |hs| == |rows|
    ensures forall i :: 0 <= i < |rows| ==> hs[i] == ToHour(rows[i], scale)
  {
    seq(|rows|, i requires 0 <= i < |rows| => ToHour(rows[i], scale))
  }

  /** The lines as hours, sorted by time (`sort_values`). */
  function SortedHours(rows: seq<Row>, scale: real): (hs: seq<Hour>)
    requires forall i :: 0 <= i < |rows| ==> rows[i].time.Some?
    ensures |hs| == |rows|
    ensures SortedBy(hs, HourLe)
    ensures multiset(hs) == multiset(RawHours(rows, scale))
  {
    HourLeTotalPreorder();
    SortBy(RawHours(rows, scale), HourLe)
  }

  /** The scale in force: the configured one, else the guess. */
  function ScaleOf(p95: Ext, irradScale: Option<real>): real
  {
    if irradScale.Some? then irradScale.value else GuessIrrScale(p95)
  }

  /** `read_era5_base`. The 95th percentile of GHI and the configured
      scale (`IRRAD_SCALE`, None to guess) are parameters. */
  function ReadBase(t: Table, p95: Ext, irradScale: Option<real>): Result<seq<Hour>, MorphError>
  {
    var _ :- Checked(t);
    var hours := SortedHours(t.rows, ScaleOf(p95, irradScale));
    var kept := if |hours| == 8784 then RemoveFeb29(hours, HourStamp) else hours;
    if |kept| != 8760 then Err(RowCount(|kept|)) else Ok(kept)
  }

  lemma {:induction false} RemoveFeb29Sorted(hs: seq<Hour>)
    requires SortedBy(hs, HourLe)
    ensures SortedBy(RemoveFeb29(hs, HourStamp), HourLe)
  {
    if hs != [] {
      RemoveFeb29Sorted(hs[1..]);
      var rest := RemoveFeb29(hs[1..], HourStamp);
      forall x | x in rest ensures HourLe(hs[0], x) {
        var j :| 0 <= j < |hs[1..]| && hs[1..][j] == x;
        assert hs[j + 1] == x;
      }
    }
  }

  /** A reference profile loads exactly when the shared checks pass and
      8760 lines remain after the Feb-29 rule, which removes the Feb-29
      lines only from a table of exactly 8784; a table of any other length
      is kept whole and must have 8760 lines. */
  lemma ReadBaseOutcome(t: Table, p95: Ext, irradScale: Option<real>)
    ensures var r := ReadBase(t, p95, irradScale);
      && (Checked(t).Err? ==> r == Err(Checked(t).error))
      && (Checked(t).Ok? ==>
            var hours := SortedHours(t.rows, ScaleOf(p95, irradScale));
            && (r.Ok? <==> CountAfterFeb29(hours, HourStamp) == 8760)
            && (r.Err? ==> r.error == RowCount(CountAfterFeb29(hours, HourStamp)))
            && (r.Ok? && |t.rows| != 8784 ==> r.value == hours && |t.rows| == 8760))
  {
    if Checked(t).Ok? {
      CheckedSpec(t);
    }
  }

  /** A loaded profile has 8760 hours in chronological order, no Feb-29
      hour when the file had 8784 lines, and real dates throughout. */
  lemma ReadBaseOrdered(t: Table, p95: Ext, irradScale: Option<real>)
    ensures var r := ReadBase(t, p95, irradScale);
      r.Ok? ==> && |r.value| == 8760
                && SortedBy(r.value, HourLe)
                && (|t.rows| == 8784 ==> forall i :: 0 <= i < 8760 ==> !IsFeb29(r.value[i].stamp))
                && (forall i :: 0 <= i < 8760 ==> ValidStamp(r.value[i].stamp))
  {
    var r := ReadBase(t, p95, irradScale);
    if r.Ok? {
      CheckedSpec(t);
      var scale := ScaleOf(p95, irradScale);
      var hours := SortedHours(t.rows, scale);
      ReadBaseElements(t, scale);
      if |hours| == 8784 {
        RemoveFeb29Sorted(hours);
        var kept := RemoveFeb29(hours, HourStamp);
        assert forall i :: 0 <= i < |kept| ==> kept[i] in kept;
      } else {
        assert forall i :: 0 <= i < |hours| ==> hours[i] in hours;
      }
    }
  }

  /** Every hour of a loaded profile has a real date and no NaN weather
      value; irradiance is NaN only when a configured scale of 0 meets an
      infinite value. */
  lemma ReadBaseNoNaN(t: Table, p95: Ext, irradScale: Option<real>)
    ensures var r := ReadBase(t, p95, irradScale);
      r.Ok? ==> && (forall i :: 0 <= i < 8760 ==> var h := r.value[i];
                      !IsNaN(h.temp) && !IsNaN(h.wind) && !IsNaN(h.rh))
                && (ScaleOf(p95, irradScale) != 0.0 ==>
                      forall i :: 0 <= i < 8760 ==> var h := r.value[i];
                        !IsNaN(h.ghi) && !IsNaN(h.dni) && !IsNaN(h.dhi))
  {
    var r := ReadBase(t, p95, irradScale);
    if r.Ok? {
      CheckedSpec(t);
      var scale := ScaleOf(p95, irradScale);
      var hours := SortedHours(t.rows, scale);
      ReadBaseElements(t, scale);
      if |hours| == 8784 {
        var kept := RemoveFeb29(hours, HourStamp);
        assert forall i :: 0 <= i < |kept| ==> kept[i] in kept;
      } else {
        assert forall i :: 0 <= i < |hours| ==> hours[i] in hours;
      }
    }
  }

  /** Every sorted hour of a table that passes the shared checks has a
      real date and no NaN weather value. */
  lemma ReadBaseElements(t: Table, scale: real)
    requires Checked(t).Ok?
    ensures forall x :: x in SortedHours(t.rows, scale) ==>
      && ValidStamp(x.stamp) && !IsNaN(x.temp) && !IsNaN(x.wind) && !IsNaN(x.rh)
      && (scale != 0.0 ==> !IsNaN(x.ghi) && !IsNaN(x.dni) && !IsNaN(x.dhi))
  {
    CheckedSpec(t);
    var raw := RawHours(t.rows, scale);
    var hours := SortedHours(t.rows, scale);
    forall x | x in hours
      ensures ValidStamp(x.stamp) && !IsNaN(x.temp) && !IsNaN(x.wind) && !IsNaN(x.rh)
      ensures scale != 0.0 ==> !IsNaN(x.ghi) && !IsNaN(x.dni) && !IsNaN(x.dhi)
    {
      assert x in multiset(hours);
      var i :| 0 <= i < |raw| && raw[i] == x;
      RowHourNoNaN(t.rows[i], scale);
    }
  }

  /** A line with a parsed time and no NaN in a required column gives an
      hour with a real date and no NaN, unless a scale of 0 meets an
      infinite irradiance. */
  lemma RowHourNoNaN(r: Row, scale: real)
    requires r.time.Some?
    requires forall c :: c in REQUIRED ==> !IsNaN(Cell(r, c))
    ensures var x := ToHour(r, scale);
      && ValidStamp(x.stamp) && !IsNaN(x.temp) && !IsNaN(x.wind) && !IsNaN(x.rh)
      && (scale != 0.0 ==> !IsNaN(x.ghi) && !IsNaN(x.dni) && !IsNaN(x.dhi))
  {
    assert "TempC" in REQUIRED && "WindSpeed" in REQUIRED && "RelHum" in REQUIRED;
    assert "GHI" in REQUIRED && "DNI" in REQUIRED && "DHI" in REQUIRED;
  }

  // ---------------------------------------------------------------
  // Monthly ratios and offsets
  // ---------------------------------------------------------------

  /** The twelve monthly factors, index m - 1 for month m. */
  datatype Factors = Factors(kRsds: seq<Ext>, dTas: seq<Ext>, kWspd: seq<Ext>, dHurs: seq<Ext>)

  predicate Monthly(f: Factors)
  {
    |f.kRsds| == 12 && |f.dTas| == 12 && |f.kWspd| == 12 && |f.dHurs| == 12
  }

  /** Month-by-month quotient of two series, without any guard on zero. */
  function Ratios(num: seq<real>, den: seq<real>): (r: seq<Ext>)
    requires |num| == 12 && |den| == 12
    ensures |r| == 12
  {
    seq(12, i requires 0 <= i < 12 => Div(Fin(num[i]), Fin(den[i])))
  }

  /** Month-by-month difference of two series. */
  function Offsets(a: seq<real>, b: seq<real>): (r: seq<Ext>)
    requires |a| == 12 && |b| == 12
    ensures |r| == 12
  {
    seq(12, i requires 0 <= i < 12 => Fin(a[i] - b[i]))
  }

  /** The future and climatological humidity series. A missing future
      series is 12 zeros and the climatology is then optional (12 zeros
      when absent); a present future series requires the climatology. */
  function HursSeries(clim: map<string, seq<real>>, fut: map<string, seq<real>>): Result<(seq<real>, seq<real>), ClimError>
  {
    if "hurs" !in fut then
      var futHurs :- AsMonthlySeries(Absent, "fut.hurs", true, Some(0.0));
      var zeros := seq(12, i requires 0 <= i < 12 => futHurs[i] * 0.0);
      var climHurs :- AsMonthlySeries(if "hurs" in clim then Values(clim["hurs"]) else Values(zeros),
                                      "clim.hurs", true, Some(0.0));
      Ok((futHurs, climHurs))
    else
      var futHurs :- AsMonthlySeries(Values(fut["hurs"]), "fut.hurs", false, None);
      var climHurs :- AsMonthlySeries(Get(clim, "hurs"), "clim.hurs", false, None);
      Ok((futHurs, climHurs))
  }

  /** The factor computation of `morph_one_year`, series by series in
      the source's order. */
  function MonthlyFactors(clim: map<string, seq<real>>, fut: map<string, seq<real>>): (r: Result<Factors, ClimError>)
    ensures r.Ok? ==> Monthly(r.value)
  {
    var climRsds :- AsMonthlySeries(Get(clim, "rsds"), "clim.rsds", false, None);
    var climTas :- AsMonthlySeries(Get(clim, "tas"), "clim.tas", false, None);
    var climWspd :- AsMonthlySeries(Get(clim, "sfcWind"), "clim.sfcWind", false, None);
    var futRsds :- AsMonthlySeries(Get(fut, "rsds"), "fut.rsds", false, None);
    var futTas :- AsMonthlySeries(Get(fut, "tas"), "fut.tas", false, None);
    var futWspd :- AsMonthlySeries(Get(fut, "sfcWind"), "fut.sfcWind", false, None);
    var hurs :- HursSeries(clim, fut);
    Ok(Factors(Ratios(futRsds, climRsds), Offsets(futTas, climTas),
               Ratios(futWspd, climWspd), Offsets(hurs.0, hurs.1)))
  }

  /** rsds, tas and sfcWind present with 12 months in both dictionaries. */
  predicate CoreSeries(d: map<string, seq<real>>)
  {
    && "rsds" in d && |d["rsds"]| == 12
    && "tas" in d && |d["tas"]| == 12
    && "sfcWind" in d && |d["sfcWind"]| == 12
  }

  /** The humidity offset: 0 when both humidity series are missing,
      minus the climatology when only the future one is missing, an error
      when only the climatology is missing, and the difference otherwise. */
  lemma HursOffsetCases(clim: map<string, seq<real>>, fut: map<string, seq<real>>)
    requires CoreSeries(clim) && CoreSeries(fut)
    ensures var r := MonthlyFactors(clim, fut);
      && ("hurs" !in fut && "hurs" !in clim ==> r.Ok? && forall m :: 0 <= m < 12 ==> r.value.dHurs[m] == Fin(0.0))
      && ("hurs" !in fut && "hurs" in clim && |clim["hurs"]| == 12 ==>
            r.Ok? && forall m :: 0 <= m < 12 ==> r.value.dHurs[m] == Fin(-clim["hurs"][m]))
      && ("hurs" !in fut && "hurs" in clim && |clim["hurs"]| != 12 ==>
            r == Err(SeriesLength("clim.hurs", |clim["hurs"]|)))
      && ("hurs" in fut && "hurs" !in clim ==>
            r == Err(if |fut["hurs"]| == 12 then SeriesMissing("clim.hurs") else SeriesLength("fut.hurs", |fut["hurs"]|)))
      && ("hurs" in fut && "hurs" in clim && |fut["hurs"]| == 12 && |clim["hurs"]| == 12 ==>
            r.Ok? && forall m :: 0 <= m < 12 ==> r.value.dHurs[m] == Fin(fut["hurs"][m] - clim["hurs"][m]))
  {
  }

  /** The factors exist exactly when rsds, tas and sfcWind have 12 months
      on both sides and the humidity series shape up; each ratio is the
      plain quotient, so a zero climatology month gives an infinite ratio
      (or NaN when the target is zero too) instead of an error. */
  lemma MonthlyFactorsRatios(clim: map<string, seq<real>>, fut: map<string, seq<real>>)
    ensures MonthlyFactors(clim, fut).Ok? <==> CoreSeries(clim) && CoreSeries(fut) && HursSeries(clim, fut).Ok?
    ensures MonthlyFactors(clim, fut).Ok? ==>
      var f := MonthlyFactors(clim, fut).value;
      forall m :: 0 <= m < 12 ==>
        && (clim["rsds"][m] != 0.0 ==> f.kRsds[m] == Fin(fut["rsds"][m] / clim["rsds"][m]))
        && (clim["rsds"][m] == 0.0 && fut["rsds"][m] > 0.0 ==> f.kRsds[m] == PosInf)
        && (clim["rsds"][m] == 0.0 && fut["rsds"][m] == 0.0 ==> f.kRsds[m] == NaN)
        && (clim["sfcWind"][m] != 0.0 ==> f.kWspd[m] == Fin(fut["sfcWind"][m] / clim["sfcWind"][m]))
        && (clim["sfcWind"][m] == 0.0 && fut["sfcWind"][m] > 0.0 ==> f.kWspd[m] == PosInf)
        && f.dTas[m] == Fin(fut["tas"][m] - clim["tas"][m])
  {
  }

  // ---------------------------------------------------------------
  // The hour-by-hour morph
  // ---------------------------------------------------------------

  /** `(x * k).clip(lower=0)`: scaled and floored at zero. */
  function ScaleClip(x: Ext, k: Ext): (r: Ext)
    ensures r != NegInf && (r.Fin? ==> r.v >= 0.0)
    ensures IsNaN(r) <==> IsNaN(Mul(x, k))
    ensures x.Fin? && k.Fin? ==> r == Fin(if x.v * k.v < 0.0 then 0.0 else x.v * k.v)
    ensures x.Fin? && x.v >= 0.0 && k == PosInf ==> r == PosInf || IsNaN(r)
  {
    ClipLower(Mul(x, k), 0.0)
  }

  /** `(DNI / (GHI + eps)).clip(0, 1).fillna(0)`: always a fraction, and
      0 against an infinite GHI. */
  function DniFraction(dni: Ext, ghi: Ext): (r: Ext)
    ensures r.Fin? && 0.0 <= r.v <= 1.0
    ensures ghi == PosInf ==> r == Fin(0.0)
  {
    FillNaN(Clip(Div(dni, Add(ghi, Fin(EPS))), 0.0, 1.0), 0.0)
  }

  /** `(1 - f).clip(0, 1)` of a fraction: its complement. */
  function DhiFraction(frac: Ext): (r: Ext)
    requires frac.Fin? && 0.0 <= frac.v <= 1.0
    ensures r == Fin(1.0 - frac.v)
  {
    Clip(Sub(Fin(1.0), frac), 0.0, 1.0)
  }

  /** `(x + d).clip(0, 100)`. */
  function ShiftClip(x: Ext, d: Ext): (r: Ext)
    ensures IsNaN(r) <==> IsNaN(Add(x, d))
    ensures !IsNaN(r) ==> r.Fin? && 0.0 <= r.v <= 100.0
    ensures x.Fin? && d.Fin? ==> r == Fin(ClipReal(x.v + d.v, 0.0, 100.0))
  {
    Clip(Add(x, d), 0.0, 100.0)
  }

  /** The factor index of an hour: its month minus one. */
  function MonthIndex(h: Hour): (m: int)
    requires 1 <= h.stamp.month <= 12
    ensures 0 <= m < 12
  {
    h.stamp.month - 1
  }

  function GhiOf(h: Hour, f: Factors): Ext
    requires Monthly(f) && 1 <= h.stamp.month <= 12
  {
    ScaleClip(h.ghi, f.kRsds[MonthIndex(h)])
  }

  /** The DNI fraction, taken against the new GHI. */
  function FracOf(h: Hour, f: Factors): Ext
    requires Monthly(f) && 1 <= h.stamp.month <= 12
  {
    DniFraction(h.dni, GhiOf(h, f))
  }

  function DniOf(h: Hour, f: Factors): Ext
    requires Monthly(f) && 1 <= h.stamp.month <= 12
  {
    Mul(GhiOf(h, f), FracOf(h, f))
  }

  function DhiOf(h: Hour, f: Factors): Ext
    requires Monthly(f) && 1 <= h.stamp.month <= 12
  {
    Mul(GhiOf(h, f), DhiFraction(FracOf(h, f)))
  }

  /** The morph of one hour, in the source's column order: GHI is scaled
      and floored at 0 first, and the DNI fraction is taken against that
      new GHI; the old DHI is not read. Temperature is shifted without a
      clamp. The stamp is left as it is. */
  function MorphHour(h: Hour, f: Factors): Hour
    requires Monthly(f) && 1 <= h.stamp.month <= 12
  {
    Hour(h.stamp, GhiOf(h, f), DniOf(h, f), DhiOf(h, f), TempOf(h, f), WindOf(h, f), RhOf(h, f))
  }

  function TempOf(h: Hour, f: Factors): Ext
    requires Monthly(f) && 1 <= h.stamp.month <= 12
  {
    Add(h.temp, f.dTas[MonthIndex(h)])
  }

  function WindOf(h: Hour, f: Factors): Ext
    requires Monthly(f) && 1 <= h.stamp.month <= 12
  {
    ScaleClip(h.wind, f.kWspd[MonthIndex(h)])
  }

  function RhOf(h: Hour, f: Factors): Ext
    requires Monthly(f) && 1 <= h.stamp.month <= 12
  {
    ShiftClip(h.rh, f.dHurs[MonthIndex(h)])
  }

  lemma SplitSums(g: real, x: real)
    requires g >= 0.0 && 0.0 <= x <= 1.0
    ensures g * x + g * (1.0 - x) == g
    ensures 0.0 <= g * x <= g && g * (1.0 - x) >= 0.0
  {
  }

  /** A non-negative finite GHI times a fraction and its complement. */
  lemma SplitExt(g: Ext, frac: Ext)
    requires g.Fin? && g.v >= 0.0 && frac.Fin? && 0.0 <= frac.v <= 1.0
    ensures Mul(g, frac).Fin? && Mul(g, DhiFraction(frac)).Fin?
    ensures Mul(g, frac).v + Mul(g, DhiFraction(frac)).v == g.v
    ensures 0.0 <= Mul(g, frac).v <= g.v && Mul(g, DhiFraction(frac)).v >= 0.0
  {
    SplitSums(g.v, frac.v);
  }

  /** A finite morphed GHI is split exactly into non-negative DNI and DHI. */
  lemma MorphSplitFinite(h: Hour, f: Factors)
    requires Monthly(f) && 1 <= h.stamp.month <= 12
    requires GhiOf(h, f).Fin?
    ensures DniOf(h, f).Fin? && DhiOf(h, f).Fin?
    ensures DniOf(h, f).v + DhiOf(h, f).v == GhiOf(h, f).v
    ensures 0.0 <= DniOf(h, f).v <= GhiOf(h, f).v && DhiOf(h, f).v >= 0.0
  {
    SplitExt(GhiOf(h, f), FracOf(h, f));
  }

  lemma InfiniteSplit(frac: Ext)
    requires frac == Fin(0.0)
    ensures IsNaN(Mul(PosInf, frac)) && Mul(PosInf, DhiFraction(frac)) == PosInf
  {
    MulInfinity(frac);
    MulInfinity(DhiFraction(frac));
  }

  /** An infinite morphed GHI (a zero climatology month) gives a NaN DNI:
      the fraction against it is 0, and infinity times 0 is NaN. */
  lemma MorphSplitInfinite(h: Hour, f: Factors)
    requires Monthly(f) && 1 <= h.stamp.month <= 12
    requires GhiOf(h, f) == PosInf
    ensures IsNaN(DniOf(h, f)) && DhiOf(h, f) == PosInf
  {
    InfiniteSplit(FracOf(h, f));
  }

  /** A NaN morphed GHI makes both DNI and DHI NaN. */
  lemma MorphSplitNaN(h: Hour, f: Factors)
    requires Monthly(f) && 1 <= h.stamp.month <= 12
    requires IsNaN(GhiOf(h, f))
    ensures IsNaN(DniOf(h, f)) && IsNaN(DhiOf(h, f))
  {
  }

  /** Factors that change nothing: ratios 1 and offsets 0. */
  predicate Identity(f: Factors)
  {
    Monthly(f) && forall m :: 0 <= m < 12 ==>
      f.kRsds[m] == Fin(1.0) && f.dTas[m] == Fin(0.0) && f.kWspd[m] == Fin(1.0) && f.dHurs[m] == Fin(0.0)
  }

  /** Identity factors keep GHI, temperature, wind and humidity of a
      physically plausible hour. */
  lemma IdentityKeepsScalars(h: Hour, f: Factors)
    requires Identity(f) && 1 <= h.stamp.month <= 12
    requires h.ghi.Fin? && h.ghi.v >= 0.0 && h.temp.Fin? && h.wind.Fin? && h.wind.v >= 0.0
    requires h.rh.Fin? && 0.0 <= h.rh.v <= 100.0
    ensures MorphHour(h, f).ghi == h.ghi
    ensures MorphHour(h, f).temp == h.temp
    ensures MorphHour(h, f).wind == h.wind
    ensures MorphHour(h, f).rh == h.rh
  {
    var m := MonthIndex(h);
    assert f.kRsds[m] == Fin(1.0) && f.dTas[m] == Fin(0.0) && f.kWspd[m] == Fin(1.0) && f.dHurs[m] == Fin(0.0);
    UnitScale(h.ghi);
    UnitScale(h.wind);
    ZeroShift(h.rh);
  }

  lemma UnitScale(x: Ext)
    requires x.Fin? && x.v >= 0.0
    ensures ScaleClip(x, Fin(1.0)) == x
  {
  }

  lemma ZeroShift(x: Ext)
    requires x.Fin? && 0.0 <= x.v <= 100.0
    ensures ShiftClip(x, Fin(0.0)) == x
  {
  }

  /** A June noon hour with GHI 500, DNI 300 and DHI 200 W/m2. */
  function SampleHour(): Hour
  {
    Hour(Stamp(2019, 6, 1, 12), Fin(500.0), Fin(300.0), Fin(200.0), Fin(20.0), Fin(3.0), Fin(70.0))
  }

  /** The DNI fraction of the sample hour against a GHI of `g`. */
  lemma SampleFraction(g: real)
    requires g >= 300.0
    ensures DniFraction(Fin(300.0), Fin(g)) == Fin(300.0 / (g + EPS))
  {
    var q := 300.0 / (g + EPS);
    assert Add(Fin(g), Fin(EPS)) == Fin(g + EPS);
    assert q * (g + EPS) == 300.0;
    assert 0.0 <= q <= 1.0;
  }

  /** ... but not DNI and DHI: the identity morph of the sample hour gives
      DNI 500 * 300 / 500.000001, slightly below 300, and DHI the rest of
      GHI, slightly above 200. */
  lemma IdentityChangesSplit(f: Factors)
    requires Identity(f)
    ensures DniOf(SampleHour(), f) == Fin(500.0 * (300.0 / 500.000001))
    ensures DniOf(SampleHour(), f).v < 300.0
    ensures DhiOf(SampleHour(), f).Fin? && DhiOf(SampleHour(), f).v > 200.0
  {
    var h := SampleHour();
    assert f.kRsds[5] == Fin(1.0);
    assert GhiOf(h, f) == Fin(500.0);
    SampleFraction(500.0);
    var q := 300.0 / 500.000001;
    assert q * 500.000001 == 300.0;
    assert 500.0 * q < 300.0;
    MorphSplitFinite(h, f);
  }

  /** A 10% brighter month turns GHI 500 into 550; as the fraction is
      taken against the new GHI, DNI 300 stays just below 300 instead of
      growing to 330 with GHI. */
  lemma BrighterMonthKeepsDni(f: Factors)
    requires Monthly(f) && f.kRsds[5] == Fin(1.1)
    ensures GhiOf(SampleHour(), f) == Fin(550.0)
    ensures DniOf(SampleHour(), f) == Fin(550.0 * (300.0 / 550.000001))
    ensures 299.99 < DniOf(SampleHour(), f).v < 300.0
  {
    var h := SampleHour();
    assert GhiOf(h, f) == Fin(550.0);
    SampleFraction(550.0);
    var q := 300.0 / 550.000001;
    assert q * 550.000001 == 300.0;
    assert 550.0 * q < 300.0;
    assert 550.0 * q > 299.99;
  }

  // The split as documented: the DNI/GHI fraction of the reference profile

  /** The reference hour's own DNI fraction, `(DNI / (GHI + eps))` clipped
      to [0, 1], NaN filled with 0, against the reference GHI. */
  function RefFracOf(h: Hour): (r: Ext)
    ensures r.Fin? && 0.0 <= r.v <= 1.0
  {
    DniFraction(h.dni, h.ghi)
  }

  /** DNI as documented: the new GHI times the reference fraction. */
  function IntendedDniOf(h: Hour, f: Factors): Ext
    requires Monthly(f) && 1 <= h.stamp.month <= 12
  {
    Mul(GhiOf(h, f), RefFracOf(h))
  }

  /** DHI as documented: the new GHI times the complement of the reference fraction. */
  function IntendedDhiOf(h: Hour, f: Factors): Ext
    requires Monthly(f) && 1 <= h.stamp.month <= 12
  {
    Mul(GhiOf(h, f), DhiFraction(RefFracOf(h)))
  }

  /** With the reference fraction, a positive finite morphed GHI keeps the
      profile's DNI/GHI fraction, and is still split exactly into
      non-negative DNI and DHI. */
  lemma IntendedSplitKeepsFraction(h: Hour, f: Factors)
    requires Monthly(f) && 1 <= h.stamp.month <= 12
    requires GhiOf(h, f).Fin? && GhiOf(h, f).v > 0.0
    ensures IntendedDniOf(h, f).Fin? && IntendedDhiOf(h, f).Fin?
    ensures IntendedDniOf(h, f).v / GhiOf(h, f).v == RefFracOf(h).v
    ensures IntendedDniOf(h, f).v + IntendedDhiOf(h, f).v == GhiOf(h, f).v
    ensures IntendedDniOf(h, f).v >= 0.0 && IntendedDhiOf(h, f).v >= 0.0
  {
    SplitExt(GhiOf(h, f), RefFracOf(h));
    ScaledFraction(GhiOf(h, f), RefFracOf(h));
  }

  lemma ScaledFraction(g: Ext, frac: Ext)
    requires g.Fin? && g.v > 0.0 && frac.Fin?
    ensures Mul(g, frac).Fin? && Mul(g, frac).v / g.v == frac.v
  {
    var p := g.v * frac.v;
    assert Mul(g, frac) == Fin(p);
    assert p == frac.v * g.v;
  }

  /** The sample hour in a 10% brighter month, split as documented: DNI
      grows with GHI to just under 330, where the code keeps it near 300. */
  lemma IntendedBrighterMonthScalesDni(f: Factors)
    requires Monthly(f) && f.kRsds[5] == Fin(1.1)
    ensures IntendedDniOf(SampleHour(), f) == Fin(550.0 * (300.0 / 500.000001))
    ensures 329.99 < IntendedDniOf(SampleHour(), f).v < 330.0
  {
    var h := SampleHour();
    assert GhiOf(h, f) == Fin(550.0);
    SampleFraction(500.0);
    var q := 300.0 / 500.000001;
    assert q * 500.000001 == 300.0;
    assert 550.0 * q < 330.0;
    assert 550.0 * q > 329.99;
  }

  // ---------------------------------------------------------------
  // Re-stamping
  // ---------------------------------------------------------------

  /** `pd.to_datetime({"year": year, "month": ..., "day": ..., "hour": ...})`:
      every stamp moved to `year`, which raises when one of the dates does
      not exist in that year. */
  function Restamp(stamps: seq<Stamp>, year: int): Result<seq<Stamp>, MorphError>
  {
    if exists i :: 0 <= i < |stamps| && !ValidStamp(stamps[i].(year := year)) then Err(InvalidDate)
    else Ok(seq(|stamps|, i requires 0 <= i < |stamps| => stamps[i].(year := year)))
  }

  /** Re-stamping real dates fails exactly when a Feb-29 line meets a
      common year; otherwise only the year changes, every stamp is a real
      date of `year`, and row count and order are kept. */
  lemma RestampSpec(stamps: seq<Stamp>, year: int)
    requires forall i :: 0 <= i < |stamps| ==> ValidStamp(stamps[i])
    ensures Restamp(stamps, year).Err? <==>
              !IsLeap(year) && exists i :: 0 <= i < |stamps| && IsFeb29(stamps[i])
    ensures Restamp(stamps, year).Ok? ==>
      var out := Restamp(stamps, year).value;
      && |out| == |stamps|
      && (forall i :: 0 <= i < |out| ==>
            && out[i].year == year && out[i].month == stamps[i].month
            && out[i].day == stamps[i].day && out[i].hour == stamps[i].hour
            && ValidStamp(out[i]))
      && (forall i, j :: (0 <= i < |out| && 0 <= j < |out| && stamps[i].year == stamps[j].year
                          && Before(stamps[i], stamps[j])) ==> Before(out[i], out[j]))
  {
    if Restamp(stamps, year).Err? {
      var i :| 0 <= i < |stamps| && !ValidStamp(stamps[i].(year := year));
      assert IsFeb29(stamps[i]) && !IsLeap(year);
    } else {
      forall i | 0 <= i < |stamps| && IsFeb29(stamps[i]) ensures IsLeap(year) {
        assert ValidStamp(stamps[i].(year := year));
      }
    }
  }

  /** The stamps of a profile. */
  function Stamps(hours: seq<Hour>): (s: seq<Stamp>)
    ensures |s| == |hours|
  {
    seq(|hours|, i requires 0 <= i < |hours| => hours[i].stamp)
  }

  predicate RealDates(hours: seq<Hour>)
  {
    forall i :: 0 <= i < |hours| ==> ValidStamp(hours[i].stamp)
  }

  /** The morph of a whole profile into `year`: every hour morphed with
      the factors of its own month, then re-stamped. */
  function MorphYear(hours: seq<Hour>, f: Factors, year: int): Result<seq<Hour>, MorphError>
    requires Monthly(f) && RealDates(hours)
  {
    var stamps :- Restamp(Stamps(hours), year);
    Ok(Restamped(MorphAll(hours, f), stamps))
  }

  /** Hours given new stamps, position by position. */
  function Restamped(hs: seq<Hour>, st: seq<Stamp>): (r: seq<Hour>)
    requires |st| == |hs|
    ensures |r| == |hs|
  {
    seq(|hs|, i requires 0 <= i < |hs| => hs[i].(stamp := st[i]))
  }

  /** A morphed profile has the row count of the reference, its stamps
      are those of the reference moved to `year`, and every hour is the
      morph of the reference hour at the same position. */
  lemma MorphYearSpec(hours: seq<Hour>, f: Factors, year: int)
    requires Monthly(f) && RealDates(hours)
    ensures MorphYear(hours, f, year).Err? <==>
              !IsLeap(year) && exists i :: 0 <= i < |hours| && IsFeb29(hours[i].stamp)
    ensures MorphYear(hours, f, year).Ok? ==>
      var out := MorphYear(hours, f, year).value;
      && |out| == |hours|
      && RealDates(out)
      && forall i :: 0 <= i < |out| ==>
           && out[i].stamp == hours[i].stamp.(year := year)
           && out[i].(stamp := hours[i].stamp) == MorphHour(hours[i], f)
  {
    RestampSpec(Stamps(hours), year);
    if !IsLeap(year) && exists i :: 0 <= i < |hours| && IsFeb29(hours[i].stamp) {
      var i :| 0 <= i < |hours| && IsFeb29(hours[i].stamp);
      assert IsFeb29(Stamps(hours)[i]);
    }
  }

  /** Every hour of a profile morphed with its month's factors. */
  function MorphAll(hours: seq<Hour>, f: Factors): (r: seq<Hour>)
    requires Monthly(f) && RealDates(hours)
    ensures |r| == |hours|
  {
    seq(|hours|, i requires 0 <= i < |hours| => MorphHour(hours[i], f))
  }

  /** The morph of a profile fails exactly when re-stamping its stamps
      fails, and with the same error. */
  lemma MorphYearRestamp(hours: seq<Hour>, f: Factors, year: int)
    requires Monthly(f) && RealDates(hours)
    ensures MorphYear(hours, f, year).Ok? <==> Restamp(Stamps(hours), year).Ok?
    ensures MorphYear(hours, f, year).Err? ==>
              MorphYear(hours, f, year).error == Restamp(Stamps(hours), year).error
  {
  }

  /** A successful morph is the re-stamp of every hour's morph. */
  lemma MorphYearOk(hours: seq<Hour>, f: Factors, year: int)
    requires Monthly(f) && RealDates(hours)
    requires Restamp(Stamps(hours), year).Ok?
    ensures |Restamp(Stamps(hours), year).value| == |hours|
    ensures MorphYear(hours, f, year) == Ok(Restamped(MorphAll(hours, f), Restamp(Stamps(hours), year).value))
  {
  }

  /** Hours equal position by position to re-stamped ones are the
      re-stamped sequence. */
  lemma RestampedOf(hs: seq<Hour>, st: seq<Stamp>, after: seq<Hour>)
    requires |st| == |hs| && |after| == |hs|
    requires forall i :: 0 <= i < |after| ==> after[i] == hs[i].(stamp := st[i])
    ensures after == Restamped(hs, st)
  {
  }

  /** Months of a column, each in 1..12. */
  predicate MonthColumn(mo: seq<int>)
  {
    forall i :: 0 <= i < |mo| ==> 1 <= mo[i] <= 12
  }

  /** `(x * df["month"].map(k)).clip(lower=0)` on a column. */
  function ScaledColumn(xs: seq<Ext>, mo: seq<int>, k: seq<Ext>): (r: seq<Ext>)
    requires |mo| == |xs| && MonthColumn(mo) && |k| == 12
    ensures |r| == |xs|
  {
    seq(|xs|, i requires 0 <= i < |xs| => ScaleClip(xs[i], k[mo[i] - 1]))
  }

  /** `x + df["month"].map(d)` on a column. */
  function ShiftedColumn(xs: seq<Ext>, mo: seq<int>, d: seq<Ext>): (r: seq<Ext>)
    requires |mo| == |xs| && MonthColumn(mo) && |d| == 12
    ensures |r| == |xs|
  {
    seq(|xs|, i requires 0 <= i < |xs| => Add(xs[i], d[mo[i] - 1]))
  }

  /** `(x + df["month"].map(d)).clip(0, 100)` on a column. */
  function ShiftClipColumn(xs: seq<Ext>, mo: seq<int>, d: seq<Ext>): (r: seq<Ext>)
    requires |mo| == |xs| && MonthColumn(mo) && |d| == 12
    ensures |r| == |xs|
  {
    seq(|xs|, i requires 0 <= i < |xs| => ShiftClip(xs[i], d[mo[i] - 1]))
  }

  /** The DNI fraction column against a GHI column. */
  function FractionColumn(dni: seq<Ext>, ghi: seq<Ext>): (r: seq<Ext>)
    requires |ghi| == |dni|
    ensures |r| == |dni|
    ensures forall i :: 0 <= i < |r| ==> r[i].Fin? && 0.0 <= r[i].v <= 1.0
  {
    seq(|dni|, i requires 0 <= i < |dni| => DniFraction(dni[i], ghi[i]))
  }

  /** `(1 - frac).clip(0, 1)` on a column of fractions. */
  function ComplementColumn(fr: seq<Ext>): (r: seq<Ext>)
    requires forall i :: 0 <= i < |fr| ==> fr[i].Fin? && 0.0 <= fr[i].v <= 1.0
    ensures |r| == |fr|
  {
    seq(|fr|, i requires 0 <= i < |fr| => DhiFraction(fr[i]))
  }

  /** Element-wise product of two columns. */
  function ProductColumn(a: seq<Ext>, b: seq<Ext>): (r: seq<Ext>)
    requires |b| == |a|
    ensures |r| == |a|
  {
    seq(|a|, i requires 0 <= i < |a| => Mul(a[i], b[i]))
  }

  /** Columns of equal length put together as hours. */
  function Zip(st: seq<Stamp>, g: seq<Ext>, d: seq<Ext>, dh: seq<Ext>, t: seq<Ext>, w: seq<Ext>, r: seq<Ext>): (hs: seq<Hour>)
    requires |g| == |st| && |d| == |st| && |dh| == |st| && |t| == |st| && |w| == |st| && |r| == |st|
    ensures |hs| == |st|
    ensures forall i :: 0 <= i < |st| ==> hs[i] == Hour(st[i], g[i], d[i], dh[i], t[i], w[i], r[i])
  {
    seq(|st|, i requires 0 <= i < |st| => Hour(st[i], g[i], d[i], dh[i], t[i], w[i], r[i]))
  }

  /** The scaled GHI column holds the morphed GHI of every hour. */
  lemma GhiColumnMorph(hs: seq<Hour>, mo: seq<int>, g: seq<Ext>, f: Factors)
    requires Monthly(f) && RealDates(hs) && |mo| == |hs| && |g| == |hs| && MonthColumn(mo)
    requires forall i :: 0 <= i < |hs| ==> hs[i].ghi == g[i] && hs[i].stamp.month == mo[i]
    ensures forall i :: 0 <= i < |hs| ==> ScaledColumn(g, mo, f.kRsds)[i] == GhiOf(hs[i], f)
  {
  }

  /** DNI and DHI recomputed from the new GHI column are the morphed ones. */
  lemma SplitColumnsMorph(hs: seq<Hour>, g1: seq<Ext>, d: seq<Ext>, f: Factors)
    requires Monthly(f) && RealDates(hs) && |g1| == |hs| && |d| == |hs|
    requires forall i :: 0 <= i < |hs| ==> g1[i] == GhiOf(hs[i], f) && hs[i].dni == d[i]
    ensures var fr := FractionColumn(d, g1);
      forall i :: 0 <= i < |hs| ==>
        ProductColumn(g1, fr)[i] == DniOf(hs[i], f) && ProductColumn(g1, ComplementColumn(fr))[i] == DhiOf(hs[i], f)
  {
    var fr := FractionColumn(d, g1);
    var c := ComplementColumn(fr);
    forall i | 0 <= i < |hs|
      ensures ProductColumn(g1, fr)[i] == DniOf(hs[i], f) && ProductColumn(g1, c)[i] == DhiOf(hs[i], f)
    {
      assert fr[i] == FracOf(hs[i], f);
      assert c[i] == DhiFraction(fr[i]);
      assert ProductColumn(g1, fr)[i] == Mul(g1[i], fr[i]);
      assert ProductColumn(g1, c)[i] == Mul(g1[i], c[i]);
    }
  }

  /** The temperature column is the morphed one. */
  lemma TempColumnMorph(hs: seq<Hour>, mo: seq<int>, t: seq<Ext>, f: Factors)
    requires Monthly(f) && RealDates(hs) && |mo| == |hs| && |t| == |hs| && MonthColumn(mo)
    requires forall i :: 0 <= i < |hs| ==> hs[i].temp == t[i] && hs[i].stamp.month == mo[i]
    ensures forall i :: 0 <= i < |hs| ==> ShiftedColumn(t, mo, f.dTas)[i] == TempOf(hs[i], f)
  {
  }

  /** The wind column is the morphed one. */
  lemma WindColumnMorph(hs: seq<Hour>, mo: seq<int>, w: seq<Ext>, f: Factors)
    requires Monthly(f) && RealDates(hs) && |mo| == |hs| && |w| == |hs| && MonthColumn(mo)
    requires forall i :: 0 <= i < |hs| ==> hs[i].wind == w[i] && hs[i].stamp.month == mo[i]
    ensures forall i :: 0 <= i < |hs| ==> ScaledColumn(w, mo, f.kWspd)[i] == WindOf(hs[i], f)
  {
  }

  /** The relative-humidity column is the morphed one. */
  lemma RhColumnMorph(hs: seq<Hour>, mo: seq<int>, r: seq<Ext>, f: Factors)
    requires Monthly(f) && RealDates(hs) && |mo| == |hs| && |r| == |hs| && MonthColumn(mo)
    requires forall i :: 0 <= i < |hs| ==> hs[i].rh == r[i] && hs[i].stamp.month == mo[i]
    ensures forall i :: 0 <= i < |hs| ==> ShiftClipColumn(r, mo, f.dHurs)[i] == RhOf(hs[i], f)
  {
  }

  /** The column updates, in the source's order, give the morph of every
      hour. */
  lemma ColumnsMorph(st: seq<Stamp>, mo: seq<int>, g: seq<Ext>, d: seq<Ext>, dh: seq<Ext>,
                     t: seq<Ext>, w: seq<Ext>, r: seq<Ext>, f: Factors)
    requires Monthly(f)
    requires |mo| == |st| && |g| == |st| && |d| == |st| && |dh| == |st| && |t| == |st| && |w| == |st| && |r| == |st|
    requires MonthColumn(mo)
    requires forall i :: 0 <= i < |st| ==> ValidStamp(st[i]) && mo[i] == st[i].month
    ensures var g1 := ScaledColumn(g, mo, f.kRsds);
            var fr := FractionColumn(d, g1);
      Zip(st, g1, ProductColumn(g1, fr), ProductColumn(g1, ComplementColumn(fr)),
          ShiftedColumn(t, mo, f.dTas), ScaledColumn(w, mo, f.kWspd), ShiftClipColumn(r, mo, f.dHurs))
      == MorphAll(Zip(st, g, d, dh, t, w, r), f)
  {
    var hs := Zip(st, g, d, dh, t, w, r);
    GhiColumnMorph(hs, mo, g, f);
    var g1 := ScaledColumn(g, mo, f.kRsds);
    SplitColumnsMorph(hs, g1, d, f);
    TempColumnMorph(hs, mo, t, f);
    WindColumnMorph(hs, mo, w, f);
    RhColumnMorph(hs, mo, r, f);
  }

  /** The profile `morph_one_year` works on: a copy of the reference with
      its columns as separate fields, updated one column at a time. */
  class Frame {
    var stamps: seq<Stamp>
    var month: seq<int>
    var ghi: seq<Ext>
    var dni: seq<Ext>
    var dhi: seq<Ext>
    var temp: seq<Ext>
    var wind: seq<Ext>
    var rh: seq<Ext>

    ghost predicate Valid()
      reads this
    {
      && |month| == |stamps| && |ghi| == |stamps| && |dni| == |stamps| && |dhi| == |stamps|
      && |temp| == |stamps| && |wind| == |stamps| && |rh| == |stamps|
      && forall i :: 0 <= i < |stamps| ==> ValidStamp(stamps[i]) && month[i] == stamps[i].month
    }

    /** The frame read back as hours. */
    function Hours(): (hs: seq<Hour>)
      reads this
      requires Valid()
      ensures |hs| == |stamps| && RealDates(hs)
    {
      Zip(stamps, ghi, dni, dhi, temp, wind, rh)
    }

    /** `base.copy()` with the month column added. */
    constructor (base: seq<Hour>)
      requires RealDates(base)
      ensures Valid() && Hours() == base
    {
      var n := |base|;
      stamps := Stamps(base);
      month := seq(n, i requires 0 <= i < n => base[i].stamp.month);
      ghi := seq(n, i requires 0 <= i < n => base[i].ghi);
      dni := seq(n, i requires 0 <= i < n => base[i].dni);
      dhi := seq(n, i requires 0 <= i < n => base[i].dhi);
      temp := seq(n, i requires 0 <= i < n => base[i].temp);
      wind := seq(n, i requires 0 <= i < n => base[i].wind);
      rh := seq(n, i requires 0 <= i < n => base[i].rh);
    }

    /** The column updates of `morph_one_year`, in their order: GHI is
        overwritten before the DNI fraction reads it. */
    method MorphColumns(f: Factors)
      requires Valid() && Monthly(f)
      modifies this
      ensures Valid() && stamps == old(stamps)
      ensures Hours() == MorphAll(old(Hours()), f)
    {
      assert MonthColumn(month);
      ColumnsMorph(stamps, month, ghi, dni, dhi, temp, wind, rh, f);
      ghi := ScaledColumn(ghi, month, f.kRsds);
      var fracDni := FractionColumn(dni, ghi);
      var fracDhi := ComplementColumn(fracDni);
      dni := ProductColumn(ghi, fracDni);
      dhi := ProductColumn(ghi, fracDhi);
      temp := ShiftedColumn(temp, month, f.dTas);
      wind := ScaledColumn(wind, month, f.kWspd);
      rh := ShiftClipColumn(rh, month, f.dHurs);
    }

    /** The re-stamp to `year`; on failure nothing changes. */
    method RestampTo(year: int) returns (r: Result<(), MorphError>)
      requires Valid()
      modifies this
      ensures Valid()
      ensures r.Ok? <==> Restamp(old(stamps), year).Ok?
      ensures r.Err? ==> r.error == Restamp(old(stamps), year).error && Hours() == old(Hours())
      ensures r.Ok? ==> |Hours()| == |old(Hours())|
      ensures r.Ok? ==>
        forall i :: 0 <= i < |Hours()| ==> Hours()[i] == old(Hours())[i].(stamp := Restamp(old(stamps), year).value[i])
    {
      var s := Restamp(stamps, year);
      if s.Err? {
        return Err(s.error);
      }
      RestampSpec(stamps, year);
      stamps := s.value;
      r := Ok(());
    }

    /** `morph_one_year` on the copied frame: the columns, then the
        re-stamp. When re-stamping fails the columns are already morphed
        and the stamps are unchanged. */
    method Morph(f: Factors, year: int) returns (r: Result<(), MorphError>)
      requires Valid() && Monthly(f)
      modifies this
      ensures Valid()
      ensures r.Ok? <==> MorphYear(old(Hours()), f, year).Ok?
      ensures r.Ok? ==> Hours() == MorphYear(old(Hours()), f, year).value
      ensures r.Err? ==> r.error == MorphYear(old(Hours()), f, year).error && stamps == old(stamps)
    {
      ghost var before := Hours();
      ghost var st := stamps;
      assert Stamps(before) == st;
      MorphYearRestamp(before, f, year);
      MorphColumns(f);
      ghost var mid := Hours();
      r := RestampTo(year);
      if r.Ok? {
        MorphYearOk(before, f, year);
        RestampedOf(mid, Restamp(st, year).value, Hours());
      }
    }
  }

  // ---------------------------------------------------------------
  // The written table and its validation
  // ---------------------------------------------------------------

  /** The columns written to the morphed CSV, in their order. */
  function OutputColumns(): (cs: seq<string>)
    ensures |cs| == 7 && cs[0] == "DateTime" && cs[1..] == REQUIRED
  {
    ["DateTime"] + REQUIRED
  }

  /** One morphed hour as the validator reads it back. */
  function WrittenRow(h: Hour): Row
    requires ValidStamp(h.stamp)
  {
    Row(Some(Instant(h.stamp, 0, 0)),
        map["GHI" := h.ghi, "DNI" := h.dni, "DHI" := h.dhi, "TempC" := h.temp,
            "WindSpeed" := h.wind, "RelHum" := h.rh])
  }

  /** The morphed profile as the validator reads it back. */
  function ToTable(hours: seq<Hour>): Table
    requires RealDates(hours)
  {
    Table(OutputColumns(), seq(|hours|, i requires 0 <= i < |hours| => WrittenRow(hours[i])))
  }

  /** `validate_sam_csv`: the shared checks, then the count rule. It
      returns nothing and changes nothing. */
  function Validate(t: Table): Result<(), MorphError>
  {
    var _ :- Checked(t);
    var n := CountAfterFeb29(t.rows, RowStamp);
    if n != 8760 then Err(RowCount(n)) else Ok(())
  }

  predicate NoNaN(h: Hour)
  {
    !IsNaN(h.ghi) && !IsNaN(h.dni) && !IsNaN(h.dhi) && !IsNaN(h.temp) && !IsNaN(h.wind) && !IsNaN(h.rh)
  }

  /** A written line has a NaN required cell exactly when its hour has a
      NaN value. */
  lemma WrittenRowNaN(h: Hour)
    requires ValidStamp(h.stamp)
    ensures NoNaN(h) <==> forall c :: c in REQUIRED ==> !IsNaN(Cell(WrittenRow(h), c))
  {
    var r := WrittenRow(h);
    assert Cell(r, "GHI") == h.ghi && Cell(r, "DNI") == h.dni && Cell(r, "DHI") == h.dhi;
    assert Cell(r, "TempC") == h.temp && Cell(r, "WindSpeed") == h.wind && Cell(r, "RelHum") == h.rh;
  }

  /** The shared checks pass on a written profile exactly when none of
      its values is NaN. */
  lemma WrittenChecked(hours: seq<Hour>)
    requires RealDates(hours)
    ensures Checked(ToTable(hours)).Ok? <==> forall i :: 0 <= i < |hours| ==> NoNaN(hours[i])
  {
    var t := ToTable(hours);
    CheckedSpec(t);
    assert t.columns == ["DateTime"] + REQUIRED;
    assert "DateTime" in t.columns;
    assert forall c :: c in REQUIRED ==> c in t.columns;
    assert forall i :: 0 <= i < |t.rows| ==> t.rows[i].time.Some?;
    forall i | 0 <= i < |hours| ensures NoNaN(hours[i]) <==> forall c :: c in REQUIRED ==> !IsNaN(Cell(t.rows[i], c)) {
      WrittenRowNaN(hours[i]);
    }
  }

  /** A written profile of 8760 hours passes validation exactly when none
      of its values is NaN (infinite values pass). */
  lemma ValidateWritten(hours: seq<Hour>)
    requires RealDates(hours) && |hours| == 8760
    ensures Validate(ToTable(hours)).Ok? <==> forall i :: 0 <= i < |hours| ==> NoNaN(hours[i])
  {
    var t := ToTable(hours);
    WrittenChecked(hours);
    assert |t.rows| == 8760;
    assert CountAfterFeb29(t.rows, RowStamp) == 8760;
  }

  /** With no guard on a zero climatology, an infinite or NaN rsds ratio
      makes DNI NaN at an hour with a finite non-negative GHI. */
  lemma NonFiniteRatioGivesNaN(h: Hour, f: Factors)
    requires Monthly(f) && 1 <= h.stamp.month <= 12
    requires h.ghi.Fin? && h.ghi.v >= 0.0
    requires f.kRsds[MonthIndex(h)] == PosInf || f.kRsds[MonthIndex(h)] == NaN
    ensures IsNaN(DniOf(h, f))
  {
    var g := GhiOf(h, f);
    assert g == PosInf || IsNaN(g);
    if g == PosInf {
      MorphSplitInfinite(h, f);
    } else {
      MorphSplitNaN(h, f);
    }
  }

  /** ... so a year with such a month fails validation. */
  lemma NonFiniteRatioFailsValidation(hours: seq<Hour>, f: Factors, year: int, i: int)
    requires Monthly(f) && RealDates(hours) && |hours| == 8760
    requires 0 <= i < |hours| && hours[i].ghi.Fin? && hours[i].ghi.v >= 0.0
    requires f.kRsds[MonthIndex(hours[i])] == PosInf || f.kRsds[MonthIndex(hours[i])] == NaN
    requires MorphYear(hours, f, year).Ok?
    ensures Validate(ToTable(MorphYear(hours, f, year).value)).Err?
  {
    MorphYearSpec(hours, f, year);
    var out := MorphYear(hours, f, year).value;
    NonFiniteRatioGivesNaN(hours[i], f);
    assert out[i].dni == DniOf(hours[i], f);
    assert !NoNaN(out[i]);
    ValidateWritten(out);
  }

  // ---------------------------------------------------------------
  // morph_one_year
  // ---------------------------------------------------------------

  /** The output subdirectory: "historical" before 2015, the scenario
      from 2015 on. */
  function OutputSubdir(ssp: string, year: int): string
  {
    if year < 2015 then "historical" else ssp
  }

  /** `{subdir}/SAM_{MODEL}_{subdir}_{year}_morph.csv`, relative to the
      output root. */
  function OutputPath(ssp: string, year: int): string
  {
    var sub := OutputSubdir(ssp, year);
    sub + "/" + OutputName(sub, year)
  }

  /** `SAM_{MODEL}_{subdir}_{year}_morph.csv`. */
  function OutputName(sub: string, year: int): string
  {
    "SAM_" + MODEL + "_" + sub + "_" + IntToString(year) + "_morph.csv"
  }

  /** Everything `morph_one_year` reads: the reference table with the 95th
      percentile of its GHI, the configured scale and the file store. */
  datatype Inputs = Inputs(base: Table, p95: Ext, irradScale: Option<real>, store: Store)

  /** `morph_one_year` as a function: the output path and the morphed
      profile, or the first error. */
  function MorphOneYear(ssp: string, year: int, inp: Inputs): Result<(string, seq<Hour>), MorphError>
  {
    var hours :- ReadBase(inp.base, inp.p95, inp.irradScale);
    ReadBaseOrdered(inp.base, inp.p95, inp.irradScale);
    var clim := HistClims(inp.store);
    if clim.Err? then Err(Clim(clim.error))
    else
      var fut := FutureMonthly(ssp, year, inp.store);
      if fut.Err? then Err(Clim(fut.error))
      else
        var f := MonthlyFactors(clim.value, fut.value);
        if f.Err? then Err(Clim(f.error))
        else
          var out :- MorphYear(hours, f.value, year);
          Ok((OutputPath(ssp, year), out))
  }

  /** A morphed year goes to the scenario's output path and has 8760
      real-dated hours of the target year; a failing reference file or
      historical climatology is the error returned. */
  lemma MorphOneYearSpec(ssp: string, year: int, inp: Inputs)
    ensures var r := MorphOneYear(ssp, year, inp);
      r.Ok? ==> && r.value.0 == OutputPath(ssp, year)
                && |r.value.1| == 8760 && RealDates(r.value.1)
                && forall i :: 0 <= i < 8760 ==> r.value.1[i].stamp.year == year
    ensures ReadBase(inp.base, inp.p95, inp.irradScale).Err? ==>
              MorphOneYear(ssp, year, inp) == Err(ReadBase(inp.base, inp.p95, inp.irradScale).error)
    ensures ReadBase(inp.base, inp.p95, inp.irradScale).Ok? && HistClims(inp.store).Err? ==>
              MorphOneYear(ssp, year, inp) == Err(Clim(HistClims(inp.store).error))
  {
    var r := MorphOneYear(ssp, year, inp);
    if r.Ok? {
      var hours := ReadBase(inp.base, inp.p95, inp.irradScale).value;
      ReadBaseOrdered(inp.base, inp.p95, inp.irradScale);
      var f := MonthlyFactors(HistClims(inp.store).value, FutureMonthly(ssp, year, inp.store).value).value;
      MorphYearSpec(hours, f, year);
    }
  }

  /** The steps of `morph_one_year`, with the loaders and the frame. */
  method RunMorphOneYear(ssp: string, year: int, inp: Inputs) returns (r: Result<(string, seq<Hour>), MorphError>)
    ensures r == MorphOneYear(ssp, year, inp)
  {
    var base := ReadBase(inp.base, inp.p95, inp.irradScale);
    if base.Err? {
      return Err(base.error);
    }
    ReadBaseOrdered(inp.base, inp.p95, inp.irradScale);
    var clim := LoadHistClims(inp.store);
    if clim.Err? {
      return Err(Clim(clim.error));
    }
    var fut := LoadFutureMonthly(ssp, year, inp.store);
    if fut.Err? {
      return Err(Clim(fut.error));
    }
    var f := MonthlyFactors(clim.value, fut.value);
    if f.Err? {
      return Err(Clim(f.error));
    }
    var frame := new Frame(base.value);
    var ok := frame.Morph(f.value, year);
    if ok.Err? {
      return Err(ok.error);
    }
    r := Ok((OutputPath(ssp, year), frame.Hours()));
  }
}
