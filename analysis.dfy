/** The helpers of the results analysis: the percentage change against a
    baseline with its zero/NaN guard, decade labels, case-insensitive
    column picking, the guards of the linear-trend summary, the removal of
    rows that report an error, and the choice of the 1994-2014 baseline
    rows with its fallback. The least-squares fit itself is a parameter. */
module Analysis {

  import opened Wrappers
  import opened Text
  import opened ExtReal

  // ---------------------------------------------------------------
  // _safe_pct
  // ---------------------------------------------------------------

  /** The guard of `_safe_pct`: no baseline, a non-finite one, or zero. */
  predicate NoBaseline(b: Option<Ext>)
  {
    b.None? || !IsFinite(b.value) || b.value == Fin(0.0)
  }

  /** `(a - b) / b * 100`, NaN when the baseline is missing, not finite
      or zero. */
  function SafePct(a: Ext, b: Option<Ext>): (r: Ext)
    ensures NoBaseline(b) ==> r == NaN
    ensures !NoBaseline(b) ==> (r.Fin? <==> a.Fin?) && (IsNaN(r) <==> IsNaN(a))
    ensures !NoBaseline(b) && a.Fin? ==> r.v * b.value.v == 100.0 * (a.v - b.value.v)
  {
    if NoBaseline(b) then NaN
    else Div(Mul(Fin(100.0), Sub(a, b.value)), b.value)
  }

  /** A finite value against a finite nonzero baseline has a finite
      percentage change. */
  lemma SafePctOf(a: Ext, b: Ext)
    requires a.Fin? && b.Fin? && b.v != 0.0
    ensures SafePct(a, Some(b)).Fin?
    ensures SafePct(a, Some(b)).v * b.v == 100.0 * (a.v - b.v)
  {
    assert !NoBaseline(Some(b));
  }

  /** The percentage undoes itself: the baseline moved by that percentage
      gives back the value. */
  lemma SafePctRoundTrip(a: real, b: real)
    requires b != 0.0
    ensures SafePct(Fin(a), Some(Fin(b))).Fin?
    ensures b + SafePct(Fin(a), Some(Fin(b))).v * b / 100.0 == a
  {
    var r := SafePct(Fin(a), Some(Fin(b))).v;
    assert r * b == 100.0 * (a - b);
    calc {
      b + r * b / 100.0;
      b + 100.0 * (a - b) / 100.0;
      a;
    }
  }

  // ---------------------------------------------------------------
  // decade_of
  // ---------------------------------------------------------------

  /** `(y // 10) * 10`: Python's floor division, which Dafny's division
      by a positive divisor agrees with, negative years included. */
  function DecadeStart(y: int): (d: int)
    ensures d % 10 == 0 && d <= y < d + 10
  {
    (y / 10) * 10
  }

  /** `f"{d0}s"`. */
  function DecadeOf(y: int): (r: string)
    ensures |r| >= 2 && r[|r| - 1] == 's'
    ensures ParseInt(r[..|r| - 1]) == Some(DecadeStart(y))
  {
    var r := IntToString(DecadeStart(y)) + "s";
    IntToStringRoundTrip(DecadeStart(y));
    assert r[..|r| - 1] == IntToString(DecadeStart(y));
    r
  }

  /** Two years share a label exactly when they lie in the same decade. */
  lemma DecadeOfSame(y1: int, y2: int)
    ensures DecadeOf(y1) == DecadeOf(y2) <==> y1 / 10 == y2 / 10
  {
    if DecadeOf(y1) == DecadeOf(y2) {
      assert DecadeOf(y1)[..|DecadeOf(y1)| - 1] == DecadeOf(y2)[..|DecadeOf(y2)| - 1];
    }
  }

  /** The label of a year in the projection horizon. */
  lemma DecadeOf2047()
    ensures DecadeOf(2047) == "2040s"
  {
    assert DecadeStart(2047) == 2040;
    assert NatToString(2040) == "2040" by {
      assert NatToString(2) == "2";
      assert NatToString(20) == "20";
      assert NatToString(204) == "204";
    }
  }

  // ---------------------------------------------------------------
  // _pick and the error column
  // ---------------------------------------------------------------

  /** `{c.lower(): c for c in df.columns}` as an ordered dict: a new
      lowercase name goes last, a repeated one keeps its place and takes
      the later column. */
  function ColMap(cols: seq<string>): seq<(string, string)>
  {
    if cols == [] then []
    else
      var c := cols[|cols| - 1];
      ColPut(ColMap(cols[..|cols| - 1]), Lower(c), c)
  }

  function KeyAt(m: seq<(string, string)>, k: string): (r: Option<nat>)
    ensures r.Some? ==> r.value < |m| && m[r.value].0 == k
    ensures r.None? ==> forall p :: 0 <= p < |m| ==> m[p].0 != k
  {
    if m == [] then None
    else if m[0].0 == k then Some(0)
    else match KeyAt(m[1..], k)
      case None => None
      case Some(p) => Some(p + 1)
  }

  function ColPut(m: seq<(string, string)>, k: string, c: string): seq<(string, string)>
  {
    match KeyAt(m, k)
    case Some(p) => m[p := (k, c)]
    case None => m + [(k, c)]
  }

  /** Column `j` is the last one whose lowercase name is `k`. */
  predicate LastWith(cols: seq<string>, j: int, k: string)
  {
    0 <= j < |cols| && Lower(cols[j]) == k && forall i :: j < i < |cols| ==> Lower(cols[i]) != k
  }

  /** Some column before position `i` has lowercase name `k`. */
  predicate OccursBefore(cols: seq<string>, k: string, i: int)
  {
    exists j :: 0 <= j < i && j < |cols| && Lower(cols[j]) == k
  }

  predicate DistinctKeys(m: seq<(string, string)>)
  {
    forall p, q :: 0 <= p < q < |m| ==> m[p].0 != m[q].0
  }

  /** `v` is the last column whose lowercase name is `k`. */
  ghost predicate LastColumn(cols: seq<string>, k: string, v: string)
  {
    exists j :: LastWith(cols, j, k) && cols[j] == v
  }

  ghost predicate LastColumns(cols: seq<string>, m: seq<(string, string)>)
  {
    forall p :: 0 <= p < |m| ==> LastColumn(cols, m[p].0, m[p].1)
  }

  /** What the dict holds: distinct lowercase names, each with the last
      column spelling it, every column's name among them, and in the order
      of their first appearance. */
  ghost predicate ColMapOf(cols: seq<string>, m: seq<(string, string)>)
  {
    && DistinctKeys(m)
    && LastColumns(cols, m)
    && (forall i :: 0 <= i < |cols| ==> KeyAt(m, Lower(cols[i])).Some?)
    && (forall p, q, i :: 0 <= q < p < |m| && 0 <= i < |cols| && Lower(cols[i]) == m[p].0 ==>
          OccursBefore(cols, m[q].0, i))
  }

  lemma {:induction false} ColMapSpec(cols: seq<string>)
    ensures ColMapOf(cols, ColMap(cols))
  {
    if cols != [] {
      var init := cols[..|cols| - 1];
      var c := cols[|cols| - 1];
      ColMapSpec(init);
      ColMapStep(init, c, ColMap(init));
      assert init + [c] == cols;
    }
  }

  lemma ColMapStep(cols: seq<string>, c: string, m: seq<(string, string)>)
    requires ColMapOf(cols, m)
    ensures ColMapOf(cols + [c], ColPut(m, Lower(c), c))
  {
    StepDistinct(cols, c, m);
    StepLast(cols, c, m);
    StepKeys(cols, c, m);
    StepOrder(cols, c, m);
  }

  lemma StepDistinct(cols: seq<string>, c: string, m: seq<(string, string)>)
    requires ColMapOf(cols, m)
    ensures DistinctKeys(ColPut(m, Lower(c), c))
  {
  }

  lemma StepLast(cols: seq<string>, c: string, m: seq<(string, string)>)
    requires ColMapOf(cols, m)
    ensures LastColumns(cols + [c], ColPut(m, Lower(c), c))
  {
    var k := Lower(c);
    var cols' := cols + [c];
    var m' := ColPut(m, k, c);
    forall p | 0 <= p < |m'| ensures LastColumn(cols', m'[p].0, m'[p].1) {
      var slot := if KeyAt(m, k).Some? then KeyAt(m, k).value else |m|;
      if p == slot {
        assert m'[p] == (k, c);
        assert LastWith(cols', |cols|, k) && cols'[|cols|] == c;
      } else {
        assert m'[p] == m[p];
        assert m[p].0 != k;
        var j :| LastWith(cols, j, m[p].0) && cols[j] == m[p].1;
        assert cols'[j] == cols[j];
        assert LastWith(cols', j, m[p].0) && cols'[j] == m[p].1;
      }
    }
  }

  lemma StepKeys(cols: seq<string>, c: string, m: seq<(string, string)>)
    requires ColMapOf(cols, m)
    ensures var cols', m' := cols + [c], ColPut(m, Lower(c), c);
      forall i :: 0 <= i < |cols'| ==> KeyAt(m', Lower(cols'[i])).Some?
  {
    var k := Lower(c);
    var cols' := cols + [c];
    var m' := ColPut(m, k, c);
    forall i | 0 <= i < |cols'| ensures KeyAt(m', Lower(cols'[i])).Some? {
      if i < |cols| {
        assert cols'[i] == cols[i];
        var p := KeyAt(m, Lower(cols[i])).value;
        assert m'[p].0 == m[p].0;
      } else {
        var p := if KeyAt(m, k).Some? then KeyAt(m, k).value else |m|;
        assert m'[p].0 == k;
      }
    }
  }

  lemma StepOrder(cols: seq<string>, c: string, m: seq<(string, string)>)
    requires ColMapOf(cols, m)
    ensures var cols', m' := cols + [c], ColPut(m, Lower(c), c);
      forall p, q, i :: 0 <= q < p < |m'| && 0 <= i < |cols'| && Lower(cols'[i]) == m'[p].0 ==>
        OccursBefore(cols', m'[q].0, i)
  {
    var cols', m' := cols + [c], ColPut(m, Lower(c), c);
    forall p, q, i | 0 <= q < p < |m'| && 0 <= i < |cols'| && Lower(cols'[i]) == m'[p].0
      ensures OccursBefore(cols', m'[q].0, i)
    {
      StepOrderAt(cols, c, m, p, q, i);
    }
  }

  /** `ColPut` keeps every existing entry's name in place and appends at
      most one entry, named `k`. */
  lemma ColPutKeys(m: seq<(string, string)>, k: string, c: string)
    ensures |m| <= |ColPut(m, k, c)| <= |m| + 1
    ensures forall r :: 0 <= r < |m| ==> ColPut(m, k, c)[r].0 == m[r].0
    ensures |ColPut(m, k, c)| == |m| + 1 ==> KeyAt(m, k).None? && ColPut(m, k, c)[|m|].0 == k
  {
  }

  /** One instance of `StepOrder`: the name of an earlier dict entry occurs
      before any column spelling a later entry's name. */
  lemma StepOrderAt(cols: seq<string>, c: string, m: seq<(string, string)>, p: nat, q: nat, i: nat)
    requires ColMapOf(cols, m)
    requires q < p < |ColPut(m, Lower(c), c)| && i <= |cols|
    requires Lower((cols + [c])[i]) == ColPut(m, Lower(c), c)[p].0
    ensures OccursBefore(cols + [c], ColPut(m, Lower(c), c)[q].0, i)
  {
    var cols', m' := cols + [c], ColPut(m, Lower(c), c);
    ColPutKeys(m, Lower(c), c);
    assert q < |m| && m'[q].0 == m[q].0;
    if i < |cols| {
      var k := Lower(cols[i]);
      assert cols'[i] == cols[i];
      var pk := KeyAt(m, k).value;
      assert p < |m| by {
        assert KeyAt(m, k).Some?;
      }
      assert m[p].0 == k;
      assert pk == p by {
        assert DistinctKeys(m);
      }
      assert OccursBefore(cols, m[q].0, i);
      var j :| 0 <= j < i && j < |cols| && Lower(cols[j]) == m[q].0;
      assert cols'[j] == cols[j];
    } else {
      assert LastColumn(cols, m[q].0, m[q].1);
      var j :| LastWith(cols, j, m[q].0) && cols[j] == m[q].1;
      assert cols'[j] == cols[j];
    }
  }

  /** A lowercase name the caller asks for: the name or an alternative. */
  predicate Wanted(k: string, name: string, alts: seq<string>)
  {
    k == Lower(name) || exists a :: a in alts && k == Lower(a)
  }

  datatype ColumnError = MissingColumn(name: string)

  /** The first dict entry that is wanted, in dict order. */
  function PickFrom(m: seq<(string, string)>, name: string, alts: seq<string>): (r: Option<nat>)
    ensures r.Some? ==> r.value < |m| && Wanted(m[r.value].0, name, alts)
                        && forall q :: 0 <= q < r.value ==> !Wanted(m[q].0, name, alts)
    ensures r.None? ==> forall q :: 0 <= q < |m| ==> !Wanted(m[q].0, name, alts)
  {
    if m == [] then None
    else if Wanted(m[0].0, name, alts) then Some(0)
    else match PickFrom(m[1..], name, alts)
      case None => None
      case Some(p) => Some(p + 1)
  }

  /** `_pick(name, *alts)` over the columns `cols`. */
  function Pick(cols: seq<string>, name: string, alts: seq<string>): Result<string, ColumnError>
  {
    var m := ColMap(cols);
    match PickFrom(m, name, alts)
    case Some(p) => Ok(m[p].1)
    case None => Err(MissingColumn(name))
  }

  /** `_pick` fails exactly when no column's lowercase name is wanted;
      otherwise it gives a column spelling a wanted name, the last one
      spelling it, and that name appears no later than any other wanted
      column: the first wanted column decides, a later column with the
      same lowercase name wins. */
  lemma PickSpec(cols: seq<string>, name: string, alts: seq<string>)
    ensures var r := Pick(cols, name, alts);
      && (r.Err? <==> forall i :: 0 <= i < |cols| ==> !Wanted(Lower(cols[i]), name, alts))
      && (r.Ok? ==>
            && Wanted(Lower(r.value), name, alts)
            && (exists j :: LastWith(cols, j, Lower(r.value)) && cols[j] == r.value)
            && forall i :: 0 <= i < |cols| && Wanted(Lower(cols[i]), name, alts) ==>
                 Lower(cols[i]) == Lower(r.value) || OccursBefore(cols, Lower(r.value), i))
  {
    var m := ColMap(cols);
    ColMapSpec(cols);
    match PickFrom(m, name, alts) {
      case None =>
        forall i | 0 <= i < |cols| ensures !Wanted(Lower(cols[i]), name, alts) {
          var p := KeyAt(m, Lower(cols[i])).value;
        }
      case Some(p) =>
        var j :| LastWith(cols, j, m[p].0) && cols[j] == m[p].1;
        assert Lower(m[p].1) == m[p].0;
        assert !(forall i :: 0 <= i < |cols| ==> !Wanted(Lower(cols[i]), name, alts));
        forall i | 0 <= i < |cols| && Wanted(Lower(cols[i]), name, alts)
          ensures Lower(cols[i]) == m[p].0 || OccursBefore(cols, m[p].0, i)
        {
          var p' := KeyAt(m, Lower(cols[i])).value;
          if p' != p {
            assert p < p';
          }
        }
    }
  }

  /** `colmap.get(k)`. */
  function DictGet(cols: seq<string>, k: string): Option<string>
  {
    var m := ColMap(cols);
    if KeyAt(m, k).Some? then Some(m[KeyAt(m, k).value].1) else None
  }

  /** The dict maps a lowercase name to the last column spelling it, and
      holds no other name. */
  lemma DictGetSpec(cols: seq<string>, k: string)
    ensures DictGet(cols, k).None? <==> forall i :: 0 <= i < |cols| ==> Lower(cols[i]) != k
    ensures DictGet(cols, k).Some? ==> exists j :: LastWith(cols, j, k) && cols[j] == DictGet(cols, k).value
  {
    var m := ColMap(cols);
    ColMapSpec(cols);
    if KeyAt(m, k).Some? {
      var p := KeyAt(m, k).value;
      var j :| LastWith(cols, j, m[p].0) && cols[j] == m[p].1;
    }
  }

  const ERROR_CANDIDATES := ["erro", "error", "msg_erro"]

  /** The error column: the first candidate name the dict holds. */
  function ErrorColumn(cols: seq<string>): Option<string>
  {
    if DictGet(cols, "erro").Some? then DictGet(cols, "erro")
    else if DictGet(cols, "error").Some? then DictGet(cols, "error")
    else DictGet(cols, "msg_erro")
  }

  /** The error column is found exactly when some column's lowercase name
      is a candidate; it is the dict's column for the first candidate
      present. */
  lemma ErrorColumnSpec(cols: seq<string>)
    ensures ErrorColumn(cols).None? <==> forall i :: 0 <= i < |cols| ==> Lower(cols[i]) !in ERROR_CANDIDATES
    ensures ErrorColumn(cols).Some? ==>
      exists n :: 0 <= n < |ERROR_CANDIDATES| && DictGet(cols, ERROR_CANDIDATES[n]) == ErrorColumn(cols)
                  && forall n' :: 0 <= n' < n ==> DictGet(cols, ERROR_CANDIDATES[n']).None?
  {
    DictGetSpec(cols, "erro");
    DictGetSpec(cols, "error");
    DictGetSpec(cols, "msg_erro");
    if DictGet(cols, "erro").Some? {
      assert DictGet(cols, ERROR_CANDIDATES[0]) == ErrorColumn(cols);
    } else if DictGet(cols, "error").Some? {
      assert DictGet(cols, ERROR_CANDIDATES[1]) == ErrorColumn(cols);
    } else if DictGet(cols, "msg_erro").Some? {
      assert DictGet(cols, ERROR_CANDIDATES[2]) == ErrorColumn(cols);
    }
  }

  // ---------------------------------------------------------------
  // Rows: the error filter and the baseline
  // ---------------------------------------------------------------

  /** One row of the results table as the analysis reads it; a missing
      error cell is None. */
  datatype Rec = Rec(ssp: string, ano: int, annualMwh: Ext, capacityFactor: Ext, erro: Option<string>)

  /** `df[df["erro"].isna()]` when the table has an error column, the
      table unchanged otherwise. */
  function WithoutErrors(rows: seq<Rec>, hasErrorColumn: bool): (out: seq<Rec>)
  {
    if !hasErrorColumn || rows == [] then rows
    else
      var init := WithoutErrors(rows[..|rows| - 1], true);
      if rows[|rows| - 1].erro.None? then init + [rows[|rows| - 1]] else init
  }

  /** With an error column, exactly the rows without an error survive, in
      their order; without one, every row does. */
  lemma {:induction false} WithoutErrorsSpec(rows: seq<Rec>, hasErrorColumn: bool)
    ensures var out := WithoutErrors(rows, hasErrorColumn);
      && (!hasErrorColumn ==> out == rows)
      && (hasErrorColumn ==> forall r :: r in out <==> r in rows && r.erro.None?)
      && |out| <= |rows|
      && (hasErrorColumn && (forall r :: r in rows ==> r.erro.None?) ==> out == rows)
  {
    if hasErrorColumn && rows != [] {
      var init := rows[..|rows| - 1];
      WithoutErrorsSpec(init, true);
      assert rows == init + [rows[|rows| - 1]];
    }
  }

  const SCENARIOS_ORDER := ["historical", "ssp245", "ssp585"]

  /** `pd.Categorical(ssp, categories=SCENARIOS_ORDER)`: an unknown label
      becomes a missing category. */
  function Category(ssp: string): Option<string>
  {
    if ssp in SCENARIOS_ORDER then Some(ssp) else None
  }

  /** `astype(str)` of a category: a missing one reads "nan". */
  function CategoryText(c: Option<string>): string
  {
    if c.Some? then c.value else "nan"
  }

  predicate SliceAt(s: string, i: int, part: string)
  {
    0 <= i <= |s| - |part| && s[i..i + |part|] == part
  }

  /** Python's `part in s`. */
  predicate Contains(s: string, part: string)
  {
    exists i :: 0 <= i <= |s| && SliceAt(s, i, part)
  }

  /** `.str.contains("historical")` on the categorised label holds exactly
      for the historical label. */
  lemma HistoricalTest(ssp: string)
    ensures Contains(CategoryText(Category(ssp)), "historical") <==> ssp == "historical"
  {
    if ssp == "historical" {
      assert SliceAt(CategoryText(Category(ssp)), 0, "historical");
    } else {
      assert |CategoryText(Category(ssp))| < |"historical"|;
    }
  }

  predicate InBaselineYears(y: int) { 1994 <= y < 2015 }

  predicate HistoricalBase(r: Rec)
  {
    InBaselineYears(r.ano) && Contains(CategoryText(Category(r.ssp)), "historical")
  }

  function Filter(rows: seq<Rec>, historicalOnly: bool): (out: seq<Rec>)
    ensures forall r :: r in out <==> r in rows && InBaselineYears(r.ano) && (historicalOnly ==> HistoricalBase(r))
    ensures (forall r :: r in rows ==> !(InBaselineYears(r.ano) && (historicalOnly ==> HistoricalBase(r)))) ==> out == []
  {
    if rows == [] then []
    else
      var r := rows[|rows| - 1];
      assert rows == rows[..|rows| - 1] + [r];
      Filter(rows[..|rows| - 1], historicalOnly)
        + (if InBaselineYears(r.ano) && (historicalOnly ==> HistoricalBase(r)) then [r] else [])
  }

  /** `base_ref`: the historical rows of 1994-2014, or, when there are
      none, every row of those years. */
  function BaseRef(rows: seq<Rec>): seq<Rec>
  {
    var hist := Filter(rows, true);
    if hist != [] then hist else Filter(rows, false)
  }

  /** The baseline rows are rows of 1994-2014; they are the historical
      ones whenever one exists, and every row of those years otherwise. */
  lemma BaseRefSpec(rows: seq<Rec>)
    ensures forall r :: r in BaseRef(rows) ==> r in rows && InBaselineYears(r.ano)
    ensures (exists r :: r in rows && HistoricalBase(r)) ==>
      forall r :: r in BaseRef(rows) <==> r in rows && HistoricalBase(r)
    ensures (forall r :: r in rows ==> !HistoricalBase(r)) ==>
      forall r :: r in BaseRef(rows) <==> r in rows && InBaselineYears(r.ano)
  {
    if exists r :: r in rows && HistoricalBase(r) {
      var r :| r in rows && HistoricalBase(r);
      assert r in Filter(rows, true);
    }
  }

  // ---------------------------------------------------------------
  // Baseline means and the percentage deltas
  // ---------------------------------------------------------------

  /** The values that are not NaN. */
  function Present(xs: seq<Ext>): (ys: seq<Ext>)
    ensures forall y :: y in ys <==> y in xs && !IsNaN(y)
    ensures (forall x :: x in xs ==> IsNaN(x)) ==> ys == []
    ensures |ys| <= |xs|
  {
    if xs == [] then []
    else
      var x := xs[|xs| - 1];
      assert xs == xs[..|xs| - 1] + [x];
      Present(xs[..|xs| - 1]) + (if IsNaN(x) then [] else [x])
  }

  function SumExt(xs: seq<Ext>): Ext
  {
    if xs == [] then Fin(0.0) else Add(SumExt(xs[..|xs| - 1]), xs[|xs| - 1])
  }

  function SumReal(xs: seq<real>): real
  {
    if xs == [] then 0.0 else SumReal(xs[..|xs| - 1]) + xs[|xs| - 1]
  }

  predicate AllFinite(xs: seq<Ext>) { forall i :: 0 <= i < |xs| ==> xs[i].Fin? }

  function Values(xs: seq<Ext>): (vs: seq<real>)
    requires AllFinite(xs)
    ensures |vs| == |xs| && forall i :: 0 <= i < |xs| ==> vs[i] == xs[i].v
  {
    if xs == [] then [] else Values(xs[..|xs| - 1]) + [xs[|xs| - 1].v]
  }

  /** A group mean as pandas takes it: NaN values skipped, NaN when none
      is left. */
  function MeanSkipNaN(xs: seq<Ext>): Ext
  {
    var ys := Present(xs);
    if ys == [] then NaN else Div(SumExt(ys), Fin(|ys| as real))
  }

  /** A group with no value has a NaN mean; otherwise, when its non-NaN
      values are finite, the mean is their arithmetic mean, the NaN values
      skipped (and so, for a group of finite values, the mean of all). */
  lemma MeanSkipNaNSpec(xs: seq<Ext>)
    ensures (forall x :: x in xs ==> IsNaN(x)) ==> MeanSkipNaN(xs) == NaN
    ensures AllFinite(Present(xs)) && Present(xs) != [] ==>
      MeanSkipNaN(xs) == Fin(SumReal(Values(Present(xs))) / |Present(xs)| as real)
    ensures AllFinite(xs) && xs != [] ==>
      MeanSkipNaN(xs) == Fin(SumReal(Values(xs)) / |xs| as real)
  {
    var ys := Present(xs);
    if AllFinite(ys) && ys != [] {
      PresentOfFinite(ys);
      assert MeanSkipNaN(ys) == MeanSkipNaN(xs);
      MeanOfFinite(ys);
    }
    if AllFinite(xs) && xs != [] {
      MeanOfFinite(xs);
    }
  }

  /** The mean of a non-empty run of finite values is their arithmetic mean. */
  lemma MeanOfFinite(xs: seq<Ext>)
    requires AllFinite(xs) && xs != []
    ensures MeanSkipNaN(xs) == Fin(SumReal(Values(xs)) / |xs| as real)
  {
    PresentOfFinite(xs);
    SumOfFinite(xs);
    var total, count := SumReal(Values(xs)), |xs| as real;
    assert MeanSkipNaN(xs) == Div(Fin(total), Fin(count));
  }

  lemma {:induction false} PresentOfFinite(xs: seq<Ext>)
    requires AllFinite(xs)
    ensures Present(xs) == xs
  {
    if xs != [] {
      var init, x := xs[..|xs| - 1], xs[|xs| - 1];
      assert AllFinite(init) by {
        forall i | 0 <= i < |init| ensures init[i].Fin? { assert init[i] == xs[i]; }
      }
      PresentOfFinite(init);
      assert x.Fin?;
      assert xs == init + [x];
    }
  }

  lemma {:induction false} SumOfFinite(xs: seq<Ext>)
    requires AllFinite(xs)
    ensures SumExt(xs) == Fin(SumReal(Values(xs)))
  {
    if xs != [] {
      var init := xs[..|xs| - 1];
      assert AllFinite(init);
      SumOfFinite(init);
      assert Values(xs)[..|xs| - 1] == Values(init);
    }
  }

  /** The positions of the rows of category `c`, ascending. */
  function CategoryAt(rows: seq<Rec>, c: Option<string>): (idx: seq<nat>)
    ensures forall i :: 0 <= i < |idx| ==> idx[i] < |rows| && Category(rows[idx[i]].ssp) == c
    ensures forall i, j :: 0 <= i < j < |idx| ==> idx[i] < idx[j]
    ensures forall j :: 0 <= j < |rows| && Category(rows[j].ssp) == c ==> j in idx
  {
    if rows == [] then []
    else
      var n := |rows| - 1;
      CategoryAt(rows[..n], c) + (if Category(rows[n].ssp) == c then [n] else [])
  }

  /** `base.loc[cat == c, "annual_mwh"]`: the energy values of the rows of
      category `c`, one per row, in row order. */
  function MwhOf(rows: seq<Rec>, c: Option<string>): (xs: seq<Ext>)
    ensures |xs| == |CategoryAt(rows, c)|
    ensures forall i :: 0 <= i < |xs| ==> xs[i] == rows[CategoryAt(rows, c)[i]].annualMwh
    ensures forall x :: x in xs ==> exists r :: r in rows && Category(r.ssp) == c && x == r.annualMwh
    ensures (forall r :: r in rows ==> Category(r.ssp) != c) ==> xs == []
  {
    if rows == [] then []
    else
      var n := |rows| - 1;
      var init, r := rows[..n], rows[n];
      var xs := MwhOf(init, c) + (if Category(r.ssp) == c then [r.annualMwh] else []);
      MwhSnoc(rows, c, MwhOf(init, c), xs);
      ValuesOfRows(rows, c, xs);
      xs
  }

  /** One more row adds its value exactly when it is of category `c`. */
  lemma MwhSnoc(rows: seq<Rec>, c: Option<string>, before: seq<Ext>, xs: seq<Ext>)
    requires rows != []
    requires var init := rows[..|rows| - 1];
      && |before| == |CategoryAt(init, c)|
      && forall i :: 0 <= i < |before| ==> before[i] == init[CategoryAt(init, c)[i]].annualMwh
    requires var r := rows[|rows| - 1]; xs == before + (if Category(r.ssp) == c then [r.annualMwh] else [])
    ensures |xs| == |CategoryAt(rows, c)|
    ensures forall i :: 0 <= i < |xs| ==> xs[i] == rows[CategoryAt(rows, c)[i]].annualMwh
  {
    var n := |rows| - 1;
    var init := rows[..n];
    var idx0 := CategoryAt(init, c);
    var idx := CategoryAt(rows, c);
    assert idx == idx0 + (if Category(rows[n].ssp) == c then [n] else []);
    forall i | 0 <= i < |xs| ensures xs[i] == rows[idx[i]].annualMwh {
      if i < |before| {
        assert idx[i] == idx0[i] && idx0[i] < n;
        assert init[idx0[i]] == rows[idx0[i]];
      }
    }
  }

  /** Values read off the rows of category `c`, one per row, come from
      such rows, and there are none when no row has that category. */
  lemma ValuesOfRows(rows: seq<Rec>, c: Option<string>, xs: seq<Ext>)
    requires |xs| == |CategoryAt(rows, c)|
    requires forall i :: 0 <= i < |xs| ==> xs[i] == rows[CategoryAt(rows, c)[i]].annualMwh
    ensures forall x :: x in xs ==> exists r :: r in rows && Category(r.ssp) == c && x == r.annualMwh
    ensures (forall r :: r in rows ==> Category(r.ssp) != c) ==> xs == []
  {
    var idx := CategoryAt(rows, c);
    forall x | x in xs ensures exists r :: r in rows && Category(r.ssp) == c && x == r.annualMwh {
      var i :| 0 <= i < |xs| && xs[i] == x;
      assert rows[idx[i]] in rows;
    }
    if xs != [] {
      assert rows[idx[0]] in rows;
    }
  }

  /** The `baseline_mwh` a row receives from the merge: the mean over the
      baseline rows of its own category; a row whose category has no
      baseline row, or has none, gets NaN. */
  function Baseline(base: seq<Rec>, c: Option<string>): Ext
  {
    if c.None? then NaN else MeanSkipNaN(MwhOf(base, c))
  }

  /** A row's `baseline_mwh`: NaN for a row with no category, and for a
      category whose baseline rows all have a NaN energy value; otherwise,
      when those rows' values are not infinite, the arithmetic mean of the
      non-NaN energy values of the baseline rows of that category. */
  lemma BaselineSpec(base: seq<Rec>, c: Option<string>)
    ensures c.None? ==> Baseline(base, c) == NaN
    ensures (forall r :: r in base && Category(r.ssp) == c ==> IsNaN(r.annualMwh)) ==> Baseline(base, c) == NaN
    ensures c.Some? && (forall r :: r in base && Category(r.ssp) == c ==> !r.annualMwh.PosInf? && !r.annualMwh.NegInf?)
              && (exists r :: r in base && Category(r.ssp) == c && !IsNaN(r.annualMwh)) ==>
      var ys := Present(MwhOf(base, c));
      && ys != [] && AllFinite(ys)
      && (forall y :: y in ys <==> exists r :: r in base && Category(r.ssp) == c && !IsNaN(r.annualMwh) && y == r.annualMwh)
      && Baseline(base, c) == Fin(SumReal(Values(ys)) / |ys| as real)
  {
    MeanSkipNaNSpec(MwhOf(base, c));
    if c.Some? && (forall r :: r in base && Category(r.ssp) == c ==> !r.annualMwh.PosInf? && !r.annualMwh.NegInf?)
       && (exists r :: r in base && Category(r.ssp) == c && !IsNaN(r.annualMwh)) {
      BaselineMean(base, c);
    }
  }

  /** The mean case of `BaselineSpec`. */
  lemma BaselineMean(base: seq<Rec>, c: Option<string>)
    requires c.Some?
    requires forall r :: r in base && Category(r.ssp) == c ==> !r.annualMwh.PosInf? && !r.annualMwh.NegInf?
    requires exists r :: r in base && Category(r.ssp) == c && !IsNaN(r.annualMwh)
    ensures var ys := Present(MwhOf(base, c));
      && ys != [] && AllFinite(ys)
      && (forall y :: y in ys <==> exists r :: r in base && Category(r.ssp) == c && !IsNaN(r.annualMwh) && y == r.annualMwh)
      && Baseline(base, c) == Fin(SumReal(Values(ys)) / |ys| as real)
  {
    var ys := Present(MwhOf(base, c));
    PresentMwh(base, c);
    var r :| r in base && Category(r.ssp) == c && !IsNaN(r.annualMwh);
    assert r.annualMwh in ys;
    assert AllFinite(ys) by {
      forall i | 0 <= i < |ys| ensures ys[i].Fin? {
        assert ys[i] in ys;
      }
    }
    MeanSkipNaNSpec(MwhOf(base, c));
  }

  /** The non-NaN values of category `c` are exactly the non-NaN energy
      values of its rows. */
  lemma PresentMwh(base: seq<Rec>, c: Option<string>)
    ensures forall y :: y in Present(MwhOf(base, c)) <==>
      exists r :: r in base && Category(r.ssp) == c && !IsNaN(r.annualMwh) && y == r.annualMwh
  {
    var xs := MwhOf(base, c);
    forall y | exists r :: r in base && Category(r.ssp) == c && !IsNaN(r.annualMwh) && y == r.annualMwh
      ensures y in xs
    {
      var r :| r in base && Category(r.ssp) == c && !IsNaN(r.annualMwh) && y == r.annualMwh;
      var j :| 0 <= j < |base| && base[j] == r;
      var idx := CategoryAt(base, c);
      assert j in idx;
      var i :| 0 <= i < |idx| && idx[i] == j;
      assert xs[i] == y;
    }
  }

  /** `delta_mwh_pct` as written: against the baseline of the row's own
      category. */
  function DeltaMwhPct(rows: seq<Rec>, r: Rec): Ext
  {
    SafePct(r.annualMwh, Some(Baseline(BaseRef(rows), Category(r.ssp))))
  }

  /** Whenever a historical 1994-2014 row exists, the baseline holds only
      historical rows, so every row of another scenario gets a NaN delta,
      whatever its value. */
  lemma FutureDeltaIsNaN(rows: seq<Rec>, r: Rec)
    requires exists q :: q in rows && HistoricalBase(q)
    requires Category(r.ssp) != Some("historical")
    ensures DeltaMwhPct(rows, r) == NaN
  {
    var base := BaseRef(rows);
    BaseRefSpec(rows);
    var c := Category(r.ssp);
    if c.Some? {
      forall q | q in base ensures Category(q.ssp) != c {
        HistoricalTest(q.ssp);
      }
      MeanSkipNaNSpec(MwhOf(base, c));
    }
  }

  /** The baseline the analysis evidently means: the historical 1994-2014
      mean for every scenario when it exists, the scenario's own
      1994-2014 mean otherwise. */
  function IntendedBaseline(rows: seq<Rec>, c: Option<string>): Ext
  {
    if exists q :: q in rows && HistoricalBase(q) then Baseline(BaseRef(rows), Some("historical"))
    else Baseline(BaseRef(rows), c)
  }

  function IntendedDeltaMwhPct(rows: seq<Rec>, r: Rec): Ext
  {
    SafePct(r.annualMwh, Some(IntendedBaseline(rows, Category(r.ssp))))
  }

  /** With the intended baseline, every scenario's value is compared with
      the historical 1994-2014 mean; when that mean is finite and nonzero,
      a finite value gets a finite delta (its percentage change, by
      `SafePctOf`). */
  lemma IntendedDeltaIsFinite(rows: seq<Rec>, r: Rec)
    requires exists q :: q in rows && HistoricalBase(q)
    requires var b := Baseline(BaseRef(rows), Some("historical")); b.Fin? && b.v != 0.0
    requires r.annualMwh.Fin?
    ensures IntendedDeltaMwhPct(rows, r) == SafePct(r.annualMwh, Some(Baseline(BaseRef(rows), Some("historical"))))
    ensures IntendedDeltaMwhPct(rows, r).Fin?
  {
    var b := Baseline(BaseRef(rows), Some("historical"));
    assert IntendedBaseline(rows, Category(r.ssp)) == b;
    SafePctOf(r.annualMwh, b);
  }

  // ---------------------------------------------------------------
  // _linear_trend
  // ---------------------------------------------------------------

  /** The positions of the present values, ascending. */
  function PresentAt(values: seq<Option<real>>): (idx: seq<nat>)
    ensures forall i :: 0 <= i < |idx| ==> idx[i] < |values| && values[idx[i]].Some?
    ensures forall i, j :: 0 <= i < j < |idx| ==> idx[i] < idx[j]
    ensures forall j :: 0 <= j < |values| && values[j].Some? ==> j in idx
  {
    if values == [] then []
    else
      var n := |values| - 1;
      PresentAt(values[..n]) + (if values[n].Some? then [n] else [])
  }

  /** `pd.Series(values, index=years).dropna()`: the years and values
      where a value is present (None stands for NaN): point i is the
      i-th present value with its own year, so order and repetitions are
      kept. */
  function Points(years: seq<int>, values: seq<Option<real>>): (p: (seq<real>, seq<real>))
    requires |years| == |values|
    ensures |p.0| == |p.1| <= |years|
    ensures forall y :: y in p.1 <==> Some(y) in values
  {
    if years == [] then ([], [])
    else
      var n := |years| - 1;
      var init := Points(years[..n], values[..n]);
      assert values == values[..n] + [values[n]];
      if values[n].Some? then (init.0 + [years[n] as real], init.1 + [values[n].value]) else init
  }

  /** Point i is the i-th present value with its own year: `dropna` keeps
      the present values in order, each as often as it occurs, paired with
      its year. */
  lemma {:induction false} PointsAt(years: seq<int>, values: seq<Option<real>>)
    requires |years| == |values|
    ensures var p := Points(years, values);
      && |p.1| == |PresentAt(values)|
      && forall i :: 0 <= i < |p.1| ==>
           values[PresentAt(values)[i]] == Some(p.1[i]) && p.0[i] == years[PresentAt(values)[i]] as real
  {
    if years != [] {
      var n := |years| - 1;
      var ys0, vs0 := years[..n], values[..n];
      PointsAt(ys0, vs0);
      var p0, p := Points(ys0, vs0), Points(years, values);
      var idx0, idx := PresentAt(vs0), PresentAt(values);
      assert idx == idx0 + (if values[n].Some? then [n] else []);
      assert p == (if values[n].Some? then (p0.0 + [years[n] as real], p0.1 + [values[n].value]) else p0);
      forall i | 0 <= i < |p.1| ensures values[idx[i]] == Some(p.1[i]) && p.0[i] == years[idx[i]] as real {
        if i < |p0.1| {
          assert idx[i] == idx0[i] && idx0[i] < n;
          assert vs0[idx0[i]] == values[idx0[i]] && ys0[idx0[i]] == years[idx0[i]];
          assert p.1[i] == p0.1[i] && p.0[i] == p0.0[i];
        }
      }
    }
  }

  function Mean(ys: seq<real>): real
    requires ys != []
  {
    SumReal(ys) / |ys| as real
  }

  function Sq(d: real): real
  {
    d * d
  }

  lemma SqPositive(d: real)
    requires d > 0.0
    ensures Sq(d) > 0.0
  {
    calc {
      Sq(d);
      d * d;
    >
      0.0;
    }
  }

  /** A square is never negative, and is 0 only for 0. */
  lemma SqFacts(d: real)
    ensures Sq(d) >= 0.0
    ensures d != 0.0 ==> Sq(d) > 0.0
  {
    if d > 0.0 {
      SqPositive(d);
    } else if d < 0.0 {
      SqPositive(-d);
      assert Sq(-d) == Sq(d);
    }
  }

  /** Sum of squared deviations of `ys` from `m`. */
  function SqDev(ys: seq<real>, m: real): (s: real)
    ensures s >= 0.0
  {
    if ys == [] then 0.0
    else
      var d := ys[|ys| - 1] - m;
      SqFacts(d);
      SqDev(ys[..|ys| - 1], m) + Sq(d)
  }

  /** Sum of squared residuals of the line `a*x + b`. */
  function SqRes(xs: seq<real>, ys: seq<real>, a: real, b: real): (s: real)
    requires |xs| == |ys|
    ensures s >= 0.0
  {
    if ys == [] then 0.0
    else
      var n := |ys| - 1;
      var e := ys[n] - (a * xs[n] + b);
      SqFacts(e);
      SqRes(xs[..n], ys[..n], a, b) + Sq(e)
  }

  /** `_linear_trend(years, values)`: the slope per decade in percent of
      the mean, and R²; `fit` is the least-squares line `(a, b)`. */
  function LinearTrend(years: seq<int>, values: seq<Option<real>>,
                       fit: (seq<real>, seq<real>) -> (real, real)): (Ext, Ext)
    requires |years| == |values|
  {
    var (xs, ys) := Points(years, values);
    if |ys| < 3 then (NaN, NaN)
    else
      var (a, b) := fit(xs, ys);
      var ssTot := SqDev(ys, Mean(ys));
      var r2 := if ssTot > 0.0 then Fin(1.0 - SqRes(xs, ys, a, b) / ssTot) else NaN;
      var m := Mean(ys);
      if m == 0.0 then (NaN, r2) else (Fin(a * 10.0 / m * 100.0), r2)
  }

  /** No deviation from `m` means every value is `m`. */
  lemma {:induction false} SqDevZero(ys: seq<real>, m: real)
    ensures SqDev(ys, m) == 0.0 <==> forall i :: 0 <= i < |ys| ==> ys[i] == m
  {
    if ys != [] {
      var n := |ys| - 1;
      var init := ys[..n];
      SqDevZero(init, m);
      var d := ys[n] - m;
      SqFacts(d);
      assert SqDev(ys, m) == SqDev(init, m) + Sq(d);
      assert forall i :: 0 <= i < n ==> init[i] == ys[i];
    }
  }

  lemma {:induction false} SumConst(ys: seq<real>, c: real)
    requires forall i :: 0 <= i < |ys| ==> ys[i] == c
    ensures SumReal(ys) == |ys| as real * c
  {
    if ys != [] {
      var n := |ys| - 1;
      SumConst(ys[..n], c);
    }
  }

  /** The total sum of squares vanishes exactly for a constant series. */
  lemma SqTotZeroIffConstant(ys: seq<real>)
    requires ys != []
    ensures SqDev(ys, Mean(ys)) == 0.0 <==> forall i, j :: 0 <= i < |ys| && 0 <= j < |ys| ==> ys[i] == ys[j]
  {
    SqDevZero(ys, Mean(ys));
    if forall i, j :: 0 <= i < |ys| && 0 <= j < |ys| ==> ys[i] == ys[j] {
      SumConst(ys, ys[0]);
      assert Mean(ys) == ys[0];
    }
  }

  /** Fewer than three present points give no slope and no R². */
  lemma TrendTooFew(years: seq<int>, values: seq<Option<real>>,
                    fit: (seq<real>, seq<real>) -> (real, real))
    requires |years| == |values| && |Points(years, values).1| < 3
    ensures LinearTrend(years, values, fit) == (NaN, NaN)
  {
  }

  /** With three or more points, R² is missing exactly for a constant
      series, and otherwise at most 1. */
  lemma TrendR2(years: seq<int>, values: seq<Option<real>>,
                fit: (seq<real>, seq<real>) -> (real, real))
    requires |years| == |values| && |Points(years, values).1| >= 3
    ensures var ys := Points(years, values).1;
            var r2 := LinearTrend(years, values, fit).1;
      && (r2 == NaN <==> forall i, j :: 0 <= i < |ys| && 0 <= j < |ys| ==> ys[i] == ys[j])
      && (r2 != NaN ==> r2.Fin? && r2.v <= 1.0)
  {
    var xs := Points(years, values).0;
    var ys := Points(years, values).1;
    SqTotZeroIffConstant(ys);
    var ssTot := SqDev(ys, Mean(ys));
    if ssTot > 0.0 {
      var res := SqRes(xs, ys, fit(xs, ys).0, fit(xs, ys).1);
      assert res / ssTot >= 0.0;
    }
  }

  /** With three or more points, the slope is missing exactly when the
      mean is 0, and otherwise it is the fitted slope per decade in percent
      of the mean. */
  lemma TrendSlope(years: seq<int>, values: seq<Option<real>>,
                   fit: (seq<real>, seq<real>) -> (real, real))
    requires |years| == |values| && |Points(years, values).1| >= 3
    ensures var xs := Points(years, values).0;
            var ys := Points(years, values).1;
            var slope := LinearTrend(years, values, fit).0;
      && (slope == NaN <==> Mean(ys) == 0.0)
      && (slope != NaN ==> slope == Fin(fit(xs, ys).0 * 10.0 / Mean(ys) * 100.0))
  {
  }
}
