# Climate-morphed photovoltaic yield pipeline, modelled in Dafny

The pipeline estimates how a photovoltaic plant's annual yield changes under
climate projections. It has four stages, each a Python script:

1. **Hourly calendar normaliser** (`2-gera_csvs_sam_number0.py`). It picks
   the ERA5-Land monthly files by name (`era5land_YYYY_MM_*.nc`) and groups
   them by year. For each year it floors the sample timestamps to the hour,
   keeps the target year, averages duplicate hours, and reindexes onto the
   year's full hourly calendar. A year with any missing hour stops the run.
2. **Monthly morph** (`3-pipeline_morph_validate_sam.py`). It reads one
   hourly reference year (8760 rows) and builds monthly climatologies
   (1994–2014) and one-year monthly projections from NEX-GDDP-CMIP6. From
   these it derives twelve monthly factors (rsds and wind ratios, tas and
   hurs offsets). It applies them hour by hour, recomputes DNI/DHI from a
   clipped fraction, re-stamps the year, writes and validates the CSV, and
   runs the simulator for every (scenario, year) job. Each job leaves a
   result row and a log file.
3. **Result consolidator** (`4-consolida_sam_morph.py`). It indexes the
   morphed CSVs by (scenario, year) and parses every log into OK/ERRO. It
   adds a `SEM_LOG` row for every indexed CSV without a log, then sorts
   the table.
4. **Analysis helpers** (`5-analisar_sam_results.py`). These cover
   case-insensitive column picking, the error-row filter, the 1994–2014
   baseline with its fallback, the percentage change with its guard, the
   guards of the linear trend, and decade labels.

The Dafny project has one module per concern:

- `wrappers.dfy`: `Option` and `Result`.
- `ext_real.dfy`: reals extended with ±infinity and NaN, the values pandas
  produces on division by zero, and the clip/fillna operations on them.
- `text.dfy`: ASCII lower-casing, Python whitespace stripping, `str(int)`
  and its parse, zero-padded digits, and Python's string order.
- `sorting.dfy`: a stable insertion sort specified as a sorted permutation.
- `calendar.dfy`: timestamps floored to the hour, the hourly calendar of a
  year, and Feb-29 removal.
- `grid.dfy`: the 0–360° longitude rule.
- `normaliser.dfy`: stage 1.
- `climatology.dfy`: the loaders of stage 2.
- `morph.dfy`: the morph of stage 2. It includes a `Frame` class whose
  column fields are updated in the source's order.
- `pipeline.dfy`: the job loop of stage 2, with a `Runner` class that
  holds the results, the log directory and the written CSVs.
- `consolidate.dfy`: stage 3, with a `Consolidator` class holding
  `csv_map` and `rows`.
- `analysis.dfy`: stage 4.

Floats are `real`. `ExtReal.Ext` adds `PosInf`, `NegInf` and `NaN` wherever
the code can produce them: a ratio against a zero climatology, pandas' NaN
checks and `fillna`. Directories are abstract listings (`seq<string>`,
`map<string, seq<string>>`). The loaders' netCDF contents are abstract
finder functions. JSON parsing, the simulator and exception texts are
function parameters (oracles).

Behaviours of the code worth noting:

- A zero climatology is not guarded. A month with `clim_rsds[m] == 0`
  gives an infinite or NaN ratio (`Morph.MonthlyFactorsRatios`). That NaN
  then fails validation (`Morph.NonFiniteRatioFailsValidation`). No
  dedicated error exists.
- The DNI fraction is taken against the already-scaled GHI
  (3-pipeline_morph_validate_sam.py:543-546), not the reference GHI
  (`Morph.BrighterMonthKeepsDni`). The module docstring
  (3-pipeline_morph_validate_sam.py:53) says the profile's DNI/GHI fraction
  is kept; see "## Findings".
- A missing future `hurs` with a present climatology gives the offset
  `-clim_hurs[m]`, not the 0 the docstring promises
  (3-pipeline_morph_validate_sam.py:92). A present future `hurs` with no climatology
  raises (`Morph.HursOffsetCases`).
- The normaliser keeps Feb 29 for leap years: 8784 rows, with no leap-day
  removal at that stage (`Normaliser.ReindexedFeb29`). Feb-29 removal only
  happens when the reference profile is read and validated (`Morph.ReadBaseOutcome`).

## Model

| member | source | states |
|---|---|---|
| ExtReal.Add | 3-pipeline_morph_validate_sam.py:552 | finite operands add as reals; a NaN operand gives NaN |
| ExtReal.Mul | 3-pipeline_morph_validate_sam.py:543 | finite operands multiply as reals; a NaN operand gives NaN |
| ExtReal.MulInfinity | 3-pipeline_morph_validate_sam.py:543 | infinity times 0 is NaN, times a positive value +inf, times a negative value -inf |
| ExtReal.Div | 3-pipeline_morph_validate_sam.py:531-533 | a finite quotient for a nonzero finite divisor; a NaN operand gives NaN |
| ExtReal.ClipLower | 3-pipeline_morph_validate_sam.py:543 | `clip(lower=lo)`: NaN stays NaN, never -inf, finite results at least lo, values already above lo unchanged |
| ExtReal.Clip | 3-pipeline_morph_validate_sam.py:546-547 | `clip(lo, hi)`: NaN stays NaN, anything else lands finite in [lo, hi], values inside unchanged |
| ExtReal.FillNaN | 3-pipeline_morph_validate_sam.py:546 | `fillna(d)`: never NaN, non-NaN values unchanged |
| Text.Lower | 5-analisar_sam_results.py:83 | same length, each character lower-cased |
| Text.Strip | 4-consolida_sam_morph.py:25 | the result has no whitespace at either end and is a slice of the input with only whitespace cut off |
| Text.NatToString | 3-pipeline_morph_validate_sam.py:564 | `str(n)`: non-empty digits with no leading zero |
| Text.NatToStringRoundTrip | 3-pipeline_morph_validate_sam.py:564 | parsing `str(n)` gives back n |
| Text.IntToStringRoundTrip | 3-pipeline_morph_validate_sam.py:658 | parsing `str(i)` gives back i for every integer, negative ones included |
| Text.Pad4 | 2-gera_csvs_sam_number0.py:28 | a four-digit rendering of a year |
| Text.Pad2 | 2-gera_csvs_sam_number0.py:28 | a two-digit rendering of a month |
| Text.Pad4RoundTrip | 2-gera_csvs_sam_number0.py:28 | parsing four padded digits gives back the number |
| Text.Pad2RoundTrip | 2-gera_csvs_sam_number0.py:28 | parsing two padded digits gives back the number |
| Text.Pad4OfParse | 4-consolida_sam_morph.py:64-68 | a four-digit string is the padding of its own value (the reverse round trip) |
| Text.Pad4Equals | 4-consolida_sam_morph.py:95 | for years 1000–9999, `str(year)` is the four-digit rendering |
| Text.StrLessTotal | 2-gera_csvs_sam_number0.py:29 | Python's string order relates any two distinct strings |
| Text.StrLessTransitive | 2-gera_csvs_sam_number0.py:29 | Python's string order is transitive |
| Text.StrLessAsymmetric | 2-gera_csvs_sam_number0.py:29 | Python's string order is asymmetric |
| Sorting.Insert | 2-gera_csvs_sam_number0.py:29 | inserting into a sorted list keeps it sorted and adds exactly one element |
| Sorting.SortBy | 2-gera_csvs_sam_number0.py:29 | `sorted`: a sorted permutation of the input |
| Sorting.SortedElements | 2-gera_csvs_sam_number0.py:29 | sorting keeps exactly the input's elements |
| Sorting.InsertEqualTo | 2-gera_csvs_sam_number0.py:29 | inserting an element puts it after every element with an equal key, so the elements equal to any key keep their order |
| Sorting.SortStable | 2-gera_csvs_sam_number0.py:29 | `sorted` is stable: the elements with an equal key come out in their input order |
| Sorting.StrLeTotalPreorder | 4-consolida_sam_morph.py:62 | file-name order is a total preorder, so sorting by it is well defined |
| Calendar.DaysBeforeNext | 2-gera_csvs_sam_number0.py:115-118 | the days before month m+1 are those before m plus the length of m |
| Calendar.HourOfYear | 2-gera_csvs_sam_number0.py:115-118 | a valid timestamp's position lies within its year's hours |
| Calendar.StampAt | 2-gera_csvs_sam_number0.py:115-118 | the timestamp at position i is a valid date of the year, at position i |
| Calendar.StampAtHourOfYear | 2-gera_csvs_sam_number0.py:115-118 | every valid timestamp is the one at its own position (round trip) |
| Calendar.BeforeIffHourOfYear | 2-gera_csvs_sam_number0.py:115-118 | within a year, chronological order is the order of positions |
| Calendar.ExpectedHourlyIndex | 2-gera_csvs_sam_number0.py:115-118 | the hourly calendar has one entry per hour, entry i being the timestamp at position i |
| Calendar.ExpectedHourlyIndexSpec | 2-gera_csvs_sam_number0.py:115-118 | 8784 entries in a leap year and 8760 otherwise, from Jan 1 00:00 to Dec 31 23:00, strictly increasing, each a date of the year, and every date-hour of the year present |
| Calendar.RemoveFeb29Append | 3-pipeline_morph_validate_sam.py:207-208 | dropping Feb-29 rows distributes over concatenation |
| Calendar.RemoveFeb29None | 3-pipeline_morph_validate_sam.py:207-208 | rows without Feb 29 are kept whole |
| Calendar.RemoveFeb29All | 3-pipeline_morph_validate_sam.py:207-208 | rows all on Feb 29 vanish |
| Calendar.LeapIndexWithoutFeb29 | 3-pipeline_morph_validate_sam.py:207-208 | in a leap year's calendar the Feb-29 rows are exactly positions 1416–1439; removing them leaves 8760 |
| Calendar.LeapWithoutFeb29MatchesCommonYear | 3-pipeline_morph_validate_sam.py:207-210 | a leap year without Feb 29 has, position by position, the month, day and hour of a common year |
| Grid.MinOf | 2-gera_csvs_sam_number0.py:97 | the minimum is an element and no greater than any element |
| Grid.LookupLongitude | 2-gera_csvs_sam_number0.py:95-98 | an empty longitude axis fails; otherwise the result is lon or lon+360, and lon+360 exactly when the axis minimum is ≥ 0 and lon < 0 (then non-negative) |
| Normaliser.SearchFromSpec | 2-gera_csvs_sam_number0.py:28 | `pat.search` finds nothing exactly when the pattern matches at no position, and otherwise reports the leftmost match |
| Normaliser.FirstFromNone | 2-gera_csvs_sam_number0.py:106 | the leftmost-search fold finds nothing exactly when no position matches |
| Normaliser.FirstFromSome | 2-gera_csvs_sam_number0.py:106 | a found match is at a position with no match before it |
| Normaliser.FileNameRoundTrip | 2-gera_csvs_sam_number0.py:28 | a name `era5land_YYYY_MM_<tag>.nc` yields back its year and month |
| Normaliser.MonthUnderscoreRequired | 2-gera_csvs_sam_number0.py:28 | `era5land_YYYY_MM.nc` (no underscore after the month) does not match |
| Normaliser.Matching | 2-gera_csvs_sam_number0.py:29 | the selected files are exactly the listed names the pattern accepts |
| Normaliser.BucketNonEmpty | 2-gera_csvs_sam_number0.py:104-110 | a year's list is non-empty exactly when some file carries that year |
| Normaliser.InsertYear | 2-gera_csvs_sam_number0.py:112 | adding a year keeps the years strictly increasing and adds just that year |
| Normaliser.FilesOfYearNonEmpty | 2-gera_csvs_sam_number0.py:104-110 | a year's files are non-empty exactly when some file name carries that year |
| Normaliser.YearsOf | 2-gera_csvs_sam_number0.py:112 | `sorted(by_year.keys())`: strictly increasing, exactly the years that occur |
| Normaliser.GroupStep | 2-gera_csvs_sam_number0.py:105-110 | one `setdefault(year, []).append(p)` keeps every year's list equal to that year's files so far, in order |
| Normaliser.Group | 2-gera_csvs_sam_number0.py:104-112 | the keys are exactly the years that occur, each list holds that year's files in file order, and the year list is the keys ascending |
| Normaliser.GroupedKeys | 2-gera_csvs_sam_number0.py:104-112 | once every file is grouped, the keys and the sorted years are exactly the years that occur |
| Normaliser.GroupByYear | 2-gera_csvs_sam_number0.py:28-112 | files are a sorted permutation of the matching names, and each file is grouped under exactly its captured year, in sorted order, with the years ascending |
| Normaliser.HoursOf | 2-gera_csvs_sam_number0.py:157-172 | an hour is present exactly when some kept sample (timestamp present, target year) floors to it |
| Normaliser.HourlyMeans | 2-gera_csvs_sam_number0.py:157-174 | one entry per hour that has at least one kept sample, and no other; the entry is NaN exactly when none of the hour's samples has a value |
| Normaliser.ValueCountZero | 2-gera_csvs_sam_number0.py:174 | an hour has no value to average exactly when every one of its kept samples is NaN |
| Normaliser.ValueCountBelow | 2-gera_csvs_sam_number0.py:174 | the values averaged for an hour are at most its kept samples |
| Normaliser.HourlyMeansKeys | 2-gera_csvs_sam_number0.py:157-168 | every hour of the result is in the target year and is the floor of some sample's timestamp |
| Normaliser.SumBounds | 2-gera_csvs_sam_number0.py:174 | the sum of an hour's non-NaN samples lies between count·lo and count·hi |
| Normaliser.MeanWithinSamples | 2-gera_csvs_sam_number0.py:174 | each non-NaN hourly mean lies within the range of the non-NaN samples averaged into it |
| Normaliser.TallyStep | 2-gera_csvs_sam_number0.py:174 | adding one sample to the running sums and value counts keeps them equal to those of the samples seen, NaN values skipped |
| Normaliser.ExtractHourly | 2-gera_csvs_sam_number0.py:120-175 | the loop's means are exactly the hourly means of the kept samples, NaN for an hour with only NaN samples |
| Normaliser.MissingCountZero | 2-gera_csvs_sam_number0.py:222 | no hour is missing exactly when every calendar hour has a mean that is not NaN |
| Normaliser.ReindexOnSpec | 2-gera_csvs_sam_number0.py:219-226 | reindexing succeeds exactly when every stamp has a non-NaN mean, and then gives one row per stamp with that mean; a stamp with no mean or a NaN mean counts as missing, and a failure reports a positive count |
| Normaliser.ReindexedOk | 2-gera_csvs_sam_number0.py:217-233 | a year is written exactly when every hour of its calendar has a non-NaN mean; otherwise a positive number of missing hours (no mean or NaN mean) is reported |
| Normaliser.ReindexedRows | 2-gera_csvs_sam_number0.py:217-220 | the rows follow the expected calendar (8760 or 8784), carry each hour's non-NaN mean, and are strictly increasing |
| Normaliser.ReindexedFeb29 | 2-gera_csvs_sam_number0.py:217-220 | a written leap year keeps its Feb-29 hours |
| Normaliser.ReindexedSpec | 2-gera_csvs_sam_number0.py:217-233 | all of the above for the reindex and gap check together, NaN means counted as missing |
| Normaliser.WrittenIffEveryHourHasValue | 2-gera_csvs_sam_number0.py:157-233 | a year's samples are written exactly when every calendar hour has a kept sample whose wind speed is not NaN |
| Normaliser.NaNHourRefused | 2-gera_csvs_sam_number0.py:174-233 | a calendar hour whose kept samples are all NaN stops the year with the missing-hours error |
| Normaliser.ReindexOnto | 2-gera_csvs_sam_number0.py:219-226 | the loop's outcome is the reindex specification: the column holds each stamp's mean, NaN where the stamp has none, and the missing count counts the NaN cells |
| Normaliser.ReindexYear | 2-gera_csvs_sam_number0.py:217-233 | the loop's outcome is the reindex of the year's calendar, with no-mean and NaN-mean hours counted as missing |
| Normaliser.LoadYear | 2-gera_csvs_sam_number0.py:183-206 | the samples are those of the files that loaded, in file order, and something loaded exactly when the list is non-empty |
| Normaliser.ProcessYear | 2-gera_csvs_sam_number0.py:177-235 | one iteration: skipped if the CSV exists, nothing when no file loads, the rows written, or the missing-hours error when some hour has no mean or a NaN mean |
| Normaliser.YearLoop | 2-gera_csvs_sam_number0.py:177-236 | outcomes are the years' outcomes in ascending order, and the loop stops right after the first year with a missing (no-mean or NaN-mean) hour |
| Normaliser.ProgressStep | 2-gera_csvs_sam_number0.py:177-236 | one pass adds the next year's outcome and continues only when no hour was missing or NaN |
| Normaliser.MapYearsSnoc | 2-gera_csvs_sam_number0.py:177 | one more year appends its outcome |
| Normaliser.MapYearsAt | 2-gera_csvs_sam_number0.py:177 | outcome i belongs to year i |
| Normaliser.YearOutcomesSnoc | 2-gera_csvs_sam_number0.py:177 | one more year appends that year's result |
| Normaliser.YearOutcomesAt | 2-gera_csvs_sam_number0.py:177 | outcome i is the result of year i |
| Normaliser.Run | 2-gera_csvs_sam_number0.py:28-236 | the whole script: grouping as in GroupByYear, and the year loop as in YearLoop over the grouped years |
| Climatology.AsMonthlySeries | 3-pipeline_morph_validate_sam.py:455-466 | None gives 12 copies of fill when allowed, else the missing-series error; a scalar gives 12 copies; a list must have exactly 12 values, else the length error naming its length |
| Climatology.MonthlyMeans | 3-pipeline_morph_validate_sam.py:302-305 | a successful monthly group-by has 12 values |
| Climatology.SumInBounds | 3-pipeline_morph_validate_sam.py:302 | a month's sum lies between count·lo and count·hi |
| Climatology.MonthlyMeanBounds | 3-pipeline_morph_validate_sam.py:302 | each monthly mean lies within the range of that month's daily values |
| Climatology.CountSumAppend | 3-pipeline_morph_validate_sam.py:301 | counts and sums of concatenated years add up |
| Climatology.PooledBetween | 3-pipeline_morph_validate_sam.py:301-302 | the pooled monthly mean of two groups of years lies between the two groups' own means |
| Climatology.FirstHitSpec | 3-pipeline_morph_validate_sam.py:214-219 | nothing is found exactly when no pattern has a hit; otherwise the result is the first hit of the first pattern with hits |
| Climatology.FindFirstExisting | 3-pipeline_morph_validate_sam.py:214-219 | the early-return loop computes that first hit |
| Climatology.YearPatterns | 3-pipeline_morph_validate_sam.py:223-232 | the eight lookup patterns of one projection year |
| Climatology.HistPatterns | 3-pipeline_morph_validate_sam.py:269-275 | the five lookup patterns of one historical year |
| Climatology.LookupScenario | 3-pipeline_morph_validate_sam.py:495 | "historical" before 2015, the given scenario from 2015 on |
| Climatology.NexOneYear | 3-pipeline_morph_validate_sam.py:221-263 | a loaded projection year has 12 monthly values |
| Climatology.HistYears | 3-pipeline_morph_validate_sam.py:265 | the years 1994 to 2014, in order |
| Climatology.PooledMeans | 3-pipeline_morph_validate_sam.py:298-306 | a pooled climatology has 12 values |
| Climatology.FoundEmpty | 3-pipeline_morph_validate_sam.py:268-277 | no year contributes exactly when every year's lookup misses |
| Climatology.PooledNotFound | 3-pipeline_morph_validate_sam.py:298-305 | the file-not-found error arises exactly when no year 1994–2014 has a file; any other failure is the month-count error |
| Climatology.NexHist | 3-pipeline_morph_validate_sam.py:265-306 | a loaded historical climatology has 12 values |
| Climatology.LoadNexHistMonthly | 3-pipeline_morph_validate_sam.py:265-306 | the loop over 1994–2014 that appends each found year gives the pooled climatology |
| Climatology.WindClim | 3-pipeline_morph_validate_sam.py:404-419 | a loaded wind climatology has 12 values |
| Climatology.LoadWindClim | 3-pipeline_morph_validate_sam.py:404-419 | the loop over the hourly wind CSVs gives the pooled wind climatology |
| Climatology.ClimDict | 3-pipeline_morph_validate_sam.py:468-492 | the dictionary holds rsds, tas, sfcWind, and hurs exactly when it loaded, with no other key |
| Climatology.HistClimsContents | 3-pipeline_morph_validate_sam.py:468-492 | rsds and tas come from the historical archive; sfcWind comes from the hourly CSVs, or from the archive when those fail; hurs is present exactly when it loaded; every series has 12 values |
| Climatology.HistClimsOutcome | 3-pipeline_morph_validate_sam.py:470-487 | loading succeeds exactly when rsds, tas and one wind source load; a missing rsds surfaces the spreadsheet failure when the spreadsheet exists and its own error otherwise |
| Climatology.LoadHistClims | 3-pipeline_morph_validate_sam.py:468-492 | the try/except branches compute that dictionary or error |
| Climatology.LoadFutureMonthly | 3-pipeline_morph_validate_sam.py:494-505 | the loop over the four variables computes the projection dictionary or error |
| Climatology.FutureMonthlySpec | 3-pipeline_morph_validate_sam.py:494-505 | lookup uses "historical" before 2015; the result succeeds exactly when rsds, tas and sfcWind load; hurs is present exactly when it loads; the first failing variable's error is reported |
| Morph.BadTimes | 3-pipeline_morph_validate_sam.py:173-174 | the number of unparsed DateTimes is 0 exactly when every line parsed |
| Morph.FirstMissing | 3-pipeline_morph_validate_sam.py:192-195 | no column is reported exactly when every required column exists; a reported one is required and absent |
| Morph.FirstMissingIsFirst | 3-pipeline_morph_validate_sam.py:193-195 | the reported column is the first absent one in the required order |
| Morph.CheckedSpec | 3-pipeline_morph_validate_sam.py:186-198 | a table passes exactly when it has DateTime, every line parses, all required columns exist and no required cell is NaN; a missing DateTime and unparsed lines give their own errors |
| Morph.ClipReal | 3-pipeline_morph_validate_sam.py:184 | the clipped value is within [lo, hi], equal to x inside, lo below and hi above |
| Morph.GuessIrrScaleSpec | 3-pipeline_morph_validate_sam.py:177-184 | the scale is always in [0.1, 100]; it is 1.0 for a non-finite or non-positive p95; it maps p95 onto 900 W/m² when that needs no clipping, and clips otherwise |
| Morph.Scaled | 3-pipeline_morph_validate_sam.py:202-204 | a scale within 1e-6 of 1 leaves the value unchanged; finite values stay finite; a nonzero scale creates no NaN |
| Morph.SortedHours | 3-pipeline_morph_validate_sam.py:190-191 | the lines sorted by time: a permutation, in chronological order |
| Morph.HourLeTotalPreorder | 3-pipeline_morph_validate_sam.py:191 | chronological order of hours is a total preorder |
| Morph.RemoveFeb29Sorted | 3-pipeline_morph_validate_sam.py:207-208 | dropping Feb-29 rows keeps the order |
| Morph.ReadBaseOutcome | 3-pipeline_morph_validate_sam.py:186-210 | a failed check is reported first; otherwise loading succeeds exactly when 8760 lines remain after the Feb-29 rule, which drops Feb 29 only from exactly 8784 lines; otherwise the row-count error carries the count |
| Morph.ReadBaseOrdered | 3-pipeline_morph_validate_sam.py:191-211 | a loaded reference has 8760 hours, sorted, with valid dates, and no Feb 29 when it came from 8784 lines |
| Morph.ReadBaseNoNaN | 3-pipeline_morph_validate_sam.py:197-204 | a loaded reference has no NaN in temperature, wind or humidity, nor in irradiance unless the scale is 0 |
| Morph.ReadBaseElements | 3-pipeline_morph_validate_sam.py:197-204 | every sorted hour of a checked table has a valid date and no NaN (irradiance: for a nonzero scale) |
| Morph.Ratios | 3-pipeline_morph_validate_sam.py:531 | twelve monthly ratios |
| Morph.Offsets | 3-pipeline_morph_validate_sam.py:532 | twelve monthly offsets |
| Morph.MonthlyFactors | 3-pipeline_morph_validate_sam.py:512-534 | successful factors hold 12 values each |
| Morph.HursOffsetCases | 3-pipeline_morph_validate_sam.py:523-534 | both hurs missing gives offset 0; a missing future with a climatology gives -clim_hurs[m]; a bad climatology length errs; a future without a climatology errs; both present give fut-clim |
| Morph.MonthlyFactorsRatios | 3-pipeline_morph_validate_sam.py:512-534 | factors exist exactly when the core series and hurs shape; k_rsds and k_wspd are the quotients, +inf or NaN on a zero climatology; d_tas is the difference |
| Morph.ScaleClip | 3-pipeline_morph_validate_sam.py:543 | `(x*k).clip(lower=0)`: never negative, NaN exactly when the product is, finite products floored at 0, infinite factor gives +inf or NaN |
| Morph.DniFraction | 3-pipeline_morph_validate_sam.py:544-546 | the fraction is always finite in [0, 1], and 0 against an infinite GHI |
| Morph.DhiFraction | 3-pipeline_morph_validate_sam.py:547 | the diffuse fraction is the complement of the direct one |
| Morph.ShiftClip | 3-pipeline_morph_validate_sam.py:554 | `(x+d).clip(0, 100)`: NaN exactly when the sum is, otherwise finite in [0, 100] |
| Morph.MonthIndex | 3-pipeline_morph_validate_sam.py:536-539 | an hour's factor index is its month minus one, within 0..11 |
| Morph.MorphSplitFinite | 3-pipeline_morph_validate_sam.py:543-549 | for a finite morphed GHI, DNI + DHI = GHI, with both non-negative and DNI at most GHI |
| Morph.MorphSplitInfinite | 3-pipeline_morph_validate_sam.py:543-549 | an infinite morphed GHI gives a NaN DNI and an infinite DHI |
| Morph.MorphSplitNaN | 3-pipeline_morph_validate_sam.py:543-549 | a NaN morphed GHI makes DNI and DHI NaN |
| Morph.IdentityKeepsScalars | 3-pipeline_morph_validate_sam.py:543-554 | identity factors keep GHI, temperature, wind and humidity of an in-range hour |
| Morph.UnitScale | 3-pipeline_morph_validate_sam.py:543 | a factor of 1 keeps a non-negative value |
| Morph.ZeroShift | 3-pipeline_morph_validate_sam.py:554 | an offset of 0 keeps a humidity in [0, 100] |
| Morph.IdentityChangesSplit | 3-pipeline_morph_validate_sam.py:544-549 | identity factors still change DNI and DHI (the original DHI is discarded): 300/200 W/m² become about 299.9999994/200.0000006 |
| Morph.BrighterMonthKeepsDni | 3-pipeline_morph_validate_sam.py:543-548 | because the fraction is taken against the new GHI, a 10% brighter month leaves DNI just under 300 W/m² rather than 330 |
| Morph.RefFracOf | 3-pipeline_morph_validate_sam.py:53 | the reference hour's DNI/GHI fraction, clipped as the code clips it: finite and within [0, 1] |
| Morph.IntendedSplitKeepsFraction | 3-pipeline_morph_validate_sam.py:543-548 | the corrected split that keeps the profile's fraction as the docstring (line 53) promises: for a positive morphed GHI, DNI/GHI equals the reference hour's fraction, and DNI + DHI = GHI with both non-negative |
| Morph.IntendedBrighterMonthScalesDni | 3-pipeline_morph_validate_sam.py:543-548 | with the corrected split, a 10% brighter month raises a 300 W/m² DNI to about 330 W/m² |
| Morph.RestampSpec | 3-pipeline_morph_validate_sam.py:557-558 | re-stamping fails exactly when the target year is common and some stamp is Feb 29; otherwise it keeps count, order, month, day and hour and replaces only the year |
| Morph.MorphYearSpec | 3-pipeline_morph_validate_sam.py:541-558 | the morphed year fails exactly as the re-stamp does; otherwise hour i is the morph of reference hour i with its year replaced |
| Morph.MorphYearRestamp | 3-pipeline_morph_validate_sam.py:557-558 | the morph succeeds or fails with the re-stamp, and with its error |
| Morph.MorphYearOk | 3-pipeline_morph_validate_sam.py:541-558 | a successful morph is every hour morphed and then re-stamped |
| Morph.FractionColumn | 3-pipeline_morph_validate_sam.py:546 | every fraction of the column is finite in [0, 1] |
| Morph.GhiColumnMorph | 3-pipeline_morph_validate_sam.py:543 | the GHI column update yields every hour's morphed GHI |
| Morph.SplitColumnsMorph | 3-pipeline_morph_validate_sam.py:544-549 | DNI and DHI computed from the new GHI column are every hour's morphed DNI and DHI |
| Morph.TempColumnMorph | 3-pipeline_morph_validate_sam.py:552 | the temperature column update yields every hour's morphed temperature |
| Morph.WindColumnMorph | 3-pipeline_morph_validate_sam.py:553 | the wind column update yields every hour's morphed wind |
| Morph.RhColumnMorph | 3-pipeline_morph_validate_sam.py:554 | the humidity column update yields every hour's morphed humidity |
| Morph.ColumnsMorph | 3-pipeline_morph_validate_sam.py:541-554 | the column-wise updates, in order, equal the hour-by-hour morph |
| Morph.Frame.constructor | 3-pipeline_morph_validate_sam.py:541 | `base.copy()`: the frame reads back as the reference hours |
| Morph.Frame.MorphColumns | 3-pipeline_morph_validate_sam.py:542-554 | the in-place column updates leave the frame equal to every hour morphed, with the stamps unchanged |
| Morph.Frame.RestampTo | 3-pipeline_morph_validate_sam.py:556-558 | the in-place re-stamp succeeds exactly when the re-stamp does and then replaces each stamp; a failure changes nothing |
| Morph.Frame.Morph | 3-pipeline_morph_validate_sam.py:541-558 | the frame ends as the morphed year, or reports its error with the stamps unchanged |
| Morph.OutputColumns | 3-pipeline_morph_validate_sam.py:565 | DateTime followed by the six required columns, in order |
| Morph.WrittenRowNaN | 3-pipeline_morph_validate_sam.py:565-579 | a written hour reads back with no NaN required cell exactly when it has no NaN |
| Morph.WrittenChecked | 3-pipeline_morph_validate_sam.py:568-579 | a written profile passes the column and NaN checks exactly when no hour has a NaN |
| Morph.ValidateWritten | 3-pipeline_morph_validate_sam.py:568-583 | a written 8760-hour profile validates exactly when no hour has a NaN |
| Morph.NonFiniteRatioGivesNaN | 3-pipeline_morph_validate_sam.py:531-548 | an infinite or NaN rsds ratio makes the DNI of an hour of that month NaN |
| Morph.NonFiniteRatioFailsValidation | 3-pipeline_morph_validate_sam.py:531-579 | so a year with such a month fails validation: a zero climatology is caught only there |
| Morph.MorphOneYearSpec | 3-pipeline_morph_validate_sam.py:507-566 | a success returns the output path and 8760 real-dated hours of the target year; a reference failure and a climatology failure are reported as such |
| Morph.RunMorphOneYear | 3-pipeline_morph_validate_sam.py:507-566 | the steps with the loaders and the frame compute `morph_one_year` |
| Pipeline.Years | 3-pipeline_morph_validate_sam.py:132 | the years 1994 to 2054 |
| Pipeline.ScenarioRule | 3-pipeline_morph_validate_sam.py:495-654 | lookup scenario, output subdirectory and result label agree, and are "historical" exactly before 2015 |
| Pipeline.YearJobs | 3-pipeline_morph_validate_sam.py:643-646 | a scenario's jobs are its years except the historical ones of a scenario other than the first |
| Pipeline.JobsOf | 3-pipeline_morph_validate_sam.py:639-646 | the jobs are exactly the (scenario, year) pairs not skipped |
| Pipeline.JobsMembership | 3-pipeline_morph_validate_sam.py:639-646 | a pair is run exactly when the year is from 2015 on or the scenario is the first |
| Pipeline.YearJobsNoDuplicates | 3-pipeline_morph_validate_sam.py:643-646 | distinct years give distinct jobs |
| Pipeline.JobsOfNoDuplicates | 3-pipeline_morph_validate_sam.py:639-646 | distinct scenarios and years give distinct jobs |
| Pipeline.JobsNoDuplicates | 3-pipeline_morph_validate_sam.py:639-646 | no pair is run twice |
| Pipeline.LogNameInjective | 3-pipeline_morph_validate_sam.py:658 | two four-digit jobs share a log name only when label and year agree |
| Pipeline.Failed | 3-pipeline_morph_validate_sam.py:670-677 | a failure records its message, no outputs, and the log `ERRO: <message>` |
| Pipeline.AfterMorph | 3-pipeline_morph_validate_sam.py:647-677 | the result carries the model, the label and the year, and the log is named after them |
| Pipeline.AttemptOf | 3-pipeline_morph_validate_sam.py:647-677 | one job's result carries the model, the label and the year, and the log is named after them |
| Pipeline.AttemptOfMorph | 3-pipeline_morph_validate_sam.py:648 | a job is what follows the morph it returned |
| Pipeline.AfterMorphOutcome | 3-pipeline_morph_validate_sam.py:647-677 | a result has no error exactly when morph, validation and simulation all succeed, and then carries the outputs; a failure's log is `ERRO: ` with its message, a success's log the JSON dump |
| Pipeline.AfterMorphWrites | 3-pipeline_morph_validate_sam.py:648-673 | the CSV is written exactly when the morph succeeds; a failed morph or validation records its own message |
| Pipeline.AttemptWritesOutputPath | 3-pipeline_morph_validate_sam.py:561-566 | a written CSV lands at the output path of the scenario and year |
| Pipeline.CleanMorphReachesSam | 3-pipeline_morph_validate_sam.py:650-656 | after a clean 8760-hour morph, the simulator alone decides success |
| Pipeline.ApplyResults | 3-pipeline_morph_validate_sam.py:656-672 | one result per job is appended, in order, after those already there |
| Pipeline.ApplyLogNames | 3-pipeline_morph_validate_sam.py:658-675 | the log directory gains exactly the jobs' log names |
| Pipeline.ApplyLogs | 3-pipeline_morph_validate_sam.py:658-677 | with distinct log names, every job's log holds that job's text |
| Pipeline.RunJobsSnoc | 3-pipeline_morph_validate_sam.py:643-678 | running one more job is one more step |
| Pipeline.RunYearJobsSnoc | 3-pipeline_morph_validate_sam.py:643-678 | one more year is a step, or nothing when the year is skipped |
| Pipeline.ApplyAppend | 3-pipeline_morph_validate_sam.py:639-678 | applying two runs of jobs is applying them in turn |
| Pipeline.RunJobsAppend | 3-pipeline_morph_validate_sam.py:639-678 | running two lists of jobs is running them in turn |
| Pipeline.RunJobsResults | 3-pipeline_morph_validate_sam.py:636-678 | the results hold one entry per job, in job order |
| Pipeline.RunJobsLogs | 3-pipeline_morph_validate_sam.py:658-677 | with distinct log names, no job's log is overwritten |
| Pipeline.JobsLogNamesDistinct | 3-pipeline_morph_validate_sam.py:645-658 | the historical skip keeps the jobs' log names distinct |
| Pipeline.ConfiguredRunKeepsEveryLog | 3-pipeline_morph_validate_sam.py:129-678 | with the configured scenarios and years, every job's log survives with its own text |
| Pipeline.Runner.constructor | 3-pipeline_morph_validate_sam.py:636 | no results yet; the log directory and CSVs as found |
| Pipeline.Runner.Fail | 3-pipeline_morph_validate_sam.py:670-677 | appends the failure result and writes its `ERRO` log |
| Pipeline.Runner.RunYear | 3-pipeline_morph_validate_sam.py:647-678 | one pass of the year loop's body is one step |
| Pipeline.Runner.Finish | 3-pipeline_morph_validate_sam.py:649-677 | the body after the morph is the step of its attempt |
| Pipeline.Runner.RunScenario | 3-pipeline_morph_validate_sam.py:643-678 | the year loop runs the scenario's jobs in order |
| Pipeline.Runner.RunAll | 3-pipeline_morph_validate_sam.py:632-681 | the nested loops run every job in order from an empty result list |
| Consolidate.BraceSpan | 4-consolida_sam_morph.py:34 | a found span starts with `{` and ends with `}` |
| Consolidate.BraceSpanSpec | 4-consolida_sam_morph.py:34 | a span exists exactly when a `{` precedes a `}`, and it runs from the first `{` to the last `}` |
| Consolidate.ErroAt | 4-consolida_sam_morph.py:41 | a captured message is non-empty, starts with non-space and has no line break |
| Consolidate.ErroFromLeftmost | 4-consolida_sam_morph.py:41 | the search reports the leftmost `ERRO:` match, or none when nothing matches |
| Consolidate.ParseLog | 4-consolida_sam_morph.py:19-45 | parsed logs have no message; unparsed ones have no data and a message |
| Consolidate.ParseLogOrder | 4-consolida_sam_morph.py:25-45 | the log is ok exactly when the text or its brace span parses as JSON (the text first); otherwise the stripped `ERRO:` message, else the fixed unknown-format message |
| Consolidate.StripErrorLog | 4-consolida_sam_morph.py:25 | stripping a failure log gives `ERRO: <message>` |
| Consolidate.ErrorLogRoundTrip | 4-consolida_sam_morph.py:19-45 | the log written for a failure parses back to not-ok with that message |
| Consolidate.MatchLabel | 4-consolida_sam_morph.py:64 | a match for one label is a four-digit year and the name is exactly `log_<label>_<year>.txt` |
| Consolidate.ParseLogName | 4-consolida_sam_morph.py:64-68 | a parsed name has one of the three labels and a four-digit year, and is exactly their log name |
| Consolidate.LogNameShape | 4-consolida_sam_morph.py:64-68 | every such name parses back to its label and year |
| Consolidate.LogNameRoundTrip | 4-consolida_sam_morph.py:64-68 | the log names the morph stage writes parse back to their label and year |
| Consolidate.CsvYear | 4-consolida_sam_morph.py:55-58 | a captured year is the four digits just before `_morph.csv` |
| Consolidate.GuessIsOutputPath | 4-consolida_sam_morph.py:94-96 | the rebuilt path is the path the morph stage writes to |
| Consolidate.CsvNameIndexed | 4-consolida_sam_morph.py:53-58 | every CSV the morph stage names passes the glob and yields its year |
| Consolidate.Find | 4-consolida_sam_morph.py:59 | the position of a key is its first occurrence, or none |
| Consolidate.Put | 4-consolida_sam_morph.py:59 | assignment keeps the length or appends the new entry |
| Consolidate.PutSpec | 4-consolida_sam_morph.py:59 | assignment keeps keys distinct, maps the key to the new value and leaves other keys alone |
| Consolidate.LastValue | 4-consolida_sam_morph.py:59 | a key has a last value exactly when some entry has that key |
| Consolidate.IndexLastWins | 4-consolida_sam_morph.py:48-59 | the index has distinct keys, and each key maps to its last entry's path |
| Consolidate.DirEntriesMembers | 4-consolida_sam_morph.py:53-59 | a subdirectory contributes exactly its globbed files with a year |
| Consolidate.EntriesMembers | 4-consolida_sam_morph.py:49-59 | the entries come exactly from the existing scenario subdirectories |
| Consolidate.CsvMapKeys | 4-consolida_sam_morph.py:48-59 | a key is indexed exactly when its subdirectory holds a globbed file with that year |
| Consolidate.IndexedHasFile | 4-consolida_sam_morph.py:48-59 | an indexed key has a file behind it |
| Consolidate.FileIsIndexed | 4-consolida_sam_morph.py:48-59 | every globbed file with a year is indexed |
| Consolidate.Cells | 4-consolida_sam_morph.py:135-137 | a row has the ten columns in the fixed order |
| Consolidate.UnindexedIsNotFound | 4-consolida_sam_morph.py:91-98 | an unindexed key gets the rebuilt path with " (NAO_ENCONTRADO)" |
| Consolidate.LogRowStatus | 4-consolida_sam_morph.py:62-111 | a row fails only for JSON that is truthy but not an object; otherwise it carries its key, log name and CSV path, is OK exactly when parsed with a falsy `erro`, takes the `erro` value as message, and for an unparsed log takes the parse message with NaN outputs |
| Consolidate.GlobLogs | 4-consolida_sam_morph.py:62 | exactly the listed names matching `log_*.txt` |
| Consolidate.SortedLogs | 4-consolida_sam_morph.py:62 | `sorted(glob("log_*.txt"))`: a permutation of the globbed logs, in ascending name order |
| Consolidate.RowLeTotalPreorder | 4-consolida_sam_morph.py:132 | the (ssp, ano) order is a total preorder |
| Consolidate.AssembleCovers | 4-consolida_sam_morph.py:113-132 | every log row and every indexed key is in the table |
| Consolidate.AssembleRows | 4-consolida_sam_morph.py:113-132 | every row is a log row or a SEM_LOG row for an indexed key with no log row |
| Consolidate.AssembleSorted | 4-consolida_sam_morph.py:113-132 | with distinct log keys, the rows are strictly ordered by (ssp, ano) |
| Consolidate.CollectErr | 4-consolida_sam_morph.py:62-111 | a pass fails exactly when some log's row fails |
| Consolidate.CollectSnoc | 4-consolida_sam_morph.py:62-111 | one more log adds its row, or nothing when skipped |
| Consolidate.CollectAt | 4-consolida_sam_morph.py:62-111 | one more matching log appends its row or ends the pass with its error |
| Consolidate.CollectSound | 4-consolida_sam_morph.py:62-111 | every row is some log's row |
| Consolidate.CollectComplete | 4-consolida_sam_morph.py:62-111 | every log with a row has it in the pass |
| Consolidate.CollectOrdered | 4-consolida_sam_morph.py:62-111 | rows follow their logs' order |
| Consolidate.LogRowsErr | 4-consolida_sam_morph.py:62-111 | the first pass fails exactly when some matching log's row fails |
| Consolidate.LogRowsSound | 4-consolida_sam_morph.py:62-111 | every row comes from a matching log and carries its name and parsed key |
| Consolidate.BuiltNamed | 4-consolida_sam_morph.py:62-108 | a log's row carries the log name and the key parsed from it |
| Consolidate.LogRowsComplete | 4-consolida_sam_morph.py:62-111 | every matching log has its row |
| Consolidate.LogRowsDistinct | 4-consolida_sam_morph.py:62-111 | logs with distinct names give rows with distinct keys |
| Consolidate.LogRowsOrdered | 4-consolida_sam_morph.py:62-111 | two rows of the pass come from different logs |
| Consolidate.LogRowsSkip | 4-consolida_sam_morph.py:64-66 | a non-matching log adds nothing |
| Consolidate.LogRowsAdd | 4-consolida_sam_morph.py:70-111 | a matching log appends its row or ends the pass with its error |
| Consolidate.SemLogRowsSpec | 4-consolida_sam_morph.py:113-129 | each SEM_LOG row has an empty log name, a key with no earlier row, and its indexed path; afterwards every indexed key has a row; distinct keys stay distinct |
| Consolidate.SemLogRowsSnoc | 4-consolida_sam_morph.py:115-129 | one more indexed key adds a row exactly when no row has it yet |
| Consolidate.MatchesIsGlob | 4-consolida_sam_morph.py:62-64 | every name the first pass uses passes the glob |
| Consolidate.SortedLogsSome | 4-consolida_sam_morph.py:62 | sorting the globbed logs loses and adds no log |
| Consolidate.ConsolidatedOfPass | 4-consolida_sam_morph.py:62-137 | the table is the first pass's failure, the empty-table failure when the two passes give no row, or their rows sorted |
| Consolidate.ConsolidatedFails | 4-consolida_sam_morph.py:62-132 | the script fails exactly when some listed matching log's row fails, or when no listed log matches and no CSV is indexed (the empty table has no `ssp` column to sort by) |
| Consolidate.PassFails | 4-consolida_sam_morph.py:62-111 | the first pass over the listed logs fails exactly when some listed matching log's row fails |
| Consolidate.LogRowsErrorKind | 4-consolida_sam_morph.py:77-80 | the only way the first pass fails is a log whose JSON is not an object |
| Consolidate.ConsolidatedEmpty | 4-consolida_sam_morph.py:131-132 | sorting stops on the empty table exactly when no listed log matches and no CSV is indexed |
| Consolidate.SemLogRowsNonEmpty | 4-consolida_sam_morph.py:113-131 | a non-empty CSV index always puts at least one row in the table |
| Consolidate.ConsolidatedCovers | 4-consolida_sam_morph.py:62-132 | every indexed key and every listed matching log's row appears |
| Consolidate.LogRowInFirstPass | 4-consolida_sam_morph.py:62-111 | a listed matching log has its row in the first pass |
| Consolidate.ConsolidatedRows | 4-consolida_sam_morph.py:62-132 | every row is a listed log's row, or a SEM_LOG row with its indexed path for a key no listed log names |
| Consolidate.FirstPassRowIsListed | 4-consolida_sam_morph.py:62-111 | a first-pass row is a listed log's row |
| Consolidate.NoLogRowNoLog | 4-consolida_sam_morph.py:113-117 | a key without a first-pass row is named by no listed log |
| Consolidate.ConsolidatedSorted | 4-consolida_sam_morph.py:131-132 | with distinct file names, the table is strictly ordered by (ssp, ano), so no key appears twice |
| Consolidate.Consolidator.constructor | 4-consolida_sam_morph.py:17-48 | empty index and rows |
| Consolidate.Consolidator.IndexCsvs | 4-consolida_sam_morph.py:48-59 | the loops build `csv_map` |
| Consolidate.Consolidator.IndexSubs | 4-consolida_sam_morph.py:49-59 | the subdirectory loop indexes each subdirectory's entries |
| Consolidate.Consolidator.IndexDir | 4-consolida_sam_morph.py:53-59 | the file loop puts each globbed file with a year |
| Consolidate.Consolidator.ReadLogs | 4-consolida_sam_morph.py:62-111 | the log loop appends the first pass's rows, or stops with its error |
| Consolidate.Consolidator.ReadSorted | 4-consolida_sam_morph.py:62-111 | the loop over sorted logs appends each matching log's row in order |
| Consolidate.Consolidator.HasRow | 4-consolida_sam_morph.py:117 | `any(...)`: true exactly when some row has the key |
| Consolidate.Consolidator.AddMissing | 4-consolida_sam_morph.py:115-129 | the second pass appends the SEM_LOG rows |
| Consolidate.Consolidator.Run | 4-consolida_sam_morph.py:14-137 | the script computes the consolidated table, or the first pass's failure, or the empty-table failure |
| Analysis.SafePct | 5-analisar_sam_results.py:33-37 | NaN when the baseline is missing, non-finite or 0; otherwise r·b = 100·(a−b), NaN exactly for NaN a |
| Analysis.SafePctOf | 5-analisar_sam_results.py:37 | a finite value against a finite nonzero baseline gives a finite percentage with r·b = 100·(a−b) |
| Analysis.SafePctRoundTrip | 5-analisar_sam_results.py:37 | applying the percentage back to the baseline recovers the value |
| Analysis.DecadeStart | 5-analisar_sam_results.py:193 | the decade start is a multiple of 10 within 10 years below y |
| Analysis.DecadeOf | 5-analisar_sam_results.py:192-194 | the label ends in `s` and its digits parse to the decade start |
| Analysis.DecadeOfSame | 5-analisar_sam_results.py:192-194 | two years share a label exactly when y//10 agrees |
| Analysis.KeyAt | 5-analisar_sam_results.py:83 | a found key is at its position; none means absent |
| Analysis.ColMapSpec | 5-analisar_sam_results.py:83 | the dict has distinct lowercase names, each with the last column spelling it, every column's name, in order of first appearance |
| Analysis.ColMapStep | 5-analisar_sam_results.py:83 | one more column keeps that description |
| Analysis.PickFrom | 5-analisar_sam_results.py:85-87 | the first wanted entry in dict order |
| Analysis.PickSpec | 5-analisar_sam_results.py:84-88 | `_pick` fails exactly when no column's lowercase name is wanted; otherwise it returns the last column with the lowercase name that appeared first among wanted ones |
| Analysis.DictGetSpec | 5-analisar_sam_results.py:97-98 | absent exactly when no column has that lowercase name; otherwise the last such column |
| Analysis.ErrorColumnSpec | 5-analisar_sam_results.py:95-99 | none exactly when no column is erro/error/msg_erro; otherwise the first candidate present |
| Analysis.WithoutErrorsSpec | 5-analisar_sam_results.py:110-115 | without an error column nothing changes; with one, exactly the error-free rows remain |
| Analysis.HistoricalTest | 5-analisar_sam_results.py:124-131 | the category text contains "historical" exactly for the historical scenario |
| Analysis.Filter | 5-analisar_sam_results.py:131-135 | exactly the rows of 1994–2014 (and historical when asked) |
| Analysis.BaseRefSpec | 5-analisar_sam_results.py:131-135 | the baseline rows are the historical 1994–2014 rows when any exist, else all 1994–2014 rows |
| Analysis.Present | 5-analisar_sam_results.py:139-140 | the non-NaN values |
| Analysis.MeanSkipNaNSpec | 5-analisar_sam_results.py:137-143 | the group mean skips NaN: NaN for an all-NaN group; otherwise, when the non-NaN values are finite, their arithmetic mean (and so, for a finite group, the mean of all its values) |
| Analysis.MeanOfFinite | 5-analisar_sam_results.py:137-143 | a non-empty finite group's mean is its arithmetic mean |
| Analysis.CategoryAt | 5-analisar_sam_results.py:137-140 | the positions of one category's rows: ascending, each such a row, and every such row included |
| Analysis.MwhOf | 5-analisar_sam_results.py:137-140 | the energy values of one category's rows: one per row of the category, in row order, the i-th value being the i-th such row's; none when no row has the category |
| Analysis.BaselineSpec | 5-analisar_sam_results.py:137-146 | a row's `baseline_mwh` is NaN without a category or when its category's baseline rows are all NaN; otherwise, with no infinite value, it is the arithmetic mean of the non-NaN energy values of the baseline rows of its category, and exactly those values are averaged |
| Analysis.PresentMwh | 5-analisar_sam_results.py:137-140 | the non-NaN values of a category are exactly the non-NaN energy values of its rows |
| Analysis.FutureDeltaIsNaN | 5-analisar_sam_results.py:137-149 | as written, when historical baseline rows exist, every other scenario's delta is NaN |
| Analysis.IntendedDeltaIsFinite | 5-analisar_sam_results.py:137-149 | with the historical baseline for every scenario (the mean `BaselineSpec` characterises), a finite value gets its finite percentage change |
| Analysis.PresentAt | 5-analisar_sam_results.py:47 | the positions of the present values: ascending, each present, and every present position included |
| Analysis.Points | 5-analisar_sam_results.py:47 | `dropna`: as many years as values, no more than the input, and exactly the present values occur |
| Analysis.PointsAt | 5-analisar_sam_results.py:47 | point i is the i-th present value paired with its own year, so `dropna` keeps order and multiplicity |
| Analysis.SqDev | 5-analisar_sam_results.py:59 | a sum of squared deviations is non-negative |
| Analysis.SqRes | 5-analisar_sam_results.py:58 | a sum of squared residuals is non-negative |
| Analysis.SqDevZero | 5-analisar_sam_results.py:59-60 | no deviation exactly when every value is the centre |
| Analysis.SqTotZeroIffConstant | 5-analisar_sam_results.py:59-60 | the total sum of squares is 0 exactly for a constant series |
| Analysis.TrendTooFew | 5-analisar_sam_results.py:47-49 | fewer than three present points give (NaN, NaN) |
| Analysis.TrendR2 | 5-analisar_sam_results.py:53-60 | R² is NaN exactly for a constant series, and otherwise finite and at most 1 |
| Analysis.TrendSlope | 5-analisar_sam_results.py:62-66 | the slope is NaN exactly when the mean is 0, and otherwise the fitted slope per decade in percent of the mean |

## Left out

- The ERA5 download script, netCDF/xarray I/O (`ensure_nc`, `open_any`, `normalize_dims`, nearest-grid selection, spatial means), zip/gzip unpacking, `np.sqrt(u²+v²)`: library behaviour. The loaders are abstract finders that return daily `(month, value)` samples, or the normaliser's `(timestamp, value)` samples.
- The simulator (`run_sam_from_csv`, `df_to_solar_resource`): an oracle from a path and table to outputs or an error message.
- `json.loads` and `json.dumps`, the text of exceptions (`str(e)`), and the `KeyError` message of `_pick`: oracles or a plain error value.
- `_load_rsds_tas_from_planilha` beyond its failure. Line 365 of 3-pipeline_morph_validate_sam.py names `c` outside any loop, so the function fails before returning. `Climatology.HistClimsOutcome` states the fallback as that failure.
- NaN daily values: `Climatology.Daily` holds a plain `real`, so a CMIP6 file's daily series holds no NaN. pandas' monthly mean skips NaN days, and a month whose every day is NaN gives a NaN mean rather than a missing month; neither case is represented.
- `np.nanpercentile`: the 95th percentile of GHI is a parameter of `Morph.ReadBase`.
- `np.polyfit`: the fit is a parameter of `Analysis.LinearTrend`. Infinities in the trend input are not modelled (values are `real` or missing).
- `_rolling`, coverage statistics, decadal means, the `trend_rows` loop and the plots of 5-analisar_sam_results.py: pandas aggregation and output with no property of their own beyond what is modelled.
- `quick_check`, printing, tqdm, matplotlib, directory creation and CSV writing: output only. A written CSV is modelled by the table the validator reads back.
- `ensure_datetime` parsing: a line's DateTime is either a valid parsed instant or missing. Time zones are not modelled.
- pandas type coercion (`to_numeric(errors="coerce")`, `astype(Int64)`): the cells are already typed values, NaN for an unparsable number.
- Case-insensitive file matching on Windows: globs are matched case-sensitively. The normaliser's pattern is the one place the source asks for case-insensitivity (`re.IGNORECASE`), and it is honoured for the whole literal part of that pattern (`era5land_` and `.nc`, ASCII letters only). Digits in the file-name pattern and in parsed numbers are ASCII only; Python's `\d` and `int()` also accept other Unicode decimal digits. Directory paths are relative names, not absolute Windows paths.
- Sorting.SortBy on file names (2-gera_csvs_sam_number0.py:29, 4-consolida_sam_morph.py:62): names are ordered by code point. On Windows, `sorted()` orders `WindowsPath` objects case-insensitively, so names differing in case may come out in another order. Hourly means do not depend on file order; only which failing log is reported first can differ.
- Sorting.SortBy: stands for Python's and pandas' sorts by a stable insertion sort. Python's `sorted` is stable too; pandas' default `sort_values` is not, so where pandas leaves the order of equal keys open the model fixes it to the input order.
- Text.Lower: ASCII lower-casing only; Unicode case mapping is not modelled.
- Normaliser.Run: `xr.concat(...).sortby("time")` is modelled as concatenation, since the per-hour means do not depend on sample order.
- Pipeline.Runner.RunAll: the results CSV and the plot written after the loops are not modelled; the method states the results list, the logs and the CSVs.

## Findings

| source | as written | input that shows it | evidently intended | confidence | as-written member | corrected member |
|---|---|---|---|---|---|---|
| 5-analisar_sam_results.py:131-149 | The baseline is grouped by `ssp` over the historical 1994–2014 rows and merged on `ssp`. When historical rows exist, every ssp245/ssp585 row gets a NaN baseline, so its `delta_mwh_pct` and `delta_cf_pct` are NaN | a historical row (1994, 100 MWh) and an ssp245 row (2030, 110 MWh): the ssp245 delta is NaN, not 10% | future scenarios are compared with the historical 1994–2014 baseline (line 129: the baseline exists to compare historical with the futures) | medium, not executed | Analysis.FutureDeltaIsNaN | Analysis.IntendedDeltaIsFinite |
| 3-pipeline_morph_validate_sam.py:543-548 | The DNI fraction is `dni/ghi` after `ghi` has already been multiplied by k_rsds, so the morphed DNI is the reference DNI again and only DHI absorbs the change | a reference hour GHI 500, DNI 300 in a month with k_rsds 1.1: the morphed DNI stays just under 300, not 330 | DNI and DHI keep the profile's DNI/GHI fraction (the module docstring, line 53) | medium, not executed | Morph.BrighterMonthKeepsDni | Morph.IntendedSplitKeepsFraction |
