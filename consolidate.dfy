/** The consolidator of the morph stage's results. It indexes the morphed
    CSVs by (scenario, year), reads every log `log_<label>_<year>.txt` into
    a row with status OK or ERRO, completes the table with a SEM_LOG row
    for every indexed CSV that has no log, and sorts by (scenario, year).
    Decoding JSON is an oracle that yields the decoded value or nothing;
    the file system is the log directory's listing with contents and the
    listing of each CSV subdirectory. */
module Consolidate {
  import opened Wrappers
  import opened Text
  import opened Sorting
  import opened Climatology
  import Morph
  import Pipeline

  // ---------------------------------------------------------------
  // Values
  // ---------------------------------------------------------------

  /** A value as `json.loads` returns it, plus pandas' missing number. */
  datatype Value = Null | Bool(b: bool) | Num(x: real) | Str(s: string)
                 | Arr(items: seq<Value>) | Obj(fields: map<string, Value>) | NaN

  /** Python's truth value. */
  predicate Truthy(v: Value)
  {
    match v
    case Null => false
    case Bool(b) => b
    case Num(x) => x != 0.0
    case Str(s) => s != []
    case Arr(xs) => xs != []
    case Obj(m) => |m| > 0
    case NaN => true
  }

  /** `d.get(k, default)`. */
  function Get(d: map<string, Value>, k: string, default: Value): (v: Value)
    ensures k in d ==> v == d[k]
    ensures k !in d ==> v == default
  {
    if k in d then d[k] else default
  }

  // ---------------------------------------------------------------
  // Reading one log (`parse_log_file`)
  // ---------------------------------------------------------------

  const UNKNOWN_FORMAT := "Formato de log não reconhecido."

  /** What `parse_log_file` returns: whether a JSON value was found, the
      value (None otherwise) and the message (None on success). */
  datatype Parsed = Parsed(ok: bool, data: Value, msg: Value)

  function FirstIndex(s: string, c: char): (r: Option<nat>)
    ensures r.Some? ==> r.value < |s| && s[r.value] == c && forall k :: 0 <= k < r.value ==> s[k] != c
    ensures r.None? ==> forall k :: 0 <= k < |s| ==> s[k] != c
  {
    if s == [] then None
    else if s[0] == c then Some(0)
    else match FirstIndex(s[1..], c)
      case None => None
      case Some(i) => Some(i + 1)
  }

  function LastIndex(s: string, c: char): (r: Option<nat>)
    ensures r.Some? ==> r.value < |s| && s[r.value] == c && forall k :: r.value < k < |s| ==> s[k] != c
    ensures r.None? ==> forall k :: 0 <= k < |s| ==> s[k] != c
  {
    if s == [] then None
    else if s[|s| - 1] == c then Some(|s| - 1)
    else LastIndex(s[..|s| - 1], c)
  }

  /** `re.search(r"\{.*\}", txt, re.DOTALL)`: from the first `{` to the
      last `}`, when a `}` follows that `{`. */
  function BraceSpan(txt: string): (r: Option<string>)
    ensures r.Some? ==> |r.value| >= 2 && r.value[0] == '{' && r.value[|r.value| - 1] == '}'
  {
    var i := FirstIndex(txt, '{');
    var j := LastIndex(txt, '}');
    if i.Some? && j.Some? && i.value < j.value then Some(txt[i.value..j.value + 1]) else None
  }

  /** A brace span exists exactly when some `{` has a `}` after it, and
      then it runs from the first `{` to the last `}`. */
  lemma BraceSpanSpec(txt: string)
    ensures BraceSpan(txt).Some? <==> exists i, j :: 0 <= i < j < |txt| && txt[i] == '{' && txt[j] == '}'
    ensures BraceSpan(txt).Some? ==>
      exists i, j :: 0 <= i < j < |txt| && txt[i] == '{' && txt[j] == '}' && BraceSpan(txt).value == txt[i..j + 1]
        && (forall k :: 0 <= k < i ==> txt[k] != '{') && (forall k :: j < k < |txt| ==> txt[k] != '}')
  {
    var i := FirstIndex(txt, '{');
    var j := LastIndex(txt, '}');
    if exists a, b :: 0 <= a < b < |txt| && txt[a] == '{' && txt[b] == '}' {
      var a, b :| 0 <= a < b < |txt| && txt[a] == '{' && txt[b] == '}';
      assert i.Some? && i.value <= a;
      assert j.Some? && b <= j.value;
    }
  }

  /** The number of whitespace characters of `s` from position `p`. */
  function SpaceRun(s: string, p: nat): (n: nat)
    requires p <= |s|
    ensures p + n <= |s|
    ensures forall k :: p <= k < p + n ==> IsSpace(s[k])
    ensures p + n < |s| ==> !IsSpace(s[p + n])
    decreases |s| - p
  {
    if p == |s| || !IsSpace(s[p]) then 0 else 1 + SpaceRun(s, p + 1)
  }

  /** The first line break of `s` from position `q`, or its end. */
  function LineEnd(s: string, q: nat): (e: nat)
    requires q <= |s|
    ensures q <= e <= |s|
    ensures forall k :: q <= k < e ==> s[k] != '\n'
    ensures e < |s| ==> s[e] == '\n'
    decreases |s| - q
  {
    if q == |s| || s[q] == '\n' then q else LineEnd(s, q + 1)
  }

  /** `ERRO:\s*(.+)` tried at position `k` of a stripped text: the
      whitespace after the tag, then the rest of that line. */
  function ErroAt(s: string, k: nat): (r: Option<string>)
    requires Stripped(s) && k + 5 <= |s|
    ensures r.Some? ==> r.value != [] && !IsSpace(r.value[0]) && forall c :: c in r.value ==> c != '\n'
  {
    var q := k + 5 + SpaceRun(s, k + 5);
    if q < |s| then Some(s[q..LineEnd(s, q)]) else None
  }

  /** `re.search(r"ERRO:\s*(.+)", txt)` on a stripped text, from position
      `k`: the group of the leftmost match. */
  function ErroFrom(s: string, k: nat): (r: Option<string>)
    requires Stripped(s)
    decreases |s| - k
  {
    if k + 5 > |s| then None
    else if MatchAt(s, k) then ErroAt(s, k)
    else ErroFrom(s, k + 1)
  }

  /** The pattern matches at position `p`. */
  predicate MatchAt(s: string, p: nat)
    requires Stripped(s)
  {
    p + 5 <= |s| && s[p..p + 5] == "ERRO:" && ErroAt(s, p).Some?
  }

  /** `parse_log_file` on the text of a log: the whole stripped text as
      JSON, else its brace span as JSON, else the first `ERRO:` line, else
      an unknown format. */
  function ParseLog(raw: string, json: string -> Option<Value>): (p: Parsed)
    ensures p.ok ==> p.msg == Null
    ensures !p.ok ==> p.data == Null && p.msg.Str?
  {
    var txt := Strip(raw);
    if json(txt).Some? then Parsed(true, json(txt).value, Null)
    else if BraceSpan(txt).Some? && json(BraceSpan(txt).value).Some? then
      Parsed(true, json(BraceSpan(txt).value).value, Null)
    else if ErroFrom(txt, 0).Some? then Parsed(false, Null, Str(Strip(ErroFrom(txt, 0).value)))
    else Parsed(false, Null, Str(UNKNOWN_FORMAT))
  }

  /** The attempts in their order: a log is read as JSON exactly when its
      stripped text or its brace span decodes, the whole text taking
      precedence; otherwise its message is the first `ERRO:` line's, and
      only when there is none is the format unknown. */
  lemma ParseLogOrder(raw: string, json: string -> Option<Value>)
    ensures var txt := Strip(raw); var p := ParseLog(raw, json);
      && (p.ok <==> json(txt).Some? || (BraceSpan(txt).Some? && json(BraceSpan(txt).value).Some?))
      && (json(txt).Some? ==> p.data == json(txt).value)
      && (!p.ok && ErroFrom(txt, 0).Some? ==> p.msg == Str(Strip(ErroFrom(txt, 0).value)))
      && (p.msg == Str(UNKNOWN_FORMAT) <== !p.ok && ErroFrom(txt, 0).None?)
  {
  }

  lemma StripErrorLog(msg: string)
    requires msg != [] && Stripped(msg)
    ensures Strip(Pipeline.ErrorLog(msg)) == "ERRO: " + msg
  {
    var s := Pipeline.ErrorLog(msg);
    assert s == "ERRO: " + msg + "\n";
    assert LeadingSpace(s) == 0;
    var rest := s[0..];
    assert rest == s;
    assert !IsSpace(s[|s| - 2]);
    assert TrailingSpace(s[..|s| - 1]) == 0;
    assert TrailingSpace(s) == 1;
    assert s[0..|s| - 1] == "ERRO: " + msg;
  }

  /** The stripped text of a failure log has no brace when its message has none. */
  lemma ErrorTextNoBrace(msg: string)
    requires '{' !in msg
    ensures BraceSpan("ERRO: " + msg).None?
  {
    var txt := "ERRO: " + msg;
    forall k | 0 <= k < |txt| ensures txt[k] != '{' {
      if k >= 6 { assert txt[k] == msg[k - 6]; }
    }
  }

  /** The `ERRO:` search on the stripped text of a failure log finds the
      message, when it is one stripped line. */
  lemma ErrorTextErro(msg: string)
    requires msg != [] && Stripped(msg) && '\n' !in msg
    ensures Stripped("ERRO: " + msg)
    ensures ErroFrom("ERRO: " + msg, 0) == Some(msg)
  {
    var txt := "ERRO: " + msg;
    assert txt[..5] == "ERRO:";
    assert SpaceRun(txt, 5) == 1 by {
      assert txt[6] == msg[0];
    }
    assert LineEnd(txt, 6) == |txt| by {
      forall k | 6 <= k < |txt| ensures txt[k] != '\n' {
        assert txt[k] == msg[k - 6];
      }
      LineEndNoBreak(txt, 6);
    }
    assert Stripped(txt);
    assert txt[6..|txt|] == msg;
    assert ErroAt(txt, 0) == Some(msg);
  }

  /** A failure log written by the morph stage reads back as a failure
      with the message that was written, when the message is one stripped
      line without braces that JSON does not accept. */
  lemma ErrorLogRoundTrip(msg: string, json: string -> Option<Value>)
    requires msg != [] && Stripped(msg) && '\n' !in msg && '{' !in msg
    requires json("ERRO: " + msg) == None
    ensures ParseLog(Pipeline.ErrorLog(msg), json) == Parsed(false, Null, Str(msg))
  {
    StripErrorLog(msg);
    ErrorTextNoBrace(msg);
    ErrorTextErro(msg);
    StrippedIsFixed(msg);
  }

  lemma {:induction false} LineEndNoBreak(s: string, q: nat)
    requires q <= |s|
    requires forall k :: q <= k < |s| ==> s[k] != '\n'
    ensures LineEnd(s, q) == |s|
    decreases |s| - q
  {
    if q < |s| {
      LineEndNoBreak(s, q + 1);
    }
  }

  lemma StrippedIsFixed(s: string)
    requires Stripped(s)
    ensures Strip(s) == s
  {
    if s != [] {
      assert LeadingSpace(s) == 0;
      assert s[0..] == s;
      assert TrailingSpace(s) == 0;
    }
  }

  /** The leftmost match: the group comes from the first `ERRO:` at or
      after `k` that has a non-blank character after it. */
  lemma {:induction false} ErroFromLeftmost(s: string, k: nat)
    requires Stripped(s)
    ensures ErroFrom(s, k).Some? ==>
      exists p :: k <= p && MatchAt(s, p) && ErroAt(s, p) == ErroFrom(s, k)
                  && forall p' :: k <= p' < p ==> !MatchAt(s, p')
    ensures ErroFrom(s, k).None? ==> forall p :: k <= p ==> !MatchAt(s, p)
    decreases |s| - k
  {
    if k + 5 > |s| {
      assert ErroFrom(s, k).None?;
    } else if MatchAt(s, k) {
      assert ErroFrom(s, k) == ErroAt(s, k);
    } else {
      assert ErroFrom(s, k) == ErroFrom(s, k + 1);
      ErroFromLeftmost(s, k + 1);
      if ErroFrom(s, k).Some? {
        var p :| k + 1 <= p && MatchAt(s, p) && ErroAt(s, p) == ErroFrom(s, k + 1)
                 && forall p' :: k + 1 <= p' < p ==> !MatchAt(s, p');
        assert forall p' :: k <= p' < p ==> !MatchAt(s, p');
      }
    }
  }

  // ---------------------------------------------------------------
  // Log and CSV names
  // ---------------------------------------------------------------

  /** The labels the log-name pattern accepts, which are also the CSV
      subdirectories. */
  const LABELS: seq<string> := ["historical", "ssp245", "ssp585"]

  /** `log_<label>_<dddd>.txt` for one label. */
  function MatchLabel(name: string, lbl: string): (r: Option<int>)
    ensures r.Some? ==> 0 <= r.value < 10000 && name == "log_" + lbl + "_" + Pad4(r.value) + ".txt"
  {
    var n := |lbl|;
    if |name| == n + 13 && name[..4] == "log_" && name[4..4 + n] == lbl && name[4 + n] == '_'
       && AllDigits(name[5 + n..9 + n]) && name[9 + n..] == ".txt"
    then
      var y := ParseDigits(name[5 + n..9 + n]);
      Pad4OfParse(name[5 + n..9 + n]);
      assert name == name[..4] + name[4..4 + n] + [name[4 + n]] + name[5 + n..9 + n] + name[9 + n..];
      Some(y)
    else None
  }

  /** `re.match(r"log_(historical|ssp245|ssp585)_(\d{4})\.txt$", name)`:
      the label and the year. */
  function ParseLogName(name: string): (r: Option<(string, int)>)
    ensures r.Some? ==> r.value.0 in LABELS && 0 <= r.value.1 < 10000
                        && name == "log_" + r.value.0 + "_" + Pad4(r.value.1) + ".txt"
  {
    if MatchLabel(name, LABELS[0]).Some? then Some((LABELS[0], MatchLabel(name, LABELS[0]).value))
    else if MatchLabel(name, LABELS[1]).Some? then Some((LABELS[1], MatchLabel(name, LABELS[1]).value))
    else if MatchLabel(name, LABELS[2]).Some? then Some((LABELS[2], MatchLabel(name, LABELS[2]).value))
    else None
  }

  lemma MatchLabelOfName(lbl: string, y: int)
    requires 0 <= y < 10000
    ensures MatchLabel("log_" + lbl + "_" + Pad4(y) + ".txt", lbl) == Some(y)
  {
    var name := "log_" + lbl + "_" + Pad4(y) + ".txt";
    var n := |lbl|;
    assert name[..4] == "log_";
    assert name[4..4 + n] == lbl;
    assert name[5 + n..9 + n] == Pad4(y);
    assert name[9 + n..] == ".txt";
    Pad4RoundTrip(y);
  }

  lemma MatchLabelOther(lbl: string, other: string, y: int)
    requires 0 <= y < 10000 && |lbl| == |other| && lbl != other
    ensures MatchLabel("log_" + other + "_" + Pad4(y) + ".txt", lbl).None?
  {
    var name := "log_" + other + "_" + Pad4(y) + ".txt";
    assert name[4..4 + |other|] == other;
  }

  lemma MatchLabelLength(lbl: string, other: string, y: int)
    requires 0 <= y < 10000 && |lbl| != |other|
    ensures MatchLabel("log_" + other + "_" + Pad4(y) + ".txt", lbl).None?
  {
  }

  /** A name is accepted exactly when it is `log_<label>_<dddd>.txt` for
      one of the three labels, and then the label and the year are read
      back. */
  lemma LogNameShape(lbl: string, y: int)
    requires lbl in LABELS && 0 <= y < 10000
    ensures ParseLogName("log_" + lbl + "_" + Pad4(y) + ".txt") == Some((lbl, y))
  {
    MatchLabelOfName(lbl, y);
    if lbl == LABELS[1] {
      MatchLabelLength(LABELS[0], lbl, y);
    } else if lbl == LABELS[2] {
      MatchLabelLength(LABELS[0], lbl, y);
      MatchLabelOther(LABELS[1], lbl, y);
    }
  }

  /** The consolidator reads back the label and the year of every log the
      morph stage writes for a four-digit year. */
  lemma LogNameRoundTrip(ssp: string, year: int)
    requires Pipeline.Label(ssp, year) in LABELS && 1000 <= year < 10000
    ensures ParseLogName(Pipeline.LogName(ssp, year)) == Some((Pipeline.Label(ssp, year), year))
  {
    Pad4Equals(year);
    assert IntToString(year) == Pad4(year);
    LogNameShape(Pipeline.Label(ssp, year), year);
  }

  /** `glob("SAM_*_<sub>_*_morph.csv")` on one name (case-sensitively). */
  predicate CsvGlob(name: string, sub: string)
  {
    var mid := "_" + sub + "_";
    && |name| >= 4 + |mid| + 10
    && name[..4] == "SAM_" && name[|name| - 10..] == "_morph.csv"
    && exists i :: 4 <= i <= |name| - 10 - |mid| && Occurs(name, i, mid)
  }

  predicate Occurs(s: string, i: int, part: string)
  {
    0 <= i && i + |part| <= |s| && s[i..i + |part|] == part
  }

  /** `re.search(r"_(\d{4})_morph\.csv$", name)`: the year before the
      suffix. */
  function CsvYear(name: string): (r: Option<int>)
    ensures r.Some? ==> 0 <= r.value < 10000 && |name| >= 15
                        && name[|name| - 15..] == "_" + Pad4(r.value) + "_morph.csv"
  {
    var n := |name|;
    if n >= 15 && name[n - 15] == '_' && AllDigits(name[n - 14..n - 10]) && name[n - 10..] == "_morph.csv" then
      Pad4OfParse(name[n - 14..n - 10]);
      assert name[n - 15..] == [name[n - 15]] + name[n - 14..n - 10] + name[n - 10..];
      Some(ParseDigits(name[n - 14..n - 10]))
    else None
  }

  /** The file name the morph stage writes for a scenario label and a
      year, and the path the consolidator guesses for it. */
  function CsvName(sub: string, year: int): string
  {
    "SAM_" + MODEL + "_" + sub + "_" + IntToString(year) + "_morph.csv"
  }

  function GuessPath(sub: string, year: int): string
  {
    sub + "/" + CsvName(sub, year)
  }

  /** The guessed path is the path the morph stage writes to. */
  lemma GuessIsOutputPath(ssp: string, year: int)
    ensures GuessPath(Pipeline.Label(ssp, year), year) == Morph.OutputPath(ssp, year)
  {
    assert Pipeline.Label(ssp, year) == Morph.OutputSubdir(ssp, year);
  }

  /** A name spelt like the morph stage's, with any year text, passes the
      glob of its subdirectory. */
  lemma CsvGlobOf(sub: string, y: string)
    ensures CsvGlob("SAM_" + MODEL + "_" + sub + "_" + y + "_morph.csv", sub)
  {
    var name := "SAM_" + MODEL + "_" + sub + "_" + y + "_morph.csv";
    var mid := "_" + sub + "_";
    assert name == "SAM_" + MODEL + mid + y + "_morph.csv";
    assert Occurs(name, 4 + |MODEL|, mid);
  }

  /** A name ending in `_<dddd>_morph.csv` yields the year those four
      digits spell. */
  lemma CsvYearOf(prefix: string, y: string)
    requires |y| == 4 && AllDigits(y)
    ensures CsvYear(prefix + "_" + y + "_morph.csv") == Some(ParseDigits(y))
  {
    var name := prefix + "_" + y + "_morph.csv";
    var n := |name|;
    assert name[n - 15] == '_' && name[n - 14..n - 10] == y && name[n - 10..] == "_morph.csv";
  }

  /** The morph stage's file name passes the glob of its subdirectory and
      yields its year when the year has four digits. */
  lemma CsvNameIndexed(sub: string, year: int)
    requires 1000 <= year < 10000
    ensures CsvGlob(CsvName(sub, year), sub)
    ensures CsvYear(CsvName(sub, year)) == Some(year)
  {
    Pad4Equals(year);
    var y := Pad4(year);
    assert IntToString(year) == y;
    CsvGlobOf(sub, y);
    CsvYearOf("SAM_" + MODEL + "_" + sub, y);
    assert CsvName(sub, year) == "SAM_" + MODEL + "_" + sub + "_" + y + "_morph.csv";
    Pad4RoundTrip(year);
  }

  // ---------------------------------------------------------------
  // The CSV index (`csv_map`)
  // ---------------------------------------------------------------

  datatype Key = Key(ssp: string, ano: int)

  /** A Python dict from keys to paths: entries in insertion order. */
  type Dict = seq<(Key, string)>

  predicate DistinctKeys(d: Dict)
  {
    forall i, j :: 0 <= i < j < |d| ==> d[i].0 != d[j].0
  }

  function Find(d: Dict, k: Key): (r: Option<nat>)
    ensures r.Some? ==> r.value < |d| && d[r.value].0 == k && forall i :: 0 <= i < r.value ==> d[i].0 != k
    ensures r.None? ==> forall i :: 0 <= i < |d| ==> d[i].0 != k
  {
    if d == [] then None
    else if d[0].0 == k then Some(0)
    else match Find(d[1..], k)
      case None => None
      case Some(i) => Some(i + 1)
  }

  /** `d.get(k)`. */
  function Lookup(d: Dict, k: Key): Option<string>
  {
    match Find(d, k)
    case None => None
    case Some(i) => Some(d[i].1)
  }

  /** `d[k] = v`: a new key goes last, an existing key keeps its place
      and takes the new value. */
  function Put(d: Dict, k: Key, v: string): (r: Dict)
    ensures |r| == |d| || r == d + [(k, v)]
  {
    match Find(d, k)
    case Some(i) => d[i := (k, v)]
    case None => d + [(k, v)]
  }

  /** Putting keeps the keys distinct, maps the key to the new value and
      leaves every other key alone. */
  lemma PutSpec(d: Dict, k: Key, v: string)
    requires DistinctKeys(d)
    ensures DistinctKeys(Put(d, k, v))
    ensures Lookup(Put(d, k, v), k) == Some(v)
    ensures forall k' :: k' != k ==> Lookup(Put(d, k, v), k') == Lookup(d, k')
  {
    var r := Put(d, k, v);
    match Find(d, k) {
      case Some(i) =>
        assert r == d[i := (k, v)];
        FindAt(r, i);
      case None =>
        assert r == d + [(k, v)];
        FindAt(r, |d|);
    }
    forall k' | k' != k ensures Lookup(r, k') == Lookup(d, k') {
      match Find(d, k') {
        case Some(j) =>
          assert r[j] == d[j];
          FindAt(r, j);
        case None =>
          assert forall i :: 0 <= i < |r| ==> r[i].0 != k' by {
            forall i | 0 <= i < |r| ensures r[i].0 != k' {
              if i < |d| && r[i] == d[i] {
              }
            }
          }
      }
    }
  }

  /** In a dict with distinct keys, the entry at `i` is the one found for
      its key. */
  lemma FindAt(d: Dict, i: nat)
    requires DistinctKeys(d) && i < |d|
    ensures Find(d, d[i].0) == Some(i)
  {
  }

  /** The value of the last entry with key `k`. */
  function LastValue(es: seq<(Key, string)>, k: Key): (r: Option<string>)
    ensures r.Some? <==> exists i :: 0 <= i < |es| && es[i].0 == k
  {
    if es == [] then None
    else if es[|es| - 1].0 == k then Some(es[|es| - 1].1)
    else
      var r := LastValue(es[..|es| - 1], k);
      assert forall i :: 0 <= i < |es| - 1 ==> es[..|es| - 1][i] == es[i];
      r
  }

  /** The dict built by putting the entries in order. */
  function Index(es: seq<(Key, string)>): Dict
  {
    if es == [] then [] else Put(Index(es[..|es| - 1]), es[|es| - 1].0, es[|es| - 1].1)
  }

  /** A later entry with the same key overwrites an earlier one: the dict
      maps every key to the value of its last entry, and has no other key
      and no key twice. */
  lemma {:induction false} IndexLastWins(es: seq<(Key, string)>)
    ensures DistinctKeys(Index(es))
    ensures forall k :: Lookup(Index(es), k) == LastValue(es, k)
  {
    if es != [] {
      var init := es[..|es| - 1];
      IndexLastWins(init);
      PutSpec(Index(init), es[|es| - 1].0, es[|es| - 1].1);
    }
  }

  /** The entries one subdirectory's loop visits: names that pass the
      glob and carry a year, with their paths. */
  function DirEntries(sub: string, names: seq<string>): seq<(Key, string)>
  {
    if names == [] then []
    else
      var n := names[|names| - 1];
      DirEntries(sub, names[..|names| - 1])
        + (if CsvGlob(n, sub) && CsvYear(n).Some? then [(Key(sub, CsvYear(n).value), sub + "/" + n)] else [])
  }

  /** The entries of the subdirectory loop, subdirectory by subdirectory;
      a missing subdirectory is skipped. */
  function Entries(dirs: map<string, seq<string>>, subs: seq<string>): seq<(Key, string)>
  {
    if subs == [] then []
    else
      var sub := subs[|subs| - 1];
      Entries(dirs, subs[..|subs| - 1]) + (if sub in dirs then DirEntries(sub, dirs[sub]) else [])
  }

  /** One subdirectory contributes an entry for each of its files that
      passes the glob and carries a year, and nothing else. */
  lemma {:induction false} DirEntriesMembers(sub: string, names: seq<string>)
    ensures forall e :: e in DirEntries(sub, names) <==>
      exists n :: n in names && CsvGlob(n, sub) && CsvYear(n).Some? && e == (Key(sub, CsvYear(n).value), sub + "/" + n)
  {
    if names != [] {
      var n := names[|names| - 1];
      assert names == names[..|names| - 1] + [n];
      DirEntriesMembers(sub, names[..|names| - 1]);
    }
  }

  /** The entries of all subdirectories are those of each listed and
      existing subdirectory. */
  lemma {:induction false} EntriesMembers(dirs: map<string, seq<string>>, subs: seq<string>)
    ensures forall e :: e in Entries(dirs, subs) <==>
      e.0.ssp in subs && e.0.ssp in dirs && e in DirEntries(e.0.ssp, dirs[e.0.ssp])
  {
    if subs != [] {
      var sub := subs[|subs| - 1];
      assert subs == subs[..|subs| - 1] + [sub];
      EntriesMembers(dirs, subs[..|subs| - 1]);
      forall e | sub in dirs && e in DirEntries(sub, dirs[sub]) ensures e.0.ssp == sub {
        DirEntriesMembers(sub, dirs[sub]);
      }
    }
  }

  /** `csv_map`. */
  function CsvMap(dirs: map<string, seq<string>>): Dict
  {
    Index(Entries(dirs, LABELS))
  }

  /** A (subdirectory, year) key is indexed exactly when that subdirectory
      holds a file that passes the glob and carries that year. */
  lemma CsvMapKeys(dirs: map<string, seq<string>>, k: Key)
    ensures Lookup(CsvMap(dirs), k).Some? <==>
      && k.ssp in LABELS && k.ssp in dirs
      && exists n :: n in dirs[k.ssp] && CsvGlob(n, k.ssp) && CsvYear(n) == Some(k.ano)
  {
    var es := Entries(dirs, LABELS);
    IndexLastWins(es);
    if Lookup(CsvMap(dirs), k).Some? {
      IndexedHasFile(dirs, k);
    }
    if k.ssp in LABELS && k.ssp in dirs && exists n :: n in dirs[k.ssp] && CsvGlob(n, k.ssp) && CsvYear(n) == Some(k.ano) {
      var n :| n in dirs[k.ssp] && CsvGlob(n, k.ssp) && CsvYear(n) == Some(k.ano);
      FileIsIndexed(dirs, k, n);
    }
  }

  lemma IndexedHasFile(dirs: map<string, seq<string>>, k: Key)
    requires LastValue(Entries(dirs, LABELS), k).Some?
    ensures k.ssp in LABELS && k.ssp in dirs
    ensures exists n :: n in dirs[k.ssp] && CsvGlob(n, k.ssp) && CsvYear(n) == Some(k.ano)
  {
    var es := Entries(dirs, LABELS);
    EntriesMembers(dirs, LABELS);
    DirEntriesMembers(k.ssp, dirs[k.ssp]);
    var i :| 0 <= i < |es| && es[i].0 == k;
    assert es[i] in es;
    assert es[i] in DirEntries(k.ssp, dirs[k.ssp]);
  }

  lemma FileIsIndexed(dirs: map<string, seq<string>>, k: Key, n: string)
    requires k.ssp in LABELS && k.ssp in dirs
    requires n in dirs[k.ssp] && CsvGlob(n, k.ssp) && CsvYear(n) == Some(k.ano)
    ensures LastValue(Entries(dirs, LABELS), k).Some?
  {
    var es := Entries(dirs, LABELS);
    EntriesMembers(dirs, LABELS);
    DirEntriesMembers(k.ssp, dirs[k.ssp]);
    var e := (k, k.ssp + "/" + n);
    assert e in DirEntries(k.ssp, dirs[k.ssp]);
    assert e in es;
    var i :| 0 <= i < |es| && es[i] == e;
    assert es[i].0 == k;
  }

  // ---------------------------------------------------------------
  // Rows
  // ---------------------------------------------------------------

  /** The ten columns, in the order of the output table. */
  const COLUMNS: seq<string> := ["modelo", "ssp", "ano", "annual_mwh", "capacity_factor", "tempo_s",
                                 "caminho_csv", "log_arquivo", "log_status", "log_msg"]

  datatype Row = Row(modelo: Value, ssp: string, ano: int, annualMwh: Value, capacityFactor: Value,
                     tempoS: Value, caminhoCsv: string, logArquivo: string, logStatus: string, logMsg: Value)

  /** A row as the output table holds it: column name and value, in the
      column order. */
  function Cells(r: Row): (cs: seq<(string, Value)>)
    ensures |cs| == |COLUMNS| && forall i :: 0 <= i < |cs| ==> cs[i].0 == COLUMNS[i]
  {
    [("modelo", r.modelo), ("ssp", Str(r.ssp)), ("ano", Num(r.ano as real)), ("annual_mwh", r.annualMwh),
     ("capacity_factor", r.capacityFactor), ("tempo_s", r.tempoS), ("caminho_csv", Str(r.caminhoCsv)),
     ("log_arquivo", Str(r.logArquivo)), ("log_status", Str(r.logStatus)), ("log_msg", r.logMsg)]
  }

  function KeyOf(r: Row): Key { Key(r.ssp, r.ano) }

  /** A log file: its name in the log directory and its text. */
  datatype LogFile = LogFile(name: string, text: string)

  /** `d.get` on a value that is not a dict fails the whole run; so does
      sorting a table with no row, which has no `ssp` column. */
  datatype ConsolidateError = NotAnObject(log: string) | EmptyTable

  /** Whether the file `name` exists in subdirectory `sub`. */
  predicate Exists(dirs: map<string, seq<string>>, sub: string, name: string)
  {
    sub in dirs && name in dirs[sub]
  }

  const NOT_FOUND := " (NAO_ENCONTRADO)"

  /** The `caminho_csv` of a log row: the indexed path, else the path the
      naming pattern gives, marked when that file does not exist. */
  function CsvPath(csvMap: Dict, dirs: map<string, seq<string>>, ssp: string, ano: int): string
  {
    match Lookup(csvMap, Key(ssp, ano))
    case Some(p) => p
    case None =>
      if Exists(dirs, ssp, CsvName(ssp, ano)) then GuessPath(ssp, ano) else GuessPath(ssp, ano) + NOT_FOUND
  }

  /** An unindexed key with a four-digit year is always marked not found:
      the file the naming pattern gives would have been indexed. */
  lemma UnindexedIsNotFound(dirs: map<string, seq<string>>, ssp: string, ano: int)
    requires ssp in LABELS && 1000 <= ano < 10000
    requires Lookup(CsvMap(dirs), Key(ssp, ano)).None?
    ensures CsvPath(CsvMap(dirs), dirs, ssp, ano) == GuessPath(ssp, ano) + NOT_FOUND
  {
    CsvMapKeys(dirs, Key(ssp, ano));
    CsvNameIndexed(ssp, ano);
  }

  /** The row of one log whose name gave `ssp` and `ano`. */
  function LogRow(f: LogFile, ssp: string, ano: int, csvMap: Dict, dirs: map<string, seq<string>>,
                  json: string -> Option<Value>): Result<Row, ConsolidateError>
  {
    var p := ParseLog(f.text, json);
    var path := CsvPath(csvMap, dirs, ssp, ano);
    if p.ok && Truthy(p.data) then
      if !p.data.Obj? then Err(NotAnObject(f.name))
      else
        var d := p.data.fields;
        var erro := Get(d, "erro", Null);
        Ok(Row(Get(d, "modelo", Str(MODEL)), ssp, ano, Get(d, "annual_mwh", NaN), Get(d, "capacity_factor", NaN),
               Get(d, "tempo_s", NaN), path, f.name,
               if Truthy(erro) then "ERRO" else "OK", if Truthy(erro) then erro else p.msg))
    else
      Ok(Row(Str(MODEL), ssp, ano, NaN, NaN, NaN, path, f.name, if p.ok then "OK" else "ERRO", p.msg))
  }

  /** A log row is OK exactly when the log decoded and its `erro` is
      falsy (or the decoded value is falsy); a truthy `erro` becomes the
      message of an ERRO row, and a failure keeps the message the log
      gave. The row fails only on a truthy decoded value that is not an
      object. */
  lemma LogRowStatus(f: LogFile, ssp: string, ano: int, csvMap: Dict, dirs: map<string, seq<string>>,
                     json: string -> Option<Value>)
    ensures var p := ParseLog(f.text, json); var r := LogRow(f, ssp, ano, csvMap, dirs, json);
      && (r.Err? <==> p.ok && Truthy(p.data) && !p.data.Obj?)
      && (r.Ok? ==>
            && KeyOf(r.value) == Key(ssp, ano) && r.value.logArquivo == f.name
            && r.value.caminhoCsv == CsvPath(csvMap, dirs, ssp, ano)
            && (r.value.logStatus == "OK" <==>
                  p.ok && !(Truthy(p.data) && Truthy(Get(p.data.fields, "erro", Null))))
            && (r.value.logStatus == "OK" || r.value.logStatus == "ERRO")
            && (p.ok && Truthy(p.data) && Truthy(Get(p.data.fields, "erro", Null)) ==>
                  r.value.logMsg == p.data.fields["erro"])
            && (!p.ok ==> r.value.logMsg == p.msg && r.value.annualMwh == NaN))
  {
  }

  /** `glob("log_*.txt")` on one name. */
  predicate LogGlob(name: string)
  {
    |name| >= 8 && name[..4] == "log_" && name[|name| - 4..] == ".txt"
  }

  function GlobLogs(listing: seq<LogFile>): (fs: seq<LogFile>)
    ensures forall f :: f in fs <==> f in listing && LogGlob(f.name)
    ensures multiset(fs) <= multiset(listing)
  {
    if listing == [] then []
    else
      var f := listing[|listing| - 1];
      assert listing == listing[..|listing| - 1] + [f];
      GlobLogs(listing[..|listing| - 1]) + (if LogGlob(f.name) then [f] else [])
  }

  predicate NameLe(a: LogFile, b: LogFile) { StrLe(a.name, b.name) }

  lemma NameLeTotalPreorder()
    ensures TotalPreorder(NameLe)
  {
    StrLeTotalPreorder();
    assert forall a: LogFile, b: LogFile :: NameLe(a, b) == StrLeFn(a.name, b.name);
  }

  /** `sorted(p_logs.glob("log_*.txt"))`. */
  function SortedLogs(listing: seq<LogFile>): (fs: seq<LogFile>)
    ensures multiset(fs) == multiset(GlobLogs(listing))
    ensures SortedBy(fs, NameLe)
  {
    NameLeTotalPreorder();
    SortBy(GlobLogs(listing), NameLe)
  }

  /** What one log gives the first pass: nothing, its row, or the
      failure that stops the run. */
  type Step = LogFile -> Option<Result<Row, ConsolidateError>>

  /** The first pass's step: a log whose name does not match is skipped,
      any other gives its row. */
  function StepOf(csvMap: Dict, dirs: map<string, seq<string>>, json: string -> Option<Value>): Step
  {
    f => if Matches(f) then Some(Built(f, csvMap, dirs, json)) else None
  }

  /** A pass over the logs in order, keeping the row of every log the
      step gives one for; the first failure stops it. */
  function Collect(fs: seq<LogFile>, step: Step): Result<seq<Row>, ConsolidateError>
  {
    if fs == [] then Ok([])
    else
      var prev :- Collect(fs[..|fs| - 1], step);
      match step(fs[|fs| - 1])
      case None => Ok(prev)
      case Some(row) =>
        var x :- row;
        Ok(prev + [x])
  }

  /** The first pass: one row per log whose name matches, in order; the
      first log that fails stops the run. */
  function LogRows(fs: seq<LogFile>, csvMap: Dict, dirs: map<string, seq<string>>,
                   json: string -> Option<Value>): Result<seq<Row>, ConsolidateError>
  {
    Collect(fs, StepOf(csvMap, dirs, json))
  }

  /** The log's name is one the first pass uses. */
  predicate Matches(f: LogFile) { ParseLogName(f.name).Some? }

  /** The row of a log whose name matches. */
  function Built(f: LogFile, csvMap: Dict, dirs: map<string, seq<string>>,
                 json: string -> Option<Value>): Result<Row, ConsolidateError>
    requires Matches(f)
  {
    LogRow(f, ParseLogName(f.name).value.0, ParseLogName(f.name).value.1, csvMap, dirs, json)
  }

  predicate HasKey(rows: seq<Row>, k: Key)
  {
    exists i :: 0 <= i < |rows| && KeyOf(rows[i]) == k
  }

  function SemLogRow(k: Key, path: string): Row
  {
    Row(Str(MODEL), k.ssp, k.ano, NaN, NaN, NaN, path, "", "SEM_LOG", Str("Sem log correspondente."))
  }

  /** The second pass over the dict, in its order: a SEM_LOG row for every
      key no row has yet. `rows` are the rows of the first pass. */
  function SemLogRows(d: Dict, rows: seq<Row>): seq<Row>
  {
    if d == [] then []
    else
      var added := SemLogRows(d[..|d| - 1], rows);
      var e := d[|d| - 1];
      if HasKey(rows + added, e.0) then added else added + [SemLogRow(e.0, e.1)]
  }

  // ---------------------------------------------------------------
  // The two passes and the final sort
  // ---------------------------------------------------------------

  /** Output order: by scenario label, then by year. */
  predicate RowLe(a: Row, b: Row)
  {
    StrLess(a.ssp, b.ssp) || (a.ssp == b.ssp && a.ano <= b.ano)
  }

  predicate KeyLess(a: Key, b: Key)
  {
    StrLess(a.ssp, b.ssp) || (a.ssp == b.ssp && a.ano < b.ano)
  }

  lemma RowLeTotalPreorder()
    ensures TotalPreorder(RowLe)
  {
    forall a: Row, b: Row ensures RowLe(a, b) || RowLe(b, a) { StrLessTotal(a.ssp, b.ssp); }
    forall a: Row, b: Row, c: Row | RowLe(a, b) && RowLe(b, c) ensures RowLe(a, c) {
      if a.ssp != b.ssp && b.ssp != c.ssp { StrLessTransitive(a.ssp, b.ssp, c.ssp); }
    }
  }

  /** The whole consolidation: the CSV index, the rows of the logs in
      name order, the SEM_LOG rows, sorted by (ssp, ano); a table with no
      row at all cannot be sorted by its missing columns. */
  function Consolidated(listing: seq<LogFile>, dirs: map<string, seq<string>>,
                        json: string -> Option<Value>): Result<seq<Row>, ConsolidateError>
  {
    var csvMap := CsvMap(dirs);
    var logRows :- LogRows(SortedLogs(listing), csvMap, dirs, json);
    if logRows + SemLogRows(csvMap, logRows) == [] then Err(EmptyTable)
    else Ok(Assemble(csvMap, logRows))
  }

  /** The rows of the first pass with those of the second, sorted. */
  function Assemble(csvMap: Dict, logRows: seq<Row>): seq<Row>
  {
    RowLeTotalPreorder();
    SortBy(logRows + SemLogRows(csvMap, logRows), RowLe)
  }

  /** The table holds every row of the first pass and a row for every
      key of the dict. */
  lemma AssembleCovers(csvMap: Dict, logRows: seq<Row>)
    ensures forall r :: r in logRows ==> r in Assemble(csvMap, logRows)
    ensures forall j :: 0 <= j < |csvMap| ==> HasKey(Assemble(csvMap, logRows), csvMap[j].0)
  {
    var all := logRows + SemLogRows(csvMap, logRows);
    var out := Assemble(csvMap, logRows);
    RowLeTotalPreorder();
    SortedElements(all, RowLe);
    SemLogRowsSpec(csvMap, logRows);
    forall j | 0 <= j < |csvMap| ensures HasKey(out, csvMap[j].0) {
      var i :| 0 <= i < |all| && KeyOf(all[i]) == csvMap[j].0;
      assert all[i] in out;
      var i' :| 0 <= i' < |out| && out[i'] == all[i];
    }
  }

  /** Every row of the table is a row of the first pass, or a SEM_LOG row
      for a dict entry whose key the first pass has no row for. */
  lemma AssembleRows(csvMap: Dict, logRows: seq<Row>)
    ensures forall r :: r in Assemble(csvMap, logRows) ==>
      || r in logRows
      || (&& r.logStatus == "SEM_LOG" && !HasKey(logRows, KeyOf(r))
          && exists j :: 0 <= j < |csvMap| && csvMap[j] == (KeyOf(r), r.caminhoCsv))
  {
    var added := SemLogRows(csvMap, logRows);
    var all := logRows + added;
    RowLeTotalPreorder();
    SortedElements(all, RowLe);
    SemLogRowsSpec(csvMap, logRows);
    forall r | r in Assemble(csvMap, logRows) && r !in logRows
      ensures && r.logStatus == "SEM_LOG" && !HasKey(logRows, KeyOf(r))
              && exists j :: 0 <= j < |csvMap| && csvMap[j] == (KeyOf(r), r.caminhoCsv)
    {
      var i :| 0 <= i < |all| && all[i] == r;
      assert added[i - |logRows|] == r;
    }
  }

  /** Distinct keys in the first pass give distinct keys, strictly
      ordered, in the table. */
  lemma AssembleSorted(csvMap: Dict, logRows: seq<Row>)
    requires DistinctRowKeys(logRows)
    ensures var out := Assemble(csvMap, logRows);
      forall i, j :: 0 <= i < j < |out| ==> KeyLess(KeyOf(out[i]), KeyOf(out[j]))
  {
    var all := logRows + SemLogRows(csvMap, logRows);
    var out := Assemble(csvMap, logRows);
    SemLogRowsSpec(csvMap, logRows);
    RowLeTotalPreorder();
    DistinctRowKeysPerm(all, out);
    forall i, j | 0 <= i < j < |out| ensures KeyLess(KeyOf(out[i]), KeyOf(out[j])) {
      assert RowLe(out[i], out[j]);
    }
  }

  predicate DistinctRowKeys(rows: seq<Row>)
  {
    forall i, j :: 0 <= i < j < |rows| ==> KeyOf(rows[i]) != KeyOf(rows[j])
  }

  predicate DistinctNames(fs: seq<LogFile>)
  {
    forall i, j :: 0 <= i < j < |fs| ==> fs[i].name != fs[j].name
  }

  predicate Fails(o: Option<Result<Row, ConsolidateError>>)
  {
    o.Some? && o.value.Err?
  }

  /** A pass fails exactly when the step fails on some log. */
  lemma {:induction false} CollectErr(fs: seq<LogFile>, step: Step)
    ensures Collect(fs, step).Err? <==> exists j :: 0 <= j < |fs| && Fails(step(fs[j]))
  {
    if fs != [] {
      var init := fs[..|fs| - 1];
      CollectErr(init, step);
      assert forall j :: 0 <= j < |init| ==> init[j] == fs[j];
      if Collect(init, step).Ok? && !Fails(step(fs[|fs| - 1])) {
        assert Collect(fs, step).Ok?;
      }
    }
  }

  /** One step of a pass that has not failed: the previous pass has not
      failed either, and the last log adds its row or nothing. */
  lemma CollectSnoc(fs: seq<LogFile>, step: Step)
    requires fs != [] && Collect(fs, step).Ok?
    ensures var prev := Collect(fs[..|fs| - 1], step);
            var o := step(fs[|fs| - 1]);
      && prev.Ok?
      && (o.Some? ==> o.value.Ok? && Collect(fs, step).value == prev.value + [o.value.value])
      && (o.None? ==> Collect(fs, step).value == prev.value)
  {
  }

  /** A log that gives a row or a failure, after a prefix that succeeded:
      the row is appended, or the failure is the prefix's result. */
  lemma CollectAt(fs: seq<LogFile>, i: nat, step: Step)
    requires i < |fs| && Collect(fs[..i], step).Ok? && step(fs[i]).Some?
    ensures step(fs[i]).value.Ok? ==>
      Collect(fs[..i + 1], step) == Ok(Collect(fs[..i], step).value + [step(fs[i]).value.value])
    ensures step(fs[i]).value.Err? ==> Collect(fs[..i + 1], step) == Err(step(fs[i]).value.error)
  {
    assert fs[..i + 1][..i] == fs[..i] && fs[..i + 1][i] == fs[i];
  }

  /** Every row of a pass is the row the step gives some log. */
  lemma {:induction false} CollectSound(fs: seq<LogFile>, step: Step)
    requires Collect(fs, step).Ok?
    ensures var rows := Collect(fs, step).value;
      forall i :: 0 <= i < |rows| ==> exists j :: 0 <= j < |fs| && step(fs[j]) == Some(Ok(rows[i]))
  {
    if fs != [] {
      var init := fs[..|fs| - 1];
      var rows := Collect(fs, step).value;
      var prev := Collect(init, step).value;
      CollectSnoc(fs, step);
      CollectSound(init, step);
      forall i | 0 <= i < |rows| ensures exists j :: 0 <= j < |fs| && step(fs[j]) == Some(Ok(rows[i])) {
        if i < |prev| {
          var j :| 0 <= j < |init| && step(init[j]) == Some(Ok(prev[i]));
          assert init[j] == fs[j] && rows[i] == prev[i];
        } else {
          assert step(fs[|fs| - 1]) == Some(Ok(rows[i]));
        }
      }
    }
  }

  /** Every log the step gives a row for has that row in the pass. */
  lemma {:induction false} CollectComplete(fs: seq<LogFile>, step: Step)
    requires Collect(fs, step).Ok?
    ensures var rows := Collect(fs, step).value;
      forall j :: 0 <= j < |fs| && step(fs[j]).Some? ==>
        exists i :: 0 <= i < |rows| && step(fs[j]) == Some(Ok(rows[i]))
  {
    if fs != [] {
      var init := fs[..|fs| - 1];
      var rows := Collect(fs, step).value;
      var prev := Collect(init, step).value;
      CollectSnoc(fs, step);
      CollectComplete(init, step);
      forall j | 0 <= j < |fs| && step(fs[j]).Some?
        ensures exists i :: 0 <= i < |rows| && step(fs[j]) == Some(Ok(rows[i]))
      {
        if j < |init| {
          assert init[j] == fs[j];
          var i :| 0 <= i < |prev| && step(init[j]) == Some(Ok(prev[i]));
          assert rows[i] == prev[i];
        } else {
          assert step(fs[j]) == Some(Ok(rows[|rows| - 1]));
        }
      }
    }
  }

  /** Two rows of a pass come, in their order, from two logs in listing
      order. */
  lemma {:induction false} CollectOrdered(fs: seq<LogFile>, step: Step, i: nat, i': nat)
    requires Collect(fs, step).Ok? && i < i' < |Collect(fs, step).value|
    ensures var rows := Collect(fs, step).value;
      exists j, j' :: 0 <= j < j' < |fs| && step(fs[j]) == Some(Ok(rows[i])) && step(fs[j']) == Some(Ok(rows[i']))
  {
    var init := fs[..|fs| - 1];
    var rows := Collect(fs, step).value;
    var prev := Collect(init, step).value;
    CollectSnoc(fs, step);
    assert rows[i] == prev[i];
    if i' < |prev| {
      assert rows[i'] == prev[i'];
      CollectOrdered(init, step, i, i');
      var j, j' :| 0 <= j < j' < |init| && step(init[j]) == Some(Ok(prev[i])) && step(init[j']) == Some(Ok(prev[i']));
      assert init[j] == fs[j] && init[j'] == fs[j'];
    } else {
      CollectSound(init, step);
      var j :| 0 <= j < |init| && step(init[j]) == Some(Ok(prev[i]));
      assert init[j] == fs[j];
      assert step(fs[|fs| - 1]) == Some(Ok(rows[i']));
    }
  }

  /** The first pass fails exactly when some matching log's row fails. */
  lemma LogRowsErr(fs: seq<LogFile>, csvMap: Dict, dirs: map<string, seq<string>>,
                   json: string -> Option<Value>)
    ensures LogRows(fs, csvMap, dirs, json).Err? <==>
      exists j :: 0 <= j < |fs| && Matches(fs[j]) && Built(fs[j], csvMap, dirs, json).Err?
  {
    var step := StepOf(csvMap, dirs, json);
    CollectErr(fs, step);
    assert forall j :: 0 <= j < |fs| ==>
      (Fails(step(fs[j])) <==> Matches(fs[j]) && Built(fs[j], csvMap, dirs, json).Err?);
  }

  /** Every row of the first pass is the row of one matching log, keyed
      by that log's name. */
  lemma LogRowsSound(fs: seq<LogFile>, csvMap: Dict, dirs: map<string, seq<string>>,
                     json: string -> Option<Value>)
    requires LogRows(fs, csvMap, dirs, json).Ok?
    ensures var rows := LogRows(fs, csvMap, dirs, json).value;
      forall i :: 0 <= i < |rows| ==>
        && ParseLogName(rows[i].logArquivo) == Some((rows[i].ssp, rows[i].ano))
        && exists j :: 0 <= j < |fs| && Matches(fs[j]) && fs[j].name == rows[i].logArquivo
                       && Built(fs[j], csvMap, dirs, json) == Ok(rows[i])
  {
    var step := StepOf(csvMap, dirs, json);
    var rows := LogRows(fs, csvMap, dirs, json).value;
    CollectSound(fs, step);
    forall i | 0 <= i < |rows|
      ensures && ParseLogName(rows[i].logArquivo) == Some((rows[i].ssp, rows[i].ano))
              && exists j :: 0 <= j < |fs| && Matches(fs[j]) && fs[j].name == rows[i].logArquivo
                             && Built(fs[j], csvMap, dirs, json) == Ok(rows[i])
    {
      var j :| 0 <= j < |fs| && step(fs[j]) == Some(Ok(rows[i]));
      BuiltNamed(fs[j], csvMap, dirs, json, rows[i]);
    }
  }

  /** A log's row carries the log's name and the key parsed from it. */
  lemma BuiltNamed(f: LogFile, csvMap: Dict, dirs: map<string, seq<string>>,
                   json: string -> Option<Value>, r: Row)
    requires Matches(f) && Built(f, csvMap, dirs, json) == Ok(r)
    ensures r.logArquivo == f.name && ParseLogName(f.name) == Some((r.ssp, r.ano))
  {
    var key := ParseLogName(f.name).value;
    LogRowStatus(f, key.0, key.1, csvMap, dirs, json);
  }

  /** Every matching log has its row in the first pass. */
  lemma LogRowsComplete(fs: seq<LogFile>, csvMap: Dict, dirs: map<string, seq<string>>,
                        json: string -> Option<Value>)
    requires LogRows(fs, csvMap, dirs, json).Ok?
    ensures var rows := LogRows(fs, csvMap, dirs, json).value;
      forall j :: 0 <= j < |fs| && Matches(fs[j]) ==>
        exists i :: 0 <= i < |rows| && Built(fs[j], csvMap, dirs, json) == Ok(rows[i])
  {
    var step := StepOf(csvMap, dirs, json);
    var rows := LogRows(fs, csvMap, dirs, json).value;
    CollectComplete(fs, step);
    forall j | 0 <= j < |fs| && Matches(fs[j])
      ensures exists i :: 0 <= i < |rows| && Built(fs[j], csvMap, dirs, json) == Ok(rows[i])
    {
      assert step(fs[j]).Some?;
    }
  }

  /** Logs with distinct names give rows with distinct keys. */
  lemma LogRowsDistinct(fs: seq<LogFile>, csvMap: Dict, dirs: map<string, seq<string>>,
                        json: string -> Option<Value>)
    requires DistinctNames(fs) && LogRows(fs, csvMap, dirs, json).Ok?
    ensures DistinctRowKeys(LogRows(fs, csvMap, dirs, json).value)
  {
    var rows := LogRows(fs, csvMap, dirs, json).value;
    LogRowsSound(fs, csvMap, dirs, json);
    forall i, i' | 0 <= i < i' < |rows| ensures KeyOf(rows[i]) != KeyOf(rows[i']) {
      LogRowsOrdered(fs, csvMap, dirs, json, i, i');
    }
  }

  /** Rows of the first pass come from logs in listing order, so with
      distinct names they name distinct logs. */
  lemma LogRowsOrdered(fs: seq<LogFile>, csvMap: Dict, dirs: map<string, seq<string>>,
                       json: string -> Option<Value>, i: nat, i': nat)
    requires DistinctNames(fs) && LogRows(fs, csvMap, dirs, json).Ok?
    requires i < i' < |LogRows(fs, csvMap, dirs, json).value|
    ensures LogRows(fs, csvMap, dirs, json).value[i].logArquivo != LogRows(fs, csvMap, dirs, json).value[i'].logArquivo
  {
    var step := StepOf(csvMap, dirs, json);
    var rows := LogRows(fs, csvMap, dirs, json).value;
    CollectOrdered(fs, step, i, i');
    var j, j' :| 0 <= j < j' < |fs| && step(fs[j]) == Some(Ok(rows[i])) && step(fs[j']) == Some(Ok(rows[i']));
    BuiltNamed(fs[j], csvMap, dirs, json, rows[i]);
    BuiltNamed(fs[j'], csvMap, dirs, json, rows[i']);
  }

  /** The second pass adds a SEM_LOG row only for a dict entry whose key
      no row has, with the entry's path; afterwards every key of the dict
      has a row, and keys that were distinct stay distinct. */
  lemma SemLogRowsSpec(d: Dict, rows: seq<Row>)
    ensures var added := SemLogRows(d, rows);
      && (forall i :: 0 <= i < |added| ==>
            && added[i].logStatus == "SEM_LOG" && added[i].logArquivo == ""
            && !HasKey(rows, KeyOf(added[i]))
            && exists j :: 0 <= j < |d| && d[j] == (KeyOf(added[i]), added[i].caminhoCsv))
      && (forall j :: 0 <= j < |d| ==> HasKey(rows + added, d[j].0))
      && (DistinctRowKeys(rows) ==> DistinctRowKeys(rows + added))
  {
    var added := SemLogRows(d, rows);
    forall i | 0 <= i < |added|
      ensures && added[i].logStatus == "SEM_LOG" && added[i].logArquivo == ""
              && !HasKey(rows, KeyOf(added[i]))
              && exists j :: 0 <= j < |d| && d[j] == (KeyOf(added[i]), added[i].caminhoCsv)
    {
      SemLogRowAt(d, rows, i);
    }
    SemLogRowsCover(d, rows);
    SemLogRowsDistinct(d, rows);
  }

  /** One SEM_LOG row: an empty log name, a key no first-pass row has,
      and the path the dict gives that key. */
  lemma {:induction false} SemLogRowAt(d: Dict, rows: seq<Row>, i: nat)
    requires i < |SemLogRows(d, rows)|
    ensures var r := SemLogRows(d, rows)[i];
      && r.logStatus == "SEM_LOG" && r.logArquivo == ""
      && !HasKey(rows, KeyOf(r))
      && exists j :: 0 <= j < |d| && d[j] == (KeyOf(r), r.caminhoCsv)
  {
    var init := d[..|d| - 1];
    var e := d[|d| - 1];
    var prev := SemLogRows(init, rows);
    if i < |prev| {
      SemLogRowAt(init, rows, i);
      var j :| 0 <= j < |init| && init[j] == (KeyOf(prev[i]), prev[i].caminhoCsv);
      assert d[j] == init[j];
    } else {
      HasKeyPrefix(rows, prev, e.0);
    }
  }

  lemma {:induction false} SemLogRowsCover(d: Dict, rows: seq<Row>)
    ensures forall j :: 0 <= j < |d| ==> HasKey(rows + SemLogRows(d, rows), d[j].0)
  {
    if d != [] {
      var init := d[..|d| - 1];
      var e := d[|d| - 1];
      var prev := SemLogRows(init, rows);
      SemLogRowsCover(init, rows);
      assert forall j :: 0 <= j < |init| ==> init[j] == d[j];
      if !HasKey(rows + prev, e.0) {
        var added := prev + [SemLogRow(e.0, e.1)];
        assert rows + added == (rows + prev) + [SemLogRow(e.0, e.1)];
        forall j | 0 <= j < |d| ensures HasKey(rows + added, d[j].0) {
          HasKeyPrefix(rows + prev, [SemLogRow(e.0, e.1)], d[j].0);
          if j == |d| - 1 {
            assert KeyOf((rows + added)[|rows + added| - 1]) == e.0;
          }
        }
      }
    }
  }

  lemma {:induction false} SemLogRowsDistinct(d: Dict, rows: seq<Row>)
    ensures DistinctRowKeys(rows) ==> DistinctRowKeys(rows + SemLogRows(d, rows))
  {
    if d != [] {
      var init := d[..|d| - 1];
      var e := d[|d| - 1];
      var prev := SemLogRows(init, rows);
      SemLogRowsDistinct(init, rows);
      if DistinctRowKeys(rows) && !HasKey(rows + prev, e.0) {
        var all := rows + prev;
        var r := SemLogRow(e.0, e.1);
        assert rows + SemLogRows(d, rows) == all + [r];
        forall i, j | 0 <= i < j < |all + [r]| ensures KeyOf((all + [r])[i]) != KeyOf((all + [r])[j]) {
          if j == |all| {
            assert (all + [r])[i] == all[i];
          } else {
            assert (all + [r])[i] == all[i] && (all + [r])[j] == all[j];
          }
        }
      }
    }
  }

  lemma HasKeyPrefix(rows: seq<Row>, more: seq<Row>, k: Key)
    ensures HasKey(rows, k) ==> HasKey(rows + more, k)
  {
    if HasKey(rows, k) {
      var i :| 0 <= i < |rows| && KeyOf(rows[i]) == k;
      assert (rows + more)[i] == rows[i];
    }
  }

  /** Names that are distinct in a listing stay distinct in any part of
      it, in any order. */
  lemma DistinctNamesSub(s: seq<LogFile>, t: seq<LogFile>)
    requires DistinctNames(s) && multiset(t) <= multiset(s)
    ensures DistinctNames(t)
  {
    forall i, j | 0 <= i < j < |t| ensures t[i].name != t[j].name {
      TwoPositions(s, t, i, j);
    }
  }

  /** Two positions of a part of `s` come from two positions of `s`. */
  lemma TwoPositions<T>(s: seq<T>, t: seq<T>, i: nat, j: nat)
    requires multiset(t) <= multiset(s) && i < j < |t|
    ensures exists p, q :: 0 <= p < |s| && 0 <= q < |s| && p != q && s[p] == t[i] && s[q] == t[j]
  {
    if t[i] == t[j] {
      TwiceCounts(t, i, j);
      TwiceAt(s, t[i]);
    } else {
      assert t[i] in multiset(s) && t[j] in multiset(s);
      var p :| 0 <= p < |s| && s[p] == t[i];
      var q :| 0 <= q < |s| && s[q] == t[j];
    }
  }

  lemma TwiceCounts<T>(t: seq<T>, i: nat, j: nat)
    requires i < j < |t| && t[i] == t[j]
    ensures multiset(t)[t[i]] >= 2
  {
    assert t == t[..j] + [t[j]] + t[j + 1..];
    assert t[..j][i] == t[i];
    assert t[i] in multiset(t[..j]);
  }

  lemma {:induction false} TwiceAt<T>(s: seq<T>, x: T)
    requires multiset(s)[x] >= 2
    ensures exists p, q :: 0 <= p < q < |s| && s[p] == x && s[q] == x
  {
    assert s == [s[0]] + s[1..];
    if s[0] == x {
      assert x in multiset(s[1..]);
      var q :| 0 <= q < |s[1..]| && s[1..][q] == x;
      assert s[q + 1] == x;
    } else {
      TwiceAt(s[1..], x);
      var p, q :| 0 <= p < q < |s[1..]| && s[1..][p] == x && s[1..][q] == x;
      assert s[p + 1] == x && s[q + 1] == x;
    }
  }

  /** A log name the first pass uses passes the `log_*.txt` glob. */
  lemma MatchesIsGlob(f: LogFile)
    requires Matches(f)
    ensures LogGlob(f.name)
  {
    var key := ParseLogName(f.name).value;
    var mid := key.0 + "_" + Pad4(key.1);
    assert f.name == "log_" + mid + ".txt";
  }

  /** A property held only by logs the glob keeps holds of some listed log
      exactly when it holds of some log of the sorted first-pass input. */
  lemma SortedLogsSome(listing: seq<LogFile>, bad: LogFile -> bool)
    requires forall f :: bad(f) ==> LogGlob(f.name)
    ensures (exists f :: f in listing && bad(f)) <==>
            (exists j :: 0 <= j < |SortedLogs(listing)| && bad(SortedLogs(listing)[j]))
  {
    var fs := SortedLogs(listing);
    if exists f :: f in listing && bad(f) {
      var f :| f in listing && bad(f);
      assert f in multiset(fs);
      var j :| 0 <= j < |fs| && fs[j] == f;
    }
    if exists j :: 0 <= j < |fs| && bad(fs[j]) {
      var j :| 0 <= j < |fs| && bad(fs[j]);
      assert fs[j] in multiset(GlobLogs(listing));
    }
  }

  /** The consolidation fails exactly when a listed log whose name
      matches yields a row that fails, or when there is nothing to put in
      the table: no listed log matches and no CSV is indexed. */
  lemma ConsolidatedFails(listing: seq<LogFile>, dirs: map<string, seq<string>>, json: string -> Option<Value>)
    ensures Consolidated(listing, dirs, json).Err? <==>
      || (exists f :: f in listing && Matches(f) && Built(f, CsvMap(dirs), dirs, json).Err?)
      || ((forall f :: f in listing ==> !Matches(f)) && CsvMap(dirs) == [])
  {
    PassFails(listing, dirs, json);
    ConsolidatedEmpty(listing, dirs, json);
  }

  /** The first pass fails exactly when a listed log whose name matches
      yields a row that fails. */
  lemma PassFails(listing: seq<LogFile>, dirs: map<string, seq<string>>, json: string -> Option<Value>)
    ensures LogRows(SortedLogs(listing), CsvMap(dirs), dirs, json).Err? <==>
      exists f :: f in listing && Matches(f) && Built(f, CsvMap(dirs), dirs, json).Err?
  {
    var csvMap := CsvMap(dirs);
    var fs := SortedLogs(listing);
    LogRowsErr(fs, csvMap, dirs, json);
    var bad := (f: LogFile) => Matches(f) && Built(f, csvMap, dirs, json).Err?;
    forall f | bad(f) ensures LogGlob(f.name) {
      MatchesIsGlob(f);
    }
    SortedLogsSome(listing, bad);
    assert (exists f :: f in listing && bad(f)) <==>
           exists f :: f in listing && Matches(f) && Built(f, csvMap, dirs, json).Err?;
  }

  /** A failing first pass fails on a value that is not an object. */
  lemma {:induction false} LogRowsErrorKind(fs: seq<LogFile>, csvMap: Dict, dirs: map<string, seq<string>>,
                                            json: string -> Option<Value>)
    ensures LogRows(fs, csvMap, dirs, json).Err? ==> LogRows(fs, csvMap, dirs, json).error.NotAnObject?
  {
    if fs != [] {
      var n := |fs| - 1;
      LogRowsErrorKind(fs[..n], csvMap, dirs, json);
      var f := fs[n];
      if Matches(f) {
        var key := ParseLogName(f.name).value;
        LogRowStatus(f, key.0, key.1, csvMap, dirs, json);
      }
    }
  }

  /** The script stops on the empty table exactly when no listed log
      matches and no CSV is indexed. */
  lemma ConsolidatedEmpty(listing: seq<LogFile>, dirs: map<string, seq<string>>, json: string -> Option<Value>)
    ensures Consolidated(listing, dirs, json) == Err(EmptyTable) <==>
      (forall f :: f in listing ==> !Matches(f)) && CsvMap(dirs) == []
  {
    var csvMap := CsvMap(dirs);
    var pass := LogRows(SortedLogs(listing), csvMap, dirs, json);
    ConsolidatedOfPass(listing, dirs, json);
    if pass.Err? {
      LogRowsErrorKind(SortedLogs(listing), csvMap, dirs, json);
      PassFails(listing, dirs, json);
      var f :| f in listing && Matches(f) && Built(f, csvMap, dirs, json).Err?;
    } else if exists f :: f in listing && Matches(f) {
      var f :| f in listing && Matches(f);
      LogRowInFirstPass(listing, dirs, json, f);
    } else if csvMap != [] {
      SemLogRowsNonEmpty(csvMap, pass.value);
    } else {
      if pass.value != [] {
        FirstPassRowIsListed(listing, dirs, json, pass.value[0]);
      }
      assert pass.value + SemLogRows(csvMap, pass.value) == [];
    }
  }

  /** With a non-empty index, the two passes give at least one row. */
  lemma SemLogRowsNonEmpty(csvMap: Dict, logRows: seq<Row>)
    requires csvMap != []
    ensures logRows + SemLogRows(csvMap, logRows) != []
  {
    var all := logRows + SemLogRows(csvMap, logRows);
    AssembleCovers(csvMap, logRows);
    RowLeTotalPreorder();
    SortedElements(all, RowLe);
    var i :| 0 <= i < |Assemble(csvMap, logRows)| && KeyOf(Assemble(csvMap, logRows)[i]) == csvMap[0].0;
    assert Assemble(csvMap, logRows)[i] in all;
  }

  /** Completeness: every indexed (ssp, ano) key has a row, and every
      listed log whose name matches has its row. */
  lemma ConsolidatedCovers(listing: seq<LogFile>, dirs: map<string, seq<string>>, json: string -> Option<Value>)
    requires Consolidated(listing, dirs, json).Ok?
    ensures var out := Consolidated(listing, dirs, json).value;
      && (forall k :: Lookup(CsvMap(dirs), k).Some? ==> HasKey(out, k))
      && (forall f :: f in listing && Matches(f) ==>
            Built(f, CsvMap(dirs), dirs, json).Ok? && Built(f, CsvMap(dirs), dirs, json).value in out)
  {
    var csvMap := CsvMap(dirs);
    var fs := SortedLogs(listing);
    var logRows := LogRows(fs, csvMap, dirs, json).value;
    assert Consolidated(listing, dirs, json).value == Assemble(csvMap, logRows);
    AssembleCovers(csvMap, logRows);
    forall k | Lookup(csvMap, k).Some? ensures HasKey(Assemble(csvMap, logRows), k) {
      assert csvMap[Find(csvMap, k).value].0 == k;
    }
    forall f | f in listing && Matches(f)
      ensures Built(f, csvMap, dirs, json).Ok? && Built(f, csvMap, dirs, json).value in logRows
    {
      LogRowInFirstPass(listing, dirs, json, f);
    }
  }

  /** A listed log whose name matches has its row in the first pass. */
  lemma LogRowInFirstPass(listing: seq<LogFile>, dirs: map<string, seq<string>>, json: string -> Option<Value>,
                          f: LogFile)
    requires LogRows(SortedLogs(listing), CsvMap(dirs), dirs, json).Ok?
    requires f in listing && Matches(f)
    ensures Built(f, CsvMap(dirs), dirs, json).Ok?
    ensures Built(f, CsvMap(dirs), dirs, json).value in LogRows(SortedLogs(listing), CsvMap(dirs), dirs, json).value
  {
    var csvMap := CsvMap(dirs);
    var fs := SortedLogs(listing);
    var logRows := LogRows(fs, csvMap, dirs, json).value;
    LogRowsComplete(fs, csvMap, dirs, json);
    MatchesIsGlob(f);
    assert f in multiset(fs);
    var j :| 0 <= j < |fs| && fs[j] == f;
    var i :| 0 <= i < |logRows| && Built(fs[j], csvMap, dirs, json) == Ok(logRows[i]);
  }

  /** Soundness: every output row is the row of a listed log, or a
      SEM_LOG row for an indexed key that no listed log names, carrying
      the indexed path. */
  lemma ConsolidatedRows(listing: seq<LogFile>, dirs: map<string, seq<string>>, json: string -> Option<Value>)
    requires Consolidated(listing, dirs, json).Ok?
    ensures var out := Consolidated(listing, dirs, json).value;
      forall r :: r in out ==>
        || (exists f :: f in listing && Matches(f) && Built(f, CsvMap(dirs), dirs, json) == Ok(r))
        || (&& r.logStatus == "SEM_LOG"
            && Lookup(CsvMap(dirs), KeyOf(r)) == Some(r.caminhoCsv)
            && forall f :: f in listing && Matches(f) ==> ParseLogName(f.name) != Some((r.ssp, r.ano)))
  {
    var csvMap := CsvMap(dirs);
    var fs := SortedLogs(listing);
    var logRows := LogRows(fs, csvMap, dirs, json).value;
    var out := Assemble(csvMap, logRows);
    assert Consolidated(listing, dirs, json).value == out;
    AssembleRows(csvMap, logRows);
    IndexLastWins(Entries(dirs, LABELS));
    forall r | r in out
      ensures || (exists f :: f in listing && Matches(f) && Built(f, csvMap, dirs, json) == Ok(r))
              || (&& r.logStatus == "SEM_LOG"
                  && Lookup(csvMap, KeyOf(r)) == Some(r.caminhoCsv)
                  && forall f :: f in listing && Matches(f) ==> ParseLogName(f.name) != Some((r.ssp, r.ano)))
    {
      if r in logRows {
        FirstPassRowIsListed(listing, dirs, json, r);
      } else {
        var j :| 0 <= j < |csvMap| && csvMap[j] == (KeyOf(r), r.caminhoCsv);
        FindAt(csvMap, j);
        forall f | f in listing && Matches(f) ensures ParseLogName(f.name) != Some((r.ssp, r.ano)) {
          NoLogRowNoLog(listing, dirs, json, f, KeyOf(r));
        }
      }
    }
  }

  /** A row of the first pass is the row of a listed log. */
  lemma FirstPassRowIsListed(listing: seq<LogFile>, dirs: map<string, seq<string>>, json: string -> Option<Value>,
                             r: Row)
    requires LogRows(SortedLogs(listing), CsvMap(dirs), dirs, json).Ok?
    requires r in LogRows(SortedLogs(listing), CsvMap(dirs), dirs, json).value
    ensures exists f :: f in listing && Matches(f) && Built(f, CsvMap(dirs), dirs, json) == Ok(r)
  {
    var csvMap := CsvMap(dirs);
    var fs := SortedLogs(listing);
    var logRows := LogRows(fs, csvMap, dirs, json).value;
    LogRowsSound(fs, csvMap, dirs, json);
    var i :| 0 <= i < |logRows| && logRows[i] == r;
    var j :| 0 <= j < |fs| && Matches(fs[j]) && fs[j].name == logRows[i].logArquivo
             && Built(fs[j], csvMap, dirs, json) == Ok(logRows[i]);
    assert fs[j] in multiset(GlobLogs(listing));
  }

  /** A key the first pass has no row for is named by no listed log. */
  lemma NoLogRowNoLog(listing: seq<LogFile>, dirs: map<string, seq<string>>, json: string -> Option<Value>,
                      f: LogFile, k: Key)
    requires LogRows(SortedLogs(listing), CsvMap(dirs), dirs, json).Ok?
    requires !HasKey(LogRows(SortedLogs(listing), CsvMap(dirs), dirs, json).value, k)
    requires f in listing && Matches(f)
    ensures ParseLogName(f.name) != Some((k.ssp, k.ano))
  {
    var csvMap := CsvMap(dirs);
    var logRows := LogRows(SortedLogs(listing), csvMap, dirs, json).value;
    var key := ParseLogName(f.name).value;
    LogRowInFirstPass(listing, dirs, json, f);
    LogRowStatus(f, key.0, key.1, csvMap, dirs, json);
    var i :| 0 <= i < |logRows| && logRows[i] == Built(f, csvMap, dirs, json).value;
    assert KeyOf(logRows[i]) == Key(key.0, key.1);
  }

  /** When the log names are distinct (as in a directory), no (ssp, ano)
      key appears twice and the table is strictly ordered by key. */
  lemma ConsolidatedSorted(listing: seq<LogFile>, dirs: map<string, seq<string>>, json: string -> Option<Value>)
    requires DistinctNames(listing) && Consolidated(listing, dirs, json).Ok?
    ensures var out := Consolidated(listing, dirs, json).value;
      forall i, j :: 0 <= i < j < |out| ==> KeyLess(KeyOf(out[i]), KeyOf(out[j]))
  {
    var csvMap := CsvMap(dirs);
    var fs := SortedLogs(listing);
    var logRows := LogRows(fs, csvMap, dirs, json).value;
    assert Consolidated(listing, dirs, json).value == Assemble(csvMap, logRows);
    DistinctNamesSub(listing, GlobLogs(listing));
    DistinctNamesSub(GlobLogs(listing), fs);
    LogRowsDistinct(fs, csvMap, dirs, json);
    AssembleSorted(csvMap, logRows);
  }

  /** Rows with distinct keys keep them through a permutation. */
  lemma DistinctRowKeysPerm(all: seq<Row>, out: seq<Row>)
    requires DistinctRowKeys(all) && multiset(out) == multiset(all)
    ensures DistinctRowKeys(out)
  {
    forall i, j | 0 <= i < j < |out| ensures KeyOf(out[i]) != KeyOf(out[j]) {
      TwoPositions(all, out, i, j);
      var p, q :| 0 <= p < |all| && 0 <= q < |all| && p != q && all[p] == out[i] && all[q] == out[j];
      if p < q {
        assert KeyOf(all[p]) != KeyOf(all[q]);
      } else {
        assert KeyOf(all[q]) != KeyOf(all[p]);
      }
    }
  }

  // ---------------------------------------------------------------
  // The script's loops
  // ---------------------------------------------------------------

  lemma IndexSnoc(es: seq<(Key, string)>, e: (Key, string))
    ensures Index(es + [e]) == Put(Index(es), e.0, e.1)
  {
    assert (es + [e])[..|es|] == es;
  }

  lemma DirEntriesSnoc(sub: string, names: seq<string>, j: nat)
    requires j < |names|
    ensures DirEntries(sub, names[..j + 1]) == DirEntries(sub, names[..j])
      + (if CsvGlob(names[j], sub) && CsvYear(names[j]).Some?
         then [(Key(sub, CsvYear(names[j]).value), sub + "/" + names[j])] else [])
  {
    assert names[..j + 1][..j] == names[..j];
  }

  lemma IndexDirStep(pre: seq<(Key, string)>, sub: string, names: seq<string>, j: nat)
    requires j < |names|
    ensures var before := Index(pre + DirEntries(sub, names[..j]));
      Index(pre + DirEntries(sub, names[..j + 1])) ==
        if CsvGlob(names[j], sub) && CsvYear(names[j]).Some?
        then Put(before, Key(sub, CsvYear(names[j]).value), sub + "/" + names[j])
        else before
  {
    DirEntriesSnoc(sub, names, j);
    if CsvGlob(names[j], sub) && CsvYear(names[j]).Some? {
      var e := (Key(sub, CsvYear(names[j]).value), sub + "/" + names[j]);
      assert pre + DirEntries(sub, names[..j + 1]) == (pre + DirEntries(sub, names[..j])) + [e];
      IndexSnoc(pre + DirEntries(sub, names[..j]), e);
    } else {
      assert pre + DirEntries(sub, names[..j + 1]) == pre + DirEntries(sub, names[..j]);
    }
  }

  lemma EntriesSnoc(dirs: map<string, seq<string>>, subs: seq<string>, k: nat)
    requires k < |subs|
    ensures Entries(dirs, subs[..k + 1]) == Entries(dirs, subs[..k])
      + (if subs[k] in dirs then DirEntries(subs[k], dirs[subs[k]]) else [])
  {
    assert subs[..k + 1][..k] == subs[..k];
  }

  /** A failure in a prefix of the logs is the failure of the whole pass. */
  lemma {:induction false} CollectErrPrefix(fs: seq<LogFile>, n: nat, step: Step)
    requires n <= |fs| && Collect(fs[..n], step).Err?
    ensures Collect(fs, step) == Collect(fs[..n], step)
    decreases |fs| - n
  {
    if n < |fs| {
      var init := fs[..|fs| - 1];
      assert init[..n] == fs[..n];
      CollectErrPrefix(init, n, step);
    } else {
      assert fs[..n] == fs;
    }
  }

  lemma LogRowsErrPrefix(fs: seq<LogFile>, n: nat, csvMap: Dict,
                         dirs: map<string, seq<string>>, json: string -> Option<Value>)
    requires n <= |fs| && LogRows(fs[..n], csvMap, dirs, json).Err?
    ensures LogRows(fs, csvMap, dirs, json) == LogRows(fs[..n], csvMap, dirs, json)
  {
    CollectErrPrefix(fs, n, StepOf(csvMap, dirs, json));
  }

  /** A log whose name does not match adds nothing to the first pass. */
  lemma LogRowsSkip(fs: seq<LogFile>, i: nat, csvMap: Dict, dirs: map<string, seq<string>>,
                    json: string -> Option<Value>)
    requires i < |fs| && !Matches(fs[i])
    ensures LogRows(fs[..i + 1], csvMap, dirs, json) == LogRows(fs[..i], csvMap, dirs, json)
  {
    assert fs[..i + 1][..i] == fs[..i];
    assert StepOf(csvMap, dirs, json)(fs[i]).None?;
  }

  /** A log whose name matches adds its row, or ends the pass with its
      row's failure. */
  lemma LogRowsAdd(fs: seq<LogFile>, i: nat, csvMap: Dict, dirs: map<string, seq<string>>,
                   json: string -> Option<Value>)
    requires i < |fs| && Matches(fs[i]) && LogRows(fs[..i], csvMap, dirs, json).Ok?
    ensures Built(fs[i], csvMap, dirs, json).Ok? ==>
      LogRows(fs[..i + 1], csvMap, dirs, json)
        == Ok(LogRows(fs[..i], csvMap, dirs, json).value + [Built(fs[i], csvMap, dirs, json).value])
    ensures Built(fs[i], csvMap, dirs, json).Err? ==>
      LogRows(fs[..i + 1], csvMap, dirs, json) == Err(Built(fs[i], csvMap, dirs, json).error)
  {
    var step := StepOf(csvMap, dirs, json);
    assert step(fs[i]) == Some(Built(fs[i], csvMap, dirs, json));
    CollectAt(fs, i, step);
  }

  /** The step of the first pass at a matching log: its row is added, or
      its failure is the failure of the whole pass. */
  lemma LogRowsNext(fs: seq<LogFile>, i: nat, csvMap: Dict, dirs: map<string, seq<string>>,
                    json: string -> Option<Value>, row: Result<Row, ConsolidateError>)
    requires i < |fs| && Matches(fs[i]) && LogRows(fs[..i], csvMap, dirs, json).Ok?
    requires row == Built(fs[i], csvMap, dirs, json)
    ensures row.Ok? ==> LogRows(fs[..i + 1], csvMap, dirs, json).Ok?
                        && LogRows(fs[..i + 1], csvMap, dirs, json).value
                           == LogRows(fs[..i], csvMap, dirs, json).value + [row.value]
    ensures row.Err? ==> LogRows(fs, csvMap, dirs, json) == Err(row.error)
  {
    LogRowsAdd(fs, i, csvMap, dirs, json);
    if row.Err? {
      LogRowsErrPrefix(fs, i + 1, csvMap, dirs, json);
    }
  }

  lemma SemLogRowsSnoc(d: Dict, rows: seq<Row>, i: nat)
    requires i < |d|
    ensures SemLogRows(d[..i + 1], rows) ==
      if HasKey(rows + SemLogRows(d[..i], rows), d[i].0) then SemLogRows(d[..i], rows)
      else SemLogRows(d[..i], rows) + [SemLogRow(d[i].0, d[i].1)]
  {
    assert d[..i + 1][..i] == d[..i];
  }

  lemma ConsolidatedOfPass(listing: seq<LogFile>, dirs: map<string, seq<string>>, json: string -> Option<Value>)
    ensures var pass := LogRows(SortedLogs(listing), CsvMap(dirs), dirs, json);
      Consolidated(listing, dirs, json) ==
        if pass.Err? then Err(pass.error)
        else if pass.value + SemLogRows(CsvMap(dirs), pass.value) == [] then Err(EmptyTable)
        else Ok(Assemble(CsvMap(dirs), pass.value))
  {
  }

  /** The script's state: the CSV index and the rows gathered so far. */
  class Consolidator {
    var csvMap: Dict
    var rows: seq<Row>

    constructor ()
      ensures csvMap == [] && rows == []
    {
      csvMap := [];
      rows := [];
    }

    /** The loops that fill `csv_map`, subdirectory by subdirectory. */
    method IndexCsvs(dirs: map<string, seq<string>>)
      requires csvMap == []
      modifies this
      ensures csvMap == CsvMap(dirs) && rows == old(rows)
    {
      IndexSubs(dirs, LABELS);
    }

    method IndexSubs(dirs: map<string, seq<string>>, subs: seq<string>)
      requires csvMap == []
      modifies this
      ensures csvMap == Index(Entries(dirs, subs)) && rows == old(rows)
    {
      for k := 0 to |subs|
        invariant csvMap == Index(Entries(dirs, subs[..k]))
        invariant rows == old(rows)
      {
        EntriesSnoc(dirs, subs, k);
        var sub := subs[k];
        if sub in dirs {
          IndexDir(sub, dirs[sub], Entries(dirs, subs[..k]));
          assert Entries(dirs, subs[..k + 1]) == Entries(dirs, subs[..k]) + DirEntries(sub, dirs[sub]);
          assert csvMap == Index(Entries(dirs, subs[..k]) + DirEntries(sub, dirs[sub]));
        } else {
          assert Entries(dirs, subs[..k + 1]) == Entries(dirs, subs[..k]) + [];
          assert Entries(dirs, subs[..k]) + [] == Entries(dirs, subs[..k]);
        }
      }
      assert subs[..|subs|] == subs;
    }

    /** The loop over one subdirectory's files. */
    method IndexDir(sub: string, names: seq<string>, ghost pre: seq<(Key, string)>)
      requires csvMap == Index(pre)
      modifies this
      ensures csvMap == Index(pre + DirEntries(sub, names)) && rows == old(rows)
    {
      assert pre + DirEntries(sub, names[..0]) == pre;
      for j := 0 to |names|
        invariant csvMap == Index(pre + DirEntries(sub, names[..j])) && rows == old(rows)
      {
        IndexDirStep(pre, sub, names, j);
        var name := names[j];
        var year := CsvYear(name);
        if CsvGlob(name, sub) && year.Some? {
          csvMap := Put(csvMap, Key(sub, year.value), sub + "/" + name);
        }
      }
      assert names[..|names|] == names;
    }

    /** The first pass: one row per log whose name matches, in name
        order. The first log whose row fails ends the run with its
        error. */
    method ReadLogs(listing: seq<LogFile>, dirs: map<string, seq<string>>, json: string -> Option<Value>)
      returns (r: Result<(), ConsolidateError>)
      modifies this
      ensures csvMap == old(csvMap)
      ensures var pass := LogRows(SortedLogs(listing), csvMap, dirs, json);
        && (r.Ok? <==> pass.Ok?)
        && (pass.Err? ==> r.error == pass.error)
        && (pass.Ok? ==> rows == old(rows) + pass.value)
    {
      r := ReadSorted(SortedLogs(listing), dirs, json);
    }

    /** The loop over the sorted log files. */
    method ReadSorted(fs: seq<LogFile>, dirs: map<string, seq<string>>, json: string -> Option<Value>)
      returns (r: Result<(), ConsolidateError>)
      modifies this
      ensures csvMap == old(csvMap)
      ensures var pass := LogRows(fs, csvMap, dirs, json);
        && (r.Ok? <==> pass.Ok?)
        && (pass.Err? ==> r.error == pass.error)
        && (pass.Ok? ==> rows == old(rows) + pass.value)
    {
      for i := 0 to |fs|
        invariant csvMap == old(csvMap)
        invariant LogRows(fs[..i], csvMap, dirs, json).Ok?
        invariant rows == old(rows) + LogRows(fs[..i], csvMap, dirs, json).value
      {
        var f := fs[i];
        if !Matches(f) {
          LogRowsSkip(fs, i, csvMap, dirs, json);
        } else {
          var row := Built(f, csvMap, dirs, json);
          LogRowsNext(fs, i, csvMap, dirs, json, row);
          if row.Err? {
            return Err(row.error);
          }
          rows := rows + [row.value];
        }
      }
      assert fs[..|fs|] == fs;
      return Ok(());
    }

    /** `any((r["ssp"], r["ano"]) == key for r in rows)`. */
    method HasRow(k: Key) returns (b: bool)
      ensures b <==> HasKey(rows, k)
    {
      b := false;
      for i := 0 to |rows|
        invariant b <==> HasKey(rows[..i], k)
      {
        assert rows[..i + 1] == rows[..i] + [rows[i]];
        if KeyOf(rows[i]) == k {
          b := true;
        }
      }
      assert rows[..|rows|] == rows;
    }

    /** The second pass: a SEM_LOG row for every indexed key without one. */
    method AddMissing()
      modifies this
      ensures csvMap == old(csvMap)
      ensures rows == old(rows) + SemLogRows(csvMap, old(rows))
    {
      for i := 0 to |csvMap|
        invariant csvMap == old(csvMap)
        invariant rows == old(rows) + SemLogRows(csvMap[..i], old(rows))
      {
        SemLogRowsSnoc(csvMap, old(rows), i);
        var entry := csvMap[i];
        var present := HasRow(entry.0);
        if !present {
          rows := rows + [SemLogRow(entry.0, entry.1)];
        }
      }
      assert csvMap[..|csvMap|] == csvMap;
    }

    /** The whole script: index, both passes, and the final sort. */
    method Run(listing: seq<LogFile>, dirs: map<string, seq<string>>, json: string -> Option<Value>)
      returns (r: Result<seq<Row>, ConsolidateError>)
      requires csvMap == [] && rows == []
      modifies this
      ensures r == Consolidated(listing, dirs, json)
    {
      IndexCsvs(dirs);
      ghost var pass := LogRows(SortedLogs(listing), csvMap, dirs, json);
      ConsolidatedOfPass(listing, dirs, json);
      var read := ReadLogs(listing, dirs, json);
      if read.Err? {
        return Err(read.error);
      }
      ghost var logRows := rows;
      assert logRows == pass.value;
      AddMissing();
      assert rows == logRows + SemLogRows(CsvMap(dirs), logRows);
      if rows == [] {
        return Err(EmptyTable);
      }
      RowLeTotalPreorder();
      r := Ok(SortBy(rows, RowLe));
      assert r.value == Assemble(CsvMap(dirs), pass.value);
    }
  }
}
