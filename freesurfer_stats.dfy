/** Reading FreeSurfer's aseg.stats reports and collecting them over a
    cohort.

    A report is given as its lines (as `readlines` returns them, newline
    included); the filesystem is a map from report path to lines; the
    directory listing of the cohort root is an input sequence. */
module FreeSurferStats {
  import opened Wrappers
  import opened Text
  import opened Paths
  import opened SeqFacts

  /** The ten columns of an aseg.stats data line, in order. */
  const Columns: seq<string> :=
    ["Index", "SegId", "NVoxels", "Volume_mm3", "StructName",
     "normMean", "normStdDev", "normMin", "normMax", "normRange"]

  /** Position of SegId in `Columns`. */
  const SegIdColumn: nat := 1

  /** One data line; every cell stays the text token it was read as. */
  datatype Row = Row(
    index: string, segId: string, nVoxels: string, volumeMm3: string,
    structName: string, normMean: string, normStdDev: string,
    normMin: string, normMax: string, normRange: string)

  /** A subject's table, keyed by the SegId token. */
  type Table = map<string, Row>

  /** The cells of a row in column order. */
  function RowTokens(r: Row): (t: seq<string>)
    ensures |t| == |Columns|
    ensures t[SegIdColumn] == r.segId
  {
    [r.index, r.segId, r.nVoxels, r.volumeMm3, r.structName,
     r.normMean, r.normStdDev, r.normMin, r.normMax, r.normRange]
  }

  /** Binds the k-th token of a line to the k-th column. */
  function RowOf(tokens: seq<string>): (r: Row)
    requires |tokens| == |Columns|
    ensures RowTokens(r) == tokens
    ensures r.segId == tokens[SegIdColumn]
  {
    Row(tokens[0], tokens[1], tokens[2], tokens[3], tokens[4],
        tokens[5], tokens[6], tokens[7], tokens[8], tokens[9])
  }

  /** Round trip the other way: a row is determined by its cells. */
  lemma RowOfRowTokens(r: Row)
    ensures RowOf(RowTokens(r)) == r
  {
  }

  // -----------------------------------------------------------------------
  // Line filtering and tokenising.

  /** `line.startswith('#')`. */
  predicate IsComment(line: string) {
    StartsWith(line, "#")
  }

  /** The lines kept by the list comprehension: those not starting with '#'. */
  function DataLines(lines: seq<string>): (r: seq<string>)
    ensures |r| <= |lines|
    ensures forall l :: l in r <==> l in lines && !IsComment(l)
  {
    if lines == [] then []
    else (if IsComment(lines[0]) then [] else [lines[0]]) + DataLines(lines[1..])
  }

  /** The comprehension keeps the kept lines in their order, duplicates
      included: filtering a concatenation filters each part. */
  lemma {:induction false} DataLinesAppend(a: seq<string>, b: seq<string>)
    ensures DataLines(a + b) == DataLines(a) + DataLines(b)
  {
    if a != [] {
      var s := a + b;
      assert s[0] == a[0];
      assert s[1..] == a[1..] + b;
      DataLinesAppend(a[1..], b);
    } else {
      assert a + b == b;
    }
  }

  /** A single line is kept exactly when it is not a comment. */
  lemma DataLinesSingle(line: string)
    ensures DataLines([line]) == if IsComment(line) then [] else [line]
  {
    assert [line][1..] == [];
  }

  /** `[line.split() for line in lines]`. */
  function Tokenise(lines: seq<string>): (r: seq<seq<string>>)
    ensures |r| == |lines|
    ensures forall i :: 0 <= i < |lines| ==> r[i] == Split(lines[i])
  {
    if lines == [] then [] else [Split(lines[0])] + Tokenise(lines[1..])
  }

  // -----------------------------------------------------------------------
  // Building the table.

  /** Why a report cannot be turned into a table. `row` counts data lines
      only, from 0. */
  datatype StatsError = MalformedRow(row: nat, tokens: nat) | DuplicateKey(segId: string)

  predicate WellFormed(rows: seq<seq<string>>) {
    forall i :: 0 <= i < |rows| ==> |rows[i]| == |Columns|
  }

  predicate DistinctKeys(rows: seq<seq<string>>)
    requires WellFormed(rows)
  {
    forall i, j :: 0 <= i < j < |rows| ==> rows[i][SegIdColumn] != rows[j][SegIdColumn]
  }

  function KeysOf(rows: seq<seq<string>>): set<string>
    requires WellFormed(rows)
  {
    set i | 0 <= i < |rows| :: rows[i][SegIdColumn]
  }

  /** One entry per row, keyed by its SegId; a row without exactly ten
      tokens or a repeated SegId is refused, the first offending row in
      line order being reported. */
  function BuildTable(rows: seq<seq<string>>): (r: Result<Table, StatsError>)
  {
    if rows == [] then Success(map[])
    else
      var n := |rows| - 1;
      var last := rows[n];
      match BuildTable(rows[..n])
      case Failure(e) => Failure(e)
      case Success(t) =>
        if |last| != |Columns| then Failure(MalformedRow(n, |last|))
        else if last[SegIdColumn] in t then Failure(DuplicateKey(last[SegIdColumn]))
        else Success(t[last[SegIdColumn] := RowOf(last)])
  }

  lemma WellFormedStep(rows: seq<seq<string>>)
    requires rows != []
    ensures rows == rows[..|rows| - 1] + [rows[|rows| - 1]]
    ensures WellFormed(rows) <==> WellFormed(rows[..|rows| - 1]) && |rows[|rows| - 1]| == |Columns|
  {
    var n := |rows| - 1;
    assert forall i :: 0 <= i < n ==> rows[..n][i] == rows[i];
  }

  lemma KeysStep(rows: seq<seq<string>>)
    requires rows != [] && WellFormed(rows)
    ensures WellFormed(rows[..|rows| - 1])
    ensures KeysOf(rows) == KeysOf(rows[..|rows| - 1]) + {rows[|rows| - 1][SegIdColumn]}
  {
    var n := |rows| - 1;
    var init := rows[..n];
    assert forall i :: 0 <= i < n ==> init[i] == rows[i];
    forall x | x in KeysOf(rows) ensures x in KeysOf(init) + {rows[n][SegIdColumn]} {
      var i :| 0 <= i < |rows| && rows[i][SegIdColumn] == x;
      if i < n { assert init[i][SegIdColumn] == x; }
    }
  }

  lemma DistinctStep(rows: seq<seq<string>>)
    requires rows != [] && WellFormed(rows)
    ensures WellFormed(rows[..|rows| - 1])
    ensures DistinctKeys(rows) <==>
      DistinctKeys(rows[..|rows| - 1]) && rows[|rows| - 1][SegIdColumn] !in KeysOf(rows[..|rows| - 1])
  {
    var n := |rows| - 1;
    var init := rows[..n];
    assert forall i :: 0 <= i < n ==> init[i] == rows[i];
    if DistinctKeys(init) && rows[n][SegIdColumn] !in KeysOf(init) {
      forall i, j | 0 <= i < j < |rows| ensures rows[i][SegIdColumn] != rows[j][SegIdColumn] {
        if j == n {
          assert init[i][SegIdColumn] in KeysOf(init);
        }
      }
    }
  }

  /** The table exists iff every row has ten tokens and no SegId repeats. */
  lemma {:induction false} BuildTableSucceeds(rows: seq<seq<string>>)
    ensures BuildTable(rows).Success? <==> WellFormed(rows) && DistinctKeys(rows)
  {
    if rows != [] {
      var n := |rows| - 1;
      BuildTableSucceeds(rows[..n]);
      WellFormedStep(rows);
      if WellFormed(rows) {
        DistinctStep(rows);
        if BuildTable(rows[..n]).Success? {
          BuildTableKeys(rows[..n]);
        }
      }
    }
  }

  /** A table built holds exactly one entry per row: its keys are the
      rows' SegIds, as many as there are rows. */
  lemma {:induction false} BuildTableKeys(rows: seq<seq<string>>)
    requires BuildTable(rows).Success?
    ensures WellFormed(rows)
    ensures BuildTable(rows).value.Keys == KeysOf(rows)
    ensures |BuildTable(rows).value| == |rows|
  {
    if rows != [] {
      var n := |rows| - 1;
      BuildTableKeys(rows[..n]);
      WellFormedStep(rows);
      KeysStep(rows);
    }
  }

  /** Each row's entry, under its SegId, holds that row's tokens bound to
      the columns in order. */
  lemma {:induction false} BuildTableEntries(rows: seq<seq<string>>, i: nat)
    requires BuildTable(rows).Success? && i < |rows|
    ensures |rows[i]| == |Columns|
    ensures rows[i][SegIdColumn] in BuildTable(rows).value
    ensures BuildTable(rows).value[rows[i][SegIdColumn]] == RowOf(rows[i])
  {
    var n := |rows| - 1;
    WellFormedStep(rows);
    if i < n {
      BuildTableEntries(rows[..n], i);
      BuildTableKeys(rows[..n]);
      assert rows[..n][i] == rows[i];
      assert rows[i][SegIdColumn] in KeysOf(rows[..n]);
    }
  }

  /** A refused table names the first offending row: a malformed row is
      preceded only by well-formed ones; a duplicate SegId occurs on two
      well-formed rows. */
  lemma {:induction false} BuildTableFailure(rows: seq<seq<string>>)
    requires BuildTable(rows).Failure?
    ensures var e := BuildTable(rows).error;
      && (e.MalformedRow? ==>
           && e.row < |rows| && |rows[e.row]| == e.tokens && e.tokens != |Columns|
           && forall i :: 0 <= i < e.row ==> |rows[i]| == |Columns|)
      && (e.DuplicateKey? ==>
           exists i, j :: 0 <= i < j < |rows| && |rows[i]| == |Columns| && |rows[j]| == |Columns|
             && rows[i][SegIdColumn] == e.segId && rows[j][SegIdColumn] == e.segId)
  {
    var n := |rows| - 1;
    var init := rows[..n];
    assert forall i :: 0 <= i < n ==> init[i] == rows[i];
    if BuildTable(init).Failure? {
      BuildTableFailure(init);
    } else {
      BuildTableKeys(init);
      if |rows[n]| == |Columns| {
        var key := rows[n][SegIdColumn];
        assert key in KeysOf(init);
        var i :| 0 <= i < n && init[i][SegIdColumn] == key;
      }
    }
  }

  /** The table of one report: comment lines dropped, each other line split
      on whitespace and bound to the ten columns, rows keyed by SegId. */
  function ParseStats(lines: seq<string>): (r: Result<Table, StatsError>)
  {
    BuildTable(Tokenise(DataLines(lines)))
  }

  /** Every data line has exactly the ten tokens of a row. */
  predicate AllRowsComplete(data: seq<string>) {
    forall i :: 0 <= i < |data| ==> |Split(data[i])| == |Columns|
  }

  /** No two data lines carry the same SegId token. */
  predicate SegIdsDistinct(data: seq<string>)
    requires AllRowsComplete(data)
  {
    forall i, j :: 0 <= i < j < |data| ==> Split(data[i])[SegIdColumn] != Split(data[j])[SegIdColumn]
  }

  /** A report parses iff every non-comment line has ten tokens and no two
      of them carry the same SegId. */
  lemma ParseStatsSucceeds(lines: seq<string>)
    ensures ParseStats(lines).Success? <==>
      AllRowsComplete(DataLines(lines)) && SegIdsDistinct(DataLines(lines))
  {
    var data := DataLines(lines);
    var rows := Tokenise(data);
    BuildTableSucceeds(rows);
    assert forall i :: 0 <= i < |data| ==> rows[i] == Split(data[i]);
    assert WellFormed(rows) <==> AllRowsComplete(data);
    if WellFormed(rows) {
      assert DistinctKeys(rows) <==> SegIdsDistinct(data);
    }
  }

  /** A parsed report holds one entry per non-comment line, under that
      line's SegId token, whose cells are the line's tokens in column
      order. */
  lemma ParseStatsRows(lines: seq<string>)
    requires ParseStats(lines).Success?
    ensures |ParseStats(lines).value| == |DataLines(lines)|
    ensures forall l :: l in lines && !IsComment(l) ==>
      && |Split(l)| == |Columns|
      && Split(l)[SegIdColumn] in ParseStats(lines).value
      && RowTokens(ParseStats(lines).value[Split(l)[SegIdColumn]]) == Split(l)
  {
    var data := DataLines(lines);
    var rows := Tokenise(data);
    BuildTableKeys(rows);
    forall l | l in lines && !IsComment(l)
      ensures |Split(l)| == |Columns|
      ensures Split(l)[SegIdColumn] in ParseStats(lines).value
      ensures RowTokens(ParseStats(lines).value[Split(l)[SegIdColumn]]) == Split(l)
    {
      var i :| 0 <= i < |data| && data[i] == l;
      BuildTableEntries(rows, i);
      assert rows[i][SegIdColumn] in KeysOf(rows);
    }
  }

  /** The ten column names differ from one another. */
  lemma ColumnsDistinct()
    ensures forall i, j :: 0 <= i < j < |Columns| ==> Columns[i] != Columns[j]
  {
    forall i, j | 0 <= i < j < |Columns| ensures Columns[i] != Columns[j] {
      if |Columns[i]| == |Columns[j]| {
        assert Columns[i][|Columns[i]| - 2] != Columns[j][|Columns[j]| - 2]
            || Columns[i][0] != Columns[j][0];
      }
    }
  }

  /** One column of a table: SegId to that column's cell. */
  function ColumnOf(t: Table, k: nat): (c: map<string, string>)
    requires k < |Columns|
    ensures c.Keys == t.Keys
    ensures forall id :: id in t ==> c[id] == RowTokens(t[id])[k]
  {
    map id | id in t :: RowTokens(t[id])[k]
  }

  /** `DataFrame.to_dict()`: column name to (SegId to cell). */
  function ToDict(t: Table): (d: map<string, map<string, string>>)
  {
    ColumnsDistinct();
    map k | 0 <= k < |Columns| :: Columns[k] := ColumnOf(t, k)
  }

  /** Looking a cell up in `to_dict()`'s form gives the table's cell: the
      dictionary has exactly the ten columns, each keyed by every SegId. */
  lemma ToDictLookup(t: Table)
    ensures forall c :: c in ToDict(t) <==> c in Columns
    ensures forall k :: 0 <= k < |Columns| ==> ToDict(t)[Columns[k]].Keys == t.Keys
    ensures forall k, id :: 0 <= k < |Columns| && id in t ==> ToDict(t)[Columns[k]][id] == RowTokens(t[id])[k]
  {
    var d := ToDict(t);
    forall c | c in Columns ensures c in d {
      var k :| 0 <= k < |Columns| && Columns[k] == c;
    }
    forall k | 0 <= k < |Columns| ensures d[Columns[k]] == ColumnOf(t, k) {
      ColumnsDistinct();
    }
  }

  // -----------------------------------------------------------------------
  // The cohort.

  /** A subject's statistics as the cohort map holds them. */
  type StatsDict = map<string, map<string, string>>

  datatype CohortError = FileNotFound(path: string) | BadReport(path: string, error: StatsError)

  /** `data_dir/subject/stats/aseg.stats`. */
  function ReportPath(dataDir: string, subject: string): (p: string)
    ensures EndsWith(p, "aseg.stats")
    ensures dataDir != [] && !EndsWith(dataDir, "/") && subject != [] && !StartsWith(subject, "/") && !EndsWith(subject, "/")
      ==> p == dataDir + "/" + subject + "/stats/aseg.stats"
  {
    var p := Join(Join(Join(dataDir, subject), "stats"), "aseg.stats");
    if dataDir != [] && !EndsWith(dataDir, "/") && subject != [] && !StartsWith(subject, "/") && !EndsWith(subject, "/") then
      var d := dataDir + "/" + subject;
      assert !EndsWith(d, "/") by { assert d[|d| - 1] == subject[|subject| - 1]; }
      assert !StartsWith("stats", "/") && !StartsWith("aseg.stats", "/");
      var ds := d + "/" + "stats";
      assert !EndsWith(ds, "/") by { assert ds[|ds| - 1] == 's'; }
      assert p == ds + "/" + "aseg.stats";
      p
    else p
  }

  /** get_subject_freesurfer_stats: open the report and parse it. */
  function GetSubjectStats(path: string, reports: map<string, seq<string>>): (r: Result<Table, CohortError>)
    ensures path !in reports ==> r == Failure(FileNotFound(path))
    ensures path in reports ==> (r.Success? <==> ParseStats(reports[path]).Success?)
    ensures r.Success? ==> path in reports && r.value == ParseStats(reports[path]).value
  {
    if path !in reports then Failure(FileNotFound(path))
    else
      match ParseStats(reports[path])
      case Success(t) => Success(t)
      case Failure(e) => Failure(BadReport(path, e))
  }

  /** One subject's entry of the cohort map: its table, `to_dict()`-ed. */
  function SubjectStats(dataDir: string, subject: string, reports: map<string, seq<string>>): (r: Result<StatsDict, CohortError>)
    ensures ReportPath(dataDir, subject) !in reports ==> r == Failure(FileNotFound(ReportPath(dataDir, subject)))
    ensures r.Success? <==>
      ReportPath(dataDir, subject) in reports && ParseStats(reports[ReportPath(dataDir, subject)]).Success?
    ensures r.Success? ==> r.value == ToDict(ParseStats(reports[ReportPath(dataDir, subject)]).value)
  {
    match GetSubjectStats(ReportPath(dataDir, subject), reports)
    case Success(t) => Success(ToDict(t))
    case Failure(e) => Failure(e)
  }

  /** The subjects processed: a non-empty explicit list as given;
      otherwise the sorted listing, cut to its first `numSubjects` by
      Python slicing when `numSubjects` is not 0. */
  function ChooseSubjects(numSubjects: int, subjectList: seq<string>, listing: seq<string>): (r: seq<string>)
    ensures subjectList != [] ==> r == subjectList
    ensures subjectList == [] ==> |r| <= |listing| && Sorted(r) && r == SortStrings(listing)[..|r|]
    ensures subjectList == [] && numSubjects == 0 ==> multiset(r) == multiset(listing)
    ensures subjectList == [] && numSubjects > 0 ==> |r| == if numSubjects < |listing| then numSubjects else |listing|
    ensures subjectList == [] && numSubjects < 0 ==> |r| == if |listing| + numSubjects < 0 then 0 else |listing| + numSubjects
  {
    if subjectList != [] then subjectList
    else
      var sorted := SortStrings(listing);
      if numSubjects != 0 then
        var r := PrefixSlice(sorted, numSubjects);
        assert Sorted(r) by {
          forall i, j | 0 <= i < j < |r| ensures LessEq(r[i], r[j]) {
            assert r[i] == sorted[i] && r[j] == sorted[j];
          }
        }
        r
      else sorted
  }

  /** With no explicit list, the chosen subjects are the first ones of ANY
      ascending arrangement of the listing: the choice does not depend on
      the order the directory listing came in. */
  lemma ChosenAreFirstInOrder(numSubjects: int, listing: seq<string>, arranged: seq<string>)
    requires Sorted(arranged) && multiset(arranged) == multiset(listing)
    ensures var r := ChooseSubjects(numSubjects, [], listing);
      |r| <= |arranged| && r == arranged[..|r|]
  {
    SortedPermutationUnique(SortStrings(listing), arranged);
  }

  /** What reading one subject gives: its statistics or the error raised. */
  type Loader = string -> Result<StatsDict, CohortError>

  /** The per-subject results in processing order, or the first failure
      (the Python loop raises on the first bad subject). */
  function Collect(subjects: seq<string>, load: Loader): Result<seq<(string, StatsDict)>, CohortError> {
    if subjects == [] then Success([])
    else
      var n := |subjects| - 1;
      match Collect(subjects[..n], load)
      case Failure(e) => Failure(e)
      case Success(es) =>
        match load(subjects[n])
        case Failure(e) => Failure(e)
        case Success(d) => Success(es + [(subjects[n], d)])
  }

  /** Every subject loads: the results pair each subject, in order, with
      what loading it gave. */
  predicate AllLoaded(subjects: seq<string>, load: Loader, es: seq<(string, StatsDict)>) {
    && |es| == |subjects|
    && forall i :: 0 <= i < |subjects| ==> load(subjects[i]).Success? && es[i] == (subjects[i], load(subjects[i]).value)
  }

  /** Subject `i` is the first whose loading fails, with error `e`. */
  predicate FirstFailure(subjects: seq<string>, load: Loader, i: nat, e: CohortError) {
    && i < |subjects| && load(subjects[i]) == Failure(e)
    && forall k :: 0 <= k < i ==> load(subjects[k]).Success?
  }

  /** The results exist iff every subject loads, and then they hold every
      subject's statistics in order; otherwise the error is that of the
      first subject that fails. */
  lemma {:induction false} CollectSpec(subjects: seq<string>, load: Loader)
    ensures Collect(subjects, load).Success? <==> forall s :: s in subjects ==> load(s).Success?
    ensures Collect(subjects, load).Success? ==> AllLoaded(subjects, load, Collect(subjects, load).value)
    ensures Collect(subjects, load).Failure? ==>
      exists i :: FirstFailure(subjects, load, i, Collect(subjects, load).error)
  {
    if subjects != [] {
      var n := |subjects| - 1;
      var init := subjects[..n];
      var last := subjects[n];
      SplitLast(subjects);
      CollectSpec(init, load);
      assert forall s :: s in subjects <==> s in init || s == last;
      assert forall k :: 0 <= k < n ==> init[k] == subjects[k];
      match Collect(init, load)
      case Failure(e) => {
        var i :| FirstFailure(init, load, i, e);
        assert FirstFailure(subjects, load, i, e);
      }
      case Success(es) => {
        assert AllLoaded(init, load, es);
        if load(last).Failure? {
          assert FirstFailure(subjects, load, n, load(last).error);
        } else {
          var r := es + [(last, load(last).value)];
          forall i | 0 <= i < |subjects|
            ensures load(subjects[i]).Success? && r[i] == (subjects[i], load(subjects[i]).value)
          {
            if i < n { assert r[i] == es[i]; }
          }
        }
      }
    }
  }

  /** `{entry[0]: entry[1] for entry in entries}`: a later entry for the
      same key wins. */
  function DictOf(entries: seq<(string, StatsDict)>): (m: map<string, StatsDict>)
    ensures forall s :: s in m <==> exists i :: 0 <= i < |entries| && entries[i].0 == s
  {
    if entries == [] then map[]
    else
      var n := |entries| - 1;
      assert forall i :: 0 <= i < n ==> entries[..n][i] == entries[i];
      DictOf(entries[..n])[entries[n].0 := entries[n].1]
  }

  /** The value DictOf keeps for a key is the one of its last entry. */
  lemma {:induction false} DictOfLast(entries: seq<(string, StatsDict)>, i: nat)
    requires i < |entries|
    requires forall j :: i < j < |entries| ==> entries[j].0 != entries[i].0
    ensures entries[i].0 in DictOf(entries)
    ensures DictOf(entries)[entries[i].0] == entries[i].1
  {
    var n := |entries| - 1;
    var init := entries[..n];
    assert DictOf(entries) == DictOf(init)[entries[n].0 := entries[n].1];
    if i < n {
      assert init[i] == entries[i];
      forall j | i < j < n ensures init[j].0 != init[i].0 {
        assert init[j] == entries[j];
      }
      DictOfLast(init, i);
      assert entries[n].0 != entries[i].0;
    }
  }

  /** The value of get_freesurfer_stats for the subjects processed. */
  function Aggregate(subjects: seq<string>, load: Loader): Result<map<string, StatsDict>, CohortError> {
    match Collect(subjects, load)
    case Success(es) => Success(DictOf(es))
    case Failure(e) => Failure(e)
  }

  /** The cohort map: keys exactly the processed subjects, each holding
      its own result; it exists iff every subject's report was read. */
  lemma AggregateSpec(subjects: seq<string>, load: Loader)
    ensures Aggregate(subjects, load).Success? <==> forall s :: s in subjects ==> load(s).Success?
    ensures Aggregate(subjects, load).Success? ==>
      && (forall s :: s in Aggregate(subjects, load).value <==> s in subjects)
      && forall s :: s in subjects ==> Aggregate(subjects, load).value[s] == load(s).value
  {
    var c := Collect(subjects, load);
    CollectSpec(subjects, load);
    if c.Success? {
      var es := c.value;
      assert AllLoaded(subjects, load, es);
      forall s | s in subjects
        ensures s in DictOf(es) && DictOf(es)[s] == load(s).value
      {
        var i := LastIndexOf(subjects, s);
        DictOfLast(es, i);
      }
      forall s | s in DictOf(es) ensures s in subjects {
        var i :| 0 <= i < |es| && es[i].0 == s;
        assert subjects[i] == s;
      }
    }
  }

  /** The last position at which `x` occurs in `s`. */
  function LastIndexOf(s: seq<string>, x: string): (i: nat)
    requires x in s
    ensures i < |s| && s[i] == x
    ensures forall j :: i < j < |s| ==> s[j] != x
  {
    if s[|s| - 1] == x then |s| - 1
    else
      assert x in s[..|s| - 1] by {
        var k :| 0 <= k < |s| && s[k] == x;
        assert s[..|s| - 1][k] == x;
      }
      LastIndexOf(s[..|s| - 1], x)
  }

  lemma {:induction false} CollectStopsAtFailure(subjects: seq<string>, i: nat, load: Loader)
    requires i <= |subjects|
    requires Collect(subjects[..i], load).Failure?
    ensures Collect(subjects, load) == Collect(subjects[..i], load)
  {
    if i < |subjects| {
      var n := |subjects| - 1;
      PrefixOfPrefix(subjects, i, n);
      CollectStopsAtFailure(subjects[..n], i, load);
    } else {
      WholePrefix(subjects);
    }
  }

  /** Reading one more subject extends the collected results, or ends
      the run with that subject's error. */
  lemma CollectStep(subjects: seq<string>, i: nat, load: Loader, es: seq<(string, StatsDict)>, next: Result<StatsDict, CohortError>)
    requires i < |subjects| && Collect(subjects[..i], load) == Success(es)
    requires next == load(subjects[i])
    ensures next.Success? ==> Collect(subjects[..i + 1], load) == Success(es + [(subjects[i], next.value)])
    ensures next.Failure? ==> Collect(subjects[..i + 1], load) == Failure(next.error)
  {
    PrefixStep(subjects, i);
  }

  /** The loop of get_freesurfer_stats: read each subject's report in
      turn (the first failure ends the run), then key the results by
      subject. */
  method ReadAll(subjects: seq<string>, load: Loader) returns (r: Result<map<string, StatsDict>, CohortError>)
    ensures r == Aggregate(subjects, load)
  {
    var subjectsStats: seq<(string, StatsDict)> := [];
    var i := 0;
    while i < |subjects|
      invariant 0 <= i <= |subjects|
      invariant Collect(subjects[..i], load) == Success(subjectsStats)
    {
      var subject := subjects[i];
      var stats := load(subject);
      CollectStep(subjects, i, load, subjectsStats, stats);
      if stats.Failure? {
        CollectStopsAtFailure(subjects, i + 1, load);
        return Failure(stats.error);
      }
      subjectsStats := subjectsStats + [(subject, stats.value)];
      i := i + 1;
    }
    WholePrefix(subjects);
    r := Success(DictOf(subjectsStats));
  }

  /** get_freesurfer_stats: choose the subjects, then read them all, each
      from its own `stats/aseg.stats`. */
  method GetFreeSurferStats(dataDir: string, numSubjects: int, subjectList: seq<string>, listing: seq<string>, reports: map<string, seq<string>>)
    returns (r: Result<map<string, StatsDict>, CohortError>)
    ensures r == Aggregate(ChooseSubjects(numSubjects, subjectList, listing), s => SubjectStats(dataDir, s, reports))
  {
    var subjects: seq<string>;
    if subjectList != [] {
      subjects := subjectList;
    } else {
      subjects := SortStrings(listing);
      if numSubjects != 0 {
        subjects := PrefixSlice(subjects, numSubjects);
      }
    }
    r := ReadAll(subjects, s => SubjectStats(dataDir, s, reports));
  }
}
