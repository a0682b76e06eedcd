/** The face-match pipeline of the proctoring plugin: the producer that
    queues comparison tasks for a student's webcam snapshots, the worker that
    runs a batch of tasks against the configured backend ("AWS" or "BS"),
    and the one-image analysis entry points. The database is a record of
    tables; backend answers are inputs. */
module FaceMatch {
  import opened Php
  import opened PhpArray

  /** The (course, course module, user) a report belongs to. */
  datatype Triple = Triple(courseid: int, cmid: int, userid: int)

  /** A row of the proctoring log: one webcam snapshot of a quiz attempt.
      `awsflag` is 0 (new), 1 (queued or being analysed) or 2 (scored). */
  datatype Report = Report(who: Triple, snapshot: string, awsflag: int, awsscore: int)

  /** A row of the face-match task queue. */
  datatype Task = Task(reportid: int, ref: string, target: string)

  /** A task row as the worker's recordset hands it over. */
  datatype TaskRow = TaskRow(id: int, task: Task)

  /** One element of the comparison service's `FaceMatches` list. */
  datatype AwsMatch = AwsMatch(similarity: Option<real>)

  /** The outcome of the comparison client call. */
  datatype AwsCall = Threw | Returned(matches: seq<AwsMatch>)

  /** A row of the API-call audit table: the report and the logged answer. */
  datatype ApiLogRow = ApiLogRow(reportid: int, response: seq<AwsMatch>)

  /** A row of the warnings table. */
  datatype Warning = Warning(reportid: int, who: Triple)

  datatype Db = Db(reports: map<int, Report>, tasks: map<int, Task>,
                   apiLog: seq<ApiLogRow>, warnings: seq<Warning>, nextTaskId: int)

  const FLAG_NEW: int := 0
  const FLAG_QUEUED: int := 1
  const FLAG_DONE: int := 2

  /** The worker fetches at most this many tasks per run. */
  const BATCH_SIZE: nat := 5

  /** The producer's sample size when `awschecknumber` is not configured. */
  const DEFAULT_CHECK_NUMBER: int := 5

  /** A fresh task id is above every id in use. */
  predicate FreshIds(db: Db) {
    forall id :: id in db.tasks ==> id < db.nextTaskId
  }

  // ---- casts and result interpretation ----

  /** PHP's `(int)` on a float: truncation toward zero. */
  function TruncToInt(x: real): (r: int)
    ensures x >= 0.0 ==> r >= 0 && r as real <= x < r as real + 1.0
    ensures x < 0.0 ==> r <= 0 && r as real - 1.0 < x <= r as real
  {
    if x >= 0.0 then x.Floor else -((-x).Floor)
  }

  lemma TruncOfWhole(n: int)
    ensures TruncToInt(n as real) == n
  {
  }

  /** `check_similarity_aws`: a client exception becomes the empty list. */
  function CheckSimilarityAws(call: AwsCall): (r: seq<AwsMatch>)
    ensures call.Threw? ==> r == []
    ensures call.Returned? ==> r == call.matches
  {
    match call
    case Threw => []
    case Returned(ms) => ms
  }

  /** What a backend answer means: the similarity to store and whether a
      warning is due. */
  datatype Verdict = Verdict(similarity: real, warn: bool)

  /** Reading the comparison list: the first match's `Similarity` when the
      list is non-empty and it is set, otherwise 0 and a warning. */
  function AwsVerdict(result: seq<AwsMatch>): (v: Verdict)
    ensures !v.warn <==> |result| > 0 && result[0].similarity.Some?
    ensures !v.warn ==> v.similarity == result[0].similarity.value
    ensures v.warn ==> v.similarity == 0.0
  {
    if |result| > 0 && result[0].similarity.Some? then Verdict(result[0].similarity.value, false)
    else Verdict(0.0, true)
  }

  /** `isset($json[$key])` on a decoded answer: only an array has keys. */
  predicate JsonIsset(decoded: Value, key: string) {
    decoded.Arr? && Isset(decoded.entries, StrKey(key))
  }

  /** Reading the decoded answer of the second backend: 100 when `process`
      and `facematched` are set and `facematched` is "True", else 0 and a
      warning. */
  function BsVerdict(decoded: Value): (v: Verdict)
    ensures v.similarity == 100.0 || v.similarity == 0.0
    ensures v.warn <==> v.similarity == 0.0
  {
    if JsonIsset(decoded, "process") && JsonIsset(decoded, "facematched") &&
       LooseEq(At(decoded.entries, StrKey("facematched")), Str("True"))
    then Verdict(100.0, false)
    else Verdict(0.0, true)
  }

  /** The second backend reports a match exactly when both keys are set and
      `facematched` is "True" or true: no number, array or other string is
      loosely equal to "True". */
  lemma BsMatchIff(decoded: Value)
    ensures !BsVerdict(decoded).warn <==>
            decoded.Arr? && Isset(decoded.entries, StrKey("process")) &&
            Lookup(decoded.entries, StrKey("facematched")) in {Some(Str("True")), Some(Bool(true))}
  {
    if decoded.Arr? && Isset(decoded.entries, StrKey("facematched")) {
      var v := At(decoded.entries, StrKey("facematched"));
      if v.Int? {
        var t := IntToStr(v.i);
        assert t[0] == '-' || IsDigit(t[0]);
        assert t != "True" by { assert "True"[0] == 'T'; }
      }
      assert !IsNumericStr("True") by { assert !IsDigit("True"[0]); }
    }
  }

  /** An answer that cannot be read as a JSON object (failed decoding gives
      null) always fails closed. */
  lemma BsNonArrayFailsClosed(decoded: Value)
    requires !decoded.Arr?
    ensures BsVerdict(decoded) == Verdict(0.0, true)
  {
  }

  /** A client exception always fails closed. */
  lemma AwsThrewFailsClosed()
    ensures AwsVerdict(CheckSimilarityAws(Threw)) == Verdict(0.0, true)
  {
  }

  // ---- table writes ----

  /** `update_match_result`: when the report exists it becomes scored, with
      the similarity cast to int; otherwise nothing changes. */
  function UpdateMatchResult(db: Db, rowid: int, similarity: real): (r: Db)
    ensures r.tasks == db.tasks && r.apiLog == db.apiLog && r.warnings == db.warnings
    ensures r.nextTaskId == db.nextTaskId && r.reports.Keys == db.reports.Keys
    ensures rowid in db.reports ==>
              r.reports[rowid].awsflag == FLAG_DONE &&
              r.reports[rowid].awsscore == TruncToInt(similarity) &&
              r.reports[rowid].who == db.reports[rowid].who &&
              r.reports[rowid].snapshot == db.reports[rowid].snapshot
    ensures forall id :: id in db.reports && id != rowid ==> r.reports[id] == db.reports[id]
    ensures rowid !in db.reports ==> r == db
  {
    if rowid in db.reports then
      db.(reports := db.reports[rowid := db.reports[rowid].(awsflag := FLAG_DONE, awsscore := TruncToInt(similarity))])
    else db
  }

  /** A warning row exists for the triple. */
  predicate HasWarning(ws: seq<Warning>, who: Triple) {
    exists i :: 0 <= i < |ws| && ws[i].who == who
  }

  /** At most one warning row per triple. */
  predicate WarningsUnique(ws: seq<Warning>) {
    forall i, j :: 0 <= i < j < |ws| ==> ws[i].who != ws[j].who
  }

  /** `log_fm_warning`: when the report exists and its triple has no warning
      yet, a warning carrying the report id is added. */
  function LogFmWarning(db: Db, reportid: int): (r: Db)
    ensures r.reports == db.reports && r.tasks == db.tasks && r.apiLog == db.apiLog
    ensures r.nextTaskId == db.nextTaskId
    ensures reportid !in db.reports ==> r == db
    ensures reportid in db.reports ==> HasWarning(r.warnings, db.reports[reportid].who)
    ensures reportid in db.reports && HasWarning(db.warnings, db.reports[reportid].who) ==> r == db
    ensures reportid in db.reports && !HasWarning(db.warnings, db.reports[reportid].who) ==>
              r.warnings == db.warnings + [Warning(reportid, db.reports[reportid].who)]
    ensures WarningsUnique(db.warnings) ==> WarningsUnique(r.warnings)
    ensures forall w :: w in db.warnings ==> w in r.warnings
  {
    if reportid in db.reports then
      var who := db.reports[reportid].who;
      if HasWarning(db.warnings, who) then db
      else
        var ws := db.warnings + [Warning(reportid, who)];
        assert ws[|ws| - 1].who == who;
        db.(warnings := ws)
    else db
  }

  /** Logging a warning twice is the same as logging it once. */
  lemma LogFmWarningIdempotent(db: Db, reportid: int)
    ensures LogFmWarning(LogFmWarning(db, reportid), reportid) == LogFmWarning(db, reportid)
  {
  }

  /** `log_aws_api_call`: appends one audit row. */
  function LogAwsApiCall(db: Db, reportid: int, response: seq<AwsMatch>): (r: Db)
    ensures r.apiLog == db.apiLog + [ApiLogRow(reportid, response)]
    ensures r.reports == db.reports && r.tasks == db.tasks && r.warnings == db.warnings
    ensures r.nextTaskId == db.nextTaskId
  {
    db.(apiLog := db.apiLog + [ApiLogRow(reportid, response)])
  }

  /** `delete_records` on the task table by id; a missing id is a no-op. */
  function DeleteTask(db: Db, id: int): (r: Db)
    ensures r.tasks.Keys == db.tasks.Keys - {id}
    ensures forall t :: t in r.tasks ==> r.tasks[t] == db.tasks[t]
    ensures r.reports == db.reports && r.apiLog == db.apiLog && r.warnings == db.warnings
    ensures r.nextTaskId == db.nextTaskId
  {
    db.(tasks := map t | t in db.tasks && t != id :: db.tasks[t])
  }

  // ---- scoring one report ----

  /** The first backend's scoring of a report: log the answer, warn if it
      carries no similarity, store the score. */
  function AwsScore(db: Db, reportid: int, result: seq<AwsMatch>): (r: Db)
    ensures r.apiLog == db.apiLog + [ApiLogRow(reportid, result)]
    ensures r.tasks == db.tasks && r.nextTaskId == db.nextTaskId
    ensures r.reports.Keys == db.reports.Keys
    ensures reportid in db.reports ==>
              r.reports[reportid].awsflag == FLAG_DONE &&
              r.reports[reportid].awsscore == TruncToInt(AwsVerdict(result).similarity)
    ensures forall id :: id in db.reports && id != reportid ==> r.reports[id] == db.reports[id]
    ensures AwsVerdict(result).warn && reportid in db.reports ==> HasWarning(r.warnings, db.reports[reportid].who)
    ensures !AwsVerdict(result).warn ==> r.warnings == db.warnings
    ensures WarningsUnique(db.warnings) ==> WarningsUnique(r.warnings)
  {
    var logged := LogAwsApiCall(db, reportid, result);
    var v := AwsVerdict(result);
    var warned := if v.warn then LogFmWarning(logged, reportid) else logged;
    UpdateMatchResult(warned, reportid, v.similarity)
  }

  /** The second backend's scoring of a report: as `AwsScore`, without the
      audit row, and the score is 100 or 0. */
  function BsScore(db: Db, reportid: int, decoded: Value): (r: Db)
    ensures r.apiLog == db.apiLog
    ensures r.tasks == db.tasks && r.nextTaskId == db.nextTaskId
    ensures r.reports.Keys == db.reports.Keys
    ensures reportid in db.reports ==>
              r.reports[reportid].awsflag == FLAG_DONE &&
              r.reports[reportid].awsscore == (if BsVerdict(decoded).warn then 0 else 100)
    ensures forall id :: id in db.reports && id != reportid ==> r.reports[id] == db.reports[id]
    ensures BsVerdict(decoded).warn && reportid in db.reports ==> HasWarning(r.warnings, db.reports[reportid].who)
    ensures !BsVerdict(decoded).warn ==> r.warnings == db.warnings
    ensures WarningsUnique(db.warnings) ==> WarningsUnique(r.warnings)
  {
    var v := BsVerdict(decoded);
    var warned := if v.warn then LogFmWarning(db, reportid) else db;
    TruncOfWhole(100);
    TruncOfWhole(0);
    UpdateMatchResult(warned, reportid, v.similarity)
  }

  // ---- the worker ----

  /** The configured method names. */
  predicate KnownMethod(m: string) {
    m == "AWS" || m == "BS"
  }

  /** One row of `execute_fm_task`: score the report with the configured
      backend and delete the task; an unknown method only prints. */
  function Step(db: Db, method_: string, row: TaskRow,
                aws: (string, string) -> AwsCall, bs: (string, string) -> Value): (r: Db)
    ensures !KnownMethod(method_) ==> r == db
    ensures KnownMethod(method_) ==> r.tasks.Keys == db.tasks.Keys - {row.id}
    ensures method_ == "AWS" ==>
              r.apiLog == db.apiLog + [ApiLogRow(row.task.reportid, CheckSimilarityAws(aws(row.task.ref, row.task.target)))]
    ensures method_ != "AWS" ==> r.apiLog == db.apiLog
    ensures r.reports.Keys == db.reports.Keys && r.nextTaskId == db.nextTaskId
    ensures KnownMethod(method_) && row.task.reportid in db.reports ==>
              r.reports[row.task.reportid].awsflag == FLAG_DONE
    ensures forall id :: id in db.reports && id != row.task.reportid ==> r.reports[id] == db.reports[id]
    ensures WarningsUnique(db.warnings) ==> WarningsUnique(r.warnings)
  {
    var t := row.task;
    if method_ == "AWS" then
      DeleteTask(AwsScore(db, t.reportid, CheckSimilarityAws(aws(t.ref, t.target))), row.id)
    else if method_ == "BS" then
      DeleteTask(BsScore(db, t.reportid, bs(t.ref, t.target)), row.id)
    else db
  }

  /** The worker over a fetched batch, row by row in recordset order. */
  function RunBatch(db: Db, method_: string, rows: seq<TaskRow>,
                    aws: (string, string) -> AwsCall, bs: (string, string) -> Value): Db
    decreases |rows|
  {
    if |rows| == 0 then db
    else Step(RunBatch(db, method_, rows[..|rows| - 1], aws, bs), method_, rows[|rows| - 1], aws, bs)
  }

  function RowIds(rows: seq<TaskRow>): set<int> {
    set r | r in rows :: r.id
  }

  /** The audit rows the first backend writes for a batch. */
  function AuditRows(rows: seq<TaskRow>, aws: (string, string) -> AwsCall): (r: seq<ApiLogRow>)
    ensures |r| == |rows|
    ensures forall i :: 0 <= i < |rows| ==>
              r[i] == ApiLogRow(rows[i].task.reportid, CheckSimilarityAws(aws(rows[i].task.ref, rows[i].task.target)))
  {
    seq(|rows|, i requires 0 <= i < |rows| =>
      ApiLogRow(rows[i].task.reportid, CheckSimilarityAws(aws(rows[i].task.ref, rows[i].task.target))))
  }

  /** An unknown method changes nothing: no task, report, warning or audit
      row. */
  lemma {:induction false} UnknownMethodChangesNothing(db: Db, method_: string, rows: seq<TaskRow>,
                                                       aws: (string, string) -> AwsCall, bs: (string, string) -> Value)
    requires !KnownMethod(method_)
    ensures RunBatch(db, method_, rows, aws, bs) == db
    decreases |rows|
  {
    if |rows| > 0 {
      UnknownMethodChangesNothing(db, method_, rows[..|rows| - 1], aws, bs);
    }
  }

  /** A known method deletes exactly the tasks of the batch. */
  lemma {:induction false} BatchDeletesItsTasks(db: Db, method_: string, rows: seq<TaskRow>,
                                                aws: (string, string) -> AwsCall, bs: (string, string) -> Value)
    requires KnownMethod(method_)
    ensures RunBatch(db, method_, rows, aws, bs).tasks.Keys == db.tasks.Keys - RowIds(rows)
    decreases |rows|
  {
    if |rows| > 0 {
      var init := rows[..|rows| - 1];
      BatchDeletesItsTasks(db, method_, init, aws, bs);
      RowIdsSnoc(rows);
    }
  }

  lemma RowIdsSnoc(rows: seq<TaskRow>)
    requires |rows| > 0
    ensures RowIds(rows) == RowIds(rows[..|rows| - 1]) + {rows[|rows| - 1].id}
  {
    assert rows == rows[..|rows| - 1] + [rows[|rows| - 1]];
  }

  /** The first backend appends one audit row per task, in batch order,
      whatever the outcome; the second appends none. */
  lemma {:induction false} BatchAuditRows(db: Db, method_: string, rows: seq<TaskRow>,
                                          aws: (string, string) -> AwsCall, bs: (string, string) -> Value)
    ensures method_ == "AWS" ==> RunBatch(db, method_, rows, aws, bs).apiLog == db.apiLog + AuditRows(rows, aws)
    ensures method_ != "AWS" ==> RunBatch(db, method_, rows, aws, bs).apiLog == db.apiLog
    decreases |rows|
  {
    if |rows| > 0 {
      var init := rows[..|rows| - 1];
      BatchAuditRows(db, method_, init, aws, bs);
      if method_ == "AWS" {
        AuditRowsSnoc(db.apiLog, rows, aws);
      }
    }
  }

  lemma AuditRowsSnoc(log: seq<ApiLogRow>, rows: seq<TaskRow>, aws: (string, string) -> AwsCall)
    requires |rows| > 0
    ensures log + AuditRows(rows, aws) == log + AuditRows(rows[..|rows| - 1], aws) + [AuditRows(rows, aws)[|rows| - 1]]
  {
    assert AuditRows(rows, aws) == AuditRows(rows[..|rows| - 1], aws) + [AuditRows(rows, aws)[|rows| - 1]];
  }

  /** A batch never adds or removes a report. */
  lemma {:induction false} BatchKeepsReportIds(db: Db, method_: string, rows: seq<TaskRow>,
                                               aws: (string, string) -> AwsCall, bs: (string, string) -> Value)
    ensures RunBatch(db, method_, rows, aws, bs).reports.Keys == db.reports.Keys
    decreases |rows|
  {
    if |rows| > 0 {
      BatchKeepsReportIds(db, method_, rows[..|rows| - 1], aws, bs);
    }
  }

  /** With a known method, every report a task of the batch points at ends
      up scored. */
  lemma {:induction false} BatchScoresItsReports(db: Db, method_: string, rows: seq<TaskRow>,
                                                 aws: (string, string) -> AwsCall, bs: (string, string) -> Value)
    requires KnownMethod(method_)
    ensures forall row :: row in rows && row.task.reportid in db.reports ==>
              Scored(RunBatch(db, method_, rows, aws, bs), row.task.reportid)
    decreases |rows|
  {
    if |rows| > 0 {
      var init, last := rows[..|rows| - 1], rows[|rows| - 1];
      var mid := RunBatch(db, method_, init, aws, bs);
      BatchScoresItsReports(db, method_, init, aws, bs);
      BatchKeepsReportIds(db, method_, init, aws, bs);
      BatchStepScores(mid, method_, last, aws, bs);
      ScoredAfterStep(mid, Step(mid, method_, last, aws, bs), rows, db.reports.Keys);
    }
  }

  lemma ScoredAfterStep(mid: Db, final: Db, rows: seq<TaskRow>, keys: set<int>)
    requires |rows| > 0
    requires forall row :: row in rows[..|rows| - 1] && row.task.reportid in keys ==> Scored(mid, row.task.reportid)
    requires mid.reports.Keys == keys
    requires rows[|rows| - 1].task.reportid in keys ==> Scored(final, rows[|rows| - 1].task.reportid)
    requires forall id :: Scored(mid, id) ==> Scored(final, id)
    ensures forall row :: row in rows && row.task.reportid in keys ==> Scored(final, row.task.reportid)
  {
    assert rows == rows[..|rows| - 1] + [rows[|rows| - 1]];
  }

  /** The report exists and carries the done flag. */
  predicate Scored(db: Db, id: int) {
    id in db.reports && db.reports[id].awsflag == FLAG_DONE
  }

  /** One step of a batch scores its report and keeps every report's flag
      that was already set. */
  lemma BatchStepScores(db: Db, method_: string, row: TaskRow,
                        aws: (string, string) -> AwsCall, bs: (string, string) -> Value)
    requires KnownMethod(method_)
    ensures var r := Step(db, method_, row, aws, bs);
            r.reports.Keys == db.reports.Keys &&
            (row.task.reportid in db.reports ==> Scored(r, row.task.reportid)) &&
            forall id :: Scored(db, id) ==> Scored(r, id)
  {
  }

  /** A report no task of the batch points at is left as it was. */
  lemma {:induction false} BatchLeavesOtherReports(db: Db, method_: string, rows: seq<TaskRow>,
                                                   aws: (string, string) -> AwsCall, bs: (string, string) -> Value, id: int)
    requires id in db.reports && forall i :: 0 <= i < |rows| ==> rows[i].task.reportid != id
    ensures id in RunBatch(db, method_, rows, aws, bs).reports
    ensures RunBatch(db, method_, rows, aws, bs).reports[id] == db.reports[id]
    decreases |rows|
  {
    if |rows| > 0 {
      var init := rows[..|rows| - 1];
      assert forall i :: 0 <= i < |init| ==> init[i] == rows[i];
      BatchLeavesOtherReports(db, method_, init, aws, bs, id);
    }
  }

  /** A batch keeps the warnings table at one row per triple. */
  lemma {:induction false} BatchKeepsWarningsUnique(db: Db, method_: string, rows: seq<TaskRow>,
                                                    aws: (string, string) -> AwsCall, bs: (string, string) -> Value)
    requires WarningsUnique(db.warnings)
    ensures WarningsUnique(RunBatch(db, method_, rows, aws, bs).warnings)
    decreases |rows|
  {
    if |rows| > 0 {
      BatchKeepsWarningsUnique(db, method_, rows[..|rows| - 1], aws, bs);
    }
  }

  predicate DistinctIds(rows: seq<TaskRow>) {
    forall i, j :: 0 <= i < j < |rows| ==> rows[i].id != rows[j].id
  }

  lemma {:induction false} DistinctIdsCount(rows: seq<TaskRow>)
    requires DistinctIds(rows)
    ensures |RowIds(rows)| == |rows|
    decreases |rows|
  {
    if |rows| > 0 {
      var init := rows[..|rows| - 1];
      var last := rows[|rows| - 1];
      DistinctIdsCount(init);
      assert rows == init + [last];
      assert RowIds(rows) == RowIds(init) + {last.id};
      assert last.id !in RowIds(init);
    }
  }

  /** What the task recordset hands the worker: up to five distinct queued
      tasks, as many as there are up to five, in an order the query leaves
      open. */
  predicate FetchedBatch(db: Db, rows: seq<TaskRow>) {
    DistinctIds(rows) &&
    (forall i :: 0 <= i < |rows| ==> rows[i].id in db.tasks && db.tasks[rows[i].id] == rows[i].task) &&
    |rows| == (if |db.tasks| < BATCH_SIZE then |db.tasks| else BATCH_SIZE)
  }

  /** `execute_fm_task`: runs the fetched batch row by row. */
  method ExecuteFmTask(db: Db, method_: string, rows: seq<TaskRow>,
                       aws: (string, string) -> AwsCall, bs: (string, string) -> Value) returns (out: Db)
    requires FetchedBatch(db, rows)
    ensures out == RunBatch(db, method_, rows, aws, bs)
    ensures |rows| <= BATCH_SIZE
    ensures !KnownMethod(method_) ==> out == db
    ensures KnownMethod(method_) ==>
              out.tasks.Keys == db.tasks.Keys - RowIds(rows) &&
              |out.tasks| == |db.tasks| - |rows|
    ensures KnownMethod(method_) && |db.tasks| > 0 ==> |out.tasks| < |db.tasks|
  {
    out := db;
    var i := 0;
    while i < |rows|
      invariant 0 <= i <= |rows|
      invariant out == RunBatch(db, method_, rows[..i], aws, bs)
    {
      assert rows[..i + 1][..i] == rows[..i];
      out := Step(out, method_, rows[i], aws, bs);
      i := i + 1;
    }
    assert rows[..|rows|] == rows;
    if !KnownMethod(method_) {
      UnknownMethodChangesNothing(db, method_, rows, aws, bs);
    } else {
      BatchDeletesItsTasks(db, method_, rows, aws, bs);
      DistinctIdsCount(rows);
      assert RowIds(rows) <= db.tasks.Keys;
      assert |out.tasks.Keys| == |db.tasks.Keys| - |RowIds(rows)|;
    }
  }

  // ---- the producer ----

  /** The sample size: the configured `awschecknumber` cast to int, or 5 when
      it is not configured. */
  function CheckNumber(config: string): (r: int)
    ensures config == "" ==> r == DEFAULT_CHECK_NUMBER
    ensures config != "" && AllDigits(config) ==> r == DigitsValue(config)
    ensures config != "" && config[0] == '-' && AllDigits(config[1..]) ==> r == 0 - (DigitsValue(config[1..]) as int)
    ensures config != "" && config[0] != '-' && config[0] != '+' && !IsDigit(config[0]) ==> r == 0
  {
    assert AllDigits(config) ==> LeadingDigits(config) == config by {
      if AllDigits(config) { LeadingDigitsOfDigits(config); }
    }
    assert config != "" && AllDigits(config[1..]) ==> LeadingDigits(config[1..]) == config[1..] by {
      if config != "" && AllDigits(config[1..]) { LeadingDigitsOfDigits(config[1..]); }
    }
    if config != "" then StrToInt(config) else DEFAULT_CHECK_NUMBER
  }

  /** A configured number reads back as itself. */
  lemma CheckNumberOfInt(n: int)
    ensures CheckNumber(IntToStr(n)) == n
  {
    IntToStrRoundTrip(n);
  }

  /** The reports of the triple with a snapshot: what the producer's query
      selects. */
  function Candidates(db: Db, who: Triple): set<int> {
    set id | id in db.reports && db.reports[id].who == who && db.reports[id].snapshot != ""
  }

  /** `set_field(awsflag = 1)` on every report of the triple. */
  function MarkAttempted(reports: map<int, Report>, who: Triple): (r: map<int, Report>)
    ensures r.Keys == reports.Keys
    ensures forall id :: id in reports && reports[id].who == who ==> r[id] == reports[id].(awsflag := FLAG_QUEUED)
    ensures forall id :: id in reports && reports[id].who != who ==> r[id] == reports[id]
  {
    map id | id in reports :: if reports[id].who == who then reports[id].(awsflag := FLAG_QUEUED) else reports[id]
  }

  /** The rows the producer's query returns: every candidate when the limit
      is not positive (including -1), otherwise `min(limit, candidates)` of
      them in a random order. */
  predicate Sampled(db: Db, who: Triple, limit: int, rows: seq<int>) {
    (forall i, j :: 0 <= i < j < |rows| ==> rows[i] != rows[j]) &&
    (forall i :: 0 <= i < |rows| ==> rows[i] in Candidates(db, who)) &&
    |rows| == (if limit > 0 && limit < |Candidates(db, who)| then limit else |Candidates(db, who)|)
  }

  /** The tasks the producer queues for the returned rows: one per row with
      a non-empty snapshot, comparing the profile picture with the snapshot.
      A row to queue without a profile picture is a fatal error (`None`). */
  function TasksFor(reports: map<int, Report>, profile: Option<string>, rows: seq<int>): (r: Option<seq<Task>>)
    ensures r.Some? ==> |r.value| <= |rows|
    ensures r.Some? ==> forall t :: t in r.value ==> t.target != "" && t.reportid in rows && t.reportid in reports &&
                                                     t.target == reports[t.reportid].snapshot
    ensures r.Some? && profile.Some? ==> forall t :: t in r.value ==> t.ref == profile.value
    ensures profile.Some? && (forall i :: 0 <= i < |rows| ==> rows[i] in reports && reports[rows[i]].snapshot != "") ==>
              r.Some? && |r.value| == |rows|
    decreases |rows|
  {
    if |rows| == 0 then Some([])
    else
      assert forall i :: 1 <= i < |rows| ==> rows[1..][i - 1] == rows[i];
      var id := rows[0];
      var snapshot := if id in reports then reports[id].snapshot else "";
      match TasksFor(reports, profile, rows[1..])
      case None => None
      case Some(rest) =>
        if snapshot == "" then Some(rest)
        else if profile.None? then None
        else Some([Task(id, profile.value, snapshot)] + rest)
  }

  /** `insert_record` for each task, with ids counting up from the next free
      id. */
  function InsertTasks(db: Db, ts: seq<Task>): (r: Db)
    requires FreshIds(db)
    ensures FreshIds(r) && r.nextTaskId == db.nextTaskId + |ts|
    ensures forall id :: id in r.tasks <==> id in db.tasks || db.nextTaskId <= id < db.nextTaskId + |ts|
    ensures forall id :: id in db.tasks ==> r.tasks[id] == db.tasks[id]
    ensures forall id :: id in r.tasks && id !in db.tasks ==> r.tasks[id] in ts
    ensures |r.tasks| == |db.tasks| + |ts|
    ensures r.reports == db.reports && r.apiLog == db.apiLog && r.warnings == db.warnings
    decreases |ts|
  {
    if |ts| == 0 then db
    else
      var lo := db.nextTaskId;
      var db1 := db.(tasks := db.tasks[lo := ts[0]], nextTaskId := lo + 1);
      assert lo !in db.tasks;
      assert |db1.tasks| == |db.tasks| + 1;
      var r := InsertTasks(db1, ts[1..]);
      assert forall t :: t in ts[1..] ==> t in ts;
      r
  }

  /** `log_specific_quiz`: marks every report of the triple as attempted,
      then queues one task per returned row with a snapshot. */
  function LogSpecificQuiz(db: Db, who: Triple, profile: Option<string>, rows: seq<int>): (r: Option<Db>)
    requires FreshIds(db)
    ensures r.Some? ==> r.value.reports == MarkAttempted(db.reports, who)
    ensures r.Some? ==> FreshIds(r.value) && r.value.apiLog == db.apiLog && r.value.warnings == db.warnings
    ensures r.Some? ==> |r.value.tasks| <= |db.tasks| + |rows|
    ensures r.Some? ==> forall id :: id in db.tasks ==> id in r.value.tasks && r.value.tasks[id] == db.tasks[id]
    ensures r.Some? ==> forall id :: id in r.value.tasks && id !in db.tasks ==>
              r.value.tasks[id].target != "" && r.value.tasks[id].reportid in rows
  {
    var marked := db.(reports := MarkAttempted(db.reports, who));
    match TasksFor(marked.reports, profile, rows)
    case None => None
    case Some(ts) => Some(InsertTasks(marked, ts))
  }

  /** With the rows the query returns and a profile picture, the producer
      queues exactly one task per sampled row: every candidate when the limit
      is not positive, at most the limit otherwise. */
  lemma LogSpecificQuizQueuesSample(db: Db, who: Triple, profile: string, config: string, rows: seq<int>)
    requires FreshIds(db) && Sampled(db, who, CheckNumber(config), rows)
    ensures var r := LogSpecificQuiz(db, who, Some(profile), rows);
            r.Some? &&
            |r.value.tasks| == |db.tasks| + |rows| &&
            (CheckNumber(config) > 0 ==> |r.value.tasks| - |db.tasks| <= CheckNumber(config)) &&
            (CheckNumber(config) <= 0 ==> |r.value.tasks| - |db.tasks| == |Candidates(db, who)|)
  {
    var marked := MarkAttempted(db.reports, who);
    assert forall i :: 0 <= i < |rows| ==> rows[i] in marked && marked[rows[i]].snapshot != "";
  }

  /** A profile-less user with something to queue makes the producer fail. */
  lemma LogSpecificQuizWithoutPicture(db: Db, who: Triple, rows: seq<int>)
    requires FreshIds(db) && |rows| > 0
    requires forall i :: 0 <= i < |rows| ==> rows[i] in Candidates(db, who)
    ensures LogSpecificQuiz(db, who, None, rows).None?
  {
    var marked := MarkAttempted(db.reports, who);
    assert rows[0] in marked && marked[rows[0]].snapshot != "";
    TasksForNoneAtSnapshot(marked, rows);
  }

  lemma {:induction false} TasksForNoneAtSnapshot(reports: map<int, Report>, rows: seq<int>)
    requires |rows| > 0 && rows[0] in reports && reports[rows[0]].snapshot != ""
    ensures TasksFor(reports, None, rows).None?
  {
  }

  // ---- one-image analysis ----

  /** `set_field(awsflag = 1)` on the triple's reports still at 0. */
  function MarkNew(reports: map<int, Report>, who: Triple): (r: map<int, Report>)
    ensures r.Keys == reports.Keys
    ensures forall id :: id in reports ==>
              r[id] == if reports[id].who == who && reports[id].awsflag == FLAG_NEW
                       then reports[id].(awsflag := FLAG_QUEUED) else reports[id]
  {
    map id | id in reports ::
      if reports[id].who == who && reports[id].awsflag == FLAG_NEW then reports[id].(awsflag := FLAG_QUEUED)
      else reports[id]
  }

  /** `aws_analyze_specific_image`: when the report exists, mark the triple's
      new reports, call the first backend on the report's snapshot, log the
      answer and score the report. */
  function AwsAnalyzeSpecificImage(db: Db, reportid: int, call: AwsCall): (r: Db)
    ensures r.tasks == db.tasks && r.reports.Keys == db.reports.Keys
    ensures reportid !in db.reports ==> r == db
    ensures reportid in db.reports ==>
              r.apiLog == db.apiLog + [ApiLogRow(reportid, CheckSimilarityAws(call))] &&
              r.reports[reportid].awsflag == FLAG_DONE &&
              r.reports[reportid].awsscore == TruncToInt(AwsVerdict(CheckSimilarityAws(call)).similarity)
    ensures forall id :: id in db.reports && id != reportid && db.reports[id].awsflag != FLAG_NEW ==>
              r.reports[id] == db.reports[id]
    ensures reportid in db.reports ==>
              forall id :: id in db.reports && id != reportid && db.reports[id].who == db.reports[reportid].who &&
                           db.reports[id].awsflag == FLAG_NEW ==>
                r.reports[id] == db.reports[id].(awsflag := FLAG_QUEUED)
    ensures forall id :: id in db.reports && id != reportid &&
                         (reportid !in db.reports || db.reports[id].who != db.reports[reportid].who) ==>
              r.reports[id] == db.reports[id]
    ensures reportid in db.reports && AwsVerdict(CheckSimilarityAws(call)).warn ==>
              HasWarning(r.warnings, db.reports[reportid].who)
    ensures !AwsVerdict(CheckSimilarityAws(call)).warn ==> r.warnings == db.warnings
  {
    if reportid in db.reports then
      var marked := db.(reports := MarkNew(db.reports, db.reports[reportid].who));
      AwsScore(marked, reportid, CheckSimilarityAws(call))
    else db
  }

  /** After either analysis no report of the analysed report's triple is
      left new. */
  lemma AnalyzeLeavesNothingNew(db: Db, reportid: int, call: AwsCall, decoded: Value)
    requires reportid in db.reports
    ensures var who := db.reports[reportid].who;
            var a := AwsAnalyzeSpecificImage(db, reportid, call);
            var b := BsAnalyzeSpecificImage(db, reportid, decoded);
            forall id :: id in db.reports && db.reports[id].who == who ==>
              a.reports[id].awsflag != FLAG_NEW && b.reports[id].awsflag != FLAG_NEW
  {
  }

  /** `bs_analyze_specific_image`: as the first backend's analysis, without
      the audit row. */
  function BsAnalyzeSpecificImage(db: Db, reportid: int, decoded: Value): (r: Db)
    ensures r.apiLog == db.apiLog && r.tasks == db.tasks && r.reports.Keys == db.reports.Keys
    ensures reportid !in db.reports ==> r == db
    ensures reportid in db.reports ==>
              r.reports[reportid].awsflag == FLAG_DONE &&
              r.reports[reportid].awsscore == (if BsVerdict(decoded).warn then 0 else 100)
    ensures forall id :: id in db.reports && id != reportid && db.reports[id].awsflag != FLAG_NEW ==>
              r.reports[id] == db.reports[id]
    ensures reportid in db.reports ==>
              forall id :: id in db.reports && id != reportid && db.reports[id].who == db.reports[reportid].who &&
                           db.reports[id].awsflag == FLAG_NEW ==>
                r.reports[id] == db.reports[id].(awsflag := FLAG_QUEUED)
    ensures forall id :: id in db.reports && id != reportid &&
                         (reportid !in db.reports || db.reports[id].who != db.reports[reportid].who) ==>
              r.reports[id] == db.reports[id]
    ensures reportid in db.reports && BsVerdict(decoded).warn ==> HasWarning(r.warnings, db.reports[reportid].who)
    ensures !BsVerdict(decoded).warn ==> r.warnings == db.warnings
  {
    if reportid in db.reports then
      var marked := db.(reports := MarkNew(db.reports, db.reports[reportid].who));
      BsScore(marked, reportid, decoded)
    else db
  }
}
