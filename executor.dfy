/** The per-row work of `execute_rename`: the operation a Pending row asks
    of the file system, how its outcome becomes the row's new status, the
    log line it leaves, and the three counters of the summary. */
module Executor {
  import opened Text
  import opened Paths
  import opened Records
  import opened Preview

  /** `error_msg[:60]`: an error status keeps at most 60 characters. */
  const MaxErrorLength: nat := 60

  const ExistsMessage: string := "FileExistsError: 目标已存在"
  const MissingMessage: string := "FileNotFoundError: 源不存在"
  const CommandFailedPrefix: string := "压缩命令失败: "
  const UnknownArchiveError: string := "未知压缩错误"

  /** The operation a Pending row asks for. Names are relative to the
      source and the target folder. */
  datatype Action =
    | CopyFile(src: string, dst: string)       // shutil.copy2
    | CopyTree(src: string, dst: string)       // shutil.copytree
    | MakeZip(base: string, item: string)      // shutil.make_archive(base, 'zip', base_dir=item)
    | RunCommand(argv: seq<string>)            // subprocess.run(argv, check=True)

  /** How an operation ends: normally, with an exception (its type name and
      text), or with the archiver's non-zero exit. For the exit, `captured`
      says whether the archiver wrote any bytes to its error output and
      `stderr` is those bytes as decoded (the decoder drops what it cannot
      read, so captured output may decode to nothing). */
  datatype Outcome =
    | Done
    | Raised(kind: string, message: string)
    | CommandFailed(captured: bool, stderr: string)

  /** The file system as the loop sees it. Every question also receives the
      position of the row being processed, so the answers may change as the
      loop copies and archives. */
  datatype Env = Env(
    dstExists: (nat, string) -> bool,
    srcExists: (nat, string) -> bool,
    run: (nat, Action) -> Outcome)

  /** The operation for a row: an archive when folders are compressed (the
      zip base name is the target without its extension; the other formats
      run `7z.exe` or `Rar.exe`), `copy2` for files, `copytree` for folders. */
  function ActionFor(o: Options, original: string, target: string): Action
  {
    if Compressing(o) then
      match o.format
      case Zip => MakeZip(SplitExt(target).0, original)
      case SevenZip => RunCommand(["7z.exe", "a", "-t7z", target, original])
      case Rar => RunCommand(["Rar.exe", "a", "-r", target, original])
    else if o.mode == Files then CopyFile(original, target)
    else CopyTree(original, target)
  }

  /** The result of the `try` block of one row: success, or the text of
      `error_msg`. */
  datatype Attempted = Succeeded | Failed(message: string)

  /** The `try` block: the target must not exist, then the source must,
      then the operation runs. */
  function Attempt(k: nat, o: Options, original: string, target: string, env: Env): Attempted
  {
    if env.dstExists(k, target) then Failed(ExistsMessage)
    else if !env.srcExists(k, original) then Failed(MissingMessage)
    else
      match env.run(k, ActionFor(o, original, target))
      case Done => Succeeded
      case Raised(kind, msg) => Failed(kind + ": " + msg)
      case CommandFailed(captured, err) => Failed(CommandFailedPrefix + (if captured then err else UnknownArchiveError))
  }

  /** The `try` block as the loop runs it for one Pending row: an existing
      target fails first, then a missing source; the row succeeds exactly
      when both checks pass and the operation returns normally; every
      failure carries a message. */
  method TryRow(k: nat, o: Options, row: Row, env: Env) returns (a: Attempted)
    ensures a == Attempt(k, o, row.source, row.target, env)
    ensures env.dstExists(k, row.target) ==> a == Failed(ExistsMessage)
    ensures !env.dstExists(k, row.target) && !env.srcExists(k, row.source) ==> a == Failed(MissingMessage)
    ensures a.Succeeded? <==>
      !env.dstExists(k, row.target) && env.srcExists(k, row.source) && env.run(k, ActionFor(o, row.source, row.target)) == Done
    ensures a.Failed? ==> a.message != []
  {
    if env.dstExists(k, row.target) {
      return Failed(ExistsMessage);
    }
    if !env.srcExists(k, row.source) {
      return Failed(MissingMessage);
    }
    var outcome := env.run(k, ActionFor(o, row.source, row.target));
    match outcome
    case Done =>
      a := Succeeded;
    case Raised(kind, msg) =>
      a := Failed(kind + ": " + msg);
    case CommandFailed(captured, err) =>
      var output := if captured then err else UnknownArchiveError;
      a := Failed(CommandFailedPrefix + output);
  }

  /** The checks run in the source's order, every failure has a message,
      and a row succeeds exactly when both checks pass and the operation
      returns normally. */
  lemma AttemptOrder(k: nat, o: Options, original: string, target: string, env: Env)
    ensures var r := Attempt(k, o, original, target, env);
      && (env.dstExists(k, target) ==> r == Failed(ExistsMessage))
      && (!env.dstExists(k, target) && !env.srcExists(k, original) ==> r == Failed(MissingMessage))
      && (r.Succeeded? <==>
            !env.dstExists(k, target) && env.srcExists(k, original) && env.run(k, ActionFor(o, original, target)) == Done)
      && (r.Failed? ==> r.message != [])
  {
  }

  /** Row `k` after the loop: a Pending row becomes Success or an error
      status holding the first 60 characters of the message; any other row
      is left as it is. */
  function Settle(k: nat, row: Row, o: Options, env: Env): Row
  {
    if row.status != Pending then row
    else
      match Attempt(k, o, row.source, row.target, env)
      case Succeeded => row.(status := Success)
      case Failed(m) => row.(status := Error(Take(m, MaxErrorLength)))
  }

  /** The table after the loop. */
  function Executed(rows: seq<Row>, o: Options, env: Env): (r: seq<Row>)
    ensures |r| == |rows|
  {
    seq(|rows|, k requires 0 <= k < |rows| => Settle(k, rows[k], o, env))
  }

  /** What the loop does to row `k`: index, key and names stay; a row that
      was not Pending stays whole; a Pending row becomes Success exactly when
      its attempt succeeds, and otherwise an error whose text is the
      message cut to its first 60 characters. */
  lemma ExecutedRow(rows: seq<Row>, o: Options, env: Env, k: nat)
    requires k < |rows|
    ensures var r, a := Executed(rows, o, env)[k], Attempt(k, o, rows[k].source, rows[k].target, env);
      && r.index == rows[k].index && r.key == rows[k].key
      && r.source == rows[k].source && r.target == rows[k].target
      && (rows[k].status != Pending ==> r == rows[k])
      && (rows[k].status == Pending ==>
            && (r.status == Success <==> a.Succeeded?)
            && (r.status.Error? <==> a.Failed?)
            && (r.status.Error? ==>
                  && r.status.detail == Take(a.message, MaxErrorLength)
                  && |r.status.detail| <= MaxErrorLength && r.status.detail == a.message[..|r.status.detail|]
                  && (|a.message| > MaxErrorLength ==> |r.status.detail| == MaxErrorLength)))
  {
  }

  /** No Pending row remains. */
  lemma NoPendingAfter(rows: seq<Row>, o: Options, env: Env)
    ensures forall k :: 0 <= k < |rows| ==> Executed(rows, o, env)[k].status != Pending
  {
    forall k | 0 <= k < |rows| ensures Executed(rows, o, env)[k].status != Pending {
      ExecutedRow(rows, o, env, k);
    }
  }

  /** A second run, whatever the options and the file system then, changes
      nothing: there is nothing left to process. */
  lemma ExecutedIdempotent(rows: seq<Row>, o: Options, env: Env, o2: Options, env2: Env)
    ensures Executed(Executed(rows, o, env), o2, env2) == Executed(rows, o, env)
  {
    var once := Executed(rows, o, env);
    NoPendingAfter(rows, o, env);
    var twice := Executed(once, o2, env2);
    forall k | 0 <= k < |rows| ensures twice[k] == once[k] {
      ExecutedRow(once, o2, env2, k);
    }
  }

  // The counters

  predicate IsPending(s: Status) { s == Pending }
  predicate IsSuccess(s: Status) { s == Success }
  predicate IsError(s: Status) { s.Error? }

  /** A row the loop counts as skipped: neither Pending nor finished. */
  predicate IsSkippable(s: Status)
  {
    s != Pending && s != Success && !s.Error?
  }

  /** How many of the first `n` rows have a status satisfying `p`. */
  function CountTo(rows: seq<Row>, p: Status -> bool, n: nat): nat
    requires n <= |rows|
  {
    if n == 0 then 0 else CountTo(rows, p, n - 1) + (if p(rows[n - 1].status) then 1 else 0)
  }

  /** `success_count`, `skip_count`, `error_count`. */
  datatype Counts = Counts(success: nat, skipped: nat, errors: nat)

  /** The counters after the first `n` rows. */
  function Tally(rows: seq<Row>, o: Options, env: Env, n: nat): Counts
    requires n <= |rows|
  {
    if n == 0 then Counts(0, 0, 0)
    else
      var c := Tally(rows, o, env, n - 1);
      var row := rows[n - 1];
      if row.status == Pending then
        if Attempt(n - 1, o, row.source, row.target, env).Succeeded? then c.(success := c.success + 1)
        else c.(errors := c.errors + 1)
      else if IsSkippable(row.status) then c.(skipped := c.skipped + 1)
      else c
  }

  /** The counters agree with the table: successes and errors split the
      Pending rows, the skipped rows are those neither Pending nor finished,
      and the table gains exactly as many Success and error rows as counted
      and keeps no Pending row. */
  lemma {:induction false} TallyAgrees(rows: seq<Row>, o: Options, env: Env, n: nat)
    requires n <= |rows|
    ensures var t, after := Tally(rows, o, env, n), Executed(rows, o, env);
      && t.success + t.errors == CountTo(rows, IsPending, n)
      && t.skipped == CountTo(rows, IsSkippable, n)
      && CountTo(after, IsSuccess, n) == CountTo(rows, IsSuccess, n) + t.success
      && CountTo(after, IsError, n) == CountTo(rows, IsError, n) + t.errors
      && CountTo(after, IsPending, n) == 0
  {
    if n > 0 {
      TallyAgrees(rows, o, env, n - 1);
      ExecutedRow(rows, o, env, n - 1);
    }
  }

  // The log lines of the loop

  /** The counters and the log lines after one more row. */
  lemma RowStep(rows: seq<Row>, o: Options, env: Env, k: nat)
    requires k < |rows|
    ensures var row, c := rows[k], Tally(rows, o, env, k);
      var a := Attempt(k, o, row.source, row.target, env);
      && (row.status != Pending ==>
            && RunMessages(rows, o, env, k + 1) == RunMessages(rows, o, env, k)
            && Tally(rows, o, env, k + 1) == if IsSkippable(row.status) then c.(skipped := c.skipped + 1) else c)
      && (row.status == Pending ==>
            && RunMessages(rows, o, env, k + 1) == RunMessages(rows, o, env, k) + [RowMessage(row, a)]
            && Tally(rows, o, env, k + 1) ==
                 if a.Succeeded? then c.(success := c.success + 1) else c.(errors := c.errors + 1))
  {
  }

  /** The log line of a processed row. */
  function RowMessage(row: Row, a: Attempted): string
  {
    match a
    case Succeeded => "'" + row.source + "' 成功处理为 '" + row.target + "'"
    case Failed(m) => "处理 '" + row.source + "' 失败: " + m
  }

  /** The log lines of the first `n` rows: one per Pending row, none for
      the others. */
  function RunMessages(rows: seq<Row>, o: Options, env: Env, n: nat): (r: seq<string>)
    requires n <= |rows|
    ensures |r| == CountTo(rows, IsPending, n)
  {
    if n == 0 then []
    else
      var row := rows[n - 1];
      RunMessages(rows, o, env, n - 1) +
        (if row.status == Pending then [RowMessage(row, Attempt(n - 1, o, row.source, row.target, env))] else [])
  }

  /** `summary_msg`. */
  function Summary(c: Counts): string
  {
    "操作完成！\n\n成功: " + NatToDecimal(c.success) + " 个\n跳过 (含未匹配): " + NatToDecimal(c.skipped)
      + " 个\n错误: " + NatToDecimal(c.errors) + " 个"
  }
}
