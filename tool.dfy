/** The application object: the mapping table, the matched groups, the
    result table and the operation log, and the three buttons that change
    them (load and match, preview, execute). */
module Tool {
  import opened Optional
  import opened Text
  import opened Sequences
  import opened Records
  import opened Validation
  import opened Matcher
  import opened Preview
  import opened Executor
  import opened OperationLog

  /** The keys of the mapping, in row order. */
  function Keys(mapping: seq<Entry>): (r: seq<string>)
    ensures |r| == |mapping| && forall i :: 0 <= i < |r| ==> r[i] == mapping[i].key
  {
    seq(|mapping|, i requires 0 <= i < |mapping| => mapping[i].key)
  }

  /** Keys that differ ignoring case differ. */
  lemma KeysDistinct(mapping: seq<Entry>)
    requires DistinctKeys(mapping)
    ensures Distinct(Keys(mapping))
  {
    var keys := Keys(mapping);
    forall p, q | 0 <= p < q < |keys| ensures keys[p] != keys[q] {
      assert LowerStr(mapping[p].key) != LowerStr(mapping[q].key);
    }
  }

  /** The rows `load_files` shows: the unmatched names numbered from 1,
      with key "N/A", no target and status Unmatched. */
  function UnmatchedRows(u: seq<string>): (r: seq<Row>)
    ensures |r| == |u|
  {
    seq(|u|, i requires 0 <= i < |u| => Row(i + 1, NoKey, u[i], "", Unmatched))
  }

  /** The loop of `load_files` that fills the table with the unmatched
      names. */
  method ShowUnmatched(unmatched: seq<string>) returns (shown: seq<Row>)
    ensures shown == UnmatchedRows(unmatched)
  {
    shown := [];
    for i := 0 to |unmatched|
      invariant shown == UnmatchedRows(unmatched[..i])
    {
      shown := shown + [Row(i + 1, NoKey, unmatched[i], "", Unmatched)];
    }
    assert unmatched[..|unmatched|] == unmatched;
  }

  /** The table `load_files` leaves has no Pending row. */
  lemma UnmatchedRowsWellNamed(u: seq<string>)
    ensures PendingWellNamed(UnmatchedRows(u))
  {
  }

  /** The value of `rename_mode_var`. */
  function ModeName(m: Mode): string
  {
    match m
    case Files => "文件"
    case Folders => "文件夹"
  }

  /** `status_text` of `load_files`. */
  function ScanSummary(found: nat, mode: Mode, matchCount: nat, unmatchedCount: nat): string
  {
    "扫描完成：找到 " + NatToDecimal(found) + " 个" + ModeName(mode) + "，匹配 " + NatToDecimal(matchCount)
      + " 个，未匹配 " + NatToDecimal(unmatchedCount) + " 个。"
  }

  /** The log line of `generate_preview`. */
  function PreviewSummary(n: nat): string
  {
    "生成预览完成，共 " + NatToDecimal(n) + " 个项目。"
  }

  /** The command-line archiver the chosen format needs, if any. */
  function ArchiverFor(o: Options): Option<string>
  {
    if !Compressing(o) then None
    else
      match o.format
      case Zip => None
      case SevenZip => Some("7z.exe")
      case Rar => Some("Rar.exe")
  }

  /** How `execute_rename` ends. */
  datatype RunResult =
    | NothingPending
    | Declined
    | DependencyMissing(tool: string)
    | TargetFolderFailed(reason: string)
    | Completed(counts: Counts)

  class FileRenameTool {
    /** `file_mapping`, in row order. */
    var mapping: seq<Entry>
    /** `matched_files`, in the order keys were first used. */
    var matched: seq<Group>
    /** The rows of the result table. */
    var rows: seq<Row>
    /** `operation_log`. */
    var operationLog: seq<string>

    ghost predicate Valid()
      reads this
    {
      && |operationLog| <= MaxLogEntries
      && DistinctKeys(mapping)
      && PendingWellNamed(rows)
    }

    constructor ()
      ensures Valid()
      ensures mapping == [] && matched == [] && rows == [] && operationLog == []
    {
      mapping, matched, rows, operationLog := [], [], [], [];
    }

    /** `log_operation`: the timestamp and the display are not modelled. */
    method LogOperation(message: string)
      requires |operationLog| <= MaxLogEntries
      modifies this`operationLog
      ensures operationLog == Appended(old(operationLog), message)
      ensures |operationLog| <= MaxLogEntries
    {
      operationLog := operationLog + [message];
      if |operationLog| > MaxLogEntries {
        operationLog := operationLog[1..];
      }
    }

    /** `load_files` from the table's two columns on: the table and the
        result are cleared, a table that fails validation leaves the old
        mapping and logs nothing, and a valid one becomes the mapping, the
        listing is matched against it and the unmatched names are shown. */
    method LoadFiles(table: seq<(Cell, Cell)>, listing: seq<string>, mode: Mode, mt: MatchType)
      returns (error: Option<LoadError>)
      requires Valid()
      modifies this
      ensures Valid()
      ensures var checked := Validate(table);
        && (checked.Err? ==>
              && error == Some(checked.error)
              && mapping == old(mapping) && matched == [] && rows == []
              && operationLog == old(operationLog))
        && (checked.Ok? ==>
              var keys := Keys(checked.value);
              var unmatched := UnmatchedOf(listing, Filing(keys, mt));
              && error == None
              && mapping == checked.value
              && matched == GroupsOf(keys, listing, Filing(keys, mt))
              && rows == UnmatchedRows(unmatched)
              && operationLog ==
                   Appended(old(operationLog), ScanSummary(|listing|, mode, TotalItems(matched), |unmatched|)))
    {
      var checked := Validate(table);
      if checked.Err? {
        matched, rows := [], [];
        return Some(checked.error);
      }
      Accept(checked.value, listing, mode, mt);
      error := None;
    }

    /** The part of `load_files` after a table passed validation: it becomes
        the mapping, the listing is matched against its keys, the unmatched
        names are shown and the scan summary is logged. */
    method Accept(entries: seq<Entry>, listing: seq<string>, mode: Mode, mt: MatchType)
      requires Valid() && DistinctKeys(entries)
      modifies this
      ensures Valid()
      ensures var keys := Keys(entries);
        var unmatched := UnmatchedOf(listing, Filing(keys, mt));
        && mapping == entries
        && matched == GroupsOf(keys, listing, Filing(keys, mt))
        && rows == UnmatchedRows(unmatched)
        && operationLog ==
             Appended(old(operationLog), ScanSummary(|listing|, mode, TotalItems(matched), |unmatched|))
    {
      var keys := Keys(entries);
      KeysDistinct(entries);
      var groups, unmatched := MatchListing(keys, listing, mt);
      var shown := ShowUnmatched(unmatched);
      UnmatchedRowsWellNamed(unmatched);
      mapping, matched, rows := entries, groups, shown;
      LogOperation(ScanSummary(|listing|, mode, TotalItems(groups), |unmatched|));
    }

    /** `generate_preview`: nothing happens before a successful match;
        afterwards the table becomes the preview and one line is logged. */
    method GeneratePreview(o: Options, onDisk: string -> bool) returns (generated: bool)
      requires Valid()
      modifies this
      ensures Valid()
      ensures mapping == old(mapping) && matched == old(matched)
      ensures generated <==> old(matched) != []
      ensures !generated ==> rows == old(rows) && operationLog == old(operationLog)
      ensures generated ==>
        && rows == PreviewOf(ToMap(mapping), matched, o, onDisk, old(rows))
        && operationLog == Appended(old(operationLog), PreviewSummary(|rows|))
    {
      if matched == [] {
        return false;
      }
      var table := BuildPreview(ToMap(mapping), matched, o, onDisk, rows);
      PreviewWellNamed(ToMap(mapping), matched, o, onDisk, rows);
      rows := table;
      LogOperation(PreviewSummary(|rows|));
      generated := true;
    }

    /** `execute_rename`: with Pending rows and the user's consent, after
        the archiver and the target folder are checked, every Pending row
        is processed in table order, and the counters are logged. */
    method ExecuteRename(o: Options, confirm: bool, onPath: string -> bool, makeDirsError: Option<string>, env: Env)
      returns (result: RunResult)
      requires Valid()
      modifies this
      ensures Valid()
      ensures mapping == old(mapping) && matched == old(matched)
      ensures CountTo(old(rows), IsPending, |old(rows)|) == 0 ==>
        result == NothingPending && rows == old(rows) && operationLog == old(operationLog)
      ensures CountTo(old(rows), IsPending, |old(rows)|) > 0 && !confirm ==>
        result == Declined && rows == old(rows) && operationLog == old(operationLog)
      ensures CountTo(old(rows), IsPending, |old(rows)|) > 0 && confirm &&
              ArchiverFor(o).Some? && !onPath(ArchiverFor(o).value) ==>
        && result == DependencyMissing(ArchiverFor(o).value) && rows == old(rows)
        && operationLog == Appended(old(operationLog), "依赖缺失: " + ArchiverFor(o).value)
      ensures CountTo(old(rows), IsPending, |old(rows)|) > 0 && confirm &&
              (ArchiverFor(o).None? || onPath(ArchiverFor(o).value)) && makeDirsError.Some? ==>
        && result == TargetFolderFailed(makeDirsError.value) && rows == old(rows)
        && operationLog == Appended(old(operationLog), "无法创建目标文件夹: " + makeDirsError.value)
      ensures CountTo(old(rows), IsPending, |old(rows)|) > 0 && confirm &&
              (ArchiverFor(o).None? || onPath(ArchiverFor(o).value)) && makeDirsError.None? ==>
        var counts := Tally(old(rows), o, env, |old(rows)|);
        && result == Completed(counts)
        && rows == Executed(old(rows), o, env)
        && operationLog == AppendedAll(old(operationLog), RunMessages(old(rows), o, env, |old(rows)|) + [Summary(counts)])
    {
      if CountTo(rows, IsPending, |rows|) == 0 {
        return NothingPending;
      }
      if !confirm {
        return Declined;
      }
      var tool := ArchiverFor(o);
      if tool.Some? && !onPath(tool.value) {
        LogOperation("依赖缺失: " + tool.value);
        return DependencyMissing(tool.value);
      }
      if makeDirsError.Some? {
        LogOperation("无法创建目标文件夹: " + makeDirsError.value);
        return TargetFolderFailed(makeDirsError.value);
      }
      ghost var start := rows;
      var counts := ProcessRows(o, env);
      AppendedAllSnoc(old(operationLog), RunMessages(start, o, env, |start|), Summary(counts));
      LogOperation(Summary(counts));
      NoPendingAfter(start, o, env);
      result := Completed(counts);
    }

    /** The loop of `execute_rename`: every Pending row is attempted in
        table order, its status replaced and its log line written; the other
        rows are only counted. */
    method ProcessRows(o: Options, env: Env) returns (counts: Counts)
      requires |operationLog| <= MaxLogEntries
      modifies this`rows, this`operationLog
      ensures rows == Executed(old(rows), o, env)
      ensures counts == Tally(old(rows), o, env, |old(rows)|)
      ensures operationLog == AppendedAll(old(operationLog), RunMessages(old(rows), o, env, |old(rows)|))
      ensures |operationLog| <= MaxLogEntries
    {
      ghost var start := rows;
      ghost var log0 := operationLog;
      var table := rows;
      var success, skip, errors := 0, 0, 0;
      for k := 0 to |table|
        invariant |table| == |start|
        invariant forall j :: 0 <= j < k ==> table[j] == Settle(j, start[j], o, env)
        invariant forall j :: k <= j < |table| ==> table[j] == start[j]
        invariant Counts(success, skip, errors) == Tally(start, o, env, k)
        invariant operationLog == AppendedAll(log0, RunMessages(start, o, env, k))
        invariant |operationLog| <= MaxLogEntries
      {
        var row := table[k];
        assert row == start[k];
        RowStep(start, o, env, k);
        if row.status != Pending {
          if row.status != Success && !row.status.Error? {
            skip := skip + 1;
          }
          continue;
        }
        var a := TryRow(k, o, row, env);
        var settled := if a.Succeeded? then row.(status := Success) else row.(status := Error(Take(a.message, MaxErrorLength)));
        assert settled == Settle(k, start[k], o, env);
        table := table[k := settled];
        if a.Succeeded? {
          success := success + 1;
        } else {
          errors := errors + 1;
        }
        AppendedAllSnoc(log0, RunMessages(start, o, env, k), RowMessage(row, a));
        LogOperation(RowMessage(row, a));
      }
      rows := table;
      counts := Counts(success, skip, errors);
    }
  }
}
