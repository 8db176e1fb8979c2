/** The rows of the result table (the `ttk.Treeview`) and their statuses. */
module Records {
  import opened Text
  import opened Optional

  /** The status column. The source keeps it as text; `Label` gives that
      text and `ParseLabel` reads it back. */
  datatype Status =
    | Pending          // 待处理
    | Success          // 成功
    | Skipped          // 已跳过
    | Unmatched        // 未匹配
    | PreviewConflict  // 预览冲突
    | TargetExists     // 目标已存在
    | Error(detail: string)  // "错误: " + detail

  const ErrorPrefix: string := "错误: "

  /** A table row: `(index, key, source name, target name, status)`. */
  datatype Row = Row(index: int, key: string, source: string, target: string, status: Status)

  /** The key column of an unmatched row. */
  const NoKey: string := "N/A"

  /** The `STATUS_*` constants, and the prefix of an error status. */
  function Label(s: Status): string
  {
    match s
    case Pending => "待处理"
    case Success => "成功"
    case Skipped => "已跳过"
    case Unmatched => "未匹配"
    case PreviewConflict => "预览冲突"
    case TargetExists => "目标已存在"
    case Error(d) => ErrorPrefix + d
  }

  /** Reads a status back from its text, as `execute_rename` does when it
      compares the column with the constants and tests `startswith`. */
  function ParseLabel(t: string): (r: Option<Status>)
  {
    if t == "待处理" then Some(Pending)
    else if t == "成功" then Some(Success)
    else if t == "已跳过" then Some(Skipped)
    else if t == "未匹配" then Some(Unmatched)
    else if t == "预览冲突" then Some(PreviewConflict)
    else if t == "目标已存在" then Some(TargetExists)
    else if |t| >= |ErrorPrefix| && t[..|ErrorPrefix|] == ErrorPrefix then Some(Error(t[|ErrorPrefix|..]))
    else None
  }

  /** Keeping the status as text loses nothing: every status is read back
      as itself, so different statuses have different texts, and only an
      error status carries the error prefix. */
  lemma LabelRoundTrip(s: Status)
    ensures ParseLabel(Label(s)) == Some(s)
    ensures s.Error? <==> (|Label(s)| >= |ErrorPrefix| && Label(s)[..|ErrorPrefix|] == ErrorPrefix)
  {
    var t := Label(s);
    if s.Error? {
      assert t[0] == '错';
      assert t[..|ErrorPrefix|] == ErrorPrefix;
      assert t[|ErrorPrefix|..] == s.detail;
    } else {
      assert t[0] != '错';
    }
  }
}
