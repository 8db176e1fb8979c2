/** `operation_log`: the in-memory list of log lines, bounded to the 1000
    most recent. */
module OperationLog {

  /** The bound `log_operation` keeps the list under. */
  const MaxLogEntries: nat := 1000

  /** One `log_operation` call: append, then drop the oldest line when the
      list has grown past the bound. */
  function Appended(log: seq<string>, m: string): seq<string>
  {
    var grown := log + [m];
    if |grown| > MaxLogEntries then grown[1..] else grown
  }

  /** Several `log_operation` calls, in order. */
  function AppendedAll(log: seq<string>, ms: seq<string>): seq<string>
  {
    if ms == [] then log
    else Appended(AppendedAll(log, ms[..|ms| - 1]), ms[|ms| - 1])
  }

  /** The last `MaxLogEntries` lines of `s`, or all of them when there are
      fewer. */
  function Latest(s: seq<string>): (r: seq<string>)
    ensures |r| <= MaxLogEntries && |r| <= |s|
    ensures |s| <= MaxLogEntries ==> r == s
    ensures r == s[|s| - |r|..]
  {
    if |s| <= MaxLogEntries then s else s[|s| - MaxLogEntries..]
  }

  /** Appending to a bounded log keeps it bounded. */
  lemma AppendedBounded(log: seq<string>, m: string)
    requires |log| <= MaxLogEntries
    ensures |Appended(log, m)| <= MaxLogEntries
    ensures Appended(log, m)[|Appended(log, m)| - 1] == m
  {
  }

  lemma AppendedLatest(s: seq<string>, m: string)
    ensures Appended(Latest(s), m) == Latest(s + [m])
  {
    if |s| > MaxLogEntries {
      var t := s[|s| - MaxLogEntries..];
      assert (t + [m])[1..] == (s + [m])[|s| + 1 - MaxLogEntries..];
    } else if |s| == MaxLogEntries {
      assert (s + [m])[1..] == (s + [m])[|s| + 1 - MaxLogEntries..];
    }
  }

  /** Starting from a log within the bound, any run of `log_operation` calls
      leaves exactly the most recent 1000 lines of the whole history, in
      order: old lines fall out one at a time from the front. */
  lemma {:induction false} LogKeepsLatest(log: seq<string>, ms: seq<string>)
    requires |log| <= MaxLogEntries
    ensures AppendedAll(log, ms) == Latest(log + ms)
  {
    if ms != [] {
      var n := |ms| - 1;
      LogKeepsLatest(log, ms[..n]);
      AppendedLatest(log + ms[..n], ms[n]);
      assert log + ms == (log + ms[..n]) + [ms[n]];
    }
  }

  lemma AppendedAllSnoc(log: seq<string>, ms: seq<string>, m: string)
    ensures AppendedAll(log, ms + [m]) == Appended(AppendedAll(log, ms), m)
  {
    assert (ms + [m])[..|ms|] == ms;
  }
}
