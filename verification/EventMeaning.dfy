/** What the window and the counters of the detection engine mean, as numbers of events with the kinds spelled out. */
module EventMeaning {
  import opened Processes
  import opened EventLog
  import opened SetSums
  import opened Options
  import opened Clock

  /** Event `i` is an open of `pid` at `cutoff` or later. */
  ghost function OpenedSince(log: Log, pid: Pid, cutoff: Time): int -> bool {
    i => 0 <= i < |log| && log[i].ev.kind == Open && log[i].ev.pid == pid && log[i].now >= cutoff
  }

  lemma {:induction false} SinceCounts(log: Log, pid: Pid, cutoff: Time, n: nat)
    requires n <= |log|
    ensures |Since(OpenTimes(log[..n], pid), cutoff)| == Number(n, OpenedSince(log, pid, cutoff))
  {
    if n == 0 {
      NumberGrows(0, OpenedSince(log, pid, cutoff));
    } else {
      NumberGrows(n - 1, OpenedSince(log, pid, cutoff));
      SinceCounts(log, pid, cutoff, n - 1);
      hide Number;
      assert log[..n][..n - 1] == log[..n - 1];
      var times := OpenTimes(log[..n - 1], pid);
      assert (times + [log[n - 1].now])[..|times|] == times && times + [] == times;
    }
  }

  /** Event `i` is an open, and its process has opened `threshold` files in the second up to it. */
  ghost predicate ReachesThreshold(log: Log, threshold: nat, i: int) {
    && 0 <= i < |log| && log[i].ev.kind == Open && threshold > 0
    && Number(i + 1, OpenedSince(log, log[i].ev.pid, log[i].now - 1_000_000_000)) == threshold
  }

  /** Right after an open the size of the window is the number of opens of that process in the last second. */
  lemma WindowIsLastSecond(log: Log, i: nat)
    requires i < |log| && log[i].ev.kind == Open
    ensures |Window(log[..i + 1], log[i].ev.pid)| == Number(i + 1, OpenedSince(log, log[i].ev.pid, log[i].now - 1_000_000_000))
  {
    var pid := log[i].ev.pid;
    assert log[..i + 1][..i] == log[..i];
    assert OpenTimes(log[..i + 1], pid) == OpenTimes(log[..i], pid) + [log[i].now];
    SinceCounts(log, pid, log[i].now - WINDOW, i + 1);
  }

  /** Event `i` is one that the counter stands for. */
  ghost predicate Counts(log: Log, c: Counter, i: int) {
    && 0 <= i < |log|
    && var ev := log[i].ev;
    match c
    case Opens => ev.kind == Open
    case Execs => ev.kind == Exec || ev.kind == Connect || ev.kind == Accept || ev.kind == SendTo || ev.kind == RecvFrom
    case FsOps => ev.kind == Mkdir || ev.kind == Unlink || ev.kind == Kill || ev.kind == Chmod
    case Alerts(threshold) => ReachesThreshold(log, threshold, i)
    case Extension(ext) => ev.kind == Open && ev.extension == Some(ext) && ext != ""
    case File(path) => !(ev.kind == Exec || ev.kind == Connect || ev.kind == Accept || ev.kind == SendTo || ev.kind == RecvFrom) && ev.file == Some(path)
  }

  lemma HitsMeans(log: Log, c: Counter, i: nat)
    requires i < |log|
    ensures Hits(log[..i + 1], c) <==> Counts(log, c, i)
  {
    assert log[..i + 1][i] == log[i];
    if log[i].ev.kind == Open {
      WindowIsLastSecond(log, i);
    }
    hide Window, Number, OpenedSince;
  }

  ghost function Counted(log: Log, c: Counter): int -> bool {
    i => Counts(log, c, i)
  }

  ghost function CountedOf(log: Log, c: Counter, pid: Pid): int -> bool {
    i => 0 <= i < |log| && log[i].ev.pid == pid && Counts(log, c, i)
  }

  lemma {:induction false} PrefixCounts(log: Log, c: Counter, pid: Pid, n: nat)
    requires n <= |log|
    ensures Count(log[..n], c) == Number(n, Counted(log, c)) && CountOf(log[..n], c, pid) == Number(n, CountedOf(log, c, pid))
  {
    hide Hits, Counts, Number;
    if n == 0 {
      NumberGrows(0, Counted(log, c));
      NumberGrows(0, CountedOf(log, c, pid));
    } else {
      PrefixCounts(log, c, pid, n - 1);
      HitsMeans(log, c, n - 1);
      assert log[..n][..n - 1] == log[..n - 1];
      NumberGrows(n - 1, Counted(log, c));
      NumberGrows(n - 1, CountedOf(log, c, pid));
    }
  }

  /** The counters of the engine are numbers of events, over all processes and for one. */
  lemma CountersCountEvents(log: Log, c: Counter, pid: Pid)
    ensures Count(log, c) == Number(|log|, Counted(log, c)) && CountOf(log, c, pid) == Number(|log|, CountedOf(log, c, pid))
  {
    PrefixCounts(log, c, pid, |log|);
    assert log[..|log|] == log;
  }
}
