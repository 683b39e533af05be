/** What the detection engine has been told so far, and what that history alone says about every
    process: how many opens, executions and alerts, and which opens fall in the sliding window. */
module EventLog {
  import opened Graphs
  import opened Processes
  import opened Options
  import opened Clock

  datatype Kind = Exec | Open | Connect | Accept | SendTo | RecvFrom | Mkdir | Unlink | Kill | Chmod {
    /** Network events count as executions. */
    predicate ExecLike() {
      Exec? || Connect? || Accept? || SendTo? || RecvFrom?
    }

    /** Mkdir, Unlink, Kill and Chmod. */
    predicate FileSystem() {
      !ExecLike() && !Open?
    }
  }

  datatype Event = Event(kind: Kind, pid: Pid, uid: nat, comm: string, file: Option<string>, extension: Option<string>)

  /** `WINDOW_SECS` in clock units. */
  const WINDOW: Time := SECOND

  datatype Entry = Entry(ev: Event, now: Time)

  type Log = seq<Entry>

  /** The clock never goes back. */
  ghost predicate Ordered(log: Log) {
    |log| < 2 || (Ordered(log[..|log| - 1]) && log[|log| - 2].now <= log[|log| - 1].now)
  }

  ghost predicate Rising(times: seq<Time>) {
    |times| < 2 || (Rising(times[..|times| - 1]) && times[|times| - 2] <= times[|times| - 1])
  }

  // ----- the sliding window -----

  ghost function OpenTimes(log: Log, pid: Pid): seq<Time> {
    if |log| == 0 then []
    else
      var last := log[|log| - 1];
      OpenTimes(log[..|log| - 1], pid) + if last.ev.kind == Open && last.ev.pid == pid then [last.now] else []
  }

  /** The entries no older than `cutoff`, in order. */
  ghost function Since(times: seq<Time>, cutoff: Time): seq<Time> {
    if |times| == 0 then []
    else Since(times[..|times| - 1], cutoff) + if times[|times| - 1] >= cutoff then [times[|times| - 1]] else []
  }

  /** The opens of `pid` no more than one window older than its latest. */
  ghost function Window(log: Log, pid: Pid): seq<Time> {
    var times := OpenTimes(log, pid);
    if |times| == 0 then [] else Since(times, times[|times| - 1] - WINDOW)
  }

  ghost predicate IsOpenOf(e: Entry, pid: Pid) {
    e.ev.kind == Open && e.ev.pid == pid
  }

  /** The latest event is an open that brings its process's window to the threshold exactly. */
  ghost predicate IsAlert(log: Log, threshold: nat) {
    |log| > 0 && threshold > 0 &&
    var ev := log[|log| - 1].ev;
    ev.kind == Open && |Window(log, ev.pid)| == threshold
  }

  lemma {:induction false} RisingBounds(times: seq<Time>)
    requires Rising(times) && times != []
    ensures forall t :: t in times ==> times[0] <= t <= times[|times| - 1]
  {
    if |times| > 1 {
      var before, last := times[..|times| - 1], times[|times| - 1];
      RisingBounds(before);
      assert times == before + [last] && before[|before| - 1] == times[|times| - 2];
      assert before[|before| - 1] in before;
    }
  }

  lemma RisingAppend(times: seq<Time>, t: Time)
    requires Rising(times) && forall x :: x in times ==> x <= t
    ensures Rising(times + [t])
  {
    assert (times + [t])[..|times|] == times;
    assert times != [] ==> times[|times| - 1] in times;
  }

  lemma {:induction false} RisingTail(times: seq<Time>)
    requires Rising(times) && times != []
    ensures Rising(times[1..])
  {
    if |times| > 2 {
      var before := times[..|times| - 1];
      RisingTail(before);
      assert before[1..] == times[1..][..|times| - 2];
    }
  }

  lemma {:induction false} OpenTimesRise(log: Log, pid: Pid)
    requires Ordered(log)
    ensures Rising(OpenTimes(log, pid))
    ensures forall t :: t in OpenTimes(log, pid) ==> log != [] && t <= log[|log| - 1].now
  {
    if log != [] {
      var before := log[..|log| - 1];
      OpenTimesRise(before, pid);
      forall t | t in OpenTimes(before, pid) ensures t <= log[|log| - 1].now {
        assert before[|before| - 1] == log[|log| - 2];
      }
      RisingAppend(OpenTimes(before, pid), log[|log| - 1].now);
      assert OpenTimes(before, pid) + [] == OpenTimes(before, pid);
    }
  }

  lemma {:induction false} SinceKeeps(times: seq<Time>, cutoff: Time)
    requires Rising(times)
    ensures Rising(Since(times, cutoff))
    ensures forall t :: t in Since(times, cutoff) <==> t in times && t >= cutoff
    ensures |Since(times, cutoff)| <= |times|
  {
    if times != [] {
      var before, last := times[..|times| - 1], times[|times| - 1];
      assert times == before + [last];
      RisingBounds(times);
      SinceKeeps(before, cutoff);
      assert forall t :: t in Since(before, cutoff) ==> t in times;
      RisingAppend(Since(before, cutoff), last);
      assert Since(before, cutoff) + [] == Since(before, cutoff);
    }
  }

  /** Moving the cutoff forward can be done on what the old cutoff kept. */
  lemma {:induction false} SinceAgain(times: seq<Time>, c: Time, d: Time)
    requires c <= d
    ensures Since(Since(times, c), d) == Since(times, d)
  {
    if times != [] {
      SinceAgain(times[..|times| - 1], c, d);
      var kept := Since(times[..|times| - 1], c);
      var last := times[|times| - 1];
      if last >= c {
        assert (kept + [last])[..|kept|] == kept;
      } else {
        assert Since(times, c) == kept;
      }
    }
  }

  lemma {:induction false} SinceOfFresh(times: seq<Time>, cutoff: Time)
    requires Rising(times) && (times != [] ==> times[0] >= cutoff)
    ensures Since(times, cutoff) == times
  {
    if times != [] {
      var before, last := times[..|times| - 1], times[|times| - 1];
      assert times == before + [last];
      RisingBounds(times);
      assert last in times && (before != [] ==> before[0] == times[0]);
      SinceOfFresh(before, cutoff);
    }
  }

  lemma {:induction false} SinceDropsStaleFront(times: seq<Time>, cutoff: Time)
    requires times != [] && times[0] < cutoff
    ensures Since(times, cutoff) == Since(times[1..], cutoff)
  {
    if |times| > 1 {
      SinceDropsStaleFront(times[..|times| - 1], cutoff);
      assert times[..|times| - 1][1..] == times[1..][..|times| - 2];
    }
  }

  lemma OpenTimesBefore(log: Log, e: Entry, pid: Pid)
    requires Ordered(log + [e])
    ensures Ordered(log) && forall t :: t in OpenTimes(log, pid) ==> t <= e.now
    ensures Rising(OpenTimes(log, pid))
  {
    assert (log + [e])[..|log|] == log;
    OpenTimesRise(log, pid);
  }

  /** One more open: the window loses what is now stale and gains the open. */
  lemma WindowAfterOpen(log: Log, e: Entry)
    requires Ordered(log + [e]) && e.ev.kind == Open
    ensures Window(log + [e], e.ev.pid) == Since(Window(log, e.ev.pid), e.now - WINDOW) + [e.now]
  {
    var pid := e.ev.pid;
    var times := OpenTimes(log, pid);
    OpenTimesBefore(log, e, pid);
    assert (log + [e])[..|log|] == log;
    assert (times + [e.now])[..|times|] == times;
    if times != [] {
      var last := times[|times| - 1];
      assert last in times;
      SinceKeeps(times, last - WINDOW);
      SinceAgain(times, last - WINDOW, e.now - WINDOW);
    }
  }

  lemma WindowRises(log: Log, e: Entry, pid: Pid)
    requires Ordered(log + [e])
    ensures Rising(Window(log, pid))
  {
    OpenTimesBefore(log, e, pid);
    var times := OpenTimes(log, pid);
    if times != [] {
      SinceKeeps(times, times[|times| - 1] - WINDOW);
    }
  }

  lemma WindowAfterOther(log: Log, e: Entry, pid: Pid)
    requires !IsOpenOf(e, pid)
    ensures Window(log + [e], pid) == Window(log, pid)
  {
    assert (log + [e])[..|log|] == log;
    assert OpenTimes(log + [e], pid) == OpenTimes(log, pid);
  }

  // ----- a burst always begins with an alert -----

  lemma {:induction false} NoEarlierOpens(log: Log, pid: Pid)
    requires forall i :: 0 <= i < |log| ==> !IsOpenOf(log[i], pid)
    ensures OpenTimes(log, pid) == []
  {
    if log != [] {
      NoEarlierOpens(log[..|log| - 1], pid);
    }
  }

  /** Between two opens of a process its window does not change. */
  lemma {:induction false} WindowConstantBetween(log: Log, pid: Pid, i: nat, j: nat)
    requires i <= j <= |log| && forall k :: i <= k < j ==> !IsOpenOf(log[k], pid)
    ensures Window(log[..j], pid) == Window(log[..i], pid)
    decreases j - i
  {
    if i < j {
      WindowConstantBetween(log, pid, i, j - 1);
      assert log[..j] == log[..j - 1] + [log[j - 1]];
      WindowAfterOther(log[..j - 1], log[j - 1], pid);
    }
  }

  /** The size of `pid`'s window right after event `i`. */
  ghost function SizeAfter(log: Log, pid: Pid, i: nat): nat
    requires i < |log|
  {
    |Window(log[..i + 1], pid)|
  }

  lemma WindowGainsAtMostOne(log: Log, e: Entry)
    requires Ordered(log + [e]) && e.ev.kind == Open
    ensures |Window(log + [e], e.ev.pid)| <= |Window(log, e.ev.pid)| + 1
  {
    WindowAfterOpen(log, e);
    WindowRises(log, e, e.ev.pid);
    SinceKeeps(Window(log, e.ev.pid), e.now - WINDOW);
  }

  /** From one open of a process to its next, the count rises by at most one; the first counts one. */
  lemma SizeStep(log: Log, pid: Pid, j: int, i: nat)
    requires Ordered(log) && -1 <= j < i < |log| && IsOpenOf(log[i], pid)
    requires forall k :: j < k < i ==> !IsOpenOf(log[k], pid)
    ensures SizeAfter(log, pid, i) <= 1 + if j >= 0 then SizeAfter(log, pid, j) else 0
  {
    OrderedPrefix(log, i + 1);
    assert log[..i + 1] == log[..i] + [log[i]];
    WindowGainsAtMostOne(log[..i], log[i]);
    WindowConstantBetween(log, pid, j + 1, i);
    if j < 0 {
      NoEarlierOpens([], pid);
      assert log[..0] == [];
    }
  }

  lemma PreviousOpen(log: Log, pid: Pid, i: nat) returns (j: int)
    requires i <= |log|
    ensures -1 <= j < i
    ensures j >= 0 ==> IsOpenOf(log[j], pid)
    ensures forall k :: j < k < i ==> !IsOpenOf(log[k], pid)
  {
    j := i - 1;
    while j >= 0 && !IsOpenOf(log[j], pid)
      invariant -1 <= j < i
      invariant forall k :: j < k < i ==> !IsOpenOf(log[k], pid)
    {
      j := j - 1;
    }
  }

  lemma {:induction false} OrderedPrefix(log: Log, n: nat)
    requires Ordered(log) && n <= |log|
    ensures Ordered(log[..n])
  {
    if n < |log| {
      OrderedPrefix(log[..|log| - 1], n);
      assert log[..|log| - 1][..n] == log[..n];
    } else {
      assert log[..n] == log;
    }
  }

  /** Testing the count for equality misses no burst: whenever a process's window is at or above the
      threshold after an open, an alert was raised at an earlier or the same open of that process, and
      the window has not been below the threshold at any of its opens in between. */
  lemma {:induction false} BurstBeginsWithAlert(log: Log, pid: Pid, threshold: nat, i: nat) returns (start: nat)
    requires Ordered(log) && threshold > 0 && i < |log|
    requires IsOpenOf(log[i], pid) && SizeAfter(log, pid, i) >= threshold
    ensures start <= i && IsOpenOf(log[start], pid) && IsAlert(log[..start + 1], threshold)
    ensures forall k :: start <= k <= i && IsOpenOf(log[k], pid) ==> SizeAfter(log, pid, k) >= threshold
    decreases i
  {
    hide Window, Ordered;
    if SizeAfter(log, pid, i) == threshold {
      start := i;
    } else {
      var j := PreviousOpen(log, pid, i);
      SizeStep(log, pid, j, i);
      start := BurstBeginsWithAlert(log, pid, threshold, j);
    }
  }

  // ----- counting -----

  /** The processes seen so far. */
  ghost function Pids(log: Log): set<Pid> {
    if |log| == 0 then {} else Pids(log[..|log| - 1]) + {log[|log| - 1].ev.pid}
  }

  /** The counters the engine keeps, as questions about the history. */
  datatype Counter =
    | Opens
    | Execs
    | FsOps
    | Alerts(threshold: nat)
    | Extension(ext: string)
    | File(path: string)

  /** The latest event moves the counter. */
  ghost predicate Hits(log: Log, c: Counter)
    requires |log| > 0
  {
    var ev := log[|log| - 1].ev;
    match c
    case Opens => ev.kind == Open
    case Execs => ev.kind.ExecLike()
    case FsOps => ev.kind.FileSystem()
    case Alerts(threshold) => IsAlert(log, threshold)
    case Extension(ext) => ev.kind == Open && ev.extension == Some(ext) && ext != ""
    case File(path) => (ev.kind == Open || ev.kind.FileSystem()) && ev.file == Some(path)
  }

  ghost function Count(log: Log, c: Counter): nat {
    if |log| == 0 then 0
    else Count(log[..|log| - 1], c) + if Hits(log, c) then 1 else 0
  }

  ghost function CountOf(log: Log, c: Counter, pid: Pid): nat {
    if |log| == 0 then 0
    else CountOf(log[..|log| - 1], c, pid) + if Hits(log, c) && log[|log| - 1].ev.pid == pid then 1 else 0
  }

  lemma CountGrows(log: Log, e: Entry, c: Counter, pid: Pid)
    ensures Count(log + [e], c) == Count(log, c) + if Hits(log + [e], c) then 1 else 0
    ensures CountOf(log + [e], c, pid) == CountOf(log, c, pid) + if Hits(log + [e], c) && e.ev.pid == pid then 1 else 0
  {
    assert (log + [e])[..|log|] == log;
  }

  ghost function SumOver(log: Log, c: Counter, pids: seq<Pid>): nat {
    if pids == [] then 0 else CountOf(log, c, pids[0]) + SumOver(log, c, pids[1..])
  }

  lemma {:induction false} SumOverGrows(log: Log, e: Entry, c: Counter, pids: seq<Pid>)
    requires NoDuplicates(pids)
    ensures SumOver(log + [e], c, pids)
         == SumOver(log, c, pids) + if Hits(log + [e], c) && e.ev.pid in pids then 1 else 0
  {
    if pids != [] {
      assert NoDuplicates(pids[1..]) && pids[0] !in pids[1..];
      SumOverGrows(log, e, c, pids[1..]);
      CountGrows(log, e, c, pids[0]);
    }
  }

  lemma {:induction false} SumOverEmpty(c: Counter, pids: seq<Pid>)
    ensures SumOver([], c, pids) == 0
  {
    if pids != [] {
      SumOverEmpty(c, pids[1..]);
    }
  }

  /** Adding a counter up over all processes gives the count over all events. */
  lemma {:induction false} SumOverIsCount(log: Log, c: Counter, pids: seq<Pid>)
    requires NoDuplicates(pids) && forall pid :: pid in Pids(log) ==> pid in pids
    ensures SumOver(log, c, pids) == Count(log, c)
  {
    if log == [] {
      SumOverEmpty(c, pids);
    } else {
      var before, e := log[..|log| - 1], log[|log| - 1];
      assert log == before + [e];
      SumOverIsCount(before, c, pids);
      SumOverGrows(before, e, c, pids);
      CountGrows(before, e, c, 0);
    }
  }
}
