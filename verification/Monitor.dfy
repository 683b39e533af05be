/** The detection engine: one event at a time updates per-process statistics, sliding windows and
    several counters that repeat each other. The invariant ties every field to the history of events. */
module Monitor {
  import opened Graphs
  import opened Sorting
  import opened Processes
  import opened EventLog
  import opened Options
  import opened Clock
  import FileRanking
  import ProcessTree

  datatype RateSample = RateSample(execCount: nat, openCount: nat, alertCount: nat)

  datatype Output =
    | EventOut(ev: Event)
    | AlertOut(pid: Pid, uid: nat, comm: string, opens: nat)
    | ActionOut(pid: Pid, comm: string, success: bool)

  /** What the reader thread sends, with what the outside world answers while it is handled: the
      clock, the parent found in /proc, and whether a kill succeeded. */
  datatype Msg =
    | Lost(n: nat)
    | Arrived(ev: Event, now: Time, ppid: Option<Pid>, killed: bool)

  /** Samples kept for the sparklines. */
  const HISTORY: nat := 120

  function Get(m: map<string, nat>, k: string): nat {
    if k in m then m[k] else 0
  }

  function WindowOf(windows: map<Pid, seq<Time>>, pid: Pid): seq<Time> {
    if pid in windows then windows[pid] else []
  }

  /** `stats.entry(pid).or_default()`. */
  function StatsFor(stats: map<Pid, ProcStats>, pid: Pid): ProcStats {
    if pid in stats then stats[pid] else NewStats
  }

  function Bump(m: map<string, nat>, k: string): (r: map<string, nat>)
    ensures forall j :: Get(r, j) == Get(m, j) + if j == k then 1 else 0
  {
    m[k := Get(m, k) + 1]
  }

  ghost function LastComm(log: Log, pid: Pid): string {
    if |log| == 0 then ""
    else if log[|log| - 1].ev.pid == pid then log[|log| - 1].ev.comm
    else LastComm(log[..|log| - 1], pid)
  }

  /** The statistics of one process are what the history says about it. */
  ghost predicate StatsMatch(s: ProcStats, log: Log, threshold: nat, pid: Pid) {
    && s.pid == pid && s.comm == LastComm(log, pid)
    && s.windowOpens == |Window(log, pid)|
    && s.totalOpens == CountOf(log, Opens, pid)
    && s.totalExecs == CountOf(log, Execs, pid)
    && s.alerts == CountOf(log, Alerts(threshold), pid)
    && forall ext :: Get(s.extensions, ext) == CountOf(log, Extension(ext), pid)
  }

  ghost predicate AllStatsMatch(stats: map<Pid, ProcStats>, log: Log, threshold: nat) {
    && stats.Keys == Pids(log)
    && forall pid :: pid in stats ==> StatsMatch(stats[pid], log, threshold, pid)
  }

  /** A process's recorded parent is what the parent table has for it. */
  ghost predicate ParentsMatch(stats: map<Pid, ProcStats>, ppids: map<Pid, Pid>) {
    && ppids.Keys <= stats.Keys
    && forall pid :: pid in stats ==> stats[pid].ppid == if pid in ppids then ppids[pid] else 0
  }

  ghost predicate TablesMatch(windows: map<Pid, seq<Time>>, fileCounts: map<string, nat>, extCounts: map<string, nat>, log: Log) {
    && (forall pid :: WindowOf(windows, pid) == Window(log, pid))
    && (forall path :: Get(fileCounts, path) == Count(log, File(path)))
    && forall ext :: Get(extCounts, ext) == Count(log, Extension(ext))
  }

  ghost function ExecSum(samples: seq<RateSample>): nat {
    if |samples| == 0 then 0 else samples[0].execCount + ExecSum(samples[1..])
  }

  ghost function OpenSum(samples: seq<RateSample>): nat {
    if |samples| == 0 then 0 else samples[0].openCount + OpenSum(samples[1..])
  }

  ghost function AlertSum(samples: seq<RateSample>): nat {
    if |samples| == 0 then 0 else samples[0].alertCount + AlertSum(samples[1..])
  }

  /** The engine's fields as one value; `samples` are the rate samples ever taken. */
  datatype Snapshot = Snapshot(
    stats: map<Pid, ProcStats>,
    windows: map<Pid, seq<Time>>,
    ppids: map<Pid, Pid>,
    fileCounts: map<string, nat>,
    extCounts: map<string, nat>,
    samples: seq<RateSample>,
    tickExecs: nat,
    tickOpens: nat,
    tickAlerts: nat)

  /** Every field agrees with the history. */
  ghost predicate InStep(v: Snapshot, log: Log, threshold: nat) {
    && AllStatsMatch(v.stats, log, threshold)
    && ParentsMatch(v.stats, v.ppids)
    && TablesMatch(v.windows, v.fileCounts, v.extCounts, log)
    && TicksMatch(v.samples, v.tickExecs, v.tickOpens, v.tickAlerts, log, threshold)
  }

  /** Rate samples and the running tick together account for every event. */
  ghost predicate TicksMatch(samples: seq<RateSample>, tickExecs: nat, tickOpens: nat, tickAlerts: nat, log: Log, threshold: nat) {
    && ExecSum(samples) + tickExecs == Count(log, Execs)
    && OpenSum(samples) + tickOpens == Count(log, Opens) + Count(log, FsOps)
    && AlertSum(samples) + tickAlerts == Count(log, Alerts(threshold))
  }

  lemma {:induction false} SumsAppend(a: seq<RateSample>, s: RateSample)
    ensures ExecSum(a + [s]) == ExecSum(a) + s.execCount
    ensures OpenSum(a + [s]) == OpenSum(a) + s.openCount
    ensures AlertSum(a + [s]) == AlertSum(a) + s.alertCount
  {
    if a != [] {
      assert (a + [s])[1..] == a[1..] + [s];
      SumsAppend(a[1..], s);
    }
  }

  ghost function AlertReports(ev: Event, threshold: nat, autoKill: bool, alerted: bool, killed: bool): seq<Output> {
    if alerted
    then [AlertOut(ev.pid, ev.uid, ev.comm, threshold)] + (if autoKill then [ActionOut(ev.pid, ev.comm, killed)] else [])
    else []
  }

  /** The events among the messages, in order. */
  ghost function Arrivals(msgs: seq<Msg>): Log {
    if |msgs| == 0 then []
    else
      var m := msgs[|msgs| - 1];
      Arrivals(msgs[..|msgs| - 1]) + if m.Arrived? then [Entry(m.ev, m.now)] else []
  }

  /** The parent table after the messages. */
  ghost function Parents(ppids: map<Pid, Pid>, msgs: seq<Msg>): map<Pid, Pid> {
    if |msgs| == 0 then ppids
    else
      var before, m := Parents(ppids, msgs[..|msgs| - 1]), msgs[|msgs| - 1];
      if m.Arrived? then NextPpids(before, m.ev.pid, m.ppid) else before
  }

  ghost function LostIn(msgs: seq<Msg>): nat {
    if |msgs| == 0 then 0
    else LostIn(msgs[..|msgs| - 1]) + if msgs[|msgs| - 1].Lost? then msgs[|msgs| - 1].n else 0
  }

  /** What a run of messages makes the engine report, after the history `log`. */
  ghost function AllReports(log: Log, msgs: seq<Msg>, threshold: nat, autoKill: bool): seq<Output> {
    if |msgs| == 0 then []
    else
      var m := msgs[|msgs| - 1];
      AllReports(log, msgs[..|msgs| - 1], threshold, autoKill)
      + if m.Arrived? then Reports(log + Arrivals(msgs), threshold, autoKill, m.killed) else []
  }

  /** What the latest event makes the engine report. */
  ghost function Reports(log: Log, threshold: nat, autoKill: bool, killed: bool): seq<Output>
    requires |log| > 0
  {
    var ev := log[|log| - 1].ev;
    AlertReports(ev, threshold, autoKill, IsAlert(log, threshold), killed) + [EventOut(ev)]
  }

  /** An event, ahead of it the alert with the size of the window, and between the two the kill. */
  ghost function Block(ev: Event, size: nat, alerted: bool, kill: bool, killed: bool): seq<Output> {
    if alerted && kill then [AlertOut(ev.pid, ev.uid, ev.comm, size), ActionOut(ev.pid, ev.comm, killed), EventOut(ev)]
    else if alerted then [AlertOut(ev.pid, ev.uid, ev.comm, size), EventOut(ev)]
    else [EventOut(ev)]
  }

  lemma ReportsAre(log: Log, threshold: nat, autoKill: bool, killed: bool)
    requires |log| > 0
    ensures var ev := log[|log| - 1].ev;
            Reports(log, threshold, autoKill, killed) ==
              Block(ev, |Window(log, ev.pid)|, ev.kind == Open && threshold > 0 && |Window(log, ev.pid)| == threshold, autoKill, killed)
  {
    hide Window;
  }

  // ----- what one event changes in the history -----

  lemma LastEntry(log: Log, e: Entry)
    ensures (log + [e])[..|log|] == log && (log + [e])[|log|] == e
  {
  }

  lemma {:induction false} StrangerCounts(log: Log, c: Counter, pid: Pid)
    requires pid !in Pids(log)
    ensures CountOf(log, c, pid) == 0 && OpenTimes(log, pid) == [] && LastComm(log, pid) == ""
  {
    if log != [] {
      StrangerCounts(log[..|log| - 1], c, pid);
    }
  }

  /** A process never heard of has default statistics. */
  lemma StrangerMatchesDefault(log: Log, threshold: nat, pid: Pid)
    requires pid !in Pids(log)
    ensures StatsMatch(NewStats.(pid := pid), log, threshold, pid)
  {
    StrangerCounts(log, Opens, pid);
    StrangerCounts(log, Execs, pid);
    StrangerCounts(log, Alerts(threshold), pid);
    forall ext ensures CountOf(log, Extension(ext), pid) == 0 {
      StrangerCounts(log, Extension(ext), pid);
    }
  }

  lemma OthersUnchanged(s: ProcStats, log: Log, e: Entry, threshold: nat, pid: Pid)
    requires StatsMatch(s, log, threshold, pid) && pid != e.ev.pid
    ensures StatsMatch(s, log + [e], threshold, pid)
  {
    LastEntry(log, e);
    WindowAfterOther(log, e, pid);
    CountGrows(log, e, Opens, pid);
    CountGrows(log, e, Execs, pid);
    CountGrows(log, e, Alerts(threshold), pid);
    forall ext ensures CountOf(log + [e], Extension(ext), pid) == CountOf(log, Extension(ext), pid) {
      CountGrows(log, e, Extension(ext), pid);
    }
  }

  function BumpIf(m: map<string, nat>, k: Option<string>): (r: map<string, nat>)
    ensures forall j :: Get(r, j) == Get(m, j) + if k == Some(j) then 1 else 0
  {
    if k.Some? then Bump(m, k.value) else m
  }

  /** The extension an open is counted under. */
  function CountedExtension(ev: Event): Option<string> {
    if ev.kind == Open && ev.extension != Some("") then ev.extension else None
  }

  /** The statistics record after one event of its process. */
  function NextStats(s: ProcStats, ev: Event, unresolved: bool, ppid: Option<Pid>, alerted: bool, windowSize: nat): ProcStats {
    ProcStats(
      ev.pid,
      if unresolved && ppid.Some? then ppid.value else s.ppid,
      ev.comm,
      if ev.kind == Open then windowSize else s.windowOpens,
      s.totalOpens + (if ev.kind == Open then 1 else 0),
      s.totalExecs + (if ev.kind.ExecLike() then 1 else 0),
      s.alerts + (if alerted then 1 else 0),
      BumpIf(s.extensions, CountedExtension(ev)))
  }

  lemma NothingCounted(m: map<string, nat>, ev: Event)
    ensures ev.kind != Open ==> BumpIf(m, CountedExtension(ev)) == m
    ensures BumpIf(m, None) == m
  {
  }

  /** The statistics of the process the event is about. */
  lemma OwnStats(s: ProcStats, log: Log, e: Entry, threshold: nat, unresolved: bool, ppid: Option<Pid>)
    requires StatsMatch(s, log, threshold, e.ev.pid)
    ensures StatsMatch(NextStats(s, e.ev, unresolved, ppid, IsAlert(log + [e], threshold), |Window(log + [e], e.ev.pid)|),
                       log + [e], threshold, e.ev.pid)
  {
    var pid := e.ev.pid;
    LastEntry(log, e);
    CountGrows(log, e, Opens, pid);
    CountGrows(log, e, Execs, pid);
    CountGrows(log, e, Alerts(threshold), pid);
    if e.ev.kind != Open {
      WindowAfterOther(log, e, pid);
    }
    forall ext ensures Get(BumpIf(s.extensions, CountedExtension(e.ev)), ext) == CountOf(log + [e], Extension(ext), pid) {
      CountGrows(log, e, Extension(ext), pid);
    }
  }

  /** The tables shared by all processes. */
  lemma SharedTables(windows: map<Pid, seq<Time>>, fileCounts: map<string, nat>, extCounts: map<string, nat>, log: Log, e: Entry,
                     windows': map<Pid, seq<Time>>, fileCounts': map<string, nat>, extCounts': map<string, nat>)
    requires TablesMatch(windows, fileCounts, extCounts, log)
    requires windows' == if e.ev.kind == Open then windows[e.ev.pid := Window(log + [e], e.ev.pid)] else windows
    requires fileCounts' == BumpIf(fileCounts, if e.ev.kind == Open || e.ev.kind.FileSystem() then e.ev.file else None)
    requires extCounts' == BumpIf(extCounts, CountedExtension(e.ev))
    ensures TablesMatch(windows', fileCounts', extCounts', log + [e])
  {
    LastEntry(log, e);
    forall pid ensures WindowOf(windows', pid) == Window(log + [e], pid) {
      if !IsOpenOf(e, pid) {
        WindowAfterOther(log, e, pid);
      }
    }
    forall path ensures Get(fileCounts', path) == Count(log + [e], File(path)) {
      CountGrows(log, e, File(path), 0);
    }
    forall ext ensures Get(extCounts', ext) == Count(log + [e], Extension(ext)) {
      CountGrows(log, e, Extension(ext), 0);
    }
  }

  method DropStale(window0: seq<Time>, cutoff: Time) returns (window: seq<Time>)
    requires Rising(window0)
    ensures window == Since(window0, cutoff)
  {
    window := window0;
    while window != [] && window[0] < cutoff
      invariant Rising(window) && Since(window, cutoff) == Since(window0, cutoff)
    {
      SinceDropsStaleFront(window, cutoff);
      RisingTail(window);
      window := window[1..];
    }
    SinceOfFresh(window, cutoff);
  }

  class Monitor {
    const threshold: nat
    const autoKill: bool
    var stats: map<Pid, ProcStats>
    var windows: map<Pid, seq<Time>>
    var pidToPpid: map<Pid, Pid>
    var fileCounts: map<string, nat>
    var extCounts: map<string, nat>
    var rateHistory: seq<RateSample>
    var tickExecs: nat
    var tickOpens: nat
    var tickAlerts: nat
    var tickStart: Time
    var totalEvents: nat
    var totalLost: nat
    /** Every event handled, and the rate samples no longer kept. */
    ghost var log: Log
    ghost var evicted: seq<RateSample>

    ghost predicate Valid()
      reads this
    {
      && Ordered(log)
      && InStep(View(), log, threshold)
      && |rateHistory| <= HISTORY && (|evicted| > 0 ==> |rateHistory| == HISTORY)
    }

    ghost function View(): Snapshot
      reads this
    {
      Snapshot(stats, windows, pidToPpid, fileCounts, extCounts, evicted + rateHistory, tickExecs, tickOpens, tickAlerts)
    }

    constructor (threshold: nat, autoKill: bool, now: Time)
      ensures Valid() && log == [] && evicted == [] && rateHistory == []
      ensures this.threshold == threshold && this.autoKill == autoKill && tickStart == now
      ensures totalEvents == totalLost == 0
    {
      this.threshold, this.autoKill := threshold, autoKill;
      stats, windows, pidToPpid, fileCounts, extCounts := map[], map[], map[], map[], map[];
      rateHistory, tickExecs, tickOpens, tickAlerts, tickStart := [], 0, 0, 0, now;
      totalEvents, totalLost := 0, 0;
      log, evicted := [], [];
    }

    /** The body of `handle_event`. `window` is what the process's window becomes if the event is an open. */
    method ApplyEvent(ev: Event, now: Time, ppid: Option<Pid>, killed: bool, ghost window: seq<Time>)
      returns (outputs: seq<Output>)
      requires Rising(WindowOf(windows, ev.pid))
      requires ev.kind == Open ==> window == Since(WindowOf(windows, ev.pid), now - WINDOW) + [now]
      modifies `stats, `windows, `pidToPpid, `fileCounts, `extCounts, `tickExecs, `tickOpens, `tickAlerts
      ensures View() == NextView(old(View()), ev, ppid, Alerting(ev, window), window)
      ensures outputs == AlertReports(ev, threshold, autoKill, Alerting(ev, window), killed) + [EventOut(ev)]
    {
      hide BumpIf, CountedExtension, AlertReports, Alerting, Since, Rising;
      var s := StatsFor(stats, ev.pid).(pid := ev.pid, comm := ev.comm);
      s := ResolveParent(ppid, s);
      s, outputs := MatchKind(ev, now, killed, s, window);
      stats := stats[ev.pid := s];
      outputs := outputs + [EventOut(ev)];
    }

    /** The `match` on the event's kind. */
    method MatchKind(ev: Event, now: Time, killed: bool, s0: ProcStats, ghost window: seq<Time>)
      returns (s: ProcStats, outputs: seq<Output>)
      requires Rising(WindowOf(windows, ev.pid))
      requires ev.kind == Open ==> window == Since(WindowOf(windows, ev.pid), now - WINDOW) + [now]
      modifies `windows, `fileCounts, `extCounts, `tickExecs, `tickOpens, `tickAlerts
      ensures windows == if ev.kind == Open then old(windows)[ev.pid := window] else old(windows)
      ensures fileCounts == BumpIf(old(fileCounts), if ev.kind == Open || ev.kind.FileSystem() then ev.file else None)
      ensures extCounts == BumpIf(old(extCounts), CountedExtension(ev))
      ensures tickExecs == old(tickExecs) + if ev.kind.ExecLike() then 1 else 0
      ensures tickOpens == old(tickOpens) + if ev.kind.ExecLike() then 0 else 1
      ensures tickAlerts == old(tickAlerts) + if Alerting(ev, window) then 1 else 0
      ensures outputs == AlertReports(ev, threshold, autoKill, Alerting(ev, window), killed)
      ensures s0.pid == ev.pid && s0.comm == ev.comm ==> s == NextStats(s0, ev, false, None, Alerting(ev, window), |window|)
    {
      hide BumpIf, CountedExtension, Since, Rising;
      NothingCounted(s0.extensions, ev);
      NothingCounted(extCounts, ev);
      NothingCounted(fileCounts, ev);
      s, outputs := s0, [];
      if ev.kind.ExecLike() {
        s := s.(totalExecs := s.totalExecs + 1);
        tickExecs := tickExecs + 1;
      } else if ev.kind == Open {
        s, outputs := TrackOpen(ev, now, killed, s, window);
      } else {
        fileCounts := BumpIf(fileCounts, ev.file);
        tickOpens := tickOpens + 1;
      }
    }

    /** The parent is asked for until an answer has been stored. */
    method ResolveParent(ppid: Option<Pid>, s0: ProcStats) returns (s: ProcStats)
      modifies `pidToPpid
      ensures pidToPpid == NextPpids(old(pidToPpid), s0.pid, ppid)
      ensures s == if s0.pid !in old(pidToPpid) && ppid.Some? then s0.(ppid := ppid.value) else s0
    {
      s := s0;
      if s.pid !in pidToPpid && ppid.Some? {
        pidToPpid := pidToPpid[s.pid := ppid.value];
        s := s.(ppid := ppid.value);
      }
    }

    /** The arm for opens: extension and file counts, the sliding window, the alert and the kill. */
    method TrackOpen(ev: Event, now: Time, killed: bool, s0: ProcStats, ghost window: seq<Time>)
      returns (s: ProcStats, outputs: seq<Output>)
      requires Rising(WindowOf(windows, ev.pid)) && ev.kind == Open
      requires window == Since(WindowOf(windows, ev.pid), now - WINDOW) + [now]
      modifies `extCounts, `fileCounts, `windows, `tickOpens, `tickAlerts
      ensures windows == old(windows)[ev.pid := window]
      ensures fileCounts == BumpIf(old(fileCounts), ev.file)
      ensures extCounts == BumpIf(old(extCounts), CountedExtension(ev))
      ensures tickOpens == old(tickOpens) + 1
      ensures tickAlerts == old(tickAlerts) + if Alerting(ev, window) then 1 else 0
      ensures outputs == AlertReports(ev, threshold, autoKill, Alerting(ev, window), killed)
      ensures s == s0.(
                totalOpens := s0.totalOpens + 1,
                windowOpens := |window|,
                alerts := s0.alerts + (if Alerting(ev, window) then 1 else 0),
                extensions := BumpIf(s0.extensions, CountedExtension(ev)))
    {
      s := s0.(extensions := BumpIf(s0.extensions, CountedExtension(ev)));
      extCounts := BumpIf(extCounts, CountedExtension(ev));
      fileCounts := BumpIf(fileCounts, ev.file);
      var kept := DropStale(WindowOf(windows, ev.pid), now - WINDOW);
      kept := kept + [now];
      windows := windows[ev.pid := kept];
      s := s.(totalOpens := s.totalOpens + 1, windowOpens := |kept|);
      tickOpens := tickOpens + 1;
      outputs := [];
      if threshold > 0 && s.windowOpens == threshold {
        s := s.(alerts := s.alerts + 1);
        tickAlerts := tickAlerts + 1;
        outputs := [AlertOut(ev.pid, ev.uid, ev.comm, s.windowOpens)]
        + if autoKill then [ActionOut(ev.pid, ev.comm, killed)] else [];
      }
    }

    ghost predicate Alerting(ev: Event, window: seq<Time>) {
      ev.kind == Open && threshold > 0 && |window| == threshold
    }

    /** Whatever the clock, the event and the answers from outside, the engine stays in step with the
        history, and reports the event once, after its alert and kill if there are any. */
    method HandleEvent(ev: Event, now: Time, ppid: Option<Pid>, killed: bool)
      returns (outputs: seq<Output>)
      requires Valid() && Ordered(log + [Entry(ev, now)])
      modifies `stats, `windows, `pidToPpid, `fileCounts, `extCounts, `tickExecs, `tickOpens, `tickAlerts, `log
      ensures Valid() && log == old(log) + [Entry(ev, now)]
      ensures outputs == Reports(log, threshold, autoKill, killed)
      ensures outputs == Block(ev, |Window(log, ev.pid)|, ev.kind == Open && threshold > 0 && |Window(log, ev.pid)| == threshold, autoKill, killed)
      ensures pidToPpid == NextPpids(old(pidToPpid), ev.pid, ppid)
    {
      hide InStep, Window, Rising, Block, AlertReports, NextTable, NextPpids, BumpIf;
      ghost var e, log0, view0 := Entry(ev, now), log, View();
      ghost var window := Window(log + [e], ev.pid);
      WindowsFollow(e);
      outputs := ApplyEvent(ev, now, ppid, killed, window);
      log := log + [e];
      LastEntry(log0, e);
      InStepFollows(view0, log0, e, threshold, ppid);
      ReportsAre(log, threshold, autoKill, killed);
    }

    /** Drains the channel, then takes a rate sample if a second has passed since the last one. `now` and
        `restart` are the clock readings of the test and of the restart. */
    method Poll(msgs: seq<Msg>, now: Time, restart: Time) returns (outputs: seq<Output>)
      requires Valid() && Ordered(log + Arrivals(msgs))
      modifies this
      ensures Valid() && log == old(log) + Arrivals(msgs)
      ensures outputs == AllReports(old(log), msgs, threshold, autoKill)
      ensures pidToPpid == Parents(old(pidToPpid), msgs)
      ensures totalEvents == old(totalEvents) + |Arrivals(msgs)| && totalLost == old(totalLost) + LostIn(msgs)
      ensures tickStart == if now - old(tickStart) >= SECOND then restart else old(tickStart)
      ensures now - old(tickStart) < SECOND ==> evicted + rateHistory == old(evicted + rateHistory)
      ensures now - old(tickStart) >= SECOND ==>
                && tickExecs == tickOpens == tickAlerts == 0
                && |evicted + rateHistory| == |old(evicted + rateHistory)| + 1
                && old(evicted + rateHistory) <= evicted + rateHistory
                && ExecSum(evicted + rateHistory) == Count(log, Execs)
                && OpenSum(evicted + rateHistory) == Count(log, Opens) + Count(log, FsOps)
                && AlertSum(evicted + rateHistory) == Count(log, Alerts(threshold))
    {
      outputs := Drain(msgs);
      if now - tickStart >= SECOND {
        TakeSample();
        tickStart := restart;
      }
    }

    method Drain(msgs: seq<Msg>) returns (outputs: seq<Output>)
      requires Valid() && Ordered(log + Arrivals(msgs))
      modifies this
      ensures Valid() && log == old(log) + Arrivals(msgs)
      ensures outputs == AllReports(old(log), msgs, threshold, autoKill)
      ensures pidToPpid == Parents(old(pidToPpid), msgs)
      ensures totalEvents == old(totalEvents) + |Arrivals(msgs)| && totalLost == old(totalLost) + LostIn(msgs)
      ensures tickStart == old(tickStart) && rateHistory == old(rateHistory) && evicted == old(evicted)
    {
      hide Reports, Block, Window, InStep, Arrivals, LostIn, AllReports, Parents, NextPpids, Ordered;
      outputs := [];
      NoMessage(log, threshold, autoKill);
      NoParents(pidToPpid);
      for i := 0 to |msgs|
        invariant Valid() && log == old(log) + Arrivals(msgs[..i])
        invariant outputs == AllReports(old(log), msgs[..i], threshold, autoKill)
        invariant pidToPpid == Parents(old(pidToPpid), msgs[..i])
        invariant totalEvents == old(totalEvents) + |Arrivals(msgs[..i])| && totalLost == old(totalLost) + LostIn(msgs[..i])
        invariant tickStart == old(tickStart) && rateHistory == old(rateHistory) && evicted == old(evicted)
      {
        OneMoreMessage(old(log), msgs, i, threshold, autoKill);
        OneMoreParent(old(pidToPpid), msgs, i);
        match msgs[i] {
          case Lost(n) =>
            totalLost := totalLost + n;
          case Arrived(ev, now, ppid, killed) =>
            totalEvents := totalEvents + 1;
            assert log + [Entry(ev, now)] == old(log) + Arrivals(msgs[..i + 1]);
            ArrivalsPrefix(old(log), msgs, i + 1);
            var reported := HandleEvent(ev, now, ppid, killed);
            outputs := outputs + reported;
        }
      }
      assert msgs[..|msgs|] == msgs;
    }

    /** Pushes the running tick as a sample; beyond 120 the oldest sample goes. */
    method TakeSample()
      requires Valid()
      modifies `rateHistory, `tickExecs, `tickOpens, `tickAlerts, `evicted
      ensures Valid() && tickExecs == tickOpens == tickAlerts == 0
      ensures evicted + rateHistory == old(evicted + rateHistory) + [RateSample(old(tickExecs), old(tickOpens), old(tickAlerts))]
    {
      ghost var samples := evicted + rateHistory;
      var sample := RateSample(tickExecs, tickOpens, tickAlerts);
      SumsAppend(samples, sample);
      rateHistory := rateHistory + [sample];
      assert evicted + rateHistory == samples + [sample];
      if |rateHistory| > HISTORY {
        evicted := evicted + [rateHistory[0]];
        rateHistory := rateHistory[1..];
        assert evicted + rateHistory == samples + [sample];
      }
      tickExecs, tickOpens, tickAlerts := 0, 0, 0;
    }

    /** Unless process 0 is its own ancestor, the tree built is the exact tree of the current tables. */
    method BuildProcessTree() returns (forest: seq<ProcessTree.ProcessNode>)
      requires Valid() && !ProcessTree.Table(stats, pidToPpid).OnParentCycle(0)
      ensures ProcessTree.IsForest(ProcessTree.Table(stats, pidToPpid), forest)
    {
      forest := ProcessTree.BuildProcessTree(ProcessTree.Table(stats, pidToPpid));
    }

    /** The list holds true counts, and no file left out was used more often than a listed one. */
    method TopFiles(n: nat) returns (top: seq<FileRanking.FileRank>)
      requires Valid()
      ensures |top| <= n && NoDuplicates(top) && SortedBy(FileRanking.MoreUsed(), top)
      ensures forall i, j :: 0 <= i < j < |top| ==> top[i].count >= top[j].count
      ensures forall f :: f in top ==> f.count == Count(log, File(f.path))
      ensures forall path, f :: f in top && (forall g :: g in top ==> g.path != path) ==> Count(log, File(path)) <= f.count
      ensures forall path :: |top| < n && Count(log, File(path)) > 0 ==> exists f :: f in top && f.path == path
    {
      assert TablesMatch(windows, fileCounts, extCounts, log);
      top := FileRanking.TopFiles(fileCounts, n);
      FileRanking.NoneMissing(fileCounts, n, top);
      forall i, j | 0 <= i < j < |top| ensures top[i].count >= top[j].count {
        assert FileRanking.MoreUsed()(top[i], top[j]);
      }
      forall path, f | f in top && (forall g :: g in top ==> g.path != path) ensures Count(log, File(path)) <= f.count {
        assert Get(fileCounts, path) == Count(log, File(path));
      }
      forall path | |top| < n && Count(log, File(path)) > 0 ensures exists f :: f in top && f.path == path {
        assert Get(fileCounts, path) == Count(log, File(path));
      }
    }

    lemma WindowsFollow(e: Entry)
      requires Valid() && Ordered(log + [e])
      ensures Rising(WindowOf(windows, e.ev.pid))
      ensures e.ev.kind == Open ==>
                Window(log + [e], e.ev.pid) == Since(WindowOf(windows, e.ev.pid), e.now - WINDOW) + [e.now]
      ensures e.ev.kind != Open ==> Window(log + [e], e.ev.pid) == WindowOf(windows, e.ev.pid)
    {
      WindowRises(log, e, e.ev.pid);
      if e.ev.kind == Open {
        WindowAfterOpen(log, e);
      } else {
        WindowAfterOther(log, e, e.ev.pid);
      }
    }
  }

  ghost function NextView(v: Snapshot, ev: Event, ppid: Option<Pid>, alerted: bool, window: seq<Time>): Snapshot {
    v.(stats := NextTable(v.stats, v.ppids, ev, ppid, alerted, window),
       windows := if ev.kind == Open then v.windows[ev.pid := window] else v.windows,
       ppids := NextPpids(v.ppids, ev.pid, ppid),
       fileCounts := BumpIf(v.fileCounts, if ev.kind == Open || ev.kind.FileSystem() then ev.file else None),
       extCounts := BumpIf(v.extCounts, CountedExtension(ev)),
       tickExecs := v.tickExecs + (if ev.kind.ExecLike() then 1 else 0),
       tickOpens := v.tickOpens + (if ev.kind.ExecLike() then 0 else 1),
       tickAlerts := v.tickAlerts + (if alerted then 1 else 0))
  }

  ghost function NextTable(stats: map<Pid, ProcStats>, ppids: map<Pid, Pid>, ev: Event, ppid: Option<Pid>,
                           alerted: bool, window: seq<Time>): map<Pid, ProcStats> {
    var s := StatsFor(stats, ev.pid);
    stats[ev.pid := NextStats(s, ev, ev.pid !in ppids, ppid, alerted, |window|)]
  }

  /** The parent is looked up once, when the process is first heard of or was not found before. */
  function NextPpids(ppids: map<Pid, Pid>, pid: Pid, ppid: Option<Pid>): map<Pid, Pid> {
    if pid !in ppids && ppid.Some? then ppids[pid := ppid.value] else ppids
  }

  lemma EachStatsFollows(stats: map<Pid, ProcStats>, ppids: map<Pid, Pid>, log: Log, e: Entry, threshold: nat, ppid: Option<Pid>, p: Pid)
    requires p in stats ==> StatsMatch(stats[p], log, threshold, p)
    requires p !in stats ==> p !in Pids(log)
    requires p in stats || p == e.ev.pid
    ensures StatsMatch(NextTable(stats, ppids, e.ev, ppid, IsAlert(log + [e], threshold), Window(log + [e], e.ev.pid))[p], log + [e], threshold, p)
  {
    LastEntry(log, e);
    if p != e.ev.pid {
      OthersUnchanged(stats[p], log, e, threshold, p);
    } else if p in stats {
      OwnStats(stats[p], log, e, threshold, p !in ppids, ppid);
    } else {
      StrangerMatchesDefault(log, threshold, p);
      OwnStats(NewStats.(pid := p), log, e, threshold, p !in ppids, ppid);
    }
  }

  lemma AllStatsFollow(stats: map<Pid, ProcStats>, ppids: map<Pid, Pid>, log: Log, e: Entry, threshold: nat, ppid: Option<Pid>)
    requires AllStatsMatch(stats, log, threshold)
    ensures AllStatsMatch(NextTable(stats, ppids, e.ev, ppid, IsAlert(log + [e], threshold), Window(log + [e], e.ev.pid)),
                          log + [e], threshold)
  {
    LastEntry(log, e);
    var stats' := NextTable(stats, ppids, e.ev, ppid, IsAlert(log + [e], threshold), Window(log + [e], e.ev.pid));
    forall p | p in stats' ensures StatsMatch(stats'[p], log + [e], threshold, p) {
      EachStatsFollows(stats, ppids, log, e, threshold, ppid, p);
    }
  }

  lemma ParentsFollow(stats: map<Pid, ProcStats>, ppids: map<Pid, Pid>, ev: Event, ppid: Option<Pid>, alerted: bool, window: seq<Time>)
    requires ParentsMatch(stats, ppids)
    ensures ParentsMatch(NextTable(stats, ppids, ev, ppid, alerted, window), NextPpids(ppids, ev.pid, ppid))
  {
  }

  lemma TicksFollow(samples: seq<RateSample>, tickExecs: nat, tickOpens: nat, tickAlerts: nat, log: Log, e: Entry, threshold: nat)
    requires TicksMatch(samples, tickExecs, tickOpens, tickAlerts, log, threshold)
    ensures TicksMatch(samples,
                       tickExecs + (if e.ev.kind.ExecLike() then 1 else 0),
                       tickOpens + (if e.ev.kind.ExecLike() then 0 else 1),
                       tickAlerts + (if IsAlert(log + [e], threshold) then 1 else 0), log + [e], threshold)
  {
    CountGrows(log, e, Execs, 0);
    CountGrows(log, e, Opens, 0);
    CountGrows(log, e, FsOps, 0);
    CountGrows(log, e, Alerts(threshold), 0);
  }

  lemma InStepFollows(v: Snapshot, log: Log, e: Entry, threshold: nat, ppid: Option<Pid>)
    requires InStep(v, log, threshold)
    ensures InStep(NextView(v, e.ev, ppid, IsAlert(log + [e], threshold), Window(log + [e], e.ev.pid)), log + [e], threshold)
  {
    hide AllStatsMatch, ParentsMatch, TablesMatch, TicksMatch, Window, IsAlert;
    var v' := NextView(v, e.ev, ppid, IsAlert(log + [e], threshold), Window(log + [e], e.ev.pid));
    AllStatsFollow(v.stats, v.ppids, log, e, threshold, ppid);
    ParentsFollow(v.stats, v.ppids, e.ev, ppid, IsAlert(log + [e], threshold), Window(log + [e], e.ev.pid));
    SharedTables(v.windows, v.fileCounts, v.extCounts, log, e, v'.windows, v'.fileCounts, v'.extCounts);
    TicksFollow(v.samples, v.tickExecs, v.tickOpens, v.tickAlerts, log, e, threshold);
  }

  lemma {:induction false} ArrivalsPrefix(log: Log, msgs: seq<Msg>, n: nat)
    requires Ordered(log + Arrivals(msgs)) && n <= |msgs|
    ensures Ordered(log + Arrivals(msgs[..n]))
  {
    if n < |msgs| {
      var before := msgs[..|msgs| - 1];
      assert Arrivals(before) <= Arrivals(msgs);
      OrderedPrefix(log + Arrivals(msgs), |log| + |Arrivals(before)|);
      assert (log + Arrivals(msgs))[..|log| + |Arrivals(before)|] == log + Arrivals(before);
      ArrivalsPrefix(log, before, n);
      assert before[..n] == msgs[..n];
    } else {
      assert msgs[..n] == msgs;
    }
  }

  lemma NoMessage(log: Log, threshold: nat, autoKill: bool)
    ensures Arrivals([]) == [] && LostIn([]) == 0 && AllReports(log, [], threshold, autoKill) == [] && log + [] == log
  {
  }

  lemma NoParents(ppids: map<Pid, Pid>)
    ensures Parents(ppids, []) == ppids
  {
  }

  lemma OneMoreParent(ppids: map<Pid, Pid>, msgs: seq<Msg>, i: nat)
    requires i < |msgs|
    ensures var m := msgs[i];
            Parents(ppids, msgs[..i + 1]) ==
              if m.Arrived? then NextPpids(Parents(ppids, msgs[..i]), m.ev.pid, m.ppid) else Parents(ppids, msgs[..i])
  {
    assert msgs[..i + 1][..i] == msgs[..i];
  }

  lemma OneMoreMessage(log: Log, msgs: seq<Msg>, i: nat, threshold: nat, autoKill: bool)
    requires i < |msgs|
    ensures var m := msgs[i];
            && Arrivals(msgs[..i + 1]) == Arrivals(msgs[..i]) + (if m.Arrived? then [Entry(m.ev, m.now)] else [])
            && LostIn(msgs[..i + 1]) == LostIn(msgs[..i]) + (if m.Lost? then m.n else 0)
            && (m.Arrived? ==> |log + Arrivals(msgs[..i + 1])| > 0)
            && AllReports(log, msgs[..i + 1], threshold, autoKill)
               == AllReports(log, msgs[..i], threshold, autoKill)
                  + if m.Arrived? then Reports(log + Arrivals(msgs[..i + 1]), threshold, autoKill, m.killed) else []
  {
    hide Reports;
    assert msgs[..i + 1][..i] == msgs[..i];
  }

  // ----- the repeated counters agree -----

  /** One process's share of a counter. */
  function Share(s: ProcStats, c: Counter): nat {
    match c
    case Opens => s.totalOpens
    case Execs => s.totalExecs
    case Alerts(_) => s.alerts
    case Extension(ext) => Get(s.extensions, ext)
    case FsOps => 0
    case File(_) => 0
  }

  function Total(stats: map<Pid, ProcStats>, pids: seq<Pid>, c: Counter): nat
    requires forall p :: p in pids ==> p in stats
  {
    if pids == [] then 0
    else
      assert pids[0] in pids && forall p :: p in pids[1..] ==> p in pids;
      Share(stats[pids[0]], c) + Total(stats, pids[1..], c)
  }

  ghost predicate PerProcess(c: Counter, threshold: nat) {
    c == Opens || c == Execs || c == Alerts(threshold) || (c.Extension? && c.ext != "")
  }

  lemma {:induction false} TotalIsSum(stats: map<Pid, ProcStats>, pids: seq<Pid>, log: Log, threshold: nat, c: Counter)
    requires AllStatsMatch(stats, log, threshold) && PerProcess(c, threshold)
    requires forall p :: p in pids ==> p in stats
    ensures Total(stats, pids, c) == SumOver(log, c, pids)
  {
    if pids != [] {
      assert pids[0] in pids && forall p :: p in pids[1..] ==> p in pids;
      TotalIsSum(stats, pids[1..], log, threshold, c);
      assert StatsMatch(stats[pids[0]], log, threshold, pids[0]);
    }
  }

  /** In every reachable state the counters kept twice agree: added up over all processes, extensions
      match the extension table, and executions, opens and alerts match the rate samples plus the
      running tick (opens there include file-system events). */
  lemma CountersAgree(m: Monitor, pids: seq<Pid>)
    requires m.Valid() && Lists(pids, m.stats.Keys)
    ensures forall ext :: ext != "" ==> Total(m.stats, pids, Extension(ext)) == Get(m.extCounts, ext)
    ensures Total(m.stats, pids, Execs) == ExecSum(m.evicted + m.rateHistory) + m.tickExecs
    ensures Total(m.stats, pids, Alerts(m.threshold)) == AlertSum(m.evicted + m.rateHistory) + m.tickAlerts
    ensures Total(m.stats, pids, Opens) + Count(m.log, FsOps) == OpenSum(m.evicted + m.rateHistory) + m.tickOpens
  {
    forall c | PerProcess(c, m.threshold) ensures Total(m.stats, pids, c) == Count(m.log, c) {
      TotalIsSum(m.stats, pids, m.log, m.threshold, c);
      SumOverIsCount(m.log, c, pids);
    }
    forall ext | ext != "" ensures Total(m.stats, pids, Extension(ext)) == Get(m.extCounts, ext) {
      assert PerProcess(Extension(ext), m.threshold);
      assert TablesMatch(m.windows, m.fileCounts, m.extCounts, m.log);
    }
  }

  ghost function AlertOuts(outputs: seq<Output>): nat {
    if |outputs| == 0 then 0
    else AlertOuts(outputs[..|outputs| - 1]) + if outputs[|outputs| - 1].AlertOut? then 1 else 0
  }

  ghost function EventsOut(outputs: seq<Output>): seq<Event> {
    if |outputs| == 0 then []
    else EventsOut(outputs[..|outputs| - 1]) + if outputs[|outputs| - 1].EventOut? then [outputs[|outputs| - 1].ev] else []
  }

  lemma {:induction false} OutsAppend(a: seq<Output>, b: seq<Output>)
    ensures AlertOuts(a + b) == AlertOuts(a) + AlertOuts(b)
    ensures EventsOut(a + b) == EventsOut(a) + EventsOut(b)
  {
    if |b| == 0 {
      assert a + b == a;
    } else {
      OutsAppend(a, b[..|b| - 1]);
      assert (a + b)[..|a + b| - 1] == a + b[..|b| - 1];
    }
  }

  function EventsOf(log: Log): (r: seq<Event>)
    ensures |r| == |log| && forall i :: 0 <= i < |r| ==> r[i] == log[i].ev
  {
    seq(|log|, i requires 0 <= i < |log| => log[i].ev)
  }

  lemma OneReport(log: Log, threshold: nat, autoKill: bool, killed: bool)
    requires |log| > 0
    ensures AlertOuts(Reports(log, threshold, autoKill, killed)) == if IsAlert(log, threshold) then 1 else 0
    ensures EventsOut(Reports(log, threshold, autoKill, killed)) == [log[|log| - 1].ev]
  {
    var ev := log[|log| - 1].ev;
    var alerts := AlertReports(ev, threshold, autoKill, IsAlert(log, threshold), killed);
    var alert, action := AlertOut(ev.pid, ev.uid, ev.comm, threshold), ActionOut(ev.pid, ev.comm, killed);
    OutsAppend(alerts, [EventOut(ev)]);
    OutsAppend([alert], [action]);
  }

  /** Over any run, the alerts reported are the alerts the history calls for. */
  lemma {:induction false} RunAlerts(log: Log, msgs: seq<Msg>, threshold: nat, autoKill: bool)
    ensures Count(log, Alerts(threshold)) + AlertOuts(AllReports(log, msgs, threshold, autoKill))
         == Count(log + Arrivals(msgs), Alerts(threshold))
  {
    hide Reports, IsAlert;
    if |msgs| == 0 {
      assert log + Arrivals(msgs) == log;
    } else {
      var before, m := msgs[..|msgs| - 1], msgs[|msgs| - 1];
      RunAlerts(log, before, threshold, autoKill);
      if m.Arrived? {
        var e := Entry(m.ev, m.now);
        assert log + Arrivals(msgs) == (log + Arrivals(before)) + [e];
        CountGrows(log + Arrivals(before), e, Alerts(threshold), 0);
        OneReport(log + Arrivals(msgs), threshold, autoKill, m.killed);
        OutsAppend(AllReports(log, before, threshold, autoKill), Reports(log + Arrivals(msgs), threshold, autoKill, m.killed));
      } else {
        assert Arrivals(msgs) == Arrivals(before);
        assert AllReports(log, msgs, threshold, autoKill) == AllReports(log, before, threshold, autoKill);
      }
    }
  }

  /** And every event is passed on exactly once, in order. */
  lemma {:induction false} RunEvents(log: Log, msgs: seq<Msg>, threshold: nat, autoKill: bool)
    ensures EventsOut(AllReports(log, msgs, threshold, autoKill)) == EventsOf(Arrivals(msgs))
  {
    hide Reports, IsAlert;
    if |msgs| > 0 {
      var before, m := msgs[..|msgs| - 1], msgs[|msgs| - 1];
      RunEvents(log, before, threshold, autoKill);
      if m.Arrived? {
        assert (log + Arrivals(msgs))[|log| + |Arrivals(before)|].ev == m.ev;
        OneReport(log + Arrivals(msgs), threshold, autoKill, m.killed);
        OutsAppend(AllReports(log, before, threshold, autoKill), Reports(log + Arrivals(msgs), threshold, autoKill, m.killed));
      } else {
        assert Arrivals(msgs) == Arrivals(before);
        assert AllReports(log, msgs, threshold, autoKill) == AllReports(log, before, threshold, autoKill);
      }
    }
  }

  /** The tree shows each process under the parent its statistics record. */
  lemma TreeParents(m: Monitor, pid: Pid)
    requires m.Valid() && pid in m.stats
    ensures ProcessTree.LabelOf(ProcessTree.Table(m.stats, m.pidToPpid), pid).ppid
         == ProcessTree.Table(m.stats, m.pidToPpid).Parent(pid)
  {
    assert ParentsMatch(m.stats, m.pidToPpid);
  }
}
