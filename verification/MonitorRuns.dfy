/** What a run of the detection engine puts out, and what its tables then say, in terms of the messages alone. */
module MonitorRuns {
  import opened Processes
  import opened EventLog
  import opened EventMeaning
  import opened SetSums
  import opened Monitor
  import opened Options
  import opened Clock
  import ProcessTree

  ghost function Kills(outputs: seq<Output>): nat {
    if |outputs| == 0 then 0
    else Kills(outputs[..|outputs| - 1]) + if outputs[|outputs| - 1].ActionOut? then 1 else 0
  }

  lemma {:induction false} KillsAppend(a: seq<Output>, b: seq<Output>)
    ensures Kills(a + b) == Kills(a) + Kills(b)
  {
    if |b| == 0 {
      assert a + b == a;
    } else {
      KillsAppend(a, b[..|b| - 1]);
      assert (a + b)[..|a + b| - 1] == a + b[..|b| - 1];
    }
  }

  lemma OneReportKills(log: Log, threshold: nat, autoKill: bool, killed: bool)
    requires |log| > 0
    ensures var r := Reports(log, threshold, autoKill, killed); Kills(r) == if autoKill then AlertOuts(r) else 0
  {
    ReportsAre(log, threshold, autoKill, killed);
    hide Reports, Window;
    var ev := log[|log| - 1].ev;
    BlockKills(ev, |Window(log, ev.pid)|, ev.kind == Open && threshold > 0 && |Window(log, ev.pid)| == threshold, autoKill, killed);
  }

  lemma BlockKills(ev: Event, size: nat, alerted: bool, kill: bool, killed: bool)
    ensures var b := Block(ev, size, alerted, kill, killed); Kills(b) == if kill then AlertOuts(b) else 0
  {
    var alert, action, event := AlertOut(ev.pid, ev.uid, ev.comm, size), ActionOut(ev.pid, ev.comm, killed), EventOut(ev);
    assert [alert, event] == [alert] + [event] && [alert, action, event] == [alert] + [action] + [event];
    KillsAppend([alert], [event]);
    OutsAppend([alert], [event]);
    KillsAppend([alert], [action]);
    OutsAppend([alert], [action]);
    KillsAppend([alert] + [action], [event]);
    OutsAppend([alert] + [action], [event]);
  }

  /** Over any run a process is killed for every alert if auto-kill is on, and never if it is off. */
  lemma {:induction false} RunKills(log: Log, msgs: seq<Msg>, threshold: nat, autoKill: bool)
    ensures var r := AllReports(log, msgs, threshold, autoKill); Kills(r) == if autoKill then AlertOuts(r) else 0
  {
    hide Reports;
    if |msgs| > 0 {
      var before, m := msgs[..|msgs| - 1], msgs[|msgs| - 1];
      RunKills(log, before, threshold, autoKill);
      if m.Arrived? {
        var r := Reports(log + Arrivals(msgs), threshold, autoKill, m.killed);
        OneReportKills(log + Arrivals(msgs), threshold, autoKill, m.killed);
        KillsAppend(AllReports(log, before, threshold, autoKill), r);
        OutsAppend(AllReports(log, before, threshold, autoKill), r);
      } else {
        assert AllReports(log, msgs, threshold, autoKill) == AllReports(log, before, threshold, autoKill);
      }
    }
  }

  // ----- where each output comes from -----

  /** Output `i` is the event itself; or an alert that names the event's process and the size of its window, with the
      event behind it; or a kill of that process, which stands between the two and carries the answer `killed`. */
  ghost predicate Placed(outputs: seq<Output>, i: nat, ev: Event, size: nat, alerted: bool, kill: bool, killed: bool)
    requires i < |outputs|
  {
    match outputs[i]
    case EventOut(e) => e == ev
    case AlertOut(pid, uid, comm, opens) =>
      && alerted && pid == ev.pid && uid == ev.uid && comm == ev.comm && opens == size
      && (kill ==> i + 2 < |outputs| && outputs[i + 1] == ActionOut(pid, comm, killed) && outputs[i + 2] == EventOut(ev))
      && (!kill ==> i + 1 < |outputs| && outputs[i + 1] == EventOut(ev))
    case ActionOut(pid, comm, success) =>
      && alerted && kill && pid == ev.pid && comm == ev.comm && success == killed
      && i > 0 && outputs[i - 1] == AlertOut(pid, ev.uid, comm, size)
      && i + 1 < |outputs| && outputs[i + 1] == EventOut(ev)
  }

  /** Output `i` is about message `k`: as many events were put out before it as arrived before the message. Alerts come
      with the opens that bring the window of their process to the threshold. */
  ghost predicate Explains(log: Log, msgs: seq<Msg>, threshold: nat, autoKill: bool, outputs: seq<Output>, i: nat, k: nat)
    requires i < |outputs|
  {
    && k < |msgs| && msgs[k].Arrived? && |EventsOut(outputs[..i])| == |Arrivals(msgs[..k])|
    && var ev := msgs[k].ev;
    var size := |Window(log + Arrivals(msgs[..k + 1]), ev.pid)|;
    Placed(outputs, i, ev, size, ev.kind == Open && threshold > 0 && size == threshold, autoKill, msgs[k].killed)
  }

  ghost predicate Explained(log: Log, msgs: seq<Msg>, threshold: nat, autoKill: bool, outputs: seq<Output>, i: nat)
    requires i < |outputs|
  {
    exists k: nat :: Explains(log, msgs, threshold, autoKill, outputs, i, k)
  }

  lemma EventsBefore(a: seq<Output>, b: seq<Output>, j: nat)
    requires j <= |b|
    ensures (a + b)[..|a| + j] == a + b[..j] && |EventsOut((a + b)[..|a| + j])| == |EventsOut(a)| + |EventsOut(b[..j])|
  {
    assert (a + b)[..|a| + j] == a + b[..j];
    OutsAppend(a, b[..j]);
  }

  lemma EventsPerMessage(log: Log, msgs: seq<Msg>, threshold: nat, autoKill: bool)
    ensures |EventsOut(AllReports(log, msgs, threshold, autoKill))| == |Arrivals(msgs)|
  {
    RunEvents(log, msgs, threshold, autoKill);
  }

  /** An explanation stays one when more is put out. */
  lemma StillExplained(log: Log, msgs: seq<Msg>, threshold: nat, autoKill: bool, a: seq<Output>, b: seq<Output>, i: nat)
    requires |msgs| > 0 && i < |a| && Explained(log, msgs[..|msgs| - 1], threshold, autoKill, a, i)
    ensures Explained(log, msgs, threshold, autoKill, a + b, i)
  {
    hide EventsOut, Window, Arrivals;
    var before := msgs[..|msgs| - 1];
    var k: nat :| Explains(log, before, threshold, autoKill, a, i, k);
    assert (a + b)[..i] == a[..i] && before[..k] == msgs[..k] && before[..k + 1] == msgs[..k + 1];
    assert Explains(log, msgs, threshold, autoKill, a + b, i, k);
  }

  /** The outputs of the last message. */
  lemma LastExplained(log: Log, msgs: seq<Msg>, threshold: nat, autoKill: bool, a: seq<Output>, b: seq<Output>, j: nat)
    requires |msgs| > 0 && msgs[|msgs| - 1].Arrived? && |EventsOut(a)| == |Arrivals(msgs[..|msgs| - 1])|
    requires b == Reports(log + Arrivals(msgs), threshold, autoKill, msgs[|msgs| - 1].killed) && j < |b|
    ensures Explained(log, msgs, threshold, autoKill, a + b, |a| + j)
  {
    hide EventsOut, Window, Arrivals, Reports, Block, Placed;
    var k := |msgs| - 1;
    var ev, history := msgs[k].ev, log + Arrivals(msgs);
    var size := |Window(history, ev.pid)|;
    var alerted := ev.kind == Open && threshold > 0 && size == threshold;
    LastArrival(log, msgs);
    ReportsAre(history, threshold, autoKill, msgs[k].killed);
    BlockEndsInEvent(ev, size, alerted, autoKill, msgs[k].killed);
    EventsBefore(a, b, j);
    NoEventYet(b, j);
    BlockPlaces(ev, size, alerted, autoKill, msgs[k].killed, a, j);
    assert msgs[..k + 1] == msgs;
    assert Explains(log, msgs, threshold, autoKill, a + b, |a| + j, k);
  }

  lemma LastArrival(log: Log, msgs: seq<Msg>)
    requires |msgs| > 0 && msgs[|msgs| - 1].Arrived?
    ensures var history := log + Arrivals(msgs); history != [] && history[|history| - 1].ev == msgs[|msgs| - 1].ev
  {
  }

  lemma BlockEndsInEvent(ev: Event, size: nat, alerted: bool, kill: bool, killed: bool)
    ensures var b := Block(ev, size, alerted, kill, killed); forall i :: 0 <= i < |b| - 1 ==> !b[i].EventOut?
  {
  }

  /** The places of the outputs of one message behind what was put out before. */
  lemma BlockPlaces(ev: Event, size: nat, alerted: bool, kill: bool, killed: bool, a: seq<Output>, j: nat)
    requires j < |Block(ev, size, alerted, kill, killed)|
    ensures Placed(a + Block(ev, size, alerted, kill, killed), |a| + j, ev, size, alerted, kill, killed)
  {
  }

  lemma {:induction false} NoEventYet(b: seq<Output>, j: nat)
    requires j < |b| && forall i :: 0 <= i < |b| - 1 ==> !b[i].EventOut?
    ensures EventsOut(b[..j]) == []
  {
    if j > 0 {
      NoEventYet(b, j - 1);
      assert b[..j][..j - 1] == b[..j - 1];
    }
  }

  /** Every output of a run is explained by the message it is about. */
  lemma {:induction false} RunExplained(log: Log, msgs: seq<Msg>, threshold: nat, autoKill: bool, i: nat)
    requires i < |AllReports(log, msgs, threshold, autoKill)|
    ensures Explained(log, msgs, threshold, autoKill, AllReports(log, msgs, threshold, autoKill), i)
  {
    hide Reports, Explained;
    if |msgs| > 0 {
      var before, m := msgs[..|msgs| - 1], msgs[|msgs| - 1];
      var a := AllReports(log, before, threshold, autoKill);
      var b := if m.Arrived? then Reports(log + Arrivals(msgs), threshold, autoKill, m.killed) else [];
      assert AllReports(log, msgs, threshold, autoKill) == a + b;
      EventsPerMessage(log, before, threshold, autoKill);
      if i < |a| {
        RunExplained(log, before, threshold, autoKill, i);
        StillExplained(log, msgs, threshold, autoKill, a, b, i);
      } else {
        LastExplained(log, msgs, threshold, autoKill, a, b, i - |a|);
      }
    }
  }

  // ----- parents -----

  /** Message `i` tells the parent of `pid`. */
  ghost predicate Answers(msgs: seq<Msg>, i: int, pid: Pid) {
    0 <= i < |msgs| && msgs[i].Arrived? && msgs[i].ev.pid == pid && msgs[i].ppid.Some?
  }

  /** A parent once recorded stays; otherwise the first answer about the process is recorded. */
  lemma {:induction false} FirstAnswerStays(ppids: map<Pid, Pid>, msgs: seq<Msg>, pid: Pid)
    ensures var r := Parents(ppids, msgs);
            && (pid in r <==> pid in ppids || exists i :: Answers(msgs, i, pid))
            && (pid in ppids ==> r[pid] == ppids[pid])
            && forall i :: pid !in ppids && Answers(msgs, i, pid) && (forall j :: j < i ==> !Answers(msgs, j, pid)) ==> r[pid] == msgs[i].ppid.value
  {
    if |msgs| > 0 {
      var n := |msgs| - 1;
      FirstAnswerStays(ppids, msgs[..n], pid);
      assert forall i :: i < n ==> (Answers(msgs, i, pid) <==> Answers(msgs[..n], i, pid));
      assert forall i :: Answers(msgs[..n], i, pid) ==> Answers(msgs, i, pid);
      assert forall i :: Answers(msgs, i, pid) ==> i < n || i == n;
      assert Answers(msgs, n, pid) <==> msgs[n].Arrived? && msgs[n].ev.pid == pid && msgs[n].ppid.Some?;
    }
  }

  // ----- the statistics -----

  /** In every reachable state the statistics of a process are numbers of its events. */
  lemma StatsCountEvents(m: Monitor, pid: Pid, ext: string)
    requires m.Valid() && pid in m.stats
    ensures var s, n := m.stats[pid], |m.log|;
            && s.totalOpens == Number(n, CountedOf(m.log, Opens, pid))
            && s.totalExecs == Number(n, CountedOf(m.log, Execs, pid))
            && s.alerts == Number(n, CountedOf(m.log, Alerts(m.threshold), pid))
            && Get(s.extensions, ext) == Number(n, CountedOf(m.log, Extension(ext), pid))
  {
    assert AllStatsMatch(m.stats, m.log, m.threshold);
    assert StatsMatch(m.stats[pid], m.log, m.threshold, pid);
    CountersCountEvents(m.log, Opens, pid);
    CountersCountEvents(m.log, Execs, pid);
    CountersCountEvents(m.log, Alerts(m.threshold), pid);
    CountersCountEvents(m.log, Extension(ext), pid);
    hide Number, Count, CountOf, Counted, CountedOf;
  }

  /** And the tables over all processes are numbers of all events. */
  lemma TablesCountEvents(m: Monitor, path: string, ext: string)
    requires m.Valid()
    ensures Get(m.fileCounts, path) == Number(|m.log|, Counted(m.log, File(path)))
    ensures Get(m.extCounts, ext) == Number(|m.log|, Counted(m.log, Extension(ext)))
  {
    assert TablesMatch(m.windows, m.fileCounts, m.extCounts, m.log);
    CountersCountEvents(m.log, File(path), 0);
    CountersCountEvents(m.log, Extension(ext), 0);
    hide Number, Count, CountOf, Counted, CountedOf;
  }

  /** The name of a process is that of its latest event. */
  lemma {:induction false} LastCommIs(log: Log, pid: Pid, i: nat)
    requires i < |log| && log[i].ev.pid == pid && forall j :: i < j < |log| ==> log[j].ev.pid != pid
    ensures LastComm(log, pid) == log[i].ev.comm
  {
    if i < |log| - 1 {
      LastCommIs(log[..|log| - 1], pid, i);
    }
  }

  /** The label of a tracked process in the tree: its recorded parent, its latest name, its alerts and its opens. */
  lemma TreeLabels(m: Monitor, pid: Pid, i: nat)
    requires m.Valid() && pid in m.stats
    requires i < |m.log| && m.log[i].ev.pid == pid && forall j :: i < j < |m.log| ==> m.log[j].ev.pid != pid
    ensures ProcessTree.LabelOf(ProcessTree.Table(m.stats, m.pidToPpid), pid) ==
            ProcessTree.Label(pid, if pid in m.pidToPpid then m.pidToPpid[pid] else 0, m.log[i].ev.comm,
                              Number(|m.log|, CountedOf(m.log, Alerts(m.threshold), pid)),
                              Number(|m.log|, CountedOf(m.log, Opens, pid)))
  {
    StatsCountEvents(m, pid, "");
    LastCommIs(m.log, pid, i);
    assert StatsMatch(m.stats[pid], m.log, m.threshold, pid);
    assert ParentsMatch(m.stats, m.pidToPpid);
    hide Number, CountedOf, InStep;
  }

  /** The samples kept are the last hundred and twenty. */
  lemma KeptSamples(m: Monitor)
    requires m.Valid()
    ensures var all := m.evicted + m.rateHistory;
            && |m.rateHistory| == (if |all| <= 120 then |all| else 120)
            && m.rateHistory == all[|all| - |m.rateHistory|..]
  {
  }
}
