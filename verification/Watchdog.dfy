/** The watchdog: a reader thread bumps an atomic heartbeat counter, the watchdog thread compares it with
    the value it saw last time. The methods are the atomic steps; any interleaving of the two threads is
    a sequence of calls. */
module Watchdog {
  import opened Clock

  /** WATCHDOG_TIMEOUT */
  const TIMEOUT: nat := 10
  /** The counter is a u64. */
  const WRAP: nat := 0x1_0000_0000_0000_0000

  datatype Notice = AlarmRaised | HeartbeatRestored

  datatype Phase = Sleeping | Loaded(current: nat, elapsed: nat)

  ghost predicate Alternates(notices: seq<Notice>) {
    forall i :: 0 <= i < |notices| ==> notices[i] == if i % 2 == 0 then AlarmRaised else HeartbeatRestored
  }

  /** The next notice is an alarm after an even number of them, a restore after an odd number. */
  lemma AlternatesNext(notices: seq<Notice>, n: Notice)
    requires Alternates(notices) && (n == AlarmRaised <==> |notices| % 2 == 0)
    ensures Alternates(notices + [n])
  {
  }

  /** `marks[k]` is how many heartbeats had come at load `k`; `alarms[k]` is the alarm flag after the check
      of load `k + 1`. */
  datatype History = History(beats: seq<Time>, loads: seq<Time>, marks: seq<nat>, alarms: seq<bool>)

  ghost predicate Shape(h: History) {
    |h.marks| == |h.loads| > 0 && |h.alarms| <= |h.loads| - 1 <= |h.alarms| + 1
  }

  /** `now` is not before anything recorded. */
  ghost predicate UpTo(h: History, now: Time) {
    && (forall i :: 0 <= i < |h.beats| ==> h.beats[i] <= now)
    && forall k :: 0 <= k < |h.loads| ==> h.loads[k] <= now
  }

  /** Loads are at least the timeout apart, each mark separates the heartbeats before its load from those
      after, and each flag says whether the marks on either side agree modulo 2^64. */
  ghost predicate Consistent(h: History)
    requires Shape(h)
  {
    && (forall k :: 0 < k < |h.loads| ==> h.loads[k - 1] + TIMEOUT * SECOND <= h.loads[k] && h.marks[k - 1] <= h.marks[k])
    && (forall k :: 0 <= k < |h.marks| ==> h.marks[k] <= |h.beats|)
    && (forall i, k :: 0 <= k < |h.loads| && 0 <= i < h.marks[k] ==> h.beats[i] <= h.loads[k])
    && (forall i, k :: 0 <= k < |h.loads| && h.marks[k] <= i < |h.beats| ==> h.loads[k] <= h.beats[i])
    && forall k :: 0 <= k < |h.alarms| ==> h.alarms[k] == SameCount(h.marks[k], h.marks[k + 1])
  }

  /** Equal as u64 counters. */
  predicate SameCount(a: int, b: int) {
    (b - a) % WRAP == 0
  }

  function Wrapped(n: nat): nat {
    n % WRAP
  }

  lemma WrappedSame(a: nat, b: nat)
    ensures Wrapped(a) == Wrapped(b) <==> SameCount(a, b)
  {
  }

  lemma WrappedNext(n: nat)
    ensures (Wrapped(n) + 1) % WRAP == Wrapped(n + 1)
  {
  }

  lemma UpToLater(h: History, now: Time, later: Time)
    requires UpTo(h, now) && now <= later
    ensures UpTo(h, later)
  {
  }

  lemma UpToAlarms(h: History, alarm: bool, now: Time)
    requires UpTo(h, now)
    ensures UpTo(h.(alarms := h.alarms + [alarm]), now)
  {
  }

  lemma BeatConsistent(h: History, now: Time)
    requires Shape(h) && Consistent(h) && UpTo(h, now)
    ensures Consistent(h.(beats := h.beats + [now])) && UpTo(h.(beats := h.beats + [now]), now)
  {
  }

  lemma LoadConsistent(h: History, now: Time)
    requires Shape(h) && Consistent(h) && UpTo(h, now) && |h.loads| == |h.alarms| + 1
    requires h.loads[|h.loads| - 1] + TIMEOUT * SECOND <= now
    ensures var h' := h.(loads := h.loads + [now], marks := h.marks + [|h.beats|]);
            Shape(h') && Consistent(h') && UpTo(h', now)
  {
  }

  lemma DecideConsistent(h: History, alarm: bool)
    requires Shape(h) && Consistent(h) && |h.loads| == |h.alarms| + 2
    requires alarm == SameCount(h.marks[|h.alarms|], h.marks[|h.alarms| + 1])
    ensures Consistent(h.(alarms := h.alarms + [alarm]))
  {
  }

  class Watchdog {
    var heartbeat: nat
    var alarm: bool
    var lastHeartbeat: nat
    var lastCheck: Time
    var phase: Phase
    ghost var history: History
    ghost var notices: seq<Notice>
    ghost var latest: Time

    ghost predicate Valid()
      reads this
    {
      && Shape(history) && Consistent(history) && UpTo(history, latest)
      && heartbeat == Wrapped(|history.beats|)
      && Alternates(notices) && (alarm <==> |notices| % 2 == 1)
      && lastCheck == history.loads[|history.loads| - 1]
      && lastHeartbeat == Wrapped(history.marks[|history.alarms|])
      && match phase
         case Sleeping => |history.loads| == |history.alarms| + 1
         case Loaded(current, elapsed) =>
           && |history.loads| == |history.alarms| + 2
           && current == Wrapped(history.marks[|history.alarms| + 1]) && elapsed >= TIMEOUT
    }

    /** The watchdog thread starts; the counter may have run before. */
    constructor (now: Time, beats: seq<Time>)
      requires forall i :: 0 <= i < |beats| ==> beats[i] <= now
      ensures Valid() && !alarm && notices == [] && latest == lastCheck == now
      ensures history == History(beats, [now], [|beats|], []) && phase == Sleeping
    {
      heartbeat, alarm, lastHeartbeat, lastCheck := Wrapped(|beats|), false, Wrapped(|beats|), now;
      phase := Sleeping;
      history, notices, latest := History(beats, [now], [|beats|], []), [], now;
    }

    /** The reader thread. */
    method Heartbeat(now: Time)
      requires Valid() && latest <= now
      modifies `heartbeat, `history, `latest
      ensures Valid() && latest == now
      ensures history == old(history).(beats := old(history).beats + [now])
    {
      hide Consistent, UpTo, Alternates, Wrapped;
      UpToLater(history, latest, now);
      BeatConsistent(history, now);
      WrappedNext(|history.beats|);
      heartbeat := (heartbeat + 1) % WRAP;
      history := history.(beats := history.beats + [now]);
      latest := now;
    }

    /** The watchdog thread after its sleep of ten seconds: one load of the counter, and the time. */
    method Load(now: Time)
      requires Valid() && latest <= now && phase == Sleeping && lastCheck + TIMEOUT * SECOND <= now
      modifies `phase, `lastCheck, `history, `latest
      ensures Valid() && latest == lastCheck == now && phase.Loaded?
      ensures history == old(history).(loads := old(history).loads + [now], marks := old(history).marks + [|old(history).beats|])
    {
      hide Consistent, UpTo, Alternates, Wrapped;
      UpToLater(history, latest, now);
      LoadConsistent(history, now);
      phase := Loaded(heartbeat, (now - lastCheck) / SECOND);
      lastCheck := now;
      history := history.(loads := history.loads + [now], marks := history.marks + [|history.beats|]);
      latest := now;
    }

    /** The rest of the loop body. After it the alarm is set exactly when the counter, modulo 2^64, has not
        moved between the last two loads. */
    method Decide()
      requires Valid() && phase.Loaded?
      modifies `phase, `alarm, `lastHeartbeat, `history, `notices
      ensures Valid() && phase == Sleeping
      ensures history == old(history).(alarms := old(history).alarms + [alarm])
      ensures var k := |old(history).alarms|;
              alarm == SameCount(old(history).marks[k], old(history).marks[k + 1])
      ensures notices == old(notices) +
                if alarm && !old(alarm) then [AlarmRaised] else if !alarm && old(alarm) then [HeartbeatRestored] else []
    {
      hide Consistent, UpTo, Wrapped, SameCount, Alternates;
      ghost var k := |history.alarms|;
      WrappedSame(history.marks[k], history.marks[k + 1]);
      Compare(phase.current, phase.elapsed);
      DecideConsistent(history, alarm);
      UpToAlarms(history, alarm, latest);
      history := history.(alarms := history.alarms + [alarm]);
      phase := Sleeping;
    }

    /** One round of the loop in which no heartbeat falls between the load and the decision. */
    method CheckOnce(now: Time)
      requires Valid() && latest <= now && phase == Sleeping && lastCheck + TIMEOUT * SECOND <= now
      modifies `phase, `alarm, `lastHeartbeat, `lastCheck, `history, `notices, `latest
      ensures Valid() && latest == lastCheck == now && phase == Sleeping
      ensures var h, k := old(history), |old(history).alarms|;
              && history == h.(loads := h.loads + [now], marks := h.marks + [|h.beats|], alarms := h.alarms + [alarm])
              && alarm == SameCount(h.marks[k], (h.marks + [|h.beats|])[k + 1])
      ensures notices == old(notices) +
                if alarm && !old(alarm) then [AlarmRaised] else if !alarm && old(alarm) then [HeartbeatRestored] else []
    {
      hide Consistent, UpTo, Alternates, SameCount, Wrapped;
      Load(now);
      Decide();
    }

    /** The comparison: alarm and restore are reported only when the flag changes. */
    method Compare(current: nat, elapsed: nat)
      requires Alternates(notices) && (alarm <==> |notices| % 2 == 1)
      modifies `alarm, `lastHeartbeat, `notices
      ensures alarm == (current == old(lastHeartbeat) && elapsed >= TIMEOUT) && lastHeartbeat == current
      ensures Alternates(notices) && (alarm <==> |notices| % 2 == 1)
      ensures notices == old(notices) +
                if alarm && !old(alarm) then [AlarmRaised] else if !alarm && old(alarm) then [HeartbeatRestored] else []
    {
      hide Alternates;
      if current == lastHeartbeat && elapsed >= TIMEOUT {
        if !alarm {
          alarm := true;
          AlternatesNext(notices, AlarmRaised);
          notices := notices + [AlarmRaised];
        }
      } else if alarm {
        AlternatesNext(notices, HeartbeatRestored);
        notices := notices + [HeartbeatRestored];
        alarm := false;
        lastHeartbeat := current;
      } else {
        lastHeartbeat := current;
      }
    }
  }

  /** While fewer than 2^64 heartbeats come between two loads, the flag after a check says precisely whether
      none came. */
  lemma AlarmIffSilent(m: Watchdog, k: nat)
    requires m.Valid() && k < |m.history.alarms|
    requires m.history.marks[k + 1] - m.history.marks[k] < WRAP
    ensures m.history.alarms[k] <==> m.history.marks[k + 1] == m.history.marks[k]
  {
  }

  ghost predicate NoBeatAfterUntil(h: History, from: Time, to: Time) {
    forall i :: 0 <= i < |h.beats| ==> !(from <= h.beats[i] <= to)
  }

  lemma BeatBetweenLoads(h: History, k: nat)
    requires Shape(h) && Consistent(h) && k + 1 < |h.loads| && h.marks[k] < h.marks[k + 1]
    ensures h.marks[k] < |h.beats| && h.loads[k] <= h.beats[h.marks[k]] <= h.loads[k + 1]
  {
  }

  /** Silence that spans two successive loads is always noticed at the second. */
  lemma SilenceAcrossLoadsRaisesAlarm(m: Watchdog, k: nat, from: Time, to: Time)
    requires m.Valid() && k < |m.history.alarms| && NoBeatAfterUntil(m.history, from, to)
    requires from <= m.history.loads[k] && m.history.loads[k + 1] <= to
    ensures m.history.alarms[k]
  {
    var h := m.history;
    if h.marks[k] < h.marks[k + 1] {
      BeatBetweenLoads(h, k);
      assert false;
    }
  }

  /** If loads are never more than `gap` apart, silence of twice that length, less one nanosecond, is noticed, whenever
      it starts. */
  lemma {:induction false} LongSilenceIsNoticed(m: Watchdog, gap: Time, from: Time, n: nat) returns (k: nat)
    requires m.Valid() && NoBeatAfterUntil(m.history, from, from + 2 * gap - 1)
    requires forall j :: 0 < j < |m.history.loads| ==> m.history.loads[j] <= m.history.loads[j - 1] + gap
    requires m.history.loads[0] <= from && n < |m.history.alarms| && from + 2 * gap - 1 <= m.history.loads[n + 1]
    ensures k < |m.history.alarms| && m.history.alarms[k]
    ensures from <= m.history.loads[k] && m.history.loads[k + 1] <= from + 2 * gap - 1
  {
    var h := m.history;
    k := 0;
    while h.loads[k] < from
      invariant k <= n + 1 && (k > 0 ==> h.loads[k - 1] < from)
      decreases n + 1 - k
    {
      k := k + 1;
    }
    assert k > 0 ==> h.loads[k] <= h.loads[k - 1] + gap;
    assert k <= n by {
      if k == n + 1 {
        assert false;
      }
    }
    SilenceAcrossLoadsRaisesAlarm(m, k, from, from + 2 * gap - 1);
  }

  lemma OnlyAtTheEnds(h: History, gap: Time)
    requires h.beats == [0, 2 * gap]
    ensures NoBeatAfterUntil(h, 1, 2 * gap - 1)
  {
  }

  /** The bound is tight: for every check interval `gap` there is a run in which a heartbeat just after one check and
      one just before the next but one leave two whole intervals silent, and neither check raises the alarm. With
      intervals of ten seconds that is twenty seconds of silence. */
  method SilenceOfTwoIntervalsPasses(gap: Time) returns (m: Watchdog)
    requires gap >= TIMEOUT * SECOND
    ensures fresh(m) && m.Valid() && !m.alarm && m.notices == []
    ensures m.history.loads == [0, gap, 2 * gap] && m.history.alarms == [false, false]
    ensures NoBeatAfterUntil(m.history, 1, 2 * gap - 1)
  {
    assert !SameCount(0, 1) && !SameCount(1, 2);
    hide Watchdog.Valid, SameCount, NoBeatAfterUntil;
    Appended(gap);
    m := new Watchdog(0, []);
    m.Heartbeat(0);
    assert m.history == History([0], [0], [0], []);
    m.CheckOnce(gap);
    assert m.history == History([0], [0, gap], [0, 1], [false]);
    m.Heartbeat(2 * gap);
    assert m.history == History([0, 2 * gap], [0, gap], [0, 1], [false]);
    m.CheckOnce(2 * gap);
    OnlyAtTheEnds(m.history, gap);
  }

  lemma Appended(gap: Time)
    ensures [] + [0] == [0] && [0] + [gap] == [0, gap] && [0] + [1] == [0, 1] && [] + [false] == [false]
    ensures [0] + [2 * gap] == [0, 2 * gap] && [0, gap] + [2 * gap] == [0, gap, 2 * gap] && [0, 1] + [2] == [0, 1, 2]
    ensures [false] + [false] == [false, false]
  {
  }

  /** In every reachable state successive loads are at least ten seconds apart, and the flag after a check says whether
      the number of heartbeats between its two loads is a multiple of 2^64. */
  lemma FlagReadsCounter(m: Watchdog, k: nat)
    requires m.Valid() && k + 1 < |m.history.loads|
    ensures m.history.loads[k + 1] - m.history.loads[k] >= 10_000_000_000
    ensures k < |m.history.alarms| ==>
              (m.history.alarms[k] <==> (m.history.marks[k + 1] - m.history.marks[k]) % 18_446_744_073_709_551_616 == 0)
  {
  }

  /** Notices alternate, beginning with an alarm, and the flag is set exactly when the last one was an alarm. */
  lemma NoticesAlternate(m: Watchdog)
    requires m.Valid()
    ensures forall i :: 0 <= i < |m.notices| ==> (m.notices[i] == AlarmRaised <==> i % 2 == 0)
    ensures m.alarm <==> m.notices != [] && m.notices[|m.notices| - 1] == AlarmRaised
  {
  }
}
