/** The terminal UI's per-process-name limiter: a counter and a window start per name. Alerts bypass it.
    Each event may read the clock twice: once to test the window's age, once to stamp a new window. */
module EventLimiter {
  import opened Spacing
  import opened Clock

  const LINES_KEPT: nat := 50
  const NET_KEPT: nat := 200

  datatype Evt = Evt(comm: string, isAlert: bool, noisy: bool, network: bool, line: string)

  /** An event together with the clock readings made while it is handled. */
  datatype Reading = Reading(e: Evt, check: Time, stamp: Time)

  datatype Counter = Counter(count: nat, start: Time)

  /** The events of one name that went through, by the time they were tested. Each window's begin at one of the
      positions `starts`; the current window's at `current`, those of the one before it at `previous`. */
  datatype History = History(passes: seq<Time>, current: nat, previous: nat, starts: seq<nat>)

  const NoHistory := History([], 0, 0, [])

  /** The passes are cut into windows of at most `most` each, and a window begins no earlier than `width` after the
      one before it. */
  ghost predicate Windows(passes: seq<Time>, starts: seq<nat>, most: nat, width: Time) {
    && |starts| > 0 && starts[0] == 0 && starts[|starts| - 1] < |passes| <= starts[|starts| - 1] + most
    && forall w :: 0 < w < |starts| ==> WindowFollows(passes, starts, w, most, width)
  }

  ghost predicate WindowFollows(passes: seq<Time>, starts: seq<nat>, w: nat, most: nat, width: Time)
    requires 0 < w < |starts|
  {
    starts[w - 1] < starts[w] < |passes| && starts[w] <= starts[w - 1] + most && passes[starts[w - 1]] + width <= passes[starts[w]]
  }

  lemma WindowsGoOn(passes: seq<Time>, starts: seq<nat>, most: nat, width: Time, t: Time)
    requires Windows(passes, starts, most, width) && |passes| < starts[|starts| - 1] + most
    ensures Windows(passes + [t], starts, most, width)
  {
    forall w | 0 < w < |starts| ensures WindowFollows(passes + [t], starts, w, most, width) {
      assert WindowFollows(passes, starts, w, most, width);
    }
  }

  lemma OneMoreWindow(passes: seq<Time>, starts: seq<nat>, most: nat, width: Time, t: Time)
    requires Windows(passes, starts, most, width) && most > 0 && passes[starts[|starts| - 1]] + width <= t
    ensures Windows(passes + [t], starts + [|passes|], most, width)
  {
    var starts' := starts + [|passes|];
    forall w | 0 < w < |starts'| ensures WindowFollows(passes + [t], starts', w, most, width) {
      if w < |starts| {
        assert WindowFollows(passes, starts, w, most, width);
      }
    }
  }

  /** How many events a window lets through. The first of a window always passes. */
  function PerWindow(limit: nat): nat {
    if limit == 0 then 1 else limit
  }

  /** The counter of one name against the passes of its last two windows. */
  ghost predicate Paced(c: Counter, h: History, limit: nat, width: Time, latest: Time) {
    && c.count > 0 && c.start <= latest
    && h.previous <= h.current < |h.passes|
    && NonDecreasing(h.passes) && h.passes[|h.passes| - 1] <= latest
    && |h.passes| - h.current == (if c.count <= PerWindow(limit) then c.count else PerWindow(limit))
    && h.current - h.previous <= PerWindow(limit)
    && h.passes[h.current] <= c.start
    && (forall i :: h.current <= i < |h.passes| ==> h.passes[i] < c.start + width)
    && (h.previous < h.current ==> h.passes[h.previous] + width <= h.passes[h.current])
    && (forall i :: 0 <= i < h.previous ==> h.passes[i] < h.passes[h.previous])
    && (forall i :: 0 <= i < h.current ==> h.passes[i] < h.passes[h.current])
    && (h.previous == h.current ==> h.current == 0)
    && Spaced(h.passes, 2 * PerWindow(limit) - 1, width)
  }

  /** The counter of one name and its history. */
  ghost predicate InStep(c: Counter, h: History, limit: nat, width: Time, latest: Time) {
    && Paced(c, h, limit, width, latest)
    && Windows(h.passes, h.starts, PerWindow(limit), width) && h.starts[|h.starts| - 1] == h.current
  }

  /** The event tested at `check` comes late enough after the one `2 * limit - 1` places before it. */
  lemma FarEnough(c: Counter, h: History, limit: nat, width: Time, latest: Time, check: Time)
    requires Paced(c, h, limit, width, latest) && width > 0 && latest <= check
    requires check - c.start >= width || c.count + 1 <= limit
    ensures var n, k := |h.passes|, 2 * PerWindow(limit) - 1;
            n >= k ==> check - h.passes[n - k] >= width
  {
    var n, k := |h.passes|, 2 * PerWindow(limit) - 1;
    if n >= k {
      var j := n - k;
      if check - c.start >= width {
        assert j <= h.current && h.passes[j] <= h.passes[h.current];
      } else {
        assert j <= h.previous < h.current && h.passes[j] <= h.passes[h.previous];
      }
    }
  }

  lemma PacedBegins(c: Counter, h: History, limit: nat, width: Time, latest: Time, check: Time, stamp: Time, starts: seq<nat>)
    requires Paced(c, h, limit, width, latest) && width > 0
    requires latest <= check <= stamp && check - c.start >= width
    ensures Paced(Counter(1, stamp), History(h.passes + [check], |h.passes|, h.current, starts), limit, width, stamp)
    ensures h.passes[h.current] + width <= check
  {
    hide Spaced;
    FarEnough(c, h, limit, width, latest, check);
    SpacedAppend(h.passes, 2 * PerWindow(limit) - 1, width, check);
    forall i | 0 <= i < |h.passes| ensures h.passes[i] < check {
      if i < h.current {
        assert h.passes[i] < h.passes[h.current];
      }
    }
  }

  /** A new window begins with the event just tested. */
  lemma WindowBegins(c: Counter, h: History, limit: nat, width: Time, latest: Time, check: Time, stamp: Time)
    requires InStep(c, h, limit, width, latest) && width > 0
    requires latest <= check <= stamp && check - c.start >= width
    ensures InStep(Counter(1, stamp), History(h.passes + [check], |h.passes|, h.current, h.starts + [|h.passes|]), limit, width, stamp)
  {
    hide Paced;
    PacedBegins(c, h, limit, width, latest, check, stamp, h.starts + [|h.passes|]);
    OneMoreWindow(h.passes, h.starts, PerWindow(limit), width, check);
  }

  lemma PacedGoesOn(c: Counter, h: History, limit: nat, width: Time, latest: Time, check: Time)
    requires Paced(c, h, limit, width, latest) && width > 0
    requires latest <= check && check - c.start < width && c.count + 1 <= limit
    ensures Paced(Counter(c.count + 1, c.start), h.(passes := h.passes + [check]), limit, width, check)
    ensures |h.passes| < h.current + PerWindow(limit)
  {
    hide Spaced;
    FarEnough(c, h, limit, width, latest, check);
    SpacedAppend(h.passes, 2 * PerWindow(limit) - 1, width, check);
  }

  /** One more event within the limit goes through. */
  lemma WindowGoesOn(c: Counter, h: History, limit: nat, width: Time, latest: Time, check: Time)
    requires InStep(c, h, limit, width, latest) && width > 0
    requires latest <= check && check - c.start < width && c.count + 1 <= limit
    ensures InStep(Counter(c.count + 1, c.start), h.(passes := h.passes + [check]), limit, width, check)
  {
    hide Paced;
    PacedGoesOn(c, h, limit, width, latest, check);
    WindowsGoOn(h.passes, h.starts, PerWindow(limit), width, check);
  }

  /** A name not seen before starts with an empty counter, so its first event always begins a window. */
  lemma FirstWindow(limit: nat, width: Time, check: Time, stamp: Time)
    requires check <= stamp && width > 0
    ensures InStep(Counter(1, stamp), History([check], 0, 0, [0]), limit, width, stamp)
  {
  }

  lemma InStepLater(c: Counter, h: History, limit: nat, width: Time, latest: Time, later: Time)
    requires InStep(c, h, limit, width, latest) && latest <= later
    ensures InStep(c, h, limit, width, later)
  {
  }

  /** An event above the limit is only counted. */
  lemma WindowOverfull(c: Counter, h: History, limit: nat, width: Time, latest: Time)
    requires InStep(c, h, limit, width, latest) && c.count + 1 > limit
    ensures InStep(Counter(c.count + 1, c.start), h, limit, width, latest)
  {
  }

  ghost predicate AllInStep(counters: map<string, Counter>, histories: map<string, History>, limit: nat, width: Time, latest: Time) {
    && counters.Keys == histories.Keys
    && forall comm :: comm in counters ==> InStep(counters[comm], histories[comm], limit, width, latest)
  }

  lemma LaterInStep(counters: map<string, Counter>, histories: map<string, History>, limit: nat, width: Time, latest: Time, later: Time)
    requires AllInStep(counters, histories, limit, width, latest) && latest <= later
    ensures AllInStep(counters, histories, limit, width, later)
  {
  }

  lemma OneMoreInStep(counters: map<string, Counter>, histories: map<string, History>, limit: nat, width: Time, latest: Time,
                      comm: string, c: Counter, h: History)
    requires AllInStep(counters, histories, limit, width, latest) && InStep(c, h, limit, width, latest)
    ensures AllInStep(counters[comm := c], histories[comm := h], limit, width, latest)
  {
  }

  lemma CountsPositive(counters: map<string, Counter>, histories: map<string, History>, limit: nat, width: Time, latest: Time, comm: string)
    requires AllInStep(counters, histories, limit, width, latest)
    ensures comm in counters ==> counters[comm].count > 0
  {
  }

  /** What one tested event does to the counter and the history of its name. */
  function NextCounter(counters: map<string, Counter>, comm: string, width: Time, check: Time, stamp: Time): Counter {
    if comm !in counters || check - counters[comm].start >= width then Counter(1, stamp)
    else Counter(counters[comm].count + 1, counters[comm].start)
  }

  ghost function NextHistory(counters: map<string, Counter>, h: History, comm: string, limit: nat, width: Time, check: Time): History {
    if comm !in counters || check - counters[comm].start >= width then History(h.passes + [check], |h.passes|, h.current, h.starts + [|h.passes|])
    else if counters[comm].count + 1 <= limit then h.(passes := h.passes + [check])
    else h
  }

  lemma NextInStep(counters: map<string, Counter>, histories: map<string, History>, limit: nat, width: Time, latest: Time,
                   comm: string, check: Time, stamp: Time)
    requires AllInStep(counters, histories, limit, width, latest) && width > 0 && latest <= check <= stamp
    ensures InStep(NextCounter(counters, comm, width, check, stamp),
                   NextHistory(counters, HistoryOf(histories, comm), comm, limit, width, check), limit, width, stamp)
  {
    hide InStep;
    if comm !in counters {
      FirstWindow(limit, width, check, stamp);
      assert [] + [check] == [check] && NoHistory.starts + [0] == [0];
    } else if check - counters[comm].start >= width {
      WindowBegins(counters[comm], histories[comm], limit, width, latest, check, stamp);
    } else if counters[comm].count + 1 <= limit {
      WindowGoesOn(counters[comm], histories[comm], limit, width, latest, check);
      InStepLater(Counter(counters[comm].count + 1, counters[comm].start),
                  histories[comm].(passes := histories[comm].passes + [check]), limit, width, check, stamp);
    } else {
      WindowOverfull(counters[comm], histories[comm], limit, width, latest);
      InStepLater(Counter(counters[comm].count + 1, counters[comm].start), histories[comm], limit, width, latest, stamp);
    }
  }

  /** Whether an event tested at `check` goes through. */
  predicate Passes(counters: map<string, Counter>, comm: string, limit: nat, width: Time, check: Time) {
    comm !in counters || check - counters[comm].start >= width || counters[comm].count + 1 <= limit
  }

  /** The last `n` elements. */
  ghost function LastOf<T>(s: seq<T>, n: nat): seq<T> {
    if |s| <= n then s else s[|s| - n..]
  }

  /** The first `n` elements. */
  ghost function FirstOf<T>(s: seq<T>, n: nat): seq<T> {
    if |s| <= n then s else s[..n]
  }

  /** Pushes at the back and, past the bound, drops the front. */
  method PushBack(queue: seq<string>, bound: nat, line: string, ghost all: seq<string>) returns (r: seq<string>)
    requires queue == LastOf(all, bound) && bound > 0
    ensures r == LastOf(all + [line], bound)
  {
    r := queue + [line];
    if |r| > bound {
      r := r[1..];
      LastOfDropsFront(all, bound, line);
    } else {
      assert queue == all;
    }
  }

  lemma LastOfDropsFront(all: seq<string>, bound: nat, line: string)
    requires |LastOf(all, bound)| == bound > 0
    ensures (LastOf(all, bound) + [line])[1..] == LastOf(all + [line], bound)
  {
    var k := |all| - bound;
    assert LastOf(all, bound) == all[k..] && LastOf(all + [line], bound) == (all + [line])[k + 1..];
    assert (all + [line])[k + 1..] == all[k + 1..] + [line];
    assert all[k..][1..] == all[k + 1..];
  }

  /** Pushes at the front and, past the bound, drops the back; `all` is newest first as well. */
  method PushFront(queue: seq<string>, bound: nat, line: string, ghost all: seq<string>) returns (r: seq<string>)
    requires queue == FirstOf(all, bound)
    ensures r == FirstOf([line] + all, bound)
  {
    r := [line] + queue;
    while |r| > bound
      invariant bound <= |r| || r == [line] + all
      invariant r <= [line] + all && (|r| <= bound ==> r == FirstOf([line] + all, bound))
    {
      r := r[..|r| - 1];
    }
  }

  ghost predicate InOrderAt(latest: Time, readings: seq<Reading>, i: nat)
    requires i < |readings|
  {
    (if i == 0 then latest else readings[i - 1].stamp) <= readings[i].check <= readings[i].stamp
  }

  ghost predicate ClockForward(latest: Time, readings: seq<Reading>) {
    forall i :: 0 <= i < |readings| ==> InOrderAt(latest, readings, i)
  }

  function HistoryOf(histories: map<string, History>, comm: string): History {
    if comm in histories then histories[comm] else NoHistory
  }

  class App {
    const rateLimit: nat
    const rateWindow: Time
    var rateCounters: map<string, Counter>
    var rateSuppressed: nat
    var total: nat
    var alertCount: nat
    var lastEventLines: seq<string>
    var net: seq<string>
    /** What went through, per name; all lines shown, oldest first; all network lines, newest first; how many events
        came and passed. */
    ghost var histories: map<string, History>
    ghost var latest: Time
    ghost var shown: seq<string>
    ghost var networkShown: seq<string>
    ghost var limited: nat
    ghost var passed: nat

    ghost predicate Valid()
      reads this
    {
      && rateWindow > 0
      && AllInStep(rateCounters, histories, rateLimit, rateWindow, latest)
      && limited == passed + rateSuppressed
      && lastEventLines == LastOf(shown, LINES_KEPT)
      && net == FirstOf(networkShown, NET_KEPT)
    }

    constructor (rateLimit: nat, rateWindow: Time, now: Time)
      requires rateWindow > 0
      ensures Valid() && latest == now && histories == map[] && shown == networkShown == []
      ensures this.rateLimit == rateLimit && this.rateWindow == rateWindow
    {
      this.rateLimit, this.rateWindow := rateLimit, rateWindow;
      rateCounters, rateSuppressed, total, alertCount := map[], 0, 0, 0;
      lastEventLines, net := [], [];
      histories, latest, shown, networkShown, limited, passed := map[], now, [], [], 0, 0;
    }

    /** The limiter's decision for one non-alert event. */
    method Limit(comm: string, check: Time, stamp: Time) returns (pass: bool)
      requires Valid() && latest <= check <= stamp
      modifies `rateCounters, `rateSuppressed, `histories, `latest, `limited, `passed
      ensures Valid() && latest == stamp
      ensures pass == Passes(old(rateCounters), comm, rateLimit, rateWindow, check)
      ensures HistoryOf(histories, comm).passes == HistoryOf(old(histories), comm).passes + if pass then [check] else []
      ensures forall other :: other != comm ==> HistoryOf(histories, other) == HistoryOf(old(histories), other)
      ensures limited == old(limited) + 1
      ensures rateSuppressed == old(rateSuppressed) + if pass then 0 else 1
    {
      hide InStep;
      NextInStep(rateCounters, histories, rateLimit, rateWindow, latest, comm, check, stamp);
      LaterInStep(rateCounters, histories, rateLimit, rateWindow, latest, stamp);
      OneMoreInStep(rateCounters, histories, rateLimit, rateWindow, stamp, comm,
                    NextCounter(rateCounters, comm, rateWindow, check, stamp),
                    NextHistory(rateCounters, HistoryOf(histories, comm), comm, rateLimit, rateWindow, check));
      histories := histories[comm := NextHistory(rateCounters, HistoryOf(histories, comm), comm, rateLimit, rateWindow, check)];
      latest := stamp;
      limited := limited + 1;
      CountsPositive(old(rateCounters), old(histories), rateLimit, rateWindow, old(latest), comm);
      var entry := if comm in rateCounters then rateCounters[comm] else Counter(0, stamp);
      pass := true;
      if entry.count == 0 || check - entry.start >= rateWindow {
        entry := Counter(1, stamp);
      } else {
        entry := Counter(entry.count + 1, entry.start);
        pass := entry.count <= rateLimit;
      }
      rateCounters := rateCounters[comm := entry];
      if pass {
        passed := passed + 1;
      } else {
        rateSuppressed := rateSuppressed + 1;
      }
    }

    /** One event of a snapshot: a suppressed one is only counted. */
    method HandleEvent(r: Reading) returns (pass: bool)
      requires Valid() && latest <= r.check <= r.stamp
      modifies this
      ensures Valid() && latest == r.stamp && total == old(total) + 1
      ensures pass == (r.e.isAlert || Passes(old(rateCounters), r.e.comm, rateLimit, rateWindow, r.check))
      ensures r.e.isAlert ==> rateCounters == old(rateCounters) && histories == old(histories) && rateSuppressed == old(rateSuppressed)
      ensures !r.e.isAlert ==>
                && HistoryOf(histories, r.e.comm).passes == HistoryOf(old(histories), r.e.comm).passes + (if pass then [r.check] else [])
                && forall other :: other != r.e.comm ==> HistoryOf(histories, other) == HistoryOf(old(histories), other)
      ensures alertCount == old(alertCount) + if r.e.isAlert then 1 else 0
      ensures shown == old(shown) + if pass && !r.e.noisy then [r.e.line] else []
      ensures networkShown == (if pass && !r.e.noisy && r.e.network then [r.e.line] else []) + old(networkShown)
      ensures limited == old(limited) + if r.e.isAlert then 0 else 1
      ensures rateSuppressed == old(rateSuppressed) + if pass then 0 else 1
    {
      hide AllInStep, LastOf, FirstOf;
      pass := true;
      if !r.e.isAlert {
        pass := Limit(r.e.comm, r.check, r.stamp);
      } else {
        LaterInStep(rateCounters, histories, rateLimit, rateWindow, latest, r.stamp);
        latest := r.stamp;
      }
      total := total + 1;
      if pass {
        if !r.e.noisy {
          lastEventLines := PushBack(lastEventLines, LINES_KEPT, r.e.line, shown);
          shown := shown + [r.e.line];
        }
        if !r.e.noisy && r.e.network {
          net := PushFront(net, NET_KEPT, r.e.line, networkShown);
          networkShown := [r.e.line] + networkShown;
        }
        if r.e.isAlert {
          alertCount := alertCount + 1;
        }
      }
    }

    /** The event loop of `apply_snapshot`; afterwards the total is taken from the snapshot. */
    method ApplySnapshot(readings: seq<Reading>, snapshotTotal: nat)
      requires Valid() && ClockForward(latest, readings)
      modifies this
      ensures Valid() && total == snapshotTotal
      ensures alertCount == old(alertCount) + CountAlerts(readings)
      ensures limited == old(limited) + |readings| - CountAlerts(readings)
      ensures (passed - old(passed)) + (rateSuppressed - old(rateSuppressed)) + CountAlerts(readings) == |readings|
    {
      ghost var start := latest;
      for i := 0 to |readings|
        invariant Valid() && latest == if i == 0 then start else readings[i - 1].stamp
        invariant alertCount == old(alertCount) + CountAlerts(readings[..i])
        invariant limited == old(limited) + i - CountAlerts(readings[..i])
      {
        assert readings[..i + 1][..i] == readings[..i];
        assert InOrderAt(start, readings, i);
        var _ := HandleEvent(readings[i]);
      }
      assert readings[..|readings|] == readings;
      total := snapshotTotal;
    }
  }

  ghost function CountAlerts(readings: seq<Reading>): (n: nat)
    ensures n <= |readings|
  {
    if readings == [] then 0
    else CountAlerts(readings[..|readings| - 1]) + if readings[|readings| - 1].e.isAlert then 1 else 0
  }

  /** How many events of a name went through in one of its windows. */
  ghost function PassedIn(h: History, w: nat): int
    requires w < |h.starts|
  {
    (if w + 1 < |h.starts| then h.starts[w + 1] else |h.passes|) - h.starts[w]
  }

  /** Over any run, no window of a name lets more than the limit through, and every event that went through lies in
      one window. */
  lemma AtMostTheLimitPerWindow(app: App, comm: string)
    requires app.Valid() && app.rateLimit > 0 && comm in app.histories
    ensures var h := app.histories[comm];
            |h.starts| > 0 && h.starts[0] == 0 && forall w :: 0 <= w < |h.starts| ==> 0 < PassedIn(h, w) <= app.rateLimit
  {
    var h := app.histories[comm];
    assert Windows(h.passes, h.starts, app.rateLimit, app.rateWindow);
    forall w | 0 <= w < |h.starts| ensures 0 < PassedIn(h, w) <= app.rateLimit {
      if w + 1 < |h.starts| {
        assert WindowFollows(h.passes, h.starts, w + 1, app.rateLimit, app.rateWindow);
      }
    }
  }

  /** Over any run, less than twice the limit goes through for one name in any half-open interval as long
      as the window, wherever that interval lies relative to the windows. */
  lemma LessThanTwiceTheLimit(app: App, comm: string, from: Time)
    requires app.Valid() && app.rateLimit > 0
    ensures |Within(HistoryOf(app.histories, comm).passes, from, app.rateWindow)| <= 2 * app.rateLimit - 1
  {
    var times := HistoryOf(app.histories, comm).passes;
    if comm in app.histories {
      SpacedBoundsIntervals(times, 2 * app.rateLimit - 1, app.rateWindow, from);
    } else {
      assert Within(times, from, app.rateWindow) == {};
    }
  }

  // ----- the bound is reached, so the limit itself is none -----

  /** Events of one name at these times all go through. */
  ghost predicate AllPass(counters: map<string, Counter>, comm: string, limit: nat, width: Time, times: seq<Time>)
    decreases |times|
  {
    times == [] ||
    (Passes(counters, comm, limit, width, times[0]) &&
     AllPass(counters[comm := NextCounter(counters, comm, width, times[0], times[0])], comm, limit, width, times[1..]))
  }

  function Repeat(t: Time, n: nat): (r: seq<Time>)
    ensures |r| == n && forall i :: 0 <= i < n ==> r[i] == t
  {
    seq(n, _ => t)
  }

  /** A burst that fills up the current window. */
  lemma {:induction false} BurstPasses(counters: map<string, Counter>, comm: string, limit: nat, width: Time, t: Time, n: nat, rest: seq<Time>)
    requires comm in counters && t - counters[comm].start < width && counters[comm].count + n <= limit
    requires AllPass(counters[comm := Counter(counters[comm].count + n, counters[comm].start)], comm, limit, width, rest)
    ensures AllPass(counters, comm, limit, width, Repeat(t, n) + rest)
    decreases n
  {
    var times := Repeat(t, n) + rest;
    if n == 0 {
      assert times == rest;
      assert counters[comm := Counter(counters[comm].count, counters[comm].start)] == counters;
    } else {
      var c := Counter(counters[comm].count + 1, counters[comm].start);
      var next := counters[comm := c];
      assert next[comm := Counter(c.count + (n - 1), c.start)] == counters[comm := Counter(counters[comm].count + n, c.start)];
      BurstPasses(next, comm, limit, width, t, n - 1, rest);
      assert times[1..] == Repeat(t, n - 1) + rest;
    }
  }

  /** For every limit there is a run in which twice the limit less one go through within one window's
      length: the tail of one window and the whole of the next. */
  lemma TwiceTheLimitIsReached(comm: string, limit: nat, width: Time) returns (times: seq<Time>)
    requires limit > 0 && width > 1
    ensures AllPass(map[], comm, limit, width, times) && NonDecreasing(times)
    ensures |times| == 2 * limit && forall i :: 1 <= i < |times| ==> width - 1 <= times[i] < (width - 1) + width
  {
    var second := Repeat(width, limit);
    var tail := Repeat(width - 1, limit - 1) + second;
    times := [0] + tail;
    var first := map[comm := Counter(limit, 0)];
    assert AllPass(first, comm, limit, width, second) by {
      var reopened := first[comm := Counter(1, width)];
      assert reopened[comm := Counter(limit, width)] == map[comm := Counter(limit, width)];
      BurstPasses(reopened, comm, limit, width, width, limit - 1, []);
      assert second[1..] == Repeat(width, limit - 1) + [];
    }
    var opening := map[comm := Counter(1, 0)];
    assert opening[comm := Counter(limit, 0)] == first;
    BurstPasses(opening, comm, limit, width, width - 1, limit - 1, second);
    assert times[1..] == tail;
    var none: map<string, Counter> := map[];
    assert none[comm := NextCounter(none, comm, width, 0, 0)] == opening;
  }

  // ----- what the decisions and the queues come to -----

  /** In every reachable state an event is suppressed exactly when its name's window is not over and already holds the
      limit of passed events. */
  lemma SuppressedIff(app: App, comm: string, check: Time)
    requires app.Valid() && app.rateLimit > 0
    ensures !Passes(app.rateCounters, comm, app.rateLimit, app.rateWindow, check) <==>
              && comm in app.histories && check < app.rateCounters[comm].start + app.rateWindow
              && |app.histories[comm].passes| - app.histories[comm].current == app.rateLimit
  {
    if comm in app.histories {
      assert InStep(app.rateCounters[comm], app.histories[comm], app.rateLimit, app.rateWindow, app.latest);
    }
  }

  /** The screen holds the last fifty lines shown, oldest first, and the last two hundred network lines, newest first. */
  lemma QueuesHold(app: App)
    requires app.Valid()
    ensures var n := |app.shown|; app.lastEventLines == if n < 50 then app.shown else app.shown[n - 50..]
    ensures var n := |app.networkShown|; app.net == if n < 200 then app.networkShown else app.networkShown[..200]
  {
  }
}
