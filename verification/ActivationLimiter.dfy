/** The activation rate limiter: at most five attempts in five minutes, kept as a list of the recent ones. */
module ActivationLimiter {
  import opened Spacing
  import opened Clock

  const WINDOW: Time := 300 * SECOND
  const MAX_ATTEMPTS: nat := 5

  /** `retain(|t| now.duration_since(*t) < 300s)` on a list in order. */
  ghost function Recent(times: seq<Time>, now: Time): seq<Time> {
    if times == [] then []
    else if now - times[0] < WINDOW then times
    else Recent(times[1..], now)
  }

  lemma {:induction false} RecentIsSuffix(times: seq<Time>, now: Time) returns (k: nat)
    requires NonDecreasing(times)
    ensures k <= |times| && Recent(times, now) == times[k..]
    ensures forall i :: 0 <= i < |times| ==> (now - times[i] < WINDOW <==> i >= k)
  {
    if times == [] || now - times[0] < WINDOW {
      k := 0;
    } else {
      var j := RecentIsSuffix(times[1..], now);
      k := j + 1;
      assert times[1..][j..] == times[k..];
      forall i | 0 <= i < |times| ensures now - times[i] < WINDOW <==> i >= k {
        if i > 0 {
          assert times[i] == times[1..][i - 1];
        }
      }
    }
  }

  /** What the limiter remembers serves as well as the whole history. */
  lemma RecentAgain(times: seq<Time>, now: Time, later: Time)
    requires NonDecreasing(times) && now <= later
    ensures Recent(Recent(times, now), later) == Recent(times, later)
  {
    var j := RecentIsSuffix(times, now);
    var k := RecentIsSuffix(times, later);
    assert NonDecreasing(times[j..]);
    var m := RecentIsSuffix(times[j..], later);
    assert forall i :: 0 <= i < |times[j..]| ==> times[j..][i] == times[i + j];
    assert forall i :: 0 <= i < |times| && i >= k ==> now - times[i] < WINDOW;
    assert k >= j && m == k - j;
    assert times[j..][m..] == times[k..];
  }

  datatype Outcome =
    | Admitted
    | Rejected(wait: nat)      // whole seconds, as reported
    | WaitUnderflow            // `300 - oldest` on u64 with `oldest` above 300

  /** Admitted attempts in order up to `now`, no six of them within the window. */
  ghost predicate AdmittedUpTo(admitted: seq<Time>, now: Time) {
    && NonDecreasing(admitted) && Spaced(admitted, MAX_ATTEMPTS, WINDOW)
    && (admitted != [] ==> admitted[|admitted| - 1] <= now)
  }

  /** The admitted attempts behind `attempts`, and the latest clock reading. */
  class Limiter {
    var attempts: seq<Time>
    ghost var admitted: seq<Time>
    ghost var latest: Time

    ghost predicate Valid()
      reads this
    {
      && AdmittedUpTo(admitted, latest)
      && exists at: Time :: at <= latest && attempts == Recent(admitted, at)
    }

    constructor (now: Time)
      ensures Valid() && admitted == [] && latest == now
    {
      attempts, admitted, latest := [], [], now;
      new;
      assert attempts == Recent(admitted, now);
    }

    /** `now` is the reading the test uses, `reread` the later one taken for the message. An attempt is
        admitted exactly when fewer than five were admitted in the five minutes before it. */
    method Check(now: Time, reread: Time) returns (r: Outcome)
      requires Valid() && latest <= now <= reread
      modifies this
      ensures Valid() && latest == now
      ensures r.Admitted? <==> |Recent(old(admitted), now)| < MAX_ATTEMPTS
      ensures admitted == if r.Admitted? then old(admitted) + [now] else old(admitted)
      ensures !r.Admitted? ==>
                var oldest := reread - Recent(admitted, now)[0];
                r == if oldest / SECOND <= 300 then Rejected(300 - oldest / SECOND) else WaitUnderflow
    {
      ghost var at: Time :| at <= latest && attempts == Recent(admitted, at);
      RecentAgain(admitted, at, now);
      RecentOrdered(admitted, at);
      attempts := Retain(attempts, now);
      latest := now;
      if |attempts| >= MAX_ATTEMPTS {
        var oldest := (reread - attempts[0]) / SECOND;
        if oldest > 300 {
          r := WaitUnderflow;
        } else {
          r := Rejected(300 - oldest);
        }
      } else {
        AdmitKeepsSpacing(admitted, now);
        RecentAfterAdmit(admitted, now);
        attempts := attempts + [now];
        admitted := admitted + [now];
        r := Admitted;
      }
    }
  }

  lemma RecentOrdered(times: seq<Time>, now: Time)
    requires NonDecreasing(times)
    ensures NonDecreasing(Recent(times, now))
  {
    var k := RecentIsSuffix(times, now);
  }

  /** Keeps the entries for which the closure holds, in order. */
  method Retain(times: seq<Time>, now: Time) returns (kept: seq<Time>)
    requires NonDecreasing(times)
    ensures kept == Recent(times, now)
  {
    kept := [];
    ghost var k := RecentIsSuffix(times, now);
    for i := 0 to |times|
      invariant kept == if i <= k then [] else times[k..i]
    {
      if now - times[i] < WINDOW {
        kept := kept + [times[i]];
      }
    }
  }

  lemma AdmitKeepsSpacing(admitted: seq<Time>, now: Time)
    requires AdmittedUpTo(admitted, now)
    requires |Recent(admitted, now)| < MAX_ATTEMPTS
    ensures AdmittedUpTo(admitted + [now], now)
  {
    var k := RecentIsSuffix(admitted, now);
    SpacedAppend(admitted, MAX_ATTEMPTS, WINDOW, now);
  }

  lemma {:induction false} RecentAfterAdmit(admitted: seq<Time>, now: Time)
    ensures Recent(admitted + [now], now) == Recent(admitted, now) + [now]
  {
    if admitted != [] {
      assert (admitted + [now])[1..] == admitted[1..] + [now];
      RecentAfterAdmit(admitted[1..], now);
    }
  }

  /** Over any run, no half-open interval of five minutes contains more than five admitted attempts. */
  lemma AtMostFiveInFiveMinutes(m: Limiter, from: Time)
    requires m.Valid()
    ensures |Within(m.admitted, from, WINDOW)| <= MAX_ATTEMPTS
  {
    SpacedBoundsIntervals(m.admitted, MAX_ATTEMPTS, WINDOW, from);
  }

  lemma RecentAtMostFive(times: seq<Time>, now: Time)
    requires AdmittedUpTo(times, now)
    ensures |Recent(times, now)| <= MAX_ATTEMPTS
  {
    var k := RecentIsSuffix(times, now);
  }

  /** The wait a rejection reports, in whole seconds, is exact: with nothing admitted meanwhile, a test that
      much after the message admits, and a test one second earlier still rejects. */
  lemma ReportedWaitIsExact(admitted: seq<Time>, now: Time, reread: Time, wait: nat, later: Time)
    requires AdmittedUpTo(admitted, now)
    requires now <= reread <= later && |Recent(admitted, now)| >= MAX_ATTEMPTS
    requires (reread - Recent(admitted, now)[0]) / SECOND <= 300
    requires wait == 300 - (reread - Recent(admitted, now)[0]) / SECOND
    ensures later >= reread + wait * SECOND ==> |Recent(admitted, later)| < MAX_ATTEMPTS
    ensures later <= reread + (wait - 1) * SECOND ==> |Recent(admitted, later)| == MAX_ATTEMPTS
  {
    RecentAtMostFive(admitted, now);
    var k := RecentIsSuffix(admitted, now);
    var j := RecentIsSuffix(admitted, later);
    var oldest := admitted[k];
    assert Recent(admitted, now)[0] == oldest;
    assert k == |admitted| - MAX_ATTEMPTS;
    if later >= reread + wait * SECOND {
      assert later - oldest >= WINDOW;
      assert j > k;
    }
    if later <= reread + (wait - 1) * SECOND {
      assert later - oldest < WINDOW && j <= k;
      assert j < |admitted| && now - admitted[j] <= later - admitted[j] < WINDOW;
    }
  }

  /** The subtraction underflows exactly when the second clock reading finds the oldest attempt to be 301
      seconds old, which takes more than a second between the two readings. */
  lemma WaitUnderflowsIff(m: Limiter, now: Time, reread: Time)
    requires m.Valid() && m.latest <= now <= reread && |Recent(m.admitted, now)| >= MAX_ATTEMPTS
    ensures (reread - Recent(m.admitted, now)[0]) / SECOND > 300 <==> reread >= Recent(m.admitted, now)[0] + 301 * SECOND
    ensures (reread - Recent(m.admitted, now)[0]) / SECOND > 300 ==> reread - now > SECOND
  {
    var k := RecentIsSuffix(m.admitted, now);
    assert Recent(m.admitted, now)[0] == m.admitted[k];
  }

  /** The subtraction after a test at `now` and a message `g` later. */
  ghost predicate WaitFits(admitted: seq<Time>, now: Time, g: nat) {
    |Recent(admitted, now)| >= MAX_ATTEMPTS ==> (now + g - Recent(admitted, now)[0]) / SECOND <= 300
  }

  /** A message `g` after the test never underflows, whatever was admitted before, exactly when `g` is at most a
      second. */
  lemma NeverUnderflowsIff(g: nat)
    ensures (forall admitted, now :: AdmittedUpTo(admitted, now) ==> WaitFits(admitted, now, g)) <==> g <= SECOND
  {
    if g <= SECOND {
      forall admitted, now | AdmittedUpTo(admitted, now) && |Recent(admitted, now)| >= MAX_ATTEMPTS
        ensures (now + g - Recent(admitted, now)[0]) / SECOND <= 300
      {
        var k := RecentIsSuffix(admitted, now);
        assert Recent(admitted, now)[0] == admitted[k] && now - admitted[k] < WINDOW;
      }
    } else {
      var five := [0, 0, 0, 0, 0];
      assert AdmittedUpTo(five, WINDOW - 1) && Recent(five, WINDOW - 1) == five;
      assert !WaitFits(five, WINDOW - 1, g);
    }
  }

  /** A limiter that gets there: five attempts at once, and one in the last nanosecond of their window whose message
      comes more than a second late. */
  method LateMessageUnderflows(g: nat) returns (m: Limiter, r: Outcome)
    requires g > SECOND
    ensures fresh(m) && m.Valid() && m.latest == WINDOW - 1 && r == WaitUnderflow
  {
    m := new Limiter(0);
    for i := 0 to MAX_ATTEMPTS
      invariant m.Valid() && m.latest == 0 && m.admitted == seq(i, _ => 0) && fresh(m)
    {
      var k := RecentIsSuffix(m.admitted, 0);
      var o := m.Check(0, 0);
    }
    var five := m.admitted;
    assert Recent(five, WINDOW - 1) == five;
    r := m.Check(WINDOW - 1, WINDOW - 1 + g);
  }

  /** In every reachable state a test at `now` rejects exactly when the fifth last admitted attempt is less than three
      hundred seconds old. */
  lemma RejectedIff(m: Limiter, now: Time)
    requires m.Valid() && m.latest <= now
    ensures var n := |m.admitted|;
            |Recent(m.admitted, now)| >= MAX_ATTEMPTS <==> n >= 5 && now - m.admitted[n - 5] < 300_000_000_000
  {
    var k := RecentIsSuffix(m.admitted, now);
  }
}
