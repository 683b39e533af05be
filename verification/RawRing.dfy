/** The ring between the perf callback and the poll call, as the C code runs it: the callback fills it,
    the poll loop drains it. */
module RawRing {
  /** RAW_RING_SIZE. One slot always stays empty. */
  const RING_SIZE: nat := 8192

  function Next(i: nat): nat {
    (i + 1) % RING_SIZE
  }

  /** The slots from `tail` up to `head`, going round at the end. */
  ghost function Pending<T>(ring: seq<T>, tail: nat, head: nat): seq<T>
    requires |ring| == RING_SIZE && tail < RING_SIZE && head < RING_SIZE
  {
    if tail <= head then ring[tail..head] else ring[tail..] + ring[..head]
  }

  lemma FullTestExact<T>(ring: seq<T>, tail: nat, head: nat)
    requires |ring| == RING_SIZE && tail < RING_SIZE && head < RING_SIZE
    ensures Next(head) == tail <==> |Pending(ring, tail, head)| == RING_SIZE - 1
    ensures head == tail <==> |Pending(ring, tail, head)| == 0
  {
  }

  /** The ring never holds more than 8191 events. */
  lemma Capacity<T>(ring: seq<T>, tail: nat, head: nat)
    requires |ring| == RING_SIZE && tail < RING_SIZE && head < RING_SIZE
    ensures |Pending(ring, tail, head)| <= 8191
    ensures Next(head) == tail <==> |Pending(ring, tail, head)| == 8191
  {
    FullTestExact(ring, tail, head);
  }

  lemma StoreAppends<T>(ring: seq<T>, tail: nat, head: nat, x: T)
    requires |ring| == RING_SIZE && tail < RING_SIZE && head < RING_SIZE && Next(head) != tail
    ensures Pending(ring[head := x], tail, Next(head)) == Pending(ring, tail, head) + [x]
  {
    var ring' := ring[head := x];
    if head + 1 == RING_SIZE {
      assert ring'[tail..] == ring[tail..head] + [x];
    } else if tail <= head {
      assert ring'[tail..head + 1] == ring[tail..head] + [x];
    } else {
      assert ring'[..head + 1] == ring[..head] + [x];
      assert ring'[tail..] == ring[tail..];
    }
  }

  lemma NextWraps(i: nat)
    requires i < RING_SIZE
    ensures Next(i) == if i == RING_SIZE - 1 then 0 else i + 1
  {
  }

  lemma TakeFirst<T>(s: seq<T>, i: nat, j: nat)
    requires i < j <= |s|
    ensures s[i..j] == [s[i]] + s[i + 1..j]
  {
  }

  lemma PrependAssociative<T>(x: T, a: seq<T>, b: seq<T>)
    ensures ([x] + a) + b == [x] + (a + b)
  {
  }

  lemma AdvanceRemovesFirst<T>(ring: seq<T>, tail: nat, head: nat)
    requires |ring| == RING_SIZE && tail < RING_SIZE && head < RING_SIZE && head != tail
    ensures Pending(ring, tail, head) == [ring[tail]] + Pending(ring, Next(tail), head)
  {
    NextWraps(tail);
    hide Next;
    if tail < head {
      TakeFirst(ring, tail, head);
    } else {
      TakeFirst(ring, tail, |ring|);
      assert ring[tail..] == ring[tail..|ring|] && ring[tail + 1..|ring|] == ring[tail + 1..];
      PrependAssociative(ring[tail], ring[tail + 1..], ring[..head]);
      if tail + 1 == RING_SIZE {
        assert ring[tail + 1..] + ring[..head] == ring[0..head];
      }
    }
  }

  class RawRing<T(0)> {
    const ring: array<T>
    var head: nat
    var tail: nat

    ghost predicate Valid()
      reads this, ring
    {
      ring.Length == RING_SIZE && head < RING_SIZE && tail < RING_SIZE
    }

    ghost function Contents(): seq<T>
      requires Valid()
      reads this, ring
    {
      Pending(ring[..], tail, head)
    }

    constructor ()
      ensures Valid() && Contents() == [] && fresh(ring)
    {
      ring := new T[RING_SIZE];
      head, tail := 0, 0;
    }

    /** The perf callback: a short record is ignored, a full ring drops the event. */
    method OnPerfEvent(raw: T, longEnough: bool)
      requires Valid()
      modifies this`head, ring
      ensures Valid()
      ensures Contents() == if longEnough && |old(Contents())| < RING_SIZE - 1 then old(Contents()) + [raw] else old(Contents())
    {
      if !longEnough {
        return;
      }
      var h := head;
      var next := Next(h);
      FullTestExact(ring[..], tail, head);
      if next == tail {
        return;
      }
      StoreAppends(ring[..], tail, head, raw);
      ring[h] := raw;
      head := next;
    }

    /** The drain loop of poll: at most `maxEvents`, oldest first. */
    method Poll(maxEvents: nat) returns (events: seq<T>)
      requires Valid()
      modifies this`tail
      ensures Valid()
      ensures old(Contents()) == events + Contents()
      ensures |events| <= maxEvents && (|events| == maxEvents || Contents() == [])
    {
      events := [];
      ghost var whole := Contents();
      while tail != head && |events| < maxEvents
        invariant Valid() && |events| <= maxEvents
        invariant whole == events + Contents()
        decreases maxEvents - |events|
      {
        AdvanceRemovesFirst(ring[..], tail, head);
        ghost var rest := Pending(ring[..], Next(tail), head);
        assert events + ([ring[tail]] + rest) == (events + [ring[tail]]) + rest;
        events := events + [ring[tail]];
        tail := Next(tail);
      }
      FullTestExact(ring[..], tail, head);
    }
  }
}
