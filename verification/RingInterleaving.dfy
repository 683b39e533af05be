/** The same ring when callback and poll run at the same time. Every read and write of the shared
    indices is a step of its own, and so is every word of the two memcpy calls. */
module RingInterleaving {
  import opened RawRing

  type Word = int

  /** A raw event is copied word by word. */
  type RawEvent = seq<Word>

  datatype Producer =
    | Waiting
    | Offered(ev: RawEvent)                 // called with an event, fullness not yet tested
    | Copying(ev: RawEvent, done: nat)      // found room, `done` words copied into the slot

  datatype Consumer =
    | Idle
    | Reading(buffer: RawEvent)             // found an event, this much copied out

  /** `offered`, `accepted`, `dropped` and `delivered` record the history; the code does not keep them. */
  datatype State = State(
    slots: seq<RawEvent>,
    head: nat,
    tail: nat,
    producer: Producer,
    consumer: Consumer,
    offered: seq<RawEvent>,
    accepted: seq<RawEvent>,
    dropped: nat,
    delivered: seq<RawEvent>)

  /** Events are `words` long; the ring starts empty with arbitrary slots. */
  ghost predicate Init(s: State, words: nat) {
    && |s.slots| == RING_SIZE && (forall i :: 0 <= i < RING_SIZE ==> |s.slots[i]| == words)
    && s.head == s.tail == 0 && s.producer == Waiting && s.consumer == Idle
    && s.offered == s.accepted == s.delivered == [] && s.dropped == 0
  }

  datatype Action = Offer(raw: RawEvent) | TestFull | CopyIn | Publish | TestEmpty | CopyOut | Advance

  predicate Enabled(s: State, words: nat, a: Action) {
    match a
    case Offer(raw) => s.producer == Waiting && |raw| == words
    case TestFull => s.producer.Offered?
    case CopyIn =>
      s.producer.Copying? && s.producer.done < words && s.producer.done < |s.producer.ev| &&
      s.head < |s.slots| && s.producer.done < |s.slots[s.head]|
    case Publish => s.producer.Copying? && s.producer.done == words
    case TestEmpty => s.consumer == Idle
    case CopyOut =>
      s.consumer.Reading? && |s.consumer.buffer| < words &&
      s.tail < |s.slots| && |s.consumer.buffer| < |s.slots[s.tail]|
    case Advance => s.consumer.Reading? && |s.consumer.buffer| == words
  }

  function Apply(s: State, words: nat, a: Action): State
    requires Enabled(s, words, a)
  {
    match a
    case Offer(raw) => s.(producer := Offered(raw), offered := s.offered + [raw])
    case TestFull =>
      if Next(s.head) == s.tail
      then s.(producer := Waiting, dropped := s.dropped + 1)
      else s.(producer := Copying(s.producer.ev, 0))
    case CopyIn =>
      var k := s.producer.done;
      s.(slots := s.slots[s.head := s.slots[s.head][k := s.producer.ev[k]]],
         producer := Copying(s.producer.ev, k + 1))
    case Publish =>
      s.(head := Next(s.head), producer := Waiting, accepted := s.accepted + [s.producer.ev])
    case TestEmpty =>
      if s.tail == s.head then s else s.(consumer := Reading([]))
    case CopyOut =>
      var k := |s.consumer.buffer|;
      s.(consumer := Reading(s.consumer.buffer + [s.slots[s.tail][k]]))
    case Advance =>
      s.(tail := Next(s.tail), consumer := Idle, delivered := s.delivered + [s.consumer.buffer])
  }

  // ----- the bounded FIFO it implements -----

  /** What has been accepted and not yet delivered. */
  ghost function Queue(s: State): seq<RawEvent>
    requires |s.delivered| <= |s.accepted|
  {
    s.accepted[|s.delivered|..]
  }

  ghost predicate Subsequence(a: seq<RawEvent>, b: seq<RawEvent>) {
    a == [] ||
    (b != [] &&
     ((a[|a| - 1] == b[|b| - 1] && Subsequence(a[..|a| - 1], b[..|b| - 1])) || Subsequence(a, b[..|b| - 1])))
  }

  /** The slot that the i-th event ever accepted occupies. */
  function SlotOf(i: nat): nat {
    i % RING_SIZE
  }

  ghost predicate Inv(s: State, words: nat) {
    && |s.slots| == RING_SIZE && (forall i :: 0 <= i < RING_SIZE ==> |s.slots[i]| == words)
    && s.delivered <= s.accepted
    && s.head == SlotOf(|s.accepted|) && s.tail == SlotOf(|s.delivered|)
    && |Queue(s)| <= RING_SIZE - 1
    && (forall i :: |s.delivered| <= i < |s.accepted| ==> s.slots[SlotOf(i)] == s.accepted[i])
    && ProducerInv(s, words) && ConsumerInv(s, words)
  }

  ghost predicate ProducerInv(s: State, words: nat)
    requires s.delivered <= s.accepted && |s.slots| == RING_SIZE && s.head == SlotOf(|s.accepted|)
  {
    match s.producer
    case Waiting =>
      Subsequence(s.accepted, s.offered) && |s.offered| == |s.accepted| + s.dropped
    case Offered(ev) =>
      |ev| == words && InProgress(s, ev)
    case Copying(ev, done) =>
      && |ev| == words && InProgress(s, ev) && done <= words && |Queue(s)| < RING_SIZE - 1
      && |s.slots[s.head]| == words && s.slots[s.head][..done] == ev[..done]
  }

  ghost predicate InProgress(s: State, ev: RawEvent) {
    && s.offered != [] && s.offered[|s.offered| - 1] == ev
    && Subsequence(s.accepted, s.offered[..|s.offered| - 1])
    && |s.offered| == |s.accepted| + s.dropped + 1
  }

  ghost predicate ConsumerInv(s: State, words: nat)
    requires s.delivered <= s.accepted
  {
    s.consumer.Reading? ==>
      |Queue(s)| > 0 && |s.consumer.buffer| <= words && s.consumer.buffer <= Queue(s)[0]
  }

  lemma SlotsDiffer(i: nat, j: nat)
    requires i < j < i + RING_SIZE
    ensures SlotOf(i) != SlotOf(j)
  {
  }

  lemma SlotAfter(i: nat)
    ensures Next(SlotOf(i)) == SlotOf(i + 1)
  {
  }

  /** The producer sees the ring full, and the consumer sees it empty, exactly when the queue is. */
  lemma TestsExact(s: State, words: nat)
    requires Inv(s, words)
    ensures Next(s.head) == s.tail <==> |Queue(s)| == RING_SIZE - 1
    ensures s.head == s.tail <==> |Queue(s)| == 0
  {
    var a, d := |s.accepted|, |s.delivered|;
    SlotAfter(a);
    if d < a {
      SlotsDiffer(d, a);
    }
    if a + 1 < d + RING_SIZE {
      SlotsDiffer(d, a + 1);
    }
  }

  lemma InitInv(s: State, words: nat)
    requires Init(s, words)
    ensures Inv(s, words)
  {
  }

  lemma DroppedStaysSubsequence(a: seq<RawEvent>, b: seq<RawEvent>)
    requires b != [] && Subsequence(a, b[..|b| - 1])
    ensures Subsequence(a, b)
  {
  }

  lemma OfferKeepsInv(s: State, words: nat, raw: RawEvent)
    requires Inv(s, words) && Enabled(s, words, Offer(raw))
    ensures Inv(Apply(s, words, Offer(raw)), words)
  {
    assert (s.offered + [raw])[..|s.offered|] == s.offered;
  }

  lemma TestFullKeepsInv(s: State, words: nat)
    requires Inv(s, words) && Enabled(s, words, TestFull)
    ensures Inv(Apply(s, words, TestFull), words)
  {
    TestsExact(s, words);
    if Next(s.head) == s.tail {
      DroppedStaysSubsequence(s.accepted, s.offered);
    }
  }

  lemma CopyInKeepsInv(s: State, words: nat)
    requires Inv(s, words) && Enabled(s, words, CopyIn)
    ensures Inv(Apply(s, words, CopyIn), words)
  {
    var s' := Apply(s, words, CopyIn);
    forall i | |s.delivered| <= i < |s.accepted| ensures s'.slots[SlotOf(i)] == s.accepted[i] {
      SlotsDiffer(i, |s.accepted|);
    }
    var k := s.producer.done;
    assert s'.slots[s.head][..k + 1] == s.producer.ev[..k + 1] by {
      assert forall j :: 0 <= j < k ==> s.slots[s.head][..k][j] == s.producer.ev[..k][j];
    }
  }

  lemma CopyOutKeepsInv(s: State, words: nat)
    requires Inv(s, words) && Enabled(s, words, CopyOut)
    ensures Inv(Apply(s, words, CopyOut), words)
  {
    assert s.slots[s.tail] == s.accepted[|s.delivered|] == Queue(s)[0];
  }

  lemma PublishKeepsInv(s: State, words: nat)
    requires Inv(s, words) && Enabled(s, words, Publish)
    ensures Inv(Apply(s, words, Publish), words)
  {
    SlotAfter(|s.accepted|);
    assert s.slots[s.head] == s.producer.ev;
    assert (s.accepted + [s.producer.ev])[..|s.accepted|] == s.accepted;
  }

  lemma TestEmptyKeepsInv(s: State, words: nat)
    requires Inv(s, words) && Enabled(s, words, TestEmpty)
    ensures Inv(Apply(s, words, TestEmpty), words)
  {
    TestsExact(s, words);
  }

  lemma AdvanceKeepsInv(s: State, words: nat)
    requires Inv(s, words) && Enabled(s, words, Advance)
    ensures Inv(Apply(s, words, Advance), words)
  {
    SlotAfter(|s.delivered|);
    assert Queue(s)[0] == s.accepted[|s.delivered|] == s.slots[s.tail];
    assert s.consumer.buffer == Queue(s)[0];
  }

  lemma StepKeepsInv(s: State, words: nat, a: Action)
    requires Inv(s, words) && Enabled(s, words, a)
    ensures Inv(Apply(s, words, a), words)
  {
    match a {
      case Offer(raw) => OfferKeepsInv(s, words, raw);
      case TestFull => TestFullKeepsInv(s, words);
      case CopyIn => CopyInKeepsInv(s, words);
      case Publish => PublishKeepsInv(s, words);
      case TestEmpty => TestEmptyKeepsInv(s, words);
      case CopyOut => CopyOutKeepsInv(s, words);
      case Advance => AdvanceKeepsInv(s, words);
    }
  }

  /** One schedule: actions of the two threads in any order. */
  ghost predicate IsRun(states: seq<State>, words: nat, schedule: seq<Action>) {
    && |states| == |schedule| + 1 && Init(states[0], words)
    && forall i :: 0 <= i < |schedule| ==>
         Enabled(states[i], words, schedule[i]) && states[i + 1] == Apply(states[i], words, schedule[i])
  }

  lemma {:induction false} RunKeepsInv(states: seq<State>, words: nat, schedule: seq<Action>, n: nat)
    requires IsRun(states, words, schedule) && n < |states|
    ensures Inv(states[n], words)
  {
    if n == 0 {
      InitInv(states[0], words);
    } else {
      RunKeepsInv(states, words, schedule, n - 1);
      StepKeepsInv(states[n - 1], words, schedule[n - 1]);
    }
  }

  /** Under every interleaving: what was delivered, followed by what is queued, is what was accepted,
      in order and with no word torn; what was accepted is what was offered minus the drops; and the
      queue never exceeds the ring. */
  lemma RunRefinesFifo(states: seq<State>, words: nat, schedule: seq<Action>, n: nat)
    requires IsRun(states, words, schedule) && n < |states|
    ensures var s := states[n];
            && s.delivered <= s.accepted && s.delivered + Queue(s) == s.accepted
            && |Queue(s)| <= RING_SIZE - 1
            && Subsequence(s.accepted, s.offered)
            && |s.offered| == |s.accepted| + s.dropped + if s.producer == Waiting then 0 else 1
  {
    RunKeepsInv(states, words, schedule, n);
    var s := states[n];
    if s.producer != Waiting {
      DroppedStaysSubsequence(s.accepted, s.offered);
    }
  }

  /** Each step acts on the queue as one FIFO operation or not at all: only a publish enqueues, only an
      advance dequeues (what it delivers is the front), and an event is dropped only when the queue is
      full at that very step. */
  lemma StepIsFifoStep(s: State, words: nat, a: Action)
    requires Inv(s, words) && Enabled(s, words, a)
    ensures var s' := Apply(s, words, a);
            && s'.delivered <= s'.accepted
            && (a == Publish ==> Queue(s') == Queue(s) + [s.producer.ev] && |Queue(s)| < RING_SIZE - 1)
            && (a == Advance ==> Queue(s) == [s.consumer.buffer] + Queue(s') && s'.delivered == s.delivered + [Queue(s)[0]])
            && (a != Publish && a != Advance ==> Queue(s') == Queue(s))
            && (s'.dropped != s.dropped <==> a == TestFull && |Queue(s)| == RING_SIZE - 1)
  {
    StepKeepsInv(s, words, a);
    TestsExact(s, words);
    var s' := Apply(s, words, a);
    match a {
      case Publish => assert s'.accepted == s.accepted + [s.producer.ev];
      case Advance =>
        assert s.consumer.buffer == Queue(s)[0];
        assert s'.delivered == s.delivered + [s.consumer.buffer];
      case _ =>
    }
  }

  /** No slot is written while it can still be read: the slot under the producer's memcpy holds no queued
      event, so it is never the one under the consumer's. */
  lemma NoSlotSharedByBoth(s: State, words: nat)
    requires Inv(s, words) && s.producer.Copying?
    ensures forall i :: |s.delivered| <= i < |s.accepted| ==> SlotOf(i) != s.head
    ensures s.consumer.Reading? ==> s.head != s.tail
  {
    forall i | |s.delivered| <= i < |s.accepted| ensures SlotOf(i) != s.head {
      SlotsDiffer(i, |s.accepted|);
    }
  }

  /** The index bounds in the guards never hold a thread back: each always has a next step. */
  lemma NeitherThreadIsStuck(s: State, words: nat, raw: RawEvent)
    requires Inv(s, words) && |raw| == words
    ensures Enabled(s, words, Offer(raw)) || Enabled(s, words, TestFull) || Enabled(s, words, CopyIn) || Enabled(s, words, Publish)
    ensures Enabled(s, words, TestEmpty) || Enabled(s, words, CopyOut) || Enabled(s, words, Advance)
  {
    assert s.head < RING_SIZE && s.tail < RING_SIZE;
  }

  /** There are runs of every length: the ring can start, and some thread can always go on. */
  lemma {:induction false} RunOfAnyLength(words: nat, n: nat) returns (states: seq<State>, schedule: seq<Action>)
    ensures IsRun(states, words, schedule) && |schedule| == n
  {
    var slot: RawEvent := seq(words, _ => 0);
    if n == 0 {
      states, schedule := [State(seq(RING_SIZE, _ => slot), 0, 0, Waiting, Idle, [], [], 0, [])], [];
    } else {
      var before, done := RunOfAnyLength(words, n - 1);
      var last := before[n - 1];
      RunKeepsInv(before, words, done, n - 1);
      var a := NextOfProducer(last, words, slot);
      states, schedule := before + [Apply(last, words, a)], done + [a];
      hide Apply, Enabled, Init;
      forall i | 0 <= i < |schedule| ensures Enabled(states[i], words, schedule[i]) && states[i + 1] == Apply(states[i], words, schedule[i]) {
        if i < n - 1 {
          assert Enabled(before[i], words, done[i]) && before[i + 1] == Apply(before[i], words, done[i]);
        }
      }
    }
  }

  lemma NextOfProducer(s: State, words: nat, raw: RawEvent) returns (a: Action)
    requires Inv(s, words) && |raw| == words
    ensures Enabled(s, words, a)
  {
    NeitherThreadIsStuck(s, words, raw);
    a := if Enabled(s, words, Offer(raw)) then Offer(raw)
         else if Enabled(s, words, TestFull) then TestFull
         else if Enabled(s, words, CopyIn) then CopyIn
         else Publish;
  }
}
