/** The keyboard buffer as a state machine: interrupts arrive between any two steps of the one reader. */
module KeyRing {
  const MAX_BUFSIZ := 32

  datatype Key = Key(brk: int, meta: int, code: int, ch: int)

  /** What the reader runs: kb_getkey, or kb_getchar, which skips keys without a character. */
  datatype Call = GetKey | GetChar

  /** Where the reader is: outside, about to check the size, or with a key on its way. */
  datatype Reader =
    | Idle
    | Checking(call: Call)
    | Fetching(call: Call)
    | Advancing(call: Call, key: Key)
    | Wrapping(call: Call, key: Key)
    | Releasing(call: Call, key: Key)

  datatype Ring = Ring(buf: seq<Key>, head: nat, tail: nat, size: nat)

  /** A key that a call returns; calls are numbered in their order. */
  datatype Answer = Answer(call: int, key: Key)

  /** A state of the ring and the reader, with what was accepted into the buffer and taken from it, the calls made so
      far, by which of them each key was taken, and what they returned. */
  datatype State = State(ring: Ring, reader: Reader, accepted: seq<Key>, taken: seq<Key>, calls: seq<Call>,
                         takers: seq<int>, returned: seq<Answer>)

  datatype Event = Irq(key: Key) | Start(call: Call) | Continue

  /** addkey: the key is dropped if the buffer is full. */
  function AddKey(r: Ring, key: Key): Ring
    requires r.size < MAX_BUFSIZ ==> r.tail < |r.buf|
  {
    if r.size == MAX_BUFSIZ then r
    else Ring(if r.tail < |r.buf| then r.buf[r.tail := key] else r.buf, r.head,
              if r.tail + 1 == MAX_BUFSIZ then 0 else r.tail + 1, r.size + 1)
  }

  /** Whether the call returns this key, or goes on to the next. */
  predicate Returns(call: Call, key: Key) { call == GetKey || key.ch != 0 }

  /** One step of the reader. */
  function ReaderStep(s: State): State
    requires s.reader.Fetching? ==> s.ring.head < |s.ring.buf|
    requires s.reader.Releasing? ==> s.ring.size > 0
  {
    var r := s.ring;
    match s.reader
    case Idle => s
    case Checking(call) => s.(reader := if r.size == 0 then Idle else Fetching(call))
    case Fetching(call) => s.(reader := Advancing(call, r.buf[r.head]))
    case Advancing(call, key) => s.(ring := r.(head := r.head + 1), reader := Wrapping(call, key))
    case Wrapping(call, key) =>
      s.(ring := if r.head == MAX_BUFSIZ then r.(head := 0) else r, reader := Releasing(call, key))
    case Releasing(call, key) =>
      var current := |s.calls| - 1;
      s.(ring := r.(size := r.size - 1), taken := s.taken + [key], takers := s.takers + [current],
         reader := if Returns(call, key) then Idle else Checking(call),
         returned := if Returns(call, key) then s.returned + [Answer(current, key)] else s.returned)
  }

  ghost predicate CanStep(s: State, e: Event) {
    match e
    case Irq(_) => s.ring.size < MAX_BUFSIZ ==> s.ring.tail < |s.ring.buf|
    case Start(_) => s.reader.Idle?
    case Continue => (s.reader.Fetching? ==> s.ring.head < |s.ring.buf|) && (s.reader.Releasing? ==> s.ring.size > 0)
  }

  function Next(s: State, e: Event): State
    requires CanStep(s, e)
  {
    match e
    case Irq(key) =>
      s.(ring := AddKey(s.ring, key),
         accepted := if s.ring.size == MAX_BUFSIZ then s.accepted else s.accepted + [key])
    case Start(call) => s.(reader := Checking(call), calls := s.calls + [call])
    case Continue => ReaderStep(s)
  }

  const EMPTY := Key(0, 0, 0, 0)

  /** kb_init. */
  function Initial(): State {
    State(Ring(seq(MAX_BUFSIZ, _ => EMPTY), 0, 0, 0), Idle, [], [], [], [], [])
  }

  // ----- What the ring holds -----

  /** The slot of the oldest key that has not been released. */
  function Oldest(s: State): nat {
    match s.reader
    case Wrapping(_, _) => if s.ring.head == 0 then 0 else s.ring.head - 1
    case Releasing(_, _) => if s.ring.head == 0 then MAX_BUFSIZ - 1 else s.ring.head - 1
    case _ => s.ring.head
  }

  function Slot(p: nat): (i: nat)
    ensures i < MAX_BUFSIZ
  {
    p % MAX_BUFSIZ
  }

  /** The keys in the buffer, oldest first. */
  function Unread(s: State): (keys: seq<Key>)
    requires |s.ring.buf| == MAX_BUFSIZ
    ensures |keys| == s.ring.size
  {
    seq(s.ring.size, i requires 0 <= i < s.ring.size => s.ring.buf[Slot(Oldest(s) + i)])
  }

  /** Whether a call returns this key: kb_getkey any, kb_getchar one with a character. */
  predicate Answers(call: Call, key: Key) { call.GetKey? || key.ch != 0 }

  /** Each key was taken by a call that had been made, in the order of the calls. */
  ghost predicate TakenBy(s: State) {
    && |s.takers| == |s.taken| && (forall i :: 0 <= i < |s.takers| ==> 0 <= s.takers[i] < |s.calls|)
    && forall i, j :: 0 <= i < j < |s.takers| ==> s.takers[i] <= s.takers[j]
  }

  /** What the calls return, from the keys that they take: the keys that answer their call. */
  ghost function AnswersOf(taken: seq<Key>, takers: seq<int>, calls: seq<Call>): seq<Answer>
    requires |takers| == |taken| && forall i :: 0 <= i < |takers| ==> 0 <= takers[i] < |calls|
  {
    if taken == [] then []
    else
      var n := |taken| - 1;
      AnswersOf(taken[..n], takers[..n], calls)
      + (if Answers(calls[takers[n]], taken[n]) then [Answer(takers[n], taken[n])] else [])
  }

  /** A call takes no key after the one that answers it. */
  ghost predicate StopsAtAnswer(s: State)
    requires TakenBy(s)
  {
    forall i, j :: 0 <= i < j < |s.takers| && s.takers[i] == s.takers[j] ==> !Answers(s.calls[s.takers[i]], s.taken[i])
  }

  /** The call that runs has not had its answer. */
  ghost predicate Waiting(s: State)
    requires TakenBy(s)
  {
    !s.reader.Idle? ==>
      && s.calls != [] && s.reader.call == s.calls[|s.calls| - 1]
      && forall i :: 0 <= i < |s.takers| && s.takers[i] == |s.calls| - 1 ==> !Answers(s.reader.call, s.taken[i])
  }

  /** The calls so far: each returned the first key that it took and that answers it. */
  ghost predicate Answered(s: State) {
    TakenBy(s) && StopsAtAnswer(s) && Waiting(s) && s.returned == AnswersOf(s.taken, s.takers, s.calls)
  }

  /** A new call changes no answer. */
  lemma {:induction false} AnswersStay(taken: seq<Key>, takers: seq<int>, calls: seq<Call>, call: Call)
    requires |takers| == |taken| && forall i :: 0 <= i < |takers| ==> 0 <= takers[i] < |calls|
    ensures AnswersOf(taken, takers, calls + [call]) == AnswersOf(taken, takers, calls)
  {
    if taken != [] {
      var n := |taken| - 1;
      AnswersStay(taken[..n], takers[..n], calls, call);
    }
  }

  lemma StartAnswered(s: State, call: Call)
    requires Answered(s) && s.reader.Idle?
    ensures Answered(Next(s, Start(call)))
  {
    AnswersStay(s.taken, s.takers, s.calls, call);
  }

  /** A key is released by the call that runs. */
  lemma ReleaseAnswered(s: State)
    requires Answered(s) && s.reader.Releasing? && s.ring.size > 0
    ensures Answered(ReaderStep(s))
  {
    var next, n := ReaderStep(s), |s.taken|;
    assert next.taken[..n] == s.taken && next.takers[..n] == s.takers;
  }

  ghost predicate Inv(s: State) { RingInv(s) && Answered(s) }

  /** The ring's invariant, by the position of each key in the order in which keys were accepted. */
  ghost predicate RingInv(s: State) {
    var r, t := s.ring, |s.taken|;
    && |r.buf| == MAX_BUFSIZ && r.size <= MAX_BUFSIZ && |s.accepted| == t + r.size
    && s.taken == s.accepted[..t] && r.tail == Slot(|s.accepted|)
    && (forall p :: t <= p < |s.accepted| ==> r.buf[Slot(p)] == s.accepted[p])
    && ReaderInv(s)
  }

  /** The reader's part: while it has a key, the buffer is not empty, and the key is the oldest. */
  ghost predicate ReaderInv(s: State)
    requires |s.taken| <= |s.accepted|
  {
    var t := |s.taken|;
    match s.reader
    case Idle => s.ring.head == Slot(t)
    case Checking(_) => s.ring.head == Slot(t)
    case Fetching(_) => s.ring.head == Slot(t) && s.ring.size > 0
    case Advancing(_, key) => s.ring.head == Slot(t) && t < |s.accepted| && key == s.accepted[t] && s.ring.size > 0
    case Wrapping(_, key) => s.ring.head == Slot(t) + 1 && t < |s.accepted| && key == s.accepted[t] && s.ring.size > 0
    case Releasing(_, key) => s.ring.head == Slot(t + 1) && t < |s.accepted| && key == s.accepted[t] && s.ring.size > 0
  }

  lemma SlotNext(p: nat)
    ensures Slot(p + 1) == if Slot(p) + 1 == MAX_BUFSIZ then 0 else Slot(p) + 1
  {
  }

  lemma SlotApart(p: nat, q: nat)
    requires p < q < p + MAX_BUFSIZ
    ensures Slot(p) != Slot(q)
  {
  }

  lemma InitialInv()
    ensures Inv(Initial())
  {
  }

  /** The slot that an interrupt writes holds no unread key. */
  lemma TailApart(s: State, p: nat)
    requires Inv(s) && s.ring.size < MAX_BUFSIZ && |s.taken| <= p < |s.accepted|
    ensures Slot(p) != s.ring.tail
  {
    SlotApart(p, |s.accepted|);
  }

  lemma IrqInv(s: State, key: Key)
    requires Inv(s)
    ensures Inv(Next(s, Irq(key)))
  {
    if s.ring.size < MAX_BUFSIZ {
      var next := Next(s, Irq(key));
      SlotNext(|s.accepted|);
      forall p | |s.taken| <= p < |next.accepted|
        ensures next.ring.buf[Slot(p)] == next.accepted[p]
      {
        if p < |s.accepted| { TailApart(s, p); }
      }
    }
  }

  lemma RingStep(s: State)
    requires RingInv(s)
    ensures CanStep(s, Continue) && RingInv(ReaderStep(s))
  {
    SlotNext(|s.taken|);
  }

  lemma AnsweredStep(s: State)
    requires Answered(s) && CanStep(s, Continue)
    ensures Answered(ReaderStep(s))
  {
    if s.reader.Releasing? { ReleaseAnswered(s); }
  }

  lemma ReaderStepInv(s: State)
    requires Inv(s)
    ensures CanStep(s, Continue) && Inv(ReaderStep(s))
  {
    RingStep(s);
    AnsweredStep(s);
  }

  /** An event that can happen: interrupts always, a call only from outside the reader. */
  ghost predicate Happens(s: State, e: Event) { e.Start? ==> s.reader.Idle? }

  lemma NextInv(s: State, e: Event)
    requires Inv(s) && Happens(s, e)
    ensures CanStep(s, e) && Inv(Next(s, e))
  {
    match e
    case Irq(key) => IrqInv(s, key);
    case Start(call) => StartAnswered(s, call);
    case Continue => ReaderStepInv(s);
  }

  // ----- Every interleaving -----

  /** The states of a run, one after the other, from the initial one. */
  ghost predicate IsRun(states: seq<State>, events: seq<Event>) {
    && |states| == |events| + 1 && states[0] == Initial()
    && forall i :: 0 <= i < |events| ==> StepAt(states, events, i)
  }

  ghost predicate StepAt(states: seq<State>, events: seq<Event>, i: int)
    requires 0 <= i < |events| && |states| == |events| + 1
  {
    Happens(states[i], events[i]) && CanStep(states[i], events[i]) && states[i + 1] == Next(states[i], events[i])
  }

  lemma {:induction false} RunInv(states: seq<State>, events: seq<Event>, i: nat)
    requires IsRun(states, events) && i < |states|
    ensures Inv(states[i])
  {
    if i == 0 {
      InitialInv();
    } else {
      RunInv(states, events, i - 1);
      assert StepAt(states, events, i - 1);
      NextInv(states[i - 1], events[i - 1]);
    }
  }

  /** What the invariant says of the ring itself: keys taken, followed by those still in it, are the accepted ones. */
  lemma NothingLost(s: State)
    requires Inv(s)
    ensures s.taken + Unread(s) == s.accepted && s.ring.size <= MAX_BUFSIZ && s.ring.head <= MAX_BUFSIZ
    ensures s.ring.tail < MAX_BUFSIZ
  {
    var t := |s.taken|;
    OldestSlot(s);
    forall i | 0 <= i < s.ring.size
      ensures Unread(s)[i] == s.accepted[t + i]
    {
      SlotSum(Oldest(s), t, i);
    }
  }

  lemma OldestSlot(s: State)
    requires Inv(s)
    ensures Oldest(s) == Slot(|s.taken|)
  {
    SlotNext(|s.taken|);
  }

  lemma SlotSum(a: nat, p: nat, i: nat)
    requires a == Slot(p)
    ensures Slot(a + i) == Slot(p + i)
  {
  }

  /** In every interleaving, at every moment: keys taken and keys buffered are the accepted keys, in order; and each
      call returned the first key that it took and that answers it, which for kb_getchar is one with a character. */
  lemma EveryInterleaving(states: seq<State>, events: seq<Event>, i: nat)
    requires IsRun(states, events) && i < |states|
    ensures var s := states[i];
      && |s.ring.buf| == 32 && s.taken + Unread(s) == s.accepted
      && s.ring.size <= 32 && s.ring.tail < 32 && s.ring.head <= 32
      && TakenBy(s) && StopsAtAnswer(s) && s.returned == AnswersOf(s.taken, s.takers, s.calls)
  {
    RunInv(states, events, i);
    NothingLost(states[i]);
  }

  /** A call gives up only when nothing is unread. */
  lemma GivesUpWhenEmpty(states: seq<State>, events: seq<Event>, i: nat)
    requires IsRun(states, events) && i < |events| && events[i] == Continue && states[i].reader.Checking?
    ensures states[i + 1].reader.Idle? <==> states[i].taken == states[i].accepted
  {
    RunInv(states, events, i);
    assert StepAt(states, events, i);
    NothingLost(states[i]);
  }

  /** An interrupt, at any step of the reader, leaves the unread keys as they are and adds its own unless the buffer
      is full. */
  lemma IrqKeepsUnread(states: seq<State>, events: seq<Event>, i: nat, key: Key)
    requires IsRun(states, events) && i < |states|
    ensures var s := states[i];
      && CanStep(s, Irq(key)) && |s.ring.buf| == MAX_BUFSIZ && |Next(s, Irq(key)).ring.buf| == MAX_BUFSIZ
      && Unread(Next(s, Irq(key))) == (if |Unread(s)| == 32 then Unread(s) else Unread(s) + [key])
      && Next(s, Irq(key)).accepted == (if |Unread(s)| == 32 then s.accepted else s.accepted + [key])
  {
    RunInv(states, events, i);
    var s := states[i];
    NextInv(s, Irq(key));
    var next := Next(s, Irq(key));
    NothingLost(s);
    NothingLost(next);
    assert Unread(s) == s.accepted[|s.taken|..];
    assert Unread(next) == next.accepted[|s.taken|..];
  }
}
