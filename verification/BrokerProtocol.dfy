/** The broker's dispatch protocol: dispatchers, publishers and the destructor as interleaved atomic steps. */
module BrokerProtocol {
  import opened Bytes
  import opened Values
  import opened Printing
  import Grammar
  import RoundTrip

  type Tag(==,!new,0) = Text

  /** A queued message; `id` is its place in the order of all pushes. */
  datatype Message = Message(id: nat, tag: Tag, json: Text)

  datatype Cause = Canceled | UnknownTopic

  /** Where a dispatcher is in its loop. */
  datatype Dispatcher =
    | Ready                  // about to lock the queue mutex
    | Testing                // holds the mutex, about to evaluate the wait predicate
    | Parking                // holds the mutex, found the predicate false, about to block
    | Blocked                // in the wait, mutex released
    | Woken                  // notified or spuriously woken, about to lock the mutex again
    | Passed                 // holds the mutex, found the predicate true
    | Holding(message: Message)  // popped a message, mutex released
    | Left(cause: Cause)     // returned

  datatype State = State(
    dispatchers: seq<Dispatcher>,
    queue: seq<Message>,
    notifying: nat,          // publishers between their push and their notify_one
    canceled: bool,
    notifiedAll: bool,       // the destructor has called notify_all
    topics: map<Tag, nat>,   // known topics and their number of subscribers
    // History
    enqueued: seq<Message>,
    dequeued: seq<Message>,
    finished: multiset<Message>,
    delivered: seq<Message>, // once for every subscriber
    late: set<nat>,          // dispatchers parking when notify_all was called
    pushedAfterCancel: bool
  )

  datatype Step =
    | Lock(d: nat)
    | Test(d: nat)
    | Park(d: nat)
    | Take(d: nat)
    | Dispatch(d: nat)
    | Spurious(d: nat)
    | Push(tag: Tag, body: Value)
    | NotifyOne(d: nat)
    | NotifyNobody
    | Cancel
    | NotifyAll
    | Subscribe(tag: Tag)
    | Unsubscribe(tag: Tag)

  predicate HoldsMutex(d: Dispatcher) {
    d == Testing || d == Parking || d == Passed
  }

  predicate MutexFree(s: State) {
    forall i :: 0 <= i < |s.dispatchers| ==> !HoldsMutex(s.dispatchers[i])
  }

  predicate At(s: State, d: nat, pc: Dispatcher) {
    d < |s.dispatchers| && s.dispatchers[d] == pc
  }

  function Initial(count: nat): State {
    State(seq(count, _ => Ready), [], 0, false, false, map[], [], [], multiset{}, [], {}, false)
  }

  predicate Enabled(s: State, step: Step) {
    match step
    case Lock(d) => MutexFree(s) && (At(s, d, Ready) || At(s, d, Woken))
    case Test(d) => At(s, d, Testing)
    case Park(d) => At(s, d, Parking)
    case Take(d) => At(s, d, Passed)
    case Dispatch(d) => d < |s.dispatchers| && s.dispatchers[d].Holding?
    case Spurious(d) => At(s, d, Blocked)
    case Push(_, body) => MutexFree(s) && DoubleFree(body)
    case NotifyOne(d) => s.notifying > 0 && At(s, d, Blocked)
    case NotifyNobody => s.notifying > 0 && Blocked !in s.dispatchers
    case Cancel => !s.canceled
    case NotifyAll => s.canceled && !s.notifiedAll
    case Subscribe(_) => true
    case Unsubscribe(tag) => tag in s.topics && s.topics[tag] > 0
  }

  function Move(s: State, d: nat, pc: Dispatcher): State
    requires d < |s.dispatchers|
  {
    s.(dispatchers := s.dispatchers[d := pc])
  }

  function Wake(d: Dispatcher): Dispatcher {
    if d == Blocked then Woken else d
  }

  function Copies(m: Message, n: nat): seq<Message> {
    seq(n, _ => m)
  }

  /** The wait predicate. */
  predicate MayProceed(s: State) {
    s.canceled || s.queue != []
  }

  /** The steps of a single dispatcher. */
  predicate MovesOne(step: Step) {
    step.Lock? || step.Test? || step.Park? || step.Take? || step.Dispatch? || step.Spurious? || step.NotifyOne?
  }

  /** Where a step takes its dispatcher. */
  function NextPc(s: State, step: Step): Dispatcher
    requires MovesOne(step) && Enabled(s, step)
    requires step.Take? ==> MayProceed(s)
  {
    match step
    case Lock(_) => Testing
    case Test(_) => if MayProceed(s) then Passed else Parking
    case Park(_) => Blocked
    case Take(_) => if s.canceled && s.queue == [] then Left(Canceled) else Holding(s.queue[0])
    case Dispatch(d) => if s.dispatchers[d].message.tag !in s.topics then Left(UnknownTopic) else Ready
    case Spurious(_) => Woken
    case NotifyOne(_) => Woken
  }

  /** One atomic step. */
  function Apply(s: State, step: Step): State
    requires Enabled(s, step)
    requires step.Take? ==> MayProceed(s)
  {
    match step
    case Lock(d) => Move(s, d, NextPc(s, step))
    case Test(d) => Move(s, d, NextPc(s, step))
    case Park(d) => Move(s, d, NextPc(s, step))
    case Spurious(d) => Move(s, d, NextPc(s, step))
    case Take(d) =>
      var pc := NextPc(s, step);
      if pc.Left? then Move(s, d, pc)
      else Move(s, d, pc).(queue := s.queue[1..], dequeued := s.dequeued + [s.queue[0]])
    case Dispatch(d) =>
      var m, pc := s.dispatchers[d].message, NextPc(s, step);
      var t := Move(s, d, pc).(finished := s.finished + multiset{m});
      if pc.Left? then t
      else t.(delivered := s.delivered + Copies(m, s.topics[m.tag]))
    case NotifyOne(d) => Move(s, d, NextPc(s, step)).(notifying := s.notifying - 1)
    case Push(tag, body) =>
      var m := Message(|s.enqueued|, tag, Print(body));
      s.(queue := s.queue + [m], enqueued := s.enqueued + [m], notifying := s.notifying + 1,
         pushedAfterCancel := s.pushedAfterCancel || s.canceled)
    case NotifyNobody => s.(notifying := s.notifying - 1)
    case Cancel => s.(canceled := true)
    case NotifyAll =>
      s.(dispatchers := seq(|s.dispatchers|, i requires 0 <= i < |s.dispatchers| => Wake(s.dispatchers[i])),
         notifiedAll := true,
         late := set i | 0 <= i < |s.dispatchers| && s.dispatchers[i] == Parking)
    case Subscribe(tag) => s.(topics := s.topics[tag := (if tag in s.topics then s.topics[tag] else 0) + 1])
    case Unsubscribe(tag) => s.(topics := s.topics[tag := s.topics[tag] - 1])
  }

  // ---------------------------------------------------------------------------
  // What every step keeps
  // ---------------------------------------------------------------------------

  predicate MutualExclusion(s: State) {
    forall i, j :: 0 <= i < j < |s.dispatchers| ==> !(HoldsMutex(s.dispatchers[i]) && HoldsMutex(s.dispatchers[j]))
  }

  /** A dispatcher past the predicate will find a message or leave; one that parks has seen an empty queue. */
  predicate PredicateStable(s: State) {
    && (Passed in s.dispatchers ==> MayProceed(s))
    && (Parking in s.dispatchers ==> s.queue == [])
  }

  function Count(s: State, pc: Dispatcher): nat {
    multiset(s.dispatchers)[pc]
  }

  /** While a dispatcher is blocked, every queued message has a dispatcher or a notification on its way. */
  predicate NoLostWakeup(s: State) {
    Blocked in s.dispatchers ==>
      |s.queue| <= Count(s, Woken) + Count(s, Testing) + Count(s, Passed) + s.notifying
  }

  function HeldBy(d: Dispatcher): multiset<Message> {
    if d.Holding? then multiset{d.message} else multiset{}
  }

  function Held(dispatchers: seq<Dispatcher>): multiset<Message> {
    if dispatchers == [] then multiset{} else HeldBy(dispatchers[0]) + Held(dispatchers[1..])
  }

  /** Every message is queued, held by a dispatcher or finished, and leaves the queue in order. */
  predicate Conserved(s: State) {
    && s.enqueued == s.dequeued + s.queue
    && multiset(s.dequeued) == Held(s.dispatchers) + s.finished
    && forall i :: 0 <= i < |s.enqueued| ==> s.enqueued[i].id == i
  }

  /** Every queued text is the print of some body. */
  ghost predicate Printed(m: Message) {
    exists body :: DoubleFree(body) && m.json == Print(body)
  }

  ghost predicate AllPrinted(s: State) {
    && (forall m :: m in s.enqueued ==> Printed(m))
    && (forall m :: m in s.delivered ==> m in s.finished)
  }

  /** After a cancel exit the queue is empty, unless something was pushed after Cancel. */
  predicate Drained(s: State) {
    && (s.notifiedAll ==> s.canceled)
    && (Left(Canceled) in s.dispatchers ==> s.canceled && (s.queue == [] || s.pushedAfterCancel))
  }

  /** After notify_all only a dispatcher that was parking then can still be parking or blocked. */
  predicate OnlyLateBlocked(s: State) {
    && (s.notifiedAll ==> forall i :: 0 <= i < |s.dispatchers| && s.dispatchers[i] in {Parking, Blocked} ==> i in s.late)
    && forall i, j :: i in s.late && j in s.late ==> i == j
  }

  ghost predicate Inv(s: State) {
    MutualExclusion(s) && PredicateStable(s) && NoLostWakeup(s) && Conserved(s) && AllPrinted(s) && Drained(s) && OnlyLateBlocked(s)
  }

  lemma InitialInv(count: nat)
    ensures Inv(Initial(count))
  {
    var s := Initial(count);
    NothingHeld(s.dispatchers);
  }

  lemma {:induction false} NothingHeld(dispatchers: seq<Dispatcher>)
    requires forall i :: 0 <= i < |dispatchers| ==> !dispatchers[i].Holding?
    ensures Held(dispatchers) == multiset{}
    decreases |dispatchers|
  {
    if dispatchers != [] {
      NothingHeld(dispatchers[1..]);
    }
  }

  /** Replacing one dispatcher exchanges what it holds. */
  lemma {:induction false} HeldUpdate(dispatchers: seq<Dispatcher>, d: nat, pc: Dispatcher)
    requires d < |dispatchers|
    ensures forall m :: Held(dispatchers[d := pc])[m] + HeldBy(dispatchers[d])[m] == Held(dispatchers)[m] + HeldBy(pc)[m]
    decreases |dispatchers|
  {
    hide HeldBy;
    var updated := dispatchers[d := pc];
    if d > 0 {
      assert updated[0] == dispatchers[0] && updated[1..] == dispatchers[1..][d - 1 := pc];
      HeldUpdate(dispatchers[1..], d - 1, pc);
    } else {
      assert updated[0] == pc && updated[1..] == dispatchers[1..];
    }
  }

  lemma HeldSame(dispatchers: seq<Dispatcher>, d: nat, pc: Dispatcher)
    requires d < |dispatchers| && !dispatchers[d].Holding? && !pc.Holding?
    ensures Held(dispatchers[d := pc]) == Held(dispatchers)
  {
    HeldUpdate(dispatchers, d, pc);
    assert forall m :: Held(dispatchers[d := pc])[m] == Held(dispatchers)[m];
  }

  lemma HeldMore(dispatchers: seq<Dispatcher>, d: nat, m: Message)
    requires d < |dispatchers| && !dispatchers[d].Holding?
    ensures Held(dispatchers[d := Holding(m)]) == Held(dispatchers) + multiset{m}
  {
    HeldUpdate(dispatchers, d, Holding(m));
    assert forall x :: Held(dispatchers[d := Holding(m)])[x] == Held(dispatchers)[x] + multiset{m}[x];
  }

  lemma HeldLess(dispatchers: seq<Dispatcher>, d: nat, pc: Dispatcher)
    requires d < |dispatchers| && dispatchers[d].Holding? && !pc.Holding?
    ensures Held(dispatchers) == Held(dispatchers[d := pc]) + multiset{dispatchers[d].message}
  {
    HeldUpdate(dispatchers, d, pc);
    assert forall x :: Held(dispatchers)[x] == Held(dispatchers[d := pc])[x] + multiset{dispatchers[d].message}[x];
  }

  /** Replacing one dispatcher moves one unit between two counts. */
  lemma CountMove(s: State, d: nat, pc: Dispatcher, x: Dispatcher)
    requires d < |s.dispatchers|
    ensures Count(Move(s, d, pc), x)
      == Count(s, x) - (if s.dispatchers[d] == x then 1 else 0) + (if pc == x then 1 else 0)
  {
    var before := s.dispatchers;
    assert before == before[..d] + [before[d]] + before[d + 1..];
    assert before[d := pc] == before[..d] + [pc] + before[d + 1..];
  }

  lemma {:induction false} HeldWoken(before: seq<Dispatcher>, after: seq<Dispatcher>)
    requires |before| == |after| && forall i :: 0 <= i < |before| ==> after[i] == Wake(before[i])
    ensures Held(after) == Held(before)
    decreases |before|
  {
    if before != [] {
      HeldWoken(before[1..], after[1..]);
    }
  }

  lemma OneMoves(s: State, step: Step)
    requires MovesOne(step) && Enabled(s, step) && (step.Take? ==> MayProceed(s))
    ensures Apply(s, step).dispatchers == s.dispatchers[step.d := NextPc(s, step)]
  {
    hide NextPc;
  }

  /** The dispatchers after a step of somebody else. */
  lemma OthersStay(s: State, step: Step)
    requires !MovesOne(step) && Enabled(s, step)
    ensures |Apply(s, step).dispatchers| == |s.dispatchers|
    ensures forall i :: 0 <= i < |s.dispatchers| ==>
      Apply(s, step).dispatchers[i] == if step.NotifyAll? then Wake(s.dispatchers[i]) else s.dispatchers[i]
  {}

  lemma KeepsMutualExclusion(s: State, step: Step)
    requires MutualExclusion(s) && Enabled(s, step) && (step.Take? ==> MayProceed(s))
    ensures MutualExclusion(Apply(s, step))
  {
    hide Apply;
    if MovesOne(step) {
      OneMoves(s, step);
    } else {
      OthersStay(s, step);
    }
  }

  /** Only pops change what the predicate saw, and a dispatcher past it holds the mutex. */
  lemma KeepsMayProceed(s: State, step: Step)
    requires Enabled(s, step) && !step.Take? && MayProceed(s)
    ensures MayProceed(Apply(s, step))
  {}

  lemma KeepsQueue(s: State, step: Step)
    requires Enabled(s, step) && !step.Take? && !step.Push?
    ensures Apply(s, step).queue == s.queue
  {}

  lemma KeepsPredicateStable(s: State, step: Step)
    requires MutualExclusion(s) && PredicateStable(s) && Enabled(s, step) && (step.Take? ==> MayProceed(s))
    ensures PredicateStable(Apply(s, step))
  {
    hide Apply;
    var t := Apply(s, step);
    if MovesOne(step) {
      OneMoves(s, step);
    } else {
      OthersStay(s, step);
    }
    if Passed in t.dispatchers {
      var i :| 0 <= i < |t.dispatchers| && t.dispatchers[i] == Passed;
      assert (step.Test? && step.d == i) || s.dispatchers[i] == Passed;
      KeepsMayProceed(s, step);
    }
    if Parking in t.dispatchers {
      var i :| 0 <= i < |t.dispatchers| && t.dispatchers[i] == Parking;
      assert (step.Test? && step.d == i) || s.dispatchers[i] == Parking;
      KeepsQueue(s, step);
    }
  }

  /** The counts that matter to NoLostWakeup, after a dispatcher has moved. */
  lemma CountsMove(s: State, step: Step)
    requires MovesOne(step) && Enabled(s, step) && (step.Take? ==> MayProceed(s))
    ensures forall x :: x == Woken || x == Testing || x == Passed ==>
      Count(Apply(s, step), x)
        == Count(s, x) - (if s.dispatchers[step.d] == x then 1 else 0) + (if NextPc(s, step) == x then 1 else 0)
  {
    hide Apply, NextPc;
    OneMoves(s, step);
    forall x | x == Woken || x == Testing || x == Passed
      ensures Count(Apply(s, step), x)
        == Count(s, x) - (if s.dispatchers[step.d] == x then 1 else 0) + (if NextPc(s, step) == x then 1 else 0)
    {
      CountMove(s, step.d, NextPc(s, step), x);
    }
  }

  lemma BlockedBefore(s: State, step: Step)
    requires MovesOne(step) && Enabled(s, step) && (step.Take? ==> MayProceed(s))
    requires !step.Park? && Blocked in Apply(s, step).dispatchers
    ensures Blocked in s.dispatchers
  {
    hide Apply;
    OneMoves(s, step);
  }

  /** A dispatcher that moves without parking accounts for at most the message it took and the notification it got. */
  lemma MoveKeepsWakeup(s: State, step: Step)
    requires PredicateStable(s) && NoLostWakeup(s)
    requires MovesOne(step) && !step.Park? && Enabled(s, step) && (step.Take? ==> MayProceed(s))
    ensures NoLostWakeup(Apply(s, step))
  {
    hide Count;
    if Blocked in Apply(s, step).dispatchers {
      BlockedBefore(s, step);
      CountsMove(s, step);
    }
  }

  /** The heart of the protocol: no step loses the wakeup of a pushed message. */
  lemma KeepsNoLostWakeup(s: State, step: Step)
    requires PredicateStable(s) && NoLostWakeup(s)
    requires Enabled(s, step) && (step.Take? ==> MayProceed(s))
    ensures NoLostWakeup(Apply(s, step))
  {
    var t := Apply(s, step);
    if step.NotifyAll? {
      assert Blocked !in t.dispatchers;
    } else if step.Park? {
      assert Parking in s.dispatchers;
    } else if MovesOne(step) {
      MoveKeepsWakeup(s, step);
    } else {
      assert t.dispatchers == s.dispatchers;
    }
  }

  lemma KeepsConserved(s: State, step: Step)
    requires Conserved(s) && Enabled(s, step) && (step.Take? ==> MayProceed(s))
    ensures Conserved(Apply(s, step))
  {
    hide Held;
    var t := Apply(s, step);
    if step.Take? {
      TakeConserves(s, step.d);
    } else if step.Dispatch? {
      DispatchConserves(s, step.d);
    } else if MovesOne(step) {
      OneMoves(s, step);
      HeldSame(s.dispatchers, step.d, t.dispatchers[step.d]);
    } else {
      OthersConserve(s, step);
    }
  }

  lemma OthersConserve(s: State, step: Step)
    requires Conserved(s) && Enabled(s, step) && !MovesOne(step)
    ensures Conserved(Apply(s, step))
  {
    hide Held;
    var t := Apply(s, step);
    if step.NotifyAll? {
      HeldWoken(s.dispatchers, t.dispatchers);
    } else if step.Push? {
      assert t.enqueued == t.dequeued + t.queue;
    }
  }

  lemma TakeConserves(s: State, d: nat)
    requires Conserved(s) && Enabled(s, Take(d)) && MayProceed(s)
    ensures Conserved(Apply(s, Take(d)))
  {
    hide Held;
    var t := Apply(s, Take(d));
    if s.queue == [] {
      HeldSame(s.dispatchers, d, Left(Canceled));
    } else {
      var m := s.queue[0];
      HeldMore(s.dispatchers, d, m);
      assert s.queue == [m] + s.queue[1..];
      assert t.enqueued == t.dequeued + t.queue;
      assert multiset(t.dequeued) == multiset(s.dequeued) + multiset{m};
      assert Held(s.dispatchers) + s.finished + multiset{m} == Held(s.dispatchers) + multiset{m} + s.finished;
    }
  }

  lemma DispatchConserves(s: State, d: nat)
    requires Conserved(s) && Enabled(s, Dispatch(d))
    ensures Conserved(Apply(s, Dispatch(d)))
  {
    hide Held;
    var t := Apply(s, Dispatch(d));
    var m := s.dispatchers[d].message;
    HeldLess(s.dispatchers, d, t.dispatchers[d]);
    assert t.dispatchers == s.dispatchers[d := t.dispatchers[d]];
    assert Held(t.dispatchers) + multiset{m} + s.finished == Held(t.dispatchers) + (s.finished + multiset{m});
  }

  lemma KeepsAllPrinted(s: State, step: Step)
    requires Conserved(s) && AllPrinted(s) && Enabled(s, step) && (step.Take? ==> MayProceed(s))
    ensures AllPrinted(Apply(s, step))
  {
    var t := Apply(s, step);
    if step.Push? {
      assert Printed(Message(|s.enqueued|, step.tag, Print(step.body)));
    }
  }

  lemma KeepsDrained(s: State, step: Step)
    requires Drained(s) && Enabled(s, step) && (step.Take? ==> MayProceed(s))
    ensures Drained(Apply(s, step))
  {
    var t := Apply(s, step);
    if Left(Canceled) in t.dispatchers {
      var i :| 0 <= i < |t.dispatchers| && t.dispatchers[i] == Left(Canceled);
      if s.dispatchers[i] == Left(Canceled) {
        assert Left(Canceled) in s.dispatchers;
      }
    }
  }

  lemma KeepsOnlyLateBlocked(s: State, step: Step)
    requires MutualExclusion(s) && Drained(s) && OnlyLateBlocked(s) && Enabled(s, step) && (step.Take? ==> MayProceed(s))
    ensures OnlyLateBlocked(Apply(s, step))
  {
    if !step.NotifyAll? {
      SameLate(s, step);
      if MovesOne(step) {
        OneMoves(s, step);
        if s.canceled {
          FallsAsleep(s, step);
        }
      } else {
        OthersStay(s, step);
      }
      hide Apply, Enabled, NextPc, MutualExclusion;
    }
  }

  lemma SameLate(s: State, step: Step)
    requires Enabled(s, step) && !step.NotifyAll? && (step.Take? ==> MayProceed(s))
    ensures Apply(s, step).late == s.late && Apply(s, step).notifiedAll == s.notifiedAll
  {
    hide NextPc, Print, DoubleFree;
  }

  /** Once canceled, only a dispatcher that was parking falls asleep. */
  lemma FallsAsleep(s: State, step: Step)
    requires MovesOne(step) && Enabled(s, step) && (step.Take? ==> MayProceed(s)) && s.canceled
    ensures NextPc(s, step) in {Parking, Blocked} ==> s.dispatchers[step.d] == Parking
  {}

  /** Every step keeps the invariant, and a dispatcher never pops an empty queue. */
  lemma StepInv(s: State, step: Step)
    requires Inv(s) && Enabled(s, step)
    ensures step.Take? ==> MayProceed(s)
    ensures Inv(Apply(s, step))
  {
    hide MutualExclusion, NoLostWakeup, Conserved, AllPrinted, Drained, OnlyLateBlocked;
    if step.Take? {
      assert s.dispatchers[step.d] in s.dispatchers;
    }
    KeepsMutualExclusion(s, step);
    KeepsPredicateStable(s, step);
    KeepsNoLostWakeup(s, step);
    KeepsConserved(s, step);
    KeepsAllPrinted(s, step);
    KeepsDrained(s, step);
    KeepsOnlyLateBlocked(s, step);
  }

  // ---------------------------------------------------------------------------
  // Runs
  // ---------------------------------------------------------------------------

  /** `steps` is a run from `s` to `t`. */
  ghost predicate Run(s: State, steps: seq<Step>, t: State)
    requires Inv(s)
    decreases |steps|
  {
    if steps == [] then t == s
    else
      Enabled(s, steps[0]) &&
      (StepInv(s, steps[0]); Run(Apply(s, steps[0]), steps[1..], t))
  }

  ghost predicate Reachable(s: State) {
    exists count: nat, steps :: (InitialInv(count); Run(Initial(count), steps, s))
  }

  lemma {:induction false} RunInv(s: State, steps: seq<Step>, t: State)
    requires Inv(s) && Run(s, steps, t)
    ensures Inv(t)
    decreases |steps|
  {
    hide Inv, Apply, Enabled;
    if steps != [] {
      StepInv(s, steps[0]);
      RunInv(Apply(s, steps[0]), steps[1..], t);
    }
  }

  lemma ReachableInv(s: State)
    requires Reachable(s)
    ensures Inv(s)
  {
    hide Inv;
    var count: nat, steps :| (InitialInv(count); Run(Initial(count), steps, s));
    InitialInv(count);
    RunInv(Initial(count), steps, s);
  }

  /** In every run: with the mutex free, a blocked dispatcher leaves no message without a wakeup on its way. */
  lemma NoWakeupIsLost(s: State)
    requires Reachable(s) && MutexFree(s) && Blocked in s.dispatchers
    ensures |s.queue| <= Count(s, Woken) + s.notifying
  {
    ReachableInv(s);
  }

  /** In every run: pushes, pops and finishes account for every message once, in push order. */
  lemma EveryMessageOnce(s: State)
    requires Reachable(s)
    ensures s.dequeued <= s.enqueued && s.enqueued[|s.dequeued|..] == s.queue
    ensures multiset(s.enqueued) == multiset(s.queue) + Held(s.dispatchers) + s.finished
    ensures forall m :: m in s.enqueued ==> multiset(s.enqueued)[m] == 1
  {
    ReachableInv(s);
    IdsDistinct(s.enqueued);
  }

  lemma {:induction false} IdsDistinct(messages: seq<Message>)
    requires forall i :: 0 <= i < |messages| ==> messages[i].id == i
    ensures forall m :: m in messages ==> multiset(messages)[m] == 1
    decreases |messages|
  {
    if messages != [] {
      var init, last := messages[..|messages| - 1], messages[|messages| - 1];
      assert messages == init + [last];
      IdsDistinct(init);
      assert last !in init;
    }
  }

  /** In every run: what a subscriber parses is the one body that has the queued text, and so the one that was published. */
  lemma DeliveredAsPublished(s: State, m: Message) returns (body: Value)
    requires Reachable(s) && m in s.delivered
    ensures m in s.enqueued && DoubleFree(body) && m.json == Print(body)
    ensures forall other :: DoubleFree(other) && m.json == Print(other) ==> other == body
    ensures Grammar.DocumentAt(m.json).outcome.Accepted?
    ensures CanonicalAll(Grammar.DocumentAt(m.json).events) == EventsOf(body)
  {
    hide Grammar.DocumentAt, Print, DoubleFree;
    ReachableInv(s);
    assert m in multiset(s.dequeued);
    assert m in s.enqueued;
    assert Printed(m);
    body :| DoubleFree(body) && m.json == Print(body);
    RoundTrip.PrintThenParse(body);
    forall other | DoubleFree(other) && m.json == Print(other)
      ensures other == body
    {
      RoundTrip.PrintInjective(other, body);
    }
  }

  function Subscribers(s: State, tag: Tag): nat {
    if tag in s.topics then s.topics[tag] else 0
  }

  lemma CopiesCount(m: Message, n: nat, x: Message)
    ensures multiset(Copies(m, n))[x] == if x == m then n else 0
    decreases n
  {
    if n > 0 {
      assert Copies(m, n) == [m] + Copies(m, n - 1);
      CopiesCount(m, n - 1, x);
    }
  }

  /** The message a dispatcher holds has not been finished, and so not been delivered. */
  lemma HeldIsFresh(s: State, d: nat)
    requires Inv(s) && d < |s.dispatchers| && s.dispatchers[d].Holding?
    ensures s.dispatchers[d].message !in s.finished && s.dispatchers[d].message !in s.delivered
  {
    hide MutualExclusion, PredicateStable, NoLostWakeup, Drained, OnlyLateBlocked, Printed;
    var m := s.dispatchers[d].message;
    HeldUpdate(s.dispatchers, d, Ready);
    assert Held(s.dispatchers)[m] >= 1;
    IdsDistinct(s.enqueued);
    assert multiset(s.enqueued) == multiset(s.dequeued) + multiset(s.queue);
    assert multiset(s.dequeued)[m] == Held(s.dispatchers)[m] + s.finished[m];
    assert m in multiset(s.dequeued) && m in s.enqueued;
  }

  /**
   * Dispatching a message delivers it once to each subscriber its topic has at that moment (none if the topic is
   * unknown), for the first time; no other delivery count changes.
   */
  lemma DispatchDelivers(s: State, d: nat, x: Message)
    requires Inv(s) && Enabled(s, Dispatch(d))
    ensures var m := s.dispatchers[d].message;
      && m !in s.finished && m in Apply(s, Dispatch(d)).finished
      && multiset(Apply(s, Dispatch(d)).delivered)[x]
        == if x == m then Subscribers(s, m.tag) else multiset(s.delivered)[x]
  {
    hide Inv;
    var m := s.dispatchers[d].message;
    HeldIsFresh(s, d);
    CopiesCount(m, Subscribers(s, m.tag), x);
  }

  lemma OtherStepsDeliverNothing(s: State, step: Step)
    requires Enabled(s, step) && !step.Dispatch? && (step.Take? ==> MayProceed(s))
    ensures Apply(s, step).delivered == s.delivered && Apply(s, step).finished == s.finished
  {}

  /** In every run a finished message is never delivered again: its deliveries are those of its one dispatch. */
  lemma {:induction false} DeliveredOnce(s: State, steps: seq<Step>, t: State, m: Message)
    requires Inv(s) && Run(s, steps, t) && m in s.finished
    ensures m in t.finished && multiset(t.delivered)[m] == multiset(s.delivered)[m]
    decreases |steps|
  {
    hide Inv, Apply, Enabled;
    if steps != [] {
      StepInv(s, steps[0]);
      StepDeliveredOnce(s, steps[0], m);
      DeliveredOnce(Apply(s, steps[0]), steps[1..], t, m);
    }
  }

  lemma StepDeliveredOnce(s: State, step: Step, m: Message)
    requires Inv(s) && Enabled(s, step) && (step.Take? ==> MayProceed(s)) && m in s.finished
    ensures m in Apply(s, step).finished && multiset(Apply(s, step).delivered)[m] == multiset(s.delivered)[m]
  {
    hide Inv;
    if step.Dispatch? {
      DispatchDelivers(s, step.d, m);
    } else {
      OtherStepsDeliverNothing(s, step);
    }
  }

  // ---------------------------------------------------------------------------
  // What a run leaves behind
  // ---------------------------------------------------------------------------

  /** The messages the pushes of a run make, from the n-th on. */
  function Pushed(steps: seq<Step>, n: nat): seq<Message>
    decreases |steps|
  {
    if steps == [] then []
    else if steps[0].Push? && DoubleFree(steps[0].body) then
      [Message(n, steps[0].tag, Print(steps[0].body))] + Pushed(steps[1..], n + 1)
    else Pushed(steps[1..], n)
  }

  /** Subscriptions to a topic less those given up. */
  function Subscriptions(steps: seq<Step>, tag: Tag): int
    decreases |steps|
  {
    if steps == [] then 0
    else
      Subscriptions(steps[1..], tag) + if steps[0] == Subscribe(tag) then 1 else if steps[0] == Unsubscribe(tag) then -1 else 0
  }

  lemma StepHistory(s: State, step: Step, tag: Tag)
    requires Enabled(s, step) && (step.Take? ==> MayProceed(s))
    ensures Apply(s, step).enqueued == s.enqueued + Pushed([step], |s.enqueued|)
    ensures Subscribers(Apply(s, step), tag) == Subscribers(s, tag) + Subscriptions([step], tag)
    ensures tag in Apply(s, step).topics <==> tag in s.topics || step == Subscribe(tag)
    ensures Apply(s, step).canceled <==> s.canceled || step.Cancel?
  {
    hide Print, DoubleFree;
    assert [step][1..] == [];
    assert Pushed([], |s.enqueued| + 1) == [] && Pushed([], |s.enqueued|) == [];
  }

  lemma PushedConcat(step: Step, rest: seq<Step>, n: nat)
    ensures Pushed([step] + rest, n) == Pushed([step], n) + Pushed(rest, n + |Pushed([step], n)|)
  {
    hide Print, DoubleFree;
    assert ([step] + rest)[1..] == rest && [step][1..] == [];
    assert Pushed([], n) == [] && Pushed([], n + 1) == [];
  }

  /** In every run: the queue has seen the messages pushed, in their order, and topics are what was subscribed to. */
  lemma {:induction false} History(s: State, steps: seq<Step>, t: State, tag: Tag)
    requires Inv(s) && Run(s, steps, t)
    ensures t.enqueued == s.enqueued + Pushed(steps, |s.enqueued|)
    ensures Subscribers(t, tag) == Subscribers(s, tag) + Subscriptions(steps, tag)
    ensures tag in t.topics <==> tag in s.topics || Subscribe(tag) in steps
    ensures t.canceled <==> s.canceled || Cancel in steps
    decreases |steps|
  {
    hide Inv, Apply, Enabled, Pushed, Subscribers;
    if steps == [] {
      assert Pushed(steps, |s.enqueued|) == [] by { NothingPushed(|s.enqueued|); }
    } else {
      StepInv(s, steps[0]);
      var u := Apply(s, steps[0]);
      StepHistory(s, steps[0], tag);
      History(u, steps[1..], t, tag);
      PushedConcat(steps[0], steps[1..], |s.enqueued|);
      assert steps == [steps[0]] + steps[1..];
      assert [steps[0]][1..] == [];
    }
  }

  lemma NothingPushed(n: nat)
    ensures Pushed([], n) == []
  {}

  /** The notifications that have been sent. */
  function Notifications(steps: seq<Step>): nat
    decreases |steps|
  {
    if steps == [] then 0
    else (if steps[0].NotifyOne? || steps[0].NotifyNobody? then 1 else 0) + Notifications(steps[1..])
  }

  lemma StepNotifies(s: State, step: Step)
    requires Enabled(s, step) && (step.Take? ==> MayProceed(s))
    ensures |Apply(s, step).enqueued| + s.notifying + (if step.NotifyOne? || step.NotifyNobody? then -1 else 0)
      == |s.enqueued| + Apply(s, step).notifying
  {
    hide Print, DoubleFree, NextPc;
  }

  /** Each push is followed by just one notify_one: in every run those still to come and those sent are the pushes. */
  lemma {:induction false} EachPushNotifies(s: State, steps: seq<Step>, t: State)
    requires Inv(s) && Run(s, steps, t)
    ensures |t.enqueued| - |s.enqueued| == t.notifying - s.notifying + Notifications(steps)
    decreases |steps|
  {
    hide Inv, Apply, Enabled;
    if steps != [] {
      StepInv(s, steps[0]);
      StepNotifies(s, steps[0]);
      EachPushNotifies(Apply(s, steps[0]), steps[1..], t);
    }
  }

  // ---------------------------------------------------------------------------
  // Unknown topics
  // ---------------------------------------------------------------------------

  /** Finished messages of topics nobody has ever subscribed to. */
  function Stranded(s: State): set<Message> {
    set m | m in s.finished && m.tag !in s.topics
  }

  lemma LeftStays(s: State, step: Step, i: nat)
    requires Enabled(s, step) && (step.Take? ==> MayProceed(s)) && i < |s.dispatchers| && s.dispatchers[i].Left?
    ensures At(Apply(s, step), i, s.dispatchers[i])
  {
    if MovesOne(step) {
      OneMoves(s, step);
    } else {
      OthersStay(s, step);
    }
  }

  /** A dispatcher that has left never moves again. */
  lemma {:induction false} LeftForGood(s: State, steps: seq<Step>, t: State, i: nat)
    requires Inv(s) && Run(s, steps, t) && i < |s.dispatchers| && s.dispatchers[i].Left?
    ensures At(t, i, s.dispatchers[i])
    decreases |steps|
  {
    hide Inv, Apply, Enabled;
    if steps != [] {
      StepInv(s, steps[0]);
      LeftStays(s, steps[0], i);
      LeftForGood(Apply(s, steps[0]), steps[1..], t, i);
    }
  }

  /** Finishing a message of an unknown topic is the end of the dispatcher that held it. */
  lemma DispatchOfUnknown(s: State, d: nat)
    requires Enabled(s, Dispatch(d))
    ensures At(Apply(s, Dispatch(d)), d, Left(UnknownTopic)) <==> s.dispatchers[d].message.tag !in s.topics
    ensures At(Apply(s, Dispatch(d)), d, Ready) <==> s.dispatchers[d].message.tag in s.topics
    ensures Count(Apply(s, Dispatch(d)), Left(UnknownTopic))
      == Count(s, Left(UnknownTopic)) + if s.dispatchers[d].message.tag in s.topics then 0 else 1
  {
    OneMoves(s, Dispatch(d));
    CountMove(s, d, NextPc(s, Dispatch(d)), Left(UnknownTopic));
  }

  lemma OthersKeepCount(s: State, step: Step)
    requires Enabled(s, step) && !step.Dispatch? && (step.Take? ==> MayProceed(s))
    ensures Count(Apply(s, step), Left(UnknownTopic)) == Count(s, Left(UnknownTopic))
  {
    if MovesOne(step) {
      OneMoves(s, step);
      CountMove(s, step.d, NextPc(s, step), Left(UnknownTopic));
    } else {
      OthersStay(s, step);
      SameCount(s.dispatchers, Apply(s, step).dispatchers);
    }
  }

  lemma {:induction false} SameCount(before: seq<Dispatcher>, after: seq<Dispatcher>)
    requires |before| == |after| && forall i :: 0 <= i < |before| ==> after[i] == before[i] || after[i] == Wake(before[i])
    ensures multiset(after)[Left(UnknownTopic)] == multiset(before)[Left(UnknownTopic)]
    decreases |before|
  {
    if before != [] {
      SameCount(before[1..], after[1..]);
      assert before == [before[0]] + before[1..] && after == [after[0]] + after[1..];
    }
  }

  lemma KeepsStranded(s: State, step: Step)
    requires Enabled(s, step) && (step.Take? ==> MayProceed(s)) && |Stranded(s)| <= Count(s, Left(UnknownTopic))
    ensures |Stranded(Apply(s, step))| <= Count(Apply(s, step), Left(UnknownTopic))
  {
    StrandedBy(s, step);
    hide Count, Stranded, Apply;
    if step.Dispatch? {
      DispatchOfUnknown(s, step.d);
    } else {
      OthersKeepCount(s, step);
      Smaller(Stranded(Apply(s, step)), Stranded(s));
    }
  }

  lemma StrandedBy(s: State, step: Step)
    requires Enabled(s, step) && (step.Take? ==> MayProceed(s))
    ensures step.Dispatch? ==>
      var m := s.dispatchers[step.d].message;
      Stranded(Apply(s, step)) == if m.tag in s.topics then Stranded(s) else Stranded(s) + {m}
    ensures !step.Dispatch? ==> Stranded(Apply(s, step)) <= Stranded(s)
  {
    hide NextPc;
  }

  lemma Smaller(a: set<Message>, b: set<Message>)
    requires a <= b
    ensures |a| <= |b|
  {
    assert b == a + (b - a);
  }

  lemma {:induction false} RunStranded(s: State, steps: seq<Step>, t: State)
    requires Inv(s) && Run(s, steps, t) && |Stranded(s)| <= Count(s, Left(UnknownTopic))
    ensures |Stranded(t)| <= Count(t, Left(UnknownTopic))
    decreases |steps|
  {
    hide Inv, Apply, Enabled, Stranded, Count;
    if steps != [] {
      StepInv(s, steps[0]);
      KeepsStranded(s, steps[0]);
      RunStranded(Apply(s, steps[0]), steps[1..], t);
    }
  }

  /** In every run each finished message of a topic without subscription has cost a dispatcher, so there are at most as many. */
  lemma UnknownTopicsCostDispatchers(s: State)
    requires Reachable(s)
    ensures |Stranded(s)| <= Count(s, Left(UnknownTopic)) <= |s.dispatchers|
  {
    hide Inv;
    var count: nat, steps :| (InitialInv(count); Run(Initial(count), steps, s));
    InitialInv(count);
    assert Stranded(Initial(count)) == {};
    RunStranded(Initial(count), steps, s);
  }

  lemma {:induction false} AllCounted(dispatchers: seq<Dispatcher>, pc: Dispatcher)
    ensures multiset(dispatchers)[pc] <= |dispatchers|
    ensures multiset(dispatchers)[pc] == |dispatchers| ==> forall i :: 0 <= i < |dispatchers| ==> dispatchers[i] == pc
    decreases |dispatchers|
  {
    if dispatchers != [] {
      AllCounted(dispatchers[1..], pc);
      assert dispatchers == [dispatchers[0]] + dispatchers[1..];
    }
  }

  /** As many such messages as dispatchers are the end: nothing that is published afterwards is ever delivered. */
  lemma BrokerExhausted(s: State, steps: seq<Step>, t: State)
    requires Reachable(s) && |Stranded(s)| == |s.dispatchers|
    requires (ReachableInv(s); Run(s, steps, t))
    ensures t.delivered == s.delivered && t.finished == s.finished && s.queue <= t.queue
  {
    hide Inv, Run, Reachable, Stranded;
    ReachableInv(s);
    UnknownTopicsCostDispatchers(s);
    AllCounted(s.dispatchers, Left(UnknownTopic));
    NobodyLeft(s, steps, t);
  }

  /** Once all dispatchers have left, nothing is taken, dispatched or delivered any more, whatever is published. */
  lemma {:induction false} NobodyLeft(s: State, steps: seq<Step>, t: State)
    requires Inv(s) && Run(s, steps, t) && forall i :: 0 <= i < |s.dispatchers| ==> s.dispatchers[i].Left?
    ensures t.dispatchers == s.dispatchers && t.dequeued == s.dequeued && t.finished == s.finished && t.delivered == s.delivered
    ensures s.queue <= t.queue
    decreases |steps|
  {
    hide Inv, Apply, Enabled;
    if steps != [] {
      StepInv(s, steps[0]);
      NobodyMoves(s, steps[0]);
      NobodyLeft(Apply(s, steps[0]), steps[1..], t);
    }
  }

  lemma NobodyMoves(s: State, step: Step)
    requires Enabled(s, step) && (step.Take? ==> MayProceed(s)) && forall i :: 0 <= i < |s.dispatchers| ==> s.dispatchers[i].Left?
    ensures var t := Apply(s, step);
      && t.dispatchers == s.dispatchers && t.dequeued == s.dequeued && t.finished == s.finished && t.delivered == s.delivered
      && s.queue <= t.queue
  {}

  /** In every run: once a dispatcher has left because of Cancel, the queue stays empty if nobody pushes afterwards. */
  lemma CancelExitMeansDrained(s: State)
    requires Reachable(s) && Left(Canceled) in s.dispatchers && !s.pushedAfterCancel
    ensures s.queue == []
  {
    ReachableInv(s);
  }

  // ---------------------------------------------------------------------------
  // Quiescence
  // ---------------------------------------------------------------------------

  /** The steps the broker takes by itself: no push, no spurious wakeup, no destructor, no subscription. */
  predicate Internal(step: Step) {
    step.Lock? || step.Test? || step.Park? || step.Take? || step.Dispatch? || step.NotifyOne? || step.NotifyNobody?
  }

  ghost predicate Quiescent(s: State) {
    forall step :: Internal(step) ==> !Enabled(s, step)
  }

  function Weight(d: Dispatcher): nat {
    match d
    case Left(_) => 0
    case Blocked => 1
    case Parking => 3
    case Passed => 3
    case Testing => 4
    case Ready => 5
    case Woken => 5
    case Holding(_) => 6
  }

  function Weights(dispatchers: seq<Dispatcher>): nat {
    if dispatchers == [] then 0 else Weight(dispatchers[0]) + Weights(dispatchers[1..])
  }

  /** A bound on the internal steps still possible. */
  function Measure(s: State): nat {
    Weights(s.dispatchers) + 6 * |s.queue| + 5 * s.notifying
  }

  lemma {:induction false} WeightsUpdate(dispatchers: seq<Dispatcher>, d: nat, pc: Dispatcher)
    requires d < |dispatchers|
    ensures Weights(dispatchers[d := pc]) + Weight(dispatchers[d]) == Weights(dispatchers) + Weight(pc)
    decreases |dispatchers|
  {
    hide Weight;
    var updated := dispatchers[d := pc];
    if d > 0 {
      assert updated[0] == dispatchers[0] && updated[1..] == dispatchers[1..][d - 1 := pc];
      WeightsUpdate(dispatchers[1..], d - 1, pc);
    } else {
      assert updated[0] == pc && updated[1..] == dispatchers[1..];
    }
  }

  lemma InternalDecreases(s: State, step: Step)
    requires Inv(s) && Enabled(s, step) && Internal(step)
    ensures step.Take? ==> MayProceed(s)
    ensures Measure(Apply(s, step)) < Measure(s)
  {
    hide MutualExclusion, NoLostWakeup, Conserved, AllPrinted, Drained, OnlyLateBlocked;
    StepInv(s, step);
    if MovesOne(step) {
      OneMoves(s, step);
      WeightsUpdate(s.dispatchers, step.d, NextPc(s, step));
    }
  }

  /** A run of internal steps is finite: its length is bounded by the measure of where it starts. */
  lemma {:induction false} InternalRunsEnd(s: State, steps: seq<Step>, t: State)
    requires Inv(s) && Run(s, steps, t)
    requires forall i :: 0 <= i < |steps| ==> Internal(steps[i])
    ensures |steps| + Measure(t) <= Measure(s)
    decreases |steps|
  {
    hide Inv, Apply, Enabled, Measure, Internal;
    if steps != [] {
      InternalDecreases(s, steps[0]);
      StepInv(s, steps[0]);
      InternalRunsEnd(Apply(s, steps[0]), steps[1..], t);
    }
  }

  /** When the broker comes to rest, every dispatcher waits or has left; while one waits, no message does. */
  lemma AtRest(s: State)
    requires Inv(s) && Quiescent(s)
    ensures s.notifying == 0
    ensures forall i :: 0 <= i < |s.dispatchers| ==> s.dispatchers[i].Blocked? || s.dispatchers[i].Left?
    ensures Blocked in s.dispatchers ==> s.queue == []
    ensures s.notifiedAll ==> forall i :: 0 <= i < |s.dispatchers| && !s.dispatchers[i].Left? ==> i in s.late
  {
    hide Conserved, AllPrinted, Drained;
    forall i | 0 <= i < |s.dispatchers|
      ensures !HoldsMutex(s.dispatchers[i]) && !s.dispatchers[i].Holding?
    {
      assert !Enabled(s, Test(i)) && !Enabled(s, Park(i)) && !Enabled(s, Take(i)) && !Enabled(s, Dispatch(i));
    }
    assert MutexFree(s);
    forall i | 0 <= i < |s.dispatchers|
      ensures s.dispatchers[i].Blocked? || s.dispatchers[i].Left?
    {
      assert !Enabled(s, Lock(i));
    }
    forall i | 0 <= i < |s.dispatchers|
      ensures s.notifying > 0 ==> s.dispatchers[i] != Blocked
    {
      assert !Enabled(s, NotifyOne(i));
    }
    assert !Enabled(s, NotifyNobody);
    assert forall pc :: pc in s.dispatchers ==> pc.Blocked? || pc.Left?;
  }

  // ---------------------------------------------------------------------------
  // The destructor
  // ---------------------------------------------------------------------------

  /** At most one dispatcher can miss the destructor's notify_all: the one parking at that moment. */
  lemma AtMostOneLate(s: State, i: nat, j: nat)
    requires Reachable(s) && Quiescent(s) && s.notifiedAll
    requires i < |s.dispatchers| && j < |s.dispatchers| && !s.dispatchers[i].Left? && !s.dispatchers[j].Left?
    ensures i == j && i in s.late
  {
    ReachableInv(s);
    AtRest(s);
  }

  lemma StepStaysAsleep(s: State, step: Step, i: nat)
    requires Enabled(s, step) && Internal(step) && (step.Take? ==> MayProceed(s))
    requires s.notifying == 0 && i < |s.dispatchers| && s.dispatchers[i] in {Parking, Blocked}
    ensures Apply(s, step).notifying == 0
    ensures i < |Apply(s, step).dispatchers| && Apply(s, step).dispatchers[i] in {Parking, Blocked}
  {
    if MovesOne(step) {
      OneMoves(s, step);
    } else {
      OthersStay(s, step);
    }
  }

  /** A dispatcher parking or blocked, with no notification pending, stays so through internal steps. */
  lemma {:induction false} StaysAsleep(s: State, steps: seq<Step>, t: State, i: nat)
    requires Inv(s) && Run(s, steps, t)
    requires forall k :: 0 <= k < |steps| ==> Internal(steps[k])
    requires s.notifying == 0 && i < |s.dispatchers| && s.dispatchers[i] in {Parking, Blocked}
    ensures i < |t.dispatchers| && t.dispatchers[i] in {Parking, Blocked}
    decreases |steps|
  {
    hide Inv, Apply, Enabled, Internal;
    if steps != [] {
      StepInv(s, steps[0]);
      StepStaysAsleep(s, steps[0], i);
      StaysAsleep(Apply(s, steps[0]), steps[1..], t, i);
    }
  }

  ghost predicate AllLeft(s: State) {
    forall i :: 0 <= i < |s.dispatchers| ==> s.dispatchers[i].Left?
  }

  predicate AllInternal(steps: seq<Step>) {
    forall k :: 0 <= k < |steps| ==> Internal(steps[k])
  }

  /** The holder of the mutex lets it go and leaves the others where they are. */
  lemma Releases(s: State, d: nat, step: Step)
    requires MutualExclusion(s) && d < |s.dispatchers| && (step == Park(d) || step == Take(d))
    requires Enabled(s, step) && (step.Take? ==> MayProceed(s))
    ensures MutexFree(Apply(s, step)) && OthersWait(s, Apply(s, step))
  {
    OneMoves(s, step);
    assert !HoldsMutex(NextPc(s, step));
    hide NextPc;
  }

  /** Whoever did not hold the mutex is where it was. */
  predicate OthersWait(s: State, t: State) {
    && |t.dispatchers| == |s.dispatchers| && t.canceled == s.canceled
    && forall i :: 0 <= i < |s.dispatchers| && !HoldsMutex(s.dispatchers[i]) ==> t.dispatchers[i] == s.dispatchers[i]
  }

  lemma TestThenRelease(s: State, d: nat) returns (step: Step)
    requires Inv(s) && At(s, d, Testing)
    ensures step == Park(d) || step == Take(d)
    ensures Enabled(s, Test(d)) && Enabled(Apply(s, Test(d)), step) && OthersWait(s, Apply(s, Test(d)))
  {
    OneMoves(s, Test(d));
    step := if MayProceed(s) then Take(d) else Park(d);
  }

  /** Whoever holds the mutex lets it go in at most two steps of its own. */
  lemma MutexReleased(s: State) returns (steps: seq<Step>, t: State)
    requires Inv(s)
    ensures Run(s, steps, t) && Inv(t) && AllInternal(steps) && |steps| <= 2 && MutexFree(t) && OthersWait(s, t)
  {
    hide Inv, Run;
    EmptyRun(s);
    steps, t := [], s;
    if !MutexFree(s) {
      var d: nat :| d < |s.dispatchers| && HoldsMutex(s.dispatchers[d]);
      var u, step := s, if At(s, d, Parking) then Park(d) else Take(d);
      if At(s, d, Testing) {
        step := TestThenRelease(s, d);
        StepInv(s, Test(d));
        u := Apply(s, Test(d));
      }
      Exclusive(u);
      StepInv(u, step);
      Releases(u, d, step);
      t := Apply(u, step);
      EmptyRun(t);
      RunCons(u, step, [], t);
      steps := [step] + [];
      if At(s, d, Testing) {
        RunCons(s, Test(d), steps, t);
        steps := [Test(d)] + steps;
        Exclusive(s);
      }
    }
  }

  /**
   * Nothing keeps a publisher out: in at most two steps of the mutex holder any body can be pushed under any tag, canceled or
   * not. Subscribing, Cancel and notify_all do not wait for the mutex at all.
   */
  lemma PublisherGetsIn(s: State, tag: Tag, body: Value) returns (steps: seq<Step>, t: State)
    requires Inv(s) && DoubleFree(body)
    ensures Run(s, steps, t) && AllInternal(steps) && |steps| <= 2 && Enabled(t, Push(tag, body)) && t.canceled == s.canceled
    ensures Enabled(s, Subscribe(tag)) && (Subscribers(s, tag) > 0 ==> Enabled(s, Unsubscribe(tag)))
    ensures (!s.canceled ==> Enabled(s, Cancel)) && (s.canceled && !s.notifiedAll ==> Enabled(s, NotifyAll))
  {
    hide Inv, Run;
    steps, t := MutexReleased(s);
  }

  /**
   * No dispatcher that has not left is shut out, whoever ran before: one that waits for the mutex, or sleeps and is woken by a
   * pending notification or by none, can hold the mutex next.
   */
  lemma DispatcherGetsIn(s: State, d: nat) returns (steps: seq<Step>, t: State)
    requires Inv(s) && d < |s.dispatchers| && s.dispatchers[d] in {Ready, Woken, Blocked}
    ensures Run(s, steps, t) && |steps| <= 4 && At(t, d, Testing)
    ensures At(s, d, Blocked) ==> steps != [] && steps[0] == if s.notifying > 0 then NotifyOne(d) else Spurious(d)
    ensures forall k :: 0 <= k < |steps| && steps[k].Spurious? ==> k == 0 && s.notifying == 0
  {
    hide Inv, Run;
    if At(s, d, Blocked) {
      var wake := if s.notifying > 0 then NotifyOne(d) else Spurious(d);
      StepInv(s, wake);
      OneMoves(s, wake);
      var rest;
      rest, t := LockNext(Apply(s, wake), d);
      RunCons(s, wake, rest, t);
      steps := [wake] + rest;
    } else {
      steps, t := LockNext(s, d);
    }
  }

  lemma LockNext(s: State, d: nat) returns (steps: seq<Step>, t: State)
    requires Inv(s) && (At(s, d, Ready) || At(s, d, Woken))
    ensures Run(s, steps, t) && |steps| <= 3 && At(t, d, Testing) && AllInternal(steps)
  {
    hide Inv, Run;
    var u;
    steps, u := MutexReleased(s);
    OneMoves(u, Lock(d));
    StepInv(u, Lock(d));
    t := Apply(u, Lock(d));
    EmptyRun(t);
    RunCons(u, Lock(d), [], t);
    RunConcat(s, steps, u, [Lock(d)] + [], t);
    steps := steps + ([Lock(d)] + []);
  }

  lemma {:induction false} RunConcat(s: State, first: seq<Step>, t: State, second: seq<Step>, u: State)
    requires Inv(s) && Run(s, first, t) && Inv(t) && Run(t, second, u)
    ensures Run(s, first + second, u)
    decreases |first|
  {
    hide Inv, Apply, Enabled;
    if first == [] {
      assert first + second == second;
    } else {
      assert first + second == [first[0]] + (first[1..] + second);
      assert ([first[0]] + (first[1..] + second))[1..] == first[1..] + second;
      StepInv(s, first[0]);
      RunConcat(Apply(s, first[0]), first[1..], t, second, u);
    }
  }

  lemma Exclusive(s: State)
    requires Inv(s)
    ensures MutualExclusion(s)
  {}

  /** From any state the broker can come to rest by itself. */
  lemma {:induction false} RunToRest(s: State) returns (steps: seq<Step>, t: State)
    requires Inv(s)
    ensures Run(s, steps, t) && AllInternal(steps) && Quiescent(t)
    decreases Measure(s)
  {
    hide Inv, Apply, Enabled, Measure, Run, Internal;
    if Quiescent(s) {
      EmptyRun(s);
      return [], s;
    }
    var step :| Internal(step) && Enabled(s, step);
    StepInv(s, step);
    InternalDecreases(s, step);
    var rest;
    rest, t := RunToRest(Apply(s, step));
    RunCons(s, step, rest, t);
    steps := [step] + rest;
  }

  /** With nobody blocked, pending notifications reach nobody; a dispatcher that parks afterwards is never woken. */
  lemma {:induction false} ParkForGood(s: State, i: nat) returns (steps: seq<Step>, t: State)
    requires Inv(s) && Blocked !in s.dispatchers && At(s, i, Parking)
    ensures Run(s, steps, t) && AllInternal(steps) && Quiescent(t) && !AllLeft(t)
    decreases s.notifying
  {
    hide Inv, Run, Quiescent;
    if s.notifying == 0 {
      steps, t := RunToRest(s);
      StaysAsleep(s, steps, t, i);
    } else {
      var rest;
      StepInv(s, NotifyNobody);
      rest, t := ParkForGood(Apply(s, NotifyNobody), i);
      RunCons(s, NotifyNobody, rest, t);
      steps := [NotifyNobody] + rest;
    }
  }

  /** After notify_all the broker can come to rest by itself with a thread that will never be joined. */
  ghost predicate CanHang(s: State)
    requires Inv(s)
  {
    exists steps, t :: Run(s, steps, t) && AllInternal(steps) && Quiescent(t) && !AllLeft(t)
  }

  /**
   * The destructor's joins are sure to return, whatever the broker's own steps after notify_all, exactly when no
   * dispatcher was parking at that moment. (Only a publisher still about to notify can, if it does so late enough, wake it.)
   */
  lemma JoinReturns(s: State)
    requires Inv(s) && Enabled(s, NotifyAll)
    ensures (StepInv(s, NotifyAll); CanHang(Apply(s, NotifyAll))) <==> Parking in s.dispatchers
  {
    hide Inv, Run, Quiescent;
    StepInv(s, NotifyAll);
    var u := Apply(s, NotifyAll);
    if Parking in s.dispatchers {
      var i :| 0 <= i < |s.dispatchers| && s.dispatchers[i] == Parking;
      var steps, t := ParkForGood(u, i);
    }
    if CanHang(u) {
      var steps, t :| Run(u, steps, t) && AllInternal(steps) && Quiescent(t) && !AllLeft(t);
      RunInv(u, steps, t);
      AtRest(t);
      LateStays(u, steps, t);
    }
  }

  /** With no notification pending at notify_all it is no matter of luck: every run to rest ends the same way. */
  lemma JoinDecided(s: State, steps: seq<Step>, t: State)
    requires Inv(s) && Enabled(s, NotifyAll) && s.notifying == 0
    requires (StepInv(s, NotifyAll); Run(Apply(s, NotifyAll), steps, t)) && AllInternal(steps) && Quiescent(t)
    ensures AllLeft(t) <==> Parking !in s.dispatchers
  {
    hide Inv, Run, Quiescent;
    StepInv(s, NotifyAll);
    var u := Apply(s, NotifyAll);
    RunInv(u, steps, t);
    AtRest(t);
    LateStays(u, steps, t);
    if Parking in s.dispatchers {
      var i :| 0 <= i < |s.dispatchers| && s.dispatchers[i] == Parking;
      StaysAsleep(u, steps, t, i);
    }
  }

  lemma {:induction false} LateStays(s: State, steps: seq<Step>, t: State)
    requires Inv(s) && Run(s, steps, t) && s.notifiedAll
    ensures t.late == s.late && t.notifiedAll
    decreases |steps|
  {
    hide Inv;
    if steps != [] {
      StepInv(s, steps[0]);
      LateStays(Apply(s, steps[0]), steps[1..], t);
    }
  }

  lemma RunCons(s: State, step: Step, rest: seq<Step>, t: State)
    requires Inv(s) && Enabled(s, step)
    requires (StepInv(s, step); Run(Apply(s, step), rest, t))
    ensures Run(s, [step] + rest, t)
  {
    hide Inv, Enabled, Apply;
    assert ([step] + rest)[1..] == rest;
  }

  /** The wakeup of the destructor can be missed: one dispatcher, tested before Cancel, parked after notify_all. */
  lemma CancelCanBeMissed() returns (s: State)
    ensures Reachable(s) && Quiescent(s) && s.notifiedAll && At(s, 0, Blocked)
  {
    hide Inv, Run, Quiescent;
    var s0 := Initial(1);
    InitialInv(1);
    StepInv(s0, Lock(0));
    var s1 := Apply(s0, Lock(0));
    StepInv(s1, Test(0));
    var s2 := Apply(s1, Test(0));
    StepInv(s2, Cancel);
    var s3 := Apply(s2, Cancel);
    StepInv(s3, NotifyAll);
    var s4 := Apply(s3, NotifyAll);
    StepInv(s4, Park(0));
    s := Apply(s4, Park(0));
    assert s.dispatchers == [Blocked];
    EmptyRun(s);
    RunCons(s4, Park(0), [], s);
    RunCons(s3, NotifyAll, [Park(0)] + [], s);
    RunCons(s2, Cancel, [NotifyAll] + ([Park(0)] + []), s);
    RunCons(s1, Test(0), [Cancel] + ([NotifyAll] + ([Park(0)] + [])), s);
    RunCons(s0, Lock(0), [Test(0)] + ([Cancel] + ([NotifyAll] + ([Park(0)] + []))), s);
    AllBlockedIsQuiescent(s);
  }

  lemma EmptyRun(s: State)
    requires Inv(s)
    ensures Run(s, [], s)
  {
    hide Inv;
  }

  lemma AllBlockedIsQuiescent(s: State)
    requires s.notifying == 0 && s.dispatchers == [Blocked]
    ensures Quiescent(s)
  {}
}
