/** What holds in every state of every run of the pipeline. */
module PipelineLaws {
  import opened Proto
  import opened Verdict
  import opened Relay
  import opened Packet
  import opened Config
  import opened ParserLaws
  import opened Pipeline

  // ----- the invariants -----

  ghost predicate Shape(u: Setup, s: State) {
    && |s.counters| == COUNTERS && |s.senders| == u.sources && |s.queue| <= QUEUE_DEPTH
    && |s.consumed| == |s.attempts|
  }

  ghost predicate LimiterTracked(u: Setup, s: State) {
    && s.limiter == LimiterAfter(u.perSecond, s.attempts) && Produced(u.perSecond, s.attempts)
    && ClockForward(s.attempts)
    && (forall k :: 0 <= k < |s.attempts| ==> s.attempts[k].second <= s.clock)
  }

  ghost predicate Counted(u: Setup, s: State)
    requires |s.counters| == COUNTERS
  {
    forall c :: s.counters[Index(c)] == Expected(u, s, c)
  }

  /** Observing never touches the channel. */
  ghost predicate Quiet(s: State) {
    && s.queue == [] && s.consumed == [] && s.attempts == [] && s.writes == [] && s.writing.None?
    && forall i :: 0 <= i < |s.senders| ==> !s.senders[i].Sending?
  }

  /** Per source, the channel is a queue: what came in is what left, what waits, and what is being sent. */
  ghost predicate InOrder(u: Setup, s: State, i: nat)
    requires i < |s.senders|
  {
    && From(s.consumed, i) <= Images(u, s.received, i)
    && (s.up ==> Images(u, s.received, i) == From(s.consumed, i) + From(s.queue, i) + Pending(s.senders[i]))
  }

  ghost predicate Balanced(u: Setup, s: State) {
    && |s.consumed| == CountAnswers(s.attempts, true) + CountAnswers(s.attempts, false)
    && |s.writes| == CountWrites(s.writes, true) + CountWrites(s.writes, false)
    && (s.up ==>
         && AcceptedCount(u, s.received) == |s.consumed| + |s.queue| + SendingCount(s.senders)
         && CountAnswers(s.attempts, true) == |s.writes| + Inflight(s))
  }

  /** Every frame under way or handled has one of the sources, and the write in flight is that of the
      frame taken last, which was admitted. */
  ghost predicate Attributed(u: Setup, s: State) {
    && (forall k :: 0 <= k < |s.queue| ==> s.queue[k].source < u.sources)
    && (forall k :: 0 <= k < |s.consumed| ==> s.consumed[k].source < u.sources)
    && (s.writing.Some? ==>
          && s.consumed != [] && |s.consumed| == |s.attempts|
          && s.writing.value == s.consumed[|s.consumed| - 1] && s.attempts[|s.consumed| - 1].admitted)
  }

  ghost predicate Inv(u: Setup, s: State) {
    && Shape(u, s) && LimiterTracked(u, s) && Counted(u, s) && Attributed(u, s)
    && (u.mode.Observe? ==> Quiet(s))
    && (u.mode.Forward? ==> Balanced(u, s) && forall i :: 0 <= i < u.sources ==> InOrder(u, s, i))
  }

  // ----- appending one element to a history -----

  lemma Snoc<T>(xs: seq<T>, x: T)
    ensures (xs + [x])[..|xs + [x]| - 1] == xs && (xs + [x])[|xs + [x]| - 1] == x
  {
  }

  lemma ReceiveTallySnoc(u: Setup, caps: seq<Capture>, cap: Capture, c: Counter)
    ensures ReceiveTally(u, caps + [cap], c) == ReceiveTally(u, caps, c) + Marks(u.mode, Outcome(u, cap), c)
  {
    Snoc(caps, cap);
  }

  lemma ImagesSnoc(u: Setup, caps: seq<Capture>, cap: Capture, i: nat)
    ensures Images(u, caps + [cap], i) ==
            Images(u, caps, i) + if cap.source == i && Outcome(u, cap).Ok? then [Image(u, cap)] else []
  {
    Snoc(caps, cap);
  }

  lemma FromSnoc(items: seq<Item>, item: Item, i: nat)
    ensures From(items + [item], i) == From(items, i) + if item.source == i then [item.frame] else []
  {
    Snoc(items, item);
  }

  lemma {:induction false} FromConcat(xs: seq<Item>, ys: seq<Item>, i: nat)
    ensures From(xs + ys, i) == From(xs, i) + From(ys, i)
  {
    if ys == [] {
      assert xs + ys == xs;
    } else {
      var front, last := ys[..|ys| - 1], ys[|ys| - 1];
      assert xs + ys == (xs + front) + [last] && ys == front + [last];
      FromSnoc(xs + front, last, i);
      FromConcat(xs, front, i);
    }
  }

  lemma AnswersSnoc(attempts: seq<Attempt>, a: Attempt, admitted: bool)
    ensures CountAnswers(attempts + [a], admitted) == CountAnswers(attempts, admitted) + if a.admitted == admitted then 1 else 0
  {
    Snoc(attempts, a);
  }

  lemma WritesSnoc(writes: seq<bool>, w: bool, ok: bool)
    ensures CountWrites(writes + [w], ok) == CountWrites(writes, ok) + if w == ok then 1 else 0
  {
    Snoc(writes, w);
  }

  lemma {:induction false} SendingCountUpdate(senders: seq<Sender>, i: nat, x: Sender)
    requires i < |senders|
    ensures SendingCount(senders[i := x]) == SendingCount(senders) - |Pending(senders[i])| + |Pending(x)|
  {
    var n := |senders| - 1;
    if i == n {
      assert senders[i := x][..n] == senders[..n];
    } else {
      assert senders[i := x][..n] == senders[..n][i := x];
      SendingCountUpdate(senders[..n], i, x);
    }
  }

  lemma {:induction false} NobodySending(senders: seq<Sender>)
    requires forall i :: 0 <= i < |senders| ==> !senders[i].Sending?
    ensures SendingCount(senders) == 0
  {
    if senders != [] { NobodySending(senders[..|senders| - 1]); }
  }

  lemma {:induction false} SendingBound(senders: seq<Sender>)
    ensures SendingCount(senders) <= |senders|
  {
    if senders != [] { SendingBound(senders[..|senders| - 1]); }
  }

  lemma IndexInjective(c: Counter, d: Counter)
    ensures Index(c) == Index(d) <==> c == d
  {
  }

  lemma BumpAt(counters: seq<nat>, c: Counter, d: Counter)
    requires |counters| == COUNTERS
    ensures Bump(counters, c)[Index(d)] == counters[Index(d)] + if c == d then 1 else 0
  {
    IndexInjective(c, d);
  }

  // ----- every step keeps the invariant -----

  lemma InitInv(u: Setup)
    ensures Inv(u, Init(u))
  {
    hide Judge;
    var s := Init(u);
    NobodySending(s.senders);
    forall c ensures s.counters[Index(c)] == Expected(u, s, c) {}
  }

  predicate IsRejection(c: Counter) {
    || c.Length? || c.Vlan? || c.EtherAddress? || c.OuiType? || c.SourceBss? || c.DestinationBss?
    || c.AuthLength? || c.Tlv? || c.BroadcastScope?
  }

  lemma RejectionsOnly(u: Setup, cap: Capture)
    ensures Outcome(u, cap).Err? ==> IsRejection(Outcome(u, cap).error)
  {
  }

  lemma CountOutcomeMarks(mode: Mode, counters: seq<nat>, o: Result<Match, Counter>, c: Counter)
    requires |counters| == COUNTERS && (o.Err? ==> IsRejection(o.error))
    ensures CountOutcome(mode, counters, o)[Index(c)] == counters[Index(c)] + Marks(mode, o, c)
  {
    var seen := Bump(counters, Seen);
    BumpAt(counters, Seen, c);
    match o
    case Err(reason) => BumpAt(seen, reason, c);
    case Ok(m) =>
      var matched := Bump(seen, Matched);
      BumpAt(seen, Matched, c);
      BumpAt(matched, KindCounter(m.kind), c);
      BumpAt(Bump(matched, KindCounter(m.kind)), Observed, c);
  }

  lemma ReceiveCount(u: Setup, s: State, cap: Capture, c: Counter)
    requires Shape(u, s) && cap.source < u.sources
    ensures ApplyReceive(u, s, cap).counters[Index(c)] == s.counters[Index(c)] + Marks(u.mode, Outcome(u, cap), c)
  {
    hide Outcome, CountOutcome, Marks;
    RejectionsOnly(u, cap);
    CountOutcomeMarks(u.mode, s.counters, Outcome(u, cap), c);
  }

  lemma StepCount(u: Setup, s: State, e: Event, c: Counter)
    requires Shape(u, s) && Enabled(s, e) && s.counters[Index(c)] == Expected(u, s, c)
    ensures Apply(u, s, e).counters[Index(c)] == Expected(u, Apply(u, s, e), c)
  {
    hide ReceiveTally, CountAnswers, CountWrites, Outcome, CountOutcome, Marks, Bump, Index;
    match e
    case Receive(i, wire, v) =>
      var cap := Capture(i, Clip(wire), v);
      ReceiveCount(u, s, cap, c);
      ReceiveTallySnoc(u, s.received, cap, c);
    case Dequeue =>
      BumpAt(s.counters, RateLimited, c);
      AnswersSnoc(s.attempts, Attempt(s.clock, AdmitStep(s.limiter, s.clock).1), false);
    case Written(ok) =>
      BumpAt(s.counters, if ok then Injected else InjectError, c);
      WritesSnoc(s.writes, ok, true);
      WritesSnoc(s.writes, ok, false);
    case _ =>
  }

  lemma StepShape(u: Setup, s: State, e: Event)
    requires Shape(u, s) && Enabled(s, e)
    ensures Shape(u, Apply(u, s, e))
  {
    hide Outcome, CountOutcome, Bump, AdmitStep;
  }

  lemma StepTracked(u: Setup, s: State, e: Event)
    requires Shape(u, s) && LimiterTracked(u, s) && Enabled(s, e)
    ensures LimiterTracked(u, Apply(u, s, e))
  {
    hide Outcome, CountOutcome, Bump, AdmitStep, Produced, LimiterAfter;
    if e.Dequeue? {
      ProducedSnoc(u.perSecond, s.attempts, Attempt(s.clock, AdmitStep(s.limiter, s.clock).1));
    }
  }

  lemma ReceiveBalanced(u: Setup, s: State, cap: Capture)
    requires u.mode.Forward? && Shape(u, s) && Balanced(u, s) && s.up
    requires cap.source < u.sources && s.senders[cap.source].Idle?
    ensures Balanced(u, ApplyReceive(u, s, cap))
  {
    hide Outcome, Image, CountOutcome, CountAnswers, CountWrites, ReceiveTally, SendingCount;
    RejectionsOnly(u, cap);
    ReceiveTallySnoc(u, s.received, cap, Matched);
    if Outcome(u, cap).Ok? {
      SendingCountUpdate(s.senders, cap.source, Sending(Image(u, cap)));
    }
  }

  lemma StepBalanced(u: Setup, s: State, e: Event)
    requires u.mode.Forward? && Shape(u, s) && Balanced(u, s) && Enabled(s, e)
    ensures Balanced(u, Apply(u, s, e))
  {
    hide ApplyReceive, CountAnswers, CountWrites, ReceiveTally, SendingCount, Bump, AdmitStep;
    match e
    case Receive(i, wire, v) => ReceiveBalanced(u, s, Capture(i, Clip(wire), v));
    case Enqueue(i) => SendingCountUpdate(s.senders, i, Idle);
    case CaptureError(i) => SendingCountUpdate(s.senders, i, Stopped);
    case Dequeue =>
      var a := Attempt(s.clock, AdmitStep(s.limiter, s.clock).1);
      AnswersSnoc(s.attempts, a, false);
      AnswersSnoc(s.attempts, a, true);
    case Written(ok) =>
      WritesSnoc(s.writes, ok, true);
      WritesSnoc(s.writes, ok, false);
    case _ =>
  }

  lemma ReceiveInOrder(u: Setup, s: State, cap: Capture, i: nat)
    requires u.mode.Forward? && Shape(u, s) && s.up && i < u.sources && InOrder(u, s, i)
    requires cap.source < u.sources && s.senders[cap.source].Idle?
    ensures InOrder(u, ApplyReceive(u, s, cap), i)
  {
    hide Outcome, Image, CountOutcome, Images, From;
    ImagesSnoc(u, s.received, cap, i);
  }

  lemma DequeueInOrder(s: State, k: nat)
    requires s.queue != []
    ensures From(s.consumed + [s.queue[0]], k) + From(s.queue[1..], k) == From(s.consumed, k) + From(s.queue, k)
  {
    hide From;
    assert s.queue == [s.queue[0]] + s.queue[1..];
    FromConcat([s.queue[0]], s.queue[1..], k);
    FromConcat(s.consumed, [s.queue[0]], k);
  }

  lemma StepInOrder(u: Setup, s: State, e: Event, k: nat)
    requires u.mode.Forward? && Shape(u, s) && Enabled(s, e) && k < u.sources && InOrder(u, s, k)
    ensures k < |Apply(u, s, e).senders| && InOrder(u, Apply(u, s, e), k)
  {
    hide ApplyReceive, Images, From, Bump, AdmitStep;
    StepShape(u, s, e);
    match e
    case Receive(i, wire, v) => ReceiveInOrder(u, s, Capture(i, Clip(wire), v), k);
    case Enqueue(i) => FromSnoc(s.queue, Item(i, s.senders[i].frame), k);
    case Dequeue => DequeueInOrder(s, k);
    case _ =>
  }

  lemma StepAttributed(u: Setup, s: State, e: Event)
    requires Shape(u, s) && Attributed(u, s) && Enabled(s, e)
    ensures Attributed(u, Apply(u, s, e))
  {
    hide Outcome, CountOutcome, Image, Bump, AdmitStep;
  }

  lemma StepQuiet(u: Setup, s: State, e: Event)
    requires u.mode.Observe? && Shape(u, s) && Quiet(s) && Enabled(s, e)
    ensures Quiet(Apply(u, s, e))
  {
    hide Outcome, CountOutcome, Bump;
  }

  /** Every step of every task keeps the invariant. */
  lemma StepInv(u: Setup, s: State, e: Event)
    requires Inv(u, s) && Enabled(s, e)
    ensures Inv(u, Apply(u, s, e))
  {
    hide Apply, Enabled, LimiterTracked, Expected, Attributed, Quiet, Balanced, InOrder;
    StepShape(u, s, e);
    StepTracked(u, s, e);
    StepAttributed(u, s, e);
    forall c ensures Apply(u, s, e).counters[Index(c)] == Expected(u, Apply(u, s, e), c) { StepCount(u, s, e, c); }
    if u.mode.Observe? {
      StepQuiet(u, s, e);
    } else {
      StepBalanced(u, s, e);
      forall i | 0 <= i < u.sources ensures InOrder(u, Apply(u, s, e), i) { StepInOrder(u, s, e, i); }
    }
  }

  lemma {:induction false} RunInv(u: Setup, es: seq<Event>)
    requires Feasible(u, es)
    ensures Inv(u, After(u, es))
  {
    hide Inv, Apply, Enabled, Init;
    if es == [] {
      InitInv(u);
    } else {
      RunInv(u, es[..|es| - 1]);
      StepInv(u, After(u, es[..|es| - 1]), es[|es| - 1]);
    }
  }

  // ----- the theorems -----

  ghost function Value(s: State, c: Counter): nat
    requires |s.counters| == COUNTERS
  {
    s.counters[Index(c)]
  }

  /** No counter can drift: its value is the number of events in the history it stands for. */
  lemma CountersAreExact(u: Setup, es: seq<Event>, c: Counter)
    requires Feasible(u, es)
    ensures Value(After(u, es), c) == Expected(u, After(u, es), c)
  {
    RunInv(u, es);
  }

  // The tallies of a reception history, grouped as the conservation laws need them.
  ghost function RejectTally(u: Setup, caps: seq<Capture>): nat {
    ReceiveTally(u, caps, Length) + ReceiveTally(u, caps, Counter.Vlan) + ReceiveTally(u, caps, EtherAddress)
    + ReceiveTally(u, caps, OuiType) + ReceiveTally(u, caps, SourceBss) + ReceiveTally(u, caps, DestinationBss)
    + ReceiveTally(u, caps, AuthLength) + ReceiveTally(u, caps, Counter.Tlv) + ReceiveTally(u, caps, BroadcastScope)
  }

  ghost function KindTally(u: Setup, caps: seq<Capture>): nat {
    ReceiveTally(u, caps, Pull) + ReceiveTally(u, caps, Response) + ReceiveTally(u, caps, Push)
    + ReceiveTally(u, caps, SeqRequest) + ReceiveTally(u, caps, SeqResponse)
  }

  function RejectMarks(mode: Mode, o: Result<Match, Counter>): nat {
    Marks(mode, o, Length) + Marks(mode, o, Counter.Vlan) + Marks(mode, o, EtherAddress) + Marks(mode, o, OuiType)
    + Marks(mode, o, SourceBss) + Marks(mode, o, DestinationBss) + Marks(mode, o, AuthLength)
    + Marks(mode, o, Counter.Tlv) + Marks(mode, o, BroadcastScope)
  }

  lemma RejectMarksValue(mode: Mode, o: Result<Match, Counter>)
    requires o.Err? ==> IsRejection(o.error)
    ensures Marks(mode, o, Seen) == 1 == Marks(mode, o, Matched) + RejectMarks(mode, o)
  {
    hide RejectMarks;
    if o.Ok? { AcceptedMarks(mode, o.value); } else { RejectedMarks(mode, o.error); }
  }

  lemma AcceptedMarks(mode: Mode, m: Match)
    ensures RejectMarks(mode, Ok(m)) == 0
  {
    assert KindCounter(m.kind) in {Pull, Response, Push, SeqRequest, SeqResponse};
  }

  lemma RejectedMarks(mode: Mode, reason: Counter)
    requires IsRejection(reason)
    ensures RejectMarks(mode, Err(reason)) == 1
  {
    match reason {
      case Length => case Vlan => case EtherAddress => case OuiType => case SourceBss =>
      case DestinationBss => case AuthLength => case Tlv => case BroadcastScope =>
    }
  }

  /** Each capture is seen once and either matched or rejected once; each match has one kind. */
  lemma {:induction false} SeenTally(u: Setup, caps: seq<Capture>)
    ensures ReceiveTally(u, caps, Seen) == |caps| == ReceiveTally(u, caps, Matched) + RejectTally(u, caps)
  {
    hide Outcome, RejectMarks;
    if caps != [] {
      var front, cap := caps[..|caps| - 1], caps[|caps| - 1];
      assert caps == front + [cap];
      SeenTally(u, front);
      ReceiveTallySnoc(u, front, cap, Seen);
      ReceiveTallySnoc(u, front, cap, Matched);
      RejectTallyStep(u, front, cap, Outcome(u, cap));
      RejectionsOnly(u, cap);
      RejectMarksValue(u.mode, Outcome(u, cap));
    }
  }

  lemma RejectTallyStep(u: Setup, front: seq<Capture>, cap: Capture, o: Result<Match, Counter>)
    requires o == Outcome(u, cap)
    ensures RejectTally(u, front + [cap]) == RejectTally(u, front) + RejectMarks(u.mode, o)
  {
    ReceiveTallySnoc(u, front, cap, Length);
    ReceiveTallySnoc(u, front, cap, Counter.Vlan);
    ReceiveTallySnoc(u, front, cap, EtherAddress);
    ReceiveTallySnoc(u, front, cap, OuiType);
    ReceiveTallySnoc(u, front, cap, SourceBss);
    ReceiveTallySnoc(u, front, cap, DestinationBss);
    ReceiveTallySnoc(u, front, cap, AuthLength);
    ReceiveTallySnoc(u, front, cap, Counter.Tlv);
    ReceiveTallySnoc(u, front, cap, BroadcastScope);
  }

  function KindMarks(mode: Mode, o: Result<Match, Counter>): nat {
    Marks(mode, o, Pull) + Marks(mode, o, Response) + Marks(mode, o, Push)
    + Marks(mode, o, SeqRequest) + Marks(mode, o, SeqResponse)
  }

  lemma KindMarksValue(mode: Mode, o: Result<Match, Counter>)
    requires o.Err? ==> IsRejection(o.error)
    ensures KindMarks(mode, o) == Marks(mode, o, Matched)
  {
  }

  lemma KindTallyStep(u: Setup, front: seq<Capture>, cap: Capture)
    ensures KindTally(u, front + [cap]) == KindTally(u, front) + KindMarks(u.mode, Outcome(u, cap))
  {
    ReceiveTallySnoc(u, front, cap, Pull);
    ReceiveTallySnoc(u, front, cap, Response);
    ReceiveTallySnoc(u, front, cap, Push);
    ReceiveTallySnoc(u, front, cap, SeqRequest);
    ReceiveTallySnoc(u, front, cap, SeqResponse);
  }

  lemma {:induction false} KindTallies(u: Setup, caps: seq<Capture>)
    ensures ReceiveTally(u, caps, Matched) == KindTally(u, caps)
  {
    hide Outcome, KindMarks;
    if caps != [] {
      var front, cap := caps[..|caps| - 1], caps[|caps| - 1];
      assert caps == front + [cap];
      KindTallies(u, front);
      KindTallyStep(u, front, cap);
      RejectionsOnly(u, cap);
      KindMarksValue(u.mode, Outcome(u, cap));
      ReceiveTallySnoc(u, front, cap, Matched);
    }
  }

  lemma {:induction false} ObservedTally(u: Setup, caps: seq<Capture>)
    ensures ReceiveTally(u, caps, Observed) == if u.mode.Observe? then ReceiveTally(u, caps, Matched) else 0
  {
    hide Outcome;
    if caps != [] {
      ObservedTally(u, caps[..|caps| - 1]);
      RejectionsOnly(u, caps[|caps| - 1]);
    }
  }

  /** Reception never touches the inject task's counters. */
  lemma {:induction false} InjectTallies(u: Setup, caps: seq<Capture>, c: Counter)
    requires c.RateLimited? || c.Injected? || c.InjectError?
    ensures ReceiveTally(u, caps, c) == 0
  {
    hide Outcome;
    if caps != [] {
      InjectTallies(u, caps[..|caps| - 1], c);
      RejectionsOnly(u, caps[|caps| - 1]);
    }
  }

  lemma OtherTallies(u: Setup, caps: seq<Capture>)
    ensures ReceiveTally(u, caps, Observed) == if u.mode.Observe? then ReceiveTally(u, caps, Matched) else 0
    ensures ReceiveTally(u, caps, RateLimited) == ReceiveTally(u, caps, Injected) == ReceiveTally(u, caps, InjectError) == 0
  {
    ObservedTally(u, caps);
    InjectTallies(u, caps, RateLimited);
    InjectTallies(u, caps, Injected);
    InjectTallies(u, caps, InjectError);
  }

  lemma SeenIsConserved(u: Setup, es: seq<Event>)
    requires Feasible(u, es)
    ensures var s := After(u, es);
      && Value(s, Seen) == |s.received|
      && Value(s, Seen) == Value(s, Matched) + Value(s, Length) + Value(s, Counter.Vlan) + Value(s, EtherAddress)
           + Value(s, OuiType) + Value(s, SourceBss) + Value(s, DestinationBss) + Value(s, AuthLength)
           + Value(s, Counter.Tlv) + Value(s, BroadcastScope)
      && Value(s, Matched) == Value(s, Pull) + Value(s, Response) + Value(s, Push) + Value(s, SeqRequest) + Value(s, SeqResponse)
  {
    hide ReceiveTally, InOrder, Balanced, LimiterTracked, Quiet, Attributed, After, Feasible;
    RunInv(u, es);
    SeenTally(u, After(u, es).received);
    KindTallies(u, After(u, es).received);
  }

  /** In forward mode every matched frame is somewhere, until shutdown discards what is under way. */
  lemma MatchedIsConserved(u: Setup, es: seq<Event>)
    requires Feasible(u, es) && u.mode.Forward?
    ensures var s := After(u, es);
      && |s.queue| <= QUEUE_DEPTH && SendingCount(s.senders) <= u.sources && Inflight(s) <= 1
      && Value(s, Observed) == 0
      && (s.up ==> Value(s, Matched) == |s.queue| + SendingCount(s.senders) + Inflight(s)
                     + Value(s, RateLimited) + Value(s, Injected) + Value(s, InjectError))
  {
    hide ReceiveTally, InOrder, LimiterTracked, Attributed, After, Feasible;
    RunInv(u, es);
    OtherTallies(u, After(u, es).received);
    SendingBound(After(u, es).senders);
  }

  /** In observe mode matched frames are counted and nothing else ever happens to them. */
  lemma ObserveOnlyCounts(u: Setup, es: seq<Event>)
    requires Feasible(u, es) && u.mode.Observe?
    ensures var s := After(u, es);
      && Value(s, Observed) == Value(s, Matched)
      && Value(s, RateLimited) == Value(s, Injected) == Value(s, InjectError) == 0
      && s.consumed == [] && s.writing.None? && s.queue == []
  {
    hide ReceiveTally, Balanced, InOrder, LimiterTracked, After, Feasible;
    RunInv(u, es);
    OtherTallies(u, After(u, es).received);
  }

  // ----- order and content of what reaches the TAP -----

  ghost predicate Subsequence<T(!new)>(xs: seq<T>, ys: seq<T>) {
    exists at: seq<nat> :: Embeds(at, xs, ys)
  }

  ghost predicate Embeds<T>(at: seq<nat>, xs: seq<T>, ys: seq<T>) {
    && |at| == |xs|
    && (forall k :: 0 <= k < |at| ==> at[k] < |ys| && ys[at[k]] == xs[k])
    && (forall j, k :: 0 <= j < k < |at| ==> at[j] < at[k])
  }

  lemma EmbedsExtra<T>(at: seq<nat>, xs: seq<T>, ys: seq<T>, more: seq<T>)
    requires Embeds(at, xs, ys)
    ensures Embeds(at, xs, ys + more)
  {
  }

  lemma EmbedsSnoc<T>(at: seq<nat>, xs: seq<T>, ys: seq<T>, x: T)
    requires Embeds(at, xs, ys)
    ensures Embeds(at + [|ys|], xs + [x], ys + [x])
  {
  }

  /** The admitted frames of a source, as positions among all its consumed frames. */
  lemma {:induction false} TappedEmbeds(items: seq<Item>, attempts: seq<Attempt>, i: nat) returns (at: seq<nat>)
    requires |items| == |attempts|
    ensures Embeds(at, Tapped(items, attempts, i), From(items, i))
  {
    hide Embeds;
    if items == [] {
      at := [];
      EmptyEmbeds<Bytes>();
    } else {
      var n := |items| - 1;
      at := TappedEmbeds(items[..n], attempts[..n], i);
      var xs, ys := Tapped(items[..n], attempts[..n], i), From(items[..n], i);
      if items[n].source == i && attempts[n].admitted {
        EmbedsSnoc(at, xs, ys, items[n].frame);
        at := at + [|ys|];
      } else {
        assert Tapped(items, attempts, i) == xs + [] == xs;
        EmbedsExtra(at, xs, ys, if items[n].source == i then [items[n].frame] else []);
      }
    }
  }

  lemma EmptyEmbeds<T>()
    ensures Embeds<T>([], [], [])
  {
  }

  /** Per source, the TAP sees an in-order subsequence of that source's accepted, untagged frames;
      when nothing is waiting, every accepted frame has been handled, in order. */
  lemma TapKeepsOrder(u: Setup, es: seq<Event>, i: nat)
    requires Feasible(u, es) && i < u.sources && u.mode.Forward?
    ensures var s := After(u, es);
      && Subsequence(Tapped(s.consumed, s.attempts, i), Images(u, s.received, i))
      && (s.up && s.queue == [] && !s.senders[i].Sending? ==>
            From(s.consumed, i) == Images(u, s.received, i))
  {
    RunInv(u, es);
    var s := After(u, es);
    assert InOrder(u, s, i);
    var at := TappedEmbeds(s.consumed, s.attempts, i);
    assert Embeds(at, Tapped(s.consumed, s.attempts, i), Images(u, s.received, i));
  }

  /** What the kernel-side gate and a second pass of the parser think of a frame at the TAP. */
  ghost predicate FitForTap(u: Setup, x: Bytes) {
    && ETH_HEADER_LEN <= |x| <= MAX_FRAME
    && Wire.Be16(x[12], x[13]) == ETH_P_RRB
    && Judge(x, VlanInfo(true, TPID_8021Q, u.filter.managementVlan), u.filter).Ok?
  }

  lemma {:induction false} ImagesAreFit(u: Setup, caps: seq<Capture>, i: nat, k: nat)
    requires k < |Images(u, caps, i)|
    ensures FitForTap(u, Images(u, caps, i)[k])
  {
    var n := |caps| - 1;
    if k < |Images(u, caps[..n], i)| {
      ImagesAreFit(u, caps[..n], i, k);
    } else {
      RelayedFrameIsAccepted(caps[n].bytes, caps[n].vlan, u.filter);
    }
  }

  /** A frame among `items` is found again among the frames of its source. */
  lemma {:induction false} ItemInFrom(items: seq<Item>, k: nat) returns (j: nat)
    requires k < |items|
    ensures j < |From(items, items[k].source)| && From(items, items[k].source)[j] == items[k].frame
  {
    var n := |items| - 1;
    if k == n {
      j := |From(items[..n], items[k].source)|;
    } else {
      j := ItemInFrom(items[..n], k);
    }
  }

  /** A frame that has left the queue is the image of an accepted capture of its source. */
  lemma ConsumedIsImage(u: Setup, es: seq<Event>, k: nat) returns (i: nat, j: nat)
    requires Feasible(u, es) && k < |After(u, es).consumed|
    ensures i == After(u, es).consumed[k].source < u.sources && u.mode.Forward?
    ensures j < |Images(u, After(u, es).received, i)|
    ensures After(u, es).consumed[k].frame == Images(u, After(u, es).received, i)[j]
  {
    hide From, Images, Counted, LimiterTracked, Balanced;
    RunInv(u, es);
    var s := After(u, es);
    i := s.consumed[k].source;
    assert InOrder(u, s, i);
    j := ItemInFrom(s.consumed, k);
  }

  lemma InFlightIsLast(u: Setup, es: seq<Event>)
    requires Feasible(u, es)
    ensures After(u, es).writing.Some? ==>
      && After(u, es).attempts != [] && After(u, es).attempts[|After(u, es).attempts| - 1].admitted
      && After(u, es).writing.value == After(u, es).consumed[|After(u, es).attempts| - 1]
  {
    hide Expected, LimiterTracked, Balanced, InOrder, After, Feasible;
    RunInv(u, es);
  }

  /** Every frame ever handed to the TAP, and the one being written, carries the RRB EtherType,
      untagged, and would be accepted again under a metadata tag of the management VLAN. */
  lemma TapSeesOnlyRelayableFrames(u: Setup, es: seq<Event>)
    requires Feasible(u, es)
    ensures forall k :: 0 <= k < |After(u, es).consumed| ==> FitForTap(u, After(u, es).consumed[k].frame)
    ensures After(u, es).writing.Some? ==>
              FitForTap(u, After(u, es).writing.value.frame) && After(u, es).attempts != []
              && After(u, es).attempts[|After(u, es).attempts| - 1].admitted
  {
    hide FitForTap, Images, After, Feasible;
    var s := After(u, es);
    forall k | 0 <= k < |s.consumed| ensures FitForTap(u, s.consumed[k].frame) {
      var i, j := ConsumedIsImage(u, es, k);
      ImagesAreFit(u, s.received, i, j);
    }
    InFlightIsLast(u, es);
  }

  // ----- the budget -----

  /** With any number of sources and any interleaving, `k` consecutive seconds admit at most `k`
      budgets of TAP writes, and a refusal means the second's budget was already spent. */
  lemma RunStaysInBudget(u: Setup, es: seq<Event>, from: int, k: nat)
    requires Feasible(u, es)
    ensures Admitted(After(u, es).attempts, from, from + k) <= k * u.perSecond
    ensures AdmittedAt(After(u, es).attempts, from) == Min(Calls(After(u, es).attempts, from), u.perSecond)
    ensures forall j :: 0 <= j < |After(u, es).attempts| && !After(u, es).attempts[j].admitted ==>
              AdmittedAt(After(u, es).attempts[..j], After(u, es).attempts[j].second) == u.perSecond
  {
    RunInv(u, es);
    var log := After(u, es).attempts;
    WindowBudget(u.perSecond, log, from, k);
    LimiterIsExact(u.perSecond, log, from);
    forall j | 0 <= j < |log| && !log[j].admitted ensures AdmittedAt(log[..j], log[j].second) == u.perSecond {
      RefusedOnlyWhenSpent(u.perSecond, log, j);
    }
  }
}
