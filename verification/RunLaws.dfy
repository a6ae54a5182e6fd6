/** Runs, read off their events: what each counter counts, when each decision is made, what comes last. */
module RunLaws {
  import opened Proto
  import opened Verdict
  import opened Relay
  import opened Packet
  import Config
  import opened Pipeline
  import opened PipelineLaws

  /** The positions of the events that satisfy `p`. */
  ghost function Where(es: seq<Event>, p: Event -> bool): set<nat> { set k: nat | k < |es| && p(es[k]) }

  // ----- prefixes of runs -----

  lemma {:induction false} FeasiblePrefix(u: Setup, es: seq<Event>, n: nat)
    requires Feasible(u, es) && n <= |es|
    ensures Feasible(u, es[..n])
    decreases |es|
  {
    if n == |es| {
      assert es[..n] == es;
    } else {
      FeasiblePrefix(u, es[..|es| - 1], n);
      assert es[..|es| - 1][..n] == es[..n];
    }
  }

  /** The event at `n` was enabled in the state before it and led to the state after it. */
  lemma StepAt(u: Setup, es: seq<Event>, n: nat)
    requires Feasible(u, es) && n < |es|
    ensures Feasible(u, es[..n]) && Feasible(u, es[..n + 1])
    ensures Enabled(After(u, es[..n]), es[n])
    ensures After(u, es[..n + 1]) == Apply(u, After(u, es[..n]), es[n])
  {
    hide Enabled, Apply;
    FeasiblePrefix(u, es, n);
    FeasiblePrefix(u, es, n + 1);
    assert es[..n + 1][..n] == es[..n];
  }

  lemma WhereSnoc(es: seq<Event>, p: Event -> bool)
    requires es != []
    ensures |Where(es, p)| == |Where(es[..|es| - 1], p)| + if p(es[|es| - 1]) then 1 else 0
  {
    var n := |es| - 1;
    assert Where(es, p) == Where(es[..n], p) + if p(es[n]) then {n} else {};
  }

  // ----- counters -----

  /** In every reachable state, counter `c` goes up exactly on the events that satisfy `p`. */
  ghost predicate CountsExactly(u: Setup, c: Counter, p: Event -> bool) {
    forall s, e :: Shape(u, s) && Enabled(s, e) ==>
      Apply(u, s, e).counters[Index(c)] == s.counters[Index(c)] + if p(e) then 1 else 0
  }

  lemma {:induction false} CountByEvents(u: Setup, es: seq<Event>, c: Counter, p: Event -> bool)
    requires Feasible(u, es) && CountsExactly(u, c, p)
    ensures Value(After(u, es), c) == |Where(es, p)|
  {
    hide Apply, Enabled, Where, Index;
    if es == [] {
      InitCounts(u, c, p);
    } else {
      var front := es[..|es| - 1];
      CountByEvents(u, front, c, p);
      ReachableShape(u, front);
      WhereSnoc(es, p);
    }
  }

  lemma InitCounts(u: Setup, c: Counter, p: Event -> bool)
    ensures Value(Init(u), c) == 0 && Where([], p) == {}
  {
  }

  lemma ReachableShape(u: Setup, es: seq<Event>)
    requires Feasible(u, es)
    ensures Shape(u, After(u, es))
  {
    hide After, Feasible;
    RunInv(u, es);
  }

  /** What the gate says of a reception: it sees the first 2048 octets of the frame. */
  ghost function Heard(u: Setup, e: Event): Result<Match, Counter>
    requires e.Receive?
  {
    Judge(if |e.wire| <= 2048 then e.wire else e.wire[..2048], e.vlan, u.filter)
  }

  lemma HeardIsOutcome(u: Setup, e: Event)
    requires e.Receive?
    ensures Heard(u, e) == Outcome(u, Capture(e.source, Clip(e.wire), e.vlan))
    ensures Heard(u, e).Ok? ==> 1 <= Heard(u, e).value.kind <= 5
    ensures Heard(u, e).Err? ==> IsRejection(Heard(u, e).error)
  {
    if |e.wire| <= 2048 { FittingIsDeliveredWhole(e.wire); }
  }

  /** A frame that fits the buffer enters the history whole, and in forward mode, if accepted, its
      untagged image is what the capture task goes on to send. */
  lemma FittingIsCapturedWhole(u: Setup, s: State, i: nat, wire: Bytes, v: VlanInfo)
    requires Shape(u, s) && Enabled(s, Receive(i, wire, v)) && |wire| <= 2048
    ensures Apply(u, s, Receive(i, wire, v)).received == s.received + [Capture(i, wire, v)]
    ensures Judge(wire, v, u.filter).Ok? ==> v.present || 16 <= |wire|
    ensures u.mode.Forward? && Judge(wire, v, u.filter).Ok? ==>
              Apply(u, s, Receive(i, wire, v)).senders == s.senders[i := Sending(Untag(wire, v))]
    ensures u.mode.Observe? || Judge(wire, v, u.filter).Err? ==>
              Apply(u, s, Receive(i, wire, v)).senders == s.senders
  {
    hide CountOutcome, BodyVerdict;
    FittingIsDeliveredWhole(wire);
  }

  // Kinds of events, as values to count with.
  ghost function Reception(): Event -> bool { (e: Event) => e.Receive? }
  ghost function Acceptance(u: Setup): Event -> bool { (e: Event) => e.Receive? && Heard(u, e).Ok? }
  ghost function AcceptanceOf(u: Setup, kind: int): Event -> bool {
    (e: Event) => e.Receive? && Heard(u, e).Ok? && Heard(u, e).value.kind == kind
  }
  ghost function Rejection(u: Setup, c: Counter): Event -> bool { (e: Event) => e.Receive? && Heard(u, e) == Err(c) }
  ghost function WriteResult(ok: bool): Event -> bool { (e: Event) => e == Written(ok) }
  ghost function Taking(): Event -> bool { (e: Event) => e.Dequeue? }

  /** The increments of one step, counter by counter. */
  lemma StepIncrement(u: Setup, s: State, e: Event, c: Counter)
    requires Shape(u, s) && Enabled(s, e)
    ensures Apply(u, s, e).counters[Index(c)] == s.counters[Index(c)] +
      match e
      case Receive(i, wire, v) => Marks(u.mode, Heard(u, e), c)
      case Dequeue => if c == RateLimited && !AdmitStep(s.limiter, s.clock).1 then 1 else 0
      case Written(ok) => if c == (if ok then Injected else InjectError) then 1 else 0
      case _ => 0
  {
    hide Outcome, CountOutcome, Marks, Bump, Index, Judge, AdmitStep;
    match e
    case Receive(i, wire, v) =>
      HeardIsOutcome(u, e);
      ReceiveCount(u, s, Capture(i, Clip(wire), v), c);
    case Dequeue => BumpAt(s.counters, RateLimited, c);
    case Written(ok) => BumpAt(s.counters, if ok then Injected else InjectError, c);
    case _ =>
  }

  /** What one outcome adds to the counters of the inject task and of the five kinds. */
  lemma KindMarksInPlainTerms(mode: Config.Mode, o: Result<Match, Counter>)
    requires if o.Ok? then 1 <= o.value.kind <= 5 else IsRejection(o.error)
    ensures Marks(mode, o, Seen) == 1 && Marks(mode, o, Matched) == if o.Ok? then 1 else 0
    ensures Marks(mode, o, Pull) == if o.Ok? && o.value.kind == 1 then 1 else 0
    ensures Marks(mode, o, Response) == if o.Ok? && o.value.kind == 2 then 1 else 0
    ensures Marks(mode, o, Push) == if o.Ok? && o.value.kind == 3 then 1 else 0
    ensures Marks(mode, o, SeqRequest) == if o.Ok? && o.value.kind == 4 then 1 else 0
    ensures Marks(mode, o, SeqResponse) == if o.Ok? && o.value.kind == 5 then 1 else 0
    ensures Marks(mode, o, Injected) == Marks(mode, o, InjectError) == 0
  {
  }

  lemma RejectionMarksInPlainTerms(mode: Config.Mode, o: Result<Match, Counter>, c: Counter)
    requires IsRejection(c) && (o.Err? ==> IsRejection(o.error))
    ensures Marks(mode, o, c) == if o == Err(c) then 1 else 0
  {
  }

  lemma StepKinds(u: Setup, s: State, e: Event)
    requires Shape(u, s) && Enabled(s, e)
    ensures var t := Apply(u, s, e);
      && t.counters[Index(Seen)] == s.counters[Index(Seen)] + (if Reception()(e) then 1 else 0)
      && t.counters[Index(Matched)] == s.counters[Index(Matched)] + (if Acceptance(u)(e) then 1 else 0)
      && t.counters[Index(Pull)] == s.counters[Index(Pull)] + (if AcceptanceOf(u, 1)(e) then 1 else 0)
      && t.counters[Index(Response)] == s.counters[Index(Response)] + (if AcceptanceOf(u, 2)(e) then 1 else 0)
      && t.counters[Index(Push)] == s.counters[Index(Push)] + (if AcceptanceOf(u, 3)(e) then 1 else 0)
      && t.counters[Index(SeqRequest)] == s.counters[Index(SeqRequest)] + (if AcceptanceOf(u, 4)(e) then 1 else 0)
      && t.counters[Index(SeqResponse)] == s.counters[Index(SeqResponse)] + (if AcceptanceOf(u, 5)(e) then 1 else 0)
  {
    hide Apply, Enabled, Heard, Index, AdmitStep, Shape, Marks, IsRejection;
    if e.Receive? {
      HeardIsOutcome(u, e);
      KindMarksInPlainTerms(u.mode, Heard(u, e));
    }
    StepIncrement(u, s, e, Seen);
    StepIncrement(u, s, e, Matched);
    StepIncrement(u, s, e, Pull);
    StepIncrement(u, s, e, Response);
    StepIncrement(u, s, e, Push);
    StepIncrement(u, s, e, SeqRequest);
    StepIncrement(u, s, e, SeqResponse);
  }

  /** Each reception counter is the number of receptions of its kind in the run. */
  lemma KindCountersInPlainTerms(u: Setup, es: seq<Event>)
    requires Feasible(u, es)
    ensures Value(After(u, es), Seen) == |Where(es, Reception())|
    ensures Value(After(u, es), Matched) == |Where(es, Acceptance(u))|
    ensures Value(After(u, es), Pull) == |Where(es, AcceptanceOf(u, 1))|
    ensures Value(After(u, es), Response) == |Where(es, AcceptanceOf(u, 2))|
    ensures Value(After(u, es), Push) == |Where(es, AcceptanceOf(u, 3))|
    ensures Value(After(u, es), SeqRequest) == |Where(es, AcceptanceOf(u, 4))|
    ensures Value(After(u, es), SeqResponse) == |Where(es, AcceptanceOf(u, 5))|
  {
    hide Apply, Enabled, Index, Shape, Reception, Acceptance, AcceptanceOf, After, Feasible, Where;
    forall s, e | Shape(u, s) && Enabled(s, e) { StepKinds(u, s, e); }
    CountByEvents(u, es, Seen, Reception());
    CountByEvents(u, es, Matched, Acceptance(u));
    CountByEvents(u, es, Pull, AcceptanceOf(u, 1));
    CountByEvents(u, es, Response, AcceptanceOf(u, 2));
    CountByEvents(u, es, Push, AcceptanceOf(u, 3));
    CountByEvents(u, es, SeqRequest, AcceptanceOf(u, 4));
    CountByEvents(u, es, SeqResponse, AcceptanceOf(u, 5));
  }

  lemma StepRejection(u: Setup, s: State, e: Event, c: Counter)
    requires Shape(u, s) && Enabled(s, e) && IsRejection(c)
    ensures Apply(u, s, e).counters[Index(c)] == s.counters[Index(c)] + if Rejection(u, c)(e) then 1 else 0
  {
    hide Apply, Enabled, Heard, Index, AdmitStep, Shape, Marks;
    if e.Receive? {
      HeardIsOutcome(u, e);
      RejectionMarksInPlainTerms(u.mode, Heard(u, e), c);
    }
    StepIncrement(u, s, e, c);
  }

  /** Each rejection counter is the number of receptions refused for that reason. */
  lemma RejectionCountersInPlainTerms(u: Setup, es: seq<Event>, c: Counter)
    requires Feasible(u, es) && IsRejection(c)
    ensures Value(After(u, es), c) == |Where(es, Rejection(u, c))|
  {
    hide Apply, Enabled, Index, Shape, Rejection, After, Feasible, Where, IsRejection;
    forall s, e | Shape(u, s) && Enabled(s, e) { StepRejection(u, s, e, c); }
    CountByEvents(u, es, c, Rejection(u, c));
  }

  lemma StepWrite(u: Setup, s: State, e: Event, ok: bool)
    requires Shape(u, s) && Enabled(s, e)
    ensures var c := if ok then Injected else InjectError;
      Apply(u, s, e).counters[Index(c)] == s.counters[Index(c)] + if WriteResult(ok)(e) then 1 else 0
  {
    hide Apply, Enabled, Heard, Index, AdmitStep, Shape, Marks, IsRejection;
    if e.Receive? {
      HeardIsOutcome(u, e);
      KindMarksInPlainTerms(u.mode, Heard(u, e));
    }
    StepIncrement(u, s, e, if ok then Injected else InjectError);
  }

  /** The write counters are the numbers of writes that succeeded and failed. */
  lemma WriteCountersInPlainTerms(u: Setup, es: seq<Event>, ok: bool)
    requires Feasible(u, es)
    ensures Value(After(u, es), if ok then Injected else InjectError) == |Where(es, WriteResult(ok))|
  {
    hide Apply, Enabled, Index, Shape, WriteResult, After, Feasible, Where;
    forall s, e | Shape(u, s) && Enabled(s, e) { StepWrite(u, s, e, ok); }
    CountByEvents(u, es, if ok then Injected else InjectError, WriteResult(ok));
  }

  /** The limiter's counter is the number of refusals among its decisions. */
  lemma LimitCounterInPlainTerms(u: Setup, es: seq<Event>)
    requires Feasible(u, es)
    ensures Value(After(u, es), RateLimited)
            == |Refusals(After(u, es).attempts)|
  {
    hide After, Feasible, ReceiveTally;
    CountersAreExact(u, es, RateLimited);
    InjectTallies(u, After(u, es).received, RateLimited);
    RefusalsAreCounted(After(u, es).attempts);
  }

  ghost function Refusals(log: seq<Attempt>): set<nat> { set k: nat | k < |log| && !log[k].admitted }

  lemma {:induction false} RefusalsAreCounted(log: seq<Attempt>)
    ensures CountAnswers(log, false) == |Refusals(log)|
  {
    if log == [] {
      assert Refusals(log) == {};
    } else {
      var n := |log| - 1;
      RefusalsAreCounted(log[..n]);
      assert Refusals(log) == Refusals(log[..n]) + if log[n].admitted then {} else {n};
    }
  }

  // ----- time -----

  /** `t` is what the clock reads before event `n`: the last tick, or zero. */
  ghost predicate ClockReads(es: seq<Event>, n: nat, t: int)
    requires n <= |es|
  {
    || (exists i :: 0 <= i < n && es[i].Tick? && es[i].now == t && forall m :: i < m < n ==> !es[m].Tick?)
    || (t == 0 && forall m :: 0 <= m < n ==> !es[m].Tick?)
  }

  lemma ClockStep(u: Setup, s: State, e: Event)
    requires Shape(u, s) && Enabled(s, e)
    ensures Apply(u, s, e).clock == (if e.Tick? then e.now else s.clock) && s.clock <= Apply(u, s, e).clock
    ensures Apply(u, s, e).attempts == s.attempts + if e.Dequeue? then [Attempt(s.clock, AdmitStep(s.limiter, s.clock).1)] else []
  {
    hide Outcome, CountOutcome, Bump, AdmitStep, Image;
  }

  lemma {:induction false} ClockIsLastTick(u: Setup, es: seq<Event>)
    requires Feasible(u, es)
    ensures ClockReads(es, |es|, After(u, es).clock)
  {
    hide Apply, Enabled;
    if es != [] {
      var front, e := es[..|es| - 1], es[|es| - 1];
      ClockIsLastTick(u, front);
      ReachableShape(u, front);
      ClockStep(u, After(u, front), e);
      assert forall m :: 0 <= m < |front| ==> front[m] == es[m];
      if e.Tick? { assert es[|es| - 1].now == After(u, es).clock; }
    }
  }

  /** Decisions are never taken back: a longer run only adds attempts, one per frame taken. */
  lemma {:induction false} AttemptsGrow(u: Setup, es: seq<Event>, n: nat)
    requires Feasible(u, es) && n <= |es|
    ensures Feasible(u, es[..n])
    ensures After(u, es[..n]).attempts <= After(u, es).attempts
    ensures After(u, es[..n]).clock <= After(u, es).clock
    ensures |After(u, es).attempts| == |Where(es, Taking())|
    decreases |es|
  {
    hide Apply, Enabled, Where;
    FeasiblePrefix(u, es, n);
    if es == [] {
      assert es[..n] == es;
      NothingTaken();
    } else {
      var front, e := es[..|es| - 1], es[|es| - 1];
      AttemptsGrow(u, front, if n < |es| then n else n - 1);
      ReachableShape(u, front);
      ClockStep(u, After(u, front), e);
      WhereSnoc(es, Taking());
      if n < |es| { assert front[..n] == es[..n]; } else { assert es[..n] == es; }
    }
  }

  lemma NothingTaken()
    ensures |Where([], Taking())| == 0
  {
    assert Where([], Taking()) == {};
  }

  /** The decision on the frame taken by event `n`, after `k` earlier ones, is made in the second the
      last tick before it announced. */
  lemma AttemptTime(u: Setup, es: seq<Event>, n: nat)
    requires Feasible(u, es) && n < |es| && es[n].Dequeue?
    ensures var k := |Where(es[..n], Taking())|;
      k < |After(u, es).attempts| && ClockReads(es, n, After(u, es).attempts[k].second)
  {
    hide Apply, Enabled, Where;
    StepAt(u, es, n);
    var s := After(u, es[..n]);
    ReachableShape(u, es[..n]);
    ClockStep(u, s, es[n]);
    AttemptsGrow(u, es[..n], n);
    AttemptsGrow(u, es, n + 1);
    ClockIsLastTick(u, es[..n]);
    assert forall m :: 0 <= m < n ==> es[..n][m] == es[m];
    assert After(u, es).attempts[|s.attempts|] == After(u, es[..n + 1]).attempts[|s.attempts|];
  }

  /** With a budget, the first frame taken after the clock has moved to a later second is admitted. */
  lemma LaterSecondIsAdmitted(u: Setup, es: seq<Event>, i: nat, n: nat)
    requires Feasible(u, es) && u.perSecond > 0
    requires i < n < |es| && es[i].Tick? && es[n].Dequeue?
    requires forall m :: i < m < n ==> !es[m].Dequeue?
    requires forall m :: 0 <= m < i && es[m].Tick? ==> es[m].now < es[i].now
    requires es[i].now > 0
    ensures var k := |Where(es[..n], Taking())|;
      k < |After(u, es).attempts| && After(u, es).attempts[k].admitted
  {
    hide Apply, Enabled, Where, AdmitStep, ClockReads;
    StepAt(u, es, n);
    var s := After(u, es[..n]);
    ReachableShape(u, es[..n]);
    ClockStep(u, s, es[n]);
    AttemptsGrow(u, es[..n], n);
    AttemptsGrow(u, es, n + 1);
    LaterSecondIsFresh(u, es, i, n);
    RunTracked(u, es[..n]);
    var a := Attempt(s.clock, AdmitStep(s.limiter, s.clock).1);
    FreshSecondAdmits(u.perSecond, s.attempts, s.clock);
    assert After(u, es).attempts[|s.attempts|] == After(u, es[..n + 1]).attempts[|s.attempts|] == a;
  }

  lemma RunTracked(u: Setup, es: seq<Event>)
    requires Feasible(u, es)
    ensures LimiterTracked(u, After(u, es))
  {
    hide After, Feasible;
    RunInv(u, es);
  }

  /** Every earlier decision lies in an earlier second. */
  lemma LaterSecondIsFresh(u: Setup, es: seq<Event>, i: nat, n: nat)
    requires Feasible(u, es) && i < n <= |es| && es[i].Tick? && es[i].now > 0
    requires forall m :: i < m < n ==> !es[m].Dequeue?
    requires forall m :: 0 <= m < i && es[m].Tick? ==> es[m].now < es[i].now
    ensures Feasible(u, es[..n])
    ensures forall k :: 0 <= k < |After(u, es[..n]).attempts| ==>
      After(u, es[..n]).attempts[k].second < After(u, es[..n]).clock
    decreases n
  {
    hide Apply, Enabled, ClockReads;
    FeasiblePrefix(u, es, n);
    StepAt(u, es, n - 1);
    ReachableShape(u, es[..n - 1]);
    ClockStep(u, After(u, es[..n - 1]), es[n - 1]);
    if n == i + 1 {
      RunTracked(u, es[..i]);
      ClockBelow(u, es, i);
    } else {
      LaterSecondIsFresh(u, es, i, n - 1);
    }
  }

  lemma ClockBelow(u: Setup, es: seq<Event>, i: nat)
    requires Feasible(u, es) && i < |es| && es[i].Tick? && es[i].now > 0
    requires forall m :: 0 <= m < i && es[m].Tick? ==> es[m].now < es[i].now
    ensures Feasible(u, es[..i]) && After(u, es[..i]).clock < es[i].now
  {
    hide After, Feasible;
    FeasiblePrefix(u, es, i);
    ClockIsLastTick(u, es[..i]);
    assert forall m :: 0 <= m < i ==> es[..i][m] == es[m];
  }

  /** A limiter with a budget admits the first call of a second. */
  lemma FreshSecondAdmits(perSecond: U32, log: seq<Attempt>, now: U64)
    requires perSecond > 0 && Produced(perSecond, log) && ClockForward(log)
    requires forall k :: 0 <= k < |log| ==> log[k].second < now
    ensures AdmitStep(LimiterAfter(perSecond, log), now).1
  {
    LimiterIsExact(perSecond, log, now);
    NoCallsYet(log, now);
  }

  // ----- what comes last -----

  lemma StoppedStays(u: Setup, s: State, e: Event, i: nat)
    requires Shape(u, s) && Enabled(s, e) && i < u.sources && s.senders[i].Stopped?
    ensures Apply(u, s, e).senders[i].Stopped? && (e.Receive? ==> e.source != i)
  {
    hide Outcome, CountOutcome, Bump, AdmitStep, Image;
  }

  lemma {:induction false} StoppedForGood(u: Setup, es: seq<Event>, at: nat, n: nat)
    requires Feasible(u, es) && at < n <= |es| && es[at].CaptureError?
    ensures Feasible(u, es[..n])
    ensures es[at].source < u.sources && After(u, es[..n]).senders[es[at].source].Stopped?
    decreases n
  {
    StepAt(u, es, n - 1);
    ReachableShape(u, es[..n - 1]);
    if at + 1 < n {
      hide Apply, Enabled;
      StoppedForGood(u, es, at, n - 1);
      StoppedStays(u, After(u, es[..n - 1]), es[n - 1], es[at].source);
    }
  }

  /** A source whose capture failed is never heard of again. */
  lemma FailedSourceIsSilent(u: Setup, es: seq<Event>, at: nat, n: nat)
    requires Feasible(u, es) && at < n < |es| && es[at].CaptureError?
    ensures es[n].Receive? ==> es[n].source != es[at].source
  {
    hide Apply;
    StoppedForGood(u, es, at, n);
    StepAt(u, es, n);
  }

  /** Nothing happens after shutdown. */
  lemma ShutdownIsLast(u: Setup, es: seq<Event>, n: nat)
    requires Feasible(u, es) && n < |es| && es[n].Shutdown?
    ensures n == |es| - 1
  {
    StepAt(u, es, n);
    if n + 1 < |es| { StepAt(u, es, n + 1); }
  }

  /** The pipeline cannot lock up: while a frame is under way, an inject step or a send can be taken,
      and a send waits only while 64 frames are queued. */
  lemma NeverStuck(u: Setup, es: seq<Event>)
    requires Feasible(u, es) && After(u, es).up
    ensures var s := After(u, es);
      && (s.queue != [] ==> Enabled(s, Dequeue) || (Enabled(s, Written(true)) && Enabled(s, Written(false))))
      && (forall i :: 0 <= i < |s.senders| && s.senders[i].Sending? ==> (Enabled(s, Enqueue(i)) <==> |s.queue| != 64))
      && (forall i, wire, v :: 0 <= i < |s.senders| && s.senders[i].Idle? ==> Enabled(s, Receive(i, wire, v)))
  {
    hide After, Feasible;
    ReachableShape(u, es);
  }
}
