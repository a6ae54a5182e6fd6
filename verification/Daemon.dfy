/** The running daemon: one object whose methods are the atomic sections of the capture and inject tasks. Each
    performs one step of the pipeline, so a daemon is always at the end of some run. */
module Daemons {
  import opened Proto
  import opened Verdict
  import opened Relay
  import opened Packet
  import opened Config
  import opened Parser
  import opened Pipeline
  import opened PipelineLaws
  import opened EndToEnd

  class Daemon {
    const u: Setup
    const counters: array<nat>
    const limiter: Limiter
    var senders: seq<Sender>
    var queue: seq<Item>
    var writing: Option<Item>
    var clock: U64
    var up: bool
    ghost var received: seq<Capture>
    ghost var consumed: seq<Item>
    ghost var attempts: seq<Attempt>
    ghost var writes: seq<bool>
    ghost var run: seq<Event>

    ghost function Abstract(): State
      reads this, counters, limiter
    {
      State(counters[..], senders, queue, writing, limiter.State(), clock, up, received, consumed, attempts, writes)
    }

    /** The daemon is where its run has led it. */
    ghost predicate Valid()
      reads this, counters, limiter
    {
      && counters.Length == COUNTERS && limiter.Valid()
      && Feasible(u, run) && Abstract() == After(u, run)
    }

    constructor (u: Setup)
      ensures Valid() && this.u == u && run == [] && fresh(counters) && fresh(limiter)
    {
      this.u := u;
      var cells := new nat[COUNTERS](_ => 0);
      var gate := new Limiter(u.perSecond);
      counters, limiter := cells, gate;
      senders := seq(u.sources, _ => Idle);
      queue, writing, clock, up := [], None, 0, true;
      received, consumed, attempts, writes, run := [], [], [], [], [];
      new;
      assert counters[..] == Init(u).counters;
    }

    /** Close a step: the run grows by the event that has just been carried out. */
    ghost method Record(e: Event)
      requires counters.Length == COUNTERS && limiter.Valid()
      requires Feasible(u, run) && Enabled(After(u, run), e) && Abstract() == Apply(u, After(u, run), e)
      modifies this`run
      ensures Valid() && run == old(run) + [e]
    {
      Snoc(run, e);
      run := run + [e];
    }

    method BumpCounter(c: Counter)
      requires counters.Length == COUNTERS
      modifies counters
      ensures counters[..] == Bump(old(counters[..]), c)
    {
      counters[Index(c)] := counters[Index(c)] + 1;
    }

    /** Copy a frame into the reused buffer; what does not fit is lost, what was there is not seen. */
    static method FillBuffer(buf: array<Byte>, wire: Bytes) returns (n: nat)
      requires buf.Length == MAX_FRAME
      modifies buf
      ensures n == (if |wire| <= 2048 then |wire| else 2048) && n <= buf.Length
      ensures forall k :: 0 <= k < n ==> buf[k] == wire[k]
      ensures buf[..n] == Clip(wire)
    {
      n := 0;
      while n < |wire| && n < buf.Length
        invariant n <= |wire| && n <= buf.Length && buf[..n] == wire[..n]
      {
        buf[n] := wire[n];
        n := n + 1;
      }
    }

    /** Count one outcome in the shared array. */
    method CountOne(o: Result<Match, Counter>)
      requires counters.Length == COUNTERS
      modifies counters
      ensures counters[..] == CountOutcome(u.mode, old(counters[..]), o)
    {
      BumpCounter(Seen);
      match o {
        case Err(reason) => BumpCounter(reason);
        case Ok(m) =>
          BumpCounter(Matched);
          BumpCounter(KindCounter(m.kind));
          if u.mode.Observe? {
            BumpCounter(Observed);
          }
      }
    }

    /** Capture task of source `i`: one received frame and its control messages, up to the await on the
        channel. */
    method ReceiveFrame(i: nat, buf: array<Byte>, wire: Bytes, controls: seq<Control>)
      requires Valid() && Enabled(Abstract(), Receive(i, wire, VlanOf(controls)))
      requires buf.Length == MAX_FRAME && buf as object != counters as object
      modifies this, counters, buf
      ensures Valid() && run == old(run) + [Receive(i, wire, VlanOf(controls))]
    {
      hide CountOutcome, VlanOf, BodyVerdict;
      var n := FillBuffer(buf, wire);
      var vlan := DeriveVlan(controls);
      var frame := buf[..n];
      var o := Classify(frame, vlan, u.filter);
      CountOne(o);
      if o.Ok? && u.mode.Forward? {
        senders := senders[i := Sending(Untag(frame, vlan))];
      }
      received := received + [Capture(i, frame, vlan)];
      Record(Receive(i, wire, vlan));
    }

    /** Capture task of source `i`: the channel has room and takes the frame being sent. */
    method CompleteSend(i: nat)
      requires Valid() && Enabled(Abstract(), Enqueue(i))
      modifies this
      ensures Valid() && run == old(run) + [Enqueue(i)]
    {
      queue, senders := queue + [Item(i, senders[i].frame)], senders[i := Idle];
      Record(Enqueue(i));
    }

    /** Inject task: take a frame and ask the limiter, up to the await on the TAP. */
    method InjectNext()
      requires Valid() && Enabled(Abstract(), Dequeue)
      modifies this, limiter, counters
      ensures Valid() && run == old(run) + [Dequeue]
    {
      var frame := queue[0];
      var r := limiter.Admit(clock);
      queue := queue[1..];
      if r.Ok? {
        writing := Some(frame);
      } else {
        BumpCounter(r.error);
      }
      consumed, attempts := consumed + [frame], attempts + [Attempt(clock, r.Ok?)];
      Record(Dequeue);
    }

    /** Inject task: the TAP write returned. */
    method CompleteWrite(ok: bool)
      requires Valid() && Enabled(Abstract(), Written(ok))
      modifies this, counters
      ensures Valid() && run == old(run) + [Written(ok)]
    {
      BumpCounter(if ok then Injected else InjectError);
      writing, writes := None, writes + [ok];
      Record(Written(ok));
    }

    /** Capture task of source `i`: the socket failed and its loop returns. */
    method StopCapture(i: nat)
      requires Valid() && Enabled(Abstract(), CaptureError(i))
      modifies this
      ensures Valid() && run == old(run) + [CaptureError(i)]
    {
      senders := senders[i := Stopped];
      Record(CaptureError(i));
    }

    /** All tasks are aborted at their awaits; whatever was under way is dropped. */
    method ShutDown()
      requires Valid() && Enabled(Abstract(), Shutdown)
      modifies this
      ensures Valid() && run == old(run) + [Shutdown]
    {
      up, queue, writing, senders := false, [], None, seq(|senders|, _ => Stopped);
      Record(Shutdown);
    }

    /** The monotonic clock has moved on. */
    method Advance(now: U64)
      requires Valid() && Enabled(Abstract(), Tick(now))
      modifies this
      ensures Valid() && run == old(run) + [Tick(now)]
    {
      clock := now;
      Record(Tick(now));
    }

    /** The counters worth logging, each under its name. */
    method LogCounters() returns (line: seq<(string, nat)>)
      requires Valid()
      ensures IsLog(line, u, Abstract(), 20)
      ensures forall c :: Expected(u, Abstract(), c) > 0 ==> (NameOf(c), Expected(u, Abstract(), c)) in line
    {
      hide Index, NameOf, CounterAt, Expected, After, Feasible, IsLog;
      ghost var s := Abstract();
      line := [];
      LogStart(u, s);
      for i := 0 to COUNTERS
        invariant IsLog(line, u, s, i)
      {
        CountersAreExact(u, run, CounterAt(i));
        NamesFit(CounterAt(i));
        LogStep(line, u, s, i);
        if counters[i] > 0 {
          line := line + [(COUNTER_NAMES[i], counters[i])];
        }
      }
      LogIsComplete(line, u, s);
    }

    /** What the logged counters promise about a daemon, whatever has happened to it. */
    method ReadCounter(c: Counter) returns (v: nat)
      requires Valid()
      ensures v == Expected(u, Abstract(), c)
    {
      CountersAreExact(u, run, c);
      v := counters[Index(c)];
    }
  }

  /** The counters of the first `n` slots that have counted something, in slot order. */
  ghost function Counting(u: Setup, s: State, n: nat): seq<Counter>
    requires n <= COUNTERS
  {
    if n == 0 then []
    else Counting(u, s, n - 1) + if Expected(u, s, CounterAt(n - 1)) > 0 then [CounterAt(n - 1)] else []
  }

  /** The line shows exactly those counters, each with its name and the number of its events. */
  ghost predicate IsLog(line: seq<(string, nat)>, u: Setup, s: State, n: nat)
    requires n <= COUNTERS
  {
    && |line| == |Counting(u, s, n)|
    && forall k :: 0 <= k < |line| ==> line[k] == (NameOf(Counting(u, s, n)[k]), Expected(u, s, Counting(u, s, n)[k]))
  }

  lemma LogStart(u: Setup, s: State)
    ensures IsLog([], u, s, 0)
  {
  }

  lemma LogStep(line: seq<(string, nat)>, u: Setup, s: State, n: nat)
    requires n < COUNTERS && IsLog(line, u, s, n)
    ensures var c := CounterAt(n);
            IsLog(if Expected(u, s, c) > 0 then line + [(NameOf(c), Expected(u, s, c))] else line, u, s, n + 1)
  {
    hide Expected, NameOf, CounterAt;
  }

  lemma {:induction false} CountingHasAll(u: Setup, s: State, n: nat, c: Counter)
    requires n <= COUNTERS && Index(c) < n && Expected(u, s, c) > 0
    ensures c in Counting(u, s, n)
  {
    hide Expected, CounterAt, Index;
    NamesFit(c);
    if Index(c) < n - 1 { CountingHasAll(u, s, n - 1, c); }
  }

  lemma LogIsComplete(line: seq<(string, nat)>, u: Setup, s: State)
    requires IsLog(line, u, s, COUNTERS)
    ensures forall c :: Expected(u, s, c) > 0 ==> (NameOf(c), Expected(u, s, c)) in line
  {
    hide Expected, NameOf, Counting;
    forall c | Expected(u, s, c) > 0 ensures (NameOf(c), Expected(u, s, c)) in line {
      CountingHasAll(u, s, COUNTERS, c);
      var k :| 0 <= k < |line| && Counting(u, s, COUNTERS)[k] == c;
      assert line[k] == (NameOf(c), Expected(u, s, c));
    }
  }

  /** Start up from the settings: validate, assemble the filter, and wire the tasks; or refuse. */
  method Start(s: Settings, os: Os) returns (d: Option<Daemon>)
    ensures d.Some? ==>
      && Valid(s) && Describes(s, os, d.value.u.filter) && d.value.u == SetupOf(s, d.value.u.filter)
      && fresh(d.value) && d.value.Valid() && d.value.run == []
    ensures d.None? ==> !Valid(s) || forall f :: !Describes(s, os, f)
  {
    var checked := Validate(s);
    if checked.Err? {
      return None;
    }
    var filter, queries := AssembleFilter(s, os);
    if filter.None? {
      return None;
    }
    var daemon := new Daemon(SetupOf(s, filter.value));
    return Some(daemon);
  }
}
