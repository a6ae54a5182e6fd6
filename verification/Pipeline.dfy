/** The capture and inject tasks as a step system: every run is an interleaving of atomic sections
    between two awaits on the single-threaded runtime. */
module Pipeline {
  import opened Proto
  import opened Verdict
  import opened Relay
  import opened Packet
  import opened Config

  const QUEUE_DEPTH: nat := 64

  /** What `run` fixes before it spawns its tasks. */
  datatype Setup = Setup(filter: Filter, mode: Mode, sources: nat, perSecond: U32)

  /** A frame as `recv` returned it. */
  datatype Capture = Capture(source: nat, bytes: Bytes, vlan: VlanInfo)

  /** An untagged frame on its way to the TAP; the source is bookkeeping the code never reads. */
  datatype Item = Item(source: nat, frame: Bytes)

  /** A capture task: waiting for a frame, inside `send().await`, or gone. */
  datatype Sender = Idle | Sending(frame: Bytes) | Stopped

  datatype State = State(
    counters: seq<nat>,
    senders: seq<Sender>,
    queue: seq<Item>,
    writing: Option<Item>,
    limiter: LimiterState,
    clock: U64,
    up: bool,
    // history
    received: seq<Capture>,
    consumed: seq<Item>,
    attempts: seq<Attempt>,
    writes: seq<bool>)

  datatype Event =
    | Receive(source: nat, wire: Bytes, vlan: VlanInfo)
    | Enqueue(source: nat)
    | CaptureError(source: nat)
    | Tick(now: U64)
    | Dequeue
    | Written(ok: bool)
    | Shutdown

  function Init(u: Setup): State {
    State(seq(COUNTERS, _ => 0), seq(u.sources, _ => Idle), [], None, NewLimiter(u.perSecond), 0, true, [], [], [], [])
  }

  predicate Enabled(s: State, e: Event) {
    s.up && match e
    case Receive(i, _, _) => i < |s.senders| && s.senders[i].Idle?
    case Enqueue(i) => i < |s.senders| && s.senders[i].Sending? && |s.queue| < QUEUE_DEPTH
    case CaptureError(i) => i < |s.senders| && s.senders[i].Idle?
    case Tick(now) => s.clock <= now
    case Dequeue => s.writing.None? && s.queue != []
    case Written(_) => s.writing.Some?
    case Shutdown => true
  }

  function Bump(counters: seq<nat>, c: Counter): (r: seq<nat>)
    requires |counters| == COUNTERS
    ensures |r| == COUNTERS
  {
    counters[Index(c) := counters[Index(c)] + 1]
  }

  ghost function Outcome(u: Setup, c: Capture): Result<Match, Counter> { Judge(c.bytes, c.vlan, u.filter) }

  /** The bytes an accepted capture sends towards the TAP. */
  ghost function Image(u: Setup, c: Capture): Bytes
    requires Outcome(u, c).Ok?
  {
    Untag(c.bytes, c.vlan)
  }

  /** The counters after one capture with outcome `o`. */
  function CountOutcome(mode: Mode, counters: seq<nat>, o: Result<Match, Counter>): (r: seq<nat>)
    requires |counters| == COUNTERS
    ensures |r| == COUNTERS
  {
    var seen := Bump(counters, Seen);
    match o
    case Err(reason) => Bump(seen, reason)
    case Ok(m) =>
      var counted := Bump(Bump(seen, Matched), KindCounter(m.kind));
      if mode.Forward? then counted else Bump(counted, Observed)
  }

  /** Receive, classify and count: no await separates them. */
  ghost function ApplyReceive(u: Setup, s: State, c: Capture): State
    requires |s.counters| == COUNTERS && c.source < |s.senders|
  {
    s.(received := s.received + [c],
       counters := CountOutcome(u.mode, s.counters, Outcome(u, c)),
       senders := if u.mode.Forward? && Outcome(u, c).Ok? then s.senders[c.source := Sending(Image(u, c))] else s.senders)
  }

  /** Take the oldest frame and ask the limiter; the TAP write that may follow is its own step. */
  ghost function ApplyDequeue(s: State): State
    requires |s.counters| == COUNTERS && s.queue != []
  {
    var (limiter, admitted) := AdmitStep(s.limiter, s.clock);
    s.(queue := s.queue[1..], limiter := limiter,
       consumed := s.consumed + [s.queue[0]], attempts := s.attempts + [Attempt(s.clock, admitted)],
       writing := if admitted then Some(s.queue[0]) else s.writing,
       counters := if admitted then s.counters else Bump(s.counters, RateLimited))
  }

  ghost function Apply(u: Setup, s: State, e: Event): (t: State)
    requires |s.counters| == COUNTERS && Enabled(s, e)
    ensures |t.counters| == COUNTERS
  {
    match e
    case Receive(i, wire, v) => ApplyReceive(u, s, Capture(i, Clip(wire), v))
    case Enqueue(i) =>
      s.(queue := s.queue + [Item(i, s.senders[i].frame)], senders := s.senders[i := Idle])
    case CaptureError(i) => s.(senders := s.senders[i := Stopped])
    case Tick(now) => s.(clock := now)
    case Dequeue => ApplyDequeue(s)
    case Written(ok) =>
      s.(writing := None, writes := s.writes + [ok],
         counters := Bump(s.counters, if ok then Injected else InjectError))
    case Shutdown =>
      s.(up := false, queue := [], writing := None, senders := seq(|s.senders|, _ => Stopped))
  }

  // ----- runs -----

  /** `es` is a run: each event was enabled in the state its predecessors led to. */
  ghost predicate Feasible(u: Setup, es: seq<Event>)
    decreases |es|, 0
  {
    es == [] || (
      var front := es[..|es| - 1];
      Feasible(u, front) && Enabled(After(u, front), es[|es| - 1]))
  }

  ghost function After(u: Setup, es: seq<Event>): (s: State)
    requires Feasible(u, es)
    ensures |s.counters| == COUNTERS && |s.senders| == u.sources && |s.consumed| == |s.attempts|
    decreases |es|, 1
  {
    if es == [] then Init(u) else Apply(u, After(u, es[..|es| - 1]), es[|es| - 1])
  }

  // ----- what the history says -----

  /** How often a capture with outcome `o` bumps counter `c`. */
  function Marks(mode: Mode, o: Result<Match, Counter>, c: Counter): nat {
    (if c == Seen then 1 else 0) +
    match o
    case Err(reason) => if c == reason then 1 else 0
    case Ok(m) =>
      (if c == Matched || c == KindCounter(m.kind) || (c == Observed && mode.Observe?) then 1 else 0)
  }

  ghost function ReceiveTally(u: Setup, caps: seq<Capture>, c: Counter): nat {
    if caps == [] then 0 else ReceiveTally(u, caps[..|caps| - 1], c) + Marks(u.mode, Outcome(u, caps[|caps| - 1]), c)
  }

  function CountAnswers(attempts: seq<Attempt>, admitted: bool): nat {
    if attempts == [] then 0
    else CountAnswers(attempts[..|attempts| - 1], admitted)
         + if attempts[|attempts| - 1].admitted == admitted then 1 else 0
  }

  function CountWrites(writes: seq<bool>, ok: bool): nat {
    if writes == [] then 0
    else CountWrites(writes[..|writes| - 1], ok) + if writes[|writes| - 1] == ok then 1 else 0
  }

  /** The value a counter must have, read off the history. */
  ghost function Expected(u: Setup, s: State, c: Counter): nat {
    ReceiveTally(u, s.received, c)
    + (if c == RateLimited then CountAnswers(s.attempts, false) else 0)
    + (if c == Injected then CountWrites(s.writes, true) else 0)
    + (if c == InjectError then CountWrites(s.writes, false) else 0)
  }

  /** The images of the accepted frames of source `i`, in order of reception. */
  ghost function Images(u: Setup, caps: seq<Capture>, i: nat): seq<Bytes> {
    if caps == [] then []
    else
      var last := caps[|caps| - 1];
      Images(u, caps[..|caps| - 1], i) + if last.source == i && Outcome(u, last).Ok? then [Image(u, last)] else []
  }

  /** The frames of source `i` among `items`. */
  function From(items: seq<Item>, i: nat): seq<Bytes> {
    if items == [] then []
    else
      var last := items[|items| - 1];
      From(items[..|items| - 1], i) + if last.source == i then [last.frame] else []
  }

  /** The frames of source `i` handed to the TAP: those the limiter admitted. */
  function Tapped(items: seq<Item>, attempts: seq<Attempt>, i: nat): seq<Bytes>
    requires |items| == |attempts|
  {
    if items == [] then []
    else
      var n := |items| - 1;
      Tapped(items[..n], attempts[..n], i) + if items[n].source == i && attempts[n].admitted then [items[n].frame] else []
  }

  function Pending(sender: Sender): seq<Bytes> { if sender.Sending? then [sender.frame] else [] }

  function SendingCount(senders: seq<Sender>): nat {
    if senders == [] then 0
    else SendingCount(senders[..|senders| - 1]) + |Pending(senders[|senders| - 1])|
  }

  function Inflight(s: State): nat { if s.writing.Some? then 1 else 0 }

  ghost function AcceptedCount(u: Setup, caps: seq<Capture>): nat { ReceiveTally(u, caps, Matched) }
}
