/** Rejected frames, and with them the kernel prefilter, are invisible to the relay over whole runs. */
module PrefilterLaws {
  import opened Proto
  import opened Verdict
  import opened Packet
  import opened Pipeline
  import opened PipelineLaws

  /** The run without the events that `keep` leaves out. */
  ghost function Thinned(es: seq<Event>, keep: Event -> bool): seq<Event> {
    if es == [] then []
    else Thinned(es[..|es| - 1], keep) + if keep(es[|es| - 1]) then [es[|es| - 1]] else []
  }

  /** The reception of a frame that the gate refuses. */
  ghost predicate RejectedReceive(u: Setup, e: Event) {
    e.Receive? && Judge(Clip(e.wire), e.vlan, u.filter).Err?
  }

  /** A counter that tells something about relayed frames, not about noise on the segment. */
  predicate RelayCounter(c: Counter) { c != Seen && !IsRejection(c) }

  /** The two states differ only in what they know about rejected frames. */
  ghost predicate SameRelay(s: State, t: State) {
    && |s.counters| == |t.counters| == COUNTERS
    && t == s.(counters := t.counters, received := t.received)
    && forall c :: RelayCounter(c) ==> s.counters[Index(c)] == t.counters[Index(c)]
  }

  lemma RejectedChangesNothing(u: Setup, s: State, t: State, e: Event)
    requires SameRelay(s, t) && Enabled(s, e) && RejectedReceive(u, e)
    ensures SameRelay(Apply(u, s, e), t)
  {
    hide Judge;
    var cap := Capture(e.source, Clip(e.wire), e.vlan);
    RejectionsOnly(u, cap);
    forall c | RelayCounter(c) ensures Apply(u, s, e).counters[Index(c)] == t.counters[Index(c)] {
      CountOutcomeMarks(u.mode, s.counters, Outcome(u, cap), c);
    }
  }

  lemma ReceiveInStep(u: Setup, s: State, t: State, cap: Capture)
    requires SameRelay(s, t) && cap.source < |s.senders|
    ensures SameRelay(ApplyReceive(u, s, cap), ApplyReceive(u, t, cap))
  {
    hide Outcome, CountOutcome, Marks;
    RejectionsOnly(u, cap);
    forall c | RelayCounter(c)
      ensures ApplyReceive(u, s, cap).counters[Index(c)] == ApplyReceive(u, t, cap).counters[Index(c)]
    {
      CountOutcomeMarks(u.mode, s.counters, Outcome(u, cap), c);
      CountOutcomeMarks(u.mode, t.counters, Outcome(u, cap), c);
    }
  }

  lemma BumpsInStep(s: seq<nat>, t: seq<nat>, d: Counter)
    requires |s| == |t| == COUNTERS && forall c :: RelayCounter(c) ==> s[Index(c)] == t[Index(c)]
    ensures forall c :: RelayCounter(c) ==> Bump(s, d)[Index(c)] == Bump(t, d)[Index(c)]
  {
    forall c | RelayCounter(c) ensures Bump(s, d)[Index(c)] == Bump(t, d)[Index(c)] {
      BumpAt(s, d, c);
      BumpAt(t, d, c);
    }
  }

  lemma KeptInStep(u: Setup, s: State, t: State, e: Event)
    requires SameRelay(s, t) && Enabled(s, e)
    ensures Enabled(t, e) && SameRelay(Apply(u, s, e), Apply(u, t, e))
  {
    hide ApplyReceive;
    if e.Receive? {
      ReceiveInStep(u, s, t, Capture(e.source, Clip(e.wire), e.vlan));
    } else if e.Dequeue? {
      BumpsInStep(s.counters, t.counters, RateLimited);
    } else if e.Written? {
      BumpsInStep(s.counters, t.counters, if e.ok then Injected else InjectError);
    }
  }

  /** Leaving any rejected frames out of a run leaves a run that ends in the same relay state: no
      relayed frame, no decision and no relay counter depends on them. */
  lemma {:induction false} RejectedFramesAreInvisible(u: Setup, es: seq<Event>, keep: Event -> bool)
    requires Feasible(u, es)
    requires forall k :: 0 <= k < |es| ==> keep(es[k]) || RejectedReceive(u, es[k])
    ensures Feasible(u, Thinned(es, keep))
    ensures SameRelay(After(u, es), After(u, Thinned(es, keep)))
  {
    hide RejectedReceive, Apply, Enabled;
    if es == [] {
      assert SameRelay(Init(u), Init(u));
    } else {
      var front, e := es[..|es| - 1], es[|es| - 1];
      RejectedFramesAreInvisible(u, front, keep);
      var s, t := After(u, front), After(u, Thinned(front, keep));
      if keep(e) {
        KeptInStep(u, s, t, e);
        Snoc(Thinned(front, keep), e);
      } else {
        RejectedChangesNothing(u, s, t, e);
        assert Thinned(es, keep) == Thinned(front, keep);
      }
    }
  }

  /** What the socket filter lets happen. */
  predicate Kept(e: Event) { e.Receive? ==> Candidate(e.wire) }

  lemma DroppedIsRejected(u: Setup, e: Event)
    requires !Kept(e)
    ensures RejectedReceive(u, e)
  {
    hide Judge;
    if Judge(Clip(e.wire), e.vlan, u.filter).Ok? {
      PrefilterLosesNothing(e.wire, e.vlan, u.filter);
      SocketFilterKeepsCandidates(e.wire);
    }
  }

  /** In particular, attaching the socket filter changes nothing but the counts of rejected frames. */
  lemma PrefilterIsTransparent(u: Setup, es: seq<Event>)
    requires Feasible(u, es)
    ensures Feasible(u, Thinned(es, Kept))
    ensures SameRelay(After(u, es), After(u, Thinned(es, Kept)))
  {
    forall k | 0 <= k < |es| ensures Kept(es[k]) || RejectedReceive(u, es[k]) {
      if !Kept(es[k]) { DroppedIsRejected(u, es[k]); }
    }
    RejectedFramesAreInvisible(u, es, Kept);
  }
}
