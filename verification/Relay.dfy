/** Untagging, kind counters and the fixed-window rate limiter. */
module Relay {
  import opened Proto
  import opened Verdict

  /** Strip the management tag; a frame whose tag was offloaded is already bare. */
  function Untag(frame: Bytes, v: VlanInfo): (out: Bytes)
    requires v.present || ETH_TYPE_OFFSET + VLAN_TAG_LEN <= |frame|
  {
    if v.present then frame else frame[..ETH_TYPE_OFFSET] + frame[ETH_TYPE_OFFSET + VLAN_TAG_LEN..]
  }

  function KindCounter(kind: Byte): Counter {
    if kind == KIND_PULL then Pull
    else if kind == KIND_RESPONSE then Response
    else if kind == KIND_PUSH then Push
    else if kind == KIND_SEQ_REQUEST then SeqRequest
    else SeqResponse
  }

  // ----- the limiter -----

  const U64_MAX: U64 := 0xffff_ffff_ffff_ffff

  datatype LimiterState = LimiterState(window: U64, used: nat, perSecond: U32)

  function NewLimiter(perSecond: U32): LimiterState { LimiterState(U64_MAX, 0, perSecond) }

  /** One call: the state after it and whether the frame may pass. */
  function AdmitStep(l: LimiterState, now: U64): (LimiterState, bool) {
    var used := if l.window == now then l.used else 0;
    if used >= l.perSecond then (LimiterState(now, used, l.perSecond), false)
    else (LimiterState(now, used + 1, l.perSecond), true)
  }

  /** Fixed-window rate limiter over a counter of seconds. */
  class Limiter {
    var window: U64
    var used: U64
    const perSecond: U32

    ghost predicate Valid() reads this { used <= perSecond }

    ghost function State(): LimiterState reads this { LimiterState(window, used, perSecond) }

    constructor (perSecond: U32)
      ensures Valid() && State() == NewLimiter(perSecond)
    {
      window, used, this.perSecond := U64_MAX, 0, perSecond;
    }

    method Admit(now: U64) returns (r: Result<(), Counter>)
      requires Valid()
      modifies this
      ensures Valid() && (State(), r.Ok?) == AdmitStep(old(State()), now)
      ensures r.Err? ==> r.error == RateLimited
    {
      if window != now {
        window, used := now, 0;
      }
      if used >= perSecond {
        return Err(RateLimited);
      }
      used := used + 1;
      return Ok(());
    }
  }

  // ----- whole call sequences -----

  datatype Attempt = Attempt(second: U64, admitted: bool)

  function LimiterAfter(perSecond: U32, log: seq<Attempt>): LimiterState {
    if log == [] then NewLimiter(perSecond)
    else AdmitStep(LimiterAfter(perSecond, log[..|log| - 1]), log[|log| - 1].second).0
  }

  /** Every answer in the log is the one the limiter gave at that point. */
  predicate Produced(perSecond: U32, log: seq<Attempt>) {
    log == [] || (
      var front, last := log[..|log| - 1], log[|log| - 1];
      Produced(perSecond, front) && last.admitted == AdmitStep(LimiterAfter(perSecond, front), last.second).1)
  }

  lemma ProducedSnoc(perSecond: U32, log: seq<Attempt>, a: Attempt)
    requires Produced(perSecond, log) && a.admitted == AdmitStep(LimiterAfter(perSecond, log), a.second).1
    ensures Produced(perSecond, log + [a])
    ensures LimiterAfter(perSecond, log + [a]) == AdmitStep(LimiterAfter(perSecond, log), a.second).0
  {
    assert (log + [a])[..|log|] == log;
  }

  ghost predicate ClockForward(log: seq<Attempt>) {
    forall i, j :: 0 <= i < j < |log| ==> log[i].second <= log[j].second
  }

  /** Calls made in second `t`. */
  function Calls(log: seq<Attempt>, t: int): nat {
    if log == [] then 0
    else Calls(log[..|log| - 1], t) + if log[|log| - 1].second == t then 1 else 0
  }

  /** Calls admitted in the seconds `a <= t < b`. */
  function Admitted(log: seq<Attempt>, a: int, b: int): nat {
    if log == [] then 0
    else Admitted(log[..|log| - 1], a, b)
         + if log[|log| - 1].admitted && a <= log[|log| - 1].second < b then 1 else 0
  }

  function AdmittedAt(log: seq<Attempt>, t: int): nat { Admitted(log, t, t + 1) }

  lemma {:induction false} NoCallsYet(log: seq<Attempt>, t: int)
    requires forall i :: 0 <= i < |log| ==> log[i].second < t
    ensures Calls(log, t) == 0
  {
    if log != [] { NoCallsYet(log[..|log| - 1], t); }
  }

  /** The limiter is exact: each second admits the smaller of its calls and the budget. */
  lemma {:induction false} LimiterIsExact(perSecond: U32, log: seq<Attempt>, t: int)
    requires Produced(perSecond, log) && ClockForward(log)
    ensures AdmittedAt(log, t) == Min(Calls(log, t), perSecond)
    ensures var l := LimiterAfter(perSecond, log);
            && l.perSecond == perSecond && l.used == Min(Calls(log, l.window), perSecond)
            && (log != [] ==> l.window == log[|log| - 1].second)
  {
    if log != [] {
      var front, now := log[..|log| - 1], log[|log| - 1].second;
      LimiterIsExact(perSecond, front, t);
      if front == [] || front[|front| - 1].second != now {
        NoCallsYet(front, now);
      }
    }
  }

  lemma {:induction false} AdmittedSplits(log: seq<Attempt>, a: int, b: int)
    requires a < b
    ensures Admitted(log, a, b) == Admitted(log, a, b - 1) + Admitted(log, b - 1, b)
  {
    if log != [] { AdmittedSplits(log[..|log| - 1], a, b); }
  }

  lemma {:induction false} AdmittedEmpty(log: seq<Attempt>, a: int)
    ensures Admitted(log, a, a) == 0
  {
    if log != [] { AdmittedEmpty(log[..|log| - 1], a); }
  }

  /** Any `k` consecutive seconds together admit at most `k` budgets. */
  lemma {:induction false} WindowBudget(perSecond: U32, log: seq<Attempt>, a: int, k: nat)
    requires Produced(perSecond, log) && ClockForward(log)
    ensures Admitted(log, a, a + k) <= k * perSecond
  {
    if k == 0 {
      AdmittedEmpty(log, a);
    } else {
      WindowBudget(perSecond, log, a, k - 1);
      AdmittedSplits(log, a, a + k);
      LimiterIsExact(perSecond, log, a + k - 1);
      OneMore(k, perSecond);
    }
  }

  lemma OneMore(k: int, n: int)
    ensures k * n == (k - 1) * n + n
  {
  }

  /** A refusal happens only in a second whose budget has been handed out in full. */
  lemma RefusedOnlyWhenSpent(perSecond: U32, log: seq<Attempt>, i: nat)
    requires Produced(perSecond, log) && ClockForward(log) && i < |log| && !log[i].admitted
    ensures AdmittedAt(log[..i], log[i].second) == perSecond
  {
    ProducedPrefix(perSecond, log, i + 1);
    var front := log[..i + 1];
    assert front[..i] == log[..i];
    LimiterIsExact(perSecond, front, log[i].second);
    LimiterIsExact(perSecond, log[..i], log[i].second);
  }

  lemma {:induction false} ProducedPrefix(perSecond: U32, log: seq<Attempt>, n: nat)
    requires Produced(perSecond, log) && n <= |log|
    ensures Produced(perSecond, log[..n])
  {
    if n == |log| {
      assert log[..n] == log;
    } else {
      ProducedPrefix(perSecond, log[..|log| - 1], n);
      assert log[..|log| - 1][..n] == log[..n];
    }
  }

  lemma {:induction false} AdmittedAtMostCalls(log: seq<Attempt>, other: seq<Attempt>, t: int)
    requires |other| == |log| && forall i :: 0 <= i < |log| ==> other[i].second == log[i].second
    ensures AdmittedAt(other, t) <= Calls(log, t)
  {
    if log != [] { AdmittedAtMostCalls(log[..|log| - 1], other[..|log| - 1], t); }
  }

  /** No policy that respects the per-second budget admits more, over any stretch of seconds. */
  lemma {:induction false} NoPolicyAdmitsMore(
    perSecond: U32, log: seq<Attempt>, other: seq<Attempt>, a: int, k: nat)
    requires Produced(perSecond, log) && ClockForward(log)
    requires |other| == |log| && forall i :: 0 <= i < |log| ==> other[i].second == log[i].second
    requires forall t :: AdmittedAt(other, t) <= perSecond
    ensures Admitted(other, a, a + k) <= Admitted(log, a, a + k)
  {
    if k == 0 {
      AdmittedEmpty(other, a);
    } else {
      var t := a + k - 1;
      NoPolicyAdmitsMore(perSecond, log, other, a, k - 1);
      AdmittedSplits(log, a, a + k);
      AdmittedSplits(other, a, a + k);
      LimiterIsExact(perSecond, log, t);
      AdmittedAtMostCalls(log, other, t);
      assert AdmittedAt(other, t) <= perSecond;
    }
  }
}
