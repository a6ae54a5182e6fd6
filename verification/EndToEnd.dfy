/** From the configuration text to the TAP: what a run with an assembled filter relays. */
module EndToEnd {
  import opened Proto
  import opened Verdict
  import opened Wire
  import opened MacText
  import opened Frames
  import opened Relay
  import opened FilterLaws
  import opened Config
  import opened ConfigLaws
  import opened Pipeline
  import opened PipelineLaws

  /** The settings name this sender with this BSS, or leave senders open. */
  ghost predicate ConfiguredSender(s: Settings, os: Os, fr: Frame) {
    s.peers == [] || exists i, bssids ::
      && 0 <= i < |s.peers| && MacOf(s.peers[i].mac) == Some(fr.src)
      && ListedBssids(s.peers[i], os, bssids) && fr.srcBss in bssids
  }

  /** AP `i` is the recipient: addressed by its interface's BSSID, or named by its R0KH-ID in a
      broadcast request. */
  ghost predicate RecipientAp(s: Settings, os: Os, fr: Frame, i: int) {
    && 0 <= i < |s.aps| && SysfsMac(os, s.aps[i].iface).Some?
    && var bssid := SysfsMac(os, s.aps[i].iface).value;
       if fr.dstBss == BROADCAST then
         fr.kind in {KIND_PULL, KIND_SEQ_REQUEST} && TlvNamed(fr.auth, R0khOf(s.aps[i], bssid))
       else fr.dstBss == bssid
  }

  ghost predicate TlvNamed(auth: seq<TlvItem>, id: Bytes) {
    exists k :: 0 <= k < |auth| && auth[k].tag == TLV_R0KH && auth[k].value == id
  }

  lemma SenderIsConfigured(s: Settings, os: Os, f: Filter, fr: Frame)
    requires Valid(s) && Describes(s, os, f) && SenderAdmitted(f, fr.src, fr.srcBss)
    ensures ConfiguredSender(s, os, fr)
  {
    hide Describes, Valid, ListedBssids, MacOf;
    SomePeerView(s, os, f);
    if s.peers != [] {
      var p :| p in PeerViews(f) && p.mac == fr.src && (p.anyBss || fr.srcBss in p.bssids);
      var i, bssids := PeerOfView(s, os, f, p);
    }
  }

  lemma SomePeerView(s: Settings, os: Os, f: Filter)
    requires Valid(s) && Describes(s, os, f)
    ensures s.peers != [] ==> PeerViews(f) != {}
  {
    if s.peers != [] { assert ViewPeer(f.Peers()[0]) in PeerViews(f); }
  }

  /** The peer entry behind a peer, and the BSSIDs it stands for. */
  lemma PeerOfView(s: Settings, os: Os, f: Filter, p: PeerView) returns (i: nat, bssids: seq<Mac>)
    requires Valid(s) && Describes(s, os, f) && p in PeerViews(f)
    ensures i < |s.peers| && MacOf(s.peers[i].mac) == Some(p.mac) && ListedBssids(s.peers[i], os, bssids)
    ensures !p.anyBss && forall m :: m in p.bssids ==> m in bssids
  {
    hide MacOf, ListedBssids, PeerOf;
    i :| 0 <= i < |f.Peers()| && ViewPeer(f.Peers()[i]) == p;
    assert PeerYields(s, os, i, f.peerSlots[i]);
    bssids := f.Peers()[i].Bssids();
  }

  lemma RecipientIsConfigured(s: Settings, os: Os, f: Filter, fr: Frame)
    requires Valid(s) && Describes(s, os, f) && RecipientAdmitted(f, fr)
    ensures exists i :: RecipientAp(s, os, fr, i)
  {
    hide Describes, Valid, LocalViews, R0khOf, SysfsMac;
    if fr.dstBss == BROADCAST {
      var t, l :| t in fr.auth && l in LocalViews(f) && t.tag == 4 && l.r0kh == Some(t.value);
      var i := LocalOfView(s, os, f, l);
      var k :| 0 <= k < |fr.auth| && fr.auth[k] == t;
      assert TlvNamed(fr.auth, R0khOf(s.aps[i], l.bssid));
      assert RecipientAp(s, os, fr, i);
    } else {
      var l :| l in LocalViews(f) && l.bssid == fr.dstBss;
      var i := LocalOfView(s, os, f, l);
      assert RecipientAp(s, os, fr, i);
    }
  }

  /** The AP entry behind a local. */
  lemma LocalOfView(s: Settings, os: Os, f: Filter, l: LocalView) returns (i: nat)
    requires Valid(s) && Describes(s, os, f) && l in LocalViews(f)
    ensures i < |s.aps| && SysfsMac(os, s.aps[i].iface) == Some(l.bssid)
    ensures l.r0kh == Some(R0khOf(s.aps[i], l.bssid))
  {
    hide MacOf, HexOf, PeersDescribed;
    i :| 0 <= i < |f.Locals()| && ViewLocal(f.Locals()[i]) == l;
    assert ApYields(s, os, i, f.localSlots[i]);
    assert f.Locals()[i].Named(R0khOf(s.aps[i], l.bssid));
  }

  /** The Ethernet destination is the target bridge or everyone. */
  ghost predicate ForTarget(s: Settings, os: Os, fr: Frame) {
    fr.dst == BROADCAST || (s.target in os.addresses && MacOf(os.addresses[s.target]) == Some(fr.dst))
  }

  /** `x` is a frame, untagged, for the target, from a configured sender to a configured AP. */
  ghost predicate ConfiguredTraffic(s: Settings, os: Os, x: Bytes) {
    exists fr, i ::
      Carries(x, ManagementTag(s), fr) && ForTarget(s, os, fr) && ConfiguredSender(s, os, fr) && RecipientAp(s, os, fr, i)
  }

  function ManagementTag(s: Settings): VlanInfo { VlanInfo(true, TPID_8021Q, s.managementVlan) }

  lemma AcceptedIsConfiguredTraffic(s: Settings, os: Os, f: Filter, x: Bytes)
    requires Valid(s) && Describes(s, os, f) && Judge(x, ManagementTag(s), f).Ok?
    ensures ConfiguredTraffic(s, os, x)
  {
    hide Judge, Carries, SenderAdmitted, RecipientAdmitted, ForTarget, ConfiguredSender, RecipientAp, WellFormed, Describes, Valid;
    Reprints(x, ManagementTag(s), f);
    var fr := FrameOf(x, ManagementTag(s));
    WellFormedMacs(s, os, f);
    CarriedIsPrintable(x, ManagementTag(s), fr);
    AcceptanceInPlainTerms(x, ManagementTag(s), fr, f);
    TargetIsConfigured(s, os, f, fr);
    SenderIsConfigured(s, os, f, fr);
    RecipientIsConfigured(s, os, f, fr);
  }

  lemma TargetIsConfigured(s: Settings, os: Os, f: Filter, fr: Frame)
    requires Valid(s) && Describes(s, os, f) && (fr.dst == f.targetMac || fr.dst == BROADCAST)
    ensures ForTarget(s, os, fr)
  {
    hide MacOf, LocalsDescribed, PeersDescribed;
  }

  lemma WellFormedMacs(s: Settings, os: Os, f: Filter)
    requires Valid(s) && Describes(s, os, f)
    ensures DistinctMacs(f)
  {
    AssembledIsWellFormed(s, os, f);
  }

  lemma CarriedIsPrintable(x: Bytes, v: VlanInfo, fr: Frame)
    requires Carries(x, v, fr)
    ensures fr.Printable()
  {
  }

  /** In every run with an assembled filter, everything that reaches the TAP, or is being written to
      it, comes from a sender the settings allow and is for an access point they list. */
  lemma TapTrafficIsConfigured(s: Settings, os: Os, u: Setup, es: seq<Event>)
    requires Valid(s) && Describes(s, os, u.filter) && Feasible(u, es)
    ensures forall k :: 0 <= k < |After(u, es).consumed| ==> ConfiguredTraffic(s, os, After(u, es).consumed[k].frame)
    ensures After(u, es).writing.Some? ==> ConfiguredTraffic(s, os, After(u, es).writing.value.frame)
  {
    hide Judge, ConfiguredTraffic, Valid;
    TapSeesOnlyRelayableFrames(u, es);
    var t := After(u, es);
    forall k | 0 <= k < |t.consumed| ensures ConfiguredTraffic(s, os, t.consumed[k].frame) {
      AcceptedIsConfiguredTraffic(s, os, u.filter, t.consumed[k].frame);
    }
    if t.writing.Some? {
      AcceptedIsConfiguredTraffic(s, os, u.filter, t.writing.value.frame);
    }
  }

  /** What `run` makes of the settings: one capture task per source, the mode, the budget. */
  function SetupOf(s: Settings, f: Filter): Setup { Setup(f, s.mode, |s.sources|, s.packetsPerSecond) }

  /** Whatever happens, a daemon started from these settings writes at most `packets_per_second` frames
      in any second and k times as many in k seconds, and none at all when it only observes. */
  lemma SettingsBoundTheRelay(s: Settings, os: Os, f: Filter, es: seq<Event>, from: int, k: nat)
    requires Valid(s) && Describes(s, os, f) && Feasible(SetupOf(s, f), es)
    ensures Admitted(After(SetupOf(s, f), es).attempts, from, from + k) <= k * s.packetsPerSecond
    ensures AdmittedAt(After(SetupOf(s, f), es).attempts, from) <= s.packetsPerSecond
    ensures s.mode.Observe? ==> After(SetupOf(s, f), es).consumed == [] && After(SetupOf(s, f), es).writing.None?
    ensures |After(SetupOf(s, f), es).senders| == |s.sources|
  {
    hide After, Feasible, Valid, Describes, Admitted, Calls;
    RunStaysInBudget(SetupOf(s, f), es, from, k);
    if s.mode.Observe? { ObserveOnlyCounts(SetupOf(s, f), es); }
  }
}
