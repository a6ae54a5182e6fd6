/** What every assembled filter satisfies, and what the configuration's text can and cannot change. */
module ConfigLaws {
  import opened Proto
  import opened Verdict
  import opened MacText
  import opened FilterLaws
  import opened Config

  /** The shape under which the parser's scans have an unambiguous meaning. */
  ghost predicate WellFormed(f: Filter) {
    && 1 <= f.localCount <= MAX_LOCALS && f.peerCount <= MAX_PEERS
    && (forall i :: 0 <= i < |f.Locals()| ==>
          f.Locals()[i].bssid != BROADCAST && 1 <= f.Locals()[i].r0khLen <= MAX_R0KH)
    && (forall i, j :: 0 <= i < j < |f.Locals()| ==> f.Locals()[i].bssid != f.Locals()[j].bssid)
    && (forall i :: 0 <= i < |f.Peers()| ==> PeerWellFormed(f.Peers()[i]))
    && DistinctMacs(f)
  }

  /** No peer is left with an empty BSSID list, which the parser would read as "any BSS". */
  ghost predicate PeerWellFormed(p: Peer) {
    p.mac != BROADCAST && p.bssidCount == |p.Bssids()| && BssidsOk(p.Bssids())
  }

  lemma AssembledIsWellFormed(s: Settings, os: Os, f: Filter)
    requires Valid(s) && Describes(s, os, f)
    ensures WellFormed(f)
  {
    forall i | 0 <= i < |f.Locals()|
      ensures f.Locals()[i].bssid != BROADCAST && 1 <= f.Locals()[i].r0khLen <= MAX_R0KH
    {
      assert ApYields(s, os, i, f.localSlots[i]);
    }
    forall i | 0 <= i < |f.Peers()| ensures PeerWellFormed(f.Peers()[i]) {
      assert PeerYields(s, os, i, f.peerSlots[i]);
    }
  }

  // ----- validation and assembly in plain terms -----

  /** A name the kernel and the daemon accept: 1..15 octets out of 0-9, A-Z, a-z, '.', '-' and '_'. */
  predicate PlainName(n: Text) {
    && 1 <= |n| <= 15
    && forall i :: 0 <= i < |n| ==>
         '0' as int <= n[i] <= '9' as int || 'A' as int <= n[i] <= 'Z' as int || 'a' as int <= n[i] <= 'z' as int
         || n[i] == '.' as int || n[i] == '-' as int || n[i] == '_' as int
  }

  /** The interface names a configuration mentions: sources, access points, target and TAP, in order. */
  ghost predicate MentionedAt(s: Settings, k: nat, n: Text) {
    var a := |s.sources|;
    var b := a + |s.aps|;
    || (k < a && n == s.sources[k])
    || (a <= k < b && n == s.aps[k - a].iface)
    || (k == b && n == s.target)
    || (k == b + 1 && n == s.tap)
  }

  /** Exactly the valid settings, without the names the code uses for the pieces. */
  lemma ValidInPlainTerms(s: Settings)
    ensures Valid(s) <==>
      && 1 <= |s.sources| && 1 <= |s.aps| <= 8 && |s.peers| <= 8
      && (forall k: nat, n :: MentionedAt(s, k, n) ==> PlainName(n))
      && (forall j: nat, k: nat, n :: MentionedAt(s, j, n) && MentionedAt(s, k, n) ==> j == k)
      && 1 <= s.managementVlan && 1 <= s.packetsPerSecond
  {
    var names := Names(s);
    forall n ensures NameOk(n) <==> PlainName(n) { NamesAreLetters(n); }
    forall k: nat, n ensures MentionedAt(s, k, n) <==> k < |names| && n == names[k] { NamesInOrder(s, k, n); }
    if forall j: nat, k: nat, n :: MentionedAt(s, j, n) && MentionedAt(s, k, n) ==> j == k {
      forall i, j | 0 <= i < j < |names| ensures names[i] != names[j] {
        assert MentionedAt(s, i, names[i]) && MentionedAt(s, j, names[j]);
      }
    }
    if forall k: nat, n :: MentionedAt(s, k, n) ==> PlainName(n) {
      forall i | 0 <= i < |names| ensures NameOk(names[i]) { assert MentionedAt(s, i, names[i]); }
    }
  }

  lemma NamesAreLetters(n: Text)
    ensures NameOk(n) <==> PlainName(n)
  {
    forall i | 0 <= i < |n|
      ensures NameChar(n[i]) <==>
        '0' as int <= n[i] <= '9' as int || 'A' as int <= n[i] <= 'Z' as int || 'a' as int <= n[i] <= 'z' as int
        || n[i] == '.' as int || n[i] == '-' as int || n[i] == '_' as int
    {
    }
  }

  lemma NamesInOrder(s: Settings, k: nat, n: Text)
    ensures MentionedAt(s, k, n) <==> k < |Names(s)| && n == Names(s)[k]
  {
  }

  /** A local carries the interface's address and exactly the configured R0KH-ID, or the twelve hex
      digits of that address. */
  lemma AssembledLocalsInPlainTerms(s: Settings, os: Os, f: Filter, i: nat)
    requires Valid(s) && Describes(s, os, f) && i < |s.aps|
    ensures i < |f.Locals()| && s.aps[i].iface in os.addresses
    ensures MacOf(os.addresses[s.aps[i].iface]) == Some(f.Locals()[i].bssid)
    ensures f.Locals()[i].r0khLen <= 48
    ensures var id := f.Locals()[i].r0kh[..f.Locals()[i].r0khLen];
      match s.aps[i].r0khId
      case Some(configured) => id == configured
      case None => |id| == 12 && forall k :: 0 <= k < 6 ==>
        id[2 * k..2 * k + 2] == MacString(f.Locals()[i].bssid)[3 * k..3 * k + 2]
  {
    hide MacOf, MacString, HexOf, PeersDescribed;
    assert ApYields(s, os, i, f.localSlots[i]);
    var bssid := f.Locals()[i].bssid;
    assert f.Locals()[i].Named(R0khOf(s.aps[i], bssid));
    forall k | 0 <= k < 6 ensures HexOf(bssid)[2 * k..2 * k + 2] == MacString(bssid)[3 * k..3 * k + 2] {
      HexOfIsMacStringWithoutColons(bssid, k);
    }
  }

  /** Exactly when an AP entry yields a local: its interface has a readable address that is not
      broadcast, and a configured R0KH-ID is 1 to 48 ASCII octets. */
  lemma ApInPlainTerms(s: Settings, os: Os, i: nat)
    requires i < |s.aps|
    ensures ApUsable(s, os, i) <==>
      && s.aps[i].iface in os.addresses
      && MacOf(os.addresses[s.aps[i].iface]).Some?
      && MacOf(os.addresses[s.aps[i].iface]).value != [255, 255, 255, 255, 255, 255]
      && (s.aps[i].r0khId.Some? ==>
            1 <= |s.aps[i].r0khId.value| <= 48 && forall k :: 0 <= k < |s.aps[i].r0khId.value| ==> s.aps[i].r0khId.value[k] < 128)
  {
    hide MacOf, HexOf;
    var ap := s.aps[i];
    if ap.iface in os.addresses && MacOf(os.addresses[ap.iface]).Some? {
      var bssid := MacOf(os.addresses[ap.iface]).value;
      DefaultIdIsFine(bssid);
      var id := R0khOf(ap, bssid);
      if R0khOk(id) && bssid != BROADCAST { assert ApYields(s, os, i, LocalOf(bssid, id)); }
    }
  }

  lemma DefaultIdIsFine(m: Mac)
    ensures R0khOk(HexOf(m))
  {
  }

  /** Exactly when a peer entry yields a peer: a readable MAC that is not broadcast, and 1 to 8 distinct
      BSSIDs, none broadcast, its own or those hostapd answered with. */
  lemma PeerInPlainTerms(s: Settings, os: Os, i: nat)
    requires i < |s.peers|
    ensures PeerUsable(s, os, i) <==>
      && MacOf(s.peers[i].mac).Some? && MacOf(s.peers[i].mac).value != [255, 255, 255, 255, 255, 255]
      && exists ms :: PlainBssids(s.peers[i], os, ms)
  {
    hide MacOf;
    if p :| PeerYields(s, os, i, p) {
      assert PlainBssids(s.peers[i], os, p.Bssids());
    }
    if MacOf(s.peers[i].mac).Some? && MacOf(s.peers[i].mac).value != BROADCAST && exists ms :: PlainBssids(s.peers[i], os, ms) {
      var ms :| PlainBssids(s.peers[i], os, ms);
      assert PeerYields(s, os, i, PeerOf(MacOf(s.peers[i].mac).value, ms));
    }
  }

  ghost predicate PlainBssids(p: PeerEntry, os: Os, ms: seq<Mac>) {
    && (if p.bssids == [] then os.hostapd(0) == Some(ms)
        else |ms| == |p.bssids| && forall j :: 0 <= j < |ms| ==> MacOf(p.bssids[j]) == Some(ms[j]))
    && 1 <= |ms| <= 8
    && (forall j :: 0 <= j < |ms| ==> ms[j] != [255, 255, 255, 255, 255, 255])
    && (forall j, k :: 0 <= j < k < |ms| ==> ms[j] != ms[k])
  }

  ghost predicate ApUsable(s: Settings, os: Os, i: int) { 0 <= i < |s.aps| && exists l :: ApYields(s, os, i, l) }
  ghost predicate PeerUsable(s: Settings, os: Os, i: int) { 0 <= i < |s.peers| && exists p :: PeerYields(s, os, i, p) }

  /** The target has a readable address and every entry yields something, no address occurring twice. */
  ghost predicate Assemblable(s: Settings, os: Os) {
    && s.target in os.addresses && MacOf(os.addresses[s.target]).Some?
    && (forall i :: 0 <= i < |s.aps| ==> ApUsable(s, os, i))
    && (forall i :: 0 <= i < |s.peers| ==> PeerUsable(s, os, i))
    && (forall i, j :: 0 <= i < j < |s.aps| ==> SysfsMac(os, s.aps[i].iface) != SysfsMac(os, s.aps[j].iface))
    && (forall i, j :: 0 <= i < j < |s.peers| ==> MacOf(s.peers[i].mac) != MacOf(s.peers[j].mac))
  }

  lemma AssemblyInPlainTerms(s: Settings, os: Os)
    requires Valid(s)
    ensures (exists f :: Describes(s, os, f)) <==> Assemblable(s, os)
  {
    hide MacOf, ApYields, PeerYields;
    if f :| Describes(s, os, f) {
      SlotsDiffer(s, os, f);
      forall i | 0 <= i < |s.aps| ensures ApUsable(s, os, i) { assert ApYields(s, os, i, f.localSlots[i]); }
      forall i | 0 <= i < |s.peers| ensures PeerUsable(s, os, i) { assert PeerYields(s, os, i, f.peerSlots[i]); }
    }
    if Assemblable(s, os) {
      var locals := FillLocals(s, os, |s.aps|);
      var peers := FillPeers(s, os, |s.peers|);
      var f := Filter(s.managementVlan, |s.peers|, |s.aps|, MacOf(os.addresses[s.target]).value, locals, peers);
      assert Describes(s, os, f);
    }
  }

  lemma SlotsDiffer(s: Settings, os: Os, f: Filter)
    requires Valid(s) && Describes(s, os, f)
    ensures forall i :: 0 <= i < |s.aps| ==> ApYields(s, os, i, f.localSlots[i])
    ensures forall i :: 0 <= i < |s.peers| ==> PeerYields(s, os, i, f.peerSlots[i])
    ensures forall i, j :: 0 <= i < j < |s.aps| ==> SysfsMac(os, s.aps[i].iface) != SysfsMac(os, s.aps[j].iface)
    ensures forall i, j :: 0 <= i < j < |s.peers| ==> MacOf(s.peers[i].mac) != MacOf(s.peers[j].mac)
  {
    hide MacOf;
    forall i | 0 <= i < |s.aps| ensures SysfsMac(os, s.aps[i].iface) == Some(f.localSlots[i].bssid) {
      assert ApYields(s, os, i, f.localSlots[i]);
    }
    forall i | 0 <= i < |s.peers| ensures MacOf(s.peers[i].mac) == Some(f.peerSlots[i].mac) {
      assert PeerYields(s, os, i, f.peerSlots[i]);
    }
  }

  lemma {:induction false} FillLocals(s: Settings, os: Os, n: nat) returns (locals: LocalSlots)
    requires n <= |s.aps| <= MAX_LOCALS
    requires forall i :: 0 <= i < |s.aps| ==> ApUsable(s, os, i)
    requires forall i, j :: 0 <= i < j < |s.aps| ==> SysfsMac(os, s.aps[i].iface) != SysfsMac(os, s.aps[j].iface)
    ensures LocalsDescribed(s, os, locals, n)
  {
    hide SysfsMac, R0khOf, R0khOk, LocalOf;
    if n == 0 {
      locals := EmptyLocals();
    } else {
      var done := FillLocals(s, os, n - 1);
      assert ApUsable(s, os, n - 1);
      var l :| ApYields(s, os, n - 1, l);
      locals := done[n - 1 := l];
      forall i | 0 <= i < n - 1 ensures locals[i].bssid != l.bssid { assert ApYields(s, os, i, done[i]); }
    }
  }

  lemma {:induction false} FillPeers(s: Settings, os: Os, n: nat) returns (peers: PeerSlots)
    requires n <= |s.peers| <= MAX_PEERS
    requires forall i :: 0 <= i < |s.peers| ==> PeerUsable(s, os, i)
    requires forall i, j :: 0 <= i < j < |s.peers| ==> MacOf(s.peers[i].mac) != MacOf(s.peers[j].mac)
    ensures PeersDescribed(s, os, peers, n)
  {
    hide MacOf, BssidsOk, ListedBssids, PeerOf;
    if n == 0 {
      peers := EmptyPeers();
    } else {
      var done := FillPeers(s, os, n - 1);
      assert PeerUsable(s, os, n - 1);
      var p :| PeerYields(s, os, n - 1, p);
      peers := done[n - 1 := p];
      forall i | 0 <= i < n - 1 ensures peers[i].mac != p.mac { assert PeerYields(s, os, i, done[i]); }
    }
  }

  /** One AP entry gives one local, whatever settings it stands in. */
  lemma ApDetermines(s: Settings, t: Settings, os: Os, i: nat, k: nat, l: Local, m: Local)
    requires i < |s.aps| && k < |t.aps| && s.aps[i] == t.aps[k]
    requires ApYields(s, os, i, l) && ApYields(t, os, k, m)
    ensures l == m
  {
  }

  lemma PeerDetermines(s: Settings, t: Settings, os: Os, i: nat, k: nat, p: Peer, q: Peer)
    requires i < |s.peers| && k < |t.peers| && s.peers[i] == t.peers[k]
    requires PeerYields(s, os, i, p) && PeerYields(t, os, k, q)
    ensures p == q
  {
    BssidsAreListed(s.peers[i], os, p.Bssids());
  }

  /** The entries of `s` all occur in `t`, in any order. */
  ghost predicate EntriesWithin(s: Settings, t: Settings) {
    && (forall i :: 0 <= i < |s.aps| ==> s.aps[i] in t.aps)
    && (forall i :: 0 <= i < |s.peers| ==> s.peers[i] in t.peers)
  }

  lemma EntriesGiveLocalViews(s: Settings, t: Settings, os: Os, f: Filter, g: Filter)
    requires f.localCount == |s.aps| <= MAX_LOCALS && LocalsDescribed(s, os, f.localSlots, |s.aps|)
    requires g.localCount == |t.aps| <= MAX_LOCALS && LocalsDescribed(t, os, g.localSlots, |t.aps|)
    requires forall i :: 0 <= i < |s.aps| ==> s.aps[i] in t.aps
    ensures LocalViews(f) <= LocalViews(g)
  {
    forall v | v in LocalViews(f) ensures v in LocalViews(g) {
      var i :| 0 <= i < |f.Locals()| && ViewLocal(f.Locals()[i]) == v;
      LocalReappears(s, t, os, f, g, i);
    }
  }

  lemma LocalReappears(s: Settings, t: Settings, os: Os, f: Filter, g: Filter, i: nat)
    requires |s.aps| <= MAX_LOCALS && LocalsDescribed(s, os, f.localSlots, |s.aps|)
    requires g.localCount == |t.aps| <= MAX_LOCALS && LocalsDescribed(t, os, g.localSlots, |t.aps|)
    requires i < |s.aps| && s.aps[i] in t.aps
    ensures f.localSlots[i] in g.Locals()
  {
    hide ApYields, EmptyLocals;
    var k :| 0 <= k < |t.aps| && t.aps[k] == s.aps[i];
    ApDetermines(s, t, os, i, k, f.localSlots[i], g.localSlots[k]);
    assert g.Locals()[k] == f.localSlots[i];
  }

  lemma EntriesGivePeerViews(s: Settings, t: Settings, os: Os, f: Filter, g: Filter)
    requires f.peerCount == |s.peers| <= MAX_PEERS && PeersDescribed(s, os, f.peerSlots, |s.peers|)
    requires g.peerCount == |t.peers| <= MAX_PEERS && PeersDescribed(t, os, g.peerSlots, |t.peers|)
    requires forall i :: 0 <= i < |s.peers| ==> s.peers[i] in t.peers
    ensures PeerViews(f) <= PeerViews(g)
  {
    forall v | v in PeerViews(f) ensures v in PeerViews(g) {
      var i :| 0 <= i < |f.Peers()| && ViewPeer(f.Peers()[i]) == v;
      PeerReappears(s, t, os, f, g, i);
    }
  }

  lemma PeerReappears(s: Settings, t: Settings, os: Os, f: Filter, g: Filter, i: nat)
    requires |s.peers| <= MAX_PEERS && PeersDescribed(s, os, f.peerSlots, |s.peers|)
    requires g.peerCount == |t.peers| <= MAX_PEERS && PeersDescribed(t, os, g.peerSlots, |t.peers|)
    requires i < |s.peers| && s.peers[i] in t.peers
    ensures f.peerSlots[i] in g.Peers()
  {
    hide PeerYields, EmptyPeers;
    var k :| 0 <= k < |t.peers| && t.peers[k] == s.peers[i];
    PeerDetermines(s, t, os, i, k, f.peerSlots[i], g.peerSlots[k]);
    assert g.Peers()[k] == f.peerSlots[i];
  }

  /** Reordering the entries of a configuration never changes a verdict. */
  lemma EntryOrderIsIrrelevant(s: Settings, t: Settings, os: Os, f: Filter, g: Filter, b: Bytes, v: VlanInfo)
    requires Valid(s) && Valid(t) && Describes(s, os, f) && Describes(t, os, g)
    requires s.target == t.target && s.managementVlan == t.managementVlan
    requires EntriesWithin(s, t) && EntriesWithin(t, s)
    ensures Judge(b, v, f) == Judge(b, v, g)
  {
    EntriesGiveLocalViews(s, t, os, f, g);
    EntriesGiveLocalViews(t, s, os, g, f);
    EntriesGivePeerViews(s, t, os, f, g);
    EntriesGivePeerViews(t, s, os, g, f);
    AssembledIsWellFormed(s, os, f);
    AssembledIsWellFormed(t, os, g);
    VerdictDependsOnSets(b, v, f, g);
  }

  /** The R0KH-IDs the settings give the locals of `f`. */
  ghost predicate DistinctIds(s: Settings, f: Filter)
    requires |s.aps| == |f.Locals()|
  {
    forall i, j :: 0 <= i < j < |s.aps| ==>
      R0khOf(s.aps[i], f.Locals()[i].bssid) != R0khOf(s.aps[j], f.Locals()[j].bssid)
  }

  lemma IdsAreNames(s: Settings, os: Os, f: Filter)
    requires Valid(s) && Describes(s, os, f)
    ensures DistinctR0kh(f) <==> DistinctIds(s, f)
  {
    forall i, id | 0 <= i < |f.Locals()|
      ensures f.Locals()[i].Named(id) <==> id == R0khOf(s.aps[i], f.Locals()[i].bssid)
      ensures R0khOk(R0khOf(s.aps[i], f.Locals()[i].bssid))
    {
      assert ApYields(s, os, i, f.localSlots[i]);
    }
    if DistinctR0kh(f) {
      forall i, j | 0 <= i < j < |s.aps|
        ensures R0khOf(s.aps[i], f.Locals()[i].bssid) != R0khOf(s.aps[j], f.Locals()[j].bssid)
      {
        assert f.Locals()[i].Named(R0khOf(s.aps[i], f.Locals()[i].bssid));
      }
    }
  }

  /** An accepted broadcast names exactly one local iff no two APs share an R0KH-ID; validation
      does not look. Above the 12-bit VID range nothing is accepted and the question is void. */
  lemma ConfigNamesOneLocal(s: Settings, os: Os, f: Filter)
    requires Valid(s) && Describes(s, os, f)
    ensures DistinctIds(s, f) ==> BroadcastUnambiguous(f)
    ensures s.managementVlan < VID_RANGE ==> (BroadcastUnambiguous(f) <==> DistinctIds(s, f))
  {
    IdsAreNames(s, os, f);
    if DistinctIds(s, f) { DistinctIsUnambiguous(f); }
    if s.managementVlan < VID_RANGE { BroadcastNamesOneLocal(f); }
  }

  /** When every AP keeps the default ID, the BSSIDs' distinctness carries over to the IDs. */
  lemma DefaultIdsNameOneLocal(s: Settings, os: Os, f: Filter)
    requires Valid(s) && Describes(s, os, f)
    requires forall i :: 0 <= i < |s.aps| ==> s.aps[i].r0khId.None?
    ensures BroadcastUnambiguous(f)
  {
    hide HexOf, BroadcastUnambiguous;
    forall i, j | 0 <= i < j < |s.aps|
      ensures R0khOf(s.aps[i], f.Locals()[i].bssid) != R0khOf(s.aps[j], f.Locals()[j].bssid)
    {
      if HexOf(f.Locals()[i].bssid) == HexOf(f.Locals()[j].bssid) {
        HexOfIsInjective(f.Locals()[i].bssid, f.Locals()[j].bssid);
      }
    }
    ConfigNamesOneLocal(s, os, f);
  }

  /** A validated configuration relays something iff its VID fits in 12 bits; validation only
      demands that it is positive. */
  lemma ConfigRelaysSomething(s: Settings, os: Os, f: Filter)
    requires Valid(s) && Describes(s, os, f)
    ensures (exists b, v :: Judge(b, v, f).Ok?) <==> s.managementVlan < VID_RANGE
  {
    AssembledIsWellFormed(s, os, f);
    assert f.Locals()[0] in f.Locals() && Reachable(f.Locals()[0]);
    AcceptsSomething(f);
  }

  // ----- two validated configurations that fall short -----

  const BRIDGE: Text := [98]
  const AP_ONE: Text := [119]
  const AP_TWO: Text := [120]
  const MAC_ONE: Mac := [2, 0, 0, 0, 0, 1]
  const MAC_TWO: Mac := [2, 0, 0, 0, 0, 2]
  const SHARED_ID: Text := [97]

  /** Two APs, one R0KH-ID, any positive VID. */
  function TwoAps(vlan: U16): Settings {
    Settings([[101]], [ApEntry(AP_ONE, Some(SHARED_ID)), ApEntry(AP_TWO, Some(SHARED_ID))], [],
             BRIDGE, vlan, Forward, 20, [114])
  }

  function TwoApsOs(): Os {
    Os(map[BRIDGE := MacString(ZERO_MAC), AP_ONE := MacString(MAC_ONE), AP_TWO := MacString(MAC_TWO)], _ => None)
  }

  function TwoApsFilter(vlan: U16): Filter {
    Filter(vlan, 0, 2, ZERO_MAC,
           EmptyLocals()[0 := LocalOf(MAC_ONE, SHARED_ID)][1 := LocalOf(MAC_TWO, SHARED_ID)], EmptyPeers())
  }

  lemma TwoApsValid(vlan: U16)
    requires vlan > 0
    ensures Valid(TwoAps(vlan))
  {
    assert Names(TwoAps(vlan)) == [[101], AP_ONE, AP_TWO, BRIDGE, [114]];
  }

  lemma TwoApsAddresses()
    ensures SysfsMac(TwoApsOs(), BRIDGE) == Some(ZERO_MAC)
    ensures SysfsMac(TwoApsOs(), AP_ONE) == Some(MAC_ONE) && SysfsMac(TwoApsOs(), AP_TWO) == Some(MAC_TWO)
  {
    MacRoundTrip(ZERO_MAC);
    MacRoundTrip(MAC_ONE);
    MacRoundTrip(MAC_TWO);
  }

  lemma TwoApsAssemble(vlan: U16)
    requires vlan > 0
    ensures Valid(TwoAps(vlan)) && Describes(TwoAps(vlan), TwoApsOs(), TwoApsFilter(vlan))
  {
    TwoApsValid(vlan);
    TwoApsAddresses();
    var locals := TwoApsFilter(vlan).localSlots;
    assert locals[0] == LocalOf(MAC_ONE, SHARED_ID) && locals[1] == LocalOf(MAC_TWO, SHARED_ID);
  }

  /** A broadcast can name two locals at once, contrary to the parser's own comment. */
  lemma BroadcastCanNameTwoLocals()
    ensures Valid(TwoAps(1)) && Describes(TwoAps(1), TwoApsOs(), TwoApsFilter(1))
    ensures !BroadcastUnambiguous(TwoApsFilter(1))
  {
    TwoApsAssemble(1);
    SharedR0khIsAmbiguous(TwoApsFilter(1), 0, 1, SHARED_ID);
  }

  /** VID 4096 passes validation, whose message promises 1..4094, and the relay is deaf. */
  lemma ValidatedVlanCanBeDeaf(b: Bytes, v: VlanInfo)
    ensures Valid(TwoAps(4096)) && Describes(TwoAps(4096), TwoApsOs(), TwoApsFilter(4096))
    ensures Judge(b, v, TwoApsFilter(4096)).Err?
  {
    TwoApsAssemble(4096);
    ConfigRelaysSomething(TwoAps(4096), TwoApsOs(), TwoApsFilter(4096));
  }

  /** VID 4095, outside the promised range and reserved, passes validation too, and relays. */
  lemma ValidatedVlanCanBeReserved()
    ensures Valid(TwoAps(4095)) && Describes(TwoAps(4095), TwoApsOs(), TwoApsFilter(4095))
    ensures exists b, v :: Judge(b, v, TwoApsFilter(4095)).Ok?
  {
    TwoApsAssemble(4095);
    ConfigRelaysSomething(TwoAps(4095), TwoApsOs(), TwoApsFilter(4095));
  }
}
