/** Settings validation and the assembly of the filter, fail-closed, for all answers of the OS. */
module Config {
  import opened Proto
  import opened MacText

  datatype Mode = Observe | Forward
  datatype ApEntry = ApEntry(iface: Text, r0khId: Option<Text>)
  datatype PeerEntry = PeerEntry(mac: Text, bssids: seq<Text>)
  datatype Settings = Settings(
    sources: seq<Text>, aps: seq<ApEntry>, peers: seq<PeerEntry>, target: Text,
    managementVlan: U16, mode: Mode, packetsPerSecond: U32, tap: Text)

  // ----- structural validation -----

  datatype ConfigError =
    | NoSources | ApCount | PeerCount | InvalidName(name: Text) | ListedTwice(name: Text) | VlanZero | NoBudget

  predicate NameChar(c: Byte) {
    48 <= c <= 57 || 65 <= c <= 90 || 97 <= c <= 122 || c in {46, 45, 95}  // alphanumeric . - _
  }

  predicate NameOk(n: Text) { 0 < |n| < 16 && forall i :: 0 <= i < |n| ==> NameChar(n[i]) }

  function Names(s: Settings): seq<Text> {
    s.sources + seq(|s.aps|, i requires 0 <= i < |s.aps| => s.aps[i].iface) + [s.target, s.tap]
  }

  /** The first `k` names are well-formed and pairwise distinct. */
  ghost predicate NamesOk(names: seq<Text>, k: nat)
    requires k <= |names|
  {
    && (forall i :: 0 <= i < k ==> NameOk(names[i]))
    && (forall i, j :: 0 <= i < j < k ==> names[i] != names[j])
  }

  predicate CountsOk(s: Settings) {
    s.sources != [] && 1 <= |s.aps| <= MAX_LOCALS && |s.peers| <= MAX_PEERS
  }

  ghost predicate Valid(s: Settings) {
    && CountsOk(s)
    && NamesOk(Names(s), |Names(s)|)
    && s.managementVlan > 0 && s.packetsPerSecond > 0
  }

  method Validate(s: Settings) returns (r: Result<(), ConfigError>)
    ensures r.Ok? <==> Valid(s)
    ensures r.Err? ==> match r.error
            case NoSources => s.sources == []
            case ApCount => s.sources != [] && !(1 <= |s.aps| <= MAX_LOCALS)
            case PeerCount => CountsOk(s.(peers := [])) && |s.peers| > MAX_PEERS
            case InvalidName(n) =>
              CountsOk(s) && exists k :: 0 <= k < |Names(s)| && NamesOk(Names(s), k) && Names(s)[k] == n && !NameOk(n)
            case ListedTwice(n) =>
              CountsOk(s) && exists k :: 0 <= k < |Names(s)| && NamesOk(Names(s), k) && NameOk(n) && n == Names(s)[k] && n in Names(s)[..k]
            case VlanZero => CountsOk(s) && NamesOk(Names(s), |Names(s)|) && s.managementVlan == 0
            case NoBudget => CountsOk(s) && NamesOk(Names(s), |Names(s)|) && s.managementVlan > 0 && s.packetsPerSecond == 0
  {
    if s.sources == [] {
      return Err(NoSources);
    }
    if !(1 <= |s.aps| <= MAX_LOCALS) {
      return Err(ApCount);
    }
    if |s.peers| > MAX_PEERS {
      return Err(PeerCount);
    }
    var names := Names(s);
    var seen: set<Text> := {};
    for k := 0 to |names|
      invariant NamesOk(names, k)
      invariant forall n :: n in seen <==> n in names[..k]
    {
      if !NameOk(names[k]) {
        return Err(InvalidName(names[k]));
      }
      if names[k] in seen {
        return Err(ListedTwice(names[k]));
      }
      seen := seen + {names[k]};
    }
    if s.managementVlan == 0 {
      return Err(VlanZero);
    }
    if s.packetsPerSecond == 0 {
      return Err(NoBudget);
    }
    return Ok(());
  }

  // ----- filter assembly -----

  /** The OS as the assembly sees it: interface addresses, and hostapd's answer to its nth query. */
  datatype Os = Os(addresses: map<Text, Text>, hostapd: nat -> Option<seq<Mac>>)

  ghost function SysfsMac(os: Os, name: Text): Option<Mac> {
    if name in os.addresses then MacOf(os.addresses[name]) else None
  }

  function R0khOf(ap: ApEntry, bssid: Mac): Text {
    match ap.r0khId case Some(id) => id case None => HexOf(bssid)
  }

  predicate R0khOk(id: Text) { 1 <= |id| <= MAX_R0KH && forall i :: 0 <= i < |id| ==> id[i] < 0x80 }

  function LocalOf(bssid: Mac, id: Text): (l: Local)
    requires 1 <= |id| <= MAX_R0KH
    ensures l.Named(id) && l.bssid == bssid
  {
    var l := Local(bssid, |id|, id + EmptyR0kh()[|id|..]);
    assert l.r0kh[..|id|] == id;
    l
  }

  /** AP `i` yields this local. */
  ghost predicate ApYields(s: Settings, os: Os, i: nat, l: Local)
    requires i < |s.aps|
  {
    && SysfsMac(os, s.aps[i].iface) == Some(l.bssid) && l.bssid != BROADCAST
    && R0khOk(R0khOf(s.aps[i], l.bssid)) && l == LocalOf(l.bssid, R0khOf(s.aps[i], l.bssid))
  }

  /** The BSSIDs a peer entry stands for: its own, or what hostapd answered the first query. */
  ghost predicate ListedBssids(p: PeerEntry, os: Os, bssids: seq<Mac>) {
    if p.bssids == [] then os.hostapd(0) == Some(bssids)
    else |bssids| == |p.bssids| && forall j :: 0 <= j < |bssids| ==> MacOf(p.bssids[j]) == Some(bssids[j])
  }

  ghost predicate Distinct<T>(xs: seq<T>) { forall i, j :: 0 <= i < j < |xs| ==> xs[i] != xs[j] }

  function PeerOf(mac: Mac, bssids: seq<Mac>): (p: Peer)
    requires |bssids| <= MAX_PEER_BSSIDS
    ensures p.mac == mac && p.Bssids() == bssids && p.bssidCount == |bssids|
  {
    var p := Peer(mac, |bssids|, bssids + EmptyBssids()[|bssids|..]);
    assert p.Bssids() == bssids;
    p
  }

  ghost predicate BssidsOk(bssids: seq<Mac>) {
    1 <= |bssids| <= MAX_PEER_BSSIDS && BROADCAST !in bssids && Distinct(bssids)
  }

  ghost predicate PeerYields(s: Settings, os: Os, i: nat, p: Peer)
    requires i < |s.peers|
  {
    && MacOf(s.peers[i].mac) == Some(p.mac) && p.mac != BROADCAST
    && BssidsOk(p.Bssids()) && ListedBssids(s.peers[i], os, p.Bssids())
    && p == PeerOf(p.mac, p.Bssids())
  }

  /** `f` is the filter that these settings and this OS describe, unused slots at their defaults. */
  ghost predicate Describes(s: Settings, os: Os, f: Filter)
    requires |s.aps| <= MAX_LOCALS && |s.peers| <= MAX_PEERS
  {
    && SysfsMac(os, s.target) == Some(f.targetMac) && f.managementVlan == s.managementVlan
    && f.localCount == |s.aps| && f.peerCount == |s.peers|
    && LocalsDescribed(s, os, f.localSlots, |s.aps|) && PeersDescribed(s, os, f.peerSlots, |s.peers|)
  }

  /** The first `n` slots come from the first `n` APs with distinct BSSIDs; the rest are untouched. */
  ghost predicate LocalsDescribed(s: Settings, os: Os, locals: LocalSlots, n: nat)
    requires n <= |s.aps| <= MAX_LOCALS
  {
    && (forall i :: 0 <= i < n ==> ApYields(s, os, i, locals[i]))
    && (forall i, j :: 0 <= i < j < n ==> locals[i].bssid != locals[j].bssid)
    && (forall i :: n <= i < MAX_LOCALS ==> locals[i] == EmptyLocals()[i])
  }

  ghost predicate PeersDescribed(s: Settings, os: Os, peers: PeerSlots, n: nat)
    requires n <= |s.peers| <= MAX_PEERS
  {
    && (forall i :: 0 <= i < n ==> PeerYields(s, os, i, peers[i]))
    && (forall i, j :: 0 <= i < j < n ==> peers[i].mac != peers[j].mac)
    && (forall i :: n <= i < MAX_PEERS ==> peers[i] == EmptyPeers()[i])
  }

  method ReadSysfsMac(os: Os, name: Text) returns (r: Option<Mac>)
    ensures r == SysfsMac(os, name)
  {
    if name !in os.addresses {
      return None;
    }
    r := ParseMac(os.addresses[name]);
  }

  /** Assemble the filter; hostapd is asked at most once, and only if some peer needs it. */
  method AssembleFilter(s: Settings, os: Os) returns (r: Option<Filter>, queries: nat)
    requires Valid(s)
    ensures r.Some? ==> Describes(s, os, r.value)
    ensures r.None? ==> forall f :: !Describes(s, os, f)
    ensures queries <= 1 && (queries == 1 ==> exists i :: 0 <= i < |s.peers| && s.peers[i].bssids == [])
  {
    queries := 0;
    var target := ReadSysfsMac(os, s.target);
    if target.None? {
      return None, queries;
    }
    var locals := AssembleLocals(s, os);
    if locals.None? {
      return None, queries;
    }
    var peers;
    peers, queries := AssemblePeers(s, os);
    if peers.None? {
      return None, queries;
    }
    r := Some(Filter(s.managementVlan, |s.peers|, |s.aps|, target.value, locals.value, peers.value));
  }

  method AssembleLocals(s: Settings, os: Os) returns (r: Option<LocalSlots>)
    requires Valid(s)
    ensures r.Some? ==> LocalsDescribed(s, os, r.value, |s.aps|)
    ensures r.None? ==> forall locals :: !LocalsDescribed(s, os, locals, |s.aps|)
  {
    var locals: LocalSlots := EmptyLocals();
    for i := 0 to |s.aps|
      invariant LocalsDescribed(s, os, locals, i)
    {
      var ap := s.aps[i];
      var bssid := ReadSysfsMac(os, ap.iface);
      if bssid.None? {
        BadApFails(s, os, i);
        return None;
      }
      var id := R0khOf(ap, bssid.value);
      if !R0khOk(id) || bssid.value == BROADCAST {
        BadApFails(s, os, i);
        return None;
      }
      if exists j :: 0 <= j < i && locals[j].bssid == bssid.value {
        ghost var j :| 0 <= j < i && locals[j].bssid == bssid.value;
        TwinLocalsFail(s, os, locals, i, j);
        return None;
      }
      locals := locals[i := LocalOf(bssid.value, id)];
    }
    return Some(locals);
  }

  lemma BadApFails(s: Settings, os: Os, i: nat)
    requires i < |s.aps| <= MAX_LOCALS && forall l :: !ApYields(s, os, i, l)
    ensures forall locals :: !LocalsDescribed(s, os, locals, |s.aps|)
  {
    forall locals: LocalSlots ensures !LocalsDescribed(s, os, locals, |s.aps|) {
      assert !ApYields(s, os, i, locals[i]);
    }
  }

  lemma TwinLocalsFail(s: Settings, os: Os, done: LocalSlots, i: nat, j: nat)
    requires j < i < |s.aps| <= MAX_LOCALS && LocalsDescribed(s, os, done, i)
    requires SysfsMac(os, s.aps[i].iface) == Some(done[j].bssid)
    ensures forall locals :: !LocalsDescribed(s, os, locals, |s.aps|)
  {
    assert ApYields(s, os, j, done[j]);
    forall locals: LocalSlots ensures !LocalsDescribed(s, os, locals, |s.aps|) {
      assert ApYields(s, os, i, locals[i]) && ApYields(s, os, j, locals[j]) ==> locals[i].bssid == locals[j].bssid;
    }
  }

  /** hostapd has been asked iff its answer is held. */
  ghost predicate Cached(os: Os, all: Option<seq<Mac>>, queries: nat) {
    queries == (if all.Some? then 1 else 0) && (all.Some? ==> all == os.hostapd(0))
  }

  /** The checked BSSID list of one peer entry, asking hostapd only on first need. */
  method ResolveBssids(p: PeerEntry, os: Os, all: Option<seq<Mac>>, queries: nat)
    returns (r: Option<seq<Mac>>, all': Option<seq<Mac>>, queries': nat)
    requires Cached(os, all, queries)
    ensures r.Some? ==> ListedBssids(p, os, r.value) && BssidsOk(r.value) && Cached(os, all', queries')
    ensures r.None? ==> forall bssids :: !(ListedBssids(p, os, bssids) && BssidsOk(bssids))
    ensures queries' <= 1 && (queries' != queries ==> p.bssids == [])
  {
    all', queries' := all, queries;
    if p.bssids == [] {
      if all'.None? {
        all', queries' := os.hostapd(queries'), queries' + 1;
        if all'.None? {
          return None, all', queries';
        }
      }
      r := all';
    } else {
      r := ParseMacs(p.bssids);
      if r.None? {
        return None, all', queries';
      }
    }
    BssidsAreListed(p, os, r.value);
    var fine := CheckBssids(r.value);
    if !fine {
      r := None;
    }
  }

  method AssemblePeers(s: Settings, os: Os) returns (r: Option<PeerSlots>, queries: nat)
    requires Valid(s)
    ensures r.Some? ==> PeersDescribed(s, os, r.value, |s.peers|)
    ensures r.None? ==> forall peers :: !PeersDescribed(s, os, peers, |s.peers|)
    ensures queries <= 1 && (queries == 1 ==> exists i :: 0 <= i < |s.peers| && s.peers[i].bssids == [])
  {
    hide MacOf, BssidsOk;
    queries := 0;
    var peers: PeerSlots := EmptyPeers();
    var all: Option<seq<Mac>> := None;  // hostapd's answer, once asked
    for i := 0 to |s.peers|
      invariant PeersDescribed(s, os, peers, i)
      invariant Cached(os, all, queries)
      invariant queries == 1 ==> exists k :: 0 <= k < |s.peers| && s.peers[k].bssids == []
    {
      var p := s.peers[i];
      var mac := ParseMac(p.mac);
      if mac.None? || mac.value == BROADCAST {
        BadPeerFails(s, os, i);
        return None, queries;
      }
      if exists j :: 0 <= j < i && peers[j].mac == mac.value {
        ghost var j :| 0 <= j < i && peers[j].mac == mac.value;
        TwinPeersFail(s, os, peers, i, j);
        return None, queries;
      }
      var bssids;
      bssids, all, queries := ResolveBssids(p, os, all, queries);
      if bssids.None? {
        BadPeerFails(s, os, i);
        return None, queries;
      }
      peers := peers[i := PeerOf(mac.value, bssids.value)];
    }
    return Some(peers), queries;
  }

  lemma BssidsAreListed(p: PeerEntry, os: Os, bssids: seq<Mac>)
    requires ListedBssids(p, os, bssids)
    ensures forall other :: ListedBssids(p, os, other) ==> other == bssids
  {
    forall other | ListedBssids(p, os, other) ensures other == bssids {
      if p.bssids != [] {
        assert forall j :: 0 <= j < |bssids| ==> Some(other[j]) == MacOf(p.bssids[j]) == Some(bssids[j]);
      }
    }
  }

  lemma BadPeerFails(s: Settings, os: Os, i: nat)
    requires i < |s.peers| <= MAX_PEERS && forall p :: !PeerYields(s, os, i, p)
    ensures forall peers :: !PeersDescribed(s, os, peers, |s.peers|)
  {
    forall peers: PeerSlots ensures !PeersDescribed(s, os, peers, |s.peers|) {
      assert !PeerYields(s, os, i, peers[i]);
    }
  }

  lemma TwinPeersFail(s: Settings, os: Os, done: PeerSlots, i: nat, j: nat)
    requires j < i < |s.peers| <= MAX_PEERS && PeersDescribed(s, os, done, i)
    requires MacOf(s.peers[i].mac) == Some(done[j].mac)
    ensures forall peers :: !PeersDescribed(s, os, peers, |s.peers|)
  {
    assert PeerYields(s, os, j, done[j]);
    forall peers: PeerSlots ensures !PeersDescribed(s, os, peers, |s.peers|) {
      assert PeerYields(s, os, i, peers[i]) && PeerYields(s, os, j, peers[j]) ==> peers[i].mac == peers[j].mac;
    }
  }

  method ParseMacs(texts: seq<Text>) returns (r: Option<seq<Mac>>)
    ensures r.Some? ==> |r.value| == |texts| && forall j :: 0 <= j < |texts| ==> MacOf(texts[j]) == Some(r.value[j])
    ensures r.None? ==> exists j :: 0 <= j < |texts| && MacOf(texts[j]).None?
  {
    var macs: seq<Mac> := [];
    for j := 0 to |texts|
      invariant |macs| == j && forall k :: 0 <= k < j ==> MacOf(texts[k]) == Some(macs[k])
    {
      var m := ParseMac(texts[j]);
      if m.None? {
        return None;
      }
      macs := macs + [m.value];
    }
    return Some(macs);
  }

  method CheckBssids(bssids: seq<Mac>) returns (fine: bool)
    ensures fine <==> BssidsOk(bssids)
  {
    if bssids == [] || |bssids| > MAX_PEER_BSSIDS {
      return false;
    }
    for j := 0 to |bssids|
      invariant BROADCAST !in bssids[..j] && Distinct(bssids[..j])
    {
      if bssids[j] == BROADCAST || bssids[j] in bssids[..j] {
        if bssids[j] != BROADCAST {
          ghost var k :| 0 <= k < j && bssids[k] == bssids[j];
        }
        return false;
      }
      assert bssids[..j + 1] == bssids[..j] + [bssids[j]];
    }
    assert bssids[..|bssids|] == bssids;
    return true;
  }
}
