/** How the verdict depends on the filter: sets not slots, monotonicity, ambiguity, emptiness. */
module FilterLaws {
  import opened Proto
  import opened Wire
  import opened Verdict
  import opened Frames

  // ----- the filter as sets -----

  datatype PeerView = PeerView(mac: Mac, anyBss: bool, bssids: set<Mac>)
  datatype LocalView = LocalView(bssid: Mac, r0kh: Option<Bytes>)

  function ViewPeer(p: Peer): PeerView {
    PeerView(p.mac, p.bssidCount == 0, set m | m in p.Bssids())
  }

  function ViewLocal(l: Local): LocalView {
    LocalView(l.bssid, if l.r0khLen <= MAX_R0KH then Some(l.r0kh[..l.r0khLen]) else None)
  }

  function PeerViews(f: Filter): set<PeerView> { set p | p in f.Peers() :: ViewPeer(p) }
  function LocalViews(f: Filter): set<LocalView> { set l | l in f.Locals() :: ViewLocal(l) }

  ghost predicate DistinctMacs(f: Filter) {
    forall i, j :: 0 <= i < j < |f.Peers()| ==> f.Peers()[i].mac != f.Peers()[j].mac
  }

  /** With distinct MACs the last-match scan is plain lookup. */
  lemma LastMatchIsLookup(f: Filter, src: Mac, i: nat)
    requires DistinctMacs(f) && i < |f.Peers()|
    ensures LastMatch(f.Peers(), src, i) <==> f.Peers()[i].mac == src
  {
  }

  lemma SenderKnownByView(f: Filter, src: Mac)
    ensures SenderKnown(src, f) <==> PeerViews(f) == {} || exists p :: p in PeerViews(f) && p.mac == src
    ensures f.peerCount == 0 <==> PeerViews(f) == {}
  {
    if f.peerCount > 0 { assert ViewPeer(f.Peers()[0]) in PeerViews(f); }
    forall i | 0 <= i < |f.Peers()| ensures ViewPeer(f.Peers()[i]) in PeerViews(f) {
      assert f.Peers()[i] in f.Peers();
    }
  }

  lemma SourceBssByView(f: Filter, src: Mac, bss: Mac)
    requires DistinctMacs(f)
    ensures SourceBssOk(src, bss, f) <==>
            forall p :: p in PeerViews(f) && p.mac == src ==> p.anyBss || bss in p.bssids
  {
    if SourceBssOk(src, bss, f) {
      forall p | p in PeerViews(f) && p.mac == src ensures p.anyBss || bss in p.bssids {
        var i :| 0 <= i < |f.Peers()| && ViewPeer(f.Peers()[i]) == p;
        assert LastMatch(f.Peers(), src, i);
      }
    } else {
      var i :| LastMatch(f.Peers(), src, i) && !(f.Peers()[i].bssidCount == 0 || bss in f.Peers()[i].Bssids());
      assert f.Peers()[i] in f.Peers();
      assert ViewPeer(f.Peers()[i]) in PeerViews(f);
    }
  }

  lemma LocalsByView(f: Filter, bss: Mac, id: Bytes)
    ensures LocalBss(bss, f) <==> exists l :: l in LocalViews(f) && l.bssid == bss
    ensures NamesLocal(id, f) <==> exists l :: l in LocalViews(f) && l.r0kh == Some(id)
  {
    forall i | 0 <= i < |f.Locals()| ensures ViewLocal(f.Locals()[i]) in LocalViews(f) {
      assert f.Locals()[i] in f.Locals();
    }
    if NamesLocal(id, f) {
      var i :| 0 <= i < |f.Locals()| && f.Locals()[i].Named(id);
      assert ViewLocal(f.Locals()[i]).r0kh == Some(id);
    }
    if l :| l in LocalViews(f) && l.r0kh == Some(id) {
      var i :| 0 <= i < |f.Locals()| && ViewLocal(f.Locals()[i]) == l;
      assert f.Locals()[i].Named(id);
    }
  }

  ghost predicate SameIdentity(f: Filter, g: Filter) {
    && f.managementVlan == g.managementVlan && f.targetMac == g.targetMac
    && PeerViews(f) == PeerViews(g) && LocalViews(f) == LocalViews(g)
  }

  /** The verdict reads the filter through four questions about the frame at hand. */
  ghost predicate SameAnswers(src: Mac, r: Bytes, f: Filter, g: Filter) {
    && SenderKnown(src, f) == SenderKnown(src, g)
    && (HeaderFits(r) ==>
         && SourceBssOk(src, SrcBss(r), f) == SourceBssOk(src, SrcBss(r), g)
         && LocalBss(DstBss(r), f) == LocalBss(DstBss(r), g)
         && (AuthFits(r) && LegalAuth(AuthBlock(r)) ==> NamesLocal(R0khId(r), f) == NamesLocal(R0khId(r), g)))
  }

  lemma SameAnswersSameVerdict(dst: Mac, src: Mac, r: Bytes, f: Filter, g: Filter)
    requires f.targetMac == g.targetMac && SameAnswers(src, r, f, g)
    ensures BodyVerdict(dst, src, r, f) == BodyVerdict(dst, src, r, g)
  {
  }

  lemma SetsAnswer(src: Mac, r: Bytes, f: Filter, g: Filter)
    requires DistinctMacs(f) && DistinctMacs(g) && SameIdentity(f, g)
    ensures SameAnswers(src, r, f, g)
  {
    SenderKnownByView(f, src);
    SenderKnownByView(g, src);
    if HeaderFits(r) {
      SourceBssByView(f, src, SrcBss(r));
      SourceBssByView(g, src, SrcBss(r));
      var id := if AuthFits(r) && LegalAuth(AuthBlock(r)) then R0khId(r) else [];
      LocalsByView(f, DstBss(r), id);
      LocalsByView(g, DstBss(r), id);
    }
  }

  /** Slot order, duplicate BSSIDs and slots beyond the counts never matter: the verdict, including
      its reason, is a function of the configured sets. */
  lemma VerdictDependsOnSets(b: Bytes, v: VlanInfo, f: Filter, g: Filter)
    requires DistinctMacs(f) && DistinctMacs(g) && SameIdentity(f, g)
    ensures Judge(b, v, f) == Judge(b, v, g)
  {
    hide BodyVerdict;
    if LengthOk(b) && VlanOk(b, v, f) {
      SetsAnswer(b[6..12], b[BodyOffset(v)..], f, g);
      SameAnswersSameVerdict(b[..6], b[6..12], b[BodyOffset(v)..], f, g);
    }
  }

  // ----- acceptance, without the parser's vocabulary -----

  ghost predicate SenderAdmitted(f: Filter, src: Mac, bss: Mac) {
    PeerViews(f) == {} || exists p :: p in PeerViews(f) && p.mac == src && (p.anyBss || bss in p.bssids)
  }

  ghost predicate RecipientAdmitted(f: Filter, fr: Frame) {
    if fr.dstBss == [255, 255, 255, 255, 255, 255] then
      && (fr.kind == 1 || fr.kind == 4)
      && exists t, l :: t in fr.auth && l in LocalViews(f) && t.tag == 4 && 1 <= |t.value| <= 48 && l.r0kh == Some(t.value)
    else exists l :: l in LocalViews(f) && l.bssid == fr.dstBss
  }

  /** A frame for us from a configured peer, said with the configured sets and plain numbers. */
  ghost predicate PlainlyAdmitted(f: Filter, fr: Frame)
    requires fr.Printable()
  {
    && |Print(fr)| <= 2048 && 16 <= |fr.tail| && |fr.auth| <= 16 && DistinctTags(fr.auth)
    && fr.tag.tci % 0x1000 == f.managementVlan
    && (fr.dst == f.targetMac || fr.dst == [255, 255, 255, 255, 255, 255])
    && 1 <= fr.kind <= 5
    && SenderAdmitted(f, fr.src, fr.srcBss)
    && RecipientAdmitted(f, fr)
  }

  lemma OneViewPerMac(f: Filter, p: PeerView, q: PeerView)
    requires DistinctMacs(f) && p in PeerViews(f) && q in PeerViews(f) && p.mac == q.mac
    ensures p == q
  {
    var j :| 0 <= j < |f.Peers()| && ViewPeer(f.Peers()[j]) == p;
    var k :| 0 <= k < |f.Peers()| && ViewPeer(f.Peers()[k]) == q;
  }

  lemma SenderInPlainTerms(f: Filter, src: Mac, bss: Mac)
    requires DistinctMacs(f)
    ensures SenderAdmitted(f, src, bss) <==> SenderKnown(src, f) && SourceBssOk(src, bss, f)
  {
    SenderKnownByView(f, src);
    SourceBssByView(f, src, bss);
    if p :| p in PeerViews(f) && p.mac == src {
      forall q | q in PeerViews(f) && q.mac == src ensures q == p { OneViewPerMac(f, p, q); }
    }
  }

  lemma RecipientInPlainTerms(f: Filter, fr: Frame)
    requires DistinctTags(fr.auth)
    ensures RecipientAdmitted(f, fr) <==>
            DestinationBssOk(fr.dstBss, f) && ScopeOk(fr.kind, fr.dstBss, R0khValue(fr.auth), f)
  {
    LocalsByView(f, fr.dstBss, R0khValue(fr.auth));
    if R0khValue(fr.auth) != [] { R0khValuePresent(fr.auth); }
    forall k | 0 <= k < |fr.auth| && fr.auth[k].tag == TLV_R0KH ensures R0khValue(fr.auth) == fr.auth[k].value {
      R0khValueUnique(fr.auth, k);
    }
  }

  /** The gate opens for exactly the frames that are plainly admitted. */
  lemma AcceptanceInPlainTerms(b: Bytes, v: VlanInfo, fr: Frame, f: Filter)
    requires DistinctMacs(f) && Carries(b, v, fr)
    ensures Judge(b, v, f).Ok? <==> PlainlyAdmitted(f, fr)
  {
    hide Judge, SenderKnown, SourceBssOk, DestinationBssOk, ScopeOk, SenderAdmitted, RecipientAdmitted, R0khValue, DistinctMacs;
    PrintedIsAccepted(b, v, fr, f);
    SenderInPlainTerms(f, fr.src, fr.srcBss);
    if DistinctTags(fr.auth) { RecipientInPlainTerms(f, fr); }
  }

  // ----- monotonicity -----

  /** `q` lets through at least what `p` lets through. */
  predicate PeerWidens(p: PeerView, q: PeerView) {
    q.mac == p.mac && (q.anyBss || (!p.anyBss && p.bssids <= q.bssids))
  }

  /** `g` is at least as permissive as `f`: an empty peer list is the most permissive of all. */
  ghost predicate Widens(f: Filter, g: Filter) {
    && f.managementVlan == g.managementVlan && f.targetMac == g.targetMac
    && LocalViews(f) <= LocalViews(g)
    && (g.peerCount == 0
        || (f.peerCount > 0
            && forall p :: p in PeerViews(f) ==> exists q :: q in PeerViews(g) && PeerWidens(p, q)))
  }

  /** Every frame `f` accepts, `g` accepts with the same result. */
  ghost predicate KeepsAcceptance(f: Filter, g: Filter) {
    forall b, v :: Judge(b, v, f).Ok? ==> Judge(b, v, g) == Judge(b, v, f)
  }

  ghost predicate Permits(f: Filter, src: Mac, bss: Mac) { SenderKnown(src, f) && SourceBssOk(src, bss, f) }

  /** Every sender `f` lets through, `g` lets through. */
  ghost predicate PermitsMore(f: Filter, g: Filter) {
    forall src, bss :: Permits(f, src, bss) ==> Permits(g, src, bss)
  }

  lemma AcceptanceFollows(b: Bytes, v: VlanInfo, f: Filter, g: Filter)
    requires f.managementVlan == g.managementVlan && f.targetMac == g.targetMac
    requires LocalViews(f) <= LocalViews(g) && PermitsMore(f, g) && Judge(b, v, f).Ok?
    ensures Judge(b, v, g) == Judge(b, v, f)
  {
    hide SenderKnown, SourceBssOk, LocalViews;
    var src: Mac, r := b[6..12], b[BodyOffset(v)..];
    assert Permits(f, src, SrcBss(r));
    assert Permits(g, src, SrcBss(r));
    LocalsByView(f, DstBss(r), R0khId(r));
    LocalsByView(g, DstBss(r), R0khId(r));
  }

  lemma MoreKeepsAcceptance(f: Filter, g: Filter)
    requires f.managementVlan == g.managementVlan && f.targetMac == g.targetMac
    requires LocalViews(f) <= LocalViews(g) && PermitsMore(f, g)
    ensures KeepsAcceptance(f, g)
  {
    forall b, v | Judge(b, v, f).Ok? ensures Judge(b, v, g) == Judge(b, v, f) { AcceptanceFollows(b, v, f, g); }
  }

  /** Acceptance is monotone in the configuration, and the result does not change. */
  lemma AcceptanceIsMonotone(f: Filter, g: Filter)
    requires DistinctMacs(g) && Widens(f, g)
    ensures KeepsAcceptance(f, g)
  {
    forall src, bss | Permits(f, src, bss) ensures Permits(g, src, bss) { WiderSender(f, g, src, bss); }
    MoreKeepsAcceptance(f, g);
  }

  lemma WiderSender(f: Filter, g: Filter, src: Mac, bss: Mac)
    requires DistinctMacs(g) && Widens(f, g)
    requires SenderKnown(src, f) && SourceBssOk(src, bss, f)
    ensures SenderKnown(src, g) && SourceBssOk(src, bss, g)
  {
    if g.peerCount > 0 {
      var i := LastIndex(f.Peers(), src);
      assert f.Peers()[i] in f.Peers();
      var p := ViewPeer(f.Peers()[i]);
      assert p in PeerViews(f);
      var q :| q in PeerViews(g) && PeerWidens(p, q);
      SenderKnownByView(g, src);
      SourceBssByView(g, src, bss);
      forall q' | q' in PeerViews(g) && q'.mac == src ensures q' == q { OneViewPerMac(g, q, q'); }
    }
  }

  lemma {:induction false} LastIndex(peers: seq<Peer>, src: Mac) returns (i: nat)
    requires exists k :: 0 <= k < |peers| && peers[k].mac == src
    ensures LastMatch(peers, src, i)
  {
    var n := |peers| - 1;
    if peers[n].mac == src {
      i := n;
    } else {
      var k :| 0 <= k < |peers| && peers[k].mac == src;
      assert peers[..n][k].mac == src;
      i := LastIndex(peers[..n], src);
      assert peers[..n][i] == peers[i];
      forall j | i < j < |peers| ensures peers[j].mac != src {
        if j < n { assert peers[..n][j].mac != src; }
      }
    }
  }

  function AddLocal(f: Filter, l: Local): Filter
    requires f.localCount < MAX_LOCALS
  {
    f.(localCount := f.localCount + 1, localSlots := f.localSlots[f.localCount := l])
  }

  function AddPeer(f: Filter, p: Peer): Filter
    requires f.peerCount < MAX_PEERS
  {
    f.(peerCount := f.peerCount + 1, peerSlots := f.peerSlots[f.peerCount := p])
  }

  function AddBssid(f: Filter, i: nat, m: Mac): Filter
    requires i < |f.Peers()| && f.peerSlots[i].bssidCount < MAX_PEER_BSSIDS
  {
    var p := f.peerSlots[i];
    f.(peerSlots := f.peerSlots[i := p.(bssidCount := p.bssidCount + 1, bssids := p.bssids[p.bssidCount := m])])
  }

  lemma AddLocalWidens(f: Filter, l: Local)
    requires f.localCount < MAX_LOCALS
    ensures Widens(f, AddLocal(f, l))
    ensures DistinctMacs(f) ==> DistinctMacs(AddLocal(f, l))
  {
    var g := AddLocal(f, l);
    assert g.Locals() == f.Locals() + [l] && g.Peers() == f.Peers();
    forall p | p in PeerViews(f) ensures PeerWidens(p, p) {}
  }

  ghost predicate FreshPeer(f: Filter, p: Peer) { forall q :: q in f.Peers() ==> q.mac != p.mac }

  lemma AddPeerWidens(f: Filter, p: Peer)
    requires f.peerCount < MAX_PEERS && (f.peerCount > 0 ==> FreshPeer(f, p))
    ensures if f.peerCount > 0 then Widens(f, AddPeer(f, p)) else Widens(AddPeer(f, p), f)
    ensures DistinctMacs(f) ==> DistinctMacs(AddPeer(f, p))
  {
    var g := AddPeer(f, p);
    assert g.Peers() == f.Peers() + [p];
    assert g.Locals() == f.Locals();
    forall q | q in PeerViews(f) ensures q in PeerViews(g) && PeerWidens(q, q) {}
  }

  lemma AddBssidWidens(f: Filter, i: nat, m: Mac)
    requires i < |f.Peers()| && 0 < f.peerSlots[i].bssidCount < MAX_PEER_BSSIDS
    ensures Widens(f, AddBssid(f, i, m))
    ensures DistinctMacs(f) ==> DistinctMacs(AddBssid(f, i, m))
  {
    var g := AddBssid(f, i, m);
    assert g.Peers()[i].Bssids() == f.Peers()[i].Bssids() + [m];
    assert g.Locals() == f.Locals();
    forall p | p in PeerViews(f) ensures exists q :: q in PeerViews(g) && PeerWidens(p, q) {
      var k :| 0 <= k < |f.Peers()| && ViewPeer(f.Peers()[k]) == p;
      assert g.Peers()[k] in g.Peers();
      assert ViewPeer(g.Peers()[k]) in PeerViews(g);
      assert PeerWidens(p, ViewPeer(g.Peers()[k]));
    }
  }

  // ----- acceptance after each kind of addition, with duplicate MACs or without -----

  lemma AddLocalKeepsAcceptance(f: Filter, l: Local)
    requires f.localCount < MAX_LOCALS
    ensures KeepsAcceptance(f, AddLocal(f, l))
  {
    AddLocalWidens(f, l);
    assert AddLocal(f, l).Peers() == f.Peers();
    forall src, bss | Permits(f, src, bss) ensures Permits(AddLocal(f, l), src, bss) {}
    MoreKeepsAcceptance(f, AddLocal(f, l));
  }

  lemma AddBssidKeepsAcceptance(f: Filter, i: nat, m: Mac)
    requires i < |f.Peers()| && 0 < f.peerSlots[i].bssidCount < MAX_PEER_BSSIDS
    ensures KeepsAcceptance(f, AddBssid(f, i, m))
  {
    AddBssidWidens(f, i, m);
    forall src, bss | Permits(f, src, bss) ensures Permits(AddBssid(f, i, m), src, bss) {
      BssidKeepsSender(f, i, m, src, bss);
    }
    MoreKeepsAcceptance(f, AddBssid(f, i, m));
  }

  lemma BssidKeepsSender(f: Filter, i: nat, m: Mac, src: Mac, bss: Mac)
    requires i < |f.Peers()| && 0 < f.peerSlots[i].bssidCount < MAX_PEER_BSSIDS && Permits(f, src, bss)
    ensures Permits(AddBssid(f, i, m), src, bss)
  {
    var g := AddBssid(f, i, m);
    assert forall k :: 0 <= k < |f.Peers()| ==> g.Peers()[k].mac == f.Peers()[k].mac;
    assert g.Peers()[i].Bssids() == f.Peers()[i].Bssids() + [m];
    forall k | LastMatch(g.Peers(), src, k)
      ensures g.Peers()[k].bssidCount == 0 || bss in g.Peers()[k].Bssids()
    {
      assert LastMatch(f.Peers(), src, k);
    }
  }

  /** The first peer ends the wildcard: it can only shut frames out. */
  lemma FirstPeerRestricts(f: Filter, p: Peer)
    requires f.peerCount == 0
    ensures KeepsAcceptance(AddPeer(f, p), f)
  {
    AddPeerWidens(f, p);
    AcceptanceIsMonotone(AddPeer(f, p), f);
  }

  /** The entry that answered for `p`'s MAC so far, if any, allows nothing that `p` does not. */
  ghost predicate Supersedes(f: Filter, p: Peer) {
    forall i :: LastMatch(f.Peers(), p.mac, i) ==>
      p.bssidCount == 0 || (f.Peers()[i].bssidCount > 0 && forall m :: m in f.Peers()[i].Bssids() ==> m in p.Bssids())
  }

  lemma LastMatchAfterAdd(f: Filter, p: Peer, src: Mac, i: int)
    requires 0 < f.peerCount < MAX_PEERS
    ensures LastMatch(AddPeer(f, p).Peers(), src, i) <==>
            if src == p.mac then i == f.peerCount else LastMatch(f.Peers(), src, i)
  {
    var n, after := |f.Peers()|, AddPeer(f, p).Peers();
    assert after == f.Peers() + [p] && after[n] == p;
    assert forall k :: 0 <= k < n ==> after[k] == f.Peers()[k];
  }

  lemma SupersedingPermits(f: Filter, p: Peer, src: Mac, bss: Mac)
    requires 0 < f.peerCount < MAX_PEERS && Supersedes(f, p) && Permits(f, src, bss)
    ensures Permits(AddPeer(f, p), src, bss)
  {
    var g := AddPeer(f, p);
    assert g.Peers() == f.Peers() + [p];
    var last := LastIndex(f.Peers(), src);
    assert g.Peers()[last].mac == src;
    forall i | LastMatch(g.Peers(), src, i) ensures g.Peers()[i].bssidCount == 0 || bss in g.Peers()[i].Bssids() {
      LastMatchAfterAdd(f, p, src, i);
    }
  }

  function NumberedMac(i: Byte): Mac { [0, 0, 0, 0, 0, i] }

  /** A short list misses one of the numbered addresses. */
  lemma {:induction false} ListMissesMac(ms: seq<Mac>, n: nat) returns (i: Byte)
    requires |ms| < n <= 0x100
    ensures i < n && NumberedMac(i) !in ms
  {
    i := n - 1;
    if NumberedMac(i) in ms {
      var k :| 0 <= k < |ms| && ms[k] == NumberedMac(i);
      i := ListMissesMac(ms[..k] + ms[k + 1..], n - 1);
      assert NumberedMac(i)[5] != NumberedMac(n - 1)[5];
    }
  }

  lemma NotSupersedingShutsOut(f: Filter, p: Peer) returns (src: Mac, bss: Mac)
    requires 0 < f.peerCount < MAX_PEERS && !Supersedes(f, p)
    ensures Permits(f, src, bss) && !Permits(AddPeer(f, p), src, bss)
  {
    src := p.mac;
    var i :| LastMatch(f.Peers(), p.mac, i) && p.bssidCount > 0 && (
      var q := f.Peers()[i]; q.bssidCount == 0 || exists m :: m in q.Bssids() && m !in p.Bssids());
    var q := f.Peers()[i];
    if q.bssidCount == 0 {
      var k := ListMissesMac(p.Bssids(), 9);
      bss := NumberedMac(k);
    } else {
      bss :| bss in q.Bssids() && bss !in p.Bssids();
    }
    LastMatchAfterAdd(f, p, src, f.peerCount);
    assert AddPeer(f, p).Peers()[f.peerCount] == p;
  }

  // ----- probing a filter with printed frames -----

  /** Some sender the filter lets through. */
  lemma SomeSender(f: Filter) returns (src: Mac, bss: Mac)
    ensures Permits(f, src, bss)
  {
    src, bss := ZERO_MAC, ZERO_MAC;
    if f.peerCount > 0 {
      var i := |f.Peers()| - 1;
      var p := f.Peers()[i];
      src := p.mac;
      if p.bssidCount > 0 {
        bss := p.Bssids()[0];
      }
      assert LastMatch(f.Peers(), src, i);
    }
  }

  function ZeroTail(): (b: Bytes) ensures |b| == SIV_LEN { seq(SIV_LEN, _ => 0) }

  /** A pull request on the management VLAN carrying at most one TLV. */
  function Probe(f: Filter, src: Mac, bss: Mac, dstBss: Mac, auth: seq<TlvItem>): Frame
    requires f.managementVlan < VID_RANGE
  {
    Frame(BROADCAST, src, Inline(f.managementVlan), KIND_PULL, bss, dstBss, auth, ZeroTail())
  }

  lemma ProbeIsAccepted(f: Filter, src: Mac, bss: Mac, dstBss: Mac, auth: seq<TlvItem>) returns (fr: Frame)
    requires f.managementVlan < VID_RANGE && Permits(f, src, bss)
    requires DestinationBssOk(dstBss, f) && ScopeOk(KIND_PULL, dstBss, R0khValue(auth), f)
    requires auth == [] || (|auth| == 1 && |auth[0].value| <= MAX_R0KH)
    ensures fr.Printable() && Carries(Print(fr), NO_VLAN, fr) && Admits(f, fr)
    ensures fr.src == src && fr.srcBss == bss && fr.dstBss == dstBss && fr.auth == auth
  {
    hide SenderKnown, SourceBssOk, DestinationBssOk, ScopeOk, R0khValue, PrintTlvs, Print, PrintBody;
    fr := Probe(f, src, bss, dstBss, auth);
    ShortAuth(auth);
  }

  lemma ShortAuth(auth: seq<TlvItem>)
    requires auth == [] || (|auth| == 1 && |auth[0].value| <= MAX_R0KH)
    ensures |PrintTlvs(auth)| <= TLV_HEADER_LEN + MAX_R0KH
  {
    if auth != [] { assert PrintTlvs(auth[1..]) == []; }
  }

  /** A pull naming local `l` by its R0KH-ID, or addressed to its BSSID. */
  lemma ReachableIsReached(f: Filter, l: Local, src: Mac, bss: Mac) returns (fr: Frame)
    requires f.managementVlan < VID_RANGE && l in f.Locals() && Reachable(l) && Permits(f, src, bss)
    ensures fr.Printable() && Carries(Print(fr), NO_VLAN, fr) && Judge(Print(fr), NO_VLAN, f).Ok?
    ensures fr.src == src && fr.srcBss == bss
  {
    var i :| 0 <= i < |f.Locals()| && f.Locals()[i] == l;
    if l.bssid != BROADCAST {
      fr := ProbeIsAccepted(f, src, bss, l.bssid, []);
    } else {
      fr := NamingProbe(f, src, bss, l.r0kh[..l.r0khLen], i);
    }
    PrintedIsAccepted(Print(fr), NO_VLAN, fr, f);
  }

  lemma NamingProbe(f: Filter, src: Mac, bss: Mac, id: Bytes, i: nat) returns (fr: Frame)
    requires f.managementVlan < VID_RANGE && 1 <= |id| <= MAX_R0KH && Permits(f, src, bss)
    requires i < |f.Locals()| && f.Locals()[i].Named(id)
    ensures fr.Printable() && Carries(Print(fr), NO_VLAN, fr) && Admits(f, fr)
    ensures fr.src == src && fr.srcBss == bss && fr.dstBss == BROADCAST && R0khValue(fr.auth) == id
  {
    var auth := [TlvItem(TLV_R0KH, id)];
    R0khValueUnique(auth, 0);
    fr := ProbeIsAccepted(f, src, bss, BROADCAST, auth);
  }

  /** A local that some frame can be addressed to. */
  predicate Reachable(l: Local) { l.bssid != BROADCAST || 1 <= l.r0khLen <= MAX_R0KH }

  lemma AcceptedReachesLocal(b: Bytes, v: VlanInfo, f: Filter)
    requires Judge(b, v, f).Ok?
    ensures f.managementVlan < VID_RANGE && exists l :: l in f.Locals() && Reachable(l)
  {
    var r := b[BodyOffset(v)..];
    var i :| 0 <= i < |f.Locals()| &&
      (if DstBss(r) == BROADCAST then f.Locals()[i].Named(R0khId(r)) else f.Locals()[i].bssid == DstBss(r));
    assert f.Locals()[i] in f.Locals();
  }

  /** Exactly which filters let anything through: the VID must fit its 12 bits (only `> 0` is
      validated) and some local must be reachable; with no locals the gate is closed. */
  lemma AcceptsSomething(f: Filter)
    ensures (exists b, v :: Judge(b, v, f).Ok?) <==>
            f.managementVlan < VID_RANGE && exists l :: l in f.Locals() && Reachable(l)
  {
    if b, v :| Judge(b, v, f).Ok? {
      AcceptedReachesLocal(b, v, f);
    }
    if f.managementVlan < VID_RANGE && exists l :: l in f.Locals() && Reachable(l) {
      var l :| l in f.Locals() && Reachable(l);
      var src, bss := SomeSender(f);
      var fr := ReachableIsReached(f, l, src, bss);
    }
  }

  /** Where anything is accepted at all, a sender that is shut out shows up as a rejected frame. */
  lemma ShutOutIsNoticed(f: Filter, g: Filter, src: Mac, bss: Mac)
    requires exists b, v :: Judge(b, v, f).Ok?
    requires Permits(f, src, bss) && !Permits(g, src, bss)
    ensures !KeepsAcceptance(f, g)
  {
    AcceptsSomething(f);
    var l :| l in f.Locals() && Reachable(l);
    var fr := ReachableIsReached(f, l, src, bss);
    PrintedIsAccepted(Print(fr), NO_VLAN, fr, g);
  }

  /** Adding a peer to a non-empty list loses no accepted frame exactly when it supersedes the entry
      its MAC resolved to before; a fresh MAC always does. (A filter that accepts nothing loses nothing.) */
  lemma AddPeerKeepsAcceptance(f: Filter, p: Peer)
    requires 0 < f.peerCount < MAX_PEERS
    ensures FreshPeer(f, p) ==> Supersedes(f, p)
    ensures Supersedes(f, p) ==> KeepsAcceptance(f, AddPeer(f, p))
    ensures (exists b, v :: Judge(b, v, f).Ok?) ==> (KeepsAcceptance(f, AddPeer(f, p)) <==> Supersedes(f, p))
  {
    var g := AddPeer(f, p);
    if Supersedes(f, p) {
      forall src, bss | Permits(f, src, bss) ensures Permits(g, src, bss) { SupersedingPermits(f, p, src, bss); }
      assert g.Locals() == f.Locals();
      MoreKeepsAcceptance(f, g);
    } else if exists b, v :: Judge(b, v, f).Ok? {
      var src, bss := NotSupersedingShutsOut(f, p);
      ShutOutIsNoticed(f, g, src, bss);
    }
  }

  /** One peer with no BSSID list, and a second entry for its MAC. */
  function OnePeerFilter(): Filter {
    Filter(1, 1, 1, ZERO_MAC,
           EmptyLocals()[0 := Local(NumberedMac(1), 0, EmptyR0kh())],
           EmptyPeers()[0 := Peer(NumberedMac(2), 0, EmptyBssids())])
  }

  function TwinPeer(): Peer { Peer(NumberedMac(2), 1, EmptyBssids()) }

  /** Freshness matters: a second entry for a configured MAC replaces the first and loses frames. */
  lemma TwinPeerLosesFrames()
    ensures !KeepsAcceptance(OnePeerFilter(), AddPeer(OnePeerFilter(), TwinPeer()))
  {
    var f := OnePeerFilter();
    assert f.Locals()[0] in f.Locals() && Reachable(f.Locals()[0]);
    AcceptsSomething(f);
    assert LastMatch(f.Peers(), NumberedMac(2), 0);
    AddPeerKeepsAcceptance(f, TwinPeer());
  }

  // ----- which local a broadcast names -----

  ghost predicate NamesExactlyOne(id: Bytes, f: Filter) {
    exists i :: 0 <= i < |f.Locals()| && f.Locals()[i].Named(id)
      && forall j :: 0 <= j < |f.Locals()| && f.Locals()[j].Named(id) ==> j == i
  }

  /** The R0KH-IDs a broadcast could name are pairwise distinct. */
  ghost predicate DistinctR0kh(f: Filter) {
    forall i, j, id :: 0 <= i < j < |f.Locals()| && 1 <= |id| <= MAX_R0KH
      ==> !(f.Locals()[i].Named(id) && f.Locals()[j].Named(id))
  }

  ghost predicate BroadcastUnambiguous(f: Filter) {
    forall b, v, fr :: Carries(b, v, fr) && Admits(f, fr) && fr.dstBss == BROADCAST
      ==> NamesExactlyOne(R0khValue(fr.auth), f)
  }

  /** Accepted broadcasts name exactly one local iff the usable R0KH-IDs are distinct; configuration
      checks no such thing. (With a VID above 12 bits nothing is accepted at all.) */
  lemma BroadcastNamesOneLocal(f: Filter)
    requires f.managementVlan < VID_RANGE
    ensures BroadcastUnambiguous(f) <==> DistinctR0kh(f)
  {
    if DistinctR0kh(f) {
      DistinctIsUnambiguous(f);
    } else {
      var i, j, id :| 0 <= i < j < |f.Locals()| && 1 <= |id| <= MAX_R0KH
        && f.Locals()[i].Named(id) && f.Locals()[j].Named(id);
      SharedR0khIsAmbiguous(f, i, j, id);
    }
  }

  lemma DistinctIsUnambiguous(f: Filter)
    requires DistinctR0kh(f)
    ensures BroadcastUnambiguous(f)
  {
    forall b, v, fr | Carries(b, v, fr) && Admits(f, fr) && fr.dstBss == BROADCAST
      ensures NamesExactlyOne(R0khValue(fr.auth), f)
    {
      DistinctNamesOne(R0khValue(fr.auth), f);
    }
  }

  lemma SharedR0khIsAmbiguous(f: Filter, i: nat, j: nat, id: Bytes)
    requires f.managementVlan < VID_RANGE && 1 <= |id| <= MAX_R0KH
    requires i < j < |f.Locals()| && f.Locals()[i].Named(id) && f.Locals()[j].Named(id)
    ensures !BroadcastUnambiguous(f)
  {
    var src, bss := SomeSender(f);
    var fr := NamingProbe(f, src, bss, id, i);
    var b := Print(fr);
    assert Carries(b, NO_VLAN, fr);
    assert !NamesExactlyOne(R0khValue(fr.auth), f);
  }

  lemma DistinctNamesOne(id: Bytes, f: Filter)
    requires DistinctR0kh(f) && 1 <= |id| <= MAX_R0KH && NamesLocal(id, f)
    ensures NamesExactlyOne(id, f)
  {
    var i :| 0 <= i < |f.Locals()| && f.Locals()[i].Named(id);
    assert forall j :: 0 <= j < |f.Locals()| && f.Locals()[j].Named(id) ==> j == i;
  }
}
