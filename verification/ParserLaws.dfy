/** Laws of the ingress gate over all frames: reasons, VLAN forms, the opaque tail, broadcast scope. */
module ParserLaws {
  import opened Proto
  import opened Wire
  import opened Verdict
  import opened Frames
  import opened Relay

  // ----- rejection reasons -----

  const CHECKS: nat := 10

  /** The ten checks in order; each is meaningful once its predecessors hold. */
  ghost predicate Check(k: nat, b: Bytes, v: VlanInfo, f: Filter) {
    var n := BodyOffset(v);
    if k == 0 then 14 <= |b| <= MAX_FRAME
    else if k == 1 then 14 <= |b| && VlanOk(b, v, f)
    else if k == 2 then 12 <= |b| && AddressesOk(b[..6], b[6..12], f)
    else n + RRB_HEADER_LEN <= |b| && HeaderCheck(k, b, n, f)
  }

  ghost predicate HeaderCheck(k: nat, b: Bytes, n: nat, f: Filter)
    requires 14 <= n && n + RRB_HEADER_LEN <= |b|
  {
    var end := n + RRB_HEADER_LEN + b[n + 18] as int + 256 * b[n + 19] as int;  // low octet first
    if k == 3 then true
    else if k == 4 then b[n..n + 5] == RRB_SELECTOR && KindOk(b[n + 5])
    else if k == 5 then SourceBssOk(b[6..12], b[n + 6..n + 12], f)
    else if k == 6 then DestinationBssOk(b[n + 12..n + 18], f)
    else end + SIV_LEN <= |b| && AuthCheck(k, b[n + 5], b[n + 12..n + 18], b[n + RRB_HEADER_LEN..end], f)
  }

  ghost predicate AuthCheck(k: nat, kind: Byte, dstBss: Mac, block: Bytes, f: Filter) {
    if k == 7 then true
    else if k == 8 then exists ts :: PrintsLegalTlvs(block, ts)
    else exists ts :: PrintsLegalTlvs(block, ts) && ScopeOk(kind, dstBss, R0khValue(ts), f)
  }

  function Reason(k: nat): Counter
    requires k < CHECKS
  {
    [Length, Counter.Vlan, EtherAddress, Length, OuiType, SourceBss, DestinationBss, AuthLength,
     Counter.Tlv, BroadcastScope][k]
  }

  ghost predicate FirstFailure(k: nat, b: Bytes, v: VlanInfo, f: Filter) {
    k < CHECKS && !Check(k, b, v, f) && forall j: nat :: j < k ==> Check(j, b, v, f)
  }

  /** A frame is accepted iff all ten checks hold; otherwise its counter is that of the first to fail. */
  lemma ReasonIsFirstFailure(b: Bytes, v: VlanInfo, f: Filter)
    ensures Judge(b, v, f).Ok? <==> forall k: nat :: k < CHECKS ==> Check(k, b, v, f)
    ensures forall k: nat :: FirstFailure(k, b, v, f) ==> Judge(b, v, f) == Err(Reason(k))
  {
    hide Check, Judge;
    forall k: nat | FirstFailure(k, b, v, f) ensures Judge(b, v, f) == Err(Reason(k)) {
      FailureAt(k, b, v, f);
    }
    if forall k: nat :: k < CHECKS ==> Check(k, b, v, f) {
      AllChecksAccept(b, v, f);
    } else {
      var k: nat :| k < CHECKS && !Check(k, b, v, f);
      LeastFailure(k, b, v, f);
    }
  }

  lemma AllChecksAccept(b: Bytes, v: VlanInfo, f: Filter)
    requires forall k: nat :: k < CHECKS ==> Check(k, b, v, f)
    ensures Judge(b, v, f).Ok?
  {
    hide LegalAuth, ScopeOk, SourceBssOk, DestinationBssOk, AddressesOk;
    assert Check(0, b, v, f) && Check(1, b, v, f) && Check(2, b, v, f) && Check(3, b, v, f);
    assert Check(4, b, v, f) && Check(5, b, v, f) && Check(6, b, v, f) && Check(7, b, v, f);
    assert Check(8, b, v, f) && Check(9, b, v, f);
    BodySlices(b, v);
    LateChecks(b, v, f);
  }

  lemma {:induction false} LeastFailure(k: nat, b: Bytes, v: VlanInfo, f: Filter)
    requires k < CHECKS && !Check(k, b, v, f)
    ensures exists j: nat :: FirstFailure(j, b, v, f)
  {
    if exists j: nat :: j < k && !Check(j, b, v, f) {
      var j: nat :| j < k && !Check(j, b, v, f);
      LeastFailure(j, b, v, f);
    } else {
      assert FirstFailure(k, b, v, f);
    }
  }

  /** A slice of a suffix is a slice of the whole. */
  lemma SliceOfSuffix(b: Bytes, n: nat, i: nat, j: nat)
    requires i <= j && n + j <= |b|
    ensures b[n..][i..j] == b[n + i..n + j]
  {
  }

  /** The body slices of the specification are the absolute offsets of the checks. */
  lemma BodySlices(b: Bytes, v: VlanInfo)
    requires BodyOffset(v) + RRB_HEADER_LEN <= |b|
    ensures var n, r := BodyOffset(v), b[BodyOffset(v)..];
            && Selector(r) == b[n..n + 5] && Kind(r) == b[n + 5]
            && SrcBss(r) == b[n + 6..n + 12] && DstBss(r) == b[n + 12..n + 18]
            && AuthEnd(r) == RRB_HEADER_LEN + Le16(b[n + 18], b[n + 19])
            && (AuthFits(r) ==> AuthBlock(r) == b[n + RRB_HEADER_LEN..n + AuthEnd(r)])
  {
    var n, r := BodyOffset(v), b[BodyOffset(v)..];
    SliceOfSuffix(b, n, 0, 5);
    SliceOfSuffix(b, n, 6, 12);
    SliceOfSuffix(b, n, 12, 18);
    if AuthFits(r) { SliceOfSuffix(b, n, RRB_HEADER_LEN, AuthEnd(r)); }
  }

  /** The last three checks, on a given auth block. */
  lemma AuthChecks(kind: Byte, dstBss: Mac, block: Bytes, f: Filter)
    ensures AuthCheck(7, kind, dstBss, block, f)
    ensures AuthCheck(8, kind, dstBss, block, f) <==> LegalAuth(block)
    ensures LegalAuth(block) ==>
      (AuthCheck(9, kind, dstBss, block, f) <==> ScopeOk(kind, dstBss, R0khValue(DecodeTlvs(block).value), f))
  {
    LegalAuthIsPrinted(block);
    if LegalAuth(block) {
      PrintDecode(block);
      assert PrintsLegalTlvs(block, DecodeTlvs(block).value);
    }
  }

  lemma LateChecks(b: Bytes, v: VlanInfo, f: Filter)
    requires BodyOffset(v) + RRB_HEADER_LEN <= |b|
    ensures var r := b[BodyOffset(v)..];
            && (Check(7, b, v, f) <==> AuthFits(r))
            && (AuthFits(r) ==> (Check(8, b, v, f) <==> LegalAuth(AuthBlock(r))))
            && (AuthFits(r) && LegalAuth(AuthBlock(r)) ==>
                 (Check(9, b, v, f) <==> ScopeOk(Kind(r), DstBss(r), R0khId(r), f)))
  {
    hide LegalAuth, DecodeTlvs, ScopeOk, R0khValue, AuthCheck;
    BodySlices(b, v);
    var r := b[BodyOffset(v)..];
    if AuthFits(r) {
      AuthChecks(Kind(r), DstBss(r), AuthBlock(r), f);
    }
  }

  lemma FailureAt(k: nat, b: Bytes, v: VlanInfo, f: Filter)
    requires FirstFailure(k, b, v, f)
    ensures Judge(b, v, f) == Err(Reason(k))
  {
    hide LegalAuth, ScopeOk, SourceBssOk, DestinationBssOk, AddressesOk;
    assert k > 0 ==> Check(0, b, v, f);
    assert k > 1 ==> Check(1, b, v, f);
    assert k > 2 ==> Check(2, b, v, f);
    assert k > 3 ==> Check(3, b, v, f);
    if k > 3 {
      BodySlices(b, v);
      LateChecks(b, v, f);
      assert k > 4 ==> Check(4, b, v, f);
      assert k > 5 ==> Check(5, b, v, f);
      assert k > 6 ==> Check(6, b, v, f);
      assert k > 7 ==> Check(7, b, v, f);
      assert k > 8 ==> Check(8, b, v, f);
    }
  }

  // ----- the two VLAN representations -----

  /** Same kind or same reason; only the body offset may differ. */
  predicate SameOutcome(r: Result<Match, Counter>, s: Result<Match, Counter>) {
    match (r, s)
    case (Ok(m), Ok(n)) => m.kind == n.kind
    case (Err(c), Err(d)) => c == d
    case _ => false
  }

  /** Lifting the inline tag into the metadata changes nothing for lengths 18..2048, and only there
      (and where both forms are oversized): below 18 the inline form lacks its tag, and from 2049 to
      2052 the four tag bytes alone decide. */
  lemma VlanFormsAgree(b: Bytes, v: VlanInfo, f: Filter)
    requires 16 <= |b| && Be16(b[12], b[13]) == TPID_8021Q && !v.present
    ensures var lifted := VlanInfo(true, TPID_8021Q, Be16(b[14], b[15]));
            SameOutcome(Judge(b, v, f), Judge(Untag(b, v), lifted, f)) <==>
            18 <= |b| <= MAX_FRAME || |b| > MAX_FRAME + VLAN_TAG_LEN
  {
    var u := Untag(b, v);
    assert u[..6] == b[..6] && u[6..12] == b[6..12];
    if 18 <= |b| {
      assert u[12] == b[16] && u[13] == b[17] && u[14..] == b[18..];
    }
  }

  /** A tagged frame of sixteen bytes: its tag is incomplete inline and its header is when lifted. */
  const STUB: Bytes := [0, 0, 0, 0, 0, 0, 0, 0, 0, 0, 0, 0, 0x81, 0, 0, 1]

  lemma ShortFormsDiffer(f: Filter)
    ensures Judge(STUB, NO_VLAN, f) == Err(Counter.Vlan)
    ensures Judge(Untag(STUB, NO_VLAN), VlanInfo(true, TPID_8021Q, 1), f) == Err(Length)
  {
  }

  /** An admitted frame within four bytes of the limit is too long once its tag is written inline. */
  lemma LongFormsDiffer(fr: Frame, f: Filter)
    requires fr.tag.Offloaded? && Admits(f, fr) && |Print(fr)| > MAX_FRAME - VLAN_TAG_LEN
    ensures var inline := Print(fr.(tag := Inline(fr.tag.tci)));
            && 16 <= |inline| && Untag(inline, NO_VLAN) == Print(fr)
            && Judge(inline, NO_VLAN, f) == Err(Length)
            && Judge(Print(fr), VlanInfo(true, TPID_8021Q, fr.tag.tci), f).Ok?
  {
    hide BodyVerdict, AdmitsFields, Print;
    PrintedIsAccepted(Print(fr), VlanInfo(true, TPID_8021Q, fr.tag.tci), fr, f);
    UntagPrint(fr);
  }

  /** Untagging the print of a tagged frame prints the frame with its tag lifted. */
  lemma UntagPrint(fr: Frame)
    requires fr.Printable() && fr.tag.Offloaded?
    ensures var inline := Print(fr.(tag := Inline(fr.tag.tci)));
            16 <= |inline| && Untag(inline, NO_VLAN) == Print(fr)
  {
    hide PrintBody;
    var tagged := fr.(tag := Inline(fr.tag.tci));
    var rest := BeBytes(ETH_P_RRB) + PrintBody(fr);
    SameBody(fr, tagged);
    assert Print(tagged) == (fr.dst + fr.src) + PrintTag(tagged.tag) + rest;
    assert Print(fr) == (fr.dst + fr.src) + rest;
  }

  lemma SameBody(fr: Frame, other: Frame)
    requires fr.Printable() && other == fr.(tag := other.tag)
    ensures other.Printable() && PrintBody(other) == PrintBody(fr)
  {
  }

  /** What leaves the relay is accepted again, with the same kind, under a management-VLAN tag. */
  lemma RelayedFrameIsAccepted(b: Bytes, v: VlanInfo, f: Filter)
    requires Judge(b, v, f).Ok?
    ensures v.present || 16 <= |b|
    ensures var u := Untag(b, v);
            && ETH_HEADER_LEN <= |u| && Be16(u[12], u[13]) == ETH_P_RRB
            && Judge(u, VlanInfo(true, TPID_8021Q, f.managementVlan), f)
               == Ok(Match(Judge(b, v, f).value.kind, ETH_HEADER_LEN))
  {
    hide BodyVerdict;
    UntagSlices(b, v);
    TciRange(f.managementVlan);
  }

  lemma TciRange(vlan: U16)
    ensures vlan < VID_RANGE ==> vlan % VID_RANGE == vlan
  {
  }

  /** Untagging keeps the addresses and moves everything behind the tag up. */
  lemma UntagSlices(b: Bytes, v: VlanInfo)
    requires BodyOffset(v) <= |b|
    ensures var u := Untag(b, v);
            && |u| == |b| + ETH_HEADER_LEN - BodyOffset(v)
            && u[..6] == b[..6] && u[6..12] == b[6..12] && u[ETH_HEADER_LEN..] == b[BodyOffset(v)..]
            && u[12] == b[BodyOffset(v) - 2] && u[13] == b[BodyOffset(v) - 1]
  {
    if !v.present {
      var u := Untag(b, v);
      assert u[..12] == b[..12] && u[12..] == b[16..];
      assert u[12] == b[16] && u[13] == b[17] && u[14..] == b[18..];
    }
  }

  // ----- the opaque tail -----

  /** End of the auth data, as an offset into the frame. */
  function AuthEndOf(b: Bytes, v: VlanInfo): nat
    requires BodyOffset(v) + RRB_HEADER_LEN <= |b|
  {
    BodyOffset(v) + AuthEnd(b[BodyOffset(v)..])
  }

  lemma TailDoesNotInterfere(b: Bytes, c: Bytes, v: VlanInfo, f: Filter)
    requires BodyOffset(v) + RRB_HEADER_LEN <= |b|
    requires AuthEndOf(b, v) + SIV_LEN <= |b| <= MAX_FRAME
    requires AuthEndOf(b, v) + SIV_LEN <= |c| <= MAX_FRAME
    requires b[..AuthEndOf(b, v)] == c[..AuthEndOf(b, v)]
    ensures Judge(b, v, f) == Judge(c, v, f)
  {
    var n, end := BodyOffset(v), AuthEndOf(b, v);
    var r, s := b[n..], c[n..];
    forall i | 0 <= i < end ensures b[i] == c[i] {
      assert b[i] == b[..end][i] && c[i] == c[..end][i];
    }
    assert b[..6] == c[..6] && b[6..12] == c[6..12];
    assert forall i :: 0 <= i < end - n ==> r[i] == b[n + i] && s[i] == c[n + i];
    assert r[..5] == s[..5] && r[6..12] == s[6..12];
    assert r[12..18] == s[12..18];
    assert AuthBlock(r) == AuthBlock(s);
  }

  /** Truncating an accepted frame is noticed exactly when it cuts into the first 16 tail bytes. */
  lemma TruncationIsNoticed(b: Bytes, v: VlanInfo, f: Filter, n: nat)
    requires Judge(b, v, f).Ok? && n <= |b|
    ensures BodyOffset(v) + RRB_HEADER_LEN <= |b|
    ensures Judge(b[..n], v, f).Ok? <==> AuthEndOf(b, v) + SIV_LEN <= n
    ensures Judge(b[..n], v, f).Ok? ==> Judge(b[..n], v, f) == Judge(b, v, f)
  {
    var end, c, o := AuthEndOf(b, v), b[..n], BodyOffset(v);
    if end + SIV_LEN <= n {
      TailDoesNotInterfere(b, c, v, f);
    } else if o + RRB_HEADER_LEN <= n {
      assert c[o..][18] == b[o..][18] && c[o..][19] == b[o..][19];
    }
  }

  // ----- broadcast scope -----

  /** For a frame that passes every earlier check, broadcast scope is the only question left, and
      it is answered by the frame's own R0KH element. */
  lemma BroadcastScopeExact(b: Bytes, v: VlanInfo, fr: Frame, f: Filter)
    requires Carries(b, v, fr) && fr.dstBss == BROADCAST
    requires forall k: nat :: k < 9 ==> Check(k, b, v, f)
    ensures Judge(b, v, f) == Ok(Match(fr.kind, fr.BodyStart())) || Judge(b, v, f) == Err(BroadcastScope)
    ensures Judge(b, v, f).Ok? <==>
            && fr.kind in {KIND_PULL, KIND_SEQ_REQUEST}
            && exists k :: 0 <= k < |fr.auth| && fr.auth[k].tag == TLV_R0KH
                 && 1 <= |fr.auth[k].value| <= MAX_R0KH && NamesLocal(fr.auth[k].value, f)
  {
    PrintedIsAccepted(b, v, fr, f);
    ScopeIsLast(b, v, fr, f);
    forall k | 0 <= k < |fr.auth| && fr.auth[k].tag == TLV_R0KH
      ensures R0khValue(fr.auth) == fr.auth[k].value
    {
      R0khValueUnique(fr.auth, k);
    }
    if R0khValue(fr.auth) != [] { R0khValuePresent(fr.auth); }
  }

  lemma ScopeIsLast(b: Bytes, v: VlanInfo, fr: Frame, f: Filter)
    requires Carries(b, v, fr)
    requires forall k: nat :: k < 9 ==> Check(k, b, v, f)
    ensures DistinctTags(fr.auth)
    ensures Judge(b, v, f).Ok? || Judge(b, v, f) == Err(BroadcastScope)
    ensures Judge(b, v, f).Ok? <==> ScopeOk(fr.kind, fr.dstBss, R0khValue(fr.auth), f)
  {
    hide Judge, Check, ScopeOk, R0khValue, LegalAuth, DecodeTlvs, PrintTlvs, Carries;
    NinePassed(b, v, f);
    assert Check(7, b, v, f) && Check(8, b, v, f);
    CarriedBody(b, v, fr);
    LateChecks(b, v, f);
    DecodePrint(fr.auth);
    LegalIsDistinct(PrintTlvs(fr.auth));
  }

  lemma NinePassed(b: Bytes, v: VlanInfo, f: Filter)
    requires forall k: nat :: k < 9 ==> Check(k, b, v, f)
    ensures if Check(9, b, v, f) then Judge(b, v, f).Ok? else Judge(b, v, f) == Err(BroadcastScope)
  {
    hide Judge, Check;
    ReasonIsFirstFailure(b, v, f);
    if !Check(9, b, v, f) { assert FirstFailure(9, b, v, f); }
  }

  lemma LegalIsDistinct(block: Bytes)
    requires LegalAuth(block)
    ensures DecodeTlvs(block).Some? && DistinctTags(DecodeTlvs(block).value)
  {
  }

  /** The body of a carried frame, read through the specification's slices. */
  lemma CarriedBody(b: Bytes, v: VlanInfo, fr: Frame)
    requires Carries(b, v, fr)
    ensures BodyOffset(v) + RRB_HEADER_LEN <= |b|
    ensures var r := b[BodyOffset(v)..];
            && Kind(r) == fr.kind && DstBss(r) == fr.dstBss
            && (AuthFits(r) ==> AuthBlock(r) == PrintTlvs(fr.auth))
  {
    PrintFields(fr);
    PrintBodyFields(fr);
  }
}
