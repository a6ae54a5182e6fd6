/** The bounded, allocation-free parser: the scans, the TLV walk and the deferred R0KH compare. */
module Parser {
  import opened Proto
  import opened Wire
  import opened Verdict

  /** Full ingress gate. The contract leaves no freedom: Ok or the reason of the rejection. */
  method Classify(b: Bytes, v: VlanInfo, f: Filter) returns (r: Result<Match, Counter>)
    ensures r == Judge(b, v, f)
  {
    if |b| < ETH_HEADER_LEN || |b| > MAX_FRAME {
      return Err(Length);
    }
    var two := Read(b, ETH_TYPE_OFFSET, 2);
    assert two.Some?;  // the length check has made this read safe
    var proto := Be16(two.value[0], two.value[1]);
    var body;
    if v.present {
      if v.proto != TPID_8021Q || v.tci % VID_RANGE != f.managementVlan || proto != ETH_P_RRB {
        return Err(Counter.Vlan);
      }
      body := ETH_HEADER_LEN;
    } else {
      var tag := Read(b, ETH_HEADER_LEN, 4);
      if tag.None? {
        return Err(Counter.Vlan);
      }
      var t := tag.value;
      if proto != TPID_8021Q || Be16(t[0], t[1]) % VID_RANGE != f.managementVlan || Be16(t[2], t[3]) != ETH_P_RRB {
        return Err(Counter.Vlan);
      }
      body := ETH_HEADER_LEN + VLAN_TAG_LEN;
    }
    r := ParseRrb(b, body, f);
  }

  /** What the frame holds from `offset` on; nothing when the offset lies beyond its end. */
  ghost function RestAt(b: Bytes, offset: nat): Bytes { if offset <= |b| then b[offset..] else [] }

  /** Validate the RRB body at `body` against the configured identity. */
  method ParseRrb(b: Bytes, body: nat, f: Filter) returns (r: Result<Match, Counter>)
    ensures |b| < 12 ==> r == Err(Length)
    ensures |b| >= 12 ==> match BodyVerdict(b[..6], b[6..12], RestAt(b, body), f)
            case Ok(kind) => r == Ok(Match(kind, body))
            case Err(c) => r == Err(c)
  {
    hide SourceBssOk, AuthVerdict, LocalBss;
    ghost var rest := RestAt(b, body);
    var first, second := Read(b, 0, 6), Read(b, 6, 6);
    if first.None? || second.None? {
      return Err(Length);
    }
    var dst: Mac, src: Mac := first.value, second.value;
    assert dst == b[..6] && src == b[6..12];
    if dst != f.targetMac && dst != BROADCAST {
      return Err(EtherAddress);
    }
    var peer := FindPeer(src, f);
    if f.peerCount > 0 && peer.None? {
      return Err(EtherAddress);
    }
    var read := Read(b, body, RRB_HEADER_LEN);
    if read.None? {
      return Err(Length);
    }
    var header := read.value;
    HeaderSlices(b, body);
    if header[..5] != RRB_SELECTOR || header[5] < KIND_PULL || header[5] > KIND_SEQ_RESPONSE {
      return Err(OuiType);
    }
    var srcBss: Mac, dstBss: Mac := header[6..12], header[12..18];
    var known := SourceBssKnown(peer, srcBss, f, src);
    if !known {
      return Err(SourceBss);
    }
    var broadcast := dstBss == BROADCAST;
    if !broadcast {
      var found := LocalListed(dstBss, f);
      if !found {
        return Err(DestinationBss);
      }
    }
    r := ParseAuth(b, body, header, broadcast, f);
  }

  /** The fields of the header that was read are those of the body. */
  lemma HeaderSlices(b: Bytes, body: nat)
    requires body + RRB_HEADER_LEN <= |b|
    ensures var h, r := b[body..body + RRB_HEADER_LEN], b[body..];
            && h[..5] == Selector(r) && h[5] == Kind(r) && h[6..12] == SrcBss(r) && h[12..18] == DstBss(r)
            && AuthEnd(r) == RRB_HEADER_LEN + Le16(h[18], h[19])
  {
    var h, r := b[body..body + RRB_HEADER_LEN], b[body..];
    assert r[..RRB_HEADER_LEN] == h;
    assert h[..5] == r[..5] && h[6..12] == r[6..12] && h[12..18] == r[12..18];
  }

  /** The second half of the body check: auth length, TLV walk, then the deferred R0KH compare. */
  method ParseAuth(b: Bytes, body: nat, header: Bytes, broadcast: bool, f: Filter)
    returns (r: Result<Match, Counter>)
    requires body + RRB_HEADER_LEN <= |b| && header == b[body..body + RRB_HEADER_LEN]
    requires broadcast <==> DstBss(b[body..]) == BROADCAST
    ensures match AuthVerdict(b[body..], f)
            case Ok(kind) => r == Ok(Match(kind, body))
            case Err(c) => r == Err(c)
  {
    hide LegalAuth, DecodeTlvs, NamesLocal, R0khValue, Located;
    ghost var rest := b[body..];
    HeaderSlices(b, body);
    var end := body + RRB_HEADER_LEN + Le16(header[18], header[19]);
    if end + SIV_LEN > |b| {
      return Err(AuthLength);
    }
    assert b[body + RRB_HEADER_LEN..end] == AuthBlock(rest);
    var walk := WalkTlvs(b, body + RRB_HEADER_LEN, end);
    if walk.Err? {
      return Err(walk.error);
    }
    if broadcast {
      var (position, size) := walk.value;
      if (header[5] != KIND_PULL && header[5] != KIND_SEQ_REQUEST) || size == 0 || size > MAX_R0KH {
        return Err(BroadcastScope);
      }
      var found := R0khListed(b, position, size, f);
      if !found {
        return Err(BroadcastScope);
      }
    }
    return Ok(Match(header[5], body));
  }

  /** The last configured peer with this MAC. */
  method FindPeer(src: Mac, f: Filter) returns (peer: Option<nat>)
    ensures peer.Some? ==> LastMatch(f.Peers(), src, peer.value)
    ensures peer.None? ==> forall j :: 0 <= j < |f.Peers()| ==> f.Peers()[j].mac != src
  {
    peer := None;
    for i := 0 to MAX_PEERS
      invariant peer.Some? ==> peer.value < i && peer.value < |f.Peers()| && f.Peers()[peer.value].mac == src
      invariant forall j :: (if peer.Some? then peer.value + 1 else 0) <= j < i && j < |f.Peers()| ==> f.Peers()[j].mac != src
    {
      if i < f.peerCount && f.peerSlots[i].mac == src {
        peer := Some(i);
      }
    }
  }

  /** The claimed source BSS is one of the matched peer's; an empty list is a wildcard. */
  method SourceBssKnown(peer: Option<nat>, bss: Mac, f: Filter, ghost src: Mac) returns (known: bool)
    requires peer.Some? ==> LastMatch(f.Peers(), src, peer.value)
    requires peer.None? ==> forall j :: 0 <= j < |f.Peers()| ==> f.Peers()[j].mac != src
    ensures known <==> SourceBssOk(src, bss, f)
  {
    if peer.None? {
      return true;
    }
    var p := f.peerSlots[peer.value];
    assert p == f.Peers()[peer.value];
    assert forall i :: LastMatch(f.Peers(), src, i) ==> i == peer.value;
    if p.bssidCount == 0 {
      return true;
    }
    known := false;
    for j := 0 to MAX_PEER_BSSIDS
      invariant known <==> exists k :: 0 <= k < j && k < |p.Bssids()| && p.Bssids()[k] == bss
    {
      if j < p.bssidCount && p.bssids[j] == bss {
        assert p.Bssids()[j] == bss;
        known := true;
      }
    }
  }

  method LocalListed(bss: Mac, f: Filter) returns (found: bool)
    ensures found <==> LocalBss(bss, f)
  {
    found := false;
    for i := 0 to MAX_LOCALS
      invariant found <==> exists k :: 0 <= k < i && k < |f.Locals()| && f.Locals()[k].bssid == bss
    {
      if i < f.localCount && f.localSlots[i].bssid == bss {
        assert f.Locals()[i].bssid == bss;
        found := true;
      }
    }
  }

  /** Some local's R0KH-ID equals the `size` bytes at `position`. */
  method R0khListed(b: Bytes, position: nat, size: nat, f: Filter) returns (found: bool)
    requires position + size <= |b| && size <= MAX_R0KH
    ensures found <==> NamesLocal(b[position..position + size], f)
  {
    ghost var id := b[position..position + size];
    found := false;
    for i := 0 to MAX_LOCALS
      invariant found <==> exists k :: 0 <= k < i && k < |f.Locals()| && f.Locals()[k].Named(id)
    {
      if i >= f.localCount || f.localSlots[i].r0khLen != size {
        continue;
      }
      var identical := SameBytes(b, position, size, f.localSlots[i].r0kh);
      assert identical <==> f.Locals()[i].Named(id);
      if identical {
        found := true;
      }
    }
  }

  /** Byte-wise compare of the saved R0KH element; no read can leave the frame. */
  method SameBytes(b: Bytes, position: nat, size: nat, r0kh: R0khSlots) returns (identical: bool)
    requires position + size <= |b| && size <= MAX_R0KH
    ensures identical <==> r0kh[..size] == b[position..position + size]
  {
    identical := true;
    for j := 0 to MAX_R0KH
      invariant j <= size
      invariant identical <==> forall k :: 0 <= k < j ==> b[position + k] == r0kh[k]
    {
      if j == size {
        break;
      }
      var one := Read(b, position + j, 1);
      assert one.Some?;
      if one.value[0] != r0kh[j] {
        identical := false;
      }
    }
    ghost var id := b[position..position + size];
    if identical {
      assert r0kh[..size] == id;
    } else {
      var k :| 0 <= k < size && b[position + k] != r0kh[k];
      assert id[k] != r0kh[..size][k];
    }
  }

  /** The R0KH-ID element a walk has saved: the offset of its value in the frame, and its size; both
      zero when the TLVs printed from `start` have no such element. */
  ghost predicate Located(start: nat, position: nat, size: nat, ts: seq<TlvItem>) {
    && (forall k :: 0 <= k < |ts| && ts[k].tag == TLV_R0KH ==>
          position == start + |PrintTlvs(ts[..k])| + TLV_HEADER_LEN && size == |ts[k].value|)
    && ((forall k :: 0 <= k < |ts| ==> ts[k].tag != TLV_R0KH) ==> position == 0 && size == 0)
  }

  /** The saved place holds the R0KH-ID. */
  ghost predicate Saved(b: Bytes, start: nat, position: nat, size: nat, ts: seq<TlvItem>) {
    && Located(start, position, size, ts)
    && size == |R0khValue(ts)| && position + size <= |b| && b[position..position + size] == R0khValue(ts)
  }

  /** What the walk knows after reading `done`: how far it is and what it has kept. */
  ghost predicate Walked(
    b: Bytes, start: nat, end: nat, pos: nat, done: seq<TlvItem>, position: nat, size: nat)
    requires start <= end <= |b|
  {
    && start <= pos == start + |PrintTlvs(done)| <= end
    && DecodeTlvs(b[start..end]) == Prepend(done, DecodeTlvs(b[pos..end]))
    && DistinctTags(done)
    && Saved(b, start, position, size, done)
  }

  lemma WalkStart(b: Bytes, start: nat, end: nat)
    requires start <= end <= |b|
    ensures Walked(b, start, end, start, [], 0, 0)
  {
    var whole := DecodeTlvs(b[start..end]);
    if whole.Some? { assert [] + whole.value == whole.value; }
  }

  /** Walk the TLVs of `b[start..end]` with a fixed iteration bound, rejecting duplicate tags. */
  method WalkTlvs(b: Bytes, start: nat, end: nat) returns (r: Result<(nat, nat), Counter>)
    requires start <= end <= |b|
    ensures r.Ok? <==> LegalAuth(b[start..end])
    ensures r.Err? ==> r.error == Counter.Tlv
    ensures r.Ok? ==> Saved(b, start, r.value.0, r.value.1, DecodeTlvs(b[start..end]).value)
  {
    hide Walked, LegalAuth, DecodeTlvs, Refused;
    ghost var done: seq<TlvItem> := [];
    var pos: nat, position: nat, size: nat := start, 0, 0;
    var tags := new U16[MAX_TLVS](_ => 0);
    WalkStart(b, start, end);
    var i := 0;
    while i < MAX_TLVS
      invariant i == |done| <= MAX_TLVS && start <= pos <= end
      invariant Walked(b, start, end, pos, done, position, size)
      invariant Recorded(tags, done)
    {
      if pos == end {
        break;
      }
      var next := NextTlv(b, pos, end, tags, i, done);
      if next.None? {
        RefusedIsIllegal(b, start, end, pos, done, position, size);
        return Err(Counter.Tlv);
      }
      var (tag, n) := next.value;
      tags[i] := tag;
      WalkStep(b, start, pos, end, done, position, size);
      done := done + [ItemAt(b, pos)];
      pos := pos + TLV_HEADER_LEN;
      if tag == TLV_R0KH {
        position, size := pos, n;
      }
      pos := pos + n;
      i := i + 1;
    }
    if pos != end {
      LongIsIllegal(b, start, end, pos, done, position, size);
      return Err(Counter.Tlv);
    }
    WalkEnd(b, start, end, done, position, size);
    return Ok((position, size));
  }

  /** The TLV at `pos` cannot follow `done`: truncated, a repeated tag, or running past `end`. */
  ghost predicate Refused(b: Bytes, pos: nat, end: nat, done: seq<TlvItem>)
    requires pos <= end <= |b|
  {
    || pos + TLV_HEADER_LEN > end
    || (exists j :: 0 <= j < |done| && done[j].tag == Le16(b[pos], b[pos + 1]))
    || pos + TLV_HEADER_LEN + Le16(b[pos + 2], b[pos + 3]) > end
  }

  /** The TLV printed at `pos`. */
  function ItemAt(b: Bytes, pos: nat): (t: TlvItem)
    requires pos + TLV_HEADER_LEN <= |b| && pos + TLV_HEADER_LEN + Le16(b[pos + 2], b[pos + 3]) <= |b|
    ensures t.tag == Le16(b[pos], b[pos + 1]) && |t.value| == Le16(b[pos + 2], b[pos + 3])
  {
    var value := pos + TLV_HEADER_LEN;
    TlvItem(Le16(b[pos], b[pos + 1]), b[value..value + Le16(b[pos + 2], b[pos + 3])])
  }

  /** The array holds the tags of the TLVs read so far. */
  ghost predicate Recorded(tags: array<U16>, done: seq<TlvItem>)
    reads tags
  {
    |done| <= tags.Length == MAX_TLVS && forall j :: 0 <= j < |done| ==> tags[j] == done[j].tag
  }

  /** Header of the TLV at `pos`, unless it has to be refused. */
  method NextTlv(b: Bytes, pos: nat, end: nat, tags: array<U16>, i: nat, ghost done: seq<TlvItem>)
    returns (r: Option<(U16, U16)>)
    requires pos <= end <= |b| && Recorded(tags, done) && i == |done|
    ensures r.None? <==> Refused(b, pos, end, done)
    ensures r.Some? ==> pos + TLV_HEADER_LEN + r.value.1 <= end && r.value == (Le16(b[pos], b[pos + 1]), Le16(b[pos + 2], b[pos + 3]))
  {
    if pos + TLV_HEADER_LEN > end {
      return None;
    }
    var tlv := Read(b, pos, 4);
    assert tlv.Some?;  // the header lies below `end`
    var tag, size := Le16(tlv.value[0], tlv.value[1]), Le16(tlv.value[2], tlv.value[3]);
    var isNew := Fresh(tags, i, tag);
    if !isNew || pos + TLV_HEADER_LEN + size > end {
      return None;
    }
    return Some((tag, size));
  }

  /** `tag` is none of the first `i` recorded tags; the scan runs over the whole fixed array. */
  method Fresh(tags: array<U16>, i: nat, tag: U16) returns (isNew: bool)
    requires tags.Length == MAX_TLVS && i <= MAX_TLVS
    ensures isNew <==> forall j :: 0 <= j < i ==> tags[j] != tag
  {
    for j := 0 to MAX_TLVS
      invariant forall k :: 0 <= k < j && k < i ==> tags[k] != tag
    {
      if j < i && tags[j] == tag {
        return false;
      }
    }
    return true;
  }

  /** One turn of the walk is one unfolding of the decoder, and keeps the R0KH element. */
  lemma WalkStep(b: Bytes, start: nat, pos: nat, end: nat, done: seq<TlvItem>, position: nat, size: nat)
    requires start <= pos <= end <= |b| && !Refused(b, pos, end, done)
    requires Walked(b, start, end, pos, done, position, size)
    ensures var t, value := ItemAt(b, pos), pos + TLV_HEADER_LEN;
            var (position', size') := if t.tag == TLV_R0KH then (value, |t.value|) else (position, size);
            Walked(b, start, end, value + |t.value|, done + [t], position', size')
  {
    var t := ItemAt(b, pos);
    WalkDecodes(b, pos, end, done);
    DistinctSnoc(done, t);
    PrintTlvsSnoc(done, t);
    SavedStep(b, start, pos + TLV_HEADER_LEN, done, t, position, size);
  }

  lemma WalkDecodes(b: Bytes, pos: nat, end: nat, done: seq<TlvItem>)
    requires pos <= end <= |b| && !Refused(b, pos, end, done)
    ensures var t := ItemAt(b, pos);
            Prepend(done, DecodeTlvs(b[pos..end]))
            == Prepend(done + [t], DecodeTlvs(b[pos + TLV_HEADER_LEN + |t.value|..end]))
  {
    var t := ItemAt(b, pos);
    DecodeStepAt(b, pos, end, t);
    PrependTwice(done, t, DecodeTlvs(b[pos + TLV_HEADER_LEN + |t.value|..end]));
  }

  lemma DistinctSnoc(done: seq<TlvItem>, t: TlvItem)
    requires DistinctTags(done) && forall j :: 0 <= j < |done| ==> done[j].tag != t.tag
    ensures DistinctTags(done + [t])
  {
  }

  lemma PrependTwice(done: seq<TlvItem>, t: TlvItem, tail: Option<seq<TlvItem>>)
    ensures Prepend(done, Prepend([t], tail)) == Prepend(done + [t], tail)
  {
    if tail.Some? {
      assert done + ([t] + tail.value) == done + [t] + tail.value;
    }
  }

  lemma LocatedStep(start: nat, done: seq<TlvItem>, t: TlvItem, position: nat, size: nat)
    requires Located(start, position, size, done) && DistinctTags(done + [t])
    ensures if t.tag == TLV_R0KH then Located(start, start + |PrintTlvs(done)| + TLV_HEADER_LEN, |t.value|, done + [t])
            else Located(start, position, size, done + [t])
  {
    var ts := done + [t];
    assert ts[|done|] == t && ts[..|done|] == done;
    assert forall k :: 0 <= k < |done| ==> ts[k] == done[k] && ts[..k] == done[..k];
  }

  lemma SavedStep(b: Bytes, start: nat, value: nat, done: seq<TlvItem>, t: TlvItem, position: nat, size: nat)
    requires value + |t.value| <= |b| && t.value == b[value..value + |t.value|]
    requires value == start + |PrintTlvs(done)| + TLV_HEADER_LEN
    requires Saved(b, start, position, size, done) && DistinctTags(done + [t])
    ensures if t.tag == TLV_R0KH then Saved(b, start, value, |t.value|, done + [t])
            else Saved(b, start, position, size, done + [t])
  {
    hide Located;
    R0khValueAppend(done, t);
    LocatedStep(start, done, t, position, size);
  }

  lemma DecodeStepAt(b: Bytes, pos: nat, end: nat, t: TlvItem)
    requires pos + TLV_HEADER_LEN + |t.value| <= end <= |b|
    requires t.tag == Le16(b[pos], b[pos + 1]) && |t.value| == Le16(b[pos + 2], b[pos + 3])
    requires t.value == b[pos + TLV_HEADER_LEN..pos + TLV_HEADER_LEN + |t.value|]
    ensures DecodeTlvs(b[pos..end]) == Prepend([t], DecodeTlvs(b[pos + TLV_HEADER_LEN + |t.value|..end]))
  {
    var cur, n := b[pos..end], TLV_HEADER_LEN + |t.value|;
    assert cur[TLV_HEADER_LEN..n] == t.value;
    assert cur[n..] == b[pos + n..end];
  }

  lemma RefusedIsIllegal(b: Bytes, start: nat, end: nat, pos: nat, done: seq<TlvItem>, position: nat, size: nat)
    requires start <= end <= |b| && pos < end && Walked(b, start, end, pos, done, position, size)
    requires Refused(b, pos, end, done)
    ensures !LegalAuth(b[start..end])
  {
    var whole := DecodeTlvs(b[start..end]);
    if whole.Some? && pos + TLV_HEADER_LEN <= end && exists j :: 0 <= j < |done| && done[j].tag == Le16(b[pos], b[pos + 1]) {
      var j :| 0 <= j < |done| && done[j].tag == Le16(b[pos], b[pos + 1]);
      assert whole.value[j].tag == whole.value[|done|].tag;
    }
  }

  lemma LongIsIllegal(b: Bytes, start: nat, end: nat, pos: nat, done: seq<TlvItem>, position: nat, size: nat)
    requires start <= end <= |b| && Walked(b, start, end, pos, done, position, size)
    requires |done| == MAX_TLVS && pos < end
    ensures !LegalAuth(b[start..end])
  {
  }

  lemma WalkEnd(b: Bytes, start: nat, end: nat, done: seq<TlvItem>, position: nat, size: nat)
    requires start <= end <= |b| && Walked(b, start, end, end, done, position, size) && |done| <= MAX_TLVS
    ensures LegalAuth(b[start..end]) && DecodeTlvs(b[start..end]).value == done && Saved(b, start, position, size, done)
  {
    assert done + [] == done;
  }
}
