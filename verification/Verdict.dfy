/** What `classify` must answer, stated over slices of the frame rather than over loops. */
module Verdict {
  import opened Proto
  import opened Wire

  const ETH_P_RRB: U16 := 0x88b7
  const TPID_8021Q: U16 := 0x8100
  const VID_RANGE: nat := 0x1000
  const ETH_HEADER_LEN: nat := 14
  const ETH_TYPE_OFFSET: nat := 12
  const VLAN_TAG_LEN: nat := 4
  const RRB_HEADER_LEN: nat := 20
  const RRB_SELECTOR: Bytes := [0x00, 0x13, 0x74, 0x00, 0x01]
  const KIND_PULL: Byte := 1
  const KIND_RESPONSE: Byte := 2
  const KIND_PUSH: Byte := 3
  const KIND_SEQ_REQUEST: Byte := 4
  const KIND_SEQ_RESPONSE: Byte := 5
  const SIV_LEN: nat := 16

  function BodyOffset(v: VlanInfo): nat {
    if v.present then ETH_HEADER_LEN else ETH_HEADER_LEN + VLAN_TAG_LEN
  }

  predicate LengthOk(b: Bytes) { ETH_HEADER_LEN <= |b| <= MAX_FRAME }

  /** Exactly one management tag, inline or in the metadata, followed by the RRB EtherType. */
  predicate VlanOk(b: Bytes, v: VlanInfo, f: Filter)
    requires ETH_HEADER_LEN <= |b|
  {
    if v.present then
      && v.proto == TPID_8021Q
      && v.tci % VID_RANGE == f.managementVlan
      && Be16(b[12], b[13]) == ETH_P_RRB
    else
      && ETH_HEADER_LEN + VLAN_TAG_LEN <= |b|
      && Be16(b[12], b[13]) == TPID_8021Q
      && Be16(b[14], b[15]) % VID_RANGE == f.managementVlan
      && Be16(b[16], b[17]) == ETH_P_RRB
  }

  /** The peer a duplicated MAC resolves to: the scan keeps the last match. */
  ghost predicate LastMatch(peers: seq<Peer>, src: Mac, i: int) {
    0 <= i < |peers| && peers[i].mac == src && forall j :: i < j < |peers| ==> peers[j].mac != src
  }

  ghost predicate SenderKnown(src: Mac, f: Filter) {
    f.peerCount == 0 || exists i :: 0 <= i < |f.Peers()| && f.Peers()[i].mac == src
  }

  ghost predicate AddressesOk(dst: Mac, src: Mac, f: Filter) {
    (dst == f.targetMac || dst == BROADCAST) && SenderKnown(src, f)
  }

  ghost predicate SourceBssOk(src: Mac, bss: Mac, f: Filter) {
    forall i :: LastMatch(f.Peers(), src, i) ==>
      f.Peers()[i].bssidCount == 0 || bss in f.Peers()[i].Bssids()
  }

  ghost predicate LocalBss(bss: Mac, f: Filter) {
    exists i :: 0 <= i < |f.Locals()| && f.Locals()[i].bssid == bss
  }

  ghost predicate DestinationBssOk(bss: Mac, f: Filter) { bss == BROADCAST || LocalBss(bss, f) }

  predicate KindOk(kind: Byte) { KIND_PULL <= kind <= KIND_SEQ_RESPONSE }

  ghost predicate NamesLocal(id: Bytes, f: Filter) {
    exists i :: 0 <= i < |f.Locals()| && f.Locals()[i].Named(id)
  }

  /** Only a request that names one of our key holders may have a broadcast destination BSS. */
  ghost predicate ScopeOk(kind: Byte, dstBss: Mac, id: Bytes, f: Filter) {
    dstBss == BROADCAST ==>
      (kind == KIND_PULL || kind == KIND_SEQ_REQUEST) && 1 <= |id| <= MAX_R0KH && NamesLocal(id, f)
  }

  // Fields of the RRB body `r`, which starts right after the EtherType.
  predicate HeaderFits(r: Bytes) { RRB_HEADER_LEN <= |r| }
  function Selector(r: Bytes): Bytes requires HeaderFits(r) { r[..5] }
  function Kind(r: Bytes): Byte requires HeaderFits(r) { r[5] }
  function SrcBss(r: Bytes): Mac requires HeaderFits(r) { r[6..12] }
  function DstBss(r: Bytes): Mac requires HeaderFits(r) { r[12..18] }
  function AuthEnd(r: Bytes): nat requires HeaderFits(r) { RRB_HEADER_LEN + Le16(r[18], r[19]) }
  predicate AuthFits(r: Bytes) { HeaderFits(r) && AuthEnd(r) + SIV_LEN <= |r| }
  function AuthBlock(r: Bytes): Bytes requires AuthFits(r) { r[RRB_HEADER_LEN..AuthEnd(r)] }

  /** The R0KH-ID of a body whose TLV stream decodes. */
  ghost function R0khId(r: Bytes): Bytes
    requires AuthFits(r) && LegalAuth(AuthBlock(r))
  {
    R0khValue(DecodeTlvs(AuthBlock(r)).value)
  }

  /** The verdict on the authenticated part: its length, its TLVs, then the broadcast scope. */
  ghost function AuthVerdict(r: Bytes, f: Filter): Result<Byte, Counter>
    requires HeaderFits(r)
  {
    if !AuthFits(r) then Err(AuthLength)
    else if !LegalAuth(AuthBlock(r)) then Err(Counter.Tlv)
    else if !ScopeOk(Kind(r), DstBss(r), R0khId(r), f) then Err(BroadcastScope)
    else Ok(Kind(r))
  }

  /** The verdict on everything behind the VLAN handling: it sees neither offsets nor the tag. */
  ghost function BodyVerdict(dst: Mac, src: Mac, r: Bytes, f: Filter): Result<Byte, Counter> {
    if !AddressesOk(dst, src, f) then Err(EtherAddress)
    else if !HeaderFits(r) then Err(Length)
    else if Selector(r) != RRB_SELECTOR || !KindOk(Kind(r)) then Err(OuiType)
    else if !SourceBssOk(src, SrcBss(r), f) then Err(SourceBss)
    else if !DestinationBssOk(DstBss(r), f) then Err(DestinationBss)
    else AuthVerdict(r, f)
  }

  ghost function Judge(b: Bytes, v: VlanInfo, f: Filter): Result<Match, Counter> {
    if !LengthOk(b) then Err(Length)
    else if !VlanOk(b, v, f) then Err(Counter.Vlan)
    else
      match BodyVerdict(b[..6], b[6..12], b[BodyOffset(v)..], f)
      case Ok(kind) => Ok(Match(kind, BodyOffset(v)))
      case Err(c) => Err(c)
  }
}
