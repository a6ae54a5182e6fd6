/** Shared vocabulary: machine integers, addresses, the filter and the counters. */
module Proto {
  type Byte = b: int | 0 <= b < 0x100
  type U16 = n: int | 0 <= n < 0x1_0000
  type U32 = n: int | 0 <= n < 0x1_0000_0000
  type U64 = n: int | 0 <= n < 0x1_0000_0000_0000_0000
  type Bytes = seq<Byte>
  type Mac = m: Bytes | |m| == 6 witness [0, 0, 0, 0, 0, 0]

  datatype Option<+T> = None | Some(value: T)
  datatype Result<+T, +E> = Ok(value: T) | Err(error: E)

  const MAX_PEERS: nat := 8
  const MAX_LOCALS: nat := 8
  const MAX_PEER_BSSIDS: nat := 8
  const MAX_FRAME: nat := 2048
  const MAX_TLVS: nat := 16
  const MAX_R0KH: nat := 48

  const BROADCAST: Mac := [255, 255, 255, 255, 255, 255]
  const ZERO_MAC: Mac := [0, 0, 0, 0, 0, 0]

  function Min(a: nat, b: nat): nat { if a <= b then a else b }

  // The fixed-size arrays of the filter: every slot exists, only the counted ones matter.
  type BssidSlots = s: seq<Mac> | |s| == MAX_PEER_BSSIDS witness EmptyBssids()
  type R0khSlots = s: Bytes | |s| == MAX_R0KH witness EmptyR0kh()
  type PeerSlots = s: seq<Peer> | |s| == MAX_PEERS witness EmptyPeers()
  type LocalSlots = s: seq<Local> | |s| == MAX_LOCALS witness EmptyLocals()

  function EmptyBssids(): (s: seq<Mac>) ensures |s| == MAX_PEER_BSSIDS
  {
    seq(MAX_PEER_BSSIDS, _ => ZERO_MAC)
  }

  function EmptyR0kh(): (s: Bytes) ensures |s| == MAX_R0KH { seq(MAX_R0KH, _ => 0) }

  function EmptyPeers(): (s: seq<Peer>) ensures |s| == MAX_PEERS
  {
    seq(MAX_PEERS, _ => Peer(ZERO_MAC, 0, EmptyBssids()))
  }

  function EmptyLocals(): (s: seq<Local>) ensures |s| == MAX_LOCALS
  {
    seq(MAX_LOCALS, _ => Local(ZERO_MAC, 0, EmptyR0kh()))
  }

  datatype Peer = Peer(mac: Mac, bssidCount: Byte, bssids: BssidSlots) {
    /** The slots the parser looks at: the loop bound caps an oversized count. */
    function Bssids(): seq<Mac> { bssids[..Min(bssidCount, MAX_PEER_BSSIDS)] }
  }

  datatype Local = Local(bssid: Mac, r0khLen: Byte, r0kh: R0khSlots) {
    /** `id` is this BSS's R0KH-ID, in length and byte for byte. */
    predicate Named(id: Bytes) { |id| <= MAX_R0KH && r0khLen == |id| && r0kh[..|id|] == id }
  }

  datatype Filter = Filter(
    managementVlan: U16,
    peerCount: Byte,
    localCount: Byte,
    targetMac: Mac,
    localSlots: LocalSlots,
    peerSlots: PeerSlots)
  {
    function Peers(): seq<Peer> { peerSlots[..Min(peerCount, MAX_PEERS)] }
    function Locals(): seq<Local> { localSlots[..Min(localCount, MAX_LOCALS)] }
  }

  datatype Counter =
    | Seen | Length | Vlan | EtherAddress | OuiType | SourceBss | DestinationBss
    | AuthLength | Tlv | BroadcastScope
    | Matched | Observed | RateLimited | Injected | InjectError
    | Pull | Response | Push | SeqRequest | SeqResponse

  const COUNTERS: nat := 20

  /** The slot of a counter in the shared array (its discriminant). */
  function Index(c: Counter): (i: nat)
    ensures i < COUNTERS
  {
    match c
    case Seen => 0 case Length => 1 case Vlan => 2 case EtherAddress => 3 case OuiType => 4
    case SourceBss => 5 case DestinationBss => 6 case AuthLength => 7 case Tlv => 8
    case BroadcastScope => 9 case Matched => 10 case Observed => 11 case RateLimited => 12
    case Injected => 13 case InjectError => 14 case Pull => 15 case Response => 16
    case Push => 17 case SeqRequest => 18 case SeqResponse => 19
  }

  /** The names the daemon logs the counters under, by slot. */
  const COUNTER_NAMES: seq<string> := [
    "seen", "reject_length", "reject_vlan", "reject_ether_address", "reject_oui_or_type", "reject_source_bss",
    "reject_destination_bss", "reject_auth_length", "reject_tlv", "reject_broadcast_scope", "matched", "observed",
    "rate_limited", "injected", "inject_error", "pull", "response", "push", "seq_request", "seq_response"]

  /** What a counter is called. */
  function NameOf(c: Counter): string {
    match c
    case Seen => "seen" case Length => "reject_length" case Vlan => "reject_vlan"
    case EtherAddress => "reject_ether_address" case OuiType => "reject_oui_or_type"
    case SourceBss => "reject_source_bss" case DestinationBss => "reject_destination_bss"
    case AuthLength => "reject_auth_length" case Tlv => "reject_tlv" case BroadcastScope => "reject_broadcast_scope"
    case Matched => "matched" case Observed => "observed" case RateLimited => "rate_limited"
    case Injected => "injected" case InjectError => "inject_error" case Pull => "pull" case Response => "response"
    case Push => "push" case SeqRequest => "seq_request" case SeqResponse => "seq_response"
  }

  /** The counter kept in a slot. */
  function CounterAt(i: nat): (c: Counter)
    requires i < COUNTERS
    ensures Index(c) == i
  {
    [Seen, Length, Vlan, EtherAddress, OuiType, SourceBss, DestinationBss, AuthLength, Tlv, BroadcastScope,
     Matched, Observed, RateLimited, Injected, InjectError, Pull, Response, Push, SeqRequest, SeqResponse][i]
  }

  /** Every counter is logged under its own name. */
  lemma NamesFit(c: Counter)
    ensures |COUNTER_NAMES| == COUNTERS && COUNTER_NAMES[Index(c)] == NameOf(c) && CounterAt(Index(c)) == c
  {
    match c {
      case Seen => case Length => case Vlan => case EtherAddress => case OuiType => case SourceBss =>
      case DestinationBss => case AuthLength => case Tlv => case BroadcastScope => case Matched => case Observed =>
      case RateLimited => case Injected => case InjectError => case Pull => case Response => case Push =>
      case SeqRequest => case SeqResponse =>
    }
  }

  /** How the management tag reached userspace; `proto` and `tci` count only when `present`. */
  datatype VlanInfo = VlanInfo(present: bool, proto: U16, tci: U16)

  const NO_VLAN := VlanInfo(false, 0, 0)

  /** What the gate reports about an accepted frame: its message type and where its body starts. */
  datatype Match = Match(kind: Byte, bodyOffset: nat)
}
