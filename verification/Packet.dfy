/** The kernel side of capture: the cBPF socket filter, truncation, and VLAN metadata. */
module Packet {
  import opened Proto
  import opened Wire
  import opened Verdict
  import opened Frames

  const LD_H_ABS: U16 := 0x28
  const JEQ_K: U16 := 0x15
  const RET_K: U16 := 0x06

  datatype Insn = Insn(code: U16, jt: Byte, jf: Byte, k: U32)

  /** What the kernel demands of a program it attaches: known opcodes, jumps inside, a final return. */
  predicate Attachable(prog: seq<Insn>) {
    && prog != [] && prog[|prog| - 1].code == RET_K
    && forall pc :: 0 <= pc < |prog| ==>
         && prog[pc].code in {LD_H_ABS, JEQ_K, RET_K}
         && (prog[pc].code == JEQ_K ==> pc + 1 + prog[pc].jt < |prog| && pc + 1 + prog[pc].jf < |prog|)
  }

  /** Classic BPF: the number of bytes to keep. Jumps only go forward, so every run ends. */
  function Execute(prog: seq<Insn>, pc: nat, a: U32, pkt: Bytes): (keep: U32)
    requires Attachable(prog) && pc < |prog|
    ensures keep != 0 ==> exists i :: 0 <= i < |prog| && prog[i].code == RET_K && prog[i].k == keep
    decreases |prog| - pc
  {
    var i := prog[pc];
    if i.code == RET_K then i.k
    else if i.code == JEQ_K then Execute(prog, pc + 1 + (if a == i.k then i.jt else i.jf), a, pkt)
    else if i.k + 2 > |pkt| then 0  // an out-of-bounds load drops the packet
    else Execute(prog, pc + 1, Be16(pkt[i.k], pkt[i.k + 1]), pkt)
  }

  const SOCKET_FILTER: seq<Insn> := [
    Insn(LD_H_ABS, 0, 0, 12),
    Insn(JEQ_K, 0, 2, 0x8100),
    Insn(LD_H_ABS, 0, 0, 16),
    Insn(JEQ_K, 1, 2, 0x88b7),
    Insn(JEQ_K, 0, 1, 0x88b7),
    Insn(RET_K, 0, 0, 0xffff),
    Insn(RET_K, 0, 0, 0)]

  lemma SocketFilterAttaches()
    ensures Attachable(SOCKET_FILTER)
  {
  }

  /** A bare RRB frame, or one behind a single 802.1Q tag. */
  predicate Candidate(b: Bytes) {
    || (14 <= |b| && Be16(b[12], b[13]) == ETH_P_RRB)
    || (18 <= |b| && Be16(b[12], b[13]) == TPID_8021Q && Be16(b[16], b[17]) == ETH_P_RRB)
  }

  /** The octets that make a candidate: 88 B7 at offset 12, or 81 00 there and 88 B7 at 16. */
  lemma CandidateOctets(b: Bytes)
    ensures Candidate(b) <==>
            || (14 <= |b| && b[12] == 0x88 && b[13] == 0xb7)
            || (18 <= |b| && b[12] == 0x81 && b[13] == 0x00 && b[16] == 0x88 && b[17] == 0xb7)
  {
  }

  /** The seven instructions keep exactly the RRB candidates, whole up to 65535 bytes. */
  lemma SocketFilterKeepsCandidates(b: Bytes)
    ensures Attachable(SOCKET_FILTER)
    ensures Execute(SOCKET_FILTER, 0, 0, b) == if Candidate(b) then 0xffff else 0
  {
    SocketFilterAttaches();
    var p := SOCKET_FILTER;
    if 14 <= |b| {
      var a := Be16(b[12], b[13]);
      assert Execute(p, 0, 0, b) == Execute(p, 1, a, b);
      if a == TPID_8021Q {
        assert Execute(p, 1, a, b) == Execute(p, 2, a, b);
        if 18 <= |b| {
          var c := Be16(b[16], b[17]);
          assert Execute(p, 2, a, b) == Execute(p, 3, c, b) == Execute(p, if c == ETH_P_RRB then 5 else 6, c, b);
        }
      } else {
        assert Execute(p, 1, a, b) == Execute(p, 4, a, b) == Execute(p, if a == ETH_P_RRB then 5 else 6, a, b);
      }
    }
  }

  /** What userspace gets of a frame on the wire: nothing, or a prefix that fits its buffer. */
  function Deliver(wire: Bytes): Option<Bytes>
  {
    SocketFilterAttaches();
    var keep := Execute(SOCKET_FILTER, 0, 0, wire);
    if keep == 0 then None else Some(Clip(wire[..Min(|wire|, keep)]))
  }

  function Clip(b: Bytes): Bytes { b[..Min(|b|, MAX_FRAME)] }

  /** Whatever the gate would accept of a frame, under any metadata and filter, is delivered. */
  lemma PrefilterLosesNothing(wire: Bytes, v: VlanInfo, f: Filter)
    requires Judge(Clip(wire), v, f).Ok?
    ensures Deliver(wire) == Some(Clip(wire))
  {
    SocketFilterKeepsCandidates(wire);
    assert Candidate(Clip(wire)) && Candidate(wire);
    assert Clip(wire[..Min(|wire|, 0xffff)]) == Clip(wire);
  }

  /** The gate's upper length bound never fires behind the socket: a longer frame arrives clipped
      to the buffer and is judged, and relayed, as that prefix. */
  lemma OverlongIsClippedNotRejected(wire: Bytes, v: VlanInfo, f: Filter)
    requires |wire| > MAX_FRAME && Candidate(wire)
    ensures Deliver(wire) == Some(wire[..MAX_FRAME])
    ensures Judge(wire, v, f) == Err(Length) && Judge(wire[..MAX_FRAME], v, f) != Err(Length)
  {
    SocketFilterKeepsCandidates(wire);
    assert Clip(wire[..Min(|wire|, 0xffff)]) == wire[..MAX_FRAME];
  }

  /** A frame that fits the buffer arrives whole. */
  lemma FittingIsDeliveredWhole(wire: Bytes)
    requires |wire| <= 2048
    ensures Clip(wire) == wire
    ensures Candidate(wire) ==> Deliver(wire) == Some(wire)
  {
    SocketFilterKeepsCandidates(wire);
  }

  /** A frame that fits the buffer is relayed exactly when every condition on its fields holds. */
  lemma FittingIsRelayedIff(wire: Bytes, v: VlanInfo, fr: Frame, f: Filter)
    requires Carries(wire, v, fr) && |wire| <= 2048
    ensures Judge(Clip(wire), v, f).Ok? <==> AdmitsFields(f, fr)
    ensures Judge(Clip(wire), v, f).Ok? ==> Judge(Clip(wire), v, f).value == Match(fr.kind, fr.BodyStart())
  {
    hide Judge;
    FittingIsDeliveredWhole(wire);
    PrintedIsAccepted(wire, v, fr, f);
  }

  /** Offset of the opaque tail of a printed frame. */
  function TailStart(fr: Frame): nat { fr.BodyStart() + RRB_HEADER_LEN + |PrintTlvs(fr.auth)| }

  lemma ClipShortensTail(wire: Bytes, v: VlanInfo, fr: Frame)
    requires Carries(wire, v, fr) && |wire| > MAX_FRAME && TailStart(fr) <= MAX_FRAME
    ensures Carries(Clip(wire), v, fr.(tail := fr.tail[..MAX_FRAME - TailStart(fr)]))
  {
    var n := MAX_FRAME - TailStart(fr);
    var cut := fr.(tail := fr.tail[..n]);
    var head := fr.dst + fr.src + PrintTag(fr.tag) + BeBytes(ETH_P_RRB);
    assert PrintBody(cut) == PrintBody(fr)[..|PrintBody(cut)|];
    assert Print(fr) == head + PrintBody(fr) && Print(cut) == head + PrintBody(cut);
    assert Print(cut) == Print(fr)[..MAX_FRAME];
  }

  lemma ClipCutsAuth(wire: Bytes, v: VlanInfo, fr: Frame, f: Filter)
    requires Carries(wire, v, fr) && |wire| > MAX_FRAME && TailStart(fr) + SIV_LEN > MAX_FRAME
    ensures Judge(Clip(wire), v, f).Err?
  {
    PrintFields(fr);
    PrintBodyFields(fr);
    var r, s := wire[BodyOffset(v)..], Clip(wire)[BodyOffset(v)..];
    assert s[18] == r[18] && s[19] == r[19];
    assert !AuthFits(s);
  }

  /** An overlong frame is relayed, clipped, exactly when everything but its length is right and the
      buffer still holds its auth data and 16 bytes of the tail. */
  lemma OverlongIsRelayedIff(wire: Bytes, v: VlanInfo, fr: Frame, f: Filter)
    requires Carries(wire, v, fr) && |wire| > MAX_FRAME
    ensures Judge(Clip(wire), v, f).Ok? <==>
            AdmitsFields(f, fr) && TailStart(fr) + SIV_LEN <= MAX_FRAME
    ensures Judge(Clip(wire), v, f).Ok? ==> Judge(Clip(wire), v, f).value == Match(fr.kind, fr.BodyStart())
  {
    hide Judge;
    if TailStart(fr) + SIV_LEN <= MAX_FRAME {
      ClipShortensTail(wire, v, fr);
      PrintedIsAccepted(Clip(wire), v, fr.(tail := fr.tail[..MAX_FRAME - TailStart(fr)]), f);
    } else {
      ClipCutsAuth(wire, v, fr, f);
    }
  }

  // ----- PACKET_AUXDATA -----

  /** One control message of a received packet. */
  datatype Control = Auxdata(status: U32, tci: U16, tpid: U16) | OtherControl {
    predicate Tagged() { Auxdata? && status / 0x10 % 2 == 1 }
    function Tpid(): U16 requires Tagged() { if status / 0x40 % 2 == 1 then tpid else TPID_8021Q }
    function Info(): VlanInfo requires Tagged() { VlanInfo(true, Tpid(), tci) }
  }

  /** Message `i` is the last with the VLAN-valid bit, bit 4 of the status. */
  ghost predicate LastValid(controls: seq<Control>, i: int) {
    && 0 <= i < |controls| && controls[i].Auxdata? && controls[i].status % 0x20 >= 0x10
    && forall j :: i < j < |controls| ==> controls[j].Auxdata? ==> controls[j].status % 0x20 < 0x10
  }

  lemma StatusBits(c: Control)
    requires c.Auxdata?
    ensures c.Tagged() <==> c.status % 0x20 >= 0x10
    ensures c.Tagged() ==> c.Info() == VlanInfo(true, if c.status % 0x80 >= 0x40 then c.tpid else 0x8100, c.tci)
  {
    Bit4(c.status);
    Bit6(c.status);
  }

  lemma Bit4(n: nat)
    ensures n / 0x10 % 2 == 1 <==> n % 0x20 >= 0x10
  {
    var q, r := n / 0x20, n % 0x20;
    assert n == 0x20 * q + r;
    assert n / 0x10 == 2 * q + if r >= 0x10 then 1 else 0;
  }

  lemma Bit6(n: nat)
    ensures n / 0x40 % 2 == 1 <==> n % 0x80 >= 0x40
  {
    var q, r := n / 0x80, n % 0x80;
    assert n == 0x80 * q + r;
    assert n / 0x40 == 2 * q + if r >= 0x40 then 1 else 0;
  }

  /** The VLAN view the control messages describe: the last tagged one wins. */
  function VlanOf(controls: seq<Control>): VlanInfo {
    if controls == [] then NO_VLAN
    else
      var n := |controls| - 1;
      if controls[n].Tagged() then controls[n].Info() else VlanOf(controls[..n])
  }

  /** The VLAN view of a packet: tag and TPID of the last message with a valid VLAN, 0x8100 standing in
      for a TPID that is not marked valid (bit 6); else no tag. */
  method DeriveVlan(controls: seq<Control>) returns (v: VlanInfo)
    ensures forall i :: LastValid(controls, i) ==>
              && v.present && v.tci == controls[i].tci
              && v.proto == if controls[i].status % 0x80 >= 0x40 then controls[i].tpid else 0x8100
    ensures (forall i :: 0 <= i < |controls| && controls[i].Auxdata? ==> controls[i].status % 0x20 < 0x10) ==>
              v == VlanInfo(false, 0, 0)
    ensures v == VlanOf(controls)
  {
    v := NO_VLAN;
    for n := 0 to |controls|
      invariant v == VlanOf(controls[..n])
    {
      assert controls[..n + 1][..n] == controls[..n];
      if controls[n].Tagged() {
        v := controls[n].Info();
      }
    }
    assert controls[..|controls|] == controls;
    forall i | LastValid(controls, i)
      ensures v == VlanInfo(true, if controls[i].status % 0x80 >= 0x40 then controls[i].tpid else 0x8100, controls[i].tci)
    {
      VlanOfLast(controls, i);
    }
    if forall i :: 0 <= i < |controls| && controls[i].Auxdata? ==> controls[i].status % 0x20 < 0x10 {
      VlanOfNone(controls);
    }
  }

  lemma {:induction false} VlanOfLast(controls: seq<Control>, i: int)
    requires LastValid(controls, i)
    ensures VlanOf(controls)
            == VlanInfo(true, if controls[i].status % 0x80 >= 0x40 then controls[i].tpid else 0x8100, controls[i].tci)
  {
    var n := |controls| - 1;
    if controls[n].Auxdata? { StatusBits(controls[n]); }
    if i < n { VlanOfLast(controls[..n], i); }
  }

  lemma {:induction false} VlanOfNone(controls: seq<Control>)
    requires forall i :: 0 <= i < |controls| && controls[i].Auxdata? ==> controls[i].status % 0x20 < 0x10
    ensures VlanOf(controls) == VlanInfo(false, 0, 0)
  {
    if controls != [] {
      var n := |controls| - 1;
      if controls[n].Auxdata? { StatusBits(controls[n]); }
      VlanOfNone(controls[..n]);
    }
  }

  /** An offloaded frame is accepted on the strength of its auxdata message exactly when the filter
      admits it: the message carries its TCI, and 0x8100 or no TPID at all. */
  lemma OffloadedIsAcceptedIff(fr: Frame, controls: seq<Control>, i: int, f: Filter)
    requires fr.Printable() && fr.tag.Offloaded? && |Print(fr)| <= 2048
    requires LastValid(controls, i) && controls[i].tci == fr.tag.tci
    requires controls[i].status % 0x80 >= 0x40 ==> controls[i].tpid == 0x8100
    ensures Judge(Clip(Print(fr)), VlanOf(controls), f).Ok? <==> AdmitsFields(f, fr)
  {
    hide Print, AdmitsFields, Judge;
    VlanOfLast(controls, i);
    FittingIsRelayedIff(Print(fr), VlanOf(controls), fr, f);
  }
}
