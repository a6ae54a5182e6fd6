/** Concrete frames, under a validated configuration, at the edges where a comment or a symmetry fails. */
module Witnesses {
  import opened Proto
  import opened Verdict
  import opened Wire
  import opened Frames
  import opened Relay
  import opened Packet
  import opened ParserLaws
  import opened ConfigLaws

  function Zeros(n: nat): (b: Bytes) ensures |b| == n { seq(n, _ => 0) }

  /** A pull request to the first access point of `TwoAps(1)`, with no TLVs and a tail of `n` zeros. */
  function Request(tag: Tag, n: nat): Frame {
    Frame(BROADCAST, ZERO_MAC, tag, KIND_PULL, ZERO_MAC, MAC_ONE, [], Zeros(n))
  }

  lemma RequestIsAdmitted(tag: Tag, n: nat)
    requires tag.tci == 1 && n >= SIV_LEN
    ensures Request(tag, n).Printable() && AdmitsFields(TwoApsFilter(1), Request(tag, n))
    ensures |Print(Request(tag, n))| == Request(tag, n).BodyStart() + RRB_HEADER_LEN + n
  {
    var f := TwoApsFilter(1);
    assert f.Peers() == [] && f.Locals()[0].bssid == MAC_ONE;
    assert MAC_ONE[0] != BROADCAST[0];
    assert PrintTlvs([]) == [];
  }

  /** A 2052-byte frame that is refused for its length, while the same frame with its tag lifted into
      the metadata, 2048 bytes, is accepted. */
  lemma TagBytesCanDecide()
    ensures var inline := Request(Inline(1), 2014);
            && inline.Printable() && |Print(inline)| == 2052
            && Judge(Print(inline), NO_VLAN, TwoApsFilter(1)) == Err(Length)
            && Judge(Untag(Print(inline), NO_VLAN), VlanInfo(true, TPID_8021Q, 1), TwoApsFilter(1)).Ok?
  {
    hide AdmitsFields, Judge, Print;
    var lifted := Request(Offloaded(1), 2014);
    RequestIsAdmitted(Offloaded(1), 2014);
    RequestIsAdmitted(Inline(1), 2014);
    assert lifted.(tag := Inline(1)) == Request(Inline(1), 2014);
    LongFormsDiffer(lifted, TwoApsFilter(1));
  }

  /** A 3038-byte frame that the gate would refuse for its length, delivered clipped and relayed. */
  lemma OverlongCanBeRelayed()
    ensures var fr := Request(Inline(1), 3000);
            && fr.Printable() && |Print(fr)| == 3038
            && Judge(Print(fr), NO_VLAN, TwoApsFilter(1)) == Err(Length)
            && Deliver(Print(fr)) == Some(Clip(Print(fr)))
            && Judge(Clip(Print(fr)), NO_VLAN, TwoApsFilter(1)).Ok?
  {
    hide AdmitsFields, Judge, Print, BodyVerdict;
    var fr, f := Request(Inline(1), 3000), TwoApsFilter(1);
    RequestIsAdmitted(Inline(1), 3000);
    assert Carries(Print(fr), NO_VLAN, fr);
    assert PrintTlvs(fr.auth) == [];
    OverlongIsRelayedIff(Print(fr), NO_VLAN, fr, f);
    PrefilterLosesNothing(Print(fr), NO_VLAN, f);
    TooLongIsRejected(Print(fr), NO_VLAN, f);
  }

  lemma TooLongIsRejected(b: Bytes, v: VlanInfo, f: Filter)
    requires |b| > MAX_FRAME
    ensures Judge(b, v, f) == Err(Length)
  {
  }
}
