/** Abstract RRB frames, their printer, and the proof that the parser is its exact inverse. */
module Frames {
  import opened Proto
  import opened Wire
  import opened Verdict

  /** Where the management tag travels. */
  datatype Tag = Inline(tci: U16) | Offloaded(tci: U16)

  datatype Frame = Frame(
    dst: Mac, src: Mac, tag: Tag, kind: Byte, srcBss: Mac, dstBss: Mac, auth: seq<TlvItem>, tail: Bytes)
  {
    /** The auth block's length fits its 16-bit field. */
    predicate Printable() { |PrintTlvs(auth)| < 0x1_0000 }
    function BodyStart(): nat { if tag.Inline? then 18 else 14 }
  }

  /** The fixed RRB header. */
  function PrintHeader(fr: Frame): (b: Bytes)
    requires fr.Printable()
    ensures |b| == RRB_HEADER_LEN
  {
    RRB_SELECTOR + [fr.kind] + fr.srcBss + fr.dstBss + LeBytes(|PrintTlvs(fr.auth)|)
  }

  function PrintBody(fr: Frame): (b: Bytes)
    requires fr.Printable()
    ensures |b| == RRB_HEADER_LEN + |PrintTlvs(fr.auth)| + |fr.tail|
  {
    PrintHeader(fr) + PrintTlvs(fr.auth) + fr.tail
  }

  function PrintTag(t: Tag): Bytes {
    match t case Inline(tci) => BeBytes(TPID_8021Q) + BeBytes(tci) case Offloaded(_) => []
  }

  function Print(fr: Frame): (b: Bytes)
    requires fr.Printable()
    ensures |b| == fr.BodyStart() + RRB_HEADER_LEN + |PrintTlvs(fr.auth)| + |fr.tail|
  {
    fr.dst + fr.src + PrintTag(fr.tag) + BeBytes(ETH_P_RRB) + PrintBody(fr)
  }

  /** The bytes and the metadata handed up by the socket are those of `fr`. */
  ghost predicate Carries(b: Bytes, v: VlanInfo, fr: Frame) {
    && fr.Printable()
    && b == Print(fr)
    && v.present == fr.tag.Offloaded?
    && (v.present ==> v.proto == TPID_8021Q && v.tci == fr.tag.tci)
  }

  /** Every condition the filter puts on a frame but its total length, in terms of the frame's own fields. */
  ghost predicate AdmitsFields(f: Filter, fr: Frame) {
    && fr.tag.tci % VID_RANGE == f.managementVlan
    && AddressesOk(fr.dst, fr.src, f)
    && KindOk(fr.kind)
    && SourceBssOk(fr.src, fr.srcBss, f)
    && DestinationBssOk(fr.dstBss, f)
    && SIV_LEN <= |fr.tail|
    && |fr.auth| <= MAX_TLVS && DistinctTags(fr.auth)
    && ScopeOk(fr.kind, fr.dstBss, R0khValue(fr.auth), f)
  }

  ghost predicate Admits(f: Filter, fr: Frame) {
    fr.Printable() && |Print(fr)| <= MAX_FRAME && AdmitsFields(f, fr)
  }

  lemma PrintHeaderFields(fr: Frame)
    requires fr.Printable()
    ensures var h := PrintHeader(fr);
            && h[..5] == RRB_SELECTOR && h[5] == fr.kind && h[6..12] == fr.srcBss && h[12..18] == fr.dstBss
            && Le16(h[18], h[19]) == |PrintTlvs(fr.auth)|
  {
    var h := PrintHeader(fr);
    assert h[18..20] == LeBytes(|PrintTlvs(fr.auth)|);
    assert h[18] == h[18..20][0] && h[19] == h[18..20][1];
  }

  /** A slice inside the first part of a concatenation. */
  lemma SliceOfFirst(x: Bytes, y: Bytes, i: nat, j: nat)
    requires i <= j <= |x|
    ensures (x + y)[i..j] == x[i..j]
  {
  }

  /** Reading the printed body back, field by field. */
  lemma PrintBodyFields(fr: Frame)
    requires fr.Printable()
    ensures var r := PrintBody(fr);
            && HeaderFits(r) && Selector(r) == RRB_SELECTOR && Kind(r) == fr.kind
            && SrcBss(r) == fr.srcBss && DstBss(r) == fr.dstBss
            && AuthEnd(r) == RRB_HEADER_LEN + |PrintTlvs(fr.auth)| <= |r|
            && r[RRB_HEADER_LEN..AuthEnd(r)] == PrintTlvs(fr.auth) && r[AuthEnd(r)..] == fr.tail
  {
    hide PrintHeader, PrintTlvs;
    var h, rest, r := PrintHeader(fr), PrintTlvs(fr.auth) + fr.tail, PrintBody(fr);
    PrintHeaderFields(fr);
    assert r == h + rest;
    assert forall k :: 0 <= k < RRB_HEADER_LEN ==> r[k] == h[k];
    SliceOfFirst(h, rest, 0, 5);
    SliceOfFirst(h, rest, 6, 12);
    SliceOfFirst(h, rest, 12, 18);
    assert r[RRB_HEADER_LEN..] == rest;
  }

  lemma PrintFields(fr: Frame)
    requires fr.Printable()
    ensures var b := Print(fr);
            && |b| >= fr.BodyStart()
            && b[..6] == fr.dst && b[6..12] == fr.src && b[fr.BodyStart()..] == PrintBody(fr)
            && Be16(b[fr.BodyStart() - 2], b[fr.BodyStart() - 1]) == ETH_P_RRB
            && (fr.tag.Inline? ==> Be16(b[12], b[13]) == TPID_8021Q && Be16(b[14], b[15]) == fr.tag.tci)
  {
    var b, n := Print(fr), fr.BodyStart();
    assert b[n - 2..n] == BeBytes(ETH_P_RRB);
    assert b[n - 2] == b[n - 2..n][0] && b[n - 1] == b[n - 2..n][1];
    if fr.tag.Inline? {
      assert b[12..14] == BeBytes(TPID_8021Q) && b[14..16] == BeBytes(fr.tag.tci);
      assert b[12] == b[12..14][0] && b[13] == b[12..14][1];
      assert b[14] == b[14..16][0] && b[15] == b[14..16][1];
    }
  }

  /** The wire format, octet by octet: where everything is, with every constant and byte order spelt out. */
  ghost predicate Layout(b: Bytes, fr: Frame) {
    var n := if fr.tag.Inline? then 18 else 14;
    var auth := PrintTlvs(fr.auth);
    && |b| == n + 20 + |auth| + |fr.tail|
    && b[..6] == fr.dst && b[6..12] == fr.src
    && (fr.tag.Inline? ==> b[12] == 0x81 && b[13] == 0x00 && b[14] as int * 256 + b[15] as int == fr.tag.tci)
    && b[n - 2] == 0x88 && b[n - 1] == 0xb7
    && b[n..n + 5] == [0x00, 0x13, 0x74, 0x00, 0x01] && b[n + 5] == fr.kind
    && b[n + 6..n + 12] == fr.srcBss && b[n + 12..n + 18] == fr.dstBss
    && b[n + 18] as int + 256 * b[n + 19] as int == |auth|
    && b[n + 20..n + 20 + |auth|] == auth && b[n + 20 + |auth|..] == fr.tail
  }

  lemma CarriedLayout(b: Bytes, v: VlanInfo, fr: Frame)
    requires Carries(b, v, fr)
    ensures Layout(b, fr)
  {
    hide PrintTlvs, PrintBody;
    var n, r := fr.BodyStart(), PrintBody(fr);
    PrintFields(fr);
    PrintBodyFields(fr);
    assert b[n - 2] == 0x88 && b[n - 1] == 0xb7;
    BodySlicesOf(b, n);
  }

  /** The layout leaves no octet open. */
  lemma LayoutDetermines(b: Bytes, c: Bytes, fr: Frame)
    requires Layout(b, fr) && Layout(c, fr)
    ensures b == c
  {
    hide PrintTlvs;
    var n := if fr.tag.Inline? then 18 else 14;
    var e := n + 20 + |PrintTlvs(fr.auth)|;
    Seam(b, c, 0, 6);
    Seam(b, c, 6, 12);
    assert forall k :: 12 <= k < n ==> b[k] == c[k];
    assert b[12..n] == c[12..n];
    Seam(b, c, 12, n);
    Seam(b, c, n, n + 5);
    assert b[n + 5..n + 6] == [fr.kind] == c[n + 5..n + 6];
    Seam(b, c, n + 5, n + 6);
    Seam(b, c, n + 6, n + 12);
    Seam(b, c, n + 12, n + 18);
    assert b[n + 18] == c[n + 18] && b[n + 19] == c[n + 19];
    assert b[n + 18..n + 20] == [b[n + 18], b[n + 19]] == c[n + 18..n + 20];
    Seam(b, c, n + 18, n + 20);
    Seam(b, c, n + 20, e);
    assert b[e..|b|] == b[e..] && c[e..|b|] == c[e..];
    Seam(b, c, e, |b|);
    assert b[..|b|] == b && c[..|b|] == c;
  }

  /** Two frames that agree up to `i` and from `i` to `j` agree up to `j`. */
  lemma Seam(b: Bytes, c: Bytes, i: nat, j: nat)
    requires i <= j <= |b| == |c| && b[..i] == c[..i] && b[i..j] == c[i..j]
    ensures b[..j] == c[..j]
  {
    assert b[..j] == b[..i] + b[i..j] && c[..j] == c[..i] + c[i..j];
  }

  /** A frame is carried exactly by the bytes laid out so, with its tag inline or in the metadata. */
  lemma CarriesIsLayout(b: Bytes, v: VlanInfo, fr: Frame)
    ensures Carries(b, v, fr) <==>
            && fr.Printable() && Layout(b, fr) && v.present == fr.tag.Offloaded?
            && (v.present ==> v.proto == 0x8100 && v.tci == fr.tag.tci)
  {
    hide Layout, Print;
    if Carries(b, v, fr) { CarriedLayout(b, v, fr); }
    if fr.Printable() && Layout(b, fr) {
      var w := VlanInfo(fr.tag.Offloaded?, TPID_8021Q, fr.tag.tci);
      CarriedLayout(Print(fr), w, fr);
      LayoutDetermines(b, Print(fr), fr);
    }
  }

  /** Slices of the body are slices of the frame. */
  lemma BodySlicesOf(b: Bytes, n: nat)
    requires n + RRB_HEADER_LEN <= |b|
    ensures var r := b[n..];
            && r[..5] == b[n..n + 5] && r[5] == b[n + 5] && r[6..12] == b[n + 6..n + 12] && r[12..18] == b[n + 12..n + 18]
            && r[18] == b[n + 18] && r[19] == b[n + 19]
    ensures forall k :: RRB_HEADER_LEN <= k <= |b| - n ==> b[n..][RRB_HEADER_LEN..k] == b[n + RRB_HEADER_LEN..n + k]
    ensures forall k :: RRB_HEADER_LEN <= k <= |b| - n ==> b[n..][k..] == b[n + k..]
  {
  }

  /** The verdict on a printed body, in terms of the frame's fields. */
  lemma PrintedBodyVerdict(fr: Frame, f: Filter)
    requires fr.Printable()
    ensures var o := BodyVerdict(fr.dst, fr.src, PrintBody(fr), f);
            && (o.Ok? ==> o.value == fr.kind)
            && (o.Ok? <==>
                  && AddressesOk(fr.dst, fr.src, f) && KindOk(fr.kind)
                  && SourceBssOk(fr.src, fr.srcBss, f) && DestinationBssOk(fr.dstBss, f)
                  && SIV_LEN <= |fr.tail| && |fr.auth| <= MAX_TLVS && DistinctTags(fr.auth)
                  && ScopeOk(fr.kind, fr.dstBss, R0khValue(fr.auth), f))
  {
    hide AddressesOk, SourceBssOk, DestinationBssOk, ScopeOk, R0khValue, PrintBody, PrintTlvs, DecodeTlvs, DistinctTags;
    PrintBodyFields(fr);
    DecodePrint(fr.auth);
  }

  /** The verdict on a printed frame is the filter's opinion of the frame. */
  lemma PrintedIsAccepted(b: Bytes, v: VlanInfo, fr: Frame, f: Filter)
    requires Carries(b, v, fr)
    ensures Judge(b, v, f).Ok? <==> Admits(f, fr)
    ensures Judge(b, v, f).Ok? ==> Judge(b, v, f).value == Match(fr.kind, fr.BodyStart())
  {
    hide BodyVerdict, AddressesOk, SourceBssOk, DestinationBssOk, ScopeOk, R0khValue, PrintBody, Print, DistinctTags;
    PrintFields(fr);
    PrintedBodyVerdict(fr, f);
  }

  /** The frame an accepted byte string is the print of. */
  ghost function FrameOf(b: Bytes, v: VlanInfo): Frame
    requires BodyOffset(v) <= |b| && AuthFits(b[BodyOffset(v)..])
    requires DecodeTlvs(AuthBlock(b[BodyOffset(v)..])).Some?
  {
    var r := b[BodyOffset(v)..];
    Frame(
      b[..6], b[6..12], if v.present then Offloaded(v.tci) else Inline(Be16(b[14], b[15])),
      Kind(r), SrcBss(r), DstBss(r), DecodeTlvs(AuthBlock(r)).value, r[AuthEnd(r)..])
  }

  /** A header is the concatenation of its fields. */
  lemma HeaderPieces(h: Bytes)
    requires |h| == RRB_HEADER_LEN
    ensures h == h[..5] + [h[5]] + h[6..12] + h[12..18] + [h[18], h[19]]
  {
  }

  lemma BodyReprints(b: Bytes, v: VlanInfo)
    requires BodyOffset(v) <= |b|
    requires var r := b[BodyOffset(v)..]; AuthFits(r) && Selector(r) == RRB_SELECTOR && LegalAuth(AuthBlock(r))
    ensures var fr := FrameOf(b, v); fr.Printable() && PrintBody(fr) == b[BodyOffset(v)..]
  {
    hide PrintTlvs, DecodeTlvs;
    var r, fr := b[BodyOffset(v)..], FrameOf(b, v);
    var h := r[..RRB_HEADER_LEN];
    PrintDecode(AuthBlock(r));
    LeBytesOf(r[18], r[19]);
    HeaderPieces(h);
    assert h[..5] == r[..5] && h[6..12] == r[6..12] && h[12..18] == r[12..18];
    assert PrintHeader(fr) == h;
    assert r == h + r[RRB_HEADER_LEN..AuthEnd(r)] + r[AuthEnd(r)..];
  }

  /** The Ethernet header in front of the body is that of a printed frame. */
  lemma HeaderReprints(b: Bytes, v: VlanInfo, tci: U16)
    requires BodyOffset(v) <= |b| && Be16(b[BodyOffset(v) - 2], b[BodyOffset(v) - 1]) == ETH_P_RRB
    requires !v.present ==> Be16(b[12], b[13]) == TPID_8021Q && Be16(b[14], b[15]) == tci
    ensures b == b[..6] + b[6..12] + PrintTag(if v.present then Offloaded(tci) else Inline(tci))
                 + BeBytes(ETH_P_RRB) + b[BodyOffset(v)..]
  {
    var n := BodyOffset(v);
    BeBytesOf(b[n - 2], b[n - 1]);
    assert b[n - 2..n] == [b[n - 2], b[n - 1]];
    if v.present {
      assert b == b[..6] + b[6..12] + [] + b[12..14] + b[14..];
    } else {
      BeBytesOf(b[12], b[13]);
      BeBytesOf(b[14], b[15]);
      assert b[12..14] == [b[12], b[13]] && b[14..16] == [b[14], b[15]];
      assert b == b[..6] + b[6..12] + (b[12..14] + b[14..16]) + b[16..18] + b[18..];
    }
  }

  lemma Reprints(b: Bytes, v: VlanInfo, f: Filter)
    requires Judge(b, v, f).Ok?
    ensures BodyOffset(v) <= |b|
    ensures var r := b[BodyOffset(v)..];
            AuthFits(r) && LegalAuth(AuthBlock(r)) && Carries(b, v, FrameOf(b, v))
  {
    BodyReprints(b, v);
    HeaderReprints(b, v, FrameOf(b, v).tag.tci);
  }

  /** `classify` accepts exactly the printed frames the filter admits, and reports their fields. */
  lemma AcceptsExactlyPrintedFrames(b: Bytes, v: VlanInfo, f: Filter, m: Match)
    ensures Judge(b, v, f) == Ok(m) <==>
            exists fr :: Carries(b, v, fr) && Admits(f, fr) && m == Match(fr.kind, fr.BodyStart())
  {
    hide Judge, Admits, Carries;
    if Judge(b, v, f) == Ok(m) {
      Reprints(b, v, f);
      PrintedIsAccepted(b, v, FrameOf(b, v), f);
    }
    forall fr | Carries(b, v, fr) && Admits(f, fr) && m == Match(fr.kind, fr.BodyStart())
      ensures Judge(b, v, f) == Ok(m)
    {
      PrintedIsAccepted(b, v, fr, f);
    }
  }

  /** Printing is injective: bytes and metadata determine the frame, accepted or not. */
  lemma PrintIsInjective(b: Bytes, v: VlanInfo, fr: Frame, fr': Frame)
    requires Carries(b, v, fr) && Carries(b, v, fr')
    ensures fr == fr'
  {
    PrintFields(fr);
    PrintFields(fr');
    PrintBodyFields(fr);
    PrintBodyFields(fr');
    DecodePrint(fr.auth);
    DecodePrint(fr'.auth);
  }

  /** Writing a frame, judging it and reading it back returns the frame. */
  lemma ReadBack(b: Bytes, v: VlanInfo, fr: Frame, f: Filter)
    requires Carries(b, v, fr) && Admits(f, fr)
    ensures Judge(b, v, f) == Ok(Match(fr.kind, fr.BodyStart()))
    ensures AuthFits(b[BodyOffset(v)..]) && DecodeTlvs(AuthBlock(b[BodyOffset(v)..])).Some?
    ensures FrameOf(b, v) == fr
  {
    PrintedIsAccepted(b, v, fr, f);
    Reprints(b, v, f);
    PrintIsInjective(b, v, fr, FrameOf(b, v));
  }
}
