/** Byte-level encodings: 16-bit integers, bounded reads and the TLV stream. */
module Wire {
  import opened Proto

  const TLV_HEADER_LEN: nat := 4
  const TLV_R0KH: U16 := 4

  function Be16(hi: Byte, lo: Byte): U16 { hi * 0x100 + lo }
  function Le16(lo: Byte, hi: Byte): U16 { hi * 0x100 + lo }
  function LeBytes(n: U16): (b: Bytes)
    ensures |b| == 2 && Le16(b[0], b[1]) == n
  {
    [n % 0x100, n / 0x100]
  }
  function BeBytes(n: U16): (b: Bytes)
    ensures |b| == 2 && Be16(b[0], b[1]) == n
  {
    [n / 0x100, n % 0x100]
  }

  /** Exactly `n` bytes at `offset`, or nothing when any of them is out of bounds. */
  function Read(b: Bytes, offset: nat, n: nat): Option<Bytes> {
    if offset + n <= |b| then Some(b[offset..offset + n]) else None
  }

  /** A read returns `x` exactly when the frame is something of length `offset`, then `x`, then the rest. */
  lemma ReadFindsThePiece(b: Bytes, offset: nat, x: Bytes)
    ensures Read(b, offset, |x|) == Some(x) <==> exists pre, post :: |pre| == offset && b == pre + x + post
  {
    if Read(b, offset, |x|) == Some(x) {
      assert b == b[..offset] + x + b[offset + |x|..];
    }
    if pre, post :| |pre| == offset && b == pre + x + post {
      assert b[offset..offset + |x|] == x;
    }
  }

  type TlvValue = v: Bytes | |v| < 0x1_0000
  datatype TlvItem = TlvItem(tag: U16, value: TlvValue)

  function PrintTlv(t: TlvItem): (b: Bytes)
    ensures |b| == TLV_HEADER_LEN + |t.value|
  {
    LeBytes(t.tag) + LeBytes(|t.value|) + t.value
  }

  /** The layout of a TLV in plain byte arithmetic: tag and size, low octet first, then the value. */
  lemma TlvLayout(t: TlvItem)
    ensures PrintTlv(t)[0] as int + 256 * PrintTlv(t)[1] as int == t.tag
    ensures PrintTlv(t)[2] as int + 256 * PrintTlv(t)[3] as int == |t.value|
    ensures PrintTlv(t)[4..] == t.value
  {
    assert PrintTlv(t)[..2] == LeBytes(t.tag) && PrintTlv(t)[2..4] == LeBytes(|t.value|);
  }

  function PrintTlvs(ts: seq<TlvItem>): Bytes {
    if ts == [] then [] else PrintTlv(ts[0]) + PrintTlvs(ts[1..])
  }

  /** The recursive reading of a TLV stream; nothing when it is truncated or overruns. */
  function DecodeTlvs(b: Bytes): Option<seq<TlvItem>> {
    if |b| == 0 then Some([])
    else if |b| < TLV_HEADER_LEN then None
    else
      var size := Le16(b[2], b[3]);
      if TLV_HEADER_LEN + size > |b| then None
      else
        var value: TlvValue := b[TLV_HEADER_LEN..TLV_HEADER_LEN + size];
        Prepend([TlvItem(Le16(b[0], b[1]), value)], DecodeTlvs(b[TLV_HEADER_LEN + size..]))
  }

  function Prepend<T>(done: seq<T>, rest: Option<seq<T>>): Option<seq<T>> {
    match rest case None => None case Some(ts) => Some(done + ts)
  }

  lemma {:induction false} PrintTlvsSnoc(ts: seq<TlvItem>, t: TlvItem)
    ensures PrintTlvs(ts + [t]) == PrintTlvs(ts) + PrintTlv(t)
  {
    if ts == [] {
      assert ([] + [t])[1..] == [];
    } else {
      assert (ts + [t])[1..] == ts[1..] + [t];
      PrintTlvsSnoc(ts[1..], t);
    }
  }

  lemma {:induction false} DecodePrint(ts: seq<TlvItem>)
    ensures DecodeTlvs(PrintTlvs(ts)) == Some(ts)
  {
    if ts != [] {
      var b, n := PrintTlvs(ts), TLV_HEADER_LEN + |ts[0].value|;
      assert b[..2] == LeBytes(ts[0].tag) && b[2..4] == LeBytes(|ts[0].value|);
      assert b[TLV_HEADER_LEN..n] == ts[0].value && b[n..] == PrintTlvs(ts[1..]);
      DecodePrint(ts[1..]);
      assert ts == [ts[0]] + ts[1..];
    }
  }

  /** Reprinting the first TLV of a stream. */
  lemma PrintFirst(b: Bytes, t: TlvItem)
    requires |b| >= TLV_HEADER_LEN + |t.value| && t.tag == Le16(b[0], b[1]) && |t.value| == Le16(b[2], b[3])
    requires t.value == b[TLV_HEADER_LEN..TLV_HEADER_LEN + |t.value|]
    ensures PrintTlv(t) == b[..TLV_HEADER_LEN + |t.value|]
  {
    LeBytesOf(b[0], b[1]);
    LeBytesOf(b[2], b[3]);
  }

  /** The first step of the decoder, taken apart. */
  lemma DecodeFirst(b: Bytes) returns (t: TlvItem, rest: Bytes)
    requires b != [] && DecodeTlvs(b).Some?
    ensures |rest| < |b| && DecodeTlvs(rest).Some? && DecodeTlvs(b).value == [t] + DecodeTlvs(rest).value
    ensures b == PrintTlv(t) + rest
  {
    hide PrintTlv;
    var n := TLV_HEADER_LEN + Le16(b[2], b[3]);
    t, rest := TlvItem(Le16(b[0], b[1]), b[TLV_HEADER_LEN..n]), b[n..];
    PrintFirst(b, t);
    assert b == b[..n] + b[n..];
  }

  lemma {:induction false} PrintDecode(b: Bytes)
    requires DecodeTlvs(b).Some?
    ensures PrintTlvs(DecodeTlvs(b).value) == b
    decreases |b|
  {
    hide PrintTlv;
    if b != [] {
      var t, rest := DecodeFirst(b);
      PrintDecode(rest);
      assert ([t] + DecodeTlvs(rest).value)[1..] == DecodeTlvs(rest).value;
    }
  }

  lemma LeBytesOf(lo: Byte, hi: Byte)
    ensures LeBytes(Le16(lo, hi)) == [lo, hi]
  {
  }

  lemma BeBytesOf(hi: Byte, lo: Byte)
    ensures BeBytes(Be16(hi, lo)) == [hi, lo]
  {
  }

  ghost predicate DistinctTags(ts: seq<TlvItem>) {
    forall i, j :: 0 <= i < j < |ts| ==> ts[i].tag != ts[j].tag
  }

  /** What the TLV walk accepts, said about the printed form alone. */
  ghost predicate PrintsLegalTlvs(b: Bytes, ts: seq<TlvItem>) {
    PrintTlvs(ts) == b && |ts| <= MAX_TLVS && DistinctTags(ts)
  }

  ghost predicate LegalAuth(b: Bytes) {
    DecodeTlvs(b).Some? && |DecodeTlvs(b).value| <= MAX_TLVS && DistinctTags(DecodeTlvs(b).value)
  }

  /** The decoder's verdict is the existence of a legal TLV list, and that list is unique. */
  lemma LegalAuthIsPrinted(b: Bytes)
    ensures LegalAuth(b) <==> exists ts :: PrintsLegalTlvs(b, ts)
    ensures forall ts :: PrintsLegalTlvs(b, ts) ==> DecodeTlvs(b) == Some(ts)
  {
    forall ts | PrintsLegalTlvs(b, ts) ensures DecodeTlvs(b) == Some(ts) {
      DecodePrint(ts);
    }
    if LegalAuth(b) {
      PrintDecode(b);
      assert PrintsLegalTlvs(b, DecodeTlvs(b).value);
    }
  }

  /** The value of the R0KH-ID element, empty when there is none. */
  ghost function R0khValue(ts: seq<TlvItem>): Bytes {
    if ts == [] then [] else if ts[0].tag == TLV_R0KH then ts[0].value else R0khValue(ts[1..])
  }

  lemma {:induction false} R0khValueAppend(ts: seq<TlvItem>, t: TlvItem)
    requires DistinctTags(ts + [t])
    ensures R0khValue(ts + [t]) == if t.tag == TLV_R0KH then t.value else R0khValue(ts)
  {
    if ts == [] {
      assert R0khValue([t][1..]) == [];
    } else {
      assert (ts + [t])[1..] == ts[1..] + [t];
      assert (ts + [t])[0].tag != (ts + [t])[|ts|].tag;
      assert DistinctTags(ts[1..] + [t]) by {
        forall i, j | 0 <= i < j < |ts| ensures (ts[1..] + [t])[i].tag != (ts[1..] + [t])[j].tag {
          assert (ts + [t])[i + 1].tag != (ts + [t])[j + 1].tag;
        }
      }
      R0khValueAppend(ts[1..], t);
    }
  }

  /** With distinct tags, `R0khValue` is the value of the one element tagged R0KH. */
  lemma {:induction false} R0khValueUnique(ts: seq<TlvItem>, k: nat)
    requires DistinctTags(ts) && k < |ts| && ts[k].tag == TLV_R0KH
    ensures R0khValue(ts) == ts[k].value
  {
    if k > 0 {
      assert ts[0].tag != ts[k].tag;
      R0khValueUnique(ts[1..], k - 1);
    }
  }

  lemma {:induction false} R0khValuePresent(ts: seq<TlvItem>)
    requires R0khValue(ts) != []
    ensures exists k :: 0 <= k < |ts| && ts[k].tag == TLV_R0KH && ts[k].value == R0khValue(ts)
  {
    if ts[0].tag != TLV_R0KH {
      R0khValuePresent(ts[1..]);
      var k :| 0 <= k < |ts[1..]| && ts[1..][k].tag == TLV_R0KH && ts[1..][k].value == R0khValue(ts);
      assert ts[k + 1].tag == TLV_R0KH;
    }
  }
}
