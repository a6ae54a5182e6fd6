/** MAC addresses as text. A text is its UTF-8 bytes, which is what the length checks count. */
module MacText {
  import opened Proto

  type Text = Bytes

  const COLON: Byte := 58
  const PLUS: Byte := 43

  /** Value of a hex digit, either case. */
  function HexValue(c: Byte): Option<Byte> {
    if 48 <= c <= 57 then Some(c - 48)
    else if 97 <= c <= 102 then Some(c - 87)
    else if 65 <= c <= 70 then Some(c - 55)
    else None
  }

  function HexDigit(n: Byte): (c: Byte)
    requires n < 16
    ensures HexValue(c) == Some(n) && c != COLON && c != PLUS
  {
    if n < 10 then n + 48 else n + 87
  }

  /** Two lowercase hex digits. */
  function Hex2(b: Byte): (t: Text)
    ensures |t| == 2 && COLON !in t
  {
    [HexDigit(b / 16), HexDigit(b % 16)]
  }

  /** `u8::from_str_radix(p, 16)` on a two-byte text: a leading plus sign is allowed. */
  function OctetOf(p: Text): Option<Byte>
    requires |p| == 2
  {
    match (HexValue(p[0]), HexValue(p[1]))
    case (Some(hi), Some(lo)) => Some(hi * 16 + lo)
    case (None, Some(lo)) => if p[0] == PLUS then Some(lo) else None
    case _ => None
  }

  lemma OctetRoundTrip(b: Byte)
    ensures OctetOf(Hex2(b)) == Some(b)
  {
  }

  function Split(s: Text): (parts: seq<Text>)
    ensures parts != []
  {
    if s == [] then [[]]
    else
      var rest := Split(s[1..]);
      if s[0] == COLON then [[]] + rest else [[s[0]] + rest[0]] + rest[1..]
  }

  function Join(parts: seq<Text>): Text
    requires parts != []
  {
    if |parts| == 1 then parts[0] else parts[0] + [COLON] + Join(parts[1..])
  }

  ghost predicate NoColons(parts: seq<Text>) { forall p :: p in parts ==> COLON !in p }

  lemma {:induction false} JoinSplit(s: Text)
    ensures Join(Split(s)) == s && NoColons(Split(s))
    decreases |s|
  {
    if s != [] {
      var rest, parts := Split(s[1..]), Split(s);
      JoinSplit(s[1..]);
      assert s == [s[0]] + s[1..];
      if s[0] == COLON {
        assert parts[1..] == rest;
      } else {
        assert parts[1..] == rest[1..];
        assert rest[0] in rest;
      }
    }
  }

  lemma {:induction false} SplitJoin(parts: seq<Text>)
    requires parts != [] && NoColons(parts)
    ensures Split(Join(parts)) == parts
    decreases |parts|, |parts[0]|
  {
    var s, p := Join(parts), parts[0];
    assert p in parts;
    if p == [] {
      if |parts| == 1 {
      } else {
        assert s[1..] == Join(parts[1..]);
        SplitJoin(parts[1..]);
        assert parts == [[]] + parts[1..];
      }
    } else {
      var shorter := [p[1..]] + parts[1..];
      assert shorter[1..] == parts[1..];
      assert s[1..] == Join(shorter);
      assert NoColons(shorter) by {
        forall q | q in shorter ensures COLON !in q { if q != p[1..] { assert q in parts; } }
      }
      SplitJoin(shorter);
      assert s[0] == p[0] && p == [p[0]] + p[1..];
      assert parts == [p] + parts[1..];
    }
  }

  ghost predicate OctetParts(parts: seq<Text>) {
    |parts| == 6 && forall i :: 0 <= i < 6 ==> |parts[i]| == 2 && OctetOf(parts[i]).Some?
  }

  ghost function MacOf(s: Text): Option<Mac> {
    var parts := Split(s);
    if OctetParts(parts) then Some(seq(6, i requires 0 <= i < 6 => OctetOf(parts[i]).value)) else None
  }

  /** Six colon-separated octets into an address. */
  method ParseMac(s: Text) returns (r: Option<Mac>)
    ensures r == MacOf(s)
  {
    var out := new Byte[6](_ => 0);
    var parts := Split(s);
    if |parts| != 6 {
      return None;
    }
    for i := 0 to 6
      invariant forall j :: 0 <= j < i ==> |parts[j]| == 2 && OctetOf(parts[j]) == Some(out[j])
    {
      if |parts[i]| != 2 {
        return None;
      }
      var octet := OctetOf(parts[i]);
      if octet.None? {
        return None;
      }
      out[i] := octet.value;
    }
    assert out[..] == MacOf(s).value;
    return Some(out[..]);
  }

  /** Six pairs of lowercase hex digits with colons between them. */
  function MacString(m: Mac): (s: Text)
    ensures |s| == 17
  {
    Hex2(m[0]) + [COLON] + Hex2(m[1]) + [COLON] + Hex2(m[2]) + [COLON]
    + Hex2(m[3]) + [COLON] + Hex2(m[4]) + [COLON] + Hex2(m[5])
  }

  /** Six two-byte parts, joined, are the seventeen-byte texts with colons in the right places. */
  lemma JoinOfPairs(parts: seq<Text>)
    requires |parts| == 6 && forall i :: 0 <= i < 6 ==> |parts[i]| == 2
    ensures Join(parts) == parts[0] + [COLON] + parts[1] + [COLON] + parts[2] + [COLON]
                           + parts[3] + [COLON] + parts[4] + [COLON] + parts[5]
  {
    assert parts[1..][1..] == parts[2..] && parts[2..][1..] == parts[3..];
    assert parts[3..][1..] == parts[4..] && parts[4..][1..] == parts[5..];
    assert Join(parts[5..]) == parts[5];
    assert Join(parts[4..]) == parts[4] + [COLON] + parts[5];
    assert Join(parts[3..]) == parts[3] + [COLON] + Join(parts[4..]);
    assert Join(parts[2..]) == parts[2] + [COLON] + Join(parts[3..]);
    assert Join(parts[1..]) == parts[1] + [COLON] + Join(parts[2..]);
  }

  lemma MacRoundTrip(m: Mac)
    ensures MacOf(MacString(m)) == Some(m)
  {
    var parts := [Hex2(m[0]), Hex2(m[1]), Hex2(m[2]), Hex2(m[3]), Hex2(m[4]), Hex2(m[5])];
    JoinOfPairs(parts);
    SplitJoin(parts);
    forall i | 0 <= i < 6 ensures OctetOf(parts[i]) == Some(m[i]) { OctetRoundTrip(m[i]); }
    assert MacOf(MacString(m)).value == m;
  }

  predicate IsHex(c: Byte) { HexValue(c).Some? }

  /** Cell `i` of a seventeen-byte text is an octet, followed by a colon unless it is the last. */
  predicate CellOk(s: Text, i: nat)
    requires |s| == 17 && i < 6
  {
    (IsHex(s[3 * i]) || s[3 * i] == PLUS) && IsHex(s[3 * i + 1]) && (i < 5 ==> s[3 * i + 2] == COLON)
  }

  /** The accepted texts, character by character. */
  ghost predicate MacShape(s: Text) { |s| == 17 && forall i :: 0 <= i < 6 ==> CellOk(s, i) }

  /** The six two-byte cells of a seventeen-byte text. */
  function Cells(s: Text): (parts: seq<Text>)
    requires |s| == 17
    ensures |parts| == 6 && forall i :: 0 <= i < 6 ==> parts[i] == s[3 * i..3 * i + 2]
  {
    [s[0..2], s[3..5], s[6..8], s[9..11], s[12..14], s[15..17]]
  }

  /** The parser's language: pairs of hex digits, where a plus sign may stand for a leading zero. */
  lemma MacLanguage(s: Text)
    ensures MacOf(s).Some? <==> MacShape(s)
    ensures MacOf(s).Some? ==> Split(s) == Cells(s)
  {
    if MacOf(s).Some? { AcceptedHasShape(s); }
    if MacShape(s) { ShapeIsAccepted(s); }
  }

  lemma AcceptedHasShape(s: Text)
    requires OctetParts(Split(s))
    ensures MacShape(s) && Split(s) == Cells(s)
  {
    var parts := Split(s);
    JoinSplit(s);
    JoinOfPairs(parts);
    forall i | 0 <= i < 6 ensures parts[i] == s[3 * i..3 * i + 2] && CellOk(s, i) {
      CellAt(parts, i);
      assert OctetOf(parts[i]).Some? && parts[i][0] == s[3 * i] && parts[i][1] == s[3 * i + 1];
    }
    assert parts == Cells(s);
  }

  lemma ShapeIsAccepted(s: Text)
    requires MacShape(s)
    ensures OctetParts(Split(s))
  {
    var parts := Cells(s);
    forall i | 0 <= i < 6 ensures OctetOf(parts[i]).Some? && COLON !in parts[i] {
      assert CellOk(s, i);
      assert parts[i] == [s[3 * i], s[3 * i + 1]];
    }
    CellsJoin(s);
    SplitJoin(parts);
  }

  lemma CellsJoin(s: Text)
    requires MacShape(s)
    ensures Join(Cells(s)) == s
  {
    JoinOfPairs(Cells(s));
    assert CellOk(s, 0) && CellOk(s, 1) && CellOk(s, 2) && CellOk(s, 3) && CellOk(s, 4);
  }

  lemma CellAt(parts: seq<Text>, i: nat)
    requires |parts| == 6 && i < 6 && forall k :: 0 <= k < 6 ==> |parts[k]| == 2
    ensures |Join(parts)| == 17 && Join(parts)[3 * i..3 * i + 2] == parts[i]
    ensures i < 5 ==> Join(parts)[3 * i + 2] == COLON
  {
    JoinOfPairs(parts);
  }

  function LowerByte(c: Byte): Byte { if 65 <= c <= 90 then c + 32 else c }

  function Lower(s: Text): (t: Text)
    ensures |t| == |s| && forall i :: 0 <= i < |s| ==> t[i] == LowerByte(s[i])
  {
    seq(|s|, i requires 0 <= i < |s| => LowerByte(s[i]))
  }

  /** Printing a parsed address gives back its lowercase text exactly when no plus sign was used. */
  lemma PrintIsLowercase(s: Text)
    requires MacOf(s).Some?
    ensures MacString(MacOf(s).value) == Lower(s) <==> PLUS !in s
  {
    MacLanguage(s);
    var t := MacString(MacOf(s).value);
    forall i | 0 <= i < 6
      ensures t[3 * i..3 * i + 2] == Lower(s)[3 * i..3 * i + 2] <==> s[3 * i] != PLUS
      ensures i < 5 ==> t[3 * i + 2] == Lower(s)[3 * i + 2]
    {
      PrintedCell(MacOf(s).value, i);
      assert CellOk(s, i);
      CellLower(s, i, MacOf(s).value[i]);
    }
    if PLUS !in s {
      CellsMakeText(t, Lower(s));
    } else {
      PlusLeadsCell(s);
    }
  }

  lemma PrintedCell(m: Mac, i: nat)
    requires i < 6
    ensures MacString(m)[3 * i..3 * i + 2] == Hex2(m[i])
    ensures i < 5 ==> MacString(m)[3 * i + 2] == COLON
  {
    var hexes := [Hex2(m[0]), Hex2(m[1]), Hex2(m[2]), Hex2(m[3]), Hex2(m[4]), Hex2(m[5])];
    JoinOfPairs(hexes);
    CellAt(hexes, i);
  }

  lemma PlusLeadsCell(s: Text)
    requires MacShape(s) && PLUS in s
    ensures exists i :: 0 <= i < 6 && s[3 * i] == PLUS
  {
    var k :| 0 <= k < 17 && s[k] == PLUS;
    assert CellOk(s, k / 3);
    assert k == 3 * (k / 3) + k % 3;
  }

  lemma CellLower(s: Text, i: nat, b: Byte)
    requires |s| == 17 && i < 6 && CellOk(s, i) && OctetOf(s[3 * i..3 * i + 2]) == Some(b)
    ensures Hex2(b) == Lower(s)[3 * i..3 * i + 2] <==> s[3 * i] != PLUS
  {
    assert Lower(s)[3 * i..3 * i + 2] == [LowerByte(s[3 * i]), LowerByte(s[3 * i + 1])];
    LowerPair(s[3 * i], s[3 * i + 1], b);
  }

  lemma LowerPair(x: Byte, y: Byte, b: Byte)
    requires (IsHex(x) || x == PLUS) && IsHex(y) && OctetOf([x, y]) == Some(b)
    ensures Hex2(b) == [LowerByte(x), LowerByte(y)] <==> x != PLUS
  {
    LowerDigit(y);
    if x != PLUS {
      LowerDigit(x);
      assert b / 16 == HexValue(x).value && b % 16 == HexValue(y).value;
    }
  }

  lemma LowerDigit(c: Byte)
    requires IsHex(c)
    ensures HexValue(c).value < 16 && HexDigit(HexValue(c).value) == LowerByte(c)
  {
  }

  lemma CellsMakeText(t: Text, u: Text)
    requires |t| == |u| == 17
    requires forall i :: 0 <= i < 6 ==> t[3 * i..3 * i + 2] == u[3 * i..3 * i + 2]
    requires forall i :: 0 <= i < 5 ==> t[3 * i + 2] == u[3 * i + 2]
    ensures t == u
  {
    forall k | 0 <= k < 17 ensures t[k] == u[k] {
      var i := k / 3;
      if k % 3 == 2 {
        assert t[3 * i + 2] == u[3 * i + 2];
      } else {
        assert t[3 * i..3 * i + 2][k % 3] == u[3 * i..3 * i + 2][k % 3];
      }
    }
  }

  /** "+f:00:00:00:00:00", with a plus sign where a digit should be. */
  function PlusText(): (s: Text)
    ensures |s| == 17 && s[0] == PLUS
  {
    [PLUS, 102, COLON, 48, 48, COLON, 48, 48, COLON, 48, 48, COLON, 48, 48, COLON, 48, 48]
  }

  /** Not every accepted text is two hex digits per octet, and not every one survives a round trip. */
  lemma PlusIsAccepted()
    ensures MacOf(PlusText()) == Some([15, 0, 0, 0, 0, 0])
    ensures MacString([15, 0, 0, 0, 0, 0]) != Lower(PlusText())
  {
    hide Split, Join, MacString, Lower, Cells;
    PlusTextSplits();
    var parts := PlusParts();
    assert OctetOf(parts[0]) == Some(15);
    assert OctetParts(parts);
    assert MacOf(PlusText()).value == [15, 0, 0, 0, 0, 0];
    PrintIsLowercase(PlusText());
  }

  function PlusParts(): seq<Text> { [[PLUS, 102], [48, 48], [48, 48], [48, 48], [48, 48], [48, 48]] }

  lemma PlusTextSplits()
    ensures Split(PlusText()) == PlusParts()
  {
    hide Split, Join;
    var parts := PlusParts();
    JoinOfPairs(parts);
    assert parts[0] + [COLON] + parts[1] + [COLON] + parts[2] + [COLON]
           + parts[3] + [COLON] + parts[4] + [COLON] + parts[5] == PlusText();
    SplitJoin(parts);
  }

  /** A BSSID in hex without colons: the default R0KH-ID. */
  function HexOf(m: Mac): (t: Text)
    ensures |t| == 12 && forall c :: c in t ==> c < 0x80
  {
    Hex2(m[0]) + Hex2(m[1]) + Hex2(m[2]) + Hex2(m[3]) + Hex2(m[4]) + Hex2(m[5])
  }

  lemma HexPair(m: Mac, i: nat)
    requires i < 6
    ensures HexOf(m)[2 * i..2 * i + 2] == Hex2(m[i])
  {
  }

  lemma HexOfIsInjective(m: Mac, n: Mac)
    requires HexOf(m) == HexOf(n)
    ensures m == n
  {
    forall i | 0 <= i < 6 ensures m[i] == n[i] {
      HexPair(m, i);
      HexPair(n, i);
      OctetRoundTrip(m[i]);
      OctetRoundTrip(n[i]);
    }
  }

  /** The default R0KH-ID is the printed address without its colons. */
  lemma HexOfIsMacStringWithoutColons(m: Mac, i: nat)
    requires i < 6
    ensures HexOf(m)[2 * i..2 * i + 2] == MacString(m)[3 * i..3 * i + 2]
  {
    HexPair(m, i);
    PrintedCell(m, i);
  }

  /** The text with a zero for every plus sign. */
  function ZeroForPlus(s: Text): (t: Text)
    ensures |t| == |s| && forall i :: 0 <= i < |s| ==> t[i] == if s[i] == PLUS then 48 else s[i]
  {
    seq(|s|, i requires 0 <= i < |s| => if s[i] == PLUS then 48 else s[i])
  }

  /** A plus sign means a leading zero: replacing it by one never changes the address. */
  lemma PlusReadsAsZero(s: Text)
    requires MacOf(s).Some?
    ensures MacOf(ZeroForPlus(s)) == MacOf(s)
  {
    hide Split, Join;
    var t := ZeroForPlus(s);
    MacLanguage(s);
    forall i | 0 <= i < 6 ensures CellOk(t, i) { assert CellOk(s, i); }
    MacLanguage(t);
    forall i | 0 <= i < 6 ensures OctetOf(Cells(t)[i]) == OctetOf(Cells(s)[i]) {
      assert CellOk(s, i);
      assert Cells(t)[i] == [t[3 * i], t[3 * i + 1]] && Cells(s)[i] == [s[3 * i], s[3 * i + 1]];
    }
    assert MacOf(t).value == MacOf(s).value;
  }
}
