/** UUIDs as bytes, as fields and as text (section 4 of RFC 9562). */
module UuidModel {
  import opened Words
  import opened Text

  datatype Uuid = Uuid(timeLow: u32, timeMid: u16, timeHi: u16, clockSeq: u16, node: seq<byte>)

  predicate Valid(u: Uuid) {
    |u.node| == 6
  }

  // ---------------------------------------------------------------- fields and bytes

  function Unpack(bs: seq<byte>): (u: Uuid)
    requires |bs| == 16
    ensures Valid(u)
  {
    var b: seq<int> := bs;
    Uuid(((b[0] * 0x100 + b[1]) * 0x100 + b[2]) * 0x100 + b[3], b[4] * 0x100 + b[5], b[6] * 0x100 + b[7],
         b[8] * 0x100 + b[9], bs[10..])
  }

  function Pack(u: Uuid): (bs: seq<byte>)
    requires Valid(u)
    ensures |bs| == 16
  {
    [u.timeLow / 0x100_0000, u.timeLow / 0x1_0000 % 0x100, u.timeLow / 0x100 % 0x100, u.timeLow % 0x100,
     u.timeMid / 0x100, u.timeMid % 0x100, u.timeHi / 0x100, u.timeHi % 0x100,
     u.clockSeq / 0x100, u.clockSeq % 0x100] + u.node
  }

  lemma PackUnpack(bs: seq<byte>)
    requires |bs| == 16
    ensures Pack(Unpack(bs)) == bs
  {
    FourBytes(bs[0], bs[1], bs[2], bs[3]);
    BytePair(bs[4], bs[5]);
    BytePair(bs[6], bs[7]);
    BytePair(bs[8], bs[9]);
    var p := Pack(Unpack(bs));
    assert p[10..] == bs[10..];
    assert p[..10] == bs[..10];
    assert p == p[..10] + p[10..] && bs == bs[..10] + bs[10..];
  }

  lemma BytePair(a: int, b: int)
    requires 0 <= b < 0x100
    ensures (a * 0x100 + b) / 0x100 == a && (a * 0x100 + b) % 0x100 == b
  {
  }

  lemma FourBytes(a: int, b: int, c: int, d: int)
    requires 0 <= a < 0x100 && 0 <= b < 0x100 && 0 <= c < 0x100 && 0 <= d < 0x100
    ensures var t := ((a * 0x100 + b) * 0x100 + c) * 0x100 + d;
            && t / 0x100_0000 == a && t / 0x1_0000 % 0x100 == b && t / 0x100 % 0x100 == c && t % 0x100 == d
  {
    var t := ((a * 0x100 + b) * 0x100 + c) * 0x100 + d;
    assert t / 0x100 == (a * 0x100 + b) * 0x100 + c;
    assert t / 0x1_0000 == a * 0x100 + b;
  }

  lemma UnpackPack(u: Uuid)
    requires Valid(u)
    ensures Unpack(Pack(u)) == u
  {
    var t := u.timeLow;
    assert t / 0x1_0000 == t / 0x100 / 0x100 && t / 0x100_0000 == t / 0x1_0000 / 0x100;
  }

  // ---------------------------------------------------------------- text

  function HexBytes(bs: seq<byte>, b: Base): (r: string)
    requires b != Decimal
    ensures |r| == 2 * |bs|
  {
    if bs == [] then "" else Hex(bs[0], 2, b) + HexBytes(bs[1..], b)
  }

  function Unparse(u: Uuid, b: Base): (r: string)
    requires Valid(u) && b != Decimal
    ensures |r| == 36
  {
    Dashed(Hex(u.timeLow, 8, b), Hex(u.timeMid, 4, b), Hex(u.timeHi, 4, b),
           HexBytes([u.clockSeq / 0x100, u.clockSeq % 0x100], b), HexBytes(u.node, b))
  }

  /** The five groups of the text. */
  function Dashed(s1: string, s2: string, s3: string, s4: string, s5: string): string {
    s1 + "-" + s2 + "-" + s3 + "-" + s4 + "-" + s5
  }

  lemma GroupsOfDashed(s1: string, s2: string, s3: string, s4: string, s5: string)
    requires |s1| == 8 && |s2| == |s3| == |s4| == 4 && |s5| == 12
    ensures var s := Dashed(s1, s2, s3, s4, s5);
            && |s| == 36 && s[8] == s[13] == s[18] == s[23] == '-'
            && s[0..8] == s1 && s[9..13] == s2 && s[14..18] == s3 && s[19..23] == s4 && s[24..] == s5
  {
  }

  lemma DashedOfGroups(s: string)
    requires |s| == 36 && s[8] == s[13] == s[18] == s[23] == '-'
    ensures s == Dashed(s[0..8], s[9..13], s[14..18], s[19..23], s[24..])
  {
  }

  predicate IsDash(i: int) {
    i == 8 || i == 13 || i == 18 || i == 23
  }

  predicate Accepted(s: string) {
    |s| == 36 && forall i :: 0 <= i < 36 ==> if IsDash(i) then s[i] == '-' else IsXDigit(s[i])
  }

  function Parse(s: string): (u: Uuid)
    requires Accepted(s)
    ensures Valid(u)
  {
    Fields(s[0..8], s[9..13], s[14..18], s[19..23], s[24..])
  }

  function Fields(s1: string, s2: string, s3: string, s4: string, s5: string): (u: Uuid)
    requires AllXDigits(s1) && AllXDigits(s2) && AllXDigits(s3) && AllXDigits(s4) && AllXDigits(s5)
    requires |s1| == 8 && |s2| == |s3| == |s4| == 4 && |s5| == 12
    ensures Valid(u)
  {
    FieldText(s1, HexLower);
    FieldText(s2, HexLower);
    FieldText(s3, HexLower);
    FieldText(s4, HexLower);
    Uuid(ValueOf(s1, HexLower), ValueOf(s2, HexLower), ValueOf(s3, HexLower), ValueOf(s4, HexLower), ParseBytes(s5))
  }

  function ParseBytes(s: string): (bs: seq<byte>)
    requires AllXDigits(s) && |s| % 2 == 0
    ensures |bs| == |s| / 2
  {
    if s == "" then [] else
      FieldText(s[..2], HexLower);
      [ValueOf(s[..2], HexLower)] + ParseBytes(s[2..])
  }

  // ---------------------------------------------------------------- round trips

  lemma {:induction false} CaseDoesNotMatter(s: string, b: Base)
    requires AllXDigits(s) && b != Decimal
    ensures ValueOf(s, b) == ValueOf(s, HexLower)
  {
    if s == "" {
    } else {
      CaseDoesNotMatter(s[..|s| - 1], b);
    }
  }

  /** Sizes in digits of the numbers in the text: a byte, a 16-bit and a 32-bit number. */
  function Bound(n: nat): nat
    requires n == 2 || n == 4 || n == 8
  {
    if n == 2 then 0x100 else if n == 4 then 0x1_0000 else WORD
  }

  /** Reading a fixed-width field back. */
  lemma FieldRoundTrip(v: nat, n: nat, b: Base)
    requires b != Decimal && (n == 2 || n == 4 || n == 8) && v < Bound(n)
    ensures AllXDigits(Hex(v, n, b)) && ValueOf(Hex(v, n, b), HexLower) == v
  {
    HexPower(b);
    HexValue(v, n, b);
    CaseDoesNotMatter(Hex(v, n, b), b);
  }

  /** Writing a field that was read gives its digits back. */
  lemma FieldText(s: string, b: Base)
    requires AllXDigits(s) && b != Decimal && (|s| == 2 || |s| == 4 || |s| == 8)
    ensures ValueOf(s, HexLower) < Bound(|s|) && Hex(ValueOf(s, HexLower), |s|, b) == Cased(s, b)
  {
    HexPower(HexLower);
    HexOfValue(s, b);
    HexOfValue(s, HexLower);
    CaseDoesNotMatter(s, b);
  }

  lemma {:induction false} BytesRoundTrip(bs: seq<byte>, b: Base)
    requires b != Decimal
    ensures AllXDigits(HexBytes(bs, b)) && ParseBytes(HexBytes(bs, b)) == bs
  {
    if bs == [] {
    } else {
      FieldRoundTrip(bs[0], 2, b);
      BytesRoundTrip(bs[1..], b);
      PairAndRest(Hex(bs[0], 2, b), HexBytes(bs[1..], b));
      assert [bs[0]] + bs[1..] == bs;
    }
  }

  lemma PairAndRest(s: string, t: string)
    requires |s| == 2 && |t| % 2 == 0 && AllXDigits(s) && AllXDigits(t)
    ensures ValueOf(s, HexLower) < 0x100
    ensures AllXDigits(s + t) && ParseBytes(s + t) == [ValueOf(s, HexLower)] + ParseBytes(t)
  {
    FieldText(s, HexLower);
    assert (s + t)[..2] == s && (s + t)[2..] == t;
  }

  lemma {:induction false} BytesText(s: string, b: Base)
    requires AllXDigits(s) && |s| % 2 == 0 && b != Decimal
    ensures HexBytes(ParseBytes(s), b) == Cased(s, b)
    decreases |s|
  {
    if s == "" {
    } else {
      var p, t := s[..2], s[2..];
      assert s == p + t;
      BytesText(t, b);
      PairText(p, t, b);
    }
  }

  lemma PairText(p: string, t: string, b: Base)
    requires AllXDigits(p) && |p| == 2 && AllXDigits(t) && |t| % 2 == 0 && b != Decimal
    requires HexBytes(ParseBytes(t), b) == Cased(t, b)
    ensures AllXDigits(p + t) && HexBytes(ParseBytes(p + t), b) == Cased(p + t, b)
  {
    FieldText(p, b);
    PairAndRest(p, t);
    HexBytesCons(ValueOf(p, HexLower), ParseBytes(t), b);
    RecasedParts(p, t, b);
  }

  lemma HexBytesCons(v: byte, bs: seq<byte>, b: Base)
    requires b != Decimal
    ensures HexBytes([v] + bs, b) == Hex(v, 2, b) + HexBytes(bs, b)
  {
    assert ([v] + bs)[1..] == bs;
  }

  lemma RecasedParts(s: string, t: string, b: Base)
    requires AllXDigits(s) && AllXDigits(t)
    ensures AllXDigits(s + t) && Cased(s + t, b) == Cased(s, b) + Cased(t, b)
  {
  }

  lemma TwoDigits(v: nat)
    ensures v / 16 / 16 == v / 0x100 && v % 0x100 / 16 % 16 == v / 16 % 16 && v % 0x100 % 16 == v % 16
  {
  }

  lemma HexOfByte(v: nat, b: Base)
    requires b != Decimal
    ensures Hex(v, 2, b) == [DigitChar(v / 16 % 16, b), DigitChar(v % 16, b)]
  {
    assert Hex(v / 16, 1, b) == Hex(v / 16 / 16, 0, b) + [DigitChar(v / 16 % 16, b)];
  }

  lemma HexSplit(v: nat, n: nat, b: Base)
    requires b != Decimal
    ensures Hex(v, n + 2, b) == Hex(v / 0x100, n, b) + Hex(v % 0x100, 2, b)
  {
    TwoDigits(v);
    HexOfByte(v % 0x100, b);
    var h, c1, c0 := Hex(v / 0x100, n, b), DigitChar(v / 16 % 16, b), DigitChar(v % 16, b);
    assert Hex(v / 16, n + 1, b) == h + [c1];
    assert h + [c1] + [c0] == h + [c1, c0];
  }

  lemma TwoBytes(v: u16, b: Base)
    requires b != Decimal
    ensures HexBytes([v / 0x100, v % 0x100], b) == Hex(v, 4, b)
  {
    HexSplit(v, 2, b);
    HexBytesCons(v / 0x100, [v % 0x100], b);
    HexBytesCons(v % 0x100, [], b);
    assert [v / 0x100, v % 0x100] == [v / 0x100] + [v % 0x100] && [v % 0x100] == [v % 0x100] + [];
    assert HexBytes([v % 0x100], b) == Hex(v % 0x100, 2, b) + "" == Hex(v % 0x100, 2, b);
  }

  /** Parsing a text made of five groups. */
  lemma ParseGroups(s1: string, s2: string, s3: string, s4: string, s5: string)
    requires |s1| == 8 && |s2| == |s3| == |s4| == 4 && |s5| == 12
    requires AllXDigits(s1) && AllXDigits(s2) && AllXDigits(s3) && AllXDigits(s4) && AllXDigits(s5)
    ensures Accepted(Dashed(s1, s2, s3, s4, s5))
    ensures Parse(Dashed(s1, s2, s3, s4, s5)) == Fields(s1, s2, s3, s4, s5)
  {
    GroupsOfDashed(s1, s2, s3, s4, s5);
    AcceptedByParts(Dashed(s1, s2, s3, s4, s5));
  }

  lemma FieldsOfGroups(u: Uuid, s1: string, s2: string, s3: string, s4: string, s5: string, b: Base)
    requires Valid(u) && b != Decimal && |s1| == 8 && |s2| == |s3| == |s4| == 4 && |s5| == 12
    requires s1 == Hex(u.timeLow, 8, b) && s2 == Hex(u.timeMid, 4, b) && s3 == Hex(u.timeHi, 4, b)
    requires s4 == Hex(u.clockSeq, 4, b) && s5 == HexBytes(u.node, b)
    ensures AllXDigits(s1) && AllXDigits(s2) && AllXDigits(s3) && AllXDigits(s4) && AllXDigits(s5)
    ensures Fields(s1, s2, s3, s4, s5) == u
  {
    FieldRoundTrip(u.timeLow, 8, b);
    FieldRoundTrip(u.timeMid, 4, b);
    FieldRoundTrip(u.timeHi, 4, b);
    FieldRoundTrip(u.clockSeq, 4, b);
    BytesRoundTrip(u.node, b);
  }

  /** Parsing what was unparsed gives the UUID back, in either case of the letters. */
  lemma ParseUnparse(u: Uuid, b: Base)
    requires Valid(u) && b != Decimal
    ensures Accepted(Unparse(u, b)) && Parse(Unparse(u, b)) == u
  {
    var s1, s2, s3, s4, s5 :=
      Hex(u.timeLow, 8, b), Hex(u.timeMid, 4, b), Hex(u.timeHi, 4, b), Hex(u.clockSeq, 4, b), HexBytes(u.node, b);
    TwoBytes(u.clockSeq, b);
    FieldsOfGroups(u, s1, s2, s3, s4, s5, b);
    ParseGroups(s1, s2, s3, s4, s5);
  }

  lemma AcceptedByParts(s: string)
    requires |s| == 36 && s[8] == s[13] == s[18] == s[23] == '-'
    requires AllXDigits(s[0..8]) && AllXDigits(s[9..13]) && AllXDigits(s[14..18])
    requires AllXDigits(s[19..23]) && AllXDigits(s[24..])
    ensures Accepted(s)
  {
    forall i | 0 <= i < 36 ensures if IsDash(i) then s[i] == '-' else IsXDigit(s[i]) {
      if i < 8 {
        assert s[0..8][i] == s[i];
      } else if 8 < i < 13 {
        assert s[9..13][i - 9] == s[i];
      } else if 13 < i < 18 {
        assert s[14..18][i - 14] == s[i];
      } else if 18 < i < 23 {
        assert s[19..23][i - 19] == s[i];
      } else if 23 < i {
        assert s[24..][i - 24] == s[i];
      }
    }
  }

  /** The text in the chosen case, dashes kept. */
  function RecasedText(s: string, b: Base): string
    requires Accepted(s)
  {
    seq(36, i requires 0 <= i < 36 => if IsDash(i) then '-' else InCase(s[i], b))
  }

  lemma RecasedByParts(s: string, b: Base)
    requires Accepted(s)
    ensures RecasedText(s, b)
         == Dashed(Cased(s[0..8], b), Cased(s[9..13], b), Cased(s[14..18], b),
                   Cased(s[19..23], b), Cased(s[24..], b))
  {
    var r := RecasedText(s, b);
    DashedOfGroups(r);
    RecasedGroup(s, b, 0, 8);
    RecasedGroup(s, b, 9, 13);
    RecasedGroup(s, b, 14, 18);
    RecasedGroup(s, b, 19, 23);
    RecasedGroup(s, b, 24, 36);
    assert s[24..36] == s[24..] && r[24..36] == r[24..];
  }

  lemma RecasedGroup(s: string, b: Base, i: nat, j: nat)
    requires Accepted(s) && i <= j <= 36 && forall k :: i <= k < j ==> !IsDash(k)
    ensures AllXDigits(s[i..j]) && RecasedText(s, b)[i..j] == Cased(s[i..j], b)
  {
  }

  /** Unparsing an accepted text gives that text in the chosen case. */
  lemma UnparseParse(s: string, b: Base)
    requires Accepted(s) && b != Decimal
    ensures Unparse(Parse(s), b) == RecasedText(s, b)
  {
    RecasedByParts(s, b);
    UnparseFields(s[0..8], s[9..13], s[14..18], s[19..23], s[24..], b);
  }

  lemma UnparseFields(s1: string, s2: string, s3: string, s4: string, s5: string, b: Base)
    requires |s1| == 8 && |s2| == |s3| == |s4| == 4 && |s5| == 12 && b != Decimal
    requires AllXDigits(s1) && AllXDigits(s2) && AllXDigits(s3) && AllXDigits(s4) && AllXDigits(s5)
    ensures Unparse(Fields(s1, s2, s3, s4, s5), b)
         == Dashed(Cased(s1, b), Cased(s2, b), Cased(s3, b), Cased(s4, b), Cased(s5, b))
  {
    FieldText(s1, b);
    FieldText(s2, b);
    FieldText(s3, b);
    FieldText(s4, b);
    TwoBytes(ValueOf(s4, HexLower), b);
    BytesText(s5, b);
  }

  /** The two round trips on the 16-byte form. */
  lemma BytesTextRoundTrip(bs: seq<byte>, b: Base)
    requires |bs| == 16 && b != Decimal
    ensures Accepted(Unparse(Unpack(bs), b)) && Pack(Parse(Unparse(Unpack(bs), b))) == bs
  {
    ParseUnparse(Unpack(bs), b);
    PackUnpack(bs);
  }

  // ---------------------------------------------------------------- the text is the bytes in order

  /** Two digits a byte, and dashes behind the fourth, sixth, eighth and tenth. */
  function TextOfBytes(bs: seq<byte>, b: Base): string
    requires |bs| == 16 && b != Decimal
  {
    Dashed(HexBytes(bs[0..4], b), HexBytes(bs[4..6], b), HexBytes(bs[6..8], b), HexBytes(bs[8..10], b),
           HexBytes(bs[10..], b))
  }

  /** The big-endian number of some bytes. */
  function BigEndian(bs: seq<byte>): nat {
    if bs == [] then 0 else BigEndian(bs[..|bs| - 1]) * 0x100 + bs[|bs| - 1]
  }

  lemma LastByteText(high: nat, z: byte, n: nat, b: Base)
    requires b != Decimal
    ensures Hex(high * 0x100 + z, n + 2, b) == Hex(high, n, b) + Hex(z, 2, b)
  {
    BytePair(high, z);
    HexSplit(high * 0x100 + z, n, b);
  }

  lemma {:induction false} BigEndianText(bs: seq<byte>, b: Base)
    requires b != Decimal
    ensures Hex(BigEndian(bs), 2 * |bs|, b) == HexBytes(bs, b)
    decreases |bs|
  {
    if bs == [] {
    } else {
      var front, z := bs[..|bs| - 1], bs[|bs| - 1];
      assert front + [z] == bs;
      BigEndianText(front, b);
      OneMoreByte(front, z, BigEndian(front), b);
    }
  }

  lemma OneMoreByte(front: seq<byte>, z: byte, high: nat, b: Base)
    requires b != Decimal && Hex(high, 2 * |front|, b) == HexBytes(front, b)
    ensures Hex(high * 0x100 + z, 2 * |front| + 2, b) == HexBytes(front + [z], b)
  {
    LastByteText(high, z, 2 * |front|, b);
    LastOfBytes(front, z, b);
  }

  lemma LastOfBytes(front: seq<byte>, z: byte, b: Base)
    requires b != Decimal
    ensures HexBytes(front + [z], b) == HexBytes(front, b) + Hex(z, 2, b)
  {
    HexBytesAppend(front, [z], b);
    HexBytesCons(z, [], b);
    assert [z] + [] == [z] && Hex(z, 2, b) + HexBytes([], b) == Hex(z, 2, b);
  }

  lemma {:induction false} HexBytesAppend(bs: seq<byte>, cs: seq<byte>, b: Base)
    requires b != Decimal
    ensures HexBytes(bs + cs, b) == HexBytes(bs, b) + HexBytes(cs, b)
  {
    if bs == [] {
      assert bs + cs == cs;
    } else {
      assert (bs + cs)[1..] == bs[1..] + cs;
      HexBytesAppend(bs[1..], cs, b);
    }
  }

  lemma PairNumber(bs: seq<byte>, i: nat)
    requires i + 2 <= |bs|
    ensures BigEndian(bs[i..i + 2]) == bs[i] as int * 0x100 + bs[i + 1] as int
  {
    var t := bs[i..i + 2];
    assert t[..1] == [bs[i]] && [bs[i]][..0] == [];
    assert BigEndian([bs[i]]) == bs[i];
  }

  /** The fields are the big-endian numbers of their bytes. */
  lemma FieldsOfBytes(bs: seq<byte>)
    requires |bs| == 16
    ensures var u := Unpack(bs);
            && u.timeLow == BigEndian(bs[0..4]) && u.timeMid == BigEndian(bs[4..6]) && u.timeHi == BigEndian(bs[6..8])
            && u.clockSeq == BigEndian(bs[8..10]) && u.node == bs[10..]
  {
    PairNumber(bs, 0);
    PairNumber(bs, 4);
    PairNumber(bs, 6);
    PairNumber(bs, 8);
    assert bs[0..4][..3][..2] == bs[0..2];
  }

  lemma FirstGroups(bs: seq<byte>, b: Base)
    requires |bs| == 16 && b != Decimal
    ensures var u := Unpack(bs);
            && Hex(u.timeLow, 8, b) == HexBytes(bs[0..4], b)
            && Hex(u.timeMid, 4, b) == HexBytes(bs[4..6], b)
            && Hex(u.timeHi, 4, b) == HexBytes(bs[6..8], b)
  {
    FieldsOfBytes(bs);
    BigEndianText(bs[0..4], b);
    BigEndianText(bs[4..6], b);
    BigEndianText(bs[6..8], b);
  }

  lemma LastGroups(bs: seq<byte>)
    requires |bs| == 16
    ensures var u := Unpack(bs); [u.clockSeq / 0x100, u.clockSeq % 0x100] == bs[8..10] && u.node == bs[10..]
  {
    BytePair(bs[8], bs[9]);
  }

  /** The text of a 16-byte UUID. */
  lemma UnparseBytes(bs: seq<byte>, b: Base)
    requires |bs| == 16 && b != Decimal
    ensures Unparse(Unpack(bs), b) == TextOfBytes(bs, b)
  {
    FirstGroups(bs, b);
    LastGroups(bs);
  }

  /** The bytes of an accepted text: written out they give that text, in the case of the letters chosen. */
  lemma ParseToBytes(s: string, b: Base)
    requires Accepted(s) && b != Decimal
    ensures TextOfBytes(Pack(Parse(s)), b) == RecasedText(s, b)
  {
    UnpackPack(Parse(s));
    UnparseBytes(Pack(Parse(s)), b);
    UnparseParse(s, b);
  }

  /** Where byte `k` stands in the text. */
  function ByteAt(k: nat): nat {
    2 * k + (if k >= 4 then 1 else 0) + (if k >= 6 then 1 else 0) + (if k >= 8 then 1 else 0) + if k >= 10 then 1 else 0
  }

  lemma {:induction false} HexBytesAt(bs: seq<byte>, k: nat, b: Base)
    requires k < |bs| && b != Decimal
    ensures HexBytes(bs, b)[2 * k..2 * k + 2] == Hex(bs[k], 2, b)
    decreases k
  {
    var t := HexBytes(bs[1..], b);
    if k > 0 {
      HexBytesAt(bs[1..], k - 1, b);
      SliceBehind(Hex(bs[0], 2, b), t, 2 * (k - 1), 2 * (k - 1) + 2);
    }
  }

  /** The digits of the bytes from `lo` to `hi` stand at `i`. */
  predicate GroupAt(s: string, i: nat, bs: seq<byte>, lo: nat, hi: nat, b: Base)
    requires lo <= hi <= |bs| && b != Decimal
  {
    i + 2 * (hi - lo) <= |s| && s[i..i + 2 * (hi - lo)] == HexBytes(bs[lo..hi], b)
  }

  lemma TextOfBytesAt(bs: seq<byte>, k: nat, b: Base)
    requires |bs| == 16 && k < 16 && b != Decimal
    ensures |TextOfBytes(bs, b)| == 36 && TextOfBytes(bs, b)[ByteAt(k)..ByteAt(k) + 2] == Hex(bs[k], 2, b)
  {
    var s := TextOfBytes(bs, b);
    GroupsOfDashed(HexBytes(bs[0..4], b), HexBytes(bs[4..6], b), HexBytes(bs[6..8], b), HexBytes(bs[8..10], b),
                   HexBytes(bs[10..], b));
    assert bs[10..16] == bs[10..] && s[24..36] == s[24..];
    InItsGroup(s, bs, k, b);
  }

  lemma InItsGroup(s: string, bs: seq<byte>, k: nat, b: Base)
    requires |bs| == 16 && k < 16 && b != Decimal && |s| == 36
    requires GroupAt(s, 0, bs, 0, 4, b) && GroupAt(s, 9, bs, 4, 6, b) && GroupAt(s, 14, bs, 6, 8, b)
    requires GroupAt(s, 19, bs, 8, 10, b) && GroupAt(s, 24, bs, 10, 16, b)
    ensures s[ByteAt(k)..ByteAt(k) + 2] == Hex(bs[k], 2, b)
  {
    var j := ByteAt(k);
    if k < 4 {
      InGroup(s, 0, bs, 0, 4, k, j, b);
    } else if k < 6 {
      InGroup(s, 9, bs, 4, 6, k, j, b);
    } else if k < 8 {
      InGroup(s, 14, bs, 6, 8, k, j, b);
    } else if k < 10 {
      InGroup(s, 19, bs, 8, 10, k, j, b);
    } else {
      InGroup(s, 24, bs, 10, 16, k, j, b);
    }
  }

  lemma InGroup(s: string, i: nat, bs: seq<byte>, lo: nat, hi: nat, k: nat, j: nat, b: Base)
    requires lo <= k < hi <= |bs| && b != Decimal && GroupAt(s, i, bs, lo, hi, b) && j == i + 2 * (k - lo)
    ensures j + 2 <= |s| && s[j..j + 2] == Hex(bs[k], 2, b)
  {
    HexBytesAt(bs[lo..hi], k - lo, b);
    SubSlice(s, i, i + 2 * (hi - lo), j - i, j + 2 - i);
  }

  /** Each byte of an accepted text is the value of its two digits. */
  lemma ParsedByte(s: string, k: nat)
    requires Accepted(s) && k < 16
    ensures AllXDigits(s[ByteAt(k)..ByteAt(k) + 2])
    ensures Pack(Parse(s))[k] == ValueOf(s[ByteAt(k)..ByteAt(k) + 2], HexLower)
  {
    var i, v := ByteAt(k), Pack(Parse(s))[k];
    ParseToBytes(s, HexLower);
    TextOfBytesAt(Pack(Parse(s)), k, HexLower);
    FieldRoundTrip(v, 2, HexLower);
    PlainDigits(s, k);
    RecasedGroup(s, HexLower, i, i + 2);
    RecasedValue(s[i..i + 2], HexLower);
  }

  lemma PlainDigits(s: string, k: nat)
    requires Accepted(s) && k < 16
    ensures ByteAt(k) + 2 <= 36 && !IsDash(ByteAt(k)) && !IsDash(ByteAt(k) + 1)
    ensures forall j :: ByteAt(k) <= j < ByteAt(k) + 2 ==> !IsDash(j)
  {
  }

  lemma {:induction false} RecasedValue(s: string, b: Base)
    requires AllXDigits(s) && b != Decimal
    ensures AllXDigits(Cased(s, b)) && ValueOf(Cased(s, b), b) == ValueOf(s, b)
  {
    if s == "" {
    } else {
      RecasedValue(s[..|s| - 1], b);
      assert Cased(s, b)[..|s| - 1] == Cased(s[..|s| - 1], b);
    }
  }
}
