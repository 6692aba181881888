/** lib-clib/src/uuid_parse.cpp and uuid_unparse.cpp, on top of the real formatter. */
module Uuid {
  import opened Words
  import opened Text
  import opened PrintfModel
  import opened RenderLaws
  import opened UuidModel
  import opened Printf

  // ---------------------------------------------------------------- the formats render the text

  function Letter(b: Base): char {
    if b == HexUpper then 'X' else 'x'
  }

  function Fixed(n: nat, b: Base): string
    requires n < 10
  {
    ['%', '0', DigitChar(n, Decimal), Letter(b)]
  }

  /** "%08x-%04x-%04x-%02x%02x-%02x%02x%02x%02x%02x%02x", or the same with upper-case X. */
  function Format(b: Base): string {
    Start(b) + Middle(b) + End(b)
  }

  function Start(b: Base): string {
    Fixed(8, b) + "-" + Fixed(4, b) + "-" + Fixed(4, b) + "-"
  }

  function Middle(b: Base): string {
    Fixed(2, b) + Fixed(2, b) + "-"
  }

  function End(b: Base): string {
    Fixed(2, b) + Fixed(2, b) + Fixed(2, b) + Fixed(2, b) + Fixed(2, b) + Fixed(2, b)
  }

  /** A directive of zero flag, width `n` and the letter of `b` stands at `i`. */
  predicate FixedAt(s: string, i: nat, n: nat, b: Base)
    requires n < 10
  {
    i + 4 <= |s| && s[i] == '%' && s[i + 1] == '0' && s[i + 2] == DigitChar(n, Decimal) && s[i + 3] == Letter(b)
  }

  /** `k` two-digit directives stand at `i`. */
  predicate PairsAt(s: string, i: nat, k: nat, b: Base)
    decreases k
  {
    k == 0 || (FixedAt(s, i, 2, b) && PairsAt(s, i + 4, k - 1, b))
  }

  predicate Layout(s: string, b: Base) {
    && |s| == 48 && s[23] == '-' && NUL !in s
    && HeadLayout(s, b)
    && PairsAt(s, 15, 2, b) && PairsAt(s, 24, 6, b)
  }

  predicate HeadLayout(s: string, b: Base) {
    && |s| >= 15 && s[4] == s[9] == s[14] == '-'
    && FixedAt(s, 0, 8, b) && FixedAt(s, 5, 4, b) && FixedAt(s, 10, 4, b)
  }

  lemma StartLayout(b: Base)
    ensures var p := Start(b);
            |p| == 15 && NUL !in p && HeadLayout(p, b)
  {
  }

  lemma MiddleLayout(b: Base)
    ensures var q := Middle(b); |q| == 9 && NUL !in q && FixedAt(q, 0, 2, b) && FixedAt(q, 4, 2, b) && q[8] == '-'
  {
  }

  lemma EndLayout(b: Base)
    ensures var r := End(b); |r| == 24 && NUL !in r && PairsAt(r, 0, 6, b)
  {
    var r := End(b);
    assert FixedAt(r, 0, 2, b) && FixedAt(r, 4, 2, b) && FixedAt(r, 8, 2, b);
    assert FixedAt(r, 12, 2, b) && FixedAt(r, 16, 2, b) && FixedAt(r, 20, 2, b);
    assert PairsAt(r, 24, 0, b);
    assert PairsAt(r, 16, 2, b) && PairsAt(r, 8, 4, b);
  }

  lemma {:induction false} PairsBehind(p: string, r: string, i: nat, k: nat, b: Base)
    requires PairsAt(r, i, k, b)
    ensures PairsAt(p + r, |p| + i, k, b)
    decreases k
  {
    if k == 0 {
    } else {
      PairsBehind(p, r, i + 4, k - 1, b);
    }
  }

  lemma FormatLayout(b: Base)
    ensures Layout(Format(b), b)
  {
    StartLayout(b);
    MiddleLayout(b);
    EndLayout(b);
    LayoutOfParts(Start(b), Middle(b), End(b), b);
  }

  lemma LayoutOfParts(p: string, q: string, r: string, b: Base)
    requires |p| == 15 && |q| == 9 && |r| == 24 && NUL !in p && NUL !in q && NUL !in r
    requires HeadLayout(p, b)
    requires FixedAt(q, 0, 2, b) && FixedAt(q, 4, 2, b) && q[8] == '-'
    requires PairsAt(r, 0, 6, b)
    ensures Layout(p + q + r, b)
  {
    var s := p + q + r;
    PairsBehind(p + q, r, 0, 6, b);
    assert FixedAt(s, 15, 2, b) && FixedAt(s, 19, 2, b) && PairsAt(s, 23, 0, b);
  }

  function IntArgs(bs: seq<byte>): seq<Arg> {
    if bs == [] then [] else [Int(bs[0])] + IntArgs(bs[1..])
  }

  function Arguments(u: Uuid): seq<Arg>
    requires Valid(u)
  {
    [Int(u.timeLow)] + ([Int(u.timeMid)] + ([Int(u.timeHi)] +
    (IntArgs([u.clockSeq / 0x100, u.clockSeq % 0x100]) + (IntArgs(u.node) + []))))
  }

  lemma ConvertFixed(n: nat, b: Base, v: nat)
    requires b != Decimal && (n == 2 || n == 4 || n == 8) && v < Bound(n)
    ensures Convert(Letter(b), Spec(true, false, n, false, 0, false), Int(v)) == Hex(v, n, b)
  {
    var sp := Spec(true, false, n, false, 0, false);
    HexPower(b);
    PaddedNumeralIsHex(v, n, b);
    NumeralLength(v, b, n);
    UnsignedOfSmall(v);
    assert Magnitude(sp, Numeral(v, b)) == Hex(v, n, b);
  }

  lemma UnsignedOfSmall(v: nat)
    requires v < WORD
    ensures AsUnsigned(Int(v)) == v
  {
  }

  lemma RenderField(s: string, i: nat, n: nat, b: Base, v: nat, args: seq<Arg>)
    requires b != Decimal && (n == 2 || n == 4 || n == 8) && v < Bound(n) && FixedAt(s, i, n, b)
    ensures Render(s[i..], [Int(v)] + args) == Hex(v, n, b) + Render(s[i + 4..], args)
  {
    assert s[i..] == "%0" + [DigitChar(n, Decimal), Letter(b)] + s[i + 4..];
    RenderZeroPadded(n, Letter(b), s[i + 4..], Int(v), args);
    ConvertFixed(n, b, v);
  }

  lemma {:induction false} RenderPairs(s: string, i: nat, bs: seq<byte>, b: Base, args: seq<Arg>)
    requires b != Decimal && PairsAt(s, i, |bs|, b) && i + 4 * |bs| <= |s|
    ensures Render(s[i..], IntArgs(bs) + args) == HexBytes(bs, b) + Render(s[i + 4 * |bs|..], args)
    decreases |bs|
  {
    var rest := Render(s[i + 4 * |bs|..], args);
    if bs == [] {
      assert IntArgs(bs) + args == args;
      assert HexBytes(bs, b) + rest == rest;
    } else {
      RenderPairs(s, i + 4, bs[1..], b, args);
      RenderPair(s, i, bs, b, args, rest);
    }
  }

  lemma RenderPair(s: string, i: nat, bs: seq<byte>, b: Base, args: seq<Arg>, rest: string)
    requires b != Decimal && bs != [] && FixedAt(s, i, 2, b)
    requires Render(s[i + 4..], IntArgs(bs[1..]) + args) == HexBytes(bs[1..], b) + rest
    ensures Render(s[i..], IntArgs(bs) + args) == HexBytes(bs, b) + rest
  {
    var t := bs[1..];
    Assoc([Int(bs[0])], IntArgs(t), args);
    RenderField(s, i, 2, b, bs[0], IntArgs(t) + args);
    Assoc(Hex(bs[0], 2, b), HexBytes(t, b), rest);
  }

  lemma RenderDash(s: string, i: nat, args: seq<Arg>)
    requires i < |s| && s[i] == '-'
    ensures Render(s[i..], args) == "-" + Render(s[i + 1..], args)
  {
    assert s[i..] == "-" + s[i + 1..];
    RenderLiteral("-", s[i + 1..], args);
  }

  lemma RenderTail(s: string, clock: seq<byte>, node: seq<byte>, b: Base)
    requires b != Decimal && Layout(s, b) && |clock| == 2 && |node| == 6
    ensures Render(s[15..], IntArgs(clock) + (IntArgs(node) + []))
         == HexBytes(clock, b) + ("-" + (HexBytes(node, b) + ""))
  {
    var a5 := IntArgs(node) + [];
    RenderPairs(s, 24, node, b, []);
    assert s[48..] == "";
    RenderDash(s, 23, a5);
    RenderPairs(s, 15, clock, b, a5);
  }

  lemma RenderHead(s: string, t: u32, m: u16, h: u16, args: seq<Arg>, b: Base)
    requires b != Decimal && HeadLayout(s, b)
    ensures Render(s, [Int(t)] + ([Int(m)] + ([Int(h)] + args)))
         == Hex(t, 8, b) + ("-" + (Hex(m, 4, b) + ("-" + (Hex(h, 4, b) + ("-" + Render(s[15..], args))))))
  {
    FieldAndDash(s, 10, 4, b, h, args);
    FieldAndDash(s, 5, 4, b, m, [Int(h)] + args);
    FieldAndDash(s, 0, 8, b, t, [Int(m)] + ([Int(h)] + args));
    assert s[0..] == s;
  }

  lemma FieldAndDash(s: string, i: nat, n: nat, b: Base, v: nat, args: seq<Arg>)
    requires b != Decimal && (n == 2 || n == 4 || n == 8) && v < Bound(n) && FixedAt(s, i, n, b)
    requires i + 4 < |s| && s[i + 4] == '-'
    ensures Render(s[i..], [Int(v)] + args) == Hex(v, n, b) + ("-" + Render(s[i + 5..], args))
  {
    RenderField(s, i, n, b, v, args);
    RenderDash(s, i + 4, args);
  }

  /** What the formatter emits for a UUID is its text. */
  lemma RenderUuid(s: string, u: Uuid, b: Base)
    requires Valid(u) && b != Decimal && Layout(s, b)
    ensures Render(s, Arguments(u)) == Unparse(u, b)
  {
    var clock: seq<byte> := [u.clockSeq / 0x100, u.clockSeq % 0x100];
    RenderTail(s, clock, u.node, b);
    RenderHead(s, u.timeLow, u.timeMid, u.timeHi, IntArgs(clock) + (IntArgs(u.node) + []), b);
    Regroup(Hex(u.timeLow, 8, b), Hex(u.timeMid, 4, b), Hex(u.timeHi, 4, b), HexBytes(clock, b), HexBytes(u.node, b));
  }

  lemma Regroup(s1: string, s2: string, s3: string, s4: string, s5: string)
    ensures s1 + ("-" + (s2 + ("-" + (s3 + ("-" + (s4 + ("-" + (s5 + "")))))))) == Dashed(s1, s2, s3, s4, s5)
  {
  }

  // ---------------------------------------------------------------- unparsing

  method UuidUnpack(bytes: array<byte>) returns (u: Uuid)
    requires bytes.Length == 16
    ensures u == Unpack(bytes[..])
    ensures u.timeLow == BigEndian(bytes[..][0..4]) && u.timeMid == BigEndian(bytes[..][4..6])
    ensures u.timeHi == BigEndian(bytes[..][6..8]) && u.clockSeq == BigEndian(bytes[..][8..10])
    ensures u.node == bytes[..][10..]
  {
    FieldsOfBytes(bytes[..]);
    var b: seq<int> := bytes[..];
    var tmp := b[0];
    tmp := tmp * 0x100 + b[1];
    tmp := tmp * 0x100 + b[2];
    tmp := tmp * 0x100 + b[3];
    u := Uuid(tmp, b[4] * 0x100 + b[5], b[6] * 0x100 + b[7], b[8] * 0x100 + b[9], bytes[10..16]);
    assert bytes[10..16] == bytes[..][10..];
  }

  /** `UuidUnparseX` with the lower- or upper-case format. */
  method UuidUnparse(printer: Printer, bytes: array<byte>, out: array<char>, b: Base)
    requires bytes.Length == 16 && out.Length >= 37 && b != Decimal
    modifies printer, out
    ensures out[..36] == Unparse(Unpack(bytes[..]), b) == TextOfBytes(bytes[..], b)
    ensures out[36] == NUL && out[37..] == old(out[37..])
  {
    UnparseBytes(bytes[..], b);
    var u := UuidUnpack(bytes);
    var fmt := Format(b);
    FormatLayout(b);
    RenderUuid(fmt, u, b);
    PutText(printer, fmt, Arguments(u), out);
  }

  method PutText(printer: Printer, fmt: string, args: seq<Arg>, out: array<char>)
    requires NUL !in fmt && |Render(fmt, args)| == 36 && out.Length >= 37
    modifies printer, out
    ensures out[..36] == Render(fmt, args) && out[36] == NUL && out[37..] == old(out[37..])
  {
    var n := printer.Sprintf(out, fmt, args);
    assert out[..36] == out[..][..36] && out[37..] == out[..][37..];
  }

  // ---------------------------------------------------------------- parsing

  /** `(v << 4) | d` on a `uint32_t`. */
  function ShiftIn(v: u32, d: nat): (r: u32)
    requires d < 16
    ensures v < 0x1000_0000 ==> r == v * 16 + d
  {
    Wrap(v * 16) + d
  }

  /** The value of a string of digits as a `uint32_t` accumulates it. */
  function Value32(s: string): u32
    requires AllXDigits(s)
  {
    if s == "" then 0 else ShiftIn(Value32(s[..|s| - 1]), DigitValue(s[|s| - 1]))
  }

  /** Up to eight digits nothing is lost. */
  lemma {:induction false} Value32OfField(s: string)
    requires AllXDigits(s) && |s| <= 8
    ensures Value32(s) == ValueOf(s, HexLower)
  {
    if s == "" {
    } else {
      var t := s[..|s| - 1];
      Value32OfField(t);
      HexOfValue(t, HexLower);
      SevenDigits(|t|);
    }
  }

  lemma {:induction false} SevenDigits(n: nat)
    requires n <= 7
    ensures Power(HexLower, n) <= 0x1000_0000
  {
    HexPower(HexLower);
    assert Power(HexLower, 5) == Power(HexLower, 4) * 16;
    assert Power(HexLower, 6) == Power(HexLower, 5) * 16;
    assert Power(HexLower, 7) == Power(HexLower, 6) * 16;
    assert Power(HexLower, 3) * 16 == Power(HexLower, 4) && Power(HexLower, 0) == 1 && Power(HexLower, 1) == 16;
    assert n == 0 || n == 1 || n == 2 || n == 3 || n == 4 || n == 5 || n == 6 || n == 7;
  }

  /** The first character from `start` on that is no hexadecimal digit. */
  function DigitsEnd(s: string, start: nat): (end: nat)
    requires start <= |s|
    ensures start <= end <= |s| && (forall i :: start <= i < end ==> IsXDigit(s[i])) && !IsXDigit(At(s, end))
    decreases |s| - start
  {
    if IsXDigit(At(s, start)) then DigitsEnd(s, start + 1) else start
  }

  method HexUint32(s: string, start: nat) returns (ret: u32)
    requires start <= |s|
    ensures ret == Value32(s[start..DigitsEnd(s, start)])
  {
    ret := 0;
    var i := start;
    while At(s, i) != NUL && IsXDigit(At(s, i))
      invariant start <= i <= |s| && forall j :: start <= j < i ==> IsXDigit(s[j])
      invariant ret == Value32(s[start..i]) && DigitsEnd(s, i) == DigitsEnd(s, start)
      decreases |s| - i
    {
      OneMoreDigit(s, start, i);
      ret := ShiftIn(ret, DigitValue(s[i]));
      i := i + 1;
    }
  }

  lemma OneMoreDigit(s: string, start: nat, i: nat)
    requires start <= i < |s| && (forall j :: start <= j <= i ==> IsXDigit(s[j]))
    ensures AllXDigits(s[start..i]) && AllXDigits(s[start..i + 1])
    ensures Value32(s[start..i + 1]) == ShiftIn(Value32(s[start..i]), DigitValue(s[i]))
  {
    assert s[start..i + 1][..i - start] == s[start..i];
  }

  lemma EndsAt(s: string, start: nat, stop: nat)
    requires start <= stop <= |s| && (forall i :: start <= i < stop ==> IsXDigit(s[i])) && !IsXDigit(At(s, stop))
    ensures DigitsEnd(s, start) == stop && AllXDigits(s[start..stop])
  {
  }

  /** One group of the text, as a number. */
  method ReadGroup(s: string, start: nat, ghost stop: nat) returns (v: u32)
    requires Accepted(s) && start < stop && forall i :: start <= i < stop ==> !IsDash(i)
    requires IsDash(stop) && (stop - start == 4 || stop - start == 8)
    ensures v == ValueOf(s[start..stop], HexLower) && v < Bound(stop - start)
  {
    v := HexUint32(s, start);
    EndsAt(s, start, stop);
    Value32OfField(s[start..stop]);
    FieldText(s[start..stop], HexLower);
  }

  method UuidPack(u: Uuid, out: array<byte>)
    requires Valid(u) && out.Length == 16
    modifies out
    ensures out[..] == Pack(u)
    ensures BigEndian(out[..][0..4]) == u.timeLow && BigEndian(out[..][4..6]) == u.timeMid
    ensures BigEndian(out[..][6..8]) == u.timeHi && BigEndian(out[..][8..10]) == u.clockSeq
    ensures out[..][10..] == u.node
  {
    out[3], out[2], out[1], out[0] :=
      u.timeLow % 0x100, u.timeLow / 0x100 % 0x100, u.timeLow / 0x1_0000 % 0x100, u.timeLow / 0x100_0000;
    out[5], out[4] := u.timeMid % 0x100, u.timeMid / 0x100;
    out[7], out[6] := u.timeHi % 0x100, u.timeHi / 0x100;
    out[9], out[8] := u.clockSeq % 0x100, u.clockSeq / 0x100;
    for i := 0 to 6
      invariant out[..10] == Pack(u)[..10]
      invariant out[10..10 + i] == u.node[..i]
    {
      out[10 + i] := u.node[i];
    }
    assert out[..] == out[..10] + out[10..16];
    UnpackPack(u);
    FieldsOfBytes(out[..]);
  }

  /** The check loop of `uuid_parse`. */
  method CheckText(s: string) returns (ok: bool)
    requires |s| == 36 && NUL !in s
    ensures ok <==> Accepted(s)
  {
    var i := 0;
    while i <= 36
      invariant 0 <= i <= 37
      invariant forall j :: 0 <= j < i && j < 36 ==> if IsDash(j) then s[j] == '-' else IsXDigit(s[j])
    {
      if IsDash(i) {
        if At(s, i) != '-' {
          return false;
        }
      } else if !(i == 36 && At(s, i) == NUL) && !IsXDigit(At(s, i)) {
        return false;
      }
      i := i + 1;
    }
    ok := true;
  }

  method UuidParse(s: string, uu: array<byte>) returns (r: int)
    requires NUL !in s && uu.Length == 16
    modifies uu
    ensures r == if Accepted(s) then 0 else -1
    ensures uu[..] == if Accepted(s) then Pack(Parse(s)) else old(uu[..])
    ensures Accepted(s) ==> forall k :: 0 <= k < 16 ==> IsByteAt(s, k, uu[k])
  {
    if |s| != 36 {
      return -1;
    }
    var ok := CheckText(s);
    if !ok {
      return -1;
    }
    var u := ReadFields(s);
    UuidPack(u, uu);
    forall k | 0 <= k < 16 ensures IsByteAt(s, k, uu[k]) {
      ParsedByte(s, k);
      assert uu[k] == uu[..][k];
    }
    r := 0;
  }

  /** Byte `k` is the value of its two digits in the text. */
  predicate IsByteAt(s: string, k: nat, v: byte) {
    ByteAt(k) + 2 <= |s| && AllXDigits(s[ByteAt(k)..ByteAt(k) + 2])
    && v == ValueOf(s[ByteAt(k)..ByteAt(k) + 2], HexLower)
  }

  method ReadFields(s: string) returns (u: Uuid)
    requires Accepted(s)
    ensures u == Parse(s)
  {
    var low := ReadGroup(s, 0, 8);
    var mid := ReadGroup(s, 9, 13);
    var hi := ReadGroup(s, 14, 18);
    var clock := ReadGroup(s, 19, 23);
    var node := ReadNode(s);
    u := Uuid(low, Low16(mid), Low16(hi), Low16(clock), node);
  }

  /** The conversion to `uint16_t`. */
  function Low16(v: nat): (r: u16)
    ensures v < 0x1_0000 ==> r == v
  {
    v % 0x1_0000
  }

  /** The conversion to `uint8_t`. */
  function Low8(v: nat): (r: byte)
    ensures v < 0x100 ==> r == v
  {
    v % 0x100
  }

  method ReadByte(buf: string) returns (v: byte)
    requires |buf| == 2 && AllXDigits(buf)
    ensures v == ValueOf(buf, HexLower)
  {
    var w := HexUint32(buf, 0);
    EndsAt(buf, 0, 2);
    assert buf[0..2] == buf;
    Value32OfField(buf);
    FieldText(buf, HexLower);
    v := Low8(w);
  }

  /** The bytes before `cp` are parsed. */
  predicate NodeSoFar(s: string, cp: nat, node: seq<byte>) {
    && 24 <= cp <= |s| == 36 && cp % 2 == 0 && AllXDigits(s[24..]) && AllXDigits(s[cp..])
    && node + ParseBytes(s[cp..]) == ParseBytes(s[24..])
  }

  lemma NodeBegins(s: string)
    requires Accepted(s)
    ensures NodeSoFar(s, 24, [])
  {
  }

  lemma NextPair(s: string, cp: nat, node: seq<byte>, v: byte)
    requires cp + 2 <= |s| && NodeSoFar(s, cp, node) && v == ValueOf([s[cp], s[cp + 1]], HexLower)
    ensures NodeSoFar(s, cp + 2, node + [v])
  {
    var buf, rest := [s[cp], s[cp + 1]], s[cp + 2..];
    PairDigits(s, cp, node);
    RestDigits(s, cp);
    assert s[cp..] == buf + rest;
    PairAndRest(buf, rest);
    Assoc(node, [v], ParseBytes(rest));
  }

  lemma RestDigits(s: string, cp: nat)
    requires cp + 2 <= |s| && AllXDigits(s[cp..])
    ensures AllXDigits(s[cp + 2..])
  {
    var t := s[cp + 2..];
    forall i | 0 <= i < |t| ensures IsXDigit(t[i]) {
      assert t[i] == s[cp..][i + 2];
    }
  }

  lemma PairDigits(s: string, cp: nat, node: seq<byte>)
    requires NodeSoFar(s, cp, node) && cp < 36
    ensures IsXDigit(s[cp]) && IsXDigit(s[cp + 1])
  {
    assert s[cp..][0] == s[cp] && s[cp..][1] == s[cp + 1];
  }

  /** The six node bytes, two characters each. */
  method ReadNode(s: string) returns (node: seq<byte>)
    requires Accepted(s)
    ensures node == ParseBytes(s[24..])
  {
    node := [];
    var cp := 24;
    NodeBegins(s);
    for i := 0 to 6
      invariant cp == 24 + 2 * i && NodeSoFar(s, cp, node)
    {
      PairDigits(s, cp, node);
      var v := ReadByte([s[cp], s[cp + 1]]);
      NextPair(s, cp, node, v);
      node := node + [v];
      cp := cp + 2;
    }
  }
}
