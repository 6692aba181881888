/** lib-clib/src/inet_ntoa.cpp and inet_aton.cpp. An address is its four bytes in memory order. */
module Inet {
  import opened Words
  import opened Text
  import opened PrintfModel
  import opened RenderLaws
  import opened Printf

  // ---------------------------------------------------------------- parsing

  datatype Octet = Octet(value: nat, next: nat)

  predicate IsStop(c: char, last: bool) {
    c == NUL || c == '\n' || c == if last then ' ' else '.'
  }

  /** One field from `i` on, after `j` digits of value `k`: at most three digits, then a stop character. */
  function ScanField(mem: Memory, i: nat, j: nat, k: nat, last: bool): Option<Octet>
    requires j <= 3
    decreases 3 - j, mem
  {
    if IsStop(mem(i), last) then Some(Octet(k, i))
    else if j == 3 || !IsDigit(mem(i)) then None
    else ScanField(mem, i + 1, j + 1, k * 10 + DigitValue(mem(i)), last)
  }

  function ScanAddress(mem: Memory, i: nat, fields: nat): Option<seq<byte>>
    requires fields <= 4
    decreases fields, mem
  {
    if fields == 0 then Some([]) else
      match ScanField(mem, i, 0, 0, fields == 1)
      case None => None
      case Some(o) =>
        match ScanAddress(mem, o.next + 1, fields - 1)
        case None => None
        case Some(bs) => Some([o.value % 0x100] + bs)
  }

  /** `len` digits stand at `i`, and then a terminator, a line end, or what separates fields or follows the last. */
  predicate FieldAt(mem: Memory, i: nat, len: nat, last: bool) {
    DigitsAt(mem, i, len) && mem(i + len) in (if last then {NUL, '\n', ' '} else {NUL, '\n', '.'})
  }

  predicate DigitsAt(mem: Memory, i: nat, len: nat) {
    forall p :: i <= p < i + len ==> IsDigit(mem(p))
  }

  function ValueAt(mem: Memory, i: nat, len: nat): nat
    requires DigitsAt(mem, i, len)
  {
    if len == 0 then 0 else ValueAt(mem, i, len - 1) * 10 + DigitValue(mem(i + len - 1))
  }

  lemma {:induction false} ScanFrom(mem: Memory, i: nat, j: nat, last: bool, len: nat)
    requires j <= len <= 3 && FieldAt(mem, i, len, last)
    ensures ScanField(mem, i + j, j, ValueAt(mem, i, j), last) == Some(Octet(ValueAt(mem, i, len), i + len))
    decreases len - j
  {
    if j < len { ScanFrom(mem, i, j + 1, last, len); }
  }

  lemma {:induction false} ScanSound(mem: Memory, i: nat, j: nat, k: nat, last: bool)
    requires j <= 3
    ensures var r := ScanField(mem, i, j, k, last);
            r.Some? ==> i <= r.value.next <= i + 3 - j && FieldAt(mem, i, r.value.next - i, last)
    decreases 3 - j
  {
    if !IsStop(mem(i), last) && j < 3 && IsDigit(mem(i)) {
      ScanSound(mem, i + 1, j + 1, k * 10 + DigitValue(mem(i)), last);
    }
  }

  /** A field is accepted if and only if it is at most three digits and a stop character; then it is their value. */
  lemma FieldAccepted(mem: Memory, i: nat, last: bool, o: Octet)
    ensures ScanField(mem, i, 0, 0, last) == Some(o)
       <==> i <= o.next <= i + 3 && FieldAt(mem, i, o.next - i, last) && o.value == ValueAt(mem, i, o.next - i)
  {
    ScanSound(mem, i, 0, 0, last);
    var r := ScanField(mem, i, 0, 0, last);
    if r.Some? { ScanFrom(mem, i, 0, last, r.value.next - i); }
    if i <= o.next <= i + 3 && FieldAt(mem, i, o.next - i, last) { ScanFrom(mem, i, 0, last, o.next - i); }
  }

  /** Only the low eight bits of a field are kept: 256 is read as 0. */
  lemma LargeFieldWraps(mem: Memory, i: nat)
    requires mem(i) == '2' && mem(i + 1) == '5' && mem(i + 2) == '6' && mem(i + 3) == '.'
    ensures ScanField(mem, i, 0, 0, false) == Some(Octet(256, i + 3)) && 256 % 0x100 == 0
  {
    assert ScanField(mem, i + 3, 3, 256, false) == Some(Octet(256, i + 3));
    assert ScanField(mem, i + 2, 2, 25, false) == ScanField(mem, i + 3, 3, 256, false);
    assert ScanField(mem, i + 1, 1, 2, false) == ScanField(mem, i + 2, 2, 25, false);
  }

  /** The numbers written in the fields. */
  function WrittenFields(mem: Memory, i: nat, fields: nat): Option<seq<nat>>
    requires fields <= 4
    decreases fields, mem
  {
    if fields == 0 then Some([]) else
      match ScanField(mem, i, 0, 0, fields == 1)
      case None => None
      case Some(o) =>
        match WrittenFields(mem, o.next + 1, fields - 1)
        case None => None
        case Some(vs) => Some([o.value] + vs)
  }

  predicate SameNumbers(bs: seq<byte>, vs: seq<nat>) {
    |bs| == |vs| && forall k :: 0 <= k < |bs| ==> bs[k] == vs[k]
  }

  /** An accepted address is the numbers written if and only if none of them exceeds 255. */
  lemma {:induction false} AddressAsWritten(mem: Memory, i: nat, fields: nat)
    requires fields <= 4
    ensures var r, w := ScanAddress(mem, i, fields), WrittenFields(mem, i, fields);
            && (r.Some? <==> w.Some?)
            && (r.Some? ==> (SameNumbers(r.value, w.value) <==> forall k :: 0 <= k < |w.value| ==> w.value[k] <= 255))
    decreases fields
  {
    if fields == 0 {
    } else {
      var o := ScanField(mem, i, 0, 0, fields == 1);
      if o.Some? {
        AddressAsWritten(mem, o.value.next + 1, fields - 1);
        var r, w := ScanAddress(mem, o.value.next + 1, fields - 1), WrittenFields(mem, o.value.next + 1, fields - 1);
        if r.Some? { OneMoreNumber(o.value.value, r.value, w.value); }
      }
    }
  }

  lemma OneMoreNumber(v: nat, bs: seq<byte>, vs: seq<nat>)
    requires SameNumbers(bs, vs) <==> forall k :: 0 <= k < |vs| ==> vs[k] <= 255
    ensures SameNumbers([v % 0x100] + bs, [v] + vs) <==> forall k :: 0 <= k < |[v] + vs| ==> ([v] + vs)[k] <= 255
  {
    var b, w := [v % 0x100] + bs, [v] + vs;
    assert b[0] == v % 0x100 && b[1..] == bs && w[1..] == vs;
    if SameNumbers(b, w) {
      assert forall k :: 0 <= k < |bs| ==> bs[k] == b[k + 1] && vs[k] == w[k + 1];
    }
    if forall k :: 0 <= k < |w| ==> w[k] <= 255 {
      assert forall k :: 0 <= k < |vs| ==> vs[k] == w[k + 1];
    }
  }

  // ---------------------------------------------------------------- behind the terminator

  ghost predicate AgreeUpTo(mem: Memory, mem': Memory, e: nat) {
    forall k: nat :: k <= e ==> mem'(k) == mem(k)
  }

  /** A field before the last ends at `e`. */
  predicate StopsShort(mem: Memory, i: nat, fields: nat, e: nat)
    decreases fields, mem
  {
    fields > 1 &&
    match ScanField(mem, i, 0, 0, false)
    case None => false
    case Some(o) => o.next == e || (o.next < e && StopsShort(mem, o.next + 1, fields - 1, e))
  }

  lemma {:induction false} SameField(mem: Memory, mem': Memory, i: nat, j: nat, k: nat, last: bool, e: nat)
    requires j <= 3 && i <= e && mem(e) == NUL && AgreeUpTo(mem, mem', e)
    ensures ScanField(mem', i, j, k, last) == ScanField(mem, i, j, k, last)
    ensures ScanField(mem, i, j, k, last).Some? ==> ScanField(mem, i, j, k, last).value.next <= e
    decreases 3 - j
  {
    if !IsStop(mem(i), last) && j < 3 && IsDigit(mem(i)) {
      SameField(mem, mem', i + 1, j + 1, k * 10 + DigitValue(mem(i)), last, e);
    }
  }

  lemma {:induction false} ReadsWithin(mem: Memory, mem': Memory, i: nat, fields: nat, e: nat)
    requires fields <= 4 && i <= e && mem(e) == NUL && AgreeUpTo(mem, mem', e)
    requires !StopsShort(mem, i, fields, e)
    ensures ScanAddress(mem', i, fields) == ScanAddress(mem, i, fields)
    decreases fields
  {
    if fields == 0 {
    } else {
      SameField(mem, mem', i, 0, 0, fields == 1, e);
      var o := ScanField(mem, i, 0, 0, fields == 1);
      if o.Some? && fields > 1 { ReadsWithin(mem, mem', o.value.next + 1, fields - 1, e); }
    }
  }

  /** The same memory up to `e`, and then nothing but `c`. */
  function Behind(mem: Memory, e: nat, c: char): Memory {
    (k: nat) => if k <= e then mem(k) else c
  }

  lemma {:induction false} ReadsBehind(mem: Memory, mem': Memory, i: nat, fields: nat, e: nat, c: char)
    requires fields <= 4 && i <= e && mem(e) == NUL && StopsShort(mem, i, fields, e) && (c == NUL || c == 'x')
    requires AgreeUpTo(mem, mem', e) && forall k: nat :: k > e ==> mem'(k) == c
    ensures ScanAddress(mem', i, fields).Some? <==> c == NUL
    decreases fields
  {
    SameField(mem, mem', i, 0, 0, false, e);
    var o := ScanField(mem, i, 0, 0, false).value;
    if o.next < e {
      ReadsBehind(mem, mem', o.next + 1, fields - 1, e, c);
    } else {
      RestBehind(mem', e + 1, fields - 1, c);
    }
  }

  lemma RestBehind(mem: Memory, i: nat, fields: nat, c: char)
    requires 0 < fields <= 4 && (c == NUL || c == 'x') && forall k: nat :: k >= i ==> mem(k) == c
    ensures ScanAddress(mem, i, fields).Some? <==> c == NUL
  {
    if c == NUL {
      AllEmpty(mem, i, fields);
    } else {
      assert ScanField(mem, i, 0, 0, fields == 1) == None;
    }
  }

  lemma {:induction false} AllEmpty(mem: Memory, i: nat, fields: nat)
    requires fields <= 4 && forall k: nat :: k >= i ==> mem(k) == NUL
    ensures ScanAddress(mem, i, fields).Some?
    decreases fields
  {
    if fields == 0 {
    } else {
      assert ScanField(mem, i, 0, 0, fields == 1) == Some(Octet(0, i));
      AllEmpty(mem, i + 1, fields - 1);
    }
  }

  /**
   * What follows the terminator at `e` has no influence if and only if no field before the last ends there, that is,
   * unless the text is too short an address that is well-formed so far.
   */
  lemma BehindTerminator(mem: Memory, e: nat)
    requires mem(e) == NUL
    ensures (forall mem': Memory :: AgreeUpTo(mem, mem', e) ==> ScanAddress(mem', 0, 4) == ScanAddress(mem, 0, 4))
       <==> !StopsShort(mem, 0, 4, e)
  {
    if StopsShort(mem, 0, 4, e) {
      ReadsBehind(mem, Behind(mem, e, NUL), 0, 4, e, NUL);
      ReadsBehind(mem, Behind(mem, e, 'x'), 0, 4, e, 'x');
      assert AgreeUpTo(mem, Behind(mem, e, NUL), e) && AgreeUpTo(mem, Behind(mem, e, 'x'), e);
    } else {
      forall mem': Memory | AgreeUpTo(mem, mem', e) ensures ScanAddress(mem', 0, 4) == ScanAddress(mem, 0, 4) {
        ReadsWithin(mem, mem', 0, 4, e);
      }
    }
  }

  /** For example a text of one digit. */
  lemma OneDigitStopsShort(mem: Memory)
    requires IsDigit(mem(0)) && mem(1) == NUL
    ensures StopsShort(mem, 0, 4, 1)
  {
    assert ScanField(mem, 1, 1, DigitValue(mem(0)), false) == Some(Octet(DigitValue(mem(0)), 1));
  }

  /** The loop over one field. */
  method ReadField(mem: Memory, start: nat, last: bool) returns (ok: bool, k: nat, b: nat)
    ensures ScanField(mem, start, 0, 0, last) == if ok then Some(Octet(k, b)) else None
  {
    var j := 0;
    k, b, ok := 0, start, true;
    while !IsStop(mem(b), last)
      invariant j <= 3
      invariant ScanField(mem, start, 0, 0, last) == ScanField(mem, b, j, k, last)
      decreases 3 - j
    {
      if j == 3 {
        return false, k, b;
      }
      if !IsDigit(mem(b)) {
        return false, k, b;
      }
      j := j + 1;
      k := k * 10 + DigitValue(mem(b));
      b := b + 1;
    }
  }

  /** An accepted text gives the address; a rejected one gives nothing. */
  method InetAton(mem: Memory) returns (ok: bool, address: seq<byte>)
    ensures ScanAddress(mem, 0, 4) == if ok then Some(address) else None
  {
    address := [];
    var b: nat := 0;
    for i := 0 to 4
      invariant Prefixed(address, ScanAddress(mem, b, 4 - i)) == ScanAddress(mem, 0, 4)
    {
      ghost var before, start := address, b;
      var k;
      ok, k, b := ReadField(mem, b, i == 3);
      if !ok {
        assert ScanAddress(mem, start, 4 - i) == None;
        return false, [];
      }
      address := address + [k % 0x100];
      b := b + 1;
      PrefixOne(before, k % 0x100, ScanAddress(mem, b, 3 - i));
    }
    assert address + [] == address;
    ok := true;
  }

  ghost function Prefixed(bs: seq<byte>, r: Option<seq<byte>>): (p: Option<seq<byte>>)
    ensures bs == [] ==> p == r
  {
    if r.None? then None else
      assert bs == [] ==> bs + r.value == r.value;
      Some(bs + r.value)
  }

  lemma PrefixOne(bs: seq<byte>, v: byte, r: Option<seq<byte>>)
    ensures Prefixed(bs + [v], r) == Prefixed(bs, Prefixed([v], r))
  {
    if r.Some? { assert bs + [v] + r.value == bs + ([v] + r.value); }
  }

  // ---------------------------------------------------------------- printing

  function AddressFormat(): string {
    ['%', 'd', '.', '%', 'd', '.', '%', 'd', '.', '%', 'd']
  }

  function Dotted(bs: seq<byte>): string
    requires |bs| == 4
  {
    Numeral(bs[0], Decimal) + ("." +
    (Numeral(bs[1], Decimal) + ("." + (Numeral(bs[2], Decimal) + ("." + Numeral(bs[3], Decimal))))))
  }

  lemma ByteNumeral(v: byte)
    ensures |Numeral(v, Decimal)| <= 3 && AllDigits(Numeral(v, Decimal)) && AllXDigits(Numeral(v, Decimal))
    ensures ValueOf(Numeral(v, Decimal), Decimal) == v
    ensures Convert('d', Spec(false, false, 0, false, 0, false), Int(v)) == Numeral(v, Decimal)
  {
    Thousand();
    NumeralLength(v, Decimal, 3);
    NumeralDigits(v, Decimal);
    NumeralValue(v, Decimal);
    PlainByte(v);
  }

  lemma Thousand()
    ensures Power(Decimal, 3) == 1000
  {
    assert Power(Decimal, 1) == 10 && Power(Decimal, 2) == 100;
  }

  lemma PlainByte(v: byte)
    ensures Convert('d', Spec(false, false, 0, false, 0, false), Int(v)) == Numeral(v, Decimal)
  {
    assert AsSigned(Int(v)) == v;
    PlainField(Numeral(v, Decimal));
  }

  lemma RenderByte(s: string, i: nat, v: byte, args: seq<Arg>)
    requires i + 2 <= |s| && s[i] == '%' && s[i + 1] == 'd'
    ensures Render(s[i..], [Int(v)] + args) == Numeral(v, Decimal) + Render(s[i + 2..], args)
  {
    assert s[i..] == "%" + ['d'] + s[i + 2..];
    RenderPlain('d', s[i + 2..], Int(v), args);
    ByteNumeral(v);
  }

  lemma RenderDot(s: string, i: nat, args: seq<Arg>)
    requires i < |s| && s[i] == '.'
    ensures Render(s[i..], args) == "." + Render(s[i + 1..], args)
  {
    assert s[i..] == "." + s[i + 1..];
    RenderLiteral(".", s[i + 1..], args);
  }

  function AddressArgs(bs: seq<byte>): seq<Arg>
    requires |bs| == 4
  {
    [Int(bs[0])] + ([Int(bs[1])] + ([Int(bs[2])] + ([Int(bs[3])] + [])))
  }

  predicate IsAddressFormat(s: string) {
    && |s| == 11 && NUL !in s
    && s[0] == s[3] == s[6] == s[9] == '%' && s[1] == s[4] == s[7] == s[10] == 'd' && s[2] == s[5] == s[8] == '.'
  }

  lemma RenderByteDot(s: string, i: nat, v: byte, args: seq<Arg>)
    requires i + 3 <= |s| && s[i] == '%' && s[i + 1] == 'd' && s[i + 2] == '.'
    ensures Render(s[i..], [Int(v)] + args) == Numeral(v, Decimal) + ("." + Render(s[i + 3..], args))
  {
    RenderByte(s, i, v, args);
    RenderDot(s, i + 2, args);
  }

  lemma RenderAddress(s: string, bs: seq<byte>)
    requires IsAddressFormat(s) && |bs| == 4
    ensures Render(s, AddressArgs(bs)) == Dotted(bs)
  {
    assert s[11..] == "";
    RenderByte(s, 9, bs[3], []);
    assert Numeral(bs[3], Decimal) + "" == Numeral(bs[3], Decimal);
    RenderByteDot(s, 6, bs[2], [Int(bs[3])] + []);
    RenderByteDot(s, 3, bs[1], [Int(bs[2])] + ([Int(bs[3])] + []));
    RenderByteDot(s, 0, bs[0], [Int(bs[1])] + ([Int(bs[2])] + ([Int(bs[3])] + [])));
    assert s[0..] == s;
  }

  lemma DottedLength(bs: seq<byte>)
    requires |bs| == 4
    ensures |Dotted(bs)| <= 15
  {
    ByteNumeral(bs[0]);
    ByteNumeral(bs[1]);
    ByteNumeral(bs[2]);
    ByteNumeral(bs[3]);
  }

  /** The address in dotted decimal, in the static buffer of 18 characters; it is never cut off. */
  method InetNtoa(printer: Printer, buffer: array<char>, bs: seq<byte>) returns (n: nat)
    requires |bs| == 4 && buffer.Length == 18
    modifies printer, buffer
    ensures n == |Dotted(bs)| <= 15 && buffer[..n] == Dotted(bs) && buffer[n] == NUL
  {
    n := PutAddress(printer, buffer, AddressFormat(), bs);
  }

  method PutAddress(printer: Printer, buffer: array<char>, fmt: string, bs: seq<byte>) returns (n: nat)
    requires IsAddressFormat(fmt) && |bs| == 4 && buffer.Length == 18
    modifies printer, buffer
    ensures n == |Dotted(bs)| <= 15 && buffer[..n] == Dotted(bs) && buffer[n] == NUL
  {
    RenderAddress(fmt, bs);
    DottedLength(bs);
    n := printer.Vsnprintf(buffer, 18, fmt, AddressArgs(bs));
    assert buffer[..n] == buffer[..][..n];
  }

  // ---------------------------------------------------------------- round trip

  /** The value of digits read onto `k` from the left. */
  function ReadOnto(k: nat, s: string): nat
    requires AllDigits(s)
    decreases |s|
  {
    if s == "" then k else ReadOnto(k * 10 + DigitValue(s[0]), s[1..])
  }

  lemma {:induction false} ReadOntoSnoc(k: nat, s: string, c: char)
    requires AllDigits(s) && IsDigit(c)
    ensures AllDigits(s + [c]) && ReadOnto(k, s + [c]) == ReadOnto(k, s) * 10 + DigitValue(c)
    decreases |s|
  {
    if s == "" {
    } else {
      assert (s + [c])[1..] == s[1..] + [c];
      ReadOntoSnoc(k * 10 + DigitValue(s[0]), s[1..], c);
    }
  }

  lemma {:induction false} ReadOntoIsValue(s: string)
    requires AllDigits(s) && AllXDigits(s)
    ensures ReadOnto(0, s) == ValueOf(s, Decimal)
    decreases |s|
  {
    if s == "" {
    } else {
      var t := s[..|s| - 1];
      ReadOntoIsValue(t);
      ReadOntoSnoc(0, t, s[|s| - 1]);
      assert t + [s[|s| - 1]] == s;
    }
  }

  lemma {:induction false} ScanText(mem: Memory, i: nat, j: nat, k: nat, s: string, last: bool)
    requires j + |s| <= 3 && AllDigits(s) && HoldsText(mem, i, s) && IsStop(mem(i + |s|), last)
    ensures ScanField(mem, i, j, k, last) == Some(Octet(ReadOnto(k, s), i + |s|))
    decreases |s|
  {
    if s == "" {
    } else {
      ScanText(mem, i + 1, j + 1, k * 10 + DigitValue(s[0]), s[1..], last);
    }
  }

  /** Reading back one printed byte, and going on behind the character that ended it. */
  lemma ScanPrinted(mem: Memory, i: nat, v: byte, rest: string, last: bool)
    requires HoldsText(mem, i, Numeral(v, Decimal) + rest) && rest != "" && IsStop(rest[0], last)
    ensures var n := i + |Numeral(v, Decimal)|;
            ScanField(mem, i, 0, 0, last) == Some(Octet(v, n)) && HoldsText(mem, n + 1, rest[1..])
  {
    var s := Numeral(v, Decimal);
    HoldsParts(mem, i, s, rest);
    ByteNumeral(v);
    ReadOntoIsValue(s);
    ScanText(mem, i, 0, 0, s, last);
  }

  lemma ScanOnward(mem: Memory, i: nat, v: byte, rest: string, fields: nat)
    requires 0 < fields <= 4 && rest != "" && IsStop(rest[0], fields == 1)
    requires HoldsText(mem, i, Numeral(v, Decimal) + rest)
    ensures var n := i + |Numeral(v, Decimal)| + 1;
            && HoldsText(mem, n, rest[1..])
            && ScanAddress(mem, i, fields) == Prefixed([v], ScanAddress(mem, n, fields - 1))
  {
    ScanPrinted(mem, i, v, rest, fields == 1);
  }

  /** The terminated text of some bytes. */
  function DottedText(bs: seq<byte>): string
    requires bs != []
  {
    Numeral(bs[0], Decimal) + if |bs| == 1 then [NUL] else "." + DottedText(bs[1..])
  }

  lemma {:induction false} ReadDotted(mem: Memory, i: nat, bs: seq<byte>)
    requires 1 <= |bs| <= 4 && HoldsText(mem, i, DottedText(bs))
    ensures ScanAddress(mem, i, |bs|) == Some(bs)
    decreases |bs|
  {
    var v, rest := bs[0], if |bs| == 1 then [NUL] else "." + DottedText(bs[1..]);
    var n := i + |Numeral(v, Decimal)| + 1;
    ScanOnward(mem, i, v, rest, |bs|);
    if |bs| > 1 {
      assert rest[1..] == DottedText(bs[1..]);
      ReadDotted(mem, n, bs[1..]);
    }
    assert [v] + bs[1..] == bs;
  }

  lemma DottedIsText(bs: seq<byte>)
    requires |bs| == 4
    ensures Dotted(bs) + [NUL] == DottedText(bs)
  {
    var (n0, n1) := (Numeral(bs[0], Decimal), Numeral(bs[1], Decimal));
    var (n2, n3) := (Numeral(bs[2], Decimal), Numeral(bs[3], Decimal));
    assert DottedText(bs[1..][1..][1..]) == n3 + [NUL];
    assert DottedText(bs[1..][1..]) == n2 + ("." + (n3 + [NUL]));
    assert DottedText(bs[1..]) == n1 + ("." + (n2 + ("." + (n3 + [NUL]))));
    DottedTail(n0, n1, n2, n3);
  }

  lemma DottedTail(n0: string, n1: string, n2: string, n3: string)
    ensures n0 + ("." + (n1 + ("." + (n2 + ("." + n3))))) + [NUL]
         == n0 + ("." + (n1 + ("." + (n2 + ("." + (n3 + [NUL]))))))
  {
  }

  /** Whatever memory holds behind the terminator, every address printed is read back unchanged. */
  lemma AddressRoundTrip(mem: Memory, bs: seq<byte>)
    requires |bs| == 4 && HoldsText(mem, 0, Dotted(bs) + [NUL])
    ensures ScanAddress(mem, 0, 4) == Some(bs)
  {
    DottedIsText(bs);
    ReadDotted(mem, 0, bs);
  }
}
