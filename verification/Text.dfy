/** Characters and numerals of the C library. A C string is its characters without the terminating NUL. */
module Text {
  import opened Words

  const NUL: char := '\0'

  predicate IsDigit(c: char) {
    '0' <= c <= '9'
  }

  /** `c | 0x20`. */
  function WithBit5(c: char): char
    requires c as int < 128
  {
    if c as int / 32 % 2 == 1 then c else (c as int + 32) as char
  }

  /** include/ctype.h: a digit, or a letter whose lower case lies in a..f. */
  predicate IsXDigit(c: char) {
    IsDigit(c) || (c as int < 128 && 'a' <= WithBit5(c) <= 'f')
  }

  /** The character a terminator-respecting read at `i` sees. */
  function At(s: string, i: nat): char {
    if i < |s| then s[i] else NUL
  }

  function Repeat(c: char, n: nat): (r: string)
    ensures |r| == n && forall k :: 0 <= k < n ==> r[k] == c
  {
    seq(n, _ => c)
  }

  function PadLeft(s: string, width: int, c: char): (r: string)
    ensures |r| == Max(width, |s|)
  {
    if width <= |s| then s else Repeat(c, width - |s|) + s
  }

  function PadRight(s: string, width: int, c: char): (r: string)
    ensures |r| == Max(width, |s|)
  {
    if width <= |s| then s else s + Repeat(c, width - |s|)
  }

  /** What padding adds. */
  function Missing(width: int, n: nat): nat {
    Max(width - n, 0)
  }

  lemma PadLeftShape(s: string, width: int, c: char)
    ensures PadLeft(s, width, c) == Repeat(c, Missing(width, |s|)) + s
  {
    if width <= |s| { assert Repeat(c, 0) + s == s; }
  }

  lemma PadRightShape(s: string, width: int, c: char)
    ensures PadRight(s, width, c) == s + Repeat(c, Missing(width, |s|))
  {
    if width <= |s| { assert s + Repeat(c, 0) == s; }
  }

  /** `s` in a field: on the left with a minus flag, on the right without. */
  function InField(s: string, left: bool, width: nat): string {
    var blanks := Repeat(' ', Missing(width, |s|));
    if left then s + blanks else blanks + s
  }

  datatype Base = Decimal | HexLower | HexUpper

  function Radix(b: Base): (r: nat)
    ensures r == 10 || r == 16
  {
    if b == Decimal then 10 else 16
  }

  function Quotient(n: nat, b: Base): (q: nat)
    ensures q <= n && (n >= Radix(b) ==> q < n)
  {
    if b == Decimal then n / 10 else n / 16
  }

  function Remainder(n: nat, b: Base): (r: nat)
    ensures r < Radix(b)
  {
    if b == Decimal then n % 10 else n % 16
  }

  /** A numeral digit: 0-9, then letters of the case of the base. */
  function DigitChar(d: nat, b: Base): (c: char)
    requires d < 16
    ensures IsXDigit(c) && DigitValue(c) == d
    ensures d < 10 ==> IsDigit(c)
  {
    if d < 10 then (d + '0' as int) as char
    else if b == HexUpper then (d - 10 + 'A' as int) as char
    else (d - 10 + 'a' as int) as char
  }

  /** The nibble computation shared by the hexadecimal parsers. */
  function DigitValue(c: char): (d: nat)
    requires IsXDigit(c)
    ensures d < 16
  {
    if c > '9' then WithBit5(c) as int - 'a' as int + 10 else c as int - '0' as int
  }

  /** Letters of the case of the base stand for ten and more. */
  lemma DigitChars(d: nat, b: Base)
    requires d < 16
    ensures DigitChar(d, b) == if b == HexUpper then "0123456789ABCDEF"[d] else "0123456789abcdef"[d]
  {
  }

  /** The digits accepted, and the value of each. */
  lemma XDigits(c: char)
    ensures IsXDigit(c) <==> '0' <= c <= '9' || 'a' <= c <= 'f' || 'A' <= c <= 'F'
    ensures '0' <= c <= '9' ==> DigitValue(c) == c as int - '0' as int
    ensures 'a' <= c <= 'f' ==> DigitValue(c) == c as int - 'a' as int + 10
    ensures 'A' <= c <= 'F' ==> DigitValue(c) == c as int - 'A' as int + 10
  {
  }

  predicate AllXDigits(s: string) {
    forall i :: 0 <= i < |s| ==> IsXDigit(s[i])
  }

  predicate AllDigits(s: string) {
    forall i :: 0 <= i < |s| ==> IsDigit(s[i])
  }

  /** The shortest numeral of `n`. */
  function Numeral(n: nat, b: Base): (r: string)
    ensures |r| > 0
    decreases n
  {
    if n < Radix(b) then [DigitChar(n, b)] else Numeral(Quotient(n, b), b) + [DigitChar(Remainder(n, b), b)]
  }

  lemma {:induction false} NumeralDigits(n: nat, b: Base)
    ensures AllXDigits(Numeral(n, b))
    ensures b == Decimal ==> AllDigits(Numeral(n, b))
    decreases n
  {
    if n >= Radix(b) { NumeralDigits(Quotient(n, b), b); }
  }

  /** The value of a string of digits. */
  function ValueOf(s: string, b: Base): nat
    requires AllXDigits(s)
  {
    if s == "" then 0 else ValueOf(s[..|s| - 1], b) * Radix(b) + DigitValue(s[|s| - 1])
  }

  /** Reading a numeral back gives the number. */
  lemma {:induction false} NumeralValue(n: nat, b: Base)
    ensures AllXDigits(Numeral(n, b)) && ValueOf(Numeral(n, b), b) == n
    decreases n
  {
    NumeralDigits(n, b);
    var r := Numeral(n, b);
    if n < Radix(b) {
      assert r[..0] == "";
    } else {
      NumeralValue(Quotient(n, b), b);
      assert r[..|r| - 1] == Numeral(Quotient(n, b), b);
    }
  }

  /** Leading zeros do not change the value. */
  lemma {:induction false} ZerosAddNothing(k: nat, s: string, b: Base)
    requires AllXDigits(s)
    ensures ValueOf(Repeat('0', k) + s, b) == ValueOf(s, b)
    decreases |s|, k
  {
    var r := Repeat('0', k) + s;
    if s != "" {
      assert r[..|r| - 1] == Repeat('0', k) + s[..|s| - 1];
      ZerosAddNothing(k, s[..|s| - 1], b);
    } else if k > 0 {
      assert r[..k - 1] == Repeat('0', k - 1) + s;
      ZerosAddNothing(k - 1, s, b);
    }
  }

  function Power(b: Base, n: nat): nat {
    if n == 0 then 1 else Power(b, n - 1) * Radix(b)
  }

  /** A number below radix^k has a numeral of at most k digits. */
  lemma {:induction false} NumeralLength(n: nat, b: Base, k: nat)
    requires k > 0 && n < Power(b, k)
    ensures |Numeral(n, b)| <= k
    decreases k
  {
    if n >= Radix(b) {
      assert Power(b, 1) == Power(b, 0) * Radix(b) == Radix(b);
      NumeralLength(Quotient(n, b), b, k - 1);
    }
  }

  lemma NumeralFits(n: u32, b: Base)
    ensures |Numeral(n, b)| <= 10
  {
    assert Power(b, 2) == Radix(b) * Radix(b);
    assert Power(b, 4) == Power(b, 2) * Radix(b) * Radix(b);
    assert Power(b, 6) == Power(b, 4) * Radix(b) * Radix(b);
    assert Power(b, 8) == Power(b, 6) * Radix(b) * Radix(b);
    assert Power(b, 10) == Power(b, 8) * Radix(b) * Radix(b);
    NumeralLength(n, b, 10);
  }

  /** The digit of `n` that counts the radix to the power `k`. */
  function DigitOf(n: nat, b: Base, k: nat): (d: nat)
    ensures d < Radix(b)
  {
    if k == 0 then Remainder(n, b) else DigitOf(Quotient(n, b), b, k - 1)
  }

  lemma {:induction false} DigitOfPower(n: nat, b: Base, k: nat)
    ensures Power(b, k) > 0 && DigitOf(n, b, k) == n / Power(b, k) % Radix(b)
    decreases k
  {
    if k == 0 {
      assert n / 1 == n;
    } else {
      DigitOfPower(Quotient(n, b), b, k - 1);
      QuotientTwice(n, Radix(b), Power(b, k - 1));
    }
  }

  /** The digits of a numeral stand in the order of their powers. */
  lemma {:induction false} NumeralDigitAt(n: nat, b: Base, k: nat)
    requires k < |Numeral(n, b)|
    ensures Numeral(n, b)[|Numeral(n, b)| - 1 - k] == DigitChar(DigitOf(n, b, k), b)
    decreases n
  {
    if k > 0 {
      var r := Numeral(Quotient(n, b), b);
      NumeralDigitAt(Quotient(n, b), b, k - 1);
      assert Numeral(n, b)[|Numeral(n, b)| - 1 - k] == r[|r| - k];
    }
  }

  // ---------------------------------------------------------------- fixed width

  lemma HexPower(b: Base)
    requires b != Decimal
    ensures Power(b, 2) == 0x100 && Power(b, 4) == 0x1_0000 && Power(b, 8) == WORD
  {
    assert Power(b, 1) == 16;
    assert Power(b, 2) == 0x100;
    assert Power(b, 4) == Power(b, 3) * 16 == Power(b, 2) * 16 * 16;
    assert Power(b, 6) == Power(b, 5) * 16 == Power(b, 4) * 16 * 16;
    assert Power(b, 8) == Power(b, 7) * 16 == Power(b, 6) * 16 * 16;
  }

  /** The `n` low hexadecimal digits of `v`. */
  function Hex(v: nat, n: nat, b: Base): (r: string)
    requires b != Decimal
    ensures |r| == n
    decreases v, n
  {
    if n == 0 then "" else Hex(Quotient(v, b), n - 1, b) + [DigitChar(Remainder(v, b), b)]
  }

  lemma {:induction false} HexDigitAt(v: nat, n: nat, b: Base, k: nat)
    requires b != Decimal && k < n
    ensures Hex(v, n, b)[n - 1 - k] == DigitChar(DigitOf(v, b, k), b)
    decreases k
  {
    if k > 0 { HexDigitAt(Quotient(v, b), n - 1, b, k - 1); }
  }

  /** A zero-padded numeral is the fixed-width one. */
  lemma {:induction false} PaddedNumeralIsHex(v: nat, n: nat, b: Base)
    requires b != Decimal && n > 0 && v < Power(b, n)
    ensures PadLeft(Numeral(v, b), n, '0') == Hex(v, n, b)
    decreases n
  {
    NumeralLength(v, b, n);
    var c := DigitChar(Remainder(v, b), b);
    if v < Radix(b) {
      ZeroHex(n - 1, b);
      assert Quotient(v, b) == 0;
    } else {
      assert Power(b, 1) == Power(b, 0) * Radix(b) == Radix(b);
      PaddedNumeralIsHex(Quotient(v, b), n - 1, b);
      assert PadLeft(Numeral(v, b), n, '0') == PadLeft(Numeral(Quotient(v, b), b), n - 1, '0') + [c];
    }
  }

  lemma {:induction false} ZeroHex(n: nat, b: Base)
    requires b != Decimal
    ensures Hex(0, n, b) == Repeat('0', n)
  {
    if n == 0 {
    } else {
      ZeroHex(n - 1, b);
      assert Repeat('0', n) == Repeat('0', n - 1) + ['0'];
    }
  }

  lemma {:induction false} HexValue(v: nat, n: nat, b: Base)
    requires b != Decimal && v < Power(b, n)
    ensures AllXDigits(Hex(v, n, b)) && ValueOf(Hex(v, n, b), b) == v
    decreases n
  {
    if n == 0 {
    } else {
      HexValue(Quotient(v, b), n - 1, b);
      var r := Hex(v, n, b);
      assert r[..n - 1] == Hex(Quotient(v, b), n - 1, b);
    }
  }

  /** A digit written in the letters of base `b`. */
  function InCase(c: char, b: Base): char
    requires IsXDigit(c)
  {
    DigitChar(DigitValue(c), b)
  }

  /** Digits written in the letters of base `b`. */
  function Cased(s: string, b: Base): string
    requires AllXDigits(s)
  {
    seq(|s|, i requires 0 <= i < |s| => InCase(s[i], b))
  }

  /** Writing back what was read gives the text, in the case of the base. */
  lemma {:induction false} HexOfValue(s: string, b: Base)
    requires b != Decimal && AllXDigits(s)
    ensures ValueOf(s, b) < Power(b, |s|)
    ensures Hex(ValueOf(s, b), |s|, b) == Cased(s, b)
    decreases |s|
  {
    if s == "" {
    } else {
      HexOfValue(s[..|s| - 1], b);
      LastCased(s, b);
      LastDigit(ValueOf(s[..|s| - 1], b), DigitValue(s[|s| - 1]), b);
    }
  }

  lemma LastDigit(v: nat, d: nat, b: Base)
    requires b != Decimal && d < 16
    ensures Quotient(v * 16 + d, b) == v && Remainder(v * 16 + d, b) == d
  {
  }

  lemma LastCased(s: string, b: Base)
    requires s != "" && AllXDigits(s)
    ensures Cased(s, b) == Cased(s[..|s| - 1], b) + [InCase(s[|s| - 1], b)]
  {
  }

  // ---------------------------------------------------------------- memory

  /** What memory holds from the text on: not every parser stops at the terminator. */
  type Memory = nat -> char

  /** The `n` characters at `i`. */
  function TextAt(mem: Memory, i: nat, n: nat): (s: string)
    ensures |s| == n && forall k :: 0 <= k < n ==> s[k] == mem(i + k)
  {
    seq(n, k requires 0 <= k < n => mem(i + k))
  }

  /** The text `s` stands at `i`. */
  predicate HoldsText(mem: Memory, i: nat, s: string)
    decreases |s|
  {
    s == "" || (mem(i) == s[0] && HoldsText(mem, i + 1, s[1..]))
  }

  lemma {:induction false} HoldsParts(mem: Memory, i: nat, s: string, t: string)
    requires HoldsText(mem, i, s + t)
    ensures HoldsText(mem, i, s) && HoldsText(mem, i + |s|, t)
    decreases |s|
  {
    if s == "" {
      assert s + t == t;
    } else {
      assert (s + t)[1..] == s[1..] + t;
      HoldsParts(mem, i + 1, s[1..], t);
    }
  }
}
