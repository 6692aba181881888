/** What lib-clib/src/printf.cpp renders for a format and its arguments. */
module PrintfModel {
  import opened Words
  import opened Text

  const INT_MAX := 0x7FFF_FFFF

  type posint = i: int | 0 <= i <= INT_MAX

  /** What the floating-point unit makes of a number at some precision: its integer part and its scaled fraction. */
  datatype Parts = Parts(whole: posint, fraction: posint)

  /** Of a floating-point argument, its sign and its parts at each precision are all that the formatter sees. */
  datatype Arg = Int(i: int) | Str(s: string) | Real(negative: bool, parts: seq<Parts>)

  /** The flag, width and precision fields of `Context`. */
  datatype Spec = Spec(zero: bool, left: bool, width: nat, hasPrec: bool, prec: nat, long: bool)

  /** How many of `n` characters a capacity keeps in front of the terminator; a negative capacity keeps none. */
  function Kept(n: nat, capacity: int): nat {
    Max(Min(n, capacity - 1), 0)
  }

  /** `(int)size` */
  function Signed(u: u32): (r: int)
    ensures -WORD / 2 <= r < WORD / 2
  {
    if u < WORD / 2 then u else u - WORD
  }

  /** The digit buffer of a number has 64 characters; padding always leaves its first one unused. */
  const BUFFER_SIZE := 64

  // ---------------------------------------------------------------- arguments

  /** `va_arg`: the next argument. Calls must supply it; here a missing one reads as zero. */
  function Next(args: seq<Arg>): Arg {
    if args == [] then Int(0) else args[0]
  }

  function Others(args: seq<Arg>): seq<Arg> {
    if args == [] then [] else args[1..]
  }

  function AsUnsigned(a: Arg): (r: u32)
    ensures a.Int? && 0 <= a.i < WORD ==> r == a.i
  {
    if a.Int? then Wrap(a.i) else 0
  }

  function AsSigned(a: Arg): (r: int)
    ensures -WORD / 2 <= r < WORD / 2
    ensures a.Int? && -WORD / 2 <= a.i < WORD / 2 ==> r == a.i
  {
    Signed(AsUnsigned(a))
  }

  function AsText(a: Arg): string {
    if a.Str? then a.s else ""
  }

  /** The conversion of an `int` to `char`. */
  function AsChar(i: int): char {
    (i % 256) as char
  }

  // ---------------------------------------------------------------- conversions

  /** A number: precision zeros, then width zeros, then the sign, then blanks, bounded by the buffer, then blanks. */
  function NumberField(sp: Spec, digits: string, negative: bool): string {
    PadRight(Buffered(sp, digits, negative), sp.width, ' ')
  }

  function Buffered(sp: Spec, digits: string, negative: bool): string {
    var core := Core(sp, digits, negative);
    if sp.left then core else PadLeft(core, Min(sp.width, BUFFER_SIZE - 1), ' ')
  }

  function Core(sp: Spec, digits: string, negative: bool): string {
    var p := Magnitude(sp, digits);
    if negative then "-" + p else p
  }

  /** The digits with the zeros that precision and zero padding put before them. */
  function Magnitude(sp: Spec, digits: string): string {
    var p := if sp.hasPrec then PadLeft(digits, Min(sp.prec, BUFFER_SIZE - 1), '0') else digits;
    if sp.zero then PadLeft(p, Min(sp.width, BUFFER_SIZE - 1), '0') else p
  }

  function TextBody(sp: Spec, s: string): string {
    if sp.hasPrec && sp.prec < |s| then s[..sp.prec] else s
  }

  function TextField(sp: Spec, s: string): string {
    if sp.left then PadRight(TextBody(sp, s), sp.width, ' ') else PadLeft(TextBody(sp, s), sp.width, ' ')
  }

  /** The characters of `s` in their order, cut to the precision if there is one, on the side the flag says. */
  lemma TextJustified(sp: Spec, s: string)
    ensures TextField(sp, s) == InField(if sp.hasPrec then s[..Min(sp.prec, |s|)] else s, sp.left, sp.width)
  {
    var body := if sp.hasPrec then s[..Min(sp.prec, |s|)] else s;
    assert body == TextBody(sp, s);
    PadLeftShape(body, sp.width, ' ');
    PadRightShape(body, sp.width, ' ');
  }

  const MAX_PRECISION := 6

  function FloatPrecision(sp: Spec): nat {
    if sp.hasPrec && sp.prec <= MAX_PRECISION then sp.prec else MAX_PRECISION
  }

  function PartsOf(a: Arg, precision: nat): Parts {
    if a.Real? && precision < |a.parts| then a.parts[precision] else Parts(0, 0)
  }

  function FloatText(sp: Spec, a: Arg): string {
    var d := FloatPrecision(sp);
    var p := PartsOf(a, d);
    (if a.Real? && a.negative then "-" else "") + Numeral(p.whole, Decimal) + "." +
    PadLeft(Numeral(p.fraction, Decimal), d, '0')
  }

  /** Neither flag has an effect on `%f`. */
  function FloatField(sp: Spec, a: Arg): string {
    PadLeft(FloatText(sp, a), sp.width, ' ')
  }

  const POINTER_SPEC := Spec(true, false, 8, false, 0, false)

  predicate IsConversion(c: char) {
    c in {'c', 'd', 'f', 'i', 'p', 's', 'u', 'X', 'x'}
  }

  /** The text of one conversion. */
  function Convert(c: char, sp: Spec, a: Arg): string
    requires IsConversion(c)
  {
    match c
    case 'c' => [AsChar(AsSigned(a))]
    case 'f' => FloatField(sp, a)
    case 's' => TextField(sp, AsText(a))
    case 'p' => "0x" + NumberField(POINTER_SPEC, Numeral(AsUnsigned(a), HexLower), false)
    case 'u' => NumberField(sp, Numeral(AsUnsigned(a), Decimal), false)
    case 'x' => NumberField(sp, Numeral(AsUnsigned(a), HexLower), false)
    case 'X' => NumberField(sp, Numeral(AsUnsigned(a), HexUpper), false)
    case _ =>
      var l := AsSigned(a);
      NumberField(sp, Numeral(if l < 0 then -l else l, Decimal), l < 0)
  }

  // ---------------------------------------------------------------- directives

  /** Reads decimal digits onto `n`; the number and the rest of the text. */
  function ScanNumber(s: string, n: nat): (r: (nat, string))
    ensures |r.1| <= |s|
  {
    if s != "" && IsDigit(s[0]) then ScanNumber(s[1..], n * 10 + (s[0] as int - '0' as int)) else (n, s)
  }

  /** A parsed directive: its fields, the text from the conversion character on, and the arguments left. */
  datatype Directive = Directive(spec: Spec, rest: string, args: seq<Arg>)

  /** Parses what follows a `%`. */
  function ParseDirective(s: string, args: seq<Arg>): (d: Directive)
    ensures |d.rest| <= |s|
  {
    var c := At(s, 0);
    var s1 := if c == '0' || c == '-' then s[1..] else s;
    var (width, s2) := ScanNumber(s1, 0);
    var (hasPrec, prec, s3, args') := ParsePrecision(s2, args);
    var long := At(s3, 0) == 'l';
    Directive(Spec(c == '0', c == '-', width, hasPrec, prec, long), if long then s3[1..] else s3, args')
  }

  function ParsePrecision(s: string, args: seq<Arg>): (r: (bool, nat, string, seq<Arg>))
    ensures |r.2| <= |s|
  {
    if At(s, 0) != '.' then (false, 0, s, args)
    else if At(s, 1) == '*' then
      var p := AsSigned(Next(args));
      (true, if p < 0 then -p else p, s[2..], Others(args))
    else
      var (prec, s') := ScanNumber(s[1..], 0);
      (true, prec, s', args)
  }

  /** Everything the formatter emits for `fmt`. An unknown conversion character is emitted but not consumed. */
  function Render(fmt: string, args: seq<Arg>): string
    decreases |fmt|
  {
    if fmt == "" then ""
    else if fmt[0] != '%' then [fmt[0]] + Render(fmt[1..], args)
    else
      var d := ParseDirective(fmt[1..], args);
      var c := At(d.rest, 0);
      if IsConversion(c) then Convert(c, d.spec, Next(d.args)) + Render(d.rest[1..], Others(d.args))
      else [c] + Render(d.rest, d.args)
  }
}
