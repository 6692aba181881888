/** What the rendering of the formatter means: widths, values, and where it departs from ISO C. */
module RenderLaws {
  import opened Words
  import opened Text
  import opened PrintfModel

  predicate IsInteger(c: char) {
    c in {'d', 'i', 'u', 'x', 'X'}
  }

  function BaseOf(c: char): Base {
    if c == 'x' then HexLower else if c == 'X' then HexUpper else Decimal
  }

  /** The number an integer conversion stands for. */
  function NumberOf(c: char, a: Arg): int {
    if c == 'd' || c == 'i' then AsSigned(a) else AsUnsigned(a)
  }

  function Abs(n: int): nat {
    if n < 0 then -n else n
  }

  lemma PaddedZeros(s: string, width: int, b: Base)
    requires AllXDigits(s)
    ensures var p := PadLeft(s, width, '0');
            AllXDigits(p) && (AllDigits(s) ==> AllDigits(p)) && ValueOf(p, b) == ValueOf(s, b)
  {
    if width > |s| { ZerosAddNothing(width - |s|, s, b); }
  }

  /** Zeros in front leave the digits a numeral of the same number. */
  lemma MagnitudeValue(sp: Spec, n: nat, b: Base)
    ensures var m := Magnitude(sp, Numeral(n, b));
            AllXDigits(m) && (b == Decimal ==> AllDigits(m)) && ValueOf(m, b) == n
  {
    var d := Numeral(n, b);
    NumeralDigits(n, b);
    NumeralValue(n, b);
    PaddedZeros(d, Min(sp.prec, BUFFER_SIZE - 1), b);
    var p := if sp.hasPrec then PadLeft(d, Min(sp.prec, BUFFER_SIZE - 1), '0') else d;
    PaddedZeros(p, Min(sp.width, BUFFER_SIZE - 1), b);
  }

  lemma BlanksAround(sp: Spec, digits: string, negative: bool) returns (left: nat, right: nat)
    ensures var core := Core(sp, digits, negative);
            && NumberField(sp, digits, negative) == Repeat(' ', left) + core + Repeat(' ', right)
            && left + |core| + right == Max(sp.width, |core|)
  {
    var core, b := Core(sp, digits, negative), Buffered(sp, digits, negative);
    left, right := |b| - |core|, Max(sp.width - |b|, 0);
    if left == 0 { assert Repeat(' ', 0) + core == core; }
    if right == 0 { assert b + Repeat(' ', 0) == b; }
  }

  /**
   * An integer directive emits blanks, a sign for a negative number only, digits that read back as the
   * number, and blanks; as many characters as the width, or as sign and digits need if that is more.
   */
  lemma IntegerDirective(c: char, sp: Spec, a: Arg) returns (left: nat, m: string, right: nat)
    requires IsInteger(c)
    ensures var signed := if NumberOf(c, a) < 0 then "-" + m else m;
            && Convert(c, sp, a) == Repeat(' ', left) + signed + Repeat(' ', right)
            && |Convert(c, sp, a)| == Max(sp.width, |signed|)
    ensures AllXDigits(m) && (BaseOf(c) == Decimal ==> AllDigits(m))
    ensures ValueOf(m, BaseOf(c)) == Abs(NumberOf(c, a))
  {
    var n, b := NumberOf(c, a), BaseOf(c);
    var digits := Numeral(Abs(n), b);
    assert Convert(c, sp, a) == NumberField(sp, digits, n < 0);
    m := Magnitude(sp, digits);
    MagnitudeValue(sp, Abs(n), b);
    left, right := BlanksAround(sp, digits, n < 0);
  }

  // ---------------------------------------------------------------- section 7.21.6.1 of ISO C11

  /** The precision is the least number of digits, 1 by default; zero with precision zero has none. */
  function IsoDigits(sp: Spec, n: nat, b: Base): string {
    if sp.hasPrec && sp.prec == 0 && n == 0 then ""
    else PadLeft(Numeral(n, b), if sp.hasPrec then sp.prec else 1, '0')
  }

  function Sign(negative: bool): string {
    if negative then "-" else ""
  }

  /** A minus flag, or a precision, overrides a zero flag. */
  function IsoField(sp: Spec, n: nat, b: Base, negative: bool): string {
    var sign, digits := Sign(negative), IsoDigits(sp, n, b);
    if sp.left then PadRight(sign + digits, sp.width, ' ')
    else if sp.zero && !sp.hasPrec then sign + PadLeft(digits, sp.width - |sign|, '0')
    else PadLeft(sign + digits, sp.width, ' ')
  }

  /**
   * What a directive asks for, with the precision as the caller passes it: digits of the format, or an argument for
   * `*`, which may be negative.
   */
  datatype Asked = Asked(zero: bool, left: bool, width: nat, prec: Option<int>)

  predicate IsNegative(p: Option<int>) {
    p.Some? && p.value < 0
  }

  /** What the source makes of it: a negative precision is negated. */
  function Taken(k: Asked): Spec {
    Spec(k.zero, k.left, k.width, k.prec.Some?, if k.prec.Some? then Abs(k.prec.value) else 0, false)
  }

  /** What ISO C makes of it: a negative precision is taken as if it were omitted. */
  function Meant(k: Asked): Spec {
    if IsNegative(k.prec) then Spec(k.zero, k.left, k.width, false, 0, false) else Taken(k)
  }

  /** The digits that a precision asks for. */
  function DigitCount(sp: Spec, digits: nat): nat {
    if sp.hasPrec then Max(digits, sp.prec) else digits
  }

  /**
   * Where the source does what ISO C asks for. It does not: for zero with precision zero; for a precision above 63;
   * for a zero flag beside a precision or a minus flag, if the width then asks for more zeros; for a zero-padded
   * negative number, unless the width is 64; and right-justified in a width above 63 that blanks have to fill.
   */
  predicate SpecAsInIsoC(sp: Spec, n: nat, digits: nat, negative: bool) {
    var q, s := DigitCount(sp, digits), if negative then 1 else 0;
    && !(sp.hasPrec && sp.prec == 0 && n == 0)
    && !(sp.hasPrec && sp.prec >= BUFFER_SIZE)
    && (sp.zero && (sp.hasPrec || sp.left) ==> sp.width <= q || q == BUFFER_SIZE - 1)
    && (sp.zero && !sp.hasPrec && !sp.left && negative ==> sp.width <= q || sp.width == BUFFER_SIZE)
    && (!sp.left && !(sp.zero && !sp.hasPrec && negative) ==> sp.width <= Max(BUFFER_SIZE - 1, q + s))
  }

  /** For a negative precision `-a` only if the zeros it adds are none, or ones that the zero flag adds anyway. */
  predicate NegativeAsInIsoC(k: Asked, digits: nat, negative: bool)
    requires IsNegative(k.prec)
  {
    var a := Min(-k.prec.value, BUFFER_SIZE - 1);
    if k.zero && !k.left then
      if negative then (k.width <= digits && a <= digits) || k.width == BUFFER_SIZE
      else k.width < BUFFER_SIZE && a <= Max(digits, k.width)
    else
      a <= digits && (k.zero ==> k.width <= digits) && (!k.left ==> k.width < BUFFER_SIZE)
  }

  predicate AsInIsoC(k: Asked, n: nat, digits: nat, negative: bool) {
    if IsNegative(k.prec) then NegativeAsInIsoC(k, digits, negative) else SpecAsInIsoC(Taken(k), n, digits, negative)
  }

  /** The same for the number of characters only. */
  lemma WidthAsInIsoC(k: Asked, n: u32, b: Base, negative: bool)
    requires negative ==> n > 0
    ensures |NumberField(Taken(k), Numeral(n, b), negative)| == |IsoField(Meant(k), n, b, negative)| <==>
              var digits, s := |Numeral(n, b)|, |Sign(negative)|;
              if IsNegative(k.prec) then
                var a := Min(-k.prec.value, BUFFER_SIZE - 1);
                !(digits < a && k.width < s + a) && !(k.zero && negative && digits < k.width < BUFFER_SIZE)
              else
                var sp := Taken(k);
                && !(sp.hasPrec && sp.prec == 0 && n == 0 && sp.width == 0)
                && !(sp.hasPrec && sp.prec >= BUFFER_SIZE && sp.width < sp.prec + s)
                && !(sp.zero && negative && DigitCount(sp, digits) < sp.width < BUFFER_SIZE)
  {
    NumeralFits(n, b);
    FieldLengths(Taken(k), Meant(k), n, b, negative);
  }

  lemma FieldLengths(sp: Spec, sp': Spec, n: nat, b: Base, negative: bool)
    ensures |NumberField(sp, Numeral(n, b), negative)|
         == Max(sp.width, |Sign(negative)| + |Magnitude(sp, Numeral(n, b))|)
    ensures |IsoField(sp', n, b, negative)| == Max(sp'.width, |Sign(negative)| + |IsoDigits(sp', n, b)|)
  {
  }

  /** A numeral with zeros and a sign in front of it, between blanks. */
  function Shape(sign: string, digits: string, c: Counts): (s: string)
    ensures |s| == c.left + |sign| + c.zeros + |digits| + c.right
  {
    Repeat(' ', c.left) + (sign + (Repeat('0', c.zeros) + digits)) + Repeat(' ', c.right)
  }

  /** Blanks on the left, zeros, and blanks on the right. */
  datatype Counts = Counts(left: nat, zeros: nat, right: nat)

  predicate Solid(s: string) {
    s != "" && s[0] != ' ' && s[|s| - 1] != ' '
  }

  lemma ShapeEnds(sign: string, digits: string, c: Counts)
    requires (sign == "" || sign == "-") && Solid(digits)
    ensures var s := Shape(sign, digits, c);
            && (forall k :: 0 <= k < c.left ==> s[k] == ' ') && s[c.left] != ' '
            && (forall k :: |s| - c.right <= k < |s| ==> s[k] == ' ') && s[|s| - c.right - 1] != ' '
  {
    var body := sign + (Repeat('0', c.zeros) + digits);
    assert Solid(body);
  }

  lemma ShapeUnique(sign: string, digits: string, c: Counts, c': Counts)
    requires (sign == "" || sign == "-") && Solid(digits)
    ensures Shape(sign, digits, c) == Shape(sign, digits, c') <==> c == c'
  {
    ShapeEnds(sign, digits, c);
    ShapeEnds(sign, digits, c');
  }

  lemma NumeralSolid(n: nat, b: Base)
    ensures Solid(Numeral(n, b))
  {
    NumeralDigits(n, b);
  }

  function CodeZeros(sp: Spec, digits: nat): nat {
    var p := if sp.hasPrec then Missing(Min(sp.prec, BUFFER_SIZE - 1), digits) else 0;
    p + if sp.zero then Missing(Min(sp.width, BUFFER_SIZE - 1), digits + p) else 0
  }

  function CodeLeft(sp: Spec, core: nat): nat {
    if sp.left then 0 else Missing(Min(sp.width, BUFFER_SIZE - 1), core)
  }

  lemma MagnitudeShape(sp: Spec, digits: string)
    ensures Magnitude(sp, digits) == Repeat('0', CodeZeros(sp, |digits|)) + digits
  {
    var p := if sp.hasPrec then PadLeft(digits, Min(sp.prec, BUFFER_SIZE - 1), '0') else digits;
    var k := if sp.hasPrec then Missing(Min(sp.prec, BUFFER_SIZE - 1), |digits|) else 0;
    PadLeftShape(digits, Min(sp.prec, BUFFER_SIZE - 1), '0');
    if !sp.hasPrec { assert Repeat('0', 0) + digits == digits; }
    assert p == Repeat('0', k) + digits;
    var j := if sp.zero then Missing(Min(sp.width, BUFFER_SIZE - 1), |p|) else 0;
    PadLeftShape(p, Min(sp.width, BUFFER_SIZE - 1), '0');
    if !sp.zero { assert Repeat('0', 0) + p == p; }
    MoreZeros(j, k, digits);
  }

  lemma MoreZeros(j: nat, k: nat, s: string)
    ensures Repeat('0', j) + (Repeat('0', k) + s) == Repeat('0', j + k) + s
  {
  }

  function CodeCounts(sp: Spec, digits: nat, s: nat): Counts {
    var core := s + CodeZeros(sp, digits) + digits;
    var l := CodeLeft(sp, core);
    Counts(l, CodeZeros(sp, digits), Missing(sp.width, l + core))
  }

  lemma CoreShape(sp: Spec, digits: string, negative: bool)
    ensures Core(sp, digits, negative) == Sign(negative) + (Repeat('0', CodeZeros(sp, |digits|)) + digits)
  {
    MagnitudeShape(sp, digits);
    if !negative { assert "" + Magnitude(sp, digits) == Magnitude(sp, digits); }
  }

  lemma CodeShape(sp: Spec, digits: string, negative: bool)
    ensures NumberField(sp, digits, negative)
         == Shape(Sign(negative), digits, CodeCounts(sp, |digits|, |Sign(negative)|))
  {
    CoreShape(sp, digits, negative);
    var core := Core(sp, digits, negative);
    PadLeftShape(core, Min(sp.width, BUFFER_SIZE - 1), ' ');
    if sp.left { assert Repeat(' ', 0) + core == core; }
    PadRightShape(Buffered(sp, digits, negative), sp.width, ' ');
  }

  function IsoZeros(sp: Spec, digits: nat, s: nat): nat {
    if sp.hasPrec then Missing(sp.prec, digits)
    else if sp.zero && !sp.left then Missing(sp.width - s, digits)
    else 0
  }

  function IsoCounts(sp: Spec, digits: nat, s: nat): Counts {
    var z := IsoZeros(sp, digits, s);
    var blanks := Missing(sp.width, s + z + digits);
    if sp.left then Counts(0, z, blanks) else Counts(blanks, z, 0)
  }

  lemma IsoShape(sp: Spec, n: nat, b: Base, negative: bool)
    requires !(sp.hasPrec && sp.prec == 0 && n == 0)
    ensures IsoField(sp, n, b, negative)
         == Shape(Sign(negative), Numeral(n, b), IsoCounts(sp, |Numeral(n, b)|, |Sign(negative)|))
  {
    if sp.zero && !sp.hasPrec && !sp.left {
      IsoZeroShape(sp, n, b, negative);
    } else {
      IsoJustifiedShape(sp, n, b, negative);
    }
  }

  lemma IsoZeroShape(sp: Spec, n: nat, b: Base, negative: bool)
    requires sp.zero && !sp.hasPrec && !sp.left
    ensures IsoField(sp, n, b, negative)
         == Shape(Sign(negative), Numeral(n, b), IsoCounts(sp, |Numeral(n, b)|, |Sign(negative)|))
  {
    IsoZeroField(sp, n, b, negative);
    ZeroPaddedShape(Sign(negative), Numeral(n, b), sp.width);
    IsoZeroCounts(sp, |Numeral(n, b)|, |Sign(negative)|);
  }

  lemma IsoZeroField(sp: Spec, n: nat, b: Base, negative: bool)
    requires sp.zero && !sp.hasPrec && !sp.left
    ensures IsoField(sp, n, b, negative)
         == Sign(negative) + PadLeft(Numeral(n, b), sp.width - |Sign(negative)|, '0')
  {
    IsoDigitsPlain(sp, n, b);
  }

  lemma IsoZeroCounts(sp: Spec, digits: nat, s: nat)
    requires sp.zero && !sp.hasPrec && !sp.left
    ensures IsoCounts(sp, digits, s) == Counts(0, Missing(sp.width - s, digits), 0)
  {
  }

  lemma IsoJustifiedShape(sp: Spec, n: nat, b: Base, negative: bool)
    requires !(sp.hasPrec && sp.prec == 0 && n == 0) && !(sp.zero && !sp.hasPrec && !sp.left)
    ensures IsoField(sp, n, b, negative)
         == Shape(Sign(negative), Numeral(n, b), IsoCounts(sp, |Numeral(n, b)|, |Sign(negative)|))
  {
    var digits, sign := Numeral(n, b), Sign(negative);
    IsoDigitsPlain(sp, n, b);
    JustifiedShape(sp, sign, IsoDigits(sp, n, b), digits, IsoZeros(sp, |digits|, |sign|));
  }

  lemma ZeroPaddedShape(sign: string, digits: string, width: nat)
    ensures sign + PadLeft(digits, width - |sign|, '0')
         == Shape(sign, digits, Counts(0, Missing(width - |sign|, |digits|), 0))
  {
    PadLeftShape(digits, width - |sign|, '0');
    NoBlanks(sign + PadLeft(digits, width - |sign|, '0'));
  }

  lemma JustifiedShape(sp: Spec, sign: string, body: string, digits: string, z: nat)
    requires body == Repeat('0', z) + digits
    ensures var blanks := Missing(sp.width, |sign + body|);
            && PadLeft(sign + body, sp.width, ' ') == Shape(sign, digits, Counts(blanks, z, 0))
            && PadRight(sign + body, sp.width, ' ') == Shape(sign, digits, Counts(0, z, blanks))
  {
    Justified(sp, sign + body);
  }

  lemma Justified(sp: Spec, core: string)
    ensures PadLeft(core, sp.width, ' ') == Repeat(' ', Missing(sp.width, |core|)) + core + Repeat(' ', 0)
    ensures PadRight(core, sp.width, ' ') == Repeat(' ', 0) + core + Repeat(' ', Missing(sp.width, |core|))
  {
    PadLeftShape(core, sp.width, ' ');
    PadRightShape(core, sp.width, ' ');
    NoBlanks(core);
    NoBlanks(PadLeft(core, sp.width, ' '));
  }

  lemma IsoDigitsPlain(sp: Spec, n: nat, b: Base)
    requires !(sp.hasPrec && sp.prec == 0 && n == 0)
    ensures !sp.hasPrec ==> IsoDigits(sp, n, b) == Numeral(n, b)
    ensures IsoDigits(sp, n, b)
         == Repeat('0', if sp.hasPrec then Missing(sp.prec, |Numeral(n, b)|) else 0) + Numeral(n, b)
  {
    PadLeftShape(Numeral(n, b), if sp.hasPrec then sp.prec else 1, '0');
    if !sp.hasPrec { assert Repeat('0', 0) + Numeral(n, b) == Numeral(n, b); }
  }

  lemma NoBlanks(s: string)
    ensures Repeat(' ', 0) + s == s && s + Repeat(' ', 0) == s
  {
  }

  lemma CountsAsInIsoC(k: Asked, n: nat, digits: nat, negative: bool)
    requires 0 < digits <= 10 && !(k.prec == Some(0) && n == 0)
    ensures CodeCounts(Taken(k), digits, |Sign(negative)|) == IsoCounts(Meant(k), digits, |Sign(negative)|)
       <==> AsInIsoC(k, n, digits, negative)
  {
  }

  /** An integer directive gives the characters that ISO C asks for if and only if `AsInIsoC`. */
  lemma NumberAsInIsoC(k: Asked, n: u32, b: Base, negative: bool)
    requires negative ==> n > 0
    ensures NumberField(Taken(k), Numeral(n, b), negative) == IsoField(Meant(k), n, b, negative)
       <==> AsInIsoC(k, n, |Numeral(n, b)|, negative)
  {
    NumeralFits(n, b);
    if k.prec == Some(0) && n == 0 {
      ZeroAtPrecisionZero(Taken(k), b);
    } else {
      CountsAsInIsoC(k, n, |Numeral(n, b)|, negative);
      FieldsBySameCounts(Taken(k), Meant(k), n, b, negative);
    }
  }

  lemma FieldsBySameCounts(sp: Spec, sp': Spec, n: nat, b: Base, negative: bool)
    requires !(sp'.hasPrec && sp'.prec == 0 && n == 0)
    ensures var digits, s := |Numeral(n, b)|, |Sign(negative)|;
            NumberField(sp, Numeral(n, b), negative) == IsoField(sp', n, b, negative)
            <==> CodeCounts(sp, digits, s) == IsoCounts(sp', digits, s)
  {
    var digits, s := Numeral(n, b), |Sign(negative)|;
    NumeralSolid(n, b);
    CodeShape(sp, digits, negative);
    IsoShape(sp', n, b, negative);
    ShapeUnique(Sign(negative), digits, CodeCounts(sp, |digits|, s), IsoCounts(sp', |digits|, s));
  }

  /**
   * What ISO C reads in a directive of the form the source parses, from behind the `%`: one flag at most, or more
   * that change nothing, since a zero behind a minus flag reads as part of the width.
   */
  function AskedOf(s: string, args: seq<Arg>): Asked {
    var c := At(s, 0);
    var (width, s2) := ScanNumber(if c == '0' || c == '-' then s[1..] else s, 0);
    var prec :=
      if At(s2, 0) != '.' then None
      else if At(s2, 1) == '*' then Some(AsSigned(Next(args)))
      else Some(ScanNumber(s2[1..], 0).0);
    Asked(c == '0', c == '-', width, prec)
  }

  lemma TakenFrom(s: string, args: seq<Arg>)
    ensures var sp := ParseDirective(s, args).spec; sp == Taken(AskedOf(s, args)).(long := sp.long)
  {
  }

  /** For every directive that the source parses as an integer directive, with the arguments as they are passed. */
  lemma DirectiveAsInIsoC(s: string, args: seq<Arg>)
    requires IsInteger(At(ParseDirective(s, args).rest, 0))
    ensures var d, k := ParseDirective(s, args), AskedOf(s, args);
            var c, a := At(d.rest, 0), Next(d.args);
            var n, b := NumberOf(c, a), BaseOf(c);
            Convert(c, d.spec, a) == IsoField(Meant(k), Abs(n), b, n < 0)
            <==> AsInIsoC(k, Abs(n), |Numeral(Abs(n), b)|, n < 0)
  {
    var d, k := ParseDirective(s, args), AskedOf(s, args);
    var c, a := At(d.rest, 0), Next(d.args);
    var n, b := NumberOf(c, a), BaseOf(c);
    TakenFrom(s, args);
    IntegerField(c, d.spec, Taken(k), a);
    NumberAsInIsoC(k, Abs(n), b, n < 0);
  }

  lemma IntegerField(c: char, sp: Spec, sp': Spec, a: Arg)
    requires IsInteger(c) && sp == sp'.(long := sp.long)
    ensures Convert(c, sp, a) == NumberField(sp', Numeral(Abs(NumberOf(c, a)), BaseOf(c)), NumberOf(c, a) < 0)
  {
    IntegerConversion(c, sp, a);
    LongIgnored(sp, sp', Numeral(Abs(NumberOf(c, a)), BaseOf(c)), NumberOf(c, a) < 0);
  }

  lemma IntegerConversion(c: char, sp: Spec, a: Arg)
    requires IsInteger(c)
    ensures Convert(c, sp, a) == NumberField(sp, Numeral(Abs(NumberOf(c, a)), BaseOf(c)), NumberOf(c, a) < 0)
  {
  }

  /** The length modifier has no effect. */
  lemma LongIgnored(sp: Spec, sp': Spec, digits: string, negative: bool)
    requires sp == sp'.(long := sp.long)
    ensures NumberField(sp, digits, negative) == NumberField(sp', digits, negative)
  {
    assert Magnitude(sp, digits) == Magnitude(sp', digits);
    assert Buffered(sp, digits, negative) == Buffered(sp', digits, negative);
  }

  /** For example "%.*d" with -5 and 3: the source gives 00003, ISO C asks for 3. */
  lemma NegativePrecision(args: seq<Arg>)
    requires args == [Int(-5), Int(3)]
    ensures var d, k := ParseDirective(".*d", args), AskedOf(".*d", args);
            && At(d.rest, 0) == 'd' && Next(d.args) == Int(3) && k == Asked(false, false, 0, Some(-5))
            && Convert('d', d.spec, Int(3)) == "00003" && IsoField(Meant(k), 3, Decimal, false) == "3"
  {
    var s := ".*d";
    assert s[2..] == "d" && s[1..] == "*d";
    assert AsSigned(args[0]) == -5 && AsSigned(Int(3)) == 3;
    assert Numeral(3, Decimal) == "3";
    assert Repeat('0', 4) == "0000";
  }

  /** ISO C has no digit there, the source prints 0. */
  lemma ZeroAtPrecisionZero(sp: Spec, b: Base)
    requires sp.hasPrec && sp.prec == 0
    ensures NumberField(sp, Numeral(0, b), false) != IsoField(sp, 0, b, false)
  {
    var digits := Numeral(0, b);
    NumeralSolid(0, b);
    CodeShape(sp, digits, false);
    ShapeEnds("", digits, CodeCounts(sp, |digits|, 0));
    assert AllBlank(IsoField(sp, 0, b, false));
  }

  predicate AllBlank(s: string) {
    forall k :: 0 <= k < |s| ==> s[k] == ' '
  }

  lemma PlainField(digits: string)
    ensures NumberField(Spec(false, false, 0, false, 0, false), digits, false) == digits
  {
  }

  lemma TextFieldLength(sp: Spec, s: string)
    ensures |TextField(sp, s)| == Max(sp.width, if sp.hasPrec then Min(sp.prec, |s|) else |s|)
  {
  }

  /** An unknown conversion character is emitted twice: once for the directive, and again as ordinary text. */
  lemma UnknownConversionTwice(c: char, rest: string, args: seq<Arg>)
    requires !IsConversion(c) && !IsDigit(c) && c !in {'-', '.', 'l', '%'}
    ensures Render("%" + [c] + rest, args) == [c, c] + Render(rest, args)
  {
    var fmt := "%" + [c] + rest;
    assert fmt[1..] == [c] + rest;
    var d := ParseDirective(fmt[1..], args);
    assert d.rest == [c] + rest && d.args == args;
    assert d.rest[1..] == rest;
    assert Render(d.rest, args) == [c] + Render(rest, args);
    assert Render(fmt, args) == [c] + ([c] + Render(rest, args));
  }

  /** A second flag, or a `*` for the width behind a flag, makes the directive an unknown one: "%0-5d" gives --5d. */
  lemma SecondFlagUnknown(f: char, c: char, rest: string, args: seq<Arg>)
    requires f in {'0', '-'} && c in {'-', '+', ' ', '#', '*'}
    ensures Render("%" + ([f, c] + rest), args) == [c] + Render([c] + rest, args)
    ensures Render([c] + rest, args) == [c] + Render(rest, args)
  {
    var s, fmt := [f, c] + rest, "%" + ([f, c] + rest);
    assert fmt[1..] == s && s[1..] == [c] + rest;
    var d := ParseDirective(s, args);
    assert d.rest == [c] + rest && d.args == args;
    RenderChar(c, rest, args);
  }

  /** `%%` is not an escape: its second character starts a directive of its own. */
  lemma PercentPercent(rest: string, args: seq<Arg>)
    ensures Render("%%" + rest, args) == "%" + Render("%" + rest, args)
    ensures Render("%%", args) == ['%', NUL]
  {
    PercentIsUnknown(rest, args);
    PercentIsUnknown("", args);
    assert "%%" + "" == "%%" && "%" + "" == "%";
    assert ParseDirective("%"[1..], args).rest == "";
    assert Render("", args) == "";
    assert Render("%", args) == [NUL] + Render("", args);
  }

  lemma PercentIsUnknown(rest: string, args: seq<Arg>)
    ensures Render("%%" + rest, args) == "%" + Render("%" + rest, args)
  {
    var fmt := "%%" + rest;
    assert fmt[1..] == "%" + rest;
    assert ParseDirective(fmt[1..], args).rest == "%" + rest;
  }

  /** Ordinary characters are emitted as they are. */
  lemma {:induction false} RenderLiteral(s: string, rest: string, args: seq<Arg>)
    requires '%' !in s
    ensures Render(s + rest, args) == s + Render(rest, args)
  {
    if s == "" {
      assert s + rest == rest;
    } else {
      var t := s[1..];
      assert s + rest == [s[0]] + (t + rest);
      RenderChar(s[0], t + rest, args);
      RenderLiteral(t, rest, args);
      Assoc([s[0]], t, Render(rest, args));
      assert s == [s[0]] + t;
    }
  }

  lemma RenderChar(c: char, rest: string, args: seq<Arg>)
    requires c != '%'
    ensures Render([c] + rest, args) == [c] + Render(rest, args)
  {
    assert ([c] + rest)[1..] == rest;
  }

  /** A directive of a zero flag and a one-digit width. */
  lemma RenderZeroPadded(n: nat, c: char, rest: string, a: Arg, args: seq<Arg>)
    requires 0 < n < 10 && IsConversion(c)
    ensures Render("%0" + [DigitChar(n, Decimal), c] + rest, [a] + args)
         == Convert(c, Spec(true, false, n, false, 0, false), a) + Render(rest, args)
  {
    var fmt, s := "%0" + [DigitChar(n, Decimal), c] + rest, [DigitChar(n, Decimal), c] + rest;
    assert fmt[1..] == "0" + s && ("0" + s)[1..] == s && s[1..] == [c] + rest && ([c] + rest)[1..] == rest;
    assert ScanNumber([c] + rest, n) == (n, [c] + rest);
    assert ScanNumber(s, 0) == ScanNumber(s[1..], 0 * 10 + n);
    var d := ParseDirective(fmt[1..], [a] + args);
    assert d == Directive(Spec(true, false, n, false, 0, false), [c] + rest, [a] + args);
    assert Others([a] + args) == args;
  }

  /** A directive of just a conversion character. */
  lemma RenderPlain(c: char, rest: string, a: Arg, args: seq<Arg>)
    requires IsConversion(c)
    ensures Render("%" + [c] + rest, [a] + args)
         == Convert(c, Spec(false, false, 0, false, 0, false), a) + Render(rest, args)
  {
    var fmt := "%" + [c] + rest;
    assert fmt[1..] == [c] + rest && ([c] + rest)[1..] == rest;
    assert ScanNumber([c] + rest, 0) == (0, [c] + rest);
    var d := ParseDirective(fmt[1..], [a] + args);
    assert d == Directive(Spec(false, false, 0, false, 0, false), [c] + rest, [a] + args);
    assert Others([a] + args) == args;
  }
}
