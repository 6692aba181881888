/** lib-dmxnode/include/dmxslotinfo.h: slot types and categories, printed as "TT:CCCC,TT:CCCC" and parsed back. */
module SlotInfo {
  import opened Words
  import opened Text

  datatype Slot = Slot(kind: byte, category: u16)

  /** ST_PRIMARY, SD_UNDEFINED */
  const UNDEFINED := Slot(0x00, 0xFFFF)

  const NULL := -1

  // ---------------------------------------------------------------- printing

  /** The slots whose bit is set in the mask, in order. */
  function Chosen(slots: seq<Slot>, mask: nat): (r: seq<Slot>)
    ensures |r| <= |slots|
    decreases |slots|
  {
    if slots == [] then []
    else (if mask % 2 == 1 then [slots[0]] else []) + Chosen(slots[1..], mask / 2)
  }

  function Spell(s: Slot): (r: string)
    ensures |r| == 7
  {
    Hex(s.kind, 2, HexUpper) + ":" + Hex(s.category, 4, HexUpper)
  }

  function WithCommas(es: seq<Slot>): (r: string)
    ensures |r| == 8 * |es|
    decreases |es|
  {
    if es == [] then "" else (Spell(es[0]) + ",") + WithCommas(es[1..])
  }

  /** The entries with commas between them. */
  function Listing(es: seq<Slot>): string {
    var s := WithCommas(es);
    if s == "" then "" else s[..|s| - 1]
  }

  // ---------------------------------------------------------------- parsing

  datatype Scan = Scan(value: nat, next: nat, left: nat)

  /** At most `n` digits up to a stop character, read onto `value`. */
  function ScanHex(mem: Memory, p: nat, n: nat, value: nat, stops: set<char>): Option<Scan>
    decreases n, mem
  {
    if n == 0 || mem(p) in stops then Some(Scan(value, p, n))
    else if !IsXDigit(mem(p)) then None
    else ScanHex(mem, p + 1, n - 1, value * 16 + DigitValue(mem(p)), stops)
  }

  datatype Parsed = Parsed(next: int, valid: bool, slot: Slot)

  const INVALID := Parsed(NULL, false, UNDEFINED)

  const COLON: set<char> := {':'}
  const ENTRY_END: set<char> := {',', NUL}

  /** The character behind the type is skipped unseen. */
  function Parse(mem: Memory, p: nat): (r: Parsed)
    ensures r.next >= NULL
  {
    match ScanHex(mem, p, 2, 0, COLON)
    case None => INVALID
    case Some(kind) =>
      match ScanHex(mem, kind.next + 1, 4, 0, ENTRY_END)
      case None => INVALID
      case Some(c) =>
        if c.left != 0 || mem(c.next) !in {',', ' ', NUL} then INVALID
        else Parsed(if mem(c.next) == NUL then NULL else c.next + 1, true, Slot(kind.value % 0x100, Wrap16(c.value)))
  }

  datatype Loaded = Loaded(mask: nat, slots: seq<Slot>)

  /** Reading into the slots, until one is not valid or the text ends. */
  function Load(mem: Memory, p: int, slots: seq<Slot>): (r: Loaded)
    requires p >= NULL
    ensures |r.slots| == |slots|
    decreases |slots|
  {
    if slots == [] || p == NULL then Loaded(0, slots)
    else
      var q := Parse(mem, p);
      var rest := Load(mem, q.next, slots[1..]);
      Loaded((if q.valid then 1 else 0) + 2 * rest.mask, [if q.valid then q.slot else slots[0]] + rest.slots)
  }

  // ---------------------------------------------------------------- in place

  class DmxSlotInfo {
    const slotInfo: array<Slot>
    /** The text in the buffer `to_string_`. */
    var held: string

    constructor (slotInfo: array<Slot>)
      requires slotInfo.Length > 0
      modifies slotInfo
      ensures this.slotInfo == slotInfo && forall i :: 0 <= i < slotInfo.Length ==> slotInfo[i] == UNDEFINED
      ensures held == ""
    {
      this.slotInfo, held := slotInfo, "";
      for i := 0 to slotInfo.Length
        invariant forall k :: 0 <= k < i ==> slotInfo[k] == UNDEFINED
      {
        slotInfo[i] := UNDEFINED;
      }
    }

    /**
     * The text stays in the buffer until the next call. With bits but none for a slot there is no last comma to
     * overwrite: the terminator goes in front of the buffer, which keeps its text. `inside` says whether all that is
     * written lies in the buffer of seven characters a slot.
     */
    method ToString(mask: u32) returns (text: string, ghost inside: bool)
      requires slotInfo.Length > 0
      modifies this`held
      ensures var es := Chosen(slotInfo[..], mask);
              && text == held == (if mask != 0 && es == [] then old(held) else Listing(es))
              && (inside <==> (mask == 0 || es != []) && 8 * |es| <= 7 * slotInfo.Length)
              && (mask == 0 || es != [] ==> Lists(text, slotInfo[..], mask))
    {
      ListingLists(slotInfo[..], mask);
      if mask == 0 {
        NoneChosen(slotInfo[..]);
        held := "";
        return held, true;
      }
      text := ListSlots(mask);
      inside := 0 < |text| <= 7 * slotInfo.Length;
      if text != "" {
        held := text[..|text| - 1];
      }
      text := held;
    }

    /** The loop over the slots: the entries, each with a comma. */
    method ListSlots(mask: u32) returns (text: string)
      ensures text == WithCommas(Chosen(slotInfo[..], mask))
    {
      ghost var all := WithCommas(Chosen(slotInfo[..], mask));
      text := "";
      var rest: nat := mask;
      for i := 0 to slotInfo.Length
        invariant text + WithCommas(Chosen(slotInfo[..][i..], rest)) == all
      {
        ChosenStep(slotInfo[..], i, rest);
        if rest % 2 == 1 {
          text := Append(text, slotInfo[i], Chosen(slotInfo[..][i + 1..], rest / 2));
        }
        rest := rest / 2;
      }
    }

    /** The eight characters of an entry. */
    method Append(text: string, slot: Slot, ghost es: seq<Slot>) returns (text': string)
      ensures text' + WithCommas(es) == text + WithCommas([slot] + es)
    {
      var k, c := slot.kind, slot.category;
      var kind := [ToCharUppercase(k / 0x10), ToCharUppercase(k)];
      var category :=
        [ToCharUppercase(c / 0x1000), ToCharUppercase(c / 0x100), ToCharUppercase(c / 0x10), ToCharUppercase(c)];
      text' := text + (kind + ":" + category + ",");
      TwoDigits(k);
      FourDigits(c);
      assert ([slot] + es)[1..] == es;
      Assoc(text, Spell(slot) + ",", WithCommas(es));
    }

    /** A slot is written only if its entry is valid. */
    method LoadSlot(mem: Memory, p: nat, i: nat) returns (q: Parsed)
      requires i < slotInfo.Length
      modifies slotInfo
      ensures q == Parse(mem, p) && slotInfo[..] == Stored(old(slotInfo[..]), i, q)
    {
      q := ParseEntry(mem, p);
      if q.valid {
        slotInfo[i] := q.slot;
      }
    }

    /** The mask says which slots were read. */
    method FromString(mem: Memory) returns (mask: u32)
      requires slotInfo.Length <= 32
      modifies slotInfo
      ensures Loaded(mask, slotInfo[..]) == Load(mem, 0, old(slotInfo[..]))
    {
      var bits: nat := 0;
      var p: int := 0;
      var bit: nat := 1;
      ghost var was := slotInfo[..];
      var i := 0;
      while i < slotInfo.Length && p != NULL
        invariant i <= slotInfo.Length && p >= NULL
        invariant InProgress(mem, was, slotInfo[..], i, p, bits, bit)
      {
        Progressed(mem, was, slotInfo[..], i, p, bits, bit);
        var q := LoadSlot(mem, p, i);
        if q.valid {
          bits := bits + bit;
        }
        bit := 2 * bit;
        p := q.next;
        i := i + 1;
      }
      Completed(mem, was, slotInfo[..], i, p, bits, bit);
      mask := bits;
    }
  }

  function Stored(slots: seq<Slot>, i: nat, q: Parsed): seq<Slot>
    requires i < |slots|
  {
    if q.valid then slots[i := q.slot] else slots
  }

  /** The first `i` slots are done: what they hold and the mask so far, completed by loading the rest, is all. */
  ghost predicate InProgress(mem: Memory, was: seq<Slot>, slots: seq<Slot>, i: nat, p: int, bits: nat, bit: nat)
    requires p >= NULL
  {
    && i <= |was| == |slots| && slots[i..] == was[i..] && bits < bit == Power2(i)
    && Load(mem, 0, was).slots == slots[..i] + Load(mem, p, was[i..]).slots
    && Load(mem, 0, was).mask == bits + bit * Load(mem, p, was[i..]).mask
  }

  lemma Progressed(mem: Memory, was: seq<Slot>, slots: seq<Slot>, i: nat, p: nat, bits: nat, bit: nat)
    requires InProgress(mem, was, slots, i, p, bits, bit) && i < |was|
    ensures var q := Parse(mem, p);
            InProgress(mem, was, Stored(slots, i, q), i + 1, q.next, if q.valid then bits + bit else bits, 2 * bit)
  {
    var q := Parse(mem, p);
    var slots' := Stored(slots, i, q);
    assert was[i..][0] == was[i] && was[i..][1..] == was[i + 1..];
    assert slots'[i + 1..] == was[i + 1..] by { assert slots'[i + 1..] == slots[i..][1..]; }
    assert slots[i..][0] == was[i];
    assert slots'[..i + 1] == slots[..i] + [slots'[i]];
    var rest := Load(mem, q.next, was[i + 1..]);
    Carry(bit, rest.mask);
    Assoc(slots[..i], [slots'[i]], rest.slots);
  }

  lemma Completed(mem: Memory, was: seq<Slot>, slots: seq<Slot>, i: nat, p: int, bits: nat, bit: nat)
    requires p >= NULL && InProgress(mem, was, slots, i, p, bits, bit) && (i == |was| || p == NULL) && |was| <= 32
    ensures Load(mem, 0, was) == Loaded(bits, slots) && bits < WORD
  {
    Power2Bound(i);
  }

  lemma Carry(bit: nat, m: nat)
    ensures bit * (2 * m) == (2 * bit) * m && bit * (1 + 2 * m) == bit + (2 * bit) * m
  {
  }

  lemma ChosenStep(slots: seq<Slot>, i: nat, mask: nat)
    requires i < |slots|
    ensures Chosen(slots[i..], mask) == (if mask % 2 == 1 then [slots[i]] else []) + Chosen(slots[i + 1..], mask / 2)
    ensures mask % 2 == 0 ==> Chosen(slots[i..], mask) == Chosen(slots[i + 1..], mask / 2)
  {
    assert slots[i..][0] == slots[i] && slots[i..][1..] == slots[i + 1..];
  }

  function ToCharUppercase(value: nat): char {
    DigitChar(value % 0x10, HexUpper)
  }

  lemma FourDigits(c: nat)
    ensures Hex(c, 4, HexUpper)
         == [ToCharUppercase(c / 0x1000), ToCharUppercase(c / 0x100), ToCharUppercase(c / 0x10), ToCharUppercase(c)]
  {
    TwoDigits(c / 0x100);
    Shifts(c);
    TwoMore(c, 4);
  }

  lemma Shifts(c: nat)
    ensures c / 0x10 / 0x10 == c / 0x100 && c / 0x100 / 0x10 == c / 0x1000
  {
  }

  lemma TwoDigits(v: nat)
    ensures Hex(v, 2, HexUpper) == [ToCharUppercase(v / 0x10), ToCharUppercase(v)]
  {
    TwoMore(v, 2);
    assert Hex(v / 0x10 / 0x10, 0, HexUpper) == "";
  }

  lemma TwoMore(v: nat, n: nat)
    requires n >= 2
    ensures Hex(v, n, HexUpper)
         == Hex(v / 0x10 / 0x10, n - 2, HexUpper) + [ToCharUppercase(v / 0x10), ToCharUppercase(v)]
  {
    assert Hex(v, n, HexUpper) == Hex(v / 0x10, n - 1, HexUpper) + [ToCharUppercase(v)];
    assert Hex(v / 0x10, n - 1, HexUpper) == Hex(v / 0x10 / 0x10, n - 2, HexUpper) + [ToCharUppercase(v / 0x10)];
  }

  lemma {:induction false} NoneChosen(slots: seq<Slot>)
    ensures Chosen(slots, 0) == []
    decreases |slots|
  {
    if slots == [] {
    } else {
      NoneChosen(slots[1..]);
    }
  }

  /** One of the two digit loops. */
  method ReadHex(mem: Memory, start: nat, n: nat, stops: set<char>) returns (ok: bool, value: nat, p: nat, left: nat)
    ensures ScanHex(mem, start, n, 0, stops) == if ok then Some(Scan(value, p, left)) else None
  {
    value, p, left := 0, start, n;
    while left > 0 && mem(p) !in stops
      invariant ScanHex(mem, start, n, 0, stops) == ScanHex(mem, p, left, value, stops)
      decreases left
    {
      if !IsXDigit(mem(p)) {
        return false, value, p, left;
      }
      value := value * 16 + DigitValue(mem(p));
      p := p + 1;
      left := left - 1;
    }
    ok := true;
  }

  method ParseEntry(mem: Memory, s: nat) returns (r: Parsed)
    ensures r == Parse(mem, s)
  {
    var ok, kind, b, left := ReadHex(mem, s, 2, COLON);
    if !ok {
      return INVALID;
    }
    var category;
    ok, category, b, left := ReadHex(mem, b + 1, 4, ENTRY_END);
    if !ok || left != 0 {
      return INVALID;
    }
    if mem(b) != ',' && mem(b) != ' ' && mem(b) != NUL {
      return INVALID;
    }
    r := Parsed(if mem(b) == NUL then NULL else b + 1, true, Slot(kind % 0x100, Wrap16(category)));
  }

  // ---------------------------------------------------------------- what is printed

  /** The mask chooses slot `i`. */
  predicate Bit(mask: nat, i: nat) {
    mask / Power2(i) % 2 == 1
  }

  /** How many slots before `i` it chooses. */
  function Rank(mask: nat, i: nat): nat {
    if i == 0 then 0 else Rank(mask, i - 1) + if Bit(mask, i - 1) then 1 else 0
  }

  predicate UpperHex(s: string) {
    forall k :: 0 <= k < |s| ==> '0' <= s[k] <= '9' || 'A' <= s[k] <= 'F'
  }

  /** Two upper-case digits of the type, a colon, and four of the category stand at `j`. */
  predicate EntryAt(text: string, j: nat, s: Slot) {
    && j + 7 <= |text| && text[j + 2] == ':'
    && UpperHex(text[j..j + 2]) && UpperHex(text[j + 3..j + 7])
    && AllXDigits(text[j..j + 2]) && ValueOf(text[j..j + 2], HexUpper) == s.kind
    && AllXDigits(text[j + 3..j + 7]) && ValueOf(text[j + 3..j + 7], HexUpper) == s.category
  }

  /** The entries of the slots chosen, in order, eight characters apart, with commas between them. */
  predicate Lists(text: string, slots: seq<Slot>, mask: nat) {
    var n := Rank(mask, |slots|);
    && |text| == Max(8 * n - 1, 0)
    && (forall i :: 0 <= i < |slots| && Bit(mask, i) ==> EntryAt(text, 8 * Rank(mask, i), slots[i]))
    && (forall k :: 0 < k < n ==> text[8 * k - 1] == ',')
  }

  lemma BitOfHalf(mask: nat, i: nat)
    ensures Bit(mask, i + 1) == Bit(mask / 2, i) && Bit(mask, 0) == (mask % 2 == 1)
  {
    QuotientTwice(mask, 2, Power2(i));
    assert Power2(0) == 1 && mask / 1 == mask;
  }

  lemma {:induction false} RankOfHalf(mask: nat, i: nat)
    ensures Rank(mask, i + 1) == mask % 2 + Rank(mask / 2, i)
  {
    BitOfHalf(mask, i);
    if i == 0 {
      assert Rank(mask, 1) == Rank(mask, 0) + if Bit(mask, 0) then 1 else 0;
    } else {
      RankOfHalf(mask, i - 1);
      BitOfHalf(mask, i - 1);
    }
  }

  /** What is chosen are the slots with a bit in the mask, each at its rank. */
  lemma {:induction false} ChosenByBits(slots: seq<Slot>, mask: nat)
    ensures |Chosen(slots, mask)| == Rank(mask, |slots|)
    ensures forall i :: 0 <= i < |slots| && Bit(mask, i) ==>
              Rank(mask, i) < |Chosen(slots, mask)| && Chosen(slots, mask)[Rank(mask, i)] == slots[i]
    decreases |slots|
  {
    if slots == [] {
    } else {
      ChosenByBits(slots[1..], mask / 2);
      RankOfHalf(mask, |slots| - 1);
      forall i | 0 <= i < |slots| && Bit(mask, i)
        ensures Rank(mask, i) < |Chosen(slots, mask)| && Chosen(slots, mask)[Rank(mask, i)] == slots[i]
      {
        ChosenBit(slots, mask, i);
      }
    }
  }

  lemma ChosenBit(slots: seq<Slot>, mask: nat, i: nat)
    requires i < |slots| && Bit(mask, i)
    requires i > 0 ==> var r, es := Rank(mask / 2, i - 1), Chosen(slots[1..], mask / 2);
                       Bit(mask / 2, i - 1) ==> r < |es| && es[r] == slots[1..][i - 1]
    ensures Rank(mask, i) < |Chosen(slots, mask)| && Chosen(slots, mask)[Rank(mask, i)] == slots[i]
  {
    if i == 0 {
      BitOfHalf(mask, 0);
    } else {
      BitOfHalf(mask, i - 1);
      RankOfHalf(mask, i - 1);
    }
  }

  lemma {:induction false} HexIsUpper(v: nat, n: nat)
    ensures UpperHex(Hex(v, n, HexUpper))
    decreases n
  {
    if n == 0 {
    } else {
      HexIsUpper(v / 16, n - 1);
    }
  }

  lemma SpellIsEntry(s: Slot)
    ensures EntryAt(Spell(s), 0, s)
  {
    var kind, category := Hex(s.kind, 2, HexUpper), Hex(s.category, 4, HexUpper);
    HexPower(HexUpper);
    HexValue(s.kind, 2, HexUpper);
    HexValue(s.category, 4, HexUpper);
    HexIsUpper(s.kind, 2);
    HexIsUpper(s.category, 4);
    ColonBetween(kind, category);
  }

  lemma ColonBetween(kind: string, category: string)
    requires |kind| == 2 && |category| == 4
    ensures var t := kind + ":" + category; t[0..2] == kind && t[2] == ':' && t[3..7] == category
  {
  }

  lemma EntryWithin(t: string, text: string, j: nat, s: Slot)
    requires EntryAt(t, 0, s) && |t| == 7 && j + 7 <= |text| && text[j..j + 7] == t
    ensures EntryAt(text, j, s)
  {
    assert text[j..j + 2] == t[0..2] && text[j + 3..j + 7] == t[3..7] && text[j + 2] == t[2];
  }

  lemma {:induction false} CommasAt(es: seq<Slot>, k: nat)
    requires k < |es|
    ensures WithCommas(es)[8 * k..8 * k + 7] == Spell(es[k]) && WithCommas(es)[8 * k + 7] == ','
    decreases k
  {
    var t := WithCommas(es[1..]);
    if k > 0 {
      CommasAt(es[1..], k - 1);
      SliceBehind(Spell(es[0]) + ",", t, 8 * (k - 1), 8 * (k - 1) + 7);
    }
  }

  lemma ListingEntry(es: seq<Slot>, k: nat)
    requires k < |es|
    ensures EntryAt(Listing(es), 8 * k, es[k])
  {
    CommasAt(es, k);
    SpellIsEntry(es[k]);
    SubSlice(WithCommas(es), 0, |Listing(es)|, 8 * k, 8 * k + 7);
    EntryWithin(Spell(es[k]), Listing(es), 8 * k, es[k]);
  }

  lemma ListingLists(slots: seq<Slot>, mask: nat)
    ensures Lists(Listing(Chosen(slots, mask)), slots, mask)
  {
    var es := Chosen(slots, mask);
    ChosenByBits(slots, mask);
    forall i | 0 <= i < |slots| && Bit(mask, i) ensures EntryAt(Listing(es), 8 * Rank(mask, i), slots[i]) {
      ListingEntry(es, Rank(mask, i));
    }
    forall k | 0 < k < |es| ensures Listing(es)[8 * k - 1] == ',' {
      CommasAt(es, k - 1);
    }
  }

  // ---------------------------------------------------------------- what is accepted

  /** `n` hexadecimal digits stand at `p`. */
  predicate HexAt(mem: Memory, p: nat, n: nat) {
    AllXDigits(TextAt(mem, p, n))
  }

  /**
   * At `p` stand a type of two digits, or of fewer before a colon; then any character; then a category of four digits;
   * then a comma, a blank or the terminator. `n` is the number of digits of the type.
   */
  predicate EntryShape(mem: Memory, p: nat, n: nat) {
    && n <= 2 && HexAt(mem, p, n) && (n == 2 || mem(p + n) == ':')
    && HexAt(mem, p + n + 1, 4) && IsEnd(mem(p + n + 5))
  }

  lemma NextDigit(mem: Memory, p: nat, j: nat, n: nat)
    requires j < n && HexAt(mem, p, n)
    ensures IsXDigit(mem(p + j)) && AllXDigits(TextAt(mem, p, j)) && AllXDigits(TextAt(mem, p, j + 1))
    ensures ValueOf(TextAt(mem, p, j + 1), HexUpper)
         == ValueOf(TextAt(mem, p, j), HexUpper) * 16 + DigitValue(mem(p + j))
  {
    HexInside(mem, p, n, j);
    assert TextAt(mem, p, j) == TextAt(mem, p, n)[..j];
    HexOneMore(mem, p, j);
    assert TextAt(mem, p, j + 1)[..j] == TextAt(mem, p, j);
  }

  lemma {:induction false} ScanWhole(mem: Memory, p: nat, j: nat, n: nat, stops: set<char>)
    requires j <= n && HexAt(mem, p, n) && forall c :: c in stops ==> !IsXDigit(c)
    ensures AllXDigits(TextAt(mem, p, j))
    ensures ScanHex(mem, p + j, n - j, ValueOf(TextAt(mem, p, j), HexUpper), stops)
         == Some(Scan(ValueOf(TextAt(mem, p, n), HexUpper), p + n, 0))
    decreases n - j
  {
    if j < n {
      NextDigit(mem, p, j, n);
      ScanWhole(mem, p, j + 1, n, stops);
    }
  }

  /** The scan stops early at a stop character, or fails at another one. */
  lemma {:induction false} ScanPart(mem: Memory, p: nat, j: nat, n: nat, end: nat, stops: set<char>)
    requires j <= end < n && HexAt(mem, p, end) && !IsXDigit(mem(p + end)) && forall c :: c in stops ==> !IsXDigit(c)
    ensures AllXDigits(TextAt(mem, p, j))
    ensures ScanHex(mem, p + j, n - j, ValueOf(TextAt(mem, p, j), HexUpper), stops)
         == if mem(p + end) in stops then Some(Scan(ValueOf(TextAt(mem, p, end), HexUpper), p + end, n - end)) else None
    decreases end - j
  {
    if j < end {
      NextDigit(mem, p, j, end);
      ScanPart(mem, p, j + 1, n, end, stops);
    }
  }

  lemma HexInside(mem: Memory, p: nat, n: nat, k: nat)
    requires HexAt(mem, p, n) && k < n
    ensures IsXDigit(mem(p + k))
  {
    assert TextAt(mem, p, n)[k] == mem(p + k);
  }

  lemma HexOneMore(mem: Memory, p: nat, n: nat)
    requires HexAt(mem, p, n) && IsXDigit(mem(p + n))
    ensures HexAt(mem, p, n + 1)
  {
    var s := TextAt(mem, p, n + 1);
    assert s == TextAt(mem, p, n) + [mem(p + n)];
  }

  /** How many digits stand at `p`, up to `n`. */
  function DigitsAt(mem: Memory, p: nat, n: nat): (k: nat)
    ensures k <= n && HexAt(mem, p, k) && (k < n ==> !IsXDigit(mem(p + k)))
  {
    if n == 0 then 0
    else
      var k := DigitsAt(mem, p, n - 1);
      if k == n - 1 && IsXDigit(mem(p + k)) then HexOneMore(mem, p, k); n else k
  }

  lemma ScanExact(mem: Memory, p: nat, n: nat, stops: set<char>)
    requires forall c :: c in stops ==> !IsXDigit(c)
    ensures var k := DigitsAt(mem, p, n);
            ScanHex(mem, p, n, 0, stops)
            == if k == n || mem(p + k) in stops then Some(Scan(ValueOf(TextAt(mem, p, k), HexUpper), p + k, n - k))
               else None
  {
    var k := DigitsAt(mem, p, n);
    assert TextAt(mem, p, 0) == "";
    if k == n { ScanWhole(mem, p, 0, n, stops); } else { ScanPart(mem, p, 0, n, k, stops); }
  }

  lemma ShapeDigits(mem: Memory, p: nat, n: nat)
    requires n <= 2 && HexAt(mem, p, n) && (n == 2 || mem(p + n) == ':')
    ensures DigitsAt(mem, p, 2) == n
  {
    var k := DigitsAt(mem, p, 2);
    if k < n { HexInside(mem, p, n, k); }
    if n < k { HexInside(mem, p, k, n); }
  }

  lemma FourDigitsAt(mem: Memory, p: nat)
    ensures HexAt(mem, p, 4) <==> DigitsAt(mem, p, 4) == 4
  {
    var k := DigitsAt(mem, p, 4);
    if k < 4 && HexAt(mem, p, 4) { HexInside(mem, p, 4, k); }
  }

  predicate IsEnd(c: char) {
    c == ',' || c == ' ' || c == NUL
  }

  lemma ParsedBehindType(mem: Memory, p: nat, kind: Scan)
    requires ScanHex(mem, p, 2, 0, COLON) == Some(kind)
    ensures var q := kind.next + 1;
            Parse(mem, p)
            == if HexAt(mem, q, 4) && IsEnd(mem(q + 4)) then
                 Parsed(if mem(q + 4) == NUL then NULL else q + 5, true,
                        Slot(kind.value % 0x100, Wrap16(ValueOf(TextAt(mem, q, 4), HexUpper))))
               else INVALID
  {
    CategoryScanned(mem, kind.next + 1);
  }

  lemma TypeScanned(mem: Memory, p: nat, n: nat) returns (kind: Scan)
    requires n <= 2 && HexAt(mem, p, n) && (n == 2 || mem(p + n) == ':')
    ensures kind.next == p + n && kind.value == ValueOf(TextAt(mem, p, n), HexUpper)
    ensures ScanHex(mem, p, 2, 0, COLON) == Some(kind)
  {
    ShapeDigits(mem, p, n);
    ScanExact(mem, p, 2, COLON);
    kind := Scan(ValueOf(TextAt(mem, p, n), HexUpper), p + n, 2 - n);
  }

  lemma ShortPower(n: nat)
    requires n <= 2 || n == 4
    ensures Power(HexUpper, n) <= if n == 4 then HALFWORD else 0x100
  {
    HexPower(HexUpper);
    if n < 2 { assert Power(HexUpper, 0) == 1 && Power(HexUpper, 1) == 16; }
  }

  lemma ShortValue(s: string)
    requires AllXDigits(s)
    ensures |s| <= 2 ==> ValueOf(s, HexUpper) < 0x100
    ensures |s| == 4 ==> ValueOf(s, HexUpper) < HALFWORD
  {
    if |s| <= 2 || |s| == 4 { ShortPower(|s|); }
    HexOfValue(s, HexUpper);
  }

  /** What is made of an entry of this shape: its digits are the type and the category. */
  predicate Accepted(mem: Memory, p: nat, n: nat, q: Parsed)
    requires EntryShape(mem, p, n)
  {
    && q.valid && q.next == (if mem(p + n + 5) == NUL then NULL else p + n + 6)
    && q.slot.kind == ValueOf(TextAt(mem, p, n), HexUpper)
    && q.slot.category == ValueOf(TextAt(mem, p + n + 1, 4), HexUpper)
  }

  lemma EntryParsed(mem: Memory, p: nat, n: nat)
    requires EntryShape(mem, p, n)
    ensures Accepted(mem, p, n, Parse(mem, p))
  {
    var kind := TypeScanned(mem, p, n);
    ParsedBehindType(mem, p, kind);
    ShortValue(TextAt(mem, p, n));
    ShortValue(TextAt(mem, p + n + 1, 4));
  }

  lemma EntryRejected(mem: Memory, p: nat)
    requires !EntryShape(mem, p, DigitsAt(mem, p, 2))
    ensures Parse(mem, p) == INVALID
  {
    var n := DigitsAt(mem, p, 2);
    if n == 2 || mem(p + n) == ':' {
      CategoryRejected(mem, p, n);
    } else {
      ScanExact(mem, p, 2, COLON);
    }
  }

  lemma CategoryRejected(mem: Memory, p: nat, n: nat)
    requires n == DigitsAt(mem, p, 2) && (n == 2 || mem(p + n) == ':')
    requires !(HexAt(mem, p + n + 1, 4) && IsEnd(mem(p + n + 5)))
    ensures Parse(mem, p) == INVALID
  {
    var kind := TypeScanned(mem, p, n);
    ParsedBehindType(mem, p, kind);
  }

  /**
   * An entry is accepted if and only if it has this shape. Then its digits are the type and the category, and the
   * next entry starts behind its last character, unless that is the terminator.
   */
  lemma EntryAccepted(mem: Memory, p: nat)
    ensures Parse(mem, p).valid <==> exists n :: 0 <= n <= 2 && EntryShape(mem, p, n)
    ensures forall n :: 0 <= n <= 2 && EntryShape(mem, p, n) ==> Accepted(mem, p, n, Parse(mem, p))
    ensures !Parse(mem, p).valid ==> Parse(mem, p).next == NULL
  {
    forall n | 0 <= n <= 2 && EntryShape(mem, p, n) ensures Accepted(mem, p, n, Parse(mem, p)) {
      EntryParsed(mem, p, n);
    }
    if !EntryShape(mem, p, DigitsAt(mem, p, 2)) { EntryRejected(mem, p); }
  }

  /** The second scan comes to its end if and only if four digits stand at `q`. */
  lemma CategoryScanned(mem: Memory, q: nat)
    ensures var c := ScanHex(mem, q, 4, 0, ENTRY_END);
            if HexAt(mem, q, 4) then c == Some(Scan(ValueOf(TextAt(mem, q, 4), HexUpper), q + 4, 0))
            else c == None || c.value.left != 0
  {
    ScanExact(mem, q, 4, ENTRY_END);
    FourDigitsAt(mem, q);
  }

  /** Valid entries follow each other from `p` on; `end` is where the one behind them would start. */
  predicate EntriesAt(mem: Memory, p: int, es: seq<Slot>, end: int)
    requires p >= NULL
    decreases |es|
  {
    if es == [] then p == end
    else
      && p != NULL && Parse(mem, p).valid && Parse(mem, p).slot == es[0]
      && EntriesAt(mem, Parse(mem, p).next, es[1..], end)
  }

  /** Loading takes the valid entries up to the end, the first invalid one or the last slot; the others are kept. */
  lemma {:induction false} LoadsValidPrefix(mem: Memory, p: int, target: seq<Slot>) returns (es: seq<Slot>, end: int)
    requires p >= NULL
    ensures |es| <= |target| && end >= NULL && EntriesAt(mem, p, es, end)
    ensures |es| == |target| || end == NULL || !Parse(mem, end).valid
    ensures LoadsAs(mem, p, es, target)
    decreases |target|
  {
    if target == [] || p == NULL {
      es, end := [], p;
      assert target[0..] == target;
    } else if !Parse(mem, p).valid {
      es, end := [], p;
      NothingLoaded(mem, p, target);
    } else {
      var q := Parse(mem, p);
      var rest;
      rest, end := LoadsValidPrefix(mem, q.next, target[1..]);
      es := [q.slot] + rest;
      assert es[1..] == rest;
      LoadEntry(mem, p, q.next, es, target);
    }
  }

  lemma NothingLoaded(mem: Memory, p: nat, target: seq<Slot>)
    requires target != [] && !Parse(mem, p).valid
    ensures LoadsAs(mem, p, [], target)
  {
    EntryAccepted(mem, p);
    assert Load(mem, NULL, target[1..]) == Loaded(0, target[1..]);
    assert [target[0]] + target[1..] == target && [] + target[0..] == target;
  }

  // ---------------------------------------------------------------- round trip

  lemma {:induction false} HoldsAt(mem: Memory, p: nat, s: string, j: nat)
    requires HoldsText(mem, p, s) && j < |s|
    ensures mem(p + j) == s[j]
    decreases j
  {
    if j == 0 {
    } else {
      HoldsAt(mem, p + 1, s[1..], j - 1);
    }
  }

  /** Digits are read to their value. */
  lemma {:induction false} ScanDigits(mem: Memory, p: nat, s: string, j: nat, stops: set<char>)
    requires HoldsText(mem, p, s) && AllXDigits(s) && j <= |s| && forall c :: c in stops ==> !IsXDigit(c)
    ensures ScanHex(mem, p + j, |s| - j, ValueOf(s[..j], HexUpper), stops)
         == Some(Scan(ValueOf(s, HexUpper), p + |s|, 0))
    decreases |s| - j
  {
    if j < |s| {
      HoldsAt(mem, p, s, j);
      assert s[..j + 1][..j] == s[..j];
      ScanDigits(mem, p, s, j + 1, stops);
    } else {
      assert s[..j] == s;
    }
  }

  lemma ScanHexText(mem: Memory, p: nat, v: nat, n: nat, stops: set<char>)
    requires v < Power(HexUpper, n) && HoldsText(mem, p, Hex(v, n, HexUpper)) && forall c :: c in stops ==> !IsXDigit(c)
    ensures ScanHex(mem, p, n, 0, stops) == Some(Scan(v, p + n, 0))
  {
    var s := Hex(v, n, HexUpper);
    HexValue(v, n, HexUpper);
    ScanDigits(mem, p, s, 0, stops);
    assert s[..0] == "";
  }

  lemma Fits(s: Slot)
    ensures s.kind % 0x100 == s.kind && Wrap16(s.category) == s.category
  {
  }

  /** A printed entry before a comma or the end is read back. */
  lemma EntryReadBack(mem: Memory, p: nat, s: Slot)
    requires HoldsText(mem, p, Spell(s)) && mem(p + 7) in ENTRY_END
    ensures Parse(mem, p) == Parsed(if mem(p + 7) == NUL then NULL else p + 8, true, s)
  {
    var kind, category := Hex(s.kind, 2, HexUpper), Hex(s.category, 4, HexUpper);
    HoldsParts(mem, p, kind + ":", category);
    HoldsParts(mem, p, kind, ":");
    HexPower(HexUpper);
    ScanHexText(mem, p, s.kind, 2, COLON);
    ScanHexText(mem, p + 3, s.category, 4, ENTRY_END);
    Fits(s);
  }

  lemma ListingParts(es: seq<Slot>)
    requires es != []
    ensures Listing(es) == if |es| == 1 then Spell(es[0]) else (Spell(es[0]) + ",") + Listing(es[1..])
  {
    var head, tail := Spell(es[0]) + ",", WithCommas(es[1..]);
    DropLast(head, tail);
  }

  lemma DropLast(a: string, b: string)
    requires a != ""
    ensures (a + b)[..|a + b| - 1] == if b == "" then a[..|a| - 1] else a + b[..|b| - 1]
  {
  }

  /** A printed listing stands at `p`. */
  predicate ListingAt(mem: Memory, p: nat, es: seq<Slot>) {
    HoldsText(mem, p, Listing(es)) && mem(p + |Listing(es)|) == NUL
  }

  /** Loading fills the first slots with `es`, sets their bits in the mask, and leaves the others alone. */
  predicate LoadsAs(mem: Memory, p: int, es: seq<Slot>, target: seq<Slot>)
    requires |es| <= |target| && p >= NULL
  {
    Load(mem, p, target) == Loaded(Power2(|es|) - 1, es + target[|es|..])
  }

  /** A listing read into enough slots fills as many of them as it has entries, from the first on. */
  lemma {:induction false} ListingReadBack(mem: Memory, p: nat, es: seq<Slot>, target: seq<Slot>)
    requires |es| <= |target| && ListingAt(mem, p, es)
    ensures LoadsAs(mem, p, es, target)
    decreases |es|
  {
    if es == [] {
      NothingRead(mem, p, target);
    } else {
      FirstEntry(mem, p, es);
      if |es| > 1 { ListingReadBack(mem, p + 8, es[1..], target[1..]); }
      EntryLoaded(mem, p, es, target);
    }
  }

  lemma EntryLoaded(mem: Memory, p: nat, es: seq<Slot>, target: seq<Slot>)
    requires 0 < |es| <= |target| && Parse(mem, p) == Parsed(if |es| == 1 then NULL else p + 8, true, es[0])
    requires |es| > 1 ==> LoadsAs(mem, p + 8, es[1..], target[1..])
    ensures LoadsAs(mem, p, es, target)
  {
    if |es| > 1 { LoadEntry(mem, p, p + 8, es, target); } else { LoadLast(mem, p, es, target); }
  }

  /** The first entry is read back, and the listing of the others follows. */
  lemma FirstEntry(mem: Memory, p: nat, es: seq<Slot>)
    requires es != [] && ListingAt(mem, p, es)
    ensures Parse(mem, p) == Parsed(if |es| == 1 then NULL else p + 8, true, es[0])
    ensures |es| > 1 ==> ListingAt(mem, p + 8, es[1..])
  {
    ListingParts(es);
    if |es| > 1 {
      var e := Spell(es[0]);
      HoldsParts(mem, p, e + ",", Listing(es[1..]));
      HoldsParts(mem, p, e, ",");
    }
    EntryReadBack(mem, p, es[0]);
  }

  lemma NothingRead(mem: Memory, p: nat, target: seq<Slot>)
    requires mem(p) == NUL
    ensures Load(mem, p, target) == Loaded(0, target)
  {
    if target != [] {
      assert !IsXDigit(NUL);
      assert Parse(mem, p) == INVALID;
      assert Load(mem, NULL, target[1..]) == Loaded(0, target[1..]);
      assert [target[0]] + target[1..] == target;
    }
  }

  lemma OneBit(k: nat)
    requires k == 1
    ensures Power2(k) - 1 == 1
  {
  }

  lemma LoadLast(mem: Memory, p: nat, es: seq<Slot>, target: seq<Slot>)
    requires |es| == 1 <= |target| && Parse(mem, p) == Parsed(NULL, true, es[0])
    ensures LoadsAs(mem, p, es, target)
  {
    LoadOne(mem, p, es, target);
    OneBit(|es|);
  }

  lemma LoadOne(mem: Memory, p: nat, es: seq<Slot>, target: seq<Slot>)
    requires |es| == 1 <= |target| && Parse(mem, p) == Parsed(NULL, true, es[0])
    ensures Load(mem, p, target) == Loaded(1, es + target[1..])
  {
    assert Load(mem, NULL, target[1..]) == Loaded(0, target[1..]);
    assert [es[0]] == es;
  }

  lemma LoadEntry(mem: Memory, p: nat, next: int, es: seq<Slot>, target: seq<Slot>)
    requires 0 < |es| <= |target| && next >= NULL && Parse(mem, p) == Parsed(next, true, es[0])
    requires LoadsAs(mem, next, es[1..], target[1..])
    ensures LoadsAs(mem, p, es, target)
  {
    assert [es[0]] + (es[1..] + target[1..][|es[1..]|..]) == es + target[|es|..];
  }

  lemma {:induction false} OnesChoose(slots: seq<Slot>, k: nat)
    requires k <= |slots|
    ensures Chosen(slots, Power2(k) - 1) == slots[..k]
    decreases k
  {
    if k == 0 {
      NoneChosen(slots);
    } else {
      OnesHalve(k);
      OnesChoose(slots[1..], k - 1);
      assert slots[..k] == [slots[0]] + slots[1..][..k - 1];
    }
  }

  lemma OnesHalve(k: nat)
    requires k > 0
    ensures (Power2(k) - 1) % 2 == 1 && (Power2(k) - 1) / 2 == Power2(k - 1) - 1
  {
    HalveOdd(Power2(k - 1));
  }

  lemma HalveOdd(p: nat)
    requires p > 0
    ensures (2 * p - 1) % 2 == 1 && (2 * p - 1) / 2 == p - 1
  {
  }

  /** The mask has ones in its lowest `k` bits and nowhere else. */
  predicate FromFirst(mask: nat, k: nat) {
    mask == Power2(k) - 1
  }

  /**
   * Printing and parsing gives the mask back if and only if it chooses slots from the first on without a gap;
   * then those slots are restored, and the others stay as they were.
   */
  lemma RoundTrip(mem: Memory, slots: seq<Slot>, mask: nat, target: seq<Slot>)
    requires |target| == |slots|
    requires ListingAt(mem, 0, Chosen(slots, mask))
    ensures var r := Load(mem, 0, target);
            && (r.mask == mask <==> exists k :: 0 <= k <= |slots| && FromFirst(mask, k))
            && (forall k :: 0 <= k <= |slots| && FromFirst(mask, k) ==> r.slots == slots[..k] + target[k..])
  {
    var es := Chosen(slots, mask);
    ListingReadBack(mem, 0, es, target);
    Prefixes(slots, mask);
  }

  lemma Prefixes(slots: seq<Slot>, mask: nat)
    ensures var es := Chosen(slots, mask);
            && (FromFirst(mask, |es|) <==> exists k :: 0 <= k <= |slots| && FromFirst(mask, k))
            && (forall k :: 0 <= k <= |slots| && FromFirst(mask, k) ==> k == |es| && es == slots[..k])
  {
    forall k | 0 <= k <= |slots| && FromFirst(mask, k) ensures Chosen(slots, mask) == slots[..k] {
      OnesChoose(slots, k);
    }
  }

  /** The same through the objects: `other` may belong to a different device of as many slots. */
  method PrintAndParse(info: DmxSlotInfo, other: DmxSlotInfo, mask: u32) returns (mask': u32)
    requires 0 < info.slotInfo.Length == other.slotInfo.Length <= 32
    requires mask == 0 || Chosen(info.slotInfo[..], mask) != []
    modifies info`held, other.slotInfo
    ensures mask' == mask <==> exists k :: 0 <= k <= info.slotInfo.Length && FromFirst(mask, k)
    ensures forall k :: 0 <= k <= info.slotInfo.Length && FromFirst(mask, k) ==>
              other.slotInfo[..] == old(info.slotInfo[..k] + other.slotInfo[k..])
  {
    var text;
    ghost var inside;
    text, inside := info.ToString(mask);
    var mem := (i: nat) => At(text, i);
    HoldsItself(mem, text, 0);
    RoundTrip(mem, info.slotInfo[..], mask, other.slotInfo[..]);
    mask' := other.FromString(mem);
  }

  lemma {:induction false} HoldsItself(mem: Memory, text: string, i: nat)
    requires i <= |text| && forall k: nat :: mem(k) == At(text, k)
    ensures HoldsText(mem, i, text[i..]) && mem(|text|) == NUL
    decreases |text| - i
  {
    if i < |text| {
      HoldsItself(mem, text, i + 1);
      assert text[i..][1..] == text[i + 1..];
    }
  }
}
