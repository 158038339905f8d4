/** The text form of a bitmap: decimal numbers, ranges, and the language that
    lib/bitmap.c prints and parses. */
module MaskText {

  // ---------------------------------------------------------------------
  // Decimal numbers.
  // ---------------------------------------------------------------------

  predicate IsDigit(c: char) {
    '0' <= c <= '9'
  }

  function DigitValue(c: char): (d: nat)
    requires IsDigit(c)
    ensures d < 10
  {
    c as int - '0' as int
  }

  function Digit(d: nat): (c: char)
    requires d < 10
    ensures IsDigit(c) && DigitValue(c) == d
  {
    ('0' as int + d) as char
  }

  predicate AllDigits(s: string) {
    forall i :: 0 <= i < |s| ==> IsDigit(s[i])
  }

  predicate IsNumber(s: string) {
    |s| > 0 && AllDigits(s)
  }

  function Value(s: string): nat
    requires AllDigits(s)
  {
    if |s| == 0 then 0 else 10 * Value(s[..|s| - 1]) + DigitValue(s[|s| - 1])
  }

  /** printf("%d") of a natural number. */
  function Decimal(n: nat): (s: string)
    ensures IsNumber(s)
  {
    if n < 10 then [Digit(n)] else Decimal(n / 10) + [Digit(n % 10)]
  }

  lemma {:induction false} DecimalReadsBack(n: nat)
    ensures Value(Decimal(n)) == n
  {
    if n < 10 {
      assert Decimal(n)[..0] == "";
    } else {
      DecimalReadsBack(n / 10);
      assert Decimal(n)[..|Decimal(n)| - 1] == Decimal(n / 10);
    }
  }

  // ---------------------------------------------------------------------
  // Ranges.
  // ---------------------------------------------------------------------

  datatype Range = Range(lo: nat, hi: nat)

  ghost predicate Covers(rs: seq<Range>, n: nat) {
    exists r <- rs :: r.lo <= n <= r.hi
  }

  function RangeText(r: Range): string {
    if r.lo == r.hi then Decimal(r.lo) else Decimal(r.lo) + "-" + Decimal(r.hi)
  }

  /** The ranges, separated by commas. */
  function Text(rs: seq<Range>): string {
    if |rs| == 0 then ""
    else if |rs| == 1 then RangeText(rs[0])
    else RangeText(rs[0]) + "," + Text(rs[1..])
  }

  lemma {:induction false} TextOfOneMore(rs: seq<Range>, r: Range)
    ensures Text(rs + [r]) == (if |rs| == 0 then RangeText(r) else Text(rs) + "," + RangeText(r))
  {
    if |rs| == 0 {
      assert rs + [r] == [r];
    } else {
      assert (rs + [r])[1..] == rs[1..] + [r];
      TextOfOneMore(rs[1..], r);
      if |rs| > 1 {
        assert Text(rs + [r]) == RangeText(rs[0]) + "," + (Text(rs[1..]) + "," + RangeText(r));
      }
    }
  }

  // ---------------------------------------------------------------------
  // The accepted language.
  // ---------------------------------------------------------------------

  /** "n" or "n-m"; the numbers may have leading zeros. */
  datatype Item = One(a: string) | Span(a: string, b: string)

  function ItemText(t: Item): string {
    match t
    case One(a) => a
    case Span(a, b) => a + "-" + b
  }

  predicate ItemIsWellFormed(t: Item) {
    IsNumber(t.a) && (t.Span? ==> IsNumber(t.b))
  }

  function ItemRange(t: Item): Range
    requires ItemIsWellFormed(t)
  {
    Range(Value(t.a), Value(if t.Span? then t.b else t.a))
  }

  /** A well-formed item that is ascending and below the number of bits. */
  predicate ItemFits(t: Item, nbits: nat) {
    ItemIsWellFormed(t) && ItemRange(t).lo <= ItemRange(t).hi < nbits
  }

  function ItemsText(ts: seq<Item>): string
    requires |ts| > 0
  {
    if |ts| == 1 then ItemText(ts[0]) else ItemText(ts[0]) + "," + ItemsText(ts[1..])
  }

  function ItemRanges(ts: seq<Item>): seq<Range>
    requires forall t <- ts :: ItemIsWellFormed(t)
  {
    if |ts| == 0 then [] else [ItemRange(ts[0])] + ItemRanges(ts[1..])
  }

  /** s is a list of fitting items, possibly with one comma at its end. */
  ghost predicate Spells(s: string, ts: seq<Item>, nbits: nat) {
    && |ts| > 0
    && (forall t <- ts :: ItemFits(t, nbits))
    && (s == ItemsText(ts) || s == ItemsText(ts) + ",")
  }

  // ---------------------------------------------------------------------
  // The parser as a function of the text that is left.
  // ---------------------------------------------------------------------

  const ULONG_MAX: nat := 0xffff_ffff_ffff_ffff

  /** How many digits s starts with. */
  function DigitCount(s: string): (n: nat)
    ensures n <= |s| && AllDigits(s[..n])
    ensures n < |s| ==> !IsDigit(s[n])
  {
    if |s| == 0 || !IsDigit(s[0]) then 0 else 1 + DigitCount(s[1..])
  }

  /** strtoul(s, &end, 10) of a text that starts with a digit: the value is capped. */
  function Strtoul(s: string): nat {
    var v := Value(s[..DigitCount(s)]);
    if v > ULONG_MAX then ULONG_MAX else v
  }

  function Overflows(s: string): bool {
    Value(s[..DigitCount(s)]) > ULONG_MAX
  }

  datatype ItemResult = BadItem | GoodItem(range: Range, rest: string)

  /** parse_range */
  function ParseRange(s: string): (r: ItemResult)
    ensures r.GoodItem? ==> r.range.lo <= r.range.hi && |r.rest| < |s|
  {
    if |s| == 0 || !IsDigit(s[0]) then BadItem
    else if Overflows(s) then BadItem
    else
      var a, rest := Strtoul(s), s[DigitCount(s)..];
      if |rest| > 0 && rest[0] == '-' then
        var t := rest[1..];
        if |t| == 0 || !IsDigit(t[0]) then BadItem
        else if a > Strtoul(t) then BadItem
        else GoodItem(Range(a, Strtoul(t)), t[DigitCount(t)..])
      else GoodItem(Range(a, a), rest)
  }

  datatype Outcome = Ranges(rs: seq<Range>) | EInval | ERange

  function SkipComma(s: string): string {
    if |s| > 0 && s[0] == ',' then s[1..] else s
  }

  function ParseList(s: string, nbits: nat): Outcome
    decreases |s|
  {
    match ParseRange(s)
    case BadItem => EInval
    case GoodItem(r, rest) =>
      if r.hi >= nbits then ERange
      else if SkipComma(rest) == "" then Ranges([r])
      else match ParseList(SkipComma(rest), nbits)
        case Ranges(rs) => Ranges([r] + rs)
        case e => e
  }

  lemma {:induction false} DigitsOf(a: string, tail: string)
    requires AllDigits(a) && (|tail| > 0 ==> !IsDigit(tail[0]))
    ensures DigitCount(a + tail) == |a| && (a + tail)[..|a|] == a && (a + tail)[|a|..] == tail
  {
    if |a| == 0 {
      assert a + tail == tail;
    } else {
      assert (a + tail)[1..] == a[1..] + tail;
      DigitsOf(a[1..], tail);
    }
  }

  lemma NumberIsRead(a: string, tail: string)
    requires IsNumber(a) && Value(a) <= ULONG_MAX && (|tail| > 0 ==> !IsDigit(tail[0]))
    ensures var s := a + tail;
      && |s| > 0 && IsDigit(s[0]) && !Overflows(s)
      && Strtoul(s) == Value(a) && s[DigitCount(s)..] == tail
  {
    DigitsOf(a, tail);
  }

  lemma OneIsParsed(a: string, tail: string)
    requires IsNumber(a) && Value(a) <= ULONG_MAX && (|tail| > 0 ==> tail[0] == ',')
    ensures ParseRange(a + tail) == GoodItem(Range(Value(a), Value(a)), tail)
  {
    NumberIsRead(a, tail);
  }

  lemma SpanIsParsed(a: string, b: string, tail: string)
    requires IsNumber(a) && IsNumber(b) && Value(a) <= Value(b) <= ULONG_MAX
    requires |tail| > 0 ==> tail[0] == ','
    ensures ParseRange(a + ("-" + (b + tail))) == GoodItem(Range(Value(a), Value(b)), tail)
  {
    var u := b + tail;
    NumberIsRead(b, tail);
    var rest := "-" + u;
    NumberIsRead(a, rest);
    assert rest[0] == '-' && rest[1..] == u;
  }

  /** A fitting item is read as its range. */
  lemma ItemIsParsed(t: Item, tail: string, nbits: nat)
    requires ItemFits(t, nbits) && nbits <= ULONG_MAX
    requires |tail| > 0 ==> tail[0] == ','
    ensures ParseRange(ItemText(t) + tail) == GoodItem(ItemRange(t), tail)
  {
    match t {
      case One(a) =>
        OneIsParsed(a, tail);
      case Span(a, b) =>
        assert ItemText(t) + tail == a + ("-" + (b + tail));
        SpanIsParsed(a, b, tail);
    }
  }

  lemma ListStep(s: string, r: Range, rest: string, nbits: nat)
    requires ParseRange(s) == GoodItem(r, rest) && r.hi < nbits
    ensures SkipComma(rest) == "" ==> ParseList(s, nbits) == Ranges([r])
    ensures SkipComma(rest) != "" && ParseList(SkipComma(rest), nbits).Ranges? ==>
      ParseList(s, nbits) == Ranges([r] + ParseList(SkipComma(rest), nbits).rs)
  {
  }

  lemma CommaIsSkipped(more: string)
    ensures SkipComma("," + more) == more
  {
    assert ("," + more)[1..] == more;
  }

  /** Behind its first item and a comma, a spelled list spells the other items. */
  lemma SpellsMore(s: string, ts: seq<Item>, nbits: nat) returns (more: string)
    requires Spells(s, ts, nbits) && |ts| > 1
    ensures s == ItemText(ts[0]) + ("," + more) && Spells(more, ts[1..], nbits)
  {
    var text := ItemsText(ts[1..]);
    more := if s == ItemsText(ts) then text else text + ",";
    CommaBetween(ItemText(ts[0]), text, more);
  }

  lemma {:induction false} SpelledIsParsed(s: string, ts: seq<Item>, nbits: nat)
    requires Spells(s, ts, nbits) && nbits <= ULONG_MAX
    ensures ParseList(s, nbits) == Ranges(ItemRanges(ts))
    decreases |ts|
  {
    var t := ts[0];
    if |ts| == 1 {
      LastIsParsed(s, t, nbits);
      assert ts == [t];
    } else {
      var more := SpellsMore(s, ts, nbits);
      ItemIsParsed(t, "," + more, nbits);
      CommaIsSkipped(more);
      SpelledIsNotEmpty(more, ts[1..], nbits);
      SpelledIsParsed(more, ts[1..], nbits);
      ListStep(s, ItemRange(t), "," + more, nbits);
    }
  }

  lemma SpelledIsNotEmpty(s: string, ts: seq<Item>, nbits: nat)
    requires Spells(s, ts, nbits)
    ensures |s| > 0
  {
    ItemsTextNotEmpty(ts, nbits);
  }

  lemma LastIsParsed(s: string, t: Item, nbits: nat)
    requires ItemFits(t, nbits) && nbits <= ULONG_MAX && (s == ItemText(t) || s == ItemText(t) + ",")
    ensures ParseList(s, nbits) == Ranges([ItemRange(t)])
  {
    var tail := if s == ItemText(t) then "" else ",";
    assert s == ItemText(t) + tail;
    ItemIsParsed(t, tail, nbits);
    CommaIsSkipped("");
    ListStep(s, ItemRange(t), tail, nbits);
  }

  lemma ItemsTextNotEmpty(ts: seq<Item>, nbits: nat)
    requires |ts| > 0 && forall t <- ts :: ItemFits(t, nbits)
    ensures |ItemsText(ts)| > 0
  {
    assert ItemFits(ts[0], nbits);
  }

  lemma RangeIsItem(s: string) returns (t: Item)
    requires ParseRange(s).GoodItem? && ParseRange(s).range.hi < ULONG_MAX
    ensures ItemIsWellFormed(t) && ItemRange(t) == ParseRange(s).range
    ensures s == ItemText(t) + ParseRange(s).rest
    ensures |ParseRange(s).rest| > 0 ==> !IsDigit(ParseRange(s).rest[0])
  {
    var a, rest := s[..DigitCount(s)], s[DigitCount(s)..];
    assert s == a + rest;
    if |rest| > 0 && rest[0] == '-' {
      var u := rest[1..];
      var b, tail := u[..DigitCount(u)], u[DigitCount(u)..];
      t := Span(a, b);
      Joined(s, a, rest, u, b, tail);
    } else {
      t := One(a);
    }
  }

  lemma Joined(s: string, a: string, rest: string, u: string, b: string, tail: string)
    requires s == a + rest && |rest| > 0 && rest[0] == '-' && u == rest[1..] && u == b + tail
    ensures s == (a + "-" + b) + tail
  {
    assert rest == "-" + u;
  }

  lemma CommaBetween(a: string, b: string, s: string)
    ensures s == b ==> a + ("," + s) == a + "," + b
    ensures s == b + "," ==> a + ("," + s) == (a + "," + b) + ","
  {
  }

  lemma OneMoreSpelled(t: Item, s: string, ts: seq<Item>, nbits: nat)
    requires ItemFits(t, nbits) && Spells(s, ts, nbits)
    ensures Spells(ItemText(t) + ("," + s), [t] + ts, nbits)
  {
    assert ([t] + ts)[1..] == ts;
    assert ItemsText([t] + ts) == ItemText(t) + "," + ItemsText(ts);
    CommaBetween(ItemText(t), ItemsText(ts), s);
  }

  lemma LastSpelled(t: Item, rest: string, nbits: nat)
    requires ItemFits(t, nbits) && (rest == "" || rest == ",")
    ensures Spells(ItemText(t) + rest, [t], nbits)
  {
    assert ItemsText([t]) == ItemText(t);
  }

  lemma {:induction false} ParsedIsSpelled(s: string, nbits: nat) returns (ts: seq<Item>)
    requires ParseList(s, nbits).Ranges? && nbits <= ULONG_MAX
    ensures Spells(s, ts, nbits)
    decreases |s|
  {
    var t := RangeIsItem(s);
    var rest := ParseRange(s).rest;
    if SkipComma(rest) == "" {
      assert rest == "" || rest == ",";
      ts := [t];
      LastSpelled(t, rest, nbits);
    } else {
      var tail := SkipComma(rest);
      CommaFollows(rest, nbits);
      var more := ParsedIsSpelled(tail, nbits);
      ts := [t] + more;
      OneMoreSpelled(t, tail, more, nbits);
    }
  }

  lemma CommaFollows(rest: string, nbits: nat)
    requires |rest| > 0 && !IsDigit(rest[0]) && ParseList(SkipComma(rest), nbits).Ranges?
    ensures rest == "," + SkipComma(rest)
  {
    assert rest == [rest[0]] + rest[1..];
  }

  /** The parser accepts exactly the lists of fitting items with at most one trailing
      comma, and its ranges are those of the items. */
  lemma ParserAcceptsExactly(s: string, nbits: nat)
    requires nbits <= ULONG_MAX
    ensures ParseList(s, nbits).Ranges? <==> exists ts: seq<Item> :: Spells(s, ts, nbits)
    ensures forall ts: seq<Item> :: Spells(s, ts, nbits) ==> ParseList(s, nbits) == Ranges(ItemRanges(ts))
  {
    if ParseList(s, nbits).Ranges? {
      var ts := ParsedIsSpelled(s, nbits);
    }
    forall ts: seq<Item> | Spells(s, ts, nbits)
      ensures ParseList(s, nbits) == Ranges(ItemRanges(ts))
    {
      SpelledIsParsed(s, ts, nbits);
    }
  }
}
