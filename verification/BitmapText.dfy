/** Printing and parsing bitmaps: bitmap_snprintf and vzctl2_bitmap_parse of
    lib/bitmap.c, and how they undo each other. */
module BitmapText {
  import opened CText
  import opened Words
  import opened Bitmap
  import opened MaskText

  // ---------------------------------------------------------------------
  // The runs of set bits.
  // ---------------------------------------------------------------------

  /** The runs of set bits from "from" on. */
  ghost function RunsFrom(b: seq<bool>, from: nat): seq<Range>
    requires from <= |b|
    decreases |b| - from
  {
    var a := Next(b, true, from, |b|);
    if a >= |b| then []
    else
      var e := Next(b, false, a + 1, |b|);
      [Range(a, e - 1)] + RunsFrom(b, e)
  }

  ghost function Runs(m: Map): seq<Range> {
    RunsFrom(View(m), 0)
  }

  /** What bitmap_snprintf writes into a large buffer. */
  ghost function Printed(m: Map): string {
    Text(Runs(m))
  }

  /** Ascending, and never touching: between two ranges at least one number is missing. */
  ghost predicate Separated(rs: seq<Range>) {
    && (forall r <- rs :: r.lo <= r.hi)
    && (forall i :: 0 < i < |rs| ==> rs[i - 1].hi + 1 < rs[i].lo)
  }

  lemma CoversCons(head: Range, tail: seq<Range>, n: nat)
    ensures Covers([head] + tail, n) <==> head.lo <= n <= head.hi || Covers(tail, n)
  {
    if Covers(tail, n) {
      var r :| r in tail && r.lo <= n <= r.hi;
      assert r in [head] + tail;
    }
    assert head in [head] + tail;
  }

  lemma SeparatedCons(head: Range, tail: seq<Range>)
    requires Separated(tail) && head.lo <= head.hi
    requires |tail| > 0 ==> head.hi + 1 < tail[0].lo
    ensures Separated([head] + tail)
  {
  }

  lemma {:induction false} RunsFromAreTheBits(b: seq<bool>, from: nat, n: nat)
    requires from <= |b|
    ensures Covers(RunsFrom(b, from), n) <==> from <= n < |b| && b[n]
    decreases |b| - from
  {
    var a := Next(b, true, from, |b|);
    if a < |b| {
      var e := Next(b, false, a + 1, |b|);
      RunsFromAreTheBits(b, e, n);
      CoversCons(Range(a, e - 1), RunsFrom(b, e), n);
    }
  }

  lemma {:induction false} RunsFromAreSeparated(b: seq<bool>, from: nat)
    requires from <= |b|
    ensures Separated(RunsFrom(b, from))
    ensures |RunsFrom(b, from)| > 0 ==> RunsFrom(b, from)[0].lo == Next(b, true, from, |b|)
    decreases |b| - from
  {
    var a := Next(b, true, from, |b|);
    if a < |b| {
      var e := Next(b, false, a + 1, |b|);
      RunsFromAreSeparated(b, e);
      RunsNeedRoom(b, e);
      SeparatedCons(Range(a, e - 1), RunsFrom(b, e));
    }
  }

  /** After a run comes a clear bit or the end. */
  lemma RunsNeedRoom(b: seq<bool>, e: nat)
    requires e <= |b| && (e < |b| ==> !b[e])
    ensures |RunsFrom(b, e)| > 0 ==> e < Next(b, true, e, |b|)
  {
  }

  /** The printed ranges are the set bits, ascending, with a gap between neighbours. */
  lemma RunsAreCanonical(m: Map)
    ensures Separated(Runs(m))
    ensures forall r <- Runs(m) :: r.hi < BITS_PER_LONG * |m|
    ensures forall n: nat :: Covers(Runs(m), n) <==> n in Bits(m)
  {
    RunsFromAreSeparated(View(m), 0);
    forall n: nat
      ensures Covers(Runs(m), n) <==> n in Bits(m)
    {
      RunsFromAreTheBits(View(m), 0, n);
    }
    forall r | r in Runs(m)
      ensures r.hi < BITS_PER_LONG * |m|
    {
      assert Covers(Runs(m), r.hi);
    }
  }

  /** There is only one such list of ranges for a set of numbers. */
  lemma {:induction false} SeparatedIsUnique(rs: seq<Range>, qs: seq<Range>)
    requires Separated(rs) && Separated(qs)
    requires forall n: nat :: Covers(rs, n) <==> Covers(qs, n)
    ensures rs == qs
    decreases |rs|
  {
    if |rs| == 0 {
      if |qs| > 0 {
        SameHead(qs, rs);
      }
    } else {
      SameHead(rs, qs);
      SameHead(qs, rs);
      var r := rs[0];
      assert r == qs[0];
      forall n: nat
        ensures Covers(rs[1..], n) <==> Covers(qs[1..], n)
      {
        TailCovers(rs, n);
        TailCovers(qs, n);
      }
      SeparatedIsUnique(rs[1..], qs[1..]);
      assert rs == [r] + rs[1..] && qs == [r] + qs[1..];
    }
  }

  lemma {:induction false} LaterIsHigher(rs: seq<Range>, i: nat)
    requires Separated(rs) && 0 < i < |rs|
    ensures rs[0].hi + 1 < rs[i].lo
  {
    if i > 1 {
      LaterIsHigher(rs, i - 1);
      assert rs[i - 1] in rs;
    }
  }

  lemma TailCovers(rs: seq<Range>, n: nat)
    requires Separated(rs) && |rs| > 0
    ensures Covers(rs[1..], n) <==> Covers(rs, n) && n > rs[0].hi
  {
    if Covers(rs, n) && n > rs[0].hi {
      var r :| r in rs && r.lo <= n <= r.hi;
      assert r in rs[1..];
    }
    if Covers(rs[1..], n) {
      var i :| 0 <= i < |rs[1..]| && rs[1..][i].lo <= n <= rs[1..][i].hi;
      LaterIsHigher(rs, i + 1);
      assert rs[i + 1] in rs;
    }
  }

  /** A covered number is in the first range or beyond the gap that follows it. */
  lemma CoveredHow(rs: seq<Range>, n: nat)
    requires Separated(rs) && Covers(rs, n)
    ensures |rs| > 0 && rs[0].lo <= n && (n <= rs[0].hi || n > rs[0].hi + 1)
  {
    var i :| 0 <= i < |rs| && rs[i].lo <= n <= rs[i].hi;
    if i > 0 {
      LaterIsHigher(rs, i);
      assert rs[0] in rs;
    }
  }

  lemma SameHead(rs: seq<Range>, qs: seq<Range>)
    requires Separated(rs) && Separated(qs) && |rs| > 0
    requires forall n: nat :: Covers(rs, n) <==> Covers(qs, n)
    ensures |qs| > 0 && qs[0].lo <= rs[0].lo
    ensures qs[0].lo == rs[0].lo ==> rs[0].hi <= qs[0].hi
  {
    assert rs[0] in rs && Covers(rs, rs[0].lo);
    CoveredHow(qs, rs[0].lo);
    if qs[0].lo == rs[0].lo && qs[0].hi < rs[0].hi {
      assert qs[0] in qs;
      var n := qs[0].hi + 1;
      assert Covers(rs, n);
      CoveredHow(qs, n);
    }
  }

  // ---------------------------------------------------------------------
  // Parsing what was printed.
  // ---------------------------------------------------------------------

  function RangeItem(r: Range): Item {
    if r.lo == r.hi then One(Decimal(r.lo)) else Span(Decimal(r.lo), Decimal(r.hi))
  }

  function RangeItems(rs: seq<Range>): seq<Item> {
    if |rs| == 0 then [] else [RangeItem(rs[0])] + RangeItems(rs[1..])
  }

  lemma {:induction false} PrintedIsSpelled(rs: seq<Range>, nbits: nat)
    requires forall r <- rs :: r.lo <= r.hi < nbits
    ensures |RangeItems(rs)| == |rs|
    ensures forall t <- RangeItems(rs) :: ItemIsWellFormed(t)
    ensures forall t <- RangeItems(rs) :: ItemFits(t, nbits)
    ensures ItemRanges(RangeItems(rs)) == rs
    ensures |rs| > 0 ==> ItemsText(RangeItems(rs)) == Text(rs)
  {
    if |rs| > 0 {
      var r := rs[0];
      DecimalReadsBack(r.lo);
      DecimalReadsBack(r.hi);
      PrintedIsSpelled(rs[1..], nbits);
      assert RangeItems(rs)[1..] == RangeItems(rs[1..]);
    }
  }

  lemma PrintedIsParsed(rs: seq<Range>, nbits: nat)
    requires |rs| > 0 && nbits <= ULONG_MAX && forall r <- rs :: r.lo <= r.hi < nbits
    ensures ParseList(Text(rs), nbits) == Ranges(rs)
    ensures |Text(rs)| > 0 && IsDigit(Text(rs)[0])
  {
    PrintedIsSpelled(rs, nbits);
    SpelledIsParsed(Text(rs), RangeItems(rs), nbits);
  }

  /** What vzctl2_bitmap_parse makes of a text. */
  function ParseMask(s: string, nbits: nat): Outcome
    requires nbits > 0
  {
    if s == "all" || s == "" then Ranges([Range(0, nbits - 1)]) else ParseList(s, nbits)
  }

  lemma MaskIsParsed(m: Map)
    requires Bits(m) != {} && BITS_PER_LONG * |m| <= ULONG_MAX
    ensures |m| > 0 && ParseMask(Printed(m), BITS_PER_LONG * |m|) == Ranges(Runs(m))
  {
    RunsAreCanonical(m);
    var n :| n in Bits(m);
    assert Covers(Runs(m), n);
    PrintedIsParsed(Runs(m), BITS_PER_LONG * |m|);
  }

  lemma EmptyPrintsNothing(m: Map)
    ensures Bits(m) == {} <==> Printed(m) == ""
    ensures Bits(m) == {} <==> Runs(m) == []
  {
    RunsAreCanonical(m);
    if |Runs(m)| > 0 {
      var r := Runs(m)[0];
      assert r in Runs(m) && Covers(Runs(m), r.lo);
      assert r.lo in Bits(m);
    } else {
      forall n: nat
        ensures n !in Bits(m)
      {
        assert !Covers(Runs(m), n);
      }
    }
  }

  /** Two bitmaps of one size print alike exactly when they are equal. */
  lemma PrintsAlikeIffEqual(a: Map, b: Map)
    requires |a| == |b| && BITS_PER_LONG * |a| <= ULONG_MAX
    ensures Printed(a) == Printed(b) <==> a == b
  {
    if Printed(a) == Printed(b) {
      EmptyPrintsNothing(a);
      EmptyPrintsNothing(b);
      if Bits(a) != {} {
        MaskIsParsed(a);
        MaskIsParsed(b);
        RunsAreCanonical(a);
        RunsAreCanonical(b);
        assert forall n: nat :: n in Bits(a) <==> n in Bits(b);
      }
      SameBitsSameMap(a, b);
    }
  }

  // ---------------------------------------------------------------------
  // A text cut short never stands for the same bits.
  // ---------------------------------------------------------------------

  lemma {:induction false} PrefixIsSmaller(s: string, j: nat)
    requires AllDigits(s) && j < |s|
    ensures 10 * Value(s[..j]) <= Value(s)
  {
    var t := s[..|s| - 1];
    if j < |s| - 1 {
      PrefixIsSmaller(t, j);
      assert t[..j] == s[..j];
    }
  }

  /** A cut decimal is not longer a number, or a smaller one. */
  lemma CutDecimal(n: nat, j: nat)
    requires 0 < j < |Decimal(n)|
    ensures IsNumber(Decimal(n)[..j]) && Value(Decimal(n)[..j]) < n
  {
    DecimalReadsBack(n);
    PrefixIsSmaller(Decimal(n), j);
  }

  /** A cut range is rejected, or ends below the range. */
  lemma CutRange(r: Range, j: nat)
    requires r.lo <= r.hi <= ULONG_MAX && 0 < j < |RangeText(r)|
    ensures var c := ParseRange(RangeText(r)[..j]); c.GoodItem? ==> c.range.hi < r.hi && c.rest == ""
  {
    var a, b, p := Decimal(r.lo), Decimal(r.hi), RangeText(r)[..j];
    DecimalReadsBack(r.lo);
    if j < |a| {
      assert p == a[..j];
      CutDecimal(r.lo, j);
      assert p + "" == p;
      OneIsParsed(p, "");
    } else if j == |a| {
      assert p == a;
      assert p + "" == p;
      OneIsParsed(p, "");
    } else {
      CutSpan(a, b, r.hi, p, b[..j - |a| - 1]);
    }
  }

  lemma CutSpan(a: string, b: string, hi: nat, p: string, t: string)
    requires IsNumber(a) && Value(a) <= ULONG_MAX && b == Decimal(hi) && hi <= ULONG_MAX
    requires |t| < |b| && t == b[..|t|] && p == a + ("-" + t)
    ensures var c := ParseRange(p); c.GoodItem? ==> c.range.hi < hi && c.rest == ""
  {
    NumberIsRead(a, "-" + t);
    assert ("-" + t)[1..] == t;
    if |t| > 0 {
      CutDecimal(hi, |t|);
      assert t + "" == t;
      NumberIsRead(t, "");
    }
  }

  /** If s parses, its ranges end below top. */
  ghost predicate EndsBelow(s: string, nbits: nat, top: nat) {
    match ParseList(s, nbits)
    case Ranges(qs) => forall q <- qs :: q.hi < top
    case _ => true
  }

  lemma CutInFirst(r: Range, j: nat, nbits: nat, top: nat)
    requires r.lo <= r.hi < nbits <= ULONG_MAX && r.hi <= top && 0 < j < |RangeText(r)|
    ensures EndsBelow(RangeText(r)[..j], nbits, top)
  {
    CutRange(r, j);
  }

  lemma CutAfterFirst(r: Range, tail: string, nbits: nat, top: nat)
    requires r.lo <= r.hi < nbits <= ULONG_MAX && r.hi < top
    requires tail == "" || (tail[0] == ',' && (tail == "," || EndsBelow(tail[1..], nbits, top)))
    ensures EndsBelow(RangeText(r) + tail, nbits, top)
  {
    DecimalReadsBack(r.lo);
    DecimalReadsBack(r.hi);
    ItemIsParsed(RangeItem(r), tail, nbits);
  }

  /** Complete ranges, each followed by a comma. */
  function Lead(rs: seq<Range>): string {
    if |rs| == 0 then "" else RangeText(rs[0]) + "," + Lead(rs[1..])
  }

  /** A proper prefix of a text: some complete ranges, and a part of the next one. */
  lemma {:induction false} CutForm(rs: seq<Range>, k: nat) returns (i: nat, j: nat)
    requires 0 < k < |Text(rs)|
    ensures i < |rs| && j <= |RangeText(rs[i])|
    ensures j == 0 ==> i > 0
    ensures j == |RangeText(rs[i])| ==> i + 1 < |rs|
    ensures Text(rs)[..k] == Lead(rs[..i]) + RangeText(rs[i])[..j]
    decreases |rs|
  {
    var head := RangeText(rs[0]);
    var rest := if |rs| == 1 then "" else "," + Text(rs[1..]);
    assert Text(rs) == head + rest;
    if k <= |head| {
      i, j := 0, k;
    } else if k == |head| + 1 {
      i, j := 1, 0;
      assert rs[..1] == [rs[0]] && Lead([rs[0]]) == head + ",";
    } else {
      var i', j' := CutForm(rs[1..], k - |head| - 1);
      i, j := i' + 1, j';
      LeadCons(rs, i);
      CutBeyond(head, Text(rs[1..]), k);
    }
  }

  lemma LeadCons(rs: seq<Range>, i: nat)
    requires 0 < i <= |rs|
    ensures Lead(rs[..i]) == RangeText(rs[0]) + "," + Lead(rs[1..][..i - 1])
  {
    assert rs[..i][1..] == rs[1..][..i - 1];
  }

  lemma CutBeyond(head: string, more: string, k: nat)
    requires |head| < k <= |head| + 1 + |more|
    ensures (head + ("," + more))[..k] == head + "," + more[..k - |head| - 1]
  {
  }

  /** The first ranges of a text do not lift the top of the rest. */
  lemma LeadStep(rs: seq<Range>, rest: string, more: string)
    requires |rs| > 0 && more == Lead(rs[1..]) + rest
    ensures Lead(rs) + rest == RangeText(rs[0]) + ("," + more)
  {
  }

  lemma {:induction false} LeadIsParsed(rs: seq<Range>, rest: string, nbits: nat, top: nat)
    requires nbits <= ULONG_MAX && forall r <- rs :: r.lo <= r.hi < nbits && r.hi < top
    requires (rest == "" && |rs| > 0) || EndsBelow(rest, nbits, top)
    ensures EndsBelow(Lead(rs) + rest, nbits, top)
    decreases |rs|
  {
    if |rs| == 0 {
      assert Lead(rs) + rest == rest;
    } else {
      var more := Lead(rs[1..]) + rest;
      LeadStep(rs, rest, more);
      if more != "" {
        assert rest != "" || |rs[1..]| > 0;
        LeadIsParsed(rs[1..], rest, nbits, top);
      }
      CommaIsSkipped(more);
      CutAfterFirst(rs[0], "," + more, nbits, top);
    }
  }

  lemma {:induction false} LaterIsHigherStill(rs: seq<Range>, i: nat, j: nat)
    requires Separated(rs) && i < j < |rs|
    ensures rs[i].hi < rs[j].hi
  {
    assert rs[j] in rs;
    if i < j - 1 {
      LaterIsHigherStill(rs, i, j - 1);
    }
  }

  /** What is left of a range after a cut, before the last range if it is complete. */
  lemma CutPart(r: Range, j: nat, nbits: nat, top: nat)
    requires r.lo <= r.hi < nbits <= ULONG_MAX && r.hi <= top && 0 < j <= |RangeText(r)|
    requires j == |RangeText(r)| ==> r.hi < top
    ensures EndsBelow(RangeText(r)[..j], nbits, top)
  {
    if j == |RangeText(r)| {
      assert RangeText(r)[..j] == RangeText(r) + "";
      CutAfterFirst(r, "", nbits, top);
    } else {
      CutInFirst(r, j, nbits, top);
    }
  }

  lemma HeadsEndBelow(rs: seq<Range>, i: nat, nbits: nat)
    requires Separated(rs) && i < |rs| && forall r <- rs :: r.hi < nbits
    ensures rs[i].lo <= rs[i].hi < nbits && rs[i].hi <= rs[|rs| - 1].hi
    ensures i + 1 < |rs| ==> rs[i].hi < rs[|rs| - 1].hi
    ensures forall r <- rs[..i] :: r.lo <= r.hi < nbits && r.hi < rs[|rs| - 1].hi
  {
    forall x | 0 <= x < |rs|
      ensures rs[x].lo <= rs[x].hi < nbits && (x < |rs| - 1 ==> rs[x].hi < rs[|rs| - 1].hi)
    {
      assert rs[x] in rs;
      if x < |rs| - 1 {
        LaterIsHigherStill(rs, x, |rs| - 1);
      }
    }
  }

  lemma CutTextMissesTop(rs: seq<Range>, k: nat, nbits: nat)
    requires Separated(rs) && |rs| > 0 && nbits <= ULONG_MAX && forall r <- rs :: r.hi < nbits
    requires 0 < k < |Text(rs)|
    ensures EndsBelow(Text(rs)[..k], nbits, rs[|rs| - 1].hi)
  {
    var i, j := CutForm(rs, k);
    var top := rs[|rs| - 1].hi;
    HeadsEndBelow(rs, i, nbits);
    if j > 0 {
      CutPart(rs[i], j, nbits, top);
    }
    LeadIsParsed(rs[..i], RangeText(rs[i])[..j], nbits, top);
  }

  /** The text a buffer of this size holds. */
  ghost function Stored(m: Map, buflen: nat): string
    requires buflen > 0
  {
    if |Printed(m)| < buflen then Printed(m) else Printed(m)[..buflen - 1]
  }

  /** Parsing s gives the bits of m back. */
  ghost predicate Restores(s: string, m: Map)
    requires |m| > 0
  {
    match ParseMask(s, BITS_PER_LONG * |m|)
    case Ranges(rs) => forall n: nat :: Covers(rs, n) <==> n in Bits(m)
    case _ => false
  }

  /** The empty text is read as the full bitmap. */
  lemma EmptyRestoresFull(m: Map)
    requires |m| > 0
    ensures Restores("", m) <==> Full(m)
  {
    var nbits := BITS_PER_LONG * |m|;
    var all := Range(0, nbits - 1);
    assert all in [all];
    assert forall n: nat :: Covers([all], n) <==> n < nbits;
    assert forall n: nat :: n in Bits(m) <==> n < nbits && BitAt(m, n);
    assert ParseMask("", nbits) == Ranges([all]);
    if Restores("", m) {
      assert forall n: nat :: Covers([all], n) <==> n in Bits(m);
    }
  }

  lemma NothingStored(m: Map, buflen: nat)
    requires |m| > 0 && (buflen == 1 || (buflen > 1 && Bits(m) == {}))
    ensures Restores(Stored(m, buflen), m) <==> Full(m)
    ensures Full(m) ==> Bits(m) != {}
  {
    EmptyPrintsNothing(m);
    assert Stored(m, buflen) == "";
    EmptyRestoresFull(m);
    assert Full(m) ==> 0 in Bits(m);
  }

  /** A bitmap survives printing and parsing exactly when it is not empty and its text fits the
      buffer; a buffer of one character holds the empty text, which gives the full bitmap back. */
  lemma RoundTripExactly(m: Map, buflen: nat)
    requires |m| > 0 && BITS_PER_LONG * |m| <= ULONG_MAX && buflen > 0
    ensures Restores(Stored(m, buflen), m) <==>
      if buflen == 1 then Full(m) else Bits(m) != {} && |Printed(m)| < buflen
  {
    if buflen == 1 || Bits(m) == {} {
      NothingStored(m, buflen);
    } else {
      SomethingStored(m, buflen);
    }
  }

  lemma SomethingStored(m: Map, buflen: nat)
    requires BITS_PER_LONG * |m| <= ULONG_MAX && buflen > 1 && Bits(m) != {}
    ensures |m| > 0 && (Restores(Stored(m, buflen), m) <==> |Printed(m)| < buflen)
  {
    MaskIsParsed(m);
    if |Printed(m)| >= buflen {
      CutIsNotRestored(m, buflen - 1);
    } else {
      RunsAreCanonical(m);
    }
  }

  lemma CutIsNotRestored(m: Map, k: nat)
    requires Bits(m) != {} && BITS_PER_LONG * |m| <= ULONG_MAX && 0 < k < |Printed(m)|
    ensures |m| > 0 && !Restores(Printed(m)[..k], m)
  {
    MaskIsParsed(m);
    EmptyPrintsNothing(m);
    RunsAreCanonical(m);
    var rs, nbits, p := Runs(m), BITS_PER_LONG * |m|, Printed(m)[..k];
    PrintedIsParsed(rs, nbits);
    assert IsDigit(p[0]);
    CutTextMissesTop(rs, k, nbits);
    var top := rs[|rs| - 1];
    assert top in rs && Covers(rs, top.hi);
    assert top.hi in Bits(m);
    var o := ParseList(p, nbits);
    if o.Ranges? {
      assert !Covers(o.rs, top.hi);
    }
  }

  // ---------------------------------------------------------------------
  // The printer.
  // ---------------------------------------------------------------------

  method PrintRange(buf: array<char>, buflen: nat, ghost t: string, len: nat, a: nat, b: nat) returns (more: nat)
    requires 0 < buflen <= buf.Length && len == |t| && Holds(buf, buflen, t)
    modifies buf
    ensures more == |RangeText(Range(a, b))| > 0 && Holds(buf, buflen, t + RangeText(Range(a, b)))
  {
    if a == b {
      more := Append(buf, buflen, t, len, Decimal(a));
    } else {
      more := Append(buf, buflen, t, len, Decimal(a) + "-" + Decimal(b));
    }
  }

  /** A range behind what the buffer holds, separated by a comma. */
  method PrintItem(buf: array<char>, buflen: nat, ghost t: string, len: nat, a: nat, b: nat) returns (total: nat)
    requires 0 < buflen <= buf.Length && len == |t| && Holds(buf, buflen, t)
    modifies buf
    ensures total > len
    ensures var u := t + (if len > 0 then "," else "") + RangeText(Range(a, b));
      total == |u| && Holds(buf, buflen, u)
  {
    ghost var u := t;
    total := len;
    if len > 0 {
      var more := Append(buf, buflen, u, total, ",");
      total := total + more;
      u := u + ",";
    }
    assert u == t + if len > 0 then "," else "";
    var more := PrintRange(buf, buflen, u, total, a, b);
    total := total + more;
  }

  /** Where a run starts, or the number of bits when there is none left. */
  function StartOf(b: seq<bool>, rs: seq<Range>, i: nat): nat {
    if i < |rs| then rs[i].lo else |b|
  }

  /** The scanners lead from the start of range i to its end and to the next one. */
  ghost predicate Link(b: seq<bool>, rs: seq<Range>, i: nat) {
    i < |rs| ==>
      && rs[i].lo < |b|
      && rs[i].hi + 1 == Next(b, false, rs[i].lo + 1, |b|)
      && Next(b, true, rs[i].hi + 1, |b|) == StartOf(b, rs, i + 1)
  }

  /** The scanners enumerate these ranges, starting at "from". */
  ghost predicate Chained(b: seq<bool>, from: nat, rs: seq<Range>) {
    Next(b, true, from, |b|) == StartOf(b, rs, 0) && forall i: nat :: Link(b, rs, i)
  }

  lemma LinkCons(b: seq<bool>, head: Range, tail: seq<Range>, i: nat)
    requires Link(b, tail, i)
    ensures Link(b, [head] + tail, i + 1)
  {
  }

  lemma ChainedCons(b: seq<bool>, from: nat, head: Range, tail: seq<Range>)
    requires head.lo == Next(b, true, from, |b|) < |b|
    requires head.hi + 1 == Next(b, false, head.lo + 1, |b|)
    requires Chained(b, head.hi + 1, tail)
    ensures Chained(b, from, [head] + tail)
  {
    forall i: nat
      ensures Link(b, [head] + tail, i)
    {
      if i > 0 {
        assert Link(b, tail, i - 1);
        LinkCons(b, head, tail, i - 1);
      }
    }
  }

  lemma {:induction false} RunsAreChained(b: seq<bool>, from: nat)
    requires from <= |b|
    ensures Chained(b, from, RunsFrom(b, from))
    decreases |b| - from
  {
    var a := Next(b, true, from, |b|);
    if a < |b| {
      var e := Next(b, false, a + 1, |b|);
      RunsAreChained(b, e);
      ChainedCons(b, from, Range(a, e - 1), RunsFrom(b, e));
    }
  }

  /** The text of the first i ranges. */
  function TextTo(rs: seq<Range>, i: nat): string
    requires i <= |rs|
  {
    if i == 0 then "" else TextTo(rs, i - 1) + (if i == 1 then "" else ",") + RangeText(rs[i - 1])
  }

  lemma {:induction false} TextToIsText(rs: seq<Range>, i: nat, front: seq<Range>)
    requires i <= |rs| && front == rs[..i]
    ensures TextTo(rs, i) == Text(front)
  {
    if i > 0 {
      var before := rs[..i - 1];
      TextToIsText(rs, i - 1, before);
      OneMoreRange(rs, i);
      TextOfOneMore(before, rs[i - 1]);
      TextToStep(rs, i);
    }
  }

  lemma OneMoreRange(rs: seq<Range>, i: nat)
    requires 0 < i <= |rs|
    ensures rs[..i] == rs[..i - 1] + [rs[i - 1]]
  {
  }

  lemma TextToStep(rs: seq<Range>, i: nat)
    requires 0 < i <= |rs|
    ensures TextTo(rs, i) ==
      if i == 1 then RangeText(rs[0]) else TextTo(rs, i - 1) + "," + RangeText(rs[i - 1])
  {
    if i == 1 {
      assert TextTo(rs, 0) == "";
      assert "" + "" + RangeText(rs[0]) == RangeText(rs[0]);
    }
  }

  /** The end of the run that starts at a, and the start of the next one. */
  method NextRun(words: array<bv64>, ghost rs: seq<Range>, ghost i: nat, a: nat) returns (e: nat, next: nat)
    requires i < |rs| && a == rs[i].lo && a < BITS_PER_LONG * words.Length && Link(View(words[..]), rs, i)
    ensures e > 0 && rs[i] == Range(a, e - 1) && next == StartOf(View(words[..]), rs, i + 1)
  {
    var nmaskbits := BITS_PER_LONG * words.Length;
    e := FindZeroBit(words, nmaskbits, a + 1);
    next := FindBit(words, nmaskbits, e);
  }

  /** One range behind the text of those before it. */
  method PrintRun(buf: array<char>, buflen: nat, ghost rs: seq<Range>, ghost i: nat, len: nat, r: Range)
      returns (total: nat)
    requires 0 < buflen <= buf.Length && i < |rs| && r == rs[i]
    requires len == |TextTo(rs, i)| && (len > 0 <==> i > 0) && Holds(buf, buflen, TextTo(rs, i))
    modifies buf
    ensures total == |TextTo(rs, i + 1)| > 0 && Holds(buf, buflen, TextTo(rs, i + 1))
  {
    total := PrintItem(buf, buflen, TextTo(rs, i), len, r.lo, r.hi);
  }

  /** The loop of bitmap_snprintf, for any ranges that the scanners enumerate. */
  method PrintRuns(buf: array<char>, buflen: nat, words: array<bv64>, ghost rs: seq<Range>) returns (len: nat)
    requires 0 < buflen <= buf.Length
    requires (buf as object) != words    // implied by the element types
    requires Chained(View(words[..]), 0, rs)
    modifies buf
    ensures len == |TextTo(rs, |rs|)| && Holds(buf, buflen, TextTo(rs, |rs|))
  {
    var nmaskbits := BITS_PER_LONG * words.Length;
    ghost var m, b, i := words[..], View(words[..]), 0;
    len := 0;
    buf[0] := '\0';
    var a := FindBit(words, nmaskbits, 0);
    while a < nmaskbits
      invariant words[..] == m
      invariant i <= |rs| && a == StartOf(b, rs, i)
      invariant len == |TextTo(rs, i)| && (len > 0 <==> i > 0)
      invariant Holds(buf, buflen, TextTo(rs, i))
      decreases |rs| - i
    {
      assert Link(b, rs, i) && a == rs[i].lo;
      var e, next := NextRun(words, rs, i, a);
      len := PrintRun(buf, buflen, rs, i, len, Range(a, e - 1));
      i, a := i + 1, next;
    }
    assert Link(b, rs, i);
    assert i == |rs|;
  }

  /** The returned length is that of the whole text whatever the size of the buffer, and
      the buffer holds as much of it as fits. */
  method BitmapSnprintf(buf: array<char>, buflen: nat, words: array<bv64>) returns (len: nat)
    requires 0 < buflen <= buf.Length
    requires (buf as object) != words    // implied by the element types
    modifies buf
    ensures len == |Printed(words[..])| && Holds(buf, buflen, Printed(words[..]))
  {
    ghost var m, rs := words[..], Runs(words[..]);
    RunsAreChained(View(m), 0);
    len := PrintRuns(buf, buflen, words, rs);
    assert words[..] == m && rs[..|rs|] == rs;
    TextToIsText(rs, |rs|, rs);
  }

  // ---------------------------------------------------------------------
  // The parser.
  // ---------------------------------------------------------------------

  /** The character at an index of a C string, which a NUL ends. */
  function CharAt(s: string, i: nat): char {
    if i < |s| then s[i] else '\0'
  }

  method ParseRangeAt(str: string, pos: nat) returns (ok: bool, a: nat, b: nat, end: nat)
    requires pos <= |str|
    ensures end <= |str|
    ensures match ParseRange(str[pos..])
            case BadItem => !ok
            case GoodItem(r, rest) => ok && r == Range(a, b) && rest == str[end..] && pos < end
  {
    a, b, end := 0, 0, pos;
    if !IsDigit(CharAt(str, pos)) {
      return false, a, b, end;
    }
    a := Strtoul(str[pos..]);
    b := a;
    end := pos + DigitCount(str[pos..]);
    if Overflows(str[pos..]) {
      return false, a, b, end;
    }
    assert str[end..] == str[pos..][DigitCount(str[pos..])..];
    if CharAt(str, end) == '-' {
      var p := end + 1;
      assert str[p..] == str[end..][1..];
      if !IsDigit(CharAt(str, p)) {
        return false, a, b, end;
      }
      b := Strtoul(str[p..]);
      end := p + DigitCount(str[p..]);
      assert str[end..] == str[p..][DigitCount(str[p..])..];
      if a > b {
        return false, a, b, end;
      }
    }
    ok := true;
  }

  datatype Errno = NoError | Inval | OutOfRange

  /** Sets the bits from a to b. */
  method SetRange(words: array<bv64>, from: nat, b: nat)
    requires b < BITS_PER_LONG * words.Length
    modifies words
    ensures forall n: nat :: n in Bits(words[..]) <==> n in old(Bits(words[..])) || from <= n <= b
  {
    var a := from;
    while a <= b
      invariant from <= a && (a <= b + 1 || a == from)
      invariant forall n: nat :: n in Bits(words[..]) <==> n in old(Bits(words[..])) || from <= n < a
    {
      SetBit(words, a);
      a := a + 1;
    }
  }

  /** The bits are those in the ranges. */
  ghost predicate Shows(bits: set<nat>, rs: seq<Range>) {
    forall n: nat :: n in bits <==> Covers(rs, n)
  }

  /** What the parser reports and leaves in the mask for an outcome. */
  ghost predicate Reports(o: Outcome, ret: int, errno: Errno, bits: set<nat>) {
    match o
    case Ranges(rs) => ret == 0 && Shows(bits, rs)
    case EInval => ret == -1 && errno == Inval
    case ERange => ret == -1 && errno == OutOfRange
  }

  /** "goal" is the outcome of a list whose first ranges are "done" and whose rest starts at pos. */
  ghost predicate Ahead(str: string, pos: nat, nbits: nat, goal: Outcome, done: seq<Range>) {
    pos <= |str| && goal == Onto(done, ParseList(str[pos..], nbits))
  }

  lemma AheadAtStart(str: string, nbits: nat)
    ensures Ahead(str, 0, nbits, ParseList(str, nbits), [])
  {
    assert str[0..] == str;
  }

  /** One item of the list: its bits are set, and a comma after it is skipped. "goal" is
      the outcome for the whole list, "done" its ranges so far. */
  method ParseItem(str: string, pos: nat, maskp: array<bv64>, ghost goal: Outcome, ghost done: seq<Range>)
      returns (errno: Errno, next: nat, ghost r: Range)
    requires Shows(Bits(maskp[..]), done) && Ahead(str, pos, BITS_PER_LONG * maskp.Length, goal, done)
    modifies maskp
    ensures errno == NoError ==> pos < next <= |str|
    ensures errno == NoError ==> Shows(Bits(maskp[..]), done + [r])
    ensures errno == NoError && next == |str| ==> goal == Ranges(done + [r])
    ensures errno == NoError && next < |str| ==> Ahead(str, next, BITS_PER_LONG * maskp.Length, goal, done + [r])
    ensures errno == Inval ==> goal == EInval
    ensures errno == OutOfRange ==> goal == ERange
  {
    var nmaskbits := BITS_PER_LONG * maskp.Length;
    var ok, a, b, end := ParseRangeAt(str, pos);
    next, r := pos, Range(a, b);
    if !ok {
      return Inval, next, r;
    }
    if b >= nmaskbits {
      return OutOfRange, next, r;
    }
    SetRange(maskp, a, b);
    OneMoreCovers(done, r);
    ItemStep(str, pos, end, nmaskbits, done, r);
    next := if CharAt(str, end) == ',' then end + 1 else end;
    errno := NoError;
  }

  /** The loop over the items of a list; the mask is clear at first. */
  method ParseItems(str: string, maskp: array<bv64>) returns (ret: int, errno: Errno)
    requires Bits(maskp[..]) == {}
    modifies maskp
    ensures Reports(ParseList(str, BITS_PER_LONG * maskp.Length), ret, errno, Bits(maskp[..]))
  {
    var pos := 0;
    ghost var nbits := BITS_PER_LONG * maskp.Length;
    ghost var goal, done: seq<Range> := ParseList(str, nbits), [];
    AheadAtStart(str, nbits);
    while true
      invariant pos <= |str|
      invariant Shows(Bits(maskp[..]), done)
      invariant Ahead(str, pos, nbits, goal, done)
      decreases |str| - pos
    {
      var next;
      ghost var r;
      errno, next, r := ParseItem(str, pos, maskp, goal, done);
      if errno != NoError {
        return -1, errno;
      }
      done := done + [r];
      pos := next;
      if pos == |str| {
        break;
      }
    }
    return 0, NoError;
  }

  /** Accepts what ParseMask accepts, and then the mask has exactly the parsed bits. */
  method BitmapParse(str: string, maskp: array<bv64>) returns (ret: int, errno: Errno)
    requires 0 < BITS_PER_LONG * maskp.Length
    modifies maskp
    ensures Reports(ParseMask(str, BITS_PER_LONG * maskp.Length), ret, errno, Bits(maskp[..]))
  {
    if str == "all" || str == "" {
      Fill(maskp);
      ghost var all := Range(0, BITS_PER_LONG * maskp.Length - 1);
      forall n: nat
        ensures n in Bits(maskp[..]) <==> Covers([all], n)
      {
        assert all in [all];
      }
      return 0, NoError;
    }
    Zero(maskp);
    ret, errno := ParseItems(str, maskp);
  }

  /** The outcome of a list whose first ranges have been read. */
  function Onto(done: seq<Range>, o: Outcome): Outcome {
    match o
    case Ranges(rs) => Ranges(done + rs)
    case e => e
  }

  lemma SkipAt(str: string, end: nat)
    requires end <= |str|
    ensures SkipComma(str[end..]) == str[if CharAt(str, end) == ',' then end + 1 else end..]
  {
  }

  lemma ParseStep(s: string, nbits: nat)
    requires ParseRange(s).GoodItem? && ParseRange(s).range.hi < nbits
    ensures var r, rest := ParseRange(s).range, SkipComma(ParseRange(s).rest);
      ParseList(s, nbits) == if rest == "" then Ranges([r]) else Onto([r], ParseList(rest, nbits))
  {
  }

  /** One round of the parser's loop. */
  lemma ItemStep(str: string, pos: nat, end: nat, nbits: nat, done: seq<Range>, r: Range)
    requires pos <= |str| && end <= |str|
    requires ParseRange(str[pos..]) == GoodItem(r, str[end..]) && r.hi < nbits
    ensures var next := if CharAt(str, end) == ',' then end + 1 else end;
      Onto(done, ParseList(str[pos..], nbits))
      == if next == |str| then Ranges(done + [r]) else Onto(done + [r], ParseList(str[next..], nbits))
  {
    var next := if CharAt(str, end) == ',' then end + 1 else end;
    ParseStep(str[pos..], nbits);
    SkipAt(str, end);
    OneMoreOnto(done, r, ParseList(str[next..], nbits));
  }

  lemma OneMoreOnto(done: seq<Range>, r: Range, o: Outcome)
    ensures Onto(done, Onto([r], o)) == Onto(done + [r], o)
    ensures Onto(done, Ranges([r])) == Ranges(done + [r])
  {
    match o {
      case Ranges(rs) => assert done + ([r] + rs) == done + [r] + rs;
      case _ =>
    }
  }

  lemma OneMoreCovers(rs: seq<Range>, r: Range)
    ensures forall n: nat :: Covers(rs + [r], n) <==> Covers(rs, n) || r.lo <= n <= r.hi
  {
    assert r in rs + [r];
    assert forall q :: q in rs + [r] <==> q in rs || q == r;
  }
}
