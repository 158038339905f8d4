/** Bitmaps as arrays of words: the scanners and word operations of lib/bitmap.c. */
module Bitmap {
  import opened Words

  predicate BitAt(m: Map, n: nat)
    requires n < BITS_PER_LONG * |m|
  {
    Bit(m[n / BITS_PER_LONG], n % BITS_PER_LONG)
  }

  /** The set bits. */
  function Bits(m: Map): set<nat> {
    set n: nat | n < BITS_PER_LONG * |m| && BitAt(m, n)
  }

  /** The bits in order, the first one being bit 0. */
  function View(m: Map): (b: seq<bool>)
    ensures |b| == BITS_PER_LONG * |m|
    ensures forall n :: 0 <= n < |b| ==> b[n] == BitAt(m, n)
  {
    seq(BITS_PER_LONG * |m|, n requires 0 <= n < BITS_PER_LONG * |m| => BitAt(m, n))
  }

  /** r is the least n from "from" on and below "limit" whose bit is "want", else "limit". */
  ghost predicate IsNext(b: seq<bool>, want: bool, from: nat, limit: nat, r: nat)
    requires limit <= |b|
  {
    && r <= limit
    && (from <= limit ==> from <= r)
    && (from > limit ==> r == limit)
    && (r < limit ==> b[r] == want)
    && forall n :: from <= n < r ==> b[n] != want
  }

  lemma {:induction false} NextExists(b: seq<bool>, want: bool, from: nat, limit: nat)
    requires limit <= |b|
    ensures exists r: nat :: IsNext(b, want, from, limit, r)
    decreases if from < limit then limit - from else 0
  {
    if from >= limit {
      assert IsNext(b, want, from, limit, limit);
    } else if b[from] == want {
      assert IsNext(b, want, from, limit, from);
    } else {
      NextExists(b, want, from + 1, limit);
      var r: nat :| IsNext(b, want, from + 1, limit, r);
      assert IsNext(b, want, from, limit, r);
    }
  }

  ghost function Next(b: seq<bool>, want: bool, from: nat, limit: nat): (r: nat)
    requires limit <= |b|
    ensures IsNext(b, want, from, limit, r)
  {
    NextExists(b, want, from, limit);
    var r: nat :| IsNext(b, want, from, limit, r);
    r
  }

  lemma NextIs(b: seq<bool>, want: bool, from: nat, limit: nat, r: nat)
    requires limit <= |b| && from <= r <= limit
    requires r < limit ==> b[r] == want
    requires forall n :: from <= n < r ==> b[n] != want
    ensures Next(b, want, from, limit) == r
  {
    var s := Next(b, want, from, limit);
    assert IsNext(b, want, from, limit, s);
  }

  lemma NextSkips(b: seq<bool>, want: bool, from: nat, to: nat, limit: nat)
    requires limit <= |b| && from <= to <= limit
    requires forall n :: from <= n < to ==> b[n] != want
    ensures Next(b, want, from, limit) == Next(b, want, to, limit)
  {
    NextIs(b, want, from, limit, Next(b, want, to, limit));
  }

  /** Two bitmaps of one size with the same bits are the same words. */
  lemma SameBitsSameMap(a: Map, b: Map)
    requires |a| == |b| && Bits(a) == Bits(b)
    ensures a == b
  {
    forall i | 0 <= i < |a|
      ensures a[i] == b[i]
    {
      forall k | 0 <= k < BITS_PER_LONG
        ensures Bit(a[i], k) <==> Bit(b[i], k)
      {
        InWord(a, i, k);
        InWord(b, i, k);
      }
      SameBitsSameWord(a[i], b[i]);
    }
  }

  lemma InWord(m: Map, i: nat, k: nat)
    requires i < |m| && k < BITS_PER_LONG
    ensures BITS_PER_LONG * i + k in Bits(m) <==> Bit(m[i], k)
  {
    Position(i, k);
    assert BitAt(m, BITS_PER_LONG * i + k) <==> Bit(m[i], k);
  }

  lemma Position(i: nat, k: nat)
    requires k < BITS_PER_LONG
    ensures (BITS_PER_LONG * i + k) / BITS_PER_LONG == i
    ensures (BITS_PER_LONG * i + k) % BITS_PER_LONG == k
  {
  }

  // ---------------------------------------------------------------------
  // Reading.
  // ---------------------------------------------------------------------

  predicate TestBit(words: array<bv64>, nr: nat)
    requires nr < BITS_PER_LONG * words.Length
    reads words
    ensures TestBit(words, nr) == View(words[..])[nr]
  {
    Bit(words[nr / BITS_PER_LONG], nr % BITS_PER_LONG)
  }

  /** BITS_TO_LONGS */
  function Longs(nbits: nat): nat {
    (nbits + BITS_PER_LONG - 1) / BITS_PER_LONG
  }

  /** The loop over the bits of one word, up to the first one of this value. */
  method ScanWord(words: array<bv64>, start: nat, from: nat, n: nat, value: bool) returns (j: nat)
    requires from < n && start + n <= BITS_PER_LONG * words.Length
    ensures from <= j <= n
    ensures forall x :: start + from <= x < start + j ==> View(words[..])[x] != value
    ensures j < n ==> View(words[..])[start + j] == value
  {
    ghost var b := View(words[..]);
    j := from;
    while true
      invariant from <= j < n
      invariant forall x :: start + from <= x < start + j ==> b[x] != value
      decreases n - j
    {
      var found := TestBit(words, start + j);
      if found == value {
        break;
      }
      j := j + 1;
      if j >= n {
        break;
      }
    }
  }

  /** Skips zero words from word "base" on, then looks for the bit in the first word that
      is not zero. Only the words that hold the nmaskbits bits are read. */
  method FindFirstBit(words: array<bv64>, base: nat, nmaskbits: nat) returns (r: nat)
    requires base + Longs(nmaskbits) <= words.Length
    ensures BITS_PER_LONG * base + r
         == Next(View(words[..]), true, BITS_PER_LONG * base, BITS_PER_LONG * base + nmaskbits)
  {
    ghost var b := View(words[..]);
    var nmasklongs := Longs(nmaskbits);
    var start, limit := BITS_PER_LONG * base, BITS_PER_LONG * base + nmaskbits;
    var i := 0;
    while i < nmasklongs
      invariant i <= nmasklongs
      invariant forall n :: start <= n < start + BITS_PER_LONG * i ==> !b[n]
    {
      if words[base + i] != 0 {
        break;
      }
      ZeroWord(words[..], base + i);
      i := i + 1;
    }
    if i == nmasklongs {
      NextIs(b, true, start, limit, limit);
      return nmaskbits;
    }
    var j := i * BITS_PER_LONG;
    var n := j + BITS_PER_LONG;
    n := if n < nmaskbits then n else nmaskbits;
    ghost var k := NonZeroWord(words[..], base + i);
    assert j == BITS_PER_LONG * i && forall x :: start <= x < start + j ==> !b[x];
    j := ScanWord(words, start, j, n, true);
    assert forall x :: start <= x < start + j ==> !b[x];
    NextIs(b, true, start, limit, start + j);
    return j;
  }

  lemma ZeroWord(m: Map, i: nat)
    requires i < |m| && m[i] == 0
    ensures forall n :: BITS_PER_LONG * i <= n < BITS_PER_LONG * (i + 1) ==> !BitAt(m, n)
  {
    forall n | BITS_PER_LONG * i <= n < BITS_PER_LONG * (i + 1)
      ensures !BitAt(m, n)
    {
      ZeroHasNoBit(n % BITS_PER_LONG);
    }
  }

  lemma NonZeroWord(m: Map, i: nat) returns (n: nat)
    requires i < |m| && m[i] != 0
    ensures BITS_PER_LONG * i <= n < BITS_PER_LONG * (i + 1) && BitAt(m, n)
  {
    NonZeroHasBit(m[i]);
    var k :| 0 <= k < BITS_PER_LONG && Bit(m[i], k);
    n := BITS_PER_LONG * i + k;
    Position(i, k);
  }

  method FindBit(words: array<bv64>, nmaskbits: nat, offset: nat) returns (r: nat)
    requires Longs(nmaskbits) <= words.Length
    ensures r == Next(View(words[..]), true, offset, nmaskbits)
  {
    ghost var b := View(words[..]);
    var at := offset;
    if at % BITS_PER_LONG != 0 {
      Boundary(at);
      var n := (at / BITS_PER_LONG + 1) * BITS_PER_LONG;
      n := if n < nmaskbits then n else nmaskbits;
      while at < n
        invariant offset <= at && (at <= n || at == offset)
        invariant forall x :: offset <= x < at ==> !b[x]
      {
        if TestBit(words, at) {
          NextIs(b, true, offset, nmaskbits, at);
          return at;
        }
        at := at + 1;
      }
    }
    if at >= nmaskbits {
      if offset < nmaskbits {
        NextIs(b, true, offset, nmaskbits, nmaskbits);
      }
      return nmaskbits;
    }
    Aligned(at);
    var base := at / BITS_PER_LONG;
    var rest := FindFirstBit(words, base, nmaskbits - at);
    assert at + rest == Next(b, true, at, nmaskbits);
    NextSkips(b, true, offset, at, nmaskbits);
    return at + rest;
  }

  lemma Boundary(at: nat)
    ensures at < (at / BITS_PER_LONG + 1) * BITS_PER_LONG
    ensures (at / BITS_PER_LONG + 1) * BITS_PER_LONG % BITS_PER_LONG == 0
  {
  }

  lemma Aligned(at: nat)
    ensures at % BITS_PER_LONG == 0 ==> BITS_PER_LONG * (at / BITS_PER_LONG) == at
  {
  }

  /** The counterpart of FindFirstBit for a clear bit: skips words of ones. */
  method FindFirstZeroBit(words: array<bv64>, base: nat, nmaskbits: nat) returns (r: nat)
    requires base + Longs(nmaskbits) <= words.Length
    ensures BITS_PER_LONG * base + r
         == Next(View(words[..]), false, BITS_PER_LONG * base, BITS_PER_LONG * base + nmaskbits)
  {
    ghost var b := View(words[..]);
    var nmasklongs := Longs(nmaskbits);
    var start, limit := BITS_PER_LONG * base, BITS_PER_LONG * base + nmaskbits;
    var i := 0;
    while i < nmasklongs
      invariant i <= nmasklongs
      invariant forall n :: start <= n < start + BITS_PER_LONG * i ==> b[n]
    {
      if !words[base + i] != 0 {
        break;
      }
      OnesWord(words[..], base + i);
      i := i + 1;
    }
    if i == nmasklongs {
      NextIs(b, false, start, limit, limit);
      return nmaskbits;
    }
    var j := i * BITS_PER_LONG;
    var n := j + BITS_PER_LONG;
    n := if n < nmaskbits then n else nmaskbits;
    ghost var k := NotOnesWord(words[..], base + i);
    assert j == BITS_PER_LONG * i && forall x :: start <= x < start + j ==> b[x];
    j := ScanWord(words, start, j, n, false);
    assert forall x :: start <= x < start + j ==> b[x];
    NextIs(b, false, start, limit, start + j);
    return j;
  }

  lemma OnesWord(m: Map, i: nat)
    requires i < |m| && !m[i] == 0
    ensures forall n :: BITS_PER_LONG * i <= n < BITS_PER_LONG * (i + 1) ==> BitAt(m, n)
  {
    forall n | BITS_PER_LONG * i <= n < BITS_PER_LONG * (i + 1)
      ensures BitAt(m, n)
    {
      OnesHaveEveryBit(m[i], n % BITS_PER_LONG);
    }
  }

  lemma NotOnesWord(m: Map, i: nat) returns (n: nat)
    requires i < |m| && !m[i] != 0
    ensures BITS_PER_LONG * i <= n < BITS_PER_LONG * (i + 1) && !BitAt(m, n)
  {
    NotOnesMissesBit(m[i]);
    var k :| 0 <= k < BITS_PER_LONG && !Bit(m[i], k);
    n := BITS_PER_LONG * i + k;
    Position(i, k);
  }

  method FindZeroBit(words: array<bv64>, nmaskbits: nat, offset: nat) returns (r: nat)
    requires Longs(nmaskbits) <= words.Length
    ensures r == Next(View(words[..]), false, offset, nmaskbits)
  {
    ghost var b := View(words[..]);
    var at := offset;
    if at % BITS_PER_LONG != 0 {
      Boundary(at);
      var n := (at / BITS_PER_LONG + 1) * BITS_PER_LONG;
      n := if n < nmaskbits then n else nmaskbits;
      while at < n
        invariant offset <= at && (at <= n || at == offset)
        invariant forall x :: offset <= x < at ==> b[x]
      {
        if !TestBit(words, at) {
          NextIs(b, false, offset, nmaskbits, at);
          return at;
        }
        at := at + 1;
      }
    }
    if at >= nmaskbits {
      if offset < nmaskbits {
        NextIs(b, false, offset, nmaskbits, nmaskbits);
      }
      return nmaskbits;
    }
    Aligned(at);
    var base := at / BITS_PER_LONG;
    var rest := FindFirstZeroBit(words, base, nmaskbits - at);
    assert at + rest == Next(b, false, at, nmaskbits);
    NextSkips(b, false, offset, at, nmaskbits);
    return at + rest;
  }

  /** Every bit is set. */
  ghost predicate Full(m: Map) {
    forall n :: 0 <= n < BITS_PER_LONG * |m| ==> BitAt(m, n)
  }

  method AllBitSet(words: array<bv64>) returns (all: bool)
    ensures all <==> Full(words[..])
  {
    var nmaskbits := BITS_PER_LONG * words.Length;
    var n := FindFirstZeroBit(words, 0, nmaskbits);
    all := n == nmaskbits;
  }

  // ---------------------------------------------------------------------
  // Writing.
  // ---------------------------------------------------------------------

  /** w2 has the bits of w and bit i. */
  ghost predicate Gains(w: bv64, w2: bv64, i: nat) {
    forall k :: 0 <= k < BITS_PER_LONG ==> (Bit(w2, k) <==> Bit(w, k) || k == i)
  }

  lemma SettingGains(w: bv64, i: nat)
    requires i < BITS_PER_LONG
    ensures Gains(w, w | Mask(i), i)
  {
    forall k | 0 <= k < BITS_PER_LONG
      ensures Bit(w | Mask(i), k) <==> Bit(w, k) || k == i
    {
      SetAt(w, i, k);
    }
  }

  lemma GainAddsOne(m: Map, m2: Map, nr: nat)
    requires nr < BITS_PER_LONG * |m| && |m2| == |m|
    requires forall j :: 0 <= j < |m| && j != nr / BITS_PER_LONG ==> m2[j] == m[j]
    requires Gains(m[nr / BITS_PER_LONG], m2[nr / BITS_PER_LONG], nr % BITS_PER_LONG)
    ensures Bits(m2) == Bits(m) + {nr}
  {
    forall n | 0 <= n < BITS_PER_LONG * |m|
      ensures BitAt(m2, n) <==> BitAt(m, n) || n == nr
    {
    }
  }

  method SetBit(words: array<bv64>, nr: nat)
    requires nr < BITS_PER_LONG * words.Length
    modifies words
    ensures Bits(words[..]) == old(Bits(words[..])) + {nr}
  {
    ghost var was := words[..];
    var w := nr / BITS_PER_LONG;
    SettingGains(words[w], nr % BITS_PER_LONG);
    words[w] := words[w] | Mask(nr % BITS_PER_LONG);
    GainAddsOne(was, words[..], nr);
  }

  method Zero(words: array<bv64>)
    modifies words
    ensures Bits(words[..]) == {}
  {
    for i := 0 to words.Length
      invariant forall j :: 0 <= j < i ==> words[j] == 0
    {
      words[i] := 0;
    }
    forall n | 0 <= n < BITS_PER_LONG * words.Length
      ensures !BitAt(words[..], n)
    {
      ZeroHasNoBit(n % BITS_PER_LONG);
    }
  }

  /** memset(maskp, 0xff, size) */
  method Fill(words: array<bv64>)
    modifies words
    ensures Full(words[..])
  {
    for i := 0 to words.Length
      invariant forall j :: 0 <= j < i ==> words[j] == ONES
    {
      words[i] := ONES;
    }
    forall n | 0 <= n < BITS_PER_LONG * words.Length
      ensures BitAt(words[..], n)
    {
      OnesHaveEveryBit(ONES, n % BITS_PER_LONG);
    }
  }

  method Empty(words: array<bv64>) returns (empty: bool)
    ensures empty <==> Bits(words[..]) == {}
  {
    ZeroWordsMeanEmpty(words[..]);
    for i := 0 to words.Length
      invariant forall j :: 0 <= j < i ==> words[j] == 0
    {
      if words[i] != 0 {
        return false;
      }
    }
    return true;
  }

  lemma OrIsZero(w: bv64, x: bv64)
    ensures w | x == 0 <==> w == 0 && x == 0
  {
  }

  /** bitmap_and, bitmap_andnot and bitmap_or. */
  datatype WordOp = Both | FirstOnly | Either
  {
    predicate Of(x: bool, y: bool) {
      match this
      case Both => x && y
      case FirstOnly => x && !y
      case Either => x || y
    }
  }

  function Combined(op: WordOp, x: set<nat>, y: set<nat>): set<nat> {
    match op
    case Both => x * y
    case FirstOnly => x - y
    case Either => x + y
  }

  /** w has the bits that op makes of those of x and y. */
  ghost predicate Combines(op: WordOp, w: bv64, x: bv64, y: bv64) {
    forall k :: 0 <= k < BITS_PER_LONG ==> (Bit(w, k) <==> op.Of(Bit(x, k), Bit(y, k)))
  }

  lemma AndCombines(x: bv64, y: bv64)
    ensures Combines(Both, x & y, x, y)
  {
    forall k | 0 <= k < BITS_PER_LONG
      ensures Bit(x & y, k) <==> Both.Of(Bit(x, k), Bit(y, k))
    {
      AndAt(x, y, k);
    }
  }

  lemma AndNotCombines(x: bv64, y: bv64)
    ensures Combines(FirstOnly, x & !y, x, y)
  {
    forall k | 0 <= k < BITS_PER_LONG
      ensures Bit(x & !y, k) <==> FirstOnly.Of(Bit(x, k), Bit(y, k))
    {
      AndNotAt(x, y, k);
    }
  }

  lemma OrCombines(x: bv64, y: bv64)
    ensures Combines(Either, x | y, x, y)
  {
    forall k | 0 <= k < BITS_PER_LONG
      ensures Bit(x | y, k) <==> Either.Of(Bit(x, k), Bit(y, k))
    {
      OrAt(x, y, k);
    }
  }

  lemma CombinedWords(op: WordOp, a: Map, b: Map, c: Map)
    requires |a| == |b| == |c| && forall j :: 0 <= j < |a| ==> Combines(op, c[j], a[j], b[j])
    ensures Bits(c) == Combined(op, Bits(a), Bits(b))
  {
    forall n | 0 <= n < BITS_PER_LONG * |a|
      ensures BitAt(c, n) <==> op.Of(BitAt(a, n), BitAt(b, n))
    {
      assert Combines(op, c[n / BITS_PER_LONG], a[n / BITS_PER_LONG], b[n / BITS_PER_LONG]);
    }
  }

  lemma ZeroWordsMeanEmpty(m: Map)
    ensures (forall j :: 0 <= j < |m| ==> m[j] == 0) <==> Bits(m) == {}
  {
    if i :| 0 <= i < |m| && m[i] != 0 {
      var n := NonZeroWord(m, i);
      assert n in Bits(m);
    } else {
      forall n | 0 <= n < BITS_PER_LONG * |m|
        ensures !BitAt(m, n)
      {
        ZeroWord(m, n / BITS_PER_LONG);
      }
    }
  }

  /** One word of the loops below. */
  method CombineWord(op: WordOp, x: bv64, y: bv64) returns (w: bv64)
    ensures Combines(op, w, x, y)
  {
    match op
    case Both =>
      AndCombines(x, y);
      w := x & y;
    case FirstOnly =>
      AndNotCombines(x, y);
      w := x & !y;
    case Either =>
      OrCombines(x, y);
      w := x | y;
  }

  method Gather(acc: bv64, w: bv64) returns (result: bv64)
    ensures result == 0 <==> acc == 0 && w == 0
  {
    OrIsZero(acc, w);
    result := acc | w;
  }

  /** Combines the bitmaps word by word; "dst" may be one of the operands. */
  method Combine(op: WordOp, dst: array<bv64>, words1: array<bv64>, words2: array<bv64>) returns (any: bool)
    requires dst.Length == words1.Length == words2.Length
    modifies dst
    ensures Bits(dst[..]) == Combined(op, old(Bits(words1[..])), old(Bits(words2[..])))
    ensures any <==> Bits(dst[..]) != {}
  {
    var result: bv64 := 0;
    ghost var a, b := words1[..], words2[..];
    for i := 0 to dst.Length
      invariant forall j :: 0 <= j < i ==> Combines(op, dst[j], a[j], b[j])
      invariant forall j :: i <= j < dst.Length ==> words1[j] == a[j] && words2[j] == b[j]
      invariant result == 0 <==> forall j :: 0 <= j < i ==> dst[j] == 0
    {
      var w := CombineWord(op, words1[i], words2[i]);
      result := Gather(result, w);
      dst[i] := w;
    }
    CombinedWords(op, a, b, dst[..]);
    ZeroWordsMeanEmpty(dst[..]);
    any := result != 0;
  }
}
