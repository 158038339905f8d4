/** sort_str_list of lib/create.c: the strings of a list are swapped between neighbours, the
    first pair out of order each time, until no pair is. */
module StrSort {
  import opened CircularList
  import opened Common

  /** strcmp(a, b) < 0 */
  predicate Less(a: string, b: string) {
    |b| > 0 && (|a| == 0 || a[0] < b[0] || (a[0] == b[0] && Less(a[1..], b[1..])))
  }

  predicate Before(a: Str, b: Str) {
    Less(a.text, b.text)
  }

  lemma {:induction false} LessIsAsymmetric(a: string, b: string)
    ensures !(Less(a, b) && Less(b, a))
  {
    if |a| > 0 && |b| > 0 {
      LessIsAsymmetric(a[1..], b[1..]);
    }
  }

  lemma {:induction false} NotLessIsTransitive(a: string, b: string, c: string)
    requires !Less(b, a) && !Less(c, b)
    ensures !Less(c, a)
  {
    if |a| > 0 && |b| > 0 && |c| > 0 && a[0] == b[0] == c[0] {
      NotLessIsTransitive(a[1..], b[1..], c[1..]);
    }
  }

  ghost predicate Sorted(xs: seq<Str>) {
    forall i, j :: 0 <= i < j < |xs| ==> !Before(xs[j], xs[i])
  }

  /** Neighbour k and the one behind it are out of order. */
  predicate Descent(xs: seq<Str>, k: nat) {
    k + 1 < |xs| && Before(xs[k + 1], xs[k])
  }

  lemma {:induction false} NoDescentFrom(xs: seq<Str>, i: nat, j: nat)
    requires i < j < |xs| && forall k: nat :: i <= k < j ==> !Descent(xs, k)
    ensures !Before(xs[j], xs[i])
  {
    assert !Descent(xs, j - 1);
    if i < j - 1 {
      NoDescentFrom(xs, i, j - 1);
      NotLessIsTransitive(xs[i].text, xs[j - 1].text, xs[j].text);
    }
  }

  lemma NoDescentIsSorted(xs: seq<Str>)
    requires forall k: nat :: k < |xs| ==> !Descent(xs, k)
    ensures Sorted(xs)
  {
    forall i, j | 0 <= i < j < |xs|
      ensures !Before(xs[j], xs[i])
    {
      NoDescentFrom(xs, i, j);
    }
  }

  // ---------------------------------------------------------------------
  // Inversions.
  // ---------------------------------------------------------------------

  /** How many of xs come before x in order. */
  function Smaller(x: Str, xs: seq<Str>): nat {
    if |xs| == 0 then 0 else (if Before(xs[0], x) then 1 else 0) + Smaller(x, xs[1..])
  }

  /** The pairs that are out of order. */
  function Inversions(xs: seq<Str>): nat {
    if |xs| == 0 then 0 else Smaller(xs[0], xs[1..]) + Inversions(xs[1..])
  }

  function Swapped(xs: seq<Str>, k: nat): (r: seq<Str>)
    requires k + 1 < |xs|
    ensures |r| == |xs|
  {
    xs[k := xs[k + 1]][k + 1 := xs[k]]
  }

  lemma {:induction false} SwapKeepsSmaller(x: Str, xs: seq<Str>, k: nat)
    requires k + 1 < |xs|
    ensures Smaller(x, Swapped(xs, k)) == Smaller(x, xs)
  {
    var r := Swapped(xs, k);
    if k == 0 {
      assert r[1..][1..] == xs[1..][1..];
    } else {
      assert r[1..] == Swapped(xs[1..], k - 1);
      SwapKeepsSmaller(x, xs[1..], k - 1);
    }
  }

  /** Swapping a descent leaves exactly one inversion less. */
  lemma {:induction false} SwapDropsOne(xs: seq<Str>, k: nat)
    requires Descent(xs, k)
    ensures Inversions(Swapped(xs, k)) == Inversions(xs) - 1
  {
    var r := Swapped(xs, k);
    if k == 0 {
      assert r[1..][1..] == xs[1..][1..];
      LessIsAsymmetric(xs[0].text, xs[1].text);
    } else {
      assert r[1..] == Swapped(xs[1..], k - 1);
      assert Descent(xs[1..], k - 1);
      SwapDropsOne(xs[1..], k - 1);
      SwapKeepsSmaller(xs[0], xs[1..], k - 1);
    }
  }

  lemma {:induction false} SortedHasNone(xs: seq<Str>)
    requires Sorted(xs)
    ensures Inversions(xs) == 0
  {
    if |xs| > 0 {
      NoneSmaller(xs[0], xs[1..]);
      SortedHasNone(xs[1..]);
    }
  }

  lemma {:induction false} NoneSmaller(x: Str, xs: seq<Str>)
    requires forall y <- xs :: !Before(y, x)
    ensures Smaller(x, xs) == 0
  {
    if |xs| > 0 {
      NoneSmaller(x, xs[1..]);
    }
  }

  predicate Permutes(xs: seq<Str>, ys: seq<Str>) {
    multiset(xs) == multiset(ys)
  }

  lemma SwapPermutes(xs: seq<Str>, k: nat, ys: seq<Str>)
    requires k + 1 < |xs| && Permutes(xs, ys)
    ensures Permutes(Swapped(xs, k), ys)
  {
  }

  // ---------------------------------------------------------------------
  // The list.
  // ---------------------------------------------------------------------

  class StrParam {
    var str: Str

    constructor (str: Str)
      ensures this.str == str
    {
      this.str := str;
    }
  }

  /** The list s holds the structures ps, each once. */
  ghost predicate Lists(s: seq<ListElem<StrParam>>, ps: seq<StrParam>) {
    && |s| == |ps|
    && (forall i :: 0 <= i < |s| ==> s[i].entry == ps[i])
    && (forall i, j :: 0 <= i < j < |ps| ==> ps[i] != ps[j])
  }

  ghost predicate Holds(ps: seq<StrParam>, xs: seq<Str>)
    reads ps
  {
    |ps| == |xs| && forall i :: 0 <= i < |ps| ==> ps[i].str == xs[i]
  }

  /** One pass: the first descent is swapped. */
  method SwapFirst(head: ListElem<StrParam>, ghost s: seq<ListElem<StrParam>>, ghost ps: seq<StrParam>,
                   ghost xs: seq<Str>) returns (changed: bool, ghost k: nat)
    requires Ring(head, s) && Lists(s, ps) && Holds(ps, xs)
    modifies ps
    ensures changed ==> Descent(xs, k) && Holds(ps, Swapped(xs, k))
    ensures !changed ==> Holds(ps, xs) && k == |xs|
    ensures forall j: nat :: j < k ==> !Descent(xs, j)
  {
    var it := head.next;
    k := 0;
    while it != head
      invariant k <= |s| && it == Cursor(head, s, k)
      invariant forall j: nat :: j < k ==> !Descent(xs, j)
      decreases |s| - k
    {
      if it.next != head {
        var next := it.next;
        assert it == s[k] && next == s[k + 1];
        if Before(next.entry.str, it.entry.str) {
          it.entry.str, next.entry.str := next.entry.str, it.entry.str;
          return true, k;
        }
      }
      it := it.next;
      k := k + 1;
    }
    changed := false;
  }

  /** The passes end, with as many swaps as there were inversions. */
  method SortStrList(head: ListElem<StrParam>, ghost s: seq<ListElem<StrParam>>, ghost ps: seq<StrParam>,
                     ghost xs: seq<Str>) returns (ghost sorted: seq<Str>, ghost swaps: nat)
    requires Ring(head, s) && Lists(s, ps) && Holds(ps, xs)
    modifies ps
    ensures Holds(ps, sorted) && Sorted(sorted) && Permutes(sorted, xs)
    ensures swaps == Inversions(xs)
  {
    var changed := true;
    sorted, swaps := xs, 0;
    while changed
      invariant Ring(head, s) && Holds(ps, sorted) && Permutes(sorted, xs)
      invariant swaps + Inversions(sorted) == Inversions(xs)
      invariant !changed ==> Sorted(sorted)
      decreases Inversions(sorted), changed
    {
      ghost var k;
      changed, k := SwapFirst(head, s, ps, sorted);
      if changed {
        SwapDropsOne(sorted, k);
        SwapPermutes(sorted, k, xs);
        sorted, swaps := Swapped(sorted, k), swaps + 1;
      } else {
        NoDescentIsSorted(sorted);
      }
    }
    SortedHasNone(sorted);
  }
}
