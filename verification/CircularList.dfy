/** The intrusive circular list of lib/list.h. An element and a list head are the same
    pair of pointers; "entry" stands for the structure an element is embedded in. */
module CircularList {

  class ListElem<T> {
    var prev: ListElem?<T>
    var next: ListElem?<T>
    const entry: T

    constructor (entry: T)
      ensures this.entry == entry
    {
      this.entry, prev, next := entry, null, null;
    }
  }

  /** The elements of s hang from the head in this order, and prev undoes next. */
  ghost predicate Ring<T>(head: ListElem<T>, s: seq<ListElem<T>>)
    reads head, s
  {
    && (forall i :: 0 <= i < |s| ==> s[i] != head)
    && (forall i, j :: 0 <= i < j < |s| ==> s[i] != s[j])
    && head.next == (if |s| == 0 then head else s[0])
    && head.prev == (if |s| == 0 then head else s[|s| - 1])
    && (|s| > 0 ==> s[0].prev == head && s[|s| - 1].next == head)
    && (forall i {:trigger s[i].next} :: 0 <= i < |s| - 1 ==> s[i].next == s[i + 1])
    && (forall i {:trigger s[i].prev} :: 1 <= i < |s| ==> s[i].prev == s[i - 1])
  }

  function Reverse<T>(s: seq<T>): (r: seq<T>)
    ensures |r| == |s| && forall i :: 0 <= i < |s| ==> r[i] == s[|s| - 1 - i]
  {
    seq(|s|, i requires 0 <= i < |s| => s[|s| - 1 - i])
  }

  // ---------------------------------------------------------------------
  // Operations.
  // ---------------------------------------------------------------------

  method HeadInit<T>(head: ListElem<T>)
    modifies head`prev, head`next
    ensures Ring(head, [])
  {
    head.next := head;
    head.prev := head;
  }

  /** A head that was never initialised counts as empty. */
  method IsEmpty<T>(head: ListElem<T>, ghost s: seq<ListElem<T>>) returns (empty: bool)
    requires head.next == null || Ring(head, s)
    ensures empty <==> head.next == null || s == []
  {
    if head.next == null {
      return true;
    }
    return head.next == head;
  }

  /** Prepends. */
  method Add<T>(el: ListElem<T>, head: ListElem<T>, ghost s: seq<ListElem<T>>)
    requires Ring(head, s) && el != head && el !in s
    modifies el`prev, el`next, head`next, head.next`prev
    ensures Ring(head, [el] + s)
  {
    el.next := head.next;
    el.prev := head;
    head.next.prev := el;
    head.next := el;
  }

  /** Appends. */
  method AddTail<T>(el: ListElem<T>, head: ListElem<T>, ghost s: seq<ListElem<T>>)
    requires Ring(head, s) && el != head && el !in s
    modifies el`prev, el`next, head`prev, head.prev`next
    ensures Ring(head, s + [el])
  {
    el.next := head;
    el.prev := head.prev;
    head.prev.next := el;
    head.prev := el;
  }

  /** Takes element k out. */
  method Del<T>(el: ListElem<T>, ghost head: ListElem<T>, ghost s: seq<ListElem<T>>, ghost k: nat)
    requires Ring(head, s) && k < |s| && el == s[k]
    modifies el`prev, el`next, el.prev`next, el.next`prev
    ensures Ring(head, s[..k] + s[k + 1..])
    ensures el.prev == null && el.next == null
  {
    el.prev.next := el.next;
    el.next.prev := el.prev;
    el.prev := null;
    el.next := null;
  }

  /** Takes element k out and leaves it in a ring of its own. */
  method DelInit<T>(el: ListElem<T>, ghost head: ListElem<T>, ghost s: seq<ListElem<T>>, ghost k: nat)
    requires Ring(head, s) && k < |s| && el == s[k]
    modifies el`prev, el`next, el.prev`next, el.next`prev
    ensures Ring(head, s[..k] + s[k + 1..])
    ensures Ring(el, [])
  {
    el.prev.next := el.next;
    el.next.prev := el.prev;
    HeadInit(el);
  }

  /** Seen from its first element, a ring is the rest followed by the head. */
  lemma Rotated<T>(head: ListElem<T>, first: ListElem<T>, s: seq<ListElem<T>>)
    requires Ring(head, [first] + s)
    ensures Ring(first, s + [head])
  {
    var c, d := [first] + s, s + [head];
    assert c[0] == first;
    assert forall i :: 0 <= i < |s| ==> c[i + 1] == s[i] && d[i] == s[i];
    assert c[|s|].next == head && d[|s|] == head;
    forall i {:trigger d[i].next} | 0 <= i < |d| - 1
      ensures d[i].next == d[i + 1]
    {
      assert c[i + 1].next == (if i + 1 < |s| then c[i + 2] else head);
    }
    forall i {:trigger d[i].prev} | 1 <= i < |d|
      ensures d[i].prev == d[i - 1]
    {
      assert i < |s| ==> c[i + 1].prev == c[i];
    }
  }

  /** Moves all elements to another head, whose own links are overwritten. */
  method MoveAll<T>(src: ListElem<T>, dst: ListElem<T>, ghost s: seq<ListElem<T>>)
    requires Ring(src, s) && dst != src && dst !in s
    modifies src`prev, src`next, dst`prev, dst`next, src.next`prev, src.prev`next
    ensures Ring(dst, s) && Ring(src, [])
  {
    Add(dst, src, s);
    Rotated(src, dst, s);
    assert src == (s + [src])[|s|];
    Del(src, dst, s + [src], |s|);
    assert (s + [src])[..|s|] + (s + [src])[|s| + 1..] == s;
    HeadInit(src);
  }

  // ---------------------------------------------------------------------
  // Iteration.
  // ---------------------------------------------------------------------

  /** The element an iteration stands at: element k, or the head at the end. */
  ghost function Cursor<T>(head: ListElem<T>, s: seq<ListElem<T>>, k: int): ListElem<T> {
    if 0 <= k < |s| then s[k] else head
  }

  /** list_for_each */
  method ForEach<T>(head: ListElem<T>, ghost s: seq<ListElem<T>>) returns (visited: seq<ListElem<T>>)
    requires Ring(head, s)
    ensures visited == s
  {
    visited := [];
    var it := head.next;
    while it != head
      invariant |visited| <= |s| && visited == s[..|visited|] && it == Cursor(head, s, |visited|)
      decreases |s| - |visited|
    {
      visited := visited + [it];
      it := it.next;
    }
  }

  /** list_for_each_prev_continue from element k: what is in front of it, backwards. */
  method ForEachPrevContinue<T>(pos: ListElem<T>, head: ListElem<T>, ghost s: seq<ListElem<T>>, ghost k: nat)
      returns (visited: seq<ListElem<T>>)
    requires Ring(head, s) && k <= |s| && pos == Cursor(head, s, k)
    ensures visited == Reverse(s[..k])
  {
    visited := [];
    var it := pos.prev;
    ghost var i: nat := k;
    while it != head
      invariant i <= k && it == Cursor(head, s, i - 1) && visited == Reverse(s[i..k])
      decreases i
    {
      visited := visited + [it];
      it := it.prev;
      i := i - 1;
    }
    assert s[0..k] == s[..k];
  }

  /** list_for_each_prev */
  method ForEachPrev<T>(head: ListElem<T>, ghost s: seq<ListElem<T>>) returns (visited: seq<ListElem<T>>)
    requires Ring(head, s)
    ensures visited == Reverse(s)
  {
    visited := ForEachPrevContinue(head, head, s, |s|);
    assert s[..|s|] == s;
  }

  /** The elements whose structure is not to be dropped. */
  function Kept<T>(s: seq<ListElem<T>>, drop: T -> bool): (r: seq<ListElem<T>>)
    ensures |r| <= |s|
  {
    if |s| == 0 then []
    else (if drop(s[0].entry) then [] else [s[0]]) + Kept(s[1..], drop)
  }

  /** The neighbours of the first element of the second half of a ring. */
  lemma Neighbours<T>(head: ListElem<T>, front: seq<ListElem<T>>, back: seq<ListElem<T>>)
    requires Ring(head, front + back)
    ensures Cursor(head, back, 0).prev == Cursor(head, front, |front| - 1)
    ensures |back| > 0 ==> back[0] != head && back[0].next == Cursor(head, back, 1)
  {
    if |back| > 0 {
      assert (front + back)[|front|] == back[0];
    } else {
      assert front + back == front;
    }
  }

  lemma Regroup<E>(front: seq<E>, back: seq<E>)
    requires |back| > 0
    ensures (front + [back[0]]) + back[1..] == front + back
    ensures (front + back)[..|front|] + (front + back)[|front| + 1..] == front + back[1..]
  {
  }

  /** list_del of the first element of the second half of a ring. */
  method DelFirstOfBack<T>(el: ListElem<T>, ghost head: ListElem<T>, ghost front: seq<ListElem<T>>,
                           ghost back: seq<ListElem<T>>, ghost s: seq<ListElem<T>>)
    requires Ring(head, front + back) && |back| > 0 && el == back[0]
    requires (forall e <- front :: e in s) && (forall e <- back :: e in s)
    modifies head, s
    ensures Ring(head, front + back[1..])
  {
    Neighbours(head, front, back);
    assert el in back && el in s;
    assert el.prev == head || el.prev in s;
    assert el.next == head || el.next in s;
    Regroup(front, back);
    Del(el, head, front + back, |front|);
  }

  /** Where a safe iteration stands: front is behind it, back is to be visited, tmp was read ahead. */
  ghost predicate Standing<T>(head: ListElem<T>, it: ListElem?<T>, tmp: ListElem?<T>, front: seq<ListElem<T>>,
                              back: seq<ListElem<T>>)
    reads head, front + back
  {
    && Ring(head, front + back)
    && it == Cursor(head, back, 0)
    && (it != head <==> |back| > 0)
    && (|back| > 0 ==> tmp != null && tmp == Cursor(head, back, 1))
  }

  /** How far a safe iteration over s has come: of front nothing is new. */
  ghost predicate Walking<T>(head: ListElem<T>, it: ListElem?<T>, tmp: ListElem?<T>, front: seq<ListElem<T>>,
                             back: seq<ListElem<T>>, s: seq<ListElem<T>>)
    reads head, front + back
  {
    && (forall e <- front :: e in s)
    && (forall e <- back :: e in s)
    && Standing(head, it, tmp, front, back)
  }

  /** One round: the visited element goes, or stays, and the iteration moves to what it read ahead. */
  method VisitSafe<T>(el: ListElem<T>, next: ListElem<T>, ghost head: ListElem<T>, ghost front: seq<ListElem<T>>,
                      ghost back: seq<ListElem<T>>, ghost s: seq<ListElem<T>>, drop: T -> bool, cnt: nat)
      returns (cnt': nat, it: ListElem<T>, tmp: ListElem?<T>, ghost front': seq<ListElem<T>>,
               ghost back': seq<ListElem<T>>)
    requires Walking(head, el, next, front, back, s) && |back| > 0
    modifies head, s
    ensures Walking(head, it, tmp, front', back', s)
    ensures |back'| < |back|
    ensures cnt' + |front'| + |back'| == cnt + |front| + |back|
    ensures front' + Kept(back', drop) == front + Kept(back, drop)
  {
    Regroup(front, back);
    cnt' := cnt;
    front', back' := if drop(el.entry) then front else front + [el], back[1..];
    assert el in back;
    if drop(el.entry) {
      cnt' := cnt' + 1;
      DelFirstOfBack(el, head, front, back, s);
    }
    Neighbours(head, front', back');
    it := next;
    tmp := it.next;
  }

  lemma WalkStarts<T>(head: ListElem<T>, it: ListElem<T>, tmp: ListElem?<T>, s: seq<ListElem<T>>)
    requires Ring(head, s) && it == head.next && tmp == it.next
    ensures Standing(head, it, tmp, [], s) && Walking(head, it, tmp, [], s, s)
  {
    assert [] + s == s;
    Neighbours(head, [], s);
  }

  lemma WalkEnds<T>(front: seq<ListElem<T>>, back: seq<ListElem<T>>, drop: T -> bool)
    requires |back| == 0
    ensures front + back == front && front + Kept(back, drop) == front
  {
  }

  /** list_for_each_safe with list_del on some of the visited elements. */
  method RemoveIf<T>(head: ListElem<T>, ghost s: seq<ListElem<T>>, drop: T -> bool) returns (cnt: nat)
    requires Ring(head, s)
    modifies head, s
    ensures Ring(head, Kept(s, drop))
    ensures cnt == |s| - |Kept(s, drop)|
  {
    cnt := 0;
    var it: ListElem?<T> := head.next;
    var tmp := it.next;
    WalkStarts(head, it, tmp, s);
    assert [] + Kept(s, drop) == Kept(s, drop);
    ghost var front, back := [], s;
    while it != head
      invariant Walking(head, it, tmp, front, back, s)
      invariant front + Kept(back, drop) == Kept(s, drop)
      invariant cnt + |front| + |back| == |s|
      invariant it != head ==> |back| > 0 && it != null && tmp != null
      decreases |back|
    {
      cnt, it, tmp, front, back := VisitSafe(it, tmp, head, front, back, s, drop, cnt);
    }
    WalkEnds(front, back, drop);
  }
}
