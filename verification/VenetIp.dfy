/** The venet addresses of a container: their set in the kernel (lib/net.c) and the list that
    is saved for them (ips2str of lib/env_config.c). */
module VenetIp {
  import opened CircularList
  import opened IpText
  import opened CText
  import opened Common

  /** Stands for "no address" in a saved list. */
  const NO_IP: Ip := Str("0.0.0.0")

  datatype Op = Add | Del

  function Invert(op: Op): Op {
    if op.Add? then Del else Add
  }

  function One(ips: set<Ip>, op: Op, ip: Ip): set<Ip> {
    if op.Add? then ips + {ip} else ips - {ip}
  }

  /** The addresses the kernel has for the container. A strict kernel refuses to add an
      address twice and to delete one that is not there. */
  class Kernel {
    var ips: set<Ip>
    const strict: bool
    const refuses: (Op, Ip) -> bool

    constructor (ips: set<Ip>, strict: bool, refuses: (Op, Ip) -> bool)
      ensures this.ips == ips && this.strict == strict && this.refuses == refuses
    {
      this.ips, this.strict, this.refuses := ips, strict, refuses;
    }

    method Perform(op: Op, ip: Ip) returns (ok: bool)
      modifies this`ips
      ensures ok == Works(this, old(ips), op, ip) && ips == Tried(this, old(ips), op, ip)
    {
      ok := Works(this, ips, op, ip);
      if ok {
        ips := One(ips, op, ip);
      }
    }
  }

  predicate Works(k: Kernel, ips: set<Ip>, op: Op, ip: Ip) {
    !k.refuses(op, ip) && (k.strict ==> (op.Add? <==> ip !in ips))
  }

  function Tried(k: Kernel, ips: set<Ip>, op: Op, ip: Ip): set<Ip> {
    if Works(k, ips, op, ip) then One(ips, op, ip) else ips
  }

  // ---------------------------------------------------------------------
  // A list of operations, and its rollback.
  // ---------------------------------------------------------------------

  /** The set once the first n operations are done. */
  function Reached(ips: set<Ip>, op: Op, xs: seq<Ip>, n: nat): set<Ip>
    requires n <= |xs|
  {
    if n == 0 then ips else One(Reached(ips, op, xs, n - 1), op, xs[n - 1])
  }

  function FirstFailure(k: Kernel, ips: set<Ip>, op: Op, xs: seq<Ip>, from: nat): (n: nat)
    requires from <= |xs|
    ensures from <= n <= |xs| && (n < |xs| ==> !Works(k, Reached(ips, op, xs, n), op, xs[n]))
    ensures forall i {:trigger Reached(ips, op, xs, i)} :: from <= i < n ==>
      Works(k, Reached(ips, op, xs, i), op, xs[i])
    decreases |xs| - from
  {
    if from == |xs| || !Works(k, Reached(ips, op, xs, from), op, xs[from]) then from
    else FirstFailure(k, ips, op, xs, from + 1)
  }

  /** The set once the first n operations were undone, the last one first, where the kernel lets them. */
  function Undone(k: Kernel, ips: set<Ip>, op: Op, xs: seq<Ip>, n: nat): set<Ip>
    requires n <= |xs|
    decreases n
  {
    if n == 0 then ips else Undone(k, Tried(k, ips, Invert(op), xs[n - 1]), op, xs, n - 1)
  }

  function Outcome(k: Kernel, ips: set<Ip>, op: Op, xs: seq<Ip>, rollback: bool): set<Ip> {
    var n := FirstFailure(k, ips, op, xs, 0);
    var r := Reached(ips, op, xs, n);
    if n < |xs| && rollback then Undone(k, r, op, xs, n) else r
  }

  function SetOf(xs: seq<Ip>): set<Ip> {
    set x <- xs
  }

  lemma SetOfOneMore(xs: seq<Ip>, n: nat)
    requires n < |xs|
    ensures SetOf(xs[..n + 1]) == SetOf(xs[..n]) + {xs[n]}
  {
    assert xs[..n + 1] == xs[..n] + [xs[n]];
  }

  lemma {:induction false} ReachedIs(ips: set<Ip>, op: Op, xs: seq<Ip>, n: nat)
    requires n <= |xs|
    ensures Reached(ips, op, xs, n) == if op.Add? then ips + SetOf(xs[..n]) else ips - SetOf(xs[..n])
  {
    if n > 0 {
      ReachedIs(ips, op, xs, n - 1);
      SetOfOneMore(xs, n - 1);
    } else {
      assert SetOf(xs[..0]) == {};
    }
  }

  lemma {:induction false} UndoneIs(k: Kernel, ips: set<Ip>, op: Op, xs: seq<Ip>, n: nat)
    requires n <= |xs| && !k.strict && forall x <- xs :: !k.refuses(Invert(op), x)
    ensures Undone(k, ips, op, xs, n) == if op.Add? then ips - SetOf(xs[..n]) else ips + SetOf(xs[..n])
    decreases n
  {
    if n > 0 {
      UndoneIs(k, One(ips, Invert(op), xs[n - 1]), op, xs, n - 1);
      SetOfOneMore(xs, n - 1);
    } else {
      assert SetOf(xs[..0]) == {};
    }
  }

  lemma OneBack(k: Kernel, r: set<Ip>, op: Op, x: Ip)
    requires k.strict && Works(k, r, op, x) && !k.refuses(Invert(op), x)
    ensures Tried(k, One(r, op, x), Invert(op), x) == r
  {
    assert One(One(r, op, x), Invert(op), x) == r;
  }

  lemma UndoneStep(k: Kernel, cur: set<Ip>, before: set<Ip>, op: Op, xs: seq<Ip>, n: nat)
    requires 0 < n <= |xs| && Tried(k, cur, Invert(op), xs[n - 1]) == before
    ensures Undone(k, cur, op, xs, n) == Undone(k, before, op, xs, n - 1)
  {
  }

  /** In a strict kernel each step is undone by its inverse. */
  lemma {:induction false} StrictRollback(k: Kernel, ips: set<Ip>, op: Op, xs: seq<Ip>, n: nat)
    requires n <= |xs| && k.strict && forall x <- xs :: !k.refuses(Invert(op), x)
    requires forall i {:trigger Reached(ips, op, xs, i)} :: 0 <= i < n ==> Works(k, Reached(ips, op, xs, i), op, xs[i])
    ensures Undone(k, Reached(ips, op, xs, n), op, xs, n) == ips
    decreases n
  {
    if n > 0 {
      var r, x := Reached(ips, op, xs, n - 1), xs[n - 1];
      StrictRollback(k, ips, op, xs, n - 1);
      OneBack(k, r, op, x);
      UndoneStep(k, Reached(ips, op, xs, n), r, op, xs, n);
    }
  }

  lemma StrictStepsChange(k: Kernel, ips: set<Ip>, op: Op, xs: seq<Ip>, i: nat)
    requires i < |xs| && k.strict && Works(k, Reached(ips, op, xs, i), op, xs[i])
    ensures op.Add? <==> xs[i] !in ips
  {
    ReachedIs(ips, op, xs, i);
  }

  /** A rollback whose own operations are not refused restores the set exactly when every
      address before the failure had to be added, or deleted, at the outset. */
  lemma RollbackExactly(k: Kernel, ips: set<Ip>, op: Op, xs: seq<Ip>)
    requires forall x <- xs :: !k.refuses(Invert(op), x)
    ensures var n := FirstFailure(k, ips, op, xs, 0);
      n < |xs| ==>
      (Outcome(k, ips, op, xs, true) == ips <==> forall i :: 0 <= i < n ==> (op.Add? <==> xs[i] !in ips))
    ensures k.strict && FirstFailure(k, ips, op, xs, 0) < |xs| ==> Outcome(k, ips, op, xs, true) == ips
  {
    var n := FirstFailure(k, ips, op, xs, 0);
    if k.strict {
      StrictRollback(k, ips, op, xs, n);
      forall i | 0 <= i < n ensures op.Add? <==> xs[i] !in ips {
        StrictStepsChange(k, ips, op, xs, i);
      }
    } else {
      ReachedIs(ips, op, xs, n);
      UndoneIs(k, Reached(ips, op, xs, n), op, xs, n);
      assert forall i :: 0 <= i < n ==> xs[i] == xs[..n][i] && xs[i] in SetOf(xs[..n]);
      assert forall x <- SetOf(xs[..n]) :: exists i :: 0 <= i < n && xs[i] == x;
    }
  }

  predicate NoDups(xs: seq<Ip>) {
    forall i, j :: 0 <= i < j < |xs| ==> xs[i] != xs[j]
  }

  /** Where nothing is refused and a strict kernel has no reason to, the whole list is done. */
  lemma AllDone(k: Kernel, ips: set<Ip>, op: Op, xs: seq<Ip>, rollback: bool)
    requires (forall x <- xs :: !k.refuses(op, x)) && (k.strict ==> NoDups(xs))
    requires forall x <- xs :: op.Add? <==> x !in ips
    ensures FirstFailure(k, ips, op, xs, 0) == |xs|
    ensures Outcome(k, ips, op, xs, rollback) == if op.Add? then ips + SetOf(xs) else ips - SetOf(xs)
  {
    forall i | 0 <= i < |xs|
      ensures Works(k, Reached(ips, op, xs, i), op, xs[i])
    {
      ReachedIs(ips, op, xs, i);
      assert xs[i] in xs;
      assert k.strict ==> xs[i] !in xs[..i];
    }
    ReachedIs(ips, op, xs, |xs|);
    assert xs[..|xs|] == xs;
  }

  // ---------------------------------------------------------------------
  // The agreement of kernel and saved list.
  // ---------------------------------------------------------------------

  /** Those of the first k elements of xs that are in ys, or those that are not. */
  function OnlyTo(xs: seq<Ip>, ys: seq<Ip>, present: bool, k: nat): seq<Ip>
    requires k <= |xs|
  {
    if k == 0 then []
    else if (xs[k - 1] in ys) == present then OnlyTo(xs, ys, present, k - 1) + [xs[k - 1]]
    else OnlyTo(xs, ys, present, k - 1)
  }

  function Only(xs: seq<Ip>, ys: seq<Ip>, present: bool): seq<Ip> {
    OnlyTo(xs, ys, present, |xs|)
  }

  lemma {:induction false} OnlyToIs(xs: seq<Ip>, ys: seq<Ip>, present: bool, k: nat)
    requires k <= |xs|
    ensures forall x :: x in OnlyTo(xs, ys, present, k) <==> x in xs[..k] && (x in ys) == present
    ensures NoDups(xs) ==> NoDups(OnlyTo(xs, ys, present, k))
  {
    if k > 0 {
      OnlyToIs(xs, ys, present, k - 1);
      assert xs[..k] == xs[..k - 1] + [xs[k - 1]];
    }
  }

  lemma OnlyIs(xs: seq<Ip>, ys: seq<Ip>, present: bool)
    ensures forall x :: x in Only(xs, ys, present) <==> x in xs && (x in ys) == present
    ensures NoDups(xs) ==> NoDups(Only(xs, ys, present))
  {
    OnlyToIs(xs, ys, present, |xs|);
    assert xs[..|xs|] == xs;
  }

  /** The list with those of the first k addresses of add that go to it, each at most once. */
  function JoinedTo(list: seq<Ip>, add: seq<Ip>, del: seq<Ip>, k: nat): seq<Ip>
    requires k <= |add|
  {
    if k == 0 then list
    else
      var before, x := JoinedTo(list, add, del, k - 1), add[k - 1];
      if x == NO_IP || x in del || x in before then before else before + [x]
  }

  lemma {:induction false} JoinedToIs(list: seq<Ip>, add: seq<Ip>, del: seq<Ip>, k: nat)
    requires k <= |add|
    ensures forall x :: x in JoinedTo(list, add, del, k) <==>
      x in list || (x in add[..k] && x != NO_IP && x !in del)
    ensures NoDups(list) ==> NoDups(JoinedTo(list, add, del, k))
  {
    if k > 0 {
      JoinedToIs(list, add, del, k - 1);
      assert add[..k] == add[..k - 1] + [add[k - 1]];
    }
  }

  /** What ips2str leaves out of the old list. */
  function Gone(add: seq<Ip>, del: seq<Ip>): seq<Ip> {
    [NO_IP] + add + del
  }

  function Kept(saved: seq<Ip>, add: seq<Ip>, del: seq<Ip>, delall: bool): seq<Ip> {
    if delall then [] else Only(saved, Gone(add, del), false)
  }

  /** What ips2str makes of the list saved before. */
  function Saved(saved: seq<Ip>, add: seq<Ip>, del: seq<Ip>, delall: bool): seq<Ip> {
    JoinedTo(Kept(saved, add, del, delall), add, del, |add|)
  }

  lemma SavedIs(saved: seq<Ip>, add: seq<Ip>, del: seq<Ip>, delall: bool)
    ensures forall x :: x in Saved(saved, add, del, delall) <==>
      (!delall && x in saved && x != NO_IP && x !in add && x !in del) || (x in add && x != NO_IP && x !in del)
    ensures NoDups(saved) ==> NoDups(Saved(saved, add, del, delall))
  {
    var out := Gone(add, del);
    OnlyIs(saved, out, false);
    assert forall x :: x in out <==> x == NO_IP || x in add || x in del;
    JoinedToIs(Kept(saved, add, del, delall), add, del, |add|);
    assert add[..|add|] == add;
  }

  predicate IsIp6(ip: Ip) {
    ':' in ip.text
  }

  function WithoutIp6(xs: seq<Ip>): seq<Ip> {
    if |xs| == 0 then [] else (if IsIp6(xs[0]) then [] else [xs[0]]) + WithoutIp6(xs[1..])
  }

  function Usable(add: seq<Ip>, ipv6: bool): seq<Ip> {
    if ipv6 then add else WithoutIp6(add)
  }

  /** Nothing is asked for. */
  predicate Idle(add: seq<Ip>, del: seq<Ip>, delall: bool) {
    |add| == 0 && |del| == 0 && !delall
  }

  /** What the kernel has after apply_venet_param, where no call fails. */
  function KernelAfter(ips: set<Ip>, add: seq<Ip>, del: seq<Ip>, delall: bool, starting: bool, ipv6: bool): set<Ip> {
    if Idle(add, del, delall) then ips
    else (if delall || starting then {} else ips - SetOf(del)) + SetOf(Usable(add, ipv6))
  }

  /** What is saved afterwards: nothing new where the lists that are left ask for nothing. */
  function SavedAfter(saved: seq<Ip>, add: seq<Ip>, del: seq<Ip>, delall: bool): seq<Ip> {
    if Idle(add, del, delall) then saved else Saved(saved, add, del, delall)
  }

  /** Nothing is asked for; or what is asked for are addresses IPv6 is off for, and no old address is
      lost to a start; or nothing is both added and deleted, NO_IP is not added, and either everything
      was to be replaced, or the old addresses are what the kernel keeps. */
  predicate Agree(saved: seq<Ip>, add: seq<Ip>, del: seq<Ip>, delall: bool, starting: bool, ipv6: bool) {
    var add' := Usable(add, ipv6);
    if Idle(add, del, delall) then true
    else if Idle(add', del, delall) then starting ==> |saved| == 0
    else
      && (forall x <- add' :: x !in del && x != NO_IP)
      && (delall || if starting then forall x <- saved :: x in add' || x in del || x == NO_IP
          else NO_IP !in saved || NO_IP in del)
  }

  lemma AskedAgreeExactly(saved: seq<Ip>, add: seq<Ip>, del: seq<Ip>, delall: bool, starting: bool)
    requires !Idle(add, del, delall)
    ensures KernelAfter(SetOf(saved), add, del, delall, starting, true) == SetOf(Saved(saved, add, del, delall)) <==>
      Agree(saved, add, del, delall, starting, true)
  {
    var k, s := KernelAfter(SetOf(saved), add, del, delall, starting, true), SetOf(Saved(saved, add, del, delall));
    SavedIs(saved, add, del, delall);
    if k == s {
      forall x | x in add ensures x !in del && x != NO_IP {
        assert x in k;
      }
      forall x | !delall && starting && x in saved ensures x in add || x in del || x == NO_IP {
        assert x in k <==> x in s;
      }
      assert NO_IP in k <==> NO_IP in s;
    }
  }

  /** Kernel and saved list, if they agreed before, agree afterwards exactly then. */
  lemma AgreeExactly(saved: seq<Ip>, add: seq<Ip>, del: seq<Ip>, delall: bool, starting: bool, ipv6: bool)
    ensures var k := KernelAfter(SetOf(saved), add, del, delall, starting, ipv6);
      k == SetOf(SavedAfter(saved, Usable(add, ipv6), del, delall)) <==>
      Agree(saved, add, del, delall, starting, ipv6)
  {
    var add' := Usable(add, ipv6);
    if !Idle(add, del, delall) {
      if Idle(add', del, delall) {
        assert SetOf(add') == SetOf(del) == {};
        assert |saved| > 0 ==> saved[0] in SetOf(saved);
      } else {
        assert Usable(add', true) == add';
        AskedAgreeExactly(saved, add', del, delall, starting);
        assert Agree(saved, add', del, delall, starting, true) == Agree(saved, add, del, delall, starting, ipv6);
      }
    }
  }

  // ---------------------------------------------------------------------
  // The lists.
  // ---------------------------------------------------------------------

  type Node = ListElem<IpParam>

  /** A list head, and what hangs from it. */
  datatype IpList = IpList(head: Node, ghost elems: seq<Node>, ghost params: seq<IpParam>, ghost ips: seq<Ip>,
                           ghost nodes: set<Node>)
  {
    ghost predicate Valid()
      reads nodes
    {
      && head in nodes && (forall x <- elems :: x in nodes)
      && Ring(head, elems)
      && |elems| == |params| == |ips|
      && forall i :: 0 <= i < |elems| ==> elems[i].entry == params[i] && params[i].ip == ips[i]
    }

    /** An iteration stands at this element, k elements being behind it. */
    ghost predicate Stands(it: ListElem?<IpParam>, k: nat)
      reads nodes
    {
      Valid() && k <= |ips| && it == Cursor(head, elems, k) && (it != head <==> k < |ips|)
    }

    lemma Starts()
      requires Valid()
      ensures Stands(head.next, 0)
    {
    }

    lemma Steps(it: Node, k: nat)
      requires Stands(it, k) && k < |ips|
      ensures it.entry == params[k] && it.entry.ip == ips[k] && Stands(it.next, k + 1)
    {
    }

    /** find_ip */
    method FindIp(ip: Ip) returns (found: bool)
      requires Valid()
      ensures found <==> ip in ips
    {
      var it: ListElem?<IpParam> := head.next;
      ghost var k: nat := 0;
      while it != head
        invariant Stands(it, k) && forall i :: 0 <= i < k ==> ips[i] != ip
        decreases |ips| - k
      {
        Steps(it, k);
        if it.entry.ip == ip {
          return true;
        }
        it := it.next;
        k := k + 1;
      }
      return false;
    }

    /** add_ip_param: a copy goes to the end. */
    method AddIpParam(p: IpParam) returns (list: IpList)
      requires Valid()
      modifies nodes
      ensures list.Valid() && list.head == head && list.params == params + [p] && list.ips == ips + [p.ip]
      ensures forall n :: n in list.nodes ==> n in nodes || fresh(n)
    {
      var el := new ListElem<IpParam>(p);
      assert |elems| > 0 ==> elems[|elems| - 1] in elems;
      AddTail(el, head, elems);
      list := IpList(head, elems + [el], params + [p], ips + [p.ip], nodes + {el});
    }

    method Entries() returns (out: seq<IpParam>)
      requires Valid()
      ensures out == params
    {
      out := [];
      var it: ListElem?<IpParam> := head.next;
      while it != head
        invariant |out| <= |params| && Stands(it, |out|) && out == params[..|out|]
        decreases |params| - |out|
      {
        Steps(it, |out|);
        out := out + [it.entry];
        it := it.next;
      }
    }
  }

  method NewList() returns (list: IpList)
    ensures list.Valid() && |list.params| == |list.ips| == 0 && list.ips == [] && fresh(list.nodes)
  {
    var head := new ListElem<IpParam>(IpParam(NO_IP, Str("")));
    HeadInit(head);
    list := IpList(head, [], [], [], {head});
  }

  /** Goes on to the next element, copying this one where it is to be taken. */
  method CopyIf(take: bool, src: IpList, it: Node, list: IpList, ghost k: nat) returns (next: Node, list': IpList)
    requires src.Stands(it, k) && k < |src.ips| && list.Valid() && list.nodes !! src.nodes
    modifies list.nodes
    ensures src.Stands(next, k + 1) && list'.Valid()
    ensures forall n :: n in list'.nodes ==> n in list.nodes || fresh(n)
    ensures list'.ips == if take then list.ips + [src.ips[k]] else list.ips
    ensures From(list'.params, list.params, src.params)
  {
    src.Steps(it, k);
    list' := list;
    if take {
      list' := list.AddIpParam(it.entry);
    }
    next := it.next;
  }

  /** One round of the selection. */
  method SelectOne(src: IpList, it: Node, other: IpList, present: bool, list: IpList, ghost k: nat)
      returns (next: Node, list': IpList)
    requires src.Stands(it, k) && k < |src.ips| && other.Valid()
    requires list.Valid() && list.nodes !! src.nodes && list.nodes !! other.nodes
    requires list.ips == OnlyTo(src.ips, other.ips, present, k)
    modifies list.nodes
    ensures src.Stands(next, k + 1) && other.Valid() && list'.Valid()
    ensures forall n :: n in list'.nodes ==> n in list.nodes || fresh(n)
    ensures list'.ips == OnlyTo(src.ips, other.ips, present, k + 1)
  {
    src.Steps(it, k);
    var found := other.FindIp(it.entry.ip);
    next, list' := CopyIf(found == present, src, it, list, k);
  }

  /** The elements of one list that are in another one, or those that are not. */
  method Select(src: IpList, other: IpList, present: bool) returns (list: IpList)
    requires src.Valid() && other.Valid()
    ensures list.Valid() && fresh(list.nodes) && list.ips == Only(src.ips, other.ips, present)
  {
    list := NewList();
    src.Starts();
    var it: Node := src.head.next;
    ghost var k: nat := 0;
    while it != src.head
      invariant src.Stands(it, k) && other.Valid()
      invariant list.Valid() && fresh(list.nodes) && list.ips == OnlyTo(src.ips, other.ips, present, k)
      decreases |src.ips| - k
    {
      it, list := SelectOne(src, it, other, present, list, k);
      k := k + 1;
    }
  }

  lemma FirstFailureIs(k: Kernel, ips: set<Ip>, op: Op, xs: seq<Ip>, n: nat)
    requires n <= |xs| && (n < |xs| ==> !Works(k, Reached(ips, op, xs, n), op, xs[n]))
    requires forall i {:trigger Reached(ips, op, xs, i)} :: 0 <= i < n ==> Works(k, Reached(ips, op, xs, i), op, xs[i])
    ensures FirstFailure(k, ips, op, xs, 0) == n
  {
    var m := FirstFailure(k, ips, op, xs, 0);
    var atFailure, atEnd := Reached(ips, op, xs, m), Reached(ips, op, xs, n);
  }

  /** The rollback of env_ip_ctl, from the operation that failed back to the first one. */
  method RollBack(k: Kernel, op: Op, pos: Node, list: IpList, ghost n: nat)
    requires list.Stands(pos, n) && n < |list.ips|
    modifies k`ips
    ensures k.ips == Undone(k, old(k.ips), op, list.ips, n)
  {
    var it := pos.prev;
    ghost var m: nat := n;
    while it != list.head
      invariant m <= n && list.Valid() && it == Cursor(list.head, list.elems, m - 1)
      invariant Undone(k, k.ips, op, list.ips, m) == Undone(k, old(k.ips), op, list.ips, n)
      decreases m
    {
      var _ := k.Perform(Invert(op), it.entry.ip);
      it := it.prev;
      m := m - 1;
    }
  }

  method EnvIpCtl(k: Kernel, op: Op, list: IpList, rollback: bool) returns (ok: bool)
    requires list.Valid()
    modifies k`ips
    ensures ok <==> FirstFailure(k, old(k.ips), op, list.ips, 0) == |list.ips|
    ensures k.ips == Outcome(k, old(k.ips), op, list.ips, rollback)
  {
    var it: ListElem?<IpParam> := list.head.next;
    ok := true;
    ghost var n: nat := 0;
    ghost var ips, xs := k.ips, list.ips;
    while it != list.head && ok
      invariant list.Stands(it, n) && (!ok ==> n < |xs|)
      invariant k.ips == Reached(ips, op, xs, n)
      invariant forall i {:trigger Reached(ips, op, xs, i)} :: 0 <= i < n ==>
        Works(k, Reached(ips, op, xs, i), op, xs[i])
      invariant !ok ==> !Works(k, Reached(ips, op, xs, n), op, xs[n])
      decreases |xs| - n, ok
    {
      list.Steps(it, n);
      ok := k.Perform(op, it.entry.ip);
      if ok {
        it := it.next;
        n := n + 1;
      }
    }
    FirstFailureIs(k, ips, op, xs, n);
    if !ok && rollback {
      RollBack(k, op, it, list, n);
    }
  }

  // ---------------------------------------------------------------------
  // Applying the parameters of a running container.
  // ---------------------------------------------------------------------

  lemma OneMoreListed(ips: set<Ip>, rest: set<Ip>, xs: seq<Ip>, x: Ip)
    requires x in rest && rest <= ips && SetOf(xs) == ips - rest && NoDups(xs)
    ensures SetOf(xs + [x]) == ips - (rest - {x}) && NoDups(xs + [x])
  {
    assert x !in SetOf(xs);
    assert SetOf(xs + [x]) == SetOf(xs) + {x};
  }

  /** vzctl_get_env_ip: what the kernel has, in no particular order. */
  method GetEnvIp(k: Kernel) returns (list: IpList)
    ensures list.Valid() && fresh(list.nodes) && SetOf(list.ips) == k.ips && NoDups(list.ips)
  {
    list := NewList();
    var rest := k.ips;
    while rest != {}
      invariant list.Valid() && fresh(list.nodes)
      invariant rest <= k.ips && SetOf(list.ips) == k.ips - rest && NoDups(list.ips)
      decreases |rest|
    {
      var x :| x in rest;
      OneMoreListed(k.ips, rest, list.ips, x);
      list := list.AddIpParam(IpParam(x, Str("")));
      rest := rest - {x};
    }
  }

  lemma SelectedSet(xs: seq<Ip>, ys: seq<Ip>, present: bool)
    ensures SetOf(Only(xs, ys, present)) == if present then SetOf(xs) * SetOf(ys) else SetOf(xs) - SetOf(ys)
    ensures NoDups(xs) ==> NoDups(Only(xs, ys, present))
  {
    OnlyIs(xs, ys, present);
  }

  /** del_ip: whether the kernel went along makes no difference to the caller. */
  method DelIp(k: Kernel, ipDel: IpList, delall: bool, starting: bool) returns (ghost zs: seq<Ip>)
    requires ipDel.Valid()
    modifies k`ips
    ensures k.ips == Outcome(k, old(k.ips), Del, zs, true)
    ensures SetOf(zs) == (if delall || starting then old(k.ips) else SetOf(ipDel.ips) * old(k.ips))
    ensures delall || starting || NoDups(ipDel.ips) ==> NoDups(zs)
  {
    zs := [];
    if ipDel.head.next == ipDel.head && !(delall || starting) {
      return;
    }
    var run := GetEnvIp(k);
    var ip := if delall || starting then run else ipDel;
    SelectedSet(ip.ips, run.ips, true);
    if ip.head.next == ip.head {
      return;
    }
    var list := Select(ip, run, true);
    zs := list.ips;
    var _ := EnvIpCtl(k, Del, list, true);
  }

  /** Node and container are set up for the addresses zs; for none, only the container is, on delall. */
  predicate SetUp(zs: seq<Ip>, delall: bool, nodeOk: bool) {
    nodeOk || (|zs| == 0 && !delall)
  }

  /** What add_ip leaves in the kernel, zs being the addresses of add that were not assigned yet. */
  function AfterAdd(k: Kernel, ips: set<Ip>, zs: seq<Ip>, add: seq<Ip>, delall: bool, nodeOk: bool): set<Ip> {
    var added := Outcome(k, ips, Add, zs, true);
    if |add| == 0 || SetUp(zs, delall, nodeOk) || FirstFailure(k, ips, Add, zs, 0) < |zs| then added
    else Outcome(k, added, Del, add, false)
  }

  predicate AddWorks(k: Kernel, ips: set<Ip>, zs: seq<Ip>, add: seq<Ip>, delall: bool, nodeOk: bool) {
    |add| == 0 || (SetUp(zs, delall, nodeOk) && FirstFailure(k, ips, Add, zs, 0) == |zs|)
  }

  /** add_ip; nodeOk says whether what is run on the node and in the container succeeds. */
  method AddIp(k: Kernel, ip: IpList, delall: bool, nodeOk: bool) returns (ok: bool, ghost zs: seq<Ip>)
    requires ip.Valid()
    modifies k`ips
    ensures SetOf(zs) == SetOf(ip.ips) - old(k.ips) && (NoDups(ip.ips) ==> NoDups(zs))
    ensures ok <==> AddWorks(k, old(k.ips), zs, ip.ips, delall, nodeOk)
    ensures k.ips == AfterAdd(k, old(k.ips), zs, ip.ips, delall, nodeOk)
  {
    zs := [];
    if ip.head.next == ip.head {
      return true, [];
    }
    var run := GetEnvIp(k);
    SelectedSet(ip.ips, run.ips, false);
    var list := Select(ip, run, false);
    zs := list.ips;
    ok := EnvIpCtl(k, Add, list, true);
    if ok && !nodeOk && (list.head.next != list.head || delall) {
      var _ := EnvIpCtl(k, Del, ip, false);
      ok := false;
    }
  }

  predicate IsIp6Param(p: IpParam) {
    IsIp6(p.ip)
  }

  function ParamsOf(s: seq<Node>): (ps: seq<IpParam>)
    ensures |ps| == |s| && forall i :: 0 <= i < |s| ==> ps[i] == s[i].entry
  {
    seq(|s|, i requires 0 <= i < |s| => s[i].entry)
  }

  lemma EntriesFrom(r: seq<Node>, s: seq<Node>, ps: seq<IpParam>)
    requires |s| == |ps| && (forall i :: 0 <= i < |s| ==> s[i].entry == ps[i]) && forall x <- r :: x in s
    ensures From(ParamsOf(r), ps, [])
  {
    forall p <- ParamsOf(r)
      ensures p in ps
    {
      var i :| 0 <= i < |r| && ParamsOf(r)[i] == p;
      assert r[i] in r;
      var j :| 0 <= j < |s| && s[j] == r[i];
      assert ps[j] == p;
    }
  }

  lemma {:induction false} KeptHolds(s: seq<Node>, xs: seq<Ip>)
    requires |s| == |xs| && forall i :: 0 <= i < |s| ==> s[i].entry.ip == xs[i]
    ensures var r, ys := CircularList.Kept(s, IsIp6Param), WithoutIp6(xs);
      |r| == |ys| && (forall i :: 0 <= i < |r| ==> r[i].entry.ip == ys[i]) && forall x <- r :: x in s
  {
    if |s| > 0 {
      KeptHolds(s[1..], xs[1..]);
    }
  }

  lemma {:induction false} WithoutIp6Is(xs: seq<Ip>)
    ensures forall x :: x in WithoutIp6(xs) <==> x in xs && !IsIp6(x)
    ensures NoDups(xs) ==> NoDups(WithoutIp6(xs))
  {
    if |xs| > 0 {
      WithoutIp6Is(xs[1..]);
      assert xs == [xs[0]] + xs[1..];
    }
  }

  /** Nothing the kernel may refuse is asked of it. */
  ghost predicate Willing(k: Kernel, add: seq<Ip>, del: seq<Ip>) {
    && (forall op, ip :: !k.refuses(op, ip))
    && (k.strict ==> NoDups(add) && NoDups(del))
  }

  lemma DelDone(k: Kernel, ips: set<Ip>, zs: seq<Ip>, del: seq<Ip>, all: bool)
    requires (forall op, ip :: !k.refuses(op, ip)) && (k.strict ==> NoDups(zs))
    requires SetOf(zs) == if all then ips else SetOf(del) * ips
    ensures Outcome(k, ips, Del, zs, true) == if all then {} else ips - SetOf(del)
  {
    forall x | x in zs ensures x in ips {
      assert x in SetOf(zs);
    }
    AllDone(k, ips, Del, zs, true);
  }

  lemma AddDone(k: Kernel, ips: set<Ip>, zs: seq<Ip>, add: seq<Ip>)
    requires (forall op, ip :: !k.refuses(op, ip)) && (k.strict ==> NoDups(zs))
    requires SetOf(zs) == SetOf(add) - ips
    ensures FirstFailure(k, ips, Add, zs, 0) == |zs|
    ensures Outcome(k, ips, Add, zs, true) == ips + SetOf(add)
  {
    forall x | x in zs ensures x !in ips {
      assert x in SetOf(zs);
    }
    AllDone(k, ips, Add, zs, true);
  }

  /** If the node or the container cannot be set up, every address of the list is taken from the
      kernel: what was there before stays exactly when none of them had already been assigned, or
      when all of them had been, so that there was nothing to set up. */
  lemma NodeFailureExactly(k: Kernel, ips: set<Ip>, zs: seq<Ip>, add: seq<Ip>, delall: bool)
    requires Willing(k, add, []) && SetOf(zs) == SetOf(add) - ips && (NoDups(add) ==> NoDups(zs))
    ensures AfterAdd(k, ips, zs, add, delall, false) == ips <==>
      (forall x <- add :: x !in ips) || (!delall && forall x <- add :: x in ips)
  {
    AddDone(k, ips, zs, add);
    AllDone(k, ips + SetOf(add), Del, add, false);
    assert (ips + SetOf(add)) - SetOf(add) == ips - SetOf(add);
    assert |zs| > 0 ==> zs[0] in SetOf(zs);
    assert forall x <- add :: x in SetOf(add);
  }

  /** An address assigned before is lost with a new one that cannot be set up. */
  lemma NodeFailureLoses(k: Kernel)
    requires Willing(k, [], [])
    ensures var a, b := Str("10.0.0.1"), Str("10.0.0.2");
      a != b && AfterAdd(k, {a}, [b], [a, b], false, false) != {a}
  {
    var a, b := Str("10.0.0.1"), Str("10.0.0.2");
    assert a.text[7] != b.text[7];
    assert NoDups([a, b]) && NoDups([b]);
    assert SetOf([b]) == SetOf([a, b]) - {a};
    assert a in [a, b] && b in [a, b];
    NodeFailureExactly(k, {a}, [b], [a, b], false);
  }

  /** remove_ipv6_addr */
  method RemoveIp6(ip: IpList) returns (cnt: nat, ip': IpList)
    requires ip.Valid()
    modifies ip.nodes
    ensures ip'.Valid() && ip'.head == ip.head && ip'.nodes == ip.nodes && ip'.ips == WithoutIp6(ip.ips)
    ensures From(ip'.params, ip.params, [])
    ensures cnt == |ip.ips| - |ip'.ips|
  {
    KeptHolds(ip.elems, ip.ips);
    ghost var kept := CircularList.Kept(ip.elems, IsIp6Param);
    EntriesFrom(kept, ip.elems, ip.params);
    cnt := RemoveIf(ip.head, ip.elems, IsIp6Param);
    ip' := IpList(ip.head, kept, ParamsOf(kept), WithoutIp6(ip.ips), ip.nodes);
  }

  /** The addresses del_ip takes out, and those add_ip puts in, with what comes of it. */
  ghost predicate Applied(k: Kernel, before: set<Ip>, after: set<Ip>, ok: bool, add: seq<Ip>, del: seq<Ip>,
                          delall: bool, starting: bool, nodeOk: bool, zs: seq<Ip>, ws: seq<Ip>) {
    var mid := Outcome(k, before, Del, zs, true);
    && SetOf(zs) == (if delall || starting then before else SetOf(del) * before)
    && SetOf(ws) == SetOf(add) - mid
    && after == AfterAdd(k, mid, ws, add, delall, nodeOk)
    && (ok <==> AddWorks(k, mid, ws, add, delall, nodeOk))
  }

  /** del_ip, then add_ip. */
  method DelThenAdd(k: Kernel, ip: IpList, ipDel: IpList, delall: bool, starting: bool, nodeOk: bool)
      returns (ok: bool, ghost zs: seq<Ip>, ghost ws: seq<Ip>)
    requires ip.Valid() && ipDel.Valid()
    modifies k`ips
    ensures Applied(k, old(k.ips), k.ips, ok, ip.ips, ipDel.ips, delall, starting, nodeOk, zs, ws)
    ensures nodeOk && Willing(k, ip.ips, ipDel.ips) ==>
      ok && k.ips == (if delall || starting then {} else old(k.ips) - SetOf(ipDel.ips)) + SetOf(ip.ips)
  {
    ghost var ips := k.ips;
    zs := DelIp(k, ipDel, delall, starting);
    ghost var ips' := k.ips;
    ok, ws := AddIp(k, ip, delall, nodeOk);
    if nodeOk && Willing(k, ip.ips, ipDel.ips) {
      DelDone(k, ips, zs, ipDel.ips, delall || starting);
      AddDone(k, ips', ws, ip.ips);
    }
  }

  /** With IPv6 off, its addresses are not for this container. */
  method DropIp6(ip: IpList, ghost ipDel: IpList, ipv6: bool) returns (ip': IpList)
    requires ip.Valid() && ipDel.Valid() && ip.nodes !! ipDel.nodes
    modifies ip.nodes
    ensures ip'.Valid() && ip'.head == ip.head && ipDel.Valid()
    ensures From(ip'.params, ip.params, [])
    ensures ip'.ips == Usable(ip.ips, ipv6) && (NoDups(ip.ips) ==> NoDups(ip'.ips))
  {
    ip' := ip;
    if !ipv6 {
      var cnt;
      cnt, ip' := RemoveIp6(ip);
      WithoutIp6Is(ip.ips);
    }
  }

  /** apply_venet_param: with IPv6 off, its addresses first go from the caller's list. */
  method ApplyVenetParam(k: Kernel, ip: IpList, ipDel: IpList, delall: bool, running: bool, starting: bool,
                         ipv6: bool, nodeOk: bool)
      returns (ok: bool, ip': IpList, ghost zs: seq<Ip>, ghost ws: seq<Ip>)
    requires ip.Valid() && ipDel.Valid() && ip.nodes !! ipDel.nodes
    modifies k`ips, ip.nodes
    ensures ip'.Valid() && ip'.head == ip.head && ipDel.Valid() && From(ip'.params, ip.params, [])
    ensures var idle := Idle(ip.ips, ipDel.ips, delall);
      && (idle || !running ==> ip'.ips == ip.ips && k.ips == old(k.ips) && ok == idle)
      && (!idle && running ==>
        && ip'.ips == Usable(ip.ips, ipv6)
        && Applied(k, old(k.ips), k.ips, ok, ip'.ips, ipDel.ips, delall, starting, nodeOk, zs, ws))
    ensures running && nodeOk && Willing(k, ip.ips, ipDel.ips) ==>
      ok && k.ips == KernelAfter(old(k.ips), ip.ips, ipDel.ips, delall, starting, ipv6)
  {
    ip', zs, ws := ip, [], [];
    if ip.head.next == ip.head && ipDel.head.next == ipDel.head && !delall {
      ok := true;
      return;
    }
    if !running {
      ok := false;
      return;
    }
    ip' := DropIp6(ip, ipDel, ipv6);
    ok, zs, ws := DelThenAdd(k, ip', ipDel, delall, starting, nodeOk);
  }

  // ---------------------------------------------------------------------
  // The saved list.
  // ---------------------------------------------------------------------

  /** Whether ips2str leaves an old address out. */
  method LeftOut(x: Ip, ip: IpList, ipDel: IpList) returns (out: bool)
    requires ip.Valid() && ipDel.Valid()
    ensures out <==> x in Gone(ip.ips, ipDel.ips)
  {
    if x == NO_IP {
      return true;
    }
    var added := ip.FindIp(x);
    if added {
      return true;
    }
    out := ipDel.FindIp(x);
  }

  /** Each of these addresses was taken, with its mask, from one of the two lists. */
  ghost predicate From(ps: seq<IpParam>, old_: seq<IpParam>, new_: seq<IpParam>) {
    forall p <- ps :: p in old_ || p in new_
  }

  /** One address of the old list, kept unless it is added anew or deleted. */
  method KeepOne(old_: IpList, it: Node, ip: IpList, ipDel: IpList, list: IpList, ghost k: nat)
      returns (next: Node, list': IpList)
    requires old_.Stands(it, k) && k < |old_.ips| && ip.Valid() && ipDel.Valid() && list.Valid()
    requires list.nodes !! old_.nodes && list.nodes !! ip.nodes && list.nodes !! ipDel.nodes
    requires list.ips == OnlyTo(old_.ips, Gone(ip.ips, ipDel.ips), false, k) && From(list.params, old_.params, [])
    modifies list.nodes
    ensures old_.Stands(next, k + 1) && ip.Valid() && ipDel.Valid() && list'.Valid()
    ensures forall n :: n in list'.nodes ==> n in list.nodes || fresh(n)
    ensures list'.ips == OnlyTo(old_.ips, Gone(ip.ips, ipDel.ips), false, k + 1)
    ensures From(list'.params, old_.params, [])
  {
    old_.Steps(it, k);
    var skip := LeftOut(it.entry.ip, ip, ipDel);
    next, list' := CopyIf(!skip, old_, it, list, k);
  }

  /** The addresses of the old list, but for those added anew or deleted. */
  method KeepAll(old_: IpList, ip: IpList, ipDel: IpList, empty: IpList) returns (list: IpList)
    requires old_.Valid() && ip.Valid() && ipDel.Valid() && empty.Valid() && |empty.ips| == 0
    requires empty.nodes !! old_.nodes && empty.nodes !! ip.nodes && empty.nodes !! ipDel.nodes
    modifies empty.nodes
    ensures list.Valid()
    ensures forall n :: n in list.nodes ==> n in empty.nodes || fresh(n)
    ensures list.ips == OnlyTo(old_.ips, Gone(ip.ips, ipDel.ips), false, |old_.ips|)
    ensures From(list.params, old_.params, [])
  {
    list := empty;
    old_.Starts();
    var it: Node := old_.head.next;
    ghost var k: nat := 0;
    while it != old_.head
      invariant old_.Stands(it, k) && ip.Valid() && ipDel.Valid()
      invariant list.Valid()
      invariant forall n :: n in list.nodes ==> n in empty.nodes || fresh(n)
      invariant list.ips == OnlyTo(old_.ips, Gone(ip.ips, ipDel.ips), false, k) && From(list.params, old_.params, [])
      decreases |old_.ips| - k
    {
      it, list := KeepOne(old_, it, ip, ipDel, list, k);
      k := k + 1;
    }
  }

  method KeepOld(old_: IpList, ip: IpList, ipDel: IpList, delall: bool) returns (list: IpList)
    requires old_.Valid() && ip.Valid() && ipDel.Valid()
    ensures list.Valid() && fresh(list.nodes) && list.ips == Kept(old_.ips, ip.ips, ipDel.ips, delall)
    ensures From(list.params, old_.params, [])
  {
    list := NewList();
    if !delall {
      list := KeepAll(old_, ip, ipDel, list);
    }
  }

  /** Whether ips2str adds a new address. */
  method ToBeJoined(x: Ip, ipDel: IpList, list: IpList) returns (joins: bool)
    requires ipDel.Valid() && list.Valid()
    ensures joins <==> x != NO_IP && x !in ipDel.ips && x !in list.ips
  {
    if x == NO_IP {
      return false;
    }
    var deleted := ipDel.FindIp(x);
    if deleted {
      return false;
    }
    var there := list.FindIp(x);
    return !there;
  }

  /** One address of the new list, unless it is deleted or there already. */
  method JoinOne(ip: IpList, it: Node, ipDel: IpList, list: IpList, ghost kept: seq<Ip>, ghost k: nat)
      returns (next: Node, list': IpList)
    requires ip.Stands(it, k) && k < |ip.ips| && ipDel.Valid() && list.Valid()
    requires list.nodes !! ip.nodes && list.nodes !! ipDel.nodes && list.ips == JoinedTo(kept, ip.ips, ipDel.ips, k)
    modifies list.nodes
    ensures ip.Stands(next, k + 1) && ipDel.Valid() && list'.Valid()
    ensures forall n :: n in list'.nodes ==> n in list.nodes || fresh(n)
    ensures list'.ips == JoinedTo(kept, ip.ips, ipDel.ips, k + 1)
    ensures From(list'.params, list.params, ip.params)
  {
    ip.Steps(it, k);
    var joins := ToBeJoined(it.entry.ip, ipDel, list);
    next, list' := CopyIf(joins, ip, it, list, k);
  }

  /** The new addresses behind those kept. */
  method JoinNew(ip: IpList, ipDel: IpList, kept: IpList) returns (list: IpList)
    requires ip.Valid() && ipDel.Valid() && kept.Valid() && kept.nodes !! ip.nodes && kept.nodes !! ipDel.nodes
    modifies kept.nodes
    ensures list.Valid() && list.ips == JoinedTo(kept.ips, ip.ips, ipDel.ips, |ip.ips|)
    ensures From(list.params, kept.params, ip.params)
  {
    list := kept;
    ip.Starts();
    var it: Node := ip.head.next;
    ghost var k: nat := 0;
    while it != ip.head
      invariant ip.Stands(it, k) && ipDel.Valid()
      invariant list.Valid()
      invariant forall n :: n in list.nodes ==> n in kept.nodes || fresh(n)
      invariant list.ips == JoinedTo(kept.ips, ip.ips, ipDel.ips, k) && From(list.params, kept.params, ip.params)
      decreases |ip.ips| - k
    {
      it, list := JoinOne(ip, it, ipDel, list, kept.ips, k);
      k := k + 1;
    }
  }

  /** The addresses of these are those. */
  ghost predicate Names(ps: seq<IpParam>, xs: seq<Ip>) {
    |ps| == |xs| && forall i :: 0 <= i < |ps| ==> ps[i].ip == xs[i]
  }

  /** The buffer holds the text of these, of which only the last blank may be missing. */
  ghost predicate Prints(buf: array<char>, ps: seq<IpParam>)
    reads buf
  {
    if |ps| == 0 then buf.Length == 1 && buf[0] == '\0'
    else
      && 1 <= |TextTo(ps, |ps|)| + 1 <= buf.Length && buf.Length > 1
      && Holds(buf, buf.Length - 1, TextTo(ps, |ps|))
  }

  /** What is saved has the mask of the new list where the address is in it, and else of the old one. */
  lemma SavedFrom(ps: seq<IpParam>, kept: seq<IpParam>, old_: seq<IpParam>, new_: seq<IpParam>, xs: seq<Ip>,
                  gone: seq<Ip>)
    requires From(ps, kept, new_) && From(kept, old_, []) && Names(new_, xs)
    requires forall p <- kept :: p.ip !in xs
    ensures forall p <- ps :: if p.ip in xs then p in new_ else p in old_
  {
    forall p <- ps
      ensures if p.ip in xs then p in new_ else p in old_
    {
      if p in new_ {
        var i :| 0 <= i < |new_| && new_[i] == p;
        assert xs[i] == p.ip;
      }
    }
  }

  lemma KeptIsNotAdded(ps: seq<IpParam>, saved: seq<Ip>, add: seq<Ip>, del: seq<Ip>, delall: bool)
    requires Names(ps, Kept(saved, add, del, delall))
    ensures forall p <- ps :: p.ip !in add
  {
    OnlyIs(saved, Gone(add, del), false);
    assert forall x <- add :: x in Gone(add, del);
    forall p <- ps
      ensures p.ip !in add
    {
      var i :| 0 <= i < |ps| && ps[i] == p;
      assert p.ip in Kept(saved, add, del, delall);
    }
  }

  /** ips2str: the text of the addresses to be saved, in order, each with its mask. */
  method Ips2Str(old_: IpList, ip: IpList, ipDel: IpList, delall: bool)
      returns (buf: array<char>, ghost ps: seq<IpParam>)
    requires old_.Valid() && ip.Valid() && ipDel.Valid() && AllProper(old_.params) && AllProper(ip.params)
    ensures Names(ps, Saved(old_.ips, ip.ips, ipDel.ips, delall))
    ensures forall p <- ps :: if p.ip in ip.ips then p in ip.params else p in old_.params
    ensures fresh(buf) && Prints(buf, ps)
  {
    var kept := KeepOld(old_, ip, ipDel, delall);
    KeptIsNotAdded(kept.params, old_.ips, ip.ips, ipDel.ips, delall);
    var list := JoinNew(ip, ipDel, kept);
    SavedFrom(list.params, kept.params, old_.params, ip.params, ip.ips, Gone(ip.ips, ipDel.ips));
    ps := list.params;
    buf := PrintList(list);
  }

  method PrintList(list: IpList) returns (buf: array<char>)
    requires list.Valid() && AllProper(list.params)
    ensures fresh(buf) && Prints(buf, list.params)
  {
    var params := list.Entries();
    if |params| == 0 {
      buf := new char[1](_ => '\0');
    } else {
      buf := PrintIps(params);
    }
  }

  /** Where the address parameter is converted for saving: without a request there is no text, and the
      old list stays. */
  method SavedIps(old_: IpList, ip: IpList, ipDel: IpList, delall: bool)
      returns (out: Option<array<char>>, ghost ps: seq<IpParam>)
    requires old_.Valid() && ip.Valid() && ipDel.Valid() && AllProper(old_.params) && AllProper(ip.params)
    ensures Names(ps, SavedAfter(old_.ips, ip.ips, ipDel.ips, delall))
    ensures out.None? ==> ps == old_.params
    ensures out.Some? ==> Prints(out.value, ps)
  {
    if ip.head.next == ip.head && ipDel.head.next == ipDel.head && !delall {
      return None, old_.params;
    }
    var buf;
    buf, ps := Ips2Str(old_, ip, ipDel, delall);
    out := Some(buf);
  }

  /** Applying and then saving what is left of the request: where nothing is refused, and kernel and
      saved list agreed before, they agree afterwards exactly under that condition. */
  method ApplyAndSave(k: Kernel, old_: IpList, ip: IpList, ipDel: IpList, delall: bool, starting: bool, ipv6: bool,
                      nodeOk: bool) returns (ok: bool, out: Option<array<char>>, ghost ps: seq<IpParam>)
    requires old_.Valid() && ip.Valid() && ipDel.Valid() && ip.nodes !! ipDel.nodes && ip.nodes !! old_.nodes
    requires AllProper(old_.params) && AllProper(ip.params)
    modifies k`ips, ip.nodes
    ensures if out.None? then ps == old_.params else Prints(out.value, ps)
    ensures nodeOk && Willing(k, ip.ips, ipDel.ips) ==>
      && ok && k.ips == KernelAfter(old(k.ips), ip.ips, ipDel.ips, delall, starting, ipv6)
      && Names(ps, SavedAfter(old_.ips, Usable(ip.ips, ipv6), ipDel.ips, delall))
      && (SetOf(old_.ips) == old(k.ips) ==>
        (k.ips == SetOf(SavedAfter(old_.ips, Usable(ip.ips, ipv6), ipDel.ips, delall)) <==>
          Agree(old_.ips, ip.ips, ipDel.ips, delall, starting, ipv6)))
  {
    var ip';
    ghost var zs, ws;
    ok, ip', zs, ws := ApplyVenetParam(k, ip, ipDel, delall, true, starting, ipv6, nodeOk);
    out, ps := None, old_.params;
    if ok {
      out, ps := SavedIps(old_, ip', ipDel, delall);
    }
    AgreeExactly(old_.ips, ip.ips, ipDel.ips, delall, starting, ipv6);
  }
}
