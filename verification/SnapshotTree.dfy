/** The snapshot tree of lib/snapshot.c: an array of entries linked by guid. */
module SnapshotTree {
  import opened Common

  const EMPTY := Str("")

  /** The value of one entry. "room" is the length its parent_guid buffer was
      allocated for; the buffer is later overwritten in place. */
  datatype Snap = Snap(guid: Str, parent: Str, room: nat, current: bool, name: Str, date: Str, desc: Str)

  type Forest = seq<Snap>

  // ---------------------------------------------------------------------
  // The operations on values.
  // ---------------------------------------------------------------------

  /** The first entry from k on with this guid, or -1. */
  function IndexFrom(v: Forest, guid: Str, k: nat): (i: int)
    requires k <= |v|
    ensures i == -1 || (k <= i < |v| && v[i].guid == guid)
    ensures forall j :: k <= j < (if i < 0 then |v| else i) ==> v[j].guid != guid
    decreases |v| - k
  {
    if k == |v| then -1
    else if v[k].guid == guid then k
    else IndexFrom(v, guid, k + 1)
  }

  function IndexOf(v: Forest, guid: Str): (i: int)
    ensures i == -1 || (0 <= i < |v| && v[i].guid == guid)
    ensures forall j :: 0 <= j < (if i < 0 then |v| else i) ==> v[j].guid != guid
  {
    IndexFrom(v, guid, 0)
  }

  function CurrentFrom(v: Forest, k: nat): (i: int)
    requires k <= |v|
    ensures i == -1 || (k <= i < |v| && v[i].current)
    ensures forall j :: k <= j < (if i < 0 then |v| else i) ==> !v[j].current
    decreases |v| - k
  {
    if k == |v| then -1
    else if v[k].current then k
    else CurrentFrom(v, k + 1)
  }

  function CurrentIndex(v: Forest): (i: int)
    ensures i == -1 || (0 <= i < |v| && v[i].current)
    ensures forall j :: 0 <= j < (if i < 0 then |v| else i) ==> !v[j].current
  {
    CurrentFrom(v, 0)
  }

  /** The entry at i while "x" is being deleted. */
  function Reparented(s: Snap, x: Snap): Snap {
    var t := if x.current && s.guid == x.parent then s.(current := true) else s;
    if s.parent == x.guid then t.(parent := x.parent) else t
  }

  function Deleted(v: Forest, guid: Str): Forest {
    var id := IndexOf(v, guid);
    if id < 0 then v
    else
      seq(|v| - 1, k requires 0 <= k < |v| - 1 => Reparented(v[Was(id, k)], v[id]))
  }

  function Marked(v: Forest, guid: Str): Forest {
    seq(|v|, i requires 0 <= i < |v| => v[i].(current := v[i].guid == guid))
  }

  function Cleared(v: Forest): Forest {
    seq(|v|, i requires 0 <= i < |v| => v[i].(current := false))
  }

  function Added(v: Forest, current: bool, guid: Str, parent: Str, name: Str, date: Str, desc: Str): Forest {
    if IndexOf(v, guid) >= 0 then v
    else (if current then Cleared(v) else v) + [Snap(guid, parent, |parent.text|, current, name, date, desc)]
  }

  function CurrentGuid(v: Forest): Str {
    var i := CurrentIndex(v);
    if i < 0 then EMPTY else v[i].guid
  }

  // ---------------------------------------------------------------------
  // Ancestry.
  // ---------------------------------------------------------------------

  ghost predicate Unique(v: Forest) {
    forall i, j :: 0 <= i < j < |v| ==> v[i].guid != v[j].guid
  }

  function Has(v: Forest, guid: Str): bool {
    IndexOf(v, guid) >= 0
  }

  predicate Linked(v: Forest, c: Str) {
    Has(v, c) && Has(v, v[IndexOf(v, c)].parent)
  }

  /** Which entry is linked to which other one. */
  function Links(v: Forest): map<Str, Str> {
    map s <- v | Linked(v, s.guid) :: s.guid := v[IndexOf(v, s.guid)].parent
  }

  lemma LinksAt(v: Forest, c: Str)
    ensures c in Links(v) <==> Linked(v, c)
    ensures c in Links(v) ==> Links(v)[c] == v[IndexOf(v, c)].parent
  {
    if Linked(v, c) {
      assert v[IndexOf(v, c)] in v;
    }
  }

  /** The n-th ancestor along some links. */
  function Up(link: map<Str, Str>, c: Str, n: nat): Option<Str>
    decreases n
  {
    if n == 0 then Some(c)
    else if c in link then Up(link, link[c], n - 1)
    else None
  }

  ghost predicate Ancestor(v: Forest, a: Str, c: Str) {
    exists n: nat :: n >= 1 && Up(Links(v), c, n) == Some(a)
  }

  // ---------------------------------------------------------------------
  // Taking one node out of a chain.
  // ---------------------------------------------------------------------

  /** "now" links what "was" links, around x. */
  ghost predicate Bypass(was: map<Str, Str>, now: map<Str, Str>, x: Str) {
    forall c :: c != x ==>
      if c in was && was[c] != x then c in now && now[c] == was[c]
      else if c in was && x in was && was[x] != x then c in now && now[c] == was[x]
      else c !in now
  }

  lemma {:induction false} SelfLinkGoesNowhere(link: map<Str, Str>, x: Str, n: nat)
    requires x in link && link[x] == x
    ensures Up(link, x, n) == Some(x)
  {
    if n > 0 {
      SelfLinkGoesNowhere(link, x, n - 1);
    }
  }

  lemma {:induction false} ChainShortens(was: map<Str, Str>, now: map<Str, Str>, x: Str, c: Str, a: Str, n: nat)
      returns (m: nat)
    requires Bypass(was, now, x) && c != x && a != x
    requires n >= 1 && Up(was, c, n) == Some(a)
    ensures m >= 1 && Up(now, c, m) == Some(a)
    decreases n
  {
    var p := was[c];
    if p != x {
      m := 1;
      if n > 1 {
        var k := ChainShortens(was, now, x, p, a, n - 1);
        m := k + 1;
      }
    } else {
      assert Up(was, x, n - 1) == Some(a);
      if x in was && was[x] == x {
        SelfLinkGoesNowhere(was, x, n - 1);
      }
      assert Up(was, was[x], n - 2) == Some(a);
      m := 1;
      if n > 2 {
        var k := ChainShortens(was, now, x, was[x], a, n - 2);
        m := k + 1;
      }
    }
  }

  lemma {:induction false} ChainLengthens(was: map<Str, Str>, now: map<Str, Str>, x: Str, c: Str, a: Str, m: nat)
      returns (n: nat)
    requires Bypass(was, now, x) && c != x
    requires m >= 1 && Up(now, c, m) == Some(a)
    ensures n >= 1 && Up(was, c, n) == Some(a)
    decreases m
  {
    var q := now[c];
    n := 0;
    if m > 1 {
      n := ChainLengthens(was, now, x, q, a, m - 1);
    }
    assert Up(was, q, n) == Some(a);
    if was[c] == x {
      assert Up(was, x, n + 1) == Some(a);
      n := n + 2;
    } else {
      n := n + 1;
    }
  }

  // ---------------------------------------------------------------------
  // Delete.
  // ---------------------------------------------------------------------

  /** The place before a delete of what is at k afterwards. */
  function Was(id: int, k: nat): (i: nat) {
    if k < id then k else k + 1
  }

  /** What is left when the entry at id was handed over and its place closed. */
  lemma DeletedIs(v: Forest, guid: Str, id: nat, w: Forest)
    requires IndexOf(v, guid) == id && |w| == |v| - 1
    requires forall k :: 0 <= k < |w| ==> w[k] == Reparented(v[Was(id, k)], v[id])
    ensures w == Deleted(v, guid)
  {
  }

  lemma DeletedIndex(v: Forest, x: Str, k: nat)
    requires Has(v, x) && k < |v| - 1
    ensures |Deleted(v, x)| == |v| - 1
    ensures Deleted(v, x)[k] == Reparented(v[Was(IndexOf(v, x), k)], v[IndexOf(v, x)])
  {
  }

  /** The survivors are exactly the other entries, in the same order, and nothing but
      the parent and the current mark of an entry can change. */
  lemma DeleteKeepsTheRest(v: Forest, x: Str)
    requires Has(v, x)
    ensures |Deleted(v, x)| == |v| - 1
    ensures forall k :: 0 <= k < |v| - 1 ==>
      var was, now := v[Was(IndexOf(v, x), k)], Deleted(v, x)[k];
      now == was.(parent := now.parent, current := now.current)
  {
    forall k | 0 <= k < |v| - 1
      ensures var was, now := v[Was(IndexOf(v, x), k)], Deleted(v, x)[k];
        now == was.(parent := now.parent, current := now.current)
    {
      DeletedIndex(v, x, k);
    }
  }

  lemma IndexIs(v: Forest, i: nat)
    requires Unique(v) && i < |v|
    ensures IndexOf(v, v[i].guid) == i
  {
  }

  lemma DeleteKeepsUnique(v: Forest, x: Str)
    requires Unique(v)
    ensures Unique(Deleted(v, x))
  {
    if Has(v, x) {
      DeleteKeepsTheRest(v, x);
    }
  }

  lemma HasAfterDelete(v: Forest, x: Str, g: Str)
    requires Unique(v) && Has(v, x)
    ensures Has(Deleted(v, x), g) <==> Has(v, g) && g != x
  {
    var w, id := Deleted(v, x), IndexOf(v, x);
    DeleteKeepsUnique(v, x);
    if Has(v, g) && g != x {
      var i := IndexOf(v, g);
      DeletedIndex(v, x, if i < id then i else i - 1);
    }
    if Has(w, g) {
      DeletedIndex(v, x, IndexOf(w, g));
    }
  }

  lemma DeleteBypasses(v: Forest, x: Str)
    requires Unique(v) && Has(v, x)
    ensures Bypass(Links(v), Links(Deleted(v, x)), x)
  {
    forall c | c != x
      ensures var was, now := Links(v), Links(Deleted(v, x));
        if c in was && was[c] != x then c in now && now[c] == was[c]
        else if c in was && x in was && was[x] != x then c in now && now[c] == was[x]
        else c !in now
    {
      HasAfterDelete(v, x, c);
      if Has(v, c) {
        LinkAfterDelete(v, x, c);
      } else {
        LinksAt(v, c);
        LinksAt(Deleted(v, x), c);
      }
    }
  }

  lemma LinkAfterDelete(v: Forest, x: Str, c: Str)
    requires Unique(v) && Has(v, x) && Has(v, c) && c != x
    ensures var was, now := Links(v), Links(Deleted(v, x));
      if c in was && was[c] != x then c in now && now[c] == was[c]
      else if c in was && x in was && was[x] != x then c in now && now[c] == was[x]
      else c !in now
  {
    ParentAfterDelete(v, x, c);
    HasAfterDelete(v, x, v[IndexOf(v, c)].parent);
    HasAfterDelete(v, x, v[IndexOf(v, x)].parent);
    LinksAt(v, c);
    LinksAt(v, x);
    LinksAt(Deleted(v, x), c);
  }

  lemma ParentAfterDelete(v: Forest, x: Str, c: Str)
    requires Unique(v) && Has(v, x) && Has(v, c) && c != x
    ensures var w, i := Deleted(v, x), IndexOf(v, c);
      && Has(w, c)
      && w[IndexOf(w, c)].parent == if v[i].parent == x then v[IndexOf(v, x)].parent else v[i].parent
  {
    var w, id, i := Deleted(v, x), IndexOf(v, x), IndexOf(v, c);
    var k := if i < id then i else i - 1;
    DeleteKeepsUnique(v, x);
    DeletedIndex(v, x, k);
    IndexIs(w, k);
  }

  /** Among the survivors of a delete the ancestor relation is what it was. */
  lemma DeleteKeepsAncestry(v: Forest, x: Str, a: Str, c: Str)
    requires Unique(v) && Has(v, x) && c != x && a != x
    ensures Ancestor(Deleted(v, x), a, c) <==> Ancestor(v, a, c)
  {
    var was, now := Links(v), Links(Deleted(v, x));
    DeleteBypasses(v, x);
    if n: nat :| n >= 1 && Up(was, c, n) == Some(a) {
      var m := ChainShortens(was, now, x, c, a, n);
    }
    if m: nat :| m >= 1 && Up(now, c, m) == Some(a) {
      var n := ChainLengthens(was, now, x, c, a, m);
    }
  }

  // ---------------------------------------------------------------------
  // Runs.
  // ---------------------------------------------------------------------

  ghost predicate AtMostOneCurrent(v: Forest) {
    forall i, j :: 0 <= i < j < |v| ==> !(v[i].current && v[j].current)
  }

  /** Every parent is nobody or an entry further to the front. */
  ghost predicate ParentsFirst(v: Forest) {
    forall i :: 0 <= i < |v| ==> v[i].parent == EMPTY || 0 <= IndexOf(v, v[i].parent) < i
  }

  ghost predicate Shape(v: Forest) {
    && Unique(v)
    && (forall s <- v :: s.guid != EMPTY)
    && ParentsFirst(v)
    && AtMostOneCurrent(v)
  }

  datatype Op =
    | Add(guid: Str, name: Str, date: Str, desc: Str)
    | SetCurrent(guid: Str)
    | Delete(guid: Str)

  function Perform(v: Forest, op: Op): Forest {
    match op
    case Add(guid, name, date, desc) => Added(v, true, guid, CurrentGuid(v), name, date, desc)
    case SetCurrent(guid) => Marked(v, guid)
    case Delete(guid) => Deleted(v, guid)
  }

  function PerformAll(v: Forest, ops: seq<Op>): Forest
    decreases |ops|
  {
    if ops == [] then v else PerformAll(Perform(v, ops[0]), ops[1..])
  }

  /** No addition of the run gives the empty guid. */
  predicate Proper(ops: seq<Op>) {
    forall op <- ops :: op.Add? ==> op.guid != EMPTY
  }

  /** Additions of the run give guids of G. */
  predicate From(ops: seq<Op>, G: set<Str>) {
    forall op <- ops :: op.Add? ==> op.guid in G
  }

  /** What makes overwriting a parent_guid buffer in place safe. */
  ghost predicate Roomy(v: Forest, len: nat) {
    forall s <- v ::
      && |s.guid.text| == len
      && (s.parent != EMPTY ==> s.room == len && |s.parent.text| == len)
  }

  /** Every string the deletion of x copies fits the buffer it is copied into. */
  ghost predicate CopiesFit(v: Forest, x: Str) {
    Has(v, x) ==> forall s <- v :: s.parent == x ==> |v[IndexOf(v, x)].parent.text| <= s.room
  }

  lemma IndexSame(v: Forest, w: Forest, g: Str)
    requires |v| <= |w| && forall i :: 0 <= i < |v| ==> v[i].guid == w[i].guid
    ensures Has(v, g) ==> IndexOf(w, g) == IndexOf(v, g)
    ensures Has(w, g) && IndexOf(w, g) < |v| ==> IndexOf(v, g) == IndexOf(w, g)
  {
  }

  lemma AddKeepsShape(v: Forest, guid: Str, name: Str, date: Str, desc: Str)
    requires Shape(v) && guid != EMPTY
    ensures Shape(Perform(v, Add(guid, name, date, desc)))
  {
    var w := Perform(v, Add(guid, name, date, desc));
    if !Has(v, guid) {
      forall i | 0 <= i < |v|
        ensures w[i].parent == EMPTY || 0 <= IndexOf(w, w[i].parent) < i
      {
        IndexSame(v, w, v[i].parent);
      }
      IndexSame(v, w, CurrentGuid(v));
    }
  }

  lemma MarkKeepsShape(v: Forest, guid: Str)
    requires Shape(v)
    ensures Shape(Marked(v, guid))
  {
    var w := Marked(v, guid);
    forall i | 0 <= i < |v|
      ensures w[i].parent == EMPTY || 0 <= IndexOf(w, w[i].parent) < i
    {
      IndexSame(v, w, v[i].parent);
    }
  }

  lemma DeletedParentIsFirst(v: Forest, x: Str, k: nat)
    requires Shape(v) && Has(v, x) && k < |Deleted(v, x)|
    ensures var w := Deleted(v, x); w[k].parent == EMPTY || 0 <= IndexOf(w, w[k].parent) < k
  {
    var w, id := Deleted(v, x), IndexOf(v, x);
    var i := Was(id, k);
    DeletedIndex(v, x, k);
    IndexIs(v, i);
    if w[k].parent != EMPTY {
      var j := IndexOf(v, w[k].parent);
      IndexIs(v, id);
      assert j < i && j != id;
      SurvivorIndex(v, x, j);
    }
  }

  lemma SurvivorIndex(v: Forest, x: Str, j: nat)
    requires Shape(v) && Has(v, x) && j < |v| && j != IndexOf(v, x)
    ensures IndexOf(Deleted(v, x), v[j].guid) == if j < IndexOf(v, x) then j else j - 1
  {
    var k := if j < IndexOf(v, x) then j else j - 1;
    DeletedIndex(v, x, k);
    DeleteKeepsUnique(v, x);
    IndexIs(Deleted(v, x), k);
  }

  lemma DeleteKeepsParentsFirst(v: Forest, x: Str)
    requires Shape(v) && Has(v, x)
    ensures ParentsFirst(Deleted(v, x))
  {
    forall k: nat | k < |Deleted(v, x)|
      ensures var w := Deleted(v, x); w[k].parent == EMPTY || 0 <= IndexOf(w, w[k].parent) < k
    {
      DeletedParentIsFirst(v, x, k);
    }
  }

  lemma DeleteKeepsShape(v: Forest, x: Str)
    requires Shape(v)
    ensures Shape(Deleted(v, x))
  {
    if Has(v, x) {
      DeleteKeepsUnique(v, x);
      DeleteKeepsParentsFirst(v, x);
      DeleteKeepsTheRest(v, x);
      forall k | 0 <= k < |v| - 1
        ensures var s, t := v[Was(IndexOf(v, x), k)], v[IndexOf(v, x)];
          Deleted(v, x)[k].current <==> s.current || (t.current && s.guid == t.parent)
      {
        DeletedIndex(v, x, k);
      }
    }
  }

  lemma CurrentIs(v: Forest, k: nat)
    requires k < |v| && v[k].current && forall i :: 0 <= i < |v| && i != k ==> !v[i].current
    ensures CurrentIndex(v) == k
  {
  }

  /** The old place of the entry that is current once x is deleted. */
  function Moved(v: Forest, x: Str): int {
    var c, id := CurrentIndex(v), IndexOf(v, x);
    if c < 0 then -1 else if c == id then IndexOf(v, v[id].parent) else c
  }

  lemma MarkIsAt(v: Forest, x: Str)
    requires Shape(v) && Has(v, x) && Moved(v, x) >= 0
    ensures CurrentGuid(Deleted(v, x)) == v[Moved(v, x)].guid
  {
    var id, now := IndexOf(v, x), Moved(v, x);
    var k := if now < id then now else now - 1;
    IndexIs(v, CurrentIndex(v));
    DeletedIndex(v, x, k);
    CurrentIs(Deleted(v, x), k);
  }

  lemma MarkIsNowhere(v: Forest, x: Str)
    requires Shape(v) && Has(v, x) && Moved(v, x) < 0
    ensures CurrentGuid(Deleted(v, x)) == EMPTY
  {
    forall k | 0 <= k < |Deleted(v, x)|
      ensures !Deleted(v, x)[k].current
    {
      DeletedIndex(v, x, k);
    }
  }

  /** Deleting the current snapshot makes its parent current, or nobody if it had none;
      deleting another one leaves the current snapshot alone. */
  lemma DeleteMovesCurrent(v: Forest, x: Str)
    requires Shape(v) && Has(v, x)
    ensures CurrentGuid(Deleted(v, x))
         == if CurrentGuid(v) == x then v[IndexOf(v, x)].parent else CurrentGuid(v)
  {
    DeleteKeepsShape(v, x);
    if CurrentIndex(v) >= 0 {
      IndexIs(v, CurrentIndex(v));
    }
    if Moved(v, x) >= 0 {
      MarkIsAt(v, x);
    } else {
      MarkIsNowhere(v, x);
    }
  }

  /** Deleting a snapshot just taken restores the tree as it was. */
  lemma DeleteUndoesAdd(v: Forest, guid: Str, name: Str, date: Str, desc: Str)
    requires Shape(v) && guid != EMPTY && !Has(v, guid)
    ensures Deleted(Perform(v, Add(guid, name, date, desc)), guid) == v
  {
    var w := Perform(v, Add(guid, name, date, desc));
    AddKeepsShape(v, guid, name, date, desc);
    IndexIs(w, |v|);
    var back := Deleted(w, guid);
    forall k | 0 <= k < |v|
      ensures back[k] == v[k]
    {
      DeletedIndex(w, guid, k);
      var c := CurrentIndex(v);
      if c >= 0 && v[k].guid == v[c].guid {
        IndexIs(v, k);
        IndexIs(v, c);
      }
    }
  }

  lemma StepKeepsShape(v: Forest, op: Op)
    requires Shape(v) && (op.Add? ==> op.guid != EMPTY)
    ensures Shape(Perform(v, op))
  {
    match op
    case Add(guid, name, date, desc) => AddKeepsShape(v, guid, name, date, desc);
    case SetCurrent(guid) => MarkKeepsShape(v, guid);
    case Delete(guid) => DeleteKeepsShape(v, guid);
  }

  lemma {:induction false} RunKeepsShape(v: Forest, ops: seq<Op>)
    requires Shape(v) && Proper(ops)
    ensures Shape(PerformAll(v, ops))
    decreases |ops|
  {
    if ops != [] {
      assert ops[0] in ops;
      StepKeepsShape(v, ops[0]);
      RunKeepsShape(Perform(v, ops[0]), ops[1..]);
    }
  }

  /** Over every run from the empty tree that adds no empty guid: the shape holds, and every
      chain of parents ends within as many steps as there are snapshots. */
  lemma EveryRun(ops: seq<Op>, c: Str)
    requires Proper(ops)
    ensures var v := PerformAll([], ops);
      Shape(v) && (Has(v, c) ==> Up(Links(v), c, |v|) == None)
  {
    var v := PerformAll([], ops);
    RunKeepsShape([], ops);
    if Has(v, c) {
      LinksLeadForward(v);
      ChainEnds(v, Links(v), c, |v|);
    }
  }

  lemma LinksLeadForward(v: Forest)
    requires Shape(v)
    ensures forall c <- Links(v) :: 0 <= IndexOf(v, Links(v)[c]) < IndexOf(v, c)
  {
    forall c | c in Links(v)
      ensures 0 <= IndexOf(v, Links(v)[c]) < IndexOf(v, c)
    {
      LinksAt(v, c);
    }
  }

  lemma {:induction false} ChainEnds(v: Forest, link: map<Str, Str>, c: Str, n: nat)
    requires forall d <- link :: 0 <= IndexOf(v, link[d]) < IndexOf(v, d)
    requires 0 <= IndexOf(v, c) < n
    ensures Up(link, c, n) == None
    decreases n
  {
    if c in link {
      ChainEnds(v, link, link[c], n - 1);
    }
  }

  // ---------------------------------------------------------------------
  // Cycles.
  // ---------------------------------------------------------------------

  /** No entry is its own ancestor. */
  ghost predicate Acyclic(v: Forest) {
    forall c :: !Ancestor(v, c, c)
  }

  lemma {:induction false} UpLeadsForward(v: Forest, link: map<Str, Str>, c: Str, n: nat)
    requires forall d <- link :: 0 <= IndexOf(v, link[d]) < IndexOf(v, d)
    requires n >= 1 && Up(link, c, n).Some?
    ensures IndexOf(v, Up(link, c, n).value) < IndexOf(v, c)
    decreases n
  {
    if n > 1 {
      UpLeadsForward(v, link, link[c], n - 1);
    }
  }

  lemma ShapeIsAcyclic(v: Forest)
    requires Shape(v)
    ensures Acyclic(v)
  {
    LinksLeadForward(v);
    forall c
      ensures !Ancestor(v, c, c)
    {
      if n: nat :| n >= 1 && Up(Links(v), c, n) == Some(c) {
        UpLeadsForward(v, Links(v), c, n);
      }
    }
  }

  /** Where every entry is linked to its parent, also to an empty one, its chain comes to the empty guid. */
  lemma {:induction false} RootsHangFromEmpty(v: Forest, link: map<Str, Str>, i: nat) returns (n: nat)
    requires Shape(v) && i < |v|
    requires forall j :: 0 <= j < |v| ==> v[j].guid in link && link[v[j].guid] == v[j].parent
    ensures n >= 1 && Up(link, v[i].guid, n) == Some(EMPTY)
    decreases i
  {
    n := 1;
    if v[i].parent != EMPTY {
      n := RootsHangFromEmpty(v, link, IndexOf(v, v[i].parent));
      n := n + 1;
    }
  }

  lemma LinkedToParent(v: Forest, w: Forest, i: nat)
    requires Shape(v) && i < |v| < |w| && Has(w, EMPTY)
    requires forall j :: 0 <= j < |v| ==> w[j].guid == v[j].guid && w[j].parent == v[j].parent
    ensures v[i].guid in Links(w) && Links(w)[v[i].guid] == v[i].parent
  {
    IndexIs(v, i);
    IndexSame(v, w, v[i].guid);
    IndexSame(v, w, v[i].parent);
    LinksAt(w, v[i].guid);
  }

  /** Adding an entry with an empty guid makes it its own ancestor. */
  lemma EmptyClosesACycle(v: Forest, name: Str, date: Str, desc: Str)
    requires Shape(v)
    ensures Ancestor(Perform(v, Add(EMPTY, name, date, desc)), EMPTY, EMPTY)
  {
    var w, k := Perform(v, Add(EMPTY, name, date, desc)), CurrentIndex(v);
    assert !Has(v, EMPTY);
    assert w[|v|].guid == EMPTY && IndexOf(w, EMPTY) == |v|;
    var n := 0;
    if k >= 0 {
      forall j | 0 <= j < |v|
        ensures v[j].guid in Links(w) && Links(w)[v[j].guid] == v[j].parent
      {
        LinkedToParent(v, w, j);
      }
      n := RootsHangFromEmpty(v, Links(w), k);
      IndexSame(v, w, v[k].guid);
    }
    LinksAt(w, EMPTY);
    assert Up(Links(w), EMPTY, n + 1) == Some(EMPTY);
  }

  lemma {:induction false} PerformLast(v: Forest, ops: seq<Op>, k: nat)
    requires k < |ops|
    ensures PerformAll(v, ops[..k + 1]) == Perform(PerformAll(v, ops[..k]), ops[k])
    decreases |ops|
  {
    var rest := ops[1..];
    assert ops[..k + 1][1..] == rest[..k];
    if k > 0 {
      assert ops[..k][1..] == rest[..k - 1] && rest[k - 1] == ops[k];
      PerformLast(Perform(v, ops[0]), rest, k - 1);
    }
  }

  lemma {:induction false} FirstEmpty(ops: seq<Op>) returns (k: nat)
    requires !Proper(ops)
    ensures k < |ops| && ops[k].Add? && ops[k].guid == EMPTY && Proper(ops[..k])
    decreases |ops|
  {
    var front := ops[..|ops| - 1];
    if Proper(front) {
      k := |ops| - 1;
      assert ops == front + [ops[k]];
    } else {
      k := FirstEmpty(front);
      assert ops[..k] == front[..k];
    }
  }

  /** A run never holds a cycle exactly when none of its additions gives the empty guid. */
  lemma AcyclicExactly(ops: seq<Op>)
    ensures (forall k :: 0 <= k <= |ops| ==> Acyclic(PerformAll([], ops[..k]))) <==> Proper(ops)
  {
    if Proper(ops) {
      forall k | 0 <= k <= |ops|
        ensures Acyclic(PerformAll([], ops[..k]))
      {
        RunKeepsShape([], ops[..k]);
        ShapeIsAcyclic(PerformAll([], ops[..k]));
      }
    } else {
      var k := FirstEmpty(ops);
      RunKeepsShape([], ops[..k]);
      EmptyClosesACycle(PerformAll([], ops[..k]), ops[k].name, ops[k].date, ops[k].desc);
      PerformLast([], ops, k);
      assert !Acyclic(PerformAll([], ops[..k + 1]));
    }
  }

  /** An entry with an empty guid can turn the forest into a cycle. */
  lemma EmptyGuidMakesCycle() returns (ops: seq<Op>, a: Str)
    ensures Ancestor(PerformAll([], ops), a, a)
  {
    a := Str("a");
    var b := Str("b");
    ops := [Add(a, EMPTY, EMPTY, EMPTY), Add(b, EMPTY, EMPTY, EMPTY), Add(EMPTY, EMPTY, EMPTY, EMPTY), Delete(EMPTY)];
    var v1 := Perform([], ops[0]);
    assert v1 == [Snap(a, EMPTY, 0, true, EMPTY, EMPTY, EMPTY)];
    var v2 := Perform(v1, ops[1]);
    assert v2 == [Snap(a, EMPTY, 0, false, EMPTY, EMPTY, EMPTY), Snap(b, a, 1, true, EMPTY, EMPTY, EMPTY)];
    var v3 := Perform(v2, ops[2]);
    assert v3[..2] == [v2[0], v2[1].(current := false)] && v3[2].guid == EMPTY && v3[2].parent == b;
    var v4 := Perform(v3, ops[3]);
    DeletingEmptyMakesCycle(v3, a, b);
    assert PerformAll(v3, [ops[3]]) == v4;
    assert PerformAll(v2, [ops[2], ops[3]]) == v4;
    assert PerformAll(v1, [ops[1], ops[2], ops[3]]) == v4;
  }

  lemma DeletingEmptyMakesCycle(v: Forest, a: Str, b: Str)
    requires |v| == 3 && v[0].guid == a && v[1].guid == b && v[2].guid == EMPTY && a != b && a != EMPTY && b != EMPTY
    requires v[0].parent == EMPTY && v[1].parent == a && v[2].parent == b
    ensures Ancestor(Deleted(v, EMPTY), a, a)
  {
    var w := Deleted(v, EMPTY);
    IndexIs(v, 2);
    DeletedIndex(v, EMPTY, 0);
    DeletedIndex(v, EMPTY, 1);
    IndexIs(w, 0);
    IndexIs(w, 1);
    LinksAt(w, a);
    LinksAt(w, b);
    assert Up(Links(w), b, 1) == Some(a) && Up(Links(w), a, 2) == Some(a);
  }

  // ---------------------------------------------------------------------
  // The copies a deletion makes in place.
  // ---------------------------------------------------------------------

  ghost predicate OneLength(G: set<Str>) {
    forall g, h :: g in G && h in G ==> |g.text| == |h.text|
  }

  lemma StepKeepsRoom(v: Forest, op: Op, len: nat)
    requires Shape(v) && Roomy(v, len)
    requires op.Add? ==> op.guid != EMPTY && |op.guid.text| == len
    ensures Roomy(Perform(v, op), len)
  {
  }

  lemma {:induction false} RunKeepsRoom(v: Forest, ops: seq<Op>, G: set<Str>, len: nat)
    requires Shape(v) && Roomy(v, len) && From(ops, G) && EMPTY !in G && forall g <- G :: |g.text| == len
    ensures Roomy(PerformAll(v, ops), len)
    decreases |ops|
  {
    if ops != [] {
      assert ops[0] in ops;
      StepKeepsShape(v, ops[0]);
      StepKeepsRoom(v, ops[0], len);
      RunKeepsRoom(Perform(v, ops[0]), ops[1..], G, len);
    }
  }

  /** Nothing but empty guids. */
  ghost predicate Blank(v: Forest) {
    forall s <- v :: s.guid == EMPTY && s.parent == EMPTY
  }

  lemma {:induction false} RunKeepsBlank(v: Forest, ops: seq<Op>)
    requires Blank(v) && From(ops, {EMPTY})
    ensures Blank(PerformAll(v, ops))
    decreases |ops|
  {
    if ops != [] {
      assert ops[0] in ops;
      RunKeepsBlank(Perform(v, ops[0]), ops[1..]);
    }
  }

  lemma {:induction false} RunKeepsGuids(v: Forest, ops: seq<Op>, G: set<Str>)
    requires (forall s <- v :: s.guid in G) && From(ops, G)
    ensures forall s <- PerformAll(v, ops) :: s.guid in G
    decreases |ops|
  {
    if ops != [] {
      assert ops[0] in ops;
      RunKeepsGuids(Perform(v, ops[0]), ops[1..], G);
    }
  }

  lemma {:induction false} SubsetIsNoLarger(A: set<Str>, B: set<Str>)
    requires A <= B
    ensures |A| <= |B|
  {
    if A != {} {
      var x :| x in A;
      SubsetIsNoLarger(A - {x}, B - {x});
    }
  }

  /** A deleted entry with a parent and a child has a guid unlike both of theirs. */
  lemma ThreeGuids(v: Forest, i: nat, k: nat, G: set<Str>)
    requires Shape(v) && (forall s <- v :: s.guid in G) && i < |v| && k < |v|
    requires v[i].parent != EMPTY && v[k].parent == v[i].guid
    ensures |G| > 2
  {
    var j := IndexOf(v, v[i].parent);
    IndexIs(v, i);
    assert j < i < k;
    var three := {v[j].guid, v[i].guid, v[k].guid};
    assert |three| == 3;
    SubsetIsNoLarger(three, G);
  }

  lemma TwoGuidsFit(v: Forest, x: Str, G: set<Str>)
    requires Shape(v) && (forall s <- v :: s.guid in G) && |G| <= 2
    ensures CopiesFit(v, x)
  {
    if Has(v, x) {
      var i := IndexOf(v, x);
      forall s | s in v && s.parent == x
        ensures |v[i].parent.text| <= s.room
      {
        if v[i].parent != EMPTY {
          var k :| 0 <= k < |v| && v[k] == s;
          ThreeGuids(v, i, k, G);
        }
      }
    }
  }

  lemma ThreeOnTop(g: Str, h: Str, t: Str) returns (ops: seq<Op>)
    requires g != h && h != t && g != t && EMPTY !in {g, h, t} && |g.text| > |h.text|
    ensures From(ops, {g, h, t}) && !CopiesFit(PerformAll([], ops), h)
  {
    ops := [Add(g, EMPTY, EMPTY, EMPTY), Add(h, EMPTY, EMPTY, EMPTY), Add(t, EMPTY, EMPTY, EMPTY)];
    var v1 := Perform([], ops[0]);
    assert v1 == [Snap(g, EMPTY, 0, true, EMPTY, EMPTY, EMPTY)];
    var v2 := Perform(v1, ops[1]);
    assert v2 == [Snap(g, EMPTY, 0, false, EMPTY, EMPTY, EMPTY), Snap(h, g, |g.text|, true, EMPTY, EMPTY, EMPTY)];
    var v3 := Perform(v2, ops[2]);
    assert v3[..2] == [v2[0], v2[1].(current := false)];
    assert v3[2] == Snap(t, h, |h.text|, true, EMPTY, EMPTY, EMPTY) && v3[2] in v3;
    assert v3[0].guid == g && IndexFrom(v3, h, 1) == 1;
    assert PerformAll(v2, [ops[2]]) == v3;
    assert PerformAll(v1, [ops[1], ops[2]]) == v3;
  }

  lemma EmptyOnTop(g: Str) returns (ops: seq<Op>)
    requires g != EMPTY
    ensures From(ops, {g, EMPTY}) && !CopiesFit(PerformAll([], ops), EMPTY)
  {
    ops := [Add(g, EMPTY, EMPTY, EMPTY), Add(EMPTY, EMPTY, EMPTY, EMPTY)];
    var v1 := Perform([], ops[0]);
    assert v1 == [Snap(g, EMPTY, 0, true, EMPTY, EMPTY, EMPTY)];
    var v2 := Perform(v1, ops[1]);
    assert v2[0] == Snap(g, EMPTY, 0, false, EMPTY, EMPTY, EMPTY) && v2[0] in v2;
    assert v2[1] == Snap(EMPTY, g, |g.text|, true, EMPTY, EMPTY, EMPTY);
    assert IndexOf(v2, EMPTY) == 1;
    assert PerformAll(v1, [ops[1]]) == v2;
  }

  /** Whatever is deleted after any run with these guids is copied into room enough. */
  ghost predicate AlwaysFits(G: set<Str>) {
    forall ops: seq<Op>, x: Str :: From(ops, G) ==> CopiesFit(PerformAll([], ops), x)
  }

  lemma FittingGuids(G: set<Str>, ops: seq<Op>, x: Str)
    requires From(ops, G) && (OneLength(G) || (EMPTY !in G && |G| <= 2))
    ensures CopiesFit(PerformAll([], ops), x)
  {
    if EMPTY in G {
      forall g | g in G
        ensures g == EMPTY
      {
        assert |g.text| == |EMPTY.text|;
      }
      RunKeepsBlank([], ops);
    } else {
      assert Proper(ops);
      RunKeepsShape([], ops);
      if OneLength(G) {
        var len := if g :| g in G then |g.text| else 0;
        RunKeepsRoom([], ops, G, len);
      } else {
        RunKeepsGuids([], ops, G);
        TwoGuidsFit(PerformAll([], ops), x, G);
      }
    }
  }

  lemma OverrunningGuids(G: set<Str>) returns (ops: seq<Op>, x: Str)
    requires !OneLength(G) && (EMPTY in G || |G| > 2)
    ensures From(ops, G) && !CopiesFit(PerformAll([], ops), x)
  {
    var g, h :| g in G && h in G && |g.text| > |h.text|;
    if EMPTY in G {
      x := EMPTY;
      ops := EmptyOnTop(g);
    } else {
      var t := ThirdOf(G, g, h);
      x := h;
      ops := ThreeOnTop(g, h, t);
    }
  }

  lemma AtMostTwo(G: set<Str>, g: Str, h: Str)
    requires G <= {g, h}
    ensures |G| <= 2
  {
    SubsetIsNoLarger(G, {g, h});
  }

  lemma ThirdOf(G: set<Str>, g: Str, h: Str) returns (t: Str)
    requires |G| > 2
    ensures t in G && t != g && t != h
  {
    if forall t <- G :: t == g || t == h {
      AtMostTwo(G, g, h);
    }
    t :| t in G && t != g && t != h;
  }

  /** The copies of every deletion after every run that adds guids of G fit their buffers exactly
      when the guids of G have one length, or there are at most two and none of them is empty. */
  lemma CopiesFitExactly(G: set<Str>)
    ensures AlwaysFits(G) <==> OneLength(G) || (EMPTY !in G && |G| <= 2)
  {
    if OneLength(G) || (EMPTY !in G && |G| <= 2) {
      forall ops: seq<Op>, x: Str | From(ops, G)
        ensures CopiesFit(PerformAll([], ops), x)
      {
        FittingGuids(G, ops, x);
      }
    } else {
      var ops, x := OverrunningGuids(G);
    }
  }

  // ---------------------------------------------------------------------
  // The array of entries.
  // ---------------------------------------------------------------------

  class SnapshotData {
    var guid: Str
    var parentGuid: Str
    var room: nat
    var current: bool
    var name: Str
    var date: Str
    var desc: Str

    constructor (guid: Str, parentGuid: Str, current: bool, name: Str, date: Str, desc: Str)
      ensures Value() == Snap(guid, parentGuid, |parentGuid.text|, current, name, date, desc)
    {
      this.guid, this.parentGuid, this.room, this.current := guid, parentGuid, |parentGuid.text|, current;
      this.name, this.date, this.desc := name, date, desc;
    }

    function Value(): Snap
      reads this
    {
      Snap(guid, parentGuid, room, current, name, date, desc)
    }
  }

  ghost function Values(entries: seq<SnapshotData>): Forest
    reads entries
  {
    seq(|entries|, i requires 0 <= i < |entries| reads entries => entries[i].Value())
  }

  class Tree {
    var snapshots: array<SnapshotData>
    var nsnapshots: nat

    ghost predicate Valid()
      reads this, snapshots
    {
      && nsnapshots <= snapshots.Length
      && forall i, j :: 0 <= i < j < nsnapshots ==> snapshots[i] != snapshots[j]
    }

    ghost function Entries(): seq<SnapshotData>
      reads this, snapshots
      requires nsnapshots <= snapshots.Length
    {
      snapshots[..nsnapshots]
    }

    /** What the array means. */
    ghost function View(): Forest
      reads this, snapshots, if nsnapshots <= snapshots.Length then Entries() else []
      requires Valid()
    {
      Values(Entries())
    }

    constructor ()
      ensures Valid() && View() == []
    {
      snapshots := new SnapshotData[0];
      nsnapshots := 0;
    }

    method FindSnapshotByGuid(guid: Str) returns (id: int)
      requires Valid()
      ensures id == IndexOf(View(), guid)
    {
      var i := 0;
      while i < nsnapshots
        invariant i <= nsnapshots
        invariant IndexOf(View(), guid) == IndexFrom(View(), guid, i)
      {
        if snapshots[i].guid == guid {
          return i;
        }
        i := i + 1;
      }
      return -1;
    }

    method FindSnapshotCurrent() returns (id: int)
      requires Valid()
      ensures id == CurrentIndex(View())
    {
      var i := 0;
      while i < nsnapshots
        invariant i <= nsnapshots
        invariant CurrentIndex(View()) == CurrentFrom(View(), i)
      {
        if snapshots[i].current {
          return i;
        }
        i := i + 1;
      }
      return -1;
    }

    method SetCurrent(guid: Str)
      requires Valid()
      modifies Entries()
      ensures Valid() && View() == Marked(old(View()), guid)
    {
      ghost var v := View();
      var i := 0;
      while i < nsnapshots
        invariant i <= nsnapshots
        invariant forall j :: 0 <= j < nsnapshots ==>
          snapshots[j].Value() == if j < i then Marked(v, guid)[j] else v[j]
      {
        snapshots[i].current := false;
        if snapshots[i].guid == guid {
          snapshots[i].current := true;
        }
        i := i + 1;
      }
    }

    method ClearCurrent()
      requires Valid()
      modifies Entries()
      ensures Valid() && View() == Cleared(old(View()))
    {
      ghost var v := View();
      var i := 0;
      while i < nsnapshots
        invariant i <= nsnapshots
        invariant forall j :: 0 <= j < nsnapshots ==>
          snapshots[j].Value() == if j < i then Cleared(v)[j] else v[j]
      {
        snapshots[i].current := false;
        i := i + 1;
      }
    }

    /** Shifts the entries after "id" one place down. */
    method RemoveFromArray(id: nat)
      requires Valid() && id < nsnapshots
      modifies snapshots
      ensures forall i :: 0 <= i < nsnapshots - 1 ==> snapshots[i] == old(snapshots[Was(id, i)])
    {
      var i := id;
      while i < nsnapshots - 1
        invariant id <= i <= nsnapshots - 1
        invariant forall j :: 0 <= j < snapshots.Length ==>
          snapshots[j] == if id <= j < i then old(snapshots[j + 1]) else old(snapshots[j])
      {
        snapshots[i] := snapshots[i + 1];
        i := i + 1;
      }
    }

    /** Hands the children and the current mark of the entry at "id" to its parent. */
    method HandOver(id: nat)
      requires Valid() && id < nsnapshots
      modifies Entries()
      ensures forall j :: 0 <= j < nsnapshots ==>
        snapshots[j].Value() == Reparented(old(snapshots[j].Value()), old(snapshots[id].Value()))
    {
      var snap := snapshots[id];
      var guid := snap.guid;
      ghost var v := View();
      var i := 0;
      while i < nsnapshots
        invariant i <= nsnapshots
        invariant snap.guid == v[id].guid && snap.parentGuid == v[id].parent && snap.current == v[id].current
        invariant forall j :: 0 <= j < nsnapshots ==>
          snapshots[j].Value() == if j < i then Reparented(v[j], v[id]) else v[j]
      {
        var it := snapshots[i];
        if snap.current && it.guid == snap.parentGuid {
          it.current := true;
        }
        if it.parentGuid == guid {
          it.parentGuid := snap.parentGuid;
        }
        i := i + 1;
      }
    }

    /** What is left in front of the last place, once the entry at "id" is handed over and taken out. */
    method Unlink(id: nat)
      requires Valid() && id < nsnapshots
      modifies snapshots, Entries()
      ensures forall i :: 0 <= i < nsnapshots - 1 ==> snapshots[i] == old(snapshots[Was(id, i)])
      ensures forall i :: 0 <= i < nsnapshots - 1 ==>
        snapshots[i].Value() == Reparented(old(View())[Was(id, i)], old(View())[id])
    {
      ghost var v, es := View(), snapshots[..];
      HandOver(id);
      assert forall j :: 0 <= j < nsnapshots ==> es[j].Value() == Reparented(v[j], v[id]);
      RemoveFromArray(id);
    }

    /** Unlinks the entry with this guid. */
    method DelEntry(guid: Str)
      requires Valid()
      modifies this, snapshots, Entries()
      ensures Valid() && View() == Deleted(old(View()), guid)
    {
      var id := FindSnapshotByGuid(guid);
      if id == -1 {
        return;
      }
      ghost var v := View();
      Unlink(id);
      nsnapshots := nsnapshots - 1;
      DeletedIs(v, guid, id, View());
    }

    /** Grows the array by one place. */
    method Append(data: SnapshotData)
      requires Valid() && data !in Entries()
      modifies this
      ensures Valid() && fresh(snapshots) && Entries() == old(Entries()) + [data]
      ensures View() == old(View()) + [data.Value()]
    {
      var was, n := snapshots, nsnapshots;
      snapshots := new SnapshotData[n + 1](i requires 0 <= i <= n reads was => if i < n then was[i] else data);
      nsnapshots := nsnapshots + 1;
    }

    method AddEntry(current: bool, guid: Str, parentGuid: Str, name: Str, date: Str, desc: Str) returns (ok: bool)
      requires Valid()
      modifies this, Entries()
      ensures Valid() && ok == !Has(old(View()), guid)
      ensures View() == Added(old(View()), current, guid, parentGuid, name, date, desc)
    {
      var id := FindSnapshotByGuid(guid);
      if id != -1 {
        return false;
      }
      var data := new SnapshotData(guid, parentGuid, current, name, date, desc);
      if current {
        ClearCurrent();
      }
      Append(data);
      return true;
    }

    /** A new snapshot hangs below the current one and becomes current. */
    method AddSnapshot(guid: Str, name: Str, date: Str, desc: Str) returns (ok: bool)
      requires Valid()
      modifies this, Entries()
      ensures Valid() && ok == !Has(old(View()), guid)
      ensures View() == Perform(old(View()), Add(guid, name, date, desc))
    {
      var parentGuid := EMPTY;
      var i := FindSnapshotCurrent();
      if i != -1 {
        parentGuid := snapshots[i].guid;
      }
      ok := AddEntry(true, guid, parentGuid, name, date, desc);
    }
  }
}
