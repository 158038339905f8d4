/** get_dir_list of lib/scandir.c: a directory tree walked with a worklist that is extended
    at its head while it is being iterated. */
module DirList {
  import opened CircularList
  import opened CText
  import opened Common

  /** What stat and opendir say of a name. */
  datatype Kind =
    | File
    | Unstatable
    | Dir(dev: nat, readable: bool)

  /** A directory tree, the entries of a directory in the order readdir returns them. */
  datatype Tree = Tree(name: Str, kind: Kind, kids: Forest)

  datatype Forest = Nil | Cons(head: Tree, tail: Forest)

  /** struct d_entry, with the node its name leads to. */
  datatype DEntry = DEntry(name: Str, level: nat, node: Tree)

  const PATH_MAX: nat := 4096

  /** level is -1 where there is no limit. */
  datatype Scan = Scan(dev: nat, limit: int)

  function Slashed(name: Str): Str {
    if |name.text| > 0 && name.text[|name.text| - 1] == '/' then name else Str(name.text + "/")
  }

  /** new_entry */
  function NewEntry(e: DEntry, node: Tree, name: Str): DEntry {
    DEntry(Str(Slashed(e.name).text + name.text), e.level + 1, node)
  }

  /** scan_dir takes a name unless it is . or .., too long, or surely no directory. */
  predicate Taken(e: DEntry, kid: Tree) {
    && kid.name.text != "." && kid.name.text != ".."
    && |e.name.text| + 1 + |kid.name.text| <= PATH_MAX
    && !kid.kind.File?
  }

  predicate Wanted(sc: Scan, e: DEntry) {
    e.node.kind.Dir? && e.node.kind.dev == sc.dev && (sc.limit == -1 || e.level <= sc.limit)
  }

  /** The names to be listed from e on, by recursion over its tree. */
  ghost function Found(sc: Scan, e: DEntry): multiset<Str>
    decreases e.node
  {
    if Wanted(sc, e) then
      multiset{e.name} + if e.node.kind.readable then FoundIn(sc, e, e.node.kids) else multiset{}
    else multiset{}
  }

  ghost function FoundIn(sc: Scan, e: DEntry, f: Forest): multiset<Str>
    decreases f
  {
    if f.Nil? then multiset{}
    else
      (if Taken(e, f.head) then Found(sc, NewEntry(e, f.head, f.head.name)) else multiset{}) + FoundIn(sc, e, f.tail)
  }

  // ---------------------------------------------------------------------
  // What is to be listed, in terms of paths.
  // ---------------------------------------------------------------------

  predicate In(t: Tree, f: Forest) {
    f.Cons? && (t == f.head || In(t, f.tail))
  }

  /** A path down from e, through names that scan_dir takes. */
  predicate IsPath(e: DEntry, p: seq<Tree>)
    decreases |p|
  {
    |p| > 0 ==>
      && e.node.kind.Dir? && e.node.kind.readable
      && In(p[0], e.node.kids)
      && Taken(e, p[0])
      && IsPath(NewEntry(e, p[0], p[0].name), p[1..])
  }

  function End(e: DEntry, p: seq<Tree>): DEntry
    decreases |p|
  {
    if |p| == 0 then e else End(NewEntry(e, p[0], p[0].name), p[1..])
  }

  predicate OnDevice(sc: Scan, t: Tree) {
    t.kind.Dir? && t.kind.dev == sc.dev
  }

  /** A path of directories on the device of the scan, within its depth. */
  ghost predicate Visible(sc: Scan, e: DEntry, p: seq<Tree>) {
    && IsPath(e, p)
    && OnDevice(sc, e.node)
    && (forall t <- p :: OnDevice(sc, t))
    && (sc.limit == -1 || e.level + |p| <= sc.limit)
  }

  /** The names listed are those the visible paths lead to. */
  lemma {:induction false} FoundIffVisible(sc: Scan, e: DEntry, s: Str)
    ensures s in Found(sc, e) <==> exists p :: Visible(sc, e, p) && End(e, p).name == s
    decreases e.node
  {
    if s in Found(sc, e) {
      if s == e.name {
        assert Visible(sc, e, []) && End(e, []).name == s;
      } else {
        var t := FoundIsVisible(sc, e, e.node.kids, s);
      }
    }
    if p :| Visible(sc, e, p) && End(e, p).name == s {
      if |p| > 0 {
        VisibleBelow(sc, e, p);
        VisibleIsFound(sc, e, e.node.kids, s, p);
      }
    }
  }

  lemma VisibleBelow(sc: Scan, e: DEntry, p: seq<Tree>)
    requires |p| > 0
    ensures Visible(sc, e, p) <==>
      Wanted(sc, e) && e.node.kind.readable && In(p[0], e.node.kids) && Taken(e, p[0]) &&
      Visible(sc, NewEntry(e, p[0], p[0].name), p[1..])
  {
    assert p == [p[0]] + p[1..];
  }

  lemma {:induction false} FoundIsVisible(sc: Scan, e: DEntry, f: Forest, s: Str) returns (p: seq<Tree>)
    requires s in FoundIn(sc, e, f)
    ensures |p| > 0 && In(p[0], f) && Taken(e, p[0])
    ensures Visible(sc, NewEntry(e, p[0], p[0].name), p[1..]) && End(e, p).name == s
    decreases f
  {
    if Taken(e, f.head) && s in Found(sc, NewEntry(e, f.head, f.head.name)) {
      var c := NewEntry(e, f.head, f.head.name);
      FoundIffVisible(sc, c, s);
      var q :| Visible(sc, c, q) && End(c, q).name == s;
      p := [f.head] + q;
      assert p[1..] == q;
    } else {
      p := FoundIsVisible(sc, e, f.tail, s);
    }
  }

  lemma {:induction false} VisibleIsFound(sc: Scan, e: DEntry, f: Forest, s: Str, p: seq<Tree>)
    requires |p| > 0 && In(p[0], f) && Taken(e, p[0])
    requires Visible(sc, NewEntry(e, p[0], p[0].name), p[1..]) && End(e, p).name == s
    ensures s in FoundIn(sc, e, f)
    decreases f
  {
    if p[0] == f.head {
      FoundIffVisible(sc, NewEntry(e, f.head, f.head.name), s);
    } else {
      VisibleIsFound(sc, e, f.tail, s, p);
    }
  }

  // ---------------------------------------------------------------------
  // Nothing is listed twice.
  // ---------------------------------------------------------------------

  function NamesOf(f: Forest): set<Str> {
    if f.Nil? then {} else {f.head.name} + NamesOf(f.tail)
  }

  /** Names in a directory are not empty, hold no slash and differ. */
  predicate WellNamed(f: Forest) {
    f.Cons? ==>
      && |f.head.name.text| > 0 && '/' !in f.head.name.text
      && f.head.name !in NamesOf(f.tail)
      && WellNamed(f.head.kids) && WellNamed(f.tail)
  }

  /** s is d or a path below d, in the directory called name. */
  ghost predicate Below(name: Str, d: Str, s: Str) {
    var n := |Slashed(name).text|;
    |s.text| > n && Slashed(name).text == s.text[..n] && Find(s.text[n..], '/') == |d.text| &&
    n + |d.text| <= |s.text| && d.text == s.text[n..n + |d.text|]
  }

  lemma BelowOneName(name: Str, a: Str, b: Str, s: Str)
    requires Below(name, a, s) && Below(name, b, s)
    ensures a == b
  {
  }

  lemma BelowName(name: Str, d: Str, rest: string)
    requires |d.text| > 0 && '/' !in d.text && (|rest| > 0 ==> rest[0] == '/')
    ensures Below(name, d, Str(Slashed(name).text + d.text + rest))
  {
    var n, s := |Slashed(name).text|, Slashed(name).text + d.text + rest;
    assert s[n..] == d.text + rest;
    assert s[n..n + |d.text|] == d.text;
    FindFirst(d.text, rest, '/');
  }

  /** What is found from e on is e or below one of the names in it. */
  lemma {:induction false} FoundBelow(sc: Scan, e: DEntry, s: Str) returns (d: Str)
    requires WellNamed(e.node.kids) && s in Found(sc, e) && s != e.name
    ensures d in NamesOf(e.node.kids) && Below(e.name, d, s)
    decreases e.node, 0
  {
    d := FoundInBelow(sc, e, e.node.kids, s);
  }

  lemma {:induction false} FoundInBelow(sc: Scan, e: DEntry, f: Forest, s: Str) returns (d: Str)
    requires WellNamed(f) && s in FoundIn(sc, e, f)
    ensures d in NamesOf(f) && Below(e.name, d, s)
    decreases f
  {
    if Taken(e, f.head) && s in Found(sc, NewEntry(e, f.head, f.head.name)) {
      FoundChildBelow(sc, e, f.head, s);
      d := f.head.name;
    } else {
      d := FoundInBelow(sc, e, f.tail, s);
    }
  }

  lemma {:induction false} FoundChildBelow(sc: Scan, e: DEntry, t: Tree, s: Str)
    requires WellNamed(t.kids) && |t.name.text| > 0 && '/' !in t.name.text
    requires s in Found(sc, NewEntry(e, t, t.name))
    ensures Below(e.name, t.name, s)
    decreases t, 1
  {
    var c, rest := NewEntry(e, t, t.name), "";
    if s != c.name {
      var d := FoundBelow(sc, c, s);
      assert t.name.text[|t.name.text| - 1] in t.name.text;
      assert c.name.text[|c.name.text| - 1] == t.name.text[|t.name.text| - 1];
      assert Slashed(c.name).text == c.name.text + "/";
      rest := s.text[|c.name.text|..];
      assert rest[0] == s.text[..|c.name.text| + 1][|c.name.text|] == '/';
      assert s.text[..|c.name.text|] == s.text[..|c.name.text| + 1][..|c.name.text|] == c.name.text;
    }
    assert s.text == Slashed(e.name).text + t.name.text + rest;
    BelowName(e.name, t.name, rest);
  }

  /** No name is found twice. */
  lemma {:induction false} FoundOnce(sc: Scan, e: DEntry, s: Str)
    requires WellNamed(e.node.kids)
    ensures Found(sc, e)[s] <= 1
    decreases e.node
  {
    if Wanted(sc, e) && e.node.kind.readable {
      FoundInOnce(sc, e, e.node.kids, s);
      if s == e.name && s in FoundIn(sc, e, e.node.kids) {
        var d := FoundInBelow(sc, e, e.node.kids, s);
        assert false;
      }
    }
  }

  lemma {:induction false} FoundInOnce(sc: Scan, e: DEntry, f: Forest, s: Str)
    requires WellNamed(f)
    ensures FoundIn(sc, e, f)[s] <= 1
    decreases f
  {
    if f.Cons? {
      FoundInOnce(sc, e, f.tail, s);
      if Taken(e, f.head) {
        var c := NewEntry(e, f.head, f.head.name);
        FoundOnce(sc, c, s);
        if s in Found(sc, c) && s in FoundIn(sc, e, f.tail) {
          FoundChildBelow(sc, e, f.head, s);
          var d := FoundInBelow(sc, e, f.tail, s);
          BelowOneName(e.name, d, f.head.name, s);
        }
      }
    }
  }

  /** A list that holds what is found has every visible directory exactly once. */
  lemma EachListedOnce(sc: Scan, e: DEntry, out: seq<Str>)
    requires multiset(out) == Found(sc, e) && WellNamed(e.node.kids)
    ensures forall s :: s in out <==> exists p :: Visible(sc, e, p) && End(e, p).name == s
    ensures forall i, j :: 0 <= i < j < |out| ==> out[i] != out[j]
  {
    forall s
      ensures s in out <==> exists p :: Visible(sc, e, p) && End(e, p).name == s
    {
      assert s in out <==> s in multiset(out);
      FoundIffVisible(sc, e, s);
    }
    forall i, j | 0 <= i < j < |out|
      ensures out[i] != out[j]
    {
      FoundOnce(sc, e, out[i]);
      OnceMeansDistinct(out, i, j);
    }
  }

  lemma OnceMeansDistinct(out: seq<Str>, i: nat, j: nat)
    requires i < j < |out| && multiset(out)[out[i]] <= 1
    ensures out[i] != out[j]
  {
    assert out == out[..j] + out[j..];
    assert out[i] == out[..j][i] && out[i] in out[..j];
    assert out[j] == out[j..][0] && out[j] in out[j..];
  }

  // ---------------------------------------------------------------------
  // The worklist.
  // ---------------------------------------------------------------------

  type Work = seq<ListElem<DEntry>>

  ghost function Pending(sc: Scan, s: Work): multiset<Str> {
    if |s| == 0 then multiset{} else Found(sc, s[0].entry) + Pending(sc, s[1..])
  }

  function Size(t: Tree): nat
    decreases t
  {
    1 + SizeOf(t.kids)
  }

  function SizeOf(f: Forest): nat
    decreases f
  {
    if f.Nil? then 0 else Size(f.head) + SizeOf(f.tail)
  }

  ghost function Weight(s: Work): nat {
    if |s| == 0 then 0 else Size(s[0].entry.node) + Weight(s[1..])
  }

  /** What is pending once one more entry of the directory e is at the head. */
  lemma OneMorePends(sc: Scan, e: DEntry, f: Forest, el: ListElem<DEntry>, front: Work)
    requires f.Cons? && Taken(e, f.head) && el.entry == NewEntry(e, f.head, f.head.name)
    ensures Pending(sc, [el] + front) + FoundIn(sc, e, f.tail) == Pending(sc, front) + FoundIn(sc, e, f)
    ensures Weight([el] + front) + SizeOf(f.tail) == Weight(front) + SizeOf(f)
  {
    assert ([el] + front)[1..] == front;
  }

  lemma OneLessPends(sc: Scan, back: Work)
    requires |back| > 0
    ensures Pending(sc, back) == Found(sc, back[0].entry) + Pending(sc, back[1..])
    ensures Weight(back) == Size(back[0].entry.node) + Weight(back[1..])
  {
  }

  /** Everything a walk over the worklist may write to. */
  ghost predicate Owned(pool: ListElem<DEntry>, front: Work, back: Work, all: set<object>) {
    pool in all && (forall x <- front :: x in all) && (forall x <- back :: x in all)
  }

  lemma SkipPends(sc: Scan, e: DEntry, f: Forest, p: multiset<Str>, total: multiset<Str>)
    requires f.Cons? && !Taken(e, f.head) && p + FoundIn(sc, e, f) == total
    ensures p + FoundIn(sc, e, f.tail) == total
  {
    assert multiset{} + FoundIn(sc, e, f.tail) == FoundIn(sc, e, f.tail);
  }

  /** What a directory adds to what is pending, once all its names are seen. */
  lemma AllPend(sc: Scan, e: DEntry, p: multiset<Str>, p': multiset<Str>)
    requires Wanted(sc, e)
    requires if e.node.kind.readable then p' + FoundIn(sc, e, Nil) == p + FoundIn(sc, e, e.node.kids) else p' == p
    ensures p' + multiset{e.name} == p + Found(sc, e)
  {
    assert p' + multiset{} == p';
    if e.node.kind.readable {
      var k := FoundIn(sc, e, e.node.kids);
      assert p' == p + k;
      assert Found(sc, e) == multiset{e.name} + k;
    } else {
      assert Found(sc, e) == multiset{e.name};
    }
  }

  /** One taken name goes to the head of the worklist. */
  method AddEntry(pool: ListElem<DEntry>, e: DEntry, f: Forest, ghost sc: Scan, ghost front: Work, ghost back: Work,
                  ghost all: set<object>) returns (ghost front': Work, ghost all': set<object>)
    requires Ring(pool, front + back) && Owned(pool, front, back, all) && f.Cons? && Taken(e, f.head)
    modifies all
    ensures Ring(pool, front' + back) && Owned(pool, front', back, all') && fresh(all' - all)
    ensures Pending(sc, front') + FoundIn(sc, e, f.tail) == Pending(sc, front) + FoundIn(sc, e, f)
    ensures Weight(front') + SizeOf(f.tail) == Weight(front) + SizeOf(f)
  {
    var el := new ListElem<DEntry>(NewEntry(e, f.head, f.head.name));
    assert |front + back| > 0 ==> (front + back)[0] in front || (front + back)[0] in back;
    Add(el, pool, front + back);
    front', all' := [el] + front, all + {el};
    assert [el] + (front + back) == front' + back;
    OneMorePends(sc, e, f, el, front);
  }

  /** scan_dir: the names taken from a directory go to the head of the worklist. */
  method ScanDir(pool: ListElem<DEntry>, e: DEntry, ghost sc: Scan, ghost front: Work, ghost back: Work,
                 ghost all: set<object>) returns (ghost front': Work, ghost all': set<object>)
    requires Ring(pool, front + back) && Owned(pool, front, back, all) && Wanted(sc, e)
    modifies all
    ensures Ring(pool, front' + back) && Owned(pool, front', back, all') && fresh(all' - all)
    ensures Pending(sc, front') + multiset{e.name} == Pending(sc, front) + Found(sc, e)
    ensures Weight(front') < Weight(front) + Size(e.node)
  {
    front', all' := front, all;
    if e.node.kind.readable {
      ghost var total := Pending(sc, front) + FoundIn(sc, e, e.node.kids);
      var f := e.node.kids;
      while f.Cons?
        invariant Ring(pool, front' + back) && Owned(pool, front', back, all') && fresh(all' - all)
        invariant Pending(sc, front') + FoundIn(sc, e, f) == total
        invariant Weight(front') + SizeOf(f) <= Weight(front) + SizeOf(e.node.kids)
        decreases f
      {
        if Taken(e, f.head) {
          front', all' := AddEntry(pool, e, f, sc, front', back, all');
        } else {
          SkipPends(sc, e, f, Pending(sc, front'), total);
        }
        f := f.tail;
      }
    }
    AllPend(sc, e, Pending(sc, front), Pending(sc, front'));
  }

  /** How far a pass over the worklist has come: front was added in this pass. */
  ghost predicate At(pool: ListElem<DEntry>, it: ListElem?<DEntry>, tmp: ListElem?<DEntry>, front: Work, back: Work,
                     all: set<object>)
    reads pool, front + back
  {
    Standing(pool, it, tmp, front, back) && Owned(pool, front, back, all)
  }

  /** What was listed and what is pending. */
  ghost predicate Accounts(sc: Scan, out: seq<Str>, front: Work, back: Work, total: multiset<Str>) {
    multiset(out) + Pending(sc, front) + Pending(sc, back) == total
  }

  lemma VisitAccounts(sc: Scan, out: seq<Str>, front: Work, front': Work, back: Work, total: multiset<Str>)
    requires Accounts(sc, out, front, back, total) && |back| > 0
    requires var e := back[0].entry;
      if Wanted(sc, e) then Pending(sc, front') + multiset{e.name} == Pending(sc, front) + Found(sc, e)
      else front' == front
    ensures var e := back[0].entry;
      Accounts(sc, if Wanted(sc, e) then out + [e.name] else out, front', back[1..], total)
  {
    var e := back[0].entry;
    OneLessPends(sc, back);
    if Wanted(sc, e) {
      assert multiset(out + [e.name]) == multiset(out) + multiset{e.name};
      assert multiset(out) + multiset{e.name} + Pending(sc, front') + Pending(sc, back[1..])
        == multiset(out) + (Pending(sc, front') + multiset{e.name}) + Pending(sc, back[1..]);
    }
  }

  /** One entry is visited, listed where wanted, and taken off the worklist. */
  method VisitEntry(pool: ListElem<DEntry>, el: ListElem<DEntry>, next: ListElem<DEntry>, sc: Scan, list: seq<Str>,
                    ghost front: Work, ghost back: Work, ghost all: set<object>, ghost total: multiset<Str>)
      returns (it: ListElem<DEntry>, tmp: ListElem?<DEntry>, out: seq<Str>, ghost front': Work, ghost back': Work,
               ghost all': set<object>)
    requires At(pool, el, next, front, back, all) && |back| > 0 && Accounts(sc, list, front, back, total)
    modifies all
    ensures At(pool, it, tmp, front', back', all') && fresh(all' - all)
    ensures Accounts(sc, out, front', back', total) && back' == back[1..]
    ensures Weight(front') + Weight(back') < Weight(front) + Weight(back)
  {
    front', back', all', out := front, back[1..], all, list;
    if Wanted(sc, el.entry) {
      front', all' := ScanDir(pool, el.entry, sc, front, back, all);
      out := list + [el.entry.name];
    }
    VisitAccounts(sc, list, front, front', back, total);
    OneLessPends(sc, back);
    assert el in back;
    DelFirstOfBack(el, pool, front', back, front' + back);
    Neighbours(pool, front', back');
    it := next;
    tmp := it.next;
  }

  lemma PassEnds(front: Work, back: Work)
    requires |back| == 0
    ensures front + back == front && back == []
  {
  }

  /** One pass of the safe iteration over the worklist. */
  method Pass(pool: ListElem<DEntry>, sc: Scan, list: seq<Str>, ghost s: Work, ghost all: set<object>,
              ghost total: multiset<Str>)
      returns (out: seq<Str>, ghost s': Work, ghost all': set<object>)
    requires Ring(pool, s) && |s| > 0 && Owned(pool, s, [], all) && Accounts(sc, list, s, [], total)
    modifies all
    ensures Ring(pool, s') && Owned(pool, s', [], all') && fresh(all' - all) && Accounts(sc, out, s', [], total)
    ensures Weight(s') < Weight(s)
  {
    var it: ListElem?<DEntry> := pool.next;
    var tmp := it.next;
    WalkStarts(pool, it, tmp, s);
    out, all' := list, all;
    ghost var front, back := [], s;
    while it != pool
      invariant At(pool, it, tmp, front, back, all') && fresh(all' - all)
      invariant Accounts(sc, out, front, back, total)
      invariant it != pool ==> |back| > 0 && it != null && tmp != null
      invariant Weight(front) + Weight(back) <= Weight(s)
      invariant |back| < |s| ==> Weight(front) + Weight(back) < Weight(s)
      decreases |back|
    {
      it, tmp, out, front, back, all' := VisitEntry(pool, it, tmp, sc, out, front, back, all', total);
    }
    PassEnds(front, back);
    s' := front;
  }

  /** What stat says of the starting path; one that is not a directory has no path below it. */
  datatype Start = NoSuchPath | StatFails | Started(tree: Tree)

  function RootEntry(root: Str, tree: Tree): DEntry {
    NewEntry(DEntry(root, 0, tree), tree, Str(""))
  }

  /** get_dir_list */
  method GetDirList(root: Str, st: Start, dev: nat, limit: int) returns (ret: int, out: seq<Str>)
    requires st.Started? && st.tree.kind.Dir? ==> st.tree.kind.dev == dev
    ensures ret == if st.StatFails? then -1 else 0
    ensures multiset(out) ==
      if st.Started? then Found(Scan(dev, limit), RootEntry(root, st.tree)) else multiset{}
  {
    out := [];
    if st.NoSuchPath? {
      return 0, [];
    }
    if st.StatFails? {
      return -1, [];
    }
    var sc, e := Scan(dev, limit), RootEntry(root, st.tree);
    var pool := new ListElem<DEntry>(e);
    HeadInit(pool);
    var el := new ListElem<DEntry>(e);
    Add(el, pool, []);
    ghost var s: Work, all: set<object>, total := [el], {pool, el}, Found(sc, e);
    assert [el] + [] == s;
    assert Pending(sc, s) == Found(sc, e) + Pending(sc, s[1..]);
    while pool.next != pool
      invariant Ring(pool, s) && Owned(pool, s, [], all) && fresh(all)
      invariant Accounts(sc, out, s, [], total)
      decreases Weight(s)
    {
      out, s, all := Pass(pool, sc, out, s, all, total);
    }
    assert |s| == 0;
    ret := 0;
  }
}
