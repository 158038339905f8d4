/** The cgroup directory tree and its removal without recursion: the walk of
    lib/cgroup.c that keeps two directory descriptors and a remembered name. */
module CgroupTree {
  import opened Common

  /** An inode number; an open directory descriptor is the inode it refers to. */
  type Ino = nat

  /** A directory entry name; the walk clears the remembered name to Cleared. */
  datatype Name = Cleared | Dot | DotDot | Called(text: string)

  datatype Errno = Success | EBusy | ENotEmpty | ENoEnt | EPerm

  /** Outcome of one look for a subdirectory. */
  datatype Move = Entered | NoDirs | Failed

  /** Attempts after which the removal of a busy directory is given up. */
  const PATIENCE: nat := 65

  const MAX_WAIT: nat := 500000
  const TIMEOUT: nat := 30 * 1000000

  // ---------------------------------------------------------------------
  // Values: a directory tree is a map from each directory to its parent.
  // ---------------------------------------------------------------------

  type Parents = map<Ino, Ino>

  /** "height" ranks every directory one above the directory that holds it. */
  ghost predicate Ranked(p: Parents, height: map<Ino, nat>) {
    forall d <- p {:trigger p[d]} :: d in height && p[d] in height && height[d] == height[p[d]] + 1
  }

  /** d lies strictly below root. */
  ghost predicate Below(p: Parents, height: map<Ino, nat>, root: Ino, d: Ino)
    requires Ranked(p, height)
    decreases if d in height then height[d] else 0
  {
    d in p && (p[d] == root || Below(p, height, root, p[d]))
  }

  ghost predicate HasKids(p: Parents, d: Ino) {
    exists e <- p :: p[e] == d
  }

  ghost function Subtree(p: Parents, height: map<Ino, nat>, root: Ino): set<Ino>
    requires Ranked(p, height)
  {
    set d <- p | Below(p, height, root, d)
  }

  lemma {:induction false} BelowIsDeeper(p: Parents, height: map<Ino, nat>, root: Ino, d: Ino)
    requires Ranked(p, height) && Below(p, height, root, d)
    ensures root in height && d in height && height[root] < height[d]
    decreases if d in height then height[d] else 0
  {
    if p[d] != root {
      BelowIsDeeper(p, height, root, p[d]);
    }
  }

  /** Something lies below root exactly when something lies directly in root. */
  lemma KidsIffSubtree(p: Parents, height: map<Ino, nat>, root: Ino)
    requires Ranked(p, height)
    ensures HasKids(p, root) <==> Subtree(p, height, root) != {}
  {
    if e :| e in p && p[e] == root {
      assert e in Subtree(p, height, root);
    }
    if d :| d in Subtree(p, height, root) {
      BelowNeedsKid(p, height, root, d);
    }
  }

  lemma {:induction false} BelowNeedsKid(p: Parents, height: map<Ino, nat>, root: Ino, d: Ino)
    requires Ranked(p, height) && Below(p, height, root, d)
    ensures HasKids(p, root)
    decreases if d in height then height[d] else 0
  {
    if p[d] != root {
      BelowNeedsKid(p, height, root, p[d]);
    }
  }

  /** Removing a directory without subdirectories leaves every other chain alone. */
  lemma {:induction false} BelowAfterRemoval(p: Parents, height: map<Ino, nat>, root: Ino, x: Ino, d: Ino)
    requires Ranked(p, height) && x in p && !HasKids(p, x)
    ensures Ranked(p - {x}, height)
    ensures Below(p - {x}, height, root, d) <==> Below(p, height, root, d) && d != x
    decreases if d in height then height[d] else 0
  {
    if d in p && d != x {
      assert p[d] != x;
      BelowAfterRemoval(p, height, root, x, p[d]);
    }
  }

  lemma SubtreeAfterRemoval(p: Parents, height: map<Ino, nat>, root: Ino, x: Ino)
    requires Ranked(p, height) && x in p && !HasKids(p, x)
    ensures Ranked(p - {x}, height)
    ensures Subtree(p - {x}, height, root) == Subtree(p, height, root) - {x}
  {
    forall d: Ino
      ensures Below(p - {x}, height, root, d) <==> Below(p, height, root, d) && d != x
    {
      BelowAfterRemoval(p, height, root, x, d);
    }
  }

  lemma MinusOneMore(p: Parents, gone: set<Ino>, x: Ino)
    ensures p - gone - {x} == p - (gone + {x})
  {
  }

  /** A common bound on the ranks of a finite tree. */
  ghost function Bound(height: map<Ino, nat>): (b: nat)
    ensures forall d <- height :: height[d] <= b
  {
    if height == map[] then 0
    else
      var d :| d in height;
      var rest := Bound(height - {d});
      assert forall e <- height :: e == d || (e in height - {d} && (height - {d})[e] == height[e]);
      if height[d] > rest then height[d] else rest
  }

  // ---------------------------------------------------------------------
  // The time spent on one busy directory.
  // ---------------------------------------------------------------------

  /** Pause after the k-th refusal, in microseconds: doubled up to MAX_WAIT. */
  function Pause(k: nat): (w: nat)
    ensures 0 < w <= MAX_WAIT
  {
    if k == 0 then 10000
    else if 2 * Pause(k - 1) > MAX_WAIT then MAX_WAIT else 2 * Pause(k - 1)
  }

  /** Time slept over the first k refusals. */
  function Slept(k: nat): nat {
    if k == 0 then 0 else Slept(k - 1) + Pause(k - 1)
  }

  lemma {:induction false} SleptInTheLongRun(k: nat)
    requires 6 <= k
    ensures Pause(k) == MAX_WAIT
    ensures Slept(k) == 630000 + (k - 6) * MAX_WAIT
  {
    if k == 6 {
      assert Pause(1) == 20000 && Pause(2) == 40000 && Pause(3) == 80000;
      assert Pause(4) == 160000 && Pause(5) == 320000 && Pause(6) == 500000;
      assert Slept(1) == 10000 && Slept(2) == 30000 && Slept(3) == 70000;
      assert Slept(4) == 150000 && Slept(5) == 310000 && Slept(6) == 630000;
    } else {
      SleptInTheLongRun(k - 1);
    }
  }

  lemma {:induction false} SleptGrows(j: nat, k: nat)
    requires j <= k
    ensures Slept(j) <= Slept(k)
  {
    if j < k {
      SleptGrows(j, k - 1);
    }
  }

  /** The half-minute timeout is reached by the 65th refusal and by no earlier one. */
  lemma PatienceIsExact(k: nat)
    ensures Slept(k) < TIMEOUT <==> k < PATIENCE
    ensures k == PATIENCE ==> Slept(k) < TIMEOUT + MAX_WAIT
  {
    SleptInTheLongRun(64);
    SleptInTheLongRun(65);
    if k < PATIENCE {
      SleptGrows(k, 64);
    } else {
      SleptGrows(65, k);
    }
  }

  // ---------------------------------------------------------------------
  // The mounted hierarchy.
  // ---------------------------------------------------------------------

  /** Directory names: usable, and different among the directories of one parent. */
  ghost predicate Named(p: Parents, nameOf: map<Ino, Name>, files: map<Ino, set<Name>>) {
    && p.Keys <= nameOf.Keys
    && (forall d <- p {:trigger nameOf[d]} :: nameOf[d].Called?)
    && (forall d <- p {:trigger nameOf[d]} :: p[d] in files ==> nameOf[d] !in files[p[d]])
    && (forall d <- p, e <- p {:trigger nameOf[d], nameOf[e]} :: p[d] == p[e] && nameOf[d] == nameOf[e] ==> d == e)
  }

  /** d is the directory called s in directory fd. */
  ghost predicate Resolves(p: Parents, nameOf: map<Ino, Name>, fd: Ino, s: Name, d: Ino)
    requires p.Keys <= nameOf.Keys
  {
    d in p && p[d] == fd && nameOf[d] == s
  }

  class Cgroupfs {
    var parent: Parents                   // the ".." entry of every directory
    const busy: map<Ino, nat>             // how many removal attempts are answered EBUSY
    const nameOf: map<Ino, Name>        // the name a directory has in its parent
    const files: map<Ino, set<Name>>    // control files: listed, but not directories
    const stuck: set<Ino>                 // never removable, for a reason other than EBUSY
    const closed: set<Ino>                // cannot be opened
    ghost const height: map<Ino, nat>

    constructor (parent: Parents, busy: map<Ino, nat>, nameOf: map<Ino, Name>,
                 files: map<Ino, set<Name>>, stuck: set<Ino>, closed: set<Ino>,
                 ghost height: map<Ino, nat>)
      requires Ranked(parent, height) && Named(parent, nameOf, files)
      ensures Valid()
      ensures this.parent == parent && this.busy == busy && this.nameOf == nameOf
      ensures this.files == files && this.stuck == stuck && this.closed == closed && this.height == height
    {
      this.parent, this.busy, this.nameOf, this.files := parent, busy, nameOf, files;
      this.stuck, this.closed, this.height := stuck, closed, height;
    }

    ghost predicate Valid()
      reads this
    {
      Ranked(parent, height) && Named(parent, nameOf, files)
    }

    function BusyOf(d: Ino): nat {
      if d in busy then busy[d] else 0
    }

    /** The removal of d is accepted once it has no subdirectories. */
    predicate Yields(d: Ino) {
      d !in stuck && BusyOf(d) < PATIENCE
    }

    /** The walk can enter d, and its removal is accepted once it is empty. */
    predicate Removable(d: Ino) {
      d !in closed && Yields(d)
    }

    method Lookup(fd: Ino, s: Name) returns (r: Option<Ino>)
      requires Valid()
      ensures match r
              case Some(d) => Resolves(parent, nameOf, fd, s, d)
              case None => forall d :: !Resolves(parent, nameOf, fd, s, d)
    {
      if d :| d in parent && parent[d] == fd && nameOf[d] == s {
        r := Some(d);
      } else {
        r := None;
      }
    }

    /** unlinkat(fd, s, AT_REMOVEDIR), after "tries" refused attempts on the same
        directory. Control files do not keep a cgroup alive. */
    method Unlinkat(fd: Ino, s: Name, tries: nat, ghost d: Ino) returns (r: Errno)
      requires Valid() && Resolves(parent, nameOf, fd, s, d)
      modifies this
      ensures Valid() && r != ENoEnt
      ensures r == ENotEmpty <==> HasKids(old(parent), d)
      ensures r == EPerm <==> !HasKids(old(parent), d) && d in stuck
      ensures r == EBusy <==> !HasKids(old(parent), d) && d !in stuck && tries < BusyOf(d)
      ensures parent == if r == Success then old(parent) - {d} else old(parent)
    {
      var target := Lookup(fd, s);
      if target.None? {
        return ENoEnt;
      }
      var x := target.value;
      if exists e <- parent :: parent[e] == x {
        return ENotEmpty;
      }
      if x in stuck {
        return EPerm;
      }
      if tries < BusyOf(x) {
        return EBusy;
      }
      parent := parent - {x};
      return Success;
    }

    /** Retry while the kernel answers EBUSY, for about half a minute. */
    method RmdirRetry(fd: Ino, s: Name, ghost d: Ino) returns (ret: int)
      requires Valid() && Resolves(parent, nameOf, fd, s, d)
      modifies this
      ensures Valid()
      ensures ret == if !HasKids(old(parent), d) && Yields(d) then 0 else -1
      ensures parent == if ret == 0 then old(parent) - {d} else old(parent)
    {
      var total, wait, tries := 0, 10000, 0;
      while true
        invariant Valid() && parent == old(parent)
        invariant total == Slept(tries) && wait == Pause(tries) && total < TIMEOUT
        invariant tries > 0 ==> !HasKids(parent, d) && d !in stuck && tries <= BusyOf(d)
        decreases TIMEOUT - total
      {
        PatienceIsExact(tries);
        PatienceIsExact(tries + 1);
        var reply := Unlinkat(fd, s, tries, d);
        if reply == Success {
          return 0;
        }
        if reply != EBusy {
          break;
        }
        total := total + wait;
        wait := wait * 2;
        if wait > MAX_WAIT {
          wait := MAX_WAIT;
        }
        tries := tries + 1;
        if total >= TIMEOUT {
          break;
        }
      }
      return -1;
    }
  }

  // ---------------------------------------------------------------------
  // The walk.
  // ---------------------------------------------------------------------

  /** Enter the first subdirectory of fd that the listing, in whatever order it
      comes, happens to name. */
  method GotoNextDir(fs: Cgroupfs, parentfd: Option<Ino>, fd: Ino, name: Name)
      returns (move: Move, parentfd': Option<Ino>, fd': Ino, name': Name)
    requires fs.Valid()
    ensures move == NoDirs <==> !HasKids(fs.parent, fd)
    ensures move == Entered ==> parentfd' == Some(fd) && fd' !in fs.closed
                                && Resolves(fs.parent, fs.nameOf, fd, name', fd')
    ensures move != Entered ==> parentfd' == parentfd && fd' == fd && name' == name
    ensures move == Failed ==> exists d <- fs.parent :: fs.parent[d] == fd && !fs.Removable(d)
  {
    parentfd', fd', name' := parentfd, fd, name;
    var listing := {Dot, DotDot} + (if fd in fs.files then fs.files[fd] else {})
                   + set d <- fs.parent | fs.parent[d] == fd :: fs.nameOf[d];
    while listing != {}
      invariant forall d <- fs.parent :: fs.parent[d] == fd ==> fs.nameOf[d] in listing
      decreases |listing|
    {
      var ent :| ent in listing;
      listing := listing - {ent};
      if ent == Dot || ent == DotDot {
        continue;
      }
      var found := fs.Lookup(fd, ent);
      if found.Some? {
        var next := found.value;
        if next in fs.closed {
          return Failed, parentfd, fd, name;
        }
        return Entered, Some(fd), next, ent;
      }
      assert forall d <- fs.parent :: !Resolves(fs.parent, fs.nameOf, fd, ent, d);
    }
    return NoDirs, parentfd, fd, name;
  }

  /** The half of the loop body that runs in a directory without subdirectories: move
      both descriptors up, then remove the directory left if its name is remembered. */
  method Climb(fs: Cgroupfs, root: Ino, parentfd: Ino, fd: Ino, name: Name)
      returns (rc: int, parentfd': Option<Ino>, fd': Ino)
    requires fs.Valid() && root in fs.parent
    requires fd in Subtree(fs.parent, fs.height, root) && !HasKids(fs.parent, fd)
    requires parentfd == fs.parent[fd]
    requires name != Cleared ==> fs.nameOf[fd] == name
    modifies fs
    ensures fs.Valid() && fd' == old(fs.parent[fd])
    ensures rc == if name == Cleared || fs.Yields(fd) then 0 else -1
    ensures rc != 0 || name == Cleared ==> fs.parent == old(fs.parent)
    ensures rc == 0 && name != Cleared ==>
      && fs.parent == old(fs.parent) - {fd}
      && Subtree(fs.parent, fs.height, root) == old(Subtree(fs.parent, fs.height, root)) - {fd}
    ensures fd' != root ==> fd' in Subtree(fs.parent, fs.height, root) && parentfd' == Some(fs.parent[fd'])
    ensures fs.height[root] < fs.height[fd] == fs.height[fd'] + 1
  {
    BelowIsDeeper(fs.parent, fs.height, root, fd);
    assert parentfd != root ==> Below(fs.parent, fs.height, root, parentfd);
    assert parentfd != root ==> parentfd in Subtree(fs.parent, fs.height, root);
    SubtreeAfterRemoval(fs.parent, fs.height, root, fd);
    fd' := parentfd;
    parentfd' := Some(fs.parent[parentfd]);
    rc := 0;
    if name != Cleared {
      rc := fs.RmdirRetry(fd', name, fd);
    }
  }

  /** The loop of rm_tree: descend while there is a subdirectory, otherwise climb and
      remove the directory just left if its name is still remembered. Whatever the
      order of the listings, it ends; it removes nothing but directories below root;
      and it succeeds exactly when each of them can be opened and removed. */
  method RemoveBelow(fs: Cgroupfs, root: Ino) returns (ret: int, ghost gone: set<Ino>)
    requires fs.Valid() && root in fs.parent
    modifies fs
    ensures fs.Valid() && root in fs.parent
    ensures fs.parent == old(fs.parent) - gone
    ensures gone <= old(Subtree(fs.parent, fs.height, root))
    ensures Subtree(fs.parent, fs.height, root) == old(Subtree(fs.parent, fs.height, root)) - gone
    ensures forall d <- gone :: fs.Removable(d)
    ensures ret == 0 || ret == -1
    ensures ret == 0 ==> gone == old(Subtree(fs.parent, fs.height, root))
    ensures ret == -1 ==> exists d <- Subtree(fs.parent, fs.height, root) :: !fs.Removable(d)
  {
    var fd, parentfd, name, level := root, None, Cleared, 0;
    ret, gone := 0, {};

    ghost var below := Subtree(fs.parent, fs.height, root);
    ghost var left := below;
    ghost var deepest := Bound(fs.height);
    while level >= 0
      invariant fs.Valid() && ret == 0 && root in fs.parent
      invariant left == Subtree(fs.parent, fs.height, root)
      invariant gone <= below && left == below - gone
      invariant fs.parent == old(fs.parent) - gone
      invariant forall d <- gone :: fs.Removable(d)
      invariant fd == root || fd in left
      invariant level + fs.height[root] == fs.height[fd]
      invariant fd != root ==> parentfd == Some(fs.parent[fd])
      invariant name != Cleared ==> fd != root && fs.nameOf[fd] == name && fd !in fs.closed
      decreases left, name == Cleared, if name == Cleared then fs.height[fd] else deepest - fs.height[fd]
    {
      var move;
      move, parentfd, fd, name := GotoNextDir(fs, parentfd, fd, name);
      if move == Entered {
        level := level + 1;
        continue;
      } else if move == Failed {
        ghost var culprit :| culprit in fs.parent && fs.parent[culprit] == fd && !fs.Removable(culprit);
        assert culprit in left;
        ret := -1;
        break;
      }
      if fd == root {
        KidsIffSubtree(fs.parent, fs.height, root);
        assert below <= gone;
        break;
      }
      ghost var child := fd;
      var rc;
      rc, parentfd, fd := Climb(fs, root, parentfd.value, fd, name);
      if rc != 0 {
        assert child in left;
        ret := -1;
        break;
      }
      if name != Cleared {
        MinusOneMore(old(fs.parent), gone, child);
        gone, left := gone + {child}, left - {child};
      }
      name := Cleared;
      level := level - 1;
    }
  }

  /** Removal of a cgroup hierarchy. Success is reported exactly when every directory
      below the path can be opened and removed; then all of them are gone, and the
      path itself too unless its one removal attempt is refused. Otherwise exactly the
      directories still below the path survive with it. Nothing outside ever changes. */
  method RmTree(fs: Cgroupfs, path: Option<Ino>) returns (ret: int)
    requires fs.Valid()
    requires path.Some? ==> path.value in fs.parent
    modifies fs
    ensures fs.Valid()
    ensures path.None? ==> ret == 0 && fs.parent == old(fs.parent)
    ensures path.Some? && path.value in fs.closed ==> ret == -1 && fs.parent == old(fs.parent)
    ensures path.Some? && path.value !in fs.closed ==>
      var root, below := path.value, old(Subtree(fs.parent, fs.height, path.value));
      && ret == (if forall d <- below :: fs.Removable(d) then 0 else -1)
      && (ret == 0 ==> fs.parent == old(fs.parent) - below
                                    - if fs.BusyOf(root) == 0 && root !in fs.stuck then {root} else {})
      && (ret == -1 ==>
            var kept := Subtree(fs.parent, fs.height, root);
            kept != {} && kept <= below && fs.parent == old(fs.parent) - (below - kept))
  {
    if path.None? {
      return 0;
    }
    var root := path.value;
    if root in fs.closed {
      return -1;
    }
    ghost var gone;
    ret, gone := RemoveBelow(fs, root);
    KidsIffSubtree(fs.parent, fs.height, root);
    var rc := fs.Unlinkat(fs.parent[root], fs.nameOf[root], 0, root);
  }
}
