/** Operations over all disks of a container, with a rollback over the disks already done
    when one of them fails (lib/image.c). */
module DiskRollback {
  import opened CircularList
  import opened Common

  /** What was written since the parent snapshot was made. */
  datatype Delta = Delta(parent: Option<Str>, data: map<nat, nat>)

  /** A ploop image: its snapshots by guid, the delta now written to, and the component
      names its snapshots are mounted under. */
  datatype Image = Image(snaps: map<Str, Delta>, top: Delta, mounts: set<Str>)

  datatype Request =
    | Create(guid: Str)
    | Delete(guid: Str)
    | SwitchTo(guid: Str, save: Option<Str>)
    | SwitchBack(guid: Str)
    | Mount(guid: Str, component: Str)
    | Umount(component: Str)

  function EmptyOn(guid: Str): Delta {
    Delta(Some(guid), map[])
  }

  predicate Closed(im: Image) {
    && (forall h <- im.snaps :: im.snaps[h].parent.Some? ==> im.snaps[h].parent.value in im.snaps)
    && (im.top.parent.Some? ==> im.top.parent.value in im.snaps)
  }

  function Kids(im: Image, guid: Str): set<Str> {
    set h <- im.snaps | im.snaps[h].parent == Some(guid)
  }

  /** A snapshot can be merged into its only child. */
  predicate Deletable(im: Image, guid: Str) {
    |Kids(im, guid)| + (if im.top.parent == Some(guid) then 1 else 0) <= 1
  }

  /** Whether the image allows the request; deleting what is not there is no failure,
      and neither is unmounting what is not mounted. */
  predicate Allows(im: Image, req: Request) {
    match req
    case Create(g) => g !in im.snaps
    case Delete(g) => g !in im.snaps || Deletable(im, g)
    case SwitchTo(g, save) => g in im.snaps && (save.Some? ==> save.value !in im.snaps)
    case SwitchBack(g) => g in im.snaps
    case Mount(g, c) => g in im.snaps && c !in im.mounts
    case Umount(c) => true
  }

  /** A child of a deleted snapshot takes its place and keeps what both had written. */
  function Rebased(d: Delta, guid: Str, gone: Delta): Delta {
    if d.parent == Some(guid) then Delta(gone.parent, gone.data + d.data) else d
  }

  function Without(im: Image, guid: Str): Image
    requires guid in im.snaps
  {
    Image(map h <- im.snaps | h != guid :: Rebased(im.snaps[h], guid, im.snaps[guid]),
          Rebased(im.top, guid, im.snaps[guid]), im.mounts)
  }

  function Effect(im: Image, req: Request): Image
    requires Allows(im, req)
  {
    match req
    case Create(g) => im.(snaps := im.snaps[g := im.top], top := EmptyOn(g))
    case Delete(g) => if g in im.snaps then Without(im, g) else im
    case SwitchTo(g, save) =>
      im.(snaps := if save.Some? then im.snaps[save.value := im.top] else im.snaps, top := EmptyOn(g))
    case SwitchBack(g) => im.(snaps := im.snaps - {g}, top := im.snaps[g])
    case Mount(g, c) => im.(mounts := im.mounts + {c})
    case Umount(c) => im.(mounts := im.mounts - {c})
  }

  // ---------------------------------------------------------------------
  // Undoing one request.
  // ---------------------------------------------------------------------

  lemma DeleteUndoesCreate(im: Image, g: Str)
    requires Closed(im) && Allows(im, Create(g))
    ensures var im' := Effect(im, Create(g)); Allows(im', Delete(g)) && Effect(im', Delete(g)) == im
  {
    var im' := Effect(im, Create(g));
    assert Kids(im', g) == {};
    assert im.top.data + map[] == im.top.data;
    var r := Without(im', g);
    assert r.snaps == im.snaps;
    assert r.top == im.top;
  }

  lemma SwitchBackUndoesSwitch(im: Image, g: Str, save: Str)
    requires Allows(im, SwitchTo(g, Some(save)))
    ensures var im' := Effect(im, SwitchTo(g, Some(save)));
      Allows(im', SwitchBack(save)) && Effect(im', SwitchBack(save)) == im
  {
    assert im.snaps[save := im.top] - {save} == im.snaps;
  }

  lemma UmountUndoesMount(im: Image, g: Str, c: Str)
    requires Allows(im, Mount(g, c))
    ensures var im' := Effect(im, Mount(g, c)); Effect(im', Umount(c)) == im
  {
    assert im.mounts + {c} - {c} == im.mounts;
  }

  // ---------------------------------------------------------------------
  // Disks.
  // ---------------------------------------------------------------------

  class Disk {
    var image: Image
    /** Not kept in a backup. */
    const permanent: bool
    const root: bool
    /** Which requests fail for reasons outside the image. */
    const refuses: Request -> bool

    constructor (image: Image, permanent: bool, root: bool, refuses: Request -> bool)
      ensures this.image == image
      ensures this.permanent == permanent && this.root == root && this.refuses == refuses
    {
      this.image, this.permanent, this.root, this.refuses := image, permanent, root, refuses;
    }

    method Perform(req: Request) returns (ok: bool)
      modifies this`image
      ensures ok == Works(this, old(image), req)
      ensures image == if ok then Effect(old(image), req) else old(image)
    {
      ok := Works(this, image, req);
      if ok {
        image := Effect(image, req);
      }
    }
  }

  predicate Works(d: Disk, im: Image, req: Request) {
    !d.refuses(req) && Allows(im, req)
  }

  /** Snapshots are made of permanent disks only; every other request is for all disks. */
  predicate Targeted(d: Disk, req: Request) {
    req.Create? ==> d.permanent
  }

  predicate Fails(d: Disk, im: Image, req: Request) {
    Targeted(d, req) && !Works(d, im, req)
  }

  function Tried(d: Disk, im: Image, req: Request): Image {
    if Works(d, im, req) then Effect(im, req) else im
  }

  function Done(d: Disk, im: Image, req: Request): Image {
    if Targeted(d, req) then Tried(d, im, req) else im
  }

  function FirstFailure(ds: seq<Disk>, ims: seq<Image>, req: Request, from: nat): (k: nat)
    requires |ds| == |ims| && from <= |ds|
    ensures from <= k <= |ds| && (k < |ds| ==> Fails(ds[k], ims[k], req))
    ensures forall i :: from <= i < k ==> !Fails(ds[i], ims[i], req)
    decreases |ds| - from
  {
    if from == |ds| || Fails(ds[from], ims[from], req) then from else FirstFailure(ds, ims, req, from + 1)
  }

  /** Every disk once the request was carried out, or rolled back with undo where it came
      before the first failure. */
  function Outcome(ds: seq<Disk>, ims: seq<Image>, req: Request, undo: Option<Request>): (r: seq<Image>)
    requires |ds| == |ims|
    ensures |r| == |ims|
  {
    var k := FirstFailure(ds, ims, req, 0);
    seq(|ds|, i requires 0 <= i < |ds| =>
      if k <= i < |ds| then ims[i]
      else if k < |ds| && undo.Some? then Tried(ds[i], Done(ds[i], ims[i], req), undo.value)
      else Done(ds[i], ims[i], req))
  }

  // ---------------------------------------------------------------------
  // All or nothing.
  // ---------------------------------------------------------------------

  lemma UndoneCreate(d: Disk, im: Image, g: Str)
    requires Closed(im) && !d.refuses(Delete(g)) && !Fails(d, im, Create(g))
    ensures Tried(d, Done(d, im, Create(g)), Delete(g)) == im <==>
      d.permanent || g !in im.snaps || !Deletable(im, g)
  {
    if d.permanent {
      DeleteUndoesCreate(im, g);
    } else if g in im.snaps && Deletable(im, g) {
      assert g !in Without(im, g).snaps;
    }
  }

  /** If a snapshot cannot be made of some disk, all disks are as they were exactly when no
      earlier disk is one that is skipped but has a snapshot of the same guid to delete. */
  lemma CreateAllOrNothingExactly(ds: seq<Disk>, ims: seq<Image>, g: Str)
    requires |ds| == |ims| && (forall im <- ims :: Closed(im)) && (forall d <- ds :: !d.refuses(Delete(g)))
    ensures var k := FirstFailure(ds, ims, Create(g), 0);
      k < |ds| ==>
      (Outcome(ds, ims, Create(g), Some(Delete(g))) == ims <==>
       forall i :: 0 <= i < k ==> ds[i].permanent || g !in ims[i].snaps || !Deletable(ims[i], g))
  {
    var k, r := FirstFailure(ds, ims, Create(g), 0), Outcome(ds, ims, Create(g), Some(Delete(g)));
    if k < |ds| {
      forall i | 0 <= i < k
        ensures r[i] == ims[i] <==> ds[i].permanent || g !in ims[i].snaps || !Deletable(ims[i], g)
      {
        UndoneCreate(ds[i], ims[i], g);
      }
      assert forall i :: k <= i < |ds| ==> r[i] == ims[i];
      if forall i :: 0 <= i < k ==> r[i] == ims[i] {
        assert r == ims;
      }
    }
  }

  /** Two disks with a snapshot of that guid, the first one in a backup: the second one fails, and the
      first one loses its snapshot. */
  lemma SkippedDiskLoses(skipped: Disk, failing: Disk, g: Str)
    requires !skipped.permanent && failing.permanent && !skipped.refuses(Delete(g))
    ensures var im := Image(map[g := Delta(None, map[0 := 1])], Delta(None, map[]), {});
      var r := Outcome([skipped, failing], [im, im], Create(g), Some(Delete(g)));
      g in im.snaps && g !in r[0].snaps
  {
    var im := Image(map[g := Delta(None, map[0 := 1])], Delta(None, map[]), {});
    var k := FirstFailure([skipped, failing], [im, im], Create(g), 0);
    assert Fails([skipped, failing][1], [im, im][1], Create(g));
    assert !Fails([skipped, failing][0], [im, im][0], Create(g));
    assert k == 1;
    assert Kids(im, g) == {};
  }

  lemma UndoneSwitch(d: Disk, im: Image, g: Str, save: Str)
    requires !d.refuses(SwitchBack(save)) && !Fails(d, im, SwitchTo(g, Some(save)))
    ensures Tried(d, Done(d, im, SwitchTo(g, Some(save))), SwitchBack(save)) == im
  {
    SwitchBackUndoesSwitch(im, g, save);
  }

  lemma UndoneMount(d: Disk, im: Image, g: Str, c: Str)
    requires !d.refuses(Umount(c)) && !Fails(d, im, Mount(g, c))
    ensures Tried(d, Done(d, im, Mount(g, c)), Umount(c)) == im
  {
    UmountUndoesMount(im, g, c);
  }

  lemma UndoneEverywhere(ds: seq<Disk>, ims: seq<Image>, req: Request, undo: Request)
    requires |ds| == |ims|
    requires forall i :: 0 <= i < FirstFailure(ds, ims, req, 0) ==>
      Tried(ds[i], Done(ds[i], ims[i], req), undo) == ims[i]
    ensures FirstFailure(ds, ims, req, 0) < |ds| ==> Outcome(ds, ims, req, Some(undo)) == ims
  {
  }

  /** If some disk cannot be switched and the old state was to be saved, all disks are as they were. */
  lemma SwitchAllOrNothing(ds: seq<Disk>, ims: seq<Image>, g: Str, save: Str)
    requires |ds| == |ims| && (forall d <- ds :: !d.refuses(SwitchBack(save)))
    ensures FirstFailure(ds, ims, SwitchTo(g, Some(save)), 0) < |ds| ==>
      Outcome(ds, ims, SwitchTo(g, Some(save)), Some(SwitchBack(save))) == ims
  {
    var req := SwitchTo(g, Some(save));
    forall i | 0 <= i < FirstFailure(ds, ims, req, 0)
      ensures Tried(ds[i], Done(ds[i], ims[i], req), SwitchBack(save)) == ims[i]
    {
      UndoneSwitch(ds[i], ims[i], g, save);
    }
    UndoneEverywhere(ds, ims, req, SwitchBack(save));
  }

  /** Without a saved state the disks before the failure stay switched, so nothing is lost
      only where their top delta was already empty on that snapshot. */
  lemma SwitchWithoutSaveExactly(ds: seq<Disk>, ims: seq<Image>, g: Str)
    requires |ds| == |ims|
    ensures var k := FirstFailure(ds, ims, SwitchTo(g, None), 0);
      k < |ds| ==>
      (Outcome(ds, ims, SwitchTo(g, None), None) == ims <==> forall i :: 0 <= i < k ==> ims[i].top == EmptyOn(g))
  {
    var req := SwitchTo(g, None);
    var k, r := FirstFailure(ds, ims, req, 0), Outcome(ds, ims, req, None);
    assert forall i :: 0 <= i < k ==> r[i].top == EmptyOn(g) && r[i] == ims[i].(top := EmptyOn(g));
    if k < |ds| && forall i :: 0 <= i < k ==> ims[i].top == EmptyOn(g) {
      assert r == ims;
    }
  }

  /** The second of two disks does not have the snapshot: what was written on the first one since its
      own snapshot is lost. */
  lemma SwitchLoses(first: Disk, second: Disk, g: Str)
    requires !first.refuses(SwitchTo(g, None))
    ensures var im := Image(map[g := Delta(None, map[])], Delta(Some(g), map[0 := 1]), {});
      var r := Outcome([first, second], [im, Image(map[], Delta(None, map[]), {})], SwitchTo(g, None), None);
      0 in im.top.data && 0 !in r[0].top.data
  {
    var im := Image(map[g := Delta(None, map[])], Delta(Some(g), map[0 := 1]), {});
    var im' := Image(map[], Delta(None, map[]), {});
    var k := FirstFailure([first, second], [im, im'], SwitchTo(g, None), 0);
    assert Fails([first, second][1], [im, im'][1], SwitchTo(g, None));
    assert !Fails([first, second][0], [im, im'][0], SwitchTo(g, None));
    assert k == 1;
  }

  /** If the snapshot of some disk cannot be mounted, all disks are as they were. */
  lemma MountAllOrNothing(ds: seq<Disk>, ims: seq<Image>, g: Str, c: Str)
    requires |ds| == |ims| && (forall d <- ds :: !d.refuses(Umount(c)))
    ensures FirstFailure(ds, ims, Mount(g, c), 0) < |ds| ==>
      Outcome(ds, ims, Mount(g, c), Some(Umount(c))) == ims
  {
    var req := Mount(g, c);
    forall i | 0 <= i < FirstFailure(ds, ims, req, 0)
      ensures Tried(ds[i], Done(ds[i], ims[i], req), Umount(c)) == ims[i]
    {
      UndoneMount(ds[i], ims[i], g, c);
    }
    UndoneEverywhere(ds, ims, req, Umount(c));
  }

  /** Where nothing fails every disk asked has changed, and the others have not. */
  lemma SuccessReachesEveryTarget(ds: seq<Disk>, ims: seq<Image>, req: Request, undo: Option<Request>)
    requires |ds| == |ims| && FirstFailure(ds, ims, req, 0) == |ds|
    requires req.Create? || req.Mount? || (req.SwitchTo? && req.save.Some?)
    ensures forall i :: 0 <= i < |ds| ==>
      (Outcome(ds, ims, req, undo)[i] != ims[i] <==> Targeted(ds[i], req))
    ensures forall i :: 0 <= i < |ds| && Targeted(ds[i], req) ==>
      var r := Outcome(ds, ims, req, undo)[i];
      match req
      case Create(g) => r.snaps == ims[i].snaps[g := ims[i].top]
      case SwitchTo(g, save) => r.snaps == ims[i].snaps[save.value := ims[i].top] && r.top.parent == Some(g)
      case Mount(g, c) => c in r.mounts
      case _ => true
  {
    forall i | 0 <= i < |ds| && Targeted(ds[i], req)
      ensures Done(ds[i], ims[i], req) != ims[i]
    {
      var r := Effect(ims[i], req);
      match req
      case Create(g) => assert g in r.snaps;
      case SwitchTo(g, save) => assert save.value in r.snaps;
      case Mount(g, c) => assert c in r.mounts;
    }
  }

  // ---------------------------------------------------------------------
  // The loops.
  // ---------------------------------------------------------------------

  /** The list s holds these disks, no disk twice. */
  ghost predicate Lists(s: seq<ListElem<Disk>>, ds: seq<Disk>) {
    && |s| == |ds|
    && (forall i :: 0 <= i < |s| ==> s[i].entry == ds[i])
    && (forall i, j :: 0 <= i < j < |ds| ==> ds[i] != ds[j])
  }

  /** The rollback: undo on every disk in front of the one that failed, the last one first. */
  method RollBack(pos: ListElem<Disk>, head: ListElem<Disk>, undo: Request, ghost s: seq<ListElem<Disk>>,
                  ghost ds: seq<Disk>, ghost k: nat)
    requires Ring(head, s) && Lists(s, ds) && k < |s| && pos == s[k]
    modifies ds`image
    ensures forall i :: 0 <= i < k ==> ds[i].image == Tried(ds[i], old(ds[i].image), undo)
    ensures forall i :: k <= i < |ds| ==> ds[i].image == old(ds[i].image)
  {
    var it := pos.prev;
    ghost var n: nat := k;
    while it != head
      invariant n <= k && it == Cursor(head, s, n - 1)
      invariant forall i :: 0 <= i < n ==> ds[i].image == old(ds[i].image)
      invariant forall i :: n <= i < k ==> ds[i].image == Tried(ds[i], old(ds[i].image), undo)
      invariant forall i :: k <= i < |ds| ==> ds[i].image == old(ds[i].image)
      decreases n
    {
      n := n - 1;
      assert it.entry == ds[n];
      var _ := it.entry.Perform(undo);
      it := it.prev;
    }
  }

  /** The first k disks have done what was asked, the others are as they were. */
  ghost predicate Doing(ds: seq<Disk>, ims: seq<Image>, req: Request, k: nat)
    reads ds
  {
    && |ims| == |ds| && k <= |ds|
    && (forall i :: 0 <= i < k ==> !Fails(ds[i], ims[i], req) && ds[i].image == Done(ds[i], ims[i], req))
    && (forall i :: k <= i < |ds| ==> ds[i].image == ims[i])
  }

  /** The disks end as this outcome says. */
  ghost predicate Ended(ds: seq<Disk>, ims: seq<Image>, req: Request, undo: Option<Request>)
    reads ds
  {
    |ims| == |ds| && forall i :: 0 <= i < |ds| ==> ds[i].image == Outcome(ds, ims, req, undo)[i]
  }

  lemma FirstFailureIs(ds: seq<Disk>, ims: seq<Image>, req: Request, k: nat)
    requires |ims| == |ds| && k <= |ds| && (k < |ds| ==> Fails(ds[k], ims[k], req))
    requires forall i :: 0 <= i < k ==> !Fails(ds[i], ims[i], req)
    ensures FirstFailure(ds, ims, req, 0) == k
  {
  }

  /** A pass over the list stands at disk k, and those before it are done. */
  ghost predicate At(head: ListElem<Disk>, it: ListElem?<Disk>, s: seq<ListElem<Disk>>, ds: seq<Disk>,
                     ims: seq<Image>, req: Request, k: nat)
    reads head, s, ds
  {
    && Ring(head, s) && Lists(s, ds) && Doing(ds, ims, req, k)
    && it == Cursor(head, s, k) && (it != head <==> k < |s|)
  }

  /** Asks the disk the pass stands at, if it is to be asked; one that fails is left as it was. */
  method Ask(it: ListElem<Disk>, ghost head: ListElem<Disk>, req: Request, ghost s: seq<ListElem<Disk>>,
             ghost ds: seq<Disk>, ghost ims: seq<Image>, ghost k: nat) returns (ok: bool, next: ListElem<Disk>)
    requires At(head, it, s, ds, ims, req, k) && k < |s|
    modifies ds`image
    ensures ok == !Fails(ds[k], ims[k], req)
    ensures if ok then At(head, next, s, ds, ims, req, k + 1) else At(head, it, s, ds, ims, req, k)
  {
    var d := it.entry;
    assert d == ds[k];
    ok := true;
    if !req.Create? || d.permanent {
      ok := d.Perform(req);
    }
    next := it.next;
  }

  /** Rolls back what was done in front of the disk that failed. */
  method RollBackFrom(pos: ListElem<Disk>, head: ListElem<Disk>, ghost req: Request, undo: Request,
                      ghost s: seq<ListElem<Disk>>, ghost ds: seq<Disk>, ghost ims: seq<Image>, ghost k: nat)
    requires At(head, pos, s, ds, ims, req, k) && k < |s| && Fails(ds[k], ims[k], req)
    modifies ds`image
    ensures FirstFailure(ds, ims, req, 0) == k && Ended(ds, ims, req, Some(undo))
  {
    FirstFailureIs(ds, ims, req, k);
    RollBack(pos, head, undo, s, ds, k);
  }

  lemma DoneIsEnded(ds: seq<Disk>, ims: seq<Image>, req: Request, undo: Option<Request>)
    requires Doing(ds, ims, req, |ds|)
    ensures FirstFailure(ds, ims, req, 0) == |ds| && Ended(ds, ims, req, undo)
  {
    FirstFailureIs(ds, ims, req, |ds|);
  }

  lemma StoppedIsEnded(ds: seq<Disk>, ims: seq<Image>, req: Request, k: nat)
    requires Doing(ds, ims, req, k) && k < |ds| && Fails(ds[k], ims[k], req)
    ensures FirstFailure(ds, ims, req, 0) == k && Ended(ds, ims, req, None)
  {
    FirstFailureIs(ds, ims, req, k);
  }

  /** env_create_disk_snapshot */
  method CreateSnapshot(head: ListElem<Disk>, g: Str, ghost s: seq<ListElem<Disk>>, ghost ds: seq<Disk>,
                        ghost ims: seq<Image>) returns (ok: bool)
    requires Ring(head, s) && Lists(s, ds) && Doing(ds, ims, Create(g), 0)
    modifies ds`image
    ensures ok <==> FirstFailure(ds, ims, Create(g), 0) == |ds|
    ensures Ended(ds, ims, Create(g), Some(Delete(g)))
  {
    var it: ListElem?<Disk> := head.next;
    ghost var k: nat := 0;
    while it != head
      invariant At(head, it, s, ds, ims, Create(g), k) && it != null
      decreases |s| - k
    {
      var next;
      ok, next := Ask(it, head, Create(g), s, ds, ims, k);
      if !ok {
        RollBackFrom(it, head, Create(g), Delete(g), s, ds, ims, k);
        return;
      }
      it := next;
      k := k + 1;
    }
    ok := true;
    DoneIsEnded(ds, ims, Create(g), Some(Delete(g)));
  }

  function BackTo(save: Option<Str>): Option<Request> {
    if save.Some? then Some(SwitchBack(save.value)) else None
  }

  /** Only with a state to go back to is there a rollback. */
  method SwitchFailed(pos: ListElem<Disk>, head: ListElem<Disk>, g: Str, save: Option<Str>,
                      ghost s: seq<ListElem<Disk>>, ghost ds: seq<Disk>, ghost ims: seq<Image>, ghost k: nat)
    requires At(head, pos, s, ds, ims, SwitchTo(g, save), k) && k < |s| && Fails(ds[k], ims[k], SwitchTo(g, save))
    modifies ds`image
    ensures FirstFailure(ds, ims, SwitchTo(g, save), 0) == k && Ended(ds, ims, SwitchTo(g, save), BackTo(save))
  {
    if save.Some? {
      RollBackFrom(pos, head, SwitchTo(g, save), SwitchBack(save.value), s, ds, ims, k);
    } else {
      StoppedIsEnded(ds, ims, SwitchTo(g, save), k);
    }
  }

  /** vzctl2_switch_snapshot */
  method SwitchSnapshot(head: ListElem<Disk>, g: Str, save: Option<Str>, ghost s: seq<ListElem<Disk>>,
                        ghost ds: seq<Disk>, ghost ims: seq<Image>) returns (ok: bool)
    requires Ring(head, s) && Lists(s, ds) && Doing(ds, ims, SwitchTo(g, save), 0)
    modifies ds`image
    ensures ok <==> FirstFailure(ds, ims, SwitchTo(g, save), 0) == |ds|
    ensures Ended(ds, ims, SwitchTo(g, save), BackTo(save))
  {
    var it: ListElem?<Disk> := head.next;
    ghost var k: nat := 0;
    while it != head
      invariant At(head, it, s, ds, ims, SwitchTo(g, save), k) && it != null
      decreases |s| - k
    {
      var next;
      ok, next := Ask(it, head, SwitchTo(g, save), s, ds, ims, k);
      if !ok {
        SwitchFailed(it, head, g, save, s, ds, ims, k);
        return;
      }
      it := next;
      k := k + 1;
    }
    ok := true;
    DoneIsEnded(ds, ims, SwitchTo(g, save), BackTo(save));
  }

  method HasRootDisk(head: ListElem<Disk>, ghost s: seq<ListElem<Disk>>, ghost ds: seq<Disk>) returns (found: bool)
    requires Ring(head, s) && Lists(s, ds)
    ensures found <==> exists d <- ds :: d.root
  {
    var it := head.next;
    ghost var k: nat := 0;
    while it != head
      invariant k <= |s| && it == Cursor(head, s, k)
      invariant forall i :: 0 <= i < k ==> !ds[i].root
      decreases |s| - k
    {
      if it.entry.root {
        assert ds[k].root;
        return true;
      }
      it := it.next;
      k := k + 1;
    }
    return false;
  }

  method MountAll(head: ListElem<Disk>, g: Str, c: Str, ghost s: seq<ListElem<Disk>>, ghost ds: seq<Disk>,
                  ghost ims: seq<Image>) returns (ok: bool)
    requires Ring(head, s) && Lists(s, ds) && Doing(ds, ims, Mount(g, c), 0)
    modifies ds`image
    ensures ok <==> FirstFailure(ds, ims, Mount(g, c), 0) == |ds|
    ensures Ended(ds, ims, Mount(g, c), Some(Umount(c)))
  {
    var it: ListElem?<Disk> := head.next;
    ghost var k: nat := 0;
    while it != head
      invariant At(head, it, s, ds, ims, Mount(g, c), k) && it != null
      decreases |s| - k
    {
      var next;
      ok, next := Ask(it, head, Mount(g, c), s, ds, ims, k);
      if !ok {
        RollBackFrom(it, head, Mount(g, c), Umount(c), s, ds, ims, k);
        return;
      }
      it := next;
      k := k + 1;
    }
    ok := true;
    DoneIsEnded(ds, ims, Mount(g, c), Some(Umount(c)));
  }

  /** vzctl2_mount_snap: nothing is mounted where no root disk is configured. */
  method MountSnapshot(head: ListElem<Disk>, g: Str, c: Str, ghost s: seq<ListElem<Disk>>, ghost ds: seq<Disk>,
                       ghost ims: seq<Image>) returns (ok: bool)
    requires Ring(head, s) && Lists(s, ds) && Doing(ds, ims, Mount(g, c), 0)
    modifies ds`image
    ensures ok <==> (exists d <- ds :: d.root) && FirstFailure(ds, ims, Mount(g, c), 0) == |ds|
    ensures if exists d <- ds :: d.root then Ended(ds, ims, Mount(g, c), Some(Umount(c)))
            else forall i :: 0 <= i < |ds| ==> ds[i].image == ims[i]
  {
    ok := HasRootDisk(head, s, ds);
    if ok {
      ok := MountAll(head, g, c, s, ds, ims);
    }
  }
}
