/** The two-level container lock of lib/lock.c as a step system: flock on the .lck
    file of the private area, then a pid file made by write-temp-and-link. One step is
    one system call of one process; processes interleave and may die between any two. */
module ContainerLock {
  import opened Common

  type Pid = nat    // 0 stands for a pid file without a process id in it
  type Ino = nat

  const ATTEMPTS := 3

  /** What may happen in a run besides the main protocol.
      prunes: how often at most a process gets to remove .lck, which every failed attempt is
      about to do after closing it (lock.c:516), and every holder that releases the container
      with the path of its private area (lock.c:546);
      bare: a private area may be missing, so that flock is skipped (lock.c:506);
      torn: writing the process id into the temporary file may fail (lock.c:184). */
  datatype Mishaps = Mishaps(prunes: nat, bare: bool, torn: bool)

  /** Where a live process is. "fd" is the flocked inode, or None without one;
      "mark" is the process id its temporary file holds; "held" is whether it was the holder. */
  datatype Pc =
    | Idle
    | Opened(ino: Ino)
    | Locked(fd: Option<Ino>)
    | Linking(fd: Option<Ino>, mark: Pid, tries: nat)
    | Refused(fd: Option<Ino>, mark: Pid, tries: nat)
    | Judging(fd: Option<Ino>, mark: Pid, tries: nat, found: Pid)
    | Sweeping(fd: Option<Ino>, mark: Pid, tries: nat, found: Pid)
    | Holding(fd: Option<Ino>)
    | Backing(fd: Option<Ino>)
    | Pruning(held: bool)
    | Releasing

  datatype State = State(
    pcs: map<Pid, Pc>,        // the live processes
    used: set<Pid>,           // every process id ever given out
    lck: Option<Ino>,         // the inode named .lck
    nextIno: Ino,               // inodes from here on are unused
    owner: map<Ino, Pid>,     // who has an inode flocked
    pidfile: Option<Pid>      // the pid file, if it exists, and its content
  )

  datatype Event =
    | Spawn(p: Pid)
    | Open(p: Pid)
    | OpenBare(p: Pid)
    | Flock(p: Pid)
    | WriteTemp(p: Pid, torn: bool)
    | Link(p: Pid)
    | ReadPid(p: Pid)
    | Judge(p: Pid)
    | Sweep(p: Pid)
    | Close(p: Pid, path: bool)
    | Prune(p: Pid)
    | Drop(p: Pid)
    | Crash(p: Pid)

  const INITIAL := State(map[], {}, None, 0, map[], None)

  predicate Enabled(s: State, e: Event) {
    if e.Spawn? then e.p > 0 && e.p !in s.used
    else e.p in s.pcs && match e
      case Open(p) => s.pcs[p].Idle?
      case OpenBare(p) => s.pcs[p].Idle?
      case Flock(p) => s.pcs[p].Opened?
      case WriteTemp(p, torn) => s.pcs[p].Locked?
      case Link(p) => s.pcs[p].Linking?
      case ReadPid(p) => s.pcs[p].Refused?
      case Judge(p) => s.pcs[p].Judging?
      case Sweep(p) => s.pcs[p].Sweeping?
      case Close(p, path) => s.pcs[p].Holding? || (s.pcs[p].Backing? && path)
      case Prune(p) => s.pcs[p].Pruning?
      case Drop(p) => s.pcs[p].Releasing?
      case Crash(p) => true
  }

  function Goto(s: State, p: Pid, pc: Pc): State {
    s.(pcs := s.pcs[p := pc])
  }

  /** flock belongs to the open file: closing it, or dying, gives it up. */
  function Unflock(owner: map<Ino, Pid>, p: Pid): map<Ino, Pid> {
    map i | i in owner && owner[i] != p :: owner[i]
  }

  /** One more round of the retry loop, or failure after the last one. */
  function Retry(fd: Option<Ino>, mark: Pid, tries: nat): Pc {
    if tries + 1 < ATTEMPTS then Linking(fd, mark, tries + 1) else Backing(fd)
  }

  function Apply(s: State, e: Event): State
    requires Enabled(s, e)
  {
    match e
    case Spawn(p) => Goto(s, p, Idle).(used := s.used + {p})
    case Open(p) =>
      if s.lck.Some? then Goto(s, p, Opened(s.lck.value))
      else Goto(s, p, Opened(s.nextIno)).(lck := Some(s.nextIno), nextIno := s.nextIno + 1)
    case OpenBare(p) => Goto(s, p, Locked(None))
    case Flock(p) =>
      var ino := s.pcs[p].ino;
      if ino in s.owner then Goto(s, p, Idle)
      else Goto(s, p, Locked(Some(ino))).(owner := s.owner[ino := p])
    case WriteTemp(p, torn) => Goto(s, p, Linking(s.pcs[p].fd, if torn then 0 else p, 0))
    case Link(p) =>
      var c := s.pcs[p];
      if s.pidfile.None? then Goto(s, p, Holding(c.fd)).(pidfile := Some(c.mark))
      else Goto(s, p, Refused(c.fd, c.mark, c.tries))
    case ReadPid(p) =>
      var c := s.pcs[p];
      if s.pidfile.None? then Goto(s, p, Retry(c.fd, c.mark, c.tries))
      else if s.pidfile.value == 0 then Goto(s, p, Sweeping(c.fd, c.mark, c.tries, 0))
      else Goto(s, p, Judging(c.fd, c.mark, c.tries, s.pidfile.value))
    case Judge(p) =>
      var c := s.pcs[p];
      if c.found in s.pcs then Goto(s, p, Backing(c.fd))
      else Goto(s, p, Sweeping(c.fd, c.mark, c.tries, c.found))
    case Sweep(p) =>
      var c := s.pcs[p];
      Goto(s, p, Retry(c.fd, c.mark, c.tries)).(pidfile := None)
    case Close(p, path) =>
      var held := s.pcs[p].Holding?;
      var after := if path && s.pcs[p].fd.Some? then Pruning(held) else if held then Releasing else Idle;
      Goto(s, p, after).(owner := Unflock(s.owner, p))
    case Prune(p) => Goto(s, p, if s.pcs[p].held then Releasing else Idle).(lck := None)
    case Drop(p) => Goto(s, p, Idle).(pidfile := None)
    case Crash(p) => s.(pcs := s.pcs - {p}, owner := Unflock(s.owner, p))
  }

  /** t is reached from s by the events of a run. */
  ghost predicate Run(s: State, run: seq<Event>, t: State)
    decreases |run|
  {
    if run == [] then s == t
    else Enabled(s, run[0]) && Run(Apply(s, run[0]), run[1..], t)
  }

  function Prunes(run: seq<Event>): nat {
    if run == [] then 0 else (if run[0].Prune? then 1 else 0) + Prunes(run[1..])
  }

  /** Apart from Prune, nothing that m excludes. */
  predicate Permitted(m: Mishaps, e: Event) {
    (e.OpenBare? ==> m.bare) && (e.WriteTemp? && e.torn ==> m.torn)
  }

  predicate Within(m: Mishaps, run: seq<Event>) {
    Prunes(run) <= m.prunes && forall e <- run :: Permitted(m, e)
  }

  /** s is reached by a run with no more mishaps than these. */
  ghost predicate Reachable(m: Mishaps, s: State) {
    exists run: seq<Event> :: Within(m, run) && Run(INITIAL, run, s)
  }

  predicate Holds(s: State, p: Pid) {
    p in s.pcs && s.pcs[p].Holding?
  }

  /** At most one process holds the container. */
  ghost predicate Exclusive(s: State) {
    forall p: Pid, q: Pid :: Holds(s, p) && Holds(s, q) ==> p == q
  }

  /** The pid file names the holder for as long as there is one. */
  ghost predicate Named(s: State) {
    forall p: Pid :: Holds(s, p) ==> s.pidfile == Some(p)
  }

  // ---------------------------------------------------------------------
  // Mutual exclusion rests on the outer lock keeping its inode.
  // ---------------------------------------------------------------------

  /** Past flock and not yet past close. */
  predicate Inside(c: Pc) {
    c.Locked? || c.Linking? || c.Refused? || c.Judging? || c.Sweeping? || c.Holding? || c.Backing?
  }

  /** About to unlink the pid file. */
  predicate Leaving(c: Pc) {
    c.Releasing? || (c.Pruning? && c.held)
  }

  ghost predicate OuterInv(s: State) {
    && s.pcs.Keys <= s.used && 0 !in s.used
    && (forall p <- s.pcs :: s.pcs[p].Opened? ==> s.lck == Some(s.pcs[p].ino))
    && (forall p <- s.pcs :: Inside(s.pcs[p]) ==>
         s.lck.Some? && s.pcs[p].fd == s.lck && s.lck.value in s.owner && s.owner[s.lck.value] == p)
    && (forall i <- s.owner :: s.lck == Some(i) && s.owner[i] in s.pcs && Inside(s.pcs[s.owner[i]]))
  }

  /** The steps up to the first link. */
  predicate Acquiring(e: Event) {
    e.Spawn? || e.Open? || e.OpenBare? || e.Flock? || e.WriteTemp?
  }

  /** Neither removes .lck nor goes without it. */
  predicate Steady(e: Event) {
    !e.Prune? && !e.OpenBare?
  }

  lemma OuterStepAcquiring(s: State, e: Event)
    requires OuterInv(s) && Enabled(s, e) && Steady(e) && Acquiring(e)
    ensures OuterInv(Apply(s, e))
  {
  }

  lemma OuterStepReleasing(s: State, e: Event)
    requires OuterInv(s) && Enabled(s, e) && Steady(e) && !Acquiring(e)
    ensures OuterInv(Apply(s, e))
  {
  }

  lemma OuterStep(s: State, e: Event)
    requires OuterInv(s) && Enabled(s, e) && Steady(e)
    ensures OuterInv(Apply(s, e))
  {
    if Acquiring(e) {
      OuterStepAcquiring(s, e);
    } else {
      OuterStepReleasing(s, e);
    }
  }

  // ---------------------------------------------------------------------
  // The pid file: nobody but its owner takes it away from a live process.
  // ---------------------------------------------------------------------

  ghost predicate PidInv(s: State) {
    && (s.pidfile.Some? ==> s.pidfile.value in s.used)
    && (s.pidfile.Some? && s.pidfile.value in s.pcs ==>
         s.pcs[s.pidfile.value].Holding? || Leaving(s.pcs[s.pidfile.value]))
    && (forall p <- s.pcs :: s.pcs[p].Holding? || Leaving(s.pcs[p]) ==> s.pidfile == Some(p))
    && (forall p <- s.pcs :: s.pcs[p].Linking? || s.pcs[p].Refused? || s.pcs[p].Judging? || s.pcs[p].Sweeping? ==>
         s.pcs[p].mark == p)
    && (forall p <- s.pcs :: s.pcs[p].Judging? || s.pcs[p].Sweeping? ==>
         s.pcs[p].found in s.used && (s.pidfile.None? || s.pidfile.value == s.pcs[p].found))
    && (forall p <- s.pcs :: s.pcs[p].Sweeping? ==> s.pcs[p].found !in s.pcs)
  }

  /** Writes the process id, if it writes. */
  predicate Whole(e: Event) {
    e.WriteTemp? ==> !e.torn
  }

  lemma PidStepSpawning(s: State, p: Pid)
    requires OuterInv(s) && PidInv(s) && Enabled(s, Spawn(p))
    ensures PidInv(Apply(s, Spawn(p)))
  {
  }

  lemma PidStepOpening(s: State, p: Pid)
    requires OuterInv(s) && PidInv(s) && Enabled(s, Open(p))
    ensures PidInv(Apply(s, Open(p)))
  {
  }

  lemma PidStepAcquiring(s: State, e: Event)
    requires OuterInv(s) && PidInv(s) && Enabled(s, e) && Steady(e) && Whole(e) && Acquiring(e)
    ensures PidInv(Apply(s, e))
  {
    if e.Spawn? {
      PidStepSpawning(s, e.p);
    } else if e.Open? {
      PidStepOpening(s, e.p);
    }
  }

  /** The retry loop. */
  predicate Deciding(e: Event) {
    e.Link? || e.ReadPid? || e.Judge? || e.Sweep?
  }

  lemma PidStepTrying(s: State, e: Event)
    requires OuterInv(s) && PidInv(s) && Enabled(s, e) && (e.Link? || e.ReadPid?)
    ensures PidInv(Apply(s, e))
  {
  }

  lemma PidStepJudging(s: State, e: Event)
    requires OuterInv(s) && PidInv(s) && Enabled(s, e) && (e.Judge? || e.Sweep?)
    ensures PidInv(Apply(s, e))
  {
  }

  lemma PidStepDeciding(s: State, e: Event)
    requires OuterInv(s) && PidInv(s) && Enabled(s, e) && Deciding(e)
    ensures PidInv(Apply(s, e))
  {
    if e.Link? || e.ReadPid? {
      PidStepTrying(s, e);
    } else {
      PidStepJudging(s, e);
    }
  }

  lemma PidStepReleasing(s: State, e: Event)
    requires OuterInv(s) && PidInv(s) && Enabled(s, e) && Steady(e) && !Acquiring(e) && !Deciding(e)
    ensures PidInv(Apply(s, e))
  {
  }

  lemma PidStep(s: State, e: Event)
    requires OuterInv(s) && PidInv(s) && Enabled(s, e) && Steady(e) && Whole(e)
    ensures PidInv(Apply(s, e))
  {
    if Acquiring(e) {
      PidStepAcquiring(s, e);
    } else if Deciding(e) {
      PidStepDeciding(s, e);
    } else {
      PidStepReleasing(s, e);
    }
  }

  lemma {:induction false} RunKeepsOuter(s: State, run: seq<Event>, t: State)
    requires OuterInv(s) && Run(s, run, t) && forall e <- run :: Steady(e)
    ensures OuterInv(t)
    decreases |run|
  {
    if run != [] {
      assert run[0] in run;
      OuterStep(s, run[0]);
      RunKeepsOuter(Apply(s, run[0]), run[1..], t);
    }
  }

  lemma {:induction false} RunKeepsPid(s: State, run: seq<Event>, t: State)
    requires OuterInv(s) && PidInv(s) && Run(s, run, t) && forall e <- run :: Steady(e) && Whole(e)
    ensures OuterInv(t) && PidInv(t)
    decreases |run|
  {
    if run != [] {
      assert run[0] in run;
      OuterStep(s, run[0]);
      PidStep(s, run[0]);
      RunKeepsPid(Apply(s, run[0]), run[1..], t);
    }
  }

  lemma {:induction false} NoPruneIn(run: seq<Event>)
    requires Prunes(run) == 0
    ensures forall e <- run :: !e.Prune?
  {
    if run != [] {
      NoPruneIn(run[1..]);
      assert run == [run[0]] + run[1..];
    }
  }

  /** Every run in which nobody gets to remove .lck, and every private area is in
      place, has at most one holder at any time. */
  lemma OuterGivesExclusion(run: seq<Event>, s: State)
    requires Run(INITIAL, run, s) && forall e <- run :: Steady(e)
    ensures Exclusive(s)
  {
    RunKeepsOuter(INITIAL, run, s);
  }

  /** If in addition every process id is written, the pid file names the holder as well, although
      stale files are removed and the previous holder unlinks its file after giving up flock. */
  lemma PidFileNamesHolder(run: seq<Event>, s: State)
    requires Run(INITIAL, run, s) && forall e <- run :: Steady(e) && Whole(e)
    ensures Exclusive(s) && Named(s)
  {
    RunKeepsPid(INITIAL, run, s);
  }

  // ---------------------------------------------------------------------
  // Each of the three circumstances breaks it.
  // ---------------------------------------------------------------------

  lemma {:induction false} RunThen(s: State, run: seq<Event>, t: State, e: Event)
    requires Run(s, run, t) && Enabled(t, e)
    ensures Run(s, run + [e], Apply(t, e))
    ensures Prunes(run + [e]) == Prunes(run) + if e.Prune? then 1 else 0
    decreases |run|
  {
    if run == [] {
      assert [e][1..] == [] && run + [e] == [e];
    } else {
      RunThen(Apply(s, run[0]), run[1..], t, e);
      assert (run + [e])[1..] == run[1..] + [e];
    }
  }

  lemma Then(m: Mishaps, s: State, e: Event) returns (t: State)
    requires Reachable(m, s) && Enabled(s, e) && Permitted(m, e) && !e.Prune?
    ensures Reachable(m, t) && t == Apply(s, e)
  {
    var run: seq<Event> :| Within(m, run) && Run(INITIAL, run, s);
    t := Apply(s, e);
    RunThen(INITIAL, run, s, e);
    assert Within(m, run + [e]);
  }

  lemma ThenPrune(m: Mishaps, s: State, p: Pid) returns (t: State)
    requires Reachable(m, s) && Enabled(s, Prune(p))
    ensures Reachable(m.(prunes := m.prunes + 1), t) && t == Apply(s, Prune(p))
  {
    var run: seq<Event> :| Within(m, run) && Run(INITIAL, run, s);
    t := Apply(s, Prune(p));
    RunThen(INITIAL, run, s, Prune(p));
    assert Within(m.(prunes := m.prunes + 1), run + [Prune(p)]);
  }

  lemma MoreMishaps(m: Mishaps, n: Mishaps, s: State)
    requires Reachable(m, s) && m.prunes <= n.prunes && (m.bare ==> n.bare) && (m.torn ==> n.torn)
    ensures Reachable(n, s)
  {
    var run: seq<Event> :| Within(m, run) && Run(INITIAL, run, s);
    assert Within(n, run);
  }

  lemma Start(m: Mishaps)
    ensures Reachable(m, INITIAL)
  {
    assert Within(m, []) && Run(INITIAL, [], INITIAL);
  }

  lemma SpawnAndOpen(m: Mishaps, s: State, p: Pid) returns (t: State)
    requires Reachable(m, s) && p > 0 && p !in s.used
    ensures Reachable(m, t)
    ensures var ino := if s.lck.Some? then s.lck.value else s.nextIno;
      t == State(s.pcs[p := Opened(ino)], s.used + {p}, Some(ino),
                 if s.lck.Some? then s.nextIno else s.nextIno + 1, s.owner, s.pidfile)
  {
    t := Then(m, s, Spawn(p));
    t := Then(m, t, Open(p));
  }

  lemma FlockAndWrite(m: Mishaps, s: State, p: Pid, torn: bool) returns (t: State)
    requires Reachable(m, s) && p in s.pcs && s.pcs[p].Opened? && (torn ==> m.torn)
    requires s.pcs[p].ino !in s.owner
    ensures Reachable(m, t)
    ensures var ino := s.pcs[p].ino;
      t == Goto(s, p, Linking(Some(ino), if torn then 0 else p, 0)).(owner := s.owner[ino := p])
  {
    t := Then(m, s, Flock(p));
    t := Then(m, t, WriteTemp(p, torn));
  }

  /** A new process up to its first link: spawn, open, flock, temporary file. */
  lemma Enter(m: Mishaps, s: State, p: Pid, torn: bool := false) returns (t: State)
    requires Reachable(m, s) && p > 0 && p !in s.used && (torn ==> m.torn)
    requires (if s.lck.Some? then s.lck.value else s.nextIno) !in s.owner
    ensures Reachable(m, t)
    ensures var ino := if s.lck.Some? then s.lck.value else s.nextIno;
      t == State(s.pcs[p := Linking(Some(ino), if torn then 0 else p, 0)], s.used + {p}, Some(ino),
                 if s.lck.Some? then s.nextIno else s.nextIno + 1, s.owner[ino := p], s.pidfile)
  {
    t := SpawnAndOpen(m, s, p);
    t := FlockAndWrite(m, t, p, torn);
  }

  lemma SpawnBare(m: Mishaps, s: State, p: Pid) returns (t: State)
    requires Reachable(m, s) && m.bare && p > 0 && p !in s.used
    ensures Reachable(m, t)
    ensures t == s.(pcs := s.pcs[p := Locked(None)], used := s.used + {p})
  {
    t := Then(m, s, Spawn(p));
    t := Then(m, t, OpenBare(p));
  }

  lemma EnterBare(m: Mishaps, s: State, p: Pid) returns (t: State)
    requires Reachable(m, s) && m.bare && p > 0 && p !in s.used
    ensures Reachable(m, t)
    ensures t == s.(pcs := s.pcs[p := Linking(None, p, 0)], used := s.used + {p})
  {
    t := SpawnBare(m, s, p);
    t := Then(m, t, WriteTemp(p, false));
  }

  /** The first link finds a pid file, which is read and judged. */
  lemma JudgeFile(m: Mishaps, s: State, p: Pid) returns (t: State)
    requires Reachable(m, s) && p in s.pcs && s.pcs[p].Linking? && s.pcs[p].tries == 0
    requires s.pidfile.Some? && s.pidfile.value > 0
    ensures Reachable(m, t)
    ensures var c := s.pcs[p];
      t == Goto(s, p, if s.pidfile.value in s.pcs then Backing(c.fd)
                      else Sweeping(c.fd, c.mark, 0, s.pidfile.value))
  {
    t := Then(m, s, Link(p));
    t := Then(m, t, ReadPid(p));
    t := Then(m, t, Judge(p));
  }

  /** A stale file is removed and the link repeated. */
  lemma SweepAndLink(m: Mishaps, s: State, p: Pid) returns (t: State)
    requires Reachable(m, s) && p in s.pcs && s.pcs[p].Sweeping? && s.pcs[p].tries == 0
    ensures Reachable(m, t)
    ensures t == Goto(s, p, Holding(s.pcs[p].fd)).(pidfile := Some(s.pcs[p].mark))
  {
    t := Then(m, s, Sweep(p));
    t := Then(m, t, Link(p));
  }

  /** A holder whose file carries no process id. */
  lemma TornFileNamesNobody(m: Mishaps) returns (s: State)
    requires m.torn
    ensures Reachable(m, s) && !Named(s)
  {
    Start(m);
    s := Enter(m, INITIAL, 1, true);
    s := Then(m, s, Link(1));
    assert Holds(s, 1);
  }

  /** Process 1 has died and left its pid file. */
  lemma StaleFile(m: Mishaps) returns (s: State)
    requires m.bare
    ensures Reachable(m, s) && s == State(map[], {1}, None, 0, map[], Some(1))
  {
    Start(m);
    s := EnterBare(m, INITIAL, 1);
    s := Then(m, s, Link(1));
    s := Then(m, s, Crash(1));
  }

  /** Two attempts without flock judge the same stale file: the slower one removes
      the pid file of the faster one. */
  lemma BareAttemptsCollide(m: Mishaps) returns (s: State)
    requires m.bare
    ensures Reachable(m, s) && !Exclusive(s)
  {
    s := StaleFile(m);
    s := EnterBare(m, s, 2);
    s := EnterBare(m, s, 3);
    s := JudgeFile(m, s, 2);
    s := JudgeFile(m, s, 3);
    s := SweepAndLink(m, s, 2);
    s := SweepAndLink(m, s, 3);
    assert Holds(s, 2) && Holds(s, 3);
  }

  lemma FirstHolder(m: Mishaps) returns (s: State)
    ensures Reachable(m, s) && s == State(map[1 := Holding(Some(0))], {1}, Some(0), 1, map[0 := 1], Some(1))
  {
    Start(m);
    s := Enter(m, INITIAL, 1);
    s := Then(m, s, Link(1));
  }

  lemma HolderBetweenCloseAndUnlink(m: Mishaps) returns (s: State)
    ensures Reachable(m, s) && s == State(map[1 := Releasing], {1}, Some(0), 1, map[], Some(1))
  {
    s := FirstHolder(m);
    s := Then(m, s, Close(1, false));
  }

  /** Process 2 fails against the file that process 1, which has already given up flock,
      is about to unlink. */
  lemma RefusedByReleasingHolder(m: Mishaps) returns (s: State)
    ensures Reachable(m, s)
    ensures s == State(map[1 := Releasing, 2 := Backing(Some(0))], {1, 2}, Some(0), 1, map[0 := 2], Some(1))
  {
    s := HolderBetweenCloseAndUnlink(m);
    s := Enter(m, s, 2);
    s := JudgeFile(m, s, 2);
  }

  /** So process 2 closes .lck and is about to remove it; process 1 dies. */
  lemma StaleFileAndPendingPrune(m: Mishaps) returns (s: State)
    ensures Reachable(m, s) && s == State(map[2 := Pruning(false)], {1, 2}, Some(0), 1, map[], Some(1))
  {
    s := RefusedByReleasingHolder(m);
    s := Then(m, s, Close(2, true));
    s := Then(m, s, Crash(1));
  }

  const ONE_PRUNE := Mishaps(1, false, false)

  lemma PrunedBetweenTwo() returns (s: State)
    ensures Reachable(ONE_PRUNE, s)
    ensures s == State(map[2 := Idle, 3 := Linking(Some(0), 3, 0)], {1, 2, 3}, None, 1, map[0 := 3], Some(1))
  {
    var none := Mishaps(0, false, false);
    s := StaleFileAndPendingPrune(none);
    s := Enter(none, s, 3);
    s := ThenPrune(none, s, 2);
  }

  /** One removal of .lck is enough: processes 3 and 4 then flock two different inodes and judge
      the same stale file. */
  lemma UnlinkingReleaseCollides() returns (s: State)
    ensures Reachable(ONE_PRUNE, s) && !Exclusive(s)
  {
    var m := ONE_PRUNE;
    s := PrunedBetweenTwo();
    s := Enter(m, s, 4);
    s := JudgeFile(m, s, 3);
    s := JudgeFile(m, s, 4);
    s := SweepAndLink(m, s, 3);
    s := SweepAndLink(m, s, 4);
    assert Holds(s, 3) && Holds(s, 4);
  }

  /** Mutual exclusion over all interleavings and crashes, exactly: it holds in all runs with these
      mishaps if and only if .lck is never removed and flock never skipped. */
  lemma ExclusionExactly(m: Mishaps)
    ensures (forall s :: Reachable(m, s) ==> Exclusive(s)) <==> m.prunes == 0 && !m.bare
  {
    if m.prunes > 0 {
      var s := UnlinkingReleaseCollides();
      MoreMishaps(ONE_PRUNE, m, s);
    } else if m.bare {
      var s := BareAttemptsCollide(m);
    } else {
      forall s | Reachable(m, s)
        ensures Exclusive(s)
      {
        var run: seq<Event> :| Within(m, run) && Run(INITIAL, run, s);
        NoPruneIn(run);
        OuterGivesExclusion(run, s);
      }
    }
  }

  /** Mutual exclusion together with a pid file that names the holder, exactly. */
  lemma NamedHolderExactly(m: Mishaps)
    ensures (forall s :: Reachable(m, s) ==> Exclusive(s) && Named(s))
       <==> m.prunes == 0 && !m.bare && !m.torn
  {
    ExclusionExactly(m);
    if m.torn {
      var s := TornFileNamesNobody(m);
    } else if m.prunes == 0 && !m.bare {
      forall s | Reachable(m, s)
        ensures Exclusive(s) && Named(s)
      {
        var run: seq<Event> :| Within(m, run) && Run(INITIAL, run, s);
        NoPruneIn(run);
        PidFileNamesHolder(run, s);
      }
    }
  }

  // ---------------------------------------------------------------------
  // Recovery.
  // ---------------------------------------------------------------------

  /** What holds in every run whatsoever: only a process in the protocol owns an inode, and the
      file of a live process is that of a holder or of one about to unlink it. */
  ghost predicate AlwaysInv(s: State) {
    && s.pcs.Keys <= s.used && 0 !in s.used
    && (forall i <- s.owner :: s.owner[i] in s.pcs && Inside(s.pcs[s.owner[i]]))
    && (s.pidfile.Some? ==> s.pidfile.value == 0 || s.pidfile.value in s.used)
    && (s.pidfile.Some? && s.pidfile.value in s.pcs ==>
         s.pcs[s.pidfile.value].Holding? || Leaving(s.pcs[s.pidfile.value]))
    && (forall p <- s.pcs :: s.pcs[p].Linking? || s.pcs[p].Refused? || s.pcs[p].Judging? || s.pcs[p].Sweeping? ==>
         s.pcs[p].mark == p || s.pcs[p].mark == 0)
  }

  lemma AlwaysAcquiring(s: State, e: Event)
    requires AlwaysInv(s) && Enabled(s, e) && Acquiring(e)
    ensures AlwaysInv(Apply(s, e))
  {
  }

  lemma AlwaysDeciding(s: State, e: Event)
    requires AlwaysInv(s) && Enabled(s, e) && Deciding(e)
    ensures AlwaysInv(Apply(s, e))
  {
  }

  lemma AlwaysReleasing(s: State, e: Event)
    requires AlwaysInv(s) && Enabled(s, e) && !Acquiring(e) && !Deciding(e)
    ensures AlwaysInv(Apply(s, e))
  {
  }

  lemma {:induction false} RunKeepsAlways(s: State, run: seq<Event>, t: State)
    requires AlwaysInv(s) && Run(s, run, t)
    ensures AlwaysInv(t)
    decreases |run|
  {
    if run != [] {
      if Acquiring(run[0]) {
        AlwaysAcquiring(s, run[0]);
      } else if Deciding(run[0]) {
        AlwaysDeciding(s, run[0]);
      } else {
        AlwaysReleasing(s, run[0]);
      }
      RunKeepsAlways(Apply(s, run[0]), run[1..], t);
    }
  }

  /** The steps of an attempt up to the first link, with flock or without. */
  function Approach(p: Pid, bare: bool, torn: bool): seq<Event> {
    (if bare then [OpenBare(p)] else [Open(p), Flock(p)]) + [WriteTemp(p, torn), Link(p)]
  }

  /** What follows when the first link finds a file: it is read, judged if it names a process,
      removed, and the link repeated. */
  function Cleanup(pidfile: Option<Pid>, p: Pid): seq<Event> {
    match pidfile
    case None => []
    case Some(q) => (if q == 0 then [ReadPid(p)] else [ReadPid(p), Judge(p)]) + [Sweep(p), Link(p)]
  }

  /** After the first link p holds the container, or has met the file that was there. */
  ghost predicate Linked(s: State, t: State, p: Pid, mark: Pid) {
    && t.pcs.Keys == s.pcs.Keys && p in t.pcs
    && if s.pidfile.None? then Holds(t, p) && t.pidfile == Some(mark)
       else t.pidfile == s.pidfile && t.pcs[p].Refused? && t.pcs[p].tries == 0 && t.pcs[p].mark == mark
  }

  lemma FirstLink(s: State, p: Pid, bare: bool, torn: bool) returns (t: State)
    requires p in s.pcs && s.pcs[p].Idle? && s.owner == map[]
    ensures Run(s, Approach(p, bare, torn), t) && Linked(s, t, p, if torn then 0 else p)
  {
    var s1: State;
    if bare {
      s1 := Apply(s, OpenBare(p));
      t := MarkAndLink(s1, p, torn);
      assert Run(s, [OpenBare(p)] + [WriteTemp(p, torn), Link(p)], t) by {
        assert Run(s1, [], s1) && Run(s, [OpenBare(p)], s1);
        RunFrom(s, [OpenBare(p)], s1, [WriteTemp(p, torn), Link(p)], t);
      }
    } else {
      var s0 := Apply(s, Open(p));
      s1 := Apply(s0, Flock(p));
      t := MarkAndLink(s1, p, torn);
      assert Run(s, [Open(p), Flock(p)] + [WriteTemp(p, torn), Link(p)], t) by {
        assert Run(s1, [], s1) && Run(s0, [Flock(p)], s1) && Run(s, [Open(p), Flock(p)], s1);
        RunFrom(s, [Open(p), Flock(p)], s1, [WriteTemp(p, torn), Link(p)], t);
      }
    }
  }

  lemma MarkAndLink(s: State, p: Pid, torn: bool) returns (t: State)
    requires p in s.pcs && s.pcs[p].Locked?
    ensures Run(s, [WriteTemp(p, torn), Link(p)], t) && Linked(s, t, p, if torn then 0 else p)
  {
    var s1 := Apply(s, WriteTemp(p, torn));
    t := Apply(s1, Link(p));
    assert Run(t, [], t) && Run(s1, [Link(p)], t);
    assert [WriteTemp(p, torn), Link(p)][1..] == [Link(p)];
  }

  lemma SweepThenLink(s: State, p: Pid) returns (t: State)
    requires p in s.pcs && s.pcs[p].Sweeping? && s.pcs[p].tries == 0
    ensures Run(s, [Sweep(p), Link(p)], t) && Holds(t, p) && t.pidfile == Some(s.pcs[p].mark)
  {
    var s1 := Apply(s, Sweep(p));
    t := Apply(s1, Link(p));
    assert Run(t, [], t) && Run(s1, [Link(p)], t);
    assert [Sweep(p), Link(p)][1..] == [Link(p)];
  }

  /** A file without a process id is removed at once. */
  lemma SweptUnmarked(s: State, p: Pid) returns (t: State)
    requires p in s.pcs && s.pcs[p].Refused? && s.pcs[p].tries == 0 && s.pidfile == Some(0)
    ensures Run(s, Cleanup(s.pidfile, p), t) && Holds(t, p) && t.pidfile == Some(s.pcs[p].mark)
  {
    var s1 := Apply(s, ReadPid(p));
    t := SweepThenLink(s1, p);
    assert Run(s1, [], s1) && Run(s, [ReadPid(p)], s1);
    RunFrom(s, [ReadPid(p)], s1, [Sweep(p), Link(p)], t);
  }

  /** A file that names a dead process is judged, and removed. */
  lemma SweptStale(s: State, p: Pid) returns (t: State)
    requires p in s.pcs && s.pcs[p].Refused? && s.pcs[p].tries == 0
    requires s.pidfile.Some? && s.pidfile.value != 0 && s.pidfile.value !in s.pcs
    ensures Run(s, Cleanup(s.pidfile, p), t) && Holds(t, p) && t.pidfile == Some(s.pcs[p].mark)
  {
    var s1 := Apply(s, ReadPid(p));
    var s2 := Apply(s1, Judge(p));
    t := SweepThenLink(s2, p);
    assert Run(s2, [], s2) && Run(s1, [Judge(p)], s2);
    assert [ReadPid(p), Judge(p)][1..] == [Judge(p)];
    RunFrom(s, [ReadPid(p), Judge(p)], s2, [Sweep(p), Link(p)], t);
  }

  lemma {:induction false} RunFrom(s: State, one: seq<Event>, t: State, two: seq<Event>, u: State)
    requires Run(s, one, t) && Run(t, two, u)
    ensures Run(s, one + two, u)
    decreases |one|
  {
    if one == [] {
      assert one + two == two;
    } else {
      RunFrom(Apply(s, one[0]), one[1..], t, two, u);
      assert (one + two)[1..] == one[1..] + two;
    }
  }

  /** However many processes died, and wherever, and whatever mishaps there were: an attempt succeeds
      as soon as no live process is inside the protocol or about to unlink its file. What was left
      behind never blocks the container. */
  lemma UndisturbedAttemptSucceeds(history: seq<Event>, s: State, p: Pid, bare: bool, torn: bool)
      returns (t: State)
    requires Run(INITIAL, history, s)
    requires p in s.pcs && s.pcs[p].Idle?
    requires forall q <- s.pcs :: !Inside(s.pcs[q]) && !Leaving(s.pcs[q])
    ensures Run(s, Approach(p, bare, torn) + Cleanup(s.pidfile, p), t)
    ensures Holds(t, p) && t.pidfile == Some(if torn then 0 else p)
  {
    RunKeepsAlways(INITIAL, history, s);
    assert s.owner == map[];
    var s1 := FirstLink(s, p, bare, torn);
    if s.pidfile.None? {
      t := s1;
      assert Run(s1, [], t);
    } else if s.pidfile.value == 0 {
      t := SweptUnmarked(s1, p);
    } else {
      t := SweptStale(s1, p);
    }
    RunFrom(s, Approach(p, bare, torn), s1, Cleanup(s.pidfile, p), t);
  }
}
