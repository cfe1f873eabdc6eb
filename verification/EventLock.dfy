/** The lock file that keeps a single master daemon on the event log: its steps, one process at a time,
    and what every run of any number of daemons keeps. */
module EventLock {
  import opened Wrappers

  type Pid = nat

  /** Opening the lock file, waiting for it to become stale, or past that. */
  datatype Phase = Access | Poll(last: nat, retry: nat) | Running

  datatype Proc = Proc(live: bool, phase: Phase, gotLock: bool, lockOwner: Option<Pid>)

  datatype LockFile = NoFile | File(owner: Pid, mtime: nat)

  /** `clock` is the time of the last write; each write of the lock file gets a later one. */
  datatype World = World(procs: map<Pid, Proc>, file: LockFile, clock: nat)

  datatype Event =
    | Start(p: Pid)
    | Open(p: Pid)
    | PollFile(p: Pid, master: bool)
    | Touch(p: Pid)
    | Die(p: Pid)
    | Fork(p: Pid, child: Pid)
    | Crash(p: Pid)

  const INIT := World(map[], NoFile, 0)

  const STALE_RETRIES := 4

  /** The process that created or overwrote the lock file, is still there, and is not a forked copy. */
  predicate Holds(w: World, p: Pid) {
    p in w.procs && w.procs[p].live && w.procs[p].gotLock && w.procs[p].lockOwner == Some(p)
  }

  predicate Live(w: World, p: Pid) {
    p in w.procs && w.procs[p].live
  }

  function Become(w: World, p: Pid, s: Proc): World {
    w.(procs := w.procs[p := s])
  }

  function SetPhase(w: World, p: Pid, ph: Phase): World
    requires p in w.procs
  {
    Become(w, p, w.procs[p].(phase := ph))
  }

  /** Writes a fresh lock file that names `p` and records the lock. */
  function Acquire(w: World, p: Pid): World {
    World(w.procs[p := Proc(true, Running, true, Some(p))], File(p, w.clock + 1), w.clock + 1)
  }

  function Gone(w: World, p: Pid): World
    requires p in w.procs
  {
    Become(w, p, w.procs[p].(live := false))
  }

  /** `open` with O_EXCL; if the file is there and names a dead process of the same host, it is taken over. */
  function DoOpen(w: World, p: Pid, host: Pid -> nat): World
    requires Live(w, p)
  {
    match w.file
    case NoFile => Acquire(w, p)
    case File(o, m) =>
      if host(o) == host(p) && !Live(w, o) then Acquire(w, p) else SetPhase(w, p, Poll(m, 0))
  }

  predicate Stale(w: World, p: Pid) {
    && Live(w, p) && w.procs[p].phase.Poll? && w.file.File?
    && w.file.mtime == w.procs[p].phase.last && w.procs[p].phase.retry > STALE_RETRIES
  }

  function DoPoll(w: World, p: Pid, master: bool): World
    requires Live(w, p) && w.procs[p].phase.Poll?
  {
    var Poll(last, retry) := w.procs[p].phase;
    if !master then Gone(w, p)
    else
      match w.file
      case NoFile => SetPhase(w, p, Access)
      case File(_, m) =>
        if m != last then SetPhase(w, p, Poll(m, 0))
        else if retry > STALE_RETRIES then Acquire(w, p)
        else SetPhase(w, p, Poll(last, retry + 1))
  }

  /** One step; None if the event cannot happen. */
  function Next(w: World, e: Event, host: Pid -> nat): Option<World> {
    match e
    case Start(p) =>
      if p in w.procs then None else Some(Become(w, p, Proc(true, Access, false, None)))
    case Open(p) =>
      if Live(w, p) && w.procs[p].phase == Access then Some(DoOpen(w, p, host)) else None
    case PollFile(p, master) =>
      if Live(w, p) && w.procs[p].phase.Poll? then Some(DoPoll(w, p, master)) else None
    case Touch(p) =>
      if !(Live(w, p) && w.procs[p].phase == Running && w.procs[p].lockOwner == Some(p)) then None
      else if w.file == NoFile then Some(Gone(w, p))
      else Some(w.(file := w.file.(mtime := w.clock + 1), clock := w.clock + 1))
    case Die(p) =>
      if !Live(w, p) then None
      else if w.procs[p].lockOwner == Some(p) && w.procs[p].gotLock then Some(Gone(w, p).(file := NoFile))
      else Some(Gone(w, p))
    case Fork(p, c) =>
      if Live(w, p) && w.procs[p].phase == Running && c !in w.procs then Some(Become(w, c, w.procs[p])) else None
    case Crash(p) =>
      if Live(w, p) then Some(Gone(w, p)) else None
  }

  datatype Trace = Trace(states: seq<World>, events: seq<Event>)

  ghost predicate IsRun(t: Trace, host: Pid -> nat) {
    && |t.states| == |t.events| + 1 && t.states[0] == INIT
    && forall i :: 0 <= i < |t.events| ==> Next(t.states[i], t.events[i], host) == Some(t.states[i + 1])
  }

  lemma RunStep(t: Trace, host: Pid -> nat, i: nat)
    requires IsRun(t, host) && i < |t.events|
    ensures Next(t.states[i], t.events[i], host) == Some(t.states[i + 1])
  {}

  // ----- At most one holder -----

  /** Whoever holds the lock is named in the lock file; so there is at most one. */
  ghost predicate Safe(w: World) {
    forall p :: Holds(w, p) ==> w.file.File? && w.file.owner == p
  }

  /** Bookkeeping that no step upsets, takeovers included. */
  ghost predicate Tidy(w: World) {
    && (w.file.File? ==> w.file.mtime <= w.clock)
    && (forall p :: p in w.procs ==> TidyProc(w, w.procs[p]))
  }

  predicate TidyProc(w: World, s: Proc) {
    && (s.lockOwner.Some? ==> s.gotLock && s.lockOwner.value in w.procs)
    && (s.phase != Running ==> !s.gotLock && s.lockOwner.None?)
    && (s.phase.Poll? ==> s.phase.last <= w.clock && s.phase.retry <= STALE_RETRIES + 1)
  }

  /** The one process whose record a step can change. */
  function Mover(e: Event): Pid {
    if e.Fork? then e.child else e.p
  }

  lemma OneMoves(w: World, e: Event, host: Pid -> nat, w': World)
    requires Next(w, e, host) == Some(w')
    ensures Mover(e) in w'.procs && w'.procs == w.procs[Mover(e) := w'.procs[Mover(e)]] && w.clock <= w'.clock
  {}

  lemma MoverTidy(w: World, e: Event, host: Pid -> nat, w': World)
    requires Tidy(w) && Next(w, e, host) == Some(w')
    ensures Mover(e) in w'.procs && TidyProc(w', w'.procs[Mover(e)])
    ensures w'.file.File? ==> w'.file.mtime <= w'.clock
  {}

  lemma TidyStep(w: World, e: Event, host: Pid -> nat)
    requires Tidy(w) && Next(w, e, host).Some?
    ensures Tidy(Next(w, e, host).value)
  {
    var w' := Next(w, e, host).value;
    OneMoves(w, e, host, w');
    MoverTidy(w, e, host, w');
    forall p | p in w'.procs
      ensures TidyProc(w', w'.procs[p])
    {
      assert p != Mover(e) ==> TidyProc(w, w.procs[p]);
    }
  }

  lemma {:induction false} RunTidy(t: Trace, host: Pid -> nat, n: nat)
    requires IsRun(t, host) && n <= |t.events|
    ensures Tidy(t.states[n])
    decreases n
  {
    if n > 0 {
      RunTidy(t, host, n - 1);
      RunStep(t, host, n - 1);
      TidyStep(t.states[n - 1], t.events[n - 1], host);
    }
  }

  /** A waiter that gives up waiting takes the lock from a process that is alive and holds it. */
  predicate Robs(w: World, e: Event) {
    e.PollFile? && e.master && Stale(w, e.p) && Holds(w, w.file.owner)
  }

  /** Nobody becomes a holder except by writing the file. */
  lemma HoldsBefore(w: World, e: Event, host: Pid -> nat, p: Pid)
    requires Tidy(w) && Next(w, e, host).Some? && Holds(Next(w, e, host).value, p)
    ensures Holds(w, p) || Next(w, e, host).value == Acquire(w, p)
  {}

  /** While a process holds the lock, the file goes on naming it. */
  lemma HolderStaysNamed(w: World, e: Event, host: Pid -> nat, p: Pid)
    requires Next(w, e, host).Some? && !Robs(w, e)
    requires Holds(w, p) && w.file.File? && w.file.owner == p && Holds(Next(w, e, host).value, p)
    requires forall q :: Holds(w, q) ==> q == p
    ensures Next(w, e, host).value.file.File? && Next(w, e, host).value.file.owner == p
  {
    if e.Die? && w.procs[e.p].lockOwner == Some(e.p) && w.procs[e.p].gotLock {
      assert Holds(w, e.p);
    }
  }

  lemma SafeStep(w: World, e: Event, host: Pid -> nat)
    requires Tidy(w) && Safe(w) && Next(w, e, host).Some? && !Robs(w, e)
    ensures Safe(Next(w, e, host).value)
  {
    var w' := Next(w, e, host).value;
    forall p | Holds(w', p)
      ensures w'.file.File? && w'.file.owner == p
    {
      HoldsBefore(w, e, host, p);
      if Holds(w, p) {
        HolderStaysNamed(w, e, host, p);
      }
    }
  }

  lemma RobberyUnsafe(w: World, e: Event, host: Pid -> nat)
    requires Tidy(w) && Robs(w, e)
    ensures Next(w, e, host).Some? && !Safe(Next(w, e, host).value)
  {
    var o, w' := w.file.owner, Next(w, e, host).value;
    assert o != e.p;
    assert Holds(w', o) && Holds(w', e.p);
  }

  lemma {:induction false} SafeUpTo(t: Trace, host: Pid -> nat, n: nat)
    requires IsRun(t, host) && n <= |t.events|
    requires forall i :: 0 <= i < n ==> !Robs(t.states[i], t.events[i])
    ensures Safe(t.states[n])
    decreases n
  {
    if n > 0 {
      SafeUpTo(t, host, n - 1);
      RunTidy(t, host, n - 1);
      RunStep(t, host, n - 1);
      SafeStep(t.states[n - 1], t.events[n - 1], host);
    }
  }

  /** In every run: at most one holder at all times, named in the file, exactly if no takeover of a stale file
      hits a process that still holds the lock. */
  lemma SafeExactlyWithoutRobbery(t: Trace, host: Pid -> nat)
    requires IsRun(t, host)
    ensures (forall i :: 0 <= i < |t.states| ==> Safe(t.states[i])) <==>
            (forall i :: 0 <= i < |t.events| ==> !Robs(t.states[i], t.events[i]))
  {
    if forall i :: 0 <= i < |t.events| ==> !Robs(t.states[i], t.events[i]) {
      forall n | 0 <= n < |t.states|
        ensures Safe(t.states[n])
      {
        SafeUpTo(t, host, n);
      }
    }
    if i :| 0 <= i < |t.events| && Robs(t.states[i], t.events[i]) {
      RunTidy(t, host, i);
      RunStep(t, host, i);
      RobberyUnsafe(t.states[i], t.events[i], host);
      assert !Safe(t.states[i + 1]);
    }
  }

  // ----- A holder that touches the file in time is never robbed -----

  /** Polls by `p` among the events from `i` up to `j`. */
  function Polls(es: seq<Event>, i: nat, j: nat, p: Pid): nat
    requires i <= j <= |es|
    decreases j - i
  {
    if i == j then 0 else Polls(es, i, j - 1, p) + (if es[j - 1].PollFile? && es[j - 1].p == p then 1 else 0)
  }

  ghost predicate SixPolls(t: Trace, p: Pid, i: nat, j: nat) {
    i < j < |t.events| && Polls(t.events, i, j + 1, p) == 6
  }

  ghost predicate HeldThroughout(t: Trace, q: Pid, i: nat, j: nat) {
    i <= j < |t.states| && forall k :: i <= k <= j ==> Holds(t.states[k], q)
  }

  ghost predicate TouchedBetween(t: Trace, q: Pid, i: nat, j: nat) {
    exists k :: i <= k < j && k < |t.events| && t.events[k] == Touch(q)
  }

  /** In any six polls of one waiter, a process that holds the lock all the while touches the file. */
  ghost predicate Timely(t: Trace) {
    forall p, q, i, j :: SixPolls(t, p, i, j) && HeldThroughout(t, q, i, j) ==> TouchedBetween(t, q, i, j)
  }

  /** From `i0` to `n` the lock file has been the same. */
  ghost predicate SameFile(t: Trace, i0: nat, n: nat) {
    i0 <= n < |t.states| && forall k :: i0 <= k <= n ==> t.states[k].file == t.states[n].file
  }

  /** What a waiter's counter says: it polled that often since time `i0`, and if the file still has the remembered
      time stamp, it has not changed since then. */
  ghost predicate Waited(t: Trace, n: nat, p: Pid, i0: nat) {
    && |t.states| == |t.events| + 1 && i0 <= n <= |t.events|
    && p in t.states[n].procs && t.states[n].procs[p].phase.Poll?
    && Polls(t.events, i0, n, p) == t.states[n].procs[p].phase.retry
    && (t.states[n].file.File? && t.states[n].file.mtime == t.states[n].procs[p].phase.last ==> SameFile(t, i0, n))
  }

  /** A step either leaves the file alone, removes it, or gives it a new time stamp. */
  lemma FileStep(w: World, e: Event, host: Pid -> nat)
    requires Tidy(w) && Next(w, e, host).Some?
    ensures var w' := Next(w, e, host).value;
            w'.file == w.file || w'.file == NoFile || w'.file.mtime > w.clock
  {}

  predicate IsPoll(e: Event, p: Pid) { e.PollFile? && e.p == p }

  predicate Waits(w: World, p: Pid) { Live(w, p) && w.procs[p].phase.Poll? }

  /** A waiter has just taken note of the file, or was waiting before and did nothing, or has found the file as
      it remembered it and counted that. */
  lemma WaiterStep(w: World, e: Event, host: Pid -> nat, p: Pid)
    requires Tidy(w) && Next(w, e, host).Some? && Waits(Next(w, e, host).value, p)
    ensures var w' := Next(w, e, host).value;
            var ph := w'.procs[p].phase;
            || (ph.retry == 0 && w'.file.File? && ph.last == w'.file.mtime)
            || (Waits(w, p) && w.procs[p].phase == ph && !IsPoll(e, p))
            || (Waits(w, p) && IsPoll(e, p) && w'.file == w.file && w.file.File? && w.file.mtime == ph.last
                && ph.retry > 0 && w.procs[p].phase == Poll(ph.last, ph.retry - 1))
  {}

  predicate JustLooked(w: World, p: Pid)
    requires Waits(w, p)
  {
    w.procs[p].phase.retry == 0 && w.file.File? && w.procs[p].phase.last == w.file.mtime
  }

  /** The waiter counts its own poll, if it is one; and the file is left alone or gets another time stamp than the
      remembered one. */
  predicate WaitsOn(w: World, e: Event, w': World, p: Pid)
    requires Waits(w', p)
  {
    && Waits(w, p)
    && w'.procs[p].phase == Poll(w.procs[p].phase.last, w.procs[p].phase.retry + (if IsPoll(e, p) then 1 else 0))
    && (w'.file.File? && w'.file.mtime == w'.procs[p].phase.last ==> w'.file == w.file)
  }

  lemma WaiterMoves(w: World, e: Event, host: Pid -> nat, w': World, p: Pid)
    requires Tidy(w) && Next(w, e, host) == Some(w') && Waits(w', p)
    ensures JustLooked(w', p) || WaitsOn(w, e, w', p)
  {
    WaiterStep(w, e, host, p);
    FileStep(w, e, host);
    if Waits(w, p) {
      assert TidyProc(w, w.procs[p]);
    }
  }

  lemma {:induction false} WaitedSince(t: Trace, host: Pid -> nat, n: nat, p: Pid) returns (i0: nat)
    requires IsRun(t, host) && n <= |t.events| && Waits(t.states[n], p)
    ensures Waited(t, n, p, i0)
    decreases n
  {
    if JustLooked(t.states[n], p) {
      i0 := n;
    } else {
      RunTidy(t, host, n - 1);
      RunStep(t, host, n - 1);
      WaiterMoves(t.states[n - 1], t.events[n - 1], host, t.states[n], p);
      i0 := WaitedSince(t, host, n - 1, p);
      WaitedOn(t, n, p, i0);
    }
  }

  lemma WaitedOn(t: Trace, n: nat, p: Pid, i0: nat)
    requires 0 < n <= |t.events| && Waited(t, n - 1, p, i0)
    requires Waits(t.states[n], p) && WaitsOn(t.states[n - 1], t.events[n - 1], t.states[n], p)
    ensures Waited(t, n, p, i0)
  {}

  /** A process that holds the lock while the file stays the same has held it all along. */
  lemma {:induction false} HeldAllAlong(t: Trace, host: Pid -> nat, i: nat, n: nat, q: Pid)
    requires IsRun(t, host) && i <= n <= |t.events| && SameFile(t, i, n) && Holds(t.states[n], q)
    requires t.states[n].file.File?
    ensures HeldThroughout(t, q, i, n)
    decreases n
  {
    if i < n {
      RunTidy(t, host, n - 1);
      RunStep(t, host, n - 1);
      HoldsBefore(t.states[n - 1], t.events[n - 1], host, q);
      assert t.states[n - 1].file == t.states[n].file;
      HeldAllAlong(t, host, i, n - 1, q);
    }
  }

  lemma NoTouch(t: Trace, host: Pid -> nat, i: nat, n: nat, q: Pid)
    requires IsRun(t, host) && n <= |t.events| && SameFile(t, i, n) && t.states[n].file.File?
    ensures !TouchedBetween(t, q, i, n)
  {
    forall k | i <= k < n
      ensures t.events[k] != Touch(q)
    {
      RunTidy(t, host, k);
      RunStep(t, host, k);
      assert t.states[k].file == t.states[n].file && t.states[k + 1].file == t.states[n].file;
    }
  }

  /** A takeover of a file whose holder is alive is preceded by six polls in which the holder never touched it. */
  lemma TimelyNeverRobbed(t: Trace, host: Pid -> nat, n: nat)
    requires IsRun(t, host) && Timely(t) && n < |t.events|
    ensures !Robs(t.states[n], t.events[n])
  {
    var w, e := t.states[n], t.events[n];
    if Robs(w, e) {
      RunTidy(t, host, n);
      var i0 := WaitedSince(t, host, n, e.p);
      var q := w.file.owner;
      assert Polls(t.events, i0, n + 1, e.p) == 6;
      HeldAllAlong(t, host, i0, n, q);
      NoTouch(t, host, i0, n, q);
      assert SixPolls(t, e.p, i0, n);
      assert false;
    }
  }

  /** Main result: in every run of any number of daemons in which a holder touches the file within any six polls
      of a waiter, at most one process holds the lock at any time, and the lock file names it. */
  lemma TimelyRunsAreSafe(t: Trace, host: Pid -> nat, n: nat)
    requires IsRun(t, host) && Timely(t) && n < |t.states|
    ensures Safe(t.states[n])
    ensures forall p, q :: Holds(t.states[n], p) && Holds(t.states[n], q) ==> p == q
  {
    forall i | 0 <= i < |t.events|
      ensures !Robs(t.states[i], t.events[i])
    {
      TimelyNeverRobbed(t, host, i);
    }
    SafeExactlyWithoutRobbery(t, host);
  }

  // ----- Who removes the file -----

  /** The file goes exactly when a process dies that took the lock itself; a forked copy never removes it. */
  lemma OnlyHolderRemoves(w: World, e: Event, host: Pid -> nat)
    requires Tidy(w) && w.file.File? && Next(w, e, host).Some?
    ensures Next(w, e, host).value.file == NoFile <==> e.Die? && Holds(w, e.p)
    ensures e.Die? && Holds(w, e.p) && Safe(w) ==> w.file.owner == e.p
  {}

  lemma ForkedCopiesNeverHold(t: Trace, host: Pid -> nat, n: nat, k: nat)
    requires IsRun(t, host) && n < k <= |t.events| && t.events[n].Fork?
    ensures !Holds(t.states[k], t.events[n].child)
  {
    ForkedStays(t, host, n, k);
  }

  /** A forked copy keeps the lock owner of its parent, which is somebody else. */
  predicate Forked(w: World, c: Pid) {
    c in w.procs && w.procs[c].phase == Running && w.procs[c].lockOwner != Some(c)
  }

  lemma ForkedStep(w: World, e: Event, host: Pid -> nat, w': World, c: Pid)
    requires Tidy(w) && Next(w, e, host) == Some(w')
    requires Forked(w, c) || (e.Fork? && e.child == c)
    ensures Forked(w', c)
  {
    OneMoves(w, e, host, w');
  }

  lemma {:induction false} ForkedStays(t: Trace, host: Pid -> nat, n: nat, k: nat)
    requires IsRun(t, host) && n < k <= |t.events| && t.events[n].Fork?
    ensures Forked(t.states[k], t.events[n].child)
    decreases k
  {
    RunTidy(t, host, k - 1);
    RunStep(t, host, k - 1);
    if n < k - 1 {
      ForkedStays(t, host, n, k - 1);
    }
    ForkedStep(t.states[k - 1], t.events[k - 1], host, t.states[k], t.events[n].child);
  }

  // ----- Who runs and who holds, step by step -----

  /** When each step is possible; a process can touch the file exactly if it is the holder. */
  lemma PossibleExactly(w: World, e: Event, host: Pid -> nat)
    requires Tidy(w)
    ensures Next(w, e, host).Some? <==>
            match e
            case Start(p) => p !in w.procs
            case Open(p) => Live(w, p) && w.procs[p].phase == Access
            case PollFile(p, _) => Waits(w, p)
            case Touch(p) => Holds(w, p)
            case Die(p) => Live(w, p)
            case Crash(p) => Live(w, p)
            case Fork(p, c) => Live(w, p) && w.procs[p].phase == Running && c !in w.procs
  {
    if e.Touch? && e.p in w.procs {
      assert TidyProc(w, w.procs[e.p]);
    }
  }

  /** A touch leaves the owner and gives the file a time stamp that no waiter remembers; nothing else changes. */
  lemma TouchRefreshes(w: World, p: Pid, host: Pid -> nat, q: Pid)
    requires Tidy(w) && Holds(w, p) && w.file.File?
    ensures var w' := Next(w, Touch(p), host);
            && w'.Some? && w'.value.procs == w.procs && w'.value.file.File? && w'.value.file.owner == w.file.owner
            && (Waits(w, q) ==> w'.value.file.mtime > w.procs[q].phase.last)
  {
    assert TidyProc(w, w.procs[p]);
    assert q in w.procs ==> TidyProc(w, w.procs[q]);
  }

  /** What makes process `p` stop. */
  predicate Stops(w: World, e: Event, p: Pid) {
    e == Crash(p) || e == Die(p) || e == PollFile(p, false) || (e == Touch(p) && w.file == NoFile)
  }

  /** Processes come by being started or forked, and go by crashing, dying, not being master when they look, and
      touching a file that is not there; in no other way. */
  lemma LiveExactly(w: World, e: Event, host: Pid -> nat, p: Pid)
    requires Next(w, e, host).Some?
    ensures Live(Next(w, e, host).value, p) <==>
            (Live(w, p) && !Stops(w, e, p)) || e == Start(p) || (e.Fork? && e.child == p)
  {}

  /** Whoever is gone at some time after it was live has been stopped in between. */
  lemma {:induction false} GoneWasStopped(t: Trace, host: Pid -> nat, p: Pid, i: nat, n: nat)
    requires IsRun(t, host) && i <= n <= |t.events| && Live(t.states[i], p) && !Live(t.states[n], p)
    ensures exists k :: i <= k < n && Stops(t.states[k], t.events[k], p)
    decreases n
  {
    RunStep(t, host, n - 1);
    LiveExactly(t.states[n - 1], t.events[n - 1], host, p);
    if !Live(t.states[n - 1], p) {
      GoneWasStopped(t, host, p, i, n - 1);
    }
  }

  /** A process becomes the holder exactly by opening the file when there is none or it names a dead process of the
      same host, and by a poll as master that finds the file unchanged for the sixth time. */
  lemma BecomesHolderExactly(w: World, e: Event, host: Pid -> nat, p: Pid)
    requires Tidy(w) && Next(w, e, host).Some? && !Holds(w, p)
    ensures Holds(Next(w, e, host).value, p) <==>
            || (e == Open(p) && (w.file == NoFile || (host(w.file.owner) == host(p) && !Live(w, w.file.owner))))
            || (e == PollFile(p, true) && w.file.File? && w.procs[p].phase == Poll(w.file.mtime, 5))
  {
    if p in w.procs {
      assert TidyProc(w, w.procs[p]);
    }
  }

  /** A process stays the holder as long as it runs. */
  lemma StaysHolderExactly(w: World, e: Event, host: Pid -> nat, p: Pid)
    requires Tidy(w) && Next(w, e, host).Some? && Holds(w, p)
    ensures Holds(Next(w, e, host).value, p) <==> !Stops(w, e, p)
  {
    assert TidyProc(w, w.procs[p]);
  }

  // ----- A free lock is acquired within seven tries -----

  /** A process that has not got the lock yet. */
  predicate Wants(w: World, p: Pid) { Live(w, p) && w.procs[p].phase != Running }

  predicate IsTry(e: Event, p: Pid) { e == Open(p) || IsPoll(e, p) }

  /** Opens of the file and polls by `p` among the events up to `n`. */
  function Tries(es: seq<Event>, n: nat, p: Pid): nat
    requires n <= |es|
  {
    if n == 0 then 0 else Tries(es, n - 1, p) + (if IsTry(es[n - 1], p) then 1 else 0)
  }

  /** How many more tries of `p` it takes at most. */
  function TriesLeft(w: World, p: Pid): nat
    requires Tidy(w) && Wants(w, p)
  {
    var ph := w.procs[p].phase;
    if w.file == NoFile then (if ph == Access then 1 else 2)
    else if ph == Access then 7
    else if w.file.mtime == ph.last then STALE_RETRIES + 2 - ph.retry
    else STALE_RETRIES + 3
  }

  /** A stretch of a run during which `p` stays up and master and nobody else holds the lock. */
  ghost predicate Undisturbed(t: Trace, host: Pid -> nat, p: Pid) {
    && |t.states| == |t.events| + 1 && Tidy(t.states[0])
    && (forall i :: 0 <= i < |t.events| ==> Next(t.states[i], t.events[i], host) == Some(t.states[i + 1]))
    && (forall i :: 0 <= i < |t.events| ==> StaysUp(t.events[i], p))
    && (forall i :: 0 <= i < |t.states| ==> NobodyBut(t.states[i], p))
  }

  predicate StaysUp(e: Event, p: Pid) {
    (IsPoll(e, p) ==> e.master) && e != Crash(p) && e != Die(p)
  }

  ghost predicate NobodyBut(w: World, p: Pid) {
    forall q :: Holds(w, q) ==> q == p
  }

  /** While `p` wants the lock and nobody else holds it, only `p` changes the file: whoever else touches or removes it
      holds the lock before, and whoever else writes it holds the lock then. */
  lemma FileLeftAlone(w: World, e: Event, host: Pid -> nat, w': World, p: Pid)
    requires Tidy(w) && Wants(w, p) && Next(w, e, host) == Some(w')
    requires NobodyBut(w, p) && NobodyBut(w', p) && StaysUp(e, p) && !IsTry(e, p)
    ensures w'.file == w.file && w'.procs[p] == w.procs[p]
  {
    OneMoves(w, e, host, w');
    assert TidyProc(w, w.procs[p]);
    assert e.p in w.procs ==> TidyProc(w, w.procs[e.p]);
    assert e.p != p ==> !Holds(w, e.p) && !Holds(w', e.p);
  }

  /** Each try as master brings a process closer, unless it gets the lock. */
  lemma TryProgress(w: World, e: Event, host: Pid -> nat, w': World, p: Pid)
    requires Tidy(w) && Wants(w, p) && Next(w, e, host) == Some(w') && IsTry(e, p) && StaysUp(e, p)
    ensures Tidy(w') && (Holds(w', p) || (Wants(w', p) && TriesLeft(w', p) < TriesLeft(w, p)))
  {
    TidyStep(w, e, host);
    assert TidyProc(w, w.procs[p]);
  }

  /** If `p` has not got the lock yet, it has used up its tries so far one by one. */
  lemma {:induction false} StillTrying(t: Trace, host: Pid -> nat, p: Pid, n: nat)
    requires Undisturbed(t, host, p) && n < |t.states| && Wants(t.states[0], p)
    requires forall i :: 0 <= i <= n ==> !Holds(t.states[i], p)
    ensures Tidy(t.states[n]) && Wants(t.states[n], p)
    ensures TriesLeft(t.states[n], p) + Tries(t.events, n, p) <= TriesLeft(t.states[0], p)
    decreases n
  {
    if n > 0 {
      StillTrying(t, host, p, n - 1);
      var w, e, w' := t.states[n - 1], t.events[n - 1], t.states[n - 1 + 1];
      assert StaysUp(e, p) && NobodyBut(w, p) && NobodyBut(w', p);
      TidyStep(w, e, host);
      if IsTry(e, p) {
        TryProgress(w, e, host, w', p);
      } else {
        FileLeftAlone(w, e, host, w', p);
        OneMoves(w, e, host, w');
      }
    }
  }

  lemma AtLeastOneLeft(w: World, p: Pid)
    requires Tidy(w) && Wants(w, p)
    ensures 1 <= TriesLeft(w, p) <= 7
  {
    assert TidyProc(w, w.procs[p]);
  }

  /** A process that stays up and master while nobody else holds the lock has it after at most seven tries, whether
      there is a file or not. */
  lemma AcquiredWithinSeven(t: Trace, host: Pid -> nat, p: Pid)
    requires Undisturbed(t, host, p) && Wants(t.states[0], p) && Tries(t.events, |t.events|, p) >= 7
    ensures exists n :: 0 <= n < |t.states| && Holds(t.states[n], p) && Tries(t.events, n, p) <= 7
  {
    HeldAtLast(t, host, p);
    var n := FirstHeld(t, p);
    AtLeastOneLeft(t.states[0], p);
    if n > 0 {
      StillTrying(t, host, p, n - 1);
      AtLeastOneLeft(t.states[n - 1], p);
    }
    assert Tries(t.events, n, p) <= 7;
  }

  lemma HeldAtLast(t: Trace, host: Pid -> nat, p: Pid)
    requires Undisturbed(t, host, p) && Wants(t.states[0], p) && Tries(t.events, |t.events|, p) >= 7
    ensures exists i :: 0 <= i < |t.states| && Holds(t.states[i], p)
  {
    if forall i :: 0 <= i < |t.states| ==> !Holds(t.states[i], p) {
      StillTrying(t, host, p, |t.events|);
      AtLeastOneLeft(t.states[0], p);
      AtLeastOneLeft(t.states[|t.events|], p);
      assert false;
    }
  }

  lemma {:induction false} FirstHeld(t: Trace, p: Pid) returns (n: nat)
    requires exists i :: 0 <= i < |t.states| && Holds(t.states[i], p)
    ensures n < |t.states| && Holds(t.states[n], p) && forall i :: 0 <= i < n ==> !Holds(t.states[i], p)
  {
    n := 0;
    while !Holds(t.states[n], p)
      invariant n < |t.states| && forall i :: 0 <= i < n ==> !Holds(t.states[i], p)
      decreases |t.states| - n
    {
      n := n + 1;
    }
  }

  // ----- Left to itself, a process gets the lock -----

  /** What a process that wants the lock does as master. */
  function NextTry(w: World, p: Pid): Event
    requires p in w.procs
  {
    if w.procs[p].phase == Access then Open(p) else PollFile(p, true)
  }

  /** By itself `p` can take steps, at most `n`, after which it holds the lock. */
  ghost predicate GetsAlone(w: World, p: Pid, host: Pid -> nat, n: nat)
    decreases n
  {
    Holds(w, p) ||
    (n > 0 && Wants(w, p) && Next(w, NextTry(w, p), host).Some?
     && GetsAlone(Next(w, NextTry(w, p), host).value, p, host, n - 1))
  }

  /** From every state of every run, whoever else there is and whatever the file says: a process that wants the lock
      can always take its next step, and gets the lock by at most seven of them. */
  lemma {:induction false} AloneWithinSeven(w: World, p: Pid, host: Pid -> nat, n: nat)
    requires Tidy(w) && Wants(w, p) && n >= TriesLeft(w, p)
    ensures TriesLeft(w, p) <= 7 && GetsAlone(w, p, host, n)
    decreases n
  {
    AtLeastOneLeft(w, p);
    var e := NextTry(w, p);
    assert Next(w, e, host).Some?;
    var w' := Next(w, e, host).value;
    TryProgress(w, e, host, w', p);
    if !Holds(w', p) {
      AloneWithinSeven(w', p, host, n - 1);
    }
  }

  /** After the holder has gone and removed the file, a waiter that is master has the lock two steps later: a poll that
      sends it back, and an open. Nobody else is affected. */
  lemma FreeLockTaken(w: World, p: Pid, host: Pid -> nat)
    requires Tidy(w) && Waits(w, p) && w.file == NoFile
    ensures var w1 := Next(w, PollFile(p, true), host);
            && w1.Some? && w1.value.file == NoFile && Live(w1.value, p)
            && (var w2 := Next(w1.value, Open(p), host);
                && w2.Some? && Holds(w2.value, p) && w2.value.file.File? && w2.value.file.owner == p
                && forall q :: q in w.procs && q != p ==> q in w2.value.procs && w2.value.procs[q] == w.procs[q])
  {}

  /** Opening the file is always possible for a process that has just come up. It has the lock at once exactly if there
      is no file, or the file names a process of the same host that is gone; else the file is left alone, and the
      process remembers its time stamp and waits. */
  lemma OpenTakesExactly(w: World, p: Pid, host: Pid -> nat)
    requires Live(w, p) && w.procs[p].phase == Access && Tidy(w)
    ensures var w' := Next(w, Open(p), host);
            && w'.Some?
            && (Holds(w'.value, p) <==>
                w.file == NoFile || (host(w.file.owner) == host(p) && !Live(w, w.file.owner)))
            && (!Holds(w'.value, p) ==>
                  w'.value.file == w.file && Waits(w'.value, p)
                  && w'.value.procs[p].phase == Poll(w.file.mtime, 0))
  {
    assert TidyProc(w, w.procs[p]);
  }

  // ----- Without timeliness -----

  lemma PollCounts(w: World, p: Pid, r: nat, host: Pid -> nat)
    requires Live(w, p) && w.file.File? && r <= STALE_RETRIES
    ensures Next(SetPhase(w, p, Poll(w.file.mtime, r)), PollFile(p, true), host)
            == Some(SetPhase(w, p, Poll(w.file.mtime, r + 1)))
  {
    var w1 := SetPhase(w, p, Poll(w.file.mtime, r));
    assert SetPhase(w1, p, Poll(w.file.mtime, r + 1)).procs == SetPhase(w, p, Poll(w.file.mtime, r + 1)).procs;
  }

  function Now(t: Trace): World
    requires t.states != []
  {
    t.states[|t.states| - 1]
  }

  lemma Extend(t: Trace, e: Event, host: Pid -> nat) returns (t': Trace)
    requires IsRun(t, host) && Next(Now(t), e, host).Some?
    ensures IsRun(t', host) && Now(t') == Next(Now(t), e, host).value
  {
    t' := Trace(t.states + [Next(Now(t), e, host).value], t.events + [e]);
  }

  lemma RunUntilWaiting(host: Pid -> nat) returns (t: Trace, s: World)
    ensures IsRun(t, host) && Live(s, 2) && Holds(s, 1) && s.file.File?
    ensures Now(t) == SetPhase(s, 2, Poll(s.file.mtime, 0))
  {
    t := Trace([INIT], []);
    t := Extend(t, Start(1), host);
    t := Extend(t, Open(1), host);
    t := Extend(t, Start(2), host);
    s := Now(t);
    t := Extend(t, Open(2), host);
  }

  /** A holder that stops touching the file is robbed: some run has two processes holding the lock. */
  lemma SilentHolderRobbed(host: Pid -> nat)
    ensures exists t: Trace :: IsRun(t, host) && Holds(Now(t), 1) && Holds(Now(t), 2)
  {
    var t, s := RunUntilWaiting(host);
    var r := 0;
    while r <= STALE_RETRIES
      invariant r <= STALE_RETRIES + 1 && IsRun(t, host) && Now(t) == SetPhase(s, 2, Poll(s.file.mtime, r))
    {
      PollCounts(s, 2, r, host);
      t := Extend(t, PollFile(2, true), host);
      r := r + 1;
    }
    t := Extend(t, PollFile(2, true), host);
  }
}
