/** Many lock objects on one Windows path, interleaved step by step with each other and with an
    environment that renames and replaces whatever the operating system lets it.

    Axioms about the operating system, built into the steps:
    - a byte-range lock is exclusive per file identity;
    - a directory held by a guard (opened without delete sharing) keeps its place in the namespace;
    - a file with a live handle opened without delete sharing keeps its name in its directory;
    - a process that dies loses its handles, guards and locks. */
module LockProtocol {
  import opened Common
  import ResourceLock

  type Pid = nat
  type DirId = nat
  type FileId = nat

  /** How far one lock object has come in `acquire` or `release`. */
  datatype Phase =
    | Idle
    | Entered          // parent chain retained
    | Opened           // lock file created or opened
    | Identified       // first identity check passed
    | Locked           // operating-system lock held
    | Held             // identity checked again: acquire has returned
    | Releasing        // release has started
    | Unlocked         // unlocked, handle still open
    | UnlockFailed     // unlock raised, handle still open
    | Closed           // handle closed, guard still retained
    | Yielding         // the same, with an earlier failure to preserve
    | Stuck            // a close failed: handle and guard kept
    | Poisoned         // native ownership lost: guard kept for ever
    | Spent            // guard closed with an error, but not forgotten

  /** `native` is a lock-file handle no close of which has been confirmed. */
  datatype Object = Object(phase: Phase, guard: Option<DirId>, native: Option<FileId>, osLock: bool)

  const IDLE := Object(Idle, None, None, false)

  /** The directory the path's parent names now, what each directory binds the lock's leaf name to,
      and the lock objects. */
  datatype World = World(parent: DirId, leaf: map<DirId, FileId>, objects: map<Pid, Object>)

  function Get(w: World, p: Pid): Object {
    if p in w.objects then w.objects[p] else IDLE
  }

  function Put(w: World, p: Pid, o: Object): World {
    w.(objects := w.objects[p := o])
  }

  // ------------------------------------------------------------------- steps

  datatype Event =
    | Enter(p: Pid)
    | Leave(p: Pid)                          // acquire gives up before it has a handle
    | Create(p: Pid, file: FileId)
    | OpenExisting(p: Pid)
    | LoseNative(p: Pid, file: FileId, created: bool)
    | Identify(p: Pid)
    | TakeLock(p: Pid)
    | IdentifyAgain(p: Pid)
    | AbortClosed(p: Pid)                    // acquire fails after opening, close succeeds
    | AbortStuck(p: Pid)                     // acquire fails after opening, close fails
    | StartRelease(p: Pid)
    | Unlock(p: Pid)
    | UnlockFails(p: Pid, dropped: bool)      // raises, whether or not the system dropped the lock
    | CloseHandle(p: Pid)
    | CloseFails(p: Pid)
    | DropGuard(p: Pid)
    | DropGuardFails(p: Pid)
    | ForgetGuard(p: Pid)
    | SilentUnlock(p: Pid)                   // the system drops a lock whose close had failed
    | Crash(p: Pid)
    | RebindParent(dir: DirId)
    | RebindLeaf(dir: DirId, file: FileId)
    | UnbindLeaf(dir: DirId)

  predicate BoundHere(w: World, f: FileId) {
    w.parent in w.leaf && w.leaf[w.parent] == f
  }

  /** No other object holds the operating-system lock on this file. */
  ghost predicate LockFree(w: World, p: Pid, f: FileId) {
    forall q :: q in w.objects && q != p && w.objects[q].osLock ==> w.objects[q].native != Some(f)
  }

  ghost predicate NoGuard(w: World) {
    forall q :: q in w.objects ==> w.objects[q].guard.None?
  }

  ghost predicate NoHandle(w: World, f: FileId) {
    forall q :: q in w.objects ==> w.objects[q].native != Some(f)
  }

  /** Whether the name of the lock file in `dir` may be taken away. */
  ghost predicate LeafIsFree(w: World, dir: DirId) {
    dir in w.leaf ==> NoHandle(w, w.leaf[dir])
  }

  predicate MayAbort(phase: Phase) {
    phase in {Opened, Identified, Locked}
  }

  /** The step an event takes, where the operating system allows it. */
  ghost predicate Enabled(w: World, e: Event) {
    match e
    case Enter(p) => Get(w, p) == IDLE
    case Leave(p) => Get(w, p).phase == Entered
    case Create(p, f) => Get(w, p).phase == Entered && w.parent !in w.leaf
    case OpenExisting(p) => Get(w, p).phase == Entered && w.parent in w.leaf
    case LoseNative(p, f, created) =>
      Get(w, p).phase == Entered && (if created then w.parent !in w.leaf else BoundHere(w, f))
    case Identify(p) => Get(w, p).phase == Opened && Get(w, p).native.Some? && BoundHere(w, Get(w, p).native.value)
    case TakeLock(p) => Get(w, p).phase == Identified && Get(w, p).native.Some? && LockFree(w, p, Get(w, p).native.value)
    case IdentifyAgain(p) => Get(w, p).phase == Locked && Get(w, p).native.Some? && BoundHere(w, Get(w, p).native.value)
    case AbortClosed(p) => MayAbort(Get(w, p).phase)
    case AbortStuck(p) => MayAbort(Get(w, p).phase)
    case StartRelease(p) => Get(w, p).phase in {Held, Stuck}
    case Unlock(p) => Get(w, p).phase == Releasing
    case UnlockFails(p, _) => Get(w, p).phase == Releasing
    case CloseHandle(p) => Get(w, p).phase in {Unlocked, UnlockFailed}
    case CloseFails(p) => Get(w, p).phase in {Unlocked, UnlockFailed}
    case DropGuard(p) => Get(w, p).phase in {Closed, Yielding}
    case DropGuardFails(p) => Get(w, p).phase == Closed
    case ForgetGuard(p) => Get(w, p).phase == Spent
    case SilentUnlock(p) => Get(w, p).phase in {Stuck, Releasing, UnlockFailed}
    case Crash(p) => true
    case RebindParent(_) => NoGuard(w)
    case RebindLeaf(d, _) => LeafIsFree(w, d)
    case UnbindLeaf(d) => LeafIsFree(w, d)
  }

  function Step(w: World, e: Event): World {
    match e
    case Enter(p) => Put(w, p, Object(Entered, Some(w.parent), None, false))
    case Leave(p) => Put(w, p, IDLE)
    case Create(p, f) => Put(w.(leaf := w.leaf[w.parent := f]), p, Get(w, p).(phase := Opened, native := Some(f)))
    case OpenExisting(p) =>
      if w.parent in w.leaf then Put(w, p, Get(w, p).(phase := Opened, native := Some(w.leaf[w.parent]))) else w
    case LoseNative(p, f, created) =>
      var bound := if created then w.(leaf := w.leaf[w.parent := f]) else w;
      Put(bound, p, Get(w, p).(phase := Poisoned, native := Some(f)))
    case Identify(p) => Put(w, p, Get(w, p).(phase := Identified))
    case TakeLock(p) => Put(w, p, Get(w, p).(phase := Locked, osLock := true))
    case IdentifyAgain(p) => Put(w, p, Get(w, p).(phase := Held))
    case AbortClosed(p) => Put(w, p, Get(w, p).(phase := Yielding, native := None, osLock := false))
    case AbortStuck(p) => Put(w, p, Get(w, p).(phase := Stuck))
    case StartRelease(p) => Put(w, p, Get(w, p).(phase := Releasing))
    case Unlock(p) => Put(w, p, Get(w, p).(phase := Unlocked, osLock := false))
    case UnlockFails(p, dropped) =>
      Put(w, p, Get(w, p).(phase := UnlockFailed, osLock := Get(w, p).osLock && !dropped))
    case CloseHandle(p) =>
      var next := if Get(w, p).phase == Unlocked then Closed else Yielding;
      Put(w, p, Get(w, p).(phase := next, native := None, osLock := false))
    case CloseFails(p) => Put(w, p, Get(w, p).(phase := Stuck))
    case DropGuard(p) => Put(w, p, IDLE)
    case DropGuardFails(p) => Put(w, p, Object(Spent, None, None, false))
    case ForgetGuard(p) => Put(w, p, IDLE)
    case SilentUnlock(p) => Put(w, p, Get(w, p).(osLock := false))
    case Crash(p) => Put(w, p, IDLE)
    case RebindParent(d) => w.(parent := d)
    case RebindLeaf(d, f) => w.(leaf := w.leaf[d := f])
    case UnbindLeaf(d) => w.(leaf := w.leaf - {d})
  }

  /** The events, each allowed in its turn, lead from one world to the other. */
  ghost predicate Leads(start: World, events: seq<Event>, end: World)
    decreases |events|
  {
    if events == [] then start == end
    else
      var n := |events| - 1;
      exists mid :: Leads(start, events[..n], mid) && Enabled(mid, events[n]) && end == Step(mid, events[n])
  }

  /** A run from any namespace in which no lock object exists yet. */
  ghost predicate IsRun(start: World, events: seq<Event>, end: World) {
    start.objects == map[] && Leads(start, events, end)
  }

  // --------------------------------------------------------------- invariant

  predicate Retains(phase: Phase) {
    phase !in {Idle, Spent}
  }

  predicate HasNative(phase: Phase) {
    phase in {Opened, Identified, Locked, Held, Releasing, Unlocked, UnlockFailed, Stuck, Poisoned}
  }

  /** Each object's guard names the present parent and its handle the present lock file. */
  ghost predicate Anchored(w: World, o: Object) {
    && (o.guard.Some? <==> Retains(o.phase))
    && (o.guard.Some? ==> o.guard.value == w.parent)
    && (o.native.Some? <==> HasNative(o.phase))
    && (o.native.Some? ==> BoundHere(w, o.native.value))
    && (o.osLock ==> o.native.Some?)
    && (o.phase in {Locked, Held} ==> o.osLock)
    && (o.phase == Poisoned ==> !o.osLock)
  }

  ghost predicate Exclusive(w: World) {
    forall p, q ::
      (p in w.objects && q in w.objects && p != q && w.objects[p].osLock && w.objects[q].osLock)
      ==> w.objects[p].native != w.objects[q].native
  }

  ghost predicate Invariant(w: World) {
    (forall p :: p in w.objects ==> Anchored(w, w.objects[p])) && Exclusive(w)
  }

  /** A step of one object that leaves the namespace alone keeps the invariant if the object's new
      state is anchored and takes no lock. */
  lemma PutKeeps(w: World, p: Pid, o: Object)
    requires Invariant(w) && Anchored(w, o)
    requires o.osLock ==> LockFree(w, p, o.native.value)
    ensures Invariant(Put(w, p, o))
  {
    var v := Put(w, p, o);
    forall q | q in v.objects ensures Anchored(v, v.objects[q]) {
      assert v.objects[q] == (if q == p then o else w.objects[q]);
    }
  }

  /** Who holds a lock keeps everybody else off it. */
  lemma OwnLockIsFree(w: World, p: Pid)
    requires Invariant(w) && Get(w, p).osLock
    ensures Get(w, p).native.Some? && LockFree(w, p, Get(w, p).native.value)
  {
    assert p in w.objects;
    assert Anchored(w, w.objects[p]);
  }

  /** Creating the lock file where there is none disturbs nobody: with a live handle there would
      be one. */
  lemma CreateKeeps(w: World, p: Pid, f: FileId)
    requires Invariant(w) && w.parent !in w.leaf && Get(w, p).phase == Entered
    ensures Invariant(w.(leaf := w.leaf[w.parent := f]))
  {
    var v := w.(leaf := w.leaf[w.parent := f]);
    forall q | q in v.objects ensures Anchored(v, v.objects[q]) {
      assert Anchored(w, w.objects[q]);
    }
  }

  lemma StepKeepsInvariant(w: World, e: Event)
    requires Invariant(w) && Enabled(w, e)
    ensures Invariant(Step(w, e))
  {
    match e
    case RebindParent(_) => EnvironmentKeeps(w, e);
    case RebindLeaf(_, _) => EnvironmentKeeps(w, e);
    case UnbindLeaf(_) => EnvironmentKeeps(w, e);
    case Create(p, f) =>
      CreateKeeps(w, p, f);
      PutKeeps(w.(leaf := w.leaf[w.parent := f]), p, Get(w, p).(phase := Opened, native := Some(f)));
    case LoseNative(p, f, created) =>
      if created { CreateKeeps(w, p, f); }
      var bound := if created then w.(leaf := w.leaf[w.parent := f]) else w;
      PutKeeps(bound, p, Get(w, p).(phase := Poisoned, native := Some(f)));
    case _ => ObjectStepKeeps(w, e, e.p);
  }

  lemma EnvironmentKeeps(w: World, e: Event)
    requires Invariant(w) && Enabled(w, e)
    requires e.RebindParent? || e.RebindLeaf? || e.UnbindLeaf?
    ensures Invariant(Step(w, e))
  {
    var v := Step(w, e);
    forall q | q in v.objects ensures Anchored(v, v.objects[q]) {
      assert Anchored(w, w.objects[q]);
    }
  }

  lemma ObjectStepKeeps(w: World, e: Event, p: Pid)
    requires Invariant(w) && Enabled(w, e)
    requires !e.RebindParent? && !e.RebindLeaf? && !e.UnbindLeaf? && !e.Create? && !e.LoseNative? && e.p == p
    ensures Invariant(Step(w, e))
  {
    var o := Get(w, p);
    assert Anchored(w, o);
    var v := Step(w, e);
    var n := v.objects[p];
    assert v == Put(w, p, n);
    if o.osLock { OwnLockIsFree(w, p); }
    assert Anchored(w, n);
    PutKeeps(w, p, n);
  }

  lemma {:induction false} RunKeepsInvariant(start: World, events: seq<Event>, end: World)
    requires IsRun(start, events, end)
    ensures Invariant(end)
    decreases |events|
  {
    if events != [] {
      var n := |events| - 1;
      var mid :| Leads(start, events[..n], mid) && Enabled(mid, events[n]) && end == Step(mid, events[n]);
      RunKeepsInvariant(start, events[..n], mid);
      StepKeepsInvariant(mid, events[n]);
    }
  }

  // --------------------------------------------------------------- theorems

  /** Mutual exclusion over whole runs: at no time are two objects between the normal return of
      acquire and the start of release. */
  lemma MutualExclusion(start: World, events: seq<Event>, end: World, p: Pid, q: Pid)
    requires IsRun(start, events, end)
    requires Get(end, p).phase == Held && Get(end, q).phase == Held
    ensures p == q
  {
    RunKeepsInvariant(start, events, end);
    assert Anchored(end, end.objects[p]) && Anchored(end, end.objects[q]);
  }

  /** No split brain: while any lock-file handle is not confirmed closed, held, stuck or lost, its
      object retains the parent, and the path still names that parent and that file. */
  lemma UnconfirmedHandleRetainsPath(start: World, events: seq<Event>, end: World, p: Pid)
    requires IsRun(start, events, end)
    requires Get(end, p).native.Some?
    ensures Get(end, p).guard == Some(end.parent)
    ensures BoundHere(end, Get(end, p).native.value)
    ensures !Enabled(end, UnbindLeaf(end.parent))
    ensures forall d :: !Enabled(end, RebindParent(d))
  {
    RunKeepsInvariant(start, events, end);
    assert Anchored(end, end.objects[p]);
  }

  /** A poisoned object stays poisoned, with its guard, until its process dies, whatever it and the
      others do. */
  lemma {:induction false} PoisonStays(w: World, events: seq<Event>, v: World, p: Pid)
    requires Leads(w, events, v) && Get(w, p).phase == Poisoned && Crash(p) !in events
    ensures Get(v, p) == Get(w, p)
    decreases |events|
  {
    hide Step, Enabled;
    if events != [] {
      var n := |events| - 1;
      var mid :| Leads(w, events[..n], mid) && Enabled(mid, events[n]) && v == Step(mid, events[n]);
      PoisonStays(w, events[..n], mid, p);
      assert events[n] != Crash(p);
      PoisonStep(mid, events[n], p);
    }
  }

  lemma PoisonStep(w: World, e: Event, p: Pid)
    requires Get(w, p).phase == Poisoned && Enabled(w, e) && e != Crash(p)
    ensures Get(Step(w, e), p) == Get(w, p)
  {
  }

  /** The protocol is not empty: an object can come to hold the lock, and after its release
      another one can. */
  lemma HandOver(dir: DirId, file: FileId) returns (start: World, events: seq<Event>, end: World)
    ensures IsRun(start, events, end)
    ensures Get(end, 0) == IDLE && Get(end, 1).phase == Held
  {
    start := World(dir, map[], map[]);
    events, end := Acquires(start, [], start, 0, file);
    events, end := Releases(start, events, end, 0);
    events, end := Acquires(start, events, end, 1, file);
  }

  ghost predicate AllIdleBut(w: World, p: Pid) {
    forall q :: q in w.objects && q != p ==> w.objects[q] == IDLE
  }

  lemma Acquires(start: World, before: seq<Event>, mid: World, p: Pid, file: FileId)
    returns (events: seq<Event>, end: World)
    requires IsRun(start, before, mid) && Get(mid, p) == IDLE && AllIdleBut(mid, p)
    ensures IsRun(start, events, end) && Get(end, p).phase == Held && AllIdleBut(end, p)
    ensures forall q :: q != p ==> Get(end, q) == Get(mid, q)
  {
    events, end := ExtendOwn(start, before, mid, Enter(p), p);
    events, end := ExtendOwn(start, events, end, if end.parent in end.leaf then OpenExisting(p) else Create(p, file), p);
    events, end := ExtendOwn(start, events, end, Identify(p), p);
    events, end := ExtendOwn(start, events, end, TakeLock(p), p);
    events, end := ExtendOwn(start, events, end, IdentifyAgain(p), p);
  }

  lemma Releases(start: World, before: seq<Event>, mid: World, p: Pid) returns (events: seq<Event>, end: World)
    requires IsRun(start, before, mid) && Get(mid, p).phase == Held && AllIdleBut(mid, p)
    ensures IsRun(start, events, end) && Get(end, p) == IDLE && AllIdleBut(end, p)
    ensures forall q :: q != p ==> Get(end, q) == Get(mid, q)
  {
    events, end := ExtendOwn(start, before, mid, StartRelease(p), p);
    events, end := ExtendOwn(start, events, end, Unlock(p), p);
    events, end := ExtendOwn(start, events, end, CloseHandle(p), p);
    events, end := ExtendOwn(start, events, end, DropGuard(p), p);
  }

  lemma ExtendOwn(start: World, events: seq<Event>, mid: World, e: Event, p: Pid)
    returns (longer: seq<Event>, end: World)
    requires IsRun(start, events, mid) && Enabled(mid, e) && Concerns(e, p) && AllIdleBut(mid, p)
    ensures IsRun(start, longer, end) && end == Step(mid, e) && AllIdleBut(end, p)
    ensures forall q :: q != p ==> Get(end, q) == Get(mid, q)
  {
    longer, end := Extend(start, events, mid, e);
  }

  lemma Extend(start: World, events: seq<Event>, mid: World, e: Event) returns (longer: seq<Event>, end: World)
    requires Leads(start, events, mid) && Enabled(mid, e)
    ensures Leads(start, longer, end) && longer == events + [e] && end == Step(mid, e)
  {
    longer, end := events + [e], Step(mid, e);
    assert longer[..|longer| - 1] == events;
  }

  // ------------------------------------- the single object of the lock class

  predicate Resting(phase: Phase) {
    phase in {Idle, Held, Stuck, Poisoned, Spent}
  }

  /** The three fields of the lock object between calls. */
  function Fields(phase: Phase): ResourceLock.LockState
    requires Resting(phase)
  {
    match phase
    case Held => ResourceLock.LockState(true, ResourceLock.Live, false)
    case Stuck => ResourceLock.LockState(true, ResourceLock.Live, false)
    case Poisoned => ResourceLock.LockState(false, ResourceLock.Live, true)
    case Spent => ResourceLock.LockState(false, ResourceLock.Spent, false)
    case _ => ResourceLock.IDLE
  }

  /** `phase` lies inside a call that started when the object rested in `from`. */
  predicate Inside(from: Phase, phase: Phase) {
    || (from == Idle && phase in {Entered, Opened, Identified, Locked, Yielding})
    || (from in {Held, Stuck} && phase in {Releasing, Unlocked, UnlockFailed, Closed, Yielding})
  }

  /** One step of anybody leaves an object at rest, inside its call, or at rest with the fields that
      some outcome of that call leaves. */
  lemma CallsRefine(w: World, e: Event, p: Pid, from: Phase)
    requires Invariant(w) && Enabled(w, e) && e != Crash(p) && Resting(from)
    requires Get(w, p).phase == from || Inside(from, Get(w, p).phase)
    ensures var next := Get(Step(w, e), p).phase;
            || next == from
            || Inside(from, next)
            || (Resting(next) && exists c :: ResourceLock.After(Fields(from), c, true) == Fields(next))
  {
    var phase, next := Get(w, p).phase, Get(Step(w, e), p).phase;
    PhaseOfStep(w, e, p);
    if Concerns(e, p) && Resting(next) && next != from {
      var c := CallFor(from, next);
    }
  }

  /** Every run of the protocol is a run of the lock class: whatever an object's steps, interleaved
      with whatever others do, the fields it rests with are those of a lock since whose construction
      some calls were made, each with some outcome. A dead process leaves room for a new lock. */
  lemma {:induction false} EveryRunIsACallSequence(start: World, events: seq<Event>, end: World, p: Pid)
    returns (calls: seq<ResourceLock.Call>, rest: Phase)
    requires IsRun(start, events, end)
    ensures Resting(rest) && (Get(end, p).phase == rest || Inside(rest, Get(end, p).phase))
    ensures ResourceLock.Run(calls, true) == Fields(rest)
    decreases |events|
  {
    calls, rest := [], Idle;
    if events != [] {
      var n := |events| - 1;
      var mid :| Leads(start, events[..n], mid) && Enabled(mid, events[n]) && end == Step(mid, events[n]);
      if events[n] != Crash(p) {
        calls, rest := EveryRunIsACallSequence(start, events[..n], mid, p);
        RunKeepsInvariant(start, events[..n], mid);
        CallsRefine(mid, events[n], p, rest);
        var next := Get(end, p).phase;
        if next != rest && !Inside(rest, next) {
          var c :| ResourceLock.After(Fields(rest), c, true) == Fields(next);
          assert (calls + [c])[..|calls|] == calls;
          calls, rest := calls + [c], next;
        }
      }
    }
  }

  // ------------------------------- every call of the class is a protocol run

  /** What the operating system must allow for an idle object's acquire to have this outcome: a file
      is created only where there is none, an existing one opened only where there is one, and the
      lock taken only when nobody else holds it. Everything else may go either way. */
  ghost predicate Allowed(w: World, p: Pid, c: ResourceLock.Call) {
    (Get(w, p).phase == Idle && c.AcquireCall? && ResourceLock.ParentReady(c.acquire, true)) ==>
      && (c.acquire.open.Creates? ==> w.parent !in w.leaf)
      && (c.acquire.open.AlreadyExists? ==> w.parent in w.leaf)
      && (c.acquire.open.AlreadyExists? && c.acquire.locked ==> LockFree(w, p, w.leaf[w.parent]))
  }

  predicate Solo(events: seq<Event>, p: Pid) {
    forall i :: 0 <= i < |events| ==> Concerns(events[i], p) && !events[i].Crash?
  }

  lemma Then(w: World, events: seq<Event>, mid: World, e: Event, p: Pid) returns (longer: seq<Event>, v: World)
    requires Leads(w, events, mid) && Solo(events, p) && Enabled(mid, e) && Concerns(e, p) && !e.Crash?
    ensures Leads(w, longer, v) && Solo(longer, p) && v == Step(mid, e)
  {
    longer, v := Extend(w, events, mid, e);
  }

  /** Every call of the lock class, with every outcome the system allows, is a run of that object's
      own steps: it comes to rest with the fields the call leaves, and holds the lock exactly when
      it held it before or acquire returned normally. */
  lemma EveryCallIsARun(w: World, p: Pid, c: ResourceLock.Call, file: FileId) returns (events: seq<Event>, v: World)
    requires Invariant(w) && Resting(Get(w, p).phase) && Allowed(w, p, c)
    ensures Leads(w, events, v) && Solo(events, p) && Resting(Get(v, p).phase)
    ensures Fields(Get(v, p).phase) == ResourceLock.After(Fields(Get(w, p).phase), c, true)
    ensures c.AcquireCall? ==>
              (Get(v, p).phase == Held <==>
                 Get(w, p).phase == Held || (Get(w, p).phase == Idle && ResourceLock.Succeeds(c.acquire, true)))
    ensures c.ReleaseCall? ==> Get(v, p).phase != Held
  {
    hide Leads, Solo, Invariant;
    NoEvents(w, p);
    var phase := Get(w, p).phase;
    events, v := [], w;
    if c.AcquireCall? {
      if phase == Idle && ResourceLock.ParentReady(c.acquire, true) {
        events, v := AcquireIsARun(w, p, c.acquire, file);
      }
    } else if phase == Spent {
      events, v := Then(w, events, v, ForgetGuard(p), p);
    } else if phase in {Held, Stuck} {
      events, v := ReleaseIsARun(w, p, c.release, c.directoriesClose);
    }
  }

  lemma IdleIsIdle(w: World, p: Pid)
    requires Invariant(w) && Get(w, p).phase == Idle
    ensures Get(w, p) == IDLE
  {
    assert Anchored(w, Get(w, p));
  }

  lemma NoEvents(w: World, p: Pid)
    ensures Leads(w, [], w) && Solo([], p)
  {
  }

  /** Where an acquire that gets past the parent, and a release, come to rest. */
  function RestAfterAcquire(o: ResourceLock.AcquireOutcome): Phase {
    match ResourceLock.OpeningLeaves(o.open, true)
    case Nothing => Idle
    case Lost => Poisoned
    case Got =>
      if o.identified && o.prepared && o.locked && o.identifiedAgain then Held
      else if o.handleCloses then Idle
      else Stuck
  }

  function RestAfterRelease(o: ResourceLock.ReleaseOutcome, directoriesClose: bool): Phase {
    if !o.handleCloses then Stuck
    else if o.unlocks && !directoriesClose then Spent
    else Idle
  }

  lemma AcquireIsARun(w: World, p: Pid, o: ResourceLock.AcquireOutcome, file: FileId)
    returns (events: seq<Event>, v: World)
    requires Invariant(w) && Get(w, p).phase == Idle && Allowed(w, p, ResourceLock.AcquireCall(o))
    requires ResourceLock.ParentReady(o, true)
    ensures Leads(w, events, v) && Solo(events, p)
    ensures Get(v, p).phase == RestAfterAcquire(o)
  {
    hide Leads, Solo, Invariant;
    NoEvents(w, p);
    IdleIsIdle(w, p);
    var creates := o.open.Creates?;
    events, v := Then(w, [], w, Enter(p), p);
    match ResourceLock.OpeningLeaves(o.open, true)
    case Nothing =>
      events, v := Then(w, events, v, Leave(p), p);
    case Lost =>
      if creates {
        events, v := Then(w, events, v, LoseNative(p, file, true), p);
      } else {
        events, v := Then(w, events, v, LoseNative(p, w.leaf[w.parent], false), p);
      }
    case Got =>
      if creates {
        NobodyHasHandle(w);
        events, v := Then(w, events, v, Create(p, file), p);
      } else {
        events, v := Then(w, events, v, OpenExisting(p), p);
      }
      events, v := LockIsARun(w, events, v, p, o);
  }

  /** Where the lock file is missing no object has a handle. */
  lemma NobodyHasHandle(w: World)
    requires Invariant(w) && w.parent !in w.leaf
    ensures forall q :: q in w.objects ==> w.objects[q].native.None?
  {
    forall q | q in w.objects ensures w.objects[q].native.None? {
      assert Anchored(w, w.objects[q]);
    }
  }

  /** From an opened file to the end of acquire. */
  lemma LockIsARun(w: World, before: seq<Event>, mid: World, p: Pid, o: ResourceLock.AcquireOutcome)
    returns (events: seq<Event>, v: World)
    requires Leads(w, before, mid) && Solo(before, p)
    requires Get(mid, p).phase == Opened && Get(mid, p).native.Some? && BoundHere(mid, Get(mid, p).native.value)
    requires o.locked ==> LockFree(mid, p, Get(mid, p).native.value)
    ensures Leads(w, events, v) && Solo(events, p)
    ensures Get(v, p).phase ==
              (if o.identified && o.prepared && o.locked && o.identifiedAgain then Held
               else if o.handleCloses then Idle else Stuck)
  {
    hide Leads, Solo;
    events, v := before, mid;
    if o.identified {
      events, v := Then(w, events, v, Identify(p), p);
      if o.prepared && o.locked {
        events, v := Then(w, events, v, TakeLock(p), p);
        if o.identifiedAgain {
          events, v := Then(w, events, v, IdentifyAgain(p), p);
          return;
        }
      }
    }
    if o.handleCloses {
      events, v := Then(w, events, v, AbortClosed(p), p);
      events, v := Then(w, events, v, DropGuard(p), p);
    } else {
      events, v := Then(w, events, v, AbortStuck(p), p);
    }
  }

  lemma ReleaseIsARun(w: World, p: Pid, o: ResourceLock.ReleaseOutcome, directoriesClose: bool)
    returns (events: seq<Event>, v: World)
    requires Get(w, p).phase in {Held, Stuck}
    ensures Leads(w, events, v) && Solo(events, p)
    ensures Get(v, p).phase == RestAfterRelease(o, directoriesClose)
  {
    hide Leads, Solo;
    NoEvents(w, p);
    events, v := Then(w, [], w, StartRelease(p), p);
    if o.unlocks {
      events, v := Then(w, events, v, Unlock(p), p);
    } else {
      events, v := Then(w, events, v, UnlockFails(p, false), p);
    }
    if o.handleCloses {
      events, v := CloseIsARun(w, events, v, p, directoriesClose);
    } else {
      events, v := Then(w, events, v, CloseFails(p), p);
    }
  }

  /** From the unlock to the end of release, when the handle closes. */
  lemma CloseIsARun(w: World, before: seq<Event>, mid: World, p: Pid, directoriesClose: bool)
    returns (events: seq<Event>, v: World)
    requires Leads(w, before, mid) && Solo(before, p) && Get(mid, p).phase in {Unlocked, UnlockFailed}
    ensures Leads(w, events, v) && Solo(events, p)
    ensures Get(v, p).phase == (if Get(mid, p).phase == Unlocked && !directoriesClose then Spent else Idle)
  {
    hide Leads, Solo;
    events, v := Then(w, before, mid, CloseHandle(p), p);
    if Get(mid, p).phase == Unlocked && !directoriesClose {
      events, v := Then(w, events, v, DropGuardFails(p), p);
    } else {
      events, v := Then(w, events, v, DropGuard(p), p);
    }
  }

  predicate Concerns(e: Event, p: Pid) {
    !e.RebindParent? && !e.RebindLeaf? && !e.UnbindLeaf? && e.p == p
  }

  /** How one object's phase moves, others and the environment aside. */
  predicate Moves(e: Event, phase: Phase, next: Phase) {
    match phase
    case Idle => next == Entered || (e.Crash? && next == Idle)
    case Entered => next in {Idle, Opened, Poisoned}
    case Opened => next in {Identified, Yielding, Stuck} || (e.Crash? && next == Idle)
    case Identified => next in {Locked, Yielding, Stuck} || (e.Crash? && next == Idle)
    case Locked => next in {Held, Yielding, Stuck} || (e.Crash? && next == Idle)
    case Held => next == Releasing || (e.Crash? && next == Idle)
    case Stuck => next in {Stuck, Releasing} || (e.Crash? && next == Idle)
    case Releasing => next in {Releasing, Unlocked, UnlockFailed} || (e.Crash? && next == Idle)
    case Unlocked => next in {Closed, Stuck} || (e.Crash? && next == Idle)
    case UnlockFailed => next in {UnlockFailed, Yielding, Stuck} || (e.Crash? && next == Idle)
    case Closed => next in {Idle, Spent}
    case Yielding => next == Idle
    case Poisoned => e.Crash? && next == Idle
    case Spent => next == Idle
  }

  lemma PhaseOfStep(w: World, e: Event, p: Pid)
    requires Enabled(w, e)
    ensures if Concerns(e, p) then Moves(e, Get(w, p).phase, Get(Step(w, e), p).phase)
            else Get(Step(w, e), p).phase == Get(w, p).phase
  {
  }

  lemma CallFor(from: Phase, next: Phase) returns (c: ResourceLock.Call)
    requires Resting(from) && Resting(next)
    requires from == Idle ==> next in {Idle, Held, Stuck, Poisoned}
    requires from in {Held, Stuck} ==> next in {Idle, Spent, Held, Stuck}
    requires from == Spent ==> next in {Idle, Spent}
    requires from == Poisoned ==> next == Poisoned
    ensures ResourceLock.After(Fields(from), c, true) == Fields(next)
  {
    var closes := (h: int) => true;
    if from == Idle {
      var opening := if next == Poisoned then ResourceLock.Adoption(false, false, true, true)
                     else ResourceLock.Adoption(true, true, true, true);
      var o := ResourceLock.AcquireOutcome(next != Idle, true, [Some(1)], true,
                                           ResourceLock.Creates(opening), true, true, true, next == Held, false, closes);
      assert ResourceLock.OpeningLeaves(o.open, true) == if next == Poisoned then ResourceLock.Lost else ResourceLock.Got;
      c := ResourceLock.AcquireCall(o);
    } else {
      c := ResourceLock.ReleaseCall(ResourceLock.ReleaseOutcome(true, next in {Idle, Spent}, closes), next != Spent || from == Spent);
      if from == Spent && next == Spent {
        c := ResourceLock.AcquireCall(ResourceLock.AcquireOutcome(
          false, true, [], true, ResourceLock.CreateFails, true, true, true, true, true, closes));
      }
    }
  }
}
