/** The crash-aware resource lock and the retained Windows directory chain it relies on, with every
    operating-system step free to fail.

    The classes change state step by step as the source does; the functions `AfterAcquire` and
    `AfterRelease` give the resulting state in closed form, and the lemmas at the end are about
    every sequence of acquire and release with every pattern of failures. */
module ResourceLock {
  import opened Common

  function Reversed(s: seq<int>): (r: seq<int>)
    ensures |r| == |s|
    ensures forall i :: 0 <= i < |s| ==> r[i] == s[|s| - 1 - i]
  {
    if s == [] then [] else Reversed(s[1..]) + [s[0]]
  }

  // ------------------------------------------------- directory handle chain

  /** What the successive opens of a chain return; a failed open returns nothing. */
  function Opened(results: seq<Option<int>>): (handles: seq<int>)
    ensures |handles| <= |results|
    ensures forall i :: 0 <= i < |handles| ==> results[i] == Some(handles[i])
    ensures |handles| < |results| ==> results[|handles|].None?
  {
    if results == [] || results[0].None? then [] else [results[0].value] + Opened(results[1..])
  }

  lemma OpenedIs(results: seq<Option<int>>, chain: seq<int>)
    requires |chain| <= |results| && (|chain| < |results| ==> results[|chain|].None?)
    requires forall i :: 0 <= i < |chain| ==> results[i] == Some(chain[i])
    ensures Opened(results) == chain
  {
    var handles := Opened(results);
    assert |handles| == |chain|;
  }

  /** Native directory handles: the log of close attempts, and the handles whose close failed. */
  class HandleTable {
    var attempts: seq<int>
    var leaked: set<int>

    constructor ()
      ensures attempts == [] && leaked == {}
    {
      attempts, leaked := [], {};
    }

    /** Every handle gets one close attempt, whatever the earlier ones did. The first failure is
        raised at the end, unless there is a primary failure to preserve. */
    method CloseAll(handles: seq<int>, primary: bool, closes: int -> bool) returns (raised: bool)
      modifies this
      ensures attempts == old(attempts) + handles
      ensures leaked == old(leaked) + set h | h in handles && !closes(h)
      ensures raised <==> !primary && exists h :: h in handles && !closes(h)
    {
      var firstFailure := false;
      for i := 0 to |handles|
        invariant attempts == old(attempts) + handles[..i]
        invariant leaked == old(leaked) + set h | h in handles[..i] && !closes(h)
        invariant firstFailure <==> !primary && exists h :: h in handles[..i] && !closes(h)
      {
        var h := handles[i];
        assert handles[..i + 1] == handles[..i] + [h];
        attempts := attempts + [h];
        if !closes(h) {
          leaked := leaked + {h};
          if !primary {
            firstFailure := true;
          }
        }
      }
      assert handles[..|handles|] == handles;
      raised := firstFailure;
    }

    /** Opens a chain from the root down. When an open fails, every handle already opened gets one
        close attempt, deepest first. */
    method OpenDirectoryChain(results: seq<Option<int>>, closes: int -> bool) returns (chain: Option<seq<int>>)
      modifies this
      ensures chain.Some? <==> forall i :: 0 <= i < |results| ==> results[i].Some?
      ensures chain.Some? ==> chain.value == Opened(results) && |chain.value| == |results| && attempts == old(attempts)
      ensures chain.None? ==> attempts == old(attempts) + Reversed(Opened(results))
    {
      var handles: seq<int> := [];
      for i := 0 to |results|
        invariant |handles| == i && forall j :: 0 <= j < i ==> results[j] == Some(handles[j])
        invariant attempts == old(attempts)
      {
        if results[i].None? {
          OpenedIs(results, handles);
          var _ := CloseAll(Reversed(handles), true, closes);
          return None;
        }
        handles := handles + [results[i].value];
      }
      OpenedIs(results, handles);
      return Some(handles);
    }
  }

  datatype GuardPhase = NotEntered | Entered | Finished

  /** The generator behind `retain_windows_parent_namespace`: entered once, finished once. */
  class DirectoryGuard {
    const table: HandleTable
    var phase: GuardPhase
    var handles: seq<int>
    /** Whether the terminal handle is registered as a live authority. */
    var registered: bool

    constructor (table: HandleTable)
      ensures this.table == table && phase == NotEntered && handles == [] && !registered
    {
      this.table := table;
      phase, handles, registered := NotEntered, [], false;
    }

    ghost predicate Valid()
      reads this
    {
      && (phase == Entered <==> registered)
      && (phase == Entered ==> handles != [])
    }

    /** Opens and identifies the chain. On any failure every handle already opened gets one close
        attempt, deepest first, and nothing stays registered. */
    method Enter(results: seq<Option<int>>, identityOk: bool, closes: int -> bool) returns (ok: bool)
      requires Valid() && phase == NotEntered && table.attempts == []
      requires results != []
      modifies this, table
      ensures Valid()
      ensures ok <==> identityOk && forall i :: 0 <= i < |results| ==> results[i].Some?
      ensures ok ==> phase == Entered && handles == Opened(results) && |handles| == |results| && table.attempts == []
      ensures !ok ==> phase == Finished && table.attempts == Reversed(Opened(results))
    {
      var chain := table.OpenDirectoryChain(results, closes);
      if chain.None? {
        phase := Finished;
        return false;
      }
      handles := chain.value;
      if !identityOk {
        var _ := table.CloseAll(Reversed(handles), true, closes);
        phase := Finished;
        return false;
      }
      phase, registered := Entered, true;
      return true;
    }

    /** The first exit closes the whole chain, deepest first, one attempt a handle; it raises only
        without a primary failure. A later exit finds the generator finished and does nothing. */
    method Exit(primary: bool, closes: int -> bool) returns (raised: bool)
      requires Valid() && phase != NotEntered
      modifies this, table
      ensures Valid() && phase == Finished && handles == old(handles)
      ensures table.attempts == old(table.attempts) + (if old(phase) == Entered then Reversed(handles) else [])
      ensures raised <==> old(phase) == Entered && !primary && exists h :: h in handles && !closes(h)
    {
      if phase == Finished {
        return false;
      }
      registered, phase := false, Finished;
      raised := table.CloseAll(Reversed(handles), primary, closes);
      ReversedMembers(handles);
    }
  }

  lemma {:induction false} ReversedMembers(s: seq<int>)
    ensures forall h :: h in Reversed(s) <==> h in s
  {
    if s != [] {
      ReversedMembers(s[1..]);
    }
  }

  // --------------------------------------------------------- what may happen

  /** Adopting a native handle: CRT transfer, then the file object, each with a compensating close. */
  datatype Adoption = Adoption(transfers: bool, nativeCloses: bool, wraps: bool, descriptorCloses: bool)

  datatype Existing = OpenFails | Opens(adoption: Adoption)

  datatype OpenOutcome =
    | CreateFails
    | Creates(adoption: Adoption)
    | AlreadyExists(pathValid: bool, existing: Existing)

  datatype AcquireOutcome = AcquireOutcome(
    pathAdmitted: bool, parentReady: bool,
    chain: seq<Option<int>>, chainIdentity: bool,
    open: OpenOutcome, identified: bool, prepared: bool, locked: bool, identifiedAgain: bool,
    handleCloses: bool, directoryCloses: int -> bool)

  datatype ReleaseOutcome = ReleaseOutcome(unlocks: bool, handleCloses: bool, directoryCloses: int -> bool)

  /** What opening leaves behind: a file object, nothing, or a native handle nobody owns. */
  datatype Opening = Got | Nothing | Lost

  function AdoptionLeaves(a: Adoption): Opening {
    if a.transfers && a.wraps then Got
    else if (if a.transfers then a.descriptorCloses else a.nativeCloses) then Nothing
    else Lost
  }

  function OpeningLeaves(o: OpenOutcome, windows: bool): Opening {
    match o
    case CreateFails => Nothing
    case Creates(a) => if windows then AdoptionLeaves(a) else Got
    case AlreadyExists(pathValid, existing) =>
      if !pathValid || existing.OpenFails? then Nothing
      else if windows then AdoptionLeaves(existing.adoption) else Got
  }

  /** A handle nobody owns is one whose transfer or wrapping failed and whose compensating close
      failed too; only Windows has such a transfer. */
  lemma OpeningIs(o: OpenOutcome, windows: bool)
    ensures OpeningLeaves(o, windows) == Lost <==>
              windows &&
              var a := if o.Creates? then Some(o.adoption)
                       else if o.AlreadyExists? && o.pathValid && o.existing.Opens? then Some(o.existing.adoption) else None;
              a.Some? && ((!a.value.transfers && !a.value.nativeCloses) ||
                          (a.value.transfers && !a.value.wraps && !a.value.descriptorCloses))
    ensures OpeningLeaves(o, windows) == Got <==>
              (o.Creates? && (windows ==> o.adoption.transfers && o.adoption.wraps)) ||
              (o.AlreadyExists? && o.pathValid && o.existing.Opens? &&
               (windows ==> o.existing.adoption.transfers && o.existing.adoption.wraps))
  {
  }

  // ------------------------------------------------------- the lock's state

  /** The guard as the lock sees it: absent, live, or kept although its generator is finished. */
  datatype Guard = Absent | Live | Spent

  datatype LockState = LockState(handle: bool, guard: Guard, uncertain: bool)

  const IDLE := LockState(false, Absent, false)

  predicate Refuses(s: LockState) {
    s.handle || s.guard != Absent || s.uncertain
  }

  /** The parent is retained, or on POSIX made to exist. */
  predicate ParentReady(o: AcquireOutcome, windows: bool) {
    o.pathAdmitted &&
    (if windows then o.chainIdentity && forall i :: 0 <= i < |o.chain| ==> o.chain[i].Some?
     else o.parentReady)
  }

  predicate Succeeds(o: AcquireOutcome, windows: bool) {
    ParentReady(o, windows) && OpeningLeaves(o.open, windows) == Got &&
    o.identified && o.prepared && o.locked && o.identifiedAgain
  }

  function AfterAcquire(s: LockState, o: AcquireOutcome, windows: bool): LockState {
    if Refuses(s) || !ParentReady(o, windows) then s
    else
      var kept := if windows then Live else Absent;
      match OpeningLeaves(o.open, windows)
      case Nothing => IDLE
      case Lost => LockState(false, kept, true)
      case Got => if Succeeds(o, windows) || !o.handleCloses then LockState(true, kept, false) else IDLE
  }

  /** Whether leaving the guard without a primary failure raises. */
  predicate GuardRaises(s: LockState, directoriesClose: bool) {
    s.guard == Live && !directoriesClose
  }

  function AfterRelease(s: LockState, o: ReleaseOutcome, directoriesClose: bool): LockState {
    if s.uncertain || (s.handle && !o.handleCloses) then s
    else if GuardRaises(s, directoriesClose) && (s.handle ==> o.unlocks) then LockState(false, Spent, false)
    else IDLE
  }

  // ---------------------------------------------------------------- the lock

  class Lock {
    const windows: bool
    var handle: bool
    var guard: DirectoryGuard?
    var uncertain: bool
    /** A lock-file handle was opened and no close of it has returned normally. */
    ghost var unconfirmed: bool

    constructor (windows: bool)
      ensures this.windows == windows && State() == IDLE && Valid()
    {
      this.windows := windows;
      handle, guard, uncertain, unconfirmed := false, null, false, false;
    }

    function State(): LockState
      reads this, guard
    {
      LockState(handle, if guard == null then Absent else if guard.phase == Entered then Live else Spent, uncertain)
    }

    ghost predicate Valid()
      reads this, guard
    {
      && (unconfirmed <==> handle || uncertain)
      && !(handle && uncertain)
      && (guard != null ==> windows && guard.Valid() && guard.phase != NotEntered)
      && (uncertain ==> windows)
      && (windows && unconfirmed ==> State().guard == Live)
    }

    method AdoptWindowsKernelHandle(a: Adoption) returns (got: bool)
      modifies this`uncertain, this`unconfirmed
      ensures got <==> AdoptionLeaves(a) == Got
      ensures unconfirmed <==> AdoptionLeaves(a) != Nothing
      ensures uncertain <==> old(uncertain) || AdoptionLeaves(a) == Lost
      ensures got <==> a.transfers && a.wraps
      ensures uncertain && !old(uncertain) <==>
                !old(uncertain) && ((!a.transfers && !a.nativeCloses) || (a.transfers && !a.wraps && !a.descriptorCloses))
    {
      unconfirmed := true;
      if !a.transfers {
        if a.nativeCloses {
          unconfirmed := false;
        } else {
          uncertain := true;
        }
        return false;
      }
      if !a.wraps {
        if a.descriptorCloses {
          unconfirmed := false;
        } else {
          uncertain := true;
        }
        return false;
      }
      return true;
    }

    method OpenLockHandle(o: OpenOutcome) returns (got: bool)
      requires !unconfirmed
      modifies this`uncertain, this`unconfirmed
      ensures got <==> OpeningLeaves(o, windows) == Got
      ensures unconfirmed <==> OpeningLeaves(o, windows) != Nothing
      ensures uncertain <==> old(uncertain) || OpeningLeaves(o, windows) == Lost
    {
      match o
      case CreateFails =>
        return false;
      case Creates(a) =>
        if windows {
          got := AdoptWindowsKernelHandle(a);
        } else {
          unconfirmed := true;
          got := true;
        }
      case AlreadyExists(pathValid, existing) =>
        if !pathValid || existing.OpenFails? {
          return false;
        }
        if windows {
          got := AdoptWindowsKernelHandle(existing.adoption);
        } else {
          unconfirmed := true;
          got := true;
        }
    }

    /** Open, validate, lock, validate again; a failure after opening closes the handle, and keeps
        it when that close fails too. */
    method AcquireAfterParentReady(o: AcquireOutcome) returns (ok: bool)
      requires !unconfirmed && !handle && !uncertain
      modifies this`handle, this`uncertain, this`unconfirmed
      ensures ok <==> OpeningLeaves(o.open, windows) == Got && o.identified && o.prepared && o.locked && o.identifiedAgain
      ensures handle <==> ok || (OpeningLeaves(o.open, windows) == Got && !o.handleCloses)
      ensures uncertain <==> OpeningLeaves(o.open, windows) == Lost
      ensures unconfirmed <==> handle || uncertain
    {
      var got := OpenLockHandle(o.open);
      if !got {
        return false;
      }
      if !o.identified || !o.prepared || !o.locked || !o.identifiedAgain {
        if o.handleCloses {
          unconfirmed := false;
        } else {
          handle := true;
        }
        return false;
      }
      handle := true;
      return true;
    }

    /** `acquire`, with every failure branch. */
    method Acquire(o: AcquireOutcome) returns (returned: bool)
      requires Valid() && (windows ==> o.chain != [])
      modifies this
      ensures Valid()
      ensures returned <==> !Refuses(old(State())) && Succeeds(o, windows)
      ensures returned <==>
                && !old(handle) && old(guard) == null && !old(uncertain)
                && o.pathAdmitted
                && (windows ==> o.chainIdentity && forall i :: 0 <= i < |o.chain| ==> o.chain[i].Some?)
                && (!windows ==> o.parentReady)
                && ((o.open.Creates? && (windows ==> o.open.adoption.transfers && o.open.adoption.wraps)) ||
                    (o.open.AlreadyExists? && o.open.pathValid && o.open.existing.Opens? &&
                     (windows ==> o.open.existing.adoption.transfers && o.open.existing.adoption.wraps)))
                && o.identified && o.prepared && o.locked && o.identifiedAgain
      ensures returned ==> handle && !uncertain && (guard != null <==> windows)
      ensures !returned && old(State()) == IDLE ==>
                && (handle ==> !o.handleCloses)
                && (guard != null <==> windows && (handle || uncertain))
      ensures State() == AfterAcquire(old(State()), o, windows)
      ensures Refuses(old(State())) ==> guard == old(guard)
      ensures guard != old(guard) && guard != null ==> fresh(guard) && fresh(guard.table) && guard.table.attempts == []
    {
      if handle || guard != null || uncertain {
        return false;
      }
      if !o.pathAdmitted {
        return false;
      }
      if windows {
        var table := new HandleTable();
        var parentGuard := new DirectoryGuard(table);
        var entered := parentGuard.Enter(o.chain, o.chainIdentity, o.directoryCloses);
        if !entered {
          return false;
        }
        var ok := AcquireAfterParentReady(o);
        if !ok {
          if handle || uncertain {
            guard := parentGuard;
          } else {
            var raised := parentGuard.Exit(true, o.directoryCloses);
            assert !raised;
          }
          return false;
        }
        guard := parentGuard;
        return true;
      }
      if !o.parentReady {
        return false;
      }
      returned := AcquireAfterParentReady(o);
    }

    predicate DirectoriesClose(closes: int -> bool)
      reads this, guard
    {
      guard != null ==> forall h :: h in guard.handles ==> closes(h)
    }

    method ReleaseWindowsParentGuard(primary: bool, closes: int -> bool) returns (raised: bool)
      requires Valid() && !unconfirmed
      modifies this`guard, guard, if guard == null then {} else {guard.table}
      ensures Valid()
      ensures raised <==> GuardRaises(old(State()), old(DirectoriesClose(closes))) && !primary
      ensures State() == (if raised then LockState(false, Spent, false) else IDLE)
      ensures guard == if raised then old(guard) else null
      ensures old(guard) != null ==>
                old(guard).table.attempts == old(guard.table.attempts) +
                  (if old(State()).guard == Live then Reversed(old(guard.handles)) else [])
    {
      if guard == null {
        return false;
      }
      raised := guard.Exit(primary, closes);
      if !raised {
        guard := null;
      }
    }

    /** `release`, with every failure branch: the handle goes before the guard, and the guard stays
        whenever the handle may be alive. */
    method Release(o: ReleaseOutcome) returns (returned: bool)
      requires Valid()
      modifies this, guard, if guard == null then {} else {guard.table}
      ensures Valid()
      ensures returned <==>
                && !old(uncertain)
                && (old(handle) ==> o.unlocks && o.handleCloses)
                && (old(guard) != null && old(guard.phase) == Entered ==>
                      forall h :: h in old(guard.handles) ==> o.directoryCloses(h))
      ensures uncertain == old(uncertain) && (handle <==> old(handle) && !o.handleCloses)
      ensures guard == if uncertain || handle || (!returned && (old(handle) ==> o.unlocks)) then old(guard) else null
      ensures State() == AfterRelease(old(State()), o, old(DirectoriesClose(o.directoryCloses)))
      ensures old(guard) != null ==>
                old(guard).table.attempts == old(guard.table.attempts) +
                  (if old(State()).guard == Live && State().guard != Live then Reversed(old(guard.handles)) else [])
    {
      if uncertain {
        return false;
      }
      if !handle {
        var raised := ReleaseWindowsParentGuard(false, o.directoryCloses);
        return !raised;
      }
      if !o.unlocks {
        if o.handleCloses {
          handle, unconfirmed := false, false;
          var _ := ReleaseWindowsParentGuard(true, o.directoryCloses);
        }
        return false;
      }
      if !o.handleCloses {
        return false;
      }
      handle, unconfirmed := false, false;
      var raised := ReleaseWindowsParentGuard(false, o.directoryCloses);
      return !raised;
    }
  }

  // ---------------------------------------------------------------- all runs

  datatype Call =
    | AcquireCall(acquire: AcquireOutcome)
    | ReleaseCall(release: ReleaseOutcome, directoriesClose: bool)

  function After(s: LockState, c: Call, windows: bool): LockState {
    match c
    case AcquireCall(o) => AfterAcquire(s, o, windows)
    case ReleaseCall(o, d) => AfterRelease(s, o, d)
  }

  function Run(calls: seq<Call>, windows: bool): LockState {
    if calls == [] then IDLE else After(Run(calls[..|calls| - 1], windows), calls[|calls| - 1], windows)
  }

  /** The states a lock can ever be in. */
  predicate Possible(s: LockState, windows: bool) {
    || s == IDLE
    || s == LockState(true, if windows then Live else Absent, false)
    || (windows && s == LockState(false, Live, true))
    || (windows && s == LockState(false, Spent, false))
  }

  /** No failure pattern leads anywhere else. In particular a handle that is held, kept after a
      failed close, or lost in transfer always has its Windows parent guard live beside it. */
  lemma {:induction false} EveryRunIsPossible(calls: seq<Call>, windows: bool)
    ensures Possible(Run(calls, windows), windows)
    ensures windows && (Run(calls, windows).handle || Run(calls, windows).uncertain) ==>
              Run(calls, windows).guard == Live
  {
    if calls != [] {
      EveryRunIsPossible(calls[..|calls| - 1], windows);
    }
  }

  /** ... and each of those states is reached by some run. */
  lemma EveryPossibleIsReached(s: LockState, windows: bool) returns (calls: seq<Call>)
    requires Possible(s, windows)
    ensures Run(calls, windows) == s
  {
    var closes := (h: int) => true;
    var fine := Adoption(true, true, true, true);
    var won := AcquireOutcome(true, true, [Some(1)], true, Creates(fine), true, true, true, true, true, closes);
    assert Succeeds(won, windows);
    if s == IDLE {
      calls := [];
    } else if s.handle {
      calls := [AcquireCall(won)];
      RunOne(AcquireCall(won), windows);
    } else if s.uncertain {
      var lost := won.(open := Creates(Adoption(false, false, true, true)));
      assert OpeningLeaves(lost.open, windows) == Lost;
      calls := [AcquireCall(lost)];
      RunOne(AcquireCall(lost), windows);
    } else {
      var call := ReleaseCall(ReleaseOutcome(true, true, closes), false);
      calls := [AcquireCall(won), call];
      RunOne(AcquireCall(won), windows);
      assert calls[..1] == [AcquireCall(won)];
    }
  }

  lemma RunOne(c: Call, windows: bool)
    ensures Run([c], windows) == After(IDLE, c, windows)
  {
    assert [c][..0] == [];
    assert Run([], windows) == IDLE;
  }

  /** Poison is for ever: once native ownership is unknowable no later call changes anything. */
  lemma {:induction false} PoisonIsAbsorbing(before: seq<Call>, later: seq<Call>, windows: bool)
    requires Run(before, windows).uncertain
    ensures Run(before + later, windows) == Run(before, windows)
    decreases |later|
  {
    if later == [] {
      assert before + later == before;
    } else {
      var n := |later| - 1;
      PoisonIsAbsorbing(before, later[..n], windows);
      assert (before + later)[..|before + later| - 1] == before + later[..n];
    }
  }

  /** Recovery: from every state that is not poisoned, one release whose handle close succeeds and
      then at most one more reach the idle state, whatever unlock and the directory closes do. */
  lemma TwoReleasesRecover(s: LockState, windows: bool, o: ReleaseOutcome, d: bool, o': ReleaseOutcome, d': bool)
    requires Possible(s, windows) && !s.uncertain && o.handleCloses
    ensures AfterRelease(AfterRelease(s, o, d), o', d') == IDLE
    ensures !Refuses(IDLE)
  {
  }
}
