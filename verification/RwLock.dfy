/** The reader/writer lock built on a Windows SRW lock plus one flag that tells
    `unlock` which mode to release.

    The class at the end performs the lock functions in place.  The machine in
    the middle interleaves any number of threads, one atomic step at a time:
    each native call and each read or store of the flag is a step of its own,
    and both layers use the same step functions on a `Lock` value. */
module RwLock {

  // ----- The native SRW lock and the flag -----

  /** `Undefined` is the state after a release in a mode that is not held. */
  datatype Srw = Free | Shared(readers: nat) | Exclusive | Undefined

  datatype Lock = Lock(srw: Srw, flag: bool)

  const INITIAL := Lock(Free, false)

  const EBUSY := 16

  predicate CanShare(l: Lock) { l.srw.Free? || l.srw.Shared? }

  predicate CanExclude(l: Lock) { l.srw.Free? }

  function AcquireShared(l: Lock): Lock
    requires CanShare(l)
  {
    l.(srw := Shared(if l.srw.Free? then 1 else l.srw.readers + 1))
  }

  function AcquireExclusive(l: Lock): Lock
    requires CanExclude(l)
  {
    l.(srw := Exclusive)
  }

  function ReleaseShared(l: Lock): Lock {
    l.(srw := match l.srw
              case Shared(n) => if n == 0 then Undefined else if n == 1 then Free else Shared(n - 1)
              case _ => Undefined)
  }

  function ReleaseExclusive(l: Lock): Lock {
    l.(srw := if l.srw.Exclusive? then Free else Undefined)
  }

  function StoreFlag(l: Lock, value: bool): Lock {
    l.(flag := value)
  }

  /** What `unlock` does when no other thread interferes. */
  function Unlocked(l: Lock): Lock {
    if l.flag then ReleaseExclusive(StoreFlag(l, false)) else ReleaseShared(l)
  }

  /** What `wrlock` does when no other thread interferes. */
  function LockForWriting(l: Lock): Lock
    requires CanExclude(l)
  {
    StoreFlag(AcquireExclusive(l), true)
  }

  // ----- Threads and their steps -----

  /** Where a thread stands inside a lock function: before the store in
      `wrlock`/`trywrlock`, before the read in `unlock`, or before one of the
      statements of the branch that `unlock` took. */
  datatype Pc = Outside | SettingFlag | ReadingFlag | ClearingFlag | ReleasingExclusive | ReleasingShared

  /** A thread with the acquisitions it has not yet given back.  A thread may
      hold the lock for reading several times over. */
  datatype Thread = Thread(pc: Pc, shared: nat, exclusive: bool)

  datatype State = State(lock: Lock, threads: seq<Thread>)

  datatype Action =
    | GetShared(t: nat)          // rdlock, and tryrdlock that succeeds
    | GetExclusive(t: nat)       // the native half of wrlock, and of trywrlock that succeeds
    | FailTry(t: nat)            // tryrdlock or trywrlock returning EBUSY
    | SetFlag(t: nat)
    | CallUnlock(t: nat)
    | ReadFlag(t: nat)
    | ClearFlag(t: nat)
    | GiveExclusive(t: nat)
    | GiveShared(t: nat)

  /** Well-behaved threads only: `unlock` is called by a thread that holds the
      lock, and no thread calls in while inside another call.  A blocking call
      is a step that is not enabled until the native lock can be granted. */
  predicate Enabled(s: State, a: Action) {
    a.t < |s.threads| &&
    var th := s.threads[a.t];
    match a
    case GetShared(_) => th.pc == Outside && CanShare(s.lock)
    case GetExclusive(_) => th.pc == Outside && CanExclude(s.lock)
    case FailTry(_) => th.pc == Outside
    case SetFlag(_) => th.pc == SettingFlag
    case CallUnlock(_) => th.pc == Outside && (th.shared > 0 || th.exclusive)
    case ReadFlag(_) => th.pc == ReadingFlag
    case ClearFlag(_) => th.pc == ClearingFlag
    case GiveExclusive(_) => th.pc == ReleasingExclusive
    case GiveShared(_) => th.pc == ReleasingShared
  }

  function NewThread(s: State, a: Action): Thread
    requires Enabled(s, a)
  {
    var th := s.threads[a.t];
    match a
    case GetShared(_) => th.(shared := th.shared + 1)
    case GetExclusive(_) => th.(pc := SettingFlag, exclusive := true)
    case FailTry(_) => th
    case SetFlag(_) => th.(pc := Outside)
    case CallUnlock(_) => th.(pc := ReadingFlag)
    case ReadFlag(_) => th.(pc := if s.lock.flag then ClearingFlag else ReleasingShared)
    case ClearFlag(_) => th.(pc := ReleasingExclusive)
    case GiveExclusive(_) => th.(pc := Outside, exclusive := false)
    case GiveShared(_) => th.(pc := Outside, shared := if th.shared > 0 then th.shared - 1 else 0)
  }

  function NewLock(l: Lock, a: Action): Lock
    requires a.GetShared? ==> CanShare(l)
    requires a.GetExclusive? ==> CanExclude(l)
  {
    match a
    case GetShared(_) => AcquireShared(l)
    case GetExclusive(_) => AcquireExclusive(l)
    case SetFlag(_) => StoreFlag(l, true)
    case ClearFlag(_) => StoreFlag(l, false)
    case GiveExclusive(_) => ReleaseExclusive(l)
    case GiveShared(_) => ReleaseShared(l)
    case _ => l
  }

  function Do(s: State, a: Action): State
    requires Enabled(s, a)
  {
    State(NewLock(s.lock, a), s.threads[a.t := NewThread(s, a)])
  }

  function Start(n: nat): State {
    State(INITIAL, seq(n, _ => Thread(Outside, 0, false)))
  }

  /** Every schedule of enabled steps. */
  predicate Legal(s: State, acts: seq<Action>)
    decreases |acts|
  {
    acts == [] || (Enabled(s, acts[0]) && Legal(Do(s, acts[0]), acts[1..]))
  }

  function Run(s: State, acts: seq<Action>): State
    requires Legal(s, acts)
    decreases |acts|
  {
    if acts == [] then s else Run(Do(s, acts[0]), acts[1..])
  }

  // ----- The invariant -----

  datatype Mode = ForReading | ForWriting

  function Holds(th: Thread, m: Mode): nat {
    if m.ForReading? then th.shared else if th.exclusive then 1 else 0
  }

  /** Acquisitions in mode `m` that the threads together have not given back. */
  function Held(ths: seq<Thread>, m: Mode): nat {
    if ths == [] then 0 else Holds(ths[0], m) + Held(ths[1..], m)
  }

  /** The thread holds the lock exclusively and its flag is, or is about to be,
      up. */
  predicate FlagIsUpFor(th: Thread) {
    th.exclusive && th.pc != SettingFlag && th.pc != ReleasingExclusive
  }

  ghost predicate ThreadInv(th: Thread) {
    && (th.pc in {SettingFlag, ClearingFlag, ReleasingExclusive} ==> th.exclusive)
    && (th.pc == ReleasingShared ==> th.shared > 0)
    && (th.pc == ReadingFlag ==> th.shared > 0 || th.exclusive)
    && (th.exclusive ==> th.shared == 0 && th.pc != ReleasingShared)
  }

  ghost predicate SrwInv(s: State) {
    match s.lock.srw
    case Free => forall t | 0 <= t < |s.threads| :: s.threads[t].shared == 0 && !s.threads[t].exclusive
    case Shared(n) =>
      && n > 0 && n == Held(s.threads, ForReading)
      && forall t | 0 <= t < |s.threads| :: !s.threads[t].exclusive
    case Exclusive => exists w: nat :: SoleWriter(s.threads, w)
    case Undefined => false
  }

  ghost predicate SoleWriter(ths: seq<Thread>, w: nat) {
    w < |ths| && ths[w].exclusive && forall t | 0 <= t < |ths| && t != w :: ths[t].shared == 0 && !ths[t].exclusive
  }

  ghost predicate Inv(s: State) {
    && (forall t | 0 <= t < |s.threads| :: ThreadInv(s.threads[t]))
    && SrwInv(s)
    && (s.lock.flag <==> exists t :: 0 <= t < |s.threads| && FlagIsUpFor(s.threads[t]))
  }

  lemma {:induction false} HeldUpdate(ths: seq<Thread>, t: nat, th: Thread, m: Mode)
    requires t < |ths|
    ensures Held(ths[t := th], m) == Held(ths, m) - Holds(ths[t], m) + Holds(th, m)
    ensures Holds(ths[t], m) <= Held(ths, m)
  {
    if t == 0 {
      assert ths[t := th][1..] == ths[1..];
    } else {
      HeldUpdate(ths[1..], t - 1, th, m);
      assert ths[t := th][1..] == ths[1..][t - 1 := th];
    }
  }

  lemma {:induction false} NoneHeld(ths: seq<Thread>, m: Mode)
    ensures Held(ths, m) == 0 <==> forall t | 0 <= t < |ths| :: Holds(ths[t], m) == 0
  {
    if ths != [] {
      NoneHeld(ths[1..], m);
      assert forall t | 1 <= t < |ths| :: ths[t] == ths[1..][t - 1];
      assert forall t | 0 <= t < |ths| - 1 :: ths[1..][t] == ths[t + 1];
    }
  }

  lemma StartInv(n: nat)
    ensures Inv(Start(n))
  {
  }

  /** Every step of every thread keeps the native lock in step with what the
      threads hold. */
  lemma StepKeepsSrw(s: State, a: Action)
    requires Inv(s) && Enabled(s, a)
    ensures SrwInv(Do(s, a))
  {
    var s' := Do(s, a);
    HeldUpdate(s.threads, a.t, NewThread(s, a), ForReading);
    NoneHeld(s.threads, ForReading);
    NoneHeld(s'.threads, ForReading);
    assert ThreadInv(s.threads[a.t]);
    if s.lock.srw.Exclusive? {
      var w: nat :| SoleWriter(s.threads, w);
      if !a.GiveExclusive? {
        assert SoleWriter(s'.threads, w);
      }
    } else if a.GetExclusive? {
      assert SoleWriter(s'.threads, a.t);
    }
  }

  /** Every step keeps the flag up exactly while some writer stands between its
      store of TRUE and its store of FALSE. */
  lemma StepKeepsFlag(s: State, a: Action)
    requires Inv(s) && Enabled(s, a)
    ensures Do(s, a).lock.flag <==> exists t :: 0 <= t < |s.threads| && FlagIsUpFor(Do(s, a).threads[t])
  {
    var s' := Do(s, a);
    var th, th' := s.threads[a.t], s'.threads[a.t];
    assert ThreadInv(th);
    if !FlagIsUpFor(th') && s'.lock.flag {
      var w :| 0 <= w < |s.threads| && FlagIsUpFor(s.threads[w]);
      assert w != a.t;
      assert FlagIsUpFor(s'.threads[w]);
    }
  }

  lemma StepKeepsThreads(s: State, a: Action)
    requires Inv(s) && Enabled(s, a)
    ensures forall t | 0 <= t < |s.threads| :: ThreadInv(Do(s, a).threads[t])
  {
  }

  /** A thread about to read the flag in `unlock` finds it TRUE if and only if
      it holds the lock exclusively: a reader goes on to a shared release, a
      writer to an exclusive one. */
  lemma UnlockTakesTheRightBranch(s: State, t: nat)
    requires Inv(s) && t < |s.threads| && s.threads[t].pc == ReadingFlag
    ensures s.lock.flag <==> s.threads[t].exclusive
    ensures !s.lock.flag ==> s.threads[t].shared > 0
  {
  }

  lemma StepKeepsInv(s: State, a: Action)
    requires Inv(s) && Enabled(s, a)
    ensures Inv(Do(s, a))
  {
    StepKeepsSrw(s, a);
    StepKeepsFlag(s, a);
    StepKeepsThreads(s, a);
  }

  lemma {:induction false} RunKeepsInv(s: State, acts: seq<Action>)
    requires Inv(s) && Legal(s, acts)
    ensures Inv(Run(s, acts))
    decreases |acts|
  {
    if acts != [] {
      StepKeepsInv(s, acts[0]);
      RunKeepsInv(Do(s, acts[0]), acts[1..]);
    }
  }

  // ----- What holds in every reachable state -----

  /** A writer is alone, from its native acquire to its native release. */
  ghost predicate Exclusion(s: State) {
    forall t, u | 0 <= t < |s.threads| && 0 <= u < |s.threads| && t != u && s.threads[t].exclusive ::
      !s.threads[u].exclusive && s.threads[u].shared == 0
  }

  /** The flag is up only under an exclusive hold, and down whenever any thread
      reads. */
  ghost predicate FlagMeansWriter(s: State) {
    && (s.lock.flag ==> s.lock.srw.Exclusive? && exists t :: 0 <= t < |s.threads| && FlagIsUpFor(s.threads[t]))
    && (forall t | 0 <= t < |s.threads| && s.threads[t].shared > 0 :: !s.lock.flag)
  }

  predicate AboutToStore(th: Thread) { th.pc == SettingFlag || th.pc == ClearingFlag }

  predicate AboutToAccess(th: Thread) { AboutToStore(th) || th.pc == ReadingFlag }

  /** The flag needs no synchronisation of its own: no thread is about to store
      to it while another is about to read or store it. */
  ghost predicate NoFlagRace(s: State) {
    forall t, u | 0 <= t < |s.threads| && 0 <= u < |s.threads| && t != u ::
      !(AboutToStore(s.threads[t]) && AboutToAccess(s.threads[u]))
  }

  /** Every native release a thread is about to make is in the mode it holds. */
  ghost predicate ReleasesMatch(s: State) {
    forall t | 0 <= t < |s.threads| ::
      && (s.threads[t].pc == ReleasingExclusive ==> s.threads[t].exclusive && s.lock.srw.Exclusive?)
      && (s.threads[t].pc == ReleasingShared ==> s.threads[t].shared > 0 && s.lock.srw.Shared?)
  }

  lemma InvExcludes(s: State)
    requires Inv(s)
    ensures Exclusion(s)
  {
  }

  lemma InvReleases(s: State)
    requires Inv(s)
    ensures ReleasesMatch(s)
  {
  }

  /** Whatever the number of threads and however their steps interleave. */
  lemma EveryScheduleIsSafe(n: nat, acts: seq<Action>)
    requires Legal(Start(n), acts)
    ensures var s := Run(Start(n), acts);
      Exclusion(s) && FlagMeansWriter(s) && NoFlagRace(s) && ReleasesMatch(s) && !s.lock.srw.Undefined?
  {
    StartInv(n);
    RunKeepsInv(Start(n), acts);
    var s := Run(Start(n), acts);
    InvExcludes(s);
    InvReleases(s);
    assert forall t | 0 <= t < |s.threads| :: ThreadInv(s.threads[t]);
    assert s.lock.srw.Exclusive? ==> exists w: nat :: SoleWriter(s.threads, w);
  }

  /** Who is admitted, in every reachable state: a reader whenever no thread
      holds the lock exclusively, a writer whenever no thread holds it at all,
      and an `unlock` from every thread that holds it. */
  lemma AdmissionIff(n: nat, acts: seq<Action>, t: nat)
    requires Legal(Start(n), acts)
    ensures var s := Run(Start(n), acts);
      var outside := t < |s.threads| && s.threads[t].pc == Outside;
      && |s.threads| == n
      && (Enabled(s, GetShared(t)) <==>
          outside && forall u | 0 <= u < n :: !s.threads[u].exclusive)
      && (Enabled(s, GetExclusive(t)) <==>
          outside && forall u | 0 <= u < n :: !s.threads[u].exclusive && s.threads[u].shared == 0)
      && (Enabled(s, CallUnlock(t)) <==>
          outside && (s.threads[t].shared > 0 || s.threads[t].exclusive))
  {
    StartInv(n);
    RunKeepsInv(Start(n), acts);
    RunKeepsThreadCount(Start(n), acts);
    AdmittedInState(Run(Start(n), acts));
  }

  lemma AdmittedInState(s: State)
    requires Inv(s)
    ensures CanShare(s.lock) <==> forall u | 0 <= u < |s.threads| :: !s.threads[u].exclusive
    ensures CanExclude(s.lock) <==>
            forall u | 0 <= u < |s.threads| :: !s.threads[u].exclusive && s.threads[u].shared == 0
  {
    NoneHeld(s.threads, ForReading);
    if s.lock.srw.Exclusive? {
      var w: nat :| SoleWriter(s.threads, w);
    } else if s.lock.srw.Shared? {
      assert exists u :: 0 <= u < |s.threads| && Holds(s.threads[u], ForReading) != 0;
    }
  }

  lemma {:induction false} RunKeepsThreadCount(s: State, acts: seq<Action>)
    requires Legal(s, acts)
    ensures |Run(s, acts).threads| == |s.threads|
    decreases |acts|
  {
    if acts != [] {
      RunKeepsThreadCount(Do(s, acts[0]), acts[1..]);
    }
  }

  /** No call but a blocking acquire waits: a thread inside a lock function has a
      step of its own enabled in every reachable state. */
  lemma NoCallIsStuck(n: nat, acts: seq<Action>, t: nat)
    requires Legal(Start(n), acts) && t < |Run(Start(n), acts).threads|
    requires Run(Start(n), acts).threads[t].pc != Outside
    ensures exists a: Action :: a.t == t && Enabled(Run(Start(n), acts), a)
  {
    var s := Run(Start(n), acts);
    var a := match s.threads[t].pc
      case SettingFlag => SetFlag(t)
      case ReadingFlag => ReadFlag(t)
      case ClearingFlag => ClearFlag(t)
      case ReleasingExclusive => GiveExclusive(t)
      case _ => GiveShared(t);
    assert Enabled(s, a);
  }

  // ----- Balance -----

  predicate Gets(a: Action, m: Mode) { if m.ForReading? then a.GetShared? else a.GetExclusive? }

  predicate Gives(a: Action, m: Mode) { if m.ForReading? then a.GiveShared? else a.GiveExclusive? }

  function GetCount(acts: seq<Action>, m: Mode): nat {
    if acts == [] then 0 else (if Gets(acts[0], m) then 1 else 0) + GetCount(acts[1..], m)
  }

  function GiveCount(acts: seq<Action>, m: Mode): nat {
    if acts == [] then 0 else (if Gives(acts[0], m) then 1 else 0) + GiveCount(acts[1..], m)
  }

  lemma {:induction false} HeldIsTheDifference(s: State, acts: seq<Action>, m: Mode)
    requires Inv(s) && Legal(s, acts)
    ensures Held(Run(s, acts).threads, m) == Held(s.threads, m) + GetCount(acts, m) - GiveCount(acts, m)
    decreases |acts|
  {
    if acts != [] {
      var a := acts[0];
      StepKeepsInv(s, a);
      HeldIsTheDifference(Do(s, a), acts[1..], m);
      HeldUpdate(s.threads, a.t, NewThread(s, a), m);
      assert ThreadInv(s.threads[a.t]);
      InvExcludes(s);
      if a.GetExclusive? {
        assert !s.threads[a.t].exclusive;
      }
    }
  }

  lemma NobodyHoldsAtStart(n: nat, m: Mode)
    ensures Held(Start(n).threads, m) == 0
  {
    NoneHeld(Start(n).threads, m);
  }

  /** The lock is back in its initial state, free with the flag FALSE, exactly
      when each mode has been released as often as it was acquired. */
  lemma FreeIffBalanced(n: nat, acts: seq<Action>)
    requires Legal(Start(n), acts)
    ensures (Run(Start(n), acts).lock == INITIAL) <==>
            (&& GetCount(acts, ForReading) == GiveCount(acts, ForReading)
             && GetCount(acts, ForWriting) == GiveCount(acts, ForWriting))
  {
    StartInv(n);
    RunKeepsInv(Start(n), acts);
    var s := Run(Start(n), acts);
    NobodyHoldsAtStart(n, ForReading);
    NobodyHoldsAtStart(n, ForWriting);
    HeldIsTheDifference(Start(n), acts, ForReading);
    HeldIsTheDifference(Start(n), acts, ForWriting);
    FreeIffNothingHeld(s);
  }

  lemma FreeIffNothingHeld(s: State)
    requires Inv(s)
    ensures s.lock == INITIAL <==> Held(s.threads, ForReading) == 0 && Held(s.threads, ForWriting) == 0
  {
    NoneHeld(s.threads, ForReading);
    NoneHeld(s.threads, ForWriting);
    if s.lock.srw.Exclusive? {
      var w: nat :| SoleWriter(s.threads, w);
      assert Holds(s.threads[w], ForWriting) == 1;
    }
  }

  // ----- Balance of calls -----

  // A caller never chooses the mode of a release: it calls `unlock`, and the flag
  // decides.

  function UnlockCount(acts: seq<Action>): nat {
    if acts == [] then 0 else (if acts[0].CallUnlock? then 1 else 0) + UnlockCount(acts[1..])
  }

  /** The thread has called `unlock` and not released the native lock yet. */
  predicate InUnlock(th: Thread) {
    th.pc in {ReadingFlag, ClearingFlag, ReleasingExclusive, ReleasingShared}
  }

  function Unlocking(ths: seq<Thread>): nat {
    if ths == [] then 0 else (if InUnlock(ths[0]) then 1 else 0) + Unlocking(ths[1..])
  }

  lemma {:induction false} UnlockingUpdate(ths: seq<Thread>, t: nat, th: Thread)
    requires t < |ths|
    ensures Unlocking(ths[t := th]) ==
            Unlocking(ths) - (if InUnlock(ths[t]) then 1 else 0) + (if InUnlock(th) then 1 else 0)
  {
    if t == 0 {
      assert ths[t := th][1..] == ths[1..];
    } else {
      UnlockingUpdate(ths[1..], t - 1, th);
      assert ths[t := th][1..] == ths[1..][t - 1 := th];
    }
  }

  lemma {:induction false} NoneUnlocking(ths: seq<Thread>)
    requires forall t | 0 <= t < |ths| :: !InUnlock(ths[t])
    ensures Unlocking(ths) == 0
  {
    if ths != [] {
      NoneUnlocking(ths[1..]);
    }
  }

  /** Each call of `unlock` makes one native release, in one mode or the other,
      or is still under way. */
  lemma {:induction false} EachUnlockReleasesOnce(s: State, acts: seq<Action>)
    requires Legal(s, acts)
    ensures Unlocking(s.threads) + UnlockCount(acts) ==
            Unlocking(Run(s, acts).threads) + GiveCount(acts, ForReading) + GiveCount(acts, ForWriting)
    decreases |acts|
  {
    if acts != [] {
      var a := acts[0];
      UnlockingUpdate(s.threads, a.t, NewThread(s, a));
      EachUnlockReleasesOnce(Do(s, a), acts[1..]);
    }
  }

  /** Some thread is inside `unlock`. */
  ghost predicate SomeoneUnlocks(s: State) {
    exists t :: 0 <= t < |s.threads| && InUnlock(s.threads[t])
  }

  /** Lock balance, on calls: over any schedule, blocking calls, tries and failed
      tries mixed, once no `unlock` is under way the lock is in its initial state
      exactly when `unlock` was called once for each successful acquire.  Then
      the releases equal the acquires in each mode, although no call names a
      mode. */
  lemma UnlocksBalanceAcquires(n: nat, acts: seq<Action>)
    requires Legal(Start(n), acts) && !SomeoneUnlocks(Run(Start(n), acts))
    ensures (Run(Start(n), acts).lock == INITIAL) <==>
            (UnlockCount(acts) == GetCount(acts, ForReading) + GetCount(acts, ForWriting))
    ensures UnlockCount(acts) == GetCount(acts, ForReading) + GetCount(acts, ForWriting) ==>
              && GiveCount(acts, ForReading) == GetCount(acts, ForReading)
              && GiveCount(acts, ForWriting) == GetCount(acts, ForWriting)
  {
    StartInv(n);
    NoneUnlocking(Start(n).threads);
    NoneUnlocking(Run(Start(n), acts).threads);
    EachUnlockReleasesOnce(Start(n), acts);
    FreeIffBalanced(n, acts);
    GivesNeverExceedGets(n, acts, ForReading);
    GivesNeverExceedGets(n, acts, ForWriting);
  }

  lemma GivesNeverExceedGets(n: nat, acts: seq<Action>, m: Mode)
    requires Legal(Start(n), acts)
    ensures GiveCount(acts, m) <= GetCount(acts, m)
  {
    StartInv(n);
    NobodyHoldsAtStart(n, m);
    HeldIsTheDifference(Start(n), acts, m);
  }

  // ----- The functions themselves -----

  /** What a single uninterrupted `unlock` may rely on: the flag tells the mode,
      and the lock is held. */
  predicate FlagTellsTheMode(l: Lock) {
    (l.srw.Shared? && l.srw.readers > 0 && !l.flag) || (l.srw.Exclusive? && l.flag)
  }

  /** In every reachable state in which some thread may call `unlock`, that
      reliance is justified. */
  lemma UnlockMayRelyOnTheFlag(s: State, t: nat)
    requires Inv(s) && Enabled(s, CallUnlock(t))
    ensures FlagTellsTheMode(s.lock)
  {
  }

  /** The steps of `unlock`, run by one thread without interference. */
  function UnlockSteps(s: State, t: nat): seq<Action> {
    var branch := if s.lock.flag then [ClearFlag(t)] + ([GiveExclusive(t)] + []) else [GiveShared(t)] + [];
    [CallUnlock(t)] + ([ReadFlag(t)] + branch)
  }

  lemma RunStep(s: State, a: Action, rest: seq<Action>)
    requires Enabled(s, a) && Legal(Do(s, a), rest)
    ensures Legal(s, [a] + rest) && Run(s, [a] + rest) == Run(Do(s, a), rest)
  {
  }

  class NativeRwLock {
    var srwlock: Srw
    var haveExclusiveSrwlock: bool

    ghost function Value(): Lock
      reads this
    {
      Lock(srwlock, haveExclusiveSrwlock)
    }

    constructor ()
      ensures Value() == INITIAL
    {
      srwlock := Free;
      haveExclusiveSrwlock := false;
    }

    /** Returns once the native lock is granted, so the state it finds is one
        that admits a reader. */
    method RdLock() returns (r: nat)
      requires CanShare(Value())
      modifies this
      ensures r == 0 && Value() == AcquireShared(old(Value()))
      ensures srwlock == Shared(if old(srwlock).Shared? then old(srwlock).readers + 1 else 1)
    {
      srwlock := Shared(if srwlock.Free? then 1 else srwlock.readers + 1);
      return 0;
    }

    method TryRdLock() returns (r: nat)
      modifies this
      ensures CanShare(old(Value())) ==> r == 0 && Value() == AcquireShared(old(Value()))
      ensures !CanShare(old(Value())) ==> r == EBUSY && Value() == old(Value())
      ensures old(srwlock).Free? ==> r == 0 && srwlock == Shared(1)
      ensures old(srwlock).Shared? ==> r == 0 && srwlock == Shared(old(srwlock).readers + 1)
      ensures old(srwlock).Exclusive? ==> r != 0 && srwlock.Exclusive?
      ensures haveExclusiveSrwlock == old(haveExclusiveSrwlock)
    {
      if !(srwlock.Free? || srwlock.Shared?) {
        return EBUSY;
      }
      srwlock := Shared(if srwlock.Free? then 1 else srwlock.readers + 1);
      return 0;
    }

    method WrLock() returns (r: nat)
      requires CanExclude(Value())
      modifies this
      ensures r == 0 && Value() == LockForWriting(old(Value()))
      ensures srwlock.Exclusive? && haveExclusiveSrwlock
    {
      srwlock := Exclusive;
      haveExclusiveSrwlock := true;
      return 0;
    }

    method TryWrLock() returns (r: nat)
      modifies this
      ensures CanExclude(old(Value())) ==> r == 0 && Value() == LockForWriting(old(Value()))
      ensures !CanExclude(old(Value())) ==> r == EBUSY && Value() == old(Value())
      ensures old(srwlock).Free? ==> r == 0 && srwlock.Exclusive? && haveExclusiveSrwlock
      ensures !old(srwlock).Free? ==>
        r != 0 && srwlock == old(srwlock) && haveExclusiveSrwlock == old(haveExclusiveSrwlock)
    {
      if !srwlock.Free? {
        return EBUSY;
      }
      srwlock := Exclusive;
      haveExclusiveSrwlock := true;
      return 0;
    }

    /** Gives back exactly what was acquired: an exclusive hold leaves the lock
        in its initial state, a shared one takes one reader away. */
    method Unlock() returns (r: nat)
      requires FlagTellsTheMode(Value())
      modifies this
      ensures r == 0 && !haveExclusiveSrwlock
      ensures old(srwlock).Exclusive? || old(srwlock) == Shared(1) ==> srwlock == Free
      ensures old(srwlock).Shared? && old(srwlock).readers > 1 ==> srwlock == Shared(old(srwlock).readers - 1)
      ensures Value() == Unlocked(old(Value()))
    {
      if haveExclusiveSrwlock {
        haveExclusiveSrwlock := false;
        srwlock := Free;
      } else {
        srwlock := if srwlock.readers == 1 then Free else Shared(srwlock.readers - 1);
      }
      return 0;
    }
  }

  /** The function and the machine agree: run alone, the steps of `unlock` have
      the effect of the function, and leave the thread outside with one
      acquisition fewer. */
  lemma UnlockStepsDoUnlock(s: State, t: nat)
    requires Inv(s) && Enabled(s, CallUnlock(t))
    ensures Legal(s, UnlockSteps(s, t))
    ensures var s', th := Run(s, UnlockSteps(s, t)), s.threads[t];
      && s'.lock == Unlocked(s.lock)
      && s'.threads == s.threads[t := Thread(Outside, if th.exclusive then 0 else th.shared - 1, false)]
  {
    assert ThreadInv(s.threads[t]);
    var s1 := Do(s, CallUnlock(t));
    StepKeepsInv(s, CallUnlock(t));
    UnlockTakesTheRightBranch(s1, t);
    var s2 := Do(s1, ReadFlag(t));
    if s.lock.flag {
      var s3 := Do(s2, ClearFlag(t));
      RunStep(s3, GiveExclusive(t), []);
      RunStep(s2, ClearFlag(t), [GiveExclusive(t)] + []);
      RunStep(s1, ReadFlag(t), [ClearFlag(t)] + ([GiveExclusive(t)] + []));
    } else {
      RunStep(s2, GiveShared(t), []);
      RunStep(s1, ReadFlag(t), [GiveShared(t)] + []);
    }
    RunStep(s, CallUnlock(t), UnlockSteps(s, t)[1..]);
  }

  /** Likewise for `wrlock`. */
  lemma WrLockStepsDoWrLock(s: State, t: nat)
    requires Enabled(s, GetExclusive(t))
    ensures Legal(s, [GetExclusive(t)] + ([SetFlag(t)] + []))
    ensures var s' := Run(s, [GetExclusive(t)] + ([SetFlag(t)] + []));
      && s'.lock == LockForWriting(s.lock)
      && s'.threads == s.threads[t := s.threads[t].(exclusive := true)]
  {
    var s1 := Do(s, GetExclusive(t));
    RunStep(s1, SetFlag(t), []);
    RunStep(s, GetExclusive(t), [SetFlag(t)] + []);
  }
}
