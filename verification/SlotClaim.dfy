/** Any number of threads claiming profile slots without a lock, using their
    tables, and clearing every table, all interleaved.

    The flag test and the compare-and-swap are separate steps, as are a clear's
    read of a slot's flag and its wiping of that slot's table.  One table
    operation is one step. */
module SlotClaim {
  import opened Wrappers
  import opened ProfileStats
  import opened ProfileTable

  const THREAD_MAX: nat := 10

  datatype Slot = Slot(flag: bool, threadId: nat, table: Table)

  /** Where a thread stands: in the scan for a slot (before the test of flag
      `i`, before the swap on it, or before publishing slot `i` as its own), in
      a clear (before reading flag `i` or before wiping slot `i`), or outside.
      `Lost` is a scan that ran off the end and leaves no slot to use. */
  datatype Pc =
    | Outside
    | Testing(i: nat)
    | Swapping(i: nat)
    | Publishing(i: nat)
    | Lost
    | ClearReading(i: nat)
    | ClearWiping(i: nat)

  /** `pThread` is the thread-local pointer; `wiped` records which slots the
      thread's latest clear has wiped. */
  datatype Caller = Caller(pc: Pc, pThread: Option<nat>, wiped: set<nat>)

  /** `owner` records which thread won each swap, and `records` what each slot's
      table stands for; no step depends on either. */
  datatype State = State(slots: seq<Slot>, callers: seq<Caller>, owner: seq<Option<nat>>, records: seq<Records>)

  datatype Action =
    | CallIn(t: nat)
    | Test(t: nat)
    | Swap(t: nat)
    | Publish(t: nat)
    | Use(t: nat, op: Op)
    | StartClear(t: nat)
    | ReadForClear(t: nat)
    | Wipe(t: nat)

  predicate WellSized(s: State) {
    && |s.slots| == |s.owner| == |s.records| == THREAD_MAX
    && (forall t | 0 <= t < |s.callers| :: PcInRange(s.callers[t]))
  }

  predicate PcInRange(c: Caller) {
    && (c.pThread.Some? ==> c.pThread.value < THREAD_MAX)
    && match c.pc
       case Outside => true
       case Testing(i) => i <= THREAD_MAX
       case Swapping(i) => i < THREAD_MAX
       case Publishing(i) => i < THREAD_MAX
       case Lost => true
       case ClearReading(i) => i <= THREAD_MAX
       case ClearWiping(i) => i < THREAD_MAX
  }

  predicate Enabled(s: State, a: Action) {
    && WellSized(s)
    && a.t < |s.callers|
    && var c := s.callers[a.t];
       match a
       case CallIn(_) => c.pc.Outside? && c.pThread.None?
       case Test(_) => c.pc.Testing?
       case Swap(_) => c.pc.Swapping?
       case Publish(_) => c.pc.Publishing?
       case Use(_, op) => c.pc.Outside? && c.pThread.Some? && !op.Clear?
       case StartClear(_) => c.pc.Outside?
       case ReadForClear(_) => c.pc.ClearReading?
       case Wipe(_) => c.pc.ClearWiping?
  }

  function NewCaller(s: State, a: Action): Caller
    requires Enabled(s, a)
  {
    var c := s.callers[a.t];
    match a
    case CallIn(_) => c.(pc := Testing(0))
    case Test(_) =>
      var i := c.pc.i;
      c.(pc := if i == THREAD_MAX then Lost else if s.slots[i].flag then Testing(i + 1) else Swapping(i))
    case Swap(_) =>
      var i := c.pc.i;
      c.(pc := if s.slots[i].flag then Testing(i + 1) else Publishing(i))
    case Publish(_) => c.(pc := Outside, pThread := Some(c.pc.i))
    case Use(_, _) => c
    case StartClear(_) => c.(pc := ClearReading(0), wiped := {})
    case ReadForClear(_) =>
      var i := c.pc.i;
      c.(pc := if i < THREAD_MAX && s.slots[i].flag then ClearWiping(i) else Outside)
    case Wipe(_) => c.(pc := ClearReading(c.pc.i + 1), wiped := c.wiped + {c.pc.i})
  }

  function NewSlots(s: State, a: Action): seq<Slot>
    requires Enabled(s, a)
  {
    var c := s.callers[a.t];
    match a
    case Swap(_) => s.slots[c.pc.i := s.slots[c.pc.i].(flag := true)]
    case Publish(_) => s.slots[c.pc.i := s.slots[c.pc.i].(threadId := a.t)]
    case Use(_, op) =>
      var p := c.pThread.value;
      s.slots[p := s.slots[p].(table := Step(s.slots[p].table, op).0)]
    case Wipe(_) => s.slots[c.pc.i := s.slots[c.pc.i].(table := ClearTable(s.slots[c.pc.i].table))]
    case _ => s.slots
  }

  function NewOwner(s: State, a: Action): seq<Option<nat>>
    requires Enabled(s, a)
  {
    var c := s.callers[a.t];
    if a.Swap? && !s.slots[c.pc.i].flag then s.owner[c.pc.i := Some(a.t)] else s.owner
  }

  function NewRecords(s: State, a: Action): seq<Records>
    requires Enabled(s, a)
  {
    var c := s.callers[a.t];
    match a
    case Use(_, op) =>
      var p := c.pThread.value;
      s.records[p := SpecStep(s.records[p], op).0]
    case Wipe(_) => s.records[c.pc.i := map[]]
    case _ => s.records
  }

  function Do(s: State, a: Action): State
    requires Enabled(s, a)
  {
    State(NewSlots(s, a), s.callers[a.t := NewCaller(s, a)], NewOwner(s, a), NewRecords(s, a))
  }

  function FreshTable(): (tab: Table)
    ensures |tab| == TABLE_MAX
  {
    seq(TABLE_MAX, _ => Entry(false, "", false, 0, FRESH))
  }

  function Start(n: nat): State {
    State(seq(THREAD_MAX, _ => Slot(false, 0, FreshTable())),
          seq(n, _ => Caller(Outside, None, {})),
          seq(THREAD_MAX, _ => None),
          seq(THREAD_MAX, _ => map[]))
  }

  predicate Legal(s: State, acts: seq<Action>)
    decreases |acts|
  {
    acts == [] || (Enabled(s, acts[0]) && Legal(Do(s, acts[0]), acts[1..]))
  }

  function Run(s: State, acts: seq<Action>): State
    requires Legal(s, acts)
    decreases |acts|
  {
    if acts == [] then s else Run(Do(s, acts[0]), acts[1..])
  }

  lemma RunStep(s: State, a: Action, rest: seq<Action>)
    requires Enabled(s, a) && Legal(Do(s, a), rest)
    ensures Legal(s, [a] + rest) && Run(s, [a] + rest) == Run(Do(s, a), rest)
  {
  }

  // ----- The invariant -----

  /** The thread has won slot `i`, whether or not it has published it yet. */
  predicate Owns(c: Caller, i: nat) { c.pc == Publishing(i) || c.pThread == Some(i) }

  ghost predicate ClaimedUpTo(slots: seq<Slot>, n: nat) {
    n <= |slots| && forall i | 0 <= i < n :: slots[i].flag
  }

  ghost predicate Prefix(slots: seq<Slot>) {
    forall i, j | 0 <= i < j < |slots| && slots[j].flag :: slots[i].flag
  }

  /** What a thread may rely on about the slots, from where it stands. */
  ghost predicate CallerInv(slots: seq<Slot>, c: Caller) {
    match c.pc
    case Testing(i) => c.pThread.None? && ClaimedUpTo(slots, i)
    case Swapping(i) => c.pThread.None? && ClaimedUpTo(slots, i)
    case Publishing(i) => c.pThread.None?
    case Lost => c.pThread.None? && ClaimedUpTo(slots, THREAD_MAX)
    case ClearReading(i) => ClaimedUpTo(slots, i) && forall j: nat :: j in c.wiped <==> j < i
    case ClearWiping(i) => ClaimedUpTo(slots, i + 1) && forall j: nat :: j in c.wiped <==> j < i
    case Outside => true
  }

  ghost predicate OwnerInv(s: State)
    requires WellSized(s)
  {
    && (forall i | 0 <= i < THREAD_MAX :: s.slots[i].flag <==> s.owner[i].Some?)
    && (forall i | 0 <= i < THREAD_MAX && s.owner[i].Some? ::
          s.owner[i].value < |s.callers| && Owns(s.callers[s.owner[i].value], i))
    && (forall t, i | 0 <= t < |s.callers| && 0 <= i < THREAD_MAX && Owns(s.callers[t], i) :: s.owner[i] == Some(t))
  }

  ghost predicate SlotInv(slot: Slot, m: Records) {
    Refines(slot.table, m) && (!slot.flag ==> m == map[])
  }

  ghost predicate TablesInv(s: State)
    requires WellSized(s)
  {
    forall i | 0 <= i < THREAD_MAX :: SlotInv(s.slots[i], s.records[i])
  }

  ghost predicate ClaimInv(s: State) {
    && WellSized(s)
    && Prefix(s.slots)
    && OwnerInv(s)
    && (forall t | 0 <= t < |s.callers| :: CallerInv(s.slots, s.callers[t]))
  }

  ghost predicate Inv(s: State) { ClaimInv(s) && TablesInv(s) }

  lemma StartInv(n: nat)
    ensures Inv(Start(n))
  {
  }

  /** Flags are only ever raised, and one is raised only by a swap that found it
      down with every earlier flag up. */
  lemma FlagsOnlyRise(s: State, a: Action)
    requires ClaimInv(s) && Enabled(s, a)
    ensures WellSized(Do(s, a)) && Prefix(Do(s, a).slots)
    ensures forall i | 0 <= i < THREAD_MAX && s.slots[i].flag :: Do(s, a).slots[i].flag
  {
    assert CallerInv(s.slots, s.callers[a.t]);
    assert PcInRange(NewCaller(s, a));
  }

  /** A raised flag never upsets what another thread relies on. */
  lemma RisingFlagsKeepCaller(slots: seq<Slot>, slots': seq<Slot>, c: Caller)
    requires |slots| == |slots'| && CallerInv(slots, c)
    requires forall i | 0 <= i < |slots| && slots[i].flag :: slots'[i].flag
    ensures CallerInv(slots', c)
  {
  }

  lemma StepKeepsActor(s: State, a: Action)
    requires ClaimInv(s) && Enabled(s, a)
    ensures CallerInv(NewSlots(s, a), NewCaller(s, a))
  {
    FlagsOnlyRise(s, a);
    var c, c' := s.callers[a.t], NewCaller(s, a);
    RisingFlagsKeepCaller(s.slots, NewSlots(s, a), c);
    if a.Test? || a.Swap? || a.ReadForClear? {
      ClaimOneMore(NewSlots(s, a), c.pc.i);
    } else if a.Wipe? {
      assert forall j: nat :: j in c'.wiped <==> j < c.pc.i + 1;
    }
  }

  lemma ClaimOneMore(slots: seq<Slot>, n: nat)
    requires ClaimedUpTo(slots, n)
    ensures n < |slots| && slots[n].flag ==> ClaimedUpTo(slots, n + 1)
  {
  }

  lemma StepKeepsCallers(s: State, a: Action)
    requires ClaimInv(s) && Enabled(s, a)
    ensures forall t | 0 <= t < |s.callers| :: CallerInv(Do(s, a).slots, Do(s, a).callers[t])
  {
    FlagsOnlyRise(s, a);
    StepKeepsActor(s, a);
    var s' := Do(s, a);
    forall t | 0 <= t < |s.callers| ensures CallerInv(s'.slots, s'.callers[t]) {
      if t != a.t {
        RisingFlagsKeepCaller(s.slots, s'.slots, s.callers[t]);
      }
    }
  }

  /** The step is a swap that finds its flag down. */
  predicate Wins(s: State, a: Action)
    requires Enabled(s, a)
  {
    a.Swap? && !s.slots[s.callers[a.t].pc.i].flag
  }

  /** Ownership, like the flags, changes only when a swap succeeds. */
  lemma OwnershipChange(s: State, a: Action, i: nat)
    requires ClaimInv(s) && Enabled(s, a) && i < THREAD_MAX
    ensures var won := Wins(s, a) && s.callers[a.t].pc.i == i;
      && NewSlots(s, a)[i].flag == (s.slots[i].flag || won)
      && NewOwner(s, a)[i] == (if won then Some(a.t) else s.owner[i])
      && Owns(NewCaller(s, a), i) == (Owns(s.callers[a.t], i) || won)
  {
  }

  lemma StepKeepsOwners(s: State, a: Action)
    requires ClaimInv(s) && Enabled(s, a)
    ensures WellSized(Do(s, a)) && OwnerInv(Do(s, a))
  {
    FlagsOnlyRise(s, a);
    var s' := Do(s, a);
    forall i | 0 <= i < THREAD_MAX
      ensures s'.slots[i].flag <==> s'.owner[i].Some?
      ensures s'.owner[i].Some? ==> s'.owner[i].value < |s'.callers| && Owns(s'.callers[s'.owner[i].value], i)
      ensures forall t | 0 <= t < |s'.callers| && Owns(s'.callers[t], i) :: s'.owner[i] == Some(t)
    {
      OwnershipChange(s, a, i);
      assert s.slots[i].flag <==> s.owner[i].Some?;
      forall t | 0 <= t < |s'.callers| && Owns(s'.callers[t], i) ensures s'.owner[i] == Some(t) {
        if t != a.t {
          assert Owns(s.callers[t], i);
        }
      }
    }
  }

  lemma OwnerIsRecorded(s: State, t: nat, i: nat)
    requires ClaimInv(s) && t < |s.callers| && Owns(s.callers[t], i)
    ensures i < THREAD_MAX && s.owner[i] == Some(t) && s.slots[i].flag
  {
  }

  lemma StepKeepsSlot(s: State, a: Action, i: nat)
    requires Inv(s) && Enabled(s, a) && i < THREAD_MAX
    ensures SlotInv(NewSlots(s, a)[i], NewRecords(s, a)[i])
  {
    var c, slot, m := s.callers[a.t], s.slots[i], s.records[i];
    assert SlotInv(slot, m);
    if a.Use? && c.pThread.value == i {
      OwnerIsRecorded(s, a.t, i);
      StepRefines(slot.table, m, a.op);
    } else if a.Wipe? && c.pc.i == i {
      ClearRefines(slot.table);
    }
  }

  lemma StepKeepsTables(s: State, a: Action)
    requires Inv(s) && Enabled(s, a)
    ensures WellSized(Do(s, a)) && TablesInv(Do(s, a))
  {
    FlagsOnlyRise(s, a);
    forall i | 0 <= i < THREAD_MAX ensures SlotInv(Do(s, a).slots[i], Do(s, a).records[i]) {
      StepKeepsSlot(s, a, i);
    }
  }

  lemma StepKeepsInv(s: State, a: Action)
    requires Inv(s) && Enabled(s, a)
    ensures Inv(Do(s, a))
  {
    FlagsOnlyRise(s, a);
    StepKeepsCallers(s, a);
    StepKeepsOwners(s, a);
    StepKeepsTables(s, a);
  }

  lemma {:induction false} RunKeepsInv(s: State, acts: seq<Action>)
    requires Inv(s) && Legal(s, acts)
    ensures Inv(Run(s, acts))
    decreases |acts|
  {
    if acts != [] {
      StepKeepsInv(s, acts[0]);
      RunKeepsInv(Do(s, acts[0]), acts[1..]);
    }
  }

  // ----- Safety of claiming -----

  ghost predicate NoSharedSlot(s: State) {
    forall t, u, i: nat
      | 0 <= t < |s.callers| && 0 <= u < |s.callers| && Owns(s.callers[t], i) && Owns(s.callers[u], i) :: t == u
  }

  ghost predicate NoSecondSlot(s: State) {
    forall t, i: nat, j: nat | 0 <= t < |s.callers| && Owns(s.callers[t], i) && Owns(s.callers[t], j) :: i == j
  }

  /** A slot is claimed exactly when some thread owns it. */
  ghost predicate ClaimedIffOwned(s: State) {
    forall i | 0 <= i < |s.slots| :: s.slots[i].flag <==> exists t :: 0 <= t < |s.callers| && Owns(s.callers[t], i)
  }

  /** Whatever the number of threads and however their steps interleave: the
      claimed slots are a prefix, each is owned by one thread, no thread owns
      two, and every table stands for its records. */
  lemma EveryScheduleIsSafe(n: nat, acts: seq<Action>)
    requires Legal(Start(n), acts)
    ensures var s := Run(Start(n), acts);
      && Prefix(s.slots) && NoSharedSlot(s) && NoSecondSlot(s) && ClaimedIffOwned(s)
      && WellSized(s) && TablesInv(s)
  {
    StartInv(n);
    RunKeepsInv(Start(n), acts);
    InvMeansSafe(Run(Start(n), acts));
  }

  lemma InvMeansSafe(s: State)
    requires ClaimInv(s)
    ensures NoSharedSlot(s) && NoSecondSlot(s) && ClaimedIffOwned(s)
  {
    forall t, u, i: nat | 0 <= t < |s.callers| && 0 <= u < |s.callers| && Owns(s.callers[t], i) && Owns(s.callers[u], i)
      ensures t == u
    {
      OwnerIsRecorded(s, t, i);
      OwnerIsRecorded(s, u, i);
    }
    forall t, i: nat, j: nat | 0 <= t < |s.callers| && Owns(s.callers[t], i) && Owns(s.callers[t], j)
      ensures i == j
    {
      assert CallerInv(s.slots, s.callers[t]);
    }
    forall i | 0 <= i < |s.slots|
      ensures s.slots[i].flag <==> exists t :: 0 <= t < |s.callers| && Owns(s.callers[t], i)
    {
      if s.slots[i].flag {
        assert Owns(s.callers[s.owner[i].value], i);
      }
    }
  }

  /** A table operation returns what the map says, whichever slot its thread
      won, and touches no other thread's table. */
  lemma UseIsIsolated(s: State, t: nat, op: Op)
    requires Inv(s) && Enabled(s, Use(t, op))
    ensures var p, s' := s.callers[t].pThread.value, Do(s, Use(t, op));
      && Step(s.slots[p].table, op).1 == SpecStep(s.records[p], op).1
      && forall u, i: nat | 0 <= u < |s.callers| && u != t && Owns(s.callers[u], i) ::
           i < THREAD_MAX && s'.slots[i] == s.slots[i]
  {
    var p := s.callers[t].pThread.value;
    InvMeansSafe(s);
    StepRefines(s.slots[p].table, s.records[p], op);
    assert Owns(s.callers[t], p);
    assert forall u | 0 <= u < |s.callers| :: PcInRange(s.callers[u]);
  }

  /** What a step does to the table of slot `i`. */
  function OpOnSlot(s: State, a: Action, i: nat): seq<Op>
    requires Enabled(s, a)
  {
    if a.Use? && s.callers[a.t].pThread == Some(i) then [a.op]
    else if a.Wipe? && s.callers[a.t].pc.i == i then [Clear]
    else []
  }

  /** The operations a schedule performs on slot `i`, in order, whichever thread
      makes them. */
  function OpsOnSlot(s: State, acts: seq<Action>, i: nat): seq<Op>
    requires Legal(s, acts)
    decreases |acts|
  {
    if acts == [] then [] else OpOnSlot(s, acts[0], i) + OpsOnSlot(Do(s, acts[0]), acts[1..], i)
  }

  lemma {:induction false} SlotRunsItsOps(s: State, acts: seq<Action>, i: nat)
    requires Legal(s, acts) && |s.slots| == THREAD_MAX && i < THREAD_MAX
    ensures |Run(s, acts).slots| == THREAD_MAX
    ensures Run(s, acts).slots[i].table == After(s.slots[i].table, OpsOnSlot(s, acts, i))
    decreases |acts|
  {
    if acts != [] {
      var a := acts[0];
      var s', rest := Do(s, a), OpsOnSlot(Do(s, a), acts[1..], i);
      SlotRunsItsOps(s', acts[1..], i);
      var op := OpOnSlot(s, a, i);
      if op == [] {
        assert s'.slots[i].table == s.slots[i].table;
        assert op + rest == rest;
      } else {
        assert op == [op[0]] && s'.slots[i].table == Step(s.slots[i].table, op[0]).0;
        AfterStep(s.slots[i].table, op[0], rest);
      }
    }
  }

  /** Under every interleaving, each slot's table behaves as if the operations
      that reach it were run alone: for every name, begins and ends since the
      slot was last wiped alternate, and the table shows exactly them. */
  lemma EveryTableAlternates(n: nat, acts: seq<Action>, i: nat, name: Name)
    requires Legal(Start(n), acts) && i < THREAD_MAX
    ensures |Run(Start(n), acts).slots| == THREAD_MAX
    ensures var h := Successes(FreshTable(), OpsOnSlot(Start(n), acts, i), name);
      Alternating(h) && Shows(Run(Start(n), acts).slots[i].table, name, h)
  {
    SlotRunsItsOps(Start(n), acts, i);
    BeginsAndEndsAlternate(FreshTable(), OpsOnSlot(Start(n), acts, i), name);
  }

  /** In every reachable state, an entry whose times since the last wipe are
      ordinary, and sum to at most half the 64-bit range, holds the exact total,
      within twice that sum. */
  lemma EveryTotalIsBounded(n: nat, acts: seq<Action>, i: nat, name: Name)
    requires Legal(Start(n), acts) && i < THREAD_MAX
    requires var h := Successes(FreshTable(), OpsOnSlot(Start(n), acts, i), name);
      h != [] && Ordinary(Intervals(h)) && 2 * Sum(Intervals(h)) <= INT64_MAX
    ensures |Run(Start(n), acts).slots| == THREAD_MAX
    ensures var h := Successes(FreshTable(), OpsOnSlot(Start(n), acts, i), name);
      var tab := Run(Start(n), acts).slots[i].table;
      var k := Find(tab, name);
      && k < |tab| && tab[k].flag && tab[k].name == name
      && tab[k].stats.total == ExactTotal(Intervals(h))
      && 0 <= tab[k].stats.total <= 2 * Sum(Intervals(h))
  {
    hide Recorded, ExactTotal, Sum, Intervals, Successes, OpsOnSlot;
    EveryTableAlternates(n, acts, i, name);
    TotalCannotOverflow(Intervals(Successes(FreshTable(), OpsOnSlot(Start(n), acts, i), name)));
  }

  /** What the next call on a slot returns, in every reachable state, told by the
      operations that reached the slot. */
  lemma EveryResultIsDecided(n: nat, acts: seq<Action>, t: nat, op: Op)
    requires Legal(Start(n), acts) && Enabled(Run(Start(n), acts), Use(t, op))
    ensures var s := Run(Start(n), acts);
      var i := s.callers[t].pThread.value;
      var ops := OpsOnSlot(Start(n), acts, i);
      Step(s.slots[i].table, op).1 <==>
        Succeeds(Successes(FreshTable(), ops, op.name), |UsedNames(FreshTable(), ops)|, op)
  {
    hide Successes, UsedNames, Step, OpsOnSlot;
    var i := Run(Start(n), acts).callers[t].pThread.value;
    SlotRunsItsOps(Start(n), acts, i);
    ResultsByHistory(FreshTable(), OpsOnSlot(Start(n), acts, i), op);
  }

  // ----- Progress of claiming -----

  /** How many more steps of its own a thread can spend on claiming. */
  function Rank(c: Caller): nat {
    match c.pc
    case Testing(i) => if i <= THREAD_MAX then 2 * (THREAD_MAX - i) + 3 else 0
    case Swapping(i) => if i <= THREAD_MAX then 2 * (THREAD_MAX - i) + 2 else 0
    case Publishing(_) => 1
    case Lost => 0
    case _ => if c.pThread.Some? then 0 else 2 * THREAD_MAX + 4
  }

  predicate Claims(a: Action, t: nat) {
    a.t == t && (a.CallIn? || a.Test? || a.Swap? || a.Publish?)
  }

  function ClaimSteps(acts: seq<Action>, t: nat): nat {
    if acts == [] then 0 else (if Claims(acts[0], t) then 1 else 0) + ClaimSteps(acts[1..], t)
  }

  lemma RankStep(s: State, a: Action)
    requires ClaimInv(s) && Enabled(s, a)
    ensures Rank(NewCaller(s, a)) + (if Claims(a, a.t) then 1 else 0) <= Rank(s.callers[a.t])
  {
  }

  /** Claiming is wait-free: whatever the other threads do, a thread spends at
      most its rank in steps on it. */
  lemma {:induction false} ClaimingIsWaitFree(s: State, acts: seq<Action>, t: nat)
    requires Inv(s) && Legal(s, acts) && t < |s.callers|
    ensures |Run(s, acts).callers| == |s.callers|
    ensures ClaimSteps(acts, t) + Rank(Run(s, acts).callers[t]) <= Rank(s.callers[t])
    decreases |acts|
  {
    if acts != [] {
      StepKeepsInv(s, acts[0]);
      RankStep(s, acts[0]);
      ClaimingIsWaitFree(Do(s, acts[0]), acts[1..], t);
    }
  }

  /** The threads that won the first `k` slots. */
  function Winners(s: State, k: nat): (w: set<nat>)
    requires k <= |s.owner| && forall i | 0 <= i < k :: s.owner[i].Some?
  {
    if k == 0 then {} else Winners(s, k - 1) + {s.owner[k - 1].value}
  }

  lemma NoThreadWonTwice(s: State, k: nat)
    requires ClaimInv(s) && 0 < k && ClaimedUpTo(s.slots, k)
    ensures s.owner[k - 1].Some?
    ensures forall i | 0 <= i < k - 1 :: s.owner[i] != s.owner[k - 1]
  {
  }

  lemma ClaimedSlotsHaveOwners(s: State, k: nat)
    requires ClaimInv(s) && ClaimedUpTo(s.slots, k)
    ensures k <= |s.owner| && forall i | 0 <= i < k :: s.owner[i].Some?
  {
  }

  lemma {:induction false} WinnersWonASlot(s: State, k: nat)
    requires k <= |s.owner| && forall i | 0 <= i < k :: s.owner[i].Some?
    ensures forall t :: t in Winners(s, k) <==> exists i :: 0 <= i < k && s.owner[i] == Some(t)
  {
    if k > 0 {
      WinnersWonASlot(s, k - 1);
    }
  }

  lemma {:induction false} WinnersAreDistinct(s: State, k: nat)
    requires ClaimInv(s) && ClaimedUpTo(s.slots, k)
    ensures forall i | 0 <= i < k :: s.owner[i].Some?
    ensures |Winners(s, k)| == k
  {
    ClaimedSlotsHaveOwners(s, k);
    if k > 0 {
      WinnersAreDistinct(s, k - 1);
      WinnersWonASlot(s, k - 1);
      NoThreadWonTwice(s, k);
    }
  }

  /** The thread is inside the scan for a slot. */
  predicate InScan(c: Caller) { c.pc.Testing? || c.pc.Swapping? || c.pc.Publishing? }

  /** The thread has begun a scan for a slot at some time. */
  predicate Joined(c: Caller) { c.pThread.Some? || c.pc.Lost? || InScan(c) }

  /** The threads that call in during a schedule, out of all the threads there
      are; the others may only clear. */
  function CalledIn(acts: seq<Action>): set<nat> {
    if acts == [] then {} else (if acts[0].CallIn? then {acts[0].t} else {}) + CalledIn(acts[1..])
  }

  lemma {:induction false} JoinedIffCalledIn(s: State, acts: seq<Action>, t: nat)
    requires Legal(s, acts)
    ensures |Run(s, acts).callers| == |s.callers|
    ensures t in CalledIn(acts) ==> t < |s.callers|
    ensures t < |s.callers| ==> (Joined(Run(s, acts).callers[t]) <==> Joined(s.callers[t]) || t in CalledIn(acts))
    decreases |acts|
  {
    if acts != [] {
      JoinedIffCalledIn(Do(s, acts[0]), acts[1..], t);
    }
  }

  /** In every reachable state, the threads that have begun a scan are those
      that called in. */
  lemma JoinedThreads(n: nat, acts: seq<Action>)
    requires Legal(Start(n), acts)
    ensures var s := Run(Start(n), acts);
      && |s.callers| == n
      && forall t: nat :: t in CalledIn(acts) <==> t < n && Joined(s.callers[t])
  {
    forall t: nat ensures t in CalledIn(acts) ==> t < n
      ensures |Run(Start(n), acts).callers| == n
      ensures t < n ==> (Joined(Run(Start(n), acts).callers[t]) <==> t in CalledIn(acts))
    {
      JoinedIffCalledIn(Start(n), acts, t);
    }
    JoinedIffCalledIn(Start(n), acts, 0);
  }

  lemma WinnersHaveJoined(s: State, k: nat)
    requires ClaimInv(s) && ClaimedUpTo(s.slots, k)
    ensures forall i | 0 <= i < k :: s.owner[i].Some?
    ensures forall t | t in Winners(s, k) ::
              t < |s.callers| && (s.callers[t].pc.Publishing? || s.callers[t].pThread.Some?)
  {
    ClaimedSlotsHaveOwners(s, k);
    WinnersWonASlot(s, k);
  }

  lemma SubsetSize(a: set<nat>, b: set<nat>)
    requires a <= b
    ensures |a| <= |b|
  {
    assert b == a + (b - a);
  }

  /** A thread that has skipped every slot is one thread more than their owners:
      any set that holds all threads which ever began a scan is larger than the
      number of slots. */
  lemma SkippingAllNeedsAnotherThread(s: State, t: nat, joined: set<nat>)
    requires ClaimInv(s) && t < |s.callers|
    requires s.callers[t].pc.Lost? || s.callers[t].pc == Testing(THREAD_MAX)
    requires forall u: nat | u < |s.callers| && Joined(s.callers[u]) :: u in joined
    ensures |joined| > THREAD_MAX
  {
    assert CallerInv(s.slots, s.callers[t]);
    WinnersAreDistinct(s, THREAD_MAX);
    WinnersHaveJoined(s, THREAD_MAX);
    var w := Winners(s, THREAD_MAX);
    assert t !in w;
    SubsetSize(w + {t}, joined);
    assert |w + {t}| == |w| + 1;
  }

  /** The thread has published a slot that is claimed and that it won. */
  predicate HasSlot(s: State, t: nat) {
    && WellSized(s) && t < |s.callers| && s.callers[t].pThread.Some?
    && var i := s.callers[t].pThread.value;
       i < THREAD_MAX && s.slots[i].flag && s.owner[i] == Some(t)
  }

  /** If at most ten threads ever call in, out of however many there are,
      then no interleaving lets a scan run off the end and every scan ends owning
      a slot: a thread that called in either owns one, or is inside its scan with
      a step of its own enabled, and its steps on claiming are bounded. */
  lemma EnoughSlots(n: nat, acts: seq<Action>, t: nat)
    requires Legal(Start(n), acts) && |CalledIn(acts)| <= 10 && t in CalledIn(acts)
    ensures t < |Run(Start(n), acts).callers|
    ensures var s := Run(Start(n), acts);
      var c := s.callers[t];
      && !c.pc.Lost? && c.pc != Testing(10)
      && (if InScan(c) then Enabled(s, Test(t)) || Enabled(s, Swap(t)) || Enabled(s, Publish(t)) else HasSlot(s, t))
      && ClaimSteps(acts, t) + Rank(c) <= 24
  {
    StartInv(n);
    RunKeepsInv(Start(n), acts);
    JoinedThreads(n, acts);
    ClaimingIsWaitFree(Start(n), acts, t);
    var s := Run(Start(n), acts);
    var c := s.callers[t];
    if c.pc.Lost? || c.pc == Testing(THREAD_MAX) {
      SkippingAllNeedsAnotherThread(s, t, CalledIn(acts));
    }
    if c.pThread.Some? {
      OwnerIsRecorded(s, t, c.pThread.value);
    }
  }

  /** Only a lost thread is ever stuck: in every reachable state every other
      thread has a step enabled, and one that is outside can begin and end
      profiles on its slot or call in for one, and can clear. */
  lemma OnlyLostThreadsStop(n: nat, acts: seq<Action>, t: nat)
    requires Legal(Start(n), acts) && t < n
    ensures |Run(Start(n), acts).callers| == n
    ensures var s := Run(Start(n), acts);
      var c := s.callers[t];
      && (c.pc.Lost? <==> forall a: Action | a.t == t :: !Enabled(s, a))
      && (c.pc.Outside? ==> Enabled(s, StartClear(t)))
      && (c.pc.Outside? && c.pThread.None? ==> Enabled(s, CallIn(t)))
      && (c.pc.Outside? && c.pThread.Some? ==> forall op: Op | !op.Clear? :: Enabled(s, Use(t, op)))
  {
    hide ClaimInv, TablesInv, Enabled;
    StartInv(n);
    RunKeepsInv(Start(n), acts);
    JoinedThreads(n, acts);
    var s := Run(Start(n), acts);
    assert WellSized(s) by { InvIsWellSized(s); }
    MovesOf(s, t);
  }

  lemma InvIsWellSized(s: State)
    requires ClaimInv(s)
    ensures WellSized(s)
  {
  }

  lemma MovesOf(s: State, t: nat)
    requires WellSized(s) && t < |s.callers|
    ensures var c := s.callers[t];
      && (c.pc.Lost? <==> forall a: Action | a.t == t :: !Enabled(s, a))
      && (c.pc.Outside? ==> Enabled(s, StartClear(t)))
      && (c.pc.Outside? && c.pThread.None? ==> Enabled(s, CallIn(t)))
      && (c.pc.Outside? && c.pThread.Some? ==> forall op: Op | !op.Clear? :: Enabled(s, Use(t, op)))
  {
    hide WellSized;
    var c := s.callers[t];
    if !c.pc.Lost? {
      var a := match c.pc
        case Testing(_) => Test(t)
        case Swapping(_) => Swap(t)
        case Publishing(_) => Publish(t)
        case ClearReading(_) => ReadForClear(t)
        case ClearWiping(_) => Wipe(t)
        case _ => StartClear(t);
      assert a.t == t && Enabled(s, a);
    }
  }

  ghost predicate NobodyInScan(s: State) {
    forall t | 0 <= t < |s.callers| :: !InScan(s.callers[t])
  }

  function LostThreads(s: State): set<nat> {
    set t: nat | t < |s.callers| && s.callers[t].pc.Lost?
  }

  /** Whenever no thread is inside its scan, exactly the threads that called in
      beyond the number of slots have run off the end, whichever they are: some
      thread is left without a slot if and only if more than ten called in. */
  lemma LostThreadsAreTheExcess(n: nat, acts: seq<Action>)
    requires Legal(Start(n), acts) && NobodyInScan(Run(Start(n), acts))
    ensures |LostThreads(Run(Start(n), acts))| ==
            if |CalledIn(acts)| > 10 then |CalledIn(acts)| - 10 else 0
  {
    StartInv(n);
    RunKeepsInv(Start(n), acts);
    JoinedThreads(n, acts);
    LostAndWinners(Run(Start(n), acts), CalledIn(acts));
  }

  lemma LostAndWinners(s: State, joined: set<nat>)
    requires ClaimInv(s) && NobodyInScan(s)
    requires forall t: nat :: t in joined <==> t < |s.callers| && Joined(s.callers[t])
    ensures |LostThreads(s)| == if |joined| > THREAD_MAX then |joined| - THREAD_MAX else 0
  {
    var lost, k := LostThreads(s), FirstFree(s.slots);
    WinnersAreDistinct(s, k);
    var won := Winners(s, k);
    LostOrWinner(s, k);
    assert lost !! won;
    assert |lost + won| == |lost| + |won|;
    assert lost + won == joined;
    if lost != {} {
      var t :| t in lost;
      assert CallerInv(s.slots, s.callers[t]);
    }
  }

  /** Once nobody is inside a scan, each thread that began one is either lost or
      a winner. */
  lemma LostOrWinner(s: State, k: nat)
    requires ClaimInv(s) && NobodyInScan(s) && k == FirstFree(s.slots)
    ensures forall i | 0 <= i < k :: s.owner[i].Some?
    ensures forall t: nat :: t in LostThreads(s) + Winners(s, k) <==> t < |s.callers| && Joined(s.callers[t])
    ensures forall t: nat :: !(t in LostThreads(s) && t in Winners(s, k))
  {
    WinnersHaveJoined(s, k);
    forall t: nat | t < |s.callers|
      ensures t in Winners(s, k) <==> s.callers[t].pThread.Some?
      ensures s.callers[t].pThread.Some? ==> !s.callers[t].pc.Lost?
    {
      assert CallerInv(s.slots, s.callers[t]);
      if s.callers[t].pThread.Some? {
        OwnerIsWinner(s, t, k);
      }
    }
  }

  lemma OwnedSlotIsBelow(slots: seq<Slot>, i: nat, k: nat)
    requires Prefix(slots) && i < |slots| && slots[i].flag
    requires k < |slots| ==> !slots[k].flag
    ensures i < k || k >= |slots|
  {
  }

  lemma OwnerIsWinner(s: State, t: nat, k: nat)
    requires ClaimInv(s) && t < |s.callers| && s.callers[t].pThread.Some?
    requires ClaimedUpTo(s.slots, k) && (k < |s.slots| ==> !s.slots[k].flag)
    ensures forall i | 0 <= i < k :: s.owner[i].Some?
    ensures t in Winners(s, k)
  {
    var i := s.callers[t].pThread.value;
    OwnerIsRecorded(s, t, i);
    OwnedSlotIsBelow(s.slots, i, k);
    ClaimedSlotsHaveOwners(s, k);
    WinnersWonASlot(s, k);
    assert s.owner[i] == Some(t);
  }

  /** The first slot that is not claimed, or the number of slots. */
  function FirstFree(slots: seq<Slot>): (k: nat)
    ensures k <= |slots|
    ensures forall i | 0 <= i < k :: slots[i].flag
    ensures k < |slots| ==> !slots[k].flag
  {
    if slots == [] || !slots[0].flag then 0
    else
      var k := FirstFree(slots[1..]);
      assert forall i | 1 <= i < k + 1 :: slots[i] == slots[1..][i - 1];
      k + 1
  }

  // ----- Clearing -----

  predicate NothingUsed(tab: Table) {
    forall i | 0 <= i < |tab| :: !tab[i].flag && tab[i].stats == FRESH
  }

  /** The early exit of a clear is sound, under any interleaving with claims:
      when the deciding flag is read, every slot claimed at that moment has been
      wiped by this clear, and the slots it skips hold nothing to clear. */
  lemma EarlyExitSkipsNothing(n: nat, acts: seq<Action>, t: nat)
    requires Legal(Start(n), acts) && t < |Run(Start(n), acts).callers|
    requires Enabled(Run(Start(n), acts), ReadForClear(t))
    ensures var s := Run(Start(n), acts); ClearEndsAt(s, t) ==> NothingSkipped(s, s.callers[t].wiped)
  {
    StartInv(n);
    RunKeepsInv(Start(n), acts);
    if ClearEndsAt(Run(Start(n), acts), t) {
      EarlyExit(Run(Start(n), acts), t);
    }
  }

  /** The flag the clear is about to read makes it leave its loop. */
  predicate ClearEndsAt(s: State, t: nat)
    requires Enabled(s, ReadForClear(t))
  {
    Do(s, ReadForClear(t)).callers[t].pc.Outside?
  }

  ghost predicate NothingSkipped(s: State, wiped: set<nat>) {
    forall i: nat | i < |s.slots| && i !in wiped :: !s.slots[i].flag && NothingUsed(s.slots[i].table)
  }

  lemma EarlyExit(s: State, t: nat)
    requires Inv(s) && Enabled(s, ReadForClear(t)) && ClearEndsAt(s, t)
    ensures NothingSkipped(s, s.callers[t].wiped)
  {
    var c := s.callers[t];
    assert CallerInv(s.slots, c);
    forall i: nat | i < |s.slots| && i !in c.wiped ensures !s.slots[i].flag && NothingUsed(s.slots[i].table) {
      assert !s.slots[i].flag;
      assert Refines(s.slots[i].table, map[]);
    }
  }
}
