/** The profiler object: its slots are an array of structures updated in place
    by the scan that claims one, by the begin and end of a profile, and by a
    clear.  Each method is proved against the functions that the interleaved
    model uses. */
module Profiler {
  import opened ProfileStats
  import opened ProfileTable
  import opened SlotClaim
  import opened Wrappers

  /** A call either returns, or dereferences the thread pointer while it is
      null. */
  datatype Outcome = Returned(ok: bool) | NullPointer

  /** The tables of slots `i` to `k` have been wiped, and nothing else. */
  ghost predicate WipedBetween(before: seq<Slot>, after: seq<Slot>, i: nat, k: nat) {
    && |after| == |before|
    && forall j | 0 <= j < |before| ::
         after[j] == if i <= j < k then before[j].(table := ClearTable(before[j].table)) else before[j]
  }

  class ProfileStructher {
    const thread: array<Slot>

    ghost predicate Valid()
      reads this, thread
    {
      thread.Length == THREAD_MAX && forall i | 0 <= i < thread.Length :: |thread[i].table| == TABLE_MAX
    }

    constructor ()
      ensures Valid() && fresh(thread)
      ensures thread[..] == Start(0).slots
    {
      thread := new Slot[THREAD_MAX](_ => Slot(false, 0, FreshTable()));
    }

    /** The scan of `Set_Profile` for a slot, run without interference: it takes
        the first slot that is not claimed, if there is one. */
    method ClaimSlot(threadId: nat) returns (pThread: Option<nat>)
      requires Valid()
      modifies thread
      ensures Valid()
      ensures var k := FirstFree(old(thread[..]));
        if k == THREAD_MAX then pThread == None && thread[..] == old(thread[..])
        else
          && pThread == Some(k)
          && thread[..] == old(thread[..])[k := old(thread[k]).(flag := true, threadId := threadId)]
    {
      pThread := None;
      var i := 0;
      while i < THREAD_MAX
        invariant i <= THREAD_MAX && pThread == None
        invariant thread[..] == old(thread[..])
        invariant i <= FirstFree(old(thread[..]))
      {
        if !thread[i].flag {
          var was := thread[i].flag;
          if !was {
            thread[i] := thread[i].(flag := true);
            thread[i] := thread[i].(threadId := threadId);
            return Some(i);
          }
        }
        i := i + 1;
      }
    }

    /** `Set_Profile`: a thread without a slot claims one first.  With no slot
        left the call goes on through a null pointer. */
    method SetProfile(pThread: Option<nat>, threadId: nat, name: Name, setTime: int)
      returns (pThread': Option<nat>, r: Outcome)
      requires Valid() && (pThread.Some? ==> pThread.value < THREAD_MAX)
      modifies thread
      ensures Valid()
      ensures var before, k := old(thread[..]), FirstFree(old(thread[..]));
        if pThread.None? && k == THREAD_MAX then
          pThread' == None && r == NullPointer && thread[..] == before
        else
          var p := if pThread.Some? then pThread.value else k;
          var slot := if pThread.Some? then before[p] else before[p].(flag := true, threadId := threadId);
          && pThread' == Some(p)
          && r == Returned(BeginTable(slot.table, name, setTime).1)
          && thread[..] == before[p := slot.(table := BeginTable(slot.table, name, setTime).0)]
    {
      pThread' := pThread;
      if pThread'.None? {
        pThread' := ClaimSlot(threadId);
      }
      if pThread'.None? {
        return None, NullPointer;
      }
      var p := pThread'.value;
      var ok := BeginEntry(p, name, setTime);
      r := Returned(ok);
    }

    /** The table half of `Set_Profile`: scan, then write one entry. */
    method BeginEntry(p: nat, name: Name, setTime: int) returns (ok: bool)
      requires Valid() && p < THREAD_MAX
      modifies thread
      ensures Valid()
      ensures ok == BeginTable(old(thread[p].table), name, setTime).1
      ensures var slot := old(thread[p]);
        thread[..] == old(thread[..])[p := slot.(table := BeginTable(slot.table, name, setTime).0)]
    {
      ghost var tab := thread[p].table;
      var cnt := 0;
      while cnt < TABLE_MAX
        invariant cnt <= Find(tab, name)
        invariant forall j | 0 <= j < cnt :: tab[j].flag && tab[j].name != name
      {
        if !thread[p].table[cnt].flag {
          break;
        } else if thread[p].table[cnt].name == name {
          if thread[p].table[cnt].begun {
            return false;
          }
          break;
        }
        cnt := cnt + 1;
      }
      if cnt >= TABLE_MAX {
        return false;
      }
      SetEntry(p, cnt, thread[p].table[cnt].(flag := true));
      SetEntry(p, cnt, thread[p].table[cnt].(name := name));
      SetEntry(p, cnt, thread[p].table[cnt].(start := setTime));
      SetEntry(p, cnt, thread[p].table[cnt].(begun := true));
      assert cnt == Find(tab, name);
      assert thread[p].table == BeginTable(tab, name, setTime).0;
      assert thread[..] == old(thread[..])[p := thread[p]];
      return true;
    }

    /** An assignment to one entry of one slot. */
    method SetEntry(p: nat, cnt: nat, e: Entry)
      requires Valid() && p < THREAD_MAX && cnt < TABLE_MAX
      modifies thread
      ensures Valid()
      ensures thread[..] == old(thread[..])[p := old(thread[p]).(table := old(thread[p].table)[cnt := e])]
    {
      thread[p] := thread[p].(table := thread[p].table[cnt := e]);
    }

    /** `End_Profile`: on a thread that never claimed a slot the first test
        already goes through a null pointer. */
    method EndProfile(pThread: Option<nat>, name: Name, endTime: int) returns (r: Outcome)
      requires Valid() && (pThread.Some? ==> pThread.value < THREAD_MAX)
      modifies thread
      ensures Valid()
      ensures pThread.None? ==> r == NullPointer && thread[..] == old(thread[..])
      ensures pThread.Some? ==>
        var p := pThread.value;
        && r == Returned(EndTable(old(thread[p].table), name, endTime).1)
        && thread[..] == old(thread[..])[p := old(thread[p]).(table := EndTable(old(thread[p].table), name, endTime).0)]
    {
      if pThread.None? {
        return NullPointer;
      }
      var p := pThread.value;
      ghost var tab := thread[p].table;
      var cnt := 0;
      while cnt < TABLE_MAX
        invariant cnt <= Find(tab, name)
        invariant forall j | 0 <= j < cnt :: tab[j].flag && tab[j].name != name
      {
        if !thread[p].table[cnt].flag {
          return Returned(false);
        } else if thread[p].table[cnt].name == name {
          if thread[p].table[cnt].begun {
            var e := RecordEntry(thread[p].table[cnt], endTime);
            SetEntry(p, cnt, e);
            return Returned(true);
          }
          return Returned(false);
        }
        cnt := cnt + 1;
      }
      return Returned(false);
    }

    /** The assignments `End_Profile` makes to the entry it found, in order. */
    static method RecordEntry(entry: Entry, endTime: int) returns (e: Entry)
      ensures e == entry.(begun := false, stats := Record(entry.stats, Wrap64(endTime - entry.start)))
    {
      e := entry.(begun := false);
      var s := e.stats;
      s := s.(calls := (s.calls + 1) % TWO_TO_64);
      var time := Wrap64(endTime - e.start);

      if time > s.max0 {
        s := s.(max1 := s.max0);
        s := s.(max0 := time);
      } else if time > s.max1 {
        if s.max1 != 0 {
          s := s.(total := Wrap64(s.total + s.max1));
        }
        s := s.(max1 := time);
      }

      if time < s.min0 {
        s := s.(min1 := s.min0);
        s := s.(min0 := time);
      } else if time < s.min1 {
        if s.min1 != INT64_MAX {
          s := s.(total := Wrap64(s.total + s.min1));
        }
        s := s.(min1 := time);
      }

      if time > s.min1 && time < s.max1 {
        s := s.(total := Wrap64(s.total + time));
      }
      e := e.(stats := s);
    }

    /** `ClearProfile`, run without interference: every claimed slot's table is
        wiped, up to the first slot that is not claimed. */
    method ClearProfile()
      requires Valid()
      modifies thread
      ensures Valid()
      ensures WipedBetween(old(thread[..]), thread[..], 0, FirstFree(old(thread[..])))
    {
      ghost var k := FirstFree(thread[..]);
      var i := 0;
      while i < THREAD_MAX
        invariant Valid() && i <= k <= THREAD_MAX
        invariant k == FirstFree(old(thread[..]))
        invariant forall j | 0 <= j < THREAD_MAX ::
          thread[j] == if j < i then old(thread[j]).(table := ClearTable(old(thread[j].table))) else old(thread[j])
      {
        if !thread[i].flag {
          break;
        }
        WipeTable(i);
        i := i + 1;
      }
    }

    /** The inner loop of `ClearProfile`. */
    method WipeTable(p: nat)
      requires Valid() && p < THREAD_MAX
      modifies thread
      ensures Valid()
      ensures thread[..] == old(thread[..])[p := old(thread[p]).(table := ClearTable(old(thread[p].table)))]
    {
      ghost var slot := thread[p];
      var cnt := 0;
      while cnt < TABLE_MAX
        invariant Valid() && cnt <= TABLE_MAX
        invariant thread[..] == old(thread[..])[p := slot.(table := thread[p].table)]
        invariant forall j | 0 <= j < TABLE_MAX ::
          thread[p].table[j] == if j < cnt then Cleared(slot.table[j]) else slot.table[j]
      {
        SetEntry(p, cnt, Cleared(thread[p].table[cnt]));
        cnt := cnt + 1;
      }
      assert thread[p].table == ClearTable(slot.table);
    }
  }

  // ----- The methods are runs of the interleaved model -----

  /** The steps of a scan from slot `i` on, when no other thread interferes. */
  function ScanActions(slots: seq<Slot>, i: nat, t: nat): seq<Action>
    requires i <= |slots|
    decreases |slots| - i
  {
    if i < |slots| && !slots[i].flag then [Test(t)] + ([Swap(t)] + ([Publish(t)] + []))
    else [Test(t)] + if i < |slots| then ScanActions(slots, i + 1, t) else []
  }

  lemma WinningActions(s: State, t: nat, i: nat)
    requires WellSized(s) && t < |s.callers| && s.callers[t].pc == Testing(i)
    requires i < THREAD_MAX && !s.slots[i].flag
    ensures Legal(s, ScanActions(s.slots, i, t))
    ensures var s' := Run(s, ScanActions(s.slots, i, t));
      && s'.slots == s.slots[i := s.slots[i].(flag := true, threadId := t)]
      && s'.callers == s.callers[t := s.callers[t].(pc := Outside, pThread := Some(i))]
  {
    var s1 := Do(s, Test(t));
    assert PcInRange(s1.callers[t]);
    var s2 := Do(s1, Swap(t));
    assert PcInRange(s2.callers[t]);
    RunStep(s2, Publish(t), []);
    RunStep(s1, Swap(t), [Publish(t)] + []);
    RunStep(s, Test(t), [Swap(t)] + ([Publish(t)] + []));
  }

  /** Run alone, the model's scan does what `ClaimSlot` does. */
  lemma {:induction false} ScanAloneClaimsFirstFree(s: State, t: nat, i: nat)
    requires WellSized(s) && t < |s.callers| && s.callers[t].pc == Testing(i) && i <= FirstFree(s.slots)
    ensures Legal(s, ScanActions(s.slots, i, t))
    ensures var s', k := Run(s, ScanActions(s.slots, i, t)), FirstFree(s.slots);
      if k == THREAD_MAX then
        s'.slots == s.slots && s'.callers == s.callers[t := s.callers[t].(pc := Lost)]
      else
        && s'.slots == s.slots[k := s.slots[k].(flag := true, threadId := t)]
        && s'.callers == s.callers[t := s.callers[t].(pc := Outside, pThread := Some(k))]
    decreases THREAD_MAX - i
  {
    if i < THREAD_MAX && !s.slots[i].flag {
      WinningActions(s, t, i);
    } else {
      var s1 := Do(s, Test(t));
      assert PcInRange(s1.callers[t]);
      if i < THREAD_MAX {
        ScanAloneClaimsFirstFree(s1, t, i + 1);
        RunStep(s, Test(t), ScanActions(s.slots, i + 1, t));
      } else {
        RunStep(s, Test(t), []);
      }
    }
  }

  /** The rest of a clear with `count` claimed slots ahead, when no other thread
      interferes. */
  function ClearActions(count: nat, t: nat): seq<Action> {
    if count == 0 then [ReadForClear(t)] + [] else [ReadForClear(t)] + ([Wipe(t)] + ClearActions(count - 1, t))
  }

  lemma FirstFreeByFlags(slots: seq<Slot>, slots': seq<Slot>)
    requires |slots| == |slots'| && forall i | 0 <= i < |slots| :: slots[i].flag == slots'[i].flag
    ensures FirstFree(slots) == FirstFree(slots')
  {
    var k, k' := FirstFree(slots), FirstFree(slots');
    assert k < |slots| ==> !slots'[k].flag;
    assert k' < |slots| ==> !slots[k'].flag;
  }

  lemma WipeOne(s: State, t: nat, i: nat)
    requires WellSized(s) && t < |s.callers| && s.callers[t].pc == ClearReading(i)
    requires i < FirstFree(s.slots)
    ensures Enabled(s, ReadForClear(t)) && Enabled(Do(s, ReadForClear(t)), Wipe(t))
    ensures var s2 := Do(Do(s, ReadForClear(t)), Wipe(t));
      && WellSized(s2) && FirstFree(s2.slots) == FirstFree(s.slots)
      && s2.slots == s.slots[i := s.slots[i].(table := ClearTable(s.slots[i].table))]
      && s2.callers == s.callers[t := s.callers[t].(pc := ClearReading(i + 1), wiped := s.callers[t].wiped + {i})]
  {
    var s1 := Do(s, ReadForClear(t));
    assert PcInRange(s1.callers[t]);
    var s2 := Do(s1, Wipe(t));
    assert PcInRange(s2.callers[t]);
    FirstFreeByFlags(s.slots, s2.slots);
  }

  lemma StopClear(s: State, t: nat, i: nat)
    requires WellSized(s) && t < |s.callers| && s.callers[t].pc == ClearReading(i)
    requires i == FirstFree(s.slots)
    ensures Enabled(s, ReadForClear(t))
    ensures var s' := Do(s, ReadForClear(t));
      s'.slots == s.slots && s'.callers == s.callers[t := s.callers[t].(pc := Outside)]
  {
  }

  lemma WipedOneMore(before: seq<Slot>, after: seq<Slot>, i: nat, k: nat)
    requires i < k <= |before|
    requires WipedBetween(before[i := before[i].(table := ClearTable(before[i].table))], after, i + 1, k)
    ensures WipedBetween(before, after, i, k)
  {
  }

  /** Run alone from slot `i` on, the model's clear wipes the claimed slots that
      are left. */
  lemma {:induction false} ClearAloneFrom(s: State, t: nat, i: nat)
    requires WellSized(s) && t < |s.callers| && s.callers[t].pc == ClearReading(i) && i <= FirstFree(s.slots)
    ensures Legal(s, ClearActions(FirstFree(s.slots) - i, t))
    ensures var s' := Run(s, ClearActions(FirstFree(s.slots) - i, t));
      && WipedBetween(s.slots, s'.slots, i, FirstFree(s.slots))
      && |s'.callers| == |s.callers|
      && s'.callers == s.callers[t := Caller(Outside, s.callers[t].pThread, s'.callers[t].wiped)]
    decreases THREAD_MAX - i
  {
    hide Do, Enabled;
    var k := FirstFree(s.slots);
    if i < k {
      WipeOne(s, t, i);
      var s1 := Do(s, ReadForClear(t));
      var s2 := Do(s1, Wipe(t));
      ClearAloneFrom(s2, t, i + 1);
      RunStep(s1, Wipe(t), ClearActions(k - i - 1, t));
      RunStep(s, ReadForClear(t), [Wipe(t)] + ClearActions(k - i - 1, t));
      WipedOneMore(s.slots, Run(s2, ClearActions(k - i - 1, t)).slots, i, k);
    } else {
      StopClear(s, t, i);
      RunStep(s, ReadForClear(t), []);
    }
  }

  /** Run alone, the model's clear does what `ClearProfile` does, and leaves the
      thread outside with its slot. */
  lemma ClearAloneWipesClaimed(s: State, t: nat)
    requires Enabled(s, StartClear(t))
    ensures Legal(s, [StartClear(t)] + ClearActions(FirstFree(s.slots), t))
    ensures var s' := Run(s, [StartClear(t)] + ClearActions(FirstFree(s.slots), t));
      && WipedBetween(s.slots, s'.slots, 0, FirstFree(s.slots))
      && |s'.callers| == |s.callers|
      && s'.callers == s.callers[t := Caller(Outside, s.callers[t].pThread, s'.callers[t].wiped)]
  {
    var s1 := Do(s, StartClear(t));
    assert PcInRange(s1.callers[t]);
    ClearAloneFrom(s1, t, 0);
    RunStep(s, StartClear(t), ClearActions(FirstFree(s.slots), t));
  }

  lemma NoRecordNothingUsed(tab: Table)
    requires Refines(tab, map[])
    ensures NothingUsed(tab)
  {
  }

  /** In every reachable state of any number of threads, what `ClearProfile`
      leaves stands for no record at all in any slot, claimed or not. */
  lemma ClearLeavesNothing(n: nat, acts: seq<Action>, i: nat)
    requires Legal(Start(n), acts) && i < THREAD_MAX
    ensures |Run(Start(n), acts).slots| == THREAD_MAX
    ensures var slots := Run(Start(n), acts).slots;
      NothingUsed(if i < FirstFree(slots) then ClearTable(slots[i].table) else slots[i].table)
  {
    StartInv(n);
    RunKeepsInv(Start(n), acts);
    ClearLeavesNothingIn(Run(Start(n), acts), i);
  }

  lemma UnclaimedFrom(slots: seq<Slot>, i: nat, k: nat)
    requires Prefix(slots) && k <= i < |slots| && !slots[k].flag
    ensures !slots[i].flag
  {
  }

  lemma ClearLeavesNothingIn(s: State, i: nat)
    requires Inv(s) && i < THREAD_MAX
    ensures NothingUsed(if i < FirstFree(s.slots) then ClearTable(s.slots[i].table) else s.slots[i].table)
  {
    var k := FirstFree(s.slots);
    var slot := s.slots[i];
    assert SlotInv(slot, s.records[i]);
    if i < k {
      ClearRefines(slot.table);
      NoRecordNothingUsed(ClearTable(slot.table));
    } else {
      UnclaimedFrom(s.slots, i, k);
      NoRecordNothingUsed(slot.table);
    }
  }
}
