/** One thread's table of profile entries: a fixed array searched by a linear
    scan, and the map from names to records that it stands for. */
module ProfileTable {
  import opened ProfileStats

  const TABLE_MAX: nat := 50

  type Name = string

  datatype Entry = Entry(flag: bool, name: Name, begun: bool, start: int, stats: Stats)

  type Table = seq<Entry>

  // ----- The operations on a table -----

  /** Where the scan stops: at the first entry that is unused or carries the
      name, or past the end. */
  function Find(tab: Table, name: Name): (i: nat)
    ensures i <= |tab|
    ensures i < |tab| ==> !tab[i].flag || tab[i].name == name
    ensures forall j | 0 <= j < i :: tab[j].flag && tab[j].name != name
  {
    if tab == [] || !tab[0].flag || tab[0].name == name then 0
    else
      var i := Find(tab[1..], name);
      assert forall j | 1 <= j < i + 1 :: tab[j] == tab[1..][j - 1];
      i + 1
  }

  function BeginTable(tab: Table, name: Name, time: int): (r: (Table, bool))
    ensures |r.0| == |tab|
  {
    var i := Find(tab, name);
    if i == |tab| || (tab[i].flag && tab[i].begun) then (tab, false)
    else (tab[i := tab[i].(flag := true, name := name, start := time, begun := true)], true)
  }

  function EndTable(tab: Table, name: Name, time: int): (r: (Table, bool))
    ensures |r.0| == |tab|
  {
    var i := Find(tab, name);
    if i == |tab| || !tab[i].flag || !tab[i].begun then (tab, false)
    else
      var e := tab[i];
      (tab[i := e.(begun := false, stats := Record(e.stats, Wrap64(time - e.start)))], true)
  }

  /** What a clear leaves of an entry: the begin flag and the start time are not
      touched. */
  function Cleared(e: Entry): Entry {
    e.(flag := false, name := "", stats := FRESH)
  }

  function ClearTable(tab: Table): (r: Table)
    ensures |r| == |tab|
  {
    seq(|tab|, i requires 0 <= i < |tab| => Cleared(tab[i]))
  }

  // ----- The map a table stands for -----

  datatype Rec = Rec(begun: bool, start: int, times: seq<int>)

  type Records = map<Name, Rec>

  /** Beginning a name: refused while it is begun, or when it is new and the
      table is full. */
  function BeginRecord(m: Records, name: Name, time: int): (Records, bool) {
    if name in m then
      if m[name].begun then (m, false) else (m[name := Rec(true, time, m[name].times)], true)
    else if |m| >= TABLE_MAX then (m, false)
    else (m[name := Rec(true, time, [])], true)
  }

  /** Ending a name: refused unless it is begun. */
  function EndRecord(m: Records, name: Name, time: int): (Records, bool) {
    if name in m && m[name].begun
    then (m[name := Rec(false, m[name].start, m[name].times + [Wrap64(time - m[name].start)])], true)
    else (m, false)
  }

  predicate EntryAgrees(e: Entry, r: Rec) {
    e.begun == r.begun && (r.begun ==> e.start == r.start) && e.stats == Recorded(r.times)
  }

  ghost predicate HasName(tab: Table, used: nat, n: Name) {
    exists i :: 0 <= i < used && i < |tab| && tab[i].name == n
  }

  /** The used entries are the first |m|, their names are distinct and are the
      keys of `m`, and every unused entry holds the initial statistic; nothing
      is known about its begin flag. */
  ghost predicate SameNames(tab: Table, m: Records) {
    && |tab| == TABLE_MAX
    && |m| <= |tab|
    && (forall i | 0 <= i < |m| :: tab[i].flag && tab[i].name in m)
    && (forall i, j | 0 <= i < j < |m| :: tab[i].name != tab[j].name)
    && (forall n | n in m :: HasName(tab, |m|, n))
    && (forall i | |m| <= i < |tab| :: !tab[i].flag && tab[i].stats == FRESH)
  }

  ghost predicate Refines(tab: Table, m: Records) {
    SameNames(tab, m) && forall i | 0 <= i < |m| :: EntryAgrees(tab[i], m[tab[i].name])
  }

  /** The scan is a map lookup: it stops inside the used prefix exactly for the
      names in the map, at the entry of that name, and otherwise at the first
      unused entry. */
  lemma ScanIsLookup(tab: Table, m: Records, name: Name)
    requires Refines(tab, m)
    ensures var i := Find(tab, name);
      && (name in m <==> i < |m|)
      && (name in m ==> tab[i].name == name && EntryAgrees(tab[i], m[name]))
      && (name !in m ==> i == |m|)
  {
    var i := Find(tab, name);
    if name in m {
      assert HasName(tab, |m|, name);
      var k :| 0 <= k < |m| && tab[k].name == name;
      assert i <= k;
    } else {
      assert forall j | 0 <= j < |m| :: tab[j].flag && tab[j].name != name;
      assert |m| < |tab| ==> !tab[|m|].flag;
    }
  }

  lemma UsedEntriesAreFlagged(tab: Table, m: Records)
    requires Refines(tab, m)
    ensures |m| <= |tab| && forall i | 0 <= i < |tab| :: tab[i].flag <==> i < |m|
  {
  }

  lemma BeginRefines(tab: Table, m: Records, name: Name, time: int)
    requires Refines(tab, m)
    ensures BeginTable(tab, name, time).1 == BeginRecord(m, name, time).1
    ensures Refines(BeginTable(tab, name, time).0, BeginRecord(m, name, time).0)
  {
    ScanIsLookup(tab, m, name);
    var i := Find(tab, name);
    var (tab', ok) := BeginTable(tab, name, time);
    var (m', _) := BeginRecord(m, name, time);
    if ok && name in m {
      OverwriteRefines(tab, m, i, tab'[i], m'[name]);
    } else if ok {
      AppendRefines(tab, m, tab'[i], m'[name]);
    }
  }

  /** Ending a begun entry records one more time on both sides. */
  lemma EndEntryAgrees(e: Entry, r: Rec, time: int)
    requires EntryAgrees(e, r) && r.begun
    ensures EntryAgrees(e.(begun := false, stats := Record(e.stats, Wrap64(time - e.start))),
                        Rec(false, r.start, r.times + [Wrap64(time - r.start)]))
  {
    hide Record, Wrap64;
    RecordedAppend(r.times, Wrap64(time - r.start));
  }

  lemma EndRefines(tab: Table, m: Records, name: Name, time: int)
    requires Refines(tab, m)
    ensures EndTable(tab, name, time).1 == EndRecord(m, name, time).1
    ensures Refines(EndTable(tab, name, time).0, EndRecord(m, name, time).0)
  {
    hide Record, Wrap64, Recorded, Refines;
    ScanIsLookup(tab, m, name);
    UsedEntriesAreFlagged(tab, m);
    var i := Find(tab, name);
    if name in m && m[name].begun {
      var e, r := tab[i], m[name];
      EndEntryAgrees(e, r, time);
      OverwriteRefines(tab, m, i,
                       e.(begun := false, stats := Record(e.stats, Wrap64(time - e.start))),
                       Rec(false, r.start, r.times + [Wrap64(time - r.start)]));
    }
  }

  lemma SizeAfterUpdate(m: Records, n: Name, r: Rec)
    ensures |m[n := r]| == if n in m then |m| else |m| + 1
  {
  }

  lemma OverwriteHasNames(tab: Table, used: nat, i: nat, e: Entry, n: Name)
    requires i < |tab| && tab[i].name == e.name && HasName(tab, used, n)
    ensures HasName(tab[i := e], used, n)
  {
    var k :| 0 <= k < used && k < |tab| && tab[k].name == n;
    assert tab[i := e][k].name == n;
  }

  lemma OverwriteKeepsNames(tab: Table, m: Records, i: nat, e: Entry, r: Rec)
    requires SameNames(tab, m) && e.flag
    requires e.name in m && i < |m| && tab[i].name == e.name
    ensures SameNames(tab[i := e], m[e.name := r])
  {
    hide HasName;
    SizeAfterUpdate(m, e.name, r);
    assert forall k | 0 <= k < |tab| :: tab[i := e][k].name == tab[k].name;
    forall n | n in m ensures HasName(tab[i := e], |m|, n) {
      OverwriteHasNames(tab, |m|, i, e, n);
    }
  }

  /** Writing the entry of a name the map has. */
  lemma OverwriteRefines(tab: Table, m: Records, i: nat, e: Entry, r: Rec)
    requires Refines(tab, m) && e.flag && EntryAgrees(e, r)
    requires e.name in m && i < |m| && tab[i].name == e.name
    ensures Refines(tab[i := e], m[e.name := r])
  {
    OverwriteKeepsNames(tab, m, i, e, r);
    SizeAfterUpdate(m, e.name, r);
    var tab', m' := tab[i := e], m[e.name := r];
    forall k | 0 <= k < |m'| ensures EntryAgrees(tab'[k], m'[tab'[k].name]) {
      if k != i {
        assert tab'[k].name != e.name by {
          if k < i { assert tab[k].name != tab[i].name; } else { assert tab[i].name != tab[k].name; }
        }
      }
    }
  }

  lemma AppendHasNames(tab: Table, used: nat, e: Entry, n: Name)
    requires used < |tab| && (n == e.name || HasName(tab, used, n))
    ensures HasName(tab[used := e], used + 1, n)
  {
    if n == e.name {
      assert tab[used := e][used].name == n;
    } else {
      var k :| 0 <= k < used && k < |tab| && tab[k].name == n;
      assert tab[used := e][k].name == n;
    }
  }

  lemma AppendKeepsNames(tab: Table, m: Records, e: Entry, r: Rec)
    requires SameNames(tab, m) && e.flag
    requires e.name !in m && |m| < |tab|
    ensures SameNames(tab[|m| := e], m[e.name := r])
  {
    hide HasName;
    SizeAfterUpdate(m, e.name, r);
    var tab', m' := tab[|m| := e], m[e.name := r];
    assert forall k | 0 <= k < |m| :: tab'[k] == tab[k];
    forall n | n in m' ensures HasName(tab', |m'|, n) {
      AppendHasNames(tab, |m|, e, n);
    }
  }

  /** Writing the first unused entry, for a name the map has not. */
  lemma AppendRefines(tab: Table, m: Records, e: Entry, r: Rec)
    requires Refines(tab, m) && e.flag && EntryAgrees(e, r)
    requires e.name !in m && |m| < |tab|
    ensures Refines(tab[|m| := e], m[e.name := r])
  {
    AppendKeepsNames(tab, m, e, r);
    SizeAfterUpdate(m, e.name, r);
    var tab', m' := tab[|m| := e], m[e.name := r];
    forall k | 0 <= k < |m'| ensures EntryAgrees(tab'[k], m'[tab'[k].name]) {
      if k < |m| {
        assert tab'[k] == tab[k] && tab[k].name != e.name;
      }
    }
  }

  /** A cleared table stands for the empty map, whatever it held and whatever
      begin flags it keeps. */
  lemma ClearRefines(tab: Table)
    requires |tab| == TABLE_MAX
    ensures Refines(ClearTable(tab), map[])
    ensures forall i | 0 <= i < |tab| ::
              ClearTable(tab)[i].begun == tab[i].begun && ClearTable(tab)[i].start == tab[i].start
  {
  }

  // ----- Whole runs -----

  datatype Op = Begin(name: Name, time: int) | End(name: Name, time: int) | Clear

  function Step(tab: Table, op: Op): (r: (Table, bool))
    ensures |r.0| == |tab|
  {
    match op
    case Begin(n, t) => BeginTable(tab, n, t)
    case End(n, t) => EndTable(tab, n, t)
    case Clear => (ClearTable(tab), true)
  }

  function SpecStep(m: Records, op: Op): (Records, bool) {
    match op
    case Begin(n, t) => BeginRecord(m, n, t)
    case End(n, t) => EndRecord(m, n, t)
    case Clear => (map[], true)
  }

  lemma StepRefines(tab: Table, m: Records, op: Op)
    requires Refines(tab, m)
    ensures Step(tab, op).1 == SpecStep(m, op).1
    ensures Refines(Step(tab, op).0, SpecStep(m, op).0)
  {
    match op
    case Begin(n, t) => BeginRefines(tab, m, n, t);
    case End(n, t) => EndRefines(tab, m, n, t);
    case Clear => ClearRefines(tab);
  }

  /** The table after a run that starts from `tab`. */
  function After(tab: Table, ops: seq<Op>): (r: Table)
    ensures |r| == |tab|
  {
    if ops == [] then tab else Step(After(tab, ops[..|ops| - 1]), ops[|ops| - 1]).0
  }

  /** What the last call of the run returned. */
  function LastResult(tab: Table, ops: seq<Op>): bool
    requires ops != []
  {
    Step(After(tab, ops[..|ops| - 1]), ops[|ops| - 1]).1
  }

  function SpecAfter(ops: seq<Op>): Records {
    if ops == [] then map[] else SpecStep(SpecAfter(ops[..|ops| - 1]), ops[|ops| - 1]).0
  }

  function SpecLastResult(ops: seq<Op>): bool
    requires ops != []
  {
    SpecStep(SpecAfter(ops[..|ops| - 1]), ops[|ops| - 1]).1
  }

  /** Over every run, the table and the map return the same results and stay in
      agreement. */
  lemma {:induction false} RunRefines(tab: Table, ops: seq<Op>)
    requires Refines(tab, map[])
    ensures Refines(After(tab, ops), SpecAfter(ops))
    ensures ops != [] ==> LastResult(tab, ops) == SpecLastResult(ops)
  {
    if ops != [] {
      var init := ops[..|ops| - 1];
      RunRefines(tab, init);
      StepRefines(After(tab, init), SpecAfter(init), ops[|ops| - 1]);
    }
  }

  lemma {:induction false} AfterStep(tab: Table, op: Op, rest: seq<Op>)
    ensures After(tab, [op] + rest) == After(Step(tab, op).0, rest)
  {
    var ops := [op] + rest;
    if rest == [] {
      assert ops[..0] == [] && ops[0] == op;
      assert After(tab, ops[..0]) == tab;
    } else {
      var n := |rest| - 1;
      AfterStep(tab, op, rest[..n]);
      assert ops[..n + 1] == [op] + rest[..n] && ops[n + 1] == rest[n];
    }
  }

  // ----- Begins and ends alternate -----

  /** The successful begins and ends of `name` since the last clear, oldest
      first: each with whether it was a begin, and its time. */
  function Successes(tab: Table, ops: seq<Op>, name: Name): seq<(bool, int)> {
    if ops == [] then []
    else
      var earlier := Successes(tab, ops[..|ops| - 1], name);
      match ops[|ops| - 1]
      case Clear => []
      case Begin(n, t) => if n == name && LastResult(tab, ops) then earlier + [(true, t)] else earlier
      case End(n, t) => if n == name && LastResult(tab, ops) then earlier + [(false, t)] else earlier
  }

  /** Begin, end, begin, end, ... */
  ghost predicate Alternating(h: seq<(bool, int)>) {
    forall i | 0 <= i < |h| :: h[i].0 <==> i % 2 == 0
  }

  /** The time from each begin to the end that follows it. */
  function Intervals(h: seq<(bool, int)>): seq<int> {
    if |h| < 2 then [] else [Wrap64(h[1].1 - h[0].1)] + Intervals(h[2..])
  }

  lemma {:induction false} IntervalsAppend(h: seq<(bool, int)>, x: (bool, int))
    ensures |h| % 2 == 0 ==> Intervals(h + [x]) == Intervals(h)
    ensures |h| % 2 == 1 ==> Intervals(h + [x]) == Intervals(h) + [Wrap64(x.1 - h[|h| - 1].1)]
    ensures |Intervals(h)| == |h| / 2
  {
    if |h| >= 2 {
      IntervalsAppend(h[2..], x);
      assert (h + [x])[2..] == h[2..] + [x];
    }
  }

  /** What the map knows of a name, told by the successes alone. */
  ghost predicate RecordTells(m: Records, name: Name, h: seq<(bool, int)>) {
    if name in m then
      && h != []
      && (m[name].begun <==> |h| % 2 == 1)
      && (m[name].begun ==> m[name].start == h[|h| - 1].1)
      && m[name].times == Intervals(h)
    else h == []
  }

  /** One more call on `name`, by the map alone. */
  lemma RecordStep(m: Records, op: Op, name: Name, h: seq<(bool, int)>)
    requires !op.Clear? && op.name == name
    requires RecordTells(m, name, h) && Alternating(h)
    ensures var h' := if SpecStep(m, op).1 then h + [(op.Begin?, op.time)] else h;
      RecordTells(SpecStep(m, op).0, name, h') && Alternating(h')
  {
    IntervalsAppend(h, (op.Begin?, op.time));
  }

  /** A call on another name leaves this one's record alone. */
  lemma OtherRecordStep(m: Records, op: Op, name: Name, h: seq<(bool, int)>)
    requires !op.Clear? && op.name != name && RecordTells(m, name, h)
    ensures RecordTells(SpecStep(m, op).0, name, h)
  {
  }

  lemma {:induction false} SuccessesTellTheRecord(tab: Table, ops: seq<Op>, name: Name)
    requires Refines(tab, map[])
    ensures Alternating(Successes(tab, ops, name))
    ensures RecordTells(SpecAfter(ops), name, Successes(tab, ops, name))
    decreases |ops|
  {
    if ops != [] {
      var init, op := ops[..|ops| - 1], ops[|ops| - 1];
      SuccessesTellTheRecord(tab, init, name);
      RunRefines(tab, ops);
      var m, h := SpecAfter(init), Successes(tab, init, name);
      if !op.Clear? {
        if op.name == name {
          RecordStep(m, op, name, h);
        } else {
          OtherRecordStep(m, op, name, h);
        }
      }
    }
  }

  /** What a table shows for a name whose successes since the last clear are
      `h`: a name without successes is not found; otherwise its entry is begun
      exactly after an odd number of them, and its statistic and call count are
      those of the times between each begin and the end that follows. */
  ghost predicate Shows(tab: Table, name: Name, h: seq<(bool, int)>) {
    var i := Find(tab, name);
    && (h == [] <==> i == |tab| || !tab[i].flag)
    && (h != [] ==>
          && tab[i].name == name
          && (tab[i].begun <==> |h| % 2 == 1)
          && tab[i].stats == Recorded(Intervals(h))
          && tab[i].stats.calls == |h| / 2 % 0x1_0000_0000_0000_0000)
  }

  /** Over every run, for every name: the successful begins and ends since the
      last clear strictly alternate, starting with a begin, and are what the
      table shows.  A begin flag left over from before the clear plays no
      part. */
  lemma BeginsAndEndsAlternate(tab: Table, ops: seq<Op>, name: Name)
    requires Refines(tab, map[])
    ensures Alternating(Successes(tab, ops, name))
    ensures Shows(After(tab, ops), name, Successes(tab, ops, name))
  {
    SuccessesTellTheRecord(tab, ops, name);
    RunRefines(tab, ops);
    ScanIsLookup(After(tab, ops), SpecAfter(ops), name);
    var h := Successes(tab, ops, name);
    IntervalsAppend(h, (true, 0));
    CallsAreCounted(Intervals(h));
  }

  // ----- When a begin or an end succeeds -----

  /** The names begun successfully since the last clear. */
  function UsedNames(tab: Table, ops: seq<Op>): set<Name> {
    if ops == [] then {}
    else
      var earlier := UsedNames(tab, ops[..|ops| - 1]);
      match ops[|ops| - 1]
      case Clear => {}
      case Begin(n, _) => if LastResult(tab, ops) then earlier + {n} else earlier
      case End(_, _) => earlier
  }

  lemma {:induction false} UsedNamesAreKeys(tab: Table, ops: seq<Op>)
    requires Refines(tab, map[])
    ensures UsedNames(tab, ops) == SpecAfter(ops).Keys
  {
    hide Refines, LastResult, After;
    if ops != [] {
      UsedNamesAreKeys(tab, ops[..|ops| - 1]);
      RunRefines(tab, ops);
      KeysStep(SpecAfter(ops[..|ops| - 1]), ops[|ops| - 1]);
    }
  }

  lemma KeysStep(m: Records, op: Op)
    ensures SpecStep(m, op).0.Keys ==
            match op
            case Clear => {}
            case Begin(n, _) => if SpecStep(m, op).1 then m.Keys + {n} else m.Keys
            case End(_, _) => m.Keys
  {
  }

  /** Whether the next call succeeds, told by the history alone: an end succeeds
      exactly when its name is begun, a begin of a name seen since the last clear
      exactly when it is not begun, and a begin of a new name exactly when fewer
      than 50 names are in use. */
  predicate Succeeds(h: seq<(bool, int)>, used: nat, op: Op) {
    if op.End? then |h| % 2 == 1
    else if h != [] then |h| % 2 == 0
    else used < 50
  }

  lemma ResultsByHistory(tab: Table, ops: seq<Op>, op: Op)
    requires Refines(tab, map[]) && !op.Clear?
    ensures Step(After(tab, ops), op).1 <==> Succeeds(Successes(tab, ops, op.name), |UsedNames(tab, ops)|, op)
    ensures LastResult(tab, ops + [op]) == Step(After(tab, ops), op).1
  {
    hide Refines, RecordTells, EntryAgrees, Recorded;
    RunRefines(tab, ops);
    StepRefines(After(tab, ops), SpecAfter(ops), op);
    UsedNamesAreKeys(tab, ops);
    SpecResult(SpecAfter(ops), op, Successes(tab, ops, op.name)) by {
      SuccessesTellTheRecord(tab, ops, op.name);
    }
    assert (ops + [op])[..|ops|] == ops;
  }

  lemma SpecResult(m: Records, op: Op, h: seq<(bool, int)>)
    requires !op.Clear? && RecordTells(m, op.name, h)
    ensures SpecStep(m, op).1 <==> Succeeds(h, |m.Keys|, op)
  {
    assert |m| == |m.Keys|;
  }
}
