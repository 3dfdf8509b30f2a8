/** The hook registry in place: hooks linked through their own `next` pointers,
    and the import tables of the loaded modules overwritten cell by cell.  Each
    method is proved to make the step of the same name in `HookRuns`. */
module HookRegistry {
  import opened ImportTable
  import opened HookRuns
  import opened Wrappers

  /** A loaded module: its import descriptors, and the image they point into. */
  class Module {
    const handle: nat
    const descs: seq<Descriptor>
    const image: array<Proc>

    constructor (handle: nat, descs: seq<Descriptor>, image: array<Proc>)
      ensures this.handle == handle && this.descs == descs && this.image == image
    {
      this.handle, this.descs, this.image := handle, descs, image;
    }

    ghost function Value(): Mod
      reads image
    {
      Mod(handle, descs, image[..])
    }

    /** Every thunk array ends in a null inside the image. */
    ghost predicate Terminated()
      reads image
    {
      forall d | d in descs :: exists k :: d.firstThunk <= k < image.Length && image[k] == 0
    }

    /** The inner loop: one thunk array, up to its null or the first match. */
    method ReplaceInThunks(firstThunk: nat, ghost end: nat, current: Proc, replacement: Proc) returns (found: bool)
      requires firstThunk <= end < image.Length && image[end] == 0
      modifies image
      ensures var cells := old(image[..]);
        match FirstAt(cells, Thunks(cells, firstThunk), current)
        case None => !found && image[..] == cells
        case Some(at) => found && image[..] == cells[at := replacement]
    {
      hide Thunks, FirstAt;
      ghost var cells := image[..];
      var thunk := firstThunk;
      while image[thunk] != 0
        invariant firstThunk <= thunk <= end && image[..] == cells
        invariant FirstAt(cells, Thunks(cells, firstThunk), current) == FirstAt(cells, Thunks(cells, thunk), current)
        decreases end - thunk
      {
        ThunkStep(cells, thunk, current);
        if image[thunk] == current {
          image[thunk] := replacement;
          return true;
        }
        thunk := thunk + 1;
      }
      ThunkStep(cells, thunk, current);
      return false;
    }

    /** One descriptor: skipped unless it is for the callee. */
    method ReplaceInDescriptor(d: Descriptor, callee: string, current: Proc, replacement: Proc) returns (found: bool)
      requires Terminated() && d in descs
      modifies image
      ensures Terminated()
      ensures var cells := old(image[..]);
        match Hit(cells, d, callee, current)
        case None => !found && image[..] == cells
        case Some(at) => found && image[..] == cells[at := replacement]
    {
      found := false;
      if SameModule(d.name, callee) {
        ghost var cells := image[..];
        ghost var end: nat :| d.firstThunk <= end < image.Length && image[end] == 0;
        found := ReplaceInThunks(d.firstThunk, end, current, replacement);
        if found {
          TerminatorsStay(cells, Hit(cells, d, callee, current).value, replacement);
        }
      }
    }

    /** `ReplaceIATEntryInOneMod`: descriptor by descriptor, thunk by thunk, and
        out at the first match. */
    method ReplaceIATEntryInOneMod(callee: string, current: Proc, replacement: Proc)
      requires Terminated()
      modifies image
      ensures Terminated()
      ensures image[..] == Replace(old(image[..]), descs, callee, current, replacement)
    {
      ghost var cells := image[..];
      var i := 0;
      while i < |descs|
        invariant i <= |descs| && image[..] == cells && Terminated()
        invariant FirstMatch(cells, descs, callee, current) == FirstMatch(cells, descs[i..], callee, current)
      {
        FirstMatchStep(cells, descs[i..], callee, current);
        assert descs[i..][1..] == descs[i + 1..];
        var found := ReplaceInDescriptor(descs[i], callee, current, replacement);
        if found {
          return;
        }
        i := i + 1;
      }
    }

    /** Overwriting a cell that is not null leaves the nulls where they are. */
    lemma TerminatorsStay(before: seq<Proc>, at: nat, replacement: Proc)
      requires at < |before| && before[at] != 0 && image[..] == before[at := replacement]
      requires forall d | d in descs :: exists k :: d.firstThunk <= k < |before| && before[k] == 0
      ensures Terminated()
    {
      forall d | d in descs ensures exists k :: d.firstThunk <= k < image.Length && image[k] == 0 {
        var k :| d.firstThunk <= k < |before| && before[k] == 0;
        assert image[..][k] == 0;
      }
    }
  }

  /** One `CAPIHook` object. */
  class CAPIHook {
    var next: CAPIHook?
    var callee: string
    var orig: Proc
    var hook: Proc

    constructor (next: CAPIHook?, callee: string, orig: Proc, hook: Proc)
      ensures this.next == next && this.callee == callee && this.orig == orig && this.hook == hook
    {
      this.next, this.callee, this.orig, this.hook := next, callee, orig, hook;
    }

    ghost function Value(): Hook
      reads this`callee, this`orig, this`hook
    {
      Hook(callee, orig, hook)
    }
  }

  class Registry {
    const process: Process
    var head: CAPIHook?
    var modules: seq<Module>
    ghost var nodes: seq<CAPIHook>          // the live hooks, newest first
    ghost var originals: seq<seq<Proc>>     // the modules' images as they were loaded

    ghost function ImageSet(): set<object>
      reads this`modules
    {
      set m | m in modules :: m.image
    }

    /** Following `next` from the head visits the live hooks, each once. */
    ghost predicate Linked()
      reads this`head, this`nodes, nodes
    {
      && (forall i, j | 0 <= i < j < |nodes| :: nodes[i] != nodes[j])
      && head == (if nodes == [] then null else nodes[0])
      && (forall i {:trigger nodes[i].next} | 0 <= i < |nodes| ::
            nodes[i].next == if i + 1 < |nodes| then nodes[i + 1] else null)
    }

    ghost predicate ModulesOk()
      reads this`modules, this`originals, ImageSet()
    {
      && |originals| == |modules|
      && (forall i, j | 0 <= i < j < |modules| :: modules[i].image != modules[j].image)
      && (forall i | 0 <= i < |modules| :: modules[i].Terminated())
    }

    ghost predicate Valid()
      reads this, nodes, ImageSet()
    {
      Linked() && ModulesOk()
    }

    ghost function Hooks(): seq<Hook>
      reads this`nodes, nodes
    {
      var ns := nodes;
      seq(|ns|, i requires 0 <= i < |ns| reads ns => ns[i].Value())
    }

    static ghost function Values(ms: seq<Module>): (r: seq<Mod>)
      reads set m | m in ms :: m.image
      ensures |r| == |ms| && forall i | 0 <= i < |ms| :: r[i] == ms[i].Value()
    {
      seq(|ms|, i requires 0 <= i < |ms| reads set m | m in ms :: m.image => ms[i].Value())
    }

    ghost function Mods(): seq<Mod>
      reads this`modules, ImageSet()
    {
      Values(modules)
    }

    ghost function Abs(): State
      reads this, nodes, ImageSet()
    {
      State(Hooks(), Mods(), originals)
    }

    constructor (process: Process)
      ensures Valid() && this.process == process && Abs() == State([], [], [])
    {
      this.process := process;
      head, modules, nodes, originals := null, [], [], [];
    }

    /** `ReplaceIATEntryInAllMods` over the snapshot of loaded modules. */
    method ReplaceIATEntryInAllMods(callee: string, current: Proc, replacement: Proc, bThisMod: bool)
      requires ModulesOk()
      modifies ImageSet()
      ensures ModulesOk()
      ensures Mods() == PatchAll(process, old(Mods()), callee, current, replacement, bThisMod)
      ensures forall i | 0 <= i < |modules| ::
        modules[i].image[..] ==
        if bThisMod || modules[i].handle != (if process.exclude then process.thisMod else 0)
        then Replace(old(modules[i].image[..]), modules[i].descs, callee, current, replacement)
        else old(modules[i].image[..])
    {
      var hmodThisMod := if process.exclude then process.thisMod else 0;
      var i := 0;
      while i < |modules|
        invariant i <= |modules| && ModulesOk()
        invariant forall j | 0 <= j < |modules| ::
          modules[j].Value() ==
          if j < i then PatchAll(process, old(Mods()), callee, current, replacement, bThisMod)[j] else old(Mods())[j]
      {
        assert modules[i].image in ImageSet();
        assert modules[i].Value() == old(Mods())[i];
        if bThisMod {
          PatchModule(i, callee, current, replacement);
        } else if modules[i].handle != hmodThisMod {
          PatchModule(i, callee, current, replacement);
        }
        i := i + 1;
      }
    }

    /** Patching one of the modules leaves the others alone. */
    method PatchModule(i: nat, callee: string, current: Proc, replacement: Proc)
      requires ModulesOk() && i < |modules|
      modifies modules[i].image
      ensures ModulesOk()
      ensures modules[i].Value() == PatchMod(old(modules[i].Value()), callee, current, replacement)
      ensures forall j | 0 <= j < |modules| && j != i :: modules[j].Value() == old(modules[j].Value())
    {
      modules[i].ReplaceIATEntryInOneMod(callee, current, replacement);
    }

    /** The `CAPIHook` constructor; `pfnOrig` is what the raw lookup of the
        function returned. */
    method Construct(callee: string, pfnOrig: Proc, pfnHook: Proc, bThisMod: bool) returns (h: CAPIHook)
      requires Valid()
      modifies this`head, this`nodes, ImageSet()
      ensures Valid() && fresh(h)
      ensures nodes == [h] + old(nodes)
      ensures Abs() == Do(process, old(Abs()), HookRuns.Construct(Hook(callee, pfnOrig, pfnHook), bThisMod))
    {
      h := Push(callee, pfnOrig, pfnHook);
      if pfnOrig != 0 {
        ReplaceIATEntryInAllMods(callee, pfnOrig, pfnHook, bThisMod);
      }
    }

    /** A new node in front of the list. */
    method Push(callee: string, pfnOrig: Proc, pfnHook: Proc) returns (h: CAPIHook)
      requires Linked()
      modifies this`head, this`nodes
      ensures Linked() && fresh(h)
      ensures nodes == [h] + old(nodes)
      ensures Hooks() == [Hook(callee, pfnOrig, pfnHook)] + old(Hooks())
    {
      h := new CAPIHook(head, callee, pfnOrig, pfnHook);
      head := h;
      nodes := [h] + nodes;
    }

    /** The `CAPIHook` destructor: unpatch, then unlink `h`, which is the `i`-th
        live hook. */
    method Destroy(h: CAPIHook, ghost i: nat)
      requires Valid() && i < |nodes| && nodes[i] == h
      modifies this`head, this`nodes, nodes, ImageSet()
      ensures Valid()
      ensures nodes == Without(old(nodes), i)
      ensures Abs() == Do(process, old(Abs()), HookRuns.Destroy(i))
    {
      ReplaceIATEntryInAllMods(h.callee, h.hook, h.orig, false);
      Unlink(h, i);
      assert Hooks() == Without(old(Hooks()), i);
    }

    /** The walk of the destructor from the head to the node before `h`. */
    method Unlink(h: CAPIHook, ghost i: nat)
      requires Linked() && i < |nodes| && nodes[i] == h
      modifies this`head, this`nodes, nodes`next
      ensures Linked()
      ensures nodes == Without(old(nodes), i)
    {
      var p := head;
      if p == h {
        head := p.next;
      } else {
        var found := false;
        ghost var k := 0;
        while !found && p.next != null
          invariant nodes == old(nodes) && head == old(head)
          invariant k <= i
          invariant !found ==> k < i && p == nodes[k]
          invariant found ==> 0 < k == i
          invariant forall j {:trigger nodes[j].next} | 0 <= j < |nodes| ::
            nodes[j].next == if found && j == i - 1 then old(nodes[i].next) else old(nodes[j].next)
          decreases i - k
        {
          if p.next == h {
            p.next := p.next.next;
            found := true;
          }
          p := p.next;
          k := k + 1;
        }
      }
      nodes := Without(nodes, i);
    }

    /** `FixupNewlyLoadedModule`. */
    method FixupNewlyLoadedModule(hmod: nat, datafile: bool)
      requires Valid()
      modifies ImageSet()
      ensures Valid()
      ensures Mods() ==
              if hmod != 0 && hmod != process.thisMod && !datafile then FixupAll(process, old(Mods()), Hooks())
              else old(Mods())
      ensures Hooks() == old(Hooks())
    {
      if hmod != 0 && hmod != process.thisMod && !datafile {
        var p := head;
        ghost var k := 0;
        while p != null
          invariant Valid() && k <= |nodes| && Hooks() == old(Hooks())
          invariant p == if k < |nodes| then nodes[k] else null
          invariant FixupAll(process, old(Mods()), Hooks()) == FixupAll(process, Mods(), Hooks()[k..])
          decreases |nodes| - k
        {
          assert Hooks()[k..][0] == p.Value() && Hooks()[k..][1..] == Hooks()[k + 1..];
          if p.orig != 0 {
            ReplaceIATEntryInAllMods(p.callee, p.orig, p.hook, false);
          }
          p := p.next;
          k := k + 1;
        }
      }
    }

    /** A hooked `LoadLibrary` call: the system maps `loaded`, which is empty if
        the call fails or the module was there already, and the fixup follows. */
    method LoadLibrary(loaded: seq<Module>, hmod: nat, datafile: bool)
      requires Valid()
      requires forall i, j | 0 <= i < j < |loaded| :: loaded[i].image != loaded[j].image
      requires forall i | 0 <= i < |loaded| :: loaded[i].Terminated() && loaded[i].image !in ImageSet()
      modifies this`modules, this`originals, ImageSet(), set m | m in loaded :: m.image
      ensures Valid() && nodes == old(nodes) && modules == old(modules) + loaded
      ensures Abs() == Do(process, old(Abs()), Load(old(Values(loaded)), hmod, datafile))
    {
      MapModules(loaded);
      FixupNewlyLoadedModule(hmod, datafile);
    }

    /** The system's part of a load. */
    method MapModules(loaded: seq<Module>)
      requires ModulesOk()
      requires forall i, j | 0 <= i < j < |loaded| :: loaded[i].image != loaded[j].image
      requires forall i | 0 <= i < |loaded| :: loaded[i].Terminated() && loaded[i].image !in ImageSet()
      modifies this`modules, this`originals
      ensures ModulesOk() && modules == old(modules) + loaded
      ensures Mods() == old(Mods()) + Values(loaded)
      ensures originals == old(originals) + Images(Values(loaded))
    {
      assert forall i | 0 <= i < |modules| :: modules[i].image in ImageSet();
      modules := modules + loaded;
      originals := originals + Images(Values(loaded));
    }

    /** The hooked `GetProcAddress`; `raw` is what the raw lookup returned. */
    method GetProcAddress(raw: Proc) returns (pfn: Proc)
      requires Valid()
      ensures pfn == HookedAddress(Hooks(), raw)
    {
      pfn := raw;
      var p := head;
      ghost var k := 0;
      while pfn != 0 && p != null
        invariant k <= |nodes| && pfn == raw
        invariant p == if k < |nodes| then nodes[k] else null
        invariant HookedAddress(Hooks(), raw) == HookedAddress(Hooks()[k..], raw)
        decreases |nodes| - k
      {
        assert Hooks()[k..][0] == p.Value() && Hooks()[k..][1..] == Hooks()[k + 1..];
        if pfn == p.orig {
          pfn := p.hook;
          break;
        }
        p := p.next;
        k := k + 1;
      }
    }
  }
}
