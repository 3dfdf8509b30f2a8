/** Whole runs of the hook registry: hooks constructed, destroyed in any order,
    and modules loaded and unloaded, with every import table patched along the
    way. */
module HookRuns {
  import opened ImportTable
  import opened Wrappers

  /** A live hook.  `orig` is null when the exporting module was not loaded at
      construction; such a hook stays on the list and patches nothing. */
  datatype Hook = Hook(callee: string, orig: Proc, hook: Proc)

  datatype Mod = Mod(handle: nat, descs: seq<Descriptor>, image: seq<Proc>)

  /** The process: the module that contains the registry, whether it is left
      unpatched by default, and the addresses of the hook functions. */
  datatype Process = Process(thisMod: nat, exclude: bool, hookAddrs: set<Proc>)

  // ----- The operations -----

  predicate Covered(p: Process, handle: nat, bThisMod: bool) {
    bThisMod || handle != (if p.exclude then p.thisMod else 0)
  }

  function PatchMod(m: Mod, callee: string, current: Proc, replacement: Proc): Mod {
    m.(image := Replace(m.image, m.descs, callee, current, replacement))
  }

  /** `ReplaceIATEntryInAllMods`. */
  function PatchAll(p: Process, mods: seq<Mod>, callee: string, current: Proc, replacement: Proc, bThisMod: bool)
    : (r: seq<Mod>)
    ensures |r| == |mods|
  {
    seq(|mods|, i requires 0 <= i < |mods| =>
      if Covered(p, mods[i].handle, bThisMod) then PatchMod(mods[i], callee, current, replacement) else mods[i])
  }

  /** The loop of `FixupNewlyLoadedModule` over the hooks, newest first. */
  function FixupAll(p: Process, mods: seq<Mod>, hooks: seq<Hook>): (r: seq<Mod>)
    ensures |r| == |mods|
    decreases |hooks|
  {
    if hooks == [] then mods
    else
      var h := hooks[0];
      FixupAll(p, if h.orig != 0 then PatchAll(p, mods, h.callee, h.orig, h.hook, false) else mods, hooks[1..])
  }

  /** The hooked `GetProcAddress`, given the raw address. */
  function HookedAddress(hooks: seq<Hook>, raw: Proc): Proc {
    if raw == 0 || hooks == [] then raw
    else if raw == hooks[0].orig then hooks[0].hook
    else HookedAddress(hooks[1..], raw)
  }

  /** `originals` records each module's image as it was loaded; no operation
      depends on it. */
  datatype State = State(hooks: seq<Hook>, mods: seq<Mod>, originals: seq<seq<Proc>>)

  datatype Action =
    | Construct(h: Hook, bThisMod: bool)
    | Destroy(i: nat)
    | Load(loaded: seq<Mod>, hmod: nat, datafile: bool)
    | Unload(i: nat)

  function Without<T>(s: seq<T>, i: nat): seq<T>
    requires i < |s|
  {
    s[..i] + s[i + 1..]
  }

  function Images(mods: seq<Mod>): seq<seq<Proc>> {
    seq(|mods|, i requires 0 <= i < |mods| => mods[i].image)
  }

  function Do(p: Process, s: State, a: Action): State
    requires a.Destroy? ==> a.i < |s.hooks|
    requires a.Unload? ==> a.i < |s.mods| && a.i < |s.originals|
  {
    match a
    case Construct(h, bThisMod) =>
      s.(hooks := [h] + s.hooks,
         mods := if h.orig == 0 then s.mods else PatchAll(p, s.mods, h.callee, h.orig, h.hook, bThisMod))
    case Destroy(i) =>
      var h := s.hooks[i];
      s.(hooks := Without(s.hooks, i), mods := PatchAll(p, s.mods, h.callee, h.hook, h.orig, false))
    case Load(loaded, hmod, datafile) =>
      var mods := s.mods + loaded;
      s.(mods := if hmod != 0 && hmod != p.thisMod && !datafile then FixupAll(p, mods, s.hooks) else mods,
         originals := s.originals + Images(loaded))
    case Unload(i) =>
      s.(mods := Without(s.mods, i), originals := Without(s.originals, i))
  }

  // ----- What is assumed of the environment -----

  /** The hook would patch this cell of the module as it was loaded. */
  predicate Wants(h: Hook, original: seq<Proc>, descs: seq<Descriptor>, a: nat) {
    h.orig != 0 && a in Scan(original, descs, h.callee) && original[a] == h.orig
  }

  /** The hooked function is imported at most once under matching descriptors. */
  ghost predicate ImportedOnce(h: Hook, original: seq<Proc>, descs: seq<Descriptor>) {
    forall a: nat, b: nat | Wants(h, original, descs, a) && Wants(h, original, descs, b) :: a == b
  }

  ghost predicate NoHookAddress(p: Process, original: seq<Proc>) {
    forall a | 0 <= a < |original| :: original[a] !in p.hookAddrs
  }

  predicate ProperHook(p: Process, h: Hook) {
    h.hook != 0 && h.hook in p.hookAddrs && h.orig !in p.hookAddrs
  }

  predicate Apart(h: Hook, g: Hook) {
    h.hook != g.hook && (h.orig != 0 ==> h.orig != g.orig)
  }

  /** A new hook uses a hook function of its own and hooks a function that is
      not hooked already; loaded modules import no hook function, and import
      each hooked function once; a load that maps modules is one that the fixup
      follows. */
  ghost predicate Enabled(p: Process, s: State, a: Action) {
    && |s.mods| == |s.originals|
    && match a
       case Construct(h, _) =>
         && ProperHook(p, h)
         && (forall g | g in s.hooks :: Apart(h, g))
         && (forall m | 0 <= m < |s.mods| && Covered(p, s.mods[m].handle, false) ::
               ImportedOnce(h, s.originals[m], s.mods[m].descs))
       case Destroy(i) => i < |s.hooks|
       case Load(loaded, hmod, datafile) =>
         && (loaded != [] ==> hmod != 0 && hmod != p.thisMod && !datafile)
         && (forall m | 0 <= m < |loaded| :: NoHookAddress(p, loaded[m].image))
         && (forall m, h | 0 <= m < |loaded| && h in s.hooks :: ImportedOnce(h, loaded[m].image, loaded[m].descs))
       case Unload(i) => i < |s.mods|
  }

  ghost predicate Legal(p: Process, s: State, acts: seq<Action>)
    decreases |acts|
  {
    acts == [] || (Enabled(p, s, acts[0]) && Legal(p, Do(p, s, acts[0]), acts[1..]))
  }

  ghost function Run(p: Process, s: State, acts: seq<Action>): State
    requires Legal(p, s, acts)
    decreases |acts|
  {
    if acts == [] then s else Run(p, Do(p, s, acts[0]), acts[1..])
  }

  // ----- One image and a set of hooks -----

  /** The image is the original with the cells of the hooks in `live`, and only
      those, redirected. */
  ghost predicate Patched(original: seq<Proc>, image: seq<Proc>, descs: seq<Descriptor>, live: set<Hook>) {
    && |image| == |original|
    && (forall h, a: nat | h in live && Wants(h, original, descs, a) :: a < |image| && image[a] == h.hook)
    && (forall a | 0 <= a < |image| :: image[a] == original[a] || exists h :: h in live && Wants(h, original, descs, a))
  }

  /** The hooks in `live` do not interfere on this module. */
  ghost predicate Compatible(p: Process, original: seq<Proc>, descs: seq<Descriptor>, live: set<Hook>) {
    && NoHookAddress(p, original)
    && (forall h | h in live :: ProperHook(p, h) && ImportedOnce(h, original, descs))
    && (forall h, g | h in live && g in live && h != g :: Apart(h, g))
  }

  lemma PatchedSameCells(p: Process, original: seq<Proc>, image: seq<Proc>, descs: seq<Descriptor>,
                         live: set<Hook>, callee: string)
    requires Patched(original, image, descs, live) && Compatible(p, original, descs, live)
    ensures SameNulls(original, image) && Scan(image, descs, callee) == Scan(original, descs, callee)
  {
    forall a | 0 <= a < |image| ensures original[a] == 0 <==> image[a] == 0 {
      if image[a] != original[a] {
        var h :| h in live && Wants(h, original, descs, a);
      }
    }
    ScanSameNulls(original, image, descs, callee);
  }

  /** A redirected cell holds a hook address, never the original of a hook. */
  lemma RedirectedCell(p: Process, original: seq<Proc>, image: seq<Proc>, descs: seq<Descriptor>,
                       live: set<Hook>, a: nat)
    requires Patched(original, image, descs, live) && a < |image| && image[a] != original[a]
    requires forall g | g in live :: ProperHook(p, g)
    ensures image[a] in p.hookAddrs
    ensures exists g :: g in live && Wants(g, original, descs, a) && image[a] == g.hook
  {
  }

  /** A visited cell holds the original of `h` only if `h` wants it and is not
      live yet. */
  lemma CellsHoldingOriginal(p: Process, original: seq<Proc>, image: seq<Proc>, descs: seq<Descriptor>,
                             live: set<Hook>, h: Hook, a: nat)
    requires Patched(original, image, descs, live) && ProperHook(p, h)
    requires forall g | g in live :: ProperHook(p, g) && (g != h ==> Apart(g, h))
    requires h.orig != 0 && a in Scan(original, descs, h.callee)
    ensures a < |image| && (image[a] == h.orig <==> h !in live && Wants(h, original, descs, a))
  {
    if image[a] != original[a] {
      RedirectedCell(p, original, image, descs, live, a);
      var g :| g in live && Wants(g, original, descs, a) && image[a] == g.hook;
      assert g == h || Apart(g, h);
    } else if h in live {
      assert !Wants(h, original, descs, a);
    }
  }

  /** Patching for one more hook, or for one already patched for. */
  lemma ApplyHook(p: Process, original: seq<Proc>, image: seq<Proc>, descs: seq<Descriptor>, live: set<Hook>, h: Hook)
    requires Patched(original, image, descs, live) && Compatible(p, original, descs, live + {h})
    requires h.orig != 0
    ensures Patched(original, Replace(image, descs, h.callee, h.orig, h.hook), descs, live + {h})
  {
    var cells := Scan(original, descs, h.callee);
    assert Compatible(p, original, descs, live);
    PatchedSameCells(p, original, image, descs, live, h.callee);
    var r := Replace(image, descs, h.callee, h.orig, h.hook);
    forall a | a in cells ensures a < |image| && (image[a] == h.orig <==> h !in live && Wants(h, original, descs, a)) {
      CellsHoldingOriginal(p, original, image, descs, live, h, a);
    }
    match FirstAt(image, cells, h.orig) {
      case None =>
        forall a: nat | Wants(h, original, descs, a) ensures image[a] == h.hook {
          var k :| 0 <= k < |cells| && cells[k] == a;
          assert image[cells[k]] != h.orig;
        }
      case Some(at) =>
        assert Wants(h, original, descs, at);
        forall g, a: nat | g in live + {h} && Wants(g, original, descs, a) ensures r[a] == g.hook {
          if g == h {
            assert a == at;
          } else {
            assert Apart(g, h);
            assert a != at;
          }
        }
    }
  }

  /** A cell holds the hook function of a live `h` only if `h` wants it. */
  lemma CellsHoldingHook(p: Process, original: seq<Proc>, image: seq<Proc>, descs: seq<Descriptor>,
                         live: set<Hook>, h: Hook, a: nat)
    requires Patched(original, image, descs, live) && Compatible(p, original, descs, live)
    requires h in live && a < |image|
    ensures image[a] == h.hook <==> Wants(h, original, descs, a)
  {
    if image[a] == h.hook {
      assert ProperHook(p, h);
      assert image[a] != original[a];
      var g :| g in live && Wants(g, original, descs, a);
      assert g != h ==> Apart(g, h);
    }
  }

  /** Unpatching one hook leaves the others in place. */
  lemma RemoveHook(p: Process, original: seq<Proc>, image: seq<Proc>, descs: seq<Descriptor>, live: set<Hook>, h: Hook)
    requires Patched(original, image, descs, live) && Compatible(p, original, descs, live)
    requires h in live
    ensures Patched(original, Replace(image, descs, h.callee, h.hook, h.orig), descs, live - {h})
  {
    var cells := Scan(original, descs, h.callee);
    PatchedSameCells(p, original, image, descs, live, h.callee);
    var r := Replace(image, descs, h.callee, h.hook, h.orig);
    forall a | 0 <= a < |image| ensures image[a] == h.hook <==> Wants(h, original, descs, a) {
      CellsHoldingHook(p, original, image, descs, live, h, a);
    }
    match FirstAt(image, cells, h.hook) {
      case None =>
        forall a: nat | a in cells ensures !Wants(h, original, descs, a) {
          var k :| 0 <= k < |cells| && cells[k] == a;
          assert image[cells[k]] != h.hook;
        }
      case Some(at) =>
        assert Wants(h, original, descs, at);
        forall g, a: nat | g in live - {h} && Wants(g, original, descs, a) ensures r[a] == g.hook {
          assert Apart(g, h);
          assert a != at;
        }
    }
  }

  // ----- Every run -----

  function Live(hooks: seq<Hook>): set<Hook> { set h | h in hooks }

  /** The module's image agrees with the live hooks. */
  ghost predicate Agrees(p: Process, original: seq<Proc>, m: Mod, live: set<Hook>) {
    Compatible(p, original, m.descs, live) && Patched(original, m.image, m.descs, live)
  }

  ghost predicate HooksApart(hooks: seq<Hook>) {
    forall i, j | 0 <= i < j < |hooks| :: Apart(hooks[i], hooks[j]) && Apart(hooks[j], hooks[i])
  }

  ghost predicate ProperHooks(p: Process, hooks: seq<Hook>) {
    (forall h | h in hooks :: ProperHook(p, h)) && HooksApart(hooks)
  }

  /** Every covered module agrees with the live hooks. */
  ghost predicate ModsAgree(p: Process, originals: seq<seq<Proc>>, mods: seq<Mod>, live: set<Hook>) {
    && |mods| == |originals|
    && forall m | 0 <= m < |mods| && Covered(p, mods[m].handle, false) :: Agrees(p, originals[m], mods[m], live)
  }

  ghost predicate Inv(p: Process, s: State) {
    ProperHooks(p, s.hooks) && ModsAgree(p, s.originals, s.mods, Live(s.hooks))
  }

  /** A process as it stands before any hook is constructed. */
  ghost predicate Initial(p: Process, s: State) {
    && s.hooks == []
    && s.originals == Images(s.mods)
    && forall m | 0 <= m < |s.mods| :: NoHookAddress(p, s.mods[m].image)
  }

  lemma InitialInv(p: Process, s: State)
    requires Initial(p, s)
    ensures Inv(p, s)
  {
  }

  lemma ConstructKeepsInv(p: Process, s: State, h: Hook, bThisMod: bool)
    requires Inv(p, s) && Enabled(p, s, Construct(h, bThisMod))
    ensures Inv(p, Do(p, s, Construct(h, bThisMod)))
  {
    var s' := Do(p, s, Construct(h, bThisMod));
    var live := Live(s.hooks);
    assert Live(s'.hooks) == live + {h};
    forall m | 0 <= m < |s.mods| && Covered(p, s.mods[m].handle, false)
      ensures Agrees(p, s.originals[m], s'.mods[m], live + {h})
    {
      ConstructOnMod(p, s.originals[m], s.mods[m], live, h);
    }
    PushKeepsProper(p, h, s.hooks);
  }

  lemma ConstructOnMod(p: Process, original: seq<Proc>, m: Mod, live: set<Hook>, h: Hook)
    requires Agrees(p, original, m, live) && ProperHook(p, h) && ImportedOnce(h, original, m.descs)
    requires forall g | g in live :: Apart(h, g)
    ensures Agrees(p, original, if h.orig == 0 then m else PatchMod(m, h.callee, h.orig, h.hook), live + {h})
  {
    MoreCompatible(p, original, m.descs, live, h);
    if h.orig != 0 {
      ApplyHook(p, original, m.image, m.descs, live, h);
    }
  }

  lemma MoreCompatible(p: Process, original: seq<Proc>, descs: seq<Descriptor>, live: set<Hook>, h: Hook)
    requires Compatible(p, original, descs, live) && ProperHook(p, h) && ImportedOnce(h, original, descs)
    requires forall g | g in live :: Apart(h, g)
    ensures Compatible(p, original, descs, live + {h})
  {
  }

  lemma LiveWithout(hooks: seq<Hook>, i: nat)
    requires HooksApart(hooks) && i < |hooks|
    ensures Live(Without(hooks, i)) == Live(hooks) - {hooks[i]}
    ensures HooksApart(Without(hooks, i))
  {
  }

  lemma DestroyKeepsInv(p: Process, s: State, i: nat)
    requires Inv(p, s) && Enabled(p, s, Destroy(i))
    ensures Inv(p, Do(p, s, Destroy(i)))
  {
    var s' := Do(p, s, Destroy(i));
    var live, h := Live(s.hooks), s.hooks[i];
    LiveWithout(s.hooks, i);
    assert forall g | g in s'.hooks :: g in Live(s'.hooks);
    forall m | 0 <= m < |s.mods| && Covered(p, s.mods[m].handle, false)
      ensures Agrees(p, s.originals[m], s'.mods[m], live - {h})
    {
      assert Agrees(p, s.originals[m], s.mods[m], live);
      RemoveHook(p, s.originals[m], s.mods[m].image, s.mods[m].descs, live, h);
    }
  }

  /** One module during a fixup: the hooks in `done` are in its image, and the
      loop has `rest` still to come. */
  ghost predicate FixupInv(p: Process, original: seq<Proc>, m: Mod, done: set<Hook>, rest: seq<Hook>) {
    Patched(original, m.image, m.descs, done) && Compatible(p, original, m.descs, done + Live(rest))
  }

  /** The fixup brings every module, new or old, to agreement with all hooks:
      patching for a hook already in an image changes nothing. */
  lemma {:induction false} FixupPatches(p: Process, original: seq<Proc>, mods: seq<Mod>, m: nat,
                                        done: set<Hook>, rest: seq<Hook>)
    requires m < |mods| && Covered(p, mods[m].handle, false) && FixupInv(p, original, mods[m], done, rest)
    ensures FixupAll(p, mods, rest)[m].handle == mods[m].handle && FixupAll(p, mods, rest)[m].descs == mods[m].descs
    ensures Patched(original, FixupAll(p, mods, rest)[m].image, mods[m].descs, done + Live(rest))
    decreases |rest|
  {
    if rest == [] {
      assert done + Live(rest) == done;
    } else {
      var h := rest[0];
      var mods' := if h.orig != 0 then PatchAll(p, mods, h.callee, h.orig, h.hook, false) else mods;
      assert done + {h} + Live(rest[1..]) == done + Live(rest) by { LiveCons(rest); }
      FewerCompatible(p, original, mods[m].descs, done + {h}, done + Live(rest));
      if h.orig != 0 {
        ApplyHook(p, original, mods[m].image, mods[m].descs, done, h);
      }
      FixupPatches(p, original, mods', m, done + {h}, rest[1..]);
    }
  }

  lemma LiveCons(hooks: seq<Hook>)
    requires hooks != []
    ensures Live(hooks) == {hooks[0]} + Live(hooks[1..])
  {
  }

  lemma FewerCompatible(p: Process, original: seq<Proc>, descs: seq<Descriptor>, some: set<Hook>, all: set<Hook>)
    requires some <= all && Compatible(p, original, descs, all)
    ensures Compatible(p, original, descs, some)
  {
  }

  lemma {:induction false} FixupKeepsShape(p: Process, mods: seq<Mod>, hooks: seq<Hook>, m: nat)
    requires m < |mods|
    ensures FixupAll(p, mods, hooks)[m].handle == mods[m].handle && FixupAll(p, mods, hooks)[m].descs == mods[m].descs
    ensures !Covered(p, mods[m].handle, false) ==> FixupAll(p, mods, hooks)[m] == mods[m]
    decreases |hooks|
  {
    if hooks != [] {
      var h := hooks[0];
      var mods' := if h.orig != 0 then PatchAll(p, mods, h.callee, h.orig, h.hook, false) else mods;
      FixupKeepsShape(p, mods', hooks[1..], m);
    }
  }

  lemma ApartLive(p: Process, hooks: seq<Hook>)
    requires ProperHooks(p, hooks)
    ensures forall h, g | h in Live(hooks) && g in Live(hooks) && h != g :: Apart(h, g)
  {
  }

  /** The module's image may lack some of the hooks, but has no others. */
  ghost predicate Behind(p: Process, original: seq<Proc>, m: Mod, done: set<Hook>, hooks: seq<Hook>) {
    done <= Live(hooks) && Compatible(p, original, m.descs, Live(hooks)) && Patched(original, m.image, m.descs, done)
  }

  /** A fixup brings every module that lacks some hooks to agreement with all of
      them. */
  lemma FixupCatchesUp(p: Process, originals: seq<seq<Proc>>, mods: seq<Mod>, hooks: seq<Hook>)
    requires |mods| == |originals|
    requires forall m | 0 <= m < |mods| && Covered(p, mods[m].handle, false) ::
               exists done :: Behind(p, originals[m], mods[m], done, hooks)
    ensures ModsAgree(p, originals, FixupAll(p, mods, hooks), Live(hooks))
  {
    var mods' := FixupAll(p, mods, hooks);
    forall m | 0 <= m < |mods'| && Covered(p, mods'[m].handle, false)
      ensures Agrees(p, originals[m], mods'[m], Live(hooks))
    {
      FixupKeepsShape(p, mods, hooks, m);
      var done :| Behind(p, originals[m], mods[m], done, hooks);
      assert done + Live(hooks) == Live(hooks);
      FixupPatches(p, originals[m], mods, m, done, hooks);
    }
  }

  lemma LoadKeepsInv(p: Process, s: State, loaded: seq<Mod>, hmod: nat, datafile: bool)
    requires Inv(p, s) && Enabled(p, s, Load(loaded, hmod, datafile))
    ensures Inv(p, Do(p, s, Load(loaded, hmod, datafile)))
  {
    if hmod != 0 && hmod != p.thisMod && !datafile {
      LoadCatchesUp(p, s, Live(s.hooks), loaded, hmod);
    }
  }

  lemma NewModIsBehind(p: Process, m: Mod, hooks: seq<Hook>)
    requires ProperHooks(p, hooks) && NoHookAddress(p, m.image)
    requires forall h | h in hooks :: ImportedOnce(h, m.image, m.descs)
    ensures Behind(p, m.image, m, {}, hooks)
  {
    ApartLive(p, hooks);
  }

  /** A load whose fixup runs brings old modules, which lack the hooks outside
      `done`, and new ones, which lack them all, to agreement. */
  lemma LoadCatchesUp(p: Process, s: State, done: set<Hook>, loaded: seq<Mod>, hmod: nat)
    requires ProperHooks(p, s.hooks) && Enabled(p, s, Load(loaded, hmod, false))
    requires hmod != 0 && hmod != p.thisMod
    requires forall m | 0 <= m < |s.mods| && Covered(p, s.mods[m].handle, false) ::
               Behind(p, s.originals[m], s.mods[m], done, s.hooks)
    ensures Inv(p, Do(p, s, Load(loaded, hmod, false)))
  {
    var s' := Do(p, s, Load(loaded, hmod, false));
    var mods := s.mods + loaded;
    forall m | 0 <= m < |mods| && Covered(p, mods[m].handle, false)
      ensures exists d :: Behind(p, s'.originals[m], mods[m], d, s.hooks)
    {
      if m < |s.mods| {
        assert Behind(p, s'.originals[m], mods[m], done, s.hooks);
      } else {
        assert mods[m] == loaded[m - |s.mods|];
        assert s'.originals[m] == mods[m].image;
        NewModIsBehind(p, mods[m], s.hooks);
        assert Behind(p, s'.originals[m], mods[m], {}, s.hooks);
      }
    }
    FixupCatchesUp(p, s'.originals, mods, s.hooks);
  }

  lemma UnloadKeepsInv(p: Process, s: State, i: nat)
    requires Inv(p, s) && Enabled(p, s, Unload(i))
    ensures Inv(p, Do(p, s, Unload(i)))
  {
  }

  lemma {:induction false} RunKeepsInv(p: Process, s: State, acts: seq<Action>)
    requires Inv(p, s) && Legal(p, s, acts)
    ensures Inv(p, Run(p, s, acts))
    decreases |acts|
  {
    if acts != [] {
      match acts[0] {
        case Construct(h, bThisMod) => ConstructKeepsInv(p, s, h, bThisMod);
        case Destroy(i) => DestroyKeepsInv(p, s, i);
        case Load(loaded, hmod, datafile) => LoadKeepsInv(p, s, loaded, hmod, datafile);
        case Unload(i) => UnloadKeepsInv(p, s, i);
      }
      RunKeepsInv(p, Do(p, s, acts[0]), acts[1..]);
    }
  }

  /** The address a cell should hold: the hook function of the live hook that
      wants the cell, else the address the module was loaded with. */
  ghost predicate HoldsWhatItShould(original: seq<Proc>, image: seq<Proc>, descs: seq<Descriptor>,
                                    hooks: seq<Hook>, a: nat)
    requires a < |original| && a < |image|
  {
    && (forall i | 0 <= i < |hooks| && Wants(hooks[i], original, descs, a) :: image[a] == hooks[i].hook)
    && ((forall i | 0 <= i < |hooks| :: !Wants(hooks[i], original, descs, a)) ==> image[a] == original[a])
  }

  /** Whole-run agreement: after any constructions, destructions in any order,
      loads and unloads, every cell of every module's import table, save the
      registry's own while that is left out, holds what the live hooks say it
      should. */
  lemma TablesAgreeWithLiveHooks(p: Process, s0: State, acts: seq<Action>, m: nat, a: nat)
    requires Initial(p, s0) && Legal(p, s0, acts)
    requires var s := Run(p, s0, acts);
      m < |s.mods| && a < |s.mods[m].image| && s.mods[m].handle != (if p.exclude then p.thisMod else 0)
    ensures var s := Run(p, s0, acts);
      && m < |s.originals| && |s.originals[m]| == |s.mods[m].image|
      && HoldsWhatItShould(s.originals[m], s.mods[m].image, s.mods[m].descs, s.hooks, a)
  {
    InitialInv(p, s0);
    RunKeepsInv(p, s0, acts);
    var s := Run(p, s0, acts);
    assert Agrees(p, s.originals[m], s.mods[m], Live(s.hooks));
    forall i | 0 <= i < |s.hooks| && Wants(s.hooks[i], s.originals[m], s.mods[m].descs, a)
      ensures s.mods[m].image[a] == s.hooks[i].hook
    {
      assert s.hooks[i] in Live(s.hooks);
    }
  }

  /** Destroying every hook, in whatever order, restores every module but the
      registry's own, left out, to the table it was loaded with. */
  lemma DestroyingAllRestores(p: Process, s0: State, acts: seq<Action>, m: nat)
    requires Initial(p, s0) && Legal(p, s0, acts)
    requires var s := Run(p, s0, acts);
      s.hooks == [] && m < |s.mods| && s.mods[m].handle != (if p.exclude then p.thisMod else 0)
    ensures var s := Run(p, s0, acts); m < |s.originals| && s.mods[m].image == s.originals[m]
  {
    InitialInv(p, s0);
    RunKeepsInv(p, s0, acts);
    var s := Run(p, s0, acts);
    assert Agrees(p, s.originals[m], s.mods[m], Live(s.hooks));
    assert Live(s.hooks) == {};
  }

  // A run in which the older of two hooks goes first, with a load in between.

  ghost const DEMO := Process(9, true, {100, 101})
  ghost const G := Hook("k", 7, 100)
  ghost const H := Hook("K", 8, 101)

  function TwoCellMod(handle: nat, x: Proc, y: Proc): Mod {
    Mod(handle, [Descriptor("k", 0)], [x, y, 0])
  }

  function DemoState(hooks: seq<Hook>, mods: seq<Mod>): State {
    State(hooks, mods, if |mods| == 1 then [[7, 8, 0]] else [[7, 8, 0], [8, 7, 0]])
  }

  lemma DemoConstructs()
    ensures Enabled(DEMO, DemoState([], [TwoCellMod(1, 7, 8)]), Construct(G, false))
    ensures Do(DEMO, DemoState([], [TwoCellMod(1, 7, 8)]), Construct(G, false)) ==
            DemoState([G], [TwoCellMod(1, 100, 8)])
    ensures Enabled(DEMO, DemoState([G], [TwoCellMod(1, 100, 8)]), Construct(H, false))
    ensures Do(DEMO, DemoState([G], [TwoCellMod(1, 100, 8)]), Construct(H, false)) ==
            DemoState([H, G], [TwoCellMod(1, 100, 101)])
  {
    hide Replace, ImportedOnce;
    TwoCellsOnce(7, 8, G);
    TwoCellsOnce(7, 8, H);
    TwoCellPatch(7, 8, "k", 7, 100);
    TwoCellPatch(100, 8, "K", 8, 101);
  }

  lemma DemoLoads()
    ensures Enabled(DEMO, DemoState([H, G], [TwoCellMod(1, 100, 101)]), Load([TwoCellMod(2, 8, 7)], 2, false))
    ensures Do(DEMO, DemoState([H, G], [TwoCellMod(1, 100, 101)]), Load([TwoCellMod(2, 8, 7)], 2, false)) ==
            DemoState([H, G], [TwoCellMod(1, 100, 101), TwoCellMod(2, 101, 100)])
  {
    hide Replace, ImportedOnce, FixupAll;
    TwoCellsOnce(8, 7, G);
    TwoCellsOnce(8, 7, H);
    TwoCellPatch(100, 101, "K", 8, 101);
    TwoCellPatch(100, 101, "k", 7, 100);
    TwoCellPatch(8, 7, "K", 8, 101);
    TwoCellPatch(101, 7, "k", 7, 100);
    var mods := [TwoCellMod(1, 100, 101), TwoCellMod(2, 8, 7)];
    assert [TwoCellMod(1, 100, 101)] + [TwoCellMod(2, 8, 7)] == mods;
    FixupOfTwo(DEMO, mods, H, G);
    assert PatchAll(DEMO, mods, "K", 8, 101, false) == [TwoCellMod(1, 100, 101), TwoCellMod(2, 101, 7)];
  }

  lemma DemoDestroys()
    ensures Do(DEMO, DemoState([H, G], [TwoCellMod(1, 100, 101), TwoCellMod(2, 101, 100)]), Destroy(1)) ==
            DemoState([H], [TwoCellMod(1, 7, 101), TwoCellMod(2, 101, 7)])
  {
    hide Replace;
    TwoCellPatch(100, 101, "k", 100, 7);
    TwoCellPatch(101, 100, "k", 100, 7);
  }

  /** The newer hook stays in both modules, the loaded one included, and the
      older one's cells are as they were loaded. */
  lemma OlderHookGoesFirst()
    ensures var s := DemoState([], [TwoCellMod(1, 7, 8)]);
      var acts := [Construct(G, false)] + ([Construct(H, false)] +
                  ([Load([TwoCellMod(2, 8, 7)], 2, false)] + ([Destroy(1)] + [])));
      && Initial(DEMO, s) && Legal(DEMO, s, acts)
      && Run(DEMO, s, acts) == DemoState([H], [TwoCellMod(1, 7, 101), TwoCellMod(2, 101, 7)])
  {
    hide Do, Enabled;
    var s := DemoState([], [TwoCellMod(1, 7, 8)]);
    var s1 := DemoState([G], [TwoCellMod(1, 100, 8)]);
    var s2 := DemoState([H, G], [TwoCellMod(1, 100, 101)]);
    var s3 := DemoState([H, G], [TwoCellMod(1, 100, 101), TwoCellMod(2, 101, 100)]);
    var load := Load([TwoCellMod(2, 8, 7)], 2, false);
    DemoConstructs();
    DemoLoads();
    DemoDestroys();
    assert Enabled(DEMO, s3, Destroy(1)) by { DemoDestroyEnabled(); }
    RunStep(DEMO, s3, Destroy(1), []);
    RunStep(DEMO, s2, load, [Destroy(1)] + []);
    RunStep(DEMO, s1, Construct(H, false), [load] + ([Destroy(1)] + []));
    RunStep(DEMO, s, Construct(G, false), [Construct(H, false)] + ([load] + ([Destroy(1)] + [])));
  }

  lemma DemoDestroyEnabled()
    ensures Enabled(DEMO, DemoState([H, G], [TwoCellMod(1, 100, 101), TwoCellMod(2, 101, 100)]), Destroy(1))
  {
  }

  lemma FixupOfTwo(p: Process, mods: seq<Mod>, h: Hook, g: Hook)
    requires h.orig != 0 && g.orig != 0
    ensures FixupAll(p, mods, [h, g]) ==
            PatchAll(p, PatchAll(p, mods, h.callee, h.orig, h.hook, false), g.callee, g.orig, g.hook, false)
  {
    assert [h, g][1..] == [g];
    FixupOfOne(p, PatchAll(p, mods, h.callee, h.orig, h.hook, false), g);
  }

  lemma TwoCells(x: Proc, y: Proc, callee: string)
    requires x != 0 && y != 0 && SameModule("k", callee)
    ensures Scan([x, y, 0], [Descriptor("k", 0)], callee) == [0, 1]
  {
    TwoImports([x, y, 0]);
    SameCells([x, y, 0], [Descriptor("k", 0)], "k", callee);
  }

  lemma TwoCellPatch(x: Proc, y: Proc, callee: string, current: Proc, replacement: Proc)
    requires x != 0 && y != 0 && (callee == "k" || callee == "K")
    ensures Replace([x, y, 0], [Descriptor("k", 0)], callee, current, replacement) ==
            if x == current then [replacement, y, 0] else if y == current then [x, replacement, 0] else [x, y, 0]
  {
    hide Scan;
    TwoCells(x, y, callee);
    assert FirstAt([x, y, 0], [0, 1], current) ==
           if x == current then Some(0) else FirstAt([x, y, 0], [1], current) by { assert [0, 1][1..] == [1]; }
  }

  lemma TwoCellsOnce(x: Proc, y: Proc, h: Hook)
    requires x != 0 && y != 0 && x != y && (h.callee == "k" || h.callee == "K")
    ensures ImportedOnce(h, [x, y, 0], [Descriptor("k", 0)])
  {
    hide Scan;
    TwoCells(x, y, h.callee);
  }

  // ----- Dynamic lookup -----

  /** The newest hook on the address `raw` is hook `i`. */
  ghost predicate FoundAt(hooks: seq<Hook>, raw: Proc, i: int) {
    0 <= i < |hooks| && raw != 0 && hooks[i].orig == raw && forall j | 0 <= j < i :: hooks[j].orig != raw
  }

  /** The hooked lookup answers with the newest live hook on the address. */
  lemma {:induction false} LookupFindsNewest(hooks: seq<Hook>, raw: Proc)
    ensures (exists i :: FoundAt(hooks, raw, i) && HookedAddress(hooks, raw) == hooks[i].hook)
         || (HookedAddress(hooks, raw) == raw && (raw == 0 || forall i | 0 <= i < |hooks| :: hooks[i].orig != raw))
  {
    if raw != 0 && hooks != [] && hooks[0].orig != raw {
      LookupFindsNewest(hooks[1..], raw);
      if i :| FoundAt(hooks[1..], raw, i) && HookedAddress(hooks[1..], raw) == hooks[1..][i].hook {
        assert FoundAt(hooks, raw, i + 1);
        assert forall j | 1 <= j < i + 1 :: hooks[j] == hooks[1..][j - 1];
      } else {
        assert forall j | 1 <= j < |hooks| :: hooks[j] == hooks[1..][j - 1];
      }
    }
  }

  /** In every reachable state, the hooked lookup of a function and a covered
      module's cell for it hold the same address, if and only if a live hook on
      that function, should there be one, names the module the cell is imported
      from. */
  lemma LookupAgreesWithTable(p: Process, s0: State, acts: seq<Action>, m: nat, a: nat)
    requires Initial(p, s0) && Legal(p, s0, acts)
    requires var s := Run(p, s0, acts);
      m < |s.mods| && a < |s.mods[m].image| && s.mods[m].handle != (if p.exclude then p.thisMod else 0)
    ensures var s := Run(p, s0, acts); m < |s.originals| && a < |s.originals[m]|
    ensures var s := Run(p, s0, acts);
      var raw := s.originals[m][a];
      raw != 0 ==>
        (HookedAddress(s.hooks, raw) == s.mods[m].image[a] <==>
         forall h | h in s.hooks && h.orig == raw :: a in Scan(s.originals[m], s.mods[m].descs, h.callee))
  {
    TablesAgreeWithLiveHooks(p, s0, acts, m, a);
    InitialInv(p, s0);
    RunKeepsInv(p, s0, acts);
    var s := Run(p, s0, acts);
    assert Agrees(p, s.originals[m], s.mods[m], Live(s.hooks));
    if s.originals[m][a] != 0 {
      LookupAgrees(p, s.originals[m], s.mods[m], s.hooks, a);
    }
  }

  lemma LookupAgrees(p: Process, original: seq<Proc>, m: Mod, hooks: seq<Hook>, a: nat)
    requires ProperHooks(p, hooks) && NoHookAddress(p, original) && |original| == |m.image|
    requires a < |original| && original[a] != 0 && HoldsWhatItShould(original, m.image, m.descs, hooks, a)
    ensures HookedAddress(hooks, original[a]) == m.image[a] <==>
            forall h | h in hooks && h.orig == original[a] :: a in Scan(original, m.descs, h.callee)
  {
    var raw := original[a];
    LookupFindsNewest(hooks, raw);
    if i :| 0 <= i < |hooks| && hooks[i].orig == raw {
      assert ProperHook(p, hooks[i]);
      forall j | 0 <= j < |hooks| && hooks[j].orig == raw ensures j == i {
      }
      assert HookedAddress(hooks, raw) == hooks[i].hook;
      if a in Scan(original, m.descs, hooks[i].callee) {
        assert Wants(hooks[i], original, m.descs, a);
      } else {
        assert m.image[a] == raw;
      }
    }
  }

  // ----- Where agreement ends -----

  /** Hooks on one function do not stack: in a state that agrees with its live
      hooks, a second hook on a function that is hooked already changes no
      covered table. */
  lemma SecondHookPatchesNothing(p: Process, s: State, h: Hook, m: nat)
    requires Inv(p, s) && m < |s.mods| && Covered(p, s.mods[m].handle, false)
    requires exists g :: g in s.hooks && g.orig == h.orig != 0 && SameModule(g.callee, h.callee)
    ensures Do(p, s, Construct(h, false)).mods[m] == s.mods[m]
  {
    var g :| g in s.hooks && g.orig == h.orig != 0 && SameModule(g.callee, h.callee);
    assert g in Live(s.hooks);
    var original, image, descs := s.originals[m], s.mods[m].image, s.mods[m].descs;
    assert Agrees(p, original, s.mods[m], Live(s.hooks));
    PatchedSameCells(p, original, image, descs, Live(s.hooks), g.callee);
    SameCells(image, descs, g.callee, h.callee);
    if at :| FirstMatch(image, descs, h.callee, h.orig) == Some(at) {
      assert at in Scan(image, descs, h.callee);
      CellsHoldingOriginal(p, original, image, descs, Live(s.hooks), g, at);
    }
  }

  /** The same in every reachable state. */
  lemma SecondHookIsInert(p: Process, s0: State, acts: seq<Action>, h: Hook, m: nat)
    requires Initial(p, s0) && Legal(p, s0, acts)
    requires var s := Run(p, s0, acts);
      && m < |s.mods| && Covered(p, s.mods[m].handle, false)
      && exists g :: g in s.hooks && g.orig == h.orig != 0 && SameModule(g.callee, h.callee)
    ensures Do(p, Run(p, s0, acts), Construct(h, false)).mods[m] == Run(p, s0, acts).mods[m]
  {
    InitialInv(p, s0);
    RunKeepsInv(p, s0, acts);
    SecondHookPatchesNothing(p, Run(p, s0, acts), h, m);
  }

  /** `h` hooks the function that hook `i` hooks already, with a hook function of
      its own, and otherwise meets what is asked of a new hook. */
  ghost predicate SecondHook(p: Process, s: State, i: nat, h: Hook) {
    && |s.mods| == |s.originals|
    && i < |s.hooks| && s.hooks[i].orig == h.orig != 0 && SameModule(s.hooks[i].callee, h.callee)
    && ProperHook(p, h)
    && (forall g | g in Without(s.hooks, i) :: Apart(h, g))
    && (forall m | 0 <= m < |s.mods| && Covered(p, s.mods[m].handle, false) ::
          ImportedOnce(h, s.originals[m], s.mods[m].descs))
  }

  /** A second hook takes over late.  While the first hook lives, it does
      nothing; when the first hook is destroyed, the tables fall back to what the
      other hooks alone say; and the first fixup after that, whatever it loads,
      patches for the second hook as for any other live hook. */
  lemma SecondHookTakesOver(p: Process, s0: State, acts: seq<Action>, i: nat, h: Hook, loaded: seq<Mod>, hmod: nat)
    requires Initial(p, s0) && Legal(p, s0, acts)
    requires SecondHook(p, Run(p, s0, acts), i, h)
    requires var s2 := Do(p, Do(p, Run(p, s0, acts), Construct(h, false)), Destroy(i + 1));
      hmod != 0 && hmod != p.thisMod && Enabled(p, s2, Load(loaded, hmod, false))
    ensures var s := Run(p, s0, acts);
      var s1 := Do(p, s, Construct(h, false));
      var s2 := Do(p, s1, Destroy(i + 1));
      var s3 := Do(p, s2, Load(loaded, hmod, false));
      && ModsAgree(p, s.originals, s1.mods, Live(s.hooks))
      && ModsAgree(p, s.originals, s2.mods, Live(Without(s.hooks, i)))
      && s3.hooks == [h] + Without(s.hooks, i) && Inv(p, s3)
  {
    InitialInv(p, s0);
    RunKeepsInv(p, s0, acts);
    var s := Run(p, s0, acts);
    var s1 := Do(p, s, Construct(h, false));
    assert s1.mods == s.mods by {
      forall m | 0 <= m < |s.mods| ensures s1.mods[m] == s.mods[m] {
        if Covered(p, s.mods[m].handle, false) {
          assert s.hooks[i] in s.hooks;
          SecondHookPatchesNothing(p, s, h, m);
        }
      }
    }
    SecondHookAfterFirst(p, s, i, h);
    var s2 := Do(p, s1, Destroy(i + 1));
    LoadCatchesUp(p, s2, Live(Without(s.hooks, i)), loaded, hmod);
  }

  /** The state once the first hook is gone: the second is on the list, and every
      covered module lacks it. */
  lemma SecondHookAfterFirst(p: Process, s: State, i: nat, h: Hook)
    requires Inv(p, s) && SecondHook(p, s, i, h)
    requires Do(p, s, Construct(h, false)).mods == s.mods
    ensures var rest := Without(s.hooks, i);
      var s2 := Do(p, Do(p, s, Construct(h, false)), Destroy(i + 1));
      && s2.hooks == [h] + rest && s2.originals == s.originals && ProperHooks(p, s2.hooks)
      && ModsAgree(p, s.originals, s2.mods, Live(rest))
      && forall m | 0 <= m < |s2.mods| && Covered(p, s2.mods[m].handle, false) ::
           Behind(p, s2.originals[m], s2.mods[m], Live(rest), s2.hooks)
  {
    var rest := Without(s.hooks, i);
    var s1 := Do(p, s, Construct(h, false));
    var s2 := Do(p, s1, Destroy(i + 1));
    assert s1.hooks[i + 1] == s.hooks[i];
    assert s2.hooks == [h] + rest;
    assert s2.mods == Do(p, s, Destroy(i)).mods;
    DestroyKeepsInv(p, s, i);
    PushKeepsProper(p, h, rest);
    LiveCons([h] + rest);
    forall m | 0 <= m < |s2.mods| && Covered(p, s2.mods[m].handle, false)
      ensures Behind(p, s2.originals[m], s2.mods[m], Live(rest), s2.hooks)
    {
      assert Agrees(p, s.originals[m], s2.mods[m], Live(rest));
      assert Live(s2.hooks) == Live(rest) + {h};
      MoreCompatible(p, s.originals[m], s2.mods[m].descs, Live(rest), h);
    }
  }

  lemma PushKeepsProper(p: Process, h: Hook, hooks: seq<Hook>)
    requires ProperHooks(p, hooks) && ProperHook(p, h) && forall g | g in hooks :: Apart(h, g)
    ensures ProperHooks(p, [h] + hooks)
  {
    var all := [h] + hooks;
    forall j | 1 <= j < |all| ensures Apart(h, all[j]) && Apart(all[j], h) {
      assert all[j] == hooks[j - 1];
    }
    forall i, j | 1 <= i < j < |all| ensures Apart(all[i], all[j]) && Apart(all[j], all[i]) {
      assert all[i] == hooks[i - 1] && all[j] == hooks[j - 1];
    }
  }

  lemma {:induction false} SameCells(image: seq<Proc>, descs: seq<Descriptor>, callee: string, other: string)
    requires SameModule(callee, other)
    ensures Scan(image, descs, callee) == Scan(image, descs, other)
  {
    if descs != [] {
      SameCells(image, descs[1..], callee, other);
    }
  }

  /** Two hooks on different functions that share one hook function: which cell
      belongs to which hook is lost, and destroying the newer one writes its
      original into the first cell that holds the shared address.  A covered
      table goes back to what the older hook alone left exactly when the module
      does not import the older hook's function, or is scanned over the newer
      one's first. */
  lemma SharedHookFunctionIff(p: Process, s: State, g: Hook, h: Hook, m: nat)
    requires m < |s.mods| && Covered(p, s.mods[m].handle, false)
    requires ProperHook(p, g) && ProperHook(p, h) && NoHookAddress(p, s.mods[m].image)
    requires g.hook == h.hook && g.callee == h.callee && g.orig != h.orig && g.orig != 0 && h.orig != 0
    ensures var s1 := Do(p, s, Construct(g, false));
      var s2 := Do(p, s1, Construct(h, false));
      var image := s.mods[m].image;
      var cells := Scan(image, s.mods[m].descs, h.callee);
      Do(p, s2, Destroy(0)).mods[m] == s1.mods[m] <==>
        (Position(image, cells, g.orig) == |cells| ||
         Position(image, cells, h.orig) < Position(image, cells, g.orig))
  {
    hide Replace;
    SharedCells(p, s.mods[m].image, s.mods[m].descs, g, h);
  }

  lemma SharedCells(p: Process, image: seq<Proc>, descs: seq<Descriptor>, g: Hook, h: Hook)
    requires ProperHook(p, g) && ProperHook(p, h) && NoHookAddress(p, image)
    requires g.hook == h.hook && g.callee == h.callee && g.orig != h.orig && g.orig != 0 && h.orig != 0
    ensures var one := Replace(image, descs, g.callee, g.orig, g.hook);
      var two := Replace(one, descs, h.callee, h.orig, h.hook);
      var cells := Scan(image, descs, h.callee);
      Replace(two, descs, h.callee, h.hook, h.orig) == one <==>
        (Position(image, cells, g.orig) == |cells| ||
         Position(image, cells, h.orig) < Position(image, cells, g.orig))
  {
    var cells := Scan(image, descs, h.callee);
    var i, j := Position(image, cells, g.orig), Position(image, cells, h.orig);
    var one := Replace(image, descs, g.callee, g.orig, g.hook);
    ReplaceWritesFirst(image, descs, g.callee, g.orig, g.hook);
    ScanSameNulls(image, one, descs, h.callee);
    SamePosition(image, one, cells, h.orig, j);
    var b := Position(one, cells, h.hook);
    assert b == i by {
      SharedPosition(p, image, cells, i, g);
    }
    PatchIsUndoneIff(one, descs, h.callee, h.orig, h.hook);
  }

  /** The first `q` stays where it was when only cells that do not hold `q`
      change, and none becomes `q`. */
  lemma SamePosition(image: seq<Proc>, patched: seq<Proc>, cells: seq<nat>, q: Proc, j: nat)
    requires |image| == |patched| && forall k | 0 <= k < |cells| :: cells[k] < |image|
    requires forall a | 0 <= a < |image| :: image[a] == q <==> patched[a] == q
    requires j == Position(image, cells, q)
    ensures Position(patched, cells, q) == j
  {
    var k := Position(patched, cells, q);
    assert k < |cells| ==> image[cells[k]] == q;
    assert j < |cells| ==> patched[cells[j]] == q;
  }

  lemma SharedPosition(p: Process, image: seq<Proc>, cells: seq<nat>, i: nat, g: Hook)
    requires NoHookAddress(p, image) && ProperHook(p, g)
    requires forall k | 0 <= k < |cells| :: cells[k] < |image|
    requires i == Position(image, cells, g.orig)
    ensures Position(if i < |cells| then image[cells[i] := g.hook] else image, cells, g.hook) == i
  {
    var patched := if i < |cells| then image[cells[i] := g.hook] else image;
    var k := Position(patched, cells, g.hook);
    if i < |cells| {
      assert patched[cells[i]] == g.hook;
      assert forall m | 0 <= m < i :: patched[cells[m]] == image[cells[m]];
    }
  }

  /** One input for it: functions 7 and 8 imported in that order, both hooked
      with 100; unhooking 8 leaves 8 in the cell of 7. */
  lemma SharedHookFunctionCorrupts()
    ensures var p := Process(0, true, {100});
      var s := State([], [Mod(1, [Descriptor("k", 0)], [7, 8, 0])], [[7, 8, 0]]);
      var s2 := Do(p, Do(p, s, Construct(Hook("k", 7, 100), false)), Construct(Hook("k", 8, 100), false));
      Do(p, s2, Destroy(0)).mods[0].image == [8, 100, 0]
  {
    var descs := [Descriptor("k", 0)];
    TwoImports([7, 8, 0]);
    TwoImports([100, 8, 0]);
    TwoImports([100, 100, 0]);
    assert Replace([7, 8, 0], descs, "k", 7, 100) == [100, 8, 0];
    assert Replace([100, 8, 0], descs, "k", 8, 100) == [100, 100, 0];
    assert Replace([100, 100, 0], descs, "k", 100, 8) == [8, 100, 0];
  }

  lemma TwoImports(image: seq<Proc>)
    requires |image| == 3 && image[0] != 0 && image[1] != 0 && image[2] == 0
    ensures Scan(image, [Descriptor("k", 0)], "k") == [0, 1]
  {
    assert Thunks(image, 2) == [] && Thunks(image, 1) == [1] && Thunks(image, 0) == [0, 1];
    assert Scan(image, [Descriptor("k", 0)], "k") == Thunks(image, 0) + Scan(image, [], "k");
  }

  // The registry's own module, when it is left out by default.

  /** Where module `m` of the list is after the action, if it is still loaded. */
  function IndexAfter(a: Action, m: nat): Option<nat> {
    if a.Unload? then (if a.i == m then None else if a.i < m then Some(m - 1) else Some(m)) else Some(m)
  }

  function Follow(acts: seq<Action>, m: nat): Option<nat> {
    if acts == [] then Some(m)
    else match IndexAfter(acts[0], m)
      case None => None
      case Some(k) => Follow(acts[1..], k)
  }

  /** The action constructs a hook with `bThisMod` on a function that the module,
      as it was loaded, imports. */
  ghost predicate PatchesOwn(a: Action, original: seq<Proc>, descs: seq<Descriptor>) {
    a.Construct? && a.bThisMod && exists c: nat :: Wants(a.h, original, descs, c)
  }

  ghost predicate NonePatchesOwn(acts: seq<Action>, original: seq<Proc>, descs: seq<Descriptor>) {
    forall i | 0 <= i < |acts| :: !PatchesOwn(acts[i], original, descs)
  }

  /** The image is the original, or holds a hook address somewhere. */
  ghost predicate CleanOrMarked(p: Process, original: seq<Proc>, image: seq<Proc>) {
    |image| == |original| && (image == original || exists c :: 0 <= c < |image| && image[c] in p.hookAddrs)
  }

  /** A patch for a proper hook never removes a hook address, and changes the
      original exactly when the hook wants one of its cells. */
  lemma OwnPatch(p: Process, original: seq<Proc>, image: seq<Proc>, descs: seq<Descriptor>, h: Hook)
    requires NoHookAddress(p, original) && CleanOrMarked(p, original, image) && ProperHook(p, h) && h.orig != 0
    ensures var r := Replace(image, descs, h.callee, h.orig, h.hook);
      && CleanOrMarked(p, original, r)
      && (r == original <==> image == original && !exists c: nat :: Wants(h, original, descs, c))
  {
    var r := Replace(image, descs, h.callee, h.orig, h.hook);
    if image == original {
      if c: nat :| Wants(h, original, descs, c) {
        var w := PatchedCell(image, descs, h.callee, h.orig, h.hook, c);
        assert r[w] == h.hook;
      } else if at :| FirstMatch(image, descs, h.callee, h.orig) == Some(at) {
        assert Wants(h, original, descs, at);
      }
    } else {
      var c :| 0 <= c < |image| && image[c] in p.hookAddrs;
      assert r[c] in p.hookAddrs;
    }
  }

  /** One step, seen from the registry's own module: only a construction with
      `bThisMod` can touch it. */
  lemma OwnStep(p: Process, original: seq<Proc>, s: State, a: Action, m: nat)
    requires p.exclude && Enabled(p, s, a) && m < |s.mods| && s.mods[m].handle == p.thisMod
    requires NoHookAddress(p, original) && CleanOrMarked(p, original, s.mods[m].image)
    requires IndexAfter(a, m).Some?
    ensures var k, s' := IndexAfter(a, m).value, Do(p, s, a);
      && k < |s'.mods| && s'.mods[k].handle == p.thisMod && s'.mods[k].descs == s.mods[m].descs
      && CleanOrMarked(p, original, s'.mods[k].image)
      && (s'.mods[k].image == original <==> s.mods[m].image == original && !PatchesOwn(a, original, s.mods[m].descs))
  {
    match a
    case Construct(h, bThisMod) =>
      if h.orig != 0 {
        OwnPatch(p, original, s.mods[m].image, s.mods[m].descs, h);
      }
    case Load(loaded, hmod, datafile) =>
      FixupKeepsShape(p, s.mods + loaded, s.hooks, m);
    case Destroy(_) =>
    case Unload(_) =>
  }

  lemma {:induction false} OwnRun(p: Process, original: seq<Proc>, s: State, acts: seq<Action>, m: nat)
    requires p.exclude && Legal(p, s, acts) && m < |s.mods| && s.mods[m].handle == p.thisMod
    requires NoHookAddress(p, original) && CleanOrMarked(p, original, s.mods[m].image)
    requires Follow(acts, m).Some?
    ensures var k, s' := Follow(acts, m).value, Run(p, s, acts);
      && k < |s'.mods| && s'.mods[k].handle == p.thisMod
      && (s'.mods[k].image == original <==>
          s.mods[m].image == original && NonePatchesOwn(acts, original, s.mods[m].descs))
    decreases |acts|
  {
    if acts != [] {
      OwnStep(p, original, s, acts[0], m);
      OwnRun(p, original, Do(p, s, acts[0]), acts[1..], IndexAfter(acts[0], m).value);
      assert forall i | 1 <= i < |acts| :: acts[i] == acts[1..][i - 1];
    }
  }

  /** A hook constructed with `bThisMod` patches the registry's own module, but
      destructors and fixups pass over it.  After any run, however many hooks it
      destroys, the own module's table is as it was loaded if and only if no
      hook constructed with `bThisMod` during the run wanted one of its cells. */
  lemma OwnModuleIsRestoredIff(p: Process, s: State, acts: seq<Action>, m: nat)
    requires p.exclude && Legal(p, s, acts) && m < |s.mods| && s.mods[m].handle == p.thisMod
    requires NoHookAddress(p, s.mods[m].image) && Follow(acts, m).Some?
    ensures Follow(acts, m).value < |Run(p, s, acts).mods|
    ensures var image, descs := s.mods[m].image, s.mods[m].descs;
      Run(p, s, acts).mods[Follow(acts, m).value].image == image <==> NonePatchesOwn(acts, image, descs)
  {
    OwnRun(p, s.mods[m].image, s, acts, m);
  }

  /** The input that shows it: a module importing one function, which is hooked
      with `bThisMod` and unhooked, keeps the hook's address with no hook
      live. */
  lemma OwnModuleStaysPatched()
    ensures var p := Process(1, true, {100});
      var s := State([], [Mod(1, [Descriptor("k", 0)], [7, 0])], [[7, 0]]);
      var acts := [Construct(Hook("k", 7, 100), true)] + ([Destroy(0)] + []);
      && Initial(p, s) && Legal(p, s, acts)
      && Run(p, s, acts).hooks == [] && Run(p, s, acts).mods == [Mod(1, [Descriptor("k", 0)], [100, 0])]
  {
    var p, h := Process(1, true, {100}), Hook("k", 7, 100);
    var own := Mod(1, [Descriptor("k", 0)], [7, 0]);
    var s := State([], [own], [[7, 0]]);
    OneImport([7, 0]);
    assert PatchMod(own, "k", 7, 100).image == [100, 0];
    hide Replace;
    var s1 := Do(p, s, Construct(h, true));
    assert s1.mods == [own.(image := [100, 0])];
    assert Do(p, s1, Destroy(0)).mods == s1.mods;
    RunStep(p, s1, Destroy(0), []);
    RunStep(p, s, Construct(h, true), [Destroy(0)] + []);
  }

  lemma OneImport(image: seq<Proc>)
    requires |image| == 2 && image[0] != 0 && image[1] == 0
    ensures Scan(image, [Descriptor("k", 0)], "k") == [0]
  {
    assert Thunks(image, 1) == [] && Thunks(image, 0) == [0];
    assert Scan(image, [Descriptor("k", 0)], "k") == Thunks(image, 0) + Scan(image, [], "k");
  }

  lemma RunStep(p: Process, s: State, a: Action, rest: seq<Action>)
    requires Enabled(p, s, a) && Legal(p, Do(p, s, a), rest)
    ensures Legal(p, s, [a] + rest) && Run(p, s, [a] + rest) == Run(p, Do(p, s, a), rest)
  {
  }

  // ----- Functions imported more than once -----

  /** `count` loads that map nothing new, each followed by its fixup. */
  function Fixups(p: Process, s: State, hmod: nat, count: nat): State
    decreases count
  {
    if count == 0 then s else Fixups(p, Do(p, s, Load([], hmod, false)), hmod, count - 1)
  }

  function PatchOften(image: seq<Proc>, descs: seq<Descriptor>, h: Hook, count: nat): (r: seq<Proc>)
    ensures |r| == |image|
    decreases count
  {
    if count == 0 then image else PatchOften(Replace(image, descs, h.callee, h.orig, h.hook), descs, h, count - 1)
  }

  lemma PatchOftenStep(image: seq<Proc>, descs: seq<Descriptor>, h: Hook, count: nat)
    ensures PatchOften(image, descs, h, count) ==
            if count == 0 then image
            else PatchOften(Replace(image, descs, h.callee, h.orig, h.hook), descs, h, count - 1)
  {
  }

  lemma FixupOfOne(p: Process, mods: seq<Mod>, h: Hook)
    requires h.orig != 0
    ensures FixupAll(p, mods, [h]) == PatchAll(p, mods, h.callee, h.orig, h.hook, false)
  {
    assert [h][1..] == [];
  }

  lemma OneFixup(p: Process, s: State, hmod: nat, h: Hook, m: nat)
    requires s.hooks == [h] && h.orig != 0 && hmod != 0 && hmod != p.thisMod
    requires m < |s.mods| && Covered(p, s.mods[m].handle, false)
    ensures var s' := Do(p, s, Load([], hmod, false));
      && s'.hooks == [h] && |s'.mods| == |s.mods|
      && s'.mods[m] == PatchMod(s.mods[m], h.callee, h.orig, h.hook)
  {
    assert s.mods + [] == s.mods;
    FixupOfOne(p, s.mods, h);
  }

  lemma {:induction false} FixupsPatchOften(p: Process, s: State, hmod: nat, count: nat, h: Hook, m: nat)
    requires s.hooks == [h] && h.orig != 0 && hmod != 0 && hmod != p.thisMod
    requires m < |s.mods| && Covered(p, s.mods[m].handle, false)
    ensures Fixups(p, s, hmod, count).hooks == [h] && |Fixups(p, s, hmod, count).mods| == |s.mods|
    ensures Fixups(p, s, hmod, count).mods[m] ==
            s.mods[m].(image := PatchOften(s.mods[m].image, s.mods[m].descs, h, count))
    decreases count
  {
    hide Replace, PatchOften;
    PatchOftenStep(s.mods[m].image, s.mods[m].descs, h, count);
    if count > 0 {
      hide Do;
      OneFixup(p, s, hmod, h, m);
      FixupsPatchOften(p, Do(p, s, Load([], hmod, false)), hmod, count - 1, h, m);
    }
  }

  /** Each patch stops at its first match, so a second import of the same
      function is reached only by a later fixup, and the destructor restores one
      of the two.  With one hook constructed, any number of fixups, and the hook
      destroyed, a covered module gets its table back exactly when no fixup ran
      or the function is imported once. */
  lemma ImportedOnceIsNeeded(p: Process, s: State, hmod: nat, fixups: nat, h: Hook, m: nat)
    requires s.hooks == [] && m < |s.mods| && Covered(p, s.mods[m].handle, false)
    requires NoHookAddress(p, s.mods[m].image) && ProperHook(p, h) && h.orig != 0
    requires hmod != 0 && hmod != p.thisMod
    ensures var s1 := Fixups(p, Do(p, s, Construct(h, false)), hmod, fixups);
      && |s1.hooks| == 1 && |s1.mods| == |s.mods|
      && (Do(p, s1, Destroy(0)).mods[m] == s.mods[m] <==>
          fixups == 0 || ImportedOnce(h, s.mods[m].image, s.mods[m].descs))
  {
    hide Do, Fixups, PatchOften, ImportedOnce, NoHookAddress;
    var original, descs := s.mods[m].image, s.mods[m].descs;
    RunOfFixups(p, s, hmod, fixups, h, m);
    if fixups == 0 {
      OncePatchedIsUndone(p, original, descs, h);
    } else if ImportedOnce(h, original, descs) {
      OneImportIsUndone(p, original, descs, h, fixups + 1);
    } else {
      TwoImportsLeaveOne(p, original, descs, h, fixups - 1);
    }
  }

  lemma RunOfFixups(p: Process, s: State, hmod: nat, fixups: nat, h: Hook, m: nat)
    requires s.hooks == [] && m < |s.mods| && Covered(p, s.mods[m].handle, false)
    requires h.orig != 0 && hmod != 0 && hmod != p.thisMod
    ensures var s1 := Fixups(p, Do(p, s, Construct(h, false)), hmod, fixups);
      var own := s.mods[m];
      var patched := PatchOften(own.image, own.descs, h, fixups + 1);
      && |s1.hooks| == 1 && |s1.mods| == |s.mods|
      && Do(p, s1, Destroy(0)).mods[m] == own.(image := Replace(patched, own.descs, h.callee, h.hook, h.orig))
  {
    var s0 := Do(p, s, Construct(h, false));
    assert s0.hooks == [h];
    FixupsPatchOften(p, s0, hmod, fixups, h, m);
  }

  lemma OncePatchedIsUndone(p: Process, original: seq<Proc>, descs: seq<Descriptor>, h: Hook)
    requires NoHookAddress(p, original) && ProperHook(p, h)
    ensures Replace(PatchOften(original, descs, h, 1), descs, h.callee, h.hook, h.orig) == original
  {
    var cells := Scan(original, descs, h.callee);
    var k := Position(original, cells, h.hook);
    assert k == |cells|;
    PatchIsUndoneIff(original, descs, h.callee, h.orig, h.hook);
  }

  lemma {:induction false} PatchOftenPatches(p: Process, original: seq<Proc>, image: seq<Proc>, descs: seq<Descriptor>,
                                             h: Hook, count: nat)
    requires Compatible(p, original, descs, {h}) && Patched(original, image, descs, {h}) && h.orig != 0
    ensures Patched(original, PatchOften(image, descs, h, count), descs, {h})
    decreases count
  {
    hide Patched, Compatible, Replace, PatchOften;
    PatchOftenStep(image, descs, h, count);
    if count > 0 {
      assert {h} + {h} == {h};
      ApplyHook(p, original, image, descs, {h}, h);
      PatchOftenPatches(p, original, Replace(image, descs, h.callee, h.orig, h.hook), descs, h, count - 1);
    }
  }

  lemma UnpatchedOriginal(p: Process, original: seq<Proc>, descs: seq<Descriptor>, h: Hook)
    requires NoHookAddress(p, original) && ProperHook(p, h) && ImportedOnce(h, original, descs)
    ensures Patched(original, original, descs, {}) && Compatible(p, original, descs, {h})
  {
  }

  lemma PatchedByNone(original: seq<Proc>, image: seq<Proc>, descs: seq<Descriptor>)
    requires Patched(original, image, descs, {})
    ensures image == original
  {
  }

  lemma OneImportIsUndone(p: Process, original: seq<Proc>, descs: seq<Descriptor>, h: Hook, count: nat)
    requires NoHookAddress(p, original) && ProperHook(p, h) && h.orig != 0
    requires ImportedOnce(h, original, descs) && count > 0
    ensures Replace(PatchOften(original, descs, h, count), descs, h.callee, h.hook, h.orig) == original
  {
    hide Patched, Compatible, Replace, ImportedOnce;
    var image := PatchOften(original, descs, h, count);
    UnpatchedOriginal(p, original, descs, h);
    assert {} + {h} == {h} && {h} - {h} == {};
    ApplyHook(p, original, original, descs, {}, h);
    PatchOftenPatches(p, original, Replace(original, descs, h.callee, h.orig, h.hook), descs, h, count - 1);
    RemoveHook(p, original, image, descs, {h}, h);
    PatchedByNone(original, Replace(image, descs, h.callee, h.hook, h.orig), descs);
  }

  lemma PatchKeepsHookCell(image: seq<Proc>, descs: seq<Descriptor>, h: Hook, c: nat)
    requires h.orig != h.hook && c < |image| && image[c] == h.hook
    ensures Replace(image, descs, h.callee, h.orig, h.hook)[c] == h.hook
  {
    hide FirstMatch;
  }

  /** A cell that holds the hook function keeps it through further patches. */
  lemma {:induction false} HookCellStays(image: seq<Proc>, descs: seq<Descriptor>, h: Hook, count: nat, c: nat)
    requires h.orig != h.hook && c < |image| && image[c] == h.hook
    ensures PatchOften(image, descs, h, count)[c] == h.hook
    decreases count
  {
    hide Replace, PatchOften;
    PatchOftenStep(image, descs, h, count);
    if count > 0 {
      PatchKeepsHookCell(image, descs, h, c);
      HookCellStays(Replace(image, descs, h.callee, h.orig, h.hook), descs, h, count - 1, c);
    }
  }

  lemma TwoImportsLeaveOne(p: Process, original: seq<Proc>, descs: seq<Descriptor>, h: Hook, more: nat)
    requires NoHookAddress(p, original) && ProperHook(p, h) && h.orig != 0
    requires !ImportedOnce(h, original, descs)
    ensures Replace(PatchOften(original, descs, h, more + 2), descs, h.callee, h.hook, h.orig) != original
  {
    var a: nat, b: nat :| Wants(h, original, descs, a) && Wants(h, original, descs, b) && a != b;
    var c1 := PatchedCell(original, descs, h.callee, h.orig, h.hook, a);
    var r1 := original[c1 := h.hook];
    ScanSameNulls(original, r1, descs, h.callee);
    var c2 := PatchedCell(r1, descs, h.callee, h.orig, h.hook, if a == c1 then b else a);
    var r2 := r1[c2 := h.hook];
    assert r2[c1] == h.hook == r2[c2] && c1 != c2;
    assert PatchOften(original, descs, h, more + 2) == PatchOften(r1, descs, h, more + 1);
    assert PatchOften(r1, descs, h, more + 1) == PatchOften(r2, descs, h, more);
    HookCellStays(r2, descs, h, more, c1);
    HookCellStays(r2, descs, h, more, c2);
    UnpatchRestoresOneCell(PatchOften(r2, descs, h, more), descs, h, c1, c2);
    assert original[c1] == original[c2] == h.orig;
  }

  lemma UnpatchRestoresOneCell(image: seq<Proc>, descs: seq<Descriptor>, h: Hook, c1: nat, c2: nat)
    requires c1 < |image| && c2 < |image| && c1 != c2 && image[c1] == image[c2] == h.hook
    ensures var r := Replace(image, descs, h.callee, h.hook, h.orig); r[c1] == h.hook || r[c2] == h.hook
  {
  }

  /** A patch whose address is found at all writes one cell that held it. */
  lemma PatchedCell(image: seq<Proc>, descs: seq<Descriptor>, callee: string, current: Proc, replacement: Proc, a: nat)
    returns (c: nat)
    requires a in Scan(image, descs, callee) && image[a] == current
    ensures c < |image| && image[c] == current
    ensures Replace(image, descs, callee, current, replacement) == image[c := replacement]
  {
    var cells := Scan(image, descs, callee);
    var k :| 0 <= k < |cells| && cells[k] == a;
    assert image[cells[k]] == current;
    c := FirstAt(image, cells, current).value;
  }
}
