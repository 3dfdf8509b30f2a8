/** One module's import tables: an image of address cells, the descriptors that
    point into it, and the patch that replaces one imported address. */
module ImportTable {
  import opened Wrappers

  /** A function address; 0 is the null that ends a thunk array. */
  type Proc = nat

  datatype Descriptor = Descriptor(name: string, firstThunk: nat)

  function Lower(c: char): char { if 'A' <= c <= 'Z' then c - 'A' + 'a' else c }

  function LowerAll(s: string): string { seq(|s|, i requires 0 <= i < |s| => Lower(s[i])) }

  /** Module names are compared without regard to case. */
  predicate SameModule(a: string, b: string) { LowerAll(a) == LowerAll(b) }

  /** The same letter, or an ASCII capital and its small letter, 32 above it. */
  predicate SameLetter(c: char, d: char) {
    || c == d
    || (65 <= c as int <= 90 && d as int == c as int + 32)
    || (65 <= d as int <= 90 && c as int == d as int + 32)
  }

  lemma LowerMeetsIff(c: char, d: char)
    ensures Lower(c) == Lower(d) <==> SameLetter(c, d)
  {
  }

  /** Names match exactly when they agree letter by letter, up to ASCII case. */
  lemma SameModuleIff(a: string, b: string)
    ensures SameModule(a, b) <==> |a| == |b| && forall i | 0 <= i < |a| :: SameLetter(a[i], b[i])
  {
    forall i | 0 <= i < |a| && i < |b|
      ensures LowerAll(a)[i] == LowerAll(b)[i] <==> SameLetter(a[i], b[i])
    {
      LowerMeetsIff(a[i], b[i]);
    }
    if SameModule(a, b) {
      assert |LowerAll(a)| == |LowerAll(b)|;
    }
  }

  // ----- The order in which the patch visits cells -----

  /** The cells of the thunk array that starts at `at`, up to its null. */
  function Thunks(image: seq<Proc>, at: nat): (r: seq<nat>)
    ensures forall k | 0 <= k < |r| :: r[k] < |image| && image[r[k]] != 0
    decreases |image| - at
  {
    if at < |image| && image[at] != 0 then [at] + Thunks(image, at + 1) else []
  }

  /** The cells of every descriptor for the callee, descriptor by descriptor. */
  function Scan(image: seq<Proc>, descs: seq<Descriptor>, callee: string): (r: seq<nat>)
    ensures forall k | 0 <= k < |r| :: r[k] < |image| && image[r[k]] != 0
  {
    if descs == [] then []
    else
      (if SameModule(descs[0].name, callee) then Thunks(image, descs[0].firstThunk) else []) +
      Scan(image, descs[1..], callee)
  }

  /** A cell is visited exactly when some descriptor for the callee points at it
      or at a run of non-null cells that reaches it. */
  ghost predicate Reaches(image: seq<Proc>, d: Descriptor, callee: string, a: nat) {
    SameModule(d.name, callee) && d.firstThunk <= a < |image| && forall k | d.firstThunk <= k <= a :: image[k] != 0
  }

  lemma {:induction false} ThunksReach(image: seq<Proc>, at: nat, a: nat)
    ensures a in Thunks(image, at) <==> at <= a < |image| && forall k | at <= k <= a :: image[k] != 0
    decreases |image| - at
  {
    if at < |image| && image[at] != 0 {
      ThunksReach(image, at + 1, a);
    }
  }

  lemma {:induction false} ScanVisits(image: seq<Proc>, descs: seq<Descriptor>, callee: string, a: nat)
    ensures a in Scan(image, descs, callee) <==> exists d :: d in descs && Reaches(image, d, callee, a)
  {
    if descs != [] {
      var d, rest := descs[0], descs[1..];
      ScanVisits(image, rest, callee, a);
      ThunksReach(image, d.firstThunk, a);
      assert a in Scan(image, descs, callee) <==> Reaches(image, d, callee, a) || a in Scan(image, rest, callee);
      if a in Scan(image, rest, callee) {
        var e :| e in rest && Reaches(image, e, callee, a);
        assert e in descs;
      }
      if e :| e in descs && Reaches(image, e, callee, a) {
        assert e == d || e in rest;
      }
    }
  }

  /** The first of the given cells that holds `p`. */
  function FirstAt(image: seq<Proc>, cells: seq<nat>, p: Proc): (r: Option<nat>)
    requires forall k | 0 <= k < |cells| :: cells[k] < |image|
    ensures r.Some? ==> r.value in cells && r.value < |image| && image[r.value] == p
    ensures r.None? ==> forall k | 0 <= k < |cells| :: image[cells[k]] != p
  {
    if cells == [] then None
    else if image[cells[0]] == p then Some(cells[0])
    else FirstAt(image, cells[1..], p)
  }

  lemma {:induction false} FirstAtConcat(image: seq<Proc>, some: seq<nat>, more: seq<nat>, p: Proc)
    requires forall k | 0 <= k < |some| :: some[k] < |image|
    requires forall k | 0 <= k < |more| :: more[k] < |image|
    ensures FirstAt(image, some + more, p) == match FirstAt(image, some, p)
                                              case Some(at) => Some(at)
                                              case None => FirstAt(image, more, p)
  {
    if some == [] {
      assert some + more == more;
    } else {
      assert (some + more)[1..] == some[1..] + more;
      FirstAtConcat(image, some[1..], more, p);
    }
  }

  /** The cell the patch writes, if there is one. */
  function FirstMatch(image: seq<Proc>, descs: seq<Descriptor>, callee: string, current: Proc): (r: Option<nat>)
    ensures r.Some? ==> r.value < |image| && image[r.value] == current != 0
  {
    FirstAt(image, Scan(image, descs, callee), current)
  }

  lemma ThunkStep(image: seq<Proc>, at: nat, current: Proc)
    requires at < |image|
    ensures FirstAt(image, Thunks(image, at), current) ==
            if image[at] == 0 then None
            else if image[at] == current then Some(at)
            else FirstAt(image, Thunks(image, at + 1), current)
  {
  }

  /** The match inside one descriptor's thunk array, if it is for the callee. */
  function Hit(image: seq<Proc>, d: Descriptor, callee: string, current: Proc): (r: Option<nat>)
    ensures r.Some? ==> r.value < |image| && image[r.value] == current != 0
  {
    if SameModule(d.name, callee) then FirstAt(image, Thunks(image, d.firstThunk), current) else None
  }

  /** The first match is in the first descriptor that has one. */
  lemma FirstMatchStep(image: seq<Proc>, descs: seq<Descriptor>, callee: string, current: Proc)
    requires descs != []
    ensures FirstMatch(image, descs, callee, current) ==
            match Hit(image, descs[0], callee, current)
            case Some(at) => Some(at)
            case None => FirstMatch(image, descs[1..], callee, current)
  {
    var rest := Scan(image, descs[1..], callee);
    if SameModule(descs[0].name, callee) {
      FirstAtConcat(image, Thunks(image, descs[0].firstThunk), rest, current);
    } else {
      assert [] + rest == rest;
    }
  }

  /** What `ReplaceIATEntryInOneMod` leaves in the image. */
  function Replace(image: seq<Proc>, descs: seq<Descriptor>, callee: string, current: Proc, replacement: Proc)
    : (r: seq<Proc>)
    ensures |r| == |image|
  {
    match FirstMatch(image, descs, callee, current)
    case None => image
    case Some(at) => image[at := replacement]
  }

  // ----- Null terminators -----

  ghost predicate SameNulls(a: seq<Proc>, b: seq<Proc>) {
    |a| == |b| && forall i | 0 <= i < |a| :: a[i] == 0 <==> b[i] == 0
  }

  lemma {:induction false} ThunksSameNulls(a: seq<Proc>, b: seq<Proc>, at: nat)
    requires SameNulls(a, b)
    ensures Thunks(a, at) == Thunks(b, at)
    decreases |a| - at
  {
    if at < |a| && a[at] != 0 {
      ThunksSameNulls(a, b, at + 1);
    }
  }

  /** Which cells are visited depends only on where the nulls are. */
  lemma {:induction false} ScanSameNulls(a: seq<Proc>, b: seq<Proc>, descs: seq<Descriptor>, callee: string)
    requires SameNulls(a, b)
    ensures Scan(a, descs, callee) == Scan(b, descs, callee)
  {
    if descs != [] {
      ThunksSameNulls(a, b, descs[0].firstThunk);
      ScanSameNulls(a, b, descs[1..], callee);
    }
  }

  /** A patch with a non-null address changes at most one cell, one of those
      visited that held the current address, and moves no null: every thunk
      array keeps its length. */
  lemma ReplaceKeepsStructure(image: seq<Proc>, descs: seq<Descriptor>, callee: string,
                              current: Proc, replacement: Proc)
    requires replacement != 0
    ensures SameNulls(image, Replace(image, descs, callee, current, replacement))
    ensures forall c: string ::
              Scan(Replace(image, descs, callee, current, replacement), descs, c) == Scan(image, descs, c)
    ensures forall i, j | 0 <= i < j < |image| ::
      var r := Replace(image, descs, callee, current, replacement); r[i] == image[i] || r[j] == image[j]
  {
    var r := Replace(image, descs, callee, current, replacement);
    forall c: string ensures Scan(r, descs, c) == Scan(image, descs, c) {
      ScanSameNulls(image, r, descs, c);
    }
  }

  // ----- Patching and unpatching -----

  /** The position of the first visited cell that holds `p`, or the number of
      visited cells. */
  function Position(image: seq<Proc>, cells: seq<nat>, p: Proc): (k: nat)
    requires forall k | 0 <= k < |cells| :: cells[k] < |image|
    ensures k <= |cells|
    ensures k < |cells| ==> image[cells[k]] == p
    ensures forall j | 0 <= j < k :: image[cells[j]] != p
  {
    if cells == [] || image[cells[0]] == p then 0 else Position(image, cells[1..], p) + 1
  }

  lemma {:induction false} FirstAtPosition(image: seq<Proc>, cells: seq<nat>, p: Proc)
    requires forall k | 0 <= k < |cells| :: cells[k] < |image|
    ensures var k := Position(image, cells, p);
      FirstAt(image, cells, p) == if k < |cells| then Some(cells[k]) else None
  {
    if cells != [] && image[cells[0]] != p {
      FirstAtPosition(image, cells[1..], p);
    }
  }

  /** The guard a caller can evaluate on the table as it stands: if `a` is
      imported, then `b` is not null and appears nowhere before it; if it is
      not, `b` does not appear at all. */
  predicate Reversible(image: seq<Proc>, descs: seq<Descriptor>, callee: string, a: Proc, b: Proc) {
    var cells := Scan(image, descs, callee);
    a == b ||
    if Position(image, cells, a) < |cells| then b != 0 && Position(image, cells, a) < Position(image, cells, b)
    else Position(image, cells, b) == |cells|
  }

  /** The patch writes the first visited cell that holds the current address:
      none before it does, and no other cell changes. */
  lemma ReplaceWritesFirst(image: seq<Proc>, descs: seq<Descriptor>, callee: string, current: Proc, replacement: Proc)
    ensures var cells := Scan(image, descs, callee);
      var k := Position(image, cells, current);
      && (forall j | 0 <= j < k :: image[cells[j]] != current)
      && Replace(image, descs, callee, current, replacement) ==
         if k < |cells| then image[cells[k] := replacement] else image
  {
    FirstAtPosition(image, Scan(image, descs, callee), current);
  }

  /** Replacing `a` by `b` and then `b` by `a` restores the image exactly when
      that guard holds. */
  lemma PatchIsUndoneIff(image: seq<Proc>, descs: seq<Descriptor>, callee: string, a: Proc, b: Proc)
    ensures Replace(Replace(image, descs, callee, a, b), descs, callee, b, a) == image
       <==> Reversible(image, descs, callee, a, b)
  {
    var cells := Scan(image, descs, callee);
    var i := Position(image, cells, a);
    ReplaceWritesFirst(image, descs, callee, a, b);
    ReplaceWritesFirst(image, descs, callee, b, a);
    if a == b {
      assert i < |cells| ==> image[cells[i] := b] == image;
    } else if i < |cells| {
      if b != 0 {
        UnpatchFound(image, descs, callee, a, b);
      } else {
        NeverFindsNull(image[cells[i] := b], descs, callee);
      }
    } else if Position(image, cells, b) < |cells| {
      assert image[cells[Position(image, cells, b)]] == b;
    }
  }

  lemma UnpatchFound(image: seq<Proc>, descs: seq<Descriptor>, callee: string, a: Proc, b: Proc)
    requires a != b && b != 0
    requires Position(image, Scan(image, descs, callee), a) < |Scan(image, descs, callee)|
    ensures var cells := Scan(image, descs, callee);
      var i, j := Position(image, cells, a), Position(image, cells, b);
      Replace(image[cells[i] := b], descs, callee, b, a) == image <==> i < j
  {
    hide Replace, Scan, Position;
    var cells := Scan(image, descs, callee);
    var i, j := Position(image, cells, a), Position(image, cells, b);
    var patched := image[cells[i] := b];
    ScanSameNulls(image, patched, descs, callee);
    PatchedPosition(image, cells, i, j, b);
    ReplaceWritesFirst(patched, descs, callee, b, a);
    if i < j {
      assert patched[cells[i] := a] == image;
    } else {
      assert i != j && image[cells[j]] == b;
      assert patched[cells[j] := a][cells[j]] == a;
    }
  }

  /** After `b` is written to the visited cell `i`, the first `b` is at the
      earlier of that cell and the first `b` before. */
  lemma PatchedPosition(image: seq<Proc>, cells: seq<nat>, i: nat, j: nat, b: Proc)
    requires forall k | 0 <= k < |cells| :: cells[k] < |image|
    requires i < |cells| && j == Position(image, cells, b) && image[cells[i]] != b
    requires forall k | 0 <= k < i :: image[cells[k]] != image[cells[i]]
    ensures Position(image[cells[i] := b], cells, b) == if i < j then i else j
  {
  }

  lemma NeverFindsNull(image: seq<Proc>, descs: seq<Descriptor>, callee: string)
    ensures FirstAt(image, Scan(image, descs, callee), 0).None?
  {
  }
}
