/** Skipping trailing spaces: the byte loop as a specification, and the two
    fast forms (aligned words, unaligned chunks of eight) proved against it.

    A buffer is an array together with the address `ptr` of its first byte, so
    that the alignment arithmetic on addresses is the source's own and every
    dereference is checked to lie inside the buffer. */
module TrailingSpace {

  type Byte = b: int | 0 <= b < 256

  const SPACE: Byte := 0x20
  const SPACE_INT_4 := 0x2020_2020
  const SPACE_INT_8 := 0x2020_2020_2020_2020
  const ADDRESS_SPACE := 0x1_0000_0000_0000_0000

  // ----- What the byte loop computes -----

  /** The length that is left when trailing spaces are dropped one at a time. */
  function TrimmedLength(s: seq<Byte>): (n: nat)
    ensures n <= |s|
  {
    if |s| > 0 && s[|s| - 1] == SPACE then TrimmedLength(s[..|s| - 1]) else |s|
  }

  ghost predicate AllSpacesFrom(s: seq<Byte>, n: nat) {
    forall i | n <= i < |s| :: s[i] == 0x20
  }

  /** Everything after `n` is a space, and the byte before `n` is not. */
  ghost predicate EndsAt(s: seq<Byte>, n: nat) {
    n <= |s| && AllSpacesFrom(s, n) && (n > 0 ==> s[n - 1] != 0x20)
  }

  /** The byte loop's result is the one cut point with spaces after it and a
      non-space before it. */
  lemma {:induction false} TrimmedLengthIsTheCut(s: seq<Byte>, n: nat)
    requires n <= |s|
    ensures EndsAt(s, n) <==> n == TrimmedLength(s)
  {
    if |s| > 0 && s[|s| - 1] == SPACE {
      var t := s[..|s| - 1];
      if n <= |t| {
        TrimmedLengthIsTheCut(t, n);
        assert n > 0 ==> s[n - 1] == t[n - 1];
        if EndsAt(t, n) {
          assert forall i | n <= i < |s| :: if i < |t| then s[i] == t[i] else s[i] == SPACE;
        }
        if EndsAt(s, n) {
          assert forall i | n <= i < |t| :: t[i] == s[i];
        }
      }
    } else if n < |s| {
      assert s[|s| - 1] != SPACE;
    }
  }

  /** No shorter prefix can be kept: every cut point with only spaces behind it
      lies at or after the result. */
  lemma ShortestPrefix(s: seq<Byte>, n: nat)
    requires n <= |s|
    ensures AllSpacesFrom(s, n) <==> TrimmedLength(s) <= n
  {
  }

  /** Skipping again, on the length already returned, changes nothing. */
  lemma SkipIsIdempotent(s: seq<Byte>)
    ensures TrimmedLength(s[..TrimmedLength(s)]) == TrimmedLength(s)
  {
    var k := TrimmedLength(s);
    TrimmedLengthIsTheCut(s, k);
    assert EndsAt(s[..k], k);
    TrimmedLengthIsTheCut(s[..k], k);
  }

  // ----- Reading several bytes as one number -----

  function U32(x: nat): nat { x % 0x1_0000_0000 }

  function U64(x: nat): nat { x % 0x1_0000_0000_0000_0000 }

  /** Eight bytes, least significant first, assembled from two 32-bit halves
      with the widths of the C casts and shifts. */
  function Uint8korr(a: seq<Byte>): nat
    requires |a| == 8
  {
    var low := U32(a[0] as nat + U32(a[1] as nat * 0x100) +
                   U32(a[2] as nat * 0x1_0000) + U32(a[3] as nat * 0x100_0000));
    var high := U32(a[4] as nat + U32(a[5] as nat * 0x100) +
                    U32(a[6] as nat * 0x1_0000) + U32(a[7] as nat * 0x100_0000));
    U64(low + U64(high * 0x1_0000_0000))
  }

  function LittleEndian(a: seq<Byte>): nat {
    if a == [] then 0 else a[0] as nat + 256 * LittleEndian(a[1..])
  }

  function BigEndian(a: seq<Byte>): nat {
    if a == [] then 0 else 256 * BigEndian(a[..|a| - 1]) + a[|a| - 1]
  }

  lemma {:induction false} LittleEndianInjective(a: seq<Byte>, b: seq<Byte>)
    requires |a| == |b|
    ensures LittleEndian(a) == LittleEndian(b) <==> a == b
  {
    if a != [] && LittleEndian(a) == LittleEndian(b) {
      assert a[0] == b[0] && LittleEndian(a[1..]) == LittleEndian(b[1..]);
      LittleEndianInjective(a[1..], b[1..]);
      assert a == [a[0]] + a[1..] && b == [b[0]] + b[1..];
    }
  }

  lemma {:induction false} BigEndianInjective(a: seq<Byte>, b: seq<Byte>)
    requires |a| == |b|
    ensures BigEndian(a) == BigEndian(b) <==> a == b
  {
    if a != [] && BigEndian(a) == BigEndian(b) {
      var m := |a| - 1;
      assert a[m] == b[m] && BigEndian(a[..m]) == BigEndian(b[..m]);
      BigEndianInjective(a[..m], b[..m]);
      assert a == a[..m] + [a[m]] && b == b[..m] + [b[m]];
    }
  }

  lemma FourBytes(a: seq<Byte>)
    requires |a| == 4
    ensures LittleEndian(a) == a[0] as nat + a[1] as nat * 0x100 + a[2] as nat * 0x1_0000 + a[3] as nat * 0x100_0000
  {
    var b := a[1..];
    var c := b[1..];
    var d := c[1..];
    assert LittleEndian(d) == d[0];
    assert LittleEndian(c) == c[0] + 256 * d[0] as nat;
  }

  lemma LittleEndianSplit(a: seq<Byte>)
    requires |a| == 8
    ensures LittleEndian(a) == LittleEndian(a[..4]) + 0x1_0000_0000 * LittleEndian(a[4..])
  {
    FourBytes(a[..4]);
    var b := a[1..];
    var c := b[1..];
    var d := c[1..];
    assert d[1..] == a[4..];
    assert LittleEndian(d) == a[3] + 256 * LittleEndian(a[4..]);
    assert LittleEndian(c) == a[2] + 256 * LittleEndian(d);
    assert LittleEndian(b) == a[1] + 256 * LittleEndian(c);
  }

  lemma NoWrap64(x: nat)
    requires x < ADDRESS_SPACE
    ensures U64(x) == x
  {
  }

  /** Four bytes, each shifted into place, fit 32 bits. */
  lemma HalfFits(a: Byte, b: Byte, c: Byte, d: Byte)
    ensures U32(a as nat + U32(b as nat * 0x100) + U32(c as nat * 0x1_0000) + U32(d as nat * 0x100_0000))
         == a as nat + b as nat * 0x100 + c as nat * 0x1_0000 + d as nat * 0x100_0000 < 0x1_0000_0000
  {
  }

  /** None of the 32-bit or 64-bit sums wraps, and distinct chunks decode to
      distinct numbers. */
  lemma Uint8korrDecodes(a: seq<Byte>)
    requires |a| == 8
    ensures Uint8korr(a) == LittleEndian(a)
  {
    FourBytes(a[..4]);
    FourBytes(a[4..]);
    LittleEndianSplit(a);
    HalfFits(a[0], a[1], a[2], a[3]);
    HalfFits(a[4], a[5], a[6], a[7]);
    var low, high := LittleEndian(a[..4]), LittleEndian(a[4..]);
    NoWrap64(high * 0x1_0000_0000);
    NoWrap64(low + high * 0x1_0000_0000);
  }

  function Spaces(n: nat): (s: seq<Byte>)
    ensures |s| == n && forall i | 0 <= i < n :: s[i] == SPACE
  {
    seq(n, _ => SPACE)
  }

  lemma EightSpaces()
    ensures LittleEndian(Spaces(8)) == SPACE_INT_8
  {
    var b := Spaces(8);
    FourBytes(b[..4]);
    FourBytes(b[4..]);
    LittleEndianSplit(b);
  }

  /** The one 64-bit comparison decides whether all eight bytes are spaces. */
  lemma ChunkTest(a: seq<Byte>)
    requires |a| == 8
    ensures Uint8korr(a) == SPACE_INT_8 <==> AllSpacesFrom(a, 0)
  {
    EightSpaces();
    Uint8korrDecodes(a);
    LittleEndianInjective(a, Spaces(8));
  }

  predicate IsWordSize(w: nat) { w == 4 || w == 8 }

  predicate Aligned(at: nat, w: nat)
    requires IsWordSize(w)
  {
    if w == 4 then at % 4 == 0 else at % 8 == 0
  }

  function SpaceInt(w: nat): nat
    requires IsWordSize(w)
  {
    if w == 4 then SPACE_INT_4 else SPACE_INT_8
  }

  lemma BigEndianExtend(a: seq<Byte>, x: Byte)
    ensures BigEndian(a + [x]) == 256 * BigEndian(a) + x
  {
  }

  lemma BigEndianSpaces(w: nat)
    requires IsWordSize(w)
    ensures BigEndian(Spaces(w)) == SpaceInt(w)
  {
    assert BigEndian([SPACE]) == 0x20 by {
      BigEndianExtend([], SPACE);
      assert [] + [SPACE] == [SPACE];
    }
    BigEndianExtend([SPACE], SPACE);
    BigEndianExtend([SPACE] + [SPACE], SPACE);
    BigEndianExtend([SPACE] + [SPACE] + [SPACE], SPACE);
    var four := [SPACE] + [SPACE] + [SPACE] + [SPACE];
    assert BigEndian(four) == SPACE_INT_4;
    if w == 4 {
      assert Spaces(4) == four;
    } else {
      BigEndianExtend(four, SPACE);
      BigEndianExtend(four + [SPACE], SPACE);
      BigEndianExtend(four + [SPACE] + [SPACE], SPACE);
      BigEndianExtend(four + [SPACE] + [SPACE] + [SPACE], SPACE);
      assert Spaces(8) == four + [SPACE] + [SPACE] + [SPACE] + [SPACE];
    }
  }

  /** A word equals SPACE_INT exactly when each of its bytes is a space. */
  lemma WordTest(a: seq<Byte>)
    requires IsWordSize(|a|)
    ensures BigEndian(a) == SpaceInt(|a|) <==> AllSpacesFrom(a, 0)
  {
    BigEndianSpaces(|a|);
    BigEndianInjective(a, Spaces(|a|));
  }

  /** Extending a run of spaces by one word. */
  lemma WordStep(s: seq<Byte>, e: nat, w: nat)
    requires IsWordSize(w) && w <= e <= |s| && AllSpacesFrom(s, e)
    ensures BigEndian(s[e - w..e]) == SpaceInt(w) <==> AllSpacesFrom(s, e - w)
  {
    var word := s[e - w..e];
    WordTest(word);
    assert forall i | e - w <= i < e :: s[i] == word[i - (e - w)];
    assert forall i | 0 <= i < w :: word[i] == s[e - w + i];
  }

  // ----- Alignment -----

  /** `end / SIZEOF_INT * SIZEOF_INT` on a 64-bit unsigned address. */
  function EndWords(end: nat, w: nat): nat
    requires w > 0
  {
    U64(U64(end) / w * w)
  }

  /** `(ptr + SIZEOF_INT - 1) / SIZEOF_INT * SIZEOF_INT`, likewise. */
  function StartWords(ptr: nat, w: nat): nat
    requires w > 0
  {
    U64(U64(U64(ptr) + w - 1) / w * w)
  }

  /** For a buffer longer than 20 bytes the word zone is aligned at both ends,
      lies inside the buffer and is never empty. */
  lemma WordZone(ptr: nat, len: nat, w: nat)
    requires (w == 4 || w == 8) && len > 20 && ptr + len < 0x1_0000_0000_0000_0000
    ensures ptr <= StartWords(ptr, w) < ptr + w
    ensures StartWords(ptr, w) < EndWords(ptr + len, w)
    ensures ptr + len - w < EndWords(ptr + len, w) <= ptr + len
    ensures Aligned(StartWords(ptr, w), w) && Aligned(EndWords(ptr + len, w), w)
  {
    var end := ptr + len;
    RoundDown(end, w);
    RoundDown(ptr + w - 1, w);
    NoWrap64(end);
    NoWrap64(ptr);
    NoWrap64(ptr + w - 1);
    NoWrap64(end / w * w);
    NoWrap64((ptr + w - 1) / w * w);
  }

  lemma RoundDown(x: nat, w: nat)
    requires IsWordSize(w)
    ensures x - w < x / w * w <= x
    ensures Aligned(x / w * w, w)
  {
  }

  lemma AlignedStep4(low: nat, high: nat)
    requires low < high && low % 4 == 0 && high % 4 == 0
    ensures low + 4 <= high && (high - 4) % 4 == 0
  {
  }

  lemma AlignedStep8(low: nat, high: nat)
    requires low < high && low % 8 == 0 && high % 8 == 0
    ensures low + 8 <= high && (high - 8) % 8 == 0
  {
  }

  /** Between two distinct aligned addresses there is room for a whole word. */
  lemma AlignedStep(low: nat, high: nat, w: nat)
    requires IsWordSize(w) && low < high && Aligned(low, w) && Aligned(high, w)
    ensures low + w <= high && Aligned(high - w, w)
  {
    if w == 4 {
      AlignedStep4(low, high);
    } else {
      AlignedStep8(low, high);
    }
  }

  // ----- The two versions -----

  /** The byte loop both versions contain: step `from` back over spaces, down to
      `low` at most. */
  method SkipBytes(buf: array<Byte>, ptr: nat, low: nat, from: nat) returns (end: nat)
    requires ptr <= low <= from <= ptr + buf.Length
    requires AllSpacesFrom(buf[..], from - ptr)
    ensures low <= end <= from
    ensures AllSpacesFrom(buf[..], end - ptr)
    ensures end > low ==> buf[end - 1 - ptr] != SPACE
  {
    end := from;
    while end > low && buf[end - 1 - ptr] == SPACE
      invariant low <= end <= from
      invariant AllSpacesFrom(buf[..], end - ptr)
    {
      end := end - 1;
    }
  }

  /** The version for machines where unaligned loads are cheap. */
  method SkipTrailingSpaceChunks(buf: array<Byte>, ptr: nat) returns (end: nat)
    ensures end == ptr + TrimmedLength(buf[..])
  {
    end := ptr + buf.Length;
    while end - ptr >= 8
      invariant ptr <= end <= ptr + buf.Length
      invariant AllSpacesFrom(buf[..], end - ptr)
    {
      var chunk := buf[end - 8 - ptr..end - ptr];
      ChunkTest(chunk);
      if Uint8korr(chunk) != SPACE_INT_8 {
        break;
      }
      assert forall i | end - 8 - ptr <= i < end - ptr :: buf[i] == chunk[i - (end - 8 - ptr)];
      end := end - 8;
    }
    end := SkipBytes(buf, ptr, ptr, end);
    TrimmedLengthIsTheCut(buf[..], end - ptr);
  }

  /** One aligned load of `w` bytes, most significant first. */
  function LoadWord(buf: array<Byte>, ptr: nat, at: nat, w: nat): nat
    requires ptr <= at && at + w <= ptr + buf.Length
    requires (w == 4 && at % 4 == 0) || (w == 8 && at % 8 == 0)
    reads buf
  {
    BigEndian(buf[..][at - ptr..at - ptr + w])
  }

  /** The word loop: step `from` back over whole words of spaces, down to the
      aligned address `startWords`. */
  method SkipWords(buf: array<Byte>, ptr: nat, w: nat, startWords: nat, from: nat) returns (end: nat)
    requires IsWordSize(w) && Aligned(startWords, w) && Aligned(from, w)
    requires ptr <= startWords <= from <= ptr + buf.Length
    requires AllSpacesFrom(buf[..], from - ptr)
    ensures startWords <= end <= from && Aligned(end, w)
    ensures AllSpacesFrom(buf[..], end - ptr)
    ensures end > startWords ==> startWords + w <= end && !AllSpacesFrom(buf[..], end - ptr - w)
  {
    end := from;
    while end > startWords
      invariant startWords <= end <= from && Aligned(end, w)
      invariant AllSpacesFrom(buf[..], end - ptr)
    {
      AlignedStep(startWords, end, w);
      WordStep(buf[..], end - ptr, w);
      if LoadWord(buf, ptr, end - w, w) != SpaceInt(w) {
        return;
      }
      end := end - w;
    }
  }

  /** The version for machines that trap on unaligned loads; `w` is
      SIZEOF_INT. */
  method SkipTrailingSpaceWords(buf: array<Byte>, ptr: nat, w: nat) returns (end: nat)
    requires w == 4 || w == 8
    requires ptr + buf.Length < 0x1_0000_0000_0000_0000
    ensures end == ptr + TrimmedLength(buf[..])
  {
    var len := buf.Length;
    end := ptr + len;
    if len > 20 {
      var endWords := EndWords(end, w);
      var startWords := StartWords(ptr, w);
      WordZone(ptr, len, w);
      assert endWords > ptr;
      end := SkipBytes(buf, ptr, endWords, end);
      if buf[end - 1 - ptr] == SPACE && startWords < endWords {
        end := SkipWords(buf, ptr, w, startWords, end);
      }
    }
    end := SkipBytes(buf, ptr, ptr, end);
    TrimmedLengthIsTheCut(buf[..], end - ptr);
  }
}
