/**
 The TCM heap's free list and blocks, as values: what a granule belongs to, which chunks are free,
 and what allocating and freeing do to them.

 The heap is an array of MemChunk-sized granules of 8 bytes. A MemChunk pointer is an
 index into it (NULL is -1, below every address), and block sizes are in bytes.
 */
module TcmFreeList {
  import opened Bits

  datatype MemChunk = MemChunk(next: int, size: int)

  const GRANULE := 8
  const HEAP_SIZE := 40 * 1024
  const GRANULES := HEAP_SIZE / GRANULE
  const NULL: int := -1

  /// 32-bit sizes

  predicate IsInt32(x: int) {
    -0x8000_0000 <= x < 0x8000_0000
  }

  function ToInt32(x: nat): int
    requires x < 0x1_0000_0000
  {
    if x < 0x8000_0000 then x else x - 0x1_0000_0000
  }

  function WrapInt32(x: int): int {
    ToInt32(x % 0x1_0000_0000)
  }

  // ROUND_UP2(size, 8) in unsigned arithmetic and back, and 8 for 0.
  function RoundUp(size: int): int
    requires IsInt32(size)
  {
    AndClear3((size + 7) % 0x1_0000_0000);
    var r := ToInt32(And((size + 7) % 0x1_0000_0000, 0xFFFF_FFF8));
    if r == 0 then GRANULE else r
  }

  // The requests that round up to the next multiple of 8, with 8 bytes at least.
  predicate Servable(size: int) {
    -8 < size <= 0x7FFF_FFF8
  }

  lemma RoundUpMeaning(size: int)
    requires IsInt32(size)
    ensures Servable(size) <==> RoundUp(size) > 0
    ensures RoundUp(size) % 8 == 0 && RoundUp(size) != 0
    ensures Servable(size) ==> RoundUp(size) % 8 == 0 && RoundUp(size) >= 8
    ensures Servable(size) && size > 0 ==> size <= RoundUp(size) < size + 8
    ensures Servable(size) && size <= 0 ==> RoundUp(size) == 8
  {
    hide RoundUp;
    var x := (size + 7) % 0x1_0000_0000;
    assert x == if size >= -7 then size + 7 else size + 7 + 0x1_0000_0000;
    RoundUpOf(size, x);
  }

  lemma RoundUpOf(size: int, x: int)
    requires IsInt32(size) && x == (size + 7) % 0x1_0000_0000
    ensures RoundUp(size) == if x < 8 then 8 else ToInt32(x - x % 8)
  {
    hide And;
    AndClear3(x);
  }

  function GranulesFor(size: int): (n: nat)
    requires IsInt32(size) && Servable(size)
    ensures n > 0 && GRANULE * n == RoundUp(size)
  {
    RoundUpMeaning(size);
    RoundUp(size) / GRANULE
  }

  /// Free lists and owners

  datatype Chunk = Chunk(at: nat, len: nat) {
    function End(): nat {
      at + len
    }
  }

  const FREE: int := -1

  // owner[g] is the block that granule g belongs to, by its first granule, or FREE.
  type Owners = seq<int>

  predicate InFree(free: seq<Chunk>, g: int) {
    exists i :: 0 <= i < |free| && free[i].at <= g < free[i].End()
  }

  // The free list is the address-ordered list of the maximal runs of free granules.
  ghost predicate Runs(free: seq<Chunk>, owner: Owners) {
    && (forall i | 0 <= i < |free| :: free[i].len > 0 && free[i].End() <= |owner|)
    && (forall i, j | 0 <= i < j < |free| :: free[i].End() < free[j].at)
    && (forall g | 0 <= g < |owner| :: owner[g] == FREE <==> InFree(free, g))
  }

  // Every live block is contiguous, and every granule that is not free belongs to one.
  ghost predicate Blocks(live: map<int, nat>, owner: Owners) {
    && (forall a | a in live :: a >= 0 && live[a] > 0 && a + live[a] <= |owner|)
    && (forall a, g | a in live && a <= g < a + live[a] :: owner[g] == a)
    && (forall g | 0 <= g < |owner| && owner[g] != FREE ::
          owner[g] in live && owner[g] <= g < owner[g] + live[owner[g]])
  }

  ghost predicate FreeRun(owner: Owners, a: int, n: nat) {
    0 <= a && a + n <= |owner| && forall g | a <= g < a + n :: owner[g] == FREE
  }

  function Paint(owner: Owners, a: nat, n: nat, who: int): (r: Owners)
    requires a + n <= |owner|
    ensures |r| == |owner|
    ensures forall g | 0 <= g < |owner| :: r[g] == if a <= g < a + n then who else owner[g]
  {
    owner[..a] + seq(n, _ => who) + owner[a + n..]
  }

  lemma ChunkEndNotFree(free: seq<Chunk>, i: nat)
    requires forall i, j | 0 <= i < j < |free| :: free[i].End() < free[j].at
    requires i < |free|
    ensures !InFree(free, free[i].End())
  {
    var e := free[i].End();
    forall j | 0 <= j < |free|
      ensures !(free[j].at <= e < free[j].End())
    {
      assert j < i ==> free[j].End() < free[i].at;
      assert i < j ==> free[i].End() < free[j].at;
    }
  }

  // A contiguous free run lies within one chunk.
  lemma RunInChunk(free: seq<Chunk>, owner: Owners, a: int, n: nat) returns (i: nat)
    requires Runs(free, owner) && FreeRun(owner, a, n) && n > 0
    ensures i < |free| && free[i].at <= a && a + n <= free[i].End()
  {
    assert owner[a] == FREE;
    i :| 0 <= i < |free| && free[i].at <= a < free[i].End();
    ChunkEndNotFree(free, i);
    assert free[i].End() < |owner| ==> owner[free[i].End()] != FREE;
  }

  lemma ChunkIsFreeRun(free: seq<Chunk>, owner: Owners, i: nat)
    requires Runs(free, owner) && i < |free|
    ensures FreeRun(owner, free[i].at, free[i].len)
  {
    forall g | free[i].at <= g < free[i].End()
      ensures owner[g] == FREE
    {
      assert InFree(free, g);
    }
  }

  // The part of a free list from lo on, as the runs of the granules from lo on.
  ghost predicate RunsFrom(free: seq<Chunk>, owner: Owners, lo: int) {
    && (forall i | 0 <= i < |free| :: lo <= free[i].at && free[i].len > 0 && free[i].End() <= |owner|)
    && (forall i, j | 0 <= i < j < |free| :: free[i].End() < free[j].at)
    && (forall g | lo <= g < |owner| && 0 <= g :: owner[g] == FREE <==> InFree(free, g))
  }

  // There is only one such list: it is always fully coalesced.
  lemma {:induction false} RunsFromUnique(f: seq<Chunk>, f': seq<Chunk>, owner: Owners, lo: int)
    requires RunsFrom(f, owner, lo) && RunsFrom(f', owner, lo)
    ensures f == f'
    decreases |f|
  {
    if f != [] {
      assert InFree(f, f[0].at);
      assert InFree(f', f[0].at);
    }
    if f' != [] {
      assert InFree(f', f'[0].at);
      assert InFree(f, f'[0].at);
    }
    if f != [] && f' != [] {
      FirstNotAfter(f, f', owner, lo);
      FirstNotAfter(f', f, owner, lo);
      FirstNotLonger(f, f', owner, lo);
      FirstNotLonger(f', f, owner, lo);
      RunsTail(f, owner, lo);
      RunsTail(f', owner, lo);
      RunsFromUnique(f[1..], f'[1..], owner, f[0].End());
      assert f == [f[0]] + f[1..] && f' == [f'[0]] + f'[1..];
    }
  }

  lemma FirstNotAfter(f: seq<Chunk>, f': seq<Chunk>, owner: Owners, lo: int)
    requires RunsFrom(f, owner, lo) && RunsFrom(f', owner, lo) && f != [] && f' != []
    ensures f[0].at <= f'[0].at
  {
    assert InFree(f', f'[0].at);
    var i :| 0 <= i < |f| && f[i].at <= f'[0].at < f[i].End();
    assert i == 0 || f[0].End() < f[i].at;
  }

  lemma FirstNotLonger(f: seq<Chunk>, f': seq<Chunk>, owner: Owners, lo: int)
    requires RunsFrom(f, owner, lo) && RunsFrom(f', owner, lo) && f != [] && f' != [] && f[0].at == f'[0].at
    ensures f[0].len <= f'[0].len
  {
    ChunkEndNotFree(f', 0);
  }

  lemma RunsTail(f: seq<Chunk>, owner: Owners, lo: int)
    requires RunsFrom(f, owner, lo) && f != []
    ensures RunsFrom(f[1..], owner, f[0].End())
  {
    var t, e := f[1..], f[0].End();
    forall g | e <= g < |owner|
      ensures owner[g] == FREE <==> InFree(t, g)
    {
      if InFree(t, g) {
        var i :| 0 <= i < |t| && t[i].at <= g < t[i].End();
        assert f[i + 1].at <= g < f[i + 1].End();
        assert InFree(f, g);
      }
      if owner[g] == FREE {
        var i :| 0 <= i < |f| && f[i].at <= g < f[i].End();
        assert i > 0;
        assert t[i - 1].at <= g < t[i - 1].End();
      }
    }
  }

  lemma RunsUnique(f: seq<Chunk>, f': seq<Chunk>, owner: Owners)
    requires Runs(f, owner) && Runs(f', owner)
    ensures f == f'
  {
    RunsFromUnique(f, f', owner, 0);
  }

  // Without live blocks there is the single initial chunk, whatever happened before.
  lemma AllFreeIsOneChunk(free: seq<Chunk>, live: map<int, nat>, owner: Owners)
    requires Runs(free, owner) && Blocks(live, owner) && live == map[] && |owner| > 0
    ensures free == [Chunk(0, |owner|)]
  {
    var whole := [Chunk(0, |owner|)];
    forall g | 0 <= g < |owner|
      ensures owner[g] == FREE && InFree(whole, g)
    {
      assert whole[0].at <= g < whole[0].End();
    }
    RunsUnique(free, whole, owner);
  }

  /// What allocating and freeing do to the free list

  // A list that covers the free granules in order, where neighbours may still touch.
  ghost predicate Covers(free: seq<Chunk>, owner: Owners) {
    && (forall i | 0 <= i < |free| :: free[i].len > 0 && free[i].End() <= |owner|)
    && (forall i, j | 0 <= i < j < |free| :: free[i].End() <= free[j].at)
    && (forall g | 0 <= g < |owner| :: owner[g] == FREE <==> InFree(free, g))
  }

  ghost predicate Apart(free: seq<Chunk>) {
    forall i, j | 0 <= i < j < |free| :: free[i].End() < free[j].at
  }

  lemma InFreeAt(free: seq<Chunk>, i: nat, g: int)
    requires i < |free| && free[i].at <= g < free[i].End()
    ensures InFree(free, g)
  {}

  // Replacing one chunk by a list of others changes membership only there.
  lemma InFreeReplaced(free: seq<Chunk>, i: nat, k: nat, new_: seq<Chunk>, g: int)
    requires i + k <= |free|
    ensures InFree(free[..i] + new_ + free[i + k..], g)
       <==> InFree(free[..i], g) || InFree(new_, g) || InFree(free[i + k..], g)
    ensures InFree(free, g) <==> InFree(free[..i], g) || InFree(free[i..i + k], g) || InFree(free[i + k..], g)
  {
    InFreeConcat(free[..i] + new_, free[i + k..], g);
    InFreeConcat(free[..i], new_, g);
    assert free == free[..i] + free[i..i + k] + free[i + k..];
    InFreeConcat(free[..i] + free[i..i + k], free[i + k..], g);
    InFreeConcat(free[..i], free[i..i + k], g);
  }

  lemma InFreeConcat(a: seq<Chunk>, b: seq<Chunk>, g: int)
    ensures InFree(a + b, g) <==> InFree(a, g) || InFree(b, g)
  {
    if InFree(a, g) {
      var i :| 0 <= i < |a| && a[i].at <= g < a[i].End();
      InFreeAt(a + b, i, g);
    }
    if InFree(b, g) {
      var i :| 0 <= i < |b| && b[i].at <= g < b[i].End();
      InFreeAt(a + b, |a| + i, g);
    }
    if InFree(a + b, g) {
      var i :| 0 <= i < |a + b| && (a + b)[i].at <= g < (a + b)[i].End();
      if i < |a| {
        InFreeAt(a, i, g);
      } else {
        InFreeAt(b, i - |a|, g);
      }
    }
  }

  lemma InFreeOne(c: Chunk, g: int)
    ensures InFree([c], g) <==> c.at <= g < c.End()
  {
    if c.at <= g < c.End() {
      InFreeAt([c], 0, g);
    }
  }

  lemma OutsideOthers(free: seq<Chunk>, i: nat, g: int)
    requires i < |free| && free[i].at <= g < free[i].End()
    requires forall i, j | 0 <= i < j < |free| :: free[i].End() <= free[j].at
    ensures !InFree(free[..i], g) && !InFree(free[i + 1..], g)
  {}

  lemma TakeWhole(free: seq<Chunk>, owner: Owners, i: nat)
    requires Runs(free, owner) && i < |free|
    ensures Runs(free[..i] + free[i + 1..], Paint(owner, free[i].at, free[i].len, free[i].at))
  {
    var f', o' := free[..i] + free[i + 1..], Paint(owner, free[i].at, free[i].len, free[i].at);
    forall g | 0 <= g < |owner|
      ensures o'[g] == FREE <==> InFree(f', g)
    {
      InFreeConcat(free[..i], free[i + 1..], g);
      InFreeReplaced(free, i, 1, [], g);
      assert free[i..i + 1] == [free[i]];
      InFreeOne(free[i], g);
      if free[i].at <= g < free[i].End() {
        OutsideOthers(free, i, g);
      }
    }
  }

  lemma TakeTail(free: seq<Chunk>, owner: Owners, i: nat, n: nat)
    requires Runs(free, owner) && i < |free| && 0 < n < free[i].len
    ensures var p := free[i].End() - n;
            Runs(free[i := Chunk(free[i].at, free[i].len - n)], Paint(owner, p, n, p))
  {
    var p, c := free[i].End() - n, Chunk(free[i].at, free[i].len - n);
    var f', o' := free[i := c], Paint(owner, p, n, p);
    assert f' == free[..i] + [c] + free[i + 1..];
    forall g | 0 <= g < |owner|
      ensures o'[g] == FREE <==> InFree(f', g)
    {
      InFreeReplaced(free, i, 1, [c], g);
      assert free[i..i + 1] == [free[i]];
      InFreeOne(free[i], g);
      InFreeOne(c, g);
      if free[i].at <= g < free[i].End() {
        OutsideOthers(free, i, g);
      }
    }
  }

  // Where the chunk of a freed block goes: behind the i chunks below it.
  ghost predicate InsertsAt(free: seq<Chunk>, i: nat, p: nat, n: nat) {
    && i <= |free|
    && (forall k | 0 <= k < i :: free[k].End() <= p)
    && (forall k | i <= k < |free| :: p + n <= free[k].at)
  }

  lemma BlockInsertsAt(free: seq<Chunk>, owner: Owners, i: nat, p: nat, n: nat)
    requires Runs(free, owner) && n > 0 && p + n <= |owner| && forall g | p <= g < p + n :: owner[g] == p
    requires i <= |free| && (i > 0 ==> free[i - 1].at < p) && (i < |free| ==> p <= free[i].at)
    ensures InsertsAt(free, i, p, n)
  {
    forall k | 0 <= k < |free|
      ensures free[k].End() <= p || p + n <= free[k].at
    {
      InFreeAt(free, k, free[k].at);
      Outside(free, k, p);
    }
  }

  lemma Outside(free: seq<Chunk>, k: nat, p: nat)
    requires k < |free| && !InFree(free, p)
    ensures p < free[k].at || free[k].End() <= p
  {}

  lemma InsertCovers(free: seq<Chunk>, owner: Owners, i: nat, p: nat, n: nat)
    requires Covers(free, owner) && InsertsAt(free, i, p, n) && n > 0 && p + n <= |owner|
    ensures Covers(free[..i] + [Chunk(p, n)] + free[i..], Paint(owner, p, n, FREE))
  {
    var f', o' := free[..i] + [Chunk(p, n)] + free[i..], Paint(owner, p, n, FREE);
    forall g | 0 <= g < |owner|
      ensures o'[g] == FREE <==> InFree(f', g)
    {
      InFreeReplaced(free, i, 0, [Chunk(p, n)], g);
      InFreeOne(Chunk(p, n), g);
      assert free[i..i] == [];
    }
  }

  lemma MergeCovers(free: seq<Chunk>, owner: Owners, i: nat)
    requires Covers(free, owner) && i + 1 < |free| && free[i].End() == free[i + 1].at
    ensures Covers(free[..i] + [Chunk(free[i].at, free[i].len + free[i + 1].len)] + free[i + 2..], owner)
  {
    var c := Chunk(free[i].at, free[i].len + free[i + 1].len);
    forall g | 0 <= g < |owner|
      ensures InFree(free, g) <==> InFree(free[..i] + [c] + free[i + 2..], g)
    {
      InFreeReplaced(free, i, 2, [c], g);
      assert free[i..i + 2] == [free[i]] + [free[i + 1]];
      InFreeConcat([free[i]], [free[i + 1]], g);
      InFreeOne(free[i], g);
      InFreeOne(free[i + 1], g);
      InFreeOne(c, g);
    }
  }

  // The list after the block p of n granules is freed: joined with the chunk below if they
  // touch, and with the chunk above if they touch.
  function Give(free: seq<Chunk>, i: nat, p: nat, n: nat): seq<Chunk>
    requires i <= |free|
  {
    var f1 := GiveBelow(free, i, p, n);
    var k := if i > 0 && free[i - 1].End() == p then i - 1 else i;
    JoinNext(f1, k)
  }

  function GiveBelow(free: seq<Chunk>, i: nat, p: nat, n: nat): (r: seq<Chunk>)
    requires i <= |free|
    ensures |r| > if i > 0 && free[i - 1].End() == p then i - 1 else i
  {
    if i > 0 && free[i - 1].End() == p then free[i - 1 := Chunk(free[i - 1].at, free[i - 1].len + n)]
    else free[..i] + [Chunk(p, n)] + free[i..]
  }

  function JoinNext(free: seq<Chunk>, k: nat): seq<Chunk>
    requires k < |free|
  {
    if k + 1 < |free| && free[k].End() == free[k + 1].at then
      free[..k] + [Chunk(free[k].at, free[k].len + free[k + 1].len)] + free[k + 2..]
    else free
  }

  lemma GiveRuns(free: seq<Chunk>, owner: Owners, i: nat, p: nat, n: nat)
    requires Runs(free, owner) && InsertsAt(free, i, p, n) && n > 0 && p + n <= |owner|
    ensures Runs(Give(free, i, p, n), Paint(owner, p, n, FREE))
  {
    GiveCovers(free, owner, i, p, n);
    GiveApart(free, i, p, n);
  }

  lemma GiveCovers(free: seq<Chunk>, owner: Owners, i: nat, p: nat, n: nat)
    requires Covers(free, owner) && InsertsAt(free, i, p, n) && n > 0 && p + n <= |owner|
    ensures Covers(Give(free, i, p, n), Paint(owner, p, n, FREE))
  {
    GiveBelowCovers(free, owner, i, p, n);
    var k := if i > 0 && free[i - 1].End() == p then i - 1 else i;
    assert k < |GiveBelow(free, i, p, n)|;
    hide Covers, InsertsAt, Paint, GiveBelow, JoinNext;
    JoinCovers(GiveBelow(free, i, p, n), Paint(owner, p, n, FREE), k);
  }

  lemma JoinCovers(free: seq<Chunk>, owner: Owners, k: nat)
    requires Covers(free, owner) && k < |free|
    ensures Covers(JoinNext(free, k), owner)
  {
    if k + 1 < |free| && free[k].End() == free[k + 1].at {
      MergeCovers(free, owner, k);
    }
  }

  lemma GiveBelowCovers(free: seq<Chunk>, owner: Owners, i: nat, p: nat, n: nat)
    requires Covers(free, owner) && InsertsAt(free, i, p, n) && n > 0 && p + n <= |owner|
    ensures Covers(GiveBelow(free, i, p, n), Paint(owner, p, n, FREE))
  {
    InsertCovers(free, owner, i, p, n);
    if i > 0 && free[i - 1].End() == p {
      MergeInserted(free, Paint(owner, p, n, FREE), i, p, n);
    }
  }

  lemma MergeInserted(free: seq<Chunk>, owner: Owners, i: nat, p: nat, n: nat)
    requires 0 < i <= |free| && free[i - 1].End() == p
    requires Covers(free[..i] + [Chunk(p, n)] + free[i..], owner)
    ensures Covers(free[i - 1 := Chunk(free[i - 1].at, free[i - 1].len + n)], owner)
  {
    hide Covers;
    MergedAlike(free, i, p, n);
    MergeCovers(free[..i] + [Chunk(p, n)] + free[i..], owner, i - 1);
  }

  lemma MergedAlike(free: seq<Chunk>, i: nat, p: nat, n: nat)
    requires 0 < i <= |free|
    ensures var f0 := free[..i] + [Chunk(p, n)] + free[i..];
            free[i - 1 := Chunk(free[i - 1].at, free[i - 1].len + n)]
            == f0[..i - 1] + [Chunk(f0[i - 1].at, f0[i - 1].len + f0[i].len)] + f0[i + 1..]
  {}

  // All neighbours but the k-th and the next are apart.
  ghost predicate ApartBut(free: seq<Chunk>, k: nat) {
    && (forall c | c in free :: c.len > 0)
    && (forall a, b | 0 <= a < b < |free| && !(a == k && b == k + 1) :: free[a].End() < free[b].at)
    && (k + 1 < |free| ==> free[k].End() <= free[k + 1].at)
  }

  lemma GiveApart(free: seq<Chunk>, i: nat, p: nat, n: nat)
    requires Apart(free) && InsertsAt(free, i, p, n) && n > 0 && forall k | 0 <= k < |free| :: free[k].len > 0
    ensures Apart(Give(free, i, p, n))
  {
    if i > 0 && free[i - 1].End() == p {
      GrownApart(free, i, p, n);
      JoinApart(GiveBelow(free, i, p, n), i - 1);
    } else {
      InsertedApart(free, i, p, n);
      JoinApart(GiveBelow(free, i, p, n), i);
    }
  }

  lemma GrownApart(free: seq<Chunk>, i: nat, p: nat, n: nat)
    requires Apart(free) && InsertsAt(free, i, p, n) && n > 0 && forall k | 0 <= k < |free| :: free[k].len > 0
    requires i > 0 && free[i - 1].End() == p
    ensures ApartBut(free[i - 1 := Chunk(free[i - 1].at, free[i - 1].len + n)], i - 1)
  {
    assert i < |free| ==> free[i].len > 0;
  }

  lemma InsertedApart(free: seq<Chunk>, i: nat, p: nat, n: nat)
    requires Apart(free) && InsertsAt(free, i, p, n) && n > 0 && forall k | 0 <= k < |free| :: free[k].len > 0
    requires !(i > 0 && free[i - 1].End() == p)
    ensures ApartBut(free[..i] + [Chunk(p, n)] + free[i..], i)
  {
    assert i < |free| ==> free[i].len > 0;
    assert i > 0 ==> free[i - 1].End() < p;
  }

  lemma JoinedAt(free: seq<Chunk>, k: nat, a: nat)
    requires k + 1 < |free| && free[k].End() == free[k + 1].at && a + 1 < |free|
    ensures |JoinNext(free, k)| == |free| - 1
    ensures JoinNext(free, k)[a].at == free[if a <= k then a else a + 1].at
    ensures JoinNext(free, k)[a].End() == free[if a < k then a else a + 1].End()
  {}

  lemma JoinApart(free: seq<Chunk>, k: nat)
    requires k < |free| && ApartBut(free, k)
    ensures Apart(JoinNext(free, k))
  {
    if k + 1 < |free| && free[k].End() == free[k + 1].at {
      var f := JoinNext(free, k);
      JoinedAt(free, k, 0);
      hide JoinNext;
      forall a, b | 0 <= a < b < |f|
        ensures f[a].End() < f[b].at
      {
        JoinedAt(free, k, a);
        JoinedAt(free, k, b);
      }
    }
  }

  lemma ClaimBlocks(live: map<int, nat>, owner: Owners, p: nat, n: nat)
    requires Blocks(live, owner) && FreeRun(owner, p, n) && n > 0
    ensures Blocks(live[p := n], Paint(owner, p, n, p)) && p !in live
  {
    assert forall a | a in live :: owner[a] == a;
    forall a, g | a in live && a <= g < a + live[a]
      ensures Paint(owner, p, n, p)[g] == a
    {
      assert owner[g] == a;
    }
  }

  lemma ReleaseBlocks(live: map<int, nat>, owner: Owners, p: nat)
    requires Blocks(live, owner) && p in live
    ensures Blocks(live - {p}, Paint(owner, p, live[p], FREE))
  {
    forall a, g | a in live - {p} && a <= g < a + live[a]
      ensures Paint(owner, p, live[p], FREE)[g] == a
    {
      assert owner[g] == a;
    }
  }

  /// Conservation

  function TotalFree(free: seq<Chunk>): nat {
    if free == [] then 0 else free[0].len + TotalFree(free[1..])
  }

  // Free granules at or above lo.
  function CountFree(owner: Owners, lo: nat): nat
    requires lo <= |owner|
    decreases |owner| - lo
  {
    if lo == |owner| then 0 else (if owner[lo] == FREE then 1 else 0) + CountFree(owner, lo + 1)
  }

  // The granules of the live blocks that start at or above lo.
  function TotalLive(live: map<int, nat>, n: nat, lo: nat): nat
    requires lo <= n
    decreases n - lo
  {
    if lo == n then 0 else (if lo in live then live[lo] else 0) + TotalLive(live, n, lo + 1)
  }

  lemma {:induction false} NoStarts(live: map<int, nat>, n: nat, lo: nat, hi: nat)
    requires lo <= hi <= n && forall g | lo <= g < hi :: g !in live
    ensures TotalLive(live, n, lo) == TotalLive(live, n, hi)
    decreases hi - lo
  {
    if lo < hi {
      NoStarts(live, n, lo + 1, hi);
    }
  }

  lemma {:induction false} SameOwner(owner: Owners, lo: nat, hi: nat, free: bool)
    requires lo <= hi <= |owner| && forall g | lo <= g < hi :: (owner[g] == FREE) == free
    ensures CountFree(owner, lo) == CountFree(owner, hi) + if free then hi - lo else 0
    decreases hi - lo
  {
    if lo < hi {
      SameOwner(owner, lo + 1, hi, free);
    }
  }

  // Free and live granules add up to the heap, counted from any block boundary.
  lemma {:induction false} Conserved(live: map<int, nat>, owner: Owners, lo: nat)
    requires Blocks(live, owner) && lo <= |owner|
    requires forall a | a in live && a < lo :: a + live[a] <= lo
    ensures CountFree(owner, lo) + TotalLive(live, |owner|, lo) == |owner| - lo
    decreases |owner| - lo
  {
    if lo < |owner| {
      assert lo in live ==> owner[lo] == lo;
      if owner[lo] == FREE {
        Conserved(live, owner, lo + 1);
      } else {
        assert owner[lo] == lo;
        var hi := lo + live[lo];
        forall g | lo < g < hi
          ensures g !in live
        {
          assert owner[g] == lo;
        }
        NoStarts(live, |owner|, lo + 1, hi);
        SameOwner(owner, lo, hi, false);
        forall a | a in live && a < hi
          ensures a + live[a] <= hi
        {
          assert a <= lo;
        }
        Conserved(live, owner, hi);
      }
    }
  }

  lemma {:induction false} TotalFreeCounts(free: seq<Chunk>, owner: Owners, lo: nat)
    requires RunsFrom(free, owner, lo) && lo <= |owner|
    ensures TotalFree(free) == CountFree(owner, lo)
    decreases |free|
  {
    if free == [] {
      SameOwner(owner, lo, |owner|, false);
    } else {
      var c := free[0];
      forall g | lo <= g < c.at
        ensures owner[g] != FREE
      {
        assert !InFree(free, g);
      }
      forall g | c.at <= g < c.End()
        ensures owner[g] == FREE
      {
        InFreeAt(free, 0, g);
      }
      SameOwner(owner, lo, c.at, false);
      SameOwner(owner, c.at, c.End(), true);
      RunsTail(free, owner, lo);
      TotalFreeCounts(free[1..], owner, c.End());
    }
  }

  /// The list in the heap's memory

  function NextOf(free: seq<Chunk>, i: nat): int {
    if i + 1 < |free| then free[i + 1].at else NULL
  }

  function HeadOf(free: seq<Chunk>): int {
    if free == [] then NULL else free[0].at
  }

  ghost predicate Linked(cells: seq<MemChunk>, head: int, free: seq<Chunk>) {
    head == HeadOf(free) && forall i | 0 <= i < |free| :: LinkAt(cells, free, i)
  }

  ghost predicate LinkAt(cells: seq<MemChunk>, free: seq<Chunk>, i: nat)
    requires i < |free|
  {
    free[i].at < |cells| && cells[free[i].at] == MemChunk(NextOf(free, i), GRANULE * free[i].len)
  }

  ghost predicate Rising(free: seq<Chunk>) {
    forall i, j | 0 <= i < j < |free| :: free[i].at < free[j].at
  }

  // prev->next = chunk->next, where prev may be the list head itself.
  lemma Unlinked(cells: seq<MemChunk>, head: int, free: seq<Chunk>, i: nat)
    requires Linked(cells, head, free) && Rising(free) && i < |free|
    ensures var f' := free[..i] + free[i + 1..];
            if i == 0 then Linked(cells, NextOf(free, 0), f')
            else
              var p := free[i - 1].at;
              p < |cells| && Linked(cells[p := cells[p].(next := NextOf(free, i))], head, f')
  {
    var f' := free[..i] + free[i + 1..];
    assert i > 0 ==> LinkAt(cells, free, i - 1);
    var cells' := if i == 0 then cells else cells[free[i - 1].at := cells[free[i - 1].at].(next := NextOf(free, i))];
    forall k | 0 <= k < |f'|
      ensures LinkAt(cells', f', k)
    {
      var j := if k < i then k else k + 1;
      assert f'[k] == free[j] && LinkAt(cells, free, j);
      assert NextOf(f', k) == if k + 1 == i then NextOf(free, i) else NextOf(free, j);
    }
  }

  lemma Resized(cells: seq<MemChunk>, head: int, free: seq<Chunk>, i: nat, len: nat)
    requires Linked(cells, head, free) && Rising(free) && i < |free|
    ensures var c := Chunk(free[i].at, len);
            c.at < |cells| && Linked(cells[c.at := cells[c.at].(size := GRANULE * len)], head, free[i := c])
  {
    var c := Chunk(free[i].at, len);
    assert LinkAt(cells, free, i);
    var cells', f' := cells[c.at := cells[c.at].(size := GRANULE * len)], free[i := c];
    forall k | 0 <= k < |f'|
      ensures LinkAt(cells', f', k)
    {
      assert LinkAt(cells, free, k);
    }
  }

  function CellFor(free: seq<Chunk>, i: nat, c: Chunk): MemChunk {
    MemChunk(if i < |free| then free[i].at else NULL, GRANULE * c.len)
  }

  lemma LinkedIn(cells: seq<MemChunk>, head: int, free: seq<Chunk>, i: nat, c: Chunk)
    requires Linked(cells, head, free) && Rising(free) && i <= |free| && c.at < |cells|
    requires forall k | 0 <= k < |free| :: free[k].at != c.at
    ensures var f' := free[..i] + [c] + free[i..];
            if i == 0 then Linked(cells[c.at := CellFor(free, i, c)], c.at, f')
            else
              var p := free[i - 1].at;
              p < |cells| && Linked(cells[c.at := CellFor(free, i, c)][p := cells[p].(next := c.at)], head, f')
  {
    var f' := free[..i] + [c] + free[i..];
    assert i > 0 ==> LinkAt(cells, free, i - 1);
    var cells1 := cells[c.at := CellFor(free, i, c)];
    var cells' := if i == 0 then cells1 else cells1[free[i - 1].at := cells[free[i - 1].at].(next := c.at)];
    forall k | 0 <= k < |f'|
      ensures LinkAt(cells', f', k)
    {
      if k != i {
        var j := if k < i then k else k - 1;
        assert f'[k] == free[j] && LinkAt(cells, free, j);
        assert NextOf(f', k) == if k + 1 == i then c.at else NextOf(free, j);
      } else {
        assert f'[k] == c && NextOf(f', k) == CellFor(free, i, c).next;
      }
    }
  }

  lemma Joined(cells: seq<MemChunk>, head: int, free: seq<Chunk>, k: nat)
    requires Linked(cells, head, free) && Rising(free) && k + 1 < |free| && free[k].End() == free[k + 1].at
    ensures var m := MemChunk(NextOf(free, k + 1), GRANULE * (free[k].len + free[k + 1].len));
            free[k].at < |cells| && Linked(cells[free[k].at := m], head, JoinNext(free, k))
  {
    var f' := JoinNext(free, k);
    assert LinkAt(cells, free, k);
    var cells' := cells[free[k].at := MemChunk(NextOf(free, k + 1), GRANULE * (free[k].len + free[k + 1].len))];
    forall i | 0 <= i < |f'|
      ensures LinkAt(cells', f', i)
    {
      var j := if i <= k then i else i + 1;
      assert LinkAt(cells, free, j);
      assert f'[i].at == free[j].at && (i != k ==> f'[i] == free[j]);
      assert NextOf(f', i) == if i == k then NextOf(free, k + 1) else NextOf(free, j);
    }
  }

  /// The allocator

  // The first chunk of at least n granules, or the length of the list.
  function FirstFit(free: seq<Chunk>, n: nat): (i: nat)
    ensures i <= |free| && (i < |free| ==> free[i].len >= n)
    ensures forall k | 0 <= k < i :: free[k].len < n
  {
    if free == [] || free[0].len >= n then 0 else 1 + FirstFit(free[1..], n)
  }

  lemma FirstFitIs(free: seq<Chunk>, n: nat, i: nat)
    requires i <= |free| && (i < |free| ==> free[i].len >= n) && forall k | 0 <= k < i :: free[k].len < n
    ensures FirstFit(free, n) == i
  {}

  // A heap's memory with its list head, and what they stand for.
  ghost predicate HeapState(cells: seq<MemChunk>, head: int, free: seq<Chunk>, live: map<int, nat>, owner: Owners) {
    && |cells| == |owner|
    && Linked(cells, head, free)
    && Runs(free, owner)
    && Blocks(live, owner)
  }

  // The memory is the same outside of the free granules.
  ghost predicate SameBlocks(cells: seq<MemChunk>, cells': seq<MemChunk>, owner: Owners)
    requires |cells| == |cells'| == |owner|
  {
    forall g | 0 <= g < |owner| && owner[g] != FREE :: cells'[g] == cells[g]
  }

  lemma SameBlocksOn(a: seq<MemChunk>, b: seq<MemChunk>, c: seq<MemChunk>, owner: Owners)
    requires |a| == |b| == |c| == |owner| && SameBlocks(a, b, owner) && SameBlocks(b, c, owner)
    ensures SameBlocks(a, c, owner)
  {}

  // Writing into what was free leaves the blocks alone.
  lemma SameBlocksBut(before: seq<MemChunk>, cells: seq<MemChunk>, owner: Owners, g: nat, cell: MemChunk)
    requires |before| == |cells| == |owner| && SameBlocks(before, cells, owner) && g < |owner| && owner[g] == FREE
    ensures SameBlocks(before, cells[g := cell], owner)
  {}

  lemma FreeCell(cells: seq<MemChunk>, head: int, free: seq<Chunk>, live: map<int, nat>, owner: Owners, i: nat)
    requires HeapState(cells, head, free, live, owner) && i < |free|
    ensures LinkAt(cells, free, i) && FreeRun(owner, free[i].at, free[i].len)
    ensures free[i].at < |cells| && owner[free[i].at] == FREE
    ensures cells[free[i].at].size == GRANULE * free[i].len && cells[free[i].at].next == NextOf(free, i)
  {
    ChunkIsFreeRun(free, owner, i);
  }

  lemma AllocWhole(cells: seq<MemChunk>, head: int, free: seq<Chunk>, live: map<int, nat>, owner: Owners, i: nat)
    requires HeapState(cells, head, free, live, owner) && i < |free|
    ensures var (p, n) := (free[i].at, free[i].len);
            var f', l', o' := free[..i] + free[i + 1..], live[p := n], Paint(owner, p, n, p);
            if i == 0 then HeapState(cells, NextOf(free, 0), f', l', o')
            else
              var q := free[i - 1].at;
              q < |cells| && owner[q] == FREE
              && HeapState(cells[q := cells[q].(next := NextOf(free, i))], head, f', l', o')
  {
    FreeCell(cells, head, free, live, owner, i);
    if i > 0 {
      FreeCell(cells, head, free, live, owner, i - 1);
    }
    Unlinked(cells, head, free, i);
    TakeWhole(free, owner, i);
    ClaimBlocks(live, owner, free[i].at, free[i].len);
  }

  lemma AllocTail(cells: seq<MemChunk>, head: int, free: seq<Chunk>, live: map<int, nat>, owner: Owners, i: nat, n: nat)
    requires HeapState(cells, head, free, live, owner) && i < |free| && 0 < n < free[i].len
    ensures var (q, p) := (free[i].at, free[i].End() - n);
            && q < |cells| && owner[q] == FREE && FreeRun(owner, p, n)
            && HeapState(cells[q := cells[q].(size := GRANULE * (free[i].len - n))], head,
                         free[i := Chunk(q, free[i].len - n)], live[p := n], Paint(owner, p, n, p))
  {
    FreeCell(cells, head, free, live, owner, i);
    Resized(cells, head, free, i, free[i].len - n);
    TakeTail(free, owner, i, n);
    ClaimBlocks(live, owner, free[i].End() - n, n);
  }

  // How many chunks lie below p.
  function CountBelow(free: seq<Chunk>, p: int): (i: nat)
    ensures i <= |free| && (i < |free| ==> p <= free[i].at)
    ensures forall k | 0 <= k < i :: free[k].at < p
  {
    if free == [] || p <= free[0].at then 0 else 1 + CountBelow(free[1..], p)
  }

  lemma CountBelowIs(free: seq<Chunk>, p: int, i: nat)
    requires i <= |free| && (i < |free| ==> p <= free[i].at) && forall k | 0 <= k < i :: free[k].at < p
    ensures CountBelow(free, p) == i
  {}

  // The memory after a freed block has been linked in, or has been added to the chunk below it.
  function CellsBelow(cells: seq<MemChunk>, free: seq<Chunk>, i: nat, p: nat, n: nat): seq<MemChunk>
    requires i <= |free| && p < |cells| && (i > 0 ==> free[i - 1].at < |cells|)
  {
    if i > 0 && free[i - 1].End() == p then
      var q := free[i - 1].at;
      cells[q := cells[q].(size := GRANULE * (free[i - 1].len + n))]
    else
      var cells1 := cells[p := CellFor(free, i, Chunk(p, n))];
      if i == 0 then cells1 else cells1[free[i - 1].at := cells[free[i - 1].at].(next := p)]
  }

  lemma FreeInserts(cells: seq<MemChunk>, head: int, free: seq<Chunk>, live: map<int, nat>, owner: Owners, p: int)
    requires HeapState(cells, head, free, live, owner) && p in live
    ensures var (i, n) := (CountBelow(free, p), live[p]);
            && 0 <= p < |cells| == |owner| && p + n <= |owner| && n > 0 && InsertsAt(free, i, p, n)
            && (i > 0 ==> free[i - 1].at < |cells| && free[i - 1].at < p && owner[free[i - 1].at] == FREE)
            && (i == 0 <==> p < head || head == NULL)
  {
    var i, n := CountBelow(free, p), live[p];
    assert forall g | p <= g < p + n :: owner[g] == p;
    hide Blocks, FreeRun, LinkAt;
    BlockInsertsAt(free, owner, i, p, n);
    if i > 0 {
      FreeCell(cells, head, free, live, owner, i - 1);
    }
    if i < |free| {
      FreeCell(cells, head, free, live, owner, i);
      InFreeAt(free, i, free[i].at);
    }
  }

  lemma FreeLinks(cells: seq<MemChunk>, head: int, free: seq<Chunk>, live: map<int, nat>, owner: Owners, p: int)
    requires HeapState(cells, head, free, live, owner) && p in live
    ensures var (i, n) := (CountBelow(free, p), live[p]);
            && 0 <= p < |cells| && (i > 0 ==> free[i - 1].at < |cells|)
            && Linked(CellsBelow(cells, free, i, p, n), if i == 0 then p else head, GiveBelow(free, i, p, n))
  {
    var i, n := CountBelow(free, p), live[p];
    FreeInserts(cells, head, free, live, owner, p);
    NotAmong(cells, head, free, live, owner, p);
    LinksBelow(cells, head, free, i, p, n);
  }

  lemma LinksBelow(cells: seq<MemChunk>, head: int, free: seq<Chunk>, i: nat, p: nat, n: nat)
    requires Linked(cells, head, free) && Rising(free) && i <= |free| && p < |cells| && (i > 0 ==> free[i - 1].at < |cells|)
    requires forall k | 0 <= k < |free| :: free[k].at != p
    ensures Linked(CellsBelow(cells, free, i, p, n), if i == 0 then p else head, GiveBelow(free, i, p, n))
  {
    hide Linked, CellFor;
    if i > 0 && free[i - 1].End() == p {
      Resized(cells, head, free, i - 1, free[i - 1].len + n);
    } else {
      LinkedIn(cells, head, free, i, Chunk(p, n));
    }
  }

  // No chunk of the free list starts where a live block does.
  lemma NotAmong(cells: seq<MemChunk>, head: int, free: seq<Chunk>, live: map<int, nat>, owner: Owners, p: int)
    requires HeapState(cells, head, free, live, owner) && p in live
    ensures forall k | 0 <= k < |free| :: free[k].at != p
  {
    FreeInserts(cells, head, free, live, owner, p);
    forall k | 0 <= k < |free|
      ensures free[k].at != p
    {
      assert free[k].len > 0;
    }
  }

  lemma FreeKeepsBlocks(cells: seq<MemChunk>, head: int, free: seq<Chunk>, live: map<int, nat>, owner: Owners, p: int)
    requires HeapState(cells, head, free, live, owner) && p in live
    ensures var (i, n) := (CountBelow(free, p), live[p]);
            && 0 <= p < |cells| && p + n <= |owner| && (i > 0 ==> free[i - 1].at < |cells|)
            && Covers(GiveBelow(free, i, p, n), Paint(owner, p, n, FREE))
            && |CellsBelow(cells, free, i, p, n)| == |owner|
            && SameBlocks(cells, CellsBelow(cells, free, i, p, n), Paint(owner, p, n, FREE))
            && Runs(Give(free, i, p, n), Paint(owner, p, n, FREE))
            && Blocks(live - {p}, Paint(owner, p, n, FREE))
  {
    var i, n := CountBelow(free, p), live[p];
    FreeInserts(cells, head, free, live, owner, p);
    GiveBelowCovers(free, owner, i, p, n);
    GiveRuns(free, owner, i, p, n);
    ReleaseBlocks(live, owner, p);
    hide Covers, Runs, Blocks, InsertsAt, GiveBelow, Give, HeapState;
    LinkedOutside(cells, free, owner, i, p, n);
  }

  lemma LinkedOutside(cells: seq<MemChunk>, free: seq<Chunk>, owner: Owners, i: nat, p: nat, n: nat)
    requires i <= |free| && p < |cells| == |owner| && n > 0 && p + n <= |owner|
    requires i > 0 ==> free[i - 1].at < |cells| && owner[free[i - 1].at] == FREE
    ensures |CellsBelow(cells, free, i, p, n)| == |owner|
    ensures SameBlocks(cells, CellsBelow(cells, free, i, p, n), Paint(owner, p, n, FREE))
  {}

  lemma FreeJoin(cells: seq<MemChunk>, head: int, free: seq<Chunk>, owner: Owners, k: nat)
    requires |cells| == |owner| && Linked(cells, head, free) && Covers(free, owner) && k < |free|
    ensures LinkAt(cells, free, k) && owner[free[k].at] == FREE
    ensures cells[free[k].at] == MemChunk(NextOf(free, k), GRANULE * free[k].len)
    ensures k + 1 < |free| && free[k].End() == free[k + 1].at ==>
              && LinkAt(cells, free, k + 1)
              && cells[free[k + 1].at] == MemChunk(NextOf(free, k + 1), GRANULE * free[k + 1].len)
              && Linked(cells[free[k].at := MemChunk(NextOf(free, k + 1), GRANULE * (free[k].len + free[k + 1].len))],
                        head, JoinNext(free, k))
  {
    InFreeAt(free, k, free[k].at);
    if k + 1 < |free| && free[k].End() == free[k + 1].at {
      Joined(cells, head, free, k);
    }
  }

  // Between the two merges: the k-th chunk has taken the freed block in, and may touch the next.
  ghost predicate Midway(cells: seq<MemChunk>, head: int, free: seq<Chunk>, k: nat, live: map<int, nat>, owner: Owners) {
    && |cells| == |owner| && k < |free|
    && Linked(cells, head, free) && Covers(free, owner)
    && Runs(JoinNext(free, k), owner) && Blocks(live, owner)
  }

  lemma MidwayAfterLink(cells: seq<MemChunk>, head: int, free: seq<Chunk>, live: map<int, nat>, owner: Owners, p: int)
    requires HeapState(cells, head, free, live, owner) && p in live
    ensures var (i, n) := (CountBelow(free, p), live[p]);
            && 0 <= p < |cells| && p + n <= |owner| && (i > 0 ==> free[i - 1].at < |cells|)
            && |CellsBelow(cells, free, i, p, n)| == |owner|
            && SameBlocks(cells, CellsBelow(cells, free, i, p, n), Paint(owner, p, n, FREE))
            && Midway(CellsBelow(cells, free, i, p, n), if i == 0 then p else head, GiveBelow(free, i, p, n),
                      if i > 0 && free[i - 1].End() == p then i - 1 else i,
                      live - {p}, Paint(owner, p, n, FREE))
  {
    FreeLinks(cells, head, free, live, owner, p);
    FreeKeepsBlocks(cells, head, free, live, owner, p);
    hide HeapState, Linked, Covers, Runs, Blocks, CellsBelow, GiveBelow, JoinNext;
  }

  // The size that tcm_heap_malloc has written in front of a block it handed out is the
  // size the block was allocated for.
  ghost predicate Headed(cells: seq<MemChunk>, headers: map<int, int>, live: map<int, nat>, owner: Owners)
    requires |cells| == |owner|
  {
    forall a | a in headers ::
      && a in live && 0 <= a < |owner| && owner[a] == a
      && cells[a].next == headers[a]
      && IsInt32(headers[a]) && Servable(headers[a]) && GranulesFor(headers[a]) == live[a]
  }

  lemma HeadedAfterAlloc(cells: seq<MemChunk>, cells': seq<MemChunk>, headers: map<int, int>, live: map<int, nat>,
                         owner: Owners, p: nat, n: nat)
    requires |cells| == |cells'| == |owner| && Headed(cells, headers, live, owner) && SameBlocks(cells, cells', owner)
    requires FreeRun(owner, p, n) && n > 0
    ensures Headed(cells', headers, live[p := n], Paint(owner, p, n, p))
  {}

  lemma HeadedAfterFree(cells: seq<MemChunk>, cells': seq<MemChunk>, headers: map<int, int>, live: map<int, nat>,
                        owner: Owners, p: nat)
    requires |cells| == |cells'| == |owner| && Headed(cells, headers, live, owner) && Blocks(live, owner)
    requires p in live && SameBlocks(cells, cells', Paint(owner, p, live[p], FREE))
    ensures Headed(cells', headers - {p}, live - {p}, Paint(owner, p, live[p], FREE))
  {
    var o' := Paint(owner, p, live[p], FREE);
    forall a | a in headers - {p}
      ensures o'[a] == a
    {
      assert forall g | p <= g < p + live[p] :: owner[g] == p;
    }
  }
}
