/**
 The TCM heap: a first-fit allocator over an address-ordered free list that lives in
 the heap's own memory.
 */
module TcmHeap {
  import opened Bits
  import opened TcmFreeList

  class Heap {
    var FreeList: int
    const tcmHeap: array<MemChunk>
    ghost var free: seq<Chunk>
    ghost var live: map<int, nat>
    ghost var owner: Owners
    // The sizes that tcm_heap_malloc has written in front of the blocks it handed out.
    ghost var headers: map<int, int>

    ghost predicate Valid()
      reads this, tcmHeap
    {
      && tcmHeap.Length == GRANULES
      && HeapState(tcmHeap[..], FreeList, free, live, owner)
      && Headed(tcmHeap[..], headers, live, owner)
    }

    // tcm_heap_init: a single big chunk.
    constructor ()
      ensures Valid() && fresh(tcmHeap)
      ensures free == [Chunk(0, GRANULES)] && live == map[] && headers == map[]
    {
      tcmHeap := new MemChunk[GRANULES](i => MemChunk(NULL, HEAP_SIZE));
      FreeList := 0;
      free, live, owner, headers := [Chunk(0, GRANULES)], map[], seq(GRANULES, _ => FREE), map[];
      new;
      assert LinkAt(tcmHeap[..], free, 0);
      forall g | 0 <= g < |owner|
        ensures owner[g] == FREE && InFree(free, g)
      {
        InFreeAt(free, 0, g);
      }
    }

    // The walk along the list, with prev == NULL standing for the list head itself.
    method FindChunk(size: int) returns (prev: int, chunk: int)
      requires Valid() && size % GRANULE == 0
      ensures var i := FirstFit(free, if size > 0 then size / GRANULE else 0);
              && chunk == (if i < |free| then free[i].at else NULL)
              && prev == (if i > 0 then free[i - 1].at else NULL)
    {
      prev, chunk := NULL, FreeList;
      ghost var i, cells := 0, tcmHeap[..];
      assert FreeList == HeadOf(free);
      hide HeapState, Headed, LinkAt, FirstFit;
      while chunk != NULL
        invariant i <= |free| && chunk == (if i < |free| then free[i].at else NULL)
        invariant prev == (if i > 0 then free[i - 1].at else NULL)
        invariant forall k | 0 <= k < i :: free[k].len < size / GRANULE
        decreases |free| - i
      {
        FreeCell(cells, FreeList, free, live, owner, i);
        if tcmHeap[chunk].size >= size {
          break;
        }
        prev, chunk, i := chunk, tcmHeap[chunk].next, i + 1;
      }
      FirstFitIs(free, if size > 0 then size / GRANULE else 0, i);
    }

    // First fit, from the end of the chunk. A request that rounds to a negative size takes any chunk to
    // be large enough, and leaves no free list behind.
    method AllocMem(size0: int) returns (p: int)
      requires Valid() && IsInt32(size0)
      modifies this`FreeList, this`free, this`live, this`owner, tcmHeap
      ensures Valid() <==> Servable(size0) || old(free) == []
      ensures Servable(size0) ==>
                var n := GranulesFor(size0);
                var i := FirstFit(old(free), n);
                && (p == NULL <==> !exists a :: FreeRun(old(owner), a, n))
                && (p == NULL ==> live == old(live) && owner == old(owner) && free == old(free))
                && (p != NULL ==>
                      && i < |old(free)| && p == old(free)[i].End() - n
                      && FreeRun(old(owner), p, n)
                      && live == old(live)[p := n] && owner == Paint(old(owner), p, n, p))
                && SameBlocks(old(tcmHeap[..]), tcmHeap[..], old(owner))
      ensures !Servable(size0) ==> live == old(live) && owner == old(owner) && free == old(free)
      ensures !Servable(size0) && old(free) == [] ==> p == NULL && tcmHeap[..] == old(tcmHeap[..])
      ensures !Valid() ==> NoList(tcmHeap[..], FreeList, live, owner)
    {
      var size := RoundUp(size0);
      RoundUpMeaning(size0);
      var prev, chunk := FindChunk(size);
      if size < 0 {
        p := Overgrow(chunk, size);
        return;
      }
      ghost var n := GranulesFor(size0);
      ghost var i, cells := FirstFit(free, n), tcmHeap[..];
      if chunk == NULL {
        NoRun(free, owner, n);
        return NULL;
      }
      p := TakeFrom(prev, chunk, size, i, n);
    }

    // The first chunk that fits, when the size is negative: the first of all, which then grows.
    method Overgrow(chunk: int, size: int) returns (p: int)
      requires Valid() && -0x8000_0000 <= size < 0 && chunk == (if free == [] then NULL else free[0].at)
      modifies tcmHeap
      ensures free == [] ==> p == NULL && tcmHeap[..] == old(tcmHeap[..]) && Valid()
      ensures free != [] ==> NoList(tcmHeap[..], FreeList, live, owner)
    {
      if chunk == NULL {
        return NULL;
      }
      ghost var cells := tcmHeap[..];
      FreeCell(cells, FreeList, free, live, owner, 0);
      NeverTheSame(tcmHeap[chunk].size, size);
      hide HeapState, Linked, LinkAt, WrapInt32;
      tcmHeap[chunk] := tcmHeap[chunk].(size := WrapInt32(tcmHeap[chunk].size - size));
      p := chunk + tcmHeap[chunk].size / GRANULE;
      assert tcmHeap[..] == cells[chunk := cells[chunk].(size := tcmHeap[chunk].size)];
      NoListFits(cells, FreeList, free, live, owner, tcmHeap[chunk].size);
    }

    // The last n granules of the i-th chunk become a block.
    method TakeFrom(prev: int, chunk: int, size: int, ghost i: nat, ghost n: nat) returns (p: int)
      requires Valid() && i < |free| && 0 < n <= free[i].len && size == GRANULE * n
      requires chunk == free[i].at && prev == (if i > 0 then free[i - 1].at else NULL)
      modifies this`FreeList, this`free, this`live, this`owner, tcmHeap
      ensures Valid() && p == old(free)[i].End() - n && FreeRun(old(owner), p, n)
      ensures live == old(live)[p := n] && owner == Paint(old(owner), p, n, p)
      ensures SameBlocks(old(tcmHeap[..]), tcmHeap[..], old(owner))
    {
      hide HeapState, Headed, Linked, LinkAt, Paint, Blocks, Runs, NextOf;
      ghost var cells := tcmHeap[..];
      FreeCell(cells, FreeList, free, live, owner, i);
      if tcmHeap[chunk].size == size {
        p := chunk;
        AllocWhole(cells, FreeList, free, live, owner, i);
        UnlinkChunk(prev, chunk, i);
      } else {
        AllocTail(cells, FreeList, free, live, owner, i, n);
        p := CutTail(chunk, size, i, n);
      }
      HeadedAfterAlloc(cells, tcmHeap[..], headers, live, owner, p, n);
      live, owner := live[p := n], Paint(owner, p, n, p);
    }

    method CutTail(chunk: int, size: int, ghost i: nat, ghost n: nat) returns (p: int)
      requires Valid() && i < |free| && 0 < n < free[i].len && size == GRANULE * n && chunk == free[i].at
      modifies this`free, tcmHeap
      ensures p == old(free)[i].End() - n
      ensures free == old(free)[i := Chunk(old(free)[i].at, old(free)[i].len - n)]
      ensures tcmHeap[..] == old(tcmHeap[..])[chunk := old(tcmHeap[chunk]).(size := GRANULE * (old(free)[i].len - n))]
    {
      FreeCell(tcmHeap[..], FreeList, free, live, owner, i);
      tcmHeap[chunk] := tcmHeap[chunk].(size := tcmHeap[chunk].size - size);
      p := chunk + tcmHeap[chunk].size / GRANULE;
      free := free[i := Chunk(free[i].at, free[i].len - n)];
    }

    method UnlinkChunk(prev: int, chunk: int, ghost i: nat)
      requires Valid() && i < |free| && chunk == free[i].at
      requires prev == (if i > 0 then free[i - 1].at else NULL)
      modifies this`FreeList, this`free, tcmHeap
      ensures free == old(free)[..i] + old(free)[i + 1..]
      ensures FreeList == (if i == 0 then NextOf(old(free), 0) else old(FreeList))
      ensures tcmHeap[..] == if i == 0 then old(tcmHeap[..])
                             else old(tcmHeap[..])[prev := old(tcmHeap[prev]).(next := NextOf(old(free), i))]
    {
      ghost var cells := tcmHeap[..];
      FreeCell(cells, FreeList, free, live, owner, i);
      if prev == NULL {
        FreeList := tcmHeap[chunk].next;
      } else {
        FreeCell(cells, FreeList, free, live, owner, i - 1);
        tcmHeap[prev] := tcmHeap[prev].(next := tcmHeap[chunk].next);
      }
      free := free[..i] + free[i + 1..];
    }

    method FreeMem(mem: int, size0: int)
      requires Valid() && mem in live && IsInt32(size0) && Servable(size0) && GranulesFor(size0) == live[mem]
      modifies this`FreeList, this`free, this`live, this`owner, this`headers, tcmHeap
      ensures Valid()
      ensures live == old(live) - {mem} && headers == old(headers) - {mem}
      ensures owner == Paint(old(owner), mem, old(live)[mem], FREE)
      ensures SameBlocks(old(tcmHeap[..]), tcmHeap[..], owner)
    {
      var size := RoundUp(size0);
      hide HeapState, Midway, Headed, RoundUp, SameBlocks, Paint;
      ghost var cells, owner' := tcmHeap[..], Paint(owner, mem, live[mem], FREE);
      ghost var k;
      var prev;
      prev, k := Insert(mem, size);
      ghost var cells1 := tcmHeap[..];
      MergeNext(prev, k, live - {mem}, owner');
      SameBlocksOn(cells, cells1, tcmHeap[..], owner');
      HeadedAfterFree(cells, tcmHeap[..], headers, live, owner, mem);
      live, owner, headers := live - {mem}, owner', headers - {mem};
    }

    // The block enters the list, and merges with the chunk below it; it may still touch the one above.
    method Insert(mem: int, size: int) returns (prev: int, ghost k: nat)
      requires Valid() && mem in live && size == GRANULE * live[mem]
      modifies this`FreeList, this`free, tcmHeap
      ensures 0 <= mem && mem + live[mem] <= |owner| == GRANULES
      ensures var owner' := Paint(owner, mem, live[mem], FREE);
              && Midway(tcmHeap[..], FreeList, free, k, live - {mem}, owner') && k < |free| && prev == free[k].at
              && SameBlocks(old(tcmHeap[..]), tcmHeap[..], owner')
    {
      hide HeapState, Linked, Headed, SameBlocks, Paint, GiveBelow, CellsBelow;
      ghost var i, n := CountBelow(free, mem), live[mem];
      k := if i > 0 && free[i - 1].End() == mem then i - 1 else i;
      MidwayAfterLink(tcmHeap[..], FreeList, free, live, owner, mem);
      prev := LinkBlock(mem, size, i, n);
    }

    // The block becomes a chunk of the list, or the upper part of the chunk below it.
    method LinkBlock(mem: int, size: int, ghost i: nat, ghost n: nat) returns (prev: int)
      requires Valid() && mem in live && n == live[mem] && size == GRANULE * n && i == CountBelow(free, mem)
      modifies this`FreeList, this`free, tcmHeap
      ensures 0 <= mem < GRANULES && (i > 0 ==> old(free)[i - 1].at < GRANULES)
      ensures free == GiveBelow(old(free), i, mem, n)
      ensures FreeList == if i == 0 then mem else old(FreeList)
      ensures tcmHeap[..] == CellsBelow(old(tcmHeap[..]), old(free), i, mem, n)
      ensures prev == free[if i > 0 && old(free)[i - 1].End() == mem then i - 1 else i].at
    {
      ghost var cells := tcmHeap[..];
      FreeInserts(cells, FreeList, free, live, owner, mem);
      assert FreeList == HeadOf(free);
      hide HeapState, Linked, Headed, InsertsAt, FreeRun, Blocks, Covers, Runs;
      if mem < FreeList || FreeList == NULL {
        prev := mem;
        tcmHeap[prev] := MemChunk(FreeList, size);
        FreeList := prev;
      } else {
        prev := LinkBehind(mem, size, i, n);
      }
      free := GiveBelow(free, i, mem, n);
    }

    // Some chunk lies below the block: it grows, or the block becomes the next one.
    method LinkBehind(mem: int, size: int, ghost i: nat, ghost n: nat) returns (prev: int)
      requires Valid() && mem in live && size == GRANULE * n && i == CountBelow(free, mem) && 0 <= mem < |owner|
      requires 0 < i <= |free| && FreeList <= mem && free[i - 1].at < mem
      modifies tcmHeap
      ensures free[i - 1].at < GRANULES && tcmHeap[..] == CellsBelow(old(tcmHeap[..]), free, i, mem, n)
      ensures prev == if free[i - 1].End() == mem then free[i - 1].at else mem
    {
      ghost var cells := tcmHeap[..];
      FreeCell(cells, FreeList, free, live, owner, i - 1);
      prev := FindPrev(mem);
      hide Headed, LinkAt, FreeRun, CountBelow, CellsBelow, NextOf;
      BelowCells(cells, free, i, mem, n);
      prev := GrowOrLink(tcmHeap, prev, mem, size, free[i - 1].len, n);
    }

    // The last chunk below mem.
    method FindPrev(mem: int) returns (prev: int)
      requires Valid() && mem in live && free != [] && FreeList <= mem
      ensures CountBelow(free, mem) > 0 && prev == free[CountBelow(free, mem) - 1].at
    {
      ghost var i, cells := 0, tcmHeap[..];
      prev := FreeList;
      FreeCell(cells, FreeList, free, live, owner, i);
      while tcmHeap[prev].next < mem && tcmHeap[prev].next != NULL
        invariant i < |free| && prev == free[i].at && prev < mem
        invariant tcmHeap[prev].next == NextOf(free, i) && 0 <= prev < GRANULES
        decreases |free| - i
      {
        prev, i := tcmHeap[prev].next, i + 1;
        FreeCell(cells, FreeList, free, live, owner, i);
      }
      assert i + 1 < |free| ==> mem <= free[i + 1].at;
      assert forall j | 0 <= j <= i :: free[j].at < mem by {
        assert forall j | 0 <= j < i :: free[j].End() < free[i].at;
      }
      CountBelowIs(free, mem, i + 1);
    }

    // Also merge with the next chunk?
    method MergeNext(prev: int, ghost k: nat, ghost live': map<int, nat>, ghost owner': Owners)
      requires Midway(tcmHeap[..], FreeList, free, k, live', owner') && prev == free[k].at
      modifies this`free, tcmHeap
      ensures HeapState(tcmHeap[..], FreeList, free, live', owner')
      ensures SameBlocks(old(tcmHeap[..]), tcmHeap[..], owner')
    {
      ghost var cells := tcmHeap[..];
      FreeJoin(cells, FreeList, free, owner', k);
      hide Linked, Runs, Blocks, Covers;
      if prev + tcmHeap[prev].size / GRANULE == tcmHeap[prev].next {
        var next := tcmHeap[prev].next;
        tcmHeap[prev] := tcmHeap[prev].(size := tcmHeap[prev].size + tcmHeap[next].size);
        tcmHeap[prev] := tcmHeap[prev].(next := tcmHeap[next].next);
        assert tcmHeap[..] == cells[prev := MemChunk(NextOf(free, k + 1), GRANULE * (free[k].len + free[k + 1].len))];
      }
      free := JoinNext(free, k);
    }

    method FreeSpace() returns (freeMem: int)
      requires Valid()
      ensures freeMem == GRANULE * CountFree(owner, 0) == HEAP_SIZE - GRANULE * TotalLive(live, GRANULES, 0)
    {
      freeMem := 0;
      var chunk := FreeList;
      ghost var i, cells := 0, tcmHeap[..];
      assert free[0..] == free;
      while chunk != NULL
        invariant i <= |free| && chunk == (if i < |free| then free[i].at else NULL)
        invariant freeMem + GRANULE * TotalFree(free[i..]) == GRANULE * TotalFree(free)
        decreases |free| - i
      {
        FreeCell(cells, FreeList, free, live, owner, i);
        assert free[i..][1..] == free[i + 1..];
        freeMem := freeMem + tcmHeap[chunk].size;
        chunk, i := tcmHeap[chunk].next, i + 1;
      }
      TotalFreeCounts(free, owner, 0);
      Conserved(live, owner, 0);
    }

    // The block's first int is its size, and the caller's memory begins behind it. Caller's
    // pointers are byte offsets into the heap.
    method Malloc(size0: int) returns (p: int)
      requires Valid() && IsInt32(size0) && (Servable(size0 + 4) || free == [])
      modifies this`FreeList, this`free, this`live, this`owner, this`headers, tcmHeap
      ensures Valid()
      ensures Servable(size0 + 4) ==>
                var n := GranulesFor(size0 + 4);
                && (p == NULL <==> !exists a :: FreeRun(old(owner), a, n))
                && (p != NULL ==>
                      var a := (p - 4) / GRANULE;
                      && p == GRANULE * a + 4 && p + size0 <= GRANULE * (a + n)
                      && FreeRun(old(owner), a, n)
                      && live == old(live)[a := n] && owner == Paint(old(owner), a, n, a)
                      && headers == old(headers)[a := size0 + 4])
      ensures !Servable(size0 + 4) ==> p == NULL
      ensures p == NULL ==> live == old(live) && owner == old(owner) && headers == old(headers)
      ensures SameBlocks(old(tcmHeap[..]), tcmHeap[..], old(owner))
    {
      var size := WrapInt32(size0 + 4);
      PlainSum(size0);
      RoundUpMeaning(size);
      AllSame(tcmHeap[..], owner);
      hide HeapState, Headed, RoundUp, FirstFit, WrapInt32, SameBlocks, Paint, NoList;
      var mem := AllocMem(size);
      if mem == NULL {
        return NULL;
      }
      RunStarts(old(owner), mem, GranulesFor(size));
      hide FreeRun;
      ghost var cells := tcmHeap[..];
      WriteHeader(mem, size);
      SameBlocksBut(old(tcmHeap[..]), cells, old(owner), mem, tcmHeap[mem]);
      p := GRANULE * mem + 4;
      assert (p - 4) / GRANULE == mem;
    }

    method WriteHeader(mem: int, size: int)
      requires Valid() && mem in live && IsInt32(size) && Servable(size) && GranulesFor(size) == live[mem]
      modifies this`headers, tcmHeap
      ensures Valid() && headers == old(headers)[mem := size]
      ensures 0 <= mem < tcmHeap.Length && tcmHeap[..] == old(tcmHeap[..])[mem := old(tcmHeap[mem]).(next := size)]
    {
      assert owner[mem] == mem;
      BlockWritable(tcmHeap[..], FreeList, free, live, owner, mem, tcmHeap[mem].(next := size));
      hide HeapState, RoundUp;
      ghost var cells := tcmHeap[..];
      tcmHeap[mem] := tcmHeap[mem].(next := size);
      assert tcmHeap[..] == cells[mem := cells[mem].(next := size)];
      headers := headers[mem := size];
    }

    // What the owners of live blocks do: they write where they like, except on the headers.
    method Scribble(g: int, cell: MemChunk)
      requires Valid() && 0 <= g < GRANULES && owner[g] != FREE
      requires g in headers ==> cell.next == tcmHeap[g].next
      modifies tcmHeap
      ensures Valid() && tcmHeap[..] == old(tcmHeap[..])[g := cell]
    {
      BlockWritable(tcmHeap[..], FreeList, free, live, owner, g, cell);
      hide HeapState, RoundUp;
      ghost var cells := tcmHeap[..];
      tcmHeap[g] := cell;
      assert tcmHeap[..] == cells[g := cell];
    }

    method Free(ptr: int)
      requires Valid() && (ptr != NULL ==> ptr % GRANULE == 4 && (ptr - 4) / GRANULE in headers)
      modifies this`FreeList, this`free, this`live, this`owner, this`headers, tcmHeap
      ensures Valid()
      ensures ptr == NULL ==> live == old(live) && owner == old(owner) && headers == old(headers)
      ensures ptr != NULL ==>
                var a := (ptr - 4) / GRANULE;
                && live == old(live) - {a} && headers == old(headers) - {a}
                && owner == Paint(old(owner), a, old(live)[a], FREE)
      ensures SameBlocks(old(tcmHeap[..]), tcmHeap[..], owner)
    {
      if ptr != NULL {
        var mem := (ptr - 4) / GRANULE;
        FreeMem(mem, tcmHeap[mem].next);
      }
    }

    // Freeing all live blocks, in any order, restores the single initial chunk.
    method FreeAll(ptrs: seq<int>)
      requires Valid() && CallerPointers(ptrs) && live.Keys == headers.Keys == BlocksOf(ptrs)
      modifies this`FreeList, this`free, this`live, this`owner, this`headers, tcmHeap
      ensures Valid() && live == map[] && headers == map[]
      ensures free == [Chunk(0, GRANULES)] && FreeList == 0 && tcmHeap[0] == MemChunk(NULL, HEAP_SIZE)
    {
      hide HeapState, Headed, BlocksOf, CallerPointers;
      var i := 0;
      assert ptrs[0..] == ptrs;
      while i < |ptrs|
        invariant 0 <= i <= |ptrs| && Valid() && live.Keys == headers.Keys == BlocksOf(ptrs[i..])
      {
        NextPointer(ptrs, i);
        Free(ptrs[i]);
        i := i + 1;
      }
      NoPointers(ptrs[i..]);
      EmptyHeap(tcmHeap[..], FreeList, free, live, owner);
    }
  }

  // Distinct pointers as tcm_heap_malloc returns them.
  predicate CallerPointers(ptrs: seq<int>) {
    && (forall i | 0 <= i < |ptrs| :: ptrs[i] % GRANULE == 4 && ptrs[i] != NULL)
    && (forall i, j | 0 <= i < j < |ptrs| :: ptrs[i] != ptrs[j])
  }

  function BlocksOf(ptrs: seq<int>): set<int> {
    set i | 0 <= i < |ptrs| :: (ptrs[i] - 4) / GRANULE
  }

  lemma NextPointer(ptrs: seq<int>, i: nat)
    requires CallerPointers(ptrs) && i < |ptrs|
    ensures ptrs[i] % GRANULE == 4 && ptrs[i] != NULL && (ptrs[i] - 4) / GRANULE in BlocksOf(ptrs[i..])
    ensures BlocksOf(ptrs[i + 1..]) == BlocksOf(ptrs[i..]) - {(ptrs[i] - 4) / GRANULE}
  {
    var s, t, a := ptrs[i..], ptrs[i + 1..], (ptrs[i] - 4) / GRANULE;
    assert s[0] == ptrs[i] && t == s[1..];
    assert forall j | 0 <= j < |t| :: t[j] == s[j + 1];
    forall j | 0 <= j < |t|
      ensures (t[j] - 4) / GRANULE != a
    {
      assert t[j] == ptrs[i + 1 + j];
      SameBlock(t[j], ptrs[i]);
    }
    forall b | b in BlocksOf(s) && b != a
      ensures b in BlocksOf(t)
    {
      var j :| 0 <= j < |s| && b == (s[j] - 4) / GRANULE;
      assert t[j - 1] == s[j];
    }
  }

  lemma SameBlock(p: int, q: int)
    requires p % GRANULE == 4 && q % GRANULE == 4 && p != q
    ensures (p - 4) / GRANULE != (q - 4) / GRANULE
  {}

  lemma NoPointers(ptrs: seq<int>)
    requires ptrs == []
    ensures BlocksOf(ptrs) == {}
  {}

  lemma EmptyHeap(cells: seq<MemChunk>, head: int, free: seq<Chunk>, live: map<int, nat>, owner: Owners)
    requires HeapState(cells, head, free, live, owner) && live.Keys == {} && |cells| > 0
    ensures live == map[] && free == [Chunk(0, |cells|)] && head == 0
    ensures cells[0] == MemChunk(NULL, GRANULE * |cells|)
  {
    assert live == map[];
    AllFreeIsOneChunk(free, live, owner);
    assert LinkAt(cells, free, 0);
  }

  // A request that rounds to a negative size (size + 7 wraps past the int range) is taken to
  // fit any chunk, which then grows: the servable sizes are exactly those that do not do this.
  lemma UnservableFits(size: int, chunkSize: nat)
    requires IsInt32(size)
    ensures !Servable(size) <==> RoundUp(size) < 0
    ensures !Servable(size) ==> chunkSize >= RoundUp(size) && chunkSize - RoundUp(size) > chunkSize
    ensures !Servable(0x7FFF_FFF9) && !Servable(-8)
  {
    RoundUpMeaning(size);
    hide RoundUp;
  }

  lemma PlainSum(size: int)
    requires IsInt32(size)
    ensures IsInt32(WrapInt32(size + 4)) && (Servable(size + 4) <==> Servable(WrapInt32(size + 4)))
    ensures Servable(size + 4) ==> WrapInt32(size + 4) == size + 4
  {}

  lemma BelowCells(cells: seq<MemChunk>, free: seq<Chunk>, i: nat, p: nat, n: nat)
    requires 0 < i <= |free| && p < |cells| && free[i - 1].at < |cells|
    requires cells[free[i - 1].at].next == NextOf(free, i - 1)
    ensures var q := free[i - 1].at;
            CellsBelow(cells, free, i, p, n) ==
            if free[i - 1].End() == p then cells[q := cells[q].(size := GRANULE * (free[i - 1].len + n))]
            else cells[p := MemChunk(cells[q].next, GRANULE * n)][q := cells[q].(next := p)]
  {}

  lemma RunStarts(owner: Owners, a: int, n: nat)
    requires FreeRun(owner, a, n) && n > 0
    ensures 0 <= a < |owner| && owner[a] == FREE
  {}

  lemma AllSame(cells: seq<MemChunk>, owner: Owners)
    requires |cells| == |owner|
    ensures SameBlocks(cells, cells, owner)
  {}

  lemma NeverTheSame(chunkSize: int, size: int)
    requires 0 < chunkSize <= HEAP_SIZE && -0x8000_0000 <= size < 0
    ensures WrapInt32(chunkSize - size) != chunkSize
  {}

  // The chunk at prev takes the block behind it in, or is linked to it.
  method GrowOrLink(tcmHeap: array<MemChunk>, prev0: int, mem: int, size: int, ghost len: nat, ghost n: nat) returns (prev: int)
    requires 0 <= prev0 < mem < tcmHeap.Length && tcmHeap[prev0].size == GRANULE * len && size == GRANULE * n
    modifies tcmHeap
    ensures prev == if prev0 + len == mem then prev0 else mem
    ensures var cells := old(tcmHeap[..]);
            tcmHeap[..] == if prev0 + len == mem then cells[prev0 := cells[prev0].(size := GRANULE * (len + n))]
                           else cells[mem := MemChunk(cells[prev0].next, size)][prev0 := cells[prev0].(next := mem)]
  {
    prev := prev0;
    if prev + tcmHeap[prev].size / GRANULE == mem {
      tcmHeap[prev] := tcmHeap[prev].(size := tcmHeap[prev].size + size);
    } else {
      tcmHeap[mem] := MemChunk(tcmHeap[prev].next, size);
      tcmHeap[prev] := tcmHeap[prev].(next := mem);
      prev := mem;
    }
  }

  // No free list at all stands for these blocks in this memory.
  ghost predicate NoList(cells: seq<MemChunk>, head: int, live: map<int, nat>, owner: Owners) {
    forall f :: !HeapState(cells, head, f, live, owner)
  }

  lemma NoListFits(cells: seq<MemChunk>, head: int, free: seq<Chunk>, live: map<int, nat>, owner: Owners, size: int)
    requires HeapState(cells, head, free, live, owner) && free != [] && free[0].at < |cells|
    requires size != cells[free[0].at].size
    ensures NoList(cells[free[0].at := cells[free[0].at].(size := size)], head, live, owner)
  {
    var cells' := cells[free[0].at := cells[free[0].at].(size := size)];
    FreeCell(cells, head, free, live, owner, 0);
    forall f | HeapState(cells', head, f, live, owner)
      ensures false
    {
      OneSize(cells', head, f, free, live, owner);
    }
  }

  lemma OneSize(cells: seq<MemChunk>, head: int, f: seq<Chunk>, free: seq<Chunk>, live: map<int, nat>, owner: Owners)
    requires HeapState(cells, head, f, live, owner) && Runs(free, owner) && free != []
    ensures free[0].at < |cells| && cells[free[0].at].size == GRANULE * free[0].len
  {
    RunsUnique(f, free, owner);
    FreeCell(cells, head, f, live, owner, 0);
  }

  lemma BlockWritable(cells: seq<MemChunk>, head: int, free: seq<Chunk>, live: map<int, nat>, owner: Owners,
                      g: int, cell: MemChunk)
    requires HeapState(cells, head, free, live, owner) && 0 <= g < |cells| && owner[g] != FREE
    ensures HeapState(cells[g := cell], head, free, live, owner)
  {
    var cells' := cells[g := cell];
    forall i | 0 <= i < |free|
      ensures LinkAt(cells', free, i)
    {
      FreeCell(cells, head, free, live, owner, i);
    }
  }

  lemma NoRun(free: seq<Chunk>, owner: Owners, n: nat)
    requires Runs(free, owner) && n > 0 && forall k | 0 <= k < |free| :: free[k].len < n
    ensures !exists a :: FreeRun(owner, a, n)
  {
    forall a
      ensures !FreeRun(owner, a, n)
    {
      if FreeRun(owner, a, n) {
        var i := RunInChunk(free, owner, a, n);
      }
    }
  }
}
