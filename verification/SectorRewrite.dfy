/**
 Changing one word of the system-data sector of a NOR flash: erasing sets every bit of a sector,
 writing a word can only clear bits, so the sector goes through a backup.
 */
module SectorRewrite {
  const SECTOR := 0x1000
  const RESERVED := 0x8000
  const SYSTEM := 0x9000
  const OTU := 0xc
  const ERASED: bv32 := 0xFFFF_FFFF

  // The words of the flash, by address divided by four.
  type Image = seq<bv32>

  predicate Whole(f: Image) {
    |f| * 4 >= SYSTEM + SECTOR
  }

  function Sector(f: Image, at: nat): (s: Image)
    requires Whole(f) && at <= SYSTEM && at % 4 == 0
    ensures |s| == SECTOR / 4
  {
    f[at / 4..at / 4 + SECTOR / 4]
  }

  // The system data as it should become.
  function Updated(f: Image, otu: bv32): (s: Image)
    requires Whole(f)
    ensures |s| == SECTOR / 4
  {
    Sector(f, SYSTEM)[OTU / 4 := otu]
  }

  function Program(was: bv32, x: bv32): (r: bv32)
    ensures was == ERASED ==> r == x
  {
    was & x
  }

  // Someone who finds the flash like this can still get at a complete old or new copy of the data.
  ghost predicate Recoverable(f: Image, start: Image, otu: bv32) {
    && Whole(f) && Whole(start)
    && (Sector(f, SYSTEM) == Sector(start, SYSTEM) || Sector(f, SYSTEM) == Updated(start, otu)
        || Sector(f, RESERVED) == Updated(start, otu))
  }

  // Other sectors never change.
  ghost predicate OthersKept(f: Image, start: Image) {
    |f| == |start| && forall k :: 0 <= k < |f| && !(RESERVED <= 4 * k < SYSTEM + SECTOR) ==> f[k] == start[k]
  }

  ghost predicate Safe(f: Image, start: Image, otu: bv32) {
    Recoverable(f, start, otu) && OthersKept(f, start)
  }

  ghost predicate SameExcept(f: Image, g: Image, at: nat) {
    |f| == |g| && forall k :: 0 <= k < |f| && !(at <= 4 * k < at + SECTOR) ==> f[k] == g[k]
  }

  lemma TouchReserved(f: Image, g: Image, start: Image)
    requires Whole(f) && OthersKept(f, start) && SameExcept(f, g, RESERVED)
    ensures Whole(g) && OthersKept(g, start) && Sector(g, SYSTEM) == Sector(f, SYSTEM)
  {}

  lemma TouchSystem(f: Image, g: Image, start: Image)
    requires Whole(f) && OthersKept(f, start) && SameExcept(f, g, SYSTEM)
    ensures Whole(g) && OthersKept(g, start) && Sector(g, RESERVED) == Sector(f, RESERVED)
  {}

  lemma NothingTouched(f: Image)
    ensures OthersKept(f, f)
  {}

  // Every word of the copied sector is in place.
  ghost predicate CopiedTo(f: Image, at: nat, s: Image, n: nat)
    requires Whole(f) && at <= SYSTEM && at % 4 == 0 && |s| == SECTOR / 4
  {
    forall k :: at / 4 <= k < at / 4 + SECTOR / 4 ==> f[k] == if 4 * k < at + n then s[k - at / 4] else ERASED
  }

  lemma CopiedNone(f: Image, at: nat, s: Image)
    requires Whole(f) && at <= SYSTEM && at % 4 == 0 && |s| == SECTOR / 4
    requires forall k :: at <= 4 * k < at + SECTOR ==> f[k] == ERASED
    ensures CopiedTo(f, at, s, 0)
  {}

  lemma CopiedOne(f: Image, at: nat, s: Image, n: nat, x: bv32)
    requires Whole(f) && at <= SYSTEM && at % 4 == 0 && |s| == SECTOR / 4
    requires n % 4 == 0 && n < SECTOR && CopiedTo(f, at, s, n) && x == s[n / 4]
    ensures var g := f[(at + n) / 4 := Program(f[(at + n) / 4], x)];
            SameExcept(f, g, at) && Whole(g) && CopiedTo(g, at, s, n + 4)
  {
    hide Program;
    var i := (at + n) / 4;
    assert i == at / 4 + n / 4 && f[i] == ERASED;
    var g := f[i := Program(f[i], x)];
    forall k | at / 4 <= k < at / 4 + SECTOR / 4
      ensures g[k] == if 4 * k < at + (n + 4) then s[k - at / 4] else ERASED
    {
      assert f[k] == if 4 * k < at + n then s[k - at / 4] else ERASED;
    }
  }

  lemma CopiedAll(f: Image, at: nat, s: Image)
    requires Whole(f) && at <= SYSTEM && at % 4 == 0 && |s| == SECTOR / 4 && CopiedTo(f, at, s, SECTOR)
    ensures Sector(f, at) == s
  {}

  lemma WrittenInPlace(f: Image, otu: bv32)
    requires Whole(f) && f[(SYSTEM + OTU) / 4] == ERASED
    ensures var g := f[(SYSTEM + OTU) / 4 := Program(ERASED, otu)];
            Whole(g) && OthersKept(g, f) && Sector(g, SYSTEM) == Updated(f, otu)
  {
    hide Program;
  }

  lemma ErasedSector(f: Image, at: nat, s: Image)
    requires Whole(f) && at <= SYSTEM && at % 4 == 0 && |s| == SECTOR / 4 && CopiedTo(f, at, s, 0)
    ensures forall k :: at <= 4 * k < at + SECTOR ==> f[k] == ERASED
  {}

  lemma InAddresses(f: Image, start: Image, otu: bv32)
    requires Whole(f) && Whole(start) && Sector(f, SYSTEM) == Updated(start, otu) && OthersKept(f, start)
    ensures forall k :: 0x9000 <= 4 * k < 0xA000 ==> f[k] == if 4 * k == 0x900c then otu else start[k]
    ensures |f| == |start| && forall k :: 0 <= k < |f| && !(0x8000 <= 4 * k < 0xA000) ==> f[k] == start[k]
  {
    forall k | 0x9000 <= 4 * k < 0xA000
      ensures f[k] == if 4 * k == 0x900c then otu else start[k]
    {
      assert f[k] == Sector(f, SYSTEM)[k - SYSTEM / 4];
      assert start[k] == Sector(start, SYSTEM)[k - SYSTEM / 4];
    }
  }

  // Since its entry number from, the trace has only safe images.
  ghost predicate AllSafe(trace: seq<Image>, from: nat, start: Image, otu: bv32) {
    from <= |trace| && forall t :: from <= t < |trace| ==> Safe(trace[t], start, otu)
  }

  lemma NothingTraced(trace: seq<Image>, start: Image, otu: bv32)
    ensures AllSafe(trace, |trace|, start, otu)
  {}

  lemma TracedSafely(trace: seq<Image>, from: nat, start: Image, otu: bv32)
    requires AllSafe(trace, from, start, otu)
    ensures forall t :: from <= t < |trace| ==> Safe(trace[t], start, otu)
  {}

  lemma OneMoreSafe(trace: seq<Image>, from: nat, start: Image, otu: bv32, f: Image)
    requires AllSafe(trace, from, start, otu) && Safe(f, start, otu)
    ensures AllSafe(trace + [f], from, start, otu)
  {}

  // What makes an image safe: one of the sectors holds all of the old or all of the new data.
  lemma SafeNow(f: Image, start: Image, otu: bv32)
    requires Whole(f) && Whole(start) && OthersKept(f, start)
    requires Sector(f, SYSTEM) == Sector(start, SYSTEM) || Sector(f, SYSTEM) == Updated(start, otu)
             || Sector(f, RESERVED) == Updated(start, otu)
    ensures Safe(f, start, otu)
  {}

  class Flash {
    const words: array<bv32>
    // The image after every single erase and word write.
    ghost var trace: seq<Image>

    constructor (words: array<bv32>)
      ensures this.words == words && trace == []
    {
      this.words := words;
      trace := [];
    }

    method EraseSector(at: nat)
      requires at % 4 == 0 && at + SECTOR <= 4 * words.Length
      modifies this, words
      ensures SameExcept(old(words[..]), words[..], at)
      ensures forall k :: at <= 4 * k < at + SECTOR ==> words[k] == ERASED
      ensures trace == old(trace) + [words[..]]
    {
      forall k | at / 4 <= k < at / 4 + SECTOR / 4 {
        words[k] := ERASED;
      }
      trace := trace + [words[..]];
    }

    method ReadWord(at: nat) returns (data: bv32)
      requires at % 4 == 0 && at < 4 * words.Length
      ensures data == words[at / 4]
    {
      data := words[at / 4];
    }

    method WriteWord(at: nat, data: bv32)
      requires at % 4 == 0 && at < 4 * words.Length
      modifies this, words
      ensures words[..] == old(words[..])[at / 4 := Program(old(words[at / 4]), data)]
      ensures trace == old(trace) + [words[..]]
    {
      words[at / 4] := Program(words[at / 4], data);
      trace := trace + [words[..]];
    }

    method WriteOtuToSystemData(otu: bv32)
      requires Whole(words[..])
      modifies this, words
      ensures Sector(words[..], SYSTEM) == Updated(old(words[..]), otu)
      ensures OthersKept(words[..], old(words[..]))
      // In addresses: only the word at 0xc of the system data changes. The reserved sector ends up erased,
      // unless the word could be written in place.
      ensures forall k :: 0x9000 <= 4 * k < 0xA000 ==> words[k] == if 4 * k == 0x900c then otu else old(words[k])
      ensures forall k :: 0x8000 <= 4 * k < 0x9000 ==>
                words[k] == if old(words[0x2403]) == 0xFFFF_FFFF then old(words[k]) else 0xFFFF_FFFF
      ensures forall k :: 0 <= k < words.Length && !(0x8000 <= 4 * k < 0xA000) ==> words[k] == old(words[k])
      ensures old(trace) < trace
      ensures forall t :: |old(trace)| <= t < |trace| ==> Safe(trace[t], old(words[..]), otu)
    {
      hide CopiedTo, SameExcept, OthersKept, Program, AllSafe, Sector, Updated, Safe;
      ghost var start, before := words[..], |trace|;
      NothingTouched(start);
      NothingTraced(trace, start, otu);
      var data := ReadWord(SYSTEM + OTU);
      if data == ERASED {
        WriteWord(SYSTEM + OTU, otu);
        WrittenInPlace(start, otu);
        assert forall k :: 0x8000 <= 4 * k < 0x9000 ==> words[k] == start[k];
        SafeNow(words[..], start, otu);
        OneMoreSafe(old(trace), before, start, otu, words[..]);
      } else {
        Erase(RESERVED, otu, start, before);
        BackUp(otu, start, before);
        Erase(SYSTEM, otu, start, before);
        Restore(otu, start, before);
        Erase(RESERVED, otu, start, before);
        ErasedSector(words[..], RESERVED, Updated(start, otu));
      }
      InAddresses(words[..], start, otu);
      TracedSafely(trace, before, start, otu);
    }

    // Erasing one of the two sectors while the other holds the data, or its copy.
    method Erase(at: nat, otu: bv32, ghost start: Image, ghost before: nat)
      requires at == RESERVED || at == SYSTEM
      requires Whole(words[..]) && Whole(start) && OthersKept(words[..], start) && AllSafe(trace, before, start, otu)
      requires at == RESERVED ==>
                 Sector(words[..], SYSTEM) == Sector(start, SYSTEM) || Sector(words[..], SYSTEM) == Updated(start, otu)
      requires at == SYSTEM ==> Sector(words[..], RESERVED) == Updated(start, otu)
      modifies this, words
      ensures Whole(words[..]) && OthersKept(words[..], start) && AllSafe(trace, before, start, otu)
      ensures at == RESERVED ==> Sector(words[..], SYSTEM) == old(Sector(words[..], SYSTEM))
      ensures at == SYSTEM ==> Sector(words[..], RESERVED) == Updated(start, otu)
      ensures CopiedTo(words[..], at, Updated(start, otu), 0)
      ensures trace == old(trace) + [words[..]]
    {
      hide CopiedTo, SameExcept, OthersKept, Program, AllSafe, Sector, Updated, Safe;
      EraseSector(at);
      CopiedNone(words[..], at, Updated(start, otu));
      if at == RESERVED {
        TouchReserved(old(words[..]), words[..], start);
      } else {
        TouchSystem(old(words[..]), words[..], start);
      }
      SafeNow(words[..], start, otu);
      OneMoreSafe(old(trace), before, start, otu, words[..]);
    }

    // Copy the system data, with the new word in it, to the erased reserved sector.
    method BackUp(otu: bv32, ghost start: Image, ghost before: nat)
      requires Whole(words[..]) && Whole(start) && OthersKept(words[..], start) && AllSafe(trace, before, start, otu)
      requires Sector(words[..], SYSTEM) == Sector(start, SYSTEM) && CopiedTo(words[..], RESERVED, Updated(start, otu), 0)
      modifies this, words
      ensures Whole(words[..]) && OthersKept(words[..], start) && AllSafe(trace, before, start, otu)
      ensures Sector(words[..], RESERVED) == Updated(start, otu) && old(trace) <= trace
    {
      hide CopiedTo, SameExcept, OthersKept, Program, AllSafe, Safe;
      ghost var s := Updated(start, otu);
      var i := 0;
      while i < SECTOR
        invariant i <= SECTOR && i % 4 == 0 && Whole(words[..]) && OthersKept(words[..], start)
        invariant Sector(words[..], SYSTEM) == Sector(start, SYSTEM) && CopiedTo(words[..], RESERVED, s, i)
        invariant AllSafe(trace, before, start, otu) && old(trace) <= trace
      {
        ghost var f, was := words[..], trace;
        var data := ReadWord(SYSTEM + i);
        assert data == Sector(f, SYSTEM)[i / 4];
        if i == OTU {
          data := otu;
        }
        CopiedOne(f, RESERVED, s, i, data);
        WriteWord(RESERVED + i, data);
        TouchReserved(f, words[..], start);
        SafeNow(words[..], start, otu);
        OneMoreSafe(was, before, start, otu, words[..]);
        i := i + 4;
      }
      CopiedAll(words[..], RESERVED, s);
    }

    // Copy the backup to the erased system sector.
    method Restore(otu: bv32, ghost start: Image, ghost before: nat)
      requires Whole(words[..]) && Whole(start) && OthersKept(words[..], start) && AllSafe(trace, before, start, otu)
      requires Sector(words[..], RESERVED) == Updated(start, otu) && CopiedTo(words[..], SYSTEM, Updated(start, otu), 0)
      modifies this, words
      ensures Whole(words[..]) && OthersKept(words[..], start) && AllSafe(trace, before, start, otu)
      ensures Sector(words[..], SYSTEM) == Updated(start, otu) && old(trace) <= trace
    {
      hide CopiedTo, SameExcept, OthersKept, Program, AllSafe, Safe, Updated;
      ghost var s := Updated(start, otu);
      var i := 0;
      while i < SECTOR
        invariant i <= SECTOR && i % 4 == 0 && Whole(words[..]) && OthersKept(words[..], start)
        invariant Sector(words[..], RESERVED) == s && CopiedTo(words[..], SYSTEM, s, i)
        invariant AllSafe(trace, before, start, otu) && old(trace) <= trace
      {
        ghost var f, was := words[..], trace;
        var data := ReadWord(RESERVED + i);
        assert data == Sector(f, RESERVED)[i / 4];
        CopiedOne(f, SYSTEM, s, i, data);
        WriteWord(SYSTEM + i, data);
        TouchSystem(f, words[..], start);
        SafeNow(words[..], start, otu);
        OneMoreSafe(was, before, start, otu, words[..]);
        i := i + 4;
      }
      CopiedAll(words[..], SYSTEM, s);
    }
  }
}
