/**
 The firmware receiver behind the YMODEM transfer: it cuts the window
 [imageOffset, imageOffset + imageLen) out of a stream of blocks, keeps the first eight bytes
 of the window back as the signature and burns the rest into flash.
 */
module Ymodem {
  import opened ByteSum
  import opened Options

  const SECTOR := 4096

  // What the file header says about the image to fetch, and where it goes in flash.
  datatype Header = Header(addr: nat, offset: nat, len: nat, checksum: nat)

  function Sectors(len: nat): nat
    requires len > 0
  {
    (len - 1) / SECTOR + 1
  }

  // The flash area an image occupies, in whole sectors.
  function Area(len: nat): (n: nat)
    requires len > 0
    ensures n % SECTOR == 0 && len <= n < len + SECTOR && SECTOR <= n
  {
    WholeSectors(len);
    Sectors(len) * SECTOR
  }

  lemma WholeSectors(len: nat)
    requires len > 0
    ensures Sectors(len) * SECTOR % SECTOR == 0 && len <= Sectors(len) * SECTOR < len + SECTOR
  {}

  // Counting sectors of 4096 bytes from at, the one that holds k begins inside the image.
  predicate Covered(at: nat, len: nat, k: nat) {
    at <= k && (k - at) / 4096 * 4096 < len
  }

  // Some byte of the image lies in the sector that holds k.
  predicate SharesSector(at: nat, len: nat, k: nat) {
    exists j: nat :: at <= j < at + len && SectorOf(j) == SectorOf(k)
  }

  function SectorOf(k: nat): nat {
    k / 4096
  }

  lemma AreaHolds(len: nat, k: nat)
    requires len > 0
    ensures k < Area(len) <==> k / 4096 * 4096 < len
  {
    assert k / 4096 * 4096 <= k < k / 4096 * 4096 + 4096;
    var n := Area(len) / SECTOR;
    assert n * 4096 == Area(len);
    hide Area;
    if k / 4096 < n {
      assert (k / 4096 + 1) * 4096 <= n * 4096;
    } else {
      assert n * 4096 <= k / 4096 * 4096;
    }
  }

  lemma OtherSector(at: nat, len: nat, k: nat)
    requires len > 0 && at % 4096 == 0 && Covered(at, len, k)
    ensures SharesSector(at, len, k)
  {
    var j := at + (k - at) / 4096 * 4096;
    assert k == at / 4096 * 4096 + (k - at);
    assert SectorOf(j) == SectorOf(k);
  }

  lemma CoveredArea(at: nat, len: nat, k: nat)
    requires len > 0
    ensures Covered(at, len, k) <==> at <= k < at + Area(len)
    ensures at % 4096 == 0 && Covered(at, len, k) ==> SharesSector(at, len, k)
  {
    if at <= k {
      AreaHolds(len, k - at);
    }
    if at % 4096 == 0 && Covered(at, len, k) {
      OtherSector(at, len, k);
    }
  }

  // What the source checks of the target area, and what keeps its 32-bit offsets from wrapping.
  predicate Fits(h: Header, flashSize: nat) {
    0 < h.len && h.offset + h.len < WORD && h.addr % SECTOR == 0 && h.addr + Area(h.len) <= flashSize
  }

  /// Flash

  // Burning can only clear bits.
  function Burn(was: bv8, x: bv8): (r: bv8)
    ensures was == 0xFF ==> r == x
  {
    was & x
  }

  method FlashWrite(flash: array<bv8>, at: nat, data: array<bv8>, from: nat, n: nat)
    requires at + n <= flash.Length && from + n <= data.Length && data != flash
    modifies flash
    ensures forall k :: 0 <= k < flash.Length ==>
              flash[k] == if at <= k < at + n then Burn(old(flash[k]), data[from + k - at]) else old(flash[k])
  {
    hide Burn;
    var i := 0;
    while i < n
      invariant i <= n
      invariant forall k :: 0 <= k < flash.Length ==>
                  flash[k] == if at <= k < at + i then Burn(old(flash[k]), data[from + k - at]) else old(flash[k])
    {
      flash[at + i] := Burn(flash[at + i], data[from + i]);
      i := i + 1;
    }
  }

  method EraseSector(flash: array<bv8>, at: nat)
    requires at + SECTOR <= flash.Length
    modifies flash
    ensures forall k :: 0 <= k < flash.Length ==> flash[k] == if at <= k < at + SECTOR then 0xFF else old(flash[k])
  {
    var i := 0;
    while i < SECTOR
      invariant i <= SECTOR
      invariant forall k :: 0 <= k < flash.Length ==> flash[k] == if at <= k < at + i then 0xFF else old(flash[k])
    {
      flash[at + i] := 0xFF;
      i := i + 1;
    }
  }

  method EraseTarget(flash: array<bv8>, at: nat, len: nat)
    requires len > 0 && at + Area(len) <= flash.Length
    modifies flash
    ensures forall k :: 0 <= k < flash.Length ==>
              flash[k] == if at <= k < at + Area(len) then 0xFF else old(flash[k])
    // A sector is erased if it begins inside the image; one that holds no byte of it does not change.
    ensures forall k :: 0 <= k < flash.Length ==>
              flash[k] == if Covered(at, len, k) then 0xFF else old(flash[k])
    ensures at % 4096 == 0 ==>
              forall k :: 0 <= k < flash.Length && !SharesSector(at, len, k) ==> flash[k] == old(flash[k])
  {
    var i := 0;
    while i < Sectors(len)
      invariant i <= Sectors(len)
      invariant forall k :: 0 <= k < flash.Length ==>
                  flash[k] == if at <= k < at + i * SECTOR then 0xFF else old(flash[k])
    {
      EraseSector(flash, at + i * SECTOR);
      i := i + 1;
    }
    forall k: nat | k < flash.Length
      ensures Covered(at, len, k) <==> at <= k < at + Area(len)
      ensures at % 4096 == 0 && Covered(at, len, k) ==> SharesSector(at, len, k)
    {
      CoveredArea(at, len, k);
    }
  }

  /// The stream and the window in it

  function Total(lens: seq<nat>): nat {
    if lens == [] then 0 else Total(lens[..|lens| - 1]) + lens[|lens| - 1]
  }

  // How much of the window the first t bytes of the stream reach.
  function Taken(t: nat, offset: nat, len: nat): nat {
    if t <= offset then 0 else if t <= offset + len then t - offset else len
  }

  // The block from t to e ends past the window, but begins before the signature is complete.
  predicate Crowded(t: nat, e: nat, offset: nat, len: nat) {
    offset < e && t < offset + 8 && offset + len < e && t < offset + len
  }

  // No block does.
  predicate Straight(lens: seq<nat>, offset: nat, len: nat) {
    lens == [] ||
    var rest := lens[..|lens| - 1];
    Straight(rest, offset, len) && !Crowded(Total(rest), Total(lens), offset, len)
  }

  lemma StraightStep(lens: seq<nat>, n: nat, offset: nat, len: nat)
    ensures var t, e := Total(lens), Total(lens + [n]);
            && e == t + n
            && (Straight(lens + [n], offset, len) <==> Straight(lens, offset, len) && !Crowded(t, e, offset, len))
            && (Crowded(t, e, offset, len) ==> offset + len < e)
  {
    assert (lens + [n])[..|lens|] == lens;
  }

  // An image of 1031 bytes or more is never crowded by blocks of at most 1024.
  lemma {:induction false} LongImagesAreStraight(lens: seq<nat>, offset: nat, len: nat)
    requires len >= 1031 && forall i :: 0 <= i < |lens| ==> lens[i] <= 1024
    ensures Straight(lens, offset, len)
  {
    if lens != [] {
      LongImagesAreStraight(lens[..|lens| - 1], offset, len);
    }
  }

  // One of 1030 bytes can be.
  lemma ShortImageCrowded()
    ensures !Straight([1024, 1024], 1017, 1030)
  {
    var lens: seq<nat> := [1024, 1024];
    assert lens[..1] == [1024] && Total([1024]) == Total([]) + 1024;
    assert Crowded(Total(lens[..1]), Total(lens), 1017, 1030);
  }

  // Where the flash stands when that much of the window has gone by.
  ghost predicate Burned(flash: seq<bv8>, before: seq<bv8>, addr: nat, len: nat, file: seq<bv8>, offset: nat, taken: nat)
    requires 0 < len && |flash| == |before|
  {
    && taken <= len && (taken > 0 ==> offset + taken <= |file|)
    && forall k :: 0 <= k < |flash| ==>
         flash[k] == if k < addr || k >= addr + Area(len) then before[k]
                     else if 8 <= k - addr < taken then file[offset + k - addr]
                     else 0xFF
  }

  ghost predicate Signed(signature: seq<bv8>, file: seq<bv8>, offset: nat, taken: nat)
    requires |signature| >= 8
  {
    && (taken > 0 ==> offset + taken <= |file|)
    && forall i :: 0 <= i < 8 && i < taken ==> signature[i] == file[offset + i]
  }

  lemma SignedStays(signature: seq<bv8>, file: seq<bv8>, block: seq<bv8>, offset: nat, t: nat, taken: nat)
    requires |signature| >= 8 && Signed(signature, file, offset, t)
    requires taken == t || (8 <= t <= taken && offset + taken <= |file + block|)
    ensures Signed(signature, file + block, offset, taken)
  {}

  // Bytes beside the window and bytes of the signature change nothing in flash.
  lemma NothingToBurn(flash: seq<bv8>, before: seq<bv8>, addr: nat, len: nat, file: seq<bv8>, block: seq<bv8>,
                      offset: nat, t: nat, taken: nat)
    requires 0 < len && |flash| == |before| && Burned(flash, before, addr, len, file, offset, t)
    requires t <= taken <= 8 || taken == t
    requires taken <= len && (taken > 0 ==> offset + taken <= |file + block|)
    ensures Burned(flash, before, addr, len, file + block, offset, taken)
  {}

  // Burning the next share of the window onto erased flash.
  lemma BurnMore(flash: seq<bv8>, flash': seq<bv8>, before: seq<bv8>, addr: nat, len: nat, file: seq<bv8>,
                 block: seq<bv8>, offset: nat, t: nat, taken: nat, bufOffset: nat)
    requires 0 < len && |flash| == |flash'| == |before| && Burned(flash, before, addr, len, file, offset, t)
    requires 8 < taken <= len && t < taken && offset + taken <= |file + block|
    requires var first := if t > 8 then t else 8;
             && |file| + bufOffset == offset + first && bufOffset + (taken - first) <= |block|
             && addr + taken <= |flash|
             && forall k :: 0 <= k < |flash| ==>
                  flash'[k] == if addr + first <= k < addr + taken then Burn(flash[k], block[bufOffset + k - addr - first])
                               else flash[k]
    ensures Burned(flash', before, addr, len, file + block, offset, taken)
  {
    hide Burn;
    var f := file + block;
    var first := if t > 8 then t else 8;
    forall k | 0 <= k < |flash| && addr + first <= k < addr + taken
      ensures flash'[k] == f[offset + k - addr]
    {
      assert flash[k] == 0xFF;
      assert f[offset + k - addr] == block[bufOffset + k - addr - first];
    }
  }

  // The two together.
  lemma BurnedOn(flash: seq<bv8>, flash': seq<bv8>, before: seq<bv8>, addr: nat, len: nat, file: seq<bv8>,
                 block: seq<bv8>, offset: nat, t: nat, taken: nat, bufOffset: nat, writeLen: nat)
    requires 0 < len && |flash| == |flash'| == |before| && Burned(flash, before, addr, len, file, offset, t)
    requires t <= taken <= len && (taken > 0 ==> offset + taken <= |file + block|)
    requires writeLen == 0 ==> flash' == flash && (taken <= 8 || taken == t)
    requires var first := if t > 8 then t else 8;
             writeLen > 0 ==>
               && first + writeLen == taken && |file| + bufOffset == offset + first && bufOffset + writeLen <= |block|
               && addr + taken <= |flash|
               && forall k :: 0 <= k < |flash| ==>
                    flash'[k] == if addr + first <= k < addr + first + writeLen
                                 then Burn(flash[k], block[bufOffset + k - addr - first]) else flash[k]
    ensures Burned(flash', before, addr, len, file + block, offset, taken)
  {
    hide Burned, Burn;
    if writeLen == 0 {
      NothingToBurn(flash, before, addr, len, file, block, offset, t, taken);
    } else {
      BurnMore(flash, flash', before, addr, len, file, block, offset, t, taken, bufOffset);
    }
  }

  // Nothing that a boot loader would take for a signature.
  ghost predicate HeadBlank(flash: seq<bv8>, addr: nat) {
    forall k :: addr <= k < addr + 8 && k < |flash| ==> flash[k] == 0xFF
  }

  ghost predicate SameOutside(flash: seq<bv8>, before: seq<bv8>, addr: nat, len: nat)
    requires 0 < len && |flash| == |before|
  {
    forall k :: 0 <= k < |flash| && !(addr <= k < addr + Area(len)) ==> flash[k] == before[k]
  }

  lemma BurnedMeans(flash: seq<bv8>, before: seq<bv8>, addr: nat, len: nat, file: seq<bv8>, offset: nat, taken: nat)
    requires 0 < len && |flash| == |before| && Burned(flash, before, addr, len, file, offset, taken)
    ensures HeadBlank(flash, addr) && SameOutside(flash, before, addr, len)
  {}

  lemma SignatureCompletes(flash: seq<bv8>, flash': seq<bv8>, before: seq<bv8>, addr: nat, len: nat, file: seq<bv8>,
                           offset: nat, signature: seq<bv8>)
    requires 8 < len && |flash| == |flash'| == |before| && |signature| == 9 && addr + Area(len) <= |flash|
    requires Burned(flash, before, addr, len, file, offset, len) && Signed(signature, file, offset, len)
    requires forall k :: 0 <= k < |flash| ==>
               flash'[k] == if addr <= k < addr + 8 then Burn(flash[k], signature[k - addr]) else flash[k]
    ensures flash'[addr..addr + len] == file[offset..offset + len]
    ensures SameOutside(flash', before, addr, len)
  {
    hide Burn;
    forall k | addr <= k < addr + len
      ensures flash'[k] == file[offset + k - addr]
    {
      assert k < addr + 8 ==> signature[k - addr] == file[offset + (k - addr)];
    }
  }

  lemma ErasedHead(flash: seq<bv8>, flash': seq<bv8>, before: seq<bv8>, addr: nat, len: nat, file: seq<bv8>, offset: nat)
    requires 8 < len && |flash| == |flash'| == |before| && addr + Area(len) <= |flash|
    requires Burned(flash, before, addr, len, file, offset, len)
    requires forall k :: 0 <= k < |flash| ==> flash'[k] == if addr <= k < addr + SECTOR then 0xFF else flash[k]
    ensures HeadBlank(flash', addr) && SameOutside(flash', before, addr, len)
  {}

  class Receiver {
    const flash: array<bv8>
    const signature: array<bv8>
    var hdFlags: bool
    var imageAddress: nat
    var imageOffset: nat
    var imageLen: nat
    var checksum: nat
    var fileOffset: nat
    var flashOffset: nat
    var flashWriteLen: nat
    var sigFlags: bool
    var sigCnt: nat
    // The stream so far, the lengths of its blocks, and the flash as it was at the start.
    ghost var file: seq<bv8>
    ghost var blocks: seq<nat>
    ghost const before: seq<bv8>

    ghost function Seen(): nat
      reads this
    {
      Taken(|file|, imageOffset, imageLen)
    }

    // What the counters and the signature buffer say of a stream that went by without crowding.
    ghost predicate Standing(was: seq<bv8>)
      requires signature.Length == 9
      reads this, signature
    {
      var t := Taken(|was|, imageOffset, imageLen);
      && flashOffset == t
      && flashWriteLen == (if t > 8 then t - 8 else 0)
      && sigFlags == (t >= 8)
      && (!sigFlags ==> sigCnt == t)
      && Signed(signature[..], was, imageOffset, t)
    }

    ghost predicate Received()
      requires imageLen > 0 && signature.Length == 9
      requires imageAddress + Area(imageLen) <= flash.Length == |before|
      reads this, flash, signature
    {
      Standing(file) && Burned(flash[..], before, imageAddress, imageLen, file, imageOffset, Seen())
    }

    ghost predicate Valid()
      reads this, flash, signature
    {
      && signature.Length == 9 && signature != flash && |before| == flash.Length
      && fileOffset == |file| == Total(blocks) < WORD
      && (!hdFlags ==> file == [] && blocks == [] && flashOffset == flashWriteLen == sigCnt == 0 && !sigFlags
                       && flash[..] == before)
      && (hdFlags ==>
            && Fits(Header(imageAddress, imageOffset, imageLen, checksum), flash.Length)
            && if Straight(blocks, imageOffset, imageLen) then Received()
               else |file| > imageOffset + imageLen && flashWriteLen != (imageLen - 8) % WORD)
    }

    constructor (flash: array<bv8>)
      ensures Valid() && !hdFlags && this.flash == flash && before == flash[..] && fresh(signature)
    {
      this.flash := flash;
      signature := new bv8[9](_ => 0);
      hdFlags, sigFlags := false, false;
      imageAddress, imageOffset, imageLen, checksum := 0, 0, 0, 0;
      fileOffset, flashOffset, flashWriteLen, sigCnt := 0, 0, 0, 0;
      file, blocks, before := [], [], flash[..];
    }

    // The first block: erase the target area and remember what the header says.
    method Begin(h: Header)
      requires Valid() && !hdFlags && Fits(h, flash.Length)
      modifies this, flash
      ensures Valid() && hdFlags && Header(imageAddress, imageOffset, imageLen, checksum) == h
      ensures file == old(file) && blocks == old(blocks)
    {
      imageAddress, imageLen, checksum := h.addr, h.len, h.checksum;
      EraseTarget(flash, imageAddress, imageLen);
      imageOffset := h.offset;
      hdFlags := true;
    }

    method WriteBlock(buf: array<bv8>, len: nat, found: Option<Header>) returns (ret: nat)
      requires Valid() && 8 <= len <= 1024 && len <= buf.Length && |file| + len < WORD
      requires buf != flash && buf != signature
      requires !hdFlags && found.Some? ==> Fits(found.value, flash.Length)
      modifies this, flash, signature
      ensures Valid()
      ensures ret == 0 <==> old(hdFlags) || found.Some?
      ensures ret == 0 ==> hdFlags && file == old(file) + buf[..len] && blocks == old(blocks) + [len]
      ensures var h := Header(imageAddress, imageOffset, imageLen, checksum);
              h == if !old(hdFlags) && found.Some? then found.value
                   else old(Header(imageAddress, imageOffset, imageLen, checksum))
    {
      if !hdFlags {
        if found.None? {
          return 1;
        }
        Begin(found.value);
      }
      Take(buf, len);
      ret := 0;
    }

    // How the fields stand once a block's place in the window is settled and its share of the
    // signature is taken: what is left to burn is buf[bufOffset..bufOffset + writeLen).
    ghost predicate Settled(start: nat, len: nat, t: nat, bufOffset: nat, writeLen: nat)
      requires signature.Length == 9
      reads this, signature
    {
      var taken := Seen();
      && sigFlags == (taken >= 8) && (!sigFlags ==> sigCnt == taken)
      && flashOffset + writeLen == taken >= t
      && flashWriteLen == (if t > 8 then t - 8 else 0)
      && (writeLen == 0 ==> taken <= 8 || taken == t)
      && (writeLen > 0 ==> flashOffset == (if t > 8 then t else 8) && start + bufOffset == imageOffset + flashOffset)
      && bufOffset + writeLen <= len
      && Signed(signature[..], file, imageOffset, taken)
    }

    // The same for a block that the image ends in too early.
    ghost predicate Botched(len: nat, bufOffset: nat, writeLen: nat)
      requires imageLen > 0
      reads this
    {
      && (writeLen > 0 ==> flashOffset + writeLen <= Area(imageLen) && bufOffset + writeLen <= len)
      && flashWriteLen + writeLen != (imageLen - 8) % WORD
    }

    // The window starts in this block.
    method Open(buf: array<bv8>, len: nat, ghost was: seq<bv8>) returns (bufOffset: nat, writeLen: nat)
      requires 8 <= len <= 1024 && len <= buf.Length && buf != signature && signature.Length == 9
      requires imageLen > 0 && file == was + buf[..len] && |was| == fileOffset <= imageOffset < fileOffset + len
      requires Standing(was)
      modifies this`fileOffset, this`flashOffset, this`sigFlags, this`sigCnt, signature
      ensures fileOffset == |file|
      ensures if imageOffset + imageLen < |file| then Botched(len, bufOffset, writeLen)
              else Settled(|was|, len, 0, bufOffset, writeLen)
    {
      hide Area;
      bufOffset := imageOffset - fileOffset;
      writeLen := len - bufOffset;
      fileOffset := fileOffset + len;
      if !sigFlags {
        if writeLen < 8 {
          sigCnt := writeLen;
        } else {
          sigCnt := 8;
          sigFlags := true;
        }
        Copy(signature, 0, buf, bufOffset, sigCnt);
        bufOffset := bufOffset + sigCnt;
        flashOffset := flashOffset + sigCnt;
        writeLen := writeLen - sigCnt;
      }
    }

    // This block lies inside the window.
    method Carry(buf: array<bv8>, len: nat, ghost was: seq<bv8>) returns (bufOffset: nat, writeLen: nat)
      requires 8 <= len <= 1024 && len <= buf.Length && buf != signature && signature.Length == 9
      requires file == was + buf[..len] && |was| == fileOffset > imageOffset && fileOffset + len <= imageOffset + imageLen
      requires Standing(was)
      modifies this`fileOffset, this`flashOffset, this`sigFlags, this`sigCnt, signature
      ensures fileOffset == |file|
      ensures Settled(|was|, len, |was| - imageOffset, bufOffset, writeLen)
    {
      bufOffset := 0;
      writeLen := len;
      fileOffset := fileOffset + len;
      if !sigFlags {
        Copy(signature, sigCnt, buf, bufOffset, 8 - sigCnt);
        sigCnt := 8 - sigCnt;
        bufOffset := bufOffset + sigCnt;
        flashOffset := flashOffset + sigCnt;
        writeLen := writeLen - sigCnt;
        sigFlags := true;
      }
    }

    // The window ends in this block, or the block lies outside of it.
    method Finish(buf: array<bv8>, len: nat, ghost was: seq<bv8>, ghost straight: bool) returns (writeLen: nat)
      requires 8 <= len <= 1024 && len <= buf.Length && signature.Length == 9 && imageLen > 0
      requires file == was + buf[..len] && |was| == fileOffset
      requires |file| <= imageOffset || (imageOffset < |was| && imageOffset + imageLen < |file|)
      requires !straight ==> fileOffset >= imageOffset + imageLen
      requires straight ==> Standing(was)
      modifies this`fileOffset
      ensures fileOffset == |file| && (!straight ==> writeLen == 0)
      ensures straight ==>
                if Crowded(|was|, |file|, imageOffset, imageLen) then Botched(len, 0, writeLen)
                else Settled(|was|, len, Taken(|was|, imageOffset, imageLen), 0, writeLen)
    {
      hide Area, Signed;
      writeLen := 0;
      if imageOffset + imageLen > fileOffset && imageOffset + imageLen < fileOffset + len {
        writeLen := imageOffset + imageLen - fileOffset;
      }
      fileOffset := fileOffset + len;
      if straight && !Crowded(|was|, |file|, imageOffset, imageLen) {
        SignedStays(signature[..], was, buf[..len], imageOffset, Taken(|was|, imageOffset, imageLen), Seen());
      }
    }

    // The four branches on where the block lies.
    method Settle(buf: array<bv8>, len: nat, ghost straight: bool) returns (bufOffset: nat, writeLen: nat)
      requires 8 <= len <= 1024 && len <= buf.Length && buf != signature && signature.Length == 9 && imageLen > 0
      requires fileOffset == |file| && if straight then Standing(file) else |file| > imageOffset + imageLen
      modifies this`fileOffset, this`flashOffset, this`sigFlags, this`sigCnt, this`file, this`blocks, signature
      ensures file == old(file) + buf[..len] && blocks == old(blocks) + [len] && fileOffset == |file|
      ensures !straight ==> writeLen == 0
      ensures straight ==>
                if Crowded(|old(file)|, |file|, imageOffset, imageLen) then Botched(len, bufOffset, writeLen)
                else Settled(|old(file)|, len, old(Seen()), bufOffset, writeLen)
    {
      hide Signed, Area;
      file, blocks := file + buf[..len], blocks + [len];
      bufOffset, writeLen := 0, 0;
      if imageOffset >= fileOffset && imageOffset < fileOffset + len {
        bufOffset, writeLen := Open(buf, len, old(file));
      } else if imageOffset < fileOffset && imageOffset + imageLen >= fileOffset + len {
        bufOffset, writeLen := Carry(buf, len, old(file));
      } else {
        writeLen := Finish(buf, len, old(file), straight);
      }
    }

    method Take(buf: array<bv8>, len: nat)
      requires Valid() && hdFlags && 8 <= len <= 1024 && len <= buf.Length && |file| + len < WORD
      requires buf != flash && buf != signature
      modifies this, flash, signature
      ensures Valid() && hdFlags && file == old(file) + buf[..len] && blocks == old(blocks) + [len]
      ensures Header(imageAddress, imageOffset, imageLen, checksum) ==
              old(Header(imageAddress, imageOffset, imageLen, checksum))
    {
      hide Burned, Signed, Area, Straight, Crowded, Total;
      var bufOffset, writeLen := Settle(buf, len, Straight(blocks, imageOffset, imageLen));
      StraightStep(old(blocks), len, imageOffset, imageLen);
      BurnShare(buf, len, bufOffset, writeLen, Straight(blocks, imageOffset, imageLen), old(file), old(Seen()));
    }

    // The block's share of the image behind the signature goes to the flash.
    method BurnShare(buf: array<bv8>, len: nat, bufOffset: nat, writeLen: nat, ghost straight: bool, ghost was: seq<bv8>,
                     ghost t: nat)
      requires len <= buf.Length && buf != flash && signature != flash && signature.Length == 9
      requires |before| == flash.Length && Fits(Header(imageAddress, imageOffset, imageLen, checksum), flash.Length)
      requires file == was + buf[..len]
      requires if straight then
                 && t == Taken(|was|, imageOffset, imageLen) && Settled(|was|, len, t, bufOffset, writeLen)
                 && Burned(flash[..], before, imageAddress, imageLen, was, imageOffset, t)
               else Botched(len, bufOffset, writeLen)
      modifies this`flashOffset, this`flashWriteLen, flash
      ensures if straight then Received() else flashWriteLen != (imageLen - 8) % WORD
    {
      hide Burned, Signed, Area;
      if writeLen > 0 {
        FlashWrite(flash, imageAddress + flashOffset, buf, bufOffset, writeLen);
        flashOffset := flashOffset + writeLen;
        flashWriteLen := flashWriteLen + writeLen;
      }
      if straight {
        BurnedOn(old(flash[..]), flash[..], before, imageAddress, imageLen, was, buf[..len], imageOffset,
                 t, Seen(), bufOffset, writeLen);
      }
    }

    // The signature goes in last: only over a complete image with the promised checksum.
    method SetSignature() returns (ret: nat)
      requires Valid()
      modifies flash
      ensures ret == 0 <==> Complete() && Sum(Image()) % WORD == checksum
      ensures ret == 0 ==> flash[imageAddress..imageAddress + imageLen] == Image()
      ensures ret != 0 && Straight(blocks, imageOffset, imageLen) && hdFlags ==> HeadBlank(flash[..], imageAddress)
      ensures ret != 0 && !Complete() ==> flash[..] == old(flash[..])
      ensures hdFlags && Straight(blocks, imageOffset, imageLen) ==>
                SameOutside(flash[..], before, imageAddress, imageLen)
    {
      hide Area, Straight, Sum, Burned, Signed, HeadBlank, SameOutside;
      ret := 1;
      if hdFlags && Straight(blocks, imageOffset, imageLen) {
        BurnedMeans(flash[..], before, imageAddress, imageLen, file, imageOffset, Seen());
      }
      if flashWriteLen <= 0 || flashWriteLen != (imageLen - 8) % WORD {
        return;
      }
      var ok := VerifyChecksum();
      if ok {
        FlashWrite(flash, imageAddress, signature, 0, 8);
        SignatureCompletes(old(flash[..]), flash[..], before, imageAddress, imageLen, file, imageOffset, signature[..]);
        ret := 0;
      } else {
        EraseSector(flash, imageAddress);
        ErasedHead(old(flash[..]), flash[..], before, imageAddress, imageLen, file, imageOffset);
      }
    }

    method VerifyChecksum() returns (ok: bool)
      requires Valid() && Complete()
      ensures ok <==> Sum(Image()) % WORD == checksum
    {
      hide Straight, Sum, Burned, Signed;
      var sum := SumInto(flash, imageAddress + 8, flashWriteLen, 0);
      sum := SumInto(signature, 0, 8, sum);
      SumOfImage(sum);
      ok := sum == checksum;
    }

    // The whole image went by, and no block was crowded.
    ghost predicate Complete()
      reads this
    {
      hdFlags && Straight(blocks, imageOffset, imageLen) && imageLen > 8 && imageOffset + imageLen <= |file|
    }

    ghost function Image(): seq<bv8>
      requires Complete()
      reads this
    {
      file[imageOffset..imageOffset + imageLen]
    }

    // The count of burned bytes reaches its goal exactly when the stream covers the window, and then
    // the signature buffer and the flash hold all of it.
    lemma WindowCaught()
      requires Valid() && hdFlags && imageLen > 8
      ensures flashWriteLen == imageLen - 8 <==> Complete()
      ensures Complete() ==>
                && signature[0..8] == file[imageOffset..imageOffset + 8]
                && flash[imageAddress + 8..imageAddress + imageLen] == file[imageOffset + 8..imageOffset + imageLen]
    {
      hide Straight;
    }

    // The bytes in flash and the signature make up the image.
    lemma SumOfImage(sum: nat)
      requires Valid() && Complete()
      requires var burned := Sum(flash[imageAddress + 8..imageAddress + 8 + (imageLen - 8)]) % WORD;
               sum == (burned + Sum(signature[0..8])) % WORD
      ensures sum == Sum(Image()) % WORD
    {
      var head, tail := signature[0..8], flash[imageAddress + 8..imageAddress + imageLen];
      WindowCaught();
      hide Burned, Signed, Straight, Sum;
      TwoParts(file, imageOffset, imageLen);
      SumJoins(head, tail);
      AddWraps(Sum(tail), Sum(head));
    }

    // A transfer without errors: the stream arrives block by block, then the signature is set.
    method Upload(stream: seq<bv8>, lens: seq<nat>, h: Header) returns (ret: nat)
      requires Valid() && !hdFlags && Fits(h, flash.Length)
      requires lens != [] && Total(lens) == |stream| < WORD
      requires forall i :: 0 <= i < |lens| ==> 8 <= lens[i] <= 1024
      modifies this, flash, signature
      ensures ret == 0 <==>
                && Straight(lens, h.offset, h.len) && 8 < h.len && h.offset + h.len <= |stream|
                && Sum(stream[h.offset..h.offset + h.len]) % WORD == h.checksum
      ensures h.len >= 1031 ==> Straight(lens, h.offset, h.len)
      ensures ret == 0 ==> flash[h.addr..h.addr + h.len] == stream[h.offset..h.offset + h.len]
      ensures ret != 0 && Straight(lens, h.offset, h.len) ==>
                HeadBlank(flash[..], h.addr)
    {
      hide Straight, Total, Sum, Area, Burned, Signed;
      ReceiveAll(stream, lens, h);
      if h.len >= 1031 {
        LongImagesAreStraight(lens, h.offset, h.len);
      }
      ret := SetSignature();
    }

    method ReceiveAll(stream: seq<bv8>, lens: seq<nat>, h: Header)
      requires Valid() && !hdFlags && Fits(h, flash.Length)
      requires lens != [] && Total(lens) == |stream| < WORD
      requires forall i :: 0 <= i < |lens| ==> 8 <= lens[i] <= 1024
      modifies this, flash, signature
      ensures Valid() && hdFlags && file == stream && blocks == lens
      ensures Header(imageAddress, imageOffset, imageLen, checksum) == h
    {
      hide Straight, Area, Burned, Signed, Standing, Total;
      var buf := new bv8[1024];
      var i := 0;
      assert stream[..0] == [] && lens[..0] == [];
      while i < |lens|
        invariant i <= |lens| && Valid() && file <= stream && blocks == lens[..i]
        invariant if i == 0 then !hdFlags else hdFlags && Header(imageAddress, imageOffset, imageLen, checksum) == h
      {
        ReceiveOne(buf, stream, lens, h, i);
        i := i + 1;
      }
      assert lens[..i] == lens;
    }

    // The bytes of the next block come off the line and are written.
    method ReceiveOne(buf: array<bv8>, stream: seq<bv8>, lens: seq<nat>, h: Header, i: nat)
      requires Valid() && Fits(h, flash.Length) && i < |lens| && 8 <= lens[i] <= 1024
      requires buf != flash && buf != signature && buf.Length == 1024
      requires Total(lens) == |stream| < WORD && file <= stream && blocks == lens[..i]
      requires if i == 0 then !hdFlags else hdFlags && Header(imageAddress, imageOffset, imageLen, checksum) == h
      modifies this, flash, signature, buf
      ensures Valid() && hdFlags && Header(imageAddress, imageOffset, imageLen, checksum) == h
      ensures file <= stream && blocks == lens[..i + 1]
    {
      hide Straight, Area, Burned, Signed, Standing, Received, Fits;
      TotalGrows(lens, i + 1);
      assert lens[..i + 1] == lens[..i] + [lens[i]] && lens[..i + 1][..i] == lens[..i];
      Fill(buf, stream, fileOffset, lens[i]);
      ghost var t := |file|;
      var r := WriteBlock(buf, lens[i], Some(h));
      assert file == stream[..t] + stream[t..t + lens[i]] == stream[..t + lens[i]];
    }
  }

  lemma {:induction false} TotalGrows(lens: seq<nat>, i: nat)
    requires i <= |lens|
    ensures Total(lens[..i]) <= Total(lens)
    decreases |lens|
  {
    if i < |lens| {
      var rest := lens[..|lens| - 1];
      TotalGrows(rest, i);
      assert rest[..i] == lens[..i];
    } else {
      assert lens[..i] == lens;
    }
  }

  lemma TwoParts(file: seq<bv8>, o: nat, n: nat)
    requires 8 <= n && o + n <= |file|
    ensures file[o..o + n] == file[o..o + 8] + file[o + 8..o + n]
  {}

  // The bytes of one block, as they come off the line.
  method Fill(buf: array<bv8>, stream: seq<bv8>, from: nat, n: nat)
    requires n <= buf.Length && from + n <= |stream|
    modifies buf
    ensures buf[..n] == stream[from..from + n]
  {
    var i := 0;
    while i < n
      invariant i <= n && forall k :: 0 <= k < i ==> buf[k] == stream[from + k]
    {
      buf[i] := stream[from + i];
      i := i + 1;
    }
  }

  method Copy(to: array<bv8>, at: nat, from: array<bv8>, start: nat, n: nat)
    requires at + n <= to.Length && start + n <= from.Length && to != from
    modifies to
    ensures forall k :: 0 <= k < to.Length ==> to[k] == if at <= k < at + n then from[start + k - at] else old(to[k])
  {
    var i := 0;
    while i < n
      invariant i <= n
      invariant forall k :: 0 <= k < to.Length ==> to[k] == if at <= k < at + i then from[start + k - at] else old(to[k])
    {
      to[at + i] := from[start + i];
      i := i + 1;
    }
  }
}
