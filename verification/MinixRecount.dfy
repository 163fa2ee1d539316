/** What an automatic repair by fsck.minix has made of the zones of a file counts
    again without a fault, from where the counters stood before, and to where they
    stand now. Here: why that stays so while the repair goes on.
  */
module MinixRecount {
  import opened Common
  import opened MinixFormat
  import opened MinixConsistency
  import opened MinixRepair

  /** Marks are only added. */
  ghost predicate MarksKept(a: seq<bool>, b: seq<bool>) {
    |a| == |b| && forall k :: 0 <= k < |a| && a[k] ==> b[k]
  }

  /** `g` has the marks of `f`, and maybe more. */
  ghost predicate MoreMarks(f: Fs, g: Fs) {
    f.super == g.super && f.unreadable == g.unreadable && MarksKept(f.zoneMap, g.zoneMap)
  }

  /** The blocks that these slots name are the same. */
  ghost predicate SameBlocks(a: seq<Block>, b: seq<Block>, s: seq<u16>, n: nat)
    requires n <= |s|
  {
    forall k :: 0 <= k < n && s[k] != 0 && s[k] < |a| && s[k] < |b| ==> a[s[k]] == b[s[k]]
  }

  lemma SlotAgain(f: Fs, g: Fs, count: Option<seq<u8>>, w: u16)
    requires Sized(f) && Sized(g) && MoreMarks(f, g) && (count.Some? ==> |count.value| == f.super.nzones)
    requires CountSlot(f, count, w).Some?
    ensures CountSlot(g, count, w) == CountSlot(f, count, w)
  {
  }

  lemma {:induction false} SlotsAgain(f: Fs, g: Fs, count: seq<u8>, s: seq<u16>, t: seq<u16>, n: nat)
    requires Sized(f) && Sized(g) && MoreMarks(f, g) && |count| == f.super.nzones && n <= |s| && n <= |t|
    requires CountSlots(f, count, s, n).Some? && forall k :: 0 <= k < n ==> s[k] == t[k]
    ensures CountSlots(g, count, t, n) == CountSlots(f, count, s, n)
  {
    hide CountSlot, MoreMarks, AcceptedSuper;
    if n > 0 {
      assert CountSlots(f, count, s, n - 1).Some? by {
        assert CountSlot(f, None, s[n - 1]) == None by {
          NoneStays(f, s[n - 1]);
        }
      }
      SlotsAgain(f, g, count, s, t, n - 1);
      SlotAgain(f, g, CountSlots(f, count, s, n - 1), s[n - 1]);
    }
  }

  lemma NoneStays(f: Fs, w: u16)
    requires Sized(f)
    ensures CountSlot(f, None, w) == None && CountInd(f, None, w) == None
  {
  }

  lemma IndAgain(f: Fs, g: Fs, count: Option<seq<u8>>, w: u16)
    requires Sized(f) && Sized(g) && MoreMarks(f, g) && (count.Some? ==> |count.value| == f.super.nzones)
    requires CountInd(f, count, w).Some? && (w != 0 && w < |f.disk| && w < |g.disk| ==> f.disk[w] == g.disk[w])
    ensures CountInd(g, count, w) == CountInd(f, count, w)
  {
    SlotAgain(f, g, count, w);
    if w != 0 {
      SlotsAgain(f, g, CountSlot(f, count, w).value, f.disk[w], g.disk[w], |f.disk[w]|);
    }
  }

  lemma {:induction false} IndsAgain(f: Fs, g: Fs, count: seq<u8>, s: seq<u16>, t: seq<u16>, n: nat)
    requires Sized(f) && Sized(g) && MoreMarks(f, g) && |count| == f.super.nzones && n <= |s| && n <= |t|
    requires CountInds(f, count, s, n).Some? && (forall k :: 0 <= k < n ==> s[k] == t[k])
    requires SameBlocks(f.disk, g.disk, s, n)
    ensures CountInds(g, count, t, n) == CountInds(f, count, s, n)
  {
    hide CountInd, MoreMarks, AcceptedSuper;
    if n > 0 {
      assert CountInds(f, count, s, n - 1).Some? by {
        NoneStays(f, s[n - 1]);
      }
      IndsAgain(f, g, count, s, t, n - 1);
      IndAgain(f, g, CountInds(f, count, s, n - 1), s[n - 1]);
    }
  }

  lemma DindAgain(f: Fs, g: Fs, count: Option<seq<u8>>, w: u16)
    requires Sized(f) && Sized(g) && MoreMarks(f, g) && (count.Some? ==> |count.value| == f.super.nzones)
    requires CountDind(f, count, w).Some?
    requires w != 0 && w < |f.disk| && w < |g.disk| ==>
      f.disk[w] == g.disk[w] && SameBlocks(f.disk, g.disk, f.disk[w], |f.disk[w]|)
    ensures CountDind(g, count, w) == CountDind(f, count, w)
  {
    SlotAgain(f, g, count, w);
    if w != 0 {
      IndsAgain(f, g, CountSlot(f, count, w).value, f.disk[w], g.disk[w], |f.disk[w]|);
    }
  }

  // ---------- What is counted for the first time was not counted before ----------

  lemma SlotsGrow(f: Fs, count: seq<u8>, s: seq<u16>, n: nat)
    requires Sized(f) && |count| == f.super.nzones && n <= |s| && CountSlots(f, count, s, n).Some?
    ensures Grown(count, CountSlots(f, count, s, n).value)
  {
    if n > 0 {
      SlotsGrow(f, count, s, n - 1);
    }
  }

  lemma IndGrows(f: Fs, count: seq<u8>, w: u16)
    requires Sized(f) && |count| == f.super.nzones && CountInd(f, Some(count), w).Some?
    ensures Grown(count, CountInd(f, Some(count), w).value)
    ensures w != 0 ==> ValidZone(f.super, w) && w < |count| && count[w] == 0
  {
    if w != 0 {
      SlotsGrow(f, CountSlot(f, Some(count), w).value, f.disk[w], |f.disk[w]|);
    }
  }

  /** The indirect blocks that were counted are not among those counted before. */
  lemma {:induction false} IndsFresh(f: Fs, count: seq<u8>, s: seq<u16>, n: nat)
    requires Sized(f) && |count| == f.super.nzones && n <= |s| && CountInds(f, count, s, n).Some?
    ensures Grown(count, CountInds(f, count, s, n).value)
    ensures forall k :: 0 <= k < n && s[k] != 0 ==> ValidZone(f.super, s[k]) && s[k] < |count| && count[s[k]] == 0
  {
    hide CountInd, AcceptedSuper;
    if n > 0 {
      NoneStays(f, s[n - 1]);
      IndsFresh(f, count, s, n - 1);
      IndGrows(f, CountInds(f, count, s, n - 1).value, s[n - 1]);
    }
  }

  // ---------- One more slot ----------

  lemma CausedMore(s: Super, x: seq<u8>, y: seq<u8>, a: seq<u16>, b: seq<u16>)
    requires SlotsCaused(s, x, a, b) && Grown(x, y)
    ensures SlotsCaused(s, y, a, b)
  {
  }

  /** A slot has been kept and counted, or cleared. */
  ghost predicate SlotDone(f: Fs, x: seq<u8>, y: seq<u8>, was: u16, slot: u16)
    requires Sized(f) && |x| == f.super.nzones
  {
    && CountSlot(f, Some(x), slot) == Some(y) && Grown(x, y) && Hit(f.super, y, slot)
    && (slot == was || (slot == 0 && Faulty(f.super, y, was)))
  }

  lemma SlotIsDone(f: Fs, x: seq<u8>, y: seq<u8>, was: u16, slot: u16)
    requires Sized(f) && |x| == f.super.nzones
    requires slot == was || (slot == 0 && Faulty(f.super, x, was))
    requires slot != 0 ==> ValidZone(f.super, slot) && ZoneBit(f.super, f.zoneMap, slot) && x[slot] == 0
    requires y == if slot == 0 then x else x[slot := 1]
    ensures SlotDone(f, x, y, was, slot)
  {
  }

  /** One more entry of an indirect block. */
  lemma EntryDone(f: Fs, g: Fs, count: seq<u8>, x: seq<u8>, y: seq<u8>, blk: Block, out: Block, i: nat, slot: u16)
    requires Sized(f) && Sized(g) && MoreMarks(f, g) && |count| == f.super.nzones && i < |blk|
    requires CountSlots(f, count, out, i) == Some(x) && SlotDone(g, x, y, blk[i], slot) && out[i] == blk[i]
    requires SlotsCaused(f.super, x, out, blk) && AllHit(f.super, x, out, i)
    ensures CountSlots(g, count, out[i := slot], i + 1) == Some(y)
    ensures SlotsCaused(g.super, y, out[i := slot], blk) && AllHit(g.super, y, out[i := slot], i + 1)
  {
    var next := out[i := slot];
    SlotsAgain(f, g, count, out, next, i);
    CausedMore(f.super, x, y, out, blk);
    assert AllHit(g.super, y, next, i + 1) by {
      assert forall k :: 0 <= k < i ==> next[k] == out[k] && Hit(f.super, x, out[k]);
    }
  }

  /** An indirect block has been kept, and all that it now lists was counted. */
  ghost predicate IndDone(f: Fs, x: seq<u8>, y: seq<u8>, slot: u16)
    requires Sized(f) && |x| == f.super.nzones
  {
    CountInd(f, Some(x), slot) == Some(y) && IndHit(f, y, slot)
  }

  ghost predicate DindDone(f: Fs, x: seq<u8>, y: seq<u8>, slot: u16)
    requires Sized(f) && |x| == f.super.nzones
  {
    CountDind(f, Some(x), slot) == Some(y) && DindHit(f, y, slot)
  }

  /** An indirect block is stored when its entries have been counted. */
  lemma BlockIsDone(f: Fs, g: Fs, h: Fs, x: seq<u8>, y: seq<u8>, z: seq<u8>, out: Block, slot: u16)
    requires Sized(f) && Sized(g) && Sized(h) && MoreMarks(f, g) && |x| == |y| == f.super.nzones
    requires slot != 0 && SlotDone(f, x, y, slot, slot) && ValidZone(f.super, slot) && Readable(g, slot)
    requires CountSlots(g, y, out, |out|) == Some(z) && Grown(y, z) && AllHit(g.super, z, out, |out|)
    requires (h == g || h == g.(disk := g.disk[slot := out])) && h.disk[slot] == out
    ensures IndDone(h, x, z, slot)
  {
    SlotAgain(f, h, Some(x), slot);
    SlotsAgain(g, h, y, out, out, |out|);
  }

  /** One more entry of a double indirect block. */
  lemma IndEntryDone(f: Fs, g: Fs, count: seq<u8>, x: seq<u8>, y: seq<u8>, out: Block, i: nat, slot: u16)
    requires Sized(f) && Sized(g) && MoreMarks(f, g) && Later(g, f) && |count| == |x| == f.super.nzones && i < |out|
    requires CountInds(f, count, out, i) == Some(x) && AllIndHit(f, x, out, i)
    requires IndDone(g, x, y, slot) && CountedKept(x, f.disk, g.disk) && Grown(x, y)
    ensures CountInds(g, count, out[i := slot], i + 1) == Some(y) && AllIndHit(g, y, out[i := slot], i + 1)
  {
    var next := out[i := slot];
    assert SameBlocks(f.disk, g.disk, out, i) by {
      forall k | 0 <= k < i && out[k] != 0 && out[k] < |f.disk| && out[k] < |g.disk|
        ensures f.disk[out[k]] == g.disk[out[k]]
      {
        assert IndHit(f, x, out[k]);
        IndsFresh(f, count, out, i);
      }
    }
    IndsAgain(f, g, count, out, next, i);
    OneMoreHit(g, f, x, y, next, out, i);
  }

  /** The block may have been stored; nothing else but marks has changed. */
  ghost predicate Stored(was: Fs, f: Fs, b: nat, blk: Block, out: Block) {
    && f == was.(zoneMap := f.zoneMap, disk := f.disk)
    && (f.disk == was.disk || (b < |was.disk| && blk == was.disk[b] && f.disk == was.disk[b := out]))
  }

  lemma StoredFixed(was: Fs, f: Fs, zones: seq<u8>, b: nat, blk: Block, out: Block)
    requires Stored(was, f, b, blk, out) && SlotsCaused(was.super, zones, out, blk)
    ensures Fixed(f, was, zones)
  {
    if f.disk == was.disk {
      FixedMaps(f, was, zones);
    } else {
      WriteFixed(was, zones, b, out);
    }
  }

  /** The same for a double indirect block, after the blocks that it lists. */
  lemma DoubleStored(was: Fs, f: Fs, g: Fs, h: Fs, zones: seq<u8>, b: nat, blk: Block, out: Block)
    requires f == was.(zoneMap := f.zoneMap) && Fixed(g, f, zones)
    requires Stored(g, h, b, blk, out) && SlotsCaused(g.super, zones, out, blk)
    ensures Fixed(h, was, zones)
  {
    hide Fixed, Stored, SlotsCaused;
    FixedMaps(f, was, zones);
    StoredFixed(g, h, zones, b, blk, out);
    FixedTwice(g, zones, f, zones, was);
    FixedTwice(h, zones, g, zones, was);
  }

  lemma OneMoreCaused(s: Super, x: seq<u8>, y: seq<u8>, out: Block, blk: Block, i: nat, slot: u16)
    requires SlotsCaused(s, x, out, blk) && Grown(x, y) && i < |blk| && out[i] == blk[i]
    requires slot == blk[i] || (slot == 0 && Faulty(s, y, blk[i]))
    ensures SlotsCaused(s, y, out[i := slot], blk)
  {
    CausedMore(s, x, y, out, blk);
  }

  /** A double indirect block is stored when its entries have been counted; no block that
      it lists is that block. */
  lemma DoubleIsDone(f: Fs, g: Fs, h: Fs, x: seq<u8>, y: seq<u8>, z: seq<u8>, out: Block, slot: u16)
    requires Sized(f) && Sized(g) && Sized(h) && MoreMarks(f, g) && |x| == |y| == f.super.nzones
    requires slot != 0 && SlotDone(f, x, y, slot, slot) && ValidZone(f.super, slot) && Readable(g, slot)
    requires CountInds(g, y, out, |out|) == Some(z) && Grown(y, z) && AllIndHit(g, z, out, |out|)
    requires (h == g || h == g.(disk := g.disk[slot := out])) && h.disk[slot] == out
    ensures DindDone(h, x, z, slot)
  {
    SlotAgain(f, h, Some(x), slot);
    IndsFresh(g, y, out, |out|);
    assert y[slot] > 0;
    IndsAgain(g, h, y, out, out, |out|);
    forall k | 0 <= k < |out|
      ensures IndHit(h, z, out[k])
    {
      assert IndHit(g, z, out[k]);
    }
  }

  // ---------- The slots of an inode ----------

  lemma InodeStored(f: Fs, g: Fs, zones: seq<u8>, ino: nat, k: nat, slot: u16, corrected: bool)
    requires ino < |f.inodes| && k < 9 && (corrected ==> slot == 0 && Faulty(f.super, zones, f.inodes[ino].zone[k]))
    requires g == if corrected
                  then f.(inodes := f.inodes[ino := f.inodes[ino].(zone := f.inodes[ino].zone[k := slot])])
                  else f
    ensures Fixed(g, f, zones)
  {
    FixedMaps(f, f, zones);
    if corrected {
      ClearFixed(f, zones, ino, k);
    }
  }

  lemma OtherInodes(f: Fs, g: Fs, x: seq<u8>, y: seq<u8>, slot: u16)
    requires Sized(f) && Sized(g) && g == f.(inodes := g.inodes) && |x| == f.super.nzones
    ensures IndDone(f, x, y, slot) ==> IndDone(g, x, y, slot)
    ensures DindDone(f, x, y, slot) ==> DindDone(g, x, y, slot)
  {
    if IndDone(f, x, y, slot) {
      IndAgain(f, g, Some(x), slot);
    }
    if DindDone(f, x, y, slot) {
      DindAgain(f, g, Some(x), slot);
      forall k | 0 <= k < 512 && slot != 0 && ValidZone(f.super, slot)
        ensures IndHit(g, y, g.disk[slot][k])
      {
        assert IndHit(f, y, f.disk[slot][k]);
      }
    }
  }

  /** One more direct slot. */
  lemma DirectDone(f: Fs, g: Fs, count: seq<u8>, x: seq<u8>, y: seq<u8>, a: seq<u16>, b: seq<u16>, i: nat)
    requires Sized(f) && Sized(g) && MoreMarks(f, g) && |count| == |x| == f.super.nzones && i < |a| == |b|
    requires CountSlots(f, count, a, i) == Some(x) && AllHit(f.super, x, a, i) && SlotDone(g, x, y, a[i], b[i])
    requires forall k :: 0 <= k < i ==> a[k] == b[k]
    ensures CountSlots(g, count, b, i + 1) == Some(y) && AllHit(g.super, y, b, i + 1)
  {
    SlotsAgain(f, g, count, a, b, i);
    assert AllHit(g.super, y, b, i + 1) by {
      assert forall k :: 0 <= k < i ==> b[k] == a[k] && Hit(f.super, x, a[k]);
    }
  }

  /** All zones of a file count again, from `x` to `y`. */
  ghost predicate FileDone(f: Fs, x: seq<u8>, y: seq<u8>, inode: Inode)
    requires Sized(f) && |x| == f.super.nzones
  {
    CountFile(f, x, inode) == Some(y) && ZonesHit(f, y, inode)
  }

  /** Direct slots, then the indirect block, then the double indirect block. */
  lemma FileIsDone(f: Fs, g: Fs, h: Fs, w: seq<u8>, x: seq<u8>, y: seq<u8>, z: seq<u8>, a: Inode, b: Inode, c: Inode)
    requires Sized(f) && Sized(g) && Sized(h) && MoreMarks(f, g) && MoreMarks(g, h)
    requires |w| == |x| == |y| == f.super.nzones && Grown(x, y) && Grown(y, z)
    requires CountSlots(f, w, a.zone, 7) == Some(x) && AllHit(f.super, x, a.zone, 7)
    requires IndDone(g, x, y, b.zone[7]) && DindDone(h, y, z, c.zone[8])
    requires CountedKept(y, g.disk, h.disk) && b.zone[7] == c.zone[7]
    requires forall k :: 0 <= k < 7 ==> a.zone[k] == c.zone[k]
    ensures FileDone(h, w, z, c)
  {
    SlotsAgain(f, h, w, a.zone, c.zone, 7);
    assert AllHit(h.super, z, c.zone, 7) by {
      assert forall k :: 0 <= k < 7 ==> c.zone[k] == a.zone[k] && Hit(f.super, x, a.zone[k]);
    }
    KeptInd(g, h, x, y, z, c.zone[7]);
  }

  lemma KeptInd(g: Fs, h: Fs, x: seq<u8>, y: seq<u8>, z: seq<u8>, slot: u16)
    requires Sized(g) && Sized(h) && MoreMarks(g, h) && |x| == |y| == g.super.nzones && Grown(y, z)
    requires IndDone(g, x, y, slot) && CountedKept(y, g.disk, h.disk)
    ensures IndDone(h, x, y, slot) && IndHit(h, z, slot)
  {
    IndAgain(g, h, Some(x), slot);
    if slot != 0 {
      AllHitStays(g.super, y, z, g.disk[slot], g.disk[slot], |g.disk[slot]|);
    }
  }
}
