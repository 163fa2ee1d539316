/** What it means for a Minix version 1 file system to be consistent.

    This is the reference for fsck.minix: it reads a file system that never
    changes, tallies how often each zone and each inode is referred to, and gives
    up (None) at the first thing that a check has to complain about.
  */
module MinixConsistency {
  import opened Common
  import opened MinixFormat

  /** A file system at one moment; `unreadable` are the blocks that cannot be read. */
  datatype Fs = Fs(super: Super, dirsize: nat, unreadable: set<nat>,
                   inodes: seq<Inode>, inodeMap: seq<bool>, zoneMap: seq<bool>, disk: seq<Block>)

  /** References found so far: to zones, and from directory entries to inodes. */
  datatype Tally = Tally(refs: multiset<nat>, inos: multiset<nat>)

  const MAX_DEPTH := 50

  /** The tables have the sizes that the super block announces; block numbers 0
      and 1 always exist. */
  ghost predicate Sized(fs: Fs) {
    && AcceptedSuper(fs.super)
    && fs.dirsize in {16, 32, 64, 128, 256, 512}
    && |fs.inodes| == fs.super.ninodes + 1
    && |fs.inodeMap| == MapBits(fs.super.imapBlocks)
    && |fs.zoneMap| == MapBits(fs.super.zmapBlocks)
    && |fs.disk| >= fs.super.nzones && |fs.disk| >= 2
  }

  ghost predicate Readable(fs: Fs, b: nat) {
    b == 0 || b !in fs.unreadable
  }

  ghost function Content(fs: Fs, b: nat): Block
    requires Sized(fs) && b < |fs.disk|
  {
    if b == 0 then ZeroBlock() else fs.disk[b]
  }

  // ---------- The zones a file refers to ----------

  ghost function One(nr: u16): seq<nat> {
    if nr == 0 then [] else [nr]
  }

  /** The zones in the first `n` slots. */
  ghost function Nonzero(s: seq<u16>, n: nat): seq<nat>
    requires n <= |s|
  {
    if n == 0 then [] else Nonzero(s, n - 1) + One(s[n - 1])
  }

  /** An indirect block and what it lists; None if it cannot be read. */
  ghost function IndRefs(fs: Fs, z: u16): Option<seq<nat>>
    requires Sized(fs)
  {
    if z == 0 then Some([])
    else if !ValidZone(fs.super, z) then Some([z])
    else if !Readable(fs, z) then None
    else Some([z] + Nonzero(fs.disk[z], |fs.disk[z]|))
  }

  ghost function Append(a: Option<seq<nat>>, b: Option<seq<nat>>): Option<seq<nat>> {
    if a.Some? && b.Some? then Some(a.value + b.value) else None
  }

  ghost function IndRefsOf(fs: Fs, s: seq<u16>, n: nat): Option<seq<nat>>
    requires Sized(fs) && n <= |s|
  {
    if n == 0 then Some([]) else Append(IndRefsOf(fs, s, n - 1), IndRefs(fs, s[n - 1]))
  }

  ghost function DindRefs(fs: Fs, z: u16): Option<seq<nat>>
    requires Sized(fs)
  {
    if z == 0 then Some([])
    else if !ValidZone(fs.super, z) then Some([z])
    else if !Readable(fs, z) then None
    else Append(Some([z]), IndRefsOf(fs, fs.disk[z], |fs.disk[z]|))
  }

  /** All zones of an inode, in the order of its slots. */
  ghost function InodeRefs(fs: Fs, inode: Inode): Option<seq<nat>>
    requires Sized(fs)
  {
    Append(Append(Some(Nonzero(inode.zone, |inode.zone| - 2)), IndRefs(fs, inode.zone[7])), DindRefs(fs, inode.zone[8]))
  }

  /** New references are to valid zones, marked in use, each referred to only once. */
  ghost predicate Fresh(fs: Fs, refs: multiset<nat>, more: seq<nat>)
    requires Sized(fs)
  {
    forall z :: z in more ==>
      ValidZone(fs.super, z) && ZoneBit(fs.super, fs.zoneMap, z) && (refs + multiset(more))[z] == 1
  }

  lemma FreshConcat(fs: Fs, refs: multiset<nat>, a: seq<nat>, b: seq<nat>)
    requires Sized(fs)
    ensures Fresh(fs, refs, a + b) <==> Fresh(fs, refs, a) && Fresh(fs, refs + multiset(a), b)
  {
    assert multiset(a + b) == multiset(a) + multiset(b);
    if Fresh(fs, refs, a + b) {
      forall z | z in a
        ensures ValidZone(fs.super, z) && ZoneBit(fs.super, fs.zoneMap, z) && (refs + multiset(a))[z] == 1
      {
        assert z in a + b && z in multiset(a);
      }
      forall z | z in b
        ensures ValidZone(fs.super, z) && ZoneBit(fs.super, fs.zoneMap, z)
        ensures (refs + multiset(a) + multiset(b))[z] == 1
      {
        assert z in a + b;
      }
    } else if Fresh(fs, refs, a) && Fresh(fs, refs + multiset(a), b) {
      forall z | z in a + b
        ensures ValidZone(fs.super, z) && ZoneBit(fs.super, fs.zoneMap, z) && (refs + multiset(a + b))[z] == 1
      {
        if z !in b {
          assert z in a && multiset(b)[z] == 0;
        }
      }
    }
  }

  // ---------- Counting references one at a time ----------

  ghost function CountOne(fs: Fs, count: seq<u8>, z: nat): Option<seq<u8>>
    requires Sized(fs) && |count| == fs.super.nzones
  {
    if ValidZone(fs.super, z) && ZoneBit(fs.super, fs.zoneMap, z) && count[z] == 0 then Some(count[z := 1]) else None
  }

  /** Counting the first `n` slots of a block, slot by slot. */
  ghost function CountSlots(fs: Fs, count: seq<u8>, s: seq<u16>, n: nat): (r: Option<seq<u8>>)
    requires Sized(fs) && |count| == fs.super.nzones && n <= |s|
    ensures r.Some? ==> |r.value| == |count|
  {
    if n == 0 then Some(count) else CountSlot(fs, CountSlots(fs, count, s, n - 1), s[n - 1])
  }

  ghost function CountSlot(fs: Fs, count: Option<seq<u8>>, slot: u16): (r: Option<seq<u8>>)
    requires Sized(fs) && (count.Some? ==> |count.value| == fs.super.nzones)
    ensures r.Some? ==> |r.value| == fs.super.nzones
  {
    if count.None? || slot == 0 then count else CountOne(fs, count.value, slot)
  }

  /** Counting an indirect block and all it lists. */
  ghost function CountInd(fs: Fs, count: Option<seq<u8>>, slot: u16): (r: Option<seq<u8>>)
    requires Sized(fs) && (count.Some? ==> |count.value| == fs.super.nzones)
    ensures r.Some? ==> |r.value| == fs.super.nzones
  {
    if slot == 0 || CountSlot(fs, count, slot).None? then CountSlot(fs, count, slot)
    else if !Readable(fs, slot) then None
    else CountSlots(fs, CountSlot(fs, count, slot).value, fs.disk[slot], |fs.disk[slot]|)
  }

  /** Counting the indirect blocks in the first `n` slots of a block. */
  ghost function CountInds(fs: Fs, count: seq<u8>, s: seq<u16>, n: nat): (r: Option<seq<u8>>)
    requires Sized(fs) && |count| == fs.super.nzones && n <= |s|
    ensures r.Some? ==> |r.value| == |count|
  {
    if n == 0 then Some(count) else CountInd(fs, CountInds(fs, count, s, n - 1), s[n - 1])
  }

  ghost function CountDind(fs: Fs, count: Option<seq<u8>>, slot: u16): (r: Option<seq<u8>>)
    requires Sized(fs) && (count.Some? ==> |count.value| == fs.super.nzones)
    ensures r.Some? ==> |r.value| == fs.super.nzones
  {
    if slot == 0 || CountSlot(fs, count, slot).None? then CountSlot(fs, count, slot)
    else if !Readable(fs, slot) then None
    else CountInds(fs, CountSlot(fs, count, slot).value, fs.disk[slot], |fs.disk[slot]|)
  }

  /** Counting all zones of an inode. */
  ghost function CountFile(fs: Fs, count: seq<u8>, inode: Inode): (r: Option<seq<u8>>)
    requires Sized(fs) && |count| == fs.super.nzones
    ensures r.Some? ==> |r.value| == fs.super.nzones
  {
    CountDind(fs, CountInd(fs, CountSlots(fs, count, inode.zone, |inode.zone| - 2), inode.zone[7]), inode.zone[8])
  }

  /** The counters hold exactly these references. */
  ghost predicate Counted(count: seq<u8>, refs: multiset<nat>) {
    forall z :: 0 <= z < |count| ==> count[z] == refs[z]
  }

  /** Counting went through exactly because the listed references are fresh, and the
      counters now hold them too. */
  ghost predicate Adds(fs: Fs, refs: multiset<nat>, list: Option<seq<nat>>, r: Option<seq<u8>>)
    requires Sized(fs)
  {
    && (r.Some? <==> list.Some? && Fresh(fs, refs, list.value))
    && (r.Some? ==> |r.value| == fs.super.nzones && Counted(r.value, refs + multiset(list.value)))
  }

  lemma AddsAppend(fs: Fs, refs: multiset<nat>, a: Option<seq<nat>>, b: Option<seq<nat>>,
                   r1: Option<seq<u8>>, r2: Option<seq<u8>>)
    requires Sized(fs) && Adds(fs, refs, a, r1)
    requires if r1.Some? then Adds(fs, refs + multiset(a.value), b, r2) else r2.None?
    ensures Adds(fs, refs, Append(a, b), r2)
  {
    if a.Some? && b.Some? {
      FreshConcat(fs, refs, a.value, b.value);
      assert refs + multiset(a.value) + multiset(b.value) == refs + multiset(a.value + b.value);
    }
  }

  lemma SlotAdds(fs: Fs, count: seq<u8>, refs: multiset<nat>, slot: u16)
    requires Sized(fs) && |count| == fs.super.nzones && Counted(count, refs)
    ensures Adds(fs, refs, Some(One(slot)), CountSlot(fs, Some(count), slot))
  {
    if slot == 0 {
      assert refs + multiset(One(slot)) == refs;
    } else {
      assert slot in [slot as nat];
      assert (refs + multiset([slot as nat]))[slot] == refs[slot] + 1;
    }
  }

  lemma SlotsStep(fs: Fs, refs: multiset<nat>, list: seq<nat>, r: Option<seq<u8>>, slot: u16)
    requires Sized(fs) && Adds(fs, refs, Some(list), r)
    ensures Adds(fs, refs, Some(list + One(slot)), CountSlot(fs, r, slot))
  {
    if r.Some? {
      SlotAdds(fs, r.value, refs + multiset(list), slot);
    }
    AddsAppend(fs, refs, Some(list), Some(One(slot)), r, CountSlot(fs, r, slot));
  }

  lemma NothingAdds(fs: Fs, count: seq<u8>, refs: multiset<nat>)
    requires Sized(fs) && |count| == fs.super.nzones && Counted(count, refs)
    ensures Adds(fs, refs, Some([]), Some(count))
  {
    var none: seq<nat> := [];
    assert refs + multiset(none) == refs;
  }

  lemma {:induction false} SlotsAdd(fs: Fs, count: seq<u8>, refs: multiset<nat>, s: seq<u16>, n: nat)
    requires Sized(fs) && |count| == fs.super.nzones && Counted(count, refs) && n <= |s|
    ensures Adds(fs, refs, Some(Nonzero(s, n)), CountSlots(fs, count, s, n))
  {
    hide Adds, CountSlot, One, Counted, AcceptedSuper;
    if n == 0 {
      NothingAdds(fs, count, refs);
    } else {
      SlotsAdd(fs, count, refs, s, n - 1);
      SlotsStep(fs, refs, Nonzero(s, n - 1), CountSlots(fs, count, s, n - 1), s[n - 1]);
    }
  }

  lemma IndAdds(fs: Fs, count: seq<u8>, refs: multiset<nat>, slot: u16)
    requires Sized(fs) && |count| == fs.super.nzones && Counted(count, refs)
    ensures Adds(fs, refs, IndRefs(fs, slot), CountInd(fs, Some(count), slot))
  {
    SlotAdds(fs, count, refs, slot);
    var r := CountSlot(fs, Some(count), slot);
    if slot != 0 && ValidZone(fs.super, slot) && Readable(fs, slot) {
      var blk := fs.disk[slot];
      if r.Some? {
        SlotsAdd(fs, r.value, refs + multiset(One(slot)), blk, |blk|);
      }
      AddsAppend(fs, refs, Some(One(slot)), Some(Nonzero(blk, |blk|)), r, CountInd(fs, Some(count), slot));
    }
  }

  lemma {:induction false} IndsAdd(fs: Fs, count: seq<u8>, refs: multiset<nat>, s: seq<u16>, n: nat)
    requires Sized(fs) && |count| == fs.super.nzones && Counted(count, refs) && n <= |s|
    ensures Adds(fs, refs, IndRefsOf(fs, s, n), CountInds(fs, count, s, n))
  {
    hide IndRefs, AcceptedSuper;
    if n == 0 {
      NothingAdds(fs, count, refs);
    } else {
      IndsAdd(fs, count, refs, s, n - 1);
      var r := CountInds(fs, count, s, n - 1);
      if r.Some? {
        IndAdds(fs, r.value, refs + multiset(IndRefsOf(fs, s, n - 1).value), s[n - 1]);
      }
      AddsAppend(fs, refs, IndRefsOf(fs, s, n - 1), IndRefs(fs, s[n - 1]), r, CountInds(fs, count, s, n));
    }
  }

  lemma DindAdds(fs: Fs, count: seq<u8>, refs: multiset<nat>, slot: u16)
    requires Sized(fs) && |count| == fs.super.nzones && Counted(count, refs)
    ensures Adds(fs, refs, DindRefs(fs, slot), CountDind(fs, Some(count), slot))
  {
    SlotAdds(fs, count, refs, slot);
    var r := CountSlot(fs, Some(count), slot);
    if slot != 0 && ValidZone(fs.super, slot) && Readable(fs, slot) {
      var blk := fs.disk[slot];
      if r.Some? {
        IndsAdd(fs, r.value, refs + multiset(One(slot)), blk, |blk|);
      }
      AddsAppend(fs, refs, Some(One(slot)), IndRefsOf(fs, blk, |blk|), r, CountDind(fs, Some(count), slot));
    }
  }

  /** Counting an inode slot by slot goes through exactly when the list of all its
      zones is fresh, and adds exactly that list. */
  lemma FileAdds(fs: Fs, count: seq<u8>, refs: multiset<nat>, inode: Inode)
    requires Sized(fs) && |count| == fs.super.nzones && Counted(count, refs)
    ensures Adds(fs, refs, InodeRefs(fs, inode), CountFile(fs, count, inode))
  {
    var n := |inode.zone| - 2;
    var direct, ind, dind := Some(Nonzero(inode.zone, n)), IndRefs(fs, inode.zone[7]), DindRefs(fs, inode.zone[8]);
    var r1 := CountSlots(fs, count, inode.zone, n);
    var r2 := CountInd(fs, r1, inode.zone[7]);
    SlotsAdd(fs, count, refs, inode.zone, n);
    if r1.Some? {
      IndAdds(fs, r1.value, refs + multiset(direct.value), inode.zone[7]);
    }
    AddsAppend(fs, refs, direct, ind, r1, r2);
    if r2.Some? {
      DindAdds(fs, r2.value, refs + multiset(Append(direct, ind).value), inode.zone[8]);
    }
    AddsAppend(fs, refs, Append(direct, ind), dind, r2, CountFile(fs, count, inode));
  }

  // ---------- Reading a directory ----------

  /** map_block(): the zone holding block `k` of a file, 0 for a hole. Blocks past
      the double indirect range come out as block 1. */
  ghost function SlotZone(fs: Fs, z: u16): Option<nat> {
    if z == 0 || ValidZone(fs.super, z) then Some(z) else None
  }

  ghost function ZoneOf(fs: Fs, inode: Inode, k: nat): Option<nat>
    requires Sized(fs)
  {
    if k < 7 then SlotZone(fs, inode.zone[k])
    else if k < 7 + 512 then
      var ind := SlotZone(fs, inode.zone[7]);
      if ind.None? || !Readable(fs, ind.value) then None else SlotZone(fs, Content(fs, ind.value)[k - 7])
    else
      var r := (k - 7 - 512) / 512;
      var dind := SlotZone(fs, inode.zone[8]);
      if dind.None? || !Readable(fs, dind.value) then None
      else if r >= 512 then Some(1)
      else
        var ind := SlotZone(fs, Content(fs, dind.value)[r]);
        if ind.None? || !Readable(fs, ind.value) then None
        else SlotZone(fs, Content(fs, ind.value)[(k - 7 - 512) % 512])
  }

  /** strcmp() with "." and with ".." on the name at byte `at`. */
  predicate IsDot(b: Block, at: nat)
    requires at + 1 < 1024
  {
    ByteAt(b, at) == 46 && ByteAt(b, at + 1) == 0
  }

  predicate IsDotDot(b: Block, at: nat)
    requires at + 2 < 1024
  {
    ByteAt(b, at) == 46 && ByteAt(b, at + 1) == 46 && ByteAt(b, at + 2) == 0
  }

  /** A directory entry lies within one block: its inode number, then its name. */
  lemma EntryInBlock(offset: nat)
    requires offset % 16 == 0
    ensures offset % 1024 <= 1024 - 16 && offset % 1024 % 2 == 0
  {
    var a := offset / 16;
    var q, r := a / 64, a % 64;
    assert offset == 16 * a && a == 64 * q + r;
    assert offset == 1024 * q + 16 * r;
  }

  // ---------- Tallying ----------

  /** get_inode(): one more entry refers to inode `ino`. */
  ghost function CountInode(fs: Fs, t: Tally, ino: nat): Option<Tally>
    requires Sized(fs) && ino <= fs.super.ninodes
  {
    if ino == 0 then Some(t)
    else if t.inos[ino] == 0 && !fs.inodeMap[ino] then None
    else if t.inos[ino] >= 255 then None
    else Some(t.(inos := t.inos + multiset{ino}))
  }

  predicate HasZones(mode: u16) {
    IsDir(mode) || IsReg(mode) || IsLnk(mode)
  }

  ghost function AddRefs(fs: Fs, t: Tally, refs: Option<seq<nat>>): Option<Tally>
    requires Sized(fs)
  {
    if refs.Some? && Fresh(fs, t.refs, refs.value) then Some(Tally(t.refs + multiset(refs.value), t.inos)) else None
  }

  /** check_zones(): the zones of an inode count when it is first met. */
  ghost function CountZones(fs: Fs, t: Tally, ino: nat): Option<Tally>
    requires Sized(fs)
  {
    if ino == 0 || ino > fs.super.ninodes || t.inos[ino] > 1 || !HasZones(fs.inodes[ino].mode) then Some(t)
    else AddRefs(fs, t, InodeRefs(fs, fs.inodes[ino]))
  }

  /** The block with the entry at `offset` of a directory, if it can be had. */
  ghost function EntryBlock(fs: Fs, dir: Inode, offset: nat): Option<Block>
    requires Sized(fs)
  {
    ZoneOfInRange(fs, dir, offset / 1024);
    if ZoneOf(fs, dir, offset / 1024).Some? && Readable(fs, ZoneOf(fs, dir, offset / 1024).value)
    then Some(Content(fs, ZoneOf(fs, dir, offset / 1024).value))
    else None
  }

  lemma ZoneOfInRange(fs: Fs, inode: Inode, k: nat)
    requires Sized(fs)
    ensures ZoneOf(fs, inode, k).Some? ==> ZoneOf(fs, inode, k).value < |fs.disk|
  {
  }

  /** check_file(): tallies one directory entry and all below it, as long as there
      are levels left to go down. */
  ghost function FileTally(fs: Fs, t: Tally, dir: nat, offset: nat, left: nat): Option<Tally>
    requires Sized(fs) && 0 < dir <= fs.super.ninodes && offset % 16 == 0
    requires offset < fs.inodes[dir].size
    decreases left, fs.inodes[dir].size - offset, 0
  {
    EntryInBlock(offset);
    if EntryBlock(fs, fs.inodes[dir], offset).None? then None
    else EntryTally(fs, t, EntryBlock(fs, fs.inodes[dir], offset).value, offset, left)
  }

  /** The entry itself: its inode counts, and the first two have fixed names. */
  ghost function EntryStart(fs: Fs, t: Tally, ino: nat, blk: Block, offset: nat): Option<Tally>
    requires Sized(fs) && offset % 16 == 0 && ino <= fs.super.ninodes
  {
    EntryInBlock(offset);
    if offset == 0 && (ino == 0 || !IsDot(blk, offset % 1024 + 2)) then None
    else if offset == fs.dirsize && (ino == 0 || !IsDotDot(blk, offset % 1024 + 2)) then None
    else CountInode(fs, t, ino)
  }

  /** The same, once the block with the entry has been read. */
  ghost function EntryTally(fs: Fs, t: Tally, blk: Block, offset: nat, left: nat): Option<Tally>
    requires Sized(fs) && offset % 16 == 0
    decreases left, 0, 1
  {
    EntryInBlock(offset);
    if blk[offset % 1024 / 2] > fs.super.ninodes then None
    else KnownTally(fs, t, blk[offset % 1024 / 2], blk, offset, left)
  }

  /** The same, for an entry with a proper inode number; with no level left it does
      not count. */
  ghost function KnownTally(fs: Fs, t: Tally, ino: nat, blk: Block, offset: nat, left: nat): Option<Tally>
    requires Sized(fs) && offset % 16 == 0 && ino <= fs.super.ninodes
    decreases left, 0, 0
  {
    if left == 0 then Some(t)
    else if EntryStart(fs, t, ino, blk, offset).None? || offset == 0 || offset == fs.dirsize || ino == 0
    then EntryStart(fs, t, ino, blk, offset)
    else Descend(fs, CountZones(fs, EntryStart(fs, t, ino, blk, offset).value, ino), ino, left - 1)
  }

  /** After the zones of an entry's inode: into the directory, if it is one. */
  ghost function Descend(fs: Fs, t: Option<Tally>, ino: nat, left: nat): Option<Tally>
    requires Sized(fs) && 0 < ino <= fs.super.ninodes
    decreases left, fs.inodes[ino].size + 1, 1
  {
    if t.None? || !IsDir(fs.inodes[ino].mode) then t else DirTally(fs, t.value, ino, left)
  }

  /** recursive_check(): a directory without a valid first zone is not looked into. */
  ghost function DirTally(fs: Fs, t: Tally, ino: nat, left: nat): Option<Tally>
    requires Sized(fs) && 0 < ino <= fs.super.ninodes
    decreases left, fs.inodes[ino].size + 1, 0
  {
    if fs.inodes[ino].size < 2 * fs.dirsize then None
    else if !ValidZone(fs.super, fs.inodes[ino].zone[0]) then Some(t)
    else EntriesTally(fs, t, ino, 0, left)
  }

  ghost function EntriesTally(fs: Fs, t: Tally, ino: nat, offset: nat, left: nat): Option<Tally>
    requires Sized(fs) && 0 < ino <= fs.super.ninodes && offset % 16 == 0
    decreases left, if offset < fs.inodes[ino].size then fs.inodes[ino].size - offset else 0, 1
  {
    if offset >= fs.inodes[ino].size then Some(t)
    else if FileTally(fs, t, ino, offset, left).None? then None
    else
      assert fs.dirsize % 16 == 0;
      EntriesTally(fs, FileTally(fs, t, ino, offset, left).value, ino, offset + fs.dirsize, left)
  }

  // ---------- Consistency ----------

  /** Inode `i` is marked exactly when it is referred to, and has the right link
      count; with the mode warning on, an unused inode has no mode. */
  ghost predicate InodeAgrees(fs: Fs, t: Tally, warnMode: bool, i: nat)
    requires Sized(fs) && 0 < i <= fs.super.ninodes
  {
    && (fs.inodeMap[i] <==> t.inos[i] > 0)
    && (t.inos[i] > 0 ==> fs.inodes[i].nlinks == t.inos[i])
    && (t.inos[i] == 0 && warnMode ==> fs.inodes[i].mode == 0)
  }

  /** A marked zone that nothing refers to is tolerated when it cannot be read. */
  ghost predicate ZoneAgrees(fs: Fs, t: Tally, z: nat)
    requires Sized(fs) && ValidZone(fs.super, z)
  {
    t.refs[z] == 0 ==> !ZoneBit(fs.super, fs.zoneMap, z) || z in fs.unreadable
  }

  /** The maps and link counts agree with a tally. */
  ghost predicate Agrees(fs: Fs, t: Tally, warnMode: bool)
    requires Sized(fs)
  {
    && (forall i :: 0 < i <= fs.super.ninodes ==> InodeAgrees(fs, t, warnMode, i))
    && (forall z :: fs.super.firstZone <= z < fs.super.nzones ==> ZoneAgrees(fs, t, z))
  }

  /** check(): the whole file system, from its root directory down to `limit` levels. */
  ghost function WholeTally(fs: Fs, limit: nat): Option<Tally>
    requires Sized(fs)
  {
    if CountZones(fs, Tally(multiset{}, multiset{}), ROOT_INO).None? then None
    else DirTally(fs, CountZones(fs, Tally(multiset{}, multiset{}), ROOT_INO).value, ROOT_INO, limit)
  }

  ghost predicate Consistent(fs: Fs, warnMode: bool)
    requires Sized(fs)
  {
    WholeTally(fs, MAX_DEPTH).Some? && Agrees(fs, WholeTally(fs, MAX_DEPTH).value, warnMode)
  }

  // ---------- What a tally guarantees ----------

  /** Every zone that is referred to is valid, marked, and referred to once. */
  ghost predicate RefsOnce(fs: Fs, t: Tally)
    requires Sized(fs)
  {
    forall z :: z in t.refs ==> ValidZone(fs.super, z) && ZoneBit(fs.super, fs.zoneMap, z) && t.refs[z] == 1
  }

  lemma CountZonesOnce(fs: Fs, t: Tally, ino: nat)
    requires Sized(fs) && RefsOnce(fs, t) && CountZones(fs, t, ino).Some?
    ensures RefsOnce(fs, CountZones(fs, t, ino).value)
  {
  }

  lemma {:induction false} FileOnce(fs: Fs, t: Tally, dir: nat, offset: nat, left: nat)
    requires Sized(fs) && 0 < dir <= fs.super.ninodes && offset % 16 == 0
    requires offset < fs.inodes[dir].size && RefsOnce(fs, t) && FileTally(fs, t, dir, offset, left).Some?
    ensures RefsOnce(fs, FileTally(fs, t, dir, offset, left).value)
    decreases left, fs.inodes[dir].size - offset, 0
  {
    EntryInBlock(offset);
    var blk := EntryBlock(fs, fs.inodes[dir], offset).value;
    var ino := blk[offset % 1024 / 2];
    assert FileTally(fs, t, dir, offset, left) == EntryTally(fs, t, blk, offset, left);
    assert EntryTally(fs, t, blk, offset, left) == KnownTally(fs, t, ino, blk, offset, left);
    var start := EntryStart(fs, t, ino, blk, offset);
    if left > 0 && start.Some? && offset != 0 && offset != fs.dirsize && ino != 0 {
      var zones := CountZones(fs, start.value, ino);
      assert KnownTally(fs, t, ino, blk, offset, left) == Descend(fs, zones, ino, left - 1);
      CountZonesOnce(fs, start.value, ino);
      if IsDir(fs.inodes[ino].mode) {
        DirOnce(fs, CountZones(fs, start.value, ino).value, ino, left - 1);
      }
    }
  }

  lemma {:induction false} DirOnce(fs: Fs, t: Tally, ino: nat, left: nat)
    requires Sized(fs) && 0 < ino <= fs.super.ninodes
    requires RefsOnce(fs, t) && DirTally(fs, t, ino, left).Some?
    ensures RefsOnce(fs, DirTally(fs, t, ino, left).value)
    decreases left, fs.inodes[ino].size + 1, 0
  {
    if ValidZone(fs.super, fs.inodes[ino].zone[0]) {
      EntriesOnce(fs, t, ino, 0, left);
    }
  }

  lemma {:induction false} EntriesOnce(fs: Fs, t: Tally, ino: nat, offset: nat, left: nat)
    requires Sized(fs) && 0 < ino <= fs.super.ninodes && offset % 16 == 0
    requires RefsOnce(fs, t) && EntriesTally(fs, t, ino, offset, left).Some?
    ensures RefsOnce(fs, EntriesTally(fs, t, ino, offset, left).value)
    decreases left, if offset < fs.inodes[ino].size then fs.inodes[ino].size - offset else 0, 1
  {
    if offset < fs.inodes[ino].size {
      FileOnce(fs, t, ino, offset, left);
      assert fs.dirsize % 16 == 0;
      EntriesOnce(fs, FileTally(fs, t, ino, offset, left).value, ino, offset + fs.dirsize, left);
    }
  }

  /** In a consistent file system every zone in use has exactly one owner, and every
      other marked zone is unreadable. */
  lemma ConsistentZones(fs: Fs, warnMode: bool, z: nat)
    requires Sized(fs) && Consistent(fs, warnMode) && ValidZone(fs.super, z)
    ensures var refs := WholeTally(fs, MAX_DEPTH).value.refs[z];
      refs <= 1 && (refs == 1 ==> ZoneBit(fs.super, fs.zoneMap, z))
      && (refs == 0 && ZoneBit(fs.super, fs.zoneMap, z) ==> z in fs.unreadable)
  {
    WholeOnce(fs);
    assert ZoneAgrees(fs, WholeTally(fs, MAX_DEPTH).value, z);
  }

  /** In a consistent file system an inode is marked exactly when an entry that counts
      refers to it, and its link count is the number of those entries. So a marked inode
      that is only referred to below the depth limit makes it inconsistent. */
  lemma ConsistentInodes(fs: Fs, warnMode: bool, i: nat)
    requires Sized(fs) && Consistent(fs, warnMode) && 0 < i <= fs.super.ninodes
    ensures var inos := WholeTally(fs, MAX_DEPTH).value.inos[i];
      (fs.inodeMap[i] <==> inos > 0) && (inos > 0 ==> fs.inodes[i].nlinks == inos)
  {
    assert InodeAgrees(fs, WholeTally(fs, MAX_DEPTH).value, warnMode, i);
  }

  /** When a directory is first met, an invalid first zone is a fault; only a missing
      one is passed over, and with it the entries of the directory. */
  lemma FirstZoneTold(fs: Fs, t: Tally, ino: nat, left: nat)
    requires Sized(fs) && 0 < ino <= fs.super.ninodes && IsDir(fs.inodes[ino].mode) && t.inos[ino] <= 1
    requires fs.inodes[ino].size >= 2 * fs.dirsize && !ValidZone(fs.super, fs.inodes[ino].zone[0])
    ensures Descend(fs, CountZones(fs, t, ino), ino, left)
      == if fs.inodes[ino].zone[0] == 0 then CountZones(fs, t, ino) else None
  {
    var inode := fs.inodes[ino];
    if inode.zone[0] != 0 && InodeRefs(fs, inode).Some? {
      FirstIsListed(inode.zone, |inode.zone| - 2);
      assert inode.zone[0] as nat in InodeRefs(fs, inode).value;
    }
  }

  lemma {:induction false} FirstIsListed(s: seq<u16>, n: nat)
    requires 0 < n <= |s| && s[0] != 0
    ensures s[0] as nat in Nonzero(s, n)
  {
    if n == 1 {
      assert Nonzero(s, 0) == [];
    } else {
      FirstIsListed(s, n - 1);
    }
  }

  /** A file system whose root directory has an invalid first zone is not consistent. */
  lemma RootZoneTold(fs: Fs, warnMode: bool)
    requires Sized(fs) && IsDir(fs.inodes[ROOT_INO].mode)
    requires fs.inodes[ROOT_INO].zone[0] != 0 && !ValidZone(fs.super, fs.inodes[ROOT_INO].zone[0])
    ensures !Consistent(fs, warnMode)
  {
    if fs.inodes[ROOT_INO].size >= 2 * fs.dirsize {
      FirstZoneTold(fs, Tally(multiset{}, multiset{}), ROOT_INO, MAX_DEPTH);
    }
  }

  lemma WholeOnce(fs: Fs)
    requires Sized(fs) && WholeTally(fs, MAX_DEPTH).Some?
    ensures RefsOnce(fs, WholeTally(fs, MAX_DEPTH).value)
  {
    var t := Tally(multiset{}, multiset{});
    CountZonesOnce(fs, t, ROOT_INO);
    DirOnce(fs, CountZones(fs, t, ROOT_INO).value, ROOT_INO, MAX_DEPTH);
  }
}
