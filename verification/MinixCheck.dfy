/** The version 1 checker of fsck.minix (disk-utils/fsck.minix.c): it walks the
    directory tree, counts, repairs in place when told to, and compares.

    Without repair it reports no error exactly when the file system is consistent;
    a consistent file system is left alone in either mode; and an automatic repair
    ends with maps and link counts that agree with what was counted, whatever was
    on the disk, clears nothing without a cause, and counts all that can still be
    reached.
  */
module MinixCheck {
  import opened Common
  import opened MinixFormat
  import opened MinixConsistency
  import opened MinixRepair
  import opened MinixRecount

  /** During a repair: no zone is counted twice, a counted zone is marked, and no
      other mark comes or goes. */
  ghost predicate ZonesSound(s: Super, zoneMap: seq<bool>, count: seq<u8>, start: seq<bool>) {
    && AcceptedSuper(s) && |zoneMap| == |start| == MapBits(s.zmapBlocks) && |count| == s.nzones
    && forall z :: 0 <= z < s.nzones ==>
         if ValidZone(s, z)
         then count[z] <= 1 && (ZoneBit(s, zoneMap, z) <==> count[z] == 1 || ZoneBit(s, start, z))
         else count[z] == 0
  }

  /** During a repair: a counted inode is marked. */
  ghost predicate InodesSound(count: seq<u8>, inodeMap: seq<bool>) {
    |count| <= |inodeMap| && forall i :: 0 <= i < |count| && count[i] > 0 ==> inodeMap[i]
  }

  /** What an automatic repair leaves: inode `i` is marked exactly when it was
      counted, and then has that link count. */
  ghost predicate InodeRepaired(inodes: seq<Inode>, inodeMap: seq<bool>, count: seq<u8>, i: nat)
    requires i < |inodes| && i < |inodeMap| && i < |count|
  {
    (inodeMap[i] <==> count[i] > 0) && (count[i] > 0 ==> inodes[i].nlinks == count[i])
  }

  /** Zone `z` was counted at most once; it is marked exactly when it was counted, or
      was marked all along and cannot be read. */
  ghost predicate ZoneRepaired(s: Super, zoneMap: seq<bool>, count: seq<u8>, start: seq<bool>, unreadable: set<nat>,
                               z: nat)
    requires AcceptedSuper(s) && |zoneMap| == |start| == MapBits(s.zmapBlocks) && |count| == s.nzones
    requires ValidZone(s, z)
  {
    && count[z] <= 1
    && (ZoneBit(s, zoneMap, z) <==> count[z] == 1 || (ZoneBit(s, start, z) && z in unreadable))
  }

  /** What check_counts() makes of an inode: no mode if it is not in use, and the link
      count that was counted. */
  ghost function Mended(inode: Inode, marked: bool, count: u8, warnMode: bool): Inode {
    var kept := if !marked && warnMode then inode.(mode := 0) else inode;
    if count == 0 then kept else kept.(nlinks := count)
  }

  /** Walking the tree never changes the type or the size of a file. */
  ghost predicate SameKind(a: seq<Inode>, b: seq<Inode>) {
    |a| == |b| && forall i :: 0 <= i < |a| ==> a[i].mode == b[i].mode && a[i].size == b[i].size
  }

  /** The first size from `size` on, doubling, at which the second entry of a
      directory block is "..", or the default. */
  ghost function DirsizeFrom(blk: Block, size: nat, default: nat): nat
    requires size > 0
    decreases 1024 - size
  {
    if size + 2 >= 1022 then default
    else if IsDotDot(blk, size + 2) then size
    else DirsizeFrom(blk, 2 * size, default)
  }

  /** get_dirsize(): the size of a directory entry, from the root block. */
  method GetDirsize(blk: Block, default: nat) returns (dirsize: nat)
    ensures dirsize == DirsizeFrom(blk, 16, default)
  {
    var size := 16;
    while size + 2 < 1024
      invariant size in {16, 32, 64, 128, 256, 512, 1024}
      invariant DirsizeFrom(blk, 16, default) == DirsizeFrom(blk, size, default)
      decreases 1024 - size
    {
      if IsDotDot(blk, size + 2) {
        return size;
      }
      size := 2 * size;
    }
    return default;
  }

  class Checker {
    const super: Super
    const dirsize: nat
    const repair: bool      // automatic repair; otherwise nothing is written
    const warnMode: bool
    const unreadable: set<nat>
    const unwritable: set<nat>
    var inodes: seq<Inode>  // by inode number; entry 0 is not used
    var inodeMap: seq<bool>
    var zoneMap: seq<bool>
    var disk: seq<Block>
    var inodeCount: seq<u8>
    var zoneCount: seq<u8>
    var nameDepth: nat
    var changed: bool
    var errors: bool        // errors_uncorrected
    ghost var start: seq<bool>  // the zone map when the check began
    ghost var origin: Fs        // and everything else
    ghost var zoned: set<nat>   // the inodes whose zones were counted
    ghost var dotted: set<nat>  // those that "." or ".." named before

    constructor (fs: Fs, repair: bool, warnMode: bool, unwritable: set<nat>)
      requires Sized(fs)
      ensures Valid() && Snapshot() == fs && this.repair == repair && this.warnMode == warnMode
      ensures !changed && !errors && nameDepth == 0
    {
      super, dirsize, unreadable := fs.super, fs.dirsize, fs.unreadable;
      this.repair, this.warnMode, this.unwritable := repair, warnMode, unwritable;
      inodes, inodeMap, zoneMap, disk := fs.inodes, fs.inodeMap, fs.zoneMap, fs.disk;
      inodeCount := seq(fs.super.ninodes + 1, _ => 0);
      zoneCount := seq(fs.super.nzones, _ => 0);
      nameDepth, changed, errors := 0, false, false;
      start, origin, zoned, dotted := fs.zoneMap, fs, {}, {};
    }

    /** What the file system looks like now. */
    ghost function Snapshot(): Fs
      reads this`inodes, this`inodeMap, this`zoneMap, this`disk
    {
      Fs(super, dirsize, unreadable, inodes, inodeMap, zoneMap, disk)
    }

    /** How far the walk has come. */
    ghost function Here(): Walk
      reads this`inodes, this`inodeMap, this`zoneMap, this`disk, this`inodeCount, this`zoneCount
      reads this`zoned, this`dotted
    {
      Walk(Snapshot(), inodeCount, zoneCount, zoned, dotted)
    }

    ghost predicate Valid()
      reads this`inodes, this`inodeMap, this`zoneMap, this`disk, this`inodeCount, this`zoneCount, this`start
    {
      && Sized(Snapshot())
      && |inodeCount| == super.ninodes + 1 && |zoneCount| == super.nzones
      && |start| == |zoneMap|
    }

    /** The counters hold exactly a tally. */
    ghost predicate Matches(t: Tally)
      requires Valid()
      reads this`inodes, this`inodeMap, this`zoneMap, this`disk, this`inodeCount, this`zoneCount, this`start
    {
      && (forall z :: 0 <= z < super.nzones ==> zoneCount[z] == t.refs[z])
      && (forall i :: 0 <= i <= super.ninodes ==> inodeCount[i] == t.inos[i])
    }

    /** The answer to a question that defaults to yes. */
    method Ask() returns (yes: bool)
      modifies this`errors
      ensures yes == repair && errors == (old(errors) || !repair)
    {
      if !repair {
        errors := true;
      }
      yes := repair;
    }

    /** check_zone_nr(): the slot value afterwards, and the zone or 0. */
    method CheckZoneNr(nr: u16) returns (slot: u16, block: nat, corrected: bool)
      modifies this`errors
      ensures slot == (if corrected then 0 else nr) && block == if nr != 0 && ValidZone(super, nr) then nr else 0
      ensures if nr == 0 || ValidZone(super, nr) then !corrected && errors == old(errors)
              else corrected == repair && errors == (old(errors) || !repair)
    {
      slot, block, corrected := nr, 0, false;
      if nr == 0 {
        return;
      }
      if ValidZone(super, nr) {
        block := nr;
        return;
      }
      var yes := Ask();
      if yes {
        slot, corrected := 0, true;
      }
    }

    method ReadBlock(nr: nat) returns (b: Block)
      requires Valid() && nr < |disk|
      modifies this`errors
      ensures Readable(Snapshot(), nr) ==> b == Content(Snapshot(), nr) && errors == old(errors)
      ensures !Readable(Snapshot(), nr) ==> b == ZeroBlock() && errors
      ensures old(errors) ==> errors
    {
      if nr == 0 {
        b := ZeroBlock();
      } else if nr in unreadable {
        errors := true;
        b := ZeroBlock();
      } else {
        b := disk[nr];
      }
    }

    method WriteBlock(nr: nat, b: Block)
      requires Valid()
      modifies this`disk, this`errors
      ensures Valid() && (old(errors) ==> errors)
      ensures var refused := nr < super.firstZone || nr >= super.nzones || nr in unwritable;
        if nr == 0 then disk == old(disk) && errors == old(errors)
        else if refused then disk == old(disk) && errors
        else nr < |old(disk)| && disk == old(disk)[nr := b] && errors == old(errors)
    {
      if nr == 0 {
        return;
      }
      if nr < super.firstZone || nr >= super.nzones || nr in unwritable {
        errors := true;
        return;
      }
      disk := disk[nr := b];
    }

    /** map_block(): the zone of block `k` of inode `ino`. */
    method MapBlock(ino: nat, k: nat) returns (zone: nat)
      requires Valid() && 0 < ino <= super.ninodes
      modifies this`inodes, this`disk, this`changed, this`errors
      ensures Valid() && zone < |disk| && (old(errors) ==> errors)
      ensures SameKind(inodes, old(inodes))
      ensures var was := old(Snapshot());
        if ZoneOf(was, was.inodes[ino], k).Some?
        then
          && zone == ZoneOf(was, was.inodes[ino], k).value
          && Snapshot() == was && changed == old(changed) && errors == old(errors)
        else !repair ==> errors
      ensures repair ==> Fixed(Snapshot(), old(Snapshot()), zoneCount)
      ensures repair ==> zone == LookedAt(old(Snapshot()), old(inodes)[ino], k)
    {
      if k < 7 {
        zone := CheckSlot(ino, k);
        return;
      }
      if k < 7 + 512 {
        ghost var was := Snapshot();
        var block := CheckSlot(ino, 7);
        ghost var fs := Snapshot();
        zone := MapThrough(block, k - 7);
        if repair {
          FixedTwice(Snapshot(), zoneCount, fs, zoneCount, was);
        }
        return;
      }
      zone := MapDouble(ino, k);
    }

    /** The same, through the double indirect block. */
    method MapDouble(ino: nat, k: nat) returns (zone: nat)
      requires Valid() && 0 < ino <= super.ninodes && k >= 7 + 512
      modifies this`inodes, this`disk, this`changed, this`errors
      ensures Valid() && zone < |disk| && (old(errors) ==> errors)
      ensures SameKind(inodes, old(inodes))
      ensures var was := old(Snapshot());
        if ZoneOf(was, was.inodes[ino], k).Some?
        then
          && zone == ZoneOf(was, was.inodes[ino], k).value
          && Snapshot() == was && changed == old(changed) && errors == old(errors)
        else !repair ==> errors
      ensures repair ==> Fixed(Snapshot(), old(Snapshot()), zoneCount)
      ensures repair ==> zone == LookedAt(old(Snapshot()), old(inodes)[ino], k)
    {
      hide ZoneBit, AcceptedSuper, Fixed;
      ghost var was := Snapshot();
      var block := CheckSlot(ino, 8);
      ghost var fs := Snapshot();
      var range := (k - 7 - 512) / 512;
      if 512 <= range {
        var dind := ReadBlock(block);
        return 1;
      }
      var ind := MapThrough(block, range);
      ghost var fs1 := Snapshot();
      zone := MapThrough(ind, (k - 7 - 512) % 512);
      if repair {
        FixedTwice(fs1, zoneCount, fs, zoneCount, was);
        FixedTwice(Snapshot(), zoneCount, fs1, zoneCount, was);
      }
    }

    /** One of the inode's own slots; correcting it marks the inode table changed. */
    method CheckSlot(ino: nat, slot: nat) returns (zone: nat)
      requires Valid() && 0 < ino <= super.ninodes && slot < 9
      modifies this`inodes, this`changed, this`errors
      ensures Valid() && (zone == 0 || ValidZone(super, zone)) && (old(errors) ==> errors)
      ensures SameKind(inodes, old(inodes))
      ensures var was := old(Snapshot());
        if SlotZone(was, was.inodes[ino].zone[slot]).Some?
        then
          && zone == SlotZone(was, was.inodes[ino].zone[slot]).value
          && Snapshot() == was && changed == old(changed) && errors == old(errors)
        else (!repair ==> errors) && zone == 0
      ensures var slots := old(inodes)[ino].zone;
        inodes == if repair && SlotZone(old(Snapshot()), slots[slot]).None?
                  then old(inodes)[ino := old(inodes)[ino].(zone := slots[slot := 0])] else old(inodes)
      ensures repair ==> Fixed(Snapshot(), old(Snapshot()), zoneCount)
    {
      ghost var was := Snapshot();
      FixedMaps(was, was, zoneCount);
      if SlotZone(was, inodes[ino].zone[slot]).None? {
        ClearFixed(was, zoneCount, ino, slot);
      }
      var inode := inodes[ino];
      var value, block, corrected := CheckZoneNr(inode.zone[slot]);
      zone := block;
      if corrected {
        inodes := inodes[ino := inode.(zone := inode.zone[slot := value])];
        changed := true;
      }
    }

    /** Entry `k` of the indirect block `block`. */
    method MapThrough(block: nat, k: nat) returns (zone: nat)
      requires Valid() && (block == 0 || ValidZone(super, block)) && k < 512
      modifies this`disk, this`errors
      ensures Valid() && (zone == 0 || ValidZone(super, zone)) && (old(errors) ==> errors)
      ensures var was := old(Snapshot());
        if Readable(was, block) && SlotZone(was, Content(was, block)[k]).Some?
        then zone == SlotZone(was, Content(was, block)[k]).value && Snapshot() == was && errors == old(errors)
        else !repair ==> errors
      ensures repair ==> Fixed(Snapshot(), old(Snapshot()), zoneCount)
      ensures var was := old(Snapshot());
        repair && !(Readable(was, block) && SlotZone(was, Content(was, block)[k]).Some?) ==> zone == 0
    {
      ghost var was := Snapshot();
      FixedMaps(was, was, zoneCount);
      var ind := ReadBlock(block);
      var slot, result, chg := CheckZoneNr(ind[k]);
      if chg {
        WriteFixed(was, zoneCount, block, ind[k := slot]);
        WriteBlock(block, ind[k := slot]);
      }
      zone := result;
    }

    /** Nothing but the counters has changed. */
    twostate predicate Untouched()
      reads this
    {
      Snapshot() == old(Snapshot()) && changed == old(changed) && errors == old(errors)
    }

    /** The zones were counted as the reference counts them; where it finds fault, a
        check without repair reports an error. */
    twostate predicate Follows(new r: Option<seq<u8>>)
      reads this
    {
      if r.Some? then Untouched() && zoneCount == r.value else !repair ==> errors
    }

    /** add_zone(): counts the zone of a slot, or clears the slot. */
    method AddZone(nr: u16) returns (slot: u16, block: nat, corrected: bool)
      requires Valid()
      modifies this`zoneMap, this`zoneCount, this`changed, this`errors
      ensures Valid() && (old(errors) ==> errors)
      ensures block == 0 || (block == nr && ValidZone(super, nr))
      ensures repair && old(ZonesSound(super, zoneMap, zoneCount, start)) ==>
        ZonesSound(super, zoneMap, zoneCount, start)
      ensures var r := CountSlot(old(Snapshot()), Some(old(zoneCount)), nr);
        Follows(r) && (r.Some? ==> slot == nr && block == nr && !corrected)
      // A repair clears a slot that is invalid or names a zone counted before; what it keeps, it marks.
      ensures corrected <==> repair && nr != 0 && (!ValidZone(super, nr) || old(zoneCount)[nr] > 0)
      ensures slot == (if corrected then 0 else nr) && (repair ==> block == slot)
      ensures repair ==> zoneCount == if block == 0 then old(zoneCount) else old(zoneCount)[nr := 1]
      ensures repair ==> zoneMap == if block == 0 then old(zoneMap) else old(zoneMap)[nr - super.firstZone + 1 := true]
      ensures repair ==> SlotDone(Snapshot(), old(zoneCount), zoneCount, nr, slot) && MarksKept(old(zoneMap), zoneMap)
    {
      hide ZonesSound, SlotDone;
      ghost var count := zoneCount;
      slot, block, corrected := CheckZoneNr(nr);
      if block == 0 {
        if repair {
          SlotIsDone(Snapshot(), count, count, nr, slot);
        }
        return;
      }
      if zoneCount[block] > 0 {
        var yes := Ask();
        if yes {
          SlotIsDone(Snapshot(), count, count, nr, 0);
          return 0, 0, true;
        }
      }
      MarkAndCount(nr);
      if repair {
        SlotIsDone(Snapshot(), count, zoneCount, nr, slot);
      }
    }

    /** A zone that stays is marked and counted. */
    method MarkAndCount(nr: u16)
      requires Valid() && ValidZone(super, nr) && nr != 0 && (repair ==> zoneCount[nr] == 0)
      modifies this`zoneMap, this`zoneCount, this`changed, this`errors
      ensures Valid() && (old(errors) ==> errors)
      ensures repair && old(ZonesSound(super, zoneMap, zoneCount, start)) ==>
        ZonesSound(super, zoneMap, zoneCount, start)
      ensures if ZoneBit(super, old(zoneMap), nr) then Untouched() else !repair ==> errors
      ensures zoneCount == old(zoneCount)[nr := if old(zoneCount)[nr] < 255 then old(zoneCount)[nr] + 1 else 255]
      ensures repair ==> zoneMap == old(zoneMap)[nr - super.firstZone + 1 := true]
    {
      if !zoneMap[nr - super.firstZone + 1] {
        var yes := Ask();
        if yes {
          zoneMap := zoneMap[nr - super.firstZone + 1 := true];
          changed := true;
        }
      }
      if zoneCount[nr] < 255 {
        zoneCount := zoneCount[nr := zoneCount[nr] + 1];
      }
    }

    /** The loop over the entries of an indirect block. */
    method AddEntries(blk: Block) returns (out: Block, chg: bool)
      requires Valid()
      modifies this`zoneMap, this`zoneCount, this`changed, this`errors
      ensures Valid() && (old(errors) ==> errors)
      ensures repair && old(ZonesSound(super, zoneMap, zoneCount, start)) ==>
        ZonesSound(super, zoneMap, zoneCount, start)
      ensures var r := CountSlots(old(Snapshot()), old(zoneCount), blk, |blk|); Follows(r) && (r.Some? ==> !chg)
      ensures (chg <==> out != blk) && (chg ==> repair)
      // What a repair leaves counts again without a fault, and it clears nothing else.
      ensures repair ==> CountSlots(Snapshot(), old(zoneCount), out, |out|) == Some(zoneCount)
      ensures repair ==> SlotsCaused(super, zoneCount, out, blk) && AllHit(super, zoneCount, out, |out|)
      ensures repair ==> Grown(old(zoneCount), zoneCount) && MarksKept(old(zoneMap), zoneMap)
    {
      hide ZonesSound, SlotDone, SlotsCaused, AllHit, CountOne;
      ghost var was, count := Snapshot(), zoneCount;
      out, chg := blk, false;
      SlotsCausedSelf(blk);
      var i := 0;
      while i < 512
        invariant 0 <= i <= 512 && Valid() && (old(errors) ==> errors)
        invariant repair && old(ZonesSound(super, zoneMap, zoneCount, start)) ==>
          ZonesSound(super, zoneMap, zoneCount, start)
        invariant forall k :: i <= k < 512 ==> out[k] == blk[k]
        invariant var r := CountSlots(was, count, blk, i); Follows(r) && (r.Some? ==> !chg)
        invariant (chg <==> out != blk) && (chg ==> repair)
        invariant repair ==> CountSlots(Snapshot(), count, out, i) == Some(zoneCount)
        invariant repair ==> SlotsCaused(super, zoneCount, out, blk) && AllHit(super, zoneCount, out, i)
        invariant repair ==> Grown(count, zoneCount) && MarksKept(old(zoneMap), zoneMap)
      {
        ghost var fs, zones, before := Snapshot(), zoneCount, out;
        var slot, block, one := AddZone(out[i]);
        out, chg := out[i := slot], chg || one;
        if repair {
          EntryDone(fs, Snapshot(), count, zones, zoneCount, blk, before, i, slot);
        }
        i := i + 1;
      }
    }

    lemma SlotsCausedSelf(blk: Block)
      requires Valid()
      ensures SlotsCaused(super, zoneCount, blk, blk) && AllHit(super, zoneCount, blk, 0)
    {
    }

    /** add_zone_ind() */
    method AddZoneInd(nr: u16) returns (slot: u16, corrected: bool)
      requires Valid()
      modifies this`zoneMap, this`zoneCount, this`changed, this`errors, this`disk
      ensures Valid() && (old(errors) ==> errors)
      ensures repair && old(ZonesSound(super, zoneMap, zoneCount, start)) ==>
        ZonesSound(super, zoneMap, zoneCount, start)
      ensures var r := CountInd(old(Snapshot()), Some(old(zoneCount)), nr);
        Follows(r) && (r.Some? ==> slot == nr && !corrected)
      ensures slot == (if corrected then 0 else nr) && (corrected ==> repair && Faulty(super, zoneCount, nr))
      ensures repair ==> Fixed(Snapshot(), old(Snapshot()), zoneCount) && Grown(old(zoneCount), zoneCount)
      ensures repair ==> MarksKept(old(zoneMap), zoneMap)
      ensures if repair then CountedKept(old(zoneCount), old(disk), disk) else disk == old(disk)
      ensures repair && !errors ==> IndDone(Snapshot(), old(zoneCount), zoneCount, slot)
    {
      hide ZonesSound, Fixed, SlotDone, AllHit, SlotsCaused, AcceptedSuper;
      ghost var was, count := Snapshot(), zoneCount;
      FixedMaps(was, was, zoneCount);
      var block;
      slot, block, corrected := AddZone(nr);
      if block == 0 {
        return;
      }
      ghost var fs, zones := Snapshot(), zoneCount;
      var blk := ReadBlock(block);
      var out, chg := AddEntries(blk);
      ghost var fs1 := Snapshot();
      if chg {
        NotBlank(blk, out);
        WriteBlock(block, out);
      }
      if repair {
        StoredFixed(was, Snapshot(), zoneCount, block, blk, out);
        if !errors {
          BlockIsDone(fs, fs1, Snapshot(), count, zones, zoneCount, out, slot);
        }
      }
    }

    /** There is nothing to clear in a block of zeros. */
    lemma NotBlank(blk: Block, out: Block)
      requires SlotsCaused(super, zoneCount, out, blk) && out != blk
      ensures blk != ZeroBlock()
    {
      assert exists k :: 0 <= k < 512 && out[k] != blk[k];
    }

    /** The loop over the entries of a double indirect block. */
    method AddIndirects(blk: Block) returns (out: Block, chg: bool)
      requires Valid()
      modifies this`zoneMap, this`zoneCount, this`changed, this`errors, this`disk
      ensures Valid() && (old(errors) ==> errors)
      ensures repair && old(ZonesSound(super, zoneMap, zoneCount, start)) ==>
        ZonesSound(super, zoneMap, zoneCount, start)
      ensures var r := CountInds(old(Snapshot()), old(zoneCount), blk, |blk|);
        Follows(r) && (r.Some? ==> !chg)
      ensures (chg <==> out != blk) && (chg ==> repair)
      ensures repair ==> Fixed(Snapshot(), old(Snapshot()), zoneCount) && Grown(old(zoneCount), zoneCount)
      ensures repair ==> SlotsCaused(super, zoneCount, out, blk) && MarksKept(old(zoneMap), zoneMap)
      ensures if repair then CountedKept(old(zoneCount), old(disk), disk) else disk == old(disk)
      ensures repair && !errors ==> CountInds(Snapshot(), old(zoneCount), out, |out|) == Some(zoneCount)
      ensures repair && !errors ==> AllIndHit(Snapshot(), zoneCount, out, |out|)
    {
      hide ZonesSound, Fixed, IndHit, IndDone, SlotsCaused, CountSlot;
      ghost var was, count := Snapshot(), zoneCount;
      FixedMaps(was, was, zoneCount);
      SlotsCausedSelf(blk);
      out, chg := blk, false;
      var i := 0;
      while i < 512
        invariant 0 <= i <= 512 && Valid() && (old(errors) ==> errors)
        invariant repair && old(ZonesSound(super, zoneMap, zoneCount, start)) ==>
          ZonesSound(super, zoneMap, zoneCount, start)
        invariant forall k :: i <= k < 512 ==> out[k] == blk[k]
        invariant var r := CountInds(was, count, blk, i); Follows(r) && (r.Some? ==> !chg)
        invariant (chg <==> out != blk) && (chg ==> repair)
        invariant repair ==> Fixed(Snapshot(), was, zoneCount) && Grown(count, zoneCount)
        invariant repair ==> SlotsCaused(super, zoneCount, out, blk) && MarksKept(old(zoneMap), zoneMap)
        invariant if repair then CountedKept(old(zoneCount), old(disk), disk) else disk == old(disk)
        invariant repair && !errors ==> CountInds(Snapshot(), count, out, i) == Some(zoneCount)
        invariant repair && !errors ==> AllIndHit(Snapshot(), zoneCount, out, i)
      {
        ghost var fs, zones, before := Snapshot(), zoneCount, out;
        NoneStays(was, blk[i]);
        var slot, one := AddZoneInd(out[i]);
        out, chg := out[i := slot], chg || one;
        if repair {
          FixedTwice(Snapshot(), zoneCount, fs, zones, was);
          FixedIsLater(Snapshot(), fs, zoneCount);
          KeptTwice(count, zones, was.disk, fs.disk, disk);
          OneMoreCaused(super, zones, zoneCount, before, blk, i, slot);
          if !errors {
            IndEntryDone(fs, Snapshot(), count, zones, zoneCount, before, i, slot);
          }
        }
        i := i + 1;
      }
    }

    /** add_zone_dind() */
    method AddZoneDind(nr: u16) returns (slot: u16, corrected: bool)
      requires Valid()
      modifies this`zoneMap, this`zoneCount, this`changed, this`errors, this`disk
      ensures Valid() && (old(errors) ==> errors)
      ensures repair && old(ZonesSound(super, zoneMap, zoneCount, start)) ==>
        ZonesSound(super, zoneMap, zoneCount, start)
      ensures var r := CountDind(old(Snapshot()), Some(old(zoneCount)), nr);
        Follows(r) && (r.Some? ==> slot == nr && !corrected)
      ensures slot == (if corrected then 0 else nr) && (corrected ==> repair && Faulty(super, zoneCount, nr))
      ensures repair ==> Fixed(Snapshot(), old(Snapshot()), zoneCount) && Grown(old(zoneCount), zoneCount)
      ensures repair ==> MarksKept(old(zoneMap), zoneMap)
      ensures if repair then CountedKept(old(zoneCount), old(disk), disk) else disk == old(disk)
      ensures repair && !errors ==> DindDone(Snapshot(), old(zoneCount), zoneCount, slot)
    {
      hide ZonesSound, Fixed, SlotDone, AllIndHit, SlotsCaused, CountInds, CountOne, AcceptedSuper;
      ghost var was, count := Snapshot(), zoneCount;
      FixedMaps(was, was, zoneCount);
      var block;
      slot, block, corrected := AddZone(nr);
      if block == 0 {
        return;
      }
      ghost var fs, zones := Snapshot(), zoneCount;
      var blk := ReadBlock(block);
      var out, chg := AddIndirects(blk);
      ghost var fs1 := Snapshot();
      if chg {
        NotBlank(blk, out);
        WriteBlock(block, out);
      }
      if repair {
        DoubleStored(was, fs, fs1, Snapshot(), zoneCount, block, blk, out);
        if !errors {
          DoubleIsDone(fs, fs1, Snapshot(), count, zones, zoneCount, out, slot);
        }
      }
    }

    method StoreSlot(ino: nat, k: nat, slot: u16, corrected: bool)
      requires Valid() && 0 < ino <= super.ninodes && k < 9
      modifies this`inodes, this`changed
      ensures Valid() && SameKind(inodes, old(inodes))
      ensures !corrected ==> changed == old(changed)
      ensures inodes == if corrected
                        then old(inodes)[ino := old(inodes)[ino].(zone := old(inodes)[ino].zone[k := slot])]
                        else old(inodes)
      ensures forall j :: 0 <= j < 9 && j != k ==> inodes[ino].zone[j] == old(inodes[ino].zone[j])
    {
      if corrected {
        inodes := inodes[ino := inodes[ino].(zone := inodes[ino].zone[k := slot])];
        changed := true;
      }
    }

    /** One direct slot of an inode. */
    method AddDirectSlot(ino: nat, k: nat)
      requires Valid() && 0 < ino <= super.ninodes && k < 7
      modifies this`zoneMap, this`zoneCount, this`changed, this`errors, this`inodes
      ensures Valid() && (old(errors) ==> errors) && SameKind(inodes, old(inodes))
      ensures repair && old(ZonesSound(super, zoneMap, zoneCount, start)) ==>
        ZonesSound(super, zoneMap, zoneCount, start)
      ensures forall j :: 0 <= j < 9 && j != k ==> inodes[ino].zone[j] == old(inodes[ino].zone[j])
      ensures Follows(CountSlot(old(Snapshot()), Some(old(zoneCount)), old(inodes[ino].zone[k])))
      ensures repair ==> Fixed(Snapshot(), old(Snapshot()), zoneCount) && Grown(old(zoneCount), zoneCount)
      ensures repair ==> MarksKept(old(zoneMap), zoneMap)
      ensures repair ==> SlotDone(Snapshot(), old(zoneCount), zoneCount, old(inodes[ino].zone[k]), inodes[ino].zone[k])
    {
      hide ZonesSound, Fixed;
      ghost var was := Snapshot();
      var slot, block, corrected := AddZone(inodes[ino].zone[k]);
      ghost var fs := Snapshot();
      StoreSlot(ino, k, slot, corrected);
      if repair {
        FixedMaps(fs, was, zoneCount);
        InodeStored(fs, Snapshot(), zoneCount, ino, k, slot, corrected);
        FixedTwice(Snapshot(), zoneCount, fs, zoneCount, was);
      }
    }

    /** The direct slots of an inode. */
    method AddDirect(ino: nat)
      requires Valid() && 0 < ino <= super.ninodes
      modifies this`zoneMap, this`zoneCount, this`changed, this`errors, this`inodes
      ensures Valid() && (old(errors) ==> errors) && SameKind(inodes, old(inodes))
      ensures repair && old(ZonesSound(super, zoneMap, zoneCount, start)) ==>
        ZonesSound(super, zoneMap, zoneCount, start)
      ensures forall j :: 7 <= j < 9 ==> inodes[ino].zone[j] == old(inodes[ino].zone[j])
      ensures Follows(CountSlots(old(Snapshot()), old(zoneCount), old(inodes[ino].zone), |old(inodes[ino].zone)| - 2))
      ensures repair ==> Fixed(Snapshot(), old(Snapshot()), zoneCount) && Grown(old(zoneCount), zoneCount)
      ensures repair ==> MarksKept(old(zoneMap), zoneMap) && AllHit(super, zoneCount, inodes[ino].zone, 7)
      ensures repair ==> CountSlots(Snapshot(), old(zoneCount), inodes[ino].zone, 7) == Some(zoneCount)
    {
      hide ZonesSound, Fixed, AllHit, SlotDone, CountOne;
      ghost var was, count := Snapshot(), zoneCount;
      ghost var zone := inodes[ino].zone;
      FixedMaps(was, was, zoneCount);
      NoneHit(zone);
      var i := 0;
      while i < 7
        invariant 0 <= i <= 7 && Valid() && (old(errors) ==> errors) && SameKind(inodes, old(inodes))
        invariant repair && old(ZonesSound(super, zoneMap, zoneCount, start)) ==>
          ZonesSound(super, zoneMap, zoneCount, start)
        invariant forall j :: i <= j < 9 ==> inodes[ino].zone[j] == zone[j]
        invariant Follows(CountSlots(was, count, zone, i))
        invariant repair ==> Fixed(Snapshot(), was, zoneCount) && Grown(count, zoneCount)
        invariant repair ==> MarksKept(old(zoneMap), zoneMap) && AllHit(super, zoneCount, inodes[ino].zone, i)
        invariant repair ==> CountSlots(Snapshot(), count, inodes[ino].zone, i) == Some(zoneCount)
      {
        ghost var fs, zones := Snapshot(), zoneCount;
        AddDirectSlot(ino, i);
        if repair {
          FixedTwice(Snapshot(), zoneCount, fs, zones, was);
          DirectDone(fs, Snapshot(), count, zones, zoneCount, fs.inodes[ino].zone, inodes[ino].zone, i);
        }
        i := i + 1;
      }
    }

    lemma NoneHit(ws: seq<u16>)
      ensures AllHit(super, zoneCount, ws, 0)
    {
    }

    method AddInodeZones(ino: nat)
      requires Valid() && 0 < ino <= super.ninodes
      modifies this`zoneMap, this`zoneCount, this`changed, this`errors, this`inodes, this`disk
      ensures Valid() && (old(errors) ==> errors) && SameKind(inodes, old(inodes))
      ensures repair && old(ZonesSound(super, zoneMap, zoneCount, start)) ==>
        ZonesSound(super, zoneMap, zoneCount, start)
      ensures Follows(CountFile(old(Snapshot()), old(zoneCount), old(inodes[ino])))
      ensures repair ==> Fixed(Snapshot(), old(Snapshot()), zoneCount) && Grown(old(zoneCount), zoneCount)
      ensures repair && !errors ==> FileDone(Snapshot(), old(zoneCount), zoneCount, inodes[ino])
    {
      hide ZonesSound, Fixed, AllHit, IndDone, DindDone, FileDone, CountOne;
      ghost var f0, z0 := Snapshot(), zoneCount;
      AddDirect(ino);
      ghost var f1, z1 := Snapshot(), zoneCount;
      AddIndSlot(ino);
      ghost var f2, z2 := Snapshot(), zoneCount;
      AddDindSlot(ino);
      if repair {
        FixedTwice(f2, z2, f1, z1, f0);
        FixedTwice(Snapshot(), zoneCount, f2, z2, f0);
        if !errors {
          FileIsDone(f1, f2, Snapshot(), z0, z1, z2, zoneCount, f1.inodes[ino], f2.inodes[ino], inodes[ino]);
        }
      }
    }

    method AddIndSlot(ino: nat)
      requires Valid() && 0 < ino <= super.ninodes
      modifies this`zoneMap, this`zoneCount, this`changed, this`errors, this`inodes, this`disk
      ensures Valid() && (old(errors) ==> errors) && SameKind(inodes, old(inodes))
      ensures repair && old(ZonesSound(super, zoneMap, zoneCount, start)) ==>
        ZonesSound(super, zoneMap, zoneCount, start)
      ensures Follows(CountInd(old(Snapshot()), Some(old(zoneCount)), old(inodes[ino].zone[7])))
      ensures repair ==> Fixed(Snapshot(), old(Snapshot()), zoneCount) && Grown(old(zoneCount), zoneCount)
      ensures repair ==> MarksKept(old(zoneMap), zoneMap)
      ensures repair && !errors ==> IndDone(Snapshot(), old(zoneCount), zoneCount, inodes[ino].zone[7])
      ensures forall j :: 0 <= j < 9 && j != 7 ==> inodes[ino].zone[j] == old(inodes[ino].zone[j])
    {
      hide ZonesSound, Fixed, IndDone, Faulty;
      ghost var was, count := Snapshot(), zoneCount;
      var slot, corrected := AddZoneInd(inodes[ino].zone[7]);
      ghost var fs := Snapshot();
      StoreSlot(ino, 7, slot, corrected);
      if repair {
        InodeStored(fs, Snapshot(), zoneCount, ino, 7, slot, corrected);
        FixedTwice(Snapshot(), zoneCount, fs, zoneCount, was);
        OtherInodes(fs, Snapshot(), count, zoneCount, slot);
      }
    }

    method AddDindSlot(ino: nat)
      requires Valid() && 0 < ino <= super.ninodes
      modifies this`zoneMap, this`zoneCount, this`changed, this`errors, this`inodes, this`disk
      ensures Valid() && (old(errors) ==> errors) && SameKind(inodes, old(inodes))
      ensures repair && old(ZonesSound(super, zoneMap, zoneCount, start)) ==>
        ZonesSound(super, zoneMap, zoneCount, start)
      ensures Follows(CountDind(old(Snapshot()), Some(old(zoneCount)), old(inodes[ino].zone[8])))
      ensures repair ==> Fixed(Snapshot(), old(Snapshot()), zoneCount) && Grown(old(zoneCount), zoneCount)
      ensures repair ==> MarksKept(old(zoneMap), zoneMap) && CountedKept(old(zoneCount), old(disk), disk)
      ensures repair && !errors ==> DindDone(Snapshot(), old(zoneCount), zoneCount, inodes[ino].zone[8])
      ensures forall j :: 0 <= j < 9 && j != 8 ==> inodes[ino].zone[j] == old(inodes[ino].zone[j])
    {
      hide ZonesSound, Fixed, DindDone, Faulty;
      ghost var was, count := Snapshot(), zoneCount;
      var slot, corrected := AddZoneDind(inodes[ino].zone[8]);
      ghost var fs := Snapshot();
      StoreSlot(ino, 8, slot, corrected);
      if repair {
        InodeStored(fs, Snapshot(), zoneCount, ino, 8, slot, corrected);
        FixedTwice(Snapshot(), zoneCount, fs, zoneCount, was);
        OtherInodes(fs, Snapshot(), count, zoneCount, slot);
      }
    }

    /** The tally was taken as the reference takes it. */
    twostate predicate Keeps(new t: Tally, new r: Option<Tally>)
      requires old(Valid()) && Valid()
      reads this
    {
      old(Matches(t)) ==> if r.Some? then Untouched() && Matches(r.value) else !repair ==> errors
    }

    /** The zones of this inode are to be counted when its turn comes. */
    ghost predicate ZonesDue(ino: nat)
      reads this`inodes, this`inodeCount
    {
      && 0 < ino <= super.ninodes && ino < |inodeCount| && ino < |inodes|
      && inodeCount[ino] <= 1 && HasZones(inodes[ino].mode)
    }

    /** check_zones() */
    method CheckZones(ino: nat, ghost t: Tally)
      requires Valid()
      modifies this`zoneMap, this`zoneCount, this`changed, this`errors, this`inodes, this`disk,
        this`zoned
      ensures Valid() && (old(errors) ==> errors) && SameKind(inodes, old(inodes))
      ensures repair && old(ZonesSound(super, zoneMap, zoneCount, start)) ==>
        ZonesSound(super, zoneMap, zoneCount, start)
      ensures Keeps(t, CountZones(old(Snapshot()), t, ino))
      ensures repair ==> Onward(old(Here()), Here())
      ensures zoned == old(zoned) + if ZonesDue(ino) then {ino} else {}
      ensures repair && !errors && ZonesDue(ino) ==>
        FileDone(Snapshot(), old(zoneCount), zoneCount, inodes[ino])
    {
      ghost var was, count := Snapshot(), zoneCount;
      FixedMaps(was, was, zoneCount);
      if ino == 0 || ino > super.ninodes {
        return;
      }
      if inodeCount[ino] > 1 {
        return;
      }
      if !HasZones(inodes[ino].mode) {
        return;
      }
      if Matches(t) {
        FileAdds(was, count, t.refs, inodes[ino]);
      }
      zoned := zoned + {ino};
      AddInodeZones(ino);
    }

    /** get_inode(): counts one reference to inode `nr`. */
    method GetInode(nr: nat, ghost t: Tally) returns (found: bool)
      requires Valid()
      modifies this`inodeMap, this`inodeCount, this`changed, this`errors
      ensures Valid() && (old(errors) ==> errors)
      ensures found <==> 0 < nr <= super.ninodes
      ensures repair && old(InodesSound(inodeCount, inodeMap)) ==> InodesSound(inodeCount, inodeMap)
      ensures nr <= super.ninodes ==> Keeps(t, CountInode(old(Snapshot()), t, nr))
      ensures if found then inodeCount == old(inodeCount)[nr := Cap(old(inodeCount)[nr] as nat + 1)]
              else inodeCount == old(inodeCount)
      ensures repair ==>
        inodeMap == if found && old(inodeCount)[nr] == 0 then old(inodeMap)[nr := true] else old(inodeMap)
    {
      if nr == 0 || nr > super.ninodes {
        return false;
      }
      if inodeCount[nr] == 0 && !inodeMap[nr] {
        var yes := Ask();
        if yes {
          inodeMap := inodeMap[nr := true];
          changed := true;
        }
      }
      if inodeCount[nr] == 255 {
        errors := true;
      } else {
        inodeCount := inodeCount[nr := inodeCount[nr] + 1];
      }
      return true;
    }

    /** During a repair, zones and inodes are both in order. */
    ghost predicate Sound()
      reads this
    {
      ZonesSound(super, zoneMap, zoneCount, start) && InodesSound(inodeCount, inodeMap)
    }

    /** The repair has lost nothing so far. */
    ghost predicate Going()
      reads this
    {
      Valid() && Settled(Here(), origin, errors) && Noted(Here(), 0)
    }

    /** How often the inodes were named is known from below only. */
    ghost function Loose(): bool
      reads this`errors
    {
      errors || super.firstZone == 0
    }

    /** What ReadBlock() has shown. */
    ghost predicate Shown(block: nat, blk: Block)
      requires Valid()
      reads this`inodes, this`inodeMap, this`zoneMap, this`disk, this`inodeCount, this`zoneCount, this`start
    {
      block < |disk| && blk == if Readable(Snapshot(), block) then Content(Snapshot(), block) else ZeroBlock()
    }

    /** The block that holds the entry at `offset` of directory `dir`. */
    method ReadEntry(dir: nat, offset: nat) returns (block: nat, blk: Block)
      requires Valid() && 0 < dir <= super.ninodes && offset % 16 == 0
      modifies this`inodes, this`disk, this`changed, this`errors
      ensures Valid() && (old(errors) ==> errors) && SameKind(inodes, old(inodes)) && Shown(block, blk)
      ensures var r := EntryBlock(old(Snapshot()), old(inodes)[dir], offset);
        if r.Some? then Untouched() && blk == r.value else !repair ==> errors
      ensures repair ==> Onward(old(Here()), Here())
      ensures repair && old(Going()) ==> Going()
      ensures offset % 1024 / 2 < 512 && (repair ==> EntryNames(Snapshot(), dir, offset) == blk[offset % 1024 / 2])
    {
      hide Fixed, Settled, Noted, EntryNames, LookedAt, ZoneOf, AcceptedSuper;
      EntryInBlock(offset);
      ghost var was, e := Here(), errors;
      block := MapBlock(dir, offset / 1024);
      blk := ReadBlock(block);
      if repair {
        FixedIsLater(Snapshot(), was.fs, zoneCount);
        EntryWas(was.fs, Snapshot(), block, blk, dir, offset);
        StillGoing(was, Here(), origin, e, errors);
      }
    }

    /** check_file(): the entry at `offset` of directory `dir`. */
    method CheckFile(dir: nat, offset: nat, ghost t: Tally)
      requires Valid() && 0 < dir <= super.ninodes && offset % 16 == 0 && offset < inodes[dir].size
      requires nameDepth <= MAX_DEPTH
      modifies this`inodes, this`inodeMap, this`zoneMap, this`disk, this`inodeCount, this`zoneCount, this`nameDepth,
        this`changed, this`errors, this`zoned, this`dotted
      ensures Valid() && (old(errors) ==> errors) && SameKind(inodes, old(inodes)) && nameDepth == old(nameDepth)
      ensures repair && old(Sound()) ==> Sound()
      ensures repair ==> Onward(old(Here()), Here())
      ensures repair && old(Going()) ==> Going()
      ensures repair ==> var left := MAX_DEPTH - nameDepth;
        Took(old(inodeCount), FileNames(Snapshot(), dir, offset, left), FileNames(old(Snapshot()), dir, offset, left),
             inodeCount, Loose())
      ensures Keeps(t, FileTally(old(Snapshot()), t, dir, offset, MAX_DEPTH - old(nameDepth)))
      decreases MAX_DEPTH - nameDepth, inodes[dir].size - offset, 0
    {
      hide EntryTally, ZonesSound, InodesSound, Onward, Settled, Noted, NameNames, Took, EntryNames, Matches,
        AcceptedSuper;
      ghost var w := Here();
      var block, blk := ReadEntry(dir, offset);
      ghost var read := Here();
      CheckEntry(block, blk, offset, t, dir);
      if repair {
        FileTaken(w, read, dir, offset, MAX_DEPTH - nameDepth);
      }
    }

    /** An entry was read at `read` and has been taken. */
    lemma FileTaken(w: Walk, read: Walk, dir: nat, offset: nat, left: nat)
      requires Valid() && Fits(w) && Fits(read) && Onward(w, read) && Onward(read, Here()) && w.inos == read.inos
      requires w.fs.super == super && 0 < dir <= super.ninodes && offset % 16 == 0
      requires var ino := EntryNames(read.fs, dir, offset);
        Took(w.inos, NameNames(Snapshot(), ino, offset, left), NameNames(read.fs, ino, offset, left),
             inodeCount, Loose())
      ensures Onward(w, Here())
      ensures Took(w.inos, FileNames(Snapshot(), dir, offset, left), FileNames(w.fs, dir, offset, left),
                   inodeCount, Loose())
    {
      hide Took, NameNames, EntryNames, Fixed;
      OnwardTwice(w, read, Here());
      OnwardLater(w, read);
      OnwardLater(read, Here());
      var ino := EntryNames(read.fs, dir, offset);
      StillNamed(Snapshot(), read.fs, dir, offset, left);
      FewerInFile(read.fs, w.fs, dir, offset, left);
      TookWiden(w.inos, NameNames(Snapshot(), ino, offset, left), NameNames(read.fs, ino, offset, left),
                inodeCount, Loose(), FileNames(Snapshot(), dir, offset, left), FileNames(w.fs, dir, offset, left));
    }

    /** The inode number of an entry; one that is too large is removed. */
    method EntryIno(block: nat, blk: Block, offset: nat, ghost dir: nat) returns (ino: nat)
      requires Valid() && offset % 16 == 0 && Shown(block, blk)
      requires repair ==> 0 < dir <= super.ninodes && EntryNames(Snapshot(), dir, offset) == blk[offset % 1024 / 2]
      modifies this`disk, this`errors
      ensures Valid() && (old(errors) ==> errors) && ino <= super.ninodes && offset % 1024 < 1024
      ensures var n := blk[offset % 1024 / 2];
        if n <= super.ninodes then ino == n && disk == old(disk) && errors == old(errors)
        else ino == 0 && (!repair ==> errors)
      ensures repair ==> Onward(old(Here()), Here()) && (old(Going()) ==> Going()) && Named(dir, offset, ino)
    {
      hide Fixed, Settled, Noted, EntryNames, AcceptedSuper;
      ghost var w, e := Here(), errors;
      FixedMaps(Snapshot(), Snapshot(), zoneCount);
      ino := blk[offset % 1024 / 2];
      if ino > super.ninodes {
        var yes := Ask();
        if yes {
          WriteFixed(Snapshot(), zoneCount, block, blk[offset % 1024 / 2 := 0]);
          WriteBlock(block, blk[offset % 1024 / 2 := 0]);
        }
        ino := 0;
      }
      if repair {
        StillGoing(w, Here(), origin, e, errors);
        WasNamed(dir, offset, ino);
      }
    }

    /** The first two entries must be "." and ".."; then there is no more to do. */
    method CheckDots(blk: Block, offset: nat, found: bool) returns (stop: bool)
      requires Valid() && offset % 16 == 0 && offset % 1024 <= 1008
      modifies this`errors
      ensures
        var at := offset % 1024 + 2;
        var ok := found && if offset == 0 then IsDot(blk, at) else IsDotDot(blk, at);
        if offset == 0 || offset == dirsize then stop == ok && errors == (old(errors) || !ok)
        else !stop && errors == old(errors)
    {
      var at := offset % 1024 + 2;
      if offset == 0 {
        if !found || !IsDot(blk, at) {
          errors := true;
        } else {
          return true;
        }
      }
      if offset == dirsize {
        if !found || !IsDotDot(blk, at) {
          errors := true;
        } else {
          return true;
        }
      }
      return false;
    }

    /** The entry was there, with this inode number, when the check began. */
    ghost predicate Named(dir: nat, offset: nat, ino: nat)
      reads this
    {
      repair && Going() && ino != 0 ==>
        0 < dir <= super.ninodes && offset % 16 == 0 && EntryNames(origin, dir, offset) == ino
    }

    /** The repair has lost nothing so far, but the zones of inode `but` have not had
        their turn. */
    ghost predicate Begun(but: nat)
      reads this
    {
      && Valid() && Settled(Here(), origin, errors) && Noted(Here(), but)
      && (0 < but <= super.ninodes && inodeCount[but] > 1 ==> NotedAt(Here(), but))
    }

    lemma WasNamed(dir: nat, offset: nat, ino: nat)
      requires Valid() && 0 < dir <= super.ninodes && offset % 16 == 0
      requires ino != 0 ==> EntryNames(Snapshot(), dir, offset) == ino
      ensures Named(dir, offset, ino)
    {
      if Going() && ino != 0 {
        NamedBefore(Snapshot(), origin, dir, offset);
      }
    }

    /** One more reference to inode `ino`, since `w`. */
    lemma EntryStarts(w: Walk, e: bool, ino: nat, offset: nat, dir: nat, stop: bool)
      requires Valid() && Fits(w) && (e ==> errors) && ino <= super.ninodes
      requires Snapshot() == w.fs.(inodeMap := inodeMap) && zoneCount == w.zones && zoned == w.zoned
      requires Settled(w, origin, e) && Noted(w, 0) ==>
        ino == 0 || (0 < dir <= super.ninodes && offset % 16 == 0 && EntryNames(origin, dir, offset) == ino)
      requires dotted == w.dotted + if stop && ino != 0 && ino !in zoned then {ino} else {}
      requires stop && ino != 0 ==> offset == 0 || offset == dirsize
      requires inodeCount == OneMore(w.inos, ino)
      ensures Onward(w, Here())
      ensures Settled(w, origin, e) && Noted(w, 0) ==> Begun(if stop then 0 else ino)
    {
      FixedMaps(Snapshot(), w.fs, zoneCount);
      if Settled(w, origin, e) && Noted(w, 0) {
        if ino != 0 {
          assert IsNamed(origin, ino);
          if stop {
            assert DotNamed(origin, ino);
          }
        }
        SettledStays(w, Here(), origin, e, errors);
        NotedStays(w, Here(), 0, if stop then 0 else ino);
        if !stop && ino != 0 && inodeCount[ino] > 1 {
          NotedAtStays(w, Here(), ino);
        }
      }
    }

    /** A step that counts nothing. */
    lemma StillGoing(a: Walk, b: Walk, from: Fs, ea: bool, eb: bool)
      requires Fits(a) && Fits(b) && Onward(a, b) && (ea ==> eb)
      requires a.inos == b.inos && a.zoned == b.zoned && a.dotted == b.dotted
      ensures Settled(a, from, ea) && Noted(a, 0) ==> Settled(b, from, eb) && Noted(b, 0)
    {
      if Settled(a, from, ea) && Noted(a, 0) {
        SettledStays(a, b, from, ea, eb);
        NotedStays(a, b, 0, 0);
      }
    }

    ghost function OneMore(count: seq<u8>, ino: nat): seq<u8>
      requires ino < |count|
    {
      if ino == 0 then count else count[ino := Cap(count[ino] as nat + 1)]
    }

    /** Only "." and ".." stop an entry that names an inode; under another name they are
        an error. */
    ghost predicate StopsWell(ino: nat, offset: nat, stop: bool)
      reads this`errors
    {
      var dots := offset == 0 || offset == dirsize;
      (stop && ino != 0 ==> dots) && (!stop ==> ino != 0) && (!stop && dots ==> errors)
    }

    /** Counts the entry's inode and looks at its name. */
    method StartEntry(ino: nat, blk: Block, offset: nat, ghost t: Tally) returns (stop: bool)
      requires Valid() && offset % 16 == 0 && offset % 1024 <= 1008 && ino <= super.ninodes && nameDepth < MAX_DEPTH
      modifies this`inodeMap, this`inodeCount, this`changed, this`errors, this`nameDepth
      ensures Valid() && (old(errors) ==> errors) && nameDepth == old(nameDepth)
      ensures repair && old(InodesSound(inodeCount, inodeMap)) ==> InodesSound(inodeCount, inodeMap)
      ensures Keeps(t, EntryStart(old(Snapshot()), t, ino, blk, offset))
      ensures EntryStart(old(Snapshot()), t, ino, blk, offset).Some? ==>
        (stop <==> offset == 0 || offset == dirsize || ino == 0)
      ensures !stop ==> ino != 0
      ensures inodeCount == OneMore(old(inodeCount), ino) && StopsWell(ino, offset, stop)
    {
      nameDepth := nameDepth + 1;
      var found := GetInode(ino, t);
      nameDepth := nameDepth - 1;
      stop := CheckDots(blk, offset, found);
      stop := stop || !found;
    }

    /** The same, noting which inodes "." and ".." name before their zones are counted. */
    method BeginEntry(ino: nat, blk: Block, offset: nat, ghost t: Tally, ghost dir: nat) returns (stop: bool)
      requires Valid() && offset % 16 == 0 && offset % 1024 <= 1008 && ino <= super.ninodes && nameDepth < MAX_DEPTH
      requires Named(dir, offset, ino)
      modifies this`inodeMap, this`inodeCount, this`changed, this`errors, this`nameDepth, this`dotted
      ensures Valid() && (old(errors) ==> errors) && nameDepth == old(nameDepth)
      ensures repair && old(InodesSound(inodeCount, inodeMap)) ==> InodesSound(inodeCount, inodeMap)
      ensures Keeps(t, EntryStart(old(Snapshot()), t, ino, blk, offset))
      ensures EntryStart(old(Snapshot()), t, ino, blk, offset).Some? ==>
        (stop <==> offset == 0 || offset == dirsize || ino == 0)
      ensures !stop ==> ino != 0
      ensures inodeCount == OneMore(old(inodeCount), ino) && StopsWell(ino, offset, stop)
      ensures repair ==> Onward(old(Here()), Here())
      ensures repair && old(Going()) ==> Begun(if stop then 0 else ino)
    {
      hide Onward, Settled, Noted, NotedAt, InodesSound, EntryStart, EntryNames;
      ghost var w, e := Here(), errors;
      stop := StartEntry(ino, blk, offset, t);
      if stop && ino != 0 && ino !in zoned {
        dotted := dotted + {ino};
      }
      if repair {
        EntryStarts(w, e, ino, offset, dir, stop);
      }
    }

    /** A number that is too large names nothing, like 0. */
    lemma NoSuchName(f: Fs, g: Fs, h: Fs, ino: nat, offset: nat, left: nat)
      requires Sized(f) && Sized(g) && Sized(h) && f.super == g.super == h.super && ino > f.super.ninodes
      ensures NameNames(f, ino, offset, left) == NameNames(g, 0, offset, left)
      ensures NameNames(h, ino, offset, left) == NameNames(h, 0, offset, left)
    {
    }

    /** The rest of check_file(), once the block with the entry has been read. */
    method CheckEntry(block: nat, blk: Block, offset: nat, ghost t: Tally, ghost dir: nat)
      requires Valid() && offset % 16 == 0 && nameDepth <= MAX_DEPTH && Shown(block, blk)
      requires repair ==> 0 < dir <= super.ninodes && EntryNames(Snapshot(), dir, offset) == blk[offset % 1024 / 2]
      modifies this`inodes, this`inodeMap, this`zoneMap, this`disk, this`inodeCount, this`zoneCount, this`nameDepth,
        this`changed, this`errors, this`zoned, this`dotted
      ensures Valid() && (old(errors) ==> errors) && SameKind(inodes, old(inodes)) && nameDepth == old(nameDepth)
      ensures repair && old(Sound()) ==> Sound()
      ensures repair ==> Onward(old(Here()), Here())
      ensures repair && old(Going()) ==> Going()
      ensures repair ==> var ino, left := blk[offset % 1024 / 2], MAX_DEPTH - nameDepth;
        Took(old(inodeCount), NameNames(Snapshot(), ino, offset, left), NameNames(old(Snapshot()), ino, offset, left),
             inodeCount, Loose())
      ensures Keeps(t, EntryTally(old(Snapshot()), t, blk, offset, MAX_DEPTH - old(nameDepth)))
      decreases MAX_DEPTH - nameDepth, 0, 2
    {
      hide KnownTally, ZonesSound, InodesSound, Settled, Noted, Took, Onward, EntryNames, NameNames, Matches,
        AcceptedSuper;
      ghost var w := Here();
      EntryInBlock(offset);
      var ino := EntryIno(block, blk, offset, dir);
      ghost var w1 := Here();
      CheckKnown(ino, blk, offset, t, dir);
      if repair {
        OnwardTwice(w, w1, Here());
        if ino != blk[offset % 1024 / 2] {
          NoSuchName(w.fs, w1.fs, Snapshot(), blk[offset % 1024 / 2], offset, MAX_DEPTH - nameDepth);
        }
      }
    }

    lemma NoneTaken(ino: nat, offset: nat)
      requires Valid()
      ensures Took(inodeCount, NameNames(Snapshot(), ino, offset, 0), NameNames(Snapshot(), ino, offset, 0),
                   inodeCount, Loose())
    {
      TookNothing(inodeCount, multiset{}, Loose());
    }

    lemma StopTaken(w: Walk, ino: nat, offset: nat, left: nat)
      requires Valid() && Fits(w) && Onward(w, Here()) && ino <= super.ninodes && left > 0
      requires w.fs.super == super && w.fs.dirsize == dirsize && inodeCount == OneMore(w.inos, ino)
      requires StopsWell(ino, offset, true)
      ensures Took(w.inos, NameNames(Snapshot(), ino, offset, left), NameNames(w.fs, ino, offset, left),
                   inodeCount, Loose())
    {
      if ino != 0 {
        DotTaken(w.fs, Snapshot(), ino, offset, left, w.inos, inodeCount, Loose());
      }
    }

    lemma EntryFollowed(w: Walk, w1: Walk, ino: nat, offset: nat, left: nat)
      requires Valid() && Fits(w) && Fits(w1) && Onward(w, w1) && Onward(w1, Here()) && left > 0
      requires w.fs.super == super && w.fs.dirsize == dirsize && 0 < ino <= super.ninodes
      requires w1.inos == OneMore(w.inos, ino) && (offset == 0 || offset == dirsize ==> errors)
      requires Took(w1.inos, Below(Snapshot(), ino, left - 1), Below(w1.fs, ino, left - 1), inodeCount, Loose())
      ensures Onward(w, Here())
      ensures Took(w.inos, NameNames(Snapshot(), ino, offset, left), NameNames(w.fs, ino, offset, left),
                   inodeCount, Loose())
    {
      OnwardTwice(w, w1, Here());
      NameTaken(w.fs, w1.fs, Snapshot(), ino, offset, left, w.inos, w1.inos, inodeCount, Loose());
    }

    method CheckKnown(ino: nat, blk: Block, offset: nat, ghost t: Tally, ghost dir: nat)
      requires Valid() && offset % 16 == 0 && nameDepth <= MAX_DEPTH && ino <= super.ninodes && Named(dir, offset, ino)
      modifies this`inodes, this`inodeMap, this`zoneMap, this`disk, this`inodeCount, this`zoneCount, this`nameDepth,
        this`changed, this`errors, this`zoned, this`dotted
      ensures Valid() && (old(errors) ==> errors) && SameKind(inodes, old(inodes)) && nameDepth == old(nameDepth)
      ensures repair && old(Sound()) ==> Sound()
      ensures repair ==> Onward(old(Here()), Here())
      ensures repair && old(Going()) ==> Going()
      ensures repair ==> var left := MAX_DEPTH - nameDepth;
        Took(old(inodeCount), NameNames(Snapshot(), ino, offset, left), NameNames(old(Snapshot()), ino, offset, left),
             inodeCount, Loose())
      ensures Keeps(t, KnownTally(old(Snapshot()), t, ino, blk, offset, MAX_DEPTH - old(nameDepth)))
      decreases MAX_DEPTH - nameDepth, 0, 1
    {
      hide EntryStart, CountZones, Descend, ZonesSound, InodesSound, Onward, Settled, Noted, Took, Below, Matches,
        NameNames, AcceptedSuper;
      ghost var w := Here();
      Staying(w);
      NoneTaken(ino, offset);
      if nameDepth >= MAX_DEPTH {
        return;
      }
      EntryInBlock(offset);
      ghost var t1 := EntryStart(Snapshot(), t, ino, blk, offset);
      var stop := BeginEntry(ino, blk, offset, t, dir);
      ghost var w1 := Here();
      if stop {
        if repair {
          StopTaken(w, ino, offset, MAX_DEPTH - nameDepth);
        }
        return;
      }
      FollowEntry(ino, if t1.Some? then t1.value else t);
      if repair {
        EntryFollowed(w, w1, ino, offset, MAX_DEPTH - nameDepth);
      }
    }

    /** One level further down. */
    method FollowEntry(ino: nat, ghost t: Tally)
      requires Valid() && 0 < ino <= super.ninodes && nameDepth < MAX_DEPTH
      modifies this`inodes, this`inodeMap, this`zoneMap, this`disk, this`inodeCount, this`zoneCount, this`nameDepth,
        this`changed, this`errors, this`zoned, this`dotted
      ensures Valid() && (old(errors) ==> errors) && SameKind(inodes, old(inodes)) && nameDepth == old(nameDepth)
      ensures repair && old(Sound()) ==> Sound()
      ensures repair ==> Onward(old(Here()), Here())
      ensures repair && old(Begun(ino)) ==> Going()
      ensures repair ==> var left := MAX_DEPTH - nameDepth - 1;
        Took(old(inodeCount), Below(Snapshot(), ino, left), Below(old(Snapshot()), ino, left), inodeCount, Loose())
      ensures var left := MAX_DEPTH - old(nameDepth) - 1;
        Keeps(t, Descend(old(Snapshot()), CountZones(old(Snapshot()), t, ino), ino, left))
      decreases MAX_DEPTH - nameDepth, 0, 0
    {
      hide CountZones, Descend, ZonesSound, InodesSound, Settled, Noted, NotedAt, Took, Below, Onward, Matches,
        AcceptedSuper;
      nameDepth := nameDepth + 1;
      DescendInto(ino, t);
      nameDepth := nameDepth - 1;
    }

    /** The zones of inode `ino` have had their turn, since `w`. */
    lemma ZonesTaken(w: Walk, e: bool, ino: nat)
      requires Valid() && Fits(w) && Onward(w, Here()) && (e ==> errors) && 0 < ino <= super.ninodes
      requires inodeCount == w.inos && dotted == w.dotted && w.fs.super == super
      requires zoned == w.zoned + if ZonesDue(ino) then {ino} else {}
      requires |w.zones| == super.nzones
      requires !errors && ZonesDue(ino) ==> FileDone(Snapshot(), w.zones, zoneCount, inodes[ino])
      ensures Settled(w, origin, e) && Noted(w, ino) && (w.inos[ino] > 1 ==> NotedAt(w, ino)) ==> Going()
    {
      if Settled(w, origin, e) && Noted(w, ino) && (w.inos[ino] > 1 ==> NotedAt(w, ino)) {
        SettledStays(w, Here(), origin, e, errors);
        if w.inos[ino] > 1 {
          NotedAtStays(w, Here(), ino);
        }
        NotedStays(w, Here(), ino, 0);
      }
    }

    /** The zones of inode `ino` were counted from `w` to `w1`, and then what is below. */
    lemma BelowTaken(w: Walk, w1: Walk, ino: nat, left: nat)
      requires Valid() && Fits(w) && Fits(w1) && Onward(w, w1) && Onward(w1, Here())
      requires 0 < ino <= w.fs.super.ninodes && w1.inos == w.inos
      requires SameKind(inodes, w1.fs.inodes) && SameKind(w1.fs.inodes, w.fs.inodes)
      requires if IsDir(w1.fs.inodes[ino].mode)
               then Took(w1.inos, DirNames(Snapshot(), ino, left), DirNames(w1.fs, ino, left), inodeCount, Loose())
               else inodeCount == w1.inos
      ensures Onward(w, Here())
      ensures Took(w.inos, Below(Snapshot(), ino, left), Below(w.fs, ino, left), inodeCount, Loose())
    {
      hide Fixed, Took, DirNames;
      OnwardTwice(w, w1, Here());
      OnwardLater(w, w1);
      if IsDir(w1.fs.inodes[ino].mode) {
        FewerInDir(w1.fs, w.fs, ino, left);
        TookWiden(w.inos, DirNames(Snapshot(), ino, left), DirNames(w1.fs, ino, left), inodeCount, Loose(),
                  DirNames(Snapshot(), ino, left), DirNames(w.fs, ino, left));
      } else {
        TookNothing(w.inos, multiset{}, Loose());
      }
    }

    /** The zones of an entry's inode, then the directory it may be. */
    method DescendInto(ino: nat, ghost t: Tally)
      requires Valid() && 0 < ino <= super.ninodes && nameDepth <= MAX_DEPTH
      modifies this`inodes, this`inodeMap, this`zoneMap, this`disk, this`inodeCount, this`zoneCount, this`nameDepth,
        this`changed, this`errors, this`zoned, this`dotted
      ensures Valid() && (old(errors) ==> errors) && SameKind(inodes, old(inodes)) && nameDepth == old(nameDepth)
      ensures repair && old(Sound()) ==> Sound()
      ensures repair ==> Onward(old(Here()), Here())
      ensures repair && old(Begun(ino)) ==> Going()
      ensures repair ==> var left := MAX_DEPTH - nameDepth;
        Took(old(inodeCount), Below(Snapshot(), ino, left), Below(old(Snapshot()), ino, left), inodeCount, Loose())
      ensures Keeps(t, Descend(old(Snapshot()), CountZones(old(Snapshot()), t, ino), ino, MAX_DEPTH - old(nameDepth)))
      decreases MAX_DEPTH - nameDepth, inodes[ino].size + 1, 1
    {
      hide CountZones, DirTally, ZonesSound, InodesSound, Settled, Noted, Took, DirNames, FileDone, Onward, Matches,
        AcceptedSuper;
      ghost var r := CountZones(Snapshot(), t, ino);
      ghost var w, e, due := Here(), errors, ZonesDue(ino);
      CheckZones(ino, t);
      ghost var w1 := Here();
      Staying(w1);
      if repair {
        ZonesTaken(w, e, ino);
      }
      if IsDir(inodes[ino].mode) {
        RecursiveCheck(ino, if r.Some? then r.value else t);
      }
      if repair {
        BelowTaken(w, w1, ino, MAX_DEPTH - nameDepth);
      }
    }

    /** recursive_check() */
    method RecursiveCheck(ino: nat, ghost t: Tally)
      requires Valid() && 0 < ino <= super.ninodes && nameDepth <= MAX_DEPTH && IsDir(inodes[ino].mode)
      modifies this`inodes, this`inodeMap, this`zoneMap, this`disk, this`inodeCount, this`zoneCount, this`nameDepth,
        this`changed, this`errors, this`zoned, this`dotted
      ensures Valid() && (old(errors) ==> errors) && SameKind(inodes, old(inodes)) && nameDepth == old(nameDepth)
      ensures repair && old(Sound()) ==> Sound()
      ensures repair ==> Onward(old(Here()), Here())
      ensures repair && old(Going()) ==> Going()
      ensures repair ==> var left := MAX_DEPTH - nameDepth;
        Took(old(inodeCount), DirNames(Snapshot(), ino, left), DirNames(old(Snapshot()), ino, left),
             inodeCount, Loose())
      ensures Keeps(t, DirTally(old(Snapshot()), t, ino, MAX_DEPTH - old(nameDepth)))
      decreases MAX_DEPTH - nameDepth, inodes[ino].size + 1, 0
    {
      hide EntriesTally, ZonesSound, InodesSound, Onward, Settled, Noted, Took, NamesUpTo, Matches, AcceptedSuper;
      ghost var w, e := Here(), errors;
      Staying(w);
      if inodes[ino].size < 2 * dirsize {
        errors := true;
      }
      StillGoing(w, Here(), origin, e, errors);
      if !ValidZone(super, inodes[ino].zone[0]) {
        TookNothing(inodeCount, multiset{}, Loose());
        return;
      }
      CheckEntries(ino, t);
    }

    /** The entries before `offset` have been taken, since `w`. */
    ghost predicate PassedAt(w: Walk, now: Walk, e: bool, ino: nat, offset: nat, left: nat) {
      && Fits(w) && Fits(now) && 0 < ino <= w.fs.super.ninodes && w.fs.super == now.fs.super && Onward(w, now)
      && Steps(w.fs.dirsize, 0, offset) && (0 < offset ==> offset < w.fs.inodes[ino].size + w.fs.dirsize)
      && Took(w.inos, NamesUpTo(now.fs, ino, 0, offset, left), NamesUpTo(w.fs, ino, 0, offset, left), now.inos, e)
    }

    ghost predicate Passing(w: Walk, ino: nat, offset: nat, left: nat)
      reads this
    {
      PassedAt(w, Here(), Loose(), ino, offset, left)
    }

    lemma NonePassed(ino: nat, left: nat)
      requires Valid() && 0 < ino <= super.ninodes
      ensures Passing(Here(), ino, 0, left)
    {
      Staying(Here());
      TookNothing(inodeCount, multiset{}, Loose());
    }

    lemma OnePassed(w: Walk, now: Walk, e: bool, ino: nat, offset: nat, left: nat)
      requires Valid() && Fits(now) && PassedAt(w, now, e || super.firstZone == 0, ino, offset, left)
      requires w.fs.super == super && w.fs.dirsize == dirsize && (e ==> errors)
      requires offset % 16 == 0 && offset < w.fs.inodes[ino].size && Onward(now, Here())
      requires Took(now.inos, FileNames(Snapshot(), ino, offset, left), FileNames(now.fs, ino, offset, left),
                    inodeCount, Loose())
      ensures Passing(w, ino, offset + dirsize, left)
    {
      hide Took, NamesUpTo, FileNames, Fixed;
      OnwardTwice(w, now, Here());
      OnwardLater(w, now);
      OnwardLater(now, Here());
      OneStepMore(dirsize, 0, offset);
      EntryTaken(w.fs, now.fs, Snapshot(), ino, offset, left, w.inos, now.inos, e || super.firstZone == 0,
                 inodeCount, Loose());
    }

    lemma AllPassed(w: Walk, ino: nat, offset: nat, left: nat)
      requires Valid() && Passing(w, ino, offset, left) && w.fs.super == super
      requires w.fs.inodes[ino].size <= offset && ValidZone(super, w.fs.inodes[ino].zone[0])
      ensures Onward(w, Here())
      ensures Took(w.inos, DirNames(Snapshot(), ino, left), DirNames(w.fs, ino, left), inodeCount, Loose())
    {
      hide Took, NamesUpTo, DirNames, Fixed;
      OnwardLater(w, Here());
      DirTaken(w.fs, Snapshot(), ino, offset, left, w.inos, inodeCount, Loose());
    }

    /** The loop over the entries of a directory. */
    method CheckEntries(ino: nat, ghost t: Tally)
      requires Valid() && 0 < ino <= super.ninodes && nameDepth <= MAX_DEPTH && ValidZone(super, inodes[ino].zone[0])
      modifies this`inodes, this`inodeMap, this`zoneMap, this`disk, this`inodeCount, this`zoneCount, this`nameDepth,
        this`changed, this`errors, this`zoned, this`dotted
      ensures Valid() && (old(errors) ==> errors) && SameKind(inodes, old(inodes)) && nameDepth == old(nameDepth)
      ensures repair && old(Sound()) ==> Sound()
      ensures repair ==> Onward(old(Here()), Here())
      ensures repair && old(Going()) ==> Going()
      ensures repair ==> var left := MAX_DEPTH - nameDepth;
        Took(old(inodeCount), DirNames(Snapshot(), ino, left), DirNames(old(Snapshot()), ino, left),
             inodeCount, Loose())
      ensures Keeps(t, EntriesTally(old(Snapshot()), t, ino, 0, MAX_DEPTH - old(nameDepth)))
      decreases MAX_DEPTH - nameDepth, inodes[ino].size, 1
    {
      hide FileTally, ZonesSound, InodesSound, Settled, Noted, PassedAt, Matches, Onward, Took, DirNames, FileNames,
        AcceptedSuper;
      ghost var was, left := Snapshot(), MAX_DEPTH - nameDepth;
      ghost var cur := Some(t);
      var offset := 0;
      NonePassed(ino, left);
      while offset < inodes[ino].size
        invariant Valid() && offset % 16 == 0 && 0 <= offset
        invariant (old(errors) ==> errors) && SameKind(inodes, old(inodes)) && nameDepth == old(nameDepth)
        invariant repair && old(Sound()) ==> Sound()
        invariant repair && old(Going()) ==> Going()
        invariant repair ==> Passing(old(Here()), ino, offset, left)
        invariant Keeps(t, cur)
        invariant EntriesTally(was, t, ino, 0, left) ==
          if cur.Some? then EntriesTally(was, cur.value, ino, offset, left) else None
        decreases inodes[ino].size - offset
      {
        ghost var before := if cur.Some? then cur.value else t;
        ghost var w, e := Here(), errors;
        CheckFile(ino, offset, before);
        if repair {
          OnePassed(old(Here()), w, e, ino, offset, left);
        }
        cur := if cur.Some? then FileTally(was, before, ino, offset, left) else None;
        assert dirsize % 16 == 0;
        offset := offset + dirsize;
      }
      if repair {
        AllPassed(old(Here()), ino, offset, left);
      }
    }

    /** check_counts(), for one inode. */
    method CheckInodeCount(i: nat, ghost t: Tally)
      requires Valid() && 0 < i <= super.ninodes
      modifies this`inodes, this`inodeMap, this`changed, this`errors
      ensures Valid() && (old(errors) ==> errors)
      ensures forall j :: 0 <= j <= super.ninodes && j != i ==>
        inodes[j] == old(inodes)[j] && inodeMap[j] == old(inodeMap)[j]
      ensures !repair ==> inodes == old(inodes) && inodeMap == old(inodeMap)
      ensures inodeCount[i] == t.inos[i] ==>
        if InodeAgrees(old(Snapshot()), t, warnMode, i) then Untouched() else !repair ==> errors
      ensures repair ==> InodeRepaired(inodes, inodeMap, inodeCount, i)
      ensures repair ==> inodes[i] == Mended(old(inodes)[i], old(inodeMap)[i], inodeCount[i], warnMode)
    {
      ghost var was := Snapshot();
      ClearMode(i);
      if inodeCount[i] == 0 {
        if inodeMap[i] {
          var yes := Ask();
          if yes {
            inodeMap := inodeMap[i := false];
            changed := true;
          }
        }
        return;
      }
      if !inodeMap[i] {
        var yes := Ask();
        if yes {
          inodeMap := inodeMap[i := true];
          changed := true;
        }
      }
      if inodes[i].nlinks != inodeCount[i] {
        SetLinks(i);
      }
    }

    /** An unused inode should have no mode. */
    method ClearMode(i: nat)
      requires Valid() && 0 < i <= super.ninodes
      modifies this`inodes, this`changed, this`errors
      ensures Valid() && (old(errors) ==> errors) && (!repair ==> inodes == old(inodes))
      ensures forall j :: 0 <= j <= super.ninodes && j != i ==> inodes[j] == old(inodes)[j]
      ensures if !inodeMap[i] && old(inodes)[i].mode != 0 && warnMode then !repair ==> errors else Untouched()
      ensures repair ==>
        inodes[i] == if !inodeMap[i] && warnMode then old(inodes)[i].(mode := 0) else old(inodes)[i]
    {
      if !inodeMap[i] && inodes[i].mode != 0 && warnMode {
        var yes := Ask();
        if yes {
          inodes := inodes[i := inodes[i].(mode := 0)];
          changed := true;
        }
      }
    }

    method SetLinks(i: nat)
      requires Valid() && 0 < i <= super.ninodes
      modifies this`inodes, this`changed, this`errors
      ensures Valid() && (old(errors) ==> errors)
      ensures if repair then inodes == old(inodes)[i := old(inodes)[i].(nlinks := inodeCount[i])]
              else errors && inodes == old(inodes)
    {
      var yes := Ask();
      if yes {
        inodes := inodes[i := inodes[i].(nlinks := inodeCount[i])];
        changed := true;
      }
    }

    /** The inodes before `n` are mended; those from `n` on are as they were. */
    ghost predicate MendedUpTo(was: Fs, n: nat)
      requires Valid() && Sized(was) && was.super == super
      reads this
    {
      && inodes[0] == was.inodes[0]
      && (forall j :: 0 < j < n && j <= super.ninodes ==>
            inodes[j] == Mended(was.inodes[j], was.inodeMap[j], inodeCount[j], warnMode))
      && (forall j :: n <= j <= super.ninodes ==> inodes[j] == was.inodes[j] && inodeMap[j] == was.inodeMap[j])
    }

    method CheckInodeCounts(ghost t: Tally)
      requires Valid()
      modifies this`inodes, this`inodeMap, this`changed, this`errors
      ensures Valid() && (old(errors) ==> errors)
      ensures !repair ==> inodes == old(inodes) && inodeMap == old(inodeMap)
      ensures old(Matches(t)) ==>
        if forall i :: 0 < i <= super.ninodes ==> InodeAgrees(old(Snapshot()), t, warnMode, i) then Untouched()
        else !repair ==> errors
      ensures repair ==> forall i :: 0 < i <= super.ninodes ==> InodeRepaired(inodes, inodeMap, inodeCount, i)
      ensures repair ==> MendedUpTo(old(Snapshot()), super.ninodes + 1)
    {
      ghost var was := Snapshot();
      var i := 1;
      while i <= super.ninodes
        invariant 1 <= i <= super.ninodes + 1 && Valid() && (old(errors) ==> errors)
        invariant !repair ==> inodes == old(inodes) && inodeMap == old(inodeMap)
        invariant old(Matches(t)) ==>
          if forall j :: 0 < j < i ==> InodeAgrees(was, t, warnMode, j) then Untouched() else !repair ==> errors
        invariant repair ==> forall j :: 0 < j < i ==> InodeRepaired(inodes, inodeMap, inodeCount, j)
        invariant repair ==> MendedUpTo(was, i)
      {
        ghost var inodes1, map1 := inodes, inodeMap;
        CheckInodeCount(i, t);
        forall j | 0 < j < i && repair
          ensures InodeRepaired(inodes, inodeMap, inodeCount, j)
        {
          assert InodeRepaired(inodes1, map1, inodeCount, j);
        }
        i := i + 1;
      }
    }

    /** check_counts(), for one zone. */
    method CheckZoneCount(z: nat, ghost t: Tally)
      requires Valid() && ValidZone(super, z)
      modifies this`zoneMap, this`changed, this`errors
      ensures Valid() && (old(errors) ==> errors)
      ensures forall y :: ValidZone(super, y) && y != z ==>
        ZoneBit(super, zoneMap, y) == ZoneBit(super, old(zoneMap), y)
      ensures !repair ==> zoneMap == old(zoneMap)
      ensures zoneCount[z] == t.refs[z] ==>
        if ZoneAgrees(old(Snapshot()), t, z) then Untouched() else !repair ==> errors
      ensures repair && zoneCount[z] <= 1
        && (ZoneBit(super, old(zoneMap), z) <==> zoneCount[z] == 1 || ZoneBit(super, start, z))
        ==> ZoneRepaired(super, zoneMap, zoneCount, start, unreadable, z)
    {
      var inUse := zoneMap[z - super.firstZone + 1];
      if (if inUse then 1 else 0) == zoneCount[z] {
        return;
      }
      if zoneCount[z] == 0 {
        if z in unreadable {
          return;
        }
        var yes := Ask();
        if yes {
          zoneMap := zoneMap[z - super.firstZone + 1 := false];
          changed := true;
        }
      }
    }

    method CheckZoneCounts(ghost t: Tally)
      requires Valid()
      modifies this`zoneMap, this`changed, this`errors
      ensures Valid() && (old(errors) ==> errors)
      ensures old(Matches(t)) ==>
        if forall z :: super.firstZone <= z < super.nzones ==> ZoneAgrees(old(Snapshot()), t, z) then Untouched()
        else !repair ==> errors
      ensures repair && old(ZonesSound(super, zoneMap, zoneCount, start)) ==>
        forall z :: super.firstZone <= z < super.nzones ==>
          ZoneRepaired(super, zoneMap, zoneCount, start, unreadable, z)
    {
      ghost var was := Snapshot();
      var z := super.firstZone as nat;
      while z < super.nzones
        invariant super.firstZone <= z <= super.nzones && Valid() && (old(errors) ==> errors)
        invariant !repair ==> zoneMap == old(zoneMap)
        invariant old(Matches(t)) ==>
          if forall y :: super.firstZone <= y < z ==> ZoneAgrees(was, t, y) then Untouched() else !repair ==> errors
        invariant forall y :: z <= y < super.nzones ==> ZoneBit(super, zoneMap, y) == ZoneBit(super, old(zoneMap), y)
        invariant repair && old(ZonesSound(super, zoneMap, zoneCount, start)) ==>
          forall y :: super.firstZone <= y < z ==> ZoneRepaired(super, zoneMap, zoneCount, start, unreadable, y)
      {
        ghost var map1 := zoneMap;
        CheckZoneCount(z, t);
        forall y | super.firstZone <= y < z && repair && old(ZonesSound(super, zoneMap, zoneCount, start))
          ensures ZoneRepaired(super, zoneMap, zoneCount, start, unreadable, y)
        {
          assert ZoneRepaired(super, map1, zoneCount, start, unreadable, y);
        }
        z := z + 1;
      }
    }

    /** check(): the verdict and the repair. */
    method Check()
      requires Valid() && nameDepth == 0 && IsDir(inodes[ROOT_INO].mode)
      modifies this
      ensures Valid() && nameDepth == 0
      // A consistent file system is left alone and nothing is reported.
      ensures Consistent(old(Snapshot()), warnMode) ==> Untouched()
      // Where the walk finds no fault, the counts are the reference tally.
      ensures WholeTally(old(Snapshot()), MAX_DEPTH).Some? ==> Matches(WholeTally(old(Snapshot()), MAX_DEPTH).value)
      // Without repair, anything else is reported.
      ensures !Consistent(old(Snapshot()), warnMode) && !repair ==> errors
      // An automatic repair ends in order, whatever was on the disk.
      ensures start == old(zoneMap)
      ensures repair ==> forall i :: 0 < i <= super.ninodes ==> InodeRepaired(inodes, inodeMap, inodeCount, i)
      ensures repair ==> forall z :: super.firstZone <= z < super.nzones ==>
        ZoneRepaired(super, zoneMap, zoneCount, start, unreadable, z)
      // It clears nothing without a cause. Each inode is counted as often as the tree
      // still names it, or more, and no more than the tree named it before; and the
      // zones of a file are counted, unless "." or ".." named it first.
      ensures repair ==> Fixed(Snapshot(), old(Snapshot()), zoneCount)
      ensures repair ==> forall i :: 0 < i <= super.ninodes ==>
        && Cap(DirNames(Snapshot(), ROOT_INO, MAX_DEPTH)[i]) <= inodeCount[i] as nat
        && (errors || super.firstZone == 0 || inodeCount[i] as nat <= DirNames(old(Snapshot()), ROOT_INO, MAX_DEPTH)[i])
      ensures repair ==> forall i :: 0 < i <= super.ninodes && inodeCount[i] > 0 ==>
        && IsNamed(old(Snapshot()), i) && inodes[i].mode == old(inodes)[i].mode
        && (errors || !HasZones(inodes[i].mode) || DotNamed(old(Snapshot()), i)
            || ZonesHit(Snapshot(), zoneCount, inodes[i]))
      // So whatever can still be reached from the root is marked.
      ensures repair ==> ReachedMarked(Snapshot(), MAX_DEPTH)
    {
      hide WholeTally, Agrees, ZonesSound, InodesSound, ZoneRepaired, InodeRepaired, Fixed, Took, DirNames, ZonesHit,
        IsNamed, DotNamed, Settled, Noted, MendedUpTo, ReachedMarked;
      ghost var was := Snapshot();
      ResetCounts();
      ghost var none := inodeCount;
      WalkTree();
      ghost var w, e := Here(), errors;
      ghost var r := WholeTally(was, MAX_DEPTH);
      CheckCounts(if r.Some? then r.value else Nothing());
      if repair {
        NothingLost(w, e);
        AllTaken(w.fs, was, none, e);
        ReachedIsMarked();
      }
    }

    /** Bringing maps and link counts into line loses nothing that the walk has kept. */
    lemma NothingLost(w: Walk, e: bool)
      requires Valid() && Fits(w) && Settled(w, origin, e) && Noted(w, 0) && (e ==> errors)
      requires w.fs.super == super && InodesSound(inodeCount, w.fs.inodeMap) && MendedUpTo(w.fs, super.ninodes + 1)
      requires Snapshot() == w.fs.(inodes := inodes, inodeMap := inodeMap, zoneMap := zoneMap)
      requires w.inos == inodeCount && w.zones == zoneCount
      ensures Later(Snapshot(), w.fs) && Fixed(Snapshot(), origin, zoneCount)
      ensures forall i :: 0 < i <= super.ninodes && inodeCount[i] > 0 ==>
        && IsNamed(origin, i) && inodes[i].mode == w.fs.inodes[i].mode
        && (errors || !HasZones(inodes[i].mode) || DotNamed(origin, i) || ZonesHit(Snapshot(), zoneCount, inodes[i]))
    {
      MendedFixed(w.fs);
      FixedTwice(Snapshot(), zoneCount, w.fs, w.zones, origin);
      forall i | 0 < i <= super.ninodes && inodeCount[i] > 0
        ensures
          && IsNamed(origin, i) && inodes[i].mode == w.fs.inodes[i].mode
          && (errors || !HasZones(inodes[i].mode) || DotNamed(origin, i) || ZonesHit(Snapshot(), zoneCount, inodes[i]))
      {
        assert NotedAt(w, i);
        if !errors && i in w.zoned {
          assert ZonedAt(w, i);
          ZonesHitStays(Snapshot(), w.fs, zoneCount, zoneCount, i);
        }
      }
    }

    lemma AllTaken(f: Fs, was: Fs, none: seq<u8>, e: bool)
      requires Valid() && Sized(f) && Sized(was) && Later(Snapshot(), f) && was.super == super && (e ==> errors)
      requires |none| == |inodeCount| && forall i :: 0 <= i < |none| ==> none[i] == 0
      requires Took(none, DirNames(f, ROOT_INO, MAX_DEPTH), DirNames(was, ROOT_INO, MAX_DEPTH), inodeCount,
                    e || super.firstZone == 0)
      ensures forall i :: 0 < i <= super.ninodes ==>
        && Cap(DirNames(Snapshot(), ROOT_INO, MAX_DEPTH)[i]) <= inodeCount[i] as nat
        && (errors || super.firstZone == 0 || inodeCount[i] as nat <= DirNames(was, ROOT_INO, MAX_DEPTH)[i])
    {
      hide DirNames, Later;
      FewerInDir(Snapshot(), f, ROOT_INO, MAX_DEPTH);
    }

    lemma ReachedIsMarked()
      requires Valid() && forall i :: 0 < i <= super.ninodes ==> InodeRepaired(inodes, inodeMap, inodeCount, i)
      requires forall i :: 0 < i <= super.ninodes ==>
        Cap(DirNames(Snapshot(), ROOT_INO, MAX_DEPTH)[i]) <= inodeCount[i] as nat
      ensures ReachedMarked(Snapshot(), MAX_DEPTH)
    {
      forall path: seq<nat>, i: nat | |path| <= MAX_DEPTH && Leads(Snapshot(), ROOT_INO, path, i)
        ensures 0 < i <= super.ninodes && inodeMap[i]
      {
        PathNames(Snapshot(), ROOT_INO, path, i, MAX_DEPTH);
        assert InodeRepaired(inodes, inodeMap, inodeCount, i);
      }
    }

    lemma MendedFixed(was: Fs)
      requires Valid() && Sized(was) && was.super == super && MendedUpTo(was, super.ninodes + 1)
      requires Snapshot() == was.(inodes := inodes, inodeMap := inodeMap, zoneMap := zoneMap)
      ensures Fixed(Snapshot(), was, zoneCount)
    {
    }

    ghost function Nothing(): Tally {
      Tally(multiset{}, multiset{})
    }

    method ResetCounts()
      requires Valid()
      modifies this`inodeCount, this`zoneCount, this`start, this`origin, this`zoned, this`dotted
      ensures Valid() && Matches(Nothing()) && Sound() && start == zoneMap && origin == Snapshot() && Going()
    {
      start, origin, zoned, dotted := zoneMap, Snapshot(), {}, {};
      inodeCount := seq(super.ninodes + 1, _ => 0);
      zoneCount := seq(super.nzones, _ => 0);
    }

    method WalkTree()
      requires Valid() && nameDepth == 0 && IsDir(inodes[ROOT_INO].mode) && Matches(Nothing()) && Sound() && Going()
      modifies this`inodes, this`inodeMap, this`zoneMap, this`disk, this`inodeCount, this`zoneCount, this`nameDepth,
        this`changed, this`errors, this`zoned, this`dotted
      ensures Valid() && nameDepth == 0 && (old(errors) ==> errors) && SameKind(inodes, old(inodes))
      ensures repair ==> Sound() && Going()
      ensures repair ==> Took(old(inodeCount), DirNames(Snapshot(), ROOT_INO, MAX_DEPTH),
                              DirNames(old(Snapshot()), ROOT_INO, MAX_DEPTH), inodeCount, Loose())
      ensures Keeps(Nothing(), WholeTally(old(Snapshot()), MAX_DEPTH))
    {
      hide CountZones, DirTally, ZonesSound, InodesSound, Fixed, Onward, Took, DirNames, ZonedAt, IsNamed, DotNamed;
      DescendInto(ROOT_INO, Nothing());
    }

    /** check_counts() */
    method CheckCounts(ghost t: Tally)
      requires Valid()
      modifies this`inodes, this`inodeMap, this`zoneMap, this`changed, this`errors
      ensures Valid() && (old(errors) ==> errors)
      ensures old(Matches(t)) ==> if Agrees(old(Snapshot()), t, warnMode) then Untouched() else !repair ==> errors
      ensures repair ==> forall i :: 0 < i <= super.ninodes ==> InodeRepaired(inodes, inodeMap, inodeCount, i)
      ensures repair && old(Sound()) ==> forall z :: super.firstZone <= z < super.nzones ==>
        ZoneRepaired(super, zoneMap, zoneCount, start, unreadable, z)
      ensures repair ==> MendedUpTo(old(Snapshot()), super.ninodes + 1)
    {
      ghost var was := Snapshot();
      CheckInodeCounts(t);
      forall z | super.firstZone <= z < super.nzones
        ensures ZoneAgrees(Snapshot(), t, z) <==> ZoneAgrees(was, t, z)
      {
      }
      CheckZoneCounts(t);
    }
  }
}
