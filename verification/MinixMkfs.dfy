/** How mkfs.minix fills a version 1 file system (disk-utils/mkfs.minix.c): the
    maps, the root directory, and the file that collects all bad zones through
    direct, indirect and double indirect blocks.

    A step that the program ends with an error message returns `ok == false`.
  */
module MinixMkfs {
  import opened Common
  import opened MinixFormat

  const MAX_GOOD_BLOCKS := 512
  const TEST_BUFFER_BLOCKS := 16

  // ---------- Lists of zones ----------

  /** The k-th of a list of zones, 0 past its end. */
  ghost function At(zones: seq<u16>, k: nat): u16 {
    if k < |zones| then zones[k] else 0
  }

  ghost predicate Increasing(zones: seq<u16>) {
    forall i, j :: 0 <= i < j < |zones| ==> zones[i] < zones[j]
  }

  ghost predicate MapOf(s: Super, zoneMap: seq<bool>) {
    Mapped(s) && |zoneMap| == MapBits(s.zmapBlocks)
  }

  /** The marked zones from `z` on, in increasing order. */
  ghost function MarkedFrom(s: Super, zoneMap: seq<bool>, z: nat): seq<u16>
    requires MapOf(s, zoneMap) && s.firstZone <= z
    decreases s.nzones - z
  {
    if z >= s.nzones then [] else (if ZoneBit(s, zoneMap, z) then [z] else []) + MarkedFrom(s, zoneMap, z + 1)
  }

  ghost function Marked(s: Super, zoneMap: seq<bool>): seq<u16>
    requires MapOf(s, zoneMap)
  {
    MarkedFrom(s, zoneMap, s.firstZone)
  }

  /** `bad` lists exactly the marked zones from `z` on, in increasing order. */
  ghost predicate Lists(s: Super, zoneMap: seq<bool>, bad: seq<u16>, z: nat)
    requires MapOf(s, zoneMap)
  {
    && Increasing(bad)
    && (forall k :: 0 <= k < |bad| ==> z <= bad[k] && ValidZone(s, bad[k]) && ZoneBit(s, zoneMap, bad[k]))
    && (forall y: nat :: z <= y && ValidZone(s, y) && ZoneBit(s, zoneMap, y) ==> y in bad)
  }

  lemma {:induction false} MarkedLists(s: Super, zoneMap: seq<bool>, z: nat)
    requires MapOf(s, zoneMap) && s.firstZone <= z
    ensures Lists(s, zoneMap, MarkedFrom(s, zoneMap, z), z)
    decreases s.nzones - z
  {
    if z < s.nzones {
      MarkedLists(s, zoneMap, z + 1);
      ListsOneMore(s, zoneMap, MarkedFrom(s, zoneMap, z + 1), z);
    }
  }

  lemma ListsOneMore(s: Super, zoneMap: seq<bool>, rest: seq<u16>, z: u16)
    requires MapOf(s, zoneMap) && ValidZone(s, z) && Lists(s, zoneMap, rest, z + 1)
    ensures if ZoneBit(s, zoneMap, z) then Lists(s, zoneMap, [z] + rest, z) else Lists(s, zoneMap, [] + rest, z)
  {
    if ZoneBit(s, zoneMap, z) {
      var all := [z] + rest;
      ConsIs(z, rest, all);
      forall y: nat | z <= y && ValidZone(s, y) && ZoneBit(s, zoneMap, y)
        ensures y in all
      {
        assert y == z || y in rest;
      }
    } else {
      assert [] + rest == rest;
    }
  }

  lemma ConsIs(z: u16, rest: seq<u16>, all: seq<u16>)
    requires Increasing(rest) && (forall k :: 0 <= k < |rest| ==> z < rest[k]) && all == [z] + rest
    ensures Increasing(all) && (forall k :: 0 <= k < |all| ==> all[k] == z || all[k] in rest)
    ensures z in all && forall y :: y in rest ==> y in all
  {
    assert all[0] == z && forall k :: 0 < k < |all| ==> all[k] == rest[k - 1];
  }

  /** Marking one more zone makes the list one longer. */
  lemma {:induction false} MarkOneMore(s: Super, zoneMap: seq<bool>, x: nat, z: nat)
    requires MapOf(s, zoneMap) && s.firstZone <= z && ValidZone(s, x) && !ZoneBit(s, zoneMap, x)
    ensures var more := zoneMap[x - s.firstZone + 1 := true];
      |MarkedFrom(s, more, z)| == |MarkedFrom(s, zoneMap, z)| + if z <= x then 1 else 0
    decreases s.nzones - z
  {
    if z < s.nzones {
      MarkOneMore(s, zoneMap, x, z + 1);
    }
  }

  lemma PrefixGrows(list: seq<u16>, k: nat)
    requires k < |list| && forall i, j :: 0 <= i < j < |list| ==> list[i] != list[j]
    ensures list[k] !in list[..k] && forall z: nat :: z in list[..k + 1] <==> z in list[..k] || z == list[k]
  {
    assert list[..k + 1] == list[..k] + [list[k]];
  }

  lemma {:induction false} NothingMarked(s: Super, zoneMap: seq<bool>, z: nat)
    requires MapOf(s, zoneMap) && s.firstZone <= z
    requires forall y: nat :: ValidZone(s, y) ==> !ZoneBit(s, zoneMap, y)
    ensures MarkedFrom(s, zoneMap, z) == []
    decreases s.nzones - z
  {
    if z < s.nzones {
      NothingMarked(s, zoneMap, z + 1);
    }
  }

  /** How many zones from `z` on are not marked. */
  ghost function Unmarked(s: Super, zoneMap: seq<bool>, z: nat): nat
    requires MapOf(s, zoneMap) && s.firstZone <= z
    decreases s.nzones - z
  {
    if z >= s.nzones then 0 else (if ZoneBit(s, zoneMap, z) then 0 else 1) + Unmarked(s, zoneMap, z + 1)
  }

  /** All zones are marked or not. */
  lemma {:induction false} MarkedOrNot(s: Super, zoneMap: seq<bool>, z: nat)
    requires MapOf(s, zoneMap) && s.firstZone <= z
    ensures |MarkedFrom(s, zoneMap, z)| + Unmarked(s, zoneMap, z) == if z < s.nzones then s.nzones - z else 0
    decreases s.nzones - z
  {
    if z < s.nzones {
      MarkedOrNot(s, zoneMap, z + 1);
    }
  }

  /** The zone after the last one taken. */
  ghost function NextZone(s: Super, good: seq<u16>): nat {
    if good == [] then s.firstZone else good[|good| - 1] as nat + 1
  }

  // ---------- The tree of the bad inode ----------

  /** The words of an indirect block that lists the zones from number `p` on. */
  ghost predicate ListedIn(blk: Block, bad: seq<u16>, p: nat) {
    forall j :: 0 <= j < 512 ==> blk[j] == At(bad, p + j)
  }

  /** Number of indirect blocks needed below the double indirect one. */
  ghost function Leaves(n: nat): nat {
    if n <= 519 then 0 else (n - 519 + 511) / 512
  }

  /** How many helper blocks the bad inode takes: none, the indirect block, or the
      indirect, the double indirect, and the blocks below it. */
  ghost function Helpers(n: nat): nat {
    if n <= 7 then 0 else if n <= 519 then 1 else 2 + Leaves(n)
  }

  /** Indirect block number `m`: the inode's own, then those below the double
      indirect block. `good` lists the root block and then the helper blocks. */
  ghost function IndirectBlock(good: seq<u16>, m: nat): u16
    requires m == 0 ==> |good| >= 2
    requires m > 0 ==> m + 2 < |good|
  {
    if m == 0 then good[1] else good[m + 2]
  }

  /** The first `n` indirect blocks are on disk. */
  ghost predicate IndirectsOn(disk: seq<Block>, good: seq<u16>, bad: seq<u16>, n: nat) {
    && (n > 0 ==> |good| >= 2) && (n > 1 ==> n + 1 < |good|)
    && (forall k :: 0 <= k < |good| ==> good[k] < |disk|)
    && forall m :: 0 <= m < n ==> ListedIn(disk[IndirectBlock(good, m)], bad, 7 + 512 * m)
  }

  /** The words of the double indirect block: the helper blocks after itself. */
  ghost predicate Indexes(blk: Block, good: seq<u16>) {
    forall i :: 0 <= i < 512 ==> blk[i] == At(good, i + 3)
  }

  ghost predicate DirectSlots(zone: Slots, bad: seq<u16>) {
    forall k :: 0 <= k < 7 ==> zone[k] == At(bad, k)
  }

  /** The slots and blocks of the bad inode hold exactly the list `bad`. */
  ghost predicate BadTree(disk: seq<Block>, zone: Slots, good: seq<u16>, bad: seq<u16>) {
    && |good| == 1 + Helpers(|bad|)
    && DirectSlots(zone, bad) && zone[7] == At(good, 1) && zone[8] == At(good, 2)
    && IndirectsOn(disk, good, bad, if |bad| <= 7 then 0 else 1 + Leaves(|bad|))
    && (|bad| > 519 ==> Indexes(disk[good[2]], good))
  }

  lemma LeavesIs(n: nat, i: nat)
    requires i > 0 && 519 + 512 * (i - 1) < n <= 519 + 512 * i
    ensures Leaves(n) == i
  {
  }

  lemma LeavesAtLeast(n: nat, i: nat)
    requires 519 + 512 * i < n
    ensures Leaves(n) > i
  {
  }

  /** Before the first indirect block is written. */
  lemma DoubleStart(disk: seq<Block>, good: seq<u16>, bad: seq<u16>)
    requires |good| == 3 && forall k :: 0 <= k < |good| ==> good[k] < |disk|
    ensures IndirectsOn(disk, good, bad, 0) && Indexes(ZeroBlock(), good)
  {
  }

  /** Another word of the double indirect block, for another helper block. */
  lemma IndexesSnoc(blk: Block, good: seq<u16>, b: u16)
    requires Indexes(blk, good) && 3 <= |good| < 515
    ensures Indexes(blk[|good| - 3 := b], good + [b])
  {
  }

  /** One more block taken leaves what is on disk as it was. */
  lemma IndirectsSnoc(disk: seq<Block>, good: seq<u16>, bad: seq<u16>, n: nat, b: u16)
    requires IndirectsOn(disk, good, bad, n) && b < |disk|
    ensures IndirectsOn(disk, good + [b], bad, n)
  {
    forall m | 0 <= m < n
      ensures ListedIn(disk[IndirectBlock(good + [b], m)], bad, 7 + 512 * m)
    {
      assert IndirectBlock(good + [b], m) == IndirectBlock(good, m);
    }
  }

  /** Writing indirect block number `n`. */
  lemma IndirectWritten(disk: seq<Block>, good: seq<u16>, bad: seq<u16>, n: nat, blk: Block)
    requires IndirectsOn(disk, good, bad, n) && Increasing(good)
    requires if n == 0 then |good| >= 2 else n + 2 < |good|
    requires ListedIn(blk, bad, 7 + 512 * n)
    ensures IndirectsOn(disk[IndirectBlock(good, n) := blk], good, bad, n + 1)
  {
    var after := disk[IndirectBlock(good, n) := blk];
    forall m | 0 <= m < n + 1
      ensures ListedIn(after[IndirectBlock(good, m)], bad, 7 + 512 * m)
    {
      if m < n {
        assert IndirectBlock(good, m) != IndirectBlock(good, n);
        assert ListedIn(disk[IndirectBlock(good, m)], bad, 7 + 512 * m);
      }
    }
  }

  /** Writing the double indirect block touches no indirect block. */
  lemma DoubleWritten(disk: seq<Block>, good: seq<u16>, bad: seq<u16>, n: nat, blk: Block)
    requires IndirectsOn(disk, good, bad, n) && Increasing(good) && |good| > 2
    ensures IndirectsOn(disk[good[2] := blk], good, bad, n)
  {
    forall m | 0 <= m < n
      ensures ListedIn(disk[good[2] := blk][IndirectBlock(good, m)], bad, 7 + 512 * m)
    {
      assert IndirectBlock(good, m) != good[2];
      assert ListedIn(disk[IndirectBlock(good, m)], bad, 7 + 512 * m);
    }
  }

  /** Every zone after the last one taken and before `z` is marked. */
  ghost predicate NoneFree(s: Super, zoneMap: seq<bool>, good: seq<u16>, z: nat)
    requires MapOf(s, zoneMap)
  {
    forall y: nat :: ValidZone(s, y) && y < z && (good == [] || good[|good| - 1] < y) ==> ZoneBit(s, zoneMap, y)
  }

  // ---------- The root directory ----------

  /** The root directory: "." and "..", and ".badblocks" when there are bad blocks.
      Words are little-endian. */
  function RootBlock(dirsize: nat, anyBad: bool): Block
    requires dirsize in {16, 32}
  {
    var w := dirsize / 2;
    var b := ZeroBlock()[0 := 1][1 := 0x002E][w := 1][w + 1 := 0x2E2E];
    if !anyBad then b
    else
      var v := 2 * w;
      b[v := 2][v + 1 := 0x622E][v + 2 := 0x6461][v + 3 := 0x6C62][v + 4 := 0x636F][v + 5 := 0x736B]
  }

  function RootInode(dirsize: nat, anyBad: bool, blk: u16): Inode {
    Inode(S_IFDIR_755, if anyBad then 3 * dirsize else 2 * dirsize, 2, ZeroInode().zone[0 := blk])
  }

  function BadInode(bad: seq<u16>, zone: Slots): Inode {
    if bad == [] then ZeroInode() else Inode(S_IFREG, |bad| * 1024, 1, zone)
  }

  /** What mkfs writes to the device. */
  datatype Tables = Tables(super: Super, dirsize: nat, inodes: seq<Inode>, inodeMap: seq<bool>, zoneMap: seq<bool>,
                           disk: seq<Block>)

  ghost predicate TableSizes(t: Tables) {
    && AcceptedSuper(t.super) && MapOf(t.super, t.zoneMap)
    && t.super.firstZone == FirstZoneData(t.super) && t.super.ninodes >= 2
    && t.dirsize in {16, 32} && |t.disk| >= t.super.nzones
    && |t.inodes| == t.super.ninodes + 1 && |t.inodeMap| == MapBits(t.super.imapBlocks)
  }

  /** `bad` are the bad zones, `good` the root block and the helper blocks; exactly
      these are marked in use. */
  ghost predicate ZonesBuilt(s: Super, zoneMap: seq<bool>, good: seq<u16>, bad: seq<u16>)
    requires MapOf(s, zoneMap)
  {
    && Increasing(bad) && Increasing(good) && 1 <= |good| < MAX_GOOD_BLOCKS
    && (forall k :: 0 <= k < |bad| ==> ValidZone(s, bad[k]))
    && (forall k :: 0 <= k < |good| ==> ValidZone(s, good[k]) && good[k] !in bad)
    && (forall z: nat :: ValidZone(s, z) ==> (ZoneBit(s, zoneMap, z) <==> z in bad || z in good))
  }

  ghost predicate InodesBuilt(t: Tables, good: seq<u16>, bad: seq<u16>)
    requires TableSizes(t) && |good| >= 1
  {
    && t.inodes[ROOT_INO] == RootInode(t.dirsize, bad != [], good[0])
    && t.inodes[BAD_INO] == BadInode(bad, t.inodes[BAD_INO].zone)
    && (forall i :: 2 < i <= t.super.ninodes ==> t.inodes[i] == ZeroInode())
    && (forall i :: 1 <= i <= t.super.ninodes ==> (t.inodeMap[i] <==> i == 1 || (i == 2 && bad != [])))
  }

  /** What a finished run leaves behind when the zones `bad` were marked. */
  ghost predicate BuiltFrom(t: Tables, good: seq<u16>, bad: seq<u16>) {
    && TableSizes(t) && ZonesBuilt(t.super, t.zoneMap, good, bad) && InodesBuilt(t, good, bad)
    && t.disk[good[0]] == RootBlock(t.dirsize, bad != [])
    && BadTree(t.disk, t.inodes[BAD_INO].zone, good, bad)
  }

  class Mkfs {
    const super: Super
    const dirsize: nat
    var inodes: seq<Inode>
    var inodeMap: seq<bool>
    var zoneMap: seq<bool>
    var disk: seq<Block>
    var good: seq<u16>      // good_blocks_table, as far as it is used
    var badBlocks: nat      // fs_bad_blocks

    ghost predicate Valid()
      reads this
    {
      && MapOf(super, zoneMap) && super.logZoneSize == 0
      && super.firstZone == FirstZoneData(super) && super.ninodes >= 2
      && dirsize in {16, 32}
      && |inodes| == super.ninodes + 1
      && |inodeMap| == MapBits(super.imapBlocks)
      && |disk| >= super.nzones
      && |good| < MAX_GOOD_BLOCKS && Increasing(good)
      && (forall k :: 0 <= k < |good| ==> ValidZone(super, good[k]) && !ZoneBit(super, zoneMap, good[k]))
      && |good| + Unmarked(super, zoneMap, NextZone(super, good)) == Unmarked(super, zoneMap, super.firstZone)
    }

    /** So many blocks can be taken. */
    ghost predicate Enough(n: nat)
      reads this`zoneMap
      requires MapOf(super, zoneMap)
    {
      n < MAX_GOOD_BLOCKS && n <= Unmarked(super, zoneMap, super.firstZone)
    }

    /** get_free_block(): the first zone after the last one taken that is not marked. */
    method GetFreeBlock() returns (ok: bool, blk: u16)
      requires Valid()
      modifies this`good
      ensures Valid()
      ensures good == if ok then old(good) + [blk] else old(good)
      ensures ok ==> ValidZone(super, blk)
      ensures !ok ==> |good| + 1 == MAX_GOOD_BLOCKS || NoneFree(super, zoneMap, good, super.nzones)
      ensures ok ==> NoneFree(super, zoneMap, old(good), blk)
      ensures ok <==> Enough(|old(good)| + 1)
    {
      blk := 0;
      if |good| + 1 >= MAX_GOOD_BLOCKS {
        return false, 0;
      }
      var z: nat := if |good| > 0 then good[|good| - 1] + 1 else super.firstZone;
      while z < super.nzones && ZoneBit(super, zoneMap, z)
        invariant super.firstZone <= z
        invariant forall k :: 0 <= k < |good| ==> good[k] < z
        invariant NoneFree(super, zoneMap, good, z)
        invariant |good| + Unmarked(super, zoneMap, z) == Unmarked(super, zoneMap, super.firstZone)
      {
        z := z + 1;
      }
      if z >= super.nzones {
        return false, 0;
      }
      good := good + [z];
      return true, z;
    }

    /** next(): the marked zone after number `p - 1`, which is `zone`. */
    method Next(zone: u16, ghost bad: seq<u16>, ghost p: nat) returns (r: u16)
      requires Valid() && Lists(super, zoneMap, bad, super.firstZone)
      requires if p == 0 then zone == 0 else p <= |bad| && zone == bad[p - 1]
      ensures r == At(bad, p)
    {
      var z: nat := if zone == 0 then super.firstZone else zone + 1;
      while z < super.nzones
        invariant super.firstZone <= z
        invariant p > 0 ==> bad[p - 1] < z
        invariant p < |bad| ==> z <= bad[p]
      {
        if ZoneBit(super, zoneMap, z) {
          return z;
        }
        z := z + 1;
      }
      return 0;
    }

    /** setup_tables(): no zone and no inode is in use, all other bits are set. */
    constructor (super: Super, dirsize: nat, disk: seq<Block>)
      requires Mapped(super) && super.logZoneSize == 0 && super.firstZone == FirstZoneData(super) && super.ninodes >= 2
      requires dirsize in {16, 32} && |disk| >= super.nzones
      ensures Valid() && this.super == super && this.dirsize == dirsize && this.disk == disk
      ensures good == [] && badBlocks == 0 && Marked(super, zoneMap) == []
      ensures forall i :: 1 <= i <= super.ninodes ==> !inodeMap[i] && inodes[i] == ZeroInode()
    {
      this.super, this.dirsize, this.disk := super, dirsize, disk;
      var zones := seq(MapBits(super.zmapBlocks), _ => true);
      var z: nat := super.firstZone;
      while z < super.nzones
        invariant super.firstZone <= z && |zones| == MapBits(super.zmapBlocks)
        invariant forall y: nat :: ValidZone(super, y) && y < z ==> !ZoneBit(super, zones, y)
      {
        zones := zones[z - super.firstZone + 1 := false];
        z := z + 1;
      }
      var bits := seq(MapBits(super.imapBlocks), _ => true);
      var i := ROOT_INO;
      while i <= super.ninodes
        invariant ROOT_INO <= i <= super.ninodes + 1 && |bits| == MapBits(super.imapBlocks)
        invariant forall j :: ROOT_INO <= j < i ==> !bits[j]
      {
        bits := bits[i := false];
        i := i + 1;
      }
      zoneMap, inodeMap := zones, bits;
      inodes := seq(super.ninodes + 1, _ => ZeroInode());
      good, badBlocks := [], 0;
      NothingMarked(super, zones, super.firstZone);
    }

    /** The tables are set up and only bad zones are marked; the bad-block count is
        their number. */
    ghost predicate Ready()
      reads this
    {
      && Valid() && good == [] && badBlocks == |Marked(super, zoneMap)|
      && forall i :: 1 <= i <= super.ninodes ==> !inodeMap[i] && inodes[i] == ZeroInode()
    }

    method MarkBad(z: u16)
      requires Ready() && ValidZone(super, z) && !ZoneBit(super, zoneMap, z)
      modifies this`zoneMap, this`badBlocks
      ensures Ready() && zoneMap == old(zoneMap)[z - super.firstZone + 1 := true] && badBlocks == old(badBlocks) + 1
    {
      MarkOneMore(super, zoneMap, z, super.firstZone);
      zoneMap := zoneMap[z - super.firstZone + 1 := true];
      badBlocks := badBlocks + 1;
    }

    /** get_list_blocks(): a list of distinct zones. */
    method GetListBlocks(list: seq<u16>)
      requires Ready() && Marked(super, zoneMap) == []
      requires forall k :: 0 <= k < |list| ==> ValidZone(super, list[k])
      requires forall i, j :: 0 <= i < j < |list| ==> list[i] != list[j]
      modifies this`zoneMap, this`badBlocks
      ensures Ready() && badBlocks == |list|
      ensures forall z: nat :: ValidZone(super, z) ==> (ZoneBit(super, zoneMap, z) <==> z in list)
    {
      MarkedLists(super, zoneMap, super.firstZone);
      var k := 0;
      while k < |list|
        invariant 0 <= k <= |list| && Ready() && badBlocks == k
        invariant forall z: nat :: ValidZone(super, z) ==> (ZoneBit(super, zoneMap, z) <==> z in list[..k])
      {
        PrefixGrows(list, k);
        MarkBad(list[k]);
        k := k + 1;
      }
      assert list[..|list|] == list;
    }

    /** do_check(): how many of the next `try` blocks can be read. */
    method DoCheck(unreadable: set<nat>, at: nat, try: nat) returns (got: nat)
      ensures got <= try && (forall z :: at <= z < at + got ==> z !in unreadable)
      ensures got < try ==> at + got in unreadable
    {
      got := 0;
      while got < try && at + got !in unreadable
        invariant got <= try && forall z :: at <= z < at + got ==> z !in unreadable
      {
        got := got + 1;
      }
    }

    /** check_blocks(): reads all blocks and marks what cannot be read; gives up exactly
        when that includes a block before the data area. */
    method CheckBlocks(unreadable: set<nat>) returns (ok: bool)
      requires Ready() && Marked(super, zoneMap) == []
      modifies this`zoneMap, this`badBlocks
      ensures Ready()
      ensures ok <==> forall z :: 0 <= z < super.firstZone && z < super.nzones ==> z !in unreadable
      ensures ok ==> forall z: nat :: ValidZone(super, z) ==> (ZoneBit(super, zoneMap, z) <==> z in unreadable)
    {
      MarkedLists(super, zoneMap, super.firstZone);
      var at := 0;
      while at < super.nzones
        invariant 0 <= at <= super.nzones && Ready() && Scanned(unreadable, at)
      {
        var stopped;
        at, stopped := ReadOn(unreadable, at);
        if stopped {
          if at < super.firstZone {
            return false;
          }
          MarkFound(unreadable, at);
          at := at + 1;
        }
      }
      return true;
    }

    /** Reads up to the buffer's worth of blocks, or to the first that fails. */
    method ReadOn(unreadable: set<nat>, at: nat) returns (next: nat, stopped: bool)
      requires Valid() && at < super.nzones && Scanned(unreadable, at)
      ensures at <= next <= super.nzones && Scanned(unreadable, next)
      ensures if stopped then next < super.nzones && next in unreadable else at < next
    {
      var try := if at + TEST_BUFFER_BLOCKS > super.nzones then super.nzones - at else TEST_BUFFER_BLOCKS;
      var got := DoCheck(unreadable, at, try);
      return at + got, got != try;
    }

    method MarkFound(unreadable: set<nat>, at: u16)
      requires Ready() && Scanned(unreadable, at) && at in unreadable && ValidZone(super, at)
      modifies this`zoneMap, this`badBlocks
      ensures Ready() && Scanned(unreadable, at + 1)
    {
      MarkBad(at);
    }

    /** The blocks before `at` have been read; the bad ones among them are marked. */
    ghost predicate Scanned(unreadable: set<nat>, at: nat)
      reads this
      requires Valid()
    {
      && (forall z :: 0 <= z < super.firstZone && z < at ==> z !in unreadable)
      && (forall z: nat :: ValidZone(super, z) ==> (ZoneBit(super, zoneMap, z) <==> z < at && z in unreadable))
    }

    method WriteBlock(b: u16, blk: Block)
      requires b < |disk|
      modifies this`disk
      ensures disk == old(disk)[b := blk]
    {
      disk := disk[b := blk];
    }

    /** make_root_inode() */
    method MakeRootInode() returns (ok: bool)
      requires Ready()
      modifies this`inodes, this`inodeMap, this`disk, this`good
      ensures Valid() && (ok <==> Enough(1))
      ensures ok ==> |good| == 1 && disk == old(disk)[good[0] := RootBlock(dirsize, badBlocks > 0)]
      ensures ok ==> inodes == old(inodes)[ROOT_INO := RootInode(dirsize, badBlocks > 0, good[0])]
      ensures ok ==> inodeMap == old(inodeMap)[ROOT_INO := true]
    {
      inodeMap := inodeMap[ROOT_INO := true];
      var blk;
      ok, blk := GetFreeBlock();
      if !ok {
        return;
      }
      var inode := inodes[ROOT_INO].(nlinks := 2, mode := S_IFDIR_755);
      inode := inode.(zone := inode.zone[0 := blk], size := if badBlocks > 0 then 3 * dirsize else 2 * dirsize);
      inodes := inodes[ROOT_INO := inode];
      WriteBlock(blk, RootBlock(dirsize, badBlocks > 0));
    }

    // ---------- The bad inode ----------

    /** The state between its steps: `bad` lists the marked zones, and only the
        helper blocks differ from the disk `was`. */
    ghost predicate Working(bad: seq<u16>, was: seq<Block>)
      reads this
    {
      && Valid() && Lists(super, zoneMap, bad, super.firstZone)
      && |good| >= 1 && |disk| == |was|
      && forall z :: 0 <= z < |disk| && z !in good[1..] ==> disk[z] == was[z]
    }

    /** The slots of the inode that take zones directly; `zone` is the next one. */
    method FillDirect(slots: Slots, ghost bad: seq<u16>) returns (r: Slots, zone: u16)
      requires Valid() && Lists(super, zoneMap, bad, super.firstZone) && |bad| > 0
      requires forall k :: 0 <= k < 9 ==> slots[k] == 0
      ensures DirectSlots(r, bad) && r[7] == 0 && r[8] == 0 && zone == At(bad, 7)
    {
      r := slots;
      zone := Next(0, bad, 0);
      var i := 0;
      while i < 7
        invariant 0 <= i <= 7 && zone == At(bad, i) && (i < 7 ==> i < |bad|)
        invariant forall k :: 0 <= k < 9 ==> r[k] == if k < i then At(bad, k) else 0
      {
        r := r[i := zone];
        zone := Next(zone, bad, i + 1);
        if zone == 0 {
          return;
        }
        i := i + 1;
      }
    }


    /** The words of an indirect block, from zone number `p` on. */
    method FillBlock(first: u16, ghost bad: seq<u16>, ghost p: nat) returns (blk: Block, zone: u16)
      requires Valid() && Lists(super, zoneMap, bad, super.firstZone) && p < |bad| && first == bad[p]
      ensures ListedIn(blk, bad, p) && zone == At(bad, p + 512)
    {
      blk, zone := ZeroBlock(), first;
      var i := 0;
      while i < 512
        invariant 0 <= i <= 512 && zone == At(bad, p + i) && (i < 512 ==> p + i < |bad|)
        invariant forall k :: 0 <= k < 512 ==> blk[k] == if k < i then At(bad, p + k) else 0
      {
        blk := blk[i := zone];
        zone := Next(zone, bad, p + i + 1);
        if zone == 0 {
          return;
        }
        i := i + 1;
      }
    }

    /** Writing indirect block number `n`. */
    method WriteIndirect(b: u16, blk: Block, ghost bad: seq<u16>, ghost was: seq<Block>, ghost n: nat)
      requires Working(bad, was) && IndirectsOn(disk, good, bad, n)
      requires if n == 0 then |good| >= 2 else n + 2 < |good|
      requires b == IndirectBlock(good, n) && ListedIn(blk, bad, 7 + 512 * n)
      modifies this`disk
      ensures Working(bad, was) && IndirectsOn(disk, good, bad, n + 1)
    {
      IndirectWritten(disk, good, bad, n, blk);
      assert b in good[1..];
      WriteBlock(b, blk);
    }

    /** Another block below the double indirect one. */
    method TakeLeaf(dindBlock: Block, i: nat, ghost bad: seq<u16>, ghost was: seq<Block>)
      returns (ok: bool, b: u16, r: Block)
      requires Working(bad, was) && IndirectsOn(disk, good, bad, i + 1) && Indexes(dindBlock, good) && |good| == i + 3
      modifies this`good
      ensures ok ==> good == old(good) + [b] && Working(bad, was)
      ensures ok <==> Enough(|old(good)| + 1)
      ensures ok ==> IndirectsOn(disk, good, bad, i + 1) && Indexes(r, good)
    {
      ok, b := TakeHelper(bad, was);
      r := dindBlock;
      if ok {
        IndexesSnoc(dindBlock, old(good), b);
        IndirectsSnoc(disk, old(good), bad, i + 1, b);
        r := dindBlock[i := b];
      }
    }


    /** Writes indirect block number `i` and takes a block for the next. */
    method NextLeaf(ind: u16, indBlock: Block, dindBlock: Block, i: nat, ghost bad: seq<u16>, ghost was: seq<Block>)
      returns (ok: bool, b: u16, r: Block)
      requires Working(bad, was) && |good| == i + 3 && ind == IndirectBlock(good, i)
      requires ListedIn(indBlock, bad, 7 + 512 * i)
      requires IndirectsOn(disk, good, bad, i) && Indexes(dindBlock, good)
      modifies this`disk, this`good
      ensures ok ==> good == old(good) + [b] && Working(bad, was)
      ensures ok <==> Enough(|old(good)| + 1)
      ensures ok ==> IndirectsOn(disk, good, bad, i + 1) && Indexes(r, good)
    {
      WriteIndirect(ind, indBlock, bad, was, i);
      ok, b, r := TakeLeaf(dindBlock, i, bad, was);
    }

    /** The double indirect block at `dind`, with all blocks below it: `ind` is the
        inode's indirect block, not yet written, and `first` the next zone. */
    method MakeDouble(dind: u16, ind: u16, indBlock: Block, first: u16, ghost bad: seq<u16>, ghost was: seq<Block>)
      returns (ok: bool)
      requires Working(bad, was) && |good| == 3 && ind == good[1] && dind == good[2]
      requires ListedIn(indBlock, bad, 7) && 519 < |bad| && first == bad[519]
      modifies this`disk, this`good
      ensures ok <==> Enough(3 + Leaves(|bad|))
      ensures ok ==> Working(bad, was) && |good| == 3 + Leaves(|bad|) && good[..3] == old(good)
      ensures ok ==> IndirectsOn(disk, good, bad, 1 + Leaves(|bad|)) && Indexes(disk[good[2]], good)
    {
      hide IndirectsOn, Indexes, ListedIn, ZoneBit, Leaves, ZeroBlock, InodeBlocks, Increasing;
      DoubleStart(disk, good, bad);
      var b, blk, dindBlock, zone := ind, indBlock, ZeroBlock(), first;
      var i := 0;
      while i < 512
        invariant 0 <= i <= 512 && Working(bad, was) && |good| == i + 3 && good[..3] == old(good)
        invariant b == IndirectBlock(good, i) && ListedIn(blk, bad, 7 + 512 * i)
        invariant IndirectsOn(disk, good, bad, i) && Indexes(dindBlock, good)
        invariant 519 + 512 * i < |bad| && zone == bad[519 + 512 * i]
      {
        ok, b, dindBlock := NextLeaf(b, blk, dindBlock, i, bad, was);
        if !ok {
          LeavesAtLeast(|bad|, i);
          return;
        }
        i := i + 1;
        blk, zone := FillBlock(zone, bad, 7 + 512 * i);
        if zone == 0 {
          LeavesIs(|bad|, i);
          FinishDouble(dind, dindBlock, b, blk, i, bad, was);
          return;
        }
      }
      return false;
    }

    /** The last indirect block and the double indirect block itself. */
    method FinishDouble(dind: u16, dindBlock: Block, b: u16, blk: Block, ghost n: nat, ghost bad: seq<u16>,
                        ghost was: seq<Block>)
      requires Working(bad, was) && |good| == n + 3 && n > 0
      requires b == IndirectBlock(good, n) && ListedIn(blk, bad, 7 + 512 * n)
      requires IndirectsOn(disk, good, bad, n) && Indexes(dindBlock, good) && dind == good[2]
      modifies this`disk
      ensures Working(bad, was) && IndirectsOn(disk, good, bad, n + 1) && Indexes(disk[good[2]], good)
    {
      WriteIndirect(b, blk, bad, was, n);
      DoubleWritten(disk, good, bad, n + 1, dindBlock);
      assert dind in good[1..];
      WriteBlock(dind, dindBlock);
    }


    method TakeHelper(ghost bad: seq<u16>, ghost was: seq<Block>) returns (ok: bool, b: u16)
      requires Working(bad, was)
      modifies this`good
      ensures ok ==> Working(bad, was) && good == old(good) + [b] && ValidZone(super, b)
      ensures ok <==> Enough(|old(good)| + 1)
    {
      hide Lists, Unmarked, ZoneBit, FirstZoneData;
      ok, b := GetFreeBlock();
      if ok {
        assert good[1..] == old(good[1..]) + [b];
      }
    }

    /** The zones past the direct slots, of which there is at least one, `first`;
        returns the indirect and the double indirect slot. */
    method MakeIndirect(first: u16, ghost bad: seq<u16>, ghost was: seq<Block>) returns (ok: bool, ind: u16, dind: u16)
      requires Working(bad, was) && |good| == 1 && 7 < |bad| && first == bad[7]
      modifies this`disk, this`good
      ensures ok <==> Enough(1 + Helpers(|bad|))
      ensures ok ==> Working(bad, was) && good[0] == old(good)[0] && |good| == 1 + Helpers(|bad|)
      ensures ok ==> ind == At(good, 1) && dind == At(good, 2)
      ensures ok ==> IndirectsOn(disk, good, bad, 1 + Leaves(|bad|))
      ensures ok && |bad| > 519 ==> Indexes(disk[good[2]], good)
    {
      dind := 0;
      ok, ind := TakeHelper(bad, was);
      if !ok {
        return;
      }
      var indBlock, zone := FillBlock(first, bad, 7);
      if zone == 0 {
        WriteIndirect(ind, indBlock, bad, was, 0);
        return;
      }
      ok, dind := TakeHelper(bad, was);
      if !ok {
        return;
      }
      ok := MakeDouble(dind, ind, indBlock, zone, bad, was);
      assert ok ==> forall k :: 0 <= k < 3 ==> good[k] == good[..3][k];
    }

    /** make_bad_inode_v1(): the inode holds all bad zones, in increasing order. */
    method MakeBadInode(ghost bad: seq<u16>) returns (ok: bool)
      requires Working(bad, disk) && |good| == 1 && badBlocks == |bad| && inodes[BAD_INO] == ZeroInode()
      modifies this`inodes, this`inodeMap, this`disk, this`good
      ensures ok <==> Enough(1 + Helpers(|bad|))
      ensures ok ==> Working(bad, old(disk)) && good[0] == old(good)[0]
      ensures ok ==> inodeMap == if bad == [] then old(inodeMap) else old(inodeMap)[BAD_INO := true]
      ensures ok ==> |inodes| > BAD_INO && BadTree(disk, inodes[BAD_INO].zone, good, bad)
      ensures ok ==> inodes == old(inodes)[BAD_INO := BadInode(bad, inodes[BAD_INO].zone)]
    {
      hide Unmarked, Increasing, InodeBlocks, Leaves, ListedIn, Indexes;
      ghost var was := disk;
      if badBlocks == 0 {
        assert BadTree(disk, ZeroInode().zone, good, bad);
        return true;
      }
      inodeMap := inodeMap[BAD_INO := true];
      var inode := inodes[BAD_INO].(nlinks := 1, mode := S_IFREG, size := badBlocks * 1024);
      var slots, zone := FillDirect(inode.zone, bad);
      ok := true;
      if zone != 0 {
        var ind, dind;
        ok, ind, dind := MakeIndirect(zone, bad, was);
        slots := slots[7 := ind][8 := dind];
      }
      inodes := inodes[BAD_INO := inode.(zone := slots)];
      if ok {
        assert BadTree(disk, slots, good, bad);
      }
    }


    /** mark_good_blocks() */
    method MarkGoodBlocks()
      requires Valid()
      modifies this`zoneMap
      ensures MapOf(super, zoneMap)
      ensures forall z: nat :: ValidZone(super, z) ==>
        (ZoneBit(super, zoneMap, z) <==> ZoneBit(super, old(zoneMap), z) || z in good)
    {
      var k := 0;
      while k < |good|
        invariant 0 <= k <= |good| && MapOf(super, zoneMap)
        invariant forall z: nat :: ValidZone(super, z) ==>
          (ZoneBit(super, zoneMap, z) <==> ZoneBit(super, old(zoneMap), z) || z in good[..k])
      {
        assert good[..k + 1] == good[..k] + [good[k]];
        zoneMap := zoneMap[good[k] - super.firstZone + 1 := true];
        k := k + 1;
      }
      assert good[..|good|] == good;
    }

    ghost predicate Built(bad: seq<u16>)
      reads this
    {
      BuiltFrom(Tables(super, dirsize, inodes, inodeMap, zoneMap, disk), good, bad)
    }

    /** Everything after the bad blocks are known. */
    method Build() returns (ok: bool, ghost bad: seq<u16>)
      requires Ready()
      modifies this`inodes, this`inodeMap, this`zoneMap, this`disk, this`good
      ensures bad == old(Marked(super, zoneMap)) && |bad| == badBlocks
      ensures forall z: nat :: ValidZone(super, z) ==> (z in bad <==> old(ZoneBit(super, zoneMap, z)))
      ensures ok <==> old(Enough(1 + Helpers(badBlocks)))
      ensures ok ==> Built(bad)
    {
      hide FirstZoneData, BadTree, RootBlock, RootInode, MarkedFrom, BadInode, NoneFree, Unmarked, Helpers;
      bad := Marked(super, zoneMap);
      MarkedLists(super, zoneMap, super.firstZone);
      ok := MakeRootInode();
      if !ok {
        return;
      }
      ok := MakeBadInode(bad);
      if !ok {
        return;
      }
      MarkGoodBlocks();
    }
  }
}
