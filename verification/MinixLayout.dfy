/** The layout arithmetic of mkfs.minix for version 1 file systems
    (disk-utils/mkfs.minix.c: determine_device_blocks, setup_tables), with its
    64-bit wrap-around and 16-bit truncations, against the tests that fsck.minix
    applies to the super block. */
module MinixLayout {
  import opened Common
  import opened Division
  import opened MinixFormat

  const MAX_INODES := 65535

  /** Unsigned 64-bit arithmetic. */
  function Wrap64(x: int): (r: nat)
    ensures r < 0x1_0000_0000_0000_0000
    ensures 0 <= x < 0x1_0000_0000_0000_0000 ==> r == x
  {
    x % 0x1_0000_0000_0000_0000
  }

  function Trunc16(x: nat): u16 {
    x % 65536
  }

  /** The number of blocks the file system gets, or none on an error: the
      request against the device, the minimum, and the version 1 clip. */
  function DeviceBlocks(requested: nat, device: nat): (r: Option<nat>)
    ensures r.None? <==> device < 10 || 0 < requested < 10 || device < requested
    ensures r.Some? ==> 10 <= r.value <= MAX_INODES && r.value <= device
    ensures r.Some? && 0 < requested <= MAX_INODES ==> r.value == requested
    ensures r.Some? && requested == 0 && device <= MAX_INODES ==> r.value == device
    ensures r.Some? && (if requested == 0 then device else requested) > MAX_INODES ==> r.value == MAX_INODES
  {
    if requested != 0 && device < requested then None
    else
      var blocks := if requested == 0 then device else requested;
      if blocks < 10 then None
      else if blocks > MAX_INODES then Some(MAX_INODES)
      else Some(blocks)
  }

  /** The inode count: one per 3, 8 or 16 blocks unless given, rounded up to
      whole inode blocks, at most 65535. */
  function InodeCount(blocks: nat, requested: nat): (r: nat)
    requires requested < 0x1_0000_0000_0000_0000
    ensures r <= MAX_INODES
  {
    var wanted :=
      if requested != 0 then requested
      else if 2048 * 1024 < blocks then blocks / 16
      else if 512 * 1024 < blocks then blocks / 8
      else blocks / 3;
    var rounded := Wrap64(wanted + 31) / 32 * 32;
    if rounded > MAX_INODES then MAX_INODES else rounded
  }

  /** A requested count is rounded up to the next multiple of 32; near the end of the
      16-bit range it is cut to 65535, and near the end of the 64-bit range the sum wraps
      and nothing is left. */
  lemma RequestedCount(blocks: nat, requested: nat)
    requires 0 < requested < 0x1_0000_0000_0000_0000
    ensures var r := InodeCount(blocks, requested);
      if requested <= 65504 then r % 32 == 0 && requested <= r < requested + 32
      else if requested <= 0xFFFF_FFFF_FFFF_FFE0 then r == MAX_INODES
      else r == 0
  {
    var q := Wrap64(requested + 31) / 32;
    if requested > 0xFFFF_FFFF_FFFF_FFE0 {
      assert Wrap64(requested + 31) == requested + 31 - 0x1_0000_0000_0000_0000;
    }
    assert InodeCount(blocks, requested) == if q * 32 > MAX_INODES then MAX_INODES else q * 32;
  }

  /** The default is a third of the blocks, rounded up in the same way. */
  lemma DefaultCount(blocks: nat)
    requires blocks <= MAX_INODES
    ensures var r := InodeCount(blocks, 0); r % 32 == 0 && blocks <= 3 * r + 2 && 3 * r <= blocks + 93
  {
    var q := (blocks / 3 + 31) / 32;
    assert InodeCount(blocks, 0) == q * 32;
  }

  lemma InodeCountIsRound(blocks: nat, requested: nat)
    requires requested < 0x1_0000_0000_0000_0000 && InodeCount(blocks, requested) != 0
    ensures InodeCount(blocks, requested) >= 32
  {
  }

  /** UPPER(size, n) on unsigned 64-bit operands. */
  function Upper64(size: int, n: nat): nat
    requires n > 0
  {
    Quotient(Wrap64(Wrap64(size) + (n - 1)), n)
  }

  /** The super block that setup_tables() fills in, before its range check. */
  function SetupSuper(blocks: nat, inodes: nat): Super
    requires inodes <= MAX_INODES
  {
    var nzones := Trunc16(blocks);
    var imaps := Trunc16(Upper64(inodes + 1, 8192));
    var zmaps := Trunc16(Upper64(blocks - (1 + imaps + InodeBlocks(inodes)), 8193));
    Super(inodes, nzones, imaps, zmaps, Trunc16(2 + imaps + zmaps + InodeBlocks(inodes)), 0)
  }

  /** setup_tables(): none when the first data zone would be out of reach. */
  function SetupTables(blocks: nat, requested: nat): Option<Super>
    requires requested < 0x1_0000_0000_0000_0000
  {
    var s := SetupSuper(blocks, InodeCount(blocks, requested));
    if MAX_INODES < FirstZoneData(s) then None else Some(s)
  }

  // ---------- What the layout is for ----------

  /** Blocks taken by everything in front of the zone map, with the boot block. */
  function Overhead(inodes: nat): nat {
    1 + (inodes + 8192) / 8192 + InodeBlocks(inodes)
  }

  /** `z` zone map blocks are enough for the zones left when they are taken. */
  predicate MapFits(blocks: int, overhead: int, z: int) {
    8192 * z >= blocks - (1 + overhead + z) + 1
  }

  /** Nothing is cut off to 16 bits, and the zone map is the smallest that fits. */
  predicate Exact(s: Super, blocks: nat, inodes: nat) {
    && s.ninodes == inodes && s.nzones == blocks
    && 1 + s.imapBlocks + InodeBlocks(inodes) == Overhead(inodes)
    && s.firstZone == FirstZoneData(s) == 1 + Overhead(inodes) + s.zmapBlocks
    && MapFits(blocks, Overhead(inodes), s.zmapBlocks)
    && forall z :: 0 <= z < s.zmapBlocks ==> !MapFits(blocks, Overhead(inodes), z)
  }

  lemma UpperIsLeast(n: nat, z: nat)
    requires n < 0x1_0000_0000_0000 && z == (n + 8192) / 8193
    ensures z * 8193 >= n && forall m :: 0 <= m < z ==> m * 8193 < n
  {
  }

  lemma FieldsWhenItFits(blocks: nat, inodes: nat)
    requires blocks <= MAX_INODES && inodes <= MAX_INODES && Overhead(inodes) <= blocks
    ensures var s := SetupSuper(blocks, inodes);
      && s.nzones == blocks && s.imapBlocks == (inodes + 8192) / 8192
      && s.zmapBlocks == (blocks - Overhead(inodes) + 8192) / 8193
      && s.firstZone == 1 + Overhead(inodes) + s.zmapBlocks
  {
    hide Upper64, InodeBlocks;
    OverheadBound(inodes);
    ImapBlocks(inodes);
    ZmapBlocks(blocks - Overhead(inodes));
  }

  lemma ImapBlocks(inodes: nat)
    requires inodes <= MAX_INODES
    ensures Trunc16(Upper64(inodes + 1, 8192)) == (inodes + 8192) / 8192 <= 8
  {
    hide Upper64, Wrap64;
    UpperSmall(inodes + 1, 8192);
  }

  lemma ZmapBlocks(n: nat)
    requires n <= MAX_INODES
    ensures Trunc16(Upper64(n, 8193)) == (n + 8192) / 8193 <= 8
  {
    hide Upper64, Wrap64;
    UpperSmall(n, 8193);
  }

  lemma UpperSmall(size: nat, n: nat)
    requires 0 < n <= 8193 && size <= 0x1_0000
    ensures Upper64(size, n) == (size + n - 1) / n
  {
  }

  /** With room for its overhead, every super block is exact. */
  lemma ExactWhenItFits(blocks: nat, inodes: nat)
    requires blocks <= MAX_INODES && inodes <= MAX_INODES && Overhead(inodes) <= blocks
    ensures Exact(SetupSuper(blocks, inodes), blocks, inodes)
  {
    FieldsWhenItFits(blocks, inodes);
    UpperIsLeast(blocks - Overhead(inodes), SetupSuper(blocks, inodes).zmapBlocks);
  }

  lemma DefaultOverhead(blocks: nat)
    requires 10 <= blocks <= MAX_INODES
    ensures var inodes := InodeCount(blocks, 0); 32 <= inodes <= 22000 && Overhead(inodes) + 3 <= blocks
  {
    var k := (blocks / 3 + 31) / 32;
    assert InodeCount(blocks, 0) == k * 32;
    assert InodeBlocks(k * 32) == k;
    assert 1 <= k && 96 * k <= blocks + 93;
  }

  /** The default inode count: every size that mkfs accepts gives an exact layout
      that setup_tables() keeps, that read_superblock() accepts, and that leaves
      room for data. */
  lemma DefaultLayoutIsAccepted(blocks: nat)
    requires 10 <= blocks <= MAX_INODES
    ensures var s := SetupTables(blocks, 0);
      && s.Some? && Exact(s.value, blocks, InodeCount(blocks, 0))
      && AcceptedSuper(s.value) && s.value.firstZone < s.value.nzones
  {
    var inodes := InodeCount(blocks, 0);
    DefaultOverhead(blocks);
    FieldsWhenItFits(blocks, inodes);
    ExactWhenItFits(blocks, inodes);
    var s := SetupSuper(blocks, inodes);
    ExactIsAccepted(s, blocks, inodes);
  }

  lemma ExactIsAccepted(s: Super, blocks: nat, inodes: nat)
    requires 0 < inodes <= MAX_INODES && Overhead(inodes) + 2 <= blocks <= MAX_INODES
    requires s == SetupSuper(blocks, inodes) && Exact(s, blocks, inodes)
    ensures AcceptedSuper(s) && FirstZoneData(s) <= blocks
    ensures Overhead(inodes) + 3 <= blocks ==> s.firstZone < s.nzones
  {
    FieldsWhenItFits(blocks, inodes);
  }

  /** With a requested inode count the layout can be one that fsck rejects: here the
      data area would begin at block 131 of 100. */
  lemma TooManyInodes()
    ensures SetupTables(100, 4096).Some? && !AcceptedSuper(SetupTables(100, 4096).value)
  {
    assert InodeCount(100, 4096) == 4096;
    var s := SetupSuper(100, 4096);
    assert s.imapBlocks == 1 && InodeBlocks(4096) == 128;
  }

  /** Exactly when the super block passes: the inode count did not wrap to zero,
      and the overhead leaves at least two blocks. */
  lemma AcceptedIff(blocks: nat, requested: nat)
    requires 10 <= blocks <= MAX_INODES && requested < 0x1_0000_0000_0000_0000
    ensures var inodes := InodeCount(blocks, requested);
      && SetupTables(blocks, requested).Some?
      && (AcceptedSuper(SetupTables(blocks, requested).value) <==> inodes != 0 && Overhead(inodes) + 2 <= blocks)
  {
    var inodes := InodeCount(blocks, requested);
    var s := SetupSuper(blocks, inodes);
    if Overhead(inodes) <= blocks {
      FieldsWhenItFits(blocks, inodes);
      UpperIsLeast(blocks - Overhead(inodes), s.zmapBlocks);
    } else {
      NoZoneMap(blocks, inodes);
    }
  }

  /** When the overhead exceeds the device, the unsigned difference wraps and the
      zone map comes out empty. */
  lemma NoZoneMap(blocks: nat, inodes: nat)
    requires blocks <= MAX_INODES && inodes <= MAX_INODES && blocks < Overhead(inodes)
    ensures var s := SetupSuper(blocks, inodes);
      s.zmapBlocks == 0 && s.imapBlocks == (inodes + 8192) / 8192 && s.firstZone == 1 + Overhead(inodes)
  {
    hide Upper64, InodeBlocks;
    var imaps := (inodes + 8192) / 8192;
    ImapBlocks(inodes);
    OverheadBound(inodes);
    UpperNegative(blocks - (1 + imaps + InodeBlocks(inodes)));
    assert SetupSuper(blocks, inodes).zmapBlocks == 0;
  }

  lemma OverheadBound(inodes: nat)
    requires inodes <= MAX_INODES
    ensures Overhead(inodes) == 1 + (inodes + 8192) / 8192 + InodeBlocks(inodes) <= 2057
  {
  }

  lemma UpperNegative(d: int)
    requires -2100 <= d < 0
    ensures Upper64(d, 8193) == 0
  {
    assert Wrap64(d) == 0x1_0000_0000_0000_0000 + d;
    assert Wrap64(Wrap64(d) + 8192) == d + 8192;
  }

  /** Every layout but one with no inode at all has maps that are large enough, and a
      layout that fsck would reject has no zone: mkfs finds no block for the root
      directory and ends before it writes the tables. */
  lemma RejectedHasNoZone(blocks: nat, requested: nat)
    requires 10 <= blocks <= MAX_INODES && requested < 0x1_0000_0000_0000_0000 && InodeCount(blocks, requested) != 0
    ensures SetupTables(blocks, requested).Some?
    ensures var s := SetupTables(blocks, requested).value;
      && Mapped(s) && s.logZoneSize == 0 && s.firstZone == FirstZoneData(s)
      && s.ninodes >= 32 && s.nzones == blocks
      && (!AcceptedSuper(s) ==> s.nzones <= s.firstZone)
  {
    hide Upper64, InodeCount, InodeBlocks;
    var inodes := InodeCount(blocks, requested);
    InodeCountIsRound(blocks, requested);
    AcceptedIff(blocks, requested);
    if Overhead(inodes) <= blocks {
      FieldsWhenItFits(blocks, inodes);
      ExactWhenItFits(blocks, inodes);
    } else {
      NoZoneMap(blocks, inodes);
    }
  }
}
