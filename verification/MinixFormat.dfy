/** The Minix version 1 on-disk format as both programs see it
    (include/minix.h, disk-utils/minix_programs.h). */
module MinixFormat {
  import opened Common

  /** A 1 KiB block, as 512 little-endian 16-bit words. */
  type Block = b: seq<u16> | |b| == 512 witness seq(512, _ => 0)

  /** The zone slots of an inode: 7 direct, 1 indirect, 1 double indirect. */
  type Slots = z: seq<u16> | |z| == 9 witness seq(9, _ => 0)

  datatype Inode = Inode(mode: u16, size: nat, nlinks: u8, zone: Slots)

  datatype Super = Super(ninodes: u16, nzones: u16, imapBlocks: u16, zmapBlocks: u16, firstZone: u16, logZoneSize: u16)

  const ROOT_INO: nat := 1
  const BAD_INO: nat := 2

  const S_IFDIR_755: u16 := 0x41ED
  const S_IFREG: u16 := 0x8000

  // The file type is the top hexadecimal digit of the mode.
  predicate IsDir(mode: u16) { mode / 4096 == 4 }
  predicate IsReg(mode: u16) { mode / 4096 == 8 }
  predicate IsLnk(mode: u16) { mode / 4096 == 10 }

  function ZeroBlock(): (b: Block)
    ensures forall k :: 0 <= k < 512 ==> b[k] == 0
  {
    seq(512, _ => 0)
  }

  function ZeroInode(): (i: Inode)
    ensures i.mode == 0 && i.size == 0 && i.nlinks == 0 && forall k :: 0 <= k < 9 ==> i.zone[k] == 0
  {
    Inode(0, 0, 0, seq(9, _ => 0))
  }

  /** Byte `at` of a block. */
  function ByteAt(b: Block, at: nat): (r: u8)
    requires at < 1024
  {
    if at % 2 == 0 then b[at / 2] % 256 else b[at / 2] / 256
  }

  /** The blocks that so many inodes fill, 32 to a block. */
  function InodeBlocks(ninodes: nat): nat {
    (ninodes + 31) / 32
  }

  /** The bits in so many blocks of a map. */
  function MapBits(blocks: nat): nat {
    8192 * blocks
  }

  /** first_zone_data() of a super block. */
  function FirstZoneData(s: Super): nat {
    2 + s.imapBlocks + s.zmapBlocks + InodeBlocks(s.ninodes)
  }

  /** The tests of read_superblock() on a version 1 super block. */
  predicate AcceptedSuper(s: Super) {
    && s.logZoneSize == 0
    && s.ninodes != 0
    && MapBits(s.imapBlocks) >= s.ninodes + 1
    && s.firstZone <= s.nzones
    && MapBits(s.zmapBlocks) >= s.nzones - s.firstZone + 1
  }

  /** The maps have a bit for every inode and for every zone there is. */
  predicate Mapped(s: Super) {
    && MapBits(s.imapBlocks) >= s.ninodes + 1
    && (s.firstZone < s.nzones ==> MapBits(s.zmapBlocks) >= s.nzones - s.firstZone + 1)
  }

  predicate ValidZone(s: Super, z: nat) {
    s.firstZone <= z < s.nzones
  }

  /** The bit of zone `z` in the zone map; bit 0 belongs to no zone. */
  predicate ZoneBit(s: Super, zoneMap: seq<bool>, z: nat)
    requires Mapped(s) && |zoneMap| == MapBits(s.zmapBlocks) && ValidZone(s, z)
  {
    zoneMap[z - s.firstZone + 1]
  }
}
