/** What reading a cramfs image amounts to: the reference for the extraction of
    fsck.cramfs (disk-utils/fsck.cramfs.c), without its read buffer. */
module CramfsReading {
  import opened Common
  import opened CramfsFormat
  import opened CramfsLayout
  import opened CramfsData

  /** An image, and zlib's inflate(). */
  datatype Medium = Medium(img: Bytes, big: bool, blk: nat, inflate: Bytes -> Option<Bytes>)

  /** How reading ends: with a result, with an error message, with an access past the
      end of the image, or in directories nested too deep. */
  datatype Outcome<+T> = Done(value: T) | Fail | Outside | Deep

  /** What was extracted: an entry with its file or its directory, and the next one. */
  datatype Node =
    | End
    | Node(name: Bytes, mode: u16, uid: u16, gid: u8, size: u24, data: Option<Bytes>, child: Node, next: Node)

  /** start_dir, end_dir, start_data and end_data. */
  datatype Bounds = Bounds(startDir: nat, endDir: nat, startData: nat, endData: nat)

  const UNSET: nat := 0xFFFF_FFFF_FFFF_FFFF

  predicate IsDir(mode: u16) { mode / 4096 == 4 }
  predicate IsReg(mode: u16) { mode / 4096 == 8 }
  predicate IsLnk(mode: u16) { mode / 4096 == 10 }
  predicate IsDevice(mode: u16) { mode / 4096 == 2 || mode / 4096 == 6 }
  predicate IsPipe(mode: u16) { mode / 4096 == 1 || mode / 4096 == 12 }

  function Max(a: nat, b: nat): nat {
    if a < b then b else a
  }

  ghost function U32At(m: Medium, at: nat): u32
    requires at + 4 <= |m.img|
  {
    U32Of(m.big, m.img[at..at + 4])
  }

  // ---------- Files ----------

  /** uncompress_block() on the bytes from `curr` to `next`. */
  ghost function Inflated(m: Medium, curr: nat, next: nat): Outcome<Bytes> {
    if next < curr || next - curr > 2 * m.blk then Fail
    else if next > |m.img| then Outside
    else
      var r := m.inflate(m.img[curr..next]);
      if r.None? then Fail else Done(r.value)
  }

  ghost function BlockRead(m: Medium, curr: nat, next: nat, want: nat): Outcome<Bytes> {
    if curr == next then Done(Zeros(want)) else Inflated(m, curr, next)
  }

  /** do_uncompress(): `size` bytes, with pointers from `ptr` and data from `curr` on. */
  ghost function ReadBlocks(m: Medium, ptr: nat, curr: nat, size: nat, endData: nat): Outcome<(Bytes, nat)>
    requires m.blk > 0 && size > 0
    decreases size
  {
    if ptr + 4 > |m.img| then Outside
    else
      var next, want := U32At(m, ptr), Min(m.blk, size);
      var block := BlockRead(m, curr, next, want);
      if block.Outside? then Outside
      else if !block.Done? || |block.value| != want then Fail
      else if size == want then Done((block.value, Max(endData, next)))
      else Before(block.value, ReadBlocks(m, ptr + 4, next, size - want, Max(endData, next)))
  }

  ghost function Before(b: Bytes, rest: Outcome<(Bytes, nat)>): Outcome<(Bytes, nat)> {
    if rest.Done? then Done((b + rest.value.0, rest.value.1)) else rest
  }

  /** do_file() */
  ghost function ReadFile(m: Medium, i: Inode, b: Bounds): Outcome<(Bytes, Bounds)>
    requires m.blk > 0
  {
    var offset: nat := 4 * i.offset;
    if (offset == 0) != (i.size == 0) then Fail
    else if i.size == 0 then Done(([], b))
    else
      var r := ReadBlocks(m, offset, offset + 4 * ((i.size + m.blk - 1) / m.blk), i.size, b.endData);
      if r.Done? then Done((r.value.0, b.(startData := Min(b.startData, offset), endData := r.value.1)))
      else if r.Outside? then Outside else Fail
  }

  /** do_symlink(): a single block, read before the offset is looked at. */
  ghost function ReadLink(m: Medium, i: Inode, b: Bounds): Outcome<(Bytes, Bounds)> {
    var offset: nat := 4 * i.offset;
    if offset + 4 > |m.img| then Outside
    else if offset == 0 || i.size == 0 then Fail
    else
      var next := U32At(m, offset);
      var r := Inflated(m, offset + 4, next);
      if r.Outside? then Outside
      else if !r.Done? || |r.value| != i.size then Fail
      else Done((r.value, b.(startData := Min(b.startData, offset), endData := Max(b.endData, next))))
  }

  /** do_special_inode() */
  ghost function ReadSpecial(i: Inode, b: Bounds): Outcome<Bounds> {
    if i.offset != 0 then Fail
    else if IsDevice(i.mode) then Done(b)
    else if IsPipe(i.mode) && i.size == 0 then Done(b)
    else Fail
  }

  // ---------- Directories ----------

  /** strlen() of a name, within its field. */
  function Strlen(name: Bytes): (n: nat)
    ensures n <= |name| && (forall k :: 0 <= k < n ==> name[k] != 0) && (n < |name| ==> name[n] == 0)
  {
    if |name| == 0 || name[0] == 0 then 0 else 1 + Strlen(name[1..])
  }

  /** The tests on the name of an entry. */
  predicate GoodName(name: Bytes) {
    0 < |name| <= 254 && 47 !in name && |name| - Strlen(name) <= 3
  }

  /** expand_fs(), in at most `depth` nested directories. */
  ghost function Expand(m: Medium, i: Inode, depth: nat, b: Bounds): Outcome<(Option<Bytes>, Node, Bounds)>
    requires m.blk > 0
    decreases depth, 0, 0
  {
    if IsDir(i.mode) then
      if depth == 0 then Deep
      else
        var r := ReadDir(m, i, depth - 1, b);
        if r.Done? then Done((None, r.value.0, r.value.1)) else Not(r)
    else if IsReg(i.mode) then
      var r := ReadFile(m, i, b);
      if r.Done? then Done((Some(r.value.0), End, r.value.1)) else Not(r)
    else if IsLnk(i.mode) then
      var r := ReadLink(m, i, b);
      if r.Done? then Done((Some(r.value.0), End, r.value.1)) else Not(r)
    else
      var r := ReadSpecial(i, b);
      if r.Done? then Done((None, End, r.value)) else Not(r)
  }

  function Not<S, T>(r: Outcome<S>): Outcome<T>
    requires !r.Done?
  {
    match r
    case Fail => Fail
    case Outside => Outside
    case Deep => Deep
  }

  /** do_directory() */
  ghost function ReadDir(m: Medium, i: Inode, depth: nat, b: Bounds): Outcome<(Node, Bounds)>
    requires m.blk > 0
    decreases depth, i.size + 1, 0
  {
    var offset: nat := 4 * i.offset;
    if offset == 0 && i.size != 0 then Fail
    else ReadList(m, offset, i.size, depth, if offset != 0 && offset < b.startDir then b.(startDir := offset) else b)
  }

  /** Its loop: `count` bytes of entries from `at` on. */
  ghost function ReadList(m: Medium, at: nat, count: int, depth: nat, b: Bounds): Outcome<(Node, Bounds)>
    requires m.blk > 0
    decreases depth, if count > 0 then count else 0, 0
  {
    if count <= 0 then Done((End, b))
    else if at + INODE_SIZE > |m.img| then Outside
    else
      var i := Decode(m.big, m.img[at..at + INODE_SIZE]);
      var next: nat := at + INODE_SIZE + 4 * i.namelen;
      if next > |m.img| then Outside
      else ReadEntry(m, i, m.img[at + INODE_SIZE..next], next, count - (next - at), depth, b)
  }

  /** One entry, which ends at `next`, and the `count` bytes after it. */
  ghost function ReadEntry(m: Medium, i: Inode, name: Bytes, next: nat, count: int, depth: nat,
                           b: Bounds): Outcome<(Node, Bounds)>
    requires m.blk > 0
    decreases depth, if count > 0 then count else 0, 1
  {
    if !GoodName(name) then Fail
    else
      var e := Expand(m, i, depth, b);
      if !e.Done? then Not(e)
      else
        var b1 := e.value.2;
        if next <= b1.startDir then Fail
        else
          var r := ReadList(m, next, count, depth, b1.(endDir := Max(b1.endDir, next)));
          if !r.Done? then r
          else Done((Node(name[..Strlen(name)], i.mode, i.uid, i.gid, i.size, e.value.0, e.value.1, r.value.0),
                     r.value.1))
  }

  // ---------- The whole image ----------

  const SUPER_SIZE: nat := 76
  const PAD_SIZE: nat := 512

  // Where the fields of the super block are that the reader looks at.
  const MAGIC_AT: nat := 0
  const SIZE_AT: nat := 4
  const FLAGS_AT: nat := 8
  const CRC_AT: nat := 32
  const FILES_AT: nat := 44
  const ROOT_AT: nat := 64

  const MAGIC: u32 := 0x28cd_3d45

  const FLAG_FSID_VERSION_2: u32 := 1
  const FLAG_SORTED_DIRS: u32 := 2
  const FLAG_HOLES: u32 := 0x100
  const FLAG_SHIFTED_ROOT_OFFSET: u32 := 0x400

  /** The flag of value `bit` is set. */
  predicate HasFlag(flags: u32, bit: u32)
    requires bit > 0
  {
    flags / bit % 2 == 1
  }

  /** flags & ~CRAMFS_SUPPORTED_FLAGS, which are the low eight bits. */
  predicate Unsupported(flags: u32) {
    flags / 0x100 != 0
  }

  datatype Super = Super(size: u32, flags: u32)

  /** test_fs() on an image with the super block at `start`. */
  ghost function TestFs(m: Medium, super: Super, start: nat, depth: nat): Outcome<Node>
    requires m.blk > 0
  {
    if start + SUPER_SIZE > |m.img| then Outside
    else
      var root := Decode(m.big, m.img[start + ROOT_AT..start + SUPER_SIZE]);
      var offset: nat := 4 * root.offset;
      if !IsDir(root.mode) then Fail
      else if !HasFlag(super.flags, FLAG_SHIFTED_ROOT_OFFSET)
              && offset != SUPER_SIZE && offset != PAD_SIZE + SUPER_SIZE then Fail
      else
        var r := ReadDir(m, root, depth, Bounds(UNSET, 0, UNSET, 0));
        if !r.Done? then Not(r) else Layout(r.value.0, r.value.1, super, start)
  }

  /** The checks of the layout at the end. */
  ghost function Layout(tree: Node, b: Bounds, super: Super, start: nat): Outcome<Node> {
    if b.startData != UNSET && (b.startData < SUPER_SIZE + start || b.endDir != b.startData) then Fail
    else if HasFlag(super.flags, FLAG_FSID_VERSION_2) && b.endData > super.size then Fail
    else Done(tree)
  }

  /** The byte order in which the magic number stands at `at`, if it does. */
  ghost function OrderAt(img: Bytes, at: nat): Option<bool>
    requires at + 4 <= |img|
  {
    if U32Of(true, img[at..at + 4]) == MAGIC then Some(true)
    else if U32Of(false, img[at..at + 4]) == MAGIC then Some(false)
    else None
  }

  /** The magic number reads the same in only one byte order. */
  lemma OneOrder(b: Bytes)
    requires |b| == 4
    ensures !(U32Of(true, b) == MAGIC && U32Of(false, b) == MAGIC)
  {
    Digits(b[0], b[1], b[2], b[3]);
    Digits(b[3], b[2], b[1], b[0]);
  }

  /** Where the super block is, and its byte order. */
  ghost function FindSuper(img: Bytes): Option<(nat, bool)> {
    if |img| < SUPER_SIZE then None
    else if OrderAt(img, 0).Some? then Some((0, OrderAt(img, 0).value))
    else if |img| < PAD_SIZE + SUPER_SIZE || OrderAt(img, PAD_SIZE).None? then None
    else Some((PAD_SIZE, OrderAt(img, PAD_SIZE).value))
  }

  /** Bytes with the field of the checksum cleared. */
  function Cleared(b: Bytes): Bytes
    requires |b| >= SUPER_SIZE
  {
    b[..CRC_AT] + [0, 0, 0, 0] + b[CRC_AT + 4..]
  }

  /** test_super() and test_crc(): is the super block at `start` in order? */
  ghost predicate SuperPasses(m: Medium, super: Super, start: nat, crc: Bytes -> u32)
    requires start + SUPER_SIZE <= |m.img|
  {
    && !Unsupported(super.flags) && start + SUPER_SIZE <= super.size
    && (HasFlag(super.flags, FLAG_FSID_VERSION_2) ==>
          && U32At(m, start + FILES_AT) != 0 && super.size <= |m.img|
          && crc(Cleared(m.img[start..super.size])) == U32At(m, start + CRC_AT))
  }

  /** fsck.cramfs --extract on a file with these bytes. */
  ghost function Fsck(img: Bytes, blk: nat, inflate: Bytes -> Option<Bytes>, crc: Bytes -> u32,
                      depth: nat): Outcome<Node>
    requires blk > 0
  {
    var found := FindSuper(img);
    if found.None? then Fail
    else
      var start, m := found.value.0, Medium(img, found.value.1, blk, inflate);
      var super := Super(U32At(m, start + SIZE_AT), U32At(m, start + FLAGS_AT));
      if !SuperPasses(m, super, start, crc) then Fail else TestFs(m, super, start, depth)
  }
}
