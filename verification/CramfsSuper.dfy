/** The super block of cramfs: what mkfs.cramfs writes (disk-utils/mkfs.cramfs.c:
    write_superblock) and what fsck.cramfs makes of it. */
module CramfsSuper {
  import opened Common
  import opened CramfsFormat
  import opened CramfsLayout
  import opened CramfsData
  import opened CramfsReading

  /** "Compressed ROMFS" */
  function Signature(): (r: Bytes)
    ensures |r| == 16
  {
    [67, 111, 109, 112, 114, 101, 115, 115, 101, 100, 32, 82, 79, 77, 70, 83]
  }

  /** The flags: holes and an inserted file have one each, which fsck does not know. */
  function Flags(holes: bool, inserted: bool): u32 {
    FLAG_FSID_VERSION_2 + FLAG_SORTED_DIRS
    + (if holes then FLAG_HOLES else 0) + (if inserted then FLAG_SHIFTED_ROOT_OFFSET else 0)
  }

  lemma FlagsTell(holes: bool, inserted: bool)
    ensures var f := Flags(holes, inserted);
      && (Unsupported(f) <==> holes || inserted)
      && HasFlag(f, FLAG_FSID_VERSION_2) && (HasFlag(f, FLAG_SHIFTED_ROOT_OFFSET) <==> inserted)
  {
  }

  /** A name of up to 16 bytes, filled up with zeros. */
  function NameField(name: Bytes): (r: Bytes)
    ensures |r| == 16
  {
    if |name| >= 16 then name[..16] else name + Zeros(16 - |name|)
  }

  /** The super block before the checksum. */
  function Front(big: bool, size: u32, flags: u32): (r: Bytes)
    ensures |r| == CRC_AT
  {
    U32Bytes(big, MAGIC) + U32Bytes(big, size) + U32Bytes(big, flags) + U32Bytes(big, 0) + Signature()
  }

  /** The super block after it. */
  function Back(big: bool, edition: u32, blocks: u32, files: u32, name: Bytes, root: Inode): (r: Bytes)
    ensures |r| == SUPER_SIZE - CRC_AT - 4
  {
    U32Bytes(big, edition) + U32Bytes(big, blocks) + U32Bytes(big, files) + NameField(name) + Encode(big, root)
  }

  /** The fields that the reader looks at. */
  ghost predicate SuperAt(img: Bytes, big: bool, start: nat, super: Super, files: u32, root: Inode) {
    && start + SUPER_SIZE <= |img|
    && WordAt(img, big, start + MAGIC_AT, MAGIC) && WordAt(img, big, start + SIZE_AT, super.size)
    && WordAt(img, big, start + FLAGS_AT, super.flags) && WordAt(img, big, start + FILES_AT, files)
    && HoldsAt(img, start + ROOT_AT, Encode(big, root))
  }

  lemma PartAt(img: Bytes, at: nat, all: Bytes, part: Bytes, from: nat)
    requires HoldsAt(img, at, all) && from + |part| <= |all| && part == all[from..from + |part|]
    ensures HoldsAt(img, at + from, part)
  {
    forall i | at + from <= i < at + from + |part|
      ensures img[i] == part[i - (at + from)]
    {
      assert part[i - (at + from)] == all[i - at];
    }
  }

  lemma WordPart(img: Bytes, big: bool, at: nat, all: Bytes, w: u32, from: nat)
    requires HoldsAt(img, at, all) && from + 4 <= |all| && U32Bytes(big, w) == all[from..from + 4]
    ensures WordAt(img, big, at + from, w)
  {
    hide U32Bytes, U32Of;
    var b := U32Bytes(big, w);
    PartAt(img, at, all, b, from);
    U32RoundTrip(big, w);
    assert img[at + from..at + from + 4] == b;
  }

  /** Front and back of a super block make up its fields. */
  lemma FieldsAt(img: Bytes, big: bool, start: nat, super: Super, edition: u32, blocks: u32, files: u32, name: Bytes,
                 root: Inode)
    requires start + SUPER_SIZE <= |img| && HoldsAt(img, start, Front(big, super.size, super.flags))
    requires HoldsAt(img, start + CRC_AT + 4, Back(big, edition, blocks, files, name, root))
    ensures SuperAt(img, big, start, super, files, root)
  {
    hide U32Bytes, Encode, HoldsAt, WordAt, Signature, NameField;
    var f, b := Front(big, super.size, super.flags), Back(big, edition, blocks, files, name, root);
    assert f[0..4] == U32Bytes(big, MAGIC) && f[4..8] == U32Bytes(big, super.size);
    assert f[8..12] == U32Bytes(big, super.flags);
    WordPart(img, big, start, f, MAGIC, MAGIC_AT);
    WordPart(img, big, start, f, super.size, SIZE_AT);
    WordPart(img, big, start, f, super.flags, FLAGS_AT);
    assert b[8..12] == U32Bytes(big, files) && b[28..40] == Encode(big, root);
    WordPart(img, big, start + CRC_AT + 4, b, files, 8);
    PartAt(img, start + CRC_AT + 4, b, Encode(big, root), 28);
  }

  // ---------- Finding it ----------

  /** The super block is found, at the beginning or after the padding, and its byte
      order with it. */
  lemma SuperFound(img: Bytes, big: bool, start: nat)
    requires start + SUPER_SIZE <= |img| && (start == 0 || start == PAD_SIZE)
    requires WordAt(img, big, start + MAGIC_AT, MAGIC)
    requires start == PAD_SIZE ==> forall k :: 0 <= k < 4 ==> img[k] == 0
    ensures FindSuper(img) == Some((start, big))
  {
    OneOrder(img[start..start + 4]);
    if start == PAD_SIZE {
      var b := img[0..4];
      assert b[0] == 0 && b[1] == 0 && b[2] == 0 && b[3] == 0;
      assert OrderAt(img, 0) == None;
    }
  }

  /** What fsck makes of an image whose super block tells the truth: with an unknown
      flag it gives up, otherwise it extracts. */
  lemma FsckIs(img: Bytes, big: bool, start: nat, super: Super, files: u32, root: Inode,
               blk: nat, inflate: Bytes -> Option<Bytes>, crc: Bytes -> u32, depth: nat)
    requires blk > 0 && (start == 0 || start == PAD_SIZE) && SuperAt(img, big, start, super, files, root) && files > 0
    requires start == PAD_SIZE ==> forall k :: 0 <= k < 4 ==> img[k] == 0
    requires super.size == |img| && WordAt(img, big, start + CRC_AT, crc(Cleared(img[start..])))
    ensures Fsck(img, blk, inflate, crc, depth)
      == if Unsupported(super.flags) then Fail else TestFs(Medium(img, big, blk, inflate), super, start, depth)
  {
    hide TestFs, U32Of, OrderAt, Cleared, HasFlag, Unsupported, FindSuper, Encode, HoldsAt;
    SuperFound(img, big, start);
    assert img[start..super.size] == img[start..];
  }

  /** Without the magic number there is no super block, and nothing is extracted. */
  lemma NoMagicFails(img: Bytes, blk: nat, inflate: Bytes -> Option<Bytes>, crc: Bytes -> u32, depth: nat)
    requires blk > 0
    requires |img| >= 76 ==> U32Of(true, img[0..4]) != 0x28cd_3d45 && U32Of(false, img[0..4]) != 0x28cd_3d45
    requires |img| >= 588 ==> U32Of(true, img[512..516]) != 0x28cd_3d45 && U32Of(false, img[512..516]) != 0x28cd_3d45
    ensures Fsck(img, blk, inflate, crc, depth) == Fail
  {
    hide U32Of;
  }

  /** What is wrong with a super block of these fields at `start`: unknown flags, a size
      that does not hold the super block, and with version 2 no file, a size beyond the
      image, or another checksum than that of the image with its checksum cleared. */
  ghost predicate Refused(img: Bytes, start: nat, size: u32, flags: u32, files: u32, sum: u32, crc: Bytes -> u32)
    requires start + 76 <= |img|
  {
    || flags >= 256 || size < start + 76
    || (flags % 2 == 1
        && (|| files == 0 || size > |img|
            || sum != crc(img[start..start + 32] + [0, 0, 0, 0] + img[start + 36..size])))
  }

  /** The super block decides: a wrong one ends the program, any other goes on to the
      extraction. */
  lemma SuperDecides(img: Bytes, big: bool, start: nat, size: u32, flags: u32, files: u32, sum: u32,
                     blk: nat, inflate: Bytes -> Option<Bytes>, crc: Bytes -> u32, depth: nat)
    requires blk > 0 && (start == 0 || start == 512) && start + 76 <= |img|
    requires WordAt(img, big, start, 0x28cd_3d45) && WordAt(img, big, start + 4, size)
    requires WordAt(img, big, start + 8, flags) && WordAt(img, big, start + 44, files)
    requires WordAt(img, big, start + 32, sum)
    requires start == 512 ==> U32Of(true, img[0..4]) != 0x28cd_3d45 && U32Of(false, img[0..4]) != 0x28cd_3d45
    ensures Fsck(img, blk, inflate, crc, depth)
      == if Refused(img, start, size, flags, files, sum, crc) then Fail
         else TestFs(Medium(img, big, blk, inflate), Super(size, flags), start, depth)
  {
    hide TestFs, U32Of, Cleared;
    OneOrder(img[start..start + 4]);
    assert FindSuper(img) == Some((start, big));
    if start + 76 <= size <= |img| {
      ClearedSlice(img, start, size);
    }
  }

  lemma ClearedSlice(img: Bytes, start: nat, size: nat)
    requires start + 76 <= size <= |img|
    ensures Cleared(img[start..size]) == img[start..start + 32] + [0, 0, 0, 0] + img[start + 36..size]
  {
    var b := img[start..size];
    assert b[..32] == img[start..start + 32] && b[36..] == img[start + 36..size];
  }

  /** A root inode that is no directory, or whose contents do not begin right after the
      super block, ends the extraction. */
  lemma RootRefused(m: Medium, super: Super, start: nat, root: Inode, depth: nat)
    requires m.blk > 0 && start + 76 <= |m.img| && !Unsupported(super.flags)
    requires HoldsAt(m.img, start + 64, Encode(m.big, root))
    requires root.mode / 4096 != 4 || (root.offset != 19 && root.offset != 147)
    ensures TestFs(m, super, start, depth) == Fail
  {
    hide ReadDir, Encode, Decode;
    assert m.img[start + 64..start + 76] == Encode(m.big, root);
    InodeRoundTrip(m.big, root);
  }

  /** A name that is empty, holds a slash, or ends too early in its field ends the
      extraction. */
  lemma NameRefused(m: Medium, at: nat, i: Inode, name: Bytes, count: int, depth: nat, b: Bounds)
    requires m.blk > 0 && count > 0 && HoldsAt(m.img, at, Encode(m.big, i)) && |name| == 4 * i.namelen
    requires HoldsAt(m.img, at + 12, name)
    requires name == [] || 47 in name || exists k :: 0 <= k < |name| - 3 && name[k] == 0
    ensures ReadList(m, at, count, depth, b) == Fail
  {
    hide Encode, Decode, Expand, Strlen;
    assert m.img[at..at + 12] == Encode(m.big, i) && m.img[at + 12..at + 12 + |name|] == name;
    InodeRoundTrip(m.big, i);
    assert !GoodName(name);
  }

  /** A file with an offset and no size, or the other way round, and a first piece that
      goes backwards, is longer than two blocks, or does not inflate to its block, end the
      extraction. */
  lemma FileRefused(m: Medium, i: Inode, b: Bounds)
    requires m.blk > 0
    requires (i.offset == 0) != (i.size == 0) || (i.size > 0 && PieceRefused(m, i))
    ensures ReadFile(m, i, b) == Fail
  {
    hide U32At;
    if i.size > 0 && i.offset > 0 {
      BlocksIs(i.size, m.blk);
    }
  }

  ghost predicate PieceRefused(m: Medium, i: Inode)
    requires m.blk > 0
  {
    var o: nat := 4 * i.offset;
    o + 4 <= |m.img|
    && var curr, next := o + 4 * Blocks(i.size, m.blk), U32At(m, o);
       || next < curr || next > curr + 2 * m.blk
       || (curr < next <= |m.img|
           && var r := m.inflate(m.img[curr..next]); r.None? || |r.value| != Min(m.blk, i.size))
  }

  /** Clearing the checksum undoes filling it in. */
  lemma ClearedIs(now: Bytes, was: Bytes)
    requires |now| == |was| >= SUPER_SIZE
    requires forall k :: 0 <= k < |now| ==> if CRC_AT <= k < CRC_AT + 4 then was[k] == 0 else was[k] == now[k]
    ensures Cleared(now) == was
  {
  }

  // ---------- Writing it ----------

  /** A word as the machine stores it after super_toggle_endianness(). */
  method Word(host: bool, big: bool, w: u32) returns (b: Bytes)
    ensures b == U32Bytes(big, w)
  {
    ToggleU32Stores(host, big, w);
    b := U32Bytes(host, ToggleU32(host, big, w));
  }

  /** write_superblock(): the super block with an empty checksum. */
  method MakeSuper(host: bool, big: bool, super: Super, edition: u32, blocks: u32, files: u32, name: Bytes, root: Inode)
    returns (b: Bytes)
    ensures |b| == SUPER_SIZE
    ensures b == Front(big, super.size, super.flags) + [0, 0, 0, 0] + Back(big, edition, blocks, files, name, root)
  {
    hide U32Bytes, Encode, Toggle;
    var magic := Word(host, big, MAGIC);
    var size := Word(host, big, super.size);
    var flags := Word(host, big, super.flags);
    var future := Word(host, big, 0);
    var front := magic + size + flags + future + Signature();
    var ed := Word(host, big, edition);
    var bl := Word(host, big, blocks);
    var fi := Word(host, big, files);
    ToggleReencodes(host, big, root);
    var back := ed + bl + fi + NameField(name) + Toggle(host, big, Encode(host, root));
    b := front + [0, 0, 0, 0] + back;
  }
}
