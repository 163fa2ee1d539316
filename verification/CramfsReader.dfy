/** The reader of fsck.cramfs (disk-utils/fsck.cramfs.c): a window on the image, and the
    walk over directories and files through it. It does what the plain reading of the
    image does, wherever that stays within the image. */
module CramfsReader {
  import opened Common
  import opened CramfsFormat
  import opened CramfsLayout
  import opened CramfsData
  import opened CramfsReading
  import opened Bits

  /** A file was read as the plain reading does, unless that leaves the image. */
  ghost predicate FileFollows(pure: Outcome<(Bytes, nat)>, r: Outcome<Bytes>, was: Bounds, now: Bounds) {
    && (pure.Done? ==> r == Done(pure.value.0) && now == was.(endData := pure.value.1))
    && (pure.Fail? ==> r.Fail?)
  }

  ghost predicate DataFollows(pure: Outcome<(Bytes, Bounds)>, r: Outcome<Bytes>, now: Bounds) {
    && (pure.Done? ==> r == Done(pure.value.0) && now == pure.value.1)
    && (pure.Fail? ==> r.Fail?)
  }

  ghost predicate EntryFollows(pure: Outcome<(Option<Bytes>, Node, Bounds)>, r: Outcome<(Option<Bytes>, Node)>,
                               now: Bounds) {
    && (pure.Done? ==> r == Done((pure.value.0, pure.value.1)) && now == pure.value.2)
    && (pure.Fail? ==> r.Fail?) && (pure.Deep? ==> r.Deep?)
  }

  ghost predicate DirFollows(pure: Outcome<(Node, Bounds)>, r: Outcome<Node>, now: Bounds) {
    && (pure.Done? ==> r == Done(pure.value.0) && now == pure.value.1)
    && (pure.Fail? ==> r.Fail?) && (pure.Deep? ==> r.Deep?)
  }

  // ---------- The entries of a directory, one after the other ----------

  predicate AllNodes(acc: seq<Node>) {
    forall k :: 0 <= k < |acc| ==> acc[k].Node?
  }

  function Chain(acc: seq<Node>, tail: Node): Node
    requires AllNodes(acc)
  {
    if acc == [] then tail else acc[0].(next := Chain(acc[1..], tail))
  }

  lemma {:induction false} ChainSnoc(acc: seq<Node>, n: Node, tail: Node)
    requires AllNodes(acc) && n.Node?
    ensures Chain(acc + [n], tail) == Chain(acc, n.(next := tail))
  {
    if acc == [] {
      assert (acc + [n])[1..] == [];
    } else {
      assert (acc + [n])[1..] == acc[1..] + [n];
      ChainSnoc(acc[1..], n, tail);
    }
  }

  ghost function Chained(acc: seq<Node>, r: Outcome<(Node, Bounds)>): Outcome<(Node, Bounds)>
    requires AllNodes(acc)
  {
    if r.Done? then Done((Chain(acc, r.value.0), r.value.1)) else r
  }

  lemma ChainOne(n: Node, tail: Node)
    requires n.Node?
    ensures Chain([n], tail) == n.(next := tail)
  {
    assert [n][1..] == [];
  }

  lemma ChainedNothing(r: Outcome<(Node, Bounds)>)
    ensures Chained([], r) == r
  {
  }

  lemma ChainedSnoc(acc: seq<Node>, n: Node, r: Outcome<(Node, Bounds)>)
    requires AllNodes(acc) && n.Node?
    ensures Chained(acc, Chained([n], r)) == Chained(acc + [n], r)
  {
    if r.Done? {
      ChainSnoc(acc, n, r.value.0);
      ChainOne(n, r.value.0);
    }
  }

  lemma ListEnds(m: Medium, at: nat, count: int, depth: nat, b: Bounds)
    requires m.blk > 0 && count <= 0
    ensures ReadList(m, at, count, depth, b) == Done((End, b))
  {
  }

  /** An entry as a node that nothing follows yet. */
  function Single(name: Bytes, i: Inode, data: Option<Bytes>, child: Node): Node {
    Node(name[..Strlen(name)], i.mode, i.uid, i.gid, i.size, data, child, End)
  }

  /** The first step of the plain reading of a list. */
  lemma ListUnfold(m: Medium, at: nat, i: Inode, name: Bytes, count: int, depth: nat, b: Bounds)
    requires m.blk > 0 && count > 0
    requires at + INODE_SIZE <= |m.img| ==> i == Decode(m.big, m.img[at..at + INODE_SIZE])
    requires var next := at + INODE_SIZE + 4 * i.namelen; next <= |m.img| ==> name == m.img[at + INODE_SIZE..next]
    ensures var r := ReadList(m, at, count, depth, b);
      var next := at + INODE_SIZE + 4 * i.namelen;
      r.Outside? ||
      if !GoodName(name) then r == Fail
      else
        var e := Expand(m, i, depth, b);
        if !e.Done? then r == Not(e)
        else if next <= e.value.2.startDir then r == Fail
        else r == Chained([Single(name, i, e.value.0, e.value.1)],
                          ReadList(m, next, count - (next - at), depth,
                                   e.value.2.(endDir := Max(e.value.2.endDir, next))))
  {
    hide Decode, GoodName, Strlen, Expand;
    if at + INODE_SIZE <= |m.img| {
      var next := at + INODE_SIZE + 4 * i.namelen;
      if next <= |m.img| {
        assert ReadList(m, at, count, depth, b) == ReadEntry(m, i, name, next, count - (next - at), depth, b);
        EntryUnfold(m, i, name, next, count - (next - at), depth, b);
      }
    }
  }

  lemma EntryUnfold(m: Medium, i: Inode, name: Bytes, next: nat, count: int, depth: nat, b: Bounds)
    requires m.blk > 0
    ensures var r := ReadEntry(m, i, name, next, count, depth, b);
      if !GoodName(name) then r == Fail
      else
        var e := Expand(m, i, depth, b);
        if !e.Done? then r == Not(e)
        else if next <= e.value.2.startDir then r == Fail
        else r == Chained([Single(name, i, e.value.0, e.value.1)],
                          ReadList(m, next, count, depth, e.value.2.(endDir := Max(e.value.2.endDir, next))))
  {
    hide Expand, GoodName, ReadList, Strlen, Chain;
    var e := Expand(m, i, depth, b);
    if e.Done? {
      var rest := ReadList(m, next, count, depth, e.value.2.(endDir := Max(e.value.2.endDir, next)));
      if rest.Done? {
        ChainOne(Single(name, i, e.value.0, e.value.1), rest.value.0);
      }
    }
  }

  lemma BlocksUnfold(m: Medium, ptr: nat, curr: nat, size: nat, endData: nat)
    requires m.blk > 0 && size > 0
    ensures var r := ReadBlocks(m, ptr, curr, size, endData);
      if ptr + 4 > |m.img| then r == Outside
      else
        var next, want := U32At(m, ptr), Min(m.blk, size);
        var block := BlockRead(m, curr, next, want);
        if block.Outside? then r == Outside
        else if !block.Done? || |block.value| != want then r == Fail
        else r == Before(block.value, if size == want then Done(([], Max(endData, next)))
                                      else ReadBlocks(m, ptr + 4, next, size - want, Max(endData, next)))
  {
    if ptr + 4 <= |m.img| {
      var block := BlockRead(m, curr, U32At(m, ptr), Min(m.blk, size));
      assert block.Done? ==> block.value + [] == block.value;
    }
  }

  lemma BeforeNothing(r: Outcome<(Bytes, nat)>)
    ensures Before([], r) == r
  {
    assert r.Done? ==> [] + r.value.0 == r.value.0;
  }

  lemma {:induction false} BlocksNotDeep(m: Medium, ptr: nat, curr: nat, size: nat, endData: nat)
    requires m.blk > 0 && size > 0
    ensures !ReadBlocks(m, ptr, curr, size, endData).Deep?
    decreases size
  {
    BlocksUnfold(m, ptr, curr, size, endData);
    if ptr + 4 <= |m.img| && size > m.blk {
      BlocksNotDeep(m, ptr + 4, U32At(m, ptr), size - m.blk, Max(endData, U32At(m, ptr)));
    }
  }

  lemma DataNotDeep(m: Medium, i: Inode, b: Bounds)
    requires m.blk > 0
    ensures !ReadFile(m, i, b).Deep? && !ReadLink(m, i, b).Deep?
  {
    hide ReadBlocks, U32At, Inflated;
  }

  lemma BeforeBefore(a: Bytes, b: Bytes, r: Outcome<(Bytes, nat)>)
    ensures Before(a, Before(b, r)) == Before(a + b, r)
  {
    if r.Done? {
      assert a + (b + r.value.0) == a + b + r.value.0;
    }
  }

  /** The loop that counts how often a power of two can be halved. */
  method Log2(n: nat) returns (k: nat)
    requires IsPow2(n)
    ensures Pow2(k) == n
  {
    ghost var j: nat :| n == Pow2(j);
    var size := n;
    k := 0;
    size := size / 2;
    while size > 0
      invariant k <= j && size == if k == j then 0 else Pow2(j - k - 1)
    {
      k := k + 1;
      size := size / 2;
    }
  }

  class Reader {
    const m: Medium
    const host: bool          // byte order of the machine
    const bits: nat           // rombufbits
    var buffer: Bytes         // read_buffer, two blocks of the size below
    var block: int            // read_buffer_block, -1 at first
    var bounds: Bounds

    constructor (m: Medium, host: bool)
      requires m.blk >= 128 && IsPow2(m.blk)
      ensures Valid() && this.m == m && this.host == host && bounds == Bounds(UNSET, 0, UNSET, 0)
    {
      this.m, this.host := m, host;
      DoublePow2(m.blk);
      var log := Log2(2 * m.blk);
      bits := log;
      buffer, block, bounds := Zeros(4 * m.blk), -1, Bounds(UNSET, 0, UNSET, 0);
    }

    /** rombufsize */
    function Size(): nat {
      2 * m.blk
    }

    /** The buffer holds the bytes from its block on, as far as the image goes. */
    ghost predicate Valid()
      reads this`buffer, this`block
    {
      && m.blk >= 128 && Size() == Pow2(bits) && |buffer| == 2 * Size() && block >= -1
      && (block >= 0 ==> Window(block * Pow2(bits)))
    }

    ghost predicate Window(start: nat)
      reads this`buffer
    {
      forall k :: 0 <= k < |buffer| && start + k < |m.img| ==> buffer[k] == m.img[start + k]
    }

    /** lseek() and read(): a short read leaves the rest of the buffer alone. */
    method Fill(start: nat)
      modifies this`buffer
      ensures |buffer| == |old(buffer)| && Window(start)
    {
      var was := buffer;
      buffer := seq(|was|, k requires 0 <= k < |was| => if start + k < |m.img| then m.img[start + k] else was[k]);
    }

    /** romfs_read(): the place in the buffer where byte `offset` is, with at least
        two blocks of the image behind it. */
    method RomfsRead(offset: nat) returns (p: nat)
      requires Valid()
      modifies this`buffer, this`block
      ensures Valid() && p + Size() <= |buffer|
      ensures forall k :: p <= k < p + Size() && offset + (k - p) < |m.img| ==> buffer[k] == m.img[offset + (k - p)]
    {
      hide And, Pow2, Window;
      SplitBits(offset, bits);
      var b := offset / Pow2(bits);
      if b != block {
        block := b;
        Fill(b * Pow2(bits));
      }
      p := And(offset, Size() - 1);
      InWindow(b * Pow2(bits), p, offset);
    }

    lemma InWindow(start: nat, p: nat, offset: nat)
      requires Window(start) && start + p == offset && p + Size() <= |buffer|
      ensures forall k :: p <= k < p + Size() && offset + (k - p) < |m.img| ==> buffer[k] == m.img[offset + (k - p)]
    {
      forall k | p <= k < p + Size() && offset + (k - p) < |m.img|
        ensures buffer[k] == m.img[offset + (k - p)]
      {
        assert start + k == offset + (k - p);
      }
    }

    /** The `n` bytes at `offset`. */
    method Get(offset: nat, n: nat) returns (b: Bytes)
      requires Valid() && n <= Size()
      modifies this`buffer, this`block
      ensures Valid() && |b| == n && (offset + n <= |m.img| ==> b == m.img[offset..offset + n])
    {
      var p := RomfsRead(offset);
      b := buffer[p..p + n];
    }

    method GetU32(offset: nat) returns (w: u32)
      requires Valid()
      modifies this`buffer, this`block
      ensures Valid() && (offset + 4 <= |m.img| ==> w == U32At(m, offset))
    {
      var b := Get(offset, 4);
      HostWord(host, m.big, b);
      w := ToggleU32(host, m.big, U32Of(host, b));
    }

    /** iget() */
    method Iget(offset: nat) returns (i: Inode)
      requires Valid()
      modifies this`buffer, this`block
      ensures Valid() && (offset + INODE_SIZE <= |m.img| ==> i == Decode(m.big, m.img[offset..offset + INODE_SIZE]))
    {
      var b := Get(offset, INODE_SIZE);
      HostDecodes(host, m.big, b);
      i := Decode(host, Toggle(m.big, host, b));
    }

    /** uncompress_block() */
    method Uncompress(curr: nat, next: nat) returns (r: Outcome<Bytes>)
      requires Valid()
      modifies this`buffer, this`block
      ensures Valid() && (r.Done? || r.Fail?) && (!Inflated(m, curr, next).Outside? ==> r == Inflated(m, curr, next))
    {
      if next < curr || next - curr > 2 * m.blk {
        return Fail;
      }
      var b := Get(curr, next - curr);
      var x := m.inflate(b);
      r := if x.None? then Fail else Done(x.value);
    }

    /** One block of a file: a hole, or compressed bytes. */
    method ReadBlock(curr: nat, next: nat, want: nat) returns (r: Outcome<Bytes>)
      requires Valid()
      modifies this`buffer, this`block
      ensures Valid() && (r.Done? || r.Fail?)
      ensures (!BlockRead(m, curr, next, want).Outside? ==> r == BlockRead(m, curr, next, want))
    {
      if curr == next {
        return Done(Zeros(want));
      }
      r := Uncompress(curr, next);
    }

    /** do_uncompress() */
    method DoUncompress(offset: nat, length: nat) returns (r: Outcome<Bytes>)
      requires Valid() && length > 0
      modifies this
      ensures Valid()
      ensures FileFollows(ReadBlocks(m, offset, offset + 4 * ((length + m.blk - 1) / m.blk), length,
                                     old(bounds).endData), r, old(bounds), bounds)
    {
      hide ReadBlocks, BlockRead, U32At, Window, Pow2;
      var ptr: nat, curr: nat, size, out := offset, offset + 4 * ((length + m.blk - 1) / m.blk), length, [];
      ghost var pure := ReadBlocks(m, ptr, curr, size, bounds.endData);
      ghost var b0 := bounds;
      BeforeNothing(pure);
      while true
        invariant Valid() && size > 0 && bounds == b0.(endData := bounds.endData)
        invariant !pure.Outside? ==> pure == Before(out, ReadBlocks(m, ptr, curr, size, bounds.endData))
        decreases size
      {
        var want := Min(m.blk, size);
        var next := GetU32(ptr);
        ghost var end := bounds.endData;
        bounds := bounds.(endData := Max(bounds.endData, next));
        var block := ReadBlock(curr, next, want);
        BlocksUnfold(m, ptr, curr, size, end);
        if !block.Done? || |block.value| != want {
          return Fail;
        }
        BeforeBefore(out, block.value, if size == want then Done(([], bounds.endData))
                                       else ReadBlocks(m, ptr + 4, next, size - want, bounds.endData));
        out := out + block.value;
        if size == want {
          assert out + [] == out;
          return Done(out);
        }
        ptr, curr, size := ptr + 4, next, size - want;
      }
    }

    /** do_file() */
    method DoFile(i: Inode) returns (r: Outcome<Bytes>)
      requires Valid()
      modifies this
      ensures Valid() && DataFollows(ReadFile(m, i, old(bounds)), r, bounds)
    {
      hide ReadBlocks, Window;
      if i.size > 0 {
        BlocksNotDeep(m, 4 * i.offset, 4 * i.offset + 4 * ((i.size + m.blk - 1) / m.blk), i.size, bounds.endData);
      }
      var offset := 4 * i.offset;
      if offset == 0 && i.size != 0 {
        return Fail;
      }
      if i.size == 0 && offset != 0 {
        return Fail;
      }
      if offset != 0 && offset < bounds.startData {
        bounds := bounds.(startData := offset);
      }
      r := Done([]);
      if i.size != 0 {
        r := DoUncompress(offset, i.size);
      }
    }

    /** do_symlink() */
    method DoSymlink(i: Inode) returns (r: Outcome<Bytes>)
      requires Valid()
      modifies this
      ensures Valid() && DataFollows(ReadLink(m, i, old(bounds)), r, bounds)
    {
      var offset := 4 * i.offset;
      var next := GetU32(offset);
      if offset == 0 || i.size == 0 {
        return Fail;
      }
      if offset < bounds.startData {
        bounds := bounds.(startData := offset);
      }
      if next > bounds.endData {
        bounds := bounds.(endData := next);
      }
      r := Uncompress(offset + 4, next);
      if r.Done? && |r.value| != i.size {
        return Fail;
      }
    }

    /** do_special_inode() */
    method DoSpecialInode(i: Inode) returns (ok: bool)
      ensures ReadSpecial(i, bounds) == if ok then Done(bounds) else Fail
    {
      if i.offset != 0 {
        return false;
      }
      ok := IsDevice(i.mode) || (IsPipe(i.mode) && i.size == 0);
    }

    /** expand_fs(), in at most `depth` nested directories. */
    method ExpandFs(i: Inode, depth: nat) returns (r: Outcome<(Option<Bytes>, Node)>)
      requires Valid()
      modifies this
      ensures Valid() && EntryFollows(Expand(m, i, depth, old(bounds)), r, bounds)
      decreases depth, 0
    {
      hide ReadFile, ReadLink, ReadList, Window;
      DataNotDeep(m, i, bounds);
      if IsDir(i.mode) {
        if depth == 0 {
          return Deep;
        }
        var d := DoDirectory(i, depth - 1);
        r := if d.Done? then Done((None, d.value)) else Not(d);
      } else if IsReg(i.mode) {
        var f := DoFile(i);
        r := if f.Done? then Done((Some(f.value), End)) else Not(f);
      } else if IsLnk(i.mode) {
        var f := DoSymlink(i);
        r := if f.Done? then Done((Some(f.value), End)) else Not(f);
      } else {
        var ok := DoSpecialInode(i);
        r := if ok then Done((None, End)) else Fail;
      }
    }

    /** do_directory() */
    method DoDirectory(i: Inode, depth: nat) returns (r: Outcome<Node>)
      requires Valid()
      modifies this
      ensures Valid() && DirFollows(ReadDir(m, i, depth, old(bounds)), r, bounds)
      decreases depth, 3
    {
      var count: int := i.size;
      var offset := 4 * i.offset;
      if offset == 0 && count != 0 {
        return Fail;
      }
      if offset != 0 && offset < bounds.startDir {
        bounds := bounds.(startDir := offset);
      }
      r := ReadEntries(offset, count, depth);
    }

    /** Its loop. */
    method ReadEntries(at: nat, size: int, depth: nat) returns (r: Outcome<Node>)
      requires Valid()
      modifies this
      ensures Valid() && DirFollows(ReadList(m, at, size, depth, old(bounds)), r, bounds)
      decreases depth, 2
    {
      hide ReadList, Window, Chain;
      var offset, count, acc: seq<Node> := at, size, [];
      ghost var pure := ReadList(m, at, size, depth, bounds);
      ChainedNothing(pure);
      while count > 0
        invariant Valid() && AllNodes(acc)
        invariant !pure.Outside? ==> pure == Chained(acc, ReadList(m, offset, count, depth, bounds))
        decreases count
      {
        var e, used := ReadOne(offset, count, depth);
        if !e.Done? {
          return Not(e);
        }
        ChainedSnoc(acc, e.value, ReadList(m, offset + used, count - used, depth, bounds));
        acc, offset, count := acc + [e.value], offset + used, count - used;
      }
      ListEnds(m, offset, count, depth, bounds);
      r := Done(Chain(acc, End));
    }

    /** One entry, which takes `used` bytes, and all below it. */
    method ReadOne(at: nat, count: int, depth: nat) returns (r: Outcome<Node>, used: nat)
      requires Valid() && count > 0
      modifies this
      ensures Valid() && used >= INODE_SIZE && (r.Done? ==> r.value.Node?)
      ensures var pure := ReadList(m, at, count, depth, old(bounds));
        pure.Outside? ||
        pure == if r.Done? then Chained([r.value], ReadList(m, at + used, count - used, depth, bounds)) else Not(r)
      decreases depth, 1
    {
      hide Decode, GoodName, ReadList, Window, Chain, Expand;
      var i := Iget(at);
      used := INODE_SIZE + 4 * i.namelen;
      var name := Get(at + INODE_SIZE, 4 * i.namelen);
      ListUnfold(m, at, i, name, count, depth, bounds);
      if !GoodName(name) {
        return Fail, used;
      }
      var e := ExpandFs(i, depth);
      if !e.Done? {
        return Not(e), used;
      }
      if at + used <= bounds.startDir {
        return Fail, used;
      }
      bounds := bounds.(endDir := Max(bounds.endDir, at + used));
      r := Done(Single(name, i, e.value.0, e.value.1));
    }


    /** test_fs() */
    method CheckImage(super: Super, start: nat, depth: nat) returns (r: Outcome<Node>)
      requires Valid() && bounds == Bounds(UNSET, 0, UNSET, 0)
      modifies this
      ensures !TestFs(m, super, start, depth).Outside? ==> r == TestFs(m, super, start, depth)
    {
      hide ReadDir, Decode, Window;
      if start + SUPER_SIZE > |m.img| {
        return Fail;
      }
      var b := m.img[start + ROOT_AT..start + SUPER_SIZE];
      HostDecodes(host, m.big, b);
      var root := Decode(host, Toggle(m.big, host, b));
      if !IsDir(root.mode) {
        return Fail;
      }
      var offset := 4 * root.offset;
      if !HasFlag(super.flags, FLAG_SHIFTED_ROOT_OFFSET) {
        if offset != SUPER_SIZE && offset != PAD_SIZE + SUPER_SIZE {
          return Fail;
        }
      }
      r := DoDirectory(root, depth);
      if r.Done? {
        if bounds.startData != UNSET && (bounds.startData < SUPER_SIZE + start || bounds.endDir != bounds.startData) {
          return Fail;
        }
        if HasFlag(super.flags, FLAG_FSID_VERSION_2) && bounds.endData > super.size {
          return Fail;
        }
      }
    }
  }

  // ---------- The super block ----------

  /** get_superblock_endianness(), on the four bytes at `at`. */
  method Endianness(img: Bytes, at: nat, host: bool) returns (big: Option<bool>)
    requires at + 4 <= |img|
    ensures big == OrderAt(img, at)
  {
    var b := img[at..at + 4];
    OneOrder(b);
    HostWord(host, !host, b);
    var magic := U32Of(host, b);
    if magic == MAGIC {
      return Some(host);
    }
    if magic == Swab32(MAGIC) {
      SwabTwice(MAGIC);
      return Some(!host);
    }
    SwabTwice(magic);
    return None;
  }

  lemma SwabTwice(w: u32)
    ensures Swab32(Swab32(w)) == w
  {
    WordDecodes(true, U32Bytes(false, w));
    U32RoundTrip(false, w);
    var b := U32Bytes(false, w);
    Digits(b[0], b[1], b[2], b[3]);
  }

  /** test_super(): where the super block is. */
  method Locate(img: Bytes, host: bool) returns (r: Option<(nat, bool)>)
    ensures r == FindSuper(img)
  {
    if |img| < SUPER_SIZE {
      return None;
    }
    var big := Endianness(img, 0, host);
    if big.Some? {
      return Some((0, big.value));
    }
    if |img| < PAD_SIZE + SUPER_SIZE {
      return None;
    }
    big := Endianness(img, PAD_SIZE, host);
    r := if big.Some? then Some((PAD_SIZE, big.value)) else None;
  }

  /** A word of the super block, brought into the byte order of the machine. */
  method SuperWord(m: Medium, host: bool, at: nat) returns (w: u32)
    requires at + 4 <= |m.img|
    ensures w == U32At(m, at)
  {
    var b := m.img[at..at + 4];
    HostWord(host, m.big, b);
    w := ToggleU32(host, m.big, U32Of(host, b));
  }

  /** test_super() and test_crc() */
  method CheckSuper(m: Medium, host: bool, super: Super, start: nat, crc: Bytes -> u32) returns (ok: bool)
    requires start + SUPER_SIZE <= |m.img|
    ensures ok <==> SuperPasses(m, super, start, crc)
  {
    hide U32At, HasFlag;
    if Unsupported(super.flags) || super.size < start + SUPER_SIZE {
      return false;
    }
    if !HasFlag(super.flags, FLAG_FSID_VERSION_2) {
      return true;
    }
    var files := SuperWord(m, host, start + FILES_AT);
    if files == 0 || |m.img| < super.size {
      return false;
    }
    var sum := SuperWord(m, host, start + CRC_AT);
    ok := crc(Cleared(m.img[start..super.size])) == sum;
  }

  /** fsck.cramfs --extract on a file with these bytes, in at most `depth` nested
      directories. */
  method FsckImage(img: Bytes, host: bool, blk: nat, inflate: Bytes -> Option<Bytes>, crc: Bytes -> u32, depth: nat)
    returns (r: Outcome<Node>)
    requires blk >= 128 && IsPow2(blk)
    ensures !Fsck(img, blk, inflate, crc, depth).Outside? ==> r == Fsck(img, blk, inflate, crc, depth)
  {
    hide TestFs, U32At, OrderAt, SuperPasses;
    var found := Locate(img, host);
    if found.None? {
      return Fail;
    }
    var start, m := found.value.0, Medium(img, found.value.1, blk, inflate);
    var size := SuperWord(m, host, start + SIZE_AT);
    var flags := SuperWord(m, host, start + FLAGS_AT);
    var ok := CheckSuper(m, host, Super(size, flags), start, crc);
    if !ok {
      return Fail;
    }
    var reader := new Reader(m, host);
    r := reader.CheckImage(Super(size, flags), start, depth);
  }
}
