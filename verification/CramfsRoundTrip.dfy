/** Reading back what mkfs.cramfs wrote: the recursive reader recovers exactly the tree
    that went into the image, with the contents of its files. */
module CramfsRoundTrip {
  import opened Common
  import opened CramfsFormat
  import opened CramfsTree
  import opened CramfsLayout
  import opened CramfsData
  import opened CramfsReading
  import W = CramfsWrite

  // ---------- Which trees ----------

  ghost predicate ProperName(name: Bytes) {
    0 < |name| <= 255 && 0 !in name && 47 !in name
  }

  /** An entry as parse_directory() makes it: its size, its file and its children
      suit its type, and a link target has at most `longest` bytes. */
  ghost predicate ProperEntry(e: Tree, longest: nat)
    requires e.Entry?
  {
    && ProperName(e.name)
    && (e.file.Some? <==> IsReg(e.mode) || IsLnk(e.mode)) && (e.file.Some? ==> |e.file.value| == e.size)
    && (!IsDevice(e.mode) ==> e.size < 0x100_0000)
    && (if IsDir(e.mode) then e.size == ListSize(e.child) else e.child.Null?)
    && (IsLnk(e.mode) ==> 0 < e.size <= longest && e.file.value[0] != 0)
    && (IsPipe(e.mode) ==> e.size == 0)
    && (IsDir(e.mode) || IsReg(e.mode) || IsLnk(e.mode) || IsDevice(e.mode) || IsPipe(e.mode))
  }

  ghost predicate Proper(t: Tree, longest: nat) {
    t.Entry? ==> ProperEntry(t, longest) && Proper(t.child, longest) && Proper(t.next, longest)
  }

  /** Every link target fits into a block, which is what the reader expects. */
  ghost predicate LinksFit(t: Tree, blk: nat) {
    t.Entry? ==> (IsLnk(t.mode) ==> t.size <= blk) && LinksFit(t.child, blk) && LinksFit(t.next, blk)
  }

  lemma {:induction false} ProperLinks(t: Tree, longest: nat, blk: nat)
    requires Proper(t, longest) && LinksFit(t, blk)
    ensures Proper(t, blk)
    decreases t, longest
  {
    if t.Entry? {
      ProperLinks(t.child, longest, blk);
      ProperLinks(t.next, longest, blk);
    }
  }


  /** The length of every name fits into its field. */
  ghost predicate NamesFit(t: Tree) {
    t.Entry? ==> |t.name| <= 252 && NamesFit(t.child) && NamesFit(t.next)
  }

  function Depth(t: Tree): nat {
    if t.Null? then 0 else Max(if IsDir(t.mode) then 1 + Depth(t.child) else 0, Depth(t.next))
  }

  /** What there is to recover: ids and device numbers lose what does not fit. */
  ghost function Recovered(t: Tree): Node {
    if t.Null? then End
    else
      Node(t.name, t.mode, t.uid % 0x1_0000, t.gid % 0x100, t.size % 0x100_0000, t.file, Recovered(t.child),
           Recovered(t.next))
  }

  // ---------- Offsets of directories ----------

  /** The contents of each directory begin where `sub` and the sizes say; other entries
      have no contents, except that files may have some when `stored`. */
  ghost predicate Linked(t: Tree, sub: nat, off: map<nat, nat>, stored: bool)
    decreases t, sub
  {
    t.Entry? ==>
      && t.id in off
      && (t.child.Entry? ==> off[t.id] == sub && Linked(t.child, sub + ListSize(t.child), off, stored))
      && (t.child.Null? && !(stored && t.file.Some?) ==> off[t.id] == 0)
      && Linked(t.next, sub + Below(t), off, stored)
  }

  /** `b` has at least the entries of `a`, and differs only within `lo` to `hi`. */
  ghost predicate Extends(a: map<nat, nat>, b: map<nat, nat>, lo: nat, hi: nat) {
    forall x :: x in a ==> x in b && (lo <= x < hi || b[x] == a[x])
  }

  /** Assigning offsets in a tree touches only its own entries. */
  lemma {:induction false} AssignFrame(t: Tree, n: nat, sub: nat, off: map<nat, nat>)
    requires Numbered(t, n)
    ensures Extends(off, Assign(t, sub, off), n, n + Nodes(t))
    decreases t
  {
    if t.Entry? {
      var mid, last := AssignEntry(t, sub, off), Assign(t, sub, off);
      if t.child.Entry? {
        var first := off[t.id := sub];
        AssignFrame(t.child, n + 1, sub + ListSize(t.child), first);
        ExtendsAll(off, first, mid, n, n + 1, n + 1, n + 1 + Nodes(t.child));
      }
      AssignFrame(t.next, n + 1 + Nodes(t.child), sub + Below(t), mid);
      ExtendsAll(off, mid, last, n, n + 1 + Nodes(t.child), n + 1 + Nodes(t.child), n + Nodes(t));
    }
  }

  lemma ExtendsAll(a: map<nat, nat>, b: map<nat, nat>, c: map<nat, nat>, lo: nat, mid: nat, mid': nat, hi: nat)
    requires lo <= mid <= mid' <= hi && Extends(a, b, lo, mid) && Extends(b, c, mid', hi)
    ensures Extends(a, c, lo, hi)
  {
  }

  lemma {:induction false} LinkedFrame(t: Tree, n: nat, sub: nat, off: map<nat, nat>, off': map<nat, nat>)
    requires Numbered(t, n) && Linked(t, sub, off, false)
    requires forall x :: n <= x < n + Nodes(t) && x in off ==> x in off' && off'[x] == off[x]
    ensures Linked(t, sub, off', false)
    decreases t
  {
    if t.Entry? {
      if t.child.Entry? {
        LinkedFrame(t.child, n + 1, sub + ListSize(t.child), off, off');
      }
      LinkedFrame(t.next, n + 1 + Nodes(t.child), sub + Below(t), off, off');
    }
  }

  ghost predicate AllZeroIn(off: map<nat, nat>, lo: nat, hi: nat) {
    forall x :: lo <= x < hi ==> x in off && off[x] == 0
  }

  /** One entry and all below it is linked. */
  ghost predicate LinkedEntry(t: Tree, sub: nat, off: map<nat, nat>)
    requires t.Entry?
  {
    && t.id in off
    && (t.child.Entry? ==> off[t.id] == sub && Linked(t.child, sub + ListSize(t.child), off, false))
    && (t.child.Null? ==> off[t.id] == 0)
  }

  lemma LinkedEntryFrame(t: Tree, n: nat, sub: nat, off: map<nat, nat>, off': map<nat, nat>, lo: nat, hi: nat)
    requires t.Entry? && Numbered(t, n) && LinkedEntry(t, sub, off) && n + 1 + Nodes(t.child) <= lo
    requires Extends(off, off', lo, hi)
    ensures LinkedEntry(t, sub, off')
  {
    if t.child.Entry? {
      LinkedFrame(t.child, n + 1, sub + ListSize(t.child), off, off');
    }
  }

  /** The assignment by recursion links the whole tree. */
  lemma {:induction false} AssignLinks(t: Tree, n: nat, sub: nat, off: map<nat, nat>)
    requires Numbered(t, n) && AllZeroIn(off, n, n + Nodes(t))
    ensures Linked(t, sub, Assign(t, sub, off), false)
    decreases t, 1
  {
    hide ListSize, Below;
    if t.Entry? {
      var mid, next := AssignEntry(t, sub, off), n + 1 + Nodes(t.child);
      EntryLinks(t, n, sub, off);
      AssignLinks(t.next, next, sub + Below(t), mid);
      AssignFrame(t.next, next, sub + Below(t), mid);
      LinkedEntryFrame(t, n, sub, mid, Assign(t, sub, off), next, next + Nodes(t.next));
    }
  }

  lemma {:induction false} EntryLinks(t: Tree, n: nat, sub: nat, off: map<nat, nat>)
    requires t.Entry? && Numbered(t, n) && AllZeroIn(off, n, n + Nodes(t))
    ensures LinkedEntry(t, sub, AssignEntry(t, sub, off))
    ensures AllZeroIn(AssignEntry(t, sub, off), n + 1 + Nodes(t.child), n + Nodes(t))
    decreases t, 0
  {
    hide ListSize, Below;
    if t.child.Entry? {
      AssignFrame(t.child, n + 1, sub + ListSize(t.child), off[t.id := sub]);
      AssignLinks(t.child, n + 1, sub + ListSize(t.child), off[t.id := sub]);
    }
  }

  // ---------- Files ----------

  /** What is asked of zlib: output is never empty, and inflate() undoes compress(). */
  ghost predicate Zlib(p: Packing, inflate: Bytes -> Option<Bytes>) {
    forall x :: 0 < |x| <= p.blk ==> |p.deflate(x)| > 0 && inflate(p.deflate(x)) == Some(x)
  }

  ghost predicate Suits(m: Medium, p: Packing) {
    m.blk == p.blk > 0 && Zlib(p, m.inflate)
  }

  lemma HeldSlice(img: Bytes, at: nat, b: Bytes)
    requires HoldsAt(img, at, b)
    ensures img[at..at + |b|] == b
  {
  }

  /** One block comes back, hole or not. */
  lemma BlockReads(m: Medium, p: Packing, c: Bytes, curr: nat, next: nat)
    requires Suits(m, p) && |c| > 0 && HoldsAt(m.img, curr, Piece(p, c)) && |Piece(p, c)| <= 2 * p.blk
    requires next == curr + |Piece(p, c)|
    ensures BlockRead(m, curr, next, Min(p.blk, |c|)) == Done(Head(p, c))
  {
    var head := Head(p, c);
    if p.holes && AllZero(head) {
      assert Zeros(Min(p.blk, |c|)) == head;
    } else {
      HeldSlice(m.img, curr, Piece(p, c));
      assert m.img[curr..next] == p.deflate(head);
      assert m.inflate(p.deflate(head)) == Some(head);
    }
  }

  lemma BlocksStep(m: Medium, ptr: nat, curr: nat, size: nat, endData: nat, block: Bytes, next: nat)
    requires m.blk > 0 && size > 0 && ptr + 4 <= |m.img| && U32At(m, ptr) == next
    requires BlockRead(m, curr, next, Min(m.blk, size)) == Done(block) && |block| == Min(m.blk, size)
    ensures ReadBlocks(m, ptr, curr, size, endData)
      == if size == |block| then Done((block, Max(endData, next)))
         else Before(block, ReadBlocks(m, ptr + 4, next, size - |block|, Max(endData, next)))
  {
  }

  /** The file `c` was read, with all pointers up to `end`. */
  ghost predicate ReadsAs(r: Outcome<(Bytes, nat)>, c: Bytes, endData: nat, end: nat) {
    r.Done? && r.value.0 == c && r.value.1 == Max(endData, end)
  }

  /** A whole file comes back. */
  lemma {:induction false} FileReads(m: Medium, p: Packing, c: Bytes, ptr: nat, curr: nat, n: nat, endData: nat)
    requires Suits(m, p) && |c| > 0 && n == Blocks(|c|, p.blk) && PackedAt(m.img, m.big, p, c, ptr, curr, n)
    ensures ReadsAs(ReadBlocks(m, ptr, curr, |c|, endData), c, endData, After(p, c, curr, n))
    decreases |c|
  {
    if |Tail(p, c)| == 0 {
      assert n == 1 + Blocks(0, p.blk);
      LastBlock(m, p, c, ptr, curr, n, endData);
    } else {
      var next := curr + |Piece(p, c)|;
      FileReads(m, p, Tail(p, c), ptr + 4, next, n - 1, Max(endData, next));
      FirstBlockReads(m, p, c, ptr, curr, n, endData);
      MoreBlocks(p, c, curr, n, endData, ReadBlocks(m, ptr, curr, |c|, endData),
                 ReadBlocks(m, ptr + 4, next, |Tail(p, c)|, Max(endData, next)));
    }
  }

  lemma LastBlock(m: Medium, p: Packing, c: Bytes, ptr: nat, curr: nat, n: nat, endData: nat)
    requires Suits(m, p) && |c| > 0 && n == 1 && PackedAt(m.img, m.big, p, c, ptr, curr, n) && |Tail(p, c)| == 0
    ensures ReadsAs(ReadBlocks(m, ptr, curr, |c|, endData), c, endData, After(p, c, curr, n))
  {
    FirstBlockReads(m, p, c, ptr, curr, n, endData);
    AfterGrows(p, Tail(p, c), curr + |Piece(p, c)|, n - 1);
    assert c == Head(p, c);
  }

  lemma MoreBlocks(p: Packing, c: Bytes, curr: nat, n: nat, endData: nat, r: Outcome<(Bytes, nat)>,
                   more: Outcome<(Bytes, nat)>)
    requires n > 0 && r == Before(Head(p, c), more)
    requires var rest, next := Tail(p, c), curr + |Piece(p, c)|;
      ReadsAs(more, rest, Max(endData, next), After(p, rest, next, n - 1))
    ensures ReadsAs(r, c, endData, After(p, c, curr, n))
  {
    AfterGrows(p, Tail(p, c), curr + |Piece(p, c)|, n - 1);
    assert c == Head(p, c) + Tail(p, c);
  }

  lemma FirstBlockReads(m: Medium, p: Packing, c: Bytes, ptr: nat, curr: nat, n: nat, endData: nat)
    requires Suits(m, p) && |c| > 0 && n > 0 && PackedAt(m.img, m.big, p, c, ptr, curr, n)
    ensures var head, rest, next := Head(p, c), Tail(p, c), curr + |Piece(p, c)|;
      ReadBlocks(m, ptr, curr, |c|, endData)
      == if rest == [] then Done((head, Max(endData, next)))
         else Before(head, ReadBlocks(m, ptr + 4, next, |rest|, Max(endData, next)))
  {
    BlockReads(m, p, c, curr, curr + |Piece(p, c)|);
    BlocksStep(m, ptr, curr, |c|, endData, Head(p, c), curr + |Piece(p, c)|);
  }

  // ---------- Places ----------

  lemma {:induction false} SiblingsFill(run: seq<Tree>, base: nat, i: nat, t: Tree)
    requires Entries(run) && i <= |run| && SiblingsAt(run, i, t)
    ensures i + Length(t) <= |run| && Addr(run, base, i + Length(t)) == Addr(run, base, i) + ListSize(t)
    decreases t
  {
    if t.Entry? {
      SiblingsFill(run, base, i + 1, t.next);
    }
  }

  /** The contents of the directories in a list fill the bytes that its sizes say. */
  lemma {:induction false} SubsFill(run: seq<Tree>, base: nat, j: nat, t: Tree)
    requires Entries(run) && j <= |run| && SubsAt(run, j, t)
    ensures j + SubCount(t) <= |run| && Addr(run, base, j + SubCount(t)) == Addr(run, base, j) + SubSize(t)
    decreases t, 1
  {
    if t.Entry? {
      BelowFill(run, base, j, t);
      SubsFill(run, base, j + CountBelow(t), t.next);
    }
  }

  lemma {:induction false} BelowFill(run: seq<Tree>, base: nat, j: nat, t: Tree)
    requires Entries(run) && j <= |run| && t.Entry? && BelowAt(run, j, t)
    ensures j + CountBelow(t) <= |run| && Addr(run, base, j + CountBelow(t)) == Addr(run, base, j) + Below(t)
    decreases t, 0
  {
    if t.child.Entry? {
      SiblingsFill(run, base, j, t.child);
      SubsFill(run, base, j + Length(t.child), t.child);
    }
  }

  lemma {:induction false} AddrAligned(run: seq<Tree>, base: nat, k: nat)
    requires Entries(run) && k <= |run| && base % 4 == 0
    ensures Addr(run, base, k) % 4 == 0
  {
    if k > 0 {
      AddrAligned(run, base, k - 1);
    }
  }

  /** The list `t` is laid out in the run, its entries from number `i` and the contents
      of its directories from number `j` on, and all offsets say so. */
  ghost predicate Laid(s: W.State, t: Tree, i: nat, j: nat)
    requires Entries(s.run)
  {
    && i <= |s.run| && j <= |s.run| && SiblingsAt(s.run, i, t) && SubsAt(s.run, j, t)
    && Linked(t, Addr(s.run, s.base, j), s.off, true)
  }

  lemma LaidNext(s: W.State, t: Tree, i: nat, j: nat)
    requires Entries(s.run) && t.Entry? && Laid(s, t, i, j)
    ensures i < |s.run| && s.run[i] == t && Addr(s.run, s.base, i + 1) == Addr(s.run, s.base, i) + EntrySize(t)
    ensures Addr(s.run, s.base, i) < Addr(s.run, s.base, i + 1) && ListSize(t) > 0
    ensures Laid(s, t.next, i + 1, j + CountBelow(t))
    ensures Addr(s.run, s.base, j + CountBelow(t)) == Addr(s.run, s.base, j) + Below(t)
  {
    BelowFill(s.run, s.base, j, t);
  }

  lemma LaidChild(s: W.State, t: Tree, i: nat, j: nat)
    requires Entries(s.run) && t.Entry? && t.child.Entry? && Laid(s, t, i, j)
    ensures Laid(s, t.child, j, j + Length(t.child)) && t.id in s.off && s.off[t.id] == Addr(s.run, s.base, j)
  {
    assert BelowAt(s.run, j, t);
    SiblingsFill(s.run, s.base, j, t.child);
  }

  // ---------- One entry ----------

  lemma {:induction false} StrlenPadded(name: Bytes, pad: Bytes)
    requires 0 !in name && forall k :: 0 <= k < |pad| ==> pad[k] == 0
    ensures Strlen(name + pad) == |name|
  {
    if name != [] {
      assert (name + pad)[1..] == name[1..] + pad;
      StrlenPadded(name[1..], pad);
    } else if pad != [] {
      assert (name + pad)[0] == 0;
    }
  }

  /** A padded name passes all tests exactly when it is not longer than 252 bytes. */
  lemma NameReads(name: Bytes)
    requires ProperName(name) && |name| <= 252
    ensures GoodName(PaddedName(name)) && PaddedName(name)[..Strlen(PaddedName(name))] == name
  {
    StrlenPadded(name, Zeros(Pad4(|name|) - |name|));
  }

  lemma InodeReads(m: Medium, at: nat, inode: Inode)
    requires HoldsAt(m.img, at, Encode(m.big, inode))
    ensures at + INODE_SIZE <= |m.img| && Decode(m.big, m.img[at..at + INODE_SIZE]) == inode
  {
    HeldSlice(m.img, at, Encode(m.big, inode));
    InodeRoundTrip(m.big, inode);
  }

  lemma ListStep(m: Medium, at: nat, inode: Inode, name: Bytes, count: int, depth: nat, b: Bounds)
    requires m.blk > 0 && count > 0 && |name| == 4 * inode.namelen
    requires at + INODE_SIZE + |name| <= |m.img| && Decode(m.big, m.img[at..at + INODE_SIZE]) == inode
    requires HoldsAt(m.img, at + INODE_SIZE, name)
    ensures var size := INODE_SIZE + |name|;
      ReadList(m, at, count, depth, b) == ReadEntry(m, inode, name, at + size, count - size, depth, b)
  {
    hide Decode, ReadEntry, HoldsAt;
    HeldSlice(m.img, at + INODE_SIZE, name);
  }

  /** The length field of a name: too small for names of more than 252 bytes. */
  lemma NameField(e: Tree, offset: nat)
    requires e.Entry? && ProperName(e.name)
    ensures 4 * InodeOf(e, offset).namelen == if |e.name| > 252 then 0 else |PaddedName(e.name)|
  {
  }

  /** The image holds entry `e` at `at`. */
  lemma EntryReads(m: Medium, at: nat, e: Tree, offset: nat, count: int, depth: nat, b: Bounds)
    requires m.blk > 0 && e.Entry? && EntryAt(m.img, m.big, at, e, offset) && ProperName(e.name) && count > 0
    ensures ReadList(m, at, count, depth, b)
      == if |e.name| > 252 then Fail
         else ReadEntry(m, InodeOf(e, offset), PaddedName(e.name), at + EntrySize(e), count - EntrySize(e), depth, b)
  {
    hide Decode, Join, U32Of, Encode, InodeOf;
    InodeReads(m, at, InodeOf(e, offset));
    NameField(e, offset);
    ListStep(m, at, InodeOf(e, offset), if |e.name| > 252 then [] else PaddedName(e.name), count, depth, b);
  }

  // ---------- What the reader learns about the layout ----------

  /** Where the last entry below a list ends. */
  ghost function EndDir(t: Tree, at: nat, sub: nat): nat
    decreases t, 1, at
  {
    if t.Null? then 0
    else Max(at + EntrySize(t), Max(EndBelow(t, sub), EndDir(t.next, at + EntrySize(t), sub + Below(t))))
  }

  ghost function EndBelow(e: Tree, sub: nat): nat
    requires e.Entry?
    decreases e, 0, sub
  {
    if e.child.Null? then 0 else EndDir(e.child, sub, sub + ListSize(e.child))
  }

  /** Where the first file begins. */
  ghost function FirstData(t: Tree, off: map<nat, nat>): nat
    decreases t, 1, |off|
  {
    if t.Null? then UNSET else Min(FirstBelow(t, off), FirstData(t.next, off))
  }

  ghost function FirstBelow(e: Tree, off: map<nat, nat>): nat
    requires e.Entry?
    decreases e, 0, |off|
  {
    if e.file.Some? && e.size > 0 && e.id in off then off[e.id] else FirstData(e.child, off)
  }

  /** Where the data of a file ends that is stored at `o`. */
  ghost function FileEnd(p: Packing, c: Bytes, o: nat): nat
    requires p.blk > 0
  {
    var n := Blocks(|c|, p.blk);
    After(p, c, o + 4 * n, n)
  }

  /** Where the last file data ends. */
  ghost function LastData(t: Tree, off: map<nat, nat>, p: Packing): nat
    requires p.blk > 0
    decreases t, 1, |off|
  {
    if t.Null? then 0 else Max(LastBelow(t, off, p), LastData(t.next, off, p))
  }

  ghost function LastBelow(e: Tree, off: map<nat, nat>, p: Packing): nat
    requires e.Entry? && p.blk > 0
    decreases e, 0, |off|
  {
    if e.file.Some? && e.size > 0 && e.id in off then FileEnd(p, e.file.value, off[e.id])
    else LastData(e.child, off, p)
  }

  /** After reading entries of which the last ends at `end`, with the first file at
      `first` and the end of the last file data at `last`. */
  ghost predicate Moved(b: Bounds, b': Bounds, end: nat, first: nat, last: nat) {
    && b'.startDir == b.startDir
    && b'.endDir == Max(b.endDir, end)
    && b'.startData == Min(b.startData, first)
    && b'.endData == Max(b.endData, last)
  }

  lemma MovedTwice(a: Bounds, b: Bounds, c: Bounds, e1: nat, f1: nat, l1: nat, e2: nat, f2: nat, l2: nat, next: nat)
    requires Moved(a, b, e1, f1, l1) && Moved(b.(endDir := Max(b.endDir, next)), c, e2, f2, l2)
    ensures Moved(a, c, Max(next, Max(e1, e2)), Min(f1, f2), Max(l1, l2))
  {
  }

  // ---------- Expanding one entry ----------

  /** An image with everything in it. */
  ghost predicate Whole(s: W.State, m: Medium, dir: map<nat, nat>) {
    && m.img == s.image && m.big == s.big && Suits(m, s.packing)
    && Entries(s.run) && RunAt(s.image, s.big, s.base, s.run, |s.run|, s.off, dir)
    && 0 < s.base && s.base % 4 == 0
  }

  /** The files of a tree are stored before `limit`. */
  ghost predicate FilesIn(s: W.State, t: Tree, limit: nat)
    requires s.packing.blk > 0 && Entries(s.run)
  {
    t.Entry? ==>
      && (t.file.Some? ==> t.id in s.off && W.FileDone(s, t, limit))
      && FilesIn(s, t.child, limit) && FilesIn(s, t.next, limit)
  }

  lemma OffsetReads(offset: nat)
    requires offset % 4 == 0 && offset < MAX_OFFSET
    ensures 4 * (offset / 4 % 0x400_0000) == offset
  {
  }

  /** A file that is stored at `o`. */
  lemma StoredReads(m: Medium, p: Packing, i: Inode, c: Bytes, o: nat, b: Bounds, limit: nat)
    requires Suits(m, p) && 0 < o == 4 * i.offset && 0 < |c| == i.size && FileAt(m.img, m.big, p, c, o, limit)
    ensures var r := ReadFile(m, i, b); r.Done? && r.value.0 == c && Moved(b, r.value.1, 0, o, FileEnd(p, c, o))
  {
    hide WordAt, HoldsAt, U32At, BlockRead;
    var n := Blocks(|c|, p.blk);
    BlocksIs(|c|, p.blk);
    FileReads(m, p, c, o, o + 4 * n, n, b.endData);
  }

  /** The inode of an entry gives its fields back. */
  lemma InodeFields(e: Tree, o: nat, blk: nat)
    requires e.Entry? && ProperEntry(e, blk) && o % 4 == 0 && o < MAX_OFFSET
    ensures var i := InodeOf(e, o); 4 * i.offset == o && i.mode == e.mode && (!IsDevice(e.mode) ==> i.size == e.size)
  {
    OffsetReads(o);
  }

  /** A regular file. */
  lemma RegularReads(s: W.State, m: Medium, e: Tree, i: Inode, b: Bounds, limit: nat)
    requires m.img == s.image && m.big == s.big && Suits(m, s.packing) && Entries(s.run) && 0 < s.base
    requires b.startData <= UNSET
    requires e.Entry? && e.id in s.off && e.file.Some? && |e.file.value| == e.size && W.FileDone(s, e, limit)
    requires i.size == e.size && 4 * i.offset == s.off[e.id]
    ensures var r := ReadFile(m, i, b);
      r.Done? && r.value.0 == e.file.value &&
      Moved(b, r.value.1, 0, if e.size > 0 then s.off[e.id] else UNSET,
            if e.size > 0 then FileEnd(s.packing, e.file.value, s.off[e.id]) else 0)
  {
    hide PackedAt, After, Blocks, ReadBlocks;
    AddrFromBase(s.run, s.base, |s.run|);
    if e.size > 0 {
      StoredReads(m, s.packing, i, e.file.value, s.off[e.id], b, limit);
    }
  }

  /** A link target: a single block that is no hole. */
  lemma LinkReads(s: W.State, m: Medium, e: Tree, i: Inode, b: Bounds, limit: nat)
    requires m.img == s.image && m.big == s.big && Suits(m, s.packing) && Entries(s.run) && 0 < s.base
    requires e.Entry? && e.id in s.off && e.file.Some? && 0 < |e.file.value| == e.size <= m.blk && e.file.value[0] != 0
    requires W.FileDone(s, e, limit) && i.size == e.size && 4 * i.offset == s.off[e.id]
    ensures var r := ReadLink(m, i, b);
      r.Done? && r.value.0 == e.file.value
      && Moved(b, r.value.1, 0, s.off[e.id], FileEnd(s.packing, e.file.value, s.off[e.id]))
  {
    hide FileAt, U32At, Inflated;
    AddrFromBase(s.run, s.base, |s.run|);
    LinkBlock(m, s.packing, e.file.value, s.off[e.id], limit);
  }

  lemma LinkBlock(m: Medium, p: Packing, c: Bytes, o: nat, limit: nat)
    requires Suits(m, p) && 0 < |c| <= p.blk && c[0] != 0 && FileAt(m.img, m.big, p, c, o, limit)
    ensures o + 4 <= |m.img| && U32At(m, o) == FileEnd(p, c, o) && Inflated(m, o + 4, U32At(m, o)) == Done(c)
  {
    assert Head(p, c) == c && Tail(p, c) == [];
    assert Blocks(|c|, p.blk) == 1 + Blocks(0, p.blk) == 1;
    assert BlockAt(m.img, m.big, p, c, o, o + 4);
    BlockReads(m, p, c, o + 4, o + 4 + |Piece(p, c)|);
    assert !AllZero(c);
  }

  /** How expanding an entry must end. */
  ghost predicate Expands(r: Outcome<(Option<Bytes>, Node, Bounds)>, e: Tree, b: Bounds, end: nat, first: nat,
                          last: nat)
    requires e.Entry?
  {
    if NamesFit(e.child)
    then r.Done? && r.value.0 == e.file && r.value.1 == Recovered(e.child) && Moved(b, r.value.2, end, first, last)
    else r.Fail?
  }

  /** How reading a list must end. */
  ghost predicate Lists(r: Outcome<(Node, Bounds)>, t: Tree, b: Bounds, end: nat, first: nat, last: nat) {
    if NamesFit(t) then r.Done? && r.value.0 == Recovered(t) && Moved(b, r.value.1, end, first, last) else r.Fail?
  }

  /** Anything but a directory. */
  lemma LeafExpands(s: W.State, m: Medium, e: Tree, i: Inode, depth: nat, b: Bounds, limit: nat)
    requires m.img == s.image && m.big == s.big && Suits(m, s.packing) && Entries(s.run) && 0 < s.base
    requires b.startData <= UNSET
    requires e.Entry? && ProperEntry(e, m.blk) && !IsDir(e.mode) && e.id in s.off
    requires if e.file.Some? then W.FileDone(s, e, limit) else s.off[e.id] == 0
    requires 4 * i.offset == s.off[e.id] && i.mode == e.mode && (!IsDevice(e.mode) ==> i.size == e.size)
    ensures Expands(Expand(m, i, depth, b), e, b, 0, FirstBelow(e, s.off), LastBelow(e, s.off, s.packing))
  {
    hide ReadFile, ReadLink;
    if IsReg(e.mode) {
      RegularReads(s, m, e, i, b, limit);
    } else if IsLnk(e.mode) {
      LinkReads(s, m, e, i, b, limit);
    }
  }

  /** A directory whose contents are at `sub`, or which is empty. */
  lemma DirExpands(m: Medium, e: Tree, i: Inode, sub: nat, depth: nat, b: Bounds, end: nat, first: nat, last: nat)
    requires m.blk > 0 && e.Entry? && IsDir(e.mode) && e.file.None? && i.mode == e.mode && i.size == ListSize(e.child)
    requires depth > 0
    requires 4 * i.offset == if e.child.Entry? then sub else 0
    requires e.child.Entry? ==>
      b.startDir <= sub && 0 < sub && Lists(ReadList(m, sub, i.size, depth - 1, b), e.child, b, end, first, last)
    requires e.child.Null? ==> end == 0 && first == UNSET && last == 0 && b.startData <= UNSET
    ensures Expands(Expand(m, i, depth, b), e, b, end, first, last)
  {
    var r := ReadDir(m, i, depth - 1, b);
    if e.child.Entry? {
      assert r == ReadList(m, sub, i.size, depth - 1, b);
    } else {
      assert r == ReadList(m, 0, 0, depth - 1, b) == Done((End, b));
    }
    assert Expand(m, i, depth, b) == if r.Done? then Done((None, r.value.0, r.value.1)) else Not(r);
  }

  // ---------- The whole tree ----------

  /** Reading a list of entries, with all that is below it, gives the tree back, or
      fails because a name is too long. */
  lemma {:induction false} ListReads(s: W.State, m: Medium, dir: map<nat, nat>, t: Tree, i: nat, j: nat, depth: nat,
                                     b: Bounds, limit: nat)
    requires Whole(s, m, dir) && Laid(s, t, i, j) && Proper(t, m.blk) && FilesIn(s, t, limit)
    requires Depth(t) <= depth && b.startDir == s.base && b.startData <= UNSET
    ensures var at := Addr(s.run, s.base, i);
      Lists(ReadList(m, at, ListSize(t), depth, b), t, b, EndDir(t, at, Addr(s.run, s.base, j)), FirstData(t, s.off),
            LastData(t, s.off, s.packing))
    decreases t, 1
  {
    hide ReadList, ReadEntry, Expand, InodeOf, EntryAt, Lists, Expands, W.FileDone, RunAt, SubsAt, EntrySize,
         PaddedName, IsDir, IsReg, IsLnk, IsDevice, IsPipe, EndDir, FirstData, LastData;
    if t.Null? {
      NothingReads(m, t, Addr(s.run, s.base, i), Addr(s.run, s.base, j), depth, b, s.off, s.packing);
    } else {
      LaidNext(s, t, i, j);
      var at, sub, next := Addr(s.run, s.base, i), Addr(s.run, s.base, j), Addr(s.run, s.base, i + 1);
      AddrFromBase(s.run, s.base, i);
      EntryFound(s, m, dir, t, i, ListSize(t), depth, b);
      if |t.name| <= 252 {
        EntryExpands(s, m, dir, t, i, j, depth, b, limit);
        var inode := InodeOf(t, s.off[t.id]);
        var e := Expand(m, inode, depth, b);
        if e.Done? {
          ExpandedBounds(e, t, b, EndBelow(t, sub), FirstBelow(t, s.off), LastBelow(t, s.off, s.packing));
          ListReads(s, m, dir, t.next, i + 1, j + CountBelow(t), depth, After1(e, next), limit);
        }
        RestReads(m, t, inode, s.off[t.id], at, sub, next, depth, b, s.off, s.packing);
      } else {
        TooLong(t, b, EndDir(t, at, sub), FirstData(t, s.off), LastData(t, s.off, s.packing));
      }
    }
  }

  lemma NothingReads(m: Medium, t: Tree, at: nat, sub: nat, depth: nat, b: Bounds, off: map<nat, nat>,
                     p: Packing)
    requires m.blk > 0 && p.blk > 0 && t.Null? && b.startData <= UNSET
    ensures Lists(ReadList(m, at, ListSize(t), depth, b), t, b, EndDir(t, at, sub),
                  FirstData(t, off), LastData(t, off, p))
  {
  }

  lemma ExpandedBounds(r: Outcome<(Option<Bytes>, Node, Bounds)>, e: Tree, b: Bounds, end: nat, first: nat, last: nat)
    requires e.Entry? && Expands(r, e, b, end, first, last) && r.Done?
    ensures r.value.2.startDir == b.startDir && r.value.2.startData <= b.startData
  {
  }

  lemma TooLong(t: Tree, b: Bounds, end: nat, first: nat, last: nat)
    requires t.Entry? && |t.name| > 252
    ensures Lists(Fail, t, b, end, first, last)
  {
  }

  /** The first entry of a list stands where the list begins. */
  lemma EntryFound(s: W.State, m: Medium, dir: map<nat, nat>, t: Tree, i: nat, count: int, depth: nat, b: Bounds)
    requires Whole(s, m, dir) && t.Entry? && i < |s.run| && s.run[i] == t && ProperName(t.name) && count > 0
    ensures t.id in s.off && s.off[t.id] < MAX_OFFSET
    ensures ReadList(m, Addr(s.run, s.base, i), count, depth, b)
      == if |t.name| > 252 then Fail
         else ReadEntry(m, InodeOf(t, s.off[t.id]), PaddedName(t.name), Addr(s.run, s.base, i) + EntrySize(t),
                        count - EntrySize(t), depth, b)
  {
    hide ReadList, ReadEntry, InodeOf, EntryAt;
    assert Placed(s.image, s.big, s.base, s.run, i, s.off, dir);
    EntryReads(m, Addr(s.run, s.base, i), t, s.off[t.id], count, depth, b);
  }

  /** The fields that are recovered are those of the inode. */
  lemma RecoveredFields(t: Tree, o: nat)
    requires t.Entry?
    ensures var i := InodeOf(t, o);
      Recovered(t) == Node(t.name, i.mode, i.uid, i.gid, i.size, t.file, Recovered(t.child), Recovered(t.next))
  {
  }

  /** The bounds after an entry that ends at `next` was expanded. */
  ghost function After1(e: Outcome<(Option<Bytes>, Node, Bounds)>, next: nat): Bounds
    requires e.Done?
  {
    e.value.2.(endDir := Max(e.value.2.endDir, next))
  }

  /** Reading an entry with a name that fits. */
  lemma EntryUnfolds(m: Medium, t: Tree, i: Inode, next: nat, count: int, depth: nat, b: Bounds)
    requires m.blk > 0 && t.Entry? && ProperName(t.name) && |t.name| <= 252
    ensures var e := Expand(m, i, depth, b);
      var r := ReadEntry(m, i, PaddedName(t.name), next, count, depth, b);
      if !e.Done? then r == Not(e)
      else if next <= e.value.2.startDir then r == Fail
      else
        var rest := ReadList(m, next, count, depth, After1(e, next));
        r == if !rest.Done? then rest
             else Done((Node(t.name, i.mode, i.uid, i.gid, i.size, e.value.0, e.value.1, rest.value.0), rest.value.1))
  {
    hide Expand, ReadList, PaddedName, GoodName, Strlen;
    NameReads(t.name);
  }

  /** An entry with a name that fits, from its expansion and the rest of the list. */
  lemma RestReads(m: Medium, t: Tree, i: Inode, o: nat, at: nat, sub: nat, next: nat, depth: nat, b: Bounds,
                  off: map<nat, nat>, p: Packing)
    requires m.blk > 0 && p.blk > 0 && t.Entry? && ProperName(t.name) && |t.name| <= 252 && next == at + EntrySize(t)
    requires b.startDir <= at < next
    requires i == InodeOf(t, o)
    requires Expands(Expand(m, i, depth, b), t, b, EndBelow(t, sub), FirstBelow(t, off), LastBelow(t, off, p))
    requires var e := Expand(m, i, depth, b); e.Done? ==>
      Lists(ReadList(m, next, ListSize(t.next), depth, After1(e, next)), t.next, After1(e, next),
            EndDir(t.next, next, sub + Below(t)), FirstData(t.next, off), LastData(t.next, off, p))
    ensures Lists(ReadEntry(m, i, PaddedName(t.name), next, ListSize(t.next), depth, b),
                  t, b, EndDir(t, at, sub), FirstData(t, off), LastData(t, off, p))
  {
    hide Expand, ReadList, ReadEntry, PaddedName, InodeOf, EntrySize, ListSize, Below, Recovered;
    var e := Expand(m, i, depth, b);
    EntryUnfolds(m, t, i, next, ListSize(t.next), depth, b);
    RecoveredFields(t, o);
    if e.Done? {
      var r := ReadList(m, next, ListSize(t.next), depth, After1(e, next));
      if r.Done? {
        MovedTwice(b, e.value.2, r.value.1, EndBelow(t, sub), FirstBelow(t, off), LastBelow(t, off, p),
                   EndDir(t.next, next, sub + Below(t)), FirstData(t.next, off), LastData(t.next, off, p), next);
      }
    }
  }

  lemma {:induction false} EntryExpands(s: W.State, m: Medium, dir: map<nat, nat>, t: Tree, i: nat, j: nat, depth: nat,
                                        b: Bounds, limit: nat)
    requires Whole(s, m, dir) && t.Entry? && Laid(s, t, i, j) && Proper(t, m.blk) && FilesIn(s, t, limit)
    requires t.id in s.off && s.off[t.id] < MAX_OFFSET && Depth(t) <= depth && b.startDir == s.base
    requires b.startData <= UNSET
    ensures Expands(Expand(m, InodeOf(t, s.off[t.id]), depth, b), t, b, EndBelow(t, Addr(s.run, s.base, j)),
                    FirstBelow(t, s.off), LastBelow(t, s.off, s.packing))
    decreases t, 0
  {
    hide ReadList, ReadEntry, Expand, InodeOf;
    var sub, o := Addr(s.run, s.base, j), s.off[t.id];
    AddrAligned(s.run, s.base, j);
    AddrFromBase(s.run, s.base, j);
    assert t.child.Entry? ==> o == sub;
    InodeFields(t, o, m.blk);
    if !IsDir(t.mode) {
      LeafExpands(s, m, t, InodeOf(t, o), depth, b, limit);
    } else {
      if t.child.Entry? {
        LaidChild(s, t, i, j);
        SiblingsFill(s.run, s.base, j, t.child);
        ListReads(s, m, dir, t.child, j, j + Length(t.child), depth - 1, b, limit);
      }
      assert FirstBelow(t, s.off) == FirstData(t.child, s.off);
      assert LastBelow(t, s.off, s.packing) == LastData(t.child, s.off, s.packing);
      DirExpands(m, t, InodeOf(t, o), sub, depth, b, EndBelow(t, sub), FirstBelow(t, s.off),
                 LastBelow(t, s.off, s.packing));
    }
  }

  // ---------- Every entry comes out once ----------

  ghost function Occurs(run: seq<Tree>, x: nat): nat
    requires Entries(run)
  {
    if run == [] then 0 else (if run[0].id == x then 1 else 0) + Occurs(run[1..], x)
  }

  lemma {:induction false} OccursConcat(a: seq<Tree>, b: seq<Tree>, x: nat)
    requires Entries(a) && Entries(b)
    ensures Occurs(a + b, x) == Occurs(a, x) + Occurs(b, x)
    decreases |a|
  {
    if a == [] {
      assert a + b == b;
    } else {
      assert (a + b)[1..] == a[1..] + b;
      OccursConcat(a[1..], b, x);
    }
  }

  lemma {:induction false} OrderIsEntries(t: Tree)
    ensures Entries(Siblings(t)) && Entries(Subs(t)) && Entries(Order(t)) && (t.Entry? ==> Entries(Subdir(t)))
  {
    if t.Entry? {
      OrderIsEntries(t.next);
      if t.child.Entry? {
        OrderIsEntries(t.child);
      }
      assert Subs(t) == Subdir(t) + Subs(t.next);
    }
  }

  /** The order has each number of the tree exactly once. */
  lemma {:induction false} OrderOnce(t: Tree, n: nat, x: nat)
    requires Numbered(t, n)
    ensures Entries(Siblings(t)) && Entries(Subs(t))
    ensures Occurs(Siblings(t), x) + Occurs(Subs(t), x) == if n <= x < n + Nodes(t) then 1 else 0
    decreases t
  {
    OrderIsEntries(t);
    if t.Entry? {
      OrderIsEntries(t.next);
      OrderOnce(t.next, n + 1 + Nodes(t.child), x);
      assert Siblings(t)[1..] == Siblings(t.next);
      assert Subs(t) == Subdir(t) + Subs(t.next);
      OccursConcat(Subdir(t), Subs(t.next), x);
      if t.child.Entry? {
        OrderOnce(t.child, n + 1, x);
        OccursConcat(Siblings(t.child), Subs(t.child), x);
      }
    }
  }

  lemma {:induction false} OccursAt(run: seq<Tree>, k: nat)
    requires Entries(run) && k < |run|
    ensures Occurs(run, run[k].id) >= 1
  {
    if k > 0 {
      OccursAt(run[1..], k - 1);
    }
  }

  lemma OrderDistinct(t: Tree, n: nat)
    requires Numbered(t, n)
    ensures Entries(Order(t)) && Distinct(Order(t))
  {
    OrderIsEntries(t);
    var run := Order(t);
    forall i, j | 0 <= i < j < |run|
      ensures Differ(run, i, j)
    {
      OrderOnce(t, n, run[i].id);
      OccursConcat(Siblings(t), Subs(t), run[i].id);
      if run[i].id == run[j].id {
        OccursTwice(run, i, j);
      }
    }
  }

  lemma OccursTwice(run: seq<Tree>, i: nat, j: nat)
    requires Entries(run) && i < j < |run| && run[i].id == run[j].id
    ensures Occurs(run, run[i].id) >= 2
  {
    assert run == run[..j] + run[j..];
    OccursConcat(run[..j], run[j..], run[i].id);
    OccursAt(run[..j], i);
    OccursAt(run[j..], 0);
  }

  // ---------- Where directories end and files begin ----------

  lemma {:induction false} EndDirIs(t: Tree, at: nat, sub: nat)
    requires t.Entry? && at + ListSize(t) <= sub
    ensures EndDir(t, at, sub) == if SubSize(t) > 0 then sub + SubSize(t) else at + ListSize(t)
    decreases t
  {
    hide EntrySize;
    var next := at + EntrySize(t);
    if t.child.Entry? {
      EndDirIs(t.child, sub, sub + ListSize(t.child));
      assert Below(t) == ListSize(t.child) + SubSize(t.child) > 0;
    }
    if t.next.Entry? {
      EndDirIs(t.next, next, sub + Below(t));
    }
    assert SubSize(t) == Below(t) + SubSize(t.next);
  }

  /** All file data ends before the limit. */
  lemma {:induction false} LastDataBefore(s: W.State, t: Tree, limit: nat)
    requires s.packing.blk > 0 && Entries(s.run) && FilesIn(s, t, limit)
    ensures LastData(t, s.off, s.packing) <= limit
    decreases t
  {
    if t.Entry? {
      LastDataBefore(s, t.child, limit);
      LastDataBefore(s, t.next, limit);
    }
  }

  /** Files begin behind `lo`. */
  lemma {:induction false} FirstDataFrom(s: W.State, t: Tree, limit: nat)
    requires s.packing.blk > 0 && Entries(s.run) && FilesIn(s, t, limit) && W.DirEnd(s) <= UNSET
    ensures W.DirEnd(s) <= FirstData(t, s.off)
    decreases t
  {
    if t.Entry? {
      FirstDataFrom(s, t.child, limit);
      FirstDataFrom(s, t.next, limit);
    }
  }

  /** No file begins before the first. */
  lemma {:induction false} FirstDataIsFirst(t: Tree, off: map<nat, nat>, e: Tree, blk: nat)
    requires Proper(t, blk)
    requires e in Siblings(t) || e in Subs(t)
    requires e.Entry? && e.file.Some? && e.size > 0 && e.id in off
    ensures FirstData(t, off) <= off[e.id]
    decreases t
  {
    if t.Entry? && e != t {
      assert Subs(t) == Subdir(t) + Subs(t.next);
      if e in Siblings(t.next) || e in Subs(t.next) {
        FirstDataIsFirst(t.next, off, e, blk);
      } else {
        assert e in Subdir(t) && t.child.Entry? && IsDir(t.mode);
        FirstDataIsFirst(t.child, off, e, blk);
      }
    }
  }

  // ---------- After the data writer ----------

  /** All entries of a laid out list are in the run. */
  lemma {:induction false} AllKnown(t: Tree, run: seq<Tree>, i: nat, j: nat, same: map<nat, nat>, readable: set<nat>,
                                    blk: nat)
    requires Entries(run) && SiblingsAt(run, i, t) && SubsAt(run, j, t) && Proper(t, blk)
    requires forall k :: 0 <= k < |run| ==> W.Twin(run, same, readable, run[k])
    ensures W.Known(t, run, same, readable)
    decreases t
  {
    if t.Entry? {
      assert W.InRun(t, run, |run|);
      assert W.Twin(run, same, readable, run[i]);
      AllKnown(t.next, run, i + 1, j + CountBelow(t), same, readable, blk);
      if t.child.Entry? {
        assert BelowAt(run, j, t);
        AllKnown(t.child, run, j, j + Length(t.child), same, readable, blk);
      }
    }
  }

  /** The files of the tree are stored. */
  lemma {:induction false} FilesAreIn(s: W.State, t: Tree, n: nat, last: nat, limit: nat, off0: map<nat, nat>,
                                      same: map<nat, nat>, readable: set<nat>)
    requires W.Data(s, last, limit, off0) && W.Known(t, s.run, same, readable) && Numbered(t, n) && n + Nodes(t) <= last
    requires !Skips(t, s.readable)
    ensures FilesIn(s, t, limit)
    decreases t
  {
    if t.Entry? {
      var k :| 0 <= k < |s.run| && s.run[k] == t;
      assert W.DoneAt(s, k, last, limit, off0);
      FilesAreIn(s, t.child, n + 1, last, limit, off0, same, readable);
      FilesAreIn(s, t.next, n + 1 + Nodes(t.child), last, limit, off0, same, readable);
    }
  }

  /** The directories of the tree are linked as before. */
  lemma {:induction false} StillLinked(s: W.State, t: Tree, sub: nat, last: nat, limit: nat, off0: map<nat, nat>,
                                       same: map<nat, nat>, readable: set<nat>)
    requires W.Data(s, last, limit, off0) && W.Known(t, s.run, same, readable) && Linked(t, sub, off0, false)
    ensures Linked(t, sub, s.off, true)
    decreases t
  {
    if t.Entry? {
      var k :| 0 <= k < |s.run| && s.run[k] == t;
      assert W.DoneAt(s, k, last, limit, off0);
      if t.child.Entry? {
        StillLinked(s, t.child, sub + ListSize(t.child), last, limit, off0, same, readable);
      }
      StillLinked(s, t.next, sub + Below(t), last, limit, off0, same, readable);
    }
  }

  /** Before files are stored, only directories have an offset. */
  lemma {:induction false} LeafUnlinked(t: Tree, sub: nat, off: map<nat, nat>, e: Tree)
    requires Linked(t, sub, off, false) && e.Entry? && e.child.Null? && (e in Siblings(t) || e in Subs(t))
    ensures e.id in off && off[e.id] == 0
    decreases t
  {
    if t.Entry? && e != t {
      assert Subs(t) == Subdir(t) + Subs(t.next);
      if e in Siblings(t.next) || e in Subs(t.next) {
        LeafUnlinked(t.next, sub + Below(t), off, e);
      } else {
        assert e in Subdir(t) && t.child.Entry? && Subdir(t) == Siblings(t.child) + Subs(t.child);
        LeafUnlinked(t.child, sub + ListSize(t.child), off, e);
      }
    }
  }

  // ---------- The directory area ----------

  /** Start and size of the contents of each non-empty directory below a list. */
  ghost function Extents(t: Tree, off: map<nat, nat>): seq<(nat, nat)> {
    if t.Null? then []
    else
      (if t.child.Entry? && t.id in off then [(off[t.id], ListSize(t.child))] + Extents(t.child, off) else [])
      + Extents(t.next, off)
  }

  /** Non-empty pieces that follow each other from `lo` to `hi`. */
  ghost predicate Tiles(x: seq<(nat, nat)>, lo: nat, hi: nat)
    decreases |x|
  {
    if x == [] then lo == hi else x[0].0 == lo && x[0].1 > 0 && Tiles(x[1..], lo + x[0].1, hi)
  }

  lemma {:induction false} TilesConcat(x: seq<(nat, nat)>, y: seq<(nat, nat)>, lo: nat, mid: nat, hi: nat)
    requires Tiles(x, lo, mid) && Tiles(y, mid, hi)
    ensures Tiles(x + y, lo, hi)
    decreases |x|
  {
    if x == [] {
      assert x + y == y;
    } else {
      assert (x + y)[1..] == x[1..] + y;
      TilesConcat(x[1..], y, lo + x[0].1, mid, hi);
    }
  }

  /** The contents of all directories below a list tile the bytes after `sub`. */
  lemma {:induction false} LinkedTiles(t: Tree, sub: nat, off: map<nat, nat>, stored: bool)
    requires Linked(t, sub, off, stored)
    ensures Tiles(Extents(t, off), sub, sub + SubSize(t))
    decreases t
  {
    if t.Entry? {
      LinkedTiles(t.next, sub + Below(t), off, stored);
      if t.child.Entry? {
        var size := ListSize(t.child);
        LinkedTiles(t.child, sub + size, off, stored);
        var below := [(sub, size)] + Extents(t.child, off);
        assert below[1..] == Extents(t.child, off);
        assert Tiles(below, sub, sub + Below(t));
        TilesConcat(below, Extents(t.next, off), sub, sub + Below(t), sub + SubSize(t));
      } else {
        assert Extents(t, off) == Extents(t.next, off);
      }
    }
  }
}
