/** A whole cramfs image: mkfs.cramfs makes it, and fsck.cramfs --extract gives the
    tree back. */
module CramfsImage {
  import opened Common
  import opened CramfsFormat
  import opened CramfsTree
  import opened CramfsLayout
  import opened CramfsData
  import opened CramfsReading
  import opened CramfsRoundTrip
  import opened CramfsSuper
  import opened Bits
  import opened Division
  import D = CramfsDedup
  import W = CramfsWrite
  import R = CramfsReader

  /** What mkfs.cramfs leaves in the image: the entries of `t`, all files that can be
      read before `limit` and zeros from there on, and the root inode in the super block
      at `start`. */
  ghost predicate Held(s: W.State, dir: map<nat, nat>, t: Tree, root: Inode, start: nat, last: nat, limit: nat,
                       off0: map<nat, nat>) {
    && W.Data(s, last, limit, off0) && RunAt(s.image, s.big, s.base, s.run, |s.run|, s.off, dir)
    && s.run == Order(t) && Laid(s, t, 0, Length(t))
    && start + SUPER_SIZE <= s.base < MAX_OFFSET && s.base % 4 == 0 && W.DirEnd(s) <= UNSET
    && HoldsAt(s.image, start + ROOT_AT, Encode(s.big, root))
    && IsDir(root.mode) && 4 * root.offset == s.base && root.size == ListSize(t)
    && ZeroFrom(s.image, limit)
  }

  ghost predicate ZeroFrom(img: Bytes, n: nat) {
    n <= |img| && forall k :: n <= k < |img| ==> img[k] == 0
  }

  /** No file is missing, and every link target fits into a block. */
  ghost predicate Complete(s: W.State, dir: map<nat, nat>, t: Tree, root: Inode, start: nat, last: nat, limit: nat,
                           off0: map<nat, nat>) {
    Held(s, dir, t, root, start, last, limit, off0) && Proper(t, s.packing.blk) && FilesIn(s, t, limit)
  }

  /** The directory area ends where the sizes say. */
  lemma DirEndIs(s: W.State, t: Tree)
    requires Entries(s.run) && s.run == Order(t) && Laid(s, t, 0, Length(t))
    ensures W.DirEnd(s) == s.base + ListSize(t) + SubSize(t) && Addr(s.run, s.base, Length(t)) == s.base + ListSize(t)
  {
    OrderTakes(t, s.base);
  }

  /** The directories take as much as their entries. */
  lemma OrderTakes(t: Tree, base: nat)
    requires Entries(Order(t))
    ensures Length(t) <= |Order(t)| && Addr(Order(t), base, Length(t)) == base + ListSize(t)
    ensures Addr(Order(t), base, |Order(t)|) == base + ListSize(t) + SubSize(t)
  {
    OrderStands(t);
    SiblingsFill(Order(t), base, 0, t);
    SubsFill(Order(t), base, Length(t), t);
  }

  /** The contents of the root directory and of all non-empty directories below it
      follow each other without gap or overlap and fill the whole directory area. */
  lemma DirectoriesTile(s: W.State, dir: map<nat, nat>, t: Tree, root: Inode, start: nat, last: nat, limit: nat,
                        off0: map<nat, nat>)
    requires Complete(s, dir, t, root, start, last, limit, off0) && t.Entry?
    ensures Tiles([(s.base, ListSize(t))] + Extents(t, s.off), s.base, W.DirEnd(s))
  {
    hide RunAt, FilesIn, Proper, HoldsAt, W.DoneAt, W.Begun, Encode, SiblingsAt, SubsAt, Linked, Extents, Order;
    DirEndIs(s, t);
    LinkedTiles(t, s.base + ListSize(t), s.off, true);
    assert ListSize(t) > 0;
    assert ([(s.base, ListSize(t))] + Extents(t, s.off))[1..] == Extents(t, s.off);
  }

  /** Files begin right after the directories, if there are any. */
  lemma FilesBeginAtEnd(s: W.State, t: Tree, last: nat, limit: nat, off0: map<nat, nat>)
    requires W.Data(s, last, limit, off0) && s.run == Order(t) && Proper(t, s.packing.blk) && FilesIn(s, t, limit)
    requires W.DirEnd(s) <= UNSET
    ensures FirstData(t, s.off) == UNSET || FirstData(t, s.off) == W.DirEnd(s)
  {
    FirstDataFrom(s, t, limit);
    if limit == W.DirEnd(s) {
      NoFiles(s, t, limit);
    } else {
      var k :| 0 <= k < |s.run| && W.First(s, k, last);
      assert s.run[k] in Order(t);
      FirstDataIsFirst(t, s.off, s.run[k], s.packing.blk);
    }
  }

  lemma {:induction false} NoFiles(s: W.State, t: Tree, limit: nat)
    requires s.packing.blk > 0 && Entries(s.run) && FilesIn(s, t, limit) && Proper(t, s.packing.blk)
    requires limit == W.DirEnd(s) <= UNSET
    ensures FirstData(t, s.off) == UNSET
    decreases t
  {
    if t.Entry? {
      NoFiles(s, t.child, limit);
      NoFiles(s, t.next, limit);
    }
  }

  ghost predicate ReadsBack(r: Outcome<Node>, t: Tree) {
    r == if NamesFit(t) then Done(Recovered(t)) else Fail
  }

  /** The first file begins where the directories end, and with version 2 no file data
      lies past the size that the super block tells. */
  ghost predicate LaidOut(first: nat, dirEnd: nat, last: nat, super: Super) {
    (first == UNSET || first == dirEnd) && (super.flags % 2 == 1 ==> last <= super.size)
  }

  /** An image in which a tree is stored, wherever its files are after the directories:
      the extraction gives it back exactly when it is laid out as it must be. */
  lemma LayoutDecides(s: W.State, dir: map<nat, nat>, t: Tree, root: Inode, start: nat, limit: nat, m: Medium,
                      super: Super, depth: nat)
    requires Whole(s, m, dir) && s.run == Order(t) && Laid(s, t, 0, Length(t)) && Proper(t, m.blk)
    requires FilesIn(s, t, limit) && Depth(t) <= depth && NamesFit(t) && W.DirEnd(s) <= UNSET
    requires start + SUPER_SIZE <= s.base < MAX_OFFSET && HoldsAt(s.image, start + ROOT_AT, Encode(s.big, root))
    requires IsDir(root.mode) && 4 * root.offset == s.base && root.size == ListSize(t)
    requires HasFlag(super.flags, FLAG_SHIFTED_ROOT_OFFSET) || s.base == SUPER_SIZE || s.base == PAD_SIZE + SUPER_SIZE
    ensures TestFs(m, super, start, depth)
      == if LaidOut(FirstData(t, s.off), W.DirEnd(s), LastData(t, s.off, s.packing), super) then Done(Recovered(t))
         else Fail
  {
    hide ReadList, Encode, Decode, RunAt, Lists, FilesIn, Laid, EndDir, FirstData, LastData, Proper, Order, ListSize,
         SubSize, HoldsAt, Depth, NamesFit, Recovered, Layout, Zlib, HasFlag, LaidOut;
    InodeReads(m, start + ROOT_AT, root);
    DirEndIs(s, t);
    var b := Bounds(s.base, 0, UNSET, 0);
    ListReads(s, m, dir, t, 0, Length(t), depth, b, limit);
    FirstDataRange(s, t, limit);
    var r := ReadList(m, s.base, ListSize(t), depth, b);
    assert ReadDir(m, root, depth, Bounds(UNSET, 0, UNSET, 0)) == r;
    RootLayout(s, t, r, b, super, start, LastData(t, s.off, s.packing));
  }

  lemma FirstDataRange(s: W.State, t: Tree, limit: nat)
    requires s.packing.blk > 0 && Entries(s.run) && FilesIn(s, t, limit) && W.DirEnd(s) <= UNSET
    ensures FirstData(t, s.off) == UNSET || W.DirEnd(s) <= FirstData(t, s.off) < UNSET
    ensures t.Null? ==> FirstData(t, s.off) == UNSET
  {
    FirstDataFrom(s, t, limit);
    FirstDataUpTo(t, s.off);
  }

  lemma {:induction false} FirstDataUpTo(t: Tree, off: map<nat, nat>)
    ensures FirstData(t, off) <= UNSET
    decreases t
  {
    if t.Entry? {
      FirstDataUpTo(t.child, off);
      FirstDataUpTo(t.next, off);
    }
  }

  /** Extracting a complete image gives the tree back, and all checks of the layout
      pass; it fails exactly when a name was too long for its field. */
  lemma ImageReads(s: W.State, dir: map<nat, nat>, t: Tree, root: Inode, start: nat, last: nat, limit: nat,
                   off0: map<nat, nat>,
                   m: Medium, super: Super, depth: nat)
    requires Complete(s, dir, t, root, start, last, limit, off0)
    requires m.img == s.image && m.big == s.big && Suits(m, s.packing) && Depth(t) <= depth
    requires limit <= super.size
    requires HasFlag(super.flags, FLAG_SHIFTED_ROOT_OFFSET) || s.base == SUPER_SIZE || s.base == PAD_SIZE + SUPER_SIZE
    ensures ReadsBack(TestFs(m, super, start, depth), t)
  {
    hide ReadList, Encode, Decode, RunAt, Lists, FilesIn, Laid, EndDir, FirstData, LastData, W.DoneAt, W.Begun, Proper,
         Order, ListSize, SubSize, HoldsAt, Depth, NamesFit, Recovered, Layout, Zlib, HasFlag;
    InodeReads(m, start + ROOT_AT, root);
    DirEndIs(s, t);
    var b := Bounds(s.base, 0, UNSET, 0);
    ListReads(s, m, dir, t, 0, Length(t), depth, b, limit);
    FirstDataRange(s, t, limit);
    FilesBeginAtEnd(s, t, last, limit, off0);
    LastDataBefore(s, t, limit);
    var r := ReadList(m, s.base, ListSize(t), depth, b);
    assert ReadDir(m, root, depth, Bounds(UNSET, 0, UNSET, 0)) == r;
    RootLayout(s, t, r, b, super, start, LastData(t, s.off, s.packing));
  }

  /** The checks at the end, on the bounds that the walk has found. */
  lemma RootLayout(s: W.State, t: Tree, r: Outcome<(Node, Bounds)>, b: Bounds, super: Super, start: nat, last: nat)
    requires Entries(s.run) && W.DirEnd(s) == s.base + ListSize(t) + SubSize(t) <= UNSET && start + SUPER_SIZE <= s.base
    requires b == Bounds(s.base, 0, UNSET, 0) && (t.Null? ==> FirstData(t, s.off) == UNSET)
    requires Lists(r, t, b, EndDir(t, s.base, s.base + ListSize(t)), FirstData(t, s.off), last)
    requires FirstData(t, s.off) == UNSET || W.DirEnd(s) <= FirstData(t, s.off) < UNSET
    ensures !NamesFit(t) ==> r.Fail?
    ensures NamesFit(t) ==> r.Done?
    ensures NamesFit(t) ==>
      Layout(r.value.0, r.value.1, super, start)
      == if LaidOut(FirstData(t, s.off), W.DirEnd(s), last, super) then Done(Recovered(t)) else Fail
  {
    if t.Entry? {
      EndDirIs(t, s.base, s.base + ListSize(t));
    }
  }

  // ---------- Making an image ----------

  /** Other bytes of the image may change. */
  lemma Transported(s: W.State, img: Bytes, n: nat, at: nat, off0: map<nat, nat>)
    requires W.Data(s, n, at, off0) && SameBytes(s.image, img, W.DirEnd(s), at)
    ensures W.Data(s.(image := img), n, at, off0)
  {
    var u := s.(image := img);
    forall k | 0 <= k < |s.run|
      ensures W.DoneAt(u, k, n, at, off0)
    {
      assert W.DoneAt(s, k, n, at, off0);
      var e := s.run[k];
      if e.file.Some? && e.id < n && e.size > 0 {
        if e.id in s.readable {
          FileKept(s.image, img, s.big, s.packing, e.file.value, s.off[e.id], at);
        } else {
          LostKept(s, u, e, n, at);
        }
      }
    }
    if at != W.DirEnd(s) {
      var k :| 0 <= k < |s.run| && W.First(s, k, n);
      assert W.First(u, k, n);
    }
  }

  lemma LostKept(s: W.State, u: W.State, e: Tree, n: nat, at: nat)
    requires Entries(s.run) && e.Entry? && e.id in s.off && W.Lost(s, e, n, at) && u == s.(image := u.image)
    ensures W.Lost(u, e, n, at)
  {
    if s.off[e.id] != at {
      var k :| 0 <= k < |s.run| && W.Instead(s, e, k, n);
      assert W.Instead(u, e, k, n);
    }
  }

  /** More than any size field holds. */
  const ANY_SIZE: nat := 0x100_0000

  /** The root of the tree: a directory without a name, and all other entries below it. */
  ghost predicate ProperRoot(root: Tree) {
    && root.Entry? && IsDir(root.mode) && root.file.None? && root.next.Null? && Numbered(root, 0)
    && Proper(root.child, ANY_SIZE) && root.size == ListSize(root.child) < ANY_SIZE
  }

  /** The marks of the search for duplicates are what the data writer expects. */
  lemma MarksSuit(root: Tree, same: map<nat, nat>, readable: set<nat>, k: nat)
    requires ProperRoot(root) && forall e :: e in D.Preorder(root) ==> D.MarkedAs(same, readable, root, e)
    requires k < |Order(root.child)|
    ensures Entries(Order(root.child)) && W.Twin(Order(root.child), same, readable, Order(root.child)[k])
  {
    hide Order, D.Preorder, ProperRoot, D.MarkedAs;
    RootParts(root);
    OrderIsEntries(root.child);
    var run, list := Order(root.child), D.Preorder(root);
    var e := run[k];
    BelowRoot(root, e);
    var j :| 0 <= j < |list| && list[j] == e;
    D.MarksAreTwins(same, readable, root, 0, list, j);
    if e.id in same {
      var twin := list[same[e.id]];
      assert D.EarlierTwin(list, readable, j, same[e.id]);
      BelowRoot(root, twin);
      assert twin in run;
    }
  }

  lemma RootParts(root: Tree)
    requires ProperRoot(root)
    ensures root.Entry? && root.file.None? && root.next.Null? && Numbered(root, 0) && Numbered(root.child, 1)
  {
  }

  /** The entries with files are all below the root. */
  lemma BelowRoot(root: Tree, e: Tree)
    requires root.Entry? && root.next.Null? && root.file.None? && e.Entry?
    ensures e in Order(root.child) ==> e in D.Preorder(root)
    ensures e in D.Preorder(root) && e.file.Some? ==> e in Order(root.child)
  {
    D.SameEntries(root.child, e);
    assert D.Preorder(root) == [root] + D.Preorder(root.child) + [];
  }

  /** Rounding up to a whole number of blocks, with bit operations. */
  function RoundUp(n: nat, blk: nat): nat
    requires n > 0 && blk > 0
  {
    Or(n - 1, blk - 1) + 1
  }

  lemma Rounded(n: nat, blk: nat)
    requires n > 0 && blk > 0 && IsPow2(blk)
    ensures n <= RoundUp(n, blk) < n + blk && Rem(RoundUp(n, blk), blk) == 0
  {
    hide Or, Rem, Pow2;
    var k: nat :| blk == Pow2(k);
    OrMask(n - 1, k);
    NextMultiple(n - 1, blk);
  }

  lemma NextMultiple(x: nat, m: nat)
    requires m > 0
    ensures Rem(x, m) <= x && Rem(x, m) < m && Rem(x - Rem(x, m) + m, m) == 0
  {
    var q := x / m;
    Splits(x, m);
    assert x - Rem(x, m) + m == (q + 1) * m;
    Splits((q + 1) * m, m);
    QuotientIs((q + 1) * m, m, q + 1);
  }

  lemma {:induction false} OccursSomewhere(run: seq<Tree>, x: nat)
    requires Entries(run) && Occurs(run, x) > 0
    ensures exists k :: 0 <= k < |run| && run[k].id == x
    decreases |run|
  {
    if run[0].id != x {
      OccursSomewhere(run[1..], x);
      var k :| 0 <= k < |run[1..]| && run[1..][k].id == x;
      assert run[k + 1].id == x;
    }
  }

  /** At first no entry of the tree has an offset. */
  lemma NoOffsetsAtFirst(t: Tree, n: nat)
    requires Numbered(t, n)
    ensures Entries(Order(t)) && AllZeroIn(W.NoOffsets(Order(t)), n, n + Nodes(t))
  {
    OrderIsEntries(t);
    var run := Order(t);
    forall x | n <= x < n + Nodes(t)
      ensures x in W.NoOffsets(run) && W.NoOffsets(run)[x] == 0
    {
      OrderOnce(t, n, x);
      OccursConcat(Siblings(t), Subs(t), x);
      OccursSomewhere(run, x);
    }
  }

  /** With the directories written, the data writer can begin. */
  lemma DirectoriesDone(s: W.State, dir: map<nat, nat>, t: Tree)
    requires s.packing.blk > 0 && s.base % 4 == 0 && Numbered(t, 1) && s.run == Order(t) && Proper(t, ANY_SIZE)
    requires Entries(s.run) && Distinct(s.run) && RunAt(s.image, s.big, s.base, s.run, |s.run|, s.off, dir)
    requires s.off == Assign(t, s.base + ListSize(t), W.NoOffsets(s.run))
    ensures W.Data(s, 1, W.DirEnd(s), s.off) && W.NoFileOffsets(s.run, s.off)
    ensures Linked(t, s.base + ListSize(t), s.off, false)
  {
    hide RunAt, Linked, Assign, Numbered, Proper, ListSize, AllZeroIn, W.DoneAt, W.NoFileOffsets;
    NoOffsetsAtFirst(t, 1);
    AssignLinks(t, 1, s.base + ListSize(t), W.NoOffsets(s.run));
    AddrAligned(s.run, s.base, |s.run|);
    forall k | 0 <= k < |s.run|
      ensures W.DoneAt(s, k, 1, W.DirEnd(s), s.off)
    {
      NotYetStored(s, dir, t, k);
    }
    FilesUnlinked(s, t);
  }

  lemma NotYetStored(s: W.State, dir: map<nat, nat>, t: Tree, k: nat)
    requires s.packing.blk > 0 && Numbered(t, 1) && s.run == Order(t) && Entries(s.run) && k < |s.run|
    requires RunAt(s.image, s.big, s.base, s.run, |s.run|, s.off, dir)
    ensures W.DoneAt(s, k, 1, W.DirEnd(s), s.off)
  {
    hide EntryAt;
    assert Placed(s.image, s.big, s.base, s.run, k, s.off, dir);
    NumbersFrom(t, 1, s.run[k]);
  }

  lemma FilesUnlinked(s: W.State, t: Tree)
    requires s.run == Order(t) && Entries(s.run) && Proper(t, ANY_SIZE) && Linked(t, s.base + ListSize(t), s.off, false)
    ensures W.NoFileOffsets(s.run, s.off)
  {
    hide Linked, Proper, ListSize;
    forall k | 0 <= k < |s.run| && s.run[k].file.Some?
      ensures W.NoContents(s.run, s.off, k)
    {
      ProperMember(t, ANY_SIZE, s.run[k]);
      LeafUnlinked(t, s.base + ListSize(t), s.off, s.run[k]);
    }
  }

  lemma {:induction false} NumbersFrom(t: Tree, n: nat, e: Tree)
    requires Numbered(t, n) && (e in Siblings(t) || e in Subs(t))
    ensures e.Entry? && n <= e.id
    decreases t
  {
    D.SameEntries(t, e);
    D.NumbersOf(t, n);
  }

  lemma {:induction false} ProperMember(t: Tree, longest: nat, e: Tree)
    requires Proper(t, longest) && (e in Siblings(t) || e in Subs(t))
    ensures e.Entry? && ProperEntry(e, longest)
    decreases t
  {
    if e != t {
      assert Subs(t) == Subdir(t) + Subs(t.next);
      if e in Siblings(t.next) || e in Subs(t.next) {
        ProperMember(t.next, longest, e);
      } else {
        assert e in Subdir(t) && t.child.Entry? && Subdir(t) == Siblings(t.child) + Subs(t.child);
        ProperMember(t.child, longest, e);
      }
    }
  }

  /** With all files written, and the root inode put into the super block of `img`,
      everything is in the image. */
  lemma AllDone(s: W.State, dir: map<nat, nat>, t: Tree, off0: map<nat, nat>,
                same: map<nat, nat>, readable: set<nat>, limit: nat, img: Bytes, root: Inode, start: nat)
    requires W.Data(s, 1 + Nodes(t), limit, off0) && s.run == Order(t) && Numbered(t, 1)
    requires RunAt(s.image, s.big, s.base, s.run, |s.run|, s.off, dir)
    requires Linked(t, s.base + ListSize(t), off0, false) && W.Known(t, s.run, same, readable)
    requires start + SUPER_SIZE <= s.base < MAX_OFFSET && s.base % 4 == 0 && limit <= UNSET
    requires SameBytes(s.image, img, s.base, limit) && HoldsAt(img, start + ROOT_AT, Encode(s.big, root))
    requires IsDir(root.mode) && 4 * root.offset == s.base && root.size == ListSize(t) && ZeroFrom(img, limit)
    ensures Held(s.(image := img), dir, t, root, start, 1 + Nodes(t), limit, off0)
    ensures !Skips(t, s.readable) ==> FilesIn(s.(image := img), t, limit)
  {
    hide HoldsAt, Placed, W.DoneAt, Laid, FilesIn, ListSize, Numbered, Order, Nodes, Linked, ZeroFrom, Skips;
    AddrFromBase(s.run, s.base, |s.run|);
    Transported(s, img, 1 + Nodes(t), limit, off0);
    RunKept(s.image, img, s.big, s.base, s.run, |s.run|, s.off, dir);
    TreeDone(s.(image := img), t, off0, same, readable, limit);
  }

  lemma TreeDone(s: W.State, t: Tree, off0: map<nat, nat>, same: map<nat, nat>, readable: set<nat>, limit: nat)
    requires W.Data(s, 1 + Nodes(t), limit, off0) && s.run == Order(t) && Numbered(t, 1)
    requires Linked(t, s.base + ListSize(t), off0, false) && W.Known(t, s.run, same, readable)
    ensures Laid(s, t, 0, Length(t)) && (!Skips(t, s.readable) ==> FilesIn(s, t, limit))
  {
    hide W.DoneAt, W.Begun, Linked, W.Known, Numbered, Skips, FilesIn, ListSize, Nodes;
    if !Skips(t, s.readable) {
      FilesAreIn(s, t, 1, 1 + Nodes(t), limit, off0, same, readable);
    }
    StillLinked(s, t, s.base + ListSize(t), 1 + Nodes(t), limit, off0, same, readable);
    OrderStands(t);
    SiblingsFill(s.run, s.base, 0, t);
  }

  /** The entries are known to the data writer. */
  lemma EntriesKnown(root: Tree, same: map<nat, nat>, readable: set<nat>)
    requires ProperRoot(root) && forall e :: e in D.Preorder(root) ==> D.MarkedAs(same, readable, root, e)
    ensures Entries(Order(root.child)) && W.Known(root.child, Order(root.child), same, readable)
  {
    OrderIsEntries(root.child);
    forall k | 0 <= k < |Order(root.child)|
      ensures W.Twin(Order(root.child), same, readable, Order(root.child)[k])
    {
      MarksSuit(root, same, readable, k);
    }
    OrderStands(root.child);
    AllKnown(root.child, Order(root.child), 0, Length(root.child), same, readable, ANY_SIZE);
  }

  /** Directories and files from `base` on end here, at the latest. */
  ghost function Ahead(p: Packing, t: Tree, base: nat): nat
    requires p.blk > 0
  {
    base + ListSize(t) + SubSize(t) + W.Need(p, t)
  }

  /** There is room for all of them, at offsets that an inode can hold. */
  ghost predicate Fits(p: Packing, t: Tree, base: nat, room: nat)
    requires p.blk > 0
  {
    Ahead(p, t, base) < MAX_OFFSET && Ahead(p, t, base) <= room && W.AllFit(p, t)
  }

  /** The directories and the files, from `base` on. */
  method WriteTree(w: W.Writer, root: Tree, base: nat) returns (ok: bool, end: nat, ghost off0: map<nat, nat>)
    requires ProperRoot(root) && w.packing.blk > 0 && |w.image| < 0x1_0000_0000 && base % 4 == 0
    requires w.totalNodes == 1 && !w.warnSkip
    requires forall e :: e in D.Preorder(root) ==> D.MarkedAs(w.same, w.readable, root, e)
    modifies w
    ensures |w.image| == old(|w.image|) && (ok ==> W.HeadKept(old(w.image), w.image, base))
    ensures root.Entry? && (ok ==> end <= Ahead(w.packing, root.child, base))
    ensures Fits(w.packing, root.child, base, |w.image|) ==> ok
    ensures ok ==> base <= end && W.TailKept(old(w.image), w.image, end)
    ensures ok ==> w.run == Order(root.child) && w.base == base && w.Ready(1 + Nodes(root.child), end, off0)
    ensures ok ==> (w.warnSkip <==> Skips(root.child, w.readable))
    ensures ok ==> Linked(root.child, base + ListSize(root.child), off0, false)
    ensures ok ==> W.Known(root.child, w.run, w.same, w.readable)
  {
    hide Linked, RunAt, ListSize, SubSize, Nodes, D.MarkedAs, W.DoneAt, Assign, W.Begun, Numbered, W.Need, W.AllFit;
    RootParts(root);
    var t := root.child;
    OrderDistinct(t, 1);
    OrderTakes(t, base);
    ok, end := w.WriteDirectoryStructure(t, base);
    off0 := w.off;
    if !ok {
      return;
    }
    DirectoriesDone(w.Snapshot(), w.dirOffset, t);
    EntriesKnown(root, w.same, w.readable);
    AddrFromBase(w.run, w.base, |w.run|);
    ghost var was, dirEnd := w.image, end;
    ok, end := w.WriteData(t, end, 1, off0);
    if ok {
      W.TailTwice(old(w.image), was, w.image, dirEnd, end);
    }
  }

  /** The super block goes to `pad`, and then its checksum; what is written out are the
      first `total` bytes. */
  method PutSuper(w: W.Writer, pad: nat, total: nat, flags: u32, edition: u32, name: Bytes, root: Inode,
                  crc: Bytes -> u32)
    returns (img: Bytes)
    requires pad + SUPER_SIZE <= total <= |w.image| < 0x1_0000_0000
    modifies w`image
    ensures |img| == total && SuperAt(img, w.big, pad, Super(total, flags), w.totalNodes % 0x1_0000_0000, root)
    ensures WordAt(img, w.big, pad + CRC_AT, crc(Cleared(img[pad..])))
    ensures forall k :: 0 <= k < total && !(pad <= k < pad + SUPER_SIZE) ==> img[k] == old(w.image)[k]
  {
    hide Front, Back, U32Of;
    var files, blocks := w.totalNodes % 0x1_0000_0000, w.totalBlocks % 0x1_0000_0000;
    ghost var front := Front(w.big, total, flags);
    ghost var back := Back(w.big, edition, blocks, files, name, root);
    var super := MakeSuper(w.host, w.big, Super(total, flags), edition, blocks, files, name, root);
    var ok := w.Put(pad, super);
    ghost var was := w.image;
    var sum := crc(w.image[pad..total]);
    ok := w.PutPointer(pad + CRC_AT, sum);
    img := w.image[..total];
    SuperIn(was, img, pad, total, front, back, super);
    assert sum == crc(Cleared(img[pad..]));
    FieldsAt(img, w.big, pad, Super(total, flags), edition, blocks, files, name, root);
    WordBefore(w.image, total, w.big, pad + CRC_AT, sum);
  }

  lemma WordBefore(b: Bytes, n: nat, big: bool, at: nat, w: u32)
    requires WordAt(b, big, at, w) && at + 4 <= n <= |b|
    ensures WordAt(b[..n], big, at, w)
  {
    assert b[..n][at..at + 4] == b[at..at + 4];
  }

  /** Only the checksum has changed since the super block was put into `was`. */
  lemma SuperIn(was: Bytes, img: Bytes, pad: nat, total: nat, front: Bytes, back: Bytes, super: Bytes)
    requires |front| == CRC_AT && |back| == SUPER_SIZE - CRC_AT - 4 && super == front + [0, 0, 0, 0] + back
    requires pad + SUPER_SIZE <= total == |img| <= |was| && HoldsAt(was, pad, super)
    requires forall k :: 0 <= k < total && !(pad + CRC_AT <= k < pad + CRC_AT + 4) ==> img[k] == was[k]
    ensures HoldsAt(img, pad, front) && HoldsAt(img, pad + CRC_AT + 4, back) && Cleared(img[pad..]) == was[pad..total]
  {
    PartAt(was, pad, super, front, 0);
    PartAt(was, pad, super, back, CRC_AT + 4);
    assert forall k :: CRC_AT <= k < CRC_AT + 4 ==> was[pad + k] == super[k] == 0;
    ClearedIs(img[pad..], was[pad..total]);
  }

  /** What mkfs.cramfs is asked for: byte order of the image, packing, space for boot
      code, a file that is inserted as it is, edition and name; `room` is what it
      allocates for the image. */
  datatype Job = Job(big: bool, packing: Packing, pad: nat, extra: Bytes, edition: u32, name: Bytes, room: nat)

  /** There is room for everything, with a block to spare. */
  ghost predicate Enough(t: Tree, job: Job)
    requires job.packing.blk > 0
  {
    && job.packing.blk <= job.room
    && Fits(job.packing, t, job.pad + SUPER_SIZE + Pad4(|job.extra|), job.room - job.packing.blk)
  }

  ghost predicate ProperJob(job: Job) {
    && job.packing.blk > 0 && IsPow2(job.packing.blk) && (job.pad == 0 || job.pad == PAD_SIZE)
    && job.room < 0x1_0000_0000 && job.pad + SUPER_SIZE + Pad4(|job.extra|) < MAX_OFFSET
  }

  function FlagsOf(job: Job): u32 {
    Flags(job.packing.holes, |job.extra| > 0)
  }

  /** The super block of a finished image. */
  ghost predicate Labelled(img: Bytes, job: Job, files: u32, root: Inode, crc: Bytes -> u32) {
    && |img| < 0x1_0000_0000 && files > 0
    && SuperAt(img, job.big, job.pad, Super(|img|, FlagsOf(job)), files, root)
    && WordAt(img, job.big, job.pad + CRC_AT, crc(Cleared(img[job.pad..])))
    && (job.pad == PAD_SIZE ==> forall k :: 0 <= k < 4 ==> img[k] == 0)
  }

  lemma ItIsLabelled(img: Bytes, job: Job, total: nat, files: u32, root: Inode, crc: Bytes -> u32)
    requires |img| == total < 0x1_0000_0000 && files > 0
    requires SuperAt(img, job.big, job.pad, Super(total, FlagsOf(job)), files, root)
    requires WordAt(img, job.big, job.pad + CRC_AT, crc(Cleared(img[job.pad..])))
    requires job.pad == PAD_SIZE ==> forall k :: 0 <= k < 4 ==> img[k] == 0
    ensures Labelled(img, job, files, root, crc)
  {
  }

  /** mkfs.cramfs after the tree has been read in; `skipped` tells whether a file could
      not be read. */
  method BuildImage(root: Tree, job: Job, host: bool, readable: set<nat>, md5: Bytes -> Bytes, crc: Bytes -> u32)
    returns (r: Option<Bytes>, skipped: bool, ghost files: u32, ghost s: W.State, ghost dir: map<nat, nat>,
             ghost inode: Inode, ghost end: nat, ghost off0: map<nat, nat>)
    requires ProperJob(job) && ProperRoot(root)
    ensures root.Entry? && (Enough(root.child, job) ==> r.Some?)
    ensures r.Some? ==> (skipped <==> Skips(root.child, readable)) && Labelled(r.value, job, files, inode, crc)
    ensures r.Some? ==> Held(s, dir, root.child, inode, job.pad, 1 + Nodes(root.child), end, off0)
    ensures r.Some? && !skipped && LinksFit(root.child, job.packing.blk) ==>
      Complete(s, dir, root.child, inode, job.pad, 1 + Nodes(root.child), end, off0)
    ensures r.Some? ==> s.image == r.value && s.big == job.big && s.packing == job.packing && s.readable == readable
    ensures r.Some? ==> end <= |r.value| && s.base == job.pad + SUPER_SIZE + Pad4(|job.extra|)
  {
    hide Complete, Held, Linked, RunAt, ListSize, Order, Nodes, D.MarkedAs, W.Data, W.Known, ProperRoot, Skips,
         Labelled, Or, IsPow2;
    RootParts(root);
    r, skipped, files, off0 := None, false, 0, map[];
    s, dir, inode, end := W.State(job.big, job.packing, 0, [], [], map[], map[], {}), map[], Inode(0, 0, 0, 0, 0, 0), 0;
    var same := D.EliminateDoubles(root, root, map[], readable, md5, 0);
    var w := new W.Writer(job.big, host, job.packing, same, readable, job.room);
    var ok, len := w.WriteName(job.extra, job.pad + SUPER_SIZE);
    if !ok {
      return;
    }
    var base, last := job.pad + SUPER_SIZE + len, 0;
    ok, last, off0 := WriteTree(w, root, base);
    if !ok {
      return;
    }
    Rounded(last, job.packing.blk);
    var img, node;
    ok, img, node, files := Finish(w, root, job, base, last, crc, off0);
    skipped := w.warnSkip;
    if ok {
      r, s, dir, inode, end := Some(img), w.Snapshot().(image := img), w.dirOffset, node, last;
    }
  }

  /** Super block and root inode; what is written out is a whole number of blocks. */
  method Finish(w: W.Writer, root: Tree, job: Job, base: nat, end: nat, crc: Bytes -> u32, ghost off0: map<nat, nat>)
    returns (ok: bool, img: Bytes, inode: Inode, ghost files: u32)
    requires ProperJob(job) && ProperRoot(root) && w.packing == job.packing && w.big == job.big
    requires |w.image| < 0x1_0000_0000 && job.pad + SUPER_SIZE <= base == w.base < MAX_OFFSET && base % 4 == 0
    requires job.pad == PAD_SIZE ==> forall k :: 0 <= k < 4 && k < |w.image| ==> w.image[k] == 0
    requires w.run == Order(root.child) && w.Ready(1 + Nodes(root.child), end, off0)
    requires Linked(root.child, base + ListSize(root.child), off0, false)
    requires W.Known(root.child, w.run, w.same, w.readable) && (w.warnSkip <==> Skips(root.child, w.readable))
    requires base <= end && forall k :: end <= k < |w.image| ==> w.image[k] == 0
    modifies w`image
    ensures ok <==> RoundUp(end, job.packing.blk) <= old(|w.image|)
    ensures ok ==> Labelled(img, job, files, inode, crc) && end <= |img|
    ensures ok ==> var s := w.Snapshot().(image := img);
      Held(s, w.dirOffset, root.child, inode, job.pad, 1 + Nodes(root.child), end, off0)
      && (!w.warnSkip && LinksFit(root.child, job.packing.blk) ==>
            Complete(s, w.dirOffset, root.child, inode, job.pad, 1 + Nodes(root.child), end, off0))
  {
    hide HoldsAt, RunAt, W.Data, W.Known, Linked, ListSize, Order, Nodes, Held, Complete, Proper, WordAt, SuperAt, Or,
         IsPow2, Cleared, FlagsOf, Pad4, IsDir, RoundUp, Skips, Labelled, LinksFit;
    ghost var s := w.Snapshot();
    AddrFromBase(w.run, w.base, |w.run|);
    Rounded(end, w.packing.blk);
    var total := RoundUp(end, w.packing.blk);
    ok, img, inode, files := total <= |w.image|, [], Inode(0, 0, 0, 0, 0, 0), 0;
    if ok {
      RunFits(w.image, w.big, w.base, w.run, w.off, w.dirOffset);
      files := w.totalNodes % 0x1_0000_0000;
      inode := RootInode(root, base);
      img := PutSuper(w, job.pad, total, FlagsOf(job), job.edition, job.name, inode, crc);
      ItIsLabelled(img, job, total, files, inode, crc);
      AllThere(s, w.dirOffset, root, job, off0, w.same, end, img, inode, Super(total, FlagsOf(job)), files);
    }
  }

  /** The finished image holds everything. */
  lemma AllThere(s: W.State, dir: map<nat, nat>, root: Tree, job: Job, off0: map<nat, nat>, same: map<nat, nat>,
                 limit: nat, img: Bytes, inode: Inode, super: Super, files: u32)
    requires ProperRoot(root) && s.packing == job.packing && W.Data(s, 1 + Nodes(root.child), limit, off0)
    requires s.run == Order(root.child) && RunAt(s.image, s.big, s.base, s.run, |s.run|, s.off, dir)
    requires Linked(root.child, s.base + ListSize(root.child), off0, false)
    requires W.Known(root.child, s.run, same, s.readable)
    requires job.pad + SUPER_SIZE <= s.base < MAX_OFFSET && s.base % 4 == 0 && limit <= UNSET
    requires SameBytes(s.image, img, s.base, limit) && ZeroFrom(img, limit)
    requires SuperAt(img, s.big, job.pad, super, files, inode)
    requires IsDir(inode.mode) && 4 * inode.offset == s.base && inode.size == ListSize(root.child)
    ensures Held(s.(image := img), dir, root.child, inode, job.pad, 1 + Nodes(root.child), limit, off0)
    ensures !Skips(root.child, s.readable) && LinksFit(root.child, job.packing.blk) ==>
      Complete(s.(image := img), dir, root.child, inode, job.pad, 1 + Nodes(root.child), limit, off0)
  {
    hide HoldsAt, RunAt, W.Data, W.Known, Linked, ListSize, Order, Nodes, Held, Proper, FilesIn, SuperAt, Skips, IsDir,
         SameBytes, ZeroFrom, LinksFit;
    RootParts(root);
    RootIn(img, s.big, job.pad, super, files, inode);
    AllDone(s, dir, root.child, off0, same, s.readable, limit, img, inode, job.pad);
    if LinksFit(root.child, job.packing.blk) {
      ProperLinks(root.child, ANY_SIZE, job.packing.blk);
    }
  }

  method RootInode(root: Tree, base: nat) returns (i: Inode)
    requires root.Entry? && root.size < 0x100_0000 && base % 4 == 0 && base < MAX_OFFSET
    ensures i.mode == root.mode && i.size == root.size && 4 * i.offset == base
  {
    i := Inode(root.mode, root.uid % 0x1_0000, root.size, root.gid % 0x100, 0, base / 4);
  }

  lemma RootIn(img: Bytes, big: bool, start: nat, super: Super, files: u32, root: Inode)
    requires SuperAt(img, big, start, super, files, root)
    ensures HoldsAt(img, start + ROOT_AT, Encode(big, root))
  {
  }

  // ---------- Files, one by one ----------

  /** The inode of a file is in the image, and reading it gives the content back. */
  ghost predicate GivesBack(m: Medium, e: Tree)
    requires m.blk > 0 && e.Entry? && e.file.Some?
  {
    exists at: nat, o: nat :: EntryAt(m.img, m.big, at, e, o) && ReadsContent(m, InodeOf(e, o), e.file.value)
  }

  ghost predicate ReadsContent(m: Medium, i: Inode, c: Bytes)
    requires m.blk > 0
  {
    forall b: Bounds :: b.startData <= UNSET ==> var r := ReadFile(m, i, b); r.Done? && r.value.0 == c
  }

  /** Reading ends with an error or outside the image. */
  ghost predicate ReadsNothing(m: Medium, i: Inode)
    requires m.blk > 0
  {
    forall b: Bounds :: ReadFile(m, i, b).Fail? || ReadFile(m, i, b).Outside?
  }

  /** The inode of a lost file is in the image; nothing is read there, or it points to a
      file with a greater number. */
  ghost predicate Misses(m: Medium, p: Packing, t: Tree, readable: set<nat>, e: Tree)
    requires m.blk > 0 && p.blk > 0 && e.Entry?
  {
    exists at: nat, o: nat :: EntryAt(m.img, m.big, at, e, o) && 4 * InodeOf(e, o).offset == o > 0
      && (ReadsNothing(m, InodeOf(e, o)) || exists f :: f in Order(t) && PointsTo(m, p, readable, e, f, o))
  }

  ghost predicate PointsTo(m: Medium, p: Packing, readable: set<nat>, e: Tree, f: Tree, o: nat)
    requires p.blk > 0 && e.Entry?
  {
    && f.Entry? && e.id < f.id && f.id in readable && f.file.Some? && f.size > 0
    && FileAt(m.img, m.big, p, f.file.value, o, |m.img|)
  }

  /** What becomes of a regular file that is not empty. */
  ghost predicate Fate(m: Medium, p: Packing, t: Tree, readable: set<nat>, e: Tree)
    requires m.blk > 0 && p.blk > 0 && e.Entry? && e.file.Some?
  {
    if e.id in readable then GivesBack(m, e) else Misses(m, p, t, readable, e)
  }

  /** Whatever else was skipped, every file that could be read comes back from its
      inode; one that could not be read is not there. */
  lemma FileFate(s: W.State, dir: map<nat, nat>, t: Tree, root: Inode, start: nat, last: nat, limit: nat,
                 off0: map<nat, nat>, m: Medium, e: Tree)
    requires Held(s, dir, t, root, start, last, limit, off0) && Numbered(t, 1) && last == 1 + Nodes(t)
    requires m.img == s.image && m.big == s.big && Suits(m, s.packing)
    requires e in Order(t) && e.Entry? && ProperEntry(e, ANY_SIZE) && IsReg(e.mode) && e.size > 0
    ensures Fate(m, s.packing, t, s.readable, e)
  {
    hide Laid, RunAt, Numbered, Nodes, Order, HoldsAt, Encode, EntryAt, W.DoneAt, FileAt, GivesBack, Misses;
    var k :| 0 <= k < |s.run| && s.run[k] == e;
    EntryPlaced(s, dir, k);
    NumberedBelow(t, e);
    assert W.DoneAt(s, k, last, limit, off0);
    FileState(s, k, last, limit, off0);
    AddrFromBase(s.run, s.base, |s.run|);
    InodeFields(e, s.off[e.id], ANY_SIZE);
    if e.id in s.readable {
      KeptFile(s, dir, m, e, limit);
    } else {
      LostFile(s, dir, t, m, e, last, limit, off0);
    }
  }

  /** The same for all of them. */
  ghost predicate Fates(m: Medium, p: Packing, t: Tree, readable: set<nat>)
    requires m.blk > 0 && p.blk > 0
  {
    forall e :: e in Order(t) ==> Plain(e) ==> Fate(m, p, t, readable, e)
  }

  /** A regular file that is not empty. */
  ghost predicate Plain(e: Tree) {
    e.Entry? && IsReg(e.mode) && e.size > 0 && e.file.Some?
  }

  lemma EveryFate(s: W.State, dir: map<nat, nat>, root: Tree, inode: Inode, start: nat, last: nat, limit: nat,
                  off0: map<nat, nat>, m: Medium)
    requires ProperRoot(root) && Held(s, dir, root.child, inode, start, last, limit, off0)
    requires last == 1 + Nodes(root.child) && m.img == s.image && m.big == s.big && Suits(m, s.packing)
    ensures Fates(m, s.packing, root.child, s.readable)
  {
    hide Held, Fate, Order, Zlib, Nodes, Proper, Numbered, ListSize;
    RootParts(root);
    var t := root.child;
    forall e | e in Order(t) && Plain(e)
      ensures Fate(m, s.packing, t, s.readable, e)
    {
      OrderParts(t, e);
      ProperMember(t, ANY_SIZE, e);
      FileFate(s, dir, t, inode, start, last, limit, off0, m, e);
    }
  }

  lemma OrderParts(t: Tree, e: Tree)
    requires e in Order(t)
    ensures e in Siblings(t) || e in Subs(t)
  {
  }

  lemma EntryPlaced(s: W.State, dir: map<nat, nat>, k: nat)
    requires Entries(s.run) && RunAt(s.image, s.big, s.base, s.run, |s.run|, s.off, dir) && k < |s.run|
    ensures var e := s.run[k];
      e.id in s.off && e.id in dir && EntryAt(s.image, s.big, dir[e.id], e, s.off[e.id])
  {
    assert Placed(s.image, s.big, s.base, s.run, k, s.off, dir);
  }

  lemma NumberedBelow(t: Tree, e: Tree)
    requires Numbered(t, 1) && e in Order(t)
    ensures e.Entry? && e.id < 1 + Nodes(t)
  {
    assert e in Siblings(t) || e in Subs(t);
    D.SameEntries(t, e);
    D.NumbersOf(t, 1);
  }

  lemma FileState(s: W.State, k: nat, last: nat, limit: nat, off0: map<nat, nat>)
    requires s.packing.blk > 0 && Entries(s.run) && k < |s.run| && W.DoneAt(s, k, last, limit, off0)
    requires var e := s.run[k]; e.file.Some? && e.id < last && e.size > 0
    ensures var e := s.run[k];
      e.id in s.off && if e.id in s.readable then W.FileDone(s, e, limit) else W.Lost(s, e, last, limit)
  {
  }

  lemma KeptFile(s: W.State, dir: map<nat, nat>, m: Medium, e: Tree, limit: nat)
    requires m.img == s.image && m.big == s.big && Suits(m, s.packing) && Entries(s.run) && 0 < s.base
    requires e.Entry? && e.id in s.off && e.file.Some? && 0 < |e.file.value| == e.size && W.FileDone(s, e, limit)
    requires e.id in dir && EntryAt(m.img, m.big, dir[e.id], e, s.off[e.id])
    requires var i := InodeOf(e, s.off[e.id]); i.size == e.size && 4 * i.offset == s.off[e.id]
    ensures GivesBack(m, e)
  {
    hide FileAt, EntryAt, ReadFile, InodeOf;
    var o := s.off[e.id];
    forall b: Bounds | b.startData <= UNSET
      ensures var r := ReadFile(m, InodeOf(e, o), b); r.Done? && r.value.0 == e.file.value
    {
      RegularReads(s, m, e, InodeOf(e, o), b, limit);
    }
    assert ReadsContent(m, InodeOf(e, o), e.file.value);
  }

  lemma LostFile(s: W.State, dir: map<nat, nat>, t: Tree, m: Medium, e: Tree, last: nat, limit: nat,
                 off0: map<nat, nat>)
    requires W.Data(s, last, limit, off0) && s.run == Order(t) && 0 < s.base && ZeroFrom(s.image, limit)
    requires m.img == s.image && m.big == s.big && m.blk == s.packing.blk
    requires e.Entry? && e.id in s.off && W.Lost(s, e, last, limit)
    requires e.id in dir && EntryAt(m.img, m.big, dir[e.id], e, s.off[e.id])
    requires var i := InodeOf(e, s.off[e.id]); i.size > 0 && 4 * i.offset == s.off[e.id]
    ensures Misses(m, s.packing, t, s.readable, e)
  {
    hide FileAt, EntryAt, ReadFile, InodeOf, W.DoneAt, Order;
    var o := s.off[e.id];
    AddrFromBase(s.run, s.base, |s.run|);
    if o == limit {
      forall b: Bounds
        ensures ReadFile(m, InodeOf(e, o), b).Fail? || ReadFile(m, InodeOf(e, o), b).Outside?
      {
        NothingThere(m, InodeOf(e, o), b);
      }
      assert ReadsNothing(m, InodeOf(e, o));
    } else {
      var k :| 0 <= k < |s.run| && W.Instead(s, e, k, last);
      assert W.DoneAt(s, k, last, limit, off0);
      FileState(s, k, last, limit, off0);
      FileBefore(m.img, m.big, s.packing, s.run[k].file.value, o, limit);
      assert PointsTo(m, s.packing, s.readable, e, s.run[k], o);
    }
  }

  lemma FileBefore(img: Bytes, big: bool, p: Packing, c: Bytes, o: nat, limit: nat)
    requires p.blk > 0 && FileAt(img, big, p, c, o, limit) && limit <= |img|
    ensures FileAt(img, big, p, c, o, |img|)
  {
  }

  /** Where the data ends there are only zeros: no file is read there. */
  lemma NothingThere(m: Medium, i: Inode, b: Bounds)
    requires m.blk > 0 && i.size > 0 && i.offset > 0
    requires forall k :: 4 * i.offset <= k < |m.img| ==> m.img[k] == 0
    ensures ReadFile(m, i, b) == if 4 * i.offset + 4 > |m.img| then Outside else Fail
  {
    hide ReadBlocks, Blocks, U32At;
    var o: nat := 4 * i.offset;
    BlocksIs(i.size, m.blk);
    ZeroPointer(m, o, o + 4 * Blocks(i.size, m.blk), i.size, b.endData);
  }

  lemma ZeroPointer(m: Medium, ptr: nat, curr: nat, size: nat, endData: nat)
    requires m.blk > 0 && size > 0 && curr > 0 && forall k :: ptr <= k < |m.img| ==> m.img[k] == 0
    ensures ReadBlocks(m, ptr, curr, size, endData) == if ptr + 4 > |m.img| then Outside else Fail
  {
    hide U32At;
    if ptr + 4 <= |m.img| {
      ZeroWord(m, ptr);
    }
  }

  lemma ZeroWord(m: Medium, at: nat)
    requires at + 4 <= |m.img| && forall k :: at <= k < at + 4 ==> m.img[k] == 0
    ensures U32At(m, at) == 0
  {
    assert m.img[at..at + 4] == [0, 0, 0, 0];
  }

  /** A lost file whose inode points to another file with as many blocks: it is
      extracted with the bytes of the other when their sizes agree, and fails otherwise.
      So it comes back exactly when the two are the same. */
  lemma LostReadsOther(m: Medium, p: Packing, i: Inode, c: Bytes, o: nat, b: Bounds, limit: nat)
    requires Suits(m, p) && !p.holes && 0 < o == 4 * i.offset && FileAt(m.img, m.big, p, c, o, limit)
    requires i.size > 0 && |c| > 0 && Blocks(i.size, m.blk) == Blocks(|c|, m.blk)
    ensures var r := ReadFile(m, i, b);
      if i.size == |c| then r.Done? && r.value.0 == c else r == Fail
  {
    hide Blocks, ReadBlocks, PackedAt, After, Zlib;
    if i.size == |c| {
      StoredReads(m, p, i, c, o, b, limit);
    } else {
      var n := Blocks(|c|, p.blk);
      BlocksIs(i.size, p.blk);
      OtherSizeFails(m, p, c, o, o + 4 * n, n, i.size, b.endData);
    }
  }

  lemma OneBlockLess(size: nat, blk: nat)
    requires size > 0 && blk > 0
    ensures Blocks(size, blk) == 1 + Blocks(size - Min(blk, size), blk) && (Blocks(size, blk) == 1 <==> size <= blk)
  {
    if size > blk {
      assert Blocks(size - blk, blk) >= 1;
    }
  }

  /** The first block, read as part of a file of another size. */
  lemma FirstOfOther(m: Medium, p: Packing, c: Bytes, ptr: nat, curr: nat, size: nat, endData: nat)
    requires m.blk == p.blk > 0 && |c| > 0 && size > 0 && BlockAt(m.img, m.big, p, c, ptr, curr)
    requires BlockRead(m, curr, curr + |Piece(p, c)|, Min(p.blk, |c|)) == Done(Head(p, c)) && |Piece(p, c)| > 0
    requires size > p.blk <==> |c| > p.blk
    ensures ReadBlocks(m, ptr, curr, size, endData)
      == var next := curr + |Piece(p, c)|;
         if size > p.blk then Before(Head(p, c), ReadBlocks(m, ptr + 4, next, size - p.blk, Max(endData, next)))
         else if size == |c| then Done((c, Max(endData, next))) else Fail
  {
    hide U32Of, Inflated;
    var next := curr + |Piece(p, c)|;
    assert ptr + 4 <= |m.img| && U32At(m, ptr) == next;
    assert BlockRead(m, curr, next, Min(m.blk, size)) == Done(Head(p, c));
    if size <= p.blk {
      assert Head(p, c) == c;
    }
  }

  lemma PieceIsThere(m: Medium, p: Packing, c: Bytes)
    requires Suits(m, p) && !p.holes && |c| > 0
    ensures |Piece(p, c)| > 0
  {
    assert 0 < |Head(p, c)| <= p.blk;
  }

  lemma {:induction false} OtherSizeFails(m: Medium, p: Packing, c: Bytes, ptr: nat, curr: nat, n: nat, size: nat,
                                          endData: nat)
    requires Suits(m, p) && !p.holes && |c| > 0 && size > 0 && size != |c| && PackedAt(m.img, m.big, p, c, ptr, curr, n)
    requires n == Blocks(|c|, p.blk) == Blocks(size, p.blk)
    ensures ReadBlocks(m, ptr, curr, size, endData) == Fail
    decreases |c|
  {
    hide Blocks, ReadBlocks, BlockRead, U32At, Zlib;
    var next := curr + |Piece(p, c)|;
    OneBlockLess(|c|, p.blk);
    OneBlockLess(size, p.blk);
    PieceIsThere(m, p, c);
    BlockReads(m, p, c, curr, next);
    FirstOfOther(m, p, c, ptr, curr, size, endData);
    if n > 1 {
      OtherSizeFails(m, p, Tail(p, c), ptr + 4, next, n - 1, size - p.blk, Max(endData, next));
    }
  }

  // ---------- There and back ----------

  /** What fsck makes of a finished image. */
  lemma LabelReads(img: Bytes, job: Job, files: u32, root: Inode, crc: Bytes -> u32, inflate: Bytes -> Option<Bytes>,
                   depth: nat)
    requires ProperJob(job) && Labelled(img, job, files, root, crc)
    ensures |img| < 0x1_0000_0000
    ensures Fsck(img, job.packing.blk, inflate, crc, depth)
      == if job.packing.holes || |job.extra| > 0 then Fail
         else TestFs(Medium(img, job.big, job.packing.blk, inflate), Super(|img|, FlagsOf(job)), job.pad, depth)
  {
    hide Fsck, TestFs, SuperAt, WordAt, Cleared, Unsupported, HasFlag, Flags, IsPow2, Pad4;
    FlagsTell(job.packing.holes, |job.extra| > 0);
    FsckIs(img, job.big, job.pad, Super(|img|, FlagsOf(job)), files, root, job.packing.blk, inflate, crc, depth);
  }

  /** The outcome of an extraction: images with holes or with an inserted file carry a
      flag that fsck refuses; otherwise, unless a file was skipped or a link target is
      longer than a block, the tree comes back exactly when no name is longer than 252
      bytes. */
  ghost predicate Extracts(r: Outcome<Node>, job: Job, skipped: bool, t: Tree) {
    if job.packing.holes || |job.extra| > 0 then r == Fail
    else !skipped && LinksFit(t, job.packing.blk) ==> ReadsBack(r, t)
  }

  /** mkfs.cramfs on a tree with root `root`, whatever the byte orders of the machine
      and of the image. */
  method MakeImage(root: Tree, job: Job, host: bool, readable: set<nat>, md5: Bytes -> Bytes, crc: Bytes -> u32,
                   ghost inflate: Bytes -> Option<Bytes>, ghost depth: nat)
    returns (r: Option<Bytes>, skipped: bool)
    requires ProperJob(job) && ProperRoot(root)
    requires Zlib(job.packing, inflate) && Depth(root.child) <= depth
    ensures Enough(root.child, job) ==> r.Some?
    ensures r.Some? ==> (skipped <==> Skips(root.child, readable))
    ensures r.Some? ==> Extracts(Fsck(r.value, job.packing.blk, inflate, crc, depth), job, skipped, root.child)
    ensures r.Some? ==> Fates(Medium(r.value, job.big, job.packing.blk, inflate), job.packing, root.child, readable)
  {
    hide Complete, Held, ReadsBack, Fsck, TestFs, Depth, ProperRoot, Labelled, Skips, HasFlag, Pad4, Fates, Extracts,
         LinksFit, IsPow2, Zlib, Nodes;
    ghost var files, s, dir, inode, end, off0;
    RootParts(root);
    r, skipped, files, s, dir, inode, end, off0 := BuildImage(root, job, host, readable, md5, crc);
    if r.Some? {
      EveryFate(s, dir, root, inode, job.pad, 1 + Nodes(root.child), end, off0,
                Medium(r.value, job.big, job.packing.blk, inflate));
      ItExtracts(r.value, root, job, skipped, s, dir, files, inode, end, off0, crc, inflate, depth);
    }
  }

  /** What fsck makes of what mkfs has left. */
  lemma ItExtracts(img: Bytes, root: Tree, job: Job, skipped: bool, s: W.State, dir: map<nat, nat>, files: u32,
                   inode: Inode, end: nat, off0: map<nat, nat>, crc: Bytes -> u32,
                   inflate: Bytes -> Option<Bytes>, depth: nat)
    requires ProperJob(job) && root.Entry? && Labelled(img, job, files, inode, crc)
    requires Zlib(job.packing, inflate) && Depth(root.child) <= depth
    requires s.image == img && s.big == job.big && s.packing == job.packing && end <= |img|
    requires s.base == job.pad + SUPER_SIZE + Pad4(|job.extra|)
    requires !skipped && LinksFit(root.child, job.packing.blk) ==>
      Complete(s, dir, root.child, inode, job.pad, 1 + Nodes(root.child), end, off0)
    ensures Extracts(Fsck(img, job.packing.blk, inflate, crc, depth), job, skipped, root.child)
  {
    hide Complete, ReadsBack, Fsck, TestFs, Depth, Labelled, HasFlag, Pad4, LinksFit, Nodes, IsPow2, Zlib;
    LabelReads(img, job, files, inode, crc, inflate, depth);
    if !job.packing.holes && |job.extra| == 0 && !skipped && LinksFit(root.child, job.packing.blk) {
      NoPadding();
      ImageReads(s, dir, root.child, inode, job.pad, 1 + Nodes(root.child), end, off0,
                 Medium(img, job.big, job.packing.blk, inflate), Super(|img|, FlagsOf(job)), depth);
    }
  }

  lemma NoPadding()
    ensures Pad4(0) == 0
  {
  }

  /** mkfs.cramfs and then fsck.cramfs --extract, each on a machine of its own byte
      order. */
  method MakeThenExtract(root: Tree, job: Job, host: bool, host': bool, readable: set<nat>, md5: Bytes -> Bytes,
                         crc: Bytes -> u32, inflate: Bytes -> Option<Bytes>, depth: nat)
    returns (made: bool, skipped: bool, r: Outcome<Node>)
    requires ProperJob(job) && job.packing.blk >= 128 && ProperRoot(root)
    requires Zlib(job.packing, inflate) && Depth(root.child) <= depth
    ensures Enough(root.child, job) ==> made
    ensures made ==> (skipped <==> Skips(root.child, readable))
    ensures made && !skipped && LinksFit(root.child, job.packing.blk) ==>
      r == if NamesFit(root.child) && !job.packing.holes && job.extra == [] then Done(Recovered(root.child)) else Fail
    ensures made && (job.packing.holes || job.extra != []) ==> r == Fail
  {
    hide Fsck, Depth, ProperRoot, Zlib, Skips, IsPow2, Pad4, NamesFit, Recovered;
    RootParts(root);
    var img;
    img, skipped := MakeImage(root, job, host, readable, md5, crc, inflate, depth);
    made, r := img.Some?, Fail;
    if made {
      r := R.FsckImage(img.value, host', job.packing.blk, inflate, crc, depth);
    }
  }

  /** Storing one file and reading it back through the read buffer: every non-empty
      content comes back, with holes or without. */
  method StoreThenRead(content: Bytes, offset: nat, big: bool, host: bool, host': bool, packing: Packing, room: nat,
                       inflate: Bytes -> Option<Bytes>)
    returns (stored: bool, r: Outcome<Bytes>)
    requires |content| > 0 && packing.blk >= 128 && IsPow2(packing.blk) && room < 0x1_0000_0000
    requires Zlib(packing, inflate)
    ensures stored <==> PiecesFit(packing, content) && offset + Packed(packing, content) <= room
    ensures stored ==> r == Done(content)
  {
    hide IsPow2, Zlib, PackedAt, After, ReadBlocks, Blocks;
    r := Fail;
    var w := new W.Writer(big, host, packing, map[], {}, room);
    var end;
    stored, end := w.DoCompress(content, offset);
    if stored {
      var m := Medium(w.image, big, packing.blk, inflate);
      var reader := new R.Reader(m, host');
      BlocksIs(|content|, packing.blk);
      ghost var n := Blocks(|content|, packing.blk);
      FileReads(m, packing, content, offset, offset + 4 * n, n, reader.bounds.endData);
      r := reader.DoUncompress(offset, |content|);
    }
  }

  // ---------- Inputs that do not come back ----------

  /** A name of 253 bytes, which mkfs.cramfs accepts: its length field is 0, and a
      directory with it cannot be read. */
  lemma LongNameFails(m: Medium, at: nat, offset: nat, depth: nat, b: Bounds)
    requires m.blk > 0
    requires EntryAt(m.img, m.big, at, Entry(1, seq(253, _ => 97), 0x81A4, 0, 0, 0, Some([]), Null, Null), offset)
    ensures var t := Entry(1, seq(253, _ => 97), 0x81A4, 0, 0, 0, Some([]), Null, Null);
      Proper(t, m.blk) && InodeOf(t, offset).namelen == 0 && ReadList(m, at, ListSize(t), depth, b) == Fail
  {
    hide Encode, Decode, HoldsAt, GoodName;
    var name := seq(253, _ => 97);
    var t := Entry(1, name, 0x81A4, 0, 0, 0, Some([]), Null, Null);
    assert ProperEntry(t, m.blk);
    assert ListSize(t) == EntrySize(t) + ListSize(Null);
    EntryReads(m, at, t, offset, ListSize(t), depth, b);
  }

  /** A link target of more than one block: the reader takes it for a single block and
      inflates the rest of the pointer table together with the first piece. It comes
      back exactly when zlib happens to make the target of these bytes. */
  lemma LongLinkReads(m: Medium, p: Packing, c: Bytes, o: nat, limit: nat, i: Inode, b: Bounds)
    requires Suits(m, p) && |c| > p.blk && FileAt(m.img, m.big, p, c, o, limit) && 0 < o == 4 * i.offset
    requires i.size == |c|
    ensures var n := Blocks(|c|, p.blk);
      && n >= 2 && o + 4 * n <= |m.img|
      && var bytes, r := m.img[o + 4..o + 4 * n] + Piece(p, c), ReadLink(m, i, b);
         r.Done? && r.value.0 == c <==> |bytes| <= 2 * m.blk && m.inflate(bytes) == Some(c)
  {
    hide FileAt, U32At, Blocks, Zlib, Piece;
    FirstPiece(m, p, c, o, limit);
  }

  lemma FirstPiece(m: Medium, p: Packing, c: Bytes, o: nat, limit: nat)
    requires p.blk > 0 && |c| > p.blk && FileAt(m.img, m.big, p, c, o, limit)
    ensures var n, first := Blocks(|c|, p.blk), Piece(p, c);
      && n >= 2 && o + 4 * n + |first| <= |m.img| && U32At(m, o) == o + 4 * n + |first|
      && m.img[o + 4..o + 4 * n + |first|] == m.img[o + 4..o + 4 * n] + first
  {
    hide U32Of, AllZero;
    var n, first := Blocks(|c|, p.blk), Piece(p, c);
    assert n == 1 + Blocks(|c| - p.blk, p.blk) && Blocks(|c| - p.blk, p.blk) >= 1;
    assert BlockAt(m.img, m.big, p, c, o, o + 4 * n);
    HeldSlice(m.img, o + 4 * n, first);
    var next := o + 4 * n + |first|;
    assert m.img[o + 4..next] == m.img[o + 4..o + 4 * n] + m.img[o + 4 * n..next];
  }
}
