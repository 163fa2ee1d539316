/** What the depth limit of fsck.minix does to its verdict.

    The checker does not count entries that lie 50 levels deep. Here the tally with
    that limit is compared with the tally without a limit: a file system that is in
    order without the limit is accepted with it exactly when no directory with
    entries is nested that deep.
  */
module MinixDepth {
  import opened Common
  import opened MinixFormat
  import opened MinixConsistency
  import opened MinixCheck

  // ---------- Directories below directories ----------

  /** The checker looks at the entries of this directory. */
  ghost predicate Listed(fs: Fs, ino: nat)
    requires Sized(fs) && 0 < ino <= fs.super.ninodes
  {
    fs.inodes[ino].size >= 2 * fs.dirsize && ValidZone(fs.super, fs.inodes[ino].zone[0])
  }

  /** The directory that the entry at `offset` names, if it is one to go down to. */
  ghost function Child(fs: Fs, dir: nat, offset: nat): (r: Option<nat>)
    requires Sized(fs) && 0 < dir <= fs.super.ninodes && offset % 16 == 0
    ensures r.Some? ==> 0 < r.value <= fs.super.ninodes && IsDir(fs.inodes[r.value].mode)
  {
    EntryInBlock(offset);
    var blk := EntryBlock(fs, fs.inodes[dir], offset);
    if blk.None? || offset == 0 || offset == fs.dirsize then None
    else
      var ino := blk.value[offset % 1024 / 2];
      if 0 < ino <= fs.super.ninodes && IsDir(fs.inodes[ino].mode) then Some(ino) else None
  }

  /** From this directory one can go down `n` levels to a directory with entries. */
  ghost predicate Nested(fs: Fs, ino: nat, n: nat)
    requires Sized(fs) && 0 < ino <= fs.super.ninodes
    decreases n, fs.inodes[ino].size + 1
  {
    Listed(fs, ino) && (n == 0 || NestedFrom(fs, ino, 0, n))
  }

  /** The same, through an entry at `offset` or later. */
  ghost predicate NestedFrom(fs: Fs, ino: nat, offset: nat, n: nat)
    requires Sized(fs) && 0 < ino <= fs.super.ninodes && offset % 16 == 0 && n > 0
    decreases n, if offset < fs.inodes[ino].size then fs.inodes[ino].size - offset else 0
  {
    assert fs.dirsize % 16 == 0;
    offset < fs.inodes[ino].size &&
    ((Child(fs, ino, offset).Some? && Nested(fs, Child(fs, ino, offset).value, n - 1)) ||
     NestedFrom(fs, ino, offset + fs.dirsize, n))
  }

  // ---------- One entry ----------

  /** The entry at `offset` and the zones of its inode, without what lies below. */
  ghost function Entry(fs: Fs, t: Tally, dir: nat, offset: nat): Option<Tally>
    requires Sized(fs) && 0 < dir <= fs.super.ninodes && offset % 16 == 0
  {
    EntryInBlock(offset);
    var blk := EntryBlock(fs, fs.inodes[dir], offset);
    if blk.None? || blk.value[offset % 1024 / 2] > fs.super.ninodes then None
    else
      var ino := blk.value[offset % 1024 / 2];
      var start := EntryStart(fs, t, ino, blk.value, offset);
      if start.None? || offset == 0 || offset == fs.dirsize || ino == 0 then start
      else CountZones(fs, start.value, ino)
  }

  /** How many references the entry counts, whatever was counted before. */
  ghost function Weight(fs: Fs, dir: nat, offset: nat): nat
    requires Sized(fs) && 0 < dir <= fs.super.ninodes && offset % 16 == 0
  {
    EntryInBlock(offset);
    var blk := EntryBlock(fs, fs.inodes[dir], offset);
    if blk.None? || blk.value[offset % 1024 / 2] == 0 then 0 else 1
  }

  lemma FileIsEntry(fs: Fs, t: Tally, dir: nat, offset: nat, left: nat)
    requires Sized(fs) && 0 < dir <= fs.super.ninodes && offset % 16 == 0
    requires offset < fs.inodes[dir].size && left > 0
    ensures var e, c := Entry(fs, t, dir, offset), Child(fs, dir, offset);
      FileTally(fs, t, dir, offset, left)
      == if e.None? || c.None? then e else DirTally(fs, e.value, c.value, left - 1)
  {
    hide EntryBlock, EntryStart, CountZones, DirTally;
    EntryInBlock(offset);
    var blk := EntryBlock(fs, fs.inodes[dir], offset);
    if blk.Some? && blk.value[offset % 1024 / 2] <= fs.super.ninodes {
      var ino := blk.value[offset % 1024 / 2];
      assert FileTally(fs, t, dir, offset, left) == EntryTally(fs, t, blk.value, offset, left);
      assert EntryTally(fs, t, blk.value, offset, left) == KnownTally(fs, t, ino, blk.value, offset, left);
      var start := EntryStart(fs, t, ino, blk.value, offset);
      if start.Some? && offset != 0 && offset != fs.dirsize && ino != 0 {
        var zones := CountZones(fs, start.value, ino);
        assert KnownTally(fs, t, ino, blk.value, offset, left) == Descend(fs, zones, ino, left - 1);
      }
    }
  }

  /** With no level left an entry does not count. */
  lemma FileAtLimit(fs: Fs, t: Tally, dir: nat, offset: nat)
    requires Sized(fs) && 0 < dir <= fs.super.ninodes && offset % 16 == 0
    requires offset < fs.inodes[dir].size && FileTally(fs, t, dir, offset, 0).Some?
    ensures FileTally(fs, t, dir, offset, 0) == Some(t)
  {
    hide EntryBlock;
    EntryInBlock(offset);
    var blk := EntryBlock(fs, fs.inodes[dir], offset).value;
    assert FileTally(fs, t, dir, offset, 0) == EntryTally(fs, t, blk, offset, 0);
    assert EntryTally(fs, t, blk, offset, 0) == KnownTally(fs, t, blk[offset % 1024 / 2], blk, offset, 0);
  }

  lemma EntryWeighs(fs: Fs, t: Tally, dir: nat, offset: nat)
    requires Sized(fs) && 0 < dir <= fs.super.ninodes && offset % 16 == 0
    requires Entry(fs, t, dir, offset).Some?
    ensures |Entry(fs, t, dir, offset).value.inos| == |t.inos| + Weight(fs, dir, offset)
    ensures offset == 0 || Child(fs, dir, offset).Some? ==> Weight(fs, dir, offset) == 1
  {
    hide EntryBlock;
    EntryInBlock(offset);
  }

  // ---------- Without deep directories the limit does not matter ----------

  lemma {:induction false} SameBelow(fs: Fs, t: Tally, ino: nat, left: nat, more: nat)
    requires Sized(fs) && 0 < ino <= fs.super.ninodes
    requires left <= more && !Nested(fs, ino, left)
    ensures DirTally(fs, t, ino, left) == DirTally(fs, t, ino, more)
    decreases left, fs.inodes[ino].size + 1
  {
    if Listed(fs, ino) {
      SameFrom(fs, t, ino, 0, left, more);
    }
  }

  lemma {:induction false} SameFrom(fs: Fs, t: Tally, ino: nat, offset: nat, left: nat, more: nat)
    requires Sized(fs) && 0 < ino <= fs.super.ninodes && offset % 16 == 0
    requires 0 < left <= more && !NestedFrom(fs, ino, offset, left)
    ensures EntriesTally(fs, t, ino, offset, left) == EntriesTally(fs, t, ino, offset, more)
    decreases left, if offset < fs.inodes[ino].size then fs.inodes[ino].size - offset else 0
  {
    hide FileTally, DirTally, Entry, Child, Nested;
    if offset < fs.inodes[ino].size {
      var e, c := Entry(fs, t, ino, offset), Child(fs, ino, offset);
      FileIsEntry(fs, t, ino, offset, left);
      FileIsEntry(fs, t, ino, offset, more);
      if e.Some? && c.Some? {
        SameBelow(fs, e.value, c.value, left - 1, more - 1);
      }
      var r := FileTally(fs, t, ino, offset, left);
      assert fs.dirsize % 16 == 0;
      if r.Some? {
        SameFrom(fs, r.value, ino, offset + fs.dirsize, left, more);
      }
    }
  }

  // ---------- With deep directories less is counted ----------

  /** How many references were added. */
  ghost function Growth(t: Tally, r: Option<Tally>): int
    requires r.Some?
  {
    |r.value.inos| - |t.inos|
  }

  /** Every level counts at least one reference. */
  lemma {:induction false} DeepBelow(fs: Fs, t: Tally, ino: nat, left: nat, n: nat)
    requires Sized(fs) && 0 < ino <= fs.super.ninodes && DirTally(fs, t, ino, left).Some?
    ensures Growth(t, DirTally(fs, t, ino, left)) >= 0
    ensures n <= left && Nested(fs, ino, n) ==> Growth(t, DirTally(fs, t, ino, left)) >= n
    decreases left, fs.inodes[ino].size + 1
  {
    if Listed(fs, ino) {
      DeepFrom(fs, t, ino, 0, left, n);
    }
  }

  lemma {:induction false} DeepFrom(fs: Fs, t: Tally, ino: nat, offset: nat, left: nat, n: nat)
    requires Sized(fs) && 0 < ino <= fs.super.ninodes && offset % 16 == 0
    requires EntriesTally(fs, t, ino, offset, left).Some?
    ensures Growth(t, EntriesTally(fs, t, ino, offset, left)) >= 0
    ensures 0 < n <= left && NestedFrom(fs, ino, offset, n) ==>
      Growth(t, EntriesTally(fs, t, ino, offset, left)) >= n
    decreases left, if offset < fs.inodes[ino].size then fs.inodes[ino].size - offset else 0, 1
  {
    hide FileTally, DirTally, Entry, Child, Nested;
    if offset < fs.inodes[ino].size {
      var f := FileTally(fs, t, ino, offset, left);
      DeepEntry(fs, t, ino, offset, left, n);
      assert fs.dirsize % 16 == 0;
      DeepFrom(fs, f.value, ino, offset + fs.dirsize, left, n);
    }
  }

  lemma {:induction false} DeepEntry(fs: Fs, t: Tally, ino: nat, offset: nat, left: nat, n: nat)
    requires Sized(fs) && 0 < ino <= fs.super.ninodes && offset % 16 == 0
    requires offset < fs.inodes[ino].size && FileTally(fs, t, ino, offset, left).Some?
    ensures Growth(t, FileTally(fs, t, ino, offset, left)) >= 0
    ensures left > 0 && offset == 0 ==> Growth(t, FileTally(fs, t, ino, offset, left)) > 0
    ensures 0 < n <= left && Child(fs, ino, offset).Some? && Nested(fs, Child(fs, ino, offset).value, n - 1) ==>
      Growth(t, FileTally(fs, t, ino, offset, left)) >= n
    decreases left, fs.inodes[ino].size - offset, 0
  {
    if left == 0 {
      FileAtLimit(fs, t, ino, offset);
    } else {
      FileIsEntry(fs, t, ino, offset, left);
      EntryWeighs(fs, t, ino, offset);
      if Child(fs, ino, offset).Some? {
        DeepBelow(fs, Entry(fs, t, ino, offset).value, Child(fs, ino, offset).value, left - 1,
                  if n > 0 then n - 1 else 0);
      }
    }
  }

  lemma {:induction false} FewerBelow(fs: Fs, t: Tally, t': Tally, ino: nat, left: nat, more: nat)
    requires Sized(fs) && 0 < ino <= fs.super.ninodes && left <= more
    requires DirTally(fs, t, ino, left).Some? && DirTally(fs, t', ino, more).Some?
    ensures Growth(t, DirTally(fs, t, ino, left)) <= Growth(t', DirTally(fs, t', ino, more))
    ensures left < more && Nested(fs, ino, left) ==>
      Growth(t, DirTally(fs, t, ino, left)) < Growth(t', DirTally(fs, t', ino, more))
    decreases left, fs.inodes[ino].size + 1
  {
    if Listed(fs, ino) {
      FewerFrom(fs, t, t', ino, 0, left, more);
    }
  }

  lemma {:induction false} FewerFrom(fs: Fs, t: Tally, t': Tally, ino: nat, offset: nat, left: nat, more: nat)
    requires Sized(fs) && 0 < ino <= fs.super.ninodes && offset % 16 == 0 && left <= more
    requires EntriesTally(fs, t, ino, offset, left).Some? && EntriesTally(fs, t', ino, offset, more).Some?
    ensures Growth(t, EntriesTally(fs, t, ino, offset, left)) <= Growth(t', EntriesTally(fs, t', ino, offset, more))
    ensures left < more && Deeper(fs, ino, offset, left) ==>
      Growth(t, EntriesTally(fs, t, ino, offset, left)) < Growth(t', EntriesTally(fs, t', ino, offset, more))
    decreases left, if offset < fs.inodes[ino].size then fs.inodes[ino].size - offset else 0, 1
  {
    hide FileTally, DirTally, Entry, Child, Nested;
    if offset < fs.inodes[ino].size {
      FewerEntry(fs, t, t', ino, offset, left, more);
      assert fs.dirsize % 16 == 0;
      FewerFrom(fs, FileTally(fs, t, ino, offset, left).value, FileTally(fs, t', ino, offset, more).value, ino,
                offset + fs.dirsize, left, more);
    }
  }

  /** From `offset` on there are entries that the limit cuts off. */
  ghost predicate Deeper(fs: Fs, ino: nat, offset: nat, left: nat)
    requires Sized(fs) && 0 < ino <= fs.super.ninodes && offset % 16 == 0
  {
    if left == 0 then offset == 0 < fs.inodes[ino].size else NestedFrom(fs, ino, offset, left)
  }

  lemma {:induction false} FewerEntry(fs: Fs, t: Tally, t': Tally, ino: nat, offset: nat, left: nat, more: nat)
    requires Sized(fs) && 0 < ino <= fs.super.ninodes && offset % 16 == 0 && left <= more
    requires offset < fs.inodes[ino].size
    requires FileTally(fs, t, ino, offset, left).Some? && FileTally(fs, t', ino, offset, more).Some?
    ensures Growth(t, FileTally(fs, t, ino, offset, left)) <= Growth(t', FileTally(fs, t', ino, offset, more))
    ensures left == 0 < more && offset == 0 ==>
      Growth(t, FileTally(fs, t, ino, offset, left)) < Growth(t', FileTally(fs, t', ino, offset, more))
    ensures 0 < left < more && Child(fs, ino, offset).Some? && Nested(fs, Child(fs, ino, offset).value, left - 1) ==>
      Growth(t, FileTally(fs, t, ino, offset, left)) < Growth(t', FileTally(fs, t', ino, offset, more))
    decreases left, fs.inodes[ino].size - offset, 0
  {
    hide FileTally, DirTally, Entry, Child, Weight, Nested;
    if left == 0 {
      FileAtLimit(fs, t, ino, offset);
      DeepEntry(fs, t', ino, offset, more, 0);
    } else {
      FileIsEntry(fs, t, ino, offset, left);
      FileIsEntry(fs, t', ino, offset, more);
      EntryWeighs(fs, t, ino, offset);
      EntryWeighs(fs, t', ino, offset);
      if Child(fs, ino, offset).Some? {
        FewerBelow(fs, Entry(fs, t, ino, offset).value, Entry(fs, t', ino, offset).value,
                   Child(fs, ino, offset).value, left - 1, more - 1);
      }
    }
  }

  // ---------- What a tally can hold ----------

  /** Only inodes that exist are referred to, each at most 255 times. */
  ghost predicate InosIn(fs: Fs, t: Tally) {
    forall i :: i in t.inos ==> 0 < i <= fs.super.ninodes && t.inos[i] <= 255
  }

  lemma EntryInosIn(fs: Fs, t: Tally, dir: nat, offset: nat)
    requires Sized(fs) && 0 < dir <= fs.super.ninodes && offset % 16 == 0
    requires InosIn(fs, t) && Entry(fs, t, dir, offset).Some?
    ensures InosIn(fs, Entry(fs, t, dir, offset).value)
  {
    hide EntryBlock;
    EntryInBlock(offset);
  }

  lemma {:induction false} DirInosIn(fs: Fs, t: Tally, ino: nat, left: nat)
    requires Sized(fs) && 0 < ino <= fs.super.ninodes && InosIn(fs, t) && DirTally(fs, t, ino, left).Some?
    ensures InosIn(fs, DirTally(fs, t, ino, left).value)
    decreases left, fs.inodes[ino].size + 1
  {
    if Listed(fs, ino) {
      EntriesInosIn(fs, t, ino, 0, left);
    }
  }

  lemma {:induction false} EntriesInosIn(fs: Fs, t: Tally, ino: nat, offset: nat, left: nat)
    requires Sized(fs) && 0 < ino <= fs.super.ninodes && offset % 16 == 0
    requires InosIn(fs, t) && EntriesTally(fs, t, ino, offset, left).Some?
    ensures InosIn(fs, EntriesTally(fs, t, ino, offset, left).value)
    decreases left, if offset < fs.inodes[ino].size then fs.inodes[ino].size - offset else 0
  {
    hide FileTally, DirTally, Entry, Child, Nested;
    if offset < fs.inodes[ino].size {
      var f, c := FileTally(fs, t, ino, offset, left), Child(fs, ino, offset);
      if left == 0 {
        FileAtLimit(fs, t, ino, offset);
      } else {
        FileIsEntry(fs, t, ino, offset, left);
        EntryInosIn(fs, t, ino, offset);
        if c.Some? {
          DirInosIn(fs, Entry(fs, t, ino, offset).value, c.value, left - 1);
        }
      }
      assert fs.dirsize % 16 == 0;
      EntriesInosIn(fs, f.value, ino, offset + fs.dirsize, left);
    }
  }

  lemma {:induction false} AtMost(m: multiset<nat>, n: nat)
    requires forall i :: i in m ==> 0 < i <= n && m[i] <= 255
    ensures |m| <= 255 * n
    decreases n
  {
    if n == 0 {
      assert forall i :: i !in m;
      assert m == multiset{};
    } else {
      var rest := m[n := 0];
      AtMost(rest, n - 1);
      assert m == rest[n := m[n]];
    }
  }

  // ---------- The tally without a limit ----------

  /** More levels than any tally can count. */
  ghost function NoLimit(fs: Fs): nat {
    255 * fs.super.ninodes + 1
  }

  lemma WholeIsDir(fs: Fs, limit: nat) returns (t: Tally)
    requires Sized(fs) && WholeTally(fs, limit).Some?
    ensures InosIn(fs, t) && InosIn(fs, WholeTally(fs, limit).value) && |t.inos| == 0
    ensures forall l :: WholeTally(fs, l) == DirTally(fs, t, ROOT_INO, l)
  {
    t := CountZones(fs, Tally(multiset{}, multiset{}), ROOT_INO).value;
    DirInosIn(fs, t, ROOT_INO, limit);
  }

  /** A tally that goes through never comes near that depth. */
  lemma NeverThatDeep(fs: Fs, limit: nat)
    requires Sized(fs) && WholeTally(fs, limit).Some? && limit >= NoLimit(fs)
    ensures !Nested(fs, ROOT_INO, NoLimit(fs))
  {
    var t := WholeIsDir(fs, limit);
    DeepBelow(fs, t, ROOT_INO, limit, NoLimit(fs));
    AtMost(WholeTally(fs, limit).value.inos, fs.super.ninodes);
  }

  /** That is no limit at all: allowing still more levels changes nothing, whatever
      the graph of directories. */
  lemma NoLimitIsNone(fs: Fs, limit: nat)
    requires Sized(fs) && limit >= NoLimit(fs)
    ensures WholeTally(fs, limit) == WholeTally(fs, NoLimit(fs))
  {
    var some := if WholeTally(fs, limit).Some? then limit else NoLimit(fs);
    if WholeTally(fs, some).Some? {
      var t := WholeIsDir(fs, some);
      NeverThatDeep(fs, some);
      SameBelow(fs, t, ROOT_INO, NoLimit(fs), limit);
    }
  }

  /** In order when every entry counts, at any depth. */
  ghost predicate InOrder(fs: Fs, warnMode: bool)
    requires Sized(fs)
  {
    WholeTally(fs, NoLimit(fs)).Some? && Agrees(fs, WholeTally(fs, NoLimit(fs)).value, warnMode)
  }

  lemma SameInos(fs: Fs, a: Tally, b: Tally)
    requires InosIn(fs, a) && InosIn(fs, b) && forall i :: 0 < i <= fs.super.ninodes ==> a.inos[i] == b.inos[i]
    ensures a.inos == b.inos
  {
    forall i: nat
      ensures a.inos[i] == b.inos[i]
    {
      if !(0 < i <= fs.super.ninodes) {
        assert i !in a.inos && i !in b.inos;
      }
    }
  }

  /** The mark or the link count of inode `i` is not that of a tally. */
  ghost predicate InodeDiffers(fs: Fs, t: Tally, i: nat)
    requires Sized(fs) && 0 < i <= fs.super.ninodes
  {
    !(fs.inodeMap[i] <==> t.inos[i] > 0) || (t.inos[i] > 0 && fs.inodes[i].nlinks != t.inos[i])
  }

  /** The cut tally does not agree with what is on the disk. */
  lemma CutDisagrees(fs: Fs, warnMode: bool)
    requires Sized(fs) && InOrder(fs, warnMode) && Nested(fs, ROOT_INO, MAX_DEPTH)
    requires WholeTally(fs, MAX_DEPTH).Some?
    ensures exists i :: 0 < i <= fs.super.ninodes && InodeDiffers(fs, WholeTally(fs, MAX_DEPTH).value, i)
  {
    var cut, full := WholeTally(fs, MAX_DEPTH).value, WholeTally(fs, NoLimit(fs)).value;
    var t := WholeIsDir(fs, NoLimit(fs));
    var t' := WholeIsDir(fs, MAX_DEPTH);
    FewerBelow(fs, t, t, ROOT_INO, MAX_DEPTH, NoLimit(fs));
    if forall i :: 0 < i <= fs.super.ninodes ==> !InodeDiffers(fs, cut, i) {
      forall i | 0 < i <= fs.super.ninodes
        ensures cut.inos[i] == full.inos[i]
      {
        assert InodeAgrees(fs, full, warnMode, i) && !InodeDiffers(fs, cut, i);
      }
      SameInos(fs, cut, full);
    }
  }

  /** A file system that is in order is accepted exactly when no directory with
      entries is nested 50 deep. */
  lemma DepthDecides(fs: Fs, warnMode: bool)
    requires Sized(fs) && InOrder(fs, warnMode)
    ensures Consistent(fs, warnMode) <==> !Nested(fs, ROOT_INO, MAX_DEPTH)
  {
    var t := WholeIsDir(fs, NoLimit(fs));
    if !Nested(fs, ROOT_INO, MAX_DEPTH) {
      SameBelow(fs, t, ROOT_INO, MAX_DEPTH, NoLimit(fs));
    } else if WholeTally(fs, MAX_DEPTH).Some? {
      CutDisagrees(fs, warnMode);
      var i :| 0 < i <= fs.super.ninodes && InodeDiffers(fs, WholeTally(fs, MAX_DEPTH).value, i);
      assert !InodeAgrees(fs, WholeTally(fs, MAX_DEPTH).value, warnMode, i);
    }
  }

  /** fsck.minix on a file system that is in order: without deep directories all is
      well; with one, a check reports an error, and an automatic repair that meets no
      other fault changes marks or link counts that were right. */
  method CheckInOrder(fs: Fs, repair: bool, warnMode: bool, unwritable: set<nat>)
    returns (errors: bool, inodes: seq<Inode>, inodeMap: seq<bool>)
    requires Sized(fs) && IsDir(fs.inodes[ROOT_INO].mode) && InOrder(fs, warnMode)
    ensures !Nested(fs, ROOT_INO, MAX_DEPTH) ==> !errors && inodes == fs.inodes && inodeMap == fs.inodeMap
    ensures Nested(fs, ROOT_INO, MAX_DEPTH) && !repair ==> errors
    ensures Nested(fs, ROOT_INO, MAX_DEPTH) && repair && WholeTally(fs, MAX_DEPTH).Some? ==>
      inodes != fs.inodes || inodeMap != fs.inodeMap
  {
    DepthDecides(fs, warnMode);
    var c := new Checker(fs, repair, warnMode, unwritable);
    c.Check();
    errors, inodes, inodeMap := c.errors, c.inodes, c.inodeMap;
    if Nested(fs, ROOT_INO, MAX_DEPTH) && repair && WholeTally(fs, MAX_DEPTH).Some? {
      CutDisagrees(fs, warnMode);
      ghost var i :| 0 < i <= fs.super.ninodes && InodeDiffers(fs, WholeTally(fs, MAX_DEPTH).value, i);
      assert InodeRepaired(c.inodes, c.inodeMap, c.inodeCount, i);
    }
  }
}
