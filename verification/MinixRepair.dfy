/** What an automatic repair by fsck.minix must not lose.

    A repair only ever clears: a slot of an inode, a word of a block and a mode are as
    they were or 0. So what can still be read in the repaired file system was there when
    the checker came by, and it must have counted it.
  */
module MinixRepair {
  import opened Common
  import opened MinixFormat
  import opened MinixConsistency

  // ---------- A file system later in a repair ----------

  ghost predicate Less(a: seq<u16>, b: seq<u16>) {
    |a| == |b| && forall k :: 0 <= k < |a| ==> a[k] == b[k] || a[k] == 0
  }

  ghost predicate LaterInode(a: Inode, b: Inode) {
    a.size == b.size && (a.mode == b.mode || a.mode == 0) && Less(a.zone, b.zone)
  }

  /** `f` is what a repair has made of `s`; maps and link counts may differ freely. */
  ghost predicate Later(f: Fs, s: Fs) {
    && f.super == s.super && f.dirsize == s.dirsize && f.unreadable == s.unreadable
    && |f.inodes| == |s.inodes| && |f.disk| == |s.disk|
    && (forall i :: 0 <= i < |f.inodes| ==> LaterInode(f.inodes[i], s.inodes[i]))
    && (forall b :: 0 <= b < |f.disk| ==> Less(f.disk[b], s.disk[b]))
  }

  lemma LaterTwice(a: Fs, b: Fs, c: Fs)
    requires Later(a, b) && Later(b, c)
    ensures Later(a, c)
  {
    forall i | 0 <= i < |a.inodes|
      ensures LaterInode(a.inodes[i], c.inodes[i])
    {
      assert LaterInode(a.inodes[i], b.inodes[i]) && LaterInode(b.inodes[i], c.inodes[i]);
    }
    forall k | 0 <= k < |a.disk|
      ensures Less(a.disk[k], c.disk[k])
    {
      assert Less(a.disk[k], b.disk[k]) && Less(b.disk[k], c.disk[k]);
    }
  }

  /** Counters only grow from nothing to something. */
  ghost predicate Grown(a: seq<u8>, b: seq<u8>) {
    |a| == |b| && forall i :: 0 <= i < |a| && a[i] > 0 ==> b[i] > 0
  }

  // ---------- A repair clears nothing without a cause ----------

  /** A slot that is cleared was no zone number, or its zone is counted by now; a word of
      a block may also have been an inode number that is too large. */
  ghost predicate Faulty(s: Super, zones: seq<u8>, w: u16) {
    w != 0 && (!ValidZone(s, w) || (w < |zones| && zones[w] > 0))
  }

  ghost predicate SlotsCaused(s: Super, zones: seq<u8>, a: seq<u16>, b: seq<u16>) {
    |a| == |b| && forall k :: 0 <= k < |a| ==> a[k] == b[k] || (a[k] == 0 && Faulty(s, zones, b[k]))
  }

  ghost predicate WordsCaused(s: Super, zones: seq<u8>, a: seq<u16>, b: seq<u16>) {
    && |a| == |b|
    && forall k :: 0 <= k < |a| ==> a[k] == b[k] || (a[k] == 0 && (Faulty(s, zones, b[k]) || b[k] > s.ninodes))
  }

  /** `f` is what a repair has made of `s`, with these zones counted by now. */
  ghost predicate Fixed(f: Fs, s: Fs, zones: seq<u8>) {
    && Later(f, s)
    && (forall i :: 0 <= i < |f.inodes| ==> SlotsCaused(s.super, zones, f.inodes[i].zone, s.inodes[i].zone))
    && (forall b :: 0 <= b < |f.disk| ==> WordsCaused(s.super, zones, f.disk[b], s.disk[b]))
  }

  lemma FixedTwice(a: Fs, za: seq<u8>, b: Fs, zb: seq<u8>, c: Fs)
    requires Fixed(a, b, za) && Fixed(b, c, zb) && Grown(zb, za)
    ensures Fixed(a, c, za)
  {
    LaterTwice(a, b, c);
    forall i | 0 <= i < |a.inodes|
      ensures SlotsCaused(c.super, za, a.inodes[i].zone, c.inodes[i].zone)
    {
      assert SlotsCaused(b.super, za, a.inodes[i].zone, b.inodes[i].zone);
      assert SlotsCaused(c.super, zb, b.inodes[i].zone, c.inodes[i].zone);
    }
    forall k | 0 <= k < |a.disk|
      ensures WordsCaused(c.super, za, a.disk[k], c.disk[k])
    {
      assert WordsCaused(b.super, za, a.disk[k], b.disk[k]) && WordsCaused(c.super, zb, b.disk[k], c.disk[k]);
    }
  }

  lemma FixedIsLater(f: Fs, s: Fs, zones: seq<u8>)
    requires Fixed(f, s, zones)
    ensures Later(f, s)
  {
  }

  /** Only the maps have changed. */
  lemma FixedMaps(f: Fs, s: Fs, zones: seq<u8>)
    requires f == s.(inodeMap := f.inodeMap, zoneMap := f.zoneMap)
    ensures Fixed(f, s, zones)
  {
  }

  /** A block is overwritten with less. */
  lemma WriteFixed(f: Fs, zones: seq<u8>, b: nat, blk: Block)
    requires b < |f.disk| && WordsCaused(f.super, zones, blk, f.disk[b])
    ensures Fixed(f.(disk := f.disk[b := blk]), f, zones)
  {
  }

  /** A slot of an inode is cleared. */
  lemma ClearFixed(f: Fs, zones: seq<u8>, ino: nat, k: nat)
    requires ino < |f.inodes| && k < 9 && Faulty(f.super, zones, f.inodes[ino].zone[k])
    ensures Fixed(f.(inodes := f.inodes[ino := f.inodes[ino].(zone := f.inodes[ino].zone[k := 0])]), f, zones)
  {
  }

  // ---------- Entries ----------

  const BEYOND := 519 + 512 * 512

  /** The block in which check_file() looks for block `k` of a file: 0 for a hole or a
      fault, and past the double indirect range block 1. */
  ghost function LookedAt(f: Fs, inode: Inode, k: nat): (z: nat)
    requires Sized(f)
    ensures z < |f.disk|
  {
    ZoneOfInRange(f, inode, k);
    if k >= BEYOND then 1 else if ZoneOf(f, inode, k).Some? then ZoneOf(f, inode, k).value else 0
  }

  /** The inode number in the entry at `offset` of a directory; 0 if it cannot be read. */
  ghost function EntryNames(f: Fs, dir: nat, offset: nat): u16
    requires Sized(f) && 0 < dir <= f.super.ninodes && offset % 16 == 0
  {
    EntryInBlock(offset);
    var z := LookedAt(f, f.inodes[dir], offset / 1024);
    if z == 0 || !Readable(f, z) then 0 else f.disk[z][offset % 1024 / 2]
  }

  /** What a block lookup finds later, it found before. */
  lemma ZoneBefore(f: Fs, s: Fs, ino: nat, k: nat)
    requires Sized(f) && Sized(s) && Later(f, s) && ino <= f.super.ninodes && k < BEYOND
    requires ZoneOf(f, f.inodes[ino], k).Some? && ZoneOf(f, f.inodes[ino], k).value != 0
    ensures ZoneOf(s, s.inodes[ino], k) == ZoneOf(f, f.inodes[ino], k)
  {
    var a, b := f.inodes[ino], s.inodes[ino];
    assert LaterInode(a, b);
    if k >= 7 {
      if k < 519 {
        ThroughBefore(f, s, a.zone[7], b.zone[7], k - 7);
      } else {
        var r, w := (k - 519) / 512, (k - 519) % 512;
        DoubleBefore(f, s, a.zone[8], b.zone[8], r, w);
      }
    }
  }

  /** A word that is not 0 in an indirect block stood there before. */
  lemma ThroughBefore(f: Fs, s: Fs, x: u16, y: u16, w: nat)
    requires Sized(f) && Sized(s) && Later(f, s) && (x == y || x == 0) && w < 512
    requires SlotZone(f, x).Some? && x < |f.disk| && Content(f, x)[w] != 0
    ensures x == y && x != 0 && Content(s, y)[w] == Content(f, x)[w]
  {
    assert Less(f.disk[x], s.disk[x]);
  }

  lemma DoubleBefore(f: Fs, s: Fs, x: u16, y: u16, r: nat, w: nat)
    requires Sized(f) && Sized(s) && Later(f, s) && (x == y || x == 0) && w < 512 && r < 512
    requires SlotZone(f, x).Some? && x < |f.disk|
    requires var ind := Content(f, x)[r]; SlotZone(f, ind).Some? && ind < |f.disk| && Content(f, ind)[w] != 0
    ensures x == y && x != 0 && Content(s, y)[r] == Content(f, x)[r] != 0
    ensures var ind := Content(f, x)[r]; Content(s, ind)[w] == Content(f, ind)[w]
  {
    var ind := Content(f, x)[r];
    assert ind != 0;
    ThroughBefore(f, s, x, y, r);
    ThroughBefore(f, s, ind, ind, w);
  }

  lemma NamedBefore(f: Fs, s: Fs, dir: nat, offset: nat)
    requires Sized(f) && Sized(s) && Later(f, s) && 0 < dir <= f.super.ninodes && offset % 16 == 0
    requires EntryNames(f, dir, offset) != 0
    ensures EntryNames(s, dir, offset) == EntryNames(f, dir, offset)
  {
    EntryInBlock(offset);
    var k := offset / 1024;
    var z := LookedAt(f, f.inodes[dir], k);
    if k < BEYOND {
      ZoneBefore(f, s, dir, k);
    }
    assert Less(f.disk[z], s.disk[z]);
  }

  // ---------- How often the entries of a tree name each inode ----------

  /** The inodes named by the entry at `offset` of a directory and by all below it, with
      `left` levels to go down. */
  ghost function FileNames(f: Fs, dir: nat, offset: nat, left: nat): multiset<nat>
    requires Sized(f) && 0 < dir <= f.super.ninodes && offset % 16 == 0
    decreases left, 0, 1
  {
    NameNames(f, EntryNames(f, dir, offset), offset, left)
  }

  /** The same for an entry with inode number `ino`; "." and ".." lead nowhere. */
  ghost function NameNames(f: Fs, ino: nat, offset: nat, left: nat): multiset<nat>
    requires Sized(f)
    decreases left, 0, 0
  {
    if left == 0 || ino == 0 || ino > f.super.ninodes then multiset{}
    else if offset == 0 || offset == f.dirsize || !IsDir(f.inodes[ino].mode) then multiset{ino}
    else multiset{ino} + DirNames(f, ino, left - 1)
  }

  /** All entries of a directory; without a valid first zone it is not looked into. */
  ghost function DirNames(f: Fs, ino: nat, left: nat): multiset<nat>
    requires Sized(f) && 0 < ino <= f.super.ninodes
    decreases left, 2, 0
  {
    if f.inodes[ino].zone[0] == 0 || !ValidZone(f.super, f.inodes[ino].zone[0]) then multiset{}
    else NamesUpTo(f, ino, 0, f.inodes[ino].size, left)
  }

  ghost function NamesUpTo(f: Fs, ino: nat, from: nat, upTo: nat, left: nat): multiset<nat>
    requires Sized(f) && 0 < ino <= f.super.ninodes && from % 16 == 0
    decreases left, 1, upTo - from
  {
    assert f.dirsize % 16 == 0 && f.dirsize > 0;
    if from >= upTo then multiset{}
    else FileNames(f, ino, from, left) + NamesUpTo(f, ino, from + f.dirsize, upTo, left)
  }

  // A repair takes names away and adds none.

  lemma {:induction false} FewerInFile(f: Fs, s: Fs, dir: nat, offset: nat, left: nat)
    requires Sized(f) && Sized(s) && Later(f, s) && 0 < dir <= s.super.ninodes && offset % 16 == 0
    ensures FileNames(f, dir, offset, left) <= FileNames(s, dir, offset, left)
    decreases left, 0, 1
  {
    if EntryNames(f, dir, offset) != 0 {
      NamedBefore(f, s, dir, offset);
      FewerInName(f, s, EntryNames(f, dir, offset), offset, left);
    }
  }

  lemma {:induction false} FewerInName(f: Fs, s: Fs, ino: nat, offset: nat, left: nat)
    requires Sized(f) && Sized(s) && Later(f, s)
    ensures NameNames(f, ino, offset, left) <= NameNames(s, ino, offset, left)
    decreases left, 0, 0
  {
    if left > 0 && 0 < ino <= f.super.ninodes {
      assert LaterInode(f.inodes[ino], s.inodes[ino]);
      FewerInDir(f, s, ino, left - 1);
    }
  }

  lemma {:induction false} FewerInDir(f: Fs, s: Fs, ino: nat, left: nat)
    requires Sized(f) && Sized(s) && Later(f, s) && 0 < ino <= s.super.ninodes
    ensures DirNames(f, ino, left) <= DirNames(s, ino, left)
    decreases left, 2, 0
  {
    assert LaterInode(f.inodes[ino], s.inodes[ino]);
    FewerUpTo(f, s, ino, 0, f.inodes[ino].size, left);
  }

  lemma {:induction false} FewerUpTo(f: Fs, s: Fs, ino: nat, from: nat, upTo: nat, left: nat)
    requires Sized(f) && Sized(s) && Later(f, s) && 0 < ino <= s.super.ninodes && from % 16 == 0
    ensures NamesUpTo(f, ino, from, upTo, left) <= NamesUpTo(s, ino, from, upTo, left)
    decreases left, 1, upTo - from
  {
    hide FileNames, LaterInode, Less, AcceptedSuper;
    if from < upTo {
      assert s.dirsize % 16 == 0 && s.dirsize > 0;
      FewerInFile(f, s, ino, from, left);
      FewerUpTo(f, s, ino, from + s.dirsize, upTo, left);
    }
  }

  /** `upTo` is reached from `from` in whole steps. */
  ghost predicate Steps(step: nat, from: nat, upTo: nat)
    decreases upTo - from
  {
    from == upTo || (0 < step && from < upTo && Steps(step, from + step, upTo))
  }

  lemma {:induction false} OneStepMore(step: nat, from: nat, upTo: nat)
    requires step > 0 && Steps(step, from, upTo)
    ensures Steps(step, from, upTo + step)
    decreases upTo - from
  {
    if from < upTo {
      OneStepMore(step, from + step, upTo);
    } else {
      assert Steps(step, from + step, upTo + step);
    }
  }

  lemma {:induction false} OneEntryMore(f: Fs, ino: nat, from: nat, upTo: nat, left: nat)
    requires Sized(f) && 0 < ino <= f.super.ninodes
    requires from % 16 == 0 && upTo % 16 == 0 && Steps(f.dirsize, from, upTo)
    ensures NamesUpTo(f, ino, from, upTo + f.dirsize, left)
      == NamesUpTo(f, ino, from, upTo, left) + FileNames(f, ino, upTo, left)
    decreases upTo - from
  {
    hide FileNames, AcceptedSuper;
    assert f.dirsize % 16 == 0 && f.dirsize > 0;
    if from < upTo {
      OneEntryMore(f, ino, from + f.dirsize, upTo, left);
    } else {
      assert NamesUpTo(f, ino, from + f.dirsize, upTo + f.dirsize, left) == multiset{};
    }
  }

  /** The last entry reaches to the end of the directory or beyond it. */
  lemma {:induction false} UpToTheEnd(f: Fs, ino: nat, from: nat, size: nat, upTo: nat, left: nat)
    requires Sized(f) && 0 < ino <= f.super.ninodes && from % 16 == 0 && Steps(f.dirsize, from, upTo)
    requires size <= upTo && (from < upTo ==> upTo < size + f.dirsize)
    ensures NamesUpTo(f, ino, from, upTo, left) == NamesUpTo(f, ino, from, size, left)
    decreases upTo - from
  {
    hide FileNames, AcceptedSuper;
    if from < upTo {
      assert f.dirsize % 16 == 0 && f.dirsize > 0;
      assert from < size by {
        StepsApart(f.dirsize, from, upTo);
      }
      UpToTheEnd(f, ino, from + f.dirsize, size, upTo, left);
    }
  }

  lemma {:induction false} StepsApart(step: nat, from: nat, upTo: nat)
    requires Steps(step, from, upTo) && from < upTo
    ensures from + step <= upTo
    decreases upTo - from
  {
  }

  /** From directory `dir`, taking one entry after the other, `path` leads to `ino`. */
  ghost predicate Leads(f: Fs, dir: nat, path: seq<nat>, ino: nat)
    requires Sized(f) && 0 < dir <= f.super.ninodes
    decreases |path|
  {
    && |path| > 0 && f.inodes[dir].zone[0] != 0 && ValidZone(f.super, f.inodes[dir].zone[0])
    && path[0] < f.inodes[dir].size && path[0] % 16 == 0 && Steps(f.dirsize, 0, path[0])
    && var n := EntryNames(f, dir, path[0]);
       && 0 < n <= f.super.ninodes
       && if |path| == 1 then n == ino
          else path[0] != 0 && path[0] != f.dirsize && IsDir(f.inodes[n].mode) && Leads(f, n, path[1..], ino)
  }

  lemma {:induction false} EntryInDir(f: Fs, ino: nat, from: nat, offset: nat, upTo: nat, left: nat)
    requires Sized(f) && 0 < ino <= f.super.ninodes
    requires from % 16 == 0 && offset % 16 == 0 && offset < upTo && Steps(f.dirsize, from, offset)
    ensures FileNames(f, ino, offset, left) <= NamesUpTo(f, ino, from, upTo, left)
    decreases offset - from
  {
    hide FileNames, AcceptedSuper;
    assert f.dirsize % 16 == 0 && f.dirsize > 0;
    if from < offset {
      EntryInDir(f, ino, from + f.dirsize, offset, upTo, left);
    }
  }

  /** What a path leads to is named. */
  lemma {:induction false} PathNames(f: Fs, dir: nat, path: seq<nat>, ino: nat, left: nat)
    requires Sized(f) && 0 < dir <= f.super.ninodes && Leads(f, dir, path, ino) && |path| <= left
    ensures 0 < ino <= f.super.ninodes && ino in DirNames(f, dir, left)
    decreases |path|
  {
    EntryInDir(f, dir, 0, path[0], f.inodes[dir].size, left);
    var n := EntryNames(f, dir, path[0]);
    if |path| > 1 {
      PathNames(f, n, path[1..], ino, left - 1);
    }
    assert ino in FileNames(f, dir, path[0], left);
  }

  /** Every inode to which a path of at most `limit` entries leads from the root is marked. */
  ghost predicate ReachedMarked(f: Fs, limit: nat)
    requires Sized(f)
  {
    forall path: seq<nat>, i: nat :: |path| <= limit && Leads(f, ROOT_INO, path, i) ==>
      0 < i <= f.super.ninodes && f.inodeMap[i]
  }

  // ---------- Counting them ----------

  ghost function Cap(n: nat): nat {
    if n > 255 then 255 else n
  }

  /** From `a` to `b` the counters took up at least `names`; they end at 255. */
  ghost predicate AtLeast(a: seq<u8>, names: multiset<nat>, b: seq<u8>) {
    |a| == |b| && forall i :: 0 < i < |a| ==> Cap(a[i] as nat + names[i]) <= b[i] as nat
  }

  ghost predicate AtMost(a: seq<u8>, names: multiset<nat>, b: seq<u8>) {
    |a| == |b| && forall i :: 0 < i < |a| ==> b[i] as nat <= a[i] as nat + names[i]
  }

  /** At least `low`, and, unless there are uncorrected errors, at most `high`. */
  ghost predicate Took(a: seq<u8>, low: multiset<nat>, high: multiset<nat>, b: seq<u8>, errors: bool) {
    AtLeast(a, low, b) && (errors || AtMost(a, high, b))
  }

  lemma TookNothing(a: seq<u8>, high: multiset<nat>, errors: bool)
    ensures Took(a, multiset{}, high, a, errors)
  {
  }

  lemma TookTwice(a: seq<u8>, l: multiset<nat>, h: multiset<nat>, b: seq<u8>, e: bool,
                  m: multiset<nat>, i: multiset<nat>, c: seq<u8>, f: bool)
    requires Took(a, l, h, b, e) && Took(b, m, i, c, f) && (e ==> f)
    ensures Took(a, l + m, h + i, c, f)
  {
  }

  lemma TookWiden(a: seq<u8>, l: multiset<nat>, h: multiset<nat>, b: seq<u8>, e: bool,
                  m: multiset<nat>, i: multiset<nat>)
    requires Took(a, l, h, b, e) && m <= l && h <= i
    ensures Took(a, m, i, b, e)
  {
  }

  /** The walk has come past one more entry of a directory: it was at `s` when the
      directory began, at `f` when the entry began, and is at `g` now. */
  lemma EntryTaken(s: Fs, f: Fs, g: Fs, ino: nat, offset: nat, left: nat,
                   a: seq<u8>, b: seq<u8>, e: bool, c: seq<u8>, e1: bool)
    requires Sized(s) && Sized(f) && Sized(g) && Later(f, s) && Later(g, f) && (e ==> e1)
    requires 0 < ino <= s.super.ninodes && offset % 16 == 0 && Steps(s.dirsize, 0, offset)
    requires Took(a, NamesUpTo(f, ino, 0, offset, left), NamesUpTo(s, ino, 0, offset, left), b, e)
    requires Took(b, FileNames(g, ino, offset, left), FileNames(f, ino, offset, left), c, e1)
    ensures var next := offset + s.dirsize;
      Took(a, NamesUpTo(g, ino, 0, next, left), NamesUpTo(s, ino, 0, next, left), c, e1)
  {
    hide Took, FileNames, NamesUpTo, AcceptedSuper, LaterInode, Less;
    var u, v := NamesUpTo(f, ino, 0, offset, left), NamesUpTo(s, ino, 0, offset, left);
    TookTwice(a, u, v, b, e, FileNames(g, ino, offset, left), FileNames(f, ino, offset, left), c, e1);
    FewerUpTo(g, f, ino, 0, offset, left);
    FewerInFile(f, s, ino, offset, left);
    OneEntryMore(g, ino, 0, offset, left);
    OneEntryMore(s, ino, 0, offset, left);
    TookWiden(a, u + FileNames(g, ino, offset, left), v + FileNames(f, ino, offset, left), c, e1,
              NamesUpTo(g, ino, 0, offset + s.dirsize, left), NamesUpTo(s, ino, 0, offset + s.dirsize, left));
  }

  /** The walk has come to the end of a directory. */
  lemma DirTaken(s: Fs, f: Fs, ino: nat, offset: nat, left: nat, a: seq<u8>, b: seq<u8>, e: bool)
    requires Sized(s) && Sized(f) && Later(f, s) && 0 < ino <= s.super.ninodes
    requires ValidZone(s.super, s.inodes[ino].zone[0]) && (s.super.firstZone == 0 ==> e)
    requires Steps(s.dirsize, 0, offset) && s.inodes[ino].size <= offset
    requires 0 < offset ==> offset < s.inodes[ino].size + s.dirsize
    requires Took(a, NamesUpTo(f, ino, 0, offset, left), NamesUpTo(s, ino, 0, offset, left), b, e)
    ensures Took(a, DirNames(f, ino, left), DirNames(s, ino, left), b, e)
  {
    var size := s.inodes[ino].size;
    assert LaterInode(f.inodes[ino], s.inodes[ino]);
    UpToTheEnd(f, ino, 0, size, offset, left);
    UpToTheEnd(s, ino, 0, size, offset, left);
    assert DirNames(f, ino, left) <= NamesUpTo(f, ino, 0, offset, left);
    assert e || DirNames(s, ino, left) == NamesUpTo(s, ino, 0, offset, left);
  }

  lemma TookOne(a: seq<u8>, ino: nat, b: seq<u8>, e: bool)
    requires 0 < ino < |a| && b == a[ino := Cap(a[ino] as nat + 1)]
    ensures Took(a, multiset{ino}, multiset{ino}, b, e)
  {
  }

  /** The directory that an entry names, if it is one. */
  ghost function Below(f: Fs, ino: nat, left: nat): multiset<nat>
    requires Sized(f) && 0 < ino <= f.super.ninodes
  {
    if IsDir(f.inodes[ino].mode) then DirNames(f, ino, left) else multiset{}
  }

  /** An entry with inode number `ino` has been taken: its inode, and then what is below. */
  lemma NameTaken(s: Fs, f: Fs, g: Fs, ino: nat, offset: nat, left: nat, a: seq<u8>, b: seq<u8>, c: seq<u8>, e: bool)
    requires Sized(s) && Sized(f) && Sized(g) && Later(f, s) && Later(g, f) && left > 0 && 0 < ino <= s.super.ninodes
    requires |a| == s.super.ninodes + 1 && b == a[ino := Cap(a[ino] as nat + 1)]
    requires offset == 0 || offset == s.dirsize ==> e
    requires Took(b, Below(g, ino, left - 1), Below(f, ino, left - 1), c, e)
    ensures Took(a, NameNames(g, ino, offset, left), NameNames(s, ino, offset, left), c, e)
  {
    TookOne(a, ino, b, e);
    var m, n := multiset{ino} + Below(g, ino, left - 1), multiset{ino} + Below(f, ino, left - 1);
    assert NameNames(g, ino, offset, left) <= m;
    assert e || n <= NameNames(s, ino, offset, left) by {
      assert LaterInode(f.inodes[ino], s.inodes[ino]);
      FewerInDir(f, s, ino, left - 1);
    }
    hide Below, NameNames, Took;
    TookTwice(a, multiset{ino}, multiset{ino}, b, e, Below(g, ino, left - 1), Below(f, ino, left - 1), c, e);
    if e {
      TookWiden(a, m, n, c, e, NameNames(g, ino, offset, left), n);
      TookLoose(a, NameNames(g, ino, offset, left), n, NameNames(s, ino, offset, left), c);
    } else {
      TookWiden(a, m, n, c, e, NameNames(g, ino, offset, left), NameNames(s, ino, offset, left));
    }
  }

  lemma TookLoose(a: seq<u8>, l: multiset<nat>, h: multiset<nat>, i: multiset<nat>, b: seq<u8>)
    requires Took(a, l, h, b, true)
    ensures Took(a, l, i, b, true)
  {
  }

  /** "." and "..": only the inode. */
  lemma DotTaken(s: Fs, g: Fs, ino: nat, offset: nat, left: nat, a: seq<u8>, b: seq<u8>, e: bool)
    requires Sized(s) && Sized(g) && Later(g, s) && left > 0 && 0 < ino <= s.super.ninodes
    requires |a| == s.super.ninodes + 1 && b == a[ino := Cap(a[ino] as nat + 1)] && (offset == 0 || offset == s.dirsize)
    ensures Took(a, NameNames(g, ino, offset, left), NameNames(s, ino, offset, left), b, e)
  {
  }

  // ---------- Every zone that a file still names has been counted ----------

  ghost predicate Hit(s: Super, zones: seq<u8>, w: u16) {
    w != 0 && ValidZone(s, w) ==> w < |zones| && zones[w] > 0
  }

  ghost predicate AllHit(s: Super, zones: seq<u8>, ws: seq<u16>, n: nat)
    requires n <= |ws|
  {
    forall k :: 0 <= k < n ==> Hit(s, zones, ws[k])
  }

  /** An indirect block and the zones that it lists. */
  ghost predicate IndHit(f: Fs, zones: seq<u8>, w: u16)
    requires Sized(f)
  {
    w != 0 && ValidZone(f.super, w) ==> Hit(f.super, zones, w) && AllHit(f.super, zones, f.disk[w], |f.disk[w]|)
  }

  ghost predicate AllIndHit(f: Fs, zones: seq<u8>, ws: seq<u16>, n: nat)
    requires Sized(f) && n <= |ws|
  {
    forall k :: 0 <= k < n ==> IndHit(f, zones, ws[k])
  }

  ghost predicate DindHit(f: Fs, zones: seq<u8>, w: u16)
    requires Sized(f)
  {
    w != 0 && ValidZone(f.super, w) ==> Hit(f.super, zones, w) && AllIndHit(f, zones, f.disk[w], |f.disk[w]|)
  }

  /** All zones of a file that are zones at all. */
  ghost predicate ZonesHit(f: Fs, zones: seq<u8>, inode: Inode)
    requires Sized(f)
  {
    && AllHit(f.super, zones, inode.zone, |inode.zone| - 2)
    && IndHit(f, zones, inode.zone[7]) && DindHit(f, zones, inode.zone[8])
  }

  lemma AllHitStays(s: Super, a: seq<u8>, b: seq<u8>, xs: seq<u16>, ys: seq<u16>, n: nat)
    requires Grown(a, b) && Less(xs, ys) && n <= |ys| && AllHit(s, a, ys, n)
    ensures AllHit(s, b, xs, n)
  {
    forall k | 0 <= k < n
      ensures Hit(s, b, xs[k])
    {
      assert Hit(s, a, ys[k]);
    }
  }

  lemma IndHitStays(f: Fs, s: Fs, a: seq<u8>, b: seq<u8>, x: u16, y: u16)
    requires Sized(f) && Sized(s) && Later(f, s) && Grown(a, b) && (x == y || x == 0) && IndHit(s, a, y)
    ensures IndHit(f, b, x)
  {
    if x != 0 && ValidZone(f.super, x) {
      AllHitStays(f.super, a, b, f.disk[x], s.disk[x], |f.disk[x]|);
    }
  }

  lemma AllIndHitStays(f: Fs, s: Fs, a: seq<u8>, b: seq<u8>, xs: seq<u16>, ys: seq<u16>, n: nat)
    requires Sized(f) && Sized(s) && Later(f, s) && Grown(a, b) && Less(xs, ys) && n <= |ys| && AllIndHit(s, a, ys, n)
    ensures AllIndHit(f, b, xs, n)
  {
    forall k | 0 <= k < n
      ensures IndHit(f, b, xs[k])
    {
      assert IndHit(s, a, ys[k]);
      IndHitStays(f, s, a, b, xs[k], ys[k]);
    }
  }

  lemma DindHitStays(f: Fs, s: Fs, a: seq<u8>, b: seq<u8>, x: u16, y: u16)
    requires Sized(f) && Sized(s) && Later(f, s) && Grown(a, b) && (x == y || x == 0) && DindHit(s, a, y)
    ensures DindHit(f, b, x)
  {
    if x != 0 && ValidZone(f.super, x) {
      AllIndHitStays(f, s, a, b, f.disk[x], s.disk[x], |f.disk[x]|);
    }
  }

  lemma ZonesHitStays(f: Fs, s: Fs, a: seq<u8>, b: seq<u8>, ino: nat)
    requires Sized(f) && Sized(s) && Later(f, s) && Grown(a, b) && ino <= s.super.ninodes
    requires ZonesHit(s, a, s.inodes[ino])
    ensures ZonesHit(f, b, f.inodes[ino])
  {
    var x, y := f.inodes[ino], s.inodes[ino];
    assert LaterInode(x, y);
    AllHitStays(s.super, a, b, x.zone, y.zone, |y.zone| - 2);
    IndHitStays(f, s, a, b, x.zone[7], y.zone[7]);
    DindHitStays(f, s, a, b, x.zone[8], y.zone[8]);
  }

  lemma OneMoreHit(f: Fs, s: Fs, a: seq<u8>, b: seq<u8>, xs: seq<u16>, ys: seq<u16>, n: nat)
    requires Sized(f) && Sized(s) && Later(f, s) && Grown(a, b) && n < |xs| == |ys| && AllIndHit(s, a, ys, n)
    requires (forall k :: 0 <= k < n ==> xs[k] == ys[k]) && IndHit(f, b, xs[n])
    ensures AllIndHit(f, b, xs, n + 1)
  {
    forall k | 0 <= k < n
      ensures IndHit(f, b, xs[k])
    {
      assert IndHit(s, a, ys[k]);
      IndHitStays(f, s, a, b, xs[k], ys[k]);
    }
  }

  /** Blocks that were counted before have not been written. */
  ghost predicate CountedKept(zones: seq<u8>, a: seq<Block>, b: seq<Block>) {
    |a| == |b| && forall k :: 0 <= k < |zones| && k < |a| && zones[k] > 0 ==> a[k] == b[k]
  }

  lemma KeptTwice(x: seq<u8>, y: seq<u8>, a: seq<Block>, b: seq<Block>, c: seq<Block>)
    requires CountedKept(x, a, b) && CountedKept(y, b, c) && Grown(x, y)
    ensures CountedKept(x, a, c)
  {
  }

  // ---------- Nothing else has been counted ----------

  /** Some directory entry names inode `i`. */
  ghost predicate IsNamed(f: Fs, i: nat)
    requires Sized(f)
  {
    exists d: nat, o: nat :: 0 < d <= f.super.ninodes && o % 16 == 0 && EntryNames(f, d, o) == i
  }

  /** The first or second entry of some inode, "." or "..", names inode `i`. */
  ghost predicate DotNamed(f: Fs, i: nat)
    requires Sized(f)
  {
    exists d: nat, o: nat :: 0 < d <= f.super.ninodes && o % 16 == 0 && (o == 0 || o == f.dirsize)
      && EntryNames(f, d, o) == i
  }

  // ---------- The whole walk ----------

  /** How far the walk has come. The zones of `zoned` were counted; `dotted` were named
      by "." or ".." before that. */
  datatype Walk = Walk(fs: Fs, inos: seq<u8>, zones: seq<u8>, zoned: set<nat>, dotted: set<nat>)

  ghost predicate Onward(a: Walk, b: Walk) {
    && Fixed(b.fs, a.fs, b.zones) && Grown(a.inos, b.inos) && Grown(a.zones, b.zones)
    && a.zoned <= b.zoned && a.dotted <= b.dotted
  }

  lemma OnwardLater(a: Walk, b: Walk)
    requires Onward(a, b)
    ensures Later(b.fs, a.fs)
  {
  }

  lemma Staying(w: Walk)
    ensures Onward(w, w)
  {
    FixedMaps(w.fs, w.fs, w.zones);
  }

  lemma OnwardTwice(a: Walk, b: Walk, c: Walk)
    requires Onward(a, b) && Onward(b, c)
    ensures Onward(a, c)
  {
    FixedTwice(c.fs, c.zones, b.fs, b.zones, a.fs);
  }

  ghost predicate Fits(w: Walk) {
    Sized(w.fs) && |w.inos| == w.fs.super.ninodes + 1
  }

  /** What is true at every point of a repair that began at `origin`. */
  ghost predicate Settled(w: Walk, origin: Fs, errors: bool)
    requires Fits(w)
  {
    && Sized(origin) && Fixed(w.fs, origin, w.zones)
    && (errors || forall i :: i in w.zoned ==> ZonedAt(w, i))
    && (forall i :: i in w.dotted ==> DotNamed(origin, i))
    && (forall i :: 0 < i <= w.fs.super.ninodes && w.inos[i] > 0 ==> IsNamed(origin, i))
  }

  ghost predicate ZonedAt(w: Walk, i: nat)
    requires Sized(w.fs)
  {
    0 < i <= w.fs.super.ninodes && ZonesHit(w.fs, w.zones, w.fs.inodes[i])
  }

  /** The zones of inode `i` were counted, or it was first named by "." or "..". */
  ghost predicate NotedAt(w: Walk, i: nat)
    requires Fits(w) && 0 < i <= w.fs.super.ninodes
  {
    i in w.zoned || i in w.dotted || !HasZones(w.fs.inodes[i].mode)
  }

  /** That is so for all inodes that were counted, `but` one. */
  ghost predicate Noted(w: Walk, but: nat)
    requires Fits(w)
  {
    forall i :: 0 < i <= w.fs.super.ninodes && i != but && w.inos[i] > 0 ==> NotedAt(w, i)
  }

  lemma SettledStays(a: Walk, b: Walk, origin: Fs, ea: bool, eb: bool)
    requires Fits(a) && Fits(b) && Settled(a, origin, ea) && Onward(a, b) && (ea ==> eb)
    requires eb || forall i :: i in b.zoned && i !in a.zoned ==> ZonedAt(b, i)
    requires forall i :: i in b.dotted && i !in a.dotted ==> DotNamed(origin, i)
    requires forall i :: 0 < i <= b.fs.super.ninodes && b.inos[i] > 0 && a.inos[i] == 0 ==> IsNamed(origin, i)
    ensures Settled(b, origin, eb)
  {
    FixedTwice(b.fs, b.zones, a.fs, a.zones, origin);
    if !eb {
      forall i | i in b.zoned
        ensures ZonedAt(b, i)
      {
        if i in a.zoned {
          assert ZonedAt(a, i);
          ZonesHitStays(b.fs, a.fs, a.zones, b.zones, i);
        }
      }
    }
  }

  lemma NotedAtStays(a: Walk, b: Walk, i: nat)
    requires Fits(a) && Fits(b) && Onward(a, b) && 0 < i <= a.fs.super.ninodes && NotedAt(a, i)
    ensures NotedAt(b, i)
  {
    assert LaterInode(b.fs.inodes[i], a.fs.inodes[i]);
  }

  lemma NotedStays(a: Walk, b: Walk, x: nat, y: nat)
    requires Fits(a) && Fits(b) && Onward(a, b) && Noted(a, x)
    requires forall i :: 0 < i <= b.fs.super.ninodes && i != y && b.inos[i] > 0 && (a.inos[i] == 0 || i == x) ==>
      NotedAt(b, i)
    ensures Noted(b, y)
  {
    forall i | 0 < i <= b.fs.super.ninodes && i != y && b.inos[i] > 0
      ensures NotedAt(b, i)
    {
      if a.inos[i] > 0 && i != x {
        NotedAtStays(a, b, i);
      }
    }
  }

  /** An entry that can still be read is the one that was read. */
  lemma StillNamed(f: Fs, s: Fs, dir: nat, offset: nat, left: nat)
    requires Sized(f) && Sized(s) && Later(f, s) && 0 < dir <= f.super.ninodes && offset % 16 == 0
    ensures FileNames(f, dir, offset, left) <= NameNames(f, EntryNames(s, dir, offset), offset, left)
  {
    if EntryNames(f, dir, offset) != 0 {
      NamedBefore(f, s, dir, offset);
    }
  }

  /** What a check has read of an entry is what the file system says there. */
  lemma EntryWas(was: Fs, read: Fs, block: nat, blk: Block, dir: nat, offset: nat)
    requires Sized(was) && Sized(read) && Later(read, was) && 0 < dir <= was.super.ninodes && offset % 16 == 0
    requires block == LookedAt(was, was.inodes[dir], offset / 1024)
    requires ZoneOf(was, was.inodes[dir], offset / 1024).Some? ==> read == was
    requires blk == if Readable(read, block) then Content(read, block) else ZeroBlock()
    ensures offset % 1024 / 2 < 512 && EntryNames(read, dir, offset) == blk[offset % 1024 / 2]
  {
    EntryInBlock(offset);
    if block == 0 && EntryNames(read, dir, offset) != 0 {
      NamedBefore(read, was, dir, offset);
    }
  }
}
