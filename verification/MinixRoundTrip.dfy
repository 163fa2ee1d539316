/** What mkfs.minix writes, as fsck.minix sees it: the file of bad zones reads back
    as the list of bad zones, and the whole file system is consistent. */
module MinixRoundTrip {
  import opened Common
  import opened MinixFormat
  import opened MinixMkfs
  import opened MinixConsistency
  import MinixCheck
  import MinixLayout

  /** The file system on the device after mkfs. */
  ghost function Image(t: Tables, unreadable: set<nat>): Fs {
    Fs(t.super, t.dirsize, unreadable, t.inodes, t.inodeMap, t.zoneMap, t.disk)
  }

  /** mkfs was told of every zone that cannot be read. */
  ghost predicate Covers(s: Super, bad: seq<u16>, unreadable: set<nat>) {
    forall z :: z in unreadable && ValidZone(s, z) ==> z in bad
  }

  // ---------- The bad inode ----------

  /** The helper blocks can be read. */
  lemma HelperReadable(t: Tables, good: seq<u16>, bad: seq<u16>, unreadable: set<nat>, i: nat)
    requires BuiltFrom(t, good, bad) && Covers(t.super, bad, unreadable) && i < |good|
    ensures good[i] > 0 && Readable(Image(t, unreadable), good[i])
    ensures SlotZone(Image(t, unreadable), good[i]) == Some(good[i])
  {
  }

  /** A block of the file under the double indirect block. */
  lemma DoubleZone(t: Tables, good: seq<u16>, bad: seq<u16>, unreadable: set<nat>, m: nat, j: nat)
    requires BuiltFrom(t, good, bad) && Covers(t.super, bad, unreadable) && m < Leaves(|bad|) && j < 512
    ensures var fs := Image(t, unreadable);
      && Sized(fs) && m < 512
      && ZoneOf(fs, t.inodes[BAD_INO], 519 + 512 * m + j) == SlotZone(fs, At(bad, 519 + 512 * m + j))
  {
    hide RootBlock, RootInode, FirstZoneData, InodesBuilt;
    var fs := Image(t, unreadable);
    assert ListedIn(t.disk[IndirectBlock(good, m + 1)], bad, 7 + 512 * (m + 1));
    HelperReadable(t, good, bad, unreadable, 2);
    HelperReadable(t, good, bad, unreadable, m + 3);
    assert t.inodes[BAD_INO].zone[8] == good[2] && t.disk[good[2]][m] == good[m + 3];
    SplitOffset(m, j);
  }

  lemma SplitOffset(m: nat, j: nat)
    requires j < 512
    ensures (519 + 512 * m + j - 7 - 512) / 512 == m && (519 + 512 * m + j - 7 - 512) % 512 == j
  {
  }

  /** A block of the file under the indirect block. */
  lemma SingleZone(t: Tables, good: seq<u16>, bad: seq<u16>, unreadable: set<nat>, j: nat)
    requires BuiltFrom(t, good, bad) && Covers(t.super, bad, unreadable) && |bad| > 7 && j < 512
    ensures var fs := Image(t, unreadable);
      Sized(fs) && ZoneOf(fs, t.inodes[BAD_INO], 7 + j) == SlotZone(fs, At(bad, 7 + j))
  {
    assert ListedIn(t.disk[IndirectBlock(good, 0)], bad, 7 + 512 * 0);
    HelperReadable(t, good, bad, unreadable, 1);
  }

  lemma BadSlot(t: Tables, good: seq<u16>, bad: seq<u16>, unreadable: set<nat>, k: nat)
    requires BuiltFrom(t, good, bad)
    ensures SlotZone(Image(t, unreadable), At(bad, k)) == Some(At(bad, k))
  {
  }

  /** map_block() on the bad inode gives bad zone number `k` for block number `k`, and
      a hole past the end. */
  lemma BadZoneOf(t: Tables, good: seq<u16>, bad: seq<u16>, unreadable: set<nat>, k: nat)
    requires BuiltFrom(t, good, bad) && Covers(t.super, bad, unreadable) && k < 519 + 512 * 512
    ensures Sized(Image(t, unreadable))
    ensures ZoneOf(Image(t, unreadable), t.inodes[BAD_INO], k) == Some(At(bad, k))
  {
    if k >= 519 {
      LeafZone(t, good, bad, unreadable, k, (k - 519) / 512, (k - 519) % 512);
    } else {
      ShallowZone(t, good, bad, unreadable, k);
    }
  }

  lemma ShallowZone(t: Tables, good: seq<u16>, bad: seq<u16>, unreadable: set<nat>, k: nat)
    requires BuiltFrom(t, good, bad) && Covers(t.super, bad, unreadable) && k < 519
    ensures Sized(Image(t, unreadable))
    ensures ZoneOf(Image(t, unreadable), t.inodes[BAD_INO], k) == Some(At(bad, k))
  {
    BadSlot(t, good, bad, unreadable, k);
    if k >= 7 && |bad| > 7 {
      SingleZone(t, good, bad, unreadable, k - 7);
    }
  }

  lemma LeafZone(t: Tables, good: seq<u16>, bad: seq<u16>, unreadable: set<nat>, k: nat, m: nat, j: nat)
    requires BuiltFrom(t, good, bad) && Covers(t.super, bad, unreadable) && k == 519 + 512 * m + j && m < 512 && j < 512
    ensures Sized(Image(t, unreadable))
    ensures ZoneOf(Image(t, unreadable), t.inodes[BAD_INO], k) == Some(At(bad, k))
  {
    if m < Leaves(|bad|) {
      BadSlot(t, good, bad, unreadable, k);
      DoubleZone(t, good, bad, unreadable, m, j);
    } else {
      NoLeaf(t, good, bad, unreadable, m, j);
    }
  }

  lemma NoLeaf(t: Tables, good: seq<u16>, bad: seq<u16>, unreadable: set<nat>, m: nat, j: nat)
    requires BuiltFrom(t, good, bad) && Covers(t.super, bad, unreadable) && Leaves(|bad|) <= m < 512 && j < 512
    ensures var fs := Image(t, unreadable);
      Sized(fs) && ZoneOf(fs, t.inodes[BAD_INO], 519 + 512 * m + j) == Some(0) && |bad| <= 519 + 512 * m + j
  {
    SplitOffset(m, j);
    if |bad| > 519 {
      HelperReadable(t, good, bad, unreadable, 2);
      assert t.disk[good[2]][m] == 0;
    }
  }

  // ---------- All zones of the bad inode ----------

  ghost predicate AllPositive(zones: seq<u16>) {
    forall k :: 0 <= k < |zones| ==> zones[k] > 0
  }

  ghost function Clip(p: nat, n: nat): nat {
    if p < n then p else n
  }

  /** The `n` zones from number `p` on, or as many as there are. */
  ghost function Stretch(bad: seq<u16>, p: nat, n: nat): seq<nat> {
    bad[Clip(p, |bad|)..Clip(p + n, |bad|)]
  }

  lemma StretchSplit(bad: seq<u16>, p: nat, a: nat, b: nat)
    ensures Stretch(bad, p, a + b) == Stretch(bad, p, a) + Stretch(bad, p + a, b)
  {
  }

  lemma StretchNone(bad: seq<u16>, p: nat)
    ensures Stretch(bad, p, 0) == []
  {
  }

  lemma StretchOne(bad: seq<u16>, p: nat)
    requires AllPositive(bad)
    ensures Stretch(bad, p, 1) == One(At(bad, p))
  {
    if p < |bad| {
      assert bad[p..p + 1] == [bad[p]];
    }
  }

  lemma {:induction false} NonzeroStretch(s: seq<u16>, bad: seq<u16>, p: nat, n: nat)
    requires n <= |s| && (forall j :: 0 <= j < n ==> s[j] == At(bad, p + j))
    requires AllPositive(bad)
    ensures Nonzero(s, n) == Stretch(bad, p, n)
  {
    hide Stretch, One, At, AllPositive;
    if n == 0 {
      StretchNone(bad, p);
    } else {
      NonzeroStretch(s, bad, p, n - 1);
      StretchSplit(bad, p, n - 1, 1);
      StretchOne(bad, p + (n - 1));
      assert s[n - 1] == At(bad, p + (n - 1));
    }
  }

  /** Block `b` is an indirect block that lists the bad zones from number `p` on. */
  ghost predicate IsIndirect(fs: Fs, bad: seq<u16>, b: u16, p: nat)
    requires Sized(fs)
  {
    b > 0 && ValidZone(fs.super, b) && Readable(fs, b) && ListedIn(fs.disk[b], bad, p)
  }

  /** An indirect block brings itself and its stretch of bad zones. */
  lemma IndirectRefs(fs: Fs, bad: seq<u16>, b: u16, p: nat, w: nat)
    requires Sized(fs) && AllPositive(bad) && IsIndirect(fs, bad, b, p) && w == 512
    ensures IndRefs(fs, b) == Some([b as nat] + Stretch(bad, p, w))
  {
    NonzeroStretch(fs.disk[b], bad, p, w);
  }

  /** `good` from number 3 on are indirect blocks over the bad zones from number 519 on. */
  ghost predicate LeafBlocks(fs: Fs, good: seq<u16>, bad: seq<u16>)
    requires Sized(fs)
  {
    && |good| == 3 + Leaves(|bad|) && |bad| > 519
    && forall m :: 0 <= m < Leaves(|bad|) ==> IsIndirect(fs, bad, good[m + 3], 519 + 512 * m)
  }

  /** What word `n` of the double indirect block brings. */
  lemma WordRefs(fs: Fs, blk: Block, good: seq<u16>, bad: seq<u16>, n: nat, w: nat)
    requires Sized(fs) && AllPositive(bad) && n < w == 512 && Indexes(blk, good) && LeafBlocks(fs, good, bad)
    ensures IndRefs(fs, blk[n]) == Some(Stretch(good, 3 + n, 1) + Stretch(bad, 519 + 512 * n, w))
  {
    assert blk[n] == At(good, n + 3);
    if n < Leaves(|bad|) {
      IndirectRefs(fs, bad, good[n + 3], 519 + 512 * n, w);
      assert Stretch(good, 3 + n, 1) == [good[n + 3] as nat];
    } else {
      assert Stretch(good, 3 + n, 1) + Stretch(bad, 519 + 512 * n, w) == [];
    }
  }

  /** The first `n` helper blocks below the double indirect block, and what they list. */
  ghost function Below(good: seq<u16>, bad: seq<u16>, n: nat): multiset<nat> {
    multiset(Stretch(good, 3, n)) + multiset(Stretch(bad, 519, 512 * n))
  }

  lemma BelowGrows(good: seq<u16>, bad: seq<u16>, n: nat, w: nat)
    requires w == 512
    ensures Below(good, bad, n + 1)
      == Below(good, bad, n) + multiset(Stretch(good, 3 + n, 1) + Stretch(bad, 519 + 512 * n, w))
  {
    hide Stretch;
    StretchSplit(good, 3, n, 1);
    StretchSplit(bad, 519, 512 * n, w);
    assert 512 * n + w == 512 * (n + 1);
  }

  ghost predicate HasBelow(good: seq<u16>, bad: seq<u16>, n: nat, r: Option<seq<nat>>) {
    r.Some? && multiset(r.value) == Below(good, bad, n)
  }

  lemma BelowStep(good: seq<u16>, bad: seq<u16>, n: nat, w: nat, r: Option<seq<nat>>, more: Option<seq<nat>>)
    requires w == 512 && HasBelow(good, bad, n, r)
    requires more == Some(Stretch(good, 3 + n, 1) + Stretch(bad, 519 + 512 * n, w))
    ensures HasBelow(good, bad, n + 1, Append(r, more))
  {
    BelowGrows(good, bad, n, w);
  }

  /** The first `n` words together. */
  lemma {:induction false} LeafRefs(fs: Fs, blk: Block, good: seq<u16>, bad: seq<u16>, n: nat, w: nat)
    requires Sized(fs) && AllPositive(bad) && n <= w == 512 && Indexes(blk, good) && LeafBlocks(fs, good, bad)
    ensures HasBelow(good, bad, n, IndRefsOf(fs, blk, n))
  {
    if n > 0 {
      LeafRefs(fs, blk, good, bad, n - 1, w);
      NextWord(fs, blk, good, bad, n - 1, w);
    } else {
      assert Below(good, bad, n) == multiset{};
    }
  }

  lemma NextWord(fs: Fs, blk: Block, good: seq<u16>, bad: seq<u16>, n: nat, w: nat)
    requires Sized(fs) && AllPositive(bad) && n < w == 512 && Indexes(blk, good) && LeafBlocks(fs, good, bad)
    requires HasBelow(good, bad, n, IndRefsOf(fs, blk, n))
    ensures HasBelow(good, bad, n + 1, IndRefsOf(fs, blk, n + 1))
  {
    WordRefs(fs, blk, good, bad, n, w);
    BelowStep(good, bad, n, w, IndRefsOf(fs, blk, n), IndRefs(fs, blk[n]));
  }

  /** The bad inode's indirect slot. */
  lemma IndPart(t: Tables, good: seq<u16>, bad: seq<u16>, unreadable: set<nat>, w: nat)
    requires BuiltFrom(t, good, bad) && Covers(t.super, bad, unreadable) && w == 512
    ensures Sized(Image(t, unreadable))
    ensures IndRefs(Image(t, unreadable), t.inodes[BAD_INO].zone[7]) == Some(Stretch(good, 1, 1) + Stretch(bad, 7, w))
  {
    var fs := Image(t, unreadable);
    if |bad| > 7 {
      assert ListedIn(t.disk[IndirectBlock(good, 0)], bad, 7 + 512 * 0);
      HelperReadable(t, good, bad, unreadable, 1);
      IndirectRefs(fs, bad, good[1], 7, w);
      assert Stretch(good, 1, 1) == [good[1] as nat];
    } else {
      assert Stretch(good, 1, 1) + Stretch(bad, 7, w) == [];
    }
  }

  lemma LeavesAreIndirect(t: Tables, good: seq<u16>, bad: seq<u16>, unreadable: set<nat>, m: nat)
    requires BuiltFrom(t, good, bad) && Covers(t.super, bad, unreadable) && m < Leaves(|bad|)
    ensures Sized(Image(t, unreadable)) && IsIndirect(Image(t, unreadable), bad, good[m + 3], 519 + 512 * m)
  {
    HelperReadable(t, good, bad, unreadable, m + 3);
    assert ListedIn(t.disk[IndirectBlock(good, m + 1)], bad, 7 + 512 * (m + 1));
  }

  /** Its double indirect slot. */
  lemma DindPart(t: Tables, good: seq<u16>, bad: seq<u16>, unreadable: set<nat>, w: nat)
    requires BuiltFrom(t, good, bad) && Covers(t.super, bad, unreadable) && w == 512
    ensures Sized(Image(t, unreadable))
    ensures var r := DindRefs(Image(t, unreadable), t.inodes[BAD_INO].zone[8]);
      r.Some? && multiset(r.value) == multiset(Stretch(good, 2, 1)) + Below(good, bad, w)
  {
    var fs := Image(t, unreadable);
    if |bad| > 519 {
      forall m | 0 <= m < Leaves(|bad|)
        ensures IsIndirect(fs, bad, good[m + 3], 519 + 512 * m)
      {
        LeavesAreIndirect(t, good, bad, unreadable, m);
      }
      HelperReadable(t, good, bad, unreadable, 2);
      LeafRefs(fs, t.disk[good[2]], good, bad, w, w);
      DoubleRefs(fs, good, bad, w);
    } else {
      assert multiset(Stretch(good, 2, 1)) + Below(good, bad, w) == multiset{};
    }
  }

  lemma DoubleRefs(fs: Fs, good: seq<u16>, bad: seq<u16>, w: nat)
    requires Sized(fs) && |good| > 2 && good[2] > 0 && ValidZone(fs.super, good[2]) && Readable(fs, good[2]) && w == 512
    requires HasBelow(good, bad, w, IndRefsOf(fs, fs.disk[good[2]], w))
    ensures var r := DindRefs(fs, good[2]);
      r.Some? && multiset(r.value) == multiset(Stretch(good, 2, 1)) + Below(good, bad, w)
  {
    assert Stretch(good, 2, 1) == [good[2] as nat];
  }

  lemma Whole(good: seq<u16>, bad: seq<u16>, w: nat)
    requires w == 512 && 1 <= |good| <= 515 && |bad| <= 519 + 512 * w
    ensures multiset(bad) + multiset(good[1..])
      == multiset(Stretch(bad, 0, 7)) + multiset(Stretch(good, 1, 1) + Stretch(bad, 7, w))
         + (multiset(Stretch(good, 2, 1)) + Below(good, bad, w))
  {
    StretchSplit(bad, 0, 7, w);
    StretchSplit(bad, 0, 7 + w, 512 * w);
    assert bad == Stretch(bad, 0, 7 + w + 512 * w);
    StretchSplit(good, 1, 1, 1);
    StretchSplit(good, 1, 2, w);
    assert good[1..] == Stretch(good, 1, 2 + w);
  }

  /** All zones of the bad inode: the bad zones and the helper blocks, once each. */
  lemma BadInodeRefs(t: Tables, good: seq<u16>, bad: seq<u16>, unreadable: set<nat>)
    requires BuiltFrom(t, good, bad) && Covers(t.super, bad, unreadable)
    ensures Sized(Image(t, unreadable))
    ensures var r := InodeRefs(Image(t, unreadable), t.inodes[BAD_INO]);
      r.Some? && multiset(r.value) == multiset(bad) + multiset(good[1..])
  {
    var w, zone := 512, t.inodes[BAD_INO].zone;
    var fs := Image(t, unreadable);
    NonzeroStretch(zone, bad, 0, |zone| - 2);
    IndPart(t, good, bad, unreadable, w);
    DindPart(t, good, bad, unreadable, w);
    assert |bad| <= 519 + 512 * w;
    Whole(good, bad, w);
    AppendAll(Nonzero(zone, |zone| - 2), IndRefs(fs, zone[7]), DindRefs(fs, zone[8]));
  }

  lemma AppendAll(a: seq<nat>, b: Option<seq<nat>>, c: Option<seq<nat>>)
    requires b.Some? && c.Some?
    ensures var r := Append(Append(Some(a), b), c);
      r.Some? && multiset(r.value) == multiset(a) + multiset(b.value) + multiset(c.value)
  {
  }

  // ---------- The walk of the checker ----------

  lemma RootRefs(t: Tables, good: seq<u16>, bad: seq<u16>, unreadable: set<nat>)
    requires BuiltFrom(t, good, bad)
    ensures Sized(Image(t, unreadable))
    ensures InodeRefs(Image(t, unreadable), t.inodes[ROOT_INO]) == Some([good[0] as nat])
  {
    var zone := t.inodes[ROOT_INO].zone;
    NonzeroStretch(zone, [good[0]], 0, |zone| - 2);
    assert Stretch([good[0]], 0, |zone| - 2) == [good[0] as nat];
  }

  lemma RootZones(t: Tables, good: seq<u16>, bad: seq<u16>, unreadable: set<nat>)
    requires BuiltFrom(t, good, bad)
    ensures Sized(Image(t, unreadable))
    ensures CountZones(Image(t, unreadable), Tally(multiset{}, multiset{}), ROOT_INO)
      == Some(Tally(multiset{good[0] as nat}, multiset{}))
  {
    RootRefs(t, good, bad, unreadable);
    assert good[0] in good;
    assert multiset{} + multiset([good[0] as nat]) == multiset{good[0] as nat};
  }

  /** Once the root block is counted, the zones of the bad inode are all fresh. */
  lemma AllFresh(fs: Fs, good: seq<u16>, bad: seq<u16>, root: multiset<nat>, more: seq<nat>)
    requires Sized(fs) && ZonesBuilt(fs.super, fs.zoneMap, good, bad)
    requires root == multiset{good[0] as nat} && multiset(more) == multiset(bad) + multiset(good[1..])
    ensures Fresh(fs, root, more) && root + multiset(more) == multiset(bad) + multiset(good)
  {
    assert good == [good[0]] + good[1..];
    assert root + multiset(more) == multiset(bad) + multiset(good);
    forall z | z in more
      ensures ValidZone(fs.super, z) && ZoneBit(fs.super, fs.zoneMap, z) && (root + multiset(more))[z] == 1
    {
      assert z in multiset(more);
      OnceEach(bad, z);
      OnceEach(good, z);
    }
  }

  lemma BadZonesFresh(t: Tables, good: seq<u16>, bad: seq<u16>, unreadable: set<nat>, inos: multiset<nat>)
    requires BuiltFrom(t, good, bad) && Covers(t.super, bad, unreadable) && bad != [] && inos[BAD_INO] <= 1
    ensures Sized(Image(t, unreadable))
    ensures CountZones(Image(t, unreadable), Tally(multiset{good[0] as nat}, inos), BAD_INO)
      == Some(Tally(multiset(bad) + multiset(good), inos))
  {
    hide BadTree, RootBlock, RootInode, FirstZoneData, InodeRefs;
    var fs := Image(t, unreadable);
    BadInodeRefs(t, good, bad, unreadable);
    AllFresh(fs, good, bad, multiset{good[0] as nat}, InodeRefs(fs, t.inodes[BAD_INO]).value);
  }

  lemma {:induction false} OnceEach(zones: seq<u16>, z: nat)
    requires Increasing(zones)
    ensures multiset(zones)[z] == if z in zones then 1 else 0
  {
    if zones != [] {
      var n := |zones| - 1;
      assert zones == zones[..n] + [zones[n]];
      OnceEach(zones[..n], z);
    }
  }

  /** The root block holds the entries of the root directory. */
  lemma RootEntry(t: Tables, good: seq<u16>, bad: seq<u16>, unreadable: set<nat>, offset: nat)
    requires BuiltFrom(t, good, bad) && Covers(t.super, bad, unreadable) && offset < 1024
    ensures Sized(Image(t, unreadable))
    ensures EntryBlock(Image(t, unreadable), t.inodes[ROOT_INO], offset) == Some(RootBlock(t.dirsize, bad != []))
  {
    HelperReadable(t, good, bad, unreadable, 0);
  }

  /** The entry "." or "..". */
  lemma DotEntry(fs: Fs, t: Tally, dir: nat, at: nat, blk: Block)
    requires Sized(fs) && 0 < dir <= fs.super.ninodes && at % 16 == 0 && at < fs.inodes[dir].size && at < 1008
    requires EntryBlock(fs, fs.inodes[dir], at) == Some(blk) && blk[at / 2] == dir
    requires (at == 0 && IsDot(blk, at + 2)) || (at == fs.dirsize && IsDotDot(blk, at + 2))
    requires fs.inodeMap[dir] && t.inos[dir] < 255
    ensures FileTally(fs, t, dir, at, MAX_DEPTH) == Some(t.(inos := t.inos + multiset{dir}))
  {
    hide EntryBlock, CountZones, DirTally, IsDot, IsDotDot;
    assert at % 1024 == at;
    assert FileTally(fs, t, dir, at, MAX_DEPTH) == EntryTally(fs, t, blk, at, MAX_DEPTH);
    assert EntryTally(fs, t, blk, at, MAX_DEPTH) == KnownTally(fs, t, dir, blk, at, MAX_DEPTH);
  }

  lemma DotWords(dirsize: nat, anyBad: bool)
    requires dirsize in {16, 32}
    ensures var blk := RootBlock(dirsize, anyBad);
      blk[0] == ROOT_INO && IsDot(blk, 2) && blk[dirsize / 2] == ROOT_INO && IsDotDot(blk, dirsize + 2)
  {
  }

  /** The first two entries of the root directory. */
  lemma Dots(t: Tables, good: seq<u16>, bad: seq<u16>, unreadable: set<nat>, tally: Tally, at: nat)
    requires BuiltFrom(t, good, bad) && Covers(t.super, bad, unreadable) && tally.inos[ROOT_INO] < 255
    requires at in {0, t.dirsize}
    ensures Sized(Image(t, unreadable))
    ensures FileTally(Image(t, unreadable), tally, ROOT_INO, at, MAX_DEPTH)
      == Some(tally.(inos := tally.inos + multiset{ROOT_INO}))
  {
    hide FileTally, EntryBlock, BadTree, RootBlock, IsDot, IsDotDot, FirstZoneData;
    RootEntry(t, good, bad, unreadable, at);
    DotWords(t.dirsize, bad != []);
    DotEntry(Image(t, unreadable), tally, ROOT_INO, at, RootBlock(t.dirsize, bad != []));
  }

  /** An entry that is not a directory and neither "." nor "..". */
  lemma FileEntry(fs: Fs, t: Tally, dir: nat, at: nat, blk: Block, ino: nat, counted: Tally)
    requires Sized(fs) && 0 < dir <= fs.super.ninodes && at % 16 == 0 && at < fs.inodes[dir].size && at < 1008
    requires EntryBlock(fs, fs.inodes[dir], at) == Some(blk) && blk[at / 2] == ino
    requires at != 0 && at != fs.dirsize && 0 < ino <= fs.super.ninodes && !IsDir(fs.inodes[ino].mode)
    requires EntryStart(fs, t, ino, blk, at) == Some(counted)
    ensures FileTally(fs, t, dir, at, MAX_DEPTH) == CountZones(fs, counted, ino)
  {
    hide EntryBlock, EntryStart, CountZones, DirTally;
    assert at % 1024 == at;
    assert FileTally(fs, t, dir, at, MAX_DEPTH) == EntryTally(fs, t, blk, at, MAX_DEPTH);
    assert EntryTally(fs, t, blk, at, MAX_DEPTH) == KnownTally(fs, t, ino, blk, at, MAX_DEPTH);
  }

  lemma BadWord(dirsize: nat)
    requires dirsize in {16, 32}
    ensures RootBlock(dirsize, true)[2 * dirsize / 2] == BAD_INO
  {
  }

  lemma BadEntry(t: Tables, good: seq<u16>, bad: seq<u16>, unreadable: set<nat>, tally: Tally)
    requires BuiltFrom(t, good, bad) && Covers(t.super, bad, unreadable) && bad != []
    requires tally == Tally(multiset{good[0] as nat}, multiset{ROOT_INO, ROOT_INO})
    ensures Sized(Image(t, unreadable))
    ensures FileTally(Image(t, unreadable), tally, ROOT_INO, 2 * t.dirsize, MAX_DEPTH)
      == CountZones(Image(t, unreadable), tally.(inos := multiset{ROOT_INO, ROOT_INO, BAD_INO}), BAD_INO)
  {
    hide FileTally, EntryBlock, CountZones, BadTree, RootBlock, FirstZoneData, IsDot, IsDotDot;
    var at := 2 * t.dirsize;
    RootEntry(t, good, bad, unreadable, at);
    BadWord(t.dirsize);
    var fs, blk := Image(t, unreadable), RootBlock(t.dirsize, true);
    var inos := multiset{ROOT_INO, ROOT_INO, BAD_INO};
    assert tally.inos + multiset{BAD_INO} == inos;
    assert EntryStart(fs, tally, BAD_INO, blk, at) == Some(tally.(inos := inos));
    FileEntry(fs, tally, ROOT_INO, at, blk, BAD_INO, tally.(inos := inos));
  }

  /** The tally of the whole file system. */
  lemma BuiltTally(t: Tables, good: seq<u16>, bad: seq<u16>, unreadable: set<nat>)
    requires BuiltFrom(t, good, bad) && Covers(t.super, bad, unreadable)
    ensures Sized(Image(t, unreadable))
    ensures WholeTally(Image(t, unreadable), MAX_DEPTH)
      == Some(Tally(multiset(bad) + multiset(good),
                    if bad == [] then multiset{ROOT_INO, ROOT_INO} else multiset{ROOT_INO, ROOT_INO, BAD_INO}))
  {
    var fs := Image(t, unreadable);
    RootZones(t, good, bad, unreadable);
    DotsTally(t, good, bad, unreadable);
    if bad != [] {
      BadEntryTally(t, good, bad, unreadable);
    } else {
      assert good == [good[0]];
      assert multiset(bad) + multiset(good) == multiset{good[0] as nat};
    }
  }

  lemma DotsTally(t: Tables, good: seq<u16>, bad: seq<u16>, unreadable: set<nat>)
    requires BuiltFrom(t, good, bad) && Covers(t.super, bad, unreadable)
    ensures var fs, t0 := Image(t, unreadable), Tally(multiset{good[0] as nat}, multiset{});
      var t2 := t0.(inos := multiset{ROOT_INO, ROOT_INO});
      && Sized(fs)
      && EntriesTally(fs, t0, ROOT_INO, 0, MAX_DEPTH)
         == if bad == [] then Some(t2) else EntriesTally(fs, t2, ROOT_INO, 2 * t.dirsize, MAX_DEPTH)
  {
    hide FileTally, EntriesTally, BadTree, RootBlock, FirstZoneData, EntryBlock;
    var fs, t0 := Image(t, unreadable), Tally(multiset{good[0] as nat}, multiset{});
    var t1 := t0.(inos := t0.inos + multiset{ROOT_INO});
    var t2 := t0.(inos := t1.inos + multiset{ROOT_INO});
    assert t2.inos == multiset{ROOT_INO, ROOT_INO};
    Dots(t, good, bad, unreadable, t0, 0);
    Dots(t, good, bad, unreadable, t1, t.dirsize);
    EntriesStep(fs, t0, 0, t1);
    EntriesStep(fs, t1, t.dirsize, t2);
  }

  lemma BadEntryTally(t: Tables, good: seq<u16>, bad: seq<u16>, unreadable: set<nat>)
    requires BuiltFrom(t, good, bad) && Covers(t.super, bad, unreadable) && bad != []
    ensures var fs, t2 := Image(t, unreadable), Tally(multiset{good[0] as nat}, multiset{ROOT_INO, ROOT_INO});
      Sized(fs) && EntriesTally(fs, t2, ROOT_INO, 2 * t.dirsize, MAX_DEPTH)
        == Some(Tally(multiset(bad) + multiset(good), multiset{ROOT_INO, ROOT_INO, BAD_INO}))
  {
    hide FileTally, EntriesTally, CountZones, BadTree, RootBlock, FirstZoneData;
    var fs, t2 := Image(t, unreadable), Tally(multiset{good[0] as nat}, multiset{ROOT_INO, ROOT_INO});
    BadEntry(t, good, bad, unreadable, t2);
    BadZonesFresh(t, good, bad, unreadable, multiset{ROOT_INO, ROOT_INO, BAD_INO});
    EntriesStep(fs, t2, 2 * t.dirsize, FileTally(fs, t2, ROOT_INO, 2 * t.dirsize, MAX_DEPTH).value);
  }

  lemma EntriesStep(fs: Fs, t: Tally, at: nat, next: Tally)
    requires Sized(fs) && at % 16 == 0 && at < fs.inodes[ROOT_INO].size
    requires FileTally(fs, t, ROOT_INO, at, MAX_DEPTH) == Some(next)
    ensures EntriesTally(fs, t, ROOT_INO, at, MAX_DEPTH)
      == if at + fs.dirsize >= fs.inodes[ROOT_INO].size then Some(next)
         else EntriesTally(fs, next, ROOT_INO, at + fs.dirsize, MAX_DEPTH)
  {
    hide FileTally;
    assert fs.dirsize % 16 == 0;
    assert EntriesTally(fs, t, ROOT_INO, at, MAX_DEPTH) == EntriesTally(fs, next, ROOT_INO, at + fs.dirsize, MAX_DEPTH);
  }

  /** Whatever mkfs.minix has written is consistent, with or without the warning
      for leftover modes. */
  lemma BuiltIsConsistent(t: Tables, good: seq<u16>, bad: seq<u16>, unreadable: set<nat>, warnMode: bool)
    requires BuiltFrom(t, good, bad) && Covers(t.super, bad, unreadable)
    ensures Sized(Image(t, unreadable)) && Consistent(Image(t, unreadable), warnMode)
  {
    hide WholeTally, BadTree, RootBlock, FirstZoneData;
    var fs := Image(t, unreadable);
    BuiltTally(t, good, bad, unreadable);
    var tally := WholeTally(fs, MAX_DEPTH).value;
    forall z | t.super.firstZone <= z < t.super.nzones
      ensures ZoneAgrees(fs, tally, z)
    {
      OnceEach(bad, z);
      OnceEach(good, z);
    }
    forall i | 0 < i <= t.super.ninodes
      ensures InodeAgrees(fs, tally, warnMode, i)
    {
    }
  }

  /** The checker finds the entry size that mkfs was given. */
  lemma DirsizeFound(dirsize: nat, anyBad: bool, default: nat)
    requires dirsize in {16, 32}
    ensures MinixCheck.DirsizeFrom(RootBlock(dirsize, anyBad), 16, default) == dirsize
  {
    var blk := RootBlock(dirsize, anyBad);
    assert IsDotDot(blk, dirsize + 2);
    if dirsize == 32 {
      assert !IsDotDot(blk, 16 + 2);
      assert MinixCheck.DirsizeFrom(blk, 16, default) == MinixCheck.DirsizeFrom(blk, 32, default);
    }
  }

  /** The number of blocks that mkfs settles on, if any. */
  ghost function BlocksOf(want: nat, disk: seq<Block>): nat {
    var b := MinixLayout.DeviceBlocks(want, |disk|);
    if b.Some? then b.value else 10
  }

  /** The super block that mkfs sets up. */
  ghost function SuperOf(want: nat, requested: nat, disk: seq<Block>): Super
    requires requested < 0x1_0000_0000_0000_0000
  {
    var blocks := BlocksOf(want, disk);
    MinixLayout.SetupSuper(blocks, MinixLayout.InodeCount(blocks, requested))
  }

  /** Block and inode counts on the command line for which mkfs has an inode table. */
  ghost predicate HasInodes(want: nat, requested: nat, disk: seq<Block>)
  {
    requested < 0x1_0000_0000_0000_0000 && MinixLayout.InodeCount(BlocksOf(want, disk), requested) != 0
  }

  /** A list of bad blocks names distinct zones. */
  ghost predicate DistinctZones(s: Super, list: seq<u16>) {
    && (forall k :: 0 <= k < |list| ==> ValidZone(s, list[k]))
    && (forall i, j :: 0 <= i < j < |list| ==> list[i] != list[j])
  }

  /** The zones that mkfs learns to be bad. */
  ghost function BadZones(s: Super, unreadable: set<nat>, scan: bool, list: seq<u16>): set<nat> {
    set z: nat | z < s.nzones && ValidZone(s, z) && (if scan then z in unreadable else z in list)
  }

  /** There are blocks for the root directory and for the helpers of so many bad zones,
      among those that are not bad, and no more than mkfs keeps track of. */
  ghost predicate Holds(s: Super, n: nat) {
    && 1 + Helpers(n) < MAX_GOOD_BLOCKS
    && s.firstZone as nat + n + 1 + Helpers(n) <= s.nzones
  }

  /** mkfs completes: the device is large enough, with a scan all blocks before the data
      area can be read, and there are enough good zones. */
  ghost predicate Completes(want: nat, requested: nat, disk: seq<Block>, unreadable: set<nat>, scan: bool,
                            list: seq<u16>)
    requires requested < 0x1_0000_0000_0000_0000
  {
    var s := SuperOf(want, requested, disk);
    && MinixLayout.DeviceBlocks(want, |disk|).Some?
    && (scan ==> forall z :: 0 <= z < s.firstZone && z < s.nzones ==> z !in unreadable)
    && Holds(s, |BadZones(s, unreadable, scan, list)|)
  }

  lemma {:induction false} IncreasingCount(bad: seq<u16>, zones: set<nat>)
    requires Increasing(bad) && forall z: nat :: z in zones <==> z in bad
    ensures |zones| == |bad|
    decreases |bad|
  {
    if bad == [] {
      assert zones == {};
    } else {
      var n := |bad| - 1;
      var rest := zones - {bad[n] as nat};
      forall z: nat
        ensures z in rest <==> z in bad[..n]
      {
        if z in rest {
          var k :| 0 <= k < |bad| && bad[k] == z;
          assert bad[..n][k] == z;
        }
      }
      IncreasingCount(bad[..n], rest);
      assert zones == rest + {bad[n] as nat};
    }
  }

  lemma BuiltAccepted(t: Tables, good: seq<u16>, bad: seq<u16>)
    requires BuiltFrom(t, good, bad)
    ensures AcceptedSuper(t.super)
  {
  }

  /** The marks are the bad zones, and what is left holds the rest or not. */
  lemma RoomIs(s: Super, zoneMap: seq<bool>, unreadable: set<nat>, scan: bool, list: seq<u16>)
    requires MapOf(s, zoneMap)
    requires forall z: nat :: ValidZone(s, z) ==>
      (ZoneBit(s, zoneMap, z) <==> if scan then z in unreadable else z in list)
    ensures var n := |Marked(s, zoneMap)|;
      && n == |BadZones(s, unreadable, scan, list)|
      && (1 + Helpers(n) < MAX_GOOD_BLOCKS && 1 + Helpers(n) <= Unmarked(s, zoneMap, s.firstZone) <==> Holds(s, n))
  {
    hide Helpers, Mapped;
    MarkedLists(s, zoneMap, s.firstZone);
    MarkedOrNot(s, zoneMap, s.firstZone);
    IncreasingCount(Marked(s, zoneMap), BadZones(s, unreadable, scan, list));
  }

  /** mkfs.minix with `want` blocks and `requested` inodes, 0 for the default; the bad
      blocks come from reading the device or from a list. When it completes, its super
      block is one that fsck accepts; and it does exactly when there is room. */
  method MakeFs(want: nat, requested: nat, dirsize: nat, disk: seq<Block>, unreadable: set<nat>, scan: bool,
                list: seq<u16>)
    returns (r: Option<Tables>, ghost good: seq<u16>, ghost bad: seq<u16>)
    requires HasInodes(want, requested, disk) && dirsize in {16, 32}
    requires DistinctZones(SuperOf(want, requested, disk), list)
    ensures r.Some? <==> Completes(want, requested, disk, unreadable, scan, list)
    ensures r.Some? ==> r.value.super == SuperOf(want, requested, disk) && AcceptedSuper(r.value.super)
    ensures r.Some? ==> r.value.dirsize == dirsize && BuiltFrom(r.value, good, bad)
    ensures r.Some? ==> forall z: nat :: ValidZone(r.value.super, z) ==>
      (z in bad <==> if scan then z in unreadable else z in list)
  {
    hide Holds, BadZones, Helpers, BuiltFrom, Marked, Unmarked, ZoneBit, MinixLayout.SetupSuper,
         MinixLayout.InodeCount, FirstZoneData, MapBits;
    r, good, bad := None, [], [];
    var blocks := MinixLayout.DeviceBlocks(want, |disk|);
    if blocks.None? {
      return;
    }
    MinixLayout.RejectedHasNoZone(blocks.value, requested);
    var ok := true;
    var m := new Mkfs(MinixLayout.SetupTables(blocks.value, requested).value, dirsize, disk);
    if scan {
      ok := m.CheckBlocks(unreadable);
    } else {
      m.GetListBlocks(list);
    }
    if ok {
      RoomIs(m.super, m.zoneMap, unreadable, scan, list);
      ok, bad := m.Build();
      good := m.good;
      if ok {
        r := Some(Tables(m.super, m.dirsize, m.inodes, m.inodeMap, m.zoneMap, m.disk));
        BuiltAccepted(r.value, good, bad);
      }
    }
  }

  /** map_block() of fsck on the file of bad zones: block `k` is bad zone number `k`,
      in either mode, and nothing is repaired or reported. */
  method MapBad(t: Tables, unreadable: set<nat>, repair: bool, warnMode: bool, unwritable: set<nat>, k: nat,
                ghost good: seq<u16>, ghost bad: seq<u16>)
    returns (zone: nat, errors: bool, changed: bool, after: Tables)
    requires BuiltFrom(t, good, bad) && Covers(t.super, bad, unreadable) && k < |bad|
    ensures zone == bad[k] && !errors && !changed && after == t
  {
    BadZoneOf(t, good, bad, unreadable, k);
    var fs := Fs(t.super, t.dirsize, unreadable, t.inodes, t.inodeMap, t.zoneMap, t.disk);
    var c := new MinixCheck.Checker(fs, repair, warnMode, unwritable);
    zone := c.MapBlock(BAD_INO, k);
    errors, changed := c.errors, c.changed;
    after := Tables(c.super, c.dirsize, c.inodes, c.inodeMap, c.zoneMap, c.disk);
  }

  /** A fresh file system passes the check: nothing is reported, nothing changes, and
      every zone in use was counted once. */
  method CheckFresh(t: Tables, unreadable: set<nat>, repair: bool, warnMode: bool, unwritable: set<nat>,
                    ghost good: seq<u16>, ghost bad: seq<u16>)
    returns (errors: bool, changed: bool, after: Tables, zoneCount: seq<u8>)
    requires BuiltFrom(t, good, bad) && Covers(t.super, bad, unreadable)
    ensures !errors && !changed && after == t && |zoneCount| == t.super.nzones
    ensures forall z :: 0 <= z < t.super.nzones ==> zoneCount[z] == if z in bad || z in good then 1 else 0
  {
    BuiltIsConsistent(t, good, bad, unreadable, warnMode);
    BuiltTally(t, good, bad, unreadable);
    DirsizeFound(t.dirsize, bad != [], 16);
    var dirsize := MinixCheck.GetDirsize(t.disk[t.inodes[ROOT_INO].zone[0]], 16);
    var fs := Fs(t.super, dirsize, unreadable, t.inodes, t.inodeMap, t.zoneMap, t.disk);
    var c := new MinixCheck.Checker(fs, repair, warnMode, unwritable);
    c.Check();
    errors, changed, zoneCount := c.errors, c.changed, c.zoneCount;
    after := Tables(c.super, c.dirsize, c.inodes, c.inodeMap, c.zoneMap, c.disk);
    forall z | 0 <= z < t.super.nzones
      ensures zoneCount[z] == if z in bad || z in good then 1 else 0
    {
      OnceEach(bad, z);
      OnceEach(good, z);
    }
  }

  /** mkfs and then fsck, in either mode: whenever mkfs knew of every unreadable zone
      and completed, fsck accepts the super block, finds nothing and leaves everything
      as mkfs wrote it. */
  method MakeThenCheck(want: nat, requested: nat, dirsize: nat, disk: seq<Block>, unreadable: set<nat>, scan: bool,
                       list: seq<u16>, repair: bool, warnMode: bool, unwritable: set<nat>)
    returns (made: Option<Tables>, errors: bool, changed: bool, after: Option<Tables>)
    requires HasInodes(want, requested, disk) && dirsize in {16, 32}
    requires DistinctZones(SuperOf(want, requested, disk), list)
    requires scan || forall z :: z in unreadable && ValidZone(SuperOf(want, requested, disk), z) ==> z in list
    ensures made.Some? <==> Completes(want, requested, disk, unreadable, scan, list)
    ensures made.Some? ==> AcceptedSuper(made.value.super)
    ensures !errors && !changed && after == made
  {
    ghost var good, bad;
    errors, changed := false, false;
    made, good, bad := MakeFs(want, requested, dirsize, disk, unreadable, scan, list);
    after := made;
    if made.Some? {
      var left, count;
      errors, changed, left, count := CheckFresh(made.value, unreadable, repair, warnMode, unwritable, good, bad);
      after := Some(left);
    }
  }
}
