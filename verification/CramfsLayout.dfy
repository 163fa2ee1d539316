/** The directory area of a cramfs image: a run of entries without gaps, in the order
    in which they were written, each holding the offset of its contents. */
module CramfsLayout {
  import opened CramfsFormat
  import opened CramfsTree

  /** Where entry number `k` of a run begins. */
  ghost function Addr(run: seq<Tree>, base: nat, k: nat): nat
    requires k <= |run| && forall i :: 0 <= i < |run| ==> run[i].Entry?
  {
    if k == 0 then base else Addr(run, base, k - 1) + EntrySize(run[k - 1])
  }

  ghost predicate Entries(run: seq<Tree>) {
    forall i :: 0 <= i < |run| ==> run[i].Entry?
  }

  /** The entries are different ones. */
  ghost predicate Distinct(run: seq<Tree>)
    requires Entries(run)
  {
    forall i, j :: 0 <= i < j < |run| ==> Differ(run, i, j)
  }

  ghost predicate Differ(run: seq<Tree>, i: nat, j: nat)
    requires Entries(run) && i < |run| && j < |run|
  {
    run[i].id != run[j].id
  }

  lemma {:induction false} AddrIncreases(run: seq<Tree>, base: nat, i: nat, j: nat)
    requires Entries(run) && i < j <= |run|
    ensures Addr(run, base, i) + EntrySize(run[i]) <= Addr(run, base, j)
  {
    if i + 1 < j {
      AddrIncreases(run, base, i, j - 1);
    }
  }

  // ---------- One entry ----------

  /** What 26 bits for a quarter of the offset can hold. */
  const MAX_OFFSET := 0x1000_0000

  function Zeros(n: nat): (r: Bytes)
    ensures |r| == n && forall k :: 0 <= k < n ==> r[k] == 0
  {
    seq(n, _ => 0)
  }

  function PaddedName(name: Bytes): (r: Bytes)
    ensures |r| == Pad4(|name|)
  {
    name + Zeros(Pad4(|name|) - |name|)
  }

  /** The inode of an entry whose contents are at byte `offset`. What does not fit its
      field is cut off. */
  function InodeOf(e: Tree, offset: nat): Inode
    requires e.Entry?
  {
    Inode(e.mode, e.uid % 0x1_0000, e.size % 0x100_0000, e.gid % 0x100, Pad4(|e.name|) / 4 % 0x40,
          offset / 4 % 0x400_0000)
  }

  ghost predicate HoldsAt(img: Bytes, at: nat, b: Bytes) {
    at + |b| <= |img| && forall i :: at <= i < at + |b| ==> img[i] == b[i - at]
  }

  ghost predicate EntryAt(img: Bytes, big: bool, at: nat, e: Tree, offset: nat)
    requires e.Entry?
  {
    HoldsAt(img, at, Encode(big, InodeOf(e, offset))) && HoldsAt(img, at + INODE_SIZE, PaddedName(e.name))
  }

  /** The first `n` entries of a run are in the image, and `dir` knows where. */
  ghost predicate RunAt(img: Bytes, big: bool, base: nat, run: seq<Tree>, n: nat, off: map<nat, nat>,
                        dir: map<nat, nat>)
    requires Entries(run) && n <= |run|
  {
    forall k :: 0 <= k < n ==> Placed(img, big, base, run, k, off, dir)
  }

  ghost predicate Placed(img: Bytes, big: bool, base: nat, run: seq<Tree>, k: nat, off: map<nat, nat>,
                         dir: map<nat, nat>)
    requires Entries(run) && k < |run|
  {
    && run[k].id in off && off[run[k].id] < MAX_OFFSET
    && run[k].id in dir && dir[run[k].id] == Addr(run, base, k)
    && EntryAt(img, big, Addr(run, base, k), run[k], off[run[k].id])
  }

  /** Bytes from `lo` to `hi` are the same. */
  ghost predicate SameBytes(a: Bytes, b: Bytes, lo: nat, hi: nat) {
    (|a| == |b| || hi <= |b|) && forall k :: lo <= k < hi && k < |a| && k < |b| ==> a[k] == b[k]
  }

  lemma EntryKept(a: Bytes, b: Bytes, big: bool, at: nat, e: Tree, offset: nat)
    requires e.Entry? && EntryAt(a, big, at, e, offset) && SameBytes(a, b, at, at + EntrySize(e))
    ensures EntryAt(b, big, at, e, offset)
  {
  }

  /** Writing after the run leaves it as it was. */
  lemma RunKept(a: Bytes, b: Bytes, big: bool, base: nat, run: seq<Tree>, n: nat, off: map<nat, nat>,
                dir: map<nat, nat>)
    requires Entries(run) && n <= |run| && RunAt(a, big, base, run, n, off, dir)
    requires SameBytes(a, b, base, Addr(run, base, n))
    ensures RunAt(b, big, base, run, n, off, dir)
  {
    forall k | 0 <= k < n
      ensures Placed(b, big, base, run, k, off, dir)
    {
      assert Placed(a, big, base, run, k, off, dir);
      AddrIncreases(run, base, k, n);
      AddrFromBase(run, base, k);
      EntryKept(a, b, big, Addr(run, base, k), run[k], off[run[k].id]);
    }
  }

  lemma {:induction false} AddrFromBase(run: seq<Tree>, base: nat, k: nat)
    requires Entries(run) && k <= |run|
    ensures base <= Addr(run, base, k)
  {
    if k > 0 {
      AddrFromBase(run, base, k - 1);
    }
  }

  /** One more entry, right after the run. */
  lemma RunGrows(a: Bytes, b: Bytes, big: bool, base: nat, run: seq<Tree>, n: nat, off: map<nat, nat>,
                 dir: map<nat, nat>)
    requires Entries(run) && Distinct(run) && n < |run| && RunAt(a, big, base, run, n, off, dir)
    requires SameBytes(a, b, base, Addr(run, base, n))
    requires run[n].id in off && off[run[n].id] < MAX_OFFSET
    requires EntryAt(b, big, Addr(run, base, n), run[n], off[run[n].id])
    ensures RunAt(b, big, base, run, n + 1, off, dir[run[n].id := Addr(run, base, n)])
  {
    RunKept(a, b, big, base, run, n, off, dir);
    var now := dir[run[n].id := Addr(run, base, n)];
    forall k | 0 <= k < n + 1
      ensures Placed(b, big, base, run, k, off, now)
    {
      if k < n {
        assert Placed(b, big, base, run, k, off, dir) && Differ(run, k, n);
      }
    }
  }

  /** Only the inode at `at` may differ. */
  ghost predicate OnlyInode(a: Bytes, b: Bytes, at: nat) {
    |a| == |b| && forall k :: 0 <= k < |a| && !(at <= k < at + INODE_SIZE) ==> a[k] == b[k]
  }

  /** Rewriting the offset in one inode of the run. */
  lemma RunPatched(a: Bytes, b: Bytes, big: bool, base: nat, run: seq<Tree>, n: nat, off: map<nat, nat>,
                   dir: map<nat, nat>, j: nat, offset: nat)
    requires Entries(run) && Distinct(run) && j < n <= |run| && RunAt(a, big, base, run, n, off, dir)
    requires offset < MAX_OFFSET
    requires OnlyInode(a, b, Addr(run, base, j)) && HoldsAt(b, Addr(run, base, j), Encode(big, InodeOf(run[j], offset)))
    ensures RunAt(b, big, base, run, n, off[run[j].id := offset], dir)
  {
    var now := off[run[j].id := offset];
    forall k | 0 <= k < n
      ensures Placed(b, big, base, run, k, now, dir)
    {
      assert Placed(a, big, base, run, k, off, dir) && Placed(a, big, base, run, j, off, dir);
      if k != j {
        OtherKept(a, b, big, base, run, j, k, off[run[k].id]);
      } else {
        SelfPatched(a, b, big, Addr(run, base, j), run[j], off[run[j].id], offset);
      }
    }
  }

  lemma SelfPatched(a: Bytes, b: Bytes, big: bool, at: nat, e: Tree, was: nat, offset: nat)
    requires e.Entry? && EntryAt(a, big, at, e, was)
    requires OnlyInode(a, b, at) && HoldsAt(b, at, Encode(big, InodeOf(e, offset)))
    ensures EntryAt(b, big, at, e, offset)
  {
  }

  lemma OtherKept(a: Bytes, b: Bytes, big: bool, base: nat, run: seq<Tree>, j: nat, k: nat, offset: nat)
    requires Entries(run) && Distinct(run) && j < |run| && k < |run| && j != k
    requires EntryAt(a, big, Addr(run, base, k), run[k], offset) && OnlyInode(a, b, Addr(run, base, j))
    ensures EntryAt(b, big, Addr(run, base, k), run[k], offset) && run[j].id != run[k].id
  {
    if k < j {
      assert Differ(run, k, j);
      AddrIncreases(run, base, k, j);
    } else {
      assert Differ(run, j, k);
      AddrIncreases(run, base, j, k);
    }
    EntryKept(a, b, big, Addr(run, base, k), run[k], offset);
  }

  lemma {:induction false} AddrAtLeast(run: seq<Tree>, base: nat, k: nat)
    requires Entries(run) && k <= |run|
    ensures base + INODE_SIZE * k <= Addr(run, base, k)
  {
    if k > 0 {
      AddrAtLeast(run, base, k - 1);
    }
  }

  /** A run in an image has not more entries than the image has bytes. */
  lemma RunFits(img: Bytes, big: bool, base: nat, run: seq<Tree>, off: map<nat, nat>, dir: map<nat, nat>)
    requires Entries(run) && RunAt(img, big, base, run, |run|, off, dir)
    ensures INODE_SIZE * |run| <= |img|
  {
    if run != [] {
      var k := |run| - 1;
      assert Placed(img, big, base, run, k, off, dir);
      AddrAtLeast(run, base, k);
    }
  }
}
