/** How mkfs.cramfs fills an image (disk-utils/mkfs.cramfs.c): the directory entries
    with an explicit stack of directories, then the compressed contents of the files.

    A step that the program ends with an error message, and one that would not fit
    into the image, returns `ok == false`.
  */
module CramfsWrite {
  import opened CramfsFormat
  import opened CramfsTree
  import opened CramfsLayout
  import opened CramfsData

  /** Bytes outside of `lo` to `hi` are the same. */
  ghost predicate Outside(a: Bytes, b: Bytes, lo: nat, hi: nat) {
    |a| == |b| && forall k :: 0 <= k < |a| && !(lo <= k < hi) ==> a[k] == b[k]
  }

  /** Bytes before `n` are the same. */
  ghost predicate HeadKept(a: Bytes, b: Bytes, n: nat) {
    |a| == |b| && forall k :: 0 <= k < n && k < |a| ==> a[k] == b[k]
  }

  /** Bytes from `n` on are the same. */
  ghost predicate TailKept(a: Bytes, b: Bytes, n: nat) {
    |a| == |b| && forall k :: n <= k < |a| ==> a[k] == b[k]
  }

  lemma TailTwice(a: Bytes, b: Bytes, c: Bytes, m: nat, n: nat)
    requires TailKept(a, b, m) && TailKept(b, c, n) && m <= n
    ensures TailKept(a, c, n)
  {
  }

  /** At most this much is stored for the files of a tree, each from a multiple of 4 on. */
  ghost function Need(p: Packing, t: Tree): nat
    requires p.blk > 0
    decreases t, p.blk
  {
    if t.Null? then 0 else FileNeed(p, t) + Need(p, t.child) + Need(p, t.next)
  }

  ghost function FileNeed(p: Packing, e: Tree): nat
    requires p.blk > 0 && e.Entry?
  {
    if e.file.Some? && e.size > 0 then Pad4(Packed(p, e.file.value)) else 0
  }

  /** No block of any file is more than twice as long when compressed. */
  ghost predicate AllFit(p: Packing, t: Tree)
    requires p.blk > 0
    decreases t, p.blk
  {
    t.Entry? ==> (t.file.Some? ==> PiecesFit(p, t.file.value)) && AllFit(p, t.child) && AllFit(p, t.next)
  }

  /** With `rest` still to be packed from `curr` on, a file will end at `end`. */
  ghost predicate Remains(p: Packing, content: Bytes, end: nat, rest: Bytes, curr: nat)
    requires p.blk > 0
  {
    curr + Pieces(p, rest) == end && (PiecesFit(p, rest) <==> PiecesFit(p, content))
  }

  lemma RemainsLess(p: Packing, content: Bytes, end: nat, rest: Bytes, curr: nat)
    requires p.blk > 0 && Remains(p, content, end, rest, curr) && |rest| > 0
    ensures curr + |Piece(p, rest)| <= end && (|Piece(p, rest)| > 2 * p.blk ==> !PiecesFit(p, content))
    ensures |Piece(p, rest)| <= 2 * p.blk ==> Remains(p, content, end, Tail(p, rest), curr + |Piece(p, rest)|)
  {
  }

  lemma NeedParts(p: Packing, e: Tree)
    requires p.blk > 0 && e.Entry?
    ensures Need(p, e) == FileNeed(p, e) + Need(p, e.child) + Need(p, e.next)
    ensures AllFit(p, e) ==> AllFit(p, e.child) && AllFit(p, e.next)
    ensures AllFit(p, e) && e.file.Some? ==> PiecesFit(p, e.file.value)
  {
  }

  lemma PadShift(at: nat, n: nat)
    requires at % 4 == 0
    ensures Pad4(at + n) == at + Pad4(n)
  {
  }

  /** Reverses a stack from `from` on, by swapping towards the middle. */
  method ReverseTop(stack: seq<Tree>, from: nat) returns (r: seq<Tree>)
    requires from <= |stack|
    ensures r == stack[..from] + Reverse(stack[from..])
  {
    r := stack;
    var lo, hi := from, |stack|;
    ghost var n := |stack|;
    while lo + 1 < hi
      invariant from <= lo <= hi <= n == |r| && lo + hi == from + n
      invariant forall k :: from <= k < lo ==> r[k] == stack[from + n - 1 - k]
      invariant forall k :: hi <= k < n ==> r[k] == stack[from + n - 1 - k]
      invariant forall k :: 0 <= k < from || lo <= k < hi ==> r[k] == stack[k]
    {
      hi := hi - 1;
      r := r[lo := r[hi]][hi := r[lo]];
      lo := lo + 1;
    }
    Swapped(stack, from, r);
  }

  lemma Swapped(stack: seq<Tree>, from: nat, r: seq<Tree>)
    requires from <= |stack| == |r| && r[..from] == stack[..from]
    requires forall k :: from <= k < |stack| ==> r[k] == stack[from + |stack| - 1 - k]
    ensures r == stack[..from] + Reverse(stack[from..])
  {
    var top := stack[from..];
    forall k | from <= k < |stack|
      ensures r[k] == Reverse(top)[k - from]
    {
      ReverseAt(top, k - from);
    }
    assert r[from..] == Reverse(top);
  }

  ghost predicate InRun(e: Tree, run: seq<Tree>, n: nat)
    requires n <= |run|
  {
    exists j :: 0 <= j < n && run[j] == e
  }

  ghost predicate NoContents(run: seq<Tree>, off: map<nat, nat>, k: nat)
    requires Entries(run) && k < |run|
  {
    run[k].id in off && off[run[k].id] == 0
  }

  /** No inode of the run has an offset. */
  ghost function NoOffsets(run: seq<Tree>): map<nat, nat>
    requires Entries(run)
  {
    map k | 0 <= k < |run| :: run[k].id := 0
  }

  /** The entries on a stack are among the first `n` of a run. */
  ghost predicate Among(stack: seq<Tree>, run: seq<Tree>, n: nat)
    requires n <= |run|
  {
    forall k :: 0 <= k < |stack| ==> InRun(stack[k], run, n)
  }

  lemma AmongGrows(stack: seq<Tree>, run: seq<Tree>, m: nat)
    requires m < |run| && Among(stack, run, m)
    ensures Among(stack, run, m + 1) && Among(stack + [run[m]], run, m + 1)
  {
    forall k | 0 <= k < |stack|
      ensures InRun(stack[k], run, m + 1)
    {
      assert InRun(stack[k], run, m);
    }
    assert InRun(run[m], run, m + 1);
  }

  // ---------- What the data writer keeps ----------

  /** The state of a writer: where the entries and their files are. */
  datatype State = State(big: bool, packing: Packing, base: nat, run: seq<Tree>, image: Bytes, off: map<nat, nat>,
                         data: map<nat, nat>, readable: set<nat>)

  /** Where the directory area ends. */
  ghost function DirEnd(s: State): nat
    requires Entries(s.run)
  {
    Addr(s.run, s.base, |s.run|)
  }

  /** The file of an entry is stored, in bytes before `at`; an empty one has no offset. */
  ghost predicate FileDone(s: State, e: Tree, at: nat)
    requires s.packing.blk > 0 && Entries(s.run) && e.Entry? && e.file.Some? && e.id in s.off
  {
    if e.size == 0 then s.off[e.id] == 0
    else
      && DirEnd(s) <= s.off[e.id] < MAX_OFFSET && s.off[e.id] % 4 == 0
      && e.id in s.data && s.data[e.id] == s.off[e.id]
      && FileAt(s.image, s.big, s.packing, e.file.value, s.off[e.id], at)
  }

  /** A file that could not be read: its inode points to the next file that was stored,
      or, as long as there is none, to the end `at` of the data. */
  ghost predicate Lost(s: State, e: Tree, n: nat, at: nat)
    requires Entries(s.run) && e.Entry? && e.id in s.off
  {
    && DirEnd(s) <= s.off[e.id] < MAX_OFFSET && s.off[e.id] % 4 == 0
    && (s.off[e.id] == at || exists k :: 0 <= k < |s.run| && Instead(s, e, k, n))
  }

  /** Entry number `k` of the run is stored where the lost file of `e` should be. */
  ghost predicate Instead(s: State, e: Tree, k: nat, n: nat)
    requires Entries(s.run) && e.Entry? && e.id in s.off && k < |s.run|
  {
    var f := s.run[k];
    f.file.Some? && f.size > 0 && f.id in s.readable && e.id < f.id < n && f.id in s.off && s.off[f.id] == s.off[e.id]
  }

  /** The files of entries before number `n` are stored, but for those that cannot be
      read; all other offsets are as they were. */
  ghost predicate DoneAt(s: State, k: nat, n: nat, at: nat, off0: map<nat, nat>)
    requires s.packing.blk > 0 && Entries(s.run) && k < |s.run|
  {
    var e := s.run[k];
    && e.id in s.off && e.id in off0
    && if e.file.Some? && e.id < n then (if Skipped(e, s.readable) then Lost(s, e, n, at) else FileDone(s, e, at))
       else s.off[e.id] == off0[e.id]
  }

  ghost predicate Data(s: State, n: nat, at: nat, off0: map<nat, nat>) {
    && s.packing.blk > 0 && Entries(s.run) && Distinct(s.run)
    && DirEnd(s) <= at && at % 4 == 0 && Begun(s, n, at)
    && forall k :: 0 <= k < |s.run| ==> DoneAt(s, k, n, at, off0)
  }

  /** The first file comes right after the directories. */
  ghost predicate Begun(s: State, n: nat, at: nat)
    requires Entries(s.run)
  {
    at == DirEnd(s) || exists k :: 0 <= k < |s.run| && First(s, k, n)
  }

  ghost predicate First(s: State, k: nat, n: nat)
    requires Entries(s.run) && k < |s.run|
  {
    var e := s.run[k];
    e.file.Some? && e.size > 0 && e.id < n && e.id in s.off && s.off[e.id] == DirEnd(s)
  }

  /** `s` with the file of entry number `n` at `o`, and nothing else changed. */
  ghost predicate Stored(s: State, t: State, n: nat, o: nat, at: nat)
    requires Entries(s.run)
  {
    && t == s.(image := t.image, off := s.off[n := o], data := s.data[n := o])
    && SameBytes(s.image, t.image, DirEnd(s), at)
  }

  /** The data did not grow, or a file was stored at its end. */
  ghost predicate Grows(s: State, j: nat, n: nat, o: nat, at: nat, at': nat)
    requires Entries(s.run) && j < |s.run|
  {
    var e := s.run[j];
    e.id == n && e.file.Some? && e.size > 0
    && (at' == at || (o == at < at' && e.id in s.readable))
  }

  lemma StaysDone(s: State, t: State, k: nat, j: nat, n: nat, o: nat, at: nat, at': nat, off0: map<nat, nat>)
    requires s.packing.blk > 0 && Entries(s.run) && k < |s.run| && DoneAt(s, k, n, at, off0)
    requires Stored(s, t, n, o, at) && s.run[k].id != n && j < |s.run| && Grows(s, j, n, o, at, at')
    ensures DoneAt(t, k, n + 1, at', off0)
  {
    var e := s.run[k];
    if e.file.Some? && e.id < n && e.size > 0 {
      if Skipped(e, s.readable) {
        StaysLost(s, t, e, j, n, o, at, at');
      } else {
        FileKept(s.image, t.image, s.big, s.packing, e.file.value, s.off[e.id], at);
      }
    }
  }

  lemma StaysLost(s: State, t: State, e: Tree, j: nat, n: nat, o: nat, at: nat, at': nat)
    requires Entries(s.run) && e.Entry? && e.id in s.off && e.id < n && Lost(s, e, n, at)
    requires Stored(s, t, n, o, at) && j < |s.run| && Grows(s, j, n, o, at, at')
    ensures Lost(t, e, n + 1, at')
  {
    var m := n + 1;
    if s.off[e.id] != at {
      var k :| 0 <= k < |s.run| && Instead(s, e, k, n);
      assert Instead(t, e, k, m);
    } else if at' != at {
      assert Instead(t, e, j, m);
    }
  }

  lemma NowDone(s: State, t: State, e: Tree, n: nat, o: nat, at: nat, at': nat, off0: map<nat, nat>)
    requires Data(s, n, at, off0) && Stored(s, t, n, o, at) && at' % 4 == 0
    requires InRun(e, s.run, |s.run|) && e.id == n && e.file.Some? && e.size > 0
    requires if e.id in s.readable then FileDone(t, e, at') else Lost(t, e, n + 1, at')
    requires at' == at || (o == at < at' && e.id in s.readable)
    requires o == at || DirEnd(s) < at
    ensures Data(t, n + 1, at', off0)
  {
    hide FileDone, Lost;
    var j :| 0 <= j < |s.run| && s.run[j] == e;
    var m := n + 1;
    if at == DirEnd(s) {
      assert First(t, j, m);
    } else {
      var k :| 0 <= k < |s.run| && First(s, k, n);
      assert First(t, k, m);
    }
    forall k | 0 <= k < |s.run|
      ensures DoneAt(t, k, m, at', off0)
    {
      assert DoneAt(s, k, n, at, off0);
      if k != j {
        assert Differ(s.run, if k < j then k else j, if k < j then j else k);
        StaysDone(s, t, k, j, n, o, at, at', off0);
      }
    }
  }

  lemma StillLost(s: State, k: nat, n: nat, at: nat)
    requires Entries(s.run) && k < |s.run| && s.run[k].id in s.off
    ensures Lost(s, s.run[k], n, at) ==> Lost(s, s.run[k], n + 1, at)
  {
    var e, m := s.run[k], n + 1;
    if Lost(s, e, n, at) && s.off[e.id] != at {
      var l :| 0 <= l < |s.run| && Instead(s, e, l, n);
      assert Instead(s, e, l, m);
    }
  }

  /** An entry without a file, or with an empty one, needs nothing. */
  lemma NothingToDo(s: State, e: Tree, n: nat, at: nat, off0: map<nat, nat>)
    requires Data(s, n, at, off0) && InRun(e, s.run, |s.run|) && e.id == n
    requires e.file.Some? ==> e.size == 0 && n in off0 && off0[n] == 0
    ensures Data(s, n + 1, at, off0)
  {
    var j :| 0 <= j < |s.run| && s.run[j] == e;
    var m := n + 1;
    if at != DirEnd(s) {
      var k :| 0 <= k < |s.run| && First(s, k, n);
      assert First(s, k, m);
    }
    forall k | 0 <= k < |s.run|
      ensures DoneAt(s, k, m, at, off0)
    {
      assert DoneAt(s, k, n, at, off0);
      if k != j {
        assert Differ(s.run, if k < j then k else j, if k < j then j else k);
        StillLost(s, k, n, at);
      }
    }
  }

  /** Another entry with the same file, which can be read. */
  ghost predicate IsTwin(twin: Tree, e: Tree, readable: set<nat>)
    requires twin.Entry? && e.Entry?
  {
    twin.file == e.file && twin.size == e.size && twin.id in readable
  }

  /** An entry marked as a duplicate has a non-empty file that can be read, and an
      entry with a smaller number has the same one. */
  ghost predicate Twin(run: seq<Tree>, same: map<nat, nat>, readable: set<nat>, e: Tree)
    requires Entries(run) && e.Entry?
  {
    e.id in same ==>
      && same[e.id] < e.id && e.file.Some? && e.size > 0 && e.id in readable
      && exists k :: 0 <= k < |run| && run[k].id == same[e.id] && IsTwin(run[k], e, readable)
  }

  /** All entries of a tree are in the run, and as the data writer expects them. */
  ghost predicate Known(t: Tree, run: seq<Tree>, same: map<nat, nat>, readable: set<nat>)
    requires Entries(run)
  {
    t.Entry? ==>
      && InRun(t, run, |run|) && Twin(run, same, readable, t)
      && (t.file.Some? ==> |t.file.value| == t.size && t.child.Null?)
      && Known(t.child, run, same, readable) && Known(t.next, run, same, readable)
  }

  /** Entries with a file have no contents yet. */
  ghost predicate NoFileOffsets(run: seq<Tree>, off: map<nat, nat>)
    requires Entries(run)
  {
    forall k :: 0 <= k < |run| && run[k].file.Some? ==> NoContents(run, off, k)
  }

  lemma FileOffset(run: seq<Tree>, off: map<nat, nat>, e: Tree)
    requires Entries(run) && NoFileOffsets(run, off) && InRun(e, run, |run|) && e.file.Some?
    ensures e.id in off && off[e.id] == 0
  {
    var k :| 0 <= k < |run| && run[k] == e;
    assert NoContents(run, off, k);
  }

  class Writer {
    const big: bool   // byte order of the image
    const host: bool  // byte order of the machine
    const packing: Packing
    const same: map<nat, nat>  // the entry with the same file, if there is one
    const readable: set<nat>   // the entries whose files can be read
    var image: Bytes
    var dirOffset: map<nat, nat>   // dir_offset of each entry
    var dataOffset: map<nat, nat>  // offset of each file, 0 at first
    var totalNodes: nat
    var totalBlocks: nat
    var warnSkip: bool             // a file was skipped
    ghost var off: map<nat, nat>   // the contents offset in each inode
    ghost var base: nat            // the directory area and the entries that it gets
    ghost var run: seq<Tree>

    constructor (big: bool, host: bool, packing: Packing, same: map<nat, nat>, readable: set<nat>, size: nat)
      ensures this.big == big && this.host == host && this.packing == packing && this.same == same
      ensures this.readable == readable && image == Zeros(size) && totalNodes == 1 && !warnSkip
    {
      this.big, this.host, this.packing, this.same, this.readable := big, host, packing, same, readable;
      totalNodes, totalBlocks, warnSkip := 1, 0, false;
      image, dirOffset, dataOffset, off, base, run := Zeros(size), map[], map[], map[], 0, [];
    }

    method Put(at: nat, b: Bytes) returns (ok: bool)
      modifies this`image
      ensures ok <==> at + |b| <= |image|
      ensures Outside(old(image), image, at, at + |b|)
      ensures ok ==> HoldsAt(image, at, b)
    {
      ok := at + |b| <= |image|;
      if ok {
        image := image[..at] + b + image[at + |b|..];
      }
    }

    /** One entry at `offset`: inode and padded name. */
    method WriteEntry(e: Tree, offset: nat) returns (ok: bool, next: nat)
      requires e.Entry?
      modifies this`image, this`dirOffset
      ensures next == offset + EntrySize(e) && dirOffset == old(dirOffset)[e.id := offset]
      ensures Outside(old(image), image, offset, next)
      ensures ok <==> next <= |image|
      ensures ok ==> EntryAt(image, big, offset, e, 0)
    {
      dirOffset := dirOffset[e.id := offset];
      next := offset + EntrySize(e);
      var len;
      ok, len := WriteName(e.name, offset + INODE_SIZE);
      if !ok {
        return;
      }
      var inode := Inode(e.mode, e.uid % 0x1_0000, e.size % 0x100_0000, e.gid % 0x100, len / 4 % 0x40, 0);
      assert inode == InodeOf(e, 0);
      ok := PutInode(offset, inode);
    }

    /** An inode as the machine lays it out, brought into the byte order of the image. */
    method PutInode(at: nat, inode: Inode) returns (ok: bool)
      modifies this`image
      ensures Outside(old(image), image, at, at + INODE_SIZE)
      ensures ok <==> at + INODE_SIZE <= |image|
      ensures ok ==> HoldsAt(image, at, Encode(big, inode))
    {
      ToggleReencodes(host, big, inode);
      ok := Put(at, Toggle(host, big, Encode(host, inode)));
    }

    /** The inode at `at`, as the machine sees it. */
    method GetInode(at: nat, ghost inode: Inode) returns (r: Inode)
      requires HoldsAt(image, at, Encode(big, inode))
      ensures r == inode
    {
      var b := image[at..at + INODE_SIZE];
      assert b == Encode(big, inode);
      ToggleReencodes(big, host, inode);
      InodeRoundTrip(host, inode);
      r := Decode(host, Toggle(big, host, b));
    }

    /** set_data_offset() */
    method SetDataOffset(e: Tree, offset: nat, ghost was: nat) returns (ok: bool)
      requires e.Entry? && e.id in dirOffset && EntryAt(image, big, dirOffset[e.id], e, was)
      modifies this`image
      ensures OnlyInode(old(image), image, dirOffset[e.id])
      ensures ok <==> offset < MAX_OFFSET
      ensures ok ==> HoldsAt(image, dirOffset[e.id], Encode(big, InodeOf(e, offset)))
    {
      var at := dirOffset[e.id];
      var inode := GetInode(at, InodeOf(e, was));
      if offset >= MAX_OFFSET {
        return false;
      }
      inode := inode.(offset := offset / 4);
      assert inode == InodeOf(e, offset);
      ok := PutInode(at, inode);
    }

    /** A name, padded with zeros to a multiple of 4 bytes. */
    method WriteName(name: Bytes, at: nat) returns (ok: bool, len: nat)
      modifies this`image
      ensures len == Pad4(|name|)
      ensures Outside(old(image), image, at, at + len)
      ensures ok <==> at + len <= |image|
      ensures ok ==> HoldsAt(image, at, PaddedName(name))
    {
      ok := Put(at, name);
      len := |name|;
      while len % 4 != 0
        invariant |name| <= len <= Pad4(|name|) && Outside(old(image), image, at, at + len)
        invariant ok <==> at + len <= |image|
        invariant ok ==> forall i :: at <= i < at + len ==> image[i] == if i - at < |name| then name[i - at] else 0
        decreases Pad4(|name|) - len
      {
        var put := Put(at + len, [0]);
        ok := ok && put;
        len := len + 1;
      }
      if ok {
        var padded := PaddedName(name);
        assert forall k :: 0 <= k < |padded| ==> padded[k] == if k < |name| then name[k] else 0;
      }
    }

    /** The first `n` entries of the run are written, the others have no contents yet. */
    ghost predicate Written(n: nat)
      reads this
    {
      && Entries(run) && Distinct(run) && n <= |run| && totalNodes == 1 + n
      && RunAt(image, big, base, run, n, off, dirOffset)
      && forall k :: n <= k < |run| ==> NoContents(run, off, k)
    }

    /** All entries of the run have their place, at an offset that an inode can hold. */
    ghost predicate Roomy()
      requires Entries(run)
      reads this
    {
      Addr(run, base, |run|) <= |image| && Addr(run, base, |run|) < MAX_OFFSET
    }

    /** The next entry of the run. */
    method WriteNext(e: Tree, offset: nat, ghost n: nat) returns (ok: bool, next: nat)
      requires Written(n) && n < |run| && run[n] == e && offset == Addr(run, base, n)
      modifies this`image, this`dirOffset, this`totalNodes
      ensures HeadKept(old(image), image, base)
      ensures next == offset + EntrySize(e) && TailKept(old(image), image, next)
      ensures (ok <==> next <= |image|) && next == Addr(run, base, n + 1)
      ensures ok ==> Written(n + 1)
    {
      ghost var was, dir := image, dirOffset;
      assert NoContents(run, off, n);
      AddrFromBase(run, base, n);
      totalNodes := totalNodes + 1;
      ok, next := WriteEntry(e, offset);
      if ok {
        RunGrows(was, image, big, base, run, n, off, dir);
      }
    }

    /** The entries of one directory; those that are non-empty directories go onto the
        stack. */
    method WriteList(list: Tree, offset: nat, stack: seq<Tree>, ghost n: nat)
      returns (ok: bool, next: nat, more: seq<Tree>, ghost m: nat)
      requires Written(n) && offset == Addr(run, base, n) && SiblingsAt(run, n, list) && Among(stack, run, n)
      modifies this`image, this`dirOffset, this`totalNodes
      ensures HeadKept(old(image), image, base)
      ensures ok ==> m == n + Length(list) && next == offset + ListSize(list) && TailKept(old(image), image, next)
      ensures !ok ==> !Roomy()
      ensures ok ==> Written(m) && next == Addr(run, base, m)
      ensures ok ==> more == PushEach(stack, list) && Among(more, run, m)
    {
      hide RunAt, EntryAt;
      var t := list;
      ok, next, more, m := true, offset, stack, n;
      while t.Entry?
        invariant HeadKept(old(image), image, base) && m + Length(t) == n + Length(list)
        invariant next + ListSize(t) == offset + ListSize(list) && TailKept(old(image), image, next)
        invariant Written(m) && next == Addr(run, base, m) && SiblingsAt(run, m, t)
        invariant PushEach(more, t) == PushEach(stack, list) && Among(more, run, m)
        decreases t
      {
        AmongGrows(more, run, m);
        ghost var was, before := image, next;
        ok, next := WriteNext(t, next, m);
        if !ok {
          if m + 1 < |run| {
            AddrIncreases(run, base, m + 1, |run|);
          }
          return;
        }
        TailTwice(old(image), was, image, before, next);
        if t.child.Entry? {
          more := more + [t];
        }
        t, m := t.next, m + 1;
      }
    }

    /** Sets the contents offset of an entry of the run. */
    method SetContents(e: Tree, offset: nat, ghost n: nat)
      returns (ok: bool)
      requires Written(n) && InRun(e, run, n)
      modifies this`image, this`off
      ensures HeadKept(old(image), image, base) && TailKept(old(image), image, Addr(run, base, n))
      ensures ok <==> offset < MAX_OFFSET
      ensures ok ==> Written(n) && off == old(off)[e.id := offset]
    {
      ghost var j :| 0 <= j < n && run[j] == e;
      AddrIncreases(run, base, j, n);
      AddrFromBase(run, base, j);
      assert Placed(image, big, base, run, j, off, dirOffset);
      ghost var was := image;
      ok := SetDataOffset(e, offset, off[e.id]);
      if ok {
        RunPatched(was, image, big, base, run, n, off, dirOffset, j, offset);
        ghost var before := off;
        off := off[e.id := offset];
        forall k | n <= k < |run|
          ensures NoContents(run, off, k)
        {
          assert NoContents(run, before, k) && Differ(run, j, k);
        }
      }
    }

    /** What is left of the run: the list `entry`, all below it, and the stack. */
    ghost predicate Next(entry: Tree, stack: seq<Tree>, n: nat)
      reads this
      requires Stacked(stack)
    {
      && SiblingsAt(run, n, entry) && SubsAt(run, n + Length(entry), entry)
      && StackAt(run, n + Length(entry) + SubCount(entry), stack)
    }

    /** Takes the top directory from the stack: its contents will begin at `offset`. */
    method Pop(stack: seq<Tree>, offset: nat, ghost n: nat) returns (ok: bool, rest: seq<Tree>, entry: Tree)
      requires Written(n) && |stack| > 0 && Stacked(stack) && Among(stack, run, n) && StackAt(run, n, stack)
      modifies this`image, this`off
      ensures HeadKept(old(image), image, base) && TailKept(old(image), image, Addr(run, base, n))
      ensures Stacked(rest) && Among(rest, run, n) && entry.Entry?
      ensures Next(entry, rest, n)
      ensures ok <==> offset < MAX_OFFSET
      ensures ok ==> Written(n)
      ensures ok ==> AssignStack(stack, offset, old(off)) == AssignAll(entry, rest, offset, off)
    {
      var top := stack[|stack| - 1];
      rest := stack[..|stack| - 1];
      entry := top.child;
      assert InRun(top, run, n);
      assert Stacked(rest) && Among(rest, run, n);
      assert stack == rest + [top];
      AssignPush(rest, top, offset, off);
      ok := SetContents(top, offset, n);
    }

    /** One directory and the subdirectories it leaves on the stack, first on top. */
    method WriteDirectory(entry: Tree, offset: nat, stack: seq<Tree>, ghost n: nat)
      returns (ok: bool, next: nat, more: seq<Tree>, ghost m: nat)
      requires Written(n) && offset == Addr(run, base, n) && Stacked(stack) && Among(stack, run, n)
      requires Next(entry, stack, n)
      modifies this`image, this`dirOffset, this`totalNodes
      ensures HeadKept(old(image), image, base)
      ensures Stacked(more) && (entry.Null? && stack == [] ==> more == [])
      ensures !ok ==> !Roomy()
      ensures ok ==> m == n + Length(entry) && Written(m) && Among(more, run, m) && next == Addr(run, base, m)
      ensures ok ==> offset <= next && TailKept(old(image), image, next)
      ensures ok ==> StackAt(run, m, more) && AssignStack(more, next, off) == AssignAll(entry, stack, offset, off)
    {
      hide RunAt, Among, SubsAt, StackAt, SiblingsAt, Assign, AssignStack, PushEach, ListSize, SubSize;
      ok, next, more, m := WriteList(entry, offset, stack, n);
      if !ok {
        more := [];
        return;
      }
      more := Reversed(entry, stack, more, m);
      StackDirs(run, m, stack, entry);
      AssignDirs(stack, entry, next, off);
    }

    method Reversed(entry: Tree, stack: seq<Tree>, more: seq<Tree>, ghost m: nat) returns (r: seq<Tree>)
      requires Stacked(stack) && more == PushEach(stack, entry)
      requires m <= |run| && Among(more, run, m)
      ensures r == Push(stack, entry) && Stacked(r) && Among(r, run, m)
    {
      PushEachIs(stack, entry);
      PushIsReverse(stack, entry);
      assert more[..|stack|] == stack && more[|stack|..] == Dirs(entry);
      r := ReverseTop(more, |stack|);
      forall k | 0 <= k < |r|
        ensures InRun(r[k], run, m)
      {
        if k >= |stack| {
          ReverseAt(Dirs(entry), k - |stack|);
          assert InRun(more[|stack| + |Dirs(entry)| - 1 - (k - |stack|)], run, m);
        } else {
          assert InRun(more[k], run, m);
        }
      }
    }

    /** The directory `entry` is next, at `at`, and then those on the stack. */
    ghost predicate AtDirectory(entry: Tree, stack: seq<Tree>, at: nat, n: nat, goal: map<nat, nat>)
      reads this
    {
      && Written(n) && at == Addr(run, base, n)
      && Stacked(stack) && Among(stack, run, n) && (entry.Null? ==> stack == [])
      && Next(entry, stack, n)
      && AssignAll(entry, stack, at, off) == goal
    }

    /** The whole run is written. */
    ghost predicate Complete(end: nat, goal: map<nat, nat>)
      reads this
    {
      Written(|run|) && end == Addr(run, base, |run|) && off == goal
    }

    /** One round: writes a directory and takes the next from the stack. */
    method Round(entry: Tree, stack: seq<Tree>, at: nat, ghost n: nat, ghost goal: map<nat, nat>)
      returns (ok: bool, more: bool, entry': Tree, stack': seq<Tree>, at': nat, ghost m: nat)
      requires AtDirectory(entry, stack, at, n, goal)
      modifies this`image, this`dirOffset, this`totalNodes, this`off
      ensures HeadKept(old(image), image, base)
      ensures !ok ==> !Roomy()
      ensures ok && more ==> n < m && AtDirectory(entry', stack', at', m, goal)
      ensures ok && !more ==> Complete(at', goal)
      ensures ok ==> at <= at' && TailKept(old(image), image, at')
    {
      more, entry' := false, Null;
      ok, at', stack', m := WriteDirectory(entry, at, stack, n);
      if ok && stack' != [] {
        more := true;
        ghost var was := image;
        ok, stack', entry' := Pop(stack', at', m);
        if m < |run| {
          AddrIncreases(run, base, m, |run|);
        }
        TailTwice(old(image), was, image, at', at');
      }
    }

    lemma AtStart(t: Tree)
      requires Entries(run) && Distinct(run) && run == Order(t) && off == NoOffsets(run) && totalNodes == 1
      ensures AtDirectory(t, [], base, 0, Assign(t, base + ListSize(t), off))
    {
      OrderStands(t);
    }

    /** write_directory_structure(): the entries come out in order without a gap from
        `offset` on, and each inode of a non-empty directory tells where its contents
        begin. */
    method WriteDirectoryStructure(t: Tree, offset: nat) returns (ok: bool, end: nat)
      requires Entries(Order(t)) && Distinct(Order(t)) && totalNodes == 1
      modifies this`image, this`dirOffset, this`totalNodes, this`off, this`base, this`run
      ensures HeadKept(old(image), image, offset)
      ensures run == Order(t) && base == offset
      ensures !ok ==> !Roomy()
      ensures ok ==> Complete(end, Assign(t, offset + ListSize(t), NoOffsets(run)))
      ensures ok ==> TailKept(old(image), image, end)
    {
      hide RunAt, StackAt, SubsAt, SiblingsAt, Among, AssignAll, Assign, Order;
      base, run, off := offset, Order(t), NoOffsets(Order(t));
      ghost var goal := Assign(t, offset + ListSize(t), off);
      ghost var n: nat := 0;
      var entry, stack: seq<Tree>, more := t, [], true;
      end := offset;
      AtStart(t);
      while more
        invariant HeadKept(old(image), image, offset) && run == Order(t) && base == offset
        invariant TailKept(old(image), image, end)
        invariant more ==> AtDirectory(entry, stack, end, n, goal)
        invariant !more ==> Complete(end, goal)
        decreases more, |run| - n
      {
        ghost var was, before := image, end;
        ok, more, entry, stack, end, n := Round(entry, stack, end, n, goal);
        if !ok {
          return;
        }
        TailTwice(old(image), was, image, before, end);
      }
      ok := true;
    }


    // ---------- File contents ----------

    /** One block: its bytes at `curr`, if it is not a hole, and its pointer at `ptr`. */
    method PutBlock(rest: Bytes, ptr: nat, curr: nat) returns (ok: bool, next: nat)
      requires |image| < 0x1_0000_0000 && ptr + 4 <= curr <= |image|
      modifies this`image
      ensures |image| == old(|image|) && next == curr + |Piece(packing, rest)|
      ensures forall k :: 0 <= k < |image| && !(ptr <= k < ptr + 4) && !(curr <= k < next) ==> image[k] == old(image[k])
      ensures ok <==> next <= |image| && |Piece(packing, rest)| <= 2 * packing.blk
      ensures ok ==> BlockAt(image, big, packing, rest, ptr, curr)
    {
      var head := Head(packing, rest);
      var hole := IsZero(head, packing.holes);
      next := curr;
      ok := true;
      if !hole {
        next := curr + |packing.deflate(head)|;
        ok := Put(curr, packing.deflate(head));
      }
      if !ok || next - curr > 2 * packing.blk {
        return false, next;
      }
      ok := PutPointer(ptr, next);
    }

    /** A pointer, in the byte order of the image. */
    method PutPointer(ptr: nat, w: u32) returns (ok: bool)
      modifies this`image
      ensures Outside(old(image), image, ptr, ptr + 4)
      ensures (ok <==> ptr + 4 <= |image|) && (ok ==> WordAt(image, big, ptr, w))
    {
      ToggleU32Stores(host, big, w);
      U32RoundTrip(big, w);
      var b := U32Bytes(host, ToggleU32(host, big, w));
      ok := Put(ptr, b);
      assert ok ==> image[ptr..ptr + 4] == b;
    }

    method CountBlocks(size: nat) returns (blocks: nat)
      requires size > 0 && packing.blk > 0
      ensures blocks == Blocks(size, packing.blk)
    {
      BlocksIs(size, packing.blk);
      blocks := (size - 1) / packing.blk + 1;
    }

    /** do_compress(): a non-empty file. */
    method DoCompress(content: Bytes, offset: nat) returns (ok: bool, end: nat)
      requires |content| > 0 && packing.blk > 0 && |image| < 0x1_0000_0000
      modifies this`image, this`totalBlocks
      ensures HeadKept(old(image), image, offset)
      ensures ok ==> FileAt(image, big, packing, content, offset, end) && Outside(old(image), image, offset, end)
      ensures offset <= end && (ok ==> end == Pad4(offset + Packed(packing, content)))
      ensures ok <==> PiecesFit(packing, content) && offset + Packed(packing, content) <= |image|
    {
      hide PackedSoFar, FileAt, BlockAt, Piece;
      var blocks := CountBlocks(|content|);
      PackedStart(image, big, packing, content, offset, blocks);
      var ptr: nat, curr: nat, rest := offset, offset + 4 * blocks, content;
      end := curr;
      if curr > |image| {
        return false, end;
      }
      totalBlocks := totalBlocks + blocks;
      ghost var i: nat := 0;
      while |rest| > 0
        invariant |image| == old(|image|) && offset <= ptr
        invariant ptr + 4 * Blocks(|rest|, packing.blk) == offset + 4 * blocks <= curr <= |image|
        invariant PackedSoFar(image, big, packing, content, offset, blocks, i, rest, ptr, curr)
        invariant Outside(old(image), image, offset, curr)
        invariant Remains(packing, content, offset + Packed(packing, content), rest, curr)
      {
        var next;
        ghost var was := image;
        RemainsLess(packing, content, offset + Packed(packing, content), rest, curr);
        ok, next := PutBlock(rest, ptr, curr);
        if !ok {
          return;
        }
        PackedMore(was, image, big, packing, content, offset, blocks, i, rest, ptr, curr);
        ptr, curr, rest, i := ptr + 4, next, Tail(packing, rest), i + 1;
      }
      ok, end := true, Pad4(curr);
      assert rest == [];
      PackedEnd(image, big, packing, content, offset, blocks, i, ptr, curr, end);
    }

    ghost function Snapshot(): State
      reads this
    {
      State(big, packing, base, run, image, off, dataOffset, readable)
    }

    /** All entries are written, and the files of those before number `n` that can be
        read. */
    ghost predicate Ready(n: nat, at: nat, off0: map<nat, nat>)
      reads this
    {
      && |image| < 0x1_0000_0000 && packing.blk > 0 && Written(|run|)
      && Addr(run, base, |run|) <= at && at % 4 == 0
      && Data(Snapshot(), n, at, off0)
    }

    /** Gives a file that is already there another entry. */
    method Share(e: Tree, o: nat, at: nat, ghost off0: map<nat, nat>) returns (ok: bool)
      requires e.Entry? && Ready(e.id, at, off0)
      requires InRun(e, run, |run|) && e.file.Some? && |e.file.value| == e.size > 0 && e.id in readable
      requires DirEnd(Snapshot()) <= o && o % 4 == 0 && FileAt(image, big, packing, e.file.value, o, at)
      modifies this`image, this`off, this`dataOffset
      ensures HeadKept(old(image), image, base)
      ensures at < MAX_OFFSET ==> ok
      ensures ok ==> Ready(e.id + 1, at, off0) && TailKept(old(image), image, at)
    {
      hide RunAt, DoneAt, FileAt, Begun, NoContents;
      ghost var s := Snapshot();
      FileTakesRoom(image, big, packing, e.file.value, o, at);
      ok := SetContents(e, o, |run|);
      if ok {
        dataOffset := dataOffset[e.id := o];
        FileTakesRoom(s.image, big, packing, e.file.value, o, at);
        FileKept(s.image, image, big, packing, e.file.value, o, at);
        NowDone(s, Snapshot(), e, e.id, o, at, at, off0);
      }
    }

    /** Stores a file; when it cannot be read, its inode gets an offset, and nothing is
        stored there. */
    method Store(e: Tree, at: nat, ghost off0: map<nat, nat>) returns (ok: bool, end: nat)
      requires e.Entry? && Ready(e.id, at, off0)
      requires InRun(e, run, |run|) && e.file.Some? && |e.file.value| == e.size > 0
      modifies this`image, this`off, this`dataOffset, this`totalBlocks, this`warnSkip
      ensures HeadKept(old(image), image, base) && at <= end
      ensures warnSkip <==> old(warnSkip) || (ok && e.id !in readable)
      ensures at < MAX_OFFSET && PiecesFit(packing, e.file.value) && at + FileNeed(packing, e) <= |image| ==> ok
      ensures ok ==> end <= at + FileNeed(packing, e)
      ensures ok ==> Ready(e.id + 1, end, off0) && TailKept(old(image), image, end)
      // Nothing is stored of a file that cannot be read: only its inode has changed.
      ensures e.id !in readable ==> end == at && TailKept(old(image), image, Addr(run, base, |run|))
    {
      hide RunAt, DoneAt, FileAt, Begun, NoContents;
      end := at;
      AddrFromBase(run, base, |run|);
      ghost var s := Snapshot();
      ok := SetContents(e, at, |run|);
      if !ok {
        return;
      }
      dataOffset := dataOffset[e.id := at];
      if e.id !in readable {
        warnSkip := true;
        NowDone(s, Snapshot(), e, e.id, at, at, at, off0);
        return;
      }
      ok, end := Pack(e, at, s, off0);
    }

    /** The contents of a file whose inode has been set since the state `s`. */
    method Pack(e: Tree, at: nat, ghost s: State, ghost off0: map<nat, nat>) returns (ok: bool, end: nat)
      requires e.Entry? && |image| < 0x1_0000_0000 && packing.blk > 0 && Written(|run|) && Data(s, e.id, at, off0)
      requires Snapshot() == s.(image := image, off := s.off[e.id := at], data := s.data[e.id := at])
      requires TailKept(s.image, image, DirEnd(s)) && base <= DirEnd(s) <= at < MAX_OFFSET && at % 4 == 0
      requires InRun(e, run, |run|) && e.file.Some? && |e.file.value| == e.size > 0 && e.id in readable
      modifies this`image, this`totalBlocks
      ensures HeadKept(old(image), image, at) && at <= end
      ensures PiecesFit(packing, e.file.value) && at + FileNeed(packing, e) <= |image| ==> ok
      ensures ok ==> end <= at + FileNeed(packing, e)
      ensures ok ==> Ready(e.id + 1, end, off0) && TailKept(old(image), image, end)
    {
      hide RunAt, DoneAt, FileAt, Begun, NoContents;
      ghost var patched := image;
      PadShift(at, Packed(packing, e.file.value));
      ok, end := DoCompress(e.file.value, at);
      if ok {
        RunKept(patched, image, big, base, run, |run|, off, dirOffset);
        FileTakesRoom(image, big, packing, e.file.value, at, end);
        NowDone(s, Snapshot(), e, e.id, at, at, end, off0);
      }
    }

    lemma PassOver(e: Tree, n: nat, at: nat, off0: map<nat, nat>)
      requires Ready(n, at, off0) && InRun(e, run, |run|) && e.id == n
      requires e.file.Some? ==> e.size == 0 && n in off0 && off0[n] == 0
      ensures Ready(n + 1, at, off0)
    {
      NothingToDo(Snapshot(), e, n, at, off0);
    }

    /** The file of one entry, if it has one. */
    method WriteFile(e: Tree, at: nat, ghost off0: map<nat, nat>) returns (ok: bool, end: nat)
      requires e.Entry? && Ready(e.id, at, off0) && e.id in off0 && off0[e.id] == 0
      requires e.file.Some? && Known(e, run, same, readable)
      modifies this`image, this`off, this`dataOffset, this`totalBlocks, this`warnSkip
      ensures HeadKept(old(image), image, base) && at <= end
      ensures PiecesFit(packing, e.file.value) && at + FileNeed(packing, e) <= |image| && at < MAX_OFFSET ==> ok
      ensures ok ==> end <= at + FileNeed(packing, e)
      ensures ok ==> Ready(e.id + 1, end, off0) && TailKept(old(image), image, end)
      ensures ok ==> (warnSkip <==> old(warnSkip) || Skipped(e, readable))
    {
      ok, end := true, at;
      if e.id in same {
        ghost var k :| 0 <= k < |run| && run[k].id == same[e.id] && IsTwin(run[k], e, readable);
        assert DoneAt(Snapshot(), k, e.id, at, off0);
        var o := if same[e.id] in dataOffset then dataOffset[same[e.id]] else 0;
        ok := Share(e, o, at, off0);
      } else if e.size > 0 {
        ok, end := Store(e, at, off0);
      } else {
        PassOver(e, e.id, at, off0);
      }
    }

    /** write_data(): every file of the tree, in the order of its numbers. */
    method WriteData(t: Tree, at: nat, ghost n: nat, ghost off0: map<nat, nat>) returns (ok: bool, end: nat)
      requires packing.blk > 0 && Entries(run) && Ready(n, at, off0) && Numbered(t, n) && Known(t, run, same, readable)
      requires NoFileOffsets(run, off0)
      modifies this`image, this`off, this`dataOffset, this`totalBlocks, this`warnSkip
      ensures HeadKept(old(image), image, base)
      ensures AllFit(packing, t) && at + Need(packing, t) <= |image| && at + Need(packing, t) < MAX_OFFSET ==> ok
      ensures ok ==> end <= at + Need(packing, t)
      ensures ok ==> Ready(n + Nodes(t), end, off0) && at <= end && TailKept(old(image), image, end)
      ensures ok ==> (warnSkip <==> old(warnSkip) || Skips(t, readable))
      decreases t
    {
      hide Ready, Data, RunAt, Twin, NoFileOffsets, PiecesFit, FileNeed, Need, AllFit;
      ok, end := true, at;
      var e := t;
      ghost var m: nat := n;
      while e.Entry?
        invariant HeadKept(old(image), image, base) && m + Nodes(e) == n + Nodes(t) && at <= end
        invariant TailKept(old(image), image, end)
        invariant Entries(run) && Ready(m, end, off0) && Numbered(e, m) && Known(e, run, same, readable)
        invariant (warnSkip || Skips(e, readable)) <==> (old(warnSkip) || Skips(t, readable))
        invariant end + Need(packing, e) <= at + Need(packing, t) && (AllFit(packing, t) ==> AllFit(packing, e))
        invariant e == t || e < t
        decreases e
      {
        ghost var was, before := image, end;
        NeedParts(packing, e);
        if e.file.Some? {
          FileOffset(run, off0, e);
          ok, end := WriteFile(e, end, off0);
        } else {
          PassOver(e, m, end, off0);
          if e.child.Entry? {
            ok, end := WriteData(e.child, end, m + 1, off0);
          }
        }
        if !ok {
          return;
        }
        TailTwice(old(image), was, image, before, end);
        m := m + 1 + Nodes(e.child);
        e := e.next;
      }
    }
  }
}
