/** Moving a partition's data in place on its disk (disk-utils/sfdisk.c,
    move_partition_data).

    The program copies in large steps through one buffer, chooses the direction
    from the overlap of source and target, and carries on after an I/O error. The
    reference is a byte-by-byte statement over the whole device: which bytes end
    up as which original bytes, for every geometry and every pattern of errors.
  */
module MovePartition {
  import opened Common
  import opened Division

  /** Start and size of a partition in sectors; either may be unknown. */
  datatype Partition = Partition(start: Option<nat>, size: Option<nat>)

  /** What the device does at step `cc` (counted from 1): the read fails, or the
      write fails after the first `partial(cc)` bytes. */
  datatype Faults = Faults(read: nat -> bool, write: nat -> bool, partial: nat -> nat)

  datatype Outcome = Moved | IoError | Invalid

  const MIB := 1048576

  /** The checks that stop the move before it starts. */
  predicate Accepted(before: Partition, after: Partition) {
    && after.size.Some? && after.start.Some? && before.size.Some? && before.start.Some?
    && after.start != before.start
    && before.size.value <= after.size.value
  }

  predicate Overlay(src: nat, dst: nat, nsectors: nat) {
    (dst >= src && src + nsectors >= dst) || (src >= dst && dst + nsectors >= src)
  }

  predicate Backward(src: nat, dst: nat, nsectors: nat) {
    Overlay(src, dst, nsectors) && src < dst
  }

  /** The step size in bytes: the multiple of the optimal I/O size near 1 MiB. */
  function StepBytes(iosize: nat, ss: nat): (n: nat)
    requires ss > 0
    ensures var io := if iosize == 0 then ss else iosize;
      n > 0 && MIB < n + io && (n == io || n <= MIB + io / 2)
  {
    var io := if iosize == 0 then ss else iosize;
    if io < MIB then
      assert MIB + io / 2 == (MIB + io / 2) / io * io + (MIB + io / 2) % io;
      (MIB + io / 2) / io * io
    else io
  }

  function WholeSectors(bytes: nat, ss: nat): (n: nat)
    requires ss > 0
    ensures n * ss <= bytes
  {
    assert bytes == bytes / ss * ss + bytes % ss;
    bytes / ss
  }

  // ---------- Reference: the fate of each byte ----------

  /** The step that handles byte `x` of an area of `n` bytes cut into steps of `s`
      from the front, or from the back. */
  ghost function StepOf(backward: bool, n: nat, s: nat, x: nat): nat
    requires s > 0 && x < n
  {
    if backward then (n - 1 - x) / s + 1 else x / s + 1
  }

  /** The first byte of the area that step `cc` handles. */
  ghost function StepLo(backward: bool, n: nat, s: nat, cc: nat): int
    requires cc > 0
  {
    if !backward then (cc - 1) * s else if cc * s <= n then n - cc * s else 0
  }

  /** Byte `x` reaches its target: its step was read, and its write got that far. */
  ghost predicate Arrives(f: Faults, backward: bool, n: nat, s: nat, x: nat)
    requires s > 0 && x < n
  {
    var cc := StepOf(backward, n, s, x);
    !f.read(cc) && (f.write(cc) ==> x < StepLo(backward, n, s, cc) + f.partial(cc))
  }

  /** The device after the bytes selected by `handled` have had their turn. */
  ghost predicate Progress(now: seq<u8>, was: seq<u8>, src: nat, dst: nat, n: nat,
                           f: Faults, backward: bool, s: nat, lo: nat, hi: nat)
    requires s > 0 && src + n <= |was| && dst + n <= |was| && |now| == |was| && lo <= hi <= n
  {
    && (forall a :: 0 <= a < |was| && !(dst + lo <= a < dst + hi) ==> now[a] == was[a])
    && (forall x :: lo <= x < hi ==>
          now[dst + x] == if Arrives(f, backward, n, s, x) then was[src + x] else was[dst + x])
  }

  ghost function Reached(f: Faults, cc: nat, len: nat): (n: nat)
    ensures n <= len
  {
    if f.read(cc) then 0 else if f.write(cc) && f.partial(cc) < len then f.partial(cc) else len
  }

  /** Step `cc` moved the bytes [lo, hi) as far as its faults let it. */
  ghost predicate StepEffect(mid: seq<u8>, now: seq<u8>, src: nat, dst: nat, n: nat, f: Faults, cc: nat,
                             lo: nat, hi: nat)
    requires |now| == |mid| && lo <= hi <= n && src + n <= |mid| && dst + n <= |mid|
  {
    var top := dst + lo + Reached(f, cc, hi - lo);
    && (forall a :: 0 <= a < |now| && !(dst + lo <= a < top) ==> now[a] == mid[a])
    && (forall a :: dst + lo <= a < top ==> now[a] == mid[src + (a - dst)])
  }

  /** No step reads a byte that an earlier step has overwritten: a step that
      extends the handled bytes [dlo, dhi) by [lo, hi) keeps `Progress`. */
  lemma StepKeepsProgress(was: seq<u8>, mid: seq<u8>, now: seq<u8>, src: nat, dst: nat, n: nat,
                          f: Faults, backward: bool, s: nat, cc: nat, dlo: nat, dhi: nat, lo: nat, hi: nat)
    requires s > 0 && src + n <= |was| && dst + n <= |was| && |now| == |was| == |mid| && cc > 0
    requires dlo <= dhi <= n && lo <= hi <= n
    requires if backward then src < dst && hi == dlo && dhi == n
             else (dst < src || src + n <= dst) && dhi == lo && dlo == 0
    requires StepLo(backward, n, s, cc) == lo && forall x :: lo <= x < hi ==> StepOf(backward, n, s, x) == cc
    requires Progress(mid, was, src, dst, n, f, backward, s, dlo, dhi)
    requires StepEffect(mid, now, src, dst, n, f, cc, lo, hi)
    ensures Progress(now, was, src, dst, n, f, backward, s, if backward then lo else 0, if backward then n else hi)
  {
    var from, upTo := if backward then lo else 0, if backward then n else hi;
    forall x | from <= x < upTo
      ensures now[dst + x] == if Arrives(f, backward, n, s, x) then was[src + x] else was[dst + x]
    {
      if lo <= x < hi {
        assert StepOf(backward, n, s, x) == cc;
        assert mid[src + x] == was[src + x];
        assert mid[dst + x] == was[dst + x];
      } else {
        assert now[dst + x] == mid[dst + x];
      }
    }
  }

  /** Where step `cc` begins and ends, and that the bytes between are its own. */
  lemma StepGeometry(backward: bool, n: nat, s: nat, cc: nat, handled: nat, lo: nat, hi: nat)
    requires s > 0 && cc > 0 && handled == (cc - 1) * s && handled < n
    requires hi - lo == if handled + s <= n then s else n - handled
    requires if backward then hi == n - handled else lo == handled
    ensures StepLo(backward, n, s, cc) == lo
    ensures forall x :: lo <= x < hi ==> StepOf(backward, n, s, x) == cc
  {
    hide StepOf;
    MulStep(cc - 1, s);
    forall x | lo <= x < hi
      ensures StepOf(backward, n, s, x) == cc
    {
      StepOfIs(backward, n, s, cc, x);
    }
  }

  lemma StepOfIs(backward: bool, n: nat, s: nat, cc: nat, x: nat)
    requires s > 0 && cc > 0 && x < n
    requires (cc - 1) * s <= (if backward then n - 1 - x else x) < cc * s
    ensures StepOf(backward, n, s, x) == cc
  {
    QuotientIs(if backward then n - 1 - x else x, s, cc - 1);
  }

  // ---------- The program ----------

  /** Writes the first `count` bytes of `data` at `at`. */
  method WriteAt(dev: array<u8>, at: nat, data: seq<u8>, count: nat)
    requires count <= |data| && at + count <= dev.Length
    modifies dev
    ensures forall a :: 0 <= a < dev.Length ==>
      dev[a] == if at <= a < at + count then data[a - at] else old(dev[a])
  {
    forall k | 0 <= k < count {
      dev[at + k] := data[k];
    }
  }

  /** One step: read `len` bytes at `src`, write them at `dst`, unless a fault hits. */
  method Step(dev: array<u8>, src: nat, dst: nat, len: nat, f: Faults, cc: nat,
              ghost a0: nat, ghost b0: nat, ghost n: nat, ghost lo: nat) returns (ok: bool)
    requires src == a0 + lo && dst == b0 + lo && lo + len <= n && a0 + n <= dev.Length && b0 + n <= dev.Length
    modifies dev
    ensures ok == (!f.read(cc) && !f.write(cc))
    ensures StepEffect(old(dev[..]), dev[..], a0, b0, n, f, cc, lo, lo + len)
  {
    if f.read(cc) {
      return false;
    }
    var buf := dev[src..src + len];
    if f.write(cc) {
      var partial := f.partial(cc);
      WriteAt(dev, dst, buf, if partial < len then partial else len);
      return false;
    }
    WriteAt(dev, dst, buf, len);
    return true;
  }

  /** The copy loop over an area of `n` bytes, from `a0` to `b0`. Every byte has
      had its turn when it ends, also when a step is not a whole number of sectors
      and the sector counter `i` runs behind. */
  method CopyLoop(dev: array<u8>, a0: nat, b0: nat, n: nat, nsectors: nat, step: nat, s0: nat, backward: bool,
                  f: Faults, ghost ss: nat)
    returns (ioerr: nat)
    requires ss > 0 && s0 > 0 && n == nsectors * ss && step * ss <= s0
    requires if backward then a0 < b0 else b0 < a0 || a0 + n <= b0
    requires a0 + n <= dev.Length && b0 + n <= dev.Length
    modifies dev
    ensures Progress(dev[..], old(dev[..]), a0, b0, n, f, backward, s0, 0, n)
    ensures ioerr == 0 <==> forall c :: 1 <= c <= (n + s0 - 1) / s0 ==> !f.read(c) && !f.write(c)
  {
    ghost var was := dev[..];
    ioerr := 0;
    var stepBytes, nbytes := s0, n;
    var src := if backward then a0 + n else a0;
    var dst := if backward then b0 + n else b0;
    var i: nat, cc: nat := 0, 1;
    ghost var handled, sectors := 0, 0;
    NoSteps(s0);
    while i < nsectors && nbytes > 0
      invariant 1 <= cc && 0 <= nbytes <= n
      invariant src == a0 + (if backward then nbytes else n - nbytes)
      invariant dst == b0 + (if backward then nbytes else n - nbytes)
      invariant handled == (cc - 1) * s0 && sectors == i * ss
      invariant nbytes > 0 ==> stepBytes == s0 && n - nbytes == handled && sectors <= handled
      invariant nbytes == 0 ==> cc - 1 == (n + s0 - 1) / s0
      invariant Progress(dev[..], was, a0, b0, n, f, backward, s0,
                         if backward then nbytes else 0, if backward then n else n - nbytes)
      invariant ioerr == 0 <==> forall c :: 1 <= c < cc ==> !f.read(c) && !f.write(c)
      decreases nbytes
    {
      if nbytes < stepBytes {
        stepBytes := nbytes;
      }
      nbytes := nbytes - stepBytes;
      if backward {
        src, dst := src - stepBytes, dst - stepBytes;
      }
      ghost var mid := dev[..];
      ghost var lo := src - a0;
      var ok := Step(dev, src, dst, stepBytes, f, cc, a0, b0, n, lo);
      if !ok {
        ioerr := ioerr + 1;
      }
      NextStep(n, s0, cc, handled, nbytes);
      LoopStep(was, mid, dev[..], a0, b0, n, f, backward, s0, cc, handled, lo, stepBytes, nbytes);
      if !backward {
        src, dst := src + stepBytes, dst + stepBytes;
      }
      assert (i + step) * ss == sectors + step * ss by {
        Distribute(i, step, ss);
      }
      handled, sectors := handled + s0, sectors + step * ss;
      i, cc := i + step, cc + 1;
    }
    if nbytes > 0 {
      MulMonotone(nsectors, i, ss);
      assert false;
    }
  }

  lemma Distribute(a: nat, b: nat, s: nat)
    ensures (a + b) * s == a * s + b * s
  {
  }

  lemma NoSteps(s0: nat)
    requires s0 > 0
    ensures (0 + s0 - 1) / s0 == 0
  {
  }

  /** What one turn of the copy loop does to its invariant. */
  lemma LoopStep(was: seq<u8>, mid: seq<u8>, now: seq<u8>, a0: nat, b0: nat, n: nat, f: Faults, backward: bool,
                 s0: nat, cc: nat, handled: nat, lo: nat, len: nat, nbytes: nat)
    requires a0 + n <= |was| && b0 + n <= |was| && |now| == |was| == |mid|
    requires s0 > 0 && cc > 0 && handled == (cc - 1) * s0 && handled < n
    requires if backward then a0 < b0 && lo == nbytes else (b0 < a0 || a0 + n <= b0) && lo == handled
    requires len == (if handled + s0 <= n then s0 else n - handled) && nbytes == n - handled - len
    requires Progress(mid, was, a0, b0, n, f, backward, s0,
                      if backward then nbytes + len else 0, if backward then n else handled)
    requires StepEffect(mid, now, a0, b0, n, f, cc, lo, lo + len)
    ensures Progress(now, was, a0, b0, n, f, backward, s0,
                     if backward then nbytes else 0, if backward then n else n - nbytes)
  {
    StepGeometry(backward, n, s0, cc, handled, lo, lo + len);
    StepKeepsProgress(was, mid, now, a0, b0, n, f, backward, s0, cc,
                      if backward then lo + len else 0, if backward then n else lo, lo, lo + len);
  }

  lemma NextStep(n: nat, s0: nat, cc: nat, handled: nat, nbytes: nat)
    requires s0 > 0 && cc > 0 && handled == (cc - 1) * s0 && handled < n
    requires nbytes == if handled + s0 <= n then n - handled - s0 else 0
    ensures cc * s0 == handled + s0
    ensures nbytes == 0 ==> cc == (n + s0 - 1) / s0
  {
    assert cc * s0 == handled + s0;
    if nbytes == 0 {
      QuotientIs(n + s0 - 1, s0, cc);
    }
  }

  lemma BytesFollowSectors(from: nat, target: nat, nsectors: nat, ss: nat)
    requires ss > 0
    ensures (from + nsectors) * ss == from * ss + nsectors * ss
    ensures (target + nsectors) * ss == target * ss + nsectors * ss
    ensures from < target ==> from * ss < target * ss
    ensures target < from ==> target * ss < from * ss
    ensures from + nsectors < target ==> from * ss + nsectors * ss < target * ss
  {
    assert (from + nsectors) * ss == from * ss + nsectors * ss;
  }

  method MovePartitionData(dev: array<u8>, before: Partition, after: Partition, iosize: nat, ss: nat, noact: bool,
                           f: Faults)
    returns (rc: Outcome)
    requires ss > 0
    requires Accepted(before, after) ==>
      && (before.start.value + before.size.value) * ss <= dev.Length
      && (after.start.value + after.size.value) * ss <= dev.Length
    modifies dev
    ensures rc == Invalid <==> !Accepted(before, after)
    ensures rc == Invalid || noact ==> dev[..] == old(dev[..])
    ensures rc != Invalid && !noact ==>
      var from, target, n := before.start.value * ss, after.start.value * ss, before.size.value * ss;
      var backward := Backward(before.start.value, after.start.value, before.size.value);
      var s := StepBytes(iosize, ss);
      && from + n <= dev.Length && target + n <= dev.Length
      && Progress(dev[..], old(dev[..]), from, target, n, f, backward, s, 0, n)
      && (rc == Moved ==>
            dev[..] == old(dev[..target]) + old(dev[from..from + n]) + old(dev[target + n..]))
      && (rc == Moved <==> forall c :: 1 <= c <= (n + s - 1) / s ==> !f.read(c) && !f.write(c))
    ensures noact ==> rc != IoError
  {
    if !Accepted(before, after) {
      return Invalid;
    }
    var nsectors, from, target := before.size.value, before.start.value, after.start.value;
    var backward := Backward(from, target, nsectors);
    var s := StepBytes(iosize, ss);
    if noact {
      return Moved;
    }
    ghost var n := nsectors * ss;
    BytesFollowSectors(from, target, nsectors, ss);
    MulMonotone(target + nsectors, after.start.value + after.size.value, ss);
    var ioerr := CopyLoop(dev, from * ss, target * ss, nsectors * ss, nsectors, WholeSectors(s, ss), s, backward, f,
                          ss);
    if ioerr > 0 {
      return IoError;
    }
    NoFaultsMeansMemmove(dev[..], old(dev[..]), from * ss, target * ss, nsectors * ss, f, backward, s);
    return Moved;
  }

  /** Without faults the result is a memmove: the target range holds the original
      source bytes and everything else is as it was. */
  lemma NoFaultsMeansMemmove(now: seq<u8>, was: seq<u8>, src: nat, dst: nat, n: nat, f: Faults, backward: bool, s: nat)
    requires s > 0 && src + n <= |was| && dst + n <= |was| && |now| == |was|
    requires Progress(now, was, src, dst, n, f, backward, s, 0, n)
    requires forall c :: 1 <= c <= (n + s - 1) / s ==> !f.read(c) && !f.write(c)
    ensures now == was[..dst] + was[src..src + n] + was[dst + n..]
  {
    forall a | dst <= a < dst + n
      ensures now[a] == was[src + (a - dst)]
    {
      var x := a - dst;
      StepInRange(n, s, if backward then n - 1 - x else x);
      assert Arrives(f, backward, n, s, x);
      assert now[dst + x] == was[src + x];
    }
  }

  lemma StepInRange(n: nat, s: nat, y: nat)
    requires s > 0 && y < n
    ensures 1 <= y / s + 1 <= (n + s - 1) / s
  {
    var q := (n + s - 1) / s;
    assert n + s - 1 == q * s + (n + s - 1) % s;
    var r := y / s;
    assert y == r * s + y % s;
    if q <= r {
      MulMonotone(q, r, s);
      assert false;
    }
  }
}
