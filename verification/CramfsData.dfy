/** The contents of one file in a cramfs image: a table with one pointer per block, each
    to the end of its block, and then the blocks (disk-utils/mkfs.cramfs.c: is_zero,
    do_compress). */
module CramfsData {
  import opened CramfsFormat
  import opened CramfsLayout
  import opened Division

  /** How files are packed: block size, whether zero blocks become holes, and zlib's
      compress(). */
  datatype Packing = Packing(blk: nat, holes: bool, deflate: Bytes -> Bytes)

  predicate AllZero(b: Bytes) {
    forall k :: 0 <= k < |b| ==> b[k] == 0
  }

  /** memcmp() of a buffer with itself, shifted by 4. */
  method SameShifted(b: Bytes, len: nat) returns (same: bool)
    requires len + 4 == |b|
    ensures same <==> forall k :: 0 <= k < len ==> b[k] == b[k + 4]
  {
    var i := 0;
    while i < len
      invariant 0 <= i <= len && forall k :: 0 <= k < i ==> b[k] == b[k + 4]
    {
      if b[i] != b[i + 4] {
        return false;
      }
      i := i + 1;
    }
    return true;
  }

  lemma {:induction false} ShiftedZeros(b: Bytes, k: nat)
    requires |b| >= 4 && b[0] == b[1] == b[2] == b[3] == 0 && k < |b|
    requires forall i :: 0 <= i < |b| - 4 ==> b[i] == b[i + 4]
    ensures b[k] == 0
  {
    if k >= 4 {
      ShiftedZeros(b, k - 4);
    }
  }

  /** is_zero(): the shifted comparison finds exactly the blocks of zeros. */
  method IsZero(b: Bytes, holes: bool) returns (r: bool)
    ensures r <==> holes && AllZero(b)
  {
    if !holes {
      return false;
    }
    if |b| == 0 { return true; }
    if b[0] != 0 { return false; }
    if |b| == 1 { return true; }
    if b[1] != 0 { return false; }
    if |b| == 2 { return true; }
    if b[2] != 0 { return false; }
    if |b| == 3 { return true; }
    if b[3] != 0 { return false; }
    r := SameShifted(b, |b| - 4);
    if r {
      forall k | 0 <= k < |b|
        ensures b[k] == 0
      {
        ShiftedZeros(b, k);
      }
    }
  }

  // ---------- The blocks of a file ----------

  function Min(a: nat, b: nat): nat {
    if a < b then a else b
  }

  function Head(p: Packing, c: Bytes): Bytes {
    c[..Min(p.blk, |c|)]
  }

  function Tail(p: Packing, c: Bytes): Bytes {
    c[Min(p.blk, |c|)..]
  }

  /** What is stored for the first block; nothing for a hole. */
  function Piece(p: Packing, c: Bytes): Bytes {
    if p.holes && AllZero(Head(p, c)) then [] else p.deflate(Head(p, c))
  }

  function Blocks(size: nat, blk: nat): nat
    requires blk > 0
  {
    if size == 0 then 0 else 1 + Blocks(size - Min(blk, size), blk)
  }

  /** Writer and reader count blocks in different ways, with the same result. */
  lemma {:induction false} BlocksIs(size: nat, blk: nat)
    requires blk > 0
    ensures size > 0 ==> Blocks(size, blk) == (size - 1) / blk + 1
    ensures Blocks(size, blk) == (size + blk - 1) / blk
  {
    if size > blk {
      BlocksIs(size - blk, blk);
      DivStep(size - 1, blk);
      DivStep(size + blk - 1, blk);
    } else if size > 0 {
      DivSmall(size - 1, blk);
      DivStep(size + blk - 1, blk);
    } else {
      DivSmall(blk - 1, blk);
    }
  }

  lemma DivSmall(m: nat, blk: nat)
    requires m < blk
    ensures m / blk == 0
  {
  }

  /** The bytes of all blocks of a file. */
  ghost function Pieces(p: Packing, c: Bytes): nat
    requires p.blk > 0
    decreases |c|
  {
    if |c| == 0 then 0 else |Piece(p, c)| + Pieces(p, Tail(p, c))
  }

  /** No block is more than twice as long when compressed. */
  ghost predicate PiecesFit(p: Packing, c: Bytes)
    requires p.blk > 0
    decreases |c|
  {
    |c| > 0 ==> |Piece(p, c)| <= 2 * p.blk && PiecesFit(p, Tail(p, c))
  }

  /** What a file takes: its pointers and its blocks. */
  ghost function Packed(p: Packing, c: Bytes): nat
    requires p.blk > 0
  {
    4 * Blocks(|c|, p.blk) + Pieces(p, c)
  }

  ghost predicate WordAt(img: Bytes, big: bool, at: nat, w: u32) {
    at + 4 <= |img| && U32Of(big, img[at..at + 4]) == w
  }

  /** The first block, with its pointer at `ptr` and its bytes from `curr` on. */
  ghost predicate BlockAt(img: Bytes, big: bool, p: Packing, c: Bytes, ptr: nat, curr: nat) {
    var next := curr + |Piece(p, c)|;
    && next < 0x1_0000_0000 && |Piece(p, c)| <= 2 * p.blk
    && WordAt(img, big, ptr, next) && HoldsAt(img, curr, Piece(p, c))
  }

  /** Where the bytes of the first `n` blocks end. */
  ghost function After(p: Packing, c: Bytes, curr: nat, n: nat): nat
    decreases n
  {
    if n == 0 then curr else After(p, Tail(p, c), curr + |Piece(p, c)|, n - 1)
  }

  ghost function Rest(p: Packing, c: Bytes, n: nat): Bytes
    decreases n
  {
    if n == 0 then c else Rest(p, Tail(p, c), n - 1)
  }

  /** The first `n` blocks are stored. */
  ghost predicate PackedAt(img: Bytes, big: bool, p: Packing, c: Bytes, ptr: nat, curr: nat, n: nat)
    decreases n
  {
    n > 0 ==>
      && BlockAt(img, big, p, c, ptr, curr)
      && PackedAt(img, big, p, Tail(p, c), ptr + 4, curr + |Piece(p, c)|, n - 1)
  }

  lemma {:induction false} AfterGrows(p: Packing, c: Bytes, curr: nat, n: nat)
    ensures curr <= After(p, c, curr, n)
    decreases n
  {
    if n > 0 {
      AfterGrows(p, Tail(p, c), curr + |Piece(p, c)|, n - 1);
    }
  }

  /** Only the table and the bytes of the blocks matter. */
  lemma {:induction false} PackedKept(a: Bytes, b: Bytes, big: bool, p: Packing, c: Bytes, ptr: nat, curr: nat, n: nat)
    requires PackedAt(a, big, p, c, ptr, curr, n)
    requires SameBytes(a, b, ptr, ptr + 4 * n) && SameBytes(a, b, curr, After(p, c, curr, n))
    ensures PackedAt(b, big, p, c, ptr, curr, n)
    decreases n
  {
    if n > 0 {
      assert a[ptr..ptr + 4] == b[ptr..ptr + 4];
      AfterGrows(p, Tail(p, c), curr + |Piece(p, c)|, n - 1);
      PackedKept(a, b, big, p, Tail(p, c), ptr + 4, curr + |Piece(p, c)|, n - 1);
    }
  }

  lemma {:induction false} RestSnoc(p: Packing, c: Bytes, curr: nat, n: nat)
    ensures After(p, c, curr, n + 1) == After(p, c, curr, n) + |Piece(p, Rest(p, c, n))|
    ensures Rest(p, c, n + 1) == Tail(p, Rest(p, c, n))
    decreases n
  {
    if n > 0 {
      RestSnoc(p, Tail(p, c), curr + |Piece(p, c)|, n - 1);
    }
  }

  /** One more block: the rest `d`, with its pointer at `q` and its bytes at `at`. */
  lemma {:induction false} PackedSnoc(img: Bytes, big: bool, p: Packing, c: Bytes, ptr: nat, curr: nat, n: nat,
                                      d: Bytes, q: nat, at: nat)
    requires PackedAt(img, big, p, c, ptr, curr, n) && BlockAt(img, big, p, d, q, at)
    requires d == Rest(p, c, n) && q == ptr + 4 * n && at == After(p, c, curr, n)
    ensures PackedAt(img, big, p, c, ptr, curr, n + 1)
    decreases n
  {
    if n > 0 {
      PackedSnoc(img, big, p, Tail(p, c), ptr + 4, curr + |Piece(p, c)|, n - 1, d, q, at);
    } else {
      assert PackedAt(img, big, p, Tail(p, c), ptr + 4, curr + |Piece(p, c)|, 0);
    }
  }

  /** The first `i` of `blocks` blocks are stored; `rest` goes to `curr`, with its next
      pointer at `ptr`. */
  ghost predicate PackedSoFar(img: Bytes, big: bool, p: Packing, c: Bytes, offset: nat, blocks: nat, i: nat,
                              rest: Bytes, ptr: nat, curr: nat)
    requires p.blk > 0
  {
    var data := offset + 4 * blocks;
    && blocks == i + Blocks(|rest|, p.blk) && rest == Rest(p, c, i)
    && ptr == offset + 4 * i && data <= curr == After(p, c, data, i)
    && PackedAt(img, big, p, c, offset, data, i)
  }

  lemma PackedMore(a: Bytes, b: Bytes, big: bool, p: Packing, c: Bytes, offset: nat, blocks: nat, i: nat, rest: Bytes,
                   ptr: nat, curr: nat)
    requires p.blk > 0 && |rest| > 0 && PackedSoFar(a, big, p, c, offset, blocks, i, rest, ptr, curr)
    requires SameBytes(a, b, offset, ptr) && SameBytes(a, b, offset + 4 * blocks, curr)
    requires BlockAt(b, big, p, rest, ptr, curr)
    ensures PackedSoFar(b, big, p, c, offset, blocks, i + 1, Tail(p, rest), ptr + 4, curr + |Piece(p, rest)|)
  {
    var data := offset + 4 * blocks;
    PackedKept(a, b, big, p, c, offset, data, i);
    PackedSnoc(b, big, p, c, offset, data, i, rest, ptr, curr);
    RestSnoc(p, c, data, i);
    assert |Tail(p, rest)| == |rest| - Min(p.blk, |rest|);
  }

  /** A file is stored from `offset` on, and its bytes end before `end`. */
  ghost predicate FileAt(img: Bytes, big: bool, p: Packing, c: Bytes, offset: nat, end: nat)
    requires p.blk > 0
  {
    var n := Blocks(|c|, p.blk);
    && PackedAt(img, big, p, c, offset, offset + 4 * n, n)
    && offset + 4 * n <= After(p, c, offset + 4 * n, n) <= end
  }

  lemma FileTakesRoom(img: Bytes, big: bool, p: Packing, c: Bytes, offset: nat, end: nat)
    requires p.blk > 0 && |c| > 0 && FileAt(img, big, p, c, offset, end)
    ensures offset < end
  {
  }

  lemma FileKept(a: Bytes, b: Bytes, big: bool, p: Packing, c: Bytes, offset: nat, end: nat)
    requires p.blk > 0 && FileAt(a, big, p, c, offset, end) && SameBytes(a, b, offset, end)
    ensures FileAt(b, big, p, c, offset, end)
  {
    var n := Blocks(|c|, p.blk);
    PackedKept(a, b, big, p, c, offset, offset + 4 * n, n);
  }

  lemma PackedStart(img: Bytes, big: bool, p: Packing, c: Bytes, offset: nat, blocks: nat)
    requires p.blk > 0 && blocks == Blocks(|c|, p.blk)
    ensures PackedSoFar(img, big, p, c, offset, blocks, 0, c, offset, offset + 4 * blocks)
  {
  }

  lemma PackedEnd(img: Bytes, big: bool, p: Packing, c: Bytes, offset: nat, blocks: nat, i: nat, ptr: nat, curr: nat,
                  end: nat)
    requires p.blk > 0 && blocks == Blocks(|c|, p.blk) && curr <= end
    requires PackedSoFar(img, big, p, c, offset, blocks, i, [], ptr, curr)
    ensures FileAt(img, big, p, c, offset, end)
  {
  }
}
