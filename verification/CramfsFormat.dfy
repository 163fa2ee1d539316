/** The on-disk inode of cramfs in both byte orders, and the byte shuffle that
    converts between them (disk-utils/cramfs.h, disk-utils/cramfs_common.c). */
module CramfsFormat {
  import opened Common

  type u24 = x: nat | x < 0x100_0000
  type u32 = x: nat | x < 0x1_0000_0000
  type u6 = x: nat | x < 0x40
  type u26 = x: nat | x < 0x400_0000

  type Bytes = seq<u8>

  const INODE_SIZE := 12

  datatype Inode = Inode(mode: u16, uid: u16, size: u24, gid: u8, namelen: u6, offset: u26)

  function U32Bytes(big: bool, w: u32): (r: Bytes)
    ensures |r| == 4
  {
    var b0, b1, b2, b3 := w % 256, w / 256 % 256, w / 256 / 256 % 256, w / 256 / 256 / 256;
    if big then [b3, b2, b1, b0] else [b0, b1, b2, b3]
  }

  function Join(b3: nat, b2: nat, b1: nat, b0: nat): nat {
    256 * (256 * (256 * b3 + b2) + b1) + b0
  }

  function U32Of(big: bool, b: Bytes): u32
    requires |b| == 4
  {
    if big then Join(b[0], b[1], b[2], b[3]) else Join(b[3], b[2], b[1], b[0])
  }

  lemma Digits(b3: u8, b2: u8, b1: u8, b0: u8)
    ensures Join(b3, b2, b1, b0) < 0x1_0000_0000
    ensures U32Bytes(false, Join(b3, b2, b1, b0)) == [b0, b1, b2, b3]
    ensures U32Bytes(true, Join(b3, b2, b1, b0)) == [b3, b2, b1, b0]
  {
    var w := Join(b3, b2, b1, b0);
    assert w / 256 == 256 * (256 * b3 + b2) + b1 && w % 256 == b0;
    assert w / 256 / 256 == 256 * b3 + b2 && w / 256 % 256 == b1;
  }

  lemma Digits2(hi: u8, lo: u8)
    ensures Join(0, 0, hi, lo) < 0x1_0000 && Join(0, 0, hi, lo) / 256 == hi && Join(0, 0, hi, lo) % 256 == lo
  {
  }

  lemma Digits3(hi: u8, mid: u8, lo: u8)
    ensures var x := Join(0, hi, mid, lo);
      x < 0x100_0000 && x / 256 / 256 == hi && x / 256 % 256 == mid && x % 256 == lo
  {
  }

  lemma Joins2(x: u16)
    ensures Join(0, 0, x / 256, x % 256) == x
  {
  }

  lemma Joins3(x: u24)
    ensures Join(0, x / 256 / 256, x / 256 % 256, x % 256) == x
  {
  }

  lemma U32RoundTrip(big: bool, w: u32)
    ensures U32Of(big, U32Bytes(big, w)) == w
  {
  }

  function Swab32(w: u32): u32 {
    U32Of(true, U32Bytes(false, w))
  }

  /** u32_toggle_endianness() */
  function ToggleU32(host: bool, big: bool, w: u32): u32 {
    if host == big then w else Swab32(w)
  }

  /** Stored by the machine, a toggled word is in the byte order of the image. */
  lemma ToggleU32Stores(host: bool, big: bool, w: u32)
    ensures U32Bytes(host, ToggleU32(host, big, w)) == U32Bytes(big, w)
  {
    var b := U32Bytes(false, w);
    Digits(b[0], b[1], b[2], b[3]);
  }

  /** How a compiler lays out the bit fields: from the least significant bit on a
      little-endian machine, from the most significant bit on a big-endian one. */
  function Encode(big: bool, i: Inode): (r: Bytes)
    ensures |r| == 12
  {
    FieldBytes(big, i) + U32Bytes(big, OffsetWord(big, i.namelen, i.offset))
  }

  function FieldBytes(big: bool, i: Inode): (r: Bytes)
    ensures |r| == 8
  {
    if big then
      [i.mode / 256, i.mode % 256, i.uid / 256, i.uid % 256, i.size / 256 / 256, i.size / 256 % 256, i.size % 256,
       i.gid]
    else
      [i.mode % 256, i.mode / 256, i.uid % 256, i.uid / 256, i.size % 256, i.size / 256 % 256, i.size / 256 / 256,
       i.gid]
  }

  /** The word that holds the name length and the offset. */
  function OffsetWord(big: bool, namelen: u6, offset: u26): u32 {
    if big then 0x400_0000 * namelen + offset else namelen + 0x40 * offset
  }

  function Decode(big: bool, b: Bytes): Inode
    requires |b| == 12
  {
    var w := U32Of(big, b[8..]);
    if big then
      Inode(Join(0, 0, b[0], b[1]), Join(0, 0, b[2], b[3]), Join(0, b[4], b[5], b[6]), b[7], w / 0x400_0000,
            w % 0x400_0000)
    else
      Inode(Join(0, 0, b[1], b[0]), Join(0, 0, b[3], b[2]), Join(0, b[6], b[5], b[4]), b[7], w % 0x40, w / 0x40)
  }

  /** Reading back an inode in the byte order it was written in. */
  lemma InodeRoundTrip(big: bool, i: Inode)
    ensures Decode(big, Encode(big, i)) == i
  {
    hide Join, U32Of, U32Bytes;
    var w := OffsetWord(big, i.namelen, i.offset);
    U32RoundTrip(big, w);
    Joins2(i.mode);
    Joins2(i.uid);
    Joins3(i.size);
    var b := Encode(big, i);
    assert b[8..] == U32Bytes(big, w);
    assert forall k :: 0 <= k < 8 ==> b[k] == FieldBytes(big, i)[k];
    WordParts(big, i.namelen, i.offset);
  }

  lemma WordParts(big: bool, n: u6, o: u26)
    ensures var w := OffsetWord(big, n, o);
      if big then w / 0x400_0000 == n && w % 0x400_0000 == o else w % 0x40 == n && w / 0x40 == o
  {
  }

  // ---------- Changing the byte order ----------

  // The bit operations of the shuffle on single bytes.
  function Low6Up(x: u8): u8 { x % 64 * 4 }       // (x & 0x3F) << 2
  function High2Down(x: u8): u8 { x / 64 }        // (x & 0xC0) >> 6
  function MaskFD(x: u8): u8 { x - x / 2 % 2 * 2 }
  function High6Down(x: u8): u8 { MaskFD(x) / 4 } // (x & 0xFD) >> 2
  function Low2Up(x: u8): u8 { x % 4 * 64 }       // (x & 0x03) << 6

  /** inode_toggle_endianness(); the halves joined by `|` have no bit in common. */
  function Toggle(fromBig: bool, toBig: bool, b: Bytes): (r: Bytes)
    requires |b| == 12
    ensures |r| == 12
  {
    if fromBig == toBig then b
    else SwapFields(b) + ToggleWord(toBig, b[8], b[9], b[10], b[11])
  }

  function SwapFields(b: Bytes): Bytes
    requires |b| >= 8
  {
    [b[1], b[0], b[3], b[2], b[6], b[5], b[4], b[7]]
  }

  function ToggleWord(toBig: bool, b8: u8, b9: u8, b10: u8, b11: u8): Bytes {
    if toBig then
      [Low6Up(b8) + High2Down(b11), Low6Up(b11) + High2Down(b10), Low6Up(b10) + High2Down(b9),
       Low6Up(b9) + High2Down(b8)]
    else
      [High6Down(b8) + Low2Up(b11), High6Down(b11) + Low2Up(b10), High6Down(b10) + Low2Up(b9),
       High6Down(b9) + Low2Up(b8)]
  }

  /** The bits of the offset, in groups of 2 and 6. */
  lemma OffsetDigits(o: u26) returns (d0: nat, d1: u6, d2: nat, d3: u6, d4: nat, d5: u6, d6: nat)
    ensures d0 < 4 && d2 < 4 && d4 < 4 && d6 < 4
    ensures o == d0 + 4 * (d1 + 64 * (d2 + 4 * (d3 + 64 * (d4 + 4 * (d5 + 64 * d6)))))
  {
    var o1 := o / 4;
    var o2 := o1 / 64;
    var o3 := o2 / 4;
    var o4 := o3 / 64;
    var o5 := o4 / 4;
    d0, d1, d2, d3, d4, d5, d6 := o % 4, o1 % 64, o2 % 4, o3 % 64, o4 % 4, o5 % 64, o5 / 64;
  }

  /** Little-endian bytes pair the groups one way, big-endian bytes the other. */
  lemma OffsetBits(n: u6, o: u26) returns (d0: nat, d1: u6, d2: nat, d3: u6, d4: nat, d5: u6, d6: nat)
    ensures d0 < 4 && d2 < 4 && d4 < 4 && d6 < 4
    ensures U32Bytes(false, OffsetWord(false, n, o)) == [n + 64 * d0, d1 + 64 * d2, d3 + 64 * d4, d5 + 64 * d6]
    ensures U32Bytes(true, OffsetWord(true, n, o)) == [d6 + 4 * n, d4 + 4 * d5, d2 + 4 * d3, d0 + 4 * d1]
  {
    d0, d1, d2, d3, d4, d5, d6 := OffsetDigits(o);
    assert OffsetWord(false, n, o) == Join(d5 + 64 * d6, d3 + 64 * d4, d1 + 64 * d2, n + 64 * d0);
    assert OffsetWord(true, n, o) == Join(d6 + 4 * n, d4 + 4 * d5, d2 + 4 * d3, d0 + 4 * d1);
    Digits(d5 + 64 * d6, d3 + 64 * d4, d1 + 64 * d2, n + 64 * d0);
    Digits(d6 + 4 * n, d4 + 4 * d5, d2 + 4 * d3, d0 + 4 * d1);
  }

  lemma UpByte(x: u8, y: u8, n: u6, d: nat, m: u6, e: nat)
    requires d < 4 && e < 4 && x == n + 64 * d && y == m + 64 * e
    ensures Low6Up(x) + High2Down(y) == e + 4 * n
  {
  }

  lemma DownByte(x: u8, y: u8, d: nat, n: u6, e: nat, m: u6)
    requires d < 4 && e < 4 && x == d + 4 * n && y == e + 4 * m
    ensures High6Down(x) + Low2Up(y) == n + 64 * e
  {
  }

  lemma WordUp(b: Bytes, n: u6, d0: nat, d1: u6, d2: nat, d3: u6, d4: nat, d5: u6, d6: nat)
    requires d0 < 4 && d2 < 4 && d4 < 4 && d6 < 4 && b == [n + 64 * d0, d1 + 64 * d2, d3 + 64 * d4, d5 + 64 * d6]
    ensures ToggleWord(true, b[0], b[1], b[2], b[3]) == [d6 + 4 * n, d4 + 4 * d5, d2 + 4 * d3, d0 + 4 * d1]
  {
    UpByte(b[0], b[3], n, d0, d5, d6);
    UpByte(b[3], b[2], d5, d6, d3, d4);
    UpByte(b[2], b[1], d3, d4, d1, d2);
    UpByte(b[1], b[0], d1, d2, n, d0);
  }

  lemma WordDown(b: Bytes, n: u6, d0: nat, d1: u6, d2: nat, d3: u6, d4: nat, d5: u6, d6: nat)
    requires d0 < 4 && d2 < 4 && d4 < 4 && d6 < 4 && b == [d6 + 4 * n, d4 + 4 * d5, d2 + 4 * d3, d0 + 4 * d1]
    ensures ToggleWord(false, b[0], b[1], b[2], b[3]) == [n + 64 * d0, d1 + 64 * d2, d3 + 64 * d4, d5 + 64 * d6]
  {
    var r := ToggleWord(false, b[0], b[1], b[2], b[3]);
    assert r[0] == n + 64 * d0 by { DownByte(b[0], b[3], d6, n, d0, d1); }
    assert r[1] == d1 + 64 * d2 by { DownByte(b[3], b[2], d0, d1, d2, d3); }
    assert r[2] == d3 + 64 * d4 by { DownByte(b[2], b[1], d2, d3, d4, d5); }
    assert r[3] == d5 + 64 * d6 by { DownByte(b[1], b[0], d4, d5, d6, n); }
  }

  lemma WordReencodes(n: u6, o: u26, little: Bytes, big: Bytes)
    requires little == U32Bytes(false, OffsetWord(false, n, o)) && big == U32Bytes(true, OffsetWord(true, n, o))
    ensures ToggleWord(true, little[0], little[1], little[2], little[3]) == big
    ensures ToggleWord(false, big[0], big[1], big[2], big[3]) == little
  {
    var d0, d1, d2, d3, d4, d5, d6 := OffsetBits(n, o);
    WordUp(little, n, d0, d1, d2, d3, d4, d5, d6);
    WordDown(big, n, d0, d1, d2, d3, d4, d5, d6);
  }

  /** The shuffle is exactly a change of byte order, whatever the two orders are. */
  lemma ToggleReencodes(fromBig: bool, toBig: bool, i: Inode)
    ensures Toggle(fromBig, toBig, Encode(fromBig, i)) == Encode(toBig, i)
  {
    var little := U32Bytes(false, OffsetWord(false, i.namelen, i.offset));
    var big := U32Bytes(true, OffsetWord(true, i.namelen, i.offset));
    WordReencodes(i.namelen, i.offset, little, big);
    FieldsReencode(i);
    HalvesReencode(fromBig, toBig, FieldBytes(fromBig, i), if fromBig then big else little);
  }

  lemma FieldsReencode(i: Inode)
    ensures SwapFields(FieldBytes(true, i)) == FieldBytes(false, i)
    ensures SwapFields(FieldBytes(false, i)) == FieldBytes(true, i)
  {
  }

  lemma HalvesReencode(fromBig: bool, toBig: bool, f: Bytes, w: Bytes)
    requires |f| == 8 && |w| == 4
    ensures Toggle(fromBig, toBig, f + w)
      == if fromBig == toBig then f + w else SwapFields(f) + ToggleWord(toBig, w[0], w[1], w[2], w[3])
  {
    var b := f + w;
    assert b[8] == w[0] && b[9] == w[1] && b[10] == w[2] && b[11] == w[3];
    assert forall k :: 0 <= k < 8 ==> b[k] == f[k];
  }

  /** Any twelve bytes are the encoding of what they decode to. */
  lemma DecodeRoundTrip(big: bool, b: Bytes)
    requires |b| == 12
    ensures Encode(big, Decode(big, b)) == b
  {
    var i := Decode(big, b);
    var w := U32Of(big, b[8..]);
    WordDecodes(big, b[8..]);
    FieldsDecode(big, b);
    assert b == b[..8] + b[8..];
    assert OffsetWord(big, i.namelen, i.offset) == w;
  }

  lemma WordDecodes(big: bool, b: Bytes)
    requires |b| == 4
    ensures U32Bytes(big, U32Of(big, b)) == b
  {
    if big {
      Digits(b[0], b[1], b[2], b[3]);
    } else {
      Digits(b[3], b[2], b[1], b[0]);
    }
  }

  lemma FieldsDecode(big: bool, b: Bytes)
    requires |b| == 12
    ensures FieldBytes(big, Decode(big, b)) == b[..8]
  {
    hide Join, U32Of;
    if big {
      Digits2(b[0], b[1]);
      Digits2(b[2], b[3]);
      Digits3(b[4], b[5], b[6]);
    } else {
      Digits2(b[1], b[0]);
      Digits2(b[3], b[2]);
      Digits3(b[6], b[5], b[4]);
    }
  }

  /** Converted to the byte order of the machine, an inode of the image decodes to the
      same fields. */
  lemma HostDecodes(host: bool, big: bool, b: Bytes)
    requires |b| == 12
    ensures Decode(host, Toggle(big, host, b)) == Decode(big, b)
  {
    var i := Decode(big, b);
    DecodeRoundTrip(big, b);
    ToggleReencodes(big, host, i);
    InodeRoundTrip(host, i);
  }

  /** The same for a word. */
  lemma HostWord(host: bool, big: bool, b: Bytes)
    requires |b| == 4
    ensures ToggleU32(host, big, U32Of(host, b)) == U32Of(big, b)
  {
    Digits(b[0], b[1], b[2], b[3]);
    Digits(b[3], b[2], b[1], b[0]);
  }
}
