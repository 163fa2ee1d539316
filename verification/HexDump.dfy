/** The run-compressed sector dump of fdisk (disk-utils/fdisk.c).

    Repeats of a 16-byte row are replaced by one "*" line. `Expand` is the reader:
    it puts back the rows a "*" stands for, using only the printed lines and the
    total size. Printing, parsing the page and expanding gives back the buffer, and
    the page is `Tight`: it has no row that a star could stand for.
  */
module HexDump {
  import opened Common

  /** What the program writes on a line, one token per output call. */
  datatype Token = Offset(at: int) | Hex(b: u8) | WordGap | Asterisk

  datatype Line = Row(at: int, bytes: seq<u8>) | Star

  // ---------- A buffer as rows of 16 bytes ----------

  ghost function Rows(buf: seq<u8>): (rows: seq<seq<u8>>)
    requires |buf| % 16 == 0
    ensures |rows| == |buf| / 16
  {
    RowsFrom(buf, |buf| / 16)
  }

  ghost function RowsFrom(buf: seq<u8>, n: nat): (rows: seq<seq<u8>>)
    requires 16 * n <= |buf|
    ensures |rows| == n
  {
    if n == 0 then [] else RowsFrom(buf, n - 1) + [buf[16 * (n - 1)..16 * n]]
  }

  lemma {:induction false} RowIs(buf: seq<u8>, n: nat, r: nat)
    requires 16 * n <= |buf| && r < n
    ensures RowsFrom(buf, n)[r] == buf[16 * r..16 * r + 16]
  {
    if r < n - 1 {
      RowIs(buf, n - 1, r);
    }
  }

  ghost function Join(rows: seq<seq<u8>>): seq<u8> {
    if rows == [] then [] else rows[0] + Join(rows[1..])
  }

  lemma {:induction false} JoinRows(buf: seq<u8>, r: nat)
    requires |buf| % 16 == 0 && r <= |buf| / 16
    ensures Join(Rows(buf)[r..]) == buf[16 * r..]
    decreases |buf| / 16 - r
  {
    if r < |buf| / 16 {
      JoinRows(buf, r + 1);
      RowIs(buf, |buf| / 16, r);
      assert Rows(buf)[r..][1..] == Rows(buf)[r + 1..];
      assert buf[16 * r..] == buf[16 * r..16 * r + 16] + buf[16 * (r + 1)..];
    }
  }

  // ---------- The lines a dump consists of ----------

  /** The first row from `next` on that differs from row `r`. */
  ghost function RunEnd(rows: seq<seq<u8>>, r: nat, next: nat): (end: nat)
    requires r < |rows| && next <= |rows|
    ensures next <= end <= |rows| && forall k :: next <= k < end ==> rows[k] == rows[r]
    ensures end < |rows| ==> rows[end] != rows[r]
    decreases |rows| - next
  {
    if next < |rows| && rows[r] == rows[next] then RunEnd(rows, r, next + 1) else next
  }

  ghost function Lines(base: int, rows: seq<seq<u8>>, r: nat): seq<Line>
    requires r <= |rows|
    decreases |rows| - r
  {
    if r == |rows| then []
    else [Row(base + 16 * r, rows[r])] + After(base, rows, r)
  }

  /** What follows row `r`: a star if it repeats, then the next different row. */
  ghost function After(base: int, rows: seq<seq<u8>>, r: nat): seq<Line>
    requires r < |rows|
    decreases |rows| - r, 0
  {
    var next := RunEnd(rows, r, r + 1);
    if next == r + 1 then Lines(base, rows, next) else [Star] + Lines(base, rows, next)
  }

  // ---------- No line too many ----------

  /** Where the line after number `n` is in the dump, or its end. */
  ghost function NextAt(lines: seq<Line>, n: nat, end: int): int {
    if n + 1 < |lines| && lines[n + 1].Row? then lines[n + 1].at else end
  }

  /** Rows that follow each other, with or without a star between, differ; a star comes
      after a row and stands for at least one more. */
  ghost predicate TightAt(lines: seq<Line>, n: nat, end: int)
    requires n < |lines|
  {
    match lines[n]
    case Row(at, bytes) =>
      && |bytes| == 16
      && (n + 1 < |lines| && lines[n + 1].Row? ==> lines[n + 1].bytes != bytes)
      && (n + 2 < |lines| && lines[n + 1].Star? ==> lines[n + 2].Row? && lines[n + 2].bytes != bytes)
      && (n + 1 == |lines| || lines[n + 1].Row? ==> NextAt(lines, n, end) == at + 16)
    case Star => n > 0 && lines[n - 1].Row? && NextAt(lines, n, end) > lines[n - 1].at + 16
  }

  ghost predicate Tight(lines: seq<Line>, end: int) {
    forall n :: 0 <= n < |lines| ==> TightAt(lines, n, end)
  }

  lemma {:induction false} LinesAreTight(base: int, rows: seq<seq<u8>>, r: nat)
    requires r <= |rows| && forall k :: 0 <= k < |rows| ==> |rows[k]| == 16
    ensures Tight(Lines(base, rows, r), base + 16 * |rows|)
    ensures r < |rows| ==> |Lines(base, rows, r)| > 0 && Lines(base, rows, r)[0] == Row(base + 16 * r, rows[r])
    decreases |rows| - r
  {
    if r < |rows| {
      var next, end := RunEnd(rows, r, r + 1), base + 16 * |rows|;
      var rest := Lines(base, rows, next);
      LinesAreTight(base, rows, next);
      RowThenTight(base + 16 * r, rows[r], next > r + 1, rest, end);
      assert Lines(base, rows, r) == [Row(base + 16 * r, rows[r])] + (if next > r + 1 then [Star] else []) + rest;
    }
  }

  /** A row and perhaps a star before lines that are tight. */
  lemma RowThenTight(at: int, bytes: seq<u8>, star: bool, rest: seq<Line>, end: int)
    requires |bytes| == 16 && Tight(rest, end) && (rest != [] ==> rest[0].Row? && rest[0].bytes != bytes)
    requires var next := if rest == [] then end else rest[0].at; if star then next > at + 16 else next == at + 16
    ensures Tight([Row(at, bytes)] + (if star then [Star] else []) + rest, end)
  {
    var head := [Row(at, bytes)] + (if star then [Star] else []);
    var lines := head + rest;
    forall n | 0 <= n < |lines|
      ensures TightAt(lines, n, end)
    {
      if n >= |head| {
        var m := n - |head|;
        assert TightAt(rest, m, end);
        assert forall k :: m <= k < |rest| ==> lines[k + |head|] == rest[k];
        if m > 0 {
          assert lines[n - 1] == rest[m - 1];
        }
      }
    }
  }

  // ---------- How a line looks on paper ----------

  /** A row up to and including its first `col` bytes. */
  ghost function PartRow(at: int, bytes: seq<u8>, col: nat): seq<Token>
    requires col <= |bytes|
  {
    if col == 0 then [Offset(at)]
    else PartRow(at, bytes, col - 1) + [Hex(bytes[col - 1])] + (if col == 8 then [WordGap] else [])
  }

  ghost function Render(line: Line): seq<Token> {
    match line
    case Row(at, bytes) => PartRow(at, bytes, |bytes|)
    case Star => [Asterisk]
  }

  ghost function Page(lines: seq<Line>): seq<seq<Token>> {
    if lines == [] then [] else [Render(lines[0])] + Page(lines[1..])
  }

  // ---------- The reader ----------

  /** The bytes on a line of tokens. */
  function HexBytes(tokens: seq<Token>): seq<u8> {
    if tokens == [] then []
    else
      var last := tokens[|tokens| - 1];
      HexBytes(tokens[..|tokens| - 1]) + (if last.Hex? then [last.b] else [])
  }

  /** A line that begins with an offset is a row, any other is a star. */
  function ParseLine(tokens: seq<Token>): Line {
    if tokens != [] && tokens[0].Offset? then Row(tokens[0].at, HexBytes(tokens)) else Star
  }

  function Parse(page: seq<seq<Token>>): seq<Line> {
    if page == [] then [] else [ParseLine(page[0])] + Parse(page[1..])
  }

  lemma HexBytesSnoc(tokens: seq<Token>, t: Token)
    ensures HexBytes(tokens + [t]) == HexBytes(tokens) + (if t.Hex? then [t.b] else [])
  {
    assert (tokens + [t])[..|tokens|] == tokens;
  }

  lemma {:induction false} PartRowParses(at: int, bytes: seq<u8>, col: nat)
    requires col <= |bytes|
    ensures ParseLine(PartRow(at, bytes, col)) == Row(at, bytes[..col])
  {
    if col > 0 {
      PartRowParses(at, bytes, col - 1);
      var part := PartRow(at, bytes, col - 1);
      var longer := part + [Hex(bytes[col - 1])];
      HexBytesSnoc(part, Hex(bytes[col - 1]));
      HexBytesSnoc(longer, WordGap);
      assert PartRow(at, bytes, col) == if col == 8 then longer + [WordGap] else longer;
      assert bytes[..col] == bytes[..col - 1] + [bytes[col - 1]];
    } else {
      assert HexBytes([Offset(at)]) == [];
    }
  }

  /** Parsing a printed page gives its lines back. */
  lemma {:induction false} ParseUndoesPage(lines: seq<Line>)
    ensures Parse(Page(lines)) == lines
  {
    if lines != [] {
      ParseUndoesPage(lines[1..]);
      if lines[0].Row? {
        PartRowParses(lines[0].at, lines[0].bytes, |lines[0].bytes|);
        assert lines[0].bytes[..|lines[0].bytes|] == lines[0].bytes;
      }
      assert Page(lines)[1..] == Page(lines[1..]);
    }
  }

  ghost function Repeat(row: seq<u8>, n: nat): seq<u8> {
    if n == 0 then [] else row + Repeat(row, n - 1)
  }

  /** `pos` is the offset reached so far, `prev` the last row seen, `end` the
      offset just past the buffer. */
  ghost function Expand(lines: seq<Line>, prev: seq<u8>, pos: int, end: int): seq<u8> {
    if lines == [] then []
    else
      match lines[0]
      case Row(at, bytes) => bytes + Expand(lines[1..], bytes, at + 16, end)
      case Star =>
        var upTo := if |lines| > 1 && lines[1].Row? then lines[1].at else end;
        var n := if upTo <= pos then 0 else (upTo - pos) / 16;
        Repeat(prev, n) + Expand(lines[1..], prev, upTo, end)
  }

  lemma ExpandRow(at: int, bytes: seq<u8>, rest: seq<Line>, prev: seq<u8>, pos: int, end: int)
    ensures Expand([Row(at, bytes)] + rest, prev, pos, end) == bytes + Expand(rest, bytes, at + 16, end)
  {
    assert ([Row(at, bytes)] + rest)[1..] == rest;
  }

  lemma ExpandStar(n: nat, rest: seq<Line>, prev: seq<u8>, pos: int, end: int)
    requires if rest == [] then end == pos + 16 * n else rest[0].Row? && rest[0].at == pos + 16 * n
    ensures Expand([Star] + rest, prev, pos, end) == Repeat(prev, n) + Expand(rest, prev, pos + 16 * n, end)
  {
    assert ([Star] + rest)[1..] == rest;
  }

  /** The rows a "*" after row `r` stands for are all equal to row `r`. */
  lemma {:induction false} RepeatIsRun(rows: seq<seq<u8>>, r: nat, lo: nat)
    requires r < |rows| && lo <= |rows|
    ensures var hi := RunEnd(rows, r, lo);
      Repeat(rows[r], hi - lo) + Join(rows[hi..]) == Join(rows[lo..])
    decreases |rows| - lo
  {
    var hi := RunEnd(rows, r, lo);
    if lo < hi {
      RepeatIsRun(rows, r, lo + 1);
      assert rows[lo..][1..] == rows[lo + 1..];
      assert Repeat(rows[r], hi - lo) + Join(rows[hi..])
          == rows[r] + (Repeat(rows[r], hi - (lo + 1)) + Join(rows[hi..]));
    } else {
      assert Repeat(rows[r], 0) + Join(rows[hi..]) == Join(rows[hi..]);
    }
  }

  /** Expanding the lines of a dump from row `r` on gives the remaining rows. */
  lemma {:induction false} ExpandUndoesLines(base: int, rows: seq<seq<u8>>, r: nat, prev: seq<u8>)
    requires r <= |rows|
    ensures Expand(Lines(base, rows, r), prev, base + 16 * r, base + 16 * |rows|) == Join(rows[r..])
    decreases |rows| - r
  {
    if r < |rows| {
      ExpandUndoesAfter(base, rows, r);
      ExpandRow(base + 16 * r, rows[r], After(base, rows, r), prev, base + 16 * r, base + 16 * |rows|);
      assert rows[r..][1..] == rows[r + 1..];
    }
  }

  lemma {:induction false} ExpandUndoesAfter(base: int, rows: seq<seq<u8>>, r: nat)
    requires r < |rows|
    ensures Expand(After(base, rows, r), rows[r], base + 16 * (r + 1), base + 16 * |rows|) == Join(rows[r + 1..])
    decreases |rows| - r, 0
  {
    hide Expand, Join, Repeat;
    var next := RunEnd(rows, r, r + 1);
    ExpandUndoesLines(base, rows, next, rows[r]);
    if next > r + 1 {
      ExpandStar(next - (r + 1), Lines(base, rows, next), rows[r], base + 16 * (r + 1), base + 16 * |rows|);
      RepeatIsRun(rows, r, r + 1);
    }
  }

  /** The round trip, for every buffer of whole rows: its dump expands to itself. */
  lemma ExpandUndoesDump(base: int, buf: seq<u8>)
    requires |buf| % 16 == 0
    ensures Expand(Lines(base, Rows(buf), 0), [], base, base + |buf|) == buf
  {
    ExpandUndoesLines(base, Rows(buf), 0, []);
    JoinRows(buf, 0);
    assert Rows(buf)[0..] == Rows(buf);
  }

  /** Every printed row carries its own true offset and its own true bytes. */
  lemma {:induction false} RowsAreTrue(base: int, rows: seq<seq<u8>>, r: nat, n: nat) returns (k: nat)
    requires r <= |rows|
    requires n < |Lines(base, rows, r)| && Lines(base, rows, r)[n].Row?
    ensures r <= k < |rows| && Lines(base, rows, r)[n] == Row(base + 16 * k, rows[k])
    decreases |rows| - r
  {
    var next := RunEnd(rows, r, r + 1);
    var skip := if next == r + 1 then 1 else 2;
    if n < skip {
      k := r;
    } else {
      k := RowsAreTrue(base, rows, next, n - skip);
    }
  }

  // ---------- The program ----------

  /** What `next` holds while row `r` is printed: past the run, or the row itself. */
  ghost function RunMark(rows: seq<seq<u8>>, r: nat): nat
    requires r < |rows|
  {
    var end := RunEnd(rows, r, r + 1);
    if end == r + 1 then 16 * r else 16 * end
  }

  method SkipEmpty(buf: seq<u8>, i: nat, ghost r: nat) returns (next: nat)
    requires |buf| % 16 == 0 && i == 16 * r && i < |buf|
    ensures next == RunMark(Rows(buf), r)
  {
    next := i + 16;
    ghost var n := r + 1;
    while next < |buf|
      invariant next == 16 * n && r < n <= |buf| / 16
      invariant RunEnd(Rows(buf), r, n) == RunEnd(Rows(buf), r, r + 1)
    {
      RowIs(buf, |buf| / 16, r);
      RowIs(buf, |buf| / 16, n);
      if buf[i..i + 16] != buf[next..next + 16] {
        break;
      }
      next := next + 16;
      n := n + 1;
    }
    if next == i + 16 {
      next := i;
    }
  }

  /** Prints byte `l` of a row, starting the line when `l` is 0. */
  method PutByte(line: seq<Token>, at: int, l: nat, b: u8, ghost start: int, ghost row: seq<u8>)
    returns (longer: seq<Token>)
    requires l < |row| && row[l] == b && at == start + l
    requires line == if l == 0 then [] else PartRow(start, row, l)
    ensures longer == PartRow(start, row, l + 1)
  {
    longer := if l == 0 then [Offset(at)] else line;
    longer := longer + [Hex(b)];
    if l == 7 {
      longer := longer + [WordGap];
    }
  }

  lemma PageOfRow(base: int, rows: seq<seq<u8>>, r: nat)
    requires r < |rows|
    ensures var next := RunEnd(rows, r, r + 1);
      Page(Lines(base, rows, r)) == [PartRow(base + 16 * r, rows[r], |rows[r]|)]
        + (if next == r + 1 then Page(Lines(base, rows, next)) else [[Asterisk]] + Page(Lines(base, rows, next)))
  {
    var next := RunEnd(rows, r, r + 1);
    assert Lines(base, rows, r)[1..] == After(base, rows, r);
    if next > r + 1 {
      assert After(base, rows, r)[1..] == Lines(base, rows, next);
    }
  }

  lemma NoLines(base: int, rows: seq<seq<u8>>)
    ensures Page(Lines(base, rows, |rows|)) == []
  {
  }

  lemma PageGrows(page: seq<seq<Token>>, base: int, rows: seq<seq<u8>>, r: nat)
    requires r < |rows|
    requires page + Page(Lines(base, rows, r)) == Page(Lines(base, rows, 0))
    ensures var next := RunEnd(rows, r, r + 1);
      var grown := page + [PartRow(base + 16 * r, rows[r], |rows[r]|)];
      (if next == r + 1 then grown else grown + [[Asterisk]]) + Page(Lines(base, rows, next))
        == Page(Lines(base, rows, 0))
  {
    PageOfRow(base, rows, r);
  }

  /** dump_buffer(): what it prints can be read back as the buffer. */
  method DumpBuffer(base: int, buf: seq<u8>) returns (page: seq<seq<Token>>)
    requires |buf| % 16 == 0
    ensures page == Page(Lines(base, Rows(buf), 0))
    ensures Expand(Parse(page), [], base, base + |buf|) == buf && Tight(Parse(page), base + |buf|)
  {
    page := PrintRows(base, buf);
    ParseUndoesPage(Lines(base, Rows(buf), 0));
    ExpandUndoesDump(base, buf);
    forall k | 0 <= k < |Rows(buf)|
      ensures |Rows(buf)[k]| == 16
    {
      RowIs(buf, |buf| / 16, k);
    }
    LinesAreTight(base, Rows(buf), 0);
  }

  /** Its loop, byte by byte with the column counter `l`; a newline moves the open
      `line` to the `page`. */
  method PrintRows(base: int, buf: seq<u8>) returns (page: seq<seq<Token>>)
    requires |buf| % 16 == 0
    ensures page == Page(Lines(base, Rows(buf), 0))
  {
    hide Lines, Page, PartRow;
    NoLines(base, Rows(buf));
    page := [];
    var line: seq<Token> := [];
    ghost var rows := Rows(buf);
    ghost var r := 0;
    var i, l, next := 0, 0, 0;
    while i < |buf|
      invariant 0 <= l < 16 && i == 16 * r + l && r <= |rows| && (r == |rows| ==> l == 0)
      invariant page + Page(Lines(base, rows, r)) == Page(Lines(base, rows, 0))
      invariant l > 0 ==> |rows[r]| == 16
      invariant line == if l == 0 then [] else PartRow(base + 16 * r, rows[r], l)
      invariant next == if l == 0 then 0 else RunMark(rows, r)
      decreases |buf| - i
    {
      if l == 0 && next == 0 {
        next := SkipEmpty(buf, i, r);
      }
      ghost var start, row := base + 16 * r, rows[r];
      assert |row| == 16 && row[l] == buf[i] by {
        RowIs(buf, |buf| / 16, r);
      }
      line := PutByte(line, base + i, l, buf[i], start, row);
      if l == 15 {
        PageGrows(page, base, rows, r);
        page, line := page + [line], [];
        l := -1;
        if next > i {
          page := page + [[Asterisk]];
          i := next - 1;
        }
        r := RunEnd(rows, r, r + 1);
        next := 0;
      }
      i := i + 1;
      l := l + 1;
    }
    if l > 0 {
      page := page + [line];
    }
  }
}
