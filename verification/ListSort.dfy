/** The bottom-up merge sort of circular doubly linked lists (include/list.h).

    Nodes are heap objects whose links are rewired in place. Sortedness, stability
    and the restored ring are stated about the sequence of nodes a chain of links
    visits; the partner of the program is the strict order `Before`, under which
    there is exactly one sorted arrangement.
  */
module ListSort {
  import opened Bits

  class ListHead {
    var next: ListHead?
    var prev: ListHead?
  }

  type Cmp = (ListHead, ListHead) -> int

  const MAX_LIST_LENGTH_BITS := 20

  // ---------- Sequences of nodes ----------

  ghost predicate Distinct(s: seq<ListHead>) {
    forall i, j :: 0 <= i < j < |s| ==> s[i] != s[j]
  }

  ghost function Nodes(s: seq<ListHead>): set<ListHead> {
    set x | x in s
  }

  /** Following `next` from `start` visits exactly `s` and ends in null. */
  ghost predicate Chain(s: seq<ListHead>, start: ListHead?)
    reads s`next
  {
    if s == [] then start == null else start == s[0] && Chain(s[1..], s[0].next)
  }

  /** `trail` is linked forwards, from its first node to its last. */
  ghost predicate Linked(trail: seq<ListHead>)
    reads trail`next
  {
    forall i :: 0 <= i < |trail| - 1 ==> trail[i].next == trail[i + 1]
  }

  /** Each node of `trail` points back to the one before it. */
  ghost predicate Backlinked(trail: seq<ListHead>)
    reads trail`prev
  {
    forall i :: 0 <= i < |trail| - 1 ==> trail[i + 1].prev == trail[i]
  }

  /** The nodes linked so far: the list head, then what has been merged. */
  ghost function Trail(head: ListHead, done: seq<ListHead>): (t: seq<ListHead>)
    ensures |t| == |done| + 1 && t[0] == head && t[1..] == done
    ensures forall i :: 0 < i < |t| ==> t[i] == done[i - 1]
  {
    [head] + done
  }

  ghost function Last(head: ListHead, done: seq<ListHead>): ListHead {
    if done == [] then head else done[|done| - 1]
  }

  /** `head` and the entries `s` form a ring, forwards and backwards. */
  ghost predicate Ring(head: ListHead, s: seq<ListHead>)
    reads head, s
  {
    var ring := Trail(head, s);
    && Distinct(ring) && Linked(ring) && Backlinked(ring)
    && Last(head, s).next == head
    && head.prev == Last(head, s)
  }

  // ---------- The order ----------

  predicate TransitiveAt(cmp: Cmp, a: ListHead, b: ListHead, c: ListHead) {
    cmp(a, b) <= 0 && cmp(b, c) <= 0 ==> cmp(a, c) <= 0
  }

  predicate TotalAt(cmp: Cmp, a: ListHead, b: ListHead) {
    cmp(a, b) <= 0 || cmp(b, a) <= 0
  }

  /** What list_sort() asks of its comparison function. */
  ghost predicate Preorder(cmp: Cmp, nodes: set<ListHead>) {
    && (forall a, b {:trigger TotalAt(cmp, a, b)} :: a in nodes && b in nodes ==> TotalAt(cmp, a, b))
    && (forall a, b, c {:trigger TransitiveAt(cmp, a, b, c)} ::
          a in nodes && b in nodes && c in nodes ==> TransitiveAt(cmp, a, b, c))
  }

  /** `x` must come before `y`: it compares lower, or equal and was earlier. */
  ghost predicate Before(cmp: Cmp, pos: map<ListHead, nat>, x: ListHead, y: ListHead)
    requires x in pos && y in pos
  {
    cmp(x, y) <= 0 && (cmp(y, x) <= 0 ==> pos[x] < pos[y])
  }

  ghost predicate Sorted(cmp: Cmp, pos: map<ListHead, nat>, s: seq<ListHead>) {
    && (forall i :: 0 <= i < |s| ==> s[i] in pos)
    && (forall i, j :: 0 <= i < j < |s| ==> Before(cmp, pos, s[i], s[j]))
  }

  /** The place of every node in the original list. */
  ghost function Positions(orig: seq<ListHead>): (pos: map<ListHead, nat>)
    requires Distinct(orig)
    ensures pos.Keys == Nodes(orig)
    ensures forall i :: 0 <= i < |orig| ==> orig[i] in pos && pos[orig[i]] == i
  {
    map i: nat | 0 <= i < |orig| :: orig[i] := i
  }

  /** `s` is the stable sort of `orig`: the same nodes, in non-descending order,
      equal ones in their original order. */
  ghost predicate StableSortOf(cmp: Cmp, orig: seq<ListHead>, s: seq<ListHead>)
    requires Distinct(orig)
  {
    |s| == |orig| && Nodes(s) == Nodes(orig) && Sorted(cmp, Positions(orig), s)
  }

  /** A list has only one stable sort. */
  lemma StableSortIsUnique(cmp: Cmp, orig: seq<ListHead>, s: seq<ListHead>, t: seq<ListHead>)
    requires Distinct(orig)
    requires StableSortOf(cmp, orig, s) && StableSortOf(cmp, orig, t)
    ensures s == t
  {
    SortedIsUnique(cmp, Positions(orig), s, t);
  }

  lemma {:induction false} SortedIsUnique(cmp: Cmp, pos: map<ListHead, nat>, s: seq<ListHead>, t: seq<ListHead>)
    requires Sorted(cmp, pos, s) && Sorted(cmp, pos, t)
    requires |s| == |t| && Nodes(s) == Nodes(t)
    ensures s == t
  {
    if s != [] {
      assert s[0] in Nodes(s) && t[0] in Nodes(t);
      var i :| 0 <= i < |t| && t[i] == s[0];
      var j :| 0 <= j < |s| && s[j] == t[0];
      assert s[0] == t[0];
      forall x
        ensures x in Nodes(s[1..]) <==> x in Nodes(t[1..])
      {
        assert x in s <==> x in Nodes(s);
        assert x in t <==> x in Nodes(t);
      }
      SortedIsUnique(cmp, pos, s[1..], t[1..]);
      assert s == [s[0]] + s[1..] && t == [t[0]] + t[1..];
    }
  }

  // ---------- Merging as a function of sequences ----------

  ghost function MergeSeq(cmp: Cmp, a: seq<ListHead>, b: seq<ListHead>): (r: seq<ListHead>)
    ensures |r| == |a| + |b|
    decreases |a| + |b|
  {
    if a == [] then b
    else if b == [] then a
    else if cmp(a[0], b[0]) <= 0 then [a[0]] + MergeSeq(cmp, a[1..], b)
    else [b[0]] + MergeSeq(cmp, a, b[1..])
  }

  lemma MergeStep(cmp: Cmp, done: seq<ListHead>, a: seq<ListHead>, b: seq<ListHead>)
    requires a != [] && b != []
    ensures done + MergeSeq(cmp, a, b) ==
      if cmp(a[0], b[0]) <= 0 then (done + [a[0]]) + MergeSeq(cmp, a[1..], b)
      else (done + [b[0]]) + MergeSeq(cmp, a, b[1..])
  {
  }

  lemma {:induction false} MergeNodes(cmp: Cmp, a: seq<ListHead>, b: seq<ListHead>, x: ListHead)
    ensures x in MergeSeq(cmp, a, b) <==> x in a || x in b
    decreases |a| + |b|
  {
    if a != [] && b != [] {
      if cmp(a[0], b[0]) <= 0 {
        MergeNodes(cmp, a[1..], b, x);
        assert x in a <==> x == a[0] || x in a[1..];
      } else {
        MergeNodes(cmp, a, b[1..], x);
        assert x in b <==> x == b[0] || x in b[1..];
      }
    }
  }

  ghost predicate Earlier(pos: map<ListHead, nat>, a: seq<ListHead>, b: seq<ListHead>) {
    forall x, y :: x in a && y in b ==> x in pos && y in pos && pos[x] < pos[y]
  }

  /** Merging two sorted stretches, the first from earlier in the list, is stable. */
  lemma {:induction false} MergeSorted(cmp: Cmp, pos: map<ListHead, nat>, a: seq<ListHead>, b: seq<ListHead>)
    requires Preorder(cmp, pos.Keys)
    requires Sorted(cmp, pos, a) && Sorted(cmp, pos, b) && Earlier(pos, a, b)
    ensures Sorted(cmp, pos, MergeSeq(cmp, a, b))
    decreases |a| + |b|
  {
    if a != [] && b != [] {
      var first := cmp(a[0], b[0]) <= 0;
      var h := if first then a[0] else b[0];
      var a', b' := if first then a[1..] else a, if first then b else b[1..];
      MergeSorted(cmp, pos, a', b');
      var rest := MergeSeq(cmp, a', b');
      forall k | 0 <= k < |rest|
        ensures rest[k] in pos && Before(cmp, pos, h, rest[k])
      {
        MergeNodes(cmp, a', b', rest[k]);
        HeadIsLeast(cmp, pos, a, b, rest[k]);
      }
      ConsSorted(cmp, pos, h, rest);
    }
  }

  lemma ConsSorted(cmp: Cmp, pos: map<ListHead, nat>, h: ListHead, rest: seq<ListHead>)
    requires h in pos && Sorted(cmp, pos, rest)
    requires forall k :: 0 <= k < |rest| ==> Before(cmp, pos, h, rest[k])
    ensures Sorted(cmp, pos, [h] + rest)
  {
  }

  /** The node that merge takes first comes before every other. */
  lemma HeadIsLeast(cmp: Cmp, pos: map<ListHead, nat>, a: seq<ListHead>, b: seq<ListHead>, y: ListHead)
    requires Preorder(cmp, pos.Keys)
    requires Sorted(cmp, pos, a) && Sorted(cmp, pos, b) && Earlier(pos, a, b)
    requires a != [] && b != []
    requires if cmp(a[0], b[0]) <= 0 then y in a[1..] || y in b else y in a || y in b[1..]
    ensures y in pos
    ensures Before(cmp, pos, if cmp(a[0], b[0]) <= 0 then a[0] else b[0], y)
  {
    var i :| (0 <= i < |a| && a[i] == y) || (0 <= i < |b| && b[i] == y);
    assert a[0] in a && b[0] in b;
    assert TotalAt(cmp, a[0], b[0]);
    assert TransitiveAt(cmp, a[0], b[0], y);
    assert TransitiveAt(cmp, b[0], a[0], y);
    assert TransitiveAt(cmp, a[0], y, b[0]);
  }

  // ---------- The program ----------

  /** Three disjoint runs of distinct nodes. */
  ghost predicate Apart(trail: seq<ListHead>, xs: seq<ListHead>, ys: seq<ListHead>) {
    && Distinct(trail) && Distinct(xs) && Distinct(ys)
    && (forall x :: x in xs ==> x !in trail && x !in ys)
    && (forall y :: y in ys ==> y !in trail)
  }

  lemma ApartAfterTake(head: ListHead, done: seq<ListHead>, xs: seq<ListHead>, ys: seq<ListHead>)
    requires Apart(Trail(head, done), xs, ys)
    ensures xs != [] ==> Apart(Trail(head, done + [xs[0]]), xs[1..], ys)
    ensures ys != [] ==> Apart(Trail(head, done + [ys[0]]), xs, ys[1..])
    ensures var tail := Last(head, done); tail !in xs && tail !in ys
  {
    assert xs != [] ==> xs[0] in xs;
    assert ys != [] ==> ys[0] in ys;
    assert Last(head, done) == Trail(head, done)[|done|];
    assert xs != [] ==> Trail(head, done + [xs[0]]) == Trail(head, done) + [xs[0]];
    assert ys != [] ==> Trail(head, done + [ys[0]]) == Trail(head, done) + [ys[0]];
  }

  /** Hangs the first node of a chain behind `tail`. */
  method Take(tail: ListHead, node: ListHead, ghost head: ListHead, ghost done: seq<ListHead>,
              ghost rest: seq<ListHead>)
    requires tail == Last(head, done) && Linked(Trail(head, done)) && Distinct(Trail(head, done))
    requires Chain(rest, node) && tail !in rest
    modifies tail`next
    ensures tail.next == node && Linked(Trail(head, done + [node])) && Chain(rest[1..], node.next)
  {
    tail.next := node;
    assert Trail(head, done + [node]) == Trail(head, done) + [node];
  }

  /** A linked trail followed by a chain is a chain. */
  lemma {:induction false} TrailThenChain(trail: seq<ListHead>, rest: seq<ListHead>)
    requires trail != [] && Linked(trail) && Chain(rest, trail[|trail| - 1].next)
    ensures Chain(trail[1..] + rest, trail[0].next)
    decreases |trail|
  {
    if |trail| == 1 {
      assert trail[1..] + rest == rest;
    } else {
      TrailThenChain(trail[1..], rest);
      var all := trail[1..] + rest;
      assert all[1..] == trail[1..][1..] + rest;
    }
  }

  /** Hangs all that is left behind `tail`. */
  method Append(tail: ListHead, node: ListHead?, ghost head: ListHead, ghost done: seq<ListHead>,
                ghost rest: seq<ListHead>)
    requires tail == Last(head, done) && Linked(Trail(head, done)) && Distinct(Trail(head, done))
    requires Chain(rest, node) && tail !in rest
    modifies tail`next
    ensures tail.next == node && Linked(Trail(head, done)) && Chain(rest, node)
    ensures Chain(done + rest, head.next)
  {
    tail.next := node;
    TrailThenChain(Trail(head, done), rest);
  }

  lemma HeadAlone(head: ListHead)
    ensures Linked(Trail(head, [])) && Backlinked(Trail(head, []))
  {
  }

  lemma HeadIsNew(head: ListHead, xs: seq<ListHead>, ys: seq<ListHead>)
    requires Apart([], xs, ys) && head !in xs && head !in ys
    ensures Apart(Trail(head, []), xs, ys)
  {
  }

  /** Merges two null-terminated chains; prev links are left alone. */
  method Merge(cmp: Cmp, a0: ListHead?, b0: ListHead?, ghost xs0: seq<ListHead>, ghost ys0: seq<ListHead>)
    returns (r: ListHead?)
    requires Chain(xs0, a0) && Chain(ys0, b0) && Apart([], xs0, ys0)
    modifies (Nodes(xs0) + Nodes(ys0))`next
    ensures Chain(MergeSeq(cmp, xs0, ys0), r)
  {
    hide Linked, Backlinked, Distinct;
    var head := new ListHead;
    HeadAlone(head);
    HeadIsNew(head, xs0, ys0);
    var tail: ListHead, a, b := head, a0, b0;
    ghost var done: seq<ListHead>, xs, ys := [], xs0, ys0;
    ghost var own := {head} + Nodes(xs0) + Nodes(ys0);
    while a != null && b != null
      invariant tail == Last(head, done) && Linked(Trail(head, done))
      invariant Chain(xs, a) && Chain(ys, b) && Apart(Trail(head, done), xs, ys)
      invariant tail in own && (forall x :: x in xs ==> x in own) && (forall y :: y in ys ==> y in own)
      invariant done + MergeSeq(cmp, xs, ys) == MergeSeq(cmp, xs0, ys0)
      decreases |xs| + |ys|
    {
      ApartAfterTake(head, done, xs, ys);
      MergeStep(cmp, done, xs, ys);
      if cmp(a, b) <= 0 {
        Take(tail, a, head, done, xs);
        done, xs := done + [xs[0]], xs[1..];
        a := a.next;
      } else {
        Take(tail, b, head, done, ys);
        done, ys := done + [ys[0]], ys[1..];
        b := b.next;
      }
      tail := tail.next;
    }
    ApartAfterTake(head, done, xs, ys);
    Append(tail, if a != null then a else b, head, done, if a != null then xs else ys);
    r := head.next;
  }

  /** Points `node` back at `tail`. */
  method SetPrev(node: ListHead, tail: ListHead, ghost head: ListHead, ghost done: seq<ListHead>)
    requires tail == Last(head, done) && Backlinked(Trail(head, done)) && node !in Trail(head, done)
    modifies node`prev
    ensures Backlinked(Trail(head, done + [node]))
  {
    node.prev := tail;
    assert Trail(head, done + [node]) == Trail(head, done) + [node];
    assert Last(head, done) == Trail(head, done)[|done|];
  }

  /** Hangs the first node of a chain behind `tail` and points it back. */
  method TakeBoth(tail: ListHead, node: ListHead, ghost head: ListHead, ghost done: seq<ListHead>,
                  ghost rest: seq<ListHead>)
    requires tail == Last(head, done) && Linked(Trail(head, done)) && Backlinked(Trail(head, done))
    requires Chain(rest, node) && Apart(Trail(head, done), rest, [])
    modifies tail`next, node`prev
    ensures tail.next == node && Linked(Trail(head, done + [node])) && Backlinked(Trail(head, done + [node]))
    ensures Chain(rest[1..], node.next)
  {
    ApartAfterTake(head, done, rest, []);
    assert node in rest;
    Take(tail, node, head, done, rest);
    SetPrev(node, tail, head, done);
  }

  lemma MergeEnd(cmp: Cmp, xs: seq<ListHead>, ys: seq<ListHead>)
    requires xs == [] || ys == []
    ensures MergeSeq(cmp, xs, ys) == if xs != [] then xs else ys
  {
  }

  /** One turn of the last merge: the lower of two first nodes goes behind `tail`. */
  method TakeLower(cmp: Cmp, tail0: ListHead, a0: ListHead, b0: ListHead, ghost head: ListHead,
                   ghost done0: seq<ListHead>, ghost xs0: seq<ListHead>, ghost ys0: seq<ListHead>)
    returns (tail: ListHead, a: ListHead?, b: ListHead?, ghost done: seq<ListHead>, ghost xs: seq<ListHead>,
             ghost ys: seq<ListHead>)
    requires tail0 == Last(head, done0) && Linked(Trail(head, done0)) && Backlinked(Trail(head, done0))
    requires Chain(xs0, a0) && Chain(ys0, b0) && Apart(Trail(head, done0), xs0, ys0)
    modifies tail0`next, a0`prev, b0`prev
    ensures tail == Last(head, done) && Linked(Trail(head, done)) && Backlinked(Trail(head, done))
    ensures Chain(xs, a) && Chain(ys, b) && Apart(Trail(head, done), xs, ys)
    ensures done + MergeSeq(cmp, xs, ys) == done0 + MergeSeq(cmp, xs0, ys0)
    ensures (tail in xs0 || tail in ys0) && (forall x :: x in xs ==> x in xs0) && (forall y :: y in ys ==> y in ys0)
    ensures |xs| + |ys| < |xs0| + |ys0| && (xs != [] || ys != [])
  {
    hide Linked, Backlinked;
    tail, a, b, done, xs, ys := tail0, a0, b0, done0, xs0, ys0;
    ApartAfterTake(head, done, xs, ys);
    MergeStep(cmp, done, xs, ys);
    if cmp(a, b) <= 0 {
      TakeBoth(tail, a, head, done, xs);
      done, xs := done + [xs[0]], xs[1..];
      a := a.next;
    } else {
      TakeBoth(tail, b, head, done, ys);
      done, ys := done + [ys[0]], ys[1..];
      b := b.next;
    }
    tail := tail.next;
  }

  /** The last merge, which also restores the prev links and closes the ring. */
  method MergeAndRestoreBackLinks(cmp: Cmp, head: ListHead, a0: ListHead?, b0: ListHead?,
                                  ghost xs0: seq<ListHead>, ghost ys0: seq<ListHead>)
    requires Chain(xs0, a0) && Chain(ys0, b0) && Apart(Trail(head, []), xs0, ys0)
    requires a0 != null || b0 != null
    modifies head, Nodes(xs0) + Nodes(ys0)
    ensures Ring(head, MergeSeq(cmp, xs0, ys0))
  {
    hide Linked, Backlinked, Distinct, MergeSeq;
    HeadAlone(head);
    var tail: ListHead, a, b := head, a0, b0;
    ghost var done: seq<ListHead>, xs, ys := [], xs0, ys0;
    ghost var own := {head} + Nodes(xs0) + Nodes(ys0);
    while a != null && b != null
      invariant tail == Last(head, done) && Linked(Trail(head, done)) && Backlinked(Trail(head, done))
      invariant Chain(xs, a) && Chain(ys, b) && Apart(Trail(head, done), xs, ys)
      invariant tail in own && (forall x :: x in xs ==> x in own) && (forall y :: y in ys ==> y in own)
      invariant done + MergeSeq(cmp, xs, ys) == MergeSeq(cmp, xs0, ys0)
      invariant xs != [] || ys != []
      decreases |xs| + |ys|
    {
      tail, a, b, done, xs, ys := TakeLower(cmp, tail, a, b, head, done, xs, ys);
    }
    ApartAfterTake(head, done, xs, ys);
    MergeEnd(cmp, xs, ys);
    ghost var rest := if a != null then xs else ys;
    RestoreRest(head, tail, if a != null then a else b, done, rest);
  }

  lemma ShiftOne(done: seq<ListHead>, rest: seq<ListHead>)
    requires rest != []
    ensures (done + [rest[0]]) + rest[1..] == done + rest
  {
  }

  lemma LinkedSnoc(head: ListHead, done: seq<ListHead>, node: ListHead)
    requires Linked(Trail(head, done)) && Last(head, done).next == node
    ensures Linked(Trail(head, done + [node]))
  {
    assert Trail(head, done + [node]) == Trail(head, done) + [node];
    assert Last(head, done) == Trail(head, done)[|done|];
  }

  /** Hangs a non-empty chain behind `tail`, restores its prev links one by one
      and closes the ring. */
  method RestoreRest(head: ListHead, tail0: ListHead, node: ListHead?, ghost done0: seq<ListHead>,
                     ghost rest0: seq<ListHead>)
    requires tail0 == Last(head, done0) && Linked(Trail(head, done0)) && Backlinked(Trail(head, done0))
    requires Chain(rest0, node) && node != null && Apart(Trail(head, done0), rest0, [])
    modifies tail0, head, rest0
    ensures Ring(head, done0 + rest0)
  {
    hide Linked, Backlinked, Distinct;
    var tail: ListHead := tail0;
    ghost var done, rest := done0, rest0;
    ApartAfterTake(head, done, rest, []);
    Append(tail, node, head, done, rest);
    // The source tests at the end of the loop: it needs the chain to be non-empty.
    assert tail.next != null;
    while tail.next != null
      invariant tail == Last(head, done) && Linked(Trail(head, done)) && Backlinked(Trail(head, done))
      invariant Chain(rest, tail.next) && Apart(Trail(head, done), rest, [])
      invariant done + rest == done0 + rest0
      invariant forall x :: x in rest ==> x in rest0
      decreases |rest|
    {
      ApartAfterTake(head, done, rest, []);
      ShiftOne(done, rest);
      var next := tail.next;
      assert next in rest;
      LinkedSnoc(head, done, next);
      SetPrev(next, tail, head, done);
      tail := next;
      done, rest := done + [rest[0]], rest[1..];
    }
    assert done + rest == done;
    CloseRing(head, tail, done);
  }

  method CloseRing(head: ListHead, tail: ListHead, ghost s: seq<ListHead>)
    requires tail == Last(head, s) && Distinct(Trail(head, s))
    requires Linked(Trail(head, s)) && Backlinked(Trail(head, s))
    modifies tail`next, head`prev
    ensures Ring(head, s)
  {
    tail.next := head;
    head.prev := tail;
  }

  // ---------- The levels of partial lists ----------

  /** `s` is the stable sort of the nodes at the places [lo, hi) of the list. */
  ghost predicate Stretch(cmp: Cmp, pos: map<ListHead, nat>, s: seq<ListHead>, lo: nat, hi: nat) {
    && lo <= hi && |s| == hi - lo
    && Sorted(cmp, pos, s)
    && (forall x :: x in s ==> x in pos && lo <= pos[x] < hi)
  }

  lemma StretchesApart(cmp: Cmp, pos: map<ListHead, nat>, a: seq<ListHead>, b: seq<ListHead>, lo: nat, mid: nat,
                       hi: nat)
    requires Stretch(cmp, pos, a, lo, mid) && Stretch(cmp, pos, b, mid, hi)
    ensures Apart([], a, b) && Earlier(pos, a, b)
  {
    SortedIsDistinct(cmp, pos, a);
    SortedIsDistinct(cmp, pos, b);
  }

  lemma SortedIsDistinct(cmp: Cmp, pos: map<ListHead, nat>, s: seq<ListHead>)
    requires Sorted(cmp, pos, s)
    ensures Distinct(s)
  {
    forall i, j | 0 <= i < j < |s|
      ensures s[i] != s[j]
    {
      assert Before(cmp, pos, s[i], s[j]);
    }
  }

  /** Merging two adjacent stretches gives the stretch that spans both. */
  lemma MergeStretches(cmp: Cmp, pos: map<ListHead, nat>, a: seq<ListHead>, b: seq<ListHead>, lo: nat, mid: nat,
                       hi: nat)
    requires Preorder(cmp, pos.Keys)
    requires Stretch(cmp, pos, a, lo, mid) && Stretch(cmp, pos, b, mid, hi)
    ensures Stretch(cmp, pos, MergeSeq(cmp, a, b), lo, hi)
  {
    StretchesApart(cmp, pos, a, b, lo, mid, hi);
    MergeSorted(cmp, pos, a, b);
    forall x | x in MergeSeq(cmp, a, b)
      ensures x in pos && lo <= pos[x] < hi
    {
      MergeNodes(cmp, a, b, x);
    }
  }

  /** What the slots of `part` hold: level `l` holds the places [cut[l + 1], cut[l]),
      so the top level holds the front of the list and level 0 the latest nodes. */
  datatype Levels = Levels(lists: seq<seq<ListHead>>, cut: seq<nat>)

  ghost predicate LevelsOk(cmp: Cmp, pos: map<ListHead, nat>, v: Levels, k: nat) {
    && |v.lists| == 21 && |v.cut| == 22 && v.cut[0] == k && v.cut[21] == 0
    && (forall l :: 0 <= l < 21 ==> Stretch(cmp, pos, v.lists[l], v.cut[l + 1], v.cut[l]))
  }

  /** Nothing above `maxLev`, and something in `maxLev` once a node is in. */
  ghost predicate TopOk(v: Levels, maxLev: nat, k: nat)
    requires |v.cut| == 22
  {
    && maxLev < 20
    && (forall l :: maxLev < l < 22 ==> v.cut[l] == 0)
    && (if k > 0 then v.cut[maxLev] > 0 else maxLev == 0)
  }

  /** Below the cap the levels are the digits of a binary number: level `l` is empty
      or holds 2^l nodes. Level 19 takes whatever is left. */
  ghost predicate Binary(v: Levels)
    requires |v.lists| == 21
  {
    forall l :: 0 <= l < 19 ==> v.lists[l] == [] || |v.lists[l]| == Pow2(l)
  }

  /** A run that has come up to level `lev`. */
  ghost predicate IsDigit(run: seq<ListHead>, lev: nat) {
    lev <= 19 ==> |run| == Pow2(lev)
  }

  /** Level `lev` takes `run`, which spans everything from there down. */
  ghost function Store(v: Levels, lev: nat, run: seq<ListHead>, k: nat): (w: Levels)
    requires |v.lists| == 21 && |v.cut| == 22 && lev < 21
    ensures |w.lists| == 21 && |w.cut| == 22
    ensures forall l :: 0 <= l < 21 ==> w.lists[l] == if l < lev then [] else if l == lev then run else v.lists[l]
    ensures forall l :: 0 <= l < 22 ==> w.cut[l] == if l <= lev then k else v.cut[l]
  {
    Levels(seq(21, l requires 0 <= l < 21 => if l < lev then [] else if l == lev then run else v.lists[l]),
           seq(22, l requires 0 <= l < 22 => if l <= lev then k else v.cut[l]))
  }

  lemma StoreOk(cmp: Cmp, pos: map<ListHead, nat>, v: Levels, lev: nat, run: seq<ListHead>, k: nat)
    requires LevelsOk(cmp, pos, v, k) && lev < 21
    requires Stretch(cmp, pos, run, v.cut[lev + 1], k + 1)
    ensures LevelsOk(cmp, pos, Store(v, lev, run, k + 1), k + 1)
  {
    var w := Store(v, lev, run, k + 1);
    forall l | 0 <= l < 21
      ensures Stretch(cmp, pos, w.lists[l], w.cut[l + 1], w.cut[l])
    {
      assert Stretch(cmp, pos, v.lists[l], v.cut[l + 1], v.cut[l]);
    }
  }

  /** The nodes of a level are none of those of a lower level or of the run. */
  lemma {:induction false} CutsDescend(cmp: Cmp, pos: map<ListHead, nat>, v: Levels, k: nat, l: nat, m: nat)
    requires LevelsOk(cmp, pos, v, k) && l <= m < 22
    ensures v.cut[m] <= v.cut[l]
    decreases m - l
  {
    if l < m {
      CutsDescend(cmp, pos, v, k, l + 1, m);
      assert Stretch(cmp, pos, v.lists[l], v.cut[l + 1], v.cut[l]);
    }
  }

  lemma HigherLevelsApart(cmp: Cmp, pos: map<ListHead, nat>, v: Levels, k: nat, lev: nat, run: seq<ListHead>)
    requires LevelsOk(cmp, pos, v, k) && lev < 21 && Stretch(cmp, pos, run, v.cut[lev], k + 1)
    ensures forall l, x :: lev < l < 21 && x in v.lists[l] ==> x !in v.lists[lev] && x !in run
  {
    forall l, x | lev < l < 21 && x in v.lists[l]
      ensures x !in v.lists[lev] && x !in run
    {
      CutsDescend(cmp, pos, v, k, lev + 1, l);
      assert Stretch(cmp, pos, v.lists[l], v.cut[l + 1], v.cut[l]);
      assert Stretch(cmp, pos, v.lists[lev], v.cut[lev + 1], v.cut[lev]);
    }
  }

  lemma CarryStart(cmp: Cmp, pos: map<ListHead, nat>, v: Levels, maxLev: nat, k: nat, node: ListHead)
    requires LevelsOk(cmp, pos, v, k) && TopOk(v, maxLev, k) && node in pos && pos[node] == k && node.next == null
    ensures |v.lists| == 21 && |v.cut| == 22 && maxLev < 20
    ensures Stretch(cmp, pos, [node], v.cut[0], k + 1) && IsDigit([node], 0) && Chain([node], node)
  {
  }

  /** What one turn of the carry loop needs and what it makes of the run. */
  lemma CarryStep(cmp: Cmp, pos: map<ListHead, nat>, v: Levels, maxLev: nat, k: nat, lev: nat, run: seq<ListHead>)
    requires Preorder(cmp, pos.Keys) && LevelsOk(cmp, pos, v, k) && TopOk(v, maxLev, k) && Binary(v)
    requires lev < 21 && v.lists[lev] != [] && Stretch(cmp, pos, run, v.cut[lev], k + 1)
    requires IsDigit(run, lev)
    ensures lev <= maxLev && Apart([], v.lists[lev], run)
    ensures forall l, x :: lev < l < 21 && x in v.lists[l] ==> x !in v.lists[lev] && x !in run
    ensures forall x :: x in v.lists[lev] || x in run ==> x in pos && pos[x] <= k
    ensures Stretch(cmp, pos, MergeSeq(cmp, v.lists[lev], run), v.cut[lev + 1], k + 1)
    ensures IsDigit(MergeSeq(cmp, v.lists[lev], run), lev + 1)
  {
    hide Preorder, Sorted, Apart, MergeSeq;
    assert Stretch(cmp, pos, v.lists[lev], v.cut[lev + 1], v.cut[lev]);
    HigherLevelsApart(cmp, pos, v, k, lev, run);
    CutsDescend(cmp, pos, v, k, 0, lev);
    StretchesApart(cmp, pos, v.lists[lev], run, v.cut[lev + 1], v.cut[lev], k + 1);
    MergeStretches(cmp, pos, v.lists[lev], run, v.cut[lev + 1], v.cut[lev], k + 1);
  }

  // ---------- The sort ----------

  /** The nodes up to place `k`. */
  ghost function Older(pos: map<ListHead, nat>, k: nat): set<ListHead> {
    set x | x in pos && pos[x] <= k
  }

  /** Folds level `lev` into the run: one turn of the carry loop. */
  method Carry(cmp: Cmp, part: array<ListHead?>, lev: nat, cur: ListHead?, ghost maxLev: nat,
               ghost pos: map<ListHead, nat>, ghost v: Levels, ghost k: nat, ghost run: seq<ListHead>)
    returns (r: ListHead?)
    requires part.Length == 21 && Preorder(cmp, pos.Keys)
    requires LevelsOk(cmp, pos, v, k) && TopOk(v, maxLev, k) && Binary(v)
    requires lev < 21 && part[lev] != null && Stretch(cmp, pos, run, v.cut[lev], k + 1)
    requires IsDigit(run, lev)
    requires forall l :: lev <= l < 21 ==> Chain(v.lists[l], part[l])
    requires Chain(run, cur)
    modifies part, Older(pos, k)`next
    ensures lev <= maxLev < 20
    ensures forall l :: 0 <= l < 21 ==> part[l] == if l == lev then null else old(part[l])
    ensures forall l :: lev < l < 21 ==> Chain(v.lists[l], part[l])
    ensures Chain(MergeSeq(cmp, v.lists[lev], run), r)
    ensures Stretch(cmp, pos, MergeSeq(cmp, v.lists[lev], run), v.cut[lev + 1], k + 1)
    ensures IsDigit(MergeSeq(cmp, v.lists[lev], run), lev + 1)
  {
    hide Preorder, Stretch, Binary, IsDigit, MergeSeq;
    CarryStep(cmp, pos, v, maxLev, k, lev, run);
    r := Merge(cmp, part[lev], cur, v.lists[lev], run);
    part[lev] := null;
  }

  /** The carry loop: folds the full levels from the bottom into the new node. */
  method CarryLoop(cmp: Cmp, part: array<ListHead?>, node: ListHead, ghost maxLev: nat,
                   ghost pos: map<ListHead, nat>, ghost v: Levels, ghost k: nat)
    returns (lev: nat, cur: ListHead?, ghost run: seq<ListHead>)
    requires part.Length == 21 && Preorder(cmp, pos.Keys)
    requires LevelsOk(cmp, pos, v, k) && TopOk(v, maxLev, k) && Binary(v)
    requires node in pos && pos[node] == k && node.next == null
    requires forall l :: 0 <= l < 21 ==> Chain(v.lists[l], part[l])
    modifies part, Older(pos, k)`next
    ensures lev <= maxLev + 1 && v.lists[lev] == [] && Stretch(cmp, pos, run, v.cut[lev], k + 1)
    ensures IsDigit(run, lev)
    ensures forall l :: 0 <= l < lev ==> part[l] == null
    ensures forall l :: lev <= l < 21 ==> Chain(v.lists[l], part[l])
    ensures Chain(run, cur)
  {
    cur, run, lev := node, [node], 0;
    hide Preorder, Stretch, Binary, IsDigit, MergeSeq, Older, Chain, LevelsOk, TopOk;
    CarryStart(cmp, pos, v, maxLev, k, node);
    while part[lev] != null
      invariant lev <= maxLev + 1 && Stretch(cmp, pos, run, v.cut[lev], k + 1)
      invariant IsDigit(run, lev)
      invariant forall l :: 0 <= l < lev ==> part[l] == null
      invariant forall l :: lev <= l < 21 ==> Chain(v.lists[l], part[l])
      invariant Chain(run, cur)
      decreases 21 - lev
    {
      cur := Carry(cmp, part, lev, cur, maxLev, pos, v, k, run);
      run := MergeSeq(cmp, v.lists[lev], run);
      lev := lev + 1;
    }
    NullIsEmpty(v.lists[lev]);
  }

  lemma NullIsEmpty(s: seq<ListHead>)
    requires Chain(s, null)
    ensures s == []
  {
  }

  /** Adds one node: the carry loop, then the choice of the level the run ends in.
      At the cap the run goes one level down, into the level just emptied. */
  method Insert(cmp: Cmp, part: array<ListHead?>, maxLev: nat, node: ListHead,
                ghost pos: map<ListHead, nat>, ghost v: Levels, ghost k: nat)
    returns (newMax: nat, ghost w: Levels)
    requires part.Length == 21 && Preorder(cmp, pos.Keys)
    requires LevelsOk(cmp, pos, v, k) && TopOk(v, maxLev, k) && Binary(v)
    requires node in pos && pos[node] == k && node.next == null
    requires forall l :: 0 <= l < 21 ==> Chain(v.lists[l], part[l])
    modifies part, Older(pos, k)`next
    ensures LevelsOk(cmp, pos, w, k + 1) && TopOk(w, newMax, k + 1) && Binary(w)
    ensures forall l :: 0 <= l < 21 ==> Chain(w.lists[l], part[l])
  {
    newMax := maxLev;
    var lev, cur;
    ghost var run;
    lev, cur, run := CarryLoop(cmp, part, node, maxLev, pos, v, k);
    assert Stretch(cmp, pos, v.lists[lev], v.cut[lev + 1], v.cut[lev]);
    if lev > newMax {
      if lev >= 20 {
        lev := lev - 1;
      }
      newMax := lev;
    }
    StoreOk(cmp, pos, v, lev, run, k);
    w := Store(v, lev, run, k + 1);
    PutRun(part, lev, cur, v, run, w);
  }

  method PutRun(part: array<ListHead?>, lev: nat, cur: ListHead?, ghost v: Levels, ghost run: seq<ListHead>,
                ghost w: Levels)
    requires part.Length == 21 == |v.lists| == |w.lists| && lev < 21
    requires forall l :: 0 <= l < 21 ==> w.lists[l] == if l < lev then [] else if l == lev then run else v.lists[l]
    requires forall l :: 0 <= l < lev ==> part[l] == null
    requires forall l :: lev < l < 21 ==> Chain(v.lists[l], part[l])
    requires Chain(run, cur)
    modifies part
    ensures forall l :: 0 <= l < 21 ==> Chain(w.lists[l], part[l])
  {
    part[lev] := cur;
  }

  /** Merges the levels below the top one, lowest first. */
  method FoldLevels(cmp: Cmp, part: array<ListHead?>, maxLev: nat,
                    ghost pos: map<ListHead, nat>, ghost v: Levels, ghost k: nat)
    returns (list: ListHead?, ghost run: seq<ListHead>)
    requires part.Length == 21 && Preorder(cmp, pos.Keys)
    requires LevelsOk(cmp, pos, v, k) && TopOk(v, maxLev, k)
    requires forall l :: 0 <= l < 21 ==> Chain(v.lists[l], part[l])
    modifies pos.Keys`next
    ensures Stretch(cmp, pos, run, v.cut[maxLev], k) && Chain(run, list)
    ensures Chain(v.lists[maxLev], part[maxLev])
  {
    list, run := null, [];
    var lev := 0;
    while lev < maxLev
      invariant 0 <= lev <= maxLev && Stretch(cmp, pos, run, v.cut[lev], k)
      invariant forall l :: lev <= l < 21 ==> Chain(v.lists[l], part[l])
      invariant Chain(run, list)
    {
      assert Stretch(cmp, pos, v.lists[lev], v.cut[lev + 1], v.cut[lev]);
      if part[lev] != null {
        RunApart(cmp, pos, v, k, lev, run);
        StretchesApart(cmp, pos, v.lists[lev], run, v.cut[lev + 1], v.cut[lev], k);
        list := Merge(cmp, part[lev], list, v.lists[lev], run);
        MergeStretches(cmp, pos, v.lists[lev], run, v.cut[lev + 1], v.cut[lev], k);
        run := MergeSeq(cmp, v.lists[lev], run);
      }
      lev := lev + 1;
    }
  }

  lemma RunApart(cmp: Cmp, pos: map<ListHead, nat>, v: Levels, k: nat, lev: nat, run: seq<ListHead>)
    requires LevelsOk(cmp, pos, v, k) && lev < 21 && Stretch(cmp, pos, run, v.cut[lev], k)
    ensures forall l, x :: lev < l < 21 && x in v.lists[l] ==> x !in v.lists[lev] && x !in run
  {
    forall l, x | lev < l < 21 && x in v.lists[l]
      ensures x !in v.lists[lev] && x !in run
    {
      CutsDescend(cmp, pos, v, k, lev + 1, l);
      assert Stretch(cmp, pos, v.lists[l], v.cut[l + 1], v.cut[l]);
      assert Stretch(cmp, pos, v.lists[lev], v.cut[lev + 1], v.cut[lev]);
    }
  }

  /** Opens the ring at its end. */
  method OpenRing(head: ListHead, ghost s: seq<ListHead>) returns (list: ListHead?)
    requires Ring(head, s) && s != []
    modifies s`next
    ensures Chain(s, list)
  {
    assert head.prev == s[|s| - 1];
    head.prev.next := null;
    list := head.next;
    TrailThenChain(Trail(head, s), []);
    assert s + [] == s;
  }

  lemma {:induction false} DistinctCount(s: seq<ListHead>)
    requires Distinct(s)
    ensures |Nodes(s)| == |s|
  {
    if s != [] {
      DistinctCount(s[1..]);
      assert Nodes(s) == {s[0]} + Nodes(s[1..]);
    }
  }

  /** The stretch of the whole list is its stable sort. */
  lemma WholeStretch(cmp: Cmp, orig: seq<ListHead>, s: seq<ListHead>)
    requires Distinct(orig) && Stretch(cmp, Positions(orig), s, 0, |orig|)
    ensures StableSortOf(cmp, orig, s)
  {
    SortedIsDistinct(cmp, Positions(orig), s);
    DistinctCount(s);
    DistinctCount(orig);
    assert Nodes(s) <= Nodes(orig);
    assert |Nodes(orig) - Nodes(s)| == |Nodes(orig)| - |Nodes(s)|;
  }

  /** Cuts the next node off the input; the lists already built are not touched. */
  method Detach(cur: ListHead, list: ListHead?, part: array<ListHead?>, ghost rest: seq<ListHead>,
                ghost lists: seq<seq<ListHead>>)
    requires part.Length == 21 == |lists| && cur !in rest && Chain(rest, list)
    requires forall l :: 0 <= l < 21 ==> cur !in lists[l]
    requires forall l :: 0 <= l < 21 ==> Chain(lists[l], part[l])
    modifies cur`next
    ensures cur.next == null && Chain(rest, list)
    ensures forall l :: 0 <= l < 21 ==> Chain(lists[l], part[l])
  {
    cur.next := null;
  }

  lemma NotYetHeld(cmp: Cmp, pos: map<ListHead, nat>, v: Levels, k: nat, cur: ListHead)
    requires LevelsOk(cmp, pos, v, k) && cur in pos && pos[cur] == k
    ensures forall l :: 0 <= l < 21 ==> cur !in v.lists[l]
  {
    forall l | 0 <= l < 21
      ensures cur !in v.lists[l]
    {
      assert Stretch(cmp, pos, v.lists[l], v.cut[l + 1], v.cut[l]);
      CutsDescend(cmp, pos, v, k, 0, l);
    }
  }

  lemma HeadApart(head: ListHead, orig: seq<ListHead>, a: seq<ListHead>, b: seq<ListHead>)
    requires Distinct(Trail(head, orig)) && Apart([], a, b)
    requires (forall x :: x in a ==> x in orig) && (forall x :: x in b ==> x in orig)
    ensures Apart(Trail(head, []), a, b)
  {
    assert head !in orig by {
      assert forall i :: 0 <= i < |orig| ==> orig[i] == Trail(head, orig)[i + 1];
    }
    assert Trail(head, []) == [head];
  }

  /** Takes the nodes off the input one by one and inserts them. */
  method Distribute(cmp: Cmp, part: array<ListHead?>, list0: ListHead?, ghost orig: seq<ListHead>,
                    ghost pos: map<ListHead, nat>)
    returns (maxLev: nat, ghost v: Levels)
    requires part.Length == 21 && (forall l :: 0 <= l < 21 ==> part[l] == null)
    requires Distinct(orig) && pos == Positions(orig) && Preorder(cmp, pos.Keys) && Chain(orig, list0)
    modifies part, pos.Keys`next
    ensures LevelsOk(cmp, pos, v, |orig|) && TopOk(v, maxLev, |orig|) && Binary(v)
    ensures forall l :: 0 <= l < 21 ==> Chain(v.lists[l], part[l])
  {
    hide Older, Binary, Preorder, Positions, Distinct;
    var list := list0;
    maxLev := 0;
    v := Empty();
    NoNodes(cmp, pos);
    ghost var k: nat, rest := 0, orig;
    while list != null
      invariant k <= |orig| && rest == orig[k..] && Chain(rest, list)
      invariant LevelsOk(cmp, pos, v, k) && TopOk(v, maxLev, k) && Binary(v)
      invariant forall l :: 0 <= l < 21 ==> Chain(v.lists[l], part[l])
      decreases |orig| - k
    {
      var cur := list;
      list := list.next;
      assert cur == orig[k] && rest[1..] == orig[k + 1..];
      rest := rest[1..];
      LaterThan(orig, pos, k);
      NotYetHeld(cmp, pos, v, k, cur);
      Detach(cur, list, part, rest, v.lists);
      maxLev, v := Insert(cmp, part, maxLev, cur, pos, v, k);
      k := k + 1;
    }
  }

  lemma NoNodes(cmp: Cmp, pos: map<ListHead, nat>)
    ensures LevelsOk(cmp, pos, Empty(), 0) && TopOk(Empty(), 0, 0) && Binary(Empty())
  {
  }

  ghost function Empty(): (v: Levels)
    ensures |v.lists| == 21 && |v.cut| == 22
    ensures (forall l :: 0 <= l < 21 ==> v.lists[l] == []) && (forall l :: 0 <= l < 22 ==> v.cut[l] == 0)
  {
    Levels(seq(21, _ => []), seq(22, _ => 0))
  }

  lemma LaterThan(orig: seq<ListHead>, pos: map<ListHead, nat>, k: nat)
    requires Distinct(orig) && pos == Positions(orig) && k < |orig|
    ensures Older(pos, k) <= pos.Keys && forall x :: x in orig[k + 1..] ==> x !in Older(pos, k)
    ensures orig[k] in pos && pos[orig[k]] == k && orig[k] !in orig[k + 1..]
  {
  }

  /** Merges all levels and restores the ring; the top level is never empty here. */
  method Gather(cmp: Cmp, head: ListHead, part: array<ListHead?>, maxLev: nat, ghost orig: seq<ListHead>,
                ghost pos: map<ListHead, nat>, ghost v: Levels)
    returns (ghost s: seq<ListHead>)
    requires part.Length == 21 && orig != []
    requires Distinct(Trail(head, orig)) && Distinct(orig) && pos == Positions(orig) && Preorder(cmp, pos.Keys)
    requires LevelsOk(cmp, pos, v, |orig|) && TopOk(v, maxLev, |orig|)
    requires forall l :: 0 <= l < 21 ==> Chain(v.lists[l], part[l])
    modifies head, pos.Keys
    ensures StableSortOf(cmp, orig, s) && Ring(head, s)
  {
    var list;
    ghost var run;
    list, run := FoldLevels(cmp, part, maxLev, pos, v, |orig|);
    ghost var top, mid := v.lists[maxLev], v.cut[maxLev];
    assert Stretch(cmp, pos, top, v.cut[maxLev + 1], v.cut[maxLev]);
    s := MergeSeq(cmp, top, run);
    StretchesApart(cmp, pos, top, run, 0, mid, |orig|);
    MergeStretches(cmp, pos, top, run, 0, mid, |orig|);
    WholeStretch(cmp, orig, s);
    HeadApart(head, orig, top, run);
    assert part[maxLev] != null;
    MergeAndRestoreBackLinks(cmp, head, part[maxLev], list, top, run);
  }

  lemma RingFacts(head: ListHead, s: seq<ListHead>)
    requires Ring(head, s)
    ensures Distinct(s) && (head.next == head <==> s == [])
  {
    assert s == Trail(head, s)[1..];
    assert s != [] ==> Trail(head, s)[0].next == Trail(head, s)[1];
  }

  method NewParts() returns (part: array<ListHead?>)
    ensures fresh(part) && part.Length == MAX_LIST_LENGTH_BITS + 1 && forall l :: 0 <= l < 21 ==> part[l] == null
  {
    part := new ListHead?[MAX_LIST_LENGTH_BITS + 1](_ => null);
  }

  /** Sorts the ring of `head` whose entries are `orig`. */
  method ListSort(head: ListHead, cmp: Cmp, ghost orig: seq<ListHead>) returns (ghost s: seq<ListHead>)
    requires Ring(head, orig) && Preorder(cmp, Nodes(orig))
    modifies head, orig
    ensures Distinct(orig) && StableSortOf(cmp, orig, s)
    ensures Ring(head, s)
  {
    hide Distinct, Linked, Backlinked;
    RingFacts(head, orig);
    if head.next == head {
      s := orig;
    } else {
      ghost var pos := Positions(orig);
      var part := NewParts();
      var list := OpenRing(head, orig);
      var maxLev;
      ghost var v;
      maxLev, v := Distribute(cmp, part, list, orig, pos);
      s := Gather(cmp, head, part, maxLev, orig, pos, v);
    }
  }
}
