/** Finding files with the same contents (disk-utils/mkfs.cramfs.c: find_identical_file,
    eliminate_doubles): the search walks the tree up to the entry in question, and
    compares contents only where digests agree. */
module CramfsDedup {
  import opened CramfsFormat
  import opened CramfsTree

  /** How a search ends: it found nothing, came to the entry itself, or found another
      entry with the same file. */
  datatype Hit = Miss | Self | Twin(id: nat)

  /** The entries as write_data() meets them. */
  function Preorder(t: Tree): (r: seq<Tree>)
    ensures |r| == Nodes(t) && forall k :: 0 <= k < |r| ==> r[k].Entry?
  {
    if t.Null? then [] else [t] + Preorder(t.child) + Preorder(t.next)
  }

  /** Same size, same bytes, and both can be read. */
  predicate SameFile(readable: set<nat>, a: Tree, b: Tree)
    requires a.Entry? && b.Entry?
  {
    a.size == b.size && a.file.Some? && a.file == b.file && a.id in readable && b.id in readable
  }

  /** The plain search: the first of a list that is the entry or has the same file. */
  ghost function Scan(list: seq<Tree>, readable: set<nat>, it: Tree): Hit
    requires it.Entry? && forall k :: 0 <= k < |list| ==> list[k].Entry?
  {
    if list == [] then Miss
    else if list[0].id == it.id then Self
    else if SameFile(readable, list[0], it) then Twin(list[0].id)
    else Scan(list[1..], readable, it)
  }

  lemma {:induction false} ScanConcat(a: seq<Tree>, b: seq<Tree>, readable: set<nat>, it: Tree)
    requires it.Entry? && (forall k :: 0 <= k < |a| ==> a[k].Entry?) && (forall k :: 0 <= k < |b| ==> b[k].Entry?)
    ensures Scan(a + b, readable, it)
      == if Scan(a, readable, it).Miss? then Scan(b, readable, it) else Scan(a, readable, it)
  {
    if a == [] {
      assert a + b == b;
    } else {
      assert (a + b)[1..] == a[1..] + b;
      ScanConcat(a[1..], b, readable, it);
    }
  }

  /** find_identical_file(): the recursive search with digests is the plain one. */
  method FindIdenticalFile(orig: Tree, it: Tree, readable: set<nat>, md5: Bytes -> Bytes) returns (hit: Hit)
    requires it.Entry? && it.file.Some?
    ensures hit == Scan(Preorder(orig), readable, it)
    decreases orig
  {
    if orig.Null? {
      return Miss;
    }
    if orig.id == it.id {
      return Self;
    }
    if orig.size == it.size && orig.file.Some? {
      if orig.id in readable && it.id in readable && md5(orig.file.value) == md5(it.file.value) {
        if orig.file.value == it.file.value {
          return Twin(orig.id);
        }
      }
    }
    ghost var below := Preorder(orig.child);
    assert Preorder(orig)[1..] == below + Preorder(orig.next);
    ScanConcat(below, Preorder(orig.next), readable, it);
    hit := FindIdenticalFile(orig.child, it, readable, md5);
    if hit.Miss? {
      hit := FindIdenticalFile(orig.next, it, readable, md5);
    }
  }

  /** What eliminate_doubles() looks for: non-empty files. */
  predicate Wanted(e: Tree) {
    e.Entry? && e.file.Some? && e.size > 0
  }

  /** The mark that an entry gets. */
  ghost predicate MarkedAs(same: map<nat, nat>, readable: set<nat>, root: Tree, e: Tree)
    requires e.Entry?
  {
    var hit := if Wanted(e) then Scan(Preorder(root), readable, e) else Miss;
    (e.id in same <==> hit.Twin?) && (hit.Twin? ==> same[e.id] == hit.id)
  }

  /** eliminate_doubles() on the entries of `t`, whose numbers begin with `n`. */
  method EliminateDoubles(root: Tree, t: Tree, same: map<nat, nat>, readable: set<nat>, md5: Bytes -> Bytes,
                          ghost n: nat)
    returns (r: map<nat, nat>)
    requires Numbered(t, n) && forall i :: i in same ==> i < n
    ensures forall i :: i in r ==> i < n + Nodes(t)
    ensures forall i :: i < n ==> (i in r <==> i in same) && (i in r ==> r[i] == same[i])
    ensures forall e :: e in Preorder(t) ==> MarkedAs(r, readable, root, e)
    decreases t
  {
    r := same;
    if t.Null? {
      return;
    }
    if t.file.Some? && t.size > 0 {
      var hit := FindIdenticalFile(root, t, readable, md5);
      if hit.Twin? {
        r := r[t.id := hit.id];
      }
    }
    ghost var first := r;
    r := EliminateDoubles(root, t.child, r, readable, md5, n + 1);
    ghost var second := r;
    r := EliminateDoubles(root, t.next, r, readable, md5, n + 1 + Nodes(t.child));
    forall e | e in Preorder(t)
      ensures MarkedAs(r, readable, root, e)
    {
      NumbersOf(t.child, n + 1);
      assert MarkedAs(first, readable, root, t);
      if e in Preorder(t.child) {
        assert MarkedAs(second, readable, root, e);
      }
    }
  }

  /** Numbers are positions in the order of write_data(). */
  lemma {:induction false} NumbersOf(t: Tree, n: nat)
    requires Numbered(t, n)
    ensures forall k :: 0 <= k < Nodes(t) ==> Preorder(t)[k].id == n + k
    ensures forall e :: e in Preorder(t) ==> n <= e.id < n + Nodes(t)
  {
    if t.Entry? {
      NumbersOf(t.child, n + 1);
      NumbersOf(t.next, n + 1 + Nodes(t.child));
    }
  }

  ghost predicate Entries(list: seq<Tree>, n: nat) {
    forall k :: 0 <= k < |list| ==> list[k].Entry? && list[k].id == n + k
  }

  ghost predicate EarlierTwin(list: seq<Tree>, readable: set<nat>, j: nat, k: nat)
    requires j < |list| && forall k :: 0 <= k < |list| ==> list[k].Entry?
  {
    k < j && SameFile(readable, list[k], list[j])
  }

  ghost predicate FirstTwin(list: seq<Tree>, readable: set<nat>, j: nat, k: nat)
    requires j < |list| && forall k :: 0 <= k < |list| ==> list[k].Entry?
  {
    EarlierTwin(list, readable, j, k) && forall i :: 0 <= i < k ==> !EarlierTwin(list, readable, j, i)
  }

  /** The search for entry number `j` of a list stops at the first earlier entry with
      the same file, and without one at the entry itself. */
  lemma {:induction false} ScanStops(list: seq<Tree>, readable: set<nat>, n: nat, j: nat)
    requires j < |list| && Entries(list, n)
    ensures var hit := Scan(list, readable, list[j]);
      && !hit.Miss?
      && (hit.Self? ==> forall k :: 0 <= k < |list| ==> !EarlierTwin(list, readable, j, k))
      && (hit.Twin? ==> n <= hit.id && FirstTwin(list, readable, j, hit.id - n))
    decreases |list|
  {
    if j > 0 && !SameFile(readable, list[0], list[j]) {
      var rest := list[1..];
      ScanStops(rest, readable, n + 1, j - 1);
      forall k | 0 <= k < |list| && EarlierTwin(list, readable, j, k)
        ensures k > 0 && EarlierTwin(rest, readable, j - 1, k - 1)
      {
      }
    }
  }

  /** Deduplication is sound and complete: an entry is marked exactly when it has a
      non-empty file that an earlier entry has too, and then with the first such. */
  lemma MarksAreTwins(same: map<nat, nat>, readable: set<nat>, root: Tree, n: nat, list: seq<Tree>, j: nat)
    requires Numbered(root, n) && list == Preorder(root) && j < |list| && MarkedAs(same, readable, root, list[j])
    ensures Entries(list, n)
    ensures n + j in same <==> Wanted(list[j]) && exists k :: 0 <= k < |list| && EarlierTwin(list, readable, j, k)
    ensures n + j in same ==> n <= same[n + j] && FirstTwin(list, readable, j, same[n + j] - n)
  {
    PreorderEntries(root, n, list);
    HitTells(list, readable, n, j);
    var hit := Scan(list, readable, list[j]);
    assert list[j].id == n + j;
    assert Wanted(list[j]) ==> (n + j in same <==> hit.Twin?) && (hit.Twin? ==> same[n + j] == hit.id);
  }

  lemma PreorderEntries(t: Tree, n: nat, list: seq<Tree>)
    requires Numbered(t, n) && list == Preorder(t)
    ensures Entries(list, n)
  {
    NumbersOf(t, n);
  }

  lemma HitTells(list: seq<Tree>, readable: set<nat>, n: nat, j: nat)
    requires j < |list| && Entries(list, n)
    ensures var hit := Scan(list, readable, list[j]);
      && (hit.Twin? <==> exists k :: 0 <= k < |list| && EarlierTwin(list, readable, j, k))
      && (hit.Twin? ==> n <= hit.id && FirstTwin(list, readable, j, hit.id - n))
  {
    ScanStops(list, readable, n, j);
    var hit := Scan(list, readable, list[j]);
    if hit.Twin? {
      assert EarlierTwin(list, readable, j, hit.id - n);
    }
  }

  /** The two writers see the same entries. */
  lemma {:induction false} SameEntries(t: Tree, e: Tree)
    ensures e in Siblings(t) || e in Subs(t) <==> e in Preorder(t)
    decreases t
  {
    if t.Entry? {
      SameEntries(t.child, e);
      SameEntries(t.next, e);
      assert Subs(t) == Subdir(t) + Subs(t.next);
    }
  }
}
