/** The tree of entries that mkfs.cramfs puts into an image, the order in which its
    directory writer emits them, and the places they get
    (disk-utils/mkfs.cramfs.c: struct entry, write_directory_structure). */
module CramfsTree {
  import opened Common
  import opened CramfsFormat

  /** A pointer to an entry: its first child and its next sibling are such pointers
      too. `id` stands for the identity of the entry, and `file` for the bytes that
      its path leads to, if it has one. */
  datatype Tree =
    | Null
    | Entry(id: nat, name: Bytes, mode: u16, uid: nat, gid: nat, size: nat, file: Option<Bytes>, child: Tree,
            next: Tree)

  function Pad4(n: nat): (r: nat)
    ensures n <= r < n + 4 && r % 4 == 0
  {
    (n + 3) / 4 * 4
  }

  function EntrySize(e: Tree): (r: nat)
    requires e.Entry?
    ensures r >= INODE_SIZE
  {
    INODE_SIZE + Pad4(|e.name|)
  }

  /** Bytes of a list of siblings. */
  function ListSize(t: Tree): nat {
    if t.Null? then 0 else EntrySize(t) + ListSize(t.next)
  }

  /** Bytes of everything below an entry. */
  function Below(t: Tree): nat
    requires t.Entry?
    decreases t, 0
  {
    if t.child.Null? then 0 else ListSize(t.child) + SubSize(t.child)
  }

  /** Bytes of everything below a list of siblings. */
  function SubSize(t: Tree): nat
    decreases t, 1
  {
    if t.Null? then 0 else Below(t) + SubSize(t.next)
  }

  // ---------- The order of the directory writer ----------

  function Siblings(t: Tree): seq<Tree> {
    if t.Null? then [] else [t] + Siblings(t.next)
  }

  /** A directory comes out as all its entries, then its subdirectories one by one. */
  function Order(t: Tree): seq<Tree>
    decreases t, 2
  {
    Siblings(t) + Subs(t)
  }

  function Subs(t: Tree): seq<Tree>
    decreases t, 1
  {
    if t.Null? then [] else Subdir(t) + Subs(t.next)
  }

  function Subdir(t: Tree): seq<Tree>
    requires t.Entry?
    decreases t, 0
  {
    if t.child.Null? then [] else Order(t.child)
  }

  /** The non-empty subdirectories of a list. */
  function Dirs(t: Tree): (r: seq<Tree>)
    ensures forall k :: 0 <= k < |r| ==> r[k].Entry? && r[k].child.Entry?
  {
    if t.Null? then [] else if t.child.Null? then Dirs(t.next) else [t] + Dirs(t.next)
  }

  /** A stack after each subdirectory of a list was put on top in turn. */
  ghost function PushEach(stack: seq<Tree>, t: Tree): seq<Tree>
    decreases t, |stack|
  {
    if t.Null? then stack else PushEach(if t.child.Null? then stack else stack + [t], t.next)
  }

  lemma {:induction false} PushEachIs(stack: seq<Tree>, t: Tree)
    ensures PushEach(stack, t) == stack + Dirs(t)
    decreases t
  {
    if t.Entry? {
      PushEachIs(if t.child.Null? then stack else stack + [t], t.next);
    }
  }

  function Length(t: Tree): nat {
    if t.Null? then 0 else 1 + Length(t.next)
  }

  /** A list of siblings stands in a run, from `n` on. */
  ghost predicate SiblingsAt(run: seq<Tree>, n: nat, t: Tree)
    decreases t, n
  {
    t.Entry? ==> n < |run| && run[n] == t && SiblingsAt(run, n + 1, t.next)
  }

  /** Number of entries below an entry, and below a list. */
  function CountBelow(t: Tree): nat
    requires t.Entry?
    decreases t, 0
  {
    if t.child.Null? then 0 else Length(t.child) + SubCount(t.child)
  }

  function SubCount(t: Tree): nat
    decreases t, 1
  {
    if t.Null? then 0 else CountBelow(t) + SubCount(t.next)
  }

  /** The subdirectories of a list stand in a run from `n` on, each as all its entries
      and then its own subdirectories. */
  ghost predicate SubsAt(run: seq<Tree>, n: nat, t: Tree)
    decreases t, 1, n
  {
    t.Entry? ==> BelowAt(run, n, t) && SubsAt(run, n + CountBelow(t), t.next)
  }

  ghost predicate BelowAt(run: seq<Tree>, n: nat, t: Tree)
    requires t.Entry?
    decreases t, 0, n
  {
    t.child.Entry? ==> SiblingsAt(run, n, t.child) && SubsAt(run, n + Length(t.child), t.child)
  }

  /** Every entry on the stack is a directory with something in it. */
  ghost predicate Stacked(stack: seq<Tree>) {
    forall k :: 0 <= k < |stack| ==> stack[k].Entry? && stack[k].child.Entry?
  }

  /** The directories on a stack, its top being last, are all that is left of a run. */
  ghost predicate StackAt(run: seq<Tree>, n: nat, stack: seq<Tree>)
    requires Stacked(stack)
    decreases |stack|
  {
    if stack == [] then n == |run|
    else
      var e := stack[|stack| - 1];
      BelowAt(run, n, e) && StackAt(run, n + CountBelow(e), stack[..|stack| - 1])
  }

  ghost function Reverse<T>(s: seq<T>): (r: seq<T>)
    ensures |r| == |s|
  {
    if s == [] then [] else Reverse(s[1..]) + [s[0]]
  }

  lemma {:induction false} ReverseAt<T>(s: seq<T>, k: nat)
    requires k < |s|
    ensures Reverse(s)[k] == s[|s| - 1 - k]
  {
    if k < |s| - 1 {
      ReverseAt(s[1..], k);
    } else if |s| > 1 {
      ReverseAt(s[1..], 0);
    }
  }

  /** A stack with the subdirectories of a list on top, the first one topmost. */
  ghost function Push(stack: seq<Tree>, t: Tree): (r: seq<Tree>)
    requires Stacked(stack)
    ensures Stacked(r)
  {
    if t.Null? then stack else if t.child.Null? then Push(stack, t.next) else Push(stack, t.next) + [t]
  }

  /** This is what reversing them gives. */
  lemma {:induction false} PushIsReverse(stack: seq<Tree>, t: Tree)
    requires Stacked(stack)
    ensures Push(stack, t) == stack + Reverse(Dirs(t))
  {
    if t.Entry? {
      PushIsReverse(stack, t.next);
      if t.child.Entry? {
        assert Dirs(t)[1..] == Dirs(t.next);
      }
    }
  }

  /** Pushed on a stack, the subdirectories of a list come before the rest of it. */
  lemma {:induction false} StackDirs(run: seq<Tree>, n: nat, stack: seq<Tree>, t: Tree)
    requires Stacked(stack) && SubsAt(run, n, t) && StackAt(run, n + SubCount(t), stack)
    ensures StackAt(run, n, Push(stack, t))
    decreases t
  {
    if t.Entry? {
      StackDirs(run, n + CountBelow(t), stack, t.next);
      if t.child.Entry? {
        StackPush(run, n, Push(stack, t.next), t);
      }
    }
  }

  lemma StackPush(run: seq<Tree>, n: nat, stack: seq<Tree>, e: Tree)
    requires Stacked(stack) && e.Entry? && e.child.Entry?
    requires BelowAt(run, n, e) && StackAt(run, n + CountBelow(e), stack)
    ensures Stacked(stack + [e]) && StackAt(run, n, stack + [e])
  {
    assert (stack + [e])[..|stack|] == stack;
  }

  // ---------- Where the contents of each directory begin ----------

  /** The offsets of directory contents, assigned by plain recursion: the contents of
      the subdirectories of `t` fill the bytes from `sub` on. */
  ghost function Assign(t: Tree, sub: nat, off: map<nat, nat>): map<nat, nat>
    decreases t, 1, sub
  {
    if t.Null? then off
    else Assign(t.next, sub + Below(t), AssignEntry(t, sub, off))
  }

  ghost function AssignEntry(e: Tree, sub: nat, off: map<nat, nat>): map<nat, nat>
    requires e.Entry?
    decreases e, 0, sub
  {
    if e.child.Null? then off else Assign(e.child, sub + ListSize(e.child), off[e.id := sub])
  }

  /** The same for the directories on a stack, the top one beginning at `at`. */
  ghost function AssignStack(stack: seq<Tree>, at: nat, off: map<nat, nat>): map<nat, nat>
    requires Stacked(stack)
  {
    if stack == [] then off
    else
      var e := stack[|stack| - 1];
      AssignStack(stack[..|stack| - 1], at + Below(e), AssignEntry(e, at, off))
  }

  /** The same when the list `t` is to be written at `at`, before the stack is. */
  ghost function AssignAll(t: Tree, stack: seq<Tree>, at: nat, off: map<nat, nat>): map<nat, nat>
    requires Stacked(stack)
  {
    AssignStack(stack, at + ListSize(t) + SubSize(t), Assign(t, at + ListSize(t), off))
  }

  lemma AssignPush(stack: seq<Tree>, e: Tree, at: nat, off: map<nat, nat>)
    requires Stacked(stack) && e.Entry? && e.child.Entry?
    ensures Stacked(stack + [e])
    ensures AssignStack(stack + [e], at, off) == AssignStack(stack, at + Below(e), AssignEntry(e, at, off))
  {
    assert (stack + [e])[..|stack|] == stack;
  }

  lemma {:induction false} AssignDirs(stack: seq<Tree>, t: Tree, at: nat, off: map<nat, nat>)
    requires Stacked(stack)
    ensures AssignStack(Push(stack, t), at, off) == AssignStack(stack, at + SubSize(t), Assign(t, at, off))
  {
    if t.Entry? {
      AssignDirs(stack, t.next, at + Below(t), AssignEntry(t, at, off));
      if t.child.Entry? {
        AssignPush(Push(stack, t.next), t, at, off);
      }
    }
  }

  // ---------- The order as a run ----------

  lemma {:induction false} OrderCounts(t: Tree)
    ensures |Siblings(t)| == Length(t) && |Subs(t)| == SubCount(t)
  {
    if t.Entry? {
      OrderCounts(t.next);
      if t.child.Entry? {
        OrderCounts(t.child);
      }
      assert Subs(t) == Subdir(t) + Subs(t.next);
    }
  }

  lemma {:induction false} SiblingsStand(run: seq<Tree>, pre: seq<Tree>, t: Tree, post: seq<Tree>)
    requires run == pre + Siblings(t) + post
    ensures SiblingsAt(run, |pre|, t)
    decreases t
  {
    if t.Entry? {
      assert run == (pre + [t]) + Siblings(t.next) + post;
      SiblingsStand(run, pre + [t], t.next, post);
    }
  }

  lemma {:induction false} SubsStand(run: seq<Tree>, pre: seq<Tree>, t: Tree, post: seq<Tree>)
    requires run == pre + Subs(t) + post
    ensures SubsAt(run, |pre|, t)
    decreases t
  {
    if t.Entry? {
      OrderCounts(t);
      assert Subs(t) == Subdir(t) + Subs(t.next);
      if t.child.Entry? {
        OrderCounts(t.child);
        assert Subs(t) == Siblings(t.child) + Subs(t.child) + Subs(t.next);
        assert run == pre + Siblings(t.child) + (Subs(t.child) + Subs(t.next) + post);
        SiblingsStand(run, pre, t.child, Subs(t.child) + Subs(t.next) + post);
        assert run == (pre + Siblings(t.child)) + Subs(t.child) + (Subs(t.next) + post);
        SubsStand(run, pre + Siblings(t.child), t.child, Subs(t.next) + post);
      }
      assert run == (pre + Subdir(t)) + Subs(t.next) + post;
      SubsStand(run, pre + Subdir(t), t.next, post);
    }
  }

  /** A list stands in its own order, entries first. */
  lemma OrderStands(t: Tree)
    ensures SiblingsAt(Order(t), 0, t) && SubsAt(Order(t), Length(t), t) && |Order(t)| == Length(t) + SubCount(t)
  {
    OrderCounts(t);
    assert Order(t) == [] + Siblings(t) + Subs(t);
    SiblingsStand(Order(t), [], t, Subs(t));
    assert Order(t) == Siblings(t) + Subs(t) + [];
    SubsStand(Order(t), Siblings(t), t, []);
  }

  // ---------- The order of the data writer ----------

  function Nodes(t: Tree): nat {
    if t.Null? then 0 else 1 + Nodes(t.child) + Nodes(t.next)
  }

  /** Entries are numbered as the data writer meets them: an entry, all below it, and
      then its next sibling. */
  ghost predicate Numbered(t: Tree, n: nat) {
    t.Entry? ==> t.id == n && Numbered(t.child, n + 1) && Numbered(t.next, n + 1 + Nodes(t.child))
  }

  /** A non-empty file that mkfs cannot read. */
  predicate Skipped(e: Tree, readable: set<nat>) {
    e.Entry? && e.file.Some? && e.size > 0 && e.id !in readable
  }

  predicate Skips(t: Tree, readable: set<nat>) {
    t.Entry? && (Skipped(t, readable) || Skips(t.child, readable) || Skips(t.next, readable))
  }
}
