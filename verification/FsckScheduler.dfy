/** The parallel file system check of `fsck -A` (disk-utils/fsck.c).

    The state of the scheduler is the list of running checkers and the done flags;
    which child exits next, with what status, and whether a checker can be spawned
    is decided by an environment that is arbitrary. Every step is recorded in a
    history, and the promises are made about all points of all histories.
  */
module FsckScheduler {
  import opened Common

  /** One fstab line. `disk` is the whole disk's device number, 0 when it cannot be
      determined; `ignored` is the verdict of the initial scan. */
  datatype Fs = Fs(ignored: bool, passno: int, isRoot: bool, mounted: bool, disk: nat, slaves: bool, fstype: string)

  datatype Options = Options(skipRoot: bool, ignoreMounted: bool, parallelRoot: bool, serialize: bool,
                             forceAllParallel: bool, noexecute: bool, progress: bool, maxRunning: int)

  /** A running checker: the fstab line it works on and whether it shows progress. */
  datatype Instance = Instance(fs: nat, token: bool)

  /** How an attempt to start a checker ends: no such program (which is an error
      for some types), a failed fork, or a new child. */
  datatype Spawn = Absent | Missing | ForkFailed | Started

  datatype Exit = Exited(code: Bits) | Signaled(sig: nat) | Strange

  /** The environment: its answers at time `t`. */
  datatype Env = Env(spawn: nat -> Spawn, child: nat -> nat, exit: nat -> Exit, ready: nat -> bool)

  datatype Event =
    | Attempt(fs: nat, result: Spawn, token: bool)
    | Reaped(at: nat, fs: nat, status: Bits, heir: Option<nat>)

  type Trace = seq<Event>

  /** An exit code as the set of its bit numbers; or-ing codes is union. */
  type Bits = set<nat>

  const EX_OK: Bits := {}
  const EX_NONDESTRUCT: Bits := {0}
  const EX_UNCORRECTED: Bits := {2}
  const EX_ERROR: Bits := {3}
  const SIGINT := 2

  function ExitStatus(e: Exit): Bits {
    match e
    case Exited(code) => code
    case Signaled(sig) => if sig == SIGINT then EX_UNCORRECTED else EX_ERROR
    case Strange => EX_ERROR
  }

  /** The code is greater than EX_NONDESTRUCT: a bit above the lowest is set. */
  predicate AboveNondestruct(code: Bits) {
    code - EX_NONDESTRUCT != {}
  }

  predicate ExtType(fstype: string) {
    fstype == "ext2" || fstype == "ext3" || fstype == "ext4" || fstype == "ext4dev"
  }

  predicate Stacked(f: Fs) {
    f.disk != 0 && f.slaves
  }

  // ---------- What a history means ----------

  ghost function Without(list: seq<Instance>, at: nat): seq<Instance>
    requires at < |list|
  {
    list[..at] + list[at + 1..]
  }

  ghost function Apply(list: seq<Instance>, e: Event): seq<Instance> {
    match e
    case Attempt(i, result, token) => if result == Started then list + [Instance(i, token)] else list
    case Reaped(at, i, status, heir) =>
      if at >= |list| then list
      else
        var rest := Without(list, at);
        if heir.Some? && heir.value < |rest| then rest[heir.value := Instance(rest[heir.value].fs, true)] else rest
  }

  /** The checkers running after a history. */
  ghost function Replay(trace: Trace): seq<Instance> {
    if trace == [] then [] else Apply(Replay(trace[..|trace| - 1]), trace[|trace| - 1])
  }

  ghost function Attempts(trace: Trace, i: nat): nat {
    if trace == [] then 0
    else
      var last := trace[|trace| - 1];
      Attempts(trace[..|trace| - 1], i) + (if last.Attempt? && last.fs == i then 1 else 0)
  }

  function Verdict(e: Event): Bits {
    match e
    case Attempt(i, result, token) => if result == Missing || result == ForkFailed then EX_ERROR else EX_OK
    case Reaped(at, i, status, heir) => status
  }

  /** The bitwise or of everything the history reported. */
  ghost function OrAll(trace: Trace): Bits {
    if trace == [] then EX_OK else OrAll(trace[..|trace| - 1]) + Verdict(trace[|trace| - 1])
  }

  // ---------- What must hold at every point of a history ----------

  ghost predicate InTable(fstab: seq<Fs>, list: seq<Instance>) {
    forall k :: 0 <= k < |list| ==> list[k].fs < |fstab|
  }

  /** Two or more checkers only ever run on known, unstacked, different disks. */
  ghost predicate Exclusive(fstab: seq<Fs>, list: seq<Instance>)
    requires InTable(fstab, list)
  {
    |list| >= 2 ==>
      && (forall k :: 0 <= k < |list| ==> fstab[list[k].fs].disk != 0 && !Stacked(fstab[list[k].fs]))
      && (forall k, l :: 0 <= k < l < |list| ==> fstab[list[k].fs].disk != fstab[list[l].fs].disk)
  }

  ghost predicate Limited(opt: Options, list: seq<Instance>) {
    && (opt.maxRunning > 0 ==> |list| <= opt.maxRunning)
    && (opt.serialize || opt.maxRunning < 0 ==> |list| <= 1)
  }

  /** Only ext checkers hold the progress token, at most one does, and one does
      whenever an ext checker is running. */
  ghost predicate TokenOk(fstab: seq<Fs>, list: seq<Instance>)
    requires InTable(fstab, list)
  {
    && (forall k :: 0 <= k < |list| && list[k].token ==> ExtType(fstab[list[k].fs].fstype))
    && (forall k, l :: 0 <= k < l < |list| ==> !(list[k].token && list[l].token))
    && (forall k :: 0 <= k < |list| && ExtType(fstab[list[k].fs].fstype) ==>
          exists l :: 0 <= l < |list| && list[l].token)
  }

  ghost predicate Good(fstab: seq<Fs>, opt: Options, list: seq<Instance>) {
    && InTable(fstab, list)
    && (!opt.forceAllParallel ==> Exclusive(fstab, list))
    && Limited(opt, list)
    && (opt.progress && !opt.noexecute ==> TokenOk(fstab, list))
  }

  /** Every point of the history is good. */
  ghost predicate AlwaysGood(fstab: seq<Fs>, opt: Options, trace: Trace) {
    && Good(fstab, opt, Replay(trace))
    && (trace != [] ==> AlwaysGood(fstab, opt, trace[..|trace| - 1]))
  }

  lemma {:induction false} GoodAtEveryPoint(fstab: seq<Fs>, opt: Options, trace: Trace, n: nat)
    requires AlwaysGood(fstab, opt, trace) && n <= |trace|
    ensures Good(fstab, opt, Replay(trace[..n]))
    decreases |trace|
  {
    if n == |trace| {
      assert trace[..n] == trace;
    } else {
      GoodAtEveryPoint(fstab, opt, trace[..|trace| - 1], n);
      assert trace[..|trace| - 1][..n] == trace[..n];
    }
  }

  lemma RunningInTable(fstab: seq<Fs>, opt: Options, trace: Trace)
    requires AlwaysGood(fstab, opt, trace)
    ensures InTable(fstab, Replay(trace))
  {
  }

  /** What one more event does to the readings of a history. */
  lemma Snoc(trace: Trace, e: Event)
    ensures Replay(trace + [e]) == Apply(Replay(trace), e)
    ensures OrAll(trace + [e]) == OrAll(trace) + Verdict(e)
    ensures forall i: nat :: Attempts(trace + [e], i) == Attempts(trace, i) + (if e.Attempt? && e.fs == i then 1 else 0)
  {
    assert (trace + [e])[..|trace|] == trace;
  }

  lemma SnocGood(fstab: seq<Fs>, opt: Options, trace: Trace, e: Event)
    requires AlwaysGood(fstab, opt, trace) && Good(fstab, opt, Apply(Replay(trace), e))
    ensures AlwaysGood(fstab, opt, trace + [e])
  {
    Snoc(trace, e);
    assert (trace + [e])[..|trace|] == trace;
  }

  // ---------- The history and the environment ----------

  /** What happened at time `t`, when `list` was running: how the attempt to start ended,
      or which child was reaped and with what status. A dry run forks nothing and reaps
      the first child with status 0. */
  ghost predicate ToldBy(env: Env, opt: Options, list: seq<Instance>, e: Event, t: nat) {
    match e
    case Attempt(i, result, token) =>
      result == if opt.noexecute && env.spawn(t) == ForkFailed then Started else env.spawn(t)
    case Reaped(at, i, status, heir) =>
      && at < |list| && i == list[at].fs
      && if opt.noexecute then at == 0 && status == {}
         else
           && at == env.child(t) % |list|
           && match env.exit(t)
              case Exited(code) => status == code
              case Signaled(sig) => status == if sig == 2 then {2} else {3}
              case Strange => status == {3}
  }

  /** Every event of the history is what the environment said at its time, and the
      times increase. */
  ghost predicate Told(env: Env, opt: Options, trace: Trace, times: seq<nat>, clock: nat) {
    && |times| == |trace|
    && (trace != [] ==>
          var n := |trace| - 1;
          && times[n] < clock && ToldBy(env, opt, Replay(trace[..n]), trace[n], times[n])
          && Told(env, opt, trace[..n], times[..n], times[n]))
  }

  lemma ToldSnoc(env: Env, opt: Options, trace: Trace, times: seq<nat>, clock: nat, e: Event, t: nat)
    requires Told(env, opt, trace, times, clock) && clock <= t && ToldBy(env, opt, Replay(trace), e, t)
    ensures Told(env, opt, trace + [e], times + [t], t + 1)
  {
    assert (trace + [e])[..|trace|] == trace && (times + [t])[..|times|] == times;
    ToldLater(env, opt, trace, times, clock, t);
  }

  lemma ToldLater(env: Env, opt: Options, trace: Trace, times: seq<nat>, clock: nat, t: nat)
    requires Told(env, opt, trace, times, clock) && clock <= t
    ensures Told(env, opt, trace, times, t)
  {
  }

  /** At every point: the event is what the environment said, at a time of its own. */
  lemma {:induction false} ToldAtEveryPoint(env: Env, opt: Options, trace: Trace, times: seq<nat>, clock: nat, n: nat)
    requires Told(env, opt, trace, times, clock) && n < |trace|
    ensures |times| == |trace| && times[n] < clock && ToldBy(env, opt, Replay(trace[..n]), trace[n], times[n])
    ensures n > 0 ==> times[n - 1] < times[n]
    decreases |trace|
  {
    var last := |trace| - 1;
    if n < last {
      ToldAtEveryPoint(env, opt, trace[..last], times[..last], times[last], n);
      assert trace[..last][..n] == trace[..n];
    } else if n > 0 {
      ToldAtEveryPoint(env, opt, trace[..last], times[..last], times[last], n - 1);
    }
  }

  // ---------- Passes ----------

  /** The pass in which a line is checked: pass numbers below 1 count as 1. */
  function Pass(f: Fs): int {
    if f.passno < 1 then 1 else f.passno
  }

  predicate Eligible(f: Fs, opt: Options) {
    !f.ignored && !(opt.ignoreMounted && f.mounted) && !(opt.skipRoot && f.isRoot)
  }

  ghost predicate RunningIn(list: seq<Instance>, i: nat) {
    exists k :: 0 <= k < |list| && list[k].fs == i
  }

  /** Everything of a lower pass has been attempted and has finished. */
  ghost predicate LowerPassesOver(fstab: seq<Fs>, opt: Options, trace: Trace, p: int) {
    forall j :: 0 <= j < |fstab| && Eligible(fstab[j], opt) && Pass(fstab[j]) < p ==>
      Attempts(trace, j) == 1 && !RunningIn(Replay(trace), j)
  }

  /** From event `from` on, a checker is only started when the lower passes are over. */
  ghost predicate PassOrdered(fstab: seq<Fs>, opt: Options, trace: Trace, from: nat) {
    |trace| > from ==>
      var before, e := trace[..|trace| - 1], trace[|trace| - 1];
      && PassOrdered(fstab, opt, before, from)
      && (e.Attempt? ==> e.fs < |fstab| && LowerPassesOver(fstab, opt, before, Pass(fstab[e.fs])))
  }

  lemma {:induction false} PassOrderAtEveryStart(fstab: seq<Fs>, opt: Options, trace: Trace, from: nat, n: nat)
    requires PassOrdered(fstab, opt, trace, from) && from <= n < |trace| && trace[n].Attempt?
    ensures trace[n].fs < |fstab| && LowerPassesOver(fstab, opt, trace[..n], Pass(fstab[trace[n].fs]))
    decreases |trace|
  {
    if n < |trace| - 1 {
      PassOrderAtEveryStart(fstab, opt, trace[..|trace| - 1], from, n);
      assert trace[..|trace| - 1][..n] == trace[..n];
    }
  }

  // ---------- Starting and reaping keep a list good ----------

  /** The reason to defer a start: any stacked checker is running, the candidate is
      stacked or unknown and anything is running, or its disk may be in use. */
  ghost predicate Conflict(fstab: seq<Fs>, list: seq<Instance>, i: nat)
    requires InTable(fstab, list) && i < |fstab|
  {
    && list != []
    && (|| (exists k :: 0 <= k < |list| && Stacked(fstab[list[k].fs]))
        || fstab[i].disk == 0 || Stacked(fstab[i])
        || (exists k :: 0 <= k < |list| && (fstab[list[k].fs].disk == 0 || fstab[list[k].fs].disk == fstab[i].disk)))
  }

  /** In a list that is exclusive, looking at its head alone tells whether any
      checker of a stacked device is running. */
  lemma HeadTellsStacked(fstab: seq<Fs>, list: seq<Instance>)
    requires InTable(fstab, list) && Exclusive(fstab, list)
    ensures (exists k :: 0 <= k < |list| && Stacked(fstab[list[k].fs])) <==> list != [] && Stacked(fstab[list[0].fs])
  {
  }

  ghost predicate HasToken(list: seq<Instance>) {
    exists k :: 0 <= k < |list| && list[k].token
  }

  ghost predicate Room(opt: Options, list: seq<Instance>) {
    && (opt.maxRunning > 0 ==> |list| < opt.maxRunning)
    && (opt.serialize || opt.maxRunning < 0 ==> list == [])
  }

  lemma StartKeepsGood(fstab: seq<Fs>, opt: Options, list: seq<Instance>, i: nat, token: bool)
    requires Good(fstab, opt, list) && i < |fstab| && Room(opt, list)
    requires !opt.forceAllParallel ==> !Conflict(fstab, list, i)
    requires token == (opt.progress && ExtType(fstab[i].fstype) && !HasToken(list))
    ensures Good(fstab, opt, list + [Instance(i, token)])
  {
    var after := list + [Instance(i, token)];
    assert after[|list|] == Instance(i, token);
    assert forall k :: 0 <= k < |list| ==> after[k] == list[k];
    if opt.progress && !opt.noexecute {
      assert token ==> after[|list|].token;
      assert HasToken(list) ==> exists l :: 0 <= l < |after| && after[l].token;
    }
  }

  /** The first ext checker of a list, if any. */
  function FirstExt(fstab: seq<Fs>, list: seq<Instance>, k: nat): (r: Option<nat>)
    requires InTable(fstab, list) && k <= |list|
    ensures match r
      case Some(h) => k <= h < |list| && ExtType(fstab[list[h].fs].fstype)
      case None => forall l :: k <= l < |list| ==> !ExtType(fstab[list[l].fs].fstype)
    decreases |list| - k
  {
    if k == |list| then None
    else if ExtType(fstab[list[k].fs].fstype) then Some(k)
    else FirstExt(fstab, list, k + 1)
  }

  ghost predicate HeirOk(fstab: seq<Fs>, opt: Options, list: seq<Instance>, at: nat, heir: Option<nat>)
    requires InTable(fstab, list) && at < |list|
  {
    var rest := Without(list, at);
    && InTable(fstab, rest)
    && heir == if opt.progress && !opt.noexecute && list[at].token && !HasToken(rest)
               then FirstExt(fstab, rest, 0) else None
  }

  lemma WithoutIndex(list: seq<Instance>, at: nat)
    requires at < |list|
    ensures |Without(list, at)| == |list| - 1
    ensures forall k :: 0 <= k < |list| - 1 ==> Without(list, at)[k] == list[if k < at then k else k + 1]
  {
  }

  lemma ReapKeepsGood(fstab: seq<Fs>, opt: Options, list: seq<Instance>, at: nat, status: Bits, heir: Option<nat>)
    requires Good(fstab, opt, list) && at < |list| && HeirOk(fstab, opt, list, at, heir)
    ensures Good(fstab, opt, Apply(list, Reaped(at, list[at].fs, status, heir)))
  {
    WithoutIndex(list, at);
    var rest := Without(list, at);
    var after := Apply(list, Reaped(at, list[at].fs, status, heir));
    assert |after| == |rest| && forall k :: 0 <= k < |rest| ==> after[k].fs == rest[k].fs;
    if opt.progress && !opt.noexecute {
      ReapKeepsToken(fstab, opt, list, at, status, heir);
    }
  }

  lemma ReapKeepsToken(fstab: seq<Fs>, opt: Options, list: seq<Instance>, at: nat, status: Bits, heir: Option<nat>)
    requires InTable(fstab, list) && TokenOk(fstab, list) && at < |list| && HeirOk(fstab, opt, list, at, heir)
    requires opt.progress && !opt.noexecute
    ensures var after := Apply(list, Reaped(at, list[at].fs, status, heir));
      InTable(fstab, after) && TokenOk(fstab, after)
  {
    WithoutIndex(list, at);
    var rest := Without(list, at);
    var after := Apply(list, Reaped(at, list[at].fs, status, heir));
    if heir.Some? {
      assert after[heir.value].token;
    } else if list[at].token {
      assert after == rest;
    } else {
      assert after == rest;
      forall k | 0 <= k < |rest| && ExtType(fstab[rest[k].fs].fstype)
        ensures HasToken(rest)
      {
        var l :| 0 <= l < |list| && list[l].token;
        assert rest[if l < at then l else l - 1].token;
      }
    }
  }

  // ---------- Waiting ----------

  /** What a wait leaves as it was: it adds reaped children to the history, whose
      statuses it returns, and starts nothing. */
  ghost predicate Drained(fstab: seq<Fs>, opt: Options, t0: Trace, t1: Trace, status: Bits) {
    && t0 <= t1
    && OrAll(t1) == OrAll(t0) + status
    && (forall i: nat :: Attempts(t1, i) == Attempts(t0, i))
    && (forall i: nat :: RunningIn(Replay(t1), i) ==> RunningIn(Replay(t0), i))
    && (forall from: nat :: from <= |t0| && PassOrdered(fstab, opt, t0, from) ==> PassOrdered(fstab, opt, t1, from))
  }

  lemma ReapedStillRan(list: seq<Instance>, at: nat, i: nat, status: Bits, heir: Option<nat>, j: nat)
    requires RunningIn(Apply(list, Reaped(at, i, status, heir)), j)
    ensures RunningIn(list, j)
  {
    if at < |list| {
      WithoutIndex(list, at);
      var after := Apply(list, Reaped(at, i, status, heir));
      var k :| 0 <= k < |after| && after[k].fs == j;
      assert list[if k < at then k else k + 1].fs == j;
    }
  }

  lemma ReapKeepsPassOrder(fstab: seq<Fs>, opt: Options, t: Trace, e: Event, from: nat)
    requires e.Reaped? && from <= |t| && PassOrdered(fstab, opt, t, from)
    ensures PassOrdered(fstab, opt, t + [e], from)
  {
    assert (t + [e])[..|t|] == t;
  }

  lemma DrainedOne(fstab: seq<Fs>, opt: Options, t: Trace, at: nat, i: nat, status: Bits, heir: Option<nat>)
    ensures Drained(fstab, opt, t, t + [Reaped(at, i, status, heir)], status)
  {
    hide LowerPassesOver, Apply;
    var e := Reaped(at, i, status, heir);
    Snoc(t, e);
    forall j: nat | RunningIn(Replay(t + [e]), j)
      ensures RunningIn(Replay(t), j)
    {
      ReapedStillRan(Replay(t), at, i, status, heir, j);
    }
    forall from: nat | from <= |t| && PassOrdered(fstab, opt, t, from)
      ensures PassOrdered(fstab, opt, t + [e], from)
    {
      ReapKeepsPassOrder(fstab, opt, t, e, from);
    }
  }

  lemma ReapStep(fstab: seq<Fs>, opt: Options, t: Trace, at: nat, status: Bits, heir: Option<nat>)
    requires AlwaysGood(fstab, opt, t) && at < |Replay(t)| && HeirOk(fstab, opt, Replay(t), at, heir)
    ensures var e := Reaped(at, Replay(t)[at].fs, status, heir);
      && AlwaysGood(fstab, opt, t + [e])
      && Replay(t + [e]) == Apply(Replay(t), e)
      && Drained(fstab, opt, t, t + [e], status)
  {
    var e := Reaped(at, Replay(t)[at].fs, status, heir);
    ReapKeepsGood(fstab, opt, Replay(t), at, status, heir);
    Snoc(t, e);
    SnocGood(fstab, opt, t, e);
    DrainedOne(fstab, opt, t, at, Replay(t)[at].fs, status, heir);
  }

  lemma StartStep(fstab: seq<Fs>, opt: Options, t: Trace, i: nat, result: Spawn, token: bool)
    requires AlwaysGood(fstab, opt, t) && i < |fstab| && Room(opt, Replay(t))
    requires !opt.forceAllParallel ==> !Conflict(fstab, Replay(t), i)
    requires result == Started ==> token == (opt.progress && ExtType(fstab[i].fstype) && !HasToken(Replay(t)))
    ensures var e := Attempt(i, result, token);
      AlwaysGood(fstab, opt, t + [e]) && Replay(t + [e]) == Apply(Replay(t), e)
  {
    var e := Attempt(i, result, token);
    if result == Started {
      StartKeepsGood(fstab, opt, Replay(t), i, token);
    }
    Snoc(t, e);
    SnocGood(fstab, opt, t, e);
  }

  lemma DrainedTwice(fstab: seq<Fs>, opt: Options, t0: Trace, t1: Trace, t2: Trace, a: Bits, b: Bits)
    requires Drained(fstab, opt, t0, t1, a) && Drained(fstab, opt, t1, t2, b)
    ensures Drained(fstab, opt, t0, t2, a + b)
  {
  }

  // ---------- Bookkeeping ----------

  ghost function Undone(done: seq<bool>): nat {
    if done == [] then 0 else Undone(done[..|done| - 1]) + (if done[|done| - 1] then 0 else 1)
  }

  lemma {:induction false} UndoneSet(done: seq<bool>, i: nat)
    requires i < |done|
    ensures Undone(done[i := true]) == Undone(done) - (if done[i] then 0 else 1)
  {
    var n := |done| - 1;
    if i == n {
      assert done[i := true][..n] == done[..n];
    } else {
      UndoneSet(done[..n], i);
      assert done[i := true][..n] == done[..n][i := true];
    }
  }

  ghost function MaxPass(fstab: seq<Fs>): (m: int)
    ensures forall i :: 0 <= i < |fstab| ==> Pass(fstab[i]) <= m
  {
    if fstab == [] then 0
    else
      var m := MaxPass(fstab[..|fstab| - 1]);
      assert forall i :: 0 <= i < |fstab| - 1 ==> fstab[i] == fstab[..|fstab| - 1][i];
      if m < Pass(fstab[|fstab| - 1]) then Pass(fstab[|fstab| - 1]) else m
  }

  /** The done flags against the history: an eligible line is done once it has been
      attempted, and nothing else is ever attempted. */
  ghost predicate Accounts(fstab: seq<Fs>, opt: Options, done: seq<bool>, trace: Trace) {
    && |done| == |fstab|
    && (forall i :: 0 <= i < |fstab| && done[i] && Eligible(fstab[i], opt) ==> Attempts(trace, i) == 1)
    && (forall i :: 0 <= i < |fstab| && !(done[i] && Eligible(fstab[i], opt)) ==> Attempts(trace, i) == 0)
  }

  /** The first line for the root directory, which is checked before all others. */
  ghost predicate FirstRoot(fstab: seq<Fs>, r: nat) {
    r < |fstab| && fstab[r].isRoot && forall i :: 0 <= i < r ==> !fstab[i].isRoot
  }

  /** The history of the root check: the first root line is tried, alone, unless there is
      none to check or it may wait for the others. */
  ghost predicate RootTried(fstab: seq<Fs>, opt: Options, root: Trace) {
    && Replay(root) == [] && (root != [] ==> root[0].Attempt?)
    && forall i: nat ::
         Attempts(root, i) == if !opt.parallelRoot && FirstRoot(fstab, i) && Eligible(fstab[i], opt) then 1 else 0
  }

  method ProgressActive(list: seq<Instance>) returns (active: bool)
    ensures active <==> HasToken(list)
  {
    for n := 0 to |list|
      invariant forall k :: 0 <= k < n ==> !list[k].token
    {
      if list[n].token {
        return true;
      }
    }
    return false;
  }

  /** Takes the child at `at` out of the list and hands its progress token on. */
  method Unlink(fstab: seq<Fs>, opt: Options, list: seq<Instance>, at: nat)
    returns (rest: seq<Instance>, heir: Option<nat>)
    requires InTable(fstab, list) && at < |list|
    ensures HeirOk(fstab, opt, list, at, heir)
    ensures forall status :: rest == Apply(list, Reaped(at, list[at].fs, status, heir))
  {
    WithoutIndex(list, at);
    rest, heir := list[..at] + list[at + 1..], None;
    assert rest == Without(list, at);
    if !opt.noexecute && opt.progress && list[at].token {
      var active := ProgressActive(rest);
      if !active {
        heir := FirstExt(fstab, rest, 0);
        if heir.Some? {
          rest := rest[heir.value := Instance(rest[heir.value].fs, true)];
        }
      }
    }
  }

  class Scheduler {
    const fstab: seq<Fs>
    const opt: Options
    const env: Env
    var instances: seq<Instance>
    var numRunning: int
    var done: seq<bool>
    var resolved: seq<bool>
    var clock: nat
    ghost var trace: Trace
    ghost var times: seq<nat>  // when each event happened

    constructor (fstab: seq<Fs>, opt: Options, env: Env)
      ensures this.fstab == fstab && this.opt == opt && this.env == env
      ensures Valid() && trace == [] && instances == []
      ensures forall i :: 0 <= i < |fstab| ==> !done[i]
    {
      this.fstab, this.opt, this.env := fstab, opt, env;
      instances, numRunning, clock := [], 0, 0;
      done := seq(|fstab|, _ => false);
      resolved := seq(|fstab|, _ => false);
      trace, times := [], [];
    }

    ghost predicate Valid()
      reads this
    {
      && |done| == |resolved| == |fstab|
      && numRunning == |instances|
      && instances == Replay(trace)
      && AlwaysGood(fstab, opt, trace)
      && Told(env, opt, trace, times, clock)
    }

    /** The disks of all running checkers have been looked up. */
    ghost predicate RunningResolved()
      reads this
      requires Valid()
    {
      !opt.forceAllParallel ==> forall k :: 0 <= k < |instances| ==> resolved[instances[k].fs]
    }

    // fs_get_disk(fs, 0) and fs_is_stacked(fs) see only what has been looked up.
    function CachedDisk(i: nat): nat
      reads this
      requires i < |fstab| && i < |resolved|
    {
      if resolved[i] then fstab[i].disk else 0
    }

    predicate CachedStacked(i: nat)
      reads this
      requires i < |fstab| && i < |resolved|
    {
      resolved[i] && Stacked(fstab[i])
    }

    /** Tests only the head of the list for a stacked device; that is as good as
        testing all of it. */
    method DiskAlreadyActive(i: nat) returns (active: bool)
      requires Valid() && RunningResolved() && i < |fstab|
      modifies this`resolved
      ensures Valid() && RunningResolved()
      ensures active <==> !opt.forceAllParallel && Conflict(fstab, instances, i)
      ensures !active && !opt.forceAllParallel ==> resolved[i]
      ensures active ==> instances != []
    {
      if opt.forceAllParallel {
        return false;
      }
      HeadTellsStacked(fstab, instances);
      if instances != [] && CachedStacked(instances[0].fs) {
        return true;
      }
      resolved := resolved[i := true];
      var disk := fstab[i].disk;
      if disk == 0 || CachedStacked(i) {
        return instances != [];
      }
      for n := 0 to |instances|
        invariant forall k :: 0 <= k < n ==> fstab[instances[k].fs].disk != 0 && fstab[instances[k].fs].disk != disk
      {
        var idisk := CachedDisk(instances[n].fs);
        if idisk == 0 || disk == idisk {
          return true;
        }
      }
      return false;
    }

    /** fsck_device() with execute(): tries to start the checker for line `i`. */
    method FsckDevice(i: nat) returns (status: Bits, ghost e: Event)
      requires Valid() && i < |fstab| && Room(opt, instances)
      requires !opt.forceAllParallel ==> !Conflict(fstab, instances, i)
      modifies this`instances, this`numRunning, this`clock, this`trace, this`times
      ensures Valid() && |instances| <= |old(instances)| + 1
      ensures e.Attempt? && e.fs == i && trace == old(trace) + [e] && status == Verdict(e)
      ensures forall k :: 0 <= k < |instances| ==>
        (k < |old(instances)| && instances[k] == old(instances)[k]) || instances[k].fs == i
    {
      hide Exclusive, TokenOk, Conflict, AlwaysGood, Replay, Told;
      ghost var list, t := instances, clock;
      var result, token;
      result, token, status := Execute(i);
      e := Attempt(i, result, token);
      StartStep(fstab, opt, trace, i, result, token);
      ToldSnoc(env, opt, trace, times, t, e, t);
      trace, times := trace + [e], times + [t];
    }

    /** The attempt itself. */
    method Execute(i: nat) returns (result: Spawn, token: bool, status: Bits)
      requires i < |fstab| && numRunning == |instances|
      modifies this`instances, this`numRunning, this`clock
      ensures clock == old(clock) + 1 && numRunning == |instances|
      ensures result == if opt.noexecute && env.spawn(old(clock)) == ForkFailed then Started else env.spawn(old(clock))
      ensures result == Started ==> token == (opt.progress && ExtType(fstab[i].fstype) && !HasToken(old(instances)))
      ensures instances == if result == Started then old(instances) + [Instance(i, token)] else old(instances)
      ensures status == Verdict(Attempt(i, result, token))
    {
      result := env.spawn(clock);
      if opt.noexecute && result == ForkFailed {
        result := Started;
      }
      clock := clock + 1;
      token := false;
      status := if result == Missing then EX_ERROR else EX_OK;
      if result == Started || result == ForkFailed {
        numRunning := numRunning + 1;
        if opt.progress && ExtType(fstab[i].fstype) {
          var active := ProgressActive(instances);
          token := !active;
        }
        if result == ForkFailed {
          numRunning := numRunning - 1;
          status := EX_ERROR;
        } else {
          instances := instances + [Instance(i, token)];
        }
      }
    }

    /** Unlinks a finished child; a blocking wait always finds one in a non-empty list. */
    method WaitOne(block: bool) returns (found: bool, status: Bits)
      requires Valid()
      modifies this`instances, this`numRunning, this`clock, this`trace, this`times
      ensures Valid()
      ensures found ==> |instances| == |old(instances)| - 1 && Drained(fstab, opt, old(trace), trace, status)
      ensures !found ==> trace == old(trace) && instances == old(instances) && (block ==> instances == [])
    {
      hide Exclusive, TokenOk, Told, ToldBy, AlwaysGood, Replay, Good;
      status := EX_OK;
      if instances == [] {
        return false, status;
      }
      if !opt.noexecute && !block && !env.ready(clock) {
        ToldLater(env, opt, trace, times, clock, clock + 1);
        clock := clock + 1;
        return false, status;
      }
      ghost var list, t := instances, clock;
      var at;
      at, status := NextChild();
      var fs, rest, heir := instances[at].fs, instances, None;
      RunningInTable(fstab, opt, trace);
      rest, heir := Unlink(fstab, opt, instances, at);
      ReapStep(fstab, opt, trace, at, status, heir);
      WithoutIndex(instances, at);
      ToldSnoc(env, opt, trace, times, t, Reaped(at, fs, status, heir), t);
      instances, numRunning := rest, numRunning - 1;
      trace, times := trace + [Reaped(at, fs, status, heir)], times + [t];
      return true, status;
    }

    /** The child that has ended, by its place in the list, and its status. */
    method NextChild() returns (at: nat, status: Bits)
      requires instances != []
      modifies this`clock
      ensures at < |instances| && clock == old(clock) + 1
      ensures forall heir :: ToldBy(env, opt, instances, Reaped(at, instances[at].fs, status, heir), old(clock))
    {
      at, status := 0, EX_OK;
      if !opt.noexecute {
        at := env.child(clock) % |instances|;
        status := ExitStatus(env.exit(clock));
      }
      clock := clock + 1;
    }

    method WaitMany(all: bool) returns (status: Bits)
      requires Valid()
      modifies this`instances, this`numRunning, this`clock, this`trace, this`times
      ensures Valid() && Drained(fstab, opt, old(trace), trace, status)
      ensures all ==> instances == []
      ensures old(instances) != [] ==> |instances| < |old(instances)|
      ensures old(instances) == [] ==> instances == []
    {
      hide Exclusive, TokenOk, AlwaysGood, Replay, Told, PassOrdered;
      status := EX_OK;
      var block, more := true, true;
      while more
        invariant Valid() && Drained(fstab, opt, old(trace), trace, status)
        invariant all ==> block
        invariant |instances| <= |old(instances)|
        invariant block && !all ==> trace == old(trace) && instances == old(instances)
        invariant !block && old(instances) != [] ==> |instances| < |old(instances)|
        invariant !more ==> block ==> instances == []
        decreases more, |instances|
      {
        var one;
        ghost var mid := trace;
        more, one := WaitOne(block);
        if more {
          DrainedTwice(fstab, opt, old(trace), mid, trace, status, one);
          status := status + one;
          if !all {
            block := false;
          }
        }
      }
    }

    // ---------- check_all() ----------

    /** Marks the lines that the initial scan rejects. */
    method InitialScan()
      requires Valid() && trace == [] && forall i :: 0 <= i < |fstab| ==> !done[i]
      modifies this`done
      ensures Valid() && Accounts(fstab, opt, done, trace)
      ensures forall i :: 0 <= i < |fstab| ==> done[i] == fstab[i].ignored
    {
      for n := 0 to |fstab|
        invariant Valid()
        invariant forall i :: 0 <= i < |fstab| ==> done[i] == (i < n && fstab[i].ignored)
      {
        if fstab[n].ignored {
          done := done[n := true];
        }
      }
    }

    method FindRoot() returns (r: nat)
      ensures r <= |fstab| && forall i: nat :: FirstRoot(fstab, i) <==> i == r < |fstab|
    {
      r := 0;
      while r < |fstab| && !fstab[r].isRoot
        invariant r <= |fstab| && forall i :: 0 <= i < r ==> !fstab[i].isRoot
      {
        r := r + 1;
      }
    }

    /** Checks the root file system alone and first, unless told otherwise. */
    method CheckRoot() returns (status: Bits, stop: bool)
      requires Valid() && instances == [] && trace == [] && Accounts(fstab, opt, done, trace)
      requires forall i :: 0 <= i < |fstab| ==> done[i] == fstab[i].ignored
      modifies this
      ensures Valid() && instances == [] && status == OrAll(trace)
      ensures stop <==> AboveNondestruct(status)
      ensures RootTried(fstab, opt, trace)
      ensures !stop ==> Accounts(fstab, opt, done, trace) && forall i :: 0 <= i < |fstab| && fstab[i].ignored ==>
        done[i]
    {
      hide Exclusive, TokenOk, AlwaysGood, Replay, PassOrdered, LowerPassesOver, Told;
      status := EX_OK;
      stop := false;
      if opt.parallelRoot {
        return;
      }
      var r := FindRoot();
      if r == |fstab| {
        return;
      }
      if !opt.skipRoot && !done[r] && !(opt.ignoreMounted && fstab[r].mounted) {
        status := TryRoot(r);
        if AboveNondestruct(status) {
          stop := true;
          return;
        }
      }
      done := done[r := true];
    }

    /** Starts the checker for the root line and waits for it. */
    method TryRoot(r: nat) returns (status: Bits)
      requires Valid() && instances == [] && trace == [] && r < |fstab|
      modifies this`instances, this`numRunning, this`clock, this`trace, this`times
      ensures Valid() && instances == [] && status == OrAll(trace)
      ensures trace != [] && trace[0].Attempt? && forall i: nat :: Attempts(trace, i) == if i == r then 1 else 0
    {
      hide Exclusive, TokenOk, AlwaysGood, Replay, PassOrdered, LowerPassesOver, Told;
      ghost var e;
      status, e := FsckDevice(r);
      Snoc([], e);
      assert [] + [e] == trace;
      var waited := WaitMany(true);
      status := status + waited;
    }

    /** Skip root skips every root line, not just the first. */
    method SkipRoots()
      requires Valid() && Accounts(fstab, opt, done, trace) && opt.skipRoot
      modifies this`done
      ensures Valid() && Accounts(fstab, opt, done, trace)
      ensures forall i :: 0 <= i < |fstab| ==> done[i] == (old(done)[i] || fstab[i].isRoot)
    {
      hide Exclusive, TokenOk, AlwaysGood, Replay, Told, Attempts;
      for n := 0 to |fstab|
        invariant Valid() && Accounts(fstab, opt, done, trace)
        invariant forall i :: 0 <= i < |fstab| ==> done[i] == (old(done)[i] || (i < n && fstab[i].isRoot))
      {
        if fstab[n].isRoot {
          done := done[n := true];
        }
      }
    }

    /** In pass `p` everything of a lower pass is done and no longer running. */
    ghost predicate PassOk(p: int)
      requires Valid()
      reads this
    {
      && (forall i :: 0 <= i < |fstab| && Pass(fstab[i]) < p ==> done[i])
      && (forall k :: 0 <= k < |instances| ==> Pass(fstab[instances[k].fs]) >= p)
    }

    ghost predicate MainOk(p: int, root: Trace)
      reads this
    {
      && Valid() && RunningResolved() && Accounts(fstab, opt, done, trace)
      && (forall i :: 0 <= i < |fstab| && (fstab[i].ignored || (opt.skipRoot && fstab[i].isRoot)) ==> done[i])
      && p >= 1 && PassOk(p)
      && root <= trace && PassOrdered(fstab, opt, trace, |root|)
    }

    /** One line of the table in pass `p`, when nothing stands in its way. */
    method Start(i: nat, p: int, ghost root: Trace) returns (status: Bits)
      requires MainOk(p, root) && i < |fstab| && !done[i] && fstab[i].passno <= p
      requires !(opt.ignoreMounted && fstab[i].mounted)
      requires Room(opt, instances)
      requires !opt.forceAllParallel ==> !Conflict(fstab, instances, i) && resolved[i]
      modifies this`instances, this`numRunning, this`clock, this`trace, this`times, this`done
      ensures MainOk(p, root) && |instances| <= |old(instances)| + 1
      ensures done == old(done)[i := true] && Undone(done) < Undone(old(done))
      ensures OrAll(trace) == old(OrAll(trace)) + status
    {
      hide Exclusive, TokenOk, AlwaysGood, Replay, Conflict, Told;
      UndoneSet(done, i);
      ghost var before := trace;
      LowerPassesAreOver(p);
      ghost var e;
      status, e := FsckDevice(i);
      Snoc(before, e);
      AttemptAccounts(fstab, opt, done, before, e);
      assert trace[..|trace| - 1] == before;
      done := done[i := true];
    }

    /** How far the scan of the table has come, for lines below `n`: done, or of a
        later pass, or the pass is not over. */
    ghost predicate Scanned(n: nat, p: int, notDoneYet: nat, passDone: bool)
      requires Valid()
      reads this
    {
      forall i :: 0 <= i < n && i < |fstab| ==> done[i] || !passDone || (Pass(fstab[i]) > p && notDoneYet > 0)
    }

    /** Either some line got done, or nothing was started and, unless the pass is
        over, something is still running. */
    ghost predicate Moved(done0: seq<bool>, instances0: seq<Instance>, passDone: bool)
      requires Valid()
      reads this
    {
      && Undone(done) <= Undone(done0)
      && (Undone(done) == Undone(done0) ==> instances == instances0 && (passDone || instances != []))
    }

    method SkipMounted(i: nat, p: int, ghost root: Trace)
      requires MainOk(p, root) && i < |fstab| && !done[i] && opt.ignoreMounted && fstab[i].mounted
      modifies this`done
      ensures MainOk(p, root)
      ensures done == old(done)[i := true] && Undone(done) < Undone(old(done))
    {
      UndoneSet(done, i);
      done := done[i := true];
    }

    /** Visits one line; `quit` is the break out of the scan. */
    method Visit(i: nat, p: int, ghost root: Trace)
      returns (status: Bits, later: bool, deferred: bool, quit: bool)
      requires MainOk(p, root) && i < |fstab| && Room(opt, instances)
      modifies this`instances, this`numRunning, this`clock, this`trace, this`times, this`done, this`resolved
      ensures MainOk(p, root) && OrAll(trace) == old(OrAll(trace)) + status
      ensures later ==> Pass(fstab[i]) > p && done == old(done)
      ensures deferred || quit || later || done[i]
      ensures forall j :: 0 <= j < |fstab| ==> old(done)[j] ==> done[j]
      ensures if done == old(done) then instances == old(instances) else Undone(done) < Undone(old(done))
      ensures deferred ==> instances != []
      ensures quit ==> done != old(done)
      ensures !quit ==> Room(opt, instances)
    {
      hide Exclusive, TokenOk, AlwaysGood, Replay, PassOrdered, LowerPassesOver, Accounts, OrAll, Undone, Told;
      status, later, deferred, quit := EX_OK, false, false, false;
      if done[i] {
        return;
      }
      if fstab[i].passno > p {
        later := true;
        return;
      }
      if opt.ignoreMounted && fstab[i].mounted {
        SkipMounted(i, p, root);
        return;
      }
      deferred := DiskAlreadyActive(i);
      if deferred {
        return;
      }
      status := Start(i, p, root);
      quit := opt.serialize || (opt.maxRunning != 0 && numRunning >= opt.maxRunning);
    }

    /** One scan over the table. */
    method Scan(p: int, ghost root: Trace) returns (status: Bits, notDoneYet: nat, passDone: bool)
      requires MainOk(p, root) && Room(opt, instances)
      modifies this`instances, this`numRunning, this`clock, this`trace, this`times, this`done, this`resolved
      ensures MainOk(p, root) && OrAll(trace) == old(OrAll(trace)) + status
      ensures Scanned(|fstab|, p, notDoneYet, passDone) && Moved(old(done), old(instances), passDone)
      ensures notDoneYet > 0 ==> p < MaxPass(fstab)
    {
      hide Exclusive, TokenOk, AlwaysGood, Replay, PassOrdered, LowerPassesOver, Accounts, OrAll, Undone, MaxPass, Told;
      status, notDoneYet, passDone := EX_OK, 0, true;
      var i := 0;
      while i < |fstab|
        invariant i <= |fstab|
        invariant MainOk(p, root) && OrAll(trace) == old(OrAll(trace)) + status
        invariant Room(opt, instances)
        invariant Scanned(i, p, notDoneYet, passDone) && Moved(old(done), old(instances), passDone)
        invariant notDoneYet > 0 ==> p < MaxPass(fstab)
      {
        var one, later, deferred, quit := Visit(i, p, root);
        status := status + one;
        if later {
          notDoneYet := notDoneYet + 1;
        }
        if deferred || quit {
          passDone := false;
        }
        if quit {
          break;
        }
        i := i + 1;
      }
    }

    ghost function PassesLeft(p: int): nat {
      if p <= MaxPass(fstab) then MaxPass(fstab) + 1 - p else 0
    }

    /** The wait after a scan. */
    method AfterScan(p: int, passDone: bool, notDoneYet: nat, ghost root: Trace) returns (status: Bits)
      requires MainOk(p, root) && Scanned(|fstab|, p, notDoneYet, passDone)
      modifies this`instances, this`numRunning, this`clock, this`trace, this`times
      ensures MainOk(if passDone then p + 1 else p, root) && Room(opt, instances)
      ensures OrAll(trace) == old(OrAll(trace)) + status
      ensures passDone ==> instances == []
      ensures old(instances) != [] ==> |instances| < |old(instances)|
    {
      hide Exclusive, TokenOk, Told, OrAll;
      ghost var before, was := trace, instances;
      status := WaitMany(passDone);
      forall k | 0 <= k < |instances|
        ensures Pass(fstab[instances[k].fs]) >= p && (!opt.forceAllParallel ==> resolved[instances[k].fs])
      {
        assert RunningIn(Replay(trace), instances[k].fs);
        assert RunningIn(Replay(before), instances[k].fs);
      }
    }

    /** The main loop: it terminates, and afterwards every line is done. */
    method MainLoop(ghost root: Trace) returns (status: Bits)
      requires MainOk(1, root) && instances == []
      modifies this`instances, this`numRunning, this`clock, this`trace, this`times, this`done, this`resolved
      ensures Valid() && Accounts(fstab, opt, done, trace)
      ensures root <= trace && PassOrdered(fstab, opt, trace, |root|)
      ensures OrAll(trace) == old(OrAll(trace)) + status
      ensures instances == [] && forall i :: 0 <= i < |fstab| ==> done[i]
    {
      hide Exclusive, TokenOk, AlwaysGood, Replay, PassOrdered, LowerPassesOver, Accounts, OrAll, Told;
      status := EX_OK;
      var p, more := 1, true;
      while more
        invariant MainOk(p, root) && Room(opt, instances)
        invariant OrAll(trace) == old(OrAll(trace)) + status
        invariant !more ==> instances == [] && forall i :: 0 <= i < |fstab| ==> done[i]
        decreases more, PassesLeft(p), Undone(done), |instances|
      {
        var one, notDoneYet, passDone := Scan(p, root);
        var two := AfterScan(p, passDone, notDoneYet, root);
        status := status + one + two;
        more := notDoneYet > 0 || !passDone;
        if passDone {
          p := p + 1;
        }
      }
    }

    /** check_all(): the exit code, and whether the root check stopped it early. */
    method CheckAll() returns (status: Bits, stopped: bool, ghost root: Trace)
      requires Valid() && trace == [] && instances == [] && forall i :: 0 <= i < |fstab| ==> !done[i]
      modifies this
      ensures AlwaysGood(fstab, opt, trace) && Told(env, opt, trace, times, clock)
      ensures Valid() && instances == [] && status == OrAll(trace)
      // The root check comes first and alone, and stops the run exactly when it went badly.
      ensures RootTried(fstab, opt, root) && root <= trace
      ensures stopped <==> AboveNondestruct(OrAll(root))
      ensures stopped ==> trace == root
      ensures !stopped ==> PassOrdered(fstab, opt, trace, |root|)
      ensures !stopped ==> forall i :: 0 <= i < |fstab| ==>
        Attempts(trace, i) == if Eligible(fstab[i], opt) then 1 else 0
    {
      hide Exclusive, TokenOk, AlwaysGood, Told, LowerPassesOver;
      InitialScan();
      status, stopped := CheckRoot();
      root := trace;
      if stopped {
        return;
      }
      if opt.skipRoot {
        SkipRoots();
      }
      var main := MainLoop(root);
      status := status + main;
      ghost var before := trace;
      var last := WaitMany(false);
      status := status + last;
    }

    lemma LowerPassesAreOver(p: int)
      requires Valid() && Accounts(fstab, opt, done, trace) && PassOk(p)
      ensures LowerPassesOver(fstab, opt, trace, p)
    {
    }
  }

  /** Attempting an eligible line and marking it done keeps the accounts. */
  lemma AttemptAccounts(fstab: seq<Fs>, opt: Options, done: seq<bool>, t: Trace, e: Event)
    requires Accounts(fstab, opt, done, t)
    requires e.Attempt? && e.fs < |fstab| && !done[e.fs] && Eligible(fstab[e.fs], opt)
    ensures Accounts(fstab, opt, done[e.fs := true], t + [e])
  {
    Snoc(t, e);
  }
}
