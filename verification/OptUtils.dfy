/** The search for the real "--" among command-line words (include/optutils.h).

    The program decides whether a "--" is an option's value by looking backwards
    and counting how many option words stand directly in front of it. The
    reference here reads the words forwards, the way getopt_long() does: an option
    that needs a value takes the next word, whatever that word is. The two agree
    on every command line and every option table.
  */
module OptUtils {
  import opened Common

  datatype HasArg = NoArgument | RequiredArgument | OptionalArgument

  datatype Opt = Opt(name: string, hasArg: HasArg, val: int)

  const SEPARATOR: string := "--"

  // ---------- Reference: which words take the next word as their value ----------

  /** The kind of the first table row whose short name is `c`. */
  function ShortKind(opts: seq<Opt>, c: char): Option<HasArg> {
    if opts == [] then None
    else if opts[0].val == c as int then Some(opts[0].hasArg)
    else ShortKind(opts[1..], c)
  }

  /** `--name` of a long option with a required value and no inline `=value`. */
  ghost predicate LongNeedsValue(arg: string, opts: seq<Opt>) {
    && |arg| > 2
    && arg[..2] == "--"
    && '=' !in arg[2..]
    && exists o :: o in opts && o.hasArg == RequiredArgument && o.name == arg[2..]
  }

  /** `-abc` where `a` and `b` take no value and `c` requires one. */
  ghost predicate ShortNeedsValue(arg: string, opts: seq<Opt>) {
    && |arg| > 1
    && arg[0] == '-'
    && arg[1] != '-'
    && (forall p :: 1 <= p < |arg| - 1 ==> ShortKind(opts, arg[p]) == Some(NoArgument))
    && ShortKind(opts, arg[|arg| - 1]) == Some(RequiredArgument)
  }

  ghost predicate NeedsValue(arg: string, opts: seq<Opt>) {
    LongNeedsValue(arg, opts) || ShortNeedsValue(arg, opts)
  }

  /** Reads the words from index `i` on: a "--" met as a word of its own is the
      separator, and an option that needs a value swallows the next word. */
  ghost function ForwardScan(argv: seq<string>, opts: seq<Opt>, i: nat): int
    decreases |argv| - i
  {
    if i >= |argv| then -1
    else if argv[i] == SEPARATOR then i
    else if NeedsValue(argv[i], opts) then ForwardScan(argv, opts, i + 2)
    else ForwardScan(argv, opts, i + 1)
  }

  // ---------- The backward parity argument ----------

  /** How many consecutive value-taking words end just before index `i`. */
  ghost function RunBefore(argv: seq<string>, opts: seq<Opt>, i: nat): nat
    requires i <= |argv|
  {
    if i <= 1 || !NeedsValue(argv[i - 1], opts) then 0
    else 1 + RunBefore(argv, opts, i - 1)
  }

  /** The first "--" at or after `i` with an even run in front of it. */
  ghost function FirstEven(argv: seq<string>, opts: seq<Opt>, i: nat): int
    requires i <= |argv|
    decreases |argv| - i
  {
    if i == |argv| then -1
    else if argv[i] == SEPARATOR && RunBefore(argv, opts, i) % 2 == 0 then i
    else FirstEven(argv, opts, i + 1)
  }

  /** From any word that getopt would read as a word of its own (an even run in
      front), the forward reading finds exactly the first even "--". */
  lemma {:induction false} ParityAgreesWithForwardScan(argv: seq<string>, opts: seq<Opt>, i: nat)
    requires 1 <= i <= |argv|
    requires RunBefore(argv, opts, i) % 2 == 0
    ensures ForwardScan(argv, opts, i) == FirstEven(argv, opts, i)
    decreases |argv| - i
  {
    if i < |argv| && argv[i] != SEPARATOR {
      if NeedsValue(argv[i], opts) {
        assert RunBefore(argv, opts, i + 1) == RunBefore(argv, opts, i) + 1;
        if i + 1 < |argv| {
          assert RunBefore(argv, opts, i + 2) % 2 == 0;
          ParityAgreesWithForwardScan(argv, opts, i + 2);
        }
      } else {
        ParityAgreesWithForwardScan(argv, opts, i + 1);
      }
    }
  }

  // ---------- The program ----------

  method FindLong(name: string, opts: seq<Opt>) returns (found: bool)
    ensures found <==> exists o :: o in opts && o.hasArg == RequiredArgument && o.name == name
  {
    for n := 0 to |opts|
      invariant forall m :: 0 <= m < n ==> !(opts[m].hasArg == RequiredArgument && opts[m].name == name)
    {
      if opts[n].hasArg == RequiredArgument && opts[n].name == name {
        return true;
      }
    }
    return false;
  }

  /** Index of the first row with short name `c`, or |opts|. */
  method FindShort(opts: seq<Opt>, c: char) returns (n: nat)
    ensures n <= |opts|
    ensures ShortKind(opts, c) == if n < |opts| then Some(opts[n].hasArg) else None
  {
    n := 0;
    while n < |opts|
      invariant n <= |opts|
      invariant ShortKind(opts, c) == ShortKind(opts[n..], c)
    {
      if opts[n].val == c as int {
        return;
      }
      n := n + 1;
    }
  }

  method IsOptionWithArg(arg: string, opts: seq<Opt>) returns (r: bool)
    ensures r <==> NeedsValue(arg, opts)
  {
    if |arg| < 2 || arg[0] != '-' {
      return false;
    }
    if arg[1] == '-' {
      assert arg[..2] == "--";
      var name := arg[2..];
      if name == "" || '=' in name {
        return false;
      }
      r := FindLong(name, opts);
      return;
    }
    var p := 1;
    while p < |arg|
      invariant 1 <= p <= |arg|
      invariant forall q :: 1 <= q < p ==> ShortKind(opts, arg[q]) == Some(NoArgument)
    {
      var n := FindShort(opts, arg[p]);
      if n == |opts| {
        return false;
      }
      if opts[n].hasArg != NoArgument {
        return p + 1 == |arg| && opts[n].hasArg == RequiredArgument;
      }
      p := p + 1;
    }
    assert ShortKind(opts, arg[|arg| - 1]) == Some(NoArgument);
    return false;
  }

  method FindArgvSeparator(argv: seq<string>, opts: seq<Opt>) returns (r: int)
    ensures r == ForwardScan(argv, opts, 1)
  {
    if |argv| > 0 {
      ParityAgreesWithForwardScan(argv, opts, 1);
    }
    var i := 1;
    while i < |argv|
      invariant 1 <= i && (|argv| > 0 ==> i <= |argv|)
      invariant |argv| > 0 ==> FirstEven(argv, opts, i) == ForwardScan(argv, opts, 1)
    {
      if argv[i] == SEPARATOR {
        var count, k := 0, i - 1;
        while k >= 1
          invariant 0 <= k < i && count >= 0
          invariant count + RunBefore(argv, opts, k + 1) == RunBefore(argv, opts, i)
        {
          var takes := IsOptionWithArg(argv[k], opts);
          if !takes {
            break;
          }
          count := count + 1;
          k := k - 1;
        }
        if count % 2 == 0 {
          return i;
        }
      }
      i := i + 1;
    }
    return -1;
  }
}
