/** tail's option handling. This tail stops after its option loop and
    prints the line count: it keeps no window of last lines. */
module Tail {
  import opened Sys
  import opened LibC
  import opened CountParse

  datatype TailMode = TailLines | TailBlocks | TailBytes

  /** flags_t: the switches the option loop sets, and the count. */
  datatype Flags = Flags(follow: bool, superFollow: bool, reverse: bool, quiet: bool,
                         verbose: bool, blocks: bool, mode: TailMode, lines: nat)

  /** The flags before the option loop: everything off, 10 lines. */
  function DefaultFlags(): Flags
  {
    Flags(false, false, false, false, false, false, TailLines, 10)
  }

  /** What getopt hands the loop for the option string "fFrqvb:c:n:";
      OptUnknown stands for an unknown option or a missing argument. */
  datatype TailOpt =
    | OptFollow | OptSuperFollow | OptReverse | OptQuiet | OptVerbose
    | OptLines(arg: string)
    | OptBlocks(arg: string)
    | OptBytes(arg: string)
    | OptUnknown

  /** Why option handling exits with status 2: the usage message, or a
      rejected `-n` argument with the errno its message reports. */
  datatype Stop = Usage | BadCount(arg: string, errno: int)

  datatype TailOutcome = Exit2(why: Stop) | Ready(flags: Flags)

  /** Options that end the program: those without a case in the switch, and
      a `-n` whose argument parse_count rejects. */
  predicate Stops(o: TailOpt)
  {
    match o
    case OptLines(a) => ParseCount(a, 0).code != CountOk
    case OptBlocks(_) => true
    case OptBytes(_) => true
    case OptUnknown => true
    case _ => false
  }

  /** How a stopping option ends the program. */
  function StopFor(o: TailOpt): Stop
  {
    if o.OptLines? then
      BadCount(o.arg, if ParseCount(o.arg, 0).code == CountInvalid then EINVAL else ERANGE)
    else Usage
  }

  /** The option loop, applied to the remaining options with flags `f`. */
  function TailOptions(opts: seq<TailOpt>, f: Flags): TailOutcome
  {
    if opts == [] then Ready(f)
    else match opts[0]
      case OptFollow => TailOptions(opts[1..], f.(follow := true))
      case OptSuperFollow => TailOptions(opts[1..], f.(superFollow := true))
      case OptReverse => TailOptions(opts[1..], f.(reverse := true))
      case OptQuiet => TailOptions(opts[1..], f.(quiet := true))
      case OptVerbose => TailOptions(opts[1..], f.(verbose := true))
      case OptLines(a) =>
        var p := ParseCount(a, 0);
        if p.code == CountInvalid then Exit2(BadCount(a, EINVAL))
        else if p.code == CountRange then Exit2(BadCount(a, ERANGE))
        else TailOptions(opts[1..], f.(lines := p.out))
      case OptBlocks(_) => Exit2(Usage)
      case OptBytes(_) => Exit2(Usage)
      case OptUnknown => Exit2(Usage)
  }

  /** The loop of `main`, updating its local `flags` one option at a time. */
  method ParseTailOptions(opts: seq<TailOpt>) returns (r: TailOutcome)
    ensures r == TailOptions(opts, DefaultFlags())
  {
    var flags := DefaultFlags();
    var i := 0;
    while i < |opts|
      invariant i <= |opts|
      invariant TailOptions(opts[i..], flags) == TailOptions(opts, DefaultFlags())
    {
      assert opts[i..][1..] == opts[i + 1..];
      match opts[i] {
        case OptFollow => flags := flags.(follow := true);
        case OptSuperFollow => flags := flags.(superFollow := true);
        case OptReverse => flags := flags.(reverse := true);
        case OptQuiet => flags := flags.(quiet := true);
        case OptVerbose => flags := flags.(verbose := true);
        case OptLines(a) =>
          var lns: nat := 0;
          var p := ParseCount(a, lns);
          if p.code == CountInvalid {
            return Exit2(BadCount(a, EINVAL));
          }
          if p.code == CountRange {
            return Exit2(BadCount(a, ERANGE));
          }
          flags := flags.(lines := p.out);
        case OptBlocks(_) => return Exit2(Usage);
        case OptBytes(_) => return Exit2(Usage);
        case OptUnknown => return Exit2(Usage);
      }
      i := i + 1;
    }
    return Ready(flags);
  }

  /** The flags after an option that does not stop the program. */
  function Apply(o: TailOpt, f: Flags): Flags
  {
    match o
    case OptFollow => f.(follow := true)
    case OptSuperFollow => f.(superFollow := true)
    case OptReverse => f.(reverse := true)
    case OptQuiet => f.(quiet := true)
    case OptVerbose => f.(verbose := true)
    case OptLines(a) => f.(lines := ParseCount(a, 0).out)
    case _ => f
  }

  /** The argument of the last `-n`, if any. */
  function LastLines(opts: seq<TailOpt>): Option<string>
  {
    if opts == [] then None
    else match LastLines(opts[1..])
      case Some(a) => Some(a)
      case None => if opts[0].OptLines? then Some(opts[0].arg) else None
  }

  /** Without a stopping option the loop runs to the end: the mode stays
      lines and the count is that of the last `-n`, or the one it started with. */
  lemma {:induction false} TailNoStop(opts: seq<TailOpt>, f: Flags)
    requires forall i :: 0 <= i < |opts| ==> !Stops(opts[i])
    ensures TailOptions(opts, f).Ready?
    ensures TailOptions(opts, f).flags.mode == f.mode && TailOptions(opts, f).flags.blocks == f.blocks
    ensures TailOptions(opts, f).flags.lines ==
              match LastLines(opts) case None => f.lines case Some(a) => ParseCount(a, 0).out
  {
    if opts != [] {
      var g := Apply(opts[0], f);
      NoStopTail(opts);
      TailStep(opts, f);
      TailNoStop(opts[1..], g);
      ApplyCount(opts[0], f);
    }
  }

  /** The switch among the flags that option `o` turns on (false for options
      that are not switches). */
  function Switch(g: Flags, o: TailOpt): bool
  {
    match o
    case OptFollow => g.follow
    case OptSuperFollow => g.superFollow
    case OptReverse => g.reverse
    case OptQuiet => g.quiet
    case OptVerbose => g.verbose
    case _ => false
  }

  predicate IsSwitch(o: TailOpt)
  {
    o.OptFollow? || o.OptSuperFollow? || o.OptReverse? || o.OptQuiet? || o.OptVerbose?
  }

  /** Without a stopping option, each switch ends up on exactly when it was
      given or already on. */
  lemma {:induction false} TailSwitches(opts: seq<TailOpt>, f: Flags, o: TailOpt)
    requires forall i :: 0 <= i < |opts| ==> !Stops(opts[i])
    requires IsSwitch(o)
    ensures TailOptions(opts, f).Ready?
    ensures Switch(TailOptions(opts, f).flags, o) == (Switch(f, o) || o in opts)
  {
    if opts != [] {
      var g := Apply(opts[0], f);
      NoStopTail(opts);
      TailStep(opts, f);
      TailSwitches(opts[1..], g, o);
      ApplySwitch(opts[0], f, o);
      assert opts == [opts[0]] + opts[1..];
    }
  }

  lemma ApplyCount(p: TailOpt, f: Flags)
    ensures Apply(p, f).mode == f.mode && Apply(p, f).blocks == f.blocks
    ensures Apply(p, f).lines == if p.OptLines? then ParseCount(p.arg, 0).out else f.lines
  {
    match p
    case OptLines(a) =>
    case _ =>
  }

  lemma ApplySwitch(p: TailOpt, f: Flags, o: TailOpt)
    requires IsSwitch(o)
    ensures Switch(Apply(p, f), o) == (Switch(f, o) || p == o)
  {
  }

  /** One option that does not stop the program. */
  lemma TailStep(opts: seq<TailOpt>, f: Flags)
    requires opts != [] && !Stops(opts[0])
    ensures TailOptions(opts, f) == TailOptions(opts[1..], Apply(opts[0], f))
  {
  }

  lemma NoStopTail(opts: seq<TailOpt>)
    requires opts != [] && forall i :: 0 <= i < |opts| ==> !Stops(opts[i])
    ensures forall i :: 0 <= i < |opts[1..]| ==> !Stops(opts[1..][i])
  {
    forall i | 0 <= i < |opts[1..]| ensures !Stops(opts[1..][i]) {
      assert opts[1..][i] == opts[i + 1];
    }
  }

  /** The first stopping option decides how the program ends, whatever
      follows it. */
  lemma {:induction false} TailFirstStop(opts: seq<TailOpt>, i: nat, f: Flags)
    requires i < |opts| && Stops(opts[i])
    requires forall j :: 0 <= j < i ==> !Stops(opts[j])
    ensures TailOptions(opts, f) == Exit2(StopFor(opts[i]))
  {
    if i > 0 {
      var g := Apply(opts[0], f);
      assert !Stops(opts[0]);
      assert TailOptions(opts, f) == TailOptions(opts[1..], g);
      forall j | 0 <= j < i - 1 ensures !Stops(opts[1..][j]) {
        assert opts[1..][j] == opts[j + 1];
      }
      TailFirstStop(opts[1..], i - 1, g);
    }
  }

  /** With no `-n` and nothing that stops, tail counts 10 lines. */
  lemma TailDefaultCount(opts: seq<TailOpt>)
    requires forall i :: 0 <= i < |opts| ==> !Stops(opts[i]) && !opts[i].OptLines?
    ensures TailOptions(opts, DefaultFlags()).Ready?
    ensures TailOptions(opts, DefaultFlags()).flags.mode == TailLines
    ensures TailOptions(opts, DefaultFlags()).flags.lines == 10
  {
    TailNoStop(opts, DefaultFlags());
    NoLinesNoLast(opts);
  }

  lemma {:induction false} NoLinesNoLast(opts: seq<TailOpt>)
    requires forall i :: 0 <= i < |opts| ==> !opts[i].OptLines?
    ensures LastLines(opts) == None
  {
    if opts != [] {
      forall i | 0 <= i < |opts[1..]| ensures !opts[1..][i].OptLines? {
        assert opts[1..][i] == opts[i + 1];
      }
      NoLinesNoLast(opts[1..]);
    }
  }
}
