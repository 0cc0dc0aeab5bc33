/** echo: the operands separated by single spaces, then a newline unless
    `-n` was given or the last operand ends in the XSI `\c`, which is
    dropped. No other escape is interpreted. */
module Echo {

  /** The last operand ends in backslash and 'c'. */
  predicate EndsInStop(s: string)
  {
    |s| >= 2 && s[|s| - 2] == '\\' && s[|s| - 1] == 'c'
  }

  /** The strings of `xs` with `sep` between neighbours. */
  function Join(xs: seq<string>, sep: string): string
  {
    if xs == [] then ""
    else if |xs| == 1 then xs[0]
    else xs[0] + sep + Join(xs[1..], sep)
  }

  /** What echo writes for the operands `args`, `suppress` being whether `-n`
      was given. */
  function EchoOutput(args: seq<string>, suppress: bool): string
  {
    if args == [] then (if suppress then "" else "\n")
    else
      var last := args[|args| - 1];
      var stop := EndsInStop(last);
      var shown := if stop then last[..|last| - 2] else last;
      Join(args[..|args| - 1] + [shown], " ") + (if suppress || stop then "" else "\n")
  }

  /** Each string of `xs` followed by one space, as the loop prints every
      operand but the last. */
  function Spaced(xs: seq<string>): string
  {
    if xs == [] then "" else Spaced(xs[..|xs| - 1]) + xs[|xs| - 1] + " "
  }

  /** `main` after option parsing: print the operands one at a time. The
      exit status is always 0. */
  method Echo(args: seq<string>, suppress: bool) returns (out: string, status: int)
    ensures out == EchoOutput(args, suppress)
    ensures args == [] ==> out == if suppress then "" else "\n"
    ensures status == 0
  {
    status := 0;
    if args == [] {
      out := if suppress then "" else "\n";
      return;
    }
    var suppressNewline := suppress;
    out := "";
    var i := 0;
    while i < |args|
      invariant i <= |args| && suppressNewline == suppress
      invariant i < |args| ==> out == Spaced(args[..i])
      invariant i == |args| ==> out == EchoOutput(args, suppress)
    {
      var elem := args[i];
      if i == |args| - 1 {
        var len := |elem|;
        if len >= 2 && elem[len - 2] == '\\' && elem[len - 1] == 'c' {
          elem := elem[..len - 2];
          suppressNewline := true;
        }
        LastOperand(args, suppress, out, elem, suppressNewline);
        if suppressNewline {
          out := out + elem;
        } else {
          out := out + elem + "\n";
        }
        return;
      } else {
        assert args[..i + 1][..i] == args[..i];
        out := out + elem + " ";
      }
      i := i + 1;
    }
  }

  /** The step of the loop at the last operand. */
  lemma LastOperand(args: seq<string>, suppress: bool, out: string, shown: string, cut: bool)
    requires args != [] && out == Spaced(args[..|args| - 1])
    requires var last := args[|args| - 1];
             && cut == (suppress || EndsInStop(last))
             && shown == if EndsInStop(last) then last[..|last| - 2] else last
    ensures EchoOutput(args, suppress) == out + shown + (if cut then "" else "\n")
  {
    SpacedJoin(args[..|args| - 1], shown);
  }

  /** Printing "x " for all but the last string and then the last string
      alone is joining them with single spaces. */
  lemma {:induction false} SpacedJoin(xs: seq<string>, y: string)
    ensures Spaced(xs) + y == Join(xs + [y], " ")
    decreases |xs|
  {
    if xs == [] {
      assert xs + [y] == [y];
    } else {
      var n := |xs|;
      SpacedSplit(xs);
      SpacedJoin(xs[1..], y);
      assert (xs + [y])[1..] == xs[1..] + [y];
      calc {
        Spaced(xs) + y;
        xs[0] + " " + Spaced(xs[1..]) + y;
        xs[0] + " " + (Spaced(xs[1..]) + y);
        xs[0] + " " + Join(xs[1..] + [y], " ");
        Join(xs + [y], " ");
      }
    }
  }

  /** Spaced, taken apart at the front. */
  lemma {:induction false} SpacedSplit(xs: seq<string>)
    requires xs != []
    ensures Spaced(xs) == xs[0] + " " + Spaced(xs[1..])
    decreases |xs|
  {
    if |xs| > 1 {
      var init := xs[..|xs| - 1];
      SpacedSplit(init);
      assert init[1..] == xs[1..][..|xs[1..]| - 1];
      assert init[0] == xs[0];
    } else {
      assert xs[..0] == [] && xs[1..] == [];
    }
  }

  /** Spaced, cut at any index. */
  lemma {:induction false} SpacedCut(xs: seq<string>, k: nat)
    requires k <= |xs|
    ensures Spaced(xs) == Spaced(xs[..k]) + Spaced(xs[k..])
    decreases |xs|
  {
    if k < |xs| {
      var init := xs[..|xs| - 1];
      SpacedCut(init, k);
      assert init[..k] == xs[..k];
      assert xs[k..][..|xs[k..]| - 1] == init[k..];
    } else {
      assert xs[..k] == xs;
    }
  }

  /** Every operand but the last is written verbatim, a `\c` in it included,
      and followed by exactly one space, at the offset where the operands
      before it end. */
  lemma OperandWritten(args: seq<string>, suppress: bool, i: nat)
    requires i + 1 < |args|
    ensures var at := |Spaced(args[..i])|;
            var out := EchoOutput(args, suppress);
            at + |args[i]| < |out| &&
            out[at..at + |args[i]| + 1] == args[i] + " "
  {
    var n := |args|;
    var last := args[n - 1];
    var shown := if EndsInStop(last) then last[..|last| - 2] else last;
    var tail := if suppress || EndsInStop(last) then "" else "\n";
    var init := args[..n - 1];
    LastOperand(args, suppress, Spaced(init), shown, suppress || EndsInStop(last));
    var a, b, c := Spaced(args[..i]), args[i] + " ", Spaced(init[i + 1..]);
    SpacedAt(init, i);
    assert init[..i] == args[..i];
    calc {
      EchoOutput(args, suppress);
      Spaced(init) + shown + tail;
      a + b + c + shown + tail;
      { Assoc4(a, b, c, shown, tail); }
      a + b + (c + shown + tail);
    }
    assert (a + b + (c + shown + tail))[|a|..|a| + |b|] == b;
  }

  /** Spaced, taken apart at the i-th string. */
  lemma SpacedAt(xs: seq<string>, i: nat)
    requires i < |xs|
    ensures Spaced(xs) == Spaced(xs[..i]) + (xs[i] + " ") + Spaced(xs[i + 1..])
  {
    SpacedCut(xs, i + 1);
    var p := xs[..i + 1];
    assert p[..i] == xs[..i] && p[i] == xs[i];
    SpacedLast(p);
    assert Spaced(xs[..i]) + xs[i] + " " == Spaced(xs[..i]) + (xs[i] + " ");
  }

  lemma SpacedLast(xs: seq<string>)
    requires xs != []
    ensures Spaced(xs) == Spaced(xs[..|xs| - 1]) + xs[|xs| - 1] + " "
  {
  }

  /** Regrouping a concatenation, proved apart from the large context of
      OperandWritten, where the same step as an inline assertion is much slower. */
  lemma Assoc4(a: string, b: string, c: string, d: string, e: string)
    ensures a + b + c + d + e == a + b + (c + d + e)
  {
  }

  /** The end of the output: a newline exactly when neither `-n` nor a final
      `\c` suppresses it, after the operands joined with single spaces, the
      final `\c` removed. */
  lemma EchoEnding(args: seq<string>, suppress: bool)
    requires args != []
    ensures var last := args[|args| - 1];
            var out := EchoOutput(args, suppress);
            && (!suppress && !EndsInStop(last) ==> out == Join(args, " ") + "\n")
            && (!EndsInStop(last) && suppress ==> out == Join(args, " "))
            && (EndsInStop(last) ==>
                  out + "\\c" == Join(args, " ") && |Join(args, " ")| >= 2)
  {
    var n := |args|;
    var last := args[n - 1];
    var init := args[..n - 1];
    assert init + [last] == args;
    SpacedJoin(init, last);
    if EndsInStop(last) {
      var shown := last[..|last| - 2];
      SpacedJoin(init, shown);
      assert shown + "\\c" == last;
      assert Spaced(init) + shown + "\\c" == Spaced(init) + last;
    }
  }
}
