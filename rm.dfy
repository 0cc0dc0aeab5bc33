/** rm up to the point where files are removed: the option flags, the
    screening of operands (the root directory, and operands whose last
    component is `.` or `..`, may not be removed) with illegal operands
    deleted from argv in place, and the reading of a yes/no answer. */
module Rm {
  import opened Sys

  // ---------------------------------------------------------------------
  // is_illegal

  datatype Invalid = RootDir | Dots

  /** The answers of the file system that is_illegal consults: whether
      stat("/") succeeds, and the operands whose lstat reports the device and
      inode of "/". */
  datatype RootView = RootView(statOk: bool, roots: set<string>)

  /** The verdict on one operand, and the operand as the caller's buffer holds
      it afterwards (trailing slashes cut off). */
  datatype Screened = Screened(illegal: Option<Invalid>, path: string)

  /** `p` with its trailing slashes cut off; the first character always stays. */
  function Trim(p: string): string
  {
    if |p| >= 2 && p[|p| - 1] == '/' then Trim(p[..|p| - 1]) else p
  }

  /** `t` is `p` less a run of trailing slashes, the longest one that leaves
      the first character in place. */
  ghost predicate SlashesTrimmed(p: string, t: string)
  {
    && t <= p
    && (p != [] ==> t != [])
    && (|t| <= 1 || t[|t| - 1] != '/')
    && forall i :: |t| <= i < |p| ==> p[i] == '/'
  }

  lemma {:induction false} TrimIsTrimmed(p: string)
    ensures SlashesTrimmed(p, Trim(p))
    decreases |p|
  {
    if |p| >= 2 && p[|p| - 1] == '/' {
      var q := p[..|p| - 1];
      TrimIsTrimmed(q);
      assert Trim(p) == Trim(q);
    }
  }

  /** Only one string is `p` trimmed, so Trim is exactly it. */
  lemma {:induction false} TrimUnique(p: string, t: string)
    requires SlashesTrimmed(p, t)
    ensures t == Trim(p)
    decreases |p|
  {
    if |p| >= 2 && p[|p| - 1] == '/' {
      var q := p[..|p| - 1];
      assert t <= q;
      TrimUnique(q, t);
    } else {
      assert |t| == |p|;
    }
  }

  /** The text after the last '/', or all of `t` when it has none. */
  function LastComponent(t: string): string
  {
    if t == [] || t[|t| - 1] == '/' then [] else LastComponent(t[..|t| - 1]) + [t[|t| - 1]]
  }

  /** The last component is a slash-free tail of `t`, preceded by a '/'
      unless it is all of `t`. */
  lemma {:induction false} LastComponentIsSuffix(t: string)
    ensures var c := LastComponent(t);
            && '/' !in c && |c| <= |t| && c == t[|t| - |c|..]
            && (|c| < |t| ==> t[|t| - |c| - 1] == '/')
    decreases |t|
  {
    if t != [] && t[|t| - 1] != '/' {
      var q := t[..|t| - 1];
      LastComponentIsSuffix(q);
      var c' := LastComponent(q);
      assert q[|q| - |c'|..] + [t[|t| - 1]] == t[|t| - |c'| - 1..];
    }
  }

  predicate IsDots(c: string)
  {
    c == "." || c == ".."
  }

  /** What is_illegal decides for `path`: nothing is illegal when stat("/")
      fails; the root directory is checked first, before any slash is cut. */
  function Screen(path: string, view: RootView): Screened
  {
    if !view.statOk then Screened(None, path)
    else if path in view.roots then Screened(Some(RootDir), path)
    else
      var t := Trim(path);
      Screened(if IsDots(LastComponent(t)) then Some(Dots) else None, t)
  }

  /** The root check comes first and sees the operand as given: when
      stat("/") fails nothing is illegal and nothing is cut, and an operand
      lstat finds to be "/" is refused as such whatever its last component. */
  lemma RootFirst(path: string, view: RootView)
    ensures !view.statOk ==> Screen(path, view) == Screened(None, path)
    ensures Screen(path, view).illegal == Some(RootDir) <==> view.statOk && path in view.roots
    ensures view.statOk && path in view.roots ==> Screen(path, view).path == path
    ensures Screen(path, view).illegal == Some(Dots) ==> IsDots(LastComponent(Screen(path, view).path))
  {
  }

  /** is_illegal: the root directory first, then the trailing slashes, then
      the last component. */
  method IsIllegal(path: string, view: RootView) returns (r: Screened)
    ensures r == Screen(path, view)
  {
    if !view.statOk {
      return Screened(None, path);
    }
    if path in view.roots {
      return Screened(Some(RootDir), path);
    }
    var end := TrimEnd(path);
    var t := path[..end];
    var c := LastComponent(t);
    var dots := (|c| == 1 && c[0] == '.') || (|c| == 2 && c[0] == '.' && c[1] == '.');
    DotsSpelled(c);
    r := Screened(if dots then Some(Dots) else None, t);
  }

  /** The loop that writes NULs over trailing slashes, walking back from the
      end but never onto the first character; the new length is returned. */
  method TrimEnd(path: string) returns (end: nat)
    ensures end <= |path| && path[..end] == Trim(path)
  {
    end := |path|;
    assert path[..end] == path;
    while end > 1 && path[end - 1] == '/'
      invariant end <= |path|
      invariant Trim(path[..end]) == Trim(path)
    {
      TrimStep(path, end);
      end := end - 1;
    }
  }

  lemma TrimStep(path: string, end: nat)
    requires 1 < end <= |path| && path[end - 1] == '/'
    ensures Trim(path[..end]) == Trim(path[..end - 1])
  {
    assert path[..end][..end - 1] == path[..end - 1];
  }

  /** The character tests of is_illegal spell out "." and "..". */
  lemma DotsSpelled(c: string)
    ensures IsDots(c) <==> (|c| == 1 && c[0] == '.') || (|c| == 2 && c[0] == '.' && c[1] == '.')
  {
  }

  /** `n` slashes. */
  function Slashes(n: nat): (s: string)
    ensures |s| == n && forall i :: 0 <= i < n ==> s[i] == '/'
  {
    if n == 0 then [] else Slashes(n - 1) + ['/']
  }

  /** An operand naming `name` inside `dir` (which is empty or ends with a
      slash), with any number of trailing slashes: it is refused exactly when
      `name` is `.` or `..`, so `.x` and `...` pass, and the caller is left
      with the operand less its trailing slashes. */
  lemma NameScreen(dir: string, name: string, n: nat, view: RootView)
    requires dir == [] || dir[|dir| - 1] == '/'
    requires name != [] && '/' !in name
    requires view.statOk && dir + name + Slashes(n) !in view.roots
    ensures Screen(dir + name + Slashes(n), view) ==
              Screened(if IsDots(name) then Some(Dots) else None, dir + name)
  {
    var p := dir + name + Slashes(n);
    var t := dir + name;
    assert t[|t| - 1] == name[|name| - 1];
    assert p[..|t|] == t;
    TrimUnique(p, t);
    ComponentAfterSlash(dir, name);
  }

  /** The last component of a path that ends in a slash-free name after a
      slash (or no slash at all) is that name. */
  lemma ComponentAfterSlash(dir: string, name: string)
    requires dir == [] || dir[|dir| - 1] == '/'
    requires '/' !in name
    ensures LastComponent(dir + name) == name
  {
    var t := dir + name;
    LastComponentIsSuffix(t);
    SlashFreeSuffix(dir, name, t, LastComponent(t));
  }

  /** The only slash-free suffix of `dir + name` that is the whole string or
      follows a slash is `name`. */
  lemma SlashFreeSuffix(dir: string, name: string, t: string, c: string)
    requires dir == [] || dir[|dir| - 1] == '/'
    requires '/' !in name && t == dir + name
    requires '/' !in c && |c| <= |t| && c == t[|t| - |c|..]
    requires |c| < |t| ==> t[|t| - |c| - 1] == '/'
    ensures c == name
  {
    var k := |c|;
    assert forall j :: |dir| <= j < |t| ==> t[j] != '/' by {
      forall j | |dir| <= j < |t| ensures t[j] != '/' {
        assert t[j] == name[j - |dir|];
      }
    }
    assert k >= |name|;
    NoSlashAtEnd(t, c);
    assert dir != [] ==> t[|dir| - 1] == '/';
    assert k == |name|;
  }

  lemma NoSlashAtEnd(t: string, c: string)
    requires |c| <= |t| && c == t[|t| - |c|..] && '/' !in c
    ensures forall j :: |t| - |c| <= j < |t| ==> t[j] != '/'
  {
    forall j | |t| - |c| <= j < |t| ensures t[j] != '/' {
      assert t[j] == c[j - (|t| - |c|)];
    }
  }

  // ---------------------------------------------------------------------
  // delete_argv_at and the operand filter

  /** delete_argv_at: shift the entries after `i` down by one, shorten argv by
      one and put the NULL at the new end. */
  method DeleteAt(argv: array<Option<string>>, argc: nat, i: nat) returns (argc': nat)
    requires i < argc < argv.Length
    modifies argv
    ensures argc' == argc - 1
    ensures forall k :: 0 <= k < i ==> argv[k] == old(argv[k])
    ensures forall k :: i <= k < argc' ==> argv[k] == old(argv[k + 1])
    ensures argv[argc'] == None
    ensures forall k :: argc <= k < argv.Length ==> argv[k] == old(argv[k])
  {
    var j := i + 1;
    while j < argc
      invariant i + 1 <= j <= argc
      invariant forall k :: 0 <= k < i ==> argv[k] == old(argv[k])
      invariant forall k :: i <= k < j - 1 ==> argv[k] == old(argv[k + 1])
      invariant forall k :: j - 1 <= k < argv.Length ==> argv[k] == old(argv[k])
    {
      argv[j - 1] := argv[j];
      j := j + 1;
    }
    argc' := argc - 1;
    argv[argc'] := None;
  }

  /** What stays of one operand. */
  function KeptOne(o: Option<string>, view: RootView): seq<Option<string>>
  {
    match o
    case None => [o]
    case Some(p) =>
      var s := Screen(p, view);
      if s.illegal.Some? then [] else [Some(s.path)]
  }

  /** The operands that survive screening, in their original order, each as
      is_illegal left it. */
  function Kept(ops: seq<Option<string>>, view: RootView): seq<Option<string>>
  {
    if ops == [] then [] else Kept(ops[..|ops| - 1], view) + KeptOne(ops[|ops| - 1], view)
  }

  /** Every operand of argv is a string. */
  predicate Operands(a: seq<Option<string>>)
  {
    forall k :: 0 <= k < |a| ==> a[k].Some?
  }

  /** The filter loop of `main`: it advances past a legal operand and stays
      in place after deleting an illegal one. `ret` becomes 1 once anything
      was deleted. */
  method FilterOperands(argv: array<Option<string>>, argc: nat, optind: nat, view: RootView)
    returns (argc': nat, ret: int)
    requires optind <= argc < argv.Length && argv[argc] == None
    requires Operands(argv[optind..argc])
    modifies argv
    ensures optind <= argc' <= argc
    ensures argv[..optind] == old(argv[..optind])
    ensures argv[optind..argc'] == Kept(old(argv[optind..argc]), view)
    ensures forall k :: argc' <= k <= argc ==> argv[k] == None
    ensures argv[argc + 1..] == old(argv[argc + 1..])
    ensures ret == if argc' < argc then 1 else 0
  {
    ghost var orig := argv[..];
    ghost var seen: nat := optind;
    ghost var kept: seq<Option<string>> := [];
    argc' := argc;
    ret := 0;
    var i: nat := optind;
    FilterStart(orig, optind, argc);
    assert orig[optind..optind] == [];
    while i < argc'
      invariant FilterInv(argv[..], orig, optind, i, seen, argc', argc, kept)
      invariant kept == Kept(orig[optind..seen], view)
      invariant ret == if argc' < argc then 1 else 0
      decreases argc' - i
    {
      var dropped;
      i, argc', dropped, kept := FilterStep(argv, orig, optind, i, seen, argc', argc, kept, view);
      if dropped {
        ret := 1;
      }
      seen := seen + 1;
    }
    FilterEnd(argv[..], orig, optind, i, seen, argc', argc, kept);
  }

  /** One turn of the filter loop: delete the operand under the cursor if it
      is illegal, otherwise store it as is_illegal left it and move on. */
  method FilterStep(argv: array<Option<string>>, ghost orig: seq<Option<string>>, optind: nat, i: nat,
                    ghost seen: nat, n: nat, argc: nat, ghost kept: seq<Option<string>>, view: RootView)
    returns (i': nat, n': nat, dropped: bool, ghost kept': seq<Option<string>>)
    requires FilterInv(argv[..], orig, optind, i, seen, n, argc, kept) && i < n
    requires Operands(orig[optind..argc])
    requires kept == Kept(orig[optind..seen], view)
    modifies argv
    ensures FilterInv(argv[..], orig, optind, i', seen + 1, n', argc, kept')
    ensures kept' == Kept(orig[optind..seen + 1], view)
    ensures dropped ==> i' == i && n' == n - 1
    ensures !dropped ==> i' == i + 1 && n' == n
  {
    FilterOperand(argv[..], orig, optind, i, seen, n, argc, kept);
    KeptStep(orig, optind, seen, view);
    var r := IsIllegal(argv[i].value, view);
    if r.illegal.Some? {
      n' := DropOperand(argv, orig, optind, i, seen, n, argc, kept);
      i', dropped, kept' := i, true, kept;
    } else {
      StoreOperand(argv, orig, optind, i, seen, n, argc, kept, r.path);
      i', n', dropped, kept' := i + 1, n, false, kept + [Some(r.path)];
    }
  }

  /** The illegal operand under the cursor is deleted from argv. */
  method DropOperand(argv: array<Option<string>>, ghost orig: seq<Option<string>>, optind: nat, i: nat,
                     ghost seen: nat, n: nat, argc: nat, ghost kept: seq<Option<string>>)
    returns (n': nat)
    requires FilterInv(argv[..], orig, optind, i, seen, n, argc, kept) && i < n
    modifies argv
    ensures n' == n - 1 && FilterInv(argv[..], orig, optind, i, seen + 1, n', argc, kept)
  {
    ghost var before := argv[..];
    n' := DeleteAt(argv, n, i);
    FilterDrop(before, argv[..], orig, optind, i, seen, n, argc, kept);
  }

  /** The legal operand under the cursor is replaced by `p`, the operand as
      is_illegal left it. */
  method StoreOperand(argv: array<Option<string>>, ghost orig: seq<Option<string>>, optind: nat, i: nat,
                      ghost seen: nat, n: nat, argc: nat, ghost kept: seq<Option<string>>, p: string)
    requires FilterInv(argv[..], orig, optind, i, seen, n, argc, kept) && i < n
    modifies argv
    ensures FilterInv(argv[..], orig, optind, i + 1, seen + 1, n, argc, kept + [Some(p)])
  {
    ghost var before := argv[..];
    argv[i] := Some(p);
    FilterKeep(before, orig, optind, i, seen, n, argc, kept, p);
  }

  /** The state of the filter loop: `a` is argv now and `orig` argv before it,
      the operands `orig[optind..seen]` have been screened into
      `a[optind..i]`, which holds `kept`, those still to be screened sit
      unchanged in `a[i..n]`, every slot a deletion freed holds NULL, and
      nothing outside the operands has changed. */
  ghost predicate FilterInv(a: seq<Option<string>>, orig: seq<Option<string>>, optind: nat, i: nat,
                            seen: nat, n: nat, argc: nat, kept: seq<Option<string>>)
  {
    && optind <= i <= n <= argc < |a| == |orig|
    && optind <= seen <= argc && n - i == argc - seen
    && (forall k :: 0 <= k < optind ==> a[k] == orig[k])
    && a[optind..i] == kept
    && a[i..n] == orig[seen..argc]
    && (forall k :: n <= k <= argc ==> a[k] == None)
    && (forall k :: argc < k < |a| ==> a[k] == orig[k])
  }

  lemma FilterStart(a: seq<Option<string>>, optind: nat, argc: nat)
    requires optind <= argc < |a| && a[argc] == None
    ensures FilterInv(a, a, optind, optind, optind, argc, argc, [])
  {
    assert a[optind..optind] == [];
  }

  /** The operand under the cursor is the next original one, and a string. */
  lemma FilterOperand(a: seq<Option<string>>, orig: seq<Option<string>>, optind: nat, i: nat,
                      seen: nat, n: nat, argc: nat, kept: seq<Option<string>>)
    requires FilterInv(a, orig, optind, i, seen, n, argc, kept) && i < n
    requires Operands(orig[optind..argc])
    ensures seen < argc && a[i] == orig[seen] && a[i].Some?
  {
    assert orig[seen] == orig[optind..argc][seen - optind];
    assert a[i] == a[i..n][0];
  }

  /** After deleting an operand the cursor stays where it is. */
  lemma FilterDrop(before: seq<Option<string>>, after: seq<Option<string>>, orig: seq<Option<string>>,
                   optind: nat, i: nat, seen: nat, n: nat, argc: nat, kept: seq<Option<string>>)
    requires FilterInv(before, orig, optind, i, seen, n, argc, kept) && i < n
    requires |after| == |before|
    requires forall k :: 0 <= k < i ==> after[k] == before[k]
    requires forall k :: i <= k < n - 1 ==> after[k] == before[k + 1]
    requires after[n - 1] == None
    requires forall k :: n <= k < |after| ==> after[k] == before[k]
    ensures FilterInv(after, orig, optind, i, seen + 1, n - 1, argc, kept)
  {
    assert after[optind..i] == before[optind..i];
    assert after[i..n - 1] == before[i..n][1..];
  }

  /** After storing an operand `p` the cursor moves on. */
  lemma FilterKeep(before: seq<Option<string>>, orig: seq<Option<string>>, optind: nat, i: nat,
                   seen: nat, n: nat, argc: nat, kept: seq<Option<string>>, p: string)
    requires FilterInv(before, orig, optind, i, seen, n, argc, kept) && i < n
    ensures FilterInv(before[i := Some(p)], orig, optind, i + 1, seen + 1, n, argc, kept + [Some(p)])
  {
    var after := before[i := Some(p)];
    assert after[optind..i + 1] == before[optind..i] + [after[i]];
    assert after[i + 1..n] == before[i..n][1..];
  }

  /** When the cursor meets the end every operand has been screened. */
  lemma FilterEnd(a: seq<Option<string>>, orig: seq<Option<string>>, optind: nat, i: nat,
                  seen: nat, n: nat, argc: nat, kept: seq<Option<string>>)
    requires FilterInv(a, orig, optind, i, seen, n, argc, kept) && i == n
    ensures seen == argc
    ensures a[..optind] == orig[..optind]
    ensures a[optind..n] == kept
    ensures forall k :: n <= k <= argc ==> a[k] == None
    ensures a[argc + 1..] == orig[argc + 1..]
  {
  }

  /** One more operand screened. */
  lemma KeptStep(orig: seq<Option<string>>, optind: nat, seen: nat, view: RootView)
    requires optind <= seen < |orig|
    ensures Kept(orig[optind..seen + 1], view) == Kept(orig[optind..seen], view) + KeptOne(orig[seen], view)
  {
    var s := orig[optind..seen + 1];
    assert s[..|s| - 1] == orig[optind..seen] && s[|s| - 1] == orig[seen];
    KeptLast(s, view);
  }

  lemma KeptLast(s: seq<Option<string>>, view: RootView)
    requires s != []
    ensures Kept(s, view) == Kept(s[..|s| - 1], view) + KeptOne(s[|s| - 1], view)
  {
  }

  /** is_illegal lets the operand through (an absent one is not screened). */
  predicate Legal(o: Option<string>, view: RootView)
  {
    o.None? || Screen(o.value, view).illegal.None?
  }

  /** Screening never adds operands, and keeps all of them exactly when none
      is illegal: `ret` is 1 iff some operand was removed. */
  lemma {:induction false} KeptLength(ops: seq<Option<string>>, view: RootView)
    ensures |Kept(ops, view)| <= |ops|
    ensures |Kept(ops, view)| == |ops| <==> forall k :: 0 <= k < |ops| ==> Legal(ops[k], view)
  {
    if ops != [] {
      var init := ops[..|ops| - 1];
      KeptLength(init, view);
      LegalSplit(ops, init, view);
    }
  }

  lemma LegalSplit(ops: seq<Option<string>>, init: seq<Option<string>>, view: RootView)
    requires ops != [] && init == ops[..|ops| - 1]
    ensures |KeptOne(ops[|ops| - 1], view)| == if Legal(ops[|ops| - 1], view) then 1 else 0
    ensures (forall k :: 0 <= k < |ops| ==> Legal(ops[k], view)) <==>
              (forall k :: 0 <= k < |init| ==> Legal(init[k], view)) && Legal(ops[|ops| - 1], view)
  {
    assert forall k :: 0 <= k < |init| ==> init[k] == ops[k];
  }

  /** When stat("/") fails nothing is deleted and nothing is cut. */
  lemma {:induction false} KeptWithoutRoot(ops: seq<Option<string>>, view: RootView)
    requires !view.statOk
    ensures Kept(ops, view) == ops
  {
    if ops != [] {
      KeptWithoutRoot(ops[..|ops| - 1], view);
      assert ops[..|ops| - 1] + [ops[|ops| - 1]] == ops;
    }
  }

  /** Screening works operand by operand: the order of the survivors is the
      order of the operands. */
  lemma {:induction false} KeptAppend(a: seq<Option<string>>, b: seq<Option<string>>, view: RootView)
    ensures Kept(a + b, view) == Kept(a, view) + Kept(b, view)
    decreases |b|
  {
    if b == [] {
      assert a + b == a;
    } else {
      var init := b[..|b| - 1];
      assert (a + b)[..|a + b| - 1] == a + init;
      assert (a + b)[|a + b| - 1] == b[|b| - 1];
      KeptAppend(a, init, view);
    }
  }

  // ---------------------------------------------------------------------
  // flags and the start of main

  /** The global `flags` struct. */
  class RmFlags {
    var d: bool
    var f: bool
    var i: bool
    var r: bool
    var v: bool

    constructor ()
      ensures !d && !f && !i && !r && !v
    {
      d, f, i, r, v := false, false, false, false, false;
    }

    /** One option character from getopt for "dfirv". Returns false for a
        character without a case, which leads to the usage message. */
    method Set(ch: char) returns (known: bool)
      modifies this
      ensures known <==> ch in "dfirv"
      ensures d == (old(d) || ch == 'd') && f == (old(f) || ch == 'f') && i == (old(i) || ch == 'i')
      ensures r == (old(r) || ch == 'r') && v == (old(v) || ch == 'v')
    {
      known := true;
      match ch
      case 'd' => d := true;
      case 'f' => f := true;
      case 'i' => i := true;
      case 'r' => r := true;
      case 'v' => v := true;
      case _ => known := false;
    }

    /** `-f` overrides `-i`. */
    method Reconcile()
      modifies this
      ensures i == (old(i) && !old(f))
      ensures d == old(d) && f == old(f) && r == old(r) && v == old(v)
    {
      if f && i {
        i := false;
      }
    }
  }

  /** How `main` goes on after screening: the usage message (exit status 1),
      an exit with `ret` because no operand is left, or removal of what is
      left. */
  datatype RmStart = UsageExit | Finished(ret: int) | Proceed(ret: int)

  /** The getopt loop of `main` over the option characters `opts`: it stops
      at the first character without a case, which leads to the usage
      message, and otherwise turns on the flag of every character. */
  method ReadOptions(flags: RmFlags, opts: seq<char>) returns (ok: bool)
    modifies flags
    ensures ok <==> forall k :: 0 <= k < |opts| ==> opts[k] in "dfirv"
    ensures ok ==> && flags.d == (old(flags.d) || 'd' in opts) && flags.f == (old(flags.f) || 'f' in opts)
                   && flags.i == (old(flags.i) || 'i' in opts) && flags.r == (old(flags.r) || 'r' in opts)
                   && flags.v == (old(flags.v) || 'v' in opts)
  {
    var k := 0;
    while k < |opts|
      invariant k <= |opts|
      invariant forall j :: 0 <= j < k ==> opts[j] in "dfirv"
      invariant flags.d == (old(flags.d) || 'd' in opts[..k]) && flags.f == (old(flags.f) || 'f' in opts[..k])
      invariant flags.i == (old(flags.i) || 'i' in opts[..k]) && flags.r == (old(flags.r) || 'r' in opts[..k])
      invariant flags.v == (old(flags.v) || 'v' in opts[..k])
    {
      var known := flags.Set(opts[k]);
      if !known {
        return false;
      }
      assert opts[..k + 1] == opts[..k] + [opts[k]];
      k := k + 1;
    }
    assert opts[..k] == opts;
    return true;
  }

  /** `main` up to the removal loop: the option loop, the usage check, the
      reconciliation of `-f` and `-i`, the operand filter, and the early
      return when no operand is left. */
  method Prepare(flags: RmFlags, opts: seq<char>, argv: array<Option<string>>, argc: nat, optind: nat,
                 view: RootView)
    returns (o: RmStart, argc': nat)
    requires !flags.d && !flags.f && !flags.i && !flags.r && !flags.v
    requires optind <= argc < argv.Length && argv[argc] == None
    requires Operands(argv[optind..argc])
    modifies flags, argv
    ensures o.UsageExit? <==> (exists k :: 0 <= k < |opts| && opts[k] !in "dfirv") || (optind == argc && 'f' !in opts)
    ensures !o.UsageExit? ==>
              && flags.d == ('d' in opts) && flags.f == ('f' in opts) && flags.r == ('r' in opts)
              && flags.v == ('v' in opts) && flags.i == ('i' in opts && 'f' !in opts)
    ensures !o.UsageExit? ==> optind <= argc' <= argc
    ensures !o.UsageExit? ==> argv[optind..argc'] == Kept(old(argv[optind..argc]), view)
    ensures !o.UsageExit? ==> o.ret == if argc' < argc then 1 else 0
    ensures o.Finished? <==> !o.UsageExit? && argc' == optind
  {
    argc' := argc;
    var ok := ReadOptions(flags, opts);
    if !ok {
      return UsageExit, argc';
    }
    if optind >= argc && !flags.f {
      return UsageExit, argc';
    }
    flags.Reconcile();
    ghost var ops := argv[optind..argc];
    var ret;
    argc', ret := FilterOperands(argv, argc, optind, view);
    KeptSome(ops, view);
    FirstLeft(argv[..], optind, argc', argc, Kept(ops, view));
    if argv[optind] == None {
      return Finished(ret), argc';
    }
    return Proceed(ret), argc';
  }

  /** `argv[optind]` is NULL exactly when no operand is left. */
  lemma FirstLeft(a: seq<Option<string>>, optind: nat, n: nat, argc: nat, left: seq<Option<string>>)
    requires optind <= n <= argc < |a| && a[optind..n] == left && Operands(left)
    requires forall k :: n <= k <= argc ==> a[k] == None
    ensures a[optind].None? <==> n == optind
  {
    if n > optind {
      assert a[optind] == left[0];
    }
  }

  /** Screened operands are still strings. */
  lemma {:induction false} KeptSome(ops: seq<Option<string>>, view: RootView)
    requires Operands(ops)
    ensures Operands(Kept(ops, view))
  {
    if ops != [] {
      var init := ops[..|ops| - 1];
      assert Operands(init) by {
        forall k | 0 <= k < |init| ensures init[k].Some? {
          assert init[k] == ops[k];
        }
      }
      KeptSome(init, view);
    }
  }

  // ---------------------------------------------------------------------
  // The answer to a prompt

  const EOF: int := -1

  /** Standard input: the characters still to be read. */
  class Input {
    var pending: seq<char>

    constructor (pending: seq<char>)
      ensures this.pending == pending
    {
      this.pending := pending;
    }

    /** getchar: the next character, or EOF once the input is used up. */
    method GetChar() returns (c: int)
      modifies this
      ensures old(pending) == [] ==> c == EOF && pending == []
      ensures old(pending) != [] ==> c == old(pending)[0] as int && pending == old(pending)[1..]
    {
      if pending == [] {
        c := EOF;
      } else {
        c := pending[0] as int;
        pending := pending[1..];
      }
    }
  }

  /** The line an answer occupies: up to and including the first newline,
      or all of the input when it has none. */
  function AnswerLine(s: seq<char>): (line: seq<char>)
    ensures line <= s
    ensures line == s || (line != [] && line[|line| - 1] == '\n')
    ensures forall k :: 0 <= k < |line| - 1 ==> line[k] != '\n'
  {
    if s == [] then []
    else if s[0] == '\n' then [s[0]]
    else
      var rest := AnswerLine(s[1..]);
      assert [s[0]] + rest <= s;
      [s[0]] + rest
  }

  /** The end of `check`: the answer is yes exactly when its first character
      is 'y' or 'Y', and the rest of its line is read and dropped. */
  method ReadAnswer(stdin: Input) returns (yes: bool)
    modifies stdin
    ensures yes <==> old(stdin.pending) != [] && old(stdin.pending)[0] in "yY"
    ensures old(stdin.pending) == AnswerLine(old(stdin.pending)) + stdin.pending
  {
    ghost var s0 := stdin.pending;
    var first := stdin.GetChar();
    ghost var read: seq<char> := [];
    if s0 != [] {
      AnswerStep([], s0);
      read := [s0[0]];
    }
    var ch := first;
    while ch != '\n' as int && ch != EOF
      invariant s0 == read + stdin.pending
      invariant ch == '\n' as int || ch == EOF ==> AnswerLine(s0) == read
      invariant ch != '\n' as int && ch != EOF ==> AnswerLine(s0) == read + AnswerLine(stdin.pending)
      decreases |stdin.pending| + if ch == EOF then 0 else 1
    {
      ghost var before := stdin.pending;
      ch := stdin.GetChar();
      if before != [] {
        AnswerStep(read, before);
        read := read + [before[0]];
      }
    }
    yes := first == 'y' as int || first == 'Y' as int;
  }

  /** One character of the answer's line read. */
  lemma AnswerStep(read: seq<char>, rest: seq<char>)
    requires rest != []
    ensures read + rest == (read + [rest[0]]) + rest[1..]
    ensures AnswerLine(rest) == if rest[0] == '\n' then [rest[0]] else [rest[0]] + AnswerLine(rest[1..])
  {
  }
}
