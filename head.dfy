/** head: the count options, the choice of mode, and `stream_copy`, which
    copies from a descriptor to standard output. In line mode it writes the
    input up to and including the N-th newline, as POSIX.1-2017 `head -n`
    requires. */
module Head {
  import opened Sys
  import opened LibC
  import opened CountParse
  import opened Io

  // ---------------------------------------------------------------------
  // What line mode must produce

  /** The first `n` lines of `s`: everything up to and including the n-th
      newline, or all of `s` when it has fewer newlines. */
  function HeadLines(s: seq<byte>, n: nat): (r: seq<byte>)
    decreases |s|
  {
    if n == 0 || s == [] then []
    else [s[0]] + HeadLines(s[1..], if s[0] == NL then n - 1 else n)
  }

  /** The declarative reading: `p` is the prefix of `s` that ends at its n-th
      newline, or all of `s` when there are fewer than n. */
  ghost predicate LinePrefix(p: seq<byte>, s: seq<byte>, n: nat)
  {
    && p <= s
    && if Newlines(s) < n then p == s
       else Newlines(p) == n && (p == [] || p[|p| - 1] == NL)
  }

  lemma {:induction false} HeadLinesIsLinePrefix(s: seq<byte>, n: nat)
    ensures LinePrefix(HeadLines(s, n), s, n)
    decreases |s|
  {
    if n != 0 && s != [] {
      var n' := if s[0] == NL then n - 1 else n;
      HeadLinesIsLinePrefix(s[1..], n');
      var r := HeadLines(s, n);
      var r' := HeadLines(s[1..], n');
      assert r == [s[0]] + r';
      if r' != [] {
        assert r[1..] == r';
      }
    }
  }

  /** Only one prefix satisfies LinePrefix, so HeadLines is exactly it. */
  lemma {:induction false} LinePrefixUnique(p: seq<byte>, s: seq<byte>, n: nat)
    requires LinePrefix(p, s, n)
    ensures p == HeadLines(s, n)
    decreases |s|
  {
    LastNewlineCounted(p);
    if n != 0 && s != [] {
      assert p != [];
      var n' := if s[0] == NL then n - 1 else n;
      assert p[0] == s[0];
      assert p[1..] <= s[1..];
      LastNewlineCounted(p[1..]);
      if p[1..] != [] {
        assert p[1..][|p[1..]| - 1] == p[|p| - 1];
      }
      LinePrefixUnique(p[1..], s[1..], n');
      assert p == [p[0]] + p[1..];
    }
  }

  lemma LastNewlineCounted(p: seq<byte>)
    ensures p != [] && p[|p| - 1] == NL ==> Newlines(p) > 0
  {
    if p != [] {
      assert p == p[..|p| - 1] + [p[|p| - 1]];
      NewlinesAppend(p[..|p| - 1], [p[|p| - 1]]);
    }
  }

  /** Splitting the input anywhere: the first part contributes its own head,
      and the rest contributes only the lines still wanted. */
  lemma {:induction false} HeadLinesAppend(x: seq<byte>, y: seq<byte>, n: nat)
    ensures HeadLines(x + y, n) == HeadLines(x, n) + HeadLines(y, n - Min(n, Newlines(x)))
    decreases |x|
  {
    if x == [] {
      assert x + y == y;
    } else if n == 0 {
    } else {
      var n' := if x[0] == NL then n - 1 else n;
      assert (x + y)[0] == x[0] && (x + y)[1..] == x[1..] + y;
      HeadLinesAppend(x[1..], y, n');
    }
  }

  /** When `x` holds fewer than n newlines, or exactly n and ends with one,
      all of it is part of the head of anything that starts with it. */
  lemma HeadLinesKeeps(x: seq<byte>, y: seq<byte>, n: nat)
    requires Newlines(x) < n || (Newlines(x) == n && (x == [] || x[|x| - 1] == NL))
    ensures HeadLines(x, n) == x
    ensures HeadLines(x + y, n) == x + HeadLines(y, n - Newlines(x))
  {
    LinePrefixUnique(x, x, n);
    HeadLinesAppend(x, y, n);
  }

  // ---------------------------------------------------------------------
  // What line mode does with a script of reads

  /** The outcome of line mode when every write succeeds: the bytes written,
      the number of read(2) replies consumed, and whether it stopped on a
      failed read. */
  datatype LineRun = LineRun(output: seq<byte>, consumed: nat, failed: bool)

  /** Line mode with `m` lines still wanted: no read once m lines are out,
      a retry after EINTR, a stop at end of input or on any other failure,
      and from each chunk the lines still wanted. */
  function LineCopy(replies: seq<ReadReply>, m: nat): (r: LineRun)
    ensures r.consumed <= |replies|
    ensures r.failed ==> r.consumed > 0
  {
    if m == 0 || replies == [] then LineRun([], 0, false)
    else match replies[0]
      case Data(b) =>
        if b == [] then LineRun([], 1, false)
        else
          var t := LineCopy(replies[1..], m - Min(m, Newlines(b)));
          LineRun(HeadLines(b, m) + t.output, 1 + t.consumed, t.failed)
      case ReadError(e) =>
        if e == EINTR then
          var t := LineCopy(replies[1..], m);
          LineRun(t.output, 1 + t.consumed, t.failed)
        else LineRun([], 1, true)
  }

  /** Chunk by chunk, line mode writes exactly the first m lines of the data
      the reads deliver. */
  lemma {:induction false} LineCopyHead(replies: seq<ReadReply>, m: nat)
    ensures LineCopy(replies, m).output == HeadLines(StreamData(replies), m)
  {
    if m != 0 && replies != [] {
      match replies[0]
      case Data(b) =>
        if b != [] {
          LineCopyHead(replies[1..], m - Min(m, Newlines(b)));
          HeadLinesAppend(b, StreamData(replies[1..]), m);
        }
      case ReadError(e) =>
        if e == EINTR {
          LineCopyHead(replies[1..], m);
        }
    }
  }

  /** No read is wasted: the data of every reply before the last one consumed
      holds fewer than n newlines. */
  lemma {:induction false} LastReadNeeded(replies: seq<ReadReply>, n: nat)
    requires LineCopy(replies, n).consumed > 0
    ensures Newlines(StreamData(replies[..LineCopy(replies, n).consumed - 1])) < n
  {
    var k := LineCopy(replies, n).consumed;
    if k == 1 {
      assert replies[..0] == [];
    } else {
      var rest := replies[1..];
      assert replies[..k - 1] == [replies[0]] + rest[..k - 2];
      assert ([replies[0]] + rest[..k - 2])[1..] == rest[..k - 2];
      match replies[0]
      case Data(b) =>
        var m := n - Min(n, Newlines(b));
        assert k == 1 + LineCopy(rest, m).consumed;
        LastReadNeeded(rest, m);
        assert StreamData(replies[..k - 1]) == b + StreamData(rest[..k - 2]);
        NewlinesAppend(b, StreamData(rest[..k - 2]));
        assert Newlines(StreamData(replies[..k - 1])) < Newlines(b) + m == n;
      case ReadError(e) =>
        assert k == 1 + LineCopy(rest, n).consumed;
        LastReadNeeded(rest, n);
        assert StreamData(replies[..k - 1]) == StreamData(rest[..k - 2]);
    }
  }

  // ---------------------------------------------------------------------
  // stream_copy

  datatype Mode = ModeLines | ModeBytes | ModeDefault

  /** count_t: the mode and the number of lines or bytes. */
  datatype Count = Count(mode: Mode, amount: nat)

  datatype CopyStatus = Copied | ReadFailed(errno: int) | WriteFailed(errno: int)

  /** memchr: the first index at or after `from` holding `c`. */
  function MemChr(b: seq<byte>, from: nat, c: byte): (r: Option<nat>)
    requires from <= |b|
    ensures r.Some? ==> from <= r.value < |b| && b[r.value] == c && c !in b[from..r.value]
    ensures r.None? ==> c !in b[from..]
    decreases |b| - from
  {
    if from == |b| then None
    else if b[from] == c then Some(from)
    else
      var r := MemChr(b, from + 1, c);
      assert b[from..] == [b[from]] + b[from + 1..];
      if r.Some? then
        assert b[from..r.value] == [b[from]] + b[from + 1..r.value];
        r
      else r
  }

  /** The buffers line mode hands to write_all for one chunk `b`, from
      offset `pos` on, with m lines still wanted: each line up to and
      including its newline while fewer than m are out, then the
      unterminated rest if lines are still wanted. Together they are the
      first m lines of what is left of the chunk. */
  function LineWrites(b: seq<byte>, pos: nat, m: nat): (r: seq<seq<byte>>)
    requires pos <= |b|
    decreases |b| - pos
  {
    match MemChr(b, pos, NL)
    case Some(i) => if m == 0 then [] else [b[pos..i + 1]] + LineWrites(b, i + 1, m - 1)
    case None => if m > 0 && pos < |b| then [b[pos..]] else []
  }

  /** Together the buffers of LineWrites are the first m lines of what is
      left of the chunk. */
  lemma {:induction false} LineWritesJoin(b: seq<byte>, pos: nat, m: nat)
    requires pos <= |b|
    ensures Concat(LineWrites(b, pos, m)) == HeadLines(b[pos..], m)
    decreases |b| - pos
  {
    match MemChr(b, pos, NL)
    case Some(i) =>
      if m == 0 {
        assert LineWrites(b, pos, m) == [];
      } else {
        LineWritesJoin(b, i + 1, m - 1);
        JoinLineStep(b, pos, i, m);
      }
    case None =>
      JoinTailStep(b, pos, m);
  }

  /** One line of LineWritesJoin: the line up to the newline, then the
      lines after it. */
  lemma JoinLineStep(b: seq<byte>, pos: nat, i: nat, m: nat)
    requires pos <= |b| && MemChr(b, pos, NL) == Some(i) && m > 0
    requires Concat(LineWrites(b, i + 1, m - 1)) == HeadLines(b[i + 1..], m - 1)
    ensures Concat(LineWrites(b, pos, m)) == HeadLines(b[pos..], m)
  {
    LineWritesNext(b, pos, i, m);
    LineAt(b, pos, i + 1, m);
  }

  /** The end of LineWritesJoin: no newline follows `pos`. */
  lemma JoinTailStep(b: seq<byte>, pos: nat, m: nat)
    requires pos <= |b| && MemChr(b, pos, NL) == None
    ensures Concat(LineWrites(b, pos, m)) == HeadLines(b[pos..], m)
  {
    var r := LineWrites(b, pos, m);
    if m > 0 && pos < |b| {
      NewlinesZero(b[pos..]);
      HeadLinesKeeps(b[pos..], [], m);
      assert r == [b[pos..]] && r[1..] == [];
    } else {
      assert r == [];
    }
  }

  /** The write_all calls of one chunk, from offset `pos` on with m lines
      still wanted, over the script `replies`: write_all on each buffer
      LineWrites names, in turn, stopping at the first that fails. How they
      end, how many bytes of the chunk from `pos` on get written and how
      many replies they consume. */
  function ChunkWrites(replies: seq<WriteReply>, b: seq<byte>, pos: nat, m: nat): (r: WriteRun)
    requires pos <= |b|
    ensures r.consumed <= |replies| && r.written <= |b| - pos
  {
    WriteEachBounds(replies, LineWrites(b, pos, m));
    LineWritesJoin(b, pos, m);
    HeadLinesIsLinePrefix(b[pos..], m);
    WriteEach(replies, LineWrites(b, pos, m))
  }

  /** The first buffer of a chunk's writes, when a newline follows `pos`,
      is the line up to that newline. */
  lemma LineWritesNext(b: seq<byte>, pos: nat, i: nat, m: nat)
    requires pos <= |b| && MemChr(b, pos, NL) == Some(i) && m > 0
    ensures var segs := LineWrites(b, pos, m);
            && segs != [] && segs[0] == b[pos..i + 1] && segs[1..] == LineWrites(b, i + 1, m - 1)
  {
    assert LineWrites(b, pos, m) == [b[pos..i + 1]] + LineWrites(b, i + 1, m - 1);
  }

  /** The write_all calls of a chunk with a newline after `pos` and lines
      still wanted: the line up to the newline first and, if that succeeds,
      the writes of the rest of the chunk. */
  lemma ChunkWritesLine(replies: seq<WriteReply>, b: seq<byte>, pos: nat, q: nat, m: nat)
    requires pos < q <= |b| && MemChr(b, pos, NL) == Some(q - 1) && m > 0
    ensures var w := WriteOutcome(replies, q - pos);
            && (w.status.Failure? ==> ChunkWrites(replies, b, pos, m) == w)
            && (w.status.Success? ==>
                  var r := ChunkWrites(replies[w.consumed..], b, q, m - 1);
                  ChunkWrites(replies, b, pos, m) == WriteRun(r.status, q - pos + r.written, w.consumed + r.consumed))
  {
    LineWritesNext(b, pos, q - 1, m);
    WriteEachFirst(replies, LineWrites(b, pos, m));
  }

  /** A chunk's write_all calls that will end as `run` have got the chunk
      written up to `pos`, m lines are still wanted, and `replies` is what
      is left of a script that had `scripted` replies. */
  ghost predicate ChunkContinues(run: WriteRun, replies: seq<WriteReply>, b: seq<byte>, pos: nat, m: nat, scripted: nat)
  {
    pos <= |b| && |replies| <= scripted && run == ChunkRun(replies, b, pos, m, scripted)
  }

  /** How a chunk's write_all calls end, counted from the start of the
      chunk and of a script that had `scripted` replies, when the chunk is
      written up to `pos` and `replies` is what is left of the script. */
  function ChunkRun(replies: seq<WriteReply>, b: seq<byte>, pos: nat, m: nat, scripted: nat): WriteRun
    requires pos <= |b| && |replies| <= scripted
  {
    var rest := ChunkWrites(replies, b, pos, m);
    WriteRun(rest.status, pos + rest.written, scripted - |replies| + rest.consumed)
  }

  /** One turn of the memchr loop: the write_all of the line up to the next
      newline either ends the chunk's writes or goes on after that line. */
  lemma LineWriteStep(run: WriteRun, replies: seq<WriteReply>, b: seq<byte>, pos: nat, q: nat, m: nat,
                      scripted: nat, replies': seq<WriteReply>)
    requires ChunkContinues(run, replies, b, pos, m, scripted) && m > 0
    requires pos < q <= |b| && MemChr(b, pos, NL) == Some(q - 1)
    requires replies' == replies[WriteOutcome(replies, |b[pos..q]|).consumed..]
    ensures var w := WriteOutcome(replies, |b[pos..q]|);
            && (w.status.Failure? ==> run == WriteRun(w.status, pos + w.written, scripted - |replies'|))
            && (w.status.Success? ==> ChunkContinues(run, replies', b, q, m - 1, scripted))
  {
    ChunkWritesLine(replies, b, pos, q, m);
  }

  /** The write_all of the unterminated rest of a chunk ends its writes. */
  lemma TailWriteStep(run: WriteRun, replies: seq<WriteReply>, b: seq<byte>, pos: nat, m: nat,
                      scripted: nat, replies': seq<WriteReply>)
    requires ChunkContinues(run, replies, b, pos, m, scripted) && m > 0 && pos < |b|
    requires MemChr(b, pos, NL) == None
    requires replies' == replies[WriteOutcome(replies, |b[pos..]|).consumed..]
    ensures var w := WriteOutcome(replies, |b[pos..]|);
            run == WriteRun(w.status, pos + w.written, scripted - |replies'|)
  {
    var segs := LineWrites(b, pos, m);
    assert segs == [b[pos..]] && segs[1..] == [];
    WriteEachFirst(replies, segs);
  }

  /** The line of what is left of a chunk that ends at its first newline
      starts the head of what is left, and the head of the rest follows with
      one line fewer. */
  lemma LineAt(b: seq<byte>, pos: nat, q: nat, m: nat)
    requires pos < q <= |b| && b[q - 1] == NL && NL !in b[pos..q - 1] && m > 0
    ensures HeadLines(b[pos..], m) == b[pos..q] + HeadLines(b[q..], m - 1)
  {
    var seg := b[pos..q - 1];
    assert b[pos..q] == seg + [NL];
    NewlinesZero(seg);
    NewlinesAppend(seg, [NL]);
    assert Newlines([NL]) == 1;
    assert b[pos..] == b[pos..q] + b[q..];
    HeadLinesKeeps(b[pos..q], b[q..], m);
  }

  /** The inner loop of line mode over one chunk `b`, with m lines still
      wanted: write up to each newline in turn, then the unterminated tail,
      until m lines are out. Returns how many lines it wrote. */
  method CopyChunkLines(sink: Sink, b: seq<byte>, m: nat) returns (st: Status, k: nat)
    modifies sink
    ensures var run := ChunkWrites(old(sink.replies), b, 0, m);
            && st == run.status
            && sink.written == old(sink.written) + b[..run.written]
            && sink.replies == old(sink.replies)[run.consumed..]
    ensures st.Success? ==> sink.written == old(sink.written) + HeadLines(b, m)
    ensures st.Success? ==> k == Min(m, Newlines(b))
    ensures st.Failure? ==> WrittenWithin(old(sink.written), sink.written, HeadLines(b, m))
    ensures st.Failure? ==> st.errno != EINTR
    ensures Healthy(old(sink.replies)) ==> st.Success? && Healthy(sink.replies)
    ensures st.Success? ==> CleanWrites(old(sink.replies), sink.replies)
    ensures st.Failure? ==> FailedWrite(old(sink.replies), sink.replies, st.errno)
  {
    ghost var run := ChunkWrites(sink.replies, b, 0, m);
    var pos;
    st, pos, k := CopyWholeLines(sink, b, m);
    if st.Failure? {
      return;
    }
    ChunkEnd(b, pos, m);
    if k < m && pos < |b| {
      st := WriteTail(sink, b, pos, m, k, run, old(sink.replies), old(sink.written));
      if st.Failure? {
        HealthyStays(old(sink.replies), sink.replies, true, st.errno);
        return;
      }
    }
    HealthyStays(old(sink.replies), sink.replies, false, 0);
  }

  /** The write_all of the unterminated rest of a chunk from `pos` on,
      with k of the m lines wanted out and no newline left. */
  method WriteTail(sink: Sink, b: seq<byte>, pos: nat, m: nat, k: nat,
                   ghost run: WriteRun, ghost r0: seq<WriteReply>, ghost w0: seq<byte>) returns (st: Status)
    requires pos < |b| && k < m && NL !in b[pos..] && HeadLines(b, m) == b
    requires sink.written == w0 + b[..pos]
    requires CleanWrites(r0, sink.replies)
    requires ChunkContinues(run, sink.replies, b, pos, m - k, |r0|)
    modifies sink
    ensures st == run.status && sink.written == w0 + b[..run.written] && sink.replies == r0[run.consumed..]
    ensures st.Success? ==> sink.written == w0 + HeadLines(b, m) && CleanWrites(r0, sink.replies)
    ensures st.Failure? ==> WrittenWithin(w0, sink.written, HeadLines(b, m)) && FailedWrite(r0, sink.replies, st.errno)
  {
    ghost var before := sink.replies;
    NoNewlineFrom(b, pos);
    st := WriteAll(sink, b[pos..]);
    TailWriteStep(run, before, b, pos, m - k, |r0|, sink.replies);
    TailWritten(r0, before, sink.replies, w0, sink.written, b, pos, m, st, WriteOutcome(before, |b[pos..]|).written);
  }

  /** The write_all of the unterminated rest of a chunk, once all lines
      before it are out, completes the head of the chunk or leaves what it
      wrote within that head. */
  lemma TailWritten(r0: seq<WriteReply>, before: seq<WriteReply>, after: seq<WriteReply>,
                    w0: seq<byte>, written: seq<byte>, b: seq<byte>, pos: nat, m: nat, st: Status, c: nat)
    requires pos < |b| && HeadLines(b, m) == b
    requires CleanWrites(r0, before)
    requires c <= |b[pos..]| && written == (w0 + b[..pos]) + b[pos..][..c]
    requires st.Success? ==> written == (w0 + b[..pos]) + b[pos..]
    requires st.Failure? ==> WrittenWithin(w0 + b[..pos], written, b[pos..])
    requires st.Success? ==> CleanWrites(before, after)
    requires st.Failure? ==> FailedWrite(before, after, st.errno)
    ensures st.Success? ==> written == w0 + HeadLines(b, m) && CleanWrites(r0, after)
    ensures st.Failure? ==> written == w0 + b[..pos + c]
    ensures st.Failure? ==> WrittenWithin(w0, written, HeadLines(b, m)) && FailedWrite(r0, after, st.errno)
  {
    if st.Failure? {
      SegmentFailed(w0, b, pos, |b|, b[pos..], written, HeadLines(b, m));
      WrittenPart(w0, b, pos, |b|, c, written);
      CleanThenFailed(r0, before, after, st.errno);
    } else {
      Assoc(w0, b[..pos], b[pos..]);
      CleanThenClean(r0, before, after);
    }
  }

  /** The memchr loop: while fewer than m lines are out, write up to and
      including the next newline. Stops at the first `pos` where no newline
      is left or m lines are out. */
  method CopyWholeLines(sink: Sink, b: seq<byte>, m: nat) returns (st: Status, pos: nat, k: nat)
    modifies sink
    ensures st.Success? ==> pos <= |b| && k <= m && k == Newlines(b[..pos])
    ensures st.Success? ==> sink.written == old(sink.written) + b[..pos]
    ensures st.Success? ==> (pos == 0 || b[pos - 1] == NL) && (k < m ==> NL !in b[pos..])
    ensures st.Success? ==>
              ChunkContinues(ChunkWrites(old(sink.replies), b, 0, m), sink.replies, b, pos, m - k, |old(sink.replies)|)
    ensures st.Failure? ==>
              var run := ChunkWrites(old(sink.replies), b, 0, m);
              && st == run.status
              && sink.written == old(sink.written) + b[..run.written]
              && sink.replies == old(sink.replies)[run.consumed..]
    ensures st.Failure? ==> WrittenWithin(old(sink.written), sink.written, HeadLines(b, m))
    ensures st.Failure? ==> st.errno != EINTR
    ensures Healthy(old(sink.replies)) ==> st.Success? && Healthy(sink.replies)
    ensures st.Success? ==> CleanWrites(old(sink.replies), sink.replies)
    ensures st.Failure? ==> FailedWrite(old(sink.replies), sink.replies, st.errno)
  {
    ghost var run := ChunkWrites(sink.replies, b, 0, m);
    pos, k := 0, 0;
    st := Success;
    while true
      invariant pos <= |b| && k <= m && st.Success?
      invariant sink.written == old(sink.written) + b[..pos]
      invariant k == Newlines(b[..pos])
      invariant pos == 0 || b[pos - 1] == NL
      invariant CleanWrites(old(sink.replies), sink.replies)
      invariant ChunkContinues(run, sink.replies, b, pos, m - k, |old(sink.replies)|)
      decreases |b| - pos
    {
      var p := MemChr(b, pos, NL);
      if p.None? {
        break;
      }
      if k >= m {
        break;
      }
      var q := p.value + 1;
      st := WriteLine(sink, b, pos, q, m, k, run, old(sink.replies), old(sink.written));
      if st.Failure? {
        HealthyStays(old(sink.replies), sink.replies, true, st.errno);
        return;
      }
      k := k + 1;
      pos := q;
    }
    HealthyStays(old(sink.replies), sink.replies, false, 0);
  }

  /** One turn of the memchr loop: write_all of the line from `pos` up to
      and including the newline at q - 1, while k < m lines are out. */
  method WriteLine(sink: Sink, b: seq<byte>, pos: nat, q: nat, m: nat, k: nat,
                   ghost run: WriteRun, ghost r0: seq<WriteReply>, ghost w0: seq<byte>) returns (st: Status)
    requires pos < q <= |b| && MemChr(b, pos, NL) == Some(q - 1)
    requires k == Newlines(b[..pos]) && k < m
    requires sink.written == w0 + b[..pos]
    requires CleanWrites(r0, sink.replies)
    requires ChunkContinues(run, sink.replies, b, pos, m - k, |r0|)
    modifies sink
    ensures st.Success? ==> sink.written == w0 + b[..q] && k + 1 == Newlines(b[..q])
    ensures st.Success? ==> CleanWrites(r0, sink.replies) && ChunkContinues(run, sink.replies, b, q, m - k - 1, |r0|)
    ensures st.Failure? ==> st == run.status && sink.written == w0 + b[..run.written] && sink.replies == r0[run.consumed..]
    ensures st.Failure? ==> WrittenWithin(w0, sink.written, HeadLines(b, m)) && FailedWrite(r0, sink.replies, st.errno)
  {
    ghost var before := sink.replies;
    st := WriteAll(sink, b[pos..q]);
    LineWriteStep(run, before, b, pos, q, m - k, |r0|, sink.replies);
    LineWritten(r0, before, sink.replies, w0, sink.written, b, pos, q, m, k, st, WriteOutcome(before, |b[pos..q]|).written);
  }

  /** The write_all of one line, once the lines before it are out: it
      extends the output by that line, or leaves what it wrote within the
      head of the chunk. */
  lemma LineWritten(r0: seq<WriteReply>, before: seq<WriteReply>, after: seq<WriteReply>,
                    w0: seq<byte>, written: seq<byte>, b: seq<byte>, pos: nat, q: nat, m: nat, k: nat, st: Status, c: nat)
    requires pos < q <= |b| && b[q - 1] == NL && NL !in b[pos..q - 1]
    requires k == Newlines(b[..pos]) && k < m
    requires CleanWrites(r0, before)
    requires c <= |b[pos..q]| && written == (w0 + b[..pos]) + b[pos..q][..c]
    requires st.Success? ==> written == (w0 + b[..pos]) + b[pos..q]
    requires st.Failure? ==> WrittenWithin(w0 + b[..pos], written, b[pos..q])
    requires st.Success? ==> CleanWrites(before, after)
    requires st.Failure? ==> FailedWrite(before, after, st.errno)
    ensures st.Success? ==> written == w0 + b[..q] && k + 1 == Newlines(b[..q])
    ensures st.Success? ==> CleanWrites(r0, after)
    ensures st.Failure? ==> written == w0 + b[..pos + c]
    ensures st.Failure? ==> WrittenWithin(w0, written, HeadLines(b, m)) && FailedWrite(r0, after, st.errno)
  {
    LineSegment(b, pos, q, m);
    if st.Failure? {
      SegmentFailed(w0, b, pos, q, b[pos..q], written, HeadLines(b, m));
      WrittenPart(w0, b, pos, q, c, written);
      CleanThenFailed(r0, before, after, st.errno);
    } else {
      CleanThenClean(r0, before, after);
    }
  }

  /** With `b[..pos]` out, a write of `b[pos..q]` that got c bytes out left
      the first pos + c bytes of `b` written. */
  lemma WrittenPart(o: seq<byte>, b: seq<byte>, pos: nat, q: nat, c: nat, w: seq<byte>)
    requires pos <= q <= |b| && c <= q - pos
    requires w == (o + b[..pos]) + b[pos..q][..c]
    ensures w == o + b[..pos + c]
  {
    assert b[..pos] + b[pos..q][..c] == b[..pos + c];
  }

  /** memchr finds nothing where no newline is left. */
  lemma NoNewlineFrom(b: seq<byte>, pos: nat)
    requires pos <= |b| && NL !in b[pos..]
    ensures MemChr(b, pos, NL) == None
  {
    forall j | pos <= j < |b|
      ensures b[j] != NL
    {
      assert b[j] == b[pos..][j - pos];
    }
  }

  /** A write of `b[pos..q]` that stopped part way, after `b[..pos]` was out,
      left output within `h` when `h` starts with `b[..q]`. */
  lemma SegmentFailed(o: seq<byte>, b: seq<byte>, pos: nat, q: nat, x: seq<byte>, w: seq<byte>, h: seq<byte>)
    requires pos <= q <= |b| && x == b[pos..q] && q <= |h| && h[..q] == b[..q]
    requires WrittenWithin(o + b[..pos], w, x)
    ensures WrittenWithin(o, w, h)
  {
    assert b[..q] == b[..pos] + x;
    WithinHead(o, b[..pos], x, w, h);
  }

  /** A write that stopped part way through the segment `x`, after `p` was
      out, left output within `h` when `p + x` lies within `h`. */
  lemma WithinHead(o: seq<byte>, p: seq<byte>, x: seq<byte>, w: seq<byte>, h: seq<byte>)
    requires WrittenWithin(o + p, w, x)
    requires |p + x| <= |h| && h[..|p + x|] == p + x
    ensures WrittenWithin(o, w, h)
  {
    assert (o + p) + x == o + (p + x);
    assert (o + h)[..|o + (p + x)|] == o + (p + x);
  }

  /** One step of the inner loop: the segment up to the next newline, while
      fewer than m lines are out, still belongs to the head of the chunk. */
  lemma {:induction false} LineSegment(b: seq<byte>, pos: nat, q: nat, m: nat)
    requires pos < q <= |b| && b[q - 1] == NL && NL !in b[pos..q - 1]
    requires Newlines(b[..pos]) < m
    ensures b[..q] == b[..pos] + b[pos..q]
    ensures Newlines(b[..q]) == Newlines(b[..pos]) + 1
    ensures q <= |HeadLines(b, m)| && HeadLines(b, m)[..q] == b[..q]
  {
    var pre, seg := b[..pos], b[pos..q - 1];
    assert b[pos..q] == seg + [NL];
    assert b[..q] == pre + (seg + [NL]);
    NewlinesZero(seg);
    NewlinesAppend(seg, [NL]);
    assert Newlines([NL]) == 1;
    NewlinesAppend(pre, seg + [NL]);
    HeadLinesKeeps(b[..q], b[q..], m);
    assert b[..q] + b[q..] == b;
    var h := HeadLines(b, m);
    assert h == b[..q] + HeadLines(b[q..], m - Newlines(b[..q]));
    assert h[..q] == b[..q];
  }

  /** Where the inner loop stops: with fewer than m lines out, no newline is
      left and the whole chunk is its own head; with m lines out, the head is
      what has been written. */
  lemma ChunkEnd(b: seq<byte>, pos: nat, m: nat)
    requires pos <= |b| && Newlines(b[..pos]) <= m
    requires pos == 0 || b[pos - 1] == NL
    requires Newlines(b[..pos]) < m ==> NL !in b[pos..]
    ensures b == b[..pos] + b[pos..]
    ensures Newlines(b[..pos]) < m ==> HeadLines(b, m) == b && Newlines(b) == Newlines(b[..pos])
    ensures Newlines(b[..pos]) == m ==> HeadLines(b, m) == b[..pos] && Newlines(b) >= m
  {
    assert b == b[..pos] + b[pos..];
    NewlinesAppend(b[..pos], b[pos..]);
    if Newlines(b[..pos]) < m {
      NewlinesZero(b[pos..]);
      HeadLinesKeeps(b, [], m);
    } else {
      LinePrefixUnique(b[..pos], b, m);
    }
  }

  // ---------------------------------------------------------------------
  // What stream_copy does with a script of reads and a script of writes

  /** How stream_copy ends over both scripts: its status, the bytes it gets
      written, and how many read(2) and write(2) replies it consumes. */
  datatype CopyRun = CopyRun(status: CopyStatus, output: seq<byte>, readsUsed: nat, writesUsed: nat)

  /** Line mode with m lines still wanted, over the script of reads and the
      script of writes: the reads of LineCopy, each chunk handed to write_all
      line by line as ChunkWrites says, and a stop at the first write_all
      that fails, with what it got out. */
  function LineMode(rs: seq<ReadReply>, ws: seq<WriteReply>, m: nat): (r: CopyRun)
    ensures r.readsUsed <= |rs| && r.writesUsed <= |ws|
    decreases |rs|
  {
    if m == 0 || rs == [] then CopyRun(Copied, [], 0, 0)
    else match rs[0]
      case Data(b) =>
        if b == [] then CopyRun(Copied, [], 1, 0)
        else
          var w := ChunkWrites(ws, b, 0, m);
          if w.status.Failure? then CopyRun(WriteFailed(w.status.errno), b[..w.written], 1, w.consumed)
          else
            var t := LineMode(rs[1..], ws[w.consumed..], m - Min(m, Newlines(b)));
            CopyRun(t.status, HeadLines(b, m) + t.output, 1 + t.readsUsed, w.consumed + t.writesUsed)
      case ReadError(e) =>
        if e == EINTR then
          var t := LineMode(rs[1..], ws, m);
          CopyRun(t.status, t.output, 1 + t.readsUsed, t.writesUsed)
        else CopyRun(ReadFailed(e), [], 1, 0)
  }

  /** When no write fails, line mode reads and writes what LineCopy says;
      it fails on a read exactly when LineCopy does, and then on the last
      reply it consumed, which is an error other than EINTR. */
  lemma {:induction false} LineModeReads(rs: seq<ReadReply>, ws: seq<WriteReply>, m: nat)
    ensures var r, c := LineMode(rs, ws, m), LineCopy(rs, m);
            && (!r.status.WriteFailed? ==> r.output == c.output && r.readsUsed == c.consumed)
            && (!r.status.WriteFailed? ==> (r.status.ReadFailed? <==> c.failed))
            && (r.status.ReadFailed? ==> 0 < r.readsUsed && rs[r.readsUsed - 1] == ReadError(r.status.errno))
            && (r.status.ReadFailed? ==> r.status.errno != EINTR)
    decreases |rs|
  {
    if m != 0 && rs != [] {
      match rs[0]
      case Data(b) =>
        if b != [] {
          var w := ChunkWrites(ws, b, 0, m);
          if w.status.Success? {
            LineModeReads(rs[1..], ws[w.consumed..], m - Min(m, Newlines(b)));
          }
        }
      case ReadError(e) =>
        if e == EINTR {
          LineModeReads(rs[1..], ws, m);
        }
    }
  }

  /** A failed write leaves the output strictly short of what line mode
      writes when every write succeeds, and an initial part of it. */
  lemma {:induction false} LineModeWithin(rs: seq<ReadReply>, ws: seq<WriteReply>, m: nat)
    ensures var r, c := LineMode(rs, ws, m), LineCopy(rs, m);
            r.status.WriteFailed? ==> |r.output| < |c.output| && r.output == c.output[..|r.output|]
    decreases |rs|
  {
    if m != 0 && rs != [] {
      match rs[0]
      case Data(b) =>
        if b != [] {
          var w := ChunkWrites(ws, b, 0, m);
          var m' := m - Min(m, Newlines(b));
          var h, rest := HeadLines(b, m), LineCopy(rs[1..], m').output;
          ChunkWritesHead(ws, b, m);
          if w.status.Success? {
            LineModeWithin(rs[1..], ws[w.consumed..], m');
            var t := LineMode(rs[1..], ws[w.consumed..], m');
            if t.status.WriteFailed? {
              assert (h + rest)[..|h + t.output|] == h + rest[..|t.output|];
            }
          } else {
            assert (h + rest)[..w.written] == h[..w.written];
          }
        }
      case ReadError(e) =>
        if e == EINTR {
          LineModeWithin(rs[1..], ws, m);
        }
    }
  }

  /** The write replies line mode consumes: all went through when no write
      failed, and the last of them is the failure when one did. */
  lemma {:induction false} LineModeWrites(rs: seq<ReadReply>, ws: seq<WriteReply>, m: nat)
    ensures var r := LineMode(rs, ws, m);
            WritesEnd(ws, r.writesUsed, r.status)
    decreases |rs|
  {
    if m == 0 || rs == [] {
      NoWrites(ws, Copied);
    } else {
      match rs[0]
      case Data(b) =>
        if b == [] {
          NoWrites(ws, Copied);
        } else {
          var w := ChunkWrites(ws, b, 0, m);
          ChunkWritesTie(ws, b, m);
          if w.status.Success? {
            var rest := ws[w.consumed..];
            LineModeWrites(rs[1..], rest, m - Min(m, Newlines(b)));
            var t := LineMode(rs[1..], rest, m - Min(m, Newlines(b)));
            WritesGoOn(ws, rest, t);
          }
        }
      case ReadError(e) =>
        if e == EINTR {
          LineModeWrites(rs[1..], ws, m);
        } else {
          NoWrites(ws, ReadFailed(e));
        }
    }
  }

  /** The first `used` replies of `ws` went through, when a copy ends
      with `st` other than a write failure, or end in that failure. */
  ghost predicate WritesEnd(ws: seq<WriteReply>, used: nat, st: CopyStatus)
  {
    && used <= |ws|
    && (!st.WriteFailed? ==> CleanWrites(ws, ws[used..]))
    && (st.WriteFailed? ==> FailedWrite(ws, ws[used..], st.errno))
  }

  /** A copy that ends without writing has consumed no write reply. */
  lemma NoWrites(ws: seq<WriteReply>, st: CopyStatus)
    requires !st.WriteFailed?
    ensures WritesEnd(ws, 0, st)
  {
    assert ws[..|ws| - |ws[0..]|] == [];
  }

  /** Replies that went through, followed by those a copy goes on to
      consume: the whole still goes through, or ends in the copy's write
      failure. */
  lemma WritesGoOn(ws: seq<WriteReply>, rest: seq<WriteReply>, t: CopyRun)
    requires CleanWrites(ws, rest) && WritesEnd(rest, t.writesUsed, t.status)
    ensures WritesEnd(ws, |ws| - |rest| + t.writesUsed, t.status)
  {
    assert rest[t.writesUsed..] == ws[|ws| - |rest| + t.writesUsed..];
    if t.status.WriteFailed? {
      CleanThenFailed(ws, rest, rest[t.writesUsed..], t.status.errno);
    } else {
      CleanThenClean(ws, rest, rest[t.writesUsed..]);
    }
  }

  /** How the write_all calls of a whole chunk end, against the head of the
      chunk: they get out an initial part of it, all of it exactly when they
      succeed, and the replies they consume went through or end in the
      failure. */
  lemma ChunkWritesHead(replies: seq<WriteReply>, b: seq<byte>, m: nat)
    ensures var w, h := ChunkWrites(replies, b, 0, m), HeadLines(b, m);
            && w.written <= |h| && b[..w.written] == h[..w.written]
            && (w.status.Success? <==> w.written == |h|)
  {
    WriteEachBounds(replies, LineWrites(b, 0, m));
    LineWritesJoin(b, 0, m);
    HeadLinesIsLinePrefix(b, m);
    assert b[0..] == b;
  }

  /** The replies the write_all calls of a chunk consume. */
  lemma ChunkWritesTie(replies: seq<WriteReply>, b: seq<byte>, m: nat)
    ensures var w := ChunkWrites(replies, b, 0, m);
            && (w.status.Success? ==> CleanWrites(replies, replies[w.consumed..]))
            && (w.status.Failure? ==> FailedWrite(replies, replies[w.consumed..], w.status.errno))
  {
    WriteEachTie(replies, LineWrites(b, 0, m));
  }

  /** How a copy ends, counted from the start of scripts of r0n reads and
      s0n writes, when `out` is written, `rs` and `ws` are what is left of
      the scripts and `t` is how the copy goes on from there. */
  function Resumed(t: CopyRun, out: seq<byte>, rs: seq<ReadReply>, ws: seq<WriteReply>,
                   r0n: nat, s0n: nat): CopyRun
    requires |rs| <= r0n && |ws| <= s0n
  {
    CopyRun(t.status, out + t.output, r0n - |rs| + t.readsUsed, s0n - |ws| + t.writesUsed)
  }

  /** A copy that ended with status `st`, having written `written` after
      `w0`, and leaving `rs` and `ws` of the scripts `r0` and `s0`,
      ended as `run` says. */
  ghost predicate Ended(run: CopyRun, st: CopyStatus, w0: seq<byte>, written: seq<byte>,
                        r0: seq<ReadReply>, rs: seq<ReadReply>, s0: seq<WriteReply>, ws: seq<WriteReply>)
  {
    && run.status == st && written == w0 + run.output
    && IsSuffix(rs, r0) && run.readsUsed == |r0| - |rs|
    && IsSuffix(ws, s0) && run.writesUsed == |s0| - |ws|
  }

  /** A copy that stops before its next read has written all it writes. */
  lemma Stopped(run: CopyRun, t: CopyRun, r0: seq<ReadReply>, rs: seq<ReadReply>, s0: seq<WriteReply>,
                ws: seq<WriteReply>, out: seq<byte>, w0: seq<byte>, written: seq<byte>)
    requires IsSuffix(rs, r0) && IsSuffix(ws, s0) && written == w0 + out
    requires t == CopyRun(Copied, [], 0, 0) && run == Resumed(t, out, rs, ws, |r0|, |s0|)
    ensures Ended(run, Copied, w0, written, r0, rs, s0, ws)
  {
    assert out + [] == out;
  }

  /** An interrupted read(2) in line mode, with n - lines > 0 lines still
      wanted: line mode goes on with the next reply, no line added. */
  lemma Interrupted(run: CopyRun, r0: seq<ReadReply>, before: seq<ReadReply>, after: seq<ReadReply>,
                    s0: seq<WriteReply>, ws: seq<WriteReply>, n: nat, lines: nat, k: nat, out: seq<byte>)
    requires lines < n && k == 0 && IsSuffix(before, r0) && |ws| <= |s0|
    requires run == Resumed(LineMode(before, ws, n - lines), out, before, ws, |r0|, |s0|)
    requires before != [] && before[0] == ReadError(EINTR) && after == before[1..]
    ensures IsSuffix(after, r0)
    ensures run == Resumed(LineMode(after, ws, n - (lines + k)), out, after, ws, |r0|, |s0|)
  {
    SuffixStep(before, r0);
  }

  /** A read(2) at end of input, or one failing with an error other than
      EINTR, ends line mode with m > 0 lines still wanted; the read counts
      as consumed unless the script was used up. */
  lemma ReadStop(run: CopyRun, r0: seq<ReadReply>, before: seq<ReadReply>, reply: ReadReply, after: seq<ReadReply>,
                 s0: seq<WriteReply>, ws: seq<WriteReply>, m: nat, out: seq<byte>, w0: seq<byte>, written: seq<byte>)
    requires m > 0 && IsSuffix(before, r0) && IsSuffix(ws, s0) && written == w0 + out
    requires run == Resumed(LineMode(before, ws, m), out, before, ws, |r0|, |s0|)
    requires if before == [] then reply == Data([]) && after == [] else reply == before[0] && after == before[1..]
    requires reply == Data([]) || (reply.ReadError? && reply.errno != EINTR)
    ensures Ended(run, if reply.ReadError? then ReadFailed(reply.errno) else Copied, w0, written, r0, after, s0, ws)
  {
    assert out + [] == out;
    if before != [] {
      SuffixStep(before, r0);
    }
  }

  /** One non-empty chunk of line mode: the write_all calls of CopyChunkLines
      either get the head of the chunk out, and line mode goes on with the
      next reply and the lines still wanted, or fail, and line mode ends. */
  lemma ChunkModeStep(run: CopyRun, r0: seq<ReadReply>, rs: seq<ReadReply>, rs': seq<ReadReply>,
                      s0: seq<WriteReply>, ws: seq<WriteReply>, ws': seq<WriteReply>, b: seq<byte>,
                      m: nat, n: nat, lines: nat, out: seq<byte>, w0: seq<byte>, written: seq<byte>, st: Status, k: nat)
    requires lines < n && m == n - lines && rs != [] && rs[0] == Data(b) && b != [] && rs' == rs[1..]
    requires IsSuffix(rs, r0) && IsSuffix(ws, s0)
    requires run == Resumed(LineMode(rs, ws, n - lines), out, rs, ws, |r0|, |s0|)
    requires var w := ChunkWrites(ws, b, 0, m);
             && st == w.status
             && written == (w0 + out) + b[..w.written]
             && ws' == ws[w.consumed..]
    requires st.Success? ==> written == (w0 + out) + HeadLines(b, m) && k == Min(m, Newlines(b))
    ensures IsSuffix(rs', r0) && IsSuffix(ws', s0)
    ensures st.Success? ==> written == w0 + (out + HeadLines(b, m)) && lines + k <= n
    ensures st.Success? ==>
              run == Resumed(LineMode(rs', ws', n - (lines + k)), out + HeadLines(b, m), rs', ws', |r0|, |s0|)
    ensures st.Failure? ==> Ended(run, WriteFailed(st.errno), w0, written, r0, rs', s0, ws')
  {
    SuffixStep(rs, r0);
    assert s0[|s0| - |ws|..][|ws| - |ws'|..] == s0[|s0| - |ws'|..];
    if st.Success? {
      var t := LineMode(rs', ws', m - k);
      Assoc(w0, out, HeadLines(b, m));
      Assoc(out, HeadLines(b, m), t.output);
    } else {
      Assoc(w0, out, b[..ChunkWrites(ws, b, 0, m).written]);
    }
  }

  /** What line mode's ending means: the reads and the bytes of LineCopy
      when no write fails, a read failure on the last reply read, and the
      write replies as LineModeWrites says. */
  lemma LineModeMeans(r0: seq<ReadReply>, s0: seq<WriteReply>, n: nat, st: CopyStatus, w0: seq<byte>,
                      written: seq<byte>, rs: seq<ReadReply>, ws: seq<WriteReply>)
    requires Ended(LineMode(r0, s0, n), st, w0, written, r0, rs, s0, ws)
    ensures !st.WriteFailed? ==> written == w0 + LineCopy(r0, n).output
    ensures !st.WriteFailed? ==> rs == r0[LineCopy(r0, n).consumed..]
    ensures !st.WriteFailed? ==> (st.ReadFailed? <==> LineCopy(r0, n).failed)
    ensures st.ReadFailed? ==> st.errno != EINTR
    ensures st.ReadFailed? ==> r0[LineCopy(r0, n).consumed - 1] == ReadError(st.errno)
    ensures st.WriteFailed? ==> WrittenWithin(w0, written, LineCopy(r0, n).output)
    ensures st.WriteFailed? ==> |written| < |w0 + LineCopy(r0, n).output|
    ensures Healthy(s0) ==> !st.WriteFailed?
    ensures !st.WriteFailed? ==> CleanWrites(s0, ws)
    ensures st.WriteFailed? ==> FailedWrite(s0, ws, st.errno)
  {
    var r, c := LineMode(r0, s0, n), LineCopy(r0, n);
    LineModeReads(r0, s0, n);
    LineModeWithin(r0, s0, n);
    LineModeWrites(r0, s0, n);
    assert ws == s0[r.writesUsed..];
    if st.WriteFailed? {
      assert (w0 + c.output)[..|written|] == w0 + c.output[..|r.output|];
      HealthyStays(s0, ws, true, st.errno);
    } else {
      HealthyStays(s0, ws, false, 0);
    }
  }

  /** Line mode of stream_copy: read chunks until n lines are out, end of
      input or a failure other than EINTR, and write from each chunk the
      lines still wanted. It ends as LineMode says over both scripts. */
  method StreamCopyLines(src: Source, sink: Sink, n: nat) returns (st: CopyStatus)
    modifies src, sink
    ensures var run := LineMode(old(src.replies), old(sink.replies), n);
            && st == run.status
            && sink.written == old(sink.written) + run.output
            && src.replies == old(src.replies)[run.readsUsed..]
            && sink.replies == old(sink.replies)[run.writesUsed..]
    ensures !st.WriteFailed? ==> sink.written == old(sink.written) + LineCopy(old(src.replies), n).output
    ensures !st.WriteFailed? ==> src.replies == old(src.replies)[LineCopy(old(src.replies), n).consumed..]
    ensures !st.WriteFailed? ==> (st.ReadFailed? <==> LineCopy(old(src.replies), n).failed)
    ensures st.ReadFailed? ==> st.errno != EINTR
    ensures st.ReadFailed? ==> old(src.replies)[LineCopy(old(src.replies), n).consumed - 1] == ReadError(st.errno)
    ensures st.WriteFailed? ==>
              WrittenWithin(old(sink.written), sink.written, LineCopy(old(src.replies), n).output)
    ensures st.WriteFailed? ==> |sink.written| < |old(sink.written) + LineCopy(old(src.replies), n).output|
    ensures Healthy(old(sink.replies)) ==> !st.WriteFailed?
    ensures !st.WriteFailed? ==> CleanWrites(old(sink.replies), sink.replies)
    ensures st.WriteFailed? ==> FailedWrite(old(sink.replies), sink.replies, st.errno)
  {
    ghost var r0, s0, w0 := src.replies, sink.replies, sink.written;
    ghost var run := LineMode(r0, s0, n);
    ghost var out: seq<byte> := [];
    var linesSoFar: nat := 0;
    assert r0[|r0| - |r0|..] == r0 && s0[|s0| - |s0|..] == s0 && [] + run.output == run.output;
    while true
      invariant linesSoFar <= n
      invariant IsSuffix(src.replies, r0) && IsSuffix(sink.replies, s0)
      invariant sink.written == w0 + out
      invariant run == Resumed(LineMode(src.replies, sink.replies, n - linesSoFar), out, src.replies, sink.replies, |r0|, |s0|)
      decreases |src.replies|
    {
      if linesSoFar >= n {
        Stopped(run, LineMode(src.replies, sink.replies, 0), r0, src.replies, s0, sink.replies, out, w0, sink.written);
        st := Copied;
        break;
      }
      var done, k;
      ghost var out';
      done, st, k, out' := LineTurn(src, sink, n, linesSoFar, run, r0, s0, out, w0);
      if done {
        break;
      }
      out := out';
      linesSoFar := linesSoFar + k;
    }
    LineModeMeans(r0, s0, n, st, w0, sink.written, src.replies, sink.replies);
  }

  /** One turn of line mode's loop once fewer than n lines are out: a
      read(2), retried after EINTR by the next turn, ending the loop at end
      of input or on another failure, and otherwise the lines of the chunk
      still wanted. Whether the loop ends, with what status, and how many
      lines the chunk added. */
  method LineTurn(src: Source, sink: Sink, n: nat, lines: nat, ghost run: CopyRun, ghost r0: seq<ReadReply>,
                  ghost s0: seq<WriteReply>, ghost out: seq<byte>, ghost w0: seq<byte>)
    returns (done: bool, st: CopyStatus, k: nat, ghost out': seq<byte>)
    requires lines < n
    requires IsSuffix(src.replies, r0) && IsSuffix(sink.replies, s0) && sink.written == w0 + out
    requires run == Resumed(LineMode(src.replies, sink.replies, n - lines), out, src.replies, sink.replies, |r0|, |s0|)
    modifies src, sink
    // Ended is compared with true so that it is proved as one goal on each
    // path rather than conjunct by conjunct.
    ensures done ==> (Ended(run, st, w0, sink.written, r0, src.replies, s0, sink.replies) == true)
    ensures !done ==> |src.replies| < |old(src.replies)| && lines + k <= n
    ensures !done ==> IsSuffix(src.replies, r0) && IsSuffix(sink.replies, s0) && sink.written == w0 + out'
    ensures !done ==>
              run == Resumed(LineMode(src.replies, sink.replies, n - (lines + k)), out', src.replies, sink.replies, |r0|, |s0|)
  {
    ghost var before := src.replies;
    var r := src.Read();
    k, out' := 0, out;
    if r.ReadError? && r.errno == EINTR {
      Interrupted(run, r0, before, src.replies, s0, sink.replies, n, lines, k, out);
      return false, Copied, k, out';
    }
    if r.ReadError? || r.bytes == [] {
      ReadStop(run, r0, before, r, src.replies, s0, sink.replies, n - lines, out, w0, sink.written);
      st := if r.ReadError? then ReadFailed(r.errno) else Copied;
      return true, st, k, out';
    }
    var b := r.bytes;
    var m := n - lines;
    var chunkStatus;
    chunkStatus, k := LineChunk(sink, b, m, n, lines, run, r0, before, src.replies, s0, out, w0);
    if chunkStatus.Failure? {
      return true, WriteFailed(chunkStatus.errno), k, out';
    }
    return false, Copied, k, out + HeadLines(b, m);
  }

  /** One chunk of line mode: CopyChunkLines over the chunk, with the
      m = n - lines lines still wanted, as ChunkModeStep says; `after` is
      what is left of the reads once the chunk is read. */
  method LineChunk(sink: Sink, b: seq<byte>, m: nat, ghost n: nat, ghost lines: nat, ghost run: CopyRun,
                   ghost r0: seq<ReadReply>, ghost rs: seq<ReadReply>, ghost after: seq<ReadReply>,
                   ghost s0: seq<WriteReply>, ghost out: seq<byte>, ghost w0: seq<byte>)
    returns (st: Status, k: nat)
    requires lines < n && m == n - lines && rs != [] && rs[0] == Data(b) && b != [] && after == rs[1..]
    requires IsSuffix(rs, r0) && IsSuffix(sink.replies, s0) && sink.written == w0 + out
    requires run == Resumed(LineMode(rs, sink.replies, n - lines), out, rs, sink.replies, |r0|, |s0|)
    modifies sink
    ensures IsSuffix(after, r0) && IsSuffix(sink.replies, s0)
    ensures st.Success? ==> sink.written == w0 + (out + HeadLines(b, m)) && lines + k <= n
    ensures st.Success? ==>
              run == Resumed(LineMode(after, sink.replies, n - (lines + k)), out + HeadLines(b, m), after, sink.replies, |r0|, |s0|)
    ensures st.Failure? ==> Ended(run, WriteFailed(st.errno), w0, sink.written, r0, after, s0, sink.replies)
  {
    ghost var before := sink.replies;
    st, k := CopyChunkLines(sink, b, m);
    ChunkModeStep(run, r0, rs, after, s0, before, sink.replies, b, m, n, lines, out, w0, sink.written, st, k);
  }

  /** Regrouping a concatenation, proved apart from the large contexts of its
      callers, where the same step as an inline assertion is much slower. */
  lemma Assoc(a: seq<byte>, b: seq<byte>, c: seq<byte>)
    ensures (a + b) + c == a + (b + c)
  {
  }

  /** Consuming one reply keeps the rest a suffix of the script. */
  lemma SuffixStep<T>(s: seq<T>, r: seq<T>)
    requires IsSuffix(s, r) && s != []
    ensures IsSuffix(s[1..], r)
  {
    assert r[|r| - |s|..][1..] == r[|r| - |s| + 1..];
  }

  /** Byte mode over both scripts. Its counter `bytes_so_far` is never
      advanced, so the limit n only matters when it is 0: then nothing is
      read. Otherwise every chunk read is handed to write_all whole, until
      end of input, a failed read or a failed write_all. */
  function ByteMode(rs: seq<ReadReply>, ws: seq<WriteReply>, n: nat): (r: CopyRun)
    ensures r.readsUsed <= |rs| && r.writesUsed <= |ws|
    decreases |rs|
  {
    if n == 0 || rs == [] then CopyRun(Copied, [], 0, 0)
    else match rs[0]
      case Data(b) =>
        if b == [] then CopyRun(Copied, [], 1, 0)
        else
          var w := WriteOutcome(ws, |b|);
          if w.status.Failure? then CopyRun(WriteFailed(w.status.errno), b[..w.written], 1, w.consumed)
          else
            var t := ByteMode(rs[1..], ws[w.consumed..], n);
            CopyRun(t.status, b + t.output, 1 + t.readsUsed, w.consumed + t.writesUsed)
      case ReadError(e) =>
        if e == EINTR then
          var t := ByteMode(rs[1..], ws, n);
          CopyRun(t.status, t.output, 1 + t.readsUsed, t.writesUsed)
        else CopyRun(ReadFailed(e), [], 1, 0)
  }

  /** When no write fails, byte mode writes all the data the reads deliver
      (nothing when n is 0); a read failure is the last reply it read, an
      error other than EINTR. */
  lemma {:induction false} ByteModeReads(rs: seq<ReadReply>, ws: seq<WriteReply>, n: nat)
    ensures var r := ByteMode(rs, ws, n);
            && (!r.status.WriteFailed? ==> r.output == if n == 0 then [] else StreamData(rs))
            && (r.status.ReadFailed? ==> 0 < r.readsUsed && rs[r.readsUsed - 1] == ReadError(r.status.errno))
            && (r.status.ReadFailed? ==> r.status.errno != EINTR)
    decreases |rs|
  {
    if n != 0 && rs != [] {
      match rs[0]
      case Data(b) =>
        if b != [] {
          var w := WriteOutcome(ws, |b|);
          if w.status.Success? {
            ByteModeReads(rs[1..], ws[w.consumed..], n);
          }
        }
      case ReadError(e) =>
        if e == EINTR {
          ByteModeReads(rs[1..], ws, n);
        }
    }
  }

  /** A failed write leaves the output strictly short of the data the reads
      deliver, and an initial part of it. */
  lemma {:induction false} ByteModeWithin(rs: seq<ReadReply>, ws: seq<WriteReply>, n: nat)
    ensures var r, d := ByteMode(rs, ws, n), StreamData(rs);
            r.status.WriteFailed? ==> |r.output| < |d| && r.output == d[..|r.output|]
    decreases |rs|
  {
    if n != 0 && rs != [] {
      match rs[0]
      case Data(b) =>
        if b != [] {
          var w := WriteOutcome(ws, |b|);
          var rest := StreamData(rs[1..]);
          if w.status.Success? {
            ByteModeWithin(rs[1..], ws[w.consumed..], n);
            var t := ByteMode(rs[1..], ws[w.consumed..], n);
            if t.status.WriteFailed? {
              assert (b + rest)[..|b + t.output|] == b + rest[..|t.output|];
            }
          } else {
            assert (b + rest)[..w.written] == b[..w.written];
          }
        }
      case ReadError(e) =>
        if e == EINTR {
          ByteModeWithin(rs[1..], ws, n);
        }
    }
  }

  /** The write replies byte mode consumes: all went through when no write
      failed, and the last of them is the failure when one did. */
  lemma {:induction false} ByteModeWrites(rs: seq<ReadReply>, ws: seq<WriteReply>, n: nat)
    ensures var r := ByteMode(rs, ws, n);
            WritesEnd(ws, r.writesUsed, r.status)
    decreases |rs|
  {
    if n == 0 || rs == [] {
      NoWrites(ws, Copied);
    } else {
      match rs[0]
      case Data(b) =>
        if b == [] {
          NoWrites(ws, Copied);
        } else {
          var w := WriteOutcome(ws, |b|);
          WriteOutcomeTie(ws, |b|);
          if w.status.Success? {
            var rest := ws[w.consumed..];
            ByteModeWrites(rs[1..], rest, n);
            var t := ByteMode(rs[1..], rest, n);
            WritesGoOn(ws, rest, t);
          }
        }
      case ReadError(e) =>
        if e == EINTR {
          ByteModeWrites(rs[1..], ws, n);
        } else {
          NoWrites(ws, ReadFailed(e));
        }
    }
  }

  /** An interrupted read(2) in byte mode, with n > 0: byte mode goes on
      with the next reply. */
  lemma ByteInterrupted(run: CopyRun, r0: seq<ReadReply>, before: seq<ReadReply>, after: seq<ReadReply>,
                        s0: seq<WriteReply>, ws: seq<WriteReply>, n: nat, out: seq<byte>)
    requires n > 0 && IsSuffix(before, r0) && |ws| <= |s0|
    requires run == Resumed(ByteMode(before, ws, n), out, before, ws, |r0|, |s0|)
    requires before != [] && before[0] == ReadError(EINTR) && after == before[1..]
    ensures IsSuffix(after, r0)
    ensures run == Resumed(ByteMode(after, ws, n), out, after, ws, |r0|, |s0|)
  {
    SuffixStep(before, r0);
  }

  /** A read(2) at end of input, or one failing with an error other than
      EINTR, ends byte mode. */
  lemma ByteReadStop(run: CopyRun, r0: seq<ReadReply>, before: seq<ReadReply>, reply: ReadReply, after: seq<ReadReply>,
                     s0: seq<WriteReply>, ws: seq<WriteReply>, n: nat, out: seq<byte>, w0: seq<byte>, written: seq<byte>)
    requires n > 0 && IsSuffix(before, r0) && IsSuffix(ws, s0) && written == w0 + out
    requires run == Resumed(ByteMode(before, ws, n), out, before, ws, |r0|, |s0|)
    requires if before == [] then reply == Data([]) && after == [] else reply == before[0] && after == before[1..]
    requires reply == Data([]) || (reply.ReadError? && reply.errno != EINTR)
    ensures Ended(run, if reply.ReadError? then ReadFailed(reply.errno) else Copied, w0, written, r0, after, s0, ws)
  {
    assert out + [] == out;
    if before != [] {
      SuffixStep(before, r0);
    }
  }

  /** The write_all of one non-empty chunk in byte mode either gets it all
      out, and byte mode goes on with the next reply, or fails, and byte
      mode ends. */
  lemma ByteWriteStep(run: CopyRun, r0: seq<ReadReply>, rs: seq<ReadReply>, rs': seq<ReadReply>, s0: seq<WriteReply>,
                      ws: seq<WriteReply>, ws': seq<WriteReply>, b: seq<byte>, n: nat, out: seq<byte>,
                      w0: seq<byte>, written: seq<byte>, st: Status)
    requires n > 0 && rs != [] && rs[0] == Data(b) && b != [] && rs' == rs[1..]
    requires IsSuffix(rs, r0) && IsSuffix(ws, s0)
    requires run == Resumed(ByteMode(rs, ws, n), out, rs, ws, |r0|, |s0|)
    requires var w := WriteOutcome(ws, |b|);
             && st == w.status
             && written == (w0 + out) + b[..w.written]
             && ws' == ws[w.consumed..]
    requires st.Success? ==> written == (w0 + out) + b
    ensures IsSuffix(rs', r0) && IsSuffix(ws', s0)
    ensures st.Success? ==> written == w0 + (out + b)
    ensures st.Success? ==> run == Resumed(ByteMode(rs', ws', n), out + b, rs', ws', |r0|, |s0|)
    ensures st.Failure? ==> Ended(run, WriteFailed(st.errno), w0, written, r0, rs', s0, ws')
  {
    SuffixStep(rs, r0);
    assert s0[|s0| - |ws|..][|ws| - |ws'|..] == s0[|s0| - |ws'|..];
    if st.Success? {
      var t := ByteMode(rs', ws', n);
      Assoc(w0, out, b);
      Assoc(out, b, t.output);
    } else {
      Assoc(w0, out, b[..WriteOutcome(ws, |b|).written]);
    }
  }

  /** What byte mode's ending means: all the data read written when no
      write fails, a read failure on the last reply read, and the write
      replies as ByteModeWrites says. */
  lemma ByteModeMeans(r0: seq<ReadReply>, s0: seq<WriteReply>, n: nat, st: CopyStatus, w0: seq<byte>,
                      written: seq<byte>, rs: seq<ReadReply>, ws: seq<WriteReply>)
    requires Ended(ByteMode(r0, s0, n), st, w0, written, r0, rs, s0, ws)
    ensures !st.WriteFailed? ==> written == w0 + (if n == 0 then [] else StreamData(r0))
    ensures st.ReadFailed? ==> st.errno != EINTR
    ensures st.ReadFailed? ==> r0[ByteMode(r0, s0, n).readsUsed - 1] == ReadError(st.errno)
    ensures st.WriteFailed? ==> WrittenWithin(w0, written, StreamData(r0))
    ensures st.WriteFailed? ==> |written| < |w0 + StreamData(r0)|
    ensures Healthy(s0) ==> !st.WriteFailed?
    ensures !st.WriteFailed? ==> CleanWrites(s0, ws)
    ensures st.WriteFailed? ==> FailedWrite(s0, ws, st.errno)
  {
    var r, d := ByteMode(r0, s0, n), StreamData(r0);
    ByteModeReads(r0, s0, n);
    ByteModeWithin(r0, s0, n);
    ByteModeWrites(r0, s0, n);
    assert ws == s0[r.writesUsed..];
    if st.WriteFailed? {
      assert (w0 + d)[..|written|] == w0 + d[..|r.output|];
      HealthyStays(s0, ws, true, st.errno);
    } else {
      HealthyStays(s0, ws, false, 0);
    }
  }

  /** Byte mode of stream_copy. It ends as ByteMode says over both scripts. */
  method StreamCopyBytes(src: Source, sink: Sink, n: nat) returns (st: CopyStatus)
    modifies src, sink
    ensures var run := ByteMode(old(src.replies), old(sink.replies), n);
            && st == run.status
            && sink.written == old(sink.written) + run.output
            && src.replies == old(src.replies)[run.readsUsed..]
            && sink.replies == old(sink.replies)[run.writesUsed..]
    ensures !st.WriteFailed? ==>
              sink.written == old(sink.written) + (if n == 0 then [] else StreamData(old(src.replies)))
    ensures st.ReadFailed? ==> st.errno != EINTR
    ensures st.ReadFailed? ==>
              old(src.replies)[ByteMode(old(src.replies), old(sink.replies), n).readsUsed - 1] == ReadError(st.errno)
    ensures st.WriteFailed? ==> WrittenWithin(old(sink.written), sink.written, StreamData(old(src.replies)))
    ensures st.WriteFailed? ==> |sink.written| < |old(sink.written) + StreamData(old(src.replies))|
    ensures Healthy(old(sink.replies)) ==> !st.WriteFailed?
    ensures !st.WriteFailed? ==> CleanWrites(old(sink.replies), sink.replies)
    ensures st.WriteFailed? ==> FailedWrite(old(sink.replies), sink.replies, st.errno)
  {
    ghost var r0, s0, w0 := src.replies, sink.replies, sink.written;
    ghost var run := ByteMode(r0, s0, n);
    ghost var out: seq<byte> := [];
    var bytesSoFar: nat := 0;
    assert r0[|r0| - |r0|..] == r0 && s0[|s0| - |s0|..] == s0 && [] + run.output == run.output;
    while true
      invariant bytesSoFar == 0
      invariant IsSuffix(src.replies, r0) && IsSuffix(sink.replies, s0)
      invariant sink.written == w0 + out
      invariant run == Resumed(ByteMode(src.replies, sink.replies, n), out, src.replies, sink.replies, |r0|, |s0|)
      decreases |src.replies|
    {
      var done;
      ghost var out';
      done, st, out' := ByteTurn(src, sink, n, bytesSoFar, run, r0, s0, out, w0);
      if done {
        break;
      }
      out := out';
    }
    ByteModeMeans(r0, s0, n, st, w0, sink.written, src.replies, sink.replies);
  }

  /** One turn of byte mode's loop: the loop's test of the byte count
      (which the source never advances, so it ends the loop only when n is
      0), then a read(2), retried after EINTR by the next turn, ending the
      loop at end of input or on another failure, and otherwise a write_all
      of the whole chunk. Whether the loop ends, and with what status. */
  method ByteTurn(src: Source, sink: Sink, n: nat, bytes: nat, ghost run: CopyRun, ghost r0: seq<ReadReply>,
                  ghost s0: seq<WriteReply>, ghost out: seq<byte>, ghost w0: seq<byte>)
    returns (done: bool, st: CopyStatus, ghost out': seq<byte>)
    requires bytes == 0
    requires IsSuffix(src.replies, r0) && IsSuffix(sink.replies, s0) && sink.written == w0 + out
    requires run == Resumed(ByteMode(src.replies, sink.replies, n), out, src.replies, sink.replies, |r0|, |s0|)
    modifies src, sink
    ensures done ==> Ended(run, st, w0, sink.written, r0, src.replies, s0, sink.replies)
    ensures !done ==> |src.replies| < |old(src.replies)|
    ensures !done ==> IsSuffix(src.replies, r0) && IsSuffix(sink.replies, s0) && sink.written == w0 + out'
    ensures !done ==> run == Resumed(ByteMode(src.replies, sink.replies, n), out', src.replies, sink.replies, |r0|, |s0|)
  {
    out' := out;
    if bytes >= n {
      Stopped(run, ByteMode(src.replies, sink.replies, 0), r0, src.replies, s0, sink.replies, out, w0, sink.written);
      return true, Copied, out';
    }
    ghost var before := src.replies;
    var r := src.Read();
    if r.ReadError? && r.errno == EINTR {
      ByteInterrupted(run, r0, before, src.replies, s0, sink.replies, n, out);
      return false, Copied, out';
    }
    if r.ReadError? || r.bytes == [] {
      ByteReadStop(run, r0, before, r, src.replies, s0, sink.replies, n, out, w0, sink.written);
      st := if r.ReadError? then ReadFailed(r.errno) else Copied;
      return true, st, out';
    }
    var b := r.bytes;
    ghost var replies := sink.replies;
    var wrote := WriteAll(sink, b);
    ByteWriteStep(run, r0, before, src.replies, s0, replies, sink.replies, b, n, out, w0, sink.written, wrote);
    if wrote.Failure? {
      return true, WriteFailed(wrote.errno), out';
    }
    return false, Copied, out + b;
  }

  /** stream_copy: default mode behaves as line mode. */
  method StreamCopy(src: Source, sink: Sink, count: Count) returns (st: CopyStatus)
    modifies src, sink
    ensures var run := if count.mode == ModeBytes then ByteMode(old(src.replies), old(sink.replies), count.amount)
                       else LineMode(old(src.replies), old(sink.replies), count.amount);
            && st == run.status
            && sink.written == old(sink.written) + run.output
            && src.replies == old(src.replies)[run.readsUsed..]
            && sink.replies == old(sink.replies)[run.writesUsed..]
    ensures count.mode != ModeBytes && !st.WriteFailed? ==>
              sink.written == old(sink.written) + HeadLines(StreamData(old(src.replies)), count.amount)
    ensures count.mode != ModeBytes && st.WriteFailed? ==>
              WrittenWithin(old(sink.written), sink.written, HeadLines(StreamData(old(src.replies)), count.amount))
    ensures count.mode != ModeBytes && !st.WriteFailed? ==>
              src.replies == old(src.replies)[LineCopy(old(src.replies), count.amount).consumed..]
    ensures count.mode != ModeBytes && !st.WriteFailed? ==>
              (st.ReadFailed? <==> LineCopy(old(src.replies), count.amount).failed)
    ensures count.mode != ModeBytes && st.ReadFailed? ==>
              old(src.replies)[LineCopy(old(src.replies), count.amount).consumed - 1] == ReadError(st.errno)
    ensures count.mode == ModeBytes && count.amount > 0 && !st.WriteFailed? ==>
              sink.written == old(sink.written) + StreamData(old(src.replies))
    ensures count.mode == ModeBytes && st.WriteFailed? ==>
              WrittenWithin(old(sink.written), sink.written, StreamData(old(src.replies)))
    ensures count.mode == ModeBytes && st.ReadFailed? ==>
              old(src.replies)[ByteMode(old(src.replies), old(sink.replies), count.amount).readsUsed - 1] == ReadError(st.errno)
    ensures st.ReadFailed? ==> st.errno != EINTR
    ensures Healthy(old(sink.replies)) ==> !st.WriteFailed?
    ensures !st.WriteFailed? ==> CleanWrites(old(sink.replies), sink.replies)
    ensures st.WriteFailed? ==> FailedWrite(old(sink.replies), sink.replies, st.errno)
  {
    if count.mode == ModeBytes {
      st := StreamCopyBytes(src, sink, count.amount);
    } else {
      LineCopyHead(src.replies, count.amount);
      st := StreamCopyLines(src, sink, count.amount);
    }
  }

  // ---------------------------------------------------------------------
  // Options and the choice of mode

  /** An option as getopt delivers it for the optstring "n:c:". */
  datatype HeadOpt = OptLines(arg: string) | OptBytes(arg: string) | OptUnknown

  /** After the option loop: a bad count stops head with status 1; otherwise
      the last accepted `-n` and `-c` values, 0 when absent. */
  datatype HeadArgs = BadLineCount(arg: string) | BadByteCount(arg: string) | Counts(lc: nat, cc: nat)

  /** The option loop from the state (lc, cc). An unknown option only prints
      the usage line; it does not stop head. */
  function HeadOptions(opts: seq<HeadOpt>, lc: nat, cc: nat): HeadArgs
  {
    if opts == [] then Counts(lc, cc)
    else match opts[0]
      case OptLines(a) =>
        var p := ParseCount(a, lc);
        if p.code != CountOk then BadLineCount(a) else HeadOptions(opts[1..], p.out, cc)
      case OptBytes(a) =>
        var p := ParseCount(a, cc);
        if p.code != CountOk then BadByteCount(a) else HeadOptions(opts[1..], lc, p.out)
      case OptUnknown => HeadOptions(opts[1..], lc, cc)
  }

  method ParseOptions(opts: seq<HeadOpt>) returns (r: HeadArgs)
    ensures r == HeadOptions(opts, 0, 0)
  {
    var lc: nat, cc: nat := 0, 0;
    var i := 0;
    while i < |opts|
      invariant i <= |opts|
      invariant HeadOptions(opts[i..], lc, cc) == HeadOptions(opts, 0, 0)
    {
      assert opts[i..][1..] == opts[i + 1..];
      match opts[i] {
        case OptLines(a) =>
          var p := ParseCount(a, lc);
          if p.code != CountOk {
            return BadLineCount(a);
          }
          lc := p.out;
        case OptBytes(a) =>
          var p := ParseCount(a, cc);
          if p.code != CountOk {
            return BadByteCount(a);
          }
          cc := p.out;
        case OptUnknown =>
      }
      i := i + 1;
    }
    return Counts(lc, cc);
  }

  /** The argument of the last `-n` (lines) or `-c` (bytes) option, if any. */
  function LastArg(opts: seq<HeadOpt>, lines: bool): Option<string>
  {
    if opts == [] then None
    else match LastArg(opts[1..], lines)
      case Some(a) => Some(a)
      case None =>
        if lines && opts[0].OptLines? then Some(opts[0].arg)
        else if !lines && opts[0].OptBytes? then Some(opts[0].arg)
        else None
  }

  /** When the loop ends normally, lc and cc are the values of the last `-n`
      and `-c`, or what they were before when the option is absent. */
  lemma {:induction false} HeadOptionsLast(opts: seq<HeadOpt>, lc: nat, cc: nat)
    requires HeadOptions(opts, lc, cc).Counts?
    ensures var r := HeadOptions(opts, lc, cc);
            && r.lc == (match LastArg(opts, true) case None => lc case Some(a) => ParseCount(a, 0).out)
            && r.cc == (match LastArg(opts, false) case None => cc case Some(a) => ParseCount(a, 0).out)
            && (LastArg(opts, true).Some? ==> ParseCount(LastArg(opts, true).value, 0).code == CountOk)
            && (LastArg(opts, false).Some? ==> ParseCount(LastArg(opts, false).value, 0).code == CountOk)
  {
    if opts != [] {
      match opts[0]
      case OptLines(a) =>
        ParseCountOut(a, lc, 0);
        HeadOptionsLast(opts[1..], ParseCount(a, lc).out, cc);
      case OptBytes(a) =>
        ParseCountOut(a, cc, 0);
        HeadOptionsLast(opts[1..], lc, ParseCount(a, cc).out);
      case OptUnknown =>
        HeadOptionsLast(opts[1..], lc, cc);
    }
  }

  /** The outcome of head's argument handling, before any input is read. */
  datatype Config = Exit(status: int) | Run(count: Count)

  /** The choice of mode from the lc and cc left by the option loop. */
  function SelectCount(lc: nat, cc: nat): (r: Config)
    ensures r.Exit? <==> lc > 0 && cc > 0
    ensures r.Exit? ==> r.status == 1
    ensures r.Run? ==> r.count.amount > 0
    ensures r.Run? && lc > 0 ==> r.count == Count(ModeLines, lc)
    ensures r.Run? && cc > 0 ==> r.count == Count(ModeBytes, cc)
    ensures lc == 0 && cc == 0 ==> r == Run(Count(ModeDefault, 10))
  {
    if lc > 0 && cc > 0 then Exit(1)
    else if lc > 0 then Run(Count(ModeLines, lc))
    else if cc > 0 then Run(Count(ModeBytes, cc))
    else Run(Count(ModeDefault, 10))
  }

  function HeadConfig(opts: seq<HeadOpt>): Config
  {
    match HeadOptions(opts, 0, 0)
    case BadLineCount(_) => Exit(1)
    case BadByteCount(_) => Exit(1)
    case Counts(lc, cc) => SelectCount(lc, cc)
  }

  /** From the options to the mode: `-n` and `-c` together are refused, the
      last `-n` alone selects line mode, the last `-c` alone byte mode, and
      neither gives the default of 10 lines. */
  lemma HeadModeSelection(opts: seq<HeadOpt>)
    requires HeadOptions(opts, 0, 0).Counts?
    ensures var n, c := LastArg(opts, true), LastArg(opts, false);
            HeadConfig(opts) ==
              if n.Some? && c.Some? then Exit(1)
              else if n.Some? then Run(Count(ModeLines, ParseCount(n.value, 0).out))
              else if c.Some? then Run(Count(ModeBytes, ParseCount(c.value, 0).out))
              else Run(Count(ModeDefault, 10))
  {
    HeadOptionsLast(opts, 0, 0);
  }
}
