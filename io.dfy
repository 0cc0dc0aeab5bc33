/** File descriptors as seen by head's copy loop. What the kernel answers to
    each read(2) and write(2) is a parameter: a script of replies, consumed
    one per call. */
module Io {
  import opened Sys

  /** One answer of read(2): the bytes delivered (an empty sequence is end of
      input), or a failure with its errno. */
  datatype ReadReply = Data(bytes: seq<byte>) | ReadError(errno: int)

  /** One answer of write(2): the number of bytes it accepted, or a failure
      with its errno. */
  datatype WriteReply = Accepted(count: nat) | WriteError(errno: int)

  datatype Status = Success | Failure(errno: int)

  /** An input descriptor. Once the script is used up, every read reports end of input. */
  class Source {
    var replies: seq<ReadReply>

    constructor (replies: seq<ReadReply>)
      ensures this.replies == replies
    {
      this.replies := replies;
    }

    method Read() returns (r: ReadReply)
      modifies this
      ensures old(replies) == [] ==> r == Data([]) && replies == []
      ensures old(replies) != [] ==> r == old(replies)[0] && replies == old(replies)[1..]
    {
      if replies == [] {
        r := Data([]);
      } else {
        r := replies[0];
        replies := replies[1..];
      }
    }
  }

  /** An output descriptor: what has been written so far, and the script of
      answers to come. Once the script is used up, every write is accepted in
      full. A reply accepting more than was offered accepts what was offered. */
  class Sink {
    var written: seq<byte>
    var replies: seq<WriteReply>

    constructor (replies: seq<WriteReply>)
      ensures written == [] && this.replies == replies
    {
      written := [];
      this.replies := replies;
    }

    method Write(buf: seq<byte>) returns (r: WriteReply)
      modifies this
      ensures old(replies) == [] ==> r == Accepted(|buf|) && written == old(written) + buf && replies == []
      ensures old(replies) != [] ==> replies == old(replies)[1..]
      ensures old(replies) != [] && old(replies)[0].WriteError? ==>
                r == old(replies)[0] && written == old(written)
      ensures old(replies) != [] && old(replies)[0].Accepted? ==>
                var k := Min(old(replies)[0].count, |buf|);
                r == Accepted(k) && written == old(written) + buf[..k]
    {
      if replies == [] {
        r := Accepted(|buf|);
        written := written + buf;
      } else {
        var reply := replies[0];
        replies := replies[1..];
        match reply
        case WriteError(e) =>
          r := reply;
        case Accepted(n) =>
          var k := Min(n, |buf|);
          r := Accepted(k);
          written := written + buf[..k];
      }
    }
  }

  /** A device that never fails: every answer makes progress or is an interruption. */
  predicate Healthy(replies: seq<WriteReply>)
  {
    replies == [] ||
    ((replies[0] == WriteError(EINTR) || (replies[0].Accepted? && replies[0].count > 0))
     && Healthy(replies[1..]))
  }

  /** `now` extends `before` by an initial part of `more`: what a writer that
      set out to append `more` may have produced if it stopped early. */
  predicate WrittenWithin(before: seq<byte>, now: seq<byte>, more: seq<byte>)
  {
    |before| <= |now| <= |before| + |more| && now == (before + more)[..|now|]
  }

  /** `s` is what is left of `r` after some of its first elements were consumed. */
  predicate IsSuffix<T(==)>(s: seq<T>, r: seq<T>)
  {
    |s| <= |r| && s == r[|r| - |s|..]
  }

  /** How write_all ends over a script of write replies, with `left` bytes to
      go: its status, how many bytes it gets written and how many replies it
      consumes. */
  datatype WriteRun = WriteRun(status: Status, written: nat, consumed: nat)

  /** The reference semantics of write_all: interrupted writes are retried, a
      write accepting nothing fails with EIO, any other failure stops with its
      errno. All of it is written exactly on success. */
  function WriteOutcome(replies: seq<WriteReply>, left: nat): (r: WriteRun)
    ensures r.consumed <= |replies| && r.written <= left
    ensures r.status.Success? <==> r.written == left
    decreases |replies|
  {
    if left == 0 || replies == [] then WriteRun(Success, left, 0)
    else match replies[0]
      case WriteError(e) =>
        if e == EINTR then
          var r := WriteOutcome(replies[1..], left);
          WriteRun(r.status, r.written, r.consumed + 1)
        else WriteRun(Failure(e), 0, 1)
      case Accepted(k) =>
        var n := Min(k, left);
        if n == 0 then WriteRun(Failure(EIO), 0, 1)
        else
          var r := WriteOutcome(replies[1..], left - n);
          WriteRun(r.status, n + r.written, r.consumed + 1)
  }

  /** A failure of write_all is the answer to the last write it issued: an
      error other than EINTR, reported as it is, or a write accepting nothing,
      reported as EIO. Every earlier answer made progress or was an
      interruption. */
  lemma {:induction false} WriteOutcomeFailure(replies: seq<WriteReply>, left: nat)
    ensures var r := WriteOutcome(replies, left);
            r.status.Failure? ==>
              && 0 < r.consumed
              && (replies[r.consumed - 1] == WriteError(r.status.errno) ||
                  (r.status.errno == EIO && replies[r.consumed - 1] == Accepted(0)))
              && r.status.errno != EINTR
              && Healthy(replies[..r.consumed - 1])
    decreases |replies|
  {
    var r := WriteOutcome(replies, left);
    if left > 0 && replies != [] && r.status.Failure? && r.consumed > 1 {
      var k := r.consumed - 1;
      match replies[0]
      case WriteError(e) =>
        WriteOutcomeFailure(replies[1..], left);
        assert replies[..k][1..] == replies[1..][..k - 1];
      case Accepted(c) =>
        WriteOutcomeFailure(replies[1..], left - Min(c, left));
        assert replies[..k][1..] == replies[1..][..k - 1];
    }
  }

  /** The replies a successful write_all consumes all made progress or were
      interruptions. */
  lemma {:induction false} WriteOutcomeSuccess(replies: seq<WriteReply>, left: nat)
    ensures var r := WriteOutcome(replies, left);
            r.status.Success? ==> Healthy(replies[..r.consumed])
    decreases |replies|
  {
    var r := WriteOutcome(replies, left);
    if left > 0 && replies != [] && r.status.Success? {
      var k := r.consumed;
      match replies[0]
      case WriteError(e) =>
        WriteOutcomeSuccess(replies[1..], left);
        assert replies[..k][1..] == replies[1..][..k - 1];
      case Accepted(c) =>
        WriteOutcomeSuccess(replies[1..], left - Min(c, left));
        assert replies[..k][1..] == replies[1..][..k - 1];
    }
  }

  /** Healthy answers followed by healthy answers are healthy. */
  lemma {:induction false} HealthyAppend(a: seq<WriteReply>, b: seq<WriteReply>)
    requires Healthy(a) && Healthy(b)
    ensures Healthy(a + b)
    decreases |a|
  {
    if a != [] {
      HealthyAppend(a[1..], b);
      assert (a + b)[1..] == a[1..] + b;
    } else {
      assert a + b == b;
    }
  }

  /** The device went from `before` to `after` answering only with progress
      or interruptions. */
  predicate CleanWrites(before: seq<WriteReply>, after: seq<WriteReply>)
  {
    IsSuffix(after, before) && Healthy(before[..|before| - |after|])
  }

  /** The device went from `before` to `after` answering with progress or
      interruptions and then, last, with the failure reported as `errno`: an
      error other than EINTR, or a write accepting nothing for EIO. */
  predicate FailedWrite(before: seq<WriteReply>, after: seq<WriteReply>, errno: int)
  {
    && IsSuffix(after, before) && |after| < |before| && errno != EINTR
    && var used := |before| - |after|;
       && Healthy(before[..used - 1])
       && (before[used - 1] == WriteError(errno) || (errno == EIO && before[used - 1] == Accepted(0)))
  }

  /** What is left of a device that never fails never fails either. */
  lemma {:induction false} HealthyRest(replies: seq<WriteReply>, k: nat)
    requires Healthy(replies) && k <= |replies|
    ensures Healthy(replies[k..])
    decreases k
  {
    if k > 0 {
      HealthyRest(replies[1..], k - 1);
      assert replies[1..][k - 1..] == replies[k..];
    }
  }

  /** A device that never fails cannot have answered with a failure, and
      what is left of it never fails either. */
  lemma HealthyStays(before: seq<WriteReply>, after: seq<WriteReply>, failed: bool, errno: int)
    requires if failed then FailedWrite(before, after, errno) else CleanWrites(before, after)
    ensures Healthy(before) ==> !failed && Healthy(after)
  {
    if Healthy(before) {
      var used := |before| - |after|;
      if failed {
        HealthyRest(before, used - 1);
      } else {
        HealthyRest(before, used);
      }
    }
  }

  /** Two stretches of clean answers make one. */
  lemma CleanThenClean(a: seq<WriteReply>, b: seq<WriteReply>, c: seq<WriteReply>)
    requires CleanWrites(a, b) && CleanWrites(b, c)
    ensures CleanWrites(a, c)
  {
    var i, j := |a| - |b|, |b| - |c|;
    assert a[..i + j] == a[..i] + b[..j];
    HealthyAppend(a[..i], b[..j]);
  }

  /** Clean answers followed by a failed write_all make a failed one. */
  lemma CleanThenFailed(a: seq<WriteReply>, b: seq<WriteReply>, c: seq<WriteReply>, errno: int)
    requires CleanWrites(a, b) && FailedWrite(b, c, errno)
    ensures FailedWrite(a, c, errno)
  {
    var i, j := |a| - |b|, |b| - |c|;
    assert a[..i + j - 1] == a[..i] + b[..j - 1];
    HealthyAppend(a[..i], b[..j - 1]);
  }

  /** A device that always makes progress or is interrupted lets write_all
      succeed, and stays that way. */
  lemma {:induction false} HealthyWriteOutcome(replies: seq<WriteReply>, left: nat)
    requires Healthy(replies)
    ensures WriteOutcome(replies, left).status == Success
    ensures Healthy(replies[WriteOutcome(replies, left).consumed..])
    decreases |replies|
  {
    if left > 0 && replies != [] {
      match replies[0]
      case WriteError(e) =>
        HealthyWriteOutcome(replies[1..], left);
      case Accepted(k) =>
        HealthyWriteOutcome(replies[1..], left - Min(k, left));
    }
  }

  /** A write_all over `total` bytes that will end as `run` has written `done`
      of them, and `replies` is what is left of a script that had `scripted`
      replies. */
  ghost predicate Continues(run: WriteRun, replies: seq<WriteReply>, total: nat, done: nat, scripted: nat)
  {
    done <= total && |replies| <= scripted && run == WriteRest(replies, total, done, scripted)
  }

  /** How write_all ends, counted from the start of the buffer and of a
      script that had `scripted` replies, when `done` of its `total` bytes
      are written and `replies` is what is left of the script. */
  function WriteRest(replies: seq<WriteReply>, total: nat, done: nat, scripted: nat): WriteRun
    requires done <= total && |replies| <= scripted
  {
    var rest := WriteOutcome(replies, total - done);
    WriteRun(rest.status, done + rest.written, scripted - |replies| + rest.consumed)
  }

  /** One write of write_all, whose reply is `r` and after which `replies'`
      is left of the script: an interruption or progress continues the run,
      anything else is where it ends. */
  lemma {:induction false} WriteStep(run: WriteRun, replies: seq<WriteReply>, total: nat, done: nat, scripted: nat,
                  r: WriteReply, replies': seq<WriteReply>)
    requires Continues(run, replies, total, done, scripted) && done < total
    requires replies == [] ==> r == Accepted(total - done) && replies' == []
    requires replies != [] ==>
               replies' == replies[1..] &&
               r == if replies[0].Accepted? then Accepted(Min(replies[0].count, total - done)) else replies[0]
    ensures match r
            case WriteError(e) =>
              if e == EINTR then Continues(run, replies', total, done, scripted)
              else run == WriteRun(Failure(e), done, scripted - |replies'|)
            case Accepted(n) =>
              if n == 0 then run == WriteRun(Failure(EIO), done, scripted - |replies'|)
              else done + n <= total && Continues(run, replies', total, done + n, scripted)
  {
  }

  /** What a write_all that ends as WriteOutcome says guarantees: success
      appends the whole buffer, failure a strict initial part of it with an
      errno other than EINTR that is EIO or one the device reported, and a
      device that always makes progress or is interrupted never fails it. */
  lemma {:induction false} WriteOutcomeMeans(replies: seq<WriteReply>, buf: seq<byte>, before: seq<byte>,
                          st: Status, written: seq<byte>, replies': seq<WriteReply>)
    requires var run := WriteOutcome(replies, |buf|);
             && st == run.status
             && written == before + buf[..run.written]
             && replies' == replies[run.consumed..]
    ensures st.Success? ==> written == before + buf
    ensures st.Failure? ==> WrittenWithin(before, written, buf) && |written| < |before + buf|
    ensures st.Failure? ==> st.errno != EINTR
    ensures st.Failure? ==> st.errno == EIO || WriteError(st.errno) in replies
    ensures Healthy(replies) ==> st.Success? && Healthy(replies')
    ensures IsSuffix(replies', replies)
    ensures st.Success? ==> CleanWrites(replies, replies')
    ensures st.Failure? ==> FailedWrite(replies, replies', st.errno)
  {
    var run := WriteOutcome(replies, |buf|);
    WriteOutcomeFailure(replies, |buf|);
    WriteOutcomeSuccess(replies, |buf|);
    if Healthy(replies) {
      HealthyWriteOutcome(replies, |buf|);
    }
    if st.Success? {
      assert buf[..run.written] == buf;
    } else {
      assert (before + buf)[..|written|] == written;
    }
  }

  /** write_all: offers what is left of `buf` until all of it is written,
      retrying after EINTR; a write that accepts nothing fails with EIO, any
      other failure is returned as it is. */
  method WriteAll(sink: Sink, buf: seq<byte>) returns (st: Status)
    modifies sink
    ensures var run := WriteOutcome(old(sink.replies), |buf|);
            && st == run.status
            && sink.written == old(sink.written) + buf[..run.written]
            && sink.replies == old(sink.replies)[run.consumed..]
    ensures st.Success? ==> sink.written == old(sink.written) + buf
    ensures st.Failure? ==>
              WrittenWithin(old(sink.written), sink.written, buf) && |sink.written| < |old(sink.written) + buf|
    ensures st.Failure? ==> st.errno != EINTR
    ensures st.Failure? ==> st.errno == EIO || WriteError(st.errno) in old(sink.replies)
    ensures Healthy(old(sink.replies)) ==> st.Success? && Healthy(sink.replies)
    ensures IsSuffix(sink.replies, old(sink.replies))
    ensures st.Success? ==> CleanWrites(old(sink.replies), sink.replies)
    ensures st.Failure? ==> FailedWrite(old(sink.replies), sink.replies, st.errno)
  {
    ghost var start := sink.replies;
    ghost var run := WriteOutcome(start, |buf|);
    var off := 0;
    st := Success;
    while off < |buf|
      invariant off <= |buf|
      invariant sink.written == old(sink.written) + buf[..off]
      invariant IsSuffix(sink.replies, start)
      invariant Continues(run, sink.replies, |buf|, off, |start|)
      invariant st == Success
      decreases |sink.replies| + (|buf| - off)
    {
      ghost var before := sink.replies;
      var r := sink.Write(buf[off..]);
      WriteStep(run, before, |buf|, off, |start|, r, sink.replies);
      match r
      case WriteError(e) =>
        if e == EINTR {
          continue;
        }
        st := Failure(e);
        break;
      case Accepted(n) =>
        if n == 0 {
          st := Failure(EIO);
          break;
        }
        Advance(old(sink.written), buf, off, n, sink.written);
        off := off + n;
    }
    assert run == WriteRun(st, off, |start| - |sink.replies|);
    WriteOutcomeMeans(start, buf, old(sink.written), st, sink.written, sink.replies);
  }

  /** The bytes a write accepts from the unwritten part of the buffer
      extend what is written of it. */
  lemma Advance(w0: seq<byte>, buf: seq<byte>, off: nat, n: nat, written: seq<byte>)
    requires off + n <= |buf| && written == (w0 + buf[..off]) + buf[off..][..n]
    ensures written == w0 + buf[..off + n]
  {
    assert buf[off..][..n] == buf[off..off + n];
    assert buf[..off] + buf[off..off + n] == buf[..off + n];
  }

  /** The replies one write_all consumes answer it as WriteOutcome says:
      progress and interruptions only when it succeeds, and the failure it
      reports last when it fails. */
  lemma WriteOutcomeTie(replies: seq<WriteReply>, left: nat)
    ensures var r := WriteOutcome(replies, left);
            && (r.status.Success? ==> CleanWrites(replies, replies[r.consumed..]))
            && (r.status.Failure? ==> FailedWrite(replies, replies[r.consumed..], r.status.errno))
  {
    WriteOutcomeSuccess(replies, left);
    WriteOutcomeFailure(replies, left);
  }

  /** The bytes of several buffers, one after the other. */
  function Concat(segs: seq<seq<byte>>): seq<byte>
  {
    if segs == [] then [] else segs[0] + Concat(segs[1..])
  }

  /** write_all called on each buffer of `segs` in turn, stopping at the
      first call that fails: how it ends, how many bytes of Concat(segs) get
      written and how many replies it consumes. */
  function WriteEach(replies: seq<WriteReply>, segs: seq<seq<byte>>): (r: WriteRun)
    ensures r.consumed <= |replies|
    decreases |segs|
  {
    if segs == [] then WriteRun(Success, 0, 0)
    else
      var w := WriteOutcome(replies, |segs[0]|);
      if w.status.Failure? then w
      else
        var r := WriteEach(replies[w.consumed..], segs[1..]);
        WriteRun(r.status, |segs[0]| + r.written, w.consumed + r.consumed)
  }

  /** The first write_all of a non-empty sequence of them. */
  lemma WriteEachFirst(replies: seq<WriteReply>, segs: seq<seq<byte>>)
    requires segs != []
    ensures var w := WriteOutcome(replies, |segs[0]|);
            && (w.status.Failure? ==> WriteEach(replies, segs) == w)
            && (w.status.Success? ==>
                  var r := WriteEach(replies[w.consumed..], segs[1..]);
                  WriteEach(replies, segs) == WriteRun(r.status, |segs[0]| + r.written, w.consumed + r.consumed))
  {
  }

  /** A sequence of write_all calls writes a prefix of the concatenated
      buffers, all of it exactly when the last call succeeds. */
  lemma {:induction false} WriteEachBounds(replies: seq<WriteReply>, segs: seq<seq<byte>>)
    ensures var r := WriteEach(replies, segs);
            && r.written <= |Concat(segs)|
            && (r.status.Success? <==> r.written == |Concat(segs)|)
    decreases |segs|
  {
    if segs != [] {
      var w := WriteOutcome(replies, |segs[0]|);
      if w.status.Success? {
        WriteEachBounds(replies[w.consumed..], segs[1..]);
      }
    }
  }

  /** The replies consumed by a sequence of write_all calls: progress and
      interruptions only when all of them succeed; otherwise those, and then
      the failure reported. */
  lemma {:induction false} WriteEachTie(replies: seq<WriteReply>, segs: seq<seq<byte>>)
    ensures var r := WriteEach(replies, segs);
            && (r.status.Success? ==> CleanWrites(replies, replies[r.consumed..]))
            && (r.status.Failure? ==> FailedWrite(replies, replies[r.consumed..], r.status.errno))
    decreases |segs|
  {
    if segs == [] {
      assert replies[..0] == [];
    } else {
      var w := WriteOutcome(replies, |segs[0]|);
      WriteOutcomeTie(replies, |segs[0]|);
      if w.status.Success? {
        var after := replies[w.consumed..];
        var r := WriteEach(after, segs[1..]);
        WriteEachTie(after, segs[1..]);
        assert after[r.consumed..] == replies[w.consumed + r.consumed..];
        if r.status.Success? {
          CleanThenClean(replies, after, after[r.consumed..]);
        } else {
          CleanThenFailed(replies, after, after[r.consumed..], r.status.errno);
        }
      }
    }
  }

  /** The bytes delivered before the first end of input or hard failure,
      interrupted reads being retried. */
  function StreamData(replies: seq<ReadReply>): seq<byte>
  {
    if replies == [] then []
    else match replies[0]
      case Data(b) => if b == [] then [] else b + StreamData(replies[1..])
      case ReadError(e) => if e == EINTR then StreamData(replies[1..]) else []
  }
}
