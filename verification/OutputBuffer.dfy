/**
 * The output capture of one bounded command: stdout and stderr share one budget.
 */
module OutputBuffer {

  datatype Stream = Stdout | Stderr

  type Byte = b: int | 0 <= b < 256

  // One byte as the process produced it: which stream, which byte.
  datatype Mark = Mark(stream: Stream, byte: Byte)

  function Tag(stream: Stream, p: seq<Byte>): (marks: seq<Mark>)
    ensures |marks| == |p|
  {
    seq(|p|, i requires 0 <= i < |p| => Mark(stream, p[i]))
  }

  function Project(stream: Stream, log: seq<Mark>): seq<Byte> {
    if log == [] then []
    else (if log[0].stream == stream then [log[0].byte] else []) + Project(stream, log[1..])
  }

  function Min(a: int, b: int): int { if a < b then a else b }

  lemma ProjectHead(stream: Stream, log: seq<Mark>)
    requires log != []
    ensures Project(stream, log) == (if log[0].stream == stream then [log[0].byte] else []) + Project(stream, log[1..])
  {
  }

  lemma {:induction false} ProjectConcat(stream: Stream, a: seq<Mark>, b: seq<Mark>)
    ensures Project(stream, a + b) == Project(stream, a) + Project(stream, b)
  {
    if a == [] {
      assert a + b == b;
    } else {
      var tail := a[1..];
      ProjectConcat(stream, tail, b);
      ProjectHead(stream, a);
      ProjectHead(stream, a + b);
      assert (a + b)[1..] == tail + b;
      Associate(if a[0].stream == stream then [a[0].byte] else [], Project(stream, tail), Project(stream, b));
    }
  }

  lemma Associate(a: seq<Byte>, b: seq<Byte>, c: seq<Byte>)
    ensures a + (b + c) == a + b + c
  {
  }

  lemma {:induction false} ProjectTag(stream: Stream, of: Stream, p: seq<Byte>)
    ensures Project(stream, Tag(of, p)) == if stream == of then p else []
  {
    if p != [] {
      assert Tag(of, p)[1..] == Tag(of, p[1..]);
      ProjectTag(stream, of, p[1..]);
      assert p == [p[0]] + p[1..];
    }
  }

  // What is kept of one stream is a prefix of what was written to it.
  lemma KeptIsPrefix(stream: Stream, log: seq<Mark>, k: nat)
    requires k <= |log|
    ensures Project(stream, log[..k]) <= Project(stream, log)
  {
    ProjectConcat(stream, log[..k], log[k..]);
    assert log[..k] + log[k..] == log;
  }

  lemma {:induction false} ProjectLengths(log: seq<Mark>)
    ensures |Project(Stdout, log)| + |Project(Stderr, log)| == |log|
  {
    if log != [] {
      ProjectLengths(log[1..]);
    }
  }

  // The first `cap` bytes produced, in the order they were produced.
  function Kept(log: seq<Mark>, cap: nat): seq<Mark> { log[..Min(|log|, cap)] }

  class SharedOutputBuffer {
    const cap: nat
    var stdoutBuf: seq<Byte>
    var stderrBuf: seq<Byte>
    var totalUsed: int
    var written: int
    var truncated: bool
    var overflowed: bool
    var closes: nat  // how often the overflow channel was closed; a second time would panic
    ghost var log: seq<Mark>

    ghost predicate Valid()
      reads this
    {
      && written == |log|
      && totalUsed == Min(written, cap)
      && stdoutBuf == Project(Stdout, Kept(log, cap))
      && stderrBuf == Project(Stderr, Kept(log, cap))
      && (truncated <==> written > cap)
      && overflowed == truncated
      && closes == (if overflowed then 1 else 0)
    }

    constructor (cap: nat)
      ensures Valid() && log == [] && this.cap == cap
    {
      this.cap := cap;
      stdoutBuf, stderrBuf, totalUsed, written := [], [], 0, 0;
      truncated, overflowed, closes, log := false, false, 0, [];
    }

    method WriteStdout(p: seq<Byte>) returns (n: nat)
      requires Valid()
      modifies this
      ensures Valid() && n == |p| && log == old(log) + Tag(Stdout, p)
    {
      KeptAfterWrite(log, cap, Stdout, p);
      written := written + |p|;
      log := log + Tag(Stdout, p);
      if totalUsed + |p| > cap {
        var remaining := cap - totalUsed;
        if remaining > 0 {
          stdoutBuf := stdoutBuf + p[..remaining];
          totalUsed := cap;
        }
        truncated := true;
        if !overflowed {
          overflowed := true;
          closes := closes + 1;
        }
        return |p|;
      }
      stdoutBuf := stdoutBuf + p;
      totalUsed := totalUsed + |p|;
      n := |p|;
    }

    method WriteStderr(p: seq<Byte>) returns (n: nat)
      requires Valid()
      modifies this
      ensures Valid() && n == |p| && log == old(log) + Tag(Stderr, p)
    {
      KeptAfterWrite(log, cap, Stderr, p);
      written := written + |p|;
      log := log + Tag(Stderr, p);
      if totalUsed + |p| > cap {
        var remaining := cap - totalUsed;
        if remaining > 0 {
          stderrBuf := stderrBuf + p[..remaining];
          totalUsed := cap;
        }
        truncated := true;
        if !overflowed {
          overflowed := true;
          closes := closes + 1;
        }
        return |p|;
      }
      stderrBuf := stderrBuf + p;
      totalUsed := totalUsed + |p|;
      n := |p|;
    }

    method BytesRetained() returns (n: nat)
      requires Valid()
      ensures n == totalUsed
    {
      ProjectLengths(Kept(log, cap));
      n := |stdoutBuf| + |stderrBuf|;
    }
  }

  // A write adds to the kept bytes of its own stream what still fits, and nothing
  // to the other stream.
  lemma KeptAfterWrite(log: seq<Mark>, cap: nat, stream: Stream, p: seq<Byte>)
    ensures var room := Min(|p|, cap - Min(|log|, cap));
            && 0 <= room <= |p|
            && Project(stream, Kept(log + Tag(stream, p), cap)) == Project(stream, Kept(log, cap)) + p[..room]
            && forall other :: other != stream ==>
                 Project(other, Kept(log + Tag(stream, p), cap)) == Project(other, Kept(log, cap))
  {
    var room := Min(|p|, cap - Min(|log|, cap));
    assert Kept(log + Tag(stream, p), cap) == Kept(log, cap) + Tag(stream, p[..room]);
    forall s: Stream
      ensures Project(s, Kept(log + Tag(stream, p), cap)) ==
              Project(s, Kept(log, cap)) + (if s == stream then p[..room] else [])
    {
      ProjectConcat(s, Kept(log, cap), Tag(stream, p[..room]));
      ProjectTag(s, stream, p[..room]);
    }
  }

  datatype Write = Write(stream: Stream, bytes: seq<Byte>)

  function Interleaved(writes: seq<Write>): seq<Mark> {
    if writes == [] then []
    else Interleaved(writes[..|writes| - 1]) + Tag(writes[|writes| - 1].stream, writes[|writes| - 1].bytes)
  }

  datatype Capture = Capture(
    stdout: seq<Byte>,
    stderr: seq<Byte>,
    observed: nat,
    retained: nat,
    truncated: bool,
    closes: nat)

  // Any interleaving of writes to the two streams.
  method CaptureAll(cap: nat, writes: seq<Write>) returns (c: Capture)
    ensures var log := Interleaved(writes);
            && c.stdout == Project(Stdout, Kept(log, cap)) && c.stdout <= Project(Stdout, log)
            && c.stderr == Project(Stderr, Kept(log, cap)) && c.stderr <= Project(Stderr, log)
            && c.observed == |log| && c.retained == |c.stdout| + |c.stderr| == Min(|log|, cap)
            && (c.truncated <==> |log| > cap)
            && c.closes == (if |log| > cap then 1 else 0)
  {
    var b := new SharedOutputBuffer(cap);
    for i := 0 to |writes|
      invariant b.Valid() && fresh(b) && b.cap == cap
      invariant b.log == Interleaved(writes[..i])
    {
      assert writes[..i + 1][..i] == writes[..i];
      if writes[i].stream.Stdout? {
        var n := b.WriteStdout(writes[i].bytes);
      } else {
        var n := b.WriteStderr(writes[i].bytes);
      }
    }
    assert writes[..|writes|] == writes;
    var retained := b.BytesRetained();
    ProjectLengths(Kept(b.log, cap));
    KeptIsPrefix(Stdout, b.log, Min(|b.log|, cap));
    KeptIsPrefix(Stderr, b.log, Min(|b.log|, cap));
    c := Capture(b.stdoutBuf, b.stderrBuf, b.written, retained, b.truncated, b.closes);
  }
}
