/** readn and writen of src/dimserver/common/io/io.cpp over an adversarial kernel.

    The kernel answers each system call from a finite script of short transfers, interruptions and
    faults; once the script is used up it transfers everything asked for.
 */
module Io {
  import opened Bytes

  type Errno = e: int | e > 0 witness 1

  datatype Answer = Transfer(n: nat) | Interrupted | TryAgain | Fault(errno: Errno)

  function Min(a: int, b: int): int {
    if a < b then a else b
  }

  function Max(a: int, b: int): int {
    if a < b then b else a
  }

  /** An open file: its bytes and the offset of the next read.  Writes append (O_APPEND). */
  class File {
    var bytes: seq<Byte>
    var pos: nat

    constructor (contents: seq<Byte>)
      ensures bytes == contents && pos == 0
    {
      bytes, pos := contents, 0;
    }
  }

  class Kernel {
    var script: seq<Answer>
    /** Set when a system call has failed for good. */
    var faulted: bool

    constructor (answers: seq<Answer>)
      ensures script == answers && !faulted
    {
      script, faulted := answers, false;
    }

    method Next(size: nat) returns (a: Answer)
      modifies this
      ensures old(script) == [] ==> script == [] && a == Transfer(size)
      ensures old(script) != [] ==> script == old(script)[1..] && a == old(script)[0]
      ensures faulted == (old(faulted) || a.Fault?)
    {
      if script == [] {
        a := Transfer(size);
      } else {
        a, script := script[0], script[1..];
      }
      faulted := faulted || a.Fault?;
    }
  }

  /** Loops over short reads.  0: all `size` bytes read; -1: end of file met first, with the remaining
      bytes consumed; an errno: the kernel failed. */
  method ReadN(kernel: Kernel, f: File, size: nat) returns (ret: int, buf: seq<Byte>)
    modifies kernel, f`pos
    ensures ret >= -1 && f.pos >= old(f.pos)
    ensures kernel.faulted == (old(kernel.faulted) || ret > 0)
    ensures ret == 0 ==> f.pos == old(f.pos) + size
    ensures ret == 0 && size > 0 ==> f.pos <= |f.bytes| && buf == f.bytes[old(f.pos)..f.pos]
    ensures ret == 0 && size == 0 ==> buf == []
    ensures ret == -1 ==> size > 0 && old(f.pos) + size > |f.bytes|
    ensures ret == -1 ==> f.pos == if old(f.pos) < |f.bytes| then |f.bytes| else old(f.pos)
  {
    buf := [];
    var left := size;
    while left > 0
      invariant 0 <= left <= size
      invariant f.pos == old(f.pos) + (size - left)
      invariant if left == size then buf == [] else f.pos <= |f.bytes| && buf == f.bytes[old(f.pos)..f.pos]
      invariant kernel.faulted == old(kernel.faulted)
      decreases |kernel.script|, left
    {
      var a := kernel.Next(left);
      match a {
        case Transfer(k) =>
          // read(2) returns 0 only at the end of the file
          var n := Min(Min(left, Max(k, 1)), |f.bytes| - f.pos);
          if n > 0 {
            assert f.bytes[old(f.pos)..f.pos + n] == f.bytes[old(f.pos)..f.pos] + f.bytes[f.pos..f.pos + n];
            buf := buf + f.bytes[f.pos..f.pos + n];
            f.pos := f.pos + n;
            left := left - n;
          } else {
            return -1, buf;
          }
        case Interrupted =>
        case TryAgain =>
        case Fault(errno) =>
          return errno, buf;
      }
    }
    ret := 0;
  }

  /** `now` is `before` with a proper prefix of `buf` after it. */
  predicate Torn(now: seq<Byte>, before: seq<Byte>, buf: seq<Byte>) {
    && |before| <= |now| < |before| + |buf|
    && now == before + buf[..|now| - |before|]
  }

  /** A buffer written in two parts is torn if either part is. */
  lemma TornInParts(now: seq<Byte>, before: seq<Byte>, head: seq<Byte>, tail: seq<Byte>)
    ensures Torn(now, before, head) ==> Torn(now, before, head + tail)
    ensures Torn(now, before + head, tail) ==> Torn(now, before, head + tail)
  {
    if Torn(now, before, head) {
      assert (head + tail)[..|now| - |before|] == head[..|now| - |before|];
    }
    if Torn(now, before + head, tail) {
      assert (head + tail)[..|now| - |before|] == head + tail[..|now| - |before + head|];
    }
  }

  /** Loops over short writes.  0: the whole buffer was appended; an errno: only a proper prefix was. */
  method WriteN(kernel: Kernel, f: File, buf: seq<Byte>) returns (ret: int)
    modifies kernel, f`bytes
    ensures ret >= 0 && kernel.faulted == (old(kernel.faulted) || ret > 0)
    ensures ret == 0 ==> f.bytes == old(f.bytes) + buf
    ensures ret > 0 ==> Torn(f.bytes, old(f.bytes), buf)
  {
    var done := 0;
    assert buf[..0] == [];
    while done < |buf|
      invariant 0 <= done <= |buf|
      invariant f.bytes == old(f.bytes) + buf[..done]
      invariant kernel.faulted == old(kernel.faulted)
      decreases |kernel.script|, |buf| - done
    {
      var a := kernel.Next(|buf| - done);
      match a {
        case Transfer(k) =>
          var n := Min(|buf| - done, k);
          assert buf[..done] + buf[done..done + n] == buf[..done + n];
          f.bytes := f.bytes + buf[done..done + n];
          done := done + n;
        case Interrupted =>
        case TryAgain =>
        case Fault(errno) =>
          return errno;
      }
    }
    assert buf[..done] == buf;
    ret := 0;
  }
}
