/**
 * The foreign C function `readpassphrase(3)`, which this library wraps but
 * does not implement.  It is modelled as an oracle: an `Interaction` gives,
 * for the flags the caller passes, the `Terminal` value that stands for
 * everything that happens at the terminal during one call (the prompt, echo,
 * the flags' case folding and bit stripping, end of input, signals).  The
 * primitive either fails, returning a null pointer and setting `errno`, or
 * stores what was read, cut to `bufsiz - 1` bytes, followed by a NUL
 * terminator, and returns the buffer.
 */
module Ffi {
  import opened Bytes
  import Flags

  /** `EINVAL`, the error readpassphrase(3) reports for `bufsiz == 0`. */
  const EINVAL: int := 22

  /** One call's worth of terminal interaction, from the primitive's side. */
  datatype Terminal =
    | Broken(errno: int)      // no terminal, interrupted, end of input: the call fails
    | Typed(line: seq<byte>)  // the (already flag-processed) bytes read before the newline

  /**
   * How the terminal behaves under each choice of flags: the flags reach the
   * primitive, and what it reads may depend on them (echo, case folding,
   * seven-bit stripping, reading standard input instead of the TTY).
   */
  type Interaction = Flags.Flags -> Terminal

  /** The pointer readpassphrase(3) returns: null, or the buffer it was given. */
  datatype CPtr = Null | Buf

  /** Whether the primitive succeeds; with no room for a terminator it cannot. */
  predicate Accepts(tty: Terminal, bufsiz: nat) {
    tty.Typed? && bufsiz > 0
  }

  /** The `errno` a failed call leaves behind. */
  function Errno(tty: Terminal, bufsiz: nat): int
    requires !Accepts(tty, bufsiz)
  {
    if bufsiz == 0 then EINVAL else tty.errno
  }

  /** What a successful call stores: at most `bufsiz - 1` bytes of the line, then NUL. */
  function Stored(line: seq<byte>, bufsiz: nat): (s: seq<byte>)
    requires bufsiz > 0
    ensures 0 < |s| <= bufsiz && s[|s| - 1] == 0
    ensures |s| - 1 == if |line| < bufsiz then |line| else bufsiz - 1
    ensures s[..|s| - 1] == line[..|s| - 1]
  {
    var n := if |line| < bufsiz then |line| else bufsiz - 1;
    line[..n] + [0]
  }

  /**
   * `readpassphrase(prompt, buf, bufsiz, flags)`, when the terminal behaves
   * as `tty(flags)`.  Its contract, which is all the wrapper relies on:
   * success exactly when `Accepts`; on success the
   * first bytes of `buf` are `Stored(...)`, so a NUL lies at an index below
   * `bufsiz`; bytes at and beyond `bufsiz` are never touched; after a
   * failure the first `bufsiz` bytes are unspecified.
   */
  method ReadPassphrase(prompt: CStr, buf: array<byte>, bufsiz: nat, flags: Flags.Flags, tty: Interaction)
    returns (res: CPtr, errno: int)
    requires bufsiz <= buf.Length
    modifies buf
    ensures res.Buf? <==> Accepts(tty(flags), bufsiz)
    ensures res.Null? ==> errno == Errno(tty(flags), bufsiz)
    ensures res.Buf? ==> buf[..|Stored(tty(flags).line, bufsiz)|] == Stored(tty(flags).line, bufsiz)
    ensures res.Buf? ==> exists i :: 0 <= i < bufsiz && buf[i] == 0
    ensures forall i :: bufsiz <= i < buf.Length ==> buf[i] == old(buf[i])
  {
    var t := tty(flags);
    if !Accepts(t, bufsiz) {
      return Null, Errno(t, bufsiz);
    }
    var s := Stored(t.line, bufsiz);
    forall i | 0 <= i < |s| {
      buf[i] := s[i];
    }
    assert buf[|s| - 1] == 0;
    res, errno := Buf, 0;
  }
}
