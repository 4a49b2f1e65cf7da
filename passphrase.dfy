/**
 * The library's entry points around readpassphrase(3): the borrow shape
 * `readpassphrase`, the transfer shape `readpassphrase_owned` (with its
 * helper `readpassphrase_mut`), `getpass`, and `OwnedError`, the error of
 * the transfer shape that hands the caller's buffer back.
 */
module Passphrase {
  import opened Wrappers
  import opened Bytes
  import Utf8Text
  import opened Errors
  import opened Vecs
  import Flags
  import Ffi

  /** `PASSWORD_LEN`: the size of the buffer `getpass` reads into. */
  const PASSWORD_LEN: nat := 256

  /**
   * The NUL scan and UTF-8 check both shapes run once the primitive has
   * succeeded: the bytes before the first NUL, if they are UTF-8, else a
   * `Utf8` error; never a shortened or altered text.
   */
  function DecodeUntilNul(s: seq<byte>): (r: Result<seq<byte>, Error>)
    requires 0 in s
    ensures r.Success? <==> Utf8Text.IsOctets(s[..FirstNul(s).value])
    ensures r.Success? ==> |r.value| == FirstNul(s).value && r.value == s[..|r.value|]
    ensures r.Failure? ==> r.error.Utf8? && r.error.utf8.validUpTo < FirstNul(s).value
  {
    var text := UntilNul(s).value;
    match Utf8Text.ToStr(text)
    case Success(t) => Success(t)
    case Failure(e) => Failure(Utf8(e))
  }

  /**
   * What one call yields when the terminal interaction is `tty` and the
   * primitive is given room for `bufsiz` bytes: `Io` carrying the
   * primitive's `errno` exactly when it fails, otherwise the stored bytes
   * before the terminator, decoded as UTF-8.
   */
  function Outcome(tty: Ffi.Terminal, bufsiz: nat): (r: Result<seq<byte>, Error>)
    ensures (r.Failure? && r.error.Io?) <==> !Ffi.Accepts(tty, bufsiz)
    ensures !Ffi.Accepts(tty, bufsiz) ==> r == Failure(Io(OsError(Ffi.Errno(tty, bufsiz))))
    ensures r.Success? ==> |r.value| < bufsiz && 0 !in r.value && Utf8Text.IsOctets(r.value)
    ensures r.Success? ==> tty.Typed? && |r.value| <= |tty.line| && r.value == tty.line[..|r.value|]
  {
    if !Ffi.Accepts(tty, bufsiz) then
      Failure(Io(OsError(Ffi.Errno(tty, bufsiz))))
    else
      var stored := Ffi.Stored(tty.line, bufsiz);
      var r := DecodeUntilNul(stored);
      assert r.Success? ==> r.value == stored[..|r.value|] == tty.line[..|r.value|];
      r
  }

  /**
   * Whatever the primitive leaves after its terminator, scanning the whole
   * buffer gives the `Outcome`: the wrapper's result depends only on the
   * bytes up to the first NUL.
   */
  lemma DecodeWritten(tty: Ffi.Terminal, bufsiz: nat, storage: seq<byte>)
    requires Ffi.Accepts(tty, bufsiz)
    requires |Ffi.Stored(tty.line, bufsiz)| <= |storage|
    requires storage[..|Ffi.Stored(tty.line, bufsiz)|] == Ffi.Stored(tty.line, bufsiz)
    ensures 0 in storage
    ensures DecodeUntilNul(storage) == Outcome(tty, bufsiz)
  {
    var stored := Ffi.Stored(tty.line, bufsiz);
    assert storage == stored + storage[|stored|..];
    assert stored[|stored| - 1] == 0;
    UntilNulIgnoresTail(stored, storage[|stored|..]);
  }

  /**
   * A typed line comes back unchanged, cut to the `bufsiz - 1` bytes that
   * fit, whenever that part is NUL-free UTF-8.
   */
  lemma TypedLineComesBack(line: seq<byte>, bufsiz: nat)
    requires bufsiz > 0
    requires var n := if |line| < bufsiz then |line| else bufsiz - 1;
      0 !in line[..n] && Utf8Text.IsOctets(line[..n])
    ensures var n := if |line| < bufsiz then |line| else bufsiz - 1;
      Outcome(Ffi.Typed(line), bufsiz) == Success(line[..n])
  {
    var n := if |line| < bufsiz then |line| else bufsiz - 1;
    var stored := Ffi.Stored(line, bufsiz);
    assert stored == line[..n] + [0] + [];
    UntilNulOfTerminated(line[..n], []);
  }

  /**
   * When the part of the line that fits is NUL-free but not UTF-8, the
   * call reports `Utf8`, locating the first bad character.
   */
  lemma InvalidLineIsReported(line: seq<byte>, bufsiz: nat)
    requires bufsiz > 0
    requires var n := if |line| < bufsiz then |line| else bufsiz - 1;
      0 !in line[..n] && !Utf8Text.IsOctets(line[..n])
    ensures var n := if |line| < bufsiz then |line| else bufsiz - 1;
      Outcome(Ffi.Typed(line), bufsiz) == Failure(Utf8(Utf8Text.Utf8Error(Utf8Text.ValidUpTo(line[..n]))))
  {
    var n := if |line| < bufsiz then |line| else bufsiz - 1;
    var stored := Ffi.Stored(line, bufsiz);
    assert stored == line[..n] + [0] + [];
    UntilNulOfTerminated(line[..n], []);
  }

  /**
   * The transfer shape's error value: the error and, until it is taken, the
   * caller's buffer (`struct OwnedError(Error, Option<Vec<u8>>)`).
   */
  class OwnedError {
    var err: Error
    var buf: Option<Vec>

    /** The held `Vec` object, if any. */
    ghost function Held(): set<object>
      reads this
    {
      if buf.Some? then {buf.value} else {}
    }

    /** The held `Vec`'s allocation, if any. */
    ghost function HeldStorage(): set<object>
      reads this, Held()
    {
      if buf.Some? then {buf.value.data} else {}
    }

    constructor (err: Error, buf: Option<Vec>)
      ensures this.err == err && this.buf == buf
    {
      this.err := err;
      this.buf := buf;
    }

    /**
     * `OwnedError::take`: the first call moves the held buffer out; every
     * later call returns a new empty `Vec`.  The buffer's bytes are not
     * erased, and nothing else changes.
     */
    method Take() returns (v: Vec)
      modifies this`buf
      ensures buf == None
      ensures old(buf).Some? ==> v == old(buf).value
      ensures old(buf).None? ==> fresh(v) && fresh(v.data) && v.Valid() && v.Capacity() == 0 && v.len == 0
    {
      if buf.Some? {
        v := buf.value;
      } else {
        v := new Vec.New();
      }
      buf := None;
    }

    /**
     * `Drop for OwnedError`: a buffer still held is zeroized (emptied, every
     * byte of its capacity set to zero); once taken, dropping does nothing.
     */
    method Drop()
      modifies this`buf, Held(), HeldStorage()
      ensures buf == None && err == old(err)
      ensures old(buf).Some? ==>
        && old(buf).value.data == old(buf.value.data)
        && old(buf).value.Valid()
        && old(buf).value.State() == Zeroized(old(buf.value.State()))
    {
      var held := buf;
      buf := None;
      if held.Some? {
        held.value.Zeroize();
      }
    }
  }

  /**
   * `From<OwnedError> for Error`: the inner error, with an `Io(Other)`
   * placeholder left behind, after which the consumed value is dropped,
   * which zeroizes a buffer that was never taken.
   */
  method FromOwnedError(value: OwnedError) returns (e: Error)
    modifies value, value.Held(), value.HeldStorage()
    ensures e == old(value.err)
    ensures value.err == Io(Other) && value.buf == None
    ensures old(value.buf).Some? ==>
      && old(value.buf).value.data == old(value.buf.value.data)
      && old(value.buf).value.Valid()
      && old(value.buf).value.State() == Zeroized(old(value.buf.value.State()))
  {
    e := value.err;
    value.err := Io(Other);
    value.Drop();
  }

  /**
   * `readpassphrase`, the borrow shape: the primitive may use all of `buf`
   * (`buf.len()` bytes); the result is `Outcome` for that size, and a text
   * is the buffer's own first bytes, right up to the terminator.
   */
  method ReadPassphrase(prompt: CStr, buf: array<byte>, flags: Flags.Flags, tty: Ffi.Interaction)
    returns (r: Result<seq<byte>, Error>)
    modifies buf
    ensures r == Outcome(tty(flags), buf.Length)
    ensures Ffi.Accepts(tty(flags), buf.Length) ==>
      buf[..|Ffi.Stored(tty(flags).line, buf.Length)|] == Ffi.Stored(tty(flags).line, buf.Length)
    ensures r.Success? ==> |r.value| <= buf.Length - 1
    ensures r.Success? ==> r.value == buf[..|r.value|] && buf[|r.value|] == 0
  {
    var res, errno := Ffi.ReadPassphrase(prompt, buf, buf.Length, flags, tty);
    if res.Null? {
      return Failure(Io(OsError(errno)));
    }
    var written := buf[..];
    DecodeWritten(tty(flags), buf.Length, written);
    r := DecodeUntilNul(written);
  }

  /**
   * `readpassphrase_mut`: the primitive may use the whole capacity of
   * `buf`; on success the length is set to the terminator's index and the
   * same storage is moved out as the `String`, leaving `buf` an empty `Vec`;
   * on failure `buf` keeps its storage and its length.
   */
  method ReadPassphraseMut(prompt: CStr, buf: Vec, flags: Flags.Flags, tty: Ffi.Interaction)
    returns (r: Result<RString, Error>)
    requires buf.Valid()
    modifies buf, buf.data
    ensures buf.Valid()
    ensures Ffi.Accepts(tty(flags), old(buf.Capacity())) ==>
      old(buf.data)[..|Ffi.Stored(tty(flags).line, old(buf.Capacity()))|] == Ffi.Stored(tty(flags).line, old(buf.Capacity()))
    ensures r.Success? <==> Outcome(tty(flags), old(buf.Capacity())).Success?
    ensures r.Failure? ==>
      && r.error == Outcome(tty(flags), old(buf.Capacity())).error
      && buf.data == old(buf.data) && buf.len == old(buf.len)
    ensures r.Success? ==>
      && fresh(r.value) && fresh(r.value.vec)
      && r.value.vec.data == old(buf.data)
      && r.value.Valid() && r.value.IsText()
      && r.value.vec.Contents() == Outcome(tty(flags), old(buf.Capacity())).value
      && r.value.vec.len < r.value.vec.Capacity() && r.value.vec.data[r.value.vec.len] == 0
    ensures r.Success? ==> fresh(buf.data) && buf.Capacity() == 0 && buf.len == 0
  {
    var cap := buf.Capacity();
    var res, errno := Ffi.ReadPassphrase(prompt, buf.data, cap, flags, tty);
    if res.Null? {
      return Failure(Io(OsError(errno)));
    }
    // `CStr::from_ptr` scans from the start of the allocation; the
    // primitive's terminator lies below `cap`.
    var written := buf.data[..];
    DecodeWritten(tty(flags), cap, written);
    var text := DecodeUntilNul(written);
    if text.Failure? {
      return Failure(text.error);
    }
    buf.SetLen(|text.value|);
    assert buf.Contents() == text.value;
    Utf8Text.IsValidIff(text.value);
    var v := buf.MemTake();
    var s := new RString.FromUtf8Unchecked(v);
    r := Success(s);
  }

  /**
   * `readpassphrase_owned`, the transfer shape.  Success is as for
   * `ReadPassphraseMut`.  On any error the buffer is only `clear()`ed: it
   * comes back in the `OwnedError` with length 0, the same storage and
   * capacity, and whatever the primitive wrote still in that storage.
   */
  method ReadPassphraseOwned(prompt: CStr, buf: Vec, flags: Flags.Flags, tty: Ffi.Interaction)
    returns (r: Result<RString, OwnedError>)
    requires buf.Valid()
    modifies buf, buf.data
    ensures Ffi.Accepts(tty(flags), old(buf.Capacity())) ==>
      old(buf.data)[..|Ffi.Stored(tty(flags).line, old(buf.Capacity()))|] == Ffi.Stored(tty(flags).line, old(buf.Capacity()))
    ensures r.Success? <==> Outcome(tty(flags), old(buf.Capacity())).Success?
    ensures r.Success? ==>
      && fresh(r.value) && fresh(r.value.vec)
      && r.value.vec.data == old(buf.data)
      && r.value.Valid() && r.value.IsText()
      && r.value.vec.Contents() == Outcome(tty(flags), old(buf.Capacity())).value
      && r.value.vec.len < r.value.vec.Capacity() && r.value.vec.data[r.value.vec.len] == 0
    ensures r.Success? ==> fresh(buf.data) && buf.Capacity() == 0 && buf.len == 0
    ensures r.Failure? ==>
      && fresh(r.error)
      && r.error.err == Outcome(tty(flags), old(buf.Capacity())).error
      && r.error.buf == Some(buf)
      && buf.Valid() && buf.len == 0 && buf.data == old(buf.data)
  {
    var res := ReadPassphraseMut(prompt, buf, flags, tty);
    if res.Success? {
      r := Success(res.value);
    } else {
      buf.Clear();
      var oe := new OwnedError(res.error, Some(buf));
      r := Failure(oe);
    }
  }

  /**
   * `getpass`: the transfer shape on a fresh `vec![0u8; PASSWORD_LEN]`
   * (`storage` is its allocation) with empty flags, its `OwnedError` turned
   * into `Error` by `From`.  A password is at most `PASSWORD_LEN - 1` bytes
   * and lives in that 256-byte storage; on error the buffer (`abandoned`)
   * ends zeroized in that same storage.
   */
  method Getpass(prompt: CStr, tty: Ffi.Interaction)
    returns (r: Result<RString, Error>, ghost abandoned: Vec, ghost storage: array<byte>)
    ensures fresh(storage) && storage.Length == PASSWORD_LEN
    ensures r.Success? <==> Outcome(tty(Flags.Empty()), PASSWORD_LEN).Success?
    ensures r.Success? ==>
      && fresh(r.value) && fresh(r.value.vec) && r.value.vec.data == storage
      && r.value.Valid() && r.value.IsText()
      && r.value.vec.Contents() == Outcome(tty(Flags.Empty()), PASSWORD_LEN).value
      && r.value.vec.len <= PASSWORD_LEN - 1
    ensures r.Failure? ==> r.error == Outcome(tty(Flags.Empty()), PASSWORD_LEN).error
    ensures r.Failure? ==>
      && fresh(abandoned) && abandoned.data == storage
      && abandoned.len == 0 && storage[..] == Zeros(PASSWORD_LEN)
  {
    var buf := new Vec.Filled(PASSWORD_LEN);
    abandoned, storage := buf, buf.data;
    var res := ReadPassphraseOwned(prompt, buf, Flags.Empty(), tty);
    if res.Success? {
      r := Success(res.value);
    } else {
      var e := FromOwnedError(res.error);
      r := Failure(e);
    }
  }
}
