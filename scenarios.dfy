/**
 * Client code that calls the library the way callers do and shows, from
 * the contracts alone, what a caller can rely on.
 */
module Scenarios {
  import opened Wrappers
  import opened Bytes
  import Utf8Text
  import opened Errors
  import opened Vecs
  import Flags
  import Ffi
  import opened Passphrase

  /** The bytes of "secret". */
  const SECRET: seq<byte> := [0x73, 0x65, 0x63, 0x72, 0x65, 0x74]

  /** Two bytes that cannot start a UTF-8 character. */
  const GARBAGE: seq<byte> := [0xFF, 0xFE]

  lemma SecretIsText()
    ensures Utf8Text.IsOctets(SECRET)
  {
    assert Utf8Text.ValidUpTo(SECRET[5..]) == 1;
    assert Utf8Text.ValidUpTo(SECRET[4..]) == 2 by { assert SECRET[4..][1..] == SECRET[5..]; }
    assert Utf8Text.ValidUpTo(SECRET[3..]) == 3 by { assert SECRET[3..][1..] == SECRET[4..]; }
    assert Utf8Text.ValidUpTo(SECRET[2..]) == 4 by { assert SECRET[2..][1..] == SECRET[3..]; }
    assert Utf8Text.ValidUpTo(SECRET[1..]) == 5 by { assert SECRET[1..][1..] == SECRET[2..]; }
    assert Utf8Text.ValidUpTo(SECRET) == 6;
    Utf8Text.IsValidIff(SECRET);
  }

  lemma GarbageIsNotText()
    ensures !Utf8Text.IsOctets(GARBAGE)
  {
    assert Utf8Text.CharLen(GARBAGE) == 0;
    Utf8Text.IsValidIff(GARBAGE);
  }

  /** Typed into 8 bytes, FF FE is reported as bad UTF-8 from its first byte on. */
  lemma GarbageOutcome()
    ensures Outcome(Ffi.Typed(GARBAGE), 8) == Failure(Utf8(Utf8Text.Utf8Error(0)))
  {
    GarbageIsNotText();
    assert GARBAGE[..2] == GARBAGE;
    assert Utf8Text.ValidUpTo(GARBAGE) == 0;
    InvalidLineIsReported(GARBAGE, 8);
  }

  /**
   * A NUL-free line of at most 7 bytes that is not UTF-8, typed into 8
   * bytes, is reported as bad UTF-8 at its own `valid_up_to`, and the
   * primitive stores it whole, terminator included.
   */
  lemma InvalidOutcome(line: seq<byte>)
    requires |line| < 8 && 0 !in line && !Utf8Text.IsValid(line)
    ensures Outcome(Ffi.Typed(line), 8) == Failure(Utf8(Utf8Text.Utf8Error(Utf8Text.ValidUpTo(line))))
    ensures Ffi.Stored(line, 8) == line + [0]
  {
    Utf8Text.IsValidIff(line);
    assert line[..|line|] == line;
    InvalidLineIsReported(line, 8);
  }

  /**
   * Capacity 8, "secret" typed: the transfer shape returns "secret" (length
   * 6) in the very storage the caller passed in, and the moved-from `Vec`
   * is empty.
   */
  method TransferSecret() returns (s: RString, ghost storage: array<byte>, ghost husk: Vec)
    ensures s.Valid() && s.vec.data == storage && storage.Length == 8
    ensures s.vec.Contents() == SECRET && s.vec.len == 6
    ensures husk.len == 0 && husk.Capacity() == 0
  {
    var buf := new Vec.Filled(8);
    storage, husk := buf.data, buf;
    SecretIsText();
    assert SECRET[..6] == SECRET;
    TypedLineComesBack(SECRET, 8);
    var r := ReadPassphraseOwned([], buf, Flags.Empty(), _ => Ffi.Typed(SECRET));
    s := r.value;
  }

  /**
   * Capacity 8, a NUL-free line of at most 7 bytes that is not UTF-8 typed
   * (FF FE is one, by `GarbageOutcome`): the transfer shape reports `Utf8`
   * at the line's `valid_up_to`; taking the buffer yields length 0 and
   * capacity 8, and the typed bytes and their terminator are still in its
   * storage, since only `Drop` erases; a second `take` yields a new empty
   * `Vec`.
   */
  method TransferInvalidTaken(line: seq<byte>) returns (e: Error, v: Vec, again: Vec)
    requires |line| < 8 && 0 !in line && !Utf8Text.IsValid(line)
    ensures e == Utf8(Utf8Text.Utf8Error(Utf8Text.ValidUpTo(line)))
    ensures v.Valid() && v.len == 0 && v.Capacity() == 8
    ensures v.data[..|line| + 1] == line + [0]
    ensures again != v && again.len == 0 && again.Capacity() == 0
  {
    var buf := new Vec.Filled(8);
    InvalidOutcome(line);
    var tty: Ffi.Interaction := _ => Ffi.Typed(line);
    assert tty(Flags.Empty()) == Ffi.Typed(line);
    var r := ReadPassphraseOwned([], buf, Flags.Empty(), tty);
    assert r.Failure? && r.error.buf == Some(buf);
    var oe := r.error;
    e := oe.err;
    v := oe.Take();
    again := oe.Take();
    oe.Drop();
  }

  /**
   * The same line typed, and the error dropped without `take`: the buffer
   * ends empty with all 8 bytes zero.
   */
  method TransferInvalidDropped(line: seq<byte>) returns (ghost abandoned: Vec)
    requires |line| < 8 && 0 !in line && !Utf8Text.IsValid(line)
    ensures abandoned.len == 0 && abandoned.data[..] == Zeros(8)
  {
    var buf := new Vec.Filled(8);
    abandoned := buf;
    InvalidOutcome(line);
    var tty: Ffi.Interaction := _ => Ffi.Typed(line);
    assert tty(Flags.Empty()) == Ffi.Typed(line);
    var r := ReadPassphraseOwned([], buf, Flags.Empty(), tty);
    assert r.Failure? && r.error.buf == Some(buf) && buf.Capacity() == 8;
    var oe := r.error;
    ghost var before := buf.State();
    oe.Drop();
    assert buf.State() == Zeroized(before);
  }

  /** A 256-byte buffer and a failing primitive: the borrow shape reports `Io` with its errno. */
  method BorrowBroken(errno: int) returns (r: Result<seq<byte>, Error>)
    ensures r == Failure(Io(OsError(errno)))
  {
    var buf := new byte[256];
    r := ReadPassphrase([], buf, Flags.Empty(), _ => Ffi.Broken(errno));
  }

  /**
   * A zero-capacity `Vec`: the library does not check for it, and the
   * primitive, given `bufsiz == 0`, fails with `EINVAL`; the buffer comes
   * back in the error: the first `take` returns the caller's own `Vec`.
   */
  method TransferZeroCapacity(line: seq<byte>) returns (e: Error, v: Vec, ghost caller: Vec)
    ensures e == Io(OsError(Ffi.EINVAL))
    ensures v == caller && v.len == 0 && v.Capacity() == 0
  {
    var buf := new Vec.New();
    caller := buf;
    var r := ReadPassphraseOwned([], buf, Flags.Empty(), _ => Ffi.Typed(line));
    e := r.error.err;
    v := r.error.Take();
  }
}
