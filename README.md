# readpassphrase-3 in Dafny

A model of the Rust crate `readpassphrase-3`. The crate wraps the blocking C
function `readpassphrase(3)`, and this model covers the lifecycle of the
buffer around that call:

- The borrow shape `readpassphrase` fills a caller's slice and returns the
  text read.
- The transfer shape `readpassphrase_owned` (and its helper
  `readpassphrase_mut`) fills a caller's `Vec<u8>` up to its capacity and
  returns that same storage as a `String`. On error it clears the `Vec` and
  hands it back inside an `OwnedError`.
- `OwnedError::take` moves the buffer out once. `Drop` zeroizes the buffer only
  if it was never taken. `From<OwnedError> for Error` extracts the error, and
  the drop that follows erases the buffer.
- The in-crate `Zeroize` for `Vec<u8>`, `String` and `[u8]`.
- `getpass`, `PASSWORD_LEN` and the `Flags` bit set.

Files and modules:

- `wrappers.dfy` (`Wrappers`): `Option` and `Result`.
- `bytes.dfy` (`Bytes`): the `byte` type, the prompt type `CStr`, and the scan
  for the first NUL (`CStr::from_bytes_until_nul`).
- `utf8.dfy` (`Utf8Text`): the UTF-8 grammar of section 4 of RFC 3629 as a
  ghost predicate (`IsOctets`), and the left-to-right validator
  (`ValidUpTo`, `IsValid`, `ToStr`) proved to decide exactly that grammar.
- `flags.dfy` (`Flags`): the six single-bit flags. The default is the empty
  set.
- `errors.dfy` (`Errors`): `Error = Io | Utf8`.
- `vec.dfy` (`Vecs`): `Vec<u8>` as a class over an `array<byte>`. The array is
  the allocation, `len` is the logical length, and `[len, capacity)` is spare
  storage holding whatever bytes were last written there. `String` is a class
  that owns a `Vec`. Both carry their `Zeroize` methods. Storage identity is
  array identity, so "no copy" means "the same array".
- `ffi.dfy` (`Ffi`): the C primitive as an oracle. A `Terminal` value describes
  one call: `Broken(errno)` (the call fails) or `Typed(line)`. An
  `Interaction` gives the `Terminal` for each choice of flags, and every entry
  point's result is stated for the terminal's behaviour under the flags it
  actually passes. On success the
  primitive stores at most `bufsiz - 1` bytes of the line followed by a NUL, so
  a terminator always lies below `bufsiz`. With `bufsiz == 0` it can only
  fail, and it reports `EINVAL`. It never touches bytes from `bufsiz` on.
- `passphrase.dfy` (`Passphrase`): the entry points and `OwnedError`.
  `Outcome(tty, bufsiz)` is the specification of one call, and each entry
  point's contract ties its result to it.
- `scenarios.dfy` (`Scenarios`): client code for the end-to-end cases. It
  covers the secret in an 8-byte buffer, bad UTF-8 with and without `take`, a
  failing primitive on the borrow shape, and a zero-capacity `Vec`.

Two points of the code's behaviour that a reader might expect otherwise:

- **Error path.** On failure the transfer shape does not erase the buffer; it
  only calls `clear()` (src/lib.rs:279). The `Vec` inside an `OwnedError` has
  length 0, but its storage still holds what the primitive wrote. Zeroing
  happens only in `Drop`, and only when `take` was never called
  (src/lib.rs:236-237, 314-318). `ReadPassphraseOwned`, `OwnedError.Take` and
  `Scenarios.TransferInvalidTaken` state this.
- **Zero capacity.** There is no zero-capacity check; capacity 0 goes straight
  to the primitive (src/lib.rs:293). The `Io` error the caller sees comes from
  the primitive's own contract (`Scenarios.TransferZeroCapacity`).

## Model

| member | source | states |
|---|---|---|
| `Bytes.FirstNul` | src/lib.rs:205 | finds a NUL exactly when the bytes contain one; the index it returns holds 0 and every earlier byte is non-zero |
| `Bytes.UntilNul` | src/lib.rs:205 | `CStr::from_bytes_until_nul`: `None` exactly when there is no NUL; otherwise a NUL-free prefix that is followed by a NUL |
| `Bytes.UntilNulIgnoresTail` | src/lib.rs:299 | bytes that follow the first NUL do not change what the scan reads; this is why scanning the whole capacity is sound |
| `Bytes.UntilNulOfTerminated` | src/lib.rs:299 | a NUL-terminated run of bytes reads back as exactly those bytes |
| `Utf8Text.CharWidth` | src/lib.rs:299 | the lead byte fixes a UTF-8 character's length, so the RFC 3629 grammar is prefix-free |
| `Utf8Text.CharLen` | src/lib.rs:299 | the character at the start of the input is recognised, and no other prefix length is a character |
| `Utf8Text.ValidUpTo` | src/lib.rs:299 | `Utf8Error::valid_up_to`: the greedy left-to-right validator, reading whole characters from the start; the prefix it covers lies inside the input |
| `Utf8Text.IsValid` | src/lib.rs:299 | the check behind `to_str`: the input is UTF-8 when the validator reaches its end (equal to the grammar by `IsValidIff`) |
| `Utf8Text.ValidUpToSound` | src/lib.rs:205 | the prefix the validator accepts is well-formed UTF-8 under RFC 3629 |
| `Utf8Text.ValidUpToMaximal` | src/lib.rs:205 | no longer prefix is well-formed, so `valid_up_to` is maximal |
| `Utf8Text.IsValidIff` | src/lib.rs:205 | the validator accepts exactly the byte strings the RFC 3629 grammar derives, in both directions |
| `Utf8Text.RejectsOverlong` | src/lib.rs:299 | the overlong form C0 AF is not UTF-8 |
| `Utf8Text.RejectsSurrogate` | src/lib.rs:299 | the encoded surrogate ED A0 80 is not UTF-8 |
| `Utf8Text.RejectsBeyondUnicode` | src/lib.rs:299 | F4 90 80 80 (above U+10FFFF) is not UTF-8 |
| `Utf8Text.AcceptsFourOctets` | src/lib.rs:299 | a four-octet character is UTF-8 |
| `Utf8Text.ToStr` | src/lib.rs:299 | `to_str`: succeeds exactly on UTF-8 and then returns the same bytes; otherwise `valid_up_to` is the longest valid prefix and lies inside the input |
| `Passphrase.PASSWORD_LEN` | src/lib.rs:124-128 | the size of `getpass`'s buffer, 256, so a password is at most 255 bytes |
| `Errors.Error` | src/lib.rs:161-168 | the error taxonomy: `Io` from the primitive, or `Utf8` for a password that is not UTF-8 |
| `Flags.Flags.Contains` | src/lib.rs:141-155 | `Flags::contains` for a single flag: every bit of the flag is set |
| `Flags.Bit` | src/lib.rs:141-155 | each flag is a single bit within 0x3F |
| `Flags.DistinctBits` | src/lib.rs:141-155 | distinct flags occupy disjoint bits |
| `Flags.Single` | src/lib.rs:141-155 | a flag constant contains that flag and no other |
| `Flags.Empty` | src/lib.rs:230 | `Flags::empty()` contains no flag |
| `Flags.Default` | src/lib.rs:141 | the derived default is the empty set |
| `Flags.Flags.Union` | src/lib.rs:141-155 | `|` on the bit set (from the `bitflags` derive; the crate itself never calls it): a union contains a flag exactly when either operand does |
| `Vecs.Zeroized` | src/lib.rs:383-389 | state after zeroize: length 0, capacity unchanged, every byte of the capacity zero |
| `Vecs.ZeroizedIdempotent` | src/lib.rs:383-402 | zeroizing twice gives the same state as zeroizing once |
| `Vecs.Vec.Zeroize` | src/lib.rs:383-389 | `clear()` and then zero-fill the spare capacity, which is then the whole allocation; same array, and the new state is `Zeroized` of the old one |
| `Vecs.ZeroizeSlice` | src/lib.rs:397-402 | `fill(0)`: every byte of the slice is zero, and the length is unchanged |
| `Vecs.RString.Zeroize` | src/lib.rs:391-395 | delegates to the `Vec`, so the same guarantees hold and the empty result is still valid text |
| `Vecs.Vec.Filled` | src/lib.rs:229 | `vec![0u8; n]`: a fresh allocation of exactly `n` zero bytes |
| `Vecs.Vec.New` | src/lib.rs:310 | `Vec::default()`: a fresh empty `Vec` with capacity 0 |
| `Vecs.Vec.Clear` | src/lib.rs:279 | length becomes 0; storage and bytes untouched |
| `Vecs.Vec.SetLen` | src/lib.rs:300 | length becomes `n`, allowed only when `n <= capacity`; storage untouched |
| `Vecs.Vec.MemTake` | src/lib.rs:301 | `mem::take`: a new handle owns the old array and length; the original becomes an empty `Vec` with a fresh zero-capacity allocation |
| `Vecs.RString.FromUtf8Unchecked` | src/lib.rs:301 | the `String` adopts exactly the `Vec` it is given, without a copy; allowed only when the contents are UTF-8 |
| `Ffi.Stored` | src/lib.rs:423-434 | what a successful primitive call stores: at most `bufsiz - 1` bytes of the line, truncated from its start, then a NUL |
| `Ffi.ReadPassphrase` | src/lib.rs:423-434 | the oracle contract, for the terminal's behaviour under the given flags: on success its bytes start the buffer and a NUL lies below `bufsiz`; nothing from `bufsiz` on is written; failure carries the errno, and `bufsiz == 0` always fails with `EINVAL` |
| `Passphrase.DecodeUntilNul` | src/lib.rs:205 | the bytes before the first NUL when they are UTF-8 (both directions), else a `Utf8` error inside that prefix; never a shortened text |
| `Passphrase.Outcome` | src/lib.rs:170-174 | one call's result: `Io` with the primitive's errno exactly when the primitive fails; a text is at most `bufsiz - 1` bytes, NUL-free, UTF-8, and a prefix of what was typed |
| `Passphrase.DecodeWritten` | src/lib.rs:195-205 | whatever the buffer holds after the terminator, scanning it gives `Outcome` |
| `Passphrase.TypedLineComesBack` | src/lib.rs:170-174 | a typed line comes back unchanged, truncated to `bufsiz - 1` bytes, when that part is NUL-free UTF-8 |
| `Passphrase.InvalidLineIsReported` | src/lib.rs:173-174 | a line that fits but is not UTF-8 yields `Error::Utf8` with its `valid_up_to` |
| `Passphrase.ReadPassphrase` | src/lib.rs:189-206 | borrow shape: passes `buf.len()` and the caller's flags; the result is `Outcome` for that size and the terminal's behaviour under those flags; a text is the buffer's own prefix up to the terminator, at most `len - 1` bytes |
| `Passphrase.ReadPassphraseMut` | src/lib.rs:288-303 | passes the capacity and the caller's flags; on success the `String` is a new handle on the same array, holds `Outcome`'s text with the terminator right after it, and `buf` becomes an empty `Vec` on a new allocation; on error `buf` keeps its storage and length |
| `Passphrase.ReadPassphraseOwned` | src/lib.rs:273-282 | as above on success (a new, unaliased `String` handle on the caller's array, the terminator after the text, `buf` empty on a new allocation); on any error an `OwnedError` with the same error and `Some(buf)`, where `buf` has length 0 and the same storage, and the written bytes are still in that storage |
| `Passphrase.OwnedError.constructor` | src/lib.rs:239 | holds exactly the given error and buffer |
| `Passphrase.OwnedError.Take` | src/lib.rs:305-312 | the first call returns the held buffer, unchanged and not erased; later calls return a new empty `Vec`; the field becomes `None` and nothing else changes |
| `Passphrase.OwnedError.Drop` | src/lib.rs:314-318 | a buffer still held ends empty with every byte of its capacity zero, in the same storage; after `take` nothing is written |
| `Passphrase.FromOwnedError` | src/lib.rs:320-324 | returns the inner error, leaves `Io(Other)` in its place, and the drop zeroizes a buffer that was never taken |
| `Passphrase.Getpass` | src/lib.rs:226-232 | a fresh 256-byte allocation and `Flags::empty()`: the result is `Outcome` for the terminal's behaviour under empty flags; a password is at most 255 bytes and lives in that same allocation; an error is the `OwnedError`'s inner error, and the abandoned buffer, still on that allocation, ends all zero |
| `Scenarios.TransferSecret` | src/lib.rs:241-246 | capacity 8 and "secret" typed: the result is "secret" (length 6) in the caller's own storage, and the moved-from `Vec` is empty |
| `Scenarios.InvalidOutcome` | src/lib.rs:173-174 | a NUL-free, non-UTF-8 line that fits in 8 bytes is stored whole with its terminator and reported as `Utf8` at its own `valid_up_to` |
| `Scenarios.TransferInvalidTaken` | src/lib.rs:236-237 | such a line: `Utf8` error at its `valid_up_to`; the taken buffer has length 0 and capacity 8 and still holds the typed bytes and terminator; a second take gives a new empty `Vec` |
| `Scenarios.TransferInvalidDropped` | src/lib.rs:314-318 | such a line and the error dropped without `take`: all 8 bytes end zero |
| `Scenarios.BorrowBroken` | src/lib.rs:201-203 | a failing primitive on a 256-byte slice yields `Io` with its errno |
| `Scenarios.TransferZeroCapacity` | src/lib.rs:290-298 | a zero-capacity `Vec` yields `Io(EINVAL)` from the primitive, and the first `take` returns the caller's own `Vec` |
| `Scenarios.SecretIsText` | src/lib.rs:299 | the bytes of "secret" are UTF-8 |
| `Scenarios.GarbageIsNotText` | src/lib.rs:299 | FF FE is not UTF-8 |
| `Scenarios.GarbageOutcome` | src/lib.rs:173-174 | FF FE typed into 8 bytes is reported as `Utf8` with `valid_up_to` 0 |

## Left out

- The C function `readpassphrase(3)` itself (src/lib.rs:423-434): prompt display, echo control, TTY selection and the effect of each flag. It is an oracle. `Terminal` gives the bytes already processed, or a failure.
- The contents of `io::Error::last_os_error()` (src/lib.rs:202, 297): the errno is returned by the primitive, not read from a thread-local.
- The `Utf8Error` diagnostic keeps only `valid_up_to`; `error_len` is not modelled.
- `compile_fence` (src/lib.rs:404-412): an optimiser barrier with no effect on the state, so it is not modelled.
- The `Display` and `source` impls (src/lib.rs:338-366): they only delegate.
- The deprecated aliases `RppFlags` and `mod zeroize` (src/lib.rs:158-159, 415-421), and the re-export of the upstream `zeroize` crate (src/lib.rs:118-122). The upstream crate is not part of this model.
- csrc/read-password-w32.c (the Windows console shim), build.rs and the interactive examples under examples/: platform I/O and build plumbing.
- `Passphrase.ReadPassphrase` returns the text as a value equal to the buffer's prefix. The lifetime of the borrowed `&str` view is not modelled.
- `Passphrase.ReadPassphraseMut`: `CStr::from_ptr` scans memory without a bound. The model scans the allocation, which is sound because the primitive's terminator lies inside it.
- The `unwrap()` at src/lib.rs:205 is modelled as a call that cannot panic, because the primitive's contract guarantees a NUL.
- `Vec` growth, reallocation and deallocation are not modelled. `vec![0u8; n]` has capacity exactly `n`.
- `bitflags` operations other than `empty`, `default`, `contains`, the six constants and `|` (intersection, `all`, conversion from raw bits) are not modelled; the crate itself uses only `empty`, `default` and `bits`. How each flag changes what the terminal does is the oracle's business: an `Interaction` maps the flags passed to the bytes read.
