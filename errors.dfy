/**
 * The library's error taxonomy, `enum Error { Io(io::Error), Utf8(Utf8Error) }`.
 * The `From<io::Error>` and `From<Utf8Error>` conversions are the two
 * constructors themselves.
 */
module Errors {
  import Utf8Text

  /**
   * The part of `std::io::Error` the library produces: the platform's last
   * error code (`io::Error::last_os_error()`), or the bare kind `Other` that
   * `From<OwnedError>` leaves behind as a placeholder.
   */
  datatype IoError = OsError(code: int) | Other

  datatype Error = Io(io: IoError) | Utf8(utf8: Utf8Text.Utf8Error)
}
