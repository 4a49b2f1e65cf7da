/**
 * Bytes as the C side sees them: the `byte` type, NUL-terminated strings and
 * the scan for a terminator (`CStr::from_bytes_until_nul`, `CStr::from_ptr`).
 */
module Bytes {
  import opened Wrappers

  newtype byte = x: int | 0 <= x < 256

  /** A `&CStr` prompt: its bytes, without the implicit terminator, contain no NUL. */
  type CStr = s: seq<byte> | 0 !in s

  /** A run of `n` zero bytes: what an erased region holds. */
  function Zeros(n: nat): (z: seq<byte>)
    ensures |z| == n
    ensures forall i :: 0 <= i < n ==> z[i] == 0
  {
    seq(n, _ => 0)
  }

  /** Index of the first zero byte of `s`, if there is one. */
  function FirstNul(s: seq<byte>): (r: Option<nat>)
    ensures r.Some? <==> 0 in s
    ensures r.Some? ==> r.value < |s| && s[r.value] == 0
    ensures r.Some? ==> forall j :: 0 <= j < r.value ==> s[j] != 0
  {
    if s == [] then None
    else if s[0] == 0 then Some(0)
    else match FirstNul(s[1..])
      case None => None
      case Some(k) => Some(k + 1)
  }

  /**
   * `CStr::from_bytes_until_nul`: the bytes before the first NUL, or `None`
   * when the slice holds no NUL at all.
   */
  function UntilNul(s: seq<byte>): (r: Option<seq<byte>>)
    ensures r.Some? <==> 0 in s
    ensures r.Some? ==> |r.value| < |s| && s[|r.value|] == 0
    ensures r.Some? ==> r.value == s[..|r.value|] && 0 !in r.value
  {
    match FirstNul(s)
    case None => None
    case Some(n) => Some(s[..n])
  }

  /** The bytes up to the first NUL are the same whatever follows that NUL. */
  lemma UntilNulIgnoresTail(s: seq<byte>, t: seq<byte>)
    requires 0 in s
    ensures UntilNul(s + t) == UntilNul(s)
  {
    var n := FirstNul(s).value;
    assert (s + t)[n] == 0;
    assert (s + t)[..n] == s[..n];
  }

  /** A NUL-terminated string reads back as exactly its bytes. */
  lemma UntilNulOfTerminated(s: seq<byte>, t: seq<byte>)
    requires 0 !in s
    ensures UntilNul(s + [0] + t) == Some(s)
  {
    var st := s + [0] + t;
    assert st[|s|] == 0;
    assert st[..|s|] == s;
  }
}
