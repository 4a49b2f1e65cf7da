/**
 * UTF-8 as section 4 of RFC 3629 defines it, and the validation that
 * `str::from_utf8` / `CStr::to_str` perform with it.
 *
 * `IsOctets` is the grammar itself (UTF8-octets = *( UTF8-char )), a ghost
 * reference definition that may split a byte string in any way.  `ValidUpTo`
 * is the deterministic left-to-right check; `IsValidIff` proves the two agree.
 */
module Utf8Text {
  import opened Wrappers
  import opened Bytes

  /** UTF8-tail = %x80-BF */
  predicate IsTail(b: byte) {
    0x80 <= b <= 0xBF
  }

  /** One UTF8-char: the productions UTF8-1, UTF8-2, UTF8-3 and UTF8-4. */
  predicate IsChar(c: seq<byte>) {
    if |c| == 1 then
      c[0] <= 0x7F
    else if |c| == 2 then
      0xC2 <= c[0] <= 0xDF && IsTail(c[1])
    else if |c| == 3 then
      && (|| (c[0] == 0xE0 && 0xA0 <= c[1] <= 0xBF)
          || (0xE1 <= c[0] <= 0xEC && IsTail(c[1]))
          || (c[0] == 0xED && 0x80 <= c[1] <= 0x9F)
          || (0xEE <= c[0] <= 0xEF && IsTail(c[1])))
      && IsTail(c[2])
    else if |c| == 4 then
      && (|| (c[0] == 0xF0 && 0x90 <= c[1] <= 0xBF)
          || (0xF1 <= c[0] <= 0xF3 && IsTail(c[1]))
          || (c[0] == 0xF4 && 0x80 <= c[1] <= 0x8F))
      && IsTail(c[2]) && IsTail(c[3])
    else
      false
  }

  /** UTF8-octets = *( UTF8-char ): `s` splits into a sequence of characters. */
  ghost predicate IsOctets(s: seq<byte>)
    decreases |s|
  {
    s == [] || exists k | 1 <= k <= |s| && k <= 4 :: IsChar(s[..k]) && IsOctets(s[k..])
  }

  /** The number of octets a character with lead byte `b` has, 0 if `b` cannot lead one. */
  function LeadWidth(b: byte): (w: nat)
    ensures w <= 4
    ensures w == 1 <==> b <= 0x7F
  {
    if b <= 0x7F then 1
    else if 0xC2 <= b <= 0xDF then 2
    else if 0xE0 <= b <= 0xEF then 3
    else if 0xF0 <= b <= 0xF4 then 4
    else 0
  }

  /** The lead byte fixes a character's length, so the grammar is prefix-free. */
  lemma CharWidth(c: seq<byte>)
    requires IsChar(c)
    ensures |c| == LeadWidth(c[0])
  {
  }

  /** The length of the character `s` starts with, or 0 when it starts with none. */
  function CharLen(s: seq<byte>): (k: nat)
    ensures k <= |s| && k <= 4
    ensures k > 0 ==> IsChar(s[..k])
    ensures forall j :: 0 <= j <= |s| && IsChar(s[..j]) ==> j == k
  {
    if s == [] then 0
    else
      var w := LeadWidth(s[0]);
      if 0 < w <= |s| && IsChar(s[..w]) then w else 0
  }

  /**
   * Greedy left-to-right validation: the length of the prefix made of whole
   * characters read from the start (`Utf8Error::valid_up_to`).
   */
  function ValidUpTo(s: seq<byte>): (n: nat)
    ensures n <= |s|
    decreases |s|
  {
    var k := CharLen(s);
    if k == 0 then 0 else k + ValidUpTo(s[k..])
  }

  /** What the greedy check accepts is well-formed. */
  lemma {:induction false} ValidUpToSound(s: seq<byte>)
    ensures IsOctets(s[..ValidUpTo(s)])
    decreases |s|
  {
    var k := CharLen(s);
    if k > 0 {
      var rest := s[k..];
      var n' := ValidUpTo(rest);
      ValidUpToSound(rest);
      var t := s[..k + n'];
      assert t[..k] == s[..k];
      SliceOfSlice(s, k, k + n');
      assert t[k..] == rest[..n'];
      assert IsChar(t[..k]) && IsOctets(t[k..]);
    } else {
      assert s[..0] == [];
    }
  }

  /**
   * A well-formed non-empty prefix of `s` starts with the character
   * `CharLen` finds, and what follows it within the prefix is well-formed.
   */
  lemma PrefixSplit(s: seq<byte>, m: nat)
    requires 0 < m <= |s| && IsOctets(s[..m])
    ensures 0 < CharLen(s) <= m && IsOctets(s[CharLen(s)..][..m - CharLen(s)])
  {
    var p := s[..m];
    var k :| 1 <= k <= |p| && k <= 4 && IsChar(p[..k]) && IsOctets(p[k..]);
    assert p[..k] == s[..k];
    SliceOfSlice(s, k, m);
    assert p[k..] == s[k..][..m - k];
  }

  /** Cutting `s` at `m` and then at `k`, or the other way round, gives `s[k..m]`. */
  lemma SliceOfSlice(s: seq<byte>, k: nat, m: nat)
    requires k <= m <= |s|
    ensures s[..m][k..] == s[k..m] && s[k..][..m - k] == s[k..m]
  {
    var a, b, c := s[..m][k..], s[k..][..m - k], s[k..m];
    assert |a| == |b| == |c| == m - k;
    forall i | 0 <= i < m - k
      ensures a[i] == c[i] && b[i] == c[i]
    {
      assert a[i] == s[k + i] && b[i] == s[k + i] && c[i] == s[k + i];
    }
  }

  /** No prefix longer than the greedy one is well-formed: `valid_up_to` is maximal. */
  lemma {:induction false} ValidUpToMaximal(s: seq<byte>, m: nat)
    requires ValidUpTo(s) < m <= |s|
    ensures !IsOctets(s[..m])
    decreases |s|
  {
    if IsOctets(s[..m]) {
      PrefixSplit(s, m);
      var k := CharLen(s);
      ValidUpToMaximal(s[k..], m - k);
      assert false;
    }
  }

  /** Whether `s` is UTF-8: the greedy check reaches the end. */
  predicate IsValid(s: seq<byte>) {
    ValidUpTo(s) == |s|
  }

  /** The greedy check decides exactly the grammar of RFC 3629. */
  lemma IsValidIff(s: seq<byte>)
    ensures IsValid(s) <==> IsOctets(s)
  {
    ValidUpToSound(s);
    assert s[..|s|] == s;
    if !IsValid(s) {
      ValidUpToMaximal(s, |s|);
    }
  }

  /** Overlong forms are rejected: C0 AF would be a two-octet "/". */
  lemma RejectsOverlong()
    ensures !IsOctets([0xC0, 0xAF])
  {
    IsValidIff([0xC0, 0xAF]);
  }

  /** Surrogates are rejected: ED A0 80 would encode U+D800. */
  lemma RejectsSurrogate()
    ensures !IsOctets([0xED, 0xA0, 0x80])
  {
    IsValidIff([0xED, 0xA0, 0x80]);
  }

  /** Nothing above U+10FFFF: F4 90 80 80 would encode U+110000. */
  lemma RejectsBeyondUnicode()
    ensures !IsOctets([0xF4, 0x90, 0x80, 0x80])
  {
    IsValidIff([0xF4, 0x90, 0x80, 0x80]);
  }

  /** A four-octet character (U+1F511) is accepted. */
  lemma AcceptsFourOctets()
    ensures IsOctets([0xF0, 0x9F, 0x94, 0x91])
  {
    var c: seq<byte> := [0xF0, 0x9F, 0x94, 0x91];
    assert c[..4] == c && c[4..] == [];
    assert ValidUpTo(c) == 4;
    IsValidIff(c);
  }

  /** `std::str::Utf8Error`, reduced to its `valid_up_to` diagnostic. */
  datatype Utf8Error = Utf8Error(validUpTo: nat)

  /**
   * `str::from_utf8` (with `CStr::to_str` on top of it): the very same bytes
   * when they are UTF-8, otherwise the error locating the first bad character.
   */
  function ToStr(s: seq<byte>): (r: Result<seq<byte>, Utf8Error>)
    ensures r.Success? <==> IsOctets(s)
    ensures r.Success? ==> r.value == s
    ensures r.Failure? ==> r.error.validUpTo < |s| && IsOctets(s[..r.error.validUpTo])
    ensures r.Failure? ==> forall m :: r.error.validUpTo < m <= |s| ==> !IsOctets(s[..m])
  {
    IsValidIff(s);
    ValidUpToSound(s);
    var n := ValidUpTo(s);
    if n == |s| then Success(s)
    else
      assert forall m :: n < m <= |s| ==> !IsOctets(s[..m]) by {
        forall m | n < m <= |s| ensures !IsOctets(s[..m]) {
          ValidUpToMaximal(s, m);
        }
      }
      Failure(Utf8Error(n))
  }
}
