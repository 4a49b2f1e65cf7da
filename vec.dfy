/**
 * The owned byte storage the library lends to and takes from its callers:
 * `Vec<u8>` and `String`, with the in-crate `Zeroize` implementations for
 * `Vec<u8>`, `String` and `[u8]`.
 *
 * A `Vec` is an allocation of `Capacity()` bytes of which the first `len`
 * are its contents; the spare region `[len, Capacity())` holds whatever
 * bytes were last written there.  Storage identity is array identity: two
 * values share memory exactly when they hold the same `data` array.
 */
module Vecs {
  import opened Bytes
  import Utf8Text

  /** The value a `Vec` holds: its length and every byte of its allocation. */
  datatype VecState = VecState(len: nat, storage: seq<byte>)

  /** The state `Zeroize` leaves: empty, same capacity, every byte of it zero. */
  function Zeroized(v: VecState): (z: VecState)
    ensures z.len == 0 && |z.storage| == |v.storage|
    ensures forall i :: 0 <= i < |z.storage| ==> z.storage[i] == 0
  {
    VecState(0, Zeros(|v.storage|))
  }

  /** Zeroizing twice leaves what zeroizing once does. */
  lemma ZeroizedIdempotent(v: VecState)
    ensures Zeroized(Zeroized(v)) == Zeroized(v)
  {
  }

  /** `Vec<u8>` */
  class Vec {
    var data: array<byte>
    var len: nat

    ghost predicate Valid()
      reads this
    {
      len <= data.Length
    }

    function Capacity(): nat
      reads this
    {
      data.Length
    }

    function Contents(): seq<byte>
      reads this, data
      requires Valid()
    {
      data[..len]
    }

    function State(): VecState
      reads this, data
    {
      VecState(len, data[..])
    }

    /** `vec![0u8; n]`: `n` zero bytes, exactly filling a fresh allocation. */
    constructor Filled(n: nat)
      ensures Valid() && fresh(data)
      ensures Capacity() == n && Contents() == Zeros(n)
    {
      data := new byte[n](_ => 0);
      len := n;
    }

    /**
     * `Vec::new()`, also `Vec::default()`: an empty `Vec` with no allocation,
     * which the model stands for by a fresh zero-length array.
     */
    constructor New()
      ensures Valid() && fresh(data)
      ensures Capacity() == 0 && len == 0
    {
      data := new byte[0];
      len := 0;
    }

    /** `Vec::clear`: forgets the contents; the storage and its bytes stay as they are. */
    method Clear()
      modifies this`len
      ensures Valid() && len == 0
    {
      len := 0;
    }

    /** `Vec::set_len`, whose safety contract demands `n <= capacity`. */
    method SetLen(n: nat)
      requires n <= Capacity()
      modifies this`len
      ensures Valid() && len == n
    {
      len := n;
    }

    /**
     * `mem::take(&mut vec)`: moves the value out, storage included, and
     * leaves `Vec::default()` behind.
     */
    method MemTake() returns (taken: Vec)
      modifies this
      ensures fresh(taken) && taken.data == old(data) && taken.len == old(len)
      ensures Valid() && fresh(data) && Capacity() == 0 && len == 0
    {
      taken := new Vec.New();
      taken.data, taken.len := data, len;
      data := new byte[0];
      len := 0;
    }

    /**
     * `<Vec<u8> as Zeroize>::zeroize`: `clear()`, then zero the whole spare
     * capacity, which after `clear()` is the whole allocation.
     */
    method Zeroize()
      modifies this`len, data
      ensures Valid() && data == old(data)
      ensures State() == Zeroized(old(State()))
    {
      Clear();
      var i := len;
      while i < data.Length
        invariant len == 0 && i <= data.Length
        invariant forall j :: len <= j < i ==> data[j] == 0
      {
        data[i] := 0;
        i := i + 1;
      }
      assert data[..] == Zeros(data.Length);
    }
  }

  /** `<[u8] as Zeroize>::zeroize`: `fill(0)` over the slice. */
  method ZeroizeSlice(a: array<byte>)
    modifies a
    ensures a[..] == Zeros(a.Length)
  {
    var i := 0;
    while i < a.Length
      invariant i <= a.Length
      invariant forall j :: 0 <= j < i ==> a[j] == 0
    {
      a[i] := 0;
      i := i + 1;
    }
  }

  /** `String`: a `Vec<u8>` whose contents are UTF-8. */
  class RString {
    const vec: Vec

    ghost predicate Valid()
      reads this, vec
    {
      vec.Valid()
    }

    /** Whether the contents are UTF-8, the invariant `String` relies on. */
    ghost predicate IsText()
      reads this, vec, vec.data
      requires Valid()
    {
      Utf8Text.IsValid(vec.Contents())
    }

    /** `String::from_utf8_unchecked`: adopts `v`, storage and all, without a copy. */
    constructor FromUtf8Unchecked(v: Vec)
      requires v.Valid() && Utf8Text.IsValid(v.Contents())
      ensures vec == v && Valid() && IsText()
    {
      vec := v;
    }

    /** `<String as Zeroize>::zeroize`: zeroize the underlying `Vec`. */
    method Zeroize()
      modifies vec, vec.data
      ensures Valid() && IsText() && vec.data == old(vec.data)
      ensures vec.State() == Zeroized(old(vec.State()))
    {
      vec.Zeroize();
      assert vec.Contents() == [];
    }
  }
}
