/** Results, fixed-width unsigned integers and the big-endian byte layout that
    the `bytes` crate's `put_uN` / `get_uN` calls use. */
module Wrappers {
  datatype Option<+T> = None | Some(value: T)

  datatype Result<+T, +E> = Ok(value: T) | Err(error: E)
}

module Bytes {
  type u8 = x: int | 0 <= x < 0x100
  type u16 = x: int | 0 <= x < 0x1_0000
  type u32 = x: int | 0 <= x < 0x1_0000_0000
  type u64 = x: int | 0 <= x < 0x1_0000_0000_0000_0000

  /** 256^n: the number of distinct values an n-byte field can hold. */
  function Pow256(n: nat): (r: nat)
    ensures r > 0
  {
    if n == 0 then 1 else 256 * Pow256(n - 1)
  }

  lemma Pow256Widths()
    ensures Pow256(1) == 0x100 && Pow256(2) == 0x1_0000
    ensures Pow256(4) == 0x1_0000_0000 && Pow256(8) == 0x1_0000_0000_0000_0000
  {
    assert Pow256(1) == 256 * Pow256(0);
    assert Pow256(2) == 256 * Pow256(1);
    assert Pow256(3) == 256 * Pow256(2);
    assert Pow256(4) == 256 * Pow256(3);
    assert Pow256(5) == 256 * Pow256(4);
    assert Pow256(6) == 256 * Pow256(5);
    assert Pow256(7) == 256 * Pow256(6);
    assert Pow256(8) == 256 * Pow256(7);
  }

  /** The n bytes of `x`, most significant first (network byte order). */
  function ToBigEndian(n: nat, x: nat): (r: seq<u8>)
    requires x < Pow256(n)
    ensures |r| == n
  {
    if n == 0 then []
    else
      assert x / 256 < Pow256(n - 1);
      ToBigEndian(n - 1, x / 256) + [x % 256]
  }

  /** The value of a big-endian byte string. */
  function FromBigEndian(s: seq<u8>): (r: nat)
    ensures r < Pow256(|s|)
  {
    if s == [] then 0
    else
      var hi := FromBigEndian(s[..|s| - 1]);
      assert hi * 256 + s[|s| - 1] <= (Pow256(|s| - 1) - 1) * 256 + 255;
      hi * 256 + s[|s| - 1]
  }

  /** Reading back what was written gives the value written. */
  lemma {:induction false} FromToBigEndian(n: nat, x: nat)
    requires x < Pow256(n)
    ensures FromBigEndian(ToBigEndian(n, x)) == x
  {
    if n > 0 {
      var s := ToBigEndian(n, x);
      assert s[..n - 1] == ToBigEndian(n - 1, x / 256);
      FromToBigEndian(n - 1, x / 256);
      assert FromBigEndian(s) == (x / 256) * 256 + x % 256;
    }
  }

  /** Writing the value of a byte string gives the byte string back: the
      big-endian layout is a bijection between n-byte strings and [0, 256^n). */
  lemma {:induction false} ToFromBigEndian(s: seq<u8>)
    ensures ToBigEndian(|s|, FromBigEndian(s)) == s
  {
    if s != [] {
      var n := |s|;
      var hi := FromBigEndian(s[..n - 1]);
      var x := FromBigEndian(s);
      assert x == hi * 256 + s[n - 1];
      assert x / 256 == hi && x % 256 == s[n - 1];
      ToFromBigEndian(s[..n - 1]);
      assert s == s[..n - 1] + [s[n - 1]];
    }
  }

  lemma AppendAssoc<T>(a: seq<T>, b: seq<T>, c: seq<T>)
    ensures (a + b) + c == a + (b + c)
  {
  }

  /** A prefix followed by a prefix of what comes after it is a longer prefix. */
  lemma PrefixJoin<T>(s: seq<T>, i: nat, j: nat)
    requires i + j <= |s|
    ensures s[..i] + s[i..][..j] == s[..i + j]
  {
  }

  /** The middle piece of a concatenation, recovered by slicing. */
  lemma Middle<T>(p: seq<T>, x: seq<T>, q: seq<T>)
    ensures (p + x + q)[|p|..|p| + |x|] == x
  {
  }

  /** Three adjacent pieces are recovered by slicing their concatenation. */
  lemma ThreeParts<T>(x: seq<T>, y: seq<T>, z: seq<T>)
    ensures var s := x + y + z;
      s[..|x|] == x && s[|x|..|x| + |y|] == y && s[|x| + |y|..] == z
  {
  }

  /** A sequence is the concatenation of its slices at any three cuts. */
  lemma FourSlices<T>(s: seq<T>, i: nat, j: nat, k: nat)
    requires i <= j <= k <= |s|
    ensures s == s[..i] + s[i..j] + s[j..k] + s[k..]
  {
    assert s[..j] == s[..i] + s[i..j];
    assert s[..k] == s[..j] + s[j..k];
    assert s == s[..k] + s[k..];
  }

  /** A one-byte field is the byte itself. */
  lemma OneByte(x: u8)
    ensures ToBigEndian(1, x) == [x]
  {
    assert ToBigEndian(1, x) == ToBigEndian(0, x / 256) + [x % 256];
  }

  /** `BufMut`: a growable buffer that the codec appends to. */
  class WriteBuf {
    var data: seq<u8>

    constructor ()
      ensures data == []
    {
      data := [];
    }

    /** `put_u8`: append one byte. */
    method PutByte(x: u8)
      modifies this
      ensures data == old(data) + [x]
    {
      data := data + [x];
    }

    /** `put_u16` / `put_u32` / `put_u64`: append `x` as n big-endian bytes. */
    method PutUint(n: nat, x: nat)
      requires x < Pow256(n)
      modifies this
      ensures data == old(data) + ToBigEndian(n, x)
    {
      data := data + ToBigEndian(n, x);
    }
  }

  /** `Buf` over a byte slice: the unread bytes, advanced from the front by
      every `get_uN`. */
  class ByteReader {
    var rest: seq<u8>

    constructor (s: seq<u8>)
      ensures rest == s
    {
      rest := s;
    }

    /** `remaining()` */
    function Remaining(): (r: nat)
      reads this
      ensures r == |rest|
    {
      |rest|
    }

    /** `get_u8` / `get_u16` / `get_u32` / `get_u64`: consume n bytes and
        return their big-endian value. */
    method GetUint(n: nat) returns (x: nat)
      requires n <= |rest|
      modifies this
      ensures x == FromBigEndian(old(rest)[..n]) && x < Pow256(n)
      ensures rest == old(rest)[n..]
    {
      x := FromBigEndian(rest[..n]);
      rest := rest[n..];
    }
  }
}
