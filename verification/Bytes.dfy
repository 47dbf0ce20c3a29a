// Bytes, little-endian integers and in-place copies: the vocabulary every
// on-disk format of the engine is written in.
module Bytes {

  type byte = b: int | 0 <= b < 256

  datatype Option<+T> = None | Some(value: T)

  type PageId = p: int | 0 <= p < 0x1_0000_0000

  const INVALID_PAGE_ID: PageId := 0xFFFF_FFFF
  const PAGE_SIZE: nat := 4096

  /** Reading a little-endian field (`from_le_bytes` on a slice). */
  function U16(d: seq<byte>, off: nat): (r: nat)
    requires off + 2 <= |d|
    ensures r < 0x1_0000
  {
    d[off] as int + 256 * (d[off + 1] as int)
  }

  function U32(d: seq<byte>, off: nat): (r: nat)
    requires off + 4 <= |d|
    ensures r < 0x1_0000_0000
  {
    U16(d, off) + 0x1_0000 * U16(d, off + 2)
  }

  function U64(d: seq<byte>, off: nat): (r: nat)
    requires off + 8 <= |d|
    ensures r < 0x1_0000_0000_0000_0000
  {
    U32(d, off) + 0x1_0000_0000 * U32(d, off + 4)
  }

  /** Writing one: an `as` cast to the width, then `to_le_bytes`. */
  function Le16(x: nat): (bs: seq<byte>)
    ensures |bs| == 2 && U16(bs, 0) == x % 0x1_0000
  {
    [x % 256, x / 256 % 256]
  }

  function Le32(x: nat): (bs: seq<byte>)
    ensures |bs| == 4 && U32(bs, 0) == x % 0x1_0000_0000
  {
    var bs := Le16(x) + Le16(x / 0x1_0000);
    assert U16(bs, 0) == U16(Le16(x), 0) && U16(bs, 2) == U16(Le16(x / 0x1_0000), 0);
    bs
  }

  function Le64(x: nat): (bs: seq<byte>)
    ensures |bs| == 8 && U64(bs, 0) == x % 0x1_0000_0000_0000_0000
  {
    HighLow(x);
    var bs := Le32(x) + Le32(x / 0x1_0000_0000);
    assert forall i :: 0 <= i < 4 ==> bs[i] == Le32(x)[i];
    assert forall i :: 4 <= i < 8 ==> bs[i] == Le32(x / 0x1_0000_0000)[i - 4];
    assert U32(bs, 0) == U32(Le32(x), 0) && U32(bs, 4) == U32(Le32(x / 0x1_0000_0000), 0);
    bs
  }

  lemma HighLow(x: nat)
    ensures x % 0x1_0000_0000_0000_0000 ==
            x % 0x1_0000_0000 + 0x1_0000_0000 * (x / 0x1_0000_0000 % 0x1_0000_0000)
  {
    var q := x / 0x1_0000_0000;
    assert x == 0x1_0000_0000_0000_0000 * (q / 0x1_0000_0000)
                + (0x1_0000_0000 * (q % 0x1_0000_0000) + x % 0x1_0000_0000);
  }

  function Insert<T>(s: seq<T>, i: nat, x: T): (r: seq<T>)
    requires i <= |s|
    ensures |r| == |s| + 1
    ensures forall j {:trigger r[j]} :: 0 <= j < i ==> r[j] == s[j]
    ensures r[i] == x
    ensures forall j {:trigger r[j]} :: i < j <= |s| ==> r[j] == s[j - 1]
  {
    s[..i] + [x] + s[i..]
  }

  function Remove<T>(s: seq<T>, i: nat): (r: seq<T>)
    requires i < |s|
    ensures |r| == |s| - 1
    ensures forall j {:trigger r[j]} :: 0 <= j < i ==> r[j] == s[j]
    ensures forall j {:trigger r[j]} :: i <= j < |r| ==> r[j] == s[j + 1]
  {
    s[..i] + s[i + 1..]
  }

  lemma InsertRemoved<T>(s: seq<T>, i: nat)
    requires i < |s|
    ensures Insert(Remove(s, i), i, s[i]) == s
  {
    var r := Insert(Remove(s, i), i, s[i]);
    forall j | 0 <= j < |s| ensures r[j] == s[j] {
    }
  }

  /** `d[off..off + |xs|].copy_from_slice(xs)` on a value. */
  function Splice(d: seq<byte>, off: nat, xs: seq<byte>): (r: seq<byte>)
    requires off + |xs| <= |d|
    ensures |r| == |d|
    ensures forall j :: 0 <= j < off ==> r[j] == d[j]
    ensures forall j :: off <= j < off + |xs| ==> r[j] == xs[j - off]
    ensures forall j :: off + |xs| <= j < |d| ==> r[j] == d[j]
  {
    d[..off] + xs + d[off + |xs|..]
  }

  /** `a[off..off + |xs|].copy_from_slice(xs)`. */
  method CopyFromSlice(a: array<byte>, off: nat, xs: seq<byte>)
    requires off + |xs| <= a.Length
    modifies a
    ensures a[..] == Splice(old(a[..]), off, xs)
  {
    forall j | 0 <= j < |xs| {
      a[off + j] := xs[j];
    }
  }
}
