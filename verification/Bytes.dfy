/** Bytes, the fixed-width integers of the kernel, little-endian fields and NUL-terminated strings. */
module Bytes {
  newtype byte = x: int | 0 <= x < 0x100

  const TWO_16: int := 0x1_0000
  const TWO_32: int := 0x1_0000_0000
  const TWO_64: int := 0x1_0000_0000_0000_0000

  type u16 = x: int | 0 <= x < 0x1_0000
  type u32 = x: int | 0 <= x < 0x1_0000_0000
  type u64 = x: int | 0 <= x < 0x1_0000_0000_0000_0000

  /** The characters of a C string, without the terminating NUL. */
  type CString = s: seq<byte> | 0 !in s

  const NUL: byte := 0
  const SLASH: byte := 47
  const DOT: byte := 46
  const NEWLINE: byte := 10

  datatype Option<+T> = None | Some(value: T)

  function Add32(a: u32, b: u32): u32 {
    (a + b) % 0x1_0000_0000
  }

  function Min(a: int, b: int): int {
    if a < b then a else b
  }

  function Max(a: int, b: int): int {
    if a < b then b else a
  }

  /** No element occurs twice. */
  predicate Distinct(s: seq<int>) {
    forall i, j :: 0 <= i < j < |s| ==> s[i] != s[j]
  }

  function Zeros(n: nat): (s: seq<byte>)
    ensures |s| == n && forall i :: 0 <= i < n ==> s[i] == 0
  {
    seq(n, _ => 0)
  }

  /** A disk image in which `data` has replaced the bytes from `offset` on. */
  function Splice(image: seq<byte>, offset: nat, data: seq<byte>): (r: seq<byte>)
    requires offset + |data| <= |image|
    ensures |r| == |image|
  {
    image[..offset] + data + image[offset + |data|..]
  }

  /** A splice replaces exactly the bytes from `offset` on, as many as there are in `data`. */
  lemma SpliceByte(image: seq<byte>, offset: nat, data: seq<byte>, i: nat)
    requires offset + |data| <= |image| && i < |image|
    ensures Splice(image, offset, data)[i] == if offset <= i < offset + |data| then data[i - offset] else image[i]
  {
  }

  /** A slice of a slice. */
  lemma SliceOfSlice(s: seq<byte>, a: nat, b: nat, i: nat, j: nat)
    requires a <= b <= |s| && i <= j <= b - a
    ensures s[a..b][i..j] == s[a + i..a + j]
  {
    var l, r := s[a..b][i..j], s[a + i..a + j];
    forall k | 0 <= k < j - i
      ensures l[k] == r[k]
    {
      assert s[a..b][i + k] == s[a + i + k];
    }
  }

  /** A slice of the replaced part is a slice of the data. */
  lemma SpliceSlice(image: seq<byte>, offset: nat, data: seq<byte>, i: nat, j: nat)
    requires offset + |data| <= |image| && i <= j <= |data|
    ensures Splice(image, offset, data)[offset + i..offset + j] == data[i..j]
  {
  }

  /** What C code sees when it is handed a buffer as a string: the bytes before the first NUL. */
  function AsCString(s: seq<byte>): (r: CString)
    ensures |r| <= |s| && r == s[..|r|]
    ensures |r| < |s| ==> s[|r|] == NUL
  {
    if s == [] || s[0] == NUL then [] else [s[0]] + AsCString(s[1..])
  }

  lemma AsCStringOfTerminated(s: CString, rest: seq<byte>)
    ensures AsCString(s + [NUL] + rest) == s
  {
    if s != [] {
      assert (s + [NUL] + rest)[1..] == s[1..] + [NUL] + rest;
      AsCStringOfTerminated(s[1..], rest);
    }
  }

  function Le32(v: u32): (s: seq<byte>)
    ensures |s| == 4
  {
    var v1 := v / 0x100;
    var v2 := v1 / 0x100;
    [(v % 0x100) as byte, (v1 % 0x100) as byte, (v2 % 0x100) as byte, (v2 / 0x100) as byte]
  }

  /** The 32-bit little-endian field at `offset`. */
  function U32At(s: seq<byte>, offset: nat): u32
    requires offset + 4 <= |s|
  {
    s[offset] as int + 0x100 * s[offset + 1] as int
    + 0x1_0000 * s[offset + 2] as int + 0x100_0000 * s[offset + 3] as int
  }

  /** The 16-bit little-endian field at `offset`. */
  function U16At(s: seq<byte>, offset: nat): u16
    requires offset + 2 <= |s|
  {
    s[offset] as int + 0x100 * s[offset + 1] as int
  }

  /** The 64-bit little-endian field at `offset`. */
  function U64At(s: seq<byte>, offset: nat): u64
    requires offset + 8 <= |s|
  {
    U32At(s, offset) + 0x1_0000_0000 * U32At(s, offset + 4)
  }

  lemma U32AtOfLe32(s: seq<byte>, offset: nat, v: u32)
    requires offset + 4 <= |s| && s[offset..offset + 4] == Le32(v)
    ensures U32At(s, offset) == v
  {
    var field := s[offset..offset + 4];
    assert forall i :: 0 <= i < 4 ==> field[i] == s[offset + i];
    var v1 := v / 0x100;
    var v2 := v1 / 0x100;
    assert field[0] as int + 0x100 * v1 == v;
    assert field[1] as int + 0x100 * v2 == v1;
    assert field[2] as int + 0x100 * field[3] as int == v2;
  }
}
