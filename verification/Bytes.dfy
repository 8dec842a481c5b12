/** Little-endian integers in byte sequences, as every on-disk and in-memory header here uses them. */
module Bytes {
  type byte = x: int | 0 <= x < 256

  function Le16(s: seq<byte>, off: nat): nat
    requires off + 2 <= |s|
  {
    var b0: int, b1: int := s[off], s[off + 1];
    b0 + 256 * b1
  }

  function Le32(s: seq<byte>, off: nat): nat
    requires off + 4 <= |s|
  {
    var b0: int, b1: int, b2: int, b3: int := s[off], s[off + 1], s[off + 2], s[off + 3];
    b0 + 256 * b1 + 0x1_0000 * b2 + 0x100_0000 * b3
  }

  function Put16(w: nat): seq<byte>
    requires w < 0x1_0000
  {
    [w % 256, w / 256]
  }

  function Put32(w: nat): seq<byte>
    requires w < 0x1_0000_0000
  {
    [w % 256, w / 256 % 256, w / 0x1_0000 % 256, w / 0x100_0000]
  }

  /** Where the four bytes of w stand, w is read. */
  lemma Read32(s: seq<byte>, off: nat, w: nat)
    requires off + 4 <= |s| && w < 0x1_0000_0000
    requires var p := Put32(w); s[off] == p[0] && s[off + 1] == p[1] && s[off + 2] == p[2] && s[off + 3] == p[3]
    ensures Le32(s, off) == w
  {
    var x := w / 256;
    var y := x / 256;
    assert w / 0x1_0000 == y && w / 0x100_0000 == y / 256;
  }

  lemma Read16(s: seq<byte>, off: nat, w: nat)
    requires off + 2 <= |s| && w < 0x1_0000 && s[off] == Put16(w)[0] && s[off + 1] == Put16(w)[1]
    ensures Le16(s, off) == w
  {
  }

  /** Overwrites the four bytes at off with w. */
  function Store32(s: seq<byte>, off: nat, w: nat): (r: seq<byte>)
    requires off + 4 <= |s| && w < 0x1_0000_0000
    ensures |r| == |s|
    ensures Le32(r, off) == w
    ensures forall i :: 0 <= i < |s| && !(off <= i < off + 4) ==> r[i] == s[i]
  {
    var p := Put32(w);
    var r := s[..off] + p + s[off + 4..];
    assert r[off] == p[0] && r[off + 1] == p[1] && r[off + 2] == p[2] && r[off + 3] == p[3];
    Read32(r, off, w);
    r
  }

  function Zeros(n: nat): (r: seq<byte>)
  {
    seq(n, _ => 0)
  }

  function Min(a: nat, b: nat): nat {
    if a <= b then a else b
  }

  function Prefix<T>(s: seq<T>, n: nat): seq<T> {
    s[..Min(n, |s|)]
  }
}
