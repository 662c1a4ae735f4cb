/** Bytes, little-endian words and overwriting a stretch of memory. */
module Bytes {

  type byte = b: int | 0 <= b < 256

  const NUL: byte := 0
  const SPACE: byte := 0x20

  function Le16(s: seq<byte>, at: nat): (v: nat)
    requires at + 2 <= |s|
    ensures v < 0x1_0000
  {
    s[at] as int + 0x100 * (s[at + 1] as int)
  }

  function Le32(s: seq<byte>, at: nat): (v: nat)
    requires at + 4 <= |s|
    ensures v < 0x1_0000_0000
  {
    Le16(s, at) + 0x1_0000 * Le16(s, at + 2)
  }

  function ToLe16(v: nat): (s: seq<byte>)
    requires v < 0x1_0000
    ensures |s| == 2 && Le16(s, 0) == v
  {
    [v % 0x100, v / 0x100]
  }

  function ToLe32(v: nat): (s: seq<byte>)
    requires v < 0x1_0000_0000
    ensures |s| == 4 && Le32(s, 0) == v
  {
    var s := ToLe16(v % 0x1_0000) + ToLe16(v / 0x1_0000);
    assert Le16(s, 0) == Le16(ToLe16(v % 0x1_0000), 0);
    assert Le16(s, 2) == Le16(ToLe16(v / 0x1_0000), 0);
    s
  }

  /** The number that bytes are, least significant first. */
  function Number(s: seq<byte>): nat {
    if |s| == 0 then 0 else s[0] as int + 0x100 * Number(s[1..])
  }

  lemma NumberIsLe16(s: seq<byte>, at: nat)
    requires at + 2 <= |s|
    ensures Number(s[at..at + 2]) == Le16(s, at)
  {
    var t := s[at..at + 2];
    var u := t[1..];
    assert u == [s[at + 1]] && u[1..] == [];
    assert Number(t) == t[0] as int + 0x100 * Number(u) && Number(u) == u[0] as int + 0x100 * Number(u[1..]);
  }

  lemma NumberIsLe32(s: seq<byte>, at: nat)
    requires at + 4 <= |s|
    ensures Number(s[at..at + 4]) == Le32(s, at)
  {
    var t := s[at..at + 4];
    var u := t[1..];
    NumberIsLe16(s, at + 2);
    assert u[1..] == s[at + 2..at + 4] && u[0] == s[at + 1] && t[0] == s[at];
    assert Number(t) == t[0] as int + 0x100 * Number(u) && Number(u) == u[0] as int + 0x100 * Number(u[1..]);
  }

  predicate Ascii(s: string) {
    forall i :: 0 <= i < |s| ==> s[i] as int < 0x80
  }

  /** The bytes of a text. */
  function Text(s: string): (r: seq<byte>)
    requires Ascii(s)
    ensures |r| == |s|
    ensures forall i :: 0 <= i < |s| ==> r[i] == s[i] as int
  {
    seq(|s|, i requires 0 <= i < |s| => s[i] as int)
  }

  /** `s` with the bytes from `at` on overwritten by `t`. */
  function Patch(s: seq<byte>, at: nat, t: seq<byte>): (r: seq<byte>)
    requires at + |t| <= |s|
    ensures |r| == |s|
  {
    s[..at] + t + s[at + |t|..]
  }

  lemma PatchFront(s: seq<byte>, t: seq<byte>)
    requires |t| <= |s|
    ensures Patch(s, 0, t)[..|t|] == t
  {
  }

  /** Two patches in a row, the second directly after the first, are one patch. */
  lemma PatchAppend(s: seq<byte>, at: nat, t: seq<byte>, u: seq<byte>)
    requires at + |t| + |u| <= |s|
    ensures Patch(Patch(s, at, t), at + |t|, u) == Patch(s, at, t + u)
  {
  }

}
