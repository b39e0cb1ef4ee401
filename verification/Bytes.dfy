/** Buffers: little-endian reads and writes (the `Buffer` of Node.js). */
module Bytes {
  import opened Wrappers

  type byte = i: int | 0 <= i < 256

  const MAX16 := 0xffff
  const MAX32 := 0xffff_ffff

  /** `readUInt16LE`; it throws outside the buffer, which its callers look at first. */
  function U16(s: seq<byte>, at: nat): (v: nat)
    requires at + 2 <= |s|
    ensures v <= MAX16
  {
    s[at] as int + 0x100 * (s[at + 1] as int)
  }

  function U32(s: seq<byte>, at: nat): (v: nat)
    requires at + 4 <= |s|
    ensures v <= MAX32
  {
    s[at] as int + 0x100 * (s[at + 1] as int) + 0x1_0000 * (s[at + 2] as int) + 0x100_0000 * (s[at + 3] as int)
  }

  function Clip(i: int, n: nat): nat {
    if i < 0 then 0 else if i > n then n else i
  }

  /** `subarray(from, to)`, for ends that are not negative. */
  function Subarray(s: seq<byte>, from: nat, to: nat): seq<byte>
    requires from <= to
  {
    s[Clip(from, |s|)..Clip(to, |s|)]
  }

  /** `writeUInt16LE`, which throws, and writes nothing, on a value of more than 16 bits. */
  method Write16(buffer: array<byte>, value: nat, at: nat) returns (ok: bool)
    requires at + 2 <= buffer.Length
    modifies buffer
    ensures ok <==> value <= MAX16
    ensures ok ==> U16(buffer[..], at) == value
    ensures forall k :: 0 <= k < buffer.Length && (!ok || k < at || at + 2 <= k) ==> buffer[k] == old(buffer[k])
  {
    ok := value <= MAX16;
    if ok {
      buffer[at] := value % 0x100;
      buffer[at + 1] := value / 0x100;
    }
  }

  /** The four bytes of a 32-bit value, the lowest first. */
  function Digits32(v: nat): (d: (byte, byte, byte, byte))
    requires v <= MAX32
    ensures v == d.0 as int + 0x100 * (d.1 as int) + 0x1_0000 * (d.2 as int) + 0x100_0000 * (d.3 as int)
  {
    var a := v / 0x100;
    var b := a / 0x100;
    (v % 0x100, a % 0x100, b % 0x100, b / 0x100)
  }

  method Write32(buffer: array<byte>, value: nat, at: nat) returns (ok: bool)
    requires at + 4 <= buffer.Length
    modifies buffer
    ensures ok <==> value <= MAX32
    ensures ok ==> U32(buffer[..], at) == value
    ensures forall k :: 0 <= k < buffer.Length && (!ok || k < at || at + 4 <= k) ==> buffer[k] == old(buffer[k])
  {
    hide Digits32;
    ok := value <= MAX32;
    if ok {
      var (d0, d1, d2, d3) := Digits32(value);
      buffer[at] := d0;
      buffer[at + 1] := d1;
      buffer[at + 2] := d2;
      buffer[at + 3] := d3;
    }
  }

  lemma Shifted16(pre: seq<byte>, s: seq<byte>, post: seq<byte>, at: nat)
    requires at + 2 <= |s|
    ensures U16(pre + s + post, |pre| + at) == U16(s, at)
  {
    var all := pre + s + post;
    assert all[|pre| + at] == s[at] && all[|pre| + at + 1] == s[at + 1];
  }

  lemma Shifted32(pre: seq<byte>, s: seq<byte>, post: seq<byte>, at: nat)
    requires at + 4 <= |s|
    ensures U32(pre + s + post, |pre| + at) == U32(s, at)
  {
    var all := pre + s + post;
    assert all[|pre| + at] == s[at] && all[|pre| + at + 1] == s[at + 1];
    assert all[|pre| + at + 2] == s[at + 2] && all[|pre| + at + 3] == s[at + 3];
  }
}
