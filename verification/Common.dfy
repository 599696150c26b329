/** Definitions shared by all modules. */
module Common {

  datatype Option<+T> = None | Some(value: T)

  /** An unsigned byte; arithmetic on bytes is done on integers. */
  type byte = b: int | 0 <= b < 256

  type pos = n: int | n > 0 witness 1

  /** Size of the address space of a 64-bit unsigned integer. */
  const U64 := 0x1_0000_0000_0000_0000

  const U32 := 0x1_0000_0000

  function Min(a: int, b: int): int {
    if a < b then a else b
  }

  function Max(a: int, b: int): int {
    if a < b then b else a
  }

  function RoundDown(x: nat, a: nat): nat
    requires a > 0
  {
    x - x % a
  }

  function RoundUp(x: nat, a: nat): nat
    requires a > 0
  {
    RoundDown(x + a - 1, a)
  }

  /** 1 << k, in eight bits. */
  function Mask(k: nat): bv8
    requires k < 8
  {
    if k == 0 then 1 else if k == 1 then 2 else if k == 2 then 4 else if k == 3 then 8
    else if k == 4 then 16 else if k == 5 then 32 else if k == 6 then 64 else 128
  }

  /** Copies bytes over a buffer, starting at an offset. */
  function Copy(buf: seq<byte>, at: nat, bytes: seq<byte>): (s: seq<byte>)
    requires at + |bytes| <= |buf|
    ensures |s| == |buf|
    ensures forall i :: at <= i < at + |bytes| ==> s[i] == bytes[i - at]
    ensures forall i :: 0 <= i < at || at + |bytes| <= i < |s| ==> s[i] == buf[i]
  {
    buf[..at] + bytes + buf[at + |bytes|..]
  }
}
