/**
 PCI configuration space as a sequence of bytes, and the table of capabilities that the
 library keeps beside it (lib/pci_caps.c, lib/pci_caps.h).
 */
module PciCaps {
  import opened Common

  /** The standard header takes the first 64 bytes. */
  const HEADER := 64
  /** Standard capabilities live in the first 256 bytes; the extended list starts behind them. */
  const CFG_SPACE := 256
  /** Offset of the header byte that points to the first capability. */
  const CAP_PTR := 0x34
  const VFU_MAX_CAPS := 1024

  const ID_PM := 0x01
  const ID_VNDR := 0x09
  const ID_EXP := 0x10
  const ID_MSIX := 0x11
  const EXT_ID_VNDR := 0x0b

  const EPERM := 1
  const ENOENT := 2
  const EINVAL := 22
  const ENOSPC := 28
  const ENOTSUP := 95

  /** An entry of the capability table. */
  datatype Cap = Cap(id: nat, off: nat, hdrSize: nat, size: nat,
                     extended: bool, readonly: bool, callback: bool)
  {
    function End(): nat {
      off + size
    }
  }

  /**
   Size of a standard capability with this id; a vendor-specific one says its size in its
   third byte. None if the id is not supported.
   */
  function SizeOf(id: nat, third: byte): Option<nat> {
    if id == ID_PM then Some(8)
    else if id == ID_EXP then Some(0x3c)
    else if id == ID_MSIX then Some(12)
    else if id == ID_VNDR then Some(third)
    else None
  }

  function StdSize(data: seq<byte>): Option<nat>
    requires |data| >= 3
  {
    SizeOf(data[0], data[2])
  }

  function StdHdrSize(id: nat): nat {
    if id == ID_VNDR then 3 else 2
  }

  /** The test of lib/pci_caps.c: it also holds of a range that ends exactly where the other begins. */
  predicate Intersects(off1: nat, size1: nat, off2: nat, size2: nat) {
    off1 < off2 + size2 && off1 + size1 >= off2
  }

  predicate Near(c: Cap, off: nat, count: nat) {
    Intersects(off, count, c.off, c.size)
  }

  /** cap_find_by_offset(): the first capability in table order from n on; |caps| if there is none. */
  function FindByOffset(caps: seq<Cap>, off: nat, count: nat, n: nat := 0): (i: nat)
    requires n <= |caps|
    ensures n <= i <= |caps|
    ensures i < |caps| ==> Near(caps[i], off, count)
    ensures forall j :: n <= j < i ==> !Near(caps[j], off, count)
    decreases |caps| - n
  {
    if n == |caps| || Near(caps[n], off, count) then n else FindByOffset(caps, off, count, n + 1)
  }

  /** Two capabilities share no byte. */
  predicate Disjoint(c: Cap, d: Cap) {
    c.End() <= d.off || d.End() <= c.off
  }
}
