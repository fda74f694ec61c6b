// The reservation a heap lives in: a fixed range of addresses whose first
// commitSize bytes may be read and written.
module VirtualMemories {
  import opened Bytes

  const PAGE_ALIGNMENT: nat := 4096

  class VirtualMemory {
    const base: nat               // the address mmap returned
    const reservationSize: nat
    var commitSize: nat
    var bytes: seq<byte>          // the address space up to the reservation's end

    ghost predicate Valid()
      reads this
    {
      && 0 < base
      && base % PAGE_ALIGNMENT == 0
      && base + reservationSize < 0x1_0000_0000_0000_0000
      && commitSize <= reservationSize
      && |bytes| == base + reservationSize
    }

    constructor (image: seq<byte>, address: nat, size: nat)
      requires 0 < address && address % PAGE_ALIGNMENT == 0
      requires address + size < 0x1_0000_0000_0000_0000
      requires |image| == address + size
      ensures Valid()
      ensures base == address && reservationSize == size
      ensures commitSize == 0 && bytes == image
    {
      base, reservationSize, commitSize, bytes := address, size, 0, image;
    }

    /** `protect` is the answer of the operating system to the request to open
        the pages. */
    method Commit(numBytes: nat, protect: bool) returns (ok: bool)
      requires Valid()
      modifies this`commitSize
      ensures Valid()
      ensures ok <==> numBytes <= old(commitSize) || (numBytes <= reservationSize && protect)
      ensures commitSize == if ok && old(commitSize) < numBytes then numBytes else old(commitSize)
    {
      if numBytes > commitSize {
        if numBytes > reservationSize || !protect {
          return false;
        }
        commitSize := numBytes;
      }
      return true;
    }

    /** Writes one field of n bytes; nothing outside the committed pages may be
        touched, and no other byte changes. */
    method Store(a: nat, n: nat, v: nat)
      requires Valid()
      requires base <= a && a + n <= base + commitSize
      requires v < Pow256(n)
      modifies this`bytes
      ensures Valid()
      ensures Load(bytes, a, n) == v
      ensures SameOutside(old(bytes), bytes, a, a + n)
    {
      var field := ToBytes(v, n);
      bytes := bytes[..a] + field + bytes[a + n..];
      assert bytes[a..a + n] == field;
      RoundTrip(v, n);
    }

    method StoreByte(a: nat, v: byte)
      requires Valid()
      requires base <= a < base + commitSize
      modifies this`bytes
      ensures Valid()
      ensures bytes == old(bytes)[a := v]
    {
      bytes := bytes[a := v];
    }
  }
}
