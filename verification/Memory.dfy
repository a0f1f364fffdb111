/** `sim::Memory`: a list of segments, each with a buffer that is updated in place. */
module GuestMemory {
  import opened Bits
  import opened Bytes
  import opened FlatMemory

  datatype MemorySegm = MemorySegm(start: nat, end: nat, data: array<byte>)

  ghost function Contents(ms: seq<MemorySegm>): (ss: seq<Segm>)
    reads set s | s in ms :: s.data
    ensures |ss| == |ms|
    ensures forall i :: 0 <= i < |ms| ==> ss[i] == Segm(ms[i].start, ms[i].end, ms[i].data[..])
  {
    if ms == [] then [] else [Segm(ms[0].start, ms[0].end, ms[0].data[..])] + Contents(ms[1..])
  }

  /** `memcpy` of n bytes out of a buffer, and into one. */
  method MemcpyInto(dst: array<byte>, offset: nat, src: seq<byte>)
    requires offset + |src| <= dst.Length
    modifies dst
    ensures dst[..] == Splice(old(dst[..]), offset, src)
  {
    for i := 0 to |src|
      invariant forall k :: 0 <= k < dst.Length ==>
                  dst[k] == if offset <= k < offset + i then src[k - offset] else old(dst[k])
    {
      dst[offset + i] := src[i];
    }
  }

  class Memory {
    var memory: seq<MemorySegm>

    /** The buffers of all segments. */
    ghost var buffers: set<array<byte>>

    ghost predicate Valid()
      reads this, buffers
    {
      && buffers == (set s | s in memory :: s.data)
      && WellFormed(Contents(memory))
      && (forall i, j :: 0 <= i < j < |memory| ==> memory[i].data != memory[j].data)
    }

    ghost function Segments(): seq<Segm>
      requires Valid()
      reads this, buffers
    {
      Contents(memory)
    }

    /** The bytes of the guest, whatever the segments they sit in. */
    ghost function Flat(): FlatMem
      requires Valid()
      reads this, buffers
    {
      FlatOf(Segments())
    }

    constructor ()
      ensures Valid() && Segments() == [] && buffers == {}
    {
      memory, buffers := [], {};
    }

    method AddSegment(segm: MemorySegm)
      requires Valid() && segm.data !in buffers
      requires WellFormed(Segments() + [Segm(segm.start, segm.end, segm.data[..])])
      modifies this
      ensures Valid() && buffers == old(buffers) + {segm.data}
      ensures Segments() == old(Segments()) + [Segm(segm.start, segm.end, segm.data[..])]
    {
      hide WellFormed;
      memory := memory + [segm];
      buffers := buffers + {segm.data};
      assert Contents(memory) == old(Segments()) + [Segm(segm.start, segm.end, segm.data[..])];
    }

    /** The search that every access starts with. */
    method Locate(addr: nat, ghost size: nat) returns (k: nat)
      requires Valid() && size > 0 && InRegion(Flat(), addr, size)
      ensures k == FirstSegment(Segments(), addr) < |memory|
      ensures Owns(Segments(), k, addr, size)
      ensures memory[k].start <= addr && addr - memory[k].start + size <= memory[k].data.Length
    {
      AccessFound(Segments(), addr, size);
      for i := 0 to |memory|
        invariant i <= FirstSegment(Segments(), addr)
      {
        if memory[i].start <= addr < memory[i].end { return i; }
      }
      assert false;
    }

    method LoadBytes(addr: nat, n: nat) returns (bs: seq<byte>)
      requires Valid() && n > 0 && InRegion(Flat(), addr, n)
      ensures bs == ReadBytes(Flat(), addr, n)
    {
      hide FlatOf, WellFormed, InRegion, FirstSegment, ReadBytes, Owns;
      var k := Locate(addr, n);
      var offset := addr - memory[k].start;
      bs := memory[k].data[offset..offset + n];
      LoadRefines(Segments(), k, addr, n);
    }

    method StoreInto(k: nat, offset: nat, bs: seq<byte>)
      requires Valid() && k < |memory| && offset + |bs| <= memory[k].data.Length
      requires WellFormed(StoreSegm(Segments(), k, offset, bs))
      modifies buffers
      ensures Valid() && Segments() == StoreSegm(old(Segments()), k, offset, bs)
    {
      hide WellFormed, Splice;
      MemcpyInto(memory[k].data, offset, bs);
      assert Contents(memory) == StoreSegm(old(Segments()), k, offset, bs);
    }

    method StoreBytes(addr: nat, bs: seq<byte>)
      requires Valid() && bs != [] && InRegion(Flat(), addr, |bs|)
      modifies buffers
      ensures Valid() && Flat() == WriteBytes(old(Flat()), addr, bs)
    {
      hide Valid, FlatOf, WellFormed, WriteBytes, InRegion, FirstSegment, StoreSegm, Owns;
      SegmentsWellFormed();
      var k := Locate(addr, |bs|);
      var offset := addr - memory[k].start;
      StoreRefines(Segments(), k, addr, bs);
      StoreInto(k, offset, bs);
    }

    lemma SegmentsWellFormed()
      requires Valid()
      ensures WellFormed(Segments()) && |Segments()| == |memory|
      ensures forall i :: 0 <= i < |memory| ==>
                Segments()[i] == Segm(memory[i].start, memory[i].end, memory[i].data[..])
    {
    }

    method LoadU32(addr: nat) returns (data: u32)
      requires Valid() && InRegion(Flat(), addr, 4)
      ensures data == Load(Flat(), addr, 4)
    {
      hide Valid, FlatOf, InRegion, ReadBytes;
      var bs := LoadBytes(addr, 4);
      LoadWord(Flat(), addr);
      data := FromLE(bs);
    }

    method LoadU16(addr: nat) returns (data: u16)
      requires Valid() && InRegion(Flat(), addr, 2)
      ensures data == Load(Flat(), addr, 2)
    {
      hide Valid, FlatOf, InRegion, ReadBytes;
      var bs := LoadBytes(addr, 2);
      LoadWord(Flat(), addr);
      data := FromLE(bs);
    }

    method LoadU8(addr: nat) returns (data: u8)
      requires Valid() && InRegion(Flat(), addr, 1)
      ensures data == Load(Flat(), addr, 1) == Peek(Flat(), addr)
    {
      hide FlatOf, WellFormed, InRegion, Peek;
      var bs := LoadBytes(addr, 1);
      data := bs[0];
      assert bs[1..] == [] && FromLE(bs[1..]) == 0;
    }

    method StoreU32(addr: nat, val: u32)
      requires Valid() && InRegion(Flat(), addr, 4)
      modifies buffers
      ensures Valid() && Flat() == Store(old(Flat()), addr, 4, val)
    {
      StoreBytes(addr, ToLE(val, 4));
    }

    method StoreU16(addr: nat, val: u16)
      requires Valid() && InRegion(Flat(), addr, 2)
      modifies buffers
      ensures Valid() && Flat() == Store(old(Flat()), addr, 2, val)
    {
      StoreBytes(addr, ToLE(val, 2));
    }

    method StoreU8(addr: nat, val: u8)
      requires Valid() && InRegion(Flat(), addr, 1)
      modifies buffers
      ensures Valid() && Flat() == WriteBytes(old(Flat()), addr, [val])
    {
      StoreBytes(addr, [val]);
    }

    /** For the write system call. */
    method CopyGuestToHost(fromAddr: nat, toBuf: array<byte>, size: nat)
      requires Valid() && toBuf !in buffers && size <= toBuf.Length
      requires AllMapped(Flat(), fromAddr, size)
      modifies toBuf
      ensures toBuf[..size] == ReadWrapped(Flat(), fromAddr, size)
    {
      hide FlatOf, WellFormed, InRegion, Peek, Wrapped;
      ghost var m := Flat();
      for i := 0 to size
        invariant Valid() && Flat() == m
        invariant toBuf[..i] == ReadWrapped(m, fromAddr, i)
      {
        var b := LoadU8(Wrapped(fromAddr, i));
        toBuf[i] := b;
        assert toBuf[..i + 1] == toBuf[..i] + [b];
      }
    }

    /** For the read system call. */
    method CopyHostToGuest(toAddr: nat, fromBuf: array<byte>, size: nat)
      requires Valid() && fromBuf !in buffers && size <= fromBuf.Length
      requires AllMapped(Flat(), toAddr, size)
      modifies buffers
      ensures Valid() && Flat() == WriteWrapped(old(Flat()), toAddr, fromBuf[..size])
    {
      hide FlatOf, WellFormed, InRegion, Peek, Wrapped, WriteBytes;
      ghost var m := Flat();
      for i := 0 to size
        invariant Valid() && Flat() == WriteWrapped(m, toAddr, fromBuf[..i])
        invariant Flat().owner == m.owner
        invariant fromBuf[..] == old(fromBuf[..])
      {
        SameOwners(m, Flat(), Wrapped(toAddr, i), 1);
        WriteBytesAt(Flat(), Wrapped(toAddr, i), [fromBuf[i]]);
        StoreU8(Wrapped(toAddr, i), fromBuf[i]);
        assert fromBuf[..i + 1][..i] == fromBuf[..i];
      }
    }
  }
}
