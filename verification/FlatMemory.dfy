/**
 The reference memory: one byte per address, and the owner of the address, inside whose bytes an access
 has to stay.  Segments searched first-match refine it, also when they overlap.
 */
module FlatMemory {
  import opened Bits
  import opened Bytes

  /** `owner` numbers the buffers: which one an address is backed by. */
  datatype FlatMem = FlatMem(bytes: map<nat, byte>, owner: map<nat, nat>)

  function Peek(m: FlatMem, a: nat): byte { if a in m.bytes then m.bytes[a] else 0 }

  function ReadBytes(m: FlatMem, a: nat, n: nat): (bs: seq<byte>)
    ensures |bs| == n
    ensures forall i :: 0 <= i < n ==> bs[i] == Peek(m, a + i)
    decreases n
  {
    if n == 0 then [] else [Peek(m, a)] + ReadBytes(m, a + 1, n - 1)
  }

  function WriteBytes(m: FlatMem, a: nat, bs: seq<byte>): FlatMem
    decreases |bs|
  {
    if bs == [] then m else WriteBytes(m.(bytes := m.bytes[a := bs[0]]), a + 1, bs[1..])
  }

  /** All n bytes from a on have the same owner. */
  ghost predicate InRegion(m: FlatMem, a: nat, n: nat) {
    n > 0 ==> a in m.owner && forall b: nat :: a <= b < a + n ==> b in m.owner && m.owner[b] == m.owner[a]
  }

  function Load(m: FlatMem, a: nat, n: nat): nat { FromLE(ReadBytes(m, a, n)) }

  function Store(m: FlatMem, a: nat, n: nat, v: nat): FlatMem { WriteBytes(m, a, ToLE(v, n)) }

  lemma LoadBound(m: FlatMem, a: nat, n: nat)
    ensures Load(m, a, n) < Pow2(8 * n)
  {
    FromLEBound(ReadBytes(m, a, n));
  }

  lemma LoadWord(m: FlatMem, a: nat)
    ensures Load(m, a, 4) < TWO32 && Load(m, a, 2) < 0x1_0000 && Load(m, a, 1) < 0x100
  {
    hide Load;
    Pow2Values();
    LoadBound(m, a, 4);
    LoadBound(m, a, 2);
    LoadBound(m, a, 1);
  }

  /** A write changes the addresses it covers and no other. */
  lemma {:induction false} WriteBytesAt(m: FlatMem, a: nat, bs: seq<byte>)
    ensures WriteBytes(m, a, bs).owner == m.owner
    ensures forall k: nat :: k in WriteBytes(m, a, bs).bytes <==> k in m.bytes || a <= k < a + |bs|
    ensures forall k: nat :: Peek(WriteBytes(m, a, bs), k) == if a <= k < a + |bs| then bs[k - a] else Peek(m, k)
    decreases |bs|
  {
    if bs != [] { WriteBytesAt(m.(bytes := m.bytes[a := bs[0]]), a + 1, bs[1..]); }
  }

  // -------------------------------------------------------------------- segments

  /** A segment [start, end) and the bytes behind it, which may stop short of the end. */
  datatype Segm = Segm(start: nat, end: nat, bytes: seq<byte>)

  predicate InSegment(a: nat, s: Segm) { s.start <= a < s.end }

  predicate WellFormedSegm(s: Segm) { s.start + |s.bytes| <= s.end < TWO32 }

  predicate Apart(s: Segm, t: Segm) { s.end <= t.start || t.end <= s.start }

  ghost predicate WellFormed(ss: seq<Segm>) { forall i :: 0 <= i < |ss| ==> WellFormedSegm(ss[i]) }

  /** The index of the first segment that contains a, or the number of segments. */
  function FirstSegment(ss: seq<Segm>, a: nat): (k: nat)
    ensures k <= |ss|
    ensures k < |ss| ==> InSegment(a, ss[k])
    ensures forall i :: 0 <= i < k ==> !InSegment(a, ss[i])
  {
    if ss == [] || InSegment(a, ss[0]) then 0 else 1 + FirstSegment(ss[1..], a)
  }

  /** The first segment that contains a has a byte for it. */
  predicate Backed(ss: seq<Segm>, a: nat) {
    var k := FirstSegment(ss, a);
    k < |ss| && a - ss[k].start < |ss[k].bytes|
  }

  function ByteAt(ss: seq<Segm>, a: nat): byte
    requires Backed(ss, a)
  {
    var k := FirstSegment(ss, a);
    ss[k].bytes[a - ss[k].start]
  }

  ghost function FlatOf(ss: seq<Segm>): FlatMem {
    FlatMem(map a: nat | a < TWO32 && Backed(ss, a) :: ByteAt(ss, a),
            map a: nat | a < TWO32 && Backed(ss, a) :: FirstSegment(ss, a))
  }

  /** Segment k has data for all n bytes from a on, and is the first one that contains each of them. */
  ghost predicate Owns(ss: seq<Segm>, k: nat, a: nat, n: nat) {
    && k < |ss| && ss[k].start <= a && a - ss[k].start + n <= |ss[k].bytes|
    && forall b: nat :: a <= b < a + n ==> FirstSegment(ss, b) == k
  }

  lemma OwnedByte(ss: seq<Segm>, k: nat, a: nat, n: nat, b: nat)
    requires WellFormed(ss) && Owns(ss, k, a, n) && a <= b < a + n
    ensures b in FlatOf(ss).owner && FlatOf(ss).owner[b] == k
    ensures b in FlatOf(ss).bytes && Peek(FlatOf(ss), b) == ss[k].bytes[b - ss[k].start]
  {
    assert WellFormedSegm(ss[k]);
  }

  lemma OwnedInside(ss: seq<Segm>, k: nat, a: nat, n: nat)
    requires Owns(ss, k, a, n)
    ensures k < |ss| && ss[k].start <= a && a - ss[k].start + n <= |ss[k].bytes|
  {
  }

  /** The accesses with one owner are those that stay in the data of the first segment that matches. */
  lemma AccessFound(ss: seq<Segm>, a: nat, n: nat)
    requires WellFormed(ss) && n > 0
    ensures InRegion(FlatOf(ss), a, n) <==> Owns(ss, FirstSegment(ss, a), a, n)
  {
    var m, k := FlatOf(ss), FirstSegment(ss, a);
    if InRegion(m, a, n) {
      forall b: nat | a <= b < a + n ensures FirstSegment(ss, b) == k && Backed(ss, b) {
        assert b in m.owner && m.owner[b] == m.owner[a];
      }
      assert Backed(ss, a + n - 1);
    }
    if Owns(ss, k, a, n) {
      hide FlatOf, Owns;
      OwnedByte(ss, k, a, n, a);
      forall b: nat | a <= b < a + n ensures b in m.owner && m.owner[b] == m.owner[a] {
        OwnedByte(ss, k, a, n, b);
      }
    }
  }

  /** A load through the segments is a load of the flat memory. */
  lemma LoadRefines(ss: seq<Segm>, k: nat, a: nat, n: nat)
    requires WellFormed(ss) && Owns(ss, k, a, n)
    ensures var off := a - ss[k].start; ReadBytes(FlatOf(ss), a, n) == ss[k].bytes[off..off + n]
  {
    hide FlatOf, WellFormed, ReadBytes, Peek, FirstSegment, Owns;
    OwnedInside(ss, k, a, n);
    var off := a - ss[k].start;
    forall i | 0 <= i < n
      ensures ReadBytes(FlatOf(ss), a, n)[i] == ss[k].bytes[off..off + n][i]
    {
      OwnedByte(ss, k, a, n, a + i);
    }
  }

  /**
   An access that runs on under a segment in front of its own is excluded with reason: the load at 0 reads
   the hidden byte 2, while the byte at address 1 is 7.
   */
  lemma HiddenByte()
    ensures var ss := [Segm(1, 2, [7]), Segm(0, 2, [1, 2])];
            && WellFormed(ss) && FirstSegment(ss, 0) == 1 && !InRegion(FlatOf(ss), 0, 2)
            && ss[1].bytes[0..2] == [1, 2] && ReadBytes(FlatOf(ss), 0, 2) == [1, 7]
  {
    var ss := [Segm(1, 2, [7]), Segm(0, 2, [1, 2])];
    assert ss[1..] == [Segm(0, 2, [1, 2])];
    assert FirstSegment(ss[1..], 0) == 0;
    assert FirstSegment(ss, 0) == 1 && FirstSegment(ss, 1) == 0;
    var m := FlatOf(ss);
    assert 0 in m.owner && 1 in m.owner && m.owner[0] != m.owner[1];
    assert Peek(m, 0) == 1 && Peek(m, 1) == 7;
  }

  /** No segment in front of segment k shares an address with it. */
  ghost predicate Uncovered(ss: seq<Segm>, k: nat)
    requires k < |ss|
  {
    forall i :: 0 <= i < k ==> Apart(ss[i], ss[k])
  }

  lemma FirstIs(ss: seq<Segm>, k: nat, a: nat)
    requires k < |ss| && Uncovered(ss, k) && InSegment(a, ss[k])
    ensures FirstSegment(ss, a) == k
  {
    var i := FirstSegment(ss, a);
    assert i < k ==> Apart(ss[i], ss[k]);
  }

  /** Such a segment owns all of its data. */
  lemma UncoveredOwns(ss: seq<Segm>, k: nat, a: nat, n: nat)
    requires WellFormed(ss) && k < |ss| && Uncovered(ss, k)
    requires ss[k].start <= a && a - ss[k].start + n <= |ss[k].bytes|
    ensures Owns(ss, k, a, n)
    ensures InRegion(FlatOf(ss), a, n)
  {
    assert WellFormedSegm(ss[k]);
    forall b: nat | a <= b < a + n ensures FirstSegment(ss, b) == k {
      FirstIs(ss, k, b);
    }
    hide FlatOf, FirstSegment;
    if n > 0 { AccessFound(ss, a, n); }
  }

  function Splice(bytes: seq<byte>, off: nat, bs: seq<byte>): (r: seq<byte>)
    requires off + |bs| <= |bytes|
    ensures |r| == |bytes|
    ensures forall i :: 0 <= i < |bytes| ==> r[i] == if off <= i < off + |bs| then bs[i - off] else bytes[i]
  {
    bytes[..off] + bs + bytes[off + |bs|..]
  }

  /** The segments after storing into the first one that matches. */
  function StoreSegm(ss: seq<Segm>, k: nat, off: nat, bs: seq<byte>): seq<Segm>
    requires k < |ss| && off + |bs| <= |ss[k].bytes|
  {
    ss[k := ss[k].(bytes := Splice(ss[k].bytes, off, bs))]
  }

  /** A store through the segments is a store to the flat memory, and no address changes its owner. */
  lemma StoreRefines(ss: seq<Segm>, k: nat, a: nat, bs: seq<byte>)
    requires WellFormed(ss) && Owns(ss, k, a, |bs|)
    ensures var tt := StoreSegm(ss, k, a - ss[k].start, bs);
            WellFormed(tt) && FlatOf(tt) == WriteBytes(FlatOf(ss), a, bs)
  {
    var tt := StoreSegm(ss, k, a - ss[k].start, bs);
    assert WellFormed(tt);
    hide *;
    WriteBytesAt(FlatOf(ss), a, bs);
    var m, w := FlatOf(tt), WriteBytes(FlatOf(ss), a, bs);
    forall b: nat
      ensures b in m.bytes <==> b in w.bytes
      ensures b in m.bytes ==> m.bytes[b] == w.bytes[b]
      ensures b in m.owner <==> b in w.owner
      ensures b in m.owner ==> m.owner[b] == w.owner[b]
    {
      StoreByte(ss, k, a, bs, b);
    }
    SameFlat(m, w);
  }

  lemma SameFlat(m: FlatMem, w: FlatMem)
    requires forall b: nat :: b in m.bytes <==> b in w.bytes
    requires forall b: nat :: b in m.bytes ==> m.bytes[b] == w.bytes[b]
    requires forall b: nat :: b in m.owner <==> b in w.owner
    requires forall b: nat :: b in m.owner ==> m.owner[b] == w.owner[b]
    ensures m == w
  {
    assert m.bytes == w.bytes && m.owner == w.owner;
  }

  lemma StoreByte(ss: seq<Segm>, k: nat, a: nat, bs: seq<byte>, b: nat)
    requires WellFormed(ss) && Owns(ss, k, a, |bs|)
    ensures var m, w := FlatOf(StoreSegm(ss, k, a - ss[k].start, bs)), WriteBytes(FlatOf(ss), a, bs);
            && (b in m.bytes <==> b in w.bytes)
            && (b in m.bytes ==> m.bytes[b] == w.bytes[b])
            && (b in m.owner <==> b in w.owner)
            && (b in m.owner ==> m.owner[b] == w.owner[b])
  {
    var tt, w := StoreSegm(ss, k, a - ss[k].start, bs), WriteBytes(FlatOf(ss), a, bs);
    StoreAt(ss, k, a, bs, b);
    SameFirst(ss, tt, b);
    hide WellFormed, Owns, StoreSegm, Backed, ByteAt, WriteBytes, FlatOf, FirstSegment;
    WriteBytesAt(FlatOf(ss), a, bs);
    FlatByte(ss, b);
    FlatByte(tt, b);
    assert b in w.bytes ==> w.bytes[b] == Peek(w, b);
  }

  lemma FlatByte(ss: seq<Segm>, b: nat)
    ensures b in FlatOf(ss).bytes <==> b < TWO32 && Backed(ss, b)
    ensures b in FlatOf(ss).bytes ==> FlatOf(ss).bytes[b] == ByteAt(ss, b) == Peek(FlatOf(ss), b)
    ensures b in FlatOf(ss).owner <==> b < TWO32 && Backed(ss, b)
    ensures b in FlatOf(ss).owner ==> FlatOf(ss).owner[b] == FirstSegment(ss, b)
  {
    hide Backed, ByteAt, FirstSegment;
  }

  lemma StoreAt(ss: seq<Segm>, k: nat, a: nat, bs: seq<byte>, b: nat)
    requires WellFormed(ss) && Owns(ss, k, a, |bs|)
    ensures var tt := StoreSegm(ss, k, a - ss[k].start, bs);
            && (Backed(tt, b) <==> Backed(ss, b))
            && (a <= b < a + |bs| ==> Backed(ss, b) && b < TWO32)
            && (Backed(ss, b) ==> ByteAt(tt, b) == if a <= b < a + |bs| then bs[b - a] else ByteAt(ss, b))
  {
    assert WellFormedSegm(ss[k]);
    SameFirst(ss, StoreSegm(ss, k, a - ss[k].start, bs), b);
  }

  lemma SameFirst(ss: seq<Segm>, tt: seq<Segm>, a: nat)
    requires |ss| == |tt|
    requires forall i :: 0 <= i < |ss| ==> tt[i].start == ss[i].start && tt[i].end == ss[i].end
    ensures FirstSegment(tt, a) == FirstSegment(ss, a)
  {
    if ss != [] && !InSegment(a, ss[0]) { SameFirst(ss[1..], tt[1..], a); }
  }

  // ------------------------------------------------ sequences of stores, then a load

  /** A store of `width` bytes, 1, 2 or 4. */
  datatype StoreOp = StoreOp(addr: nat, width: nat, value: nat) {
    predicate Covers(a: nat) { addr <= a < addr + width }
  }

  datatype Written = Untouched | Last(b: byte)

  /** The byte that the last store covering a put there. */
  function LastWritten(ops: seq<StoreOp>, a: nat): Written {
    if ops == [] then Untouched
    else
      var op := ops[|ops| - 1];
      if op.Covers(a) then Last(ToLE(op.value, op.width)[a - op.addr]) else LastWritten(ops[..|ops| - 1], a)
  }

  /** The stores carried out one by one through the segments, each in the first one that matches. */
  function StoreAll(ss: seq<Segm>, ops: seq<StoreOp>): seq<Segm> {
    if ops == [] then ss
    else
      var op, tt := ops[|ops| - 1], StoreAll(ss, ops[..|ops| - 1]);
      var k := FirstSegment(tt, op.addr);
      if k < |tt| && op.addr - tt[k].start + op.width <= |tt[k].bytes|
      then StoreSegm(tt, k, op.addr - tt[k].start, ToLE(op.value, op.width))
      else tt
  }

  /** The last byte written to a, or the byte that was there. */
  ghost function Expected(ss: seq<Segm>, ops: seq<StoreOp>, a: nat): byte {
    match LastWritten(ops, a) case Last(b) => b case Untouched => Peek(FlatOf(ss), a)
  }

  /** Whatever the widths and overlaps, every address holds the last byte written to it, or its old one. */
  lemma {:induction false} LastWriteWins(ss: seq<Segm>, ops: seq<StoreOp>, a: nat)
    requires WellFormed(ss)
    requires forall op :: op in ops ==> op.width > 0 && InRegion(FlatOf(ss), op.addr, op.width)
    ensures WellFormed(StoreAll(ss, ops)) && FlatOf(StoreAll(ss, ops)).owner == FlatOf(ss).owner
    ensures Peek(FlatOf(StoreAll(ss, ops)), a) == Expected(ss, ops, a)
  {
    hide WellFormed, FlatOf, StoreSegm, InRegion, Peek;
    if ops != [] {
      var op, prefix := ops[|ops| - 1], ops[..|ops| - 1];
      LastWriteWins(ss, prefix, a);
      var tt := StoreAll(ss, prefix);
      SameOwners(FlatOf(ss), FlatOf(tt), op.addr, op.width);
      AccessFound(tt, op.addr, op.width);
      StoreRefines(tt, FirstSegment(tt, op.addr), op.addr, ToLE(op.value, op.width));
      WriteBytesAt(FlatOf(tt), op.addr, ToLE(op.value, op.width));
    }
  }

  lemma SameOwners(m: FlatMem, w: FlatMem, a: nat, n: nat)
    requires m.owner == w.owner
    ensures InRegion(m, a, n) <==> InRegion(w, a, n)
  {
  }

  /** So a load returns, byte by byte, what was written last. */
  lemma LoadAfterStores(ss: seq<Segm>, ops: seq<StoreOp>, a: nat, n: nat)
    requires WellFormed(ss)
    requires forall op :: op in ops ==> op.width > 0 && InRegion(FlatOf(ss), op.addr, op.width)
    ensures ToLE(Load(FlatOf(StoreAll(ss, ops)), a, n), n) == ReadBytes(FlatOf(StoreAll(ss, ops)), a, n)
    ensures forall i :: 0 <= i < n ==>
              ReadBytes(FlatOf(StoreAll(ss, ops)), a, n)[i] == Expected(ss, ops, a + i)
  {
    hide StoreAll, LastWritten, WellFormed, FlatOf, InRegion, Peek;
    var m := FlatOf(StoreAll(ss, ops));
    ToFromLE(ReadBytes(m, a, n));
    forall i | 0 <= i < n
      ensures ReadBytes(m, a, n)[i] == Expected(ss, ops, a + i)
    {
      LastWriteWins(ss, ops, a + i);
    }
  }

  // --------------------------------------------- byte loops over wrapping addresses

  /** The address i bytes behind a; 32-bit addresses wrap around. */
  function Wrapped(a: nat, i: nat): (b: nat)
    ensures b < TWO32
  {
    (a + i) % TWO32
  }

  function WriteWrapped(m: FlatMem, a: nat, bs: seq<byte>): FlatMem {
    if bs == [] then m
    else
      var n := |bs| - 1;
      WriteBytes(WriteWrapped(m, a, bs[..n]), Wrapped(a, n), [bs[n]])
  }

  function ReadWrapped(m: FlatMem, a: nat, n: nat): (bs: seq<byte>)
    ensures |bs| == n
    ensures forall i :: 0 <= i < n ==> bs[i] == Peek(m, Wrapped(a, i))
  {
    if n == 0 then [] else ReadWrapped(m, a, n - 1) + [Peek(m, Wrapped(a, n - 1))]
  }

  ghost predicate AllMapped(m: FlatMem, a: nat, n: nat) {
    forall i: nat :: i < n ==> InRegion(m, Wrapped(a, i), 1)
  }

  /** How far b lies behind a on the circle of addresses. */
  function Distance(a: nat, b: nat): nat { (b - a) % TWO32 }

  lemma {:induction false} WriteWrappedAt(m: FlatMem, a: nat, bs: seq<byte>, b: nat)
    requires |bs| <= TWO32 && b < TWO32
    ensures WriteWrapped(m, a, bs).owner == m.owner
    ensures Peek(WriteWrapped(m, a, bs), b) == if Distance(a, b) < |bs| then bs[Distance(a, b)] else Peek(m, b)
    decreases |bs|
  {
    hide Peek, WriteBytes;
    if bs != [] {
      var n := |bs| - 1;
      WriteWrappedAt(m, a, bs[..n], b);
      WriteBytesAt(WriteWrapped(m, a, bs[..n]), Wrapped(a, n), [bs[n]]);
      DistanceIs(a, b, n);
    }
  }

  lemma DistanceIs(a: nat, b: nat, n: nat)
    requires b < TWO32 && n < TWO32
    ensures Wrapped(a, n) == b <==> Distance(a, b) == n
  {
  }

  /** Copying in and out again gives the buffer back, up to 2^32 bytes and across the wrap-around. */
  lemma CopyRoundTrip(m: FlatMem, a: nat, bs: seq<byte>)
    requires |bs| <= TWO32
    ensures ReadWrapped(WriteWrapped(m, a, bs), a, |bs|) == bs
  {
    hide Peek, WriteWrapped;
    forall i | 0 <= i < |bs|
      ensures ReadWrapped(WriteWrapped(m, a, bs), a, |bs|)[i] == bs[i]
    {
      WriteWrappedAt(m, a, bs, Wrapped(a, i));
      DistanceIs(a, Wrapped(a, i), i);
    }
  }

  /** Addresses outside the copied range keep their bytes. */
  lemma CopyLeavesRest(m: FlatMem, a: nat, bs: seq<byte>, b: nat)
    requires |bs| <= TWO32 && b < TWO32
    requires forall i :: 0 <= i < |bs| ==> b != Wrapped(a, i)
    ensures Peek(WriteWrapped(m, a, bs), b) == Peek(m, b)
  {
    hide Peek, WriteWrapped;
    WriteWrappedAt(m, a, bs, b);
    DistanceIs(a, b, Distance(a, b));
  }
}
