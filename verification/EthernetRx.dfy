/** Reception: `low_level_input` copies a frame out of the receive ring into a pbuf chain and gives the
    descriptors of the frame back to the DMA. */
module EthernetRx {
  import opened FixedPoint
  import opened RingMemory
  import Tx = EthernetTx

  datatype Option<T> = None | Some(value: T)

  class RxRing {
    const count: nat
    const size: nat
    const own: array<bool>
    const mem: array<uint8>
    // What HAL_ETH_GetReceivedFrame_IT leaves in RxFrameInfos.
    var fsRxDesc: nat
    var segCount: nat
    var length: uint32

    ghost predicate Valid()
      reads this
    {
      && count > 0 && 0 < size <= 0x1fff
      && own.Length == count && mem.Length == count * size && mem.Length > 0
      && fsRxDesc < count
    }

    constructor (count: nat, size: nat)
      requires count > 0 && 0 < size <= 0x1fff
      ensures Valid() && this.count == count && this.size == size && segCount == 0
      ensures forall i :: 0 <= i < count ==> own[i]
      ensures fresh(own) && fresh(mem)
    {
      MulMono(1, count, size);
      this.count, this.size, fsRxDesc, segCount, length := count, size, 0, 0, 0;
      own := new bool[count](_ => true);
      mem := new uint8[count * size](_ => 0);
    }

    /** The body of the loop over the pbufs: one payload, gathered from as many buffers as it takes. */
    method FillPbuf(dst: array<uint8>, desc0: nat, offset0: uint32, ghost d0: nat)
      returns (desc: nat, offset: uint32, ghost d: nat)
      requires Valid() && dst != mem && dst.Length < 0x1_0000
      requires desc0 == Nth(fsRxDesc, d0, count) && offset0 <= size
      modifies dst
      ensures desc == Nth(fsRxDesc, d, count) && offset <= size
      ensures d * size + offset == d0 * size + offset0 + dst.Length
      ensures dst[..] == Get(mem[..], fsRxDesc * size + d0 * size + offset0, dst.Length)
    {
      hide Get, Nth;
      ghost var base := fsRxDesc * size + d0 * size + offset0;
      desc, offset, d := desc0, offset0, d0;
      var left: uint32 := dst.Length;
      var payloadOffset: uint32 := 0;
      GetNothing(mem[..], base);
      while left + offset > size
        invariant payloadOffset + left == dst.Length && offset <= size
        invariant desc == Nth(fsRxDesc, d, count)
        invariant base + payloadOffset == fsRxDesc * size + d * size + offset
        invariant dst[..payloadOffset] == Get(mem[..], base, payloadOffset)
        invariant mem[..] == old(mem[..])
        decreases left + offset
      {
        var room: uint32 := size - offset;
        CopyOut(dst, payloadOffset, desc, offset, room, d, base);
        NextIsNth(fsRxDesc, d, count);
        desc, d := NextDesc(desc, count), d + 1;
        assert (d - 1) * size + size == d * size;
        left, payloadOffset, offset := left - room, payloadOffset + room, 0;
      }
      CopyOut(dst, payloadOffset, desc, offset, left, d, base);
      assert dst[..payloadOffset + left] == dst[..];
      offset := offset + left;
    }

    method CopyOut(dst: array<uint8>, at: nat, desc: nat, offset: nat, n: nat, ghost d: nat, ghost base: nat)
      requires Valid() && dst != mem && at + n <= dst.Length && offset + n <= size
      requires desc == Nth(fsRxDesc, d, count) && base + at == fsRxDesc * size + d * size + offset
      requires dst[..at] == Get(mem[..], base, at)
      modifies dst
      ensures dst[..at + n] == Get(mem[..], base, at + n)
    {
      GetBuffer(mem[..], count, size, fsRxDesc, d, offset, n);
      GetSplit(mem[..], base, at, n);
      Tx.Memcpy(dst, at, mem, desc * size + offset, n);
    }

    /** The copy loops of `low_level_input`. */
    method FillChain(chain: seq<array<uint8>>)
      requires Valid()
      requires forall q :: 0 <= q < |chain| ==> chain[q] != mem && chain[q].Length < 0x1_0000
      requires forall i, j :: 0 <= i < j < |chain| ==> chain[i] != chain[j]
      modifies chain
      ensures Tx.Payloads(chain) == Get(mem[..], fsRxDesc * size, |Tx.Payloads(chain)|)
      ensures |Tx.Payloads(chain)| == old(|Tx.Payloads(chain)|)
    {
      hide Get, Nth, Tx.Payloads;
      ghost var base: nat, d: nat, n: nat := fsRxDesc * size, 0, 0;
      var desc: nat, offset: uint32 := fsRxDesc, 0;
      FirstNth();
      GetNothing(mem[..], base);
      NoPayloads(chain[..0]);
      var q := 0;
      while q < |chain|
        invariant 0 <= q <= |chain| && mem[..] == old(mem[..])
        invariant desc == Nth(fsRxDesc, d, count) && offset <= size && n == d * size + offset
        invariant Tx.Payloads(chain[..q]) == Get(mem[..], base, n)
      {
        Tx.PayloadsUpTo(chain, q);
        ghost var before := Tx.Payloads(chain[..q]);
        desc, offset, d := FillPbuf(chain[q], desc, offset, d);
        Tx.PayloadsUpTo(chain, q);
        assert Tx.Payloads(chain[..q]) == before;
        GetSplit(mem[..], base, n, chain[q].Length);
        n := n + chain[q].Length;
        q := q + 1;
      }
      assert chain[..q] == chain;
      PayloadLength(chain);
    }

    lemma FirstNth()
      requires Valid()
      ensures Nth(fsRxDesc, 0, count) == fsRxDesc
    {
      ModUnique(fsRxDesc, count, 0, fsRxDesc);
    }

    lemma NoPayloads(chain: seq<array<uint8>>)
      requires chain == []
      ensures Tx.Payloads(chain) == []
    {}

    twostate lemma PayloadLength(chain: seq<array<uint8>>)
      ensures |Tx.Payloads(chain)| == old(|Tx.Payloads(chain)|)
    {
      if chain != [] {
        PayloadLength(chain[..|chain| - 1]);
      }
    }

    /** Descriptor b is one of the first n of the frame. */
    ghost predicate Holds(b: nat, n: nat)
      requires Valid()
      reads this
    {
      exists k: nat :: k < n && Nth(fsRxDesc, k, count) == b
    }

    lemma HoldsNext(n: nat)
      requires Valid()
      ensures forall b: nat :: Holds(b, n + 1) <==> Holds(b, n) || b == Nth(fsRxDesc, n, count)
    {
      hide Nth;
      forall b: nat
        ensures Holds(b, n + 1) <==> Holds(b, n) || b == Nth(fsRxDesc, n, count)
      {
        if Holds(b, n) {
          var k: nat :| k < n && Nth(fsRxDesc, k, count) == b;
          assert k < n + 1;
        }
        assert n < n + 1;
      }
    }

    /** The DMA engine: fills the ring with a frame, gives the buffers to the CPU, and leaves behind what
        `HAL_ETH_GetReceivedFrame_IT` reports about them. */
    method DmaReceive(frame: seq<uint8>)
      requires Valid() && 0 < |frame| < 0x1_0000 && |frame| <= mem.Length
      modifies this`segCount, this`length, own, mem
      ensures Valid() && length == |frame| && segCount == Tx.LastBuffer(|frame|, size) + 1
      ensures mem[..] == Put(old(mem[..]), fsRxDesc * size, frame)
      ensures forall i :: 0 <= i < count ==> (own[i] <==> old(own[i]) && !Holds(i, segCount))
    {
      for i := 0 to |frame|
        modifies mem
        invariant mem[..] == Put(old(mem[..]), fsRxDesc * size, frame[..i])
      {
        assert frame[..i + 1][..i] == frame[..i];
        mem[(fsRxDesc * size + i) % mem.Length] := frame[i];
      }
      assert frame[..|frame|] == frame;
      segCount, length := Tx.LastBuffer(|frame|, size) + 1, |frame|;
      for i := 0 to segCount
        modifies own
        invariant forall j :: 0 <= j < count ==> (own[j] <==> old(own[j]) && !Holds(j, i))
      {
        own[Nth(fsRxDesc, i, count)] := false;
        HoldsNext(i);
      }
    }

    /** Giving back the descriptors of a frame leaves none of them, and no other, behind. */
    lemma GivenBack(held: seq<bool>, n: nat)
      requires Valid() && |held| == count
      ensures forall i :: 0 <= i < count ==> (Given(held, fsRxDesc, n)[i] <==> held[i] || Holds(i, n))
    {
      hide Nth, Given;
      forall i | 0 <= i < count
        ensures Given(held, fsRxDesc, n)[i] <==> held[i] || Holds(i, n)
      {
        GivenExactly(held, fsRxDesc, n, i);
      }
    }

    /** `low_level_input`. `received` is what `HAL_ETH_GetReceivedFrame_IT` has answered, `pool` what
        `pbuf_alloc` would answer for the length of the frame. */
    method Input(received: bool, pool: Option<seq<array<uint8>>>) returns (p: Option<seq<array<uint8>>>)
      requires Valid()
      requires pool.Some? ==>
                 && (forall q :: 0 <= q < |pool.value| ==> pool.value[q] != mem && pool.value[q].Length < 0x1_0000)
                 && (forall i, j :: 0 <= i < j < |pool.value| ==> pool.value[i] != pool.value[j])
                 && |Tx.Payloads(pool.value)| == length % 0x1_0000
      modifies this`segCount, own, if pool.Some? then pool.value else []
      ensures Valid()
      ensures p == if received && length % 0x1_0000 > 0 then pool else None
      ensures p.Some? ==> Tx.Payloads(p.value) == Get(mem[..], fsRxDesc * size, length % 0x1_0000)
      ensures mem[..] == old(mem[..])
      ensures if received then own[..] == Given(old(own[..]), fsRxDesc, old(segCount)) && segCount == 0
              else own[..] == old(own[..]) && segCount == old(segCount)
    {
      p := None;
      if !received {
        return;
      }
      var len: uint16 := length % 0x1_0000;
      if len > 0 {
        p := pool;
      }
      if p.Some? {
        FillChain(p.value);
      }
      var dmarxdesc := fsRxDesc;
      ModUnique(fsRxDesc, count, 0, fsRxDesc);
      for i := 0 to segCount
        invariant dmarxdesc == Nth(fsRxDesc, i, count)
        invariant own[..] == Given(old(own[..]), fsRxDesc, i)
        invariant mem[..] == old(mem[..])
        invariant p.Some? ==> Tx.Payloads(p.value) == Get(mem[..], fsRxDesc * size, length % 0x1_0000)
      {
        own[dmarxdesc] := true;
        NextIsNth(fsRxDesc, i, count);
        dmarxdesc := NextDesc(dmarxdesc, count);
      }
      segCount := 0;
    }
  }

  /** A frame through both rings: sent by `low_level_output`, carried by the two DMA engines, and taken in
      by `low_level_input` into a chain of any other cut. The bytes that arrive are the bytes that left. */
  method Loopback(tx: Tx.TxRing, rx: RxRing, chain: seq<array<uint8>>, pool: seq<array<uint8>>)
    returns (errval: Tx.Err, p: Option<seq<array<uint8>>>)
    requires tx.Valid() && rx.Valid() && tx.mem != rx.mem && tx.own != rx.own
    requires forall q :: 0 <= q < |chain| ==> chain[q] != tx.mem && chain[q] != rx.mem && chain[q].Length < 0x1_0000
    requires forall q :: 0 <= q < |pool| ==> pool[q] != tx.mem && pool[q] != rx.mem && pool[q].Length < 0x1_0000
    requires forall i, j :: 0 <= i < j < |pool| ==> pool[i] != pool[j]
    requires 0 < |Tx.Payloads(chain)| == |Tx.Payloads(pool)| < 0x1_0000
    requires |Tx.Payloads(chain)| <= tx.mem.Length && |Tx.Payloads(chain)| <= rx.mem.Length
    modifies tx, tx.own, tx.control, tx.segments, tx.mem, rx, rx.own, rx.mem, pool
    ensures errval == Tx.ERR_OK ==>
              && p == Some(pool)
              && Tx.Payloads(pool) == old(Tx.Payloads(chain))
              && rx.segCount == 0
              && (forall i :: 0 <= i < rx.count && old(rx.own[i]) ==> rx.own[i])
    ensures errval == Tx.ERR_USE ==> p == None && tx.own[..] == old(tx.own[..])
  {
    hide Tx.Payloads, DmaFrame, Given, Put, Get, Tx.SameWhereOwned, Tx.KeptWhereOwned;
    p := None;
    var data, first := Tx.Payloads(chain), tx.txDesc;
    errval := tx.Output(chain);
    if errval == Tx.ERR_OK {
      var wire := DmaFrame(tx.mem[..], tx.control[..], tx.size, first, Tx.LastBuffer(|data|, tx.size) + 1);
      ghost var before := rx.mem[..];
      rx.DmaReceive(wire);
      ghost var held, n := rx.own[..], rx.segCount;
      p := rx.Input(true, Some(pool));
      rx.GivenBack(held, n);
      ScatterGather(before, rx.fsRxDesc * rx.size, wire);
    }
  }
}
