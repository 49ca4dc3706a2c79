/** Transmission: `low_level_output` copies a pbuf chain into the buffers of the transmit ring, and
    `HAL_ETH_TransmitFrame` hands the filled descriptors to the DMA. */
module EthernetTx {
  import opened FixedPoint
  import opened RingMemory

  datatype Err = ERR_OK | ERR_USE

  /** The bytes of a pbuf chain in order; each pbuf is its payload, `len` bytes long. */
  function Payloads(chain: seq<array<uint8>>): seq<uint8>
    reads chain
  {
    if chain == [] then [] else Payloads(chain[..|chain| - 1]) + chain[|chain| - 1][..]
  }

  lemma {:induction false} PayloadsUpTo(chain: seq<array<uint8>>, q: nat)
    requires q < |chain|
    ensures Payloads(chain[..q + 1]) == Payloads(chain[..q]) + chain[q][..]
    ensures |Payloads(chain[..q + 1])| <= |Payloads(chain)|
    decreases |chain|
  {
    assert chain[..q + 1][..q] == chain[..q];
    if q + 1 == |chain| {
      assert chain[..q + 1] == chain;
    } else {
      var n := |chain| - 1;
      PayloadsUpTo(chain[..n], q);
      assert chain[..n][..q + 1] == chain[..q + 1];
    }
  }

  /** `memcpy`. */
  method Memcpy(dst: array<uint8>, at: nat, src: array<uint8>, from: nat, n: nat)
    requires dst != src && at + n <= dst.Length && from + n <= src.Length
    modifies dst
    ensures dst[..] == old(dst[..at]) + src[from..from + n] + old(dst[at + n..])
  {
    forall k | 0 <= k < n {
      dst[at + k] := src[from + k];
    }
  }

  /** Index of the last buffer, counted from the first one, that a frame of n bytes reaches. */
  function LastBuffer(n: nat, size: nat): nat
    requires size > 0
  {
    if n == 0 then 0 else (n - 1) / size
  }

  lemma LastBufferForm(n: nat, size: nat, d: nat, o: nat)
    requires size > 0 && n == d * size + o && o <= size && (o == 0 ==> d == 0)
    ensures LastBuffer(n, size) == d
  {
    if n > 0 {
      QuotientUnique(n - 1, size, d, o - 1);
    }
  }

  class TxRing {
    const count: nat
    const size: nat
    const own: array<bool>
    const control: array<nat>
    const segments: array<Segment>
    const mem: array<uint8>
    var txDesc: nat

    /** `HAL_ETH_DMATxDescListInit`: a ring of `count` buffers of `size` bytes, all free. */
    constructor (count: nat, size: nat)
      requires count > 0 && 0 < size <= 0x1fff
      ensures Valid() && txDesc == 0 && this.count == count && this.size == size
      ensures forall i :: 0 <= i < count ==> !own[i]
      ensures fresh(own) && fresh(control) && fresh(segments) && fresh(mem)
    {
      MulMono(1, count, size);
      this.count, this.size, txDesc := count, size, 0;
      own := new bool[count](_ => false);
      control := new nat[count](_ => 0);
      segments := new Segment[count](_ => Segment(false, false));
      mem := new uint8[count * size](_ => 0);
    }

    ghost predicate Valid()
      reads this
    {
      && count > 0 && 0 < size <= 0x1fff
      && own.Length == count && control.Length == count && segments.Length == count && mem.Length == count * size
      && mem.Length > 0
      && txDesc < count
    }

    /** No descriptor up to place d belongs to the DMA. */
    ghost predicate Free(d: nat)
      requires Valid()
      reads this, own
    {
      forall i: nat :: i <= d ==> !own[Nth(txDesc, i, count)]
    }

    /** Copying into a free buffer is writing at the next position of the circular memory. */
    method CopyInto(desc: nat, offset: nat, src: array<uint8>, from: nat, n: nat,
                    ghost d: nat, ghost start: Memory, ghost done: seq<uint8>)
      requires Valid() && src != mem && from + n <= src.Length
      requires desc == Nth(txDesc, d, count) && !own[desc] && offset + n <= size && |done| == d * size + offset
      requires |start| == mem.Length && mem[..] == Put(start, txDesc * size, done)
      modifies mem
      ensures mem[..] == Put(start, txDesc * size, done + src[from..from + n])
      ensures SameWhereOwned(own[..], old(mem[..]), mem[..], size)
    {
      PutInBuffer(start, txDesc, d, offset, count, size, done, src[from..from + n]);
      ghost var before := mem[..];
      Memcpy(mem, desc * size + offset, src, from, n);
      ReplacedInBuffer(own[..], before, mem[..], size, desc, desc * size + offset, n);
    }

    /** The copy has stopped in front of an owned descriptor; all buffers before it have been filled. */
    ghost predicate StoppedAt(d: nat, start: Memory, data: seq<uint8>)
      requires Valid() && |start| == mem.Length
      reads this, own, mem
    {
      && own[Nth(txDesc, d, count)] && (d > 0 ==> Free(d - 1))
      && d * size <= |data| && d <= LastBuffer(|data|, size)
      && mem[..] == Put(start, txDesc * size, data[..d * size])
    }

    /** The position of the copy cursors after the bytes `done`. */
    ghost predicate Cursor(desc: nat, offset: nat, d: nat, start: Memory, done: seq<uint8>)
      requires Valid() && |start| == mem.Length
      reads this, mem
    {
      && desc == Nth(txDesc, d, count) && |done| == d * size + offset && offset <= size && (offset == 0 ==> d == 0)
      && mem[..] == Put(start, txDesc * size, done)
    }

    /** The body of the loop over the pbufs: one payload, cut at the ends of the buffers. */
    method CopyPbuf(src: array<uint8>, desc0: nat, offset0: uint32, frameLength0: uint32,
                    ghost d0: nat, ghost start: Memory, ghost done0: seq<uint8>)
      returns (errval: Err, desc: nat, offset: uint32, frameLength: uint32, ghost d: nat)
      requires Valid() && src != mem && src.Length < 0x1_0000 && |start| == mem.Length
      requires Cursor(desc0, offset0, d0, start, done0) && (done0 != [] ==> Free(d0))
      requires frameLength0 == |done0| && |done0| + src.Length < 0x1_0000_0000
      modifies mem
      ensures errval == ERR_OK ==>
                && Cursor(desc, offset, d, start, done0 + src[..]) && Free(d)
                && frameLength == |done0| + src.Length
      ensures errval == ERR_USE ==> StoppedAt(d, start, done0 + src[..])
      ensures SameWhereOwned(own[..], old(mem[..]), mem[..], size)
    {
      hide Put, LastBuffer, SameWhereOwned, InBuffer, Nth;
      desc, offset, frameLength, d := desc0, offset0, frameLength0, d0;
      ghost var before := mem[..];
      SameAsItself(own[..], before, size);
      if own[desc] {
        NothingDone(done0, d, offset, size);
        assert (done0 + src[..])[..0] == [];
        return ERR_USE, desc, offset, frameLength, d;
      }
      FirstIsFree(d, done0, offset);
      assert done0 + src[..0] == done0;
      var left: uint32 := src.Length;
      var payloadOffset: uint32 := 0;
      while left + offset > size
        invariant payloadOffset + left == src.Length && offset <= size
        invariant desc == Nth(txDesc, d, count) && Free(d) && (offset == 0 && d > 0 ==> left > 0)
        invariant frameLength == |done0| + payloadOffset == d * size + offset
        invariant mem[..] == Put(start, txDesc * size, done0 + src[..payloadOffset])
        invariant SameWhereOwned(own[..], before, mem[..], size)
        decreases left + offset
      {
        ghost var held := mem[..];
        var room: uint32 := size - offset;
        CopyInto(desc, offset, src, payloadOffset, room, d, start, done0 + src[..payloadOffset]);
        SameTwice(own[..], before, held, mem[..], size);
        Joined(done0, src[..], payloadOffset, room);
        NextIsNth(txDesc, d, count);
        desc, d := NextDesc(desc, count), d + 1;
        assert (d - 1) * size + size == d * size;
        left, payloadOffset, frameLength := left - room, payloadOffset + room, frameLength + room;
        if own[desc] {
          StopInside(done0 + src[..], d, size);
          assert (done0 + src[..])[..d * size] == done0 + src[..payloadOffset];
          return ERR_USE, desc, offset, frameLength, d;
        }
        offset := 0;
      }
      ghost var held := mem[..];
      CopyInto(desc, offset, src, payloadOffset, left, d, start, done0 + src[..payloadOffset]);
      SameTwice(own[..], before, held, mem[..], size);
      Joined(done0, src[..], payloadOffset, left);
      assert src[..payloadOffset + left] == src[..];
      offset, frameLength := offset + left, frameLength + left;
      errval := ERR_OK;
    }

    /** The copy loops of `low_level_output`: every pbuf in turn. */
    method CopyChain(chain: seq<array<uint8>>) returns (errval: Err, frameLength: uint32, ghost stop: nat)
      requires Valid() && forall q :: 0 <= q < |chain| ==> chain[q] != mem && chain[q].Length < 0x1_0000
      requires |Payloads(chain)| < 0x1_0000_0000
      modifies mem
      ensures errval == ERR_OK <==> chain == [] || Free(LastBuffer(|Payloads(chain)|, size))
      ensures errval == ERR_OK ==>
                frameLength == |Payloads(chain)| && mem[..] == Put(old(mem[..]), txDesc * size, Payloads(chain))
      ensures errval == ERR_USE ==> StoppedAt(stop, old(mem[..]), Payloads(chain))
      ensures SameWhereOwned(own[..], old(mem[..]), mem[..], size)
    {
      hide Put, SameWhereOwned, InBuffer, StoppedAt;
      ghost var start: Memory, data := mem[..], Payloads(chain);
      var desc, offset: uint32 := txDesc, 0;
      errval, frameLength, stop := ERR_OK, 0, 0;
      FirstCursor(start);
      SameAsItself(own[..], start, size);
      var q := 0;
      while q < |chain|
        invariant 0 <= q <= |chain| && Payloads(chain) == data && errval == ERR_OK
        invariant Cursor(desc, offset, stop, start, Payloads(chain[..q])) && (q > 0 ==> Free(stop))
        invariant frameLength == |Payloads(chain[..q])|
        invariant SameWhereOwned(own[..], old(mem[..]), mem[..], size)
      {
        PayloadsUpTo(chain, q);
        ghost var held := mem[..];
        errval, desc, offset, frameLength, stop :=
          CopyPbuf(chain[q], desc, offset, frameLength, stop, start, Payloads(chain[..q]));
        SameTwice(own[..], start, held, mem[..], size);
        q := q + 1;
        if errval == ERR_USE {
          PayloadsExtend(chain, q);
          StoppedEarlier(stop, start, Payloads(chain[..q]), data);
          return;
        }
      }
      assert chain[..q] == chain;
      LastBufferForm(|data|, size, stop, offset);
    }

    lemma FirstCursor(start: Memory)
      requires Valid() && start == mem[..]
      ensures Cursor(txDesc, 0, 0, start, [])
    {
      ModUnique(txDesc, count, 0, txDesc);
    }

    lemma FirstIsFree(d: nat, done: seq<uint8>, offset: nat)
      requires Valid() && !own[Nth(txDesc, d, count)] && |done| == d * size + offset && (offset == 0 ==> d == 0)
      requires done != [] ==> Free(d)
      ensures Free(d)
    {
      NothingDone(done, d, offset, size);
    }

    lemma StoppedEarlier(d: nat, start: Memory, part: seq<uint8>, data: seq<uint8>)
      requires Valid() && |start| == mem.Length
      requires StoppedAt(d, start, part) && part <= data
      ensures StoppedAt(d, start, data) && !Free(LastBuffer(|data|, size))
    {
      assert data[..d * size] == part[..d * size];
      if |part| > 0 {
        DivMono(|part| - 1, |data| - 1, size);
      }
    }

    /** The body of the loop over the descriptors of a frame. */
    method GiveBuffer(first: bool, last: bool, rest: nat)
      requires Valid() && (last ==> rest <= size)
      modifies this`txDesc, own, control, segments
      ensures Valid() && txDesc == NextDesc(old(txDesc), count)
      ensures own[..] == old(own[..])[old(txDesc) := true]
      ensures control[..] == old(control[..])[old(txDesc) := if last then rest else size]
      ensures segments[..] == old(segments[..])[old(txDesc) := Segment(first, last)]
    {
      segments[txDesc] := Segment(first, false);
      control[txDesc] := size % 0x2000;
      if last {
        segments[txDesc] := Segment(first, true);
        control[txDesc] := rest % 0x2000;
      }
      own[txDesc] := true;
      txDesc := NextDesc(txDesc, count);
    }

    /** `HAL_ETH_TransmitFrame`: programs the descriptors of a frame and gives them to the DMA. The branch
        of the source for a single buffer does what the loop does for one. */
    method TransmitFrame(frameLength: uint32) returns (ok: bool)
      requires Valid()
      modifies this`txDesc, own, control, segments
      ensures Valid()
      ensures ok <==> frameLength > 0 && !old(own[txDesc])
      ensures !ok ==> txDesc == old(txDesc) && own[..] == old(own[..]) && control[..] == old(control[..])
      ensures !ok ==> segments[..] == old(segments[..])
      ensures ok ==>
                var t, n := old(txDesc), LastBuffer(frameLength, size) + 1;
                && txDesc == Nth(t, n, count)
                && own[..] == Given(old(own[..]), t, n)
                && control[..] == Programmed(old(control[..]), t, n, size)
                                  [Nth(t, n - 1, count) := frameLength - (n - 1) * size]
                && segments[..] == Marked(old(segments[..]), t, n, n)
    {
      hide LastBuffer, Nth, NextDesc;
      if frameLength == 0 || own[txDesc] {
        return false;
      }
      ghost var t, own0, control0, segments0 := txDesc, own[..], control[..], segments[..];
      BuffersNeeded(frameLength, size);
      var bufcount: uint32 := 1;
      if frameLength > size {
        bufcount := frameLength / size;
        if frameLength % size != 0 {
          bufcount := bufcount + 1;
        }
      }
      FirstCursor(mem[..]);
      var rest: uint32 := frameLength - (bufcount - 1) * size;
      for i := 0 to bufcount
        invariant Valid() && txDesc == Nth(t, i, count)
        invariant own[..] == Given(own0, t, i)
        invariant segments[..] == Marked(segments0, t, i, bufcount)
        invariant control[..] == if i < bufcount then Programmed(control0, t, i, size)
                                 else Programmed(control0, t, i, size)[Nth(t, i - 1, count) := rest]
      {
        GiveBuffer(i == 0, i == bufcount - 1, rest);
        NextIsNth(t, i, count);
      }
      ok := true;
    }

    /** `low_level_output`: `ERR_OK` exactly when every buffer the frame reaches is free. Then the frame
        is in the ring and its descriptors, and no others, have been given to the DMA, which sends
        exactly the payloads if the frame fits the ring. Otherwise nothing is given away. A buffer that
        belongs to the DMA is never written. */
    method Output(chain: seq<array<uint8>>) returns (errval: Err)
      requires Valid() && forall q :: 0 <= q < |chain| ==> chain[q] != mem && chain[q].Length < 0x1_0000
      requires |Payloads(chain)| < 0x1_0000_0000
      modifies this`txDesc, own, control, segments, mem
      ensures Valid()
      ensures errval == ERR_OK <==> old(chain == [] || Free(LastBuffer(|Payloads(chain)|, size)))
      ensures SameWhereOwned(old(own[..]), old(mem[..]), mem[..], size)
      ensures KeptWhereOwned(old(own[..]), old(control[..]), control[..])
      ensures KeptWhereOwned(old(own[..]), old(segments[..]), segments[..])
      ensures var data, t := old(Payloads(chain)), old(txDesc);
              var n := LastBuffer(|data|, size) + 1;
              if errval == ERR_OK && data != [] then
                && txDesc == Nth(t, n, count)
                && own[..] == Given(old(own[..]), t, n)
                && mem[..] == Put(old(mem[..]), t * size, data)
                && (|data| <= mem.Length ==>
                      Delimits(segments[..], t, n) && DmaFrame(mem[..], control[..], size, t, n) == data)
              else
                && txDesc == t && own[..] == old(own[..]) && control[..] == old(control[..])
                && segments[..] == old(segments[..])
    {
      hide Put, DmaFrame, SameWhereOwned, LastBuffer, Given, Programmed, Marked, Delimits;
      ghost var start: Memory, data, t, control0, own0 := mem[..], Payloads(chain), txDesc, control[..], own[..];
      ghost var segments0 := segments[..];
      var frameLength: uint32;
      ghost var stop;
      errval, frameLength, stop := CopyChain(chain);
      if errval == ERR_OK {
        ghost var sent: Memory := mem[..];
        if data != [] {
          FirstFree(LastBuffer(|data|, size));
        }
        var ok := TransmitFrame(frameLength);
        if data != [] {
          FreeOnlyProgrammed(own0, control0, t, LastBuffer(|data|, size) + 1, size);
          FreeOnlyMarked(own0, segments0, t, LastBuffer(|data|, size) + 1, LastBuffer(|data|, size) + 1);
        }
        if data != [] && |data| <= mem.Length {
          FrameSent(start, sent, control0, t, data, size);
          FrameMarked(segments0, t, LastBuffer(|data|, size) + 1);
        }
      }
    }

    lemma FirstFree(d: nat)
      requires Valid() && Free(d)
      ensures !own[txDesc]
    {
      ModUnique(txDesc, count, 0, txDesc);
      assert Nth(txDesc, 0, count) == txDesc;
    }
  }

  /** A frame the DMA still owns stays what it was through any later call: its buffers are not written and
      its size fields are not programmed. */
  lemma PendingFrameKept(own: seq<bool>, mem: Memory, mem': Memory, control: seq<nat>, control': seq<nat>,
                         size: nat, t: nat, n: nat)
    requires SizesOk(mem, control, size) && SizesOk(mem', control', size) && |own| == |control| == |control'|
    requires SameWhereOwned(own, mem, mem', size) && KeptWhereOwned(own, control, control')
    requires forall k: nat :: k < n ==> own[Nth(t, k, |own|)]
    ensures DmaFrame(mem', control', size, t, n) == DmaFrame(mem, control, size, t, n)
  {
    hide Nth, BufferBytes, SameWhereOwned;
    if n > 0 {
      PendingFrameKept(own, mem, mem', control, control', size, t, n - 1);
      PendingBufferKept(own, mem, mem', control, control', size, Nth(t, n - 1, |own|));
    }
  }

  lemma PendingBufferKept(own: seq<bool>, mem: Memory, mem': Memory, control: seq<nat>, control': seq<nat>,
                          size: nat, b: nat)
    requires SizesOk(mem, control, size) && SizesOk(mem', control', size) && |own| == |control| == |control'|
    requires SameWhereOwned(own, mem, mem', size) && KeptWhereOwned(own, control, control')
    requires b < |own| && own[b]
    ensures BufferBytes(mem', control', size, b) == BufferBytes(mem, control, size, b)
  {
    hide InBuffer;
    BufferFits(b, |control|, size);
    var at := b * size;
    forall k | at <= k < at + size
      ensures mem'[k] == mem[k]
    {
      Inside(b, k, size);
    }
    assert mem[at..at + size] == mem'[at..at + size];
    var n := if control[b] <= size then control[b] else size;
    assert BufferBytes(mem, control, size, b) == mem[at..at + size][..n];
    assert BufferBytes(mem', control', size, b) == mem'[at..at + size][..n];
  }

  lemma Inside(b: nat, k: int, size: nat)
    requires b * size <= k < b * size + size
    ensures InBuffer(b, k, size)
  {}

  /** And the DMA still finds it where it was. */
  lemma PendingFrameDelimited(own: seq<bool>, segments: seq<Segment>, segments': seq<Segment>, t: nat, n: nat)
    requires |own| == |segments| == |segments'| > 0 && KeptWhereOwned(own, segments, segments')
    requires forall k: nat :: k < n ==> own[Nth(t, k, |own|)]
    ensures Delimits(segments', t, n) <==> Delimits(segments, t, n)
  {
    hide Nth;
    assert forall k: nat :: k < n ==> segments'[Nth(t, k, |own|)] == segments[Nth(t, k, |own|)];
  }

  ghost predicate KeptWhereOwned<T>(own: seq<bool>, before: seq<T>, after: seq<T>)
    requires |own| == |before| == |after|
  {
    forall i :: 0 <= i < |own| && own[i] ==> after[i] == before[i]
  }

  lemma {:induction false} FreeOnlyProgrammed(own: seq<bool>, control: seq<nat>, t: nat, n: nat, size: nat)
    requires |own| == |control| > 0
    requires forall k: nat :: k < n ==> !own[Nth(t, k, |own|)]
    ensures KeptWhereOwned(own, control, Programmed(control, t, n, size))
  {
    hide Nth;
    if n > 0 {
      FreeOnlyProgrammed(own, control, t, n - 1, size);
    }
  }

  lemma {:induction false} FreeOnlyMarked(own: seq<bool>, segments: seq<Segment>, t: nat, n: nat, total: nat)
    requires |own| == |segments| > 0
    requires forall k: nat :: k < n ==> !own[Nth(t, k, |own|)]
    ensures KeptWhereOwned(own, segments, Marked(segments, t, n, total))
  {
    hide Nth;
    if n > 0 {
      FreeOnlyMarked(own, segments, t, n - 1, total);
    }
  }

  lemma BuffersNeeded(n: nat, size: nat)
    requires n > 0 && size > 0
    ensures LastBuffer(n, size) + 1 == if n <= size then 1 else if n % size == 0 then n / size else n / size + 1
    ensures 0 < n - LastBuffer(n, size) * size <= size
  {
    var d, o := LastBuffer(n, size), (n - 1) % size;
    assert n - 1 == d * size + o;
    if o + 1 == size {
      assert n == (d + 1) * size + 0;
      ModUnique(n, size, d + 1, 0);
      QuotientUnique(n, size, d + 1, 0);
    } else {
      ModUnique(n, size, d, o + 1);
      QuotientUnique(n, size, d, o + 1);
    }
    if n <= size {
      QuotientUnique(n - 1, size, 0, n - 1);
    }
  }

  /** A frame that fits the ring is what the DMA sends. */
  lemma FrameSent(start: Memory, sent: Memory, control: seq<nat>, t: nat, data: seq<uint8>, size: nat)
    requires size > 0 && SizesOk(sent, control, size) && 0 < |data| <= |sent|
    requires |start| == |sent| && sent == Put(start, t * size, data)
    ensures LastBuffer(|data|, size) < |control|
    ensures var n := LastBuffer(|data|, size) + 1;
            DmaFrame(sent, Programmed(control, t, n, size)
                           [Nth(t, n - 1, |control|) := |data| - (n - 1) * size], size, t, n) == data
  {
    hide Put, DmaFrame, Programmed, Get, Nth, LastBuffer;
    var n := LastBuffer(|data|, size) + 1;
    BuffersNeeded(|data|, size);
    if n > |control| {
      MulMono(|control|, n - 1, size);
      assert false;
    }
    DmaSendsFrame(sent, control, size, t, n, |data| - (n - 1) * size);
    ScatterGather(start, t * size, data);
  }

  lemma {:induction false} PayloadsExtend(chain: seq<array<uint8>>, q: nat)
    requires q <= |chain|
    ensures Payloads(chain[..q]) <= Payloads(chain)
    decreases |chain|
  {
    if q == |chain| {
      assert chain[..q] == chain;
    } else {
      var n := |chain| - 1;
      PayloadsExtend(chain[..n], q);
      assert chain[..n][..q] == chain[..q];
    }
  }

  lemma NothingDone(done: seq<uint8>, d: nat, offset: nat, size: nat)
    requires size > 0 && |done| == d * size + offset && (offset == 0 ==> d == 0)
    ensures done == [] <==> d == 0 && offset == 0
  {
    if d > 0 {
      MulMono(1, d, size);
    }
  }

  lemma SameAsItself(own: seq<bool>, mem: seq<uint8>, size: nat)
    ensures SameWhereOwned(own, mem, mem, size)
  {}

  lemma SameTwice(own: seq<bool>, a: seq<uint8>, b: seq<uint8>, c: seq<uint8>, size: nat)
    requires SameWhereOwned(own, a, b, size) && SameWhereOwned(own, b, c, size)
    ensures SameWhereOwned(own, a, c, size)
  {}

  lemma Joined(done: seq<uint8>, src: seq<uint8>, from: nat, n: nat)
    requires from + n <= |src|
    ensures done + src[..from] + src[from..from + n] == done + src[..from + n]
  {}

  lemma StopInside(data: seq<uint8>, d: nat, size: nat)
    requires size > 0 && d * size < |data|
    ensures d <= LastBuffer(|data|, size)
  {
    DivMono(d * size, |data| - 1, size);
    QuotientUnique(d * size, size, d, 0);
  }

  /** Every byte of a buffer that belongs to the DMA is as it was. */
  ghost predicate SameWhereOwned(own: seq<bool>, before: seq<uint8>, after: seq<uint8>, size: nat) {
    && |before| == |after|
    && forall i, k :: 0 <= i < |own| && own[i] && InBuffer(i, k, size) && 0 <= k < |after| ==> after[k] == before[k]
  }

  predicate InBuffer(i: nat, k: int, size: nat) {
    i * size <= k < i * size + size
  }

  lemma ReplacedInBuffer(own: seq<bool>, before: seq<uint8>, after: seq<uint8>, size: nat, desc: nat, at: nat, n: nat)
    requires desc < |own| && !own[desc] && |before| == |after| && at + n <= |before|
    requires desc * size <= at && at + n <= desc * size + size
    requires forall k :: 0 <= k < at || at + n <= k < |before| ==> after[k] == before[k]
    ensures SameWhereOwned(own, before, after, size)
  {
    forall i, k | 0 <= i < |own| && own[i] && InBuffer(i, k, size) && 0 <= k < |after|
      ensures after[k] == before[k]
    {
      if i < desc {
        MulMono(i + 1, desc, size);
      } else {
        MulMono(desc + 1, i, size);
      }
      assert (i + 1) * size == i * size + size && (desc + 1) * size == desc * size + size;
    }
  }
}
