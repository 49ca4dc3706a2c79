/** The buffers of a descriptor ring as one circular byte memory: what scattering a frame over it and
    gathering a frame from it mean. */
module RingMemory {
  import opened FixedPoint

  type Memory = mem: seq<uint8> | |mem| > 0 witness [0]

  /** `data` written byte after byte from position `base` on, around the ring as often as it takes. */
  function Put(mem: Memory, base: nat, data: seq<uint8>): (r: Memory)
    ensures |r| == |mem|
  {
    if data == [] then mem
    else
      var n := |data| - 1;
      Put(mem, base, data[..n])[(base + n) % |mem| := data[n]]
  }

  /** n bytes read from position `base` on. */
  function Get(mem: Memory, base: nat, n: nat): (data: seq<uint8>)
    ensures |data| == n
  {
    seq(n, k requires 0 <= k < n => mem[(base + k) % |mem|])
  }

  /** Byte o of buffer d, counted over the ring as often as it takes, sits in buffer d % count. */
  lemma SlotOfBuffer(d: nat, o: nat, count: nat, size: nat)
    requires o < size && count > 0
    ensures d % count * size + o < count * size
    ensures (d * size + o) % (count * size) == d % count * size + o
  {
    var q, r := d / count, d % count;
    assert d == q * count + r;
    MulMono(r + 1, count, size);
    assert (r + 1) * size == r * size + size;
    assert d * size + o == q * (count * size) + (r * size + o) by {
      assert (q * count + r) * size == (q * count) * size + r * size;
      assert (q * count) * size == q * (count * size);
    }
    ModUnique(d * size + o, count * size, q, r * size + o);
  }

  // ---------- Put ----------

  lemma {:induction false} PutAppend(mem: Memory, base: nat, a: seq<uint8>, b: seq<uint8>)
    ensures Put(mem, base, a + b) == Put(Put(mem, base, a), base + |a|, b)
  {
    if b == [] {
      assert a + b == a;
    } else {
      var n := |b| - 1;
      PutAppend(mem, base, a, b[..n]);
      assert (a + b)[..|a + b| - 1] == a + b[..n];
    }
  }

  lemma {:induction false} PutAnywhere(mem: Memory, base: nat, data: seq<uint8>)
    ensures Put(mem, base, data) == Put(mem, base % |mem|, data)
  {
    if data != [] {
      var n := |data| - 1;
      PutAnywhere(mem, base, data[..n]);
      ModAdd(base, n, |mem|);
    }
  }

  /** Without a wrap, writing is replacing a slice. */
  lemma {:induction false} PutInside(mem: Memory, at: nat, data: seq<uint8>)
    requires at + |data| <= |mem|
    ensures Put(mem, at, data) == mem[..at] + data + mem[at + |data|..]
  {
    if data == [] {
      assert mem == mem[..at] + data + mem[at..];
    } else {
      var n := |data| - 1;
      PutInside(mem, at, data[..n]);
      ModUnique(at + n, |mem|, 0, at + n);
      ReplaceNext(mem[..at], data, mem[at + n..]);
      assert mem[at + n..][1..] == mem[at + |data|..];
    }
  }

  lemma ReplaceNext(before: seq<uint8>, data: seq<uint8>, after: seq<uint8>)
    requires |data| > 0 && |after| > 0
    ensures var n := |data| - 1;
            (before + data[..n] + after)[|before| + n := data[n]] == before + data + after[1..]
  {}

  /** Appending a piece that stays inside one buffer replaces a slice of that buffer. The ring starts at
      buffer t, and `done` has reached byte o of the d-th buffer after it. */
  lemma PutInBuffer(mem: Memory, t: nat, d: nat, o: nat, count: nat, size: nat, done: seq<uint8>, piece: seq<uint8>)
    requires count > 0 && size > 0 && |mem| == count * size
    requires |done| == d * size + o && o + |piece| <= size
    ensures var at, before := (t + d) % count * size + o, Put(mem, t * size, done);
            && at + |piece| <= |mem| && (t + d) % count * size + size <= |mem|
            && Put(mem, t * size, done + piece) == before[..at] + piece + before[at + |piece|..]
  {
    hide Put;
    var at, before := (t + d) % count * size + o, Put(mem, t * size, done);
    BufferFits((t + d) % count, count, size);
    PutAppend(mem, t * size, done, piece);
    if piece == [] {
      PutNothing(before, t * size + |done|);
      assert before == before[..at] + [] + before[at..];
    } else {
      Position(t, d, o, count, size);
      PutAnywhere(before, t * size + |done|, piece);
      PutInside(before, at, piece);
    }
  }

  lemma PutNothing(mem: Memory, base: nat)
    ensures Put(mem, base, []) == mem
  {}

  /** Byte o of the d-th buffer after buffer t, on the circular memory and inside its buffer. */
  lemma Position(t: nat, d: nat, o: nat, count: nat, size: nat)
    requires o < size && count > 0
    ensures (t + d) % count * size + o < count * size
    ensures (t * size + (d * size + o)) % (count * size) == (t + d) % count * size + o
  {
    SlotOfBuffer(t + d, o, count, size);
    assert (t + d) * size == t * size + d * size;
  }

  lemma BufferFits(b: nat, count: nat, size: nat)
    requires b < count
    ensures b * size + size <= count * size
  {
    MulMono(b + 1, count, size);
    assert (b + 1) * size == b * size + size;
  }

  // ---------- Scatter, then gather ----------

  lemma {:induction false} PutGet(mem: Memory, base: nat, data: seq<uint8>, k: nat)
    requires k < |data| <= |mem|
    ensures Put(mem, base, data)[(base + k) % |mem|] == data[k]
  {
    var n := |data| - 1;
    if k < n {
      PutGet(mem, base, data[..n], k);
      ModDistinct(base + k, base + n, |mem|);
    }
  }

  /** A frame that fits the ring is read back as it was written. */
  lemma ScatterGather(mem: Memory, base: nat, data: seq<uint8>)
    requires |data| <= |mem|
    ensures Get(Put(mem, base, data), base, |data|) == data
  {
    forall k | 0 <= k < |data|
      ensures Get(Put(mem, base, data), base, |data|)[k] == data[k]
    {
      PutGet(mem, base, data, k);
    }
  }

  ghost predicate AlwaysIntact(mem: Memory, base: nat, n: nat) {
    forall data: seq<uint8> :: |data| == n ==> Get(Put(mem, base, data), base, n) == data
  }

  /** And only such frames: one byte more, and some frame overwrites its own beginning. */
  lemma IntactIffFits(mem: Memory, base: nat, n: nat)
    ensures AlwaysIntact(mem, base, n) <==> n <= |mem|
  {
    if n <= |mem| {
      forall data: seq<uint8> | |data| == n
        ensures Get(Put(mem, base, data), base, n) == data
      {
        ScatterGather(mem, base, data);
      }
    } else {
      var data: seq<uint8> := seq(n, k => if k == 0 then 1 else 0);
      var back := Get(Put(mem, base, data), base, n);
      Overwritten(mem, base, data);
      assert back[0] == 0 && data[0] == 1;
    }
  }

  lemma {:induction false} Overwritten(mem: Memory, base: nat, data: seq<uint8>)
    requires |data| > |mem| && forall k :: 0 < k < |data| ==> data[k] == 0
    ensures Put(mem, base, data)[base % |mem|] == 0
  {
    var n := |data| - 1;
    if n == |mem| {
      ModUnique(base + n, |mem|, base / |mem| + 1, base % |mem|);
    } else {
      Overwritten(mem, base, data[..n]);
    }
  }

  // ---------- Descriptors ----------

  /** The descriptor k places after t. */
  function Nth(t: nat, k: nat, count: nat): (b: nat)
    requires count > 0
    ensures b < count
  {
    (t + k) % count
  }

  /** `Buffer2NextDescAddr`: the last descriptor is chained to the first one. */
  function NextDesc(desc: nat, count: nat): nat
    requires desc < count
  {
    if desc < count - 1 then desc + 1 else 0
  }

  /** Following the chain is counting on around the ring. */
  lemma NextIsNth(t: nat, d: nat, count: nat)
    requires count > 0
    ensures NextDesc(Nth(t, d, count), count) == Nth(t, d + 1, count)
  {
    var b := Nth(t, d, count);
    ModAdd(t + d, 1, count);
    if b == count - 1 {
      ModUnique(count, count, 1, 0);
    } else {
      ModUnique(b + 1, count, 0, b + 1);
    }
  }

  lemma NthDistinct(t: nat, j: nat, k: nat, count: nat)
    requires j < k < j + count
    ensures Nth(t, j, count) != Nth(t, k, count)
  {
    ModDistinct(t + j, t + k, count);
  }

  /** The OWN bits after n descriptors have been given to the DMA, the first one being t. */
  function Given(own: seq<bool>, t: nat, n: nat): (r: seq<bool>)
    requires |own| > 0
    ensures |r| == |own|
  {
    if n == 0 then own else Given(own, t, n - 1)[Nth(t, n - 1, |own|) := true]
  }

  /** Exactly those n descriptors have been given: no other bit has changed. */
  lemma {:induction false} GivenExactly(own: seq<bool>, t: nat, n: nat, i: nat)
    requires i < |own|
    ensures Given(own, t, n)[i] <==> own[i] || exists k: nat :: k < n && Nth(t, k, |own|) == i
  {
    hide Nth;
    if n > 0 {
      GivenExactly(own, t, n - 1, i);
      if Nth(t, n - 1, |own|) == i {
        assert Given(own, t, n)[i];
      }
    }
  }

  /** The size fields after the descriptors of a frame of n buffers have been programmed. */
  function Programmed(control: seq<nat>, t: nat, n: nat, size: nat): (r: seq<nat>)
    requires |control| > 0
    ensures |r| == |control|
  {
    if n == 0 then control else Programmed(control, t, n - 1, size)[Nth(t, n - 1, |control|) := size]
  }

  lemma {:induction false} ProgrammedAt(control: seq<nat>, t: nat, n: nat, size: nat, k: nat)
    requires k < n <= |control|
    ensures Programmed(control, t, n, size)[Nth(t, k, |control|)] == size
  {
    if k < n - 1 {
      ProgrammedAt(control, t, n - 1, size, k);
      NthDistinct(t, k, n - 1, |control|);
    }
  }

  /** The FS and LS bits of a descriptor: it holds the first, or the last, buffer of a frame. */
  datatype Segment = Segment(first: bool, last: bool)

  /** The segment bits after n descriptors of a frame of `total` buffers have been programmed. */
  function Marked(segments: seq<Segment>, t: nat, n: nat, total: nat): (r: seq<Segment>)
    requires |segments| > 0
    ensures |r| == |segments|
  {
    if n == 0 then segments
    else Marked(segments, t, n - 1, total)[Nth(t, n - 1, |segments|) := Segment(n == 1, n == total)]
  }

  lemma {:induction false} MarkedAt(segments: seq<Segment>, t: nat, n: nat, total: nat, k: nat)
    requires k < n <= |segments|
    ensures Marked(segments, t, n, total)[Nth(t, k, |segments|)] == Segment(k == 0, k == total - 1)
  {
    if k < n - 1 {
      MarkedAt(segments, t, n - 1, total, k);
      NthDistinct(t, k, n - 1, |segments|);
    }
  }

  /** The DMA finds a frame of n buffers at descriptor t: it begins there and nowhere else, and it ends in
      the last of the n. */
  predicate Delimits(segments: seq<Segment>, t: nat, n: nat)
    requires |segments| > 0
  {
    && n > 0
    && forall k: nat :: k < n ==> segments[Nth(t, k, |segments|)] == Segment(k == 0, k == n - 1)
  }

  /** There is only one such frame. */
  lemma {:induction false} DelimitedOnce(segments: seq<Segment>, t: nat, n: nat, n': nat)
    requires |segments| > 0 && Delimits(segments, t, n) && Delimits(segments, t, n')
    ensures n == n'
  {
    hide Nth;
    var k := if n <= n' then n - 1 else n' - 1;
    assert segments[Nth(t, k, |segments|)].last;
  }

  lemma FrameMarked(segments: seq<Segment>, t: nat, n: nat)
    requires 0 < n <= |segments|
    ensures Delimits(Marked(segments, t, n, n), t, n)
  {
    hide Nth, Marked;
    forall k: nat | k < n
      ensures Marked(segments, t, n, n)[Nth(t, k, |segments|)] == Segment(k == 0, k == n - 1)
    {
      MarkedAt(segments, t, n, n, k);
    }
  }

  predicate SizesOk(mem: Memory, control: seq<nat>, size: nat) {
    |control| > 0 && |mem| == |control| * size
  }

  /** What the DMA takes out of one buffer. */
  function BufferBytes(mem: Memory, control: seq<nat>, size: nat, b: nat): seq<uint8>
    requires SizesOk(mem, control, size) && b < |control|
  {
    BufferFits(b, |control|, size);
    mem[b * size..b * size + (if control[b] <= size then control[b] else size)]
  }

  /** What the DMA sends when it walks n descriptors from t on. */
  function DmaFrame(mem: Memory, control: seq<nat>, size: nat, t: nat, n: nat): seq<uint8>
    requires SizesOk(mem, control, size)
  {
    if n == 0 then []
    else DmaFrame(mem, control, size, t, n - 1) + BufferBytes(mem, control, size, Nth(t, n - 1, |control|))
  }

  lemma GetSplit(mem: Memory, base: nat, m: nat, n: nat)
    ensures Get(mem, base, m + n) == Get(mem, base, m) + Get(mem, base + m, n)
  {}

  /** Reading inside one buffer is taking a slice of it. */
  lemma GetBuffer(mem: Memory, count: nat, size: nat, t: nat, d: nat, o: nat, n: nat)
    requires count > 0 && |mem| == count * size && o + n <= size
    ensures Nth(t, d, count) * size + o + n <= |mem|
    ensures Get(mem, t * size + d * size + o, n)
            == mem[Nth(t, d, count) * size + o..Nth(t, d, count) * size + o + n]
  {
    var at := Nth(t, d, count) * size + o;
    BufferFits(Nth(t, d, count), count, size);
    var base := t * size + d * size + o;
    var back, slice := Get(mem, base, n), mem[at..at + n];
    forall k | 0 <= k < n
      ensures back[k] == slice[k]
    {
      Position(t, d, o + k, count, size);
      assert (base + k) % |mem| == at + k;
    }
  }

  lemma GetNothing(mem: Memory, base: nat)
    ensures Get(mem, base, 0) == []
  {}

  lemma WholeBuffer(mem: Memory, control: seq<nat>, size: nat, b: nat)
    requires SizesOk(mem, control, size) && b < |control| && control[b] <= size
    ensures b * size + control[b] <= |mem|
    ensures BufferBytes(mem, control, size, b) == mem[b * size..b * size + control[b]]
  {
    BufferFits(b, |control|, size);
  }

  lemma {:induction false} DmaWalksMemory(mem: Memory, control: seq<nat>, size: nat, t: nat, n: nat)
    requires SizesOk(mem, control, size)
    requires forall k: nat :: k < n ==> control[Nth(t, k, |control|)] == size
    ensures DmaFrame(mem, control, size, t, n) == Get(mem, t * size, n * size)
  {
    hide Nth, Get, BufferBytes;
    if n == 0 {
      GetNothing(mem, t * size);
    } else {
      DmaWalksMemory(mem, control, size, t, n - 1);
      GetSplit(mem, t * size, (n - 1) * size, size);
      WholeBuffer(mem, control, size, Nth(t, n - 1, |control|));
      GetBuffer(mem, |control|, size, t, n - 1, 0, size);
      assert (n - 1) * size + size == n * size;
    }
  }

  /** The descriptors of a frame, all full but the last, make the DMA send the frame. */
  lemma DmaSendsFrame(mem: Memory, before: seq<nat>, size: nat, t: nat, n: nat, last: nat)
    requires SizesOk(mem, before, size) && 0 < n <= |before| && last <= size
    ensures var control := Programmed(before, t, n, size)[Nth(t, n - 1, |before|) := last];
            DmaFrame(mem, control, size, t, n) == Get(mem, t * size, (n - 1) * size + last)
  {
    hide Nth, Get, Programmed, BufferBytes;
    var control := Programmed(before, t, n, size)[Nth(t, n - 1, |before|) := last];
    forall k: nat | k < n - 1
      ensures control[Nth(t, k, |control|)] == size
    {
      ProgrammedAt(before, t, n, size, k);
      NthDistinct(t, k, n - 1, |before|);
    }
    DmaWalksMemory(mem, control, size, t, n - 1);
    GetSplit(mem, t * size, (n - 1) * size, last);
    WholeBuffer(mem, control, size, Nth(t, n - 1, |control|));
    GetBuffer(mem, |control|, size, t, n - 1, 0, last);
  }
}
