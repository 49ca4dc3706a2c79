/** The bit packer of the encoder and the unpacker of the decoder, both with bits carried over from one
    call to the next. */
module BitStream {
  import opened FixedPoint

  /** `out_buffer`/`out_bits` of the encoder, `in_buffer`/`in_bits` of the decoder. */
  datatype Carry = Carry(buffer: nat, bits: nat)

  const EMPTY := Carry(0, 0)

  predicate CarryOk(c: Carry) {
    c.bits < 8 && c.buffer < Pow2(c.bits)
  }

  predicate Width(bits: nat) {
    6 <= bits <= 7
  }

  /** The m low bits of a number, and the bits above them. */
  function Lower(v: nat, m: nat): (r: nat)
    ensures r < Pow2(m)
  {
    v % Pow2(m)
  }

  function Upper(v: nat, m: nat): nat {
    QuotientShrinks(v, Pow2(m));
    v / Pow2(m)
  }

  // ---------- Packing ----------

  function Loaded(c: Carry, code: nat): nat {
    BitOr(c.buffer, code * Pow2(c.bits))
  }

  function PackStep(bits: nat, c: Carry, code: nat): Carry {
    if c.bits + bits >= 8 then Carry(Loaded(c, code) / 0x100, c.bits + bits - 8)
    else Carry(Loaded(c, code), c.bits + bits)
  }

  /** The byte a code completes, if it completes one. */
  function PackedBy(bits: nat, c: Carry, code: nat): seq<nat> {
    if c.bits + bits >= 8 then [Loaded(c, code) % 0x100] else []
  }

  function PackCarry(bits: nat, c: Carry, codes: seq<nat>): Carry {
    if codes == [] then c
    else
      var n := |codes| - 1;
      PackStep(bits, PackCarry(bits, c, codes[..n]), codes[n])
  }

  function PackBytes(bits: nat, c: Carry, codes: seq<nat>): seq<nat> {
    if codes == [] then []
    else
      var n := |codes| - 1;
      PackBytes(bits, c, codes[..n]) + PackedBy(bits, PackCarry(bits, c, codes[..n]), codes[n])
  }

  // ---------- Unpacking ----------

  datatype Unpacked = Unpacked(codes: seq<nat>, carry: Carry)

  /** The state after one pass of the decoder loop: a byte is taken in only when the carried bits do
      not make a whole code. */
  function Filled(bits: nat, c: Carry, next: nat): Carry {
    if c.bits < bits then Carry(Loaded(c, next), c.bits + 8) else c
  }

  function Drained(bits: nat, c: Carry): Carry
    requires bits <= c.bits
  {
    Carry(Upper(c.buffer, bits), c.bits - bits)
  }

  /** The loop runs while there are bytes left, so a whole code may stay behind in the carry. */
  function Unpack(bits: nat, c: Carry, bytes: seq<nat>): Unpacked
    requires 1 <= bits <= 8
    decreases |bytes|, c.bits
  {
    if bytes == [] then Unpacked([], c)
    else
      var full := Filled(bits, c, bytes[0]);
      var rest := Unpack(bits, Drained(bits, full), if c.bits < bits then bytes[1..] else bytes);
      Unpacked([Lower(full.buffer, bits)] + rest.codes, rest.carry)
  }

  // ---------- Both against plain bit strings ----------

  /** The n low bits of a number, lowest first: the order on the wire. */
  function Bits(v: nat, n: nat): (s: seq<bool>)
    ensures |s| == n
  {
    if n == 0 then [] else [v % 2 == 1] + Bits(v / 2, n - 1)
  }

  function Flatten(xs: seq<nat>, width: nat): (s: seq<bool>)
    ensures |s| == |xs| * width
  {
    if xs == [] then []
    else Flatten(xs[..|xs| - 1], width) + Bits(xs[|xs| - 1], width)
  }

  predicate AllBelow(xs: seq<nat>, bound: nat) {
    forall k :: 0 <= k < |xs| ==> xs[k] < bound
  }

  /** Placing a value above m bits appends its bit string. */
  lemma {:induction false} BitsAppend(a: nat, b: nat, m: nat, n: nat)
    requires a < Pow2(m)
    ensures Bits(a + b * Pow2(m), m + n) == Bits(a, m) + Bits(b, n)
  {
    if m == 0 {
      assert Bits(a, m) + Bits(b, n) == Bits(b, n);
    } else {
      var q := b * Pow2(m - 1);
      assert b * Pow2(m) == 2 * q;
      assert (a + 2 * q) / 2 == a / 2 + q && (a + 2 * q) % 2 == a % 2;
      BitsAppend(a / 2, b, m - 1, n);
      assert Bits(a, m) == [a % 2 == 1] + Bits(a / 2, m - 1);
    }
  }

  lemma Parts(v: nat, m: nat, n: nat)
    requires v < Pow2(m + n)
    ensures Upper(v, m) < Pow2(n)
    ensures v == Lower(v, m) + Upper(v, m) * Pow2(m)
  {
    hide Pow2;
    Pow2Add(m, n);
    QuotientBelow(v, Pow2(m), Pow2(n));
  }

  lemma QuotientBelow(v: nat, m: nat, n: nat)
    requires m > 0 && v < m * n
    ensures v / m < n
  {
    var q := v / m;
    assert v == q * m + v % m;
    if q >= n {
      MulMono(n, q, m);
      assert false;
    }
  }

  lemma BitsSplit(v: nat, m: nat, n: nat)
    requires v < Pow2(m + n)
    ensures Bits(v, m + n) == Bits(Lower(v, m), m) + Bits(Upper(v, m), n)
  {
    hide Bits, Pow2, Lower, Upper;
    Parts(v, m, n);
    BitsAppend(Lower(v, m), Upper(v, m), m, n);
  }

  lemma {:induction false} BitsInjective(a: nat, b: nat, n: nat)
    requires a < Pow2(n) && b < Pow2(n) && Bits(a, n) == Bits(b, n)
    ensures a == b
  {
    if n > 0 {
      assert Bits(a, n)[1..] == Bits(a / 2, n - 1) && Bits(b, n)[1..] == Bits(b / 2, n - 1);
      assert Bits(a, n)[0] == (a % 2 == 1) && Bits(b, n)[0] == (b % 2 == 1);
      BitsInjective(a / 2, b / 2, n - 1);
    }
  }

  lemma LoadedBits(c: Carry, v: nat, n: nat)
    requires c.buffer < Pow2(c.bits) && v < Pow2(n)
    ensures Loaded(c, v) < Pow2(c.bits + n)
    ensures Bits(Loaded(c, v), c.bits + n) == Bits(c.buffer, c.bits) + Bits(v, n)
  {
    hide Bits, Pow2, BitOr;
    BitOrDisjoint(c.buffer, v, c.bits);
    BitsAppend(c.buffer, v, c.bits, n);
    Pow2Add(c.bits, n);
    MulMono(v, Pow2(n) - 1, Pow2(c.bits));
    assert (Pow2(n) - 1) * Pow2(c.bits) == Pow2(c.bits) * Pow2(n) - Pow2(c.bits);
  }

  /** Every bit of every code is on the wire or in the carry, in order and exactly once; at most seven
      bits are carried. */
  lemma {:induction false} PackConserves(bits: nat, c: Carry, codes: seq<nat>)
    requires Width(bits) && CarryOk(c) && AllBelow(codes, Pow2(bits))
    ensures var bytes, left := PackBytes(bits, c, codes), PackCarry(bits, c, codes);
            && CarryOk(left) && AllBelow(bytes, 0x100)
            && Bits(c.buffer, c.bits) + Flatten(codes, bits) == Flatten(bytes, 8) + Bits(left.buffer, left.bits)
  {
    hide Bits, Flatten, PackStep, PackedBy, Pow2;
    if codes == [] {
      FlattenEmpty();
    } else {
      var n := |codes| - 1;
      PackConserves(bits, c, codes[..n]);
      PackStepConserves(bits, PackCarry(bits, c, codes[..n]), codes[n], PackBytes(bits, c, codes[..n]));
      FlattenBack(codes[..n], codes[n], bits);
      assert codes[..n] + [codes[n]] == codes;
      Regroup(Bits(c.buffer, c.bits), Flatten(codes[..n], bits), Bits(codes[n], bits));
    }
  }

  lemma PackStepConserves(bits: nat, c: Carry, code: nat, sent: seq<nat>)
    requires Width(bits) && CarryOk(c) && code < Pow2(bits)
    ensures var bytes, left := PackedBy(bits, c, code), PackStep(bits, c, code);
            && CarryOk(left) && AllBelow(bytes, 0x100)
            && (Flatten(sent, 8) + Bits(c.buffer, c.bits)) + Bits(code, bits)
               == Flatten(sent + bytes, 8) + Bits(left.buffer, left.bits)
  {
    hide Bits, Loaded, Flatten, Pow2;
    ByteParts(Loaded(c, code));
    var v := Loaded(c, code);
    LoadedBits(c, code, bits);
    assert (Flatten(sent, 8) + Bits(c.buffer, c.bits)) + Bits(code, bits)
        == Flatten(sent, 8) + Bits(v, c.bits + bits);
    if c.bits + bits >= 8 {
      Pow2Eight();
      Parts(v, 8, c.bits + bits - 8);
      BitsSplit(v, 8, c.bits + bits - 8);
      FlattenBack(sent, v % 0x100, 8);
      assert (Flatten(sent, 8) + Bits(v % 0x100, 8)) + Bits(v / 0x100, c.bits + bits - 8)
          == Flatten(sent, 8) + Bits(v, c.bits + bits);
    } else {
      assert sent + [] == sent;
    }
  }

  lemma ByteParts(v: nat)
    ensures Lower(v, 8) == v % 0x100 && Upper(v, 8) == v / 0x100
  {
    Pow2Eight();
  }

  lemma Pow2Eight()
    ensures Pow2(8) == 0x100
  {}

  /** The unpacker turns the same bit string into codes and a carry. */
  lemma {:induction false} UnpackConserves(bits: nat, c: Carry, bytes: seq<nat>)
    requires Width(bits) && CarryOk(c) && AllBelow(bytes, 0x100)
    ensures var u := Unpack(bits, c, bytes);
            && CarryOk(u.carry) && AllBelow(u.codes, Pow2(bits))
            && Bits(c.buffer, c.bits) + Flatten(bytes, 8)
               == Flatten(u.codes, bits) + Bits(u.carry.buffer, u.carry.bits)
    decreases |bytes|, c.bits
  {
    hide Bits, Loaded, Flatten, Lower, Upper, Pow2;
    if bytes == [] {
      FlattenEmpty();
    } else {
      var full := Filled(bits, c, bytes[0]);
      var next := if c.bits < bits then bytes[1..] else bytes;
      FilledConserves(bits, c, bytes);
      var code := Lower(full.buffer, bits);
      Parts(full.buffer, bits, full.bits - bits);
      BitsSplit(full.buffer, bits, full.bits - bits);
      var left := Drained(bits, full);
      UnpackConserves(bits, left, next);
      var rest := Unpack(bits, left, next);
      FlattenFront(code, rest.codes, bits);
      Regroup(Bits(code, bits), Bits(left.buffer, left.bits), Flatten(next, 8));
      Regroup(Bits(code, bits), Flatten(rest.codes, bits), Bits(rest.carry.buffer, rest.carry.bits));
    }
  }

  lemma FlattenBack(xs: seq<nat>, x: nat, width: nat)
    ensures Flatten(xs + [x], width) == Flatten(xs, width) + Bits(x, width)
  {
    assert (xs + [x])[..|xs|] == xs;
  }

  lemma FlattenEmpty()
    ensures forall w: nat :: Flatten([], w) == []
  {}

  lemma FilledConserves(bits: nat, c: Carry, bytes: seq<nat>)
    requires Width(bits) && CarryOk(c) && AllBelow(bytes, 0x100) && bytes != []
    ensures var full := Filled(bits, c, bytes[0]);
            var next := if c.bits < bits then bytes[1..] else bytes;
            && full.buffer < Pow2(full.bits) && bits <= full.bits <= bits + 7
            && Bits(c.buffer, c.bits) + Flatten(bytes, 8) == Bits(full.buffer, full.bits) + Flatten(next, 8)
  {
    hide Bits, Loaded, Flatten;
    if c.bits < bits {
      Pow2Eight();
      LoadedBits(c, bytes[0], 8);
      FlattenFront(bytes[0], bytes[1..], 8);
      assert [bytes[0]] + bytes[1..] == bytes;
      Regroup(Bits(c.buffer, c.bits), Bits(bytes[0], 8), Flatten(bytes[1..], 8));
    }
  }

  lemma {:induction false} FlattenFront(x: nat, xs: seq<nat>, width: nat)
    ensures Flatten([x] + xs, width) == Bits(x, width) + Flatten(xs, width)
  {
    hide Bits, Flatten;
    FlattenEmpty();
    if xs == [] {
      FlattenBack([], x, width);
      assert [x] + xs == [] + [x];
    } else {
      var n := |xs| - 1;
      FlattenFront(x, xs[..n], width);
      FlattenBack([x] + xs[..n], xs[n], width);
      FlattenBack(xs[..n], xs[n], width);
      assert [x] + xs == ([x] + xs[..n]) + [xs[n]] && xs == xs[..n] + [xs[n]];
      Regroup(Bits(x, width), Flatten(xs[..n], width), Bits(xs[n], width));
    }
  }

  lemma Regroup(a: seq<bool>, b: seq<bool>, c: seq<bool>)
    ensures (a + b) + c == a + (b + c)
  {}

  // ---------- Round trip ----------

  lemma {:induction false} FlattenAt(xs: seq<nat>, width: nat, k: nat)
    requires k < |xs|
    ensures k * width + width <= |Flatten(xs, width)|
    ensures Flatten(xs, width)[k * width..k * width + width] == Bits(xs[k], width)
  {
    hide Bits;
    assert k * width + width == (k + 1) * width;
    MulMono(k + 1, |xs|, width);
    var n := |xs| - 1;
    var front := Flatten(xs[..n], width);
    assert |front| == n * width && |Flatten(xs, width)| == n * width + width;
    if k < n {
      FlattenAt(xs[..n], width, k);
      assert Flatten(xs, width)[k * width..k * width + width] == front[k * width..k * width + width];
    }
  }

  /** Equal bit strings are equal number strings; a prefix of one is a prefix of the other. */
  lemma FlattenPrefix(xs: seq<nat>, ys: seq<nat>, width: nat)
    requires width > 0 && AllBelow(xs, Pow2(width)) && AllBelow(ys, Pow2(width))
    requires Flatten(xs, width) <= Flatten(ys, width)
    ensures xs <= ys
  {
    hide Bits, Flatten, Pow2;
    assert (|ys| + 1) * width == |ys| * width + width;
    if |xs| > |ys| {
      MulMono(|ys| + 1, |xs|, width);
      assert false;
    }
    forall k | 0 <= k < |xs|
      ensures xs[k] == ys[k]
    {
      FlattenAt(xs, width, k);
      FlattenAt(ys, width, k);
      var lo, hi := k * width, k * width + width;
      assert Flatten(xs, width)[lo..hi] == Flatten(ys, width)[lo..hi];
      BitsInjective(xs[k], ys[k], width);
    }
  }

  /** The number of codes the decoder has made of n bits once it has taken in all the bytes: it stops as
      soon as the last byte is in, with 8 - bits bits or more still to come. */
  function CodesOut(n: nat, bits: nat): nat
    requires Width(bits) && n >= 8
  {
    (n - (8 - bits)) / bits
  }

  /** The unpacker stops with 8 - bits to 7 bits in its carry, whatever the bytes. */
  lemma {:induction false} UnpackStops(bits: nat, c: Carry, bytes: seq<nat>)
    requires Width(bits) && c.bits < 8 && bytes != []
    ensures 8 - bits <= Unpack(bits, c, bytes).carry.bits <= 7
    decreases |bytes|, c.bits
  {
    hide Loaded, Lower, Upper;
    var next := if c.bits < bits then bytes[1..] else bytes;
    if next != [] {
      UnpackStops(bits, Drained(bits, Filled(bits, c, bytes[0])), next);
    }
  }

  /** How many codes that is, and when a whole code stays behind undecoded: if and only if the bits end at
      most 7 - bits bits after a code boundary. */
  lemma CodesOutForm(bits: nat, n: nat, codes: nat, left: nat)
    requires Width(bits) && n >= 8 && n == codes * bits + left && 8 - bits <= left <= 7
    ensures codes == CodesOut(n, bits)
    ensures left >= bits <==> n % bits <= 7 - bits
  {
    QuotientUnique(n - (8 - bits), bits, codes, left - (8 - bits));
    if left >= bits {
      assert (codes + 1) * bits == codes * bits + bits;
      ModUnique(n, bits, codes + 1, left - bits);
    } else {
      ModUnique(n, bits, codes, left);
    }
  }

  /** Packed transport: the codes that come out are a prefix of the codes that went in. Both sides
      account for every bit. The first bytes leave after two codes; from then on the receiver has exactly the
      stated number of codes, and keeps a whole one back if and only if the bytes end on a code boundary. */
  lemma PackedRoundTrip(bits: nat, codes: seq<nat>)
    requires Width(bits) && AllBelow(codes, Pow2(bits))
    ensures var bytes, left := PackBytes(bits, EMPTY, codes), PackCarry(bits, EMPTY, codes);
            var u := Unpack(bits, EMPTY, bytes);
            && u.codes <= codes
            && |codes| * bits == 8 * |bytes| + left.bits
            && 8 * |bytes| == |u.codes| * bits + u.carry.bits
            && left.bits < 8 && u.carry.bits < 8
            && |codes| - 2 <= |u.codes|
            && (bytes == [] <==> |codes| <= 1)
            && |bytes| == |codes| * bits / 8
            && |u.codes| == (if bytes == [] then 0 else CodesOut(8 * |bytes|, bits))
            && (u.carry.bits >= bits <==> bytes != [] && 8 * |bytes| % bits == 0)
  {
    hide Bits, Flatten, Unpack, PackBytes, PackCarry, CodesOut;
    var bytes, left := PackBytes(bits, EMPTY, codes), PackCarry(bits, EMPTY, codes);
    var u := Unpack(bits, EMPTY, bytes);
    PackConserves(bits, EMPTY, codes);
    UnpackConserves(bits, EMPTY, bytes);
    assert Bits(0, 0) == [];
    var out, sent := Flatten(u.codes, bits), Flatten(codes, bits);
    assert sent == Bits(0, 0) + sent && Flatten(bytes, 8) == Bits(0, 0) + Flatten(bytes, 8);
    assert sent == (out + Bits(u.carry.buffer, u.carry.bits)) + Bits(left.buffer, left.bits);
    assert out <= sent;
    FlattenPrefix(u.codes, codes, bits);
    assert (|codes| - |u.codes|) * bits <= 14;
    if bytes != [] {
      UnpackStops(bits, EMPTY, bytes);
      CodesOutForm(bits, 8 * |bytes|, |u.codes|, u.carry.bits);
      EvenBits(bits, |bytes|);
    }
  }

  /** Whole bytes never end one bit after a 6-bit code. */
  lemma EvenBits(bits: nat, n: nat)
    requires Width(bits)
    ensures 8 * n % bits <= 7 - bits <==> 8 * n % bits == 0
  {
    if bits == 6 {
      var q, r := 8 * n / 6, 8 * n % 6;
      assert 8 * n == 6 * q + r;
      assert r == 2 * (4 * n - 3 * q);
    }
  }

  // ---------- Any split into calls ----------

  lemma {:induction false} PackAppend(bits: nat, c: Carry, a: seq<nat>, b: seq<nat>)
    ensures PackCarry(bits, c, a + b) == PackCarry(bits, PackCarry(bits, c, a), b)
    ensures PackBytes(bits, c, a + b) == PackBytes(bits, c, a) + PackBytes(bits, PackCarry(bits, c, a), b)
  {
    hide PackStep, PackedBy;
    if b == [] {
      assert a + b == a;
    } else {
      var n := |b| - 1;
      PackAppend(bits, c, a, b[..n]);
      assert (a + b)[..|a + b| - 1] == a + b[..n];
    }
  }

  lemma UnpackStep(bits: nat, c: Carry, bytes: seq<nat>)
    requires 1 <= bits <= 8 && bytes != []
    ensures var full := Filled(bits, c, bytes[0]);
            var rest := Unpack(bits, Drained(bits, full), if c.bits < bits then bytes[1..] else bytes);
            Unpack(bits, c, bytes) == Unpacked([Lower(full.buffer, bits)] + rest.codes, rest.carry)
  {}

  lemma {:induction false} UnpackAppend(bits: nat, c: Carry, a: seq<nat>, b: seq<nat>)
    requires 1 <= bits <= 8
    ensures var first := Unpack(bits, c, a);
            var second := Unpack(bits, first.carry, b);
            Unpack(bits, c, a + b) == Unpacked(first.codes + second.codes, second.carry)
    decreases |a|, c.bits
  {
    hide Loaded, Lower, Upper, Pow2;
    if a == [] {
      assert a + b == b;
    } else {
      var full := Filled(bits, c, a[0]);
      var code, next := Lower(full.buffer, bits), if c.bits < bits then a[1..] else a;
      UnpackAppend(bits, Drained(bits, full), next, b);
      assert (a + b)[1..] == a[1..] + b && (a + b)[0] == a[0];
      UnpackStep(bits, c, a);
      UnpackStep(bits, c, a + b);
      hide Unpack, Filled, Drained;
      var first := Unpack(bits, c, a);
      assert [code] + (first.codes[1..] + Unpack(bits, first.carry, b).codes)
          == first.codes + Unpack(bits, first.carry, b).codes;
    }
  }
}
