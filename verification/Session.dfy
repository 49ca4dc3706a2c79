/** Whole calls of the encoder and the decoder, runs of calls, and the codec from end to end. */
module Session {
  import opened FixedPoint
  import opened Codec
  import opened Filterbank
  import opened BitStream
  import opened Lockstep
  import opened Quantizer
  import opened ErrorBound
  import P = Predictor

  /** What an encoder or a decoder keeps between calls. */
  datatype State = State(bands: Bands, x: History, carry: Carry)

  const RESET := State(INIT, SILENCE, EMPTY)

  // ---------- One call ----------

  function CodesFrom(m: Mode, st: State, amp: seq<int>): seq<nat>
    requires WholePairs(m, amp)
  {
    EncodeCodes(m, st.bands, Pairs(m, st.x, amp))
  }

  function EncodedState(m: Mode, st: State, amp: seq<int>): State
    requires WholePairs(m, amp)
  {
    State(EncodeBands(m, st.bands, Pairs(m, st.x, amp)),
          HistoryAfter(m, st.x, amp),
          if m.packed then PackCarry(m.bits, st.carry, CodesFrom(m, st, amp)) else st.carry)
  }

  function EncodedBytes(m: Mode, st: State, amp: seq<int>): seq<nat>
    requires WholePairs(m, amp)
  {
    var codes := CodesFrom(m, st, amp);
    if m.packed then PackBytes(m.bits, st.carry, codes) else codes
  }

  function Received(m: Mode, st: State, bytes: seq<nat>): Unpacked {
    if m.packed then Unpack(m.bits, st.carry, bytes) else Unpacked(bytes, st.carry)
  }

  function DecodedPairs(m: Mode, st: State, bytes: seq<nat>): seq<Pair> {
    DecodePairs(m, st.bands, Received(m, st, bytes).codes)
  }

  function DecodedState(m: Mode, st: State, bytes: seq<nat>): State {
    var u := Received(m, st, bytes);
    State(DecodeBands(m, st.bands, u.codes),
          OutputHistory(m, st.x, DecodedPairs(m, st, bytes)),
          u.carry)
  }

  function DecodedSamples(m: Mode, st: State, bytes: seq<nat>): seq<int16> {
    Samples(m, st.x, DecodedPairs(m, st, bytes))
  }

  // ---------- Splitting a stream into calls changes nothing ----------

  lemma {:induction false} EncodeAppend(m: Mode, bs: Bands, a: seq<Pair>, b: seq<Pair>)
    ensures EncodeBands(m, bs, a + b) == EncodeBands(m, EncodeBands(m, bs, a), b)
    ensures EncodeCodes(m, bs, a + b) == EncodeCodes(m, bs, a) + EncodeCodes(m, EncodeBands(m, bs, a), b)
  {
    hide EncodeStep, EncodeCode;
    if b == [] {
      assert a + b == a;
    } else {
      var n := |b| - 1;
      EncodeAppend(m, bs, a, b[..n]);
      assert (a + b)[..|a + b| - 1] == a + b[..n];
    }
  }

  lemma {:induction false} DecodeAppend(m: Mode, bs: Bands, a: seq<nat>, b: seq<nat>)
    ensures DecodeBands(m, bs, a + b) == DecodeBands(m, DecodeBands(m, bs, a), b)
    ensures DecodePairs(m, bs, a + b) == DecodePairs(m, bs, a) + DecodePairs(m, DecodeBands(m, bs, a), b)
  {
    hide DecodeStep, ReconstructLow, ReconstructHigh;
    if b == [] {
      assert a + b == a;
    } else {
      var n := |b| - 1;
      DecodeAppend(m, bs, a, b[..n]);
      assert (a + b)[..|a + b| - 1] == a + b[..n];
    }
  }

  lemma {:induction false} HistoryAppend(m: Mode, x: History, a: seq<int>, b: seq<int>)
    requires WholePairs(m, a) && WholePairs(m, b)
    ensures HistoryAfter(m, x, a + b) == HistoryAfter(m, HistoryAfter(m, x, a), b)
  {
    hide ShiftIn;
    if b == [] {
      assert a + b == a;
    } else if UsesQmf(m) {
      var n := |b| - 2;
      HistoryAppend(m, x, a, b[..n]);
      assert (a + b)[..|a + b| - 2] == a + b[..n];
    }
  }

  lemma PairsStep(m: Mode, x: History, amp: seq<int>)
    requires WholePairs(m, amp) && amp != []
    ensures var n := |amp| - Stride(m);
            && n >= 0 && WholePairs(m, amp[..n])
            && Pairs(m, x, amp) == Pairs(m, x, amp[..n]) + [PairOf(m, HistoryAfter(m, x, amp), amp[|amp| - 1])]
  {
    hide PairOf, HistoryAfter;
  }

  lemma WholeAppend(m: Mode, a: seq<int>, b: seq<int>)
    requires WholePairs(m, a) && WholePairs(m, b)
    ensures WholePairs(m, a + b)
    ensures b != [] ==>
              var n := |b| - Stride(m);
              && 0 <= n < |b| && WholePairs(m, b[..n])
              && (a + b)[..|a + b| - Stride(m)] == a + b[..n]
  {}

  lemma {:induction false} PairsAppend(m: Mode, x: History, a: seq<int>, b: seq<int>)
    requires WholePairs(m, a) && WholePairs(m, b)
    ensures WholePairs(m, a + b)
    ensures Pairs(m, x, a + b) == Pairs(m, x, a) + Pairs(m, HistoryAfter(m, x, a), b)
  {
    hide PairOf, HistoryAfter, WholePairs, Stride;
    WholeAppend(m, a, b);
    if b == [] {
      assert a + b == a;
    } else {
      hide Pairs;
      var n := |b| - Stride(m);
      var x' := HistoryAfter(m, x, a);
      PairsStep(m, x', b);
      PairsAppend(m, x, a, b[..n]);
      HistoryAppend(m, x, a, b);
      PairsStep(m, x, a + b);
      var last := PairOf(m, HistoryAfter(m, x', b), b[|b| - 1]);
      assert (Pairs(m, x, a) + Pairs(m, x', b[..n])) + [last] == Pairs(m, x, a) + (Pairs(m, x', b[..n]) + [last]);
    }
  }

  lemma {:induction false} SamplesAppend(m: Mode, x: History, a: seq<Pair>, b: seq<Pair>)
    ensures OutputHistory(m, x, a + b) == OutputHistory(m, OutputHistory(m, x, a), b)
    ensures Samples(m, x, a + b) == Samples(m, x, a) + Samples(m, OutputHistory(m, x, a), b)
  {
    hide SamplesOf, ShiftIn;
    if b == [] {
      assert a + b == a;
    } else {
      var n := |b| - 1;
      SamplesAppend(m, x, a, b[..n]);
      assert (a + b)[..|a + b| - 1] == a + b[..n];
    }
  }

  /** Encoding a stream in two calls is encoding it in one. */
  lemma EncodeInTwoCalls(m: Mode, st: State, a: seq<int>, b: seq<int>)
    requires WholePairs(m, a) && WholePairs(m, b)
    ensures WholePairs(m, a + b)
    ensures EncodedState(m, st, a + b) == EncodedState(m, EncodedState(m, st, a), b)
    ensures EncodedBytes(m, st, a + b) == EncodedBytes(m, st, a) + EncodedBytes(m, EncodedState(m, st, a), b)
    ensures CodesFrom(m, st, a + b) == CodesFrom(m, st, a) + CodesFrom(m, EncodedState(m, st, a), b)
  {
    hide EncodeBands, EncodeCodes, Pairs, HistoryAfter, PackCarry, PackBytes;
    HistoryAppend(m, st.x, a, b);
    PairsAppend(m, st.x, a, b);
    EncodeAppend(m, st.bands, Pairs(m, st.x, a), Pairs(m, HistoryAfter(m, st.x, a), b));
    PackAppend(m.bits, st.carry, CodesFrom(m, st, a), CodesFrom(m, EncodedState(m, st, a), b));
  }

  /** Decoding a stream in two calls is decoding it in one, wherever the bytes are split. */
  lemma DecodeInTwoCalls(m: Mode, st: State, a: seq<nat>, b: seq<nat>)
    ensures DecodedState(m, st, a + b) == DecodedState(m, DecodedState(m, st, a), b)
    ensures DecodedSamples(m, st, a + b) == DecodedSamples(m, st, a) + DecodedSamples(m, DecodedState(m, st, a), b)
  {
    hide DecodeBands, DecodePairs, Samples, OutputHistory, Unpack;
    UnpackAppend(m.bits, st.carry, a, b);
    var first := Received(m, st, a);
    var second := Received(m, DecodedState(m, st, a), b);
    DecodeAppend(m, st.bands, first.codes, second.codes);
    SamplesAppend(m, st.x, DecodedPairs(m, st, a), DecodedPairs(m, DecodedState(m, st, a), b));
  }

  // ---------- One pass of the encoder loop ----------

  function NextHistory(m: Mode, st: State, newest: seq<int>): History
    requires |newest| == Stride(m)
  {
    if UsesQmf(m) then ShiftIn(st.x, newest[0], newest[1]) else st.x
  }

  function NextPair(m: Mode, st: State, newest: seq<int>): Pair
    requires |newest| == Stride(m)
  {
    PairOf(m, NextHistory(m, st, newest), newest[|newest| - 1])
  }

  function CodeCarry(m: Mode, st: State, code: nat): Carry {
    if m.packed then PackStep(m.bits, st.carry, code) else st.carry
  }

  function CodeBytes(m: Mode, st: State, code: nat): seq<nat> {
    if m.packed then PackedBy(m.bits, st.carry, code) else [code]
  }

  function NextState(m: Mode, st: State, newest: seq<int>): State
    requires |newest| == Stride(m)
  {
    var pair := NextPair(m, st, newest);
    State(EncodeStep(m, st.bands, pair), NextHistory(m, st, newest),
          CodeCarry(m, st, EncodeCode(m, st.bands, pair)))
  }

  function NextBytes(m: Mode, st: State, newest: seq<int>): seq<nat>
    requires |newest| == Stride(m)
  {
    CodeBytes(m, st, EncodeCode(m, st.bands, NextPair(m, st, newest)))
  }

  lemma EncodeNothing(m: Mode, st: State)
    ensures EncodedState(m, st, []) == st && EncodedBytes(m, st, []) == []
  {}

  lemma EncodeLast(m: Mode, st: State, amp: seq<int>)
    requires WholePairs(m, amp) && amp != []
    ensures var n := |amp| - Stride(m);
            var before := EncodedState(m, st, amp[..n]);
            && EncodedState(m, st, amp) == NextState(m, before, amp[n..])
            && EncodedBytes(m, st, amp) == EncodedBytes(m, st, amp[..n]) + NextBytes(m, before, amp[n..])
  {
    hide EncodeCode, EncodeStep, PackStep, PackedBy, PairOf;
    var xs := Pairs(m, st.x, amp);
    assert xs[..|xs| - 1] == Pairs(m, st.x, amp[..|amp| - Stride(m)]);
    var codes := EncodeCodes(m, st.bands, xs);
    assert codes[..|codes| - 1] == EncodeCodes(m, st.bands, xs[..|xs| - 1]);
  }

  /** What a pass at sample j of a call adds; the bytes so far never outgrow the bytes of the call. */
  lemma EncodeOneMore(m: Mode, st: State, amp: seq<int>, j: nat)
    requires WholePairs(m, amp) && j < |amp| && WholePairs(m, amp[..j])
    ensures j + Stride(m) <= |amp| && WholePairs(m, amp[..j + Stride(m)])
    ensures var next := j + Stride(m);
            var before := EncodedState(m, st, amp[..j]);
            && EncodedState(m, st, amp[..next]) == NextState(m, before, amp[j..next])
            && EncodedBytes(m, st, amp[..next]) == EncodedBytes(m, st, amp[..j]) + NextBytes(m, before, amp[j..next])
            && |EncodedBytes(m, st, amp[..next])| <= |EncodedBytes(m, st, amp)|
  {
    hide EncodedState, EncodedBytes, NextState, NextBytes, CodesFrom;
    var next := j + Stride(m);
    WholeStep(m, amp, j);
    EncodeLast(m, st, amp[..next]);
    assert amp[..next][..j] == amp[..j] && amp[..next][j..] == amp[j..next];
    EncodeInTwoCalls(m, st, amp[..next], amp[next..]);
    assert amp[..next] + amp[next..] == amp;
  }

  lemma WholeStep(m: Mode, amp: seq<int>, j: nat)
    requires WholePairs(m, amp) && j < |amp| && WholePairs(m, amp[..j])
    ensures var next := j + Stride(m);
            next <= |amp| && WholePairs(m, amp[..next]) && WholePairs(m, amp[next..])
  {}

  // ---------- One pass of the decoder loop ----------

  predicate TakesByte(m: Mode, st: State) {
    m.packed ==> st.carry.bits < m.bits
  }

  function TakenCode(m: Mode, st: State, byte: nat): nat {
    if m.packed then Lower(Filled(m.bits, st.carry, byte).buffer, m.bits) else byte
  }

  function TakenCarry(m: Mode, st: State, byte: nat): Carry {
    if m.packed then Drained(m.bits, Filled(m.bits, st.carry, byte)) else st.carry
  }

  function CodePair(m: Mode, st: State, code: nat): Pair {
    Pair(ReconstructLow(st.bands.low, code, m.bits), ReconstructHigh(m, st.bands.high, code))
  }

  function PairHistory(m: Mode, st: State, p: Pair): History {
    if UsesQmf(m) then ShiftIn(st.x, p.low + p.high, p.low - p.high) else st.x
  }

  function PairSamples(m: Mode, st: State, p: Pair): seq<int16> {
    SamplesOf(m, PairHistory(m, st, p), p)
  }

  function StateAfterCode(m: Mode, st: State, byte: nat): State {
    var code := TakenCode(m, st, byte);
    State(DecodeStep(m, st.bands, code), PairHistory(m, st, CodePair(m, st, code)), TakenCarry(m, st, byte))
  }

  function SamplesOfCode(m: Mode, st: State, byte: nat): seq<int16> {
    PairSamples(m, st, CodePair(m, st, TakenCode(m, st, byte)))
  }

  lemma DecodeNothing(m: Mode, st: State)
    ensures DecodedState(m, st, []) == st && DecodedSamples(m, st, []) == []
  {}

  /** What the first pass over some bytes does, and what is left for the other passes. */
  lemma DecodeFirst(m: Mode, st: State, bytes: seq<nat>)
    requires bytes != []
    ensures var after := StateAfterCode(m, st, bytes[0]);
            var rest := if TakesByte(m, st) then bytes[1..] else bytes;
            && DecodedState(m, st, bytes) == DecodedState(m, after, rest)
            && DecodedSamples(m, st, bytes) == SamplesOfCode(m, st, bytes[0]) + DecodedSamples(m, after, rest)
  {
    hide Received, TakenCode, TakenCarry, DecodeBands, DecodePairs, DecodeStep, Samples, OutputHistory, SamplesOf,
      ReconstructLow, ReconstructHigh, ShiftIn;
    var after := StateAfterCode(m, st, bytes[0]);
    var rest := if TakesByte(m, st) then bytes[1..] else bytes;
    ReceivedFirst(m, st, after, bytes);
    var code, later := TakenCode(m, st, bytes[0]), Received(m, after, rest).codes;
    OneCode(m, st.bands, code);
    DecodeAppend(m, st.bands, [code], later);
    var pair := CodePair(m, st, code);
    OnePair(m, st.x, pair);
    SamplesAppend(m, st.x, [pair], DecodePairs(m, after.bands, later));
  }

  lemma ReceivedFirst(m: Mode, st: State, after: State, bytes: seq<nat>)
    requires bytes != [] && after.carry == TakenCarry(m, st, bytes[0])
    ensures var later := Received(m, after, if TakesByte(m, st) then bytes[1..] else bytes);
            Received(m, st, bytes) == Unpacked([TakenCode(m, st, bytes[0])] + later.codes, later.carry)
  {
    hide Pow2, Loaded, Lower, Upper;
    if !m.packed {
      assert bytes == [bytes[0]] + bytes[1..];
    }
  }

  lemma OneCode(m: Mode, bs: Bands, code: nat)
    ensures DecodeBands(m, bs, [code]) == DecodeStep(m, bs, code)
    ensures DecodePairs(m, bs, [code])
            == [Pair(ReconstructLow(bs.low, code, m.bits), ReconstructHigh(m, bs.high, code))]
  {
    assert [code][..0] == [];
  }

  lemma OnePair(m: Mode, x: History, p: Pair)
    ensures OutputHistory(m, x, [p]) == if UsesQmf(m) then ShiftIn(x, p.low + p.high, p.low - p.high) else x
    ensures Samples(m, x, [p]) == SamplesOf(m, OutputHistory(m, x, [p]), p)
  {
    hide SamplesOf, ShiftIn;
    assert [p][..0] == [];
  }

  // ---------- Runs of calls ----------

  function Concat<T>(parts: seq<seq<T>>): seq<T> {
    if parts == [] then [] else Concat(parts[..|parts| - 1]) + parts[|parts| - 1]
  }

  predicate WholeCalls(m: Mode, calls: seq<seq<int>>) {
    forall k :: 0 <= k < |calls| ==> WholePairs(m, calls[k])
  }

  /** The state after a number of calls, and all they put out. */
  datatype Run<T> = Run(state: State, output: seq<T>)

  function EncodeCalls(m: Mode, st: State, calls: seq<seq<int>>): Run<nat>
    requires WholeCalls(m, calls)
  {
    if calls == [] then Run(st, [])
    else
      var n := |calls| - 1;
      var before := EncodeCalls(m, st, calls[..n]);
      Run(EncodedState(m, before.state, calls[n]), before.output + EncodedBytes(m, before.state, calls[n]))
  }

  function DecodeCalls(m: Mode, st: State, calls: seq<seq<nat>>): Run<int16> {
    if calls == [] then Run(st, [])
    else
      var n := |calls| - 1;
      var before := DecodeCalls(m, st, calls[..n]);
      Run(DecodedState(m, before.state, calls[n]), before.output + DecodedSamples(m, before.state, calls[n]))
  }

  lemma {:induction false} EncodeCallsAreOne(m: Mode, st: State, calls: seq<seq<int>>)
    requires WholeCalls(m, calls)
    ensures WholePairs(m, Concat(calls))
    ensures EncodeCalls(m, st, calls) == Run(EncodedState(m, st, Concat(calls)), EncodedBytes(m, st, Concat(calls)))
  {
    if calls == [] {
      assert EncodeCalls(m, st, calls) == Run(st, []);
    } else {
      hide EncodedState, EncodedBytes;
      var n := |calls| - 1;
      EncodeCallsAreOne(m, st, calls[..n]);
      EncodeInTwoCalls(m, st, Concat(calls[..n]), calls[n]);
    }
  }

  lemma {:induction false} DecodeCallsAreOne(m: Mode, st: State, calls: seq<seq<nat>>)
    ensures DecodeCalls(m, st, calls) == Run(DecodedState(m, st, Concat(calls)), DecodedSamples(m, st, Concat(calls)))
  {
    if calls == [] {
      assert DecodeCalls(m, st, calls) == Run(st, []);
    } else {
      hide DecodedState, DecodedSamples;
      var n := |calls| - 1;
      DecodeCallsAreOne(m, st, calls[..n]);
      DecodeInTwoCalls(m, st, Concat(calls[..n]), calls[n]);
    }
  }

  // ---------- The codec end to end ----------

  lemma {:induction false} CodesFit(m: Mode, bs: Bands, xs: seq<Pair>)
    ensures AllBelow(EncodeCodes(m, bs, xs), Pow2(m.bits))
  {
    hide EncodeCode, EncodeStep, Pow2;
    if xs != [] {
      var n := |xs| - 1;
      CodesFit(m, bs, xs[..n]);
      SentParts(m, EncodeBands(m, bs, xs[..n]), xs[n]);
    }
  }

  /** The number of codes a decoder has made of the bytes an encoder has sent. */
  function Arrived(e: Mode, amp: seq<int>): nat
    requires WholePairs(e, amp)
  {
    |Received(e, RESET, EncodedBytes(e, RESET, amp)).codes|
  }

  /** How many of n codes have come out at the other end once all bytes they fill have been fed. */
  function CodesThrough(e: Mode, n: nat): nat {
    if !e.packed then n
    else if n <= 1 then 0
    else
      assert n * e.bits >= 12;
      CodesOut(n * e.bits / 8 * 8, e.bits)
  }

  lemma TransportKeepsCodes(e: Mode, amp: seq<int>)
    requires WholePairs(e, amp)
    ensures var codes := CodesFrom(e, RESET, amp);
            && Arrived(e, amp) == CodesThrough(e, |codes|)
            && Arrived(e, amp) <= |codes| <= Arrived(e, amp) + (if e.packed then 2 else 0)
            && Received(e, RESET, EncodedBytes(e, RESET, amp)).codes == codes[..Arrived(e, amp)]
  {
    hide Unpack, PackBytes, PackCarry, EncodeCodes, Pairs, Pow2;
    var codes := CodesFrom(e, RESET, amp);
    if e.packed {
      CodesFit(e, INIT, Pairs(e, SILENCE, amp));
      PackedRoundTrip(e.bits, codes);
    } else {
      assert codes[..|codes|] == codes;
    }
  }

  /** The codec as a whole, from reset, for any input, rate, packing and bandwidth, and for any way of
      cutting the samples and the bytes into calls: the decoder's low band is exactly the encoder's low
      band of at most two codes earlier, the high band too when both sides run it, and both machines
      are in a legal state. */
  lemma EndToEnd(e: Mode, d: Mode, amps: seq<seq<int>>, parts: seq<seq<nat>>)
    requires e.bits == d.bits && e.packed == d.packed
    requires WholeCalls(e, amps)
    requires Concat(parts) == EncodeCalls(e, RESET, amps).output
    ensures WholePairs(e, Concat(amps))
    ensures var amp := Concat(amps);
            var n, xs := Arrived(e, amp), Pairs(e, SILENCE, amp);
            var sent, got := EncodeCalls(e, RESET, amps).state, DecodeCalls(d, RESET, parts).state;
            && n == CodesThrough(e, |xs|) && n <= |xs| <= n + (if e.packed then 2 else 0)
            && sent.bands == EncodeBands(e, INIT, xs)
            && got.bands.low == EncodeBands(e, INIT, xs[..n]).low
            && (!e.eightK && !d.eightK ==> got.bands == EncodeBands(e, INIT, xs[..n]))
            && BandsOk(sent.bands) && BandsOk(got.bands)
  {
    hide Pairs, EncodeBands, EncodeCodes, DecodeBands, DecodePairs, Unpack, PackBytes, PackCarry, OutputHistory,
      HistoryAfter, Samples, BandsOk;
    EncodeCallsAreOne(e, RESET, amps);
    DecodeCallsAreOne(d, RESET, parts);
    var amp := Concat(amps);
    var n, xs := Arrived(e, amp), Pairs(e, SILENCE, amp);
    TransportKeepsCodes(e, amp);
    EncodePrefix(e, INIT, xs, n);
    StaysInLockstep(e, d, INIT, INIT, xs[..n]);
    InitOk();
    EncoderInvariant(e, INIT, xs);
    DecoderInvariant(d, INIT, EncodeCodes(e, INIT, xs[..n]));
  }

  /** 8 kHz speech through the whole codec, packed or not, in any calls: the output is the input, at most
      two samples short, and every sample that does not overload the quantizer comes out faithfully. */
  lemma NarrowbandEndToEnd(e: Mode, d: Mode, amps: seq<seq<int>>, parts: seq<seq<nat>>, k: nat)
    requires e.bits == d.bits && e.packed == d.packed && Narrowband(e) && Narrowband(d)
    requires P.All16(Concat(amps))
    requires Concat(parts) == EncodeCalls(e, RESET, amps).output
    ensures var amp, output := Concat(amps), DecodeCalls(d, RESET, parts).output;
            && |output| == CodesThrough(e, |amp|)
            && |output| <= |amp| <= |output| + (if e.packed then 2 else 0)
            && (k < |output| ==> FaithfulAt(e, output, amp, k))
  {
    hide EncodedBytes, EncodedState, DecodedSamples, DecodedState, FaithfulAt, Through, Arrived, EncodeCalls,
      DecodeCalls;
    EncodeCallsAreOne(e, RESET, amps);
    DecodeCallsAreOne(d, RESET, parts);
    var amp := Concat(amps);
    var n := Arrived(e, amp);
    DecodedFromPrefix(e, d, amp);
    if n == 0 {
      ThroughNothing(e, d, amp[..n]);
    } else {
      NarrowbandError(e, d, amp[..n], if k < n then k else 0);
      if k < n {
        FaithfulPrefix(e, Through(e, d, amp[..n]), amp, n, k);
      }
    }
  }

  lemma FaithfulPrefix(e: Mode, output: seq<int16>, amp: seq<int16>, n: nat, k: nat)
    requires Narrowband(e) && k < n <= |amp| && n <= |output|
    requires FaithfulAt(e, output, amp[..n], k)
    ensures FaithfulAt(e, output, amp, k)
  {
    hide NoOverload, WidthAt, Within, LowAfter;
    assert amp[..n][..k] == amp[..k];
  }

  lemma ThroughNothing(e: Mode, d: Mode, amp: seq<int>)
    requires amp == []
    ensures Through(e, d, amp) == []
  {}

  /** What comes out is what a perfect channel would make of the samples that have arrived. */
  lemma DecodedFromPrefix(e: Mode, d: Mode, amp: seq<int>)
    requires e.bits == d.bits && e.packed == d.packed && Narrowband(e)
    ensures var n := Arrived(e, amp);
            && n == CodesThrough(e, |amp|) && n <= |amp| <= n + (if e.packed then 2 else 0)
            && DecodedSamples(d, RESET, EncodedBytes(e, RESET, amp)) == Through(e, d, amp[..n])
  {
    hide Received, EncodedBytes, EncodeCodes, DecodePairs, Samples;
    var n := Arrived(e, amp);
    TransportKeepsCodes(e, amp);
    SameReceived(e, d, RESET, EncodedBytes(e, RESET, amp));
    CodesOfPrefix(e, amp, n);
  }

  lemma CodesOfPrefix(m: Mode, amp: seq<int>, n: nat)
    requires Narrowband(m) && n <= |amp|
    ensures CodesFrom(m, RESET, amp)[..n] == CodesFrom(m, RESET, amp[..n])
  {
    hide EncodeCodes, Pairs;
    EncodePrefix(m, INIT, Pairs(m, SILENCE, amp), n);
    PairsOfPrefix(m, amp, n);
  }

  lemma SameReceived(e: Mode, d: Mode, st: State, bytes: seq<nat>)
    requires e.bits == d.bits && e.packed == d.packed
    ensures Received(e, st, bytes) == Received(d, st, bytes)
  {}

  lemma {:induction false} PairsOfPrefix(m: Mode, amp: seq<int>, n: nat)
    requires Narrowband(m) && n <= |amp|
    ensures Pairs(m, SILENCE, amp)[..n] == Pairs(m, SILENCE, amp[..n])
  {
    if n < |amp| {
      NarrowbandPairs(m, SILENCE, amp, n);
    } else {
      assert amp[..n] == amp;
    }
  }
}
