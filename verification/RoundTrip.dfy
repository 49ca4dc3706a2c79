/** An encoder and a decoder object at the two ends of a line. */
module G722RoundTrip {
  import opened FixedPoint
  import opened Codec
  import opened Filterbank
  import opened BitStream
  import opened ErrorBound
  import opened Session
  import opened G722Encoder
  import opened G722Decoder

  /** The bytes of a call from reset never outnumber its samples. */
  lemma BytesFit(m: Mode, amp: seq<int>)
    requires WholePairs(m, amp)
    ensures |EncodedBytes(m, RESET, amp)| <= |amp|
  {
    hide EncodeCodes, PackBytes, PackCarry, Unpack, Pow2;
    var xs := Pairs(m, SILENCE, amp);
    MulMono(1, Stride(m), |xs|);
    if m.packed {
      CodesFit(m, INIT, xs);
      PackedRoundTrip(m.bits, CodesFrom(m, RESET, amp));
    }
  }

  /** One call on each side is what the theorem about any calls says of it. */
  lemma OneCallEach(m: Mode, amp: seq<int16>, k: nat)
    requires Narrowband(m)
    ensures var output := DecodedSamples(m, RESET, EncodedBytes(m, RESET, amp));
            && |output| == CodesThrough(m, |amp|) <= |amp|
            && (k < |output| ==> FaithfulAt(m, output, amp, k))
  {
    hide EncodedBytes, EncodedState, DecodedSamples, DecodedState, FaithfulAt, EncodeCalls, DecodeCalls;
    var amps: seq<seq<int>>, parts := [amp], [EncodedBytes(m, RESET, amp)];
    assert amps[..0] == [] && parts[..0] == [];
    assert Concat(amps) == amp && Concat(parts) == parts[0];
    EncodeCallsAreOne(m, RESET, amps);
    DecodeCallsAreOne(m, RESET, parts);
    NarrowbandEndToEnd(m, m, amps, parts, k);
  }

  /** A new encoder, and one call that takes the whole signal. */
  method Send(rate: int, options: uint32, amp: array<int16>) returns (line: array<uint8>, sent: nat)
    requires WholePairs(ModeOf(rate, options), amp[..])
    ensures fresh(line) && sent <= line.Length
    ensures line[..sent] == EncodedBytes(ModeOf(rate, options), RESET, amp[..])
  {
    hide EncodedBytes, EncodedState, Encoder.Valid, Encoder.GetMode, Encoder.GetState;
    var encoder := new Encoder(rate, options);
    assert amp[..amp.Length] == amp[..];
    BytesFit(ModeOf(rate, options), amp[..]);
    line := new uint8[amp.Length];
    sent := encoder.Encode(amp, amp.Length, line);
  }

  /** A new decoder, and one call that takes all the bytes. */
  method Receive(rate: int, options: uint32, line: array<uint8>, sent: nat, room: nat)
    returns (output: array<int16>, outlen: nat)
    requires sent <= line.Length
    requires |DecodedSamples(ModeOf(rate, options), RESET, line[..sent])| <= room
    ensures fresh(output) && outlen <= output.Length
    ensures output[..outlen] == DecodedSamples(ModeOf(rate, options), RESET, line[..sent])
  {
    hide DecodedSamples, DecodedState, Decoder.Valid, Decoder.GetMode, Decoder.GetState;
    var decoder := new Decoder(rate, options);
    output := new int16[room];
    outlen := decoder.Decode(line, sent, output);
  }

  /** 8 kHz speech through a new encoder and a new decoder: as many samples as fill whole bytes allow,
      and every sample that does not overload the quantizer comes out faithfully. */
  method EncodeAndDecode(rate: int, options: uint32, amp: array<int16>) returns (output: array<int16>, outlen: nat)
    requires options % 2 == 1
    ensures fresh(output) && outlen <= output.Length && outlen <= amp.Length
    ensures var m := ModeOf(rate, options);
            && Narrowband(m)
            && outlen == CodesThrough(m, amp.Length)
            && forall k :: 0 <= k < outlen ==> FaithfulAt(m, output[..outlen], amp[..], k)
  {
    hide EncodedBytes, DecodedSamples, FaithfulAt;
    ghost var m := ModeOf(rate, options);
    var line, sent := Send(rate, options, amp);
    OneCallEach(m, amp[..], 0);
    output, outlen := Receive(rate, options, line, sent, amp.Length);
    forall k | 0 <= k < outlen
      ensures FaithfulAt(m, output[..outlen], amp[..], k)
    {
      OneCallEach(m, amp[..], k);
    }
  }
}
