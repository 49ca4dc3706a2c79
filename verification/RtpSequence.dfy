/** The 16-bit sequence accounting of an incoming RTP stream. */
module RtpSequence {
  import opened FixedPoint

  const NONE: uint32 := 0xFFFF_FFFF

  /** What `lostcalc` answers, and the last sequence number it keeps. */
  datatype Outcome = Outcome(lost: int, pseq: uint32)

  function Delta(pseq: uint32, sq: uint16): uint16 {
    (sq - pseq) % 0x1_0000
  }

  function LossOf(pseq: uint32, sq: uint16): Outcome {
    var delta := Delta(pseq, sq);
    if pseq == NONE then Outcome(0, sq)
    else if delta == 0 then Outcome(-1, pseq)
    else if delta < 3000 then Outcome(delta - 1, sq)
    else if delta < 0xff9c then Outcome(0, sq)
    else Outcome(-2, pseq)
  }

  predicate Taken(o: Outcome) {
    o.lost >= 0
  }

  // ---------- Against unwrapped sequence numbers ----------

  /** The 16 bits of an unwrapped sequence number that are sent. */
  function Wire(ext: int): uint16 {
    ext % 0x1_0000
  }

  lemma DeltaOfStep(high: int, step: int)
    ensures Delta(Wire(high), Wire(high + step)) == step % 0x1_0000
  {}

  /** A forward step is counted right exactly when it is shorter than 3000, at any point of the 16-bit
      cycle. */
  lemma ForwardExactIff(high: int, step: int)
    requires step >= 1
    ensures LossOf(Wire(high), Wire(high + step)) == Outcome(step - 1, Wire(high + step)) <==> step < 3000
  {
    DeltaOfStep(high, step);
    if step < 3000 {
      assert step % 0x1_0000 == step;
    }
  }

  /** A repeat of the last packet, or a packet up to 100 behind it, is refused and changes nothing; nothing
      else that is behind by less than a cycle is. */
  lemma BehindRefusedIff(high: int, back: nat)
    requires back < 0x1_0000
    ensures (var o := LossOf(Wire(high), Wire(high - back)); o.pseq == Wire(high) && !Taken(o)) <==> back <= 100
  {
    DeltaOfStep(high, 0 - back);
    if back > 0 {
      assert (0 - back) % 0x1_0000 == 0x1_0000 - back;
    }
  }

  /** The two refusals: -1 for a repeat, -2 for a packet that comes late. */
  lemma RefusalKinds(high: int, back: nat)
    requires back < 0x1_0000
    ensures LossOf(Wire(high), Wire(high - back)).lost == -1 <==> back == 0
    ensures LossOf(Wire(high), Wire(high - back)).lost == -2 <==> 1 <= back <= 100
  {
    DeltaOfStep(high, 0 - back);
    if back > 0 {
      assert (0 - back) % 0x1_0000 == 0x1_0000 - back;
    }
  }

  /** A step that is neither counts as a restart: the packet is taken, no loss is reported, and the numbers go
      on from there. */
  lemma RestartIff(high: int, step: int)
    ensures LossOf(Wire(high), Wire(high + step)) == Outcome(0, Wire(high + step))
            <==> step % 0x1_0000 == 1 || 3000 <= step % 0x1_0000 < 0xff9c
  {
    DeltaOfStep(high, step);
  }

  // ---------- Runs ----------

  /** What is accounted: a packet with its sequence number, or an underrun of the jitter buffer. */
  datatype Answer<T> = Got(sq: T) | Missed

  /** The number that is accounted for it: the header of an underrun is all zeros. */
  function NumberOf(a: Answer<uint16>): uint16 {
    if a.Got? then a.sq else 0
  }

  function OnWire(a: Answer<int>): Answer<uint16> {
    if a.Got? then Got(Wire(a.sq)) else Missed
  }

  function PseqAfter(answers: seq<Answer<int>>): uint32 {
    if answers == [] then NONE
    else
      var n := |answers| - 1;
      LossOf(PseqAfter(answers[..n]), NumberOf(OnWire(answers[n]))).pseq
  }

  function LastOutcome(answers: seq<Answer<int>>): Outcome
    requires answers != []
  {
    var n := |answers| - 1;
    LossOf(PseqAfter(answers[..n]), NumberOf(OnWire(answers[n])))
  }

  /** How many packets have been taken. */
  function TakenIn(answers: seq<Answer<int>>): nat {
    if answers == [] then 0
    else TakenIn(answers[..|answers| - 1]) + (if Taken(LastOutcome(answers)) then 1 else 0)
  }

  /** The sum of the losses reported. */
  function LostIn(answers: seq<Answer<int>>): nat {
    if answers == [] then 0
    else
      LostIn(answers[..|answers| - 1]) + (if Taken(LastOutcome(answers)) then LastOutcome(answers).lost else 0)
  }

  predicate Started(answers: seq<Answer<int>>) {
    answers != [] && answers[0].Got?
  }

  /** The highest unwrapped sequence number so far. */
  function Highest(answers: seq<Answer<int>>): int
    requires Started(answers)
  {
    var n := |answers| - 1;
    if n == 0 || (answers[n].Got? && answers[n].sq > Highest(answers[..n])) then answers[n].sq
    else Highest(answers[..n])
  }

  /** Every packet comes at most 100 behind and at most 2999 ahead of the highest one so far. */
  predicate Orderly(answers: seq<Answer<int>>) {
    && Started(answers)
    && forall n :: 0 < n < |answers| && answers[n].Got? ==>
                     -100 <= answers[n].sq - Highest(answers[..n]) <= 2999
  }

  /** No underrun comes while the 16-bit number of the highest packet is above 100. */
  predicate Harmless(answers: seq<Answer<int>>)
    requires Started(answers)
  {
    forall n :: 0 < n < |answers| && answers[n].Missed? ==> Wire(Highest(answers[..n])) <= 100
  }

  /** Every sequence number from the first packet to the highest one is accounted for exactly once, as
      taken or as lost. */
  predicate Exact(answers: seq<Answer<int>>)
    requires Started(answers)
  {
    && PseqAfter(answers) == Wire(Highest(answers))
    && TakenIn(answers) + LostIn(answers) == Highest(answers) - answers[0].sq + 1
  }

  lemma OneMore(answers: seq<Answer<int>>)
    requires Orderly(answers) && |answers| > 1 && Exact(answers[..|answers| - 1])
    ensures var n := |answers| - 1;
            answers[n].Got? || Wire(Highest(answers[..n])) <= 100 ==> Exact(answers)
    ensures var n := |answers| - 1;
            answers[n].Missed? && Wire(Highest(answers[..n])) > 100 ==> !Exact(answers)
  {
    hide LossOf, Wire;
    var n := |answers| - 1;
    var high := Highest(answers[..n]);
    if answers[n].Missed? {
      UnderrunHarmlessIff(Wire(high));
      UnderrunRefusedIff(Wire(high));
    } else {
      var step := answers[n].sq - high;
      assert answers[n].sq == high + step;
      if step >= 1 {
        ForwardExactIff(high, step);
      } else {
        BehindRefusedIff(high, 0 - step);
      }
    }
  }

  lemma FirstExact(answers: seq<Answer<int>>)
    requires Started(answers) && |answers| == 1
    ensures Exact(answers)
  {
    assert answers[..0] == [];
  }

  /** However often the 16-bit number wraps, the accounting of an orderly run is exact if no underrun comes at
      a number above 100. */
  lemma {:induction false} EveryNumberCounted(answers: seq<Answer<int>>)
    requires Orderly(answers) && Harmless(answers)
    ensures Exact(answers)
  {
    hide Exact, Highest;
    var n := |answers| - 1;
    if n == 0 {
      FirstExact(answers);
    } else {
      PrefixOrderly(answers, n);
      EveryNumberCounted(answers[..n]);
      OneMore(answers);
    }
  }

  lemma PrefixOrderly(answers: seq<Answer<int>>, m: nat)
    requires 0 < m <= |answers| && Orderly(answers)
    ensures Orderly(answers[..m])
    ensures Harmless(answers) ==> Harmless(answers[..m])
  {
    hide Highest, Wire;
    assert forall n :: 0 < n < m ==> answers[..m][n] == answers[n] && answers[..m][..n] == answers[..n];
  }

  /** Exact all the time: after every packet and every underrun of the run. */
  predicate AlwaysExact(answers: seq<Answer<int>>)
    requires Started(answers)
  {
    forall n :: 0 < n <= |answers| ==> Exact(answers[..n])
  }

  /** It is exact all the time if and only if no underrun comes at a number above 100. */
  lemma AlwaysExactIff(answers: seq<Answer<int>>)
    requires Orderly(answers)
    ensures AlwaysExact(answers) <==> Harmless(answers)
  {
    hide Exact, Highest, Wire;
    if Harmless(answers) {
      forall n | 0 < n <= |answers|
        ensures Exact(answers[..n])
      {
        PrefixOrderly(answers, n);
        EveryNumberCounted(answers[..n]);
      }
    }
    if AlwaysExact(answers) {
      forall n | 0 < n < |answers| && answers[n].Missed?
        ensures Wire(Highest(answers[..n])) <= 100
      {
        PrefixOrderly(answers, n + 1);
        assert answers[..n + 1][..n] == answers[..n];
        OneMore(answers[..n + 1]);
      }
    }
  }

  // ---------- The receive handler ----------

  /** What the jitter buffer answers when it is asked for a frame. */
  datatype Buffered = NoBuffer | Underrun | Frame(sq: uint16)

  /** A packet as the handler gets it, and what the jitter buffer will answer. */
  datatype Packet = Packet(empty: bool, receiving: bool, ssrc: uint32, sq: uint16, buffered: Buffered)

  /** A call of the stream's RTP handler: the sequence number of the header, and whether there is a body. A
      loss is reported with the header of the new packet and no body. */
  datatype Call = Call(sq: uint16, body: bool)

  datatype State = State(pseq: uint32, ssrcRx: uint32, jbufStarted: bool, packets: uint32)

  const SILENT := State(NONE, 0, false, 0)

  predicate Ignored(p: Packet) {
    p.empty || !p.receiving
  }

  /** What a packet makes the stream account, if anything. Underruns before the first frame do not count. */
  function Accounted(st: State, p: Packet): seq<Answer<uint16>> {
    if Ignored(p) then []
    else match p.buffered
      case NoBuffer => [Got(p.sq)]
      case Frame(sq) => [Got(sq)]
      case Underrun => if st.jbufStarted then [Missed] else []
  }

  function Received(st: State, p: Packet): State {
    if Ignored(p) then st
    else
      var a := Accounted(st, p);
      State(if a == [] then st.pseq else LossOf(st.pseq, NumberOf(a[0])).pseq,
            p.ssrc, st.jbufStarted || p.buffered.Frame?, (st.packets + 1) % 0x1_0000_0000)
  }

  function Reported(st: State, p: Packet): seq<Call> {
    var a := Accounted(st, p);
    if a == [] then []
    else
      (if LossOf(st.pseq, NumberOf(a[0])).lost > 0 then [Call(p.sq, false)] else [])
      + [Call(NumberOf(a[0]), a[0].Got?)]
  }

  /** The jitter buffer is flushed when the source of a running stream changes. */
  predicate Flushes(st: State, p: Packet) {
    !Ignored(p) && !p.buffered.NoBuffer? && st.ssrcRx !in {0, p.ssrc}
  }

  class Stream {
    var pseq: uint32
    var ssrcRx: uint32
    var jbufStarted: bool
    var packets: uint32

    ghost function Value(): State
      reads this
    {
      State(pseq, ssrcRx, jbufStarted, packets)
    }

    constructor ()
      ensures Value() == SILENT
    {
      pseq, ssrcRx, jbufStarted, packets := NONE, 0, false, 0;
    }

    /** `lostcalc`. */
    method LostCalc(sq: uint16) returns (lost: int)
      modifies this`pseq
      ensures Outcome(lost, pseq) == LossOf(old(pseq), sq)
    {
      var delta: uint16 := (sq - pseq) % 0x1_0000;
      if pseq == NONE {
        lost := 0;
      } else if delta == 0 {
        return -1;
      } else if delta < 3000 {
        lost := delta - 1;
      } else if delta < 0xff9c {
        lost := 0;
      } else {
        return -2;
      }
      pseq := sq;
    }

    /** `rtp_recv`. */
    method RtpRecv(p: Packet) returns (flush: bool, calls: seq<Call>)
      modifies this
      ensures Value() == Received(old(Value()), p)
      ensures calls == Reported(old(Value()), p)
      ensures flush <==> Flushes(old(Value()), p)
      ensures p.empty || !p.receiving ==> Value() == old(Value()) && calls == []
      ensures !p.empty && p.receiving ==>
                match p.buffered
                case NoBuffer =>
                  pseq == LossOf(old(pseq), p.sq).pseq && calls != [] && calls[|calls| - 1] == Call(p.sq, true)
                case Frame(sq) =>
                  pseq == LossOf(old(pseq), sq).pseq && calls != [] && calls[|calls| - 1] == Call(sq, true)
                case Underrun =>
                  if old(jbufStarted) then
                    pseq == LossOf(old(pseq), 0).pseq && calls != [] && calls[|calls| - 1] == Call(0, false)
                  else
                    pseq == old(pseq) && calls == []
    {
      flush, calls := false, [];
      if p.empty || !p.receiving {
        return;
      }
      packets := (packets + 1) % 0x1_0000_0000;
      var changed := false;
      if p.ssrc != ssrcRx {
        if ssrcRx != 0 {
          changed := true;
        }
        ssrcRx := p.ssrc;
      }
      if !p.buffered.NoBuffer? {
        flush := changed;
        var sq: uint16, body := 0, false;
        if p.buffered.Underrun? {
          if !jbufStarted {
            return;
          }
        } else {
          sq, body := p.buffered.sq, true;
        }
        jbufStarted := true;
        var lost := LostCalc(sq);
        if lost > 0 {
          calls := [Call(p.sq, false)];
        }
        calls := calls + [Call(sq, body)];
      } else {
        var lost := LostCalc(p.sq);
        if lost > 0 {
          calls := [Call(p.sq, false)];
        }
        calls := calls + [Call(p.sq, true)];
      }
    }
  }

  // ---------- A stream over a run of packets ----------

  function StateAfter(packets: seq<Packet>): State {
    if packets == [] then SILENT
    else Received(StateAfter(packets[..|packets| - 1]), packets[|packets| - 1])
  }

  function AccountedIn(packets: seq<Packet>): seq<Answer<uint16>> {
    if packets == [] then []
    else
      var n := |packets| - 1;
      AccountedIn(packets[..n]) + Accounted(StateAfter(packets[..n]), packets[n])
  }

  /** `answers` is what has been accounted, with unwrapped sequence numbers. */
  predicate Unwraps(answers: seq<Answer<int>>, wire: seq<Answer<uint16>>) {
    |answers| == |wire| && forall k :: 0 <= k < |wire| ==> OnWire(answers[k]) == wire[k]
  }

  /** Underruns are accounted only after a frame, so a run always starts with a packet. */
  lemma {:induction false} StartsWithPacket(packets: seq<Packet>)
    ensures AccountedIn(packets) != [] ==> AccountedIn(packets)[0].Got?
    ensures StateAfter(packets).jbufStarted ==> AccountedIn(packets) != []
  {
    if packets != [] {
      StartsWithPacket(packets[..|packets| - 1]);
    }
  }

  lemma {:induction false} StreamFollows(packets: seq<Packet>, answers: seq<Answer<int>>)
    requires Unwraps(answers, AccountedIn(packets))
    ensures StateAfter(packets).pseq == PseqAfter(answers)
  {
    hide LossOf, Wire;
    if packets != [] {
      var n := |packets| - 1;
      var a := Accounted(StateAfter(packets[..n]), packets[n]);
      if a == [] {
        StreamFollows(packets[..n], answers);
      } else {
        StreamFollows(packets[..n], answers[..|answers| - 1]);
      }
    }
  }

  /** A stream over any run of packets whose sequence numbers are orderly: the number it keeps is the one of
      the accounting, and that accounting is exact all the time if and only if the jitter buffer never runs
      dry while the number kept is above 100. Without a jitter buffer it always is. */
  lemma {:induction false} StreamExactIff(packets: seq<Packet>, answers: seq<Answer<int>>)
    requires Unwraps(answers, AccountedIn(packets)) && Orderly(answers)
    ensures StateAfter(packets).pseq == PseqAfter(answers)
    ensures AlwaysExact(answers) <==> Harmless(answers)
    ensures (forall k :: 0 <= k < |packets| ==> packets[k].buffered.NoBuffer?) ==> AlwaysExact(answers)
  {
    hide AlwaysExact, Highest, Wire;
    StreamFollows(packets, answers);
    AlwaysExactIff(answers);
    if forall k :: 0 <= k < |packets| ==> packets[k].buffered.NoBuffer? {
      NothingMissed(packets);
      assert forall k :: 0 <= k < |answers| ==> OnWire(answers[k]).Got?;
    }
  }

  lemma {:induction false} NothingMissed(packets: seq<Packet>)
    requires forall k :: 0 <= k < |packets| ==> packets[k].buffered.NoBuffer?
    ensures forall k :: 0 <= k < |AccountedIn(packets)| ==> AccountedIn(packets)[k].Got?
  {
    if packets != [] {
      NothingMissed(packets[..|packets| - 1]);
    }
  }

  // ---------- What the handler is called with ----------

  /** All calls of the handler over a run. */
  function CallsIn(packets: seq<Packet>): seq<Call> {
    if packets == [] then []
    else
      var n := |packets| - 1;
      CallsIn(packets[..n]) + Reported(StateAfter(packets[..n]), packets[n])
  }

  /** The sequence number in the header of each packet that was accounted. */
  function HeadersIn(packets: seq<Packet>): seq<uint16> {
    if packets == [] then []
    else
      var n := |packets| - 1;
      HeadersIn(packets[..n]) + (if Accounted(StateAfter(packets[..n]), packets[n]) == [] then [] else [packets[n].sq])
  }

  /** Answer n reveals a loss. */
  predicate Lossy(answers: seq<Answer<int>>, n: nat)
    requires n < |answers|
  {
    LastOutcome(answers[..n + 1]).lost > 0
  }

  function LossesIn(answers: seq<Answer<int>>): nat {
    if answers == [] then 0
    else LossesIn(answers[..|answers| - 1]) + (if LastOutcome(answers).lost > 0 then 1 else 0)
  }

  /** Where the call for answer n comes: after those for the answers before it and all losses revealed so far. */
  function Position(answers: seq<Answer<int>>, n: nat): nat
    requires n < |answers|
  {
    n + LossesIn(answers[..n + 1])
  }

  lemma {:induction false} CallCount(packets: seq<Packet>, answers: seq<Answer<int>>)
    requires Unwraps(answers, AccountedIn(packets))
    ensures |CallsIn(packets)| == |answers| + LossesIn(answers) && |HeadersIn(packets)| == |answers|
  {
    hide LossOf, Wire, NumberOf;
    if packets != [] {
      var n := |packets| - 1;
      if Accounted(StateAfter(packets[..n]), packets[n]) == [] {
        CallCount(packets[..n], answers);
      } else {
        CallCount(packets[..n], answers[..|answers| - 1]);
        StreamFollows(packets[..n], answers[..|answers| - 1]);
      }
    }
  }

  /** The call for answer n stands at its position, with its number and with a body unless it is an underrun;
      and directly before it, if it reveals a loss, one without a body and with the header of the packet that
      revealed it. */
  predicate InPlace(calls: seq<Call>, headers: seq<uint16>, answers: seq<Answer<int>>, n: nat)
    requires n < |answers| == |headers|
  {
    var at := Position(answers, n);
    && at < |calls|
    && calls[at] == Call(NumberOf(OnWire(answers[n])), answers[n].Got?)
    && (Lossy(answers, n) ==> at > 0 && calls[at - 1] == Call(headers[n], false))
  }

  lemma StaysInPlace(calls: seq<Call>, headers: seq<uint16>, answers: seq<Answer<int>>,
                     calls': seq<Call>, headers': seq<uint16>, answers': seq<Answer<int>>, n: nat)
    requires calls <= calls' && headers <= headers' && answers <= answers'
    requires n < |answers| == |headers| && |answers'| == |headers'|
    requires InPlace(calls, headers, answers, n)
    ensures InPlace(calls', headers', answers', n)
  {
    hide LastOutcome, LossesIn;
    assert answers[..n + 1] == answers'[..n + 1];
  }

  lemma LastInPlace(packets: seq<Packet>, answers: seq<Answer<int>>)
    requires packets != [] && Unwraps(answers, AccountedIn(packets))
    requires Accounted(StateAfter(packets[..|packets| - 1]), packets[|packets| - 1]) != []
    ensures |HeadersIn(packets)| == |answers| > 0
    ensures InPlace(CallsIn(packets), HeadersIn(packets), answers, |answers| - 1)
  {
    hide LossOf, Wire, NumberOf;
    var n, sooner := |packets| - 1, answers[..|answers| - 1];
    var st := StateAfter(packets[..n]);
    OneAccounted(st, packets[n]);
    var a := Accounted(st, packets[n])[0];
    hide Accounted;
    assert AccountedIn(packets) == AccountedIn(packets[..n]) + [a] && Unwraps(sooner, AccountedIn(packets[..n]));
    CallCount(packets[..n], sooner);
    StreamFollows(packets[..n], sooner);
    assert answers[..|answers|] == answers && OnWire(answers[|answers| - 1]) == a;
    assert LastOutcome(answers) == LossOf(st.pseq, NumberOf(a));
    hide AccountedIn, StateAfter, LastOutcome, Unwraps;
    assert LossesIn(answers) == LossesIn(sooner) + (if LastOutcome(answers).lost > 0 then 1 else 0);
    hide LossesIn;
    assert CallsIn(packets) == CallsIn(packets[..n]) + Reported(st, packets[n]);
    assert HeadersIn(packets) == HeadersIn(packets[..n]) + [packets[n].sq];
  }

  /** The calls are exactly these: one for each answer and one for each loss, all in place. */
  lemma {:induction false} CallsInOrder(packets: seq<Packet>, answers: seq<Answer<int>>, n: nat)
    requires Unwraps(answers, AccountedIn(packets)) && n < |answers|
    ensures |CallsIn(packets)| == |answers| + LossesIn(answers) && |HeadersIn(packets)| == |answers|
    ensures InPlace(CallsIn(packets), HeadersIn(packets), answers, n)
  {
    hide OnWire, Accounted, Reported, InPlace, LossesIn;
    CallCount(packets, answers);
    var before, last := packets[..|packets| - 1], packets[|packets| - 1];
    if Accounted(StateAfter(before), last) == [] {
      CallsInOrder(before, answers, n);
      StaysInPlace(CallsIn(before), HeadersIn(before), answers, CallsIn(packets), HeadersIn(packets), answers, n);
    } else {
      LastInPlace(packets, answers);
      if n < |answers| - 1 {
        var sooner := answers[..|answers| - 1];
        OneAccounted(StateAfter(before), last);
        assert Unwraps(sooner, AccountedIn(before));
        CallsInOrder(before, sooner, n);
        StaysInPlace(CallsIn(before), HeadersIn(before), sooner, CallsIn(packets), HeadersIn(packets), answers, n);
      }
    }
  }

  lemma OneAccounted(st: State, p: Packet)
    ensures |Accounted(st, p)| <= 1
  {}

  lemma FirstTaken(sq: uint16)
    ensures LossOf(NONE, sq) == Outcome(0, sq)
  {}

  /** In an orderly run a loss is reported exactly at a step of 2 to 2999 beyond the highest number so far, and
      it is the number of packets between: never at the first packet, at the next one in order, at a repeat, at
      a packet that comes late, or at a harmless underrun. */
  lemma LossyIff(answers: seq<Answer<int>>, n: nat)
    requires Orderly(answers) && Harmless(answers) && n < |answers|
    ensures Lossy(answers, n) <==> n > 0 && answers[n].Got? && answers[n].sq - Highest(answers[..n]) >= 2
    ensures Lossy(answers, n) ==> LastOutcome(answers[..n + 1]).lost == answers[n].sq - Highest(answers[..n]) - 1
  {
    hide LossOf, Wire, Highest;
    var upTo := answers[..n + 1];
    assert upTo[..n] == answers[..n];
    if n == 0 {
      FirstTaken(NumberOf(OnWire(answers[0])));
    } else {
      PrefixOrderly(answers, n);
      EveryNumberCounted(answers[..n]);
      var high := Highest(answers[..n]);
      if answers[n].Missed? {
        UnderrunRefusedIff(Wire(high));
      } else {
        var step := answers[n].sq - high;
        assert answers[n].sq == high + step;
        if step >= 1 {
          ForwardExactIff(high, step);
        } else {
          BehindRefusedIff(high, 0 - step);
        }
      }
    }
  }

  // ---------- Sources and statistics ----------

  /** The packets that are not ignored. */
  function Heard(packets: seq<Packet>): seq<Packet> {
    if packets == [] then []
    else
      var n := |packets| - 1;
      Heard(packets[..n]) + (if Ignored(packets[n]) then [] else [packets[n]])
  }

  /** The source of the last packet that was heard, 0 before the first. */
  function LastSource(packets: seq<Packet>): uint32 {
    var heard := Heard(packets);
    if heard == [] then 0 else heard[|heard| - 1].ssrc
  }

  predicate AnyFrame(packets: seq<Packet>) {
    exists k :: 0 <= k < |packets| && packets[k].buffered.Frame?
  }

  lemma AnyFrameAppend(packets: seq<Packet>, p: Packet)
    ensures AnyFrame(packets + [p]) <==> AnyFrame(packets) || p.buffered.Frame?
  {
    var all := packets + [p];
    if AnyFrame(packets) {
      var k :| 0 <= k < |packets| && packets[k].buffered.Frame?;
      assert all[k].buffered.Frame?;
    }
    assert all[|packets|] == p;
  }

  /** Over any run the stream has counted the packets it has heard, knows the source of the last one, and has
      started its jitter buffer with the first frame. */
  lemma {:induction false} StreamKnowsSource(packets: seq<Packet>)
    ensures StateAfter(packets).packets == |Heard(packets)| % 0x1_0000_0000
    ensures StateAfter(packets).ssrcRx == LastSource(packets)
    ensures StateAfter(packets).jbufStarted <==> AnyFrame(Heard(packets))
  {
    hide LossOf, NumberOf, AnyFrame;
    if packets == [] {
      NoFrame([]);
    } else {
      var n := |packets| - 1;
      StreamKnowsSource(packets[..n]);
      NextCount(|Heard(packets[..n])|);
      AnyFrameAppend(Heard(packets[..n]), packets[n]);
      var added := if Ignored(packets[n]) then [] else [packets[n]];
      assert Heard(packets) == Heard(packets[..n]) + added && Heard(packets[..n]) + [] == Heard(packets[..n]);
    }
  }

  lemma NoFrame(packets: seq<Packet>)
    requires packets == []
    ensures !AnyFrame(packets)
  {}

  lemma NextCount(n: nat)
    ensures (n % 0x1_0000_0000 + 1) % 0x1_0000_0000 == (n + 1) % 0x1_0000_0000
  {}

  /** So the jitter buffer is flushed exactly when a packet it gets comes from another source than the last one
      heard, unless that one had the source 0. */
  lemma FlushIff(packets: seq<Packet>, p: Packet)
    ensures Flushes(StateAfter(packets), p)
            <==> !Ignored(p) && !p.buffered.NoBuffer? && LastSource(packets) != 0 && p.ssrc != LastSource(packets)
  {
    hide StateAfter, LastSource;
    StreamKnowsSource(packets);
  }

  // ---------- Underruns ----------

  /** The accounting survives an underrun of the jitter buffer exactly when the last sequence number is at
      most 100: any other one is replaced by 0. */
  lemma UnderrunHarmlessIff(last: uint16)
    ensures LossOf(last, 0).pseq == last <==> last <= 100
  {
    DeltaOfStep(last, 0 - last);
    if last > 0 {
      assert (0 - last) % 0x1_0000 == 0x1_0000 - last;
    }
  }

  /** Above 100 it is taken as a packet. */
  lemma UnderrunRefusedIff(last: uint16)
    ensures Taken(LossOf(last, 0)) <==> last > 100
  {
    DeltaOfStep(last, 0 - last);
    if last > 0 {
      assert (0 - last) % 0x1_0000 == 0x1_0000 - last;
    }
  }

  /** What becomes of the next packet in order after such an underrun: it is counted right for some last
      numbers, reported as the end of a loss that never happened for others, and refused for the highest
      ones. The underrun itself reports a loss shortly before the 16-bit wrap. */
  lemma NextAfterUnderrun(last: uint16)
    ensures LossOf(last, 0).lost > 0 <==> 62536 < last < 0xffff
    ensures var next := Wire(last + 1);
            var o := LossOf(LossOf(last, 0).pseq, next);
            && (o == Outcome(0, next) <==> last <= 100 || 2999 <= last < 0xff9b)
            && (o.lost > 0 <==> 100 < last < 2999)
            && (100 < last < 2999 ==> o.lost == last)
            && (!Taken(o) <==> last >= 0xff9b)
  {
    UnderrunHarmlessIff(last);
    if last > 100 {
      assert Delta(last, 0) == 0x1_0000 - last && LossOf(last, 0).pseq == 0;
      assert Delta(0, Wire(last + 1)) == Wire(last + 1);
    }
  }
}
