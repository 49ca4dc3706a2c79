/** The in-band DTMF generator: a ring of tones and gaps that is filled two entries at a time and played
    one sample at a time. */
module Dtmf {
  import opened FixedPoint

  const MAX_DIGITS := 128
  const EINVAL := 22

  /** One queued tone or gap. The two frequencies stand for the oscillator coefficients. */
  datatype Entry = Entry(f0: uint16, f1: uint16, duration: uint16)

  const SILENCE := Entry(0, 0, 0)

  // ---------- Frequencies and durations ----------

  datatype Key = Key(f0: uint16, f1: uint16, key: uint8)

  const KEYS: seq<Key> := [
    Key(941, 1477, 35), Key(941, 1209, 42), Key(941, 1336, 48), Key(697, 1209, 49),
    Key(697, 1336, 50), Key(697, 1477, 51), Key(770, 1209, 52), Key(770, 1336, 53),
    Key(770, 1477, 54), Key(852, 1209, 55), Key(852, 1336, 56), Key(852, 1477, 57),
    Key(697, 1633, 65), Key(770, 1633, 66), Key(852, 1633, 67), Key(941, 1633, 68),
    Key(0, 0, 0)]

  /** The tone pair of a digit: that of its key, or of the terminating entry if there is no such key. */
  function Frequencies(digit: uint8, n: nat): Key
    requires n <= 16
    decreases 16 - n
  {
    if n == 16 || KEYS[n].key == digit then KEYS[n] else Frequencies(digit, n + 1)
  }

  /** The lookup finds the key of the digit if there is one, and no tone otherwise. */
  lemma {:induction false} FrequenciesFound(digit: uint8, n: nat, k: nat)
    requires n <= k <= 16
    ensures KEYS[k].key == digit ==> Frequencies(digit, n) == KEYS[k]
    ensures Frequencies(digit, n).key in {digit, 0}
    decreases 16 - n
  {
    KeysDistinct(n, k);
    if n < 16 && KEYS[n].key != digit {
      FrequenciesFound(digit, n + 1, if k > n then k else n + 1);
    }
  }

  lemma KeysDistinct(i: nat, j: nat)
    requires i <= 16 && j <= 16
    ensures KEYS[i].key == KEYS[j].key ==> i == j
  {}

  const ROWS: seq<uint16> := [697, 770, 852, 941]
  const COLUMNS: seq<uint16> := [1209, 1336, 1477, 1633]
  const KEYPAD: string := "123A456B789C*0#D"

  /** The keys form the keypad: each of the sixteen has the tone of its row and the tone of its column. */
  lemma KeypadGrid(row: nat, column: nat)
    requires row < 4 && column < 4
    ensures var digit: uint8 := KEYPAD[4 * row + column] as int;
            Frequencies(digit, 0) == Key(ROWS[row], COLUMNS[column], digit)
  {
    var digit: uint8 := KEYPAD[4 * row + column] as int;
    var k := KeyIndex(row, column);
    FrequenciesFound(digit, 0, k);
  }

  /** Where the table lists a key. */
  function KeyIndex(row: nat, column: nat): (k: nat)
    requires row < 4 && column < 4
    ensures k < 16 && KEYS[k] == Key(ROWS[row], COLUMNS[column], KEYPAD[4 * row + column] as int)
  {
    if column == 3 then 12 + row
    else if row < 3 then 3 * row + column + 3
    else if column == 0 then 1
    else if column == 1 then 2
    else 0
  }

  /** Where the keypad has a key of the table. */
  function Place(k: nat): (place: nat)
    requires k < 16
    ensures place < 16 && KEYS[k].key == KEYPAD[place] as int
  {
    if k >= 12 then 4 * (k - 12) + 3
    else if k >= 3 then 4 * ((k - 3) / 3) + (k - 3) % 3
    else if k == 0 then 14
    else 11 + k
  }

  lemma {:induction false} NotFound(digit: uint8, n: nat)
    requires n <= 16 && forall k :: 0 <= k < 16 ==> KEYS[k].key != digit
    ensures Frequencies(digit, n) == KEYS[16]
    decreases 16 - n
  {
    if n < 16 {
      NotFound(digit, n + 1);
    }
  }

  /** Any other digit is silent. */
  lemma NoSuchKey(digit: uint8)
    requires forall place :: 0 <= place < 16 ==> KEYPAD[place] as int != digit
    ensures Frequencies(digit, 0) == Key(0, 0, 0)
  {
    forall k | 0 <= k < 16
      ensures KEYS[k].key != digit
    {
      assert KEYPAD[Place(k)] as int != digit;
    }
    NotFound(digit, 0);
  }

  /** The duration that is asked for, in milliseconds: clipped, and a default for zero. */
  function Milliseconds(ms: uint16): uint16 {
    if ms > 0x1fff then 0x1fff else if ms == 0 then 40 else ms
  }

  /** Of the durations a tone can have, 1 to 8191 ms, it gets the nearest to the one given; zero means 40. */
  lemma NearestDuration(ms: uint16, other: uint16)
    requires 1 <= other <= 8191
    ensures 1 <= Milliseconds(ms) <= 8191 && Milliseconds(0) == 40
    ensures ms > 0 ==> (ms - Milliseconds(ms) <= if other <= ms then ms - other else other - ms)
    ensures ms > 0 ==> Milliseconds(ms) <= ms
  {}

  /** Milliseconds to samples, in a 16-bit variable: multiplied in 32 bits, divided, and cut to 16 bits. */
  function DurationOf(ms: uint16, sampleRate: uint32): uint16 {
    Milliseconds(ms) * sampleRate % 0x1_0000_0000 / 1000 % 0x1_0000
  }

  /** The duration in samples is the one asked for exactly when that fits the 16-bit variable: neither the
      32-bit product nor the narrowing ever goes wrong on its own. */
  lemma DurationExactIff(ms: uint16, sampleRate: uint32)
    ensures DurationOf(ms, sampleRate) == Milliseconds(ms) * sampleRate / 1000
            <==> Milliseconds(ms) * sampleRate / 1000 < 0x1_0000
  {
    hide Milliseconds;
    MulMono(0, Milliseconds(ms), sampleRate);
    var product := Milliseconds(ms) * sampleRate;
    if product < 0x1_0000_0000 {
      assert product % 0x1_0000_0000 == product;
    } else {
      assert product / 1000 >= 0x1_0000;
    }
  }

  /** A long tone at a high rate comes out at half its length: 131056 samples do not fit. */
  lemma LongToneCut()
    ensures Milliseconds(8191) * 16000 / 1000 == 131056 && DurationOf(8191, 16000) == 65520
  {}

  /** The default duration, the only one the in-band sender asks for, is exact at every audio rate. */
  lemma DefaultExactIff(sampleRate: uint32)
    ensures DurationOf(0, sampleRate) == sampleRate / 25 <==> sampleRate < 1638400
  {
    DurationExactIff(0, sampleRate);
  }

  // ---------- What is played ----------

  /** Sample `index` of an entry; index 0 restarts the oscillators. */
  datatype Sample = Sample(entry: Entry, index: nat)

  /** Every entry is played for at least one sample. */
  function Length(e: Entry): (n: nat)
    ensures n >= 1
  {
    if e.duration == 0 then 1 else e.duration
  }

  function EntrySamples(e: Entry): (s: seq<Sample>)
    ensures |s| == Length(e)
  {
    seq(Length(e), i requires 0 <= i < Length(e) => Sample(e, i))
  }

  function QueueSamples(queue: seq<Entry>): seq<Sample> {
    if queue == [] then [] else EntrySamples(queue[0]) + QueueSamples(queue[1..])
  }

  /** The unread entries, and how many samples of the first one have been played. */
  datatype Play = Play(queue: seq<Entry>, played: nat)

  predicate PlayOk(p: Play) {
    && |p.queue| < MAX_DIGITS
    && (if p.queue == [] then p.played == 0 else p.played <= Length(p.queue[0]))
  }

  /** What is still to be played. */
  function Pending(p: Play): seq<Sample>
    requires PlayOk(p)
  {
    if p.queue == [] then []
    else EntrySamples(p.queue[0])[p.played..] + QueueSamples(p.queue[1..])
  }

  function Queued(p: Play, tone: Entry, gap: Entry): Play {
    if |p.queue| >= MAX_DIGITS - 2 then p else p.(queue := p.queue + [tone, gap])
  }

  /** The state after a request for a sample. */
  function Played(p: Play): Play
    requires PlayOk(p)
  {
    if p.queue == [] then p
    else if p.played < Length(p.queue[0]) then p.(played := p.played + 1)
    else if |p.queue| == 1 then Play([], 0)
    else Play(p.queue[1..], 1)
  }

  /** The sample that answers a request, if there is one. */
  function Answer(p: Play): seq<Sample>
    requires PlayOk(p)
  {
    if p.queue == [] then []
    else if p.played < Length(p.queue[0]) then [Sample(p.queue[0], p.played)]
    else if |p.queue| == 1 then []
    else [Sample(p.queue[1], 0)]
  }

  // ---------- Any interleaving of digits and requests ----------

  datatype Op = Digit(digit: uint8, sampleRate: uint32, toneDuration: uint16, gapDuration: uint16) | Request

  function ToneOf(op: Op): Entry
    requires op.Digit?
  {
    var k := Frequencies(op.digit, 0);
    Entry(k.f0, k.f1, DurationOf(op.toneDuration, op.sampleRate))
  }

  function GapOf(op: Op): Entry
    requires op.Digit?
  {
    Entry(0, 0, DurationOf(op.gapDuration, op.sampleRate))
  }

  predicate Accepts(p: Play) {
    |p.queue| < MAX_DIGITS - 2
  }

  function Step(p: Play, op: Op): (after: Play)
    requires PlayOk(p)
    ensures PlayOk(after)
  {
    if op.Digit? then Queued(p, ToneOf(op), GapOf(op)) else Played(p)
  }

  function After(ops: seq<Op>): (p: Play)
    ensures PlayOk(p)
  {
    if ops == [] then Play([], 0) else Step(After(ops[..|ops| - 1]), ops[|ops| - 1])
  }

  /** Every tone and gap that was not refused, in order. */
  function Accepted(ops: seq<Op>): seq<Entry> {
    if ops == [] then []
    else
      var n := |ops| - 1;
      Accepted(ops[..n])
      + (if ops[n].Digit? && Accepts(After(ops[..n])) then [ToneOf(ops[n]), GapOf(ops[n])] else [])
  }

  /** Every sample that was delivered, in order. */
  function Delivered(ops: seq<Op>): seq<Sample> {
    if ops == [] then []
    else
      var n := |ops| - 1;
      Delivered(ops[..n]) + (if ops[n].Request? then Answer(After(ops[..n])) else [])
  }

  lemma NothingPending()
    ensures QueueSamples([]) == [] && Pending(Play([], 0)) == []
  {}

  lemma QueueHead(queue: seq<Entry>)
    requires queue != []
    ensures QueueSamples(queue) == EntrySamples(queue[0]) + QueueSamples(queue[1..])
  {}

  lemma Regroup(a: seq<Sample>, b: seq<Sample>, c: seq<Sample>)
    ensures (a + b) + c == a + (b + c)
  {}

  lemma {:induction false} QueueSamplesAppend(a: seq<Entry>, b: seq<Entry>)
    ensures QueueSamples(a + b) == QueueSamples(a) + QueueSamples(b)
  {
    hide QueueSamples, EntrySamples;
    if a == [] {
      NothingPending();
      assert a + b == b;
    } else {
      QueueSamplesAppend(a[1..], b);
      QueueHead(a);
      QueueHead(a + b);
      assert (a + b)[1..] == a[1..] + b;
      Regroup(EntrySamples(a[0]), QueueSamples(a[1..]), QueueSamples(b));
    }
  }

  lemma QueuedPending(p: Play, tone: Entry, gap: Entry)
    requires PlayOk(p)
    ensures Pending(Queued(p, tone, gap)) == Pending(p) + (if Accepts(p) then QueueSamples([tone, gap]) else [])
  {
    hide EntrySamples;
    if Accepts(p) {
      var longer := p.queue + [tone, gap];
      if p.queue == [] {
        assert longer == [tone, gap];
      } else {
        assert longer[1..] == p.queue[1..] + [tone, gap];
        QueueSamplesAppend(p.queue[1..], [tone, gap]);
      }
    }
  }

  lemma SampleAt(e: Entry, i: nat)
    requires i < Length(e)
    ensures EntrySamples(e)[i] == Sample(e, i)
  {}

  lemma EntryRest(e: Entry, i: nat)
    requires i < Length(e)
    ensures EntrySamples(e)[i..] == [Sample(e, i)] + EntrySamples(e)[i + 1..]
  {
    hide Length;
    SampleAt(e, i);
    hide EntrySamples;
    var all := EntrySamples(e);
    assert all[i..] == [all[i]] + all[i + 1..];
  }

  lemma PlayedPending(p: Play)
    requires PlayOk(p)
    ensures PlayOk(Played(p))
    ensures Pending(p) == Answer(p) + Pending(Played(p))
    ensures Answer(p) == [] ==> Pending(p) == []
  {
    hide Length, EntrySamples, QueueSamples;
    NothingPending();
    if p.queue != [] {
      var rest := p.queue[1..];
      if p.played < Length(p.queue[0]) {
        EntryRest(p.queue[0], p.played);
        Regroup([Sample(p.queue[0], p.played)], EntrySamples(p.queue[0])[p.played + 1..], QueueSamples(rest));
      } else {
        assert EntrySamples(p.queue[0])[p.played..] == [];
        if rest != [] {
          QueueHead(rest);
          EntryRest(rest[0], 0);
          assert EntrySamples(rest[0])[0..] == EntrySamples(rest[0]);
          Regroup([Sample(rest[0], 0)], EntrySamples(rest[0])[1..], QueueSamples(rest[1..]));
        }
      }
    }
  }

  /** First in, first out, exactly once: what has been delivered and what is still pending are together
      exactly the samples of the accepted tones and gaps. */
  lemma {:induction false} NothingLost(ops: seq<Op>)
    ensures QueueSamples(Accepted(ops)) == Delivered(ops) + Pending(After(ops))
  {
    hide QueueSamples, Pending, Queued, Played, Answer, ToneOf, GapOf;
    if ops == [] {
      NothingPending();
    } else {
      var n := |ops| - 1;
      var p, op := After(ops[..n]), ops[n];
      NothingLost(ops[..n]);
      if op.Digit? {
        var more := if Accepts(p) then QueueSamples([ToneOf(op), GapOf(op)]) else [];
        QueuedPending(p, ToneOf(op), GapOf(op));
        QueueSamplesAppend(Accepted(ops[..n]), [ToneOf(op), GapOf(op)]);
        assert Accepted(ops[..n]) + [] == Accepted(ops[..n]) && Delivered(ops[..n]) + [] == Delivered(ops[..n]);
        assert (Delivered(ops[..n]) + Pending(p)) + more == Delivered(ops[..n]) + (Pending(p) + more);
      } else {
        PlayedPending(p);
        assert Accepted(ops[..n]) + [] == Accepted(ops[..n]);
        assert Delivered(ops[..n]) + (Answer(p) + Pending(Played(p)))
            == (Delivered(ops[..n]) + Answer(p)) + Pending(Played(p));
      }
    }
  }

  predicate Ends(all: seq<Entry>, tail: seq<Entry>) {
    |tail| <= |all| && tail == all[|all| - |tail|..]
  }

  lemma EndsAppend(all: seq<Entry>, tail: seq<Entry>, more: seq<Entry>)
    requires Ends(all, tail)
    ensures Ends(all + more, tail + more)
  {}

  lemma EndsTail(all: seq<Entry>, tail: seq<Entry>)
    requires Ends(all, tail) && tail != []
    ensures Ends(all, tail[1..])
  {}

  /** A request keeps the queue or drops its first entry. */
  lemma PlayedQueue(p: Play)
    requires PlayOk(p)
    ensures Played(p).queue == p.queue || (p.queue != [] && Played(p).queue == p.queue[1..])
  {}

  /** The entries that have been read are a prefix of the accepted ones: the unread ones are the rest. */
  lemma {:induction false} UnreadAreLast(ops: seq<Op>)
    ensures Ends(Accepted(ops), After(ops).queue)
  {
    hide ToneOf, GapOf, Answer, Ends, Played;
    if ops == [] {
      EndsNothing();
    } else {
      var p, op := After(ops[..|ops| - 1]), ops[|ops| - 1];
      var before := Accepted(ops[..|ops| - 1]);
      UnreadAreLast(ops[..|ops| - 1]);
      assert before + [] == before;
      if op.Digit? {
        EndsAppend(before, p.queue, [ToneOf(op), GapOf(op)]);
      } else {
        PlayedQueue(p);
        if p.queue != [] {
          EndsTail(before, p.queue);
        }
      }
    }
  }

  lemma EndsNothing()
    ensures Ends([], [])
  {}

  /** Once a request is refused, every sample of every accepted digit has been delivered. */
  lemma RefusalMeansDone(ops: seq<Op>)
    requires Answer(After(ops)) == []
    ensures Delivered(ops) == QueueSamples(Accepted(ops))
  {
    hide QueueSamples, Pending;
    NothingLost(ops);
    PlayedPending(After(ops));
  }

  // ---------- The ring ----------

  predicate PlayedOut(p: Play) {
    p.queue != [] && p.played >= Length(p.queue[0])
  }

  /** The test for the end of an entry, with its first sample as a special case. */
  lemma LengthForm(e: Entry, n: nat)
    ensures (n != 0 && n >= e.duration) <==> n >= Length(e)
  {}

  lemma RingEmpty(input: nat, output: nat)
    requires input < MAX_DIGITS && output < MAX_DIGITS
    ensures (output - input) % MAX_DIGITS == 0 <==> input == output
  {}

  lemma RingStep(input: nat, output: nat)
    requires input < MAX_DIGITS && output < MAX_DIGITS && input != output
    ensures (output - input) % MAX_DIGITS >= 1
    ensures (output - (input + 1) % MAX_DIGITS) % MAX_DIGITS == (output - input) % MAX_DIGITS - 1
  {}

  /** Where n unread entries end, and when two more do not fit behind them. */
  lemma RingEnd(input: nat, output: nat)
    requires input < MAX_DIGITS && output < MAX_DIGITS
    ensures var n := (output - input) % MAX_DIGITS;
            && (input + n) % MAX_DIGITS == output
            && ((output + 1) % MAX_DIGITS == input <==> n == 127)
            && ((output + 2) % MAX_DIGITS == input <==> n == 126)
            && (n < 126 ==> ((output + 2) % MAX_DIGITS - input) % MAX_DIGITS == n + 2)
  {
    var n := if output >= input then output - input else output - input + MAX_DIGITS;
    assert (output - input) % MAX_DIGITS == n;
  }

  /** n entries of the ring, from a position on. */
  function Slice(state: seq<Entry>, from: nat, n: nat): (s: seq<Entry>)
    requires |state| == MAX_DIGITS
    ensures |s| == n
  {
    seq(n, i requires 0 <= i < n => state[(from + i) % MAX_DIGITS])
  }

  lemma NextSlot(from: nat, n: nat)
    ensures ((from + n) % MAX_DIGITS + 1) % MAX_DIGITS == (from + n + 1) % MAX_DIGITS
  {}

  lemma EmptyOk(p: Play)
    requires PlayOk(p) && p.queue == []
    ensures p == Play([], 0)
  {}

  lemma StartedOk(p: Play)
    requires PlayOk(p) && p.queue != []
    ensures p.played < Length(p.queue[0]) ==> PlayOk(p.(played := p.played + 1))
  {}

  lemma QueuedForm(p: Play, tone: Entry, gap: Entry)
    requires PlayOk(p) && Accepts(p)
    ensures PlayOk(Queued(p, tone, gap)) && Queued(p, tone, gap) == Play(p.queue + [tone, gap], p.played)
  {}

  lemma SliceAt(state: seq<Entry>, from: nat, n: nat, i: nat)
    requires |state| == MAX_DIGITS && i < n
    ensures Slice(state, from, n)[i] == state[(from + i) % MAX_DIGITS]
  {}

  lemma SliceTail(state: seq<Entry>, from: nat, n: nat)
    requires |state| == MAX_DIGITS && n > 0
    ensures Slice(state, from, n)[0] == state[from % MAX_DIGITS]
    ensures Slice(state, (from + 1) % MAX_DIGITS, n - 1) == Slice(state, from, n)[1..]
  {
    var tail, all := Slice(state, (from + 1) % MAX_DIGITS, n - 1), Slice(state, from, n);
    forall i | 0 <= i < n - 1
      ensures tail[i] == all[i + 1]
    {
      assert ((from + 1) % MAX_DIGITS + i) % MAX_DIGITS == (from + (i + 1)) % MAX_DIGITS;
    }
  }

  /** Two entries written behind the unread ones extend them, and overwrite none of them. */
  lemma SliceExtend(state: seq<Entry>, from: nat, n: nat, a: Entry, b: Entry)
    requires |state| == MAX_DIGITS && n + 2 < MAX_DIGITS
    ensures Slice(state[(from + n) % MAX_DIGITS := a][(from + n + 1) % MAX_DIGITS := b], from, n + 2)
            == Slice(state, from, n) + [a, b]
  {
    hide Slice;
    var after := state[(from + n) % MAX_DIGITS := a][(from + n + 1) % MAX_DIGITS := b];
    ModDistinct(from + n, from + n + 1, MAX_DIGITS);
    var long, short := Slice(after, from, n + 2), Slice(state, from, n);
    forall i | 0 <= i < n + 2
      ensures long[i] == (short + [a, b])[i]
    {
      SliceAt(after, from, n + 2, i);
      if i < n {
        SliceAt(state, from, n, i);
        ModDistinct(from + i, from + n, MAX_DIGITS);
        ModDistinct(from + i, from + n + 1, MAX_DIGITS);
      }
    }
  }

  /** The lookup loop. */
  method Lookup(digit: uint8) returns (key: Key)
    ensures key == Frequencies(digit, 0)
  {
    var n := 0;
    while KEYS[n].key != digit && KEYS[n].key != 0
      invariant 0 <= n <= 16 && Frequencies(digit, n) == Frequencies(digit, 0)
      decreases 16 - n
    {
      n := n + 1;
    }
    key := KEYS[n];
  }

  class Generator {
    const state: array<Entry>
    var inputPos: uint16
    var outputPos: uint16
    var duration: uint32

    ghost predicate Shape()
      reads this
    {
      state.Length == MAX_DIGITS && inputPos < MAX_DIGITS && outputPos < MAX_DIGITS
    }

    ghost function Unread(): (n: nat)
      requires Shape()
      reads this
    {
      (outputPos - inputPos) % MAX_DIGITS
    }

    /** The abstract value: the entries from the read position up to the write position. */
    ghost function Value(): Play
      requires Shape()
      reads this, state
    {
      Play(Slice(state[..], inputPos, Unread()), duration)
    }

    ghost predicate Valid()
      reads this, state
    {
      Shape() && PlayOk(Value())
    }

    constructor ()
      ensures Valid() && Value() == Play([], 0) && fresh(state)
    {
      state := new Entry[MAX_DIGITS](_ => SILENCE);
      inputPos, outputPos, duration := 0, 0, 0;
    }

    /** `dtmf_is_empty`. */
    method IsEmpty() returns (empty: bool)
      requires Valid()
      ensures empty <==> Value().queue == []
    {
      empty := inputPos == outputPos;
    }

    /** `dtmf_queue_digit`: appends the tone and its gap, or refuses and leaves everything as it was. */
    method QueueDigit(digit: uint8, sampleRate: uint32, toneDuration: uint16, gapDuration: uint16)
      returns (r: int)
      requires Valid()
      modifies this`outputPos, state
      ensures Valid()
      ensures var k := Frequencies(digit, 0);
              Value() == Queued(old(Value()), Entry(k.f0, k.f1, DurationOf(toneDuration, sampleRate)),
                                Entry(0, 0, DurationOf(gapDuration, sampleRate)))
      ensures Value() == Step(old(Value()), Digit(digit, sampleRate, toneDuration, gapDuration))
      ensures r == if |old(Value()).queue| >= MAX_DIGITS - 2 then -1 else 0
    {
      hide Slice, DurationOf, Length, Frequencies;
      var nextPos0 := (outputPos + 1) % MAX_DIGITS;
      var nextPos1 := (outputPos + 2) % MAX_DIGITS;
      RingEnd(inputPos, outputPos);
      if nextPos0 == inputPos || nextPos1 == inputPos {
        return -1;
      }
      var key := Lookup(digit);
      Append(Entry(key.f0, key.f1, DurationOf(toneDuration, sampleRate)),
             Entry(0, 0, DurationOf(gapDuration, sampleRate)));
      r := 0;
    }

    method Append(tone: Entry, gap: Entry)
      requires Valid() && Unread() < MAX_DIGITS - 2
      modifies this`outputPos, state
      ensures Valid() && Value() == Queued(old(Value()), tone, gap)
    {
      hide Slice, Length, PlayOk, Queued;
      ghost var unread, ring, before := Unread(), state[..], Value();
      QueuedForm(before, tone, gap);
      RingEnd(inputPos, outputPos);
      var nextPos0 := (outputPos + 1) % MAX_DIGITS;
      state[outputPos] := tone;
      state[nextPos0] := gap;
      outputPos := (outputPos + 2) % MAX_DIGITS;
      NextSlot(inputPos, unread);
      assert state[..] == ring[(inputPos + unread) % MAX_DIGITS := tone][(inputPos + unread + 1) % MAX_DIGITS := gap];
      SliceExtend(ring, inputPos, unread, tone, gap);
    }

    lemma Head()
      requires Shape() && inputPos != outputPos
      ensures Value().queue != [] && Value().queue[0] == state[inputPos]
    {
      hide Slice;
      RingStep(inputPos, outputPos);
      SliceTail(state[..], inputPos, Unread());
    }

    /** Moves on to the next entry. */
    method Advance()
      requires Valid() && inputPos != outputPos
      modifies this`inputPos, this`duration
      ensures Valid() && Value() == Play(old(Value()).queue[1..], 0) && Unread() < old(Unread())
    {
      hide Slice;
      RingStep(inputPos, outputPos);
      SliceTail(state[..], inputPos, Unread());
      duration := 0;
      inputPos := (inputPos + 1) % MAX_DIGITS;
    }

    /** `dtmf_get_sample`; the loop is the `goto top` of the source. */
    method GetSample() returns (err: int, sample: seq<Sample>)
      requires Valid()
      modifies this`inputPos, this`duration
      ensures Valid()
      ensures Value() == Played(old(Value())) == Step(old(Value()), Request)
      ensures sample == Answer(old(Value()))
      ensures err == if sample == [] then EINVAL else 0
    {
      hide Slice, Length, PlayOk;
      ghost var before := Value();
      err, sample := 0, [];
      while true
        invariant Valid()
        invariant Value() == before || (PlayedOut(before) && Value() == Play(before.queue[1..], 0))
        decreases Unread()
      {
        RingEmpty(inputPos, outputPos);
        if inputPos == outputPos {
          EmptyOk(Value());
          return EINVAL, [];
        }
        Head();
        LengthForm(state[inputPos], duration);
        if duration != 0 && duration >= state[inputPos].duration {
          Advance();
        } else {
          break;
        }
      }
      StartedOk(Value());
      sample := [Sample(state[inputPos], duration)];
      duration := duration + 1;
    }
  }
}
