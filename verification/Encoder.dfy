/**
  The rotary-encoder pulse counter. Each rising edge on channel A runs one
  transition that reads channel B once: B high counts a forward step, B low a
  backward step. The level of B and the current millisecond tick are
  parameters here instead of pin reads and clock calls.
 */
module Encoder {
  import opened Wrappers
  import opened Modes

  /** The encoder's fields: both counters, the last direction (+1, -1, or 0
      when idle), the tick of the last pulse, and the two pin numbers. */
  datatype EncoderState = EncoderState(
    forward: int,
    backward: int,
    dir: int,
    lastPulse: nat,
    pinA: int,
    pinB: int)

  /** The invariant every reachable state keeps. */
  predicate Valid(s: EncoderState)
  {
    s.forward >= 0 && s.backward >= 0 && s.dir in {-1, 0, 1}
  }

  /** Number of pulses counted since the last reset. */
  function Total(s: EncoderState): int
  {
    s.forward + s.backward
  }

  /** The constructor: pins stored, every counter at its declared initial value. */
  function New(a: int, b: int): (s: EncoderState)
    ensures s.forward == 0 && s.backward == 0 && s.dir == 0 && s.lastPulse == 0
    ensures s.pinA == a && s.pinB == b
    ensures Valid(s)
  {
    EncoderState(0, 0, 0, 0, a, b)
  }

  /** One pulse on channel A, with channel B read as `bHigh` and the clock at `now`. */
  function HandlePulseA(s: EncoderState, bHigh: bool, now: nat): (s': EncoderState)
    ensures bHigh ==> s'.forward == s.forward + 1 && s'.backward == s.backward && s'.dir == 1
    ensures !bHigh ==> s'.backward == s.backward + 1 && s'.forward == s.forward && s'.dir == -1
    ensures Total(s') == Total(s) + 1
    ensures s'.dir != 0
    ensures s'.lastPulse == now
    ensures s'.pinA == s.pinA && s'.pinB == s.pinB
    ensures Valid(s) ==> Valid(s')
  {
    var counted :=
      if bHigh then s.(forward := s.forward + 1, dir := 1)
      else s.(backward := s.backward + 1, dir := -1);
    counted.(lastPulse := now)
  }

  /** Clears counters, direction and timestamp; the pins stay. */
  function Reset(s: EncoderState): (s': EncoderState)
    ensures s'.forward == 0 && s'.backward == 0 && s'.dir == 0 && s'.lastPulse == 0
    ensures s'.pinA == s.pinA && s'.pinB == s.pinB
    ensures s' == New(s.pinA, s.pinB)
    ensures forall m :: GetValue(s', m) == 0
  {
    s.(forward := 0, backward := 0, dir := 0, lastPulse := 0)
  }

  /** The value shown for a mode selector; an unknown selector yields 0. */
  function GetValue(s: EncoderState, mode: int): (v: int)
    ensures FromSelector(mode) == Some(Difference) ==> v == s.forward - s.backward
    ensures FromSelector(mode) == Some(ForwardOnly) ==> v == s.forward
    ensures FromSelector(mode) == Some(BackwardOnly) ==> v == s.backward
    ensures FromSelector(mode) == None ==> v == 0
    ensures Valid(s) ==> -Total(s) <= v <= Total(s)
  {
    if mode == 0 then s.forward - s.backward
    else if mode == 1 then s.forward
    else if mode == 2 then s.backward
    else 0
  }

  /** Resetting twice is the same as resetting once. */
  lemma ResetIdempotent(s: EncoderState)
    ensures Reset(Reset(s)) == Reset(s)
  {
  }

  /** In a valid state the difference reading is the forward reading minus the backward one,
      and both counter readings are non-negative. */
  lemma ReadingsAgree(s: EncoderState)
    requires Valid(s)
    ensures GetValue(s, 0) == GetValue(s, 1) - GetValue(s, 2)
    ensures GetValue(s, 1) >= 0 && GetValue(s, 2) >= 0
  {
  }

  // ---------------------------------------------------------------------------
  // Runs: the encoder driven by a sequence of events
  // ---------------------------------------------------------------------------

  /** What can happen to an encoder: a pulse on channel A, a reset, or a
      read of `getValue`, which a run treats as a no-op. */
  datatype Event = Pulse(bHigh: bool, now: nat) | ResetCmd | Read(mode: int)

  function Step(s: EncoderState, e: Event): EncoderState
  {
    match e
    case Pulse(b, t) => HandlePulseA(s, b, t)
    case ResetCmd => Reset(s)
    case Read(_) => s
  }

  /** The state after the events of `evs`, in order, starting from `s`. */
  function Run(s: EncoderState, evs: seq<Event>): EncoderState
    decreases |evs|
  {
    if evs == [] then s else Step(Run(s, evs[..|evs| - 1]), evs[|evs| - 1])
  }

  /** The events after the last reset of `evs`. */
  function SinceReset(evs: seq<Event>): seq<Event>
    decreases |evs|
  {
    if evs == [] then []
    else if evs[|evs| - 1].ResetCmd? then []
    else SinceReset(evs[..|evs| - 1]) + [evs[|evs| - 1]]
  }

  /** The number of pulses in `evs` that read channel B as `high`. */
  function CountPulses(evs: seq<Event>, high: bool): nat
    decreases |evs|
  {
    if evs == [] then 0
    else CountPulses(evs[..|evs| - 1], high)
         + (if evs[|evs| - 1].Pulse? && evs[|evs| - 1].bHigh == high then 1 else 0)
  }

  /** The last pulse of `evs`, if there is one. */
  function LastPulse(evs: seq<Event>): (r: Option<Event>)
    ensures r.Some? ==> r.value.Pulse?
    decreases |evs|
  {
    if evs == [] then None
    else if evs[|evs| - 1].Pulse? then Some(evs[|evs| - 1])
    else LastPulse(evs[..|evs| - 1])
  }

  /** The state the encoder should be in after `evs`, read off the history
      since the last reset: counters count pulses by direction, and direction
      and timestamp come from the last pulse (0 when there is none). */
  function Expected(a: int, b: int, evs: seq<Event>): EncoderState
  {
    var h := SinceReset(evs);
    var last := LastPulse(h);
    EncoderState(
      CountPulses(h, true),
      CountPulses(h, false),
      if last.None? then 0 else if last.value.bHigh then 1 else -1,
      if last.None? then 0 else last.value.now,
      a, b)
  }

  /** Every run from a fresh encoder ends in the state its history since the last reset predicts. */
  lemma {:induction false} RunMatchesHistory(a: int, b: int, evs: seq<Event>)
    ensures Run(New(a, b), evs) == Expected(a, b, evs)
    decreases |evs|
  {
    if evs != [] {
      var init := evs[..|evs| - 1];
      var e := evs[|evs| - 1];
      RunMatchesHistory(a, b, init);
      if !e.ResetCmd? {
        var h := SinceReset(init) + [e];
        assert SinceReset(evs) == h;
        assert h[..|h| - 1] == SinceReset(init);
      }
    }
  }

  /** Every state reachable from a valid state is valid. */
  lemma {:induction false} RunPreservesValid(s: EncoderState, evs: seq<Event>)
    requires Valid(s)
    ensures Valid(Run(s, evs))
    decreases |evs|
  {
    if evs != [] {
      RunPreservesValid(s, evs[..|evs| - 1]);
    }
  }

  /** Without a reset, the counters only grow, each by the number of pulses in
      its direction, and a pulse never sets the direction back to 0. */
  lemma {:induction false} CountersMonotone(s: EncoderState, evs: seq<Event>)
    requires forall i :: 0 <= i < |evs| ==> !evs[i].ResetCmd?
    ensures Run(s, evs).forward == s.forward + CountPulses(evs, true)
    ensures Run(s, evs).backward == s.backward + CountPulses(evs, false)
    ensures Run(s, evs).forward >= s.forward && Run(s, evs).backward >= s.backward
    ensures LastPulse(evs).Some? ==> Run(s, evs).dir != 0
    ensures LastPulse(evs).None? ==> Run(s, evs).dir == s.dir
    decreases |evs|
  {
    if evs != [] {
      CountersMonotone(s, evs[..|evs| - 1]);
    }
  }

  /** The events without the reads. */
  function DropReads(evs: seq<Event>): (r: seq<Event>)
    ensures forall i :: 0 <= i < |r| ==> !r[i].Read?
    decreases |evs|
  {
    if evs == [] then []
    else if evs[|evs| - 1].Read? then DropReads(evs[..|evs| - 1])
    else DropReads(evs[..|evs| - 1]) + [evs[|evs| - 1]]
  }

  /** Reads are no-ops in a run: dropping every read from a run leaves its final
      state the same. (`GetValue` itself is const because it only returns an
      integer computed from an immutable state.) */
  lemma {:induction false} ReadsLeaveStateUnchanged(s: EncoderState, evs: seq<Event>)
    ensures Run(s, evs) == Run(s, DropReads(evs))
    decreases |evs|
  {
    if evs != [] {
      var init := evs[..|evs| - 1];
      var e := evs[|evs| - 1];
      ReadsLeaveStateUnchanged(s, init);
      if !e.Read? {
        var d := DropReads(init) + [e];
        assert d[..|d| - 1] == DropReads(init);
      }
    }
  }
}
