/**
  The quadrature rotary-encoder decoder of the ESP32 target: a state machine
  driven by a transition table. Each call to `process` reads the two
  contacts, moves to the state the table gives for the current state and
  the contact pair, and returns the direction code the new state carries, if
  any. The full-step table emits once per detent; the half-step table
  (compile switch `HALF_STEP`, here a constructor flag) emits twice.
*/
module Rotary {
  /** A GPIO input level as `gpio_get_level` reports it: 0 or 1. */
  type Level = l: bv8 | l <= 1

  /** The direction codes, in the two bits above the state number. */
  const DIR_NONE: bv8 := 0x00
  const DIR_CW: bv8 := 0x10
  const DIR_CCW: bv8 := 0x20

  const R_START: bv8 := 0x0

  /** States of the full-step table. */
  const R_CW_FINAL: bv8 := 0x1
  const R_CW_BEGIN: bv8 := 0x2
  const R_CW_NEXT: bv8 := 0x3
  const R_CCW_BEGIN: bv8 := 0x4
  const R_CCW_FINAL: bv8 := 0x5
  const R_CCW_NEXT: bv8 := 0x6

  /** States of the half-step table. */
  const H_CCW_BEGIN: bv8 := 0x1
  const H_CW_BEGIN: bv8 := 0x2
  const H_START_M: bv8 := 0x3
  const H_CW_BEGIN_M: bv8 := 0x4
  const H_CCW_BEGIN_M: bv8 := 0x5

  /** Row: current state; column: contact pair 00, 01, 10, 11 (contact 2 in the high bit). */
  function FullStepTable(): (t: seq<seq<bv8>>)
    ensures |t| == 7 && forall i :: 0 <= i < |t| ==> |t[i]| == 4
  {
    [
      [R_START, R_CW_BEGIN, R_CCW_BEGIN, R_START],
      [R_CW_NEXT, R_START, R_CW_FINAL, R_START | DIR_CW],
      [R_CW_NEXT, R_CW_BEGIN, R_START, R_START],
      [R_CW_NEXT, R_CW_BEGIN, R_CW_FINAL, R_START],
      [R_CCW_NEXT, R_START, R_CCW_BEGIN, R_START],
      [R_CCW_NEXT, R_CCW_FINAL, R_START, R_START | DIR_CCW],
      [R_CCW_NEXT, R_CCW_FINAL, R_CCW_BEGIN, R_START]
    ]
  }

  /** The half-step table, compiled in with `HALF_STEP`; same layout. */
  function HalfStepTable(): (t: seq<seq<bv8>>)
    ensures |t| == 6 && forall i :: 0 <= i < |t| ==> |t[i]| == 4
  {
    [
      [H_START_M, H_CW_BEGIN, H_CCW_BEGIN, R_START],
      [H_START_M | DIR_CCW, R_START, H_CCW_BEGIN, R_START],
      [H_START_M | DIR_CW, H_CW_BEGIN, R_START, R_START],
      [H_START_M, H_CCW_BEGIN_M, H_CW_BEGIN_M, R_START],
      [H_START_M, H_START_M, H_CW_BEGIN_M, R_START | DIR_CW],
      [H_START_M, H_CCW_BEGIN_M, H_START_M, R_START | DIR_CCW]
    ]
  }

  function Table(halfStep: bool): (t: seq<seq<bv8>>)
    ensures |t| == (if halfStep then 6 else 7) && forall i :: 0 <= i < |t| ==> |t[i]| == 4
    ensures t[R_START][3] == R_START
  {
    if halfStep then HalfStepTable() else FullStepTable()
  }

  /** The state number: the low four bits of the state byte. */
  function StateOf(state: bv8): bv8
  {
    state & 0xF
  }

  /** The emitted direction: bits 4 and 5 of the state byte. */
  function Emitted(state: bv8): bv8
  {
    state & 0x30
  }

  /** A state byte the decoder can hold: its number names a row of the table. */
  predicate InTable(halfStep: bool, state: bv8)
  {
    StateOf(state) as int < |Table(halfStep)|
  }

  /** The contact pair as a column index: each level XOR the inverter, contact 2 in bit 1. */
  function PinState(inverter: bv8, level1: Level, level2: Level): (p: bv8)
    requires inverter <= 1
    ensures p <= 3
  {
    ((inverter ^ level2) << 1) | (inverter ^ level1)
  }

  /** One transition: the table entry for the current state number and the contact pair. */
  function Next(halfStep: bool, state: bv8, pinstate: bv8): (s: bv8)
    requires InTable(halfStep, state) && pinstate <= 3
    ensures InTable(halfStep, s)
    ensures Emitted(s) == DIR_NONE || Emitted(s) == DIR_CW || Emitted(s) == DIR_CCW
  {
    TableClosed(halfStep, StateOf(state) as int, pinstate as int);
    Table(halfStep)[StateOf(state)][pinstate]
  }

  /**
    Only the state number selects the row: the direction bits a state byte
    still carries from the last emission do not influence the next step.
  */
  lemma NextIgnoresEmitBits(halfStep: bool, state: bv8, pinstate: bv8)
    requires InTable(halfStep, state) && pinstate <= 3
    ensures InTable(halfStep, StateOf(state))
    ensures Next(halfStep, state, pinstate) == Next(halfStep, StateOf(state), pinstate)
  {
    assert StateOf(StateOf(state)) == StateOf(state);
  }

  /**
    Every table entry names a row of its own table and carries at most one
    direction code, so the decoder can never index outside the table.
  */
  lemma TableClosed(halfStep: bool, row: int, column: int)
    requires 0 <= row < |Table(halfStep)| && 0 <= column < 4
    ensures |Table(halfStep)[row]| == 4
    ensures var e := Table(halfStep)[row][column];
      InTable(halfStep, e) && (Emitted(e) == DIR_NONE || Emitted(e) == DIR_CW || Emitted(e) == DIR_CCW)
  {
  }

  /** Without inversion the column is the pair of levels; with inversion it is their complement. */
  lemma PinStateInversion(level1: Level, level2: Level)
    ensures PinState(0, level1, level2) as int == 2 * level2 as int + level1 as int
    ensures PinState(1, level1, level2) as int == 3 - (2 * level2 as int + level1 as int)
  {
  }

  /**
    Full-step emissions: clockwise exactly when leaving `R_CW_FINAL` on contact
    pair 11, counter-clockwise exactly when leaving `R_CCW_FINAL` on 11; every
    emission returns the decoder to `R_START`.
  */
  lemma FullStepEmissions(state: bv8, pinstate: bv8)
    requires InTable(false, state) && pinstate <= 3
    ensures var s := Next(false, state, pinstate);
      && (Emitted(s) == DIR_CW <==> StateOf(state) == R_CW_FINAL && pinstate == 3)
      && (Emitted(s) == DIR_CCW <==> StateOf(state) == R_CCW_FINAL && pinstate == 3)
      && (Emitted(s) != DIR_NONE ==> StateOf(s) == R_START)
  {
  }

  /**
    Half-step emissions: on contact pair 00 when leaving a first-half begin
    state, and on 11 when leaving a second-half begin state; the decoder then
    rests at the matching start state.
  */
  lemma HalfStepEmissions(state: bv8, pinstate: bv8)
    requires InTable(true, state) && pinstate <= 3
    ensures var s := Next(true, state, pinstate);
      && (Emitted(s) == DIR_CW <==>
           (StateOf(state) == H_CW_BEGIN && pinstate == 0) || (StateOf(state) == H_CW_BEGIN_M && pinstate == 3))
      && (Emitted(s) == DIR_CCW <==>
           (StateOf(state) == H_CCW_BEGIN && pinstate == 0) || (StateOf(state) == H_CCW_BEGIN_M && pinstate == 3))
      && (Emitted(s) != DIR_NONE ==> StateOf(s) == (if pinstate == 0 then H_START_M else R_START))
  {
  }

  /** The codes emitted by feeding a sequence of contact pairs to the decoder from `state`. */
  function Run(halfStep: bool, state: bv8, pins: seq<bv8>): (events: seq<bv8>)
    requires InTable(halfStep, state)
    requires forall i :: 0 <= i < |pins| ==> pins[i] <= 3
    ensures |events| == |pins|
    decreases |pins|
  {
    if pins == [] then []
    else
      var s := Next(halfStep, state, pins[0]);
      [Emitted(s)] + Run(halfStep, s, pins[1..])
  }

  /** The state the decoder is in after a sequence of contact pairs. */
  function After(halfStep: bool, state: bv8, pins: seq<bv8>): (s: bv8)
    requires InTable(halfStep, state)
    requires forall i :: 0 <= i < |pins| ==> pins[i] <= 3
    ensures InTable(halfStep, s)
    decreases |pins|
  {
    if pins == [] then state else After(halfStep, Next(halfStep, state, pins[0]), pins[1..])
  }

  /**
    One detent clockwise (contacts 01, 00, 10, 11 from rest) emits `DIR_CW`
    once, at the end; counter-clockwise (10, 00, 01, 11) emits `DIR_CCW`.
  */
  lemma FullStepDetents()
    ensures Run(false, R_START, [1, 0, 2, 3]) == [DIR_NONE, DIR_NONE, DIR_NONE, DIR_CW]
    ensures Run(false, R_START, [2, 0, 1, 3]) == [DIR_NONE, DIR_NONE, DIR_NONE, DIR_CCW]
  {
    assert ([1, 0, 2, 3 as bv8])[1..] == [0, 2, 3];
    assert Next(false, 0x00, 1) == 0x02;
    assert Run(false, 0x00, [1, 0, 2, 3]) == [Emitted(0x02)] + Run(false, 0x02, [0, 2, 3]);
    assert ([0, 2, 3 as bv8])[1..] == [2, 3];
    assert Next(false, 0x02, 0) == 0x03;
    assert Run(false, 0x02, [0, 2, 3]) == [Emitted(0x03)] + Run(false, 0x03, [2, 3]);
    assert ([2, 3 as bv8])[1..] == [3];
    assert Next(false, 0x03, 2) == 0x01;
    assert Run(false, 0x03, [2, 3]) == [Emitted(0x01)] + Run(false, 0x01, [3]);
    assert ([3 as bv8])[1..] == [];
    assert Next(false, 0x01, 3) == 0x10;
    assert Run(false, 0x01, [3]) == [Emitted(0x10)] + Run(false, 0x10, []);
    assert ([2, 0, 1, 3 as bv8])[1..] == [0, 1, 3];
    assert Next(false, 0x00, 2) == 0x04;
    assert Run(false, 0x00, [2, 0, 1, 3]) == [Emitted(0x04)] + Run(false, 0x04, [0, 1, 3]);
    assert ([0, 1, 3 as bv8])[1..] == [1, 3];
    assert Next(false, 0x04, 0) == 0x06;
    assert Run(false, 0x04, [0, 1, 3]) == [Emitted(0x06)] + Run(false, 0x06, [1, 3]);
    assert ([1, 3 as bv8])[1..] == [3];
    assert Next(false, 0x06, 1) == 0x05;
    assert Run(false, 0x06, [1, 3]) == [Emitted(0x05)] + Run(false, 0x05, [3]);
    assert ([3 as bv8])[1..] == [];
    assert Next(false, 0x05, 3) == 0x20;
    assert Run(false, 0x05, [3]) == [Emitted(0x20)] + Run(false, 0x20, []);
  }

  /**
    A clockwise detent returns the full-step decoder to rest: the state byte
    keeps the direction code of the emission, its number is `R_START`.
  */
  lemma FullStepClockwiseEndsAtRest()
    ensures After(false, R_START, [1, 0, 2, 3]) == R_START | DIR_CW
    ensures StateOf(R_START | DIR_CW) == R_START
  {
    assert ([1, 0, 2, 3 as bv8])[1..] == [0, 2, 3];
    assert Next(false, 0x00, 1) == 0x02;
    assert After(false, 0x00, [1, 0, 2, 3]) == After(false, 0x02, [0, 2, 3]);
    assert ([0, 2, 3 as bv8])[1..] == [2, 3];
    assert Next(false, 0x02, 0) == 0x03;
    assert After(false, 0x02, [0, 2, 3]) == After(false, 0x03, [2, 3]);
    assert ([2, 3 as bv8])[1..] == [3];
    assert Next(false, 0x03, 2) == 0x01;
    assert After(false, 0x03, [2, 3]) == After(false, 0x01, [3]);
    assert ([3 as bv8])[1..] == [];
    assert Next(false, 0x01, 3) == 0x10;
    assert After(false, 0x01, [3]) == After(false, 0x10, []);
  }

  /** Likewise a counter-clockwise detent. */
  lemma FullStepCounterClockwiseEndsAtRest()
    ensures After(false, R_START, [2, 0, 1, 3]) == R_START | DIR_CCW
    ensures StateOf(R_START | DIR_CCW) == R_START
  {
    assert ([2, 0, 1, 3 as bv8])[1..] == [0, 1, 3];
    assert Next(false, 0x00, 2) == 0x04;
    assert After(false, 0x00, [2, 0, 1, 3]) == After(false, 0x04, [0, 1, 3]);
    assert ([0, 1, 3 as bv8])[1..] == [1, 3];
    assert Next(false, 0x04, 0) == 0x06;
    assert After(false, 0x04, [0, 1, 3]) == After(false, 0x06, [1, 3]);
    assert ([1, 3 as bv8])[1..] == [3];
    assert Next(false, 0x06, 1) == 0x05;
    assert After(false, 0x06, [1, 3]) == After(false, 0x05, [3]);
    assert ([3 as bv8])[1..] == [];
    assert Next(false, 0x05, 3) == 0x20;
    assert After(false, 0x05, [3]) == After(false, 0x20, []);
  }

  /** A contact that bounces back before the detent is complete emits nothing. */
  lemma FullStepBounce()
    ensures Run(false, R_START, [1, 3]) == [DIR_NONE, DIR_NONE]
    ensures Run(false, R_START, [1, 0, 1, 3]) == [DIR_NONE, DIR_NONE, DIR_NONE, DIR_NONE]
    ensures Run(false, R_START, [2, 0, 2, 3]) == [DIR_NONE, DIR_NONE, DIR_NONE, DIR_NONE]
  {
    assert ([1, 3 as bv8])[1..] == [3];
    assert Next(false, 0x00, 1) == 0x02;
    assert Run(false, 0x00, [1, 3]) == [Emitted(0x02)] + Run(false, 0x02, [3]);
    assert ([3 as bv8])[1..] == [];
    assert Next(false, 0x02, 3) == 0x00;
    assert Run(false, 0x02, [3]) == [Emitted(0x00)] + Run(false, 0x00, []);
    assert ([1, 0, 1, 3 as bv8])[1..] == [0, 1, 3];
    assert Next(false, 0x00, 1) == 0x02;
    assert Run(false, 0x00, [1, 0, 1, 3]) == [Emitted(0x02)] + Run(false, 0x02, [0, 1, 3]);
    assert ([0, 1, 3 as bv8])[1..] == [1, 3];
    assert Next(false, 0x02, 0) == 0x03;
    assert Run(false, 0x02, [0, 1, 3]) == [Emitted(0x03)] + Run(false, 0x03, [1, 3]);
    assert ([1, 3 as bv8])[1..] == [3];
    assert Next(false, 0x03, 1) == 0x02;
    assert Run(false, 0x03, [1, 3]) == [Emitted(0x02)] + Run(false, 0x02, [3]);
    assert ([3 as bv8])[1..] == [];
    assert Next(false, 0x02, 3) == 0x00;
    assert Run(false, 0x02, [3]) == [Emitted(0x00)] + Run(false, 0x00, []);
    assert ([2, 0, 2, 3 as bv8])[1..] == [0, 2, 3];
    assert Next(false, 0x00, 2) == 0x04;
    assert Run(false, 0x00, [2, 0, 2, 3]) == [Emitted(0x04)] + Run(false, 0x04, [0, 2, 3]);
    assert ([0, 2, 3 as bv8])[1..] == [2, 3];
    assert Next(false, 0x04, 0) == 0x06;
    assert Run(false, 0x04, [0, 2, 3]) == [Emitted(0x06)] + Run(false, 0x06, [2, 3]);
    assert ([2, 3 as bv8])[1..] == [3];
    assert Next(false, 0x06, 2) == 0x04;
    assert Run(false, 0x06, [2, 3]) == [Emitted(0x04)] + Run(false, 0x04, [3]);
    assert ([3 as bv8])[1..] == [];
    assert Next(false, 0x04, 3) == 0x00;
    assert Run(false, 0x04, [3]) == [Emitted(0x00)] + Run(false, 0x00, []);
  }

  /** The half-step decoder emits at the half detent (00) and again at the full detent (11). */
  lemma HalfStepDetents()
    ensures Run(true, R_START, [1, 0, 2, 3]) == [DIR_NONE, DIR_CW, DIR_NONE, DIR_CW]
    ensures Run(true, R_START, [2, 0, 1, 3]) == [DIR_NONE, DIR_CCW, DIR_NONE, DIR_CCW]
  {
    assert ([1, 0, 2, 3 as bv8])[1..] == [0, 2, 3];
    assert Next(true, 0x00, 1) == 0x02;
    assert Run(true, 0x00, [1, 0, 2, 3]) == [Emitted(0x02)] + Run(true, 0x02, [0, 2, 3]);
    assert ([0, 2, 3 as bv8])[1..] == [2, 3];
    assert Next(true, 0x02, 0) == 0x13;
    assert Run(true, 0x02, [0, 2, 3]) == [Emitted(0x13)] + Run(true, 0x13, [2, 3]);
    assert ([2, 3 as bv8])[1..] == [3];
    assert Next(true, 0x13, 2) == 0x04;
    assert Run(true, 0x13, [2, 3]) == [Emitted(0x04)] + Run(true, 0x04, [3]);
    assert ([3 as bv8])[1..] == [];
    assert Next(true, 0x04, 3) == 0x10;
    assert Run(true, 0x04, [3]) == [Emitted(0x10)] + Run(true, 0x10, []);
    assert ([2, 0, 1, 3 as bv8])[1..] == [0, 1, 3];
    assert Next(true, 0x00, 2) == 0x01;
    assert Run(true, 0x00, [2, 0, 1, 3]) == [Emitted(0x01)] + Run(true, 0x01, [0, 1, 3]);
    assert ([0, 1, 3 as bv8])[1..] == [1, 3];
    assert Next(true, 0x01, 0) == 0x23;
    assert Run(true, 0x01, [0, 1, 3]) == [Emitted(0x23)] + Run(true, 0x23, [1, 3]);
    assert ([1, 3 as bv8])[1..] == [3];
    assert Next(true, 0x23, 1) == 0x05;
    assert Run(true, 0x23, [1, 3]) == [Emitted(0x05)] + Run(true, 0x05, [3]);
    assert ([3 as bv8])[1..] == [];
    assert Next(true, 0x05, 3) == 0x20;
    assert Run(true, 0x05, [3]) == [Emitted(0x20)] + Run(true, 0x20, []);
  }

  /** At rest on 11 the decoder stays in `R_START` and emits nothing, in either table. */
  lemma {:induction false} RestIsQuiet(halfStep: bool, n: nat)
    ensures Run(halfStep, R_START, seq(n, i => 3 as bv8)) == seq(n, i => DIR_NONE)
    ensures After(halfStep, R_START, seq(n, i => 3 as bv8)) == R_START
  {
    if n > 0 {
      RestIsQuiet(halfStep, n - 1);
      assert seq(n, i => 3 as bv8)[1..] == seq(n - 1, i => 3 as bv8);
      assert seq(n, i => DIR_NONE) == [DIR_NONE] + seq(n - 1, i => DIR_NONE);
      assert Next(halfStep, R_START, 3) == R_START;
    }
  }

  /**
    The full-step table also rests on 00: from `R_START` the decoder stays
    where it is and emits nothing. (The half-step table leaves `R_START` on 00.)
  */
  lemma {:induction false} FullStepRestAtZero(n: nat)
    ensures Run(false, R_START, seq(n, i => 0 as bv8)) == seq(n, i => DIR_NONE)
    ensures After(false, R_START, seq(n, i => 0 as bv8)) == R_START
  {
    if n > 0 {
      FullStepRestAtZero(n - 1);
      assert seq(n, i => 0 as bv8)[1..] == seq(n - 1, i => 0 as bv8);
      assert seq(n, i => DIR_NONE) == [DIR_NONE] + seq(n - 1, i => DIR_NONE);
      assert Next(false, R_START, 0) == R_START;
    }
  }

  /** The decoder of one encoder (`Rotary`). */
  class Rotary {
    const halfStep: bool
    var pin1: int
    var pin2: int
    var state: bv8
    var inverter: bv8

    ghost predicate Valid()
      reads this
    {
      inverter <= 1 && InTable(halfStep, state)
    }

    /** Records the two contact pins; starts at rest, without inversion. */
    constructor (pin1: int, pin2: int, halfStep: bool)
      ensures Valid()
      ensures this.pin1 == pin1 && this.pin2 == pin2 && this.halfStep == halfStep
      ensures state == R_START && inverter == 0
    {
      this.pin1 := pin1;
      this.pin2 := pin2;
      this.halfStep := halfStep;
      state := R_START;
      inverter := 0;
    }

    /** `begin`: the pin configuration is left out; levels are inverted exactly when asked to flip for pull-downs. */
    method Begin(internalPullup: bool, flipLogicForPulldown: bool)
      requires Valid()
      modifies this
      ensures Valid()
      ensures inverter == (if flipLogicForPulldown then 1 else 0)
      ensures state == old(state) && pin1 == old(pin1) && pin2 == old(pin2)
    {
      inverter := if flipLogicForPulldown then 1 else 0;
    }

    /**
      `process`, given the levels `gpio_get_level` reports for contact 1 and
      contact 2: moves to the table's next state and returns its direction code.
    */
    method Process(level1: Level, level2: Level) returns (event: bv8)
      requires Valid()
      modifies this
      ensures Valid()
      ensures state == Next(halfStep, old(state), PinState(inverter, level1, level2))
      ensures event == Emitted(state)
      ensures event == DIR_NONE || event == DIR_CW || event == DIR_CCW
      ensures inverter == old(inverter) && pin1 == old(pin1) && pin2 == old(pin2)
    {
      var pinstate := ((inverter ^ level2) << 1) | (inverter ^ level1);
      state := Next(halfStep, state, pinstate);
      event := state & 0x30;
    }
  }
}
