/** The JTAG test access port: state machine, instruction and data scan paths. Registers are bit
    strings with the bit next to TDO first. */
module JtagTap {
  import opened ByteBits

  type Bits = seq<bool>

  /** The state codes. UPDATE_IR and TEST_LOGIC_RESET share the code 0000, here `Reset`; the code
      1001 has no name and falls to the default arm. */
  datatype TapState =
    | Reset | RunTestIdle
    | SelectDr | CaptureDr | ShiftDr | Exit1Dr | PauseDr | Exit2Dr | UpdateDr
    | SelectIr | CaptureIr | ShiftIr | Exit1Ir | PauseIr | Exit2Ir
    | Unnamed

  function NextState(s: TapState, tms: bool): TapState {
    match s
    case Reset => if tms then Reset else RunTestIdle
    case RunTestIdle => if tms then SelectDr else RunTestIdle
    case SelectDr => if tms then SelectIr else CaptureDr
    case CaptureDr => if tms then Exit1Dr else ShiftDr
    case ShiftDr => if tms then Exit1Dr else ShiftDr
    case Exit1Dr => if tms then UpdateDr else PauseDr
    case PauseDr => if tms then Exit2Dr else PauseDr
    case Exit2Dr => if tms then UpdateDr else ShiftDr
    case UpdateDr => if tms then SelectDr else RunTestIdle
    case SelectIr => if tms then Reset else CaptureIr
    case CaptureIr => if tms then Exit1Ir else ShiftIr
    case ShiftIr => if tms then Exit1Ir else ShiftIr
    case Exit1Ir => if tms then Reset else PauseIr
    case PauseIr => if tms then Exit2Ir else PauseIr
    case Exit2Ir => if tms then Reset else ShiftIr
    case Unnamed => Reset
  }

  /** The low `width` bits of `n`, lowest first. */
  function FromNat(n: nat, width: nat): (b: Bits)
    ensures |b| == width
  {
    if width == 0 then [] else [n % 2 == 1] + FromNat(n / 2, width - 1)
  }

  const IDCODE := FromNat(0x04ECE001, 32)
  const UNKNOWN := FromNat(0xDEADBEEF, 32)
  const IDCODE_INSTR := FromNat(1, 4)
  const BYPASS_INSTR := FromNat(15, 4)
  const DEBUG_INSTR := FromNat(4, 4)

  datatype Line = Driven(bit: bool) | HighZ

  datatype Input = Input(tms: bool, tdi: bool, debugIn: Bits)

  datatype State = State(
    tap: TapState, instruction: Bits, irShift: Bits, drShift: Bits, bypass: Bits,
    data: Bits, debugOut: Bits, tdo: Line)
  {
    predicate WellFormed() {
      |instruction| == |irShift| == 4 && |drShift| == |bypass| == |data| == |debugOut| == 32
    }
  }

  predicate ValidInputs(ins: seq<Input>) {
    forall k :: 0 <= k < |ins| ==> |ins[k].debugIn| == 32
  }

  /** What CAPTURE_DR loads. */
  function Captured(s: State, i: Input): (b: Bits)
    requires s.WellFormed() && |i.debugIn| == 32
    ensures |b| == 32
  {
    if s.instruction == IDCODE_INSTR then IDCODE
    else if s.instruction == BYPASS_INSTR then s.bypass
    else if s.instruction == DEBUG_INSTR then i.debugIn
    else UNKNOWN
  }

  /** TDO outside the shift and update states. */
  function IdleTdo(s: State, i: Input): Line
    requires s.WellFormed()
  {
    if s.instruction == IDCODE_INSTR || s.instruction == DEBUG_INSTR then Driven(s.drShift[0])
    else if s.instruction == BYPASS_INSTR then Driven(i.tdi)
    else HighZ
  }

  /** One rising edge of TCK without TRST. */
  function Clock(s: State, i: Input): (s': State)
    requires s.WellFormed() && |i.debugIn| == 32
    ensures s'.WellFormed()
  {
    var n := s.(tap := NextState(s.tap, i.tms));
    match s.tap
    case CaptureIr => n.(irShift := s.instruction)
    case ShiftIr => n.(irShift := s.irShift[1..] + [i.tdi], tdo := Driven(s.irShift[0]))
    case Reset => n.(instruction := s.irShift)
    case CaptureDr => n.(drShift := Captured(s, i))
    case ShiftDr =>
      n.(drShift := s.drShift[1..] + [i.tdi], tdo := Driven(s.drShift[0]),
         bypass := if s.instruction == BYPASS_INSTR then s.bypass[1..] + [i.tdi] else s.bypass)
    case UpdateDr =>
      n.(data := s.drShift, debugOut := if s.instruction == DEBUG_INSTR then s.drShift else s.debugOut)
    case _ => n.(tdo := IdleTdo(s, i))
  }

  /** The registers as clocked hardware. */
  class Tap {
    var tap: TapState
    var instruction: Bits
    var irShift: Bits
    var drShift: Bits
    var bypass: Bits
    var data: Bits
    var debugOut: Bits
    var tdo: Line

    ghost function Registers(): State
      reads this
    {
      State(tap, instruction, irShift, drShift, bypass, data, debugOut, tdo)
    }

    /** Registers without a reset value hold anything of their width. */
    constructor (s: State)
      requires s.WellFormed()
      ensures Registers() == s
    {
      tap, instruction, irShift, drShift := s.tap, s.instruction, s.irShift, s.drShift;
      bypass, data, debugOut, tdo := s.bypass, s.data, s.debugOut, s.tdo;
    }

    /** Asynchronous reset: the instruction register itself is not reset. */
    method Trst()
      requires Registers().WellFormed()
      modifies this
      ensures Registers() == old(Registers()).(
        tap := Reset, irShift := IDCODE_INSTR, drShift := FromNat(0, 32), data := FromNat(0, 32))
      ensures Registers().WellFormed()
    {
      tap := Reset;
      irShift := IDCODE_INSTR;
      drShift, data := FromNat(0, 32), FromNat(0, 32);
    }

    /** The inner case of CAPTURE_DR. */
    method CaptureData(i: Input)
      requires Registers().WellFormed() && |i.debugIn| == 32
      modifies this`drShift
      ensures drShift == Captured(old(Registers()), i)
    {
      hide FromNat;
      if instruction == IDCODE_INSTR {
        drShift := IDCODE;
      } else if instruction == BYPASS_INSTR {
        drShift := bypass;
      } else if instruction == DEBUG_INSTR {
        drShift := i.debugIn;
      } else {
        drShift := UNKNOWN;
      }
    }

    /** TDO in the default arm. */
    method ShowIdle(i: Input)
      requires Registers().WellFormed()
      modifies this`tdo
      ensures tdo == IdleTdo(old(Registers()), i)
    {
      hide FromNat;
      if instruction == IDCODE_INSTR || instruction == DEBUG_INSTR {
        tdo := Driven(drShift[0]);
      } else if instruction == BYPASS_INSTR {
        tdo := Driven(i.tdi);
      } else {
        tdo := HighZ;
      }
    }

    method Tck(i: Input)
      requires Registers().WellFormed() && |i.debugIn| == 32
      modifies this
      ensures Registers() == Clock(old(Registers()), i)
    {
      hide FromNat, NextState, Captured, IdleTdo;
      if tap == ShiftDr && instruction == BYPASS_INSTR {
        bypass := bypass[1..] + [i.tdi];
      }
      match tap {
        case CaptureIr => irShift := instruction;
        case ShiftIr => irShift, tdo := irShift[1..] + [i.tdi], Driven(irShift[0]);
        case Reset => instruction := irShift;
        case CaptureDr => CaptureData(i);
        case ShiftDr => drShift, tdo := drShift[1..] + [i.tdi], Driven(drShift[0]);
        case UpdateDr =>
          data := drShift;
          if instruction == DEBUG_INSTR {
            debugOut := drShift;
          }
        case _ => ShowIdle(i);
      }
      tap := NextState(tap, i.tms);
    }
  }

  // ---------------------------------------------------------------------------------------
  // Runs
  // ---------------------------------------------------------------------------------------

  function Run(s: State, ins: seq<Input>): (s': State)
    requires s.WellFormed() && ValidInputs(ins)
    ensures s'.WellFormed()
  {
    if ins == [] then s else Clock(Run(s, ins[..|ins| - 1]), ins[|ins| - 1])
  }

  /** Which of the two scan columns a state belongs to. */
  datatype Column = Dr | Ir

  function ShiftState(c: Column): TapState {
    if c == Dr then ShiftDr else ShiftIr
  }

  predicate Scanning(c: Column, t: TapState) {
    if c == Dr then t in {ShiftDr, Exit1Dr, PauseDr, Exit2Dr}
    else t in {ShiftIr, Exit1Ir, PauseIr, Exit2Ir}
  }

  function Chain(c: Column, s: State): Bits {
    if c == Dr then s.drShift else s.irShift
  }

  /** Starting from a state of the scan column, every clock of `ins` but the last leads to one of
      its states again: shifts and pauses in any order and number. */
  predicate StaysScanning(c: Column, s: State, ins: seq<Input>)
    requires s.WellFormed() && ValidInputs(ins)
  {
    forall k :: 0 <= k < |ins| ==> Scanning(c, Run(s, ins[..k]).tap)
  }

  /** The TDI bits sampled by the shift clocks. */
  function ShiftedIn(c: Column, s: State, ins: seq<Input>): Bits
    requires s.WellFormed() && ValidInputs(ins)
  {
    if ins == [] then []
    else
      var n := |ins| - 1;
      ShiftedIn(c, s, ins[..n]) + if Run(s, ins[..n]).tap == ShiftState(c) then [ins[n].tdi] else []
  }

  /** What TDO shows right after each shift clock. */
  function ShiftedOut(c: Column, s: State, ins: seq<Input>): seq<Line>
    requires s.WellFormed() && ValidInputs(ins)
  {
    if ins == [] then []
    else
      var n := |ins| - 1;
      ShiftedOut(c, s, ins[..n]) + if Run(s, ins[..n]).tap == ShiftState(c) then [Run(s, ins).tdo] else []
  }

  function Lines(bits: Bits): (ls: seq<Line>)
    ensures |ls| == |bits| && forall k :: 0 <= k < |bits| ==> ls[k] == Driven(bits[k])
  {
    seq(|bits|, k requires 0 <= k < |bits| => Driven(bits[k]))
  }

  /** A clock in the scan column shifts the chain or leaves it alone. */
  lemma {:induction false} ClockInColumn(c: Column, s: State, i: Input)
    requires s.WellFormed() && |i.debugIn| == 32 && Scanning(c, s.tap)
    ensures Chain(c, Clock(s, i)) ==
      if s.tap == ShiftState(c) then Chain(c, s)[1..] + [i.tdi] else Chain(c, s)
    ensures s.tap == ShiftState(c) ==> Clock(s, i).tdo == Driven(Chain(c, s)[0])
  {
    hide FromNat, NextState, Captured, IdleTdo;
  }

  /** A delay line that held `chain`, was fed `input` and gave `out`, and now holds `now`. */
  ghost predicate Delayed(chain: Bits, input: Bits, out: seq<Line>, now: Bits) {
    var stream := chain + input;
    out == Lines(stream[..|input|]) && now == stream[|input|..]
  }

  lemma {:induction false} DelayedNone(chain: Bits)
    ensures Delayed(chain, [], [], chain)
  {
    assert chain + [] == chain;
  }

  /** One more bit through a delay line of at least one cell. */
  lemma {:induction false} DelayedStep(chain: Bits, input: Bits, out: seq<Line>, now: Bits, x: bool)
    requires chain != [] && Delayed(chain, input, out, now)
    ensures now != [] && Delayed(chain, input + [x], out + [Driven(now[0])], now[1..] + [x])
  {
    var stream, m := chain + input, |input|;
    assert chain + (input + [x]) == stream + [x];
    assert (stream + [x])[..m + 1] == stream[..m] + [stream[m]];
    assert (stream + [x])[m + 1..] == stream[m..][1..] + [x];
  }

  lemma {:induction false} StaysScanningFront(c: Column, s: State, ins: seq<Input>)
    requires s.WellFormed() && ValidInputs(ins) && ins != [] && StaysScanning(c, s, ins)
    ensures var front := ins[..|ins| - 1];
      ValidInputs(front) && StaysScanning(c, s, front) && Scanning(c, Run(s, front).tap)
  {
    var front := ins[..|ins| - 1];
    forall k | 0 <= k < |front|
      ensures Scanning(c, Run(s, front[..k]).tap)
    {
      assert front[..k] == ins[..k];
    }
  }

  /** The scan path is a delay line: whatever the pauses, TDO plays the captured bits followed by
      the bits shifted in, and the chain holds the rest. */
  lemma {:induction false} ScanIsDelayLine(c: Column, s: State, ins: seq<Input>)
    requires s.WellFormed() && ValidInputs(ins) && StaysScanning(c, s, ins)
    ensures Delayed(Chain(c, s), ShiftedIn(c, s, ins), ShiftedOut(c, s, ins), Chain(c, Run(s, ins)))
  {
    hide FromNat, Clock, StaysScanning, Scanning, Chain, ShiftState, Lines, Delayed;
    ChainNotEmpty(c, s);
    if ins == [] {
      DelayedNone(Chain(c, s));
    } else {
      var n := |ins| - 1;
      StaysScanningFront(c, s, ins);
      ScanIsDelayLine(c, s, ins[..n]);
      var s' := Run(s, ins[..n]);
      ClockInColumn(c, s', ins[n]);
      var input, out := ShiftedIn(c, s, ins[..n]), ShiftedOut(c, s, ins[..n]);
      DelayedStep(Chain(c, s), input, out, Chain(c, s'), ins[n].tdi);
      assert input + [] == input && out + [] == out;
    }
  }

  lemma {:induction false} ChainNotEmpty(c: Column, s: State)
    requires s.WellFormed()
    ensures Chain(c, s) != []
  {
  }

  /** A whole data scan, from the capture clock to the update clock: `data_register` receives the
      last 32 bits of captured bits followed by TDI bits. The delay is 32 for every instruction,
      BYPASS included. */
  lemma {:induction false} DataScan(s: State, capture: Input, ins: seq<Input>, update: Input)
    requires s.WellFormed() && |capture.debugIn| == |update.debugIn| == 32 && ValidInputs(ins)
    requires s.tap == CaptureDr
    requires var s1 := Clock(s, capture); StaysScanning(Dr, s1, ins) && Run(s1, ins).tap == UpdateDr
    ensures var s1 := Clock(s, capture);
      var input := ShiftedIn(Dr, s1, ins);
      var stream := Captured(s, capture) + input;
      ShiftedOut(Dr, s1, ins) == Lines(stream[..|input|]) &&
      Clock(Run(s1, ins), update).data == stream[|stream| - 32..]
  {
    hide FromNat, NextState, StaysScanning, Lines;
    ScanIsDelayLine(Dr, Clock(s, capture), ins);
  }

  /** A whole instruction scan: the update clock loads the last 4 bits of the old instruction
      followed by TDI bits. */
  lemma {:induction false} InstructionScan(s: State, capture: Input, ins: seq<Input>, update: Input)
    requires s.WellFormed() && |capture.debugIn| == |update.debugIn| == 32 && ValidInputs(ins)
    requires s.tap == CaptureIr
    requires var s1 := Clock(s, capture); StaysScanning(Ir, s1, ins) && Run(s1, ins).tap == Reset
    ensures var s1 := Clock(s, capture);
      var input := ShiftedIn(Ir, s1, ins);
      var stream := s.instruction + input;
      ShiftedOut(Ir, s1, ins) == Lines(stream[..|input|]) &&
      Clock(Run(s1, ins), update).instruction == stream[|stream| - 4..]
  {
    ScanIsDelayLine(Ir, Clock(s, capture), ins);
  }

  // ---------------------------------------------------------------------------------------
  // Whole transactions
  // ---------------------------------------------------------------------------------------

  /** The number a register holds. */
  function Value(b: Bits): nat {
    if b == [] then 0 else (if b[0] then 1 else 0) + 2 * Value(b[1..])
  }

  lemma {:induction false} ValueOfNat(n: nat, width: nat)
    requires n < Power2(width)
    ensures Value(FromNat(n, width)) == n
  {
    if width > 0 {
      ValueOfNat(n / 2, width - 1);
    }
  }

  lemma {:induction false} ValueDetermines(a: Bits, b: Bits)
    requires |a| == |b| && Value(a) == Value(b)
    ensures a == b
  {
    if a != [] {
      ValueDetermines(a[1..], b[1..]);
      assert a == [a[0]] + a[1..] && b == [b[0]] + b[1..];
    }
  }

  lemma {:induction false} Power32()
    ensures Power2(4) == 16 && Power2(32) == 0x1_0000_0000
  {
    assert Power2(8) == 0x100 && Power2(12) == 0x1000 && Power2(16) == 0x1_0000;
    assert Power2(20) == 0x10_0000 && Power2(24) == 0x100_0000 && Power2(28) == 0x1000_0000;
  }

  /** The instruction register holds code `n`. */
  lemma {:induction false} CodeIs(b: Bits, n: nat)
    requires |b| == 4 && n < 16
    ensures b == FromNat(n, 4) <==> Value(b) == n
  {
    hide FromNat, Value;
    Power32();
    ValueOfNat(n, 4);
    if Value(b) == n {
      ValueDetermines(b, FromNat(n, 4));
    }
  }

  /** What is scanned out first, by instruction code. */
  predicate CapturedFor(code: nat, bypass: Bits, debugIn: Bits, word: Bits) {
    |word| == 32 &&
    (code == 1 ==> Value(word) == 0x04EC_E001) && (code == 15 ==> word == bypass) &&
    (code == 4 ==> word == debugIn) && (code !in {1, 4, 15} ==> Value(word) == 0xDEAD_BEEF)
  }

  lemma {:induction false} CapturedByCode(s: State, i: Input)
    requires s.WellFormed() && |i.debugIn| == 32
    ensures CapturedFor(Value(s.instruction), s.bypass, i.debugIn, Captured(s, i))
  {
    hide FromNat, Value;
    CodeIs(s.instruction, 1);
    CodeIs(s.instruction, 15);
    CodeIs(s.instruction, 4);
    Power32();
    ValueOfNat(0x04EC_E001, 32);
    ValueOfNat(0xDEAD_BEEF, 32);
  }

  /** TDO outside capture, shift and update: the chain's first cell for codes 1 and 4, TDI for BYPASS,
      otherwise undriven. */
  lemma {:induction false} TdoBetweenScans(s: State, i: Input)
    requires s.WellFormed() && |i.debugIn| == 32
    requires s.tap !in {Reset, CaptureDr, ShiftDr, UpdateDr, CaptureIr, ShiftIr}
    ensures Clock(s, i).tdo ==
      if Value(s.instruction) in {1, 4} then Driven(s.drShift[0])
      else if Value(s.instruction) == 15 then Driven(i.tdi) else HighZ
  {
    hide FromNat, Value;
    CodeIs(s.instruction, 1);
    CodeIs(s.instruction, 15);
    CodeIs(s.instruction, 4);
  }

  /** The registers a reset selects. */
  lemma {:induction false} ResetValues()
    ensures Value(IDCODE_INSTR) == 1 && Value(FromNat(0, 32)) == 0
  {
    hide FromNat, Value;
    Power32();
    ValueOfNat(1, 4);
    ValueOfNat(0, 32);
  }

  function Walk(t: TapState, tms: seq<bool>): TapState {
    if tms == [] then t else NextState(Walk(t, tms[..|tms| - 1]), tms[|tms| - 1])
  }

  function Lows(n: nat): (tms: seq<bool>)
    ensures |tms| == n && forall k :: 0 <= k < n ==> !tms[k]
  {
    seq(n, _ => false)
  }

  lemma {:induction false} WalkNothing(t: TapState)
    ensures Walk(t, []) == t
  {
  }

  lemma {:induction false} WalkSnoc(t: TapState, tms: seq<bool>, x: bool)
    ensures Walk(t, tms + [x]) == NextState(Walk(t, tms), x)
  {
    assert (tms + [x])[..|tms|] == tms;
  }

  lemma {:induction false} WalkStays(t: TapState, tms: seq<bool>, n: nat)
    requires NextState(Walk(t, tms), false) == Walk(t, tms)
    ensures Walk(t, tms + Lows(n)) == Walk(t, tms)
  {
    hide Walk, NextState;
    if n == 0 {
      assert tms + Lows(0) == tms;
    } else {
      WalkStays(t, tms, n - 1);
      assert tms + Lows(n) == tms + Lows(n - 1) + [false];
      WalkSnoc(t, tms + Lows(n - 1), false);
    }
  }

  function CaptureState(c: Column): TapState {
    if c == Dr then CaptureDr else CaptureIr
  }

  /** The way into a column and, with any number of repetitions, around it: every state of the column is
      reached, and the way back to where data and instruction wait to be updated. */
  lemma {:induction false} Routes(c: Column, a: nat, b: nat)
    ensures var enter := if c == Dr then [true, false] else [true, true, false];
      var shift := enter + [false] + Lows(a);
      var pause := shift + [true] + [false] + Lows(b);
      Walk(Reset, [false] + Lows(a)) == RunTestIdle && Walk(RunTestIdle, Lows(a)) == RunTestIdle &&
      Walk(RunTestIdle, [true]) == SelectDr && Walk(RunTestIdle, [true, true]) == SelectIr &&
      Walk(RunTestIdle, enter) == CaptureState(c) && Walk(RunTestIdle, shift) == ShiftState(c) &&
      Walk(RunTestIdle, shift + [true]) == (if c == Dr then Exit1Dr else Exit1Ir) &&
      Walk(RunTestIdle, pause) == (if c == Dr then PauseDr else PauseIr) &&
      Walk(RunTestIdle, pause + [true]) == (if c == Dr then Exit2Dr else Exit2Ir) &&
      Walk(RunTestIdle, pause + [true] + [false]) == ShiftState(c) &&
      Walk(RunTestIdle, pause + [true] + [true]) == (if c == Dr then UpdateDr else Reset) &&
      Walk(RunTestIdle, pause + [true] + [true] + [false]) == RunTestIdle &&
      Walk(RunTestIdle, enter + [true]) == Walk(RunTestIdle, shift + [true]) &&
      Walk(RunTestIdle, shift + [true] + [true]) == Walk(RunTestIdle, pause + [true] + [true])
  {
    Starts(a);
    hide Walk;
    var enter := if c == Dr then [true, false] else [true, true, false];
    var shift := enter + [false] + Lows(a);
    var pause := shift + [true] + [false] + Lows(b);
    WalkSnoc(RunTestIdle, enter, false);
    WalkStays(RunTestIdle, enter + [false], a);
    WalkSnoc(RunTestIdle, enter, true);
    WalkSnoc(RunTestIdle, shift, true);
    WalkSnoc(RunTestIdle, shift + [true], true);
    WalkSnoc(RunTestIdle, shift + [true], false);
    WalkStays(RunTestIdle, shift + [true] + [false], b);
    WalkSnoc(RunTestIdle, pause, true);
    WalkSnoc(RunTestIdle, pause + [true], false);
    WalkSnoc(RunTestIdle, pause + [true], true);
    WalkSnoc(RunTestIdle, pause + [true] + [true], false);
  }

  lemma {:induction false} Starts(a: nat)
    ensures Walk(RunTestIdle, []) == RunTestIdle && Walk(RunTestIdle, Lows(a)) == RunTestIdle
    ensures Walk(RunTestIdle, [true]) == SelectDr && Walk(RunTestIdle, [true, true]) == SelectIr
    ensures Walk(RunTestIdle, [true, false]) == CaptureDr && Walk(RunTestIdle, [true, true, false]) == CaptureIr
    ensures Walk(Reset, [false] + Lows(a)) == RunTestIdle
  {
    hide Walk;
    WalkNothing(RunTestIdle);
    WalkNothing(Reset);
    WalkSnoc(Reset, [], false);
    WalkStays(RunTestIdle, [], a);
    assert [] + Lows(a) == Lows(a) && [] + [true] == [true] && [] + [false] == [false];
    WalkStays(Reset, [false], a);
    WalkSnoc(RunTestIdle, [], true);
    WalkSnoc(RunTestIdle, [true], true);
    WalkSnoc(RunTestIdle, [true], false);
    WalkSnoc(RunTestIdle, [true, true], false);
    assert [true] + [true] == [true, true] && [true] + [false] == [true, false];
    assert [true, true] + [false] == [true, true, false];
  }

  function TmsOf(ins: seq<Input>): (tms: seq<bool>)
    ensures |tms| == |ins| && forall k :: 0 <= k < |ins| ==> tms[k] == ins[k].tms
  {
    seq(|ins|, k requires 0 <= k < |ins| => ins[k].tms)
  }

  /** The controller's state depends on TMS alone. */
  lemma {:induction false} RunWalks(s: State, ins: seq<Input>)
    requires s.WellFormed() && ValidInputs(ins)
    ensures Run(s, ins).tap == Walk(s.tap, TmsOf(ins))
  {
    hide Clock, NextState;
    if ins != [] {
      var n := |ins| - 1;
      RunWalks(s, ins[..n]);
      ClockMoves(Run(s, ins[..n]), ins[n]);
      assert TmsOf(ins)[..n] == TmsOf(ins[..n]);
    }
  }

  /** From RUN_TEST_IDLE into a column's capture state nothing but TDO changes. */
  lemma {:induction false} Entering(c: Column, s: State, enter: seq<Input>)
    requires s.WellFormed() && ValidInputs(enter) && s.tap == RunTestIdle
    requires TmsOf(enter) == if c == Dr then [true, false] else [true, true, false]
    ensures var t := Run(s, enter); t == s.(tap := CaptureState(c), tdo := t.tdo)
  {
    hide Captured, IdleTdo, FromNat;
    Unchanged(s, enter, 1);
    Unchanged(s, enter, 2);
    if c == Ir {
      Unchanged(s, enter, 3);
    }
    assert enter[..|enter|] == enter;
  }

  lemma {:induction false} Unchanged(s: State, ins: seq<Input>, n: nat)
    requires s.WellFormed() && ValidInputs(ins) && 0 < n <= |ins|
    requires Run(s, ins[..n - 1]).tap in {RunTestIdle, SelectDr, SelectIr}
    ensures var before, t := Run(s, ins[..n - 1]), Run(s, ins[..n]);
      t == before.(tap := NextState(before.tap, ins[n - 1].tms), tdo := t.tdo)
  {
    hide Captured, IdleTdo, FromNat, NextState;
    assert ins[..n][..n - 1] == ins[..n - 1];
  }

  /** The shift clocks of a scan without pauses: TMS high at the last. */
  predicate ShiftTms(ins: seq<Input>) {
    ins != [] && forall k :: 0 <= k < |ins| ==> ins[k].tms == (k == |ins| - 1)
  }

  function TdiOf(ins: seq<Input>): (bits: Bits)
    ensures |bits| == |ins| && forall k :: 0 <= k < |ins| ==> bits[k] == ins[k].tdi
  {
    seq(|ins|, k requires 0 <= k < |ins| => ins[k].tdi)
  }

  lemma {:induction false} Shifting(c: Column, s: State, ins: seq<Input>, n: nat)
    requires s.WellFormed() && ValidInputs(ins) && s.tap == ShiftState(c) && ShiftTms(ins) && n <= |ins|
    ensures Run(s, ins[..n]).tap ==
      if n < |ins| then ShiftState(c) else if c == Dr then Exit1Dr else Exit1Ir
    ensures ShiftedIn(c, s, ins[..n]) == TdiOf(ins[..n])
  {
    hide Clock;
    if n > 0 {
      Shifting(c, s, ins, n - 1);
      assert ins[..n][..n - 1] == ins[..n - 1];
      ClockMoves(Run(s, ins[..n - 1]), ins[n - 1]);
    }
  }

  /** The shift clocks and the clock behind them. */
  lemma {:induction false} ShiftedThrough(c: Column, s: State, ins: seq<Input>, exit: Input)
    requires s.WellFormed() && ValidInputs(ins + [exit]) && s.tap == ShiftState(c) && ShiftTms(ins) && exit.tms
    requires ValidInputs(ins)
    ensures StaysScanning(c, s, ins + [exit]) && ShiftedIn(c, s, ins + [exit]) == TdiOf(ins)
    ensures Run(s, ins + [exit]).tap == if c == Dr then UpdateDr else Reset
  {
    hide Clock, ShiftTms, NextState, Run, Scanning;
    var all := ins + [exit];
    assert all[|ins|] == exit;
    forall k | 0 <= k < |all|
      ensures Scanning(c, Run(s, all[..k]).tap)
    {
      Shifting(c, s, ins, k);
      ShiftScans(c);
      assert all[..k] == ins[..k];
    }
    Shifting(c, s, ins, |ins|);
    assert ins[..|ins|] == ins;
    LastClock(c, s, ins, exit);
  }

  lemma {:induction false} ShiftScans(c: Column)
    ensures Scanning(c, ShiftState(c)) && Scanning(c, if c == Dr then Exit1Dr else Exit1Ir)
  {
  }

  lemma {:induction false} LastClock(c: Column, s: State, ins: seq<Input>, exit: Input)
    requires s.WellFormed() && ValidInputs(ins) && ValidInputs(ins + [exit]) && exit.tms && |exit.debugIn| == 32
    requires Run(s, ins).tap == if c == Dr then Exit1Dr else Exit1Ir
    ensures Run(s, ins + [exit]).tap == if c == Dr then UpdateDr else Reset
    ensures ShiftedIn(c, s, ins + [exit]) == ShiftedIn(c, s, ins)
  {
    hide Clock;
    var all := ins + [exit];
    assert all[..|all| - 1] == ins;
    ClockMoves(Run(s, ins), exit);
    assert ShiftedIn(c, s, ins) + [] == ShiftedIn(c, s, ins);
  }

  /** A whole transaction: from RUN_TEST_IDLE into the data column, capture, any number of shifts, and
      back. TDO plays the word the instruction code names and then the TDI bits; the last 32 bits of both
      are in `data_register`, and in the debug output for code 4. */
  lemma {:induction false} DataTransaction(
    s: State, enter: seq<Input>, capture: Input, shifts: seq<Input>, exit: Input, update: Input)
    returns (word: Bits)
    requires s.WellFormed() && s.tap == RunTestIdle && ValidInputs(enter) && ValidInputs(shifts)
    requires |capture.debugIn| == |exit.debugIn| == |update.debugIn| == 32
    requires TmsOf(enter) == [true, false] && !capture.tms && ShiftTms(shifts) && exit.tms && !update.tms
    ensures CapturedFor(Value(s.instruction), s.bypass, capture.debugIn, word)
    ensures var stream := word + TdiOf(shifts);
      var t := Clock(Run(Clock(Run(s, enter), capture), shifts + [exit]), update);
      ShiftedOut(Dr, Clock(Run(s, enter), capture), shifts + [exit]) == Lines(stream[..|shifts|]) &&
      t.data == stream[|stream| - 32..] && t.tap == RunTestIdle && t.instruction == s.instruction &&
      t.debugOut == (if Value(s.instruction) == 4 then t.data else s.debugOut) &&
      t.bypass == if Value(s.instruction) == 15 then t.data else s.bypass
  {
    hide Captured, IdleTdo, FromNat, Value, StaysScanning, ShiftTms, Lines, Run, TmsOf;
    Entering(Dr, s, enter);
    var s1 := Run(s, enter);
    CapturedByCode(s1, capture);
    word := Captured(s1, capture);
    var s2 := Clock(s1, capture);
    ValidAppend(shifts, exit);
    ShiftedThrough(Dr, s2, shifts, exit);
    DataScan(s1, capture, shifts + [exit], update);
    ScanKeeps(s2, shifts + [exit]);
    CodeIs(s.instruction, 4);
    CodeIs(s.instruction, 15);
  }

  lemma {:induction false} ValidAppend(ins: seq<Input>, i: Input)
    requires ValidInputs(ins) && |i.debugIn| == 32
    ensures ValidInputs(ins + [i])
  {
  }

  /** During a data scan the bypass register follows the shift register under BYPASS, and stays otherwise. */
  lemma {:induction false} ScanKeeps(s: State, ins: seq<Input>)
    requires s.WellFormed() && ValidInputs(ins) && StaysScanning(Dr, s, ins)
    ensures var t := Run(s, ins);
      t.instruction == s.instruction && t.debugOut == s.debugOut &&
      (s.instruction != BYPASS_INSTR ==> t.bypass == s.bypass) &&
      (s.instruction == BYPASS_INSTR && s.bypass == s.drShift ==> t.bypass == t.drShift)
  {
    hide FromNat, NextState, Captured, IdleTdo;
    if ins != [] {
      StaysScanningFront(Dr, s, ins);
      ScanKeeps(s, ins[..|ins| - 1]);
    }
  }

  /** The same for the instruction column: the next instruction is the last 4 of the old one's bits and
      the TDI bits. */
  lemma {:induction false} InstructionTransaction(
    s: State, enter: seq<Input>, capture: Input, shifts: seq<Input>, exit: Input, update: Input)
    requires s.WellFormed() && s.tap == RunTestIdle && ValidInputs(enter) && ValidInputs(shifts)
    requires |capture.debugIn| == |exit.debugIn| == |update.debugIn| == 32
    requires TmsOf(enter) == [true, true, false] && !capture.tms && ShiftTms(shifts) && exit.tms && !update.tms
    ensures var stream := s.instruction + TdiOf(shifts);
      var t := Clock(Run(Clock(Run(s, enter), capture), shifts + [exit]), update);
      ShiftedOut(Ir, Clock(Run(s, enter), capture), shifts + [exit]) == Lines(stream[..|shifts|]) &&
      t.instruction == stream[|stream| - 4..] && t.tap == RunTestIdle
  {
    hide Captured, IdleTdo, FromNat, StaysScanning, ShiftTms, Lines, Run, TmsOf;
    Entering(Ir, s, enter);
    var s1 := Run(s, enter);
    var s2 := Clock(s1, capture);
    ValidAppend(shifts, exit);
    ShiftedThrough(Ir, s2, shifts, exit);
    InstructionScan(s1, capture, shifts + [exit], update);
  }

  /** Clocks with TMS high needed to come to code 0000. */
  function Distance(t: TapState): nat {
    match t
    case Reset => 0
    case SelectIr | Exit1Ir | Exit2Ir | Unnamed => 1
    case SelectDr | CaptureIr | ShiftIr | PauseIr => 2
    case RunTestIdle | UpdateDr => 3
    case Exit1Dr | Exit2Dr => 4
    case CaptureDr | ShiftDr | PauseDr => 5
  }

  lemma {:induction false} ClockMoves(s: State, i: Input)
    requires s.WellFormed() && |i.debugIn| == 32
    ensures Clock(s, i).tap == NextState(s.tap, i.tms)
  {
  }

  lemma {:induction false} TmsHighApproaches(s: State, ins: seq<Input>)
    requires s.WellFormed() && ValidInputs(ins) && forall k :: 0 <= k < |ins| ==> ins[k].tms
    ensures Distance(Run(s, ins).tap) == if Distance(s.tap) > |ins| then Distance(s.tap) - |ins| else 0
  {
    hide Clock;
    if ins != [] {
      TmsHighApproaches(s, ins[..|ins| - 1]);
      ClockMoves(Run(s, ins[..|ins| - 1]), ins[|ins| - 1]);
    }
  }

  lemma {:induction false} ResetLoads(s: State, i: Input)
    requires s.WellFormed() && |i.debugIn| == 32 && s.tap == Reset
    ensures Clock(s, i).instruction == s.irShift
  {
  }

  /** Five clocks with TMS high reach code 0000 from any state, five are needed from some, and the
      next clock does not select IDCODE but copies whatever the instruction shift register holds. */
  lemma {:induction false} FiveOnesReset(s: State, ins: seq<Input>, next: Input)
    requires s.WellFormed() && ValidInputs(ins) && |ins| == 5 && |next.debugIn| == 32
    requires forall k :: 0 <= k < 5 ==> ins[k].tms
    ensures Run(s, ins).tap == Reset
    ensures s.tap == ShiftDr ==> forall n :: 0 <= n < 5 ==> Run(s, ins[..n]).tap != Reset
    ensures Clock(Run(s, ins), next).instruction == Run(s, ins).irShift
  {
    hide Run, Clock;
    TmsHighApproaches(s, ins);
    ResetLoads(Run(s, ins), next);
    forall n | 0 <= n < 5
      ensures Distance(Run(s, ins[..n]).tap) == if Distance(s.tap) > n then Distance(s.tap) - n else 0
    {
      TmsHighApproaches(s, ins[..n]);
    }
  }
}
