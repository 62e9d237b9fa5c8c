/** The EML accelerator: a clocked six-state machine that computes exp(rs1) - ln(rs2) and
    memoises results in a direct-mapped table whose tag is an 8-bit hash of the operands.

    `Step` is one clock edge as a function on register values; `Unit.Tick` performs the edge
    on the registers themselves. The theorems are about runs of any length. */
module EmlUnit {
  import opened Prelude
  import opened ByteBits

  type Word = w: nat | w < U32

  const MEMO_ENTRIES: nat := 128

  datatype Pair = Pair(rs1: Word, rs2: Word)

  /** The two combinational approximations; nothing is assumed about them. */
  datatype Datapath = Datapath(exp: Word -> Word, ln: Word -> Word) {
    /** What the unit is for: the uncached result. */
    function Exact(p: Pair): Word {
      Minus(exp(p.rs1), ln(p.rs2))
    }
  }

  /** 32-bit subtraction with wrap-around. */
  function Minus(a: Word, b: Word): Word {
    (a - b) % U32
  }

  /** The 8-bit operand hash: all eight operand bytes XORed together. */
  function Hash(p: Pair): nat {
    XorAll(BytesOf(p.rs1) + BytesOf(p.rs2))
  }

  /** The table index: the low seven bits of the hash. */
  function Index(hash: nat): nat {
    hash % MEMO_ENTRIES
  }

  /** Stage register; `Unused` stands for the codes 6 and 7, which fall to the default arm. */
  datatype Stage = Idle | Fetch | Exp | Ln | Sub | WriteBack | Unused

  datatype Entry = Entry(valid: bool, tag: nat, data: Word)

  /** The three memo arrays. */
  datatype Memo = Memo(valid: seq<bool>, tags: seq<nat>, data: seq<Word>) {
    predicate WellFormed() {
      |valid| == |tags| == |data| == MEMO_ENTRIES
    }

    function At(slot: nat): Entry
      requires WellFormed() && slot < MEMO_ENTRIES
    {
      Entry(valid[slot], tags[slot], data[slot])
    }

    function Store(slot: nat, tag: nat, word: Word): (m: Memo)
      requires WellFormed() && slot < MEMO_ENTRIES
      ensures m.WellFormed()
      ensures forall k :: 0 <= k < MEMO_ENTRIES ==>
        m.At(k) == if k == slot then Entry(true, tag, word) else At(k)
    {
      Memo(valid[slot := true], tags[slot := tag], data[slot := word])
    }
  }

  /** Inputs sampled at one clock edge. */
  datatype Input = Input(rst: bool, valid: bool, ops: Pair, cfg: nat)

  function MaxDepth(cfg: nat): nat {
    cfg / 0x1000 % 8
  }

  datatype State = State(
    stage: Stage, fetch: Pair, fetchHash: nat,
    hit: bool, expResult: Word, lnResult: Word, result: Word,
    depth: nat, excDepth: bool,
    oRd: Word, oValid: bool, oExc: bool,
    memo: Memo)
  {
    predicate WellFormed() {
      memo.WellFormed()
    }

    predicate Ready() {
      stage == Idle
    }

    /** Everything a requester can see besides the result word. */
    function Handshake(): (bool, bool, bool) {
      (Ready(), oValid, oExc)
    }

    predicate Accepts(i: Input) {
      !i.rst && Ready() && i.valid
    }

    /** The table entry selected by the latched hash. */
    function Selected(): Entry
      requires WellFormed()
    {
      memo.At(Index(fetchHash))
    }
  }

  /** The operation state machine. */
  function Advance(d: Datapath, s: State, i: Input): (t: State)
    requires s.WellFormed()
    ensures t.WellFormed()
  {
    match s.stage
    case Idle =>
      if i.valid then
        s.(fetch := i.ops, fetchHash := Hash(i.ops), oValid := false, oExc := false, stage := Fetch)
      else s
    case Fetch =>
      var e := s.Selected();
      var hit := e.valid && e.tag == s.fetchHash;
      s.(result := if hit then e.data else s.result, hit := hit, stage := Exp)
    case Exp => s.(expResult := d.exp(s.fetch.rs1), stage := Ln)
    case Ln => s.(lnResult := d.ln(s.fetch.rs2), stage := Sub)
    case Sub =>
      s.(result := if s.hit then s.result else Minus(s.expResult, s.lnResult), stage := WriteBack)
    case WriteBack =>
      s.(oRd := s.result, oValid := true, oExc := s.excDepth, stage := Idle,
         memo := if s.hit then s.memo else s.memo.Store(Index(s.fetchHash), s.fetchHash, s.result))
    case Unused => s.(stage := Idle)
  }

  /** One rising clock edge. Reset clears every register except the memo table. */
  function Step(d: Datapath, s: State, i: Input): (t: State)
    requires s.WellFormed()
    ensures t.WellFormed()
  {
    if i.rst then
      s.(stage := Idle, fetch := Pair(0, 0), fetchHash := 0,
         depth := 0, excDepth := false, oRd := 0, oValid := false, oExc := false)
    else
      Advance(d, s, i).(
        depth := if s.Accepts(i) then (s.depth + 1) % 8 else if s.stage == WriteBack then 0 else s.depth,
        excDepth := s.depth > MaxDepth(i.cfg) + 1)
  }

  /** The state after a whole sequence of clock edges. */
  function Run(d: Datapath, s: State, ins: seq<Input>): (t: State)
    requires s.WellFormed()
    ensures t.WellFormed()
  {
    if ins == [] then s else Step(d, Run(d, s, ins[..|ins| - 1]), ins[|ins| - 1])
  }

  lemma {:induction false} RunConcat(d: Datapath, s: State, a: seq<Input>, b: seq<Input>)
    requires s.WellFormed()
    ensures Run(d, s, a + b) == Run(d, Run(d, s, a), b)
    decreases |b|
  {
    if b == [] {
      assert a + b == a;
    } else {
      var b' := b[..|b| - 1];
      assert (a + b)[..|a + b| - 1] == a + b';
      RunConcat(d, s, a, b');
    }
  }

  // ---------------------------------------------------------------------------------------
  // Constant time
  // ---------------------------------------------------------------------------------------

  /** The inputs a timing observer chooses: everything but the operands. */
  predicate SameControl(i: Input, j: Input) {
    i.rst == j.rst && i.valid == j.valid && i.cfg == j.cfg
  }

  /** The control registers: no operand, result or memo word among them. */
  datatype Control = Control(stage: Stage, depth: nat, excDepth: bool, oValid: bool, oExc: bool)

  function ControlOf(s: State): Control {
    Control(s.stage, s.depth, s.excDepth, s.oValid, s.oExc)
  }

  function NextStage(stage: Stage, valid: bool): Stage {
    match stage
    case Idle => if valid then Fetch else Idle
    case Fetch => Exp
    case Exp => Ln
    case Ln => Sub
    case Sub => WriteBack
    case WriteBack => Idle
    case Unused => Idle
  }

  function NextControl(c: Control, rst: bool, valid: bool, cfg: nat): Control {
    if rst then Control(Idle, 0, false, false, false)
    else
      var accepts := c.stage == Idle && valid;
      Control(NextStage(c.stage, valid),
              if accepts then (c.depth + 1) % 8 else if c.stage == WriteBack then 0 else c.depth,
              c.depth > MaxDepth(cfg) + 1,
              c.stage == WriteBack || (c.oValid && !accepts),
              if c.stage == WriteBack then c.excDepth else c.oExc && !accepts)
  }

  /** The control registers evolve by themselves. */
  lemma {:induction false} StepControl(d: Datapath, s: State, i: Input)
    requires s.WellFormed()
    ensures ControlOf(Step(d, s, i)) == NextControl(ControlOf(s), i.rst, i.valid, i.cfg)
  {
    hide Advance, NextStage;
    AdvanceControl(d, s, i);
  }

  /** What the operation state machine does to the control registers it owns. */
  lemma {:induction false} AdvanceControl(d: Datapath, s: State, i: Input)
    requires s.WellFormed()
    ensures var t, accepts := Advance(d, s, i), s.Ready() && i.valid;
      t.stage == NextStage(s.stage, i.valid) &&
      t.oValid == (s.stage == WriteBack || (s.oValid && !accepts)) &&
      t.oExc == (if s.stage == WriteBack then s.excDepth else s.oExc && !accepts)
  {
    hide Memo.Store, Memo.At, Hash, Index;
  }

  lemma {:induction false} ControlDeterminesTiming(
    d: Datapath, e: Datapath, s: State, t: State, ins: seq<Input>, jns: seq<Input>)
    requires s.WellFormed() && t.WellFormed() && ControlOf(s) == ControlOf(t)
    requires |ins| == |jns| && forall k :: 0 <= k < |ins| ==> SameControl(ins[k], jns[k])
    ensures ControlOf(Run(d, s, ins)) == ControlOf(Run(e, t, jns))
  {
    if ins != [] {
      var n := |ins| - 1;
      ControlDeterminesTiming(d, e, s, t, ins[..n], jns[..n]);
      StepControl(d, Run(d, s, ins[..n]), ins[n]);
      StepControl(e, Run(e, t, jns[..n]), jns[n]);
    }
  }

  /** Constant time: two runs that agree on reset, i_valid and configuration show the same
      handshake at every clock, whatever the operands, the memo contents and even the
      arithmetic were. */
  lemma {:induction false} ConstantTime(
    d: Datapath, e: Datapath, s: State, t: State, ins: seq<Input>, jns: seq<Input>)
    requires s.WellFormed() && t.WellFormed() && ControlOf(s) == ControlOf(t)
    requires |ins| == |jns| && forall k :: 0 <= k < |ins| ==> SameControl(ins[k], jns[k])
    ensures forall n :: 0 <= n <= |ins| ==>
      Run(d, s, ins[..n]).Handshake() == Run(e, t, jns[..n]).Handshake()
  {
    forall n | 0 <= n <= |ins|
      ensures Run(d, s, ins[..n]).Handshake() == Run(e, t, jns[..n]).Handshake()
    {
      ControlDeterminesTiming(d, e, s, t, ins[..n], jns[..n]);
    }
  }

  // ---------------------------------------------------------------------------------------
  // What the memo serves: a reference without a table
  // ---------------------------------------------------------------------------------------

  /** The operations finished so far, the latest outermost. */
  datatype History = Empty | After(before: History, op: Pair)

  predicate Contains(h: History, p: Pair) {
    h.After? && (h.op == p || Contains(h.before, p))
  }

  /** The history up to and including its last operation on table slot `slot`. */
  function Latest(h: History, slot: nat): (k: History)
    ensures k.After? ==> Index(Hash(k.op)) == slot
    ensures k == h || k < h
  {
    if h.Empty? || Index(Hash(h.op)) == slot then h else Latest(h.before, slot)
  }

  /** Whose operands the result of the last operation is computed from: its own, unless the
      previous operation on the same slot had the same hash, and then that one's leader. */
  function Leader(h: History): (p: Pair)
    requires h.After?
    ensures Hash(p) == Hash(h.op)
  {
    var k := Latest(h.before, Index(Hash(h.op)));
    if k.After? && Hash(k.op) == Hash(h.op) then Leader(k) else h.op
  }

  function Served(d: Datapath, h: History): Word
    requires h.After?
  {
    d.Exact(Leader(h))
  }

  /** True when the table answers for the last operation of `h`. */
  predicate Hits(h: History)
    requires h.After?
  {
    var k := Latest(h.before, Index(Hash(h.op)));
    k.After? && Hash(k.op) == Hash(h.op)
  }

  /** The finished operations and the one in flight. */
  datatype Log = Log(done: History, pending: Option<Pair>)

  function NextLog(s: State, log: Log, i: Input): Log {
    if i.rst then log.(pending := None)
    else if s.Accepts(i) then log.(pending := Some(i.ops))
    else if s.stage == WriteBack && log.pending.Some? then Log(After(log.done, log.pending.value), None)
    else log
  }

  function RunLog(d: Datapath, s: State, log: Log, ins: seq<Input>): Log
    requires s.WellFormed()
  {
    if ins == [] then log
    else
      var front := ins[..|ins| - 1];
      NextLog(Run(d, s, front), RunLog(d, s, log, front), ins[|ins| - 1])
  }

  /** A table slot agrees with the finished operations. */
  predicate SlotMatches(d: Datapath, e: Entry, done: History, slot: nat) {
    var k := Latest(done, slot);
    e.valid == k.After? && (k.After? ==> e.tag == Hash(k.op) && e.data == Served(d, k))
  }

  predicate MemoMatches(d: Datapath, memo: Memo, done: History) {
    memo.WellFormed() &&
    forall slot :: 0 <= slot < MEMO_ENTRIES ==> SlotMatches(d, memo.At(slot), done, slot)
  }

  /** The operation in flight, stage by stage; `h` is the history it will end. */
  predicate InFlight(d: Datapath, s: State, h: History)
    requires h.After?
  {
    s.fetch == h.op && s.fetchHash == Hash(h.op) && s.depth == 1 &&
    match s.stage
    case Fetch => true
    case Exp => HitState(d, s, h)
    case Ln => HitState(d, s, h) && s.expResult == d.exp(h.op.rs1)
    case Sub => HitState(d, s, h) && s.expResult == d.exp(h.op.rs1) && s.lnResult == d.ln(h.op.rs2)
    case WriteBack => HitState(d, s, h) && s.result == Served(d, h)
    case _ => false
  }

  predicate HitState(d: Datapath, s: State, h: History)
    requires h.After?
  {
    s.hit == Hits(h) && (s.hit ==> s.result == Served(d, h))
  }

  /** What every reachable state satisfies. */
  predicate Invariant(d: Datapath, s: State, log: Log) {
    MemoMatches(d, s.memo, log.done) && !s.excDepth && !s.oExc &&
    (if log.pending.Some? then InFlight(d, s, After(log.done, log.pending.value))
     else s.stage == Idle && s.depth == 0) &&
    (s.oValid ==> s.stage == Idle && log.done.After? && s.oRd == Served(d, log.done))
  }

  /** Registers after reset, with a memo table holding nothing. */
  predicate PowerOn(s: State) {
    s.WellFormed() && s.stage == Idle && s.depth == 0 &&
    !s.excDepth && !s.oValid && !s.oExc && forall v :: v in s.memo.valid ==> !v
  }

  const NOTHING_YET := Log(Empty, None)

  /** The table lookup is a hit exactly for the operations `Hits` names, and then it holds
      their result. */
  lemma {:induction false} LookupFindsLeader(d: Datapath, memo: Memo, done: History, p: Pair)
    requires MemoMatches(d, memo, done)
    ensures var e := memo.At(Index(Hash(p)));
      var hit := e.valid && e.tag == Hash(p);
      hit == Hits(After(done, p)) && (hit ==> e.data == Served(d, After(done, p)))
  {
    assert SlotMatches(d, memo.At(Index(Hash(p))), done, Index(Hash(p)));
  }

  /** Write-back keeps the table in step with the history, on a hit as on a miss. */
  lemma {:induction false} WriteBackKeepsMemo(
    d: Datapath, memo: Memo, done: History, p: Pair, memo': Memo)
    requires MemoMatches(d, memo, done)
    requires memo' == if Hits(After(done, p)) then memo
                      else memo.Store(Index(Hash(p)), Hash(p), Served(d, After(done, p)))
    ensures MemoMatches(d, memo', After(done, p))
  {
    var h := After(done, p);
    forall slot | 0 <= slot < MEMO_ENTRIES
      ensures SlotMatches(d, memo'.At(slot), h, slot)
    {
      assert SlotMatches(d, memo.At(slot), done, slot);
      assert Latest(h, slot) == if Index(Hash(p)) == slot then h else Latest(done, slot);
    }
  }

  lemma {:induction false} MatchesWellFormed(d: Datapath, memo: Memo, done: History)
    requires MemoMatches(d, memo, done)
    ensures memo.WellFormed()
  {
  }

  lemma {:induction false} MissServesOwn(d: Datapath, h: History)
    requires h.After? && !Hits(h)
    ensures Served(d, h) == Minus(d.exp(h.op.rs1), d.ln(h.op.rs2))
  {
  }

  lemma {:induction false} StepKeepsInvariant(d: Datapath, s: State, log: Log, i: Input)
    requires Invariant(d, s, log)
    ensures Invariant(d, Step(d, s, i), NextLog(s, log, i))
  {
    hide MemoMatches, Hash, Index, Hits, Served, Memo.Store;
    MatchesWellFormed(d, s.memo, log.done);
    if !i.rst && log.pending.Some? {
      var p := log.pending.value;
      if s.stage == Fetch {
        LookupFindsLeader(d, s.memo, log.done, p);
      } else if s.stage == WriteBack {
        WriteBackKeepsMemo(d, s.memo, log.done, p, Step(d, s, i).memo);
      } else if s.stage == Sub && !s.hit {
        MissServesOwn(d, After(log.done, p));
      }
    }
  }

  lemma {:induction false} PowerOnInvariant(d: Datapath, s: State)
    requires PowerOn(s)
    ensures Invariant(d, s, NOTHING_YET)
  {
    forall slot | 0 <= slot < MEMO_ENTRIES
      ensures SlotMatches(d, s.memo.At(slot), Empty, slot)
    {
      assert s.memo.valid[slot] in s.memo.valid;
    }
  }

  lemma {:induction false} RunKeepsInvariant(d: Datapath, s: State, log: Log, ins: seq<Input>)
    requires Invariant(d, s, log)
    ensures Invariant(d, Run(d, s, ins), RunLog(d, s, log, ins))
  {
    if ins != [] {
      var front := ins[..|ins| - 1];
      RunKeepsInvariant(d, s, log, front);
      StepKeepsInvariant(d, Run(d, s, front), RunLog(d, s, log, front), ins[|ins| - 1]);
    }
  }

  // ---------------------------------------------------------------------------------------
  // Results of whole runs
  // ---------------------------------------------------------------------------------------

  predicate NoReset(ins: seq<Input>) {
    forall i :: i in ins ==> !i.rst
  }

  /** The exact result is the difference modulo 2^32, and no other word is. */
  lemma {:induction false} ExactIsDifference(d: Datapath, p: Pair, v: Word)
    ensures v == d.Exact(p) <==> (d.exp(p.rs1) - d.ln(p.rs2) - v) % U32 == 0
  {
    var x := d.exp(p.rs1) - d.ln(p.rs2);
    assert x == x / U32 * U32 + x % U32;
    SameResidue(x, v);
  }

  /** Reset clears the outputs and keeps the table. */
  lemma {:induction false} ResetKeepsMemo(d: Datapath, s: State, ins: seq<Input>, i: Input)
    requires s.WellFormed() && i.rst
    ensures var before, t := Run(d, s, ins), Run(d, s, ins + [i]);
      t.Ready() && !t.oValid && !t.oExc && t.oRd == 0 && t.depth == 0 && t.memo == before.memo
  {
    assert (ins + [i])[..|ins|] == ins;
  }

  /** The stage `n` edges after acceptance. */
  function StageAfter(n: nat): Stage
    requires n <= 6
  {
    [Idle, Fetch, Exp, Ln, Sub, WriteBack, Idle][n]
  }

  lemma {:induction false} RunTowardsResult(d: Datapath, s: State, log: Log, ins: seq<Input>)
    requires Invariant(d, s, log) && 1 <= |ins| <= 6 && NoReset(ins) && s.Accepts(ins[0])
    ensures var t, l := Run(d, s, ins), RunLog(d, s, log, ins);
      t.stage == StageAfter(|ins|) && t.oValid == (|ins| == 6) &&
      l == if |ins| == 6 then Log(After(log.done, ins[0].ops), None)
           else Log(log.done, Some(ins[0].ops))
  {
    hide Step, MemoMatches, InFlight, Hash, Index;
    MatchesWellFormed(d, s.memo, log.done);
    var n := |ins| - 1;
    var front := ins[..n];
    assert !ins[n].rst;
    if n == 0 {
      assert Run(d, s, front) == s && RunLog(d, s, log, front) == log;
    } else {
      assert front[0] == ins[0];
      assert NoReset(front);
      RunTowardsResult(d, s, log, front);
    }
    StepControl(d, Run(d, s, front), ins[n]);
  }

  /** An accepted operation raises o_valid exactly five edges after the accepting one, holding
      the result of the leader, whatever i_valid and the operand lines do meanwhile; in between
      the unit is neither ready nor valid. */
  lemma {:induction false} AcceptedOperationCompletes(d: Datapath, s: State, log: Log, ins: seq<Input>)
    requires Invariant(d, s, log) && |ins| == 6 && NoReset(ins) && s.Accepts(ins[0])
    ensures forall n :: 1 <= n < 6 ==>
      !Run(d, s, ins[..n]).oValid && !Run(d, s, ins[..n]).Ready()
    ensures var t := Run(d, s, ins);
      t.oValid && t.Ready() && t.oRd == Served(d, After(log.done, ins[0].ops))
    ensures RunLog(d, s, log, ins) == Log(After(log.done, ins[0].ops), None)
  {
    forall n | 1 <= n < 6
      ensures !Run(d, s, ins[..n]).oValid && !Run(d, s, ins[..n]).Ready()
    {
      assert NoReset(ins[..n]);
      RunTowardsResult(d, s, log, ins[..n]);
    }
    RunTowardsResult(d, s, log, ins);
    RunKeepsInvariant(d, s, log, ins);
  }

  /** A result is held, with the table, until the next acceptance or reset. */
  lemma {:induction false} ResultHeld(d: Datapath, s: State, ins: seq<Input>)
    requires s.WellFormed() && s.Ready()
    requires NoReset(ins) && forall i :: i in ins ==> !i.valid
    ensures var t := Run(d, s, ins);
      t.Ready() && t.oValid == s.oValid && t.oRd == s.oRd && t.oExc == s.oExc && t.memo == s.memo
  {
    if ins != [] {
      var n := |ins| - 1;
      assert ins[n] in ins;
      ResultHeld(d, s, ins[..n]);
    }
  }

  /** Memo refinement: in every run from power-on, resets included, a presented result is the
      exact result of an operation with the same hash that finished no later. */
  lemma {:induction false} ResultIsOfSameHash(d: Datapath, s: State, ins: seq<Input>)
    requires PowerOn(s)
    ensures var t, l := Run(d, s, ins), RunLog(d, s, NOTHING_YET, ins);
      t.oValid ==>
        (l.done.After? &&
         exists p :: Contains(l.done, p) && Hash(p) == Hash(l.done.op) && t.oRd == d.Exact(p))
  {
    PowerOnInvariant(d, s);
    RunKeepsInvariant(d, s, NOTHING_YET, ins);
    var l := RunLog(d, s, NOTHING_YET, ins);
    if Run(d, s, ins).oValid {
      LeaderContained(l.done);
    }
  }

  lemma {:induction false} LeaderContained(h: History)
    requires h.After?
    ensures Contains(h, Leader(h))
  {
    if Hits(h) {
      var k := Latest(h.before, Index(Hash(h.op)));
      LeaderContained(k);
      LatestContains(h.before, Index(Hash(h.op)), Leader(k));
    }
  }

  lemma {:induction false} LatestContains(h: History, slot: nat, p: Pair)
    requires Contains(Latest(h, slot), p)
    ensures Contains(h, p)
  {
    if Latest(h, slot) != h {
      LatestContains(h.before, slot, p);
    }
  }

  /** No two finished operations with the same hash disagree on the result. */
  ghost predicate HashSafe(d: Datapath, h: History) {
    forall p, q :: Contains(h, p) && Contains(h, q) && Hash(p) == Hash(q) ==> d.Exact(p) == d.Exact(q)
  }

  /** Without hash collisions that matter, the memo is invisible. */
  lemma {:induction false} MemoInvisible(d: Datapath, s: State, ins: seq<Input>)
    requires PowerOn(s)
    requires HashSafe(d, RunLog(d, s, NOTHING_YET, ins).done)
    ensures var t, l := Run(d, s, ins), RunLog(d, s, NOTHING_YET, ins);
      t.oValid ==> l.done.After? && t.oRd == d.Exact(l.done.op)
  {
    ResultIsOfSameHash(d, s, ins);
  }

  // --- the stream of results ---------------------------------------------------------------

  /** The results in the order they are presented, one at each clock that raises o_valid. */
  function Results(d: Datapath, s: State, ins: seq<Input>): seq<Word>
    requires s.WellFormed()
  {
    if ins == [] then []
    else
      var front := ins[..|ins| - 1];
      Results(d, s, front) + if !Run(d, s, front).oValid && Run(d, s, ins).oValid then [Run(d, s, ins).oRd] else []
  }

  /** The operand pairs in the order they are accepted. */
  function Accepted(d: Datapath, s: State, ins: seq<Input>): seq<Pair>
    requires s.WellFormed()
  {
    if ins == [] then []
    else
      var n := |ins| - 1;
      Accepted(d, s, ins[..n]) + if Run(d, s, ins[..n]).Accepts(ins[n]) then [ins[n].ops] else []
  }

  /** What a unit without a memo table returns for a list of operations. */
  function Uncached(d: Datapath, ops: seq<Pair>): (rs: seq<Word>)
    ensures |rs| == |ops| && forall k :: 0 <= k < |ops| ==> rs[k] == d.Exact(ops[k])
  {
    seq(|ops|, k requires 0 <= k < |ops| => d.Exact(ops[k]))
  }

  function Ops(h: History): seq<Pair> {
    if h.Empty? then [] else Ops(h.before) + [h.op]
  }

  function ServedAll(d: Datapath, h: History): seq<Word> {
    if h.Empty? then [] else ServedAll(d, h.before) + [Served(d, h)]
  }

  /** One result per finished operation, in order. */
  lemma {:induction false} ResultsAreServed(d: Datapath, s: State, ins: seq<Input>)
    requires PowerOn(s)
    ensures Results(d, s, ins) == ServedAll(d, RunLog(d, s, NOTHING_YET, ins).done)
  {
    hide MemoMatches, Step, Served;
    if ins != [] {
      var n := |ins| - 1;
      ResultsAreServed(d, s, ins[..n]);
      PowerOnInvariant(d, s);
      RunKeepsInvariant(d, s, NOTHING_YET, ins[..n]);
      RunKeepsInvariant(d, s, NOTHING_YET, ins);
      StepControl(d, Run(d, s, ins[..n]), ins[n]);
    }
  }

  /** Without resets every accepted operation is finished or is the one in flight. */
  lemma {:induction false} AcceptedAreFinished(d: Datapath, s: State, ins: seq<Input>)
    requires PowerOn(s) && NoReset(ins)
    ensures var l := RunLog(d, s, NOTHING_YET, ins);
      Accepted(d, s, ins) == Ops(l.done) + if l.pending.Some? then [l.pending.value] else []
  {
    hide MemoMatches, Step, Served;
    if ins != [] {
      var n := |ins| - 1;
      assert NoReset(ins[..n]) && !ins[n].rst;
      AcceptedAreFinished(d, s, ins[..n]);
      PowerOnInvariant(d, s);
      RunKeepsInvariant(d, s, NOTHING_YET, ins[..n]);
    }
  }

  /** The last operation of the list on table slot `slot`. */
  function LastOn(ops: seq<Pair>, slot: nat): (p: Option<Pair>)
    ensures p.Some? ==> p.value in ops && Index(Hash(p.value)) == slot
  {
    if ops == [] then None
    else
      var n := |ops| - 1;
      if Index(Hash(ops[n])) == slot then Some(ops[n]) else LastOn(ops[..n], slot)
  }

  /** Whenever the last earlier operation on the same slot has the same hash, it has the same exact
      result. This can be read off the operand list before the first clock. */
  predicate NoStale(d: Datapath, ops: seq<Pair>) {
    ops == [] ||
    var n := |ops| - 1;
    NoStale(d, ops[..n]) &&
    var k := LastOn(ops[..n], Index(Hash(ops[n])));
    k.Some? && Hash(k.value) == Hash(ops[n]) ==> d.Exact(k.value) == d.Exact(ops[n])
  }

  lemma {:induction false} LastOnIsLatest(h: History, slot: nat)
    ensures var k := Latest(h, slot); LastOn(Ops(h), slot) == if k.After? then Some(k.op) else None
  {
    hide Hash, Index;
    if h.After? {
      LastOnIsLatest(h.before, slot);
      assert Ops(h)[..|Ops(h.before)|] == Ops(h.before);
    }
  }

  /** When all results of a history are uncached ones, so is the one its table slot holds. */
  lemma {:induction false} SlotUncached(d: Datapath, h: History, slot: nat)
    requires ServedAll(d, h) == Uncached(d, Ops(h))
    ensures var k := Latest(h, slot); k.After? ==> Served(d, k) == d.Exact(k.op)
  {
    hide Hash, Index, Served, Datapath.Exact;
    if h.After? {
      ServedSplit(d, h);
      SlotUncached(d, h.before, slot);
    }
  }

  lemma {:induction false} ServedSplit(d: Datapath, h: History)
    requires h.After?
    ensures ServedAll(d, h) == Uncached(d, Ops(h)) <==>
      ServedAll(d, h.before) == Uncached(d, Ops(h.before)) && Served(d, h) == d.Exact(h.op)
  {
    hide Hash, Index, Served, Datapath.Exact;
    ServedCount(d, h.before);
    var front, all := Uncached(d, Ops(h.before)), Uncached(d, Ops(h));
    assert all == front + [d.Exact(h.op)];
    if ServedAll(d, h) == all {
      assert ServedAll(d, h)[..|front|] == ServedAll(d, h.before) && all[..|front|] == front;
      assert ServedAll(d, h)[|front|] == all[|front|];
    }
  }

  lemma {:induction false} ServedCount(d: Datapath, h: History)
    ensures |ServedAll(d, h)| == |Ops(h)|
  {
    if h.After? {
      ServedCount(d, h.before);
    }
  }

  /** The exact condition on finished operations. */
  lemma {:induction false} ServedIsUncachedIff(d: Datapath, h: History)
    ensures ServedAll(d, h) == Uncached(d, Ops(h)) <==> NoStale(d, Ops(h))
  {
    hide Hash, Index, Datapath.Exact;
    if h.After? {
      ServedIsUncachedIff(d, h.before);
      ServedSplit(d, h);
      var slot := Index(Hash(h.op));
      LastOnIsLatest(h.before, slot);
      assert Ops(h)[..|Ops(h.before)|] == Ops(h.before);
      if ServedAll(d, h.before) == Uncached(d, Ops(h.before)) {
        SlotUncached(d, h.before, slot);
      }
    }
  }

  /** The results of a run, resets included, are the uncached ones if and only if no finished
      operation finds a stale entry. */
  lemma {:induction false} ResultsExactIff(d: Datapath, s: State, ins: seq<Input>)
    requires PowerOn(s)
    ensures var ops := Ops(RunLog(d, s, NOTHING_YET, ins).done);
      Results(d, s, ins) == Uncached(d, ops) <==> NoStale(d, ops)
  {
    hide Run, RunLog, Results, Ops, NoStale, ServedAll;
    ResultsAreServed(d, s, ins);
    ServedIsUncachedIff(d, RunLog(d, s, NOTHING_YET, ins).done);
  }

  /** The unit against one without a table, exactly: on a run without reset the accepted operations
      finish one by one and in order, all of them when the unit is idle and all but the last when it
      is busy, and the results are the uncached ones if and only if none of these operations finds
      a stale entry. */
  lemma {:induction false} RefinesUncachedUnit(d: Datapath, s: State, ins: seq<Input>)
    requires PowerOn(s) && NoReset(ins)
    ensures var ops := Accepted(d, s, ins);
      var n := if Run(d, s, ins).Ready() then |ops| else |ops| - 1;
      n >= 0 && |Results(d, s, ins)| == n &&
      (Results(d, s, ins) == Uncached(d, ops[..n]) <==> NoStale(d, ops[..n]))
  {
    hide MemoMatches, Step, Served, Hash, Accepted, Results, Ops, Run, RunLog, NoStale, ServedAll;
    var l := RunLog(d, s, NOTHING_YET, ins);
    PowerOnInvariant(d, s);
    RunKeepsInvariant(d, s, NOTHING_YET, ins);
    AcceptedAreFinished(d, s, ins);
    ResultsAreServed(d, s, ins);
    ServedCount(d, l.done);
    ServedIsUncachedIff(d, l.done);
    assert Accepted(d, s, ins)[..|Ops(l.done)|] == Ops(l.done);
  }

  /** In particular no entry is stale when operations of equal hash have equal results. */
  lemma {:induction false} HashSafeNoStale(d: Datapath, ops: seq<Pair>)
    requires forall p, q :: p in ops && q in ops && Hash(p) == Hash(q) ==> d.Exact(p) == d.Exact(q)
    ensures NoStale(d, ops)
  {
    hide Hash, Index, Datapath.Exact;
    if ops != [] {
      HashSafeNoStale(d, ops[..|ops| - 1]);
    }
  }

  /** The unit never presents anything but the uncached result of its last operation. */
  ghost predicate CorrectOnEveryRun(d: Datapath, s: State)
    requires s.WellFormed()
  {
    forall ins :: ResultExact(d, s, ins)
  }

  predicate ResultExact(d: Datapath, s: State, ins: seq<Input>)
    requires s.WellFormed()
  {
    var t, l := Run(d, s, ins), RunLog(d, s, NOTHING_YET, ins);
    t.oValid ==> l.done.After? && t.oRd == d.Exact(l.done.op)
  }

  function Request(p: Pair): seq<Input> {
    var quiet := Input(false, false, p, 0);
    [Input(false, true, p, 0), quiet, quiet, quiet, quiet, quiet]
  }

  /** The run that feeds `p` and then `q` serves `p`'s result for `q` when the hashes agree. */
  lemma {:induction false} CollidingPairServed(d: Datapath, s: State, p: Pair, q: Pair)
    requires PowerOn(s) && Hash(p) == Hash(q)
    ensures var t, l := Run(d, s, Request(p) + Request(q)),
                        RunLog(d, s, NOTHING_YET, Request(p) + Request(q));
      t.oValid && l.done == After(After(Empty, p), q) && t.oRd == d.Exact(p)
  {
    hide Step, Run, RunLog, NextLog, Hash, Index, MemoMatches, InFlight;
    PowerOnInvariant(d, s);
    var t := Run(d, s, Request(p));
    RunKeepsInvariant(d, s, NOTHING_YET, Request(p));
    AcceptedOperationCompletes(d, s, NOTHING_YET, Request(p));
    var l := Log(After(Empty, p), None);
    AcceptedOperationCompletes(d, t, l, Request(q));
    RunConcat(d, s, Request(p), Request(q));
    RunLogConcat(d, s, NOTHING_YET, Request(p), Request(q));
    assert Latest(l.done, Index(Hash(q))) == l.done;
    assert Leader(l.done) == p;
  }

  // --- the hash, bit by bit ----------------------------------------------------------------

  /** The operand bytes, those of rs1 first. */
  function OperandBytes(p: Pair): (b: seq<nat>)
    ensures |b| == 8 && Bytes(b)
  {
    BytesOf(p.rs1) + BytesOf(p.rs2)
  }

  /** Eight numbers below 256 that make up the two words; there are no others. */
  lemma {:induction false} OperandBytesIff(p: Pair, b: seq<nat>)
    requires |b| == 8 && Bytes(b)
    ensures b == OperandBytes(p) <==>
      p.rs1 == b[0] + 0x100 * b[1] + 0x1_0000 * b[2] + 0x100_0000 * b[3] &&
      p.rs2 == b[4] + 0x100 * b[5] + 0x1_0000 * b[6] + 0x100_0000 * b[7]
  {
    hide BytesOf;
    assert b == b[..4] + b[4..];
    BytesOfIff(p.rs1, b[..4]);
    BytesOfIff(p.rs2, b[4..]);
  }

  /** The operands have an even or odd number of ones alike in bit position `k`. */
  predicate Alike(p: Pair, q: Pair, k: nat) {
    SameParity(OperandBytes(p), OperandBytes(q), k)
  }

  /** Bit `k` of the hash is the parity of the operands' bits in that position. */
  lemma {:induction false} HashBit(p: Pair, k: nat)
    ensures Hash(p) < 0x100 && (Bit(Hash(p), k) <==> SetBits(OperandBytes(p), k) % 2 == 1)
  {
    hide Bit, SetBits, BytesOf, XorAll;
    XorAllBit(OperandBytes(p), k);
    XorAllBounded(OperandBytes(p));
  }

  /** Equal hashes are equal parities in eight positions, equal slots in seven. */
  lemma {:induction false} SameHashIff(p: Pair, q: Pair)
    ensures Hash(p) == Hash(q) <==> forall k :: 0 <= k < 8 ==> Alike(p, q, k)
    ensures Index(Hash(p)) == Index(Hash(q)) <==> forall k :: 0 <= k < 7 ==> Alike(p, q, k)
  {
    hide SameParity, BytesOf, XorAll;
    XorsEqualIff(OperandBytes(p), OperandBytes(q));
    forall k: nat
      ensures Alike(p, q, k) == SameParity(OperandBytes(p), OperandBytes(q), k)
    {
    }
  }

  // --- requests one behind the other --------------------------------------------------------

  function HistoryOf(ps: seq<Pair>): History {
    if ps == [] then Empty else After(HistoryOf(ps[..|ps| - 1]), ps[|ps| - 1])
  }

  lemma {:induction false} HistorySnoc(ps: seq<Pair>, p: Pair)
    ensures HistoryOf(ps + [p]) == After(HistoryOf(ps), p)
    ensures HistoryOf([]) == Empty
  {
    assert (ps + [p])[..|ps|] == ps;
  }

  function Requests(ps: seq<Pair>): seq<Input> {
    if ps == [] then [] else Requests(ps[..|ps| - 1]) + Request(ps[|ps| - 1])
  }

  lemma {:induction false} RequestsSnoc(ps: seq<Pair>, p: Pair)
    ensures Requests(ps + [p]) == Requests(ps) + Request(p) && Requests([]) == []
  {
    assert (ps + [p])[..|ps|] == ps;
  }

  lemma {:induction false} RequestsListed(p: Pair, q: Pair, r: Pair)
    ensures Requests([p, q]) == Request(p) + Request(q)
    ensures Requests([p, q, r]) == Request(p) + Request(q) + Request(r)
  {
    hide Requests, Request;
    assert [p] == [] + [p] && [p, q] == [p] + [q] && [p, q, r] == [p, q] + [r];
    RequestsSnoc([], p);
    RequestsSnoc([p], q);
    RequestsSnoc([p, q], r);
  }

  lemma {:induction false} RequestsServed(d: Datapath, s: State, ps: seq<Pair>)
    requires PowerOn(s)
    ensures var t, l := Run(d, s, Requests(ps)), RunLog(d, s, NOTHING_YET, Requests(ps));
      Invariant(d, t, l) && l == Log(HistoryOf(ps), None) && t.Ready() &&
      (ps != [] ==> t.oValid && t.oRd == Served(d, HistoryOf(ps)))
  {
    hide Step, Run, RunLog, NextLog, Hash, Index, MemoMatches, InFlight, Served;
    PowerOnInvariant(d, s);
    RunKeepsInvariant(d, s, NOTHING_YET, Requests(ps));
    if ps == [] {
      RunNothing(d, s);
    } else {
      var n := |ps| - 1;
      var front, last := Requests(ps[..n]), Request(ps[n]);
      RequestsServed(d, s, ps[..n]);
      AcceptedOperationCompletes(d, Run(d, s, front), Log(HistoryOf(ps[..n]), None), last);
      RunConcat(d, s, front, last);
      RunLogConcat(d, s, NOTHING_YET, front, last);
    }
  }

  lemma {:induction false} RunNothing(d: Datapath, s: State)
    requires s.WellFormed()
    ensures Run(d, s, []) == s && RunLog(d, s, NOTHING_YET, []) == NOTHING_YET
  {
  }

  /** Two requests, exactly: the second is answered from the table when in each of the eight bit
      positions the operands of both have an even or odd number of ones alike, and by computing it
      otherwise. */
  lemma {:induction false} SecondRequest(d: Datapath, s: State, p: Pair, q: Pair)
    requires PowerOn(s)
    ensures var t := Run(d, s, Request(p) + Request(q));
      t.oValid && t.oRd == d.Exact(if forall k :: 0 <= k < 8 ==> Alike(p, q, k) then p else q)
  {
    hide Run, Requests, Request, RunLog, Hash, Index, Alike, Datapath.Exact, Invariant;
    RequestsServed(d, s, [p, q]);
    RequestsListed(p, q, q);
    SameHashIff(p, q);
    var h := HistoryOf([p]);
    assert [p] == [] + [p] && [p, q] == [p] + [q];
    HistorySnoc([], p);
    HistorySnoc([p], q);
    assert Latest(Empty, Index(Hash(p))) == Empty && Leader(h) == p;
    assert Latest(h, Index(Hash(q))) == if Index(Hash(p)) == Index(Hash(q)) then h else Empty;
  }

  /** Every operand byte counts: requests that differ in one of the eight are both answered right. */
  lemma {:induction false} OneByteApartExact(d: Datapath, s: State, p: Pair, q: Pair, j: nat)
    requires PowerOn(s) && DifferAt(OperandBytes(p), OperandBytes(q), j)
    ensures var t := Run(d, s, Request(p) + Request(q)); t.oValid && t.oRd == d.Exact(q)
  {
    hide Run, Request, Index, Alike, BytesOf, XorAll, DifferAt, Datapath.Exact;
    OneByteSeparates(OperandBytes(p), OperandBytes(q), j);
    SameHashIff(p, q);
    SecondRequest(d, s, p, q);
  }

  /** The slot ignores bit 7: between two requests of one hash, a third one takes the slot away exactly
      when its hash differs from theirs in bit 7 alone. */
  lemma {:induction false} EvictedIff(d: Datapath, s: State, p: Pair, q: Pair, r: Pair)
    requires PowerOn(s) && forall k :: 0 <= k < 8 ==> Alike(p, r, k)
    ensures var t := Run(d, s, Request(p) + Request(q) + Request(r));
      var evicted := (forall k :: 0 <= k < 7 ==> Alike(p, q, k)) && !Alike(p, q, 7);
      t.oValid && t.oRd == d.Exact(if evicted then r else p)
  {
    hide Run, Requests, Request, RunLog, Hash, Index, Alike, Datapath.Exact, Invariant;
    RequestsServed(d, s, [p, q, r]);
    RequestsListed(p, q, r);
    SameHashIff(p, r);
    SameHashIff(p, q);
    ThreeLeaders(p, q, r);
  }

  lemma {:induction false} ThreeLeaders(p: Pair, q: Pair, r: Pair)
    requires Hash(p) == Hash(r)
    ensures Leader(HistoryOf([p, q, r])) ==
      if Index(Hash(p)) == Index(Hash(q)) && Hash(p) != Hash(q) then r else p
  {
    hide Hash, Index;
    var h1, h2 := HistoryOf([p]), HistoryOf([p, q]);
    assert [p] == [] + [p] && [p, q] == [p] + [q];
    HistorySnoc([], p);
    HistorySnoc([p], q);
    assert [p, q, r] == [p, q] + [r];
    HistorySnoc([p, q], r);
    var slot := Index(Hash(p));
    assert Latest(Empty, slot) == Empty && Leader(h1) == p && Latest(h1, slot) == h1;
    assert Latest(h2, slot) == if Index(Hash(q)) == slot then h2 else h1;
    assert Hash(p) == Hash(q) ==> Leader(h2) == p;
  }

  lemma {:induction false} RunLogConcat(d: Datapath, s: State, log: Log, a: seq<Input>, b: seq<Input>)
    requires s.WellFormed()
    ensures RunLog(d, s, log, a + b) == RunLog(d, Run(d, s, a), RunLog(d, s, log, a), b)
    decreases |b|
  {
    if b == [] {
      assert a + b == a;
    } else {
      var b' := b[..|b| - 1];
      assert (a + b)[..|a + b| - 1] == a + b';
      RunLogConcat(d, s, log, a, b');
      RunConcat(d, s, a, b');
    }
  }

  /** "A hit equals a recomputation" is not a theorem of the unit: it holds on every run exactly
      when the exact result is a function of the hash. */
  lemma {:induction false} CorrectIffResultFactorsThroughHash(d: Datapath, s: State)
    requires PowerOn(s)
    ensures CorrectOnEveryRun(d, s) <==>
      forall p, q :: Hash(p) == Hash(q) ==> d.Exact(p) == d.Exact(q)
  {
    if CorrectOnEveryRun(d, s) {
      forall p, q | Hash(p) == Hash(q)
        ensures d.Exact(p) == d.Exact(q)
      {
        CollidingPairServed(d, s, p, q);
        assert ResultExact(d, s, Request(p) + Request(q));
      }
    }
    if forall p, q :: Hash(p) == Hash(q) ==> d.Exact(p) == d.Exact(q) {
      forall ins
        ensures ResultExact(d, s, ins)
      {
        MemoInvisible(d, s, ins);
      }
    }
  }

  /** The hash ignores operand order, so asking for (a, b) and then (b, a) returns the first
      result twice. */
  lemma {:induction false} HashIgnoresOrder(a: Word, b: Word)
    ensures Hash(Pair(a, b)) == Hash(Pair(b, a))
  {
    hide BytesOf, XorAll, SetBits;
    var p, q := Pair(a, b), Pair(b, a);
    SameHashIff(p, q);
    forall k: nat
      ensures Alike(p, q, k)
    {
      SetBitsAppend(BytesOf(a), BytesOf(b), k);
      SetBitsAppend(BytesOf(b), BytesOf(a), k);
    }
  }

  lemma {:induction false} SwappedOperandsCollide(d: Datapath, s: State, a: Word, b: Word)
    requires PowerOn(s)
    ensures var t := Run(d, s, Request(Pair(a, b)) + Request(Pair(b, a)));
      t.oValid && t.oRd == d.Exact(Pair(a, b)) &&
      (t.oRd == d.Exact(Pair(b, a)) <==>
       Minus(d.exp(a), d.exp(b)) == Minus(d.ln(b), d.ln(a)))
  {
    hide Run, Request, Hash;
    HashIgnoresOrder(a, b);
    CollidingPairServed(d, s, Pair(a, b), Pair(b, a));
    SameDifference(d.exp(a), d.ln(b), d.exp(b), d.ln(a));
  }

  lemma {:induction false} SameDifference(w: Word, x: Word, y: Word, z: Word)
    ensures Minus(w, x) == Minus(y, z) <==> Minus(w, y) == Minus(x, z)
  {
    SameResidue(w - x, y - z);
    SameResidue(w - y, x - z);
  }

  lemma {:induction false} SameResidue(a: int, b: int)
    ensures a % U32 == b % U32 <==> (a - b) % U32 == 0
  {
    var k := a / U32 - b / U32;
    assert a - b == U32 * k + (a % U32 - b % U32);
  }

  /** The operands (0, 1.0) and (0, -32767.998) have one hash. */
  lemma {:induction false} OneAndNegativeCollide()
    ensures Hash(Pair(0, 0x1_0000)) == Hash(Pair(0, 0x8000_0081))
  {
    hide XorAll, Xor;
    var zeros := [0, 0, 0, 0];
    assert BytesOf(0) == zeros && BytesOf(0x1_0000) == [0, 0, 1, 0] && BytesOf(0x8000_0081) == [0x81, 0, 0, 0x80];
    assert zeros + [0, 0, 1, 0] == zeros + [0] + [0] + [1] + [0];
    assert zeros + [0x81, 0, 0, 0x80] == zeros + [0x81] + [0] + [0] + [0x80];
    NoXor(zeros);
    XorAllSnoc(zeros, 0);
    XorAllSnoc(zeros + [0], 0);
    XorAllSnoc(zeros + [0] + [0], 1);
    XorAllSnoc(zeros + [0] + [0] + [1], 0);
    XorAllSnoc(zeros, 0x81);
    XorAllSnoc(zeros + [0x81], 0);
    XorAllSnoc(zeros + [0x81] + [0], 0);
    XorAllSnoc(zeros + [0x81] + [0] + [0], 0x80);
    XorZero(0);
    XorZero(1);
    XorZero(0x81);
    OddAndEven(0x40);
  }

  lemma {:induction false} OddAndEven(n: nat)
    ensures Xor(2 * n + 1, 2 * n) == 1
  {
    XorSelf(n);
    XorHalves(2 * n + 1, 2 * n);
  }

  /** A wrong word, with values the datapath returns without its polynomials: exp(0) = 1.0,
      ln(1.0) = 0 and the error code for the logarithm of a negative number. After (0, 1.0) the
      request (0, -32767.998) is answered 1.0. */
  lemma {:induction false} WrongWordPresented(d: Datapath, s: State)
    requires PowerOn(s)
    requires d.exp(0) == 0x1_0000 && d.ln(0x1_0000) == 0 && d.ln(0x8000_0081) == 0x8000_0000
    ensures var p, q := Pair(0, 0x1_0000), Pair(0, 0x8000_0081);
      var t := Run(d, s, Request(p) + Request(q));
      t.oValid && t.oRd == 0x1_0000 && d.Exact(q) == 0x8001_0000
  {
    hide Run, Request, Hash;
    OneAndNegativeCollide();
    CollidingPairServed(d, s, Pair(0, 0x1_0000), Pair(0, 0x8000_0081));
  }

  /** The depth exception is dead: no run from power-on ever raises it. */
  lemma {:induction false} DepthExceptionNeverRaised(d: Datapath, s: State, ins: seq<Input>)
    requires PowerOn(s)
    ensures !Run(d, s, ins).oExc && Run(d, s, ins).depth <= 1
  {
    PowerOnInvariant(d, s);
    RunKeepsInvariant(d, s, NOTHING_YET, ins);
  }

  /** Some clock since the last reset had i_valid. */
  predicate RequestedSinceReset(ins: seq<Input>) {
    ins != [] && !ins[|ins| - 1].rst && (ins[|ins| - 1].valid || RequestedSinceReset(ins[..|ins| - 1]))
  }

  /** The formal wrapper's first property, o_ready == !o_valid, is false of the sticky o_valid:
      it holds at exactly the clocks before the first request since reset. */
  lemma {:induction false} ReadyComplementsValidIff(d: Datapath, s: State, ins: seq<Input>)
    requires PowerOn(s)
    ensures var t := Run(d, s, ins);
      (t.Ready() == !t.oValid <==> !RequestedSinceReset(ins)) &&
      (!RequestedSinceReset(ins) ==> t.Ready() && !t.oValid)
  {
    hide MemoMatches, Step;
    PowerOnInvariant(d, s);
    RunKeepsInvariant(d, s, NOTHING_YET, ins);
    if ins != [] {
      var n := |ins| - 1;
      RunKeepsInvariant(d, s, NOTHING_YET, ins[..n]);
      ReadyComplementsValidIff(d, s, ins[..n]);
      StepControl(d, Run(d, s, ins[..n]), ins[n]);
    }
  }

  // ---------------------------------------------------------------------------------------
  // The registers themselves
  // ---------------------------------------------------------------------------------------

  /** The unit as clocked hardware: `Tick` is one rising edge. The three memo arrays have no
      reset. The ghost log records what the unit has been asked. */
  class Unit {
    const d: Datapath
    var stage: Stage
    var fetch: Pair
    var fetchHash: nat
    var hit: bool
    var expResult: Word
    var lnResult: Word
    var result: Word
    var depth: nat
    var excDepth: bool
    var oRd: Word
    var oValid: bool
    var oExc: bool
    const memoValid: array<bool>
    const memoTags: array<nat>
    const memoData: array<Word>
    ghost var log: Log

    ghost predicate Wired()
      reads this
    {
      memoValid.Length == memoTags.Length == memoData.Length == MEMO_ENTRIES
    }

    ghost function Registers(): (s: State)
      reads this, memoValid, memoTags, memoData
      requires Wired()
      ensures s.WellFormed()
    {
      State(stage, fetch, fetchHash, hit, expResult, lnResult, result, depth, excDepth,
            oRd, oValid, oExc, Memo(memoValid[..], memoTags[..], memoData[..]))
    }

    ghost predicate Valid()
      reads this, memoValid, memoTags, memoData
    {
      Wired() && Invariant(d, Registers(), log)
    }

    constructor (d: Datapath)
      ensures Valid() && this.d == d && log == NOTHING_YET && PowerOn(Registers())
      ensures fresh(memoValid) && fresh(memoTags) && fresh(memoData)
    {
      this.d := d;
      stage, fetch, fetchHash, hit := Idle, Pair(0, 0), 0, false;
      expResult, lnResult, result := 0, 0, 0;
      depth, excDepth, oRd, oValid, oExc := 0, false, 0, false, false;
      memoValid := new bool[MEMO_ENTRIES](_ => false);
      memoTags := new nat[MEMO_ENTRIES](_ => 0);
      memoData := new Word[MEMO_ENTRIES](_ => 0);
      log := NOTHING_YET;
      new;
      PowerOnInvariant(d, Registers());
    }

    /** One rising clock edge. */
    method Tick(i: Input)
      requires Valid()
      modifies this, memoValid, memoTags, memoData
      ensures Valid()
      ensures Registers() == Step(d, old(Registers()), i)
      ensures log == NextLog(old(Registers()), old(log), i)
    {
      hide Step, NextLog, Invariant, Hash, Index;
      StepKeepsInvariant(d, Registers(), log, i);
      ghost var next := NextLog(Registers(), log, i);
      Clock(i);
      log := next;
    }

    method Clock(i: Input)
      requires Wired()
      modifies this, memoValid, memoTags, memoData
      ensures Registers() == Step(d, old(Registers()), i) && log == old(log)
    {
      hide Advance, Hash, Index;
      if i.rst {
        stage, fetch, fetchHash := Idle, Pair(0, 0), 0;
        depth, excDepth, oRd, oValid, oExc := 0, false, 0, false, false;
      } else {
        var deep := depth > MaxDepth(i.cfg) + 1;
        var count := if stage == Idle && i.valid then (depth + 1) % 8
                     else if stage == WriteBack then 0 else depth;
        AdvanceStage(i);
        depth, excDepth := count, deep;
      }
    }

    /** The case statement over the stage register. */
    method AdvanceStage(i: Input)
      requires Wired()
      modifies this, memoValid, memoTags, memoData
      ensures Registers() == Advance(d, old(Registers()), i) && log == old(log)
    {
      match stage {
        case Idle =>
          if i.valid {
            fetch, fetchHash := i.ops, Hash(i.ops);
            oValid, oExc, stage := false, false, Fetch;
          }
        case Fetch =>
          LookUp();
        case WriteBack =>
          if !hit {
            StoreMiss();
          }
          oRd, oValid, oExc, stage := result, true, excDepth, Idle;
        case _ =>
          Compute(i);
      }
    }

    method Compute(i: Input)
      requires Wired() && stage in {Exp, Ln, Sub, Unused}
      modifies this
      ensures Registers() == Advance(d, old(Registers()), i) && log == old(log)
    {
      match stage {
        case Exp =>
          expResult, stage := d.exp(fetch.rs1), Ln;
        case Ln =>
          lnResult, stage := d.ln(fetch.rs2), Sub;
        case Sub =>
          if !hit {
            result := Minus(expResult, lnResult);
          }
          stage := WriteBack;
        case Unused =>
          stage := Idle;
      }
    }

    method LookUp()
      requires Wired() && stage == Fetch
      modifies this
      ensures var s := old(Registers()); var e := s.Selected();
        var h := e.valid && e.tag == s.fetchHash;
        Registers() == s.(result := if h then e.data else s.result, hit := h, stage := Exp)
      ensures log == old(log)
    {
      var slot := Index(fetchHash);
      hit := memoValid[slot] && memoTags[slot] == fetchHash;
      if hit {
        result := memoData[slot];
      }
      stage := Exp;
    }

    method StoreMiss()
      requires Wired()
      modifies memoValid, memoTags, memoData
      ensures Registers().memo == old(Registers().memo).Store(Index(fetchHash), fetchHash, result)
    {
      var slot := Index(fetchHash);
      memoTags[slot], memoData[slot], memoValid[slot] := fetchHash, result, true;
    }
  }
}
