/** Machine instructions, control flow and a deterministic semantics for them. */
module MachineCode {

  type Reg = r: nat | r < 0x1_0000_0000

  /** Register operands written or read, immediates, and every other kind of operand. */
  datatype Operand = Def(reg: Reg) | Use(reg: Reg) | Imm(value: int) | Other(symbol: nat)

  /** The EML opcodes, every other opcode, and the PHI nodes at the head of a block taken together:
      their operands are the registers they define, and `sources` holds what these receive for each
      point control may come from. */
  datatype Opcode =
    | XE_EXP | XE_LN | XE_SUB | XE_MUL | XE_ADD | XE_DIV
    | Phi(sources: map<int, seq<Operand>>)
    | Target(code: nat)

  predicate IsEml(op: Opcode) {
    !op.Target? && !op.Phi?
  }

  datatype Instr = Instr(opcode: Opcode, operands: seq<Operand>)

  predicate Defines(i: Instr, r: Reg) {
    Def(r) in i.operands
  }

  /** The operands that feed the computation, in order. */
  function UseOps(ops: seq<Operand>): (uses: seq<Operand>)
    ensures forall o :: o in uses <==> o in ops && !o.Def?
  {
    if ops == [] then [] else (if ops[0].Def? then [] else [ops[0]]) + UseOps(ops[1..])
  }

  /** What an instruction reads when control comes from point `prev`. */
  function Sources(i: Instr, prev: int): (uses: seq<Operand>)
    ensures forall o :: o in uses ==> !o.Def?
  {
    if !i.opcode.Phi? then UseOps(i.operands)
    else if prev in i.opcode.sources then UseOps(i.opcode.sources[prev])
    else []
  }

  predicate Reads(i: Instr, prev: int, r: Reg) {
    Use(r) in Sources(i, prev)
  }

  /** An EML instruction writes its first operand and nothing else. */
  predicate EmlShape(i: Instr) {
    i.operands != [] && i.operands[0].Def? && forall k :: 0 < k < |i.operands| ==> !i.operands[k].Def?
  }

  /** PHI nodes define distinct registers and have one source register for each, per predecessor. */
  predicate PhiShape(i: Instr)
    requires i.opcode.Phi?
  {
    (forall k :: 0 <= k < |i.operands| ==> i.operands[k].Def?) &&
    (forall j, k :: 0 <= j < k < |i.operands| ==> i.operands[j] != i.operands[k]) &&
    forall prev :: prev in i.opcode.sources ==>
      |i.opcode.sources[prev]| == |i.operands| && forall o :: o in i.opcode.sources[prev] ==> o.Use?
  }

  /** Some EML instruction writes or reads the register. */
  ghost predicate EmlReg(code: seq<Instr>, r: Reg) {
    exists p :: 0 <= p < |code| && IsEml(code[p].opcode) && (Defines(code[p], r) || Use(r) in code[p].operands)
  }

  /** Each register of an EML instruction has at most one defining point, and EML instructions and
      PHI nodes have their shape. Other registers, physical ones among them, may be written anywhere. */
  ghost predicate Ssa(code: seq<Instr>) {
    (forall p, q, r ::
      (0 <= p < |code| && 0 <= q < |code| && EmlReg(code, r) && Defines(code[p], r) && Defines(code[q], r)) ==>
      p == q) &&
    (forall p :: 0 <= p < |code| && IsEml(code[p].opcode) ==> EmlShape(code[p])) &&
    (forall p :: 0 <= p < |code| && code[p].opcode.Phi? ==> PhiShape(code[p]))
  }

  // ---------------------------------------------------------------------------------------
  // Control flow between program points
  // ---------------------------------------------------------------------------------------

  /** A flow graph over instruction positions. */
  datatype Flow = Flow(entry: nat, edge: (nat, nat) -> bool)

  type Path = seq<nat>

  predicate IsPath(flow: Flow, code: seq<Instr>, path: Path) {
    (forall k :: 0 <= k < |path| ==> path[k] < |code|) &&
    (path != [] ==> path[0] == flow.entry) &&
    (forall k :: 0 <= k < |path| - 1 ==> flow.edge(path[k], path[k + 1]))
  }

  predicate PathTo(flow: Flow, code: seq<Instr>, path: Path, p: nat) {
    IsPath(flow, code, path) && path != [] && path[|path| - 1] == p
  }

  ghost predicate Reachable(flow: Flow, code: seq<Instr>, p: nat) {
    exists path :: PathTo(flow, code, path, p)
  }

  /** The point a path comes from when it arrives at index `n`; -1 on entry. */
  function Prev(path: Path, n: nat): int
    requires n <= |path|
  {
    if n == 0 then -1 else path[n - 1]
  }

  /** Control can come to `u` from `prev`. */
  ghost predicate Arrives(flow: Flow, code: seq<Instr>, prev: int, u: nat) {
    u < |code| &&
    if prev < 0 then prev == -1 && u == flow.entry else Reachable(flow, code, prev) && flow.edge(prev, u)
  }

  /** Whenever control leaves `prev` it has visited `a`. */
  ghost predicate Covers(flow: Flow, code: seq<Instr>, a: nat, prev: int) {
    prev >= 0 && forall path :: PathTo(flow, code, path, prev) ==> a in path
  }

  /** Every path to `b` has passed `a` before arriving. */
  ghost predicate Dominates(flow: Flow, code: seq<Instr>, a: nat, b: nat) {
    forall path :: PathTo(flow, code, path, b) ==> a in path[..|path| - 1]
  }

  /** A register of an EML instruction, if defined in the function, has been defined wherever it is
      read; for a PHI node, when control comes from the predecessor in question. */
  ghost predicate DefsDominateReads(flow: Flow, code: seq<Instr>) {
    forall d: nat, u: nat, prev: int, r ::
      (d < |code| && EmlReg(code, r) && Defines(code[d], r) && Arrives(flow, code, prev, u) &&
       Reads(code[u], prev, r)) ==>
      Covers(flow, code, d, prev)
  }

  lemma {:induction false} PathPrefix(flow: Flow, code: seq<Instr>, path: Path, n: nat)
    requires IsPath(flow, code, path) && n <= |path|
    ensures IsPath(flow, code, path[..n])
    ensures n > 0 ==> PathTo(flow, code, path[..n], path[n - 1])
  {
  }

  lemma {:induction false} PathArrives(flow: Flow, code: seq<Instr>, path: Path, n: nat)
    requires IsPath(flow, code, path) && n < |path|
    ensures Arrives(flow, code, Prev(path, n), path[n])
  {
    PathPrefix(flow, code, path, n);
    assert n > 0 ==> flow.edge(path[n - 1], path[n - 1 + 1]);
  }

  /** The last index below `n` at which the path is at `p`, or -1. */
  function LastVisit(path: Path, n: nat, p: nat): (k: int)
    requires n <= |path|
    ensures -1 <= k < n
    ensures k >= 0 ==> path[k] == p
    ensures forall j :: k < j < n ==> path[j] != p
  {
    if n == 0 then -1 else if path[n - 1] == p then n - 1 else LastVisit(path, n - 1, p)
  }

  function FirstVisit(path: Path, p: nat): (k: nat)
    requires p in path
    ensures k < |path| && path[k] == p
    ensures forall j :: 0 <= j < k ==> path[j] != p
  {
    if path[0] == p then 0
    else
      assert path == [path[0]] + path[1..];
      FirstVisit(path[1..], p) + 1
  }

  lemma {:induction false} CoverVisited(flow: Flow, code: seq<Instr>, path: Path, n: nat, a: nat)
    requires IsPath(flow, code, path) && n <= |path| && Covers(flow, code, a, Prev(path, n))
    ensures LastVisit(path, n, a) >= 0
  {
    PathPrefix(flow, code, path, n);
    assert a in path[..n];
    var j :| 0 <= j < n && path[..n][j] == a;
    assert path[j] == a;
  }

  lemma {:induction false} EntryNotDominated(flow: Flow, code: seq<Instr>, a: nat)
    requires flow.entry < |code|
    ensures !Dominates(flow, code, a, flow.entry)
  {
    var path := [flow.entry];
    assert PathTo(flow, code, path, flow.entry) && path[..|path| - 1] == [];
  }

  /** A dominator covers every point control comes from. */
  lemma {:induction false} DominatorCovers(flow: Flow, code: seq<Instr>, a: nat, prev: int, b: nat)
    requires Dominates(flow, code, a, b) && Arrives(flow, code, prev, b)
    ensures Covers(flow, code, a, prev)
  {
    if prev < 0 {
      EntryNotDominated(flow, code, a);
    } else {
      forall path | PathTo(flow, code, path, prev)
        ensures a in path
      {
        var on := path + [b];
        assert PathTo(flow, code, on, b);
        assert on[..|on| - 1] == path;
      }
    }
  }

  /** And the other way round. */
  lemma {:induction false} CoversDominate(flow: Flow, code: seq<Instr>, a: nat, b: nat)
    requires forall prev :: Arrives(flow, code, prev, b) ==> Covers(flow, code, a, prev)
    ensures Dominates(flow, code, a, b)
  {
    forall path | PathTo(flow, code, path, b)
      ensures a in path[..|path| - 1]
    {
      var n := |path| - 1;
      PathArrives(flow, code, path, n);
      CoverVisited(flow, code, path, n, a);
      assert path[..n][LastVisit(path, n, a)] == a;
    }
  }

  /** Cutting a closed walk out of a path leaves a path. */
  lemma {:induction false} CutLoop(flow: Flow, code: seq<Instr>, path: Path, k: nat, j: nat, n: nat)
    requires IsPath(flow, code, path) && k <= j < n <= |path| && path[k] == path[j]
    ensures PathTo(flow, code, path[..k + 1] + path[j + 1..n], path[n - 1])
  {
    var front, back := path[..k + 1], path[j + 1..n];
    var cut := front + back;
    forall m | 0 <= m < |cut| - 1
      ensures flow.edge(cut[m], cut[m + 1])
    {
      CutEdge(flow, code, path, k, j, n, m);
    }
    assert cut[|cut| - 1] == path[n - 1];
  }

  lemma {:induction false} CutEdge(flow: Flow, code: seq<Instr>, path: Path, k: nat, j: nat, n: nat, m: nat)
    requires IsPath(flow, code, path) && k <= j < n <= |path| && path[k] == path[j]
    requires m < k + n - j - 1
    ensures var cut := path[..k + 1] + path[j + 1..n];
      |cut| == k + n - j && flow.edge(cut[m], cut[m + 1])
  {
    if m < k {
      assert flow.edge(path[m], path[m + 1]);
    } else {
      assert flow.edge(path[j + m - k], path[j + m - k + 1]);
    }
  }

  lemma {:induction false} OnEveryPath(flow: Flow, code: seq<Instr>, path: Path, b: nat, prev: nat)
    requires Covers(flow, code, b, prev) && PathTo(flow, code, path, prev)
    ensures b in path
  {
  }

  lemma {:induction false} NotBeforeDominator(flow: Flow, code: seq<Instr>, path: Path, a: nat, b: nat, m: nat)
    requires IsPath(flow, code, path) && Dominates(flow, code, a, b)
    requires a in path && m <= FirstVisit(path, a)
    ensures path[m] != b
  {
    if path[m] == b {
      PathArrives(flow, code, path, m);
      DominatorCovers(flow, code, a, Prev(path, m), b);
      CoverVisited(flow, code, path, m, a);
    }
  }

  lemma {:induction false} CutAvoids(
    flow: Flow, code: seq<Instr>, path: Path, n: nat, a: nat, b: nat, k: nat, j: nat)
    requires IsPath(flow, code, path) && k <= j < n <= |path| && Dominates(flow, code, a, b)
    requires a in path && k == FirstVisit(path, a)
    requires forall m :: j < m < n ==> path[m] != b
    ensures b !in path[..k + 1] + path[j + 1..n]
  {
    forall m | 0 <= m < k + 1
      ensures path[m] != b
    {
      NotBeforeDominator(flow, code, path, a, b, m);
    }
  }

  /** When `a` dominates `b` and `b` covers where the path comes from, `b` was visited more recently
      than `a`: otherwise cutting out the loop between the first and the last visit of `a` would
      leave a path that avoids `b`. */
  lemma {:induction false} DominatorsInOrder(
    flow: Flow, code: seq<Instr>, path: Path, n: nat, a: nat, b: nat)
    requires IsPath(flow, code, path) && n <= |path|
    requires Dominates(flow, code, a, b) && Covers(flow, code, b, Prev(path, n))
    ensures LastVisit(path, n, a) < LastVisit(path, n, b)
  {
    CoverVisited(flow, code, path, n, b);
    var i, j := LastVisit(path, n, b), LastVisit(path, n, a);
    if j >= i {
      assert path[j] == a;
      var k := FirstVisit(path, a);
      CutLoop(flow, code, path, k, j, n);
      CutAvoids(flow, code, path, n, a, b, k, j);
      OnEveryPath(flow, code, path[..k + 1] + path[j + 1..n], b, path[n - 1]);
    }
  }

  // ---------------------------------------------------------------------------------------
  // Semantics
  // ---------------------------------------------------------------------------------------

  datatype Input<V> = Value(v: V) | Constant(imm: int) | Symbol(id: nat)

  datatype Outcome<V, W> = Outcome(values: nat -> V, world: W)

  /** EML instructions are functions of their inputs; instructions other than these and PHI nodes may
      also read and change the rest of the machine. */
  datatype Semantics<!V, !W> = Semantics(
    eml: (Opcode, seq<Input<V>>) -> V,
    effect: (Opcode, seq<Input<V>>, W) -> Outcome<V, W>,
    undefined: V)

  datatype State<V, W> = State(regs: Reg -> V, world: W)

  function InputOf<V>(o: Operand, regs: Reg -> V): Input<V>
    requires !o.Def?
  {
    match o
    case Use(r) => Value(regs(r))
    case Imm(v) => Constant(v)
    case Other(s) => Symbol(s)
  }

  function Inputs<V>(uses: seq<Operand>, regs: Reg -> V): (ins: seq<Input<V>>)
    requires forall o :: o in uses ==> !o.Def?
    ensures |ins| == |uses|
    ensures forall k :: 0 <= k < |uses| ==> ins[k] == InputOf(uses[k], regs)
  {
    seq(|uses|, k requires 0 <= k < |uses| => InputOf(uses[k], regs))
  }

  function DefIndex(ops: seq<Operand>, r: Reg): (k: nat)
    requires Def(r) in ops
    ensures k < |ops| && ops[k] == Def(r)
  {
    if ops[0] == Def(r) then 0 else 1 + DefIndex(ops[1..], r)
  }

  /** What PHI nodes copy: the `k`-th input to the `k`-th register, all at once. */
  function Copy<V, W>(sem: Semantics<V, W>, ins: seq<Input<V>>, k: nat): V {
    if k < |ins| && ins[k].Value? then ins[k].v else sem.undefined
  }

  function OutcomeOf<V, W>(sem: Semantics<V, W>, op: Opcode, ins: seq<Input<V>>, world: W): Outcome<V, W> {
    if IsEml(op) then Outcome(_ => sem.eml(op, ins), world)
    else if op.Phi? then Outcome((k: nat) => Copy(sem, ins, k), world)
    else sem.effect(op, ins, world)
  }

  /** Write the results to the registers the instruction defines. */
  function WriteBack<V, W>(i: Instr, out: Outcome<V, W>, st: State<V, W>): State<V, W> {
    State(r => if Defines(i, r) then out.values(DefIndex(i.operands, r)) else st.regs(r), out.world)
  }

  function Exec<V, W>(sem: Semantics<V, W>, i: Instr, prev: int, st: State<V, W>): State<V, W> {
    WriteBack(i, OutcomeOf(sem, i.opcode, Inputs(Sources(i, prev), st.regs), st.world), st)
  }

  /** Execute the instructions at the points of the path, in order. */
  function Run<V, W>(sem: Semantics<V, W>, code: seq<Instr>, path: Path, st: State<V, W>): State<V, W>
    requires forall k :: 0 <= k < |path| ==> path[k] < |code|
  {
    if path == [] then st
    else
      var n := |path| - 1;
      Exec(sem, code[path[n]], Prev(path, n), Run(sem, code, path[..n], st))
  }

  lemma {:induction false} OthersKept<V, W>(sem: Semantics<V, W>, i: Instr, prev: int, st: State<V, W>, r: Reg)
    requires !Defines(i, r)
    ensures Exec(sem, i, prev, st).regs(r) == st.regs(r)
  {
  }

  /** A register keeps its value between visits of its definition. */
  lemma {:induction false} Unchanged<V, W>(
    sem: Semantics<V, W>, code: seq<Instr>, path: Path, st: State<V, W>, i: nat, j: nat, r: Reg)
    requires forall k :: 0 <= k < |path| ==> path[k] < |code|
    requires i <= j <= |path|
    requires forall k :: i <= k < j ==> !Defines(code[path[k]], r)
    ensures Run(sem, code, path[..j], st).regs(r) == Run(sem, code, path[..i], st).regs(r)
    decreases j
  {
    hide Exec;
    if i < j {
      Unchanged(sem, code, path, st, i, j - 1, r);
      assert path[..j][..j - 1] == path[..j - 1];
      OthersKept(sem, code[path[j - 1]], Prev(path[..j], j - 1), Run(sem, code, path[..j - 1], st), r);
    }
  }
}
