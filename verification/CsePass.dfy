/** The common-subexpression elimination pass: what it records and what it erases. */
module CsePass {
  import opened MachineCode

  /** A DAG node: opcode and operand numbers, registers and immediates in one list. */
  datatype Node = Node(opcode: Opcode, operands: seq<nat>)

  /** The conversion to `unsigned`. */
  function Unsigned(v: int): nat {
    v % 0x1_0000_0000
  }

  /** Operand numbers of the read registers and immediates; other operands leave no trace. */
  function Encode(uses: seq<Operand>): (ns: seq<nat>)
    ensures |ns| <= |uses|
  {
    if uses == [] then []
    else
      match uses[0]
      case Use(r) => [r] + Encode(uses[1..])
      case Imm(v) => [Unsigned(v)] + Encode(uses[1..])
      case _ => Encode(uses[1..])
  }

  function NodeOf(i: Instr): Node {
    Node(i.opcode, Encode(i.operands))
  }

  /** The destination of an EML instruction. */
  function DestOf(i: Instr): (r: Reg)
    ensures EmlShape(i) ==> Defines(i, r)
  {
    if EmlShape(i) then i.operands[0].reg else 0
  }

  /** Operand 0 when it is a register, written or read. */
  predicate HasReg0(i: Instr) {
    i.operands != [] && (i.operands[0].Def? || i.operands[0].Use?)
  }

  /** The pass's tables, with a record of the points that were named or erased.
      `leaders[id]` is the point that created node `id`; `erased[p]` the one kept in its place. */
  datatype Tables = Tables(
    cse: map<Node, nat>, nodes: seq<Node>, regs: map<nat, Reg>,
    leaders: seq<nat>, erased: map<nat, nat>, changed: bool)
  {
    function Record(p: nat, i: Instr): Tables {
      var id := |nodes|;
      Tables(cse[NodeOf(i) := id], nodes + [NodeOf(i)],
             if HasReg0(i) then regs[id := i.operands[0].reg] else regs,
             leaders + [p], erased, changed)
    }

    /** Reading a missing entry of node_to_reg creates it. */
    function Erase(p: nat, i: Instr): Tables
      requires NodeOf(i) in cse && cse[NodeOf(i)] < |leaders|
    {
      var id := cse[NodeOf(i)];
      this.(regs := if HasReg0(i) && id !in regs then regs[id := 0] else regs,
            erased := erased[p := leaders[id]])
    }

    predicate Linked() {
      |leaders| == |nodes| && forall n :: n in cse ==> cse[n] < |nodes| && nodes[cse[n]] == n
    }
  }

  const FRESH := Tables(map[], [], map[], [], map[], false)

  predicate Repeats(t: Tables, i: Instr) {
    IsEml(i.opcode) && NodeOf(i) in t.cse
  }

  /** The tables after one visited instruction. */
  function Visit(t: Tables, p: nat, i: Instr): (t': Tables)
    requires t.Linked()
    ensures t'.Linked() && t'.changed == t.changed
  {
    if !IsEml(i.opcode) then t else if NodeOf(i) in t.cse then t.Erase(p, i) else t.Record(p, i)
  }

  /** The inner loop from instruction `i` of a block whose first point is `base`. After an
      erasure the iterator already stands on the next instruction and the loop increment steps
      over it; at the end of the block the loop breaks before `Changed` is set. */
  function ScanBlock(base: nat, block: seq<Instr>, i: nat, t: Tables): (t': Tables)
    requires t.Linked() && i <= |block|
    ensures t'.Linked()
    decreases |block| - i
  {
    if i == |block| then t
    else
      var t' := Visit(t, base + i, block[i]);
      if !Repeats(t, block[i]) then ScanBlock(base, block, i + 1, t')
      else if i + 1 == |block| then t'
      else ScanBlock(base, block, i + 2, t'.(changed := true))
  }

  function ScanBlocks(base: nat, blocks: seq<seq<Instr>>, t: Tables): (t': Tables)
    requires t.Linked()
    ensures t'.Linked()
    decreases |blocks|
  {
    if blocks == [] then t
    else ScanBlocks(base + |blocks[0]|, blocks[1..], ScanBlock(base, blocks[0], 0, t))
  }

  function Analyse(blocks: seq<seq<Instr>>): (t: Tables)
    ensures t.Linked()
  {
    ScanBlocks(0, blocks, FRESH)
  }

  /** What is left of the first `n` instructions of a block. */
  function Kept(base: nat, block: seq<Instr>, n: nat, erased: map<nat, nat>): (kept: seq<Instr>)
    requires n <= |block|
    ensures |kept| <= n
  {
    if n == 0 then []
    else Kept(base, block, n - 1, erased) + if base + n - 1 in erased then [] else [block[n - 1]]
  }

  function KeptBlocks(base: nat, blocks: seq<seq<Instr>>, erased: map<nat, nat>): (kept: seq<seq<Instr>>)
    ensures |kept| == |blocks|
    decreases |blocks|
  {
    if blocks == [] then []
    else [Kept(base, blocks[0], |blocks[0]|, erased)] +
         KeptBlocks(base + |blocks[0]|, blocks[1..], erased)
  }

  /** The erased points among `n` from `base` on. */
  function ErasedFrom(base: nat, n: nat, erased: map<nat, nat>): (ps: set<nat>) {
    set p | p in erased && base <= p < base + n
  }

  lemma {:induction false} ErasedFromStep(base: nat, n: nat, erased: map<nat, nat>)
    ensures ErasedFrom(base, 0, erased) == {} && base + n !in ErasedFrom(base, n, erased)
    ensures ErasedFrom(base, n + 1, erased) ==
      ErasedFrom(base, n, erased) + if base + n in erased then {base + n} else {}
  {
  }

  /** What is left of a block, instruction by instruction: each survivor stands as many places further
      up as instructions before it are erased. */
  lemma {:induction false} KeptInOrder(base: nat, block: seq<Instr>, n: nat, erased: map<nat, nat>)
    requires n <= |block|
    ensures |Kept(base, block, n, erased)| == n - |ErasedFrom(base, n, erased)|
    ensures forall k: nat :: k < n && base + k !in erased ==>
      0 <= k - |ErasedFrom(base, k, erased)| < |Kept(base, block, n, erased)| &&
      Kept(base, block, n, erased)[k - |ErasedFrom(base, k, erased)|] == block[k]
    decreases n
  {
    hide ErasedFrom;
    if n > 0 {
      KeptInOrder(base, block, n - 1, erased);
      ErasedFromStep(base, n - 1, erased);
    } else {
      ErasedFromStep(base, 0, erased);
    }
  }

  /** All instructions in layout order; their positions are the points. */
  function Flat(blocks: seq<seq<Instr>>): seq<Instr>
    decreases |blocks|
  {
    if blocks == [] then [] else blocks[0] + Flat(blocks[1..])
  }

  /** The same for block `b` of a function. */
  lemma {:induction false} SurvivorsInOrder(base: nat, blocks: seq<seq<Instr>>, erased: map<nat, nat>, b: nat)
    requires b < |blocks|
    ensures var block, left := blocks[b], KeptBlocks(base, blocks, erased)[b];
      var first := base + |Flat(blocks[..b])|;
      |left| == |block| - |ErasedFrom(first, |block|, erased)| &&
      forall k: nat :: k < |block| && first + k !in erased ==>
        0 <= k - |ErasedFrom(first, k, erased)| < |left| && left[k - |ErasedFrom(first, k, erased)|] == block[k]
    decreases |blocks|
  {
    hide Kept, ErasedFrom;
    if b == 0 {
      assert Flat(blocks[..0]) == [];
      KeptInOrder(base, blocks[0], |blocks[0]|, erased);
    } else {
      SurvivorsInOrder(base + |blocks[0]|, blocks[1..], erased, b - 1);
      assert blocks[..b][1..] == blocks[1..][..b - 1];
      assert |Flat(blocks[..b])| == |blocks[0]| + |Flat(blocks[1..][..b - 1])|;
    }
  }

  /** A basic block; instructions are erased in place. */
  class MachineBasicBlock {
    var instrs: seq<Instr>

    constructor (instrs: seq<Instr>)
      ensures this.instrs == instrs
    {
      this.instrs := instrs;
    }
  }

  lemma {:induction false} KeptStable(
    base: nat, block: seq<Instr>, n: nat, erased: map<nat, nat>, erased': map<nat, nat>)
    requires n <= |block|
    requires forall p :: p < base + n ==> (p in erased <==> p in erased')
    ensures Kept(base, block, n, erased) == Kept(base, block, n, erased')
    decreases n
  {
    if n > 0 {
      KeptStable(base, block, n - 1, erased, erased');
    }
  }

  /** Where the inner loop goes from instruction `i`. */
  lemma {:induction false} ScanStep(base: nat, block: seq<Instr>, i: nat, t: Tables)
    requires t.Linked() && i < |block|
    ensures var t' := Visit(t, base + i, block[i]);
      var marked := t'.(changed := true);
      marked.Linked() &&
      ScanBlock(base, block, i, t) ==
        if !Repeats(t, block[i]) then ScanBlock(base, block, i + 1, t')
        else if i + 1 == |block| then t'
        else ScanBlock(base, block, i + 2, marked)
  {
  }

  /** What holds at the top of the inner loop: `now` is the block so far, with its first `i`
      original instructions processed, and the rest of the scan leads to `goal`. */
  predicate Visiting(
    base: nat, block: seq<Instr>, i: nat, at: nat, now: seq<Instr>, t: Tables, goal: Tables)
  {
    i <= |block| && t.Linked() &&
    (forall p :: p in t.erased ==> p < base + i) &&
    ScanBlock(base, block, i, t) == goal &&
    at == |Kept(base, block, i, t.erased)| &&
    now == Kept(base, block, i, t.erased) + block[i..]
  }

  lemma {:induction false} VisitingStart(base: nat, block: seq<Instr>, t: Tables)
    requires t.Linked() && forall p :: p in t.erased ==> p < base
    ensures Visiting(base, block, 0, 0, block, t, ScanBlock(base, block, 0, t))
  {
    assert block == [] + block[0..];
  }

  /** At the end of the block nothing is left to scan; before it the iterator stands on the
      original instruction `i`. */
  lemma {:induction false} VisitingAt(
    base: nat, block: seq<Instr>, i: nat, at: nat, now: seq<Instr>, t: Tables, goal: Tables)
    requires Visiting(base, block, i, at, now, t, goal)
    ensures t.Linked() && i <= |block|
    ensures at < |now| ==> i < |block| && now[at] == block[i]
    ensures at >= |now| ==>
      t == goal && now == Kept(base, block, |block|, t.erased) && forall p :: p in t.erased ==> p < base + |block|
  {
  }

  lemma {:induction false} KeepVisited(
    base: nat, block: seq<Instr>, i: nat, at: nat, now: seq<Instr>, t: Tables, goal: Tables)
    requires Visiting(base, block, i, at, now, t, goal)
    requires i < |block| && !Repeats(t, block[i])
    ensures Visiting(base, block, i + 1, at + 1, now, Visit(t, base + i, block[i]), goal)
  {
    var t' := Visit(t, base + i, block[i]);
    ScanStep(base, block, i, t);
    assert t'.erased == t.erased;
    StepOver(Kept(base, block, i, t.erased), block, i);
  }

  lemma {:induction false} StepOver(kept: seq<Instr>, block: seq<Instr>, i: nat)
    requires i < |block|
    ensures kept + block[i..] == kept + [block[i]] + block[i + 1..]
  {
  }

  lemma {:induction false} CutOut(kept: seq<Instr>, block: seq<Instr>, i: nat)
    requires i < |block|
    ensures var now := kept + block[i..];
      now[..|kept|] + now[|kept| + 1..] == kept + block[i + 1..]
  {
  }

  /** Cutting the iterator's instruction out of the block: the iterator then stands on the next
      one, which the loop increment steps over. */
  lemma {:induction false} EraseVisited(
    base: nat, block: seq<Instr>, i: nat, at: nat, now: seq<Instr>, t: Tables, goal: Tables)
    requires Visiting(base, block, i, at, now, t, goal)
    requires i < |block| && Repeats(t, block[i])
    ensures var t', now' := Visit(t, base + i, block[i]), now[..at] + now[at + 1..];
      if i + 1 == |block|
      then at == |now'| && t' == goal && now' == Kept(base, block, i + 1, t'.erased) &&
           forall p :: p in t'.erased ==> p < base + |block|
      else at < |now'| && Visiting(base, block, i + 2, at + 1, now', t'.(changed := true), goal)
  {
    var t', kept := Visit(t, base + i, block[i]), Kept(base, block, i, t.erased);
    ScanStep(base, block, i, t);
    KeptStable(base, block, i, t.erased, t'.erased);
    assert Kept(base, block, i + 1, t'.erased) == kept;
    CutOut(kept, block, i);
    if i + 1 < |block| {
      assert base + i + 1 !in t'.erased;
      assert Kept(base, block, i + 2, t'.erased) == kept + [block[i + 1]];
      StepOver(kept, block, i + 1);
    }
  }

  /** Later blocks erase only later points. */
  lemma {:induction false} ScanBlockErasesAhead(base: nat, block: seq<Instr>, i: nat, t: Tables)
    requires t.Linked() && i <= |block|
    ensures forall p :: p < base + i ==> (p in t.erased <==> p in ScanBlock(base, block, i, t).erased)
    decreases |block| - i
  {
    if i < |block| {
      var t' := Visit(t, base + i, block[i]);
      ScanStep(base, block, i, t);
      if !Repeats(t, block[i]) {
        ScanBlockErasesAhead(base, block, i + 1, t');
      } else if i + 1 < |block| {
        ScanBlockErasesAhead(base, block, i + 2, t'.(changed := true));
      }
    }
  }

  lemma {:induction false} ScanBlocksErasesAhead(base: nat, blocks: seq<seq<Instr>>, t: Tables)
    requires t.Linked()
    ensures forall p :: p < base ==> (p in t.erased <==> p in ScanBlocks(base, blocks, t).erased)
    decreases |blocks|
  {
    if blocks != [] {
      ScanBlockErasesAhead(base, blocks[0], 0, t);
      ScanBlocksErasesAhead(base + |blocks[0]|, blocks[1..], ScanBlock(base, blocks[0], 0, t));
    }
  }

  /** What holds between blocks: `rest` is still to be scanned, `done` is what is left of the
      blocks before it. */
  predicate Walking(
    base: nat, rest: seq<seq<Instr>>, done: seq<seq<Instr>>, t: Tables, all: seq<seq<Instr>>, goal: Tables)
  {
    t.Linked() && (forall p :: p in t.erased ==> p < base) && ScanBlocks(base, rest, t) == goal &&
    done + KeptBlocks(base, rest, goal.erased) == KeptBlocks(0, all, goal.erased)
  }

  lemma {:induction false} WalkOn(
    base: nat, rest: seq<seq<Instr>>, done: seq<seq<Instr>>, t: Tables, all: seq<seq<Instr>>, goal: Tables)
    requires Walking(base, rest, done, t, all, goal) && rest != []
    ensures var t', end := ScanBlock(base, rest[0], 0, t), base + |rest[0]|;
      (forall p :: p in t'.erased ==> p < end) ==>
        Walking(end, rest[1..], done + [Kept(base, rest[0], |rest[0]|, t'.erased)], t', all, goal)
  {
    var t', end := ScanBlock(base, rest[0], 0, t), base + |rest[0]|;
    ScanBlocksErasesAhead(end, rest[1..], t');
    KeptStable(base, rest[0], |rest[0]|, t'.erased, goal.erased);
  }

  lemma {:induction false} WalkStart(all: seq<seq<Instr>>)
    ensures Walking(0, all, [], FRESH, all, Analyse(all))
  {
    assert [] + KeptBlocks(0, all, Analyse(all).erased) == KeptBlocks(0, all, Analyse(all).erased);
  }

  lemma {:induction false} WalkEnd(
    base: nat, done: seq<seq<Instr>>, t: Tables, all: seq<seq<Instr>>, goal: Tables)
    requires Walking(base, [], done, t, all, goal)
    ensures t == goal && done == KeptBlocks(0, all, goal.erased)
  {
  }

  function Contents(blocks: seq<MachineBasicBlock>): (cs: seq<seq<Instr>>)
    reads blocks
    ensures |cs| == |blocks| && forall k :: 0 <= k < |blocks| ==> cs[k] == blocks[k].instrs
    decreases |blocks|
  {
    if blocks == [] then [] else [blocks[0].instrs] + Contents(blocks[1..])
  }

  class XcewOptPass {
    var cseMap: map<Node, nat>
    var uniqueNodes: seq<Node>
    var nodeToReg: map<nat, Reg>
    ghost var leaders: seq<nat>
    ghost var erased: map<nat, nat>

    ghost function Snapshot(changed: bool): Tables
      reads this
    {
      Tables(cseMap, uniqueNodes, nodeToReg, leaders, erased, changed)
    }

    constructor ()
      ensures Snapshot(false) == FRESH
    {
      cseMap, uniqueNodes, nodeToReg, leaders, erased := map[], [], map[], [], map[];
    }

    /** Collect the operands of the DAG node, destination left out. */
    method CollectOperands(i: Instr) returns (node: Node)
      ensures node == NodeOf(i)
    {
      hide Encode;
      EncodeEnds(i.operands);
      var operands: seq<nat> := [];
      for k := 0 to |i.operands|
        invariant operands + Encode(i.operands[k..]) == Encode(i.operands)
      {
        EncodeAt(i.operands, k);
        match i.operands[k] {
          case Use(r) => operands := operands + [r];
          case Imm(v) => operands := operands + [Unsigned(v)];
          case _ =>
        }
      }
      node := Node(i.opcode, operands);
    }

    lemma {:induction false} EncodeEnds(ops: seq<Operand>)
      ensures ops[0..] == ops && Encode(ops[|ops|..]) == []
    {
    }

    lemma {:induction false} EncodeAt(ops: seq<Operand>, k: nat)
      requires k < |ops|
      ensures Encode(ops[k..]) ==
        match ops[k]
        case Use(r) => [r] + Encode(ops[k + 1..])
        case Imm(v) => [Unsigned(v)] + Encode(ops[k + 1..])
        case _ => Encode(ops[k + 1..])
    {
      assert ops[k..][0] == ops[k] && ops[k..][1..] == ops[k + 1..];
    }

    /** Look an instruction up; record a new node, or report that it is to be erased. */
    method VisitInstr(ghost p: nat, i: Instr, ghost changed: bool) returns (erase: bool)
      requires Snapshot(changed).Linked()
      modifies this
      ensures erase == Repeats(old(Snapshot(changed)), i)
      ensures Snapshot(changed) == Visit(old(Snapshot(changed)), p, i)
    {
      erase := false;
      if IsEml(i.opcode) {
        var node := CollectOperands(i);
        if node in cseMap {
          erase := true;
          var existing := cseMap[node];
          if HasReg0(i) && existing !in nodeToReg {
            nodeToReg := nodeToReg[existing := 0];
          }
          erased := erased[p := leaders[existing]];
        } else {
          var id := |uniqueNodes|;
          uniqueNodes := uniqueNodes + [node];
          cseMap := cseMap[node := id];
          if HasReg0(i) {
            nodeToReg := nodeToReg[id := i.operands[0].reg];
          }
          leaders := leaders + [p];
        }
      }
    }

    /** The inner loop: `at` is the iterator, `i` the position it had before any erasure. */
    method VisitBlock(mbb: MachineBasicBlock, ghost base: nat, before: bool)
      returns (changed: bool)
      requires Snapshot(before).Linked()
      requires forall p :: p in erased ==> p < base
      modifies this, mbb
      ensures Snapshot(changed) == ScanBlock(base, old(mbb.instrs), 0, old(Snapshot(before)))
      ensures mbb.instrs == Kept(base, old(mbb.instrs), |old(mbb.instrs)|, erased)
      ensures forall p :: p in erased ==> p < base + |old(mbb.instrs)|
    {
      hide Visiting, ScanBlock, Visit, Kept, Repeats, NodeOf;
      changed := before;
      ghost var block, goal := mbb.instrs, ScanBlock(base, mbb.instrs, 0, Snapshot(before));
      VisitingStart(base, block, Snapshot(before));
      ghost var i := 0;
      var at := 0;
      while at < |mbb.instrs|
        invariant Visiting(base, block, i, at, mbb.instrs, Snapshot(changed), goal)
        decreases |block| - i
      {
        var now := mbb.instrs;
        ghost var t := Snapshot(changed);
        VisitingAt(base, block, i, at, now, t, goal);
        var erase := VisitInstr(base + i, now[at], changed);
        if erase {
          EraseVisited(base, block, i, at, now, t, goal);
          mbb.instrs := now[..at] + now[at + 1..];
          i := i + 1;
          if at == |mbb.instrs| {
            return;
          }
          assert Snapshot(changed).(changed := true) == Snapshot(true);
          changed := true;
        } else {
          KeepVisited(base, block, i, at, now, t, goal);
        }
        at := at + 1;
        i := i + 1;
        VisitingAt(base, block, i, at, mbb.instrs, Snapshot(changed), goal);
      }
      VisitingAt(base, block, i, at, mbb.instrs, Snapshot(changed), goal);
    }

    method NextBlock(mbb: MachineBasicBlock, ghost base: nat, ghost rest: seq<seq<Instr>>,
        ghost done: seq<seq<Instr>>, before: bool, ghost all: seq<seq<Instr>>, ghost goal: Tables)
      returns (changed: bool)
      requires Walking(base, rest, done, Snapshot(before), all, goal)
      requires rest != [] && mbb.instrs == rest[0]
      modifies this, mbb
      ensures Walking(base + |rest[0]|, rest[1..], done + [mbb.instrs], Snapshot(changed), all, goal)
    {
      WalkOn(base, rest, done, Snapshot(before), all, goal);
      changed := VisitBlock(mbb, base, before);
    }

    /** The outer loop: visit every block in layout order with one set of tables. */
    method VisitBlocks(mf: seq<MachineBasicBlock>, ghost goal: Tables)
      returns (changed: bool, ghost base: nat)
      requires forall j, k :: 0 <= j < k < |mf| ==> mf[j] != mf[k]
      requires Walking(0, Contents(mf), [], Snapshot(false), Contents(mf), goal)
      modifies this, mf
      ensures Walking(base, [], Contents(mf), Snapshot(changed), old(Contents(mf)), goal)
    {
      hide *;
      ghost var code := Contents(mf);
      changed, base := false, 0;
      ghost var done: seq<seq<Instr>>, rest := [], code;
      for b := 0 to |mf|
        invariant Walking(base, rest, done, Snapshot(changed), code, goal)
        invariant |done| == b && rest == code[b..]
        invariant forall k :: b <= k < |mf| ==> mf[k].instrs == code[k]
        invariant forall k :: 0 <= k < b ==> mf[k].instrs == done[k]
      {
        assert rest[0] == code[b] && rest[1..] == code[b + 1..];
        changed := NextBlock(mf[b], base, rest, done, changed, code, goal);
        done, base, rest := done + [mf[b].instrs], base + |code[b]|, code[b + 1..];
      }
      assert rest == [] && Contents(mf) == done;
    }

    /** runOnMachineFunction. */
    method RunOnMachineFunction(mf: seq<MachineBasicBlock>) returns (changed: bool)
      requires forall j, k :: 0 <= j < k < |mf| ==> mf[j] != mf[k]
      modifies this, mf
      ensures Snapshot(changed) == Analyse(old(Contents(mf)))
      ensures Contents(mf) == KeptBlocks(0, old(Contents(mf)), erased)
    {
      ghost var code := Contents(mf);
      ghost var goal := Analyse(code);
      WalkStart(code);
      cseMap, uniqueNodes, nodeToReg, leaders, erased := map[], [], map[], [], map[];
      assert Snapshot(false) == FRESH && Contents(mf) == code;
      ghost var base;
      changed, base := VisitBlocks(mf, goal);
      WalkEnd(base, Contents(mf), Snapshot(changed), code, goal);
    }
  }
}
