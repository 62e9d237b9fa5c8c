/** What the pass's record means: when an erased instruction's destination may be replaced by
    the register recorded for its node. */
module CseSoundness {
  import opened MachineCode
  import opened CsePass

  // ---------------------------------------------------------------------------------------
  // What the scan records
  // ---------------------------------------------------------------------------------------

  /** Every table entry is backed by the code scanned so far, points below `n`. */
  ghost predicate Backed(code: seq<Instr>, n: nat, t: Tables) {
    t.Linked() && n <= |code| &&
    (forall id :: 0 <= id < |t.nodes| ==> LeaderBacked(code, n, t, id)) &&
    (forall e :: e in t.erased ==> ErasureBacked(code, n, t, e)) &&
    forall id: nat :: RegisterBacked(code, t, id)
  }

  /** The leader `l`, or an instruction erased for it, has a register as its first operand. */
  ghost predicate Named(code: seq<Instr>, t: Tables, l: nat) {
    l < |code| &&
    (HasReg0(code[l]) || exists e :: e in t.erased && e < |code| && t.erased[e] == l && HasReg0(code[e]))
  }

  /** What is recorded for node `id`: the leader's first operand, or 0 where that is no register. */
  ghost predicate RegisterBacked(code: seq<Instr>, t: Tables, id: nat) {
    (id in t.regs <==> id < |t.leaders| && Named(code, t, t.leaders[id])) &&
    (id in t.regs ==>
      t.regs[id] == if HasReg0(code[t.leaders[id]]) then code[t.leaders[id]].operands[0].reg else 0)
  }

  /** Node `id` was created by a surviving EML instruction whose destination is recorded. */
  ghost predicate LeaderBacked(code: seq<Instr>, n: nat, t: Tables, id: nat)
    requires id < |t.nodes| == |t.leaders|
  {
    var l := t.leaders[id];
    l < n <= |code| && l !in t.erased && IsEml(code[l].opcode) && NodeOf(code[l]) == t.nodes[id] &&
    t.nodes[id] in t.cse && t.cse[t.nodes[id]] == id &&
    (HasReg0(code[l]) ==> id in t.regs && t.regs[id] == code[l].operands[0].reg)
  }

  /** An erased EML instruction has an earlier kept leader with the same node. */
  ghost predicate ErasureBacked(code: seq<Instr>, n: nat, t: Tables, e: nat)
    requires e in t.erased && t.Linked()
  {
    e < n <= |code| && IsEml(code[e].opcode) && NodeOf(code[e]) in t.cse &&
    t.erased[e] == t.leaders[t.cse[NodeOf(code[e])]] && t.erased[e] < e
  }

  lemma {:induction false} RecordRegisters(code: seq<Instr>, p: nat, t: Tables, t': Tables)
    requires Backed(code, p, t) && p < |code| && t' == t.Record(p, code[p])
    ensures forall id: nat :: RegisterBacked(code, t', id)
  {
    hide NodeOf, IsEml, HasReg0;
    forall e | e in t.erased
      ensures t.erased[e] != p
    {
      assert ErasureBacked(code, p, t, e);
    }
    forall id: nat
      ensures RegisterBacked(code, t', id)
    {
      assert RegisterBacked(code, t, id);
      if id < |t.leaders| {
        assert LeaderBacked(code, p, t, id);
      }
    }
  }

  lemma {:induction false} EraseRegisters(code: seq<Instr>, p: nat, t: Tables, t': Tables)
    requires Backed(code, p, t) && p < |code| && NodeOf(code[p]) in t.cse
    requires t.Linked() && t' == t.Erase(p, code[p])
    ensures forall id: nat :: RegisterBacked(code, t', id)
  {
    hide NodeOf, IsEml, HasReg0;
    var n := t.cse[NodeOf(code[p])];
    assert LeaderBacked(code, p, t, n);
    assert p !in t.erased by {
      assert p in t.erased ==> ErasureBacked(code, p, t, p);
    }
    forall id: nat
      ensures RegisterBacked(code, t', id)
    {
      assert RegisterBacked(code, t, id);
      if id < |t.leaders| {
        assert LeaderBacked(code, p, t, id);
      }
      if id == n {
        EraseNames(code, p, t, t', n);
      } else if id < |t.leaders| {
        assert t.leaders[id] != t.leaders[n];
        assert Named(code, t, t.leaders[id]) <==> Named(code, t', t.leaders[id]);
      }
    }
  }

  lemma {:induction false} EraseNames(code: seq<Instr>, p: nat, t: Tables, t': Tables, n: nat)
    requires p < |code| && p !in t.erased && n < |t.leaders| && t.leaders[n] < |code|
    requires t'.erased == t.erased[p := t.leaders[n]] && t'.leaders == t.leaders
    ensures Named(code, t', t.leaders[n]) <==> Named(code, t, t.leaders[n]) || HasReg0(code[p])
  {
    hide HasReg0;
    forall e | e in t.erased
      ensures t'.erased[e] == t.erased[e]
    {
    }
    assert t'.erased[p] == t.leaders[n];
  }

  lemma {:induction false} RecordBacked(code: seq<Instr>, p: nat, t: Tables, t': Tables)
    requires Backed(code, p, t) && p < |code| && IsEml(code[p].opcode) && NodeOf(code[p]) !in t.cse
    requires t' == t.Record(p, code[p])
    ensures Backed(code, p + 1, t')
  {
    RecordRegisters(code, p, t, t');
    hide NodeOf, IsEml, RegisterBacked;
    var n := p + 1;
    forall id | 0 <= id < |t'.nodes|
      ensures LeaderBacked(code, n, t', id)
    {
      if id < |t.nodes| {
        assert LeaderBacked(code, p, t, id);
      }
    }
    forall e | e in t'.erased
      ensures ErasureBacked(code, n, t', e)
    {
      assert ErasureBacked(code, p, t, e);
    }
  }

  lemma {:induction false} EraseBacked(code: seq<Instr>, p: nat, t: Tables, t': Tables)
    requires Backed(code, p, t) && p < |code| && IsEml(code[p].opcode) && NodeOf(code[p]) in t.cse
    requires t.Linked() && t' == t.Erase(p, code[p])
    ensures Backed(code, p + 1, t')
  {
    EraseRegisters(code, p, t, t');
    hide NodeOf, IsEml, RegisterBacked;
    var n := p + 1;
    assert LeaderBacked(code, p, t, t.cse[NodeOf(code[p])]);
    forall id | 0 <= id < |t'.nodes|
      ensures LeaderBacked(code, n, t', id)
    {
      assert LeaderBacked(code, p, t, id);
    }
    forall e | e in t'.erased
      ensures ErasureBacked(code, n, t', e)
    {
      assert e != p ==> ErasureBacked(code, p, t, e);
    }
  }

  lemma {:induction false} VisitBacked(code: seq<Instr>, p: nat, t: Tables)
    requires Backed(code, p, t) && p < |code|
    ensures Backed(code, p + 1, Visit(t, p, code[p]))
  {
    hide Backed, NodeOf, IsEml;
    BackedLinked(code, p, t);
    if !IsEml(code[p].opcode) {
      BackedLater(code, p, p + 1, t, t.changed);
    } else if NodeOf(code[p]) in t.cse {
      EraseBacked(code, p, t, t.Erase(p, code[p]));
    } else {
      RecordBacked(code, p, t, t.Record(p, code[p]));
    }
  }

  lemma {:induction false} BackedLinked(code: seq<Instr>, p: nat, t: Tables)
    requires Backed(code, p, t)
    ensures t.Linked()
  {
  }

  lemma {:induction false} BackedLater(code: seq<Instr>, n: nat, m: nat, t: Tables, changed: bool)
    requires Backed(code, n, t) && n <= m <= |code|
    ensures Backed(code, m, t.(changed := changed))
  {
    forall id: nat
      ensures RegisterBacked(code, t.(changed := changed), id)
    {
      assert RegisterBacked(code, t, id);
    }
    hide RegisterBacked;
    var t' := t.(changed := changed);
    forall id | 0 <= id < |t'.nodes|
      ensures LeaderBacked(code, m, t', id)
    {
      assert LeaderBacked(code, n, t, id);
    }
    forall e | e in t'.erased
      ensures ErasureBacked(code, m, t', e)
    {
      assert ErasureBacked(code, n, t, e);
    }
  }

  lemma {:induction false} ScanBlockBacked(code: seq<Instr>, base: nat, block: seq<Instr>, i: nat, t: Tables)
    requires base + |block| <= |code| && forall k :: 0 <= k < |block| ==> code[base + k] == block[k]
    requires i <= |block| && Backed(code, base + i, t)
    ensures Backed(code, base + |block|, ScanBlock(base, block, i, t))
    decreases |block| - i
  {
    hide Backed, Visit, Repeats;
    BackedLinked(code, base + i, t);
    if i < |block| {
      var t' := Visit(t, base + i, block[i]);
      ScanStep(base, block, i, t);
      assert code[base + i] == block[i];
      VisitBacked(code, base + i, t);
      if !Repeats(t, block[i]) {
        ScanBlockBacked(code, base, block, i + 1, t');
      } else if i + 1 < |block| {
        BackedLater(code, base + i + 1, base + i + 2, t', true);
        ScanBlockBacked(code, base, block, i + 2, t'.(changed := true));
      }
    }
  }

  lemma {:induction false} ScanBlocksBacked(code: seq<Instr>, base: nat, blocks: seq<seq<Instr>>, t: Tables)
    requires base <= |code| && code[base..] == Flat(blocks) && Backed(code, base, t)
    ensures Backed(code, |code|, ScanBlocks(base, blocks, t))
    decreases |blocks|
  {
    hide Backed, ScanBlock;
    BackedLinked(code, base, t);
    if blocks != [] {
      var end := base + |blocks[0]|;
      assert |code[base..]| == |blocks[0]| + |Flat(blocks[1..])|;
      forall k | 0 <= k < |blocks[0]|
        ensures code[base + k] == blocks[0][k]
      {
        assert code[base..][k] == code[base + k];
      }
      ScanBlockBacked(code, base, blocks[0], 0, t);
      assert code[end..] == code[base..][|blocks[0]|..];
      ScanBlocksBacked(code, end, blocks[1..], ScanBlock(base, blocks[0], 0, t));
    }
  }

  /** The tables of a whole run are backed by the function's instructions. */
  lemma {:induction false} AnalyseBacked(blocks: seq<seq<Instr>>)
    ensures Backed(Flat(blocks), |Flat(blocks)|, Analyse(blocks))
  {
    assert Flat(blocks)[0..] == Flat(blocks);
    ScanBlocksBacked(Flat(blocks), 0, blocks, FRESH);
  }

  // ---------------------------------------------------------------------------------------
  // What a node identifies
  // ---------------------------------------------------------------------------------------

  /** The operands a node lists: registers read and immediates, in order. */
  function Numbered(ops: seq<Operand>): (ns: seq<Operand>)
    ensures forall o :: o in ns <==> o in ops && (o.Use? || o.Imm?)
    ensures |ns| <= |ops|
  {
    if ops == [] then []
    else (if ops[0].Use? || ops[0].Imm? then [ops[0]] else []) + Numbered(ops[1..])
  }

  /** The number a node keeps of an operand: a register's own, an immediate's modulo 2^32. */
  predicate IsNumber(o: Operand, n: int) {
    0 <= n < 0x1_0000_0000 &&
    match o
    case Use(r) => n == r
    case Imm(v) => (v - n) % 0x1_0000_0000 == 0
    case _ => false
  }

  /** Two operands a node cannot tell apart. */
  predicate SameNumber(o: Operand, o': Operand)
    requires (o.Use? || o.Imm?) && (o'.Use? || o'.Imm?)
  {
    var v, v' := if o.Use? then o.reg else o.value, if o'.Use? then o'.reg else o'.value;
    (v - v') % 0x1_0000_0000 == 0
  }

  /** One opcode, and operand lists that agree position by position. */
  predicate Alike(a: Instr, b: Instr) {
    var ns, ms := Numbered(a.operands), Numbered(b.operands);
    a.opcode == b.opcode && |ns| == |ms| && forall k :: 0 <= k < |ns| ==> SameNumber(ns[k], ms[k])
  }

  lemma {:induction false} UnsignedIsNumber(v: int)
    ensures IsNumber(Imm(v), Unsigned(v))
  {
    assert v - Unsigned(v) == v / 0x1_0000_0000 * 0x1_0000_0000;
  }

  /** Equal numbers are congruent values. */
  lemma {:induction false} NumbersEqualIff(o: Operand, o': Operand, n: int, n': int)
    requires IsNumber(o, n) && IsNumber(o', n')
    ensures n == n' <==> SameNumber(o, o')
  {
    var v, v' := if o.Use? then o.reg else o.value, if o'.Use? then o'.reg else o'.value;
    Congruent(v - n, v' - n', n - n');
    assert (v - n) - (v' - n') + (n - n') == v - v';
  }

  lemma {:induction false} Congruent(a: int, b: int, d: int)
    requires a % 0x1_0000_0000 == 0 && b % 0x1_0000_0000 == 0 && -0x1_0000_0000 < d < 0x1_0000_0000
    ensures d == 0 <==> (a - b + d) % 0x1_0000_0000 == 0
  {
  }

  /** A node lists exactly those numbers. */
  lemma {:induction false} NodeLists(ops: seq<Operand>)
    ensures |Encode(ops)| == |Numbered(ops)|
    ensures forall k :: 0 <= k < |Numbered(ops)| ==> IsNumber(Numbered(ops)[k], Encode(ops)[k])
  {
    hide Encode, Numbered, IsNumber;
    NodeListsFirst(ops);
    if ops != [] {
      NodeLists(ops[1..]);
    }
  }

  lemma {:induction false} NodeListsFirst(ops: seq<Operand>)
    ensures if ops == [] then Encode(ops) == [] && Numbered(ops) == []
      else if ops[0].Use? || ops[0].Imm? then
        exists n :: IsNumber(ops[0], n) && Encode(ops) == [n] + Encode(ops[1..]) &&
                    Numbered(ops) == [ops[0]] + Numbered(ops[1..])
      else Encode(ops) == Encode(ops[1..]) && Numbered(ops) == Numbered(ops[1..])
  {
    hide IsNumber, Unsigned;
    if ops != [] {
      match ops[0]
      case Use(r) => RegisterIsNumber(r);
      case Imm(v) => UnsignedIsNumber(v);
      case _ =>
    }
  }

  lemma {:induction false} RegisterIsNumber(r: Reg)
    ensures IsNumber(Use(r), r)
  {
  }

  /** Two instructions get one node if and only if opcode and numbers agree. */
  lemma {:induction false} NodesEqualIff(a: Instr, b: Instr)
    ensures NodeOf(a) == NodeOf(b) <==> Alike(a, b)
  {
    hide Encode, Numbered, IsNumber, SameNumber;
    var ns, ms := Numbered(a.operands), Numbered(b.operands);
    NodeLists(a.operands);
    NodeLists(b.operands);
    if |ns| == |ms| {
      forall k | 0 <= k < |ns|
        ensures SameNumber(ns[k], ms[k]) <==> Encode(a.operands)[k] == Encode(b.operands)[k]
      {
        NumbersEqualIff(ns[k], ms[k], Encode(a.operands)[k], Encode(b.operands)[k]);
      }
    }
  }

  // ---------------------------------------------------------------------------------------
  // The remap the record enables
  // ---------------------------------------------------------------------------------------

  /** Register `r` is the destination of erased point `e`. */
  ghost predicate ErasedDest(code: seq<Instr>, t: Tables, e: nat, r: Reg) {
    e in t.erased && e < |code| && EmlShape(code[e]) && DestOf(code[e]) == r
  }

  /** node_to_reg[cse_map[node]] of the erased definition of `r`; `r` itself if it was kept. */
  ghost function Replacement(code: seq<Instr>, t: Tables, r: Reg): Reg {
    if e: nat :| ErasedDest(code, t, e, r) && NodeOf(code[e]) in t.cse && t.cse[NodeOf(code[e])] in t.regs
    then t.regs[t.cse[NodeOf(code[e])]]
    else r
  }

  ghost function RenameOp(code: seq<Instr>, t: Tables, o: Operand): Operand {
    if o.Use? then Use(Replacement(code, t, o.reg)) else o
  }

  ghost function RenameOps(code: seq<Instr>, t: Tables, ops: seq<Operand>): (ops': seq<Operand>)
    ensures |ops'| == |ops|
    ensures forall k :: 0 <= k < |ops| ==> ops'[k] == RenameOp(code, t, ops[k])
  {
    if ops == [] then [] else [RenameOp(code, t, ops[0])] + RenameOps(code, t, ops[1..])
  }

  ghost function RenameOpcode(code: seq<Instr>, t: Tables, op: Opcode): Opcode {
    if op.Phi? then Phi(map prev | prev in op.sources :: RenameOps(code, t, op.sources[prev])) else op
  }

  ghost function Rename(code: seq<Instr>, t: Tables, i: Instr): Instr {
    Instr(RenameOpcode(code, t, i.opcode), RenameOps(code, t, i.operands))
  }

  /** The rewritten program along a path: erased points do nothing, kept ones read through the
      remap. */
  ghost function RunRewritten<V, W>(
    sem: Semantics<V, W>, code: seq<Instr>, t: Tables, path: Path, st: State<V, W>): State<V, W>
    requires forall k :: 0 <= k < |path| ==> path[k] < |code|
  {
    if path == [] then st
    else
      var n := |path| - 1;
      var before := RunRewritten(sem, code, t, path[..n], st);
      if path[n] in t.erased then before else Exec(sem, Rename(code, t, code[path[n]]), Prev(path, n), before)
  }

  /** The tables of some run of the pass over SSA code. */
  ghost predicate PassResult(flow: Flow, code: seq<Instr>, t: Tables) {
    Backed(code, |code|, t) && Ssa(code) && DefsDominateReads(flow, code)
  }

  /** The erased instruction has exactly its leader's operands, not just the same numbers. */
  ghost predicate SameOperands(code: seq<Instr>, t: Tables, e: nat) {
    e in t.erased && e < |code| && t.erased[e] < |code| &&
    UseOps(code[e].operands) == UseOps(code[t.erased[e]].operands)
  }

  /** Point `u` survives and reads, coming from `prev`, the destination of erased point `e`. */
  ghost predicate Dangling(code: seq<Instr>, t: Tables, u: nat, prev: int, e: nat) {
    u < |code| && u !in t.erased && e in t.erased && e < |code| && Reads(code[u], prev, DestOf(code[e]))
  }

  /** The erased instruction has its leader's operands, and the leader has been executed whenever
      control leaves `prev`. */
  ghost predicate ReadCovered(flow: Flow, code: seq<Instr>, t: Tables, prev: int, e: nat) {
    SameOperands(code, t, e) && Covers(flow, code, t.erased[e], prev)
  }

  /** So it is wherever a survivor reads an erased destination. */
  ghost predicate ReadsCovered(flow: Flow, code: seq<Instr>, t: Tables) {
    forall u, prev, e :: Dangling(code, t, u, prev, e) && Arrives(flow, code, prev, u) ==>
      ReadCovered(flow, code, t, prev, e)
  }

  /** The leader's destination, for an erased point. */
  ghost function Twin(code: seq<Instr>, t: Tables, e: nat): Reg {
    if e in t.erased && t.erased[e] < |code| then DestOf(code[t.erased[e]]) else 0
  }

  lemma {:induction false} EmlDest(code: seq<Instr>, p: nat)
    requires p < |code| && IsEml(code[p].opcode) && EmlShape(code[p])
    ensures EmlReg(code, DestOf(code[p])) && Defines(code[p], DestOf(code[p]))
  {
  }

  lemma {:induction false} LeaderOf(flow: Flow, code: seq<Instr>, t: Tables, e: nat)
    requires PassResult(flow, code, t) && e in t.erased
    ensures var l := t.erased[e];
      l < e < |code| && l !in t.erased && code[l].opcode == code[e].opcode && IsEml(code[e].opcode) &&
      EmlShape(code[l]) && EmlShape(code[e]) && DestOf(code[l]) != DestOf(code[e]) &&
      EmlReg(code, DestOf(code[l])) && EmlReg(code, DestOf(code[e])) &&
      NodeOf(code[e]) == NodeOf(code[l]) && NodeOf(code[e]) in t.cse &&
      t.cse[NodeOf(code[e])] in t.regs && t.regs[t.cse[NodeOf(code[e])]] == DestOf(code[l])
  {
    assert ErasureBacked(code, |code|, t, e);
    assert LeaderBacked(code, |code|, t, t.cse[NodeOf(code[e])]);
    EmlDest(code, e);
    EmlDest(code, t.erased[e]);
  }

  /** No surviving point defines an erased destination. */
  lemma {:induction false} OnlyErasedDefines(flow: Flow, code: seq<Instr>, t: Tables, e: nat, p: nat)
    requires PassResult(flow, code, t) && e in t.erased
    ensures e < |code|
    ensures p < |code| && Defines(code[p], DestOf(code[e])) ==> p == e
  {
    LeaderOf(flow, code, t, e);
    EmlDest(code, e);
  }

  lemma {:induction false} KeptNotErasedDest(flow: Flow, code: seq<Instr>, t: Tables, p: nat, r: Reg)
    requires PassResult(flow, code, t) && p < |code| && p !in t.erased && Defines(code[p], r)
    ensures forall e :: !ErasedDest(code, t, e, r)
  {
    forall e: nat
      ensures !ErasedDest(code, t, e, r)
    {
      if ErasedDest(code, t, e, r) {
        OnlyErasedDefines(flow, code, t, e, p);
      }
    }
  }

  lemma {:induction false} TwinNotErasedDest(flow: Flow, code: seq<Instr>, t: Tables, e: nat)
    requires PassResult(flow, code, t) && e in t.erased
    ensures forall e' :: !ErasedDest(code, t, e', Twin(code, t, e))
  {
    hide PassResult;
    LeaderOf(flow, code, t, e);
    EmlDest(code, t.erased[e]);
    KeptNotErasedDest(flow, code, t, t.erased[e], Twin(code, t, e));
  }

  lemma {:induction false} ReplacementOfErased(flow: Flow, code: seq<Instr>, t: Tables, e: nat)
    requires PassResult(flow, code, t) && e in t.erased
    ensures e < |code| && Replacement(code, t, DestOf(code[e])) == Twin(code, t, e)
  {
    hide PassResult;
    LeaderOf(flow, code, t, e);
    var r := DestOf(code[e]);
    assert ErasedDest(code, t, e, r);
    forall e': nat | ErasedDest(code, t, e', r)
      ensures e' == e
    {
      OnlyErasedDefines(flow, code, t, e, e');
      EmlDefines(code[e']);
    }
  }

  lemma {:induction false} EmlDefines(i: Instr)
    requires EmlShape(i)
    ensures Defines(i, DestOf(i))
  {
  }

  // ---------------------------------------------------------------------------------------
  // An EML register satisfies its defining equation
  // ---------------------------------------------------------------------------------------

  /** Since the last visit of a covering reader `b`, what `b` read has not changed. */
  lemma {:induction false} OperandStable<V, W>(
    sem: Semantics<V, W>, flow: Flow, code: seq<Instr>, path: Path, st: State<V, W>, n: nat, b: nat, x: Reg)
    requires Ssa(code) && DefsDominateReads(flow, code) && IsPath(flow, code, path) && n <= |path|
    requires b < |code| && IsEml(code[b].opcode) && Use(x) in code[b].operands
    requires Covers(flow, code, b, Prev(path, n))
    ensures var i := LastVisit(path, n, b);
      i >= 0 && Run(sem, code, path[..n], st).regs(x) == Run(sem, code, path[..i], st).regs(x)
  {
    hide Run, Covers;
    CoverVisited(flow, code, path, n, b);
    var i := LastVisit(path, n, b);
    assert EmlReg(code, x);
    if d: nat :| d < |code| && Defines(code[d], x) {
      forall prev | Arrives(flow, code, prev, b)
        ensures Covers(flow, code, d, prev)
      {
        assert Reads(code[b], prev, x);
      }
      CoversDominate(flow, code, d, b);
      DominatorsInOrder(flow, code, path, n, d, b);
      forall k | i <= k < n
        ensures !Defines(code[path[k]], x)
      {
        assert path[k] != d;
      }
    }
    Unchanged(sem, code, path, st, i, n, x);
  }

  /** A destination written at the last visit of its definition still holds its value. */
  lemma {:induction false} DestStable<V, W>(
    sem: Semantics<V, W>, flow: Flow, code: seq<Instr>, path: Path, st: State<V, W>, i: nat, n: nat, r: Reg)
    requires Ssa(code) && IsPath(flow, code, path) && i < n <= |path|
    requires EmlReg(code, r) && Defines(code[path[i]], r) && LastVisit(path, n, path[i]) == i
    ensures Run(sem, code, path[..n], st).regs(r) == Run(sem, code, path[..i + 1], st).regs(r)
  {
    hide Run, EmlReg;
    forall k | i + 1 <= k < n
      ensures !Defines(code[path[k]], r)
    {
      assert path[k] != path[i];
    }
    Unchanged(sem, code, path, st, i + 1, n, r);
  }

  lemma {:induction false} RunAt<V, W>(
    sem: Semantics<V, W>, code: seq<Instr>, path: Path, st: State<V, W>, i: nat)
    requires i < |path| && forall k :: 0 <= k < |path| ==> path[k] < |code|
    ensures Run(sem, code, path[..i + 1], st) ==
            Exec(sem, code[path[i]], Prev(path, i), Run(sem, code, path[..i], st))
  {
    hide Exec;
    var upTo := path[..i + 1];
    assert upTo[..i] == path[..i] && upTo[i] == path[i] && Prev(upTo, i) == Prev(path, i);
  }

  lemma {:induction false} InputsStable<V, W>(
    sem: Semantics<V, W>, flow: Flow, code: seq<Instr>, path: Path, st: State<V, W>, n: nat, b: nat)
    requires Ssa(code) && DefsDominateReads(flow, code) && IsPath(flow, code, path) && n <= |path|
    requires b < |code| && IsEml(code[b].opcode) && Covers(flow, code, b, Prev(path, n))
    ensures var i := LastVisit(path, n, b);
      i >= 0 &&
      Inputs(UseOps(code[b].operands), Run(sem, code, path[..n], st).regs) ==
      Inputs(UseOps(code[b].operands), Run(sem, code, path[..i], st).regs)
  {
    hide Ssa, DefsDominateReads, Covers, Run, UseOps;
    CoverVisited(flow, code, path, n, b);
    var i := LastVisit(path, n, b);
    var uses := UseOps(code[b].operands);
    var si, sn := Run(sem, code, path[..i], st).regs, Run(sem, code, path[..n], st).regs;
    forall k | 0 <= k < |uses|
      ensures InputOf(uses[k], si) == InputOf(uses[k], sn)
    {
      assert uses[k] in uses;
      if uses[k].Use? {
        OperandStable(sem, flow, code, path, st, n, b, uses[k].reg);
      }
    }
  }

  lemma {:induction false} ExecEml<V, W>(sem: Semantics<V, W>, i: Instr, prev: int, st: State<V, W>)
    requires IsEml(i.opcode) && EmlShape(i)
    ensures var s := Exec(sem, i, prev, st);
      s.world == st.world &&
      s.regs(DestOf(i)) == sem.eml(i.opcode, Inputs(UseOps(i.operands), st.regs)) &&
      forall r :: r != DestOf(i) ==> s.regs(r) == st.regs(r)
  {
  }

  /** After its last visit at index `i` the destination of `b` holds what `b` computed there. */
  lemma {:induction false} VisitedValue<V, W>(
    sem: Semantics<V, W>, flow: Flow, code: seq<Instr>, path: Path, st: State<V, W>, n: nat, b: nat, i: nat)
    requires Ssa(code) && IsPath(flow, code, path) && n <= |path| && b < |code| && IsEml(code[b].opcode)
    requires i == LastVisit(path, n, b)
    ensures Run(sem, code, path[..n], st).regs(DestOf(code[b])) ==
      sem.eml(code[b].opcode, Inputs(UseOps(code[b].operands), Run(sem, code, path[..i], st).regs))
  {
    hide Run, Exec, EmlReg, UseOps;
    EmlDest(code, b);
    RunAt(sem, code, path, st, i);
    ExecEml(sem, code[b], Prev(path, i), Run(sem, code, path[..i], st));
    DestStable(sem, flow, code, path, st, i, n, DestOf(code[b]));
  }

  /** Wherever `b` has been executed for certain, its destination is its operation on the present
      values of its operands. */
  lemma {:induction false} EmlValue<V, W>(
    sem: Semantics<V, W>, flow: Flow, code: seq<Instr>, path: Path, st: State<V, W>, n: nat, b: nat)
    requires Ssa(code) && DefsDominateReads(flow, code) && IsPath(flow, code, path) && n <= |path|
    requires b < |code| && IsEml(code[b].opcode) && Covers(flow, code, b, Prev(path, n))
    ensures var s := Run(sem, code, path[..n], st);
      s.regs(DestOf(code[b])) == sem.eml(code[b].opcode, Inputs(UseOps(code[b].operands), s.regs))
  {
    hide Run, Ssa, DefsDominateReads, Covers, UseOps;
    InputsStable(sem, flow, code, path, st, n, b);
    VisitedValue(sem, flow, code, path, st, n, b, LastVisit(path, n, b));
  }

  /** Where both have been executed and have the same operands, the erased instruction's destination
      and the leader's hold the same value. */
  lemma {:induction false} TwinHolds<V, W>(
    sem: Semantics<V, W>, flow: Flow, code: seq<Instr>, t: Tables, path: Path, st: State<V, W>, n: nat, e: nat)
    requires PassResult(flow, code, t) && IsPath(flow, code, path) && n <= |path| && SameOperands(code, t, e)
    requires Covers(flow, code, e, Prev(path, n)) && Covers(flow, code, t.erased[e], Prev(path, n))
    ensures Run(sem, code, path[..n], st).regs(DestOf(code[e])) ==
            Run(sem, code, path[..n], st).regs(Twin(code, t, e))
  {
    hide Run, Backed, Ssa, DefsDominateReads, Covers, UseOps, NodeOf, EmlReg;
    LeaderOf(flow, code, t, e);
    EmlValue(sem, flow, code, path, st, n, e);
    EmlValue(sem, flow, code, path, st, n, t.erased[e]);
  }

  // --- renaming --------------------------------------------------------------------------

  lemma {:induction false} RenameUses(code: seq<Instr>, t: Tables, ops: seq<Operand>)
    ensures UseOps(RenameOps(code, t, ops)) == RenameOps(code, t, UseOps(ops))
  {
    if ops != [] {
      RenameUses(code, t, ops[1..]);
      assert RenameOps(code, t, ops)[1..] == RenameOps(code, t, ops[1..]);
      var rest := UseOps(ops[1..]);
      if !ops[0].Def? {
        assert ([ops[0]] + rest)[1..] == rest;
      }
    }
  }

  lemma {:induction false} RenameDefs(code: seq<Instr>, t: Tables, ops: seq<Operand>, r: Reg)
    ensures Def(r) in RenameOps(code, t, ops) <==> Def(r) in ops
    ensures Def(r) in ops ==> DefIndex(RenameOps(code, t, ops), r) == DefIndex(ops, r)
  {
    if ops != [] {
      var ops' := RenameOps(code, t, ops);
      RenameDefs(code, t, ops[1..], r);
      assert ops'[1..] == RenameOps(code, t, ops[1..]);
      assert ops == [ops[0]] + ops[1..] && ops' == [ops'[0]] + ops'[1..];
    }
  }

  lemma {:induction false} RenameSources(code: seq<Instr>, t: Tables, i: Instr, prev: int)
    ensures Sources(Rename(code, t, i), prev) == RenameOps(code, t, Sources(i, prev))
  {
    hide UseOps, RenameOp;
    RenameUses(code, t, i.operands);
    if i.opcode.Phi? && prev in i.opcode.sources {
      RenameUses(code, t, i.opcode.sources[prev]);
    }
  }

  /** `i'` writes the same registers in the same order and is the same kind of instruction. */
  ghost predicate SameFrame(i: Instr, i': Instr) {
    (if i.opcode.Phi? then i'.opcode.Phi? else i'.opcode == i.opcode) &&
    forall r :: (Defines(i', r) <==> Defines(i, r)) &&
      (Defines(i, r) ==> DefIndex(i'.operands, r) == DefIndex(i.operands, r))
  }

  lemma {:induction false} RenamedFrame(code: seq<Instr>, t: Tables, i: Instr)
    ensures SameFrame(i, Rename(code, t, i))
  {
    hide RenameOps, DefIndex;
    forall r: Reg
      ensures Defines(Rename(code, t, i), r) <==> Defines(i, r)
      ensures Defines(i, r) ==> DefIndex(Rename(code, t, i).operands, r) == DefIndex(i.operands, r)
    {
      RenameDefs(code, t, i.operands, r);
    }
  }

  lemma {:induction false} InputsRenamed<V>(
    code: seq<Instr>, t: Tables, uses: seq<Operand>, regs: Reg -> V, regs': Reg -> V)
    requires forall o :: o in uses ==> !o.Def?
    requires forall r :: Use(r) in uses ==> regs(r) == regs'(Replacement(code, t, r))
    ensures forall o :: o in RenameOps(code, t, uses) ==> !o.Def?
    ensures Inputs(uses, regs) == Inputs(RenameOps(code, t, uses), regs')
  {
    hide RenameOps, Replacement;
    var uses' := RenameOps(code, t, uses);
    forall o | o in uses'
      ensures !o.Def?
    {
      var k :| 0 <= k < |uses'| && uses'[k] == o;
      assert uses[k] in uses;
    }
    forall k | 0 <= k < |uses|
      ensures InputOf(uses[k], regs) == InputOf(uses'[k], regs')
    {
      assert uses[k] in uses && uses'[k] == RenameOp(code, t, uses[k]);
    }
  }

  /** Instructions of one frame with equal inputs do the same. */
  lemma {:induction false} SameInputsSameEffect<V, W>(
    sem: Semantics<V, W>, i: Instr, i': Instr, prev: int, s: State<V, W>, s': State<V, W>)
    requires s.world == s'.world && SameFrame(i, i')
    requires Inputs(Sources(i, prev), s.regs) == Inputs(Sources(i', prev), s'.regs)
    ensures var u, u' := Exec(sem, i, prev, s), Exec(sem, i', prev, s');
      u.world == u'.world &&
      forall r :: if Defines(i, r) then u.regs(r) == u'.regs(r)
                  else u.regs(r) == s.regs(r) && u'.regs(r) == s'.regs(r)
  {
    hide Sources, DefIndex;
  }

  /** Original and rewritten state agree outside the erased destinations. */
  ghost predicate Agree<V, W>(code: seq<Instr>, t: Tables, s: State<V, W>, s': State<V, W>) {
    s.world == s'.world &&
    forall r :: (forall e :: !ErasedDest(code, t, e, r)) ==> s.regs(r) == s'.regs(r)
  }

  /** A kept instruction reads the same values in both programs. */
  lemma {:induction false} SameReads<V, W>(
    sem: Semantics<V, W>, flow: Flow, code: seq<Instr>, t: Tables, path: Path, st: State<V, W>, n: nat,
    s': State<V, W>, r: Reg)
    requires PassResult(flow, code, t) && ReadsCovered(flow, code, t)
    requires IsPath(flow, code, path) && n < |path| && path[n] !in t.erased
    requires Reads(code[path[n]], Prev(path, n), r) && Agree(code, t, Run(sem, code, path[..n], st), s')
    ensures Run(sem, code, path[..n], st).regs(r) == s'.regs(Replacement(code, t, r))
  {
    hide Run, Backed, Ssa, Covers, SameOperands, Replacement, Reads;
    if e: nat :| ErasedDest(code, t, e, r) {
      var prev := Prev(path, n);
      PathArrives(flow, code, path, n);
      LeaderOf(flow, code, t, e);
      EmlDest(code, e);
      assert Dangling(code, t, path[n], prev, e);
      assert Covers(flow, code, e, prev);
      TwinHolds(sem, flow, code, t, path, st, n, e);
      ReplacementOfErased(flow, code, t, e);
      TwinNotErasedDest(flow, code, t, e);
    } else {
      ReplacementOfKept(code, t, r);
    }
  }

  lemma {:induction false} ReplacementOfKept(code: seq<Instr>, t: Tables, r: Reg)
    requires forall e: nat :: !ErasedDest(code, t, e, r)
    ensures Replacement(code, t, r) == r
  {
  }

  /** Soundness: if the reads of erased destinations are covered, then along every path, in every
      semantics and from every state, the program with erased instructions dropped and reads
      remapped keeps the world and every register that was not an erased destination. */
  lemma {:induction false} RewriteSound<V, W>(
    sem: Semantics<V, W>, flow: Flow, code: seq<Instr>, t: Tables, path: Path, st: State<V, W>)
    requires PassResult(flow, code, t) && ReadsCovered(flow, code, t) && IsPath(flow, code, path)
    ensures Agree(code, t, Run(sem, code, path, st), RunRewritten(sem, code, t, path, st))
  {
    hide PassResult, ReadsCovered, Exec, Agree, Rename;
    if path == [] {
      AgreeSelf(code, t, st);
    } else {
      var n := |path| - 1;
      PathPrefix(flow, code, path, n);
      RewriteSound(sem, flow, code, t, path[..n], st);
      StepAgrees(sem, flow, code, t, path, st, n, RunRewritten(sem, code, t, path[..n], st));
    }
  }

  lemma {:induction false} AgreeSelf<V, W>(code: seq<Instr>, t: Tables, s: State<V, W>)
    ensures Agree(code, t, s, s)
  {
  }

  lemma {:induction false} StepAgrees<V, W>(
    sem: Semantics<V, W>, flow: Flow, code: seq<Instr>, t: Tables, path: Path, st: State<V, W>, n: nat,
    s': State<V, W>)
    requires PassResult(flow, code, t) && ReadsCovered(flow, code, t)
    requires IsPath(flow, code, path) && n < |path| && Agree(code, t, Run(sem, code, path[..n], st), s')
    ensures var i, prev := code[path[n]], Prev(path, n);
      Agree(code, t, Exec(sem, i, prev, Run(sem, code, path[..n], st)),
            if path[n] in t.erased then s' else Exec(sem, Rename(code, t, i), prev, s'))
  {
    hide PassResult, ReadsCovered, Exec, Replacement, Run, Rename, SameFrame, Sources, Inputs;
    var i, prev, s := code[path[n]], Prev(path, n), Run(sem, code, path[..n], st);
    if path[n] in t.erased {
      ErasedStep(sem, flow, code, t, path[n], prev, s);
    } else {
      forall r | Use(r) in Sources(i, prev)
        ensures s.regs(r) == s'.regs(Replacement(code, t, r))
      {
        SameReads(sem, flow, code, t, path, st, n, s', r);
      }
      InputsRenamed(code, t, Sources(i, prev), s.regs, s'.regs);
      RenameSources(code, t, i, prev);
      RenamedFrame(code, t, i);
      SameInputsSameEffect(sem, i, Rename(code, t, i), prev, s, s');
    }
  }

  /** Dropping an erased instruction is noticed at most at its destination. */
  lemma {:induction false} ErasedStep<V, W>(
    sem: Semantics<V, W>, flow: Flow, code: seq<Instr>, t: Tables, e: nat, prev: int, s: State<V, W>)
    requires PassResult(flow, code, t) && e in t.erased && e < |code|
    ensures Exec(sem, code[e], prev, s).world == s.world
    ensures forall r :: (forall e' :: !ErasedDest(code, t, e', r)) ==> Exec(sem, code[e], prev, s).regs(r) == s.regs(r)
  {
    hide PassResult, Exec;
    LeaderOf(flow, code, t, e);
    ExecEml(sem, code[e], prev, s);
    assert ErasedDest(code, t, e, DestOf(code[e]));
  }

  // ---------------------------------------------------------------------------------------
  // Exactly when the record is right
  // ---------------------------------------------------------------------------------------

  /** Symbolic values: what a register holds spelled out as a term. */
  datatype Term =
    | Start(reg: Reg)
    | Apply(op: Opcode, args: seq<Input<Term>>)
    | Output(op: Opcode, args: seq<Input<Term>>, index: nat)
    | Undefined

  /** A non-EML instruction that was executed, with its inputs. */
  datatype Event = Event(op: Opcode, args: seq<Input<Term>>)

  const SYMBOLIC: Semantics<Term, seq<Event>> :=
    Semantics((op, args) => Apply(op, args),
              (op, args, w) => Outcome(k => Output(op, args, k), w + [Event(op, args)]),
              Undefined)

  const SYMBOLIC_START: State<Term, seq<Event>> := State(r => Start(r), [])

  function RunSymbolic(code: seq<Instr>, path: Path): State<Term, seq<Event>>
    requires forall k :: 0 <= k < |path| ==> path[k] < |code|
  {
    Run(SYMBOLIC, code, path, SYMBOLIC_START)
  }

  /** Whenever control leaves `prev`, the erased destination and the recorded register would be
      equal. */
  ghost predicate TwinRight(flow: Flow, code: seq<Instr>, t: Tables, e: nat, prev: nat)
    requires e in t.erased && e < |code|
  {
    forall path :: PathTo(flow, code, path, prev) ==>
      RunSymbolic(code, path).regs(DestOf(code[e])) == RunSymbolic(code, path).regs(Twin(code, t, e))
  }

  /** The same right behind the erased instruction. */
  ghost predicate RecordRight(flow: Flow, code: seq<Instr>, t: Tables, e: nat)
    requires e in t.erased && e < |code|
  {
    TwinRight(flow, code, t, e, e)
  }

  /** Equal inputs and equal operand numbers mean equal operands. */
  lemma {:induction false} InputsDetermineUses(
    a: seq<Operand>, b: seq<Operand>, s: Reg -> Term, s': Reg -> Term)
    requires (forall o :: o in a ==> !o.Def?) && (forall o :: o in b ==> !o.Def?)
    requires Inputs(a, s) == Inputs(b, s') && Encode(a) == Encode(b)
    ensures a == b
  {
    hide Inputs, Encode, Unsigned;
    assert |a| == |Inputs(a, s)| && |b| == |Inputs(b, s')|;
    if a != [] {
      InputsTail(a, s);
      InputsTail(b, s');
      EncodeTail(a);
      EncodeTail(b);
      InputsDetermineUses(a[1..], b[1..], s, s');
      assert a == [a[0]] + a[1..] && b == [b[0]] + b[1..];
    }
  }

  lemma {:induction false} InputsTail(a: seq<Operand>, s: Reg -> Term)
    requires a != [] && forall o :: o in a ==> !o.Def?
    ensures Inputs(a, s)[0] == InputOf(a[0], s) && Inputs(a, s)[1..] == Inputs(a[1..], s)
  {
  }

  lemma {:induction false} EncodeTail(a: seq<Operand>)
    requires a != []
    ensures Encode(a) == (match a[0] case Use(r) => [r] case Imm(v) => [Unsigned(v)] case _ => []) + Encode(a[1..])
    ensures if a[0].Use? || a[0].Imm? then Encode(a)[1..] == Encode(a[1..]) else Encode(a) == Encode(a[1..])
  {
  }

  lemma {:induction false} EncodeOfUses(ops: seq<Operand>)
    ensures Encode(UseOps(ops)) == Encode(ops)
  {
    if ops != [] {
      EncodeOfUses(ops[1..]);
      var rest := UseOps(ops[1..]);
      if ops[0].Def? {
        assert UseOps(ops) == rest;
      } else {
        assert UseOps(ops)[0] == ops[0] && UseOps(ops)[1..] == rest;
      }
    }
  }

  lemma {:induction false} NeverWritten(code: seq<Instr>, path: Path, n: nat, r: Reg)
    requires n <= |path| && forall k :: 0 <= k < |path| ==> path[k] < |code|
    requires forall k :: 0 <= k < n ==> !Defines(code[path[k]], r)
    ensures RunSymbolic(code, path[..n]).regs(r) == Start(r)
  {
    Unchanged(SYMBOLIC, code, path, SYMBOLIC_START, 0, n, r);
  }

  /** On a path to a point the erased instruction covers, equal values mean that the leader was
      visited and has the same operands. */
  lemma {:induction false} EqualMeansTwin(flow: Flow, code: seq<Instr>, t: Tables, e: nat, path: Path, n: nat)
    requires PassResult(flow, code, t) && e in t.erased && e < |code|
    requires IsPath(flow, code, path) && n <= |path| && Covers(flow, code, e, Prev(path, n))
    requires RunSymbolic(code, path[..n]).regs(DestOf(code[e])) == RunSymbolic(code, path[..n]).regs(Twin(code, t, e))
    ensures LastVisit(path, n, t.erased[e]) >= 0 && SameOperands(code, t, e)
  {
    hide Run, Backed, DefsDominateReads, Covers, UseOps, Encode, EmlReg;
    LeaderOf(flow, code, t, e);
    var l, i := t.erased[e], LastVisit(path, n, t.erased[e]);
    EmlDest(code, l);
    EmlValue(SYMBOLIC, flow, code, path, SYMBOLIC_START, n, e);
    if i < 0 {
      NeverWritten(code, path, n, Twin(code, t, e));
    } else {
      VisitedValue(SYMBOLIC, flow, code, path, SYMBOLIC_START, n, l, i);
      EncodeOfUses(code[e].operands);
      EncodeOfUses(code[l].operands);
      InputsDetermineUses(UseOps(code[e].operands), UseOps(code[l].operands),
                          RunSymbolic(code, path[..n]).regs, RunSymbolic(code, path[..i]).regs);
    }
  }

  /** The exact condition at any point the erased instruction covers. */
  lemma {:induction false} TwinRightIff(flow: Flow, code: seq<Instr>, t: Tables, e: nat, prev: nat)
    requires PassResult(flow, code, t) && e in t.erased && e < |code| && Covers(flow, code, e, prev)
    ensures TwinRight(flow, code, t, e, prev) <==>
      Covers(flow, code, t.erased[e], prev) && (Reachable(flow, code, prev) ==> SameOperands(code, t, e))
  {
    hide PassResult, SameOperands, RunSymbolic;
    forall path | PathTo(flow, code, path, prev)
      ensures RunSymbolic(code, path).regs(DestOf(code[e])) == RunSymbolic(code, path).regs(Twin(code, t, e)) ==>
        t.erased[e] in path && SameOperands(code, t, e)
      ensures Covers(flow, code, t.erased[e], prev) && SameOperands(code, t, e) ==>
        RunSymbolic(code, path).regs(DestOf(code[e])) == RunSymbolic(code, path).regs(Twin(code, t, e))
    {
      TwinOnPath(flow, code, t, e, path, prev);
    }
  }

  lemma {:induction false} TwinOnPath(flow: Flow, code: seq<Instr>, t: Tables, e: nat, path: Path, prev: nat)
    requires PassResult(flow, code, t) && e in t.erased && e < |code| && Covers(flow, code, e, prev)
    requires PathTo(flow, code, path, prev)
    ensures RunSymbolic(code, path).regs(DestOf(code[e])) == RunSymbolic(code, path).regs(Twin(code, t, e)) ==>
      t.erased[e] in path && SameOperands(code, t, e)
    ensures Covers(flow, code, t.erased[e], prev) && SameOperands(code, t, e) ==>
      RunSymbolic(code, path).regs(DestOf(code[e])) == RunSymbolic(code, path).regs(Twin(code, t, e))
  {
    hide PassResult, SameOperands, Run, Covers;
    var n := |path|;
    assert path[..n] == path;
    if RunSymbolic(code, path).regs(DestOf(code[e])) == RunSymbolic(code, path).regs(Twin(code, t, e)) {
      EqualMeansTwin(flow, code, t, e, path, n);
      assert path[LastVisit(path, n, t.erased[e])] == t.erased[e];
    }
    if Covers(flow, code, t.erased[e], prev) && SameOperands(code, t, e) {
      TwinHolds(SYMBOLIC, flow, code, t, path, SYMBOLIC_START, n, e);
    }
  }

  lemma {:induction false} CoversItself(flow: Flow, code: seq<Instr>, e: nat, l: nat)
    requires l != e
    ensures Covers(flow, code, e, e)
    ensures Covers(flow, code, l, e) <==> Dominates(flow, code, l, e)
  {
    forall path | PathTo(flow, code, path, e)
      ensures e in path && (l in path <==> l in path[..|path| - 1])
    {
      var n := |path| - 1;
      assert path[n] == e && path == path[..n] + [e];
    }
  }

  /** The exact condition. An erased instruction and its recorded register agree behind it on every
      path (in the symbolic semantics, and then in all) if and only if the leader dominates it and,
      unless it is unreachable, the two have the same operands and not merely the same operand
      numbers. */
  lemma {:induction false} RecordRightIff(flow: Flow, code: seq<Instr>, t: Tables, e: nat)
    requires PassResult(flow, code, t) && e in t.erased && e < |code|
    ensures RecordRight(flow, code, t, e) <==>
      Dominates(flow, code, t.erased[e], e) && (Reachable(flow, code, e) ==> SameOperands(code, t, e))
  {
    hide PassResult, TwinRight, Covers, Dominates, Reachable, SameOperands;
    LeaderOf(flow, code, t, e);
    CoversItself(flow, code, e, t.erased[e]);
    TwinRightIff(flow, code, t, e, e);
  }

  // ---------------------------------------------------------------------------------------
  // Exactly when the remap is sound
  // ---------------------------------------------------------------------------------------

  /** Along the path the remapped program is indistinguishable, in the symbolic semantics. */
  ghost predicate RemapAgrees(code: seq<Instr>, t: Tables, path: Path) {
    (forall k :: 0 <= k < |path| ==> path[k] < |code|) &&
    Agree(code, t, RunSymbolic(code, path), RunRewritten(SYMBOLIC, code, t, path, SYMBOLIC_START))
  }

  lemma {:induction false} SourceIndex(i: Instr, prev: int, r: Reg) returns (k: nat)
    requires Reads(i, prev, r)
    ensures k < |Sources(i, prev)| && Sources(i, prev)[k] == Use(r)
  {
    k :| 0 <= k < |Sources(i, prev)| && Sources(i, prev)[k] == Use(r);
  }

  /** The register whose new value is the `k`-th input of PHI nodes. */
  lemma {:induction false} PhiTarget(i: Instr, prev: int, k: nat) returns (x: Reg)
    requires i.opcode.Phi? && PhiShape(i) && k < |Sources(i, prev)|
    ensures Defines(i, x) && DefIndex(i.operands, x) == k
  {
    AllUses(i.opcode.sources[prev]);
    assert i.operands[k] in i.operands;
    x := i.operands[k].reg;
  }

  lemma {:induction false} AllUses(ops: seq<Operand>)
    requires forall o :: o in ops ==> o.Use?
    ensures UseOps(ops) == ops
  {
    if ops != [] {
      assert ops[0] in ops;
      AllUses(ops[1..]);
      assert ops == [ops[0]] + ops[1..];
    }
  }

  /** A surviving instruction leaves agreeing states only if it read equal values. */
  lemma {:induction false} AgreementNeedsReads(
    flow: Flow, code: seq<Instr>, t: Tables, u: nat, i': Instr, prev: int,
    s: State<Term, seq<Event>>, s': State<Term, seq<Event>>, k: nat)
    requires PassResult(flow, code, t) && u < |code| && u !in t.erased && SameFrame(code[u], i')
    requires k < |Sources(code[u], prev)| && |Sources(i', prev)| == |Sources(code[u], prev)|
    requires Sources(code[u], prev)[k].Use? && Sources(i', prev)[k].Use?
    requires Agree(code, t, Exec(SYMBOLIC, code[u], prev, s), Exec(SYMBOLIC, i', prev, s'))
    ensures s.regs(Sources(code[u], prev)[k].reg) == s'.regs(Sources(i', prev)[k].reg)
  {
    hide Backed, DefsDominateReads, Sources, Agree, ErasedDest, EmlReg;
    var i := code[u];
    var ins, ins' := Inputs(Sources(i, prev), s.regs), Inputs(Sources(i', prev), s'.regs);
    if IsEml(i.opcode) {
      EmlDefines(i);
      AgreeAt(flow, code, t, u, DestOf(i), Exec(SYMBOLIC, i, prev, s), Exec(SYMBOLIC, i', prev, s'));
      assert Apply(i.opcode, ins) == Apply(i.opcode, ins');
    } else if i.opcode.Phi? {
      var x := PhiTarget(i, prev, k);
      AgreeAt(flow, code, t, u, x, Exec(SYMBOLIC, i, prev, s), Exec(SYMBOLIC, i', prev, s'));
    } else {
      AgreeWorld(code, t, Exec(SYMBOLIC, i, prev, s), Exec(SYMBOLIC, i', prev, s'));
      assert (s.world + [Event(i.opcode, ins)])[|s.world|] == (s'.world + [Event(i.opcode, ins')])[|s'.world|] by {
        assert s.world + [Event(i.opcode, ins)] == s'.world + [Event(i.opcode, ins')];
      }
    }
    assert ins[k] == ins'[k];
  }

  lemma {:induction false} AgreeAt(
    flow: Flow, code: seq<Instr>, t: Tables, u: nat, r: Reg, s: State<Term, seq<Event>>, s': State<Term, seq<Event>>)
    requires PassResult(flow, code, t) && u < |code| && u !in t.erased && Defines(code[u], r)
    requires Agree(code, t, s, s')
    ensures s.regs(r) == s'.regs(r)
  {
    hide PassResult;
    KeptNotErasedDest(flow, code, t, u, r);
  }

  lemma {:induction false} AgreeWorld<V, W>(code: seq<Instr>, t: Tables, s: State<V, W>, s': State<V, W>)
    requires Agree(code, t, s, s')
    ensures s.world == s'.world
  {
  }

  /** On one path: if the remapped program agrees before and behind a read of an erased destination,
      the erased destination and the leader's were equal. */
  lemma {:induction false} AgreementNeedsTwin(
    flow: Flow, code: seq<Instr>, t: Tables, u: nat, prev: nat, e: nat, path: Path)
    requires PassResult(flow, code, t) && Dangling(code, t, u, prev, e) && PathTo(flow, code, path, prev)
    requires RemapAgrees(code, t, path) && RemapAgrees(code, t, path + [u])
    ensures RunSymbolic(code, path).regs(DestOf(code[e])) == RunSymbolic(code, path).regs(Twin(code, t, e))
  {
    hide PassResult, Exec, Agree, Rename, Replacement, Sources, SameFrame;
    var i, on := code[u], path + [u];
    assert on[..|path|] == path && Prev(on, |path|) == prev;
    var s, s' := RunSymbolic(code, path), RunRewritten(SYMBOLIC, code, t, path, SYMBOLIC_START);
    var k := SourceIndex(i, prev, DestOf(code[e]));
    RenameSources(code, t, i, prev);
    RenamedFrame(code, t, i);
    AgreementNeedsReads(flow, code, t, u, Rename(code, t, i), prev, s, s', k);
    ReplacementOfErased(flow, code, t, e);
    TwinAgrees(flow, code, t, e, s, s');
  }

  lemma {:induction false} TwinAgrees(
    flow: Flow, code: seq<Instr>, t: Tables, e: nat, s: State<Term, seq<Event>>, s': State<Term, seq<Event>>)
    requires PassResult(flow, code, t) && e in t.erased && Agree(code, t, s, s')
    ensures s.regs(Twin(code, t, e)) == s'.regs(Twin(code, t, e))
  {
    hide PassResult;
    TwinNotErasedDest(flow, code, t, e);
  }

  lemma {:induction false} DanglingCovered(flow: Flow, code: seq<Instr>, t: Tables, u: nat, prev: int, e: nat)
    requires PassResult(flow, code, t) && Dangling(code, t, u, prev, e) && Arrives(flow, code, prev, u)
    ensures prev >= 0 && Covers(flow, code, e, prev)
  {
    hide Backed, Ssa, Arrives, Reads, EmlReg, NodeOf, Covers;
    LeaderOf(flow, code, t, e);
    EmlDest(code, e);
    assert Covers(flow, code, e, prev);
    CoversPoint(flow, code, e, prev);
  }

  lemma {:induction false} CoversPoint(flow: Flow, code: seq<Instr>, a: nat, prev: int)
    requires Covers(flow, code, a, prev)
    ensures prev >= 0
  {
  }

  /** The exact condition for the remap. The program with erased instructions dropped and reads
      remapped behaves like the original along every path if and only if, wherever a survivor that
      is reached reads an erased destination, the erased instruction has its leader's operands and
      the leader has been executed. The leader need not dominate the erased instruction. */
  lemma {:induction false} RemapSoundIff(flow: Flow, code: seq<Instr>, t: Tables)
    requires PassResult(flow, code, t)
    ensures (forall path :: IsPath(flow, code, path) ==> RemapAgrees(code, t, path)) <==>
            ReadsCovered(flow, code, t)
  {
    hide PassResult, RemapAgrees, Dangling, ReadCovered, Arrives;
    if ReadsCovered(flow, code, t) {
      forall path | IsPath(flow, code, path)
        ensures RemapAgrees(code, t, path)
      {
        CoveredAgrees(flow, code, t, path);
      }
    }
    if forall path :: IsPath(flow, code, path) ==> RemapAgrees(code, t, path) {
      forall u: nat, prev: int, e: nat | Dangling(code, t, u, prev, e) && Arrives(flow, code, prev, u)
        ensures ReadCovered(flow, code, t, prev, e)
      {
        AgreementCovers(flow, code, t, u, prev, e);
      }
    }
  }

  lemma {:induction false} CoveredAgrees(flow: Flow, code: seq<Instr>, t: Tables, path: Path)
    requires PassResult(flow, code, t) && ReadsCovered(flow, code, t) && IsPath(flow, code, path)
    ensures RemapAgrees(code, t, path)
  {
    hide PassResult, ReadsCovered, Agree, Run, RunRewritten;
    RewriteSound(SYMBOLIC, flow, code, t, path, SYMBOLIC_START);
  }

  lemma {:induction false} AgreementCovers(flow: Flow, code: seq<Instr>, t: Tables, u: nat, prev: int, e: nat)
    requires PassResult(flow, code, t) && Dangling(code, t, u, prev, e) && Arrives(flow, code, prev, u)
    requires forall path :: IsPath(flow, code, path) ==> RemapAgrees(code, t, path)
    ensures ReadCovered(flow, code, t, prev, e)
  {
    hide PassResult, RemapAgrees, Covers, SameOperands, TwinRight, IsPath;
    DanglingCovered(flow, code, t, u, prev, e);
    AgreementTwinRight(flow, code, t, u, prev, e);
    TwinRightIff(flow, code, t, e, prev);
  }

  lemma {:induction false} AgreementTwinRight(flow: Flow, code: seq<Instr>, t: Tables, u: nat, prev: nat, e: nat)
    requires PassResult(flow, code, t) && Dangling(code, t, u, prev, e) && Arrives(flow, code, prev, u)
    requires forall path :: IsPath(flow, code, path) ==> RemapAgrees(code, t, path)
    ensures TwinRight(flow, code, t, e, prev)
  {
    hide PassResult, RemapAgrees, RunSymbolic, Reads, DestOf, Twin;
    forall path | PathTo(flow, code, path, prev)
      ensures RunSymbolic(code, path).regs(DestOf(code[e])) == RunSymbolic(code, path).regs(Twin(code, t, e))
    {
      PathOn(flow, code, path, prev, u);
      AgreementNeedsTwin(flow, code, t, u, prev, e, path);
    }
  }

  lemma {:induction false} PathOn(flow: Flow, code: seq<Instr>, path: Path, prev: nat, u: nat)
    requires PathTo(flow, code, path, prev) && Arrives(flow, code, prev, u)
    ensures IsPath(flow, code, path + [u]) && IsPath(flow, code, path)
  {
  }

  lemma {:induction false} CoversThrough(flow: Flow, code: seq<Instr>, l: nat, e: nat, prev: int)
    requires Dominates(flow, code, l, e) && Covers(flow, code, e, prev)
    ensures Covers(flow, code, l, prev)
  {
    forall path | PathTo(flow, code, path, prev)
      ensures l in path
    {
      assert e in path;
      var j :| 0 <= j < |path| && path[j] == e;
      PathPrefix(flow, code, path, j + 1);
      assert path[..j + 1][..j] == path[..j];
    }
  }

  /** A case in point: every leader dominates what was erased for it, with the same operands. */
  lemma {:induction false} DominatedCovered(flow: Flow, code: seq<Instr>, t: Tables)
    requires PassResult(flow, code, t)
    requires forall e :: e in t.erased ==> SameOperands(code, t, e) && Dominates(flow, code, t.erased[e], e)
    ensures ReadsCovered(flow, code, t)
  {
    hide PassResult, SameOperands, Dominates, Covers, Arrives, Reads;
    forall u: nat, prev: int, e: nat | Dangling(code, t, u, prev, e) && Arrives(flow, code, prev, u)
      ensures ReadCovered(flow, code, t, prev, e)
    {
      DanglingCovered(flow, code, t, u, prev, e);
      CoversThrough(flow, code, t.erased[e], e, prev);
    }
  }

  /** Soundness of a run of the pass on a whole function. */
  lemma {:induction false} PassSound<V, W>(
    sem: Semantics<V, W>, flow: Flow, blocks: seq<seq<Instr>>, path: Path, st: State<V, W>)
    requires Ssa(Flat(blocks)) && DefsDominateReads(flow, Flat(blocks)) && IsPath(flow, Flat(blocks), path)
    requires ReadsCovered(flow, Flat(blocks), Analyse(blocks))
    ensures var code, t := Flat(blocks), Analyse(blocks);
      Agree(code, t, Run(sem, code, path, st), RunRewritten(sem, code, t, path, st))
  {
    hide Ssa, DefsDominateReads, ReadsCovered, Backed, Analyse, Run, RunRewritten;
    AnalyseBacked(blocks);
    RewriteSound(sem, flow, Flat(blocks), Analyse(blocks), path, st);
  }

  // ---------------------------------------------------------------------------------------
  // One block
  // ---------------------------------------------------------------------------------------

  /** One block, executed from its first instruction to its last. */
  const STRAIGHT := Flow(0, (i: nat, j: nat) => j == i + 1)

  function Whole(code: seq<Instr>): (path: Path)
    ensures IsPath(STRAIGHT, code, path)
    ensures |path| == |code| && forall k :: 0 <= k < |path| ==> path[k] == k
  {
    seq(|code|, k => k)
  }

  /** In SSA form inside a block, definitions come before reads. */
  ghost predicate SsaBlock(code: seq<Instr>) {
    Ssa(code) &&
    forall d: nat, u: nat, r ::
      (d < |code| && u < |code| && EmlReg(code, r) && Defines(code[d], r) && Reads(code[u], u - 1, r)) ==> d < u
  }

  /** Operand `o` feeds some EML instruction. */
  ghost predicate EmlOperand(code: seq<Instr>, o: Operand) {
    !o.Def? && exists p :: 0 <= p < |code| && IsEml(code[p].opcode) && o in code[p].operands
  }

  /** Among the operands of EML instructions no register number doubles as an immediate, no two
      immediates agree modulo 2^32, and every one is a register or an immediate. */
  ghost predicate InjectiveEncoding(code: seq<Instr>) {
    (forall o :: EmlOperand(code, o) ==> !o.Other?) &&
    forall o, o' :: EmlOperand(code, o) && EmlOperand(code, o') && SameNumber(o, o') ==> o == o'
  }

  /** Without operands of other kinds a node lists all that feed the instruction. */
  lemma {:induction false} NumberedUses(ops: seq<Operand>)
    requires forall o :: o in ops ==> !o.Other?
    ensures Numbered(ops) == UseOps(ops)
  {
    if ops != [] {
      assert ops[0] in ops;
      NumberedUses(ops[1..]);
    }
  }

  /** Equal nodes then come from equal operands. */
  lemma {:induction false} NodeDeterminesUses(code: seq<Instr>, p: nat, q: nat)
    requires InjectiveEncoding(code) && p < |code| && q < |code|
    requires IsEml(code[p].opcode) && IsEml(code[q].opcode) && NodeOf(code[p]) == NodeOf(code[q])
    ensures UseOps(code[p].operands) == UseOps(code[q].operands)
  {
    hide Encode, UseOps, SameNumber;
    NodesEqualIff(code[p], code[q]);
    forall o | o in code[p].operands || o in code[q].operands
      ensures !o.Other? && (!o.Def? ==> EmlOperand(code, o))
    {
      assert !o.Def? ==> EmlOperand(code, o);
    }
    NumberedUses(code[p].operands);
    NumberedUses(code[q].operands);
    var a, b := UseOps(code[p].operands), UseOps(code[q].operands);
    forall k | 0 <= k < |a|
      ensures a[k] == b[k]
    {
      assert a[k] in a && b[k] in b;
    }
  }

  lemma {:induction false} StraightPath(code: seq<Instr>, path: Path, k: nat)
    requires IsPath(STRAIGHT, code, path) && k < |path|
    ensures path[k] == k
  {
    if k > 0 {
      StraightPath(code, path, k - 1);
      assert STRAIGHT.edge(path[k - 1], path[k]);
    }
  }

  lemma {:induction false} EarlierCovers(code: seq<Instr>, a: nat, b: nat)
    requires a <= b
    ensures Covers(STRAIGHT, code, a, b)
  {
    forall path | PathTo(STRAIGHT, code, path, b)
      ensures a in path
    {
      StraightPath(code, path, |path| - 1);
      StraightPath(code, path, a);
      assert path[a] == a;
    }
  }

  lemma {:induction false} BlockPassResult(block: seq<Instr>)
    requires SsaBlock(block)
    ensures PassResult(STRAIGHT, block, Analyse([block]))
  {
    hide Analyse, Backed, Reads, Covers;
    AnalyseBacked([block]);
    assert Flat([block][1..]) == [] && Flat([block]) == block;
    forall d: nat, u: nat, prev: int, r | d < |block| && EmlReg(block, r) && Defines(block[d], r) &&
      Arrives(STRAIGHT, block, prev, u) && Reads(block[u], prev, r)
      ensures Covers(STRAIGHT, block, d, prev)
    {
      assert prev == u - 1;
      EarlierCovers(block, d, u - 1);
    }
  }

  /** Point `u` of a block survives and reads the destination of erased point `e`. */
  ghost predicate ReadBehind(block: seq<Instr>, t: Tables, u: nat, e: nat) {
    Dangling(block, t, u, u - 1, e)
  }

  /** In one block the remap is sound exactly when every erased instruction whose destination is read
      by a survivor has its leader's operands. */
  lemma {:induction false} BlockRemapIff(block: seq<Instr>)
    requires SsaBlock(block)
    ensures var t := Analyse([block]);
      (forall path :: IsPath(STRAIGHT, block, path) ==> RemapAgrees(block, t, path)) <==>
      forall u, e :: ReadBehind(block, t, u, e) ==> SameOperands(block, t, e)
  {
    hide SsaBlock, Analyse, PassResult, RemapAgrees, ReadBehind, SameOperands, ReadsCovered;
    var t := Analyse([block]);
    BlockPassResult(block);
    RemapSoundIff(STRAIGHT, block, t);
    BlockCoveredIff(block, t);
  }

  lemma {:induction false} BlockCoveredIff(block: seq<Instr>, t: Tables)
    requires PassResult(STRAIGHT, block, t)
    ensures ReadsCovered(STRAIGHT, block, t) <==>
      forall u, e :: ReadBehind(block, t, u, e) ==> SameOperands(block, t, e)
  {
    hide PassResult, SameOperands, Covers, Arrives, Dangling;
    forall u: nat, prev: int, e: nat | Dangling(block, t, u, prev, e) && Arrives(STRAIGHT, block, prev, u)
      ensures ReadBehind(block, t, u, e) && (SameOperands(block, t, e) ==> ReadCovered(STRAIGHT, block, t, prev, e))
    {
      ArrivesInBlock(block, prev, u);
      DanglingInBlock(block, t, u, e);
    }
    forall u: nat, e: nat | ReadBehind(block, t, u, e)
      ensures Arrives(STRAIGHT, block, u - 1, u)
    {
      DanglingInBlock(block, t, u, e);
      StraightArrives(block, u - 1, u);
    }
  }

  lemma {:induction false} ArrivesInBlock(block: seq<Instr>, prev: int, u: nat)
    requires Arrives(STRAIGHT, block, prev, u)
    ensures prev == u - 1
  {
  }

  lemma {:induction false} StraightArrives(block: seq<Instr>, prev: int, u: nat)
    requires u < |block|
    ensures Arrives(STRAIGHT, block, prev, u) <==> prev == u - 1
  {
    if u > 0 {
      assert PathTo(STRAIGHT, block, Whole(block)[..u], u - 1);
    }
  }

  lemma {:induction false} DanglingInBlock(block: seq<Instr>, t: Tables, u: nat, e: nat)
    requires PassResult(STRAIGHT, block, t) && ReadBehind(block, t, u, e)
    ensures u < |block| && e in t.erased && Covers(STRAIGHT, block, t.erased[e], u - 1)
  {
    hide PassResult, Reads, Covers;
    LeaderOf(STRAIGHT, block, t, e);
    StraightArrives(block, u - 1, u);
    DanglingCovered(STRAIGHT, block, t, u, u - 1, e);
    if t.erased[e] >= u {
      NotCovered(block, e, u - 1);
    }
    EarlierCovers(block, t.erased[e], u - 1);
  }

  lemma {:induction false} NotCovered(block: seq<Instr>, a: nat, b: nat)
    requires b < a && b < |block|
    ensures !Covers(STRAIGHT, block, a, b)
  {
    var path := Whole(block)[..b + 1];
    assert PathTo(STRAIGHT, block, path, b) && a !in path;
  }

  /** On an SSA block with injective operand encoding the remap the pass records is sound: same
      world, same value in every register that was not erased, and each erased destination's
      value is in the register recorded for its node. */
  lemma {:induction false} BlockSound<V, W>(sem: Semantics<V, W>, block: seq<Instr>, st: State<V, W>)
    requires SsaBlock(block) && InjectiveEncoding(block)
    ensures var t := Analyse([block]);
      Agree(block, t, Run(sem, block, Whole(block), st), RunRewritten(sem, block, t, Whole(block), st))
    ensures var t := Analyse([block]);
      forall e :: e in t.erased ==>
        e < |block| && NodeOf(block[e]) in t.cse && t.cse[NodeOf(block[e])] in t.regs &&
        var s := Run(sem, block, Whole(block)[..e + 1], st);
        s.regs(DestOf(block[e])) == s.regs(t.regs[t.cse[NodeOf(block[e])]])
  {
    hide SsaBlock, Run, RunRewritten, Analyse, PassResult, Agree, ReadsCovered, InjectiveEncoding, Covers;
    var t, path := Analyse([block]), Whole(block);
    BlockPassResult(block);
    forall e | e in t.erased
      ensures SameOperands(block, t, e)
    {
      LeaderOf(STRAIGHT, block, t, e);
      NodeDeterminesUses(block, e, t.erased[e]);
    }
    BlockCoveredIff(block, t);
    RewriteSound(sem, STRAIGHT, block, t, path, st);
    forall e | e in t.erased
      ensures e < |block| && NodeOf(block[e]) in t.cse && t.cse[NodeOf(block[e])] in t.regs
      ensures var s := Run(sem, block, path[..e + 1], st);
        s.regs(DestOf(block[e])) == s.regs(t.regs[t.cse[NodeOf(block[e])]])
    {
      LeaderOf(STRAIGHT, block, t, e);
      EarlierCovers(block, t.erased[e], e);
      EarlierCovers(block, e, e);
      TwinHolds(sem, STRAIGHT, block, t, path, st, e + 1, e);
    }
  }

  /** Inside one SSA block the record is right exactly for the erased instructions that have their
      leader's operands. */
  lemma {:induction false} BlockRecordRightIff(block: seq<Instr>, e: nat)
    requires SsaBlock(block) && e in Analyse([block]).erased
    ensures e < |block| &&
      (RecordRight(STRAIGHT, block, Analyse([block]), e) <==> SameOperands(block, Analyse([block]), e))
  {
    hide SsaBlock, PassResult, Analyse, TwinRight, SameOperands, Covers;
    var t := Analyse([block]);
    BlockPassResult(block);
    LeaderOf(STRAIGHT, block, t, e);
    EarlierCovers(block, t.erased[e], e);
    EarlierCovers(block, e, e);
    assert PathTo(STRAIGHT, block, Whole(block)[..e + 1], e);
    TwinRightIff(STRAIGHT, block, t, e, e);
  }

  // --- two inputs on which record and remap are wrong ---------------------------------------

  lemma {:induction false} Operands3(d: Operand, x: Operand, y: Operand)
    requires d.Def? && x.Use? && (y.Use? || y.Imm?)
    ensures UseOps([d, x, y]) == [x, y]
    ensures Encode([d, x, y]) == [x.reg, if y.Use? then y.reg else Unsigned(y.value)]
  {
    assert [d, x, y][1..] == [x, y] && [x, y][1..] == [y] && [y][1..] == [];
    assert UseOps([y]) == [y] && UseOps([x, y]) == [x, y];
    assert Encode([y]) == [if y.Use? then y.reg else Unsigned(y.value)];
    assert Encode([x, y]) == [x.reg] + Encode([y]);
  }

  /** A repeated instruction right behind the first: the second is erased. */
  lemma {:induction false} RepeatErased(a: Instr, b: Instr, c: Instr)
    requires IsEml(a.opcode) && NodeOf(a) == NodeOf(b) && !IsEml(c.opcode)
    ensures Analyse([[a, b, c]]).erased == map[1 := 0]
  {
    var block := [a, b, c];
    var t := Visit(FRESH, 0, a);
    ScanStep(0, block, 0, FRESH);
    ScanStep(0, block, 1, t);
    AnalyseOneBlock(block);
  }

  lemma {:induction false} AnalyseOneBlock(block: seq<Instr>)
    ensures Analyse([block]) == ScanBlock(0, block, 0, FRESH)
  {
    var t := ScanBlock(0, block, 0, FRESH);
    assert [block][1..] == [] && ScanBlocks(|block|, [], t) == t;
  }

  const ADD_REG := Instr(XE_ADD, [Def(8), Use(5), Use(6)])
  const ADD_IMM := Instr(XE_ADD, [Def(9), Use(5), Imm(6)])
  const STORE := Instr(Target(1), [Use(9)])
  const COLLISION := [ADD_REG, ADD_IMM, STORE]

  lemma {:induction false} StoreReads(prev: int)
    ensures Reads(STORE, prev, 9)
  {
    AllUses([Use(9)]);
  }

  /** r8 = add r5, r6 and r9 = add r5, 6 get one node, and the second is erased although no
      register holds its value; the store of r9 behind them is remapped to the wrong register. */
  lemma {:induction false} ImmediateCollision()
    ensures var t := Analyse([COLLISION]);
      t.erased == map[1 := 0] && 1 in t.erased && SsaBlock(COLLISION) &&
      !RecordRight(STRAIGHT, COLLISION, t, 1) &&
      exists path :: IsPath(STRAIGHT, COLLISION, path) && !RemapAgrees(COLLISION, t, path)
  {
    hide Analyse, RecordRight, RemapAgrees, UseOps, Encode, SsaBlock, IsPath, Reads;
    var t := Analyse([COLLISION]);
    Operands3(Def(8), Use(5), Use(6));
    Operands3(Def(9), Use(5), Imm(6));
    RepeatErased(ADD_REG, ADD_IMM, STORE);
    assert [Use(5), Use(6)][1] != [Use(5), Imm(6)][1];
    CollisionIsSsa();
    BlockRecordRightIff(COLLISION, 1);
    BlockRemapIff(COLLISION);
    StoreReads(1);
    assert ReadBehind(COLLISION, t, 2, 1);
  }

  lemma {:induction false} CollisionSources()
    ensures forall prev :: Sources(ADD_REG, prev) == [Use(5), Use(6)]
    ensures forall prev :: Sources(ADD_IMM, prev) == [Use(5), Imm(6)]
    ensures forall prev :: Sources(STORE, prev) == [Use(9)]
  {
    Operands3(Def(8), Use(5), Use(6));
    Operands3(Def(9), Use(5), Imm(6));
    AllUses([Use(9)]);
  }

  lemma {:induction false} CollisionIsSsa()
    ensures SsaBlock(COLLISION)
  {
    hide EmlReg, Sources, UseOps;
    CollisionSources();
  }

  const BRANCH := Instr(Target(0), [Use(7)])
  const EXP_LEFT := Instr(XE_EXP, [Def(8), Use(5)])
  const EXP_RIGHT := Instr(XE_EXP, [Def(9), Use(5)])

  /** A branch to point 1 or to point 2, and on from there to point 3. */
  const FORK := Flow(0, (i: nat, j: nat) => (i == 0 && (j == 1 || j == 2)) || (i == 2 && j == 3))

  const FORK_BLOCKS := [[BRANCH], [EXP_LEFT], [EXP_RIGHT, STORE]]
  const FORK_CODE := [BRANCH, EXP_LEFT, EXP_RIGHT, STORE]

  /** The tables are not cleared between blocks: the same instruction in the other arm of a branch
      is erased although the arm holding its leader was not executed, and the store behind it is
      remapped to a register without a value. */
  lemma {:induction false} BranchArmErased()
    ensures Flat(FORK_BLOCKS) == FORK_CODE && Ssa(FORK_CODE) && DefsDominateReads(FORK, FORK_CODE)
    ensures var t := Analyse(FORK_BLOCKS);
      t.erased == map[2 := 1] && 2 in t.erased && !RecordRight(FORK, FORK_CODE, t, 2) &&
      exists path :: IsPath(FORK, FORK_CODE, path) && !RemapAgrees(FORK_CODE, t, path)
  {
    hide RecordRight, RemapAgrees, Backed, Analyse, Ssa, DefsDominateReads, Reads;
    var t := Analyse(FORK_BLOCKS);
    ForkIsSsa();
    ForkDominates();
    ForkTables();
    AnalyseBacked(FORK_BLOCKS);
    ForkRight();
    RecordRightIff(FORK, FORK_CODE, t, 2);
    StoreReads(2);
    assert Dangling(FORK_CODE, t, 3, 2, 2);
    RemapSoundIff(FORK, FORK_CODE, t);
  }

  /** The right arm is reached without the left one. */
  lemma {:induction false} ForkRight()
    ensures Arrives(FORK, FORK_CODE, 2, 3)
    ensures !Dominates(FORK, FORK_CODE, 1, 2) && !Covers(FORK, FORK_CODE, 1, 2)
  {
    var path := [0, 2];
    assert PathTo(FORK, FORK_CODE, path, 2) && path[..1] == [0];
  }

  lemma {:induction false} ForkIsSsa()
    ensures Ssa(FORK_CODE)
  {
    hide EmlReg;
  }

  lemma {:induction false} ForkDominates()
    ensures DefsDominateReads(FORK, FORK_CODE)
  {
    hide EmlReg, Covers, Sources, UseOps;
    ForkSources();
    CoversItself(FORK, FORK_CODE, 2, 1);
  }

  lemma {:induction false} ForkSources()
    ensures forall prev :: Sources(BRANCH, prev) == [Use(7)] && Sources(STORE, prev) == [Use(9)]
    ensures forall prev :: Sources(EXP_LEFT, prev) == [Use(5)] && Sources(EXP_RIGHT, prev) == [Use(5)]
  {
    AllUses([Use(7)]);
    AllUses([Use(9)]);
    AllUses([Use(5)]);
    assert [Def(8), Use(5)][1..] == [Use(5)] && [Def(9), Use(5)][1..] == [Use(5)];
  }

  lemma {:induction false} ForkTables()
    ensures Flat(FORK_BLOCKS) == FORK_CODE
    ensures Analyse(FORK_BLOCKS).erased == map[2 := 1]
  {
    hide NodeOf;
    var last := [EXP_RIGHT, STORE];
    var rest := [[EXP_LEFT], last];
    assert FORK_BLOCKS[1..] == rest && rest[1..] == [last] && [last][1..] == [];
    assert Flat([last]) == last;
    assert Flat(rest) == [EXP_LEFT] + last;
    SameNode();
    var t := Visit(FRESH, 1, EXP_LEFT);
    ScanStep(0, [BRANCH], 0, FRESH);
    ScanStep(1, [EXP_LEFT], 0, FRESH);
    ScanStep(2, last, 0, t);
    assert ScanBlocks(2, [last], t) == ScanBlock(2, last, 0, t);
    assert ScanBlocks(1, rest, FRESH) == ScanBlocks(2, [last], t);
    assert Analyse(FORK_BLOCKS) == ScanBlocks(1, rest, FRESH);
  }

  lemma {:induction false} SameNode()
    ensures NodeOf(EXP_LEFT) == NodeOf(EXP_RIGHT)
  {
    assert [Def(8), Use(5)][1..] == [Use(5)] && [Def(9), Use(5)][1..] == [Use(5)];
  }

  // ---------------------------------------------------------------------------------------
  // What is skipped, and what is reported
  // ---------------------------------------------------------------------------------------

  ghost predicate Before(t: Tables, p: nat) {
    (forall e :: e in t.erased ==> e < p) && (forall l :: l in t.leaders ==> l < p)
  }

  /** From `t` to `t'` nothing changed at points before `p`. */
  ghost predicate Extends(t: Tables, t': Tables, p: nat) {
    forall e :: e < p ==> (e in t.erased <==> e in t'.erased) && (e in t.leaders <==> e in t'.leaders)
  }

  lemma {:induction false} VisitExtends(t: Tables, p: nat, i: Instr)
    requires t.Linked() && Before(t, p)
    ensures Extends(t, Visit(t, p, i), p) && Before(Visit(t, p, i), p + 1)
  {
  }

  lemma {:induction false} ScanBlockExtends(base: nat, block: seq<Instr>, i: nat, t: Tables)
    requires t.Linked() && i <= |block| && Before(t, base + i)
    ensures Extends(t, ScanBlock(base, block, i, t), base + i)
    ensures Before(ScanBlock(base, block, i, t), base + |block|)
    decreases |block| - i
  {
    hide ScanBlock, NodeOf;
    if i == |block| {
      ScanDone(base, block, t);
    } else {
      var t' := Visit(t, base + i, block[i]);
      ScanStep(base, block, i, t);
      VisitExtends(t, base + i, block[i]);
      if !Repeats(t, block[i]) {
        ScanBlockExtends(base, block, i + 1, t');
      } else if i + 1 < |block| {
        ScanBlockExtends(base, block, i + 2, t'.(changed := true));
      }
    }
  }

  lemma {:induction false} ScanDone(base: nat, block: seq<Instr>, t: Tables)
    requires t.Linked()
    ensures ScanBlock(base, block, |block|, t) == t
  {
  }

  /** Instruction `k` of the block was neither erased nor recorded. */
  predicate Missed(base: nat, block: seq<Instr>, t: Tables, k: nat) {
    k < |block| && IsEml(block[k].opcode) && base + k !in t.erased && base + k !in t.leaders
  }

  /** In one block an EML instruction is missed exactly when its predecessor was erased. */
  lemma {:induction false} BlockMissedIff(base: nat, block: seq<Instr>, i: nat, t: Tables, k: nat)
    requires t.Linked() && Before(t, base + i) && i <= k < |block|
    ensures var t' := ScanBlock(base, block, i, t);
      Missed(base, block, t', k) <==> IsEml(block[k].opcode) && k > i && base + k - 1 in t'.erased
    decreases |block| - i
  {
    hide ScanBlock;
    var v := Visit(t, base + i, block[i]);
    ScanStep(base, block, i, t);
    if !Repeats(t, block[i]) {
      ScanBlockExtends(base, block, i + 1, v);
      if k > i {
        BlockMissedIff(base, block, i + 1, v, k);
      } else if IsEml(block[i].opcode) {
        assert v.leaders[|t.leaders|] == base + i;
      }
    } else if i + 1 < |block| {
      var m := v.(changed := true);
      ScanBlockExtends(base, block, i + 2, m);
      if k > i + 1 {
        BlockMissedIff(base, block, i + 2, m, k);
      }
    }
  }

  /** Point `p` is the last instruction of some block. */
  predicate LastOfBlock(base: nat, blocks: seq<seq<Instr>>, p: nat)
    decreases |blocks|
  {
    blocks != [] && (p + 1 == base + |blocks[0]| || LastOfBlock(base + |blocks[0]|, blocks[1..], p))
  }

  /** An erased point of the range that is not its last. */
  ghost predicate ErasedInside(t: Tables, from: nat, end: nat) {
    exists e :: e in t.erased && from <= e < end - 1
  }

  lemma {:induction false} BlockChangedIff(base: nat, block: seq<Instr>, i: nat, t: Tables)
    requires t.Linked() && Before(t, base + i) && i <= |block|
    ensures var t' := ScanBlock(base, block, i, t);
      t'.changed <==> t.changed || ErasedInside(t', base + i, base + |block|)
    decreases |block| - i
  {
    hide ScanBlock;
    if i == |block| {
      ScanDone(base, block, t);
    } else {
      var t' := Visit(t, base + i, block[i]);
      ScanStep(base, block, i, t);
      if !Repeats(t, block[i]) {
        ScanBlockExtends(base, block, i + 1, t');
        BlockChangedIff(base, block, i + 1, t');
      } else if i + 1 < |block| {
        ScanBlockExtends(base, block, i + 2, t'.(changed := true));
        BlockChangedIff(base, block, i + 2, t'.(changed := true));
        assert base + i in t'.erased;
      }
    }
  }

  lemma {:induction false} BlocksChangedIff(base: nat, blocks: seq<seq<Instr>>, t: Tables)
    requires t.Linked() && Before(t, base)
    ensures var t' := ScanBlocks(base, blocks, t);
      Extends(t, t', base) &&
      (t'.changed <==> t.changed || exists e :: e in t'.erased && e >= base && !LastOfBlock(base, blocks, e))
    decreases |blocks|
  {
    if blocks == [] {
    } else {
      var v, end := ScanBlock(base, blocks[0], 0, t), base + |blocks[0]|;
      ScanBlockExtends(base, blocks[0], 0, t);
      BlockChangedIff(base, blocks[0], 0, t);
      BlocksChangedIff(end, blocks[1..], v);
      var t' := ScanBlocks(base, blocks, t);
      forall e | e in t'.erased && base <= e < end
        ensures LastOfBlock(base, blocks, e) <==> e == end - 1
      {
        if e < end - 1 {
          LastOfBlockFrom(end, blocks[1..], e);
        }
      }
    }
  }

  lemma {:induction false} LastOfBlockFrom(base: nat, blocks: seq<seq<Instr>>, p: nat)
    requires p + 1 < base
    ensures !LastOfBlock(base, blocks, p)
    decreases |blocks|
  {
    if blocks != [] {
      LastOfBlockFrom(base + |blocks[0]|, blocks[1..], p);
    }
  }

  /** The returned flag does not say whether anything was erased: it misses erasures at the end of
      a block. It is true exactly when some erased instruction was not the last of its block. */
  lemma {:induction false} ChangedIff(blocks: seq<seq<Instr>>)
    ensures var t := Analyse(blocks);
      t.changed <==> exists e :: e in t.erased && !LastOfBlock(0, blocks, e)
  {
    BlocksChangedIff(0, blocks, FRESH);
  }

  lemma {:induction false} BlocksMissedIff(base: nat, blocks: seq<seq<Instr>>, t: Tables, p: nat)
    requires t.Linked() && Before(t, base) && base <= p < base + |Flat(blocks)|
    ensures var t' := ScanBlocks(base, blocks, t);
      Missed(base, Flat(blocks), t', p - base) <==>
      IsEml(Flat(blocks)[p - base].opcode) && p > base && p - 1 in t'.erased && !LastOfBlock(base, blocks, p - 1)
    decreases |blocks|
  {
    hide ScanBlock, Visit, Repeats;
    var first, v, end := blocks[0], ScanBlock(base, blocks[0], 0, t), base + |blocks[0]|;
    ScanBlockExtends(base, first, 0, t);
    BlocksChangedIff(end, blocks[1..], v);
    if p < end {
      BlockMissedIff(base, first, 0, t, p - base);
      if p > base {
        LastOfBlockFrom(end, blocks[1..], p - 1);
      }
    } else {
      BlocksMissedIff(end, blocks[1..], v, p);
      assert Flat(blocks)[p - base] == Flat(blocks[1..])[p - end];
    }
  }

  /** The skip after an erasure is the only way for the pass to overlook an EML instruction of the
      function: one is neither recorded nor erased exactly when the instruction before it in its
      block was erased. */
  lemma {:induction false} MissedIffAfterErasure(blocks: seq<seq<Instr>>, p: nat)
    requires p < |Flat(blocks)|
    ensures var t := Analyse(blocks);
      Missed(0, Flat(blocks), t, p) <==>
      IsEml(Flat(blocks)[p].opcode) && p > 0 && p - 1 in t.erased && !LastOfBlock(0, blocks, p - 1)
  {
    BlocksMissedIff(0, blocks, FRESH, p);
  }

  /** The iterator steps over point `p`. */
  predicate Skipped(blocks: seq<seq<Instr>>, t: Tables, p: nat) {
    p > 0 && p - 1 in t.erased && !LastOfBlock(0, blocks, p - 1)
  }

  /** Point `p` holds one of the six EML instructions and is visited. */
  predicate Seen(blocks: seq<seq<Instr>>, t: Tables, p: nat) {
    p < |Flat(blocks)| && Flat(blocks)[p].opcode in {XE_EXP, XE_LN, XE_SUB, XE_MUL, XE_ADD, XE_DIV} &&
    !Skipped(blocks, t, p)
  }

  /** Point `q` is visited, survives, and is like `p`. */
  predicate Keeper(blocks: seq<seq<Instr>>, t: Tables, q: nat, p: nat) {
    Seen(blocks, t, q) && q !in t.erased && p < |Flat(blocks)| && Alike(Flat(blocks)[q], Flat(blocks)[p])
  }

  lemma {:induction false} EmlOpcodes(op: Opcode)
    ensures IsEml(op) <==> op in {XE_EXP, XE_LN, XE_SUB, XE_MUL, XE_ADD, XE_DIV}
  {
  }

  lemma {:induction false} LeadersAreKept(blocks: seq<seq<Instr>>, p: nat)
    requires p < |Flat(blocks)|
    ensures var t := Analyse(blocks);
      (p in t.leaders ==> p !in t.erased) &&
      (p in t.leaders || p in t.erased <==> Seen(blocks, t, p))
  {
    hide Analyse, NodeOf, LastOfBlock;
    var t := Analyse(blocks);
    AnalyseBacked(blocks);
    MissedIffAfterErasure(blocks, p);
    EmlOpcodes(Flat(blocks)[p].opcode);
    if p in t.leaders {
      var id :| 0 <= id < |t.leaders| && t.leaders[id] == p;
      assert LeaderBacked(Flat(blocks), |Flat(blocks)|, t, id);
    }
    assert p in t.erased ==> ErasureBacked(Flat(blocks), |Flat(blocks)|, t, p);
  }

  lemma {:induction false} LeadersDiffer(code: seq<Instr>, t: Tables, p: nat, q: nat)
    requires Backed(code, |code|, t) && p in t.leaders && q in t.leaders && p < |code| && q < |code|
    requires NodeOf(code[p]) == NodeOf(code[q])
    ensures p == q
  {
    hide NodeOf;
    var i :| 0 <= i < |t.leaders| && t.leaders[i] == p;
    var j :| 0 <= j < |t.leaders| && t.leaders[j] == q;
    assert LeaderBacked(code, |code|, t, i) && LeaderBacked(code, |code|, t, j);
  }

  lemma {:induction false} ErasedHasLeader(code: seq<Instr>, t: Tables, e: nat)
    requires Backed(code, |code|, t) && e in t.erased
    ensures t.erased[e] < e < |code| && t.erased[e] in t.leaders && NodeOf(code[e]) == NodeOf(code[t.erased[e]])
  {
    hide NodeOf;
    assert ErasureBacked(code, |code|, t, e);
    assert LeaderBacked(code, |code|, t, t.cse[NodeOf(code[e])]);
  }

  /** What is erased, exactly and on every function: a visited EML instruction behind a visited one of
      the same opcode and numbers that survives. There is only one such, and it is the leader. */
  lemma {:induction false} ErasedIff(blocks: seq<seq<Instr>>, p: nat)
    ensures var t := Analyse(blocks);
      (p in t.erased <==> Seen(blocks, t, p) && exists q: nat :: q < p && Keeper(blocks, t, q, p)) &&
      (p in t.erased ==> forall q: nat :: Keeper(blocks, t, q, p) <==> q == t.erased[p])
  {
    hide Analyse, NodeOf, Alike, Seen, Backed;
    var t, code := Analyse(blocks), Flat(blocks);
    AnalyseBacked(blocks);
    if p in t.erased {
      ErasedHasLeader(code, t, p);
      var l := t.erased[p];
      LeadersAreKept(blocks, p);
      LeadersAreKept(blocks, l);
      NodesEqualIff(code[l], code[p]);
      forall q: nat | Keeper(blocks, t, q, p)
        ensures q == l
      {
        SeenPoint(blocks, t, q);
        LeadersAreKept(blocks, q);
        NodesEqualIff(code[q], code[p]);
        LeadersDiffer(code, t, q, l);
      }
      assert Keeper(blocks, t, l, p);
    } else if Seen(blocks, t, p) {
      SeenPoint(blocks, t, p);
      forall q: nat | q < p
        ensures !Keeper(blocks, t, q, p)
      {
        if Keeper(blocks, t, q, p) {
          SeenPoint(blocks, t, q);
          LeadersAreKept(blocks, q);
          LeadersAreKept(blocks, p);
          NodesEqualIff(code[q], code[p]);
          LeadersDiffer(code, t, q, p);
        }
      }
    }
  }

  lemma {:induction false} SeenPoint(blocks: seq<seq<Instr>>, t: Tables, p: nat)
    requires Seen(blocks, t, p)
    ensures p < |Flat(blocks)|
  {
  }

  /** Operand 0 is register `r`. */
  predicate FirstIs(i: Instr, r: Reg) {
    i.operands != [] && (i.operands[0] == Def(r) || i.operands[0] == Use(r))
  }

  /** Register `r` is recorded for the node of leader `l`. */
  ghost predicate RecordedFor(blocks: seq<seq<Instr>>, t: Tables, l: nat, r: Reg) {
    var code := Flat(blocks);
    l < |code| &&
    if exists x :: FirstIs(code[l], x) then FirstIs(code[l], r)
    else r == 0 && exists e, x :: e in t.erased && t.erased[e] == l && e < |code| && FirstIs(code[e], x)
  }

  /** What `node_to_reg` holds after a run: for the node of a kept leader its first register; 0 where only
      an instruction erased for it has one; nothing otherwise. */
  lemma {:induction false} RegistersIff(blocks: seq<seq<Instr>>, id: nat, r: Reg)
    ensures var t := Analyse(blocks);
      (id >= |t.leaders| ==> id !in t.regs) &&
      (id < |t.leaders| ==> (id in t.regs && t.regs[id] == r <==> RecordedFor(blocks, t, t.leaders[id], r)))
  {
    hide Analyse, NodeOf, IsEml, HasReg0, FirstIs, Named;
    var t, code := Analyse(blocks), Flat(blocks);
    AnalyseBacked(blocks);
    assert RegisterBacked(code, t, id);
    if id < |t.leaders| {
      assert LeaderBacked(code, |code|, t, id);
      HasFirst(code[t.leaders[id]], r);
      NamedIff(code, t, t.leaders[id]);
    }
  }

  lemma {:induction false} HasFirst(i: Instr, r: Reg)
    ensures HasReg0(i) <==> exists x :: FirstIs(i, x)
    ensures HasReg0(i) ==> (FirstIs(i, r) <==> r == i.operands[0].reg)
  {
    if HasReg0(i) {
      assert FirstIs(i, i.operands[0].reg);
    }
  }

  lemma {:induction false} NamedIff(code: seq<Instr>, t: Tables, l: nat)
    requires l < |code|
    ensures Named(code, t, l) <==>
      HasReg0(code[l]) ||
      exists e, x :: e in t.erased && t.erased[e] == l && e < |code| && FirstIs(code[e], x)
  {
    hide HasReg0, FirstIs;
    forall e | e in t.erased && e < |code|
      ensures HasReg0(code[e]) <==> exists x :: FirstIs(code[e], x)
    {
      HasFirst(code[e], 0);
    }
  }

  /** Immediates from 0 to 2^32 - 1 are told apart: where an erased instruction and its leader both have
      one, it is the same. */
  lemma {:induction false} ErasedImmediatesEqual(blocks: seq<seq<Instr>>, e: nat, k: nat)
    requires e in Analyse(blocks).erased
    ensures var l, code := Analyse(blocks).erased[e], Flat(blocks);
      l < e < |code| && |Numbered(code[l].operands)| == |Numbered(code[e].operands)| &&
      (k < |Numbered(code[e].operands)| ==>
        var a, b := Numbered(code[l].operands)[k], Numbered(code[e].operands)[k];
        a.Imm? && b.Imm? && 0 <= a.value < 0x1_0000_0000 && 0 <= b.value < 0x1_0000_0000 ==> a == b)
  {
    hide Analyse, Backed, NodeOf, Numbered;
    AnalyseBacked(blocks);
    ErasedHasLeader(Flat(blocks), Analyse(blocks), e);
    NodesEqualIff(Flat(blocks)[Analyse(blocks).erased[e]], Flat(blocks)[e]);
  }

  // ---------------------------------------------------------------------------------------
  // The pass as written erases without remapping
  // ---------------------------------------------------------------------------------------

  /** What the function the pass returns does: erased points do nothing, kept ones are unchanged. */
  ghost function RunErased<V, W>(
    sem: Semantics<V, W>, code: seq<Instr>, t: Tables, path: Path, st: State<V, W>): State<V, W>
    requires forall k :: 0 <= k < |path| ==> path[k] < |code|
  {
    if path == [] then st
    else
      var n := |path| - 1;
      var before := RunErased(sem, code, t, path[..n], st);
      if path[n] in t.erased then before else Exec(sem, code[path[n]], Prev(path, n), before)
  }

  /** No survivor that is reached reads an erased destination. */
  ghost predicate NoDangling(flow: Flow, code: seq<Instr>, t: Tables) {
    forall u, prev, e :: Dangling(code, t, u, prev, e) ==> !Arrives(flow, code, prev, u)
  }

  lemma {:induction false} SameUnerasedReads<V, W>(
    flow: Flow, code: seq<Instr>, t: Tables, u: nat, prev: int, s: State<V, W>, s': State<V, W>)
    requires NoDangling(flow, code, t) && Arrives(flow, code, prev, u) && u < |code| && u !in t.erased
    requires Agree(code, t, s, s')
    ensures Inputs(Sources(code[u], prev), s.regs) == Inputs(Sources(code[u], prev), s'.regs)
  {
    hide Sources, Arrives;
    var uses := Sources(code[u], prev);
    forall k | 0 <= k < |uses|
      ensures InputOf(uses[k], s.regs) == InputOf(uses[k], s'.regs)
    {
      assert uses[k] in uses;
      if uses[k].Use? {
        forall e: nat
          ensures !ErasedDest(code, t, e, uses[k].reg)
        {
          assert !Dangling(code, t, u, prev, e);
        }
      }
    }
  }

  lemma {:induction false} ErasureAloneSound<V, W>(
    sem: Semantics<V, W>, flow: Flow, code: seq<Instr>, t: Tables, path: Path, st: State<V, W>)
    requires PassResult(flow, code, t) && NoDangling(flow, code, t) && IsPath(flow, code, path)
    ensures Agree(code, t, Run(sem, code, path, st), RunErased(sem, code, t, path, st))
  {
    hide PassResult, NoDangling, Exec, Sources, Arrives;
    if path != [] {
      var n := |path| - 1;
      PathPrefix(flow, code, path, n);
      ErasureAloneSound(sem, flow, code, t, path[..n], st);
      var i, prev := code[path[n]], Prev(path, n);
      var s, s' := Run(sem, code, path[..n], st), RunErased(sem, code, t, path[..n], st);
      if path[n] in t.erased {
        ErasedStep(sem, flow, code, t, path[n], prev, s);
      } else {
        PathArrives(flow, code, path, n);
        SameUnerasedReads(flow, code, t, path[n], prev, s, s');
        SameInputsSameEffect(sem, i, i, prev, s, s');
      }
    }
  }

  /** Without its definition an erased destination keeps its initial value. */
  lemma {:induction false} ErasedNeverWritten(flow: Flow, code: seq<Instr>, t: Tables, path: Path, e: nat)
    requires PassResult(flow, code, t) && IsPath(flow, code, path) && e in t.erased && e < |code|
    ensures RunErased(SYMBOLIC, code, t, path, SYMBOLIC_START).regs(DestOf(code[e])) == Start(DestOf(code[e]))
  {
    hide PassResult, OutcomeOf, Sources;
    if path != [] {
      var n := |path| - 1;
      PathPrefix(flow, code, path, n);
      ErasedNeverWritten(flow, code, t, path[..n], e);
      OnlyErasedDefines(flow, code, t, e, path[n]);
    }
  }

  /** Where a dangling read is reached, the original register holds a computed value. */
  lemma {:induction false} ErasedComputed(flow: Flow, code: seq<Instr>, t: Tables, path: Path, e: nat, prev: nat)
    requires PassResult(flow, code, t) && PathTo(flow, code, path, prev) && e in t.erased && e < |code|
    requires Covers(flow, code, e, prev)
    ensures RunSymbolic(code, path).regs(DestOf(code[e])).Apply?
  {
    hide Backed, Run, Covers, DefsDominateReads, Ssa;
    LeaderOf(flow, code, t, e);
    assert path[..|path|] == path;
    EmlValue(SYMBOLIC, flow, code, path, SYMBOLIC_START, |path|, e);
  }

  /** As written, without the remap, the returned function behaves like the original if and only
      if no surviving instruction that can be reached reads an erased destination. */
  lemma {:induction false} ErasureAloneSoundIff(flow: Flow, code: seq<Instr>, t: Tables)
    requires PassResult(flow, code, t)
    ensures (forall path :: IsPath(flow, code, path) ==> ErasedAgrees(code, t, path)) <==>
            NoDangling(flow, code, t)
  {
    hide PassResult, ErasedAgrees, Dangling, Arrives;
    if NoDangling(flow, code, t) {
      forall path | IsPath(flow, code, path)
        ensures ErasedAgrees(code, t, path)
      {
        UndanglingAgrees(flow, code, t, path);
      }
    } else {
      var u: nat, prev: int, e: nat :| Dangling(code, t, u, prev, e) && Arrives(flow, code, prev, u);
      var path := DanglingDiffers(flow, code, t, u, prev, e);
    }
  }

  lemma {:induction false} UndanglingAgrees(flow: Flow, code: seq<Instr>, t: Tables, path: Path)
    requires PassResult(flow, code, t) && NoDangling(flow, code, t) && IsPath(flow, code, path)
    ensures ErasedAgrees(code, t, path)
  {
    hide PassResult, NoDangling, Agree, Run, RunErased;
    ErasureAloneSound(SYMBOLIC, flow, code, t, path, SYMBOLIC_START);
  }

  lemma {:induction false} DanglingDiffers(
    flow: Flow, code: seq<Instr>, t: Tables, u: nat, prev: int, e: nat) returns (path: Path)
    requires PassResult(flow, code, t) && Dangling(code, t, u, prev, e) && Arrives(flow, code, prev, u)
    ensures IsPath(flow, code, path) && !ErasedAgrees(code, t, path)
  {
    hide PassResult, Agree, Exec, Sources, Covers;
    DanglingCovered(flow, code, t, u, prev, e);
    var before :| PathTo(flow, code, before, prev);
    path := before + [u];
    assert path[..|before|] == before && Prev(path, |before|) == prev;
    ErasedComputed(flow, code, t, before, e, prev);
    ErasedNeverWritten(flow, code, t, before, e);
    var k := SourceIndex(code[u], prev, DestOf(code[e]));
    if ErasedAgrees(code, t, path) {
      AgreementNeedsReads(flow, code, t, u, code[u], prev, RunSymbolic(code, before),
                          RunErased(SYMBOLIC, code, t, before, SYMBOLIC_START), k);
    }
  }

  ghost predicate ErasedAgrees(code: seq<Instr>, t: Tables, path: Path) {
    (forall k :: 0 <= k < |path| ==> path[k] < |code|) &&
    Agree(code, t, RunSymbolic(code, path), RunErased(SYMBOLIC, code, t, path, SYMBOLIC_START))
  }
}
