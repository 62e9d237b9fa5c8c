/** The machine-mode trap handler: context save, dispatch on mcause, mepc advance, restore. */
module TrapHandler {
  import opened Prelude

  type Word = w: nat | w < U32

  type Memory = Word -> Word

  /** The integer registers; x0 is zero. */
  type Registers = x: seq<Word> | |x| == 32 && x[0] == 0 witness seq(32, _ => 0)

  /** Integer registers, control registers and word memory. */
  datatype Machine = Machine(x: Registers, pc: Word, mepc: Word, mcause: Word, mem: Memory)

  const RA: nat := 1
  const SP: nat := 2
  const T0: nat := 5
  const A0: nat := 10

  /** The register saved in slot `k`: ra, then t0-t2, a0-a7 and t3-t6. */
  function SavedReg(k: nat): (r: nat)
    requires k < 16
    ensures 0 < r < 32 && r != SP && IsSaved(r) && SlotOf(r) == k
  {
    if k == 0 then RA else if k < 4 then T0 + k - 1 else if k < 12 then A0 + k - 4 else 28 + k - 12
  }

  predicate IsSaved(r: nat) {
    r == RA || 5 <= r <= 7 || 10 <= r <= 17 || 28 <= r <= 31
  }

  /** The slot of a saved register. */
  function SlotOf(r: nat): (k: nat)
    ensures IsSaved(r) ==> k < 16
  {
    if r == RA then 0 else if T0 <= r <= 7 then r - T0 + 1
    else if A0 <= r <= 17 then r - A0 + 4 else if 28 <= r then r - 28 + 12 else 0
  }

  lemma {:induction false} SavedAtSlot(r: nat)
    requires IsSaved(r)
    ensures SavedReg(SlotOf(r)) == r
  {
  }

  /** `base + offset` in 32-bit arithmetic. */
  function Address(base: Word, offset: int): Word {
    (base + offset) % U32
  }

  /** Slot `k` of the frame that starts at `sp`. */
  function Slot(sp: Word, k: nat): Word {
    Address(sp, 4 * k)
  }

  predicate InFrame(sp: Word, a: Word) {
    exists k: nat :: k < 16 && a == Slot(sp, k)
  }

  lemma {:induction false} SlotsDistinct(sp: Word, j: nat, k: nat)
    requires j < k < 16
    ensures Slot(sp, j) != Slot(sp, k)
  {
  }

  lemma {:induction false} SlotInFrame(sp: Word, k: nat)
    requires k < 16
    ensures InFrame(sp, Slot(sp, k))
  {
  }

  function Store(mem: Memory, a: Word, w: Word): Memory {
    b => if b == a then w else mem(b)
  }

  // ---------------------------------------------------------------------------------------
  // The handler as a function
  // ---------------------------------------------------------------------------------------

  /** Memory after the first `n` stores into the frame at `sp`. */
  function StoreFrame(mem: Memory, x: Registers, sp: Word, n: nat): Memory
    requires n <= 16
  {
    if n == 0 then mem else Store(StoreFrame(mem, x, sp, n - 1), Slot(sp, n - 1), x[SavedReg(n - 1)])
  }

  /** Registers after the first `n` loads from the frame at `sp`. */
  function LoadFrame(x: Registers, mem: Memory, sp: Word, n: nat): (y: Registers)
    requires n <= 16
    ensures y[SP] == x[SP]
  {
    if n == 0 then x else LoadFrame(x, mem, sp, n - 1)[SavedReg(n - 1) := mem(Slot(sp, n - 1))]
  }

  /** Take 64 bytes of stack and fill them. */
  function Save(m: Machine): Machine {
    var x := m.x[SP := Address(m.x[SP], -64)];
    m.(x := x, mem := StoreFrame(m.mem, x, x[SP], 16))
  }

  /** What a trap routine does to the machine between its call and its return. */
  type Routine = Machine -> Machine

  datatype Handlers = Handlers(
    irqExternal: Routine, irqTimer: Routine, irqSoftware: Routine,
    excIllegal: Routine, excEcall: Routine, excEbreak: Routine,
    excLoadMisalign: Routine, excStoreMisalign: Routine, excDefault: Routine)

  /** Bit 31 of mcause. */
  predicate IsInterrupt(cause: Word) {
    cause >= 0x8000_0000
  }

  /** The routine a cause selects, if any; interrupt codes are cut to five bits. */
  datatype Choice = Nothing | Call(routine: Routine)

  function Choose(h: Handlers, cause: Word): Choice {
    if IsInterrupt(cause) then
      match cause % 0x20
      case 11 => Call(h.irqExternal)
      case 7 => Call(h.irqTimer)
      case 3 => Call(h.irqSoftware)
      case _ => Nothing
    else
      match cause
      case 2 => Call(h.excIllegal)
      case 11 => Call(h.excEcall)
      case 3 => Call(h.excEbreak)
      case 4 => Call(h.excLoadMisalign)
      case 6 => Call(h.excStoreMisalign)
      case _ => Call(h.excDefault)
  }

  /** The code the comparisons leave in t0. */
  function LastCompared(cause: Word): Word {
    if IsInterrupt(cause) then
      match cause % 0x20
      case 11 => 11
      case 7 => 7
      case _ => 3
    else
      match cause
      case 2 => 2
      case 11 => 11
      case 3 => 3
      case 4 => 4
      case _ => 6
  }

  /** Read and compare the cause. */
  function Select(m: Machine): Machine {
    var code: Word := if IsInterrupt(m.mcause) then m.mcause % 0x20 else m.mcause;
    m.(x := m.x[A0 := code][T0 := LastCompared(m.mcause)])
  }

  /** The machine the chosen routine starts on, `link` being its return address. */
  function CallOn(h: Handlers, link: Word, m: Machine): Machine {
    var s := Select(Save(m));
    if Choose(h, m.mcause).Call? then s.(x := s.x[RA := link]) else s
  }

  /** The machine when the chosen routine is back. */
  function Return(h: Handlers, cause: Word, called: Machine): Machine {
    match Choose(h, cause)
    case Nothing => called
    case Call(r) => r(called)
  }

  /** The exceptions after which execution continues behind the faulting instruction. */
  predicate Advances(cause: Word) {
    cause in {2, 3, 11}
  }

  function Advance(m: Machine): Machine {
    m.(x := m.x[T0 := Address(m.mepc, 4)], mepc := Address(m.mepc, 4))
  }

  /** Reload the registers, give the stack back, and return to mepc. */
  function Restore(m: Machine): Machine {
    var x := LoadFrame(m.x, m.mem, m.x[SP], 16);
    m.(x := x[SP := Address(x[SP], 64)], pc := m.mepc)
  }

  /** The whole handler. */
  function Handle(h: Handlers, link: Word, m: Machine): Machine {
    var b := Return(h, m.mcause, CallOn(h, link, m));
    Restore(if Advances(m.mcause) then Advance(b) else b)
  }

  // ---------------------------------------------------------------------------------------
  // The code
  // ---------------------------------------------------------------------------------------

  class Hart {
    var x: Registers
    var pc: Word
    var mepc: Word
    var mcause: Word
    var mem: Memory

    ghost function Now(): Machine
      reads this
    {
      Machine(x, pc, mepc, mcause, mem)
    }

    constructor (m: Machine)
      ensures Now() == m
    {
      x, pc, mepc, mcause, mem := m.x, m.pc, m.mepc, m.mcause, m.mem;
    }

    method Addi(r: nat, imm: int)
      requires 0 < r < 32
      modifies this`x
      ensures x == old(x)[r := Address(old(x)[r], imm)]
    {
      x := x[r := Address(x[r], imm)];
    }

    /** sw r, 4k(sp), with `k` stores done on `mem0`. */
    method Sw(r: nat, k: nat, ghost mem0: Memory)
      requires k < 16 && r == SavedReg(k) && mem == StoreFrame(mem0, x, x[SP], k)
      modifies this`mem
      ensures mem == StoreFrame(mem0, x, x[SP], k + 1)
    {
      mem := Store(mem, Slot(x[SP], k), x[r]);
    }

    /** lw r, 4k(sp), with `k` loads done on `x0`. */
    method Lw(r: nat, k: nat, ghost x0: Registers)
      requires k < 16 && r == SavedReg(k) && x == LoadFrame(x0, mem, x0[SP], k)
      modifies this`x
      ensures x == LoadFrame(x0, mem, x0[SP], k + 1)
    {
      x := x[r := mem(Slot(x[SP], k))];
    }

    /** Sixteen stores below the interrupted stack pointer. */
    method SaveContext()
      modifies this`x, this`mem
      ensures Now() == Save(old(Now()))
    {
      Addi(SP, -64);
      StoreAll();
    }

    method StoreAll()
      modifies this`mem
      ensures mem == StoreFrame(old(mem), x, x[SP], 16)
    {
      ghost var mem0 := mem;
      assert mem == StoreFrame(mem0, x, x[SP], 0);
      hide StoreFrame;
      Sw(1, 0, mem0);
      Sw(5, 1, mem0);
      Sw(6, 2, mem0);
      Sw(7, 3, mem0);
      Sw(10, 4, mem0);
      Sw(11, 5, mem0);
      Sw(12, 6, mem0);
      Sw(13, 7, mem0);
      Sw(14, 8, mem0);
      Sw(15, 9, mem0);
      Sw(16, 10, mem0);
      Sw(17, 11, mem0);
      Sw(28, 12, mem0);
      Sw(29, 13, mem0);
      Sw(30, 14, mem0);
      Sw(31, 15, mem0);
    }

    method LoadAll()
      modifies this`x
      ensures x == LoadFrame(old(x), mem, old(x)[SP], 16)
    {
      ghost var x0 := x;
      assert x == LoadFrame(x0, mem, x0[SP], 0);
      hide LoadFrame;
      Lw(1, 0, x0);
      Lw(5, 1, x0);
      Lw(6, 2, x0);
      Lw(7, 3, x0);
      Lw(10, 4, x0);
      Lw(11, 5, x0);
      Lw(12, 6, x0);
      Lw(13, 7, x0);
      Lw(14, 8, x0);
      Lw(15, 9, x0);
      Lw(16, 10, x0);
      Lw(17, 11, x0);
      Lw(28, 12, x0);
      Lw(29, 13, x0);
      Lw(30, 14, x0);
      Lw(31, 15, x0);
    }

    /** Sixteen loads, then the stack pointer, then mret. */
    method RestoreContext()
      modifies this`x, this`pc
      ensures Now() == Restore(old(Now()))
    {
      LoadAll();
      Addi(SP, 64);
      pc := mepc;
    }

    /** li t0, code; beq a0, t0. Earlier comparisons have changed only t0 of `base`. */
    method Compare(code: Word, ghost base: Registers) returns (equal: bool)
      requires x == base[T0 := x[T0]]
      modifies this`x
      ensures x == base[T0 := code] && equal == (x[A0] == code)
    {
      x := x[T0 := code];
      equal := x[A0] == x[T0];
    }

    method SelectInterrupt(h: Handlers) returns (choice: Choice)
      requires x[A0] == mcause && IsInterrupt(mcause)
      modifies this`x
      ensures choice == Choose(h, mcause)
      ensures x == old(x)[A0 := mcause % 0x20][T0 := LastCompared(mcause)]
    {
      x := x[A0 := x[A0] % 0x20];
      ghost var base := x;
      var equal := Compare(11, base);
      if equal {
        return Call(h.irqExternal);
      }
      equal := Compare(7, base);
      if equal {
        return Call(h.irqTimer);
      }
      equal := Compare(3, base);
      choice := if equal then Call(h.irqSoftware) else Nothing;
    }

    method SelectException(h: Handlers) returns (choice: Choice, advance: bool)
      requires x[A0] == mcause && !IsInterrupt(mcause)
      modifies this`x
      ensures choice == Choose(h, mcause) && advance == Advances(mcause)
      ensures x == old(x)[T0 := LastCompared(mcause)]
    {
      ghost var base := x;
      var equal := Compare(2, base);
      if equal {
        return Call(h.excIllegal), true;
      }
      equal := Compare(11, base);
      if equal {
        return Call(h.excEcall), true;
      }
      equal := Compare(3, base);
      if equal {
        return Call(h.excEbreak), true;
      }
      equal := Compare(4, base);
      if equal {
        return Call(h.excLoadMisalign), false;
      }
      equal := Compare(6, base);
      choice, advance := if equal then Call(h.excStoreMisalign) else Call(h.excDefault), false;
    }

    /** csrr a0, mcause and the comparisons; `advance` where the code continues at the mepc advance. */
    method SelectCause(h: Handlers) returns (choice: Choice, advance: bool)
      modifies this`x
      ensures Now() == Select(old(Now()))
      ensures choice == Choose(h, mcause) && advance == Advances(mcause)
    {
      hide Choose, LastCompared;
      ghost var x0 := x;
      var cause: Word := mcause;
      x := x[A0 := cause];
      if IsInterrupt(mcause) {
        advance := false;
        choice := SelectInterrupt(h);
        assert x0[A0 := mcause][A0 := mcause % 0x20] == x0[A0 := mcause % 0x20];
      } else {
        choice, advance := SelectException(h);
      }
    }

    /** jal ra, routine, and its return. */
    method Jump(r: Routine, link: Word)
      modifies this
      ensures Now() == r(old(Now()).(x := old(x)[RA := link]))
    {
      x := x[RA := link];
      var m := r(Machine(x, pc, mepc, mcause, mem));
      x, pc, mepc, mcause, mem := m.x, m.pc, m.mepc, m.mcause, m.mem;
    }

    /** csrr t0, mepc; addi t0, t0, 4; csrw mepc, t0. */
    method AdvanceEpc()
      modifies this`x, this`mepc
      ensures Now() == Advance(old(Now()))
    {
      ghost var x0 := x;
      var epc: Word := mepc;
      x := x[T0 := epc];
      Addi(T0, 4);
      mepc := x[T0];
      assert x == x0[T0 := mepc];
    }

    /** _trap_handler, from entry to mret, whatever the routines do. */
    method Trap(h: Handlers, link: Word)
      modifies this
      ensures Now() == Handle(h, link, old(Now()))
    {
      hide Save, Select, Choose, Restore, Advance, Advances;
      ghost var cause := mcause;
      SaveContext();
      SaveKeepsCause(old(Now()));
      var choice, advance := SelectCause(h);
      match choice {
        case Call(r) =>
          Jump(r, link);
        case Nothing =>
      }
      if advance {
        AdvanceEpc();
      }
      RestoreContext();
    }
  }

  lemma {:induction false} SaveKeepsCause(m: Machine)
    ensures Save(m).mcause == m.mcause && Select(Save(m)).mcause == m.mcause
  {
  }

  // ---------------------------------------------------------------------------------------
  // Transparency
  // ---------------------------------------------------------------------------------------

  /** The frame holds the saved registers and nothing else in memory changes. */
  lemma {:induction false} FrameContents(mem: Memory, x: Registers, sp: Word, n: nat)
    requires n <= 16
    ensures forall k: nat :: k < n ==> StoreFrame(mem, x, sp, n)(Slot(sp, k)) == x[SavedReg(k)]
    ensures forall a: Word :: !InFrame(sp, a) ==> StoreFrame(mem, x, sp, n)(a) == mem(a)
  {
    hide Slot;
    if n > 0 {
      FrameContents(mem, x, sp, n - 1);
      SlotInFrame(sp, n - 1);
      forall k: nat | k < n - 1
        ensures Slot(sp, k) != Slot(sp, n - 1)
      {
        SlotsDistinct(sp, k, n - 1);
      }
    }
  }

  /** Loading gives every saved register its slot and leaves the others. */
  lemma {:induction false} LoadedRegisters(x: Registers, mem: Memory, sp: Word, n: nat)
    requires n <= 16
    ensures forall r :: 0 <= r < 32 ==>
      LoadFrame(x, mem, sp, n)[r] ==
      if IsSaved(r) && SlotOf(r) < n then mem(Slot(sp, SlotOf(r))) else x[r]
  {
    hide Slot;
    if n > 0 {
      LoadedRegisters(x, mem, sp, n - 1);
      forall r | 0 <= r < 32 && IsSaved(r) && SlotOf(r) == n - 1
        ensures r == SavedReg(n - 1)
      {
        SavedAtSlot(r);
      }
    }
  }

  /** The part of the calling convention a trap relies on, for one call from `a` to `b`: sp, gp, tp
      and s0-s11 come back, and so do the sixteen words at the caller's sp. */
  ghost predicate KeepsContext(a: Machine, b: Machine) {
    (forall r :: 0 <= r < 32 && !IsSaved(r) ==> b.x[r] == a.x[r]) &&
    forall k: nat :: k < 16 ==> b.mem(Slot(a.x[SP], k)) == a.mem(Slot(a.x[SP], k))
  }

  /** The routine starts on the interrupted machine but for saved registers, sp and the frame. */
  lemma {:induction false} CalledMachine(h: Handlers, link: Word, m: Machine)
    ensures var c, sp := CallOn(h, link, m), Address(m.x[SP], -64);
      c.x[SP] == sp && c.pc == m.pc && c.mepc == m.mepc && c.mcause == m.mcause &&
      (forall r :: 0 <= r < 32 && r != SP && !IsSaved(r) ==> c.x[r] == m.x[r]) &&
      (forall k: nat :: k < 16 ==> c.mem(Slot(sp, k)) == m.x[SavedReg(k)]) &&
      forall a: Word :: !InFrame(sp, a) ==> c.mem(a) == m.mem(a)
  {
    hide StoreFrame, Slot, Choose, LastCompared;
    var sp := Address(m.x[SP], -64);
    FrameContents(m.mem, m.x[SP := sp], sp, 16);
  }

  /** The registers at mret, read off the machine the routine returned. */
  lemma {:induction false} RestoredMachine(h: Handlers, link: Word, m: Machine)
    ensures var b, t := Return(h, m.mcause, CallOn(h, link, m)), Handle(h, link, m);
      t.x[SP] == Address(b.x[SP], 64) &&
      (forall r :: 0 <= r < 32 && r != SP ==>
        t.x[r] == if IsSaved(r) then b.mem(Slot(b.x[SP], SlotOf(r))) else b.x[r]) &&
      t.mepc == (if Advances(m.mcause) then Address(b.mepc, 4) else b.mepc) &&
      t.pc == t.mepc && t.mcause == b.mcause && t.mem == b.mem
  {
    hide CallOn, Return, LoadFrame, Slot, SlotOf;
    var b := Return(h, m.mcause, CallOn(h, link, m));
    var a := if Advances(m.mcause) then Advance(b) else b;
    LoadedRegisters(a.x, a.mem, a.x[SP], 16);
  }

  // --- which routine is called --------------------------------------------------------------

  /** The handler around routine `r`: from entry to mret with a call of `r` in the middle. */
  function Around(r: Routine, link: Word, m: Machine): Machine {
    var s := Select(Save(m));
    var b := r(s.(x := s.x[RA := link]));
    Restore(if Advances(m.mcause) then Advance(b) else b)
  }

  /** Which routine runs, cause by cause. */
  lemma {:induction false} Dispatch(h: Handlers, link: Word, m: Machine)
    ensures m.mcause >= 0x8000_0000 ==> var code := m.mcause % 32;
      (code == 11 ==> Handle(h, link, m) == Around(h.irqExternal, link, m)) &&
      (code == 7 ==> Handle(h, link, m) == Around(h.irqTimer, link, m)) &&
      (code == 3 ==> Handle(h, link, m) == Around(h.irqSoftware, link, m)) &&
      (code !in {3, 7, 11} ==> Handle(h, link, m) == Restore(Select(Save(m))))
    ensures m.mcause < 0x8000_0000 ==>
      (m.mcause == 2 ==> Handle(h, link, m) == Around(h.excIllegal, link, m)) &&
      (m.mcause == 11 ==> Handle(h, link, m) == Around(h.excEcall, link, m)) &&
      (m.mcause == 3 ==> Handle(h, link, m) == Around(h.excEbreak, link, m)) &&
      (m.mcause == 4 ==> Handle(h, link, m) == Around(h.excLoadMisalign, link, m)) &&
      (m.mcause == 6 ==> Handle(h, link, m) == Around(h.excStoreMisalign, link, m)) &&
      (m.mcause !in {2, 3, 4, 6, 11} ==> Handle(h, link, m) == Around(h.excDefault, link, m))
  {
    hide Save, Select, Restore, Advance;
  }

  /** Each cause depends on its own routine alone, an unknown interrupt on none. */
  lemma {:induction false} DependsOnOwnRoutine(h: Handlers, k: Handlers, link: Word, m: Machine)
    requires m.mcause >= 0x8000_0000 ==>
      (m.mcause % 32 == 11 ==> h.irqExternal == k.irqExternal) &&
      (m.mcause % 32 == 7 ==> h.irqTimer == k.irqTimer) &&
      (m.mcause % 32 == 3 ==> h.irqSoftware == k.irqSoftware)
    requires m.mcause < 0x8000_0000 ==>
      (m.mcause == 2 ==> h.excIllegal == k.excIllegal) &&
      (m.mcause == 11 ==> h.excEcall == k.excEcall) &&
      (m.mcause == 3 ==> h.excEbreak == k.excEbreak) &&
      (m.mcause == 4 ==> h.excLoadMisalign == k.excLoadMisalign) &&
      (m.mcause == 6 ==> h.excStoreMisalign == k.excStoreMisalign) &&
      (m.mcause !in {2, 3, 4, 6, 11} ==> h.excDefault == k.excDefault)
    ensures Handle(h, link, m) == Handle(k, link, m)
  {
    hide Around, Handle, Save, Select, Restore;
    Dispatch(h, link, m);
    Dispatch(k, link, m);
  }

  /** The handler leaves memory as the routine left it, so a call of another routine shows. The
      routine finds the code in a0, in t0 the comparison that chose it, or the last one made, in ra
      its return address, and the rest as interrupted. */
  lemma {:induction false} RoutineRuns(r: Routine, link: Word, m: Machine)
    ensures exists c: Machine ::
      Around(r, link, m).mem == r(c).mem && c.x[RA] == link && Called(m, c)
  {
    hide StoreFrame, LoadFrame, Slot, LastCompared;
    var s := Select(Save(m));
    var c := s.(x := s.x[RA := link]);
    CalledIs(m, c, link);
  }

  /** What a routine finds, apart from its return address. */
  ghost predicate Called(m: Machine, c: Machine) {
    var sp := Address(m.x[SP], -64);
    var code := if m.mcause >= 0x8000_0000 then m.mcause % 32 else m.mcause;
    var compared := if m.mcause >= 0x8000_0000 then [11, 7, 3] else [2, 11, 3, 4, 6];
    c.pc == m.pc && c.mepc == m.mepc && c.mcause == m.mcause && c.x[SP] == sp && c.x[A0] == code &&
    c.x[T0] == (if code in compared then code else compared[|compared| - 1]) &&
    (forall r :: 0 <= r < 32 && r !in {RA, SP, T0, A0} ==> c.x[r] == m.x[r]) &&
    (forall k: nat :: k < 16 ==>
      c.mem(Slot(sp, k)) == m.x[[1, 5, 6, 7, 10, 11, 12, 13, 14, 15, 16, 17, 28, 29, 30, 31][k]]) &&
    forall a: Word :: !InFrame(sp, a) ==> c.mem(a) == m.mem(a)
  }

  lemma {:induction false} CalledIs(m: Machine, c: Machine, link: Word)
    requires var s := Select(Save(m)); c == s.(x := s.x[RA := link])
    ensures Called(m, c) && c.x[RA] == link
  {
    hide StoreFrame, Slot;
    var sp := Address(m.x[SP], -64);
    FrameContents(m.mem, m.x[SP := sp], sp, 16);
    forall k: nat | k < 16
      ensures SavedReg(k) == [1, 5, 6, 7, 10, 11, 12, 13, 14, 15, 16, 17, 28, 29, 30, 31][k] != SP
    {
    }
  }

  /** An unknown interrupt calls nothing: registers, mepc and memory outside the frame are as before. */
  lemma {:induction false} UnknownInterruptIgnored(h: Handlers, link: Word, m: Machine)
    requires m.mcause >= 0x8000_0000 && m.mcause % 32 !in {3, 7, 11}
    ensures var t := Handle(h, link, m);
      t.x == m.x && t.pc == t.mepc == m.mepc && t.mcause == m.mcause &&
      forall a: Word :: !InFrame(Address(m.x[SP], -64), a) ==> t.mem(a) == m.mem(a)
  {
    hide Handle, CallOn, InFrame, Address;
    CalledMachine(h, link, m);
    RestoredMachine(h, link, m);
    RegistersBackIff(h, link, m);
  }

  lemma {:induction false} StackGivenBack(sp: Word, sp': Word)
    ensures Address(sp', 64) == sp <==> sp' == Address(sp, -64)
    ensures Address(Address(sp, -64), 64) == sp
  {
    hide Address;
    AddressDown(sp);
    AddressUp(sp');
    AddressUp(Address(sp, -64));
  }

  lemma {:induction false} AddressDown(sp: Word)
    ensures Address(sp, -64) == if sp >= 64 then sp - 64 else sp - 64 + U32
  {
  }

  lemma {:induction false} AddressUp(sp: Word)
    ensures Address(sp, 64) == if sp + 64 < U32 then sp + 64 else sp + 64 - U32
  {
  }

  /** The exact condition: all 32 registers are back at mret if and only if the called routine kept
      the callee-saved registers and the frame. */
  lemma {:induction false} RegistersBackIff(h: Handlers, link: Word, m: Machine)
    ensures var c := CallOn(h, link, m);
      Handle(h, link, m).x == m.x <==> KeepsContext(c, Return(h, m.mcause, c))
  {
    hide CallOn, Return, Handle, Slot, SlotOf, SavedReg, Address;
    var c := CallOn(h, link, m);
    var b, t := Return(h, m.mcause, c), Handle(h, link, m);
    CalledMachine(h, link, m);
    RestoredMachine(h, link, m);
    StackGivenBack(m.x[SP], b.x[SP]);
    if KeepsContext(c, b) {
      forall r | 0 <= r < 32
        ensures t.x[r] == m.x[r]
      {
        if IsSaved(r) {
          SlotBounds(r);
          SavedAtSlot(r);
        }
      }
    }
    if t.x == m.x {
      forall k: nat | k < 16
        ensures b.mem(Slot(c.x[SP], k)) == c.mem(Slot(c.x[SP], k))
      {
        SavedBounds(k);
        assert t.x[SavedReg(k)] == m.x[SavedReg(k)];
      }
    }
  }

  lemma {:induction false} SlotBounds(r: nat)
    requires IsSaved(r)
    ensures r < 32 && SlotOf(r) < 16 && r != SP
  {
  }

  lemma {:induction false} SavedBounds(k: nat)
    requires k < 16
    ensures var r := SavedReg(k); 0 < r < 32 && r != SP && IsSaved(r) && SlotOf(r) == k
  {
  }

  /** A routine that keeps the context and mepc: registers come back, execution continues at mepc,
      moved by 4 exactly for exceptions 2, 3 and 11, and memory is what the routine left. */
  lemma {:induction false} TrapTransparent(h: Handlers, link: Word, m: Machine)
    requires var c := CallOn(h, link, m);
      KeepsContext(c, Return(h, m.mcause, c)) && Return(h, m.mcause, c).mepc == m.mepc
    ensures var t := Handle(h, link, m);
      t.x == m.x && t.pc == t.mepc == (if m.mcause in {2, 3, 11} then Address(m.mepc, 4) else m.mepc) &&
      t.mem == Return(h, m.mcause, CallOn(h, link, m)).mem
  {
    hide CallOn, Return, Handle, KeepsContext, Slot, SlotOf, Address;
    RegistersBackIff(h, link, m);
    RestoredMachine(h, link, m);
  }
}

/** Interrupting a program that runs on the same hart. */
module Interruption {

  import opened TrapHandler

  /** One instruction of the interrupted program. */
  type Step = Machine -> Machine

  /** Memory the program does not rely on, by registers and program counter: the stack below sp,
      data of the handlers, stack words allocated and not yet written. */
  type Dead = (seq<Word>, Word, Word) -> bool

  /** What the program can see is the same: registers, program counter, live memory. */
  ghost predicate Agree(dead: Dead, a: Machine, b: Machine) {
    a.x == b.x && a.pc == b.pc && forall w: Word :: !dead(a.x, a.pc, w) ==> a.mem(w) == b.mem(w)
  }

  /** The instruction at `p` reads neither dead memory nor the trap registers. */
  ghost predicate ObliviousAt(step: Step, dead: Dead, p: Machine) {
    forall a :: Agree(dead, a, p) ==> Agree(dead, step(a), step(p))
  }

  /** The 64 bytes below the stack pointer hold nothing live. */
  ghost predicate RoomBelow(dead: Dead, p: Machine) {
    forall w: Word :: InFrame(Address(p.x[SP], -64), w) ==> dead(p.x, p.pc, w)
  }

  /** Taking a trap saves the program counter and the cause. */
  function Enter(m: Machine, cause: Word): Machine {
    m.(mepc := m.pc, mcause := cause)
  }

  /** What is asked of the routine called by an interrupt taken at `m`: it keeps the context and mepc,
      and writes only dead memory. */
  ghost predicate Behaves(h: Handlers, dead: Dead, m: Machine, cause: Word, link: Word) {
    var c := CallOn(h, link, Enter(m, cause));
    var b := Return(h, cause, c);
    KeepsContext(c, b) && b.mepc == c.mepc &&
    forall w: Word :: !dead(m.x, m.pc, w) ==> b.mem(w) == c.mem(w)
  }

  datatype Event = Retire | Interrupt(cause: Word, link: Word)

  function After(h: Handlers, step: Step, m: Machine, e: Event): Machine {
    match e
    case Retire => step(m)
    case Interrupt(cause, link) => Handle(h, link, Enter(m, cause))
  }

  /** A run of the program with interrupts. */
  function RunWith(h: Handlers, step: Step, m: Machine, events: seq<Event>): Machine {
    if events == [] then m
    else After(h, step, RunWith(h, step, m, events[..|events| - 1]), events[|events| - 1])
  }

  /** The run without interrupts. */
  function Plain(step: Step, m: Machine, n: nat): Machine {
    if n == 0 then m else step(Plain(step, m, n - 1))
  }

  function Retired(events: seq<Event>): (n: nat) {
    if events == [] then 0
    else Retired(events[..|events| - 1]) + if events[|events| - 1].Retire? then 1 else 0
  }

  /** The registers and program counter after each instruction of a run. */
  function Trace(h: Handlers, step: Step, m: Machine, events: seq<Event>): (t: seq<(seq<Word>, Word)>)
    ensures |t| == Retired(events)
  {
    if events == [] then []
    else
      var before, now := Trace(h, step, m, events[..|events| - 1]), RunWith(h, step, m, events);
      if events[|events| - 1].Retire? then before + [(now.x, now.pc)] else before
  }

  function PlainTrace(step: Step, m: Machine, n: nat): (t: seq<(seq<Word>, Word)>)
    ensures |t| == n
  {
    if n == 0 then [] else PlainTrace(step, m, n - 1) + [(Plain(step, m, n).x, Plain(step, m, n).pc)]
  }

  /** Along the uninterrupted run of `n` instructions there is room below the stack pointer, and no
      instruction reads dead memory. */
  ghost predicate ProgramBehaves(step: Step, dead: Dead, m: Machine, n: nat) {
    (forall k: nat :: k <= n ==> RoomBelow(dead, Plain(step, m, k))) &&
    forall k: nat :: k < n ==> ObliviousAt(step, dead, Plain(step, m, k))
  }

  /** Event `i` is an instruction, or an interrupt whose routine behaves. */
  ghost predicate EventBehaves(h: Handlers, step: Step, dead: Dead, m: Machine, events: seq<Event>, i: nat)
    requires i < |events|
  {
    events[i].Interrupt? ==>
      IsInterrupt(events[i].cause) &&
      Behaves(h, dead, RunWith(h, step, m, events[..i]), events[i].cause, events[i].link)
  }

  ghost predicate HandlersBehave(h: Handlers, step: Step, dead: Dead, m: Machine, events: seq<Event>) {
    forall i :: 0 <= i < |events| ==> EventBehaves(h, step, dead, m, events, i)
  }

  /** An interrupt changes nothing the program can see. */
  lemma {:induction false} InterruptInvisible(h: Handlers, dead: Dead, m: Machine, cause: Word, link: Word)
    requires IsInterrupt(cause) && RoomBelow(dead, m) && Behaves(h, dead, m, cause, link)
    ensures Agree(dead, Handle(h, link, Enter(m, cause)), m)
  {
    hide CallOn, Return, Handle, KeepsContext, InFrame, Address;
    var entered := Enter(m, cause);
    CalledMachine(h, link, entered);
    TrapTransparent(h, link, entered);
  }

  lemma {:induction false} AgreeTransitive(dead: Dead, a: Machine, b: Machine, c: Machine)
    requires Agree(dead, a, b) && Agree(dead, b, c)
    ensures Agree(dead, a, c)
  {
  }

  lemma {:induction false} RoomTransfers(dead: Dead, a: Machine, p: Machine)
    requires Agree(dead, a, p) && RoomBelow(dead, p)
    ensures RoomBelow(dead, a)
  {
  }

  lemma {:induction false} EventAgrees(
    h: Handlers, step: Step, dead: Dead, m: Machine, e: Event, plain: Machine)
    requires Agree(dead, m, plain) && RoomBelow(dead, plain)
    requires e.Retire? ==> ObliviousAt(step, dead, plain)
    requires e.Interrupt? ==> IsInterrupt(e.cause) && Behaves(h, dead, m, e.cause, e.link)
    ensures Agree(dead, After(h, step, m, e), if e.Retire? then step(plain) else plain)
  {
    hide RoomBelow, Behaves, Handle;
    match e
    case Retire =>
      assert Agree(dead, step(m), step(plain));
    case Interrupt(cause, link) =>
      RoomTransfers(dead, m, plain);
      InterruptInvisible(h, dead, m, cause, link);
      AgreeTransitive(dead, Handle(h, link, Enter(m, cause)), m, plain);
  }

  lemma {:induction false} HandlersBehaveFront(
    h: Handlers, step: Step, dead: Dead, m: Machine, events: seq<Event>)
    requires events != [] && HandlersBehave(h, step, dead, m, events)
    ensures HandlersBehave(h, step, dead, m, events[..|events| - 1])
    ensures EventBehaves(h, step, dead, m, events, |events| - 1)
  {
    hide Behaves;
    var front := events[..|events| - 1];
    forall i | 0 <= i < |front|
      ensures EventBehaves(h, step, dead, m, front, i)
    {
      assert EventBehaves(h, step, dead, m, events, i) && front[..i] == events[..i];
    }
  }

  lemma {:induction false} ProgramBehavesFront(step: Step, dead: Dead, m: Machine, n: nat, k: nat)
    requires ProgramBehaves(step, dead, m, n) && k <= n
    ensures ProgramBehaves(step, dead, m, k) && RoomBelow(dead, Plain(step, m, k))
    ensures k < n ==> ObliviousAt(step, dead, Plain(step, m, k))
  {
    hide RoomBelow, ObliviousAt;
  }

  /** Any number of interrupts, anywhere in a run, leave the program's trace of registers and program
      counters as it is without them, and the live memory too. What is asked of the program is asked
      of its uninterrupted run, and what is asked of a routine of the calls that happen. */
  lemma {:induction false} InterruptsInvisible(
    h: Handlers, step: Step, dead: Dead, m: Machine, events: seq<Event>)
    requires ProgramBehaves(step, dead, m, Retired(events))
    requires HandlersBehave(h, step, dead, m, events)
    ensures Trace(h, step, m, events) == PlainTrace(step, m, Retired(events))
    ensures Agree(dead, RunWith(h, step, m, events), Plain(step, m, Retired(events)))
  {
    if events == [] {
      assert Retired(events) == 0;
    } else {
      hide ProgramBehaves, HandlersBehave, Behaves, RoomBelow, ObliviousAt, After;
      var n := |events| - 1;
      var r := Retired(events[..n]);
      ProgramBehavesFront(step, dead, m, Retired(events), r);
      HandlersBehaveFront(h, step, dead, m, events);
      InterruptsInvisible(h, step, dead, m, events[..n]);
      EventAgrees(h, step, dead, RunWith(h, step, m, events[..n]), events[n], Plain(step, m, r));
    }
  }

  // --- the hypotheses, instantiated -------------------------------------------------------

  /** lw t0, 0(a0). */
  function LoadThroughPointer(m: Machine): Machine {
    m.(x := m.x[T0 := m.mem(m.x[A0])], pc := Address(m.pc, 4))
  }

  /** A load is unaffected as long as the word it reads is live. */
  lemma {:induction false} LoadOblivious(dead: Dead, p: Machine)
    requires !dead(p.x, p.pc, p.x[A0])
    requires var q := LoadThroughPointer(p);
      forall w: Word :: dead(p.x, p.pc, w) ==> dead(q.x, q.pc, w)
    ensures ObliviousAt(LoadThroughPointer, dead, p)
  {
    forall a | Agree(dead, a, p)
      ensures Agree(dead, LoadThroughPointer(a), LoadThroughPointer(p))
    {
      assert a.mem(a.x[A0]) == p.mem(p.x[A0]);
    }
  }

  /** A routine that counts at a fixed address. */
  function Count(at: Word): Routine {
    (m: Machine) => m.(mem := Store(m.mem, at, Address(m.mem(at), 1)))
  }

  /** It may be called wherever its word is dead and outside the frame. */
  lemma {:induction false} CountBehaves(
    h: Handlers, dead: Dead, m: Machine, cause: Word, link: Word, at: Word)
    requires Choose(h, cause) == Call(Count(at))
    requires dead(m.x, m.pc, at) && !InFrame(Address(m.x[SP], -64), at)
    ensures Behaves(h, dead, m, cause, link)
  {
    hide InFrame, Slot, Choose;
    CalledMachine(h, link, Enter(m, cause));
    forall k: nat | k < 16
      ensures Slot(Address(m.x[SP], -64), k) != at
    {
      SlotInFrame(Address(m.x[SP], -64), k);
    }
  }
}
