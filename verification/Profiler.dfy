/** The EML expression profiler: a 256-slot table searched linearly by an 8-bit folded hash, an
    occupancy bit vector and an eviction routine. */
module Profiler {
  import opened Prelude
  import opened Djb2
  import opened ByteBits

  const SIZE: nat := 256
  const HOT_THRESHOLD: nat := 100

  datatype Entry = Entry(hash: nat, executions: nat, cycles: nat, hitRate: nat, hot: bool)

  const BLANK := Entry(0, 0, 0, 0, false)

  // ---------------------------------------------------------------------------------------
  // The expression hash
  // ---------------------------------------------------------------------------------------

  /** The words hashed: up to the depth or the first zero word. */
  function Effective(tree: seq<nat>, depth: nat): seq<nat> {
    if depth == 0 || tree == [] || tree[0] == 0 then [] else [tree[0]] + Effective(tree[1..], depth - 1)
  }

  /** XOR of the four bytes. */
  function Fold(hash: nat): (tag: nat)
    ensures tag < 256
  {
    XorAllBounded(BytesOf(hash));
    XorAll(BytesOf(hash))
  }

  function HashExpr(tree: Option<seq<nat>>, depth: nat): (tag: nat)
    ensures tag < 256
  {
    if tree.None? || depth == 0 then 0 else Fold(Roll(SEED, Effective(tree.value, depth)))
  }

  /** Bit `k` of the tag is the parity of bit `k` of the four bytes; a change of one byte shows. */
  lemma {:induction false} FoldIsParity(b: seq<nat>, k: nat)
    requires |b| == 4 && Bytes(b)
    ensures Bit(Fold(NumberOf(b)), k) <==> SetBits(b, k) % 2 == 1
    ensures forall c, j :: |c| == 4 && Bytes(c) && DifferAt(b, c, j) ==> Fold(NumberOf(c)) != Fold(NumberOf(b))
  {
    hide Bit, SetBits, BytesOf, XorAll, DifferAt, Bytes, NumberOf;
    NumberFits(b);
    BytesOfIff(NumberOf(b), b);
    XorAllBit(b, k);
    forall c: seq<nat>, j | |c| == 4 && Bytes(c) && DifferAt(b, c, j)
      ensures Fold(NumberOf(c)) != Fold(NumberOf(b))
    {
      NumberFits(c);
      BytesOfIff(NumberOf(c), c);
      OneByteSeparates(b, c, j);
    }
  }

  lemma {:induction false} NumberFits(b: seq<nat>)
    requires |b| == 4 && Bytes(b)
    ensures NumberOf(b) < U32
  {
  }

  /** The tag of an expression: the polynomial in its words, up to the depth or the first zero, modulo
      2^32, folded; 0 without words to look at. */
  lemma {:induction false} TagOfWords(tree: seq<nat>, depth: nat, n: nat)
    requires n <= |tree| && n <= depth && forall i :: 0 <= i < n ==> tree[i] != 0
    requires n == depth || n == |tree| || tree[n] == 0
    ensures HashExpr(Some(tree), depth) ==
      if depth == 0 then 0 else Fold((5381 * Pow33(n) + Weighted(tree[..n])) % U32)
    ensures HashExpr(None, depth) == 0
  {
    hide Fold, Roll, Weighted, Pow33, Effective;
    EffectiveIs(tree, depth, n);
    RollIsPolynomial(SEED, tree[..n]);
  }

  lemma {:induction false} EffectiveIs(tree: seq<nat>, depth: nat, n: nat)
    requires n <= |tree| && n <= depth && forall i :: 0 <= i < n ==> tree[i] != 0
    requires n == depth || n == |tree| || tree[n] == 0
    ensures Effective(tree, depth) == tree[..n]
  {
    if n > 0 {
      assert forall i :: 0 <= i < n - 1 ==> tree[1..][i] == tree[i + 1];
      EffectiveIs(tree[1..], depth - 1, n - 1);
      assert tree[..n] == [tree[0]] + tree[1..][..n - 1];
    }
  }

  /** The loop may read `depth` words or up to a zero word. */
  predicate Readable(tree: seq<nat>, depth: nat) {
    depth <= |tree| || 0 in tree
  }

  /** eml_hash_expr. */
  method ComputeHash(tree: Option<seq<nat>>, depth: nat) returns (tag: nat)
    requires tree.Some? ==> Readable(tree.value, depth)
    ensures tag == HashExpr(tree, depth)
  {
    if tree.None? || depth == 0 {
      return 0;
    }
    hide Mix, Roll, Effective, Readable, Fold;
    var words := tree.value;
    ReadableBound(words, 0, depth);
    var hash := SEED;
    var i := 0;
    while i < depth && words[i] != 0
      invariant i <= depth && i <= |words| && (i < depth ==> i < |words|)
      invariant ReadableFrom(words, i, depth)
      invariant Remaining(words, i, depth, hash) == Remaining(words, 0, depth, SEED)
    {
      HashStep(words, i, depth, hash);
      hash := Mix(hash, words[i]);
      i := i + 1;
      ReadableBound(words, i, depth);
    }
    HashDone(words, i, depth, hash);
    tag := Fold(hash);
  }

  /** The final hash when `hash` has been reached at word `i`. */
  ghost function Remaining(words: seq<nat>, i: nat, depth: nat, hash: nat): nat
    requires i <= depth && i <= |words|
  {
    Roll(hash, Effective(words[i..], depth - i))
  }

  ghost predicate ReadableFrom(words: seq<nat>, i: nat, depth: nat)
    requires i <= depth && i <= |words|
  {
    Readable(words[i..], depth - i)
  }

  lemma {:induction false} ReadableBound(words: seq<nat>, i: nat, depth: nat)
    requires i <= depth && i <= |words|
    ensures ReadableFrom(words, i, depth) && i < depth ==> i < |words|
    ensures i == 0 ==> ReadableFrom(words, i, depth) == Readable(words, depth)
  {
  }

  lemma {:induction false} HashStep(words: seq<nat>, i: nat, depth: nat, hash: nat)
    requires i < depth && i < |words| && words[i] != 0
    ensures ReadableFrom(words, i, depth) ==> ReadableFrom(words, i + 1, depth)
    ensures Remaining(words, i, depth, hash) == Remaining(words, i + 1, depth, Mix(hash, words[i]))
  {
    hide Mix;
    var rest := words[i..];
    assert rest[1..] == words[i + 1..] && rest == [words[i]] + words[i + 1..];
    assert Effective(rest, depth - i)[1..] == Effective(rest[1..], depth - i - 1);
  }

  lemma {:induction false} HashDone(words: seq<nat>, i: nat, depth: nat, hash: nat)
    requires i <= depth && i <= |words| && (i < depth ==> i < |words| && words[i] == 0)
    ensures Remaining(words, i, depth, hash) == hash
    ensures Remaining(words, 0, depth, SEED) == Roll(SEED, Effective(words, depth))
  {
    assert words[0..] == words;
  }

  // ---------------------------------------------------------------------------------------
  // Table states
  // ---------------------------------------------------------------------------------------

  datatype Table = Table(entries: seq<Entry>, used: seq<bool>) {
    predicate WellFormed() {
      |entries| == |used| == SIZE
    }
  }

  /** Statically allocated: all zero. */
  function Empty(): (t: Table)
    ensures t.WellFormed() && forall k :: 0 <= k < SIZE ==> t.entries[k] == BLANK && !t.used[k]
  {
    Table(seq(SIZE, _ => BLANK), seq(SIZE, _ => false))
  }

  /** The first slot holding `hash`, occupied or not, or -1. */
  function Find(entries: seq<Entry>, hash: nat): (i: int)
    ensures -1 <= i < |entries|
    ensures i >= 0 ==> entries[i].hash == hash
    ensures forall k :: 0 <= k < (if i < 0 then |entries| else i) ==> entries[k].hash != hash
  {
    if entries == [] then -1
    else if entries[0].hash == hash then 0
    else
      var i := Find(entries[1..], hash);
      assert forall k :: 0 < k < |entries| ==> entries[k] == entries[1..][k - 1];
      if i < 0 then -1 else i + 1
  }

  /** The first free slot, or -1. */
  function FirstFree(used: seq<bool>): (i: int)
    ensures -1 <= i < |used|
    ensures i >= 0 ==> !used[i]
    ensures forall k :: 0 <= k < (if i < 0 then |used| else i) ==> used[k]
  {
    if used == [] then -1
    else if !used[0] then 0
    else
      var i := FirstFree(used[1..]);
      assert forall k :: 0 < k < |used| ==> used[k] == used[1..][k - 1];
      if i < 0 then -1 else i + 1
  }

  /** A slot eviction may take: used, not hot, and not saturated. */
  predicate Eligible(t: Table, k: nat)
    requires t.WellFormed() && k < SIZE
  {
    t.used[k] && !t.entries[k].hot && t.entries[k].executions < U32 - 1
  }

  /** Among the first `n` slots, `slot` is the first of the least executed eligible ones; -1 if
      there is none. */
  predicate Coldest(t: Table, n: nat, slot: int)
    requires t.WellFormed() && n <= SIZE
  {
    if slot == -1 then forall k :: 0 <= k < n ==> !Eligible(t, k)
    else
      0 <= slot < n && Eligible(t, slot) &&
      forall k :: 0 <= k < n && Eligible(t, k) ==>
        t.entries[slot].executions <= t.entries[k].executions &&
        (k < slot ==> t.entries[slot].executions < t.entries[k].executions)
  }

  /** Scanning from slot `n` with the coldest of the slots before it. */
  function ColdScan(t: Table, n: nat, slot: int): (s: int)
    requires t.WellFormed() && n <= SIZE && Coldest(t, n, slot)
    ensures Coldest(t, SIZE, s)
    decreases SIZE - n
  {
    if n == SIZE then slot
    else if Eligible(t, n) && (slot == -1 || t.entries[n].executions < t.entries[slot].executions)
    then ColdScan(t, n + 1, n)
    else ColdScan(t, n + 1, slot)
  }

  function ColdSlot(t: Table): (s: int)
    requires t.WellFormed()
    ensures Coldest(t, SIZE, s)
  {
    ColdScan(t, 0, -1)
  }

  /** The victim, exactly: used, not hot, executed fewer than 2^32 - 1 times, least of those and the first
      of the least; none only if there is no such slot. */
  lemma {:induction false} ColdSlotIff(t: Table, slot: int)
    requires t.WellFormed()
    ensures slot == ColdSlot(t) <==>
      if slot == -1 then
        forall k :: 0 <= k < SIZE ==>
          !(t.used[k] && !t.entries[k].hot && t.entries[k].executions < 0xFFFF_FFFF)
      else
        0 <= slot < SIZE &&
        t.used[slot] && !t.entries[slot].hot && t.entries[slot].executions < 0xFFFF_FFFF &&
        forall k :: 0 <= k < SIZE && k != slot && t.used[k] && !t.entries[k].hot ==>
          t.entries[k].executions > t.entries[slot].executions ||
          (k > slot && t.entries[k].executions == t.entries[slot].executions)
  {
    hide ColdSlot;
    var s := ColdSlot(t);
    assert Coldest(t, SIZE, s);
    if s != -1 {
      assert Eligible(t, s) && t.used[s];
    }
    if 0 <= slot < SIZE && t.used[slot] && !t.entries[slot].hot && t.entries[slot].executions < 0xFFFF_FFFF {
      assert Eligible(t, slot);
    }
    forall k | 0 <= k < SIZE && t.used[k] && !t.entries[k].hot && t.entries[k].executions < 0xFFFF_FFFF
      ensures Eligible(t, k)
    {
    }
  }

  // ---------------------------------------------------------------------------------------
  // Operations on table states
  // ---------------------------------------------------------------------------------------

  function Increment(e: Entry): Entry {
    e.(executions := (e.executions + 1) % U32)
  }

  /** Fill a slot. */
  function Place(t: Table, slot: nat, hash: nat): (t': Table)
    requires t.WellFormed() && slot < SIZE
    ensures t'.WellFormed()
  {
    Table(t.entries[slot := Entry(hash, 1, 0, 0, false)], t.used[slot := true])
  }

  /** The slot a new hash goes to; eviction only when every slot is used. */
  function SlotForNew(t: Table): (slot: int)
    requires t.WellFormed()
    ensures -1 <= slot < SIZE
  {
    var free := FirstFree(t.used);
    if free >= 0 then free else ColdSlot(t)
  }

  /** eml_precompile on a hash: the table afterwards. */
  function Precompile(t: Table, hash: nat): (t': Table)
    requires t.WellFormed()
    ensures t'.WellFormed()
  {
    var i := Find(t.entries, hash);
    if i >= 0 then t.(entries := t.entries[i := Increment(t.entries[i])])
    else
      var slot := SlotForNew(t);
      if slot >= 0 then Place(t, slot, hash) else t
  }

  /** The identifier eml_precompile returns; 0 stands for failure. */
  function PrecompileId(t: Table, hash: nat): nat
    requires t.WellFormed()
  {
    if Find(t.entries, hash) >= 0 || SlotForNew(t) >= 0 then hash else 0
  }

  function UpdateEntry(e: Entry, cycles: nat, hit: bool): Entry {
    var rate := if hit then (if e.hitRate + 5 > 100 then 100 else e.hitRate + 5)
                else if e.hitRate > 5 then e.hitRate - 5 else e.hitRate;
    e.(cycles := (e.cycles + cycles) % U32 / 2, hitRate := rate,
       hot := e.hot || (e.executions > HOT_THRESHOLD && rate > 80))
  }

  /** eml_profile_record while profiling is enabled. */
  function Record(t: Table, hash: nat, cycles: nat, hit: bool): (t': Table)
    requires t.WellFormed()
    ensures t'.WellFormed()
  {
    var i := Find(t.entries, hash);
    if i < 0 then t else t.(entries := t.entries[i := UpdateEntry(t.entries[i], cycles, hit)])
  }

  function IsHot(t: Table, hash: nat): bool
    requires t.WellFormed()
  {
    var i := Find(t.entries, hash);
    i >= 0 && t.entries[i].hot
  }

  // ---------------------------------------------------------------------------------------
  // Reachable tables
  // ---------------------------------------------------------------------------------------

  /** The used slots are the first `n`; they hold distinct non-zero hashes and the rest hold 0. */
  predicate Prefix(t: Table, n: nat) {
    t.WellFormed() && n <= SIZE &&
    (forall k :: 0 <= k < SIZE ==> t.used[k] == (k < n)) &&
    (forall k :: 0 <= k < n ==> 0 < t.entries[k].hash < 256) &&
    (forall j, k :: 0 <= j < k < n ==> t.entries[j].hash != t.entries[k].hash) &&
    (forall k :: n <= k < SIZE ==> t.entries[k].hash == 0)
  }

  /** The hashes of the first `n` slots. */
  function Hashes(entries: seq<Entry>, n: nat): (hs: set<nat>)
    requires n <= |entries|
  {
    set k | 0 <= k < n :: entries[k].hash
  }

  lemma {:induction false} DistinctCount(entries: seq<Entry>, n: nat)
    requires n <= |entries|
    requires forall j, k :: 0 <= j < k < n ==> entries[j].hash != entries[k].hash
    ensures |Hashes(entries, n)| == n
  {
    if n > 0 {
      DistinctCount(entries, n - 1);
      var h := entries[n - 1].hash;
      assert Hashes(entries, n) == Hashes(entries, n - 1) + {h};
      assert h !in Hashes(entries, n - 1);
    }
  }

  lemma {:induction false} SubsetCount(a: set<nat>, m: nat)
    requires forall x :: x in a ==> 0 < x <= m
    ensures |a| <= m
  {
    if m > 0 {
      var b := a - {m};
      SubsetCount(b, m - 1);
      assert a <= b + {m};
      assert |b + {m}| == |b| + 1;
      SubsetLeq(a, b + {m});
    } else {
      assert a == {};
    }
  }

  lemma {:induction false} SubsetLeq(a: set<nat>, b: set<nat>)
    requires a <= b
    ensures |a| <= |b|
  {
    assert b == a + (b - a);
  }

  /** Pigeonhole: distinct hashes from 1 to 255 leave at least one slot free. */
  lemma {:induction false} SlotAlwaysFree(t: Table, n: nat)
    requires Prefix(t, n)
    ensures n <= 255 && FirstFree(t.used) == n
  {
    DistinctCount(t.entries, n);
    SubsetCount(Hashes(t.entries, n), 255);
    assert !t.used[n];
  }

  /** A missing hash is stored in the first free slot, never by eviction. */
  lemma {:induction false} PrecompileKeepsPrefix(t: Table, n: nat, hash: nat)
    requires Prefix(t, n) && hash < 256
    ensures var i := Find(t.entries, hash);
      if i >= 0 then Prefix(Precompile(t, hash), n)
      else hash != 0 && SlotForNew(t) == n && Prefix(Precompile(t, hash), n + 1)
  {
    SlotAlwaysFree(t, n);
    var i := Find(t.entries, hash);
    if i < 0 {
      assert t.entries[n].hash != hash;
    }
  }

  lemma {:induction false} RecordKeepsPrefix(t: Table, n: nat, hash: nat, cycles: nat, hit: bool)
    requires Prefix(t, n)
    ensures Prefix(Record(t, hash, cycles, hit), n)
  {
  }

  // ---------------------------------------------------------------------------------------
  // The table is a map on non-zero hashes
  // ---------------------------------------------------------------------------------------

  type View = map<nat, Entry>

  function ViewOf(t: Table): View
    requires t.WellFormed()
  {
    map h | 0 < h < 256 && Find(t.entries, h) >= 0 :: t.entries[Find(t.entries, h)]
  }

  function MapPrecompile(m: View, hash: nat): View {
    if hash == 0 then m
    else if hash in m then m[hash := Increment(m[hash])]
    else m[hash := Entry(hash, 1, 0, 0, false)]
  }

  function MapRecord(m: View, hash: nat, cycles: nat, hit: bool): View {
    if hash in m then m[hash := UpdateEntry(m[hash], cycles, hit)] else m
  }

  lemma {:induction false} FindIs(entries: seq<Entry>, i: nat, hash: nat)
    requires i < |entries| && entries[i].hash == hash
    requires forall k :: 0 <= k < i ==> entries[k].hash != hash
    ensures Find(entries, hash) == i
  {
  }

  /** Overwriting a slot with an entry of the same hash moves no search. */
  lemma {:induction false} FindSameHash(entries: seq<Entry>, i: nat, e: Entry, hash: nat)
    requires i < |entries| && entries[i].hash == e.hash
    ensures Find(entries[i := e], hash) == Find(entries, hash)
  {
    var es := entries[i := e];
    var j := Find(entries, hash);
    if j >= 0 {
      FindIs(es, j, hash);
    }
  }

  /** Overwriting the slot a search finds, hash kept, is a map update; on hash 0 it is invisible. */
  lemma {:induction false} OverwriteRefines(t: Table, hash: nat, e: Entry)
    requires t.WellFormed() && Find(t.entries, hash) >= 0 && e.hash == hash < 256
    ensures var t' := t.(entries := t.entries[Find(t.entries, hash) := e]);
      ViewOf(t') == (if hash == 0 then ViewOf(t) else ViewOf(t)[hash := e])
  {
    hide Find;
    var i := Find(t.entries, hash);
    forall h | 0 < h < 256
      ensures Find(t.entries[i := e], h) == Find(t.entries, h)
    {
      FindSameHash(t.entries, i, e, h);
    }
  }

  lemma {:induction false} PlaceRefines(t: Table, n: nat, hash: nat)
    requires Prefix(t, n) && n < SIZE && 0 < hash < 256 && Find(t.entries, hash) < 0
    ensures ViewOf(Place(t, n, hash)) == ViewOf(t)[hash := Entry(hash, 1, 0, 0, false)]
  {
    hide Find;
    var es := Place(t, n, hash).entries;
    forall h | 0 < h < 256
      ensures Find(es, h) == if h == hash then n else Find(t.entries, h)
    {
      PlaceMovesNoSearch(t, n, hash, h);
    }
    forall h | 0 < h < 256 && Find(t.entries, h) >= 0
      ensures Find(t.entries, h) < n
    {
    }
  }

  lemma {:induction false} PrecompileRefines(t: Table, n: nat, hash: nat)
    requires Prefix(t, n) && hash < 256
    ensures ViewOf(Precompile(t, hash)) == MapPrecompile(ViewOf(t), hash)
    ensures PrecompileId(t, hash) == hash
  {
    hide Find, ViewOf;
    PrecompileKeepsPrefix(t, n, hash);
    InView(t, hash);
    var i := Find(t.entries, hash);
    if i >= 0 {
      OverwriteRefines(t, hash, Increment(t.entries[i]));
    } else {
      SlotAlwaysFree(t, n);
      PlaceRefines(t, n, hash);
    }
  }

  lemma {:induction false} InView(t: Table, h: nat)
    requires t.WellFormed()
    ensures h in ViewOf(t) <==> 0 < h < 256 && Find(t.entries, h) >= 0
    ensures h in ViewOf(t) ==> ViewOf(t)[h] == t.entries[Find(t.entries, h)]
  {
  }

  lemma {:induction false} PlaceMovesNoSearch(t: Table, n: nat, hash: nat, h: nat)
    requires Prefix(t, n) && n < SIZE && Find(t.entries, hash) < 0 && h != 0
    ensures Find(Place(t, n, hash).entries, h) == if h == hash then n else Find(t.entries, h)
  {
    var es := Place(t, n, hash).entries;
    if h == hash {
      FindIs(es, n, h);
    } else {
      var j := Find(t.entries, h);
      if j >= 0 {
        FindIs(es, j, h);
      }
    }
  }

  lemma {:induction false} RecordRefines(t: Table, hash: nat, cycles: nat, hit: bool)
    requires t.WellFormed() && forall k :: 0 <= k < SIZE ==> t.entries[k].hash < 256
    ensures ViewOf(Record(t, hash, cycles, hit)) == MapRecord(ViewOf(t), hash, cycles, hit)
  {
    hide Find, ViewOf;
    InView(t, hash);
    var i := Find(t.entries, hash);
    if i >= 0 {
      OverwriteRefines(t, hash, UpdateEntry(t.entries[i], cycles, hit));
    }
  }

  // ---------------------------------------------------------------------------------------
  // Runs
  // ---------------------------------------------------------------------------------------

  datatype Op =
    | PrecompileOp(tree: Option<seq<nat>>, depth: nat)
    | RecordOp(hash: nat, cycles: nat, hit: bool)
    | EnableOp(on: bool)

  datatype Profile = Profile(table: Table, enabled: bool)

  function Apply(s: Profile, op: Op): (s': Profile)
    requires s.table.WellFormed()
    ensures s'.table.WellFormed()
  {
    match op
    case PrecompileOp(tree, depth) =>
      if tree.None? then s else s.(table := Precompile(s.table, HashExpr(tree, depth)))
    case RecordOp(hash, cycles, hit) =>
      if s.enabled then s.(table := Record(s.table, hash, cycles, hit)) else s
    case EnableOp(on) => s.(enabled := on)
  }

  function RunOps(ops: seq<Op>): (s: Profile)
    ensures s.table.WellFormed()
  {
    if ops == [] then Profile(Empty(), true) else Apply(RunOps(ops[..|ops| - 1]), ops[|ops| - 1])
  }

  function Occupied(t: Table): (n: nat)
    requires t.WellFormed()
  {
    if FirstFree(t.used) < 0 then SIZE else FirstFree(t.used)
  }

  /** In every run the used slots form a prefix of at most 255 with distinct non-zero hashes, and
      every other slot keeps hash 0. */
  lemma {:induction false} RunKeepsPrefix(ops: seq<Op>)
    ensures var t := RunOps(ops).table; Prefix(t, Occupied(t)) && Occupied(t) <= 255
  {
    if ops == [] {
      SlotAlwaysFree(Empty(), 0);
    } else {
      var s, op := RunOps(ops[..|ops| - 1]), ops[|ops| - 1];
      RunKeepsPrefix(ops[..|ops| - 1]);
      var n := Occupied(s.table);
      match op {
        case PrecompileOp(tree, depth) =>
          if tree.Some? {
            var hash := HashExpr(tree, depth);
            PrecompileKeepsPrefix(s.table, n, hash);
            SlotAlwaysFree(Precompile(s.table, hash), if Find(s.table.entries, hash) >= 0 then n else n + 1);
          }
        case RecordOp(hash, cycles, hit) =>
          RecordKeepsPrefix(s.table, n, hash, cycles, hit);
          SlotAlwaysFree(Record(s.table, hash, cycles, hit), n);
        case EnableOp(on) =>
      }
    }
  }

  /** The eviction branch is dead: whenever a hash is missing a free slot exists, so the call
      succeeds unless the tree is null; the identifier returned is the hash, which for a tree
      hashing to 0 reads as failure. */
  lemma {:induction false} EvictionNeverRuns(ops: seq<Op>, tree: Option<seq<nat>>, depth: nat)
    ensures var t, h := RunOps(ops).table, HashExpr(tree, depth);
      (Find(t.entries, h) < 0 ==> FirstFree(t.used) >= 0) && PrecompileId(t, h) == h
  {
    RunKeepsPrefix(ops);
  }

  /** The plain map a run maintains on non-zero hashes. */
  function RunMap(ops: seq<Op>): View {
    if ops == [] then map[]
    else
      var front, op := ops[..|ops| - 1], ops[|ops| - 1];
      match op
      case PrecompileOp(tree, depth) =>
        if tree.None? then RunMap(front) else MapPrecompile(RunMap(front), HashExpr(tree, depth))
      case RecordOp(hash, cycles, hit) =>
        if RunOps(front).enabled then MapRecord(RunMap(front), hash, cycles, hit) else RunMap(front)
      case EnableOp(on) => RunMap(front)
  }

  /** Slots, occupancy bits and linear search implement the plain map in every run. */
  lemma {:induction false} RunRefinesMap(ops: seq<Op>)
    ensures ViewOf(RunOps(ops).table) == RunMap(ops)
  {
    if ops != [] {
      var front, op := ops[..|ops| - 1], ops[|ops| - 1];
      RunRefinesMap(front);
      RunKeepsPrefix(front);
      var t := RunOps(front).table;
      match op {
        case PrecompileOp(tree, depth) =>
          PrecompileRefines(t, Occupied(t), HashExpr(tree, depth));
        case RecordOp(hash, cycles, hit) =>
          RecordRefines(t, hash, cycles, hit);
        case EnableOp(on) =>
      }
    } else {
      assert forall h :: 0 < h < 256 ==> Find(Empty().entries, h) < 0;
    }
  }

  // ---------------------------------------------------------------------------------------
  // Hot paths over whole runs
  // ---------------------------------------------------------------------------------------

  /** Precompile calls for a hash. */
  function Calls(ops: seq<Op>, hash: nat): nat {
    if ops == [] then 0
    else
      var op := ops[|ops| - 1];
      Calls(ops[..|ops| - 1], hash) +
        if op.PrecompileOp? && op.tree.Some? && HashExpr(op.tree, op.depth) == hash then 1 else 0
  }

  /** Cache hits recorded for a hash once it is known. */
  function Hits(ops: seq<Op>, hash: nat): nat {
    if ops == [] then 0
    else
      var front, op := ops[..|ops| - 1], ops[|ops| - 1];
      Hits(front, hash) +
        if op.RecordOp? && op.hash == hash && op.hit && RunOps(front).enabled && Calls(front, hash) > 0
        then 1 else 0
  }

  /** What an entry says about the run that made it. */
  predicate Faithful(e: Entry, hash: nat, calls: nat, hits: nat) {
    e.hash == hash && e.executions == calls % U32 &&
    e.hitRate <= 100 && e.hitRate % 5 == 0 && e.hitRate <= 5 * hits && (e.hitRate == 0 <==> hits == 0) &&
    (e.hot ==> calls > HOT_THRESHOLD && hits >= 17)
  }

  lemma {:induction false} FirstFaithful(hash: nat)
    ensures Faithful(Entry(hash, 1, 0, 0, false), hash, 1, 0)
  {
  }

  lemma {:induction false} IncrementFaithful(e: Entry, hash: nat, calls: nat, hits: nat)
    requires Faithful(e, hash, calls, hits)
    ensures Faithful(Increment(e), hash, calls + 1, hits)
  {
  }

  lemma {:induction false} UpdateFaithful(e: Entry, hash: nat, calls: nat, hits: nat, cycles: nat, hit: bool)
    requires Faithful(e, hash, calls, hits)
    ensures Faithful(UpdateEntry(e, cycles, hit), hash, calls, hits + if hit then 1 else 0)
  {
    assert calls % U32 <= calls;
  }

  /** What the map, the calls and the hits of a run say about one hash. */
  predicate Tracked(m: View, hash: nat, calls: nat, hits: nat) {
    (hash in m <==> calls > 0) && (hash in m ==> Faithful(m[hash], hash, calls, hits)) &&
    (hash !in m ==> hits == 0)
  }

  lemma {:induction false} PrecompileTracked(m: View, hash: nat, calls: nat, hits: nat, h: nat)
    requires 0 < hash && Tracked(m, hash, calls, hits)
    ensures Tracked(MapPrecompile(m, h), hash, calls + if h == hash then 1 else 0, hits)
  {
    if hash in m {
      IncrementFaithful(m[hash], hash, calls, hits);
    } else {
      FirstFaithful(hash);
    }
  }

  lemma {:induction false} RecordTracked(
    m: View, hash: nat, calls: nat, hits: nat, h: nat, cycles: nat, hit: bool)
    requires 0 < hash && Tracked(m, hash, calls, hits)
    ensures Tracked(MapRecord(m, h, cycles, hit), hash, calls,
                    hits + if h == hash && hit && calls > 0 then 1 else 0)
  {
    if hash in m {
      UpdateFaithful(m[hash], hash, calls, hits, cycles, hit);
    }
  }

  /** An entry exists exactly for the hashes that were precompiled, and counts the calls modulo
      2^32; its rate is a multiple of 5 up to 100 that never returns to 0 after a hit; it is hot
      only after more than 100 calls and at least 17 recorded hits. */
  lemma {:induction false} EntriesFaithful(ops: seq<Op>, hash: nat)
    requires 0 < hash
    ensures Tracked(RunMap(ops), hash, Calls(ops, hash), Hits(ops, hash))
  {
    if ops == [] {
    } else {
      EntriesFaithful(ops[..|ops| - 1], hash);
      LastOpTracked(ops, hash);
    }
  }

  lemma {:induction false} LastOpTracked(ops: seq<Op>, hash: nat)
    requires 0 < hash && ops != []
    requires var front := ops[..|ops| - 1]; Tracked(RunMap(front), hash, Calls(front, hash), Hits(front, hash))
    ensures Tracked(RunMap(ops), hash, Calls(ops, hash), Hits(ops, hash))
  {
    hide MapPrecompile, MapRecord, Tracked, HashExpr, RunOps;
    var front, op := ops[..|ops| - 1], ops[|ops| - 1];
    var m, calls, hits := RunMap(front), Calls(front, hash), Hits(front, hash);
    match op {
      case PrecompileOp(tree, depth) =>
        PrecompileTracked(m, hash, calls, hits, HashExpr(tree, depth));
      case RecordOp(h, cycles, hit) =>
        RecordTracked(m, hash, calls, hits, h, cycles, hit);
      case EnableOp(on) =>
    }
  }

  lemma {:induction false} LookupIsMap(ops: seq<Op>, hash: nat)
    requires 0 < hash
    ensures var t, m := RunOps(ops).table, RunMap(ops);
      IsHot(t, hash) == (hash in m && m[hash].hot)
  {
    RunRefinesMap(ops);
    RunKeepsPrefix(ops);
  }

  /** Hot-path safety over whole runs. */
  lemma {:induction false} HotOnlyAfterUse(ops: seq<Op>, hash: nat)
    requires 0 < hash && IsHot(RunOps(ops).table, hash)
    ensures Calls(ops, hash) > HOT_THRESHOLD && Hits(ops, hash) >= 17
  {
    LookupIsMap(ops, hash);
    EntriesFaithful(ops, hash);
  }

  /** The mark is never lost. */
  lemma {:induction false} HotStays(ops: seq<Op>, more: seq<Op>, hash: nat)
    requires 0 < hash && IsHot(RunOps(ops).table, hash)
    ensures IsHot(RunOps(ops + more).table, hash)
    decreases |more|
  {
    if more == [] {
      assert ops + more == ops;
    } else {
      var front := more[..|more| - 1];
      HotStays(ops, front, hash);
      assert (ops + more)[..|ops + more| - 1] == ops + front;
      LookupIsMap(ops + front, hash);
      LookupIsMap(ops + more, hash);
    }
  }

  // --- every entry replayed -----------------------------------------------------------------

  /** Whether profiling is on: the last switch decides, and it starts switched on. */
  function Recording(ops: seq<Op>): bool {
    if ops == [] then true
    else
      var op := ops[|ops| - 1];
      if op.EnableOp? then op.on else Recording(ops[..|ops| - 1])
  }

  datatype Sample = Sample(cycles: nat, hit: bool)

  /** The last operation records something for `hash`, which has been precompiled before. */
  predicate Records(ops: seq<Op>, hash: nat) {
    ops != [] &&
    var front, op := ops[..|ops| - 1], ops[|ops| - 1];
    op.RecordOp? && op.hash == hash && Recording(front) && Calls(front, hash) > 0
  }

  /** What has been recorded for `hash`. */
  function Samples(ops: seq<Op>, hash: nat): seq<Sample> {
    if ops == [] then []
    else
      var op := ops[|ops| - 1];
      Samples(ops[..|ops| - 1], hash) + if Records(ops, hash) then [Sample(op.cycles, op.hit)] else []
  }

  /** Five up for a hit, to at most 100; five down for a miss, from above 5. */
  function RateOf(xs: seq<Sample>): nat {
    if xs == [] then 0
    else
      var r := RateOf(xs[..|xs| - 1]);
      if !xs[|xs| - 1].hit then (if r > 5 then r - 5 else r) else if r >= 95 then 100 else r + 5
  }

  /** The moving average, rounded down each time. */
  function AverageOf(xs: seq<Sample>): nat {
    if xs == [] then 0 else (AverageOf(xs[..|xs| - 1]) + xs[|xs| - 1].cycles) % U32 / 2
  }

  /** The last operation is a record that makes `hash` hot: its calls modulo 2^32 exceed 100, and its
      rate exceeds 80. */
  predicate Marks(ops: seq<Op>, hash: nat) {
    Records(ops, hash) && Calls(ops, hash) % U32 > 100 && RateOf(Samples(ops, hash)) > 80
  }

  predicate EverMarked(ops: seq<Op>, hash: nat) {
    ops != [] && (EverMarked(ops[..|ops| - 1], hash) || Marks(ops, hash))
  }

  /** The entry of `hash` after `ops`. */
  function EntryOf(ops: seq<Op>, hash: nat): Entry {
    var xs := Samples(ops, hash);
    Entry(hash, Calls(ops, hash) % U32, AverageOf(xs), RateOf(xs), EverMarked(ops, hash))
  }

  predicate Replayed(m: View, ops: seq<Op>, hash: nat) {
    if Calls(ops, hash) == 0 then hash !in m && Samples(ops, hash) == [] && !EverMarked(ops, hash)
    else hash in m && m[hash] == EntryOf(ops, hash)
  }

  lemma {:induction false} RecordingIs(ops: seq<Op>)
    ensures RunOps(ops).enabled == Recording(ops)
  {
    if ops != [] {
      RecordingIs(ops[..|ops| - 1]);
    }
  }

  lemma {:induction false} CallReplayed(ops: seq<Op>, hash: nat)
    requires 0 < hash && ops != [] && ops[|ops| - 1].PrecompileOp?
    requires Replayed(RunMap(ops[..|ops| - 1]), ops[..|ops| - 1], hash)
    ensures Replayed(RunMap(ops), ops, hash)
  {
    hide HashExpr, RunOps;
    var front := ops[..|ops| - 1];
    assert Samples(ops, hash) == Samples(front, hash) + [] == Samples(front, hash);
    assert EverMarked(ops, hash) == EverMarked(front, hash);
    SamplesOfNothing();
  }

  lemma {:induction false} SamplesOfNothing()
    ensures RateOf([]) == 0 && AverageOf([]) == 0
  {
  }

  lemma {:induction false} SampleAppended(xs: seq<Sample>, x: Sample)
    ensures AverageOf(xs + [x]) == (AverageOf(xs) + x.cycles) % U32 / 2
    ensures var r := RateOf(xs);
      RateOf(xs + [x]) == if !x.hit then (if r > 5 then r - 5 else r) else if r >= 95 then 100 else r + 5
  {
    assert (xs + [x])[..|xs|] == xs;
  }

  lemma {:induction false} RecordReplayed(ops: seq<Op>, hash: nat)
    requires 0 < hash && ops != [] && ops[|ops| - 1].RecordOp?
    requires Replayed(RunMap(ops[..|ops| - 1]), ops[..|ops| - 1], hash)
    ensures Replayed(RunMap(ops), ops, hash)
  {
    hide RunOps, RateOf, AverageOf;
    var front, op := ops[..|ops| - 1], ops[|ops| - 1];
    RecordingIs(front);
    SampleAppended(Samples(front, hash), Sample(op.cycles, op.hit));
    assert Samples(front, hash) + [] == Samples(front, hash);
  }

  /** Every entry of every run: calls modulo 2^32, and average, rate and mark replayed from what was
      recorded for the hash. */
  lemma {:induction false} EntriesReplayed(ops: seq<Op>, hash: nat)
    requires 0 < hash
    ensures Replayed(RunMap(ops), ops, hash)
  {
    hide Replayed, RunMap;
    if ops == [] {
      NothingReplayed(hash);
    } else {
      EntriesReplayed(ops[..|ops| - 1], hash);
      match ops[|ops| - 1]
      case PrecompileOp(tree, depth) => CallReplayed(ops, hash);
      case RecordOp(h, cycles, hit) => RecordReplayed(ops, hash);
      case EnableOp(on) => SwitchReplayed(ops, hash);
    }
  }

  lemma {:induction false} NothingReplayed(hash: nat)
    ensures Replayed(RunMap([]), [], hash)
  {
  }

  lemma {:induction false} SwitchReplayed(ops: seq<Op>, hash: nat)
    requires ops != [] && ops[|ops| - 1].EnableOp?
    requires Replayed(RunMap(ops[..|ops| - 1]), ops[..|ops| - 1], hash)
    ensures Replayed(RunMap(ops), ops, hash)
  {
    assert Samples(ops, hash) == Samples(ops[..|ops| - 1], hash);
  }

  lemma {:induction false} EverMarkedIff(ops: seq<Op>, hash: nat)
    ensures EverMarked(ops, hash) <==> exists n: nat :: n <= |ops| && Marks(ops[..n], hash)
  {
    hide Marks;
    if ops == [] {
      assert !Marks([], hash) by {
        NothingMarks(hash);
      }
    } else {
      var front := ops[..|ops| - 1];
      EverMarkedIff(front, hash);
      assert ops[..|ops|] == ops && forall n: nat :: n <= |front| ==> front[..n] == ops[..n];
    }
  }

  lemma {:induction false} NothingMarks(hash: nat)
    ensures !Marks([], hash)
  {
  }

  /** Hot paths, exactly: a non-zero hash is reported hot if and only if some operation so far was a
      record of it, made while profiling was on and after it had been precompiled, at which its calls
      modulo 2^32 exceeded 100 and its rate exceeded 80. */
  lemma {:induction false} HotIff(ops: seq<Op>, hash: nat)
    requires 0 < hash
    ensures IsHot(RunOps(ops).table, hash) <==> exists n: nat :: n <= |ops| && Marks(ops[..n], hash)
  {
    hide Marks, EverMarked, Calls, Samples, IsHot, RunOps;
    LookupIsMap(ops, hash);
    EntriesReplayed(ops, hash);
    EverMarkedIff(ops, hash);
  }

  /** Records of hits for one hash. */
  predicate AllHits(more: seq<Op>, hash: nat) {
    forall k :: 0 <= k < |more| ==> more[k].RecordOp? && more[k].hash == hash && more[k].hit
  }

  lemma {:induction false} HitsRaise(ops: seq<Op>, more: seq<Op>, hash: nat)
    requires Recording(ops) && Calls(ops, hash) > 0 && AllHits(more, hash)
    ensures Recording(ops + more) && Calls(ops + more, hash) == Calls(ops, hash)
    ensures RateOf(Samples(ops + more, hash)) >= if |more| >= 20 then 100 else 5 * |more|
    ensures more != [] ==> Records(ops + more, hash)
    decreases |more|
  {
    hide HashExpr;
    var all := ops + more;
    if more == [] {
      assert all == ops;
    } else {
      var n, front := |more| - 1, all[..|all| - 1];
      assert front == ops + more[..n] && all[|all| - 1] == more[n];
      HitsRaise(ops, more[..n], hash);
      SampleAppended(Samples(front, hash), Sample(more[n].cycles, true));
    }
  }

  /** More than 100 calls, then 17 recorded hits in a row: hot, whatever came before. */
  lemma {:induction false} SeventeenHitsMakeHot(ops: seq<Op>, more: seq<Op>, hash: nat)
    requires 0 < hash && 100 < Calls(ops, hash) < U32 && Recording(ops)
    requires |more| == 17 && AllHits(more, hash)
    ensures IsHot(RunOps(ops + more).table, hash)
  {
    hide IsHot, RunOps, Calls, Samples, RateOf, Records, Recording, AllHits;
    HitsRaise(ops, more, hash);
    HotIff(ops + more, hash);
    assert (ops + more)[..|ops + more|] == ops + more;
    assert Marks(ops + more, hash);
  }

  /** The average of recorded cycles from `lo` to `hi`, below 2^31, never exceeds `hi` and comes within
      one of `lo`, half as far away with each record. */
  lemma {:induction false} AverageSettles(xs: seq<Sample>, lo: nat, hi: nat)
    requires hi < 0x8000_0000 && forall k :: 0 <= k < |xs| ==> lo <= xs[k].cycles <= hi
    ensures AverageOf(xs) <= hi
    ensures Power2(|xs|) * (AverageOf(xs) + 1) >= Power2(|xs|) * lo - lo
  {
    hide Power2, AverageOf;
    PowerStep(|xs|);
    if xs == [] {
      SamplesOfNothing();
    } else {
      var n, last := |xs| - 1, xs[|xs| - 1];
      AverageSettles(xs[..n], lo, hi);
      assert xs == xs[..n] + [last];
      SampleAppended(xs[..n], last);
      var a, a' := AverageOf(xs[..n]), AverageOf(xs);
      Averaged(a, last.cycles, hi, a');
      Halving(Power2(n), a + 1, last.cycles, lo, a' + 1);
    }
  }

  lemma {:induction false} Averaged(a: nat, x: nat, hi: nat, a': nat)
    requires a <= hi && x <= hi < 0x8000_0000 && a' == (a + x) % U32 / 2
    ensures a' <= hi && 2 * (a' + 1) >= a + 1 + x
  {
  }

  lemma {:induction false} PowerStep(n: nat)
    ensures Power2(n) == if n == 0 then 1 else 2 * Power2(n - 1)
  {
  }

  lemma {:induction false} Halving(p: nat, c: int, x: int, lo: int, c': int)
    requires p * c >= p * lo - lo && x >= lo && 2 * c' >= c + x
    ensures 2 * p * c' >= 2 * p * lo - lo
  {
    Monotone(p, 2 * c', c + x);
    Monotone(p, x, lo);
    Twice(p, c, x, lo, c');
  }

  lemma {:induction false} Twice(p: int, c: int, x: int, lo: int, c': int)
    ensures p * (2 * c') == 2 * p * c' && p * (c + x) == p * c + p * x && 2 * p * lo == p * lo + p * lo
  {
  }

  lemma {:induction false} Monotone(p: nat, u: int, v: int)
    requires u >= v
    ensures p * u >= p * v
  {
    assert p * (u - v) >= 0;
  }

  // ---------------------------------------------------------------------------------------
  // Statistics
  // ---------------------------------------------------------------------------------------

  datatype Stats = Stats(hits: nat, misses: nat, hot: nat)

  /** `rate` percent of the executions, in unsigned 32-bit arithmetic. */
  function Share(rate: nat, executions: nat): nat {
    rate * executions % U32 / 100
  }

  /** The contribution of slot `k`. */
  function AddSlot(t: Table, k: nat, s: Stats): Stats
    requires t.WellFormed() && k < SIZE
  {
    var e := t.entries[k];
    if !t.used[k] then s
    else
      Stats((s.hits + Share(e.hitRate, e.executions)) % U32,
            (s.misses + Share((100 - e.hitRate) % U32, e.executions)) % U32,
            if e.hot then s.hot + 1 else s.hot)
  }

  function StatsUpTo(t: Table, n: nat): Stats
    requires t.WellFormed() && n <= SIZE
  {
    if n == 0 then Stats(0, 0, 0) else AddSlot(t, n - 1, StatsUpTo(t, n - 1))
  }

  /** Executions, used slots and hot slots among the first `n`. */
  function Executions(t: Table, n: nat): nat
    requires t.WellFormed() && n <= SIZE
  {
    if n == 0 then 0 else Executions(t, n - 1) + if t.used[n - 1] then t.entries[n - 1].executions else 0
  }

  function UsedSlots(t: Table, n: nat): (c: nat)
    requires t.WellFormed() && n <= SIZE
    ensures c <= n
  {
    if n == 0 then 0 else UsedSlots(t, n - 1) + if t.used[n - 1] then 1 else 0
  }

  /** No product and no sum reaches 2^32. */
  predicate NoWrap(t: Table)
    requires t.WellFormed()
  {
    Executions(t, SIZE) < U32 &&
    forall k :: 0 <= k < SIZE && t.used[k] ==> t.entries[k].executions * 100 < U32
  }

  predicate RatesAreRates(t: Table)
    requires t.WellFormed()
  {
    forall k :: 0 <= k < SIZE && t.used[k] ==> t.entries[k].hitRate <= 100
  }

  /** Splitting e executions by a percentage and rounding both parts down loses at most one. */
  lemma {:induction false} SplitLosesAtMostOne(rate: nat, e: nat)
    requires rate <= 100
    ensures rate * e <= 100 * e && (100 - rate) * e <= 100 * e
    ensures e - 1 <= rate * e / 100 + (100 - rate) * e / 100 <= e
  {
    var a, b := rate * e, (100 - rate) * e;
    assert a + b == 100 * e;
    assert a >= 0 && b >= 0;
  }

  lemma {:induction false} ExecutionsMonotone(t: Table, n: nat, m: nat)
    requires t.WellFormed() && n <= m <= SIZE
    ensures Executions(t, n) <= Executions(t, m)
  {
    if n < m {
      ExecutionsMonotone(t, n, m - 1);
    }
  }

  /** Without wrap-around the two shares lose at most one execution. */
  lemma {:induction false} SharesAddUp(rate: nat, e: nat)
    requires rate <= 100 && e * 100 < U32
    ensures e - 1 <= Share(rate, e) + Share(100 - rate, e) <= e
  {
    SplitLosesAtMostOne(rate, e);
    ShareExact(rate, e);
    ShareExact(100 - rate, e);
  }

  lemma {:induction false} ShareExact(rate: nat, e: nat)
    requires rate * e < U32
    ensures Share(rate, e) == rate * e / 100
  {
  }

  /** Without wrap-around a used slot adds its two shares. */
  lemma {:induction false} AddSlotIs(t: Table, k: nat, s: Stats)
    requires t.WellFormed() && k < SIZE && t.used[k] && t.entries[k].hitRate <= 100
    requires t.entries[k].executions * 100 < U32
    requires s.hits + s.misses + t.entries[k].executions < U32
    ensures var e, s' := t.entries[k], AddSlot(t, k, s);
      s'.hits == s.hits + Share(e.hitRate, e.executions) &&
      s'.misses == s.misses + Share(100 - e.hitRate, e.executions)
  {
    hide Share;
    var e := t.entries[k];
    SharesAddUp(e.hitRate, e.executions);
    assert (100 - e.hitRate) % U32 == 100 - e.hitRate;
  }

  lemma {:induction false} StatsBounds(t: Table, n: nat)
    requires t.WellFormed() && n <= SIZE && NoWrap(t) && RatesAreRates(t)
    ensures var s := StatsUpTo(t, n);
      Executions(t, n) - UsedSlots(t, n) <= s.hits + s.misses <= Executions(t, n)
  {
    hide AddSlot, Share;
    if n > 0 {
      StatsBounds(t, n - 1);
      ExecutionsMonotone(t, n, SIZE);
      if t.used[n - 1] {
        AddSlotIs(t, n - 1, StatsUpTo(t, n - 1));
        SharesAddUp(t.entries[n - 1].hitRate, t.entries[n - 1].executions);
      } else {
        UnusedAddsNothing(t, n - 1, StatsUpTo(t, n - 1));
      }
    }
  }

  lemma {:induction false} UnusedAddsNothing(t: Table, k: nat, s: Stats)
    requires t.WellFormed() && k < SIZE && !t.used[k]
    ensures AddSlot(t, k, s) == s
  {
  }

  lemma {:induction false} RunRates(ops: seq<Op>)
    ensures RatesAreRates(RunOps(ops).table)
  {
    var t := RunOps(ops).table;
    RunKeepsPrefix(ops);
    RunRefinesMap(ops);
    forall k | 0 <= k < SIZE && t.used[k]
      ensures t.entries[k].hitRate <= 100
    {
      var h := t.entries[k].hash;
      FindIs(t.entries, k, h);
      InView(t, h);
      EntriesFaithful(ops, h);
    }
  }

  /** Conservation: for every reachable table in which nothing wraps, reported hits and misses add
      up to the total executions, up to one lost per used slot. */
  lemma {:induction false} StatsConserve(ops: seq<Op>)
    requires NoWrap(RunOps(ops).table)
    ensures var t := RunOps(ops).table;
      var s := StatsUpTo(t, SIZE);
      Executions(t, SIZE) - UsedSlots(t, SIZE) <= s.hits + s.misses <= Executions(t, SIZE)
  {
    RunRates(ops);
    StatsBounds(RunOps(ops).table, SIZE);
  }

  /** Executions weighted by rate, or by what the rate is short of 100, over the first `n` slots. */
  function WeightedHits(t: Table, n: nat): nat
    requires t.WellFormed() && n <= SIZE
  {
    if n == 0 then 0
    else
      WeightedHits(t, n - 1) + if t.used[n - 1] then t.entries[n - 1].hitRate * t.entries[n - 1].executions else 0
  }

  function WeightedMisses(t: Table, n: nat): int
    requires t.WellFormed() && n <= SIZE
  {
    if n == 0 then 0
    else
      var e := t.entries[n - 1];
      WeightedMisses(t, n - 1) + if t.used[n - 1] then (100 - e.hitRate) * e.executions else 0
  }

  lemma {:induction false} RoundedShare(rate: nat, e: nat)
    requires rate <= 100 && e * 100 < U32
    ensures rate * e - 99 <= 100 * Share(rate, e) <= rate * e
  {
    SplitLosesAtMostOne(rate, e);
    ShareExact(rate, e);
  }

  lemma {:induction false} SharesBounded(t: Table, n: nat)
    requires t.WellFormed() && n <= SIZE && NoWrap(t) && RatesAreRates(t)
    ensures var s, u := StatsUpTo(t, n), UsedSlots(t, n);
      WeightedHits(t, n) - 99 * u <= 100 * s.hits <= WeightedHits(t, n) &&
      WeightedMisses(t, n) - 99 * u <= 100 * s.misses <= WeightedMisses(t, n)
  {
    hide AddSlot, Share;
    if n > 0 {
      SharesBounded(t, n - 1);
      StatsBounds(t, n - 1);
      ExecutionsMonotone(t, n, SIZE);
      if t.used[n - 1] {
        var e := t.entries[n - 1];
        AddSlotIs(t, n - 1, StatsUpTo(t, n - 1));
        RoundedShare(e.hitRate, e.executions);
        RoundedShare(100 - e.hitRate, e.executions);
      } else {
        UnusedAddsNothing(t, n - 1, StatsUpTo(t, n - 1));
      }
    }
  }

  /** The used slots with a hot entry, among the first `n`. */
  function HotSlots(t: Table, n: nat): (hs: set<nat>)
    requires t.WellFormed() && n <= SIZE
  {
    set k: nat | k < n && t.used[k] && t.entries[k].hot
  }

  lemma {:induction false} HotSlotsStep(t: Table, n: nat)
    requires t.WellFormed() && n <= SIZE
    ensures n == 0 ==> HotSlots(t, n) == {}
    ensures n > 0 ==>
      n - 1 !in HotSlots(t, n - 1) &&
      HotSlots(t, n) == HotSlots(t, n - 1) + if t.used[n - 1] && t.entries[n - 1].hot then {n - 1} else {}
  {
  }

  lemma {:induction false} HotCounted(t: Table, n: nat)
    requires t.WellFormed() && n <= SIZE
    ensures StatsUpTo(t, n).hot == |HotSlots(t, n)|
  {
    hide Share, HotSlots;
    HotSlotsStep(t, n);
    if n > 0 {
      HotCounted(t, n - 1);
    }
  }

  /** The statistics of a reachable table: the number of hot used slots always, and unless something
      wraps the percentages of the executions, off by less than one per used slot. */
  lemma {:induction false} StatsMean(ops: seq<Op>)
    ensures var t := RunOps(ops).table;
      var s, u := StatsUpTo(t, SIZE), UsedSlots(t, SIZE);
      s.hot == |HotSlots(t, SIZE)| &&
      (NoWrap(t) ==>
        WeightedHits(t, SIZE) - 99 * u <= 100 * s.hits <= WeightedHits(t, SIZE) &&
        WeightedMisses(t, SIZE) - 99 * u <= 100 * s.misses <= WeightedMisses(t, SIZE))
  {
    hide NoWrap, RatesAreRates, StatsUpTo, WeightedHits, WeightedMisses;
    var t := RunOps(ops).table;
    HotCounted(t, SIZE);
    if NoWrap(t) {
      RunRates(ops);
      SharesBounded(t, SIZE);
    }
  }

  // ---------------------------------------------------------------------------------------
  // The statically allocated tables
  // ---------------------------------------------------------------------------------------

  /** 1 << k. */
  function Mask(k: nat): bv8
    requires k < 8
  {
    (1 as bv8) << k
  }

  function Flag(b: bv8, k: nat): bool
    requires k < 8
  {
    b & Mask(k) != 0
  }

  lemma {:induction false} BitTables(k: nat)
    requires k < 8
    ensures Mask(k) == [1 as bv8, 2, 4, 8, 16, 32, 64, 128][k]
  {
  }

  lemma {:induction false} BitAfterSet(b: bv8, j: nat, k: nat)
    requires j < 8 && k < 8
    ensures Flag(b | Mask(j), k) == (Flag(b, k) || j == k)
  {
    BitTables(j);
    BitTables(k);
  }

  lemma {:induction false} BitAfterClear(b: bv8, j: nat, k: nat)
    requires j < 8 && k < 8
    ensures Flag(b & !Mask(j), k) == (Flag(b, k) && j != k)
  {
    BitTables(j);
    BitTables(k);
  }

  /** Occupancy of each slot, eight to a byte. */
  function UsedBits(bytes: seq<bv8>): (used: seq<bool>)
    ensures |used| == 8 * |bytes|
    ensures forall i :: 0 <= i < |used| ==> used[i] == Flag(bytes[i / 8], i % 8)
  {
    seq(8 * |bytes|, i requires 0 <= i < 8 * |bytes| => Flag(bytes[i / 8], i % 8))
  }

  /** Replacing a byte by one that differs at most in the slot's bit. */
  lemma {:induction false} SlotBitUpdate(bytes: seq<bv8>, slot: nat, v: bv8, on: bool)
    requires slot < 8 * |bytes|
    requires forall k :: 0 <= k < 8 ==> Flag(v, k) == if k == slot % 8 then on else Flag(bytes[slot / 8], k)
    ensures UsedBits(bytes[slot / 8 := v]) == UsedBits(bytes)[slot := on]
  {
    hide Flag;
    var bytes' := bytes[slot / 8 := v];
    forall i | 0 <= i < 8 * |bytes|
      ensures UsedBits(bytes')[i] == UsedBits(bytes)[slot := on][i]
    {
    }
  }

  lemma {:induction false} SetSlotBit(bytes: seq<bv8>, slot: nat)
    requires slot < 8 * |bytes|
    ensures UsedBits(bytes[slot / 8 := bytes[slot / 8] | Mask(slot % 8)]) == UsedBits(bytes)[slot := true]
  {
    hide Flag, Mask, UsedBits;
    forall k | 0 <= k < 8
      ensures Flag(bytes[slot / 8] | Mask(slot % 8), k) == (if k == slot % 8 then true else Flag(bytes[slot / 8], k))
    {
      BitAfterSet(bytes[slot / 8], slot % 8, k);
    }
    SlotBitUpdate(bytes, slot, bytes[slot / 8] | Mask(slot % 8), true);
  }

  lemma {:induction false} ClearSlotBit(bytes: seq<bv8>, slot: nat)
    requires slot < 8 * |bytes|
    ensures UsedBits(bytes[slot / 8 := bytes[slot / 8] & !Mask(slot % 8)]) == UsedBits(bytes)[slot := false]
  {
    hide Flag, Mask, UsedBits;
    forall k | 0 <= k < 8
      ensures Flag(bytes[slot / 8] & !Mask(slot % 8), k) == (if k == slot % 8 then false else Flag(bytes[slot / 8], k))
    {
      BitAfterClear(bytes[slot / 8], slot % 8, k);
    }
    SlotBitUpdate(bytes, slot, bytes[slot / 8] & !Mask(slot % 8), false);
  }

  lemma {:induction false} FreeIs(used: seq<bool>, i: nat)
    requires i < |used| && !used[i] && forall k :: 0 <= k < i ==> used[k]
    ensures FirstFree(used) == i
  {
  }

  /** A precompile call of this hash creates an entry. */
  predicate Stores(t: Table, hash: nat)
    requires t.WellFormed()
  {
    Find(t.entries, hash) < 0 && SlotForNew(t) != -1
  }

  class Optimizer {
    const table: array<Entry>
    const usage: array<bv8>
    var profilingEnabled: bool
    var emlCfg: bv32

    ghost predicate Shaped()
      reads this
    {
      table.Length == SIZE && usage.Length * 8 == SIZE
    }

    ghost function Now(): (t: Table)
      requires Shaped()
      reads this, table, usage
      ensures t.WellFormed()
    {
      Table(table[..], UsedBits(usage[..]))
    }

    constructor (emlCfg: bv32)
      ensures Shaped() && Profile(Now(), profilingEnabled) == RunOps([]) && this.emlCfg == emlCfg
      ensures fresh(table) && fresh(usage)
    {
      table := new Entry[SIZE](_ => BLANK);
      usage := new bv8[SIZE / 8](_ => 0);
      profilingEnabled := true;
      this.emlCfg := emlCfg;
      new;
      assert Now().entries == Empty().entries && Now().used == Empty().used;
    }

    method Search(hash: nat) returns (i: int)
      requires Shaped()
      ensures i == Find(table[..], hash)
    {
      i := 0;
      while i < SIZE
        invariant 0 <= i <= SIZE
        invariant forall k :: 0 <= k < i ==> table[k].hash != hash
      {
        if table[i].hash == hash {
          FindIs(table[..], i, hash);
          return;
        }
        i := i + 1;
      }
      i := -1;
    }

    /** The slot's bit in the occupancy vector. */
    function Occupied(slot: nat): (used: bool)
      requires Shaped() && slot < SIZE
      reads this, table, usage
      ensures used == Now().used[slot]
    {
      Flag(usage[slot / 8], slot % 8)
    }

    method SearchFree() returns (slot: int)
      requires Shaped()
      ensures slot == FirstFree(Now().used)
    {
      ghost var used := Now().used;
      for i := 0 to SIZE
        invariant forall k :: 0 <= k < i ==> used[k]
      {
        if !Occupied(i) {
          FreeIs(used, i);
          return i;
        }
      }
      slot := -1;
    }

    /** eml_find_cold_slot: the victim's occupancy bit is cleared. */
    method FindColdSlot() returns (slot: int)
      requires Shaped()
      modifies usage
      ensures slot == ColdSlot(old(Now()))
      ensures Now() == if slot == -1 then old(Now())
                       else old(Now()).(used := old(Now()).used[slot := false])
    {
      hide Occupied, Flag, Mask, UsedBits;
      ghost var t := Now();
      slot := -1;
      var least := U32 - 1;
      for i := 0 to SIZE
        invariant Now() == t && Coldest(t, i, slot)
        invariant least == if slot == -1 then U32 - 1 else t.entries[slot].executions
        invariant ColdScan(t, i, slot) == ColdSlot(t)
      {
        if Occupied(i) {
          if !table[i].hot && table[i].executions < least {
            least, slot := table[i].executions, i;
          }
        }
      }
      if slot != -1 {
        ClearSlotBit(usage[..], slot);
        usage[slot / 8] := usage[slot / 8] & !Mask(slot % 8);
      }
    }

    /** eml_precompile; the optimisation it calls always succeeds. Flag 5 of EML_CFG is set when, and
        only when, a new entry is stored. */
    method PrecompileTree(tree: Option<seq<nat>>, depth: nat) returns (id: nat)
      requires Shaped() && (tree.Some? ==> Readable(tree.value, depth))
      modifies table, usage, this`emlCfg
      ensures emlCfg ==
        if tree.Some? && Stores(old(Now()), HashExpr(tree, depth)) then old(emlCfg) | 0x20 else old(emlCfg)
      ensures Profile(Now(), profilingEnabled) ==
              Apply(old(Profile(Now(), profilingEnabled)), PrecompileOp(tree, depth))
      ensures id == if tree.None? then 0 else PrecompileId(old(Now()), HashExpr(tree, depth))
    {
      hide Now, HashExpr, Precompile, PrecompileId, Stores;
      if tree.None? {
        return 0;
      }
      var hash := ComputeHash(tree, depth);
      id := PrecompileHash(hash);
    }

    /** The rest of it, behind the hash. */
    method PrecompileHash(hash: nat) returns (id: nat)
      requires Shaped()
      modifies table, usage, this`emlCfg
      ensures emlCfg == if Stores(old(Now()), hash) then old(emlCfg) | 0x20 else old(emlCfg)
      ensures Now() == Precompile(old(Now()), hash) && id == PrecompileId(old(Now()), hash)
    {
      hide UsedBits;
      var i := Search(hash);
      if i >= 0 {
        table[i] := Increment(table[i]);
        return hash;
      }
      hide Find;
      var slot := NewSlot();
      if slot == -1 {
        return 0;
      }
      Store(slot, hash);
      emlCfg := emlCfg | 0x20;
      id := hash;
    }

    /** A free slot, or one made free by eviction. */
    method NewSlot() returns (slot: int)
      requires Shaped()
      modifies usage
      ensures slot == SlotForNew(old(Now())) && Now().entries == old(Now()).entries
      ensures if slot == -1 then Now().used == old(Now()).used
              else Now().used[slot := true] == old(Now()).used[slot := true]
    {
      hide UsedBits, ColdSlot, FirstFree;
      slot := SearchFree();
      if slot == -1 {
        slot := FindColdSlot();
      }
    }

    method Store(slot: nat, hash: nat)
      requires Shaped() && slot < SIZE
      modifies table, usage
      ensures Now() == Place(old(Now()), slot, hash)
    {
      SetSlotBit(usage[..], slot);
      table[slot] := Entry(hash, 1, 0, 0, false);
      usage[slot / 8] := usage[slot / 8] | Mask(slot % 8);
    }

    /** eml_profile_record. */
    method ProfileRecord(hash: nat, cycles: nat, hit: bool)
      requires Shaped()
      modifies table
      ensures Profile(Now(), profilingEnabled) ==
              Apply(old(Profile(Now(), profilingEnabled)), RecordOp(hash, cycles, hit))
    {
      if !profilingEnabled {
        return;
      }
      var i := Search(hash);
      if i >= 0 {
        var e := table[i];
        e := e.(cycles := (e.cycles + cycles) % U32 / 2);
        if hit {
          e := e.(hitRate := e.hitRate + 5);
          if e.hitRate > 100 {
            e := e.(hitRate := 100);
          }
        } else if e.hitRate > 5 {
          e := e.(hitRate := e.hitRate - 5);
        }
        if e.executions > HOT_THRESHOLD && e.hitRate > 80 {
          e := e.(hot := true);
        }
        table[i] := e;
      }
    }

    /** eml_is_hot_path. */
    method IsHotPath(hash: nat) returns (hot: bool)
      requires Shaped()
      ensures hot == IsHot(Now(), hash)
    {
      var i := Search(hash);
      hot := i >= 0 && table[i].hot;
    }

    /** eml_get_stats. */
    method GetStats() returns (hits: nat, misses: nat, hot: nat)
      requires Shaped()
      ensures Stats(hits, misses, hot) == StatsUpTo(Now(), SIZE)
    {
      hide Occupied, Flag, UsedBits;
      hits, misses, hot := 0, 0, 0;
      for i := 0 to SIZE
        invariant Stats(hits, misses, hot) == StatsUpTo(Now(), i)
      {
        if Occupied(i) {
          var e := table[i];
          hits := (hits + e.hitRate * e.executions % U32 / 100) % U32;
          misses := (misses + (100 - e.hitRate) % U32 * e.executions % U32 / 100) % U32;
          if e.hot {
            hot := hot + 1;
          }
        }
      }
    }

    method SetProfiling(enable: bool)
      requires Shaped()
      modifies this
      ensures Shaped()
      ensures Profile(Now(), profilingEnabled) ==
              Apply(old(Profile(Now(), profilingEnabled)), EnableOp(enable))
    {
      profilingEnabled := enable;
    }
  }
}
