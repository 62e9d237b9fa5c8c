/** The C start-up code: clearing .bss and copying .data from its load address, on word-aligned
    regions. The loops compare addresses as signed numbers; memory is the sequence of all words in
    that order, from 0x8000_0000 by way of 0 to 0x7FFF_FFFC. */
module Startup {
  import opened Prelude

  type Address = a: nat | a < U32 && a % 4 == 0

  const WORDS: nat := 0x4000_0000

  /** The position of a word in the signed order. */
  function IndexOf(a: Address): (i: nat)
    ensures i < WORDS
  {
    (Signed(a) + 0x8000_0000) / 4
  }

  function Next(a: Address): Address {
    (a + 4) % U32
  }

  lemma {:induction false} IndexOrder(a: Address, b: Address)
    ensures Signed(a) < Signed(b) <==> IndexOf(a) < IndexOf(b)
    ensures a == b <==> IndexOf(a) == IndexOf(b)
    ensures IndexOf(a) + 1 < WORDS ==> IndexOf(Next(a)) == IndexOf(a) + 1
  {
    hide IndexOf;
    SignedIndex(a);
    SignedIndex(b);
    SignedIndex(Next(a));
  }

  lemma {:induction false} SignedIndex(a: Address)
    ensures 4 * IndexOf(a) == Signed(a) + 0x8000_0000
  {
    assert a == 4 * (a / 4);
  }

  type Memory = seq<int>

  /** `m` with zeros from `from` up to `end`. */
  function Cleared(m: Memory, from: nat, end: nat): (c: Memory)
    requires from >= end || end <= |m|
    ensures |c| == |m|
    ensures forall a :: 0 <= a < |m| ==> c[a] == if from <= a < end then 0 else m[a]
  {
    seq(|m|, a requires 0 <= a < |m| => if from <= a < end then 0 else m[a])
  }

  /** Copy `n` words one by one, lowest first. */
  function Copied(m: Memory, src: nat, dst: nat, n: nat): (c: Memory)
    requires src + n <= |m| && dst + n <= |m|
    ensures |c| == |m|
  {
    if n == 0 then m
    else
      var c := Copied(m, src, dst, n - 1);
      c[dst + n - 1 := c[src + n - 1]]
  }

  /** The loader symbols. */
  datatype Symbols = Symbols(bssStart: Address, bssEnd: Address, load: Address, dataStart: Address, dataEnd: Address)
  {
    function Positions(): Layout {
      Layout(IndexOf(bssStart), IndexOf(bssEnd), IndexOf(load), IndexOf(dataStart), IndexOf(dataEnd))
    }
  }

  /** Their positions. */
  datatype Layout = Layout(bssStart: nat, bssEnd: nat, load: nat, dataStart: nat, dataEnd: nat) {
    function DataSize(): nat {
      if dataStart < dataEnd then dataEnd - dataStart else 0
    }

    function BssSize(): nat {
      if bssStart < bssEnd then bssEnd - bssStart else 0
    }

    predicate Fits(size: nat) {
      (bssStart < bssEnd ==> bssEnd <= size) && dataStart + DataSize() <= size && load + DataSize() <= size
    }
  }

  function Started(m: Memory, l: Layout): (c: Memory)
    requires l.Fits(|m|)
    ensures |c| == |m|
  {
    var b := Cleared(m, l.bssStart, l.bssEnd);
    if l.load == l.dataStart then b else Copied(b, l.load, l.dataStart, l.DataSize())
  }

  /** _start up to the call of main; the load image does not cross 0x8000_0000. */
  method Start(mem: array<int>, s: Symbols)
    requires mem.Length == WORDS
    requires s.Positions().load + s.Positions().DataSize() <= WORDS
    modifies mem
    ensures mem[..] == Started(old(mem[..]), s.Positions())
  {
    ghost var l := s.Positions();
    ClearBss(mem, s.bssStart, s.bssEnd);
    IndexOrder(s.load, s.dataStart);
    if s.load != s.dataStart {
      CopyData(mem, s.load, s.dataStart, s.dataEnd);
    }
  }

  method ClearBss(mem: array<int>, start: Address, end: Address)
    requires mem.Length == WORDS
    modifies mem
    ensures mem[..] == Cleared(old(mem[..]), IndexOf(start), IndexOf(end))
  {
    hide IndexOf, Signed, Next;
    var t0 := start;
    ghost var i := IndexOf(start);
    IndexOrder(t0, end);
    while Signed(t0) < Signed(end)
      invariant i == IndexOf(t0) >= IndexOf(start) && (IndexOf(start) < IndexOf(end) ==> i <= IndexOf(end))
      invariant IndexOf(start) >= IndexOf(end) ==> t0 == start
      invariant Signed(t0) < Signed(end) <==> i < IndexOf(end)
      invariant forall a :: 0 <= a < WORDS ==> mem[a] == if IndexOf(start) <= a < i then 0 else old(mem[a])
      decreases IndexOf(end) - i
    {
      mem[IndexOf(t0)] := 0;
      IndexOrder(t0, end);
      t0, i := Next(t0), i + 1;
      IndexOrder(t0, end);
    }
  }

  method CopyData(mem: array<int>, load: Address, start: Address, end: Address)
    requires mem.Length == WORDS
    requires IndexOf(start) < IndexOf(end) ==> IndexOf(load) + IndexOf(end) - IndexOf(start) <= WORDS
    modifies mem
    ensures var n := if IndexOf(start) < IndexOf(end) then IndexOf(end) - IndexOf(start) else 0;
      mem[..] == Copied(old(mem[..]), IndexOf(load), IndexOf(start), n)
  {
    hide IndexOf, Signed, Next;
    var t0, t1 := load, start;
    ghost var src, dst, k := IndexOf(load), IndexOf(start), 0;
    ghost var n := if dst < IndexOf(end) then IndexOf(end) - dst else 0;
    IndexOrder(t1, end);
    while Signed(t1) < Signed(end)
      invariant k <= n && IndexOf(t1) == dst + k && (k < n ==> IndexOf(t0) == src + k)
      invariant Signed(t1) < Signed(end) <==> k < n
      invariant mem[..] == Copied(old(mem[..]), src, dst, k)
      decreases n - k
    {
      IndexOrder(t0, end);
      IndexOrder(t1, end);
      var t3 := mem[IndexOf(t0)];
      mem[IndexOf(t1)] := t3;
      t0, t1, k := Next(t0), Next(t1), k + 1;
      IndexOrder(t1, end);
    }
  }

  /** Word `k` of the region at `base`. */
  function WordAt(m: Memory, base: nat, k: nat): int
    requires base + k < |m|
  {
    m[base + k]
  }

  /** Where word `k` of the copy comes from: with the destination `gap` words above the source and
      inside it, the copy reads what it has just written. */
  function Origin(k: nat, gap: nat): (o: nat)
    ensures o <= k && (k < gap ==> o == k)
    decreases k
  {
    if k < gap || gap == 0 then k else Origin(k - gap, gap)
  }

  /** The source is not overwritten before it is read. */
  predicate Safe(src: nat, dst: nat, n: nat) {
    dst <= src || src + n <= dst
  }

  /** What the word loop computes, for every overlap. */
  lemma {:induction false} CopiedContents(m: Memory, src: nat, dst: nat, n: nat)
    requires src + n <= |m| && dst + n <= |m|
    ensures var c := Copied(m, src, dst, n);
      (forall a :: 0 <= a < |m| && !(dst <= a < dst + n) ==> c[a] == m[a]) &&
      forall k :: 0 <= k < n ==>
        WordAt(c, dst, k) == WordAt(m, src, if dst <= src then k else Origin(k, dst - src))
  {
    hide Copied, Origin;
    CopiedStep(m, src, dst, n);
    if n > 0 {
      CopiedContents(m, src, dst, n - 1);
      var c, c', gap := Copied(m, src, dst, n - 1), Copied(m, src, dst, n), dst - src;
      forall j | 0 <= j < n
        ensures WordAt(c', dst, j) == WordAt(m, src, if dst <= src then j else Origin(j, gap))
      {
        if j < n - 1 {
          assert WordAt(c', dst, j) == WordAt(c, dst, j);
        } else if dst > src {
          OriginStep(j, gap);
          if j >= gap {
            assert WordAt(c, dst, j - gap) == c[src + j];
          }
        }
      }
    }
  }

  lemma {:induction false} CopiedStep(m: Memory, src: nat, dst: nat, n: nat)
    requires src + n <= |m| && dst + n <= |m|
    ensures if n == 0 then Copied(m, src, dst, n) == m
            else var c := Copied(m, src, dst, n - 1); Copied(m, src, dst, n) == c[dst + n - 1 := c[src + n - 1]]
  {
  }

  lemma {:induction false} OriginStep(k: nat, gap: nat)
    ensures Origin(k, gap) == if k < gap || gap == 0 then k else Origin(k - gap, gap)
  {
  }

  /** The image repeats itself at distance `gap`. */
  predicate Periodic(m: Memory, src: nat, n: nat, gap: nat)
    requires src + n <= |m|
  {
    forall k :: gap <= k < n ==> WordAt(m, src, k) == WordAt(m, src, k - gap)
  }

  predicate Faithful(m: Memory, src: nat, dst: nat, n: nat)
    requires src + n <= |m| && dst + n <= |m|
  {
    forall k :: 0 <= k < n ==> WordAt(Copied(m, src, dst, n), dst, k) == WordAt(m, src, k)
  }

  /** The exact condition: the copy equals the original image if and only if the image is not
      overwritten before it is read, or repeats itself with the distance of the move. */
  lemma {:induction false} CopyFaithfulIff(m: Memory, src: nat, dst: nat, n: nat)
    requires src + n <= |m| && dst + n <= |m|
    ensures Faithful(m, src, dst, n) <==> Safe(src, dst, n) || (dst > src && Periodic(m, src, n, dst - src))
  {
    CopiedContents(m, src, dst, n);
    var c := Copied(m, src, dst, n);
    if dst > src {
      var gap := dst - src;
      if Periodic(m, src, n, gap) {
        forall k | 0 <= k < n
          ensures WordAt(m, src, Origin(k, gap)) == WordAt(m, src, k)
        {
          OriginRepeats(m, src, gap, n, k);
        }
      }
      if Faithful(m, src, dst, n) && gap < n {
        forall k | gap <= k < n
          ensures WordAt(m, src, k) == WordAt(m, src, k - gap)
        {
          assert WordAt(c, dst, k) == WordAt(m, src, k);
          assert WordAt(c, dst, k - gap) == WordAt(m, src, k - gap);
        }
      }
    }
  }

  lemma {:induction false} OriginRepeats(m: Memory, src: nat, gap: nat, n: nat, k: nat)
    requires gap > 0 && src + n <= |m| && k < n && Periodic(m, src, n, gap)
    ensures WordAt(m, src, Origin(k, gap)) == WordAt(m, src, k)
    decreases k
  {
    if k >= gap {
      OriginRepeats(m, src, gap, n, k - gap);
    }
  }

  lemma {:induction false} SafeCopy(m: Memory, src: nat, dst: nat, n: nat)
    requires src + n <= |m| && dst + n <= |m| && Safe(src, dst, n)
    ensures var c := Copied(m, src, dst, n);
      (forall a :: 0 <= a < |m| && !(dst <= a < dst + n) ==> c[a] == m[a]) &&
      forall k :: 0 <= k < n ==> WordAt(c, dst, k) == WordAt(m, src, k)
  {
    CopiedContents(m, src, dst, n);
  }

  /** Ranges of words without a common address. */
  predicate Apart(a: nat, n: nat, b: nat, m: nat) {
    n == 0 || m == 0 || a + n <= b || b + m <= a
  }

  /** Start-up: with the load image and .data clear of .bss, and the image not above its own
      destination while overlapping it, .bss is zero, .data is the load image, and no other word
      changes. */
  lemma {:induction false} StartupCorrect(m: Memory, l: Layout)
    requires l.Fits(|m|)
    requires Apart(l.load, l.DataSize(), l.bssStart, l.BssSize())
    requires Apart(l.dataStart, l.DataSize(), l.bssStart, l.BssSize())
    requires Safe(l.load, l.dataStart, l.DataSize())
    ensures var c, n := Started(m, l), l.DataSize();
      (forall a :: l.bssStart <= a < l.bssEnd ==> c[a] == 0) &&
      (forall k :: 0 <= k < n ==> WordAt(c, l.dataStart, k) == WordAt(m, l.load, k)) &&
      forall a :: 0 <= a < |m| && !(l.bssStart <= a < l.bssEnd) && !(l.dataStart <= a < l.dataStart + n) ==>
        c[a] == m[a]
  {
    var b, c, n := Cleared(m, l.bssStart, l.bssEnd), Started(m, l), l.DataSize();
    SafeCopy(b, l.load, l.dataStart, n);
    assert forall a :: 0 <= a < |m| && !(l.dataStart <= a < l.dataStart + n) ==> c[a] == b[a];
    forall k | 0 <= k < n
      ensures WordAt(c, l.dataStart, k) == WordAt(m, l.load, k)
    {
      assert WordAt(b, l.load, k) == WordAt(m, l.load, k);
    }
  }

  /** From `start` up to `end` in the signed order. */
  predicate Within(a: Address, start: Address, end: Address) {
    Signed(start) <= Signed(a) < Signed(end)
  }

  /** How many words that is. */
  function WordsIn(start: Address, end: Address): nat {
    if Signed(start) < Signed(end) then IndexOf(end) - IndexOf(start) else 0
  }

  /** The same at the addresses of the loader symbols. */
  lemma {:induction false} StartupAtSymbols(m: Memory, s: Symbols)
    requires |m| == WORDS && s.Positions().Fits(|m|)
    requires var size, bss := WordsIn(s.dataStart, s.dataEnd), WordsIn(s.bssStart, s.bssEnd);
      Apart(IndexOf(s.load), size, IndexOf(s.bssStart), bss) &&
      Apart(IndexOf(s.dataStart), size, IndexOf(s.bssStart), bss) &&
      Safe(IndexOf(s.load), IndexOf(s.dataStart), size)
    ensures var c := Started(m, s.Positions());
      (forall a: Address :: Within(a, s.bssStart, s.bssEnd) ==> c[IndexOf(a)] == 0) &&
      (forall a: Address, b: Address ::
        Within(a, s.dataStart, s.dataEnd) && Signed(b) - Signed(s.load) == Signed(a) - Signed(s.dataStart) ==>
        c[IndexOf(a)] == m[IndexOf(b)]) &&
      forall a: Address :: !Within(a, s.bssStart, s.bssEnd) && !Within(a, s.dataStart, s.dataEnd) ==>
        c[IndexOf(a)] == m[IndexOf(a)]
  {
    hide Signed, IndexOf, Started, Layout.Fits;
    SignedIndex(s.bssStart);
    SignedIndex(s.bssEnd);
    SignedIndex(s.load);
    SignedIndex(s.dataStart);
    SignedIndex(s.dataEnd);
    var l := s.Positions();
    StartupCorrect(m, l);
    var c := Started(m, l);
    forall a: Address
      ensures 4 * IndexOf(a) == Signed(a) + 0x8000_0000
    {
      SignedIndex(a);
    }
    forall a: Address, b: Address | Within(a, s.dataStart, s.dataEnd) &&
      Signed(b) - Signed(s.load) == Signed(a) - Signed(s.dataStart)
      ensures c[IndexOf(a)] == m[IndexOf(b)]
    {
      SymbolWord(m, c, s, a, b);
    }
  }

  lemma {:induction false} SymbolWord(m: Memory, c: Memory, s: Symbols, a: Address, b: Address)
    requires |m| == |c| == WORDS && s.Positions().Fits(|m|)
    requires var l := s.Positions();
      forall k :: 0 <= k < l.DataSize() ==> WordAt(c, l.dataStart, k) == WordAt(m, l.load, k)
    requires Within(a, s.dataStart, s.dataEnd) && Signed(b) - Signed(s.load) == Signed(a) - Signed(s.dataStart)
    ensures c[IndexOf(a)] == m[IndexOf(b)]
  {
    hide Signed, IndexOf;
    SignedIndex(s.load);
    SignedIndex(s.dataStart);
    SignedIndex(s.dataEnd);
    SignedIndex(a);
    SignedIndex(b);
    var l := s.Positions();
    var k := IndexOf(a) - IndexOf(s.dataStart);
    assert 0 <= k < l.DataSize() && IndexOf(b) == l.load + k;
    assert WordAt(c, l.dataStart, k) == WordAt(m, l.load, k);
  }
}
