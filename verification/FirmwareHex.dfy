/** The firmware image as text: the binary-to-hex converter and the co-simulation loader. */
module FirmwareHex {
  import opened Prelude
  import opened ByteBits

  type Byte = b: nat | b < 0x100
  type Word = w: nat | w < U32

  // ---------------------------------------------------------------------------------------
  // Writing
  // ---------------------------------------------------------------------------------------

  /** Zero bytes up to a multiple of four. */
  function Pad(b: seq<Byte>): (p: seq<Byte>)
    ensures |p| % 4 == 0 && |b| <= |p| < |b| + 4 && p[..|b|] == b
    ensures forall k :: |b| <= k < |p| ==> p[k] == 0
    decreases (4 - |b| % 4) % 4
  {
    if |b| % 4 == 0 then b else Pad(b + [0])
  }

  /** Four bytes, least significant first; they occupy disjoint bits, so OR is addition. */
  function WordOf(a: Byte, b: Byte, c: Byte, d: Byte): Word {
    a + b * 0x100 + c * 0x1_0000 + d * 0x100_0000
  }

  function WordsOf(b: seq<Byte>): (ws: seq<Word>)
    requires |b| % 4 == 0
    ensures |ws| == |b| / 4
  {
    if b == [] then []
    else
      var n := |b| - 4;
      WordsOf(b[..n]) + [WordOf(b[n], b[n + 1], b[n + 2], b[n + 3])]
  }

  const DIGITS := "0123456789abcdef"

  /** The low `n` hexadecimal digits of `w`, highest first. */
  function Hex(w: nat, n: nat): (s: string)
    ensures |s| == n && forall c :: c in s ==> c in DIGITS
  {
    if n == 0 then "" else Hex(w / 16, n - 1) + [DIGITS[w % 16]]
  }

  /** One "%08x\n" line. */
  function HexLine(w: Word): string {
    Hex(w, 8) + "\n"
  }

  function HexText(ws: seq<Word>): string {
    if ws == [] then "" else HexText(ws[..|ws| - 1]) + HexLine(ws[|ws| - 1])
  }

  method PadBytes(input: seq<Byte>) returns (b: seq<Byte>)
    ensures b == Pad(input)
  {
    b := input;
    while |b| % 4 != 0
      invariant Pad(b) == Pad(input)
      decreases |Pad(input)| - |b|
    {
      b := b + [0];
    }
  }

  /** The script. */
  method Bin2Hex(input: seq<Byte>) returns (text: string)
    ensures text == HexText(WordsOf(Pad(input)))
  {
    var b := PadBytes(input);
    text := "";
    var i := 0;
    hide *;
    TextEnds(b);
    ghost var k: nat, m := 0, |b| / 4;
    assert |b| == 4 * m;
    while i < |b|
      invariant i == 4 * k && k <= m
      invariant text == TextUpTo(b, k)
    {
      WordsAppend(b, k);
      text := text + HexLine(WordOf(b[i], b[i + 1], b[i + 2], b[i + 3]));
      i, k := i + 4, k + 1;
    }
  }

  /** The text for the first `k` words. */
  ghost function TextUpTo(b: seq<Byte>, k: nat): string
    requires 4 * k <= |b|
  {
    HexText(WordsOf(b[..4 * k]))
  }

  lemma {:induction false} TextEnds(b: seq<Byte>)
    requires |b| % 4 == 0
    ensures TextUpTo(b, 0) == "" && TextUpTo(b, |b| / 4) == HexText(WordsOf(b))
  {
    assert b[..|b|] == b;
  }

  lemma {:induction false} WordsAppend(b: seq<Byte>, k: nat)
    requires 4 * k + 4 <= |b|
    ensures TextUpTo(b, k + 1) ==
      TextUpTo(b, k) + HexLine(WordOf(b[4 * k], b[4 * k + 1], b[4 * k + 2], b[4 * k + 3]))
  {
    hide HexLine, WordOf;
    var n := 4 * k;
    var c, ws := b[..n + 4], WordsOf(b[..n]);
    assert c[..n] == b[..n];
    assert (ws + [WordOf(b[n], b[n + 1], b[n + 2], b[n + 3])])[..|ws|] == ws;
  }

  // ---------------------------------------------------------------------------------------
  // Loading
  // ---------------------------------------------------------------------------------------

  /** A dictionary, a number that does not parse, or data before any address line. */
  datatype Result = Loaded(memory: map<int, int>) | BadNumber | NoAddress

  /** The characters str.isspace accepts. */
  predicate IsSpace(c: char) {
    '\t' <= c <= '\r' || '\U{1C}' <= c <= ' ' || c == '\U{85}' || c == '\U{A0}' || c == '\U{1680}' ||
    '\U{2000}' <= c <= '\U{200A}' || c == '\U{2028}' || c == '\U{2029}' || c == '\U{202F}' ||
    c == '\U{205F}' || c == '\U{3000}'
  }

  /** Lines with their terminators, as iterating over a text file yields them. */
  function LinesOf(text: string): seq<string> {
    if text == "" then []
    else
      var rest := LinesOf(text[1..]);
      if text[0] == '\n' || rest == [] then [[text[0]]] + rest else [[text[0]] + rest[0]] + rest[1..]
  }

  function StripLeft(s: string): string {
    if s != "" && IsSpace(s[0]) then StripLeft(s[1..]) else s
  }

  function StripRight(s: string): string {
    if s != "" && IsSpace(s[|s| - 1]) then StripRight(s[..|s| - 1]) else s
  }

  function Strip(s: string): string {
    StripRight(StripLeft(s))
  }

  function DigitValue(c: char): Option<nat> {
    if '0' <= c <= '9' then Some(c as int - '0' as int)
    else if 'a' <= c <= 'f' then Some(c as int - 'a' as int + 10)
    else if 'A' <= c <= 'F' then Some(c as int - 'A' as int + 10)
    else None
  }

  /** Digits, between any two of which one underscore may stand. */
  function ParseDigits(s: string): Option<nat>
    decreases |s|
  {
    if s == "" then None
    else
      var n := |s| - 1;
      var d := DigitValue(s[n]);
      if d.None? then None
      else if n == 0 then d
      else
        var high := ParseDigits(if s[n - 1] == '_' then s[..n - 1] else s[..n]);
        if high.None? then None else Some(high.value * 16 + d.value)
  }

  /** Digits behind an optional 0x, which one underscore may follow. */
  function ParseUnsigned(s: string): Option<nat> {
    if |s| >= 2 && s[0] == '0' && (s[1] == 'x' || s[1] == 'X')
    then ParseDigits(if |s| > 2 && s[2] == '_' then s[3..] else s[2..])
    else ParseDigits(s)
  }

  /** int(s, 16): white space around, a sign, a prefix, digits. */
  function ParseInt(s: string): Option<int> {
    var t := Strip(s);
    if t != "" && (t[0] == '-' || t[0] == '+') then
      var v := ParseUnsigned(t[1..]);
      if v.None? then None else Some(if t[0] == '-' then 0 - v.value else v.value)
    else
      var v := ParseUnsigned(t);
      if v.None? then None else Some(v.value)
  }

  /** Dictionary and address so far, or an error. */
  datatype Loader = Loader(memory: map<int, int>, addr: Option<int>) | Failed(error: Result)

  const FRESH := Loader(map[], None)

  function LoadLine(l: Loader, line: string): Loader {
    var s := Strip(line);
    if l.Failed? then l
    else if s != "" && s[0] == '@' then
      var a := ParseInt(s[1..]);
      if a.None? then Failed(BadNumber) else l.(addr := a)
    else if s != "" && !("//" <= s) then
      var v := ParseInt(s);
      if v.None? then Failed(BadNumber)
      else if l.addr.None? then Failed(NoAddress)
      else Loader(l.memory[l.addr.value := v.value], Some(l.addr.value + 4))
    else l
  }

  function LoadLines(lines: seq<string>): Loader {
    if lines == [] then FRESH else LoadLine(LoadLines(lines[..|lines| - 1]), lines[|lines| - 1])
  }

  function ResultOf(l: Loader): Result {
    if l.Failed? then l.error else Loaded(l.memory)
  }

  function LoadText(text: string): Result {
    ResultOf(LoadLines(LinesOf(text)))
  }

  /** load_firmware_hex on the lines of a file. */
  method LoadFirmwareHex(lines: seq<string>) returns (r: Result)
    ensures r == ResultOf(LoadLines(lines))
  {
    hide ParseInt, Strip;
    var memory: map<int, int>, addr: Option<int> := map[], None;
    for i := 0 to |lines|
      invariant LoadLines(lines[..i]) == Loader(memory, addr)
    {
      assert lines[..i + 1][..i] == lines[..i];
      var line := Strip(lines[i]);
      if line != "" && line[0] == '@' {
        var a := ParseInt(line[1..]);
        if a.None? {
          FailureStays(lines, i + 1, BadNumber);
          return BadNumber;
        }
        addr := a;
      } else if line != "" && !("//" <= line) {
        var data := ParseInt(line);
        if data.None? {
          FailureStays(lines, i + 1, BadNumber);
          return BadNumber;
        }
        if addr.None? {
          FailureStays(lines, i + 1, NoAddress);
          return NoAddress;
        }
        memory := memory[addr.value := data.value];
        addr := Some(addr.value + 4);
      }
    }
    assert lines[..|lines|] == lines;
    r := Loaded(memory);
  }

  lemma {:induction false} FailureStays(lines: seq<string>, n: nat, error: Result)
    requires n <= |lines| && LoadLines(lines[..n]) == Failed(error)
    ensures LoadLines(lines) == Failed(error)
    decreases |lines|
  {
    if n < |lines| {
      assert lines[..|lines| - 1][..n] == lines[..n];
      FailureStays(lines[..|lines| - 1], n, error);
    } else {
      assert lines[..n] == lines;
    }
  }

  // ---------------------------------------------------------------------------------------
  // Round trip
  // ---------------------------------------------------------------------------------------

  function Pow16(n: nat): (p: nat)
    ensures p > 0
  {
    if n == 0 then 1 else 16 * Pow16(n - 1)
  }

  /** The sixteen digits, letters in either case. */
  lemma {:induction false} DigitValues(c: char, v: nat)
    ensures DigitValue(c) == Some(v) <==> v < 16 && (c == "0123456789abcdef"[v] || c == "0123456789ABCDEF"[v])
  {
  }

  lemma {:induction false} DigitRoundTrip(d: nat)
    requires d < 16
    ensures DigitValue(DIGITS[d]) == Some(d)
  {
  }

  lemma {:induction false} DigitsRoundTrip(w: nat, n: nat)
    requires n > 0 && w < Pow16(n)
    ensures ParseDigits(Hex(w, n)) == Some(w)
  {
    hide DigitValue, ParseDigits;
    ParseSnoc(Hex(w / 16, n - 1), w % 16);
    if n > 1 {
      DigitsRoundTrip(w / 16, n - 1);
    } else {
      assert Pow16(1) == 16;
    }
  }

  /** One more digit at the low end. */
  lemma {:induction false} ParseSnoc(s: string, d: nat)
    requires d < 16 && forall c :: c in s ==> c in DIGITS
    ensures ParseDigits(s + [DIGITS[d]]) ==
      if s == "" then Some(d)
      else if ParseDigits(s).None? then None else Some(ParseDigits(s).value * 16 + d)
  {
    hide DigitValue;
    DigitRoundTrip(d);
    assert (s + [DIGITS[d]])[..|s|] == s;
    assert s != "" ==> s[|s| - 1] in DIGITS;
  }

  /** Parsing printed digits gives the number back. */
  lemma {:induction false} HexRoundTrip(w: nat, n: nat)
    requires n > 0 && w < Pow16(n)
    ensures ParseInt(Hex(w, n)) == Some(w)
  {
    hide Hex, Strip, ParseDigits, Pow16, Plain;
    DigitsRoundTrip(w, n);
    HexPlain(w, n);
    StripLine(Hex(w, n));
    assert Hex(w, n)[0] in DIGITS;
    assert n > 1 ==> Hex(w, n)[1] in DIGITS;
  }

  predicate Plain(s: string) {
    forall k :: 0 <= k < |s| ==> !IsSpace(s[k])
  }

  lemma {:induction false} HexPlain(w: nat, n: nat)
    ensures Plain(Hex(w, n))
    ensures n > 0 ==> Hex(w, n)[0] in DIGITS
  {
    forall k | 0 <= k < n
      ensures !IsSpace(Hex(w, n)[k])
    {
      assert Hex(w, n)[k] in DIGITS;
    }
  }

  /** Stripping a line gives back its text. */
  lemma {:induction false} StripLine(s: string)
    requires s != "" && Plain(s)
    ensures Strip(s + "\n") == s && Strip(s) == s
  {
    assert (s + "\n")[0] == s[0] && (s + "\n")[..|s|] == s;
    assert StripRight(s) == s;
  }

  lemma {:induction false} OneLine(x: string)
    requires Plain(x)
    ensures LinesOf(x + "\n") == [x + "\n"]
  {
    var t := x + "\n";
    if x == "" {
      assert t[1..] == "" && t == ['\n'];
    } else {
      assert t[1..] == x[1..] + "\n";
      OneLine(x[1..]);
      assert t == [t[0]] + t[1..];
    }
  }

  /** Text ending in a newline splits before what follows. */
  lemma {:induction false} LinesAppend(a: string, x: string)
    requires (a == "" || a[|a| - 1] == '\n') && Plain(x)
    ensures LinesOf(a + x + "\n") == LinesOf(a) + [x + "\n"]
  {
    OneLine(x);
    if a == "" {
      assert a + x + "\n" == x + "\n";
    } else {
      assert (a + x + "\n")[1..] == a[1..] + x + "\n";
      LinesAppend(a[1..], x);
    }
  }

  /** The dictionary of consecutive words from `base`. */
  function MemoryOf(base: nat, ws: seq<nat>): map<int, int> {
    if ws == [] then map[]
    else
      var n := |ws| - 1;
      MemoryOf(base, ws[..n])[base + 4 * n := ws[n]]
  }

  lemma {:induction false} MemoryContents(base: nat, ws: seq<nat>)
    ensures forall a :: a in MemoryOf(base, ws) <==> base <= a < base + 4 * |ws| && (a - base) % 4 == 0
    ensures forall k :: 0 <= k < |ws| ==>
      base + 4 * k in MemoryOf(base, ws) && MemoryOf(base, ws)[base + 4 * k] == ws[k]
  {
    if ws != [] {
      MemoryContents(base, ws[..|ws| - 1]);
    }
  }

  /** An address line. */
  function AddressLine(base: nat, digits: nat): string {
    "@" + Hex(base, digits) + "\n"
  }

  lemma {:induction false} LoadAddress(l: Loader, base: nat, digits: nat)
    requires l.Loader? && digits > 0 && base < Pow16(digits)
    ensures LoadLine(l, AddressLine(base, digits)) == Loader(l.memory, Some(base))
  {
    hide Hex, Strip, ParseInt, Plain, Pow16;
    var h := Hex(base, digits);
    AddressPlain(base, digits);
    StripLine("@" + h);
    assert AddressLine(base, digits) == ("@" + h) + "\n" && ("@" + h)[1..] == h;
    HexRoundTrip(base, digits);
  }

  lemma {:induction false} EightDigits(w: Word)
    ensures w < Pow16(8)
  {
    assert Pow16(2) == 256 && Pow16(4) == 0x1_0000 && Pow16(6) == 0x100_0000;
    assert Pow16(8) == 16 * 16 * Pow16(6);
  }

  lemma {:induction false} DigitsFirst(h: string)
    requires h != "" && forall c :: c in h ==> c in DIGITS
    ensures h[0] != '@' && !("//" <= h)
  {
    assert h[0] in DIGITS;
  }

  lemma {:induction false} LoadWord(l: Loader, w: Word)
    requires l.Loader?
    ensures LoadLine(l, HexLine(w)) ==
      if l.addr.None? then Failed(NoAddress)
      else Loader(l.memory[l.addr.value := w], Some(l.addr.value + 4))
  {
    hide Strip, ParseInt, Hex, Plain, Pow16;
    var h := Hex(w, 8);
    HexPlain(w, 8);
    StripLine(h);
    EightDigits(w);
    HexRoundTrip(w, 8);
    DigitsFirst(h);
  }

  lemma {:induction false} LoadAppend(lines: seq<string>, line: string)
    ensures LoadLines(lines + [line]) == LoadLine(LoadLines(lines), line)
  {
    assert (lines + [line])[..|lines|] == lines;
  }

  lemma {:induction false} LoadNothing()
    ensures LoadLines([]) == FRESH
  {
  }

  lemma {:induction false} AddressPlain(base: nat, digits: nat)
    ensures Plain("@" + Hex(base, digits))
  {
    HexPlain(base, digits);
  }

  predicate Complete(text: string) {
    text == "" || text[|text| - 1] == '\n'
  }

  /** A word line behind complete lines is loaded after them. */
  lemma {:induction false} LoadMore(front: string, w: Word)
    requires Complete(front)
    ensures LoadLines(LinesOf(front + HexLine(w))) == LoadLine(LoadLines(LinesOf(front)), HexLine(w))
    ensures Complete(front + HexLine(w))
  {
    hide Hex, LinesOf, LoadLine, LoadLines, Plain;
    HexPlain(w, 8);
    LinesAppend(front, Hex(w, 8));
    assert front + HexLine(w) == front + Hex(w, 8) + "\n";
    LoadAppend(LinesOf(front), HexLine(w));
  }

  lemma {:induction false} TextSnoc(at: string, ws: seq<Word>)
    requires ws != []
    ensures at + HexText(ws) == at + HexText(ws[..|ws| - 1]) + HexLine(ws[|ws| - 1])
  {
  }

  /** An address line behind complete lines. */
  lemma {:induction false} LoadStart(front: string, base: nat, digits: nat)
    requires Complete(front) && LoadLines(LinesOf(front)).Loader? && digits > 0 && base < Pow16(digits)
    ensures var text := front + AddressLine(base, digits);
      LoadLines(LinesOf(text)) == Loader(LoadLines(LinesOf(front)).memory, Some(base)) && Complete(text)
  {
    hide Hex, LinesOf, LoadLine, LoadLines, Plain, Pow16;
    var x := "@" + Hex(base, digits);
    AddressPlain(base, digits);
    LinesAppend(front, x);
    assert front + AddressLine(base, digits) == front + x + "\n";
    LoadAppend(LinesOf(front), x + "\n");
    LoadAddress(LoadLines(LinesOf(front)), base, digits);
  }

  /** An address line and word lines behind complete lines: the words are added to what was loaded, the
      last one counting where an address comes twice. */
  lemma {:induction false} LoadSegment(front: string, base: nat, digits: nat, ws: seq<Word>)
    requires Complete(front) && LoadLines(LinesOf(front)).Loader? && digits > 0 && base < Pow16(digits)
    ensures var text := front + AddressLine(base, digits) + HexText(ws);
      Complete(text) &&
      LoadLines(LinesOf(text)) ==
        Loader(LoadLines(LinesOf(front)).memory + MemoryOf(base, ws), Some(base + 4 * |ws|))
  {
    hide AddressLine, HexLine, LinesOf, LoadLine, LoadLines, Complete, Pow16;
    var at := front + AddressLine(base, digits);
    if ws == [] {
      LoadStart(front, base, digits);
      assert at + "" == at;
      assert LoadLines(LinesOf(front)).memory + map[] == LoadLines(LinesOf(front)).memory;
    } else {
      var n := |ws| - 1;
      LoadSegment(front, base, digits, ws[..n]);
      TextSnoc(at, ws);
      LoadMore(at + HexText(ws[..n]), ws[n]);
      LoadWord(LoadLines(LinesOf(at + HexText(ws[..n]))), ws[n]);
    }
  }

  /** Byte `k` of a word. */
  function ByteOf(w: int, k: nat): nat
    requires k < 4
  {
    w / [1, 0x100, 0x1_0000, 0x100_0000][k] % 0x100
  }

  lemma {:induction false} WordBytes(a: Byte, b: Byte, c: Byte, d: Byte)
    ensures var w := WordOf(a, b, c, d);
      ByteOf(w, 0) == a && ByteOf(w, 1) == b && ByteOf(w, 2) == c && ByteOf(w, 3) == d
  {
    hide ByteOf;
    var w := WordOf(a, b, c, d);
    Quotients(w, a, b, c, d);
    ByteUnit(w, 0, 1);
    ByteUnit(w, 1, 0x100);
    ByteUnit(w, 2, 0x1_0000);
    ByteUnit(w, 3, 0x100_0000);
    LowByte(a, b + c * 0x100 + d * 0x1_0000);
    LowByte(b, c + d * 0x100);
    LowByte(c, d);
  }

  lemma {:induction false} ByteUnit(w: int, k: nat, unit: nat)
    requires k < 4 && unit == [1, 0x100, 0x1_0000, 0x100_0000][k]
    ensures ByteOf(w, k) == w / unit % 0x100
  {
  }

  lemma {:induction false} WordsOfBytes(b: seq<Byte>, i: nat)
    requires |b| % 4 == 0 && i < |b|
    ensures ByteOf(WordsOf(b)[i / 4], i % 4) == b[i]
    decreases |b|
  {
    var n := |b| - 4;
    if i < n {
      WordsOfBytes(b[..n], i);
    } else {
      WordBytes(b[n], b[n + 1], b[n + 2], b[n + 3]);
    }
  }

  /** Round trip: for every byte string, loading the converter's output behind an address line
      gives exactly the consecutive word addresses, whose little-endian bytes are the input padded
      with zeros. */
  lemma {:induction false} RoundTrip(base: nat, digits: nat, input: seq<Byte>)
    requires digits > 0 && base < Pow16(digits)
    ensures var r := LoadText(AddressLine(base, digits) + HexText(WordsOf(Pad(input))));
      r.Loaded? &&
      (forall a :: a in r.memory <==> base <= a < base + |Pad(input)| && (a - base) % 4 == 0) &&
      forall i :: 0 <= i < |Pad(input)| ==>
        base + i / 4 * 4 in r.memory && ByteOf(r.memory[base + i / 4 * 4], i % 4) == Pad(input)[i]
  {
    hide Pad, WordsOf, LinesOf, LoadLines, HexText, AddressLine, ByteOf, MemoryOf, Pow16;
    var p := Pad(input);
    var ws := WordsOf(p);
    LoadEmpty();
    LoadSegment("", base, digits, ws);
    assert "" + AddressLine(base, digits) == AddressLine(base, digits);
    assert map[] + MemoryOf(base, ws) == MemoryOf(base, ws);
    MemoryContents(base, ws);
    forall i | 0 <= i < |p|
      ensures base + i / 4 * 4 in MemoryOf(base, ws)
      ensures ByteOf(MemoryOf(base, ws)[base + i / 4 * 4], i % 4) == p[i]
    {
      WordsOfBytes(p, i);
      assert base + 4 * (i / 4) in MemoryOf(base, ws);
    }
  }

  // --- several segments ---------------------------------------------------------------------

  /** Bytes for one place in memory, and how many digits its address line has. */
  datatype Segment = Segment(base: nat, digits: nat, bytes: seq<Byte>) {
    predicate Valid() {
      digits > 0 && base < Pow16(digits)
    }

    /** The word addresses it fills. */
    predicate Covers(a: int) {
      base <= a < base + |Pad(bytes)| && (a - base) % 4 == 0
    }

    function Memory(): map<int, int> {
      MemoryOf(base, WordsOf(Pad(bytes)))
    }
  }

  /** An address line and the converter's output for each. */
  function SegmentsText(segs: seq<Segment>): string {
    if segs == [] then ""
    else
      var g := segs[|segs| - 1];
      SegmentsText(segs[..|segs| - 1]) + AddressLine(g.base, g.digits) + HexText(WordsOf(Pad(g.bytes)))
  }

  function SegmentsMemory(segs: seq<Segment>): map<int, int> {
    if segs == [] then map[] else SegmentsMemory(segs[..|segs| - 1]) + segs[|segs| - 1].Memory()
  }

  lemma {:induction false} LoadSegments(segs: seq<Segment>)
    requires forall k :: 0 <= k < |segs| ==> segs[k].Valid()
    ensures var text := SegmentsText(segs);
      Complete(text) && LoadLines(LinesOf(text)).Loader? &&
      LoadLines(LinesOf(text)).memory == SegmentsMemory(segs)
  {
    hide HexText, AddressLine, LinesOf, LoadLines, Complete, WordsOf, Pad, MemoryOf, Pow16;
    LoadEmpty();
    if segs != [] {
      var g := segs[|segs| - 1];
      LoadSegments(segs[..|segs| - 1]);
      LoadSegment(SegmentsText(segs[..|segs| - 1]), g.base, g.digits, WordsOf(Pad(g.bytes)));
    }
  }

  lemma {:induction false} SegmentContents(g: Segment)
    ensures forall a :: a in g.Memory() <==> g.Covers(a)
    ensures forall i :: 0 <= i < |Pad(g.bytes)| ==>
      g.base + i / 4 * 4 in g.Memory() && g.Covers(g.base + i / 4 * 4) &&
      ByteOf(g.Memory()[g.base + i / 4 * 4], i % 4) == Pad(g.bytes)[i]
  {
    hide WordsOf, Pad, MemoryOf, ByteOf;
    var p := Pad(g.bytes);
    MemoryContents(g.base, WordsOf(p));
    forall i | 0 <= i < |p|
      ensures g.base + i / 4 * 4 in g.Memory() && g.Covers(g.base + i / 4 * 4)
      ensures ByteOf(g.Memory()[g.base + i / 4 * 4], i % 4) == p[i]
    {
      WordsOfBytes(p, i);
      assert g.base + 4 * (i / 4) in g.Memory();
    }
  }

  /** Address `a` is not covered by a segment behind number `k`. */
  predicate LastAt(segs: seq<Segment>, k: nat, a: int) {
    forall j :: k < j < |segs| ==> !segs[j].Covers(a)
  }

  /** Byte `i` of the padded segment `k` is in its word, unless a later segment covers that. */
  predicate ByteFound(segs: seq<Segment>, m: map<int, int>, k: nat, i: nat)
    requires k < |segs| && i < |Pad(segs[k].bytes)|
  {
    var a := segs[k].base + i / 4 * 4;
    LastAt(segs, k, a) ==> a in m && ByteOf(m[a], i % 4) == Pad(segs[k].bytes)[i]
  }

  lemma {:induction false} SegmentsContents(segs: seq<Segment>, k: nat, a: int)
    requires k < |segs| && segs[k].Covers(a) && LastAt(segs, k, a)
    ensures a in segs[k].Memory() && a in SegmentsMemory(segs) && SegmentsMemory(segs)[a] == segs[k].Memory()[a]
  {
    hide Segment.Memory, Segment.Covers;
    var n := |segs| - 1;
    SegmentContents(segs[n]);
    SegmentContents(segs[k]);
    if k < n {
      assert !segs[n].Covers(a);
      SegmentsContents(segs[..n], k, a);
    }
  }

  lemma {:induction false} SegmentsDomain(segs: seq<Segment>, a: int)
    ensures a in SegmentsMemory(segs) <==> exists k :: 0 <= k < |segs| && segs[k].Covers(a)
  {
    hide Segment.Memory, Segment.Covers;
    if segs != [] {
      var n := |segs| - 1;
      SegmentContents(segs[n]);
      SegmentsDomain(segs[..n], a);
    }
  }

  /** Round trip for any number of segments, overlapping ones included: the words loaded are those some
      segment covers, and each byte of a segment is found unless a later segment covers its word. */
  lemma {:induction false} SegmentsRoundTrip(segs: seq<Segment>)
    requires forall k :: 0 <= k < |segs| ==> segs[k].Valid()
    ensures var r := LoadText(SegmentsText(segs));
      r.Loaded? &&
      (forall a :: a in r.memory <==> exists k :: 0 <= k < |segs| && segs[k].Covers(a)) &&
      forall k, i :: 0 <= k < |segs| && 0 <= i < |Pad(segs[k].bytes)| ==> ByteFound(segs, r.memory, k, i)
  {
    hide Pad, LinesOf, LoadLines, SegmentsText, SegmentsMemory, ByteOf, LastAt, Segment.Covers, Segment.Valid;
    LoadSegments(segs);
    var m := SegmentsMemory(segs);
    forall a
      ensures a in m <==> exists k :: 0 <= k < |segs| && segs[k].Covers(a)
    {
      SegmentsDomain(segs, a);
    }
    forall k, i | 0 <= k < |segs| && 0 <= i < |Pad(segs[k].bytes)|
      ensures ByteFound(segs, m, k, i)
    {
      var a := segs[k].base + i / 4 * 4;
      SegmentContents(segs[k]);
      if LastAt(segs, k, a) {
        SegmentsContents(segs, k, a);
      }
    }
  }

  // --- other lines --------------------------------------------------------------------------

  predicate Blank(s: string) {
    forall k :: 0 <= k < |s| ==> IsSpace(s[k])
  }

  lemma {:induction false} StripLeftBlank(pad: string, s: string)
    requires Blank(pad)
    ensures StripLeft(pad + s) == StripLeft(s)
  {
    if pad == "" {
      assert pad + s == s;
    } else {
      assert (pad + s)[1..] == pad[1..] + s;
      StripLeftBlank(pad[1..], s);
    }
  }

  lemma {:induction false} StripRightBlank(s: string, pad: string)
    requires Blank(pad)
    ensures StripRight(s + pad) == StripRight(s)
    decreases |pad|
  {
    if pad == "" {
      assert s + pad == s;
    } else {
      var n := |pad| - 1;
      assert (s + pad)[..|s + pad| - 1] == s + pad[..n];
      StripRightBlank(s, pad[..n]);
    }
  }

  /** White space around a text that neither starts nor ends with it. */
  lemma {:induction false} StripPadded(left: string, s: string, right: string)
    requires Blank(left) && Blank(right) && s != "" && !IsSpace(s[0]) && !IsSpace(s[|s| - 1])
    ensures Strip(left + s + right) == s
  {
    assert left + s + right == left + (s + right);
    StripLeftBlank(left, s + right);
    StripRightBlank(s, right);
  }

  lemma {:induction false} StripRightKeeps(s: string, t: string)
    requires s != "" && !IsSpace(s[|s| - 1])
    ensures s <= StripRight(s + t)
    decreases |t|
  {
    if t != "" && IsSpace(t[|t| - 1]) {
      assert (s + t)[..|s + t| - 1] == s + t[..|t| - 1];
      StripRightKeeps(s, t[..|t| - 1]);
    } else if t == "" {
      assert s + t == s;
    }
  }

  /** Blank lines and comment lines, indented ones included, change nothing. */
  lemma {:induction false} CommentIgnored(l: Loader, pad: string, text: string)
    requires Blank(pad)
    ensures LoadLine(l, pad + "//" + text) == l && LoadLine(l, pad) == l
  {
    var s := "//" + text;
    assert pad + "//" + text == pad + s && s[0] == '/';
    StripLeftBlank(pad, s);
    StripRightKeeps("//", text);
    StripLeftBlank(pad, "");
    assert pad + "" == pad;
  }

  /** The digits of a text without its underscores. */
  function Digits(s: string): string {
    if s == "" then "" else Digits(s[..|s| - 1]) + if s[|s| - 1] == '_' then "" else [s[|s| - 1]]
  }

  predicate IsDigit(c: char) {
    '0' <= c <= '9' || 'a' <= c <= 'f' || 'A' <= c <= 'F'
  }

  function ValueOf(s: string): nat {
    if s == "" then 0
    else
      var d := DigitValue(s[|s| - 1]);
      16 * ValueOf(s[..|s| - 1]) + if d.Some? then d.value else 0
  }

  /** Digits of either case, and underscores only one by one between two of them. */
  predicate IsNumeral(s: string) {
    s != "" && s[0] != '_' && s[|s| - 1] != '_' && (forall k :: 0 <= k < |s| ==> IsDigit(s[k]) || s[k] == '_') &&
    forall k :: 0 < k < |s| ==> s[k - 1] != '_' || s[k] != '_'
  }

  /** What parses, exactly, and to what. */
  lemma {:induction false} ParseDigitsIff(s: string)
    ensures ParseDigits(s) == if IsNumeral(s) then Some(ValueOf(Digits(s))) else None
    decreases |s|
  {
    var n := |s| - 1;
    if s != "" && IsDigit(s[n]) && n > 0 {
      var front := if s[n - 1] == '_' then s[..n - 1] else s[..n];
      ParseDigitsIff(front);
      NumeralFront(s);
      DigitsFront(s);
    }
  }

  lemma {:induction false} NumeralFront(s: string)
    requires |s| > 1 && IsDigit(s[|s| - 1])
    ensures var n := |s| - 1; IsNumeral(s) <==> IsNumeral(if s[n - 1] == '_' then s[..n - 1] else s[..n])
  {
  }

  lemma {:induction false} DigitsFront(s: string)
    requires |s| > 1 && IsDigit(s[|s| - 1])
    ensures var n := |s| - 1;
      ValueOf(Digits(s)) ==
        16 * ValueOf(Digits(if s[n - 1] == '_' then s[..n - 1] else s[..n])) + DigitValue(s[n]).value
  {
    var n := |s| - 1;
    assert s[n] != '_' && Digits(s) == Digits(s[..n]) + [s[n]];
    assert Digits(s)[..|Digits(s)| - 1] == Digits(s[..n]);
    if s[n - 1] == '_' {
      assert s[..n][..n - 1] == s[..n - 1];
      assert Digits(s[..n]) == Digits(s[..n - 1]) + "" == Digits(s[..n - 1]);
    }
  }

  lemma {:induction false} StripRightDone(s: string)
    ensures var t := StripRight(s); StripRight(t) == t && (t != "" && !IsSpace(t[0]) ==> Strip(t) == t)
  {
    if s != "" && IsSpace(s[|s| - 1]) {
      StripRightDone(s[..|s| - 1]);
    }
  }

  /** A line whose first character behind white space starts neither a number nor an address nor a
      comment is an error. */
  lemma {:induction false} OtherLineFails(l: Loader, pad: string, c: char, text: string)
    requires Blank(pad) && !IsSpace(c) && !IsDigit(c) && c !in {'+', '-', '@'} && (c == '/' ==> !("/" <= text))
    ensures LoadLine(l, pad + ([c] + text)) == if l.Failed? then l else Failed(BadNumber)
  {
    hide StripLeft, Strip, Blank, IsSpace, IsDigit;
    var t := StripRight([c] + text);
    StripLeftBlank(pad, [c] + text);
    StripFirst(c, text);
    StripRightKeeps([c], text);
    StripRightDone([c] + text);
    StrippedIs(pad, c, text);
    assert t[0] == c;
    NoNumeral(t);
    SlashAlone(c, text);
  }

  lemma {:induction false} StripFirst(c: char, text: string)
    requires !IsSpace(c)
    ensures StripLeft([c] + text) == [c] + text
  {
  }

  lemma {:induction false} StrippedIs(pad: string, c: char, text: string)
    requires StripLeft(pad + ([c] + text)) == [c] + text
    ensures Strip(pad + ([c] + text)) == StripRight([c] + text)
  {
  }

  lemma {:induction false} NoNumeral(t: string)
    requires t != "" && !IsDigit(t[0])
    ensures ParseUnsigned(t).None?
  {
    hide ParseDigits;
    ParseDigitsIff(t);
  }

  lemma {:induction false} SlashAlone(c: char, text: string)
    requires c == '/' ==> !("/" <= text)
    ensures !("//" <= StripRight([c] + text))
  {
    StripRightPrefix([c] + text);
    TwoSlashes(c, text);
  }

  lemma {:induction false} TwoSlashes(c: char, text: string)
    ensures "//" <= [c] + text ==> c == '/' && "/" <= text
  {
    var s := [c] + text;
    assert |s| == 1 + |text| && s[0] == c && s[1..] == text;
    assert "//"[0] == '/' && "//"[1] == '/';
    if "//" <= s {
      assert "//" == s[..2];
      assert s[1] == text[0];
    }
  }

  lemma {:induction false} StripRightPrefix(s: string)
    ensures StripRight(s) <= s
  {
    if s != "" && IsSpace(s[|s| - 1]) {
      StripRightPrefix(s[..|s| - 1]);
    }
  }

  /** Numbers with white space around, a sign and a prefix. */
  lemma {:induction false} NumberForms(left: string, sign: string, prefix: string, s: string, right: string)
    requires Blank(left) && Blank(right) && IsNumeral(s) && !("0x" <= s) && !("0X" <= s)
    requires sign in {"", "+", "-"} && prefix in {"", "0x", "0X", "0x_", "0X_"}
    ensures var v := ValueOf(Digits(s));
      ParseInt(left + (sign + (prefix + s)) + right) == Some(if sign == "-" then 0 - v else v)
  {
    hide IsNumeral, Blank, ParseUnsigned, ParseInt, IsSpace, ValueOf, Digits;
    PrefixedForm(prefix, s);
    SignedForm(left, sign, prefix + s, right);
  }

  lemma {:induction false} SignedForm(left: string, sign: string, t: string, right: string)
    requires Blank(left) && Blank(right) && sign in {"", "+", "-"}
    requires t != "" && !IsSpace(t[0]) && !IsSpace(t[|t| - 1]) && t[0] != '-' && t[0] != '+'
    ensures ParseInt(left + (sign + t) + right) ==
      var v := ParseUnsigned(t);
      if v.None? then None else Some(if sign == "-" then 0 - v.value else v.value)
  {
    hide Strip, Blank, ParseUnsigned;
    StripPadded(left, sign + t, right);
    assert sign != "" ==> (sign + t)[1..] == t;
    assert sign == "" ==> sign + t == t;
  }

  lemma {:induction false} PrefixedForm(prefix: string, s: string)
    requires IsNumeral(s) && !("0x" <= s) && !("0X" <= s) && prefix in {"", "0x", "0X", "0x_", "0X_"}
    ensures var t := prefix + s;
      t != "" && !IsSpace(t[0]) && !IsSpace(t[|t| - 1]) && t[0] != '-' && t[0] != '+' &&
      ParseUnsigned(t) == Some(ValueOf(Digits(s)))
  {
    hide ParseDigits, ValueOf, Digits;
    ParseDigitsIff(s);
    var t := prefix + s;
    assert t[|prefix|..] == s && t[|t| - 1] == s[|s| - 1] && t[|prefix|] == s[0];
    assert prefix == "" ==> t == s;
  }

  /** The converter writes no address line, so its output alone loads only when it is empty. */
  lemma {:induction false} OutputAloneLoadsIffEmpty(input: seq<Byte>)
    ensures LoadText(HexText(WordsOf(Pad(input)))) == if input == [] then Loaded(map[]) else NoAddress
  {
    var ws := WordsOf(Pad(input));
    LoadWithoutAddress(ws);
  }

  lemma {:induction false} LoadEmpty()
    ensures HexText([]) == "" && Complete("") && LoadLines(LinesOf("")) == FRESH
  {
    LoadNothing();
  }

  lemma {:induction false} LoadWithoutAddress(ws: seq<Word>)
    ensures Complete(HexText(ws))
    ensures LoadLines(LinesOf(HexText(ws))) == if ws == [] then FRESH else Failed(NoAddress)
  {
    hide HexText, HexLine, LinesOf, LoadLines, LoadLine, Complete;
    LoadEmpty();
    if ws != [] {
      var n := |ws| - 1;
      var before := LoadLines(LinesOf(HexText(ws[..n])));
      LoadWithoutAddress(ws[..n]);
      TextSnoc("", ws);
      assert "" + HexText(ws) == HexText(ws) && "" + HexText(ws[..n]) == HexText(ws[..n]);
      LoadMore(HexText(ws[..n]), ws[n]);
      if n == 0 {
        LoadWord(before, ws[n]);
      } else {
        FailedLine(NoAddress, HexLine(ws[n]));
      }
    }
  }

  lemma {:induction false} FailedLine(error: Result, line: string)
    ensures LoadLine(Failed(error), line) == Failed(error)
  {
  }
}
