/** The on-chip trace ring: its demo model and the readers of the hardware registers (server.py). */
module UramRing {
  import opened Commons
  import opened Modular
  import opened RingCells
  import opened Seqs

  type Byte = int

  function Floor4(n: nat): nat { n - n % 4 }
  function RoundUp4(n: nat): nat { Floor4(n + 3) }

  predicate Capacity(cap: nat) { cap > 0 && cap % 4 == 0 }

  lemma {:induction false} CellAligned(i: nat, cap: nat)
    requires Capacity(cap) && i % 4 == 0
    ensures Cell(i, cap) % 4 == 0 && Cell(i, cap) <= cap - 4
  {
    if i >= cap { CellAligned(i - cap, cap); }
  }

  /** Byte counter and ring cells of the simulated sink. */
  datatype State = State(traced: nat, cells: seq<Byte>)

  /** Four stream bytes from position i on, packed into the word at cell p. */
  function WriteWord(cells: seq<Byte>, i: nat, p: nat, stream: nat -> Byte): (r: seq<Byte>)
    ensures |r| == |cells|
  {
    seq(|cells|, k requires 0 <= k < |cells| => if p <= k < p + 4 then stream(i + (k - p)) else cells[k])
  }

  /** The ring cells after writing the words from lo up to hi. */
  function WriteWords(cells: seq<Byte>, lo: nat, hi: nat, stream: nat -> Byte, cap: nat): (r: seq<Byte>)
    requires cap > 0
    ensures |r| == |cells|
    decreases hi - lo
  {
    if lo >= hi then cells else WriteWords(WriteWord(cells, lo, Cell(lo, cap), stream), lo + 4, hi, stream, cap)
  }

  function Tick(s: State, burst: nat, oneShot: bool, stream: nat -> Byte, cap: nat): (r: State)
    requires cap > 0
    ensures |r.cells| == |s.cells|
  {
    var traced := if oneShot then Min(s.traced + burst, cap) else s.traced + burst;
    State(traced, WriteWords(s.cells, Floor4(s.traced), traced, stream, cap))
  }

  datatype Counters = Counters(bytes: nat, beats: nat, wrapped: bool)

  /** The simulated sink as the server keeps it. */
  class DemoRing {
    const stream: nat -> Byte
    const cap: nat
    const ring: array<Byte>
    var traced: nat
    /** trace_bytes, trace_beats and the wrapped bit of STATUS. */
    var counters: Counters

    constructor (stream: nat -> Byte, cap: nat, size: nat)
      requires Capacity(cap) && size >= cap
      ensures this.stream == stream && this.cap == cap && ring.Length == size && fresh(ring)
      ensures traced == 0 && counters == Counters(0, 0, false)
    {
      this.stream := stream;
      this.cap := cap;
      this.ring := new Byte[size];
      this.traced := 0;
      this.counters := Counters(0, 0, false);
    }

    function Abstract(): State
      reads this, ring
    {
      State(traced, ring[..])
    }

    /** The ring part of one simulation tick. */
    method Advance(burst: nat, oneShot: bool)
      requires Capacity(cap) && ring.Length >= cap
      modifies this, ring
      ensures Abstract() == Tick(old(Abstract()), burst, oneShot, stream, cap)
      ensures counters == Counters(traced, traced / 4, traced >= cap && !oneShot)
    {
      var before := traced;
      var after := traced + burst;
      if oneShot {
        after := Min(after, cap);
      }
      traced := after;
      StoreWords(Floor4(before), after);
      counters := Counters(traced, traced / 4, traced >= cap && !oneShot);
    }

    method StoreWords(start: nat, end: nat)
      requires Capacity(cap) && ring.Length >= cap && start % 4 == 0
      modifies ring
      ensures ring[..] == WriteWords(old(ring[..]), start, end, stream, cap)
    {
      var i := start;
      ghost var cells := ring[..];
      while i < end
        invariant i % 4 == 0
        invariant WriteWords(ring[..], i, end, stream, cap) == WriteWords(cells, start, end, stream, cap)
      {
        CellAligned(i, cap);
        StoreWord(i, Cell(i, cap));
        i := i + 4;
      }
    }

    /** One packed word. */
    method StoreWord(i: nat, p: nat)
      requires p + 4 <= ring.Length
      modifies ring
      ensures ring[..] == WriteWord(old(ring[..]), i, p, stream)
    {
      for d := 0 to 4
        invariant forall k :: 0 <= k < ring.Length ==>
          ring[k] == if p <= k < p + d then stream(i + (k - p)) else old(ring[k])
      {
        ring[p + d] := stream(i + d);
      }
    }

    method Clear()
      modifies this
      ensures Abstract() == State(0, old(ring[..])) && counters == Counters(0, 0, false)
    {
      traced, counters := 0, Counters(0, 0, false);
    }
  }

  // ---- What every run keeps -----------------------------------------------------------

  /** Counting back from cell p, the ring holds the stream backwards from `end`. */
  ghost predicate Backwards(cells: seq<Byte>, end: nat, p: nat, stream: nat -> Byte, cap: nat) {
    && p < cap <= |cells|
    && forall m :: 1 <= m <= cap && m <= end ==> cells[Behind(p, m, cap)] == stream(end - m)
  }

  ghost predicate Mirrors(cells: seq<Byte>, end: nat, stream: nat -> Byte, cap: nat) {
    Capacity(cap) && Backwards(cells, end, Cell(end, cap), stream, cap)
  }

  /** In the ring's own terms: cell j % cap holds stream byte j for the last `cap` positions below `end`. */
  lemma MirrorsMeans(cells: seq<Byte>, end: nat, stream: nat -> Byte, cap: nat, j: nat)
    requires Mirrors(cells, end, stream, cap) && end - cap <= j < end
    ensures 0 <= j % cap < cap && cells[j % cap] == stream(j)
  {
    CellStep(j, end - j, cap);
    CellIsMod(j, cap);
    assert cells[Behind(Cell(end, cap), end - j, cap)] == stream(end - (end - j));
  }

  lemma WordMirrors(cells: seq<Byte>, i: nat, p: nat, stream: nat -> Byte, cap: nat)
    requires Backwards(cells, i, p, stream, cap) && p + 4 <= cap
    ensures Backwards(WriteWord(cells, i, p, stream), i + 4, if p + 4 < cap then p + 4 else 0, stream, cap)
  {
    var r := WriteWord(cells, i, p, stream);
    var p' := if p + 4 < cap then p + 4 else 0;
    forall m | 1 <= m <= cap && m <= i + 4
      ensures r[Behind(p', m, cap)] == stream(i + 4 - m)
    {
      if m > 4 {
        assert Behind(p', m, cap) == Behind(p, m - 4, cap);
        assert cells[Behind(p, m - 4, cap)] == stream(i - (m - 4));
      } else {
        assert Behind(p', m, cap) == p + (4 - m);
      }
    }
  }

  lemma NextWordMirrors(cells: seq<Byte>, lo: nat, stream: nat -> Byte, cap: nat)
    requires Mirrors(cells, lo, stream, cap) && lo % 4 == 0
    ensures Mirrors(WriteWord(cells, lo, Cell(lo, cap), stream), lo + 4, stream, cap)
  {
    CellAligned(lo, cap);
    CellStep(lo, 4, cap);
    WordMirrors(cells, lo, Cell(lo, cap), stream, cap);
  }

  /** Where a run of words from lo that reaches hi ends. */
  function WordsEnd(lo: nat, hi: nat): nat { if lo < hi then RoundUp4(hi) else lo }

  lemma WordsEndStep(lo: nat, hi: nat)
    requires lo < hi && lo % 4 == 0
    ensures WordsEnd(lo + 4, hi) == WordsEnd(lo, hi)
  {
  }

  lemma {:induction false} WordsMirror(cells: seq<Byte>, lo: nat, hi: nat, stream: nat -> Byte, cap: nat)
    requires Mirrors(cells, lo, stream, cap) && lo % 4 == 0
    ensures Mirrors(WriteWords(cells, lo, hi, stream, cap), WordsEnd(lo, hi), stream, cap)
    decreases hi - lo
  {
    if lo < hi {
      NextWordMirrors(cells, lo, stream, cap);
      WordsEndStep(lo, hi);
      WordsMirror(WriteWord(cells, lo, Cell(lo, cap), stream), lo + 4, hi, stream, cap);
    }
  }

  /** What can happen to the ring: bursts of any size, and a clear that fixes the mode from then on. */
  datatype Action = Burst(bytes: nat) | Clear(oneShot: bool)

  datatype Run = Run(state: State, oneShot: bool)

  function After(start: Run, acts: seq<Action>, n: nat, stream: nat -> Byte, cap: nat): (r: Run)
    requires cap > 0 && n <= |acts|
    ensures |r.state.cells| == |start.state.cells|
  {
    if n == 0 then start else
      var p := After(start, acts, n - 1, stream, cap);
      match acts[n - 1]
      case Burst(b) => Run(Tick(p.state, b, p.oneShot, stream, cap), p.oneShot)
      case Clear(mode) => Run(State(0, p.state.cells), mode)
  }

  /** Bytes of all bursts since the last clear. */
  function SinceClear(acts: seq<Action>, n: nat): nat
    requires n <= |acts|
  {
    if n == 0 then 0 else
      match acts[n - 1]
      case Burst(b) => SinceClear(acts, n - 1) + b
      case Clear(_) => 0
  }

  /** The mode that the last clear fixed. */
  function ModeOf(mode: bool, acts: seq<Action>, n: nat): bool
    requires n <= |acts|
  {
    if n == 0 then mode else if acts[n - 1].Clear? then acts[n - 1].oneShot else ModeOf(mode, acts, n - 1)
  }

  /** The byte counter is what came since the last clear, in one-shot mode clipped at the capacity. */
  lemma {:induction false} EveryRunCounts(cells: seq<Byte>, mode: bool, acts: seq<Action>, n: nat,
                                          stream: nat -> Byte, cap: nat)
    requires cap > 0 && n <= |acts|
    ensures var r, oneShot := After(Run(State(0, cells), mode), acts, n, stream, cap), ModeOf(mode, acts, n);
      && r.oneShot == oneShot
      && r.state.traced == if oneShot then Min(SinceClear(acts, n), cap) else SinceClear(acts, n)
  {
    if n > 0 { EveryRunCounts(cells, mode, acts, n - 1, stream, cap); }
  }

  ghost predicate RingInvariant(r: Run, stream: nat -> Byte, cap: nat) {
    && Mirrors(r.state.cells, RoundUp4(r.state.traced), stream, cap)
    && (r.oneShot ==> r.state.traced <= cap)
  }

  /** From an empty ring with arbitrary cell contents, every reachable state mirrors the stream. */
  lemma {:induction false} EveryRunMirrors(cells: seq<Byte>, mode: bool, acts: seq<Action>, n: nat,
                                           stream: nat -> Byte, cap: nat)
    requires Capacity(cap) && |cells| >= cap && n <= |acts|
    ensures RingInvariant(After(Run(State(0, cells), mode), acts, n, stream, cap), stream, cap)
  {
    if n > 0 {
      EveryRunMirrors(cells, mode, acts, n - 1, stream, cap);
      var p := After(Run(State(0, cells), mode), acts, n - 1, stream, cap);
      if acts[n - 1].Burst? { TickMirrors(p.state, acts[n - 1].bytes, p.oneShot, stream, cap); }
    }
  }

  lemma Floor4Div(n: nat)
    ensures 4 * (n / 4) == Floor4(n) && Floor4(n) % 4 == 0
    ensures RoundUp4(n) == if n % 4 == 0 then n else Floor4(n) + 4
  {
  }

  lemma TickMirrors(s: State, burst: nat, oneShot: bool, stream: nat -> Byte, cap: nat)
    requires Mirrors(s.cells, RoundUp4(s.traced), stream, cap) && (oneShot ==> s.traced <= cap)
    ensures var t := Tick(s, burst, oneShot, stream, cap);
      Mirrors(t.cells, RoundUp4(t.traced), stream, cap) && (oneShot ==> t.traced <= cap) && t.traced >= s.traced
  {
    var t := Tick(s, burst, oneShot, stream, cap);
    WritesMirror(s.cells, s.traced, t.traced, stream, cap);
  }

  /** Switching to one-shot behind the capacity takes the counter back and leaves the wrong bytes in the ring. */
  lemma LateOneShotBreaks(s: State, burst: nat, stream: nat -> Byte, cap: nat)
    requires Mirrors(s.cells, RoundUp4(s.traced), stream, cap) && s.traced > cap
    requires forall j: nat :: j > 0 ==> stream(j) != stream(0)
    ensures Tick(s, burst, true, stream, cap) == State(cap, s.cells)
    ensures !Mirrors(s.cells, RoundUp4(cap), stream, cap)
  {
    RoundUp4Above(s.traced, cap);
    Floor4Above(s.traced, cap);
    var j := LaterByteAtZero(s.cells, RoundUp4(s.traced), stream, cap);
    FullMirrorAtZero(s.cells, stream, cap);
  }

  lemma RoundUp4Above(n: nat, cap: nat)
    requires n > cap && cap % 4 == 0
    ensures RoundUp4(n) > cap == RoundUp4(cap)
  {
    Floor4Div(n);
    Floor4Div(cap);
  }

  lemma LaterByteAtZero(cells: seq<Byte>, end: nat, stream: nat -> Byte, cap: nat) returns (j: nat)
    requires Mirrors(cells, end, stream, cap) && end > cap
    ensures j > 0 && cells[0] == stream(j)
  {
    var p := Cell(end, cap);
    var m := if p > 0 then p else cap;
    j := end - m;
    assert cells[Behind(p, m, cap)] == stream(end - m);
  }

  lemma FullMirrorAtZero(cells: seq<Byte>, stream: nat -> Byte, cap: nat)
    ensures Mirrors(cells, cap, stream, cap) ==> |cells| > 0 && cells[0] == stream(0)
  {
    if Mirrors(cells, cap, stream, cap) {
      assert Cell(cap, cap) == 0;
      assert cells[Behind(0, cap, cap)] == stream(cap - cap);
    }
  }

  lemma WritesMirror(cells: seq<Byte>, before: nat, after: nat, stream: nat -> Byte, cap: nat)
    requires Mirrors(cells, RoundUp4(before), stream, cap) && before <= after
    ensures Mirrors(WriteWords(cells, Floor4(before), after, stream, cap), RoundUp4(after), stream, cap)
  {
    Floor4Div(before);
    if before % 4 == 0 {
      RoundedEnd(before, after);
      WordsMirror(cells, before, after, stream, cap);
    } else {
      RewriteMirrors(cells, Floor4(before), after, stream, cap);
    }
  }

  lemma RoundedEnd(lo: nat, hi: nat)
    requires lo % 4 == 0 && lo <= hi
    ensures Floor4(lo) == lo && WordsEnd(lo, hi) == RoundUp4(hi)
  {
  }

  lemma RewriteMirrors(cells: seq<Byte>, lo: nat, after: nat, stream: nat -> Byte, cap: nat)
    requires Mirrors(cells, lo + 4, stream, cap) && lo % 4 == 0 && lo < after
    ensures Mirrors(WriteWords(cells, lo, after, stream, cap), RoundUp4(after), stream, cap)
  {
    WordRewrites(cells, lo, stream, cap);
    WordsEndStep(lo, after);
    WordsMirror(cells, lo + 4, after, stream, cap);
  }

  /** A tick rewrites the last partial word first, with the same stream bytes. */
  lemma WordRewrites(cells: seq<Byte>, lo: nat, stream: nat -> Byte, cap: nat)
    requires Mirrors(cells, lo + 4, stream, cap) && lo % 4 == 0
    ensures WriteWord(cells, lo, Cell(lo, cap), stream) == cells
  {
    var p := Cell(lo, cap);
    CellAligned(lo, cap);
    CellStep(lo, 4, cap);
    forall k | p <= k < p + 4
      ensures WriteWord(cells, lo, p, stream)[k] == cells[k]
    {
      assert cells[Behind(Cell(lo + 4, cap), p + 4 - k, cap)] == stream(lo + 4 - (p + 4 - k));
    }
  }

  // ---- The readers of the hardware registers ---------------------------------------------

  /** The counters of the sink: bytes, 32-bit beats, and the ring capacity. */
  datatype Regs = Regs(bytes: nat, beats: nat, size: nat)

  /** `count` words from byte offset `off` on, as their little-endian bytes. */
  function ReadWords(cells: seq<Byte>, off: nat, count: nat): seq<Byte>
    requires off + 4 * count <= |cells|
  {
    cells[off..off + 4 * count]
  }

  /** uram_dump, the specification: the last min(traced, cap) stream bytes. */
  function Newest(stream: nat -> Byte, traced: nat, n: nat): seq<Byte>
    requires n <= traced
  {
    seq(n, i requires 0 <= i < n => stream(traced - n + i))
  }

  /** The write position in the ring, from the beat counter. */
  function WritePos(k: Regs): (wr: nat)
    requires Capacity(k.size)
    ensures wr % 4 == 0 && wr <= k.size - 4
  {
    Cell(k.beats, k.size / 4) * 4
  }

  /** The hardware branch of dump_bytes for the on-chip ring. */
  function DumpUram(cells: seq<Byte>, k: Regs): seq<Byte>
    requires Capacity(k.size) && |cells| >= k.size
  {
    DumpFrom(cells, k.bytes, k.size, WritePos(k))
  }

  function DumpFrom(cells: seq<Byte>, bytes: nat, size: nat, wr: nat): seq<Byte>
    requires Capacity(size) && |cells| >= size && wr % 4 == 0 && wr < size
  {
    if bytes > size then ReadWords(cells, wr, (size - wr) / 4) + ReadWords(cells, 0, wr / 4)
    else Slice(ReadWords(cells, 0, (bytes + 3) / 4), 0, bytes)
  }

  /** The last `want` bytes of the ring. */
  function TraceTail(cells: seq<Byte>, k: Regs, want: nat): seq<Byte>
    requires Capacity(k.size) && |cells| >= k.size
  {
    var held := Min(k.bytes, k.size);
    var n := Min(want, held);
    if n == 0 then [] else TailFrom(cells, k.size, TailStart(k.bytes, k.size, WritePos(k), n), n)
  }

  function TailStart(bytes: nat, size: nat, wr: nat, n: nat): (start: nat)
    requires wr < size && n <= Min(bytes, size)
  {
    if bytes > size then (wr - n) % size else Min(bytes, size) - n
  }

  /** Whole words around the wanted bytes, trimmed; the remainder comes from the ring start. */
  function TailFrom(cells: seq<Byte>, size: nat, start: nat, n: nat): seq<Byte>
    requires Capacity(size) && |cells| >= size && start < size && n <= size
  {
    var a0 := Floor4(start);
    var n0 := Min(n + (start - a0), size - a0);
    var raw := Slice(ReadWords(cells, a0, (n0 + 3) / 4), start - a0, start - a0 + n);
    if |raw| < n then
      var rem := n - |raw|;
      raw + Slice(ReadWords(cells, 0, (rem + 3) / 4), 0, rem)
    else raw
  }

  lemma WritePosIsCell(k: Regs)
    requires Capacity(k.size)
    ensures WritePos(k) == Cell(4 * k.beats, k.size)
  {
    CellOfWord(k.beats, k.size / 4);
  }

  lemma {:induction false} CellOfWord(beats: nat, words: nat)
    requires words > 0
    ensures Cell(4 * beats, 4 * words) == 4 * Cell(beats, words)
  {
    if beats >= words { CellOfWord(beats - words, words); }
  }

  /** n ring cells from cell c on, cyclically. */
  function Around(cells: seq<Byte>, c: nat, n: nat, cap: nat): seq<Byte>
    requires c < cap <= |cells| && n <= cap
  {
    seq(n, i requires 0 <= i < n => cells[if c + i < cap then c + i else c + i - cap])
  }

  /** Reading on from the cell n positions behind the end gives the newest n bytes. */
  lemma AroundIsNewest(cells: seq<Byte>, end: nat, p: nat, stream: nat -> Byte, cap: nat, n: nat)
    requires Backwards(cells, end, p, stream, cap) && n <= end && 0 < n <= cap
    ensures 0 <= Behind(p, n, cap) < cap
    ensures Around(cells, Behind(p, n, cap), n, cap) == Newest(stream, end, n)
  {
    var c := Behind(p, n, cap);
    forall i | 0 <= i < n
      ensures Around(cells, c, n, cap)[i] == Newest(stream, end, n)[i]
    {
      assert cells[Behind(p, n - i, cap)] == stream(end - (n - i));
    }
  }

  /** A ring that has not wrapped starts at cell 0. */
  lemma Unwrapped(cells: seq<Byte>, end: nat, stream: nat -> Byte, cap: nat)
    requires Mirrors(cells, end, stream, cap) && end <= cap
    ensures forall j :: 0 <= j < end ==> cells[j] == stream(j)
  {
    forall j | 0 <= j < end
      ensures cells[j] == stream(j)
    {
      MirrorsMeans(cells, end, stream, cap, j);
      ModSmall(j, cap);
    }
  }

  /** When the bytes in the ring are in step with the word counter the registers describe. */
  predicate InStep(k: Regs) { k.beats == k.bytes / 4 && (k.bytes <= k.size || k.bytes % 4 == 0) }

  /** In step and wrapped, the mirror counts back from the write position. */
  lemma MirrorAtWritePos(cells: seq<Byte>, k: Regs, stream: nat -> Byte)
    requires Mirrors(cells, RoundUp4(k.bytes), stream, k.size) && InStep(k) && k.bytes > k.size
    ensures Backwards(cells, k.bytes, WritePos(k), stream, k.size)
  {
    Floor4Div(k.bytes);
    WritePosIsCell(k);
  }

  /** The hardware dump equals the specification. */
  lemma DumpIsNewest(cells: seq<Byte>, k: Regs, stream: nat -> Byte)
    requires Mirrors(cells, RoundUp4(k.bytes), stream, k.size) && InStep(k)
    ensures DumpUram(cells, k) == Newest(stream, k.bytes, Min(k.bytes, k.size))
  {
    if k.bytes > k.size {
      MirrorAtWritePos(cells, k, stream);
      AroundIsNewest(cells, k.bytes, WritePos(k), stream, k.size, k.size);
      DumpGoesAround(cells, k.bytes, k.size, WritePos(k));
    } else {
      UnwrappedDump(cells, k.bytes, k.size, WritePos(k), stream);
    }
  }

  lemma DumpGoesAround(cells: seq<Byte>, bytes: nat, size: nat, wr: nat)
    requires Capacity(size) && |cells| >= size && wr % 4 == 0 && wr < size && bytes > size
    ensures DumpFrom(cells, bytes, size, wr) == Around(cells, wr, size, size)
  {
  }

  lemma UnwrappedDump(cells: seq<Byte>, bytes: nat, size: nat, wr: nat, stream: nat -> Byte)
    requires Mirrors(cells, RoundUp4(bytes), stream, size) && bytes <= size && wr % 4 == 0 && wr < size
    ensures DumpFrom(cells, bytes, size, wr) == Newest(stream, bytes, bytes)
  {
    Unwrapped(cells, RoundUp4(bytes), stream, size);
  }

  /** The cap cuts the dump down to its last bytes. */
  function Capped(raw: seq<Byte>, cap: nat): seq<Byte> {
    if cap > 0 && |raw| > cap then raw[|raw| - cap..] else raw
  }

  lemma CappedDumpIsNewest(cells: seq<Byte>, k: Regs, stream: nat -> Byte, cap: nat)
    requires Mirrors(cells, RoundUp4(k.bytes), stream, k.size) && InStep(k)
    ensures var held := Min(k.bytes, k.size);
      Capped(DumpUram(cells, k), cap) == Newest(stream, k.bytes, if cap > 0 then Min(cap, held) else held)
  {
    DumpIsNewest(cells, k, stream);
  }

  ghost predicate DistinctBytes(stream: nat -> Byte) {
    forall i: nat, j: nat :: i < j ==> stream(i) != stream(j)
  }

  /** The dump is the specification exactly when it has not wrapped or ends on a whole beat. */
  lemma DumpExact(cells: seq<Byte>, k: Regs, stream: nat -> Byte)
    requires Mirrors(cells, RoundUp4(k.bytes), stream, k.size) && k.beats == k.bytes / 4 && DistinctBytes(stream)
    ensures DumpUram(cells, k) == Newest(stream, k.bytes, Min(k.bytes, k.size)) <==>
      k.bytes <= k.size || k.bytes % 4 == 0
  {
    if k.bytes <= k.size || k.bytes % 4 == 0 {
      DumpIsNewest(cells, k, stream);
    } else {
      DumpOutOfStep(cells, k, stream);
      Floor4Div(k.bytes);
      assert Newest(stream, k.bytes, k.size)[0] == stream(k.bytes - k.size);
      assert DumpUram(cells, k)[0] == stream(Floor4(k.bytes) + 0);
    }
  }

  /** Once wrapped, a byte count that is not a whole number of beats puts the newest word first. */
  lemma DumpOutOfStep(cells: seq<Byte>, k: Regs, stream: nat -> Byte)
    requires Mirrors(cells, RoundUp4(k.bytes), stream, k.size) && k.beats == k.bytes / 4
    requires k.bytes > k.size && k.bytes % 4 != 0
    ensures var d, f := DumpUram(cells, k), Floor4(k.bytes);
      && |d| == k.size
      && (forall i :: 0 <= i < 4 ==> d[i] == stream(f + i))
      && (forall i :: 4 <= i < k.size ==> d[i] == stream(f - k.size + i))
  {
    OutOfStepMirror(cells, k, stream);
    DumpGoesAround(cells, k.bytes, k.size, WritePos(k));
    NewestWordFirst(cells, Floor4(k.bytes), WritePos(k), stream, k.size);
  }

  lemma NewestWordFirst(cells: seq<Byte>, f: nat, wr: nat, stream: nat -> Byte, cap: nat)
    requires Capacity(cap) && wr % 4 == 0 && wr < cap <= f + 4
    requires Backwards(cells, f + 4, Next4(wr, cap), stream, cap)
    ensures var d := Around(cells, wr, cap, cap);
      forall i :: 0 <= i < cap ==> d[i] == stream(if i < 4 then f + i else f - cap + i)
  {
    var p := Next4(wr, cap);
    forall i | 0 <= i < cap
      ensures Around(cells, wr, cap, cap)[i] == stream(if i < 4 then f + i else f - cap + i)
    {
      var m := if i < 4 then 4 - i else cap + 4 - i;
      assert cells[Behind(p, m, cap)] == stream(f + 4 - m);
    }
  }

  /** The tail is the last min(n, held) bytes of the dump. */
  lemma TailIsNewest(cells: seq<Byte>, k: Regs, stream: nat -> Byte, want: nat)
    requires Mirrors(cells, RoundUp4(k.bytes), stream, k.size) && InStep(k)
    ensures TraceTail(cells, k, want) == Newest(stream, k.bytes, Min(want, Min(k.bytes, k.size)))
  {
    var n := Min(want, Min(k.bytes, k.size));
    if n > 0 {
      var start := TailStart(k.bytes, k.size, WritePos(k), n);
      TailStartIsBehind(k.bytes, k.size, WritePos(k), n);
      TailGoesAround(cells, k.size, start, n);
      if k.bytes > k.size {
        MirrorAtWritePos(cells, k, stream);
        AroundIsNewest(cells, k.bytes, WritePos(k), stream, k.size, n);
      } else {
        UnwrappedTail(cells, k.bytes, k.size, stream, n);
      }
    }
  }

  /** n bytes up to position f; of the ones that lie a whole ring back the newer word at their place. */
  function WholeWordTail(stream: nat -> Byte, f: nat, n: nat, cap: nat): seq<Byte>
    requires 4 <= cap <= f && n <= cap
  {
    seq(n, i requires 0 <= i < n => stream(if n - i <= cap - 4 then f - n + i else f + cap - n + i))
  }

  /** Out of step the tail ends at the last whole word, and a long one starts with the word behind it. */
  lemma TailOutOfStep(cells: seq<Byte>, k: Regs, stream: nat -> Byte, want: nat)
    requires Mirrors(cells, RoundUp4(k.bytes), stream, k.size) && k.beats == k.bytes / 4
    requires k.bytes > k.size && k.bytes % 4 != 0
    ensures k.size <= Floor4(k.bytes)
    ensures TraceTail(cells, k, want) == WholeWordTail(stream, Floor4(k.bytes), Min(want, k.size), k.size)
  {
    var f, wr := Floor4(k.bytes), WritePos(k);
    OutOfStepMirror(cells, k, stream);
    if want > 0 {
      WrappedTail(cells, k, want, Min(want, k.size));
      AroundWholeWords(cells, f, wr, Next4(wr, k.size), stream, k.size, Min(want, k.size));
    } else {
      NoTail(cells, k, stream, f);
    }
  }

  lemma NoTail(cells: seq<Byte>, k: Regs, stream: nat -> Byte, f: nat)
    requires Capacity(k.size) && |cells| >= k.size && k.size <= f
    ensures TraceTail(cells, k, 0) == WholeWordTail(stream, f, 0, k.size)
  {
  }

  /** The word behind the one at wr, cyclically. */
  function Next4(wr: nat, cap: nat): nat { if wr + 4 < cap then wr + 4 else 0 }

  /** Out of step the mirror counts back from the word behind the write position. */
  lemma OutOfStepMirror(cells: seq<Byte>, k: Regs, stream: nat -> Byte)
    requires Mirrors(cells, RoundUp4(k.bytes), stream, k.size) && k.beats == k.bytes / 4
    requires k.bytes > k.size && k.bytes % 4 != 0
    ensures var f, wr := Floor4(k.bytes), WritePos(k);
      k.size <= f && Backwards(cells, f + 4, Next4(wr, k.size), stream, k.size)
  {
    Floor4Div(k.bytes);
    Floor4Above(k.bytes, k.size);
    WritePosIsCell(k);
    CellStep(Floor4(k.bytes), 4, k.size);
  }

  lemma Floor4Above(n: nat, cap: nat)
    requires n > cap && cap % 4 == 0
    ensures Floor4(n) >= cap
  {
  }

  lemma WrappedTail(cells: seq<Byte>, k: Regs, want: nat, n: nat)
    requires Capacity(k.size) && |cells| >= k.size && k.bytes > k.size && 0 < n == Min(want, k.size)
    ensures 0 <= Behind(WritePos(k), n, k.size) < k.size
    ensures TraceTail(cells, k, want) == Around(cells, Behind(WritePos(k), n, k.size), n, k.size)
  {
    TailStartIsBehind(k.bytes, k.size, WritePos(k), n);
    TailGoesAround(cells, k.size, Behind(WritePos(k), n, k.size), n);
  }

  lemma AroundWholeWords(cells: seq<Byte>, f: nat, wr: nat, p: nat, stream: nat -> Byte, cap: nat, n: nat)
    requires 4 <= cap <= f && wr < cap && wr + 4 <= cap && 0 < n <= cap <= |cells| && p == Next4(wr, cap)
    requires Backwards(cells, f + 4, p, stream, cap)
    ensures 0 <= Behind(wr, n, cap) < cap
    ensures Around(cells, Behind(wr, n, cap), n, cap) == WholeWordTail(stream, f, n, cap)
  {
    forall i | 0 <= i < n
      ensures Around(cells, Behind(wr, n, cap), n, cap)[i] == WholeWordTail(stream, f, n, cap)[i]
    {
      var m := if n - i <= cap - 4 then n - i + 4 else n - i + 4 - cap;
      assert cells[Behind(p, m, cap)] == stream(f + 4 - m);
      AroundAt(wr, n, i, m, cap);
    }
  }

  /** Cell i of the tail, counted back from the word behind the write position. */
  lemma AroundAt(wr: nat, n: nat, i: nat, m: nat, cap: nat)
    requires 4 <= cap && wr + 4 <= cap && i < n <= cap
    requires m == if n - i <= cap - 4 then n - i + 4 else n - i + 4 - cap
    ensures var c := Behind(wr, n, cap); (if c + i < cap then c + i else c + i - cap) == Behind(Next4(wr, cap), m, cap)
  {
  }

  lemma UnwrappedTail(cells: seq<Byte>, bytes: nat, size: nat, stream: nat -> Byte, n: nat)
    requires Mirrors(cells, RoundUp4(bytes), stream, size) && bytes <= size && 0 < n <= bytes
    ensures Around(cells, bytes - n, n, size) == Newest(stream, bytes, n)
  {
    Floor4Div(bytes);
    Unwrapped(cells, RoundUp4(bytes), stream, size);
  }

  lemma TailStartIsBehind(bytes: nat, size: nat, wr: nat, n: nat)
    requires wr < size && n <= Min(bytes, size)
    ensures TailStart(bytes, size, wr, n) == if bytes > size then Behind(wr, n, size) else bytes - n
  {
    ModBack(wr, n, size);
    ModSmall(wr, size);
  }

  /** Word-wise reading and trimming deliver exactly the n cells from the start cell on. */
  lemma TailGoesAround(cells: seq<Byte>, size: nat, start: nat, n: nat)
    requires Capacity(size) && |cells| >= size && start < size && n <= size
    ensures TailFrom(cells, size, start, n) == Around(cells, start, n, size)
  {
    if start + n <= size {
      WordSlice(cells, size, start, n);
      assert cells[start..start + n] == Around(cells, start, n, size);
    } else {
      TailWraps(cells, size, start, n);
    }
  }

  lemma TailWraps(cells: seq<Byte>, size: nat, start: nat, n: nat)
    requires Capacity(size) && |cells| >= size && start < size && n <= size < start + n
    ensures TailFrom(cells, size, start, n) == Around(cells, start, n, size)
  {
    var a0, rem := Floor4(start), start + n - size;
    HeadWords(cells, size, start, n);
    WordSlice(cells, size, 0, rem);
    TailTogether(cells, size, start, n);
  }

  lemma WordsTo(a: nat, size: nat)
    requires a <= size && a % 4 == 0 && size % 4 == 0
    ensures a + 4 * ((size - a + 3) / 4) == size
  {
    assert size - a == 4 * ((size - a) / 4);
  }

  lemma HeadWords(cells: seq<Byte>, size: nat, start: nat, n: nat)
    requires Capacity(size) && |cells| >= size && start < size && n <= size < start + n
    ensures var a0 := Floor4(start);
      Min(n + (start - a0), size - a0) == size - a0 &&
      Slice(ReadWords(cells, a0, (size - a0 + 3) / 4), start - a0, start - a0 + n) == cells[start..size]
  {
    var a0 := Floor4(start);
    Floor4Div(start);
    WordsTo(a0, size);
    SliceOfSlice(cells, a0, size, start, n);
  }

  lemma TailTogether(cells: seq<Byte>, size: nat, start: nat, n: nat)
    requires size <= |cells| && start < size && n <= size < start + n
    ensures cells[start..size] + cells[0..start + n - size] == Around(cells, start, n, size)
  {
    var both := cells[start..size] + cells[0..start + n - size];
    forall i | 0 <= i < n
      ensures both[i] == Around(cells, start, n, size)[i]
    {
    }
  }

  /** Reading the whole words that cover [start, start + n) and trimming them is exact. */
  lemma WordSlice(cells: seq<Byte>, size: nat, start: nat, n: nat)
    requires Capacity(size) && |cells| >= size && start + n <= size
    ensures var a0 := Floor4(start);
      && a0 + 4 * ((n + (start - a0) + 3) / 4) <= size
      && Slice(ReadWords(cells, a0, (n + (start - a0) + 3) / 4), start - a0, start - a0 + n) == cells[start..start + n]
  {
    var a0 := Floor4(start);
    var w := (n + (start - a0) + 3) / 4;
    assert a0 + 4 * w <= size;
    SliceOfSlice(cells, a0, a0 + 4 * w, start, n);
  }

  /** A slice of a slice, clipped at the end of the outer one. */
  lemma SliceOfSlice(cells: seq<Byte>, a: nat, b: nat, start: nat, n: nat)
    requires a <= start <= b <= |cells|
    ensures Slice(cells[a..b], start - a, start - a + n) == cells[start..Min(start + n, b)]
  {
    SubSlice(cells, a, b, start - a, Min(start + n, b) - a);
  }
}
