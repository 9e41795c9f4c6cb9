/** The chronological dump of the DDR trace sink (examples/dashboard/server.py). */
module DdrDump {
  import opened Commons
  import opened Modular

  /** What a physical read yields: bytes, or the error of an empty mapping. */
  datatype Read<T> = Data(data: seq<T>) | MapError

  /** The memory cells [addr, addr + n). */
  function Cells<T>(mem: nat -> T, addr: nat, n: nat): seq<T> {
    seq(n, i requires 0 <= i < n => mem(addr + i))
  }

  /** Up to the next multiple of 16, and of the page size. */
  function UpTo16(v: int): (r: int)
    ensures v <= r
  {
    v + 15 - (v + 15) % 16
  }

  function UpToPage(v: int): int { v + 0xFFF - (v + 0xFFF) % 0x1000 }

  lemma UpTo16Least(v: int, k: int)
    requires v <= 16 * k
    ensures v <= UpTo16(v) <= 16 * k
  {
    var q, r := (v + 15) / 16, (v + 15) % 16;
    assert v + 15 == 16 * q + r;
    assert q <= k;
  }

  lemma UpToPageLeast(v: int) returns (k: int)
    ensures UpToPage(v) == 16 * k && v <= UpToPage(v) < v + 0x1000
  {
    var q, r := (v + 0xFFF) / 0x1000, (v + 0xFFF) % 0x1000;
    assert v + 0xFFF == 0x1000 * q + r;
    k := 0x100 * q;
  }

  lemma EmptyPage(v: int)
    ensures UpToPage(v) > 0 <==> v > 0
  {
    var q, r := (v + 0xFFF) / 0x1000, (v + 0xFFF) % 0x1000;
    assert v + 0xFFF == 0x1000 * q + r && UpToPage(v) == 0x1000 * q;
  }

  /** Map whole pages from the page boundary below, copy up to a 16-byte edge, trim. */
  function PhysRead<T>(mem: nat -> T, addr: nat, n: int): Read<T> {
    var off := addr % 0x1000;
    var mlen := UpToPage(off + n);
    EmptyPage(off + n);
    if mlen <= 0 then MapError else Copied(mem, addr - off, mlen, UpTo16(off + n), off, n)
  }

  function Copied<T>(mem: nat -> T, page: nat, mlen: nat, span: nat, off: nat, n: int): Read<T>
    requires off + n > 0
  {
    var raw := Slice(Cells(mem, page, mlen), 0, span);
    Data(Slice(raw, off, off + n))
  }

  lemma CopiedExact<T>(mem: nat -> T, page: nat, mlen: nat, span: nat, off: nat, n: int)
    requires 0 < off + n <= span <= mlen
    ensures n > 0 ==> Copied(mem, page, mlen, span, off, n) == Data(Cells(mem, page + off, n))
    ensures n <= 0 ==> Copied(mem, page, mlen, span, off, n) == Data([])
  {
    if n > 0 {
      var raw := Cells(mem, page, mlen)[0..span];
      assert raw[off..off + n] == Cells(mem, page + off, n);
    }
  }

  /** The read is exact through all the rounding; only an empty mapping fails. */
  lemma PhysReadExact<T>(mem: nat -> T, addr: nat, n: int)
    ensures n > 0 ==> PhysRead(mem, addr, n) == Data(Cells(mem, addr, n))
    ensures n <= 0 ==> PhysRead(mem, addr, n) == if addr % 0x1000 + n > 0 then Data([]) else MapError
  {
    var off := addr % 0x1000;
    var k := UpToPageLeast(off + n);
    UpTo16Least(off + n, k);
    PageStart(addr);
    EmptyPage(off + n);
    if off + n > 0 { CopiedExact(mem, addr - off, UpToPage(off + n), UpTo16(off + n), off, n); }
  }

  lemma PageStart(addr: nat)
    ensures 0 <= addr % 0x1000 <= addr
  {
  }

  /** The bus the dump reads through; what it has to deliver is what PhysReadExact shows. */
  type Reader<T> = (nat, int) -> Read<T>

  ghost predicate Exact<T>(read: Reader<T>, mem: nat -> T) {
    forall addr: nat, n: int :: read(addr, n) ==
      if n > 0 then Data(Cells(mem, addr, n)) else if addr % 0x1000 + n > 0 then Data([]) else MapError
  }

  lemma HardwareReader<T>(mem: nat -> T)
    ensures Exact((addr: nat, n: int) => PhysRead(mem, addr, n), mem)
  {
    forall addr: nat, n: int { PhysReadExact(mem, addr, n); }
  }

  /** The registers of the sink; `wptr` counts every accepted byte. */
  datatype Sink = Sink(base: nat, size: nat, wptr: nat, circular: bool, wrapped: bool)

  datatype Dump<T> =
    | Dump(raw: seq<T>, available: nat, returned: nat, capped: bool)
    | DumpFailed

  function Join<T>(a: Read<T>, b: Read<T>): Read<T> {
    if a.Data? && b.Data? then Data(a.data + b.data) else MapError
  }

  function Done<T>(r: Read<T>, available: nat): Dump<T> {
    match r
    case Data(raw) => Dump(raw, available, |raw|, |raw| < available)
    case MapError => DumpFailed
  }

  /** Up to the 32-byte burst edge. */
  function AlignUp(v: int): int { v + 31 - (v + 31) % 32 }

  lemma AlignUpExact(v: int)
    ensures AlignUp(v) % 32 == 0 && v <= AlignUp(v) <= v + 31
  {
  }

  function WindowStart(off: nat, n: nat, size: nat): nat
    requires size > 0
  {
    AlignUp((off - n) % size) % size
  }

  /** dump_bytes for the DDR sink; cap 0 means uncapped. */
  function DumpDdr<T>(read: Reader<T>, k: Sink, cap: nat): Dump<T> {
    var held := Min(k.wptr, k.size);
    if held == 0 then Done(Data([]), 0)
    else
      var n := if cap > 0 then Min(held, cap) else held;
      if k.circular && k.wrapped then
        var off := k.wptr % k.size;
        if n >= held then
          Done(Join(read(k.base + off, k.size - off), read(k.base, off)), held)
        else
          var start := WindowStart(off, n, k.size);
          var d := (off - start) % k.size;
          var m := if d != 0 then d else n;
          if start + m <= k.size then Done(read(k.base + start, m), held)
          else Done(Join(read(k.base + start, k.size - start),
                         read(k.base, m - (k.size - start))), held)
      else if n >= held then Done(read(k.base, held), held)
      else
        var start := AlignUp(held - n);
        Done(read(k.base + start, held - start), held)
  }

  // ---- The stream behind the memory -------------------------------------------------

  function Held(k: Sink): nat { Min(k.wptr, k.size) }

  /** The registers are consistent: only a circular sink wraps, and only when it is full. */
  predicate SinkState(k: Sink) {
    && k.size > 0
    && (k.wrapped ==> k.circular && k.wptr >= k.size)
    && (!k.wrapped ==> k.wptr <= k.size)
  }

  /** The memory holds stream byte j at base + j % size for every byte still held. */
  ghost predicate Holds<T>(mem: nat -> T, k: Sink, stream: seq<T>) {
    && SinkState(k) && k.wptr == |stream|
    && forall j :: |stream| - Held(k) <= j < |stream| ==> mem(k.base + j % k.size) == stream[j]
  }

  function Newest<T>(stream: seq<T>, n: nat): seq<T>
    requires n <= |stream|
  {
    stream[|stream| - n..]
  }

  /**
   * What the dump promises: all held bytes in chronological order when that fits the cap,
   * otherwise the newest ones, at most `cap` and at most 31 fewer.
   */
  ghost predicate Meets<T>(d: Dump<T>, k: Sink, stream: seq<T>, cap: nat)
    requires |stream| == k.wptr
  {
    && d.Dump? && d.available == Held(k) && d.returned == |d.raw| && (d.capped <==> |d.raw| < Held(k))
    && if cap == 0 || cap >= Held(k) then d.raw == Newest(stream, Held(k))
       else cap - 31 <= |d.raw| <= cap && d.raw == Newest(stream, |d.raw|)
  }

  /** How far the capped window start is rounded up. */
  function Gap(k: Sink, cap: nat): nat
    requires SinkState(k)
  {
    var v := if k.wrapped then (k.wptr - cap) % k.size else Held(k) - cap;
    AlignUp(v) - v
  }

  /** The condition under which the promise is kept, computable from the registers and the cap. */
  predicate Deliverable(k: Sink, cap: nat)
    requires SinkState(k)
  {
    var held := Held(k);
    if held == 0 then true
    else if k.wrapped then
      if cap == 0 || cap >= held then k.wptr % k.size != 0 || k.base % 0x1000 != 0
      else 0 < (cap - Gap(k, cap)) % k.size <= cap
    else
      cap == 0 || cap >= held || (k.base + held - cap + Gap(k, cap)) % 0x1000 + cap - Gap(k, cap) > 0
  }

  // ---- Reading out of the ring -------------------------------------------------------

  /** Cell number i counted from the m-th newest byte, cyclically. */
  lemma CellOf<T>(mem: nat -> T, k: Sink, stream: seq<T>, m: nat, i: nat)
    requires Holds(mem, k, stream) && i < m <= Held(k)
    ensures var c := (|stream| - m) % k.size;
      mem(k.base + Wrap(c + i, k.size)) == stream[|stream| - m + i]
  {
    ModStep(|stream| - m, i, k.size);
  }

  /** A read of n bytes from ring cell c on, in one piece or in two. */
  function ReadRing<T>(read: Reader<T>, k: Sink, c: nat, n: int): Read<T> {
    if c + n <= k.size then read(k.base + c, n)
    else Join(read(k.base + c, k.size - c), read(k.base, n - (k.size - c)))
  }

  /** The n bytes starting at the m-th newest. */
  lemma RingRead<T>(read: Reader<T>, mem: nat -> T, k: Sink, stream: seq<T>, m: nat, n: nat)
    requires Exact(read, mem) && Holds(mem, k, stream) && 0 < n <= m <= Held(k)
    ensures 0 <= (|stream| - m) % k.size < k.size
    ensures ReadRing(read, k, (|stream| - m) % k.size, n) == Data(stream[|stream| - m..|stream| - m + n])
  {
    var c := (|stream| - m) % k.size;
    var want := stream[|stream| - m..|stream| - m + n];
    forall i | 0 <= i < n
      ensures mem(k.base + Wrap(c + i, k.size)) == want[i]
    {
      CellOf(mem, k, stream, m, i);
    }
    CellsRead(read, mem, k, c, want);
  }

  /** A position past the end of the ring, once around. */
  function Wrap(i: nat, size: nat): nat { if i < size then i else i - size }

  lemma CellsRead<T>(read: Reader<T>, mem: nat -> T, k: Sink, c: nat, want: seq<T>)
    requires Exact(read, mem) && c < k.size && 0 < |want| <= k.size
    requires forall i :: 0 <= i < |want| ==> mem(k.base + Wrap(c + i, k.size)) == want[i]
    ensures ReadRing(read, k, c, |want|) == Data(want)
  {
    var n := |want|;
    if c + n <= k.size {
      assert Cells(mem, k.base + c, n) == want;
    } else {
      var h := k.size - c;
      assert Cells(mem, k.base + c, h) == want[..h];
      var tail := want[h..];
      forall i | 0 <= i < |tail|
        ensures mem(k.base + i) == tail[i]
      {
        assert Wrap(c + (h + i), k.size) == i;
      }
      assert Cells(mem, k.base, n - h) == tail;
      assert want == want[..h] + tail;
    }
  }

  lemma WrappedUncapped<T>(read: Reader<T>, mem: nat -> T, k: Sink, stream: seq<T>, cap: nat)
    requires Exact(read, mem) && Holds(mem, k, stream) && k.wrapped && (cap == 0 || cap >= k.size)
    ensures DumpDdr(read, k, cap) ==
      if k.wptr % k.size == 0 && k.base % 0x1000 == 0 then DumpFailed
      else Dump(Newest(stream, k.size), k.size, k.size, false)
  {
    ModBack(k.wptr, k.size, k.size);
    RingRead(read, mem, k, stream, k.size, k.size);
    var off := k.wptr % k.size;
    assert off == 0 ==> read(k.base, off) == if k.base % 0x1000 > 0 then Data([]) else MapError;
    assert stream[|stream| - k.size..|stream|] == Newest(stream, k.size);
    assert off == 0 && k.base % 0x1000 > 0 ==> Newest(stream, k.size) + [] == Newest(stream, k.size);
  }

  /** Where the capped window starts, and how long the code makes it. */
  lemma CappedWindow(k: Sink, cap: nat)
    requires SinkState(k) && k.wrapped && 0 < cap < k.size
    ensures var off, r := k.wptr % k.size, (cap - Gap(k, cap)) % k.size;
      var start := WindowStart(off, cap, k.size);
      && 0 <= Gap(k, cap) <= 31
      && (off - start) % k.size == r
      && start == (if r != 0 then (k.wptr - r) % k.size else (k.wptr - k.size) % k.size)
  {
    GapShift(k, cap);
    var start := WindowStart(k.wptr % k.size, cap, k.size);
    StartOffset(k.wptr, k.wptr - cap, Gap(k, cap), cap - Gap(k, cap), k.size, start);
  }

  lemma GapShift(k: Sink, cap: nat)
    requires SinkState(k) && k.wrapped
    ensures 0 <= Gap(k, cap) <= 31
    ensures WindowStart(k.wptr % k.size, cap, k.size) == ((k.wptr - cap) % k.size + Gap(k, cap)) % k.size
  {
    OffsetShift(k.wptr, cap, k.size);
  }

  lemma OffsetShift(t: int, c: int, size: int)
    requires size > 0
    ensures (t % size - c) % size == (t - c) % size
  {
    ModAddLeft(t, -c, size);
  }

  lemma StartOffset(t: int, p: int, g: int, e: int, size: int, start: int)
    requires size > 0 && t - (p + g) == e && start == (p % size + g) % size
    ensures (t % size - start) % size == e % size
    ensures start == if e % size != 0 then (t - e % size) % size else (t - size) % size
  {
    ModAddLeft(p, g, size);
    OffsetBack(t, p + g, e, size);
    StartBack(t, p + g, e, size);
  }

  lemma OffsetBack(t: int, u: int, e: int, size: int)
    requires size > 0 && t - u == e
    ensures (t % size - u % size) % size == e % size
  {
    ModSub(t, u, size);
  }

  lemma StartBack(t: int, u: int, e: int, size: int)
    requires size > 0 && t - u == e
    ensures u % size == if e % size != 0 then (t - e % size) % size else (t - size) % size
  {
    assert u == t - e;
    ModSubRight(t, e, size);
    ModBack(t, size, size);
  }

  /** The ring read that the capped dump of a wrapped ring amounts to. */
  lemma CappedRead<T>(read: Reader<T>, k: Sink, cap: nat)
    requires SinkState(k) && k.wrapped && 0 < cap < k.size
    ensures var r := (cap - Gap(k, cap)) % k.size;
      var m, n := if r != 0 then r else k.size, if r != 0 then r else cap;
      && 0 < n <= m <= k.size && 0 <= (k.wptr - m) % k.size
      && DumpDdr(read, k, cap) == Done(ReadRing(read, k, (k.wptr - m) % k.size, n), k.size)
  {
    CappedWindow(k, cap);
    var off, r := k.wptr % k.size, (cap - Gap(k, cap)) % k.size;
    var start := WindowStart(off, cap, k.size);
    var n := if r != 0 then r else cap;
    assert Held(k) == k.size;
    assert DumpDdr(read, k, cap) ==
      if start + n <= k.size then Done(read(k.base + start, n), k.size)
      else Done(Join(read(k.base + start, k.size - start), read(k.base, n - (k.size - start))), k.size);
  }

  lemma RemainderRange(k: Sink, cap: nat)
    requires SinkState(k) && k.wrapped && 0 < cap < k.size
    ensures (cap - Gap(k, cap)) % k.size >= cap - 31
  {
    var e := cap - Gap(k, cap);
    if e >= 0 { ModSmall(e, k.size); }
  }

  /** Newest bytes as long as the round-up does not eat the whole cap; else the wrong end of the ring. */
  function CappedBytes<T>(k: Sink, stream: seq<T>, cap: nat): seq<T>
    requires SinkState(k) && k.wrapped && 0 < cap < k.size && |stream| == k.wptr
  {
    var r := (cap - Gap(k, cap)) % k.size;
    if r != 0 then Newest(stream, r) else stream[|stream| - k.size..|stream| - k.size + cap]
  }

  /**
   * The capped dump of a wrapped ring, exactly: the newest cap - gap bytes (modulo the ring size,
   * so more than the cap once the gap passes it), and the OLDEST cap bytes if that is 0.
   */
  lemma WrappedCapped<T>(read: Reader<T>, mem: nat -> T, k: Sink, stream: seq<T>, cap: nat)
    requires Exact(read, mem) && Holds(mem, k, stream) && k.wrapped && 0 < cap < k.size
    ensures var raw := CappedBytes(k, stream, cap);
      DumpDdr(read, k, cap) == Dump(raw, k.size, |raw|, |raw| < k.size)
  {
    var r := (cap - Gap(k, cap)) % k.size;
    CappedRead(read, k, cap);
    var m, n := if r != 0 then r else k.size, if r != 0 then r else cap;
    RingRead(read, mem, k, stream, m, n);
    assert stream[|stream| - m..|stream| - m + n] == CappedBytes(k, stream, cap);
  }

  lemma LinearCells<T>(mem: nat -> T, k: Sink, stream: seq<T>, n: nat)
    requires Holds(mem, k, stream) && !k.wrapped && n <= Held(k)
    ensures Cells(mem, k.base + Held(k) - n, n) == Newest(stream, n)
  {
    forall i | 0 <= i < n
      ensures Cells(mem, k.base + Held(k) - n, n)[i] == Newest(stream, n)[i]
    {
      var j := Held(k) - n + i;
      ModSmall(j, k.size);
      assert mem(k.base + j % k.size) == stream[j];
    }
  }

  lemma Linear<T>(read: Reader<T>, mem: nat -> T, k: Sink, stream: seq<T>, cap: nat)
    requires Exact(read, mem) && Holds(mem, k, stream) && !k.wrapped && Held(k) > 0
    ensures var n := if cap == 0 || cap >= Held(k) then Held(k) else cap - Gap(k, cap);
      && -31 <= n <= Held(k)
      && DumpDdr(read, k, cap) ==
          (if n > 0 then Dump(Newest(stream, n), Held(k), n, n < Held(k))
           else if (k.base + Held(k) - n) % 0x1000 + n > 0 then Dump([], Held(k), 0, true)
           else DumpFailed)
  {
    var n := if cap == 0 || cap >= Held(k) then Held(k) else cap - Gap(k, cap);
    LinearRead(read, k, cap, n);
    if n > 0 { LinearCells(mem, k, stream, n); }
    LinearData(read, mem, k, stream, n);
  }

  lemma LinearRead<T>(read: Reader<T>, k: Sink, cap: nat, n: int)
    requires SinkState(k) && !k.wrapped && Held(k) > 0
    requires n == if cap == 0 || cap >= Held(k) then Held(k) else cap - Gap(k, cap)
    ensures -31 <= n <= Held(k) && DumpDdr(read, k, cap) == Done(read(k.base + Held(k) - n, n), Held(k))
  {
  }

  lemma LinearData<T>(read: Reader<T>, mem: nat -> T, k: Sink, stream: seq<T>, n: int)
    requires Exact(read, mem) && Holds(mem, k, stream) && -31 <= n <= Held(k)
    requires n > 0 ==> Cells(mem, k.base + Held(k) - n, n) == Newest(stream, n)
    ensures Done(read(k.base + Held(k) - n, n), Held(k)) ==
      if n > 0 then Dump(Newest(stream, n), Held(k), n, n < Held(k))
      else if (k.base + Held(k) - n) % 0x1000 + n > 0 then Dump([], Held(k), 0, Held(k) > 0)
      else DumpFailed
  {
  }

  // ---- The promise, and exactly when it is kept ----------------------------------------

  lemma DumpKeepsPromise<T>(read: Reader<T>, mem: nat -> T, k: Sink, stream: seq<T>, cap: nat)
    requires Exact(read, mem) && Holds(mem, k, stream) && Deliverable(k, cap)
    ensures Meets(DumpDdr(read, k, cap), k, stream, cap)
  {
    if Held(k) == 0 {
    } else if !k.wrapped {
      Linear(read, mem, k, stream, cap);
    } else if cap == 0 || cap >= k.size {
      WrappedUncapped(read, mem, k, stream, cap);
    } else {
      WrappedCapped(read, mem, k, stream, cap);
      RemainderRange(k, cap);
    }
  }

  /** Which stream position a wrapped ring cell belongs to. */
  function Owner(k: Sink, cell: int): int
    requires k.size > 0
  {
    var off := k.wptr % k.size;
    if cell < off then k.wptr - off + cell else k.wptr - off - k.size + cell
  }

  lemma OwnerOf(k: Sink, j: nat)
    requires k.size > 0 && k.wptr - k.size <= j < k.wptr
    ensures Owner(k, j % k.size) == j
  {
    ModBack(k.wptr, k.wptr - j, k.size);
    assert k.wptr - (k.wptr - j) == j;
  }

  /** A memory and stream of pairwise different bytes for given registers. */
  lemma Witness(k: Sink) returns (mem: nat -> int, stream: seq<int>)
    requires SinkState(k)
    ensures Holds(mem, k, stream) && |stream| == k.wptr && forall j :: 0 <= j < |stream| ==> stream[j] == j
  {
    stream := seq(k.wptr, j => j);
    mem := (a: nat) => if k.wrapped then Owner(k, a - k.base) else a - k.base;
    forall j | |stream| - Held(k) <= j < |stream|
      ensures mem(k.base + j % k.size) == stream[j]
    {
      if k.wrapped {
        OwnerOf(k, j);
      } else {
        ModSmall(j, k.size);
      }
    }
  }

  /** Outside the condition some memory content always shows the promise broken. */
  lemma DumpBreaksPromise(k: Sink, cap: nat) returns (mem: nat -> int, stream: seq<int>)
    requires SinkState(k) && !Deliverable(k, cap)
    ensures Holds(mem, k, stream)
    ensures forall read :: Exact(read, mem) ==> !Meets(DumpDdr(read, k, cap), k, stream, cap)
  {
    mem, stream := Witness(k);
    forall read | Exact(read, mem)
      ensures !Meets(DumpDdr(read, k, cap), k, stream, cap)
    {
      PromiseBroken(read, mem, k, stream, cap);
    }
  }

  lemma PromiseBroken(read: Reader<int>, mem: nat -> int, k: Sink, stream: seq<int>, cap: nat)
    requires Exact(read, mem) && Holds(mem, k, stream) && !Deliverable(k, cap)
    requires forall j :: 0 <= j < |stream| ==> stream[j] == j
    ensures !Meets(DumpDdr(read, k, cap), k, stream, cap)
  {
    if !k.wrapped {
      Linear(read, mem, k, stream, cap);
    } else if cap == 0 || cap >= k.size {
      WrappedUncapped(read, mem, k, stream, cap);
    } else {
      WrappedCapped(read, mem, k, stream, cap);
      if (cap - Gap(k, cap)) % k.size == 0 {
        assert CappedBytes(k, stream, cap)[0] != Newest(stream, cap)[0];
      }
    }
  }

  /** A capped dump begins on a burst edge, if the ring is a whole number of bursts. */
  lemma BurstEdge<T>(k: Sink, cap: nat) returns (start: nat, n: int)
    requires SinkState(k) && 0 < cap < Held(k) && (k.wrapped ==> k.size % 32 == 0)
    ensures start % 32 == 0 && 0 <= start
    ensures forall read: Reader<T> :: DumpDdr(read, k, cap) == Done(ReadRing(read, k, start, n), Held(k))
  {
    if k.wrapped {
      var off := k.wptr % k.size;
      start := WindowStart(off, cap, k.size);
      n := if (off - start) % k.size != 0 then (off - start) % k.size else cap;
      AlignUpExact((off - cap) % k.size);
      EdgeInRing(AlignUp((off - cap) % k.size), k.size);
    } else {
      start, n := AlignUp(Held(k) - cap), Held(k) - AlignUp(Held(k) - cap);
      AlignUpExact(Held(k) - cap);
    }
  }

  lemma EdgeInRing(v: int, size: int)
    requires size > 0 && size % 32 == 0 && v % 32 == 0
    ensures (v % size) % 32 == 0
  {
    EdgeLeft(v, size, v / size, v % size);
  }

  lemma EdgeLeft(v: int, size: int, q: int, r: int)
    requires size % 32 == 0 && v % 32 == 0 && r == v - size * q
    ensures r % 32 == 0
  {
    var a, b := v / 32, size / 32;
    Bursts(b, q);
    assert r == 32 * (a - b * q);
  }

  lemma Bursts(b: int, q: int)
    ensures (32 * b) * q == 32 * (b * q)
  {
  }

  /** A cap of at least one burst always works; an uncapped dump fails only at an aligned wrap. */
  lemma SafeCaps(k: Sink, cap: nat)
    requires SinkState(k) && Held(k) > 0
    ensures 32 <= cap < Held(k) ==> Deliverable(k, cap)
    ensures cap == 0 || cap >= Held(k) ==>
      (Deliverable(k, cap) <==> !(k.wrapped && k.wptr % k.size == 0 && k.base % 0x1000 == 0))
    ensures k.wrapped && k.size >= 32 && 0 < cap < k.size ==> (Deliverable(k, cap) <==> Gap(k, cap) < cap)
  {
    if k.wrapped && 0 < cap < k.size {
      var e := cap - Gap(k, cap);
      if e >= 0 { ModSmall(e, k.size); }
      else if k.size >= 32 { ModUnique(e, -1, e + k.size, k.size); }
    }
  }
}
