/** The decoder-free message statistics and how they agree with the framer (insight.py, record_web_demo.py). */
module Readers {
  import opened Nexus
  import opened Resync

  /** Where the one-pass readers see a message start: an MSEO 00 byte right behind an end byte. */
  predicate StartsAt(raw: seq<Byte>, k: nat) {
    0 < k < |raw| && IsEnd(raw[k - 1]) && Mseo(raw[k]) == 0
  }

  function Starts(raw: seq<Byte>, n: nat): seq<nat>
    requires n <= |raw|
  {
    if n == 0 then [] else Starts(raw, n - 1) + (if StartsAt(raw, n - 1) then [n - 1] else [])
  }

  /** How many of them among the first n bytes carry TCODE t. */
  function Count(raw: seq<Byte>, n: nat, t: nat): nat
    requires n <= |raw|
  {
    if n == 0 then 0 else
      Count(raw, n - 1, t) + (if StartsAt(raw, n - 1) && Mdo(raw[n - 1]) == t then 1 else 0)
  }

  function IdleBytes(raw: seq<Byte>, n: nat): nat
    requires n <= |raw|
  {
    if n == 0 then 0 else IdleBytes(raw, n - 1) + (if raw[n - 1] == IDLE_BYTE then 1 else 0)
  }

  method ScanMessages(raw: seq<Byte>) returns (counts: map<nat, nat>, msgs: nat, idle: nat, started: bool)
    ensures forall t :: t in counts <==> Count(raw, |raw|, t) > 0
    ensures forall t :: t in counts ==> counts[t] == Count(raw, |raw|, t)
    ensures msgs == |Starts(raw, |raw|)| && (started <==> msgs > 0)
    ensures idle == IdleBytes(raw, |raw|)
  {
    counts, msgs, idle, started := map[], 0, 0, false;
    var prevEnd := false;
    for k := 0 to |raw|
      invariant prevEnd <==> k > 0 && IsEnd(raw[k - 1])
      invariant forall t :: t in counts <==> Count(raw, k, t) > 0
      invariant forall t :: t in counts ==> counts[t] == Count(raw, k, t)
      invariant msgs == |Starts(raw, k)| && (started <==> msgs > 0)
      invariant idle == IdleBytes(raw, k)
    {
      var b := raw[k];
      var mseo := Mseo(b);
      if mseo == 3 && Mdo(b) == 0x3F {
        idle := idle + 1;
        prevEnd := true;
        continue;
      }
      if prevEnd && mseo == 0 {
        started := true;
        var t := Mdo(b);
        counts := counts[t := (if t in counts then counts[t] else 0) + 1];
        msgs := msgs + 1;
      }
      prevEnd := mseo == 3;
    }
  }

  method MessageBoundaries(raw: seq<Byte>) returns (out: seq<nat>)
    ensures out == Starts(raw, |raw|)
  {
    out := [];
    var prevEnd := false;
    for i := 0 to |raw|
      invariant prevEnd <==> i > 0 && IsEnd(raw[i - 1])
      invariant out == Starts(raw, i)
    {
      if prevEnd && Mseo(raw[i]) == 0 {
        out := out + [i];
      }
      prevEnd := IsEnd(raw[i]);
    }
  }

  /** Scanning a prefix and stopping the scan there are the same thing. */
  lemma {:induction false} PrefixScan(raw: seq<Byte>, b: nat, n: nat, t: nat)
    requires n <= b <= |raw|
    ensures Count(raw[..b], n, t) == Count(raw, n, t)
    ensures IdleBytes(raw[..b], n) == IdleBytes(raw, n)
    ensures Starts(raw[..b], n) == Starts(raw, n)
  {
    if n > 0 { PrefixScan(raw, b, n - 1, t); }
  }

  // ---- Agreement with the framer ----------------------------------------------

  function Tally(msgs: seq<Msg>, n: nat, t: nat): nat
    requires n <= |msgs|
  {
    if n == 0 then 0 else Tally(msgs, n - 1, t) + (if msgs[n - 1].tcode == t then 1 else 0)
  }

  /** Messages that legally end in the byte value of the idle byte. */
  function EndingInIdle(s: Stream): nat {
    match s
    case Start => 0
    case Then(f, it) =>
      EndingInIdle(f) + (if it.Message? && it.bytes != [] && it.bytes[|it.bytes| - 1] == IDLE_BYTE then 1 else 0)
  }

  /** The reported offsets without 0. */
  function LaterOffsets(msgs: seq<Msg>, n: nat): seq<nat>
    requires n <= |msgs|
  {
    if n == 0 then [] else
      LaterOffsets(msgs, n - 1) + (if msgs[n - 1].offset > 0 then [msgs[n - 1].offset] else [])
  }

  /** Counting on into a second list. */
  lemma {:induction false} TallyAppend(a: seq<Msg>, b: seq<Msg>, c: seq<Msg>, n: nat, m: nat, t: nat)
    requires c == a + b && n <= |b| && m == |a| + n
    ensures Tally(c, m, t) == Tally(a, |a|, t) + Tally(b, n, t)
    ensures LaterOffsets(c, m) == LaterOffsets(a, |a|) + LaterOffsets(b, n)
    decreases n
  {
    if n > 0 {
      TallyAppend(a, b, c, n - 1, m - 1, t);
      assert c[m - 1] == b[n - 1];
    } else {
      TallyPrefix(a, b, |a|, t);
    }
  }

  lemma {:induction false} TallyPrefix(a: seq<Msg>, b: seq<Msg>, n: nat, t: nat)
    requires n <= |a|
    ensures Tally(a + b, n, t) == Tally(a, n, t)
    ensures LaterOffsets(a + b, n) == LaterOffsets(a, n)
  {
    if n > 0 {
      TallyPrefix(a, b, n - 1, t);
      assert (a + b)[n - 1] == a[n - 1];
    }
  }

  /** Reading on into a chunk: only its first byte can start a message, only its last one can be 0xFF. */
  lemma {:induction false} ScanChunk(f: seq<Byte>, c: seq<Byte>, n: nat, t: nat)
    requires Chunk(c) && (f != [] ==> IsEnd(f[|f| - 1])) && 0 < n <= |c|
    ensures var raw := f + c; var first := f != [] && Mseo(c[0]) == 0;
      && Count(raw, |f| + n, t) == Count(f, |f|, t) + (if first && Mdo(c[0]) == t then 1 else 0)
      && Starts(raw, |f| + n) == Starts(f, |f|) + (if first then [|f|] else [])
      && IdleBytes(raw, |f| + n) == IdleBytes(f, |f|) + (if n == |c| && c[n - 1] == IDLE_BYTE then 1 else 0)
    decreases n
  {
    var raw := f + c;
    assert raw[|f| + n - 1] == c[n - 1];
    if n == 1 {
      assert raw[..|f|] == f;
      PrefixScan(raw, |f|, |f|, t);
      assert |f| > 0 ==> raw[|f| - 1] == f[|f| - 1];
      assert 1 < |c| ==> !IsEnd(c[..|c| - 1][0]);
    } else {
      ScanChunk(f, c, n - 1, t);
      assert raw[|f| + n - 2] == c[n - 2] == c[..|c| - 1][n - 2];
      assert n < |c| ==> !IsEnd(c[..|c| - 1][n - 1]);
    }
  }

  /** The two totals of a concatenation. */
  lemma TallyConcat(a: seq<Msg>, b: seq<Msg>, c: seq<Msg>, t: nat)
    requires c == a + b
    ensures Tally(c, |c|, t) == Tally(a, |a|, t) + Tally(b, |b|, t)
    ensures LaterOffsets(c, |c|) == LaterOffsets(a, |a|) + LaterOffsets(b, |b|)
  {
    TallyAppend(a, b, c, |b|, |c|, t);
  }

  lemma {:induction false} StreamAgrees(s: Stream, t: nat)
    requires WellFormed(s)
    ensures var raw, r := Flatten(s), Report(s, 0);
      && Starts(raw, |raw|) == LaterOffsets(r, |r|)
      && Count(raw, |raw|, t) + SkippedFirst(raw, t) == Tally(r, |r|, t)
      && IdleBytes(raw, |raw|) == IdleCount(s) + EndingInIdle(s)
  {
    if s.Then? {
      StreamAgrees(s.before, t);
      WellFormedIsFramed(s);
      ReadOneMore(s, t);
      var e := Entry(s.last, |Flatten(s.before)|);
      TallyConcat(Report(s.before, 0), e, Report(s, 0), t);
      TallyEntry(s.last, |Flatten(s.before)|, t);
    }
  }

  /** In an unfinished rest only the first byte can start a message, and no byte is idle. */
  lemma {:induction false} ScanRest(f: seq<Byte>, rest: seq<Byte>, raw: seq<Byte>, n: nat, m: nat, t: nat)
    requires NoEnd(rest) && (f != [] ==> IsEnd(f[|f| - 1])) && raw == f + rest && n <= |rest| && m == |f| + n
    ensures var first := f != [] && n > 0 && Mseo(rest[0]) == 0;
      && Count(raw, m, t) == Count(f, |f|, t) + (if first && Mdo(rest[0]) == t then 1 else 0)
      && Starts(raw, m) == Starts(f, |f|) + (if first then [|f|] else [])
      && IdleBytes(raw, m) == IdleBytes(f, |f|)
    decreases n
  {
    if n == 0 {
      assert raw[..|f|] == f;
      PrefixScan(raw, |f|, |f|, t);
    } else {
      ScanRest(f, rest, raw, n - 1, m - 1, t);
      assert raw[m - 1] == rest[n - 1] && !IsEnd(rest[n - 1]);
      assert n > 1 ==> raw[m - 2] == rest[n - 2] && !IsEnd(rest[n - 2]);
      assert n == 1 && |f| > 0 ==> raw[m - 2] == f[|f| - 1];
    }
  }

  /** 1 when the unfinished rest is a cut-off message of TCODE t. */
  function CutOff(rest: seq<Byte>, t: nat): nat {
    if rest != [] && Mseo(rest[0]) == 0 && Mdo(rest[0]) == t then 1 else 0
  }

  /**
   * On every capture of what an encoder emits, cut off or not, the one-pass readers and the framer
   * agree: same message starts and same histogram, except that the readers skip a message at offset 0
   * and count the start of a message that the framer reports as truncated; and the idle count of the
   * scan is too high by exactly the messages that end in 0xFF.
   */
  lemma ReadersAgree(s: Stream, rest: seq<Byte>, t: nat)
    requires WellFormed(s) && NoEnd(rest)
    ensures var f, raw, r := Flatten(s), Flatten(s) + rest, Report(s, 0);
      && Starts(raw, |raw|) ==
           LaterOffsets(r, |r|) + (if f != [] && rest != [] && Mseo(rest[0]) == 0 then [|f|] else [])
      && Count(raw, |raw|, t) + SkippedFirst(raw, t) == Tally(r, |r|, t) + CutOff(rest, t)
      && IdleBytes(raw, |raw|) == IdleCount(s) + EndingInIdle(s)
  {
    var f, raw := Flatten(s), Flatten(s) + rest;
    StreamAgrees(s, t);
    WellFormedIsFramed(s);
    if s.Then? { EndsOnEnd(s); }
    ScanRest(f, rest, raw, |rest|, |raw|, t);
    SkippedOrCutOff(f, rest, raw, t);
  }

  lemma SkippedOrCutOff(f: seq<Byte>, rest: seq<Byte>, raw: seq<Byte>, t: nat)
    requires raw == f + rest
    ensures SkippedFirst(raw, t) == if f != [] then SkippedFirst(f, t) else CutOff(rest, t)
  {
    assert f != [] ==> raw[0] == f[0];
  }

  lemma ReadOneMore(s: Stream, t: nat)
    requires WellFormed(s) && Framed(s) && s.Then?
    ensures var raw, f := Flatten(s), Flatten(s.before);
      var last := s.last.Message? && Tcode(s.last.bytes) == t;
      && Starts(raw, |raw|) == Starts(f, |f|) + (if s.last.Message? && |f| > 0 then [|f|] else [])
      && Count(raw, |raw|, t) + SkippedFirst(raw, t)
        == Count(f, |f|, t) + SkippedFirst(f, t) + (if last then 1 else 0)
      && IdleBytes(raw, |raw|) == IdleBytes(f, |f|)
        + (if s.last.Idle? || s.last.bytes[|s.last.bytes| - 1] == IDLE_BYTE then 1 else 0)
  {
    var f, c := Flatten(s.before), Bytes(s.last);
    if s.before.Then? { EndsOnEnd(s.before); }
    assert Chunk(c);
    ScanChunk(f, c, |c|, t);
    assert (f + c)[0] == if f != [] then f[0] else c[0];
  }

  lemma TallyEntry(it: Item, offset: nat, t: nat)
    ensures var e := Entry(it, offset);
      && Tally(e, |e|, t) == (if it.Message? && Tcode(it.bytes) == t then 1 else 0)
      && LaterOffsets(e, |e|) == (if it.Message? && offset > 0 then [offset] else [])
  {
    var e := Entry(it, offset);
    if it.Message? {
      assert Tally(e, 1, t) == Tally(e, 0, t) + (if e[0].tcode == t then 1 else 0);
      assert LaterOffsets(e, 1) == LaterOffsets(e, 0) + (if offset > 0 then [offset] else []);
    }
  }

  /** 1 when the capture opens with a message of TCODE t, which no one-pass reader counts. */
  function SkippedFirst(raw: seq<Byte>, t: nat): nat {
    if raw != [] && Mseo(raw[0]) == 0 && Mdo(raw[0]) == t then 1 else 0
  }

  // ---- Windows between cuts ---------------------------------------------------

  /** Every cut that the boundary list offers leaves no truncated message in front of it. */
  lemma CutsAreClean(s: Stream, rest: seq<Byte>, c: nat)
    requires Framed(s) && NoEnd(rest) && StartsAt(Flatten(s) + rest, c)
    ensures c in Boundaries(s)
    ensures Split((Flatten(s) + rest)[..c]).rest == []
  {
    var buf := Flatten(s) + rest;
    EndMarksBoundary(s, rest, c);
    BoundariesInRange(s);
    assert buf[..c] == Flatten(s)[0..c];
    WholeItems(s, 0, c);
  }

  lemma {:induction false} WithinJoin(s: Stream, p: nat, q: nat)
    requires Framed(s) && p in Boundaries(s) && q in Boundaries(s) && p <= q
    ensures Within(s, 0, q) == Within(s, 0, p) + Within(s, p, q)
  {
    if s.Then? {
      assert Chunk(Bytes(s.last));
      BoundariesInRange(s.before);
      var n := |Flatten(s.before)|;
      if q <= n {
        WithinJoin(s.before, p, q);
      } else if p <= n {
        WithinUpTo(s.before, 0, n, q);
        WithinUpTo(s.before, p, n, q);
        WithinJoin(s.before, p, n);
      } else {
        WithinNothing(s, p);
      }
    }
  }

  /**
   * The message mix of a window, taken as the difference of two prefix scans, is the histogram of
   * the messages framed from the window's own bytes -- the first message included that a scan of
   * the slice would miss.
   */
  lemma WindowMix(s: Stream, p: nat, q: nat, t: nat)
    requires WellFormed(s) && p in Boundaries(s) && q in Boundaries(s) && p <= q
    ensures q <= |Flatten(s)| && Split(Flatten(s)[p..q]) == Parse(Cut(s, p, q), [])
    ensures var raw, r := Flatten(s), Report(Cut(s, p, q), 0);
      Count(raw, q, t) - Count(raw, p, t) + (if p == 0 < q then SkippedFirst(raw, t) else 0) == Tally(r, |r|, t)
  {
    WellFormedIsFramed(s);
    BoundariesInRange(s);
    PrefixHistogram(s, p, t);
    PrefixHistogram(s, q, t);
    WithinJoin(s, p, q);
    TallyConcat(Within(s, 0, p), Within(s, p, q), Within(s, 0, q), t);
    WindowReport(s, p, q, t);
  }

  /** Framing the window's own bytes reports the messages of the stream in it. */
  lemma WindowReport(s: Stream, p: nat, q: nat, t: nat)
    requires Framed(s) && p in Boundaries(s) && q in Boundaries(s) && p <= q
    ensures q <= |Flatten(s)| && Split(Flatten(s)[p..q]) == Parse(Cut(s, p, q), [])
    ensures var r, w := Report(Cut(s, p, q), 0), Within(s, p, q); Tally(r, |r|, t) == Tally(w, |w|, t)
  {
    BoundariesInRange(s);
    WholeItems(s, p, q);
    TallyShift(Cut(s, p, q), p, t);
  }

  lemma PrefixHistogram(s: Stream, p: nat, t: nat)
    requires WellFormed(s) && Framed(s) && p in Boundaries(s)
    ensures p <= |Flatten(s)|
    ensures var w := Within(s, 0, p);
      Count(Flatten(s), p, t) + (if p > 0 then SkippedFirst(Flatten(s), t) else 0) == Tally(w, |w|, t)
  {
    BoundariesInRange(s);
    SubStream(s, 0, p);
    CutKeeps(s, 0, p);
    var x, raw := Cut(s, 0, p), Flatten(s);
    assert Flatten(x) == raw[..p];
    StreamAgrees(x, t);
    PrefixScan(raw, p, p, t);
  }

  lemma TallyShift(s: Stream, base: nat, t: nat)
    ensures |Report(s, base)| == |Report(s, 0)|
    ensures Tally(Report(s, base), |Report(s, base)|, t) == Tally(Report(s, 0), |Report(s, 0)|, t)
  {
    ReportShift(s, base);
    SameTally(Report(s, base), Report(s, 0), |Report(s, 0)|, t);
  }

  lemma {:induction false} SameTally(a: seq<Msg>, b: seq<Msg>, n: nat, t: nat)
    requires n <= |a| && n <= |b| && forall k :: 0 <= k < n ==> a[k].tcode == b[k].tcode
    ensures Tally(a, n, t) == Tally(b, n, t)
  {
    if n > 0 { SameTally(a, b, n - 1, t); }
  }
}
