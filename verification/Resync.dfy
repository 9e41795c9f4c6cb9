/** Trimming an arbitrary window of a stream to whole messages (examples/dashboard/insight.py). */
module Resync {
  import opened Nexus
  import opened Seqs

  /**
   * What the trimming returns, read off the window alone: the payload starts behind the first
   * end byte and stops behind the last one; without any end byte everything is dropped as head.
   */
  ghost predicate Aligned(raw: seq<Byte>, payload: seq<Byte>, head: nat, tail: nat) {
    && head + |payload| + tail == |raw|
    && payload == raw[head..head + |payload|]
    && (NoEnd(raw) ==> head == |raw|)
    && (!NoEnd(raw) ==>
          && head > 0 && IsEnd(raw[head - 1]) && (forall k :: 0 <= k < head - 1 ==> !IsEnd(raw[k]))
          && IsEnd(raw[|raw| - tail - 1]) && (forall k :: |raw| - tail <= k < |raw| ==> !IsEnd(raw[k])))
  }

  method AlignToMessages(raw: seq<Byte>) returns (payload: seq<Byte>, head: nat, tail: nat)
    ensures Aligned(raw, payload, head, tail)
  {
    if |raw| == 0 {
      return [], 0, 0;
    }
    var start := -1;
    for i := 0 to |raw|
      invariant start == -1 && forall k :: 0 <= k < i ==> !IsEnd(raw[k])
    {
      if IsEnd(raw[i]) {
        start := i + 1;
        break;
      }
    }
    if start < 0 || start >= |raw| {
      return [], |raw|, 0;
    }
    var end := -1;
    for i := |raw| downto start
      invariant end == -1 && forall k :: i <= k < |raw| ==> !IsEnd(raw[k])
    {
      if IsEnd(raw[i]) {
        end := i + 1;
        break;
      }
    }
    if end <= start {
      return [], start, |raw| - start;
    }
    return raw[start..end], start, |raw| - end;
  }

  /** The byte positions between the items of a stream, its two ends included. */
  function Boundaries(s: Stream): set<nat> {
    match s
    case Start => {0}
    case Then(f, it) => Boundaries(f) + {|Flatten(s)|}
  }

  lemma {:induction false} BoundariesInRange(s: Stream)
    ensures 0 in Boundaries(s) && |Flatten(s)| in Boundaries(s)
    ensures forall k :: k in Boundaries(s) ==> k <= |Flatten(s)|
  {
    if s.Then? { BoundariesInRange(s.before); }
  }

  /** In a framed stream the end bytes are exactly the ones in front of a boundary. */
  lemma {:induction false} EndMarksBoundary(s: Stream, rest: seq<Byte>, k: nat)
    requires Framed(s) && NoEnd(rest) && 0 < k <= |Flatten(s) + rest|
    ensures IsEnd((Flatten(s) + rest)[k - 1]) <==> k in Boundaries(s)
  {
    BoundariesInRange(s);
    if k <= |Flatten(s)| {
      var f, c := Flatten(s.before), Bytes(s.last);
      assert (Flatten(s) + rest)[k - 1] == (f + c)[k - 1];
      if k <= |f| {
        EndMarksBoundary(s.before, [], k);
        assert (f + [])[k - 1] == (f + c)[k - 1];
      } else {
        BoundariesInRange(s.before);
        EndOfChunk(f, c, k);
      }
    } else {
      assert (Flatten(s) + rest)[k - 1] == rest[k - 1 - |Flatten(s)|];
    }
  }

  lemma EndOfChunk(f: seq<Byte>, c: seq<Byte>, k: nat)
    requires Chunk(c) && |f| < k <= |f + c|
    ensures IsEnd((f + c)[k - 1]) <==> k == |f + c|
  {
    assert k < |f + c| ==> (f + c)[k - 1] == c[..|c| - 1][k - 1 - |f|];
  }

  /** The original messages that lie completely inside the byte range [p, q). */
  function Within(s: Stream, p: nat, q: nat): seq<Msg> {
    match s
    case Start => []
    case Then(f, it) =>
      Within(f, p, q) + (if p <= |Flatten(f)| && |Flatten(s)| <= q then Entry(it, |Flatten(f)|) else [])
  }

  lemma {:induction false} WithinNothing(s: Stream, p: nat)
    requires Framed(s)
    ensures Within(s, p, p) == []
  {
    if s.Then? { WithinNothing(s.before, p); }
  }

  /** Only the last boundary of the range matters. */
  lemma {:induction false} WithinUpTo(s: Stream, p: nat, q: nat, b: nat)
    requires Framed(s) && q <= b
    requires forall k :: k in Boundaries(s) && k <= b ==> k <= q
    ensures Within(s, p, q) == Within(s, p, b)
  {
    if s.Then? {
      assert Boundaries(s.before) <= Boundaries(s);
      WithinUpTo(s.before, p, q, b);
      BoundariesInRange(s);
    }
  }

  /** The items inside [p, q) as a stream of their own. */
  function Cut(s: Stream, p: nat, q: nat): Stream {
    match s
    case Start => Start
    case Then(f, it) =>
      if p <= |Flatten(f)| && |Flatten(s)| <= q then Then(Cut(f, p, q), it) else Cut(f, p, q)
  }

  lemma {:induction false} CutKeeps(s: Stream, p: nat, q: nat)
    ensures Framed(s) ==> Framed(Cut(s, p, q))
    ensures WellFormed(s) ==> WellFormed(Cut(s, p, q))
  {
    if s.Then? { CutKeeps(s.before, p, q); }
  }

  lemma {:induction false} CutNothing(s: Stream, p: nat)
    requires Framed(s)
    ensures Cut(s, p, p) == Start
  {
    if s.Then? {
      assert Chunk(Bytes(s.last));
      CutNothing(s.before, p);
    }
  }

  lemma {:induction false} CutUpToEnd(s: Stream, p: nat, q: nat)
    requires q >= |Flatten(s)|
    ensures Cut(s, p, q) == Cut(s, p, |Flatten(s)|)
  {
    if s.Then? {
      CutUpToEnd(s.before, p, q);
      CutUpToEnd(s.before, p, |Flatten(s)|);
    }
  }

  /** Between two boundaries lies a stream of its own, and it carries exactly the messages there. */
  lemma {:induction false} SubStream(s: Stream, p: nat, q: nat)
    requires Framed(s) && p in Boundaries(s) && q in Boundaries(s) && p <= q
    ensures q <= |Flatten(s)|
    ensures Flatten(Cut(s, p, q)) == Flatten(s)[p..q] && Report(Cut(s, p, q), p) == Within(s, p, q)
  {
    if p == q {
      SubStreamNothing(s, p);
    } else {
      var f := BoundarySplit(s, p, q);
      SubStream(s.before, p, if q <= f then q else f);
      SubStreamStep(s, p, q, f);
    }
  }

  lemma SubStreamNothing(s: Stream, p: nat)
    requires Framed(s) && p in Boundaries(s)
    ensures p <= |Flatten(s)| && Flatten(Cut(s, p, p)) == Flatten(s)[p..p] && Report(Cut(s, p, p), p) == Within(s, p, p)
  {
    BoundariesInRange(s);
    WithinNothing(s, p);
    CutNothing(s, p);
    assert Flatten(s)[p..p] == [] == Flatten(Start) && Report(Start, p) == [];
  }

  /** A boundary is the end of the stream or one of the shorter stream. */
  lemma BoundarySplit(s: Stream, p: nat, q: nat) returns (f: nat)
    requires Framed(s) && p in Boundaries(s) && q in Boundaries(s) && p < q
    ensures s.Then? && f == |Flatten(s.before)| < |Flatten(s)| && f in Boundaries(s.before)
    ensures p in Boundaries(s.before) && p <= f && if q <= f then q in Boundaries(s.before) else q == |Flatten(s)|
  {
    BoundariesInRange(s);
    assert Chunk(Bytes(s.last));
    BoundariesInRange(s.before);
    f := |Flatten(s.before)|;
  }

  lemma SubStreamStep(s: Stream, p: nat, q: nat, f: nat)
    requires Framed(s) && s.Then? && p <= f == |Flatten(s.before)| < |Flatten(s)| && p <= q
    requires q <= f || q == |Flatten(s)|
    requires var m := if q <= f then q else f;
      && Flatten(Cut(s.before, p, m)) == Flatten(s.before)[p..m]
      && Report(Cut(s.before, p, m), p) == Within(s.before, p, m)
    ensures Flatten(Cut(s, p, q)) == Flatten(s)[p..q] && Report(Cut(s, p, q), p) == Within(s, p, q)
  {
    if q <= f {
      SubStreamFront(s, p, q);
    } else {
      SubStreamEnd(s, p);
    }
  }

  lemma SubStreamFront(s: Stream, p: nat, q: nat)
    requires Framed(s) && s.Then? && p <= q <= |Flatten(s.before)| < |Flatten(s)|
    requires Flatten(Cut(s.before, p, q)) == Flatten(s.before)[p..q]
    requires Report(Cut(s.before, p, q), p) == Within(s.before, p, q)
    ensures Flatten(Cut(s, p, q)) == Flatten(s)[p..q] && Report(Cut(s, p, q), p) == Within(s, p, q)
  {
    SlicePrefix(Flatten(s.before), Bytes(s.last), p, q);
  }

  lemma SubStreamEnd(s: Stream, p: nat)
    requires Framed(s) && s.Then? && p <= |Flatten(s.before)|
    requires var f := |Flatten(s.before)|;
      Flatten(Cut(s.before, p, f)) == Flatten(s.before)[p..] && Report(Cut(s.before, p, f), p) == Within(s.before, p, f)
    ensures Flatten(Cut(s, p, |Flatten(s)|)) == Flatten(s)[p..]
    ensures Report(Cut(s, p, |Flatten(s)|), p) == Within(s, p, |Flatten(s)|)
  {
    var f, b := Flatten(s.before), |Flatten(s)|;
    BoundariesInRange(s.before);
    WithinUpTo(s.before, p, |f|, b);
    CutUpToEnd(s.before, p, b);
    SliceAppend(f, Bytes(s.last), p);
    SubStreamAdds(s, p, b);
  }

  lemma SubStreamAdds(s: Stream, p: nat, b: nat)
    requires s.Then? && p <= |Flatten(s.before)| && b == |Flatten(s)|
    requires Flatten(Cut(s.before, p, b)) == Flatten(s.before)[p..]
    requires Report(Cut(s.before, p, b), p) == Within(s.before, p, b)
    ensures Flatten(Cut(s, p, b)) == Flatten(s.before)[p..] + Bytes(s.last)
    ensures Report(Cut(s, p, b), p) == Within(s, p, b)
  {
    assert Cut(s, p, b) == Then(Cut(s.before, p, b), s.last);
    assert p + |Flatten(Cut(s.before, p, b))| == |Flatten(s.before)|;
  }

  function Window(s: Stream, rest: seq<Byte>, a: nat, b: nat): seq<Byte>
    requires a <= b <= |Flatten(s) + rest|
  {
    (Flatten(s) + rest)[a..b]
  }

  lemma WindowEnds(s: Stream, rest: seq<Byte>, a: nat, b: nat)
    requires Framed(s) && NoEnd(rest) && a <= b <= |Flatten(s) + rest|
    ensures forall i :: 0 <= i < b - a ==> (IsEnd(Window(s, rest, a, b)[i]) <==> a + i + 1 in Boundaries(s))
  {
    forall i | 0 <= i < b - a
      ensures IsEnd(Window(s, rest, a, b)[i]) <==> a + i + 1 in Boundaries(s)
    {
      EndMarksBoundary(s, rest, a + i + 1);
    }
  }

  /** The kept range runs from the first to the last boundary behind the start of the window. */
  lemma AlignedRange(s: Stream, rest: seq<Byte>, a: nat, b: nat, payload: seq<Byte>, head: nat, tail: nat)
    requires Framed(s) && NoEnd(rest) && a <= b <= |Flatten(s) + rest|
    requires Aligned(Window(s, rest, a, b), payload, head, tail)
    ensures a + head <= b - tail
    ensures a + head == b - tail || (a + head in Boundaries(s) && b - tail in Boundaries(s))
    ensures a + head == b || a + head in Boundaries(s)
    ensures forall k :: k in Boundaries(s) && a < k <= b ==> a + head <= k <= b - tail
  {
    WindowEnds(s, rest, a, b);
    var raw := Window(s, rest, a, b);
    forall k | k in Boundaries(s) && a < k <= b
      ensures a + head <= k <= b - tail
    {
      assert IsEnd(raw[k - a - 1]);
    }
  }

  lemma PayloadInBuffer(s: Stream, rest: seq<Byte>, a: nat, b: nat, i: nat, j: nat)
    requires a <= b <= |Flatten(s) + rest| && i <= j <= b - a && a + j <= |Flatten(s)|
    ensures Window(s, rest, a, b)[i..j] == Flatten(s)[a + i..a + j]
  {
    SubSlice(Flatten(s) + rest, a, b, i, j);
    SlicePrefix(Flatten(s), rest, a + i, a + j);
  }

  lemma WholeItems(s: Stream, p: nat, q: nat)
    requires Framed(s) && p <= q && (p == q || (p in Boundaries(s) && q in Boundaries(s)))
    requires q <= |Flatten(s)|
    ensures Split(Flatten(s)[p..q]) == Parse(Cut(s, p, q), [])
    ensures Report(Cut(s, p, q), p) == Within(s, p, q)
  {
    if p == q {
      WithinNothing(s, p);
      CutNothing(s, p);
    } else {
      SubStream(s, p, q);
      CutKeeps(s, p, q);
      assert Flatten(Cut(s, p, q)) + [] == Flatten(s)[p..q];
      SplitInvertsFlatten(Cut(s, p, q), []);
    }
  }

  /**
   * Resynchronisation. Take any window [a, b) of a capture, trim it, and frame the payload: the
   * payload starts at the first item boundary behind a, nothing is left over at its end, and the
   * framer delivers exactly the original messages from there on that fit into the window.
   */
  lemma Resynchronised(s: Stream, rest: seq<Byte>, a: nat, b: nat, payload: seq<Byte>, head: nat, tail: nat)
    requires Framed(s) && NoEnd(rest) && a <= b <= |Flatten(s) + rest|
    requires Aligned(Window(s, rest, a, b), payload, head, tail)
    ensures a + head == b || a + head in Boundaries(s)
    ensures forall k :: k in Boundaries(s) && a < k <= b ==> a + head <= k <= b - tail
    ensures Split(payload).rest == []
    ensures Report(Split(payload).stream, a + head) == Within(s, a + head, b)
  {
    AlignedRange(s, rest, a, b, payload, head, tail);
    var p, q := a + head, b - tail;
    if p == q {
      WithinTrailing(s, p, b);
    } else {
      ResynchronisedRange(s, rest, a, b, payload, head, tail, p, q);
    }
  }

  lemma ResynchronisedRange(s: Stream, rest: seq<Byte>, a: nat, b: nat, payload: seq<Byte>, head: nat, tail: nat,
                            p: nat, q: nat)
    requires Framed(s) && a <= b <= |Flatten(s) + rest| && Aligned(Window(s, rest, a, b), payload, head, tail)
    requires p == a + head < q == b - tail && p in Boundaries(s) && q in Boundaries(s)
    requires forall k :: k in Boundaries(s) && a < k <= b ==> p <= k <= q
    ensures Split(payload).rest == [] && Report(Split(payload).stream, p) == Within(s, p, b)
  {
    BoundariesInRange(s);
    PayloadIsRange(s, rest, a, b, payload, head, tail);
    FramesOfRange(s, p, q, b, payload);
  }

  lemma PayloadIsRange(s: Stream, rest: seq<Byte>, a: nat, b: nat, payload: seq<Byte>, head: nat, tail: nat)
    requires a <= b <= |Flatten(s) + rest| && Aligned(Window(s, rest, a, b), payload, head, tail)
    requires a + head <= b - tail <= |Flatten(s)|
    ensures payload == Flatten(s)[a + head..b - tail]
  {
    PayloadInBuffer(s, rest, a, b, head, head + |payload|);
  }

  lemma FramesOfRange(s: Stream, p: nat, q: nat, b: nat, payload: seq<Byte>)
    requires Framed(s) && p in Boundaries(s) && q in Boundaries(s) && p <= q <= b && q <= |Flatten(s)|
    requires forall k :: k in Boundaries(s) && k <= b ==> k <= q
    requires payload == Flatten(s)[p..q]
    ensures Split(payload).rest == [] && Report(Split(payload).stream, p) == Within(s, p, b)
  {
    WholeItems(s, p, q);
    WithinUpTo(s, p, q, b);
  }

  /** Behind the last boundary of a window no message fits in. */
  lemma {:induction false} WithinTrailing(s: Stream, p: nat, b: nat)
    requires Framed(s) && p <= b && forall k :: k in Boundaries(s) && k <= b ==> k <= p
    ensures Within(s, p, b) == []
  {
    WithinUpTo(s, p, p, b);
    WithinNothing(s, p);
  }

  /** The payload is empty exactly when no two boundaries lie behind the start of the window. */
  lemma NothingSalvaged(s: Stream, rest: seq<Byte>, a: nat, b: nat, payload: seq<Byte>, head: nat, tail: nat)
    requires Framed(s) && NoEnd(rest) && a <= b <= |Flatten(s) + rest|
    requires Aligned(Window(s, rest, a, b), payload, head, tail)
    ensures payload == [] <==>
      (forall j, k :: j in Boundaries(s) && k in Boundaries(s) && a < j <= b && a < k <= b ==> j == k)
  {
    AlignedRange(s, rest, a, b, payload, head, tail);
    if payload != [] {
      assert a + head in Boundaries(s) && b - tail in Boundaries(s);
      assert head > 0;
    }
  }
}
