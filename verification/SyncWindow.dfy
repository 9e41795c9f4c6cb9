/** The sync-gap check and the window size it guarantees (scripts/check_sync_window.py). */
module SyncWindow {
  import opened Commons
  import opened Nexus
  import opened Resync

  /** TCODEs that re-anchor the program flow. */
  const ANCHOR_TCODES: set<nat> := {9, 11, 12, 29, 32}

  /** What the decoder labels as synchronizing: the anchors and the data-trace forms. */
  const LOG_SYNC_TCODES: set<nat> := {9, 11, 12, 29, 32, 13, 14}

  predicate IsAnchor(m: Msg) { m.tcode in ANCHOR_TCODES }

  function Anchors(msgs: seq<Msg>, n: nat): seq<Msg>
    requires n <= |msgs|
  {
    if n == 0 then [] else Anchors(msgs, n - 1) + (if IsAnchor(msgs[n - 1]) then [msgs[n - 1]] else [])
  }

  function AnchorsOf(raw: seq<Byte>): seq<Msg> {
    var r := Report(Split(raw).stream, 0);
    Anchors(r, |r|)
  }

  datatype Frame = Frame(offset: nat, tcode: nat, length: nat)

  /** The two copies of the framer agree: same offsets, same TCODEs, and the lengths of the same bytes. */
  predicate SameFrames(frames: seq<Frame>, msgs: seq<Msg>) {
    |frames| == |msgs|
    && forall k :: 0 <= k < |msgs| ==> frames[k] == Frame(msgs[k].offset, msgs[k].tcode, |msgs[k].bytes|)
  }

  /** frame_messages of the sync-window check. */
  method FrameLengths(buf: seq<Byte>) returns (frames: seq<Frame>, idle: nat, trunc: nat)
    ensures SameFrames(frames, Report(Split(buf).stream, 0))
    ensures idle == IdleCount(Split(buf).stream)
    ensures trunc == |Split(buf).rest|
  {
    frames, idle, trunc := [], 0, 0;
    var i, n := 0, |buf|;
    ghost var s := Start;
    while i < n
      invariant 0 <= i <= n
      invariant Framed(s) && Flatten(s) == buf[..i]
      invariant SameFrames(frames, Report(s, 0)) && idle == IdleCount(s) && trunc == 0
    {
      if buf[i] == IDLE_BYTE {
        IdleByte(buf, i, s);
        s := Then(s, Idle);
        idle := idle + 1;
        i := i + 1;
        continue;
      }
      var start := i;
      var tcode := Mdo(buf[i]);
      while i < n && !IsEnd(buf[i])
        invariant start <= i <= n
        invariant forall k :: start <= k < i ==> !IsEnd(buf[k])
      {
        i := i + 1;
      }
      if i >= n {
        trunc := n - start;
        UnfinishedRest(buf, start, s);
        return;
      }
      i := i + 1;
      ClosedMessage(buf, start, i, s);
      frames := frames + [Frame(start, tcode, i - start)];
      s := Then(s, Message(buf[start..i]));
    }
    UnfinishedRest(buf, n, s);
  }

  predicate GapsWithin(anchors: seq<Msg>, bound: nat) {
    forall i :: 0 <= i < |anchors| - 1 ==> anchors[i + 1].offset <= anchors[i].offset + bound
  }

  /** How many of the first n messages the decoder labels as synchronizing. */
  function LogSyncs(msgs: seq<Msg>, n: nat): nat
    requires n <= |msgs|
  {
    if n == 0 then 0 else LogSyncs(msgs, n - 1) + (if msgs[n - 1].tcode in LOG_SYNC_TCODES then 1 else 0)
  }

  function LogSyncsOf(raw: seq<Byte>): nat {
    var r := Report(Split(raw).stream, 0);
    LogSyncs(r, |r|)
  }

  /**
   * The gate: the decoder's count, if there is one, agrees with the framing, there are at least two
   * anchors, and none are further apart than the bound.
   */
  method CheckSyncGaps(raw: seq<Byte>, bound: nat, decoded: Option<nat>) returns (ok: bool)
    ensures ok <==> ((decoded.Some? ==> decoded.value == LogSyncsOf(raw)) &&
                     |AnchorsOf(raw)| >= 2 && GapsWithin(AnchorsOf(raw), bound))
  {
    var frames, idle, trunc := FrameLengths(raw);
    ghost var msgs := Report(Split(raw).stream, 0);
    var offsets: seq<int> := [];
    var syncs := 0;
    for i := 0 to |frames|
      invariant |offsets| == |Anchors(msgs, i)| && syncs == LogSyncs(msgs, i)
      invariant forall k :: 0 <= k < |offsets| ==> offsets[k] == Anchors(msgs, i)[k].offset
    {
      if frames[i].tcode in ANCHOR_TCODES {
        offsets := offsets + [frames[i].offset];
      }
      if frames[i].tcode in LOG_SYNC_TCODES {
        syncs := syncs + 1;
      }
    }
    if decoded.Some? && decoded.value != syncs {
      return false;
    }
    if |offsets| < 2 {
      return false;
    }
    var maxGap := MaxGap(offsets);
    ok := maxGap <= bound;
  }

  method MaxGap(offsets: seq<int>) returns (maxGap: int)
    requires |offsets| >= 2
    ensures forall k :: 0 <= k < |offsets| - 1 ==> offsets[k + 1] - offsets[k] <= maxGap
    ensures exists k :: 0 <= k < |offsets| - 1 && offsets[k + 1] - offsets[k] == maxGap
  {
    maxGap := offsets[1] - offsets[0];
    for i := 1 to |offsets| - 1
      invariant forall k :: 0 <= k < i ==> offsets[k + 1] - offsets[k] <= maxGap
      invariant exists k :: 0 <= k < i && offsets[k + 1] - offsets[k] == maxGap
    {
      if offsets[i + 1] - offsets[i] > maxGap {
        maxGap := offsets[i + 1] - offsets[i];
      }
    }
  }

  // ---- What a passed check is worth to a window ------------------------------

  lemma {:induction false} ReportInRange(s: Stream)
    requires Framed(s)
    ensures forall k :: 0 <= k < |Report(s, 0)| ==>
      var m := Report(s, 0)[k];
      m.offset in Boundaries(s) && |m.bytes| > 0 && m.offset + |m.bytes| <= |Flatten(s)|
  {
    if s.Then? {
      ReportInRange(s.before);
      BoundariesInRange(s.before);
      assert Chunk(Bytes(s.last));
    }
  }

  lemma {:induction false} ReportAscends(s: Stream, i: nat, j: nat)
    requires Framed(s) && i < j < |Report(s, 0)|
    ensures Report(s, 0)[i].offset + |Report(s, 0)[i].bytes| <= Report(s, 0)[j].offset
  {
    ReportInRange(s.before);
    if j < |Report(s.before, 0)| {
      ReportAscends(s.before, i, j);
    }
  }

  /** Every message that fits behind p and before b is among the ones within. */
  lemma {:induction false} FitsWithin(s: Stream, k: nat, p: nat, b: nat)
    requires Framed(s) && k < |Report(s, 0)|
    requires p <= Report(s, 0)[k].offset && Report(s, 0)[k].offset + |Report(s, 0)[k].bytes| <= b
    ensures Report(s, 0)[k] in Within(s, p, b)
  {
    if k < |Report(s.before, 0)| {
      FitsWithin(s.before, k, p, b);
    }
  }

  ghost predicate Among(m: Msg, msgs: seq<Msg>, n: nat)
    requires n <= |msgs|
  {
    exists k :: 0 <= k < n && m == msgs[k]
  }

  /** The anchors are anchor messages of the report, in ascending order. */
  lemma {:induction false} AnchorsInReport(s: Stream, n: nat)
    requires Framed(s) && n <= |Report(s, 0)|
    ensures forall i :: 0 <= i < |Anchors(Report(s, 0), n)| ==>
      IsAnchor(Anchors(Report(s, 0), n)[i]) && Among(Anchors(Report(s, 0), n)[i], Report(s, 0), n)
    ensures forall i :: 0 <= i < |Anchors(Report(s, 0), n)| - 1 ==>
      Anchors(Report(s, 0), n)[i].offset < Anchors(Report(s, 0), n)[i + 1].offset
  {
    if n > 0 {
      AnchorsInReport(s, n - 1);
      var r := Report(s, 0);
      var a' := Anchors(r, n - 1);
      assert forall m :: Among(m, r, n - 1) ==> Among(m, r, n);
      if IsAnchor(r[n - 1]) {
        assert Among(r[n - 1], r, n);
        if |a'| > 0 {
          assert Among(a'[|a'| - 1], r, n - 1);
          var k :| 0 <= k < n - 1 && a'[|a'| - 1] == r[k];
          ReportAscends(s, k, n - 1);
          ReportInRange(s);
        }
      }
    }
  }

  /** The last anchor at or before a. */
  lemma {:induction false} LastAnchorBefore(anchors: seq<Msg>, a: nat, n: nat) returns (k: nat)
    requires 0 < n <= |anchors| && anchors[0].offset <= a
    ensures k < n && anchors[k].offset <= a && (k + 1 < n ==> anchors[k + 1].offset > a)
    decreases n
  {
    if anchors[n - 1].offset <= a {
      k := n - 1;
    } else {
      k := LastAnchorBefore(anchors, a, n - 1);
    }
  }

  ghost predicate SalvagesAnchor(s: Stream, payload: seq<Byte>, base: nat) {
    exists m :: m in Report(Split(payload).stream, base) && m in Report(s, 0) && IsAnchor(m)
  }

  /**
   * The guarantee behind the bound. If the check passes with bound B and no message is longer
   * than L, every window of at least B + L bytes between the first and the end of the last anchor
   * still frames to a complete, original anchor message after trimming.
   */
  lemma WindowGuarantee(s: Stream, rest: seq<Byte>, bound: nat, longest: nat,
                        a: nat, b: nat, payload: seq<Byte>, head: nat, tail: nat)
    requires Framed(s) && NoEnd(rest) && a + bound + longest <= b <= |Flatten(s) + rest|
    requires |AnchorsOf(Flatten(s) + rest)| >= 2 && GapsWithin(AnchorsOf(Flatten(s) + rest), bound)
    requires forall k :: 0 <= k < |Report(s, 0)| ==> |Report(s, 0)[k].bytes| <= longest
    requires var an := AnchorsOf(Flatten(s) + rest);
      an[0].offset <= a && b <= an[|an| - 1].offset + |an[|an| - 1].bytes|
    requires Aligned(Window(s, rest, a, b), payload, head, tail)
    ensures SalvagesAnchor(s, payload, a + head)
  {
    SplitInvertsFlatten(s, rest);
    var k := NextAnchor(s, bound, longest, a, b);
    AnchorSalvaged(s, rest, k, a, b, payload, head, tail);
  }

  lemma NextAnchor(s: Stream, bound: nat, longest: nat, a: nat, b: nat) returns (k: nat)
    requires Framed(s) && a + bound + longest <= b
    requires forall k :: 0 <= k < |Report(s, 0)| ==> |Report(s, 0)[k].bytes| <= longest
    requires var an := Anchors(Report(s, 0), |Report(s, 0)|);
      |an| >= 2 && GapsWithin(an, bound) && an[0].offset <= a && b <= an[|an| - 1].offset + |an[|an| - 1].bytes|
    ensures k < |Report(s, 0)| && IsAnchor(Report(s, 0)[k])
    ensures a < Report(s, 0)[k].offset && Report(s, 0)[k].offset + |Report(s, 0)[k].bytes| <= b
  {
    var r := Report(s, 0);
    var an := Anchors(r, |r|);
    AnchorsInReport(s, |r|);
    var i := LastAnchorBefore(an, a, |an|);
    assert an[0].offset < an[0 + 1].offset <= an[0].offset + bound;
    assert Among(an[i], r, |r|);
    assert i + 1 < |an|;
    assert Among(an[i + 1], r, |r|);
    k :| 0 <= k < |r| && an[i + 1] == r[k];
  }

  lemma AnchorSalvaged(s: Stream, rest: seq<Byte>, k: nat,
                       a: nat, b: nat, payload: seq<Byte>, head: nat, tail: nat)
    requires Framed(s) && NoEnd(rest) && a <= b <= |Flatten(s) + rest|
    requires Aligned(Window(s, rest, a, b), payload, head, tail)
    requires k < |Report(s, 0)| && IsAnchor(Report(s, 0)[k])
    requires a < Report(s, 0)[k].offset && Report(s, 0)[k].offset + |Report(s, 0)[k].bytes| <= b
    ensures SalvagesAnchor(s, payload, a + head)
  {
    Resynchronised(s, rest, a, b, payload, head, tail);
    ReportInRange(s);
    FitsWithin(s, k, a + head, b);
    assert Report(s, 0)[k] in Report(s, 0);
  }

  const ANCHOR: Item := Message([36, 3])
  const THREE_ANCHORS: Stream := Then(Then(Then(Start, ANCHOR), ANCHOR), ANCHOR)

  lemma ThreeAnchors()
    ensures Framed(THREE_ANCHORS) && Flatten(THREE_ANCHORS) == [36, 3, 36, 3, 36, 3]
    ensures AnchorsOf([36, 3, 36, 3, 36, 3]) == [Msg(0, 9, [36, 3]), Msg(2, 9, [36, 3]), Msg(4, 9, [36, 3])]
  {
    var s := THREE_ANCHORS;
    assert Flatten(s.before) == [36, 3, 36, 3];
    var r := Report(s, 0);
    assert Report(s.before.before, 0) == [Msg(0, 9, [36, 3])];
    assert r == [Msg(0, 9, [36, 3]), Msg(2, 9, [36, 3]), Msg(4, 9, [36, 3])];
    assert Anchors(r, 1) == [r[0]] && Anchors(r, 2) == [r[0], r[1]] && Anchors(r, 3) == r;
    SplitInvertsFlatten(s, []);
    assert Flatten(s) + [] == [36, 3, 36, 3, 36, 3];
  }

  /** One byte less is not enough: three adjacent two-byte anchors, B = L = 2, and the window [0, 3). */
  lemma WindowBoundIsTight()
    ensures Framed(THREE_ANCHORS) && |Flatten(THREE_ANCHORS)| == 6
    ensures var an := AnchorsOf(Flatten(THREE_ANCHORS));
      |an| == 3 && GapsWithin(an, 2) && an[0].offset == 0 && forall k :: 0 <= k < 3 ==> |an[k].bytes| == 2
    ensures Aligned(Window(THREE_ANCHORS, [], 0, 3), [], 2, 1) && !SalvagesAnchor(THREE_ANCHORS, [], 2)
  {
    ThreeAnchors();
    EndsOnce(Window(THREE_ANCHORS, [], 0, 3));
    NothingSalvagedFrom(THREE_ANCHORS, 2);
  }

  lemma EndsOnce(w: seq<Byte>)
    requires w == [36, 3, 36]
    ensures Aligned(w, [], 2, 1)
  {
    assert IsEnd(w[1]);
  }

  lemma NothingSalvagedFrom(s: Stream, base: nat)
    ensures !SalvagesAnchor(s, [], base)
  {
    assert Split([]).stream == Start;
  }
}
