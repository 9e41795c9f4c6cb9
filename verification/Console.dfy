/** Recording the guest console out of its ring (ConsoleReader in examples/dashboard/server.py). */
module Console {
  import opened Commons
  import opened RingCells
  import opened Seqs

  type Byte = int

  const MAX_BUF: nat := 0x40_0000

  /** The session recording: retained bytes, counter last seen, bytes trimmed, bytes overwritten unread. */
  datatype Reader = Reader(buf: seq<Byte>, total: nat, droppedHead: nat, lost: nat)

  /** The ring region is read in whole words from its start. */
  function WholeWords(cap: nat): nat { (cap + 3) / 4 * 4 }

  /** n bytes of the ring from cell `start` on, across its end if need be. */
  function ReadBlob(cells: seq<Byte>, start: nat, n: nat, cap: nat): seq<Byte>
    requires start < cap && n <= cap && WholeWords(cap) <= |cells|
  {
    var need := start + n;
    var words := Min(cap, ((if need <= cap then need else cap) + 3) / 4);
    var blob := cells[..4 * words];
    if need <= cap then blob[start..start + n] else blob[start..cap] + blob[..need - cap]
  }

  lemma BlobCells(cells: seq<Byte>, start: nat, n: nat, cap: nat)
    requires start < cap && n <= cap && WholeWords(cap) <= |cells|
    ensures |ReadBlob(cells, start, n, cap)| == n && cap <= |cells|
    ensures forall i :: 0 <= i < n ==>
      ReadBlob(cells, start, n, cap)[i] == cells[if start + i < cap then start + i else start + i - cap]
  {
  }

  /** Append what was read, account for what was overwritten, and trim the front. */
  function Record(r: Reader, total: nat, missed: nat, data: seq<Byte>): Reader {
    var buf := r.buf + data;
    Reader(Trim(buf), total, r.droppedHead + (|buf| - |Trim(buf)|), r.lost + missed)
  }

  function Trim<T>(s: seq<T>): (r: seq<T>)
    ensures |r| <= MAX_BUF && |r| <= |s|
  {
    if |s| > MAX_BUF then s[|s| - MAX_BUF..] else s
  }

  /** A counter that went back means that the console was cleared. */
  function Restart(r: Reader, total: nat): Reader {
    if total < r.total then r.(buf := [], total := 0) else r
  }

  /** One poll: the counter was read as `total`, the ring cells afterwards as `cells`. */
  function Poll(r: Reader, total: nat, cells: seq<Byte>, cap: nat): Reader
    requires cap > 0 && WholeWords(cap) <= |cells|
  {
    var r0 := Restart(r, total);
    var n := Min(total - r0.total, cap);
    if n == 0 then r0 else Record(r0, total, total - r0.total - n, LastBytes(cells, total, n, cap))
  }

  /** The n ring bytes in front of counter value `total`. */
  function LastBytes(cells: seq<Byte>, total: nat, n: nat, cap: nat): (r: seq<Byte>)
    requires cap > 0 && WholeWords(cap) <= |cells| && n <= total && n <= cap
    ensures |r| == n
  {
    BlobCells(cells, Cell(total - n, cap), n, cap);
    ReadBlob(cells, Cell(total - n, cap), n, cap)
  }

  /** How the bus answers the write of the read pointer: no such register, an error, or what reads back. */
  datatype Echo = NoRegister | BusError | ReadBack(value: nat)

  class ConsoleReader {
    var buf: seq<Byte>
    var total: nat
    var droppedHead: nat
    var lost: nat
    var drops: nat
    var rptrOk: Option<bool>

    function Abstract(): Reader
      reads this
    {
      Reader(buf, total, droppedHead, lost)
    }

    constructor ()
      ensures Abstract() == Reader([], 0, 0, 0) && drops == 0 && rptrOk == None
    {
      buf, total, droppedHead, lost, drops, rptrOk := [], 0, 0, 0, 0, None;
    }

    /** Append what is new, trim the front, write the counter as read pointer and judge the echo. */
    method PollOnce(counter: nat, dropCount: nat, cells: seq<Byte>, cap: nat, echo: Echo) returns (rptr: nat)
      requires cap > 0 && WholeWords(cap) <= |cells|
      modifies this
      ensures Abstract() == Poll(old(Abstract()), counter, cells, cap)
      ensures rptr == counter && drops == dropCount
      ensures rptrOk == match echo
        case NoRegister => old(rptrOk)
        case BusError => Some(false)
        case ReadBack(v) => if counter > 0 then Some(v == counter) else old(rptrOk)
    {
      drops := dropCount;
      ghost var r := Abstract();
      PollUnfolds(r, counter, cells, cap);
      if counter < total {
        buf, total := [], 0;
      }
      assert Abstract() == Restart(r, counter);
      if counter > total {
        TakeNew(counter, counter - total, cells, cap);
      }
      if echo.BusError? {
        rptrOk := Some(false);
      } else if echo.ReadBack? && counter > 0 {
        rptrOk := Some(echo.value == counter);
      }
      return counter;
    }

    method TakeNew(counter: nat, behind: nat, cells: seq<Byte>, cap: nat)
      requires cap > 0 && WholeWords(cap) <= |cells| && 0 < behind <= counter
      modifies this`buf, this`total, this`droppedHead, this`lost
      ensures var n := Min(behind, cap);
        Abstract() == Record(old(Abstract()), counter, behind - n, LastBytes(cells, counter, n, cap))
    {
      var n := behind;
      if n > cap {
        lost := lost + (n - cap);
        n := cap;
      }
      total := counter;
      Keep(LastBytes(cells, counter, n, cap));
    }

    /** Append, and trim the front down to MAX_BUF. */
    method Keep(data: seq<Byte>)
      modifies this`buf, this`droppedHead
      ensures Abstract() == Record(old(Abstract()), old(total), 0, data)
    {
      buf := buf + data;
      if |buf| > MAX_BUF {
        var cut := |buf| - MAX_BUF;
        buf := buf[cut..];
        droppedHead := droppedHead + cut;
      }
    }
  }

  lemma PollUnfolds(r: Reader, total: nat, cells: seq<Byte>, cap: nat)
    requires cap > 0 && WholeWords(cap) <= |cells|
    ensures var r0 := Restart(r, total);
      var n := Min(total - r0.total, cap);
      && r0.total <= total
      && Poll(r, total, cells, cap) ==
          if r0.total == total then r0 else Record(r0, total, total - r0.total - n, LastBytes(cells, total, n, cap))
  {
  }

  /** Every byte the counter advanced by is retained, trimmed or reported lost -- clears included. */
  lemma PollAccounts(r: Reader, total: nat, cells: seq<Byte>, cap: nat)
    requires cap > 0 && WholeWords(cap) <= |cells|
    ensures var q := Poll(r, total, cells, cap);
      && q.total == total
      && (total >= r.total ==>
            q.droppedHead + |q.buf| + q.lost - q.total == r.droppedHead + |r.buf| + r.lost - r.total)
      && (total < r.total ==> q.droppedHead + |q.buf| + q.lost - q.total == r.droppedHead + r.lost)
      && (|r.buf| <= MAX_BUF ==> |q.buf| <= MAX_BUF)
  {
    var r0 := Restart(r, total);
    var n := Min(total - r0.total, cap);
    if n > 0 {
      RecordAccounts(r0, total, total - r0.total - n, LastBytes(cells, total, n, cap));
    }
  }

  /** The bytes a poll takes over: those the counter advanced by, or the last ring of them. */
  function Taken(r: Reader, total: nat, cells: seq<Byte>, cap: nat): seq<Byte>
    requires cap > 0 && WholeWords(cap) <= |cells|
  {
    if total < r.total then LastBytes(cells, total, Min(total, cap), cap)
    else LastBytes(cells, total, Min(total - r.total, cap), cap)
  }

  /** The recording keeps the newest of the bytes it had and the new ones, as many as its limit allows. */
  lemma PollKeeps(r: Reader, total: nat, cells: seq<Byte>, cap: nat)
    requires cap > 0 && WholeWords(cap) <= |cells| && |r.buf| <= MAX_BUF
    ensures var all := (if total < r.total then [] else r.buf) + Taken(r, total, cells, cap);
      var q := Poll(r, total, cells, cap);
      |q.buf| == Min(MAX_BUF, |all|) && q.buf == all[|all| - |q.buf|..]
  {
    var r0, data := Restart(r, total), Taken(r, total, cells, cap);
    PollRecords(r, total, cells, cap);
    if data == [] {
      assert r0.buf + data == r0.buf;
    } else {
      KeepsNewest(r0, total, total - r0.total - |data|, data);
    }
  }

  lemma PollRecords(r: Reader, total: nat, cells: seq<Byte>, cap: nat)
    requires cap > 0 && WholeWords(cap) <= |cells|
    ensures var r0, data := Restart(r, total), Taken(r, total, cells, cap);
      |data| <= total - r0.total &&
      Poll(r, total, cells, cap) == if data == [] then r0 else Record(r0, total, total - r0.total - |data|, data)
  {
  }

  lemma KeepsNewest(r: Reader, total: nat, missed: nat, data: seq<Byte>)
    ensures var all, q := r.buf + data, Record(r, total, missed, data);
      |q.buf| == Min(MAX_BUF, |all|) && q.buf == all[|all| - |q.buf|..]
  {
  }

  lemma RecordAccounts(r: Reader, total: nat, missed: nat, data: seq<Byte>)
    ensures var q := Record(r, total, missed, data);
      && q.total == total && |q.buf| <= MAX_BUF
      && q.droppedHead + |q.buf| + q.lost == r.droppedHead + |r.buf| + r.lost + |data| + missed
  {
  }

  // ---- The producer ---------------------------------------------------------------

  /** The console ring in hardware: every accepted byte, the read pointer, and the cells. */
  datatype Ring = Ring(stream: seq<Byte>, rptr: nat, cells: seq<Byte>)

  /** A byte arrives. A dropping ring refuses it once it is a full ring ahead of the read pointer. */
  function Offer(h: Ring, b: Byte, cap: nat, dropping: bool): Ring
    requires 0 < cap <= |h.cells|
  {
    if dropping && |h.stream| - h.rptr >= cap then h
    else Ring(h.stream + [b], h.rptr, h.cells[Cell(|h.stream|, cap) := b])
  }

  function OfferAll(h: Ring, bs: seq<Byte>, n: nat, cap: nat, dropping: bool): (r: Ring)
    requires 0 < cap <= |h.cells| && n <= |bs|
    ensures |r.cells| == |h.cells| && r.rptr == h.rptr && h.stream <= r.stream
  {
    if n == 0 then h else Offer(OfferAll(h, bs, n - 1, cap, dropping), bs[n - 1], cap, dropping)
  }

  /** The last `cap` accepted bytes are in their cells. */
  ghost predicate InRing(h: Ring, cap: nat) {
    0 < cap && WholeWords(cap) <= |h.cells| && NewestInCells(h.cells, h.stream, Cell(|h.stream|, cap), cap)
  }

  ghost predicate NewestInCells(cells: seq<Byte>, stream: seq<Byte>, p: nat, cap: nat) {
    && p < cap <= |cells|
    && forall m :: 1 <= m <= cap && m <= |stream| ==> cells[Behind(p, m, cap)] == stream[|stream| - m]
  }

  lemma OfferInRing(h: Ring, b: Byte, cap: nat, dropping: bool)
    requires InRing(h, cap)
    ensures InRing(Offer(h, b, cap, dropping), cap)
  {
    CellStep(|h.stream|, 1, cap);
    WriteOne(h.cells, h.stream, Cell(|h.stream|, cap), b, cap);
  }

  lemma WriteOne(cells: seq<Byte>, stream: seq<Byte>, p: nat, b: Byte, cap: nat)
    requires NewestInCells(cells, stream, p, cap)
    ensures NewestInCells(cells[p := b], stream + [b], if p + 1 < cap then p + 1 else 0, cap)
  {
    var p' := if p + 1 < cap then p + 1 else 0;
    forall m | 1 <= m <= cap && m <= |stream| + 1
      ensures cells[p := b][Behind(p', m, cap)] == (stream + [b])[|stream| + 1 - m]
    {
      if m > 1 {
        assert Behind(p', m, cap) == Behind(p, m - 1, cap);
        assert cells[Behind(p, m - 1, cap)] == stream[|stream| - (m - 1)];
      }
    }
  }

  lemma {:induction false} OfferAllInRing(h: Ring, bs: seq<Byte>, n: nat, cap: nat, dropping: bool)
    requires InRing(h, cap) && n <= |bs|
    ensures InRing(OfferAll(h, bs, n, cap, dropping), cap)
  {
    if n > 0 {
      OfferAllInRing(h, bs, n - 1, cap, dropping);
      OfferInRing(OfferAll(h, bs, n - 1, cap, dropping), bs[n - 1], cap, dropping);
    }
  }

  /** A dropping ring never runs more than its capacity ahead of the read pointer. */
  lemma {:induction false} OfferAllBounded(h: Ring, bs: seq<Byte>, n: nat, cap: nat)
    requires 0 < cap <= |h.cells| && n <= |bs| && |h.stream| <= h.rptr + cap
    ensures |OfferAll(h, bs, n, cap, true).stream| <= h.rptr + cap
  {
    if n > 0 { OfferAllBounded(h, bs, n - 1, cap); }
  }

  /** The bytes in front of position `total` are read correctly as long as none was overwritten since. */
  lemma BlobIsStream(h: Ring, total: nat, n: nat, cap: nat)
    requires InRing(h, cap) && 0 < n <= total <= |h.stream| && n <= cap && |h.stream| <= total - n + cap
    ensures LastBytes(h.cells, total, n, cap) == h.stream[total - n..total]
  {
    var data, want := LastBytes(h.cells, total, n, cap), h.stream[total - n..total];
    BlobCells(h.cells, Cell(total - n, cap), n, cap);
    forall i | 0 <= i < n
      ensures data[i] == want[i]
    {
      CellHolds(h, total - n, i, cap);
    }
  }

  lemma CellHolds(h: Ring, first: nat, i: nat, cap: nat)
    requires InRing(h, cap) && first + i < |h.stream| <= first + cap && i < cap
    ensures var start := Cell(first, cap);
      cap <= |h.cells| && h.cells[if start + i < cap then start + i else start + i - cap] == h.stream[first + i]
  {
    var m := |h.stream| - (first + i);
    CellStep(first, i, cap);
    CellStep(first + i, m, cap);
    assert h.cells[Behind(Cell(|h.stream|, cap), m, cap)] == h.stream[|h.stream| - m];
  }

  // ---- Runs with a dropping ring: nothing is lost --------------------------------------

  datatype System = System(ring: Ring, rd: Reader)

  /** A byte arrives; or the server polls, with `mid` arriving between counter read and ring read. */
  datatype Action = Arrive(b: Byte) | PollWith(mid: seq<Byte>)

  function Step(s: System, a: Action, cap: nat, dropping: bool): (q: System)
    requires 0 < cap && cap <= WholeWords(cap) <= |s.ring.cells|
    ensures |q.ring.cells| == |s.ring.cells|
  {
    match a
    case Arrive(b) => s.(ring := Offer(s.ring, b, cap, dropping))
    case PollWith(mid) =>
      var total := |s.ring.stream|;
      var later := OfferAll(s.ring, mid, |mid|, cap, dropping);
      System(later.(rptr := total), Poll(s.rd, total, later.cells, cap))
  }

  function Empty(cells: seq<Byte>): System { System(Ring([], 0, cells), Reader([], 0, 0, 0)) }

  function After(s: System, acts: seq<Action>, n: nat, cap: nat, dropping: bool): (q: System)
    requires 0 < cap && cap <= WholeWords(cap) <= |s.ring.cells| && n <= |acts|
    ensures |q.ring.cells| == |s.ring.cells|
  {
    if n == 0 then s else Step(After(s, acts, n - 1, cap, dropping), acts[n - 1], cap, dropping)
  }

  ghost predicate Lossless(s: System, cap: nat) {
    && InRing(s.ring, cap)
    && s.rd.total == s.ring.rptr <= |s.ring.stream| <= s.ring.rptr + cap
    && s.rd.lost == 0 && |s.rd.buf| <= MAX_BUF && s.rd.droppedHead + |s.rd.buf| == s.rd.total
    && s.rd.buf == s.ring.stream[s.rd.droppedHead..s.rd.total]
  }

  lemma StepLossless(s: System, a: Action, cap: nat)
    requires Lossless(s, cap) && cap <= WholeWords(cap)
    ensures Lossless(Step(s, a, cap, true), cap)
  {
    match a
    case Arrive(b) => OfferInRing(s.ring, b, cap, true);
    case PollWith(mid) =>
      OfferAllInRing(s.ring, mid, |mid|, cap, true);
      OfferAllBounded(s.ring, mid, |mid|, cap);
      PollLossless(s, OfferAll(s.ring, mid, |mid|, cap, true), cap);
  }

  lemma PollLossless(s: System, later: Ring, cap: nat)
    requires Lossless(s, cap) && InRing(later, cap) && later.rptr == s.ring.rptr
    requires s.ring.stream <= later.stream && |later.stream| <= s.ring.rptr + cap
    ensures Lossless(System(later.(rptr := |s.ring.stream|), Poll(s.rd, |s.ring.stream|, later.cells, cap)), cap)
  {
    var total := |s.ring.stream|;
    assert s.rd.buf == later.stream[s.rd.droppedHead..s.rd.total];
    PollTakesNew(s.rd, total, later, cap);
    if total > s.rd.total { RecordLossless(s.rd, later.stream, total); }
  }

  lemma PollTakesNew(r: Reader, total: nat, later: Ring, cap: nat)
    requires InRing(later, cap) && r.total <= total <= |later.stream| <= r.total + cap
    ensures Poll(r, total, later.cells, cap) ==
      if total == r.total then r else Record(r, total, 0, later.stream[r.total..total])
  {
    if total > r.total { BlobIsStream(later, total, total - r.total, cap); }
  }

  lemma RecordLossless(r: Reader, stream: seq<Byte>, total: nat)
    requires r.lost == 0 && r.droppedHead + |r.buf| == r.total <= total <= |stream|
    requires r.buf == stream[r.droppedHead..r.total]
    ensures var q := Record(r, total, 0, stream[r.total..total]);
      && q.lost == 0 && |q.buf| <= MAX_BUF && q.droppedHead + |q.buf| == q.total == total
      && q.buf == stream[q.droppedHead..q.total]
  {
    assert stream[r.droppedHead..r.total] + stream[r.total..total] == stream[r.droppedHead..total];
    var q := Record(r, total, 0, stream[r.total..total]);
    SubSlice(stream, r.droppedHead, total, q.droppedHead - r.droppedHead, total - r.droppedHead);
  }

  /**
   * With a ring that drops instead of overwriting unread bytes, every reachable state -- whatever
   * arrives, also in the middle of a poll -- has lost nothing: the recording is exactly the
   * accepted stream behind the trimmed head, and it never exceeds its limit.
   */
  lemma {:induction false} EveryRunLossless(cells: seq<Byte>, acts: seq<Action>, n: nat, cap: nat)
    requires 0 < cap && cap <= WholeWords(cap) <= |cells| && n <= |acts|
    ensures Lossless(After(Empty(cells), acts, n, cap, true), cap)
  {
    if n > 0 {
      EveryRunLossless(cells, acts, n - 1, cap);
      StepLossless(After(Empty(cells), acts, n - 1, cap, true), acts[n - 1], cap);
    }
  }

  // ---- When a poll reads the right bytes -------------------------------------------------

  ghost predicate Distinct(stream: seq<Byte>) {
    forall i, j :: 0 <= i < j < |stream| ==> stream[i] != stream[j]
  }

  /**
   * The last n bytes in front of `total` are read correctly exactly when none of them has been
   * overwritten: at most `cap` bytes lie between the first of them and the end of the stream.
   */
  lemma BlobExact(h: Ring, total: nat, n: nat, cap: nat)
    requires InRing(h, cap) && Distinct(h.stream) && 0 < n <= total <= |h.stream| && n <= cap
    ensures LastBytes(h.cells, total, n, cap) == h.stream[total - n..total] <==> |h.stream| <= total - n + cap
  {
    if |h.stream| <= total - n + cap {
      BlobIsStream(h, total, n, cap);
    } else {
      var j := OverwrittenBy(h, total, n, cap);
      assert h.stream[total - n..total][0] == h.stream[total - n];
    }
  }

  /** Otherwise the first of them has been overwritten by a later byte. */
  lemma OverwrittenBy(h: Ring, total: nat, n: nat, cap: nat) returns (j: nat)
    requires InRing(h, cap) && 0 < n <= total && n <= cap && total - n + cap < |h.stream|
    ensures total - n < j < |h.stream| && LastBytes(h.cells, total, n, cap)[0] == h.stream[j]
  {
    var p, c := Cell(|h.stream|, cap), Cell(total - n, cap);
    var m := if p > c then p - c else p - c + cap;
    j := |h.stream| - m;
    BlobCells(h.cells, c, n, cap);
    assert h.cells[Behind(p, m, cap)] == h.stream[|h.stream| - m];
  }

  /** The ring as it is when the poll reads it, `mid` having arrived since the counter was read. */
  function Later(s: System, mid: seq<Byte>, cap: nat, dropping: bool): Ring
    requires 0 < cap <= |s.ring.cells|
  {
    OfferAll(s.ring, mid, |mid|, cap, dropping)
  }

  /** What the poll wants and what has arrived in the meantime fit into the ring together. */
  predicate Room(s: System, a: Action, cap: nat, dropping: bool)
    requires 0 < cap <= |s.ring.cells|
  {
    a.PollWith? ==>
      var total := |s.ring.stream|;
      |Later(s, a.mid, cap, dropping).stream| - total + Min(total - Restart(s.rd, total).total, cap) <= cap
  }

  /** A poll that finds something new records the right bytes exactly when there is room. */
  lemma PollExact(s: System, mid: seq<Byte>, cap: nat, dropping: bool)
    requires InRing(s.ring, cap) && Distinct(Later(s, mid, cap, dropping).stream) && s.rd.total < |s.ring.stream|
    ensures var total, later := |s.ring.stream|, Later(s, mid, cap, dropping);
      var n := Min(total - s.rd.total, cap);
      LastBytes(later.cells, total, n, cap) == later.stream[total - n..total] <==> Room(s, PollWith(mid), cap, dropping)
  {
    OfferAllInRing(s.ring, mid, |mid|, cap, dropping);
    BlobExact(Later(s, mid, cap, dropping), |s.ring.stream|, Min(|s.ring.stream| - s.rd.total, cap), cap);
  }

  /** One byte arriving in the middle of a poll of a full overwriting ring is recorded in the wrong place. */
  lemma TornPoll()
    ensures var s := System(Ring([1, 2, 3, 4], 0, [1, 2, 3, 4]), Reader([], 0, 0, 0));
      InRing(s.ring, 4) && !Room(s, PollWith([5]), 4, false) && Step(s, PollWith([5]), 4, false).rd.buf == [5, 2, 3, 4]
  {
    var s := System(Ring([1, 2, 3, 4], 0, [1, 2, 3, 4]), Reader([], 0, 0, 0));
    assert Cell(4, 4) == 0;
    var later := OfferAll(s.ring, [5], 1, 4, false);
    assert OfferAll(s.ring, [5], 0, 4, false) == s.ring;
    assert later.cells == [5, 2, 3, 4];
    assert ReadBlob(later.cells, 0, 4, 4) == [5, 2, 3, 4];
  }

  // ---- Runs with any ring: losses are counted, what is kept is right ---------------------

  function Range(lo: nat, n: nat): seq<nat> { seq(n, i requires 0 <= i < n => lo + i) }

  /** Stream positions after a poll: the last n in front of the counter are appended, the front is trimmed. */
  function Polled(pos: seq<nat>, rd: Reader, total: nat, cap: nat): seq<nat> {
    var n := Min(total - Restart(rd, total).total, cap);
    Trim((if total < rd.total then [] else pos) + Range(total - n, n))
  }

  /** Which stream positions the run has recorded, from its polls alone. */
  function Positions(start: System, acts: seq<Action>, n: nat, cap: nat, dropping: bool): seq<nat>
    requires 0 < cap && cap <= WholeWords(cap) <= |start.ring.cells| && n <= |acts|
  {
    if n == 0 then [] else
      var s, pos := After(start, acts, n - 1, cap, dropping), Positions(start, acts, n - 1, cap, dropping);
      StepPositions(s, pos, acts[n - 1], cap)
  }

  function StepPositions(s: System, pos: seq<nat>, a: Action, cap: nat): seq<nat> {
    if a.PollWith? then Polled(pos, s.rd, |s.ring.stream|, cap) else pos
  }

  /** The buffer holds the stream bytes at these positions. */
  ghost predicate Tracks(rd: Reader, pos: seq<nat>, stream: seq<Byte>) {
    && |pos| == |rd.buf| && rd.total <= |stream|
    && (forall i :: 0 <= i < |pos| ==> pos[i] < rd.total && rd.buf[i] == stream[pos[i]])
  }

  lemma RecordTracks(rd: Reader, pos: seq<nat>, stream: seq<Byte>, total: nat, n: nat, missed: nat)
    requires Tracks(rd, pos, stream) && rd.total + n <= total <= |stream|
    ensures Tracks(Record(rd, total, missed, stream[total - n..total]), Trim(pos + Range(total - n, n)), stream)
  {
    var all := pos + Range(total - n, n);
    var buf := rd.buf + stream[total - n..total];
    forall i | 0 <= i < |all|
      ensures all[i] < total && buf[i] == stream[all[i]]
    {
    }
    TrimTracks(all, buf, total, stream);
  }

  lemma TrimTracks(all: seq<nat>, buf: seq<Byte>, total: nat, stream: seq<Byte>)
    requires |all| == |buf| && total <= |stream|
    requires forall i :: 0 <= i < |all| ==> all[i] < total && buf[i] == stream[all[i]]
    ensures |Trim(all)| == |Trim(buf)|
    ensures forall i :: 0 <= i < |Trim(all)| ==> Trim(all)[i] < total && Trim(buf)[i] == stream[Trim(all)[i]]
  {
  }

  /** With room, a poll appends the stream bytes at the positions it is after. */
  lemma PollTracks(rd: Reader, pos: seq<nat>, total: nat, h: Ring, cap: nat)
    requires InRing(h, cap) && Tracks(rd, pos, h.stream) && rd.total <= total <= |h.stream| && |pos| <= MAX_BUF
    requires |h.stream| - total + Min(total - rd.total, cap) <= cap
    ensures Tracks(Poll(rd, total, h.cells, cap), Polled(pos, rd, total, cap), h.stream)
  {
    var n := Min(total - rd.total, cap);
    if n == 0 {
      NothingPolled(pos, rd, total, cap);
    } else {
      var data := h.stream[total - n..total];
      BlobIsStream(h, total, n, cap);
      PollIsRecord(rd, total, h.cells, cap, n, data);
      PolledIsTrimmed(pos, rd, total, cap, n);
      RecordTracks(rd, pos, h.stream, total, n, total - rd.total - n);
    }
  }

  lemma PollIsRecord(rd: Reader, total: nat, cells: seq<Byte>, cap: nat, n: nat, data: seq<Byte>)
    requires cap > 0 && WholeWords(cap) <= |cells| && rd.total <= total && 0 < n == Min(total - rd.total, cap)
    requires LastBytes(cells, total, n, cap) == data
    ensures Poll(rd, total, cells, cap) == Record(rd, total, total - rd.total - n, data)
  {
  }

  lemma PolledIsTrimmed(pos: seq<nat>, rd: Reader, total: nat, cap: nat, n: nat)
    requires rd.total <= total && n == Min(total - rd.total, cap)
    ensures Polled(pos, rd, total, cap) == Trim(pos + Range(total - n, n))
  {
  }

  lemma NothingPolled(pos: seq<nat>, rd: Reader, total: nat, cap: nat)
    requires total == rd.total && |pos| <= MAX_BUF
    ensures Polled(pos, rd, total, cap) == pos
  {
    assert pos + Range(total, 0) == pos;
  }

  ghost predicate Sampled(s: System, pos: seq<nat>, cap: nat) {
    && InRing(s.ring, cap) && |s.rd.buf| <= MAX_BUF
    && s.rd.droppedHead + |s.rd.buf| + s.rd.lost == s.rd.total
    && Tracks(s.rd, pos, s.ring.stream)
  }

  lemma PollSampled(s: System, pos: seq<nat>, mid: seq<Byte>, cap: nat, dropping: bool)
    requires Sampled(s, pos, cap) && cap <= WholeWords(cap) && Room(s, PollWith(mid), cap, dropping)
    ensures Sampled(Step(s, PollWith(mid), cap, dropping), Polled(pos, s.rd, |s.ring.stream|, cap), cap)
  {
    var total, later := |s.ring.stream|, Later(s, mid, cap, dropping);
    OfferAllInRing(s.ring, mid, |mid|, cap, dropping);
    assert forall i :: 0 <= i < total ==> s.ring.stream[i] == later.stream[i];
    PollAccounts(s.rd, total, later.cells, cap);
    PollTracks(s.rd, pos, total, later, cap);
  }

  lemma StepSampled(s: System, pos: seq<nat>, a: Action, cap: nat, dropping: bool)
    requires Sampled(s, pos, cap) && cap <= WholeWords(cap) && Room(s, a, cap, dropping)
    ensures Sampled(Step(s, a, cap, dropping), StepPositions(s, pos, a, cap), cap)
  {
    match a
    case Arrive(b) => OfferInRing(s.ring, b, cap, dropping);
    case PollWith(mid) => PollSampled(s, pos, mid, cap, dropping);
  }

  /** Every poll of the run has room. */
  predicate AllRoom(start: System, acts: seq<Action>, n: nat, cap: nat, dropping: bool)
    requires 0 < cap && cap <= WholeWords(cap) <= |start.ring.cells| && n <= |acts|
  {
    n > 0 ==>
      AllRoom(start, acts, n - 1, cap, dropping) &&
      Room(After(start, acts, n - 1, cap, dropping), acts[n - 1], cap, dropping)
  }

  /**
   * Whatever arrives, also within a poll: as long as every poll has room, each recorded byte is the
   * stream byte at the position its poll was after, and every skipped byte is counted as lost.
   */
  lemma {:induction false} EveryRunSampled(cells: seq<Byte>, acts: seq<Action>, n: nat, cap: nat, dropping: bool)
    requires 0 < cap && cap <= WholeWords(cap) <= |cells| && n <= |acts|
    requires AllRoom(Empty(cells), acts, n, cap, dropping)
    ensures Sampled(After(Empty(cells), acts, n, cap, dropping), Positions(Empty(cells), acts, n, cap, dropping), cap)
  {
    var start := Empty(cells);
    if n > 0 {
      EveryRunSampled(cells, acts, n - 1, cap, dropping);
      var s, pos := After(start, acts, n - 1, cap, dropping), Positions(start, acts, n - 1, cap, dropping);
      StepSampled(s, pos, acts[n - 1], cap, dropping);
    }
  }
}
