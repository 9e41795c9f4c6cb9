/** The dual-pin MSEO byte stream, its framing grammar and the framer that reads a capture. */
module Nexus {
  import opened Seqs

  newtype Byte = x: int | 0 <= x < 256

  const IDLE_BYTE: Byte := 0xFF

  /** The two MSEO bits and the six MDO bits of a byte. */
  function Mseo(b: Byte): Byte { b % 4 }
  function Mdo(b: Byte): nat { (b / 4) as nat }
  predicate IsEnd(b: Byte) { Mseo(b) == 3 }

  /** What a stream consists of: idle bytes, and messages with their bytes. */
  datatype Item = Idle | Message(bytes: seq<Byte>)

  /** A stream grows at its end, one item at a time. */
  datatype Stream = Start | Then(before: Stream, last: Item)

  function Bytes(it: Item): seq<Byte> {
    match it
    case Idle => [IDLE_BYTE]
    case Message(m) => m
  }

  function Flatten(s: Stream): seq<Byte> {
    match s
    case Start => []
    case Then(f, it) => Flatten(f) + Bytes(it)
  }

  function Append(a: Stream, b: Stream): Stream {
    match b
    case Start => a
    case Then(f, it) => Then(Append(a, f), it)
  }

  predicate NoEnd(s: seq<Byte>) {
    forall k :: 0 <= k < |s| ==> !IsEnd(s[k])
  }

  /** A chunk that the framers cut out: its only end-of-message byte is its last one. */
  predicate Chunk(m: seq<Byte>) {
    |m| > 0 && IsEnd(m[|m| - 1]) && NoEnd(m[..|m| - 1])
  }

  /** What a framer can deliver: idle bytes, and chunks other than the idle byte. */
  predicate FramedItem(it: Item) {
    it.Message? ==> Chunk(it.bytes) && it.bytes != [IDLE_BYTE]
  }

  predicate Framed(s: Stream) {
    s.Then? ==> Framed(s.before) && FramedItem(s.last)
  }

  /** What an encoder emits: moreover the first byte of a message carries MSEO 00. */
  predicate WellFormed(s: Stream) {
    s.Then? ==>
      WellFormed(s.before) && FramedItem(s.last) && (s.last.Message? ==> Mseo(s.last.bytes[0]) == 0)
  }

  lemma {:induction false} WellFormedIsFramed(s: Stream)
    requires WellFormed(s)
    ensures Framed(s)
  {
    if s.Then? { WellFormedIsFramed(s.before); }
  }

  lemma {:induction false} FlattenAppend(a: Stream, b: Stream)
    ensures Flatten(Append(a, b)) == Flatten(a) + Flatten(b)
    ensures Framed(Append(a, b)) <==> Framed(a) && Framed(b)
  {
    if b.Then? { FlattenAppend(a, b.before); }
  }

  lemma EndsOnEnd(s: Stream)
    requires Framed(s) && s.Then?
    ensures Flatten(s) != [] && IsEnd(Flatten(s)[|Flatten(s)| - 1])
  {
    assert Chunk(Bytes(s.last));
  }

  // ---- Splitting a buffer -------------------------------------------------

  /** The item a closed chunk stands for. */
  function ItemOf(c: seq<Byte>): Item {
    if c == [IDLE_BYTE] then Idle else Message(c)
  }

  /** The items read so far and the unfinished rest behind the last end byte. */
  datatype Parse = Parse(stream: Stream, rest: seq<Byte>)

  function Push(p: Parse, b: Byte): Parse {
    var c := p.rest + [b];
    if IsEnd(b) then Parse(Then(p.stream, ItemOf(c)), []) else Parse(p.stream, c)
  }

  /** The reading of a buffer, byte by byte. */
  function Split(buf: seq<Byte>): Parse {
    if buf == [] then Parse(Start, []) else Push(Split(buf[..|buf| - 1]), buf[|buf| - 1])
  }

  lemma SplitSnoc(buf: seq<Byte>, b: Byte)
    ensures Split(buf + [b]) == Push(Split(buf), b)
  {
    assert (buf + [b])[..|buf|] == buf;
  }

  /** Splitting loses nothing and delivers framed items. */
  lemma {:induction false} SplitParts(buf: seq<Byte>)
    ensures Framed(Split(buf).stream) && NoEnd(Split(buf).rest)
    ensures Flatten(Split(buf).stream) + Split(buf).rest == buf
  {
    if buf != [] {
      var front, b := buf[..|buf| - 1], buf[|buf| - 1];
      SplitParts(front);
      Unsnoc(buf);
      PushParts(Split(front), b);
    }
  }

  lemma PushParts(p: Parse, b: Byte)
    requires Framed(p.stream) && NoEnd(p.rest)
    ensures var q := Push(p, b);
      Framed(q.stream) && NoEnd(q.rest) && Flatten(q.stream) + q.rest == Flatten(p.stream) + p.rest + [b]
  {
    var c := p.rest + [b];
    assert c[..|c| - 1] == p.rest;
  }

  /** Splitting inverts flattening, whatever unfinished rest follows. */
  lemma {:induction false} SplitInvertsFlatten(s: Stream, rest: seq<Byte>)
    requires Framed(s) && NoEnd(rest)
    ensures Split(Flatten(s) + rest) == Parse(s, rest)
    decreases s, |rest|, 1
  {
    if rest == [] {
      assert Flatten(s) + rest == Flatten(s);
      if s.Then? { SplitLastItem(s); }
    } else {
      var front, b := rest[..|rest| - 1], rest[|rest| - 1];
      SplitInvertsFlatten(s, front);
      OpenItem(Flatten(s), s, front, b);
      Unsnoc(rest);
    }
  }

  lemma {:induction false} SplitLastItem(s: Stream)
    requires Framed(s) && s.Then?
    ensures Split(Flatten(s)) == Parse(s, [])
    decreases s, 0, 0
  {
    var c := Bytes(s.last);
    var front, b := c[..|c| - 1], c[|c| - 1];
    ItemBack(s.last);
    SplitInvertsFlatten(s.before, front);
    CloseItem(Flatten(s.before), s.before, front, b);
    Unsnoc(c);
  }

  /** A further byte that ends no message lengthens the unfinished rest. */
  lemma OpenItem(f: seq<Byte>, s: Stream, front: seq<Byte>, b: Byte)
    requires Split(f + front) == Parse(s, front) && !IsEnd(b)
    ensures Split(f + (front + [b])) == Parse(s, front + [b])
  {
    SplitSnoc(f + front, b);
    assert f + (front + [b]) == (f + front) + [b];
  }

  /** An end byte closes the unfinished rest. */
  lemma CloseItem(f: seq<Byte>, s: Stream, front: seq<Byte>, b: Byte)
    requires Split(f + front) == Parse(s, front) && IsEnd(b)
    ensures Split(f + (front + [b])) == Parse(Then(s, ItemOf(front + [b])), [])
  {
    SplitSnoc(f + front, b);
    assert f + (front + [b]) == (f + front) + [b];
  }

  lemma ItemBack(it: Item)
    requires FramedItem(it)
    ensures Chunk(Bytes(it)) && ItemOf(Bytes(it)) == it
  {
  }

  /** A stream has only one reading: the framing grammar is unambiguous. */
  lemma Unambiguous(a: Stream, ta: seq<Byte>, b: Stream, tb: seq<Byte>)
    requires Framed(a) && Framed(b) && NoEnd(ta) && NoEnd(tb)
    requires Flatten(a) + ta == Flatten(b) + tb
    ensures a == b && ta == tb
  {
    SplitInvertsFlatten(a, ta);
    SplitInvertsFlatten(b, tb);
  }

  // ---- What the framers report --------------------------------------------

  datatype Msg = Msg(offset: nat, tcode: nat, bytes: seq<Byte>)

  /** The TCODE sits in the MDO bits of the first byte. */
  function Tcode(m: seq<Byte>): nat {
    if m == [] then 0 else Mdo(m[0])
  }

  function Entry(it: Item, offset: nat): seq<Msg> {
    match it
    case Idle => []
    case Message(m) => [Msg(offset, Tcode(m), m)]
  }

  /** The messages of a stream that starts at byte `base`. */
  function Report(s: Stream, base: nat): seq<Msg> {
    match s
    case Start => []
    case Then(f, it) => Report(f, base) + Entry(it, base + |Flatten(f)|)
  }

  function IdleCount(s: Stream): nat {
    match s
    case Start => 0
    case Then(f, it) => IdleCount(f) + (if it.Idle? then 1 else 0)
  }

  /** frame_messages of the address-width check. */
  method FrameMessages(buf: seq<Byte>) returns (msgs: seq<Msg>, idle: nat, trunc: nat)
    ensures msgs == Report(Split(buf).stream, 0)
    ensures idle == IdleCount(Split(buf).stream)
    ensures trunc == |Split(buf).rest|
  {
    msgs, idle, trunc := [], 0, 0;
    var i, n := 0, |buf|;
    ghost var s := Start;
    while i < n
      invariant 0 <= i <= n
      invariant Framed(s) && Flatten(s) == buf[..i]
      invariant msgs == Report(s, 0) && idle == IdleCount(s) && trunc == 0
    {
      if buf[i] == IDLE_BYTE {
        IdleByte(buf, i, s);
        s := Then(s, Idle);
        idle := idle + 1;
        i := i + 1;
        continue;
      }
      var start := i;
      var tcode := Mdo(buf[i]);
      while i < n && !IsEnd(buf[i])
        invariant start <= i <= n
        invariant forall k :: start <= k < i ==> !IsEnd(buf[k])
      {
        i := i + 1;
      }
      if i >= n {
        trunc := n - start;
        UnfinishedRest(buf, start, s);
        return;
      }
      i := i + 1;
      ClosedMessage(buf, start, i, s);
      msgs := msgs + [Msg(start, tcode, buf[start..i])];
      s := Then(s, Message(buf[start..i]));
    }
    UnfinishedRest(buf, n, s);
  }

  /** What is left behind the last item without an end byte is the truncated tail. */
  lemma UnfinishedRest(buf: seq<Byte>, start: nat, s: Stream)
    requires start <= |buf| && Framed(s) && Flatten(s) == buf[..start]
    requires forall k :: start <= k < |buf| ==> !IsEnd(buf[k])
    ensures Split(buf) == Parse(s, buf[start..])
  {
    assert buf == Flatten(s) + buf[start..];
    SplitInvertsFlatten(s, buf[start..]);
  }

  lemma IdleByte(buf: seq<Byte>, i: nat, s: Stream)
    requires i < |buf| && buf[i] == IDLE_BYTE && Flatten(s) == buf[..i]
    ensures Flatten(Then(s, Idle)) == buf[..i + 1]
    ensures Report(Then(s, Idle), 0) == Report(s, 0)
  {
  }

  /** The chunk that ends before byte i becomes one message. */
  lemma ClosedMessage(buf: seq<Byte>, start: nat, i: nat, s: Stream)
    requires start < i <= |buf| && IsEnd(buf[i - 1]) && buf[start] != IDLE_BYTE
    requires forall k :: start <= k < i - 1 ==> !IsEnd(buf[k])
    requires Framed(s) && Flatten(s) == buf[..start]
    ensures var s' := Then(s, Message(buf[start..i]));
      Framed(s') && Flatten(s') == buf[..i]
      && Report(s', 0) == Report(s, 0) + [Msg(start, Mdo(buf[start]), buf[start..i])]
  {
    var c := buf[start..i];
    ChunkCut(buf, start, i);
    assert c[0] == buf[start];
    assert buf[..i] == buf[..start] + c;
    assert Flatten(Then(s, Message(c))) == Flatten(s) + c;
    assert Report(Then(s, Message(c)), 0) == Report(s, 0) + [Msg(start, Tcode(c), c)];
  }

  lemma ChunkCut(buf: seq<Byte>, start: nat, i: nat)
    requires start < i <= |buf| && IsEnd(buf[i - 1]) && forall k :: start <= k < i - 1 ==> !IsEnd(buf[k])
    ensures Chunk(buf[start..i])
  {
    var c := buf[start..i];
    var front := c[..|c| - 1];
    assert c[|c| - 1] == buf[i - 1];
    forall k | 0 <= k < |front|
      ensures !IsEnd(front[k])
    {
      assert front[k] == buf[start + k];
    }
  }

  function MessageBytes(msgs: seq<Msg>): nat {
    if msgs == [] then 0 else MessageBytes(msgs[..|msgs| - 1]) + |msgs[|msgs| - 1].bytes|
  }

  /** Every byte of a stream is accounted for by a message or as idle. */
  lemma {:induction false} BytesAccounted(s: Stream, base: nat)
    ensures MessageBytes(Report(s, base)) + IdleCount(s) == |Flatten(s)|
  {
    if s.Then? {
      BytesAccounted(s.before, base);
      var front := Report(s.before, base);
      match s.last
      case Idle => assert Report(s, base) == front;
      case Message(m) =>
        assert Report(s, base)[..|front|] == front;
    }
  }

  /** Message lengths, idle bytes and the truncated tail add up to any buffer. */
  lemma FramerBalance(buf: seq<Byte>)
    ensures MessageBytes(Report(Split(buf).stream, 0)) + IdleCount(Split(buf).stream) + |Split(buf).rest| == |buf|
  {
    SplitParts(buf);
    BytesAccounted(Split(buf).stream, 0);
  }

  /** A message that sits in a buffer at its offset. */
  predicate InPlace(buf: seq<Byte>, m: Msg) {
    m.offset + |m.bytes| <= |buf| && buf[m.offset..m.offset + |m.bytes|] == m.bytes
    && Chunk(m.bytes) && m.bytes[0] != IDLE_BYTE && m.tcode == Tcode(m.bytes)
  }

  lemma {:induction false} ReportedInPlace(s: Stream, k: nat)
    requires Framed(s) && k < |Report(s, 0)|
    ensures InPlace(Flatten(s), Report(s, 0)[k])
  {
    var f := Flatten(s.before);
    if k < |Report(s.before, 0)| {
      ReportedInPlace(s.before, k);
      InPlaceExtends(f, Bytes(s.last), Report(s.before, 0)[k]);
    } else {
      var c := Bytes(s.last);
      assert (f + c)[|f|..|f| + |c|] == c;
    }
  }

  lemma InPlaceExtends(s: seq<Byte>, t: seq<Byte>, m: Msg)
    requires InPlace(s, m)
    ensures InPlace(s + t, m)
  {
    assert (s + t)[m.offset..m.offset + |m.bytes|] == s[m.offset..m.offset + |m.bytes|];
  }

  /** Framing is compositional at an item boundary. */
  lemma {:induction false} ReportAppend(a: Stream, b: Stream, base: nat)
    ensures Report(Append(a, b), base) == Report(a, base) + Report(b, base + |Flatten(a)|)
    ensures IdleCount(Append(a, b)) == IdleCount(a) + IdleCount(b)
  {
    if b.Then? {
      FlattenAppend(a, b.before);
      ReportAppend(a, b.before, base);
    }
  }

  /** The base only shifts the reported offsets. */
  lemma {:induction false} ReportShift(s: Stream, base: nat)
    ensures |Report(s, base)| == |Report(s, 0)|
    ensures forall k :: 0 <= k < |Report(s, 0)| ==>
      Report(s, base)[k] == Report(s, 0)[k].(offset := base + Report(s, 0)[k].offset)
  {
    if s.Then? { ReportShift(s.before, base); }
  }
}
