/** Variable-length fields and the full-address check (scripts/check_addr64_emission.py). */
module Codec {
  import opened Commons
  import opened Nexus

  const MSEO_ENDF: Byte := 1
  const MSEO_ENDM: Byte := 3

  /** Messages whose address field is a full address. */
  const FADDR_TCODES: set<nat> := {9, 11, 12, 29, 32}

  function Pow2(k: nat): nat
    ensures Pow2(k) > 0
  {
    if k == 0 then 1 else 2 * Pow2(k - 1)
  }

  /** Bitwise or of unbounded non-negative integers. */
  function BitOr(a: nat, b: nat): nat {
    if a == 0 then b else if b == 0 then a else
      2 * BitOr(a / 2, b / 2) + (if a % 2 == 1 || b % 2 == 1 then 1 else 0)
  }

  /** Or-ing a value above bit k onto one below it is a sum. */
  lemma {:induction false} OrDisjoint(lo: nat, hi: nat, k: nat)
    requires lo < Pow2(k)
    ensures BitOr(lo, hi * Pow2(k)) == lo + hi * Pow2(k)
  {
    if k > 0 && lo > 0 && hi > 0 {
      var h := hi * Pow2(k - 1);
      assert hi * Pow2(k) == 2 * h;
      OrDisjoint(lo / 2, hi, k - 1);
    }
  }

  lemma {:induction false} Pow2Add(a: nat, b: nat)
    ensures Pow2(a + b) == Pow2(a) * Pow2(b)
  {
    if a > 0 { Pow2Add(a - 1, b); }
  }

  lemma Pow2Six(j: nat)
    ensures Pow2(6 * (j + 1)) == 64 * Pow2(6 * j)
  {
    assert Pow2(6) == 64;
    Pow2Add(6, 6 * j);
  }

  // ---- One field ------------------------------------------------------------

  /** The bytes of a field: six-bit groups, least significant first, no leading zero group. */
  function FieldBytes(value: nat, end: Byte): seq<Byte>
    requires end < 4
  {
    if value < 64 then [(value * 4) as Byte + end]
    else [(value % 64 * 4) as Byte] + FieldBytes(value / 64, end)
  }

  method EncodeField(value: nat, end: Byte) returns (bytes: seq<Byte>)
    requires end < 4
    ensures bytes == FieldBytes(value, end)
  {
    var out := SixBitGroups(value, end);
    bytes := [];
    for k := 0 to |out|
      invariant bytes == if k < |out| then GroupBytes(out, k) else FieldBytes(value, end)
    {
      var m := if k < |out| - 1 then 0 else end;
      OrDisjoint(m as nat, out[k], 2);
      assert Pow2(2) == 4;
      bytes := bytes + [BitOr(m as nat, out[k] * 4) as Byte];
    }
  }

  /** The groups of a value, lowest first; there is always one. */
  method SixBitGroups(value: nat, ghost end: Byte) returns (out: seq<nat>)
    requires end < 4
    ensures out != [] && forall k :: 0 <= k < |out| ==> out[k] < 64
    ensures GroupBytes(out, |out| - 1) + [(out[|out| - 1] * 4) as Byte + end] == FieldBytes(value, end)
  {
    out := [];
    var v := value;
    while true
      invariant forall k :: 0 <= k < |out| ==> out[k] < 64
      invariant GroupBytes(out, |out|) + FieldBytes(v, end) == FieldBytes(value, end)
      decreases v
    {
      var g := v % 64;
      NextGroup(out, g);
      out := out + [g];
      if v / 64 == 0 {
        break;
      }
      v := v / 64;
    }
  }

  lemma NextGroup(out: seq<nat>, g: nat)
    requires g < 64 && forall k :: 0 <= k < |out| ==> out[k] < 64
    ensures GroupBytes(out + [g], |out|) == GroupBytes(out, |out|)
    ensures GroupBytes(out + [g], |out| + 1) == GroupBytes(out, |out|) + [(g * 4) as Byte]
  {
    GroupsLocal(out, g, |out|);
  }

  /** The first n groups as bytes inside a field. */
  function GroupBytes(groups: seq<nat>, n: nat): seq<Byte>
    requires n <= |groups| && forall k :: 0 <= k < |groups| ==> groups[k] < 64
  {
    if n == 0 then [] else GroupBytes(groups, n - 1) + [(groups[n - 1] * 4) as Byte]
  }

  lemma {:induction false} GroupsLocal(groups: seq<nat>, g: nat, n: nat)
    requires n <= |groups| && g < 64 && forall k :: 0 <= k < |groups| ==> groups[k] < 64
    ensures GroupBytes(groups + [g], n) == GroupBytes(groups, n)
  {
    if n > 0 { GroupsLocal(groups, g, n - 1); }
  }

  /** x moved up by j six-bit groups (ShiftIsProduct). */
  function Shift6(x: nat, j: nat): nat {
    if j == 0 then x else 64 * Shift6(x, j - 1)
  }

  lemma {:induction false} ShiftIsProduct(x: nat, j: nat)
    ensures Shift6(x, j) == x * Pow2(6 * j)
  {
    if j == 0 {
      assert Pow2(0) == 1;
    } else {
      ShiftIsProduct(x, j - 1);
      Pow2Six(j - 1);
      var p := Pow2(6 * (j - 1));
      assert 64 * (x * p) == x * (64 * p);
    }
  }

  lemma {:induction false} ShiftBelow(x: nat, j: nat)
    requires x < 64
    ensures Shift6(x, j) <= 63 * Shift6(1, j)
  {
    if j > 0 { ShiftBelow(x, j - 1); }
  }

  /** The number carried by the MDO bits of the first n bytes. */
  function Value(bs: seq<Byte>, n: nat): nat
    requires n <= |bs|
  {
    if n == 0 then 0 else Value(bs, n - 1) + Shift6(Mdo(bs[n - 1]), n - 1)
  }

  lemma {:induction false} ValueBelow(bs: seq<Byte>, n: nat)
    requires n <= |bs|
    ensures Value(bs, n) < Shift6(1, n)
  {
    if n > 0 {
      ValueBelow(bs, n - 1);
      ShiftBelow(Mdo(bs[n - 1]), n - 1);
    }
  }

  lemma {:induction false} ValueCons(b: Byte, bs: seq<Byte>, n: nat)
    requires n <= |bs|
    ensures Value([b] + bs, n + 1) == Mdo(b) + 64 * Value(bs, n)
  {
    if n > 0 {
      ValueCons(b, bs, n - 1);
      assert ([b] + bs)[n] == bs[n - 1];
    }
  }

  /** A field decodes to the value it was encoded from, for every value; only its last byte is marked. */
  lemma {:induction false} FieldRoundTrip(value: nat, end: Byte)
    requires end < 4
    ensures var f := FieldBytes(value, end);
      f != [] && Value(f, |f|) == value
      && Mseo(f[|f| - 1]) == end && forall k :: 0 <= k < |f| - 1 ==> Mseo(f[k]) == 0
  {
    var f := FieldBytes(value, end);
    if value < 64 {
      assert Value(f, 1) == Value(f, 0) + Mdo(f[0]);
    } else {
      var t := FieldBytes(value / 64, end);
      FieldRoundTrip(value / 64, end);
      ValueCons((value % 64 * 4) as Byte, t, |t|);
      forall k | 0 <= k < |f| - 1
        ensures Mseo(f[k]) == 0
      {
        assert k > 0 ==> f[k] == t[k - 1];
      }
    }
  }

  /** Or the group of byte j into its place above the groups read before. */
  function OrGroup(value: nat, b: Byte, j: nat): nat {
    BitOr(value, Mdo(b) * Pow2(6 * j))
  }

  lemma ValueStep(bs: seq<Byte>, j: nat)
    requires j < |bs|
    ensures OrGroup(Value(bs, j), bs[j], j) == Value(bs, j + 1)
  {
    ValueBelow(bs, j);
    ShiftIsProduct(1, j);
    ShiftIsProduct(Mdo(bs[j]), j);
    OrDisjoint(Value(bs, j), Mdo(bs[j]), 6 * j);
  }

  /** m carries an end-of-field marker, and k is the index of the last one. */
  predicate LastEndf(m: seq<Byte>, k: nat) {
    k < |m| && Mseo(m[k]) == MSEO_ENDF && forall j :: k < j < |m| ==> Mseo(m[j]) != MSEO_ENDF
  }

  /** The number in the bytes behind index k. */
  function FieldAfter(m: seq<Byte>, k: nat): nat
    requires k < |m|
  {
    Value(m[k + 1..], |m| - k - 1)
  }

  method LastField(m: seq<Byte>) returns (r: Option<nat>)
    ensures r.None? <==> forall k :: 0 <= k < |m| ==> Mseo(m[k]) != MSEO_ENDF
    ensures r.Some? ==> exists k :: LastEndf(m, k) && r.value == FieldAfter(m, k)
  {
    var last := FindEndf(m);
    if last < 0 {
      return None;
    }
    var value := FieldValue(m[last + 1..]);
    assert LastEndf(m, last) && value == FieldAfter(m, last);
    return Some(value);
  }

  method FindEndf(m: seq<Byte>) returns (last: int)
    ensures if last >= 0 then LastEndf(m, last) else forall k :: 0 <= k < |m| ==> Mseo(m[k]) != MSEO_ENDF
  {
    last := -1;
    for k := 0 to |m|
      invariant -1 <= last < k
      invariant last >= 0 ==> Mseo(m[last]) == MSEO_ENDF
      invariant forall j :: last < j < k ==> Mseo(m[j]) != MSEO_ENDF
    {
      if Mseo(m[k]) == MSEO_ENDF {
        last := k;
      }
    }
  }

  /** The little-endian groups of a field, ORed together. */
  method FieldValue(bs: seq<Byte>) returns (value: nat)
    ensures value == Value(bs, |bs|)
  {
    value := 0;
    for j := 0 to |bs|
      invariant value == Value(bs, j)
    {
      ValueStep(bs, j);
      value := OrGroup(value, bs[j], j);
    }
  }

  // ---- Whole messages ---------------------------------------------------------

  /** What an encoder puts on the wire: alignment pads, and messages that end in a variable field. */
  datatype Emit = Pad | Packet(tcode: nat, fields: seq<nat>, final: nat)

  predicate Emittable(e: Emit) {
    e.Packet? ==> e.tcode < 64 && e.fields != []
  }

  /** The TCODE byte and the first n fields, each closed by an end-of-field marker. */
  function Head(tcode: nat, fields: seq<nat>, n: nat): seq<Byte>
    requires tcode < 64 && n <= |fields|
  {
    if n == 0 then [(tcode * 4) as Byte]
    else Head(tcode, fields, n - 1) + FieldBytes(fields[n - 1], MSEO_ENDF)
  }

  function PacketBytes(e: Emit): seq<Byte>
    requires e.Packet? && Emittable(e)
  {
    Head(e.tcode, e.fields, |e.fields|) + FieldBytes(e.final, MSEO_ENDM)
  }

  lemma {:induction false} HeadMarks(tcode: nat, fields: seq<nat>, n: nat)
    requires tcode < 64 && n <= |fields|
    ensures var h := Head(tcode, fields, n);
      h != [] && h[0] == (tcode * 4) as Byte && NoEnd(h) && (n > 0 ==> Mseo(h[|h| - 1]) == MSEO_ENDF)
  {
    if n > 0 {
      HeadMarks(tcode, fields, n - 1);
      FieldRoundTrip(fields[n - 1], MSEO_ENDF);
    }
  }

  /** Two marked pieces make one chunk. */
  lemma HeadAndField(h: seq<Byte>, f: seq<Byte>)
    requires h != [] && NoEnd(h) && f != [] && IsEnd(f[|f| - 1]) && NoEnd(f[..|f| - 1])
    ensures Chunk(h + f) && (h + f)[0] == h[0]
  {
    assert (h + f)[..|h + f| - 1] == h + f[..|f| - 1];
  }

  /** A packet is one framed message that starts with MSEO 00 and its TCODE. */
  lemma PacketShape(e: Emit)
    requires e.Packet? && Emittable(e)
    ensures var m := PacketBytes(e);
      FramedItem(Message(m)) && Mseo(m[0]) == 0 && Tcode(m) == e.tcode
  {
    HeadMarks(e.tcode, e.fields, |e.fields|);
    FinalMarks(e.final);
    HeadAndField(Head(e.tcode, e.fields, |e.fields|), FieldBytes(e.final, MSEO_ENDM));
  }

  lemma FinalMarks(value: nat)
    ensures var f := FieldBytes(value, MSEO_ENDM); f != [] && IsEnd(f[|f| - 1]) && NoEnd(f[..|f| - 1])
  {
    FieldRoundTrip(value, MSEO_ENDM);
  }

  /** Its last field is the encoded value, even when the message ends in the idle byte. */
  lemma PacketLastField(e: Emit)
    requires e.Packet? && Emittable(e)
    ensures exists i :: LastEndf(PacketBytes(e), i)
    ensures forall k :: LastEndf(PacketBytes(e), k) ==>
      FieldAfter(PacketBytes(e), k) == e.final
  {
    var h := Head(e.tcode, e.fields, |e.fields|);
    var f := FieldBytes(e.final, MSEO_ENDM);
    HeadMarks(e.tcode, e.fields, |e.fields|);
    FieldRoundTrip(e.final, MSEO_ENDM);
    var m := PacketBytes(e);
    assert m == h + f;
    forall j | |h| <= j < |m|
      ensures Mseo(m[j]) != MSEO_ENDF
    {
      assert m[j] == f[j - |h|];
    }
    assert LastEndf(m, |h| - 1);
    assert m[|h|..] == f;
    forall k | LastEndf(m, k)
      ensures FieldAfter(m, k) == e.final
    {
      assert k == |h| - 1;
    }
  }

  // ---- The address check over a whole capture ---------------------------------

  function ItemFor(e: Emit): Item
    requires Emittable(e)
  {
    if e.Pad? then Idle else Message(PacketBytes(e))
  }

  ghost predicate AllEmittable(es: seq<Emit>) {
    forall k :: 0 <= k < |es| ==> Emittable(es[k])
  }

  function StreamOf(es: seq<Emit>, n: nat): Stream
    requires AllEmittable(es) && n <= |es|
  {
    if n == 0 then Start else Then(StreamOf(es, n - 1), ItemFor(es[n - 1]))
  }

  lemma {:induction false} EmittedIsWellFormed(es: seq<Emit>, n: nat)
    requires AllEmittable(es) && n <= |es|
    ensures WellFormed(StreamOf(es, n))
  {
    if n > 0 {
      EmittedIsWellFormed(es, n - 1);
      if es[n - 1].Packet? { PacketShape(es[n - 1]); }
    }
  }

  /** Whatever was emitted, the framer recovers it: offsets, TCODEs, bytes and the truncated tail. */
  lemma CaptureRoundTrip(es: seq<Emit>, rest: seq<Byte>)
    requires AllEmittable(es) && NoEnd(rest)
    ensures Split(Flatten(StreamOf(es, |es|)) + rest) == Parse(StreamOf(es, |es|), rest)
  {
    EmittedIsWellFormed(es, |es|);
    WellFormedIsFramed(StreamOf(es, |es|));
    SplitInvertsFlatten(StreamOf(es, |es|), rest);
  }

  predicate CarriesAddress(e: Emit) {
    e.Packet? && e.tcode in FADDR_TCODES
  }

  /** Some synchronizing message of the capture carries address a in full. */
  ghost predicate Carries(raw: seq<Byte>, a: nat) {
    AmongFirst(Report(Split(raw).stream, 0), |Report(Split(raw).stream, 0)|, a)
  }

  ghost predicate AmongFirst(msgs: seq<Msg>, n: nat, a: nat)
    requires n <= |msgs|
  {
    exists k :: 0 <= k < n && FullAddress(msgs[k], a)
  }

  /** The verdict: the wanted PC is carried, and (if asked for) some carried PC reaches bit `minBits`. */
  method CheckAddresses(raw: seq<Byte>, wanted: nat, minBits: nat) returns (ok: bool)
    ensures ok <==> Carries(raw, wanted) && (minBits > 0 ==> exists a: nat :: Carries(raw, a) && a >= Pow2(minBits))
  {
    var msgs, idle, trunc := FrameMessages(raw);
    var found: seq<nat> := [];
    for i := 0 to |msgs|
      invariant forall a: nat :: a in found <==> AmongFirst(msgs, i, a)
    {
      var f := LastField(msgs[i].bytes);
      LastFieldIsAddress(msgs[i], f);
      assert forall a: nat :: AmongFirst(msgs, i + 1, a) <==> AmongFirst(msgs, i, a) || FullAddress(msgs[i], a);
      if msgs[i].tcode in FADDR_TCODES && f.Some? {
        found := found + [2 * f.value];
      }
    }
    assert forall a: nat :: a in found <==> Carries(raw, a);
    if found == [] {
      return false;
    }
    var widest := found[0];
    for i := 0 to |found|
      invariant widest in found && forall j :: 0 <= j < i ==> found[j] <= widest
    {
      if found[i] > widest {
        widest := found[i];
      }
    }
    ok := wanted in found && (minBits > 0 ==> widest / Pow2(minBits) != 0);
    WidestReaches(found, widest, minBits);
  }

  lemma WidestReaches(found: seq<nat>, widest: nat, minBits: nat)
    requires widest in found && forall j :: 0 <= j < |found| ==> found[j] <= widest
    ensures widest / Pow2(minBits) != 0 <==> exists a: nat :: a in found && a >= Pow2(minBits)
  {
    DivPositive(widest, Pow2(minBits));
  }

  lemma DivPositive(w: nat, p: nat)
    requires p > 0
    ensures w / p != 0 <==> w >= p
  {
    assert w == p * (w / p) + w % p;
    assert w / p == 0 ==> p * (w / p) == 0;
    assert w / p > 0 ==> p * (w / p) >= p;
  }

  lemma LastFieldIsAddress(m: Msg, f: Option<nat>)
    requires f.None? <==> forall k :: 0 <= k < |m.bytes| ==> Mseo(m.bytes[k]) != MSEO_ENDF
    requires f.Some? ==> exists k :: LastEndf(m.bytes, k) && f.value == FieldAfter(m.bytes, k)
    ensures forall a: nat :: FullAddress(m, a) <==> m.tcode in FADDR_TCODES && f.Some? && a == 2 * f.value
  {
  }

  ghost predicate FullAddress(m: Msg, a: nat) {
    m.tcode in FADDR_TCODES
    && exists k :: LastEndf(m.bytes, k) && a == 2 * FieldAfter(m.bytes, k)
  }

  lemma PacketAddress(e: Emit, offset: nat, a: nat)
    requires e.Packet? && Emittable(e)
    ensures FullAddress(Msg(offset, Tcode(PacketBytes(e)), PacketBytes(e)), a)
      <==> CarriesAddress(e) && a == 2 * e.final
  {
    PacketShape(e);
    PacketLastField(e);
  }

  lemma AmongSnoc(msgs: seq<Msg>, m: Msg, a: nat)
    ensures AmongFirst(msgs + [m], |msgs| + 1, a) <==> AmongFirst(msgs, |msgs|, a) || FullAddress(m, a)
  {
    var r := msgs + [m];
    assert r[|msgs|] == m && forall k :: 0 <= k < |msgs| ==> r[k] == msgs[k];
    assert AmongFirst(r, |r|, a) <==> AmongFirst(r, |msgs|, a) || FullAddress(r[|msgs|], a);
  }

  lemma {:induction false} AddressesReported(es: seq<Emit>, n: nat, a: nat)
    requires AllEmittable(es) && n <= |es|
    ensures var r := Report(StreamOf(es, n), 0);
      AmongFirst(r, |r|, a)
      <==> (exists k :: 0 <= k < n && CarriesAddress(es[k]) && a == 2 * es[k].final)
  {
    if n > 0 {
      AddressesReported(es, n - 1, a);
      var r', e := Report(StreamOf(es, n - 1), 0), es[n - 1];
      var r := Report(StreamOf(es, n), 0);
      var off := |Flatten(StreamOf(es, n - 1))|;
      assert r == r' + Entry(ItemFor(e), off);
      if e.Packet? {
        PacketAddress(e, off, a);
        var last := Msg(off, Tcode(PacketBytes(e)), PacketBytes(e));
        assert r == r' + [last];
        AmongSnoc(r', last, a);
      } else {
        assert r == r';
      }
    }
  }

  /** On an emitted capture the addresses found are exactly the ones the encoder put in. */
  lemma AddressesOfEmitted(es: seq<Emit>, rest: seq<Byte>, a: nat)
    requires AllEmittable(es) && NoEnd(rest)
    ensures Carries(Flatten(StreamOf(es, |es|)) + rest, a)
      <==> (exists k :: 0 <= k < |es| && CarriesAddress(es[k]) && a == 2 * es[k].final)
  {
    CaptureRoundTrip(es, rest);
    AddressesReported(es, |es|, a);
  }
}
