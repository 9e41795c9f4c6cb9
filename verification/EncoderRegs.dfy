/** Gated and write-1-to-clear encoder registers: write verdicts and the arming sequence (server.py). */
module EncoderRegs {

  /** A register value as the set of its bits that are 1. */
  type Word = set<nat>

  predicate InRange(b: nat, lo: nat, hi: nat) { lo <= b < hi }

  /** Bits lo up to hi. */
  function Bits(lo: nat, hi: nat): Word { set b: nat | b < hi && InRange(b, lo, hi) }

  const ALL32: Word := Bits(0, 32)

  const ACTIVE: nat := 0
  const ENABLE: nat := 1
  const ITRACE: nat := 2

  /** A register field as the register map describes it. */
  datatype Field = Field(name: string, lsb: nat, msb: nat, writable: bool, gated: bool, w1c: bool, pulse: bool,
          hwWrites: bool)

  function Span(f: Field): Word { Bits(f.lsb, f.msb + 1) }

  function Xor(a: Word, b: Word): Word { (a - b) + (b - a) }

  function GateMask(fs: seq<Field>, n: nat): Word
    requires n <= |fs|
  {
    if n == 0 then {} else GateMask(fs, n - 1) + (if fs[n - 1].gated then Span(fs[n - 1]) else {})
  }

  function W1cMask(fs: seq<Field>, n: nat): Word
    requires n <= |fs|
  {
    if n == 0 then {} else W1cMask(fs, n - 1) + (if fs[n - 1].w1c then Span(fs[n - 1]) else {})
  }

  /** A field that must read back as written. */
  predicate Checked(f: Field) { f.writable && !f.pulse && !f.w1c && !f.hwWrites }

  function ReadbackMask(fs: seq<Field>, n: nat): Word
    requires n <= |fs|
  {
    if n == 0 then {} else ReadbackMask(fs, n - 1) + (if Checked(fs[n - 1]) then Span(fs[n - 1]) else {})
  }

  /** What a bus write stores, given trTeControl and the old value of the register. */
  function Written(gate: Word, m: Word, te: Word, before: Word, value: Word): Word {
    var v1 := if gate != {} && ENABLE in te then (value - gate) + (before * gate) else value;
    var v2 := if m != {} then (v1 - m) + (before * m - v1) else v1;
    v2 * ALL32
  }

  function Write(fs: seq<Field>, te: Word, before: Word, value: Word): Word {
    Written(GateMask(fs, |fs|), W1cMask(fs, |fs|), te, before, value)
  }

  /** The names of the fields that did not take the written value. */
  function Differing(fs: seq<Field>, n: nat, want: Word, got: Word): seq<string>
    requires n <= |fs|
  {
    if n == 0 then [] else
      Differing(fs, n - 1, want, got) + (if InDiff(fs, n - 1, want, got) then [fs[n - 1].name] else [])
  }

  predicate InDiff(fs: seq<Field>, i: nat, want: Word, got: Word)
    requires i < |fs|
  {
    Span(fs[i]) * ReadbackMask(fs, |fs|) != {} && Xor(want, got) * Span(fs[i]) != {}
  }

  function ReadbackDiff(fs: seq<Field>, want: Word, got: Word): seq<string> {
    if Xor(want, got) * ReadbackMask(fs, |fs|) == {} then [] else Differing(fs, |fs|, want, got)
  }

  /** write_gate_reason: the write is refused when every writable field is locked right now. */
  predicate GateRefuses(fs: seq<Field>, te: Word) {
    && (exists i :: 0 <= i < |fs| && fs[i].writable)
    && (forall i :: 0 <= i < |fs| && fs[i].writable ==> fs[i].gated)
    && ENABLE in te
  }

  // ---- Fields and masks ---------------------------------------------------------------

  /** A register map entry: fields inside 32 bits, no two overlapping. */
  ghost predicate Proper(fs: seq<Field>) {
    && (forall i :: 0 <= i < |fs| ==> fs[i].lsb <= fs[i].msb < 32)
    && (forall i, j :: 0 <= i < |fs| && 0 <= j < |fs| && i != j ==> Span(fs[i]) !! Span(fs[j]))
  }

  lemma {:induction false} MasksAt(fs: seq<Field>, n: nat, i: nat, b: nat)
    requires Proper(fs) && n <= |fs| && i < |fs| && b in Span(fs[i])
    ensures b in GateMask(fs, n) <==> i < n && fs[i].gated
    ensures b in W1cMask(fs, n) <==> i < n && fs[i].w1c
    ensures b in ReadbackMask(fs, n) <==> i < n && Checked(fs[i])
  {
    if n > 0 {
      MasksAt(fs, n - 1, i, b);
      if i != n - 1 { assert Span(fs[i]) !! Span(fs[n - 1]); }
    }
  }

  lemma BitWritten(gate: Word, m: Word, te: Word, before: Word, value: Word, b: nat)
    requires b < 32
    ensures b in Written(gate, m, te, before, value) <==>
      var v1 := if b in gate && ENABLE in te then b in before else b in value;
      if b in m then b in before && !v1 else v1
  {
  }

  /** A written bit, by the kind of its field. */
  lemma FieldBit(fs: seq<Field>, te: Word, before: Word, value: Word, i: nat, b: nat)
    requires Proper(fs) && i < |fs| && b in Span(fs[i])
    ensures b in Write(fs, te, before, value) <==>
      var v1 := if fs[i].gated && ENABLE in te then b in before else b in value;
      if fs[i].w1c then b in before && !v1 else v1
  {
    MasksAt(fs, |fs|, i, b);
    BitWritten(GateMask(fs, |fs|), W1cMask(fs, |fs|), te, before, value, b);
  }

  // ---- The verdict of a write -----------------------------------------------------------

  /** Field i was locked, and the write would have changed it. */
  predicate Lost(fs: seq<Field>, te: Word, before: Word, value: Word, i: nat)
    requires i < |fs|
  {
    && fs[i].writable && !fs[i].pulse && !fs[i].w1c && !fs[i].hwWrites
    && fs[i].gated && ENABLE in te && Xor(value, before) * Span(fs[i]) != {}
  }

  function LostNames(fs: seq<Field>, n: nat, te: Word, before: Word, value: Word): seq<string>
    requires n <= |fs|
  {
    if n == 0 then [] else
      LostNames(fs, n - 1, te, before, value) + (if Lost(fs, te, before, value, n - 1) then [fs[n - 1].name] else [])
  }

  lemma DiffIsLost(fs: seq<Field>, te: Word, before: Word, value: Word, i: nat)
    requires Proper(fs) && i < |fs|
    ensures InDiff(fs, i, value, Write(fs, te, before, value)) <==> Lost(fs, te, before, value, i)
  {
    var got, s := Write(fs, te, before, value), Span(fs[i]);
    forall b | b in s
      ensures b in ReadbackMask(fs, |fs|) <==> Checked(fs[i])
      ensures Checked(fs[i]) ==>
        (b in Xor(value, got) <==> fs[i].gated && ENABLE in te && b in Xor(value, before))
    {
      MasksAt(fs, |fs|, i, b);
      FieldBit(fs, te, before, value, i, b);
    }
    assert fs[i].lsb in s;
    if InDiff(fs, i, value, got) {
      var b :| b in Xor(value, got) * s;
      assert b in Xor(value, before) * s;
    }
    if Lost(fs, te, before, value, i) {
      var b :| b in Xor(value, before) * s;
      assert b in Xor(value, got) * s;
      assert b in s * ReadbackMask(fs, |fs|);
    }
  }

  lemma {:induction false} DifferingIsLost(fs: seq<Field>, te: Word, before: Word, value: Word, n: nat)
    requires Proper(fs) && n <= |fs|
    ensures Differing(fs, n, value, Write(fs, te, before, value)) == LostNames(fs, n, te, before, value)
  {
    if n > 0 {
      DifferingIsLost(fs, te, before, value, n - 1);
      DiffIsLost(fs, te, before, value, n - 1);
    }
  }

  lemma {:induction false} NothingLost(fs: seq<Field>, te: Word, before: Word, value: Word, n: nat)
    requires n <= |fs| && forall i :: 0 <= i < |fs| ==> !Lost(fs, te, before, value, i)
    ensures LostNames(fs, n, te, before, value) == []
  {
    if n > 0 { NothingLost(fs, te, before, value, n - 1); }
  }

  /**
   * The verdict after a write names exactly the locked fields that the write should have changed,
   * and is empty when trTeControl.Enable was 0.
   */
  lemma VerdictExact(fs: seq<Field>, te: Word, before: Word, value: Word)
    requires Proper(fs)
    ensures ReadbackDiff(fs, value, Write(fs, te, before, value)) == LostNames(fs, |fs|, te, before, value)
    ensures ENABLE !in te ==> ReadbackDiff(fs, value, Write(fs, te, before, value)) == []
  {
    var got, rb := Write(fs, te, before, value), ReadbackMask(fs, |fs|);
    DifferingIsLost(fs, te, before, value, |fs|);
    if Xor(value, got) * rb == {} {
      forall i | 0 <= i < |fs|
        ensures !Lost(fs, te, before, value, i)
      {
        DiffIsLost(fs, te, before, value, i);
        CheckedInMask(fs, i);
        assert Xor(value, got) * Span(fs[i]) <= Xor(value, got) * rb || !Checked(fs[i]);
      }
      NothingLost(fs, te, before, value, |fs|);
    }
    if ENABLE !in te { NothingLost(fs, te, before, value, |fs|); }
  }

  lemma CheckedInMask(fs: seq<Field>, i: nat)
    requires Proper(fs) && i < |fs|
    ensures Checked(fs[i]) ==> Span(fs[i]) <= ReadbackMask(fs, |fs|)
  {
    forall b | b in Span(fs[i])
      ensures Checked(fs[i]) ==> b in ReadbackMask(fs, |fs|)
    {
      MasksAt(fs, |fs|, i, b);
    }
  }

  /**
   * A refused write would have changed no writable field -- except that a locked field which is
   * also write-1-to-clear would have been cleared.
   */
  lemma RefusedWriteEffect(fs: seq<Field>, te: Word, before: Word, value: Word, i: nat)
    requires Proper(fs) && GateRefuses(fs, te) && i < |fs| && fs[i].writable
    ensures Write(fs, te, before, value) * Span(fs[i]) == if fs[i].w1c then {} else before * Span(fs[i])
  {
    forall b | b in Span(fs[i])
      ensures b in Write(fs, te, before, value) <==> !fs[i].w1c && b in before
    {
      FieldBit(fs, te, before, value, i, b);
    }
  }

  /** Field i takes writes: any value, or the clearing of its ones. */
  ghost predicate TakesWrites(fs: seq<Field>, te: Word, i: nat)
    requires i < |fs|
  {
    forall before: Word, value: Word ::
      Write(fs, te, before, value) * Span(fs[i]) == (if fs[i].w1c then before - value else value) * Span(fs[i]) * ALL32
  }

  lemma UnlockedTakes(fs: seq<Field>, te: Word, i: nat)
    requires Proper(fs) && i < |fs|
    ensures TakesWrites(fs, te, i) == !(fs[i].gated && ENABLE in te)
  {
    if fs[i].gated && ENABLE in te {
      var before, value := if fs[i].w1c then Span(fs[i]) else {}, if fs[i].w1c then {} else Span(fs[i]);
      assert fs[i].lsb in Span(fs[i]) * ALL32;
      FieldBit(fs, te, before, value, i, fs[i].lsb);
      assert fs[i].lsb in (if fs[i].w1c then before - value else value) * Span(fs[i]) * ALL32;
      assert fs[i].lsb !in Write(fs, te, before, value) * Span(fs[i]);
    } else {
      forall before: Word, value: Word
        ensures Write(fs, te, before, value) * Span(fs[i]) ==
          (if fs[i].w1c then before - value else value) * Span(fs[i]) * ALL32
      {
        forall b | b in Span(fs[i])
          ensures b in Write(fs, te, before, value) <==> b in if fs[i].w1c then before - value else value
        {
          FieldBit(fs, te, before, value, i, b);
        }
        assert Span(fs[i]) <= ALL32;
      }
    }
  }

  /** A write is refused exactly when the register has writable fields and none of them takes writes. */
  lemma RefusesExact(fs: seq<Field>, te: Word)
    requires Proper(fs)
    ensures GateRefuses(fs, te) <==>
      && (exists i :: 0 <= i < |fs| && fs[i].writable)
      && (forall i :: 0 <= i < |fs| && fs[i].writable ==> !TakesWrites(fs, te, i))
  {
    forall i | 0 <= i < |fs|
      ensures TakesWrites(fs, te, i) == !(fs[i].gated && ENABLE in te)
    {
      UnlockedTakes(fs, te, i);
    }
  }

  // ---- Arming an encoder -----------------------------------------------------------------

  function Shl(v: Word, k: nat): Word { set b | b in v :: b + k }

  function NatBits(n: nat): Word {
    if n == 0 then {} else (if n % 2 == 1 then {0} else {}) + Shl(NatBits(n / 2), 1)
  }

  /** Bit j of n: n, halved j times, is odd. */
  predicate BitOf(n: nat, j: nat) {
    if j == 0 then n % 2 == 1 else BitOf(n / 2, j - 1)
  }

  lemma {:induction false} NatBitsAt(n: nat, j: nat)
    ensures j in NatBits(n) <==> BitOf(n, j)
    decreases j
  {
    if n == 0 {
      ZeroHasNoBits(j);
    } else if j > 0 {
      NatBitsAt(n / 2, j - 1);
    }
  }

  lemma {:induction false} ZeroHasNoBits(j: nat)
    ensures !BitOf(0, j)
  {
    if j > 0 { ZeroHasNoBits(j - 1); }
  }

  lemma ShlAt(v: Word, k: nat, b: nat)
    ensures b in Shl(v, k) <==> b >= k && b - k in v
  {
    if b >= k && b - k in v { assert (b - k) + k in Shl(v, k); }
  }

  const NIBBLE: Word := {0, 1, 2, 3}

  lemma NibbleAt(n: nat, k: nat, b: nat)
    ensures b in Shl(NatBits(n) * NIBBLE, k) <==> k <= b < k + 4 && BitOf(n, b - k)
  {
    ShlAt(NatBits(n) * NIBBLE, k, b);
    if b >= k { NatBitsAt(n, b - k); }
  }

  const SYNC: Word := Bits(16, 24)
  const INHIBIT_SRC: nat := 15

  /** The sync fields of trTeControl for a configured mode and maximum. */
  function SyncBits(mode: nat, max: nat): Word {
    Shl(NatBits(mode) * NIBBLE, 16) + Shl(NatBits(max) * NIBBLE, 20)
  }

  /** rmw_value: the write-back value without the write-1-to-clear bits. */
  function RmwValue(fs: seq<Field>, value: Word): Word { (value - W1cMask(fs, |fs|)) * ALL32 }

  /** What the sequence relies on: the three control bits and the sync fields are no W1C bits, the former not gated. */
  ghost predicate ControlRegister(fs: seq<Field>) {
    && GateMask(fs, |fs|) !! W1cMask(fs, |fs|)
    && {ACTIVE, ENABLE, ITRACE} !! GateMask(fs, |fs|) + W1cMask(fs, |fs|)
    && SYNC + {INHIBIT_SRC} !! W1cMask(fs, |fs|)
  }

  /** trTeControl after arming. */
  function Armed(te: Word, mode: nat, max: nat, multi: bool): Word {
    var kept := te - SYNC;
    (if multi then kept - {INHIBIT_SRC} else kept) + SyncBits(mode, max) + {ACTIVE, ENABLE, ITRACE}
  }

  /** The FEAT word of encoder `id` in a multi-source stream. */
  function FeatWord(feat: Word, srcBits: nat, id: nat): Word {
    (feat * Bits(0, 16)) + Shl(NatBits(srcBits) * NIBBLE, 28) + Shl(NatBits(id), 16)
  }

  /** Bit b of the armed register: the control bits, the nibbles of mode and maximum, or what was there. */
  predicate ArmedBit(was: Word, mode: nat, max: nat, multi: bool, b: nat) {
    if b <= 2 then true
    else if 16 <= b < 20 then BitOf(mode, b - 16)
    else if 20 <= b < 24 then BitOf(max, b - 20)
    else if b == 15 && multi then false
    else b in was
  }

  lemma ArmedAt(te: Word, mode: nat, max: nat, multi: bool, b: nat)
    ensures b in Armed(te, mode, max, multi) <==> ArmedBit(te, mode, max, multi, b)
  {
    NibbleAt(mode, 16, b);
    NibbleAt(max, 20, b);
  }

  /** Bit b of the FEAT word: the low half kept, the source ID from bit 16, its width from bit 28. */
  predicate FeatBit(was: Word, srcBits: nat, id: nat, b: nat) {
    if b < 16 then b in was
    else b < 32 && (BitOf(id, b - 16) || (b >= 28 && BitOf(srcBits, b - 28)))
  }

  lemma FeatAt(feat: Word, srcBits: nat, id: nat, b: nat)
    ensures b in FeatWord(feat, srcBits, id) * ALL32 <==> FeatBit(feat, srcBits, id, b)
  {
    NibbleAt(srcBits, 28, b);
    ShlAt(NatBits(id), 16, b);
    if 16 <= b { NatBitsAt(id, b - 16); }
  }

  lemma SyncBitsInside(mode: nat, max: nat)
    ensures SyncBits(mode, max) <= SYNC
  {
  }

  lemma WriteUngated(gate: Word, m: Word, te: Word, before: Word, value: Word)
    requires ENABLE !in te && before <= ALL32 && value <= ALL32 && value * m == before * m
    ensures Written(gate, m, te, before, (value - m) * ALL32) == value
  {
  }

  /** Dropping Enable and InstTracing works even though Enable itself locks the other fields. */
  lemma Disarms(fs: seq<Field>, te: Word)
    requires ControlRegister(fs) && te <= ALL32
    ensures Write(fs, te, te, RmwValue(fs, te - {ENABLE, ITRACE})) == te - {ENABLE, ITRACE}
  {
  }

  /** A single combined write on an enabled encoder leaves the locked sync fields as they were. */
  lemma CombinedWriteFails(fs: seq<Field>, te: Word, mode: nat, max: nat)
    requires ControlRegister(fs) && te <= ALL32 && ENABLE in te && SYNC <= GateMask(fs, |fs|)
    ensures Write(fs, te, te, RmwValue(fs, Armed(te, mode, max, false))) * SYNC == te * SYNC
  {
  }

  /** The encoders of a scenario: control and FEAT register of each. */
  class Encoders {
    var ctl: seq<Word>
    var feat: seq<Word>
    const ctlFields: seq<Field>
    const featFields: seq<Field>

    constructor (ctl: seq<Word>, feat: seq<Word>, ctlFields: seq<Field>, featFields: seq<Field>)
      ensures this.ctl == ctl && this.feat == feat && this.ctlFields == ctlFields && this.featFields == featFields
    {
      this.ctl, this.feat, this.ctlFields, this.featFields := ctl, feat, ctlFields, featFields;
    }

    method WriteCtl(e: nat, value: Word)
      requires e < |ctl|
      modifies this`ctl
      ensures ctl == old(ctl)[e := Write(ctlFields, old(ctl)[e], old(ctl)[e], value)]
    {
      ctl := ctl[e := Write(ctlFields, ctl[e], ctl[e], value)];
    }

    method WriteFeat(e: nat, value: Word)
      requires e < |ctl| && e < |feat|
      modifies this`feat
      ensures feat == old(feat)[e := Write(featFields, ctl[e], old(feat)[e], value)]
    {
      feat := feat[e := Write(featFields, ctl[e], feat[e], value)];
    }

    /** trace_on: for every encoder drop Enable, program the locked fields, then arm. */
    method TraceOn(mode: nat, max: nat, srcBits: nat)
      requires |ctl| == |feat| && ControlRegister(ctlFields) && W1cMask(featFields, |featFields|) == {}
      requires forall e :: 0 <= e < |ctl| ==> ctl[e] <= ALL32
      modifies this
      ensures |ctl| == |feat| == |old(ctl)|
      ensures forall e :: 0 <= e < |ctl| ==> ctl[e] == Armed(old(ctl)[e], mode, max, |ctl| > 1 && srcBits > 0)
      ensures forall e :: 0 <= e < |feat| ==>
        feat[e] == (if |feat| > 1 && srcBits > 0 then FeatWord(old(feat)[e], srcBits, e) * ALL32 else old(feat)[e])
      ensures forall e, b :: 0 <= e < |ctl| ==>
        (b in ctl[e] <==> ArmedBit(old(ctl)[e], mode, max, |ctl| > 1 && srcBits > 0, b))
      ensures |feat| > 1 && srcBits > 0 ==>
        forall e, b :: 0 <= e < |feat| ==> (b in feat[e] <==> FeatBit(old(feat)[e], srcBits, e, b))
    {
      var tev := ctl;
      var multi := |ctl| > 1 && srcBits > 0;
      for e := 0 to |ctl|
        invariant |ctl| == |feat| == |tev|
        invariant forall k :: 0 <= k < e ==> ctl[k] == Armed(tev[k], mode, max, multi)
        invariant forall k :: e <= k < |ctl| ==> ctl[k] == tev[k]
        invariant forall k :: 0 <= k < |feat| ==>
          feat[k] == (if multi && k < e then FeatWord(old(feat)[k], srcBits, k) * ALL32 else old(feat)[k])
      {
        ArmOne(e, tev[e], mode, max, srcBits, multi);
      }
      forall e, b | 0 <= e < |ctl|
        ensures b in Armed(tev[e], mode, max, multi) <==> ArmedBit(tev[e], mode, max, multi, b)
      {
        ArmedAt(tev[e], mode, max, multi, b);
      }
      forall e, b | 0 <= e < |feat|
        ensures b in FeatWord(old(feat)[e], srcBits, e) * ALL32 <==> FeatBit(old(feat)[e], srcBits, e, b)
      {
        FeatAt(old(feat)[e], srcBits, e, b);
      }
    }

    /** One encoder: drop Enable, program while unlocked, arm. */
    method ArmOne(e: nat, te: Word, mode: nat, max: nat, srcBits: nat, multi: bool)
      requires e < |ctl| == |feat| && ctl[e] == te && te <= ALL32
      requires ControlRegister(ctlFields) && W1cMask(featFields, |featFields|) == {}
      modifies this
      ensures ctl == old(ctl)[e := Armed(te, mode, max, multi)]
      ensures feat == if multi then old(feat)[e := FeatWord(old(feat)[e], srcBits, e) * ALL32] else old(feat)
    {
      Disarms(ctlFields, te);
      WriteCtl(e, RmwValue(ctlFields, te - {ENABLE, ITRACE}));
      var t := (ctl[e] - SYNC) + SyncBits(mode, max);
      if multi {
        WriteFeat(e, FeatWord(feat[e], srcBits, e));
        t := t - {INHIBIT_SRC};
      }
      ArmingSteps(ctlFields, te, mode, max, multi, t);
      WriteCtl(e, RmwValue(ctlFields, t + {ACTIVE}));
      WriteCtl(e, RmwValue(ctlFields, ctl[e] + {ENABLE, ITRACE}));
    }
  }

  /** The two writes behind the disarming one. */
  lemma ArmingSteps(fs: seq<Field>, te: Word, mode: nat, max: nat, multi: bool, t: Word)
    requires ControlRegister(fs) && te <= ALL32
    requires var u := (te - {ENABLE, ITRACE} - SYNC) + SyncBits(mode, max); t == if multi then u - {INHIBIT_SRC} else u
    ensures var r1 := te - {ENABLE, ITRACE};
      var r2 := Write(fs, r1, r1, RmwValue(fs, t + {ACTIVE}));
      Write(fs, r2, r2, RmwValue(fs, r2 + {ENABLE, ITRACE})) == Armed(te, mode, max, multi)
  {
    var gate, m := GateMask(fs, |fs|), W1cMask(fs, |fs|);
    var r1 := te - {ENABLE, ITRACE};
    SyncBitsInside(mode, max);
    WriteUngated(gate, m, r1, r1, t + {ACTIVE});
    var r2 := t + {ACTIVE};
    WriteUngated(gate, m, r2, r2, r2 + {ENABLE, ITRACE});
  }
}
