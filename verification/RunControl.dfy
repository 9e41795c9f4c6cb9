/** Per-core run bits, the protocol interlock and the run/stop actions (server.py, scenario.py). */
module RunControl {
  import opened Commons

  /** A 32-bit register as the set of its bits that are 1: or is union, and is intersection. */
  type Word = set<nat>

  const CORE_RUN := "core_run"
  const CVA6_RUN := "cva6_run"

  /** A core as the scenario file declares it; `mirror` is its STATUS bit (0 = none). */
  datatype CoreEntry = CoreEntry(runBits: Option<seq<string>>, runBit: Option<string>, protocol: Option<string>,
          mirror: Word)

  /** CONTROL bit numbers by name. */
  type Bits = map<string, nat>

  function Cbit(bits: Bits, name: string): Word {
    if name in bits then {bits[name]} else {}
  }

  function Names(e: CoreEntry): seq<string> {
    match e.runBits
    case Some(names) => names
    case None => [if e.runBit.Some? && e.runBit.value != "" then e.runBit.value else CORE_RUN]
  }

  function MaskOf(bits: Bits, names: seq<string>, n: nat): Word
    requires n <= |names|
  {
    if n == 0 then {} else MaskOf(bits, names, n - 1) + Cbit(bits, names[n - 1])
  }

  lemma {:induction false} MaskExact(bits: Bits, names: seq<string>, n: nat, b: nat)
    requires n <= |names|
    ensures b in MaskOf(bits, names, n) <==> exists i :: 0 <= i < n && names[i] in bits && bits[names[i]] == b
  {
    if n > 0 { MaskExact(bits, names, n - 1, b); }
  }

  /** core_run_mask: all bits that release a core. */
  method RunMask(bits: Bits, e: CoreEntry) returns (m: Word)
    ensures m == MaskOf(bits, Names(e), |Names(e)|)
    ensures forall b :: b in m <==>
      exists i :: 0 <= i < |Names(e)| && Names(e)[i] in bits && bits[Names(e)[i]] == b
  {
    m := {};
    var names := Names(e);
    for i := 0 to |names|
      invariant m == MaskOf(bits, names, i)
    {
      m := m + Cbit(bits, names[i]);
    }
    forall b
      ensures b in m <==> exists i :: 0 <= i < |names| && names[i] in bits && bits[names[i]] == b
    {
      MaskExact(bits, names, |names|, b);
    }
  }

  /**
   * What the control logic needs of a core: its release mask, its own bit (0 if only the collective
   * one exists), its protocol, its STATUS mirror bit, and whether it hangs off the collective bit.
   */
  datatype Core = Core(mask: Word, own: Word, protocol: Option<string>, mirror: Word, collective: bool)

  function CoreOf(bits: Bits, e: CoreEntry): Core {
    Core(MaskOf(bits, Names(e), |Names(e)|), if e.runBit.Some? then Cbit(bits, e.runBit.value) else {},
         e.protocol, e.mirror, CORE_RUN in Names(e) && CORE_RUN in bits)
  }

  datatype Scenario = Scenario(cores: seq<Core>, coreRun: Word, cva6Run: Word, hasStatus: bool)

  function ScenarioOf(bits: Bits, entries: seq<CoreEntry>, hasStatus: bool): Scenario {
    Scenario(seq(|entries|, i requires 0 <= i < |entries| => CoreOf(bits, entries[i])),
             Cbit(bits, CORE_RUN), Cbit(bits, CVA6_RUN), hasStatus)
  }

  predicate Running(ctrl: Word, c: Core) { ctrl * c.mask != {} }

  // ---- The interlock --------------------------------------------------------------

  predicate Differ(a: Core, b: Core) { a.protocol.Some? && b.protocol.Some? && a.protocol != b.protocol }

  /** The scenario mixes trace protocols. */
  predicate Mixed(sc: Scenario) {
    exists i, j :: 0 <= i < |sc.cores| && 0 <= j < |sc.cores| && Differ(sc.cores[i], sc.cores[j])
  }

  /** Whether starting core idx now -- or all cores, for None -- is refused. */
  predicate Locked(sc: Scenario, ctrl: Word, idx: Option<nat>)
    requires idx.Some? ==> idx.value < |sc.cores|
  {
    Mixed(sc) &&
    (idx.None? ||
     exists j :: 0 <= j < |sc.cores| && j != idx.value && Differ(sc.cores[idx.value], sc.cores[j])
       && Running(ctrl, sc.cores[j]))
  }

  // ---- Starting and stopping one core -------------------------------------------------

  /** The CONTROL word without any release bit of the first n cores. */
  function Cleared(sc: Scenario, w: Word, n: nat): Word
    requires n <= |sc.cores|
  {
    if n == 0 then w else Cleared(sc, w, n - 1) - sc.cores[n - 1].mask
  }

  function ReleaseBit(c: Core): Word {
    if c.own != {} then c.own else c.mask
  }

  /** The effective run state with the target core changed. */
  predicate Wanted(sc: Scenario, ctrl: Word, idx: nat, run: bool, i: nat)
    requires i < |sc.cores|
  {
    if i == idx then run else Running(ctrl, sc.cores[i])
  }

  function Released(sc: Scenario, w: Word, ctrl: Word, idx: nat, run: bool, n: nat): Word
    requires n <= |sc.cores|
  {
    if n == 0 then w else
      Released(sc, w, ctrl, idx, run, n - 1)
      + WantedBit(sc, ctrl, idx, run, n - 1)
  }

  function WantedBit(sc: Scenario, ctrl: Word, idx: nat, run: bool, i: nat): Word
    requires i < |sc.cores|
  {
    if Wanted(sc, ctrl, idx, run, i) then ReleaseBit(sc.cores[i]) else {}
  }

  /** The CONTROL word that set_core_run writes. */
  function SetRun(sc: Scenario, ctrl: Word, idx: nat, run: bool): Word {
    Released(sc, Cleared(sc, ctrl, |sc.cores|), ctrl, idx, run, |sc.cores|)
  }

  /** The STATUS mirror contradicts wanted core i: the bitstream has no per-core bits. */
  predicate ColdAt(sc: Scenario, ctrl: Word, idx: nat, run: bool, status: Word, i: nat)
    requires i < |sc.cores|
  {
    Wanted(sc, ctrl, idx, run, i) && sc.cores[i].own != {}
    && sc.cores[i].mirror != {} && status * sc.cores[i].mirror == {}
  }

  predicate Cold(sc: Scenario, ctrl: Word, idx: nat, run: bool, status: Word) {
    sc.hasStatus && exists i :: 0 <= i < |sc.cores| && ColdAt(sc, ctrl, idx, run, status, i)
  }

  function MirrorBit(ctrl: Word, st: Word, c: Core): Word {
    if Running(ctrl, c) then st + c.mirror else st - c.mirror
  }

  /** STATUS after mirroring the effective state of the first n cores. */
  function Mirrored(sc: Scenario, ctrl: Word, st: Word, n: nat): Word
    requires n <= |sc.cores|
  {
    if n == 0 then st else MirrorBit(ctrl, Mirrored(sc, ctrl, st, n - 1), sc.cores[n - 1])
  }

  /** The bits that the collective start and stop touch. */
  function Collective(sc: Scenario, n: nat): Word
    requires n <= |sc.cores|
  {
    if n == 0 then sc.coreRun else
      Collective(sc, n - 1) + CollectiveBit(sc.cores[n - 1])
  }

  /** A core hangs off the collective bit when that is among its release bits. */
  function CollectiveBit(c: Core): Word { if c.collective then c.mask else {} }

  datatype Action = RunAll | StopAll | CoreRun(core: nat) | CoreStop(core: nat)

  /** The CTRL registers; `mirrors` says whether the design mirrors the run state in STATUS. */
  class Bus {
    var control: Word
    var status: Word
    const mirrors: bool

    constructor (mirrors: bool)
      ensures control == {} && status == {} && this.mirrors == mirrors
    {
      control, status := {}, {};
      this.mirrors := mirrors;
    }

    method WriteControl(sc: Scenario, value: Word)
      modifies this
      ensures control == value
      ensures status == if mirrors && sc.hasStatus then Mirrored(sc, value, old(status), |sc.cores|) else old(status)
    {
      control := value;
      if mirrors && sc.hasStatus {
        var st := status;
        for i := 0 to |sc.cores|
          invariant st == Mirrored(sc, value, status, i)
        {
          st := MirrorBit(value, st, sc.cores[i]);
        }
        status := st;
      }
    }

    /** set_core_run, with the probe of the STATUS mirror that may take the write back. */
    method SetCoreRun(sc: Scenario, idx: nat, run: bool) returns (restored: bool)
      requires idx < |sc.cores|
      modifies this
      ensures control == if restored then old(control) else SetRun(sc, old(control), idx, run)
      ensures restored <==> Cold(sc, old(control), idx, run,
        if mirrors && sc.hasStatus then Mirrored(sc, SetRun(sc, old(control), idx, run), old(status), |sc.cores|)
        else old(status))
    {
      var ctrl := control;
      var word := RunWord(sc, ctrl, idx, run);
      WriteControl(sc, word);
      restored := Probe(sc, ctrl, idx, run, status);
      if restored {
        WriteControl(sc, ctrl);
      }
    }

    static method RunWord(sc: Scenario, ctrl: Word, idx: nat, run: bool) returns (word: Word)
      ensures word == SetRun(sc, ctrl, idx, run)
    {
      word := ctrl;
      for i := 0 to |sc.cores|
        invariant word == Cleared(sc, ctrl, i)
      {
        word := word - sc.cores[i].mask;
      }
      ghost var base := word;
      for i := 0 to |sc.cores|
        invariant word == Released(sc, base, ctrl, idx, run, i)
      {
        word := word + WantedBit(sc, ctrl, idx, run, i);
      }
    }

    static method Probe(sc: Scenario, ctrl: Word, idx: nat, run: bool, status: Word) returns (cold: bool)
      ensures cold <==> Cold(sc, ctrl, idx, run, status)
    {
      cold := false;
      if sc.hasStatus {
        for i := 0 to |sc.cores|
          invariant cold <==> exists k :: 0 <= k < i && ColdAt(sc, ctrl, idx, run, status, k)
        {
          if ColdAt(sc, ctrl, idx, run, status, i) {
            cold := true;
          }
        }
      }
    }

    /** The run/stop/core_run/core_stop arms of the control endpoint. */
    method Act(sc: Scenario, a: Action) returns (refused: bool, restored: bool)
      modifies this
      ensures Next(sc, old(control), a, control)
      ensures refused <==> Refused(sc, old(control), a)
      ensures refused ==> control == old(control)
      ensures !refused && !restored && Tidy(sc, old(control), a) ==> Done(sc, old(control), a, control)
    {
      var ctrl := control;
      restored := false;
      var all := CollectiveBits(sc);
      match a {
        case RunAll =>
          if Locked(sc, ctrl, None) {
            return true, false;
          }
          if ctrl * all != {} {
            WriteControl(sc, ctrl - all);
          }
          WriteControl(sc, (ctrl - all) + sc.coreRun);
          if CollectiveReleases(sc) { RunAllDone(sc, ctrl); }
        case StopAll =>
          WriteControl(sc, ctrl - all);
          StopAllDone(sc, ctrl);
        case CoreRun(idx) =>
          if idx >= |sc.cores| || sc.cores[idx].own == {} || Locked(sc, ctrl, Some(idx)) {
            return true, false;
          }
          if Running(ctrl, sc.cores[idx]) {
            var undone := SetCoreRun(sc, idx, false);
            assert Changed(sc, ctrl, idx, false, control);
          }
          ghost var paused := control;
          restored := SetCoreRun(sc, idx, true);
          assert Changed(sc, paused, idx, true, control);
          if Tidy(sc, ctrl, a) { RestartDone(sc, ctrl, idx, paused); }
        case CoreStop(idx) =>
          if idx >= |sc.cores| || sc.cores[idx].own == {} {
            return true, false;
          }
          restored := SetCoreRun(sc, idx, false);
          if Tidy(sc, ctrl, a) { SetRunDone(sc, ctrl, idx, false); }
      }
      return false, restored;
    }

    static method CollectiveBits(sc: Scenario) returns (all: Word)
      ensures all == Collective(sc, |sc.cores|)
    {
      all := sc.coreRun;
      for i := 0 to |sc.cores|
        invariant all == Collective(sc, i)
      {
        all := all + CollectiveBit(sc.cores[i]);
      }
    }
  }

  // ---- All outcomes of an action, whatever STATUS reads ----------------------------------

  /** A single-core change: either written, or taken back. */
  predicate Changed(sc: Scenario, c: Word, idx: nat, run: bool, c': Word) {
    c' == SetRun(sc, c, idx, run) || c' == c
  }

  ghost predicate Next(sc: Scenario, c: Word, a: Action, c': Word) {
    match a
    case RunAll =>
      if Locked(sc, c, None) then c' == c
      else c' == (c - Collective(sc, |sc.cores|)) + sc.coreRun
    case StopAll => c' == c - Collective(sc, |sc.cores|)
    case CoreRun(idx) =>
      if idx >= |sc.cores| || sc.cores[idx].own == {} || Locked(sc, c, Some(idx)) then c' == c
      else if Running(c, sc.cores[idx]) then
        exists m :: Changed(sc, c, idx, false, m) && Changed(sc, m, idx, true, c')
      else Changed(sc, c, idx, true, c')
    case CoreStop(idx) =>
      if idx >= |sc.cores| || sc.cores[idx].own == {} then c' == c
      else Changed(sc, c, idx, false, c')
  }

  /** What the endpoint refuses: a start the interlock forbids, and a core without a bit of its own. */
  predicate Refused(sc: Scenario, c: Word, a: Action) {
    match a
    case RunAll => Locked(sc, c, None)
    case StopAll => false
    case CoreRun(idx) => idx >= |sc.cores| || sc.cores[idx].own == {} || Locked(sc, c, Some(idx))
    case CoreStop(idx) => idx >= |sc.cores| || sc.cores[idx].own == {}
  }

  // ---- What an action has done, in terms of the cores that run -----------------------------

  /** A core hanging off the collective bit is released by it. */
  predicate CollectiveReleases(sc: Scenario) {
    forall k :: 0 <= k < |sc.cores| && sc.cores[k].collective ==> sc.coreRun != {} && sc.coreRun <= sc.cores[k].mask
  }

  /** Every scenario file gives such a scenario. */
  lemma DeclaredReleases(bits: Bits, entries: seq<CoreEntry>, hasStatus: bool)
    ensures CollectiveReleases(ScenarioOf(bits, entries, hasStatus))
  {
    var sc := ScenarioOf(bits, entries, hasStatus);
    forall k | 0 <= k < |sc.cores| && sc.cores[k].collective
      ensures sc.coreRun != {} && sc.coreRun <= sc.cores[k].mask
    {
      var names := Names(entries[k]);
      MaskExact(bits, names, |names|, bits[CORE_RUN]);
    }
  }

  /** If the names stand for different bits, the collective bit alone runs exactly the cores that hang off it. */
  lemma CollectiveExact(bits: Bits, entries: seq<CoreEntry>, hasStatus: bool, k: nat)
    requires k < |entries| && forall a, b :: a in bits && b in bits && bits[a] == bits[b] ==> a == b
    ensures var sc := ScenarioOf(bits, entries, hasStatus);
      Running(sc.coreRun, sc.cores[k]) == sc.cores[k].collective
  {
    var names := Names(entries[k]);
    if CORE_RUN in bits {
      var run := bits[CORE_RUN];
      MaskExact(bits, names, |names|, run);
      assert {run} * MaskOf(bits, names, |names|) != {} <==> run in {run} * MaskOf(bits, names, |names|);
    }
  }

  /** What the effect of an action relies on; for single cores that no core runs without a bit of its own. */
  predicate Tidy(sc: Scenario, c: Word, a: Action) {
    CollectiveReleases(sc) && (a.CoreRun? || a.CoreStop? ==> OwnBitsSeparate(sc) && OwnersRun(sc, c))
  }

  /** The collective actions reach the cores that hang off the collective bit, the others one core. */
  predicate Reaches(sc: Scenario, a: Action, k: nat)
    requires k < |sc.cores|
  {
    if a.RunAll? || a.StopAll? then sc.cores[k].collective else k == a.core
  }

  /** Core k shares no release bit with the cores that a reaches. */
  predicate Apart(sc: Scenario, a: Action, k: nat)
    requires k < |sc.cores|
  {
    if a.RunAll? || a.StopAll? then
      sc.coreRun * sc.cores[k].mask == {} &&
      forall j :: 0 <= j < |sc.cores| && sc.cores[j].collective ==> sc.cores[j].mask * sc.cores[k].mask == {}
    else k != a.core
  }

  /** Every core the action reaches runs or has stopped, and other cores and other bits are as they were. */
  ghost predicate Done(sc: Scenario, c: Word, a: Action, c': Word) {
    && (forall k :: 0 <= k < |sc.cores| && Reaches(sc, a, k) ==>
          (Running(c', sc.cores[k]) <==> a.RunAll? || a.CoreRun?))
    && (forall k :: 0 <= k < |sc.cores| && Apart(sc, a, k) ==> (Running(c', sc.cores[k]) <==> Running(c, sc.cores[k])))
    && (forall b :: OtherBit(sc, b) && b !in sc.coreRun ==> (b in c' <==> b in c))
  }

  lemma {:induction false} CollectiveAt(sc: Scenario, n: nat, b: nat)
    requires n <= |sc.cores|
    ensures b in Collective(sc, n) <==>
      b in sc.coreRun || exists j :: 0 <= j < n && sc.cores[j].collective && b in sc.cores[j].mask
  {
    if n > 0 { CollectiveAt(sc, n - 1, b); }
  }

  lemma NotInApart(a: Word, m: Word, b: nat)
    requires a * m == {} && b in m
    ensures b !in a
  {
    assert b in a ==> b in a * m;
  }

  /** The collective bits cover every core that hangs off the collective bit and miss every other one. */
  lemma CollectiveMasks(sc: Scenario, k: nat, b: nat)
    requires k < |sc.cores| && b in sc.cores[k].mask
    ensures sc.cores[k].collective ==> b in Collective(sc, |sc.cores|)
    ensures Apart(sc, StopAll, k) ==> b !in Collective(sc, |sc.cores|) && b !in sc.coreRun
  {
    CollectiveAt(sc, |sc.cores|, b);
    if Apart(sc, StopAll, k) {
      NotInApart(sc.coreRun, sc.cores[k].mask, b);
      forall j | 0 <= j < |sc.cores| && sc.cores[j].collective
        ensures b !in sc.cores[j].mask
      {
        NotInApart(sc.cores[j].mask, sc.cores[k].mask, b);
      }
    }
  }

  /** Taking the collective bits away and setting start instead. */
  lemma CollectiveWrite(sc: Scenario, c: Word, start: Word, k: nat)
    requires k < |sc.cores| && start <= sc.coreRun
    ensures var c' := (c - Collective(sc, |sc.cores|)) + start;
      && (sc.cores[k].collective ==> c' * sc.cores[k].mask == start * sc.cores[k].mask)
      && (Apart(sc, StopAll, k) ==> c' * sc.cores[k].mask == c * sc.cores[k].mask)
  {
    forall b | b in sc.cores[k].mask
      ensures sc.cores[k].collective ==> b in Collective(sc, |sc.cores|)
      ensures Apart(sc, StopAll, k) ==> b !in Collective(sc, |sc.cores|) && b !in start
    {
      CollectiveMasks(sc, k, b);
    }
  }

  lemma CollectiveKeepsOther(sc: Scenario, c: Word, start: Word, b: nat)
    requires start <= sc.coreRun && OtherBit(sc, b) && b !in sc.coreRun
    ensures b in (c - Collective(sc, |sc.cores|)) + start <==> b in c
  {
    CollectiveAt(sc, |sc.cores|, b);
  }

  /** After stop no core runs that hangs off the collective bit, whichever of its bits released it. */
  lemma StopAllDone(sc: Scenario, c: Word)
    ensures Done(sc, c, StopAll, c - Collective(sc, |sc.cores|))
  {
    var c' := (c - Collective(sc, |sc.cores|)) + {};
    assert c' == c - Collective(sc, |sc.cores|);
    forall k | 0 <= k < |sc.cores|
      ensures Reaches(sc, StopAll, k) ==> !Running(c', sc.cores[k])
      ensures Apart(sc, StopAll, k) ==> (Running(c', sc.cores[k]) <==> Running(c, sc.cores[k]))
    {
      CollectiveWrite(sc, c, {}, k);
    }
    forall b | OtherBit(sc, b) && b !in sc.coreRun
      ensures b in c' <==> b in c
    {
      CollectiveKeepsOther(sc, c, {}, b);
    }
  }

  /** After an accepted run all of them run. */
  lemma RunAllDone(sc: Scenario, c: Word)
    requires CollectiveReleases(sc)
    ensures Done(sc, c, RunAll, (c - Collective(sc, |sc.cores|)) + sc.coreRun)
  {
    var c' := (c - Collective(sc, |sc.cores|)) + sc.coreRun;
    forall k | 0 <= k < |sc.cores|
      ensures Reaches(sc, RunAll, k) ==> Running(c', sc.cores[k])
      ensures Apart(sc, RunAll, k) ==> (Running(c', sc.cores[k]) <==> Running(c, sc.cores[k]))
    {
      CollectiveWrite(sc, c, sc.coreRun, k);
      if Reaches(sc, RunAll, k) {
        assert sc.coreRun * sc.cores[k].mask == sc.coreRun;
      }
    }
    forall b | OtherBit(sc, b) && b !in sc.coreRun
      ensures b in c' <==> b in c
    {
      CollectiveKeepsOther(sc, c, sc.coreRun, b);
    }
  }

  /** A change of one core that is not taken back. */
  lemma SetRunDone(sc: Scenario, c: Word, idx: nat, run: bool)
    requires idx < |sc.cores| && sc.cores[idx].own != {} && OwnBitsSeparate(sc) && OwnersRun(sc, c)
    ensures Done(sc, c, if run then CoreRun(idx) else CoreStop(idx), SetRun(sc, c, idx, run))
  {
    forall k | 0 <= k < |sc.cores|
      ensures Running(SetRun(sc, c, idx, run), sc.cores[k]) <==> if k == idx then run else Running(c, sc.cores[k])
    {
      SetRunTargetsOne(sc, c, idx, run, k);
    }
    forall b | OtherBit(sc, b)
      ensures b in SetRun(sc, c, idx, run) <==> b in c
    {
      SetRunKeepsOther(sc, c, idx, run, b);
    }
  }

  /** A start that is not taken back, behind a stop of the running core that may have been. */
  lemma RestartDone(sc: Scenario, c: Word, idx: nat, paused: Word)
    requires idx < |sc.cores| && sc.cores[idx].own != {} && OwnBitsSeparate(sc) && OwnersRun(sc, c)
    requires Changed(sc, c, idx, false, paused)
    ensures Done(sc, c, CoreRun(idx), SetRun(sc, paused, idx, true))
  {
    if paused != c {
      ChangeIsBounded(sc, c, idx, false, paused);
      SetRunDone(sc, c, idx, false);
    }
    SetRunDone(sc, paused, idx, true);
  }

  // ---- One core changes, the others do not -------------------------------------------------

  /** The own bit of a core releases that core and no other. */
  predicate OwnBitsSeparate(sc: Scenario) {
    forall i, j :: 0 <= i < |sc.cores| && 0 <= j < |sc.cores| ==>
      sc.cores[i].own * sc.cores[j].mask == if i == j then sc.cores[i].own else {}
  }

  /** Every running core runs through a bit of its own. */
  predicate OwnersRun(sc: Scenario, ctrl: Word) {
    forall i :: 0 <= i < |sc.cores| && Running(ctrl, sc.cores[i]) ==> sc.cores[i].own != {}
  }

  lemma {:induction false} ClearedStops(sc: Scenario, w: Word, n: nat, k: nat)
    requires k < n <= |sc.cores|
    ensures !Running(Cleared(sc, w, n), sc.cores[k])
  {
    if k < n - 1 { ClearedStops(sc, w, n - 1, k); }
  }

  /** Running core i has no bit of its own, and the bits that keep it running release core k as well. */
  predicate Drags(sc: Scenario, ctrl: Word, idx: nat, run: bool, i: nat, k: nat)
    requires i < |sc.cores| && k < |sc.cores|
  {
    Wanted(sc, ctrl, idx, run, i) && sc.cores[i].own == {} && Running(sc.cores[i].mask, sc.cores[k])
  }

  lemma RunningUnion(c: Word, bits: Word, core: Core)
    ensures Running(c + bits, core) <==> Running(c, core) || Running(bits, core)
  {
    assert (c + bits) * core.mask == c * core.mask + bits * core.mask;
  }

  lemma ReleasesWanted(sc: Scenario, ctrl: Word, idx: nat, run: bool, i: nat, k: nat)
    requires i < |sc.cores| && k < |sc.cores| && OwnBitsSeparate(sc)
    ensures Running(WantedBit(sc, ctrl, idx, run, i), sc.cores[k]) <==>
      Drags(sc, ctrl, idx, run, i, k) || (i == k && Wanted(sc, ctrl, idx, run, k) && sc.cores[k].own != {})
  {
    assert sc.cores[i].own * sc.cores[k].mask == if i == k then sc.cores[i].own else {};
  }

  lemma {:induction false} ReleasedRuns(sc: Scenario, w: Word, ctrl: Word, idx: nat, run: bool, n: nat, k: nat)
    requires n <= |sc.cores| && k < |sc.cores| && OwnBitsSeparate(sc) && !Running(w, sc.cores[k])
    ensures Running(Released(sc, w, ctrl, idx, run, n), sc.cores[k]) <==>
      || (k < n && Wanted(sc, ctrl, idx, run, k) && sc.cores[k].own != {})
      || exists i :: 0 <= i < n && Drags(sc, ctrl, idx, run, i, k)
  {
    if n > 0 {
      ReleasedRuns(sc, w, ctrl, idx, run, n - 1, k);
      RunningUnion(Released(sc, w, ctrl, idx, run, n - 1), WantedBit(sc, ctrl, idx, run, n - 1), sc.cores[k]);
      ReleasesWanted(sc, ctrl, idx, run, n - 1, k);
    }
  }

  /** Behind set_core_run a core runs exactly if it should, or if one without a bit of its own drags it along. */
  lemma SetRunExact(sc: Scenario, ctrl: Word, idx: nat, run: bool, k: nat)
    requires OwnBitsSeparate(sc) && k < |sc.cores| && idx < |sc.cores| && sc.cores[idx].own != {}
    ensures Running(SetRun(sc, ctrl, idx, run), sc.cores[k]) <==>
      || (if k == idx then run else Running(ctrl, sc.cores[k]))
      || exists i :: 0 <= i < |sc.cores| && Drags(sc, ctrl, idx, run, i, k)
  {
    ClearedStops(sc, ctrl, |sc.cores|, k);
    ReleasedRuns(sc, Cleared(sc, ctrl, |sc.cores|), ctrl, idx, run, |sc.cores|, k);
    if Wanted(sc, ctrl, idx, run, k) && sc.cores[k].own == {} {
      assert sc.cores[k].mask * sc.cores[k].mask == sc.cores[k].mask;
      assert Drags(sc, ctrl, idx, run, k, k);
    }
  }

  /** set_core_run changes the effective state of the target core only. */
  lemma SetRunTargetsOne(sc: Scenario, ctrl: Word, idx: nat, run: bool, k: nat)
    requires OwnBitsSeparate(sc) && OwnersRun(sc, ctrl) && k < |sc.cores|
    requires idx < |sc.cores| && sc.cores[idx].own != {}
    ensures Running(SetRun(sc, ctrl, idx, run), sc.cores[k]) <==> Wanted(sc, ctrl, idx, run, k)
  {
    SetRunExact(sc, ctrl, idx, run, k);
  }

  /** A bit that releases no core. */
  predicate OtherBit(sc: Scenario, b: nat) {
    forall k :: 0 <= k < |sc.cores| ==> b !in sc.cores[k].mask
  }

  lemma {:induction false} ClearedKeepsOther(sc: Scenario, w: Word, n: nat, b: nat)
    requires n <= |sc.cores| && OtherBit(sc, b)
    ensures b in Cleared(sc, w, n) <==> b in w
  {
    if n > 0 { ClearedKeepsOther(sc, w, n - 1, b); }
  }

  lemma {:induction false} ReleasedKeepsOther(sc: Scenario, w: Word, ctrl: Word, idx: nat, run: bool, n: nat, b: nat)
    requires n <= |sc.cores| && OwnBitsSeparate(sc) && OtherBit(sc, b)
    ensures b in Released(sc, w, ctrl, idx, run, n) <==> b in w
  {
    if n > 0 {
      ReleasedKeepsOther(sc, w, ctrl, idx, run, n - 1, b);
      var c := sc.cores[n - 1];
      assert c.own * c.mask == c.own;
      assert b in c.own ==> b in c.own * c.mask;
    }
  }

  /** ... and leaves every bit of CONTROL that releases no core alone. */
  lemma SetRunKeepsOther(sc: Scenario, ctrl: Word, idx: nat, run: bool, b: nat)
    requires OwnBitsSeparate(sc) && OtherBit(sc, b)
    ensures b in SetRun(sc, ctrl, idx, run) <==> b in ctrl
  {
    ClearedKeepsOther(sc, ctrl, |sc.cores|, b);
    ReleasedKeepsOther(sc, Cleared(sc, ctrl, |sc.cores|), ctrl, idx, run, |sc.cores|, b);
  }

  // ---- Protocol exclusion over every run -----------------------------------------------------

  predicate Exclusive(sc: Scenario, ctrl: Word) {
    forall i, j :: 0 <= i < |sc.cores| && 0 <= j < |sc.cores| && Differ(sc.cores[i], sc.cores[j]) ==>
      !(Running(ctrl, sc.cores[i]) && Running(ctrl, sc.cores[j]))
  }

  predicate Safe(sc: Scenario, ctrl: Word) {
    Exclusive(sc, ctrl) && (Mixed(sc) ==> OwnersRun(sc, ctrl))
  }

  /** c2 runs no core that c1 does not run, except possibly core `extra`. */
  predicate AtMost(sc: Scenario, c1: Word, c2: Word, extra: Option<nat>) {
    forall k :: 0 <= k < |sc.cores| && Running(c2, sc.cores[k]) ==> Running(c1, sc.cores[k]) || extra == Some(k)
  }

  lemma FewerIsSafe(sc: Scenario, c1: Word, c2: Word)
    requires Safe(sc, c1) && AtMost(sc, c1, c2, None)
    ensures Safe(sc, c2)
  {
  }

  lemma OneMoreIsSafe(sc: Scenario, c1: Word, c2: Word, idx: nat)
    requires Safe(sc, c1) && AtMost(sc, c1, c2, Some(idx)) && Mixed(sc)
    requires idx < |sc.cores| && sc.cores[idx].own != {} && !Locked(sc, c1, Some(idx))
    ensures Safe(sc, c2)
  {
  }

  lemma ChangeIsBounded(sc: Scenario, c1: Word, idx: nat, run: bool, c2: Word)
    requires OwnBitsSeparate(sc) && OwnersRun(sc, c1) && Changed(sc, c1, idx, run, c2)
    requires idx < |sc.cores| && sc.cores[idx].own != {}
    ensures AtMost(sc, c1, c2, if run then Some(idx) else None)
  {
    forall k | 0 <= k < |sc.cores| && Running(c2, sc.cores[k])
      ensures Running(c1, sc.cores[k]) || (run && k == idx)
    {
      SetRunTargetsOne(sc, c1, idx, run, k);
    }
  }

  lemma StopIsBounded(sc: Scenario, c: Word, bits: Word)
    ensures AtMost(sc, c, c - bits, None)
  {
    forall k | 0 <= k < |sc.cores| && Running(c - bits, sc.cores[k])
      ensures Running(c, sc.cores[k])
    {
      var b :| b in (c - bits) * sc.cores[k].mask;
      assert b in c * sc.cores[k].mask;
    }
  }

  lemma StartIsSafe(sc: Scenario, c: Word, idx: nat, c': Word)
    requires OwnBitsSeparate(sc) && Mixed(sc) && Safe(sc, c)
    requires idx < |sc.cores| && sc.cores[idx].own != {} && !Locked(sc, c, Some(idx))
    requires Next(sc, c, CoreRun(idx), c')
    ensures Safe(sc, c')
  {
    if Running(c, sc.cores[idx]) {
      var m :| Changed(sc, c, idx, false, m) && Changed(sc, m, idx, true, c');
      ChangeIsBounded(sc, c, idx, false, m);
      FewerIsSafe(sc, c, m);
      ChangeIsBounded(sc, m, idx, true, c');
      OneMoreIsSafe(sc, m, c', idx);
    } else {
      ChangeIsBounded(sc, c, idx, true, c');
      OneMoreIsSafe(sc, c, c', idx);
    }
  }

  lemma StepIsSafe(sc: Scenario, c: Word, a: Action, c': Word)
    requires OwnBitsSeparate(sc) && Safe(sc, c) && Next(sc, c, a, c')
    ensures Safe(sc, c')
  {
    if Mixed(sc) && c' != c {
      match a {
        case RunAll =>
        case StopAll =>
          StopIsBounded(sc, c, Collective(sc, |sc.cores|));
          FewerIsSafe(sc, c, c');
        case CoreRun(idx) =>
          StartIsSafe(sc, c, idx, c');
        case CoreStop(idx) =>
          ChangeIsBounded(sc, c, idx, false, c');
          FewerIsSafe(sc, c, c');
      }
    }
  }

  /** Control words along a run of actions, with every outcome the STATUS probe may give. */
  ghost predicate IsRun(sc: Scenario, words: seq<Word>, acts: seq<Action>) {
    |words| == |acts| + 1 && forall k :: 0 <= k < |acts| ==> Next(sc, words[k], acts[k], words[k + 1])
  }

  predicate AllStopped(sc: Scenario, ctrl: Word) {
    forall k :: 0 <= k < |sc.cores| ==> !Running(ctrl, sc.cores[k])
  }

  /** From all cores stopped, no sequence of actions ever has two cores of different protocols running. */
  lemma {:induction false} EveryRunExclusive(sc: Scenario, words: seq<Word>, acts: seq<Action>, n: nat)
    requires OwnBitsSeparate(sc) && IsRun(sc, words, acts) && n < |words| && AllStopped(sc, words[0])
    ensures Safe(sc, words[n])
  {
    if n > 0 {
      EveryRunExclusive(sc, words, acts, n - 1);
      assert Next(sc, words[n - 1], acts[n - 1], words[n - 1 + 1]);
      StepIsSafe(sc, words[n - 1], acts[n - 1], words[n]);
    }
  }

  // ---- The STATUS probe on a bus that mirrors -------------------------------------------------

  predicate MirrorsSeparate(sc: Scenario) {
    forall i, j :: 0 <= i < j < |sc.cores| ==> sc.cores[i].mirror * sc.cores[j].mirror == {}
  }

  lemma {:induction false} MirroredAt(sc: Scenario, ctrl: Word, st: Word, n: nat, i: nat)
    requires i < n <= |sc.cores| && MirrorsSeparate(sc)
    ensures Mirrored(sc, ctrl, st, n) * sc.cores[i].mirror
      == if Running(ctrl, sc.cores[i]) then sc.cores[i].mirror else {}
  {
    var s, c, m := Mirrored(sc, ctrl, st, n - 1), sc.cores[n - 1], sc.cores[i].mirror;
    if i < n - 1 {
      MirroredAt(sc, ctrl, st, n - 1, i);
      assert m * c.mirror == {};
      assert MirrorBit(ctrl, s, c) * m == s * m by {
        forall b | b in m
          ensures b !in c.mirror
        {
          assert b in c.mirror ==> b in m * c.mirror;
        }
      }
    }
  }

  /** With a mirror per core the probe never takes a change back, so set_core_run does what it was asked. */
  lemma NeverRestored(sc: Scenario, ctrl: Word, idx: nat, run: bool, st: Word)
    requires OwnBitsSeparate(sc) && OwnersRun(sc, ctrl) && MirrorsSeparate(sc)
    requires idx < |sc.cores| && sc.cores[idx].own != {}
    ensures !Cold(sc, ctrl, idx, run, Mirrored(sc, SetRun(sc, ctrl, idx, run), st, |sc.cores|))
  {
    var word := SetRun(sc, ctrl, idx, run);
    forall i | 0 <= i < |sc.cores|
      ensures !ColdAt(sc, ctrl, idx, run, Mirrored(sc, word, st, |sc.cores|), i)
    {
      SetRunTargetsOne(sc, ctrl, idx, run, i);
      MirroredAt(sc, word, st, |sc.cores|, i);
    }
  }

  /**
   * On a bitstream whose STATUS mirror stays 0 a change is taken back exactly if a core that is to run
   * has a bit of its own and a mirror: every start of such a core, and a stop beside a running one.
   */
  lemma TakenBackExact(sc: Scenario, ctrl: Word, idx: nat, run: bool, status: Word)
    requires idx < |sc.cores| && forall i :: 0 <= i < |sc.cores| ==> status * sc.cores[i].mirror == {}
    ensures Cold(sc, ctrl, idx, run, status) == (sc.hasStatus &&
      ((run && sc.cores[idx].own != {} && sc.cores[idx].mirror != {}) ||
        exists i :: 0 <= i < |sc.cores| && i != idx && Running(ctrl, sc.cores[i])
          && sc.cores[i].own != {} && sc.cores[i].mirror != {}))
  {
    if run && sc.cores[idx].own != {} && sc.cores[idx].mirror != {} {
      assert ColdAt(sc, ctrl, idx, run, status, idx);
    }
    forall i | 0 <= i < |sc.cores| && i != idx
      ensures ColdAt(sc, ctrl, idx, run, status, i) <==>
        Running(ctrl, sc.cores[i]) && sc.cores[i].own != {} && sc.cores[i].mirror != {}
    {
    }
  }

  // ---- What the interlock refuses -------------------------------------------------------------

  /** The collective start is refused exactly if running all cores at once would break the exclusion. */
  lemma RunAllRefusedExact(sc: Scenario, c: Word, every: Word)
    requires forall k :: 0 <= k < |sc.cores| ==> Running(every, sc.cores[k])
    ensures Locked(sc, c, None) <==> !Exclusive(sc, every)
  {
  }

  /** The start of a core is refused exactly if it would leave two protocols running. */
  lemma CoreRunRefusedExact(sc: Scenario, c: Word, idx: nat)
    requires OwnBitsSeparate(sc) && OwnersRun(sc, c) && Exclusive(sc, c)
    requires idx < |sc.cores| && sc.cores[idx].own != {}
    ensures Locked(sc, c, Some(idx)) <==> !Exclusive(sc, SetRun(sc, c, idx, true))
  {
    var c' := SetRun(sc, c, idx, true);
    forall k | 0 <= k < |sc.cores|
      ensures Running(c', sc.cores[k]) <==> k == idx || Running(c, sc.cores[k])
    {
      SetRunTargetsOne(sc, c, idx, true, k);
    }
    if Locked(sc, c, Some(idx)) {
      var j :| 0 <= j < |sc.cores| && j != idx && Differ(sc.cores[idx], sc.cores[j]) && Running(c, sc.cores[j]);
      assert Running(c', sc.cores[j]) && Running(c', sc.cores[idx]);
    }
  }

  // ---- The cva6_run action is outside the interlock ---------------------------------------------

  /** cva6_run sets its bit without asking. */
  function CvaRun(sc: Scenario, ctrl: Word): Word {
    ctrl + if sc.cva6Run != {} then sc.cva6Run else sc.coreRun
  }

  /** The bits release core i. */
  predicate Hits(sc: Scenario, bits: Word, i: nat)
    requires i < |sc.cores|
  {
    bits * sc.cores[i].mask != {}
  }

  /** The interlock would let every core that the bits release start, and these cores agree among themselves. */
  predicate MayStart(sc: Scenario, c: Word, bits: Word) {
    (forall i :: 0 <= i < |sc.cores| && Hits(sc, bits, i) ==> !Locked(sc, c, Some(i))) &&
    (forall i, j :: 0 <= i < |sc.cores| && 0 <= j < |sc.cores| && Hits(sc, bits, i) && Hits(sc, bits, j) ==>
      !Differ(sc.cores[i], sc.cores[j]))
  }

  /** Setting bits past the interlock keeps the exclusion exactly when the interlock would have agreed. */
  lemma RawStartExact(sc: Scenario, c: Word, bits: Word)
    requires Exclusive(sc, c)
    ensures Exclusive(sc, c + bits) <==> MayStart(sc, c, bits)
  {
    forall i | 0 <= i < |sc.cores|
      ensures Running(c + bits, sc.cores[i]) <==> Running(c, sc.cores[i]) || Hits(sc, bits, i)
    {
      RunningUnion(c, bits, sc.cores[i]);
    }
    if MayStart(sc, c, bits) {
      MayStartIsEnough(sc, c, bits);
    } else if Exclusive(sc, c + bits) {
      forall i | 0 <= i < |sc.cores| && Hits(sc, bits, i)
        ensures !Locked(sc, c, Some(i))
      {
      }
    }
  }

  lemma MayStartIsEnough(sc: Scenario, c: Word, bits: Word)
    requires Exclusive(sc, c) && MayStart(sc, c, bits)
    requires forall i :: 0 <= i < |sc.cores| ==>
      (Running(c + bits, sc.cores[i]) <==> Running(c, sc.cores[i]) || Hits(sc, bits, i))
    ensures Exclusive(sc, c + bits)
  {
    forall i, j | 0 <= i < |sc.cores| && 0 <= j < |sc.cores| && Differ(sc.cores[i], sc.cores[j])
      ensures !(Running(c + bits, sc.cores[i]) && Running(c + bits, sc.cores[j]))
    {
      assert Differ(sc.cores[j], sc.cores[i]) && Mixed(sc);
      assert Hits(sc, bits, i) ==> !Locked(sc, c, Some(i));
      assert Hits(sc, bits, j) ==> !Locked(sc, c, Some(j));
    }
  }

  /** cva6_run keeps the exclusion exactly when the interlock, which it does not ask, would let its core start. */
  lemma CvaRunExact(sc: Scenario, c: Word, idx: nat)
    requires OwnBitsSeparate(sc) && Exclusive(sc, c) && idx < |sc.cores|
    requires sc.cva6Run != {} && sc.cores[idx].own == sc.cva6Run
    ensures Exclusive(sc, CvaRun(sc, c)) <==> !Locked(sc, c, Some(idx))
  {
    RawStartExact(sc, c, sc.cva6Run);
    forall i | 0 <= i < |sc.cores|
      ensures Hits(sc, sc.cva6Run, i) <==> i == idx
    {
      assert sc.cores[idx].own * sc.cores[i].mask == if idx == i then sc.cores[idx].own else {};
    }
  }

  /** The shipped three-core scenario: two N-Trace cores and one E-Trace core. */
  const TRIO_BITS: Bits := map[CORE_RUN := 0, "core0_run" := 8, "core1_run" := 9, CVA6_RUN := 5, "cva6_run2" := 10]
  const TRIO_CORE0 := CoreEntry(Some([CORE_RUN, "core0_run"]), Some("core0_run"), Some("ntrace"), {8})
  const TRIO_CORE1 := CoreEntry(Some([CORE_RUN, "core1_run"]), Some("core1_run"), Some("ntrace"), {9})
  const TRIO_CORE2 := CoreEntry(Some([CVA6_RUN, "cva6_run2"]), Some(CVA6_RUN), Some("etrace"), {10})
  const TRIO: Scenario := ScenarioOf(TRIO_BITS, [TRIO_CORE0, TRIO_CORE1, TRIO_CORE2], true)

  lemma TwoNames(bits: Bits, a: string, b: string)
    ensures MaskOf(bits, [a, b], 2) == Cbit(bits, a) + Cbit(bits, b)
  {
    assert MaskOf(bits, [a, b], 1) == MaskOf(bits, [a, b], 0) + Cbit(bits, a);
  }

  lemma TrioBits()
    ensures Cbit(TRIO_BITS, CORE_RUN) == {0} && Cbit(TRIO_BITS, CVA6_RUN) == {5}
    ensures Cbit(TRIO_BITS, "core0_run") == {8} && Cbit(TRIO_BITS, "core1_run") == {9}
    ensures Cbit(TRIO_BITS, "cva6_run2") == {10}
  {
    assert "core0_run"[4] != "core1_run"[4] && "core0_run"[0] == "core1_run"[0] != "cva6_run2"[1];
    assert "cva6_run2"[4] != "core0_run"[4] && "cva6_run2"[4] != "core1_run"[4];
    assert CORE_RUN[1] != CVA6_RUN[1];
  }

  lemma TrioCores()
    ensures TRIO.cores == [
      Core({0, 8}, {8}, Some("ntrace"), {8}, true),
      Core({0, 9}, {9}, Some("ntrace"), {9}, true),
      Core({5, 10}, {5}, Some("etrace"), {10}, false)]
    ensures TRIO.coreRun == {0} && TRIO.cva6Run == {5}
  {
    TrioBits();
    TwoNames(TRIO_BITS, CORE_RUN, "core0_run");
    TwoNames(TRIO_BITS, CORE_RUN, "core1_run");
    TwoNames(TRIO_BITS, CVA6_RUN, "cva6_run2");
    assert Names(TRIO_CORE0)[0] == CORE_RUN && Names(TRIO_CORE1)[0] == CORE_RUN;
    assert forall k :: 0 <= k < 2 ==> Names(TRIO_CORE2)[k][1] != CORE_RUN[1];
    assert CoreOf(TRIO_BITS, TRIO_CORE0) == Core({0, 8}, {8}, Some("ntrace"), {8}, true);
    assert CoreOf(TRIO_BITS, TRIO_CORE1) == Core({0, 9}, {9}, Some("ntrace"), {9}, true);
    assert CoreOf(TRIO_BITS, TRIO_CORE2) == Core({5, 10}, {5}, Some("etrace"), {10}, false);
  }

  /** The three-core scenario meets the assumptions above. */
  lemma TrioIsSound()
    ensures OwnBitsSeparate(TRIO) && MirrorsSeparate(TRIO) && Mixed(TRIO)
  {
    TrioCores();
    assert "ntrace"[0] != "etrace"[0];
    assert Differ(TRIO.cores[0], TRIO.cores[2]);
  }

  lemma OnlyCore0Runs()
    ensures |TRIO.cores| == 3 && TRIO.cores[0].own != {} && TRIO.cores[2].own == TRIO.cva6Run != {}
    ensures Running({8}, TRIO.cores[0]) && !Running({8}, TRIO.cores[1]) && !Running({8}, TRIO.cores[2])
  {
    TrioCores();
    assert 8 in {8} * TRIO.cores[0].mask;
  }

  lemma StartsCore0()
    ensures AllStopped(TRIO, {}) && Next(TRIO, {}, CoreRun(0), {8})
  {
    TrioCores();
    assert AllStopped(TRIO, {});
    ClearedStaysEmpty(TRIO, 3);
    ReleasesFirst(TRIO, 3);
  }

  lemma {:induction false} ClearedStaysEmpty(sc: Scenario, n: nat)
    requires n <= |sc.cores|
    ensures Cleared(sc, {}, n) == {}
  {
    if n > 0 { ClearedStaysEmpty(sc, n - 1); }
  }

  lemma {:induction false} ReleasesFirst(sc: Scenario, n: nat)
    requires 0 < n <= |sc.cores| && sc.cores[0].own != {}
    ensures Released(sc, {}, {}, 0, true, n) == sc.cores[0].own
  {
    if n > 1 {
      ReleasesFirst(sc, n - 1);
      assert WantedBit(sc, {}, 0, true, n - 1) == {};
    } else {
      assert Released(sc, {}, {}, 0, true, 0) == {};
    }
  }

  /** In the shipped scenario: start core 0, then cva6_run. The interlock is locked, and two protocols run. */
  lemma CvaRunBreaksExclusion()
    ensures AllStopped(TRIO, {}) && Next(TRIO, {}, CoreRun(0), {8})
    ensures Safe(TRIO, {8}) && Locked(TRIO, {8}, Some(2)) && !Exclusive(TRIO, CvaRun(TRIO, {8}))
  {
    StartsCore0();
    OnlyCore0Runs();
    TrioIsSound();
    TrioProtocols();
    FirstRuns(TRIO, {8});
    CvaRunExact(TRIO, {8}, 2);
  }

  lemma TrioProtocols()
    ensures |TRIO.cores| == 3 && !Differ(TRIO.cores[0], TRIO.cores[1])
    ensures Differ(TRIO.cores[2], TRIO.cores[0]) && Differ(TRIO.cores[0], TRIO.cores[2])
  {
    TrioCores();
    assert "ntrace"[0] != "etrace"[0];
  }

  lemma FirstRuns(sc: Scenario, c: Word)
    requires |sc.cores| == 3 && sc.cores[0].own != {} && Differ(sc.cores[2], sc.cores[0])
    requires Running(c, sc.cores[0]) && !Running(c, sc.cores[1]) && !Running(c, sc.cores[2])
    ensures Safe(sc, c) && Locked(sc, c, Some(2))
  {
    assert !Differ(sc.cores[0], sc.cores[0]);
  }
}
