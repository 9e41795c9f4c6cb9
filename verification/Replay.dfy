/** From an oracle PC sequence to a straight-line CPU-model script (scripts/gen_replay.py). */
module Replay {
  import opened Commons

  datatype Kind = L | BD | JD | CD | JI | R | Other(name: string)
  datatype Info = Info(kind: Kind, size: nat, target: Option<nat>)
  type PcInfo = map<nat, Info>

  datatype Stmt =
    | Run(bytes: nat)
    | BranchTaken(target: nat)
    | BranchNotTaken(target: nat)
    | JumpTo(target: nat)
    | CallTo(target: nat)
    | UninferableJump(target: nat)
    | Ret

  datatype Error = EmptySequence | UnknownPc | SequenceGap | NoTarget | BadSuccessor | UnhandledKind

  /** The generator after some instructions: emitted statements and pending straight-line bytes. */
  datatype Gen =
    | Gen(stmts: seq<Stmt>, runBytes: nat)
    | Stopped(done: seq<Stmt>)
    | Failed(error: Error)

  function Flush(stmts: seq<Stmt>, runBytes: nat): seq<Stmt> {
    if runBytes != 0 then stmts + [Run(runBytes)] else stmts
  }

  /** The statement of a control-flow instruction at pc with successor nxt. */
  function Emit(info: Info, pc: nat, nxt: Option<nat>): Gen {
    match info.kind
    case BD =>
      if info.target.None? then Failed(NoTarget)
      else if nxt.None? || nxt.value == pc + info.size then Gen([BranchNotTaken(info.target.value)], 0)
      else if nxt == info.target then Gen([BranchTaken(info.target.value)], 0)
      else Failed(BadSuccessor)
    case JD => if info.target.None? then Failed(NoTarget) else Gen([JumpTo(info.target.value)], 0)
    case CD => if info.target.None? then Failed(NoTarget) else Gen([CallTo(info.target.value)], 0)
    case JI => if nxt.None? then Stopped([]) else Gen([UninferableJump(nxt.value)], 0)
    case R => Gen([Ret], 0)
    case _ => Failed(UnhandledKind)
  }

  function Successor(pcs: seq<nat>, i: nat): Option<nat>
    requires i < |pcs|
  {
    if i + 1 < |pcs| then Some(pcs[i + 1]) else None
  }

  function GenStep(g: Gen, info: PcInfo, pc: nat, nxt: Option<nat>): Gen
    requires g.Gen?
  {
    if pc !in info then Failed(UnknownPc)
    else if info[pc].kind == L then
      if nxt.Some? && nxt.value != pc + info[pc].size then Failed(SequenceGap)
      else Gen(g.stmts, g.runBytes + info[pc].size)
    else
      match Emit(info[pc], pc, nxt)
      case Gen(st, _) => Gen(Flush(g.stmts, g.runBytes) + st, 0)
      case Stopped(_) => Stopped(Flush(g.stmts, g.runBytes))
      case Failed(e) => Failed(e)
  }

  /** The generator state after the first n instructions. */
  function Compile(pcs: seq<nat>, info: PcInfo, n: nat): Gen
    requires n <= |pcs|
  {
    if n == 0 then Gen([], 0) else
      var g := Compile(pcs, info, n - 1);
      if g.Gen? then GenStep(g, info, pcs[n - 1], Successor(pcs, n - 1)) else g
  }

  datatype Result = Script(stmts: seq<Stmt>) | Refused(error: Error)

  function Outcome(g: Gen): Result {
    match g
    case Gen(stmts, run) => Script(Flush(stmts, run))
    case Stopped(stmts) => Script(stmts)
    case Failed(e) => Refused(e)
  }

  method Generate(pcs: seq<nat>, info: PcInfo) returns (r: Result)
    ensures r == if pcs == [] then Refused(EmptySequence) else Outcome(Compile(pcs, info, |pcs|))
    ensures r.Script? <==> pcs != [] && Accepted(pcs, info)
  {
    AcceptedExact(pcs, info);
    if |pcs| == 0 {
      return Refused(EmptySequence);
    }
    var stmts: seq<Stmt> := [];
    var runBytes: nat := 0;
    for i := 0 to |pcs|
      invariant Compile(pcs, info, i) == Gen(stmts, runBytes)
    {
      var pc := pcs[i];
      if pc !in info {
        FailureStays(pcs, info, i + 1);
        return Refused(UnknownPc);
      }
      var nxt: Option<nat> := if i + 1 < |pcs| then Some(pcs[i + 1]) else None;
      if info[pc].kind == L {
        if nxt.Some? && nxt.value != pc + info[pc].size {
          FailureStays(pcs, info, i + 1);
          return Refused(SequenceGap);
        }
        runBytes := runBytes + info[pc].size;
        continue;
      }
      if runBytes != 0 {
        stmts := stmts + [Run(runBytes)];
        runBytes := 0;
      }
      match Emit(info[pc], pc, nxt) {
        case Gen(st, _) => stmts := stmts + st;
        case Stopped(_) =>
          FailureStays(pcs, info, i + 1);
          return Script(stmts);
        case Failed(e) =>
          FailureStays(pcs, info, i + 1);
          return Refused(e);
      }
    }
    return Script(Flush(stmts, runBytes));
  }

  lemma {:induction false} FailureStays(pcs: seq<nat>, info: PcInfo, n: nat)
    requires n <= |pcs| && !Compile(pcs, info, n).Gen?
    ensures Compile(pcs, info, |pcs|) == Compile(pcs, info, n)
    decreases |pcs| - n
  {
    if n < |pcs| { FailureStays(pcs, info, n + 1); }
  }

  // ---- Which oracles are accepted, and what the script says ------------------------

  /**
   * What the generator asks of instruction i: one of the six kinds, a target where one is needed,
   * and a successor, if there is one, behind the instruction or at the target of the branch.
   */
  predicate AcceptedAt(pcs: seq<nat>, info: PcInfo, i: nat)
    requires i < |pcs|
  {
    && pcs[i] in info
    && var inf, behind, last := info[pcs[i]], pcs[i] + info[pcs[i]].size, i + 1 == |pcs|;
       match inf.kind
       case L => last || pcs[i + 1] == behind
       case BD => inf.target.Some? && (last || pcs[i + 1] == behind || pcs[i + 1] == inf.target.value)
       case JD => inf.target.Some?
       case CD => inf.target.Some?
       case JI => true
       case R => true
       case Other(_) => false
  }

  predicate Accepted(pcs: seq<nat>, info: PcInfo) {
    forall i :: 0 <= i < |pcs| ==> AcceptedAt(pcs, info, i)
  }

  lemma StepAccepts(g: Gen, pcs: seq<nat>, info: PcInfo, n: nat)
    requires n < |pcs| && g.Gen?
    ensures GenStep(g, info, pcs[n], Successor(pcs, n)).Failed? == !AcceptedAt(pcs, info, n)
  {
  }

  lemma {:induction false} AcceptedUpTo(pcs: seq<nat>, info: PcInfo, n: nat)
    requires n <= |pcs|
    ensures !Compile(pcs, info, n).Failed? <==> forall i :: 0 <= i < n ==> AcceptedAt(pcs, info, i)
  {
    if n > 0 {
      AcceptedUpTo(pcs, info, n - 1);
      StopsOnlyAtEnd(pcs, info, n - 1);
      var g := Compile(pcs, info, n - 1);
      if g.Gen? { StepAccepts(g, pcs, info, n - 1); }
    }
  }

  /** A script comes out exactly for the accepted oracles. */
  lemma AcceptedExact(pcs: seq<nat>, info: PcInfo)
    ensures Outcome(Compile(pcs, info, |pcs|)).Script? <==> Accepted(pcs, info)
  {
    AcceptedUpTo(pcs, info, |pcs|);
  }

  /** Statement st is what the pcinfo and the oracle say about control-flow instruction i. */
  predicate Says(st: Stmt, pcs: seq<nat>, info: PcInfo, i: nat)
    requires i < |pcs|
  {
    && pcs[i] in info
    && var inf, behind, last := info[pcs[i]], pcs[i] + info[pcs[i]].size, i + 1 == |pcs|;
       match st
       case Run(_) => false
       case BranchTaken(t) => inf.kind == BD && inf.target == Some(t) && !last && pcs[i + 1] == t && t != behind
       case BranchNotTaken(t) => inf.kind == BD && inf.target == Some(t) && (last || pcs[i + 1] == behind)
       case JumpTo(t) => inf.kind == JD && inf.target == Some(t)
       case CallTo(t) => inf.kind == CD && inf.target == Some(t)
       case UninferableJump(t) => inf.kind == JI && !last && pcs[i + 1] == t
       case Ret => inf.kind == R
  }

  /** Bytes of the sequential instructions among the first n. */
  function LinearBytes(pcs: seq<nat>, info: PcInfo, n: nat): nat
    requires n <= |pcs|
  {
    if n == 0 then 0 else
      LinearBytes(pcs, info, n - 1) +
      if pcs[n - 1] in info && info[pcs[n - 1]].kind == L then info[pcs[n - 1]].size else 0
  }

  /** Bytes that the runs of a script retire. */
  function RunTotal(stmts: seq<Stmt>): nat
    decreases |stmts|
  {
    if stmts == [] then 0 else
      var st := stmts[|stmts| - 1];
      RunTotal(stmts[..|stmts| - 1]) + if st.Run? then st.bytes else 0
  }

  predicate Ascending(s: seq<nat>) {
    forall k, l :: 0 <= k < l < |s| ==> s[k] < s[l]
  }

  /**
   * The statements other than runs, at the positions pos, say in order what the control-flow
   * instructions among the first n, at the indexes at, do; in front of each of them the runs retire
   * exactly the bytes of the sequential instructions in front of it.
   */
  ghost predicate Tells(stmts: seq<Stmt>, pos: seq<nat>, at: seq<nat>, pcs: seq<nat>, info: PcInfo, n: nat)
    requires n <= |pcs|
  {
    && |pos| == |at| && Ascending(pos) && Ascending(at)
    && (forall p :: 0 <= p < |stmts| && !stmts[p].Run? ==> p in pos)
    && (forall i :: 0 <= i < n && pcs[i] in info && info[pcs[i]].kind != L ==> i in at)
    && (forall k :: 0 <= k < |pos| ==> SaysAt(stmts, pos[k], pcs, info, at[k], n))
  }

  ghost predicate SaysAt(stmts: seq<Stmt>, p: nat, pcs: seq<nat>, info: PcInfo, i: nat, n: nat)
    requires n <= |pcs|
  {
    p < |stmts| && i < n && Says(stmts[p], pcs, info, i) && RunTotal(stmts[..p]) == LinearBytes(pcs, info, i)
  }

  /** Runs retire something, and no two of them stand side by side. */
  predicate MergedRuns(stmts: seq<Stmt>) {
    forall p :: 0 <= p < |stmts| && stmts[p].Run? ==>
      stmts[p].bytes > 0 && (p + 1 < |stmts| ==> !stmts[p + 1].Run?)
  }

  lemma LinearTells(s: seq<Stmt>, pos: seq<nat>, at: seq<nat>, pcs: seq<nat>, info: PcInfo, n: nat)
    requires n < |pcs| && Tells(s, pos, at, pcs, info, n) && pcs[n] in info && info[pcs[n]].kind == L
    ensures Tells(s, pos, at, pcs, info, n + 1)
  {
  }

  /** Runs behind the last control-flow statement change nothing in what is said. */
  lemma RunsTell(s: seq<Stmt>, more: seq<Stmt>, pos: seq<nat>, at: seq<nat>, pcs: seq<nat>, info: PcInfo, n: nat)
    requires n <= |pcs| && Tells(s, pos, at, pcs, info, n) && forall p :: 0 <= p < |more| ==> more[p].Run?
    ensures Tells(s + more, pos, at, pcs, info, n)
  {
    forall k | 0 <= k < |pos|
      ensures SaysAt(s + more, pos[k], pcs, info, at[k], n)
    {
      assert (s + more)[..pos[k]] == s[..pos[k]];
    }
  }

  lemma ControlTells(s: seq<Stmt>, st: Stmt, pos: seq<nat>, at: seq<nat>, pcs: seq<nat>, info: PcInfo, n: nat)
    requires n < |pcs| && Tells(s, pos, at, pcs, info, n)
    requires Says(st, pcs, info, n) && RunTotal(s) == LinearBytes(pcs, info, n)
    ensures Tells(s + [st], pos + [|s|], at + [n], pcs, info, n + 1)
  {
    forall k | 0 <= k <= |pos|
      ensures SaysAt(s + [st], (pos + [|s|])[k], pcs, info, (at + [n])[k], n + 1)
    {
      if k < |pos| {
        SaysAtGrows(s, st, pos[k], pcs, info, at[k], n);
      } else {
        assert (s + [st])[..|s|] == s;
      }
    }
    forall p | 0 <= p < |s + [st]| && !(s + [st])[p].Run?
      ensures p in pos + [|s|]
    {
      assert p < |s| ==> (s + [st])[p] == s[p];
    }
    AscendingSnoc(pos, |s|);
    AscendingSnoc(at, n);
  }

  lemma SaysAtGrows(s: seq<Stmt>, st: Stmt, p: nat, pcs: seq<nat>, info: PcInfo, i: nat, n: nat)
    requires n < |pcs| && SaysAt(s, p, pcs, info, i, n)
    ensures SaysAt(s + [st], p, pcs, info, i, n + 1)
  {
    assert (s + [st])[..p] == s[..p];
  }

  lemma AscendingSnoc(s: seq<nat>, x: nat)
    requires Ascending(s) && forall k :: 0 <= k < |s| ==> s[k] < x
    ensures Ascending(s + [x])
  {
  }

  lemma RunTotalFlush(g: Gen)
    requires g.Gen?
    ensures RunTotal(Flush(g.stmts, g.runBytes)) == RunTotal(g.stmts) + g.runBytes
  {
    assert (g.stmts + [Run(g.runBytes)])[..|g.stmts|] == g.stmts;
  }

  lemma RunTotalControl(stmts: seq<Stmt>, st: Stmt)
    requires !st.Run?
    ensures RunTotal(stmts + [st]) == RunTotal(stmts)
  {
    assert (stmts + [st])[..|stmts|] == stmts;
  }

  /** All bytes of sequential instructions are in the script or pending, and the pending run has no neighbour. */
  ghost predicate Accounted(g: Gen, bytes: nat) {
    g.Gen? && RunTotal(g.stmts) + g.runBytes == bytes && MergedRuns(g.stmts) && EndsInControl(g.stmts)
  }

  predicate EndsInControl(stmts: seq<Stmt>) {
    stmts != [] ==> !stmts[|stmts| - 1].Run?
  }

  lemma MergedSnoc(stmts: seq<Stmt>, bytes: nat, st: Stmt)
    requires MergedRuns(stmts) && EndsInControl(stmts) && !st.Run?
    ensures MergedRuns(Flush(stmts, bytes)) && MergedRuns(Flush(stmts, bytes) + [st])
  {
  }

  lemma MergedFlush(stmts: seq<Stmt>, bytes: nat)
    requires MergedRuns(stmts) && EndsInControl(stmts)
    ensures MergedRuns(Flush(stmts, bytes))
  {
  }

  lemma ControlAccounted(g: Gen, st: Stmt, bytes: nat)
    requires Accounted(g, bytes) && !st.Run?
    ensures Accounted(Gen(Flush(g.stmts, g.runBytes) + [st], 0), bytes)
    ensures RunTotal(Flush(g.stmts, g.runBytes)) == bytes
  {
    RunTotalFlush(g);
    RunTotalControl(Flush(g.stmts, g.runBytes), st);
    MergedSnoc(g.stmts, g.runBytes, st);
  }

  lemma {:induction false} BytesAccounted(pcs: seq<nat>, info: PcInfo, n: nat)
    requires n <= |pcs| && Compile(pcs, info, n).Gen?
    ensures Accounted(Compile(pcs, info, n), LinearBytes(pcs, info, n))
  {
    if n > 0 {
      BytesAccounted(pcs, info, n - 1);
      if info[pcs[n - 1]].kind != L {
        var st := OneStatement(pcs, info, n - 1);
        ControlAccounted(Compile(pcs, info, n - 1), st, LinearBytes(pcs, info, n - 1));
      }
    }
  }

  lemma StatementSays(pcs: seq<nat>, info: PcInfo, n: nat) returns (st: Stmt)
    requires n < |pcs| && Compile(pcs, info, n).Gen? && Compile(pcs, info, n + 1).Gen?
    requires info[pcs[n]].kind != L
    ensures var g := Compile(pcs, info, n); Compile(pcs, info, n + 1).stmts == Flush(g.stmts, g.runBytes) + [st]
    ensures Says(st, pcs, info, n)
  {
    st := OneStatement(pcs, info, n);
  }

  lemma ControlStepTells(g: Gen, st: Stmt, pos: seq<nat>, at: seq<nat>, pcs: seq<nat>, info: PcInfo, n: nat)
    requires n < |pcs| && g.Gen? && Tells(g.stmts, pos, at, pcs, info, n)
    requires Accounted(g, LinearBytes(pcs, info, n)) && Says(st, pcs, info, n)
    ensures var s := Flush(g.stmts, g.runBytes); Tells(s + [st], pos + [|s|], at + [n], pcs, info, n + 1)
  {
    RunTotalFlush(g);
    FlushTells(g, pos, at, pcs, info, n);
    ControlTells(Flush(g.stmts, g.runBytes), st, pos, at, pcs, info, n);
  }

  lemma {:induction false} ToldUpTo(pcs: seq<nat>, info: PcInfo, n: nat) returns (pos: seq<nat>, at: seq<nat>)
    requires n <= |pcs| && Compile(pcs, info, n).Gen?
    ensures Tells(Compile(pcs, info, n).stmts, pos, at, pcs, info, n)
  {
    if n == 0 {
      pos, at := [], [];
    } else {
      var pos0, at0 := ToldUpTo(pcs, info, n - 1);
      pos, at := ToldNext(pcs, info, n - 1, n, pos0, at0);
    }
  }

  lemma ToldNext(pcs: seq<nat>, info: PcInfo, n: nat, m: nat, pos0: seq<nat>, at0: seq<nat>)
    returns (pos: seq<nat>, at: seq<nat>)
    requires m == n + 1 <= |pcs| && Compile(pcs, info, n).Gen? && Compile(pcs, info, m).Gen?
    requires Tells(Compile(pcs, info, n).stmts, pos0, at0, pcs, info, n)
    ensures Tells(Compile(pcs, info, m).stmts, pos, at, pcs, info, m)
  {
    var g := Compile(pcs, info, n);
    if info[pcs[n]].kind == L {
      pos, at := pos0, at0;
      LinearTells(g.stmts, pos, at, pcs, info, n);
    } else {
      var st := StatementSays(pcs, info, n);
      BytesAccounted(pcs, info, n);
      pos, at := pos0 + [|Flush(g.stmts, g.runBytes)|], at0 + [n];
      ControlStepTells(g, st, pos0, at0, pcs, info, n);
    }
  }

  lemma FlushTells(g: Gen, pos: seq<nat>, at: seq<nat>, pcs: seq<nat>, info: PcInfo, n: nat)
    requires g.Gen? && n <= |pcs| && Tells(g.stmts, pos, at, pcs, info, n)
    ensures Tells(Flush(g.stmts, g.runBytes), pos, at, pcs, info, n)
  {
    RunsTell(g.stmts, if g.runBytes != 0 then [Run(g.runBytes)] else [], pos, at, pcs, info, n);
    assert g.runBytes == 0 ==> g.stmts + [] == g.stmts;
  }

  /** What every script says: its oracle, instruction by instruction, up to a trailing indirect jump. */
  lemma ScriptTells(pcs: seq<nat>, info: PcInfo) returns (pos: seq<nat>, at: seq<nat>)
    requires Accepted(pcs, info)
    ensures Outcome(Compile(pcs, info, |pcs|)).Script?
    ensures var script, n := Outcome(Compile(pcs, info, |pcs|)).stmts, Replayed(pcs, info);
      && Tells(script, pos, at, pcs, info, n)
      && RunTotal(script) == LinearBytes(pcs, info, n) && MergedRuns(script)
  {
    AcceptedExact(pcs, info);
    var n := Replayed(pcs, info);
    if pcs == [] {
      pos, at := [], [];
    } else {
      ScriptUpTo(pcs, info, n);
      var g := Compile(pcs, info, n);
      pos, at := ToldUpTo(pcs, info, n);
      FlushTells(g, pos, at, pcs, info, n);
      BytesAccounted(pcs, info, n);
      RunTotalFlush(g);
      MergedFlush(g.stmts, g.runBytes);
    }
  }

  // ---- What a script does -------------------------------------------------------

  /** The CPU model: program counter, return addresses, and the PCs retired so far. */
  datatype Cpu = Cpu(pc: nat, stack: seq<nat>, trace: seq<nat>) | Stuck

  /** Retire straight-line instructions until the bytes are used up. */
  function RunBytes(c: Cpu, bytes: int, stride: nat -> nat): Cpu
    requires c.Cpu?
    decreases if bytes > 0 then bytes else 0
  {
    if bytes <= 0 then c
    else if stride(c.pc) == 0 then Stuck
    else RunBytes(Cpu(c.pc + stride(c.pc), c.stack, c.trace + [c.pc]), bytes - stride(c.pc), stride)
  }

  function Exec(c: Cpu, st: Stmt, stride: nat -> nat): Cpu {
    if c.Stuck? then Stuck else
      var next := c.pc + stride(c.pc);
      var trace := c.trace + [c.pc];
      match st
      case Run(bytes) => RunBytes(c, bytes, stride)
      case BranchTaken(t) => Cpu(t, c.stack, trace)
      case BranchNotTaken(_) => Cpu(next, c.stack, trace)
      case JumpTo(t) => Cpu(t, c.stack, trace)
      case CallTo(t) => Cpu(t, c.stack + [next], trace)
      case UninferableJump(t) => Cpu(t, c.stack, trace)
      case Ret =>
        if c.stack == [] then Stuck
        else Cpu(c.stack[|c.stack| - 1], c.stack[..|c.stack| - 1], trace)
  }

  function ExecAll(c: Cpu, stmts: seq<Stmt>, stride: nat -> nat): Cpu
    decreases |stmts|
  {
    if stmts == [] then c
    else Exec(ExecAll(c, stmts[..|stmts| - 1], stride), stmts[|stmts| - 1], stride)
  }

  lemma ExecSnoc(c: Cpu, stmts: seq<Stmt>, st: Stmt, stride: nat -> nat)
    ensures ExecAll(c, stmts + [st], stride) == Exec(ExecAll(c, stmts, stride), st, stride)
  {
    assert (stmts + [st])[..|stmts|] == stmts;
  }

  // ---- What the oracle has to satisfy ---------------------------------------------

  /** Return addresses open before instruction n of the oracle, for a CPU with the given stride. */
  function StackAt(pcs: seq<nat>, info: PcInfo, stride: nat -> nat, n: nat): seq<nat>
    requires n <= |pcs|
  {
    if n == 0 then [] else
      var s, pc := StackAt(pcs, info, stride, n - 1), pcs[n - 1];
      if pc !in info then s
      else if info[pc].kind == CD then s + [pc + stride(pc)]
      else if info[pc].kind == R && s != [] then s[..|s| - 1]
      else s
  }

  /** Instructions the script retires: a trailing indirect jump has no known target and is dropped. */
  function Replayed(pcs: seq<nat>, info: PcInfo): nat
    ensures Replayed(pcs, info) <= |pcs|
  {
    if pcs != [] && pcs[|pcs| - 1] in info && info[pcs[|pcs| - 1]].kind == JI then |pcs| - 1 else |pcs|
  }

  /**
   * What the generator does not check itself: direct jumps and calls of the oracle go to their
   * pcinfo target, and every return finds an open call and goes back to its call site.
   */
  predicate ConsistentAt(pcs: seq<nat>, info: PcInfo, stride: nat -> nat, i: nat)
    requires i < |pcs|
  {
    pcs[i] in info ==>
      var inf, s := info[pcs[i]], StackAt(pcs, info, stride, i);
      var seen := i + 1 < Replayed(pcs, info);
      && (inf.kind == JD || inf.kind == CD ==> seen ==> inf.target == Some(pcs[i + 1]))
      && (inf.kind == R ==> s != [] && (seen ==> pcs[i + 1] == s[|s| - 1]))
  }

  predicate Consistent(pcs: seq<nat>, info: PcInfo, stride: nat -> nat) {
    forall i :: 0 <= i < Replayed(pcs, info) ==> ConsistentAt(pcs, info, stride, i)
  }

  /**
   * Where the CPU advances by its own stride, so does the oracle: behind a sequential instruction
   * and a branch not taken. A sequential instruction at the end has at most one stride of bytes.
   */
  predicate SequentialAt(pcs: seq<nat>, info: PcInfo, stride: nat -> nat, i: nat)
    requires i < |pcs|
  {
    pcs[i] in info ==>
      var inf, next := info[pcs[i]], pcs[i] + stride(pcs[i]);
      if i + 1 < Replayed(pcs, info) then
        inf.kind == L || (inf.kind == BD && pcs[i + 1] == pcs[i] + inf.size) ==> pcs[i + 1] == next
      else inf.kind == L ==> 0 < inf.size <= stride(pcs[i])
  }

  predicate Sequential(pcs: seq<nat>, info: PcInfo, stride: nat -> nat) {
    forall i :: 0 <= i < Replayed(pcs, info) ==> SequentialAt(pcs, info, stride, i)
  }

  /** Consistent and sequential for the first n instructions. */
  predicate FitsUpTo(pcs: seq<nat>, info: PcInfo, stride: nat -> nat, n: nat)
    requires n <= |pcs|
  {
    n > 0 ==>
      FitsUpTo(pcs, info, stride, n - 1) &&
      ConsistentAt(pcs, info, stride, n - 1) && SequentialAt(pcs, info, stride, n - 1)
  }

  lemma {:induction false} FitsUpToIsForAll(pcs: seq<nat>, info: PcInfo, stride: nat -> nat, n: nat)
    requires n <= |pcs|
    ensures FitsUpTo(pcs, info, stride, n) <==>
      forall i :: 0 <= i < n ==> ConsistentAt(pcs, info, stride, i) && SequentialAt(pcs, info, stride, i)
  {
    if n > 0 { FitsUpToIsForAll(pcs, info, stride, n - 1); }
  }

  /** The CPU advances on every oracle PC. */
  predicate Advancing(pcs: seq<nat>, stride: nat -> nat) {
    forall i :: 0 <= i < |pcs| ==> stride(pcs[i]) > 0
  }

  // ---- Straight-line runs re-split into their instructions ---------------------------

  ghost predicate ExactRun(pc: nat, bytes: int, stride: nat -> nat)
    decreases if bytes > 0 then bytes else 0
  {
    bytes == 0 || (0 < stride(pc) <= bytes && ExactRun(pc + stride(pc), bytes - stride(pc), stride))
  }

  /** Bytes behind an exact run are retired from where that run ends. */
  lemma {:induction false} RunSplits(c: Cpu, bytes: nat, more: nat, stride: nat -> nat)
    requires c.Cpu? && ExactRun(c.pc, bytes, stride)
    ensures var d := RunBytes(c, bytes, stride);
      d.Cpu? && RunBytes(c, bytes + more, stride) == RunBytes(d, more, stride)
    decreases bytes
  {
    if bytes > 0 {
      RunSplits(Cpu(c.pc + stride(c.pc), c.stack, c.trace + [c.pc]), bytes - stride(c.pc), more, stride);
    }
  }

  /** The CPU one sequential instruction further on. */
  function Advanced(d: Cpu, stride: nat -> nat): Cpu
    requires d.Cpu?
  {
    Cpu(d.pc + stride(d.pc), d.stack, d.trace + [d.pc])
  }

  /** Merging one more instruction into a run retires exactly that instruction more. */
  lemma RunExtends(c: Cpu, bytes: nat, n: nat, stride: nat -> nat)
    requires c.Cpu? && ExactRun(c.pc, bytes, stride)
    requires var d := RunBytes(c, bytes, stride); d.Cpu? && 0 < n <= stride(d.pc)
    ensures RunBytes(c, bytes + n, stride) == Advanced(RunBytes(c, bytes, stride), stride)
  {
    var d := RunBytes(c, bytes, stride);
    RunSplits(c, bytes, n, stride);
    assert RunBytes(Advanced(d, stride), n - stride(d.pc), stride) == Advanced(d, stride);
  }

  lemma {:induction false} ExactExtends(c: Cpu, bytes: nat, stride: nat -> nat)
    requires c.Cpu? && ExactRun(c.pc, bytes, stride)
    requires var d := RunBytes(c, bytes, stride); d.Cpu? && stride(d.pc) > 0
    ensures ExactRun(c.pc, bytes + stride(RunBytes(c, bytes, stride).pc), stride)
    decreases bytes
  {
    if bytes > 0 {
      ExactExtends(Advanced(c, stride), bytes - stride(c.pc), stride);
    } else {
      assert ExactRun(c.pc + stride(c.pc), 0, stride);
    }
  }

  lemma ExecFlush(c: Cpu, g: Gen, stride: nat -> nat)
    requires g.Gen? && ExecAll(c, g.stmts, stride).Cpu?
    ensures ExecAll(c, Flush(g.stmts, g.runBytes), stride) == RunBytes(ExecAll(c, g.stmts, stride), g.runBytes, stride)
  {
    if g.runBytes != 0 { ExecSnoc(c, g.stmts, Run(g.runBytes), stride); }
  }

  // ---- The script follows the oracle ---------------------------------------------------

  function Enter(pc: nat): Cpu { Cpu(pc, [], []) }

  /** The CPU has retired exactly the first n oracle PCs and stands at the next one. */
  ghost predicate At(d: Cpu, pcs: seq<nat>, info: PcInfo, stride: nat -> nat, n: nat)
    requires n <= |pcs|
  {
    && d.Cpu? && d.stack == StackAt(pcs, info, stride, n) && d.trace == pcs[..n]
    && (n < Replayed(pcs, info) ==> d.pc == pcs[n])
  }

  /** So does the script of the first n instructions, its pending run included. */
  ghost predicate InStep(pcs: seq<nat>, info: PcInfo, stride: nat -> nat, n: nat)
    requires n <= |pcs| && pcs != []
  {
    var g := Compile(pcs, info, n);
    g.Gen? &&
    var c := ExecAll(Enter(pcs[0]), g.stmts, stride);
    && c.Cpu? && (n < Replayed(pcs, info) ==> ExactRun(c.pc, g.runBytes, stride))
    && At(RunBytes(c, g.runBytes, stride), pcs, info, stride, n)
  }

  lemma LinearStep(d: Cpu, pcs: seq<nat>, info: PcInfo, stride: nat -> nat, n: nat)
    requires n < Replayed(pcs, info) && At(d, pcs, info, stride, n) && pcs[n] in info && info[pcs[n]].kind == L
    requires n + 1 < Replayed(pcs, info) ==> pcs[n + 1] == pcs[n] + stride(pcs[n])
    ensures At(Advanced(d, stride), pcs, info, stride, n + 1)
  {
    assert pcs[..n + 1] == pcs[..n] + [pcs[n]];
  }

  lemma ControlStep(d: Cpu, pcs: seq<nat>, info: PcInfo, stride: nat -> nat, n: nat, st: Stmt)
    requires n < Replayed(pcs, info) && At(d, pcs, info, stride, n) && pcs[n] in info
    requires Emit(info[pcs[n]], pcs[n], Successor(pcs, n)) == Gen([st], 0)
    requires ConsistentAt(pcs, info, stride, n) && SequentialAt(pcs, info, stride, n)
    ensures At(Exec(d, st, stride), pcs, info, stride, n + 1)
  {
    assert pcs[..n + 1] == pcs[..n] + [pcs[n]];
  }

  lemma LinearStaysInStep(pcs: seq<nat>, info: PcInfo, stride: nat -> nat, n: nat)
    requires pcs != [] && Advancing(pcs, stride)
    requires n < Replayed(pcs, info) && InStep(pcs, info, stride, n)
    requires Compile(pcs, info, n + 1).Gen? && info[pcs[n]].kind == L && SequentialAt(pcs, info, stride, n)
    ensures InStep(pcs, info, stride, n + 1)
  {
    var g, size := Compile(pcs, info, n), info[pcs[n]].size;
    var c := ExecAll(Enter(pcs[0]), g.stmts, stride);
    assert Compile(pcs, info, n + 1) == Gen(g.stmts, g.runBytes + size);
    RunExtends(c, g.runBytes, size, stride);
    ExactExtends(c, g.runBytes, stride);
    LinearStep(RunBytes(c, g.runBytes, stride), pcs, info, stride, n);
  }

  lemma ControlStaysInStep(pcs: seq<nat>, info: PcInfo, stride: nat -> nat, n: nat)
    requires pcs != [] && n < Replayed(pcs, info) && InStep(pcs, info, stride, n)
    requires Compile(pcs, info, n + 1).Gen? && info[pcs[n]].kind != L
    requires ConsistentAt(pcs, info, stride, n) && SequentialAt(pcs, info, stride, n)
    ensures InStep(pcs, info, stride, n + 1)
  {
    var g := Compile(pcs, info, n);
    var start := Enter(pcs[0]);
    var d := RunBytes(ExecAll(start, g.stmts, stride), g.runBytes, stride);
    var flushed := Flush(g.stmts, g.runBytes);
    var st := OneStatement(pcs, info, n);
    ExecFlush(start, g, stride);
    ExecSnoc(start, flushed, st, stride);
    ControlStep(d, pcs, info, stride, n, st);
    NothingPending(pcs, info, stride, n + 1, flushed + [st]);
  }

  lemma NothingPending(pcs: seq<nat>, info: PcInfo, stride: nat -> nat, n: nat, stmts: seq<Stmt>)
    requires n <= |pcs| && pcs != [] && Compile(pcs, info, n) == Gen(stmts, 0)
    requires At(ExecAll(Enter(pcs[0]), stmts, stride), pcs, info, stride, n)
    ensures InStep(pcs, info, stride, n)
  {
  }

  /** Every control-flow instruction turns into one statement behind the flushed run. */
  lemma OneStatement(pcs: seq<nat>, info: PcInfo, n: nat) returns (st: Stmt)
    requires n < |pcs| && Compile(pcs, info, n).Gen? && Compile(pcs, info, n + 1).Gen?
    requires info[pcs[n]].kind != L
    ensures pcs[n] in info && Emit(info[pcs[n]], pcs[n], Successor(pcs, n)) == Gen([st], 0)
    ensures var g := Compile(pcs, info, n); Compile(pcs, info, n + 1) == Gen(Flush(g.stmts, g.runBytes) + [st], 0)
    ensures !st.Run?
  {
    st := Emit(info[pcs[n]], pcs[n], Successor(pcs, n)).stmts[0];
  }

  lemma ScriptUpTo(pcs: seq<nat>, info: PcInfo, n: nat)
    requires pcs != [] && Outcome(Compile(pcs, info, |pcs|)).Script? && n <= Replayed(pcs, info)
    ensures Compile(pcs, info, n).Gen?
    ensures n == Replayed(pcs, info) ==>
      var g := Compile(pcs, info, n); Outcome(Compile(pcs, info, |pcs|)) == Script(Flush(g.stmts, g.runBytes))
  {
    StopsOnlyAtEnd(pcs, info, n);
    if Compile(pcs, info, n).Failed? { FailureStays(pcs, info, n); }
  }

  /** Only a trailing indirect jump stops the generator early. */
  lemma {:induction false} StopsOnlyAtEnd(pcs: seq<nat>, info: PcInfo, n: nat)
    requires n <= |pcs|
    ensures Compile(pcs, info, n).Stopped? ==> n == |pcs| && Replayed(pcs, info) == |pcs| - 1
    ensures Compile(pcs, info, n).Gen? && n == |pcs| ==> Replayed(pcs, info) == |pcs|
  {
    if n > 0 { StopsOnlyAtEnd(pcs, info, n - 1); }
  }

  lemma {:induction false} FollowsOracle(pcs: seq<nat>, info: PcInfo, stride: nat -> nat, n: nat)
    requires pcs != [] && Advancing(pcs, stride) && n <= Replayed(pcs, info)
    requires Outcome(Compile(pcs, info, |pcs|)).Script?
    requires FitsUpTo(pcs, info, stride, n)
    ensures InStep(pcs, info, stride, n)
  {
    if n > 0 {
      FollowsOracle(pcs, info, stride, n - 1);
      ScriptUpTo(pcs, info, n);
      StaysInStep(pcs, info, stride, n - 1);
    } else {
      InStepAtStart(pcs, info, stride);
    }
  }

  lemma InStepAtStart(pcs: seq<nat>, info: PcInfo, stride: nat -> nat)
    requires pcs != []
    ensures InStep(pcs, info, stride, 0)
  {
    assert Compile(pcs, info, 0) == Gen([], 0);
  }

  lemma StaysInStep(pcs: seq<nat>, info: PcInfo, stride: nat -> nat, n: nat)
    requires pcs != [] && Advancing(pcs, stride) && n < Replayed(pcs, info)
    requires InStep(pcs, info, stride, n) && Compile(pcs, info, n + 1).Gen?
    requires ConsistentAt(pcs, info, stride, n) && SequentialAt(pcs, info, stride, n)
    ensures InStep(pcs, info, stride, n + 1)
  {
    if info[pcs[n]].kind == L {
      LinearStaysInStep(pcs, info, stride, n);
    } else {
      ControlStaysInStep(pcs, info, stride, n);
    }
  }

  /** Running a generated script, entered at the first oracle PC. */
  function Replay(pcs: seq<nat>, info: PcInfo, stride: nat -> nat): Cpu
    requires pcs != [] && Outcome(Compile(pcs, info, |pcs|)).Script?
  {
    ExecAll(Enter(pcs[0]), Outcome(Compile(pcs, info, |pcs|)).stmts, stride)
  }

  /** The script retires exactly the oracle, minus a trailing indirect jump. */
  predicate Exact(pcs: seq<nat>, info: PcInfo, stride: nat -> nat)
    requires pcs != [] && Outcome(Compile(pcs, info, |pcs|)).Script?
  {
    var cpu := Replay(pcs, info, stride);
    cpu.Cpu? && cpu.trace == pcs[..Replayed(pcs, info)]
  }

  /** On a consistent oracle in the CPU's own stride the replay is exact. */
  lemma ReplayFaithful(pcs: seq<nat>, info: PcInfo, stride: nat -> nat)
    requires pcs != [] && Outcome(Compile(pcs, info, |pcs|)).Script? && Advancing(pcs, stride)
    requires Consistent(pcs, info, stride) && Sequential(pcs, info, stride)
    ensures Exact(pcs, info, stride)
  {
    var n := Replayed(pcs, info);
    FitsUpToIsForAll(pcs, info, stride, n);
    FollowsOracle(pcs, info, stride, n);
    ScriptUpTo(pcs, info, n);
    ExecFlush(Enter(pcs[0]), Compile(pcs, info, n), stride);
  }

  // ---- ... and only on such an oracle -----------------------------------------------------

  lemma {:induction false} RunGrows(c: Cpu, bytes: int, stride: nat -> nat)
    requires c.Cpu? && RunBytes(c, bytes, stride).Cpu?
    ensures c.trace <= RunBytes(c, bytes, stride).trace
    decreases if bytes > 0 then bytes else 0
  {
    if bytes > 0 {
      RunGrows(Advanced(c, stride), bytes - stride(c.pc), stride);
    }
  }

  /** A run with bytes in it retires at least the instruction it starts at. */
  lemma RunVisits(d: Cpu, bytes: int, stride: nat -> nat)
    requires d.Cpu? && bytes > 0 && RunBytes(d, bytes, stride).Cpu?
    ensures d.trace + [d.pc] <= RunBytes(d, bytes, stride).trace
  {
    RunGrows(Advanced(d, stride), bytes - stride(d.pc), stride);
  }

  predicate Retiring(st: Stmt) { st.Run? ==> st.bytes > 0 }

  /** So does every statement. */
  lemma ExecVisits(d: Cpu, st: Stmt, stride: nat -> nat)
    requires Retiring(st) && Exec(d, st, stride).Cpu?
    ensures d.Cpu? && d.trace + [d.pc] <= Exec(d, st, stride).trace
  {
    if st.Run? { RunVisits(d, st.bytes, stride); }
  }

  lemma {:induction false} ScriptVisits(c: Cpu, stmts: seq<Stmt>, k: nat, stride: nat -> nat)
    requires k < |stmts| && (forall i :: 0 <= i < |stmts| ==> Retiring(stmts[i]))
    requires ExecAll(c, stmts, stride).Cpu?
    ensures var d := ExecAll(c, stmts[..k], stride);
      d.Cpu? && d.trace + [d.pc] <= ExecAll(c, stmts, stride).trace
    decreases |stmts|
  {
    var front := stmts[..|stmts| - 1];
    ExecVisits(ExecAll(c, front, stride), stmts[|stmts| - 1], stride);
    if k < |front| {
      ScriptVisits(c, front, k, stride);
      assert front[..k] == stmts[..k];
    }
  }

  lemma {:induction false} StatementsRetire(pcs: seq<nat>, info: PcInfo, n: nat)
    requires n <= |pcs| && Compile(pcs, info, n).Gen?
    ensures var g := Compile(pcs, info, n);
      forall i :: 0 <= i < |Flush(g.stmts, g.runBytes)| ==> Retiring(Flush(g.stmts, g.runBytes)[i])
    ensures forall i :: 0 <= i < |Compile(pcs, info, n).stmts| ==> Retiring(Compile(pcs, info, n).stmts[i])
  {
    if n > 0 { StatementsRetire(pcs, info, n - 1); }
  }

  /** Later instructions only add to the script. */
  lemma {:induction false} ScriptGrows(pcs: seq<nat>, info: PcInfo, n: nat, m: nat)
    requires n <= m <= |pcs| && Compile(pcs, info, m).Gen? && Compile(pcs, info, n).Gen?
    ensures Compile(pcs, info, n).stmts <= Compile(pcs, info, m).stmts
    decreases m
  {
    if n < m {
      ScriptGrows(pcs, info, n, m - 1);
      if info[pcs[m - 1]].kind != L { var _ := OneStatement(pcs, info, m - 1); }
    }
  }

  /** The whole script, all of whose statements retire something. */
  lemma WholeScript(pcs: seq<nat>, info: PcInfo, stride: nat -> nat, n: nat) returns (script: seq<Stmt>)
    requires pcs != [] && Outcome(Compile(pcs, info, |pcs|)).Script? && n <= Replayed(pcs, info)
    ensures Compile(pcs, info, n).Gen? && Compile(pcs, info, Replayed(pcs, info)).Gen?
    ensures var g := Compile(pcs, info, Replayed(pcs, info)); script == Flush(g.stmts, g.runBytes)
    ensures Compile(pcs, info, n).stmts <= script && forall i :: 0 <= i < |script| ==> Retiring(script[i])
    ensures Replay(pcs, info, stride) == ExecAll(Enter(pcs[0]), script, stride)
  {
    var m := Replayed(pcs, info);
    ScriptUpTo(pcs, info, m);
    ScriptUpTo(pcs, info, n);
    ScriptGrows(pcs, info, n, m);
    StatementsRetire(pcs, info, m);
    script := Flush(Compile(pcs, info, m).stmts, Compile(pcs, info, m).runBytes);
  }

  /** What an exact replay retires behind a part of its script is what the oracle has there. */
  lemma ResumesAt(pcs: seq<nat>, info: PcInfo, stride: nat -> nat, script: seq<Stmt>, k: nat, n: nat)
    requires pcs != [] && Outcome(Compile(pcs, info, |pcs|)).Script? && Exact(pcs, info, stride)
    requires n <= Replayed(pcs, info) && k <= |script| && (forall i :: 0 <= i < |script| ==> Retiring(script[i]))
    requires Replay(pcs, info, stride) == ExecAll(Enter(pcs[0]), script, stride)
    requires var d := ExecAll(Enter(pcs[0]), script[..k], stride); d.Cpu? ==> |d.trace| == n
    ensures var d := ExecAll(Enter(pcs[0]), script[..k], stride);
      d.Cpu? && (n < Replayed(pcs, info) ==> d.pc == pcs[n])
  {
    var d := ExecAll(Enter(pcs[0]), script[..k], stride);
    if k < |script| {
      ScriptVisits(Enter(pcs[0]), script, k, stride);
      assert n < Replayed(pcs, info) ==> (d.trace + [d.pc])[n] == Replay(pcs, info, stride).trace[n];
    } else {
      assert script[..k] == script;
    }
  }

  /** The CPU behind control-flow instruction n, whether or not the oracle agrees with it. */
  lemma AfterControl(pcs: seq<nat>, info: PcInfo, stride: nat -> nat, n: nat) returns (d: Cpu)
    requires pcs != [] && n < Replayed(pcs, info)
    requires InStep(pcs, info, stride, n) && Compile(pcs, info, n + 1).Gen? && info[pcs[n]].kind != L
    ensures d == ExecAll(Enter(pcs[0]), Compile(pcs, info, n + 1).stmts, stride)
    ensures d.Cpu? ==> |d.trace| == n + 1
    ensures d.Cpu? && (n + 1 < Replayed(pcs, info) ==> d.pc == pcs[n + 1]) ==>
      ConsistentAt(pcs, info, stride, n) && SequentialAt(pcs, info, stride, n)
  {
    var g := Compile(pcs, info, n);
    var start := Enter(pcs[0]);
    var flushed := Flush(g.stmts, g.runBytes);
    var st := OneStatement(pcs, info, n);
    ExecFlush(start, g, stride);
    ExecSnoc(start, flushed, st, stride);
    var c := RunBytes(ExecAll(start, g.stmts, stride), g.runBytes, stride);
    d := Exec(c, st, stride);
    AfterStatement(c, pcs, info, stride, n, st);
  }

  lemma AfterStatement(c: Cpu, pcs: seq<nat>, info: PcInfo, stride: nat -> nat, n: nat, st: Stmt)
    requires n < Replayed(pcs, info) && At(c, pcs, info, stride, n) && pcs[n] in info && info[pcs[n]].kind != L
    requires Emit(info[pcs[n]], pcs[n], Successor(pcs, n)) == Gen([st], 0)
    ensures var d := Exec(c, st, stride);
      && (d.Cpu? ==> |d.trace| == n + 1)
      && (d.Cpu? && (n + 1 < Replayed(pcs, info) ==> d.pc == pcs[n + 1]) ==>
            ConsistentAt(pcs, info, stride, n) && SequentialAt(pcs, info, stride, n))
  {
  }

  lemma ControlForced(pcs: seq<nat>, info: PcInfo, stride: nat -> nat, n: nat)
    requires pcs != [] && n < Replayed(pcs, info) && InStep(pcs, info, stride, n)
    requires Outcome(Compile(pcs, info, |pcs|)).Script? && Exact(pcs, info, stride)
    requires Compile(pcs, info, n + 1).Gen? && info[pcs[n]].kind != L
    ensures ConsistentAt(pcs, info, stride, n) && SequentialAt(pcs, info, stride, n)
  {
    var d := AfterControl(pcs, info, stride, n);
    ResumesAfter(pcs, info, stride, n + 1, d);
  }

  lemma ResumesAfter(pcs: seq<nat>, info: PcInfo, stride: nat -> nat, n: nat, d: Cpu)
    requires pcs != [] && Outcome(Compile(pcs, info, |pcs|)).Script? && Exact(pcs, info, stride)
    requires n <= Replayed(pcs, info) && Compile(pcs, info, n).Gen?
    requires d == ExecAll(Enter(pcs[0]), Compile(pcs, info, n).stmts, stride) && (d.Cpu? ==> |d.trace| == n)
    ensures d.Cpu? && (n < Replayed(pcs, info) ==> d.pc == pcs[n])
  {
    var script := WholeScript(pcs, info, stride, n);
    var stmts := Compile(pcs, info, n).stmts;
    assert script[..|stmts|] == stmts;
    ResumesAt(pcs, info, stride, script, |stmts|, n);
  }

  /** The run that instruction n is merged into: still pending, or flushed right behind the statements so far. */
  ghost predicate InRun(g: Gen, stmts: seq<Stmt>, bytes: nat) {
    && g.Gen? && stmts <= g.stmts
    && if g.stmts == stmts then g.runBytes >= bytes
       else g.stmts[|stmts|].Run? && g.stmts[|stmts|].bytes >= bytes
  }

  lemma {:induction false} RunGoesOn(pcs: seq<nat>, info: PcInfo, n: nat, m: nat)
    requires n < m <= |pcs| && Compile(pcs, info, n).Gen? && Compile(pcs, info, m).Gen?
    requires pcs[n] in info && info[pcs[n]].kind == L && Compile(pcs, info, n).runBytes + info[pcs[n]].size > 0
    ensures var g := Compile(pcs, info, n);
      InRun(Compile(pcs, info, m), g.stmts, g.runBytes + info[pcs[n]].size)
    decreases m
  {
    if n + 1 < m {
      RunGoesOn(pcs, info, n, m - 1);
      if info[pcs[m - 1]].kind != L { var _ := OneStatement(pcs, info, m - 1); }
    }
  }

  /** A sequential instruction without bytes is followed by itself for ever. */
  lemma {:induction false} EmptyStalls(pcs: seq<nat>, info: PcInfo, n: nat, m: nat)
    requires pcs != [] && Outcome(Compile(pcs, info, |pcs|)).Script? && n <= m <= Replayed(pcs, info) && n < |pcs|
    requires pcs[n] in info && info[pcs[n]].kind == L && info[pcs[n]].size == 0
    ensures Compile(pcs, info, n).Gen? && Compile(pcs, info, m) == Compile(pcs, info, n)
    ensures m < |pcs| ==> pcs[m] == pcs[n]
    decreases m
  {
    ScriptUpTo(pcs, info, m);
    if n < m { EmptyStalls(pcs, info, n, m - 1); }
  }

  /** What is known in the proof about sequential instruction n of an exactly replayed oracle. */
  ghost predicate LinearHere(pcs: seq<nat>, info: PcInfo, stride: nat -> nat, n: nat) {
    && pcs != [] && n < Replayed(pcs, info) && Advancing(pcs, stride) && InStep(pcs, info, stride, n)
    && Outcome(Compile(pcs, info, |pcs|)).Script? && Exact(pcs, info, stride)
    && Compile(pcs, info, n + 1).Gen? && info[pcs[n]].kind == L
  }

  lemma LinearHasBytes(pcs: seq<nat>, info: PcInfo, stride: nat -> nat, n: nat)
    requires LinearHere(pcs, info, stride, n)
    ensures info[pcs[n]].size > 0
  {
    if info[pcs[n]].size == 0 { EmptyRetiresNothing(pcs, info, stride, n); }
  }

  lemma EmptyRetiresNothing(pcs: seq<nat>, info: PcInfo, stride: nat -> nat, n: nat)
    requires pcs != [] && n < Replayed(pcs, info) && InStep(pcs, info, stride, n)
    requires Outcome(Compile(pcs, info, |pcs|)).Script?
    requires pcs[n] in info && info[pcs[n]].kind == L && info[pcs[n]].size == 0
    ensures Replay(pcs, info, stride).Cpu? && |Replay(pcs, info, stride).trace| == n
  {
    var m := Replayed(pcs, info);
    EmptyStalls(pcs, info, n, m);
    ScriptUpTo(pcs, info, m);
    ExecFlush(Enter(pcs[0]), Compile(pcs, info, n), stride);
  }

  /** The statement behind the ones before instruction n is the run that n is merged into. */
  lemma RunInScript(pcs: seq<nat>, info: PcInfo, stride: nat -> nat, n: nat) returns (script: seq<Stmt>, bytes: nat)
    requires LinearHere(pcs, info, stride, n) && info[pcs[n]].size > 0
    ensures var g := Compile(pcs, info, n);
      && |g.stmts| < |script| && script[..|g.stmts|] == g.stmts && script[|g.stmts|] == Run(bytes)
      && bytes >= g.runBytes + info[pcs[n]].size
      && (n + 1 == Replayed(pcs, info) ==> bytes == g.runBytes + info[pcs[n]].size && |script| == |g.stmts| + 1)
    ensures forall i :: 0 <= i < |script| ==> Retiring(script[i])
    ensures Replay(pcs, info, stride) == ExecAll(Enter(pcs[0]), script, stride)
  {
    var g, m := Compile(pcs, info, n), Replayed(pcs, info);
    script := WholeScript(pcs, info, stride, n);
    RunGoesOn(pcs, info, n, m);
    assert script[|g.stmts|].Run?;
    bytes := script[|g.stmts|].bytes;
  }

  /** Where the CPU stands in front of instruction n. */
  lemma StandsAt(pcs: seq<nat>, info: PcInfo, stride: nat -> nat, n: nat) returns (d: Cpu)
    requires LinearHere(pcs, info, stride, n)
    ensures var g := Compile(pcs, info, n);
      && g.Gen? && RunsTo(Enter(pcs[0]), g.stmts, g.runBytes, stride, d)
    ensures d.Cpu? && d.pc == pcs[n] && |d.trace| == n && stride(d.pc) > 0
  {
    var g := Compile(pcs, info, n);
    d := RunBytes(ExecAll(Enter(pcs[0]), g.stmts, stride), g.runBytes, stride);
  }

  /** The statements and an exact run of so many bytes behind them lead to d. */
  ghost predicate RunsTo(start: Cpu, stmts: seq<Stmt>, bytes: nat, stride: nat -> nat, d: Cpu) {
    var c := ExecAll(start, stmts, stride);
    c.Cpu? && ExactRun(c.pc, bytes, stride) && d == RunBytes(c, bytes, stride)
  }

  /** A longer run goes on from there. */
  lemma RunResumes(start: Cpu, stmts: seq<Stmt>, done: nat, d: Cpu, script: seq<Stmt>, bytes: nat, stride: nat -> nat)
    requires RunsTo(start, stmts, done, stride, d) && done < bytes && d.Cpu? && stride(d.pc) > 0
    requires |stmts| < |script| && script[..|stmts|] == stmts && script[|stmts|] == Run(bytes)
    ensures ExecAll(start, script[..|stmts| + 1], stride) ==
      RunBytes(Advanced(d, stride), bytes - done - stride(d.pc), stride)
  {
    assert script[..|stmts| + 1] == stmts + [Run(bytes)];
    ExecSnoc(start, stmts, Run(bytes), stride);
    RunGoesPast(ExecAll(start, stmts, stride), done, bytes, stride);
  }

  lemma RunGoesPast(c: Cpu, done: nat, bytes: nat, stride: nat -> nat)
    requires c.Cpu? && ExactRun(c.pc, done, stride) && done < bytes
    requires RunBytes(c, done, stride).Cpu? ==> stride(RunBytes(c, done, stride).pc) > 0
    ensures var d := RunBytes(c, done, stride);
      d.Cpu? && RunBytes(c, bytes, stride) == RunBytes(Advanced(d, stride), bytes - done - stride(d.pc), stride)
  {
    RunSplits(c, done, bytes - done, stride);
  }

  /** The part of a script that ran is no longer than the whole. */
  lemma PartOfTrace(c: Cpu, script: seq<Stmt>, k: nat, stride: nat -> nat)
    requires k <= |script| && (forall i :: 0 <= i < |script| ==> Retiring(script[i])) && ExecAll(c, script, stride).Cpu?
    ensures var d := ExecAll(c, script[..k], stride); d.Cpu? && d.trace <= ExecAll(c, script, stride).trace
  {
    if k < |script| {
      ScriptVisits(c, script, k, stride);
    } else {
      assert script[..k] == script;
    }
  }

  lemma RetiresNext(d: Cpu, more: int, whole: seq<nat>, stride: nat -> nat)
    requires d.Cpu? && more > 0 && RunBytes(d, more, stride).Cpu? && RunBytes(d, more, stride).trace <= whole
    ensures |d.trace| < |whole| && whole[|d.trace|] == d.pc
  {
    RunVisits(d, more, stride);
    assert (d.trace + [d.pc])[|d.trace|] == d.pc;
  }

  lemma LinearForced(pcs: seq<nat>, info: PcInfo, stride: nat -> nat, n: nat)
    requires LinearHere(pcs, info, stride, n)
    ensures SequentialAt(pcs, info, stride, n)
  {
    LinearHasBytes(pcs, info, stride, n);
    var d, more := BehindInstruction(pcs, info, stride, n);
    NextInStride(pcs, info, stride, n, d, more, pcs[..Replayed(pcs, info)]);
  }

  /** The CPU that has retired sequential instruction n, and the bytes its run still has. */
  lemma BehindInstruction(pcs: seq<nat>, info: PcInfo, stride: nat -> nat, n: nat) returns (d: Cpu, more: int)
    requires LinearHere(pcs, info, stride, n) && info[pcs[n]].size > 0
    ensures d.Cpu? && |d.trace| == n + 1 && d.pc == pcs[n] + stride(pcs[n])
    ensures n + 1 == Replayed(pcs, info) ==> more == info[pcs[n]].size - stride(pcs[n])
    ensures RunBytes(d, more, stride).Cpu? && RunBytes(d, more, stride).trace <= pcs[..Replayed(pcs, info)]
    ensures more <= 0 && n + 1 < Replayed(pcs, info) ==> d.pc == pcs[n + 1]
  {
    var script, bytes := RunInScript(pcs, info, stride, n);
    var g, start := Compile(pcs, info, n), Enter(pcs[0]);
    var d0 := StandsAt(pcs, info, stride, n);
    d, more := Advanced(d0, stride), bytes - g.runBytes - stride(d0.pc);
    ThroughRun(start, script, g.stmts, g.runBytes, d0, bytes, stride);
  }

  /** What the whole script retires behind the first instruction of the rest of a run. */
  lemma ThroughRun(start: Cpu, script: seq<Stmt>, stmts: seq<Stmt>, done: nat, d: Cpu, bytes: nat, stride: nat -> nat)
    requires RunsTo(start, stmts, done, stride, d) && done < bytes && d.Cpu? && stride(d.pc) > 0
    requires |stmts| < |script| && script[..|stmts|] == stmts && script[|stmts|] == Run(bytes)
    requires (forall i :: 0 <= i < |script| ==> Retiring(script[i])) && ExecAll(start, script, stride).Cpu?
    ensures var next, more := Advanced(d, stride), bytes - done - stride(d.pc);
      var whole := ExecAll(start, script, stride).trace;
      && RunBytes(next, more, stride).Cpu? && RunBytes(next, more, stride).trace <= whole
      && (more <= 0 ==> next.trace == whole || next.trace + [next.pc] <= whole)
  {
    var k := |stmts| + 1;
    RunResumes(start, stmts, done, d, script, bytes, stride);
    PartOfTrace(start, script, k, stride);
    if k < |script| {
      ScriptVisits(start, script, k, stride);
    } else {
      assert script[..k] == script;
    }
  }

  /** The oracle goes where the CPU goes that has retired sequential instruction n. */
  lemma NextInStride(pcs: seq<nat>, info: PcInfo, stride: nat -> nat, n: nat, d: Cpu, more: int, whole: seq<nat>)
    requires n < Replayed(pcs, info) && pcs[n] in info && info[pcs[n]].kind == L && info[pcs[n]].size > 0
    requires d.Cpu? && |d.trace| == n + 1 && d.pc == pcs[n] + stride(pcs[n])
    requires n + 1 == Replayed(pcs, info) ==> more == info[pcs[n]].size - stride(pcs[n])
    requires RunBytes(d, more, stride).Cpu? && RunBytes(d, more, stride).trace <= whole
    requires whole == pcs[..Replayed(pcs, info)]
    requires more <= 0 && n + 1 < Replayed(pcs, info) ==> d.pc == pcs[n + 1]
    ensures SequentialAt(pcs, info, stride, n)
  {
    if more > 0 { RetiresNext(d, more, whole, stride); }
  }

  lemma {:induction false} ForcedUpTo(pcs: seq<nat>, info: PcInfo, stride: nat -> nat, n: nat)
    requires pcs != [] && Advancing(pcs, stride) && n <= Replayed(pcs, info)
    requires Outcome(Compile(pcs, info, |pcs|)).Script? && Exact(pcs, info, stride)
    ensures FitsUpTo(pcs, info, stride, n)
  {
    if n > 0 {
      ForcedUpTo(pcs, info, stride, n - 1);
      FollowsOracle(pcs, info, stride, n - 1);
      ScriptUpTo(pcs, info, n);
      if info[pcs[n - 1]].kind == L {
        LinearForced(pcs, info, stride, n - 1);
      } else {
        ControlForced(pcs, info, stride, n - 1);
      }
    }
  }

  /**
   * The replay theorem, for a CPU of any stride: an accepted oracle is replayed exactly if and only
   * if it is consistent and sequential in the stride of that CPU.
   */
  lemma ReplayExact(pcs: seq<nat>, info: PcInfo, stride: nat -> nat)
    requires pcs != [] && Outcome(Compile(pcs, info, |pcs|)).Script? && Advancing(pcs, stride)
    ensures Exact(pcs, info, stride) <==> Consistent(pcs, info, stride) && Sequential(pcs, info, stride)
  {
    if Consistent(pcs, info, stride) && Sequential(pcs, info, stride) {
      ReplayFaithful(pcs, info, stride);
    } else if Exact(pcs, info, stride) {
      ForcedUpTo(pcs, info, stride, Replayed(pcs, info));
      FitsUpToIsForAll(pcs, info, stride, Replayed(pcs, info));
    }
  }

  // ---- The mapping table, and the CPU model in the test bench -------------------------------

  /** The mapping table retires each instruction with its pcinfo size; no size is 0. */
  ghost predicate StrideFits(pcs: seq<nat>, info: PcInfo, stride: nat -> nat) {
    forall i :: 0 <= i < |pcs| && pcs[i] in info ==> stride(pcs[i]) == info[pcs[i]].size > 0
  }

  /** By the mapping table the replay is exact exactly on a consistent oracle. */
  lemma MappingExact(pcs: seq<nat>, info: PcInfo, stride: nat -> nat)
    requires pcs != [] && Outcome(Compile(pcs, info, |pcs|)).Script?
    requires Advancing(pcs, stride) && StrideFits(pcs, info, stride)
    ensures Exact(pcs, info, stride) <==> Consistent(pcs, info, stride)
  {
    forall i | 0 <= i < Replayed(pcs, info)
      ensures SequentialAt(pcs, info, stride, i)
    {
      ScriptUpTo(pcs, info, i);
      ScriptUpTo(pcs, info, i + 1);
      SequentialInStep(pcs, info, stride, i);
    }
    ReplayExact(pcs, info, stride);
  }

  lemma SequentialInStep(pcs: seq<nat>, info: PcInfo, stride: nat -> nat, i: nat)
    requires i < |pcs| && Compile(pcs, info, i).Gen? && Compile(pcs, info, i + 1).Gen? && StrideFits(pcs, info, stride)
    ensures SequentialAt(pcs, info, stride, i)
  {
  }

  /** tests/lib/cpu_model.sv retires 4-byte instructions whatever the pcinfo says. */
  const CPU_MODEL_STRIDE: nat -> nat := pc => 4

  /** When the test bench replays an accepted oracle exactly, compressed instructions or not. */
  lemma CpuModelExact(pcs: seq<nat>, info: PcInfo)
    requires pcs != [] && Outcome(Compile(pcs, info, |pcs|)).Script?
    ensures Exact(pcs, info, CPU_MODEL_STRIDE) <==>
      Consistent(pcs, info, CPU_MODEL_STRIDE) && Sequential(pcs, info, CPU_MODEL_STRIDE)
  {
    ReplayExact(pcs, info, CPU_MODEL_STRIDE);
  }

  /** A compressed instruction in front of a run: 0, 2, 4. */
  const COMPRESSED: PcInfo := map[0 := Info(L, 2, None), 2 := Info(L, 2, None), 4 := Info(L, 4, None)]

  /** With compressed instructions the merged run loses some of them: 0, 2, 4 is accepted and not replayed. */
  lemma CompressedRunLosesInstructions()
    ensures Outcome(Compile([0, 2, 4], COMPRESSED, 3)) == Script([Run(8)])
    ensures !Sequential([0, 2, 4], COMPRESSED, CPU_MODEL_STRIDE) && !Exact([0, 2, 4], COMPRESSED, CPU_MODEL_STRIDE)
  {
    var pcs := [0, 2, 4];
    assert Compile(pcs, COMPRESSED, 1) == Gen([], 2);
    assert Compile(pcs, COMPRESSED, 2) == Gen([], 4);
    assert Compile(pcs, COMPRESSED, 3) == Gen([], 8);
    assert !SequentialAt(pcs, COMPRESSED, CPU_MODEL_STRIDE, 0);
    CpuModelExact(pcs, COMPRESSED);
  }

  // ---- Chunks --------------------------------------------------------------------------------

  function Concat(chunks: seq<seq<Stmt>>, n: nat): seq<Stmt>
    requires n <= |chunks|
  {
    if n == 0 then [] else Concat(chunks, n - 1) + chunks[n - 1]
  }

  lemma {:induction false} ConcatLocal(chunks: seq<seq<Stmt>>, c: seq<Stmt>, n: nat)
    requires n <= |chunks|
    ensures Concat(chunks + [c], n) == Concat(chunks, n)
  {
    if n > 0 { ConcatLocal(chunks, c, n - 1); }
  }

  /** Called one after the other, the chunk tasks are the whole script; all but the last are full. */
  method Chunks(stmts: seq<Stmt>, chunk: nat) returns (chunks: seq<seq<Stmt>>)
    requires chunk > 0
    ensures Concat(chunks, |chunks|) == stmts
    ensures forall k :: 0 <= k < |chunks| ==> 0 < |chunks[k]| <= chunk
    ensures forall k :: 0 <= k < |chunks| - 1 ==> |chunks[k]| == chunk
  {
    chunks := [];
    var i := 0;
    while i < |stmts|
      invariant Concat(chunks, |chunks|) == stmts[..if i < |stmts| then i else |stmts|]
      invariant forall k :: 0 <= k < |chunks| ==> 0 < |chunks[k]| <= chunk
      invariant forall k :: 0 <= k < |chunks| ==> |chunks[k]| == chunk || (k == |chunks| - 1 && i >= |stmts|)
    {
      var j := if i + chunk < |stmts| then i + chunk else |stmts|;
      ConcatLocal(chunks, stmts[i..j], |chunks|);
      chunks := chunks + [stmts[i..j]];
      i := i + chunk;
    }
    assert stmts[..|stmts|] == stmts;
  }
}
