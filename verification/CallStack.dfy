/** Shadow call stack and instruction counts of a decoded PC window (examples/dashboard/insight.py). */
module CallStack {
  import opened Commons

  const UNWIND_SEARCH: nat := 64
  const STACK_LIMIT: nat := 512

  /** Addresses of call and of return instructions. */
  datatype Sites = Sites(calls: set<nat>, rets: set<nat>)

  // ---- Instruction counts ----------------------------------------------------------

  const PAGE: nat := 0x1000

  /** Address-ordered symbols; `ends[i]` is the start of the next one, and one page behind the last. */
  datatype SymbolTable = SymbolTable(addrs: seq<nat>, ends: seq<nat>) {
    predicate Valid() {
      && |addrs| == |ends| && (forall i, j :: 0 <= i < j < |addrs| ==> addrs[i] < addrs[j])
      && (forall i :: 0 <= i < |addrs| ==> ends[i] == if i + 1 < |addrs| then addrs[i + 1] else addrs[i] + PAGE)
    }
  }

  /** How many of the first n symbols start at or below pc. */
  function Rank(t: SymbolTable, pc: nat, n: nat): (r: nat)
    requires n <= |t.addrs|
    ensures r <= n
  {
    if n == 0 then 0 else Rank(t, pc, n - 1) + (if t.addrs[n - 1] <= pc then 1 else 0)
  }

  /** The start address of the function that pc lies in. */
  function Lookup(t: SymbolTable, pc: nat): Option<nat>
    requires t.Valid()
  {
    var i := Rank(t, pc, |t.addrs|);
    if i == 0 || pc >= t.ends[i - 1] then None else Some(t.addrs[i - 1])
  }

  /** Instructions are counted per function start, or per page outside any function. */
  function Key(t: SymbolTable, pc: nat): nat
    requires t.Valid()
  {
    var s := Lookup(t, pc);
    if s.Some? then s.value else pc - pc % PAGE
  }

  type Counts = map<nat, nat>

  function Add(m: Counts, k: nat, v: nat): Counts {
    m[k := (if k in m then m[k] else 0) + v]
  }

  function PerFunc(t: SymbolTable, pcs: seq<nat>, n: nat): Counts
    requires t.Valid() && n <= |pcs|
  {
    if n == 0 then map[] else Add(PerFunc(t, pcs, n - 1), Key(t, pcs[n - 1]), 1)
  }

  ghost function Sum(m: Counts): nat {
    if m == map[] then 0 else
      var k :| k in m;
      m[k] + Sum(m - {k})
  }

  lemma {:induction false} SumSplit(m: Counts, k: nat)
    requires k in m
    ensures Sum(m) == m[k] + Sum(m - {k})
    decreases |m|
  {
    assert m != map[];
    var j :| j in m && Sum(m) == m[j] + Sum(m - {j});
    if j != k {
      SumSplit(m - {j}, k);
      SumSplit(m - {k}, j);
      assert m - {j} - {k} == m - {k} - {j};
    }
  }

  lemma SumAdd(m: Counts, k: nat, v: nat)
    ensures Sum(Add(m, k, v)) == Sum(m) + v
  {
    var q := Add(m, k, v);
    SumSplit(q, k);
    assert q - {k} == m - {k};
    if k in m { SumSplit(m, k); } else { assert m - {k} == m; }
  }

  /** Every instruction is counted once. */
  lemma {:induction false} CountsSumUp(t: SymbolTable, pcs: seq<nat>, n: nat)
    requires t.Valid() && n <= |pcs|
    ensures Sum(PerFunc(t, pcs, n)) == n
  {
    if n > 0 {
      CountsSumUp(t, pcs, n - 1);
      SumAdd(PerFunc(t, pcs, n - 1), Key(t, pcs[n - 1]), 1);
    }
  }

  lemma {:induction false} RankExact(t: SymbolTable, pc: nat, n: nat, i: nat)
    requires t.Valid() && i < n <= |t.addrs|
    ensures i < Rank(t, pc, n) <==> t.addrs[i] <= pc
  {
    if i < n - 1 {
      RankExact(t, pc, n - 1, i);
    } else {
      RankFull(t, pc, n - 1);
    }
  }

  lemma {:induction false} RankFull(t: SymbolTable, pc: nat, n: nat)
    requires t.Valid() && n < |t.addrs|
    ensures t.addrs[n] <= pc ==> Rank(t, pc, n) == n
  {
    if n > 0 { RankFull(t, pc, n - 1); }
  }

  /** A PC lies in a function exactly from its start up to its end, and lookup says so. */
  lemma LookupExact(t: SymbolTable, pc: nat, i: nat)
    requires t.Valid() && i < |t.addrs|
    ensures Lookup(t, pc) == Some(t.addrs[i]) <==> t.addrs[i] <= pc < t.ends[i]
    ensures Lookup(t, pc) == None ==> pc < t.addrs[0] || t.addrs[|t.addrs| - 1] + PAGE <= pc
  {
    var r := Rank(t, pc, |t.addrs|);
    RankExact(t, pc, |t.addrs|, i);
    if i + 1 < |t.addrs| { RankExact(t, pc, |t.addrs|, i + 1); }
    if r > 0 { RankExact(t, pc, |t.addrs|, r - 1); }
    if r < |t.addrs| { RankExact(t, pc, |t.addrs|, r); }
    if r == 0 { RankExact(t, pc, |t.addrs|, 0); }
  }

  /** The page of a PC outside every function is no function start, so the two kinds of keys never mix. */
  lemma KeyExact(t: SymbolTable, pc: nat, i: nat)
    requires t.Valid() && i < |t.addrs|
    ensures Key(t, pc) == t.addrs[i] <==> t.addrs[i] <= pc < t.ends[i]
  {
    LookupExact(t, pc, i);
    assert t.addrs[0] <= t.addrs[i] <= t.addrs[|t.addrs| - 1];
  }

  /** How many of the first n PCs lie in [lo, hi). */
  function Between(pcs: seq<nat>, lo: nat, hi: nat, n: nat): nat
    requires n <= |pcs|
  {
    if n == 0 then 0 else Between(pcs, lo, hi, n - 1) + if lo <= pcs[n - 1] < hi then 1 else 0
  }

  /** The count of a function is the number of PCs from its start up to its end. */
  lemma {:induction false} FunctionCount(t: SymbolTable, pcs: seq<nat>, n: nat, i: nat)
    requires t.Valid() && n <= |pcs| && i < |t.addrs|
    ensures Count(PerFunc(t, pcs, n), t.addrs[i]) == Between(pcs, t.addrs[i], t.ends[i], n)
  {
    if n > 0 {
      FunctionCount(t, pcs, n - 1, i);
      KeyExact(t, pcs[n - 1], i);
    }
  }

  // ---- The shadow stack --------------------------------------------------------------

  datatype Flow = Flow(stack: seq<nat>, lost: bool, transfers: nat, calls: nat, returned: nat, unwinds: nat)

  /** Depth below the top at which the return target is found, 0 if it is not in reach. */
  function FindFrame(stack: seq<nat>, pc: nat, d: nat): nat
    requires 1 <= d <= Min(|stack|, UNWIND_SEARCH) + 1
    decreases Min(|stack|, UNWIND_SEARCH) + 1 - d
  {
    if d > Min(|stack|, UNWIND_SEARCH) then 0
    else if stack[|stack| - d] == pc then d
    else FindFrame(stack, pc, d + 1)
  }

  function Return(f: Flow, pc: nat): Flow {
    var hit := FindFrame(f.stack, pc, 1);
    var stack :=
      if 0 < hit <= |f.stack| then f.stack[..|f.stack| - hit]
      else if f.stack != [] then f.stack[..|f.stack| - 1]
      else f.stack;
    f.(stack := stack, returned := f.returned + 1,
       unwinds := f.unwinds + if hit > 1 || (hit == 0 && f.stack != []) then 1 else 0)
  }

  /** One step of the PC sequence from prev to pc. */
  function Transfer(f: Flow, sites: Sites, depthOk: bool, prev: nat, pc: nat): Flow {
    if pc == prev + 4 then f
    else
      var g := f.(transfers := f.transfers + 1);
      if !depthOk || f.lost then g
      else if prev in sites.calls then
        var stack := f.stack + [prev + 4];
        g.(stack := stack, calls := f.calls + 1, lost := |stack| > STACK_LIMIT)
      else if prev in sites.rets then Return(g, pc)
      else g
  }

  function FlowAfter(pcs: seq<nat>, sites: Sites, depthOk: bool, n: nat): Flow
    requires n <= |pcs|
  {
    if n <= 1 then Flow([], false, 0, 0, 0, 0)
    else Transfer(FlowAfter(pcs, sites, depthOk, n - 1), sites, depthOk, pcs[n - 2], pcs[n - 1])
  }

  class PcStreamAnalysis {
    var count: nat
    var perFunc: Counts
    var flow: Flow
    var depth: Option<nat>

    constructor (pcs: seq<nat>, t: SymbolTable, fixedWidth: bool, sites: Sites)
      requires t.Valid()
      ensures count == |pcs| && perFunc == PerFunc(t, pcs, |pcs|)
      ensures var depthOk := fixedWidth && (sites.calls != {} || sites.rets != {});
        && flow == FlowAfter(pcs, sites, depthOk, |pcs|)
        && depth == if pcs != [] && depthOk && !flow.lost then Some(|flow.stack|) else None
    {
      count := |pcs|;
      var depthOk := fixedWidth && (sites.calls != {} || sites.rets != {});
      var counts: Counts := map[];
      var f := Flow([], false, 0, 0, 0, 0);
      var prev: Option<nat> := None;
      for i := 0 to |pcs|
        invariant counts == PerFunc(t, pcs, i) && f == FlowAfter(pcs, sites, depthOk, i)
        invariant prev == if i == 0 then None else Some(pcs[i - 1])
      {
        var pc := pcs[i];
        counts := Add(counts, Key(t, pc), 1);
        if prev.Some? {
          f := Transfer(f, sites, depthOk, prev.value, pc);
        }
        prev := Some(pc);
      }
      perFunc := counts;
      flow := f;
      depth := if |pcs| > 0 && depthOk && !f.lost then Some(|f.stack|) else None;
    }
  }

  lemma {:induction false} FindFrameHit(stack: seq<nat>, pc: nat, d: nat)
    requires 1 <= d <= Min(|stack|, UNWIND_SEARCH) + 1
    ensures var h := FindFrame(stack, pc, d);
      h == 0 || (d <= h <= |stack| && stack[|stack| - h] == pc)
    decreases Min(|stack|, UNWIND_SEARCH) + 1 - d
  {
    if d <= Min(|stack|, UNWIND_SEARCH) && stack[|stack| - d] != pc { FindFrameHit(stack, pc, d + 1); }
  }

  /** The d-th frame from the top returns to pc. */
  predicate FrameAt(stack: seq<nat>, d: nat, pc: nat) {
    1 <= d <= |stack| && stack[|stack| - d] == pc
  }

  lemma {:induction false} FindFrameNearest(stack: seq<nat>, pc: nat, d: nat, e: nat)
    requires 1 <= d <= e <= Min(|stack|, UNWIND_SEARCH) + 1
    requires forall k :: d <= k < e ==> !FrameAt(stack, k, pc)
    requires e <= Min(|stack|, UNWIND_SEARCH) ==> FrameAt(stack, e, pc)
    ensures FindFrame(stack, pc, d) == if e <= Min(|stack|, UNWIND_SEARCH) then e else 0
    decreases e - d
  {
    if d < e {
      assert !FrameAt(stack, d, pc);
      FindFrameNearest(stack, pc, d + 1, e);
    }
  }

  /**
   * A return cuts the stack just below the nearest frame with its target, if that is among the
   * topmost UNWIND_SEARCH, and pops one frame otherwise; it is an unwind when it misses the top.
   */
  lemma ReturnCuts(f: Flow, pc: nat, d: nat)
    requires 1 <= d <= Min(|f.stack|, UNWIND_SEARCH) + 1
    requires forall k :: 1 <= k < d ==> !FrameAt(f.stack, k, pc)
    requires d <= Min(|f.stack|, UNWIND_SEARCH) ==> FrameAt(f.stack, d, pc)
    ensures Return(f, pc).stack ==
      if d <= Min(|f.stack|, UNWIND_SEARCH) then f.stack[..|f.stack| - d]
      else f.stack[..if f.stack == [] then 0 else |f.stack| - 1]
    ensures Return(f, pc).unwinds == f.unwinds + if f.stack != [] && f.stack[|f.stack| - 1] != pc then 1 else 0
  {
    assert d > 1 ==> !FrameAt(f.stack, 1, pc);
    FindFrameNearest(f.stack, pc, 1, d);
  }

  /** On every trace the stack stays bounded; it exceeds the limit exactly when the pairing is lost. */
  lemma {:induction false} StackBounded(pcs: seq<nat>, sites: Sites, depthOk: bool, n: nat)
    requires n <= |pcs|
    ensures var f := FlowAfter(pcs, sites, depthOk, n);
      |f.stack| <= STACK_LIMIT + 1 && (f.lost <==> |f.stack| > STACK_LIMIT)
  {
    if n > 1 {
      StackBounded(pcs, sites, depthOk, n - 1);
      var f := FlowAfter(pcs, sites, depthOk, n - 1);
      FindFrameHit(f.stack, pcs[n - 1], 1);
    }
  }

  /** How many of the first n PCs were jumped to from an address among `sources`. */
  function JumpsFrom(pcs: seq<nat>, sources: nat -> bool, n: nat): nat
    requires n <= |pcs|
  {
    if n <= 1 then 0 else
      JumpsFrom(pcs, sources, n - 1) +
      if pcs[n - 1] != pcs[n - 2] + 4 && sources(pcs[n - 2]) then 1 else 0
  }

  /** Transfers are all jumps; calls and returns are the jumps from their sites, as long as the pairing holds. */
  lemma {:induction false} CountersExact(pcs: seq<nat>, sites: Sites, n: nat)
    requires n <= |pcs|
    ensures var f := FlowAfter(pcs, sites, true, n);
      && f.transfers == JumpsFrom(pcs, pc => true, n)
      && (!f.lost ==> f.calls == JumpsFrom(pcs, pc => pc in sites.calls, n))
      && (!f.lost ==> f.returned == JumpsFrom(pcs, pc => pc in sites.rets && pc !in sites.calls, n))
  {
    if n > 1 { CountersExact(pcs, sites, n - 1); }
  }

  // ---- The call stack of the program ----------------------------------------------------

  /** Return addresses really open before instruction n, counted from the window start. */
  function RealStack(pcs: seq<nat>, sites: Sites, n: nat): seq<nat>
    requires n <= |pcs|
  {
    if n <= 1 then [] else
      OpenAfter(RealStack(pcs, sites, n - 1), sites, pcs[n - 2])
  }

  function OpenAfter(s: seq<nat>, sites: Sites, prev: nat): seq<nat> {
    if prev in sites.calls then s + [prev + 4]
    else if prev in sites.rets && s != [] then s[..|s| - 1]
    else s
  }

  /** A return with an open call goes back to it; returns out of the window may go anywhere. */
  predicate ReturnsMatch(pcs: seq<nat>, sites: Sites, i: nat)
    requires 0 < i < |pcs|
  {
    pcs[i - 1] in sites.rets ==>
      var s := RealStack(pcs, sites, i); s == [] || pcs[i] == s[|s| - 1]
  }

  predicate WellNested(pcs: seq<nat>, sites: Sites, n: nat)
    requires n <= |pcs|
  {
    forall i :: 1 <= i < n ==> ReturnsMatch(pcs, sites, i)
  }

  /** No call goes to the instruction behind it. */
  predicate CallsLeave(pcs: seq<nat>, sites: Sites) {
    forall i :: 1 <= i < |pcs| && pcs[i - 1] in sites.calls ==> pcs[i] != pcs[i - 1] + 4
  }

  predicate DepthWithin(pcs: seq<nat>, sites: Sites, n: nat)
    requires n <= |pcs|
  {
    forall i :: 0 <= i <= n ==> |RealStack(pcs, sites, i)| <= STACK_LIMIT
  }

  lemma {:induction false} OpenCallsAreSites(pcs: seq<nat>, sites: Sites, n: nat, k: nat)
    requires n <= |pcs| && k < |RealStack(pcs, sites, n)|
    ensures exists c :: c in sites.calls && RealStack(pcs, sites, n)[k] == c + 4
  {
    if k < |RealStack(pcs, sites, n - 1)| { OpenCallsAreSites(pcs, sites, n - 1, k); }
  }

  lemma ReturnMatched(f: Flow, pc: nat)
    requires f.stack != [] ==> f.stack[|f.stack| - 1] == pc
    ensures Return(f, pc) ==
      f.(stack := if f.stack != [] then f.stack[..|f.stack| - 1] else [], returned := f.returned + 1)
  {
    if f.stack != [] { assert FindFrame(f.stack, pc, 1) == 1; }
  }

  /** On a well-nested trace the analysis keeps the program's own stack and unwinds nothing. */
  lemma {:induction false} FollowsProgram(pcs: seq<nat>, sites: Sites, n: nat)
    requires n <= |pcs| && sites.calls !! sites.rets && CallsLeave(pcs, sites)
    requires WellNested(pcs, sites, n) && DepthWithin(pcs, sites, n)
    ensures var f := FlowAfter(pcs, sites, true, n);
      f.stack == RealStack(pcs, sites, n) && f.unwinds == 0 && !f.lost
  {
    if n > 1 {
      FollowsProgram(pcs, sites, n - 1);
      var s := RealStack(pcs, sites, n - 1);
      assert ReturnsMatch(pcs, sites, n - 1);
      assert |RealStack(pcs, sites, n)| <= STACK_LIMIT;
      if pcs[n - 2] in sites.rets && s != [] { OpenCallsAreSites(pcs, sites, n - 1, |s| - 1); }
      FollowsStep(FlowAfter(pcs, sites, true, n - 1), sites, pcs[n - 2], pcs[n - 1]);
    }
  }

  lemma FollowsStep(f: Flow, sites: Sites, prev: nat, pc: nat)
    requires !f.lost && sites.calls !! sites.rets && (prev in sites.calls ==> pc != prev + 4)
    requires |OpenAfter(f.stack, sites, prev)| <= STACK_LIMIT
    requires prev in sites.rets && f.stack != [] ==>
      var top := f.stack[|f.stack| - 1]; pc == top && exists c :: c in sites.calls && top == c + 4
    ensures var g := Transfer(f, sites, true, prev, pc);
      g.stack == OpenAfter(f.stack, sites, prev) && g.unwinds == f.unwinds && !g.lost
  {
    if prev in sites.rets { ReturnMatched(f.(transfers := f.transfers + 1), pc); }
  }

  /** The reported depth is the true nesting depth. */
  lemma DepthIsTrue(pcs: seq<nat>, sites: Sites)
    requires sites.calls !! sites.rets && CallsLeave(pcs, sites)
    requires WellNested(pcs, sites, |pcs|) && DepthWithin(pcs, sites, |pcs|)
    ensures var f := FlowAfter(pcs, sites, true, |pcs|);
      |f.stack| == |RealStack(pcs, sites, |pcs|)| && f.unwinds == 0 && !f.lost
  {
    FollowsProgram(pcs, sites, |pcs|);
  }

  // ---- Zero unwinds means well nested ------------------------------------------------------

  predicate ReturnsLeave(pcs: seq<nat>, sites: Sites) {
    forall i :: 1 <= i < |pcs| && pcs[i - 1] in sites.rets ==> pcs[i] != pcs[i - 1] + 4
  }

  lemma UnwindsGrow(f: Flow, sites: Sites, depthOk: bool, prev: nat, pc: nat)
    ensures Transfer(f, sites, depthOk, prev, pc).unwinds >= f.unwinds
  {
  }

  /** A return that misses the top of a non-empty stack is counted as an unwind. */
  lemma MissIsUnwind(f: Flow, pc: nat)
    requires f.stack != [] && f.stack[|f.stack| - 1] != pc
    ensures Return(f, pc).unwinds == f.unwinds + 1
  {
    if |f.stack| > 0 { FindFrameHit(f.stack, pc, 2); }
  }

  lemma {:induction false} NoUnwindIsNested(pcs: seq<nat>, sites: Sites, n: nat)
    requires n <= |pcs| && sites.calls !! sites.rets && CallsLeave(pcs, sites) && ReturnsLeave(pcs, sites)
    requires DepthWithin(pcs, sites, n) && FlowAfter(pcs, sites, true, n).unwinds == 0
    ensures WellNested(pcs, sites, n)
  {
    if n > 1 {
      var f := FlowAfter(pcs, sites, true, n - 1);
      UnwindsGrow(f, sites, true, pcs[n - 2], pcs[n - 1]);
      NoUnwindIsNested(pcs, sites, n - 1);
      FollowsProgram(pcs, sites, n - 1);
      assert pcs[n - 2] in sites.rets ==> pcs[n - 1] != pcs[n - 2] + 4;
      NoUnwindStep(f, sites, pcs[n - 2], pcs[n - 1]);
      NestedNext(pcs, sites, n);
    }
  }

  /** A return step without an unwind finds its target on top. */
  lemma NoUnwindStep(f: Flow, sites: Sites, prev: nat, pc: nat)
    requires !f.lost && Transfer(f, sites, true, prev, pc).unwinds == f.unwinds && sites.calls !! sites.rets
    requires prev in sites.rets ==> pc != prev + 4
    ensures prev in sites.rets && f.stack != [] ==> f.stack[|f.stack| - 1] == pc
  {
    if prev in sites.rets && f.stack != [] && f.stack[|f.stack| - 1] != pc {
      MissIsUnwind(f.(transfers := f.transfers + 1), pc);
    }
  }

  lemma NestedNext(pcs: seq<nat>, sites: Sites, n: nat)
    requires 1 < n <= |pcs| && WellNested(pcs, sites, n - 1) && ReturnsMatch(pcs, sites, n - 1)
    ensures WellNested(pcs, sites, n)
  {
  }

  /** Within the limits of what a PC trace shows, zero unwinds and well nested are the same thing. */
  lemma UnwindsExact(pcs: seq<nat>, sites: Sites)
    requires sites.calls !! sites.rets && CallsLeave(pcs, sites) && ReturnsLeave(pcs, sites)
    requires DepthWithin(pcs, sites, |pcs|)
    ensures FlowAfter(pcs, sites, true, |pcs|).unwinds == 0 <==> WellNested(pcs, sites, |pcs|)
  {
    if WellNested(pcs, sites, |pcs|) {
      FollowsProgram(pcs, sites, |pcs|);
    } else if FlowAfter(pcs, sites, true, |pcs|).unwinds == 0 {
      NoUnwindIsNested(pcs, sites, |pcs|);
    }
  }

  // ---- Accumulation over windows --------------------------------------------------------------

  class InsightState {
    var funcCounts: Counts
    var totalInstr: nat
    var windows: nat
    var totalBytes: nat
    var decodeSeconds: real
    var decodeBytes: nat
    var decodeInstr: nat

    ghost predicate Valid()
      reads this
    {
      Sum(funcCounts) == totalInstr
    }

    constructor ()
      ensures Valid() && funcCounts == map[] && totalInstr == 0 && windows == 0
      ensures totalBytes == 0 && decodeSeconds == 0.0 && decodeBytes == 0 && decodeInstr == 0
    {
      funcCounts, totalInstr, windows := map[], 0, 0;
      totalBytes, decodeSeconds, decodeBytes, decodeInstr := 0, 0.0, 0, 0;
    }

    /** Merge the counts of one analysed window. */
    method AddWindow(pcs: seq<nat>, rawBytes: nat, seconds: real, t: SymbolTable, fixedWidth: bool, sites: Sites)
      requires Valid() && t.Valid()
      modifies this
      ensures Valid()
      ensures totalInstr == old(totalInstr) + |pcs| && windows == old(windows) + 1
      ensures totalBytes == old(totalBytes) + rawBytes && decodeSeconds == old(decodeSeconds) + seconds
      ensures decodeBytes == old(decodeBytes) + rawBytes && decodeInstr == old(decodeInstr) + |pcs|
      ensures forall k :: k in funcCounts <==> k in old(funcCounts) || k in PerFunc(t, pcs, |pcs|)
      ensures forall k :: k in funcCounts ==>
        funcCounts[k] == Count(old(funcCounts), k) + Count(PerFunc(t, pcs, |pcs|), k)
    {
      var a := new PcStreamAnalysis(pcs, t, fixedWidth, sites);
      CountsSumUp(t, pcs, |pcs|);
      var counts := Merge(funcCounts, a.perFunc);
      funcCounts := counts;
      windows := windows + 1;
      totalInstr := totalInstr + a.count;
      totalBytes, decodeSeconds := totalBytes + rawBytes, decodeSeconds + seconds;
      decodeBytes, decodeInstr := decodeBytes + rawBytes, decodeInstr + a.count;
    }

    static method Merge(base: Counts, more: Counts) returns (counts: Counts)
      ensures Sum(counts) == Sum(base) + Sum(more)
      ensures forall k :: k in counts <==> k in base || k in more
      ensures forall k :: k in counts ==> counts[k] == Count(base, k) + Count(more, k)
    {
      counts := base;
      var todo := more.Keys;
      ghost var done: Counts := map[];
      while todo != {}
        invariant done.Keys + todo == more.Keys && done.Keys !! todo
        invariant forall k :: k in done ==> done[k] == more[k]
        invariant Sum(counts) == Sum(base) + Sum(done)
        invariant forall k :: k in counts <==> k in base || k in done
        invariant forall k :: k in counts ==> counts[k] == Count(base, k) + Count(done, k)
        decreases todo
      {
        var k :| k in todo;
        SumAdd(counts, k, more[k]);
        SumAdd(done, k, more[k]);
        counts := Add(counts, k, more[k]);
        done := Add(done, k, more[k]);
        todo := todo - {k};
      }
      assert done == more;
    }
  }

  function Count(m: Counts, k: nat): nat { if k in m then m[k] else 0 }
}
