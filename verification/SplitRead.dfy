/** The HI-LO-HI read of a 64-bit register through two 32-bit halves (read_core_pc in server.py). */
module SplitRead {

  const HALF: nat := 0x1_0000_0000

  function Hi(v: nat): nat { v / HALF % HALF }
  function Lo(v: nat): nat { v % HALF }

  /** The register over the bus reads of one call: `reg(i)` is its value at read i. */
  type Samples = nat -> nat

  /** Attempt k compares the high word read before it with the one read behind it. */
  predicate Agrees(reg: Samples, k: nat) { Hi(reg(2 * k)) == Hi(reg(2 * k + 2)) }

  datatype Pc = Pc(value: nat, torn: bool, retries: nat, stable: bool)

  /** First agreeing attempt wins; its low word is combined with the high word around it. */
  ghost predicate Outcome(reg: Samples, r: Pc) {
    && r.retries <= 4 && (r.torn <==> r.retries > 0) && (r.stable <==> r.retries < 4)
    && (forall k :: 0 <= k < r.retries ==> !Agrees(reg, k))
    && (r.stable ==> Agrees(reg, r.retries))
    && r.value == if r.stable then Hi(reg(2 * r.retries)) * HALF + Lo(reg(2 * r.retries + 1))
                  else Hi(reg(8)) * HALF + Lo(reg(7))
  }

  method ReadCorePc(reg: Samples) returns (r: Pc)
    ensures Outcome(reg, r)
  {
    var hi := Hi(reg(0));
    var lo, retries, stable := 0, 0, false;
    for k := 0 to 4
      invariant retries == k && !stable && hi == Hi(reg(2 * k)) && (k > 0 ==> lo == Lo(reg(2 * k - 1)))
      invariant forall j :: 0 <= j < k ==> !Agrees(reg, j)
    {
      lo := Lo(reg(2 * k + 1));
      var hi2 := Hi(reg(2 * k + 2));
      if hi2 == hi {
        stable := true;
        assert Agrees(reg, k);
        break;
      }
      assert !Agrees(reg, k);
      hi, retries := hi2, retries + 1;
    }
    r := Pc(hi * HALF + lo, retries > 0, retries, stable);
  }

  lemma Recompose(v: nat)
    requires v < HALF * HALF
    ensures Hi(v) * HALF + Lo(v) == v && Hi(v) == v / HALF
  {
    assert v / HALF < HALF;
  }

  lemma HiMonotone(a: nat, b: nat)
    requires a <= b < HALF * HALF
    ensures Hi(a) <= Hi(b)
  {
    Recompose(a);
    Recompose(b);
    assert a / HALF <= b / HALF;
  }

  /** On a counter that only grows during the call, a stable value is the register at the low read. */
  lemma StableIsExact(reg: Samples, r: Pc)
    requires Outcome(reg, r) && r.stable
    requires forall i :: 0 <= i < 8 ==> reg(i) <= reg(i + 1)
    requires forall i :: 0 <= i <= 8 ==> reg(i) < HALF * HALF
    ensures r.value == reg(2 * r.retries + 1)
  {
    var t := 2 * r.retries;
    assert reg(t) <= reg(t + 1) <= reg(t + 1 + 1);
    HiMonotone(reg(t), reg(t + 1));
    HiMonotone(reg(t + 1), reg(t + 2));
    Recompose(reg(t + 1));
  }

  /** Without that a stable value is right exactly when the high word did not leave and come back. */
  lemma StableIsExactIff(reg: Samples, r: Pc)
    requires Outcome(reg, r) && r.stable && reg(2 * r.retries + 1) < HALF * HALF
    ensures r.value == reg(2 * r.retries + 1) <==> Hi(reg(2 * r.retries)) == Hi(reg(2 * r.retries + 1))
  {
    Recompose(reg(2 * r.retries + 1));
  }

  /** A program counter is no counter: jumping away and back inside one attempt gives a PC never executed. */
  lemma JumpAwayAndBack()
    ensures var reg := (i: nat) => if i == 1 then 5 * HALF + 7 else 3;
      var r := Pc(7, false, 0, true);
      Outcome(reg, r) && forall i: nat :: r.value != reg(i)
  {
    var reg: Samples := (i: nat) => if i == 1 then 5 * HALF + 7 else 3;
    assert Hi(3) == 0 && Lo(5 * HALF + 7) == 7;
    assert Agrees(reg, 0);
  }

  /** How often the high word changes over the first n reads. */
  function Changes(reg: Samples, n: nat): nat {
    if n == 0 then 0 else Changes(reg, n - 1) + (if Hi(reg(n - 1)) != Hi(reg(n)) then 1 else 0)
  }

  lemma {:induction false} RetryCostsChange(reg: Samples, k: nat)
    requires forall j :: 0 <= j < k ==> !Agrees(reg, j)
    ensures Changes(reg, 2 * k) >= k
  {
    if k > 0 {
      RetryCostsChange(reg, k - 1);
      assert !Agrees(reg, k - 1);
      ChangesInTwo(reg, 2 * k - 2);
    }
  }

  lemma ChangesInTwo(reg: Samples, t: nat)
    ensures Changes(reg, t + 2) >= Changes(reg, t) + (if Hi(reg(t)) != Hi(reg(t + 2)) then 1 else 0)
  {
    assert Changes(reg, t + 1) == Changes(reg, t) + (if Hi(reg(t)) != Hi(reg(t + 1)) then 1 else 0);
  }

  /** At most three changes of the high word during the call leave a stable attempt. */
  lemma FewChangesAreStable(reg: Samples, r: Pc)
    requires Outcome(reg, r) && Changes(reg, 8) <= 3
    ensures r.stable
  {
    if !r.stable { RetryCostsChange(reg, 4); }
  }

  /** Every retry stands for a change: the reported tear is never invented. */
  lemma TornIsReal(reg: Samples, r: Pc)
    requires Outcome(reg, r)
    ensures Changes(reg, 2 * r.retries) >= r.retries
  {
    RetryCostsChange(reg, r.retries);
  }

  /** Four changes can defeat all four attempts. */
  lemma FourChangesCanTear()
    ensures var reg := (i: nat) => i / 2 * HALF; Changes(reg, 8) == 4 && forall k :: 0 <= k < 4 ==> !Agrees(reg, k)
  {
    var reg: Samples := (i: nat) => i / 2 * HALF;
    assert Hi(0) == 0 && Hi(HALF) == 1 && Hi(2 * HALF) == 2 && Hi(3 * HALF) == 3 && Hi(4 * HALF) == 4;
    Staircase(reg);
  }

  lemma Staircase(reg: Samples)
    requires forall i :: 0 <= i <= 8 ==> Hi(reg(i)) == i / 2
    ensures Changes(reg, 8) == 4 && forall k :: 0 <= k < 4 ==> !Agrees(reg, k)
  {
    assert Changes(reg, 2) == 1;
    assert Changes(reg, 4) == 2;
    assert Changes(reg, 6) == 3;
  }
}
