/** What the comparator of recordings reports about any two trees (check_replay_public.py:301-372). */
module Differences {
  import opened Commons
  import opened Sanitize
  import opened Neutrality

  /** The lists of the comparator; an entry that is gone carries its text-only mark. */
  datatype Report = Length | Changed | Numeric | New | Gone(stringy: bool)

  /** The comparator reports path p in the list `what`. */
  predicate Says(d: Diffs, what: Report, p: Path) {
    match what
    case Length => p in d.length
    case Changed => p in d.changed
    case Numeric => p in d.numeric
    case New => p in d.added
    case Gone(stringy) => Removed(p, stringy) in d.removed
  }

  /** The two nodes themselves differ. */
  predicate DiffersHere(what: Report, was: Json, now: Json) {
    match what
    case Length => was.List? && now.List? && ItemCount(was.items) != ItemCount(now.items)
    case Changed => was.Text? && now.Text? && was.s != now.s
    case Numeric =>
      if was.Atom? && now.Atom? then was.leaf != now.leaf || was.leaf == NaN
      else !(was.Object? && now.Object?) && !(was.List? && now.List?) && !(was.Text? && now.Text?)
    case _ => false
  }

  /** The trees differ in this way at path p, whose first d steps lead to the two nodes. */
  predicate Differs(what: Report, was: Json, now: Json, p: Path, d: nat)
    requires d <= |p|
    decreases |p| - d
  {
    if d == |p| then DiffersHere(what, was, now)
    else
      match (was, now, p[d])
      case (Object(f), Object(g), Key(k)) =>
        (match (Get(f, k), Get(g, k))
         case (Some(v), Some(w)) => Differs(what, v, w, p, d + 1)
         case (Some(v), None) => |p| == d + 1 && what == Gone(Stringy(v))
         case (None, Some(_)) => |p| == d + 1 && what == New
         case (None, None) => false)
      case (List(xs), List(ys), Index(i)) =>
        ItemCount(xs) == ItemCount(ys) && i < ItemCount(xs) && Differs(what, ItemAt(xs, i), ItemAt(ys, i), p, d + 1)
      case _ => false
  }

  lemma SaysPlus(a: Diffs, b: Diffs, what: Report, p: Path)
    ensures Says(a.Plus(b), what, p) == (Says(a, what, p) || Says(b, what, p))
  {
  }

  /** p goes on from `at` with the step s. */
  predicate Through(p: Path, at: Path, s: PathStep) {
    at <= p && |at| < |p| && p[|at|] == s
  }

  lemma ThroughStep(p: Path, at: Path, s: PathStep)
    ensures Through(p, at, s) == (at + [s] <= p)
    ensures p == at + [s] <==> Through(p, at, s) && |p| == |at| + 1
  {
    if at + [s] <= p { assert p[|at|] == (at + [s])[|at|]; }
    if Through(p, at, s) && |p| == |at| + 1 { assert p == at + [s]; }
  }

  /** The comparator reports, for any two trees with distinct keys, exactly the paths where they differ. */
  lemma {:induction false} CompareExact(was: Json, now: Json, at: Path, what: Report, p: Path)
    requires Distinct(was) && Distinct(now)
    ensures Says(Compare(was, now, at), what, p) == (at <= p && Differs(what, was, now, p, |at|))
    decreases was, 0
  {
    match (was, now) {
      case (Object(f), Object(g)) => ObjectsExact(f, g, at, what, p);
      case (List(xs), List(ys)) => ListsExact(xs, ys, at, what, p);
      case _ => LeavesExact(was, now, at, what, p);
    }
  }

  lemma LeavesExact(was: Json, now: Json, at: Path, what: Report, p: Path)
    requires !(was.Object? && now.Object?) && !(was.List? && now.List?)
    ensures Says(Compare(was, now, at), what, p) == (at <= p && Differs(what, was, now, p, |at|))
  {
    assert at <= p && |p| == |at| ==> p == at;
  }

  lemma {:induction false} ObjectsExact(f: Fields, g: Fields, at: Path, what: Report, p: Path)
    requires DistinctFields(f) && DistinctFields(g)
    ensures Says(Compare(Object(f), Object(g), at), what, p) ==
      (at <= p && Differs(what, Object(f), Object(g), p, |at|))
    decreases f, 1
  {
    FieldsExact(f, g, at, what, p);
    AddedExact(f, g, at, p);
    SaysPlus(CompareFields(f, g, at), Diffs([], Added(f, g, at), [], [], []), what, p);
  }

  lemma {:induction false} ListsExact(xs: Items, ys: Items, at: Path, what: Report, p: Path)
    requires DistinctItems(xs) && DistinctItems(ys)
    ensures Says(Compare(List(xs), List(ys), at), what, p) == (at <= p && Differs(what, List(xs), List(ys), p, |at|))
    decreases xs, 1
  {
    if ItemCount(xs) == ItemCount(ys) {
      ItemsExact(xs, ys, at, 0, what, p);
    } else {
      assert at <= p && |p| == |at| ==> p == at;
    }
  }

  predicate FieldDiffers(what: Report, key: string, v: Json, g: Fields, p: Path, d: nat)
    requires d < |p|
  {
    match Get(g, key)
    case Some(w) => Differs(what, v, w, p, d + 1)
    case None => |p| == d + 1 && what == Gone(Stringy(v))
  }

  lemma {:induction false} FieldsExact(f: Fields, g: Fields, at: Path, what: Report, p: Path)
    requires DistinctFields(f) && DistinctFields(g)
    ensures Says(CompareFields(f, g, at), what, p) ==
      (at <= p && |at| < |p| && p[|at|].Key? && Get(f, p[|at|].k).Some? &&
       FieldDiffers(what, p[|at|].k, Get(f, p[|at|].k).value, g, p, |at|))
    decreases f, 0
  {
    if f.Field? {
      var sub := at + [Key(f.key)];
      FieldExact(f.key, f.value, g, at, what, p);
      FieldsExact(f.rest, g, at, what, p);
      SaysPlus(CompareField(f.key, f.value, g, sub), CompareFields(f.rest, g, at), what, p);
    }
  }

  lemma {:induction false} FieldExact(key: string, v: Json, g: Fields, at: Path, what: Report, p: Path)
    requires Distinct(v) && DistinctFields(g)
    ensures Says(CompareField(key, v, g, at + [Key(key)]), what, p) ==
      (Through(p, at, Key(key)) && FieldDiffers(what, key, v, g, p, |at|))
    decreases v, 1
  {
    ThroughStep(p, at, Key(key));
    if Get(g, key).Some? {
      DistinctGet(g, key);
      CompareExact(v, Get(g, key).value, at + [Key(key)], what, p);
    }
  }

  lemma {:induction false} DistinctGet(f: Fields, key: string)
    requires DistinctFields(f) && Get(f, key).Some?
    ensures Distinct(Get(f, key).value)
    decreases f
  {
    if f.key != key { DistinctGet(f.rest, key); }
  }

  lemma {:induction false} AddedExact(f: Fields, g: Fields, at: Path, p: Path)
    ensures p in Added(f, g, at) <==>
      at <= p && |p| == |at| + 1 && p[|at|].Key? && Get(f, p[|at|].k).None? && Get(g, p[|at|].k).Some?
    decreases g
  {
    if g.Field? {
      ThroughStep(p, at, Key(g.key));
      AddedExact(f, g.rest, at, p);
    }
  }

  lemma {:induction false} ItemsExact(xs: Items, ys: Items, at: Path, i: nat, what: Report, p: Path)
    requires ItemCount(xs) == ItemCount(ys) && DistinctItems(xs) && DistinctItems(ys)
    ensures Says(CompareItems(xs, ys, at, i), what, p) ==
      (at <= p && |at| < |p| && p[|at|].Index? && i <= p[|at|].i < i + ItemCount(xs) &&
       Differs(what, ItemAt(xs, p[|at|].i - i), ItemAt(ys, p[|at|].i - i), p, |at| + 1))
    decreases xs, 0
  {
    if xs.Item? {
      var sub := at + [Index(i)];
      ThroughStep(p, at, Index(i));
      CompareExact(xs.head, ys.head, sub, what, p);
      ItemsExact(xs.tail, ys.tail, at, i + 1, what, p);
      SaysPlus(Compare(xs.head, ys.head, sub), CompareItems(xs.tail, ys.tail, at, i + 1), what, p);
    }
  }

  // ---- The verdict ------------------------------------------------------------------------

  /**
   * The same payload: nodes of the same kind at every shared path, equal atoms that are no NaN, lists
   * of equal length, and nothing but text under the keys that are gone. New keys are not looked at.
   */
  predicate SamePayload(was: Json, now: Json)
    decreases was, 0
  {
    match (was, now)
    case (Object(f), Object(g)) => SameFields(f, g)
    case (List(xs), List(ys)) => SameItems(xs, ys)
    case (Text(_), Text(_)) => true
    case (Atom(a), Atom(b)) => a == b && a != NaN
    case _ => false
  }

  predicate SameFields(f: Fields, g: Fields)
    decreases f, 0
  {
    f.Field? ==> SameField(f.value, Get(g, f.key)) && SameFields(f.rest, g)
  }

  predicate SameField(v: Json, there: Option<Json>)
    decreases v, 1
  {
    if there.Some? then SamePayload(v, there.value) else Stringy(v)
  }

  predicate SameItems(xs: Items, ys: Items)
    decreases xs, 0
  {
    if xs.NoItems? then ys.NoItems? else ys.Item? && SamePayload(xs.head, ys.head) && SameItems(xs.tail, ys.tail)
  }

  lemma PassesPlus(a: Diffs, b: Diffs)
    ensures Passes(a.Plus(b)) == (Passes(a) && Passes(b))
  {
    var all := a.Plus(b).removed;
    assert forall r :: r in all <==> r in a.removed || r in b.removed;
    if Passes(a.Plus(b)) {
      assert a.numeric + b.numeric == [] && a.length + b.length == [];
    }
  }

  /** The probe passes two recordings exactly when they have the same payload. */
  lemma {:induction false} PassesExact(was: Json, now: Json, at: Path)
    ensures Passes(Compare(was, now, at)) == SamePayload(was, now)
    decreases was, 0
  {
    match (was, now) {
      case (Object(f), Object(g)) =>
        FieldsPass(f, g, at);
        PassesPlus(CompareFields(f, g, at), Diffs([], Added(f, g, at), [], [], []));
      case (List(xs), List(ys)) =>
        SameItemsCount(xs, ys);
        if ItemCount(xs) == ItemCount(ys) { ItemsPass(xs, ys, at, 0); }
      case _ =>
    }
  }

  lemma {:induction false} SameItemsCount(xs: Items, ys: Items)
    ensures SameItems(xs, ys) ==> ItemCount(xs) == ItemCount(ys)
    decreases xs
  {
    if xs.Item? && ys.Item? { SameItemsCount(xs.tail, ys.tail); }
  }

  lemma {:induction false} FieldsPass(f: Fields, g: Fields, at: Path)
    ensures Passes(CompareFields(f, g, at)) == SameFields(f, g)
    decreases f, 0
  {
    if f.Field? {
      FieldPasses(f.key, f.value, g, at + [Key(f.key)]);
      FieldsPass(f.rest, g, at);
      PassesPlus(CompareField(f.key, f.value, g, at + [Key(f.key)]), CompareFields(f.rest, g, at));
    }
  }

  lemma {:induction false} FieldPasses(key: string, v: Json, g: Fields, at: Path)
    ensures Passes(CompareField(key, v, g, at)) == SameField(v, Get(g, key))
    decreases v, 1
  {
    if Get(g, key).Some? {
      PassesExact(v, Get(g, key).value, at);
    } else {
      assert Removed(at, Stringy(v)) in CompareField(key, v, g, at).removed;
    }
  }

  lemma {:induction false} ItemsPass(xs: Items, ys: Items, at: Path, i: nat)
    requires ItemCount(xs) == ItemCount(ys)
    ensures Passes(CompareItems(xs, ys, at, i)) == SameItems(xs, ys)
    decreases xs, 0
  {
    if xs.Item? {
      PassesExact(xs.head, ys.head, at + [Index(i)]);
      ItemsPass(xs.tail, ys.tail, at, i + 1);
      PassesPlus(Compare(xs.head, ys.head, at + [Index(i)]), CompareItems(xs.tail, ys.tail, at, i + 1));
    }
  }

  /** A new key with data under it passes, although only removed and rewritten text is meant to be allowed. */
  lemma NewDataPasses(f: Fields, key: string, v: Json, at: Path)
    requires Get(f, key) == None && SameFields(f, f)
    ensures var now := Object(Field(key, v, f));
      at + [Key(key)] in Compare(Object(f), now, at).added && Passes(Compare(Object(f), now, at))
  {
    AddedExact(f, Field(key, v, f), at, at + [Key(key)]);
    NewFieldSame(f, f, key, v);
    PassesExact(Object(f), Object(Field(key, v, f)), at);
  }

  lemma {:induction false} NewFieldSame(f: Fields, g: Fields, key: string, v: Json)
    requires Get(f, key) == None && SameFields(f, g)
    ensures SameFields(f, Field(key, v, g))
    decreases f
  {
    if f.Field? { NewFieldSame(f.rest, g, key, v); }
  }

  // ---- Text only -----------------------------------------------------------------------------

  /** The leaf of a tree that the steps of p from d on lead to. */
  function LeafAt(n: Json, p: Path, d: nat): Option<Leaf>
    requires d <= |p|
    decreases |p| - d
  {
    if d == |p| then (if n.Atom? then Some(n.leaf) else None)
    else
      match (n, p[d])
      case (Object(f), Key(k)) => if Get(f, k).Some? then LeafAt(Get(f, k).value, p, d + 1) else None
      case (List(xs), Index(i)) => if i < ItemCount(xs) then LeafAt(ItemAt(xs, i), p, d + 1) else None
      case _ => None
  }

  /** Some path leads to a leaf other than null. */
  ghost predicate HasData(n: Json) {
    exists p :: DataAt(n, p, 0)
  }

  predicate DataAt(n: Json, p: Path, d: nat) {
    d <= |p| && LeafAt(n, p, d).Some? && LeafAt(n, p, d) != Some(Null)
  }

  lemma {:induction false} LeafShift(n: Json, s: PathStep, p: Path, d: nat)
    requires d <= |p|
    ensures LeafAt(n, [s] + p, d + 1) == LeafAt(n, p, d)
    decreases |p| - d
  {
    if d < |p| {
      match (n, p[d]) {
        case (Object(f), Key(k)) => if Get(f, k).Some? { LeafShift(Get(f, k).value, s, p, d + 1); }
        case (List(xs), Index(i)) => if i < ItemCount(xs) { LeafShift(ItemAt(xs, i), s, p, d + 1); }
        case _ =>
      }
    }
  }

  lemma {:induction false} TextHasNoData(n: Json, p: Path, d: nat)
    requires Stringy(n) && d <= |p|
    ensures !DataAt(n, p, d)
    decreases |p| - d
  {
    if d < |p| {
      match (n, p[d]) {
        case (Object(f), Key(k)) =>
          if Get(f, k).Some? {
            StringyGet(f, k);
            TextHasNoData(Get(f, k).value, p, d + 1);
          }
        case (List(xs), Index(i)) =>
          if i < ItemCount(xs) {
            StringyItem(xs, i);
            TextHasNoData(ItemAt(xs, i), p, d + 1);
          }
        case _ =>
      }
    }
  }

  lemma {:induction false} StringyGet(f: Fields, k: string)
    requires StringyFields(f) && Get(f, k).Some?
    ensures Stringy(Get(f, k).value)
    decreases f
  {
    if f.key != k { StringyGet(f.rest, k); }
  }

  lemma {:induction false} StringyItem(xs: Items, i: nat)
    requires StringyItems(xs) && i < ItemCount(xs)
    ensures Stringy(ItemAt(xs, i))
    decreases xs
  {
    if i > 0 { StringyItem(xs.tail, i - 1); }
  }

  lemma {:induction false} DataPath(n: Json) returns (p: Path)
    requires !Stringy(n) && Distinct(n)
    ensures DataAt(n, p, 0)
    decreases n, 0
  {
    match n {
      case Atom(_) => p := [];
      case Object(f) =>
        var k, q := DataField(f);
        p := [Key(k)] + q;
        LeafShift(Get(f, k).value, Key(k), q, 0);
      case List(xs) =>
        var i, q := DataItem(xs);
        p := [Index(i)] + q;
        LeafShift(ItemAt(xs, i), Index(i), q, 0);
    }
  }

  lemma {:induction false} DataField(f: Fields) returns (k: string, p: Path)
    requires !StringyFields(f) && DistinctFields(f)
    ensures Get(f, k).Some? && DataAt(Get(f, k).value, p, 0)
    decreases f, 0
  {
    if Stringy(f.value) {
      k, p := DataField(f.rest);
    } else {
      k := f.key;
      p := DataPath(f.value);
    }
  }

  lemma {:induction false} DataItem(xs: Items) returns (i: nat, p: Path)
    requires !StringyItems(xs) && DistinctItems(xs)
    ensures i < ItemCount(xs) && DataAt(ItemAt(xs, i), p, 0)
    decreases xs, 0
  {
    if Stringy(xs.head) {
      var j, q := DataItem(xs.tail);
      i, p := j + 1, q;
    } else {
      i := 0;
      p := DataPath(xs.head);
    }
  }

  /** An entry counts as text only exactly if no path in it leads to a number, a truth value or a NaN. */
  lemma StringyExact(n: Json)
    requires Distinct(n)
    ensures Stringy(n) <==> !HasData(n)
  {
    if Stringy(n) {
      forall p: Path
        ensures !DataAt(n, p, 0)
      {
        TextHasNoData(n, p, 0);
      }
    } else {
      var p := DataPath(n);
    }
  }
}
