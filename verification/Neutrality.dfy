/** What comparing a recording with its public form can report (check_replay_public.py:312-372). */
module Neutrality {
  import opened Commons
  import opened Sanitize

  /** The same tree but for rewritten strings and missing dictionary entries. */
  predicate Thinned(was: Json, now: Json)
    decreases now
  {
    match (was, now)
    case (Object(f), Object(g)) => ThinnedFields(f, g)
    case (List(xs), List(ys)) => ThinnedItems(xs, ys)
    case (Text(_), Text(_)) => true
    case (Atom(a), Atom(b)) => a == b
    case _ => false
  }

  predicate ThinnedFields(f: Fields, g: Fields)
    decreases g
  {
    match g
    case NoFields => true
    case Field(k, v, rest) => Get(f, k).Some? && Thinned(Get(f, k).value, v) && ThinnedFields(f, rest)
  }

  predicate ThinnedItems(xs: Items, ys: Items)
    decreases ys
  {
    match (xs, ys)
    case (NoItems, NoItems) => true
    case (Item(x, xt), Item(y, yt)) => Thinned(x, y) && ThinnedItems(xt, yt)
    case _ => false
  }

  /** Shortening paths to file names is invisible to the relation. */
  lemma {:induction false} ThinnedBasename(n: Json, now: Json)
    ensures Thinned(Basename(n), now) == Thinned(n, now)
    decreases n
  {
    if n.List? && now.List? { ThinnedBasenames(n.items, now.items); }
  }

  lemma {:induction false} ThinnedBasenames(xs: Items, ys: Items)
    ensures ThinnedItems(BasenameItems(xs), ys) == ThinnedItems(xs, ys)
    decreases xs
  {
    if xs.Item? && ys.Item? {
      ThinnedBasename(xs.head, ys.head);
      ThinnedBasenames(xs.tail, ys.tail);
    }
  }

  lemma {:induction false} PublicIsThinned(p: Policy, n: Json, at: Path)
    requires Distinct(n)
    ensures Public(p, n, at).Some? ==> Thinned(n, Public(p, n, at).value)
    decreases Size(n)
  {
    match n {
      case Object(f) =>
        WholeSuffix(f);
        PublicFieldsThinned(p, f, f, at);
      case List(xs) => PublicItemsThinned(p, xs, at, 0);
      case _ =>
    }
  }

  /** The fields still to come of a dictionary. */
  predicate Suffix(all: Fields, f: Fields)
    decreases f
  {
    f.Field? ==> Get(all, f.key) == Some(f.value) && Suffix(all, f.rest)
  }

  lemma {:induction false} PublicFieldsThinned(p: Policy, all: Fields, f: Fields, at: Path)
    requires DistinctFields(f) && Suffix(all, f)
    ensures ThinnedFields(all, PublicFields(p, f, at))
    decreases FieldsSize(f)
  {
    if f.Field? {
      var sub, v := at + [Key(f.key)], Entering(p, f.key, f.value);
      DistinctBasename(f.value);
      PublicIsThinned(p, v, sub);
      if p.basename(f.key) && Public(p, v, sub).Some? {
        ThinnedBasename(f.value, Public(p, v, sub).value);
      }
      PublicFieldsThinned(p, all, f.rest, at);
    }
  }

  lemma {:induction false} DistinctBasename(n: Json)
    ensures Distinct(Basename(n)) == Distinct(n)
    decreases n
  {
    if n.List? { DistinctBasenames(n.items); }
  }

  lemma {:induction false} DistinctBasenames(xs: Items)
    ensures DistinctItems(BasenameItems(xs)) == DistinctItems(xs)
    decreases xs
  {
    if xs.Item? {
      DistinctBasename(xs.head);
      DistinctBasenames(xs.tail);
    }
  }

  lemma {:induction false} PublicItemsThinned(p: Policy, xs: Items, at: Path, i: nat)
    requires DistinctItems(xs)
    ensures PublicItems(p, xs, at, i).Some? ==> ThinnedItems(xs, PublicItems(p, xs, at, i).value)
    decreases ItemsSize(xs)
  {
    if xs.Item? {
      PublicIsThinned(p, xs.head, at + [Index(i)]);
      PublicItemsThinned(p, xs.tail, at, i + 1);
    }
  }

  lemma {:induction false} WholeSuffix(f: Fields)
    requires DistinctFields(f)
    ensures Suffix(f, f)
    decreases f
  {
    if f.Field? {
      WholeSuffix(f.rest);
      SuffixGrows(f.rest, f.rest, f.key, f.value);
    }
  }

  lemma {:induction false} SuffixGrows(all: Fields, f: Fields, key: string, v: Json)
    requires Suffix(all, f) && Get(f, key) == None
    ensures Suffix(Field(key, v, all), f)
    decreases f
  {
    if f.Field? { SuffixGrows(all, f.rest, key, v); }
  }

  lemma {:induction false} PublicDistinct(p: Policy, n: Json, at: Path)
    requires Distinct(n)
    ensures Public(p, n, at).Some? ==> Distinct(Public(p, n, at).value)
    decreases Size(n)
  {
    match n {
      case Object(f) => PublicFieldsDistinct(p, f, at);
      case List(xs) => PublicItemsDistinct(p, xs, at, 0);
      case _ =>
    }
  }

  lemma {:induction false} PublicFieldsDistinct(p: Policy, f: Fields, at: Path)
    requires DistinctFields(f)
    ensures DistinctFields(PublicFields(p, f, at))
    ensures forall k :: Get(f, k) == None ==> Get(PublicFields(p, f, at), k) == None
    decreases FieldsSize(f)
  {
    if f.Field? {
      DistinctBasename(f.value);
      PublicDistinct(p, Entering(p, f.key, f.value), at + [Key(f.key)]);
      PublicFieldsDistinct(p, f.rest, at);
    }
  }

  lemma {:induction false} PublicItemsDistinct(p: Policy, xs: Items, at: Path, i: nat)
    requires DistinctItems(xs)
    ensures PublicItems(p, xs, at, i).Some? ==> DistinctItems(PublicItems(p, xs, at, i).value)
    decreases ItemsSize(xs)
  {
    if xs.Item? {
      PublicDistinct(p, xs.head, at + [Index(i)]);
      PublicItemsDistinct(p, xs.tail, at, i + 1);
    }
  }

  predicate HasNaN(n: Json) {
    match n
    case Atom(l) => l == NaN
    case List(xs) => ItemsHaveNaN(xs)
    case Object(f) => FieldsHaveNaN(f)
    case Text(_) => false
  }

  predicate ItemsHaveNaN(xs: Items) { xs.Item? && (HasNaN(xs.head) || ItemsHaveNaN(xs.tail)) }

  predicate FieldsHaveNaN(f: Fields) { f.Field? && (HasNaN(f.value) || FieldsHaveNaN(f.rest)) }

  /** A key of f leads to a NaN in g. */
  predicate NaNUnder(f: Fields, g: Fields) {
    f.Field? && ((Get(g, f.key).Some? && HasNaN(Get(g, f.key).value)) || NaNUnder(f.rest, g))
  }

  lemma {:induction false} ThinnedGet(f: Fields, g: Fields, k: string)
    requires ThinnedFields(f, g) && Get(g, k).Some? && DistinctFields(g)
    ensures Get(f, k).Some? && Thinned(Get(f, k).value, Get(g, k).value) && Distinct(Get(g, k).value)
    decreases g
  {
    if g.key != k { ThinnedGet(f, g.rest, k); }
  }

  lemma {:induction false} NaNFound(f: Fields, k: string, g: Fields)
    requires Get(f, k).Some? && Get(g, k).Some? && HasNaN(Get(g, k).value)
    ensures NaNUnder(f, g)
    decreases f
  {
    if f.key != k { NaNFound(f.rest, k, g); }
  }

  lemma {:induction false} NaNInside(g: Fields, k: string)
    requires Get(g, k).Some? && HasNaN(Get(g, k).value)
    ensures FieldsHaveNaN(g)
    decreases g
  {
    if g.key != k { NaNInside(g.rest, k); }
  }

  lemma {:induction false} NaNUnderIsInside(f: Fields, g: Fields)
    requires NaNUnder(f, g)
    ensures FieldsHaveNaN(g)
    decreases f
  {
    if Get(g, f.key).Some? && HasNaN(Get(g, f.key).value) {
      NaNInside(g, f.key);
    } else {
      NaNUnderIsInside(f.rest, g);
    }
  }

  lemma {:induction false} NaNInsideIsUnder(f: Fields, all: Fields, g: Fields)
    requires ThinnedFields(f, g) && Suffix(all, g) && FieldsHaveNaN(g)
    ensures NaNUnder(f, all)
    decreases g
  {
    if HasNaN(g.value) {
      NaNFound(f, g.key, all);
    } else {
      NaNInsideIsUnder(f, all, g.rest);
    }
  }

  /** No key is new, no list changes its length, and the only values that differ are NaNs. */
  ghost predicate Neutral(d: Diffs, nan: bool) {
    d.added == [] && d.length == [] && (d.numeric == [] <==> !nan)
  }

  lemma {:induction false} ThinnedIsNeutral(was: Json, now: Json, at: Path)
    requires Thinned(was, now) && Distinct(was) && Distinct(now)
    ensures Neutral(Compare(was, now, at), HasNaN(now))
    decreases was, 0
  {
    match (was, now) {
      case (Object(f), Object(g)) =>
        WholeSuffix(f);
        WholeSuffix(g);
        FieldsNeutral(f, f, g, at);
        NothingAdded(f, g, at);
        if NaNUnder(f, g) { NaNUnderIsInside(f, g); }
        if FieldsHaveNaN(g) { NaNInsideIsUnder(f, g, g); }
      case (List(xs), List(ys)) => ItemsNeutral(xs, ys, at, 0);
      case _ =>
    }
  }

  lemma {:induction false} NothingAdded(f: Fields, g: Fields, at: Path)
    requires ThinnedFields(f, g)
    ensures Added(f, g, at) == []
    decreases g
  {
    if g.Field? { NothingAdded(f, g.rest, at); }
  }

  lemma {:induction false} FieldsNeutral(all: Fields, f: Fields, g: Fields, at: Path)
    requires Suffix(all, f) && DistinctFields(f) && ThinnedFields(all, g) && DistinctFields(g)
    ensures Neutral(CompareFields(f, g, at), NaNUnder(f, g))
    decreases f, 0
  {
    if f.Field? {
      if Get(g, f.key).Some? {
        ThinnedGet(all, g, f.key);
        ThinnedIsNeutral(f.value, Get(g, f.key).value, at + [Key(f.key)]);
      }
      FieldsNeutral(all, f.rest, g, at);
    }
  }

  lemma {:induction false} ItemsNeutral(xs: Items, ys: Items, at: Path, i: nat)
    requires ThinnedItems(xs, ys) && DistinctItems(xs) && DistinctItems(ys)
    ensures ItemCount(xs) == ItemCount(ys) && Neutral(CompareItems(xs, ys, at, i), ItemsHaveNaN(ys))
    decreases xs, 0
  {
    if xs.Item? {
      ThinnedIsNeutral(xs.head, ys.head, at + [Index(i)]);
      ItemsNeutral(xs.tail, ys.tail, at, i + 1);
    }
  }

  /** Sanitising and comparing: no key added, no list length changed, and a number differs only where a NaN survives. */
  lemma SanitisingIsNeutral(p: Policy, n: Json, at: Path)
    requires Distinct(n) && Public(p, n, at).Some?
    ensures var now := Public(p, n, at).value; Neutral(Compare(n, now, at), HasNaN(now))
  {
    PublicIsThinned(p, n, at);
    PublicDistinct(p, n, at);
    ThinnedIsNeutral(n, Public(p, n, at).value, at);
  }

  // ---- What is removed ------------------------------------------------------------------

  /** The dictionary entries that do not make it, in order, and whether each held text only. */
  function Lost(p: Policy, n: Json, at: Path): seq<Removed>
    decreases Size(n)
  {
    match n
    case Object(f) => LostFields(p, f, at)
    case List(xs) => LostItems(p, xs, at, 0)
    case _ => []
  }

  function LostField(p: Policy, key: string, v: Json, at: Path): seq<Removed>
    decreases Size(v) + 1
  {
    if PublicField(p, key, v, at) == None then [Removed(at, Stringy(v))] else Lost(p, Entering(p, key, v), at)
  }

  function LostFields(p: Policy, f: Fields, at: Path): seq<Removed>
    decreases FieldsSize(f)
  {
    if f.NoFields? then [] else LostField(p, f.key, f.value, at + [Key(f.key)]) + LostFields(p, f.rest, at)
  }

  function LostItems(p: Policy, xs: Items, at: Path, i: nat): seq<Removed>
    decreases ItemsSize(xs)
  {
    if xs.NoItems? then [] else Lost(p, xs.head, at + [Index(i)]) + LostItems(p, xs.tail, at, i + 1)
  }

  lemma {:induction false} PublicGet(p: Policy, f: Fields, at: Path, k: string)
    requires DistinctFields(f) && Get(f, k).Some?
    ensures Get(PublicFields(p, f, at), k) == PublicField(p, k, Get(f, k).value, at + [Key(k)])
    decreases f
  {
    PublicFieldsDistinct(p, f, at);
    PublicFieldsDistinct(p, f.rest, at);
    if f.key != k { PublicGet(p, f.rest, at, k); }
  }

  lemma {:induction false} BasenameRemoved(n: Json, now: Json, at: Path)
    ensures Compare(Basename(n), now, at).removed == Compare(n, now, at).removed
    decreases n
  {
    if n.List? && now.List? {
      BasenameCount(n.items);
      if ItemCount(n.items) == ItemCount(now.items) {
        BasenamesRemoved(n.items, now.items, at, 0);
      }
    }
  }

  lemma {:induction false} BasenameCount(xs: Items)
    ensures ItemCount(BasenameItems(xs)) == ItemCount(xs)
    decreases xs
  {
    if xs.Item? { BasenameCount(xs.tail); }
  }

  lemma {:induction false} BasenamesRemoved(xs: Items, ys: Items, at: Path, i: nat)
    requires ItemCount(xs) == ItemCount(ys)
    ensures ItemCount(BasenameItems(xs)) == ItemCount(ys)
    ensures CompareItems(BasenameItems(xs), ys, at, i).removed == CompareItems(xs, ys, at, i).removed
    decreases xs
  {
    if xs.Item? {
      BasenameRemoved(xs.head, ys.head, at + [Index(i)]);
      BasenamesRemoved(xs.tail, ys.tail, at, i + 1);
    }
  }

  /** The comparator reports as removed exactly the entries the policy loses. */
  lemma {:induction false} RemovedExactly(p: Policy, n: Json, at: Path)
    requires Distinct(n) && Public(p, n, at).Some?
    ensures Compare(n, Public(p, n, at).value, at).removed == Lost(p, n, at)
    decreases Size(n)
  {
    match n {
      case Object(f) =>
        WholeSuffix(f);
        FieldsRemoved(p, f, f, at);
      case List(xs) => ItemsRemoved(p, xs, at, 0);
      case _ =>
    }
  }

  lemma {:induction false} FieldsRemoved(p: Policy, all: Fields, f: Fields, at: Path)
    requires DistinctFields(all) && Suffix(all, f) && DistinctFields(f)
    ensures CompareFields(f, PublicFields(p, all, at), at).removed == LostFields(p, f, at)
    decreases FieldsSize(f)
  {
    if f.Field? {
      var sub, v := at + [Key(f.key)], Entering(p, f.key, f.value);
      PublicGet(p, all, at, f.key);
      if PublicField(p, f.key, f.value, sub).Some? {
        var w := Public(p, v, sub).value;
        DistinctBasename(f.value);
        RemovedExactly(p, v, sub);
        BasenameRemoved(f.value, w, sub);
      }
      FieldsRemoved(p, all, f.rest, at);
    }
  }

  lemma {:induction false} ItemsRemoved(p: Policy, xs: Items, at: Path, i: nat)
    requires DistinctItems(xs) && PublicItems(p, xs, at, i).Some?
    ensures var ys := PublicItems(p, xs, at, i).value;
      ItemCount(xs) == ItemCount(ys) && CompareItems(xs, ys, at, i).removed == LostItems(p, xs, at, i)
    decreases ItemsSize(xs)
  {
    if xs.Item? {
      RemovedExactly(p, xs.head, at + [Index(i)]);
      ItemsRemoved(p, xs.tail, at, i + 1);
    }
  }

  predicate DropLogged(log: seq<Entry>, at: Path) {
    exists e :: e in log && e.at == at && e.kind != Basenamed
  }

  /** Drop reasons are drops. */
  ghost predicate Sound(p: Policy) {
    forall at :: p.drop(at) != Some(Basenamed)
  }

  /** Nothing goes without a line in the log. */
  lemma {:induction false} LostIsLogged(p: Policy, n: Json, at: Path, r: Removed)
    requires Sound(p) && Public(p, n, at).Some? && r in Lost(p, n, at)
    ensures DropLogged(Logged(p, n, at), r.at)
    decreases Size(n)
  {
    match n {
      case Object(f) => FieldLostIsLogged(p, f, at, r);
      case List(xs) => ItemLostIsLogged(p, xs, at, 0, r);
      case _ =>
    }
  }

  lemma {:induction false} FieldLostIsLogged(p: Policy, f: Fields, at: Path, r: Removed)
    requires Sound(p) && r in LostFields(p, f, at)
    ensures DropLogged(FieldsLogged(p, f, at), r.at)
    decreases FieldsSize(f)
  {
    var sub, v := at + [Key(f.key)], Entering(p, f.key, f.value);
    var here, rest := FieldLogged(p, f.key, f.value, sub), FieldsLogged(p, f.rest, at);
    if r in LostField(p, f.key, f.value, sub) {
      if p.drop(sub).Some? {
        assert Entry(p.drop(sub).value, sub) in here;
      } else if Public(p, v, sub) == None {
        assert Entry(DropDirty, sub) in here;
      } else {
        LostIsLogged(p, v, sub, r);
        assert forall e :: e in Logged(p, v, sub) ==> e in here;
      }
      assert DropLogged(here, r.at);
    } else {
      FieldLostIsLogged(p, f.rest, at, r);
    }
    assert forall e :: e in here || e in rest ==> e in here + rest;
  }

  lemma {:induction false} ItemLostIsLogged(p: Policy, xs: Items, at: Path, i: nat, r: Removed)
    requires Sound(p) && PublicItems(p, xs, at, i).Some? && r in LostItems(p, xs, at, i)
    ensures DropLogged(ItemsLogged(p, xs, at, i), r.at)
    decreases ItemsSize(xs)
  {
    if r in Lost(p, xs.head, at + [Index(i)]) {
      LostIsLogged(p, xs.head, at + [Index(i)], r);
    } else {
      ItemLostIsLogged(p, xs.tail, at, i + 1, r);
    }
    var here, rest := Logged(p, xs.head, at + [Index(i)]), ItemsLogged(p, xs.tail, at, i + 1);
    assert forall e :: e in here || e in rest ==> e in here + rest;
  }

  /** The verdict of the neutrality probe. */
  predicate Passes(d: Diffs) {
    (forall r :: r in d.removed ==> r.stringy) && d.numeric == [] && d.length == []
  }

  /** The probe passes a sanitised recording exactly when only text is lost and no NaN survives. */
  lemma ProbeVerdict(p: Policy, n: Json, at: Path)
    requires Distinct(n) && Public(p, n, at).Some?
    ensures var now := Public(p, n, at).value;
      Passes(Compare(n, now, at)) <==> (forall r :: r in Lost(p, n, at) ==> r.stringy) && !HasNaN(now)
  {
    SanitisingIsNeutral(p, n, at);
    RemovedExactly(p, n, at);
  }

  /** One dirty string in a list takes the numbers beside it along: the probe then fails the recording. */
  lemma DirtyListLosesData(p: Policy, key: string, x: real, s: string, at: Path)
    requires var sub := at + [Key(key)];
      p.drop(sub) == None && !p.basename(key) && !p.verbatim(sub + [Index(1)]) && p.dirty(p.rename(s), sub + [Index(1)])
    ensures var n := Object(Field(key, List(Item(Atom(Number(x)), Item(Text(s), NoItems))), NoFields));
      Public(p, n, at) == Some(Object(NoFields)) && !Passes(Compare(n, Object(NoFields), at))
  {
    var sub := at + [Key(key)];
    var xs := Item(Atom(Number(x)), Item(Text(s), NoItems));
    var n := Object(Field(key, List(xs), NoFields));
    assert Public(p, Text(s), sub + [Index(1)]) == None;
    assert PublicItems(p, xs.tail, sub, 1) == None;
    assert PublicItems(p, xs, sub, 0) == None;
    assert PublicField(p, key, List(xs), sub) == None;
    assert PublicFields(p, n.fields, at) == NoFields;
    assert !Stringy(xs.head);
    assert !Stringy(List(xs));
    assert Removed(sub, false) in CompareField(key, List(xs), NoFields, sub).removed;
    assert Removed(sub, false) in Compare(n, Object(NoFields), at).removed;
  }
}
