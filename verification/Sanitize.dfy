// The sanitiser that makes a recording public (record_web_replay.py:496-550) and the independent
// comparator that holds the public recording against the internal one
// (check_replay_public.py:301-372). What counts as an internal marker, which keys and paths are
// dropped and how strings are rewritten are parameters of the model.

module Sanitize {
  import opened Commons

  /** A leaf that is no string; 1 and 1.0 differ in type, and a NaN does not even equal itself. */
  datatype Leaf = Null | Bool(b: bool) | Whole(n: int) | Number(x: real) | NaN

  datatype Json = Object(fields: Fields) | List(items: Items) | Text(s: string) | Atom(leaf: Leaf)

  /** A dictionary in insertion order. */
  datatype Fields = NoFields | Field(key: string, value: Json, rest: Fields)

  datatype Items = NoItems | Item(head: Json, tail: Items)

  datatype PathStep = Key(k: string) | Index(i: nat)

  type Path = seq<PathStep>

  datatype Kind = DropUnderscore | DropKey | DropPath | Basenamed | DropDirty

  datatype Entry = Entry(kind: Kind, at: Path)

  /** The public-export policy; drop says why a key at a path goes, if it does. */
  datatype Policy = Policy(
    drop: Path -> Option<Kind>,
    basename: string -> bool,
    verbatim: Path -> bool,
    rename: string -> string,
    dirty: (string, Path) -> bool)

  function Size(n: Json): nat {
    match n
    case Object(f) => 1 + FieldsSize(f)
    case List(xs) => 1 + ItemsSize(xs)
    case _ => 1
  }

  function FieldsSize(f: Fields): nat {
    match f
    case NoFields => 0
    case Field(_, v, rest) => 2 + Size(v) + FieldsSize(rest)
  }

  function ItemsSize(xs: Items): nat {
    match xs
    case NoItems => 0
    case Item(x, more) => 1 + Size(x) + ItemsSize(more)
  }

  function Get(f: Fields, key: string): Option<Json> {
    match f
    case NoFields => None
    case Field(k, v, rest) => if k == key then Some(v) else Get(rest, key)
  }

  function ItemCount(xs: Items): nat { if xs.NoItems? then 0 else 1 + ItemCount(xs.tail) }

  function ItemAt(xs: Items, i: nat): Json
    requires i < ItemCount(xs)
  {
    if i == 0 then xs.head else ItemAt(xs.tail, i - 1)
  }

  /** Every dictionary in the tree has distinct keys. */
  predicate Distinct(n: Json) {
    match n
    case Object(f) => DistinctFields(f)
    case List(xs) => DistinctItems(xs)
    case _ => true
  }

  predicate DistinctFields(f: Fields) {
    f.Field? ==> Get(f.rest, f.key) == None && Distinct(f.value) && DistinctFields(f.rest)
  }

  predicate DistinctItems(xs: Items) {
    xs.Item? ==> Distinct(xs.head) && DistinctItems(xs.tail)
  }

  // ---- The sanitiser --------------------------------------------------------------------

  /** The position behind the last separator in front of n. */
  function Behind(s: string, n: nat): (k: nat)
    requires n <= |s|
    ensures k <= n && (forall i :: k <= i < n ==> s[i] !in "/\\") && (k > 0 ==> s[k - 1] in "/\\")
  {
    if n == 0 || s[n - 1] in "/\\" then n else Behind(s, n - 1)
  }

  function Basename(n: Json): (r: Json)
    ensures Size(r) == Size(n)
  {
    match n
    case Text(s) => Text(s[Behind(s, |s|)..])
    case List(xs) => List(BasenameItems(xs))
    case _ => n
  }

  function BasenameItems(xs: Items): (r: Items)
    ensures ItemsSize(r) == ItemsSize(xs)
  {
    match xs
    case NoItems => NoItems
    case Item(x, more) => Item(Basename(x), BasenameItems(more))
  }

  /** What goes into the recursion for a field: a path shortened to its file name, or the value itself. */
  function Entering(p: Policy, key: string, v: Json): (r: Json)
    ensures Size(r) == Size(v)
  {
    if p.basename(key) then Basename(v) else v
  }

  /** The public form of a tree; None marks it dirty. */
  function Public(p: Policy, n: Json, at: Path): Option<Json>
    decreases Size(n)
  {
    match n
    case Object(f) => Some(Object(PublicFields(p, f, at)))
    case List(xs) =>
      (match PublicItems(p, xs, at, 0)
       case None => None
       case Some(r) => Some(List(r)))
    case Text(s) =>
      var t := if p.verbatim(at) then s else p.rename(s);
      if p.dirty(t, at) then None else Some(Text(t))
    case Atom(_) => Some(n)
  }

  function PublicField(p: Policy, key: string, v: Json, at: Path): Option<Json>
    decreases Size(v) + 1
  {
    if p.drop(at).Some? then None else Public(p, Entering(p, key, v), at)
  }

  function PublicFields(p: Policy, f: Fields, at: Path): Fields
    decreases FieldsSize(f)
  {
    match f
    case NoFields => NoFields
    case Field(k, v, rest) =>
      match PublicField(p, k, v, at + [Key(k)])
      case None => PublicFields(p, rest, at)
      case Some(r) => Field(k, r, PublicFields(p, rest, at))
  }

  function PublicItems(p: Policy, xs: Items, at: Path, i: nat): Option<Items>
    decreases ItemsSize(xs)
  {
    match xs
    case NoItems => Some(NoItems)
    case Item(x, more) =>
      match Public(p, x, at + [Index(i)])
      case None => None
      case Some(r) =>
        match PublicItems(p, more, at, i + 1)
        case None => None
        case Some(rs) => Some(Item(r, rs))
  }

  /** The log lines in the order they are written. */
  function Logged(p: Policy, n: Json, at: Path): seq<Entry>
    decreases Size(n)
  {
    match n
    case Object(f) => FieldsLogged(p, f, at)
    case List(xs) => ItemsLogged(p, xs, at, 0)
    case _ => []
  }

  function FieldLogged(p: Policy, key: string, v: Json, at: Path): seq<Entry>
    decreases Size(v) + 1
  {
    match p.drop(at)
    case Some(kind) => [Entry(kind, at)]
    case None =>
      (if p.basename(key) then [Entry(Basenamed, at)] else []) + Logged(p, Entering(p, key, v), at) +
      (if PublicField(p, key, v, at) == None then [Entry(DropDirty, at)] else [])
  }

  function FieldsLogged(p: Policy, f: Fields, at: Path): seq<Entry>
    decreases FieldsSize(f)
  {
    match f
    case NoFields => []
    case Field(k, v, rest) => FieldLogged(p, k, v, at + [Key(k)]) + FieldsLogged(p, rest, at)
  }

  function ItemsLogged(p: Policy, xs: Items, at: Path, i: nat): seq<Entry>
    decreases ItemsSize(xs)
  {
    match xs
    case NoItems => []
    case Item(x, more) =>
      Logged(p, x, at + [Index(i)]) +
      (if Public(p, x, at + [Index(i)]) == None then [] else ItemsLogged(p, more, at, i + 1))
  }

  // ---- The comparator -------------------------------------------------------------------

  /** Strings and null only, in lists and dictionaries too: no payload. */
  predicate Stringy(n: Json) {
    match n
    case Text(_) => true
    case Atom(l) => l == Null
    case List(xs) => StringyItems(xs)
    case Object(f) => StringyFields(f)
  }

  predicate StringyItems(xs: Items) { xs.Item? ==> Stringy(xs.head) && StringyItems(xs.tail) }

  predicate StringyFields(f: Fields) { f.Field? ==> Stringy(f.value) && StringyFields(f.rest) }

  datatype Removed = Removed(at: Path, stringy: bool)

  datatype Diffs = Diffs(removed: seq<Removed>, added: seq<Path>, changed: seq<Path>, numeric: seq<Path>,
          length: seq<Path>)
  {
    function Plus(d: Diffs): Diffs {
      Diffs(removed + d.removed, added + d.added, changed + d.changed, numeric + d.numeric, length + d.length)
    }
  }

  const NO_DIFFS := Diffs([], [], [], [], [])

  function Compare(was: Json, now: Json, at: Path): Diffs
    decreases was, 0
  {
    match (was, now)
    case (Object(f), Object(g)) => CompareFields(f, g, at).Plus(Diffs([], Added(f, g, at), [], [], []))
    case (List(xs), List(ys)) =>
      if ItemCount(xs) != ItemCount(ys) then NO_DIFFS.(length := [at]) else CompareItems(xs, ys, at, 0)
    case (Text(s), Text(t)) => if s == t then NO_DIFFS else NO_DIFFS.(changed := [at])
    case (Atom(a), Atom(b)) => if a == b && a != NaN then NO_DIFFS else NO_DIFFS.(numeric := [at])
    case _ => NO_DIFFS.(numeric := [at])
  }

  function CompareFields(f: Fields, g: Fields, at: Path): Diffs
    decreases f, 0
  {
    match f
    case NoFields => NO_DIFFS
    case Field(k, v, rest) => CompareField(k, v, g, at + [Key(k)]).Plus(CompareFields(rest, g, at))
  }

  function CompareField(key: string, v: Json, g: Fields, at: Path): Diffs
    decreases v, 1
  {
    match Get(g, key)
    case None => NO_DIFFS.(removed := [Removed(at, Stringy(v))])
    case Some(w) => Compare(v, w, at)
  }

  function Added(f: Fields, g: Fields, at: Path): seq<Path> {
    match g
    case NoFields => []
    case Field(k, _, rest) => (if Get(f, k) == None then [at + [Key(k)]] else []) + Added(f, rest, at)
  }

  function CompareItems(xs: Items, ys: Items, at: Path, i: nat): Diffs
    requires ItemCount(xs) == ItemCount(ys)
    decreases xs, 0
  {
    match xs
    case NoItems => NO_DIFFS
    case Item(x, more) => Compare(x, ys.head, at + [Index(i)]).Plus(CompareItems(more, ys.tail, at, i + 1))
  }

  // ---- What the sanitiser leaves --------------------------------------------------------

  /** Every string in the tree is clean at its own path. */
  predicate Clean(p: Policy, n: Json, at: Path) {
    match n
    case Object(f) => CleanFields(p, f, at)
    case List(xs) => CleanItems(p, xs, at, 0)
    case Text(s) => !p.dirty(s, at)
    case Atom(_) => true
  }

  predicate CleanFields(p: Policy, f: Fields, at: Path) {
    f.Field? ==>
      p.drop(at + [Key(f.key)]) == None && Clean(p, f.value, at + [Key(f.key)]) && CleanFields(p, f.rest, at)
  }

  predicate CleanItems(p: Policy, xs: Items, at: Path, i: nat) {
    xs.Item? ==> Clean(p, xs.head, at + [Index(i)]) && CleanItems(p, xs.tail, at, i + 1)
  }

  /** Whatever survives is clean at its own path, and no key of the drop list survives. */
  lemma {:induction false} SurvivorsAreClean(p: Policy, n: Json, at: Path)
    ensures Public(p, n, at).Some? ==> Clean(p, Public(p, n, at).value, at)
    decreases Size(n)
  {
    match n {
      case Object(f) => FieldsAreClean(p, f, at);
      case List(xs) => ItemsAreClean(p, xs, at, 0);
      case _ =>
    }
  }

  lemma {:induction false} FieldsAreClean(p: Policy, f: Fields, at: Path)
    ensures CleanFields(p, PublicFields(p, f, at), at)
    decreases FieldsSize(f)
  {
    if f.Field? {
      SurvivorsAreClean(p, Entering(p, f.key, f.value), at + [Key(f.key)]);
      FieldsAreClean(p, f.rest, at);
    }
  }

  lemma {:induction false} ItemsAreClean(p: Policy, xs: Items, at: Path, i: nat)
    ensures PublicItems(p, xs, at, i).Some? ==> CleanItems(p, PublicItems(p, xs, at, i).value, at, i)
    decreases ItemsSize(xs)
  {
    if xs.Item? {
      SurvivorsAreClean(p, xs.head, at + [Index(i)]);
      ItemsAreClean(p, xs.tail, at, i + 1);
    }
  }

  // ---- The program ----------------------------------------------------------------------

  function Then(f: Fields, g: Fields): Fields {
    if f.NoFields? then g else f.(rest := Then(f.rest, g))
  }

  function AndItems(xs: Items, ys: Items): Items {
    if xs.NoItems? then ys else xs.(tail := AndItems(xs.tail, ys))
  }

  lemma {:induction false} ThenAssoc(f: Fields, g: Fields, h: Fields)
    ensures Then(Then(f, g), h) == Then(f, Then(g, h))
    decreases f
  {
    if f.Field? { ThenAssoc(f.rest, g, h); }
  }

  lemma {:induction false} ItemsAssoc(xs: Items, ys: Items, zs: Items)
    ensures AndItems(AndItems(xs, ys), zs) == AndItems(xs, AndItems(ys, zs))
    decreases xs
  {
    if xs.Item? { ItemsAssoc(xs.tail, ys, zs); }
  }

  lemma {:induction false} ThenNothing(f: Fields)
    ensures Then(f, NoFields) == f
    decreases f
  {
    if f.Field? { ThenNothing(f.rest); }
  }

  lemma {:induction false} ItemsNothing(xs: Items)
    ensures AndItems(xs, NoItems) == xs
    decreases xs
  {
    if xs.Item? { ItemsNothing(xs.tail); }
  }

  /** The lines of a field that is not dropped by policy, behind those that are there. */
  lemma FieldAppends(p: Policy, key: string, v: Json, at: Path, log: seq<Entry>)
    requires p.drop(at) == None
    ensures
      var named := if p.basename(key) then log + [Entry(Basenamed, at)] else log;
      var below := named + Logged(p, Entering(p, key, v), at);
      log + FieldLogged(p, key, v, at) ==
        if PublicField(p, key, v, at) == None then below + [Entry(DropDirty, at)] else below
  {
  }

  class Sanitizer {
    const policy: Policy
    var log: seq<Entry>

    constructor (policy: Policy)
      ensures this.policy == policy && log == []
    {
      this.policy, this.log := policy, [];
    }

    method Sanitize(n: Json, at: Path) returns (r: Option<Json>)
      modifies this
      ensures r == Public(policy, n, at) && log == old(log) + Logged(policy, n, at)
      decreases Size(n), 1
    {
      match n {
        case Object(f) =>
          var out := SanitizeFields(f, at);
          r := Some(Object(out));
        case List(xs) =>
          var out := SanitizeItems(xs, at);
          r := if out == None then None else Some(List(out.value));
        case Text(s) =>
          var t := if policy.verbatim(at) then s else policy.rename(s);
          r := if policy.dirty(t, at) then None else Some(Text(t));
        case Atom(_) =>
          r := Some(n);
      }
    }

    method SanitizeFields(f: Fields, at: Path) returns (out: Fields)
      modifies this
      ensures out == PublicFields(policy, f, at) && log == old(log) + FieldsLogged(policy, f, at)
      decreases FieldsSize(f), 0
    {
      var todo := f;
      out := NoFields;
      while todo.Field?
        invariant FieldsSize(todo) <= FieldsSize(f)
        invariant Then(out, PublicFields(policy, todo, at)) == PublicFields(policy, f, at)
        invariant log + FieldsLogged(policy, todo, at) == old(log) + FieldsLogged(policy, f, at)
        decreases todo
      {
        var sub := at + [Key(todo.key)];
        ghost var here, later := FieldLogged(policy, todo.key, todo.value, sub), FieldsLogged(policy, todo.rest, at);
        assert log + (here + later) == (log + here) + later;
        var r := SanitizeField(todo.key, todo.value, sub);
        if r.Some? {
          ThenAssoc(out, Field(todo.key, r.value, NoFields), PublicFields(policy, todo.rest, at));
          out := Then(out, Field(todo.key, r.value, NoFields));
        }
        todo := todo.rest;
      }
      ThenNothing(out);
    }

    /** One turn of the loop over a dictionary. */
    method SanitizeField(key: string, value: Json, sub: Path) returns (r: Option<Json>)
      modifies this
      ensures r == PublicField(policy, key, value, sub) && log == old(log) + FieldLogged(policy, key, value, sub)
      decreases Size(value), 2
    {
      if policy.drop(sub).Some? {
        log := log + [Entry(policy.drop(sub).value, sub)];
        return None;
      }
      var v := value;
      if policy.basename(key) {
        v := Basename(v);
        log := log + [Entry(Basenamed, sub)];
      }
      r := Sanitize(v, sub);
      if r == None {
        log := log + [Entry(DropDirty, sub)];
      }
      FieldAppends(policy, key, value, sub, old(log));
    }

    method SanitizeItems(xs: Items, at: Path) returns (r: Option<Items>)
      modifies this
      ensures r == PublicItems(policy, xs, at, 0) && log == old(log) + ItemsLogged(policy, xs, at, 0)
      decreases ItemsSize(xs), 0
    {
      var todo, i, out := xs, 0, NoItems;
      while todo.Item?
        invariant i >= 0 && ItemsSize(todo) <= ItemsSize(xs)
        invariant Collected(out, PublicItems(policy, todo, at, i)) == PublicItems(policy, xs, at, 0)
        invariant log + ItemsLogged(policy, todo, at, i) == old(log) + ItemsLogged(policy, xs, at, 0)
        decreases todo
      {
        var v := Sanitize(todo.head, at + [Index(i)]);
        if v == None {
          return None;
        }
        var more := PublicItems(policy, todo.tail, at, i + 1);
        if more.Some? { ItemsAssoc(out, Item(v.value, NoItems), more.value); }
        out := AndItems(out, Item(v.value, NoItems));
        todo, i := todo.tail, i + 1;
      }
      ItemsNothing(out);
      return Some(out);
    }
  }

  function Collected(out: Items, more: Option<Items>): Option<Items> {
    if more == None then None else Some(AndItems(out, more.value))
  }

  /** compare_payload with its shared dictionary of differences. */
  class Comparer {
    var diffs: Diffs

    constructor ()
      ensures diffs == NO_DIFFS
    {
      diffs := NO_DIFFS;
    }

    method ComparePayload(was: Json, now: Json, at: Path)
      modifies this
      ensures diffs == old(diffs).Plus(Compare(was, now, at))
      decreases was, 1
    {
      PlusNothing(diffs);
      match (was, now) {
        case (Object(f), Object(g)) =>
          ghost var before := diffs;
          CompareAllFields(f, g, at);
          NoteAdded(f, g, at);
          PlusAssoc(before, CompareFields(f, g, at), Diffs([], Added(f, g, at), [], [], []));
        case (List(xs), List(ys)) =>
          if ItemCount(xs) != ItemCount(ys) {
            diffs := diffs.(length := diffs.length + [at]);
          } else {
            CompareAllItems(xs, ys, at);
          }
        case (Text(s), Text(t)) =>
          if s != t {
            diffs := diffs.(changed := diffs.changed + [at]);
          }
        case (Atom(a), Atom(b)) =>
          if !(a == b && a != NaN) {
            diffs := diffs.(numeric := diffs.numeric + [at]);
          }
        case _ =>
          diffs := diffs.(numeric := diffs.numeric + [at]);
      }
    }

    method NoteAdded(f: Fields, g: Fields, at: Path)
      modifies this
      ensures diffs == old(diffs).Plus(Diffs([], Added(f, g, at), [], [], []))
    {
      var todo := g;
      ghost var before := diffs;
      while todo.Field?
        invariant diffs == before.(added := diffs.added)
        invariant diffs.added + Added(f, todo, at) == before.added + Added(f, g, at)
        decreases todo
      {
        if Get(f, todo.key) == None {
          diffs := diffs.(added := diffs.added + [at + [Key(todo.key)]]);
        }
        todo := todo.rest;
      }
      assert diffs.added + [] == diffs.added;
      PlusAdded(before, Added(f, g, at));
    }

    method CompareAllFields(f: Fields, g: Fields, at: Path)
      modifies this
      ensures diffs == old(diffs).Plus(CompareFields(f, g, at))
      decreases f, 0
    {
      var todo := f;
      while todo.Field?
        invariant todo == f || todo < f
        invariant diffs.Plus(CompareFields(todo, g, at)) == old(diffs).Plus(CompareFields(f, g, at))
        decreases todo
      {
        var sub := at + [Key(todo.key)];
        PlusAssoc(diffs, CompareField(todo.key, todo.value, g, sub), CompareFields(todo.rest, g, at));
        CompareOne(todo.key, todo.value, g, sub);
        todo := todo.rest;
      }
      PlusNothing(diffs);
    }

    method CompareOne(key: string, v: Json, g: Fields, at: Path)
      modifies this
      ensures diffs == old(diffs).Plus(CompareField(key, v, g, at))
      decreases v, 2
    {
      if Get(g, key) == None {
        diffs := diffs.(removed := diffs.removed + [Removed(at, Stringy(v))]);
      } else {
        ComparePayload(v, Get(g, key).value, at);
      }
    }

    method CompareAllItems(xs: Items, ys: Items, at: Path)
      requires ItemCount(xs) == ItemCount(ys)
      modifies this
      ensures diffs == old(diffs).Plus(CompareItems(xs, ys, at, 0))
      decreases xs, 0
    {
      var a, b, i := xs, ys, 0;
      while a.Item?
        invariant i >= 0 && ItemCount(a) == ItemCount(b) && (a == xs || a < xs)
        invariant diffs.Plus(CompareItems(a, b, at, i)) == old(diffs).Plus(CompareItems(xs, ys, at, 0))
        decreases a
      {
        PlusAssoc(diffs, Compare(a.head, b.head, at + [Index(i)]), CompareItems(a.tail, b.tail, at, i + 1));
        ComparePayload(a.head, b.head, at + [Index(i)]);
        a, b, i := a.tail, b.tail, i + 1;
      }
      PlusNothing(diffs);
    }
  }

  lemma PlusNothing(a: Diffs)
    ensures a.Plus(NO_DIFFS) == a
  {
  }

  lemma PlusAdded(a: Diffs, keys: seq<Path>)
    ensures a.Plus(Diffs([], keys, [], [], [])) == a.(added := a.added + keys)
  {
  }

  lemma PlusAssoc(a: Diffs, b: Diffs, c: Diffs)
    ensures a.Plus(b.Plus(c)) == a.Plus(b).Plus(c)
  {
  }
}
