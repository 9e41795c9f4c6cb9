/** What the sanitiser keeps, path by path (record_web_replay.py:496-550). */
module PublicForm {
  import opened Commons
  import opened Sanitize
  import opened Neutrality
  import Differences

  // ---- File names -------------------------------------------------------------------------

  predicate Separator(c: char) { c == '/' || c == '\\' }

  /** The file name is the longest end of a path without a separator in it. */
  lemma BasenameExact(s: string)
    ensures Basename(Text(s)).Text?
    ensures var t := Basename(Text(s)).s;
      && |t| <= |s| && t == s[|s| - |t|..] && (forall i :: 0 <= i < |t| ==> !Separator(t[i]))
      && (|t| < |s| ==> Separator(s[|s| - |t| - 1]))
  {
    var k := Behind(s, |s|);
    assert forall i :: k <= i < |s| ==> s[k..][i - k] == s[i];
  }

  /** Of a list the elements are shortened, and a dictionary or an atom stays as it is. */
  lemma {:induction false} BasenameElements(n: Json, i: nat)
    ensures n.Object? || n.Atom? ==> Basename(n) == n
    ensures n.List? ==> Basename(n).List? && ItemCount(Basename(n).items) == ItemCount(n.items)
    ensures n.List? && i < ItemCount(n.items) ==> ItemAt(Basename(n).items, i) == Basename(ItemAt(n.items, i))
    decreases n, 1
  {
    if n.List? {
      BasenameCount(n.items);
      if i < ItemCount(n.items) { BasenameItem(n.items, i); }
    }
  }

  lemma {:induction false} BasenameItem(xs: Items, i: nat)
    requires i < ItemCount(xs)
    ensures i < ItemCount(BasenameItems(xs)) && ItemAt(BasenameItems(xs), i) == Basename(ItemAt(xs, i))
    decreases xs
  {
    if i > 0 { BasenameItem(xs.tail, i - 1); }
  }

  // ---- Dirt ---------------------------------------------------------------------------------

  /** The string that is kept for s at a path: itself where strings stay verbatim, else rewritten. */
  function Form(p: Policy, s: string, at: Path): string {
    if p.verbatim(at) then s else p.rename(s)
  }

  /** From the node at `at`, steps through lists alone lead to a string whose form is dirty there. */
  predicate DirtyAt(p: Policy, n: Json, at: Path, steps: seq<nat>)
    decreases |steps|
  {
    match n
    case Text(s) => steps == [] && p.dirty(Form(p, s, at), at)
    case List(xs) =>
      steps != [] && steps[0] < ItemCount(xs) && DirtyAt(p, ItemAt(xs, steps[0]), at + [Index(steps[0])], steps[1..])
    case _ => false
  }

  ghost predicate Dirty(p: Policy, n: Json, at: Path) {
    exists steps :: DirtyAt(p, n, at, steps)
  }

  /** A value goes exactly if lists alone lead from it to a dirty string; a dictionary in between keeps it. */
  lemma {:induction false} DirtyExact(p: Policy, n: Json, at: Path)
    ensures Public(p, n, at) == None <==> Dirty(p, n, at)
    decreases Size(n)
  {
    match n {
      case Text(s) => if p.dirty(Form(p, s, at), at) { assert DirtyAt(p, n, at, []); }
      case List(xs) => DirtyListExact(p, xs, at);
      case _ =>
    }
  }

  /** Element j of a list whose first element has index i. */
  ghost predicate DirtyItem(p: Policy, xs: Items, at: Path, i: nat, j: nat)
    requires i <= j < i + ItemCount(xs)
  {
    Dirty(p, ItemAt(xs, j - i), at + [Index(j)])
  }

  lemma {:induction false} DirtyListExact(p: Policy, xs: Items, at: Path)
    ensures PublicItems(p, xs, at, 0) == None <==> Dirty(p, List(xs), at)
    decreases ItemsSize(xs), 1
  {
    DirtyItemsExact(p, xs, at, 0);
    if j :| 0 <= j < 0 + ItemCount(xs) && DirtyItem(p, xs, at, 0, j) {
      var steps :| DirtyAt(p, ItemAt(xs, j), at + [Index(j)], steps);
      DirtyFromItem(p, xs, at, j, steps);
    }
    if Dirty(p, List(xs), at) {
      var steps :| DirtyAt(p, List(xs), at, steps);
      assert DirtyAt(p, ItemAt(xs, steps[0]), at + [Index(steps[0])], steps[1..]);
      assert DirtyItem(p, xs, at, 0, steps[0]);
    }
  }

  lemma DirtyFromItem(p: Policy, xs: Items, at: Path, j: nat, steps: seq<nat>)
    requires j < ItemCount(xs) && DirtyAt(p, ItemAt(xs, j), at + [Index(j)], steps)
    ensures Dirty(p, List(xs), at)
  {
    var all := [j] + steps;
    assert all[0] == j && all[1..] == steps;
    assert DirtyAt(p, List(xs), at, all);
  }

  lemma {:induction false} DirtyItemsExact(p: Policy, xs: Items, at: Path, i: nat)
    ensures PublicItems(p, xs, at, i) == None <==>
      exists j :: i <= j < i + ItemCount(xs) && DirtyItem(p, xs, at, i, j)
    decreases ItemsSize(xs), 0
  {
    if xs.Item? {
      DirtyExact(p, xs.head, at + [Index(i)]);
      DirtyItemsExact(p, xs.tail, at, i + 1);
      DirtyItemStep(p, xs, at, i, i);
      var next := i + 1;
      if j :| next <= j < next + ItemCount(xs.tail) && DirtyItem(p, xs.tail, at, next, j) {
        DirtyItemStep(p, xs, at, i, j);
      }
      if j :| i < j < i + ItemCount(xs) && DirtyItem(p, xs, at, i, j) {
        DirtyItemStep(p, xs, at, i, j);
      }
    }
  }

  lemma DirtyItemStep(p: Policy, xs: Items, at: Path, i: nat, j: nat)
    requires i <= j < i + ItemCount(xs)
    ensures DirtyItem(p, xs, at, i, j) ==
      if j == i then Dirty(p, xs.head, at + [Index(i)]) else DirtyItem(p, xs.tail, at, i + 1, j)
  {
    assert j > i ==> ItemAt(xs, j - i) == ItemAt(xs.tail, j - (i + 1));
  }

  // ---- What is kept ---------------------------------------------------------------------------

  /** What stands at the end of a path. */
  datatype Node = DictNode | ListNode(count: nat) | TextNode(s: string) | AtomNode(leaf: Leaf)

  function NodeOf(n: Json): Node {
    match n
    case Object(_) => DictNode
    case List(xs) => ListNode(ItemCount(xs))
    case Text(s) => TextNode(s)
    case Atom(l) => AtomNode(l)
  }

  /** The node that the steps of q from d on lead to. */
  function NodeAt(n: Json, q: Path, d: nat): Option<Node>
    requires d <= |q|
    decreases |q| - d
  {
    if d == |q| then Some(NodeOf(n))
    else
      match (n, q[d])
      case (Object(f), Key(k)) => if Get(f, k).Some? then NodeAt(Get(f, k).value, q, d + 1) else None
      case (List(xs), Index(i)) => if i < ItemCount(xs) then NodeAt(ItemAt(xs, i), q, d + 1) else None
      case _ => None
  }

  /**
   * The node expected at path q of the public recording: none below an entry that the policy drops or
   * whose value is dirty, else the node of the recording, strings in the form of their path.
   */
  ghost function Expected(p: Policy, n: Json, q: Path, d: nat): Option<Node>
    requires d <= |q|
    decreases |q| - d
  {
    if d == |q| then Some(if n.Text? then TextNode(Form(p, n.s, q)) else NodeOf(n))
    else
      match (n, q[d])
      case (Object(f), Key(k)) =>
        if Get(f, k).None? || p.drop(q[..d + 1]).Some? then None
        else
          var v := if p.basename(k) then Basename(Get(f, k).value) else Get(f, k).value;
          if Dirty(p, v, q[..d + 1]) then None else Expected(p, v, q, d + 1)
      case (List(xs), Index(i)) => if i < ItemCount(xs) then Expected(p, ItemAt(xs, i), q, d + 1) else None
      case _ => None
  }

  /** A recording that is made public has exactly the expected node at every path. */
  lemma {:induction false} PublicExact(p: Policy, n: Json, q: Path, d: nat)
    requires d <= |q| && Distinct(n) && Public(p, n, q[..d]).Some?
    ensures NodeAt(Public(p, n, q[..d]).value, q, d) == Expected(p, n, q, d)
    decreases |q| - d
  {
    assert q[..|q|] == q;
    if d == |q| {
      if n.List? { PublicCount(p, n.items, q, 0); }
    } else {
      assert q[..d] + [q[d]] == q[..d + 1];
      match (n, q[d]) {
        case (Object(f), Key(k)) => FieldExact(p, f, k, q, d);
        case (List(xs), Index(i)) => ItemExact(p, xs, i, q, d);
        case _ =>
      }
    }
  }

  lemma {:induction false} FieldExact(p: Policy, f: Fields, k: string, q: Path, d: nat)
    requires d < |q| && q[d] == Key(k) && DistinctFields(f)
    ensures NodeAt(Object(PublicFields(p, f, q[..d])), q, d) == Expected(p, Object(f), q, d)
    decreases |q| - d, 0
  {
    var at, sub := q[..d], q[..d + 1];
    assert at + [Key(k)] == sub;
    PublicFieldsDistinct(p, f, at);
    if Get(f, k).Some? {
      var v := Get(f, k).value;
      PublicGet(p, f, at, k);
      Differences.DistinctGet(f, k);
      DistinctBasename(v);
      DirtyExact(p, Entering(p, k, v), sub);
      if PublicField(p, k, v, sub).Some? { PublicExact(p, Entering(p, k, v), q, d + 1); }
    }
  }

  lemma {:induction false} ItemExact(p: Policy, xs: Items, i: nat, q: Path, d: nat)
    requires d < |q| && q[d] == Index(i) && DistinctItems(xs) && PublicItems(p, xs, q[..d], 0).Some?
    ensures NodeAt(List(PublicItems(p, xs, q[..d], 0).value), q, d) == Expected(p, List(xs), q, d)
    decreases |q| - d, 0
  {
    var at, sub := q[..d], q[..d + 1];
    assert at + [Index(i)] == sub;
    PublicCount(p, xs, at, 0);
    if i < ItemCount(xs) {
      PublicItem(p, xs, at, 0, i);
      PublicExact(p, ItemAt(xs, i), q, d + 1);
    }
  }

  lemma {:induction false} PublicCount(p: Policy, xs: Items, at: Path, i: nat)
    requires PublicItems(p, xs, at, i).Some?
    ensures ItemCount(PublicItems(p, xs, at, i).value) == ItemCount(xs)
    decreases xs
  {
    if xs.Item? { PublicCount(p, xs.tail, at, i + 1); }
  }

  lemma {:induction false} PublicItem(p: Policy, xs: Items, at: Path, i: nat, j: nat)
    requires PublicItems(p, xs, at, i).Some? && i <= j < i + ItemCount(xs) && DistinctItems(xs)
    ensures var ys := PublicItems(p, xs, at, i).value;
      && ItemCount(ys) == ItemCount(xs) && Distinct(ItemAt(xs, j - i))
      && Public(p, ItemAt(xs, j - i), at + [Index(j)]) == Some(ItemAt(ys, j - i))
    decreases xs
  {
    PublicCount(p, xs, at, i);
    if j > i { PublicItem(p, xs.tail, at, i + 1, j); }
  }

  // ---- What is logged -------------------------------------------------------------------------

  /**
   * A log line of this kind is due for path q: the entry is dropped by the policy, its value is
   * shortened or dirty. Below a dropped entry nothing is logged, nor behind the first dirty element.
   */
  ghost predicate Due(p: Policy, n: Json, kind: Kind, q: Path, d: nat)
    requires d <= |q|
    decreases |q| - d, 0
  {
    d < |q| &&
    match (n, q[d])
    case (Object(f), Key(k)) => Get(f, k).Some? && DueField(p, k, Get(f, k).value, kind, q, d + 1)
    case (List(xs), Index(i)) =>
      i < ItemCount(xs) && CleanBefore(p, xs, q[..d], 0, i) && Due(p, ItemAt(xs, i), kind, q, d + 1)
    case _ => false
  }

  ghost predicate CleanBefore(p: Policy, xs: Items, at: Path, i: nat, j: nat)
    requires i <= j < i + ItemCount(xs)
  {
    forall m :: i <= m < j ==> !DirtyItem(p, xs, at, i, m)
  }

  ghost predicate DueField(p: Policy, key: string, v: Json, kind: Kind, q: Path, d: nat)
    requires d <= |q|
    decreases |q| - d, 1
  {
    if p.drop(q[..d]).Some? then d == |q| && p.drop(q[..d]) == Some(kind)
    else
      var w := if p.basename(key) then Basename(v) else v;
      || (d == |q| && kind == Basenamed && p.basename(key))
      || (d == |q| && kind == DropDirty && Dirty(p, w, q[..d]))
      || Due(p, w, kind, q, d)
  }

  /** Exactly the lines that are due are logged. */
  lemma {:induction false} LogExact(p: Policy, n: Json, at: Path, kind: Kind, q: Path)
    requires Distinct(n)
    ensures Entry(kind, q) in Logged(p, n, at) <==> at <= q && Due(p, n, kind, q, |at|)
    decreases Size(n)
  {
    assert at <= q ==> q[..|at|] == at;
    match n {
      case Object(f) => FieldsLogExact(p, f, at, kind, q);
      case List(xs) => ItemsLogExact(p, xs, at, 0, kind, q);
      case _ =>
    }
  }

  lemma {:induction false} FieldsLogExact(p: Policy, f: Fields, at: Path, kind: Kind, q: Path)
    requires DistinctFields(f)
    ensures Entry(kind, q) in FieldsLogged(p, f, at) <==>
      at <= q && |at| < |q| && q[|at|].Key? && Get(f, q[|at|].k).Some? &&
      DueField(p, q[|at|].k, Get(f, q[|at|].k).value, kind, q, |at| + 1)
    decreases FieldsSize(f)
  {
    if f.Field? {
      FieldLogExact(p, f.key, f.value, at, kind, q);
      FieldsLogExact(p, f.rest, at, kind, q);
      Differences.ThroughStep(q, at, Key(f.key));
    }
  }

  lemma FieldLines(p: Policy, key: string, v: Json, sub: Path, e: Entry)
    ensures e in FieldLogged(p, key, v, sub) <==>
      match p.drop(sub)
      case Some(kind) => e == Entry(kind, sub)
      case None =>
        || (p.basename(key) && e == Entry(Basenamed, sub)) || e in Logged(p, Entering(p, key, v), sub)
        || (PublicField(p, key, v, sub) == None && e == Entry(DropDirty, sub))
  {
  }

  lemma {:induction false} FieldLogExact(p: Policy, key: string, v: Json, at: Path, kind: Kind, q: Path)
    requires Distinct(v)
    ensures Entry(kind, q) in FieldLogged(p, key, v, at + [Key(key)]) <==>
      Differences.Through(q, at, Key(key)) && DueField(p, key, v, kind, q, |at| + 1)
    decreases Size(v) + 1
  {
    var sub, w := at + [Key(key)], Entering(p, key, v);
    Differences.ThroughStep(q, at, Key(key));
    FieldLines(p, key, v, sub, Entry(kind, q));
    DistinctBasename(v);
    DirtyExact(p, w, sub);
    LogExact(p, w, sub, kind, q);
    assert sub <= q ==> q[..|sub|] == sub;
  }

  /** q goes through an element behind clean ones only, and the line is due there. */
  ghost predicate DueItem(p: Policy, xs: Items, at: Path, i: nat, kind: Kind, q: Path) {
    at <= q && |at| < |q| &&
    match q[|at|]
    case Index(j) =>
      i <= j < i + ItemCount(xs) && CleanBefore(p, xs, at, i, j) && Due(p, ItemAt(xs, j - i), kind, q, |at| + 1)
    case Key(_) => false
  }

  lemma {:induction false} ItemsLogExact(p: Policy, xs: Items, at: Path, i: nat, kind: Kind, q: Path)
    requires DistinctItems(xs)
    ensures Entry(kind, q) in ItemsLogged(p, xs, at, i) <==> DueItem(p, xs, at, i, kind, q)
    decreases ItemsSize(xs)
  {
    if xs.Item? {
      LogExact(p, xs.head, at + [Index(i)], kind, q);
      DirtyExact(p, xs.head, at + [Index(i)]);
      ItemsLogExact(p, xs.tail, at, i + 1, kind, q);
      DueItemStep(p, xs, at, i, i + 1, kind, q);
    }
  }

  lemma DueItemStep(p: Policy, xs: Items, at: Path, i: nat, next: nat, kind: Kind, q: Path)
    requires xs.Item? && next == i + 1
    ensures DueItem(p, xs, at, i, kind, q) == (
      || (at + [Index(i)] <= q && Due(p, xs.head, kind, q, |at| + 1))
      || (!Dirty(p, xs.head, at + [Index(i)]) && DueItem(p, xs.tail, at, next, kind, q)))
  {
    Differences.ThroughStep(q, at, Index(i));
    if at <= q && |at| < |q| && q[|at|].Index? && i < q[|at|].i < i + ItemCount(xs) {
      CleanBeforeStep(p, xs, at, i, next, q[|at|].i);
    }
  }

  lemma CleanBeforeStep(p: Policy, xs: Items, at: Path, i: nat, next: nat, j: nat)
    requires next == i + 1 <= j < i + ItemCount(xs)
    ensures CleanBefore(p, xs, at, i, j) ==
      (!Dirty(p, xs.head, at + [Index(i)]) && CleanBefore(p, xs.tail, at, next, j))
  {
    DirtyItemStep(p, xs, at, i, i);
    if CleanBefore(p, xs, at, i, j) {
      forall m | next <= m < j
        ensures !DirtyItem(p, xs.tail, at, next, m)
      {
        DirtyItemStep(p, xs, at, i, m);
      }
    } else {
      var m :| i <= m < j && DirtyItem(p, xs, at, i, m);
      DirtyItemStep(p, xs, at, i, m);
    }
  }
}
