/** Blanking, conditional preprocessing and line numbers of register descriptions (check_feature_flags.py). */
module Rdl {
  // ---- Comments and strings -------------------------------------------------------

  datatype Mode = Normal | InString | InLine | InBlock

  function Blank(c: char): string { if c == '\n' then "\n" else " " }

  /** Two characters open or close a comment. */
  predicate Pair(t: string, a: char, b: char) { |t| > 1 && t[0] == a && t[1] == b }

  /** The text with strings and comments blanked, read from a mode on. */
  function Clean(t: string, m: Mode): string
    decreases |t|
  {
    if t == "" then ""
    else match m
      case Normal =>
        if t[0] == '"' then " " + Clean(t[1..], InString)
        else if Pair(t, '/', '/') then "  " + Clean(t[2..], InLine)
        else if Pair(t, '/', '*') then "  " + Clean(t[2..], InBlock)
        else [t[0]] + Clean(t[1..], Normal)
      case InString => Blank(t[0]) + Clean(t[1..], if t[0] == '"' then Normal else InString)
      case InLine => Blank(t[0]) + Clean(t[1..], if t[0] == '\n' then Normal else InLine)
      case InBlock =>
        if Pair(t, '*', '/') then "  " + Clean(t[2..], Normal) else Blank(t[0]) + Clean(t[1..], InBlock)
  }

  method RdlClean(text: string) returns (out: string)
    ensures out == Clean(text, Normal)
  {
    out := "";
    var i := 0;
    var m := Normal;
    while i < |text|
      invariant 0 <= i <= |text| && out + Clean(text[i..], m) == Clean(text, Normal)
    {
      var t := text[i..];
      var piece, next, step := CleanStep(t, m);
      CleanUnfolds(t, m);
      assert text[i + step..] == t[step..];
      AppendAssoc(out, piece, Clean(t[step..], next));
      out := out + piece;
      m := next;
      i := i + step;
    }
    assert out + "" == out;
  }

  lemma AppendAssoc(a: string, b: string, c: string)
    ensures a + (b + c) == (a + b) + c
  {
  }

  /** One round of the character machine: what it appends, the next mode, and how far it moves. */
  method CleanStep(t: string, m: Mode) returns (piece: string, next: Mode, step: nat)
    requires t != ""
    ensures (piece, next, step) == Step(t, m)
  {
    var c := t[0];
    match m
    case Normal =>
      if c == '"' {
        return " ", InString, 1;
      } else if c == '/' && 1 < |t| && t[1] == '/' {
        return "  ", InLine, 2;
      } else if c == '/' && 1 < |t| && t[1] == '*' {
        return "  ", InBlock, 2;
      } else {
        return [c], Normal, 1;
      }
    case InString =>
      return if c == '\n' then "\n" else " ", if c == '"' then Normal else InString, 1;
    case InLine =>
      if c == '\n' {
        return "\n", Normal, 1;
      }
      return " ", InLine, 1;
    case InBlock =>
      if c == '*' && 1 < |t| && t[1] == '/' {
        return "  ", Normal, 2;
      }
      return if c == '\n' then "\n" else " ", InBlock, 1;
  }

  function Step(t: string, m: Mode): (string, Mode, nat)
    requires t != ""
  {
    match m
    case Normal =>
      if t[0] == '"' then (" ", InString, 1)
      else if Pair(t, '/', '/') then ("  ", InLine, 2)
      else if Pair(t, '/', '*') then ("  ", InBlock, 2)
      else ([t[0]], Normal, 1)
    case InString => (Blank(t[0]), if t[0] == '"' then Normal else InString, 1)
    case InLine => (Blank(t[0]), if t[0] == '\n' then Normal else InLine, 1)
    case InBlock => if Pair(t, '*', '/') then ("  ", Normal, 2) else (Blank(t[0]), InBlock, 1)
  }

  lemma CleanUnfolds(t: string, m: Mode)
    requires t != ""
    ensures var (piece, next, step) := Step(t, m);
      step <= |t| && Clean(t, m) == piece + Clean(t[step..], next)
  {
  }

  /** Length and newline positions are kept; every other character is kept or blanked. */
  lemma {:induction false} CleanKeepsShape(t: string, m: Mode)
    ensures |Clean(t, m)| == |t|
    ensures forall k :: 0 <= k < |t| ==>
      (Clean(t, m)[k] == '\n' <==> t[k] == '\n') && (Clean(t, m)[k] == t[k] || Clean(t, m)[k] == ' ')
    decreases |t|
  {
    if t != "" {
      var (piece, next, step) := Step(t, m);
      CleanUnfolds(t, m);
      var rest := t[step..];
      CleanKeepsShape(rest, next);
      forall k | 0 <= k < |t|
        ensures (Clean(t, m)[k] == '\n' <==> t[k] == '\n') && (Clean(t, m)[k] == t[k] || Clean(t, m)[k] == ' ')
      {
        if k >= step { assert t[k] == rest[k - step] && Clean(t, m)[k] == Clean(rest, next)[k - step]; }
      }
    }
  }

  /** The lexical structure of a description: code characters, strings and the two kinds of comment. */
  datatype Piece = Code(c: char) | Str(body: string) | LineComment(body: string) | BlockComment(body: string)

  function Text(p: Piece): string {
    match p
    case Code(c) => [c]
    case Str(body) => "\"" + (body + "\"")
    case LineComment(body) => "//" + (body + "\n")
    case BlockComment(body) => "/*" + (body + "*/")
  }

  /** What should remain of a piece: code as it is, everything else blank but for line breaks. */
  function Blanked(p: Piece): string {
    match p
    case Code(c) => [c]
    case _ => BlankAll(Text(p))
  }

  function BlankAll(t: string): string {
    if t == "" then "" else Blank(t[0]) + BlankAll(t[1..])
  }

  /** Blanking leaves the line breaks and turns every other character into a space. */
  lemma {:induction false} BlankAllExact(t: string)
    ensures |BlankAll(t)| == |t|
    ensures forall i :: 0 <= i < |t| ==> BlankAll(t)[i] == if t[i] == '\n' then '\n' else ' '
  {
    if t != "" { BlankAllExact(t[1..]); }
  }

  /** The piece reads as what it is when `rest` follows. */
  predicate Lexes(p: Piece, rest: string) {
    match p
    case Code(c) => c != '"' && (c == '/' ==> rest == "" || (rest[0] != '/' && rest[0] != '*'))
    case Str(body) => '"' !in body
    case LineComment(body) => '\n' !in body
    case BlockComment(body) => forall k :: 0 <= k < |body| ==> !Pair((body + "*/")[k..], '*', '/')
  }

  lemma ConsTail(c: string, t: string)
    requires |c| > 0
    ensures (c + t)[0] == c[0] && (c + t)[1..] == c[1..] + t
  {
  }

  lemma {:induction false} CleanString(body: string, rest: string)
    requires '"' !in body
    ensures Clean(body + "\"" + rest, InString) == BlankAll(body + "\"") + Clean(rest, Normal)
    decreases |body|
  {
    var t := body + "\"" + rest;
    ConsTail(body + "\"", rest);
    if body == "" {
      assert t[1..] == rest;
      assert BlankAll("\"") == " " + BlankAll("");
    } else {
      CleanString(body[1..], rest);
      assert t[1..] == body[1..] + "\"" + rest;
      assert (body + "\"")[1..] == body[1..] + "\"";
    }
  }

  lemma {:induction false} CleanLine(body: string, rest: string)
    requires '\n' !in body
    ensures Clean(body + "\n" + rest, InLine) == BlankAll(body + "\n") + Clean(rest, Normal)
    decreases |body|
  {
    var t := body + "\n" + rest;
    ConsTail(body + "\n", rest);
    if body == "" {
      assert t[1..] == rest;
      assert BlankAll("\n") == "\n" + BlankAll("");
    } else {
      CleanLine(body[1..], rest);
      assert t[1..] == body[1..] + "\n" + rest;
      assert (body + "\n")[1..] == body[1..] + "\n";
    }
  }

  lemma {:induction false} CleanBlock(body: string, rest: string)
    requires forall k :: 0 <= k < |body| ==> !Pair((body + "*/")[k..], '*', '/')
    ensures Clean(body + "*/" + rest, InBlock) == BlankAll(body + "*/") + Clean(rest, Normal)
    decreases |body|
  {
    var b := body + "*/";
    var t := b + rest;
    ConsTail(b, rest);
    if body == "" {
      assert t[2..] == rest && Pair(t, '*', '/');
      assert b[1..] == "/" && b[1..][1..] == "";
      assert BlankAll(b) == " " + (" " + BlankAll(""));
    } else {
      assert !Pair(b[0..], '*', '/') && b[0..] == b;
      assert t[1] == b[1];
      forall k | 0 <= k < |body[1..]|
        ensures !Pair((body[1..] + "*/")[k..], '*', '/')
      {
        assert (body[1..] + "*/")[k..] == b[k + 1..];
        assert !Pair(b[k + 1..], '*', '/');
      }
      CleanBlock(body[1..], rest);
      assert b[1..] == body[1..] + "*/";
    }
  }

  /** Each piece is blanked as a whole, whatever follows it. */
  lemma CleanPiece(p: Piece, rest: string)
    requires Lexes(p, rest)
    ensures Clean(Text(p) + rest, Normal) == Blanked(p) + Clean(rest, Normal)
  {
    match p
    case Code(c) => assert (Text(p) + rest)[1..] == rest;
    case Str(body) => PieceString(body, rest);
    case LineComment(body) => CleanLine(body, rest); PieceComment(Text(p), '/', body + "\n", rest);
    case BlockComment(body) => CleanBlock(body, rest); PieceComment(Text(p), '*', body + "*/", rest);
  }

  lemma PieceString(body: string, rest: string)
    requires '"' !in body
    ensures Clean(Text(Str(body)) + rest, Normal) == Blanked(Str(body)) + Clean(rest, Normal)
  {
    var t := Text(Str(body));
    CleanString(body, rest);
    Opened(t + rest, body + "\"" + rest, '"');
    OneBlank(t, body + "\"");
  }

  lemma PieceComment(t: string, c: char, u: string, rest: string)
    requires t == ['/', c] + u && (c == '/' || c == '*')
    requires Clean(u + rest, if c == '/' then InLine else InBlock) == BlankAll(u) + Clean(rest, Normal)
    ensures Clean(t + rest, Normal) == BlankAll(t) + Clean(rest, Normal)
  {
    assert t + rest == ['/', c] + (u + rest);
    assert t[0] == '/' && t[1] == c && t[2..] == u;
    OpenedPair(t + rest, u + rest, c);
    TwoBlanks(t, u);
    Glue(Clean(t + rest, Normal), BlankAll(u), BlankAll(t), Clean(rest, Normal));
  }

  lemma Glue(all: string, u: string, t: string, r: string)
    requires all == "  " + (u + r) && t == "  " + u
    ensures all == t + r
  {
  }

  lemma Opened(t: string, u: string, c: char)
    requires t == [c] + u && c == '"'
    ensures Clean(t, Normal) == " " + Clean(u, InString)
  {
    assert t[1..] == u;
  }

  lemma OpenedPair(t: string, u: string, c: char)
    requires t == ['/', c] + u && (c == '/' || c == '*')
    ensures Clean(t, Normal) == "  " + Clean(u, if c == '/' then InLine else InBlock)
  {
    assert t[2..] == u;
  }

  lemma OneBlank(t: string, u: string)
    requires |t| >= 1 && t[0] != '\n' && t[1..] == u
    ensures BlankAll(t) == " " + BlankAll(u)
  {
  }

  lemma TwoBlanks(t: string, u: string)
    requires |t| >= 2 && t[0] != '\n' && t[1] != '\n' && t[2..] == u
    ensures BlankAll(t) == "  " + BlankAll(u)
  {
    assert t[1..][1..] == u;
    assert BlankAll(t[1..]) == " " + BlankAll(u);
    assert BlankAll(t) == " " + (" " + BlankAll(u));
  }

  datatype Pieces = Done | Next(first: Piece, more: Pieces)

  function TextOf(ps: Pieces): string {
    match ps
    case Done => ""
    case Next(p, more) => Text(p) + TextOf(more)
  }

  function BlankedOf(ps: Pieces): string {
    match ps
    case Done => ""
    case Next(p, more) => Blanked(p) + BlankedOf(more)
  }

  predicate Lexed(ps: Pieces) {
    match ps
    case Done => true
    case Next(p, more) => Lexes(p, TextOf(more)) && Lexed(more)
  }

  /** The character machine is the lexer: exactly the strings and comments are blanked. */
  lemma {:induction false} CleanIsLexical(ps: Pieces)
    requires Lexed(ps)
    ensures Clean(TextOf(ps), Normal) == BlankedOf(ps)
  {
    match ps
    case Done =>
    case Next(p, more) =>
      CleanPiece(p, TextOf(more));
      CleanIsLexical(more);
  }

  // ---- Conditionals -------------------------------------------------------------------

  datatype Kind = IfDef | IfNDef | Else | EndIf | Include | Plain

  /** Open conditionals: is the current branch active, and was an active branch seen. */
  datatype Conds = Conds(active: seq<bool>, taken: seq<bool>, out: seq<string>)

  function Process(st: Conds, line: string, kind: Kind): Conds
    requires |st.active| == |st.taken|
  {
    var n := |st.active|;
    match kind
    case IfDef => Conds(st.active + [false], st.taken + [false], st.out + [""])
    case IfNDef => Conds(st.active + [true], st.taken + [true], st.out + [""])
    case Else =>
      if n > 0 then
        Conds(st.active[..n - 1] + [!st.taken[n - 1]], st.taken[..n - 1] + [true], st.out + [""])
      else st.(out := st.out + [""])
    case EndIf =>
      if n > 0 then Conds(st.active[..n - 1], st.taken[..n - 1], st.out + [""]) else st.(out := st.out + [""])
    case Include => st.(out := st.out + [""])
    case Plain => st.(out := st.out + [if AllActive(st.active) then line else ""])
  }

  predicate AllActive(active: seq<bool>) { forall k :: 0 <= k < |active| ==> active[k] }

  /** Line kinds are whatever the directive patterns say they are. */
  type Classify = string -> Kind

  function ProcessAll(st: Conds, lines: seq<string>, kind: Classify, n: nat): (r: Conds)
    requires |st.active| == |st.taken| && n <= |lines|
    ensures |r.active| == |r.taken|
  {
    if n == 0 then st else Process(ProcessAll(st, lines, kind, n - 1), lines[n - 1], kind(lines[n - 1]))
  }

  const CLOSED: Conds := Conds([], [], [])

  method RdlPreprocess(lines: seq<string>, kind: Classify) returns (out: seq<string>)
    ensures out == ProcessAll(CLOSED, lines, kind, |lines|).out
  {
    out := [];
    var active: seq<bool>, taken: seq<bool> := [], [];
    for i := 0 to |lines|
      invariant |active| == |taken| && Conds(active, taken, out) == ProcessAll(CLOSED, lines, kind, i)
    {
      var n := |active|;
      match kind(lines[i]) {
        case IfDef =>
          active, taken, out := active + [false], taken + [false], out + [""];
        case IfNDef =>
          active, taken, out := active + [true], taken + [true], out + [""];
        case Else =>
          if n > 0 {
            active, taken := active[..n - 1] + [!taken[n - 1]], taken[..n - 1] + [true];
          }
          out := out + [""];
        case EndIf =>
          if n > 0 {
            active, taken := active[..n - 1], taken[..n - 1];
          }
          out := out + [""];
        case Include =>
          out := out + [""];
        case Plain =>
          out := out + [if AllActive(active) then lines[i] else ""];
      }
    }
  }

  /** Well-nested conditionals as trees: a body and an optional else part. */
  datatype Node = Leaf(line: string) | Cond(open: string, body: Nodes, alt: Alt, close: string)
  datatype Alt = NoElse | ElsePart(line: string, body: Nodes)
  datatype Nodes = Empty | Cons(before: Nodes, last: Node)

  function LinesOf(ns: Nodes): seq<string> {
    match ns
    case Empty => []
    case Cons(before, last) => LinesOf(before) + NodeLines(last)
  }

  function NodeLines(n: Node): seq<string> {
    match n
    case Leaf(line) => [line]
    case Cond(open, body, alt, close) => [open] + LinesOf(body) + AltLines(alt) + [close]
  }

  function AltLines(a: Alt): seq<string> {
    match a
    case NoElse => []
    case ElsePart(line, body) => [line] + LinesOf(body)
  }

  predicate Classified(ns: Nodes, kind: Classify) {
    match ns
    case Empty => true
    case Cons(before, last) => Classified(before, kind) && NodeClassified(last, kind)
  }

  predicate NodeClassified(n: Node, kind: Classify) {
    match n
    case Leaf(line) => kind(line) == Plain || kind(line) == Include
    case Cond(open, body, alt, close) =>
      (kind(open) == IfDef || kind(open) == IfNDef) && kind(close) == EndIf
      && Classified(body, kind) && (alt.ElsePart? ==> kind(alt.line) == Else && Classified(alt.body, kind))
  }

  /** The meaning with an empty define set: `ifdef bodies are off, `ifndef bodies on, else the other way round. */
  function Meaning(ns: Nodes, kind: Classify, on: bool): seq<string> {
    match ns
    case Empty => []
    case Cons(before, last) => Meaning(before, kind, on) + NodeMeaning(last, kind, on)
  }

  function NodeMeaning(n: Node, kind: Classify, on: bool): seq<string> {
    match n
    case Leaf(line) => [if on && kind(line) == Plain then line else ""]
    case Cond(open, body, alt, close) =>
      var defined := kind(open) == IfNDef;
      [""] + Meaning(body, kind, on && defined)
        + (match alt case NoElse => [] case ElsePart(_, b) => [""] + Meaning(b, kind, on && !defined)) + [""]
  }

  lemma {:induction false} ProcessAppend(st: Conds, a: seq<string>, b: seq<string>, kind: Classify, n: nat)
    requires |st.active| == |st.taken| && n <= |b|
    ensures ProcessAll(st, a + b, kind, |a| + n)
      == ProcessAll(ProcessAll(st, a, kind, |a|), b, kind, n)
    decreases n
  {
    if n == 0 {
      ProcessPrefix(st, a, b, kind, |a|);
    } else {
      ProcessAppend(st, a, b, kind, n - 1);
      assert (a + b)[|a| + n - 1] == b[n - 1];
    }
  }

  lemma {:induction false} ProcessPrefix(st: Conds, a: seq<string>, b: seq<string>, kind: Classify, n: nat)
    requires |st.active| == |st.taken| && n <= |a|
    ensures ProcessAll(st, a + b, kind, n) == ProcessAll(st, a, kind, n)
  {
    if n > 0 { ProcessPrefix(st, a, b, kind, n - 1); }
  }

  function Whole(st: Conds, lines: seq<string>, kind: Classify): Conds
    requires |st.active| == |st.taken|
  {
    ProcessAll(st, lines, kind, |lines|)
  }

  lemma WholeAppend(st: Conds, a: seq<string>, b: seq<string>, kind: Classify)
    requires |st.active| == |st.taken|
    ensures |Whole(st, a, kind).active| == |Whole(st, a, kind).taken|
    ensures Whole(st, a + b, kind) == Whole(Whole(st, a, kind), b, kind)
  {
    ProcessAppend(st, a, b, kind, |b|);
  }

  lemma WholeOne(st: Conds, line: string, kind: Classify)
    requires |st.active| == |st.taken|
    ensures Whole(st, [line], kind) == Process(st, line, kind(line))
  {
    assert ProcessAll(st, [line], kind, 0) == st;
  }

  lemma AllActivePush(active: seq<bool>, b: bool)
    ensures AllActive(active + [b]) <==> AllActive(active) && b
  {
    assert (active + [b])[|active|] == b;
    assert forall k :: 0 <= k < |active| ==> (active + [b])[k] == active[k];
  }

  /** The stack machine computes the recursive meaning and leaves the stacks as it found them. */
  lemma {:induction false} MachineMeaning(ns: Nodes, st: Conds, kind: Classify)
    requires Classified(ns, kind) && |st.active| == |st.taken|
    ensures Whole(st, LinesOf(ns), kind) == st.(out := st.out + Meaning(ns, kind, AllActive(st.active)))
    decreases ns, 0
  {
    match ns
    case Empty =>
    case Cons(before, last) =>
      MachineMeaning(before, st, kind);
      var mid := st.(out := st.out + Meaning(before, kind, AllActive(st.active)));
      MachineNode(last, mid, kind);
      WholeAppend(st, LinesOf(before), NodeLines(last), kind);
      OutAssoc(st.out, Meaning(before, kind, AllActive(st.active)), NodeMeaning(last, kind, AllActive(st.active)));
  }

  lemma OutAssoc(out: seq<string>, a: seq<string>, b: seq<string>)
    ensures out + a + b == out + (a + b)
  {
  }

  lemma {:induction false} MachineNode(n: Node, st: Conds, kind: Classify)
    requires NodeClassified(n, kind) && |st.active| == |st.taken|
    ensures Whole(st, NodeLines(n), kind) == st.(out := st.out + NodeMeaning(n, kind, AllActive(st.active)))
    decreases n, 2
  {
    match n
    case Leaf(line) => WholeOne(st, line, kind);
    case Cond(open, body, alt, close) =>
      MachineBody(n, st, kind);
      if alt.NoElse? {
        MachineNoElse(n, st, kind);
      } else {
        MachineElsePart(n, st, kind);
      }
  }

  /** The state behind the body of a conditional. */
  function AfterBody(n: Node, st: Conds, kind: Classify): Conds
    requires n.Cond? && |st.active| == |st.taken|
  {
    var defined := kind(n.open) == IfNDef;
    Conds(st.active + [defined], st.taken + [defined],
          st.out + [""] + Meaning(n.body, kind, AllActive(st.active) && defined))
  }

  lemma MachineBody(n: Node, st: Conds, kind: Classify)
    requires NodeClassified(n, kind) && n.Cond? && |st.active| == |st.taken|
    ensures Whole(st, [n.open] + LinesOf(n.body), kind) == AfterBody(n, st, kind)
    decreases n, 1
  {
    var defined := kind(n.open) == IfNDef;
    var o := Conds(st.active + [defined], st.taken + [defined], st.out + [""]);
    AllActivePush(st.active, defined);
    MachineMeaning(n.body, o, kind);
    OpensTo(st, n.open, LinesOf(n.body), o, kind);
  }

  lemma MachineNoElse(n: Node, st: Conds, kind: Classify)
    requires NodeClassified(n, kind) && n.Cond? && n.alt.NoElse? && |st.active| == |st.taken|
    requires Whole(st, [n.open] + LinesOf(n.body), kind) == AfterBody(n, st, kind)
    ensures Whole(st, NodeLines(n), kind) == st.(out := st.out + NodeMeaning(n, kind, AllActive(st.active)))
  {
    var lines := [n.open] + LinesOf(n.body);
    Closes(st, lines, AfterBody(n, st, kind), n.close, kind, NodeMeaning(n, kind, AllActive(st.active)));
    assert NodeLines(n) == lines + [n.close];
  }

  lemma MachineElsePart(n: Node, st: Conds, kind: Classify)
    requires NodeClassified(n, kind) && n.Cond? && n.alt.ElsePart? && |st.active| == |st.taken|
    requires Whole(st, [n.open] + LinesOf(n.body), kind) == AfterBody(n, st, kind)
    ensures Whole(st, NodeLines(n), kind) == st.(out := st.out + NodeMeaning(n, kind, AllActive(st.active)))
    decreases n, 1
  {
    var on, defined, b := AllActive(st.active), kind(n.open) == IfNDef, n.alt.body;
    var elsePart, afterBody := [n.alt.line] + LinesOf(b), AfterBody(n, st, kind);
    var e := Conds(st.active + [!defined], st.taken + [true], afterBody.out + [""] + Meaning(b, kind, on && !defined));
    MachineElse(st, afterBody, defined, n.alt.line, b, kind);
    WholeAppend(st, [n.open] + LinesOf(n.body), elsePart, kind);
    ElseOut(st.out, Meaning(n.body, kind, on && defined), Meaning(b, kind, on && !defined));
    Closes(st, [n.open] + LinesOf(n.body) + elsePart, e, n.close, kind, NodeMeaning(n, kind, on));
  }

  lemma ElseOut(out: seq<string>, m1: seq<string>, m2: seq<string>)
    ensures out + [""] + m1 + [""] + m2 + [""] == out + ([""] + m1 + ([""] + m2) + [""])
  {
  }

  lemma OpensTo(st: Conds, open: string, body: seq<string>, o: Conds, kind: Classify)
    requires |st.active| == |st.taken| && |o.active| == |o.taken| && o == Process(st, open, kind(open))
    ensures Whole(st, [open] + body, kind) == Whole(o, body, kind)
  {
    WholeOne(st, open, kind);
    WholeAppend(st, [open], body, kind);
  }

  /** The closing line pops what the conditional pushed. */
  lemma Closes(st: Conds, lines: seq<string>, e: Conds, close: string, kind: Classify, meaning: seq<string>)
    requires |st.active| == |st.taken| && kind(close) == EndIf && Whole(st, lines, kind) == e
    requires |e.active| == |e.taken| == |st.active| + 1
    requires e.active[..|st.active|] == st.active && e.taken[..|st.active|] == st.taken
    requires e.out + [""] == st.out + meaning
    ensures Whole(st, lines + [close], kind) == st.(out := st.out + meaning)
  {
    WholeAppend(st, lines, [close], kind);
    WholeOne(e, close, kind);
    ClosesTo(st, e, close, kind, meaning);
  }

  lemma ClosesTo(st: Conds, e: Conds, close: string, kind: Classify, meaning: seq<string>)
    requires |st.active| == |st.taken| && kind(close) == EndIf
    requires |e.active| == |e.taken| == |st.active| + 1
    requires e.active[..|st.active|] == st.active && e.taken[..|st.active|] == st.taken
    requires e.out + [""] == st.out + meaning
    ensures Process(e, close, kind(close)) == st.(out := st.out + meaning)
  {
  }

  lemma MachineElse(st: Conds, afterBody: Conds, defined: bool, line: string, b: Nodes, kind: Classify)
    requires |st.active| == |st.taken| && kind(line) == Else && Classified(b, kind)
    requires afterBody.active == st.active + [defined] && afterBody.taken == st.taken + [defined]
    ensures Whole(afterBody, [line] + LinesOf(b), kind) ==
      Conds(st.active + [!defined], st.taken + [true],
            afterBody.out + [""] + Meaning(b, kind, AllActive(st.active) && !defined))
    decreases b, 1
  {
    var e := Conds(st.active + [!defined], st.taken + [true], afterBody.out + [""]);
    WholeOne(afterBody, line, kind);
    assert Process(afterBody, line, kind(line)) == e;
    AllActivePush(st.active, !defined);
    MachineMeaning(b, e, kind);
    WholeAppend(afterBody, [line], LinesOf(b), kind);
  }

  // ---- Line numbers ---------------------------------------------------------------------

  /** text.split("\n") */
  function Lines(t: string): (r: seq<string>)
    ensures |r| > 0
  {
    if t == "" then [""]
    else
      var r := Lines(t[1..]);
      if t[0] == '\n' then [""] + r else [[t[0]] + r[0]] + r[1..]
  }

  /** The first n lines joined by line breaks. */
  function Join(lines: seq<string>, n: nat): string
    requires n <= |lines|
  {
    if n == 0 then "" else if n == 1 then lines[0] else Join(lines, n - 1) + "\n" + lines[n - 1]
  }

  function Newlines(t: string, n: nat): nat
    requires n <= |t|
  {
    if n == 0 then 0 else Newlines(t, n - 1) + (if t[n - 1] == '\n' then 1 else 0)
  }

  function NewlinePositions(t: string, n: nat): (r: seq<nat>)
    requires n <= |t|
    ensures |r| == Newlines(t, n) && forall i :: 0 <= i < |r| ==> r[i] < n
    ensures forall i, j :: 0 <= i < j < |r| ==> r[i] < r[j]
  {
    if n == 0 then [] else NewlinePositions(t, n - 1) + (if t[n - 1] == '\n' then [n - 1] else [])
  }

  /** The line number of a position: a binary search over the newline positions. */
  method LineOf(t: string, nl: seq<nat>, pos: nat) returns (line: nat)
    requires pos <= |t| && nl == NewlinePositions(t, |t|)
    ensures line == Newlines(t, pos) + 1
  {
    var lo, hi := 0, |nl|;
    while lo < hi
      invariant 0 <= lo <= hi <= |nl|
      invariant forall i :: 0 <= i < lo ==> nl[i] < pos
      invariant forall i :: hi <= i < |nl| ==> nl[i] >= pos
    {
      var mid := (lo + hi) / 2;
      if nl[mid] < pos {
        lo := mid + 1;
      } else {
        hi := mid;
      }
    }
    PositionsBelow(t, |t|, pos);
    assert lo < |nl| ==> nl[lo] >= pos;
    assert lo > 0 ==> nl[lo - 1] < pos;
    return lo + 1;
  }

  /** The newline positions in front of a position come first, and are as many as the newlines there. */
  lemma {:induction false} PositionsBelow(t: string, n: nat, pos: nat)
    requires pos <= n <= |t|
    ensures Newlines(t, pos) <= |NewlinePositions(t, n)|
    ensures forall i :: 0 <= i < |NewlinePositions(t, n)| ==>
      (NewlinePositions(t, n)[i] < pos <==> i < Newlines(t, pos))
    decreases n
  {
    if pos < n { PositionsBelow(t, n - 1, pos); }
  }

  /** Lines without line breaks in them. */
  predicate Flat(lines: seq<string>) { forall k :: 0 <= k < |lines| ==> '\n' !in lines[k] }

  lemma {:induction false} LinesAreFlat(t: string)
    ensures Flat(Lines(t)) && |Lines(t)| == Newlines(t, |t|) + 1
  {
    if t != "" {
      LinesAreFlat(t[1..]);
      NewlinesTail(t, |t|);
    }
  }

  lemma {:induction false} NewlinesTail(t: string, n: nat)
    requires 0 < n <= |t|
    ensures Newlines(t, n) == (if t[0] == '\n' then 1 else 0) + Newlines(t[1..], n - 1)
  {
    if n > 1 {
      NewlinesTail(t, n - 1);
      assert t[1..][n - 2] == t[n - 1];
    }
  }

  lemma {:induction false} NewlinesAppend(a: string, b: string, n: nat)
    requires n <= |b|
    ensures Newlines(a + b, |a| + n) == Newlines(a, |a|) + Newlines(b, n)
    decreases n
  {
    if n > 0 {
      NewlinesAppend(a, b, n - 1);
      assert (a + b)[|a| + n - 1] == b[n - 1];
    } else {
      NewlinesPrefix(a, b, |a|);
    }
  }

  lemma {:induction false} NewlinesPrefix(a: string, b: string, n: nat)
    requires n <= |a|
    ensures Newlines(a + b, n) == Newlines(a, n)
  {
    if n > 0 { NewlinesPrefix(a, b, n - 1); }
  }

  lemma {:induction false} NoNewlines(t: string, n: nat)
    requires '\n' !in t && n <= |t|
    ensures Newlines(t, n) == 0
  {
    if n > 0 { NoNewlines(t, n - 1); }
  }

  /** Where line k starts in the joined text. */
  function LineStart(lines: seq<string>, k: nat): nat
    requires k < |lines|
  {
    if k == 0 then 0 else |Join(lines, k)| + 1
  }

  /** The joined text shows line k at its start, and k line breaks lie in front of every position in it. */
  lemma {:induction false} LineInJoin(lines: seq<string>, n: nat, k: nat, c: nat)
    requires Flat(lines) && k < n <= |lines| && c <= |lines[k]|
    ensures LineStart(lines, k) + |lines[k]| <= |Join(lines, n)|
    ensures Newlines(Join(lines, n), LineStart(lines, k) + c) == k
    ensures Newlines(Join(lines, n), |Join(lines, n)|) == n - 1
    decreases n
  {
    var t := lines[n - 1];
    if n == 1 {
      NoNewlines(t, c);
      NoNewlines(t, |t|);
    } else {
      var j := Join(lines, n - 1) + "\n";
      LineInJoin(lines, n - 1, if k < n - 1 then k else 0, if k < n - 1 then c else 0);
      NewlinesAppend(Join(lines, n - 1), "\n", 1);
      assert Newlines("\n", 1) == Newlines("\n", 0) + 1;
      NoNewlines(t, |t|);
      NewlinesAppend(j, t, |t|);
      if k < n - 1 {
        var p := LineStart(lines, k) + c;
        NewlinesPrefix(Join(lines, n - 1), "\n", p);
        NewlinesPrefix(j, t, p);
      } else {
        NoNewlines(t, c);
        NewlinesAppend(j, t, c);
      }
    }
  }

  /** Preprocessing keeps the lines apart: each is passed through or emptied. */
  lemma {:induction false} ProcessKeepsLines(lines: seq<string>, kind: Classify, n: nat)
    requires n <= |lines|
    ensures var o := ProcessAll(CLOSED, lines, kind, n).out;
      |o| == n && forall k :: 0 <= k < n ==> o[k] == "" || o[k] == lines[k]
  {
    if n > 0 {
      ProcessKeepsLines(lines, kind, n - 1);
      ProcessAddsLine(ProcessAll(CLOSED, lines, kind, n - 1), lines[n - 1], kind(lines[n - 1]));
    }
  }

  lemma ProcessAddsLine(st: Conds, line: string, kind: Kind)
    requires |st.active| == |st.taken|
    ensures var o := Process(st, line, kind).out; o == st.out + [""] || o == st.out + [line]
  {
  }

  /** Texts with the same line breaks have the same lines, up to the characters in them. */
  lemma {:induction false} SameShapeSameLines(a: string, b: string)
    requires |a| == |b| && forall k :: 0 <= k < |a| ==> (a[k] == '\n' <==> b[k] == '\n')
    ensures |Lines(a)| == |Lines(b)| && forall k :: 0 <= k < |Lines(a)| ==> |Lines(a)[k]| == |Lines(b)[k]|
  {
    if a != "" {
      assert forall k :: 0 <= k < |a| - 1 ==> a[1..][k] == a[k + 1] && b[1..][k] == b[k + 1];
      SameShapeSameLines(a[1..], b[1..]);
    }
  }

  /** What the parser reads: the cleaned and preprocessed text. */
  function Processed(raw: string, kind: Classify): seq<string> {
    var lines := Lines(Clean(raw, Normal));
    ProcessAll(CLOSED, lines, kind, |lines|).out
  }

  /**
   * Line numbers survive the whole pipeline: the processed text has the lines of the raw file, each
   * either empty or as long as its original, and the number found for any position in line k is k + 1.
   */
  lemma LineNumbersSurvive(raw: string, kind: Classify, k: nat, c: nat)
    requires k < |Processed(raw, kind)| && c <= |Processed(raw, kind)[k]|
    ensures var o := Processed(raw, kind); var t := Join(o, |o|); var pos := LineStart(o, k) + c;
      && |o| == |Lines(raw)| && (o[k] == "" || |o[k]| == |Lines(raw)[k]|)
      && pos <= |t| && Newlines(t, pos) + 1 == k + 1
  {
    ProcessedLines(raw, kind);
    LineInJoin(Processed(raw, kind), |Processed(raw, kind)|, k, c);
  }

  lemma ProcessedLines(raw: string, kind: Classify)
    ensures var o := Processed(raw, kind);
      && |o| == |Lines(raw)| && Flat(o)
      && forall k :: 0 <= k < |o| ==> o[k] == "" || |o[k]| == |Lines(raw)[k]|
  {
    var cleaned := Clean(raw, Normal);
    CleanKeepsShape(raw, Normal);
    SameShapeSameLines(cleaned, raw);
    LinesAreFlat(cleaned);
    ProcessKeepsLines(Lines(cleaned), kind, |Lines(cleaned)|);
    EmptiedIsFlat(Lines(cleaned), Processed(raw, kind));
  }

  lemma EmptiedIsFlat(lines: seq<string>, o: seq<string>)
    requires Flat(lines) && |o| == |lines| && forall k :: 0 <= k < |o| ==> o[k] == "" || o[k] == lines[k]
    ensures Flat(o)
  {
  }
}
