// The comment scanner for JavaScript (record_web_replay.py:666-828). One pass over the
// text with two mutually recursive readers, one for code and one for template literals, that
// append to one shared list of comment spans; then the replacement of the spans by fillers.

module JsScan {
  import opened Commons

  /** A comment: the positions a .. b - 1. */
  datatype Span = Span(a: nat, b: nat)

  /** str.isspace and str.isalnum, whatever the character tables say. */
  datatype Chars = Chars(space: char -> bool, alnum: char -> bool)

  // ---- What the readers compute ---------------------------------------------------------

  /** str.find: the first place at or after i that spells the pattern, or -1. */
  function Find(src: string, pat: string, i: nat): (b: int)
    requires i <= |src|
    ensures b == -1 || (i <= b && Spelled(src, b, pat))
    ensures forall j :: i <= j && (b == -1 || j < b) ==> !Spelled(src, j, pat)
    decreases |src| - i
  {
    if Spelled(src, i, pat) then i else if i == |src| then -1 else Find(src, pat, i + 1)
  }

  predicate Spelled(src: string, i: int, text: string) {
    0 <= i && i + |text| <= |src| && src[i..i + |text|] == text
  }

  function SkipString(src: string, i: nat, q: char): (j: nat)
    requires i <= |src| + 1
    ensures i <= j <= |src| + 1
    decreases |src| + 1 - i
  {
    if i >= |src| then i
    else if src[i] == '\\' then SkipString(src, i + 2, q)
    else if src[i] == q then i + 1
    else SkipString(src, i + 1, q)
  }

  function SkipRegex(src: string, j: nat, end: nat, cls: bool): (r: nat)
    requires end <= |src| && j <= end + 1
    ensures j <= r <= end + 1
    decreases end + 1 - j
  {
    if j >= end then j
    else if src[j] == '\\' then SkipRegex(src, j + 2, end, cls)
    else if src[j] == '[' then SkipRegex(src, j + 1, end, true)
    else if src[j] == ']' then SkipRegex(src, j + 1, end, false)
    else if src[j] == '\n' then j
    else if src[j] == '/' && !cls then j + 1
    else SkipRegex(src, j + 1, end, cls)
  }

  /** Back over the characters of one kind in front of position i. */
  function Back(src: string, i: nat, kind: char -> bool): (j: nat)
    requires i <= |src|
    ensures j <= i
  {
    if i > 0 && kind(src[i - 1]) then Back(src, i - 1, kind) else i
  }

  function InWord(k: Chars): char -> bool { c => k.alnum(c) || c == '_' }

  function WordBefore(k: Chars, src: string, i: nat): string
    requires i <= |src|
  {
    var j := Back(src, i, k.space);
    src[Back(src, j, InWord(k))..j]
  }

  const REGEX_WORDS: set<string> :=
    {"return", "typeof", "case", "in", "of", "new", "delete", "void", "do", "else", "yield", "await", "instanceof"}

  /** A slash here starts a regular expression and is no division. */
  predicate RegexAllowed(k: Chars, src: string, i: nat, prev: string)
    requires i <= |src|
  {
    prev == "" || (|prev| == 1 && prev[0] in "(,=:[!&|?{};+-*%~^<>") || WordBefore(k, src, i) in REGEX_WORDS
  }

  function LineEnd(src: string, i: nat, end: nat): (b: nat)
    requires i + 1 < end <= |src| && src[i] == '/' && src[i + 1] == '/'
    ensures i + 2 <= b <= end
  {
    var b := Find(src, "\n", i);
    assert b >= 0 ==> src[b..b + 1][0] == '\n';
    if b < 0 || b > end then end else b
  }

  function BlockEnd(src: string, i: nat, end: nat): (b: nat)
    requires i + 1 < end <= |src|
    ensures i + 2 <= b <= |src|
  {
    var b := Find(src, "*/", i + 2);
    if b < 0 then end else b + 2
  }

  /** The character before this one that matters, after reading c. */
  function Next(k: Chars, prev: string, c: char): string {
    if k.space(c) then prev else [c]
  }

  datatype Stepped = Stepped(i: nat, prev: string, depth: int, spans: seq<Span>, done: bool)

  /** One turn of the code reader. */
  function Step(k: Chars, src: string, i: nat, end: nat, prev: string, depth: int, stop: bool): (s: Stepped)
    requires i < end <= |src|
    ensures i < s.i <= |src| + 1
    decreases |src| + 1 - i, 0
  {
    var c := src[i];
    if c == '/' && i + 1 < end then
      if src[i + 1] == '/' then
        var b := LineEnd(src, i, end);
        Stepped(b, prev, depth, [Span(i, b)], false)
      else if src[i + 1] == '*' then
        var b := BlockEnd(src, i, end);
        Stepped(b, prev, depth, [Span(i, b)], false)
      else if RegexAllowed(k, src, i, prev) then
        Stepped(SkipRegex(src, i + 1, end, false), "/", depth, [], false)
      else
        Stepped(i + 1, "/", depth, [], false)
    else if c == '"' || c == '\'' then
      Stepped(SkipString(src, i + 1, c), [c], depth, [], false)
    else if c == '`' then
      var t := Template(k, src, i + 1, end);
      Stepped(t.0, "`", depth, t.1, false)
    else if c == '}' && stop && depth == 0 then
      Stepped(i + 1, prev, depth, [], true)
    else
      Stepped(i + 1, Next(k, prev, c), if c == '{' then depth + 1 else if c == '}' then depth - 1 else depth, [], false)
  }

  /** The code reader from position i: where it stops, and the comments it saw. */
  function Scan(k: Chars, src: string, i: nat, end: nat, prev: string, depth: int, stop: bool): (r: (nat, seq<Span>))
    requires end <= |src| && i <= |src| + 1
    ensures i <= r.0 <= |src| + 1
    decreases |src| + 1 - i, 1
  {
    if i >= end then (i, [])
    else
      var s := Step(k, src, i, end, prev, depth, stop);
      if s.done then (s.i, s.spans)
      else
        var r := Scan(k, src, s.i, end, s.prev, s.depth, stop);
        (r.0, s.spans + r.1)
  }

  /** The template reader from position i, behind the opening backtick. */
  function Template(k: Chars, src: string, i: nat, end: nat): (r: (nat, seq<Span>))
    requires end <= |src| && i <= |src| + 1
    ensures i <= r.0 <= |src| + 1
    decreases |src| + 1 - i, 1
  {
    if i >= end then (i, [])
    else if src[i] == '\\' then Template(k, src, i + 2, end)
    else if src[i] == '`' then (i + 1, [])
    else if src[i] == '$' && i + 1 < end && src[i + 1] == '{' then
      var h := Scan(k, src, i + 2, end, "", 0, true);
      var t := Template(k, src, h.0, end);
      (t.0, h.1 + t.1)
    else Template(k, src, i + 1, end)
  }

  // ---- The readers ----------------------------------------------------------------------

  method SkipStringAt(src: string, start: nat, q: char) returns (i: nat)
    requires start < |src|
    ensures i == SkipString(src, start + 1, q)
  {
    i := start + 1;
    while i < |src|
      invariant start < i <= |src| + 1
      invariant SkipString(src, i, q) == SkipString(src, start + 1, q)
    {
      if src[i] == '\\' {
        i := i + 2;
        continue;
      }
      if src[i] == q {
        return i + 1;
      }
      i := i + 1;
    }
  }

  method SkipRegexAt(src: string, i: nat, end: nat) returns (j: nat)
    requires i < end <= |src|
    ensures j == SkipRegex(src, i + 1, end, false)
  {
    j := i + 1;
    var cls := false;
    while j < end
      invariant i < j <= end + 1
      invariant SkipRegex(src, j, end, cls) == SkipRegex(src, i + 1, end, false)
    {
      if src[j] == '\\' {
        j := j + 2;
        continue;
      }
      if src[j] == '[' {
        cls := true;
      } else if src[j] == ']' {
        cls := false;
      } else if src[j] == '\n' {
        break;
      } else if src[j] == '/' && !cls {
        return j + 1;
      }
      j := j + 1;
    }
  }

  method PrevWord(k: Chars, src: string, i: nat) returns (word: string)
    requires i <= |src|
    ensures word == WordBefore(k, src, i)
  {
    var j := i;
    while j > 0 && k.space(src[j - 1])
      invariant 0 <= j <= i && Back(src, j, k.space) == Back(src, i, k.space)
    {
      j := j - 1;
    }
    var w := j;
    while w > 0 && (k.alnum(src[w - 1]) || src[w - 1] == '_')
      invariant 0 <= w <= j && Back(src, w, InWord(k)) == Back(src, j, InWord(k))
    {
      w := w - 1;
    }
    return src[w..j];
  }

  class CommentScanner {
    const k: Chars
    const src: string
    var spans: seq<Span>

    constructor (k: Chars, src: string)
      ensures this.k == k && this.src == src && spans == []
    {
      this.k, this.src, this.spans := k, src, [];
    }

    method ReadTemplate(start: nat, end: nat) returns (i: nat)
      requires start < end <= |src|
      modifies this
      ensures i == Template(k, src, start + 1, end).0
      ensures spans == old(spans) + Template(k, src, start + 1, end).1
      decreases |src| + 1 - start, 0
    {
      i := start + 1;
      ghost var all := Template(k, src, start + 1, end);
      while i < end
        invariant start < i <= |src| + 1
        invariant Template(k, src, i, end).0 == all.0
        invariant spans + Template(k, src, i, end).1 == old(spans) + all.1
      {
        TemplateTurn(k, src, i, end, spans);
        var c := src[i];
        if c == '\\' {
          i := i + 2;
          continue;
        }
        if c == '`' {
          return i + 1;
        }
        if c == '$' && i + 1 < end && src[i + 1] == '{' {
          i := ReadCode(i + 2, end, true);
          continue;
        }
        i := i + 1;
      }
    }

    method ReadCode(start: nat, end: nat, stopBrace: bool) returns (i: nat)
      requires end <= |src| && start <= |src| + 1
      modifies this
      ensures i == Scan(k, src, start, end, "", 0, stopBrace).0
      ensures spans == old(spans) + Scan(k, src, start, end, "", 0, stopBrace).1
      decreases |src| + 1 - start, 2
    {
      i := start;
      var prev, depth := "", 0;
      ghost var all := Scan(k, src, start, end, "", 0, stopBrace);
      while i < end
        invariant start <= i <= |src| + 1
        invariant Scan(k, src, i, end, prev, depth, stopBrace).0 == all.0
        invariant spans + Scan(k, src, i, end, prev, depth, stopBrace).1 == old(spans) + all.1
      {
        Advance(k, src, i, end, prev, depth, stopBrace, spans);
        var done;
        i, prev, depth, done := ReadOne(i, end, prev, depth, stopBrace);
        if done {
          return;
        }
      }
    }

    /** One turn of the code reader's loop. */
    method ReadOne(at: nat, end: nat, before: string, nesting: int, stopBrace: bool)
      returns (i: nat, prev: string, depth: int, done: bool)
      requires at < end <= |src|
      modifies this
      ensures var s := Step(k, src, at, end, before, nesting, stopBrace);
        i == s.i && prev == s.prev && depth == s.depth && done == s.done && spans == old(spans) + s.spans
      decreases |src| + 1 - at, 1
    {
      i, prev, depth, done := at, before, nesting, false;
      var c := src[i];
      if c == '/' && i + 1 < end {
        var d := src[i + 1];
        if d == '/' {
          var b := Find(src, "\n", i);
          b := if b < 0 || b > end then end else b;
          spans := spans + [Span(i, b)];
          return b, prev, depth, false;
        }
        if d == '*' {
          var b := Find(src, "*/", i + 2);
          b := if b < 0 then end else b + 2;
          spans := spans + [Span(i, b)];
          return b, prev, depth, false;
        }
        var w := PrevWord(k, src, i);
        if prev == "" || (|prev| == 1 && prev[0] in "(,=:[!&|?{};+-*%~^<>") || w in REGEX_WORDS {
          i := SkipRegexAt(src, i, end);
          return i, "/", depth, false;
        }
        return i + 1, "/", depth, false;
      }
      if c == '"' || c == '\'' {
        i := SkipStringAt(src, i, c);
        return i, [c], depth, false;
      }
      if c == '`' {
        i := ReadTemplate(i, end);
        return i, "`", depth, false;
      }
      if c == '{' {
        depth := depth + 1;
      } else if c == '}' {
        if stopBrace && depth == 0 {
          return i + 1, prev, depth, true;
        }
        depth := depth - 1;
      }
      if !k.space(c) {
        prev := [c];
      }
      i := i + 1;
    }
  }

  /** The spans read so far and those still to come, across one turn of the template reader. */
  lemma TemplateTurn(k: Chars, src: string, i: nat, end: nat, spans: seq<Span>)
    requires i < end <= |src|
    ensures var all := Template(k, src, i, end);
      if src[i] == '\\' then all == Template(k, src, i + 2, end)
      else if src[i] == '`' then all.0 == i + 1 && spans + all.1 == spans
      else if src[i] == '$' && i + 1 < end && src[i + 1] == '{' then
        var h := Scan(k, src, i + 2, end, "", 0, true);
        var t := Template(k, src, h.0, end);
        all.0 == t.0 && spans + all.1 == (spans + h.1) + t.1
      else all == Template(k, src, i + 1, end)
  {
  }

  /** The spans read so far and those still to come, across one turn of the code reader. */
  lemma Advance(k: Chars, src: string, i: nat, end: nat, prev: string, depth: int, stop: bool, spans: seq<Span>)
    requires i < end <= |src|
    ensures var s := Step(k, src, i, end, prev, depth, stop);
      var all := Scan(k, src, i, end, prev, depth, stop);
      if s.done then all.0 == s.i && spans + all.1 == spans + s.spans
      else
        var r := Scan(k, src, s.i, end, s.prev, s.depth, stop);
        all.0 == r.0 && spans + all.1 == (spans + s.spans) + r.1
  {
  }

  // ---- What the spans are ---------------------------------------------------------------

  /** A line comment up to its line break, or a block comment up to its first closing mark. */
  predicate IsComment(src: string, end: nat, s: Span) {
    s.a + 2 <= s.b <= |src| && s.a + 2 <= end <= |src| && src[s.a] == '/' &&
    ((src[s.a + 1] == '/' && s.b <= end && (s.b == end || src[s.b] == '\n') &&
      (forall m :: s.a <= m < s.b ==> src[m] != '\n')) ||
     (src[s.a + 1] == '*' && (if Closed(src, s.a) then s.b == CloseAfter(src, s.a) else s.b == end)))
  }

  predicate Closed(src: string, a: nat)
    requires a + 2 <= |src|
  {
    Find(src, "*/", a + 2) >= 0
  }

  function CloseAfter(src: string, a: nat): (b: nat)
    requires a + 2 <= |src| && Closed(src, a)
  {
    Find(src, "*/", a + 2) + 2
  }

  /** Comments in ascending order, disjoint, between lo and hi. */
  predicate Comments(src: string, end: nat, spans: seq<Span>, lo: nat, hi: nat) {
    (forall i :: 0 <= i < |spans| ==> IsComment(src, end, spans[i]) && lo <= spans[i].a && spans[i].b <= hi) &&
    (forall i, j :: 0 <= i < j < |spans| ==> spans[i].b <= spans[j].a)
  }

  lemma CommentsJoin(src: string, end: nat, s: seq<Span>, lo: nat, mid: nat, t: seq<Span>, hi: nat)
    requires lo <= mid <= hi && Comments(src, end, s, lo, mid) && Comments(src, end, t, mid, hi)
    ensures Comments(src, end, s + t, lo, hi)
  {
  }

  /** Whatever the text, the code reader lists real comments in ascending order, none overlapping. */
  lemma {:induction false} ScanComments(k: Chars, src: string, i: nat, end: nat, prev: string, depth: int, stop: bool)
    requires end <= |src| && i <= |src| + 1
    ensures var r := Scan(k, src, i, end, prev, depth, stop); Comments(src, end, r.1, i, r.0)
    decreases |src| + 1 - i, 1
  {
    if i < end {
      var s := Step(k, src, i, end, prev, depth, stop);
      StepComments(k, src, i, end, prev, depth, stop);
      if !s.done {
        ScanComments(k, src, s.i, end, s.prev, s.depth, stop);
        var r := Scan(k, src, s.i, end, s.prev, s.depth, stop);
        CommentsJoin(src, end, s.spans, i, s.i, r.1, r.0);
      }
    }
  }

  lemma {:induction false} StepComments(k: Chars, src: string, i: nat, end: nat, prev: string, depth: int, stop: bool)
    requires i < end <= |src|
    ensures var s := Step(k, src, i, end, prev, depth, stop); Comments(src, end, s.spans, i, s.i)
    decreases |src| + 1 - i, 0
  {
    if src[i] == '/' && i + 1 < end && src[i + 1] == '/' {
      LineEndIsComment(src, i, end);
    } else if src[i] == '/' && i + 1 < end && src[i + 1] == '*' {
      assert IsComment(src, end, Span(i, BlockEnd(src, i, end)));
    } else if src[i] == '`' {
      TemplateComments(k, src, i + 1, end);
    }
  }

  lemma LineEndIsComment(src: string, i: nat, end: nat)
    requires i + 1 < end <= |src| && src[i] == '/' && src[i + 1] == '/'
    ensures IsComment(src, end, Span(i, LineEnd(src, i, end)))
  {
    var f, b := Find(src, "\n", i), LineEnd(src, i, end);
    forall j | i <= j < b
      ensures src[j] != '\n'
    {
      assert !Spelled(src, j, "\n");
    }
    assert b < end ==> Spelled(src, b, "\n") && src[b..b + 1][0] == '\n';
  }

  lemma {:induction false} TemplateComments(k: Chars, src: string, i: nat, end: nat)
    requires end <= |src| && i <= |src| + 1
    ensures var r := Template(k, src, i, end); Comments(src, end, r.1, i, r.0)
    decreases |src| + 1 - i, 1
  {
    if i >= end || src[i] == '`' {
    } else if src[i] == '\\' {
      TemplateComments(k, src, i + 2, end);
    } else if src[i] == '$' && i + 1 < end && src[i + 1] == '{' {
      var h := Scan(k, src, i + 2, end, "", 0, true);
      ScanComments(k, src, i + 2, end, "", 0, true);
      TemplateComments(k, src, h.0, end);
      var t := Template(k, src, h.0, end);
      CommentsJoin(src, end, h.1, i, h.0, t.1, t.0);
    } else {
      TemplateComments(k, src, i + 1, end);
    }
  }

  // ---- Programs as token trees ----------------------------------------------------------

  datatype Tok =
    | Plain(c: char)
    | Word(text: string)
    | Quoted(q: char, body: string)
    | LineNote(text: string)
    | BlockNote(text: string)
    | Regex(body: string)
    | Literal(parts: Parts)
    | Braces(code: Code)

  datatype Code = Empty | Then(tok: Tok, rest: Code)

  /** The inside of a template literal. */
  datatype Parts = Done | Raw(c: char, more: Parts) | Escaped(c: char, more: Parts) | Hole(code: Code, more: Parts)

  function TokText(t: Tok): string
    decreases t
  {
    match t
    case Plain(c) => [c]
    case Word(text) => text
    case Quoted(q, body) => [q] + (body + [q])
    case LineNote(text) => "//" + text
    case BlockNote(text) => "/*" + (text + "*/")
    case Regex(body) => "/" + (body + "/")
    case Literal(parts) => "`" + (PartsText(parts) + "`")
    case Braces(code) => "{" + (CodeText(code) + "}")
  }

  function CodeText(code: Code): string
    decreases code
  {
    match code
    case Empty => ""
    case Then(tok, rest) => TokText(tok) + CodeText(rest)
  }

  function PartsText(parts: Parts): string
    decreases parts
  {
    match parts
    case Done => ""
    case Raw(c, more) => [c] + PartsText(more)
    case Escaped(c, more) => "\\" + ([c] + PartsText(more))
    case Hole(code, more) => "${" + (CodeText(code) + ("}" + PartsText(more)))
  }

  /** The comments of a program whose text starts at position i. */
  function CodeNotes(code: Code, i: nat): seq<Span>
    decreases code
  {
    match code
    case Empty => []
    case Then(tok, rest) => TokNotes(tok, i) + CodeNotes(rest, i + |TokText(tok)|)
  }

  function TokNotes(t: Tok, i: nat): seq<Span>
    decreases t
  {
    match t
    case LineNote(_) => [Span(i, i + |TokText(t)|)]
    case BlockNote(_) => [Span(i, i + |TokText(t)|)]
    case Literal(parts) => PartsNotes(parts, i + 1)
    case Braces(code) => CodeNotes(code, i + 1)
    case _ => []
  }

  function PartsNotes(parts: Parts, i: nat): seq<Span>
    decreases parts
  {
    match parts
    case Done => []
    case Raw(_, more) => PartsNotes(more, i + 1)
    case Escaped(_, more) => PartsNotes(more, i + 2)
    case Hole(code, more) => CodeNotes(code, i + 2) + PartsNotes(more, i + 3 + |CodeText(code)|)
  }

  /** A string body: no bare quote, and every backslash takes a character with it. */
  predicate StringBody(body: string, q: char) {
    body == "" ||
    (if body[0] == '\\' then |body| >= 2 && StringBody(body[2..], q) else body[0] != q && StringBody(body[1..], q))
  }

  /** A regular-expression body: a bare slash only within a character class, and no line break. */
  predicate RegexBody(body: string, cls: bool) {
    if body == "" then !cls
    else if body[0] == '\\' then |body| >= 2 && RegexBody(body[2..], cls)
    else if body[0] == '[' then RegexBody(body[1..], true)
    else if body[0] == ']' then RegexBody(body[1..], false)
    else body[0] != '\n' && (body[0] == '/' ==> cls) && RegexBody(body[1..], cls)
  }

  function PrevTok(k: Chars, prev: string, t: Tok): string
    decreases t
  {
    match t
    case Plain(c) => Next(k, prev, c)
    case Word(text) => if text == "" then prev else text[|text| - 1..]
    case Quoted(q, _) => [q]
    case Regex(_) => "/"
    case Literal(_) => "`"
    case Braces(code) => Next(k, PrevCode(k, Next(k, prev, '{'), code), '}')
    case _ => prev
  }

  function PrevCode(k: Chars, prev: string, code: Code): string
    decreases code
  {
    match code
    case Empty => prev
    case Then(tok, rest) => PrevCode(k, PrevTok(k, prev, tok), rest)
  }

  /** A character of a word, and none that the code reader looks at. */
  predicate WordChar(k: Chars, c: char) { InWord(k)(c) && !k.space(c) && c !in "/\"'`{}" }

  /** What the code reader takes the token for where it stands. */
  predicate TokReads(k: Chars, src: string, i: nat, end: nat, prev: string, t: Tok)
    requires i + |TokText(t)| <= end <= |src|
    decreases t
  {
    match t
    case Plain(c) => c !in "\"'`{}" &&
      (c == '/' ==> !k.space(c) && (i + 1 == end || (src[i + 1] !in "/*" && !RegexAllowed(k, src, i, prev))))
    case Word(text) => text != "" && forall j :: 0 <= j < |text| ==> WordChar(k, text[j])
    case Quoted(q, body) => q in "\"'" && StringBody(body, q)
    case LineNote(text) => '\n' !in text && (i + |TokText(t)| == end || src[i + |TokText(t)|] == '\n')
    case BlockNote(text) => forall j :: 0 <= j < |text| ==> !Spelled(text + "*/", j, "*/")
    case Regex(body) => body != "" && body[0] !in "/*" && RegexBody(body, false) && RegexAllowed(k, src, i, prev)
    case Literal(parts) => PartsRead(k, src, i + 1, end, parts)
    case Braces(code) => CodeReads(k, src, i + 1, end, Next(k, prev, '{'), code)
  }

  predicate CodeReads(k: Chars, src: string, i: nat, end: nat, prev: string, code: Code)
    requires i + |CodeText(code)| <= end <= |src|
    decreases code
  {
    match code
    case Empty => true
    case Then(tok, rest) =>
      TokReads(k, src, i, end, prev, tok) && CodeReads(k, src, i + |TokText(tok)|, end, PrevTok(k, prev, tok), rest)
  }

  predicate PartsRead(k: Chars, src: string, i: nat, end: nat, parts: Parts)
    requires i + |PartsText(parts)| + 1 <= end <= |src|
    decreases parts
  {
    match parts
    case Done => true
    case Raw(c, more) => c !in "\\`" && (c == '$' ==> src[i + 1] != '{') && PartsRead(k, src, i + 1, end, more)
    case Escaped(_, more) => PartsRead(k, src, i + 2, end, more)
    case Hole(code, more) =>
      CodeReads(k, src, i + 2, end, "", code) && PartsRead(k, src, i + 3 + |CodeText(code)|, end, more)
  }

  lemma SpelledSplit(src: string, i: nat, a: string, b: string)
    requires Spelled(src, i, a + b)
    ensures Spelled(src, i, a) && Spelled(src, i + |a|, b)
  {
    assert src[i..i + |a|] == (a + b)[..|a|];
    assert src[i + |a|..i + |a| + |b|] == (a + b)[|a|..];
  }

  lemma SpelledFirst(src: string, i: nat, a: string)
    requires Spelled(src, i, a) && a != ""
    ensures src[i] == a[0] && Spelled(src, i + 1, a[1..])
  {
    assert src[i..i + |a|][0] == a[0];
    assert a == a[..1] + a[1..];
    SpelledSplit(src, i, a[..1], a[1..]);
  }

  lemma {:induction false} SkipsString(src: string, i: nat, body: string, q: char)
    requires Spelled(src, i, body + [q]) && StringBody(body, q) && q != '\\'
    ensures SkipString(src, i, q) == i + |body| + 1
    decreases |body|
  {
    SpelledFirst(src, i, body + [q]);
    if body != "" {
      assert (body + [q])[1..] == body[1..] + [q];
      if body[0] == '\\' {
        SpelledFirst(src, i + 1, body[1..] + [q]);
        assert (body[1..] + [q])[1..] == body[2..] + [q];
        SkipsString(src, i + 2, body[2..], q);
      } else {
        SkipsString(src, i + 1, body[1..], q);
      }
    }
  }

  lemma {:induction false} SkipsRegex(src: string, i: nat, end: nat, body: string, cls: bool)
    requires i + |body| + 1 <= end <= |src| && Spelled(src, i, body + "/") && RegexBody(body, cls)
    ensures SkipRegex(src, i, end, cls) == i + |body| + 1
    decreases |body|
  {
    SpelledFirst(src, i, body + "/");
    if body != "" {
      assert (body + "/")[1..] == body[1..] + "/";
      if body[0] == '\\' {
        SpelledFirst(src, i + 1, body[1..] + "/");
        assert (body[1..] + "/")[1..] == body[2..] + "/";
        SkipsRegex(src, i + 2, end, body[2..], cls);
      } else {
        SkipsRegex(src, i + 1, end, body[1..], if body[0] == '[' then true else if body[0] == ']' then false else cls);
      }
    }
  }

  /** What the code reader comes to from position i, with the notes collected so far. */
  function Onward(k: Chars, src: string, i: nat, prev: string, notes: seq<Span>, end: nat, depth: int,
          stop: bool): (nat, seq<Span>)
    requires end <= |src| && i <= |src| + 1
  {
    var r := Scan(k, src, i, end, prev, depth, stop);
    (r.0, notes + r.1)
  }

  /** On every program spelled by a token tree the code reader lists exactly the comments of the tree. */
  lemma {:induction false} ReadsCode(k: Chars, src: string, i: nat, end: nat, prev: string, depth: int, stop: bool,
          code: Code)
    requires i + |CodeText(code)| <= end <= |src| && Spelled(src, i, CodeText(code))
    requires CodeReads(k, src, i, end, prev, code) && (stop ==> depth >= 0)
    ensures Onward(k, src, i, prev, [], end, depth, stop) ==
      Onward(k, src, i + |CodeText(code)|, PrevCode(k, prev, code), CodeNotes(code, i), end, depth, stop)
    decreases code, 1
  {
    match code {
      case Empty =>
      case Then(tok, rest) =>
        var j, p := i + |TokText(tok)|, PrevTok(k, prev, tok);
        SpelledSplit(src, i, TokText(tok), CodeText(rest));
        var l, q := i + |CodeText(code)|, PrevCode(k, prev, code);
        ThenParts(k, src, i, end, prev, code, j, p);
        ReadsThen(k, src, i, end, prev, depth, stop, tok, rest, j, p, l, q);
    }
  }

  lemma ThenParts(k: Chars, src: string, i: nat, end: nat, prev: string, code: Code, j: nat, p: string)
    requires i + |CodeText(code)| <= end <= |src| && CodeReads(k, src, i, end, prev, code)
    requires code.Then? && j == i + |TokText(code.tok)| && p == PrevTok(k, prev, code.tok)
    ensures i + |CodeText(code)| == j + |CodeText(code.rest)| && PrevCode(k, prev, code) == PrevCode(k, p, code.rest)
    ensures CodeNotes(code, i) == TokNotes(code.tok, i) + CodeNotes(code.rest, j)
    ensures TokReads(k, src, i, end, prev, code.tok) && CodeReads(k, src, j, end, p, code.rest)
  {
  }

  lemma {:induction false} ReadsThen(k: Chars, src: string, i: nat, end: nat, prev: string, depth: int, stop: bool,
          tok: Tok, rest: Code, j: nat, p: string, l: nat, q: string)
    requires j == i + |TokText(tok)| && p == PrevTok(k, prev, tok) && l == j + |CodeText(rest)|
    requires q == PrevCode(k, p, rest)
    requires l <= end <= |src| && (stop ==> depth >= 0)
    requires Spelled(src, i, TokText(tok)) && TokReads(k, src, i, end, prev, tok)
    requires Spelled(src, j, CodeText(rest)) && CodeReads(k, src, j, end, p, rest)
    ensures Onward(k, src, i, prev, [], end, depth, stop) ==
      Onward(k, src, l, q, TokNotes(tok, i) + CodeNotes(rest, j), end, depth, stop)
    decreases Then(tok, rest), 0
  {
    ReadsTok(k, src, i, end, prev, depth, stop, tok);
    ReadsRest(k, src, i, end, prev, depth, stop, TokNotes(tok, i), rest, j, p, l, q);
  }

  lemma {:induction false} ReadsRest(k: Chars, src: string, i: nat, end: nat, prev: string, depth: int, stop: bool,
          notes: seq<Span>, rest: Code, j: nat, p: string, l: nat, q: string)
    requires l == j + |CodeText(rest)| && q == PrevCode(k, p, rest) && i <= l <= end <= |src| && (stop ==> depth >= 0)
    requires Onward(k, src, i, prev, [], end, depth, stop) == Onward(k, src, j, p, notes, end, depth, stop)
    requires Spelled(src, j, CodeText(rest)) && CodeReads(k, src, j, end, p, rest)
    ensures Onward(k, src, i, prev, [], end, depth, stop) ==
      Onward(k, src, l, q, notes + CodeNotes(rest, j), end, depth, stop)
    decreases rest, 2
  {
    ReadsCode(k, src, j, end, p, depth, stop, rest);
    ReadsJoin(k, src, i, prev, j, p, notes, l, q, CodeNotes(rest, j), end, depth, stop);
  }

  lemma ReadsStep(k: Chars, src: string, i: nat, p: string, j: nat, q: string, notes: seq<Span>, end: nat, depth: int,
          stop: bool)
    requires i < end <= |src| && Step(k, src, i, end, p, depth, stop) == Stepped(j, q, depth, notes, false)
    ensures Onward(k, src, i, p, [], end, depth, stop) == Onward(k, src, j, q, notes, end, depth, stop)
  {
    NoNotes(notes + Scan(k, src, j, end, q, depth, stop).1);
  }

  lemma ReadsJoin(k: Chars, src: string, i: nat, p: string, j: nat, q: string, a: seq<Span>, l: nat, r: string,
          b: seq<Span>, end: nat, depth: int, stop: bool)
    requires end <= |src| && i <= |src| + 1 && j <= |src| + 1 && l <= |src| + 1
    requires Onward(k, src, i, p, [], end, depth, stop) == Onward(k, src, j, q, a, end, depth, stop)
    requires Onward(k, src, j, q, [], end, depth, stop) == Onward(k, src, l, r, b, end, depth, stop)
    ensures Onward(k, src, i, p, [], end, depth, stop) == Onward(k, src, l, r, a + b, end, depth, stop)
  {
    var c := Scan(k, src, l, end, r, depth, stop).1;
    NoNotes(Scan(k, src, j, end, q, depth, stop).1);
    assert a + (b + c) == (a + b) + c;
  }

  lemma NoNotes(x: seq<Span>)
    ensures [] + x == x && x + [] == x
  {
  }

  lemma {:induction false} ReadsTok(k: Chars, src: string, i: nat, end: nat, prev: string, depth: int, stop: bool,
          t: Tok)
    requires i + |TokText(t)| <= end <= |src| && Spelled(src, i, TokText(t))
    requires TokReads(k, src, i, end, prev, t) && (stop ==> depth >= 0)
    ensures Onward(k, src, i, prev, [], end, depth, stop) ==
      Onward(k, src, i + |TokText(t)|, PrevTok(k, prev, t), TokNotes(t, i), end, depth, stop)
    decreases t, 1
  {
    if t.Braces? {
      ReadsBraces(k, src, i, end, prev, depth, stop, t.code);
    } else if t.Word? {
      ReadsWord(k, src, i, end, prev, depth, stop, t.text);
    } else {
      StepTok(k, src, i, end, prev, depth, stop, t);
      ReadsStep(k, src, i, prev, i + |TokText(t)|, PrevTok(k, prev, t), TokNotes(t, i), end, depth, stop);
    }
  }

  lemma {:induction false} StepTok(k: Chars, src: string, i: nat, end: nat, prev: string, depth: int, stop: bool,
          t: Tok)
    requires !t.Braces? && !t.Word? && i + |TokText(t)| <= end <= |src|
    requires Spelled(src, i, TokText(t)) && TokReads(k, src, i, end, prev, t)
    ensures i < end && Step(k, src, i, end, prev, depth, stop) ==
      Stepped(i + |TokText(t)|, PrevTok(k, prev, t), depth, TokNotes(t, i), false)
    decreases t, 0
  {
    if t.Literal? {
      StepTemplate(k, src, i, end, prev, depth, stop, t.parts, i + |TokText(t)|);
    } else {
      StepFlat(k, src, i, end, prev, depth, stop, t);
    }
  }

  /** A word is read one character after the other. */
  lemma {:induction false} ReadsWord(k: Chars, src: string, i: nat, end: nat, prev: string, depth: int, stop: bool,
          text: string)
    requires i + |text| <= end <= |src| && Spelled(src, i, text) && text != ""
    requires forall j :: 0 <= j < |text| ==> WordChar(k, text[j])
    ensures Onward(k, src, i, prev, [], end, depth, stop) ==
      Onward(k, src, i + |text|, text[|text| - 1..], [], end, depth, stop)
    decreases |text|
  {
    SpelledFirst(src, i, text);
    assert WordChar(k, text[0]);
    assert Step(k, src, i, end, prev, depth, stop) == Stepped(i + 1, text[..1], depth, [], false);
    ReadsStep(k, src, i, prev, i + 1, text[..1], [], end, depth, stop);
    if |text| > 1 {
      var rest := text[1..];
      assert forall j :: 0 <= j < |rest| ==> rest[j] == text[j + 1];
      ReadsWord(k, src, i + 1, end, text[..1], depth, stop, rest);
      assert rest[|rest| - 1..] == text[|text| - 1..];
    } else {
      assert text[..1] == text[|text| - 1..];
    }
  }

  lemma StepFlat(k: Chars, src: string, i: nat, end: nat, prev: string, depth: int, stop: bool, t: Tok)
    requires !t.Braces? && !t.Literal? && !t.Word? && i + |TokText(t)| <= end <= |src|
    requires Spelled(src, i, TokText(t)) && TokReads(k, src, i, end, prev, t)
    ensures Step(k, src, i, end, prev, depth, stop) ==
      Stepped(i + |TokText(t)|, PrevTok(k, prev, t), depth, TokNotes(t, i), false)
  {
    match t {
      case Plain(_) => StepPlain(k, src, i, end, prev, depth, stop, t);
      case Quoted(_, _) => StepQuoted(k, src, i, end, prev, depth, stop, t);
      case LineNote(_) => StepLine(k, src, i, end, prev, depth, stop, t);
      case BlockNote(_) => StepBlock(k, src, i, end, prev, depth, stop, t);
      case Regex(_) => StepRegex(k, src, i, end, prev, depth, stop, t);
    }
  }

  lemma {:induction false} StepTemplate(k: Chars, src: string, i: nat, end: nat, prev: string, depth: int, stop: bool,
          parts: Parts, l: nat)
    requires l == i + |TokText(Literal(parts))| <= end <= |src| && Spelled(src, i, TokText(Literal(parts)))
    requires PartsRead(k, src, i + 1, end, parts)
    ensures Step(k, src, i, end, prev, depth, stop) == Stepped(l, "`", depth, PartsNotes(parts, i + 1), false)
    decreases parts, 3
  {
    SpelledFirst(src, i, TokText(Literal(parts)));
    assert TokText(Literal(parts))[1..] == PartsText(parts) + "`";
    ReadsParts(k, src, i + 1, end, parts);
    StepLiteral(k, src, i, end, prev, depth, stop, PartsNotes(parts, i + 1), l);
  }

  lemma StepPlain(k: Chars, src: string, i: nat, end: nat, prev: string, depth: int, stop: bool, t: Tok)
    requires t.Plain? && i + 1 <= end <= |src| && Spelled(src, i, TokText(t)) && TokReads(k, src, i, end, prev, t)
    ensures Step(k, src, i, end, prev, depth, stop) == Stepped(i + 1, Next(k, prev, t.c), depth, [], false)
  {
    SpelledFirst(src, i, TokText(t));
  }

  lemma StepLiteral(k: Chars, src: string, i: nat, end: nat, prev: string, depth: int, stop: bool, notes: seq<Span>,
          j: nat)
    requires i < end <= |src| && src[i] == '`' && Template(k, src, i + 1, end) == (j, notes)
    ensures Step(k, src, i, end, prev, depth, stop) == Stepped(j, "`", depth, notes, false)
  {
  }

  lemma StepQuoted(k: Chars, src: string, i: nat, end: nat, prev: string, depth: int, stop: bool, t: Tok)
    requires t.Quoted? && i + |TokText(t)| <= end <= |src| && Spelled(src, i, TokText(t))
    requires TokReads(k, src, i, end, prev, t)
    ensures Step(k, src, i, end, prev, depth, stop) == Stepped(i + |TokText(t)|, [t.q], depth, [], false)
  {
    SpelledFirst(src, i, TokText(t));
    assert TokText(t)[1..] == t.body + [t.q];
    SkipsString(src, i + 1, t.body, t.q);
  }

  lemma StepRegex(k: Chars, src: string, i: nat, end: nat, prev: string, depth: int, stop: bool, t: Tok)
    requires t.Regex? && i + |TokText(t)| <= end <= |src| && Spelled(src, i, TokText(t))
    requires TokReads(k, src, i, end, prev, t)
    ensures Step(k, src, i, end, prev, depth, stop) == Stepped(i + |TokText(t)|, "/", depth, [], false)
  {
    SpelledFirst(src, i, TokText(t));
    assert TokText(t)[1..] == t.body + "/";
    SpelledFirst(src, i + 1, t.body + "/");
    SkipsRegex(src, i + 1, end, t.body, false);
  }

  lemma StepLine(k: Chars, src: string, i: nat, end: nat, prev: string, depth: int, stop: bool, t: Tok)
    requires t.LineNote? && i + |TokText(t)| <= end <= |src| && Spelled(src, i, TokText(t))
    requires TokReads(k, src, i, end, prev, t)
    ensures Step(k, src, i, end, prev, depth, stop) ==
      Stepped(i + |TokText(t)|, prev, depth, [Span(i, i + |TokText(t)|)], false)
  {
    var n, b := |TokText(t)|, LineEnd(src, i, end);
    SpelledFirst(src, i, TokText(t));
    SpelledFirst(src, i + 1, TokText(t)[1..]);
    LineEndIsComment(src, i, end);
    forall m | i <= m < i + n
      ensures src[m] != '\n'
    {
      assert src[i..i + n][m - i] == src[m];
    }
  }

  lemma StepBlock(k: Chars, src: string, i: nat, end: nat, prev: string, depth: int, stop: bool, t: Tok)
    requires t.BlockNote? && i + |TokText(t)| <= end <= |src| && Spelled(src, i, TokText(t))
    requires TokReads(k, src, i, end, prev, t)
    ensures Step(k, src, i, end, prev, depth, stop) ==
      Stepped(i + |TokText(t)|, prev, depth, [Span(i, i + |TokText(t)|)], false)
  {
    SpelledFirst(src, i, TokText(t));
    SpelledFirst(src, i + 1, TokText(t)[1..]);
    assert TokText(t)[1..][1..] == t.text + "*/";
    FirstClose(src, i + 2, t.text);
  }

  lemma FirstClose(src: string, i: nat, text: string)
    requires i <= |src| && Spelled(src, i, text + "*/")
    requires forall j :: 0 <= j < |text| ==> !Spelled(text + "*/", j, "*/")
    ensures Find(src, "*/", i) == i + |text|
  {
    SpelledSplit(src, i, text, "*/");
    var b := Find(src, "*/", i);
    assert Spelled(src, i + |text|, "*/");
    if b < i + |text| { CloseInText(src, i, text, b); }
  }

  lemma CloseInText(src: string, i: nat, text: string, b: nat)
    requires Spelled(src, i, text + "*/") && i <= b < i + |text| && Spelled(src, b, "*/")
    ensures Spelled(text + "*/", b - i, "*/")
  {
    var all, n := text + "*/", b - i;
    assert src[i..i + |all|] == all;
    assert all[n] == src[b] && all[n + 1] == src[b + 1];
    assert all[n..n + 2] == src[b..b + 2];
  }

  lemma {:induction false} ReadsBraces(k: Chars, src: string, i: nat, end: nat, prev: string, depth: int, stop: bool,
          code: Code)
    requires i + |TokText(Braces(code))| <= end <= |src| && Spelled(src, i, TokText(Braces(code)))
    requires TokReads(k, src, i, end, prev, Braces(code)) && (stop ==> depth >= 0)
    ensures Onward(k, src, i, prev, [], end, depth, stop) ==
      Onward(k, src, i + |TokText(Braces(code))|, PrevTok(k, prev, Braces(code)), CodeNotes(code, i + 1), end, depth,
          stop)
    decreases code, 4
  {
    BracesSpelled(src, i, CodeText(code), TokText(Braces(code)));
    var q := Next(k, prev, '{');
    ReadsInner(k, src, i, end, prev, q, depth, stop, code, i + 1 + |CodeText(code)|, PrevCode(k, q, code));
  }

  /** ReadsCode with the position and the last character behind the code named. */
  lemma {:induction false} ReadsCodeTo(k: Chars, src: string, i: nat, end: nat, prev: string, depth: int, stop: bool,
          code: Code, j: nat, p: string)
    requires j == i + |CodeText(code)| <= end <= |src| && p == PrevCode(k, prev, code)
    requires Spelled(src, i, CodeText(code)) && CodeReads(k, src, i, end, prev, code) && (stop ==> depth >= 0)
    ensures Onward(k, src, i, prev, [], end, depth, stop) ==
      Onward(k, src, j, p, CodeNotes(code, i), end, depth, stop)
    decreases code, 2
  {
    ReadsCode(k, src, i, end, prev, depth, stop, code);
  }

  lemma {:induction false} ReadsInner(k: Chars, src: string, i: nat, end: nat, prev: string, q: string, depth: int,
          stop: bool, code: Code, j: nat, p: string)
    requires q == Next(k, prev, '{') && j == i + 1 + |CodeText(code)| < end <= |src| && p == PrevCode(k, q, code)
    requires src[i] == '{' && src[j] == '}' && Spelled(src, i + 1, CodeText(code))
    requires CodeReads(k, src, i + 1, end, q, code) && (stop ==> depth >= 0)
    ensures Onward(k, src, i, prev, [], end, depth, stop) ==
      Onward(k, src, j + 1, Next(k, p, '}'), CodeNotes(code, i + 1), end, depth, stop)
    decreases code, 3
  {
    ReadsCodeTo(k, src, i + 1, end, q, depth + 1, stop, code, j, p);
    BraceSteps(k, src, i, end, prev, q, depth, stop, j, p, CodeNotes(code, i + 1));
  }

  lemma BracesSpelled(src: string, i: nat, inner: string, all: string)
    requires Spelled(src, i, all) && all == "{" + (inner + "}")
    ensures src[i] == '{' && Spelled(src, i + 1, inner) && src[i + 1 + |inner|] == '}'
  {
    SpelledSplit(src, i, "{", inner + "}");
    SpelledFirst(src, i, "{");
    SpelledSplit(src, i + 1, inner, "}");
    SpelledFirst(src, i + 1 + |inner|, "}");
  }

  lemma BraceSteps(k: Chars, src: string, i: nat, end: nat, prev: string, q: string, depth: int, stop: bool,
          j: nat, p: string, notes: seq<Span>)
    requires i < j < end <= |src| && src[i] == '{' && src[j] == '}' && (stop ==> depth >= 0) && q == Next(k, prev, '{')
    requires Onward(k, src, i + 1, q, [], end, depth + 1, stop) == Onward(k, src, j, p, notes, end, depth + 1, stop)
    ensures Onward(k, src, i, prev, [], end, depth, stop) ==
      Onward(k, src, j + 1, Next(k, p, '}'), notes, end, depth, stop)
  {
    assert Step(k, src, i, end, prev, depth, stop) == Stepped(i + 1, q, depth + 1, [], false);
    assert Step(k, src, j, end, p, depth + 1, stop) == Stepped(j + 1, Next(k, p, '}'), depth, [], false);
    var r := Scan(k, src, j + 1, end, Next(k, p, '}'), depth, stop);
    NoNotes(r.1);
    NoNotes(notes + r.1);
  }

  lemma {:induction false} ReadsParts(k: Chars, src: string, i: nat, end: nat, parts: Parts)
    requires i + |PartsText(parts)| + 1 <= end <= |src| && Spelled(src, i, PartsText(parts) + "`")
    requires PartsRead(k, src, i, end, parts)
    ensures Template(k, src, i, end) == (i + |PartsText(parts)| + 1, PartsNotes(parts, i))
    decreases parts, 2
  {
    match parts {
      case Done => SpelledFirst(src, i, "`");
      case Raw(_, _) => ReadsRaw(k, src, i, end, parts);
      case Escaped(_, _) => ReadsEscaped(k, src, i, end, parts);
      case Hole(_, _) => ReadsHole(k, src, i, end, parts);
    }
  }

  lemma {:induction false} ReadsRaw(k: Chars, src: string, i: nat, end: nat, parts: Parts)
    requires i + |PartsText(parts)| + 1 <= end <= |src| && Spelled(src, i, PartsText(parts) + "`")
    requires parts.Raw? && PartsRead(k, src, i, end, parts)
    ensures Template(k, src, i, end) == (i + |PartsText(parts)| + 1, PartsNotes(parts, i))
    decreases parts, 0
  {
    RestSpelled(src, i, [parts.c], PartsText(parts.more), PartsText(parts));
    TemplateRaw(k, src, i, end);
    ReadsParts(k, src, i + 1, end, parts.more);
  }

  lemma {:induction false} ReadsEscaped(k: Chars, src: string, i: nat, end: nat, parts: Parts)
    requires i + |PartsText(parts)| + 1 <= end <= |src| && Spelled(src, i, PartsText(parts) + "`")
    requires parts.Escaped? && PartsRead(k, src, i, end, parts)
    ensures Template(k, src, i, end) == (i + |PartsText(parts)| + 1, PartsNotes(parts, i))
    decreases parts, 0
  {
    assert PartsText(parts) == ("\\" + [parts.c]) + PartsText(parts.more);
    RestSpelled(src, i, "\\" + [parts.c], PartsText(parts.more), PartsText(parts));
    ReadsParts(k, src, i + 2, end, parts.more);
  }

  lemma {:induction false} ReadsHole(k: Chars, src: string, i: nat, end: nat, parts: Parts)
    requires i + |PartsText(parts)| + 1 <= end <= |src| && Spelled(src, i, PartsText(parts) + "`")
    requires parts.Hole? && PartsRead(k, src, i, end, parts)
    ensures Template(k, src, i, end) == (i + |PartsText(parts)| + 1, PartsNotes(parts, i))
    decreases parts, 1
  {
    var j := i + 2 + |CodeText(parts.code)|;
    HoleNotes(i, parts.code, parts.more, j);
    ReadsHoleAt(k, src, i, end, parts.code, parts.more, j);
  }

  lemma {:induction false} ReadsHoleAt(k: Chars, src: string, i: nat, end: nat, code: Code, more: Parts, j: nat)
    requires i + |PartsText(Hole(code, more))| + 1 <= end <= |src|
    requires Spelled(src, i, PartsText(Hole(code, more)) + "`") && PartsRead(k, src, i, end, Hole(code, more))
    requires j == i + 2 + |CodeText(code)|
    ensures Template(k, src, i, end) ==
      (j + 1 + |PartsText(more)| + 1, CodeNotes(code, i + 2) + PartsNotes(more, j + 1))
    decreases Hole(code, more), 0, 1
  {
    HoleText(src, i, code, more, j);
    HoleReads(k, src, i, end, code, more, j);
    HoleNotes(i, code, more, j);
    ReadsHoleParts(k, src, i, end, code, more, j, j + 1 + |PartsText(more)| + 1);
  }

  lemma HoleNotes(i: nat, code: Code, more: Parts, j: nat)
    requires j == i + 2 + |CodeText(code)|
    ensures PartsNotes(Hole(code, more), i) == CodeNotes(code, i + 2) + PartsNotes(more, j + 1)
    ensures i + |PartsText(Hole(code, more))| == j + 1 + |PartsText(more)|
  {
  }

  lemma HoleText(src: string, i: nat, code: Code, more: Parts, j: nat)
    requires Spelled(src, i, PartsText(Hole(code, more)) + "`") && j == i + 2 + |CodeText(code)|
    ensures j < |src| && src[i] == '$' && src[i + 1] == '{' && src[j] == '}'
    ensures Spelled(src, i + 2, CodeText(code)) && Spelled(src, j + 1, PartsText(more) + "`")
  {
    SpelledSplit(src, i, PartsText(Hole(code, more)), "`");
    HoleBlank(src, i, code, more, j);
    HoleNotes(i, code, more, j);
    SpelledFirst(src, i, "${");
    SpelledFirst(src, i + 1, "{");
    SpelledFirst(src, j, "}");
    SpelledJoin(src, j + 1, PartsText(more), "`");
  }

  lemma SpelledJoin(src: string, i: nat, a: string, b: string)
    requires Spelled(src, i, a) && Spelled(src, i + |a|, b)
    ensures Spelled(src, i, a + b)
  {
    assert src[i..i + |a + b|] == src[i..i + |a|] + src[i + |a|..i + |a| + |b|];
  }

  lemma HoleReads(k: Chars, src: string, i: nat, end: nat, code: Code, more: Parts, j: nat)
    requires i + |PartsText(Hole(code, more))| + 1 <= end <= |src| && PartsRead(k, src, i, end, Hole(code, more))
    requires j == i + 2 + |CodeText(code)|
    ensures j + 1 + |PartsText(more)| + 1 <= end
    ensures CodeReads(k, src, i + 2, end, "", code) && PartsRead(k, src, j + 1, end, more)
  {
  }

  lemma RestSpelled(src: string, i: nat, a: string, rest: string, all: string)
    requires Spelled(src, i, all + "`") && all == a + rest && a != ""
    ensures src[i] == a[0] && Spelled(src, i + |a|, rest + "`")
  {
    assert all + "`" == a + (rest + "`");
    SpelledSplit(src, i, a, rest + "`");
    SpelledFirst(src, i, a);
  }

  lemma TemplateRaw(k: Chars, src: string, i: nat, end: nat)
    requires i < end <= |src| && src[i] !in "\\`" && (src[i] == '$' && i + 1 < end ==> src[i + 1] != '{')
    ensures Template(k, src, i, end) == Template(k, src, i + 1, end)
  {
  }

  lemma {:induction false} ReadsHoleParts(k: Chars, src: string, i: nat, end: nat, code: Code, more: Parts, j: nat,
          l: nat)
    requires j == i + 2 + |CodeText(code)| && l == j + 1 + |PartsText(more)| + 1 <= end <= |src|
    requires src[i] == '$' && src[i + 1] == '{' && Spelled(src, i + 2, CodeText(code)) && src[j] == '}'
    requires Spelled(src, j + 1, PartsText(more) + "`")
    requires CodeReads(k, src, i + 2, end, "", code) && PartsRead(k, src, j + 1, end, more)
    ensures Template(k, src, i, end) == (l, CodeNotes(code, i + 2) + PartsNotes(more, j + 1))
    decreases Hole(code, more), 0, 0
  {
    ReadsHoleCode(k, src, i + 2, end, code, j);
    ReadsHoleRest(k, src, i, end, CodeNotes(code, i + 2), more, j, l);
  }

  lemma {:induction false} ReadsHoleRest(k: Chars, src: string, i: nat, end: nat, notes: seq<Span>, more: Parts,
          j: nat, l: nat)
    requires l == j + 1 + |PartsText(more)| + 1 <= end <= |src| && i + 1 < end && src[i] == '$' && src[i + 1] == '{'
    requires Spelled(src, j + 1, PartsText(more) + "`") && PartsRead(k, src, j + 1, end, more)
    requires Scan(k, src, i + 2, end, "", 0, true) == (j + 1, notes)
    ensures Template(k, src, i, end) == (l, notes + PartsNotes(more, j + 1))
    decreases more, 3
  {
    ReadsParts(k, src, j + 1, end, more);
    TemplateHole(k, src, i, end, j + 1, notes, l, PartsNotes(more, j + 1));
  }

  lemma {:induction false} ReadsHoleCode(k: Chars, src: string, i: nat, end: nat, code: Code, j: nat)
    requires j == i + |CodeText(code)| && j < end <= |src| && Spelled(src, i, CodeText(code)) && src[j] == '}'
    requires CodeReads(k, src, i, end, "", code)
    ensures Scan(k, src, i, end, "", 0, true) == (j + 1, CodeNotes(code, i))
    decreases code, 2
  {
    ReadsCode(k, src, i, end, "", 0, true, code);
    HoleScan(k, src, i, end, j, PrevCode(k, "", code), CodeNotes(code, i));
  }

  lemma HoleScan(k: Chars, src: string, i: nat, end: nat, j: nat, p: string, notes: seq<Span>)
    requires i <= j < end <= |src|
    requires src[j] == '}' && Onward(k, src, i, "", [], end, 0, true) == Onward(k, src, j, p, notes, end, 0, true)
    ensures Scan(k, src, i, end, "", 0, true) == (j + 1, notes)
  {
    assert Step(k, src, j, end, p, 0, true) == Stepped(j + 1, p, 0, [], true);
    NoNotes(notes);
    NoNotes(Scan(k, src, i, end, "", 0, true).1);
  }

  lemma TemplateHole(k: Chars, src: string, i: nat, end: nat, j: nat, notes: seq<Span>, l: nat, more: seq<Span>)
    requires i + 1 < end <= |src| && src[i] == '$' && src[i + 1] == '{' && j <= |src| + 1
    requires Scan(k, src, i + 2, end, "", 0, true) == (j, notes) && Template(k, src, j, end) == (l, more)
    ensures Template(k, src, i, end) == (l, notes + more)
  {
  }

  lemma ScanReads(k: Chars, code: Code)
    requires CodeReads(k, CodeText(code), 0, |CodeText(code)|, "", code)
    ensures Scan(k, CodeText(code), 0, |CodeText(code)|, "", 0, false) == (|CodeText(code)|, CodeNotes(code, 0))
  {
    var src := CodeText(code);
    var r := Scan(k, src, |src|, |src|, PrevCode(k, "", code), 0, false);
    ReadsCode(k, src, 0, |src|, "", 0, false, code);
    NoNotes(CodeNotes(code, 0));
    NoNotes(Scan(k, src, 0, |src|, "", 0, false).1);
  }

  // ---- Taking the comments out ----------------------------------------------------------

  function Count(src: string, a: nat, b: nat): nat
    requires a <= b <= |src|
  {
    if a == b then 0 else Count(src, a, b - 1) + (if src[b - 1] == '\n' then 1 else 0)
  }

  function Breaks(n: nat): string {
    seq(n, _ => '\n')
  }

  /** What stands in for a comment: its line breaks, or one space. */
  function Filler(src: string, s: Span): string
    requires s.a <= s.b <= |src|
  {
    var nl := Count(src, s.a, s.b);
    if nl > 0 then Breaks(nl) else " "
  }

  /** Disjoint spans in ascending order between lo and hi. */
  predicate Ascending(lo: nat, hi: nat, spans: seq<Span>)
    decreases |spans|
  {
    if spans == [] then lo <= hi else lo <= spans[0].a < spans[0].b && Ascending(spans[0].b, hi, spans[1..])
  }

  lemma {:induction false} AscendingBound(lo: nat, hi: nat, spans: seq<Span>)
    requires Ascending(lo, hi, spans)
    ensures lo <= hi && (spans != [] ==> spans[0].b <= hi)
    decreases |spans|
  {
    if spans != [] { AscendingBound(spans[0].b, hi, spans[1..]); }
  }

  /** The text from lo to hi with every span replaced. */
  function Replaced(src: string, lo: nat, hi: nat, spans: seq<Span>): string
    requires hi <= |src| && Ascending(lo, hi, spans)
    decreases |spans|
  {
    if spans == [] then src[lo..hi]
    else
      AscendingBound(lo, hi, spans);
      src[lo..spans[0].a] + (Filler(src, spans[0]) + Replaced(src, spans[0].b, hi, spans[1..]))
  }

  /** The replacement loop of strip_comments. */
  method ReplaceSpans(src: string, spans: seq<Span>) returns (out: string)
    requires Ascending(0, |src|, spans)
    ensures out == Replaced(src, 0, |src|, spans)
  {
    out := "";
    var cur: nat := 0;
    for n := 0 to |spans|
      invariant Ascending(cur, |src|, spans[n..])
      invariant out + Replaced(src, cur, |src|, spans[n..]) == Replaced(src, 0, |src|, spans)
    {
      var s := spans[n];
      assert spans[n..][0] == s && spans[n..][1..] == spans[n + 1..];
      ReplaceTurn(src, cur, spans[n..], out);
      out := out + src[cur..s.a];
      var nl := Count(src, s.a, s.b);
      out := out + (if nl > 0 then Breaks(nl) else " ");
      cur := s.b;
    }
    AscendingBound(cur, |src|, []);
    out := out + src[cur..];
  }

  lemma ReplaceTurn(src: string, cur: nat, spans: seq<Span>, out: string)
    requires spans != [] && Ascending(cur, |src|, spans)
    ensures var s := spans[0];
      cur <= s.a < s.b <= |src| && Ascending(s.b, |src|, spans[1..]) &&
      out + Replaced(src, cur, |src|, spans) ==
        out + src[cur..s.a] + Filler(src, s) + Replaced(src, s.b, |src|, spans[1..])
  {
    AscendingBound(cur, |src|, spans);
    var s := spans[0];
    var rest := Replaced(src, s.b, |src|, spans[1..]);
    assert out + (src[cur..s.a] + (Filler(src, s) + rest)) == out + src[cur..s.a] + Filler(src, s) + rest;
  }

  lemma {:induction false} CountSlice(src: string, a: nat, b: nat, n: nat)
    requires a <= b <= |src| && n <= b - a
    ensures Count(src[a..b], 0, n) == Count(src, a, a + n)
  {
    if n > 0 { CountSlice(src, a, b, n - 1); }
  }

  lemma {:induction false} CountConcat(x: string, y: string, n: nat)
    requires n <= |y|
    ensures Count(x + y, 0, |x| + n) == Count(x, 0, |x|) + Count(y, 0, n)
    decreases n
  {
    if n > 0 {
      CountConcat(x, y, n - 1);
      assert (x + y)[|x| + n - 1] == y[n - 1];
    } else {
      CountPrefix(x, y, |x|);
    }
  }

  lemma {:induction false} CountPrefix(x: string, y: string, n: nat)
    requires n <= |x|
    ensures Count(x + y, 0, n) == Count(x, 0, n)
  {
    if n > 0 { CountPrefix(x, y, n - 1); }
  }

  lemma {:induction false} CountAdds(src: string, a: nat, b: nat, c: nat)
    requires a <= b <= c <= |src|
    ensures Count(src, a, c) == Count(src, a, b) + Count(src, b, c)
    decreases c
  {
    if b < c { CountAdds(src, a, b, c - 1); }
  }

  lemma {:induction false} CountBreaks(total: nat, n: nat)
    requires n <= total
    ensures Count(Breaks(total), 0, n) == n
  {
    if n > 0 { CountBreaks(total, n - 1); }
  }

  lemma FillerCount(src: string, s: Span)
    requires s.a <= s.b <= |src|
    ensures Count(Filler(src, s), 0, |Filler(src, s)|) == Count(src, s.a, s.b)
    ensures forall q :: 0 <= q < |Filler(src, s)| ==> Filler(src, s)[q] in " \n"
  {
    var nl := Count(src, s.a, s.b);
    CountBreaks(nl, nl);
    assert Count(" ", 0, 1) == 0;
  }

  /** The positions of the line breaks from a up to b. */
  function LineBreaks(src: string, a: nat, b: nat): set<nat>
    requires b <= |src|
  {
    set p: nat | a <= p < b && src[p] == '\n'
  }

  lemma {:induction false} CountIsCard(src: string, a: nat, b: nat)
    requires a <= b <= |src|
    ensures Count(src, a, b) == |LineBreaks(src, a, b)|
    decreases b
  {
    if a < b {
      CountIsCard(src, a, b - 1);
      assert LineBreaks(src, a, b) == LineBreaks(src, a, b - 1) + (if src[b - 1] == '\n' then {b - 1} else {});
    }
  }

  /** A comment is replaced by one space if it stands on one line, and by its line breaks otherwise: nothing glues. */
  lemma FillerExact(src: string, s: Span)
    requires s.a <= s.b <= |src|
    ensures LineBreaks(src, s.a, s.b) == {} ==> Filler(src, s) == " "
    ensures LineBreaks(src, s.a, s.b) != {} ==>
      |Filler(src, s)| == |LineBreaks(src, s.a, s.b)| > 0 &&
      forall q :: 0 <= q < |Filler(src, s)| ==> Filler(src, s)[q] == '\n'
  {
    CountIsCard(src, s.a, s.b);
  }

  /** The replacement keeps the number of line breaks. */
  lemma {:induction false} ReplacedKeepsLines(src: string, lo: nat, hi: nat, spans: seq<Span>)
    requires hi <= |src| && Ascending(lo, hi, spans)
    ensures lo <= hi && var out := Replaced(src, lo, hi, spans); Count(out, 0, |out|) == Count(src, lo, hi)
    decreases |spans|
  {
    AscendingBound(lo, hi, spans);
    if spans == [] {
      CountSlice(src, lo, hi, hi - lo);
    } else {
      var s := spans[0];
      var pre, fill, rest := src[lo..s.a], Filler(src, s), Replaced(src, s.b, hi, spans[1..]);
      ReplacedKeepsLines(src, s.b, hi, spans[1..]);
      PrefixLines(src, lo, s, rest, |rest|);
      CountAdds(src, lo, s.b, hi);
    }
  }

  lemma PrefixLines(src: string, lo: nat, s: Span, rest: string, n: nat)
    requires lo <= s.a <= s.b <= |src| && n <= |rest|
    ensures var pre, fill := src[lo..s.a], Filler(src, s);
      Count(pre + (fill + rest), 0, |pre| + (|fill| + n)) == Count(src, lo, s.b) + Count(rest, 0, n)
  {
    var pre, fill := src[lo..s.a], Filler(src, s);
    CountConcat(pre, fill + rest, |fill| + n);
    CountConcat(fill, rest, n);
    CountSlice(src, lo, s.a, s.a - lo);
    FillerCount(src, s);
    CountAdds(src, lo, s.a, s.b);
  }

  predicate Outside(spans: seq<Span>, p: nat) {
    forall i :: 0 <= i < |spans| ==> p < spans[i].a || spans[i].b <= p
  }

  /** Where the character at position p ends up. */
  function Moved(src: string, lo: nat, hi: nat, spans: seq<Span>, p: nat): int
    requires hi <= |src| && Ascending(lo, hi, spans) && p >= lo
    decreases |spans|
  {
    if spans == [] || p < spans[0].b then p - lo
    else
      AscendingBound(lo, hi, spans);
      spans[0].a - lo + |Filler(src, spans[0])| + Moved(src, spans[0].b, hi, spans[1..], p)
  }

  /** A character outside the comments survives, on its line. */
  lemma {:induction false} Survives(src: string, lo: nat, hi: nat, spans: seq<Span>, p: nat)
    requires hi <= |src| && Ascending(lo, hi, spans) && lo <= p < hi && Outside(spans, p)
    ensures var out, q := Replaced(src, lo, hi, spans), Moved(src, lo, hi, spans, p);
      0 <= q < |out| && out[q] == src[p] && Count(out, 0, q) == Count(src, lo, p)
    decreases |spans|
  {
    if spans == [] {
      CountSlice(src, lo, hi, p - lo);
    } else {
      AscendingBound(lo, hi, spans);
      if p < spans[0].a {
        SurvivesInFront(src, lo, spans[0].a, Filler(src, spans[0]) + Replaced(src, spans[0].b, hi, spans[1..]), p);
      } else {
        assert forall i :: 0 <= i < |spans[1..]| ==> spans[1..][i] == spans[i + 1];
        Survives(src, spans[0].b, hi, spans[1..], p);
        var rest, q := Replaced(src, spans[0].b, hi, spans[1..]), Moved(src, spans[0].b, hi, spans[1..], p);
        SurvivesBehind(src, lo, spans[0], rest, p, q);
      }
    }
  }

  lemma SurvivesInFront(src: string, lo: nat, a: nat, rest: string, p: nat)
    requires lo <= p < a <= |src|
    ensures var out, q := src[lo..a] + rest, p - lo;
      q < |out| && out[q] == src[p] && Count(out, 0, q) == Count(src, lo, p)
  {
    CountPrefix(src[lo..a], rest, p - lo);
    CountSlice(src, lo, a, p - lo);
  }

  lemma SurvivesBehind(src: string, lo: nat, s: Span, rest: string, p: nat, q: nat)
    requires lo <= s.a <= s.b <= p < |src| && q < |rest| && rest[q] == src[p] && Count(rest, 0, q) == Count(src, s.b, p)
    ensures var out, q' := src[lo..s.a] + (Filler(src, s) + rest), s.a - lo + |Filler(src, s)| + q;
      q' < |out| && out[q'] == src[p] && Count(out, 0, q') == Count(src, lo, p)
  {
    PrefixLines(src, lo, s, rest, q);
    CountAdds(src, lo, s.b, p);
  }

  /** Survivors keep their order. */
  lemma {:induction false} OrderKept(src: string, lo: nat, hi: nat, spans: seq<Span>, p: nat, p': nat)
    requires hi <= |src| && Ascending(lo, hi, spans) && lo <= p < p' < hi && Outside(spans, p) && Outside(spans, p')
    ensures Moved(src, lo, hi, spans, p) < Moved(src, lo, hi, spans, p')
    decreases |spans|
  {
    if spans != [] && p' >= spans[0].b {
      AscendingBound(lo, hi, spans);
      assert forall i :: 0 <= i < |spans[1..]| ==> spans[1..][i] == spans[i + 1];
      if p >= spans[0].b {
        OrderKept(src, spans[0].b, hi, spans[1..], p, p');
      } else {
        Survives(src, spans[0].b, hi, spans[1..], p');
      }
    }
  }

  /** Position q of the result shows the character of position p. */
  predicate Shows(src: string, lo: nat, hi: nat, spans: seq<Span>, p: nat, q: nat)
    requires hi <= |src| && Ascending(lo, hi, spans)
  {
    lo <= p < hi && Outside(spans, p) && Moved(src, lo, hi, spans, p) == q
  }

  /** Every character of the result is a filler or a survivor: nothing else is made up. */
  lemma {:induction false} NothingMadeUp(src: string, lo: nat, hi: nat, spans: seq<Span>, q: nat)
    requires hi <= |src| && Ascending(lo, hi, spans) && q < |Replaced(src, lo, hi, spans)|
    ensures Replaced(src, lo, hi, spans)[q] in " \n" || exists p :: Shows(src, lo, hi, spans, p, q)
    decreases |spans|
  {
    if spans == [] {
      assert Shows(src, lo, hi, spans, lo + q, q);
    } else {
      AscendingBound(lo, hi, spans);
      var s := spans[0];
      var pre, fill := s.a - lo, |Filler(src, s)|;
      if q < pre {
        ShowsInFront(src, lo, hi, spans, lo + q);
      } else if q < pre + fill {
        FillerShows(src, lo, hi, spans, q);
      } else {
        var r := q - pre - fill;
        RestShows(src, lo, hi, spans, r);
        NothingMadeUp(src, s.b, hi, spans[1..], r);
        if p :| Shows(src, s.b, hi, spans[1..], p, r) {
          ShowsBehind(src, lo, hi, spans, p, r);
        }
      }
    }
  }

  lemma FillerShows(src: string, lo: nat, hi: nat, spans: seq<Span>, q: nat)
    requires hi <= |src| && Ascending(lo, hi, spans) && spans != [] && spans[0].b <= |src|
    requires spans[0].a - lo <= q < spans[0].a - lo + |Filler(src, spans[0])|
    ensures q < |Replaced(src, lo, hi, spans)| && Replaced(src, lo, hi, spans)[q] in " \n"
  {
    AscendingBound(lo, hi, spans);
    FillerCount(src, spans[0]);
    assert Replaced(src, lo, hi, spans)[q] == Filler(src, spans[0])[q - (spans[0].a - lo)];
  }

  lemma RestShows(src: string, lo: nat, hi: nat, spans: seq<Span>, r: nat)
    requires hi <= |src| && Ascending(lo, hi, spans) && spans != [] && spans[0].b <= hi
    ensures var q, rest := spans[0].a - lo + |Filler(src, spans[0])| + r, Replaced(src, spans[0].b, hi, spans[1..]);
      (r < |rest| <==> q < |Replaced(src, lo, hi, spans)|) &&
      (r < |rest| ==> Replaced(src, lo, hi, spans)[q] == rest[r])
  {
  }

  lemma ShowsInFront(src: string, lo: nat, hi: nat, spans: seq<Span>, p: nat)
    requires hi <= |src| && Ascending(lo, hi, spans) && spans != [] && lo <= p < spans[0].a
    ensures Shows(src, lo, hi, spans, p, p - lo)
  {
    AscendingBound(lo, hi, spans);
    AscendingOutside(spans[0].b, hi, spans[1..], p);
    assert spans == [spans[0]] + spans[1..];
  }

  lemma ShowsBehind(src: string, lo: nat, hi: nat, spans: seq<Span>, p: nat, r: nat)
    requires hi <= |src| && Ascending(lo, hi, spans) && spans != []
    requires Ascending(spans[0].b, hi, spans[1..]) && Shows(src, spans[0].b, hi, spans[1..], p, r)
    ensures spans[0].b <= hi && Shows(src, lo, hi, spans, p, spans[0].a - lo + |Filler(src, spans[0])| + r)
  {
    AscendingBound(lo, hi, spans);
    assert spans == [spans[0]] + spans[1..];
  }

  lemma {:induction false} AscendingOutside(lo: nat, hi: nat, spans: seq<Span>, p: nat)
    requires Ascending(lo, hi, spans) && p < lo
    ensures forall i :: 0 <= i < |spans| ==> p < spans[i].a
    decreases |spans|
  {
    if spans != [] { AscendingOutside(spans[0].b, hi, spans[1..], p); }
  }

  // ---- What strip_comments promises -----------------------------------------------------

  lemma {:induction false} CommentsAscend(src: string, end: nat, spans: seq<Span>, lo: nat, hi: nat)
    requires lo <= hi && Comments(src, end, spans, lo, hi)
    ensures Ascending(lo, hi, spans)
    decreases |spans|
  {
    if spans != [] {
      assert forall i :: 0 <= i < |spans[1..]| ==> spans[1..][i] == spans[i + 1];
      CommentsAscend(src, end, spans[1..], spans[0].b, hi);
    }
  }

  /** The comment spans of a script body: in ascending order, disjoint, each one a comment. */
  method CommentSpans(k: Chars, src: string, start: nat, end: nat) returns (spans: seq<Span>)
    requires start <= end <= |src|
    ensures spans == Scan(k, src, start, end, "", 0, false).1
    ensures Comments(src, end, spans, start, |src|) && Ascending(0, |src|, spans)
  {
    var scanner := new CommentScanner(k, src);
    var _ := scanner.ReadCode(start, end, false);
    ScanComments(k, src, start, end, "", 0, false);
    ScanAscends(k, src, start, end);
    return scanner.spans;
  }

  lemma ScanAscends(k: Chars, src: string, start: nat, end: nat)
    requires start <= end <= |src|
    ensures Ascending(0, |src|, Scan(k, src, start, end, "", 0, false).1)
  {
    var r := Scan(k, src, start, end, "", 0, false);
    ScanComments(k, src, start, end, "", 0, false);
    assert Comments(src, end, r.1, 0, |src|);
    CommentsAscend(src, end, r.1, 0, |src|);
  }

  /** The character at position p is at position q of the result, with as many line breaks in front of it. */
  predicate Kept(src: string, spans: seq<Span>, p: nat, q: int)
    requires p < |src| && Ascending(0, |src|, spans)
  {
    var out := Replaced(src, 0, |src|, spans);
    0 <= q < |out| && out[q] == src[p] && Count(out, 0, q) == Count(src, 0, p)
  }

  /**
   * Replacing the comments of any script body keeps every other character, in order and on its
   * line, and puts nothing in between but spaces and line breaks.
   */
  lemma StripIsSafe(k: Chars, src: string, start: nat, end: nat)
    requires start <= end <= |src|
    ensures var spans := Scan(k, src, start, end, "", 0, false).1;
      Ascending(0, |src|, spans) &&
      var out := Replaced(src, 0, |src|, spans);
      && Count(out, 0, |out|) == Count(src, 0, |src|)
      && (forall p :: 0 <= p < |src| && Outside(spans, p) ==> Kept(src, spans, p, Moved(src, 0, |src|, spans, p)))
      && (forall p, p' :: 0 <= p < p' < |src| && Outside(spans, p) && Outside(spans, p') ==>
            Moved(src, 0, |src|, spans, p) < Moved(src, 0, |src|, spans, p'))
      && (forall q :: 0 <= q < |out| ==> out[q] in " \n" || exists p :: Shows(src, 0, |src|, spans, p, q))
  {
    ScanAscends(k, src, start, end);
    ReplacementIsSafe(src, Scan(k, src, start, end, "", 0, false).1);
  }

  lemma ReplacementIsSafe(src: string, spans: seq<Span>)
    requires Ascending(0, |src|, spans)
    ensures var out := Replaced(src, 0, |src|, spans);
      && Count(out, 0, |out|) == Count(src, 0, |src|)
      && (forall p :: 0 <= p < |src| && Outside(spans, p) ==> Kept(src, spans, p, Moved(src, 0, |src|, spans, p)))
      && (forall p, p' :: 0 <= p < p' < |src| && Outside(spans, p) && Outside(spans, p') ==>
            Moved(src, 0, |src|, spans, p) < Moved(src, 0, |src|, spans, p'))
      && (forall q :: 0 <= q < |out| ==> out[q] in " \n" || exists p :: Shows(src, 0, |src|, spans, p, q))
  {
    var out := Replaced(src, 0, |src|, spans);
    ReplacedKeepsLines(src, 0, |src|, spans);
    forall p | 0 <= p < |src| && Outside(spans, p)
      ensures Kept(src, spans, p, Moved(src, 0, |src|, spans, p))
    {
      Survives(src, 0, |src|, spans, p);
    }
    forall p, p' | 0 <= p < p' < |src| && Outside(spans, p) && Outside(spans, p')
      ensures Moved(src, 0, |src|, spans, p) < Moved(src, 0, |src|, spans, p')
    {
      OrderKept(src, 0, |src|, spans, p, p');
    }
    forall q | 0 <= q < |out|
      ensures out[q] in " \n" || exists p :: Shows(src, 0, |src|, spans, p, q)
    {
      NothingMadeUp(src, 0, |src|, spans, q);
    }
  }

  function Blank(text: string): string {
    Filler(text, Span(0, |text|))
  }

  /** The text of a program with every comment blanked. */
  function BlankCode(code: Code): string
    decreases code
  {
    match code
    case Empty => ""
    case Then(tok, rest) => BlankTok(tok) + BlankCode(rest)
  }

  function BlankTok(t: Tok): string
    decreases t
  {
    match t
    case LineNote(_) => Blank(TokText(t))
    case BlockNote(_) => Blank(TokText(t))
    case Literal(parts) => "`" + (BlankParts(parts) + "`")
    case Braces(code) => "{" + (BlankCode(code) + "}")
    case _ => TokText(t)
  }

  function BlankParts(parts: Parts): string
    decreases parts
  {
    match parts
    case Done => ""
    case Raw(c, more) => [c] + BlankParts(more)
    case Escaped(c, more) => "\\" + ([c] + BlankParts(more))
    case Hole(code, more) => "${" + (BlankCode(code) + ("}" + BlankParts(more)))
  }

  /** The text from lo to hi with the spans replaced, provided they are spans of it. */
  function Strip(src: string, lo: nat, hi: nat, spans: seq<Span>): Option<string> {
    if hi <= |src| && Ascending(lo, hi, spans) then Some(Replaced(src, lo, hi, spans)) else None
  }

  lemma {:induction false} StripJoin(src: string, lo: nat, mid: nat, hi: nat, s: seq<Span>, t: seq<Span>, a: string,
          b: string)
    requires Strip(src, lo, mid, s) == Some(a) && Strip(src, mid, hi, t) == Some(b)
    ensures Strip(src, lo, hi, s + t) == Some(a + b)
    decreases |s|
  {
    AscendingBound(mid, hi, t);
    if s == [] {
      assert s + t == t;
      StripAfter(src, lo, mid, hi, t, b);
    } else {
      AscendingBound(lo, mid, s);
      var f, r := Filler(src, s[0]), Replaced(src, s[0].b, mid, s[1..]);
      StripJoin(src, s[0].b, mid, hi, s[1..], t, r, b);
      assert (s + t)[1..] == s[1..] + t;
      StripFirst(src, lo, hi, s + t, r + b);
      StringAssoc(src[lo..s[0].a], f, r, b);
    }
  }

  lemma StripFirst(src: string, lo: nat, hi: nat, spans: seq<Span>, rest: string)
    requires spans != [] && lo <= spans[0].a < spans[0].b && Strip(src, spans[0].b, hi, spans[1..]) == Some(rest)
    ensures spans[0].b <= |src|
    ensures Strip(src, lo, hi, spans) == Some(src[lo..spans[0].a] + (Filler(src, spans[0]) + rest))
  {
    AscendingBound(spans[0].b, hi, spans[1..]);
  }

  lemma StringAssoc(a: string, f: string, r: string, b: string)
    ensures (a + (f + r)) + b == a + (f + (r + b))
  {
  }

  lemma StripAfter(src: string, lo: nat, mid: nat, hi: nat, t: seq<Span>, b: string)
    requires lo <= mid && Strip(src, mid, hi, t) == Some(b)
    ensures mid <= |src| && Strip(src, lo, hi, t) == Some(src[lo..mid] + b)
  {
    AscendingBound(mid, hi, t);
    if t != [] {
      var more := Filler(src, t[0]) + Replaced(src, t[0].b, hi, t[1..]);
      assert src[lo..t[0].a] + more == src[lo..mid] + (src[mid..t[0].a] + more);
    } else {
      assert src[lo..hi] == src[lo..mid] + src[mid..hi];
    }
  }

  lemma StripText(src: string, i: nat, text: string)
    requires Spelled(src, i, text)
    ensures Strip(src, i, i + |text|, []) == Some(text)
  {
  }

  lemma StripComment(src: string, i: nat, text: string)
    requires Spelled(src, i, text) && text != ""
    ensures Strip(src, i, i + |text|, [Span(i, i + |text|)]) == Some(Blank(text))
  {
    var s := Span(i, i + |text|);
    CountSlice(src, i, i + |text|, |text|);
    assert Filler(src, s) == Blank(text);
    assert src[i..i] == "" && [s][1..] == [];
    assert Ascending(i, i + |text|, [s]);
    assert Replaced(src, i, i + |text|, [s]) == src[i..i] + (Filler(src, s) + src[i + |text|..i + |text|]);
    assert Replaced(src, i, i + |text|, [s]) == Blank(text);
  }

  /** The comments of a program taken out of its text leave the program with its comments blanked. */
  lemma {:induction false} BlanksCode(src: string, i: nat, code: Code)
    requires Spelled(src, i, CodeText(code))
    ensures Strip(src, i, i + |CodeText(code)|, CodeNotes(code, i)) == Some(BlankCode(code))
    decreases code, 1
  {
    match code {
      case Empty => StripText(src, i, "");
      case Then(tok, rest) =>
        SpelledSplit(src, i, TokText(tok), CodeText(rest));
        BlanksThen(src, i, tok, rest, i + |TokText(tok)|, i + |CodeText(code)|);
    }
  }

  lemma {:induction false} BlanksThen(src: string, i: nat, tok: Tok, rest: Code, j: nat, l: nat)
    requires j == i + |TokText(tok)| && l == j + |CodeText(rest)|
    requires Spelled(src, i, TokText(tok)) && Spelled(src, j, CodeText(rest))
    ensures Strip(src, i, l, CodeNotes(Then(tok, rest), i)) == Some(BlankCode(Then(tok, rest)))
    decreases Then(tok, rest), 0
  {
    BlanksTok(src, i, tok);
    BlanksRest(src, i, TokNotes(tok, i), BlankTok(tok), rest, j, l);
  }

  lemma {:induction false} BlanksRest(src: string, i: nat, s: seq<Span>, front: string, rest: Code, j: nat, l: nat)
    requires l == j + |CodeText(rest)| && Strip(src, i, j, s) == Some(front) && Spelled(src, j, CodeText(rest))
    ensures Strip(src, i, l, s + CodeNotes(rest, j)) == Some(front + BlankCode(rest))
    decreases rest, 2
  {
    BlanksCode(src, j, rest);
    StripJoin(src, i, j, l, s, CodeNotes(rest, j), front, BlankCode(rest));
  }

  lemma {:induction false} BlanksTok(src: string, i: nat, t: Tok)
    requires Spelled(src, i, TokText(t))
    ensures Strip(src, i, i + |TokText(t)|, TokNotes(t, i)) == Some(BlankTok(t))
    decreases t, 0
  {
    match t {
      case Literal(_) => BlanksTemplate(src, i, t);
      case Braces(_) => BlanksGroup(src, i, t);
      case _ => BlanksFlat(src, i, t);
    }
  }

  lemma {:induction false} BlanksTemplate(src: string, i: nat, t: Tok)
    requires t.Literal? && Spelled(src, i, TokText(t))
    ensures Strip(src, i, i + |TokText(t)|, TokNotes(t, i)) == Some(BlankTok(t))
    decreases t.parts, 4
  {
    LiteralPieces(src, i, t.parts);
    BlanksLiteral(src, i, t.parts, i + 1 + |PartsText(t.parts)|);
  }

  lemma {:induction false} BlanksGroup(src: string, i: nat, t: Tok)
    requires t.Braces? && Spelled(src, i, TokText(t))
    ensures Strip(src, i, i + |TokText(t)|, TokNotes(t, i)) == Some(BlankTok(t))
    decreases t.code, 4
  {
    BracesPieces(src, i, t.code);
    BlanksBraces(src, i, t.code, i + 1 + |CodeText(t.code)|);
  }

  lemma LiteralPieces(src: string, i: nat, parts: Parts)
    requires Spelled(src, i, TokText(Literal(parts)))
    ensures var j := i + 1 + |PartsText(parts)|;
      j + 1 == i + |TokText(Literal(parts))| && Spelled(src, i, "`") && Spelled(src, i + 1, PartsText(parts)) &&
        Spelled(src, j, "`")
  {
    SpelledWrapped(src, i, "`", PartsText(parts), "`");
  }

  lemma BracesPieces(src: string, i: nat, code: Code)
    requires Spelled(src, i, TokText(Braces(code)))
    ensures var j := i + 1 + |CodeText(code)|;
      j + 1 == i + |TokText(Braces(code))| && Spelled(src, i, "{") && Spelled(src, i + 1, CodeText(code)) &&
        Spelled(src, j, "}")
  {
    SpelledWrapped(src, i, "{", CodeText(code), "}");
  }

  lemma BlanksFlat(src: string, i: nat, t: Tok)
    requires !t.Literal? && !t.Braces? && Spelled(src, i, TokText(t))
    ensures Strip(src, i, i + |TokText(t)|, TokNotes(t, i)) == Some(BlankTok(t))
  {
    if t.LineNote? || t.BlockNote? {
      StripComment(src, i, TokText(t));
    } else {
      StripText(src, i, TokText(t));
    }
  }

  lemma {:induction false} BlanksLiteral(src: string, i: nat, parts: Parts, l: nat)
    requires l == i + 1 + |PartsText(parts)|
    requires Spelled(src, i, "`") && Spelled(src, i + 1, PartsText(parts)) && Spelled(src, l, "`")
    ensures Strip(src, i, l + 1, PartsNotes(parts, i + 1)) == Some("`" + (BlankParts(parts) + "`"))
    decreases parts, 3
  {
    BlanksParts(src, i + 1, parts);
    StripWrapped(src, i, "`", "`", l, PartsNotes(parts, i + 1), BlankParts(parts));
  }

  lemma {:induction false} BlanksBraces(src: string, i: nat, code: Code, l: nat)
    requires l == i + 1 + |CodeText(code)|
    requires Spelled(src, i, "{") && Spelled(src, i + 1, CodeText(code)) && Spelled(src, l, "}")
    ensures Strip(src, i, l + 1, CodeNotes(code, i + 1)) == Some("{" + (BlankCode(code) + "}"))
    decreases code, 2
  {
    BlanksCode(src, i + 1, code);
    StripWrapped(src, i, "{", "}", l, CodeNotes(code, i + 1), BlankCode(code));
  }

  lemma SpelledWrapped(src: string, i: nat, open: string, inner: string, close: string)
    requires Spelled(src, i, open + (inner + close))
    ensures Spelled(src, i, open) && Spelled(src, i + |open|, inner) && Spelled(src, i + |open| + |inner|, close)
  {
    SpelledSplit(src, i, open, inner + close);
    SpelledSplit(src, i + |open|, inner, close);
  }

  /** Text with one plain character in front and one behind. */
  lemma StripWrapped(src: string, i: nat, open: string, close: string, l: nat, spans: seq<Span>, blank: string)
    requires |open| == |close| == 1 && Spelled(src, i, open) && Spelled(src, l, close)
    requires Strip(src, i + 1, l, spans) == Some(blank)
    ensures Strip(src, i, l + 1, spans) == Some(open + (blank + close))
  {
    StripText(src, l, close);
    StripJoin(src, i + 1, l, l + 1, spans, [], blank, close);
    assert spans + [] == spans;
    StripPrefixed(src, i, open, l + 1, spans, blank + close);
  }

  lemma StripPrefixed(src: string, i: nat, open: string, l: nat, spans: seq<Span>, blank: string)
    requires Spelled(src, i, open) && Strip(src, i + |open|, l, spans) == Some(blank)
    ensures Strip(src, i, l, spans) == Some(open + blank)
  {
    StripText(src, i, open);
    StripJoin(src, i, i + |open|, l, [], spans, open, blank);
    assert [] + spans == spans;
  }

  lemma {:induction false} BlanksParts(src: string, i: nat, parts: Parts)
    requires Spelled(src, i, PartsText(parts))
    ensures Strip(src, i, i + |PartsText(parts)|, PartsNotes(parts, i)) == Some(BlankParts(parts))
    decreases parts, 2
  {
    match parts {
      case Done => StripText(src, i, "");
      case Raw(_, _) => BlanksRaw(src, i, parts);
      case Escaped(c, more) => BlanksEscape(src, i, c, more);
      case Hole(code, more) => BlanksHole(src, i, code, more);
    }
  }

  lemma {:induction false} BlanksRaw(src: string, i: nat, parts: Parts)
    requires parts.Raw? && Spelled(src, i, PartsText(parts))
    ensures Strip(src, i, i + |PartsText(parts)|, PartsNotes(parts, i)) == Some(BlankParts(parts))
    decreases parts, 1
  {
    SpelledSplit(src, i, [parts.c], PartsText(parts.more));
    BlanksParts(src, i + 1, parts.more);
    StripPrefixed(src, i, [parts.c], i + 1 + |PartsText(parts.more)|, PartsNotes(parts.more, i + 1),
        BlankParts(parts.more));
  }

  lemma {:induction false} BlanksEscape(src: string, i: nat, c: char, more: Parts)
    requires Spelled(src, i, PartsText(Escaped(c, more)))
    ensures Strip(src, i, i + |PartsText(Escaped(c, more))|, PartsNotes(Escaped(c, more), i)) ==
      Some(BlankParts(Escaped(c, more)))
    decreases Escaped(c, more), 1
  {
    SpelledWrapped(src, i, "\\", [c], PartsText(more));
    BlanksEscapePieces(src, i, c, more, i + 2 + |PartsText(more)|);
  }

  lemma {:induction false} BlanksEscapePieces(src: string, i: nat, c: char, more: Parts, l: nat)
    requires l == i + 2 + |PartsText(more)|
    requires Spelled(src, i, "\\") && Spelled(src, i + 1, [c]) && Spelled(src, i + 2, PartsText(more))
    ensures Strip(src, i, l, PartsNotes(Escaped(c, more), i)) == Some(BlankParts(Escaped(c, more)))
    decreases Escaped(c, more), 0
  {
    BlanksParts(src, i + 2, more);
    BlanksEscaped(src, i, c, l, PartsNotes(more, i + 2), BlankParts(more));
  }

  lemma {:induction false} BlanksHole(src: string, i: nat, code: Code, more: Parts)
    requires Spelled(src, i, PartsText(Hole(code, more)))
    ensures Strip(src, i, i + |PartsText(Hole(code, more))|, PartsNotes(Hole(code, more), i)) ==
      Some(BlankParts(Hole(code, more)))
    decreases Hole(code, more), 1
  {
    var j := i + 2 + |CodeText(code)|;
    HoleBlank(src, i, code, more, j);
    BlanksHolePieces(src, i, code, more, j, j + 1 + |PartsText(more)|);
  }

  lemma {:induction false} BlanksHolePieces(src: string, i: nat, code: Code, more: Parts, j: nat, l: nat)
    requires j == i + 2 + |CodeText(code)| && l == j + 1 + |PartsText(more)|
    requires Spelled(src, i, "${") && Spelled(src, i + 2, CodeText(code)) && Spelled(src, j, "}")
    requires Spelled(src, j + 1, PartsText(more))
    ensures l == i + |PartsText(Hole(code, more))|
    ensures Strip(src, i, l, PartsNotes(Hole(code, more), i)) == Some(BlankParts(Hole(code, more)))
    decreases Hole(code, more), 0, 1
  {
    HoleNotes(i, code, more, j);
    BlanksHoleCode(src, i, code, more, j, l);
  }

  lemma BlanksEscaped(src: string, i: nat, c: char, l: nat, spans: seq<Span>, blank: string)
    requires Spelled(src, i, "\\") && Spelled(src, i + 1, [c]) && Strip(src, i + 2, l, spans) == Some(blank)
    ensures Strip(src, i, l, spans) == Some("\\" + ([c] + blank))
  {
    StripPrefixed(src, i + 1, [c], l, spans, blank);
    StripPrefixed(src, i, "\\", l, spans, [c] + blank);
  }

  lemma HoleBlank(src: string, i: nat, code: Code, more: Parts, j: nat)
    requires Spelled(src, i, PartsText(Hole(code, more))) && j == i + 2 + |CodeText(code)|
    ensures Spelled(src, i, "${") && Spelled(src, i + 2, CodeText(code)) && Spelled(src, j, "}")
    ensures Spelled(src, j + 1, PartsText(more))
  {
    SpelledWrapped(src, i, "${", CodeText(code), "}" + PartsText(more));
    SpelledSplit(src, j, "}", PartsText(more));
  }

  lemma {:induction false} BlanksHoleCode(src: string, i: nat, code: Code, more: Parts, j: nat, l: nat)
    requires j == i + 2 + |CodeText(code)| && l == j + 1 + |PartsText(more)|
    requires Spelled(src, i, "${") && Spelled(src, i + 2, CodeText(code)) && Spelled(src, j, "}")
    requires Spelled(src, j + 1, PartsText(more))
    ensures Strip(src, i, l, CodeNotes(code, i + 2) + PartsNotes(more, j + 1)) ==
      Some("${" + (BlankCode(code) + ("}" + BlankParts(more))))
    decreases Hole(code, more), 0, 0
  {
    BlanksCode(src, i + 2, code);
    BlanksHoleRest(src, i, CodeNotes(code, i + 2), BlankCode(code), more, j, l);
  }

  lemma {:induction false} BlanksHoleRest(src: string, i: nat, s: seq<Span>, inner: string, more: Parts, j: nat, l: nat)
    requires l == j + 1 + |PartsText(more)| && Strip(src, i + 2, j, s) == Some(inner)
    requires Spelled(src, i, "${") && Spelled(src, j, "}") && Spelled(src, j + 1, PartsText(more))
    ensures Strip(src, i, l, s + PartsNotes(more, j + 1)) == Some("${" + (inner + ("}" + BlankParts(more))))
    decreases more, 3
  {
    BlanksParts(src, j + 1, more);
    BlanksTail(src, i, j, l, s, inner, PartsNotes(more, j + 1), BlankParts(more));
  }

  lemma BlanksTail(src: string, i: nat, j: nat, l: nat, s: seq<Span>, inner: string, t: seq<Span>, tail: string)
    requires Spelled(src, i, "${") && Spelled(src, j, "}")
    requires Strip(src, i + 2, j, s) == Some(inner) && Strip(src, j + 1, l, t) == Some(tail)
    ensures Strip(src, i, l, s + t) == Some("${" + (inner + ("}" + tail)))
  {
    StripPrefixed(src, j, "}", l, t, tail);
    StripJoin(src, i + 2, j, l, s, t, inner, "}" + tail);
    StripPrefixed(src, i, "${", l, s + t, inner + ("}" + tail));
  }

  lemma SpelledWhole(text: string)
    ensures Spelled(text, 0, text)
  {
    assert text[0..|text|] == text;
  }

  lemma WholeBlank(src: string, code: Code)
    requires src == CodeText(code)
    ensures Strip(src, 0, |src|, CodeNotes(code, 0)) == Some(BlankCode(code))
  {
    SpelledWhole(src);
    BlanksCode(src, 0, code);
  }

  // ---- A body inside a page -------------------------------------------------------------

  /** Both readers stand at the same place, or both are past the end. */
  predicate Level(end: nat, i: nat, j: nat) {
    i == j || (i >= end && j >= end)
  }

  function Clipped(s: Span, end: nat): Span {
    if s.b > end then s.(b := end) else s
  }

  predicate SameClipped(end: nat, s: seq<Span>, t: seq<Span>) {
    |s| == |t| && forall n :: 0 <= n < |s| ==> Clipped(s[n], end) == t[n]
  }

  lemma {:induction false} SkipStringAlone(src: string, i: nat, end: nat, q: char)
    requires end <= |src| && i <= end + 1
    ensures Level(end, SkipString(src, i, q), SkipString(src[..end], i, q))
    decreases end + 1 - i
  {
    if i < end {
      if src[i] == '\\' {
        SkipStringAlone(src, i + 2, end, q);
      } else if src[i] != q {
        SkipStringAlone(src, i + 1, end, q);
      }
    }
  }

  lemma {:induction false} SkipRegexAlone(src: string, i: nat, end: nat, cls: bool)
    requires end <= |src| && i <= end + 1
    ensures SkipRegex(src, i, end, cls) == SkipRegex(src[..end], i, end, cls)
    decreases end + 1 - i
  {
    if i < end {
      if src[i] == '\\' {
        SkipRegexAlone(src, i + 2, end, cls);
      } else {
        SkipRegexAlone(src, i + 1, end, if src[i] == '[' then true else if src[i] == ']' then false else cls);
      }
    }
  }

  lemma {:induction false} BackAlone(src: string, i: nat, end: nat, kind: char -> bool)
    requires i <= end <= |src|
    ensures Back(src[..end], i, kind) == Back(src, i, kind)
    decreases i
  {
    if i > 0 && kind(src[i - 1]) { BackAlone(src, i - 1, end, kind); }
  }

  lemma RegexAllowedAlone(k: Chars, src: string, i: nat, end: nat, prev: string)
    requires i <= end <= |src|
    ensures RegexAllowed(k, src[..end], i, prev) == RegexAllowed(k, src, i, prev)
  {
    BackAlone(src, i, end, k.space);
    var j := Back(src, i, k.space);
    BackAlone(src, j, end, InWord(k));
    assert src[..end][Back(src, j, InWord(k))..j] == src[Back(src, j, InWord(k))..j];
  }

  /** A search that ends inside the body finds the same place; otherwise the body holds none. */
  lemma FindAlone(src: string, pat: string, i: nat, end: nat)
    requires i <= end <= |src|
    ensures var b, c := Find(src, pat, i), Find(src[..end], pat, i);
      if b >= 0 && b + |pat| <= end then c == b else c == -1
  {
    var b, c := Find(src, pat, i), Find(src[..end], pat, i);
    if c >= 0 { SpelledAlone(src, c, end, pat); }
    if b >= 0 && b + |pat| <= end { SpelledAlone(src, b, end, pat); }
  }

  lemma SpelledAlone(src: string, b: nat, end: nat, pat: string)
    requires b + |pat| <= end <= |src|
    ensures Spelled(src[..end], b, pat) <==> Spelled(src, b, pat)
  {
    assert src[..end][b..b + |pat|] == src[b..b + |pat|];
  }

  /** A body is read as if it stood alone; only a block comment left open in it may run on behind it. */
  lemma {:induction false} ScanAlone(k: Chars, src: string, i: nat, end: nat, prev: string, depth: int, stop: bool)
    requires i <= end + 1 && end <= |src|
    ensures var r, a := Scan(k, src, i, end, prev, depth, stop), Scan(k, src[..end], i, end, prev, depth, stop);
      Level(end, r.0, a.0) && SameClipped(end, r.1, a.1)
    decreases end + 1 - i, 1
  {
    if i < end {
      var s, t := Step(k, src, i, end, prev, depth, stop), Step(k, src[..end], i, end, prev, depth, stop);
      StepAlone(k, src, i, end, prev, depth, stop);
      if !s.done {
        assert s.i >= end ==> Scan(k, src, s.i, end, s.prev, s.depth, stop).1 == [];
        assert t.i >= end ==> Scan(k, src[..end], t.i, end, s.prev, s.depth, stop).1 == [];
        if s.i < end { ScanAlone(k, src, s.i, end, s.prev, s.depth, stop); }
      }
    }
  }

  lemma {:induction false} StepAlone(k: Chars, src: string, i: nat, end: nat, prev: string, depth: int, stop: bool)
    requires i < end <= |src|
    ensures var s, t := Step(k, src, i, end, prev, depth, stop), Step(k, src[..end], i, end, prev, depth, stop);
      && Level(end, s.i, t.i) && SameClipped(end, s.spans, t.spans)
      && s.prev == t.prev && s.depth == t.depth && s.done == t.done
    decreases end + 1 - i, 0
  {
    if src[i] == '/' && i + 1 < end {
      SlashAlone(k, src, i, end, prev, depth, stop);
    } else if src[i] in "\"'" {
      SkipStringAlone(src, i + 1, end, src[i]);
    } else if src[i] == '`' {
      TemplateAlone(k, src, i + 1, end);
    }
  }

  lemma SlashAlone(k: Chars, src: string, i: nat, end: nat, prev: string, depth: int, stop: bool)
    requires i + 1 < end <= |src| && src[i] == '/'
    ensures var s, t := Step(k, src, i, end, prev, depth, stop), Step(k, src[..end], i, end, prev, depth, stop);
      && Level(end, s.i, t.i) && SameClipped(end, s.spans, t.spans)
      && s.prev == t.prev && s.depth == t.depth && s.done == t.done
  {
    if src[i + 1] == '/' {
      FindAlone(src, "\n", i, end);
    } else if src[i + 1] == '*' {
      FindAlone(src, "*/", i + 2, end);
    } else {
      RegexAllowedAlone(k, src, i, end, prev);
      SkipRegexAlone(src, i + 1, end, false);
    }
  }

  lemma {:induction false} TemplateAlone(k: Chars, src: string, i: nat, end: nat)
    requires i <= end + 1 && end <= |src|
    ensures var r, a := Template(k, src, i, end), Template(k, src[..end], i, end);
      Level(end, r.0, a.0) && SameClipped(end, r.1, a.1)
    decreases end + 1 - i, 1
  {
    if i >= end || src[i] == '`' {
    } else if src[i] == '\\' {
      TemplateAlone(k, src, i + 2, end);
    } else if src[i] == '$' && i + 1 < end && src[i + 1] == '{' {
      HoleAlone(k, src, i, end);
    } else {
      TemplateAlone(k, src, i + 1, end);
    }
  }

  lemma {:induction false} HoleAlone(k: Chars, src: string, i: nat, end: nat)
    requires i + 1 < end <= |src| && src[i] == '$' && src[i + 1] == '{'
    ensures var r, a := Template(k, src, i, end), Template(k, src[..end], i, end);
      Level(end, r.0, a.0) && SameClipped(end, r.1, a.1)
    decreases end + 1 - i, 0
  {
    var h, g := Scan(k, src, i + 2, end, "", 0, true), Scan(k, src[..end], i + 2, end, "", 0, true);
    ScanAlone(k, src, i + 2, end, "", 0, true);
    var t, u := Template(k, src, h.0, end), Template(k, src[..end], g.0, end);
    if h.0 < end { TemplateAlone(k, src, h.0, end); }
    assert Level(end, t.0, u.0) && SameClipped(end, t.1, u.1);
    HoleTemplates(k, src, i, end, h.0, h.1, t.0, t.1, g.0, g.1, u.0, u.1);
  }

  lemma HoleTemplates(k: Chars, src: string, i: nat, end: nat, h: nat, hs: seq<Span>, t: nat, ts: seq<Span>,
          g: nat, gs: seq<Span>, u: nat, us: seq<Span>)
    requires i + 1 < end <= |src| && src[i] == '$' && src[i + 1] == '{' && h <= |src| + 1 && g <= end + 1
    requires Scan(k, src, i + 2, end, "", 0, true) == (h, hs) && Template(k, src, h, end) == (t, ts)
    requires Scan(k, src[..end], i + 2, end, "", 0, true) == (g, gs) && Template(k, src[..end], g, end) == (u, us)
    requires Level(end, t, u) && SameClipped(end, hs, gs) && SameClipped(end, ts, us)
    ensures var r, a := Template(k, src, i, end), Template(k, src[..end], i, end);
      Level(end, r.0, a.0) && SameClipped(end, r.1, a.1)
  {
    TemplateHole(k, src, i, end, h, hs, t, ts);
    TemplateHole(k, src[..end], i, end, g, gs, u, us);
    ClippedJoin(end, hs, gs, ts, us);
  }

  lemma ClippedJoin(end: nat, s: seq<Span>, t: seq<Span>, s': seq<Span>, t': seq<Span>)
    requires SameClipped(end, s, t) && SameClipped(end, s', t')
    ensures SameClipped(end, s + s', t + t')
  {
  }

  /** The last comment of a body, read alone, is a block comment left open there and closed behind it. */
  predicate OpenAtEnd(src: string, end: nat, alone: seq<Span>)
    requires end <= |src|
  {
    alone != [] &&
    var a := alone[|alone| - 1].a;
    a + 2 <= end && src[a + 1] == '*' && !Closed(src[..end], a) && Closed(src, a)
  }

  /** A span leaves the body exactly when the body alone ends in a block comment that something behind it closes. */
  lemma InsideBody(k: Chars, src: string, start: nat, end: nat)
    requires start <= end <= |src|
    ensures (forall s :: s in Scan(k, src, start, end, "", 0, false).1 ==> s.b <= end) <==>
      !OpenAtEnd(src, end, Scan(k, src[..end], start, end, "", 0, false).1)
  {
    var r := Scan(k, src, start, end, "", 0, false);
    ScanAlone(k, src, start, end, "", 0, false);
    ScanComments(k, src, start, end, "", 0, false);
    OverrunAlone(src, start, end, r.0, r.1, Scan(k, src[..end], start, end, "", 0, false).1);
  }

  lemma OverrunAlone(src: string, start: nat, end: nat, hi: nat, spans: seq<Span>, alone: seq<Span>)
    requires end <= |src| && Comments(src, end, spans, start, hi) && SameClipped(end, spans, alone)
    ensures (forall s :: s in spans ==> s.b <= end) <==> !OpenAtEnd(src, end, alone)
  {
    if spans != [] {
      var last := spans[|spans| - 1];
      LastInside(src, start, end, hi, spans);
      assert IsComment(src, end, last);
      assert Clipped(last, end) == alone[|alone| - 1];
      FindAlone(src, "*/", last.a + 2, end);
      assert OpenAtEnd(src, end, alone) <==> last.b > end;
      assert last in spans;
    }
  }

  lemma LastInside(src: string, start: nat, end: nat, hi: nat, spans: seq<Span>)
    requires end <= |src| && spans != [] && Comments(src, end, spans, start, hi)
    ensures forall s :: s in spans && s.b > end ==> s == spans[|spans| - 1]
    ensures var s := spans[|spans| - 1];
      s.b > end <==> (src[s.a + 1] == '*' && Closed(src, s.a) && CloseAfter(src, s.a) > end)
  {
    forall s | s in spans && s.b > end
      ensures s == spans[|spans| - 1]
    {
      var n :| 0 <= n < |spans| && spans[n] == s;
      assert IsComment(src, end, spans[|spans| - 1]);
    }
  }

  // ---- ... read off the text ------------------------------------------------------------

  lemma ClosedBodyReads(k: Chars, src: string, start: nat, end: nat, code: Code)
    requires start + |CodeText(code)| == end <= |src| && Spelled(src, start, CodeText(code))
    requires CodeReads(k, src, start, end, "", code)
    ensures Scan(k, src, start, end, "", 0, false) == (end, CodeNotes(code, start))
    ensures forall s :: s in CodeNotes(code, start) ==> s.b <= end
  {
    ReadsCode(k, src, start, end, "", 0, false, code);
    NoNotes(CodeNotes(code, start));
    NoNotes(Scan(k, src, start, end, "", 0, false).1);
    ScanComments(k, src, start, end, "", 0, false);
  }

  /** The body goes on with an opening mark at position j, and closes no comment behind it. */
  predicate LeftOpen(src: string, j: nat, end: nat) {
    j + 2 <= end <= |src| && Spelled(src, j, "/*") &&
    forall p :: j + 2 <= p && p + 2 <= end ==> !Spelled(src, p, "*/")
  }

  /** The comment that an opening mark left open at position j becomes. */
  function OpenNote(src: string, j: nat, end: nat): Span
    requires LeftOpen(src, j, end)
  {
    Span(j, if Closed(src, j) then CloseAfter(src, j) else end)
  }

  lemma OpenBodyReads(k: Chars, src: string, start: nat, end: nat, code: Code, j: nat)
    requires j == start + |CodeText(code)| && Spelled(src, start, CodeText(code)) && LeftOpen(src, j, end)
    requires CodeReads(k, src, start, end, "", code)
    ensures Scan(k, src, start, end, "", 0, false).1 == CodeNotes(code, start) + [OpenNote(src, j, end)]
    ensures (forall s :: s in CodeNotes(code, start) + [OpenNote(src, j, end)] ==> s.b <= end) <==> !Closed(src, j)
  {
    var last := OpenNote(src, j, end);
    OpenComment(k, src, j, end, PrevCode(k, "", code), last);
    OpenBodyNotes(k, src, start, end, code, j, last);
    ScanComments(k, src, start, end, "", 0, false);
    OnlyLastOverruns(src, start, end, Scan(k, src, start, end, "", 0, false).0, CodeNotes(code, start), last);
  }

  lemma OpenBodyNotes(k: Chars, src: string, start: nat, end: nat, code: Code, j: nat, last: Span)
    requires j == start + |CodeText(code)| <= end <= |src| && Spelled(src, start, CodeText(code))
    requires CodeReads(k, src, start, end, "", code)
    requires Scan(k, src, j, end, PrevCode(k, "", code), 0, false).1 == [last]
    ensures Scan(k, src, start, end, "", 0, false).1 == CodeNotes(code, start) + [last]
  {
    ReadsCode(k, src, start, end, "", 0, false, code);
    NoNotes(Scan(k, src, start, end, "", 0, false).1);
  }

  lemma OnlyLastOverruns(src: string, lo: nat, end: nat, hi: nat, notes: seq<Span>, last: Span)
    requires Comments(src, end, notes + [last], lo, hi)
    ensures (forall s :: s in notes + [last] ==> s.b <= end) <==> last.b <= end
  {
    var spans := notes + [last];
    assert spans[|spans| - 1] == last && last in spans;
    LastInside(src, lo, end, hi, spans);
  }

  lemma OpenComment(k: Chars, src: string, j: nat, end: nat, prev: string, last: Span)
    requires LeftOpen(src, j, end) && last == OpenNote(src, j, end)
    ensures Scan(k, src, j, end, prev, 0, false).1 == [last] && (last.b > end <==> Closed(src, j))
  {
    SpelledFirst(src, j, "/*");
    SpelledFirst(src, j + 1, "*");
    var b := BlockEnd(src, j, end);
    assert b >= end;
    assert Step(k, src, j, end, prev, 0, false) == Stepped(b, prev, 0, [last], false);
    NoNotes([last]);
  }
}
