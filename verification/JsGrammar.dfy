// When a slash in a script is a division and when it opens a regular expression, and what the
// comment scanner makes of every script spelled by these rules (record_web_replay.py:666-828).

module JsGrammar {
  import opened Commons
  import opened JsScan

  // ---- Where a regular expression may stand ---------------------------------------------

  /** What the token in front was: nothing yet, a sign, a word or number, or a literal by its last character. */
  datatype Last = Nothing | Sign(c: char) | Name(word: string) | Value(c: char)

  /** The last comment between that token and the place looked at. */
  datatype Gap = Blank | BlockGap | LineGap(text: string)

  datatype Left = Left(last: Last, gap: Gap)

  const START := Left(Nothing, Blank)

  const KEYWORDS: set<string> :=
    {"return", "typeof", "case", "in", "of", "new", "delete", "void", "do", "else", "yield", "await", "instanceof"}

  predicate Keyword(word: string) { word in KEYWORDS }

  /** After an opening bracket, a separator, an operator or a brace. */
  predicate OpeningSign(c: char) {
    || c == '(' || c == '[' || c == '{' || c == '}' || c == ',' || c == ';' || c == ':' || c == '?' || c == '='
    || c == '!' || c == '&' || c == '|' || c == '+' || c == '-' || c == '*' || c == '%' || c == '~' || c == '^'
    || c == '<' || c == '>'
  }

  /**
   * A slash behind this token opens a regular expression: at the start of code and behind an opening
   * sign or a keyword. Behind any other word, a number, a closing bracket or a literal it divides.
   */
  predicate OpensRegex(last: Last) {
    match last
    case Nothing => true
    case Sign(c) => OpeningSign(c)
    case Name(word) => Keyword(word)
    case Value(_) => false
  }

  /** The text ends in a keyword, blanks aside. */
  ghost predicate EndsInKeyword(k: Chars, text: string) {
    exists m, n :: LastWord(k, text, m, n) && Keyword(text[m..n])
  }

  predicate LastWord(k: Chars, text: string, m: int, n: int) {
    && 0 <= m <= n <= |text| && (forall j :: n <= j < |text| ==> k.space(text[j]))
    && (m > 0 ==> !InWord(k)(text[m - 1]))
  }

  /** The scanner, which looks for a keyword in the raw text, finds one in front. */
  ghost predicate KeywordInFront(k: Chars, left: Left) {
    match left.gap
    case Blank => left.last.Name? && Keyword(left.last.word)
    case BlockGap => false
    case LineGap(text) => EndsInKeyword(k, text)
  }

  /**
   * No comment hides what is in front: none at all, or it does not matter, because the slash opens a
   * regular expression without a keyword, or because the text ends in a keyword just the same.
   */
  ghost predicate Clear(k: Chars, left: Left) {
    || left.last.Nothing? || (left.last.Sign? && OpeningSign(left.last.c))
    || KeywordInFront(k, left) == (left.last.Name? && Keyword(left.last.word))
  }

  function AfterTok(left: Left, t: Tok): Left {
    match t
    case Word(text) => Left(Name(text), Blank)
    case Quoted(q, _) => Left(Value(q), Blank)
    case Literal(_) => Left(Value('`'), Blank)
    case Regex(_) => Left(Value('/'), Blank)
    case Braces(_) => Left(Sign('}'), Blank)
    case LineNote(text) => left.(gap := LineGap(text))
    case BlockNote(_) => left.(gap := BlockGap)
    case Plain(c) => Left(Sign(c), Blank)
  }

  function After(k: Chars, left: Left, t: Tok): Left {
    if t.Plain? && k.space(t.c) then left else AfterTok(left, t)
  }

  function AfterCode(k: Chars, left: Left, code: Code): Left
    decreases code
  {
    match code
    case Empty => left
    case Then(tok, rest) => AfterCode(k, After(k, left, tok), rest)
  }

  // ---- Scripts ------------------------------------------------------------------------------

  /** The token is one where it stands, behind `left`. */
  ghost predicate TokFits(k: Chars, src: string, i: nat, end: nat, left: Left, t: Tok)
    requires i + |TokText(t)| <= end <= |src|
    decreases t
  {
    match t
    case Plain(c) => c !in "\"'`{}" && !InWord(k)(c) &&
      (c == '/' ==> i + 1 == end || (src[i + 1] !in "/*" && Clear(k, left) && !OpensRegex(left.last)))
    case Word(text) => text != "" && (forall j :: 0 <= j < |text| ==> InWord(k)(text[j])) &&
      (i > 0 ==> !InWord(k)(src[i - 1]))
    case Quoted(q, body) => q in "\"'" && StringBody(body, q)
    case LineNote(text) => '\n' !in text && (i + |TokText(t)| == end || src[i + |TokText(t)|] == '\n')
    case BlockNote(text) => forall j :: 0 <= j < |text| ==> !Spelled(text + "*/", j, "*/")
    case Regex(body) =>
      body != "" && body[0] !in "/*" && RegexBody(body, false) && Clear(k, left) && OpensRegex(left.last)
    case Literal(parts) => PartsFit(k, src, i + 1, end, parts)
    case Braces(code) => CodeFits(k, src, i + 1, end, Left(Sign('{'), Blank), code)
  }

  ghost predicate CodeFits(k: Chars, src: string, i: nat, end: nat, left: Left, code: Code)
    requires i + |CodeText(code)| <= end <= |src|
    decreases code
  {
    match code
    case Empty => true
    case Then(tok, rest) =>
      TokFits(k, src, i, end, left, tok) && CodeFits(k, src, i + |TokText(tok)|, end, After(k, left, tok), rest)
  }

  ghost predicate PartsFit(k: Chars, src: string, i: nat, end: nat, parts: Parts)
    requires i + |PartsText(parts)| + 1 <= end <= |src|
    decreases parts
  {
    match parts
    case Done => true
    case Raw(c, more) => c !in "\\`" && (c == '$' ==> src[i + 1] != '{') && PartsFit(k, src, i + 1, end, more)
    case Escaped(_, more) => PartsFit(k, src, i + 2, end, more)
    case Hole(code, more) =>
      CodeFits(k, src, i + 2, end, START, code) && PartsFit(k, src, i + 3 + |CodeText(code)|, end, more)
  }

  // ---- The word in front --------------------------------------------------------------------

  /** The last character of a string, a template or a regular expression -- or of a block comment. */
  predicate LiteralEnd(c: char) { c == '"' || c == '\'' || c == '`' || c == '/' }

  /** Blanks, word characters and signs are told apart. */
  ghost predicate Sane(k: Chars) {
    && (forall c :: k.space(c) ==> !k.alnum(c) && c != '_')
    && (forall c :: 'a' <= c <= 'z' ==> k.alnum(c))
    && (forall c :: OpeningSign(c) || LiteralEnd(c) ==> !k.alnum(c) && !k.space(c))
  }

  lemma {:induction false} BackSpan(src: string, i: nat, kind: char -> bool)
    requires i <= |src|
    ensures var b := Back(src, i, kind);
      (forall j :: b <= j < i ==> kind(src[j])) && (b > 0 ==> !kind(src[b - 1]))
  {
    if i > 0 && kind(src[i - 1]) { BackSpan(src, i - 1, kind); }
  }

  lemma {:induction false} BackTo(src: string, i: nat, kind: char -> bool, b: nat)
    requires b <= i <= |src| && (forall j :: b <= j < i ==> kind(src[j])) && (b > 0 ==> !kind(src[b - 1]))
    ensures Back(src, i, kind) == b
  {
    if b < i { BackTo(src, i - 1, kind, b); }
  }

  /** The word that ends at n, with nothing but blanks behind it. */
  lemma WordBeforeIs(k: Chars, src: string, i: nat, m: nat, n: nat)
    requires Sane(k) && m < n <= i <= |src| && LastWord(k, src[..i], m, n)
    requires forall j :: m <= j < n ==> InWord(k)(src[j])
    ensures WordBefore(k, src, i) == src[m..n]
  {
    assert forall j :: 0 <= j < i ==> src[..i][j] == src[j];
    BackTo(src, i, k.space, n);
    BackTo(src, n, InWord(k), m);
  }

  /** The scanner finds no word behind a character that is neither blank nor in a word. */
  lemma NoWordBefore(k: Chars, src: string, i: nat)
    requires 0 < i <= |src| && !k.space(src[i - 1]) && !InWord(k)(src[i - 1])
    ensures WordBefore(k, src, i) == ""
  {
  }

  lemma KeywordSpelling(k: Chars, word: string)
    requires Sane(k) && Keyword(word)
    ensures word != "" && forall j :: 0 <= j < |word| ==> InWord(k)(word[j])
  {
    assert forall j :: 0 <= j < |word| ==> 'a' <= word[j] <= 'z';
  }

  lemma KeywordsAreWords(word: string)
    ensures word in REGEX_WORDS <==> Keyword(word)
  {
  }

  /** Position i stands behind what `left` says. */
  ghost predicate Stands(k: Chars, src: string, i: nat, left: Left) {
    i <= |src| &&
    match left.last
    case Nothing => true
    case Sign(_) => Keyword(WordBefore(k, src, i)) == KeywordInFront(k, left)
    case Name(word) =>
      && word != "" && (forall j :: 0 <= j < |word| ==> InWord(k)(word[j]))
      && Keyword(WordBefore(k, src, i)) == KeywordInFront(k, left)
    case Value(c) => LiteralEnd(c) && Keyword(WordBefore(k, src, i)) == KeywordInFront(k, left)
  }

  /** The last character that the code reader remembers. */
  function PrevOf(left: Left): string {
    match left.last
    case Nothing => ""
    case Sign(c) => [c]
    case Name(word) => if word == "" then "" else word[|word| - 1..]
    case Value(c) => [c]
  }

  lemma SignChar(c: char)
    ensures c in "(,=:[!&|?{};+-*%~^<>" <==> OpeningSign(c)
  {
  }

  lemma PrevSign(k: Chars, src: string, i: nat, left: Left)
    requires Sane(k) && Stands(k, src, i, left)
    ensures PrevOf(left) == "" <==> left.last.Nothing?
    ensures (|PrevOf(left)| == 1 && PrevOf(left)[0] in "(,=:[!&|?{};+-*%~^<>") <==>
      left.last.Sign? && OpeningSign(left.last.c)
  {
    if |PrevOf(left)| == 1 { SignChar(PrevOf(left)[0]); }
    if left.last.Name? { assert InWord(k)(left.last.word[|left.last.word| - 1]); }
  }

  /**
   * The scanner decides about a slash as the rules say exactly if no comment hides what is in front;
   * otherwise it decides the other way.
   */
  lemma SlashExact(k: Chars, src: string, i: nat, left: Left)
    requires Sane(k) && Stands(k, src, i, left)
    ensures RegexAllowed(k, src, i, PrevOf(left)) <==> (OpensRegex(left.last) <==> Clear(k, left))
  {
    PrevSign(k, src, i, left);
    KeywordsAreWords(WordBefore(k, src, i));
    SlashCases(k, left, Keyword(WordBefore(k, src, i)));
  }

  lemma SlashCases(k: Chars, left: Left, word: bool)
    requires left.last.Nothing? || word == KeywordInFront(k, left)
    ensures left.last.Nothing? || (left.last.Sign? && OpeningSign(left.last.c)) || word <==>
      (OpensRegex(left.last) <==> Clear(k, left))
  {
  }

  /** An instance: a comment between them hides the keyword, and the scanner takes the slash for a division. */
  lemma KeywordHidden(k: Chars)
    requires Sane(k)
    ensures RegexAllowed(k, "return/x/", 6, "n") && !RegexAllowed(k, "return/**//x/", 10, "n")
  {
    var word := "return";
    KeywordSpelling(k, word);
    assert "return/x/"[0..6] == word;
    StandsBehindWord(k, "return/x/", 0, word);
    SlashExact(k, "return/x/", 6, Left(Name(word), Blank));
    StandsBehindSign(k, "return/**//x/", 10, Left(Name(word), BlockGap));
    SlashExact(k, "return/**//x/", 10, Left(Name(word), BlockGap));
    assert word[5..] == "n";
  }

  lemma SpelledLast(src: string, i: nat, text: string)
    requires Spelled(src, i, text) && text != ""
    ensures src[i + |text| - 1] == text[|text| - 1]
  {
    assert src[i..i + |text|][|text| - 1] == src[i + |text| - 1];
  }

  lemma StandsBehindSign(k: Chars, src: string, j: nat, left: Left)
    requires Sane(k) && 0 < j <= |src| && !k.space(src[j - 1]) && !InWord(k)(src[j - 1])
    requires left.gap == BlockGap || (left.gap == Blank && (left.last.Sign? || left.last.Value?))
    requires left.last.Value? ==> LiteralEnd(left.last.c)
    requires left.last.Name? ==>
      left.last.word != "" && forall n :: 0 <= n < |left.last.word| ==> InWord(k)(left.last.word[n])
    ensures Stands(k, src, j, left)
  {
    NoWordBefore(k, src, j);
  }

  lemma StandsBehindBlank(k: Chars, src: string, i: nat, left: Left)
    requires Stands(k, src, i, left) && i < |src| && k.space(src[i])
    ensures Stands(k, src, i + 1, left)
  {
    assert Back(src, i + 1, k.space) == Back(src, i, k.space);
  }

  lemma StandsBehindWord(k: Chars, src: string, i: nat, text: string)
    requires Sane(k) && Spelled(src, i, text) && text != "" && (forall j :: 0 <= j < |text| ==> InWord(k)(text[j]))
    requires i > 0 ==> !InWord(k)(src[i - 1])
    ensures Stands(k, src, i + |text|, Left(Name(text), Blank))
  {
    var j := i + |text|;
    forall n | i <= n < j
      ensures InWord(k)(src[n])
    {
      assert src[i..j][n - i] == src[n];
    }
    assert i > 0 ==> src[..j][i - 1] == src[i - 1];
    WordBeforeIs(k, src, j, i, j);
    StandsBehindName(k, src, j, text);
  }

  lemma StandsBehindName(k: Chars, src: string, j: nat, word: string)
    requires j <= |src| && word != "" && (forall n :: 0 <= n < |word| ==> InWord(k)(word[n]))
    requires WordBefore(k, src, j) == word
    ensures Stands(k, src, j, Left(Name(word), Blank))
  {
  }

  /** Behind a line comment the scanner finds the last word of its text. */
  lemma LineKeyword(k: Chars, src: string, i: nat, text: string)
    requires Sane(k) && Spelled(src, i, "//" + text)
    ensures Keyword(WordBefore(k, src, i + 2 + |text|)) <==> EndsInKeyword(k, text)
  {
    var from, j := i + 2, i + 2 + |text|;
    SpelledSplit(src, i, "//", text);
    SpelledLast(src, i, "//");
    var word := WordBefore(k, src, j);
    if Keyword(word) {
      KeywordSpelling(k, word);
      var m, n := WordInText(k, src, from, j, text);
    }
    if m, n :| LastWord(k, text, m, n) && Keyword(text[m..n]) {
      KeywordSpelling(k, text[m..n]);
      TextWord(k, src, from, j, text, m, n);
    }
  }

  lemma TextWord(k: Chars, src: string, from: nat, j: nat, text: string, m: nat, n: nat)
    requires Sane(k) && 0 < from && j == from + |text| && Spelled(src, from, text) && src[from - 1] == '/'
    requires LastWord(k, text, m, n) && m < n && forall p :: 0 <= p < n - m ==> InWord(k)(text[m..n][p])
    ensures WordBefore(k, src, j) == text[m..n]
  {
    assert forall p :: 0 <= p < |text| ==> text[p] == src[from..j][p] == src[from + p];
    assert forall p :: m <= p < n ==> text[p] == text[m..n][p - m];
    LastWordShift(k, src, from, j, text, m, n);
    WordBeforeIs(k, src, j, from + m, from + n);
    assert src[from + m..from + n] == text[m..n];
  }

  lemma LastWordShift(k: Chars, src: string, from: nat, j: nat, text: string, m: nat, n: nat)
    requires Sane(k) && 0 < from && j == from + |text| <= |src| && src[from - 1] == '/'
    requires forall p :: 0 <= p < |text| ==> text[p] == src[from + p]
    requires LastWord(k, text, m, n)
    ensures LastWord(k, src[..j], from + m, from + n)
  {
    forall p | from + n <= p < j
      ensures k.space(src[..j][p])
    {
      assert k.space(text[p - from]);
    }
  }

  lemma WordInText(k: Chars, src: string, from: nat, j: nat, text: string) returns (m: nat, n: nat)
    requires Sane(k) && 0 < from && j == from + |text| && Spelled(src, from, text) && src[from - 1] == '/'
    requires WordBefore(k, src, j) != ""
    ensures LastWord(k, text, m, n) && text[m..n] == WordBefore(k, src, j)
  {
    n := Back(src, j, k.space);
    m := Back(src, n, InWord(k));
    BackSpan(src, j, k.space);
    BackSpan(src, n, InWord(k));
    assert from <= m < n;
    assert forall p :: 0 <= p < |text| ==> text[p] == src[from..j][p] == src[from + p];
    m, n := m - from, n - from;
    assert text[m..n] == src[from + m..from + n];
  }

  lemma StandsBehindLine(k: Chars, src: string, i: nat, left: Left, text: string)
    requires Sane(k) && Spelled(src, i, "//" + text) && Stands(k, src, i, left)
    ensures Stands(k, src, i + 2 + |text|, left.(gap := LineGap(text)))
  {
    LineKeyword(k, src, i, text);
  }

  // ---- Every script by these rules is read as one ---------------------------------------------

  /** Behind a token the reader stands behind what the rules say. */
  lemma StandsBehind(k: Chars, src: string, i: nat, end: nat, left: Left, t: Tok, j: nat)
    requires Sane(k) && Stands(k, src, i, left) && j == i + |TokText(t)| <= end <= |src|
    requires Spelled(src, i, TokText(t)) && TokFits(k, src, i, end, left, t)
    ensures Stands(k, src, j, After(k, left, t))
  {
    if t.Plain? && k.space(t.c) {
      SpelledFirst(src, i, TokText(t));
      StandsBehindBlank(k, src, i, left);
    } else if t.Word? {
      StandsBehindWord(k, src, i, t.text);
    } else if t.LineNote? {
      StandsBehindLine(k, src, i, left, t.text);
    } else {
      SpelledLast(src, i, TokText(t));
      LastOfTok(t);
      StandsBehindSign(k, src, j, AfterTok(left, t));
    }
  }

  lemma PrevBehind(k: Chars, left: Left, t: Tok)
    requires Sane(k) && (t.Word? ==> t.text != "")
    ensures PrevTok(k, PrevOf(left), t) == PrevOf(After(k, left, t))
  {
  }

  lemma LastOfTok(t: Tok)
    requires !t.Word? && !t.LineNote?
    ensures var text := TokText(t); text != "" && text[|text| - 1] == match t
      case Plain(c) => c
      case Quoted(q, _) => q
      case BlockNote(_) => '/'
      case Regex(_) => '/'
      case Literal(_) => '`'
      case Braces(_) => '}'
  {
  }

  /** The script is read token by token as the rules say. */
  lemma {:induction false} CodeIsRead(k: Chars, src: string, i: nat, end: nat, left: Left, code: Code)
    requires Sane(k) && Stands(k, src, i, left) && i + |CodeText(code)| <= end <= |src|
    requires Spelled(src, i, CodeText(code)) && CodeFits(k, src, i, end, left, code)
    ensures CodeReads(k, src, i, end, PrevOf(left), code)
    decreases code, 0
  {
    if code.Then? {
      var tok, rest := code.tok, code.rest;
      var j := i + |TokText(tok)|;
      SpelledSplit(src, i, TokText(tok), CodeText(rest));
      TokIsRead(k, src, i, end, left, tok);
      StandsBehind(k, src, i, end, left, tok, j);
      PrevBehind(k, left, tok);
      CodeIsRead(k, src, j, end, After(k, left, tok), rest);
    }
  }

  lemma {:induction false} TokIsRead(k: Chars, src: string, i: nat, end: nat, left: Left, t: Tok)
    requires Sane(k) && Stands(k, src, i, left) && i + |TokText(t)| <= end <= |src|
    requires Spelled(src, i, TokText(t)) && TokFits(k, src, i, end, left, t)
    ensures TokReads(k, src, i, end, PrevOf(left), t)
    decreases t, 1
  {
    match t {
      case Literal(parts) =>
        SpelledWrapped(src, i, "`", PartsText(parts), "`");
        PartsAreRead(k, src, i + 1, end, parts);
      case Braces(code) =>
        SpelledWrapped(src, i, "{", CodeText(code), "}");
        BlockIsRead(k, src, i, end, PrevOf(left), code);
      case _ => FlatIsRead(k, src, i, end, left, t);
    }
  }

  lemma {:induction false} BlockIsRead(k: Chars, src: string, i: nat, end: nat, prev: string, code: Code)
    requires Sane(k) && i + 1 + |CodeText(code)| <= end <= |src| && Spelled(src, i, "{")
    requires Spelled(src, i + 1, CodeText(code)) && CodeFits(k, src, i + 1, end, Left(Sign('{'), Blank), code)
    ensures CodeReads(k, src, i + 1, end, Next(k, prev, '{'), code)
    decreases code, 1
  {
    StandsBehindSign(k, src, i + 1, Left(Sign('{'), Blank));
    CodeIsRead(k, src, i + 1, end, Left(Sign('{'), Blank), code);
  }

  lemma FlatIsRead(k: Chars, src: string, i: nat, end: nat, left: Left, t: Tok)
    requires !t.Literal? && !t.Braces? && Sane(k) && Stands(k, src, i, left) && i + |TokText(t)| <= end <= |src|
    requires Spelled(src, i, TokText(t)) && TokFits(k, src, i, end, left, t)
    ensures TokReads(k, src, i, end, PrevOf(left), t)
  {
    SlashExact(k, src, i, left);
    if t.Word? {
      forall j | 0 <= j < |t.text|
        ensures WordChar(k, t.text[j])
      {
        assert InWord(k)(t.text[j]);
      }
    }
  }

  lemma {:induction false} PartsAreRead(k: Chars, src: string, i: nat, end: nat, parts: Parts)
    requires Sane(k) && i + |PartsText(parts)| + 1 <= end <= |src| && Spelled(src, i, PartsText(parts))
    requires PartsFit(k, src, i, end, parts)
    ensures PartsRead(k, src, i, end, parts)
    decreases parts, 0
  {
    match parts {
      case Done =>
      case Raw(c, more) =>
        SpelledSplit(src, i, [c], PartsText(more));
        PartsAreRead(k, src, i + 1, end, more);
      case Escaped(c, more) =>
        SpelledWrapped(src, i, "\\", [c], PartsText(more));
        PartsAreRead(k, src, i + 2, end, more);
      case Hole(code, more) =>
        HoleIsRead(k, src, i, end, code, more, i + 2 + |CodeText(code)|);
    }
  }

  lemma {:induction false} HoleIsRead(k: Chars, src: string, i: nat, end: nat, code: Code, more: Parts, j: nat)
    requires Sane(k) && i + |PartsText(Hole(code, more))| + 1 <= end <= |src| && j == i + 2 + |CodeText(code)|
    requires Spelled(src, i, PartsText(Hole(code, more))) && PartsFit(k, src, i, end, Hole(code, more))
    ensures PartsRead(k, src, i, end, Hole(code, more))
    decreases Hole(code, more), 0, 0
  {
    HoleBlank(src, i, code, more, j);
    CodeIsRead(k, src, i + 2, end, START, code);
    PartsAreRead(k, src, j + 1, end, more);
  }

  // ---- What is promised -------------------------------------------------------------------------

  /** Scanning a whole program finds exactly its comments. */
  lemma ScanIsExact(k: Chars, code: Code)
    requires Sane(k) && CodeFits(k, CodeText(code), 0, |CodeText(code)|, START, code)
    ensures Scan(k, CodeText(code), 0, |CodeText(code)|, "", 0, false) == (|CodeText(code)|, CodeNotes(code, 0))
  {
    SpelledWhole(CodeText(code));
    CodeIsRead(k, CodeText(code), 0, |CodeText(code)|, START, code);
    ScanReads(k, code);
  }

  /** The pieces of f(/'/g);// c, from behind. */
  const NOTE := Then(LineNote(" c"), Empty)
  const CLOSING := Then(Plain(')'), Then(Plain(';'), NOTE))
  const ARGUMENT := Then(Regex("'"), Then(Word("g"), CLOSING))
  const CALL := Then(Word("f"), Then(Plain('('), ARGUMENT))

  lemma CallLengths()
    ensures |CodeText(NOTE)| == 4 && |CodeText(CLOSING)| == 6 && |CodeText(ARGUMENT)| == 10
    ensures CodeText(CLOSING) == ");// c" && CodeText(ARGUMENT) == "/'/g" + CodeText(CLOSING)
  {
    assert CodeText(NOTE) == "// c" + "";
    assert CodeText(CLOSING) == ")" + (";" + CodeText(NOTE));
    assert CodeText(ARGUMENT) == "/'/" + ("g" + CodeText(CLOSING));
  }

  lemma CallText()
    ensures CodeText(CALL) == "f(/'/g);// c"
  {
    CallLengths();
    assert CodeText(CALL) == "f" + ("(" + CodeText(ARGUMENT));
  }

  lemma ClosingFits(k: Chars, src: string)
    requires Sane(k) && !InWord(k)(')') && |src| == 12
    ensures |CodeText(CLOSING)| == 6 && CodeFits(k, src, 6, 12, Left(Name("g"), Blank), CLOSING)
  {
    CallLengths();
    var left := After(k, Left(Name("g"), Blank), Plain(')'));
    assert CodeFits(k, src, 8, 12, After(k, left, Plain(';')), NOTE);
    assert CodeFits(k, src, 7, 12, left, CLOSING.rest);
  }

  lemma ArgumentFits(k: Chars, src: string)
    requires Sane(k) && |src| == 12 && src[4] == '/'
    requires |CodeText(CLOSING)| == 6 && CodeFits(k, src, 6, 12, Left(Name("g"), Blank), CLOSING)
    ensures |CodeText(ARGUMENT)| == 10 && CodeFits(k, src, 2, 12, Left(Sign('('), Blank), ARGUMENT)
  {
    CallLengths();
    assert RegexBody("'", false);
    assert CodeFits(k, src, 5, 12, Left(Value('/'), Blank), ARGUMENT.rest);
  }

  lemma CallFits(k: Chars, src: string)
    requires Sane(k) && !InWord(k)(')') && |src| == 12 && src[4] == '/'
    ensures |CodeText(CALL)| == 12 && CodeFits(k, src, 0, 12, START, CALL)
  {
    CallLengths();
    ClosingFits(k, src);
    ArgumentFits(k, src);
    assert CodeFits(k, src, 1, 12, Left(Name("f"), Blank), CALL.rest);
  }

  lemma CallNotes()
    ensures CodeNotes(CALL, 0) == [Span(8, 12)]
  {
    assert CodeNotes(NOTE, 8) == [Span(8, 12)] + [];
    assert CodeNotes(CLOSING, 6) == [] + ([] + CodeNotes(NOTE, 8));
    assert CodeNotes(ARGUMENT, 2) == [] + ([] + CodeNotes(CLOSING, 6));
    assert CodeNotes(CALL, 0) == [] + ([] + CodeNotes(ARGUMENT, 2));
  }

  /** An instance: the quote in the regular expression opens no string, and the comment behind it is found. */
  lemma QuoteInRegex(k: Chars)
    requires Sane(k) && !InWord(k)(')')
    ensures Scan(k, "f(/'/g);// c", 0, 12, "", 0, false) == (12, [Span(8, 12)])
  {
    var src := "f(/'/g);// c";
    CallText();
    CallFits(k, src);
    CallNotes();
    ScanIsExact(k, CALL);
  }

  /** A template literal is read to just behind its closing backtick, with the comments in its holes. */
  lemma TemplateIsExact(k: Chars, src: string, i: nat, end: nat, parts: Parts)
    requires Sane(k) && i + |PartsText(parts)| + 1 <= end <= |src| && Spelled(src, i, PartsText(parts) + "`")
    requires PartsFit(k, src, i, end, parts)
    ensures Template(k, src, i, end) == (i + |PartsText(parts)| + 1, PartsNotes(parts, i))
  {
    SpelledSplit(src, i, PartsText(parts), "`");
    PartsAreRead(k, src, i, end, parts);
    ReadsParts(k, src, i, end, parts);
  }

  /** Stripping a whole program blanks its comments and changes nothing else. */
  lemma StripIsExact(k: Chars, code: Code)
    requires Sane(k) && CodeFits(k, CodeText(code), 0, |CodeText(code)|, START, code)
    ensures var src := CodeText(code);
      Strip(src, 0, |src|, Scan(k, src, 0, |src|, "", 0, false).1) == Some(BlankCode(code))
  {
    ScanIsExact(k, code);
    WholeBlank(CodeText(code), code);
  }

  /** A body spelled by a token tree keeps its comments inside. */
  lemma ClosedBodyInside(k: Chars, src: string, start: nat, end: nat, code: Code)
    requires Sane(k) && start + |CodeText(code)| == end <= |src| && Spelled(src, start, CodeText(code))
    requires CodeFits(k, src, start, end, START, code)
    ensures Scan(k, src, start, end, "", 0, false) == (end, CodeNotes(code, start))
    ensures forall s :: s in CodeNotes(code, start) ==> s.b <= end
  {
    CodeIsRead(k, src, start, end, START, code);
    ClosedBodyReads(k, src, start, end, code);
  }

  /**
   * A body spelled by a token tree and a block comment left open: that comment runs to the first
   * closing mark behind the body, and leaves the body exactly if there is one.
   */
  lemma OpenBodyOverruns(k: Chars, src: string, start: nat, end: nat, code: Code, j: nat)
    requires Sane(k) && j == start + |CodeText(code)| && Spelled(src, start, CodeText(code)) && LeftOpen(src, j, end)
    requires CodeFits(k, src, start, end, START, code)
    ensures Scan(k, src, start, end, "", 0, false).1 == CodeNotes(code, start) + [OpenNote(src, j, end)]
    ensures (forall s :: s in CodeNotes(code, start) + [OpenNote(src, j, end)] ==> s.b <= end) <==> !Closed(src, j)
  {
    CodeIsRead(k, src, start, end, START, code);
    OpenBodyReads(k, src, start, end, code, j);
  }
}
