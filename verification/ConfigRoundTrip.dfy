/**
Lexing and parsing whole texts: nothing is lost but white space, comments and one unfinished word, every
tree that is built can be printed and read back, and no other tree can.
 */
module ConfigRoundTrip {
  import opened Wrappers
  import opened Text
  import opened ConfigTree
  import opened ConfigLexer
  import opened ConfigGrammar

  function TokenOf(kind: TokenType, text: string): Token {
    match kind
    case StartBlock => OpenBrace
    case EndBlock => CloseBrace
    case StatementEnd => Semicolon
    case _ => Word(text)
  }

  function Cons(t: Token, ts: Option<seq<Token>>): Option<seq<Token>> {
    if ts.None? then None else Some([t] + ts.value)
  }

  /** The tokens of a text without its comments; `None` for a quote that is never closed. */
  function Scan(s: string): Option<seq<Token>>
    decreases |s|
  {
    var kind := Lex(s).kind;
    if kind == Eof then Some([])
    else if kind == Error || kind == Start then None
    else if kind == Comment then Scan(Rest(s))
    else Cons(TokenOf(kind, Body(s)), Scan(Rest(s)))
  }

  /** What parsing the text `s` leaves in a config that held `c`; `None` where the parser throws. */
  function ParseText(c: Config, s: string): Option<Config> {
    if Scan(s).None? then None else ParseTokens(c, Scan(s).value)
  }

  // ---------- every word is a lexeme ----------

  ghost predicate AllLexemes(ts: seq<Token>) {
    forall i :: 0 <= i < |ts| && ts[i].Word? ==> IsLexeme(ts[i].text)
  }

  lemma BodyIsLexeme(s: string)
    requires Lex(s).kind == Normal
    ensures IsLexeme(Body(s))
  {
    var b := SpanIn(s, BLANKS);
    var t := s[b..];
    assert Body(s) == t[..LexBody(t).1];
    if t[0] == '"' || t[0] == '\'' {
      var n := SpanOut(t[1..], {t[0]});
      assert forall i :: 0 <= i < n ==> t[1..][i] == t[i + 1];
    } else {
      var n := SpanOut(t[1..], WORD_ENDS);
      assert forall i :: 0 <= i < n ==> t[1..][i] == t[i + 1];
    }
  }

  lemma {:induction false} ScanLexemes(s: string)
    requires Scan(s).Some?
    ensures AllLexemes(Scan(s).value)
    decreases |s|
  {
    hide Lex, LexBody, IsLexeme;
    if Lex(s).kind == Normal { BodyIsLexeme(s); }
    if Lex(s).kind !in {Eof, Error, Start} { ScanLexemes(Rest(s)); }
  }

  lemma {:induction false} WordTokensAt(words: seq<string>)
    ensures |WordTokens(words)| == |words|
    ensures forall i :: 0 <= i < |words| ==> WordTokens(words)[i] == Word(words[i])
  {
    if words != [] { WordTokensAt(words[..|words| - 1]); }
  }

  /** A tree that derives only lexemes holds only lexemes. */
  lemma {:induction false} YieldLexical(c: Config)
    requires AllLexemes(Yield(c))
    ensures Lexical(c)
    decreases c
  {
    hide IsLexeme;
    if c != [] {
      var y, z := YieldStatement(c[0]), Yield(c[1..]);
      assert forall i :: 0 <= i < |y| ==> y[i] == Yield(c)[i];
      assert forall i :: 0 <= i < |z| ==> z[i] == Yield(c)[|y| + i];
      YieldStatementLexical(c[0]);
      YieldLexical(c[1..]);
      assert c == [c[0]] + c[1..];
    }
  }

  lemma {:induction false} YieldStatementLexical(s: Statement)
    requires AllLexemes(YieldStatement(s))
    ensures LexicalStatement(s)
    decreases s
  {
    hide IsLexeme;
    var y, n := YieldStatement(s), |s.tokens|;
    WordTokensAt(s.tokens);
    assert forall i :: 0 <= i < n ==> y[i] == Word(s.tokens[i]);
    if s.Block? {
      var z := Yield(s.body);
      assert forall i :: 0 <= i < |z| ==> z[i] == y[n + 1 + i];
      YieldLexical(s.body);
    }
  }

  /** Normal form: whatever text is accepted, the tree that is built is in the form that prints and reads back. */
  lemma ParsedIsNormal(s: string, c: Config)
    requires ParseText([], s) == Some(c)
    ensures InNormalForm(c) && Scan(s) == Some(Yield(c))
  {
    ParserRefinesGrammar(Scan(s).value, c);
    ScanLexemes(s);
    YieldLexical(c);
  }

  // ---------- scanning what is printed ----------

  /** A text that ends whatever lexeme stands in front of it. */
  predicate Delimits(s: string) { s != "" && s[0] in WORD_ENDS }

  lemma LexBlanks(w: string, s: string)
    requires forall i :: 0 <= i < |w| ==> w[i] in BLANKS
    ensures Lex(w + s).kind == Lex(s).kind && Rest(w + s) == Rest(s) && Body(w + s) == Body(s)
  {
    LexBehindBlanks(w, s);
    hide Lex;
    SliceBlanks(w, s, Lex(s).blank, Lex(s).size);
  }

  lemma LexBehindBlanks(w: string, s: string)
    requires forall i :: 0 <= i < |w| ==> w[i] in BLANKS
    ensures Lex(w + s) == Lexeme(Lex(s).kind, |w| + Lex(s).blank, |w| + Lex(s).size)
  {
    hide LexBody, Text.SpanIn;
    BlanksInFront(w, s);
    var b := SpanIn(s, BLANKS);
    assert (w + s)[|w| + b..] == s[b..];
  }

  lemma BlanksInFront(w: string, s: string)
    requires forall i :: 0 <= i < |w| ==> w[i] in BLANKS
    ensures SpanIn(w + s, BLANKS) == |w| + SpanIn(s, BLANKS)
  {
    var n := SpanIn(s, BLANKS);
    forall i | 0 <= i < |w| + n ensures (w + s)[i] in BLANKS {
      assert (w + s)[i] == if i < |w| then w[i] else s[i - |w|];
    }
    SpanInIs(w + s, BLANKS, |w| + n);
  }

  lemma SliceBlanks(w: string, s: string, b: nat, n: nat)
    requires b <= n <= |s|
    ensures (w + s)[|w| + n..] == s[n..] && (w + s)[|w| + b..|w| + n] == s[b..n]
  {}

  lemma ScanBlanks(w: string, s: string)
    requires forall i :: 0 <= i < |w| ==> w[i] in BLANKS
    ensures Scan(w + s) == Scan(s)
  {
    LexBlanks(w, s);
    hide Lex, Rest, Body;
  }

  function Punctuation(c: char): TokenType {
    if c == '{' then StartBlock else if c == '}' then EndBlock else StatementEnd
  }

  lemma LexPunctuation(c: char, s: string)
    requires c in {'{', '}', ';'}
    ensures Lex([c] + s) == Lexeme(Punctuation(c), 0, 1) && Rest([c] + s) == s
  {
    var t := [c] + s;
    SpanInIs(t, BLANKS, 0);
    assert t[0..] == t;
    assert t[1..] == s;
  }

  lemma ScanPunctuation(c: char, s: string)
    requires c in {'{', '}', ';'}
    ensures Scan([c] + s) == Cons(TokenOf(Punctuation(c), [c]), Scan(s))
  {
    LexPunctuation(c, s);
    hide Lex, Rest;
  }

  lemma LexLexeme(t: string, s: string)
    requires IsLexeme(t) && Delimits(s)
    ensures Lex(t + s) == Lexeme(Normal, 0, |t|)
  {
    var u := t + s;
    SpanInIs(u, BLANKS, 0);
    assert u[0..] == u && u[1..] == t[1..] + s;
    if IsBareWord(t) {
      SpanOutIs(u[1..], WORD_ENDS, |t| - 1);
    } else {
      SpanOutIs(u[1..], {t[0]}, |t| - 2);
    }
  }

  lemma ScanLexeme(t: string, s: string)
    requires IsLexeme(t) && Delimits(s)
    ensures Scan(t + s) == Cons(Word(t), Scan(s))
  {
    LexLexeme(t, s);
    hide Lex, IsLexeme;
    assert (t + s)[|t|..] == s && (t + s)[0..|t|] == t;
  }

  /** The tokens `ts` in front of those of the text `s`. */
  function Prepend(ts: seq<Token>, s: string): Option<seq<Token>> {
    if Scan(s).None? then None else Some(ts + Scan(s).value)
  }

  lemma PrependCons(t: Token, ts: seq<Token>, s: string)
    ensures Cons(t, Prepend(ts, s)) == Prepend([t] + ts, s)
  {
    hide Scan;
    if Scan(s).Some? { assert [t] + (ts + Scan(s).value) == [t] + ts + Scan(s).value; }
  }

  lemma PrependAppend(a: seq<Token>, b: seq<Token>, s: string, u: string)
    requires Scan(s) == Prepend(b, u)
    ensures Prepend(a, s) == Prepend(a + b, u)
  {
    hide Scan;
    if Scan(u).Some? { assert a + (b + Scan(u).value) == a + b + Scan(u).value; }
  }

  lemma {:induction false} ScanWords(words: seq<string>, s: string)
    requires words != [] && (forall i :: 0 <= i < |words| ==> IsLexeme(words[i])) && Delimits(s)
    ensures Scan(Join(words, " ") + s) == Prepend(WordTokens(words), s)
    decreases |words|
  {
    hide IsLexeme, Scan;
    var n := |words| - 1;
    var w := words[n];
    ScanLexeme(w, s);
    assert Scan(w + s) == Prepend([Word(w)], s);
    if n == 0 {
      assert WordTokens(words[..0]) == [];
      assert [] + [Word(w)] == [Word(w)];
    } else {
      var front := Join(words[..n], " ");
      var u := " " + (w + s);
      assert front + " " + w + s == front + u;
      ScanWords(words[..n], u);
      ScanBlanks(" ", w + s);
      PrependAppend(WordTokens(words[..n]), [Word(w)], u, s);
    }
  }

  lemma IndentBlank(depth: int)
    ensures forall i :: 0 <= i < |Indent(depth)| ==> Indent(depth)[i] in BLANKS
  {}

  lemma {:induction false} ScanStatement(st: Statement, depth: int, s: string)
    requires WellFormedStatement(st) && LexicalStatement(st)
    ensures Scan(PrintStatement(st, depth) + s) == Prepend(YieldStatement(st), s)
    decreases st
  {
    hide Scan, IsLexeme, Join, Indent;
    var indent, words := Indent(depth), Join(st.tokens, " ");
    IndentBlank(depth);
    match st
    case Line(tokens) =>
      var u := "\n" + s;
      assert PrintStatement(st, depth) + s == indent + (words + (";" + u));
      ScanBlanks("\n", s);
      ScanPunctuation(';', u);
      ScanBlanks(indent, words + (";" + u));
      ScanWords(tokens, ";" + u);
      assert Scan(";" + u) == Prepend([Semicolon], s);
      PrependAppend(WordTokens(tokens), [Semicolon], ";" + u, s);
    case Block(tokens, body) =>
      var u4 := "}" + ("\n" + s);
      var u3 := Print(body, depth + 1) + (indent + u4);
      var u2 := " " + ("{" + ("\n" + u3));
      BlockText(st, depth, s);
      ScanBlanks("\n", s);
      ScanPunctuation('}', "\n" + s);
      assert Scan(u4) == Prepend([CloseBrace], s);
      ScanBlanks(indent, u4);
      ScanConfig(body, depth + 1, indent + u4);
      PrependAppend(Yield(body), [CloseBrace], indent + u4, s);
      ScanBlanks("\n", u3);
      ScanPunctuation('{', "\n" + u3);
      PrependCons(OpenBrace, Yield(body) + [CloseBrace], s);
      ScanBlanks(" ", "{" + ("\n" + u3));
      ScanBlanks(indent, words + u2);
      ScanWords(tokens, u2);
      PrependAppend(WordTokens(tokens), [OpenBrace] + (Yield(body) + [CloseBrace]), u2, s);
      assert WordTokens(tokens) + ([OpenBrace] + (Yield(body) + [CloseBrace])) == YieldStatement(st);
  }

  lemma BlockText(st: Statement, depth: int, s: string)
    requires st.Block?
    ensures var indent := Indent(depth);
            PrintStatement(st, depth) + s ==
            indent + (Join(st.tokens, " ") + (" " + ("{" + ("\n" +
              (Print(st.body, depth + 1) + (indent + ("}" + ("\n" + s))))))))
  {
    hide Indent, Join, Print;
  }

  lemma {:induction false} ScanConfig(c: Config, depth: int, s: string)
    requires InNormalForm(c)
    ensures Scan(Print(c, depth) + s) == Prepend(Yield(c), s)
    decreases c
  {
    hide Scan, IsLexeme;
    if c == [] {
      assert Print(c, depth) + s == s;
      if Scan(s).Some? { assert [] + Scan(s).value == Scan(s).value; }
    } else {
      var u := Print(c[1..], depth) + s;
      assert Print(c, depth) + s == PrintStatement(c[0], depth) + u;
      ScanStatement(c[0], depth, u);
      ScanConfig(c[1..], depth, s);
      PrependAppend(YieldStatement(c[0]), Yield(c[1..]), u, s);
    }
  }

  // ---------- the round trip ----------

  lemma ScanPrinted(c: Config, depth: int)
    requires InNormalForm(c)
    ensures Scan(Print(c, depth)) == Some(Yield(c))
  {
    ScanConfig(c, depth, "");
    SpanInIs("", BLANKS, 0);
    assert Lex("").kind == Eof;
    hide Lex, Print;
    assert Print(c, depth) + "" == Print(c, depth);
    assert Yield(c) + [] == Yield(c);
  }

  /** Printing a tree at any depth and reading the text back gives the tree exactly when it is in normal form. */
  lemma RoundTrip(c: Config, depth: int)
    ensures ParseText([], Print(c, depth)) == Some(c) <==> InNormalForm(c)
  {
    hide Scan, ParseTokens, Print;
    if ParseText([], Print(c, depth)) == Some(c) { ParsedIsNormal(Print(c, depth), c); }
    if InNormalForm(c) {
      ScanPrinted(c, depth);
      ParserRefinesGrammar(Yield(c), c);
    }
  }

  /** Printing is a fixed point: what is printed from an accepted text parses to the same tree and prints the same. */
  lemma PrintParsePrint(s: string, c: Config, depth: int)
    requires ParseText([], s) == Some(c)
    ensures ParseText([], Print(c, depth)) == Some(c)
  {
    ParsedIsNormal(s, c);
    RoundTrip(c, depth);
  }

  /** Accepted texts give the same tree exactly when they agree on everything but blanks and comments. */
  lemma SameTreeSameTokens(s: string, t: string)
    requires ParseText([], s).Some? && ParseText([], t).Some?
    ensures ParseText([], s) == ParseText([], t) <==> Scan(s) == Scan(t)
  {
    ParsedIsNormal(s, ParseText([], s).value);
    ParsedIsNormal(t, ParseText([], t).value);
  }

  // ---------- nothing is lost ----------

  /** What one call of the lexer consumes: white space, and a body. */
  datatype Chunk = Chunk(kind: TokenType, blank: string, body: string)

  function FirstChunk(s: string): Chunk {
    Chunk(Lex(s).kind, s[..Lex(s).blank], Body(s))
  }

  /** The chunks that the calls of the lexer consume, up to the call that returns Eof or Error. */
  function Chunks(s: string): (chunks: seq<Chunk>)
    ensures chunks != []
    decreases |s|
  {
    if Lex(s).kind in {Eof, Error, Start} then [FirstChunk(s)] else [FirstChunk(s)] + Chunks(Rest(s))
  }

  function Concat(chunks: seq<Chunk>): string {
    if chunks == [] then "" else chunks[0].blank + chunks[0].body + Concat(chunks[1..])
  }

  /** The tokens among the chunks. */
  function Kept(chunks: seq<Chunk>): seq<Token> {
    if chunks == [] then []
    else if chunks[0].kind in {Comment, Eof, Error, Start} then Kept(chunks[1..])
    else [TokenOf(chunks[0].kind, chunks[0].body)] + Kept(chunks[1..])
  }

  predicate IsComment(t: string) { t != "" && t[0] == '#' && SpanOut(t, {'\n', '\r'}) >= |t| - 1 }

  /** What a chunk of each kind can be. */
  ghost predicate Plausible(c: Chunk) {
    && (forall i :: 0 <= i < |c.blank| ==> c.blank[i] in BLANKS)
    && match c.kind
       case Normal => IsLexeme(c.body)
       case StartBlock => c.body == "{"
       case EndBlock => c.body == "}"
       case StatementEnd => c.body == ";"
       case Comment => IsComment(c.body)
       case Eof => c.body == "" || IsComment(c.body) || IsBareWord(c.body)
       case Error => c.body != "" && c.body[0] in {'"', '\''} && FreeOf(c.body[1..], {c.body[0]})
       case Start => false
  }

  lemma FirstChunkPlausible(s: string)
    ensures Plausible(FirstChunk(s))
  {
    var t := s[SpanIn(s, BLANKS)..];
    var r := LexBody(t);
    assert Body(s) == t[..r.1];
    if r.0 == Normal {
      BodyIsLexeme(s);
      hide LexBody, IsLexeme;
    } else {
      LexBodyPlausible(t);
      hide LexBody;
    }
  }

  /** The bodies that are no words. */
  lemma LexBodyPlausible(t: string)
    requires LexBody(t).0 != Normal && (t != "" ==> t[0] !in BLANKS)
    ensures Plausible(Chunk(LexBody(t).0, "", t[..LexBody(t).1]))
  {
    var (kind, n) := LexBody(t);
    if kind == Comment {
      SpanOutIs(t[..n], {'\n', '\r'}, n - 1);
    } else if kind in {Eof, Error} {
      assert t[..n] == t;
      assert t != "" ==> forall i :: 1 <= i < |t| ==> t[i] == t[1..][i - 1];
    }
  }

  /** The chunks are the text, cut up. */
  lemma {:induction false} NothingLost(s: string)
    ensures Concat(Chunks(s)) == s
    decreases |s|
  {
    var c := FirstChunk(s);
    assert c.blank + c.body + Rest(s) == s;
    hide LexBody;
    if Lex(s).kind in {Eof, Error, Start} {
      LexKinds(s);
      assert Rest(s) == "" && Chunks(s)[1..] == [];
    } else {
      NothingLost(Rest(s));
      assert Chunks(s)[1..] == Chunks(Rest(s));
    }
  }

  /** Every chunk is what its kind allows, and the text ends with the one that is Eof or Error. */
  lemma {:induction false} ChunksPlausible(s: string)
    ensures forall i :: 0 <= i < |Chunks(s)| ==> Plausible(Chunks(s)[i])
    ensures forall i :: 0 <= i < |Chunks(s)| ==> (Chunks(s)[i].kind in {Eof, Error} <==> i == |Chunks(s)| - 1)
    decreases |s|
  {
    FirstChunkPlausible(s);
    LexKinds(s);
    hide Plausible, Lex, Rest, Body;
    if Lex(s).kind !in {Eof, Error} {
      RestIsShorter(s);
      ChunksPlausible(Rest(s));
      assert Chunks(s) == [FirstChunk(s)] + Chunks(Rest(s));
    } else {
      assert Chunks(s) == [FirstChunk(s)];
    }
  }

  /** The tokens among the chunks are what the parser is given, unless a quote is never closed. */
  lemma {:induction false} ChunksKept(s: string)
    ensures Scan(s) == if Chunks(s)[|Chunks(s)| - 1].kind == Eof then Some(Kept(Chunks(s))) else None
    decreases |s|
  {
    LexKinds(s);
    hide Lex, Rest, Body, TokenOf;
    if Lex(s).kind in {Eof, Error} {
      assert Chunks(s)[1..] == [];
    } else {
      RestIsShorter(s);
      ChunksKept(Rest(s));
      assert Chunks(s)[1..] == Chunks(Rest(s));
    }
  }

  lemma LexKinds(s: string)
    ensures Lex(s).kind != Start
  {}

  /**
  An accepted text is its words, braces and semicolons, which are those of the tree, with white space and
  comments between them, and at the very end at most one word or comment that the text does not finish.
  */
  lemma AcceptedLosesOnly(s: string, c: Config)
    requires ParseText([], s) == Some(c)
    ensures Concat(Chunks(s)) == s && Kept(Chunks(s)) == Yield(c)
    ensures forall i :: 0 <= i < |Chunks(s)| ==> Plausible(Chunks(s)[i])
    ensures forall i :: 0 <= i < |Chunks(s)| ==> (Chunks(s)[i].kind == Eof <==> i == |Chunks(s)| - 1)
    ensures forall i :: 0 <= i < |Chunks(s)| ==> Chunks(s)[i].kind != Error
  {
    hide Chunks, Kept, Concat, Plausible, Scan, Yield;
    NothingLost(s);
    ChunksPlausible(s);
    ChunksKept(s);
    ParsedIsNormal(s, c);
  }

  // ---------- only the end of a text is open ----------

  /** What the text ends in the middle of: nothing, a bare word, a comment, or a quote. */
  function Unfinished(s: string): string {
    Chunks(s)[|Chunks(s)| - 1].body
  }

  /** A lexeme that is not the last one is the same whatever text comes behind. */
  lemma LexStable(s: string, u: string)
    requires Lex(s).kind !in {Eof, Error}
    ensures Lex(s + u) == Lex(s) && Body(s + u) == Body(s) && Rest(s + u) == Rest(s) + u
  {
    var b := Lex(s).blank;
    var t := s[b..];
    SpanInIs(s + u, BLANKS, b);
    assert (s + u)[b..] == t + u;
    LexBodyStable(t, u);
    hide LexBody, Text.SpanIn;
    SliceFront(s, u, b, Lex(s).size);
  }

  lemma SliceFront(s: string, u: string, b: nat, n: nat)
    requires b <= n <= |s|
    ensures (s + u)[b..n] == s[b..n] && (s + u)[n..] == s[n..] + u
  {}

  lemma LexBodyStable(t: string, u: string)
    requires LexBody(t).0 !in {Eof, Error}
    ensures LexBody(t + u) == LexBody(t)
  {
    if t[0] == '#' {
      SpanOutIs(t + u, {'\n', '\r'}, SpanOut(t, {'\n', '\r'}));
    } else if t[0] !in {'{', '}', ';'} {
      assert (t + u)[1..] == t[1..] + u;
      var ends := if t[0] in {'"', '\''} then {t[0]} else WORD_ENDS;
      SpanOutIs((t + u)[1..], ends, SpanOut(t[1..], ends));
    }
  }

  /** The token of the first call of the lexer, unless that call finds a comment. */
  function FirstTokens(s: string): seq<Token> {
    if Lex(s).kind == Comment then [] else [TokenOf(Lex(s).kind, Body(s))]
  }

  lemma NextChunks(s: string)
    requires Lex(s).kind !in {Eof, Error}
    ensures Unfinished(s) == Unfinished(Rest(s))
    ensures Kept(Chunks(s)) == FirstTokens(s) + Kept(Chunks(Rest(s)))
  {
    LexKinds(s);
    hide Lex, Rest, Body;
    assert Chunks(s)[1..] == Chunks(Rest(s));
  }

  lemma LastChunk(s: string)
    requires Lex(s).kind in {Eof, Error}
    ensures Unfinished(s) == Body(s) && Kept(Chunks(s)) == []
    ensures s == s[..Lex(s).blank] + Body(s)
    ensures forall i :: 0 <= i < Lex(s).blank ==> s[i] in BLANKS
  {
    hide LexBody;
    assert Chunks(s)[1..] == [];
  }

  /** Text behind `s` meets what `s` leaves unfinished; all tokens in front of that stay. */
  lemma {:induction false} OnlyTheEndIsOpen(s: string, u: string)
    ensures Scan(s + u) == Prepend(Kept(Chunks(s)), Unfinished(s) + u)
    ensures Unfinished(s + u) == Unfinished(Unfinished(s) + u)
    ensures Kept(Chunks(s + u)) == Kept(Chunks(s)) + Kept(Chunks(Unfinished(s) + u))
    decreases |s|
  {
    hide Scan, Prepend, Kept, Chunks, Unfinished, Lex, Rest;
    if Lex(s).kind in {Eof, Error} {
      EndIsOpen(s, u);
    } else {
      RestIsShorter(s);
      OnlyTheEndIsOpen(Rest(s), u);
      NextStep(s, u);
    }
  }

  lemma RestIsShorter(s: string)
    requires Lex(s).kind !in {Eof, Error}
    ensures |Rest(s)| < |s|
  {
    LexKinds(s);
  }

  lemma EndIsOpen(s: string, u: string)
    requires Lex(s).kind in {Eof, Error}
    ensures Scan(s + u) == Prepend(Kept(Chunks(s)), Unfinished(s) + u)
    ensures Unfinished(s + u) == Unfinished(Unfinished(s) + u)
    ensures Kept(Chunks(s + u)) == Kept(Chunks(s)) + Kept(Chunks(Unfinished(s) + u))
  {
    LastChunk(s);
    hide Lex, Scan, Body, Unfinished, Prepend, Chunks, Kept;
    var w := s[..Lex(s).blank];
    assert s + u == w + (Body(s) + u);
    ScanBlanks(w, Body(s) + u);
    UnfinishedBlanks(w, Body(s) + u);
    PrependNothing(Body(s) + u);
    assert [] + Kept(Chunks(Body(s) + u)) == Kept(Chunks(Body(s) + u));
  }

  lemma PrependNothing(s: string)
    ensures Prepend([], s) == Scan(s)
  {
    hide Scan;
    if Scan(s).Some? { assert [] + Scan(s).value == Scan(s).value; }
  }

  lemma NextStep(s: string, u: string)
    requires Lex(s).kind !in {Eof, Error}
    requires Scan(Rest(s) + u) == Prepend(Kept(Chunks(Rest(s))), Unfinished(Rest(s)) + u)
    requires Kept(Chunks(Rest(s) + u)) == Kept(Chunks(Rest(s))) + Kept(Chunks(Unfinished(Rest(s)) + u))
    ensures Scan(s + u) == Prepend(Kept(Chunks(s)), Unfinished(s) + u)
    ensures Kept(Chunks(s + u)) == Kept(Chunks(s)) + Kept(Chunks(Unfinished(s) + u))
    ensures Unfinished(s + u) == Unfinished(Rest(s) + u)
    ensures Unfinished(s) == Unfinished(Rest(s))
  {
    hide Lex, Body, Rest, Unfinished, Chunks, Kept, TokenOf, Scan, Prepend, FirstTokens;
    LexStable(s, u);
    NextChunks(s);
    NextChunks(s + u);
    var ts, v := Kept(Chunks(Rest(s))), Unfinished(s) + u;
    NextScan(s + u, ts, v);
    SameFirstTokens(s, u);
    var first := FirstTokens(s);
    assert first + (ts + Kept(Chunks(v))) == first + ts + Kept(Chunks(v));
  }

  lemma SameFirstTokens(s: string, u: string)
    requires Lex(s).kind !in {Eof, Error}
    ensures FirstTokens(s + u) == FirstTokens(s)
  {
    hide Lex, Body, Rest;
    LexStable(s, u);
  }

  lemma NextScan(s: string, ts: seq<Token>, v: string)
    requires Lex(s).kind !in {Eof, Error} && Scan(Rest(s)) == Prepend(ts, v)
    ensures Scan(s) == Prepend(FirstTokens(s) + ts, v)
  {
    LexKinds(s);
    hide Lex, Body, Rest, TokenOf;
    if Lex(s).kind == Comment {
      assert [] + ts == ts;
    } else {
      PrependCons(TokenOf(Lex(s).kind, Body(s)), ts, v);
      hide Prepend;
    }
  }

  lemma UnfinishedBlanks(w: string, s: string)
    requires forall i :: 0 <= i < |w| ==> w[i] in BLANKS
    ensures Unfinished(w + s) == Unfinished(s) && Kept(Chunks(w + s)) == Kept(Chunks(s))
  {
    hide Lex, Rest, Body, TokenOf, Chunks, Kept, Unfinished;
    LexBlanks(w, s);
    if Lex(s).kind in {Eof, Error} {
      LastChunk(s);
      LastChunk(w + s);
    } else {
      NextChunks(s);
      NextChunks(w + s);
    }
  }

  ghost predicate IsOpenComment(b: string) { b != "" && b[0] == '#' && FreeOf(b, {'\n', '\r'}) }

  ghost predicate IsOpenQuote(b: string) { b != "" && b[0] in {'"', '\''} && FreeOf(b[1..], {b[0]}) }

  /** The four ends that a text can have. */
  lemma {:induction false} UnfinishedKinds(s: string)
    ensures var b := Unfinished(s); b == "" || IsBareWord(b) || IsOpenComment(b) || IsOpenQuote(b)
    decreases |s|
  {
    if Lex(s).kind in {Eof, Error} {
      LastChunk(s);
      assert Body(s) == s[SpanIn(s, BLANKS)..];
      OpenKinds(Body(s));
    } else {
      NextChunks(s);
      RestIsShorter(s);
      UnfinishedKinds(Rest(s));
    }
  }

  lemma OpenKinds(b: string)
    requires LexBody(b).0 in {Eof, Error} && (b != "" ==> b[0] !in BLANKS)
    ensures b == "" || IsBareWord(b) || IsOpenComment(b) || IsOpenQuote(b)
  {
    if b != "" {
      assert forall i :: 1 <= i < |b| ==> b[i] == b[1..][i - 1];
    }
  }

  // ---------- one more character behind an open end ----------

  lemma ScanBlank(c: char)
    requires c in BLANKS
    ensures Scan([c]) == Some([]) && Scan("") == Some([])
  {
    SpanInIs([c], BLANKS, 1);
    SpanInIs("", BLANKS, 0);
  }

  lemma ScanBareWord(w: string)
    requires IsBareWord(w)
    ensures Scan(w) == Some([]) && Unfinished(w) == w
  {
    SpanInIs(w, BLANKS, 0);
    assert w[0..] == w && w[0..|w|] == w;
    SpanOutIs(w[1..], WORD_ENDS, |w| - 1);
  }

  lemma ScanOpenComment(b: string)
    requires IsOpenComment(b)
    ensures Scan(b) == Some([]) && Unfinished(b) == b
  {
    SpanInIs(b, BLANKS, 0);
    assert b[0..] == b && b[0..|b|] == b;
    SpanOutIs(b, {'\n', '\r'}, |b|);
  }

  /** A line break ends a comment. */
  lemma ScanClosedComment(b: string, c: char, s: string)
    requires IsOpenComment(b) && c in {'\n', '\r'}
    ensures Scan(b + [c] + s) == Scan(s) && Unfinished(b + [c] + s) == Unfinished(s)
  {
    var t := b + [c] + s;
    SpanInIs(t, BLANKS, 0);
    SpanOutIs(t, {'\n', '\r'}, |b|);
    assert t[0..] == t && t[|b| + 1..] == s;
    assert Lex(t) == Lexeme(Comment, 0, |b| + 1);
    NextChunks(t);
    hide Lex;
  }

  lemma ScanOpenQuote(b: string)
    requires IsOpenQuote(b)
    ensures Scan(b) == None && Unfinished(b) == b
  {
    SpanInIs(b, BLANKS, 0);
    assert b[0..] == b && b[0..|b|] == b;
    SpanOutIs(b[1..], {b[0]}, |b| - 1);
  }

  // ---------- the unfinished word ----------

  /** The tokens of a text whose end is no open quote: those in front of its end. */
  lemma ScanIsKept(s: string)
    ensures Scan(s) == if IsOpenQuote(Unfinished(s)) then None else Some(Kept(Chunks(s)))
  {
    OnlyTheEndIsOpen(s, "");
    UnfinishedKinds(s);
    var b := Unfinished(s);
    assert s + "" == s && b + "" == b;
    if b == "" { ScanBlank(' '); }
    if IsBareWord(b) { ScanBareWord(b); }
    if IsOpenComment(b) { ScanOpenComment(b); }
    if IsOpenQuote(b) { ScanOpenQuote(b); }
    hide Scan, Chunks, Kept, Unfinished, IsBareWord;
    assert Kept(Chunks(s)) + [] == Kept(Chunks(s));
  }

  /**
  A last word that nothing ends is dropped without an error: behind any text that leaves nothing
  unfinished, it may as well not be there.
  */
  lemma UnfinishedWordDropped(c: Config, s: string, w: string)
    requires Unfinished(s) == "" && IsBareWord(w)
    ensures Scan(s).Some? && Scan(s + w) == Scan(s) && ParseText(c, s + w) == ParseText(c, s)
  {
    hide Scan, Chunks, Kept, Unfinished, IsBareWord, IsOpenQuote, ParseTokens;
    OnlyTheEndIsOpen(s, w);
    ScanIsKept(s);
    ScanBareWord(w);
    NothingIsNoQuote();
    assert Unfinished(s) + w == w;
    assert Kept(Chunks(s)) + [] == Kept(Chunks(s));
  }

  lemma NothingIsNoQuote()
    ensures !IsOpenQuote("")
  {}

  lemma BlankBehindOpen(b: string)
    requires b == "" || IsBareWord(b) || IsOpenComment(b) || IsOpenQuote(b)
    ensures Scan(b + " ") == if IsOpenQuote(b) then None else if IsBareWord(b) then Some([Word(b)]) else Some([])
  {
    hide Scan;
    ScanBlank(' ');
    if b == "" {
      assert b + " " == [' '];
    } else if IsBareWord(b) {
      ScanLexeme(b, " ");
      assert [Word(b)] + [] == [Word(b)];
    } else if IsOpenComment(b) {
      ScanOpenComment(b + " ");
    } else {
      OpenQuoteGrows(b, ' ');
    }
  }

  /** A blank behind a text brings out the word that it leaves unfinished, if it leaves one, and nothing else. */
  lemma BlankBringsOutWord(s: string)
    ensures IsBareWord(Unfinished(s)) ==> Scan(s).Some?
    ensures Scan(s + " ") == if IsBareWord(Unfinished(s)) then Some(Scan(s).value + [Word(Unfinished(s))]) else Scan(s)
  {
    OnlyTheEndIsOpen(s, " ");
    ScanIsKept(s);
    UnfinishedKinds(s);
    BlankBehindOpen(Unfinished(s));
    WordIsNoQuote(Unfinished(s));
    hide Scan, Chunks, Kept, Unfinished, IsBareWord, IsOpenQuote, IsOpenComment;
    assert Kept(Chunks(s)) + [] == Kept(Chunks(s));
  }

  lemma WordIsNoQuote(b: string)
    ensures !(IsBareWord(b) && IsOpenQuote(b))
  {}

  lemma OpenQuoteGrows(b: string, c: char)
    requires IsOpenQuote(b) && c != b[0]
    ensures Scan(b + [c]) == None && Unfinished(b + [c]) == b + [c]
  {
    assert (b + [c])[1..] == b[1..] + [c];
    ScanOpenQuote(b + [c]);
  }

  /**
  An accepted text loses a word exactly when it leaves a bare word unfinished: finishing the word by a blank
  makes the text unacceptable, and otherwise the blank changes nothing.
  */
  lemma AcceptedLosesWordIff(c: Config, s: string)
    requires ParseText(c, s).Some?
    ensures ParseText(c, s + " ") == if IsBareWord(Unfinished(s)) then None else ParseText(c, s)
  {
    BlankBringsOutWord(s);
    hide Scan, Unfinished, IsBareWord;
    if IsBareWord(Unfinished(s)) {
      var ts, t := Scan(s).value, Word(Unfinished(s));
      RunAppend(Initial(c), ts, [t]);
      RunOne(Run(Initial(c), ts).value, t);
    }
  }

  // ---------- carriage returns ----------

  lemma CarriageReturnBehindOpen(b: string)
    requires b == "" || IsBareWord(b) || IsOpenComment(b) || IsOpenQuote(b)
    ensures Scan(b + "\r") == if IsOpenQuote(b) then None else Some([])
    ensures Unfinished(b + "\r") == if b == "" || IsOpenComment(b) then "" else b + "\r"
  {
    hide Scan, Unfinished;
    UnfinishedNothing();
    if b == "" {
      ScanBlank('\r');
      UnfinishedBlanks("\r", "");
      assert b + "\r" == "\r" + "" == ['\r'];
    } else if IsBareWord(b) {
      ScanBareWord(b + "\r");
    } else if IsOpenComment(b) {
      ScanBlank('\r');
      ScanClosedComment(b, '\r', "");
      assert b + ['\r'] + "" == b + "\r";
    } else {
      OpenQuoteGrows(b, '\r');
    }
  }

  /** A carriage return ends a comment, but no word and no quote: there it is one more character. */
  lemma CarriageReturnEndsNoWord(s: string)
    ensures Scan(s + "\r") == Scan(s)
    ensures var b := Unfinished(s);
            Unfinished(s + "\r") == if b == "" || IsOpenComment(b) then "" else b + "\r"
  {
    hide Scan, Chunks, Unfinished, IsBareWord, IsOpenQuote, IsOpenComment;
    OnlyTheEndIsOpen(s, "\r");
    ScanIsKept(s);
    UnfinishedKinds(s);
    CarriageReturnBehindOpen(Unfinished(s));
    assert Kept(Chunks(s)) + [] == Kept(Chunks(s));
  }

  lemma UnfinishedNothing()
    ensures Unfinished("") == ""
  {
    SpanInIs("", BLANKS, 0);
  }

  /** Between the parts of a word a carriage return separates nothing, whatever stands in front of the word. */
  lemma CarriageReturnInWord(s: string, w: string, t: string)
    requires IsBareWord(Unfinished(s)) && FreeOf(w, WORD_ENDS) && Delimits(t)
    ensures Scan(s + ("\r" + w + t)) == Prepend(Kept(Chunks(s)) + [Word(Unfinished(s) + "\r" + w)], t)
  {
    hide Scan, Chunks, Kept, Unfinished, Prepend;
    var v := Unfinished(s);
    var word := v + "\r" + w;
    assert IsBareWord(word);
    hide IsBareWord, FreeOf;
    OnlyTheEndIsOpen(s, "\r" + w + t);
    assert v + ("\r" + w + t) == word + t;
    ScanLexeme(word, t);
    ScanOne(word + t, Word(word), t);
    PrependAppend(Kept(Chunks(s)), [Word(word)], word + t, t);
  }

  lemma ScanOne(u: string, w: Token, t: string)
    requires Scan(u) == Cons(w, Scan(t))
    ensures Scan(u) == Prepend([w], t)
  {
    hide Scan;
  }

  lemma CarriageReturnExample()
    ensures Scan("a\rb;") == Some([Word("a\rb"), Semicolon])
  {
    hide Scan;
    var w := "a\rb";
    assert IsBareWord(w);
    assert "a\rb;" == w + ";";
    ScanLexeme(w, ";");
    ScanSemicolon();
    assert [Word(w)] + [Semicolon] == [Word(w), Semicolon];
  }

  /** The two characters do the same behind `s`, whatever follows. */
  ghost predicate SameBehind(s: string, c: char, d: char) {
    forall t :: Scan(s + ([c] + t)) == Scan(s + ([d] + t))
  }

  /**
  A carriage return is white space, as a line feed is, exactly behind a text that leaves nothing or a
  comment unfinished; behind every other text it becomes part of a word.
  */
  lemma CarriageReturnIsBlankIff(s: string)
    ensures SameBehind(s, '\r', '\n') <==> Unfinished(s) == "" || IsOpenComment(Unfinished(s))
  {
    var b := Unfinished(s);
    UnfinishedKinds(s);
    if b == "" || IsOpenComment(b) {
      forall t ensures Scan(s + (['\r'] + t)) == Scan(s + (['\n'] + t)) {
        LineBreakBehind(s, '\r', t);
        LineBreakBehind(s, '\n', t);
      }
    } else if IsBareWord(b) {
      LineFeedDiffersInWord(s);
    } else {
      LineFeedDiffersInQuote(s);
    }
  }

  lemma LineBreakBehind(s: string, c: char, t: string)
    requires c in {'\r', '\n'} && (Unfinished(s) == "" || IsOpenComment(Unfinished(s)))
    ensures Scan(s + ([c] + t)) == Prepend(Kept(Chunks(s)), t)
  {
    hide Scan, Chunks, Kept, Unfinished, IsOpenComment;
    var b := Unfinished(s);
    OnlyTheEndIsOpen(s, [c] + t);
    assert b + ([c] + t) == b + [c] + t;
    if b == "" {
      ScanBlanks([c], t);
      assert b + ([c] + t) == [c] + t;
    } else {
      ScanClosedComment(b, c, t);
    }
  }

  /** The first token behind what comes before the end of `s`. */
  lemma FirstBehind(s: string, u: string, w: string, t: string)
    requires Unfinished(s) + u == w + t && IsLexeme(w) && Delimits(t) && Scan(t).Some?
    ensures Scan(s + u) == Some(Kept(Chunks(s)) + ([Word(w)] + Scan(t).value))
  {
    OnlyTheEndIsOpen(s, u);
    ScanLexeme(w, t);
    hide Scan, Chunks, Kept, Unfinished, IsLexeme;
  }

  lemma LineFeedDiffersInWord(s: string)
    requires IsBareWord(Unfinished(s))
    ensures !SameBehind(s, '\r', '\n')
  {
    hide Scan, Chunks, Kept, Unfinished;
    var b := Unfinished(s);
    ScanSemicolon();
    ScanBlanks("\n", ";");
    assert b + (['\r'] + ";") == (b + "\r") + ";" && b + (['\n'] + ";") == b + ("\n" + ";");
    assert IsBareWord(b + "\r");
    FirstBehind(s, ['\r'] + ";", b + "\r", ";");
    FirstBehind(s, ['\n'] + ";", b, "\n" + ";");
    hide IsBareWord;
    OtherFirst(Kept(Chunks(s)), Word(b + "\r"), Word(b), [Semicolon]);
  }

  lemma OtherFirst(ts: seq<Token>, v: Token, w: Token, rest: seq<Token>)
    requires v != w
    ensures ts + ([v] + rest) != ts + ([w] + rest)
  {
    assert (ts + ([v] + rest))[|ts|] == v;
  }

  lemma ScanSemicolon()
    ensures Scan(";") == Some([Semicolon])
  {
    hide Scan;
    assert ";" == [';'] + "";
    ScanPunctuation(';', "");
    ScanBlank(' ');
    assert [Semicolon] + [] == [Semicolon];
  }

  lemma LineFeedDiffersInQuote(s: string)
    requires IsOpenQuote(Unfinished(s))
    ensures !SameBehind(s, '\r', '\n')
  {
    hide Scan, Chunks, Kept, Unfinished;
    var b := Unfinished(s);
    var q := [b[0]];
    QuoteCloses(s, '\r');
    QuoteCloses(s, '\n');
    hide IsOpenQuote;
    assert (b + ['\r'] + q)[|b|] == '\r' && (b + ['\n'] + q)[|b|] == '\n';
    OtherFirst(Kept(Chunks(s)), Word(b + ['\r'] + q), Word(b + ['\n'] + q), [Semicolon]);
  }

  lemma QuoteCloses(s: string, c: char)
    requires IsOpenQuote(Unfinished(s)) && c in {'\r', '\n'}
    ensures var b := Unfinished(s);
            Scan(s + ([c] + ([b[0]] + ";"))) == Some(Kept(Chunks(s)) + ([Word(b + [c] + [b[0]])] + [Semicolon]))
  {
    hide Scan, Chunks, Kept, Unfinished;
    var b := Unfinished(s);
    var w := b + [c] + [b[0]];
    assert forall i :: 1 <= i < |b| ==> b[i] == b[1..][i - 1];
    assert IsQuoted(w);
    ScanSemicolon();
    assert b + ([c] + ([b[0]] + ";")) == w + ";";
    FirstBehind(s, [c] + ([b[0]] + ";"), w, ";");
  }
}
