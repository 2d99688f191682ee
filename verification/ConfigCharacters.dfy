/**
The lexer once more, one character at a time: an automaton that names every character it treats specially.
Reading a text with it leaves exactly the tokens that the calls of the lexer return, and what they leave open.
 */
module ConfigCharacters {
  import opened Wrappers
  import opened Text
  import opened ConfigTree
  import opened ConfigLexer
  import opened ConfigGrammar
  import opened ConfigRoundTrip

  /** The tokens that are complete, and the comment, quote or word that is not. */
  datatype Reading = Reading(tokens: seq<Token>, open: string)

  function BetweenWords(ts: seq<Token>, c: char): Reading {
    if c == ' ' || c == '\t' || c == '\n' || c == '\r' then Reading(ts, "")
    else if c == '{' then Reading(ts + [OpenBrace], "")
    else if c == '}' then Reading(ts + [CloseBrace], "")
    else if c == ';' then Reading(ts + [Semicolon], "")
    else Reading(ts, [c])
  }

  function InComment(ts: seq<Token>, open: string, c: char): Reading {
    if c == '\n' || c == '\r' then Reading(ts, "") else Reading(ts, open + [c])
  }

  function InQuote(ts: seq<Token>, open: string, c: char): Reading
    requires open != ""
  {
    if c == open[0] then Reading(ts + [Word(open + [c])], "") else Reading(ts, open + [c])
  }

  function InWord(ts: seq<Token>, open: string, c: char): Reading {
    if c == ' ' || c == '\t' || c == '\n' then Reading(ts + [Word(open)], "")
    else if c == '{' then Reading(ts + [Word(open), OpenBrace], "")
    else if c == '}' then Reading(ts + [Word(open), CloseBrace], "")
    else if c == ';' then Reading(ts + [Word(open), Semicolon], "")
    else Reading(ts, open + [c])
  }

  function Next(r: Reading, c: char): Reading {
    if r.open == "" then BetweenWords(r.tokens, c)
    else if r.open[0] == '#' then InComment(r.tokens, r.open, c)
    else if r.open[0] == '"' || r.open[0] == '\'' then InQuote(r.tokens, r.open, c)
    else InWord(r.tokens, r.open, c)
  }

  function ReadText(s: string): Reading {
    if s == "" then Reading([], "") else Next(ReadText(s[..|s| - 1]), s[|s| - 1])
  }

  // ---------- what the lexer makes of an open end and one more character ----------

  function Lexed(s: string): Reading { Reading(Kept(Chunks(s)), Unfinished(s)) }

  /** What is open is told by its first character. */
  lemma OpenByFirstCharacter(b: string)
    requires b == "" || IsBareWord(b) || IsOpenComment(b) || IsOpenQuote(b)
    ensures b != "" ==> (IsOpenComment(b) <==> b[0] == '#') && (IsOpenQuote(b) <==> b[0] == '"' || b[0] == '\'')
    ensures IsBareWord(b) <==> b != "" && b[0] != '#' && b[0] != '"' && b[0] != '\''
  {}

  lemma OpenStaysOpen(b: string)
    requires IsBareWord(b) || IsOpenComment(b) || IsOpenQuote(b)
    ensures Lexed(b) == Reading([], b)
  {
    hide Kept, Chunks, Scan, Unfinished;
    if IsBareWord(b) {
      ScanBareWord(b);
    } else if IsOpenComment(b) {
      ScanOpenComment(b);
    } else {
      ScanOpenQuote(b);
      assert !IsBareWord(b);
    }
    OpenIsLast(b);
  }

  /** A text that is open from its first character on has no token. */
  lemma OpenIsLast(b: string)
    requires b != "" && Unfinished(b) == b
    ensures Kept(Chunks(b)) == []
  {
    hide LexBody, Kept, Chunks, Unfinished;
    if Lex(b).kind in {Eof, Error} {
      LastChunk(b);
    } else {
      NextChunks(b);
      RestIsShorter(b);
      UnfinishedFits(Rest(b));
    }
  }

  lemma {:induction false} UnfinishedFits(s: string)
    ensures |Unfinished(s)| <= |s|
    decreases |s|
  {
    hide Lex, Rest, Body, Unfinished, Chunks, Kept;
    if Lex(s).kind in {Eof, Error} {
      LastChunk(s);
      assert |s| == |s[..Lex(s).blank]| + |Body(s)|;
    } else {
      NextChunks(s);
      RestIsShorter(s);
      UnfinishedFits(Rest(s));
    }
  }

  /** The tokens of a text that does not end in a quote are what the parser is given. */
  lemma LexedIsScan(s: string, ts: seq<Token>)
    requires Scan(s) == Some(ts)
    ensures Kept(Chunks(s)) == ts
  {
    hide Scan, Kept, Chunks, Unfinished, IsOpenQuote;
    ScanIsKept(s);
  }

  lemma LexedNothing()
    ensures Lexed("") == Reading([], "")
  {
    SpanInIs("", BLANKS, 0);
    LastChunk("");
    assert Body("") == "";
    hide Chunks, Kept, Unfinished;
  }

  lemma LexedBlank(c: char)
    requires c == ' ' || c == '\t' || c == '\n' || c == '\r'
    ensures Lexed([c]) == Reading([], "")
  {
    hide Chunks, Kept, Unfinished;
    LexedNothing();
    UnfinishedBlanks([c], "");
    assert [c] + "" == [c];
  }

  lemma LexedPunctuation(c: char)
    requires c in {'{', '}', ';'}
    ensures Lexed([c]) == Reading([if c == '{' then OpenBrace else if c == '}' then CloseBrace else Semicolon], "")
  {
    hide Chunks, Kept, Unfinished, Lex, Rest;
    assert [c] + "" == [c];
    LexPunctuation(c, "");
    NextChunks([c]);
    LexedNothing();
  }

  /** Behind nothing. */
  lemma FirstCharacter(c: char)
    ensures Lexed([c]) == BetweenWords([], c)
  {
    hide Lexed;
    if c == ' ' || c == '\t' || c == '\n' || c == '\r' {
      LexedBlank(c);
    } else if c in {'{', '}', ';'} {
      LexedPunctuation(c);
      assert forall t: Token :: [] + [t] == [t];
    } else {
      OpenStaysOpen([c]);
    }
  }

  lemma BehindComment(b: string, c: char)
    requires IsOpenComment(b)
    ensures Lexed(b + [c]) == InComment([], b, c)
  {
    hide Chunks, Kept, Unfinished, Scan;
    if c == '\n' || c == '\r' {
      assert b + [c] + "" == b + [c];
      ScanClosedComment(b, c, "");
      ScanBlank(c);
      LexedNothing();
      LexedIsScan(b + [c], []);
    } else {
      assert IsOpenComment(b + [c]);
      OpenStaysOpen(b + [c]);
    }
  }

  lemma LexQuoted(t: string)
    requires IsQuoted(t)
    ensures Lex(t) == Lexeme(Normal, 0, |t|)
  {
    SpanInIs(t, BLANKS, 0);
    assert t[0..] == t;
    SpanOutIs(t[1..], {t[0]}, |t| - 2);
  }

  lemma BehindQuote(b: string, c: char)
    requires IsOpenQuote(b)
    ensures Lexed(b + [c]) == InQuote([], b, c)
  {
    hide Chunks, Kept, Unfinished, Lex;
    var t := b + [c];
    assert t[1..] == b[1..] + [c];
    assert forall i :: 1 <= i < |b| ==> t[i] == b[i] == b[1..][i - 1];
    if c == b[0] {
      LexQuoted(t);
      assert t[0..|t|] == t && t[|t|..] == "";
      NextChunks(t);
      LexedNothing();
      assert [Word(t)] + [] == [] + [Word(t)];
    } else {
      assert IsOpenQuote(t);
      OpenStaysOpen(t);
    }
  }

  lemma BehindWord(b: string, c: char)
    requires IsBareWord(b)
    ensures Lexed(b + [c]) == InWord([], b, c)
  {
    hide Chunks, Kept, Unfinished, Lex, Rest, BetweenWords;
    if c == ' ' || c == '\t' || c == '\n' || c == '{' || c == '}' || c == ';' {
      EndsWord(b, c);
      FirstCharacter(c);
      WordAndNext(b, c);
    } else {
      assert IsBareWord(b + [c]);
      OpenStaysOpen(b + [c]);
    }
  }

  lemma EndsWord(b: string, c: char)
    requires IsBareWord(b) && (c == ' ' || c == '\t' || c == '\n' || c == '{' || c == '}' || c == ';')
    ensures Lexed(b + [c]) == Reading([Word(b)] + Lexed([c]).tokens, Lexed([c]).open)
  {
    hide Chunks, Kept, Unfinished, Lex, IsBareWord;
    LexLexeme(b, [c]);
    assert (b + [c])[0..|b|] == b && (b + [c])[|b|..] == [c];
    NextChunks(b + [c]);
  }

  lemma WordAndNext(b: string, c: char)
    requires c == ' ' || c == '\t' || c == '\n' || c == '{' || c == '}' || c == ';'
    ensures InWord([], b, c) == Reading([Word(b)] + BetweenWords([], c).tokens, BetweenWords([], c).open)
  {
    assert [Word(b)] + [] == [] + [Word(b)];
    assert forall t: Token :: [Word(b)] + ([] + [t]) == [] + [Word(b), t];
  }

  /** More tokens in front change nothing. */
  lemma NextBehind(ts: seq<Token>, b: string, c: char)
    ensures var r := Next(Reading([], b), c);
            Next(Reading(ts, b), c) == Reading(ts + r.tokens, r.open)
  {
    assert ts + [] == ts;
    assert forall t: Token :: ts + ([] + [t]) == ts + [t];
    assert forall t: Token, u: Token :: ts + ([] + [t, u]) == ts + [t, u];
  }

  /** One more character, behind every text. */
  lemma OneCharacter(s: string, c: char)
    ensures Lexed(s + [c]) == Next(Lexed(s), c)
  {
    hide Chunks, Kept, Unfinished, BetweenWords, InComment, InQuote, InWord, IsBareWord, IsOpenComment, IsOpenQuote;
    var b := Unfinished(s);
    OnlyTheEndIsOpen(s, [c]);
    UnfinishedKinds(s);
    OpenByFirstCharacter(b);
    NextBehind(Kept(Chunks(s)), b, c);
    if b == "" {
      FirstCharacter(c);
      assert b + [c] == [c];
    } else if IsBareWord(b) {
      BehindWord(b, c);
    } else if IsOpenComment(b) {
      BehindComment(b, c);
    } else {
      BehindQuote(b, c);
    }
  }

  /**
  The lexer refines the automaton: on every text the tokens of its calls and what they leave open are those
  that the automaton reads, and there is an error exactly when it ends in a quote.
  */
  lemma {:induction false} LexerIsAutomaton(s: string)
    ensures Lexed(s) == ReadText(s)
    ensures var r := ReadText(s);
            Scan(s) == if r.open != "" && (r.open[0] == '"' || r.open[0] == '\'') then None else Some(r.tokens)
  {
    hide Next, Scan, IsBareWord, IsOpenComment, IsOpenQuote, Chunks, Kept, Unfinished;
    if s == "" {
      LexedNothing();
    } else {
      var front, c := s[..|s| - 1], s[|s| - 1];
      assert s == front + [c];
      LexerIsAutomaton(front);
      OneCharacter(front, c);
    }
    ScanIsKept(s);
    UnfinishedKinds(s);
    OpenByFirstCharacter(Unfinished(s));
    NothingIsNoQuote();
  }

  // ---------- which characters do what ----------

  /** A character completes a bare word exactly when it is one of six; every other one is added to the word. */
  lemma WordIsCompletedIff(s: string, c: char)
    requires var b := Unfinished(s); b != "" && b[0] != '#' && b[0] != '"' && b[0] != '\''
    ensures Unfinished(s + [c]) == "" <==> c == ' ' || c == '\t' || c == '\n' || c == ';' || c == '{' || c == '}'
    ensures Unfinished(s + [c]) == "" || Unfinished(s + [c]) == Unfinished(s) + [c]
    ensures var b, ts, more := Unfinished(s), Kept(Chunks(s)), Kept(Chunks(s + [c]));
            more == if c == ' ' || c == '\t' || c == '\n' then ts + [Word(b)]
                    else if c == ';' then ts + [Word(b), Semicolon]
                    else if c == '{' then ts + [Word(b), OpenBrace]
                    else if c == '}' then ts + [Word(b), CloseBrace]
                    else ts
  {
    hide Chunks, Kept, Unfinished;
    OneCharacter(s, c);
  }

  /** A line break of either kind completes a comment, and leaves no token; every other character is part of it. */
  lemma CommentIsCompletedIff(s: string, c: char)
    requires Unfinished(s) != "" && Unfinished(s)[0] == '#'
    ensures Unfinished(s + [c]) == if c == '\n' || c == '\r' then "" else Unfinished(s) + [c]
    ensures Kept(Chunks(s + [c])) == Kept(Chunks(s))
  {
    hide Chunks, Kept, Unfinished;
    OneCharacter(s, c);
  }

  /** The quotation mark that a quote began with completes it, and the word has both; all else is part of it. */
  lemma QuoteIsCompletedIff(s: string, c: char)
    requires var b := Unfinished(s); b != "" && (b[0] == '"' || b[0] == '\'')
    ensures var b := Unfinished(s);
            && Unfinished(s + [c]) == (if c == b[0] then "" else b + [c])
            && Kept(Chunks(s + [c])) == Kept(Chunks(s)) + if c == b[0] then [Word(b + [c])] else []
  {
    hide Chunks, Kept, Unfinished;
    OneCharacter(s, c);
  }

  /** Where nothing is unfinished, four characters are skipped, three are tokens, and all others begin something. */
  lemma FirstCharacterDecides(s: string, c: char)
    requires Unfinished(s) == ""
    ensures Unfinished(s + [c]) == if c in " \t\n\r{};" then "" else [c]
    ensures var ts := Kept(Chunks(s));
            Kept(Chunks(s + [c])) == if c == '{' then ts + [OpenBrace]
                                     else if c == '}' then ts + [CloseBrace]
                                     else if c == ';' then ts + [Semicolon]
                                     else ts
    ensures c == '#' <==> IsOpenComment(Unfinished(s + [c]))
    ensures c == '"' || c == '\'' <==> IsOpenQuote(Unfinished(s + [c]))
    ensures c !in " \t\n\r{};#\"\'" <==> IsBareWord(Unfinished(s + [c]))
  {
    hide Chunks, Kept, Unfinished, IsBareWord, IsOpenComment, IsOpenQuote;
    OneCharacter(s, c);
    UnfinishedKinds(s + [c]);
    OpenByFirstCharacter(Unfinished(s + [c]));
    NothingIsNothing();
  }

  lemma NothingIsNothing()
    ensures !IsBareWord("") && !IsOpenComment("") && !IsOpenQuote("")
  {}

  /** A block behind a word without a space. */
  lemma BracesNeedNoSpace()
    ensures Scan("a{b;}") == Some([Word("a"), OpenBrace, Word("b"), Semicolon, CloseBrace])
  {
    hide Scan, Lexed, Next;
    LexerIsAutomaton("a{b;}");
    var a, b := [Word("a"), OpenBrace], [Word("a"), OpenBrace, Word("b"), Semicolon];
    assert "a{b;}"[..4] == "a{b;" && "a{b;"[..3] == "a{b" && "a{b"[..2] == "a{" && "a{"[..1] == "a" && "a"[..0] == "";
    assert ReadText("a") == Next(Reading([], ""), 'a');
    Steps();
    assert [] + [Word("a"), OpenBrace] == a && a + [Word("b"), Semicolon] == b;
    assert ReadText("a{") == Reading(a, "");
    assert ReadText("a{b") == Reading(a, "b");
    assert ReadText("a{b;") == Reading(b, "");
    assert ReadText("a{b;}") == Reading(b + [CloseBrace], "");
    assert b + [CloseBrace] == [Word("a"), OpenBrace, Word("b"), Semicolon, CloseBrace];
  }

  lemma Steps()
    ensures Next(Reading([], ""), 'a') == Reading([], "a")
    ensures Next(Reading([], "a"), '{') == Reading([] + [Word("a"), OpenBrace], "")
    ensures forall ts :: Next(Reading(ts, ""), 'b') == Reading(ts, "b")
    ensures forall ts :: Next(Reading(ts, "b"), ';') == Reading(ts + [Word("b"), Semicolon], "")
    ensures forall ts :: Next(Reading(ts, ""), '}') == Reading(ts + [CloseBrace], "")
  {}
}
