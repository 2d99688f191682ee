/**
The grammar of the configuration language,

    config = statement*
    statement = word+ (';' | '{' statement+ '}')

and the stack machine that recognises it. The machine decides by the type of the last token, the depth
of the stack and its top alone; here it is shown to accept exactly what the grammar derives, and to
build the one tree that derives it.
 */
module ConfigGrammar {
  import opened Wrappers
  import opened ConfigTree
  import opened ConfigLexer

  datatype Token = Word(text: string) | OpenBrace | CloseBrace | Semicolon

  // ---------- derivations ----------

  function WordTokens(words: seq<string>): seq<Token> {
    if words == [] then [] else WordTokens(words[..|words| - 1]) + [Word(words[|words| - 1])]
  }

  /** The tokens that a statement, read as a derivation of the grammar, derives. */
  function YieldStatement(s: Statement): seq<Token> {
    match s
    case Line(tokens) => WordTokens(tokens) + [Semicolon]
    case Block(tokens, body) => WordTokens(tokens) + [OpenBrace] + Yield(body) + [CloseBrace]
  }

  function Yield(c: Config): seq<Token> {
    if c == [] then [] else YieldStatement(c[0]) + Yield(c[1..])
  }

  lemma {:induction false} YieldAppend(c: Config, d: Config)
    ensures Yield(c + d) == Yield(c) + Yield(d)
    decreases |c|
  {
    if c == [] {
      assert c + d == d;
    } else {
      YieldAppend(c[1..], d);
      assert (c + d)[1..] == c[1..] + d;
    }
  }

  lemma YieldOne(s: Statement)
    ensures Yield([s]) == YieldStatement(s)
  {
    assert [s][1..] == [];
  }

  lemma WordTokensSnoc(words: seq<string>, w: string)
    ensures WordTokens(words + [w]) == WordTokens(words) + [Word(w)]
  {
    assert (words + [w])[..|words|] == words;
  }

  // ---------- the stack machine ----------

  /** One open block: the statements finished in it, and the words of the one that is being read. */
  datatype Frame = Frame(done: Config, words: seq<string>)

  /** The type of the last token, and the open blocks: the innermost one and those around it. */
  datatype Machine = Machine(last: TokenType, below: seq<Frame>, top: Frame)

  function Initial(c: Config): Machine {
    Machine(Start, [], Frame(c, []))
  }

  /** What every run keeps: the last statement is open exactly when the last token is a word. */
  ghost predicate Consistent(m: Machine) {
    && m.last in {Start, Normal, StartBlock, EndBlock, StatementEnd}
    && (m.top.words == [] <==> m.last != Normal)
    && (forall i :: 0 <= i < |m.below| ==> m.below[i].words != [])
    && (m.last == Start ==> m.below == [])
    && (m.last in {EndBlock, StatementEnd} ==> m.top.done != [])
  }

  /** One token; `None` where the parser reports a bad transition. */
  function Step(m: Machine, t: Token): Option<Machine> {
    match t
    case Word(text) =>
      if m.last in {Start, StatementEnd, StartBlock, EndBlock, Normal} then
        var words := if m.last != Normal then [] else m.top.words;
        Some(Machine(Normal, m.below, Frame(m.top.done, words + [text])))
      else None
    case Semicolon =>
      if m.last != Normal then None
      else Some(Machine(StatementEnd, m.below, Frame(m.top.done + [Line(m.top.words)], [])))
    case OpenBrace =>
      if m.last != Normal then None
      else Some(Machine(StartBlock, m.below + [m.top], Frame([], [])))
    case CloseBrace =>
      if (m.last != StatementEnd && m.last != EndBlock) || m.below == [] then None
      else
        var n := |m.below| - 1;
        var outer := m.below[n];
        Some(Machine(EndBlock, m.below[..n], Frame(outer.done + [Block(outer.words, m.top.done)], [])))
  }

  predicate Accepting(m: Machine) {
    m.last in {StatementEnd, EndBlock, Start} && m.below == []
  }

  function Run(m: Machine, ts: seq<Token>): Option<Machine>
    decreases |ts|
  {
    if ts == [] then Some(m) else
      match Step(m, ts[0])
      case None => None
      case Some(m') => Run(m', ts[1..])
  }

  /** The tree that the parser leaves in a config that held `c` at first; `None` where it throws. */
  function ParseTokens(c: Config, ts: seq<Token>): Option<Config> {
    match Run(Initial(c), ts)
    case None => None
    case Some(m) => if Accepting(m) then Some(m.top.done) else None
  }

  lemma StepConsistent(m: Machine, t: Token)
    requires Consistent(m) && Step(m, t).Some?
    ensures Consistent(Step(m, t).value)
  {}

  /** Every run keeps the invariant, and as many blocks are open as braces were opened and not closed. */
  lemma {:induction false} RunConsistent(c: Config, ts: seq<Token>)
    requires Run(Initial(c), ts).Some?
    ensures Consistent(Run(Initial(c), ts).value)
    ensures |Run(Initial(c), ts).value.below| + multiset(ts)[CloseBrace] == multiset(ts)[OpenBrace]
    decreases |ts|
  {
    if ts != [] {
      var n := |ts| - 1;
      assert ts == ts[..n] + [ts[n]];
      RunAppend(Initial(c), ts[..n], [ts[n]]);
      RunConsistent(c, ts[..n]);
      var m := Run(Initial(c), ts[..n]).value;
      assert [ts[n]][1..] == [];
      StepConsistent(m, ts[n]);
    }
  }

  lemma {:induction false} RunAppend(m: Machine, a: seq<Token>, b: seq<Token>)
    ensures Run(m, a + b) == if Run(m, a).None? then None else Run(Run(m, a).value, b)
    decreases |a|
  {
    hide Step;
    if a == [] {
      assert a + b == b;
    } else {
      assert (a + b)[0] == a[0] && (a + b)[1..] == a[1..] + b;
      if Step(m, a[0]).Some? { RunAppend(Step(m, a[0]).value, a[1..], b); }
    }
  }

  lemma RunOne(m: Machine, t: Token)
    ensures Run(m, [t]) == Step(m, t)
  {
    assert [t][1..] == [];
  }

  // ---------- everything the grammar derives is accepted ----------

  lemma {:induction false} RunWords(m: Machine, words: seq<string>)
    requires Consistent(m) && m.last != Normal && words != []
    ensures Run(m, WordTokens(words)) == Some(Machine(Normal, m.below, Frame(m.top.done, words)))
    decreases |words|
  {
    var n := |words| - 1;
    var front, w := words[..n], words[n];
    assert words == front + [w];
    RunAppend(m, WordTokens(front), [Word(w)]);
    if n == 0 {
      RunOne(m, Word(w));
      assert [] + [w] == words;
    } else {
      RunWords(m, front);
      RunOne(Run(m, WordTokens(front)).value, Word(w));
    }
  }

  /** The machine that has read the statements `c` into its innermost block. */
  function Pushed(m: Machine, c: Config): Machine {
    if c == [] then m
    else Machine(if c[|c| - 1].Line? then StatementEnd else EndBlock, m.below, Frame(m.top.done + c, []))
  }

  lemma PushedAppend(m: Machine, c: Config, d: Config)
    ensures Pushed(Pushed(m, c), d) == Pushed(m, c + d)
  {
    if d == [] {
      assert c + d == c;
    } else if c == [] {
      assert c + d == d;
    } else {
      assert m.top.done + c + d == m.top.done + (c + d);
    }
  }

  lemma {:induction false} RunStatement(m: Machine, s: Statement)
    requires Consistent(m) && m.last != Normal && WellFormedStatement(s)
    ensures Run(m, YieldStatement(s)) == Some(Pushed(m, [s]))
    decreases s
  {
    var m1 := Machine(Normal, m.below, Frame(m.top.done, s.tokens));
    RunWords(m, s.tokens);
    match s
    case Line(tokens) =>
      RunAppend(m, WordTokens(tokens), [Semicolon]);
      RunOne(m1, Semicolon);
    case Block(tokens, body) =>
      var m2 := Machine(StartBlock, m.below + [m1.top], Frame([], []));
      RunAppend(m, WordTokens(tokens), [OpenBrace]);
      RunOne(m1, OpenBrace);
      RunAppend(m, WordTokens(tokens) + [OpenBrace], Yield(body));
      RunConfig(m2, body);
      RunAppend(m, WordTokens(tokens) + [OpenBrace] + Yield(body), [CloseBrace]);
      RunClose(m, s);
  }

  lemma RunClose(m: Machine, s: Statement)
    requires s.Block? && s.body != []
    ensures var m2 := Machine(StartBlock, m.below + [Frame(m.top.done, s.tokens)], Frame([], []));
            Run(Pushed(m2, s.body), [CloseBrace]) == Some(Pushed(m, [s]))
  {
    var f := Frame(m.top.done, s.tokens);
    var m3 := Pushed(Machine(StartBlock, m.below + [f], Frame([], [])), s.body);
    assert [] + s.body == s.body;
    assert (m.below + [f])[..|m.below|] == m.below;
    RunOne(m3, CloseBrace);
  }

  lemma {:induction false} RunConfig(m: Machine, c: Config)
    requires Consistent(m) && m.last != Normal && WellFormed(c)
    ensures Run(m, Yield(c)) == Some(Pushed(m, c))
    decreases c
  {
    if c != [] {
      RunStatement(m, c[0]);
      RunConfig(Pushed(m, [c[0]]), c[1..]);
      hide Run, Pushed;
      RunAppend(m, YieldStatement(c[0]), Yield(c[1..]));
      PushedAppend(m, [c[0]], c[1..]);
      assert [c[0]] + c[1..] == c;
    }
  }

  // ---------- everything accepted is derived by the grammar ----------

  /** The tokens that the blocks around the innermost one stand for. */
  function Opened(frames: seq<Frame>): seq<Token> {
    if frames == [] then [] else
      var f := frames[|frames| - 1];
      Opened(frames[..|frames| - 1]) + Yield(f.done) + WordTokens(f.words) + [OpenBrace]
  }

  /** The tokens that the state of the machine stands for. */
  function Read(m: Machine): seq<Token> {
    Opened(m.below) + Yield(m.top.done) + WordTokens(m.top.words)
  }

  ghost predicate AllWellFormed(m: Machine) {
    WellFormed(m.top.done) && forall i :: 0 <= i < |m.below| ==> WellFormed(m.below[i].done)
  }

  lemma StepWellFormed(m: Machine, t: Token)
    requires Consistent(m) && AllWellFormed(m) && Step(m, t).Some?
    ensures AllWellFormed(Step(m, t).value)
  {}

  /** No token is lost or invented: a step adds its token to what the state stands for. */
  lemma StepReads(m: Machine, t: Token)
    requires Consistent(m) && Step(m, t).Some?
    ensures Read(Step(m, t).value) == Read(m) + [t]
  {
    match t
    case Word(text) => WordTokensSnoc(m.top.words, text);
    case Semicolon => SemicolonReads(m);
    case OpenBrace => assert (m.below + [m.top])[..|m.below|] == m.below;
    case CloseBrace => CloseBraceReads(m);
  }

  lemma SemicolonReads(m: Machine)
    requires m.last == Normal
    ensures Read(Step(m, Semicolon).value) == Read(m) + [Semicolon]
  {
    var done, words := m.top.done, m.top.words;
    YieldAppend(done, [Line(words)]);
    YieldOne(Line(words));
    hide Yield, Opened;
    assert YieldStatement(Line(words)) == WordTokens(words) + [Semicolon];
  }

  lemma CloseBraceReads(m: Machine)
    requires Consistent(m) && Step(m, CloseBrace).Some?
    ensures Read(Step(m, CloseBrace).value) == Read(m) + [CloseBrace]
  {
    var n := |m.below| - 1;
    var outer, inner := m.below[n], m.top.done;
    var s := Block(outer.words, inner);
    YieldAppend(outer.done, [s]);
    YieldOne(s);
    var front, words := Opened(m.below[..n]), WordTokens(outer.words);
    assert Opened(m.below) == front + Yield(outer.done) + words + [OpenBrace];
    assert Yield([s]) == words + [OpenBrace] + Yield(inner) + [CloseBrace];
    hide Yield, Opened;
    var y, b := Yield(outer.done), words + [OpenBrace];
    assert y + words + [OpenBrace] == y + b;
    assert Read(m) == front + y + b + Yield(inner) + [] by {
      assert front + y + words + [OpenBrace] == front + y + b;
    }
    Regroup(front, y, b, Yield(inner), [CloseBrace]);
  }

  lemma Regroup(a: seq<Token>, b: seq<Token>, c: seq<Token>, d: seq<Token>, e: seq<Token>)
    ensures a + (b + (c + d + e)) + [] == a + b + c + d + [] + e
  {}

  lemma {:induction false} RunReads(m: Machine, ts: seq<Token>)
    requires Consistent(m) && AllWellFormed(m) && Run(m, ts).Some?
    ensures Consistent(Run(m, ts).value) && AllWellFormed(Run(m, ts).value)
    ensures Read(Run(m, ts).value) == Read(m) + ts
    decreases |ts|
  {
    hide Step, Consistent, AllWellFormed, Read;
    if ts == [] {
      assert Read(m) + ts == Read(m);
    } else {
      StepConsistent(m, ts[0]);
      StepWellFormed(m, ts[0]);
      StepReads(m, ts[0]);
      RunReads(Step(m, ts[0]).value, ts[1..]);
      assert Read(m) + [ts[0]] + ts[1..] == Read(m) + ts;
    }
  }

  /** The parser builds the tree `c` from the tokens `ts` if and only if the grammar derives `ts` by `c`. */
  lemma ParserRefinesGrammar(ts: seq<Token>, c: Config)
    ensures ParseTokens([], ts) == Some(c) <==> WellFormed(c) && Yield(c) == ts
  {
    var m := Initial([]);
    if WellFormed(c) && Yield(c) == ts {
      RunConfig(m, c);
      assert [] + c == c;
    }
    if ParseTokens([], ts) == Some(c) {
      RunReads(m, ts);
      var m' := Run(m, ts).value;
      assert Read(m) + ts == ts && m'.top == Frame(c, []);
      assert Read(m') == Yield(c);
    }
  }

  /** The grammar is unambiguous: no two trees derive the same tokens. */
  lemma Unambiguous(c: Config, d: Config)
    requires WellFormed(c) && WellFormed(d) && Yield(c) == Yield(d)
    ensures c == d
  {
    ParserRefinesGrammar(Yield(c), c);
    ParserRefinesGrammar(Yield(c), d);
  }

  // ---------- parsing into a config that is not empty ----------

  function Prefixed(c: Config, f: Frame): Frame { Frame(c + f.done, f.words) }

  /** The machine with the statements `c` in front of everything it has read. */
  function Rebase(c: Config, m: Machine): Machine {
    if m.below == [] then m.(top := Prefixed(c, m.top))
    else m.(below := m.below[0 := Prefixed(c, m.below[0])])
  }

  lemma StepRebase(c: Config, m: Machine, t: Token)
    ensures Step(m, t).None? ==> Step(Rebase(c, m), t).None?
    ensures Step(m, t).Some? ==> Step(Rebase(c, m), t) == Some(Rebase(c, Step(m, t).value))
  {
    if Step(m, t).Some? {
      var f := m.top;
      match t
      case Word(text) =>
      case Semicolon => assert c + f.done + [Line(f.words)] == c + (f.done + [Line(f.words)]);
      case OpenBrace =>
        var p := if m.below == [] then Prefixed(c, f) else Prefixed(c, m.below[0]);
        assert (m.below + [f])[0 := p] == Rebase(c, m).below + [Rebase(c, m).top];
      case CloseBrace =>
        var g := m.below[|m.below| - 1];
        assert c + g.done + [Block(g.words, f.done)] == c + (g.done + [Block(g.words, f.done)]);
    }
  }

  lemma {:induction false} RunRebase(c: Config, m: Machine, ts: seq<Token>)
    ensures Run(m, ts).None? ==> Run(Rebase(c, m), ts).None?
    ensures Run(m, ts).Some? ==> Run(Rebase(c, m), ts) == Some(Rebase(c, Run(m, ts).value))
    decreases |ts|
  {
    hide Step, Rebase;
    if ts != [] {
      StepRebase(c, m, ts[0]);
      if Step(m, ts[0]).Some? { RunRebase(c, Step(m, ts[0]).value, ts[1..]); }
    }
  }

  /** Parsing into a config that already holds statements puts the new ones behind them. */
  lemma ParseAppends(c: Config, ts: seq<Token>)
    ensures ParseTokens([], ts).None? ==> ParseTokens(c, ts).None?
    ensures ParseTokens([], ts).Some? ==> ParseTokens(c, ts) == Some(c + ParseTokens([], ts).value)
  {
    RunRebase(c, Initial([]), ts);
    assert c + [] == c;
  }
}
