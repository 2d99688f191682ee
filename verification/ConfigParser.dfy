/**
The parser itself: it builds the tree in place, reaching into it through a stack of the open blocks, and is
proved against the stack machine on values.
 */
module ConfigParser {
  import opened Wrappers
  import opened ConfigNodes
  import opened ConfigTree
  import opened ConfigLexer
  import opened ConfigGrammar
  import opened ConfigRoundTrip

  // ---------- the open blocks ----------

  /** A footprint holds nothing but configs and statements. */
  lemma {:induction false} NoStreamInside(ss: seq<StatementShape>, input: InputStream)
    ensures input !in Footprint(ss)
    decreases ss
  {
    if ss != [] {
      NoStreamInside(ss[..|ss| - 1], input);
      var s := ss[|ss| - 1];
      if s.child.Some? { NoStreamInside(s.child.value.statements, input); }
    }
  }

  /** An open block: its finished statements, and the statement that is being read, if there is one. */
  datatype OpenBlock =
    OpenBlock(config: NginxConfig, done: seq<StatementShape>, open: NginxConfigStatement?, words: seq<string>)

  /** The objects that reading on may still change. */
  ghost function Own(b: OpenBlock): set<object> {
    if b.open == null then {b.config} else {b.config, b.open}
  }

  ghost function Reach(b: OpenBlock): set<object> {
    Own(b) + Footprint(b.done)
  }

  /** The heap holds the open block, whose open statement has the child block `child`. */
  ghost predicate HoldsOpen(b: OpenBlock, child: NginxConfig?)
    reads Reach(b)
  {
    && Holds(b.done)
    && b.config.statements == Nodes(b.done) + (if b.open == null then [] else [b.open])
    && (b.open == null <==> b.words == [])
    && (b.open != null ==> b.open.tokens == b.words && b.open.childBlock == child)
  }

  ghost function ChildOf(blocks: seq<OpenBlock>, i: nat): NginxConfig? {
    if i + 1 < |blocks| then blocks[i + 1].config else null
  }

  /** What may still change in one block is not reached from another, nor from the finished statements. */
  ghost predicate Separate(blocks: seq<OpenBlock>) {
    && (forall i, j :: 0 <= i < |blocks| && 0 <= j < |blocks| && i != j ==> Own(blocks[i]) !! Reach(blocks[j]))
    && (forall i :: 0 <= i < |blocks| ==> Own(blocks[i]) !! Footprint(blocks[i].done))
  }

  ghost function ReachAll(blocks: seq<OpenBlock>): set<object> {
    set i, o | 0 <= i < |blocks| && o in Reach(blocks[i]) :: o
  }

  /** The stack holds the open blocks from the outermost one on, each the child of the one before it. */
  ghost predicate Spine(stack: seq<NginxConfig>, blocks: seq<OpenBlock>)
    reads ReachAll(blocks)
  {
    && |stack| == |blocks| > 0
    && (forall i :: 0 <= i < |stack| ==> stack[i] == blocks[i].config)
    && Separate(blocks)
    && (forall i :: 0 <= i < |blocks| ==> HoldsOpen(blocks[i], ChildOf(blocks, i)))
  }

  function EraseOpen(b: OpenBlock): Frame { Frame(Erase(b.done), b.words) }

  /** The machine stands where the open blocks stand. */
  ghost predicate Simulates(m: Machine, blocks: seq<OpenBlock>) {
    && |blocks| == |m.below| + 1
    && (forall i :: 0 <= i < |m.below| ==> EraseOpen(blocks[i]) == m.below[i])
    && EraseOpen(blocks[|m.below|]) == m.top
  }

  // ---------- the four changes ----------

  /** What changes only in the innermost block keeps the spine, if the new objects are new. */
  lemma ReplaceTop(stack: seq<NginxConfig>, blocks: seq<OpenBlock>, b: OpenBlock)
    requires |stack| == |blocks| > 0 && Separate(blocks)
    requires forall i :: 0 <= i < |stack| ==> stack[i] == blocks[i].config
    requires forall i :: 0 <= i < |blocks| - 1 ==> HoldsOpen(blocks[i], ChildOf(blocks, i))
    requires b.config == blocks[|blocks| - 1].config && HoldsOpen(b, null) && Own(b) !! Footprint(b.done)
    requires forall i :: 0 <= i < |blocks| - 1 ==> Own(b) !! Reach(blocks[i]) && Own(blocks[i]) !! Reach(b)
    ensures Spine(stack, blocks[|blocks| - 1 := b])
  {
    hide HoldsOpen, Own, Reach, Footprint;
    var n := |blocks| - 1;
    var r := blocks[n := b];
    forall i | 0 <= i < |r| ensures HoldsOpen(r[i], ChildOf(r, i)) {
      assert i < n ==> ChildOf(r, i) == ChildOf(blocks, i);
    }
  }

  /** What the parser relies on when it changes the innermost block. */
  lemma Innermost(stack: seq<NginxConfig>, blocks: seq<OpenBlock>)
    requires Spine(stack, blocks)
    ensures var n := |blocks| - 1;
            var b := blocks[n];
            && stack[n] == b.config
            && |stack| == |blocks| && Separate(blocks)
            && (forall i :: 0 <= i < |stack| ==> stack[i] == blocks[i].config)
            && HoldsOpen(b, null)
            && Own(b) !! Footprint(b.done)
            && (forall i :: 0 <= i < n ==> Own(b) !! Reach(blocks[i]) && Own(blocks[i]) !! Reach(b))
            && (forall i :: 0 <= i < n ==> HoldsOpen(blocks[i], ChildOf(blocks, i)))
            && (forall o :: o in Footprint(b.done) ==> allocated(o))
            && (forall i :: 0 <= i <= n ==> forall o :: o in Reach(blocks[i]) ==> allocated(o))
  {
    hide Holds, Footprint;
    forall i | 0 <= i < |blocks| ensures forall o :: o in Reach(blocks[i]) ==> allocated(o) {
      FootprintAllocated(blocks[i].done);
    }
    FootprintAllocated(blocks[|blocks| - 1].done);
  }

  /** The innermost block after one more word. */
  function WithWord(b: OpenBlock, open: NginxConfigStatement, last: TokenType, token: string): OpenBlock {
    OpenBlock(b.config, b.done, open, (if last != Normal then [] else b.words) + [token])
  }

  /** A word opens a statement or goes on with the one that is open. */
  method AddWord(stack: seq<NginxConfig>, last: TokenType, token: string, ghost blocks: seq<OpenBlock>)
    returns (ghost after: seq<OpenBlock>)
    requires Spine(stack, blocks)
    requires blocks[|blocks| - 1].open != null <==> last == Normal
    modifies Own(blocks[|blocks| - 1])
    ensures Spine(stack, after)
    ensures var n := |blocks| - 1;
            && after[n].open != null
            && after == blocks[n := WithWord(blocks[n], after[n].open, last, token)]
            && fresh(Own(after[n]) - Own(blocks[n]))
  {
    ghost var n := |blocks| - 1;
    ghost var b := blocks[n];
    Innermost(stack, blocks);
    hide Holds, Footprint, Nodes, Spine, Separate, ChildOf;
    var top := stack[|stack| - 1];
    if last != Normal {
      var s := new NginxConfigStatement();
      top.statements := top.statements + [s];
    }
    var back := top.statements[|top.statements| - 1];
    assert last == Normal ==> back == b.open;
    back.tokens := back.tokens + [token];
    ghost var b' := WithWord(b, back, last, token);
    assert unchanged(Footprint(b.done));
    assert HoldsOpen(b', null);
    ReplaceTop(stack, blocks, b');
    after := blocks[n := b'];
  }

  function EmptyBlock(config: NginxConfig): OpenBlock { OpenBlock(config, [], null, []) }

  /** A new config, given to the open statement of the innermost block, makes a longer spine. */
  lemma PushBlock(stack: seq<NginxConfig>, blocks: seq<OpenBlock>, config: NginxConfig)
    requires |stack| == |blocks| > 0 && Separate(blocks)
    requires forall i :: 0 <= i < |stack| ==> stack[i] == blocks[i].config
    requires forall i :: 0 <= i < |blocks| - 1 ==> HoldsOpen(blocks[i], ChildOf(blocks, i))
    requires HoldsOpen(blocks[|blocks| - 1], config) && config.statements == []
    requires forall i :: 0 <= i < |blocks| ==> config !in Reach(blocks[i])
    ensures Spine(stack + [config], blocks + [EmptyBlock(config)])
  {
    var n := |blocks|;
    var after := blocks + [EmptyBlock(config)];
    assert Own(EmptyBlock(config)) == Reach(EmptyBlock(config)) == {config};
    assert forall i :: 0 <= i < n ==> after[i] == blocks[i];
    forall i | 0 <= i < |after| ensures HoldsOpen(after[i], ChildOf(after, i)) {
      assert i < n - 1 ==> ChildOf(after, i) == ChildOf(blocks, i);
    }
  }

  /** An opening brace gives the open statement a new child block and goes inside. */
  method EnterBlock(stack: seq<NginxConfig>, ghost blocks: seq<OpenBlock>) returns (newConfig: NginxConfig)
    requires Spine(stack, blocks)
    requires blocks[|blocks| - 1].open != null
    modifies blocks[|blocks| - 1].open
    ensures fresh(newConfig)
    ensures Spine(stack + [newConfig], blocks + [EmptyBlock(newConfig)])
  {
    ghost var n := |blocks| - 1;
    ghost var b := blocks[n];
    Innermost(stack, blocks);
    hide Holds, Footprint, Nodes, Spine, Separate;
    newConfig := new NginxConfig();
    var top := stack[|stack| - 1];
    var back := top.statements[|top.statements| - 1];
    assert back == b.open;
    assert b.open in Own(b);
    back.childBlock := newConfig;
    PushBlock(stack, blocks, newConfig);
  }

  /** The block after its open statement has ended, with the child `child` or without one. */
  function Ended(b: OpenBlock, child: Option<Shape>): OpenBlock
    requires b.open != null
  {
    OpenBlock(b.config, b.done + [StatementShape(b.open, b.words, child)], null, [])
  }

  /** A semicolon changes nothing on the heap: the open statement counts as finished. */
  lemma FinishStatement(stack: seq<NginxConfig>, blocks: seq<OpenBlock>)
    requires Spine(stack, blocks) && blocks[|blocks| - 1].open != null
    ensures Spine(stack, blocks[|blocks| - 1 := Ended(blocks[|blocks| - 1], None)])
  {
    var b := blocks[|blocks| - 1];
    Snoc(b.done, StatementShape(b.open, b.words, None));
    ReplaceTop(stack, blocks, Ended(b, None));
  }

  /** The blocks after the innermost one has become the child of a finished statement. */
  function Left(blocks: seq<OpenBlock>): seq<OpenBlock>
    requires |blocks| > 1 && blocks[|blocks| - 2].open != null
  {
    var n := |blocks| - 2;
    blocks[..n + 1][n := Ended(blocks[n], Closed(blocks[n + 1]))]
  }

  function Closed(inner: OpenBlock): Option<Shape> { Some(Shape(inner.config, inner.done)) }

  /** A statement with a finished child block is finished itself, and reaches no more than the two blocks did. */
  lemma EndedHolds(outer: OpenBlock, inner: OpenBlock)
    requires outer.open != null && inner.open == null
    requires HoldsOpen(outer, inner.config) && HoldsOpen(inner, null)
    ensures var b := Ended(outer, Closed(inner));
            && HoldsOpen(b, null)
            && Own(b) == {outer.config}
            && Footprint(b.done) == Footprint(outer.done) + {outer.open} + ({inner.config} + Footprint(inner.done))
  {
    Snoc(outer.done, StatementShape(outer.open, outer.words, Closed(inner)));
    hide Holds, Nodes, Footprint;
    assert Nodes(inner.done) + [] == Nodes(inner.done);
  }

  /** The blocks around an open block, without it. */
  lemma FrontBlocks(stack: seq<NginxConfig>, blocks: seq<OpenBlock>)
    requires Spine(stack, blocks) && |blocks| > 1
    ensures var n := |blocks| - 2;
            var front := blocks[..n + 1];
            && |stack| == |blocks| && Separate(blocks) && Separate(front)
            && (forall i :: 0 <= i <= n ==> stack[..n + 1][i] == front[i].config)
            && (forall i :: 0 <= i < n ==> HoldsOpen(front[i], ChildOf(front, i)))
            && HoldsOpen(blocks[n], blocks[n + 1].config) && HoldsOpen(blocks[n + 1], null)
  {
    hide HoldsOpen, Own, Reach, Footprint;
    var n := |blocks| - 2;
    var front := blocks[..n + 1];
    assert forall i :: 0 <= i <= n ==> front[i] == blocks[i];
    assert forall i :: 0 <= i < n ==> ChildOf(front, i) == ChildOf(blocks, i);
    assert HoldsOpen(blocks[n], ChildOf(blocks, n)) && HoldsOpen(blocks[n + 1], ChildOf(blocks, n + 1));
  }

  /** The block that ends with a closing brace shares nothing with the blocks around it. */
  lemma EndedApart(blocks: seq<OpenBlock>, b: OpenBlock)
    requires Separate(blocks) && |blocks| > 1
    requires var outer, inner := blocks[|blocks| - 2], blocks[|blocks| - 1];
             && outer.open != null
             && Own(b) == {outer.config}
             && Footprint(b.done) == Footprint(outer.done) + {outer.open} + ({inner.config} + Footprint(inner.done))
             && (outer.open as object) != outer.config
    ensures Own(b) !! Footprint(b.done)
    ensures forall i :: 0 <= i < |blocks| - 2 ==> Own(b) !! Reach(blocks[i]) && Own(blocks[i]) !! Reach(b)
  {
    hide Footprint;
    var n := |blocks| - 2;
    var outer, inner := blocks[n], blocks[n + 1];
    assert Own(outer) !! Reach(inner) && outer.config in Own(outer);
    assert Reach(b) <= Reach(outer) + Reach(inner);
    forall i | 0 <= i < n ensures Own(b) !! Reach(blocks[i]) && Own(blocks[i]) !! Reach(b) {
      assert Own(outer) !! Reach(blocks[i]);
      assert Own(blocks[i]) !! Reach(outer) && Own(blocks[i]) !! Reach(inner);
    }
  }

  /** A closing brace changes nothing on the heap either: the innermost block becomes the child of a finished statement. */
  lemma FinishBlock(stack: seq<NginxConfig>, blocks: seq<OpenBlock>)
    requires Spine(stack, blocks) && |blocks| > 1
    requires blocks[|blocks| - 1].open == null && blocks[|blocks| - 2].open != null
    ensures Spine(stack[..|blocks| - 1], Left(blocks))
  {
    hide HoldsOpen, Own, Reach, Footprint, Separate, Spine, ChildOf, Closed;
    var n := |blocks| - 2;
    FrontBlocks(stack, blocks);
    var b := Ended(blocks[n], Closed(blocks[n + 1]));
    EndedHolds(blocks[n], blocks[n + 1]);
    EndedApart(blocks, b);
    ReplaceTop(stack[..n + 1], blocks[..n + 1], b);
  }

  // ---------- the parser ----------

  /** What parsing goes on to leave, from the state `m` and with the text `s` still to come. */
  function Resume(m: Machine, s: string): Option<Config> {
    if Scan(s).None? then None else
      match Run(m, Scan(s).value)
      case None => None
      case Some(m') => if Accepting(m') then Some(m'.top.done) else None
  }

  /** The next lexeme decides how parsing goes on. */
  lemma ResumeNext(m: Machine, s: string)
    ensures var kind := Lex(s).kind;
            Resume(m, s) ==
            if kind == Eof then (if Accepting(m) then Some(m.top.done) else None)
            else if kind == Error then None
            else if kind == Comment then Resume(m, Rest(s))
            else match Step(m, TokenOf(kind, Body(s)))
                 case None => None
                 case Some(m') => Resume(m', Rest(s))
  {
    LexKinds(s);
    hide Lex, Step, Accepting, TokenOf, Rest, Body;
    if Lex(s).kind !in {Eof, Error, Comment} && Scan(Rest(s)).Some? {
      var ts := Scan(s).value;
      assert ts[1..] == Scan(Rest(s)).value;
    }
  }

  /** The lexer changes nothing that the parser has built. */
  lemma StreamOutside(blocks: seq<OpenBlock>, input: InputStream)
    ensures input !in ReachAll(blocks)
    ensures forall o :: o in ReachAll(blocks) ==> allocated(o)
  {
    hide Footprint;
    forall i | 0 <= i < |blocks|
      ensures input !in Reach(blocks[i]) && forall o :: o in Reach(blocks[i]) ==> allocated(o)
    {
      NoStreamInside(blocks[i].done, input);
      FootprintAllocated(blocks[i].done);
    }
  }

  /** The heap and the machine agree, and the machine is in a state that a run can reach. */
  ghost predicate Parsing(stack: seq<NginxConfig>, blocks: seq<OpenBlock>, m: Machine)
    reads ReachAll(blocks)
  {
    Spine(stack, blocks) && Simulates(m, blocks) && Consistent(m)
  }

  lemma ParsingFacts(stack: seq<NginxConfig>, blocks: seq<OpenBlock>, m: Machine)
    requires Parsing(stack, blocks, m)
    ensures |stack| == |blocks| == |m.below| + 1
    ensures blocks[|blocks| - 1].open != null <==> m.last == Normal
    ensures |blocks| > 1 ==> blocks[|blocks| - 2].open != null
    ensures m.last in {Start, Normal, StartBlock, EndBlock, StatementEnd}
    ensures m.top.done == Erase(blocks[|blocks| - 1].done)
  {
    var n := |blocks| - 1;
    assert HoldsOpen(blocks[n], null);
    if n > 0 { assert HoldsOpen(blocks[n - 1], ChildOf(blocks, n - 1)) && EraseOpen(blocks[n - 1]) == m.below[n - 1]; }
  }

  lemma SimulateWord(blocks: seq<OpenBlock>, m: Machine, open: NginxConfigStatement, token: string)
    requires Simulates(m, blocks) && Consistent(m)
    ensures var n := |blocks| - 1;
            && Step(m, TokenOf(Normal, token)).Some?
            && Simulates(Step(m, TokenOf(Normal, token)).value, blocks[n := WithWord(blocks[n], open, m.last, token)])
  {}

  lemma SimulateFinish(blocks: seq<OpenBlock>, m: Machine, token: string)
    requires Simulates(m, blocks) && m.last == Normal && blocks[|blocks| - 1].open != null
    ensures var n := |blocks| - 1;
            Simulates(Step(m, TokenOf(StatementEnd, token)).value, blocks[n := Ended(blocks[n], None)])
  {
    var b := blocks[|blocks| - 1];
    Snoc(b.done, StatementShape(b.open, b.words, None));
  }

  lemma SimulateEnter(blocks: seq<OpenBlock>, m: Machine, config: NginxConfig, token: string)
    requires Simulates(m, blocks) && m.last == Normal
    ensures Simulates(Step(m, TokenOf(StartBlock, token)).value, blocks + [EmptyBlock(config)])
  {}

  lemma SimulateLeave(blocks: seq<OpenBlock>, m: Machine, token: string)
    requires Simulates(m, blocks) && m.last in {StatementEnd, EndBlock} && |blocks| > 1
    requires blocks[|blocks| - 2].open != null
    ensures Simulates(Step(m, TokenOf(EndBlock, token)).value, Left(blocks))
  {
    var n := |blocks| - 2;
    var outer, inner := blocks[n], blocks[n + 1];
    Snoc(outer.done, StatementShape(outer.open, outer.words, Some(Shape(inner.config, inner.done))));
    assert EraseOpen(outer) == m.below[n];
  }

  lemma EndParsing(stack: seq<NginxConfig>, blocks: seq<OpenBlock>, m: Machine)
    requires Parsing(stack, blocks, m) && Accepting(m)
    ensures Built(blocks[0].config, blocks[0].done) && m.top.done == Erase(blocks[0].done)
  {
    ParsingFacts(stack, blocks, m);
    assert HoldsOpen(blocks[0], null);
  }

  /** Which tokens the machine takes, seen from the parser's variables. */
  lemma Takes(m: Machine, kind: TokenType, text: string)
    requires Consistent(m) && kind in {Normal, StatementEnd, StartBlock, EndBlock}
    ensures var r := Step(m, TokenOf(kind, text));
            && (r.Some? <==> match kind
                             case Normal => true
                             case EndBlock => m.last in {StatementEnd, EndBlock} && m.below != []
                             case _ => m.last == Normal)
            && (r.Some? ==> r.value.last == kind && Consistent(r.value))
  {
    var t := TokenOf(kind, text);
    if Step(m, t).Some? { StepConsistent(m, t); }
  }

  /** What parsing may still change is among `mine`. */
  ghost predicate OwnedBy(blocks: seq<OpenBlock>, mine: set<object>) {
    forall i :: 0 <= i < |blocks| ==> Own(blocks[i]) <= mine
  }

  /** What one token changes in the tree and on the stack. */
  method Change(stack: seq<NginxConfig>, last: TokenType, blockCount: int, kind: TokenType, token: string,
                    ghost blocks: seq<OpenBlock>, ghost m: Machine, ghost mine: set<object>)
    returns (ok: bool, stack': seq<NginxConfig>, blockCount': int,
             ghost blocks': seq<OpenBlock>, ghost mine': set<object>)
    requires Parsing(stack, blocks, m) && m.last == last && blockCount == |stack| - 1 && blocks != []
    requires kind in {Normal, StatementEnd, StartBlock, EndBlock} && OwnedBy(blocks, mine)
    modifies mine
    ensures ok <==> Step(m, TokenOf(kind, token)).Some?
    ensures ok ==> Step(m, TokenOf(kind, token)).value.last == kind
    ensures ok ==> Parsing(stack', blocks', Step(m, TokenOf(kind, token)).value)
    ensures ok ==> |blocks'| == |stack'| == blockCount' + 1 > 0 && blocks'[0].config == blocks[0].config
    ensures ok ==> OwnedBy(blocks', mine') && forall o :: o in mine' ==> o in mine || fresh(o)
  {
    hide Spine, Simulates, Consistent, Step, TokenOf, ReachAll;
    ParsingFacts(stack, blocks, m);
    Takes(m, kind, token);
    ghost var n := |blocks| - 1;
    assert Own(blocks[n]) <= mine;
    stack', blockCount', blocks', mine' := stack, blockCount, blocks, mine;
    ok := true;
    match kind {
      case Normal =>
        if last in {Start, StatementEnd, StartBlock, EndBlock, Normal} {
          blocks' := AddWord(stack, last, token, blocks);
          SimulateWord(blocks, m, blocks'[n].open, token);
          mine' := mine + Own(blocks'[n]);
        } else {
          ok := false;
        }
      case StatementEnd =>
        if last != Normal {
          ok := false;
        } else {
          FinishStatement(stack, blocks);
          SimulateFinish(blocks, m, token);
          blocks' := blocks[n := Ended(blocks[n], None)];
        }
      case StartBlock =>
        if last != Normal {
          ok := false;
        } else {
          var newConfig := EnterBlock(stack, blocks);
          SimulateEnter(blocks, m, newConfig, token);
          stack', blocks' := stack + [newConfig], blocks + [EmptyBlock(newConfig)];
          blockCount' := blockCount + 1;
          mine' := mine + {newConfig};
        }
      case EndBlock =>
        if (last != StatementEnd && last != EndBlock) || blockCount == 0 {
          ok := false;
        } else {
          FinishBlock(stack, blocks);
          SimulateLeave(blocks, m, token);
          stack', blocks' := stack[..|stack| - 1], Left(blocks);
          blockCount' := blockCount - 1;
        }
    }
  }

  /**
  What the loop of the parser keeps: the heap and the parser's variables agree with a state of the machine
  from which the text `s` still to come leads to the outcome `expected`.
  */
  ghost predicate InLoop(stack: seq<NginxConfig>, last: TokenType, blockCount: int, config: NginxConfig,
                         blocks: seq<OpenBlock>, m: Machine, s: string, expected: Option<Config>)
    reads ReachAll(blocks)
  {
    && Parsing(stack, blocks, m)
    && |blocks| == |stack| == blockCount + 1 > 0
    && m.last == last
    && blocks[0].config == config
    && Resume(m, s) == expected
  }

  lemma EnterLoop(config: NginxConfig, initial: seq<StatementShape>, s: string)
    requires Built(config, initial)
    ensures InLoop([config], Start, 0, config, [OpenBlock(config, initial, null, [])],
                   Initial(Erase(initial)), s, ParseText(Erase(initial), s))
  {
    hide Scan, Run;
  }

  /** What one call of the lexer means for the loop, unless the token goes to the machine. */
  lemma LoopLexes(stack: seq<NginxConfig>, last: TokenType, blockCount: int, config: NginxConfig,
                  blocks: seq<OpenBlock>, m: Machine, s: string, expected: Option<Config>,
                  kind: TokenType, value: string, used: nat)
    requires InLoop(stack, last, blockCount, config, blocks, m, s, expected)
    requires Reports(s, kind, value, used)
    ensures kind != Start && used <= |s| && (kind !in {Eof, Error} ==> used > 0)
    ensures kind == Error ==> expected == None
    ensures kind == Comment ==> InLoop(stack, last, blockCount, config, blocks, m, s[used..], expected)
    ensures kind == Eof ==> (expected.Some? <==> last in {StatementEnd, EndBlock, Start} && blockCount == 0)
    ensures kind == Eof && expected.Some? ==>
              blocks != [] && Built(config, blocks[0].done) && expected == Some(Erase(blocks[0].done))
  {
    LexKinds(s);
    ResumeNext(m, s);
    ParsingFacts(stack, blocks, m);
    hide Parsing, Resume, LexBody, Built, Erase;
    if Accepting(m) { EndParsing(stack, blocks, m); }
  }

  /** The same for a token that goes to the machine. */
  lemma LoopSteps(m: Machine, s: string, kind: TokenType, value: string, used: nat)
    requires Reports(s, kind, value, used) && kind !in {Eof, Error, Comment}
    ensures used <= |s| && kind in {Normal, StatementEnd, StartBlock, EndBlock}
    ensures Resume(m, s) == match Step(m, TokenOf(kind, value))
                            case None => None
                            case Some(m') => Resume(m', s[used..])
  {
    LexKinds(s);
    ResumeNext(m, s);
    assert TokenOf(kind, value) == TokenOf(kind, Body(s));
    hide Resume, Step, TokenOf, LexBody;
  }

  /** The work of one token that is no comment: `ok` is false for a bad transition. */
  method Transition(stack: seq<NginxConfig>, last: TokenType, blockCount: int, kind: TokenType, token: string,
                    ghost config: NginxConfig, ghost blocks: seq<OpenBlock>, ghost m: Machine,
                    ghost mine: set<object>, ghost s: string, ghost next: string, ghost expected: Option<Config>)
    returns (ok: bool, stack': seq<NginxConfig>, blockCount': int,
             ghost blocks': seq<OpenBlock>, ghost m': Machine, ghost mine': set<object>)
    requires InLoop(stack, last, blockCount, config, blocks, m, s, expected) && OwnedBy(blocks, mine)
    requires Consumes(s, kind, token, next) && kind !in {Eof, Error, Comment}
    modifies mine
    ensures ok ==> InLoop(stack', kind, blockCount', config, blocks', m', next, expected)
    ensures ok ==> OwnedBy(blocks', mine') && forall o :: o in mine' ==> o in mine || fresh(o)
    ensures ok <==> Step(m, TokenOf(kind, token)).Some?
    ensures if ok then m' == Step(m, TokenOf(kind, token)).value else expected == None
  {
    hide Parsing, Resume, Step, TokenOf, Reports, OwnedBy, ReachAll, Initial;
    LoopSteps(m, s, kind, token, |s| - |next|);
    ok, stack', blockCount', blocks', mine' := Change(stack, last, blockCount, kind, token, blocks, m, mine);
    m' := if ok then Step(m, TokenOf(kind, token)).value else m;
  }

  /** One call of the lexer on `s` that leaves `next`. */
  ghost predicate Consumes(s: string, kind: TokenType, value: string, next: string) {
    |next| <= |s| && Reports(s, kind, value, |s| - |next|) && s[|s| - |next|..] == next
  }

  /** The next token of the stream, and what it means for the loop. */
  method NextToken(input: InputStream, ghost stack: seq<NginxConfig>, last: TokenType, blockCount: int,
                   ghost config: NginxConfig, ghost blocks: seq<OpenBlock>, ghost m: Machine,
                   ghost expected: Option<Config>)
    returns (kind: TokenType, token: string)
    requires input.Valid() && InLoop(stack, last, blockCount, config, blocks, m, input.Remaining(), expected)
    modifies input
    ensures input.Valid() && |input.Remaining()| <= |old(input.Remaining())|
    ensures kind !in {Eof, Error} ==> |input.Remaining()| < |old(input.Remaining())|
    ensures kind == Error ==> expected == None
    ensures kind == Comment ==> InLoop(stack, last, blockCount, config, blocks, m, input.Remaining(), expected)
    ensures kind == Eof ==> (expected.Some? <==> last in {StatementEnd, EndBlock, Start} && blockCount == 0)
    ensures kind == Eof && expected.Some? ==>
              blocks != [] && Built(config, blocks[0].done) && expected == Some(Erase(blocks[0].done))
    ensures kind !in {Eof, Error, Comment} ==>
              && InLoop(stack, last, blockCount, config, blocks, m, old(input.Remaining()), expected)
              && Consumes(old(input.Remaining()), kind, token, input.Remaining())
  {
    hide InLoop, Reports, Erase, ReachAll, Built;
    ghost var s := input.Remaining();
    StreamOutside(blocks, input);
    kind, token := ParseToken(input);
    ghost var used := |s| - |input.Remaining()|;
    assert s[used..] == input.Remaining();
    LoopLexes(stack, last, blockCount, config, blocks, m, s, expected, kind, token, used);
  }

  /**
  Parses a stream into a config that may already hold statements; `ok` is false where the parser throws.
  */
  method Parse(input: InputStream, config: NginxConfig, ghost initial: seq<StatementShape>)
    returns (ok: bool, ghost built: seq<StatementShape>)
    requires input.Valid() && Built(config, initial)
    modifies input, config
    ensures ok <==> ParseText(Erase(initial), old(input.Remaining())).Some?
    ensures ok ==> Built(config, built) && ParseText(Erase(initial), old(input.Remaining())) == Some(Erase(built))
  {
    var configStack := [config];
    var lastTokenType := Start;
    var blockCount := 0;
    ghost var blocks := [OpenBlock(config, initial, null, [])];
    ghost var m, mine := Initial(Erase(initial)), {config as object};
    ghost var expected := ParseText(Erase(initial), input.Remaining());
    assert OwnedBy(blocks, mine);
    EnterLoop(config, initial, input.Remaining());
    hide InLoop, ParseText, Consumes, Erase, ReachAll, Built, Initial, OwnedBy;
    while true
      invariant input.Valid() && OwnedBy(blocks, mine)
      invariant input !in mine && forall o :: o in mine ==> o == config || fresh(o)
      invariant InLoop(configStack, lastTokenType, blockCount, config, blocks, m, input.Remaining(), expected)
      decreases |input.Remaining()|
    {
      ghost var rest := input.Remaining();
      var kind, token := NextToken(input, configStack, lastTokenType, blockCount, config, blocks, m, expected);
      if kind == Error {
        return false, initial;
      }
      if kind == Comment {
        continue;
      }
      if kind == Eof {
        if (lastTokenType != StatementEnd && lastTokenType != EndBlock && lastTokenType != Start)
           || blockCount != 0 {
          return false, initial;
        }
        return true, blocks[0].done;
      }
      ghost var next := input.Remaining();
      var good;
      good, configStack, blockCount, blocks, m, mine :=
        Transition(configStack, lastTokenType, blockCount, kind, token,
                   config, blocks, m, mine, rest, next, expected);
      assert input.Remaining() == next;
      if !good {
        return false, initial;
      }
      lastTokenType := kind;
    }
  }
}
