/**
The configuration tree as objects. What the heap holds is described by shapes, which are trees with the
objects they stand for; printing and the two queries are proved against their functions on values.
 */
module ConfigNodes {
  import opened Wrappers
  import opened Text
  import opened ConfigTree
  import ConfigQueries

  method AppendIndent(text: string, depth: int) returns (r: string)
    ensures r == text + Indent(depth)
  {
    r := text;
    var i := 0;
    while i < depth
      invariant 0 <= i && (i <= depth || depth < 0 == i) && r == text + Indent(i)
    {
      r := r + "  ";
      i := i + 1;
    }
    assert Indent(i) == Indent(depth);
  }

  method AppendTokens(text: string, tokens: seq<string>) returns (r: string)
    ensures r == text + Join(tokens, " ")
  {
    r := text;
    for i := 0 to |tokens|
      invariant r == text + Join(tokens[..i], " ")
    {
      JoinSnoc(tokens[..i], tokens[i]);
      assert tokens[..i] + [tokens[i]] == tokens[..i + 1];
      if i != 0 {
        r := r + " ";
      }
      r := r + tokens[i];
    }
    assert tokens[..|tokens|] == tokens;
  }

  class NginxConfigStatement {
    var tokens: seq<string>
    var childBlock: NginxConfig?

    constructor ()
      ensures tokens == [] && childBlock == null
    {
      tokens := [];
      childBlock := null;
    }

    method ToString(depth: int, ghost s: StatementShape) returns (text: string)
      requires s.node == this && HoldsStatement(s)
      ensures text == PrintStatement(EraseStatement(s), depth)
      decreases s, 0
    {
      if s.child.Some? { FootprintAllocated(s.child.value.statements); }
      hide Indent, Join, Print, Footprint, Holds, Nodes, Erase;
      text := AppendIndent("", depth);
      text := AppendTokens(text, tokens);
      assert HoldsStatement(s);
      assert text == Indent(depth) + Join(tokens, " ");
      if childBlock != null {
        text := text + " {\n";
        var body := childBlock.ToString(depth + 1, s.child.value.statements);
        text := text + body;
        text := AppendIndent(text, depth);
        text := text + "}";
        BlockTail(Indent(depth) + Join(tokens, " "), " {\n", body, Indent(depth), "}");
      } else {
        text := text + ";";
      }
      text := text + "\n";
    }

    /** `None` where the program would read a second token that is not there. */
    method Find(path: seq<string>, value: string, ghost s: StatementShape) returns (r: Option<string>)
      requires path != [] && s.node == this && HoldsStatement(s)
      ensures r == ConfigQueries.FindInStatement(EraseStatement(s), path, value)
      decreases s, 0
    {
      r := Some(value);
      if tokens != [] && tokens[0] == path[0] {
        if |path| == 1 {
          r := if |tokens| >= 2 then Some(tokens[1]) else None;
        } else if childBlock != null {
          r := childBlock.Find(path[1..], value, s.child.value.statements);
        }
      }
    }

    method FindBlocks(path: seq<string>, blocks: seq<NginxConfig>, ghost s: StatementShape) returns (r: seq<NginxConfig>)
      requires path != [] && s.node == this && HoldsStatement(s)
      ensures r == blocks + Configs(FoundInStatement(s, path))
      decreases s, |path|
    {
      r := blocks;
      if tokens != [] {
        if tokens[0] == path[0] {
          if |path| == 1 {
            if childBlock != null {
              r := r + [childBlock];
            }
          } else {
            r := FindBlocks(path[1..], r, s);
          }
        } else if childBlock != null {
          r := childBlock.FindBlocks(path, r, s.child.value.statements);
        }
      }
    }
  }

  class NginxConfig {
    var statements: seq<NginxConfigStatement>

    constructor ()
      ensures statements == []
    {
      statements := [];
    }

    method ToString(depth: int, ghost ss: seq<StatementShape>) returns (text: string)
      requires statements == Nodes(ss) && Holds(ss)
      ensures text == Print(Erase(ss), depth)
      decreases ss, 1
    {
      text := "";
      ghost var c := Erase(ss);
      FootprintAllocated(ss);
      ShapeLengths(ss);
      hide Erase, Nodes, Holds, Footprint, Print, PrintStatement, EraseStatement, HoldsStatement;
      assert c[0..] == c;
      for i := 0 to |statements|
        invariant Holds(ss)
        invariant text + Print(c[i..], depth) == Print(c, depth)
      {
        ShapeAt(ss, i);
        var t := statements[i].ToString(depth, ss[i]);
        PrintNext(c, i, depth);
        AppendLast(text, t, Print(c[i + 1..], depth));
        text := text + t;
      }
      PrintNothing(c[|c|..], depth);
      assert text + "" == text;
    }

    method Find(path: seq<string>, value: string, ghost ss: seq<StatementShape>) returns (r: Option<string>)
      requires path != [] && statements == Nodes(ss) && Holds(ss)
      ensures r == ConfigQueries.Find(Erase(ss), path, value)
      decreases ss, 1
    {
      r := Some(value);
      ghost var c := Erase(ss);
      FootprintAllocated(ss);
      ShapeLengths(ss);
      hide Erase, Nodes, Holds, Footprint, EraseStatement, HoldsStatement, ConfigQueries.FindInStatement;
      assert c[0..] == c;
      for i := 0 to |statements|
        invariant Holds(ss)
        invariant r.Some? && ConfigQueries.Find(c[i..], path, r.value) == ConfigQueries.Find(c, path, value)
      {
        ShapeAt(ss, i);
        r := statements[i].Find(path, r.value, ss[i]);
        assert c[i..][1..] == c[i + 1..];
        if r.None? { return; }
      }
    }

    method FindBlocks(path: seq<string>, blocks: seq<NginxConfig>, ghost ss: seq<StatementShape>) returns (r: seq<NginxConfig>)
      requires path != [] && statements == Nodes(ss) && Holds(ss)
      ensures r == blocks + Configs(Found(ss, path))
      decreases ss, |path| + 1
    {
      r := blocks;
      FootprintAllocated(ss);
      ShapeLengths(ss);
      FoundNothing(ss, path);
      hide Erase, Nodes, Holds, Footprint, EraseStatement, HoldsStatement, Found, FoundInStatement, Configs;
      for i := 0 to |statements|
        invariant Holds(ss)
        invariant r == blocks + Configs(Found(ss[..i], path))
      {
        ShapeAt(ss, i);
        FoundNext(ss, i, path);
        r := statements[i].FindBlocks(path, r, ss[i]);
      }
      assert ss[..|ss|] == ss;
    }
  }

  // ---------- shapes ----------

  datatype Shape = Shape(config: NginxConfig, statements: seq<StatementShape>)

  datatype StatementShape = StatementShape(node: NginxConfigStatement, tokens: seq<string>, child: Option<Shape>)

  /** The tree that a shape has without its objects. */
  function EraseStatement(s: StatementShape): Statement
    decreases s
  {
    match s.child
    case None => Line(s.tokens)
    case Some(c) => Block(s.tokens, Erase(c.statements))
  }

  function Erase(ss: seq<StatementShape>): Config
    decreases ss
  {
    if ss == [] then [] else Erase(ss[..|ss| - 1]) + [EraseStatement(ss[|ss| - 1])]
  }

  function Nodes(ss: seq<StatementShape>): seq<NginxConfigStatement> {
    if ss == [] then [] else Nodes(ss[..|ss| - 1]) + [ss[|ss| - 1].node]
  }

  ghost function StatementFootprint(s: StatementShape): set<object>
    decreases s
  {
    {s.node} + match s.child
               case None => {}
               case Some(c) => {c.config} + Footprint(c.statements)
  }

  ghost function Footprint(ss: seq<StatementShape>): set<object>
    decreases ss
  {
    if ss == [] then {} else Footprint(ss[..|ss| - 1]) + StatementFootprint(ss[|ss| - 1])
  }

  /** The heap holds the statement as the shape has it. */
  ghost predicate HoldsStatement(s: StatementShape)
    reads StatementFootprint(s)
    decreases s
  {
    && s.node.tokens == s.tokens
    && match s.child
       case None => s.node.childBlock == null
       case Some(c) =>
         && s.node.childBlock == c.config
         && c.config.statements == Nodes(c.statements)
         && Holds(c.statements)
  }

  ghost predicate Holds(ss: seq<StatementShape>)
    reads Footprint(ss)
    decreases ss
  {
    ss == [] || (Holds(ss[..|ss| - 1]) && HoldsStatement(ss[|ss| - 1]))
  }

  /** The config holds the statements `ss`, and is not itself inside them. */
  ghost predicate Built(config: NginxConfig, ss: seq<StatementShape>)
    reads config, Footprint(ss)
  {
    config.statements == Nodes(ss) && Holds(ss) && config !in Footprint(ss)
  }

  lemma Snoc(ss: seq<StatementShape>, s: StatementShape)
    ensures (ss + [s])[..|ss|] == ss
    ensures Erase(ss + [s]) == Erase(ss) + [EraseStatement(s)]
    ensures Nodes(ss + [s]) == Nodes(ss) + [s.node]
    ensures Footprint(ss + [s]) == Footprint(ss) + StatementFootprint(s)
    ensures Holds(ss + [s]) <==> Holds(ss) && HoldsStatement(s)
  {
    assert (ss + [s])[..|ss|] == ss;
  }

  lemma {:induction false} FootprintAllocated(ss: seq<StatementShape>)
    ensures forall o :: o in Footprint(ss) ==> allocated(o)
    decreases ss, 1
  {
    if ss != [] {
      var front, s := ss[..|ss| - 1], ss[|ss| - 1];
      FootprintAllocated(front);
      StatementFootprintAllocated(s);
      assert Footprint(ss) == Footprint(front) + StatementFootprint(s);
      hide Footprint, StatementFootprint;
    }
  }

  lemma {:induction false} StatementFootprintAllocated(s: StatementShape)
    ensures forall o :: o in StatementFootprint(s) ==> allocated(o)
    decreases s, 0
  {
    match s.child
    case None =>
      assert StatementFootprint(s) == {s.node};
    case Some(c) =>
      FootprintAllocated(c.statements);
      assert StatementFootprint(s) == {s.node} + ({c.config} + Footprint(c.statements));
      hide Footprint, StatementFootprint;
      assert allocated(s.node) && allocated(c.config);
  }

  /** A shape, its tree and its object at one position. */
  lemma ShapeAt(ss: seq<StatementShape>, i: nat)
    requires Holds(ss) && i < |ss|
    ensures |Erase(ss)| == |Nodes(ss)| == |ss|
    ensures Erase(ss)[i] == EraseStatement(ss[i]) && Nodes(ss)[i] == ss[i].node && HoldsStatement(ss[i])
  {
    PointwiseShape(ss);
    hide Erase, Nodes, Holds, HoldsStatement, EraseStatement;
  }

  lemma ShapeLengths(ss: seq<StatementShape>)
    requires Holds(ss)
    ensures |Erase(ss)| == |Nodes(ss)| == |ss|
  {
    PointwiseShape(ss);
  }

  /** A shape, its tree and its objects agree position by position. */
  lemma {:induction false} PointwiseShape(ss: seq<StatementShape>)
    requires Holds(ss)
    ensures |Erase(ss)| == |Nodes(ss)| == |ss|
    ensures forall i :: 0 <= i < |ss| ==> Erase(ss)[i] == EraseStatement(ss[i]) && Nodes(ss)[i] == ss[i].node
    ensures forall i :: 0 <= i < |ss| ==> HoldsStatement(ss[i])
    decreases |ss|
  {
    hide EraseStatement, HoldsStatement, Footprint;
    if ss != [] { PointwiseShape(ss[..|ss| - 1]); }
  }

  ghost function ShapeFootprint(sh: Shape): set<object> {
    {sh.config} + Footprint(sh.statements)
  }

  ghost predicate HeldAs(config: NginxConfig, sh: Shape)
    reads ShapeFootprint(sh)
  {
    sh.config == config && sh.config.statements == Nodes(sh.statements) && Holds(sh.statements)
  }

  ghost function ShapesFootprint(known: seq<Shape>): set<object> {
    set i, o | 0 <= i < |known| && o in ShapeFootprint(known[i]) :: o
  }

  /** The heap holds the configs `blocks` as the shapes `known` have them. */
  ghost predicate AllHeld(blocks: seq<NginxConfig>, known: seq<Shape>)
    reads ShapesFootprint(known)
  {
    |blocks| == |known| && forall i :: 0 <= i < |known| ==> HeldAs(blocks[i], known[i])
  }

  function EraseAll(known: seq<Shape>): seq<Config> {
    if known == [] then [] else EraseAll(known[..|known| - 1]) + [Erase(known[|known| - 1].statements)]
  }

  // ---------- the blocks that a query finds ----------

  /** The blocks below the statement that the query answers with, objects and all. */
  function FoundInStatement(s: StatementShape, path: seq<string>): seq<Shape>
    requires path != []
    decreases s, |path|
  {
    if s.tokens == [] then []
    else if s.tokens[0] == path[0] then
      if |path| > 1 then FoundInStatement(s, path[1..])
      else if s.child.Some? then [s.child.value] else []
    else if s.child.Some? then Found(s.child.value.statements, path)
    else []
  }

  function Found(ss: seq<StatementShape>, path: seq<string>): seq<Shape>
    requires path != []
    decreases ss, |path|
  {
    if ss == [] then [] else Found(ss[..|ss| - 1], path) + FoundInStatement(ss[|ss| - 1], path)
  }

  function Configs(known: seq<Shape>): seq<NginxConfig> {
    seq(|known|, i requires 0 <= i < |known| => known[i].config)
  }

  lemma FoundNothing(ss: seq<StatementShape>, path: seq<string>)
    requires path != []
    ensures Configs(Found(ss[..0], path)) == []
  {}

  lemma FoundNext(ss: seq<StatementShape>, i: nat, path: seq<string>)
    requires i < |ss| && path != []
    ensures Found(ss[..i + 1], path) == Found(ss[..i], path) + FoundInStatement(ss[i], path)
    ensures Configs(Found(ss[..i + 1], path)) == Configs(Found(ss[..i], path)) + Configs(FoundInStatement(ss[i], path))
  {
    assert ss[..i + 1][..i] == ss[..i];
  }

  lemma {:induction false} EraseAllAppend(known: seq<Shape>, more: seq<Shape>)
    ensures EraseAll(known + more) == EraseAll(known) + EraseAll(more)
    decreases |more|
  {
    if more == [] {
      assert known + more == known;
    } else {
      var n := |more| - 1;
      assert (known + more)[..|known| + n] == known + more[..n];
      EraseAllAppend(known, more[..n]);
    }
  }

  /** As trees, the blocks found are the answer of the query on trees. */
  lemma {:induction false} FoundErases(ss: seq<StatementShape>, path: seq<string>, known: seq<Shape>)
    requires path != []
    ensures ConfigQueries.FindBlocks(Erase(ss), path, EraseAll(known)) == EraseAll(known + Found(ss, path))
    decreases ss, |path|
  {
    if ss == [] {
      assert known + [] == known;
    } else {
      LastShape(ss, path);
      hide Erase, EraseAll, EraseStatement, Found, FoundInStatement, ConfigQueries.FindBlocks;
      var front, s := ss[..|ss| - 1], ss[|ss| - 1];
      var before := known + Found(front, path);
      FoundErases(front, path, known);
      FoundInStatementErases(s, path, before);
      ConfigQueries.FindBlocksAppend(Erase(front), [EraseStatement(s)], path, EraseAll(known));
      ConfigQueries.FindBlocksOne(EraseStatement(s), path, EraseAll(before));
      assert before + FoundInStatement(s, path) == known + (Found(front, path) + FoundInStatement(s, path));
    }
  }

  lemma LastShape(ss: seq<StatementShape>, path: seq<string>)
    requires ss != [] && path != []
    ensures var front, s := ss[..|ss| - 1], ss[|ss| - 1];
            && Erase(ss) == Erase(front) + [EraseStatement(s)]
            && Found(ss, path) == Found(front, path) + FoundInStatement(s, path)
  {}

  lemma {:induction false} FoundInStatementErases(s: StatementShape, path: seq<string>, known: seq<Shape>)
    requires path != []
    ensures ConfigQueries.FindBlocksInStatement(EraseStatement(s), path, EraseAll(known))
         == EraseAll(known + FoundInStatement(s, path))
    decreases s, |path|
  {
    assert known + [] == known;
    if s.tokens != [] {
      if s.tokens[0] == path[0] {
        if |path| > 1 {
          FoundInStatementErases(s, path[1..], known);
        } else if s.child.Some? {
          EraseAllAppend(known, [s.child.value]);
          assert [s.child.value][..0] == [];
        }
      } else if s.child.Some? {
        FoundErases(s.child.value.statements, path, known);
      }
    }
  }

  /** The heap holds the blocks found as the shapes have them. */
  lemma {:induction false} FoundHeld(ss: seq<StatementShape>, path: seq<string>)
    requires path != [] && Holds(ss)
    ensures AllHeld(Configs(Found(ss, path)), Found(ss, path))
    decreases ss, |path|
  {
    if ss != [] {
      FoundHeld(ss[..|ss| - 1], path);
      FoundInStatementHeld(ss[|ss| - 1], path);
    }
  }

  lemma {:induction false} FoundInStatementHeld(s: StatementShape, path: seq<string>)
    requires path != [] && HoldsStatement(s)
    ensures AllHeld(Configs(FoundInStatement(s, path)), FoundInStatement(s, path))
    decreases s, |path|
  {
    if s.tokens != [] {
      if s.tokens[0] == path[0] {
        if |path| > 1 { FoundInStatementHeld(s, path[1..]); }
      } else if s.child.Some? {
        FoundHeld(s.child.value.statements, path);
      }
    }
  }

  lemma PrintNext(c: Config, i: nat, depth: int)
    requires i < |c|
    ensures Print(c[i..], depth) == PrintStatement(c[i], depth) + Print(c[i + 1..], depth)
  {
    assert c[i..][1..] == c[i + 1..];
    hide PrintStatement;
  }

  lemma PrintNothing(c: Config, depth: int)
    requires c == []
    ensures Print(c, depth) == ""
  {}

  lemma AppendLast(a: string, b: string, c: string)
    ensures a + (b + c) == a + b + c
  {}

  lemma BlockTail(a: string, b: string, c: string, d: string, e: string)
    ensures a + b + c + d + e == a + (b + c + d + e)
  {}

  lemma JoinSnoc(words: seq<string>, w: string)
    ensures Join(words + [w], " ") == (if words == [] then w else Join(words, " ") + " " + w)
  {
    assert (words + [w])[..|words|] == words;
  }
}
