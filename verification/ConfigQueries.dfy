/**
The two queries of the configuration tree, and what they answer: both are described over the list of all
statements in document order, each with the chain of first words that leads to it.
 */
module ConfigQueries {
  import opened Wrappers
  import opened Text
  import opened ConfigTree

  // ---------- the queries ----------

  /** `NginxConfigStatement::Find`; `None` where it would read the second token of a one-token statement. */
  function FindInStatement(s: Statement, path: seq<string>, value: string): Option<string>
    requires path != []
    decreases s
  {
    if s.tokens != [] && s.tokens[0] == path[0] then
      if |path| == 1 then
        if |s.tokens| >= 2 then Some(s.tokens[1]) else None
      else if s.Block? then Find(s.body, path[1..], value)
      else Some(value)
    else Some(value)
  }

  /** `NginxConfig::Find`: every statement may overwrite what the ones before it answered. */
  function Find(c: Config, path: seq<string>, value: string): Option<string>
    requires path != []
    decreases c
  {
    if c == [] then Some(value) else
      match FindInStatement(c[0], path, value)
      case None => None
      case Some(v) => Find(c[1..], path, v)
  }

  /** `NginxConfigStatement::FindBlocks`; a longer path goes on at the same statement. */
  function FindBlocksInStatement(s: Statement, path: seq<string>, blocks: seq<Config>): seq<Config>
    requires path != []
    decreases s, |path|
  {
    if s.tokens == [] then blocks
    else if s.tokens[0] == path[0] then
      if |path| == 1 then
        if s.Block? then blocks + [s.body] else blocks
      else FindBlocksInStatement(s, path[1..], blocks)
    else if s.Block? then FindBlocks(s.body, path, blocks)
    else blocks
  }

  function FindBlocks(c: Config, path: seq<string>, blocks: seq<Config>): seq<Config>
    requires path != []
    decreases c, |path|
  {
    if c == [] then blocks else FindBlocks(c[1..], path, FindBlocksInStatement(c[0], path, blocks))
  }

  /** The overloads that take a dotted key. */
  function FindKey(c: Config, key: string): Option<string> {
    Find(c, Split(key, {'.'}), "")
  }

  function FindBlocksKey(c: Config, key: string): seq<Config> {
    FindBlocks(c, Split(key, {'.'}), [])
  }

  // ---------- the statements in document order ----------

  /** A statement, and the first words from the outermost statement around it down to its own. */
  datatype Entry = Entry(chain: seq<string>, statement: Statement)

  function StatementEntries(s: Statement, chain: seq<string>): seq<Entry>
    decreases s
  {
    if s.tokens == [] then [] else
      var here := chain + [s.tokens[0]];
      [Entry(here, s)] + if s.Block? then Entries(s.body, here) else []
  }

  function Entries(c: Config, chain: seq<string>): seq<Entry>
    decreases c
  {
    if c == [] then [] else StatementEntries(c[0], chain) + Entries(c[1..], chain)
  }

  ghost predicate Extends(es: seq<Entry>, chain: seq<string>) {
    forall i :: 0 <= i < |es| ==> chain < es[i].chain
  }

  lemma {:induction false} StatementEntriesExtend(s: Statement, chain: seq<string>)
    ensures Extends(StatementEntries(s, chain), chain)
    decreases s
  {
    if s.tokens != [] && s.Block? { EntriesExtend(s.body, chain + [s.tokens[0]]); }
  }

  lemma {:induction false} EntriesExtend(c: Config, chain: seq<string>)
    ensures Extends(Entries(c, chain), chain)
    decreases c
  {
    if c != [] {
      StatementEntriesExtend(c[0], chain);
      EntriesExtend(c[1..], chain);
    }
  }

  // ---------- Find is the last exact match ----------

  ghost predicate MatchesPath(e: Entry, path: seq<string>) { e.chain == path }

  /**
  The answer `r` to a query for `path` among `es`: the second token of the last entry with exactly that
  path, else the default; there is no answer exactly when some entry with that path has no second token.
  */
  ghost predicate IsLastMatch(es: seq<Entry>, path: seq<string>, value: string, r: Option<string>) {
    && (r.None? <==> exists i :: 0 <= i < |es| && MatchesPath(es[i], path) && |es[i].statement.tokens| < 2)
    && (r.Some? && (forall i :: 0 <= i < |es| ==> !MatchesPath(es[i], path)) ==> r.value == value)
    && (r.Some? ==> forall i :: 0 <= i < |es| && MatchesPath(es[i], path)
                      && (forall j :: i < j < |es| ==> !MatchesPath(es[j], path))
                      ==> r.value == es[i].statement.tokens[1])
  }

  /** The same answer by going through the entries. */
  function Last(es: seq<Entry>, path: seq<string>, value: string): Option<string> {
    if es == [] then Some(value)
    else if es[0].chain != path then Last(es[1..], path, value)
    else if |es[0].statement.tokens| < 2 then None
    else Last(es[1..], path, es[0].statement.tokens[1])
  }

  lemma {:induction false} LastIsLastMatch(es: seq<Entry>, path: seq<string>, value: string)
    ensures IsLastMatch(es, path, value, Last(es, path, value))
    decreases |es|
  {
    if es != [] {
      var rest := es[1..];
      assert forall i :: 0 <= i < |rest| ==> rest[i] == es[i + 1];
      assert forall i :: 1 <= i < |es| ==> es[i] == rest[i - 1];
      var v := if MatchesPath(es[0], path) && |es[0].statement.tokens| >= 2 then es[0].statement.tokens[1] else value;
      LastIsLastMatch(rest, path, v);
    }
  }

  lemma {:induction false} LastAppend(a: seq<Entry>, b: seq<Entry>, path: seq<string>, value: string)
    ensures Last(a + b, path, value) ==
            if Last(a, path, value).None? then None else Last(b, path, Last(a, path, value).value)
    decreases |a|
  {
    if a == [] {
      assert a + b == b;
    } else {
      assert (a + b)[0] == a[0] && (a + b)[1..] == a[1..] + b;
      LastAppend(a[1..], b, path, if a[0].chain == path && |a[0].statement.tokens| >= 2
                                  then a[0].statement.tokens[1] else value);
    }
  }

  lemma {:induction false} LastNone(es: seq<Entry>, path: seq<string>, value: string)
    requires forall i :: 0 <= i < |es| ==> es[i].chain != path
    ensures Last(es, path, value) == Some(value)
    decreases |es|
  {
    if es != [] { LastNone(es[1..], path, value); }
  }

  lemma {:induction false} FindInStatementIsLast(s: Statement, path: seq<string>, value: string, chain: seq<string>)
    requires path != []
    ensures FindInStatement(s, path, value) == Last(StatementEntries(s, chain), chain + path, value)
    decreases s
  {
    if s.tokens != [] {
      var h := s.tokens[0];
      var here := chain + [h];
      var inner := if s.Block? then Entries(s.body, here) else [];
      if s.Block? { EntriesExtend(s.body, here); }
      var es := StatementEntries(s, chain);
      assert es[1..] == inner;
      if h == path[0] && |path| > 1 {
        assert here + path[1..] == chain + path;
        assert |here| < |chain + path|;
        if s.Block? { FindIsLast(s.body, path[1..], value, here); }
      } else {
        assert here[|chain|] == h && (chain + path)[|chain|] == path[0];
        assert |path| == 1 ==> path == [path[0]];
        forall i | 0 <= i < |inner| ensures inner[i].chain != chain + path {
          assert inner[i].chain[|chain|] == here[|chain|] == h;
          assert (chain + path)[|chain|] == path[0];
        }
        LastNone(inner, chain + path, value);
        if here == chain + path && |s.tokens| >= 2 { LastNone(inner, chain + path, s.tokens[1]); }
      }
    }
  }

  lemma {:induction false} FindIsLast(c: Config, path: seq<string>, value: string, chain: seq<string>)
    requires path != []
    ensures Find(c, path, value) == Last(Entries(c, chain), chain + path, value)
    decreases c
  {
    if c != [] {
      FindInStatementIsLast(c[0], path, value, chain);
      LastAppend(StatementEntries(c[0], chain), Entries(c[1..], chain), chain + path, value);
      var r := FindInStatement(c[0], path, value);
      if r.Some? { FindIsLast(c[1..], path, r.value, chain); }
    }
  }

  /** `Find` answers with the last statement in document order that lies at exactly the given path. */
  lemma FindIsLastMatch(c: Config, path: seq<string>, value: string)
    requires path != []
    ensures IsLastMatch(Entries(c, []), path, value, Find(c, path, value))
  {
    FindIsLast(c, path, value, []);
    assert [] + path == path;
    LastIsLastMatch(Entries(c, []), path, value);
  }

  /** Looking through two statement lists is looking through the first and then, from its answer, the second. */
  lemma {:induction false} FindAppend(c: Config, d: Config, path: seq<string>, value: string)
    requires path != []
    ensures Find(c + d, path, value) ==
            if Find(c, path, value).None? then None else Find(d, path, Find(c, path, value).value)
    decreases |c|
  {
    if c == [] {
      assert c + d == d;
    } else {
      assert (c + d)[1..] == c[1..] + d;
      var r := FindInStatement(c[0], path, value);
      if r.Some? { FindAppend(c[1..], d, path, r.value); }
    }
  }

  /** Not the first match, as the header of the class has it, but the last. */
  lemma FindIsNotFirst(key: string, v: string, w: string)
    ensures Find([Line([key, v]), Line([key, w])], [key], "") == Some(w)
  {
    var c := [Line([key, v]), Line([key, w])];
    assert FindInStatement(c[0], [key], "") == Some(v);
    assert c[1..] == [c[1]] && c[1..][1..] == [];
    assert Find(c[1..], [key], v) == Find([], [key], w);
  }

  ghost predicate IsFirstAt(es: seq<Entry>, path: seq<string>, i: nat) {
    i < |es| && MatchesPath(es[i], path) && forall k :: 0 <= k < i ==> !MatchesPath(es[k], path)
  }

  ghost predicate IsLastAt(es: seq<Entry>, path: seq<string>, j: nat) {
    j < |es| && MatchesPath(es[j], path) && forall k :: j < k < |es| ==> !MatchesPath(es[k], path)
  }

  /**
  When the header of the class is right: among statements at the path that all have a second token, `Find`
  answers with that of the first one exactly when the first and the last one have the same.
  */
  lemma FindIsFirstIff(c: Config, path: seq<string>, value: string, i: nat, j: nat)
    requires path != []
    requires IsFirstAt(Entries(c, []), path, i) && IsLastAt(Entries(c, []), path, j)
    requires var es := Entries(c, []);
             forall k :: 0 <= k < |es| && MatchesPath(es[k], path) ==> |es[k].statement.tokens| >= 2
    ensures var es := Entries(c, []);
            Find(c, path, value) == Some(es[i].statement.tokens[1])
            <==> es[i].statement.tokens[1] == es[j].statement.tokens[1]
  {
    FindIsLastMatch(c, path, value);
    hide Find, Entries, MatchesPath;
  }

  // ---------- FindBlocks is first containment of a subsequence ----------

  /** Looking through two statement lists is looking through the first and then the second. */
  lemma {:induction false} FindBlocksAppend(c: Config, d: Config, path: seq<string>, blocks: seq<Config>)
    requires path != []
    ensures FindBlocks(c + d, path, blocks) == FindBlocks(d, path, FindBlocks(c, path, blocks))
    decreases |c|
  {
    if c == [] {
      assert c + d == d;
    } else {
      assert (c + d)[1..] == c[1..] + d;
      FindBlocksAppend(c[1..], d, path, FindBlocksInStatement(c[0], path, blocks));
    }
  }

  lemma FindBlocksOne(s: Statement, path: seq<string>, blocks: seq<Config>)
    requires path != []
    ensures FindBlocks([s], path, blocks) == FindBlocksInStatement(s, path, blocks)
  {
    assert [s][1..] == [];
  }

  /** The positions `f` pick the elements of `p` out of `chain`, in order. */
  ghost predicate Embeds(f: seq<nat>, p: seq<string>, chain: seq<string>) {
    && |f| == |p|
    && (forall i :: 0 <= i < |f| ==> f[i] < |chain| && chain[f[i]] == p[i])
    && (forall i, j :: 0 <= i < j < |f| ==> f[i] < f[j])
  }

  ghost predicate IsSubsequence(p: seq<string>, chain: seq<string>) {
    exists f: seq<nat> :: Embeds(f, p, chain)
  }

  /** The chain contains `p`, and only with its last word. */
  ghost predicate FirstContains(p: seq<string>, chain: seq<string>) {
    chain != [] && IsSubsequence(p, chain) && !IsSubsequence(p, chain[..|chain| - 1])
  }

  /** Adjacent equal segments of a path count once. */
  function Collapse(path: seq<string>): seq<string> {
    if |path| <= 1 then path
    else if path[0] == path[1] then Collapse(path[1..])
    else [path[0]] + Collapse(path[1..])
  }

  /** The child blocks of the entries whose chain first contains `p`, in document order. */
  ghost function Selected(es: seq<Entry>, p: seq<string>): seq<Config> {
    if es == [] then [] else
      var e := es[0];
      (if FirstContains(p, e.chain) && e.statement.Block? then [e.statement.body] else []) + Selected(es[1..], p)
  }

  lemma {:induction false} SelectedAppend(a: seq<Entry>, b: seq<Entry>, p: seq<string>)
    ensures Selected(a + b, p) == Selected(a, p) + Selected(b, p)
    decreases |a|
  {
    hide FirstContains;
    if a == [] {
      assert a + b == b;
    } else {
      assert (a + b)[0] == a[0] && (a + b)[1..] == a[1..] + b;
      SelectedAppend(a[1..], b, p);
    }
  }

  /** How many segments of `p` a chain matches when each is matched as early as possible. */
  function Greedy(p: seq<string>, chain: seq<string>): (g: nat)
    ensures g <= |p|
  {
    if chain == [] then 0 else
      var g := Greedy(p, chain[..|chain| - 1]);
      if g < |p| && p[g] == chain[|chain| - 1] then g + 1 else g
  }

  lemma GreedySnoc(p: seq<string>, chain: seq<string>, h: string)
    ensures var g := Greedy(p, chain);
            Greedy(p, chain + [h]) == if g < |p| && p[g] == h then g + 1 else g
  {
    assert (chain + [h])[..|chain|] == chain;
  }

  lemma NothingInEmpty(p: seq<string>)
    requires p != []
    ensures !IsSubsequence(p, [])
  {
    forall f: seq<nat> ensures !Embeds(f, p, []) {
      if |f| == |p| { assert !(f[0] < 0); }
    }
  }

  /** One more word: either the old chain contains `p`, or it contains all of `p` but its last segment. */
  lemma ContainsSnoc(p: seq<string>, chain: seq<string>, h: string)
    requires p != []
    ensures IsSubsequence(p, chain + [h]) <==>
            IsSubsequence(p, chain) || (p[|p| - 1] == h && IsSubsequence(p[..|p| - 1], chain))
  {
    var n, k := |chain|, |p| - 1;
    if f: seq<nat> :| Embeds(f, p, chain + [h]) {
      if f[k] < n { assert Embeds(f, p, chain); } else { assert Embeds(f[..k], p[..k], chain); }
    }
    if f: seq<nat> :| Embeds(f, p, chain) { assert Embeds(f, p, chain + [h]); }
    if f: seq<nat> :| p[k] == h && Embeds(f, p[..k], chain) { assert Embeds(f + [n], p, chain + [h]); }
  }

  /** Matching early loses nothing: a prefix of `p` is contained exactly when it is matched greedily. */
  lemma {:induction false} GreedyContains(p: seq<string>, chain: seq<string>, k: nat)
    requires k <= |p|
    ensures IsSubsequence(p[..k], chain) <==> k <= Greedy(p, chain)
    decreases |chain|
  {
    if k == 0 {
      assert Embeds([], p[..0], chain);
    } else if chain == [] {
      NothingInEmpty(p[..k]);
    } else {
      var n := |chain| - 1;
      var front, h := chain[..n], chain[n];
      GreedyContains(p, front, k);
      GreedyContains(p, front, k - 1);
      ContainsSnoc(p[..k], front, h);
      assert p[..k][..k - 1] == p[..k - 1] && chain == front + [h];
    }
  }

  lemma FirstContainsGreedy(p: seq<string>, chain: seq<string>, h: string)
    ensures FirstContains(p, chain + [h]) <==> Greedy(p, chain) < |p| == Greedy(p, chain + [h])
  {
    assert (chain + [h])[..|chain|] == chain && p[..|p|] == p;
    GreedyContains(p, chain, |p|);
    GreedyContains(p, chain + [h], |p|);
    GreedySnoc(p, chain, h);
  }

  /** Inside a statement that already contains the path, nothing contains it first. */
  lemma {:induction false} SelectedInside(c: Config, chain: seq<string>, p: seq<string>)
    requires Greedy(p, chain) == |p|
    ensures Selected(Entries(c, chain), p) == []
    decreases c
  {
    hide FirstContains;
    if c != [] {
      SelectedAppend(StatementEntries(c[0], chain), Entries(c[1..], chain), p);
      SelectedInside(c[1..], chain, p);
      var s := c[0];
      if s.tokens != [] {
        var here := chain + [s.tokens[0]];
        FirstContainsGreedy(p, chain, s.tokens[0]);
        GreedySnoc(p, chain, s.tokens[0]);
        if s.Block? { SelectedInside(s.body, here, p); }
        assert StatementEntries(s, chain)[1..] == if s.Block? then Entries(s.body, here) else [];
      }
    }
  }

  /** The entries of one statement: its own, if it is selected, and those inside it. */
  lemma SelectedStatement(s: Statement, chain: seq<string>, p: seq<string>)
    requires s.tokens != []
    ensures s.Line? ==> Selected(StatementEntries(s, chain), p) == []
    ensures s.Block? ==>
              var here := chain + [s.tokens[0]];
              var inner := Selected(Entries(s.body, here), p);
              Selected(StatementEntries(s, chain), p) ==
              if Greedy(p, chain) < |p| == Greedy(p, here) then [s.body] + inner else inner
  {
    FirstContainsGreedy(p, chain, s.tokens[0]);
    hide FirstContains, Greedy;
    var here := chain + [s.tokens[0]];
    assert StatementEntries(s, chain)[1..] == if s.Block? then Entries(s.body, here) else [];
  }

  lemma CollapseNonEmpty(path: seq<string>)
    requires path != []
    ensures Collapse(path) != [] && Collapse(path)[0] == path[0]
  {}

  /** When `q` collapses to what is left of `p` behind its first `g` segments. */
  lemma CollapseAt(q: seq<string>, p: seq<string>, g: nat)
    requires q != [] && g <= |p| && Collapse(q) == p[g..]
    ensures g < |p| && p[g] == q[0]
    ensures |q| == 1 ==> |p| == g + 1
    ensures |q| > 1 && q[1] == q[0] ==> Collapse(q[1..]) == p[g..]
    ensures |q| > 1 && q[1] != q[0] ==> Collapse(q[1..]) == p[g + 1..] && g + 1 < |p|
  {
    CollapseNonEmpty(q);
    if |q| > 1 && q[1] != q[0] {
      CollapseNonEmpty(q[1..]);
      assert Collapse(q)[1..] == Collapse(q[1..]);
      assert p[g + 1..] == p[g..][1..];
    }
  }

  /**
  The query at one statement, when the chain down to it has matched all of the path but `q`: equal
  segments at the front of `q` are used up at the same statement.
  */
  lemma {:induction false} FindBlocksInStatementSelects(
      s: Statement, q: seq<string>, blocks: seq<Config>, chain: seq<string>, p: seq<string>)
    requires q != [] && Collapse(q) == p[Greedy(p, chain)..]
    ensures FindBlocksInStatement(s, q, blocks) == blocks + Selected(StatementEntries(s, chain), p)
    decreases s, |q|
  {
    hide Selected, FirstContains, Greedy, Entries, Collapse, StatementEntries, FindBlocksInStatement, FindBlocks;
    NothingWithoutTokens(s, chain, p);
    AtOneStatement(s, q, blocks);
    CollapseAt(q, p, Greedy(p, chain));
    if s.tokens != [] {
      var h := s.tokens[0];
      var here := chain + [h];
      GreedySnoc(p, chain, h);
      SelectedStatement(s, chain, p);
      if h == q[0] && |q| > 1 && q[1] == h {
        FindBlocksInStatementSelects(s, q[1..], blocks, chain, p);
      } else if s.Block? {
        if h == q[0] && |q| == 1 {
          SelectedInside(s.body, here, p);
          assert [s.body] + [] == [s.body];
        } else {
          FindBlocksSelects(s.body, if h == q[0] then q[1..] else q, blocks, here, p);
        }
      }
    }
  }

  lemma NothingWithoutTokens(s: Statement, chain: seq<string>, p: seq<string>)
    ensures s.tokens == [] ==> Selected(StatementEntries(s, chain), p) == []
  {}

  /** What the query does at one statement: go on with the rest of the path, answer, or go inside. */
  lemma AtOneStatement(s: Statement, q: seq<string>, blocks: seq<Config>)
    requires q != []
    ensures s.tokens == [] ==> FindBlocksInStatement(s, q, blocks) == blocks
    ensures s.tokens != [] ==>
              var h := s.tokens[0];
              FindBlocksInStatement(s, q, blocks) ==
              if h == q[0] && |q| > 1 && q[1] == h then FindBlocksInStatement(s, q[1..], blocks)
              else if s.Line? then blocks
              else if h == q[0] && |q| == 1 then blocks + [s.body]
              else FindBlocks(s.body, if h == q[0] then q[1..] else q, blocks)
  {
    hide FindBlocks;
  }

  lemma {:induction false} FindBlocksSelects(
      c: Config, q: seq<string>, blocks: seq<Config>, chain: seq<string>, p: seq<string>)
    requires q != [] && Collapse(q) == p[Greedy(p, chain)..]
    ensures FindBlocks(c, q, blocks) == blocks + Selected(Entries(c, chain), p)
    decreases c, |q|
  {
    hide Selected, Greedy, Collapse, FindBlocks, FindBlocksInStatement, StatementEntries, Entries;
    SelectedAtFront(c, q, blocks, chain, p);
    if c != [] {
      var found := FindBlocksInStatement(c[0], q, blocks);
      FindBlocksInStatementSelects(c[0], q, blocks, chain, p);
      FindBlocksSelects(c[1..], q, found, chain, p);
      AppendBlocks(blocks, Selected(StatementEntries(c[0], chain), p), Selected(Entries(c[1..], chain), p));
    }
  }

  /** Both sides at the first statement. */
  lemma SelectedAtFront(c: Config, q: seq<string>, blocks: seq<Config>, chain: seq<string>, p: seq<string>)
    requires q != []
    ensures c == [] ==> FindBlocks(c, q, blocks) == blocks == blocks + Selected(Entries(c, chain), p)
    ensures c != [] ==>
              && FindBlocks(c, q, blocks) == FindBlocks(c[1..], q, FindBlocksInStatement(c[0], q, blocks))
              && Selected(Entries(c, chain), p)
                 == Selected(StatementEntries(c[0], chain), p) + Selected(Entries(c[1..], chain), p)
  {
    hide Greedy, Collapse, FindBlocksInStatement, StatementEntries, FirstContains;
    if c == [] {
      assert blocks + [] == blocks;
    } else {
      SelectedAppend(StatementEntries(c[0], chain), Entries(c[1..], chain), p);
    }
  }

  lemma AppendBlocks(a: seq<Config>, b: seq<Config>, c: seq<Config>)
    ensures a + b + c == a + (b + c)
  {}

  /**
  `FindBlocks` appends, in document order, the child blocks of exactly those statements at which the chain
  of first words contains the path as a subsequence for the first time, with adjacent equal segments of
  the path counted once.
  */
  lemma FindBlocksIsFirstContainment(c: Config, path: seq<string>, blocks: seq<Config>)
    requires path != []
    ensures FindBlocks(c, path, blocks) == blocks + Selected(Entries(c, []), Collapse(path))
  {
    var p := Collapse(path);
    assert p[Greedy(p, [])..] == p;
    FindBlocksSelects(c, path, blocks, [], p);
  }

  // ---------- dotted keys ----------

  lemma {:induction false} SplitDotted(path: seq<string>)
    requires path != [] && forall i :: 0 <= i < |path| ==> FreeOf(path[i], {'.'})
    ensures Split(Join(path, "."), {'.'}) == path
    decreases |path|
  {
    hide Split, FreeOf;
    var n := |path| - 1;
    SplitFree(path[n], {'.'});
    if n > 0 {
      var front := Join(path[..n], ".");
      SplitDotted(path[..n]);
      SplitAt(front, '.', path[n], {'.'});
      assert Join(path, ".") == front + ['.'] + path[n];
      assert path == path[..n] + [path[n]];
    } else {
      assert path == [path[0]];
    }
  }

  /** A key is the path of its segments, which the dots are between; the default is the empty text. */
  lemma DottedKeys(c: Config, path: seq<string>)
    requires path != [] && forall i :: 0 <= i < |path| ==> FreeOf(path[i], {'.'})
    ensures FindKey(c, Join(path, ".")) == Find(c, path, "")
    ensures FindBlocksKey(c, Join(path, ".")) == FindBlocks(c, path, [])
  {
    SplitDotted(path);
  }

  /** A key without a dot is a path of one segment. */
  lemma PlainKey(c: Config, key: string)
    requires FreeOf(key, {'.'})
    ensures FindKey(c, key) == Find(c, [key], "") && FindBlocksKey(c, key) == FindBlocks(c, [key], [])
  {
    SplitFree(key, {'.'});
  }
}
