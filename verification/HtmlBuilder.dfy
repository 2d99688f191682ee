/** The page builder, whose methods rewrite the page in place. */
module HtmlBuilding {
  import opened Wrappers
  import opened Text
  import HtmlTemplates

  type Pairs = seq<(string, string)>

  /** The search and replace loop that every injection runs. */
  method ReplaceMarker(html: string, original: string, replacement: string) returns (r: string)
    ensures r == HtmlTemplates.Inject(html, original, replacement)
  {
    assert HtmlTemplates.Inject(html, original, replacement)
        == ReplaceAll(Literal(HtmlTemplates.Marker(original)), html, replacement);
    var marker := HtmlTemplates.Marker(original);
    r := html;
    ghost var done, tail, goal := "", html, ReplaceAll(Literal(marker), html, replacement);
    assert marker != "" && done + tail == html && Leads(done, tail, marker, replacement, goal);
    hide Leads, Find, ReplaceAll, HtmlTemplates.Marker, HtmlTemplates.Inject, At;
    var pos := Find(r, marker, 0);
    while pos.Some?
      invariant r == done + tail && Leads(done, tail, marker, replacement, goal) && pos == Find(r, marker, |done|)
      decreases |tail|
    {
      ghost var gap, rest := NextGap(done, tail, marker, replacement, goal);
      var k := pos.value;
      CutOut(r, k, done, gap, marker, rest, replacement);
      r := r[..k] + replacement + r[k + |marker|..];
      done, tail := done + gap + replacement, rest;
      assert |done| == k + |replacement|;
      pos := Find(r, marker, k + |replacement|);
    }
    NoGap(done, tail, marker, replacement, goal);
  }

  /** With `done` behind it and `tail` before it, the loop is on its way to `goal`. */
  ghost predicate Leads(done: string, tail: string, marker: string, replacement: string, goal: string) {
    marker != "" && done + ReplaceAll(Literal(marker), tail, replacement) == goal
  }

  /** One round: the text in front of the next marker, and the text behind it. */
  lemma NextGap(done: string, tail: string, marker: string, replacement: string, goal: string)
    returns (gap: string, rest: string)
    requires Leads(done, tail, marker, replacement, goal) && Find(done + tail, marker, |done|).Some?
    ensures marker != "" && tail == gap + marker + rest
    ensures Find(done + tail, marker, |done|) == Some(|done| + |gap|)
    ensures Leads(done + gap + replacement, rest, marker, replacement, goal)
  {
    hide Find, At, ReplaceAll;
    FindBehind(done, tail, marker);
    var k := Find(tail, marker, 0).value;
    ReplaceRoundAt(tail, marker, replacement, k);
    gap, rest := tail[..k], tail[k + |marker|..];
    Text.Regroup(done, gap, replacement, ReplaceAll(Literal(marker), rest, replacement));
  }

  lemma CutOut(r: string, k: nat, done: string, gap: string, marker: string, rest: string, replacement: string)
    requires r == done + (gap + marker + rest) && k == |done| + |gap|
    ensures k + |marker| <= |r|
    ensures r[..k] + replacement + r[k + |marker|..] == done + gap + replacement + rest
  {
    assert r[..k] == done + gap;
    assert r[k + |marker|..] == rest;
  }

  lemma NoGap(done: string, tail: string, marker: string, replacement: string, goal: string)
    requires Leads(done, tail, marker, replacement, goal) && Find(done + tail, marker, |done|).None?
    ensures done + tail == goal
  {
    hide Find, At, ReplaceAll;
    FindBehind(done, tail, marker);
    ReplaceRound(tail, marker, replacement);
  }

  // ---------- lists of keys and values ----------

  function Zip(originals: seq<string>, replacements: seq<string>): Pairs
    requires |originals| == |replacements|
  {
    seq(|originals|, i requires 0 <= i < |originals| => (originals[i], replacements[i]))
  }

  /** What a list of keys and a list of values do to a page: nothing, when their lengths differ. */
  function InjectRow(html: string, originals: seq<string>, row: seq<string>): string {
    if |originals| == |row| then HtmlTemplates.InjectAll(html, Zip(originals, row)) else html
  }

  function EachMap(html: string, input: seq<Pairs>): seq<string> {
    if input == [] then []
    else EachMap(html, input[..|input| - 1]) + [HtmlTemplates.InjectAll(html, input[|input| - 1])]
  }

  function EachRow(html: string, originals: seq<string>, rows: seq<seq<string>>): seq<string> {
    if rows == [] then []
    else EachRow(html, originals, rows[..|rows| - 1]) + [InjectRow(html, originals, rows[|rows| - 1])]
  }

  /** One more row, and the pages with it. */
  lemma NextRow(html: string, originals: seq<string>, rows: seq<seq<string>>, i: nat, page: string)
    requires i < |rows| && page == InjectRow(html, originals, rows[i])
    ensures var pages := Join(EachRow(html, originals, rows[..i]), "\n");
            Join(EachRow(html, originals, rows[..i + 1]), "\n") == if i == 0 then pages + page else pages + ("\n" + page)
  {
    hide Join, InjectRow;
    assert rows[..i + 1][..i] == rows[..i];
    JoinLines(EachRow(html, originals, rows[..i]), page);
    if i == 0 { NoRows(html, originals, rows); }
  }

  lemma NoRows(html: string, originals: seq<string>, rows: seq<seq<string>>)
    ensures EachRow(html, originals, rows[..0]) == [] && Join(EachRow(html, originals, rows[..0]), "\n") == ""
  {}

  /** The pages one below the other; no page at all unless the first row fits the keys. */
  function InjectTable(html: string, originals: seq<string>, rows: seq<seq<string>>): string {
    if rows != [] && |originals| == |rows[0]| then Join(EachRow(html, originals, rows), "\n") else ""
  }

  lemma JoinLines(pages: seq<string>, page: string)
    ensures Join(pages + [page], "\n") == (if pages == [] then page else Join(pages, "\n") + ("\n" + page))
  {
    assert (pages + [page])[..|pages|] == pages;
  }

  const METACHARACTERS: set<char> := {'^', '$', '\\', '.', '*', '+', '?', '(', ')', '[', ']', '{', '}', '|'}

  /** The map overload goes through the pairs of the map in the order of its keys. */
  method ShallowInjectMap(html: string, input: Pairs) returns (r: string)
    ensures r == HtmlTemplates.InjectAll(html, input)
  {
    r := html;
    for i := 0 to |input|
      invariant HtmlTemplates.InjectAll(r, input[i..]) == HtmlTemplates.InjectAll(html, input)
    {
      assert input[i..][1..] == input[i + 1..];
      r := ReplaceMarker(r, input[i].0, input[i].1);
    }
  }

  method ShallowInjectLists(html: string, originals: seq<string>, replacements: seq<string>) returns (r: string)
    ensures r == InjectRow(html, originals, replacements)
  {
    r := html;
    if |originals| == |replacements| {
      ghost var pairs := Zip(originals, replacements);
      for i := 0 to |originals|
        invariant HtmlTemplates.InjectAll(r, pairs[i..]) == HtmlTemplates.InjectAll(html, pairs)
      {
        assert pairs[i..][1..] == pairs[i + 1..];
        r := ReplaceMarker(r, originals[i], replacements[i]);
      }
    }
  }

  class HtmlBuilder {
    var html: string

    constructor (html: string)
      ensures this.html == html
    {
      this.html := html;
    }

    method Inject(original: string, replacement: string)
      modifies this
      ensures html == HtmlTemplates.Inject(old(html), original, replacement)
    {
      html := ReplaceMarker(html, original, replacement);
    }

    method InjectLists(originals: seq<string>, replacements: seq<string>)
      modifies this
      ensures html == InjectRow(old(html), originals, replacements)
    {
      html := ShallowInjectLists(html, originals, replacements);
    }

    method InjectMap(input: Pairs)
      modifies this
      ensures html == HtmlTemplates.InjectAll(old(html), input)
    {
      html := ShallowInjectMap(html, input);
    }

    /** One page for each map, one below the other. */
    method InjectMaps(input: seq<Pairs>)
      modifies this
      ensures html == Join(EachMap(old(html), input), "\n")
    {
      var pages := "";
      for i := 0 to |input|
        invariant html == old(html) && pages == Join(EachMap(html, input[..i]), "\n")
      {
        var page := ShallowInjectMap(html, input[i]);
        JoinLines(EachMap(html, input[..i]), page);
        assert input[..i + 1][..i] == input[..i];
        if i != 0 {
          page := "\n" + page;
        }
        pages := pages + page;
      }
      assert input[..|input|] == input;
      html := pages;
    }

    /** One page for each row of values. */
    method InjectRows(originals: seq<string>, rows: seq<seq<string>>)
      modifies this
      ensures html == InjectTable(old(html), originals, rows)
    {
      hide EachRow, Join, InjectRow;
      var pages := "";
      NoRows(html, originals, rows);
      if rows != [] && |originals| == |rows[0]| {
        for i := 0 to |rows|
          invariant html == old(html) && pages == Join(EachRow(html, originals, rows[..i]), "\n")
        {
          var page := ShallowInjectLists(html, originals, rows[i]);
          NextRow(html, originals, rows, i, page);
          if i != 0 {
            page := "\n" + page;
          }
          pages := pages + page;
        }
        assert rows[..|rows|] == rows;
      }
      html := pages;
    }

    /** The prefix is part of a regular expression, where only a plain prefix stands for itself. */
    method EqualityInject(value: string, prefix: string, replacement: string, ghost ps: seq<HtmlTemplates.Piece>)
      requires FreeOf(prefix, METACHARACTERS)
      modifies this
      ensures html == HtmlTemplates.EqualityInject(old(html), value, prefix, replacement)
      ensures old(html) == HtmlTemplates.Render(ps) && HtmlTemplates.Decidable(ps, value, prefix, replacement)
              ==> html == HtmlTemplates.Render(HtmlTemplates.DecideAll(ps, value, prefix + " == ", replacement))
    {
      hide HtmlTemplates.Decidable, HtmlTemplates.Render;
      if html == HtmlTemplates.Render(ps) && HtmlTemplates.Decidable(ps, value, prefix, replacement) {
        HtmlTemplates.EqualityInjectDecides(ps, value, prefix, replacement);
      }
      var before := prefix + " == ";
      Inject(before + value, replacement);
      html := ReplaceAll(HtmlTemplates.NumeralMarker(before), html, "");
    }
  }

  // ---------- what the table overload makes of a template ----------

  function SubstituteRows(ps: seq<HtmlTemplates.Piece>, originals: seq<string>, rows: seq<seq<string>>): seq<string>
  {
    if rows == [] then [] else
      var n := |rows| - 1;
      var filled := if |rows[n]| != |originals| then ps
                    else HtmlTemplates.Substitute(ps, HtmlTemplates.FirstWins(Zip(originals, rows[n])));
      SubstituteRows(ps, originals, rows[..n]) + [HtmlTemplates.Render(filled)]
  }

  /** A table of inert values gives one filled template per row, and the bare template for a row that does not fit. */
  lemma {:induction false} EachRowSubstitutes(ps: seq<HtmlTemplates.Piece>, originals: seq<string>, rows: seq<seq<string>>)
    requires HtmlTemplates.ProperTemplate(ps)
    requires forall i :: 0 <= i < |originals| ==> HtmlTemplates.FreeOfClose(originals[i])
    requires forall i, j :: 0 <= i < |rows| && 0 <= j < |rows[i]| ==> HtmlTemplates.Inert(rows[i][j])
    ensures EachRow(HtmlTemplates.Render(ps), originals, rows) == SubstituteRows(ps, originals, rows)
    decreases |rows|
  {
    if rows != [] {
      var n := |rows| - 1;
      EachRowSubstitutes(ps, originals, rows[..n]);
      if |rows[n]| == |originals| { HtmlTemplates.InjectAllSubstitutes(ps, Zip(originals, rows[n])); }
    }
  }

  // ---------- the pages, position by position ----------

  lemma {:induction false} EachMapAt(html: string, input: seq<Pairs>)
    ensures |EachMap(html, input)| == |input|
    ensures forall k :: 0 <= k < |input| ==> EachMap(html, input)[k] == HtmlTemplates.InjectAll(html, input[k])
  {
    hide HtmlTemplates.InjectAll;
    if input != [] { EachMapAt(html, input[..|input| - 1]); }
  }

  /**
  What the overload for maps makes of a template: one page for each map, filled from that map, and between
  each two pages one line break.
  */
  lemma MapsFillPages(ps: seq<HtmlTemplates.Piece>, input: seq<Pairs>)
    requires HtmlTemplates.ProperTemplate(ps)
    requires forall k, i :: 0 <= k < |input| && 0 <= i < |input[k]| ==>
               HtmlTemplates.FreeOfClose(input[k][i].0) && HtmlTemplates.Inert(input[k][i].1)
    ensures var pages := EachMap(HtmlTemplates.Render(ps), input);
            && |pages| == |input|
            && (forall k :: 0 <= k < |input| ==>
                  pages[k] == HtmlTemplates.Render(HtmlTemplates.Substitute(ps, HtmlTemplates.FirstWins(input[k]))))
            && IsJoined(Join(pages, "\n"), pages, '\n')
  {
    hide HtmlTemplates.InjectAll, HtmlTemplates.Render, HtmlTemplates.Substitute, HtmlTemplates.FirstWins;
    hide HtmlTemplates.FreeOfClose, HtmlTemplates.Inert, HtmlTemplates.ProperTemplate, EachMap, IsJoined;
    var html := HtmlTemplates.Render(ps);
    EachMapAt(html, input);
    forall k | 0 <= k < |input|
      ensures HtmlTemplates.InjectAll(html, input[k])
           == HtmlTemplates.Render(HtmlTemplates.Substitute(ps, HtmlTemplates.FirstWins(input[k])))
    {
      HtmlTemplates.InjectAllSubstitutes(ps, input[k]);
    }
    JoinIsJoined(EachMap(html, input), '\n');
  }

  /** Each key has the value at its own position; of a repeated key the first position counts. */
  ghost predicate Names(env: map<string, string>, keys: seq<string>, values: seq<string>) {
    && |keys| == |values|
    && (forall k :: k in env <==> k in keys)
    && (forall i :: 0 <= i < |keys| && keys[i] !in keys[..i] ==> keys[i] in env && env[keys[i]] == values[i])
  }

  lemma {:induction false} FirstWinsNames(keys: seq<string>, values: seq<string>)
    requires |keys| == |values|
    ensures Names(HtmlTemplates.FirstWins(Zip(keys, values)), keys, values)
    decreases |keys|
  {
    if keys != [] {
      FirstWinsNames(keys[1..], values[1..]);
      assert Zip(keys, values)[1..] == Zip(keys[1..], values[1..]);
      var env := HtmlTemplates.FirstWins(Zip(keys, values));
      forall i | 0 <= i < |keys| && keys[i] !in keys[..i] ensures env[keys[i]] == values[i] {
        if i > 0 {
          assert keys[0] in keys[..i];
          assert keys[1..][i - 1] == keys[i];
          assert forall x :: x in keys[1..][..i - 1] ==> x in keys[..i];
        }
      }
      assert forall k :: k in keys <==> k == keys[0] || k in keys[1..];
    }
  }

  lemma NamesAreUnique(env: map<string, string>, other: map<string, string>, keys: seq<string>, values: seq<string>)
    requires Names(env, keys, values) && Names(other, keys, values)
    ensures env == other
  {
    forall k | k in keys ensures env[k] == other[k] {
      var i := FirstPosition(keys, k);
    }
  }

  lemma {:induction false} FirstPosition(keys: seq<string>, k: string) returns (i: nat)
    requires k in keys
    ensures i < |keys| && keys[i] == k && k !in keys[..i]
    decreases |keys|
  {
    var n := |keys| - 1;
    if k in keys[..n] {
      i := FirstPosition(keys[..n], k);
      assert keys[..n][..i] == keys[..i];
    } else {
      i := n;
    }
  }

  /** A row that fits the keys fills the page with each value under its own key; another row leaves it alone. */
  lemma RowFillsPage(ps: seq<HtmlTemplates.Piece>, originals: seq<string>, row: seq<string>, env: map<string, string>)
    requires HtmlTemplates.ProperTemplate(ps)
    requires forall i :: 0 <= i < |originals| ==> HtmlTemplates.FreeOfClose(originals[i])
    requires forall i :: 0 <= i < |row| ==> HtmlTemplates.Inert(row[i])
    ensures |row| != |originals| ==> InjectRow(HtmlTemplates.Render(ps), originals, row) == HtmlTemplates.Render(ps)
    ensures Names(env, originals, row) ==>
              InjectRow(HtmlTemplates.Render(ps), originals, row) == HtmlTemplates.Render(HtmlTemplates.Substitute(ps, env))
  {
    hide HtmlTemplates.InjectAll, HtmlTemplates.Render, HtmlTemplates.Substitute, HtmlTemplates.FirstWins;
    hide HtmlTemplates.FreeOfClose, HtmlTemplates.Inert, HtmlTemplates.ProperTemplate, Names;
    if |row| == |originals| {
      HtmlTemplates.InjectAllSubstitutes(ps, Zip(originals, row));
      FirstWinsNames(originals, row);
      if Names(env, originals, row) {
        NamesAreUnique(env, HtmlTemplates.FirstWins(Zip(originals, row)), originals, row);
      }
    } else {
      NamesFit(env, originals, row);
    }
  }

  lemma NamesFit(env: map<string, string>, keys: seq<string>, values: seq<string>)
    ensures Names(env, keys, values) ==> |keys| == |values|
  {}

  lemma {:induction false} EachRowAt(html: string, originals: seq<string>, rows: seq<seq<string>>)
    ensures |EachRow(html, originals, rows)| == |rows|
    ensures forall k :: 0 <= k < |rows| ==> EachRow(html, originals, rows)[k] == InjectRow(html, originals, rows[k])
  {
    hide InjectRow;
    if rows != [] { EachRowAt(html, originals, rows[..|rows| - 1]); }
  }

  /**
  What the overload for tables makes of a page: nothing when there is no row or the first one does not fit
  the keys, and otherwise one page for each row, and between each two pages one line break.
  */
  lemma TableFillsPages(html: string, originals: seq<string>, rows: seq<seq<string>>)
    ensures rows == [] || |rows[0]| != |originals| ==> InjectTable(html, originals, rows) == ""
    ensures rows != [] && |rows[0]| == |originals| ==>
              exists pages: seq<string> ::
                && |pages| == |rows|
                && IsJoined(InjectTable(html, originals, rows), pages, '\n')
                && forall k :: 0 <= k < |rows| ==> pages[k] == InjectRow(html, originals, rows[k])
  {
    hide InjectRow, EachRow, IsJoined;
    var pages := EachRow(html, originals, rows);
    EachRowAt(html, originals, rows);
    JoinIsJoined(pages, '\n');
  }
}
