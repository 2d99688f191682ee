/**
Templates of literal text and `<!-- key -->` holes. The builder fills them by one destructive search and
replace per key; here that is shown to be one simultaneous substitution, in whatever order the keys come.
 */
module HtmlTemplates {
  import opened Wrappers
  import opened Text

  const OPEN := "<!-- "
  const CLOSE := " -->"

  /** `generateMarker`. */
  function Marker(key: string): string { OPEN + key + CLOSE }

  function Inject(html: string, key: string, value: string): string {
    ReplaceAll(Literal(Marker(key)), html, value)
  }

  /** One key after the other. */
  function InjectAll(html: string, pairs: seq<(string, string)>): string
    decreases |pairs|
  {
    if pairs == [] then html else InjectAll(Inject(html, pairs[0].0, pairs[0].1), pairs[1..])
  }

  // ---------- templates ----------

  datatype Piece = Plain(text: string) | Hole(key: string)

  function RenderPiece(p: Piece): string {
    match p
    case Plain(text) => text
    case Hole(key) => Marker(key)
  }

  function Render(ps: seq<Piece>): string {
    if ps == [] then "" else RenderPiece(ps[0]) + Render(ps[1..])
  }

  function Fill(p: Piece, env: map<string, string>): Piece {
    if p.Hole? && p.key in env then Plain(env[p.key]) else p
  }

  /** All holes that `env` names, filled at once. */
  function Substitute(ps: seq<Piece>, env: map<string, string>): seq<Piece> {
    if ps == [] then [] else [Fill(ps[0], env)] + Substitute(ps[1..], env)
  }

  /**
  A text in which no marker begins, whatever follows it: it does not contain the opening of a marker, and
  does not end in a beginning of it.
  */
  ghost predicate Inert(s: string) {
    forall j :: 0 <= j < |s| ==> !(OPEN <= s[j..]) && !(s[j..] <= OPEN)
  }

  ghost predicate FreeOfClose(key: string) {
    forall j :: 0 <= j ==> !At(key, j, CLOSE)
  }

  /** A key whose marker holds one opening and one closing. */
  ghost predicate ProperKey(key: string) {
    FreeOfClose(key) && forall j :: 0 <= j ==> !At(key + CLOSE, j, OPEN)
  }

  ghost predicate ProperPiece(p: Piece) {
    match p
    case Plain(text) => Inert(text)
    case Hole(key) => ProperKey(key)
  }

  ghost predicate ProperTemplate(ps: seq<Piece>) {
    forall i :: 0 <= i < |ps| ==> ProperPiece(ps[i])
  }

  // ---------- where markers can begin ----------

  /** Two texts that begin at the same place: one begins with the other. */
  lemma AtCompares(s: string, t: string, j: nat, m: string)
    requires At(s + t, j, m) && j < |s|
    ensures m <= s[j..] || s[j..] <= m
  {
    if j + |m| <= |s| {
      assert s[j..][..|m|] == (s + t)[j..j + |m|];
    } else {
      assert s[j..] == (s + t)[j..j + |m|][..|s| - j];
    }
  }

  lemma InertHasNoOpen(s: string, t: string, j: nat)
    requires Inert(s) && j < |s|
    ensures !At(s + t, j, OPEN)
  {
    if At(s + t, j, OPEN) { AtCompares(s, t, j, OPEN); }
  }

  /** Inside a marker, its first character stands only in the key. */
  lemma AngleInKey(key: string, j: nat)
    requires 0 < j < |Marker(key)| && Marker(key)[j] == '<'
    ensures |OPEN| <= j < |OPEN| + |key|
  {
    var m, n := Marker(key), |OPEN|;
    assert forall d :: 1 <= d < n ==> m[d] == OPEN[d] != '<';
    assert forall d :: n + |key| <= d < |m| ==> m[d] == CLOSE[d - n - |key|] != '<';
  }

  lemma OpensWithAngle(s: string, j: nat)
    requires At(s, j, OPEN)
    ensures j < |s| && s[j] == '<'
  {
    assert s[j] == s[j..j + |OPEN|][0];
  }

  /** An opening inside a marker lies in its key and closing. */
  lemma OpensInKey(key: string, t: string, j: nat)
    requires 0 < j < |Marker(key)| && At(Marker(key) + t, j, OPEN)
    ensures |OPEN| <= j && At(key + CLOSE, j - |OPEN|, OPEN)
  {
    var m, n := Marker(key), |OPEN|;
    assert m == OPEN + (key + CLOSE);
    OpensWithAngle(m + t, j);
    assert (m + t)[j] == m[j];
    AngleInKey(key, j);
    hide At, Marker;
    AtInFront(m, t, j, OPEN);
    AtBehind(OPEN, key + CLOSE, j - n, OPEN);
  }

  lemma OpenOnlyInFront(key: string, t: string, j: nat)
    requires ProperKey(key) && 0 < j < |Marker(key)|
    ensures !At(Marker(key) + t, j, OPEN)
  {
    if At(Marker(key) + t, j, OPEN) { OpensInKey(key, t, j); }
  }

  /** Of two texts in front of a closing, the shorter one closes inside the longer one. */
  lemma ClosesInside(k: string, l: string, s: string)
    requires |k| < |l| && k + CLOSE <= s && l + CLOSE <= s
    ensures At(l, |k|, CLOSE)
  {
    var n := |CLOSE|;
    assert s[|k|..|k| + n] == (k + CLOSE)[|k|..] == CLOSE;
    assert forall d :: 1 <= d < n ==> s[|k| + d] == s[|k|..|k| + n][d] == CLOSE[d] != ' ';
    assert s[|l|] == (l + CLOSE)[|l|] == ' ';
    assert s[|k| + (|l| - |k|)] == ' ';
    assert |k| + n <= |l|;
    assert l == s[..|l|];
    assert l[|k|..|k| + n] == s[|k|..|k| + n];
  }

  lemma SameClose(k: string, l: string, s: string)
    requires FreeOfClose(k) && FreeOfClose(l) && k + CLOSE <= s && l + CLOSE <= s
    ensures k == l
  {
    if |k| < |l| { ClosesInside(k, l, s); }
    if |l| < |k| { ClosesInside(l, k, s); }
    assert s[..|k|] == k && s[..|l|] == l;
  }

  /** Markers are a prefix code. */
  lemma MarkersDiffer(k: string, l: string, t: string)
    requires FreeOfClose(k) && FreeOfClose(l) && At(Marker(l) + t, 0, Marker(k))
    ensures k == l
  {
    var s := l + CLOSE + t;
    assert Marker(l) + t == OPEN + s && Marker(k) == OPEN + (k + CLOSE);
    hide Marker;
    DropFront(OPEN, k + CLOSE, s);
    SameClose(k, l, s);
  }

  lemma DropFront(front: string, x: string, y: string)
    requires At(front + y, 0, front + x)
    ensures x <= y
  {
    assert forall i :: 0 <= i < |x| ==> x[i] == (front + x)[|front| + i] == (front + y)[|front| + i] == y[i];
  }

  // ---------- one key ----------

  /** A pattern that can match only where a marker opens. */
  ghost predicate OpensLikeMarker(p: Pattern) {
    match p
    case Literal(text) => OPEN <= text
    case Digits(before, after) => OPEN <= before && after == CLOSE
  }

  lemma MatchOpens(p: Pattern, s: string, i: nat)
    requires OpensLikeMarker(p) && MatchEnd(p, s, i).Some?
    ensures At(s, i, OPEN)
  {
    var m := if p.Literal? then p.text else p.before;
    assert At(s, i, m);
    assert s[i..i + |OPEN|] == m[..|OPEN|];
  }

  /** Where a pattern can match in a piece with any text behind it: at the start of a hole. */
  lemma MatchesInPiece(p: Pattern, piece: Piece, t: string, j: nat)
    requires OpensLikeMarker(p) && ProperPiece(piece) && j < |RenderPiece(piece)|
    requires MatchEnd(p, RenderPiece(piece) + t, j).Some?
    ensures j == 0 && piece.Hole?
  {
    hide MatchEnd, Inert, ProperKey, At;
    MatchOpens(p, RenderPiece(piece) + t, j);
    match piece
    case Plain(text) => InertHasNoOpen(text, t, j);
    case Hole(key) => if j > 0 { OpenOnlyInFront(key, t, j); }
  }

  /** A hole that the pattern, if it matches there at all, matches from end to end. */
  ghost predicate WholeHole(p: Pattern, key: string, hit: bool) {
    forall t: string :: MatchEnd(p, Marker(key) + t, 0) == if hit then Some(|Marker(key)|) else None
  }

  /** Replacing in a piece and the text behind it is replacing in each. */
  lemma ReplaceInPiece(p: Pattern, piece: Piece, t: string, r: string, hit: bool)
    requires OpensLikeMarker(p) && Proper(p) && ProperPiece(piece)
    requires if piece.Hole? then WholeHole(p, piece.key, hit) else !hit
    ensures ReplaceAll(p, RenderPiece(piece) + t, r) == (if hit then r else RenderPiece(piece)) + ReplaceAll(p, t, r)
  {
    var x := RenderPiece(piece);
    forall j | 0 <= j < |x| && MatchEnd(p, x + t, j).Some? ensures j == 0 && hit && MatchEnd(p, x + t, j) == Some(|x|) {
      MatchesInPiece(p, piece, t, j);
    }
    hide MatchEnd, ProperPiece, OpensLikeMarker;
    if hit {
      assert MatchEnd(p, x + "", 0) == Some(|x|) && x + "" == x;
      ReplaceSplit(p, x, t, r);
      FirstMatchIs(p, x, 0, 0);
      assert x[|x|..] == "" && ReplaceAll(p, "", r) == "" by { EmptyText(p, r); }
      assert x[..0] + r + "" == r;
    } else {
      ReplaceAfter(p, x, t, r);
    }
  }

  lemma EmptyText(p: Pattern, r: string)
    requires Proper(p)
    ensures ReplaceAll(p, "", r) == ""
  {}

  lemma HoleOfKey(key: string, k: string)
    requires FreeOfClose(key) && FreeOfClose(k)
    ensures WholeHole(Literal(Marker(key)), k, k == key)
  {
    forall t: string
      ensures MatchEnd(Literal(Marker(key)), Marker(k) + t, 0) == if k == key then Some(|Marker(k)|) else None
    {
      if At(Marker(k) + t, 0, Marker(key)) { MarkersDiffer(key, k, t); }
      if k == key { assert (Marker(k) + t)[0..|Marker(k)|] == Marker(k); }
    }
  }

  /** One search and replace fills the holes of one key, and nothing else. */
  lemma {:induction false} InjectSubstitutes(ps: seq<Piece>, key: string, value: string)
    requires ProperTemplate(ps) && FreeOfClose(key)
    ensures Inject(Render(ps), key, value) == Render(Substitute(ps, map[key := value]))
    decreases |ps|
  {
    var p := Literal(Marker(key));
    assert Proper(p);
    if ps == [] {
      EmptyText(p, value);
    } else {
      InjectSubstitutes(ps[1..], key, value);
      var hit := ps[0] == Hole(key);
      assert OPEN <= Marker(key);
      if ps[0].Hole? { HoleOfKey(key, ps[0].key); }
      ReplaceInPiece(p, ps[0], Render(ps[1..]), value, hit);
    }
  }

  lemma SubstituteProper(ps: seq<Piece>, env: map<string, string>)
    requires ProperTemplate(ps) && (forall k :: k in env ==> Inert(env[k]))
    ensures ProperTemplate(Substitute(ps, env))
  {}

  // ---------- all keys ----------

  /** What each key stands for when its first value counts. */
  function FirstWins(pairs: seq<(string, string)>): map<string, string> {
    if pairs == [] then map[] else FirstWins(pairs[1..])[pairs[0].0 := pairs[0].1]
  }

  lemma {:induction false} SubstituteTwice(ps: seq<Piece>, key: string, value: string, env: map<string, string>)
    ensures Substitute(Substitute(ps, map[key := value]), env) == Substitute(ps, env[key := value])
    decreases |ps|
  {
    if ps != [] {
      SubstituteTwice(ps[1..], key, value, env);
      assert Substitute(ps, map[key := value])[1..] == Substitute(ps[1..], map[key := value]);
    }
  }

  lemma SubstituteNothing(ps: seq<Piece>)
    ensures Substitute(ps, map[]) == ps
  {}

  /**
  Injecting key by key is one simultaneous substitution, for keys that are proper and values that are
  inert; no value is searched for the keys that come after it.
  */
  lemma {:induction false} InjectAllSubstitutes(ps: seq<Piece>, pairs: seq<(string, string)>)
    requires ProperTemplate(ps)
    requires forall i :: 0 <= i < |pairs| ==> FreeOfClose(pairs[i].0) && Inert(pairs[i].1)
    ensures InjectAll(Render(ps), pairs) == Render(Substitute(ps, FirstWins(pairs)))
    decreases |pairs|
  {
    if pairs == [] {
      SubstituteNothing(ps);
    } else {
      var (key, value) := pairs[0];
      InjectSubstitutes(ps, key, value);
      SubstituteProper(ps, map[key := value]);
      InjectAllSubstitutes(Substitute(ps, map[key := value]), pairs[1..]);
      SubstituteTwice(ps, key, value, FirstWins(pairs[1..]));
    }
  }

  /** The order of the keys does not matter: lists that say the same of every key give the same page. */
  lemma OrderDoesNotMatter(ps: seq<Piece>, pairs: seq<(string, string)>, others: seq<(string, string)>)
    requires ProperTemplate(ps)
    requires forall i :: 0 <= i < |pairs| ==> FreeOfClose(pairs[i].0) && Inert(pairs[i].1)
    requires forall i :: 0 <= i < |others| ==> FreeOfClose(others[i].0) && Inert(others[i].1)
    requires FirstWins(pairs) == FirstWins(others)
    ensures InjectAll(Render(ps), pairs) == InjectAll(Render(ps), others)
  {
    InjectAllSubstitutes(ps, pairs);
    InjectAllSubstitutes(ps, others);
  }

  ghost predicate DistinctKeys(pairs: seq<(string, string)>) {
    forall i, j :: 0 <= i < j < |pairs| ==> pairs[i].0 != pairs[j].0
  }

  lemma {:induction false} FirstWinsHolds(pairs: seq<(string, string)>)
    requires DistinctKeys(pairs)
    ensures forall k :: k in FirstWins(pairs) <==> exists i :: 0 <= i < |pairs| && pairs[i].0 == k
    ensures forall i :: 0 <= i < |pairs| ==> pairs[i].0 in FirstWins(pairs) && FirstWins(pairs)[pairs[i].0] == pairs[i].1
  {
    if pairs != [] {
      FirstWinsHolds(pairs[1..]);
      assert forall i :: 1 <= i < |pairs| ==> pairs[i] == pairs[1..][i - 1];
    }
  }

  /** In particular, pairs with distinct keys may be injected in any order. */
  lemma PermutationDoesNotMatter(ps: seq<Piece>, pairs: seq<(string, string)>, others: seq<(string, string)>)
    requires ProperTemplate(ps) && DistinctKeys(pairs) && DistinctKeys(others)
    requires forall i :: 0 <= i < |pairs| ==> FreeOfClose(pairs[i].0) && Inert(pairs[i].1)
    requires multiset(pairs) == multiset(others)
    ensures InjectAll(Render(ps), pairs) == InjectAll(Render(ps), others)
  {
    hide FreeOfClose, Inert, ProperTemplate, Render, InjectAll;
    assert forall x :: x in pairs <==> x in multiset(pairs);
    assert forall x :: x in others <==> x in multiset(others);
    assert forall i :: 0 <= i < |others| ==> others[i] in pairs;
    SameFirstWins(pairs, others);
    OrderDoesNotMatter(ps, pairs, others);
  }

  lemma SameFirstWins(pairs: seq<(string, string)>, others: seq<(string, string)>)
    requires DistinctKeys(pairs) && DistinctKeys(others)
    requires forall x :: x in pairs <==> x in others
    ensures FirstWins(pairs) == FirstWins(others)
  {
    FirstWinsHolds(pairs);
    FirstWinsHolds(others);
    hide FirstWins, DistinctKeys;
    forall k ensures (k in FirstWins(pairs) <==> k in FirstWins(others))
                  && (k in FirstWins(pairs) ==> FirstWins(pairs)[k] == FirstWins(others)[k]) {
      if k in FirstWins(pairs) {
        var i :| 0 <= i < |pairs| && pairs[i].0 == k;
        assert pairs[i] in others;
      }
      if k in FirstWins(others) {
        var i :| 0 <= i < |others| && others[i].0 == k;
        assert others[i] in pairs;
      }
    }
  }

  /**
  Where a value is not inert the order does matter: a value that is itself a marker is filled again by a
  later key, but not by an earlier one.
  */
  lemma OrderMattersForMarkers(key: string, other: string, value: string)
    requires ProperKey(key) && ProperKey(other) && key != other
    ensures InjectAll(Marker(key), [(key, Marker(other)), (other, value)]) == value
    ensures InjectAll(Marker(key), [(other, value), (key, Marker(other))]) == Marker(other)
  {
    InjectOne(key, key, Marker(other));
    InjectOne(other, other, value);
    InjectOne(key, other, value);
    var first, second := (key, Marker(other)), (other, value);
    assert [first, second][1..] == [second] && [second, first][1..] == [first];
    assert InjectAll(Marker(key), [first, second]) == InjectAll(Marker(other), [second]) == InjectAll(value, []);
    assert InjectAll(Marker(key), [second, first]) == InjectAll(Marker(key), [first]) == InjectAll(Marker(other), []);
  }

  // ---------- inert values are needed ----------

  /** Whatever the template and the pair that comes next, the value is injected as if both were at once. */
  ghost predicate InjectsAtOnce(key: string, value: string) {
    forall ps, other, text :: ProperTemplate(ps) && FreeOfClose(other) && Inert(text) ==>
      InjectAll(Render(ps), [(key, value), (other, text)])
      == Render(Substitute(ps, FirstWins([(key, value), (other, text)])))
  }

  lemma {:induction false} ErasingShortens(s: string, m: string)
    requires m != ""
    ensures |ReplaceAll(Literal(m), s, "")| <= |s|
    ensures Contains(s, m) ==> |ReplaceAll(Literal(m), s, "")| < |s|
    decreases |s|
  {
    hide ReplaceAll, At, Find;
    ReplaceRound(s, m, "");
    GapHasNone(s, m);
    if Find(s, m, 0).Some? {
      var k := Find(s, m, 0).value;
      ReplaceRoundAt(s, m, "", k);
      ErasingShortens(s[k + |m|..], m);
    }
  }

  lemma NoAngleIsInert(s: string)
    requires FreeOf(s, {'<'})
    ensures Inert(s)
  {
    forall j | 0 <= j < |s| ensures !(OPEN <= s[j..]) && !(s[j..] <= OPEN) {
      assert s[j..][0] == s[j] != '<';
    }
  }

  /** A template in which the value, with the text `t` behind it, brings out a marker. */
  lemma BringsOutMarker(key: string, value: string, t: string, other: string)
    requires ProperKey(key) && FreeOfClose(other) && Inert(t) && Contains(value + t, Marker(other))
    ensures !InjectsAtOnce(key, value)
  {
    var ps, pairs := [Hole(key), Plain(t)], [(key, value), (other, "")];
    InjectTwice(key, value, t, other);
    NoAngleIsInert("");
    hide ReplaceAll, ProperKey, Inert, FreeOfClose, Contains, InjectAll, Render, Substitute, FirstWins, Marker;
    assert ProperPiece(ps[0]) && ProperPiece(ps[1]);
    assert ProperTemplate(ps);
  }

  lemma InjectTwice(key: string, value: string, t: string, other: string)
    requires ProperKey(key) && FreeOfClose(other) && Inert(t) && Contains(value + t, Marker(other))
    ensures var ps, pairs := [Hole(key), Plain(t)], [(key, value), (other, "")];
            InjectAll(Render(ps), pairs) != Render(Substitute(ps, FirstWins(pairs)))
  {
    var ps, pairs := [Hole(key), Plain(t)], [(key, value), (other, "")];
    assert ProperPiece(ps[0]) && ProperPiece(ps[1]);
    InjectSubstitutes(ps, key, value);
    FilledOnce(key, value, t, map[key := value]);
    assert pairs[1..] == [(other, "")] && pairs[1..][1..] == [];
    FilledOnce(key, value, t, FirstWins(pairs));
    hide Render, Substitute, FirstWins, ReplaceAll, Contains, Marker, ProperTemplate;
    assert InjectAll(Render(ps), pairs) == InjectAll(value + t, pairs[1..]) == Inject(value + t, other, "");
    ErasingShortens(value + t, Marker(other));
  }

  lemma FilledOnce(key: string, value: string, t: string, env: map<string, string>)
    requires key in env && env[key] == value
    ensures Render(Substitute([Hole(key), Plain(t)], env)) == value + t
  {
    var ps := [Hole(key), Plain(t)];
    assert ps[1..] == [Plain(t)] && ps[1..][1..] == [];
    var qs := Substitute(ps, env);
    assert Substitute(ps[1..], env) == [Plain(t)] + [] == [Plain(t)];
    assert qs == [Plain(value), Plain(t)] && qs[1..] == [Plain(t)] && qs[1..][1..] == [];
    assert Render(qs[1..]) == t + "" == t;
  }

  /** A value that holds an opening: its marker is closed inside the value, or by the text behind it. */
  lemma OpenIsNotInert(key: string, value: string, j: nat)
    requires ProperKey(key) && j < |value| && OPEN <= value[j..]
    ensures !InjectsAtOnce(key, value)
  {
    hide InjectsAtOnce, ProperKey, Inert;
    var c := value[j + |OPEN|..];
    var end := Find(c, CLOSE, 0);
    NothingEarlier(c, CLOSE, 0);
    hide Find;
    var other := if end.Some? then c[..end.value] else c;
    var t := if end.Some? then "" else CLOSE;
    var rest := if end.Some? then c[end.value..] else "";
    assert c == other + rest;
    forall i | 0 <= i ensures !At(other, i, CLOSE) {
      if At(other, i, CLOSE) {
        AtFits(other, i, CLOSE);
        AtInFront(other, rest, i, CLOSE);
      }
    }
    NoAngleIsInert(t);
    MarkerStands(value, t, j, other, end);
    BringsOutMarker(key, value, t, other);
  }

  lemma MarkerStands(value: string, t: string, j: nat, other: string, end: Option<nat>)
    requires j < |value| && OPEN <= value[j..]
    requires var c := value[j + |OPEN|..];
             match end
             case Some(k) => At(c, k, CLOSE) && other == c[..k]
             case None => other == c && t == CLOSE
    ensures Contains(value + t, Marker(other))
  {
    var x, c := value[..j], value[j + |OPEN|..];
    OpenCut(value, j);
    if end.Some? {
      CutAt(c, CLOSE, end.value);
      var rest := c[end.value + |CLOSE|..];
      Grouped(x, OPEN, other, CLOSE, rest, t);
      StandsAt(x, Marker(other), rest + t);
    } else {
      AllInFront(x, OPEN, other, CLOSE);
      StandsAt(x, Marker(other), "");
    }
  }

  lemma OpenCut(value: string, j: nat)
    requires j < |value| && OPEN <= value[j..]
    ensures j + |OPEN| <= |value| && value == value[..j] + (OPEN + value[j + |OPEN|..])
  {
    assert value == value[..j] + value[j..] && value[j..] == OPEN + value[j..][|OPEN|..];
  }

  lemma Grouped(x: string, a: string, o: string, c: string, r: string, t: string)
    ensures x + (a + (o + c + r)) + t == x + (a + o + c) + (r + t)
  {}

  lemma AllInFront(x: string, a: string, o: string, c: string)
    ensures x + (a + o) + c == x + (a + o + c) + ""
  {}

  lemma StandsAt(x: string, m: string, y: string)
    ensures Contains(x + m + y, m)
  {
    assert (x + m + y)[|x|..|x| + |m|] == m;
    assert At(x + m + y, |x|, m);
  }

  /** A value that ends in the beginning of an opening, which the text behind it completes. */
  lemma LooseEndIsNotInert(key: string, value: string, j: nat)
    requires ProperKey(key) && j < |value| && value[j..] <= OPEN
    ensures !InjectsAtOnce(key, value)
  {
    hide InjectsAtOnce, ProperKey, Inert, FreeOfClose, FreeOf;
    var other, k := "x", |value| - j;
    var t := OPEN[k..] + other + CLOSE;
    RestHasNoAngle(k);
    NoAngleIsInert(t);
    Completed(value, j, other);
    StandsAt(value[..j], Marker(other), "");
    BringsOutMarker(key, value, t, other);
  }

  lemma Completed(value: string, j: nat, other: string)
    requires j < |value| && value[j..] <= OPEN
    ensures value + (OPEN[|value| - j..] + other + CLOSE) == value[..j] + Marker(other) + ""
  {
    var k := |value| - j;
    assert value == value[..j] + value[j..] && OPEN == value[j..] + OPEN[k..];
    Reassociate(value[..j], value[j..], OPEN[k..], other, CLOSE);
  }

  lemma Reassociate(x: string, u: string, v: string, o: string, c: string)
    ensures x + u + (v + o + c) == x + (u + v + o + c) + ""
  {}

  lemma RestHasNoAngle(k: nat)
    requires 1 <= k <= |OPEN|
    ensures FreeOf(OPEN[k..] + "x" + CLOSE, {'<'}) && FreeOfClose("x")
  {
    assert forall i :: 0 <= i < |OPEN| - k ==> OPEN[k..][i] == OPEN[k + i] != '<';
  }

  /** Injecting key by key is injecting at once, in every template and before every pair, exactly for inert values. */
  lemma InertIff(key: string, value: string)
    requires ProperKey(key)
    ensures InjectsAtOnce(key, value) <==> Inert(value)
  {
    if Inert(value) {
      forall ps, other, text | ProperTemplate(ps) && FreeOfClose(other) && Inert(text)
        ensures InjectAll(Render(ps), [(key, value), (other, text)])
             == Render(Substitute(ps, FirstWins([(key, value), (other, text)])))
      {
        InjectAllSubstitutes(ps, [(key, value), (other, text)]);
      }
    } else {
      var j :| 0 <= j < |value| && (OPEN <= value[j..] || value[j..] <= OPEN);
      if OPEN <= value[j..] { OpenIsNotInert(key, value, j); } else { LooseEndIsNotInert(key, value, j); }
    }
  }

  lemma InjectOne(hole: string, key: string, value: string)
    requires ProperKey(hole) && FreeOfClose(key)
    ensures Inject(Marker(hole), key, value) == if hole == key then value else Marker(hole)
  {
    InjectSubstitutes([Hole(hole)], key, value);
    assert [Hole(hole)][1..] == [];
    assert Render([Hole(hole)]) == Marker(hole) + "" == Marker(hole);
    var p := Fill(Hole(hole), map[key := value]);
    assert Substitute([Hole(hole)], map[key := value]) == [p] && [p][1..] == [];
    assert Render([p]) == RenderPiece(p) + "" == RenderPiece(p);
  }

  // ---------- equalities ----------

  predicate IsNumeral(s: string) {
    s != "" && SpanIn(s, DIGITS) == |s|
  }

  /** The regular expression of `equalityInject`: a marker whose key is `before` and a numeral. */
  function NumeralMarker(before: string): Pattern { Digits(OPEN + before, CLOSE) }

  function EqualityInject(html: string, value: string, prefix: string, replacement: string): string {
    var before := prefix + " == ";
    ReplaceAll(NumeralMarker(before), Inject(html, before + value, replacement), "")
  }

  /** The hole for the value that holds is filled, those for other numerals are erased. */
  function Decide(p: Piece, value: string, before: string, replacement: string): Piece {
    if p.Plain? then p
    else if p.key == before + value then Plain(replacement)
    else if before <= p.key && IsNumeral(p.key[|before|..]) then Plain("")
    else p
  }

  function DecideAll(ps: seq<Piece>, value: string, before: string, replacement: string): seq<Piece> {
    if ps == [] then [] else [Decide(ps[0], value, before, replacement)] + DecideAll(ps[1..], value, before, replacement)
  }

  /** The template, the replacement and the two keys are such that no marker comes about by accident. */
  ghost predicate Decidable(ps: seq<Piece>, value: string, prefix: string, replacement: string) {
    && ProperTemplate(ps) && Inert(replacement)
    && FreeOfClose(prefix + " == ") && FreeOfClose(prefix + " == " + value)
  }

  /** A numeral behind a text brings no closing with it. */
  lemma NumeralHasNoClose(before: string, digits: string)
    requires FreeOfClose(before) && (forall i :: 0 <= i < |digits| ==> digits[i] in DIGITS)
    ensures FreeOfClose(before + digits)
  {
    forall j | 0 <= j ensures !At(before + digits, j, CLOSE) {
      if At(before + digits, j, CLOSE) {
        var n := |CLOSE|;
        assert (before + digits)[j..j + n][n - 1] == '>';
        assert (before + digits)[j + n - 1] == '>' && '>' !in DIGITS;
        assert j + n <= |before|;
        AtInFront(before, digits, j, CLOSE);
      }
    }
  }

  /** A match of the pattern names the key of the hole: it is the prefix and the digits. */
  lemma NumeralMatch(before: string, k: string, t: string)
    requires FreeOfClose(before) && FreeOfClose(k) && MatchEnd(NumeralMarker(before), Marker(k) + t, 0).Some?
    ensures before <= k && IsNumeral(k[|before|..])
    ensures MatchEnd(NumeralMarker(before), Marker(k) + t, 0) == Some(|Marker(k)|)
  {
    var digits := NumeralShape(before, Marker(k) + t);
    NumeralHasNoClose(before, digits);
    hide MatchEnd, At;
    MarkersDiffer(before + digits, k, t);
    assert k[|before|..] == digits;
    SpanInIs(digits, DIGITS, |digits|);
  }

  /** What a match of the pattern at the start of a text looks like. */
  lemma NumeralShape(before: string, s: string) returns (digits: string)
    requires MatchEnd(NumeralMarker(before), s, 0).Some?
    ensures digits != "" && forall i :: 0 <= i < |digits| ==> digits[i] in DIGITS
    ensures At(s, 0, Marker(before + digits))
    ensures MatchEnd(NumeralMarker(before), s, 0) == Some(|Marker(before + digits)|)
  {
    var i := |OPEN + before|;
    var n := SpanIn(s[i..], DIGITS);
    digits := s[i..][..n];
    AtThree(s, OPEN + before, digits, CLOSE);
  }

  lemma AtThree(s: string, x: string, y: string, z: string)
    requires At(s, 0, x) && At(s, |x|, y) && At(s, |x| + |y|, z)
    ensures At(s, 0, x + y + z)
  {
    var n := |x| + |y| + |z|;
    assert s[0..n] == s[0..|x|] + s[|x|..|x| + |y|] + s[|x| + |y|..n];
  }

  lemma NumeralFound(before: string, k: string, t: string)
    requires before <= k && IsNumeral(k[|before|..])
    ensures MatchEnd(NumeralMarker(before), Marker(k) + t, 0) == Some(|Marker(k)|)
  {
    var s := Marker(k) + t;
    var i, digits := |OPEN + before|, k[|before|..];
    assert k == before + digits;
    assert s == OPEN + before + (digits + (CLOSE + t));
    assert s[0..i] == OPEN + before;
    assert s[i..] == digits + (CLOSE + t);
    SpanInIs(s[i..], DIGITS, |digits|);
    assert s[i + |digits|..i + |digits| + |CLOSE|] == CLOSE;
  }

  lemma HoleOfNumeral(before: string, k: string)
    requires FreeOfClose(before) && FreeOfClose(k)
    ensures WholeHole(NumeralMarker(before), k, before <= k && IsNumeral(k[|before|..]))
  {
    var hit := before <= k && IsNumeral(k[|before|..]);
    forall t: string
      ensures MatchEnd(NumeralMarker(before), Marker(k) + t, 0) == if hit then Some(|Marker(k)|) else None
    {
      if MatchEnd(NumeralMarker(before), Marker(k) + t, 0).Some? { NumeralMatch(before, k, t); }
      if hit { NumeralFound(before, k, t); }
    }
  }

  /** The second step of `equalityInject` erases the holes for numerals, and nothing else. */
  lemma {:induction false} ErasesNumerals(ps: seq<Piece>, before: string)
    requires ProperTemplate(ps) && FreeOfClose(before)
    ensures ReplaceAll(NumeralMarker(before), Render(ps), "") == Render(Erased(ps, before))
    decreases |ps|
  {
    var p := NumeralMarker(before);
    assert Proper(p) && OpensLikeMarker(p);
    if ps == [] {
      EmptyText(p, "");
    } else {
      ErasesNumerals(ps[1..], before);
      var hit := ps[0].Hole? && before <= ps[0].key && IsNumeral(ps[0].key[|before|..]);
      if ps[0].Hole? { HoleOfNumeral(before, ps[0].key); }
      ReplaceInPiece(p, ps[0], Render(ps[1..]), "", hit);
    }
  }

  function Erased(ps: seq<Piece>, before: string): seq<Piece> {
    if ps == [] then [] else
      [if ps[0].Hole? && before <= ps[0].key && IsNumeral(ps[0].key[|before|..]) then Plain("") else ps[0]]
      + Erased(ps[1..], before)
  }

  lemma {:induction false} FillThenErase(ps: seq<Piece>, value: string, before: string, replacement: string)
    ensures Erased(Substitute(ps, map[before + value := replacement]), before)
         == DecideAll(ps, value, before, replacement)
    decreases |ps|
  {
    if ps != [] { FillThenErase(ps[1..], value, before, replacement); }
  }

  /**
  `equalityInject` turns every hole `prefix == value` into the replacement, erases every other hole
  `prefix == numeral`, and leaves all other holes and all text as they are.
  */
  lemma EqualityInjectDecides(ps: seq<Piece>, value: string, prefix: string, replacement: string)
    requires Decidable(ps, value, prefix, replacement)
    ensures EqualityInject(Render(ps), value, prefix, replacement)
         == Render(DecideAll(ps, value, prefix + " == ", replacement))
  {
    var before := prefix + " == ";
    InjectSubstitutes(ps, before + value, replacement);
    var filled := Substitute(ps, map[before + value := replacement]);
    SubstituteProper(ps, map[before + value := replacement]);
    ErasesNumerals(filled, before);
    FillThenErase(ps, value, before, replacement);
  }

  // ---------- pages without angles but those of one hole ----------

  lemma NoAngleKeyIsProper(key: string)
    requires FreeOf(key, {'<', '>'})
    ensures ProperKey(key)
  {
    forall j | 0 <= j ensures !At(key, j, CLOSE) {
      if At(key, j, CLOSE) { ClosesWithAngle(key, j); }
    }
    forall j | 0 <= j ensures !At(key + CLOSE, j, OPEN) {
      if At(key + CLOSE, j, OPEN) { OpensWithAngle(key + CLOSE, j); }
    }
  }

  lemma ClosesWithAngle(s: string, j: nat)
    requires At(s, j, CLOSE)
    ensures j + 3 < |s| && s[j + 3] == '>'
  {
    assert s[j + 3] == s[j..j + |CLOSE|][3];
  }

  function ThreePieces(x: string, key: string, y: string): seq<Piece> { [Plain(x), Hole(key), Plain(y)] }

  lemma RenderThree(x: string, p: Piece, y: string)
    ensures Render([Plain(x), p, Plain(y)]) == x + RenderPiece(p) + y
  {
    var ps := [Plain(x), p, Plain(y)];
    assert ps[1..] == [p, Plain(y)] && ps[1..][1..] == [Plain(y)] && ps[1..][1..][1..] == [];
    assert Render([Plain(y)]) == y + "" == y;
    assert Render([p, Plain(y)]) == RenderPiece(p) + y;
    assert x + (RenderPiece(p) + y) == x + RenderPiece(p) + y;
  }

  lemma ThreeProper(x: string, key: string, y: string)
    requires FreeOf(x, {'<'}) && FreeOf(y, {'<'}) && FreeOf(key, {'<', '>'})
    ensures ProperTemplate(ThreePieces(x, key, y)) && FreeOfClose(key)
    ensures Render(ThreePieces(x, key, y)) == x + ("<!-- " + key + " -->") + y
  {
    NoAngleIsInert(x);
    NoAngleIsInert(y);
    NoAngleKeyIsProper(key);
    RenderThree(x, Hole(key), y);
    hide Inert, Render;
  }

  /** A marker is the key between `<!-- ` and ` -->`; injecting its key puts the value there, another key nothing. */
  lemma OneHole(x: string, key: string, y: string, other: string, value: string)
    requires FreeOf(x, {'<'}) && FreeOf(y, {'<'}) && FreeOf(key, {'<', '>'}) && FreeOf(other, {'<', '>'})
    ensures Inject(x + ("<!-- " + key + " -->") + y, other, value)
         == if other == key then x + value + y else x + ("<!-- " + key + " -->") + y
  {
    var ps := ThreePieces(x, key, y);
    ThreeProper(x, key, y);
    NoAngleKeyIsProper(other);
    InjectSubstitutes(ps, other, value);
    SubstituteThree(x, key, y, map[other := value]);
    hide Render, ProperTemplate, Inject, Substitute, FreeOf;
    RenderThree(x, Plain(value), y);
  }

  lemma SubstituteThree(x: string, key: string, y: string, env: map<string, string>)
    ensures Substitute(ThreePieces(x, key, y), env)
         == [Plain(x), if key in env then Plain(env[key]) else Hole(key), Plain(y)]
  {
    var p := if key in env then Plain(env[key]) else Hole(key);
    var ps := ThreePieces(x, key, y);
    assert ps[1..] == [Hole(key), Plain(y)] && ps[1..][1..] == [Plain(y)] && ps[1..][1..][1..] == [];
    assert Substitute([Plain(y)], env) == [Plain(y)] + [];
    assert Substitute([Hole(key), Plain(y)], env) == [p] + [Plain(y)];
  }

  predicate IsDecimal(s: string) {
    s != "" && forall i :: 0 <= i < |s| ==> '0' <= s[i] <= '9'
  }

  lemma NumeralIsDecimal(s: string)
    ensures IsNumeral(s) <==> IsDecimal(s)
  {
    if IsDecimal(s) { SpanInIs(s, DIGITS, |s|); }
  }

  /** One hole: it is filled if it names the value, erased if it names another number, and left otherwise. */
  lemma OneEquality(x: string, key: string, y: string, prefix: string, value: string, replacement: string)
    requires FreeOf(x, {'<'}) && FreeOf(y, {'<'}) && FreeOf(key, {'<', '>'})
    requires FreeOf(prefix, {'<', '>'}) && FreeOf(value, {'<', '>'}) && FreeOf(replacement, {'<'})
    ensures EqualityInject(x + ("<!-- " + key + " -->") + y, value, prefix, replacement)
         == if key == prefix + " == " + value then x + replacement + y
            else if prefix + " == " <= key && IsDecimal(key[|prefix + " == "|..]) then x + "" + y
            else x + ("<!-- " + key + " -->") + y
  {
    var ps, before := ThreePieces(x, key, y), prefix + " == ";
    ThreeProper(x, key, y);
    assert FreeOf(before, {'<', '>'}) && FreeOf(before + value, {'<', '>'});
    NoAngleKeyIsProper(before);
    NoAngleKeyIsProper(before + value);
    NoAngleIsInert(replacement);
    hide Render, ProperTemplate, FreeOf, EqualityInject, Inert, FreeOfClose, IsDecimal, IsNumeral;
    EqualityInjectDecides(ps, value, prefix, replacement);
    DecideThree(x, key, y, value, before, replacement);
    if before <= key { NumeralIsDecimal(key[|before|..]); }
    RenderThree(x, Decide(Hole(key), value, before, replacement), y);
  }

  lemma DecideThree(x: string, key: string, y: string, value: string, before: string, replacement: string)
    ensures DecideAll(ThreePieces(x, key, y), value, before, replacement)
         == [Plain(x), Decide(Hole(key), value, before, replacement), Plain(y)]
  {
    var p := Decide(Hole(key), value, before, replacement);
    var ps := ThreePieces(x, key, y);
    assert ps[1..] == [Hole(key), Plain(y)] && ps[1..][1..] == [Plain(y)] && ps[1..][1..][1..] == [];
    hide Decide;
    assert Decide(Plain(y), value, before, replacement) == Plain(y) by { DecidePlain(y, value, before, replacement); }
    DecidePlain(x, value, before, replacement);
    assert DecideAll([Plain(y)], value, before, replacement) == [Plain(y)] + [];
    assert DecideAll([Hole(key), Plain(y)], value, before, replacement) == [p] + [Plain(y)];
  }

  lemma DecidePlain(x: string, value: string, before: string, replacement: string)
    ensures Decide(Plain(x), value, before, replacement) == Plain(x)
  {}
}
