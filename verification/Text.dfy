/**
The parts of `std::string`, `boost::algorithm` and `std::regex` that the server uses:
searching, splitting, and replacing every match of a pattern from left to right.
 */
module Text {
  import opened Wrappers

  const DIGITS: set<char> := {'0', '1', '2', '3', '4', '5', '6', '7', '8', '9'}

  // ---------- runs of characters ----------

  /** The length of the longest prefix of `s` made of characters in `chars`. */
  function SpanIn(s: string, chars: set<char>): (n: nat)
    ensures n <= |s|
    ensures forall i :: 0 <= i < n ==> s[i] in chars
    ensures n < |s| ==> s[n] !in chars
  {
    if s == "" || s[0] !in chars then 0 else 1 + SpanIn(s[1..], chars)
  }

  /** The length of the longest prefix of `s` free of characters in `chars`. */
  function SpanOut(s: string, chars: set<char>): (n: nat)
    ensures n <= |s|
    ensures forall i :: 0 <= i < n ==> s[i] !in chars
    ensures n < |s| ==> s[n] in chars
  {
    if s == "" || s[0] in chars then 0 else 1 + SpanOut(s[1..], chars)
  }

  /** A span is determined by where it stops. */
  lemma SpanInIs(s: string, chars: set<char>, n: nat)
    requires n <= |s| && (forall i :: 0 <= i < n ==> s[i] in chars)
    requires n < |s| ==> s[n] !in chars
    ensures SpanIn(s, chars) == n
  {}

  lemma SpanOutIs(s: string, chars: set<char>, n: nat)
    requires n <= |s| && (forall i :: 0 <= i < n ==> s[i] !in chars)
    requires n < |s| ==> s[n] in chars
    ensures SpanOut(s, chars) == n
  {}

  ghost predicate FreeOf(s: string, chars: set<char>) {
    forall i :: 0 <= i < |s| ==> s[i] !in chars
  }

  // ---------- patterns ----------

  /** The text `m` stands at position `i` of `s`. */
  predicate At(s: string, i: nat, m: string) {
    i + |m| <= |s| && s[i..i + |m|] == m
  }

  /** A literal text, or the regular expression `before \d+ after`. */
  datatype Pattern = Literal(text: string) | Digits(before: string, after: string)

  /** A pattern that matches no empty text, and whose digits end where the text stops being digits. */
  predicate Proper(p: Pattern) {
    match p
    case Literal(text) => text != ""
    case Digits(_, after) => after != "" && after[0] !in DIGITS
  }

  /** Where the match of `p` that begins at position `i` of `s` ends, if there is one. */
  function MatchEnd(p: Pattern, s: string, i: nat): (r: Option<nat>)
    ensures r.Some? ==> i <= r.value <= |s|
    ensures r.Some? && Proper(p) ==> i < r.value
  {
    match p
    case Literal(text) => if At(s, i, text) then Some(i + |text|) else None
    case Digits(before, after) =>
      if At(s, i, before) then
        var j := i + |before|;
        var n := SpanIn(s[j..], DIGITS);
        if 0 < n && At(s, j + n, after) then Some(j + n + |after|) else None
      else None
  }

  lemma AtChar(s: string, i: nat, c: char)
    ensures At(s, i, [c]) <==> i < |s| && s[i] == c
  {
    if i < |s| { assert s[i..i + 1] == [s[i]]; }
  }

  lemma AtFits(x: string, i: nat, m: string)
    requires At(x, i, m)
    ensures i + |m| <= |x|
  {}

  lemma AtInFront(x: string, y: string, i: nat, m: string)
    requires i + |m| <= |x|
    ensures At(x + y, i, m) == At(x, i, m)
  {
    assert (x + y)[i..i + |m|] == x[i..i + |m|];
  }

  lemma AtBehind(x: string, y: string, i: nat, m: string)
    ensures At(x + y, |x| + i, m) == At(y, i, m)
  {
    if i + |m| <= |y| { assert (x + y)[|x| + i..|x| + i + |m|] == y[i..i + |m|]; }
  }

  /** The digits from position `j` on, when `x` holds a character behind the last one. */
  lemma DigitsInFront(x: string, y: string, j: nat, n: nat)
    requires j + n < |x|
    ensures SpanIn(x[j..], DIGITS) == n <==> SpanIn((x + y)[j..], DIGITS) == n
  {
    var t, u := x[j..], (x + y)[j..];
    assert t == u[..|t|];
    if SpanIn(u, DIGITS) == n {
      assert t[n] == u[n];
      SpanInIs(t, DIGITS, n);
    }
  }

  /** A match depends only on the text it covers: more text behind it changes nothing ... */
  lemma MatchExtends(p: Pattern, x: string, y: string, i: nat)
    requires Proper(p) && MatchEnd(p, x, i).Some?
    ensures MatchEnd(p, x + y, i) == MatchEnd(p, x, i)
  {
    hide At;
    match p
    case Literal(text) => AtFits(x, i, text); AtInFront(x, y, i, text);
    case Digits(before, after) =>
      var j := i + |before|;
      var n := SpanIn(x[j..], DIGITS);
      assert At(x + y, i, before) by { AtInFront(x, y, i, before); }
      AtFits(x, j + n, after);
      assert At(x + y, j + n, after) by { AtInFront(x, y, j + n, after); }
      assert SpanIn((x + y)[j..], DIGITS) == n by { DigitsInFront(x, y, j, n); }
  }

  /** ... and neither does cutting the text anywhere behind it. */
  lemma MatchShrinks(p: Pattern, x: string, y: string, i: nat)
    requires Proper(p) && MatchEnd(p, x + y, i).Some? && MatchEnd(p, x + y, i).value <= |x|
    ensures MatchEnd(p, x, i) == MatchEnd(p, x + y, i)
  {
    hide At;
    match p
    case Literal(text) => AtInFront(x, y, i, text);
    case Digits(before, after) =>
      AtInFront(x, y, i, before);
      var j := i + |before|;
      var n := SpanIn((x + y)[j..], DIGITS);
      AtInFront(x, y, j + n, after);
      DigitsInFront(x, y, j, n);
  }

  function Shift(r: Option<nat>, d: nat): Option<nat> {
    if r.Some? then Some(r.value + d) else None
  }

  lemma MatchBehind(p: Pattern, x: string, y: string, i: nat)
    requires i <= |y|
    ensures MatchEnd(p, x + y, |x| + i) == Shift(MatchEnd(p, y, i), |x|)
  {
    hide At;
    match p
    case Literal(text) => AtBehind(x, y, i, text);
    case Digits(before, after) =>
      var j := i + |before|;
      assert At(x + y, |x| + i, before) == At(y, i, before) by { AtBehind(x, y, i, before); }
      if At(y, i, before) {
        AtFits(y, i, before);
        assert (x + y)[|x| + j..] == y[j..];
        var k := j + SpanIn(y[j..], DIGITS);
        assert At(x + y, |x| + k, after) == At(y, k, after) by { AtBehind(x, y, k, after); }
      }
  }

  // ---------- searching ----------

  /** The first position at or after `from` where `p` matches. */
  function FirstMatch(p: Pattern, s: string, from: nat): (r: Option<nat>)
    ensures r.Some? ==> from <= r.value <= |s| && MatchEnd(p, s, r.value).Some?
    decreases |s| - from
  {
    if from > |s| then None
    else if MatchEnd(p, s, from).Some? then Some(from)
    else FirstMatch(p, s, from + 1)
  }

  lemma NoEarlierMatch(p: Pattern, s: string, from: nat)
    ensures var r := FirstMatch(p, s, from);
            forall j :: from <= j < (if r.Some? then r.value else |s| + 1) ==> MatchEnd(p, s, j).None?
    decreases |s| - from
  {
    if from <= |s| && MatchEnd(p, s, from).None? { NoEarlierMatch(p, s, from + 1); }
  }

  /** `s.find(m, from)`, with `None` for `std::string::npos`. */
  function Find(s: string, m: string, from: nat): (r: Option<nat>)
    ensures r.Some? ==> from <= r.value && At(s, r.value, m)
    decreases |s| - from
  {
    if from > |s| then None
    else if At(s, from, m) then Some(from)
    else Find(s, m, from + 1)
  }

  lemma NothingEarlier(s: string, m: string, from: nat)
    ensures var r := Find(s, m, from);
            forall j :: from <= j < (if r.Some? then r.value else |s| + 1) ==> !At(s, j, m)
    decreases |s| - from
  {
    if from <= |s| && !At(s, from, m) { NothingEarlier(s, m, from + 1); }
  }

  ghost predicate Contains(s: string, m: string) {
    exists j: nat :: At(s, j, m)
  }

  /** The first match is the match with no match before it. */
  lemma FirstMatchIs(p: Pattern, s: string, from: nat, k: nat)
    requires from <= k <= |s| && MatchEnd(p, s, k).Some?
    requires forall j :: from <= j < k ==> MatchEnd(p, s, j).None?
    ensures FirstMatch(p, s, from) == Some(k)
    decreases k - from
  {
    if from < k { FirstMatchIs(p, s, from + 1, k); }
  }

  lemma FindIs(s: string, m: string, from: nat, k: nat)
    requires from <= k && At(s, k, m)
    requires forall j :: from <= j < k ==> !At(s, j, m)
    ensures Find(s, m, from) == Some(k)
    decreases k - from
  {
    if from < k { FindIs(s, m, from + 1, k); }
  }

  lemma FindLiteral(s: string, m: string, from: nat)
    ensures FirstMatch(Literal(m), s, from) == Find(s, m, from)
    decreases |s| - from
  {
    if from <= |s| && !At(s, from, m) { FindLiteral(s, m, from + 1); }
  }

  /** Searching from `|x|` in `x + y` is searching `y` from its start. */
  lemma {:induction false} FirstMatchBehind(p: Pattern, x: string, y: string, from: nat)
    ensures FirstMatch(p, x + y, |x| + from) == Shift(FirstMatch(p, y, from), |x|)
    decreases |y| - from
  {
    hide MatchEnd;
    if from <= |y| {
      MatchBehind(p, x, y, from);
      FirstMatchBehind(p, x, y, from + 1);
    }
  }

  lemma FindBehind(done: string, tail: string, marker: string)
    ensures Find(done + tail, marker, |done|) == Shift(Find(tail, marker, 0), |done|)
  {
    FindLiteral(done + tail, marker, |done|);
    FindLiteral(tail, marker, 0);
    FirstMatchBehind(Literal(marker), done, tail, 0);
  }

  lemma FindFirst(x: string, c: char, y: string)
    requires FreeOf(x, {c})
    ensures Find(x + [c] + y, [c], 0) == Some(|x|)
  {
    var s := x + [c] + y;
    forall j | 0 <= j < |x| ensures !At(s, j, [c]) {
      AtChar(s, j, c);
      assert s[j] == x[j];
    }
    AtChar(s, |x|, c);
    FindIs(s, [c], 0, |x|);
  }

  lemma FindNowhere(x: string, c: char)
    requires FreeOf(x, {c})
    ensures Find(x, [c], 0) == None
  {
    if Find(x, [c], 0).Some? { AtChar(x, Find(x, [c], 0).value, c); }
  }

  lemma FreeOfAppend(x: string, y: string, chars: set<char>)
    requires FreeOf(x, chars) && FreeOf(y, chars)
    ensures FreeOf(x + y, chars)
  {}

  // ---------- replacing ----------

  /** Every match of `p`, from left to right and without overlaps, replaced by `r`. */
  function ReplaceAll(p: Pattern, s: string, r: string): string
    requires Proper(p)
    decreases |s|
  {
    match FirstMatch(p, s, 0)
    case None => s
    case Some(k) => s[..k] + r + ReplaceAll(p, s[MatchEnd(p, s, k).value..], r)
  }

  /** No match of `p` in `x + y` begins in `x` and ends in `y`. */
  ghost predicate NoStraddle(p: Pattern, x: string, y: string) {
    forall j :: 0 <= j < |x| && MatchEnd(p, x + y, j).Some? ==> MatchEnd(p, x + y, j).value <= |x|
  }

  /** Where no match crosses the seam, the matches that begin in `x` are those of `x`. */
  lemma MatchesInFront(p: Pattern, x: string, y: string)
    requires Proper(p) && NoStraddle(p, x, y)
    ensures forall j :: 0 <= j < |x| ==> MatchEnd(p, x + y, j) == MatchEnd(p, x, j)
  {
    hide MatchEnd;
    forall j | 0 <= j < |x| ensures MatchEnd(p, x + y, j) == MatchEnd(p, x, j) {
      if MatchEnd(p, x + y, j).Some? { MatchShrinks(p, x, y, j); }
      else if MatchEnd(p, x, j).Some? { MatchExtends(p, x, y, j); }
    }
  }

  /** Without a match in `x`, the first match of `x + y` is that of `y`. */
  lemma {:induction false} FirstMatchSkips(p: Pattern, x: string, y: string, from: nat)
    requires from <= |x|
    requires forall j :: from <= j < |x| ==> MatchEnd(p, x + y, j).None?
    ensures FirstMatch(p, x + y, from) == Shift(FirstMatch(p, y, 0), |x|)
    decreases |x| - from
  {
    hide MatchEnd;
    if from == |x| {
      FirstMatchBehind(p, x, y, 0);
    } else {
      FirstMatchSkips(p, x, y, from + 1);
    }
  }

  lemma ReplaceAfter(p: Pattern, x: string, y: string, r: string)
    requires Proper(p)
    requires forall j :: 0 <= j < |x| ==> MatchEnd(p, x + y, j).None?
    ensures ReplaceAll(p, x + y, r) == x + ReplaceAll(p, y, r)
  {
    hide MatchEnd, FirstMatch;
    FirstMatchSkips(p, x, y, 0);
    if FirstMatch(p, y, 0).Some? {
      var k := FirstMatch(p, y, 0).value;
      MatchBehind(p, x, y, k);
      var e := MatchEnd(p, y, k).value;
      SliceBehind(x, y, k, e);
      Regroup(x, y[..k], r, ReplaceAll(p, y[e..], r));
    }
  }

  lemma SliceBehind(x: string, y: string, k: nat, e: nat)
    requires k <= |y| && e <= |y|
    ensures (x + y)[..|x| + k] == x + y[..k] && (x + y)[|x| + e..] == y[e..]
  {}

  lemma Regroup(a: string, b: string, c: string, d: string)
    ensures a + b + c + d == a + (b + c + d)
  {}

  /** Replacing distributes over a seam that no match crosses. */
  lemma {:induction false} ReplaceSplit(p: Pattern, x: string, y: string, r: string)
    requires Proper(p) && NoStraddle(p, x, y)
    ensures ReplaceAll(p, x + y, r) == ReplaceAll(p, x, r) + ReplaceAll(p, y, r)
    decreases |x|
  {
    hide MatchEnd;
    MatchesInFront(p, x, y);
    NoEarlierMatch(p, x, 0);
    if FirstMatch(p, x, 0).None? {
      ReplaceAfter(p, x, y, r);
    } else {
      var k := FirstMatch(p, x, 0).value;
      var e := MatchEnd(p, x, k).value;
      FirstMatchIs(p, x + y, 0, k);
      assert x[..e] + x[e..] == x;
      assert (x + y)[..k] == x[..k] && (x + y)[e..] == x[e..] + y;
      NoStraddleBehind(p, x[..e], x[e..], y);
      ReplaceSplit(p, x[e..], y, r);
    }
  }

  lemma NoStraddleBehind(p: Pattern, w: string, x: string, y: string)
    requires NoStraddle(p, w + x, y)
    ensures NoStraddle(p, x, y)
  {
    hide MatchEnd;
    assert w + x + y == w + (x + y);
    forall j | 0 <= j < |x| && MatchEnd(p, x + y, j).Some?
      ensures MatchEnd(p, x + y, j).value <= |x|
    {
      MatchBehind(p, w, x + y, j);
    }
  }

  /** The text cut at every occurrence of `m`, from left to right and without overlaps. */
  function Gaps(s: string, m: string): (gaps: seq<string>)
    requires m != ""
    ensures gaps != []
    decreases |s|
  {
    match Find(s, m, 0)
    case None => [s]
    case Some(k) => [s[..k]] + Gaps(s[k + |m|..], m)
  }

  /** The gaps with `m` between them. */
  function Glue(gaps: seq<string>, m: string): string
    requires gaps != []
  {
    if |gaps| == 1 then gaps[0] else gaps[0] + m + Glue(gaps[1..], m)
  }

  /** One round of searching and replacing. */
  lemma ReplaceRound(s: string, m: string, r: string)
    requires m != ""
    ensures ReplaceAll(Literal(m), s, r) ==
            match Find(s, m, 0)
            case None => s
            case Some(k) => s[..k] + r + ReplaceAll(Literal(m), s[k + |m|..], r)
  {
    hide FirstMatch, Find, MatchEnd, At;
    FindLiteral(s, m, 0);
    if Find(s, m, 0).Some? { LiteralEnd(s, m, Find(s, m, 0).value); }
  }

  /** The same at the position of the match. */
  lemma ReplaceRoundAt(s: string, m: string, r: string, k: nat)
    requires m != "" && Find(s, m, 0) == Some(k)
    ensures k + |m| <= |s| && s == s[..k] + m + s[k + |m|..]
    ensures ReplaceAll(Literal(m), s, r) == s[..k] + r + ReplaceAll(Literal(m), s[k + |m|..], r)
  {
    hide Find, ReplaceAll;
    CutAt(s, m, k);
    ReplaceRound(s, m, r);
  }

  lemma LiteralEnd(s: string, m: string, k: nat)
    requires At(s, k, m)
    ensures MatchEnd(Literal(m), s, k) == Some(k + |m|) && k + |m| <= |s|
  {}

  lemma CutAt(s: string, m: string, k: nat)
    requires At(s, k, m)
    ensures k + |m| <= |s| && s == s[..k] + m + s[k + |m|..]
  {
    assert s == s[..k] + s[k..] && s[k..] == m + s[k + |m|..];
  }

  lemma GapHasNone(s: string, m: string)
    requires m != ""
    ensures match Find(s, m, 0)
            case None => !Contains(s, m)
            case Some(k) => k + |m| <= |s| && !Contains(s[..k], m) && s == s[..k] + m + s[k + |m|..]
  {
    NothingEarlier(s, m, 0);
    if Find(s, m, 0).Some? {
      var k := Find(s, m, 0).value;
      CutAt(s, m, k);
      hide Find, At;
      assert s == s[..k] + s[k..];
      forall j: nat ensures !At(s[..k], j, m) {
        if At(s[..k], j, m) {
          AtFits(s[..k], j, m);
          AtInFront(s[..k], s[k..], j, m);
        }
      }
    }
  }

  /** A text `g0 m g1 m ... gn`, with no `m` inside a gap, becomes `g0 r g1 r ... gn`. */
  lemma {:induction false} ReplaceInGaps(s: string, m: string, r: string)
    requires m != ""
    ensures Glue(Gaps(s, m), m) == s
    ensures Glue(Gaps(s, m), r) == ReplaceAll(Literal(m), s, r)
    ensures forall i :: 0 <= i < |Gaps(s, m)| ==> !Contains(Gaps(s, m)[i], m)
    decreases |s|
  {
    ReplaceRound(s, m, r);
    GapHasNone(s, m);
    hide ReplaceAll, Find, At, Contains;
    if Find(s, m, 0).Some? {
      var rest := s[Find(s, m, 0).value + |m|..];
      ReplaceInGaps(rest, m, r);
      assert Gaps(s, m)[1..] == Gaps(rest, m);
    }
  }

  /** With the `m` behind it, a gap holds no `m` that begins earlier. */
  ghost predicate NoneBefore(gap: string, m: string) {
    forall j :: 0 <= j < |gap| ==> !At(gap + m, j, m)
  }

  /** The search goes from left to right: no `m` begins in front of one that is replaced. */
  lemma {:induction false} GapsFromTheLeft(s: string, m: string)
    requires m != ""
    ensures forall i :: 0 <= i < |Gaps(s, m)| - 1 ==> NoneBefore(Gaps(s, m)[i], m)
    decreases |s|
  {
    hide At, Find, NoneBefore;
    if Find(s, m, 0).Some? {
      var k := Find(s, m, 0).value;
      AtFits(s, k, m);
      FirstGap(s, m, k);
      GapsFromTheLeft(s[k + |m|..], m);
      assert Gaps(s, m)[1..] == Gaps(s[k + |m|..], m);
    }
  }

  lemma FirstGap(s: string, m: string, k: nat)
    requires Find(s, m, 0) == Some(k)
    ensures k <= |s| && NoneBefore(s[..k], m)
  {
    AtFits(s, k, m);
    NothingEarlier(s, m, 0);
    CutAt(s, m, k);
    var front, rest := s[..k] + m, s[k + |m|..];
    assert s == front + rest;
    forall j | 0 <= j < k ensures !At(front, j, m) {
      if At(front, j, m) { FitsInFront(front, rest, j, m); }
    }
  }

  lemma FitsInFront(x: string, y: string, j: nat, m: string)
    requires At(x, j, m)
    ensures At(x + y, j, m)
  {
    AtFits(x, j, m);
    AtInFront(x, y, j, m);
  }

  /** No beginning of `m` at the end of `s`. */
  ghost predicate NoLooseEnd(s: string, m: string) {
    forall j :: 0 <= j < |s| ==> !(s[j..] <= m && |s| - j < |m|)
  }

  /**
  No `m` is left, and none appears, when the first character of `m` is not in the replacement and no gap
  in front of an `m` ends in the beginning of another.
  */
  lemma {:induction false} NoneLeft(s: string, m: string, r: string)
    requires m != "" && FreeOf(r, {m[0]})
    requires forall i :: 0 <= i < |Gaps(s, m)| - 1 ==> NoLooseEnd(Gaps(s, m)[i], m)
    ensures !Contains(ReplaceAll(Literal(m), s, r), m)
    decreases |s|
  {
    ReplaceRound(s, m, r);
    GapHasNone(s, m);
    hide ReplaceAll, Find, At, NoLooseEnd;
    if Find(s, m, 0).Some? {
      var k := Find(s, m, 0).value;
      var g, rest := s[..k], s[k + |m|..];
      assert Gaps(s, m)[0] == g && Gaps(s, m)[1..] == Gaps(rest, m);
      assert forall i :: 0 <= i < |Gaps(rest, m)| ==> Gaps(rest, m)[i] == Gaps(s, m)[i + 1];
      NoneLeft(rest, m, r);
      var tail := ReplaceAll(Literal(m), rest, r);
      NoneAtSeams(g, r, tail, m);
    }
  }

  lemma NoneAtSeams(g: string, r: string, tail: string, m: string)
    requires m != "" && FreeOf(r, {m[0]}) && NoLooseEnd(g, m) && !Contains(g, m) && !Contains(tail, m)
    ensures !Contains(g + r + tail, m)
  {
    forall j: nat ensures !At(g + r + tail, j, m) {
      if At(g + r + tail, j, m) { WhereAt(g, r, tail, m, j); }
    }
  }

  /** Where `m` can stand when `r` lacks its first character. */
  lemma WhereAt(g: string, r: string, tail: string, m: string, j: nat)
    requires m != "" && FreeOf(r, {m[0]}) && At(g + r + tail, j, m)
    ensures At(g, j, m)
         || (j < |g| && g[j..] <= m && |g| - j < |m|)
         || (|g| + |r| <= j && At(tail, j - |g| - |r|, m))
  {
    var s := g + r + tail;
    assert s[j] == s[j..j + |m|][0] == m[0];
    if j < |g| {
      assert g + r + tail == g + (r + tail);
      if j + |m| <= |g| {
        AtInFront(g, r + tail, j, m);
      } else {
        assert g[j..] == s[j..j + |m|][..|g| - j];
      }
    } else {
      assert forall i :: 0 <= i < |r| ==> s[|g| + i] == r[i] != m[0];
      assert s[|g| + (j - |g|)] == m[0];
      AtBehind(g + r, tail, j - |g| - |r|, m);
    }
  }

  // ---------- splitting ----------

  /** One more character read: a separator opens a field, any other character joins the last one. */
  function Extend(fields: seq<string>, c: char, seps: set<char>): (r: seq<string>)
    requires |fields| > 0
    ensures |r| > 0
  {
    var n := |fields| - 1;
    if c in seps then fields + [""] else fields[..n] + [fields[n] + [c]]
  }

  /** `boost::split(s, is_any_of(seps))`: every separator cuts, and empty fields are kept. */
  function Split(s: string, seps: set<char>): (fields: seq<string>)
    ensures |fields| > 0
  {
    if s == "" then [""] else Extend(Split(s[..|s| - 1], seps), s[|s| - 1], seps)
  }

  lemma SplitSnoc(s: string, c: char, seps: set<char>)
    ensures Split(s + [c], seps) == Extend(Split(s, seps), c, seps)
  {
    assert (s + [c])[..|s|] == s;
  }

  /** The fields of a text with no separator in it. */
  lemma SplitFree(s: string, seps: set<char>)
    requires FreeOf(s, seps)
    ensures Split(s, seps) == [s]
  {
    if s != "" {
      assert s == s[..|s| - 1] + [s[|s| - 1]];
      assert s[|s| - 1] !in seps;
      SplitFree(s[..|s| - 1], seps);
    }
  }

  /** A separator cuts the text in two independent halves. */
  lemma {:induction false} SplitAt(x: string, c: char, y: string, seps: set<char>)
    requires c in seps
    ensures Split(x + [c] + y, seps) == Split(x, seps) + Split(y, seps)
    decreases |y|
  {
    if y == "" {
      assert x + [c] + y == x + [c];
      SplitSnoc(x, c, seps);
    } else {
      var y', d := y[..|y| - 1], y[|y| - 1];
      SplitAt(x, c, y', seps);
      assert x + [c] + y == x + [c] + y' + [d] && y == y' + [d];
      SplitSnoc(x + [c] + y', d, seps);
      SplitSnoc(y', d, seps);
      ExtendBehind(Split(x, seps), Split(y', seps), d, seps);
    }
  }

  lemma ExtendBehind(f: seq<string>, g: seq<string>, c: char, seps: set<char>)
    requires |g| > 0
    ensures Extend(f + g, c, seps) == f + Extend(g, c, seps)
  {
    assert (f + g)[..|f| + |g| - 1] == f + g[..|g| - 1];
  }

  /** The fields joined by one separator. */
  function Join(fields: seq<string>, sep: string): string {
    if |fields| == 0 then ""
    else if |fields| == 1 then fields[0]
    else Join(fields[..|fields| - 1], sep) + sep + fields[|fields| - 1]
  }

  /** Where the piece at position `k` begins when pieces are joined by a separator of one character. */
  function Offset(pieces: seq<string>, k: nat): nat
    requires k <= |pieces|
  {
    if k == 0 then 0 else Offset(pieces, k - 1) + |pieces[k - 1]| + 1
  }

  /** The text is the pieces, one separator between each two of them, and nothing else. */
  ghost predicate IsJoined(text: string, pieces: seq<string>, c: char) {
    && |text| == (if pieces == [] then 0 else Offset(pieces, |pieces|) - 1)
    && (forall k :: 0 <= k < |pieces| ==> Stands(text, Offset(pieces, k), pieces[k]))
    && (forall k :: 0 < k < |pieces| ==> StandsAlone(text, Offset(pieces, k) - 1, c))
  }

  ghost predicate Stands(text: string, i: nat, piece: string) {
    i + |piece| <= |text| && text[i..i + |piece|] == piece
  }

  ghost predicate StandsAlone(text: string, i: int, c: char) {
    0 <= i < |text| && text[i] == c
  }

  lemma {:induction false} OffsetInFront(pieces: seq<string>, last: string, k: nat)
    requires k <= |pieces|
    ensures Offset(pieces + [last], k) == Offset(pieces, k)
  {
    if k > 0 {
      OffsetInFront(pieces, last, k - 1);
      assert (pieces + [last])[k - 1] == pieces[k - 1];
    }
  }

  lemma StandsInFront(text: string, more: string, i: nat, piece: string)
    requires Stands(text, i, piece)
    ensures Stands(text + more, i, piece)
  {
    assert (text + more)[i..i + |piece|] == text[i..i + |piece|];
  }

  lemma StandsBehind(text: string, piece: string)
    ensures Stands(text + piece, |text|, piece)
  {
    assert (text + piece)[|text|..|text| + |piece|] == piece;
  }

  lemma JoinedMore(text: string, pieces: seq<string>, piece: string, c: char)
    requires pieces != [] && IsJoined(text, pieces, c)
    ensures IsJoined(text + [c] + piece, pieces + [piece], c)
  {
    hide Stands, StandsAlone, Offset;
    var n, t, all := |pieces|, text + [c] + piece, pieces + [piece];
    LastOffset(pieces, piece);
    forall k | 0 <= k < |all| ensures Stands(t, Offset(all, k), all[k]) {
      OffsetInFront(pieces, piece, if k < n then k else n);
      PieceStands(text, pieces, piece, c, k);
    }
    forall k | 0 < k < |all| ensures StandsAlone(t, Offset(all, k) - 1, c) {
      OffsetInFront(pieces, piece, k);
      SeparatorStands(text, if k < n then Offset(pieces, k) - 1 else |text|, c, piece);
    }
  }

  lemma LastOffset(pieces: seq<string>, piece: string)
    ensures Offset(pieces + [piece], |pieces|) == Offset(pieces, |pieces|)
    ensures Offset(pieces + [piece], |pieces| + 1) == Offset(pieces, |pieces|) + |piece| + 1
    ensures pieces != [] ==> Offset(pieces, |pieces|) > 0
  {
    OffsetInFront(pieces, piece, |pieces|);
  }

  lemma PieceStands(text: string, pieces: seq<string>, piece: string, c: char, k: nat)
    requires k <= |pieces| && Offset(pieces, |pieces|) == |text| + 1
    requires forall i :: 0 <= i < |pieces| ==> Stands(text, Offset(pieces, i), pieces[i])
    ensures Stands(text + [c] + piece, Offset(pieces, k), (pieces + [piece])[k])
  {
    hide Stands, Offset;
    if k < |pieces| {
      assert text + [c] + piece == text + ([c] + piece);
      StandsInFront(text, [c] + piece, Offset(pieces, k), pieces[k]);
    } else {
      StandsBehind(text + [c], piece);
    }
  }

  lemma SeparatorStands(text: string, i: int, c: char, piece: string)
    requires i == |text| || StandsAlone(text, i, c)
    ensures StandsAlone(text + [c] + piece, i, c)
  {}

  /** Joining puts every piece in its place. */
  lemma {:induction false} JoinIsJoined(pieces: seq<string>, c: char)
    ensures IsJoined(Join(pieces, [c]), pieces, c)
    decreases |pieces|
  {
    if |pieces| == 1 {
      assert Offset(pieces, 0) == 0 && Offset(pieces, 1) == |pieces[0]| + 1;
      assert Stands(pieces[0], 0, pieces[0]);
    } else if |pieces| > 1 {
      var n := |pieces| - 1;
      JoinIsJoined(pieces[..n], c);
      hide IsJoined;
      JoinedMore(Join(pieces[..n], [c]), pieces[..n], pieces[n], c);
      assert pieces[..n] + [pieces[n]] == pieces;
    }
  }
}
