/**
What the reverse proxy's four searches make of a page: every link to the root of the other server becomes a
link behind the proxy's own prefix, and nothing else changes.
 */
module ProxyLinks {
  import opened Wrappers
  import opened Text
  import opened ReverseProxy
  import HttpReplies
  import Decimal

  /** The four kinds of links, in the order in which they are searched for. */
  datatype Link = Href | Src | Url | QuotedSrc

  /** The text in front of the address. */
  function Attribute(l: Link): string {
    match l
    case Href => "href=\""
    case Src => "src=\""
    case Url => "url("
    case QuotedSrc => "src='"
  }

  /** How a link begins in the page: three kinds are searched for with the slash of an absolute address. */
  function Written(l: Link): string {
    if l == QuotedSrc then Attribute(l) else Attribute(l) + "/"
  }

  /** How it begins afterwards. */
  function Redirected(l: Link, prefix: string): string { Attribute(l) + prefix + "/" }

  datatype Fragment = Plain(text: string) | LinkTo(link: Link)

  function Page(fs: seq<Fragment>): string {
    if fs == [] then ""
    else (match fs[0] case Plain(text) => text case LinkTo(l) => Written(l)) + Page(fs[1..])
  }

  /** The same page with every link behind the prefix. */
  function RedirectedPage(fs: seq<Fragment>, prefix: string): string {
    if fs == [] then ""
    else (match fs[0] case Plain(text) => text case LinkTo(l) => Redirected(l, prefix)) + RedirectedPage(fs[1..], prefix)
  }

  /** The text `m` begins nowhere in `x`, whatever follows. */
  ghost predicate Silent(x: string, m: string) {
    forall j :: 0 <= j < |x| ==> !(m <= x[j..]) && !(x[j..] <= m)
  }

  /** No link begins in the plain text between the links. */
  ghost predicate PlainBetween(fs: seq<Fragment>) {
    forall i, l :: 0 <= i < |fs| && fs[i].Plain? ==> Silent(fs[i].text, Written(l))
  }

  /** The prefix brings none of the links with it that are searched for after another one. */
  ghost predicate BringsNoLink(prefix: string) {
    && !Contains(prefix + "/", "src=\"/")
    && !Contains(prefix + "/", "url(/")
    && !Contains(prefix + "/", "src='")
  }

  // ---------- one search ----------

  function Rank(l: Link): nat { match l case Href => 0 case Src => 1 case Url => 2 case QuotedSrc => 3 }

  function FragmentText(f: Fragment, prefix: string, k: nat): string {
    match f
    case Plain(text) => text
    case LinkTo(l) => if Rank(l) < k then Redirected(l, prefix) else Written(l)
  }

  /** The page after `k` searches. */
  function Stage(fs: seq<Fragment>, prefix: string, k: nat): string {
    if fs == [] then "" else FragmentText(fs[0], prefix, k) + Stage(fs[1..], prefix, k)
  }

  lemma SilentHasNoMatch(x: string, y: string, m: string)
    requires Silent(x, m)
    ensures forall j :: 0 <= j < |x| ==> MatchEnd(Literal(m), x + y, j).None?
  {
    forall j | 0 <= j < |x| ensures !At(x + y, j, m) {
      if At(x + y, j, m) { BeginsIn(x, y, j, m); }
    }
  }

  lemma BeginsIn(x: string, y: string, j: nat, m: string)
    requires At(x + y, j, m) && j < |x|
    ensures m <= x[j..] || x[j..] <= m
  {
    if j + |m| <= |x| {
      assert x[j..][..|m|] == (x + y)[j..j + |m|];
    } else {
      assert x[j..] == (x + y)[j..j + |m|][..|x| - j];
    }
  }

  /** What begins at `j` begins with the first character of `m`. */
  lemma SilentByCharacters(x: string, m: string)
    requires m != ""
    requires forall j :: 0 <= j < |x| ==> x[j] != m[0] || (exists d :: 0 <= d < |m| && j + d < |x| && x[j + d] != m[d])
    ensures Silent(x, m)
  {
    forall j | 0 <= j < |x| ensures !(m <= x[j..]) && !(x[j..] <= m) {
      assert x[j..][0] == x[j];
      if x[j] == m[0] {
        var d :| 0 <= d < |m| && j + d < |x| && x[j + d] != m[d];
        assert x[j..][d] == x[j + d];
      }
    }
  }

  lemma WrittenIsSilent(l: Link, k: Link)
    requires Rank(k) < Rank(l)
    ensures Silent(Written(l), Written(k))
  {
    var x, m := Written(l), Written(k);
    if l == QuotedSrc && k == Src { assert x[0 + 4] != m[4]; }
    SilentByCharacters(x, m);
  }

  /** Neither does a redirected link bring one of the later links with it. */
  lemma RedirectedIsSilent(l: Link, k: Link, prefix: string)
    requires Rank(l) < Rank(k) && BringsNoLink(prefix)
    ensures Silent(Redirected(l, prefix), Written(k))
  {
    var a, p, m := Attribute(l), prefix + "/", Written(k);
    assert Redirected(l, prefix) == a + p;
    LaterLinks();
    hide Contains, At;
    assert k == Src || k == Url || k == QuotedSrc;
    assert !Contains(p, m);
    AddressIsSilent(p, m);
    AttributeIsSilent(l, k, p);
    SilentAppend(a, p, m);
  }

  /** The links end in a slash or hold none, so that one cannot end behind the slash of the address. */
  ghost predicate SlashIsLast(m: string) {
    forall i :: 0 <= i < |m| - 1 ==> m[i] != '/'
  }

  lemma AddressIsSilent(p: string, m: string)
    requires p != "" && p[|p| - 1] == '/' && m != "" && SlashIsLast(m) && !Contains(p, m)
    ensures Silent(p, m)
  {
    forall j | 0 <= j < |p| ensures !(m <= p[j..]) && !(p[j..] <= m) {
      assert !At(p, j, m);
      if m <= p[j..] { PrefixStands(p, j, m); }
      if p[j..] <= m { EndsWithSlash(p, j, m); }
    }
  }

  lemma PrefixStands(p: string, j: nat, m: string)
    requires j < |p| && m <= p[j..]
    ensures At(p, j, m)
  {
    assert p[j..j + |m|] == p[j..][..|m|];
  }

  lemma EndsWithSlash(p: string, j: nat, m: string)
    requires j < |p| && p[|p| - 1] == '/' && SlashIsLast(m) && p[j..] <= m
    ensures At(p, j, m)
  {
    var n := |p| - j;
    assert m[n - 1] == p[j..][n - 1] == '/';
    assert n == |m| && p[j..] == m;
    assert p[j..j + |m|] == p[j..];
  }

  /** The attribute of a link, with more text behind it, begins no later link. */
  lemma AttributeIsSilent(l: Link, k: Link, p: string)
    requires Rank(l) < Rank(k)
    ensures forall j :: 0 <= j < |Attribute(l)| ==>
              !(Written(k) <= (Attribute(l) + p)[j..]) && !((Attribute(l) + p)[j..] <= Written(k))
  {
    var a, m := Attribute(l), Written(k);
    var x := a + p;
    forall j | 0 <= j < |a| ensures !(m <= x[j..]) && !(x[j..] <= m) {
      assert x[j..][0] == a[j];
      if l == Src && k == QuotedSrc && j == 0 { assert x[j..][4] == a[4] != m[4]; }
    }
  }

  lemma SilentAppend(a: string, p: string, m: string)
    requires forall j :: 0 <= j < |a| ==> !(m <= (a + p)[j..]) && !((a + p)[j..] <= m)
    requires Silent(p, m)
    ensures Silent(a + p, m)
  {
    var x := a + p;
    forall j | 0 <= j < |x| ensures !(m <= x[j..]) && !(x[j..] <= m) {
      if |a| <= j { assert x[j..] == p[j - |a|..]; }
    }
  }

  lemma FragmentIsSilent(f: Fragment, prefix: string, l: Link)
    requires f.Plain? ==> Silent(f.text, Written(l))
    requires f != LinkTo(l) && (Rank(l) > 0 ==> BringsNoLink(prefix))
    ensures Silent(FragmentText(f, prefix, Rank(l)), Written(l))
    ensures FragmentText(f, prefix, Rank(l)) == FragmentText(f, prefix, Rank(l) + 1)
  {
    hide Silent, BringsNoLink, Written, Redirected;
    if f.LinkTo? {
      if Rank(f.link) < Rank(l) { RedirectedIsSilent(f.link, l, prefix); } else { WrittenIsSilent(f.link, l); }
    }
  }

  /** A search redirects the links it searches for, and changes nothing else. */
  lemma {:induction false} OneSearch(fs: seq<Fragment>, prefix: string, l: Link)
    requires PlainBetween(fs) && (Rank(l) > 0 ==> BringsNoLink(prefix))
    ensures ReplaceAll(Literal(Written(l)), Stage(fs, prefix, Rank(l)), Redirected(l, prefix)) == Stage(fs, prefix, Rank(l) + 1)
    decreases |fs|
  {
    hide ReplaceAll, Silent, BringsNoLink, Written, Redirected, Rank, MatchEnd;
    var m, r := Written(l), Redirected(l, prefix);
    WrittenIsThere(l);
    if fs == [] {
      ReplaceInNothing(m, r);
    } else {
      var f, rest := fs[0], Stage(fs[1..], prefix, Rank(l));
      assert PlainBetween(fs[1..]);
      OneSearch(fs[1..], prefix, l);
      if f == LinkTo(l) {
        ReplaceInFront(m, r, rest);
      } else {
        FragmentIsSilent(f, prefix, l);
        SilentHasNoMatch(FragmentText(f, prefix, Rank(l)), rest, m);
        ReplaceAfter(Literal(m), FragmentText(f, prefix, Rank(l)), rest, r);
      }
    }
  }

  lemma WrittenIsThere(l: Link)
    ensures Written(l) != ""
  {}

  lemma ReplaceInNothing(m: string, r: string)
    requires m != ""
    ensures ReplaceAll(Literal(m), "", r) == ""
  {
    ReplaceRound("", m, r);
  }

  lemma ReplaceInFront(m: string, r: string, rest: string)
    requires m != ""
    ensures ReplaceAll(Literal(m), m + rest, r) == r + ReplaceAll(Literal(m), rest, r)
  {
    assert (m + rest)[0..|m|] == m && (m + rest)[|m|..] == rest;
    FindIs(m + rest, m, 0, 0);
    hide Find, At, ReplaceAll;
    ReplaceRound(m + rest, m, r);
    assert "" + r == r;
  }

  // ---------- the four searches ----------

  function Search(text: string, prefix: string, l: Link): string {
    ReplaceAll(Literal(Written(l)), text, Redirected(l, prefix))
  }

  lemma FourSearches(text: string, prefix: string)
    ensures RedirectHTMLMaps(text, prefix)
         == Search(Search(Search(Search(text, prefix, Href), prefix, Src), prefix, Url), prefix, QuotedSrc)
  {
    hide ReplaceAll;
    var w := Rewrites(prefix);
    assert "href=\"" + "/" == "href=\"/" && "src=\"" + "/" == "src=\"/" && "url(" + "/" == "url(/";
    assert w[0] == (Written(Href), Redirected(Href, prefix)) && w[1] == (Written(Src), Redirected(Src, prefix));
    assert w[2] == (Written(Url), Redirected(Url, prefix)) && w[3] == (Written(QuotedSrc), Redirected(QuotedSrc, prefix));
    hide Written, Redirected;
    UnrollFour(text, w);
  }

  lemma UnrollFour(text: string, w: seq<(string, string)>)
    requires |w| == 4 && forall i :: 0 <= i < |w| ==> w[i].0 != ""
    ensures RewriteAll(text, w)
         == ReplaceAll(Literal(w[3].0), ReplaceAll(Literal(w[2].0), ReplaceAll(Literal(w[1].0),
              ReplaceAll(Literal(w[0].0), text, w[0].1), w[1].1), w[2].1), w[3].1)
  {
    hide ReplaceAll;
    var t := ReplaceAll(Literal(w[0].0), text, w[0].1);
    var u := ReplaceAll(Literal(w[1].0), t, w[1].1);
    var v := ReplaceAll(Literal(w[2].0), u, w[2].1);
    assert w[1..][0] == w[1] && w[1..][1..] == w[2..] && w[2..][0] == w[2] && w[2..][1..] == w[3..];
    assert w[3..][0] == w[3] && w[3..][1..] == [];
    assert RewriteAll(v, w[3..]) == RewriteAll(ReplaceAll(Literal(w[3].0), v, w[3].1), []);
    assert RewriteAll(u, w[2..]) == RewriteAll(v, w[3..]);
    assert RewriteAll(t, w[1..]) == RewriteAll(u, w[2..]);
  }

  lemma {:induction false} FirstAndLastStage(fs: seq<Fragment>, prefix: string)
    ensures Stage(fs, prefix, 0) == Page(fs) && Stage(fs, prefix, 4) == RedirectedPage(fs, prefix)
  {
    hide Written, Redirected;
    if fs != [] { FirstAndLastStage(fs[1..], prefix); }
  }

  /** Every link of the page gets the prefix in front of its address, and the text between the links stays. */
  lemma RedirectsLinks(fs: seq<Fragment>, prefix: string)
    requires PlainBetween(fs) && BringsNoLink(prefix)
    ensures RedirectHTMLMaps(Page(fs), prefix) == RedirectedPage(fs, prefix)
  {
    hide RedirectHTMLMaps, ReplaceAll, Page, RedirectedPage, Stage, PlainBetween, BringsNoLink, Written, Redirected;
    FirstAndLastStage(fs, prefix);
    FourSearches(Page(fs), prefix);
    OneSearch(fs, prefix, Href);
    OneSearch(fs, prefix, Src);
    OneSearch(fs, prefix, Url);
    OneSearch(fs, prefix, QuotedSrc);
  }

  lemma FreeIsSilent(x: string, l: Link)
    requires FreeOf(x, {'h', 's', 'u'})
    ensures Silent(x, Written(l))
  {
    SilentByCharacters(x, Written(l));
  }

  lemma LinkBetween(x: string, l: Link, y: string, prefix: string)
    requires FreeOf(x, {'h', 's', 'u'}) && FreeOf(y, {'h', 's', 'u'}) && BringsNoLink(prefix)
    ensures RedirectHTMLMaps(x + Written(l) + y, prefix) == x + Redirected(l, prefix) + y
  {
    var fs := [Plain(x), LinkTo(l), Plain(y)];
    forall k ensures Silent(x, Written(k)) && Silent(y, Written(k)) {
      FreeIsSilent(x, k);
      FreeIsSilent(y, k);
    }
    hide FreeOf, Silent, BringsNoLink, RedirectHTMLMaps, Written, Redirected;
    assert PlainBetween(fs);
    assert fs[1..] == [LinkTo(l), Plain(y)] && fs[1..][1..] == [Plain(y)] && fs[1..][1..][1..] == [];
    assert Page([Plain(y)]) == y + "" == y && RedirectedPage([Plain(y)], prefix) == y + "" == y;
    assert Page(fs) == x + (Written(l) + y) == x + Written(l) + y;
    assert RedirectedPage(fs, prefix) == x + (Redirected(l, prefix) + y) == x + Redirected(l, prefix) + y;
    RedirectsLinks(fs, prefix);
  }

  /** The four kinds, letter by letter. */
  lemma LinksAsWritten(x: string, y: string, prefix: string)
    requires FreeOf(x, {'h', 's', 'u'}) && FreeOf(y, {'h', 's', 'u'}) && BringsNoLink(prefix)
    ensures RedirectHTMLMaps(x + "href=\"/" + y, prefix) == x + ("href=\"" + prefix + "/") + y
    ensures RedirectHTMLMaps(x + "src=\"/" + y, prefix) == x + ("src=\"" + prefix + "/") + y
    ensures RedirectHTMLMaps(x + "url(/" + y, prefix) == x + ("url(" + prefix + "/") + y
    ensures RedirectHTMLMaps(x + "src='" + y, prefix) == x + ("src='" + prefix + "/") + y
  {
    assert Written(Href) == "href=\"/";
    LaterLinks();
    hide RedirectHTMLMaps, Written, FreeOf, BringsNoLink;
    LinkBetween(x, Href, y, prefix);
    LinkBetween(x, Src, y, prefix);
    LinkBetween(x, Url, y, prefix);
    LinkBetween(x, QuotedSrc, y, prefix);
  }

  // ---------- which prefixes ----------

  /** Replacing by a longer text makes a text longer if there is something to replace. */
  lemma {:induction false} ReplacingLengthens(s: string, m: string, r: string)
    requires m != "" && |r| >= |m|
    ensures |ReplaceAll(Literal(m), s, r)| >= |s|
    ensures Contains(s, m) && |r| > |m| ==> |ReplaceAll(Literal(m), s, r)| > |s|
    ensures !Contains(s, m) ==> ReplaceAll(Literal(m), s, r) == s
    decreases |s|
  {
    hide ReplaceAll, At, Find;
    ReplaceRound(s, m, r);
    GapHasNone(s, m);
    if Find(s, m, 0).Some? {
      var k := Find(s, m, 0).value;
      ReplaceRoundAt(s, m, r, k);
      ReplacingLengthens(s[k + |m|..], m, r);
      FoundIsContained(s, m, k);
    }
  }

  lemma FoundIsContained(s: string, m: string, k: nat)
    requires Find(s, m, 0) == Some(k)
    ensures Contains(s, m)
  {
    assert At(s, k, m);
  }

  lemma SearchLengthens(text: string, prefix: string, l: Link)
    ensures |Search(text, prefix, l)| >= |text|
    ensures Contains(text, Written(l)) && prefix != "" ==> |Search(text, prefix, l)| > |text|
    ensures !Contains(text, Written(l)) ==> Search(text, prefix, l) == text
  {
    hide Contains, ReplaceAll;
    ReplacingLengthens(text, Written(l), Redirected(l, prefix));
  }

  lemma ContainedBehind(x: string, y: string, m: string)
    requires Contains(y, m)
    ensures Contains(x + y, m)
  {
    var j: nat :| At(y, j, m);
    AtBehind(x, y, j, m);
    assert At(x + y, |x| + j, m);
  }

  lemma ContainedIsThere(prefix: string, l: Link)
    requires Contains(prefix + "/", Written(l))
    ensures prefix != ""
  {
    var j: nat :| At(prefix + "/", j, Written(l));
    AtFits(prefix + "/", j, Written(l));
    assert |Written(l)| > 1;
  }

  /** With a prefix that brings a later link with it, already a page that is one link goes wrong. */
  lemma BroughtLinkIsRedirected(prefix: string, l: Link)
    requires l != Href && Contains(prefix + "/", Written(l))
    ensures PlainBetween([LinkTo(Href)])
    ensures RedirectHTMLMaps(Page([LinkTo(Href)]), prefix) != RedirectedPage([LinkTo(Href)], prefix)
  {
    var fs := [LinkTo(Href)];
    OneLink(prefix);
    assert PlainBetween(fs);
    ContainedIsThere(prefix, l);
    var t := Redirected(Href, prefix);
    assert t == "href=\"" + (prefix + "/");
    ContainedBehind("href=\"", prefix + "/", Written(l));
    hide RedirectHTMLMaps, Page, RedirectedPage, Stage, PlainBetween, Written, Redirected, Contains, Search;
    FourSearches(Page(fs), prefix);
    FirstSearch(fs, prefix);
    var u := Search(t, prefix, Src);
    var v := Search(u, prefix, Url);
    SearchLengthens(t, prefix, Src);
    SearchLengthens(u, prefix, Url);
    SearchLengthens(v, prefix, QuotedSrc);
  }

  lemma OneLink(prefix: string)
    ensures Page([LinkTo(Href)]) == Written(Href) && RedirectedPage([LinkTo(Href)], prefix) == Redirected(Href, prefix)
    ensures Stage([LinkTo(Href)], prefix, 1) == Redirected(Href, prefix)
  {
    var fs := [LinkTo(Href)];
    assert fs[1..] == [];
    assert Written(Href) + "" == Written(Href) && Redirected(Href, prefix) + "" == Redirected(Href, prefix);
  }

  lemma FirstSearch(fs: seq<Fragment>, prefix: string)
    requires PlainBetween(fs)
    ensures Search(Page(fs), prefix, Href) == Stage(fs, prefix, 1)
  {
    hide ReplaceAll, Page, Stage, PlainBetween, Written, Redirected;
    FirstAndLastStage(fs, prefix);
    OneSearch(fs, prefix, Href);
  }

  ghost predicate RedirectsEveryPage(prefix: string) {
    forall fs :: PlainBetween(fs) ==> RedirectHTMLMaps(Page(fs), prefix) == RedirectedPage(fs, prefix)
  }

  /** Links are redirected in every page exactly when the prefix brings no link with it. */
  lemma RedirectsEveryPageIff(prefix: string)
    ensures RedirectsEveryPage(prefix) <==> BringsNoLink(prefix)
  {
    if BringsNoLink(prefix) {
      forall fs | PlainBetween(fs) ensures RedirectHTMLMaps(Page(fs), prefix) == RedirectedPage(fs, prefix) {
        RedirectsLinks(fs, prefix);
      }
    } else {
      LaterLinks();
      hide Contains, RedirectHTMLMaps, Page, RedirectedPage, PlainBetween, Written;
      if Contains(prefix + "/", "src=\"/") { BroughtLinkIsRedirected(prefix, Src); }
      if Contains(prefix + "/", "url(/") { BroughtLinkIsRedirected(prefix, Url); }
      if Contains(prefix + "/", "src='") { BroughtLinkIsRedirected(prefix, QuotedSrc); }
    }
  }

  lemma LaterLinks()
    ensures Written(Src) == "src=\"/" && Written(Url) == "url(/" && Written(QuotedSrc) == "src='"
  {}

  /** A page behind the proxy: status and headers as they were sent, and the page with its links redirected. */
  lemma PageThroughProxy(status: int, headers: HttpReplies.Headers, fs: seq<Fragment>, prefix: string)
    requires -0x8000_0000 <= status <= 0x7fff_ffff && HttpReplies.PlainHeaders(headers)
    requires FreeOf(prefix, {'\r', '\n'}) && BringsNoLink(prefix) && PlainBetween(fs)
    requires forall l :: !Contains(HttpReplies.ReplyHead(status, headers), Written(l))
    ensures var resp := RedirectHTMLMaps(HttpReplies.ReplyText(status, headers, Page(fs)), prefix);
            var start := Find(resp, "\r\n\r\n", 0);
            && start.Some? && start.value + 4 <= |resp|
            && HttpReplies.GetStatus(resp) == Ok(status)
            && HttpReplies.HeadersOf(resp, start) == Some(headers)
            && HttpReplies.GetBody(resp, start) == RedirectedPage(fs, prefix)
  {
    SearchedFor(prefix);
    hide Contains, RedirectHTMLMaps, Page, RedirectedPage, PlainBetween, Written, BringsNoLink, Find, Rewrites;
    hide HttpReplies.ReplyText, HttpReplies.ReplyHead, HttpReplies.GetStatus, HttpReplies.HeadersOf, HttpReplies.PlainHeaders;
    RedirectsLinks(fs, prefix);
    ReplyThroughProxy(status, headers, Page(fs), prefix);
  }

  lemma SearchedFor(prefix: string)
    ensures forall i :: 0 <= i < 4 ==> exists l :: Rewrites(prefix)[i].0 == Written(l)
  {
    var w := Rewrites(prefix);
    assert w[0].0 == Written(Href) && w[1].0 == Written(Src) && w[2].0 == Written(Url) && w[3].0 == Written(QuotedSrc);
  }
}
