/**
The choice of a handler: among the handler blocks whose location is a prefix of the uri, the first one with
the longest location.
 */
module Routing {
  import opened Wrappers
  import opened Text
  import opened ConfigTree
  import opened ConfigNodes
  import ConfigQueries
  import HttpRequests
  import ReverseProxy

  // ---------- what is chosen ----------

  function Location(h: Config): Option<string> { ConfigQueries.FindKey(h, "location") }

  function Name(h: Config): Option<string> { ConfigQueries.FindKey(h, "name") }

  /** The location of the handler is a prefix of the uri, and not empty. */
  predicate Matches(h: Config, url: string) {
    Location(h).Some? && Location(h).value != "" && Location(h).value <= url
  }

  /** The handler matches, and no earlier one matches with a location as long as its own. */
  ghost predicate Leads(hs: seq<Config>, url: string, i: nat) {
    && i < |hs| && Matches(hs[i], url)
    && forall j :: 0 <= j < i && Matches(hs[j], url) ==> |Location(hs[j]).value| < |Location(hs[i]).value|
  }

  /** The handler is the first one among those that match with the longest location. */
  ghost predicate Wins(hs: seq<Config>, url: string, i: nat) {
    && Leads(hs, url, i)
    && forall j :: i < j < |hs| && Matches(hs[j], url) ==> |Location(hs[j]).value| <= |Location(hs[i]).value|
  }

  /** The scan reads the second token of a statement that has one token. */
  ghost predicate ReadsTooFar(hs: seq<Config>, url: string) {
    exists i :: 0 <= i < |hs| && (Location(hs[i]).None? || (Leads(hs, url, i) && Name(hs[i]).None?))
  }

  // ---------- the scan ----------

  datatype Choice = Choice(length: nat, name: string, handler: Option<nat>)

  function Better(best: Choice, i: nat, h: Config, url: string): Option<Choice> {
    match Location(h)
    case None => None
    case Some(prefix) =>
      if Text.Find(url, prefix, 0) == Some(0) && |prefix| > best.length then
        match Name(h)
        case None => None
        case Some(name) => Some(Choice(|prefix|, name, Some(i)))
      else Some(best)
  }

  /** The choice after a scan of `hs`; `None` where it would read a second token that is not there. */
  function Select(hs: seq<Config>, url: string): Option<Choice> {
    if hs == [] then Some(Choice(0, "", None)) else
      match Select(hs[..|hs| - 1], url)
      case None => None
      case Some(best) => Better(best, |hs| - 1, hs[|hs| - 1], url)
  }

  lemma StandsInFront(url: string, prefix: string)
    ensures Text.Find(url, prefix, 0) == Some(0) <==> prefix <= url
  {
    if prefix <= url {
      assert url[0..|prefix|] == prefix;
      FindIs(url, prefix, 0, 0);
    }
  }

  /** The choice says which handler wins. */
  ghost predicate Chosen(hs: seq<Config>, url: string, c: Choice) {
    match c.handler
    case None => c.length == 0 && c.name == "" && forall i :: 0 <= i < |hs| ==> !Matches(hs[i], url)
    case Some(i) => Wins(hs, url, i) && |Location(hs[i]).value| == c.length && Name(hs[i]) == Some(c.name)
  }

  /** Whether a handler leads is settled by the handlers in front of it. */
  lemma LeadsInFront(hs: seq<Config>, url: string, i: nat)
    requires i < |hs| - 1
    ensures Leads(hs[..|hs| - 1], url, i) <==> Leads(hs, url, i)
  {
    hide Location;
  }

  lemma ReadsTooFarSnoc(hs: seq<Config>, url: string)
    requires hs != []
    ensures var n := |hs| - 1;
            ReadsTooFar(hs, url) <==>
            ReadsTooFar(hs[..n], url) || Location(hs[n]).None? || (Leads(hs, url, n) && Name(hs[n]).None?)
  {
    var n := |hs| - 1;
    hide Location, Name, Leads;
    forall i: nat | i < n ensures hs[..n][i] == hs[i] && (Leads(hs[..n], url, i) <==> Leads(hs, url, i)) {
      LeadsInFront(hs, url, i);
    }
  }

  /** The last handler leads exactly when it matches with a location longer than the choice before it. */
  lemma LastLeads(hs: seq<Config>, url: string, best: Choice)
    requires hs != [] && Chosen(hs[..|hs| - 1], url, best)
    ensures var h := hs[|hs| - 1];
            Leads(hs, url, |hs| - 1) <==> Matches(h, url) && |Location(h).value| > best.length
  {
    hide Location, Name;
    var front := hs[..|hs| - 1];
    assert forall j :: 0 <= j < |front| ==> front[j] == hs[j];
    if best.handler.Some? { assert Matches(front[best.handler.value], url); }
  }

  lemma ChosenSnoc(hs: seq<Config>, url: string, best: Choice, name: string)
    requires hs != [] && Chosen(hs[..|hs| - 1], url, best)
    ensures var n := |hs| - 1;
            && (Leads(hs, url, n) && Name(hs[n]) == Some(name)
                ==> Chosen(hs, url, Choice(|Location(hs[n]).value|, name, Some(n))))
            && (!Leads(hs, url, n) ==> Chosen(hs, url, best))
  {
    LastLeads(hs, url, best);
    hide Location, Name;
    var n := |hs| - 1;
    assert forall j :: 0 <= j < n ==> hs[..n][j] == hs[j];
    if best.handler.Some? { LeadsInFront(hs, url, best.handler.value); }
  }

  /**
  The scan chooses the winner, or nothing exactly when nothing matches; and it reads too far exactly when
  a handler has no location to read, or one that takes the lead has no name to read.
  */
  lemma {:induction false} SelectChoosesWinner(hs: seq<Config>, url: string)
    ensures Select(hs, url).None? <==> ReadsTooFar(hs, url)
    ensures Select(hs, url).Some? ==> Chosen(hs, url, Select(hs, url).value)
    decreases |hs|
  {
    if hs != [] {
      var n := |hs| - 1;
      var h := hs[n];
      SelectChoosesWinner(hs[..n], url);
      ReadsTooFarSnoc(hs, url);
      if Location(h).Some? { StandsInFront(url, Location(h).value); }
      var before := Select(hs[..n], url);
      if before.Some? {
        LastLeads(hs, url, before.value);
        ChosenSnoc(hs, url, before.value, if Name(h).Some? then Name(h).value else "");
      }
      hide Location, Name, Leads, ReadsTooFar, Chosen, Text.Find, At;
    }
  }

  /** There is a winner exactly when some handler matches. */
  lemma WinnerIff(hs: seq<Config>, url: string)
    requires !ReadsTooFar(hs, url)
    ensures Select(hs, url).Some?
    ensures Select(hs, url).value.handler.Some? <==> exists i :: 0 <= i < |hs| && Matches(hs[i], url)
  {
    SelectChoosesWinner(hs, url);
  }

  /** Every location that matches is a prefix of the winning one. */
  lemma WinnerCoversOthers(hs: seq<Config>, url: string, i: nat, j: nat)
    requires Wins(hs, url, i) && j < |hs| && Matches(hs[j], url)
    ensures Location(hs[j]).value <= Location(hs[i]).value
  {
    hide Location;
    var a, b := Location(hs[i]).value, Location(hs[j]).value;
    assert |b| <= |a|;
    assert a == url[..|a|] && b == url[..|b|];
    assert b == a[..|b|];
  }

  /** The winning location does not depend on the order of the handlers; only which of its owners wins does. */
  lemma LocationIgnoresOrder(hs: seq<Config>, i: nat, hs': seq<Config>, i': nat, url: string)
    requires multiset(hs) == multiset(hs') && Wins(hs, url, i) && Wins(hs', url, i')
    ensures Location(hs[i]) == Location(hs'[i'])
  {
    assert hs[i] in multiset(hs') && hs'[i'] in multiset(hs);
    var j :| 0 <= j < |hs'| && hs'[j] == hs[i];
    var j' :| 0 <= j' < |hs| && hs[j'] == hs'[i'];
    WinnerCoversOthers(hs', url, i', j);
    WinnerCoversOthers(hs, url, i, j');
    hide Location;
    var a, b := Location(hs[i]).value, Location(hs'[i']).value;
    assert a == b[..|a|] == b;
  }

  /**
  What a proxy handler sends on for a request routed to it: the path behind the location is always there,
  and the text it builds is a valid request for that path.
  */
  lemma RoutedRequestReparses(hs: seq<Config>, message: string, i: nat, host: string)
    requires HttpRequests.Parse(message).Some? && Wins(hs, HttpRequests.Parse(message).value.uri, i)
    ensures var p := HttpRequests.Parse(message).value;
            var path := ReverseProxy.GetPath(p.uri, Location(hs[i]).value);
            && path.Some?
            && var r := HttpRequests.Parse(ReverseProxy.OutgoingText(p.method_, path.value, host));
            && r.Some? && r.value.method_ == p.method_ && r.value.uri == path.value
            && (path.value == "/" || p.uri == Location(hs[i]).value + path.value)
  {
    hide Location, HttpRequests.Parse, ReverseProxy.OutgoingText, ReverseProxy.GetPath;
    ReverseProxy.OutgoingReparses(message, Location(hs[i]).value, host);
  }

  // ---------- the scan over the objects of the configuration ----------

  lemma {:induction false} EraseAllAt(known: seq<Shape>)
    ensures |EraseAll(known)| == |known|
    ensures forall i :: 0 <= i < |known| ==> EraseAll(known)[i] == Erase(known[i].statements)
  {
    if known != [] { EraseAllAt(known[..|known| - 1]); }
  }

  lemma ShapesAllocated(known: seq<Shape>)
    ensures forall o :: o in ShapesFootprint(known) ==> allocated(o)
  {
    forall i | 0 <= i < |known| ensures forall o :: o in ShapeFootprint(known[i]) ==> allocated(o) {
      FootprintAllocated(known[i].statements);
    }
  }

  /** `Find` with a key of one segment. */
  method FindOne(config: NginxConfig, key: string, ghost ss: seq<StatementShape>) returns (r: Option<string>)
    requires config.statements == Nodes(ss) && Holds(ss)
    ensures r == ConfigQueries.FindKey(Erase(ss), key)
  {
    r := config.Find(Split(key, {'.'}), "", ss);
  }

  /** The loop of `handle_request` that selects a handler. */
  method SelectHandler(handlers: seq<NginxConfig>, url: string, ghost known: seq<Shape>) returns (r: Option<Choice>)
    requires AllHeld(handlers, known)
    ensures r == Select(EraseAll(known), url)
    ensures r.Some? && r.value.handler.Some? ==> r.value.handler.value < |handlers|
  {
    var best := Choice(0, "", None);
    ghost var hs := EraseAll(known);
    EraseAllAt(known);
    ShapesAllocated(known);
    hide Select, Erase, EraseAll, Nodes, Holds, Footprint, Text.Find, At, ConfigQueries.FindKey;
    assert hs[..0] == [];
    assert Select([], url) == Some(best) by { SelectNothing(url); }
    for i := 0 to |handlers|
      invariant AllHeld(handlers, known)
      invariant Select(hs[..i], url) == Some(best)
      invariant best.handler.Some? ==> best.handler.value < i
    {
      SelectSnoc(hs, url, i);
      assert HeldAs(handlers[i], known[i]);
      var prefix := FindOne(handlers[i], "location", known[i].statements);
      if prefix.None? { SelectStops(hs, url, i); return None; }
      if Text.Find(url, prefix.value, 0) == Some(0) {
        if |prefix.value| > best.length {
          assert AllHeld(handlers, known);
          assert HeldAs(handlers[i], known[i]);
          var name := FindOne(handlers[i], "name", known[i].statements);
          if name.None? { SelectStops(hs, url, i); return None; }
          best := Choice(|prefix.value|, name.value, Some(i));
        }
      }
    }
    assert hs[..|hs|] == hs;
    r := Some(best);
  }

  lemma SelectNothing(url: string)
    ensures Select([], url) == Some(Choice(0, "", None))
  {}

  lemma SelectSnoc(hs: seq<Config>, url: string, i: nat)
    requires i < |hs| && Select(hs[..i], url).Some?
    ensures Select(hs[..i + 1], url) == Better(Select(hs[..i], url).value, i, hs[i], url)
  {
    assert hs[..i + 1][..i] == hs[..i];
  }

  /** Once the scan has read too far, it has done so. */
  lemma {:induction false} SelectStops(hs: seq<Config>, url: string, i: nat)
    requires i < |hs| && Select(hs[..i + 1], url).None?
    ensures Select(hs, url).None?
    decreases |hs|
  {
    if i + 1 == |hs| {
      assert hs[..i + 1] == hs;
    } else {
      assert hs[..|hs| - 1][..i + 1] == hs[..i + 1];
      SelectStops(hs[..|hs| - 1], url, i);
    }
  }
}
