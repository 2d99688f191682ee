# Proofs about the server's configuration, templates, HTTP text and request record

A model in Dafny of the string and tree processing of the server, and proofs about all of its inputs and runs.
`dafny verify dfyconfig.toml` checks the project.

## What is modelled

**The configuration language** (`ConfigTree`, `ConfigLexer`, `ConfigCharacters`, `ConfigGrammar`, `ConfigRoundTrip`,
`ConfigLayout`, `ConfigQueries`, `ConfigNodes`, `ConfigParser`). The lexer is a five-state loop over a stream with one character of put-back, the
parser a stack machine that builds objects in place. Both are methods, proved against functions on values:
`Lex` says what one token of a text is, `Step` and `Run` are the stack machine on trees. About these it is shown
that the machine accepts exactly what the grammar *statement = word+ (`;` or `{` statement+ `}`)* derives, that
printing and reading back is the identity on exactly the trees in normal form, that every accepted text gives such a
tree, and that the lexer's calls cut the text up without losing a character. The lexer refines an automaton that names
every character it treats specially, and the printed text is described line by line. `Find` and `FindBlocks` are described
over the list of all statements in document order, each with the chain of first words that leads to it.

On the heap a *shape* is a tree annotated with the objects that stand for it; `Holds` says that the heap is as the
shape has it, `Erase` takes the objects away, and `Built` is what `Parse` guarantees of the config it was given.

**The template engine** (`HtmlTemplates`, `HtmlBuilding`). Each search-and-replace loop is proved against a leftmost,
non-overlapping `ReplaceAll`. On templates of plain text and holes, injecting key by key is one simultaneous
substitution. The conditions are weaker than freedom from `<` and `>`: plain text and values must not contain
`<!-- ` or end in a beginning of it, keys must not contain ` -->`, and no opening may stand in a key with its closing.

**The HTTP text layer** (`HttpRequests`, `HttpReplies`, `ReverseProxy`, `ProxyLinks`, `Decimal`). The request parser is proved
against splitting the request line on single spaces; replies are printed and read back by the proxy's readers; the
proxy's rewriting of links commutes with the split of head and body; what the proxy sends is read back by
`ParseRequest`. The formats are subsets of sections 3.1.1, 3.1.2 and 3.2 of RFC 7230; form bodies follow section
17.13.4 of HTML 4.01 without percent-decoding.

**Routing and counting** (`Routing`, `RequestCounts`, `Sessions`, `SessionTexts`, with `std::map` in `OrderedMaps`). The selection loop
and the update of the nested map are methods; over every run of requests the map holds the counts of what was handled,
and the status page shows those of the requests before its own. A request is one atomic step. What the handlers outside
this model answer is part of the input of each step.

`Text` holds the parts of `std::string`, `boost::algorithm` and `std::regex` that the rest uses.

## Where the code and its description differ

- `Find` answers with the last match; `include/config_parser.h:28` says the first (`FindIsNotFirst`). The header is
  right exactly when the first and the last match have the same second token (`FindIsFirstIff`).
- A last word that nothing ends is dropped without an error, behind every text that leaves nothing unfinished
  (`UnfinishedWordDropped`). An accepted text loses a word exactly when it leaves a bare word unfinished
  (`AcceptedLosesWordIff`).
- A carriage return is white space between words, but does not end a bare word (`CarriageReturnExample`,
  `CarriageReturnInWord`): it does what a line feed does exactly behind a text that leaves nothing or a comment
  unfinished (`CarriageReturnIsBlankIff`).
- A `FindBlocks` path with adjacent equal segments is the path with them counted once, and a segment may skip
  statements on the way down (`FindBlocksIsFirstContainment`).
- The last value of a form body is searched for `=` once more, and may set a pair that the form does not hold
  (`LastValueSetsMore`). The pairs alone are set exactly when they have already set whatever the last value holds
  (`FormSetsPairsIff`); for a form of one pair, exactly when its value is free of `=` (`OnePairIff`).
- A valid request without an empty line gets everything behind its third character as its body, since the largest size
  plus four wraps around to three (`BodyWrapsAround`). Its body is what follows the first empty line exactly when
  there is one (`BodyIsBehindHeadIff`).
- A redirect to `https://` whose text holds `http://` further on is cut there (`HttpsTakenIff`).
- A value injected into a template is searched for the keys that come after it. Injecting key by key is injecting at
  once exactly for values in which no marker begins, whatever follows them (`InertIff`).
- The proxy's four searches run one after the other over the whole response. Every link is redirected, and nothing else
  changes, in every page exactly when the prefix itself holds none of the links searched for later
  (`RedirectsEveryPageIff`).
- The body of the proxy's outgoing request is empty unless the configured host brings an empty line of its own
  (`OutgoingReparses`).
- The check for an empty uri at `src/request.cc:69` never fires (`ValidHasUri`).

## Model

| member | source | states |
|---|---|---|
| ConfigLexer.ParseToken | src/config_parser.cc:156-236 | one call reports the kind, the text and the length of the first lexeme of what remains in the stream, put-back included, and always ends |
| ConfigLexer.Lex | src/config_parser.cc:156-236 | a lexeme lies within the text, every kind but end and error takes at least one character behind its blanks, and end and error take all that is left |
| ConfigLexer.InputStream.Get | src/config_parser.cc:159-163 | reads the next character, or makes the stream bad at its end |
| ConfigLexer.InputStream.Unget | src/config_parser.cc:222 | gives one character back |
| ConfigCharacters.OneCharacter | src/config_parser.cc:156-236 | behind every text, one more character changes the tokens and what is left open as the automaton with literal characters says |
| ConfigCharacters.LexerIsAutomaton | src/config_parser.cc:156-236 | on every text the tokens of the lexer and what it leaves open are those of the automaton, and the error is an open quote at the end |
| ConfigCharacters.WordIsCompletedIff | src/config_parser.cc:219-226 | a character completes a bare word if and only if it is a space, tab, line feed, semicolon or brace, and brings its own token with it; every other one is added to the word |
| ConfigCharacters.FirstCharacterDecides | src/config_parser.cc:165-197 | where nothing is open four characters are skipped, three are tokens, one opens a comment, two open a quote, and every other one begins a word |
| ConfigCharacters.CommentIsCompletedIff | src/config_parser.cc:213-218 | a line feed or carriage return completes a comment and leaves no token; everything else is part of it |
| ConfigCharacters.QuoteIsCompletedIff | src/config_parser.cc:198-212 | only the quotation mark that opened a quote completes it, and the word has both marks |
| ConfigCharacters.BracesNeedNoSpace | src/config_parser.cc:219-223 | a block behind a word without a space |
| ConfigGrammar.RunConsistent | src/config_parser.cc:239-312 | over every run the invariant holds, and the depth of the stack is the number of braces opened and not closed |
| ConfigGrammar.ParserRefinesGrammar | src/config_parser.cc:238-320 | the stack machine builds a tree from a token list if and only if the grammar derives the list by that tree |
| ConfigGrammar.Unambiguous | src/config_parser.cc:257-312 | no two trees derive the same tokens |
| ConfigGrammar.ParseAppends | src/config_parser.cc:239-240 | parsing into a config that holds statements accepts the same texts and puts the new statements behind the old ones |
| ConfigParser.Parse | src/config_parser.cc:238-320 | on the heap: succeeds exactly when the text is accepted, and then the given config object holds exactly the tree of the text, behind the statements it held |
| ConfigParser.Transition | src/config_parser.cc:257-312 | one round of the loop keeps stack, `block_count` and last token in step with the machine, or reports the bad transition exactly when the machine has none |
| ConfigParser.AddWord | src/config_parser.cc:266-270 | a word opens a statement in the innermost block or is added to the open one, and nothing else changes |
| ConfigParser.EnterBlock | src/config_parser.cc:285-288 | the open statement gets a new, empty child block, and nothing else changes |
| ConfigRoundTrip.RoundTrip | src/config_parser.cc:108-131 | for every tree and depth, printing and parsing gives the tree back if and only if the tree is in normal form: words that are lexemes, no statement without words, no empty block |
| ConfigRoundTrip.ParsedIsNormal | src/config_parser.cc:238-320 | every tree built from an accepted text is in normal form, and its tokens are those of the text |
| ConfigRoundTrip.PrintParsePrint | src/config_parser.cc:238-320 | print-then-parse is the identity on whatever was parsed |
| ConfigLayout.Layout | src/config_parser.cc:108-131 | cut at its line feeds the printed text has a line for each statement and closing brace, in document order, each set in by two spaces for every step of depth and every block around it |
| ConfigLayout.RowsShift | src/config_parser.cc:108-131 | asking for more depth sets every line in further, and changes nothing else |
| ConfigLayout.LayoutOfHandler | src/config_parser.cc:108-131 | the text of a block with one statement, letter by letter |
| ConfigRoundTrip.SameTreeSameTokens | src/config_parser.cc:252-312 | two accepted texts give the same tree exactly when they agree on all tokens but comments |
| ConfigRoundTrip.NothingLost | src/config_parser.cc:156-236 | what the calls of the lexer consume, put together, is the text |
| ConfigRoundTrip.ChunksPlausible | src/config_parser.cc:156-236 | each piece consumed is white space and a body of its kind, and only the last one is an end or an error |
| ConfigRoundTrip.ChunksKept | src/config_parser.cc:244-255 | the parser sees the tokens of the pieces that are no comments, unless a quote is never closed |
| ConfigRoundTrip.AcceptedLosesOnly | src/config_parser.cc:230-255 | an accepted text loses only white space, comments and, at its very end, one word or comment that it does not finish |
| ConfigRoundTrip.OnlyTheEndIsOpen | src/config_parser.cc:156-236 | text behind another meets only what that one leaves unfinished: all tokens in front of it stay |
| ConfigRoundTrip.UnfinishedKinds | src/config_parser.cc:230-235 | a text ends in nothing, a bare word, a comment or an open quote |
| ConfigRoundTrip.UnfinishedWordDropped | src/config_parser.cc:230-235 | a bare word cut off by the end is dropped behind every text that leaves nothing unfinished: tokens, outcome and tree are those of the text without it |
| ConfigRoundTrip.BlankBringsOutWord | src/config_parser.cc:219-235 | a blank behind a text brings out the bare word that it leaves unfinished, and nothing else |
| ConfigRoundTrip.AcceptedLosesWordIff | src/config_parser.cc:230-235 | an accepted text loses a word if and only if it leaves a bare word unfinished: finished by a blank it is no longer accepted |
| ConfigRoundTrip.CarriageReturnEndsNoWord | src/config_parser.cc:213-226 | a carriage return behind a text ends a comment, but is one more character of a word or quote |
| ConfigRoundTrip.CarriageReturnInWord | src/config_parser.cc:219-226 | whatever stands in front, a carriage return between the parts of a word separates nothing |
| ConfigRoundTrip.CarriageReturnExample | src/config_parser.cc:220-221 | a text whose two parts a carriage return does not separate |
| ConfigRoundTrip.CarriageReturnIsBlankIff | src/config_parser.cc:188-221 | a carriage return is white space as a line feed is, whatever follows, if and only if the text before it leaves nothing or a comment unfinished |
| ConfigNodes.NginxConfig.ToString | src/config_parser.cc:21-27 | prints the tree that the heap holds |
| ConfigNodes.NginxConfigStatement.ToString | src/config_parser.cc:108-131 | prints a statement at its depth, child block included |
| ConfigNodes.NginxConfig.Find | src/config_parser.cc:40-46 | the query over the objects answers as the query over the tree |
| ConfigNodes.NginxConfigStatement.Find | src/config_parser.cc:48-62 | the same for one statement, with no answer where a second token is read that is not there |
| ConfigNodes.NginxConfig.FindBlocks | src/config_parser.cc:81-89 | the blocks found are child block objects of the tree, appended in order to those given |
| ConfigNodes.NginxConfigStatement.FindBlocks | src/config_parser.cc:91-106 | the same for one statement, going on at the same statement for a longer path |
| ConfigNodes.FoundErases | src/config_parser.cc:81-106 | as trees, the objects found are the answer of the query over the tree |
| ConfigNodes.FoundHeld | src/config_parser.cc:81-106 | the heap holds the objects found as the tree has them |
| ConfigQueries.FindIsLastMatch | src/config_parser.cc:40-62 | the answer is the second token of the last statement in document order at exactly the path, else the default; there is none exactly when some statement at the path has one token |
| ConfigQueries.FindAppend | src/config_parser.cc:40-46 | a query over two statement lists is the query over the second from the answer of the first |
| ConfigQueries.FindIsNotFirst | include/config_parser.h:28 | of two matching statements the second one answers |
| ConfigQueries.FindIsFirstIff | include/config_parser.h:28 | of statements at the path that all have a second token, the first one answers if and only if the last one has the same |
| ConfigQueries.GreedyContains | src/config_parser.cc:91-106 | matching a path as early as possible down a chain finds it whenever it is a subsequence of the chain |
| ConfigQueries.FindBlocksIsFirstContainment | src/config_parser.cc:70-106 | exactly the child blocks of the statements at which the chain of first words first contains the path, adjacent equal segments counted once, as a subsequence; in document order, behind the blocks given |
| ConfigQueries.FindBlocksAppend | src/config_parser.cc:81-89 | a query over two statement lists is the query over the second with what the first one found |
| ConfigQueries.DottedKeys | src/config_parser.cc:29-38 | a key is the path of the segments between its dots, with the empty text as the default |
| Text.ReplaceInGaps | src/html_builder.cc:17-25 | a text g0 m g1 ... m gn, with no m in a gap, becomes g0 r g1 ... r gn |
| Text.GapsFromTheLeft | src/html_builder.cc:20-24 | no marker begins in front of one that is replaced: the search goes from left to right |
| Text.JoinIsJoined | src/html_builder.cc:52-55 | joined pieces stand one behind the other with one separator between each two of them, and nothing else |
| Text.NoneLeft | src/html_builder.cc:17-25 | no marker is left when the replacement lacks the marker's first character and no gap before a marker ends in a beginning of one |
| HtmlBuilding.ReplaceMarker | src/html_builder.cc:17-25 | the search-and-replace loop ends and is the leftmost non-overlapping replacement |
| HtmlBuilding.HtmlBuilder.Inject | src/html_builder.cc:17-25 | the page becomes the page with the marker replaced |
| HtmlBuilding.ShallowInjectMap | src/html_builder.cc:98-104 | the pairs are injected in the order of the map |
| HtmlBuilding.ShallowInjectLists | src/html_builder.cc:106-115 | key by key if the lists are equally long, else unchanged |
| HtmlBuilding.HtmlBuilder.InjectMaps | src/html_builder.cc:44-58 | one rendering of the page for each map, joined by line breaks |
| HtmlBuilding.HtmlBuilder.InjectRows | src/html_builder.cc:60-75 | one rendering for each row, joined by line breaks, or nothing unless the first row fits the keys |
| HtmlBuilding.EachRowSubstitutes | src/html_builder.cc:60-75 | each row of a table is one simultaneous substitution, or leaves the template as it is when it does not fit the keys |
| HtmlBuilding.MapsFillPages | src/html_builder.cc:44-58 | for a list of maps there is one page for each, page k filled from map k, and one line break between each two pages |
| HtmlBuilding.RowFillsPage | src/html_builder.cc:106-115 | a row fills the page with each value under the key at its own position; a row that does not fit leaves the page alone |
| HtmlBuilding.TableFillsPages | src/html_builder.cc:60-75 | page k is the page with row k, one line break between each two; without rows, or when the first one does not fit the keys, the page becomes empty |
| HtmlBuilding.HtmlBuilder.EqualityInject | src/html_builder.cc:77-85 | the page becomes what the injection and the regular expression leave; a rendered template becomes the template with every hole decided |
| HtmlTemplates.MarkersDiffer | src/html_builder.cc:117-119 | markers are a prefix code |
| HtmlTemplates.InjectSubstitutes | src/html_builder.cc:17-25 | injecting one key fills exactly the holes of that key |
| HtmlTemplates.InjectAllSubstitutes | src/html_builder.cc:27-42 | injecting key by key is one simultaneous substitution, the first value of a key counting |
| HtmlTemplates.OrderDoesNotMatter | src/html_builder.cc:37-42 | lists of pairs that say the same of every key give the same page |
| HtmlTemplates.PermutationDoesNotMatter | src/html_builder.cc:37-42 | pairs with distinct keys may be injected in any order |
| HtmlTemplates.OrderMattersForMarkers | src/html_builder.cc:17-42 | a value that is a marker is filled by a later key and not by an earlier one |
| HtmlTemplates.InertIff | src/html_builder.cc:17-42 | a value is injected as if all keys were at once, in every template and before every other pair, if and only if no marker begins in it |
| HtmlTemplates.ErasesNumerals | src/html_builder.cc:80-84 | the regular expression erases exactly the holes made of the prefix and digits |
| HtmlTemplates.EqualityInjectDecides | src/html_builder.cc:77-85 | the hole for the value gets the replacement, every other hole for digits is erased, all else stays |
| HtmlTemplates.OneHole | src/html_builder.cc:17-25 | a marker, spelled out, between texts without angles is replaced by its value, and left by every other key |
| HtmlTemplates.OneEquality | src/html_builder.cc:77-85 | a hole, spelled out, for a key equal to a number: filled for the value, erased for every other number, left otherwise |
| HttpRequests.ParseRequest | src/request.cc:8-86 | valid exactly when the request line splits into fields without leading or doubled space, a GET or POST in any case, and HTTP/1.1 third; then method, uri, version, body and parameters are those of the text |
| HttpRequests.ReadLine | src/request.cc:21-52 | the one-pass loop computes the first three fields of the text before the first carriage return, and stops at a bad space |
| HttpRequests.CleanlySpacedIff | src/request.cc:24-39 | only the last field is empty exactly when there is no leading and no doubled space |
| HttpRequests.ValidIff | src/request.cc:54-67 | a request line of three words is accepted if and only if the first one spells GET or POST in letters of either case, the second is there, and the third is HTTP/1.1 |
| HttpRequests.MoreWordsIff | src/request.cc:41-52 | one more word, or one space at the end, changes nothing about that |
| HttpRequests.ParsesAsWritten | src/request.cc:71-81 | what is read are the three words as they are written and what follows the first empty line |
| HttpRequests.ValidHasUri | src/request.cc:69 | a valid request has a non-empty uri, free of spaces and carriage returns |
| HttpRequests.BodyIsBehindHeadIff | src/request.cc:71-73 | the body of a valid request is what follows its first empty line if and only if it has one |
| HttpRequests.BodyWrapsAround | src/request.cc:71-73 | a valid request without an empty line whose body is its text from the fourth character on |
| HttpRequests.Request.SetParams | src/request.cc:88-111 | the loop ends on every body and sets the parameters of the body |
| HttpRequests.FormRoundTrip | src/request.cc:88-111 | reading a joined list of pairs stores them from left to right, and then whatever the last value holds |
| HttpRequests.FormSets | src/request.cc:88-111 | a form sets its pairs from left to right and then those that its last value holds, cut at each of its `=` in turn |
| HttpRequests.FormSetsPairsIff | src/request.cc:88-111 | the parameters are the left-to-right update by the pairs if and only if the pairs have already set whatever the last value holds |
| HttpRequests.OnePairIff | src/request.cc:88-111 | a form of one pair is read back if and only if its value is free of `=` |
| HttpRequests.RepeatedPairDoesNoHarm | src/request.cc:101-107 | an `=` in the last value that repeats an earlier pair changes nothing |
| HttpRequests.FormSetsPairs | src/request.cc:88-111 | with no `=` in the last value the parameters are the left-to-right update by the pairs |
| HttpRequests.LastValueSetsMore | src/request.cc:101-107 | an `=` in the last value sets a pair the form does not hold |
| HttpReplies.Reply.SetHeader | src/reply.cc:7-9 | the header map is updated and stays in the order of its keys |
| HttpReplies.Reply.ToString | src/reply.cc:23-55 | prints status line, headers in order, an empty line and the body |
| HttpReplies.ReplyLines | src/reply.cc:23-55 | cut at its line feeds a reply has version, number and reason, a line for each header in order, an empty line, and the lines of the body |
| HttpReplies.ReplyEnd | src/reply.cc:39-53 | the first empty line of a printed reply ends its head, whatever the body holds |
| HttpReplies.StatusRead | src/reverse_proxy_handler.cc:121-132 | the status is read back from the status line, whatever follows |
| HttpReplies.GetHeaders | src/reverse_proxy_handler.cc:134-148 | the loop stores the headers of the lines of the head, or throws at a line that ends with its first colon |
| HttpReplies.HeadersRead | src/reverse_proxy_handler.cc:134-148 | the headers of a printed head are read back |
| HttpReplies.ReplyRoundTrip | src/reverse_proxy_handler.cc:77-89 | status, header map and body of a printed reply are read back, for every body and every plain header |
| HttpReplies.NoStatusIsBadRequest | src/reverse_proxy_handler.cc:124-131 | without two spaces the status read is 400 |
| HttpReplies.HeaderLineIsCut | src/reverse_proxy_handler.cc:139-146 | a header line is cut at its first colon and one character behind that is dropped; a line ending with its first colon throws |
| HttpReplies.HeadAlone | src/reverse_proxy_handler.cc:150-155 | a reply that breaks off behind its last header has its headers and no body |
| Decimal.StoiToString | src/reverse_proxy_handler.cc:128 | every 32-bit integer is read back from its decimal text |
| Decimal.StoiReads | src/reverse_proxy_handler.cc:128 | blanks, one sign and the digits up to the first other character make the number; without a digit, or beyond 32 bits, there is none |
| Decimal.WrittenInDigits | src/reply.cc:29 | numbers are written in the decimal system, digit by digit |
| ReverseProxy.ReplaceKeepsEnd | src/reverse_proxy_handler.cc:200-208 | a replacement within lines brings no new end of a head into being |
| ReverseProxy.RedirectSplits | src/reverse_proxy_handler.cc:73-89 | rewriting a response and splitting it gives the rewritten head and the rewritten body |
| ReverseProxy.ReplyThroughProxy | src/reverse_proxy_handler.cc:73-89 | of a printed reply the proxy recovers status, headers and rewritten body, when the head holds none of the four patterns |
| ReverseProxy.StatusSurvives | src/reverse_proxy_handler.cc:73-80 | the status survives the rewriting, whatever headers and body hold |
| ProxyLinks.RedirectsLinks | src/reverse_proxy_handler.cc:200-208 | of a page of plain text and links, every link gets the prefix in front of its address, and nothing else changes |
| ProxyLinks.RedirectsEveryPageIff | src/reverse_proxy_handler.cc:200-208 | that holds of every page if and only if the prefix brings none of the three later links with it |
| ProxyLinks.LinksAsWritten | src/reverse_proxy_handler.cc:200-208 | the four kinds of links, letter by letter |
| ProxyLinks.PageThroughProxy | src/reverse_proxy_handler.cc:73-89 | a printed reply with such a page arrives with its status, its headers and the page redirected |
| ReverseProxy.OutgoingReparses | src/reverse_proxy_handler.cc:41-42 | what the proxy sends for a valid request is a valid request with the same method, the rest of the uri or a slash, and an empty body if and only if the host holds no end of a head |
| ReverseProxy.OutgoingHeadersRead | src/reverse_proxy_handler.cc:41-42 | what the proxy sends has exactly three headers: the host, the encoding utf-8, and that the connection is to be closed |
| ReverseProxy.ReverseProxyHandler.RemoveHTTPProtocol | src/reverse_proxy_handler.cc:95-108 | host and port become what is left without the protocol |
| ReverseProxy.ReverseProxyHandler.GetNewHostAndPath | src/reverse_proxy_handler.cc:185-198 | a new location becomes host, port and a uri behind the prefix |
| ReverseProxy.RedirectFollowed | src/reverse_proxy_handler.cc:185-198 | a redirect by plain http is followed to its host and its path |
| ReverseProxy.HttpsTakenIff | src/reverse_proxy_handler.cc:95-108 | a redirect to https is taken with port 443 exactly when no plain protocol stands further on |
| ReverseProxy.StripsHttp | src/reverse_proxy_handler.cc:97-99 | the first http:// is cut off with all in front of it, and the port stays |
| ReverseProxy.StripsHttps | src/reverse_proxy_handler.cc:100-106 | without one the first https:// is, and the port becomes 443 |
| ReverseProxy.StripKeepsIff | src/reverse_proxy_handler.cc:95-108 | host and port stay if and only if the host holds neither protocol |
| OrderedMaps.PutUpdates | src/reply.cc:7-9 | storing into an ordered list keeps the order and is a map update |
| OrderedMaps.Canonical | src/reply.cc:41-48 | an ordered list is determined by its map, and so is the order of every loop over it |
| OrderedMaps.DictionaryOrder | src/reply.cc:42-48 | keys are in the order of a dictionary: by the first character that differs, a prefix first |
| Routing.SelectHandler | src/session.cc:62-75 | the selection loop over the handler objects computes the scan over their trees |
| Routing.SelectChoosesWinner | src/session.cc:64-75 | the scan chooses the first handler among those with the longest matching location, or none exactly when nothing matches; it fails exactly when a location is missing its token, or a name at a handler that takes the lead |
| Routing.WinnerIff | src/session.cc:64-75 | a handler is chosen exactly when some non-empty location is a prefix of the uri |
| Routing.WinnerCoversOthers | src/session.cc:68-70 | every other matching location is a prefix of the chosen one |
| Routing.LocationIgnoresOrder | src/session.cc:68-72 | the chosen location does not depend on the order of the handlers |
| Routing.RoutedRequestReparses | src/reverse_proxy_handler.cc:41-42 | for a routed request the path behind the location is always in range, and what the proxy sends is a valid request for it |
| SessionTexts.LocationAndName | src/session.cc:67-71 | the location and the name of a handler are its last statements of these words |
| SessionTexts.HandlersOf | src/session.cc:64 | the handlers are the blocks of the outermost handler statements, in document order |
| SessionTexts.RoutedByLocation | src/session.cc:62-75 | in a configuration with a list of handlers a request goes to the one whose location is the longest beginning of its uri, the first of equal ones |
| SessionTexts.NotRouted | src/session.cc:62-81 | when no location begins the uri there is no handler |
| RequestCounts.RequestMap.Add | src/session.cc:98-108 | the three branches record one more request and keep the map a record of all requests so far |
| RequestCounts.RecordCounts | src/session.cc:98-108 | the update adds one to its own count and to no other, and keeps every count at least one |
| RequestCounts.CountsEveryRun | src/session.cc:98-108 | after every run the count of a uri and a status is the number of requests with both |
| RequestCounts.StoredIffHandled | src/session.cc:98-108 | a uri or a status has an entry exactly when some request had it |
| RequestCounts.RecordIsUnique | src/session.cc:98-108 | two records of the same requests, in any order, are the same map |
| RequestCounts.OrderLeavesNoTrace | src/session.cc:98-108 | the order of the requests leaves no trace in the map |
| RequestCounts.TotalIsLength | src/status_handler.cc:44-53 | the sum over the nested map is the number of requests handled |
| Sessions.StatusHandler.RequestInfoToString | src/status_handler.cc:41-60 | prints every count in order, and as the total the number of requests handled so far |
| Sessions.StatusHandler.HandlersToString | src/status_handler.cc:62-73 | prints name and location of every handler |
| SessionTexts.StatusesLineByLine | src/status_handler.cc:48-52 | cut at its line feeds the list of statuses has a line for each, with its count |
| SessionTexts.StatusIsReadBack | src/status_handler.cc:49-50 | the number in front of such a line is the status |
| SessionTexts.UrisInOrder | src/status_handler.cc:46-47 | each uri stands in front of its own statuses |
| SessionTexts.HandlersLineByLine | src/status_handler.cc:65-70 | a line for each handler, the name and then the location |
| SessionTexts.StatusPageText | src/status_handler.cc:16-30 | the whole page for one handler and one count, letter by letter |
| Sessions.Session.HandleRequest | src/session.cc:48-110 | the text written is that of the specified answer, and exactly this request and its status are added to the record |
| Sessions.Session.Dispatch | src/handler_manager.cc:31-64 | the answer of the handler of the given name, or none where there is no such handler |
| SessionTexts.AnsweredByRoute | src/session.cc:80-91 | a valid request is answered by the handler it is routed to |
| SessionTexts.HandlerNames | src/handler_manager.cc:36-59 | exactly nine names create a handler, and one that gives no reply is replaced by the page for what is not found |
| SessionTexts.InvalidIsBadRequest | src/session.cc:93-97 | an invalid request gets the text of the page for bad requests |
| SessionTexts.ErrorReplies | src/not_found_handler.cc:21-27 | the texts of the two error replies and the head of the status reply, letter by letter |
| SessionTexts.RootNeedsValue | src/session.cc:81 | a root statement without a value leaves every request without a defined answer |
| SessionTexts.CountedUnderUri | src/session.cc:99-107 | a request is counted under the second word of its first line |
| Sessions.StatusNeedsNoRecord | src/session.cc:48-97 | status and definedness of an answer do not depend on the record |
| Sessions.RunCountsRequests | src/session.cc:98-108 | after every run of requests the map holds, for each uri and status, the number of requests so answered; it exists exactly when every request has an answer |
| Sessions.RunIgnoresOrder | src/session.cc:98-108 | the same requests in another order leave the same map, or again none |
| Sessions.StatusPageCountsBefore | src/session.cc:77-108 | the status page has as its total the number of requests before its own, and its own request is counted from then on |
| Sessions.EmptyUriIsBadRequests | src/session.cc:93-108 | the entry of the empty uri exists exactly when some request was not valid, and holds the status 400 alone |

## Left out

- The proxy's `Init`: which statements of its block it takes location, host and port from; these are given to the constructor.
- Sockets, accept and read callbacks, threads, name resolution and the proxy's connection: no semantics beyond the texts they carry.
- The proxy's `SetHeaders`, which copies `Content-Type` or follows a `Location` by another call over the network.
- Unsynchronised access to the shared map by several threads: a request is one step.
- 32-bit overflow of the counters, of `total_count` and of the lengths in the selection loop: they are unbounded here.
- SQLite and the meme handler, static files, the echo, sleep and health check handlers: what they answer is an input.
- File reading, logging, command line, and the trimming of the logged request at `src/session.cc:112-117`.
- `Parse` on a file name, and the tree that is left in the config when `Parse` throws.
- Undefined behaviour is a missing answer (`None`): a second token that is not there, no handler that matches, a handler name that nothing creates. Exceptions are a missing answer or `ok == false`.
- HtmlBuilding.HtmlBuilder.EqualityInject: takes a prefix without metacharacters, because only the one shape of regular expression that such a prefix gives is modelled.
- HtmlBuilding.HtmlBuilder.InjectMap: a map is its list of pairs in key order, with no claim that the list is ordered; the results hold for any order.
- `MemeHandler::GetParams` and `pseudoDecode`: the first repeats `set_params`, the second is a map of characters.
