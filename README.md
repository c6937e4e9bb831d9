# isu-oshihakaru log flow, in Dafny

isu-oshihakaru draws a Sankey diagram of how clients move through a web
application's endpoints. The user gives two texts:
- a list of endpoint definitions, one `METHOD /path/:param` per line;
- an access log in LTSV form, with tab-separated `name:value` fields per line.

Two functions in `pages/index.tsx` do the work, and this project models both.

`parseEndpoints` splits the definitions into lines. Each line becomes an
endpoint (its name, its HTTP method and an anchored matcher for its path) or
one error.

`parseLog` makes one pass over the log lines and classifies each as follows:
- a field without a colon is an error;
- a missing `method`, `uri` or `uid` is an error;
- a request that no endpoint matches is an error;
- otherwise the line is a visit by client `uid` to the first endpoint that
  matches.

Each visit is named `#k <endpoint>`, where k is the number of the client's
earlier visits. Names are interned into a node list, each client's list of
node indices grows by one, and every visit after a client's first adds a link
from its previous node to the new one.

The project is organised as follows:
- `js_string.dfy`: `trimEnd`, `split` on one character, and the decimal
  numeral of a template literal.
- `path_pattern.dfy`: the matcher built from a path (a `:name` placeholder
  matches a run of word characters, and an optional `.json`-like suffix
  follows). It is modelled as a token list with a recursive matching
  predicate.
- `endpoints.dfy`: `parseEndpoints`, as functions.
- `log_line.dfy`: the per-line checks of `parseLog`, as functions.
- `flow.dfy`: the declarative meaning of a log. It gives the visits, the
  errors, the per-client ordinals, the node names in first-seen order, and
  the transitions between a client's consecutive visits.
- `log_graph.dfy`: `parseLog` itself. It is a method with a loop over the
  lines that updates local variables as the source does. A state function
  `Build` mirrors those variables, and lemmas tie `Build` to the declarative
  meaning.

The `links` variable in the source is a `Map` keyed by a pair built afresh
for every transition (pages/index.tsx:78). JavaScript compares such keys by
identity, so `links.get(link)` never finds an earlier entry. Every transition
therefore becomes its own entry with value 1, in insertion order, and the
model keeps that list. `LogGraph.WeightCountsTransitions` proves that the
values summed per pair of nodes still count that pair's transitions.

## Model

| member | source | states |
|---|---|---|
| JsString.TrimEnd | pages/index.tsx:14 | the result is a prefix of the input that does not end in whitespace, and everything cut off is whitespace |
| JsString.TrimEndUnique | pages/index.tsx:14 | those three properties determine the trimmed string |
| JsString.Split | pages/index.tsx:14-15 | there is one more piece than there are separators, and no piece contains the separator |
| JsString.SplitJoinsBack | pages/index.tsx:14-15 | joining the pieces with the separator gives the input back |
| JsString.SplitJoin | pages/index.tsx:14-15 | splitting a join of separator-free pieces gives the pieces back |
| JsString.Lines | pages/index.tsx:14 | at least one line, no line contains a newline, and the lines joined by newlines are the trimmed text |
| JsString.Decimal | pages/index.tsx:17 | the numeral is non-empty, all digits, reads back as the number, and only the numeral of 0 starts with `0` (so `0` is `"0"` and no numeral has a leading zero) |
| PathPattern.WordRun | pages/index.tsx:24 | the greedy `\w+` length: all word characters, stopping at a non-word character or the end |
| PathPattern.Compile | pages/index.tsx:24 | the tokens leave no word character right after a wildcard or a literal colon, and a wildcard comes first exactly when the pattern starts with `:` and a word character |
| PathPattern.CompileRoundTrip | pages/index.tsx:24 | putting each placeholder's `:name` back in place of its wildcard spells the pattern again |
| PathPattern.CompileUnique | pages/index.tsx:24 | any well-formed token list that spells the pattern this way is its compilation, with those names |
| PathPattern.FillMatches | pages/index.tsx:24 | filling every wildcard with a word run gives a string the tokens match |
| PathPattern.MatchIsFill | pages/index.tsx:24 | every string the tokens match is such a filling |
| PathPattern.MatchIffFill | pages/index.tsx:24 | the tokens match a string exactly when the string is a filling |
| PathPattern.AcceptsIffInstance | pages/index.tsx:24 | the matcher accepts a uri exactly when the uri is a filling followed by nothing or by one non-line-terminator character and `json` |
| Endpoints.ParseEndpointLineShape | pages/index.tsx:15-25 | a line gives an endpoint exactly when it holds one space; the endpoint's name is the whole line, its method is the text before the space and its matcher is compiled from the text after it; otherwise the error has the line's number and text |
| Endpoints.Collect | pages/index.tsx:14-20 | flattening gives as many endpoints plus errors as there are line results |
| Endpoints.CollectAppend | pages/index.tsx:14-20 | flattening two blocks concatenates their endpoints and their errors |
| Endpoints.CollectEndpoints | pages/index.tsx:14-25 | the endpoints are exactly those of the lines that define one |
| Endpoints.CollectErrors | pages/index.tsx:16-19 | the errors are exactly those of the malformed lines |
| Endpoints.CollectErrorsOrdered | pages/index.tsx:16-19 | errors keep the order of their lines |
| Endpoints.ParseEndpoints | pages/index.tsx:12-28 | #endpoints + #errors = #lines of the trimmed text |
| Endpoints.ParseLinesDefined | pages/index.tsx:14-25 | an endpoint is in the result exactly when some line defines it |
| Endpoints.ParseLinesErrors | pages/index.tsx:15-19 | the error for line n with text raw is in the result exactly when line n is raw and raw does not hold exactly one space |
| Endpoints.ParseLinesErrorsOrdered | pages/index.tsx:13-19 | the errors are in increasing line order |
| Endpoints.ParseLinesOrder | pages/index.tsx:14-27 | splitting the lines into two blocks concatenates the blocks' endpoints and errors, so both lists keep line order |
| Endpoints.ParseEndpointLineError | pages/index.tsx:16-18 | a line is malformed exactly when it does not hold exactly one space, and its error names it |
| Endpoints.LineError | pages/index.tsx:17 | every error text starts with `Line `, its number reads back as the line number, the text between the numeral and the quoted raw line is `: <reason>: "`, and it ends with the quoted raw line |
| LogLine.SplitField | pages/index.tsx:43-45 | no pair exactly when the field has no colon; otherwise the name is the text before the first colon and the value runs from it to the second colon or the end, neither containing a colon |
| LogLine.FieldPairs | pages/index.tsx:42-50 | the line is rejected exactly when some field has no colon; otherwise there is one pair per field, each that field's split |
| LogLine.FieldMapKeys | pages/index.tsx:51 | the map's keys are exactly the pairs' names |
| LogLine.FieldMapLastWins | pages/index.tsx:51 | a name's value is that of its last pair |
| LogLine.FindEndpoint | pages/index.tsx:59 | a found index is the first endpoint with the line's method whose matcher accepts the uri; not finding one means no endpoint fits |
| LogLine.ClassifyLineNames | pages/index.tsx:47-63 | every error carries the line's number and text |
| LogLine.ClassifyLineColon | pages/index.tsx:42-50 | the first check: the line is rejected for a missing colon exactly when one of its tab-separated fields has none |
| LogLine.ClassifyLineRequired | pages/index.tsx:51-58 | the second check, when every field has a colon: rejected for a missing field exactly when `method`, `uri` or `uid` is absent |
| LogLine.ClassifyLineMatch | pages/index.tsx:59-63 | the third check: rejected exactly when no endpoint fits; an accepted visit is by `uid` to the first endpoint that fits |
| LogLine.Outcomes | pages/index.tsx:41 | one outcome per line |
| LogLine.OutcomesAt | pages/index.tsx:41 | line i has the outcome of classifying it as line number i + 1 |
| LogLine.OutcomesStep | pages/index.tsx:41 | one more line adds its outcome at the end |
| Flow.VisitsErrorsCount | pages/index.tsx:41-63 | every line is either a visit or an error: #visits + #errors = #lines |
| Flow.VisitsOfMembers | pages/index.tsx:64-84 | the visits are exactly those of the accepted lines |
| Flow.ErrorsOfMembers | pages/index.tsx:47-63 | the errors are exactly those of the rejected lines |
| Flow.RejectedLineInert | pages/index.tsx:47-63 | a rejected line adds its error and leaves the visits, and so the graph, unchanged |
| Flow.AcceptedLine | pages/index.tsx:64-84 | an accepted line adds its visit and no error |
| Flow.LogErrorsOrdered | pages/index.tsx:47-62 | every error names a line of the log by its number and text, and errors come in increasing line order |
| Flow.NameSeq | pages/index.tsx:69 | one node name per visit |
| Flow.NameSeqAt | pages/index.tsx:64-69 | visit i is named `#k <endpoint>`, with k the number of the same client's earlier visits |
| Flow.VisitStep | pages/index.tsx:64-79 | one more visit raises that client's count by one, appends its name, makes it the client's last name and adds the transition from the previous name exactly when the client had visited before; other clients are untouched |
| Flow.Dedup | pages/index.tsx:70-75 | the names, each once: distinct and with the same members |
| Flow.DedupStep | pages/index.tsx:70-75 | a seen name leaves the list alone; a new name is appended |
| Flow.DistinctUidsSpec | pages/index.tsx:64-68 | the clients are distinct and are exactly those with a visit |
| Flow.TransitionCount | pages/index.tsx:77-84 | #transitions + #clients = #visits |
| Flow.NodeNameRank | pages/index.tsx:69 | the ordinal reads back from a node name |
| Flow.NodeNameInjective | pages/index.tsx:69 | different ordinals or endpoints give different names |
| Flow.LastNameRank | pages/index.tsx:69 | a client's last name has ordinal count − 1 and is one of the names |
| Flow.TransitionsLayered | pages/index.tsx:69-79 | every transition joins two visited names and goes from ordinal k to k + 1 |
| LogGraph.IndexOf | pages/index.tsx:70-74 | the position of a name, or the length when absent |
| LogGraph.IndexOfAppend | pages/index.tsx:72-74 | appending keeps earlier positions and puts a new name last |
| LogGraph.IndexMapAt | pages/index.tsx:70-74 | for distinct names, `nodeToIndex` holds exactly the names, each at its position |
| LogGraph.BuildStep | pages/index.tsx:41-85 | one more visit is one more step of the callback |
| LogGraph.NodesStep | pages/index.tsx:64-76 | one visit appends its name to the nodes exactly when it is new, keeps the nodes the distinct names and `nodeToIndex` their positions, and the client's last index points at the name |
| LogGraph.NodesStepList | pages/index.tsx:69-75 | the node list after one visit |
| LogGraph.NodesStepIndex | pages/index.tsx:70-73 | `nodeToIndex` after one visit |
| LogGraph.IndexMapPush | pages/index.tsx:70-75 | interning a name into a list of distinct names keeps the map the list's position map: a known name changes nothing, a new one maps to the position it is appended at |
| LogGraph.NodesStepTarget | pages/index.tsx:70-76 | the pushed index is the position of the visit's name |
| LogGraph.AccessStepSame | pages/index.tsx:64-76 | the visiting client's index list has one entry per visit and ends at its last node |
| LogGraph.AccessStepOther | pages/index.tsx:64-76 | other clients' index lists keep that property |
| LogGraph.RealizesGrow | pages/index.tsx:74 | appending nodes keeps the links pointing at the same names |
| LogGraph.RealizesAppend | pages/index.tsx:77-84 | appending a matching link keeps links and transitions in step |
| LogGraph.LinksStep | pages/index.tsx:77-84 | after one visit the links are still the transitions, one entry each, in order |
| LogGraph.LinksStepRepeat | pages/index.tsx:77-84 | a returning client adds the link from its previous node to its new one |
| LogGraph.BuildNodes | pages/index.tsx:69-76 | the nodes are the visits' names in first-seen order, and `nodeToIndex` maps each to its position |
| LogGraph.BuildAccess | pages/index.tsx:64-76 | a client has an index list exactly when it has visited; the list has one entry per visit and ends at the client's last node |
| LogGraph.BuildLinks | pages/index.tsx:77-84 | the links are the transitions, one entry with value 1 each, in order |
| LogGraph.WeightCountsTransitions | pages/index.tsx:77-84 | the values summed over the entries for a pair of nodes equal the number of transitions between their names |
| LogGraph.LinksLayered | pages/index.tsx:69-79 | every link goes from a node with ordinal k to one with ordinal k + 1 |
| LogGraph.PathRank | pages/index.tsx:69-79 | along a path of such links the ordinal rises by one per step |
| LogGraph.NoCycle | pages/index.tsx:69-79 | no path of links returns to its start, so the graph is acyclic |
| LogGraph.AddVisit | pages/index.tsx:64-84 | the callback's updates for an accepted line give the state `Step` describes |
| LogGraph.ParseLog | pages/index.tsx:30-92 | the nodes are the visits' names in first-seen order, the links realise the transitions in order, and the errors are the rejected lines' errors in order; #links = #visits − #distinct clients, and the links are layered |

## Left out

- The `PageIndex` component (pages/index.tsx:94-161): state hooks, text areas, the Sankey rendering and styling are user interface.
- Showing at most ten errors, joined by `. ` (pages/index.tsx:113, 128): this is presentation only.
- Regular expressions in general: literal characters of a path are taken to be free of metacharacters, so each matches itself. An invalid pattern that makes `RegExp` throw is not modelled.
- Strings are sequences of Unicode scalar values, while JavaScript strings are UTF-16 code units. Surrogate pairs and lone surrogates are not distinguished. The one place this changes a result is the `.` of `(.json)?`: it matches one code unit, so the source rejects `/a/1😀json` for `GET /a/:id`, while `PathPattern.IsJsonSuffix` accepts it, since 😀 is one character here.
- TrimEnd: removes a fixed list of whitespace characters (ECMAScript WhiteSpace and LineTerminator, with the space separators as listed in `JsString.IsTrimmable`). The set is not taken from a Unicode database.
- Object identity of the `links` keys is not modelled; only its visible effect is, namely one appended entry with value 1 per transition.
- Error texts are records (kind, 1-based line, raw line). `Endpoints.EndpointMessage` and `LogLine.LogMessage` render them through `Endpoints.LineError`. That function states each part of the text: the `Line ` prefix, the line number, `: <reason>: "` and the quoted raw line. The two renderers add no contract of their own beyond passing their fixed reason.
- A node is represented by its name; the `{ name }` object the source pushes is not modelled.
- `nodeToIndex` and `accesses` are local to `parseLog` and are not part of its result. `ParseLog`'s ensures do not mention them. Only its loop invariant does, by equating the locals to `Build` of the visits so far. `LogGraph.BuildNodes` and `LogGraph.BuildAccess` state their properties.
- The in-place `push` on a client's index array, which the map entry aliases, is modelled by writing the extended list back into the map.
