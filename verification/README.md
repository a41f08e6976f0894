# Patent analyser: concept markers, safe case names and claim citations

This project models three routines of the patent analyser and proves their
behaviour. The analyser is a multi-page Streamlit app that helps a patent
examiner. Nothing in the model performs I/O.

- **Concept markers** (`pages/4_Markers.py`).
  - The concept graph that an earlier page saved as a `{nodes, edges}` record
    is rebuilt as a directed graph (`ConceptGraph`).
  - Its *heads* are the nodes without incoming edges, and every path that
    leaves a head is enumerated by a depth-first search (`Branches`).
  - The result is collected into the record `{Combinations, Heads, Branches}`,
    where each branch becomes a marker `10UG (a, b, …)`. The record is then
    rendered as the text shown to the examiner (`Markers`).
- **Safe case names** (`utils.py`). `secure_filename` turns a user-typed case
  name into a directory and file name (`SecureName`).
- **Claim citations** (`pages/5_Communication.py`). `cit_claim` applies four
  substitutions to the text of claim 1 (`Citations`):
  - it appends a placeholder citation after every extracted feature;
  - it drops everything before the first ASCII letter;
  - it ends a line after every `)`, or after the one `.`, `,`, `;` or `:`
    that directly follows it, so each citation ends its line;
  - it ends a line after a `.`, `,`, `;` or `:` that is followed by a space,
    the word `a` or `an`, and another space; the first space becomes the
    line break.

Shared pieces:

- `Wrappers` holds an `Option` type.
- `PyText` holds Python's `str.isspace` set, ASCII character classes,
  `sep.join` and `str.strip`.
- `Sequences` holds de-duplication, first-occurrence order and post-order:
  each path listed after all of its continuations.

How each routine is modelled:

- **The graph** is a value.
  - It holds the nodes in insertion order, a colour map, an ordered successor
    list per node and an edge-label map.
  - `networkx` behaviour that the code relies on is written out:
    - `add_node` keeps an existing node's position;
    - `add_edge` creates missing endpoints without a colour;
    - a repeated edge keeps its position and takes the new label.
  - `create_graph_from_network_data` is a method with the source's two loops.
    It is proved against reference functions of the input records.
- **The branch search** is a class.
  - `find_all_branches` keeps one `branches` list that the nested `dfs`
    appends to, so it is modelled as class `BranchList` with that list as a
    field.
  - `Dfs` is a recursive method. Its neighbour loop carries an invariant
    against the specification function `BranchesFrom`.
  - Recursion ends because each call adds one node of the graph that is not
    yet on the path (`Unvisited` shrinks).
- **The display** is a method. `format_markers_for_display` appends to a
  string in two nested loops, and is proved against the function `RawText`
  followed by `strip()`.
- **The `re.sub` calls** of both `secure_filename` and `cit_claim` are
  modelled as left-to-right scanners.
  - They follow Python's semantics: the alternative listed first wins, and
    after an empty match the next match must not be empty at the same
    position.
  - The feature list `cl_1_list`, a page global, becomes a parameter.

## Model

| member | source | states |
|---|---|---|
| `ConceptGraph.Graph.AddNode` | pages/4_Markers.py:36 | `G.add_node(id, color=c)`: a new node goes last, an existing one keeps its place and takes the colour; `AddNodeKeepsValid` and `AddNodeStep` state what it keeps |
| `ConceptGraph.Graph.EnsureNode` | pages/4_Markers.py:38 | the implicit endpoint creation of `add_edge`, without attributes; `EnsureNodeKeepsValid` states it keeps the graph well formed |
| `ConceptGraph.Graph.AddEdge` | pages/4_Markers.py:38 | `G.add_edge(u, v, label=l)`: a new edge goes last among `u`'s successors, a repeated one takes the new label; `AddEdgeKeepsValid` and `AddEdgeStep` state what it keeps |
| `ConceptGraph.EmptyGraph` | pages/4_Markers.py:34 | the new graph is well formed and has no nodes |
| `ConceptGraph.AddNodeKeepsValid` | pages/4_Markers.py:36 | `add_node` keeps ids distinct, every node with a successor list and every successor a node |
| `ConceptGraph.EnsureNodeKeepsValid` | pages/4_Markers.py:38 | the endpoint creation done by `add_edge` keeps the graph well formed and makes the endpoint a node |
| `ConceptGraph.AddEdgeKeepsValid` | pages/4_Markers.py:38 | `add_edge` keeps the graph well formed: no duplicate successor, no dangling endpoint |
| `ConceptGraph.CreateGraphFromNetworkData` | pages/4_Markers.py:33-39 | the rebuilt graph is well formed. Its nodes are the distinct node ids and then the edge endpoints, in first-appearance order. Each id has the colour of its last record. Each node's successors are its distinct edge targets in first-appearance order. Each edge has the label of its last record, `""` if the record has none. A missing `nodes` or `edges` list counts as empty. |
| `ConceptGraph.AddNodeStep` | pages/4_Markers.py:35-36 | one `add_node` extends the rebuilt state by exactly one node record |
| `ConceptGraph.AddEdgeStep` | pages/4_Markers.py:37-38 | one `add_edge` extends the rebuilt state by exactly one edge record |
| `ConceptGraph.RebuiltIsValid` | pages/4_Markers.py:33-39 | a graph rebuilt from any records is well formed |
| `ConceptGraph.NodeIdsSpec` | pages/4_Markers.py:35-36 | the node ids are one per record, in record order |
| `ConceptGraph.ColourMapLastWins` | pages/4_Markers.py:35-36 | an id is coloured iff it has a node record, and its colour comes from its last record |
| `ConceptGraph.TargetsWithinEndpoints` | pages/4_Markers.py:37-38 | the source and targets of an edge are among the endpoints that `add_edge` creates |
| `ConceptGraph.TargetsAreEdges` | pages/4_Markers.py:37-38 | `v` is a successor of `u` iff some edge record goes from `u` to `v` |
| `ConceptGraph.LabelMapHasEdges` | pages/4_Markers.py:37-38 | every edge record labels its pair |
| `ConceptGraph.LabelMapOnlyEdges` | pages/4_Markers.py:37-38 | every labelled pair comes from an edge record |
| `ConceptGraph.LabelMapLastWins` | pages/4_Markers.py:37-38 | a pair's label is `edge.get('label', '')` of its last record |
| `Branches.FindHeadNodes` | pages/4_Markers.py:41-42 | `find_head_nodes(G)`; `FindHeadNodesSpec` states it is exactly the nodes nothing points to, once each, in node order |
| `Branches.BranchesFrom` | pages/4_Markers.py:46-52 | what `dfs(path)` appends: the branches of each neighbour not on the path, then the path if it has two or more nodes; `FindAllBranchesSpec` characterises it |
| `Branches.Explore` | pages/4_Markers.py:48-50 | the neighbour loop of `dfs`; `BranchList.Dfs` is proved against it |
| `Branches.InDegreeZero` | pages/4_Markers.py:42 | `in_degree(n) == 0` iff no node has an edge to `n` |
| `Branches.HeadsAmongSpec` | pages/4_Markers.py:42 | the comprehension keeps exactly the nodes of in-degree 0, each once, in iteration order |
| `Branches.FindHeadNodesSpec` | pages/4_Markers.py:41-42 | `find_head_nodes` returns exactly the nodes nothing points to, without repeats, in node order |
| `Branches.NoHeadsWhenAllEntered` | pages/4_Markers.py:41-42 | when every node has an incoming edge (a cycle with no entry), there are no heads |
| `Branches.UnvisitedShrinks` | pages/4_Markers.py:48-50 | extending the path by a node not yet on it strictly shrinks the set of nodes not on the path, so the search ends |
| `Branches.BranchList.constructor` | pages/4_Markers.py:45 | the shared branch list starts empty |
| `Branches.BranchList.Dfs` | pages/4_Markers.py:46-52 | `dfs(path)` appends exactly `BranchesFrom(path)` to the shared list: the branches of every unvisited neighbour in turn, then the path itself if it has two or more nodes |
| `Branches.FindAllBranches` | pages/4_Markers.py:44-54 | the list returned is the branches found from `[start]` |
| `Branches.BranchesShape` | pages/4_Markers.py:46-52 | every branch found from a simple path extends it, is itself a simple path and has two or more nodes |
| `Branches.BranchesComplete` | pages/4_Markers.py:46-52 | every simple path that extends the current path is found |
| `Branches.BranchesDistinct` | pages/4_Markers.py:46-52 | no branch is found twice |
| `Branches.BranchesPostOrder` | pages/4_Markers.py:46-52 | a branch is listed after every branch that continues it |
| `Branches.FindAllBranchesSpec` | pages/4_Markers.py:44-54 | the branches from `s` are exactly the simple paths of two or more nodes starting at `s`. Each appears once, after all its continuations. |
| `Branches.HasBranches` | pages/4_Markers.py:44-54 | the search from `s` finds something iff `s` has an edge to another node. For a head this means iff `s` has an outgoing edge. |
| `Branches.ChainBranches` | pages/4_Markers.py:44-54 | on a chain `a → b → c` the branches are `[a, b, c]` and then `[a, b]`: every prefix is recorded, not only the maximal path |
| `Markers.FormatBranch` | pages/4_Markers.py:62 | `f"10UG ({', '.join(branch)})"`; `HeadEntry` states every branch of a head is formatted by it |
| `Markers.MarkerLines` | pages/4_Markers.py:61-64 | the list comprehension with the `len(branch) > 1` filter; `MarkerLinesAllLong` states it keeps and formats every branch of two or more nodes |
| `Markers.BranchesInfo` | pages/4_Markers.py:60-67 | the `Branches` dict comprehension; `BranchesInfoSpec` states its keys and entries |
| `Markers.GenerateMarkersDict` | pages/4_Markers.py:56-72 | `generate_markers_dict`; `GenerateMarkersDictSpec` characterises each of its three parts |
| `Markers.MarkerLinesAllLong` | pages/4_Markers.py:62-63 | when every branch has two or more nodes, the filter keeps them all, formatted in order |
| `Markers.HeadEntry` | pages/4_Markers.py:61-66 | a head passes the `any(...)` test iff it has an outgoing edge, and its entry formats every branch found from it |
| `Markers.BranchesInfoSpec` | pages/4_Markers.py:60-67 | the `Branches` dict has, in head order, exactly the heads with an outgoing edge, each with the markers of all its branches |
| `Markers.GenerateMarkersDictSpec` | pages/4_Markers.py:56-72 | `Combinations` is the id of every node record in input order, repeats kept. `Heads` is exactly the heads in node order. `Branches` has exactly the heads with an outgoing edge, in head order, each with the marker of every branch in search order. |
| `Markers.FormatMarkersForDisplay` | pages/4_Markers.py:74-85 | the text is the stripped concatenation of one section per item: the key, a blank line, the list lines or each `head:` and its lines, then the separator rule |
| `Markers.StripBlanksAfterRule` | pages/4_Markers.py:84-85 | `strip()` removes exactly the space and blank line that follow the final rule |
| `Markers.StripRemovesTrailingBlanks` | pages/4_Markers.py:74-85 | when the first key does not start with whitespace, the shown text is every section in order, and the last one ends at its rule |
| `Markers.DisplayText` | pages/4_Markers.py:74-85 | the text shown for a marker record is the `Combinations` and `Heads` sections and then the `Branches` section up to its rule |
| `PyText.LStrip` | pages/4_Markers.py:85 | the result is a suffix, does not start with a stripped character, and only stripped characters were dropped |
| `PyText.RStrip` | pages/4_Markers.py:85 | the result is a prefix, does not end with a stripped character, and only stripped characters were dropped |
| `PyText.StripTrailing` | pages/4_Markers.py:85 | stripping text whose ends are kept, followed by strippable characters, gives back the text |
| `SecureName.AsciiOnly` | utils.py:19 | only ASCII characters remain, and ASCII text is unchanged |
| `SecureName.RemoveDisallowed` | utils.py:20 | only word characters, `.`, `-` and spaces remain. A character survives iff it was present and allowed. |
| `SecureName.RemoveDisallowedAppend` | utils.py:20 | the filter works character by character, so it distributes over concatenation |
| `SecureName.CollapseNoWhitespace` | utils.py:21 | text without whitespace is unchanged by `\s+ → _` |
| `SecureName.CollapseAppend` | utils.py:21 | the `\s+` substitution splits over a concatenation, carrying whether a whitespace run is open |
| `SecureName.CollapseAllSpace` | utils.py:21 | a non-empty whitespace run alone becomes exactly one `_` |
| `SecureName.CollapseRun` | utils.py:21 | a maximal whitespace run between two pieces becomes exactly one `_`, and the pieces are substituted independently |
| `SecureName.CollapseKeepsSafe` | utils.py:20-21 | after filtering and collapsing, only word characters, `.` and `-` remain |
| `SecureName.StripKeepsSafe` | utils.py:21 | `.strip("._")` keeps the characters safe and leaves neither `.` nor `_` at either end |
| `SecureName.SecureFilename` | utils.py:17-26 | the result is non-empty, consists of word characters, `.` and `-`, and neither begins nor ends with `.` or `_` |
| `SecureName.SecureFilenameKeepsEssential` | utils.py:19-23 | the result is `"file"` when the ASCII input has no letter, digit or `-`; otherwise the result's letters, digits and `-` are exactly those of the input, in order |
| `SecureName.RemoveDisallowedKeepsEssential` | utils.py:20 | the filter keeps every letter, digit and `-`, in order |
| `SecureName.CollapseKeepsEssential` | utils.py:21 | the `\s+ → _` substitution keeps every letter, digit and `-`, in order |
| `SecureName.StripKeepsEssential` | utils.py:21 | `.strip("._")` keeps every letter, digit and `-`, in order |
| `SecureName.CollapseWhitespace` | utils.py:21 | `re.sub(r"\s+", "_", …)`; `CollapseRun` and `CollapseNoWhitespace` state that each maximal whitespace run becomes one `_` and other text is unchanged |
| `SecureName.SecureIsFixedPoint` | utils.py:17-26 | a name that already has that form is returned unchanged |
| `SecureName.Idempotent` | utils.py:17-26 | sanitising twice is sanitising once (the pages re-sanitise the stored name) |
| `Citations.Alternatives` | pages/5_Communication.py:29 | the pattern has at least one alternative. It is the feature list itself, or the single empty alternative `\b()\b` when the list is empty. |
| `Citations.FirstFit` | pages/5_Communication.py:29 | the alternative chosen fits at the position between word boundaries, and is not empty when an empty match is barred |
| `Citations.FirstFitIsFirst` | pages/5_Communication.py:29 | no earlier alternative fits there, and the match fails only when none fits |
| `Citations.ScanStep` | pages/5_Communication.py:39 | one search step covers exactly the text it consumes, and consumes nothing only when an empty match is allowed there, after which the next step must advance |
| `Citations.ScanStepIsMatch` | pages/5_Communication.py:29-39 | a step yields a genuine feature match, or copies a character where no non-empty feature fits |
| `Citations.Replacement` | pages/5_Communication.py:31-37 | the callback gives the matched text followed by the citation, whatever character follows the match |
| `Citations.ScanCoversText` | pages/5_Communication.py:39 | the matched and copied pieces cover the text exactly, in order |
| `Citations.ScanIsGenuine` | pages/5_Communication.py:29-39 | every piece of the scan is a genuine match or a copy where no non-empty feature fits |
| `Citations.RenderAnnotates` | pages/5_Communication.py:31-39 | the substitution's output is the pieces, with the citation after every matched feature |
| `Citations.InjectCitationsSpec` | pages/5_Communication.py:28-39 | the first substitution cuts the text into genuine pieces that cover it exactly, and outputs them with a citation after each matched feature |
| `Citations.InjectCitations` | pages/5_Communication.py:29-39 | the citation substitution; `InjectCitationsSpec` states it is an exact cover of the text with the citation after each matched feature |
| `Citations.DropLeadingNonLetters` | pages/5_Communication.py:40 | `re.sub(r"^[^a-zA-Z]+", "", …)`; `PyText.LStrip` states the result is a suffix, empty or starting with a letter, and only non-letters were dropped |
| `Citations.BreakAfterParens` | pages/5_Communication.py:41 | the `)` substitution; `BreakAfterParensRoundTrip` and `BreakAfterParensBreaks` state what it inserts |
| `Citations.BreakBeforeArticles` | pages/5_Communication.py:42 | the article substitution; `BreakBeforeArticlesPointwise` states which characters it changes |
| `Citations.CitClaim` | pages/5_Communication.py:28-43 | `cit_claim(comm_text)` with `cl_1_list` as a parameter; `CitClaimShape` and the lemmas of its four steps state what it does |
| `Citations.BreakAfterParensRoundTrip` | pages/5_Communication.py:41 | the `)` substitution only inserts line breaks: removing them restores the text |
| `Citations.BreakAfterParensBreaks` | pages/5_Communication.py:41 | after it, every `)` ends its line, possibly after one of `.,;:` |
| `Citations.BreakAfterParensFirst` | pages/5_Communication.py:41 | it keeps the first character |
| `Citations.ArticleMatchLength` | pages/5_Communication.py:42 | a match is a punctuation mark, a space and `a ` or `an `, of length 4 or 5, within the text |
| `Citations.BreakBeforeArticlesPointwise` | pages/5_Communication.py:42 | the article substitution keeps the length. Exactly the spaces between a punctuation mark and a standalone `a`/`an` become line breaks. |
| `Citations.BreakBeforeArticlesKeepsParens` | pages/5_Communication.py:41-42 | the article substitution keeps every `)` at the end of its line |
| `Citations.BreakBeforeArticlesFirst` | pages/5_Communication.py:42 | the article substitution keeps the first character |
| `Citations.CitClaimShape` | pages/5_Communication.py:28-43 | the edited claim is empty or starts with a letter. Every `)` in it, including each citation's, ends its line after at most one punctuation mark. |

## Left out

- Streamlit pages, session state, file and Google Drive I/O, the spaCy model
  and the Pyvis network page are outside the model.
  - The network record and the feature list are parameters.
- Node ids, edge endpoints and colours are strings.
  - JSON records with other key types, or with missing `id`, `color`,
    `source` or `target` keys (a `KeyError` in the source), are not
    modelled.
  - An edge `label` may be absent, which gives `""`. A JSON `null` label is
    not distinguished from a string.
- `SecureName.AsciiOnly`: `unicodedata.normalize("NFKD", …)` is not modelled.
  - The model drops every non-ASCII character.
  - Python first decomposes accented letters and keeps their ASCII base
    letter, so the two agree only on ASCII input.
- `SecureName.SecureFilename`: the `allow_uuid_suffix=True` branch appends
  random hex digits. It is left out because it draws on randomness and no
  caller uses it.
- `PyText.IsWordChar`: `\w` is ASCII letters, digits and `_`. Python's
  Unicode `\w` also accepts other letters.
  - After `AsciiOnly` this makes no difference to `secure_filename`.
  - In `cit_claim` it matters only for the word boundaries next to
    non-ASCII letters.
- `Markers.FormatBranch`: markers are not proved injective. A node id
  containing `", "` can make two branches format alike.
- `Branches.ChainBranches` is stated for any three distinct nodes joined in
  a chain, not for one literal graph.
- `Branches.FindAllBranches` requires its start to be a node of the graph.
  In the source it is called only with heads, which are nodes.
- `Citations.ArticleMatchLength`: the second `\b` of the pattern is folded
  into the following space. This is exact, because a space always ends a
  word.
- `Branches.BranchList.Dfs` has no depth bound. `dfs` recurses once per node
  on the path, so Python raises `RecursionError` on a simple path longer than
  its recursion limit (about a thousand nodes by default). The model
  returns the branches there as well.
