# Botshot flow plotter: graph construction

This project models how the Botshot flow plotter (`GraphPlot` in
`botshot-graph.py`, with its helpers in `utility.py`) turns a bot's flow file
into a graph. It covers:

- **State identifiers and reference resolution** (`StateRefs`). A state is
  named `flow.state`. `flow_and_state` resolves a reference that is either
  absolute (`flow.state`) or relative (`state`). It walks the known flow names
  in order. Each flow whose name and a dot prefix the remaining reference is
  stripped off and remembered, so the last match wins. It is modelled as a
  left fold, `StripFlows`. An empty flow list fails the `assert`. A remembered
  flow named `""` is falsy in Python, so the reference then falls back to the
  current flow.
- **Comment stripping** (`Comments`). `remove_comments` applies three lazy
  regular-expression deletions in order: `'''.*?'''` and `""".*?"""`, which
  may span lines, then `#.*?\n`. All three are one left-to-right scan,
  `RemoveFrom`. An opener followed by a closer somewhere after it is deleted
  through the first such closer. Otherwise one character is kept and the
  scan moves on.
- **The `return` scan** (`Returns`). `re.finditer('(^|\W)return($|\W)', text)`
  reports each match by its start. `$` is the end of the text or the position
  just before a final newline. `$` is tried before `\W`, and matches never
  overlap. After each match, the return value is the first whitespace-free
  token of `text[i + 7:]`, with all quotes stripped from both ends and one
  trailing colon dropped. A `return` with nothing after it raises.
- **Custom action paths** (`ActionPaths`). An action `pkg.mod.fn` names the
  function `fn` in the file `pkg/mod.py`.
- **Flow colours** (`Colors`). `generate_colors(n)` advances three random
  start channels by `256 / n` modulo 256, once per colour, and formats each
  triple as `#rrggbb`. The start channels are parameters. Python adds the
  float `256 / n` to an integer channel and truncates the sum. That equals
  adding the integer quotient, so the model uses integer arithmetic. `n == 0`
  divides by zero.
- **Nodes and edges** (`Graph`):
  - The flow file is a sequence of flows in file order.
  - The handler sources are a map from handler location to source text. This
    map stands in for loading the module and reading the function's source.
  - `create_graph_nodes` emits the initial `default.root` node first, filled
    with the colour of the `default` flow. It then emits every other state,
    flow by flow.
  - `create_graph_edges` emits, for each state, either one edge to the
    resolved `next` of a mapping action, or one edge per `return` of the
    custom handler's comment-stripped source.
  - Whatever Python raises stops the whole plot. This is modelled as `Err`
    with an `Error` variant per exception (`Base`).

The plotter has no per-state error recovery, no edge de-duplication and no
JSON exporter. In `create_graph_edges` the bare `except:` catches whatever the
mapping branch raises and sends the state to the custom-action branch; an
exception raised there propagates, and a non-string action fails there on
`.split`. Edges are added once per transition with repeats kept, and only
graphviz output exists.

## Model

| member | source | states |
|---|---|---|
| StateRefs.StateIdentifier | utility.py:89-101 | the identifier is the flow name, a dot and the state name, so its length is one more than theirs together |
| StateRefs.IdentifierSplitsAtOnlyDot | botshot-graph.py:92-104 | an identifier whose only dot is at index `k` determines its flow and state: they are the text before and after `k` |
| StateRefs.FlowAndState | botshot-graph.py:118-133 | resolution fails, with the flows-not-initialized assertion, exactly when the flow list is empty |
| StateRefs.StripFlowsSuffix | botshot-graph.py:124-127 | each pass of the flow loop only removes a prefix of the reference, and the remembered flow is the earlier one or one of the flows |
| StateRefs.ResolvedShape | botshot-graph.py:121-133 | the resolved state is a suffix of the reference, and the resolved flow is the current flow or a non-empty known flow name |
| StateRefs.StripFlowsAppend | botshot-graph.py:124-127 | looping over `a + b` is looping over `b` from where the loop over `a` ended |
| StateRefs.LastMatchWins | botshot-graph.py:124-127 | a flow checked later that prefixes the already stripped remainder is stripped in turn and becomes the resolved flow; one that does not changes nothing |
| StateRefs.StripFlowsNoMatch | botshot-graph.py:124-127 | when no flow prefixes the reference, the loop leaves it and the remembered flow unchanged |
| StateRefs.StripFlowsShortens | botshot-graph.py:124-127 | when some flow prefixes the reference, the remainder ends strictly shorter |
| StateRefs.RelativeReference | botshot-graph.py:124-133 | the state comes back unchanged exactly when no known flow prefixes the reference, and the reference then resolves in the current flow |
| StateRefs.ResolveIdentifier | botshot-graph.py:104-133 | round trip: `flow.state` resolves to `(flow, state)` when no earlier flow prefixes the identifier and no later flow prefixes the state |
| Text.IndexOfFirst | utility.py:68 | the search finds an occurrence, the first one at or after the start, and finds none only when there is none |
| Comments.RemoveFromSubsequence | utility.py:68-72 | one substitution scan only deletes: what it keeps is a subsequence of the text it scans |
| Comments.RemoveDelimitedSubsequence | utility.py:68 | a whole substitution's result is a subsequence of its input |
| Comments.RemoveFromKeepsAll | utility.py:68-72 | when no closed span starts at or after `p`, the scan keeps the text from `p` as it is |
| Comments.RemoveDelimitedKeepsAll | utility.py:68-72 | when no closer follows any opener, the substitution returns its input |
| Comments.RemoveFromFirst | utility.py:68-72 | the text before the first opener is kept; the opener, its first closer and everything between go; the scan resumes after the closer |
| Comments.RemoveFromShifted | utility.py:68-72 | the scan of a text that lacks the first `q` characters of another, from `p`, equals the scan of the other from `q + p` |
| Comments.RemoveFromSuffix | utility.py:68-72 | scanning a suffix gives the same as scanning the whole text from where the suffix starts |
| Comments.RemoveDelimitedFirst | utility.py:68-72 | the substitution keeps what precedes the first closed span, drops the span, and is the same substitution on the rest |
| Comments.RemoveCommentsDeletesOnly | utility.py:56-74 | comment removal only deletes: the result is a subsequence of the source and never longer |
| Comments.RemoveCommentsWithoutOpeners | utility.py:67-74 | source with no `'''`, `"""` or `#` comes back unchanged |
| Comments.LineCommentRemoved | utility.py:71-72 | a line comment is removed from `#` through the following newline inclusive, and removal goes on after it |
| Comments.UnterminatedLineCommentKept | utility.py:72 | a `#` with no newline anywhere after it is kept, and so is everything else |
| Returns.ScanReturns | utility.py:87 | every reported index is a match, the indexes strictly increase, and each match ends at or before the next index |
| Returns.ReturnIndexesWholeWord | utility.py:87 | each index marks a whole-word `return`, preceded by the text start or a non-word character and followed by the text end or a non-word character |
| Returns.ScanReturnsComplete | utility.py:87 | a match position is missing from the result only when it lies strictly inside an earlier reported match |
| Returns.SkipSpaces | botshot-graph.py:203 | the scan stops at the first non-whitespace character, having passed only whitespace |
| Returns.SkipToken | botshot-graph.py:203 | the scan stops at the first whitespace character, having passed none |
| Returns.FirstToken | botshot-graph.py:203 | there is no first token exactly when the text is all whitespace; a token is non-empty and has no whitespace |
| Returns.StripLeadingQuotes | botshot-graph.py:204 | the result is a suffix; everything removed is a quote, and the result does not start with one |
| Returns.StripTrailingQuotes | botshot-graph.py:204 | the result is a prefix; everything removed is a quote, and the result does not end with one |
| Returns.StripQuotes | botshot-graph.py:204 | the result is a middle part of the token with only quotes before and after it, and when non-empty it neither starts nor ends with a quote |
| Returns.ReturnValue | botshot-graph.py:203-207 | there is no value, the error naming the index, exactly when only whitespace follows the keyword and its separator |
| Returns.ReturnValueShape | botshot-graph.py:203-207 | a return value has no whitespace and does not start with a quote |
| Returns.TokenValueShape | botshot-graph.py:204-207 | stripping quotes and a colon from a whitespace-free token leaves a whitespace-free value not starting with a quote |
| Returns.ReturnValues | botshot-graph.py:201-203 | one value per index, the `k`-th read at the `k`-th index |
| Returns.StripQuotesAround | botshot-graph.py:204 | the same quote, or none, on both sides of a body with no quote at its ends is exactly what stripping removes; one-sided and mixed quoting are covered by `StripQuotes` |
| Returns.FirstTokenAfterSpaces | botshot-graph.py:203 | after leading whitespace, the first token is the run of non-whitespace that follows |
| Returns.LiteralReturnValue | botshot-graph.py:203-207 | `return "name"`, `return 'name'`, `return name` and the colon forms all yield `name`, whatever whitespace precedes it |
| Returns.DropColonOnce | botshot-graph.py:206-207 | exactly one trailing colon is dropped, so `a::` gives `a:`, and text not ending in a colon is left alone |
| ActionPaths.LastSegment | botshot-graph.py:192 | the name is a dot-free suffix of the action, preceded by a dot unless it is the whole action |
| ActionPaths.DotsToSlashes | botshot-graph.py:193 | same length; every dot becomes a slash and every other character stays |
| ActionPaths.SplitActionParts | botshot-graph.py:192-193 | the name has no dot; a dotted action is the directory part, a dot and the name, and the path is that directory part with slashes for dots plus `.py`; a dotless action lives in `.py` |
| ActionPaths.LastSegmentOfDotless | botshot-graph.py:192 | an action with no dot is its own name |
| ActionPaths.LastSegmentAfterDot | botshot-graph.py:192 | the name after the last dot is the dot-free text that follows it |
| ActionPaths.SplitComposedAction | botshot-graph.py:192-193 | round trip: `package.name` splits into `name` and the package's path plus `.py` |
| ActionPaths.SplitNestedExample | botshot-graph.py:192-193 | `a.b.c` names the function `c` in `a/b.py` |
| Colors.Hex2 | utility.py:34 | two lower-case hex digits that read back as the channel |
| Colors.FormatColorParses | utility.py:34 | a formatted colour is `#` and six lower-case hex digits, and it reads back as its three channels |
| Colors.FormatDistinct | utility.py:34 | colours whose red channels differ are different strings |
| Colors.ColorRunWellFormed | utility.py:27-34 | every colour of the loop is well formed |
| Colors.ColorRunClosedForm | utility.py:27-34 | the `i`-th colour has each channel advanced `i + 1` steps from its start, modulo 256 |
| Colors.GenerateColors | utility.py:21-36 | fails, as division by zero, exactly when `n` is zero; otherwise gives `n` well-formed colours |
| Colors.GeneratedChannels | utility.py:25-34 | the `i`-th generated colour has each channel advanced `i + 1` times by `256 / n` |
| Colors.ChannelDifferenceConstant | utility.py:28-33 | the difference of two channels, modulo 256, is the same for every colour |
| Colors.ChannelsApart | utility.py:28-33 | different step counts less than one turn apart give different channel values |
| Colors.ColorsDistinct | utility.py:21-36 | for `n` up to 256 the generated colours are pairwise different |
| Colors.StepBounds | utility.py:25 | for `n` up to 256 the step is positive, and fewer than `n` steps stay under one turn |
| Graph.ZipColors | botshot-graph.py:148 | the colour map has exactly the flow names as keys |
| Graph.UniformColors | botshot-graph.py:150 | every flow name, and only those, maps to the given colour |
| Graph.FlowColors | botshot-graph.py:146-150 | fails, as division by zero, exactly when colourful with no flows; keys are the flow names; without colour every flow is `#FFFFFF` |
| Graph.ZipColorsAt | botshot-graph.py:148 | with distinct names each name gets the colour at its own position |
| Graph.FlowColorOf | botshot-graph.py:146-148 | in colour mode the `k`-th flow gets the `k`-th generated colour |
| Graph.FlowColorsDistinct | botshot-graph.py:146-148 | up to 256 distinct flows are drawn in distinct colours |
| Graph.NonInitial | botshot-graph.py:164 | a pair is kept exactly when it is in the input and is not `default.root`; input without `default.root` comes back unchanged |
| Graph.GraphNodes | botshot-graph.py:152-168 | fails exactly when there is no `default` flow; otherwise the first node is the initial `default.root` node with the `default` colour |
| Graph.NonInitialAppend | botshot-graph.py:158-164 | skipping the initial pair distributes over concatenation |
| Graph.NodesOfAppend | botshot-graph.py:158-168 | node creation distributes over concatenation |
| Graph.FlowNodesFollowPairs | botshot-graph.py:160-168 | one flow's nodes are the nodes of its non-initial pairs, in its flow's colour |
| Graph.OtherNodesFollowTraversal | botshot-graph.py:156-168 | the nodes after the initial one are the non-initial pairs of the flow-by-flow traversal, in order |
| Graph.GraphNodesInOrder | botshot-graph.py:152-168 | the node list is the initial node followed by one node per non-initial state in traversal order |
| Graph.InitialIdentifierUnique | botshot-graph.py:154 | `default.root` identifies no (flow, state) pair but the initial one |
| Graph.NodesOfNotInitial | botshot-graph.py:162-168 | no node made from a non-initial pair is initial or carries the initial identifier |
| Graph.InitialNodeOnce | botshot-graph.py:152-168 | the initial node appears once, first, whether or not it is declared: no later node is initial or named `default.root` |
| Graph.ReturnEdges | botshot-graph.py:201-215 | one edge per return value, all from the state; an error is a missing return value or uninitialized flows |
| Graph.CustomEdges | botshot-graph.py:191-215 | succeeds only when the handler is found; fails only for a missing handler, a missing return value or uninitialized flows |
| Graph.ReturnValuesFail | botshot-graph.py:203 | a return value can only fail by there being nothing after the `return` |
| Graph.StateEdges | botshot-graph.py:181-215 | all edges start at the state; a missing action, and nothing else, gives the missing-action error; a non-string action or a mapping without a string `next` gives the action-not-string error; success needs a mapping or a string action |
| Graph.SiteEdgesAppend | botshot-graph.py:179-181 | building edges over two runs of states is building each and sequencing them |
| Graph.FlowEdgesAreSiteEdges | botshot-graph.py:180-181 | one flow's edges are those of its states in order |
| Graph.GraphEdgesAreSiteEdges | botshot-graph.py:179-181 | the nested loops give the same edges as one pass over all states in flow order, then state order |
| Graph.ChainOk | botshot-graph.py:179-215 | a sequence of raising steps succeeds exactly when every step does, and otherwise fails with the first failing step's error |
| Graph.SiteEdgesChain | botshot-graph.py:179-181 | the edge pass is the sequence of per-state results |
| Graph.SiteEdgesOk | botshot-graph.py:179-215 | the edge pass succeeds exactly when every state's edges can be built, and otherwise fails with the first failing state's error |
| Graph.NextEdge | botshot-graph.py:183-190 | a mapping action with a string `next` gives exactly one edge, from the state to the resolved `next` |
| Graph.ReturnEdgesOk | botshot-graph.py:201-207 | a handler's edges can be built exactly when every return value exists |
| Graph.ReturnEdgeAt | botshot-graph.py:201-215 | the `k`-th edge goes to the state the `k`-th return value resolves to |
| Graph.ValueEdges | botshot-graph.py:201-215 | one edge per `return` index, in source order with repeats kept; success exactly when every value exists |
| Graph.ReferenceEdges | botshot-graph.py:191-215 | a custom action gives one edge per `return` of its stripped handler source, in order, to the state each value resolves to, and succeeds exactly when every `return` has a value |
| Graph.MissingHandler | botshot-graph.py:192-197 | a handler that cannot be loaded stops the plot with its name and path |
| Graph.BuildGraph | botshot-graph.py:243-248 | a drawn plot starts with the initial `default.root` node and has a `default` flow; colour mode with no flows fails |
| Graph.BuildGraphSucceeds | botshot-graph.py:243-248 | a plot is drawn exactly when colours can be made, `default` exists and every state's edges can be built; its edges are those of all states in flow, then state order |

## Left out

- Loading handler modules and reading function source (`module_from_file`, `inspect.getsource`) execute foreign code. A map from handler location to source text replaces them, and a missing entry is the failure to load.
- Reading `BOT_CONFIG` and loading the YAML flow file are file I/O. The flows arrive as a sequence in file order; YAML mapping keys are distinct, which `DistinctNames` states where it matters.
- graphviz: `Digraph`, node and edge attributes, and `save_and_show`/`view` render with an external library. The plot is the node and edge sequences in the order graphviz receives them. Node shapes are kept only as the `initial` flag.
- `random.random()` is randomness. The three start channels are parameters.
- The argparse entry point and every `print` are the command line and logging.
- `fsmplot.py` is a separate prototype with its own node naming (`flow: name`) and its own handling of the first `default` state. It is not modelled.
- The flow file's own shape is assumed: every flow has a `states` list, every state has a `name`, and every flow and state name is a string. In Python a missing `states` or `name` key raises `KeyError`, and a non-string name raises `TypeError` when the identifier is built. The typed `Flow` and `State` records cannot express these inputs.
- `generate_colors` and `remove_comments` are duplicated in `botshot-graph.py` (lines 27-73). They are modelled once, from `utility.py`.
- Returns.MatchAt: Python's `\W` is Unicode-aware, while the model's word characters are ASCII letters, digits and `_`. A non-ASCII letter next to `return` therefore counts as a separator here but not in Python.
- Colors.ColorsDistinct: stated only for at most 256 flows. Beyond that the integer step `256 / n` is 0, so every colour is the same, and the source promises nothing.
