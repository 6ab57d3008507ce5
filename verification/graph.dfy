/** The graph a `GraphPlot` draws for a bot: one node per state, coloured by
    its flow, with the initial `default.root` node first, and one edge per
    transition, either the `next` of a mapping action or every `return` of a
    custom action handler's source.

    The flow file is given as a sequence of flows in file order, and the
    handler sources as a map from handler location to source text. The graph
    is produced as node and edge sequences in the order graphviz receives
    them.
 */
module Graph {
  import opened Base
  import opened StateRefs
  import opened Comments
  import opened Returns
  import opened ActionPaths
  import opened Colors

  const InitialFlow: string := "default"
  const InitialState: string := "root"
  const DefaultColor: string := "#FFFFFF"

  /** The `action` entry of a state as the loaded YAML gives it: missing, a
      mapping whose `next` is a string (or is not), a dotted string naming a
      custom handler, or anything else (null, a number, a list). */
  datatype Action =
    | Absent
    | Mapping(next: Option<string>)
    | Reference(handler: string)
    | Other

  datatype State = State(name: string, action: Action)

  datatype Flow = Flow(name: string, states: seq<State>)

  /** A graphviz node statement: its identifier, fill colour, and whether it is
      drawn as the initial (double circle) node. */
  datatype Node = Node(id: string, fill: string, initial: bool)

  datatype Edge = Edge(source: string, target: string)

  datatype Plot = Plot(nodes: seq<Node>, edges: seq<Edge>)

  /** Handler sources by location: what loading the module and reading the
      function's source would give. A missing entry is a handler that cannot
      be loaded. */
  type Sources = map<HandlerLocation, string>

  /** `[flow for flow in flow_data]`. */
  function FlowNames(flows: seq<Flow>): (names: seq<string>)
    ensures |names| == |flows|
    ensures forall k :: 0 <= k < |flows| ==> names[k] == flows[k].name
  {
    if |flows| == 0 then [] else [flows[0].name] + FlowNames(flows[1..])
  }

  /** The keys of a YAML mapping are distinct. */
  predicate DistinctNames(names: seq<string>)
  {
    forall i, j :: 0 <= i < j < |names| ==> names[i] != names[j]
  }

  // ---------------------------------------------------------------------------
  // Flow colours
  // ---------------------------------------------------------------------------

  /** `{flow: color for flow, color in zip(names, colors)}`: a later key
      overwrites an earlier one. */
  function ZipColors(names: seq<string>, colors: seq<string>): (m: map<string, string>)
    requires |names| == |colors|
    ensures forall f :: f in m <==> f in names
    decreases |names|
  {
    if |names| == 0 then map[]
    else
      var n := |names| - 1;
      ZipColors(names[..n], colors[..n])[names[n] := colors[n]]
  }

  /** `{flow: '#FFFFFF' for flow in names}`. */
  function UniformColors(names: seq<string>, color: string): (m: map<string, string>)
    ensures forall f :: f in m <==> f in names
    ensures forall f :: f in m ==> m[f] == color
  {
    map f | f in names :: color
  }

  /** The flow-colour dictionary of `create_graph_nodes`. */
  function FlowColors(names: seq<string>, colorful: bool, r: Channel, g: Channel, b: Channel): (res: Result<map<string, string>>)
    ensures res.Err? <==> colorful && |names| == 0
    ensures res.Err? ==> res.error == NoColors
    ensures res.Ok? ==> forall f :: f in res.value <==> f in names
    ensures res.Ok? && !colorful ==> forall f :: f in res.value ==> res.value[f] == DefaultColor
  {
    if colorful then
      match GenerateColors(|names|, r, g, b)
      case Err(e) => Err(e)
      case Ok(cs) => Ok(ZipColors(names, cs))
    else Ok(UniformColors(names, DefaultColor))
  }

  /** With distinct names the zip pairs every name with the colour at its own index. */
  lemma {:induction false} ZipColorsAt(names: seq<string>, colors: seq<string>, k: nat)
    requires |names| == |colors| && DistinctNames(names) && k < |names|
    ensures ZipColors(names, colors)[names[k]] == colors[k]
    decreases |names|
  {
    var n := |names| - 1;
    if k < n {
      assert names[..n][k] == names[k];
      ZipColorsAt(names[..n], colors[..n], k);
    }
  }

  /** In colour mode every flow gets the generated colour at its own position,
      so distinct flows get distinct colours while there are at most 256. */
  lemma FlowColorOf(names: seq<string>, r: Channel, g: Channel, b: Channel, k: nat)
    requires DistinctNames(names) && k < |names|
    ensures FlowColors(names, true, r, g, b).value[names[k]] == GenerateColors(|names|, r, g, b).value[k]
  {
    ZipColorsAt(names, GenerateColors(|names|, r, g, b).value, k);
  }

  /** Distinct flows, up to 256 of them, are drawn in distinct colours. */
  lemma FlowColorsDistinct(names: seq<string>, r: Channel, g: Channel, b: Channel, i: nat, j: nat)
    requires DistinctNames(names) && i < j < |names| <= 256
    ensures FlowColors(names, true, r, g, b).value[names[i]] != FlowColors(names, true, r, g, b).value[names[j]]
  {
    FlowColorOf(names, r, g, b, i);
    FlowColorOf(names, r, g, b, j);
    ColorsDistinct(|names|, r, g, b, i, j);
  }

  // ---------------------------------------------------------------------------
  // Nodes
  // ---------------------------------------------------------------------------

  predicate IsInitial(q: QualifiedState)
  {
    q.flow == InitialFlow && q.state == InitialState
  }

  /** The (flow, state) pairs of one flow, in file order. */
  function StatePairs(flow: string, states: seq<State>): (qs: seq<QualifiedState>)
    ensures |qs| == |states|
    ensures forall k :: 0 <= k < |states| ==> qs[k] == QualifiedState(flow, states[k].name)
  {
    if |states| == 0 then [] else [QualifiedState(flow, states[0].name)] + StatePairs(flow, states[1..])
  }

  /** Every (flow, state) pair of the flow file, flow by flow, in file order. */
  function Traversal(flows: seq<Flow>): seq<QualifiedState>
  {
    if |flows| == 0 then [] else StatePairs(flows[0].name, flows[0].states) + Traversal(flows[1..])
  }

  /** The pairs other than (`default`, `root`), order kept. */
  function NonInitial(qs: seq<QualifiedState>): (r: seq<QualifiedState>)
    ensures |r| <= |qs|
    ensures forall k :: 0 <= k < |r| ==> !IsInitial(r[k]) && r[k] in qs
    ensures forall q :: q in r <==> q in qs && !IsInitial(q)
    ensures (forall k :: 0 <= k < |qs| ==> !IsInitial(qs[k])) ==> r == qs
  {
    if |qs| == 0 then []
    else if IsInitial(qs[0]) then NonInitial(qs[1..])
    else [qs[0]] + NonInitial(qs[1..])
  }

  /** Colours are looked up by flow name; every flow of the file has one. */
  predicate Coloured(flows: seq<Flow>, colors: map<string, string>)
  {
    forall k :: 0 <= k < |flows| ==> flows[k].name in colors
  }

  /** The plain node of a state: its identifier, filled with its flow's colour. */
  function NodeOf(q: QualifiedState, colors: map<string, string>): Node
    requires q.flow in colors
  {
    Node(StateIdentifier(q.flow, q.state), colors[q.flow], false)
  }

  function NodesOf(qs: seq<QualifiedState>, colors: map<string, string>): (ns: seq<Node>)
    requires forall k :: 0 <= k < |qs| ==> qs[k].flow in colors
    ensures |ns| == |qs|
  {
    if |qs| == 0 then [] else [NodeOf(qs[0], colors)] + NodesOf(qs[1..], colors)
  }

  /** The inner loop of `create_graph_nodes` for one flow: every state but the
      initial one becomes a node filled with `fill`. */
  function FlowNodes(flow: string, fill: string, states: seq<State>): seq<Node>
  {
    if |states| == 0 then []
    else
      var rest := FlowNodes(flow, fill, states[1..]);
      if flow != InitialFlow || states[0].name != InitialState
      then [Node(StateIdentifier(flow, states[0].name), fill, false)] + rest
      else rest
  }

  /** The outer loop of `create_graph_nodes`, flow by flow. */
  function OtherNodes(flows: seq<Flow>, colors: map<string, string>): seq<Node>
    requires Coloured(flows, colors)
  {
    if |flows| == 0 then []
    else FlowNodes(flows[0].name, colors[flows[0].name], flows[0].states) + OtherNodes(flows[1..], colors)
  }

  /** `create_graph_nodes`: the initial `default.root` node first, filled with
      the colour of the `default` flow (a missing entry raises), then the other
      states. */
  function GraphNodes(flows: seq<Flow>, colors: map<string, string>): (res: Result<seq<Node>>)
    requires Coloured(flows, colors)
    ensures res.Err? <==> InitialFlow !in colors
    ensures res.Err? ==> res.error == MissingDefaultFlow
    ensures res.Ok? ==> |res.value| > 0
                        && res.value[0] == Node(StateIdentifier(InitialFlow, InitialState), colors[InitialFlow], true)
  {
    if InitialFlow !in colors then Err(MissingDefaultFlow)
    else Ok([Node(StateIdentifier(InitialFlow, InitialState), colors[InitialFlow], true)] + OtherNodes(flows, colors))
  }

  lemma NonInitialAppend(a: seq<QualifiedState>, b: seq<QualifiedState>)
    ensures NonInitial(a + b) == NonInitial(a) + NonInitial(b)
    decreases |a|
  {
    if |a| > 0 {
      assert (a + b)[1..] == a[1..] + b;
      NonInitialAppend(a[1..], b);
    } else {
      assert a + b == b;
    }
  }

  lemma AppendColoured(a: seq<QualifiedState>, b: seq<QualifiedState>, colors: map<string, string>)
    requires forall k :: 0 <= k < |a| ==> a[k].flow in colors
    requires forall k :: 0 <= k < |b| ==> b[k].flow in colors
    ensures forall k :: 0 <= k < |a + b| ==> (a + b)[k].flow in colors
  {
  }

  lemma {:induction false} NodesOfAppend(a: seq<QualifiedState>, b: seq<QualifiedState>, colors: map<string, string>)
    requires forall k :: 0 <= k < |a| ==> a[k].flow in colors
    requires forall k :: 0 <= k < |b| ==> b[k].flow in colors
    ensures forall k :: 0 <= k < |a + b| ==> (a + b)[k].flow in colors
    ensures NodesOf(a + b, colors) == NodesOf(a, colors) + NodesOf(b, colors)
    decreases |a|
  {
    AppendColoured(a, b, colors);
    if |a| > 0 {
      var ab := a + b;
      assert ab[0] == a[0] && ab[1..] == a[1..] + b;
      NodesOfAppend(a[1..], b, colors);
    } else {
      assert a + b == b;
    }
  }

  /** One flow's nodes are the nodes of its non-initial (flow, state) pairs. */
  lemma {:induction false} FlowNodesFollowPairs(flow: string, states: seq<State>, colors: map<string, string>)
    requires flow in colors
    ensures FlowNodes(flow, colors[flow], states) == NodesOf(NonInitial(StatePairs(flow, states)), colors)
    decreases |states|
  {
    if |states| > 0 {
      var qs := StatePairs(flow, states);
      assert qs[1..] == StatePairs(flow, states[1..]);
      FlowNodesFollowPairs(flow, states[1..], colors);
    }
  }

  /** Every pair of the traversal belongs to a flow of the file. */
  lemma {:induction false} TraversalColoured(flows: seq<Flow>, colors: map<string, string>)
    requires Coloured(flows, colors)
    ensures forall k :: 0 <= k < |Traversal(flows)| ==> Traversal(flows)[k].flow in colors
    decreases |flows|
  {
    if |flows| > 0 {
      TraversalColoured(flows[1..], colors);
      var head: seq<QualifiedState> := StatePairs(flows[0].name, flows[0].states);
      var tail: seq<QualifiedState> := Traversal(flows[1..]);
      forall k | 0 <= k < |head + tail|
        ensures (head + tail)[k].flow in colors
      {
        if k >= |head| {
          assert (head + tail)[k] == tail[k - |head|];
        }
      }
    }
  }

  /** The nodes after the initial one are exactly the non-initial pairs of the
      flow-by-flow traversal, each filled with its flow's colour. */
  lemma {:induction false} OtherNodesFollowTraversal(flows: seq<Flow>, colors: map<string, string>)
    requires Coloured(flows, colors)
    ensures forall k :: 0 <= k < |NonInitial(Traversal(flows))| ==> NonInitial(Traversal(flows))[k].flow in colors
    ensures OtherNodes(flows, colors) == NodesOf(NonInitial(Traversal(flows)), colors)
    decreases |flows|
  {
    TraversalColoured(flows, colors);
    if |flows| > 0 {
      var head := StatePairs(flows[0].name, flows[0].states);
      var tail := Traversal(flows[1..]);
      OtherNodesFollowTraversal(flows[1..], colors);
      FlowNodesFollowPairs(flows[0].name, flows[0].states, colors);
      NonInitialAppend(head, tail);
      NodesOfAppend(NonInitial(head), NonInitial(tail), colors);
    }
  }

  /** The node list is the initial node followed by one node per non-initial
      state in traversal order. */
  lemma GraphNodesInOrder(flows: seq<Flow>, colors: map<string, string>)
    requires Coloured(flows, colors) && InitialFlow in colors
    ensures forall k :: 0 <= k < |NonInitial(Traversal(flows))| ==> NonInitial(Traversal(flows))[k].flow in colors
    ensures GraphNodes(flows, colors).value[1..] == NodesOf(NonInitial(Traversal(flows)), colors)
  {
    OtherNodesFollowTraversal(flows, colors);
  }

  /** `default.root` names no state but the initial one. */
  lemma InitialIdentifierUnique(q: QualifiedState)
    requires StateIdentifier(q.flow, q.state) == StateIdentifier(InitialFlow, InitialState)
    ensures IsInitial(q)
  {
    var id := StateIdentifier(InitialFlow, InitialState);
    assert id == "default.root";
    IdentifierSplitsAtOnlyDot(q.flow, q.state, id, 7);
  }

  lemma {:induction false} NodesOfNotInitial(qs: seq<QualifiedState>, colors: map<string, string>, k: nat)
    requires forall j :: 0 <= j < |qs| ==> qs[j].flow in colors && !IsInitial(qs[j])
    requires k < |qs|
    ensures NodesOf(qs, colors)[k].id != StateIdentifier(InitialFlow, InitialState)
    ensures !NodesOf(qs, colors)[k].initial
    decreases k
  {
    if k > 0 {
      NodesOfNotInitial(qs[1..], colors, k - 1);
    } else if NodesOf(qs, colors)[0].id == StateIdentifier(InitialFlow, InitialState) {
      InitialIdentifierUnique(qs[0]);
    }
  }

  /** The initial node is emitted exactly once, first, whether or not the
      `default` flow declares a `root` state; no other node is initial or
      carries its identifier. */
  lemma InitialNodeOnce(flows: seq<Flow>, colors: map<string, string>, k: nat)
    requires Coloured(flows, colors) && InitialFlow in colors
    requires 0 < k < |GraphNodes(flows, colors).value|
    ensures GraphNodes(flows, colors).value[k].id != StateIdentifier(InitialFlow, InitialState)
    ensures !GraphNodes(flows, colors).value[k].initial
  {
    GraphNodesInOrder(flows, colors);
    var qs := NonInitial(Traversal(flows));
    NodesOfNotInitial(qs, colors, k - 1);
  }

  // ---------------------------------------------------------------------------
  // Edges
  // ---------------------------------------------------------------------------

  /** The identifier a reference resolves to from inside `current`. */
  function Resolve(names: seq<string>, current: string, reference: string): (id: string)
    requires |names| > 0
  {
    var q := FlowAndState(names, current, reference).value;
    StateIdentifier(q.flow, q.state)
  }

  /** Sequencing of two steps that may raise: the first error wins. */
  function Then(x: Result<seq<Edge>>, y: Result<seq<Edge>>): Result<seq<Edge>>
  {
    if x.Err? then x else if y.Err? then y else Ok(x.value + y.value)
  }

  lemma ThenAssociative(x: Result<seq<Edge>>, y: Result<seq<Edge>>, z: Result<seq<Edge>>)
    ensures Then(Then(x, y), z) == Then(x, Then(y, z))
  {
    if x.Ok? && y.Ok? && z.Ok? {
      assert (x.value + y.value) + z.value == x.value + (y.value + z.value);
    }
  }

  /** The loop over the `return` indexes of a handler, given the return value
      at each index: one edge per index, in index order, to the state its
      return value resolves to. */
  function ReturnEdges(names: seq<string>, flow: string, source: string, values: seq<Result<string>>): (res: Result<seq<Edge>>)
    ensures res.Ok? ==> |res.value| == |values|
    ensures res.Ok? ==> forall k :: 0 <= k < |res.value| ==> res.value[k].source == source
    ensures res.Err? ==> res.error == FlowsNotInitialized || Err(res.error) in values
  {
    if |values| == 0 then Ok([])
    else
      match values[0]
      case Err(e) => Err(e)
      case Ok(value) =>
        match FlowAndState(names, flow, value)
        case Err(e) => Err(e)
        case Ok(q) =>
          match ReturnEdges(names, flow, source, values[1..])
          case Err(e) => Err(e)
          case Ok(rest) => Ok([Edge(source, StateIdentifier(q.flow, q.state))] + rest)
  }

  /** The `except` branch of `create_graph_edges`: locate the handler, strip
      comments from its source, and add an edge per `return`. */
  function CustomEdges(names: seq<string>, flow: string, source: string, handler: string, sources: Sources): (res: Result<seq<Edge>>)
    ensures res.Ok? ==> SplitAction(handler) in sources
    ensures res.Err? ==> res.error.HandlerNotFound? || res.error.NoReturnValue? || res.error == FlowsNotInitialized
  {
    var loc := SplitAction(handler);
    if loc !in sources then Err(HandlerNotFound(loc.name, loc.path))
    else
      var text := RemoveComments(sources[loc]);
      var values := ReturnValues(text, ReturnIndexes(text));
      ReturnValuesFail(text, ReturnIndexes(text));
      ReturnEdges(names, flow, source, values)
  }

  /** The only failure of a return value is a `return` with nothing after it. */
  lemma ReturnValuesFail(text: string, indexes: seq<nat>)
    ensures forall v :: v in ReturnValues(text, indexes) && v.Err? ==> v.error.NoReturnValue?
  {
    var vs := ReturnValues(text, indexes);
    forall v | v in vs && v.Err?
      ensures v.error.NoReturnValue?
    {
      var k :| 0 <= k < |vs| && vs[k] == v;
    }
  }

  /** The edges of one state. A mapping with a string `next` gives one edge
      (the `try` branch); anything else goes to the `except` branch, where only
      a string action can be split, so a missing action and a non-string one
      raise there. */
  function StateEdges(names: seq<string>, flow: string, st: State, sources: Sources): (res: Result<seq<Edge>>)
    ensures res.Ok? ==> forall k :: 0 <= k < |res.value| ==> res.value[k].source == StateIdentifier(flow, st.name)
    ensures res == Err(MissingAction) <==> st.action.Absent?
    ensures res.Ok? ==> st.action.Reference? || st.action.Mapping?
    ensures st.action.Other? || (st.action.Mapping? && st.action.next.None?) ==> res == Err(ActionNotString)
  {
    var source := StateIdentifier(flow, st.name);
    match st.action
    case Absent => Err(MissingAction)
    case Other => Err(ActionNotString)
    case Mapping(next) =>
      if next.None? then Err(ActionNotString)
      else
        (match FlowAndState(names, flow, next.value)
         case Err(_) => Err(ActionNotString)
         case Ok(q) => Ok([Edge(source, StateIdentifier(q.flow, q.state))]))
    case Reference(handler) => CustomEdges(names, flow, source, handler, sources)
  }

  /** The inner loop of `create_graph_edges`, over the states of one flow. */
  function FlowEdges(names: seq<string>, flow: string, states: seq<State>, sources: Sources): Result<seq<Edge>>
  {
    if |states| == 0 then Ok([])
    else Then(StateEdges(names, flow, states[0], sources), FlowEdges(names, flow, states[1..], sources))
  }

  /** The outer loop of `create_graph_edges`, over the flows. */
  function GraphEdges(names: seq<string>, flows: seq<Flow>, sources: Sources): Result<seq<Edge>>
  {
    if |flows| == 0 then Ok([])
    else Then(FlowEdges(names, flows[0].name, flows[0].states, sources), GraphEdges(names, flows[1..], sources))
  }

  /** A state together with the flow it is declared in. */
  datatype Site = Site(flow: string, state: State)

  /** Every state of the file with its flow, flow by flow, in file order. */
  function FlowSites(flow: string, states: seq<State>): (ss: seq<Site>)
    ensures |ss| == |states|
    ensures forall k :: 0 <= k < |states| ==> ss[k] == Site(flow, states[k])
  {
    if |states| == 0 then [] else [Site(flow, states[0])] + FlowSites(flow, states[1..])
  }

  function Sites(flows: seq<Flow>): seq<Site>
  {
    if |flows| == 0 then [] else FlowSites(flows[0].name, flows[0].states) + Sites(flows[1..])
  }

  /** The edges of a flat list of states, one state after another. */
  function SiteEdges(names: seq<string>, sites: seq<Site>, sources: Sources): Result<seq<Edge>>
  {
    if |sites| == 0 then Ok([])
    else Then(StateEdges(names, sites[0].flow, sites[0].state, sources), SiteEdges(names, sites[1..], sources))
  }

  lemma {:induction false} SiteEdgesAppend(names: seq<string>, a: seq<Site>, b: seq<Site>, sources: Sources)
    ensures SiteEdges(names, a + b, sources) == Then(SiteEdges(names, a, sources), SiteEdges(names, b, sources))
    decreases |a|
  {
    if |a| == 0 {
      assert a + b == b;
      var y := SiteEdges(names, b, sources);
      assert Then(Ok([]), y) == y by {
        if y.Ok? {
          assert [] + y.value == y.value;
        }
      }
    } else {
      assert (a + b)[0] == a[0];
      assert (a + b)[1..] == a[1..] + b;
      SiteEdgesAppend(names, a[1..], b, sources);
      ThenAssociative(StateEdges(names, a[0].flow, a[0].state, sources), SiteEdges(names, a[1..], sources), SiteEdges(names, b, sources));
    }
  }

  lemma {:induction false} FlowEdgesAreSiteEdges(names: seq<string>, flow: string, states: seq<State>, sources: Sources)
    ensures FlowEdges(names, flow, states, sources) == SiteEdges(names, FlowSites(flow, states), sources)
    decreases |states|
  {
    if |states| > 0 {
      assert FlowSites(flow, states)[1..] == FlowSites(flow, states[1..]);
      FlowEdgesAreSiteEdges(names, flow, states[1..], sources);
    }
  }

  /** Edges are produced flow by flow and, inside a flow, state by state: the
      nested loops give the same result as one pass over the flat state list. */
  lemma {:induction false} GraphEdgesAreSiteEdges(names: seq<string>, flows: seq<Flow>, sources: Sources)
    ensures GraphEdges(names, flows, sources) == SiteEdges(names, Sites(flows), sources)
    decreases |flows|
  {
    if |flows| > 0 {
      var head := FlowSites(flows[0].name, flows[0].states);
      GraphEdgesAreSiteEdges(names, flows[1..], sources);
      FlowEdgesAreSiteEdges(names, flows[0].name, flows[0].states, sources);
      SiteEdgesAppend(names, head, Sites(flows[1..]), sources);
    }
  }

  /** Steps that may raise, run one after another: the first error wins. */
  function Chain(rs: seq<Result<seq<Edge>>>): Result<seq<Edge>>
  {
    if |rs| == 0 then Ok([]) else Then(rs[0], Chain(rs[1..]))
  }

  /** A chain succeeds exactly when every step does; otherwise its error is
      that of the first step that fails. */
  lemma {:induction false} ChainOk(rs: seq<Result<seq<Edge>>>)
    ensures Chain(rs).Ok? <==> forall k :: 0 <= k < |rs| ==> rs[k].Ok?
    ensures Chain(rs).Err? ==>
              exists k :: 0 <= k < |rs| && (forall j :: 0 <= j < k ==> rs[j].Ok?) && rs[k] == Err(Chain(rs).error)
    decreases |rs|
  {
    if |rs| > 0 {
      var tail := rs[1..];
      ChainOk(tail);
      if rs[0].Ok? && Chain(tail).Err? {
        var k :| 0 <= k < |tail| && (forall j :: 0 <= j < k ==> tail[j].Ok?) && tail[k] == Err(Chain(tail).error);
        assert rs[k + 1] == tail[k];
        forall j | 0 <= j < k + 1
          ensures rs[j].Ok?
        {
          if j > 0 {
            assert rs[j] == tail[j - 1];
          }
        }
      }
      if rs[0].Ok? && Chain(tail).Ok? {
        forall k | 0 <= k < |rs|
          ensures rs[k].Ok?
        {
          if k > 0 {
            assert rs[k] == tail[k - 1];
          }
        }
      }
    }
  }

  /** The edges of each state, one result per state. */
  function SiteResults(names: seq<string>, sites: seq<Site>, sources: Sources): seq<Result<seq<Edge>>>
  {
    seq(|sites|, k requires 0 <= k < |sites| => StateEdges(names, sites[k].flow, sites[k].state, sources))
  }

  lemma {:induction false} SiteEdgesChain(names: seq<string>, sites: seq<Site>, sources: Sources)
    ensures SiteEdges(names, sites, sources) == Chain(SiteResults(names, sites, sources))
    decreases |sites|
  {
    if |sites| > 0 {
      var rs := SiteResults(names, sites, sources);
      assert rs[1..] == SiteResults(names, sites[1..], sources);
      SiteEdgesChain(names, sites[1..], sources);
    }
  }

  /** The edge pass succeeds exactly when every state's edges can be built;
      otherwise the error is that of the first state that fails. */
  lemma SiteEdgesOk(names: seq<string>, sites: seq<Site>, sources: Sources)
    ensures SiteEdges(names, sites, sources).Ok?
            <==> forall k :: 0 <= k < |sites| ==> StateEdges(names, sites[k].flow, sites[k].state, sources).Ok?
    ensures SiteEdges(names, sites, sources).Err? ==>
              exists k :: 0 <= k < |sites|
                && (forall j :: 0 <= j < k ==> StateEdges(names, sites[j].flow, sites[j].state, sources).Ok?)
                && StateEdges(names, sites[k].flow, sites[k].state, sources)
                   == Err(SiteEdges(names, sites, sources).error)
  {
    var rs := SiteResults(names, sites, sources);
    SiteEdgesChain(names, sites, sources);
    ChainOk(rs);
  }

  /** A mapping action with a string `next` gives exactly one edge, from the
      state to the state `next` resolves to. */
  lemma NextEdge(names: seq<string>, flow: string, st: State, sources: Sources)
    requires |names| > 0 && st.action.Mapping? && st.action.next.Some?
    ensures StateEdges(names, flow, st, sources)
            == Ok([Edge(StateIdentifier(flow, st.name), Resolve(names, flow, st.action.next.value))])
  {
  }

  /** One step of the loop over the `return` indexes, when the first return
      value exists. */
  lemma ReturnEdgesStep(names: seq<string>, flow: string, source: string, values: seq<Result<string>>)
    requires |names| > 0 && |values| > 0 && values[0].Ok?
    ensures var res := ReturnEdges(names, flow, source, values);
            var rest := ReturnEdges(names, flow, source, values[1..]);
            (res.Ok? <==> rest.Ok?)
            && (res.Ok? ==> res.value == [Edge(source, Resolve(names, flow, values[0].value))] + rest.value)
  {
  }

  /** A custom action's edges can be built exactly when every `return` has a
      value after it. */
  lemma {:induction false} ReturnEdgesOk(names: seq<string>, flow: string, source: string, values: seq<Result<string>>)
    requires |names| > 0
    ensures ReturnEdges(names, flow, source, values).Ok? <==> forall k :: 0 <= k < |values| ==> values[k].Ok?
    decreases |values|
  {
    if |values| > 0 {
      var tail := values[1..];
      if values[0].Ok? {
        ReturnEdgesStep(names, flow, source, values);
        ReturnEdgesOk(names, flow, source, tail);
        if forall k :: 0 <= k < |tail| ==> tail[k].Ok? {
          forall k | 0 <= k < |values|
            ensures values[k].Ok?
          {
            if k > 0 {
              assert values[k] == tail[k - 1];
            }
          }
        } else {
          var k :| 0 <= k < |tail| && !tail[k].Ok?;
          assert values[k + 1] == tail[k];
        }
      }
    }
  }

  /** The `k`-th edge of a custom action goes to the state that the `k`-th
      return value resolves to: edges follow the source order and repeated
      targets are kept. */
  lemma {:induction false} ReturnEdgeAt(names: seq<string>, flow: string, source: string, values: seq<Result<string>>, k: nat)
    requires |names| > 0 && k < |values|
    requires ReturnEdges(names, flow, source, values).Ok?
    ensures values[k].Ok?
    ensures ReturnEdges(names, flow, source, values).value[k] == Edge(source, Resolve(names, flow, values[k].value))
    decreases k
  {
    ReturnEdgesOk(names, flow, source, values);
    ReturnEdgesStep(names, flow, source, values);
    if k > 0 {
      assert values[k] == values[1..][k - 1];
      ReturnEdgeAt(names, flow, source, values[1..], k - 1);
    }
  }

  /** The edges of a custom action whose handler is found: one per `return`
      of the comment-stripped handler source, in source order, each to the
      state its return value resolves to. They can be built exactly when
      every `return` has a value after it. */
  lemma ReferenceEdges(names: seq<string>, flow: string, st: State, sources: Sources)
    requires |names| > 0 && st.action.Reference? && SplitAction(st.action.handler) in sources
    ensures var text := RemoveComments(sources[SplitAction(st.action.handler)]);
            var edges := StateEdges(names, flow, st, sources);
            var indexes := ReturnIndexes(text);
            (edges.Ok? <==> forall k :: 0 <= k < |indexes| ==> ReturnValue(text, indexes[k]).Ok?)
            && (edges.Ok? ==>
                  |edges.value| == |indexes|
                  && forall k :: 0 <= k < |indexes| ==>
                       edges.value[k] == Edge(StateIdentifier(flow, st.name), Resolve(names, flow, ReturnValue(text, indexes[k]).value)))
  {
    var text := RemoveComments(sources[SplitAction(st.action.handler)]);
    FoundHandlerEdges(names, flow, st, sources);
    ValueEdges(names, flow, StateIdentifier(flow, st.name), text, ReturnIndexes(text));
  }

  /** The return-edge loop over the values read at each index of `text`. */
  lemma ValueEdges(names: seq<string>, flow: string, source: string, text: string, indexes: seq<nat>)
    requires |names| > 0
    ensures var edges := ReturnEdges(names, flow, source, ReturnValues(text, indexes));
            (edges.Ok? <==> forall k :: 0 <= k < |indexes| ==> ReturnValue(text, indexes[k]).Ok?)
            && (edges.Ok? ==>
                  |edges.value| == |indexes|
                  && forall k :: 0 <= k < |indexes| ==>
                       edges.value[k] == Edge(source, Resolve(names, flow, ReturnValue(text, indexes[k]).value)))
  {
    var values := ReturnValues(text, indexes);
    var edges := ReturnEdges(names, flow, source, values);
    ReturnEdgesOk(names, flow, source, values);
    if edges.Ok? {
      forall k | 0 <= k < |indexes|
        ensures edges.value[k] == Edge(source, Resolve(names, flow, ReturnValue(text, indexes[k]).value))
      {
        ReturnEdgeAt(names, flow, source, values, k);
      }
    }
  }

  lemma FoundHandlerEdges(names: seq<string>, flow: string, st: State, sources: Sources)
    requires st.action.Reference?
    ensures SplitAction(st.action.handler) in sources ==>
              var text := RemoveComments(sources[SplitAction(st.action.handler)]);
              StateEdges(names, flow, st, sources)
              == ReturnEdges(names, flow, StateIdentifier(flow, st.name), ReturnValues(text, ReturnIndexes(text)))
  {
  }

  /** A custom action whose handler cannot be loaded stops the plot. */
  lemma MissingHandler(names: seq<string>, flow: string, st: State, sources: Sources)
    requires st.action.Reference? && SplitAction(st.action.handler) !in sources
    ensures StateEdges(names, flow, st, sources)
            == Err(HandlerNotFound(SplitAction(st.action.handler).name, SplitAction(st.action.handler).path))
  {
    var source := StateIdentifier(flow, st.name);
    ReferenceIsCustom(names, flow, st, sources);
    CustomMissing(names, flow, source, st.action.handler, sources, SplitAction(st.action.handler));
  }

  /** A string action goes to the custom-action branch. */
  lemma ReferenceIsCustom(names: seq<string>, flow: string, st: State, sources: Sources)
    requires st.action.Reference?
    ensures StateEdges(names, flow, st, sources)
            == CustomEdges(names, flow, StateIdentifier(flow, st.name), st.action.handler, sources)
  {
  }

  lemma CustomMissing(names: seq<string>, flow: string, source: string, handler: string, sources: Sources, loc: HandlerLocation)
    requires loc == SplitAction(handler) && loc !in sources
    ensures CustomEdges(names, flow, source, handler, sources) == Err(HandlerNotFound(loc.name, loc.path))
  {
  }

  // ---------------------------------------------------------------------------
  // The whole plot
  // ---------------------------------------------------------------------------

  /** `create_graph` once the flow file is loaded: colours, then nodes, then
      edges, each step stopping the plot if it raises. */
  function BuildGraph(flows: seq<Flow>, colorful: bool, r: Channel, g: Channel, b: Channel, sources: Sources): (res: Result<Plot>)
    ensures res.Ok? ==> |res.value.nodes| > 0 && res.value.nodes[0].initial
                        && res.value.nodes[0].id == StateIdentifier(InitialFlow, InitialState)
    ensures colorful && |flows| == 0 ==> res == Err(NoColors)
    ensures res.Ok? ==> InitialFlow in FlowNames(flows)
  {
    var names := FlowNames(flows);
    match FlowColors(names, colorful, r, g, b)
    case Err(e) => Err(e)
    case Ok(colors) =>
      assert Coloured(flows, colors) by {
        forall k | 0 <= k < |flows|
          ensures flows[k].name in colors
        {
          assert names[k] == flows[k].name;
        }
      }
      match GraphNodes(flows, colors)
      case Err(e) => Err(e)
      case Ok(nodes) =>
        match GraphEdges(names, flows, sources)
        case Err(e) => Err(e)
        case Ok(edges) => Ok(Plot(nodes, edges))
  }

  /** A plot is drawn exactly when the colours can be generated, the `default`
      flow exists and every state's edges can be built; its edges are those of
      the flat state list. */
  lemma BuildGraphSucceeds(flows: seq<Flow>, colorful: bool, r: Channel, g: Channel, b: Channel, sources: Sources)
    ensures var names := FlowNames(flows);
            var sites := Sites(flows);
            BuildGraph(flows, colorful, r, g, b, sources).Ok?
            <==> (!colorful || |flows| > 0) && InitialFlow in names
                 && forall k :: 0 <= k < |sites| ==> StateEdges(names, sites[k].flow, sites[k].state, sources).Ok?
    ensures BuildGraph(flows, colorful, r, g, b, sources).Ok? ==>
              SiteEdges(FlowNames(flows), Sites(flows), sources).Ok? &&
              BuildGraph(flows, colorful, r, g, b, sources).value.edges
              == SiteEdges(FlowNames(flows), Sites(flows), sources).value
  {
    var names := FlowNames(flows);
    GraphEdgesAreSiteEdges(names, flows, sources);
    SiteEdgesOk(names, Sites(flows), sources);
  }
}
