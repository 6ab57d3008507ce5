/** State identifiers and the resolution of absolute (`flow.state`) and relative
    (`state`) state references against the known flow names. */
module StateRefs {
  import opened Base

  /** A resolved reference: the owning flow and the state name within it. */
  datatype QualifiedState = QualifiedState(flow: string, state: string)

  /** The canonical node identifier `flow.state`. */
  function StateIdentifier(flow: string, state: string): (id: string)
    ensures |id| == |flow| + |state| + 1
    ensures id[..|flow|] == flow && id[|flow|] == '.' && id[|flow| + 1..] == state
  {
    flow + "." + state
  }

  /** An identifier whose only separator is at index `k` splits there, so
      distinct (flow, state) pairs give distinct identifiers of that shape. */
  lemma IdentifierSplitsAtOnlyDot(flow: string, state: string, id: string, k: nat)
    requires k < |id| && id[k] == '.'
    requires forall i :: 0 <= i < |id| && i != k ==> id[i] != '.'
    requires StateIdentifier(flow, state) == id
    ensures flow == id[..k] && state == id[k + 1..]
  {
    assert id[|flow|] == '.';
  }

  /** The fold accumulator: the last flow whose prefix was stripped, and what
      is left of the reference. */
  datatype Resolution = Resolution(matched: Option<string>, rest: string)

  /** `fl + '.'` is a prefix of the reference. */
  predicate HasFlowPrefix(fl: string, reference: string)
  {
    fl + "." <= reference
  }

  /** One iteration of the loop over the flows: strip `fl.` and remember `fl`. */
  function StripFlow(acc: Resolution, fl: string): (r: Resolution)
  {
    if HasFlowPrefix(fl, acc.rest) then Resolution(Some(fl), acc.rest[|fl| + 1..]) else acc
  }

  /** The loop over the flows as a left fold. The remainder only shrinks from
      the front, and the remembered flow is either unchanged or one of `flows`. */
  function StripFlows(acc: Resolution, flows: seq<string>): Resolution
    decreases |flows|
  {
    if |flows| == 0 then acc else StripFlows(StripFlow(acc, flows[0]), flows[1..])
  }

  /** The remainder only shrinks from the front, and the remembered flow is
      either unchanged or one of `flows`. */
  lemma {:induction false} StripFlowsSuffix(acc: Resolution, flows: seq<string>)
    ensures var r := StripFlows(acc, flows);
            |r.rest| <= |acc.rest| && r.rest == acc.rest[|acc.rest| - |r.rest|..]
            && (r.matched == acc.matched || (r.matched.Some? && r.matched.value in flows))
    decreases |flows|
  {
    if |flows| > 0 {
      var next := StripFlow(acc, flows[0]);
      StripFlowsSuffix(next, flows[1..]);
      var r := StripFlows(acc, flows);
      assert acc.rest[|acc.rest| - |next.rest|..][|next.rest| - |r.rest|..] == acc.rest[|acc.rest| - |r.rest|..];
    }
  }

  /** Resolves a relative or absolute state reference; `current` is the flow the
      reference appears in. A matched flow named "" is falsy in Python, so it
      falls back to `current` as well. */
  function FlowAndState(flows: seq<string>, current: string, reference: string): (r: Result<QualifiedState>)
    ensures r.Err? <==> |flows| == 0
    ensures r.Err? ==> r.error == FlowsNotInitialized
  {
    if |flows| == 0 then Err(FlowsNotInitialized)
    else
      var res := StripFlows(Resolution(None, reference), flows);
      var flow := if res.matched.None? || res.matched.value == "" then current else res.matched.value;
      Ok(QualifiedState(flow, res.rest))
  }

  /** The resolved state is a suffix of the reference, and the resolved flow is
      either the current flow or a non-empty known flow name. */
  lemma ResolvedShape(flows: seq<string>, current: string, reference: string)
    requires |flows| > 0
    ensures var q := FlowAndState(flows, current, reference).value;
            |q.state| <= |reference| && q.state == reference[|reference| - |q.state|..]
            && (q.flow == current || (q.flow in flows && q.flow != ""))
  {
    StripFlowsSuffix(Resolution(None, reference), flows);
  }

  /** The fold over a concatenation is the fold over the second part started
      from the fold over the first. In particular a flow appended to the list is
      checked against the already stripped remainder and, if it matches,
      overwrites the remembered flow. */
  lemma {:induction false} StripFlowsAppend(acc: Resolution, a: seq<string>, b: seq<string>)
    ensures StripFlows(acc, a + b) == StripFlows(StripFlows(acc, a), b)
    decreases |a|
  {
    if |a| > 0 {
      assert (a + b)[0] == a[0];
      assert (a + b)[1..] == a[1..] + b;
      StripFlowsAppend(StripFlow(acc, a[0]), a[1..], b);
    } else {
      assert a + b == b;
    }
  }

  /** The last flow wins: a flow checked after `before` that prefixes the
      already stripped remainder is stripped in turn and becomes the
      remembered flow; one that does not leaves the accumulator as it was. */
  lemma LastMatchWins(acc: Resolution, before: seq<string>, fl: string)
    ensures var mid := StripFlows(acc, before);
            StripFlows(acc, before + [fl])
            == if HasFlowPrefix(fl, mid.rest) then Resolution(Some(fl), mid.rest[|fl| + 1..]) else mid
  {
    StripFlowsAppend(acc, before, [fl]);
    var mid := StripFlows(acc, before);
    assert StripFlows(mid, [fl]) == StripFlows(StripFlow(mid, fl), []);
  }

  /** A fold in which no flow prefixes the remainder leaves the accumulator alone. */
  lemma {:induction false} StripFlowsNoMatch(acc: Resolution, flows: seq<string>)
    requires forall i :: 0 <= i < |flows| ==> !HasFlowPrefix(flows[i], acc.rest)
    ensures StripFlows(acc, flows) == acc
    decreases |flows|
  {
    if |flows| > 0 {
      StripFlowsNoMatch(acc, flows[1..]);
    }
  }

  /** Once some flow prefixes the remainder, the remainder gets strictly shorter. */
  lemma {:induction false} StripFlowsShortens(acc: Resolution, flows: seq<string>, k: nat)
    requires k < |flows| && HasFlowPrefix(flows[k], acc.rest)
    ensures |StripFlows(acc, flows).rest| < |acc.rest|
    decreases |flows|
  {
    var next := StripFlow(acc, flows[0]);
    if HasFlowPrefix(flows[0], acc.rest) {
      StripFlowsSuffix(next, flows[1..]);
    } else {
      StripFlowsShortens(acc, flows[1..], k - 1);
    }
  }

  /** A reference is returned unchanged exactly when no known flow prefixes it;
      it then stays relative to the current flow. */
  lemma RelativeReference(flows: seq<string>, current: string, reference: string)
    requires |flows| > 0
    ensures FlowAndState(flows, current, reference).value.state == reference
            <==> forall i :: 0 <= i < |flows| ==> !HasFlowPrefix(flows[i], reference)
    ensures (forall i :: 0 <= i < |flows| ==> !HasFlowPrefix(flows[i], reference))
            ==> FlowAndState(flows, current, reference) == Ok(QualifiedState(current, reference))
  {
    var acc := Resolution(None, reference);
    if forall i :: 0 <= i < |flows| ==> !HasFlowPrefix(flows[i], reference) {
      StripFlowsNoMatch(acc, flows);
    } else {
      var k :| 0 <= k < |flows| && HasFlowPrefix(flows[k], reference);
      StripFlowsShortens(acc, flows, k);
    }
  }

  /** Round trip: an identifier built from `flow` and `state` resolves back to
      them when `flow` (at index `k`) is the only earlier-or-equal flow
      prefixing the identifier and no later flow prefixes `state`. */
  lemma ResolveIdentifier(flows: seq<string>, current: string, flow: string, state: string, k: nat)
    requires k < |flows| && flows[k] == flow && flow != ""
    requires forall i :: 0 <= i < k ==> !HasFlowPrefix(flows[i], StateIdentifier(flow, state))
    requires forall i :: k < i < |flows| ==> !HasFlowPrefix(flows[i], state)
    ensures FlowAndState(flows, current, StateIdentifier(flow, state)) == Ok(QualifiedState(flow, state))
  {
    var id := StateIdentifier(flow, state);
    var acc := Resolution(None, id);
    var before, after := flows[..k], flows[k + 1..];
    assert flows == (before + [flow]) + after;
    forall i | 0 <= i < |before|
      ensures !HasFlowPrefix(before[i], acc.rest)
    {
      assert before[i] == flows[i];
    }
    var stripped := Resolution(Some(flow), state);
    StripPrefixThenFlow(acc, before, flow, stripped);
    forall i | 0 <= i < |after|
      ensures !HasFlowPrefix(after[i], stripped.rest)
    {
      assert after[i] == flows[k + 1 + i];
    }
    StripFlowsAppend(acc, before + [flow], after);
    StripFlowsNoMatch(stripped, after);
  }

  /** Helper for the round trip: nothing in `before` matches, then `flow` strips
      its own prefix. */
  lemma StripPrefixThenFlow(acc: Resolution, before: seq<string>, flow: string, stripped: Resolution)
    requires forall i :: 0 <= i < |before| ==> !HasFlowPrefix(before[i], acc.rest)
    requires acc.rest == StateIdentifier(flow, stripped.rest) && stripped.matched == Some(flow)
    ensures StripFlows(acc, before + [flow]) == stripped
  {
    StripFlowsAppend(acc, before, [flow]);
    StripFlowsNoMatch(acc, before);
    assert HasFlowPrefix(flow, acc.rest);
    assert StripFlow(acc, flow) == stripped;
    assert StripFlows(acc, [flow]) == StripFlows(StripFlow(acc, flow), []);
  }
}
