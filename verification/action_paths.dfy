/** Splitting a custom action reference such as `actions.greeting.say_hello`
    into the handler function name and the file it is read from. */
module ActionPaths {

  predicate HasDot(s: string)
  {
    exists k :: 0 <= k < |s| && s[k] == '.'
  }

  /** `a.split('.')[-1]`: the text after the last dot, or all of `a` if it has none. */
  function LastSegment(a: string): (r: string)
    ensures |r| <= |a| && r == a[|a| - |r|..]
    ensures !HasDot(r)
    ensures |r| < |a| ==> a[|a| - |r| - 1] == '.'
    decreases |a|
  {
    if |a| == 0 || a[|a| - 1] == '.' then []
    else LastSegment(a[..|a| - 1]) + [a[|a| - 1]]
  }

  /** `p.replace('.', '/')`. */
  function DotsToSlashes(p: string): (r: string)
    ensures |r| == |p|
    ensures forall k :: 0 <= k < |p| ==> r[k] == (if p[k] == '.' then '/' else p[k])
  {
    if |p| == 0 then []
    else [if p[0] == '.' then '/' else p[0]] + DotsToSlashes(p[1..])
  }

  /** Where a custom action's handler lives: the function name and the path,
      relative to the bot directory, of the file defining it. */
  datatype HandlerLocation = HandlerLocation(name: string, path: string)

  /** The action-path split of `create_graph_edges`: the name is the last
      dotted segment; the path is everything before the dot that precedes it,
      with dots turned into slashes, plus `.py`. Python's slice
      `a[:-(len(name) + 1)]` is empty when `a` has no dot at all. */
  function SplitAction(action: string): HandlerLocation
  {
    var name := LastSegment(action);
    var cut := |action| - (|name| + 1);
    var dir := if cut >= 0 then action[..cut] else "";
    HandlerLocation(name, DotsToSlashes(dir) + ".py")
  }

  /** The name has no dot. A dotless action is its own name, in the file
      `.py`; otherwise the action is the directory part, a dot and the name,
      and the path is the directory part with dots turned into slashes,
      followed by `.py`. */
  lemma SplitActionParts(action: string)
    ensures var loc := SplitAction(action);
            !HasDot(loc.name)
            && (!HasDot(action) ==> loc == HandlerLocation(action, ".py"))
            && (HasDot(action) ==>
                  var cut := |action| - |loc.name| - 1;
                  0 <= cut && action[cut] == '.' && action[cut + 1..] == loc.name
                  && |loc.path| == cut + 3 && loc.path[cut..] == ".py"
                  && forall k :: 0 <= k < cut ==> loc.path[k] == (if action[k] == '.' then '/' else action[k]))
  {
    if !HasDot(action) {
      LastSegmentOfDotless(action);
    }
  }

  /** A dotless action is its own last segment: a shorter segment would be
      preceded by a dot of the action. */
  lemma LastSegmentOfDotless(a: string)
    requires !HasDot(a)
    ensures LastSegment(a) == a
  {
    var r := LastSegment(a);
    assert |r| == |a|;
    assert r == a[|a| - |r|..];
  }

  /** The last segment after a dot is the dotless name that follows it: a
      longer segment would contain that dot, a shorter one would be preceded
      by a dot of the name. */
  lemma LastSegmentAfterDot(package: string, name: string)
    requires !HasDot(name)
    ensures LastSegment(package + "." + name) == name
  {
    var a := package + "." + name;
    var r := LastSegment(a);
    var d := |package|;
    assert a[d] == '.';
    SuffixIndex(a, r, d);
    assert |r| == |name|;
    assert r == a[d + 1..];
    assert a[d + 1..] == name;
  }

  /** Position `j` of `a`, read in its suffix `r` when `r` reaches back that far. */
  lemma SuffixIndex(a: string, r: string, j: nat)
    ensures |r| <= |a| && r == a[|a| - |r|..] && |a| - |r| <= j < |a| ==> r[j - (|a| - |r|)] == a[j]
  {
  }

  /** Round trip: a dotted module path followed by a dotless function name
      splits back into that name and the module's file path. */
  lemma SplitComposedAction(package: string, name: string)
    requires !HasDot(name)
    ensures SplitAction(package + "." + name) == HandlerLocation(name, DotsToSlashes(package) + ".py")
  {
    var action := package + "." + name;
    LastSegmentAfterDot(package, name);
    assert action[..|package|] == package;
  }

  /** The example of a handler in a nested package. */
  lemma SplitNestedExample()
    ensures SplitAction("a.b.c") == HandlerLocation("c", "a/b.py")
  {
    assert !HasDot("c");
    SplitComposedAction("a.b", "c");
    assert "a.b" + "." + "c" == "a.b.c";
    DotsToSlashesExample();
  }

  lemma DotsToSlashesExample()
    ensures DotsToSlashes("a.b") + ".py" == "a/b.py"
  {
    var d := DotsToSlashes("a.b");
    assert d[0] == 'a' && d[1] == '/' && d[2] == 'b';
    assert d == "a/b";
  }
}
