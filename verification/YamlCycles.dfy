/** Cyclic YAML aliases: the iterative depth-first search over a parsed node graph.

  A document is a graph, not a tree: anchors and aliases let one node be the child of
  many, or of itself. Nodes are named by their identity, edges by a node and the position
  of a child in it.
*/
module YamlCycles {

  type Id = nat

  /** A mapping entry keeps the source line of its key and its value node; keys are not followed. */
  datatype Content =
    | Scalar
    | Mapping(entries: seq<(nat, Id)>)
    | Sequence(items: seq<Id>)

  datatype Node = Node(line: nat, content: Content)

  type Graph = map<Id, Node>

  type Edge = (Id, nat)

  datatype Finding = CyclicAlias(path: string, line: nat)

  /** A pending visit of `node`, or the marker that its subtree is finished. */
  datatype Frame = Frame(node: Id, keyLine: nat, exiting: bool)

  // ---- what a cycle is ----

  function Degree(g: Graph, n: Id): nat
    requires n in g
  {
    match g[n].content
    case Scalar => 0
    case Mapping(entries) => |entries|
    case Sequence(items) => |items|
  }

  predicate IsEdge(g: Graph, e: Edge) {
    e.0 in g && e.1 < Degree(g, e.0)
  }

  function Child(g: Graph, e: Edge): Id
    requires IsEdge(g, e)
  {
    var content := g[e.0].content;
    if content.Mapping? then content.entries[e.1].1 else content.items[e.1]
  }

  ghost predicate Closed(g: Graph) {
    forall e :: IsEdge(g, e) ==> Child(g, e) in g
  }

  /** The line, counted from 1, that a finding about the edge names: that of the mapping key, or of the item. */
  function LineOf(g: Graph, e: Edge): nat
    requires Closed(g) && IsEdge(g, e)
  {
    var content := g[e.0].content;
    1 + if content.Mapping? then content.entries[e.1].0 else g[Child(g, e)].line
  }

  /** A walk along the edges `es`; it visits `p`. */
  ghost predicate IsRoute(g: Graph, p: seq<Id>, es: seq<Edge>) {
    && |p| == |es| + 1 && p[0] in g
    && forall k :: 0 <= k < |es| ==> IsEdge(g, es[k]) && es[k].0 == p[k] && Child(g, es[k]) == p[k + 1]
  }

  ghost predicate Reaches(g: Graph, root: Id, n: Id) {
    exists p, es :: IsRoute(g, p, es) && p[0] == root && p[|es|] == n
  }

  /** Some route from the root comes back to a node it already passed. */
  ghost predicate Cyclic(g: Graph, root: Id) {
    exists p, es :: IsRoute(g, p, es) && p[0] == root && p[|es|] in p[..|es|]
  }

  /** The edge leads back to a node on some route from the root to its start. */
  ghost predicate LeadsBack(g: Graph, root: Id, e: Edge) {
    IsEdge(g, e) &&
    exists p, es :: IsRoute(g, p, es) && p[0] == root && p[|es|] == e.0 && Child(g, e) in p
  }

  /** Every cycle that can be reached uses one of the edges: without them nothing reachable is cyclic. */
  ghost predicate CutsEveryCycle(g: Graph, root: Id, cut: seq<Edge>) {
    forall p, es :: IsRoute(g, p, es) && es != [] && p[0] == p[|es|] && Reaches(g, root, p[0]) ==>
      exists k :: 0 <= k < |es| && es[k] in cut
  }

  /** The edges out of `n` as the search pushes them: each child with its line. */
  function Edges(g: Graph, n: Id): (es: seq<(Id, nat)>)
    requires Closed(g) && n in g
    ensures |es| == Degree(g, n)
    ensures forall i: nat :: i < |es| ==> es[i] == (Child(g, (n, i)), LineOf(g, (n, i)))
  {
    match g[n].content
    case Scalar => []
    case Mapping(entries) =>
      seq(|entries|, i requires 0 <= i < |entries| => (entries[i].1, entries[i].0 + 1))
    case Sequence(items) =>
      assert forall i: nat :: i < |items| ==> IsEdge(g, (n, i)) && Child(g, (n, i)) == items[i];
      seq(|items|, i requires 0 <= i < |items| => (items[i], g[items[i]].line + 1))
  }

  lemma RouteSnoc(g: Graph, p: seq<Id>, es: seq<Edge>, e: Edge)
    requires Closed(g) && IsRoute(g, p, es) && IsEdge(g, e) && e.0 == p[|es|]
    ensures IsRoute(g, p + [Child(g, e)], es + [e])
  {
  }

  /** A cycle met on the way from the root closes at a node that can be reached. */
  lemma CutFindsCycle(g: Graph, root: Id, cut: seq<Edge>)
    requires CutsEveryCycle(g, root, cut) && Cyclic(g, root)
    ensures cut != []
  {
    var p, es :| IsRoute(g, p, es) && p[0] == root && p[|es|] in p[..|es|];
    var k :| 0 <= k < |es| && p[k] == p[|es|];
    assert IsRoute(g, p[..k + 1], es[..k]);
    assert Reaches(g, root, p[k]);
    assert IsRoute(g, p[k..], es[k..]);
  }

  lemma BackMeansCyclic(g: Graph, root: Id, e: Edge)
    requires Closed(g) && LeadsBack(g, root, e)
    ensures Cyclic(g, root)
  {
    var p, es :| IsRoute(g, p, es) && p[0] == root && p[|es|] == e.0 && Child(g, e) in p;
    RouteSnoc(g, p, es, e);
    assert (p + [Child(g, e)])[..|es + [e]|] == p;
  }

  // ---- the shape of the stack ----

  /** Frames for edges, the first on top. */
  function Frames(es: seq<(Id, nat)>): (fs: seq<Frame>)
    ensures |fs| == |es|
    ensures es != [] ==> fs[|fs| - 1] == Frame(es[0].0, es[0].1, false) && fs[..|fs| - 1] == Frames(es[1..])
  {
    if es == [] then [] else Frames(es[1..]) + [Frame(es[0].0, es[0].1, false)]
  }

  /** The stack holds, for every ancestor on `path`, its exit marker and above it the frames of its edges from
      position `at` on, the first of them on top. */
  ghost predicate Layout(g: Graph, stack: seq<Frame>, path: seq<Id>, at: seq<nat>)
    requires Closed(g)
  {
    if stack == [] then path == [] && at == []
    else
      var rest, top, m := stack[..|stack| - 1], stack[|stack| - 1], |path| - 1;
      m >= 0 && |at| == |path| && path[m] in g &&
      if top.exiting then
        top.node == path[m] && at[m] == Degree(g, path[m]) && Layout(g, rest, path[..m], at[..m])
      else
        && IsEdge(g, (path[m], at[m]))
        && top.node == Child(g, (path[m], at[m])) && top.keyLine == LineOf(g, (path[m], at[m]))
        && Layout(g, rest, path, at[m := at[m] + 1])
  }

  lemma TopIsExit(g: Graph, stack: seq<Frame>, path: seq<Id>, at: seq<nat>)
    requires Closed(g) && Layout(g, stack, path, at) && stack != [] && stack[|stack| - 1].exiting
    ensures var m := |path| - 1;
            && m >= 0 && |at| == |path| && path[m] in g
            && stack[|stack| - 1].node == path[m] && at[m] == Degree(g, path[m])
            && Layout(g, stack[..|stack| - 1], path[..m], at[..m])
  {
  }

  lemma TopIsEdge(g: Graph, stack: seq<Frame>, path: seq<Id>, at: seq<nat>)
    requires Closed(g) && Layout(g, stack, path, at) && stack != [] && !stack[|stack| - 1].exiting
    ensures var m, top := |path| - 1, stack[|stack| - 1];
            && m >= 0 && |at| == |path| && path[m] in g
            && var e := (path[m], at[m]);
               && IsEdge(g, e) && at[m] < Degree(g, path[m])
               && top.node == Child(g, e) && top.node in g && top.keyLine == LineOf(g, e)
               && Layout(g, stack[..|stack| - 1], path, at[m := at[m] + 1])
  {
  }

  lemma {:induction false} PushedLayout(g: Graph, marked: seq<Frame>, path: seq<Id>, at: seq<nat>, n: Id, k: nat)
    requires Closed(g) && n in g && k <= Degree(g, n) && |at| == |path|
    requires Layout(g, marked, path + [n], at + [Degree(g, n)])
    ensures Layout(g, marked + Frames(Edges(g, n)[k..]), path + [n], at + [k])
    decreases Degree(g, n) - k
  {
    hide Layout, Degree, Child, LineOf, Closed;
    var es := Edges(g, n);
    hide Edges;
    if k == |es| {
      assert es[k..] == [] && marked + [] == marked;
    } else {
      var low, top := Frames(es[k + 1..]), Frame(es[k].0, es[k].1, false);
      assert es[k..][1..] == es[k + 1..] && es[k..][0] == es[k];
      assert Frames(es[k..]) == low + [top];
      hide Frames;
      PushedLayout(g, marked, path, at, n, k + 1);
      assert top == Frame(Child(g, (n, k)), LineOf(g, (n, k)), false);
      NextFrame(g, marked, low, path, at, n, k, top);
    }
  }

  lemma NextFrame(g: Graph, marked: seq<Frame>, low: seq<Frame>, path: seq<Id>, at: seq<nat>, n: Id, k: nat, top: Frame)
    requires Closed(g) && |at| == |path| && IsEdge(g, (n, k)) && top == Frame(Child(g, (n, k)), LineOf(g, (n, k)), false)
    requires Layout(g, marked + low, path + [n], at + [k + 1])
    ensures Layout(g, marked + (low + [top]), path + [n], at + [k])
  {
    hide Layout, IsEdge, Child, LineOf, Closed;
    assert marked + (low + [top]) == (marked + low) + [top];
    assert (at + [k])[|path| := k + 1] == at + [k + 1];
    OneMoreFrame(g, marked + low, path + [n], at + [k], top);
  }

  lemma OneMoreFrame(g: Graph, rest: seq<Frame>, path: seq<Id>, at: seq<nat>, top: Frame)
    requires Closed(g) && path != [] && |at| == |path|
    requires var e := (path[|path| - 1], at[|path| - 1]);
             IsEdge(g, e) && top == Frame(Child(g, e), LineOf(g, e), false)
    requires Layout(g, rest, path, at[|path| - 1 := at[|path| - 1] + 1])
    ensures Layout(g, rest + [top], path, at)
  {
    hide Degree, Child, LineOf, Closed;
    assert (rest + [top])[..|rest|] == rest;
  }

  lemma ExpandedLayout(g: Graph, rest: seq<Frame>, path: seq<Id>, at: seq<nat>, top: Frame)
    requires Closed(g) && Layout(g, rest, path, at) && |at| == |path| && top.node in g
    ensures Layout(g, rest + [top.(exiting := true)] + Frames(Edges(g, top.node)), path + [top.node], at + [0])
  {
    hide Edges, Degree, Frames;
    var marked := rest + [top.(exiting := true)];
    var down, last := path + [top.node], at + [Degree(g, top.node)];
    assert marked[..|marked| - 1] == rest && down[..|path|] == path && last[..|path|] == at;
    PushedLayout(g, marked, path, at, top.node, 0);
    assert Edges(g, top.node)[0..] == Edges(g, top.node);
  }

  // ---- the search ----

  function Elements(xs: seq<Id>): set<Id> {
    set x | x in xs
  }

  ghost predicate Distinct<T>(xs: seq<T>) {
    forall i, j :: 0 <= i < j < |xs| ==> xs[i] != xs[j]
  }

  ghost predicate Positions(g: Graph, path: seq<Id>, at: seq<nat>) {
    |at| == |path| && forall j :: 0 <= j < |path| ==> path[j] in g && at[j] <= Degree(g, path[j])
  }

  /** The ancestors are a route from the root; the edge before position `at` leads from one to the next. */
  ghost predicate PathInv(g: Graph, root: Id, path: seq<Id>, at: seq<nat>) {
    && Positions(g, path, at) && Distinct(path) && (path != [] ==> path[0] == root)
    && (forall j :: 0 <= j < |path| - 1 ==> OnTheWay(g, path, at, j))
  }

  ghost predicate OnTheWay(g: Graph, path: seq<Id>, at: seq<nat>, j: nat)
    requires |at| == |path| && j < |path| - 1
  {
    at[j] > 0 && IsEdge(g, (path[j], at[j] - 1)) && Child(g, (path[j], at[j] - 1)) == path[j + 1]
  }

  /** The edge is reported, or its child is done. */
  ghost predicate Settled(g: Graph, order: seq<Id>, back: seq<Edge>, e: Edge)
    requires IsEdge(g, e)
  {
    e in back || Child(g, e) in order
  }

  /** Every edge of a completed node is reported or leads to a node completed before it. */
  ghost predicate OrderInv(g: Graph, root: Id, order: seq<Id>, back: seq<Edge>) {
    && Distinct(order)
    && (forall k :: 0 <= k < |order| ==> order[k] in g && Reaches(g, root, order[k]))
    && (forall k, i: nat :: 0 <= k < |order| && i < Degree(g, order[k]) ==> Settled(g, order[..k], back, (order[k], i)))
  }

  /** Of an ancestor every edge before its position is settled, but the one the path takes. */
  ghost predicate PendingInv(g: Graph, path: seq<Id>, at: seq<nat>, order: seq<Id>, back: seq<Edge>) {
    Positions(g, path, at) &&
    forall j, i: nat :: 0 <= j < |path| && i < at[j] ==>
      (j + 1 < |path| && i == at[j] - 1) || Settled(g, order, back, (path[j], i))
  }

  /** Reported edges were taken from the stack once each and lead back to an ancestor. */
  ghost predicate BackInv(g: Graph, root: Id, path: seq<Id>, at: seq<nat>, order: seq<Id>, back: seq<Edge>) {
    && Distinct(back) && |at| == |path|
    && forall e :: e in back ==>
         && IsEdge(g, e) && LeadsBack(g, root, e) && Child(g, e) in path + order
         && (e.0 in order || exists j :: 0 <= j < |path| && path[j] == e.0 && e.1 < at[j])
  }

  /** What holds at the head of the loop once the root has been expanded. */
  ghost predicate Inv(g: Graph, root: Id, stack: seq<Frame>, path: seq<Id>, at: seq<nat>, order: seq<Id>, back: seq<Edge>)
    requires Closed(g)
  {
    && Layout(g, stack, path, at) && PathInv(g, root, path, at) && Apart(root, path, order)
    && OrderInv(g, root, order, back) && PendingInv(g, path, at, order, back)
    && BackInv(g, root, path, at, order, back)
  }

  ghost predicate Apart(root: Id, path: seq<Id>, order: seq<Id>) {
    (forall n :: n in path ==> n !in order) && root in path + order
  }

  lemma PathIsRoute(g: Graph, root: Id, path: seq<Id>, at: seq<nat>) returns (es: seq<Edge>)
    requires path != [] && PathInv(g, root, path, at)
    ensures IsRoute(g, path, es) && path[0] == root
    ensures Reaches(g, root, path[|path| - 1])
  {
    es := seq(|path| - 1, j requires 0 <= j < |path| - 1 => (path[j], if at[j] > 0 then at[j] - 1 else 0));
    forall k | 0 <= k < |es|
      ensures IsEdge(g, es[k]) && es[k].0 == path[k] && Child(g, es[k]) == path[k + 1]
    {
      assert OnTheWay(g, path, at, k);
    }
  }

  /** An exit marker completes the end of the ancestor path, all of whose edges are settled. */
  lemma ExitKeepsInv(g: Graph, root: Id, stack: seq<Frame>, path: seq<Id>, at: seq<nat>, order: seq<Id>, back: seq<Edge>)
    requires Closed(g) && Inv(g, root, stack, path, at, order, back) && stack != [] && stack[|stack| - 1].exiting
    ensures path != [] && path[|path| - 1] == stack[|stack| - 1].node
    ensures var m := |path| - 1;
            && Inv(g, root, stack[..|stack| - 1], path[..m], at[..m], order + [path[m]], back)
            && Elements(path[..m]) == Elements(path) - {path[m]}
  {
    TopIsExit(g, stack, path, at);
    hide Layout, Closed, IsEdge, Child, LineOf, OrderInv, PendingInv, PathInv, BackInv, Degree;
    var m := |path| - 1;
    assert path[m] !in order;
    var _ := PathIsRoute(g, root, path, at);
    ExitKeepsPath(g, root, path, at);
    ExitKeepsOrder(g, root, path, at, order, back);
    ExitKeepsPending(g, path, at, order, back);
    ExitKeepsBack(g, root, path, at, order, back);
    assert path == path[..m] + [path[m]];
  }

  lemma ExitKeepsPath(g: Graph, root: Id, path: seq<Id>, at: seq<nat>)
    requires path != [] && PathInv(g, root, path, at)
    ensures var m := |path| - 1;
            PathInv(g, root, path[..m], at[..m]) && Elements(path[..m]) == Elements(path) - {path[m]}
  {
    var m := |path| - 1;
    forall j | 0 <= j < m - 1
      ensures OnTheWay(g, path[..m], at[..m], j)
    {
      assert OnTheWay(g, path, at, j);
    }
  }

  lemma ExitKeepsOrder(g: Graph, root: Id, path: seq<Id>, at: seq<nat>, order: seq<Id>, back: seq<Edge>)
    requires PathInv(g, root, path, at) && path != [] && OrderInv(g, root, order, back) && PendingInv(g, path, at, order, back)
    requires var m := |path| - 1; at[m] == Degree(g, path[m]) && path[m] !in order && Reaches(g, root, path[m])
    ensures OrderInv(g, root, order + [path[|path| - 1]], back)
  {
    hide Reaches, Degree;
    var m := |path| - 1;
    var more := order + [path[m]];
    forall k, i: nat | 0 <= k < |more| && i < Degree(g, more[k])
      ensures Settled(g, more[..k], back, (more[k], i))
    {
      if k < |order| {
        assert more[..k] == order[..k];
      } else {
        assert more[..k] == order;
        assert i < at[m];
      }
    }
  }

  lemma ExitKeepsPending(g: Graph, path: seq<Id>, at: seq<nat>, order: seq<Id>, back: seq<Edge>)
    requires path != [] && Positions(g, path, at)
    requires forall j :: 0 <= j < |path| - 1 ==> OnTheWay(g, path, at, j)
    requires PendingInv(g, path, at, order, back)
    ensures var m := |path| - 1; PendingInv(g, path[..m], at[..m], order + [path[m]], back)
  {
    hide Degree;
    var m := |path| - 1;
    forall j, i: nat | 0 <= j < m && i < at[j]
      ensures (j + 1 < m && i == at[j] - 1) || Settled(g, order + [path[m]], back, (path[j], i))
    {
      if i == at[j] - 1 {
        assert OnTheWay(g, path, at, j);
      } else {
        assert Settled(g, order, back, (path[j], i));
      }
    }
  }

  lemma ExitKeepsBack(g: Graph, root: Id, path: seq<Id>, at: seq<nat>, order: seq<Id>, back: seq<Edge>)
    requires |at| == |path| && path != [] && BackInv(g, root, path, at, order, back)
    ensures var m := |path| - 1; BackInv(g, root, path[..m], at[..m], order + [path[m]], back)
  {
    hide LeadsBack;
    var m := |path| - 1;
    assert path == path[..m] + [path[m]];
    forall e | e in back
      ensures Child(g, e) in path[..m] + (order + [path[m]])
      ensures e.0 in order + [path[m]] || exists j :: 0 <= j < m && path[..m][j] == e.0 && e.1 < at[..m][j]
    {
      if e.0 !in order + [path[m]] {
        var j :| 0 <= j < |path| && path[j] == e.0 && e.1 < at[j];
        assert path[..m][j] == e.0;
      }
    }
  }

  /** Going past an edge at the top of the stack, settled now or taken by the path. */
  lemma PastEdge(g: Graph, root: Id, path: seq<Id>, at: seq<nat>)
    requires path != [] && PathInv(g, root, path, at) && at[|path| - 1] < Degree(g, path[|path| - 1])
    ensures var m := |path| - 1; PathInv(g, root, path, at[m := at[m] + 1])
  {
    hide Degree;
    var m := |path| - 1;
    var next := at[m := at[m] + 1];
    forall j | 0 <= j < m
      ensures OnTheWay(g, path, next, j)
    {
      assert OnTheWay(g, path, at, j);
    }
  }

  lemma PastEdgeKeepsPending(g: Graph, path: seq<Id>, at: seq<nat>, order: seq<Id>, back: seq<Edge>, more: seq<Edge>)
    requires path != [] && Positions(g, path, at)
    requires at[|path| - 1] < Degree(g, path[|path| - 1])
    requires PendingInv(g, path, at, order, back) && back <= more
    requires Settled(g, order, more, (path[|path| - 1], at[|path| - 1]))
    ensures var m := |path| - 1; PendingInv(g, path, at[m := at[m] + 1], order, more)
  {
    hide Degree;
    var m := |path| - 1;
    var next := at[m := at[m] + 1];
    forall j, i: nat | 0 <= j < |path| && i < next[j]
      ensures (j + 1 < |path| && i == next[j] - 1) || Settled(g, order, more, (path[j], i))
    {
      if j == m && i == at[m] {
        assert Settled(g, order, more, (path[m], at[m]));
      } else if !(j + 1 < |path| && i == at[j] - 1) {
        assert Settled(g, order, back, (path[j], i));
      }
    }
  }

  lemma PastEdgeKeepsBack(g: Graph, root: Id, path: seq<Id>, at: seq<nat>, order: seq<Id>, back: seq<Edge>)
    requires |at| == |path| && path != [] && BackInv(g, root, path, at, order, back)
    ensures var m := |path| - 1; BackInv(g, root, path, at[m := at[m] + 1], order, back)
  {
    hide LeadsBack;
    var m := |path| - 1;
    var next := at[m := at[m] + 1];
    forall e | e in back && e.0 !in order
      ensures exists j :: 0 <= j < |path| && path[j] == e.0 && e.1 < next[j]
    {
      var j :| 0 <= j < |path| && path[j] == e.0 && e.1 < at[j];
      assert path[j] == e.0 && e.1 < next[j];
    }
  }

  lemma OrderKeepsReports(g: Graph, root: Id, order: seq<Id>, back: seq<Edge>, more: seq<Edge>)
    requires OrderInv(g, root, order, back) && back <= more
    ensures OrderInv(g, root, order, more)
  {
    hide Reaches, Degree;
    forall k, i: nat | 0 <= k < |order| && i < Degree(g, order[k])
      ensures Settled(g, order[..k], more, (order[k], i))
    {
      assert Settled(g, order[..k], back, (order[k], i));
    }
  }

  /** Dropping a frame whose node is complete. */
  lemma SkipKeepsInv(g: Graph, root: Id, stack: seq<Frame>, path: seq<Id>, at: seq<nat>, order: seq<Id>, back: seq<Edge>)
    requires Closed(g) && Inv(g, root, stack, path, at, order, back)
    requires stack != [] && !stack[|stack| - 1].exiting && stack[|stack| - 1].node in order
    ensures path != []
    ensures var m := |path| - 1; Inv(g, root, stack[..|stack| - 1], path, at[m := at[m] + 1], order, back)
  {
    TopIsEdge(g, stack, path, at);
    hide Layout, Closed, OrderInv, LeadsBack;
    PastEdge(g, root, path, at);
    PastEdgeKeepsPending(g, path, at, order, back, back);
    PastEdgeKeepsBack(g, root, path, at, order, back);
  }

  /** A node met again below itself: its edge leads back along the ancestor path, and was not reported before. */
  lemma AncestorMetAgain(g: Graph, root: Id, path: seq<Id>, at: seq<nat>, order: seq<Id>, back: seq<Edge>)
    requires path != [] && PathInv(g, root, path, at) && Apart(root, path, order)
    requires BackInv(g, root, path, at, order, back)
    requires var e := (path[|path| - 1], at[|path| - 1]); IsEdge(g, e) && Child(g, e) in path
    ensures var m := |path| - 1;
            var e := (path[m], at[m]);
            LeadsBack(g, root, e) && e !in back && BackInv(g, root, path, at[m := at[m] + 1], order, back + [e])
  {
    var m := |path| - 1;
    var e := (path[m], at[m]);
    var es := PathIsRoute(g, root, path, at);
    assert LeadsBack(g, root, e);
    hide Degree, Child, LeadsBack, IsRoute, OnTheWay;
    forall b | b in back
      ensures b != e
    {
      if b.0 == path[m] {
        assert path[m] in path && path[m] !in order;
        var j :| 0 <= j < |path| && path[j] == b.0 && b.1 < at[j];
        assert j == m;
      }
    }
    PastEdgeKeepsBack(g, root, path, at, order, back);
    var next := at[m := at[m] + 1];
    assert path[m] == e.0 && e.1 < next[m];
  }

  /** The report of such an edge. */
  lemma ReportKeepsInv(g: Graph, root: Id, stack: seq<Frame>, path: seq<Id>, at: seq<nat>, order: seq<Id>, back: seq<Edge>)
    requires Closed(g) && Inv(g, root, stack, path, at, order, back)
    requires stack != [] && !stack[|stack| - 1].exiting && stack[|stack| - 1].node in path
    ensures path != []
    ensures var m := |path| - 1;
            var e := (path[m], at[m]);
            && IsEdge(g, e) && LineOf(g, e) == stack[|stack| - 1].keyLine && LeadsBack(g, root, e) && e !in back
            && Inv(g, root, stack[..|stack| - 1], path, at[m := at[m] + 1], order, back + [e])
  {
    TopIsEdge(g, stack, path, at);
    hide Layout, Closed, LeadsBack;
    var m := |path| - 1;
    var e := (path[m], at[m]);
    PastEdge(g, root, path, at);
    AncestorMetAgain(g, root, path, at, order, back);
    OrderKeepsReports(g, root, order, back, back + [e]);
    PastEdgeKeepsPending(g, path, at, order, back, back + [e]);
  }

  /** Expanding a node appends it to the ancestor path and leaves its marker and a frame for each of its edges. */
  lemma ExpandKeepsInv(g: Graph, root: Id, stack: seq<Frame>, path: seq<Id>, at: seq<nat>, order: seq<Id>, back: seq<Edge>)
    requires Closed(g) && Inv(g, root, stack, path, at, order, back)
    requires stack != [] && !stack[|stack| - 1].exiting && stack[|stack| - 1].node !in path + order
    ensures path != []
    ensures var m, top := |path| - 1, stack[|stack| - 1];
            top.node in g &&
            Inv(g, root, stack[..|stack| - 1] + [top.(exiting := true)] + Frames(Edges(g, top.node)),
                path + [top.node], at[m := at[m] + 1] + [0], order, back)
  {
    hide Layout, LeadsBack, OrderInv, Edges, PendingInv, BackInv, Degree, Child, LineOf, Frames, Apart;
    TopIsEdge(g, stack, path, at);
    var m, top := |path| - 1, stack[|stack| - 1];
    assert Positions(g, path, at);
    ExpandKeepsPath(g, root, path, at, top.node);
    hide PathInv, Positions, IsEdge, Closed;
    ExpandedLayout(g, stack[..|stack| - 1], path, at[m := at[m] + 1], top);
    ExpandKeepsPending(g, path, at, order, back, top.node);
    ExpandKeepsBack(g, root, path, at, order, back, top.node);
    ExpandKeepsApart(root, path, order, top.node);
  }

  lemma ExpandKeepsApart(root: Id, path: seq<Id>, order: seq<Id>, n: Id)
    requires Apart(root, path, order) && n !in order
    ensures Apart(root, path + [n], order)
  {
  }

  lemma ExpandKeepsPath(g: Graph, root: Id, path: seq<Id>, at: seq<nat>, n: Id)
    requires path != [] && PathInv(g, root, path, at) && n in g && n !in path
    requires var e := (path[|path| - 1], at[|path| - 1]); IsEdge(g, e) && Child(g, e) == n
    ensures var m := |path| - 1; PathInv(g, root, path + [n], at[m := at[m] + 1] + [0])
  {
    var m := |path| - 1;
    var next := at[m := at[m] + 1] + [0];
    forall j | 0 <= j < |path|
      ensures OnTheWay(g, path + [n], next, j)
    {
      if j < m {
        assert OnTheWay(g, path, at, j);
      }
    }
  }

  lemma ExpandKeepsPending(g: Graph, path: seq<Id>, at: seq<nat>, order: seq<Id>, back: seq<Edge>, n: Id)
    requires path != [] && n in g && Positions(g, path, at)
    requires at[|path| - 1] < Degree(g, path[|path| - 1])
    requires PendingInv(g, path, at, order, back)
    ensures var m := |path| - 1; PendingInv(g, path + [n], at[m := at[m] + 1] + [0], order, back)
  {
    hide Degree;
    var m := |path| - 1;
    var down, next := path + [n], at[m := at[m] + 1] + [0];
    forall j, i: nat | 0 <= j < |down| && i < next[j]
      ensures (j + 1 < |down| && i == next[j] - 1) || Settled(g, order, back, (down[j], i))
    {
      if !(j + 1 < |down| && i == next[j] - 1) {
        assert Settled(g, order, back, (path[j], i));
      }
    }
  }

  lemma ExpandKeepsBack(g: Graph, root: Id, path: seq<Id>, at: seq<nat>, order: seq<Id>, back: seq<Edge>, n: Id)
    requires |at| == |path| && path != [] && BackInv(g, root, path, at, order, back)
    ensures var m := |path| - 1; BackInv(g, root, path + [n], at[m := at[m] + 1] + [0], order, back)
  {
    hide LeadsBack;
    var m := |path| - 1;
    var down, next := path + [n], at[m := at[m] + 1] + [0];
    forall e | e in back && e.0 !in order
      ensures exists j :: 0 <= j < |down| && down[j] == e.0 && e.1 < next[j]
    {
      var j :| 0 <= j < |path| && path[j] == e.0 && e.1 < at[j];
      assert down[j] == e.0 && e.1 < next[j];
    }
  }

  /** The position after the edge at the top of the stack. */
  function Past(at: seq<nat>): seq<nat> {
    if at == [] then [] else at[|at| - 1 := at[|at| - 1] + 1]
  }

  /** Before the first iteration only the root is pending. */
  ghost predicate SearchInv(g: Graph, root: Id, stack: seq<Frame>, path: seq<Id>, at: seq<nat>, order: seq<Id>, back: seq<Edge>)
    requires Closed(g)
  {
    if path == order == [] then stack == [Frame(root, 1, false)] && at == [] && back == []
    else Inv(g, root, stack, path, at, order, back)
  }

  /** A node seen for the first time is expanded, the root first. */
  lemma FirstVisit(g: Graph, root: Id, stack: seq<Frame>, path: seq<Id>, at: seq<nat>, order: seq<Id>, back: seq<Edge>)
    requires Closed(g) && root in g && SearchInv(g, root, stack, path, at, order, back)
    requires stack != [] && !stack[|stack| - 1].exiting && stack[|stack| - 1].node !in path + order
    ensures var top := stack[|stack| - 1];
            top.node in g &&
            SearchInv(g, root, stack[..|stack| - 1] + [top.(exiting := true)] + Frames(Edges(g, top.node)),
                      path + [top.node], Past(at) + [0], order, back)
  {
    hide Inv;
    if path == order == [] {
      RootKeepsInv(g, root, 1);
      assert path + [root] == [root] && Past(at) + [0] == [0];
      assert stack[..0] + [Frame(root, 1, true)] == [Frame(root, 1, true)];
    } else {
      ExpandKeepsInv(g, root, stack, path, at, order, back);
      PositionsKnown(g, root, stack, path, at, order, back);
    }
  }

  lemma PositionsKnown(g: Graph, root: Id, stack: seq<Frame>, path: seq<Id>, at: seq<nat>, order: seq<Id>, back: seq<Edge>)
    requires Closed(g) && Inv(g, root, stack, path, at, order, back)
    ensures |at| == |path| && (path + order != [])
  {
  }

  /** A marker, or a node seen before, only comes up once the root has been expanded. */
  lemma Expanded(g: Graph, root: Id, stack: seq<Frame>, path: seq<Id>, at: seq<nat>, order: seq<Id>, back: seq<Edge>)
    requires Closed(g) && SearchInv(g, root, stack, path, at, order, back) && stack != []
    requires stack[|stack| - 1].exiting || stack[|stack| - 1].node in path + order
    ensures Inv(g, root, stack, path, at, order, back)
  {
  }

  lemma ExitKeepsSearch(g: Graph, root: Id, stack: seq<Frame>, path: seq<Id>, at: seq<nat>, order: seq<Id>, back: seq<Edge>)
    requires Closed(g) && SearchInv(g, root, stack, path, at, order, back) && stack != [] && stack[|stack| - 1].exiting
    ensures path != [] && |at| == |path| && path[|path| - 1] == stack[|stack| - 1].node
    ensures var m := |path| - 1;
            && SearchInv(g, root, stack[..|stack| - 1], path[..m], at[..m], order + [path[m]], back)
            && Elements(path[..m]) == Elements(path) - {path[m]}
  {
    hide Inv;
    Expanded(g, root, stack, path, at, order, back);
    ExitKeepsInv(g, root, stack, path, at, order, back);
    PositionsKnown(g, root, stack, path, at, order, back);
  }

  lemma SkipKeepsSearch(g: Graph, root: Id, stack: seq<Frame>, path: seq<Id>, at: seq<nat>, order: seq<Id>, back: seq<Edge>)
    requires Closed(g) && SearchInv(g, root, stack, path, at, order, back)
    requires stack != [] && !stack[|stack| - 1].exiting && stack[|stack| - 1].node in order
    ensures SearchInv(g, root, stack[..|stack| - 1], path, Past(at), order, back)
  {
    hide Inv;
    Expanded(g, root, stack, path, at, order, back);
    SkipKeepsInv(g, root, stack, path, at, order, back);
    PositionsKnown(g, root, stack, path, at, order, back);
  }

  lemma ReportKeepsSearch(g: Graph, root: Id, stack: seq<Frame>, path: seq<Id>, at: seq<nat>, order: seq<Id>, back: seq<Edge>)
    returns (e: Edge)
    requires Closed(g) && SearchInv(g, root, stack, path, at, order, back)
    requires stack != [] && !stack[|stack| - 1].exiting && stack[|stack| - 1].node in path
    ensures IsEdge(g, e) && LineOf(g, e) == stack[|stack| - 1].keyLine
    ensures SearchInv(g, root, stack[..|stack| - 1], path, Past(at), order, back + [e])
  {
    hide Inv;
    Expanded(g, root, stack, path, at, order, back);
    ReportKeepsInv(g, root, stack, path, at, order, back);
    PositionsKnown(g, root, stack, path, at, order, back);
    e := (path[|path| - 1], at[|path| - 1]);
  }

  /** The first iteration, which expands the root. */
  lemma RootKeepsInv(g: Graph, root: Id, line: nat)
    requires Closed(g) && root in g
    ensures Inv(g, root, [Frame(root, line, true)] + Frames(Edges(g, root)), [root], [0], [], [])
  {
    ExpandedLayout(g, [], [], [], Frame(root, line, false));
    var marked := [Frame(root, line, true)];
    assert [] + marked == marked && [] + [root] == [root];
    var at: seq<nat> := [];
    assert at + [0] == [0];
  }

  // ---- what the finished search says ----

  /** Along a route that uses no reported edge the completion index falls strictly. */
  lemma {:induction false} RouteDescends(g: Graph, root: Id, order: seq<Id>, back: seq<Edge>, p: seq<Id>, es: seq<Edge>, k: nat)
    requires OrderInv(g, root, order, back) && IsRoute(g, p, es) && k < |order| && order[k] == p[0]
    requires forall j :: 0 <= j < |es| ==> es[j] !in back
    ensures es != [] ==> p[|es|] in order[..k]
    decreases |es|
  {
    if es != [] {
      hide Degree;
      assert Settled(g, order[..k], back, es[0]);
      var next :| 0 <= next < k && order[next] == p[1];
      RouteDescends(g, root, order, back, p[1..], es[1..], next);
      if |es| > 1 {
        assert p[1..][|es| - 1] == p[|es|];
      }
    }
  }

  lemma {:induction false} CompletedIsReached(g: Graph, order: seq<Id>, p: seq<Id>, es: seq<Edge>)
    requires Closed(g) && IsRoute(g, p, es) && p[0] in order
    requires forall e :: IsEdge(g, e) && e.0 in order ==> Child(g, e) in order
    ensures p[|es|] in order
    decreases |es|
  {
    if es != [] {
      assert IsEdge(g, es[0]);
      CompletedIsReached(g, order, p[1..], es[1..]);
      assert p[1..][|es| - 1] == p[|es|];
    }
  }

  /** With nothing pending exactly the reachable nodes are complete, and the reported edges cut every cycle. */
  lemma SearchIsExact(g: Graph, root: Id, order: seq<Id>, back: seq<Edge>)
    requires Closed(g) && Inv(g, root, [], [], [], order, back)
    ensures forall n :: n in order <==> Reaches(g, root, n)
    ensures CutsEveryCycle(g, root, back)
  {
    hide Degree;
    var none: seq<Id> := [];
    assert none + order == order;
    forall e | IsEdge(g, e) && e.0 in order
      ensures Child(g, e) in order
    {
      var k :| 0 <= k < |order| && order[k] == e.0;
      assert Settled(g, order[..k], back, (order[k], e.1));
      assert e == (e.0, e.1);
    }
    forall n | Reaches(g, root, n)
      ensures n in order
    {
      var p, es :| IsRoute(g, p, es) && p[0] == root && p[|es|] == n;
      CompletedIsReached(g, order, p, es);
    }
    CompletedCutsCycles(g, root, order, back);
  }

  lemma CompletedCutsCycles(g: Graph, root: Id, order: seq<Id>, back: seq<Edge>)
    requires OrderInv(g, root, order, back) && forall n :: Reaches(g, root, n) ==> n in order
    ensures CutsEveryCycle(g, root, back)
  {
    forall p, es | IsRoute(g, p, es) && es != [] && p[0] == p[|es|] && Reaches(g, root, p[0])
      ensures exists j :: 0 <= j < |es| && es[j] in back
    {
      var k :| 0 <= k < |order| && order[k] == p[0];
      if forall j :: 0 <= j < |es| ==> es[j] !in back {
        RouteDescends(g, root, order, back, p, es, k);
      }
    }
  }

  /** The findings about the edges, in order. */
  ghost predicate Reports(g: Graph, path: string, reported: seq<Finding>, back: seq<Edge>)
    requires Closed(g)
  {
    |reported| == |back| &&
    forall k :: 0 <= k < |back| ==> IsEdge(g, back[k]) && reported[k] == CyclicAlias(path, LineOf(g, back[k]))
  }

  ghost predicate AllLeadBack(g: Graph, root: Id, back: seq<Edge>) {
    forall e :: e in back ==> LeadsBack(g, root, e)
  }

  lemma OneMoreReport(g: Graph, path: string, findings: seq<Finding>, reported: seq<Finding>, back: seq<Edge>, e: Edge)
    requires Closed(g) && findings <= reported && Reports(g, path, reported[|findings|..], back) && IsEdge(g, e)
    ensures var more := reported + [CyclicAlias(path, LineOf(g, e))];
            findings <= more && Reports(g, path, more[|findings|..], back + [e])
  {
    hide IsEdge, LineOf;
    var more := reported + [CyclicAlias(path, LineOf(g, e))];
    assert more[|findings|..] == reported[|findings|..] + [CyclicAlias(path, LineOf(g, e))];
  }

  lemma Conclusion(g: Graph, root: Id, path: string, ancestors: seq<Id>, at: seq<nat>, order: seq<Id>, back: seq<Edge>,
                   reported: seq<Finding>)
    requires Closed(g) && SearchInv(g, root, [], ancestors, at, order, back) && Reports(g, path, reported, back)
    ensures Distinct(back) && AllLeadBack(g, root, back) && CutsEveryCycle(g, root, back)
    ensures reported != [] <==> Cyclic(g, root)
    ensures Distinct(order) && forall n :: n in order <==> Reaches(g, root, n)
  {
    assert Inv(g, root, [], [], [], order, back);
    SearchIsExact(g, root, order, back);
    hide Layout, PendingInv, PathInv, Reaches, LeadsBack, Cyclic, CutsEveryCycle, IsEdge, LineOf;
    if reported != [] {
      assert back[0] in back;
      BackMeansCyclic(g, root, back[0]);
    }
    if Cyclic(g, root) {
      CutFindsCycle(g, root, back);
    }
  }

  /** Pushes the children of the current node so that the first of them is on top. */
  method PushReversed(pending: seq<Frame>, edges: seq<(Id, nat)>) returns (more: seq<Frame>)
    ensures more == pending + Frames(edges)
  {
    more := pending;
    for i := |edges| downto 0
      invariant more == pending + Frames(edges[i..])
    {
      assert edges[i..][1..] == edges[i + 1..];
      more := more + [Frame(edges[i].0, edges[i].1, false)];
    }
    assert edges[0..] == edges;
  }

  /** Appends a finding for every alias met again below itself: one for each edge of `back`, in order. `order` is
      the order in which the nodes were completed. */
  method CheckCycles(g: Graph, root: Id, path: string, findings: seq<Finding>)
    returns (reported: seq<Finding>, ghost back: seq<Edge>, ghost order: seq<Id>)
    requires Closed(g) && root in g
    ensures findings <= reported && Reports(g, path, reported[|findings|..], back)
    ensures Distinct(back) && AllLeadBack(g, root, back) && CutsEveryCycle(g, root, back)
    ensures reported != findings <==> Cyclic(g, root)
    ensures Distinct(order) && forall n :: n in order <==> Reaches(g, root, n)
  {
    var active: set<Id>, complete: set<Id> := {}, {};
    var pending := [Frame(root, 1, false)];
    reported, back, order := findings, [], [];
    ghost var ancestors: seq<Id>, at: seq<nat> := [], [];
    hide Inv, SearchInv, Frames, Edges, IsEdge, LineOf, LeadsBack, CutsEveryCycle, Cyclic, Reaches, Distinct, Closed, AllLeadBack,
         Reports, Elements;
    Start(g, root, path);
    while pending != []
      invariant active == Elements(ancestors) && complete == Elements(order)
      invariant findings <= reported && Reports(g, path, reported[|findings|..], back)
      invariant SearchInv(g, root, pending, ancestors, at, order, back)
      decreases g.Keys - (active + complete), |pending|
    {
      var current := pending[|pending| - 1];
      ghost var stack := pending;
      pending := pending[..|pending| - 1];
      var identity := current.node;
      ElementsAre(ancestors, order, identity);
      if current.exiting {
        ExitKeepsSearch(g, root, stack, ancestors, at, order, back);
        active := active - {identity};
        complete := complete + {identity};
        order := order + [identity];
        ancestors, at := ancestors[..|ancestors| - 1], at[..|ancestors| - 1];
        continue;
      }
      if identity in active {
        ghost var e := ReportKeepsSearch(g, root, stack, ancestors, at, order, back);
        OneMoreReport(g, path, findings, reported, back, e);
        reported := reported + [CyclicAlias(path, current.keyLine)];
        back, at := back + [e], Past(at);
        continue;
      }
      if identity in complete {
        SkipKeepsSearch(g, root, stack, ancestors, at, order, back);
        at := Past(at);
        continue;
      }
      FirstVisit(g, root, stack, ancestors, at, order, back);
      active := active + {identity};
      ancestors, at := ancestors + [identity], Past(at) + [0];
      pending := pending + [current.(exiting := true)];
      pending := PushReversed(pending, Edges(g, identity));
    }
    Conclusion(g, root, path, ancestors, at, order, back, reported[|findings|..]);
  }

  lemma Start(g: Graph, root: Id, path: string)
    requires Closed(g)
    ensures Elements([]) == {} && Reports(g, path, [], [])
    ensures SearchInv(g, root, [Frame(root, 1, false)], [], [], [], [])
  {
  }

  lemma ElementsAre(path: seq<Id>, order: seq<Id>, n: Id)
    ensures n in Elements(path) <==> n in path
    ensures n in Elements(order) <==> n in order
    ensures Elements(path + [n]) == Elements(path) + {n} && Elements(order + [n]) == Elements(order) + {n}
  {
  }
}
