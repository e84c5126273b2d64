/** The balance checks of src/balance.py: the breadth-first marking
    `spanning_tree`, the balance test `is_graph_balanced` built on it, the
    triangle test `is_graph_weakbalanced`, and the conversion of a graph into
    the node/link records the renderer reads. */
module Balance {
  import opened SignedGraph

  /** A mark of `visited`: `None` before the node is reached, then `'+'` or `'-'`. */
  type Marks = map<NodeId, Option<Sign>>

  /** A set that holds the target of every entry of each of its members. */
  ghost predicate SuccClosed(g: Graph, s: set<NodeId>)
  {
    forall u, e :: u in s && u in g.adj && e in g.adj[u] ==> e.target in s
  }

  /** `v` can be reached from `start` following entries in their stored
      direction: it lies in every successor-closed set that holds `start`. */
  ghost predicate Reachable(g: Graph, start: NodeId, v: NodeId)
  {
    forall s {:trigger SuccClosed(g, s)} :: start in s && SuccClosed(g, s) ==> v in s
  }

  lemma ReachableStep(g: Graph, start: NodeId, u: NodeId, e: Entry)
    requires Reachable(g, start, u) && u in g.adj && e in g.adj[u]
    ensures Reachable(g, start, e.target)
  {
  }

  predicate Marked(visited: Marks, v: NodeId)
  {
    v in visited && visited[v] != None
  }

  /** The mark `spanning_tree` gives a node reached from a node marked `m`
      over an entry of sign `s`: `'+'` when the two agree, `'-'` otherwise. */
  function MarkFor(m: Option<Sign>, s: Sign): (r: Sign)
    requires m.Some?
    ensures (r == m.value) == (s == Plus)
  {
    match (m.value, s)
    case (Plus, Plus) => Plus
    case (Minus, Minus) => Plus
    case _ => Minus
  }

  /** A link agrees with the marks when `'+'` joins equal marks and `'-'`
      joins different ones. */
  ghost predicate Agrees<M>(marks: map<NodeId, M>, u: NodeId, v: NodeId, s: Sign)
    requires u in marks && v in marks
  {
    (s == Plus) == (marks[u] == marks[v])
  }

  /** Every tree link is an entry of the graph. */
  ghost predicate TreeLinksAreEntries(g: Graph, tree: seq<Link>)
  {
    forall i :: 0 <= i < |tree| ==>
      tree[i].source in g.adj && Entry(tree[i].target, tree[i].sign) in g.adj[tree[i].source]
  }

  /** Every tree link joins two marked nodes and agrees with their marks. */
  ghost predicate TreeLinksAgree(visited: Marks, tree: seq<Link>)
  {
    forall i :: 0 <= i < |tree| ==>
      Marked(visited, tree[i].source) && Marked(visited, tree[i].target)
      && Agrees(visited, tree[i].source, tree[i].target, tree[i].sign)
  }

  /** The tree has exactly one link into each marked node other than `start`. */
  ghost predicate OneLinkPerMarkedNode(start: NodeId, visited: Marks, tree: seq<Link>)
  {
    && (forall i, j :: 0 <= i < j < |tree| ==> tree[i].target != tree[j].target)
    && (forall v :: v in visited ==>
          (Marked(visited, v) && v != start <==> exists i :: 0 <= i < |tree| && tree[i].target == v))
  }

  /** Each tree link leaves `start` or a node an earlier tree link entered. */
  ghost predicate SourcesEnteredFirst(start: NodeId, tree: seq<Link>)
  {
    forall i :: 0 <= i < |tree| ==>
      tree[i].source == start || exists j :: 0 <= j < i && tree[j].target == tree[i].source
  }

  ghost predicate TreeInvariant(g: Graph, start: NodeId, visited: Marks, tree: seq<Link>)
  {
    && TreeLinksAreEntries(g, tree)
    && TreeLinksAgree(visited, tree)
    && OneLinkPerMarkedNode(start, visited, tree)
    && SourcesEnteredFirst(start, tree)
  }

  /** The nodes `spanning_tree` has not marked yet. */
  ghost function Unmarked(visited: Marks): set<NodeId>
  {
    set v | v in visited && visited[v] == None
  }

  /** The marks between two entries of the walk: exactly on the keys,
      `start` marked `'+'`, every queued node marked, every marked node
      reachable, and every marked node that is neither queued nor `busy` with
      all its entries' targets marked. */
  ghost predicate Frontier(g: Graph, start: NodeId, visited: Marks, queue: seq<NodeId>, busy: set<NodeId>)
  {
    && visited.Keys == g.adj.Keys
    && start in visited && visited[start] == Some(Plus)
    && (forall v :: v in queue ==> Marked(visited, v))
    && (forall v :: Marked(visited, v) ==> Reachable(g, start, v))
    && (forall v, e :: Marked(visited, v) && v !in queue && v !in busy && e in g.adj[v] ==> Marked(visited, e.target))
  }

  /** The state of the walk between two entries: the marks and the tree. */
  ghost predicate WalkState(g: Graph, start: NodeId, visited: Marks, queue: seq<NodeId>, busy: set<NodeId>, tree: seq<Link>)
  {
    Frontier(g, start, visited, queue, busy) && TreeInvariant(g, start, visited, tree)
  }

  /** `spanning_tree(graph, start)`: a breadth-first walk along stored edge
      directions that marks `start` `'+'` and every node it reaches `'+'` or
      `'-'` by sign parity, recording the entry through which each node was
      first reached. */
  method SpanningTree(g: Graph, start: NodeId) returns (visited: Marks, tree: seq<Link>)
    requires WellFormed(g) && Closed(g) && start in g.adj
    ensures visited.Keys == g.adj.Keys
    ensures visited[start] == Some(Plus)
    ensures forall v :: v in visited ==> (Marked(visited, v) <==> Reachable(g, start, v))
    ensures TreeInvariant(g, start, visited, tree)
  {
    visited := map v | v in g.adj :: None;
    visited := visited[start := Some(Plus)];
    var queue := [start];
    tree := [];
    assert forall v :: Marked(visited, v) ==> v == start;
    while |queue| > 0
      invariant WalkState(g, start, visited, queue, {}, tree)
      decreases |Unmarked(visited)|, |queue|
    {
      var node := queue[0];
      queue := queue[1..];
      assert Marked(visited, node);
      visited, queue, tree := VisitAdjacent(g, start, visited, queue, tree, node);
    }
    WalkComplete(g, start, visited, tree);
  }

  /** The walk's state while the entries of `node` before index `i` have been
      followed. */
  ghost predicate Visiting(g: Graph, start: NodeId, visited: Marks, queue: seq<NodeId>, tree: seq<Link>, node: NodeId, i: int)
  {
    && node in g.adj && 0 <= i <= |g.adj[node]|
    && WalkState(g, start, visited, queue, {node}, tree)
    && Marked(visited, node)
    && (forall k :: 0 <= k < i ==> Marked(visited, g.adj[node][k].target))
  }

  /** The inner loop of `spanning_tree`: `for adjacent, sign in graph[node]`,
      marking, queueing and recording each adjacent node still unmarked. */
  method VisitAdjacent(g: Graph, start: NodeId, visited: Marks, queue: seq<NodeId>, tree: seq<Link>, node: NodeId)
    returns (visited': Marks, queue': seq<NodeId>, tree': seq<Link>)
    requires Closed(g)
    requires WalkState(g, start, visited, queue, {node}, tree) && Marked(visited, node)
    ensures WalkState(g, start, visited', queue', {}, tree')
    ensures |Unmarked(visited')| <= |Unmarked(visited)|
    ensures |Unmarked(visited')| + |queue'| == |Unmarked(visited)| + |queue|
  {
    visited', queue', tree' := visited, queue, tree;
    var es := g.adj[node];
    var i := 0;
    while i < |es|
      invariant Visiting(g, start, visited', queue', tree', node, i)
      invariant |Unmarked(visited')| <= |Unmarked(visited)|
      invariant |Unmarked(visited')| + |queue'| == |Unmarked(visited)| + |queue|
    {
      var e := es[i];
      assert e in g.adj[node];
      if visited'[e.target] == None {
        FollowFresh(g, start, visited', queue', tree', node, i);
        visited' := visited'[e.target := Some(MarkFor(visited'[node], e.sign))];
        queue' := queue' + [e.target];
        tree' := tree' + [Link(node, e.target, e.sign)];
      } else {
        FollowKnown(g, start, visited', queue', tree', node, i);
      }
      i := i + 1;
    }
    NodeDone(g, start, visited', queue', tree', node);
  }

  /** Following an entry to a node already marked changes nothing but the
      loop index. */
  lemma FollowKnown(g: Graph, start: NodeId, visited: Marks, queue: seq<NodeId>, tree: seq<Link>, node: NodeId, i: int)
    requires Visiting(g, start, visited, queue, tree, node, i) && i < |g.adj[node]|
    requires Marked(visited, g.adj[node][i].target)
    ensures Visiting(g, start, visited, queue, tree, node, i + 1)
  {
  }

  /** Following an entry to an unmarked node marks it, queues it and records
      the entry, keeping the walk's state; exactly that node stops being
      unmarked. */
  lemma FollowFresh(g: Graph, start: NodeId, visited: Marks, queue: seq<NodeId>, tree: seq<Link>, node: NodeId, i: int)
    requires Closed(g)
    requires Visiting(g, start, visited, queue, tree, node, i) && i < |g.adj[node]|
    requires g.adj[node][i].target in visited && visited[g.adj[node][i].target] == None
    ensures var e := g.adj[node][i];
      var visited' := visited[e.target := Some(MarkFor(visited[node], e.sign))];
      && Visiting(g, start, visited', queue + [e.target], tree + [Link(node, e.target, e.sign)], node, i + 1)
      && |Unmarked(visited')| == |Unmarked(visited)| - 1
  {
    var e := g.adj[node][i];
    assert e in g.adj[node];
    MarkStep(g, start, visited, queue, tree, node, e);
    assert e.target in Unmarked(visited);
    PrefixStillMarked(visited, g.adj[node], i, MarkFor(visited[node], e.sign));
  }

  /** Marking the target of entry `i` keeps the targets before it marked
      and marks the one at `i`. */
  lemma PrefixStillMarked(visited: Marks, es: seq<Entry>, i: nat, m: Sign)
    requires i < |es| && es[i].target in visited
    requires forall k :: 0 <= k < i ==> Marked(visited, es[k].target)
    ensures forall k :: 0 <= k < i + 1 ==> Marked(visited[es[i].target := Some(m)], es[k].target)
  {
  }

  /** Once every entry of `node` has been followed, `node` is no longer busy. */
  lemma NodeDone(g: Graph, start: NodeId, visited: Marks, queue: seq<NodeId>, tree: seq<Link>, node: NodeId)
    requires WalkState(g, start, visited, queue, {node}, tree)
    requires node in g.adj
    requires forall k :: 0 <= k < |g.adj[node]| ==> Marked(visited, g.adj[node][k].target)
    ensures WalkState(g, start, visited, queue, {}, tree)
  {
    forall v, e | Marked(visited, v) && v !in queue && e in g.adj[v]
      ensures Marked(visited, e.target)
    {
      if v == node {
        var k :| 0 <= k < |g.adj[node]| && g.adj[node][k] == e;
      }
    }
  }

  /** With the queue empty, the marked nodes are exactly the reachable ones. */
  lemma WalkComplete(g: Graph, start: NodeId, visited: Marks, tree: seq<Link>)
    requires WalkState(g, start, visited, [], {}, tree)
    ensures forall v :: v in visited ==> (Marked(visited, v) <==> Reachable(g, start, v))
  {
    var done := set u | u in visited && Marked(visited, u);
    forall u, e | u in done && u in g.adj && e in g.adj[u]
      ensures e.target in done
    {
      assert Marked(visited, e.target);
    }
    assert SuccClosed(g, done) && start in done;
    forall v | v in visited && Reachable(g, start, v)
      ensures Marked(visited, v)
    {
      assert v in done;
    }
  }

  /** One marking step of the inner loop keeps the walk's state, adds marks
      only, and removes exactly the new node from the unmarked ones. */
  lemma MarkStep(g: Graph, start: NodeId, visited: Marks, queue: seq<NodeId>, tree: seq<Link>, node: NodeId, e: Entry)
    requires Closed(g)
    requires WalkState(g, start, visited, queue, {node}, tree)
    requires Marked(visited, node) && e in g.adj[node]
    requires visited[e.target] == None
    ensures var visited' := visited[e.target := Some(MarkFor(visited[node], e.sign))];
      && WalkState(g, start, visited', queue + [e.target], {node}, tree + [Link(node, e.target, e.sign)])
      && (forall v :: Marked(visited, v) ==> Marked(visited', v))
      && Unmarked(visited') == Unmarked(visited) - {e.target}
  {
    MarkKeepsFrontier(g, start, visited, queue, node, e, MarkFor(visited[node], e.sign));
    MarkPreservesTree(g, start, visited, tree, node, e);
    MarkShrinksUnmarked(visited, e.target, MarkFor(visited[node], e.sign));
  }

  /** Marking an unmarked node removes exactly that node from the unmarked
      ones. */
  lemma MarkShrinksUnmarked(visited: Marks, t: NodeId, m: Sign)
    requires t in visited && visited[t] == None
    ensures Unmarked(visited[t := Some(m)]) == Unmarked(visited) - {t}
  {
  }

  /** Marking and queueing the target of an entry of a marked node keeps
      the frontier. */
  lemma MarkKeepsFrontier(g: Graph, start: NodeId, visited: Marks, queue: seq<NodeId>, node: NodeId, e: Entry, m: Sign)
    requires Closed(g)
    requires Frontier(g, start, visited, queue, {node})
    requires Marked(visited, node) && e in g.adj[node]
    requires visited[e.target] == None
    ensures Frontier(g, start, visited[e.target := Some(m)], queue + [e.target], {node})
    ensures forall v :: Marked(visited, v) ==> Marked(visited[e.target := Some(m)], v)
  {
    MarkKeepsQueueAndReach(g, start, visited, queue, node, e, m);
    MarkKeepsClosure(g, visited, queue, node, e.target, m);
  }

  /** Marking the target of an entry of a marked, reachable node keeps the
      old marks, marks every queued node and only reachable ones. */
  lemma MarkKeepsQueueAndReach(g: Graph, start: NodeId, visited: Marks, queue: seq<NodeId>, node: NodeId, e: Entry, m: Sign)
    requires Marked(visited, node) && node in g.adj && e in g.adj[node]
    requires forall v :: v in queue ==> Marked(visited, v)
    requires forall v :: Marked(visited, v) ==> Reachable(g, start, v)
    ensures forall v :: Marked(visited, v) ==> Marked(visited[e.target := Some(m)], v)
    ensures forall v :: v in queue + [e.target] ==> Marked(visited[e.target := Some(m)], v)
    ensures forall v :: Marked(visited[e.target := Some(m)], v) ==> Reachable(g, start, v)
  {
    ReachableStep(g, start, node, e);
  }

  /** Marking and queueing a node keeps every marked node that is neither
      queued nor busy with all its successors marked. */
  lemma MarkKeepsClosure(g: Graph, visited: Marks, queue: seq<NodeId>, node: NodeId, t: NodeId, m: Sign)
    requires visited.Keys == g.adj.Keys && t in visited
    requires forall v, e :: Marked(visited, v) && v !in queue && v !in {node} && e in g.adj[v] ==> Marked(visited, e.target)
    ensures forall v, e :: Marked(visited[t := Some(m)], v) && v !in queue + [t] && v !in {node} && e in g.adj[v] ==>
              Marked(visited[t := Some(m)], e.target)
  {
    var visited' := visited[t := Some(m)];
    forall v, e | Marked(visited', v) && v !in queue + [t] && v !in {node} && e in g.adj[v]
      ensures Marked(visited', e.target)
    {
      assert v != t;
      assert Marked(visited, v);
    }
  }

  /** Marking a fresh node through an entry of a marked node, and recording
      that entry, keeps the tree invariant. */
  lemma MarkPreservesTree(g: Graph, start: NodeId, visited: Marks, tree: seq<Link>, node: NodeId, e: Entry)
    requires TreeInvariant(g, start, visited, tree)
    requires start in visited && visited[start] == Some(Plus) && Marked(visited, node)
    requires node in g.adj && e in g.adj[node]
    requires e.target in visited && visited[e.target] == None
    ensures TreeInvariant(g, start, visited[e.target := Some(MarkFor(visited[node], e.sign))],
                          tree + [Link(node, e.target, e.sign)])
  {
    var visited' := visited[e.target := Some(MarkFor(visited[node], e.sign))];
    var link := Link(node, e.target, e.sign);
    assert TreeLinksAreEntries(g, tree + [link]) by {
      forall i | 0 <= i < |tree + [link]|
        ensures (tree + [link])[i].source in g.adj
                && Entry((tree + [link])[i].target, (tree + [link])[i].sign) in g.adj[(tree + [link])[i].source]
      {
        if i < |tree| { assert (tree + [link])[i] == tree[i]; }
      }
    }
    NewLinkAgrees(visited, tree, node, e);
    NewLinkKeepsSourceOrder(start, visited, tree, link);
    NewLinkKeepsOnePerNode(start, visited, tree, node, e);
  }

  lemma NewLinkAgrees(visited: Marks, tree: seq<Link>, node: NodeId, e: Entry)
    requires TreeLinksAgree(visited, tree) && Marked(visited, node)
    requires e.target in visited && visited[e.target] == None
    ensures TreeLinksAgree(visited[e.target := Some(MarkFor(visited[node], e.sign))],
                           tree + [Link(node, e.target, e.sign)])
  {
    var visited' := visited[e.target := Some(MarkFor(visited[node], e.sign))];
    var tree' := tree + [Link(node, e.target, e.sign)];
    forall i | 0 <= i < |tree'|
      ensures Marked(visited', tree'[i].source) && Marked(visited', tree'[i].target)
              && Agrees(visited', tree'[i].source, tree'[i].target, tree'[i].sign)
    {
      if i < |tree| {
        assert tree'[i] == tree[i];
      }
    }
  }

  lemma NewLinkKeepsSourceOrder(start: NodeId, visited: Marks, tree: seq<Link>, link: Link)
    requires SourcesEnteredFirst(start, tree) && OneLinkPerMarkedNode(start, visited, tree)
    requires Marked(visited, link.source)
    ensures SourcesEnteredFirst(start, tree + [link])
  {
    var tree' := tree + [link];
    forall i | 0 <= i < |tree'|
      ensures tree'[i].source == start || exists j :: 0 <= j < i && tree'[j].target == tree'[i].source
    {
      if i < |tree| {
        assert tree'[i] == tree[i];
        if tree[i].source != start {
          var j :| 0 <= j < i && tree[j].target == tree[i].source;
          assert tree'[j] == tree[j];
        }
      } else if link.source != start {
        var j :| 0 <= j < |tree| && tree[j].target == link.source;
        assert tree'[j] == tree[j];
      }
    }
  }

  lemma NewLinkKeepsOnePerNode(start: NodeId, visited: Marks, tree: seq<Link>, node: NodeId, e: Entry)
    requires OneLinkPerMarkedNode(start, visited, tree) && Marked(visited, node)
    requires start in visited && visited[start] != None
    requires e.target in visited && visited[e.target] == None
    ensures OneLinkPerMarkedNode(start, visited[e.target := Some(MarkFor(visited[node], e.sign))],
                                 tree + [Link(node, e.target, e.sign)])
  {
    var visited' := visited[e.target := Some(MarkFor(visited[node], e.sign))];
    var tree' := tree + [Link(node, e.target, e.sign)];
    forall i, j | 0 <= i < j < |tree'|
      ensures tree'[i].target != tree'[j].target
    {
      assert tree'[i] == tree[i];
      if j < |tree| { assert tree'[j] == tree[j]; }
    }
    forall v | v in visited'
      ensures Marked(visited', v) && v != start <==> exists i :: 0 <= i < |tree'| && tree'[i].target == v
    {
      if v == e.target {
        assert tree'[|tree|].target == v;
      } else if Marked(visited', v) && v != start {
        var i :| 0 <= i < |tree| && tree[i].target == v;
        assert tree'[i] == tree[i];
      }
    }
  }

  // ---------------------------------------------------------------------------
  // is_graph_balanced

  /** A labelling of the keys that marks `start` `'+'`, gives `'+'` or `'-'` to
      every node reachable from `start` and `None` to every other node, as the
      marks of `spanning_tree` do. */
  ghost predicate ReachLabelling(g: Graph, start: NodeId, f: Marks)
  {
    && f.Keys == g.adj.Keys
    && start in f && f[start] == Some(Plus)
    && forall v :: v in f ==> (f[v] != None <==> Reachable(g, start, v))
  }

  /** Every stored link agrees with the labelling `f`. */
  ghost predicate LinksAgree<M>(g: Graph, f: map<NodeId, M>)
  {
    forall u, e :: u in g.adj && e in g.adj[u] ==>
      u in f && e.target in f && Agrees(f, u, e.target, e.sign)
  }

  /** What `is_graph_balanced` decides: some labelling of the kind
      `spanning_tree` produces makes every link agree. Unreached nodes all
      share the label `None`. */
  ghost predicate BalancedFrom(g: Graph, start: NodeId)
  {
    exists f :: ReachLabelling(g, start, f) && LinksAgree(g, f)
  }

  /** The postconditions of `SpanningTree`, gathered for the lemmas. */
  ghost predicate SpanningResult(g: Graph, start: NodeId, visited: Marks, tree: seq<Link>)
  {
    && ReachLabelling(g, start, visited)
    && TreeInvariant(g, start, visited, tree)
  }

  /** A tree link's target has the same label under any agreeing labelling
      as under the marks: labels spread along the tree from `start`. */
  lemma {:induction false} TreeTargetLabel(g: Graph, start: NodeId, visited: Marks, tree: seq<Link>, f: Marks, i: int)
    requires SpanningResult(g, start, visited, tree)
    requires ReachLabelling(g, start, f) && LinksAgree(g, f)
    requires 0 <= i < |tree|
    ensures tree[i].target in f && f[tree[i].target] == visited[tree[i].target]
    decreases i
  {
    var l := tree[i];
    if l.source != start {
      var j :| 0 <= j < i && tree[j].target == l.source;
      TreeTargetLabel(g, start, visited, tree, f, j);
    }
    assert Entry(l.target, l.sign) in g.adj[l.source];
    assert Agrees(f, l.source, l.target, l.sign);
    assert Agrees(visited, l.source, l.target, l.sign);
    assert Reachable(g, start, l.target);
    assert f[l.source] == visited[l.source];
    assert f[l.target] != None && visited[l.target] != None;
    if l.sign == Minus {
      OtherMark(f[l.source], f[l.target], visited[l.target]);
    }
  }

  /** Two marks that both differ from a third one are equal: there are only
      two signs. */
  lemma OtherMark(a: Option<Sign>, b: Option<Sign>, c: Option<Sign>)
    requires b != None && c != None && b != a && c != a && a != None
    ensures b == c
  {
    assert a.Some? && b.Some? && c.Some?;
    assert b.value != a.value && c.value != a.value;
    if a.value == Plus {
      assert b.value == Minus && c.value == Minus;
    } else {
      assert b.value == Plus && c.value == Plus;
    }
  }

  /** The marks are the only agreeing labelling of their kind. */
  lemma LabellingUnique(g: Graph, start: NodeId, visited: Marks, tree: seq<Link>, f: Marks)
    requires SpanningResult(g, start, visited, tree)
    requires ReachLabelling(g, start, f) && LinksAgree(g, f)
    ensures f == visited
  {
    forall v | v in visited
      ensures f[v] == visited[v]
    {
      if Marked(visited, v) && v != start {
        var i :| 0 <= i < |tree| && tree[i].target == v;
        TreeTargetLabel(g, start, visited, tree, f, i);
      }
    }
  }

  /** One link that disagrees with the marks rules out every labelling. */
  lemma DisagreementRefutes(g: Graph, start: NodeId, visited: Marks, tree: seq<Link>, u: NodeId, e: Entry)
    requires SpanningResult(g, start, visited, tree)
    requires u in g.adj && e in g.adj[u] && e.target in visited
    requires !Agrees(visited, u, e.target, e.sign)
    ensures !BalancedFrom(g, start)
  {
    if f: Marks :| ReachLabelling(g, start, f) && LinksAgree(g, f) {
      LabellingUnique(g, start, visited, tree, f);
    }
  }

  /** `is_graph_balanced(graph)`: mark the nodes from the first key with
      `spanning_tree`, then return False at the first link that is neither a
      tree link nor a reversed tree link and disagrees with the marks. */
  method IsGraphBalanced(g: Graph) returns (balanced: bool)
    requires WellFormed(g) && Closed(g) && |g.keys| > 0
    ensures balanced <==> BalancedFrom(g, g.keys[0])
  {
    var startNode := g.keys[0];
    var markedNodes, spanningTreeLinks := SpanningTree(g, startNode);
    assert SpanningResult(g, startNode, markedNodes, spanningTreeLinks);
    var ui := 0;
    while ui < |g.keys|
      invariant 0 <= ui <= |g.keys|
      invariant forall k, e :: 0 <= k < ui && e in g.adj[g.keys[k]] ==>
        g.keys[k] in markedNodes && e.target in markedNodes && Agrees(markedNodes, g.keys[k], e.target, e.sign)
    {
      var u := g.keys[ui];
      var es := g.adj[u];
      var vi := 0;
      while vi < |es|
        invariant 0 <= vi <= |es|
        invariant forall k :: 0 <= k < vi ==>
          u in markedNodes && es[k].target in markedNodes && Agrees(markedNodes, u, es[k].target, es[k].sign)
      {
        var v, sign := es[vi].target, es[vi].sign;
        assert es[vi] in g.adj[u];
        LinkVerdict(g, startNode, markedNodes, spanningTreeLinks, u, es[vi]);
        if Link(u, v, sign) !in spanningTreeLinks && Link(v, u, sign) !in spanningTreeLinks {
          if markedNodes[u] == markedNodes[v] && sign == Minus {
            return false;
          } else if markedNodes[u] != markedNodes[v] && sign == Plus {
            return false;
          }
        }
        vi := vi + 1;
      }
      assert forall e :: e in es ==> e.target in markedNodes && Agrees(markedNodes, u, e.target, e.sign);
      ui := ui + 1;
    }
    forall u, e | u in g.adj && e in g.adj[u]
      ensures u in markedNodes && e.target in markedNodes && Agrees(markedNodes, u, e.target, e.sign)
    {
      var k :| 0 <= k < |g.keys| && g.keys[k] == u;
    }
    return true;
  }

  /** What the inner loop of `is_graph_balanced` relies on for one link: a
      tree link, in either direction, agrees with the marks, and a link that
      disagrees refutes balance. */
  lemma LinkVerdict(g: Graph, start: NodeId, visited: Marks, tree: seq<Link>, u: NodeId, e: Entry)
    requires Closed(g) && SpanningResult(g, start, visited, tree)
    requires u in g.adj && e in g.adj[u]
    ensures u in visited && e.target in visited
    ensures Link(u, e.target, e.sign) in tree || Link(e.target, u, e.sign) in tree ==>
              Agrees(visited, u, e.target, e.sign)
    ensures !Agrees(visited, u, e.target, e.sign) ==> !BalancedFrom(g, start)
    ensures Agrees(visited, u, e.target, e.sign) <==>
              !((visited[u] == visited[e.target] && e.sign == Minus) || (visited[u] != visited[e.target] && e.sign == Plus))
  {
    assert e.sign == Plus || e.sign == Minus;
    if Link(u, e.target, e.sign) in tree || Link(e.target, u, e.sign) in tree {
      TreeLinkAgrees(visited, tree, u, e.target, e.sign);
    }
    if !Agrees(visited, u, e.target, e.sign) {
      DisagreementRefutes(g, start, visited, tree, u, e);
    }
  }

  /** A tree link, in either direction, agrees with the marks. */
  lemma TreeLinkAgrees(visited: Marks, tree: seq<Link>, u: NodeId, v: NodeId, s: Sign)
    requires TreeLinksAgree(visited, tree)
    requires Link(u, v, s) in tree || Link(v, u, s) in tree
    ensures u in visited && v in visited && Agrees(visited, u, v, s)
  {
    if Link(u, v, s) in tree {
      var i :| 0 <= i < |tree| && tree[i] == Link(u, v, s);
    } else {
      var i :| 0 <= i < |tree| && tree[i] == Link(v, u, s);
    }
  }

  // ---------------------------------------------------------------------------
  // Strict balance in Harary's sense

  /** Harary's strict balance: the keys split into two factions so that
      every `'+'` link stays inside a faction and every `'-'` link crosses. */
  ghost predicate TwoFactions(g: Graph)
  {
    exists h: map<NodeId, Sign> :: h.Keys == g.adj.Keys && LinksAgree(g, h)
  }

  /** When every key is reachable from `start`, what `is_graph_balanced`
      decides is exactly Harary's strict balance. */
  lemma BalancedFromIsTwoFactions(g: Graph, start: NodeId)
    requires WellFormed(g) && Closed(g) && start in g.adj
    requires forall v :: v in g.adj ==> Reachable(g, start, v)
    ensures BalancedFrom(g, start) <==> TwoFactions(g)
  {
    if f: Marks :| ReachLabelling(g, start, f) && LinksAgree(g, f) {
      MarksGiveFactions(g, start, f);
    }
    if h: map<NodeId, Sign> :| h.Keys == g.adj.Keys && LinksAgree(g, h) {
      FactionsGiveMarks(g, start, h);
    }
  }

  /** Marks that reach every key are a two-faction split. */
  lemma MarksGiveFactions(g: Graph, start: NodeId, f: Marks)
    requires forall v :: v in g.adj ==> Reachable(g, start, v)
    requires ReachLabelling(g, start, f) && LinksAgree(g, f)
    ensures TwoFactions(g)
  {
    var h: map<NodeId, Sign> := map v | v in f :: f[v].value;
    forall u, e | u in g.adj && e in g.adj[u]
      ensures u in h && e.target in h && Agrees(h, u, e.target, e.sign)
    {
      assert f[u] != None && f[e.target] != None;
      assert Agrees(f, u, e.target, e.sign);
    }
    assert h.Keys == g.adj.Keys && LinksAgree(g, h);
  }

  /** A two-faction split, renamed so that the faction of `start` is `'+'`,
      is a labelling of the kind `spanning_tree` produces. */
  lemma FactionsGiveMarks(g: Graph, start: NodeId, h: map<NodeId, Sign>)
    requires start in g.adj
    requires forall v :: v in g.adj ==> Reachable(g, start, v)
    requires h.Keys == g.adj.Keys && LinksAgree(g, h)
    ensures BalancedFrom(g, start)
  {
    var x := h[start];
    var f: Marks := map v | v in h :: Some(if h[v] == x then Plus else Minus);
    forall u, e | u in g.adj && e in g.adj[u]
      ensures u in f && e.target in f && Agrees(f, u, e.target, e.sign)
    {
      assert Agrees(h, u, e.target, e.sign);
      SameSideOfX(h[u], h[e.target], x);
    }
    assert ReachLabelling(g, start, f);
  }

  /** With only two signs, two nodes are on the same side of `x` exactly
      when they are equal. */
  lemma SameSideOfX(a: Sign, b: Sign, x: Sign)
    ensures ((a == x) == (b == x)) == (a == b)
  {
    if a == Plus { assert b == Plus || b == Minus; } else { assert a == Minus; }
  }

  /** The two-key graph `{A: [], B: [[A, '+']]}`. */
  function OneLinkIntoFirst(): (g: Graph)
    ensures WellFormed(g) && Closed(g)
  {
    Graph(["A", "B"], map["A" := [], "B" := [Entry("A", Plus)]])
  }

  /** Nothing leaves `A`, so `B` is not reached from it. */
  lemma FirstKeyReachesNothing()
    ensures !Reachable(OneLinkIntoFirst(), "A", "B")
  {
    assert SuccClosed(OneLinkIntoFirst(), {"A"});
  }

  /** Both keys on one side is a two-faction split of that graph. */
  lemma OneFaction()
    ensures TwoFactions(OneLinkIntoFirst())
  {
    var g := OneLinkIntoFirst();
    var h := map["A" := Plus, "B" := Plus];
    forall u, e | u in g.adj && e in g.adj[u]
      ensures u in h && e.target in h && Agrees(h, u, e.target, e.sign)
    {
      assert u == "B" && e == Entry("A", Plus);
    }
    assert h.Keys == g.adj.Keys;
  }

  /** `is_graph_balanced` follows entries in their stored direction only: a
      single `'+'` link into the first key leaves its source unreached, and
      the graph is reported unbalanced although it is balanced. */
  lemma UnreachedSourceIsUnbalanced()
    ensures TwoFactions(OneLinkIntoFirst())
    ensures !BalancedFrom(OneLinkIntoFirst(), "A")
  {
    var g := OneLinkIntoFirst();
    OneFaction();
    FirstKeyReachesNothing();
    forall f: Marks | ReachLabelling(g, "A", f)
      ensures !LinksAgree(g, f)
    {
      assert f["B"] == None;
      assert Entry("A", Plus) in g.adj["B"];
    }
  }

  /** The all-negative triangle `{A: [[B, '-']], B: [], C: [[A, '-'], [B, '-']]}`,
      whose node `C` is not reached from `A`. */
  function UnreachedNegativeTriangle(): (g: Graph)
    ensures WellFormed(g) && Closed(g)
  {
    Graph(["A", "B", "C"], map["A" := [Entry("B", Minus)], "B" := [], "C" := [Entry("A", Minus), Entry("B", Minus)]])
  }

  /** Three signs cannot all differ. */
  lemma TwoOfThreeSigns(a: Sign, b: Sign, c: Sign)
    ensures a == b || b == c || a == c
  {
    assert a == Plus || a == Minus;
  }

  /** No two-faction split of the all-negative triangle exists. */
  lemma NegativeTriangleHasNoFactions()
    ensures !TwoFactions(UnreachedNegativeTriangle())
  {
    var g := UnreachedNegativeTriangle();
    forall h: map<NodeId, Sign> | h.Keys == g.adj.Keys
      ensures !LinksAgree(g, h)
    {
      TwoOfThreeSigns(h["A"], h["B"], h["C"]);
      if h["A"] == h["B"] {
        assert Entry("B", Minus) in g.adj["A"] && !Agrees(h, "A", "B", Minus);
      } else if h["B"] == h["C"] {
        assert Entry("B", Minus) in g.adj["C"] && !Agrees(h, "C", "B", Minus);
      } else {
        assert Entry("A", Minus) in g.adj["C"] && !Agrees(h, "C", "A", Minus);
      }
    }
  }

  /** Only `A` and `B` are reached from `A`. */
  lemma NegativeTriangleReach()
    ensures Reachable(UnreachedNegativeTriangle(), "A", "A")
    ensures Reachable(UnreachedNegativeTriangle(), "A", "B")
    ensures !Reachable(UnreachedNegativeTriangle(), "A", "C")
  {
    var g := UnreachedNegativeTriangle();
    assert "A" != "C" && "B" != "C" by { assert "A"[0] != "C"[0] && "B"[0] != "C"[0]; }
    ReachableStep(g, "A", "A", Entry("B", Minus));
    assert SuccClosed(g, {"A", "B"});
  }

  /** `is_graph_balanced` gives every node the walk does not reach the same
      mark `None`, a third faction: the all-negative triangle, which has no
      two-faction split, is reported balanced because its node `C` is never
      reached. */
  lemma UnreachedNodesFormThirdFaction()
    ensures !TwoFactions(UnreachedNegativeTriangle())
    ensures BalancedFrom(UnreachedNegativeTriangle(), "A")
  {
    var g := UnreachedNegativeTriangle();
    NegativeTriangleHasNoFactions();
    var f: Marks := map["A" := Some(Plus), "B" := Some(Minus), "C" := None];
    ThirdFactionLabelling(f);
    ThirdFactionAgrees(f);
    assert ReachLabelling(g, "A", f) && LinksAgree(g, f);
  }

  /** `A` marked `'+'`, `B` marked `'-'` and `C` unmarked is a labelling of
      the kind `spanning_tree` produces from `A`. */
  lemma ThirdFactionLabelling(f: Marks)
    requires f == map["A" := Some(Plus), "B" := Some(Minus), "C" := None]
    ensures ReachLabelling(UnreachedNegativeTriangle(), "A", f)
  {
    var g := UnreachedNegativeTriangle();
    NegativeTriangleReach();
    assert f.Keys == g.adj.Keys;
    forall v | v in f
      ensures f[v] != None <==> Reachable(g, "A", v)
    {
      assert v == "A" || v == "B" || v == "C";
    }
  }

  /** Every link of the all-negative triangle agrees with that labelling. */
  lemma ThirdFactionAgrees(f: Marks)
    requires f == map["A" := Some(Plus), "B" := Some(Minus), "C" := None]
    ensures LinksAgree(UnreachedNegativeTriangle(), f)
  {
    var g := UnreachedNegativeTriangle();
    forall u, e | u in g.adj && e in g.adj[u]
      ensures u in f && e.target in f && Agrees(f, u, e.target, e.sign)
    {
      assert (u == "A" && e == Entry("B", Minus))
          || (u == "C" && (e == Entry("A", Minus) || e == Entry("B", Minus)));
    }
  }

  // ---------------------------------------------------------------------------
  // is_graph_weakbalanced

  /** Exactly one of three signs is `'-'`. */
  predicate OneNegative(a: Sign, b: Sign, c: Sign)
  {
    || (a == Minus && b == Plus && c == Plus)
    || (a == Plus && b == Minus && c == Plus)
    || (a == Plus && b == Plus && c == Minus)
  }

  /** The `i`-th entry `u→v` of `u` and the `j`-th entry `v→r` of `v`, with
      `r ≠ u` and a first entry `u→r`, carry exactly one `'-'` among the
      three signs. */
  ghost predicate UnbalancedTriangle(g: Graph, u: NodeId, i: int, j: int)
  {
    && u in g.adj && 0 <= i < |g.adj[u]|
    && g.adj[u][i].target in g.adj && 0 <= j < |g.adj[g.adj[u][i].target]|
    && var uv := g.adj[u][i];
       var vr := g.adj[uv.target][j];
       && vr.target != u
       && FirstSign(g.adj[u], vr.target).Some?
       && OneNegative(uv.sign, vr.sign, FirstSign(g.adj[u], vr.target).value)
  }

  /** What `is_graph_weakbalanced` checks: no path `u→v→r` closed by an
      entry `u→r` carries exactly one `'-'`. Triangles oriented any other
      way are not looked at. */
  ghost predicate WeaklyBalanced(g: Graph)
  {
    forall u, i, j :: !UnbalancedTriangle(g, u, i, j)
  }

  /** The two tests of the inner loop together reject exactly the triangles
      with one `'-'`. */
  lemma OneNegativeTests(uv: Sign, vr: Sign, ur: Sign)
    ensures OneNegative(uv, vr, ur) <==>
      || (uv == Plus && vr == Plus && ur != Plus)
      || (uv == Minus && vr == Plus && ur != Minus)
      || (uv == Plus && vr == Minus && ur != Minus)
  {
    assert ur == Plus || ur == Minus;
  }

  /** `is_graph_weakbalanced(graph)`: for every `u`, every entry `u→v` and
      every entry `v→r` with `r ≠ u`, look up the first entry `u→r`; return
      False as soon as the three signs hold exactly one `'-'`. */
  method IsGraphWeakBalanced(g: Graph) returns (weak: bool)
    requires WellFormed(g) && Closed(g)
    ensures weak <==> WeaklyBalanced(g)
  {
    var ui := 0;
    while ui < |g.keys|
      invariant 0 <= ui <= |g.keys|
      invariant forall k, i, j :: 0 <= k < ui ==> !UnbalancedTriangle(g, g.keys[k], i, j)
    {
      var u := g.keys[ui];
      var vi := 0;
      while vi < |g.adj[u]|
        invariant 0 <= vi <= |g.adj[u]|
        invariant forall i, j :: 0 <= i < vi ==> !UnbalancedTriangle(g, u, i, j)
      {
        var v, uvSign := g.adj[u][vi].target, g.adj[u][vi].sign;
        assert g.adj[u][vi] in g.adj[u];
        var ri := 0;
        while ri < |g.adj[v]|
          invariant 0 <= ri <= |g.adj[v]|
          invariant forall j :: 0 <= j < ri ==> !UnbalancedTriangle(g, u, vi, j)
        {
          var r, vrSign := g.adj[v][ri].target, g.adj[v][ri].sign;
          if r != u {
            var urSign := FirstSign(g.adj[u], r);
            if urSign.Some? {
              OneNegativeTests(uvSign, vrSign, urSign.value);
              if uvSign == Plus && vrSign == Plus && urSign.value != Plus {
                assert UnbalancedTriangle(g, u, vi, ri);
                return false;
              }
              if (uvSign == Minus && vrSign == Plus && urSign.value != Minus)
                 || (uvSign == Plus && vrSign == Minus && urSign.value != Minus) {
                assert UnbalancedTriangle(g, u, vi, ri);
                return false;
              }
            }
          }
          ri := ri + 1;
        }
        vi := vi + 1;
      }
      ui := ui + 1;
    }
    forall u, i, j
      ensures !UnbalancedTriangle(g, u, i, j)
    {
      if u in g.adj {
        var k :| 0 <= k < |g.keys| && g.keys[k] == u;
      }
    }
    return true;
  }

  /** The first entry of `u`'s list towards `r`, when there is one, is one
      of `u`'s entries. */
  lemma FirstSignIsEntry(es: seq<Entry>, r: NodeId)
    requires FirstSign(es, r).Some?
    ensures Entry(r, FirstSign(es, r).value) in es
  {
    var k :| 0 <= k < |es| && es[k] == Entry(r, FirstSign(es, r).value)
             && forall m :: 0 <= m < k ==> es[m].target != r;
  }

  /** The three links of a triangle whose corners are labelled so that each
      link agrees never carry exactly one `'-'`. */
  lemma AgreeingTriangle<M>(f: map<NodeId, M>, a: NodeId, b: NodeId, c: NodeId,
                            ab: Sign, bc: Sign, ac: Sign)
    requires a in f && b in f && c in f
    requires Agrees(f, a, b, ab) && Agrees(f, b, c, bc) && Agrees(f, a, c, ac)
    ensures !OneNegative(ab, bc, ac)
  {
  }

  /** A graph whose links all carry the same sign has no triangle with
      exactly one `'-'`. */
  lemma UniformSignIsWeaklyBalanced(g: Graph, s: Sign)
    requires forall u, e :: u in g.adj && e in g.adj[u] ==> e.sign == s
    ensures WeaklyBalanced(g)
  {
    forall u, i, j
      ensures !UnbalancedTriangle(g, u, i, j)
    {
      if && u in g.adj && 0 <= i < |g.adj[u]|
         && g.adj[u][i].target in g.adj && 0 <= j < |g.adj[g.adj[u][i].target]|
         && FirstSign(g.adj[u], g.adj[g.adj[u][i].target][j].target).Some?
      {
        var uv := g.adj[u][i];
        var vr := g.adj[uv.target][j];
        assert uv in g.adj[u] && vr in g.adj[uv.target];
        FirstSignIsEntry(g.adj[u], vr.target);
      }
    }
  }

  /** A labelling of the nodes into clusters that every link agrees with
      (`'+'` inside a cluster, `'-'` across) leaves no triangle with exactly
      one `'-'`. */
  lemma ClusteringIsWeaklyBalanced<M>(g: Graph, f: map<NodeId, M>)
    requires LinksAgree(g, f)
    ensures WeaklyBalanced(g)
  {
    forall u, i, j
      ensures !UnbalancedTriangle(g, u, i, j)
    {
      if && u in g.adj && 0 <= i < |g.adj[u]|
         && g.adj[u][i].target in g.adj && 0 <= j < |g.adj[g.adj[u][i].target]|
         && FirstSign(g.adj[u], g.adj[g.adj[u][i].target][j].target).Some?
      {
        var uv := g.adj[u][i];
        var vr := g.adj[uv.target][j];
        assert uv in g.adj[u] && vr in g.adj[uv.target];
        var ur := FirstSign(g.adj[u], vr.target).value;
        FirstSignIsEntry(g.adj[u], vr.target);
        assert Entry(vr.target, ur) in g.adj[u];
        AgreeingTriangle(f, u, uv.target, vr.target, uv.sign, vr.sign, ur);
      }
    }
  }

  /** The cyclic triangle `{A: [[B, '+']], B: [[C, '+']], C: [[A, '-']]}`. */
  function CyclicTriangle(): (g: Graph)
    ensures WellFormed(g) && Closed(g)
  {
    Graph(["A", "B", "C"], map["A" := [Entry("B", Plus)], "B" := [Entry("C", Plus)], "C" := [Entry("A", Minus)]])
  }

  /** No clustering agrees with the cyclic triangle: its two `'+'` links put
      all three nodes in one cluster, which its `'-'` link forbids. */
  lemma CyclicTriangleUnclusterable<M>(f: map<NodeId, M>)
    ensures !LinksAgree(CyclicTriangle(), f)
  {
    var g := CyclicTriangle();
    if "A" in f && "B" in f && "C" in f {
      if f["A"] == f["B"] && f["B"] == f["C"] {
        assert Entry("A", Minus) in g.adj["C"] && !Agrees(f, "C", "A", Minus);
      } else if f["A"] != f["B"] {
        assert Entry("B", Plus) in g.adj["A"] && !Agrees(f, "A", "B", Plus);
      } else {
        assert Entry("C", Plus) in g.adj["B"] && !Agrees(f, "B", "C", Plus);
      }
    } else {
      assert Entry("B", Plus) in g.adj["A"] && Entry("C", Plus) in g.adj["B"];
    }
  }

  /** In the cyclic triangle no entry closes a path `u→v→r` from `u`. */
  lemma CyclicTriangleNoClosingEntry()
    ensures FirstSign(CyclicTriangle().adj["A"], "C") == None
    ensures FirstSign(CyclicTriangle().adj["B"], "A") == None
    ensures FirstSign(CyclicTriangle().adj["C"], "B") == None
  {
    assert "B" != "C" && "C" != "A" && "A" != "B" by {
      assert "B"[0] != "C"[0] && "C"[0] != "A"[0] && "A"[0] != "B"[0];
    }
  }

  /** `is_graph_weakbalanced` only looks at triangles closed by an entry
      `u→r`: the cyclic triangle carries exactly one `'-'` and admits no
      clustering, yet it passes the scan. */
  lemma CyclicTrianglePassesScan()
    ensures WeaklyBalanced(CyclicTriangle())
    ensures forall f: map<NodeId, Sign> :: !LinksAgree(CyclicTriangle(), f)
  {
    var g := CyclicTriangle();
    CyclicTriangleNoClosingEntry();
    forall u, i, j
      ensures !UnbalancedTriangle(g, u, i, j)
    {
      if u in g.adj && 0 <= i < |g.adj[u]| && g.adj[u][i].target in g.adj && 0 <= j < |g.adj[g.adj[u][i].target]| {
        assert (u == "A" && g.adj[u][i].target == "B" && g.adj["B"][j].target == "C")
            || (u == "B" && g.adj[u][i].target == "C" && g.adj["C"][j].target == "A")
            || (u == "C" && g.adj[u][i].target == "A" && g.adj["A"][j].target == "B");
      }
    }
    forall f: map<NodeId, Sign>
      ensures !LinksAgree(g, f)
    {
      CyclicTriangleUnclusterable(f);
    }
  }

  /** Whatever `is_graph_balanced` accepts, `is_graph_weakbalanced` accepts. */
  lemma BalancedImpliesWeaklyBalanced(g: Graph, start: NodeId)
    requires BalancedFrom(g, start)
    ensures WeaklyBalanced(g)
  {
    var f: Marks :| ReachLabelling(g, start, f) && LinksAgree(g, f);
    ClusteringIsWeaklyBalanced(g, f);
  }

  // ---------------------------------------------------------------------------
  // convert_to_force_graph_format and graph_all_information

  /** A `{'id': node}` record. */
  datatype NodeRecord = NodeRecord(id: NodeId)

  /** The `{'nodes': ..., 'links': ...}` object drawn by the force graph. */
  datatype ForceGraph = ForceGraph(nodes: seq<NodeRecord>, links: seq<Link>)

  /** The `graph_data` object written for the front end. */
  datatype GraphData = GraphData(originalgraphdata: ForceGraph, isbalanced: bool, isweakbalanced: bool)

  /** The link records of one node's list, in list order. */
  function LinksOf(u: NodeId, es: seq<Entry>): (r: seq<Link>)
    ensures |r| == |es|
    ensures forall i :: 0 <= i < |es| ==> r[i] == Link(u, es[i].target, es[i].sign)
  {
    if es == [] then []
    else LinksOf(u, es[..|es| - 1]) + [Link(u, es[|es| - 1].target, es[|es| - 1].sign)]
  }

  /** The link records of the keys `ks`, key after key. */
  function Flatten(g: Graph, ks: seq<NodeId>): seq<Link>
    requires forall k :: k in ks ==> k in g.adj
  {
    if ks == [] then []
    else Flatten(g, ks[..|ks| - 1]) + LinksOf(ks[|ks| - 1], g.adj[ks[|ks| - 1]])
  }

  /** Grouping link records by source: the `(target, sign)` entries of the
      links whose source is `u`, in order. */
  function EntriesFrom(links: seq<Link>, u: NodeId): seq<Entry>
  {
    if links == [] then []
    else EntriesFrom(links[..|links| - 1], u)
         + (if links[|links| - 1].source == u
            then [Entry(links[|links| - 1].target, links[|links| - 1].sign)] else [])
  }

  /** `convert_to_force_graph_format`: one node record per key in key order,
      and the entries of every key, key after key, as link records. */
  method ConvertToForceGraphFormat(g: Graph) returns (fg: ForceGraph)
    requires forall k :: k in g.keys ==> k in g.adj
    ensures |fg.nodes| == |g.keys|
    ensures forall i :: 0 <= i < |g.keys| ==> fg.nodes[i].id == g.keys[i]
    ensures fg.links == Flatten(g, g.keys)
  {
    var nodes := seq(|g.keys|, i requires 0 <= i < |g.keys| => NodeRecord(g.keys[i]));
    var links: seq<Link> := [];
    var i := 0;
    while i < |g.keys|
      invariant 0 <= i <= |g.keys|
      invariant links == Flatten(g, g.keys[..i])
    {
      var node := g.keys[i];
      links := AppendLinks(links, node, g.adj[node]);
      FlattenNext(g, g.keys, i);
      i := i + 1;
    }
    assert g.keys[..i] == g.keys;
    fg := ForceGraph(nodes, links);
  }

  /** The inner loop of `convert_to_force_graph_format`: one link record per
      entry of `node`'s list, appended in list order. */
  method AppendLinks(links: seq<Link>, node: NodeId, neighbors: seq<Entry>) returns (links': seq<Link>)
    ensures links' == links + LinksOf(node, neighbors)
  {
    links' := links;
    var j := 0;
    while j < |neighbors|
      invariant 0 <= j <= |neighbors|
      invariant links' == links + LinksOf(node, neighbors[..j])
    {
      LinksOfNext(node, neighbors, j);
      links' := links' + [Link(node, neighbors[j].target, neighbors[j].sign)];
      j := j + 1;
    }
    assert neighbors[..j] == neighbors;
  }

  /** One more entry of a list adds its link record at the end. */
  lemma LinksOfNext(u: NodeId, es: seq<Entry>, j: nat)
    requires j < |es|
    ensures LinksOf(u, es[..j + 1]) == LinksOf(u, es[..j]) + [Link(u, es[j].target, es[j].sign)]
  {
    assert es[..j + 1][..j] == es[..j];
  }

  /** One more key adds the link records of its list at the end. */
  lemma FlattenNext(g: Graph, ks: seq<NodeId>, i: nat)
    requires forall k :: k in ks ==> k in g.adj
    requires i < |ks|
    ensures forall k :: k in ks[..i + 1] ==> k in g.adj
    ensures Flatten(g, ks[..i + 1]) == Flatten(g, ks[..i]) + LinksOf(ks[i], g.adj[ks[i]])
  {
    assert ks[..i + 1][..i] == ks[..i];
  }

  /** Grouping distributes over concatenation. */
  lemma {:induction false} EntriesFromAppend(a: seq<Link>, b: seq<Link>, u: NodeId)
    ensures EntriesFrom(a + b, u) == EntriesFrom(a, u) + EntriesFrom(b, u)
    decreases |b|
  {
    if b == [] {
      assert a + b == a;
    } else {
      var b' := b[..|b| - 1];
      assert (a + b)[..|a + b| - 1] == a + b';
      EntriesFromAppend(a, b', u);
    }
  }

  /** The links of one node's list group back into that list under its own
      source, and into nothing under any other. */
  lemma {:induction false} EntriesFromLinksOf(v: NodeId, es: seq<Entry>, u: NodeId)
    ensures EntriesFrom(LinksOf(v, es), u) == if v == u then es else []
    decreases |es|
  {
    if es != [] {
      var es' := es[..|es| - 1];
      var r := LinksOf(v, es);
      assert r[..|r| - 1] == LinksOf(v, es');
      EntriesFromLinksOf(v, es', u);
      if v == u {
        assert es' + [es[|es| - 1]] == es;
      }
    }
  }

  /** Grouping the flattened links by source recovers the list of every key,
      and nothing for a node that is not a key. */
  lemma {:induction false} FlattenGroupsBack(g: Graph, ks: seq<NodeId>, u: NodeId)
    requires Distinct(ks)
    requires forall k :: k in ks ==> k in g.adj
    ensures u in ks ==> EntriesFrom(Flatten(g, ks), u) == g.adj[u]
    ensures u !in ks ==> EntriesFrom(Flatten(g, ks), u) == []
    decreases |ks|
  {
    if ks != [] {
      var ks' := ks[..|ks| - 1];
      var last := ks[|ks| - 1];
      DistinctLast(ks, u);
      FlattenGroupsBack(g, ks', u);
      var front, back := Flatten(g, ks'), LinksOf(last, g.adj[last]);
      assert Flatten(g, ks) == front + back;
      EntriesFromAppend(front, back, u);
      EntriesFromLinksOf(last, g.adj[last], u);
      if u == last {
        assert EntriesFrom(front, u) == [];
        assert EntriesFrom(back, u) == g.adj[u];
        assert EntriesFrom(front, u) + EntriesFrom(back, u) == g.adj[u];
      } else {
        assert EntriesFrom(back, u) == [];
        assert EntriesFrom(front, u) + EntriesFrom(back, u) == EntriesFrom(front, u);
      }
    }
  }

  /** Without its last key, a list of distinct keys stays distinct and no
      longer holds that key. */
  lemma DistinctLast(ks: seq<NodeId>, u: NodeId)
    requires Distinct(ks) && ks != []
    ensures Distinct(ks[..|ks| - 1]) && ks[|ks| - 1] !in ks[..|ks| - 1]
    ensures u in ks <==> u in ks[..|ks| - 1] || u == ks[|ks| - 1]
  {
    assert ks == ks[..|ks| - 1] + [ks[|ks| - 1]];
  }

  /** There is one link record per adjacency entry. */
  lemma {:induction false} FlattenCount(g: Graph, ks: seq<NodeId>)
    requires forall k :: k in ks ==> k in g.adj
    ensures |Flatten(g, ks)| == EntryCount(g, ks)
    decreases |ks|
  {
    if ks != [] {
      var ks' := ks[..|ks| - 1];
      assert forall k :: k in ks' ==> k in ks;
      FlattenCount(g, ks');
    }
  }

  /** A link record is present exactly when its source is one of the keys
      and its `(target, sign)` is one of that key's entries. */
  lemma {:induction false} FlattenMembership(g: Graph, ks: seq<NodeId>, l: Link)
    requires forall k :: k in ks ==> k in g.adj
    ensures l in Flatten(g, ks) <==> l.source in ks && Entry(l.target, l.sign) in g.adj[l.source]
    decreases |ks|
  {
    if ks != [] {
      var ks' := ks[..|ks| - 1];
      var last := ks[|ks| - 1];
      assert forall k :: k in ks' ==> k in ks;
      FlattenMembership(g, ks', l);
      var es := g.adj[last];
      var r := LinksOf(last, es);
      if l in r {
        var i :| 0 <= i < |r| && r[i] == l;
        assert es[i] == Entry(l.target, l.sign);
      }
      if l.source == last && Entry(l.target, l.sign) in es {
        var i :| 0 <= i < |es| && es[i] == Entry(l.target, l.sign);
        assert r[i] == l;
      }
      assert l.source in ks <==> l.source in ks' || l.source == last;
    }
  }

  /** `graph_all_information`: the force graph and the two verdicts, stored
      unchanged under their three keys. */
  function GraphAllInformation(fg: ForceGraph, balanced: bool, weak: bool): (d: GraphData)
    ensures d.originalgraphdata == fg && d.isbalanced == balanced && d.isweakbalanced == weak
  {
    GraphData(fg, balanced, weak)
  }

  /** The data part of `create_force_graph`: the force graph of `g` with the
      verdicts of both balance checks. */
  method CreateForceGraphData(g: Graph) returns (data: GraphData)
    requires WellFormed(g) && Closed(g) && |g.keys| > 0
    ensures data.originalgraphdata.links == Flatten(g, g.keys)
    ensures |data.originalgraphdata.nodes| == |g.keys|
    ensures forall i :: 0 <= i < |g.keys| ==> data.originalgraphdata.nodes[i].id == g.keys[i]
    ensures data.isbalanced <==> BalancedFrom(g, g.keys[0])
    ensures data.isweakbalanced <==> WeaklyBalanced(g)
    ensures data.isbalanced ==> data.isweakbalanced
  {
    var forceGraph := ConvertToForceGraphFormat(g);
    var balancedResult := IsGraphBalanced(g);
    var weakbalancedResult := IsGraphWeakBalanced(g);
    if balancedResult {
      BalancedImpliesWeaklyBalanced(g, g.keys[0]);
    }
    data := GraphAllInformation(forceGraph, balancedResult, weakbalancedResult);
  }
}
