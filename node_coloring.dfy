/** The two node colourings of the front end (src/App.js): a red/blue
    colouring shown when the graph is reported balanced, and a cluster
    colouring shown when it is reported weakly balanced. Both walk the
    link records of the force graph once, in stored order, filling a
    `Map` from node id to colour. */
module NodeColoring {
  import opened SignedGraph
  import opened Balance

  /** `'grey'`, `'red'`, `'blue'`, and the `n`-th random `rgb(...)` colour
      drawn for a new cluster. */
  datatype Color = Grey | Red | Blue | Fresh(n: nat)

  /** The `nodeColorMap`: a key may be present with the value `undefined`,
      written `None`. */
  type ColorMap = map<NodeId, Option<Color>>

  /** The colouring function handed to the renderer: `() => 'grey'` or
      `node => nodeColorMap.get(node.id)`. */
  datatype Coloring = AllGrey | ByMap(colors: ColorMap)

  /** `nodeColorMap.get(id)`: `undefined` for a missing key. */
  function Get(m: ColorMap, id: NodeId): Option<Color>
  {
    if id in m then m[id] else None
  }

  /** The colour the renderer receives for node `id`. */
  function ColorOf(c: Coloring, id: NodeId): Option<Color>
  {
    match c
    case AllGrey => Some(Grey)
    case ByMap(m) => Get(m, id)
  }

  /** Every link's source is the first node or the target of an earlier
      link, so no link reads an uncoloured source. */
  ghost predicate SourcesPrecede(first: NodeId, links: seq<Link>)
  {
    forall i :: 0 <= i < |links| ==>
      links[i].source == first || exists j :: 0 <= j < i && links[j].target == links[i].source
  }

  /** The nodes a pass colours: the first node and every link target. */
  ghost predicate Touched(first: NodeId, links: seq<Link>, v: NodeId)
  {
    v == first || exists i :: 0 <= i < |links| && links[i].target == v
  }

  // ---------------------------------------------------------------------------
  // BalancedNodeColor

  /** The colour one link gives its target: the source's colour on `'+'`,
      otherwise `'blue'` after `'red'` and `'red'` after anything else,
      `undefined` included. */
  function StrictTarget(m: ColorMap, l: Link): (c: Option<Color>)
    ensures l.sign == Plus ==> c == Get(m, l.source)
    ensures l.sign == Minus ==> (c == Some(Blue) <==> Get(m, l.source) == Some(Red))
    ensures l.sign == Minus ==> c == Some(Red) || c == Some(Blue)
  {
    var sourceColor := Get(m, l.source);
    if l.sign == Plus then sourceColor
    else if sourceColor == Some(Red) then Some(Blue) else Some(Red)
  }

  /** The map after the first node is set red and the links are applied in
      order. */
  function StrictColors(first: NodeId, links: seq<Link>): ColorMap
  {
    if links == [] then map[first := Some(Red)]
    else
      var m := StrictColors(first, links[..|links| - 1]);
      var l := links[|links| - 1];
      m[l.target := StrictTarget(m, l)]
  }

  /** `BalancedNodeColor`: all grey when the graph is not reported balanced;
      otherwise the first node red and every link, in order, colouring its
      target from its source. */
  method BalancedNodeColor(data: GraphData) returns (c: Coloring)
    requires data.isbalanced ==> |data.originalgraphdata.nodes| > 0
    ensures !data.isbalanced ==> c == AllGrey
    ensures data.isbalanced ==>
              c == ByMap(StrictColors(data.originalgraphdata.nodes[0].id, data.originalgraphdata.links))
  {
    if !data.isbalanced {
      return AllGrey;
    }
    var nodeColorMap: ColorMap := map[];
    var firstNodeId := data.originalgraphdata.nodes[0].id;
    nodeColorMap := nodeColorMap[firstNodeId := Some(Red)];
    var links := data.originalgraphdata.links;
    var i := 0;
    while i < |links|
      invariant 0 <= i <= |links|
      invariant nodeColorMap == StrictColors(firstNodeId, links[..i])
    {
      assert links[..i + 1][..i] == links[..i];
      var link := links[i];
      var sourceColor := Get(nodeColorMap, link.source);
      var targetColor := if link.sign == Plus then sourceColor
                         else if sourceColor == Some(Red) then Some(Blue) else Some(Red);
      nodeColorMap := nodeColorMap[link.target := targetColor];
      i := i + 1;
    }
    assert links[..i] == links;
    return ByMap(nodeColorMap);
  }

  /** The strict pass colours exactly the first node and the link targets. */
  lemma {:induction false} StrictDomain(first: NodeId, links: seq<Link>, v: NodeId)
    ensures v in StrictColors(first, links) <==> Touched(first, links, v)
    decreases |links|
  {
    if links != [] {
      var p := links[..|links| - 1];
      StrictDomain(first, p, v);
      if Touched(first, p, v) {
        if v != first {
          var i :| 0 <= i < |p| && p[i].target == v;
          assert links[i].target == v;
        }
      }
      if Touched(first, links, v) && v != first && v != links[|links| - 1].target {
        var i :| 0 <= i < |links| && links[i].target == v;
        assert p[i].target == v;
      }
    }
  }

  /** Dropping the last link keeps sources preceded. */
  lemma SourcesPrecedePrefix(first: NodeId, links: seq<Link>)
    requires links != [] && SourcesPrecede(first, links)
    ensures SourcesPrecede(first, links[..|links| - 1])
  {
    var p := links[..|links| - 1];
    forall i | 0 <= i < |p| && p[i].source != first
      ensures exists j :: 0 <= j < i && p[j].target == p[i].source
    {
      var j :| 0 <= j < i && links[j].target == links[i].source;
      assert p[j].target == p[i].source;
    }
  }

  /** The source of the last link is coloured when it is processed. */
  lemma LastSourceColored(first: NodeId, links: seq<Link>)
    requires links != [] && SourcesPrecede(first, links)
    ensures links[|links| - 1].source in StrictColors(first, links[..|links| - 1])
  {
    var p := links[..|links| - 1];
    var u := links[|links| - 1].source;
    StrictDomain(first, p, u);
    if u != first {
      var j :| 0 <= j < |links| - 1 && links[j].target == u;
      assert p[j].target == u;
    }
  }

  /** When every link's source is coloured before the link is processed,
      every colour the strict pass sets is red or blue. */
  lemma {:induction false} StrictColorsRedOrBlue(first: NodeId, links: seq<Link>)
    requires SourcesPrecede(first, links)
    ensures forall v :: v in StrictColors(first, links) ==>
              StrictColors(first, links)[v] == Some(Red) || StrictColors(first, links)[v] == Some(Blue)
    decreases |links|
  {
    if links != [] {
      SourcesPrecedePrefix(first, links);
      StrictColorsRedOrBlue(first, links[..|links| - 1]);
      LastSourceColored(first, links);
    }
  }

  /** When the links agree with a labelling `h` that gives every link target
      one of two sides, and every source is coloured first, a node is red
      exactly when it is on the first node's side, and blue otherwise. */
  lemma {:induction false} StrictColorsFollowSides<M>(first: NodeId, links: seq<Link>, h: map<NodeId, M>, other: M)
    requires SourcesPrecede(first, links)
    requires first in h
    requires forall i :: 0 <= i < |links| ==>
               && links[i].source in h && links[i].target in h
               && Agrees(h, links[i].source, links[i].target, links[i].sign)
               && (h[links[i].target] == h[first] || h[links[i].target] == other)
    ensures forall v :: v in StrictColors(first, links) ==>
              && v in h && (h[v] == h[first] || h[v] == other)
              && StrictColors(first, links)[v] == Some(if h[v] == h[first] then Red else Blue)
    decreases |links|
  {
    if links != [] {
      var p := links[..|links| - 1];
      SourcesPrecedePrefix(first, links);
      StrictColorsFollowSides(first, p, h, other);
      LastSourceColored(first, links);
      var l := links[|links| - 1];
      assert Agrees(h, l.source, l.target, l.sign);
    }
  }

  /** Along link records that never read an uncoloured source, every
      target is reachable from the first node. */
  lemma {:induction false} PrecededTargetsReachable(g: Graph, first: NodeId, links: seq<Link>, k: nat)
    requires forall l :: l in links ==> l.source in g.adj && Entry(l.target, l.sign) in g.adj[l.source]
    requires SourcesPrecede(first, links)
    requires k < |links|
    ensures Reachable(g, first, links[k].source) && Reachable(g, first, links[k].target)
    decreases k
  {
    var l := links[k];
    if l.source != first {
      var j :| 0 <= j < k && links[j].target == l.source;
      PrecededTargetsReachable(g, first, links, j);
    }
    assert links[k] in links;
    ReachableStep(g, first, l.source, Entry(l.target, l.sign));
  }

  /** For a graph that `is_graph_balanced` accepts and whose link records
      never read an uncoloured source, the strict colouring is the marking
      of `spanning_tree`: red for `'+'`, blue for `'-'`. */
  lemma BalancedColoringIsMarking(g: Graph, f: Marks)
    requires WellFormed(g) && |g.keys| > 0
    requires ReachLabelling(g, g.keys[0], f) && LinksAgree(g, f)
    requires SourcesPrecede(g.keys[0], Flatten(g, g.keys))
    ensures forall v :: v in StrictColors(g.keys[0], Flatten(g, g.keys)) ==>
              v in f && StrictColors(g.keys[0], Flatten(g, g.keys))[v]
                          == Some(if f[v] == Some(Plus) then Red else Blue)
  {
    var first := g.keys[0];
    var links := Flatten(g, g.keys);
    forall l | l in links
      ensures l.source in g.adj && Entry(l.target, l.sign) in g.adj[l.source]
    {
      FlattenMembership(g, g.keys, l);
    }
    forall i | 0 <= i < |links|
      ensures && links[i].source in f && links[i].target in f
              && Agrees(f, links[i].source, links[i].target, links[i].sign)
              && (f[links[i].target] == f[first] || f[links[i].target] == Some(Minus))
    {
      var l := links[i];
      assert l in links;
      PrecededTargetsReachable(g, first, links, i);
      assert f[l.target] != None;
      assert f[l.target].value == Plus || f[l.target].value == Minus;
    }
    StrictColorsFollowSides(first, links, f, Some(Minus));
  }

  /** A `'+'` link out of a node that is not yet coloured stores `undefined`
      for its target; a `'-'` one colours the target red. */
  lemma UncoloredSourceExamples()
    ensures StrictColors("A", [Link("B", "C", Plus)]) == map["A" := Some(Red), "C" := None]
    ensures StrictColors("A", [Link("B", "C", Minus)]) == map["A" := Some(Red), "C" := Some(Red)]
    ensures !SourcesPrecede("A", [Link("B", "C", Plus)])
  {
    assert [Link("B", "C", Plus)][..0] == [];
    assert [Link("B", "C", Minus)][..0] == [];
    assert "B" != "A" by { assert "B"[0] != "A"[0]; }
  }

  // ---------------------------------------------------------------------------
  // WeakBalancedNodeColor

  /** The colour map and the number of cluster colours drawn so far. */
  datatype WeakState = WeakState(colors: ColorMap, issued: nat)

  /** One link of the weak pass: a `'+'` link copies the source's colour,
      `undefined` included, onto the target; a `'-'` link into a node absent
      from the map draws a new colour for it. */
  function WeakStep(st: WeakState, l: Link): (r: WeakState)
    ensures l.sign == Plus ==> r == WeakState(st.colors[l.target := Get(st.colors, l.source)], st.issued)
    ensures l.sign == Minus && l.target in st.colors ==> r == st
    ensures l.sign == Minus && l.target !in st.colors ==>
              r == WeakState(st.colors[l.target := Some(Fresh(st.issued))], st.issued + 1)
  {
    var sourceColor := Get(st.colors, l.source);
    var m := if l.sign == Plus then st.colors[l.target := sourceColor] else st.colors;
    if l.sign == Minus && l.target !in m then WeakState(m[l.target := Some(Fresh(st.issued))], st.issued + 1)
    else WeakState(m, st.issued)
  }

  /** The state after the first node is set red and the links are applied
      in order. */
  function WeakColors(first: NodeId, links: seq<Link>): WeakState
  {
    if links == [] then WeakState(map[first := Some(Red)], 0)
    else WeakStep(WeakColors(first, links[..|links| - 1]), links[|links| - 1])
  }

  /** `WeakBalancedNodeColor`: all grey when the graph is not reported
      weakly balanced; otherwise the first node red and every link, in
      order, applied as `WeakStep` says, the `n`-th drawn colour being
      `Fresh(n)`. */
  method WeakBalancedNodeColor(data: GraphData) returns (c: Coloring)
    requires data.isweakbalanced ==> |data.originalgraphdata.nodes| > 0
    ensures !data.isweakbalanced ==> c == AllGrey
    ensures data.isweakbalanced ==>
              c == ByMap(WeakColors(data.originalgraphdata.nodes[0].id, data.originalgraphdata.links).colors)
  {
    if !data.isweakbalanced {
      return AllGrey;
    }
    var nodeColorMap: ColorMap := map[];
    var drawn: nat := 0;
    var firstNodeId := data.originalgraphdata.nodes[0].id;
    nodeColorMap := nodeColorMap[firstNodeId := Some(Red)];
    var links := data.originalgraphdata.links;
    var i := 0;
    while i < |links|
      invariant 0 <= i <= |links|
      invariant WeakState(nodeColorMap, drawn) == WeakColors(firstNodeId, links[..i])
    {
      assert links[..i + 1][..i] == links[..i];
      var link := links[i];
      var sourceColor := Get(nodeColorMap, link.source);
      if link.sign == Plus {
        nodeColorMap := nodeColorMap[link.target := sourceColor];
      }
      if link.sign == Minus && link.target !in nodeColorMap {
        var newColor := Fresh(drawn);
        drawn := drawn + 1;
        nodeColorMap := nodeColorMap[link.target := Some(newColor)];
      }
      i := i + 1;
    }
    assert links[..i] == links;
    return ByMap(nodeColorMap);
  }

  /** The number of `'-'` link records. */
  function NegativeCount(links: seq<Link>): (n: nat)
    ensures n <= |links|
  {
    if links == [] then 0
    else NegativeCount(links[..|links| - 1]) + (if links[|links| - 1].sign == Minus then 1 else 0)
  }

  /** The colours in use: the values actually set in the map. */
  function Palette(m: ColorMap): set<Color>
  {
    set v | v in m && m[v].Some? :: m[v].value
  }

  /** Red and the first `n` drawn colours. */
  function Allowed(n: nat): (s: set<Color>)
    ensures forall c :: c in s <==> c == Red || (c.Fresh? && c.n < n)
    ensures |s| == n + 1
  {
    if n == 0 then {Red}
    else
      var s := Allowed(n - 1);
      assert Fresh(n - 1) !in s;
      s + {Fresh(n - 1)}
  }

  /** The weak pass only ever uses red and the colours it has drawn, and it
      draws at most one colour per `'-'` link. */
  lemma {:induction false} WeakPaletteBound(first: NodeId, links: seq<Link>)
    ensures WeakColors(first, links).issued <= NegativeCount(links)
    ensures Palette(WeakColors(first, links).colors) <= Allowed(WeakColors(first, links).issued)
    decreases |links|
  {
    if links != [] {
      var p := links[..|links| - 1];
      WeakPaletteBound(first, p);
      var st := WeakColors(first, p);
      var l := links[|links| - 1];
      var r := WeakColors(first, links);
      assert Allowed(st.issued) <= Allowed(r.issued);
      forall c | c in Palette(r.colors)
        ensures c in Allowed(r.issued)
      {
        var v :| v in r.colors && r.colors[v].Some? && r.colors[v].value == c;
        if v != l.target {
          assert c in Palette(st.colors);
        } else if l.sign == Plus && l.source in st.colors {
          assert c in Palette(st.colors);
        } else if l.sign == Minus && v in st.colors {
          assert c in Palette(st.colors);
        }
      }
    }
  }

  /** A subset of a finite set is no larger. */
  lemma {:induction false} SubsetNoLarger<T>(a: set<T>, b: set<T>)
    requires a <= b
    ensures |a| <= |b|
    decreases |b|
  {
    if a != {} {
      var x :| x in a;
      SubsetNoLarger(a - {x}, b - {x});
    }
  }

  /** The weak pass uses at most one more colour than there are `'-'`
      links. */
  lemma WeakColorCount(first: NodeId, links: seq<Link>)
    ensures |Palette(WeakColors(first, links).colors)| <= 1 + NegativeCount(links)
  {
    WeakPaletteBound(first, links);
    var st := WeakColors(first, links);
    SubsetNoLarger(Palette(st.colors), Allowed(st.issued));
  }

  /** A colour drawn for a new cluster is used by no node yet. */
  lemma DrawnColorIsNew(first: NodeId, links: seq<Link>)
    ensures Fresh(WeakColors(first, links).issued) !in Palette(WeakColors(first, links).colors)
  {
    WeakPaletteBound(first, links);
  }

  /** `nodeColorMap.has` is true for a key whose value is `undefined`: once a
      `'+'` link from an uncoloured source has stored `undefined` for a node,
      a later `'-'` link leaves that node without a colour. */
  lemma UndefinedBlocksDrawing()
    ensures WeakColors("A", [Link("B", "C", Plus), Link("A", "C", Minus)]).colors
              == map["A" := Some(Red), "C" := None]
  {
    var links := [Link("B", "C", Plus), Link("A", "C", Minus)];
    assert links[..1] == [Link("B", "C", Plus)];
    assert links[..1][..0] == [];
    assert "B" != "A" by { assert "B"[0] != "A"[0]; }
  }

  /** A later `'+'` link overwrites a colour already set. */
  lemma PlusOverwrites()
    ensures WeakColors("A", [Link("A", "B", Minus), Link("A", "B", Plus)]).colors
              == map["A" := Some(Red), "B" := Some(Red)]
  {
    var links := [Link("A", "B", Minus), Link("A", "B", Plus)];
    assert links[..1] == [Link("A", "B", Minus)];
    assert links[..1][..0] == [];
    assert "B" != "A" by { assert "B"[0] != "A"[0]; }
  }

  // ---------------------------------------------------------------------------
  // The example graph {A: [[B, '+']], B: [[C, '-']], C: []}

  function ExampleGraph(): (g: Graph)
    ensures WellFormed(g) && Closed(g)
  {
    Graph(["A", "B", "C"], map["A" := [Entry("B", Plus)], "B" := [Entry("C", Minus)], "C" := []])
  }

  /** Its link records, in order. */
  lemma ExampleLinks()
    ensures Flatten(ExampleGraph(), ExampleGraph().keys) == [Link("A", "B", Plus), Link("B", "C", Minus)]
  {
    var g := ExampleGraph();
    assert g.keys[..2] == ["A", "B"];
    assert g.keys[..2][..1] == ["A"];
    assert g.keys[..2][..1][..0] == [];
    assert LinksOf("A", [Entry("B", Plus)]) == [Link("A", "B", Plus)];
    assert LinksOf("B", [Entry("C", Minus)]) == [Link("B", "C", Minus)];
    assert LinksOf("C", []) == [];
    assert Flatten(g, ["A"]) == [Link("A", "B", Plus)];
    assert Flatten(g, ["A", "B"]) == [Link("A", "B", Plus), Link("B", "C", Minus)];
  }

  /** Strict colouring of the example: A and B red, C blue. */
  lemma ExampleStrict()
    ensures var m := StrictColors("A", [Link("A", "B", Plus), Link("B", "C", Minus)]);
      Get(m, "A") == Some(Red) && Get(m, "B") == Some(Red) && Get(m, "C") == Some(Blue)
  {
    var links := [Link("A", "B", Plus), Link("B", "C", Minus)];
    assert links[..1] == [Link("A", "B", Plus)];
    assert links[..1][..0] == [];
    assert "B" != "A" by { assert "B"[0] != "A"[0]; }
    assert "C" != "A" by { assert "C"[0] != "A"[0]; }
    assert "C" != "B" by { assert "C"[0] != "B"[0]; }
  }

  /** Weak colouring of the example: A and B share red, C gets a colour of
      its own. */
  lemma ExampleWeak()
    ensures var m := WeakColors("A", [Link("A", "B", Plus), Link("B", "C", Minus)]).colors;
      Get(m, "A") == Some(Red) && Get(m, "B") == Some(Red) && Get(m, "C") == Some(Fresh(0))
  {
    var links := [Link("A", "B", Plus), Link("B", "C", Minus)];
    assert links[..1] == [Link("A", "B", Plus)];
    assert links[..1][..0] == [];
    assert "B" != "A" by { assert "B"[0] != "A"[0]; }
    assert "C" != "A" by { assert "C"[0] != "A"[0]; }
    assert "C" != "B" by { assert "C"[0] != "B"[0]; }
  }
}
