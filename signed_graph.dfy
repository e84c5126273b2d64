/** The signed graph shared by the editor (src/App.js) and the balance checks
    (src/balance.py): an ordered map from a node id to the ordered list of that
    node's outgoing entries `[target, sign]`. */
module SignedGraph {

  datatype Option<+T> = None | Some(value: T)

  /** The two relation symbols `'+'` and `'-'`. */
  datatype Sign = Plus | Minus

  type NodeId = string

  /** One adjacency entry `[target, sign]` of a node's list. */
  datatype Entry = Entry(target: NodeId, sign: Sign)

  /** A directed signed link: a `(node, adjacent, sign)` tuple of the spanning
      tree, or a `{'source', 'target', 'sign'}` record of the force graph. */
  datatype Link = Link(source: NodeId, target: NodeId, sign: Sign)

  /** A dictionary / object with insertion-ordered keys: `keys` is the key
      order, `adj` the value stored under each key. */
  datatype Graph = Graph(keys: seq<NodeId>, adj: map<NodeId, seq<Entry>>)

  /** The text of a sign as it is stored in the JSON files and the matrix. */
  function SignText(s: Sign): (t: string)
    ensures t == "+" || t == "-"
    ensures (t == "+") == (s == Plus)
  {
    match s
    case Plus => "+"
    case Minus => "-"
  }

  predicate Distinct(ks: seq<NodeId>)
  {
    forall i, j :: 0 <= i < j < |ks| ==> ks[i] != ks[j]
  }

  /** A dictionary: every key occurs once, and the key order lists exactly
      the keys of the map. */
  ghost predicate WellFormed(g: Graph)
  {
    && Distinct(g.keys)
    && (forall k :: k in g.adj <==> k in g.keys)
  }

  /** Every target of every entry is itself a key, so `graph[target]` and
      `visited[target]` never miss. */
  ghost predicate Closed(g: Graph)
  {
    forall u, e :: u in g.adj && e in g.adj[u] ==> e.target in g.adj
  }

  /** The sign of the first entry of `es` whose target is `t`, as computed by
      `next((sign for node, sign in es if node == t), None)` and by
      `es.find(link => link[0] === t)`. */
  function FirstSign(es: seq<Entry>, t: NodeId): (r: Option<Sign>)
    ensures r == None <==> forall i :: 0 <= i < |es| ==> es[i].target != t
    ensures r.Some? ==> exists i :: 0 <= i < |es| && es[i] == Entry(t, r.value)
                                     && forall j :: 0 <= j < i ==> es[j].target != t
  {
    if es == [] then None
    else if es[0].target == t then Some(es[0].sign)
    else FirstSign(es[1..], t)
  }

  /** The number of entries over all keys, which is the number of links. */
  function EntryCount(g: Graph, ks: seq<NodeId>): nat
    requires forall k :: k in ks ==> k in g.adj
  {
    if ks == [] then 0
    else EntryCount(g, ks[..|ks| - 1]) + |g.adj[ks[|ks| - 1]]|
  }
}
