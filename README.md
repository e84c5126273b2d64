# Signed-graph balance viewer — Dafny model

This project models the core of a small signed-graph viewer. A signed graph is
an insertion-ordered dictionary. It maps a node id to an ordered list of
entries `[target, sign]`, where the sign is `'+'` or `'-'`. The system has two
halves.

- **The back end (src/balance.py).**
  - `spanning_tree` is a breadth-first walk. It marks each reached node `'+'`
    or `'-'` by sign parity and records the links of its tree.
  - `is_graph_balanced` checks every link against the marks of a walk from
    the first key. Nodes the walk does not reach all keep the mark `None`.
    When every key is reached, this is Harary's strict balance test.
  - `is_graph_weakbalanced` scans the triangles `u→v→r` that are closed by an
    entry `u→r`, and rejects one that carries exactly one `'-'`.
  - `convert_to_force_graph_format` and `graph_all_information` build the
    node/link records and the two verdicts that the front end draws.
- **The front end (src/App.js).**
  - On load it builds an editable relation matrix from the graph.
  - Edits are refused on `'/'` cells.
  - On submit it validates every cell and rebuilds an adjacency dictionary.
  - It colours nodes red/blue when the graph is reported balanced, and by
    cluster when it is reported weakly balanced.

Modules:

- **`SignedGraph`** (`signed_graph.dfy`) holds the shared types.
  - Signs, entries, links, and the ordered dictionary `Graph(keys, adj)`.
  - `FirstSign`, the "first entry towards `t`" lookup that both halves use.
- **`Balance`** (`balance.dfy`) models the back end.
  - `spanning_tree`, `is_graph_balanced`, `is_graph_weakbalanced` and
    `convert_to_force_graph_format` are methods with loops. Each is proved
    against a specification:
    - reachability as the least successor-closed set;
    - balance as the existence of an agreeing labelling of the kind the walk
      produces;
    - weak balance as the absence of a path `u→v→r`, closed by an entry
      `u→r`, with exactly one `'-'`;
    - the flattened link list as a fold over the keys.
  - Lemmas relate these to Harary's two-faction definition, and give small
    graphs on which the two differ. They also show
    that strict balance implies weak balance, and that flattening can be
    grouped back into the original lists.
- **`MatrixEditor`** (`matrix_editor.dfy`) models the relation matrix.
  - Pure functions give the matrix build (`InitialMatrix`), one keystroke
    (`ApplyEdit`) and the submit (`Commit`).
  - The class `Editor` holds the matrix as an `array2<string>` that keystrokes
    update in place. Its methods `HandleInputChange` and `HandleSubmit`, with
    the latter's loops, are proved equal to those functions.
- **`NodeColoring`** (`node_coloring.dfy`) models the two colour passes of the
  front end. Each is a loop over the link records, proved equal to a left
  fold (`StrictColors`, `WeakColors`). Lemmas state what the colours mean.

The code behaves in some ways a reader might not expect. The model keeps
each of these behaviours, and each one below has a lemma:

- The matrix cell `(row, col)` looks only in `row`'s own list. A link stored
  as `A→B` leaves the cell `(B, A)` empty (`ReverseDirectionNotConsulted`).
- `spanning_tree` follows links only in their stored direction. A graph whose
  only link points into the first key is reported unbalanced although it
  splits into two factions (`UnreachedSourceIsUnbalanced`).
- Nodes the walk does not reach all share the mark `None` and act as a third
  faction. The all-negative triangle `{A: [[B, '-']], B: [], C: [[A, '-'],
  [B, '-']]}` has no two-faction split, yet it is reported balanced, because
  `C` is never reached and `None` differs from both other marks
  (`UnreachedNodesFormThirdFaction`).
- The weak test only looks at triangles closed by an entry `u→r`. The cyclic
  triangle `{A: [[B, '+']], B: [[C, '+']], C: [[A, '-']]}` carries exactly one
  `'-'` and admits no clustering, yet it passes (`CyclicTrianglePassesScan`).
- Both colour passes process the link records in raw order, not in
  breadth-first order from the root.
  - A `'+'` link out of a node not yet coloured stores `undefined` for its
    target. A `'-'` link out of such a node colours its target red
    (`UncoloredSourceExamples`).
  - In the weak pass, `undefined` then blocks drawing a colour for that node
    (`UndefinedBlocksDrawing`).
  - A later `'+'` link overwrites a colour that is already set
    (`PlusOverwrites`).
  - There is no conflict error.
- Typing `"/"` into a `'+'` cell is accepted, so an edit can remove a relation
  (`EditCanRemoveRelation`). No edit can add one (`EmptyCellsStayEmpty`).
- Submitting the untouched matrix does not give back the original lists
  exactly (`UneditedRoundTrip`). Entries come back in key order, and only the
  first entry per target survives.

## Model

| member | source | states |
|---|---|---|
| SignedGraph.FirstSign | src/balance.py:61 | no result exactly when no entry targets `t`; otherwise the sign of an entry towards `t` with no earlier entry towards `t` |
| Balance.SpanningTree | src/balance.py:24-38 | marks are kept for exactly the keys; `start` is `'+'`; a node is marked exactly when it is reachable from `start` along stored directions; every tree link is a graph entry that agrees with the marks; there is one tree link into each marked node other than `start`, and its source was entered earlier |
| Balance.VisitAdjacent | src/balance.py:31-36 | following one node's list keeps the walk's invariant; the number of unmarked nodes falls by exactly the number of nodes queued |
| Balance.FollowFresh | src/balance.py:33-36 | marking an unmarked target by parity, queueing it and recording its tree link keeps the walk's invariant and unmarks exactly one node |
| Balance.WalkComplete | src/balance.py:30-38 | once the queue is empty, the marked nodes are exactly the reachable ones |
| Balance.LabellingUnique | src/balance.py:24-38 | the marks of the walk are the only labelling of their kind that every link agrees with |
| Balance.LinkVerdict | src/balance.py:46-51 | a tree link in either direction agrees with the marks; the two tests of the inner loop reject exactly the links that disagree; a disagreeing link refutes balance |
| Balance.IsGraphBalanced | src/balance.py:42-52 | returns True exactly when some labelling of the kind the walk produces, started at the first key, makes every link agree |
| Balance.BalancedFromIsTwoFactions | src/balance.py:42-52 | when every key is reachable from the first key, the verdict is Harary's strict balance: the keys split into two factions, with `'+'` links inside a faction and `'-'` links across |
| Balance.UnreachedSourceIsUnbalanced | src/balance.py:43-51 | the graph `{A: [], B: [[A, '+']]}` splits into two factions, yet no labelling from `A` agrees with its link |
| Balance.UnreachedNodesFormThirdFaction | src/balance.py:43-52 | the all-negative triangle `{A: [[B, '-']], B: [], C: [[A, '-'], [B, '-']]}` has no two-faction split, yet a labelling from `A` that leaves `C` unmarked agrees with every link |
| Balance.NegativeTriangleReach | src/balance.py:24-38 | from `A` the walk reaches `A` and `B` but not `C` |
| Balance.NegativeTriangleHasNoFactions | src/balance.py:42-52 | the all-negative triangle has no two-faction split |
| Balance.OneNegativeTests | src/balance.py:65-69 | the two tests on `(uv, vr, ur)` together reject exactly the sign triples with one `'-'` |
| Balance.IsGraphWeakBalanced | src/balance.py:55-70 | returns True exactly when no path `u→v→r` with `r ≠ u` and a first entry `u→r` carries exactly one `'-'` |
| Balance.ClusteringIsWeaklyBalanced | src/balance.py:55-70 | any clustering that every link agrees with leaves no path `u→v→r`, closed by an entry `u→r`, with one `'-'` |
| Balance.CyclicTrianglePassesScan | src/balance.py:55-70 | the cyclic triangle `{A: [[B, '+']], B: [[C, '+']], C: [[A, '-']]}` passes the scan, yet no clustering agrees with its links |
| Balance.CyclicTriangleUnclusterable | src/balance.py:55-70 | no labelling of the cyclic triangle, over any label type, agrees with all three links |
| Balance.UniformSignIsWeaklyBalanced | src/balance.py:55-70 | a graph whose links all carry the same sign is weakly balanced |
| Balance.BalancedImpliesWeaklyBalanced | src/balance.py:42-70 | whatever the strict test accepts, the weak test accepts |
| Balance.ConvertToForceGraphFormat | src/balance.py:73-83 | one node record per key in key order; the links are every key's entries, key after key and each list in order |
| Balance.AppendLinks | src/balance.py:77-82 | appends one link record per entry of a node's list, in list order, and changes nothing before them |
| Balance.FlattenGroupsBack | src/balance.py:73-83 | grouping the link records by source gives back each key's list exactly, and nothing for a node that is not a key |
| Balance.FlattenCount | src/balance.py:73-83 | there are as many link records as adjacency entries |
| Balance.FlattenMembership | src/balance.py:73-83 | a link record is present exactly when its source is a key and `(target, sign)` is one of that key's entries |
| Balance.GraphAllInformation | src/balance.py:86-92 | the force graph and both verdicts are stored unchanged under their own keys |
| Balance.CreateForceGraphData | src/balance.py:100-107 | the stored data holds the force graph of the input, the strict verdict from the first key and the weak verdict, and the strict verdict implies the weak one |
| MatrixEditor.InitialMatrix | src/App.js:17-25 | the matrix is square over the keys, with rows and columns in key order |
| MatrixEditor.InitialMatrixCell | src/App.js:19-24 | every cell is `'+'`, `'-'` or `'/'`; it is `'/'` exactly when the row node's list has no entry towards the column node; otherwise it shows the sign of such an entry |
| MatrixEditor.CellTextShowsFirstSign | src/App.js:21-22 | a cell shows a sign exactly when that sign is on the first entry towards the column node |
| MatrixEditor.ReverseDirectionNotConsulted | src/App.js:21 | for `{A: [[B, '+']], B: []}`, cell `(A, B)` is `'+'` and cell `(B, A)` is `'/'` |
| MatrixEditor.InitialMatrixValid | src/App.js:17-26 | every cell of the initial matrix passes the submit's check |
| MatrixEditor.Editor.constructor | src/App.js:17-26 | the editor's cells hold the initial matrix of the loaded graph |
| MatrixEditor.ApplyEdit | src/App.js:29-39 | an edit is refused exactly when the cell is `'/'`; otherwise only that cell changes, to the typed text |
| MatrixEditor.Editor.HandleInputChange | src/App.js:29-39 | the cells change exactly as `ApplyEdit` says and are left as they were when it refuses |
| MatrixEditor.EmptyCellsStayEmpty | src/App.js:31-35 | after any series of keystrokes, a `'/'` cell is still `'/'` |
| MatrixEditor.EditCanRemoveRelation | src/App.js:36-37 | typing `"/"` into a `'+'` cell is accepted |
| MatrixEditor.EmptyCellEditRefused | src/App.js:31-35 | in the three-node example, editing cell `(A, C)` is refused as immutable |
| MatrixEditor.Commit | src/App.js:43-61 | a refused submit reports an invalid symbol; an accepted one keeps the key order and has exactly the keys |
| MatrixEditor.CommitRefusesIff | src/App.js:43-50 | the submit is refused exactly when some cell holds text other than `'+'`, `'-'` or `'/'` |
| MatrixEditor.AdjOfKeys | src/App.js:52-54 | only keys of the rows read so far become keys of the rebuilt dictionary |
| MatrixEditor.AdjOfRow | src/App.js:52-61 | in the rebuilt dictionary, key `i` holds the entries of row `i` |
| MatrixEditor.RowEntriesMembership | src/App.js:55-59 | a rebuilt entry names a column key and the sign in that column, and every non-`'/'` column gives one |
| MatrixEditor.RowEntriesOrdered | src/App.js:55-59 | the entries of a rebuilt row target keys in strictly increasing key position |
| MatrixEditor.CommitIsWellFormed | src/App.js:52-61 | an accepted submit builds a dictionary with distinct keys whose every target is a key |
| MatrixEditor.UneditedRoundTrip | src/App.js:17-61 | submitting the untouched matrix puts `[t, s]` under a key exactly when `t` is a key and `s` is the sign of the first entry of the original list towards `t` |
| MatrixEditor.UneditedRoundTripExact | src/App.js:17-61 | when a list names each target at most once and only keys, the rebuilt list holds exactly its entries |
| MatrixEditor.Editor.CheckCells | src/App.js:43-50 | true exactly when every cell is `'+'`, `'-'` or `'/'` |
| MatrixEditor.Editor.RowToEntries | src/App.js:55-60 | the entries of one row, in column order, skipping `'/'` |
| MatrixEditor.Editor.Rebuild | src/App.js:52-61 | the dictionary maps each key to its row's entries |
| MatrixEditor.Editor.HandleSubmit | src/App.js:42-61 | the outcome is exactly `Commit` of the current cells |
| NodeColoring.StrictTarget | src/App.js:92-94 | a `'+'` link gives its target the source's colour; a `'-'` link gives blue exactly when the source is red, and red otherwise |
| NodeColoring.BalancedNodeColor | src/App.js:81-97 | all grey when the graph is not reported balanced; otherwise the first node is red and the links are applied in order |
| NodeColoring.StrictDomain | src/App.js:87-95 | the strict pass colours exactly the first node and the link targets |
| NodeColoring.StrictColorsRedOrBlue | src/App.js:87-95 | when every link's source is coloured before the link is read, every colour set is red or blue |
| NodeColoring.StrictColorsFollowSides | src/App.js:87-95 | when sources are coloured first and the links agree with a two-sided labelling, a node is red exactly when it is on the first node's side |
| NodeColoring.BalancedColoringIsMarking | src/App.js:81-96 | for a graph the strict test accepts, whose link records never read an uncoloured source, red is the walk's `'+'` mark and blue its `'-'` mark |
| NodeColoring.UncoloredSourceExamples | src/App.js:92-94 | a `'+'` link from an uncoloured source stores `undefined`; a `'-'` one colours the target red |
| NodeColoring.WeakStep | src/App.js:130-140 | a `'+'` link copies the source's colour, `undefined` included; a `'-'` link into a node absent from the map draws a new colour; otherwise nothing changes |
| NodeColoring.WeakBalancedNodeColor | src/App.js:121-143 | all grey when the graph is not reported weakly balanced; otherwise the first node is red and the links are applied in order as `WeakStep` says |
| NodeColoring.WeakPaletteBound | src/App.js:126-141 | the weak pass uses only red and the colours it has drawn, and it draws at most one per `'-'` link |
| NodeColoring.WeakColorCount | src/App.js:126-141 | at most one more colour is in use than there are `'-'` links |
| NodeColoring.DrawnColorIsNew | src/App.js:134-139 | the next colour drawn is used by no node yet |
| NodeColoring.UndefinedBlocksDrawing | src/App.js:132-134 | a node that holds `undefined` gets no colour from a later `'-'` link |
| NodeColoring.PlusOverwrites | src/App.js:132-133 | a later `'+'` link overwrites a colour already drawn |
| NodeColoring.ExampleLinks | src/balance.py:73-83 | the example graph flattens to `A→B '+'` then `B→C '-'` |
| NodeColoring.ExampleStrict | src/App.js:87-95 | in the example, A and B are red and C is blue |
| NodeColoring.ExampleWeak | src/App.js:126-141 | in the example, A and B share red and C gets a colour of its own |

## Left out

- The React rendering, the canvas drawing, `linkLabel`, `alert`, `console` output and the Flask server are not modelled. A refused edit or submit is an `Err` value instead of an alert.
- The `fetch` request to `/api/update-graph` is not modelled. `HandleSubmit` stops at the dictionary it would send.
- Reading `graph.json` and `graph_data.json`, writing them (`create_graph`, and the writing half of `create_force_graph`) and `print` are not modelled. `CreateForceGraphData` returns the data instead.
- `generate_random_graph` is not modelled: it draws random signs and returns `None`.
- Random cluster colours (`rgb(r, g, b)` from `Math.random`) are modelled as `Fresh(n)`, the `n`-th colour drawn. Two random draws that happen to coincide are not modelled.
- Inputs that would raise in Python are excluded by preconditions:
  - `KeyError` for a target that is not a key (`Closed`);
  - `StopIteration` on an empty graph (`|keys| > 0`);
  - duplicate keys, which a JSON object cannot hold (`WellFormed`).
- The front end reads the first node record at `nodes[0]`. On an empty node list this fails in JavaScript. It is excluded by the colour methods' preconditions.
- JavaScript's `Object.keys` lists integer-like keys first in numeric order. The model takes the key order as given.
- The matrix rows are shared between the old and new React state because `[...matrixData]` copies only the outer array. This is modelled as an in-place update of one `array2`. React re-rendering is not modelled.
- The `.sign` string of a link record is modelled as the `Sign` datatype. The back end only ever writes `'+'` or `'-'` there.
- In the rebuild, an accepted cell other than `'+'` becomes `'-'` through `SignOf`. Only `'-'` can reach that point, since `'/'` is skipped and every other text is refused.

