/** The editable relation matrix of the front end (src/App.js): built once
    from the graph, edited one cell at a time, and validated and turned back
    into an adjacency map on submit. */
module MatrixEditor {
  import opened SignedGraph

  /** Rows and columns follow the key order; a cell holds whatever text the
      user typed, `"/"` marking the absence of a relation. */
  type Matrix = seq<seq<string>>

  datatype Rejection = ImmutableCell | InvalidSymbol

  datatype Result<T> = Ok(value: T) | Err(error: Rejection)

  /** The text of an absent relation. */
  const NoRelation: string := "/"

  /** An `n` by `n` matrix. */
  predicate Square(m: Matrix, n: nat)
  {
    |m| == n && forall i :: 0 <= i < n ==> |m[i]| == n
  }

  // ---------------------------------------------------------------------------
  // The initial matrix

  /** The cell for the pair `(row, col)`: the sign of the first entry of
      `row`'s own list whose target is `col`, or `"/"`. */
  function CellText(g: Graph, row: NodeId, col: NodeId): string
    requires row in g.adj
  {
    match FirstSign(g.adj[row], col)
    case None => NoRelation
    case Some(s) => SignText(s)
  }

  /** The matrix built when the page loads: row `i`, column `j` holds the
      cell for `(keys[i], keys[j])`. */
  function InitialMatrix(g: Graph): (m: Matrix)
    requires WellFormed(g)
    ensures Square(m, |g.keys|)
    ensures forall i, j :: 0 <= i < |g.keys| && 0 <= j < |g.keys| ==>
              m[i][j] == CellText(g, g.keys[i], g.keys[j])
  {
    var n := |g.keys|;
    seq(n, i requires 0 <= i < n =>
      seq(n, j requires 0 <= j < n => CellText(g, g.keys[i], g.keys[j])))
  }

  /** A cell of the initial matrix is `"/"` exactly when the row node's list
      has no entry towards the column node; otherwise it is the sign of such
      an entry, the first one. */
  lemma InitialMatrixCell(g: Graph, i: nat, j: nat)
    requires WellFormed(g) && i < |g.keys| && j < |g.keys|
    ensures var c := InitialMatrix(g)[i][j];
      && ValidSymbol(c)
      && (c == NoRelation <==> forall e :: e in g.adj[g.keys[i]] ==> e.target != g.keys[j])
      && (c != NoRelation ==> exists s :: Entry(g.keys[j], s) in g.adj[g.keys[i]] && c == SignText(s))
  {
    var es := g.adj[g.keys[i]];
    var t := g.keys[j];
    if FirstSign(es, t).Some? {
      var s := FirstSign(es, t).value;
      var k :| 0 <= k < |es| && es[k] == Entry(t, s)
               && forall l :: 0 <= l < k ==> es[l].target != t;
      assert es[k] in es;
    } else {
      forall e | e in es
        ensures e.target != t
      {
        var k :| 0 <= k < |es| && es[k] == e;
      }
    }
  }

  /** Only the row node's own list is searched: a link stored as `A→B`
      leaves the cell `(B, A)` empty. */
  lemma ReverseDirectionNotConsulted()
    ensures var g := Graph(["A", "B"], map["A" := [Entry("B", Plus)], "B" := []]);
      WellFormed(g) && InitialMatrix(g)[0][1] == "+" && InitialMatrix(g)[1][0] == NoRelation
  {
    var g := Graph(["A", "B"], map["A" := [Entry("B", Plus)], "B" := []]);
    assert CellText(g, "A", "B") == "+";
    assert CellText(g, "B", "A") == NoRelation;
  }

  // ---------------------------------------------------------------------------
  // Editing one cell

  /** One keystroke: `value` typed into cell `(row, col)`. */
  datatype Edit = Edit(row: nat, col: nat, value: string)

  /** `handleInputChange` on a matrix snapshot: an empty cell refuses any
      edit; any other cell takes the typed text, unvalidated, and nothing
      else changes. */
  function ApplyEdit(m: Matrix, e: Edit): (r: Result<Matrix>)
    requires e.row < |m| && e.col < |m[e.row]|
    ensures r.Err? <==> m[e.row][e.col] == NoRelation
    ensures r.Err? ==> r.error == ImmutableCell
    ensures r.Ok? ==> |r.value| == |m|
    ensures r.Ok? ==> forall i :: 0 <= i < |m| ==> |r.value[i]| == |m[i]|
    ensures r.Ok? ==> forall i, j :: 0 <= i < |m| && 0 <= j < |m[i]| ==>
              r.value[i][j] == if i == e.row && j == e.col then e.value else m[i][j]
  {
    if m[e.row][e.col] == NoRelation then Err(ImmutableCell)
    else Ok(m[e.row := m[e.row][e.col := e.value]])
  }

  /** The matrix after a series of keystrokes, a refused one leaving it as
      it was. */
  function ApplyEdits(m: Matrix, n: nat, es: seq<Edit>): (r: Matrix)
    requires Square(m, n)
    requires forall k :: 0 <= k < |es| ==> es[k].row < n && es[k].col < n
    ensures Square(r, n)
  {
    if es == [] then m
    else
      var m' := ApplyEdits(m, n, es[..|es| - 1]);
      match ApplyEdit(m', es[|es| - 1])
      case Ok(next) => next
      case Err(_) => m'
  }

  /** However many keystrokes follow, an empty cell stays empty: no edit can
      add a relation. */
  lemma {:induction false} EmptyCellsStayEmpty(m: Matrix, n: nat, es: seq<Edit>, i: nat, j: nat)
    requires Square(m, n)
    requires forall k :: 0 <= k < |es| ==> es[k].row < n && es[k].col < n
    requires i < n && j < n && m[i][j] == NoRelation
    ensures ApplyEdits(m, n, es)[i][j] == NoRelation
    decreases |es|
  {
    if es != [] {
      EmptyCellsStayEmpty(m, n, es[..|es| - 1], i, j);
    }
  }

  /** Typing `"/"` into a `'+'` cell is accepted, so an edit can remove a
      relation. */
  lemma EditCanRemoveRelation()
    ensures ApplyEdit([["+"]], Edit(0, 0, "/")) == Ok([["/"]])
  {
    var m: Matrix := [["+"]];
    assert m[0][0][0] == '+';
    var r := ApplyEdit(m, Edit(0, 0, "/"));
    assert r.Ok?;
    assert |r.value| == 1 && |r.value[0]| == 1 && r.value[0][0] == "/";
    assert r.value[0] == ["/"];
    assert r.value == [["/"]];
  }

  // ---------------------------------------------------------------------------
  // Validation and rebuild on submit

  /** The three texts the submit accepts. */
  predicate ValidSymbol(c: string)
  {
    c == "+" || c == "-" || c == NoRelation
  }

  predicate AllValid(m: Matrix)
  {
    forall i, j :: 0 <= i < |m| && 0 <= j < |m[i]| ==> ValidSymbol(m[i][j])
  }

  /** The sign written in a non-empty cell that passed the check. */
  function SignOf(c: string): (s: Sign)
    ensures c == "+" || c == "-" ==> SignText(s) == c
  {
    if c == "+" then Plus else Minus
  }

  /** The entries of one matrix row over its first `n` columns: column `j`
      gives `[keys[j], cell]` unless the cell is `"/"`. */
  function RowEntries(keys: seq<NodeId>, row: seq<string>, n: nat): seq<Entry>
    requires n <= |row| && n <= |keys|
  {
    if n == 0 then []
    else
      RowEntries(keys, row, n - 1)
      + (if row[n - 1] == NoRelation then [] else [Entry(keys[n - 1], SignOf(row[n - 1]))])
  }

  /** The adjacency map built from the first `n` rows, keyed by `keys`. */
  function AdjOf(keys: seq<NodeId>, m: Matrix, n: nat): (r: map<NodeId, seq<Entry>>)
    requires n <= |keys| && Square(m, |keys|)
    ensures forall i :: 0 <= i < n ==> keys[i] in r
  {
    if n == 0 then map[]
    else AdjOf(keys, m, n - 1)[keys[n - 1] := RowEntries(keys, m[n - 1], |keys|)]
  }

  /** `handleSubmit` up to the request it sends: the matrix is refused as a
      whole when some cell holds other text than `'+'`, `'-'` or `'/'`;
      otherwise it is rebuilt, row by row, into a new graph over the same
      keys. */
  function Commit(keys: seq<NodeId>, m: Matrix): (r: Result<Graph>)
    requires Square(m, |keys|)
    ensures r.Err? ==> r.error == InvalidSymbol
    ensures r.Ok? ==> r.value.keys == keys
    ensures r.Ok? ==> forall k :: k in r.value.adj <==> k in keys
  {
    if AllValid(m) then
      AdjOfKeys(keys, m, |keys|);
      Ok(Graph(keys, AdjOf(keys, m, |keys|)))
    else Err(InvalidSymbol)
  }

  /** Only keys of the first `n` rows are keys of the map they build. */
  lemma {:induction false} AdjOfKeys(keys: seq<NodeId>, m: Matrix, n: nat)
    requires n <= |keys| && Square(m, |keys|)
    ensures forall k :: k in AdjOf(keys, m, n) ==> k in keys[..n]
    decreases n
  {
    if n > 0 {
      AdjOfKeys(keys, m, n - 1);
      assert keys[..n] == keys[..n - 1] + [keys[n - 1]];
    }
  }

  /** The submit is refused exactly when some cell holds another text than
      `'+'`, `'-'` or `'/'`. */
  lemma CommitRefusesIff(keys: seq<NodeId>, m: Matrix)
    requires Square(m, |keys|)
    ensures Commit(keys, m).Err? <==>
              exists i, j :: 0 <= i < |m| && 0 <= j < |m[i]| && !ValidSymbol(m[i][j])
  {
  }

  /** In the map built from the first `n` rows, key `i` holds the entries of
      row `i`. */
  lemma {:induction false} AdjOfRow(keys: seq<NodeId>, m: Matrix, n: nat, i: nat)
    requires Distinct(keys)
    requires n <= |keys| && Square(m, |keys|) && i < n
    ensures AdjOf(keys, m, n)[keys[i]] == RowEntries(keys, m[i], |keys|)
    decreases n
  {
    if i < n - 1 {
      var prev := AdjOf(keys, m, n - 1);
      assert keys[i] != keys[n - 1];
      AdjOfRow(keys, m, n - 1, i);
      assert AdjOf(keys, m, n)[keys[i]] == prev[keys[i]];
    }
  }

  /** An entry of a rebuilt row names the key of a non-empty column and the
      sign written there, and every such column gives one. */
  lemma {:induction false} RowEntriesMembership(keys: seq<NodeId>, row: seq<string>, n: nat, e: Entry)
    requires Distinct(keys)
    requires n <= |row| <= |keys|
    requires forall j :: 0 <= j < |row| ==> ValidSymbol(row[j])
    ensures e in RowEntries(keys, row, n) <==>
              exists j :: 0 <= j < n && keys[j] == e.target && row[j] == SignText(e.sign)
    decreases n
  {
    if n > 0 {
      RowEntriesMembership(keys, row, n - 1, e);
      if keys[n - 1] == e.target && row[n - 1] == SignText(e.sign) {
        assert SignOf(row[n - 1]) == e.sign;
      }
    }
  }

  /** The position of a key. */
  function IndexOf(keys: seq<NodeId>, t: NodeId): (i: nat)
    requires t in keys
    ensures i < |keys| && keys[i] == t
    ensures forall j :: 0 <= j < i ==> keys[j] != t
  {
    if keys[0] == t then 0 else 1 + IndexOf(keys[1..], t)
  }

  /** The targets of a rebuilt row are keys of the first `n` columns, in
      strictly increasing key position, hence each key at most once. */
  lemma {:induction false} RowEntriesOrdered(keys: seq<NodeId>, row: seq<string>, n: nat)
    requires Distinct(keys)
    requires n <= |row| <= |keys|
    ensures forall a :: 0 <= a < |RowEntries(keys, row, n)| ==>
              RowEntries(keys, row, n)[a].target in keys[..n]
    ensures forall a, b :: 0 <= a < b < |RowEntries(keys, row, n)| ==>
              IndexOf(keys, RowEntries(keys, row, n)[a].target)
                < IndexOf(keys, RowEntries(keys, row, n)[b].target)
    decreases n
  {
    if n > 0 {
      RowEntriesOrdered(keys, row, n - 1);
      var r := RowEntries(keys, row, n - 1);
      assert keys[..n] == keys[..n - 1] + [keys[n - 1]];
      forall a | 0 <= a < |r|
        ensures IndexOf(keys, r[a].target) < n - 1
      {
        var k :| 0 <= k < n - 1 && keys[k] == r[a].target;
        assert IndexOf(keys, r[a].target) == k;
      }
      assert IndexOf(keys, keys[n - 1]) == n - 1;
    }
  }

  /** The graph a successful submit builds is a dictionary whose every
      target is a key. */
  lemma CommitIsWellFormed(keys: seq<NodeId>, m: Matrix)
    requires Distinct(keys) && Square(m, |keys|)
    requires Commit(keys, m).Ok?
    ensures WellFormed(Commit(keys, m).value) && Closed(Commit(keys, m).value)
  {
    var g := Commit(keys, m).value;
    assert keys[..|keys|] == keys;
    forall u, e | u in g.adj && e in g.adj[u]
      ensures e.target in g.adj
    {
      var i :| 0 <= i < |keys| && keys[i] == u;
      AdjOfRow(keys, m, |keys|, i);
      RowEntriesMembership(keys, m[i], |keys|, e);
    }
  }

  /** Every cell of the initial matrix passes the submit's check. */
  lemma InitialMatrixValid(g: Graph)
    requires WellFormed(g)
    ensures AllValid(InitialMatrix(g))
  {
    var m := InitialMatrix(g);
    forall i, j | 0 <= i < |m| && 0 <= j < |m[i]|
      ensures ValidSymbol(m[i][j])
    {
      InitialMatrixCell(g, i, j);
    }
  }

  /** A cell shows a sign exactly when that sign is on the first entry
      towards the column node. */
  lemma CellTextShowsFirstSign(g: Graph, row: NodeId, col: NodeId, s: Sign)
    requires row in g.adj
    ensures CellText(g, row, col) == SignText(s) <==> FirstSign(g.adj[row], col) == Some(s)
  {
    assert NoRelation[0] == '/';
    assert SignText(Plus)[0] == '+' && SignText(Minus)[0] == '-';
  }

  /** Submitting the untouched matrix: the rebuilt list of a key holds
      `[t, s]` exactly when `t` is a key and `s` is the sign of the first
      entry of the original list targeting `t`. */
  lemma UneditedRoundTrip(g: Graph, k: NodeId, e: Entry)
    requires WellFormed(g) && k in g.adj
    ensures Commit(g.keys, InitialMatrix(g)).Ok?
    ensures e in Commit(g.keys, InitialMatrix(g)).value.adj[k] <==>
              e.target in g.adj && FirstSign(g.adj[k], e.target) == Some(e.sign)
  {
    var m := InitialMatrix(g);
    var keys := g.keys;
    var n := |keys|;
    InitialMatrixValid(g);
    var i := IndexOf(keys, k);
    AdjOfRow(keys, m, n, i);
    RowEntriesMembership(keys, m[i], n, e);
    if e.target in g.adj {
      var j := IndexOf(keys, e.target);
      CellTextShowsFirstSign(g, k, e.target, e.sign);
      assert m[i][j] == CellText(g, k, e.target);
    }
    if e in Commit(keys, m).value.adj[k] {
      var j :| 0 <= j < n && keys[j] == e.target && m[i][j] == SignText(e.sign);
      CellTextShowsFirstSign(g, k, e.target, e.sign);
    }
  }

  /** When no list names the same target twice, the first entry towards a
      target is the only one. */
  lemma FirstSignOfDistinct(es: seq<Entry>, t: NodeId, s: Sign)
    requires forall a, b :: 0 <= a < b < |es| ==> es[a].target != es[b].target
    ensures FirstSign(es, t) == Some(s) <==> Entry(t, s) in es
  {
    if Entry(t, s) in es {
      var k :| 0 <= k < |es| && es[k] == Entry(t, s);
      assert FirstSign(es, t).Some?;
      var k' :| 0 <= k' < |es| && es[k'] == Entry(t, FirstSign(es, t).value)
                && forall j :: 0 <= j < k' ==> es[j].target != t;
      assert k' == k;
    }
  }

  /** For a graph whose lists name only keys, each at most once, submitting
      the untouched matrix gives every key back exactly its own entries,
      reordered into key order. */
  lemma UneditedRoundTripExact(g: Graph, k: NodeId)
    requires WellFormed(g) && Closed(g) && k in g.adj
    requires forall a, b :: 0 <= a < b < |g.adj[k]| ==> g.adj[k][a].target != g.adj[k][b].target
    ensures Commit(g.keys, InitialMatrix(g)).Ok?
    ensures forall e :: e in Commit(g.keys, InitialMatrix(g)).value.adj[k] <==> e in g.adj[k]
  {
    forall e
      ensures e in Commit(g.keys, InitialMatrix(g)).value.adj[k] <==> e in g.adj[k]
    {
      UneditedRoundTrip(g, k, e);
      FirstSignOfDistinct(g.adj[k], e.target, e.sign);
    }
  }

  // ---------------------------------------------------------------------------
  // The editor's state

  /** The `matrixData` state slot over the keys of the loaded graph. A
      keystroke writes into the shared inner row in place. */
  class Editor {
    const keys: seq<NodeId>
    const cells: array2<string>

    ghost predicate Valid()
    {
      && Distinct(keys)
      && cells.Length0 == |keys| && cells.Length1 == |keys|
    }

    /** The matrix as a value. */
    function Snapshot(): (m: Matrix)
      reads cells
      ensures |m| == cells.Length0
      ensures forall i :: 0 <= i < cells.Length0 ==> |m[i]| == cells.Length1
      ensures forall i, j :: 0 <= i < cells.Length0 && 0 <= j < cells.Length1 ==>
                m[i][j] == cells[i, j]
    {
      seq(cells.Length0, i requires 0 <= i < cells.Length0 reads cells =>
        seq(cells.Length1, j requires 0 <= j < cells.Length1 reads cells => cells[i, j]))
    }

    /** The `useEffect` that loads the graph and sets the initial matrix. */
    constructor (g: Graph)
      requires WellFormed(g)
      ensures Valid() && keys == g.keys
      ensures Snapshot() == InitialMatrix(g)
      ensures fresh(cells)
    {
      keys := g.keys;
      var m := InitialMatrix(g);
      var n := |g.keys|;
      cells := new string[n, n]((i, j) requires 0 <= i < n && 0 <= j < n => m[i][j]);
      new;
      assert forall i :: 0 <= i < n ==> Snapshot()[i] == m[i];
    }

    /** `handleInputChange`: refuses an edit of a `"/"` cell; otherwise
        writes the typed text into that one cell. */
    method HandleInputChange(row: nat, col: nat, value: string) returns (r: Result<()>)
      requires Valid() && row < |keys| && col < |keys|
      modifies cells
      ensures Valid()
      ensures r.Err? <==> ApplyEdit(old(Snapshot()), Edit(row, col, value)).Err?
      ensures Snapshot() == match ApplyEdit(old(Snapshot()), Edit(row, col, value))
                            case Ok(next) => next
                            case Err(_) => old(Snapshot())
    {
      ghost var before := Snapshot();
      var currentValue := cells[row, col];
      if currentValue == NoRelation {
        return Err(ImmutableCell);
      }
      cells[row, col] := value;
      ghost var after := ApplyEdit(before, Edit(row, col, value)).value;
      assert forall i :: 0 <= i < |keys| ==> Snapshot()[i] == after[i];
      return Ok(());
    }

    /** `handleSubmit` up to the request: checks every cell, stopping at the
        first invalid one, then rebuilds the graph row by row. */
    method HandleSubmit() returns (r: Result<Graph>)
      requires Valid()
      ensures r == Commit(keys, Snapshot())
    {
      var ok := CheckCells();
      if !ok {
        return Err(InvalidSymbol);
      }
      var updated := Rebuild();
      return Ok(Graph(keys, updated));
    }

    /** The rebuild loop of `handleSubmit`: one key per row, holding that
        row's entries. */
    method Rebuild() returns (updated: map<NodeId, seq<Entry>>)
      requires Valid()
      ensures updated == AdjOf(keys, Snapshot(), |keys|)
    {
      var n := |keys|;
      ghost var m := Snapshot();
      updated := map[];
      var i := 0;
      while i < n
        invariant 0 <= i <= n
        invariant updated == AdjOf(keys, m, i)
      {
        var node := keys[i];
        var list := RowToEntries(i);
        updated := updated[node := list];
        i := i + 1;
      }
    }

    /** The validation loops of `handleSubmit`: true when every cell is
        `'+'`, `'-'` or `'/'`, false at the first other one. */
    method CheckCells() returns (ok: bool)
      requires Valid()
      ensures ok <==> AllValid(Snapshot())
    {
      var n := |keys|;
      var row := 0;
      while row < n
        invariant 0 <= row <= n
        invariant forall i, j :: 0 <= i < row && 0 <= j < n ==> ValidSymbol(cells[i, j])
      {
        var col := 0;
        while col < n
          invariant 0 <= col <= n
          invariant forall j :: 0 <= j < col ==> ValidSymbol(cells[row, j])
        {
          var cell := cells[row, col];
          if cell != "+" && cell != "-" && cell != NoRelation {
            assert !ValidSymbol(Snapshot()[row][col]);
            return false;
          }
          col := col + 1;
        }
        row := row + 1;
      }
      return true;
    }

    /** The inner `forEach` of the rebuild: the entries of row `i`. */
    method RowToEntries(i: nat) returns (list: seq<Entry>)
      requires Valid() && i < |keys|
      ensures list == RowEntries(keys, Snapshot()[i], |keys|)
    {
      var n := |keys|;
      list := [];
      var j := 0;
      while j < n
        invariant 0 <= j <= n
        invariant list == RowEntries(keys, Snapshot()[i], j)
      {
        var value := cells[i, j];
        var targetNode := keys[j];
        if value != NoRelation {
          list := list + [Entry(targetNode, SignOf(value))];
        }
        j := j + 1;
      }
    }
  }

  /** Example: in the graph A→B '+', B→C '-', editing cell (A, C) is
      refused and the matrix is unchanged. */
  lemma EmptyCellEditRefused()
    ensures var g := Graph(["A", "B", "C"], map["A" := [Entry("B", Plus)], "B" := [Entry("C", Minus)], "C" := []]);
      WellFormed(g) && ApplyEdit(InitialMatrix(g), Edit(0, 2, "+")) == Err(ImmutableCell)
  {
    var g := Graph(["A", "B", "C"], map["A" := [Entry("B", Plus)], "B" := [Entry("C", Minus)], "C" := []]);
    assert "B" != "C" by { assert "B"[0] != "C"[0]; }
    assert "A" != "B" && "A" != "C" by { assert "A"[0] != "B"[0] && "A"[0] != "C"[0]; }
    assert WellFormed(g);
    assert CellText(g, "A", "C") == NoRelation;
    assert InitialMatrix(g)[0][2] == NoRelation;
  }
}
