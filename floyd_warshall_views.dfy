/**
 * The entry point `floyd_warshall(graph, type)` and its nested
 * `floyd_warshall_to_dict`, which turns the finished distance matrix into one of
 * two dictionaries: one keyed by node letters ('A', 'B', ...) and one keyed by
 * matrix coordinates, whose entries chain two consecutive finite steps.
 */
module FloydWarshallViews {
  import opened Graphs
  import opened FloydWarshall

  /** The largest node count whose letters `chr(65 + i)` are all Unicode scalar values. */
  const MaxLetters: nat := 0xD800 - 65

  /** The name of node i: the one-character string `chr(ord('A') + i)`. */
  function Letter(i: nat): (s: string)
    requires i < MaxLetters
    ensures |s| == 1 && s[0] as int == 65 + i
  {
    [(65 + i) as char]
  }

  /** The letters view as the inner loop leaves row i after its first j columns. */
  function LettersRow(m: Matrix, i: nat, j: nat): map<string, int>
    requires Square(m, |m|) && i < |m| && j <= |m| <= MaxLetters
  {
    if j == 0 then map[]
    else
      var r := LettersRow(m, i, j - 1);
      if m[i][j - 1].Fin? then r[Letter(j - 1) := m[i][j - 1].v] else r
  }

  /** The letters view after the first i rows. */
  function Letters(m: Matrix, i: nat): map<string, map<string, int>>
    requires Square(m, |m|) && i <= |m| <= MaxLetters
  {
    if i == 0 then map[] else Letters(m, i - 1)[Letter(i - 1) := LettersRow(m, i - 1, |m|)]
  }

  /** Row i holds, under the letter of each of the first j columns, exactly the finite entries there. */
  lemma {:induction false} LettersRowMeaning(m: Matrix, i: nat, j: nat)
    requires Square(m, |m|) && i < |m| && j <= |m| <= MaxLetters
    ensures forall b :: 0 <= b < |m| ==> (Letter(b) in LettersRow(m, i, j) <==> b < j && m[i][b].Fin?)
    ensures forall b :: 0 <= b < |m| && Letter(b) in LettersRow(m, i, j) ==> LettersRow(m, i, j)[Letter(b)] == m[i][b].v
    ensures forall s :: s in LettersRow(m, i, j) ==> |s| == 1 && 65 <= s[0] as int < 65 + j
  {
    if j > 0 {
      LettersRowMeaning(m, i, j - 1);
    }
  }

  /** The view has a key for each of the first i rows, even one with no finite entry, and nothing else. */
  lemma {:induction false} LettersMeaning(m: Matrix, i: nat)
    requires Square(m, |m|) && i <= |m| <= MaxLetters
    ensures forall a :: 0 <= a < |m| ==> (Letter(a) in Letters(m, i) <==> a < i)
    ensures forall a :: 0 <= a < i ==> Letters(m, i)[Letter(a)] == LettersRow(m, a, |m|)
    ensures forall s :: s in Letters(m, i) ==> |s| == 1 && 65 <= s[0] as int < 65 + i
  {
    if i > 0 {
      LettersMeaning(m, i - 1);
    }
  }

  /** Reading the letters view back gives the whole matrix: a missing key is `Inf`. */
  lemma LettersRoundTrip(m: Matrix)
    requires Square(m, |m|) && |m| <= MaxLetters
    ensures forall i, j :: 0 <= i < |m| && 0 <= j < |m| ==>
      Letter(i) in Letters(m, |m|) &&
      m[i][j] == (if Letter(j) in Letters(m, |m|)[Letter(i)] then Fin(Letters(m, |m|)[Letter(i)][Letter(j)]) else Inf)
  {
    LettersMeaning(m, |m|);
    forall i | 0 <= i < |m| {
      LettersRowMeaning(m, i, |m|);
    }
  }

  /** The source's double loop that fills the letters dictionary row by row. */
  method LettersView(m: Matrix) returns (graph: map<string, map<string, int>>)
    requires Square(m, |m|) && |m| <= MaxLetters
    ensures graph == Letters(m, |m|)
  {
    var n := |m|;
    graph := map[];
    for i := 0 to n
      invariant graph == Letters(m, i)
    {
      var row: map<string, int> := map[];
      for j := 0 to n
        invariant row == LettersRow(m, i, j)
      {
        if m[i][j].Fin? {
          row := row[Letter(j) := m[i][j].v];
        }
      }
      graph := graph[Letter(i) := row];
    }
  }

  /** The continuations of cell (i, j) after the first k columns of row j. */
  function CoordsEntries(m: Matrix, i: nat, j: nat, k: nat): map<(nat, nat), int>
    requires Square(m, |m|) && i < |m| && j < |m| && k <= |m| && m[i][j].Fin?
  {
    if k == 0 then map[]
    else
      var r := CoordsEntries(m, i, j, k - 1);
      if k - 1 != j && m[j][k - 1].Fin? then r[(j, k - 1) := m[i][j].v + m[j][k - 1].v] else r
  }

  /** The coordinates view after every cell before (i, j) in row-major order. */
  function Coords(m: Matrix, i: nat, j: nat): map<(nat, nat), map<(nat, nat), int>>
    requires Square(m, |m|) && i <= |m| && j <= |m| && (i == |m| ==> j == 0)
    decreases i, j
  {
    if j == 0 then
      if i == 0 then map[] else Coords(m, i - 1, |m|)
    else
      var r := Coords(m, i, j - 1);
      if m[i][j - 1].Fin? then r[(i, j - 1) := CoordsEntries(m, i, j - 1, |m|)] else r
  }

  /** Cell (i, j) continues to each finite (j, k') with k' != j among the first k columns, weighted by the two-step sum. */
  lemma {:induction false} CoordsEntriesMeaning(m: Matrix, i: nat, j: nat, k: nat)
    requires Square(m, |m|) && i < |m| && j < |m| && k <= |m| && m[i][j].Fin?
    ensures forall c :: c in CoordsEntries(m, i, j, k) <==> c.0 == j && c.1 < k && c.1 != j && m[j][c.1].Fin?
    ensures forall c :: c in CoordsEntries(m, i, j, k) ==> CoordsEntries(m, i, j, k)[c] == m[i][j].v + m[j][c.1].v
  {
    if k > 0 {
      CoordsEntriesMeaning(m, i, j, k - 1);
    }
  }

  /** The view has a key for each finite cell before (i, j) and nothing else. */
  lemma {:induction false} CoordsKeys(m: Matrix, i: nat, j: nat)
    requires Square(m, |m|) && i <= |m| && j <= |m| && (i == |m| ==> j == 0)
    ensures forall c :: c in Coords(m, i, j) <==> c.0 < |m| && c.1 < |m| && (c.0 < i || (c.0 == i && c.1 < j)) && m[c.0][c.1].Fin?
    ensures forall c :: c in Coords(m, i, j) ==> Coords(m, i, j)[c] == CoordsEntries(m, c.0, c.1, |m|)
    decreases i, j
  {
    if j == 0 {
      if i > 0 {
        CoordsKeys(m, i - 1, |m|);
      }
    } else {
      CoordsKeys(m, i, j - 1);
    }
  }

  /** Every coordinate key is a finite cell and every entry chains two finite steps through its column. */
  lemma CoordsMeaning(m: Matrix)
    requires Square(m, |m|)
    ensures forall i, j :: 0 <= i < |m| && 0 <= j < |m| ==> ((i, j) in Coords(m, |m|, 0) <==> m[i][j].Fin?)
    ensures forall i, j, k :: 0 <= i < |m| && 0 <= j < |m| && 0 <= k < |m| && (i, j) in Coords(m, |m|, 0) ==>
      ((j, k) in Coords(m, |m|, 0)[(i, j)] <==> k != j && m[j][k].Fin?)
    ensures forall i, j, k ::
      0 <= i < |m| && 0 <= j < |m| && 0 <= k < |m| && (i, j) in Coords(m, |m|, 0) && (j, k) in Coords(m, |m|, 0)[(i, j)]
      ==> Coords(m, |m|, 0)[(i, j)][(j, k)] == m[i][j].v + m[j][k].v
    ensures forall c :: c in Coords(m, |m|, 0) ==> c.0 < |m| && c.1 < |m|
  {
    CoordsKeys(m, |m|, 0);
    forall i, j | 0 <= i < |m| && 0 <= j < |m| && m[i][j].Fin? {
      CoordsEntriesMeaning(m, i, j, |m|);
    }
  }

  /** The source's triple loop that fills the coordinates dictionary. */
  method CoordsView(m: Matrix) returns (graph: map<(nat, nat), map<(nat, nat), int>>)
    requires Square(m, |m|)
    ensures graph == Coords(m, |m|, 0)
  {
    var n := |m|;
    graph := map[];
    for i := 0 to n
      invariant graph == Coords(m, i, 0)
    {
      for j := 0 to n
        invariant graph == Coords(m, i, j)
      {
        if m[i][j].Fin? {
          var entries: map<(nat, nat), int> := map[];
          for k := 0 to n
            invariant entries == CoordsEntries(m, i, j, k)
          {
            if k != j && m[j][k].Fin? {
              entries := entries[(j, k) := m[i][j].v + m[j][k].v];
            }
          }
          graph := graph[(i, j) := entries];
        }
      }
    }
  }

  /** What `floyd_warshall` returns: the matrix, one of its two views, or the message for an unknown type. */
  datatype Outcome =
    | MatrixResult(matrix: Matrix)
    | LettersResult(letters: map<string, map<string, int>>)
    | CoordsResult(coords: map<(nat, nat), map<(nat, nat), int>>)
    | NotAllowed(message: string)

  predicate KnownKind(kind: string)
  {
    kind == "matrix" || kind == "letters" || kind == "coords"
  }

  /**
   * The entry point. An unknown `type` is reported before the matrix is looked at;
   * otherwise the distances are computed and returned in the requested form.
   */
  method FloydWarshallEntry(graph: Matrix, kind: string) returns (result: Outcome)
    requires KnownKind(kind) ==> WellFormed(graph)
    requires kind == "letters" ==> |graph| <= MaxLetters
    ensures !KnownKind(kind) <==> result.NotAllowed?
    ensures !KnownKind(kind) ==> result.message == "type not allowed: " + kind + "; matrix, letters, coords"
    ensures kind == "matrix" <==> result.MatrixResult?
    ensures kind == "letters" <==> result.LettersResult?
    ensures kind == "coords" <==> result.CoordsResult?
    ensures result.MatrixResult? ==> Computed(graph, result.matrix)
    ensures result.LettersResult? ==> exists m :: Computed(graph, m) && result.letters == Letters(m, |m|)
    ensures result.CoordsResult? ==> exists m :: Computed(graph, m) && result.coords == Coords(m, |m|, 0)
  {
    if !KnownKind(kind) {
      return NotAllowed("type not allowed: " + kind + "; matrix, letters, coords");
    }
    var dist := FloydWarshallMatrix(graph);
    if kind == "matrix" {
      result := MatrixResult(dist);
    } else if kind == "letters" {
      var letters := LettersView(dist);
      result := LettersResult(letters);
    } else {
      var coords := CoordsView(dist);
      result := CoordsResult(coords);
    }
  }
}
