/**
 * `filter_maze_passages` from maze_methods.py: the step that turns a generated
 * maze, in which a closed passage is an adjacency entry of weight 100, into the
 * graph the searches run on.
 */
module MazeMethods {
  import opened Graphs

  /** The weight a generated maze gives to a wall between two cells. */
  const WALL: int := 100

  /** The entries of one cell's adjacency map that are not walls, weights unchanged. */
  function OpenAdjacents<N(!new)>(adjacents: map<N, int>): (r: map<N, int>)
    ensures forall a :: a in r <==> a in adjacents && adjacents[a] != WALL
    ensures forall a :: a in r ==> r[a] == adjacents[a]
  {
    map a | a in adjacents && adjacents[a] != WALL :: adjacents[a]
  }

  /**
   * The filtered maze: a cell is kept exactly when some adjacency entry of it is
   * not a wall, and it keeps exactly those entries.
   */
  function OpenPassages<N(!new)>(maze: Graph<N>): (r: Graph<N>)
    ensures forall c :: c in r <==> c in maze && exists a :: a in maze[c] && maze[c][a] != WALL
    ensures forall c, a :: c in r && a in r[c] <==> c in maze && a in maze[c] && maze[c][a] != WALL
    ensures forall c, a :: c in r && a in r[c] ==> r[c][a] == maze[c][a]
  {
    var r := map c | c in maze && OpenAdjacents(maze[c]) != map[] :: OpenAdjacents(maze[c]);
    assert forall c :: c in maze && (exists a :: a in maze[c] && maze[c][a] != WALL) ==> c in r by {
      forall c | c in maze && (exists a :: a in maze[c] && maze[c][a] != WALL) ensures c in r {
        var a :| a in maze[c] && maze[c][a] != WALL;
        assert a in OpenAdjacents(maze[c]);
      }
    }
    r
  }

  /** Every key of the filtered maze is a cell of the maze and every entry an entry of it. */
  lemma OpenPassagesIsSubMap<N(!new)>(maze: Graph<N>)
    ensures OpenPassages(maze).Keys <= maze.Keys
    ensures forall c :: c in OpenPassages(maze) ==>
      OpenPassages(maze)[c].Keys <= maze[c].Keys &&
      forall a :: a in OpenPassages(maze)[c] ==> OpenPassages(maze)[c][a] == maze[c][a]
  {
  }

  /** Filtering an already filtered maze changes nothing: no wall entry and no closed cell survives. */
  lemma {:induction false} OpenPassagesIdempotent<N(!new)>(maze: Graph<N>)
    ensures OpenPassages(OpenPassages(maze)) == OpenPassages(maze)
  {
    var once := OpenPassages(maze);
    var twice := OpenPassages(once);
    forall c | c in once ensures c in twice && twice[c] == once[c] {
      var a :| a in maze[c] && maze[c][a] != WALL;
      assert a in once[c];
      assert once[c][a] != WALL;
      assert c in twice;
      assert OpenAdjacents(once[c]) == once[c];
    }
    assert twice.Keys == once.Keys;
  }

  /**
   * The source's outer loop: one pass over the cells, keeping a cell with its
   * open entries only when it has some. The input is never changed.
   */
  method FilterMazePassages<N(!new)>(maze: Graph<N>) returns (passages: Graph<N>)
    ensures passages == OpenPassages(maze)
  {
    passages := map[];
    var cells := maze.Keys;
    while cells != {}
      invariant cells <= maze.Keys
      invariant passages ==
        map c | c in maze && c !in cells && OpenAdjacents(maze[c]) != map[] :: OpenAdjacents(maze[c])
      decreases cells
    {
      var cell :| cell in cells;
      var openAdjacents := FilterAdjacents(maze[cell]);
      if openAdjacents != map[] {
        passages := passages[cell := openAdjacents];
      }
      cells := cells - {cell};
    }
  }

  /** The source's inner loop: the non-wall entries of one cell's adjacency map, copied into a fresh map. */
  method FilterAdjacents<N(!new)>(adjacents: map<N, int>) returns (openAdjacents: map<N, int>)
    ensures openAdjacents == OpenAdjacents(adjacents)
  {
    openAdjacents := map[];
    var rest := adjacents.Keys;
    while rest != {}
      invariant rest <= adjacents.Keys
      invariant openAdjacents ==
        map a | a in adjacents && a !in rest && adjacents[a] != WALL :: adjacents[a]
      decreases rest
    {
      var adj :| adj in rest;
      if adjacents[adj] != WALL {
        openAdjacents := openAdjacents[adj := adjacents[adj]];
      }
      rest := rest - {adj};
    }
  }
}
