/** The part of the game state the minimax player touches: the board indexed
    `board[column][row]`, the per-column `topPosition` and the player to move.
    The `connect4` class that owns them is not part of this model. */
module Board {
  import opened LegalMoves

  /** A board state as a value: `cells[c][r]` is the token in column `c`, row `r`. */
  datatype Position = Position(cells: seq<seq<int>>, top: seq<int>, turn: int)

  /** One cell per column and row, and no top position past the last row. */
  ghost predicate WellFormed(p: Position)
  {
    |p.cells| == |p.top| &&
    forall c :: 0 <= c < |p.top| ==> p.top[c] < |p.cells[c]|
  }

  /** The board after `simulateMove` on a legal column: the player to move's token
      in cell (column, topPosition[column]). `topPosition` and the player to move
      are left as they were, as the source leaves them. */
  function Child(p: Position, column: nat): (q: Position)
    requires WellFormed(p) && IsLegal(p.top, column)
    ensures WellFormed(q) && q.top == p.top && q.turn == p.turn
  {
    var col := p.cells[column];
    p.(cells := p.cells[column := col[p.top[column] := p.turn]])
  }

  /** The child differs from its parent in exactly one cell, which holds the player to move. */
  lemma ChildChangesOneCell(p: Position, column: nat)
    requires WellFormed(p) && IsLegal(p.top, column)
    ensures var q := Child(p, column);
      |q.cells| == |p.cells| &&
      (forall c :: 0 <= c < |p.cells| ==> |q.cells[c]| == |p.cells[c]|) &&
      q.cells[column][p.top[column]] == p.turn &&
      forall c, r :: 0 <= c < |p.cells| && 0 <= r < |p.cells[c]| && (c, r) != (column, p.top[column]) ==>
        q.cells[c][r] == p.cells[c][r]
  {
  }

  /** numpy's reading of a row index `t` on an axis of length `n`: negative indices count from the end. */
  function RowIndex(t: int, n: nat): (r: int)
    requires -(n as int) <= t < n
    ensures 0 <= r < n
    ensures t >= 0 ==> r == t
    ensures t < 0 ==> r == n + t
  {
    if t < 0 then n + t else t
  }

  /** The contents of a two-dimensional array as nested sequences. */
  function Grid(a: array2<int>): (g: seq<seq<int>>)
    reads a
    ensures |g| == a.Length0
    ensures forall c :: 0 <= c < a.Length0 ==> |g[c]| == a.Length1
    ensures forall c, r :: 0 <= c < a.Length0 && 0 <= r < a.Length1 ==> g[c][r] == a[c, r]
  {
    seq(a.Length0, c requires 0 <= c < a.Length0 reads a =>
      seq(a.Length1, r requires 0 <= r < a.Length1 reads a => a[c, r]))
  }

  /** The mutable environment `env` the minimax player receives and deep-copies. */
  class Env {
    var board: array2<int>
    var top: array<int>
    var turnPlayer: int

    ghost predicate Valid()
      reads this, top
    {
      board.Length0 == top.Length &&
      forall c :: 0 <= c < top.Length ==> top[c] < board.Length1
    }

    /** The value of the environment as a Position. */
    function Snapshot(): (p: Position)
      reads this, board, top
      ensures Valid() ==> WellFormed(p)
    {
      Position(Grid(board), top[..], turnPlayer)
    }

    constructor (cells: array2<int>, tops: array<int>, turn: int)
      requires cells.Length0 == tops.Length
      requires forall c :: 0 <= c < tops.Length ==> tops[c] < cells.Length1
      ensures Valid()
      ensures board == cells && top == tops && turnPlayer == turn
    {
      board, top, turnPlayer := cells, tops, turn;
    }

    /** `minimaxAI.simulateMove`: write the player to move's token into
        `board[column][topPosition[column]]` (a negative top position wraps as in numpy);
        nothing else changes, `topPosition` included. */
    method SimulateMove(column: nat)
      requires Valid() && column < top.Length
      requires -(board.Length1 as int) <= top[column]
      modifies board
      ensures Valid()
      ensures forall c, r :: 0 <= c < board.Length0 && 0 <= r < board.Length1 ==>
                board[c, r] == if c == column && r == RowIndex(top[column], board.Length1)
                               then turnPlayer else old(board[c, r])
      ensures top[..] == old(top[..])
      ensures old(top[column]) >= 0 ==> Snapshot() == Child(old(Snapshot()), column)
    {
      ghost var before := Snapshot();
      var row := RowIndex(top[column], board.Length1);
      board[column, row] := turnPlayer;
      if top[column] >= 0 {
        var after := Snapshot();
        var expected := Child(before, column);
        assert |after.cells| == |expected.cells|;
        forall c | 0 <= c < |after.cells|
          ensures after.cells[c] == expected.cells[c]
        {
        }
      }
    }

    /** `copy.deepcopy(env)`: a fresh environment with fresh arrays holding the same value. */
    method Clone() returns (e: Env)
      requires Valid()
      ensures fresh(e) && fresh(e.board) && fresh(e.top)
      ensures e.Valid() && e.Snapshot() == Snapshot()
    {
      var src := board;
      var cells := new int[src.Length0, src.Length1]((c, r)
        requires 0 <= c < src.Length0 && 0 <= r < src.Length1 reads src => src[c, r]);
      var tops := top;
      var newTops := new int[tops.Length](c requires 0 <= c < tops.Length reads tops => tops[c]);
      e := new Env(cells, newTops, turnPlayer);
      assert e.top[..] == top[..];
      assert |Grid(e.board)| == |Grid(board)|;
      forall c | 0 <= c < board.Length0
        ensures Grid(e.board)[c] == Grid(board)[c]
      {
      }
    }
  }
}
