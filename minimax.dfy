/** `minimaxAI.MAX` and `minimaxAI.MIN`: depth-bounded mutual recursion that
    deep-copies the environment, simulates each legal move on the copy and folds
    the children's values into a running `value`.

    The `connect4` class is not part of this model, so `env.gameOver()` and the
    static evaluation are the parameters `gameOver` and `evaluate` of a Game.
    The source's MIN folds with `max`; `variant` selects that reading (AsWritten)
    or the evidently intended `min` (Intended), with one definition of the search. */
module Minimax {
  import opened Scores
  import opened LegalMoves
  import opened Board

  datatype Side = MaxNode | MinNode

  /** How a MIN node combines its running value with a child's value. */
  datatype Variant = AsWritten | Intended

  datatype Game = Game(gameOver: Position -> bool, evaluate: Position -> int, variant: Variant)

  function Opponent(side: Side): Side
  {
    if side == MaxNode then MinNode else MaxNode
  }

  /** The value a node returns on game over, and the value its fold starts from:
      `-np.inf` for MAX, `np.inf` for MIN. */
  function Initial(side: Side): Score
  {
    if side == MaxNode then NegInf else PosInf
  }

  /** The node takes the larger of its running value and each child's value:
      every MAX node, and MIN nodes as written. */
  predicate FoldsWithMax(g: Game, side: Side)
  {
    side == MaxNode || g.variant == AsWritten
  }

  /** `value = max(value, child)` at MAX nodes; at MIN nodes `max` as written, `min` as intended. */
  function Combine(g: Game, side: Side, acc: Score, child: Score): (r: Score)
    ensures r == acc || r == child
    ensures FoldsWithMax(g, side) ==> Le(acc, r) && Le(child, r)
    ensures !FoldsWithMax(g, side) ==> Le(r, acc) && Le(r, child)
  {
    if FoldsWithMax(g, side) then Scores.Max(acc, child) else Scores.Min(acc, child)
  }

  /** The value of a node: game over first, then the depth-0 evaluation, then the
      fold over the children of the legal columns, left to right. MIN as written
      starts at `+inf` and only moves up, so below depth 1 it can return nothing else. */
  function Value(g: Game, p: Position, depth: nat, side: Side): (r: Score)
    requires WellFormed(p)
    ensures side == MinNode && g.variant == AsWritten && depth >= 1 ==> r == PosInf
    decreases depth, 2, 0
  {
    if g.gameOver(p) then Initial(side)
    else if depth == 0 then Fin(g.evaluate(p))
    else Fold(g, p, LegalColumns(p.top), 0, depth - 1, side, Initial(side))
  }

  /** The value of the child that `column` leads to, searched by the other side. */
  function ChildValue(g: Game, p: Position, column: nat, d: nat, side: Side): Score
    requires WellFormed(p) && IsLegal(p.top, column)
    decreases d, 3, 0
  {
    Value(g, Child(p, column), d, Opponent(side))
  }

  /** All of `cols` are legal columns of `p`. */
  predicate AllLegal(p: Position, cols: seq<nat>)
  {
    forall k :: 0 <= k < |cols| ==> IsLegal(p.top, cols[k])
  }

  /** The loop `for column in indices: value = combine(value, child value)`,
      from position `i` of `cols` on with running value `acc`. The running value only
      rises where the node folds with `max` and only falls where it folds with `min`. */
  function Fold(g: Game, p: Position, cols: seq<nat>, i: nat, d: nat, side: Side, acc: Score): (r: Score)
    requires WellFormed(p) && AllLegal(p, cols) && i <= |cols|
    ensures FoldsWithMax(g, side) ==> Le(acc, r)
    ensures !FoldsWithMax(g, side) ==> Le(r, acc)
    decreases d + 1, 1, |cols| - i
  {
    if i == |cols| then acc
    else Fold(g, p, cols, i + 1, d, side, Combine(g, side, acc, ChildValue(g, p, cols[i], d, side)))
  }

  /** A fold with `max` ends at an upper bound of its start and of every remaining
      child's value, equal to the start or to one of them. */
  lemma {:induction false} FoldMaxBounds(g: Game, p: Position, cols: seq<nat>, i: nat, d: nat, side: Side, acc: Score)
    requires WellFormed(p) && AllLegal(p, cols) && i <= |cols| && FoldsWithMax(g, side)
    ensures Le(acc, Fold(g, p, cols, i, d, side, acc))
    ensures forall k :: i <= k < |cols| ==> Le(ChildValue(g, p, cols[k], d, side), Fold(g, p, cols, i, d, side, acc))
    ensures Fold(g, p, cols, i, d, side, acc) == acc ||
            exists k :: i <= k < |cols| && Fold(g, p, cols, i, d, side, acc) == ChildValue(g, p, cols[k], d, side)
    decreases |cols| - i
  {
    if i < |cols| {
      var next := Combine(g, side, acc, ChildValue(g, p, cols[i], d, side));
      FoldMaxBounds(g, p, cols, i + 1, d, side, next);
      var r := Fold(g, p, cols, i, d, side, acc);
      LeTransitive(acc, next, r);
      LeTransitive(ChildValue(g, p, cols[i], d, side), next, r);
    }
  }

  /** A fold with `min` ends at a lower bound of its start and of every remaining
      child's value, equal to the start or to one of them. */
  lemma {:induction false} FoldMinBounds(g: Game, p: Position, cols: seq<nat>, i: nat, d: nat, acc: Score)
    requires WellFormed(p) && AllLegal(p, cols) && i <= |cols| && g.variant == Intended
    ensures Le(Fold(g, p, cols, i, d, MinNode, acc), acc)
    ensures forall k :: i <= k < |cols| ==> Le(Fold(g, p, cols, i, d, MinNode, acc), ChildValue(g, p, cols[k], d, MinNode))
    ensures Fold(g, p, cols, i, d, MinNode, acc) == acc ||
            exists k :: i <= k < |cols| && Fold(g, p, cols, i, d, MinNode, acc) == ChildValue(g, p, cols[k], d, MinNode)
    decreases |cols| - i
  {
    if i < |cols| {
      var next := Combine(g, MinNode, acc, ChildValue(g, p, cols[i], d, MinNode));
      FoldMinBounds(g, p, cols, i + 1, d, next);
      var r := Fold(g, p, cols, i, d, MinNode, acc);
      LeTransitive(r, next, acc);
      LeTransitive(r, next, ChildValue(g, p, cols[i], d, MinNode));
    }
  }

  /** Game over is tested before the depth: on game over MAX returns `-inf` and MIN
      `+inf` at every depth; otherwise at depth 0 both return the evaluation. */
  lemma LeafValues(g: Game, p: Position, depth: nat, side: Side)
    requires WellFormed(p)
    ensures g.gameOver(p) ==> Value(g, p, depth, MaxNode) == NegInf && Value(g, p, depth, MinNode) == PosInf
    ensures !g.gameOver(p) ==> Value(g, p, 0, side) == Fin(g.evaluate(p))
  {
  }

  /** A non-terminal MAX node with depth at least 1 returns the largest value of
      MIN over the children of the legal columns, and `-inf` when there are none. */
  lemma MaxNodeIsMaximum(g: Game, p: Position, depth: nat)
    requires WellFormed(p) && !g.gameOver(p) && depth >= 1
    ensures LegalColumns(p.top) == [] ==> Value(g, p, depth, MaxNode) == NegInf
    ensures forall c :: IsLegal(p.top, c) ==> Le(ChildValue(g, p, c, depth - 1, MaxNode), Value(g, p, depth, MaxNode))
    ensures LegalColumns(p.top) != [] ==>
              exists c :: IsLegal(p.top, c) && Value(g, p, depth, MaxNode) == ChildValue(g, p, c, depth - 1, MaxNode)
  {
    var cols := LegalColumns(p.top);
    var r := Value(g, p, depth, MaxNode);
    FoldMaxBounds(g, p, cols, 0, depth - 1, MaxNode, NegInf);
    forall c | IsLegal(p.top, c)
      ensures Le(ChildValue(g, p, c, depth - 1, MaxNode), r)
    {
      LegalColumnsMembership(p.top, c);
      var k :| 0 <= k < |cols| && cols[k] == c;
    }
    if cols != [] && r == NegInf {
      assert Le(ChildValue(g, p, cols[0], depth - 1, MaxNode), r);
    }
  }

  /** With MIN as written, a non-terminal MAX node with depth at least 2 returns
      `+inf` as soon as one column is legal (the player's own search uses depth 2). */
  lemma MaxNodeAsWrittenAtDepthTwo(g: Game, p: Position, depth: nat)
    requires WellFormed(p) && g.variant == AsWritten && !g.gameOver(p) && depth >= 2
    ensures Value(g, p, depth, MaxNode) == if LegalColumns(p.top) == [] then NegInf else PosInf
  {
    MaxNodeIsMaximum(g, p, depth);
    if LegalColumns(p.top) != [] {
      var c :| IsLegal(p.top, c) && Value(g, p, depth, MaxNode) == ChildValue(g, p, c, depth - 1, MaxNode);
    }
  }

  /** MIN with `min`, as intended: a non-terminal node with depth at least 1 returns
      the smallest value of MAX over its children, and `+inf` when there are none. */
  lemma MinNodeIntendedIsMinimum(g: Game, p: Position, depth: nat)
    requires WellFormed(p) && g.variant == Intended && !g.gameOver(p) && depth >= 1
    ensures LegalColumns(p.top) == [] ==> Value(g, p, depth, MinNode) == PosInf
    ensures forall c :: IsLegal(p.top, c) ==> Le(Value(g, p, depth, MinNode), ChildValue(g, p, c, depth - 1, MinNode))
    ensures LegalColumns(p.top) != [] ==>
              exists c :: IsLegal(p.top, c) && Value(g, p, depth, MinNode) == ChildValue(g, p, c, depth - 1, MinNode)
  {
    var cols := LegalColumns(p.top);
    var r := Value(g, p, depth, MinNode);
    FoldMinBounds(g, p, cols, 0, depth - 1, PosInf);
    forall c | IsLegal(p.top, c)
      ensures Le(r, ChildValue(g, p, c, depth - 1, MinNode))
    {
      LegalColumnsMembership(p.top, c);
      var k :| 0 <= k < |cols| && cols[k] == c;
    }
    if cols != [] && r == PosInf {
      assert Le(r, ChildValue(g, p, cols[0], depth - 1, MinNode));
    }
  }

  /** One input that shows the difference: a one-cell board, no game over and an
      evaluation of 0. MIN at depth 1 returns `+inf` as written, 0 as intended. */
  lemma MinAsWrittenIgnoresChildren()
    ensures var p := Position([[0]], [0], 1);
            Value(Game(_ => false, _ => 0, AsWritten), p, 1, MinNode) == PosInf &&
            Value(Game(_ => false, _ => 0, Intended), p, 1, MinNode) == Fin(0)
  {
  }

  /** A deep copy of `env` with `column` simulated on it: the child position. */
  method Expand(env: Env, column: nat) returns (envCopy: Env)
    requires env.Valid() && IsLegal(env.top[..], column)
    ensures fresh(envCopy) && envCopy.Valid()
    ensures envCopy.Snapshot() == Child(env.Snapshot(), column)
  {
    envCopy := env.Clone();
    envCopy.SimulateMove(column);
  }

  /** `minimaxAI.MAX` on a live environment. Each child is a deep copy with the
      move simulated on it, so `env` itself is never modified (no `modifies` clause). */
  method Max(g: Game, env: Env, depth: nat) returns (v: Score)
    requires env.Valid()
    ensures v == Value(g, env.Snapshot(), depth, MaxNode)
    decreases depth
  {
    var p := env.Snapshot();
    if g.gameOver(p) {
      return NegInf;
    }
    if depth == 0 {
      return Fin(g.evaluate(p));
    }
    var d: nat := depth - 1;
    var indices := CollectLegal(env.top);
    var value := NegInf;
    var i := 0;
    while i < |indices|
      invariant 0 <= i <= |indices|
      invariant env.Snapshot() == p
      invariant Fold(g, p, indices, i, d, MaxNode, value) == Fold(g, p, indices, 0, d, MaxNode, NegInf)
    {
      var column := indices[i];
      var envCopy := Expand(env, column);
      ghost var q := envCopy.Snapshot();
      var child := Min(g, envCopy, d);
      assert envCopy.Snapshot() == q;
      assert child == ChildValue(g, p, column, d, MaxNode);
      value := Scores.Max(value, child);
      i := i + 1;
    }
    return value;
  }

  /** `minimaxAI.MIN` on a live environment, likewise without modifying `env`; its
      running value is combined with `max` as written, `min` as intended. */
  method Min(g: Game, env: Env, depth: nat) returns (v: Score)
    requires env.Valid()
    ensures v == Value(g, env.Snapshot(), depth, MinNode)
    decreases depth
  {
    var p := env.Snapshot();
    if g.gameOver(p) {
      return PosInf;
    }
    if depth == 0 {
      return Fin(g.evaluate(p));
    }
    var d: nat := depth - 1;
    var indices := CollectLegal(env.top);
    var value := PosInf;
    var i := 0;
    while i < |indices|
      invariant 0 <= i <= |indices|
      invariant env.Snapshot() == p
      invariant Fold(g, p, indices, i, d, MinNode, value) == Fold(g, p, indices, 0, d, MinNode, PosInf)
    {
      var column := indices[i];
      var envCopy := Expand(env, column);
      ghost var q := envCopy.Snapshot();
      var child := Max(g, envCopy, d);
      assert envCopy.Snapshot() == q;
      assert child == ChildValue(g, p, column, d, MinNode);
      value := Combine(g, MinNode, value, child);
      i := i + 1;
    }
    return value;
  }
}
