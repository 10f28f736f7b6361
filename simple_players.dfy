/** The three players of players.py that need no search: `humanConsole`,
    `randomAI` and `stupidAI`. Each sees the game only through `topPosition`. */
module SimplePlayers {
  import opened LegalMoves

  /** COLUMN_COUNT: the console test hard-codes the last column as 6. */
  const Columns: nat := 7

  /** The console validity test: `0 <= m <= 6` and `topPosition[m] >= 0`.
      The comparisons short-circuit, so `topPosition` is indexed only for 0..6. */
  predicate AcceptsMove(m: int, top: seq<int>)
    requires |top| >= Columns
    ensures AcceptsMove(m, top) <==> m < Columns && m in LegalColumns(top)
  {
    LegalColumnsMembership(top, m);
    0 <= m && m <= 6 && top[m] >= 0
  }

  /**
   * `AcceptsMove`'s contract restricted to the standard width: on a seven-column board
   * every legal column is below 7, so the console accepts exactly the legal columns.
   */
  lemma AcceptsExactlyLegal(m: int, top: seq<int>)
    requires |top| == Columns
    ensures AcceptsMove(m, top) <==> m in LegalColumns(top)
  {
    LegalColumnsMembership(top, m);
  }

  /** What the console loop ends with: the accepted move and how many inputs
      were read before it, or the supplied inputs ran out. */
  datatype ConsoleOutcome = Accepted(move: int, rejected: nat) | InputExhausted

  /** `humanConsole.play`: read a move, and keep reading while it is invalid.
      The lines typed at the console are the parameter `inputs`, already parsed. */
  method ConsolePlay(top: array<int>, inputs: seq<int>) returns (r: ConsoleOutcome)
    requires top.Length >= Columns
    ensures r.Accepted? ==> r.rejected < |inputs| && r.move == inputs[r.rejected]
                            && AcceptsMove(r.move, top[..])
    ensures r.Accepted? ==> forall j :: 0 <= j < r.rejected ==> !AcceptsMove(inputs[j], top[..])
    ensures r.InputExhausted? <==> forall j :: 0 <= j < |inputs| ==> !AcceptsMove(inputs[j], top[..])
  {
    var k := 0;
    while k < |inputs|
      invariant 0 <= k <= |inputs|
      invariant forall j :: 0 <= j < k ==> !AcceptsMove(inputs[j], top[..])
    {
      var m := inputs[k];
      if AcceptsMove(m, top[..]) {
        return Accepted(m, k);
      }
      k := k + 1;
    }
    return InputExhausted;
  }

  /** What `random.choice` gives: one element, or IndexError on an empty list. */
  datatype Pick = Picked(column: nat) | IndexError

  /** `randomAI.play`: some legal column; the distribution of `random.choice`
      and its seed are not modelled, only that it picks a member. */
  method RandomPlay(top: array<int>) returns (r: Pick)
    ensures r.Picked? ==> IsLegal(top[..], r.column)
    ensures r.IndexError? <==> LegalColumns(top[..]) == []
  {
    var indices := CollectLegal(top);
    if indices == [] {
      return IndexError;
    }
    assert indices[0] in indices;
    var m :| m in indices;
    return Picked(m);
  }

  /** The order in which `stupidAI` tries columns before falling back to 0. */
  const Priority: seq<nat> := [3, 2, 1, 5, 6]

  /** The `if`/`elif` chain of `stupidAI.play` over the list of legal indices. */
  function PriorityChoice(indices: seq<nat>): (m: nat)
    ensures m == 0 <==> forall k :: 0 <= k < |Priority| ==> Priority[k] !in indices
    ensures m != 0 ==> exists k :: 0 <= k < |Priority| && m == Priority[k] && m in indices
                                   && forall j :: 0 <= j < k ==> Priority[j] !in indices
    ensures m != 4
  {
    assert Priority[0] == 3 && Priority[1] == 2 && Priority[2] == 1 && Priority[3] == 5 && Priority[4] == 6;
    if 3 in indices then 3
    else if 2 in indices then 2
    else if 1 in indices then 1
    else if 5 in indices then 5
    else if 6 in indices then 6
    else 0
  }

  /** `stupidAI.play`: column 3 whenever it is legal, else the first legal one of
      2, 1, 5, 6, else 0 (even when column 0 is full); never column 4. */
  method StupidPlay(top: array<int>) returns (move: nat)
    ensures IsLegal(top[..], 3) ==> move == 3
    ensures move == 0 <==> forall k :: 0 <= k < |Priority| ==> !IsLegal(top[..], Priority[k])
    ensures move != 0 ==> exists k :: 0 <= k < |Priority| && move == Priority[k] && IsLegal(top[..], move)
                                      && forall j :: 0 <= j < k ==> !IsLegal(top[..], Priority[j])
    ensures move != 4
  {
    var indices := CollectLegal(top);
    move := PriorityChoice(indices);
  }
}
