/** The legal-column filter of players.py: `possible = env.topPosition >= 0`, then
    the indices of the true entries, appended in increasing order. `randomAI` and
    `stupidAI` run it before choosing; MAX and MIN run it at every node that is
    neither game over nor at depth 0. */
module LegalMoves {

  /** Column `c` still has a free cell: its top position is not negative. */
  predicate IsLegal(top: seq<int>, c: int)
  {
    0 <= c < |top| && top[c] >= 0
  }

  /** The list the filter loop builds, defined the way the loop builds it:
      the list for the first `|top| - 1` columns, then the last column when it is legal. */
  function LegalColumns(top: seq<int>): (cols: seq<nat>)
    ensures forall k :: 0 <= k < |cols| ==> IsLegal(top, cols[k])
  {
    if |top| == 0 then []
    else
      var last := |top| - 1;
      LegalColumns(top[..last]) + (if top[last] >= 0 then [last] else [])
  }

  /** Every legal column appears in the list (the converse is LegalColumns' own ensures). */
  lemma {:induction false} LegalColumnsComplete(top: seq<int>, c: int)
    requires IsLegal(top, c)
    ensures c in LegalColumns(top)
  {
    var last := |top| - 1;
    if c < last {
      assert IsLegal(top[..last], c);
      LegalColumnsComplete(top[..last], c);
    }
  }

  /** Membership in the filtered list is exactly legality. */
  lemma {:induction false} LegalColumnsMembership(top: seq<int>, c: int)
    ensures c in LegalColumns(top) <==> IsLegal(top, c)
  {
    if IsLegal(top, c) {
      LegalColumnsComplete(top, c);
    }
  }

  /** The list is strictly increasing, so no column appears twice. */
  lemma {:induction false} LegalColumnsIncreasing(top: seq<int>)
    ensures forall i, j :: 0 <= i < j < |LegalColumns(top)| ==> LegalColumns(top)[i] < LegalColumns(top)[j]
  {
    if |top| > 0 {
      var last := |top| - 1;
      LegalColumnsIncreasing(top[..last]);
    }
  }

  /** The filter loop of players.py over the numpy array `topPosition`. */
  method CollectLegal(top: array<int>) returns (indices: seq<nat>)
    ensures indices == LegalColumns(top[..])
    ensures forall c :: c in indices <==> IsLegal(top[..], c)
  {
    indices := [];
    var i := 0;
    while i < top.Length
      invariant 0 <= i <= top.Length
      invariant indices == LegalColumns(top[..i])
    {
      assert top[..i + 1][..i] == top[..i];
      if top[i] >= 0 {
        indices := indices + [i];
      }
      i := i + 1;
    }
    assert top[..top.Length] == top[..];
    forall c ensures c in indices <==> IsLegal(top[..], c) {
      LegalColumnsMembership(top[..], c);
    }
  }
}
