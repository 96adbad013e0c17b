/**
  Timed removal of an accepted chain: at every timer tick the last marble of
  the chain leaves the grid, the score goes up by one and the new score is
  reported; the tick that finds the chain empty ends the removal.
*/
module Removal {
  import opened GridLayout
  import opened Marbles
  import opened Selection

  /** What a removal tick reads and writes, besides the flags: the chain, the
      cells, the score and the scores reported so far to the score hook. */
  datatype RemovalState = RemovalState(chain: seq<nat>, cells: seq<Cell>, score: int, reported: seq<int>)

  /** The chain's cells are cells of the grid. */
  predicate InGrid(st: RemovalState) {
    forall k :: 0 <= k < |st.chain| ==> st.chain[k] < |st.cells|
  }

  /** One tick of the removal timer on a non-empty chain: pop the last cell,
      empty it, count it and report the new score. On an empty chain the
      tick only ends the removal, which leaves this state as it is.
      A tick keeps the score plus the chain's length constant and reports
      every point it adds. */
  function Tick(st: RemovalState): (t: RemovalState)
    ensures |t.cells| == |st.cells|
    ensures t.score + |t.chain| == st.score + |st.chain| && st.score <= t.score
    ensures t.reported == st.reported + seq(t.score - st.score, k => st.score + k + 1)
  {
    if |st.chain| == 0 then st
    else
      var i := st.chain[|st.chain| - 1];
      RemovalState(st.chain[..|st.chain| - 1],
                   if i < |st.cells| then st.cells[i := Empty] else st.cells,
                   st.score + 1,
                   st.reported + [st.score + 1])
  }

  /** A tick only ever empties cells and keeps the chain inside the grid. */
  lemma TickEmpties(st: RemovalState)
    ensures forall j :: 0 <= j < |st.cells| ==> Tick(st).cells[j] == st.cells[j] || Tick(st).cells[j] == Empty
    ensures InGrid(st) ==> InGrid(Tick(st))
  {
  }

  /** A tick moves no marble. */
  lemma TickKeepsXCentred(L: Layout, st: RemovalState)
    requires L.Valid()
    ensures XCentred(L, st.cells) ==> XCentred(L, Tick(st).cells)
  {
  }

  /** `m` consecutive ticks. */
  function Ticks(st: RemovalState, m: nat): RemovalState
    decreases m
  {
    if m == 0 then st else Ticks(Tick(st), m - 1)
  }

  lemma ReportedShift(r: seq<int>, score: int, m: nat)
    requires m > 0
    ensures r + seq(m, k => score + k + 1) == r + [score + 1] + seq(m - 1, k => score + 1 + k + 1)
  {
    assert seq(m, k => score + k + 1) == [score + 1] + seq(m - 1, k => score + 1 + k + 1);
  }

  /** `t` is `cells` with exactly the cells of `rest` emptied. */
  ghost predicate Emptied(cells: seq<Cell>, rest: seq<nat>, t: seq<Cell>) {
    |t| == |cells| &&
    forall j :: 0 <= j < |cells| ==> t[j] == if j in rest then Empty else cells[j]
  }

  /** Emptying cell `i` first and then the cells of `rest` empties the cells
      of `rest + [i]`. */
  lemma EmptiedStep(cells: seq<Cell>, i: nat, rest: seq<nat>, t: seq<Cell>)
    requires i < |cells| && Emptied(cells[i := Empty], rest, t)
    ensures Emptied(cells, rest + [i], t)
  {
  }

  /** After `m` ticks, `m` no more than the chain's length, the chain is its
      first `|chain| - m` cells, the score is up by `m`, and the hook has been
      handed each intermediate score once, in increasing order. */
  lemma {:induction false} DrainCounts(st: RemovalState, m: nat)
    requires m <= |st.chain|
    ensures var t := Ticks(st, m);
            t.chain == st.chain[..|st.chain| - m] &&
            t.score == st.score + m &&
            t.reported == st.reported + seq(m, k => st.score + k + 1) &&
            |t.cells| == |st.cells|
    decreases m
  {
    if m == 0 {
      assert st.chain[..|st.chain|] == st.chain;
      assert st.reported + seq(0, k => st.score + k + 1) == st.reported;
    } else {
      var next := Tick(st);
      DrainCounts(next, m - 1);
      assert next.chain[..|next.chain| - (m - 1)] == st.chain[..|st.chain| - m];
      ReportedShift(st.reported, st.score, m);
    }
  }

  /** After `m` ticks exactly the last `m` cells of the chain are empty and
      every other cell is as it was. */
  lemma {:induction false} DrainCells(st: RemovalState, m: nat)
    requires InGrid(st) && m <= |st.chain|
    ensures Emptied(st.cells, st.chain[|st.chain| - m..], Ticks(st, m).cells)
    decreases m
  {
    var n := |st.chain|;
    if m == 0 {
      assert st.chain[n..] == [];
    } else {
      var i := st.chain[n - 1];
      var next := Tick(st);
      assert next.cells == st.cells[i := Empty];
      assert InGrid(next);
      DrainCells(next, m - 1);
      var rest := next.chain[(n - 1) - (m - 1)..];
      assert st.chain[n - m..] == rest + [i];
      EmptiedStep(st.cells, i, rest, Ticks(next, m - 1).cells);
    }
  }

  /** After `m` ticks, `m` no more than the chain's length, the last `m`
      cells of the chain have been removed, last selected first: the chain is
      its first `|chain| - m` cells, exactly those `m` cells are empty and
      every other cell is as it was, the score is up by `m`, and the hook has
      been handed each intermediate score once, in increasing order. */
  lemma DrainChain(st: RemovalState, m: nat)
    requires InGrid(st) && m <= |st.chain|
    ensures var t := Ticks(st, m);
            var n := |st.chain|;
            t.chain == st.chain[..n - m] &&
            t.score == st.score + m &&
            t.reported == st.reported + seq(m, k => st.score + k + 1) &&
            |t.cells| == |st.cells| &&
            forall j :: 0 <= j < |st.cells| ==>
              t.cells[j] == if j in st.chain[n - m..] then Empty else st.cells[j]
  {
    DrainCounts(st, m);
    DrainCells(st, m);
    assert Emptied(st.cells, st.chain[|st.chain| - m..], Ticks(st, m).cells);
  }

  /** Draining the whole chain empties all of its cells and raises the score
      by the chain's length; the tick after that finds the chain empty. */
  lemma DrainAll(st: RemovalState)
    requires InGrid(st)
    ensures var t := Ticks(st, |st.chain|);
            t.chain == [] && t.score == st.score + |st.chain| && |t.cells| == |st.cells| &&
            (forall k :: 0 <= k < |st.chain| ==> t.cells[st.chain[k]] == Empty) &&
            Tick(t) == t
  {
    DrainChain(st, |st.chain|);
    assert st.chain[|st.chain| - |st.chain|..] == st.chain;
  }

  /** On a chain without repeated cells whose members are all marked, a tick
      removes a marble that is on the grid, and the rest of the chain is
      still marked. */
  lemma TickKeepsMarked(st: RemovalState)
    requires Distinct(st.chain) && ChainMarked(st.cells, st.chain) && |st.chain| > 0
    ensures st.cells[st.chain[|st.chain| - 1]].Full?
    ensures Distinct(Tick(st).chain) && ChainMarked(Tick(st).cells, Tick(st).chain)
  {
    var n := |st.chain|;
    forall k | 0 <= k < n - 1 ensures st.chain[k] != st.chain[n - 1] {
    }
  }
}
