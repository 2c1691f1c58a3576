/**
 Tables of statistics about a function "f" in which two morphemes are known at two positions each,
 with one weight at home and another one away.
 */
module SmallTables {
  import opened Wrappers
  import opened UsageStatistics

  // ------------------------------------------------------------------------------------------
  // The weight sum at a position, row by row
  // ------------------------------------------------------------------------------------------

  lemma {:induction false} TotalOfPrepend(first: (string, real), ws: Weights)
    requires 0.0 < first.1 <= 1.0
    ensures Total([first] + ws) == first.1 + Total(ws)
  {
    var all: Weights := [first] + ws;
    if ws == [] {
      assert all[..0] == [];
    } else {
      TotalOfPrepend(first, ws[..|ws| - 1]);
      assert all[..|all| - 1] == [first] + ws[..|ws| - 1];
    }
  }

  /** The weight that one row adds to a position. */
  ghost function Share(row: Row, func: string, pos: nat): real {
    if row.func == func && row.arg == pos then row.value else 0.0
  }

  ghost function Shares(t: Table, func: string, pos: nat): real
    decreases |t|
  {
    if t == [] then 0.0 else Share(t[0], func, pos) + Shares(t[1..], func, pos)
  }

  lemma {:induction false} TotalIsShares(t: Table, func: string, pos: nat)
    ensures Total(MorphemesAndWeightsAtPos(t, func, pos)) == Shares(t, func, pos)
    decreases |t|
  {
    if t != [] {
      TotalIsShares(t[1..], func, pos);
      TotalOfPrepend((t[0].morpheme, t[0].value), MorphemesAndWeightsAtPos(t[1..], func, pos));
    }
  }

  lemma {:induction false} SharesOfBoth(t: Table, u: Table, func: string, pos: nat)
    ensures Shares(t + u, func, pos) == Shares(t, func, pos) + Shares(u, func, pos)
    decreases |t|
  {
    if t == [] {
      assert t + u == u;
    } else {
      assert (t + u)[1..] == t[1..] + u;
      SharesOfBoth(t[1..], u, func, pos);
    }
  }

  lemma SharesOfPrepend(row: Row, t: Table, func: string, pos: nat)
    requires 0.0 < row.value <= 1.0
    ensures Shares([row] + t, func, pos) == Share(row, func, pos) + Shares(t, func, pos)
  {
    assert ([row] + t)[1..] == t;
  }

  lemma {:induction false} OneShareEach(t: Table, func: string, pos: nat)
    requires forall a, b :: 0 <= a < b < |t| ==> t[a].func != t[b].func || t[a].arg != t[b].arg
    ensures Shares(t, func, pos) <= 1.0
    ensures (forall k :: 0 <= k < |t| ==> t[k].func != func || t[k].arg != pos) ==> Shares(t, func, pos) == 0.0
    decreases |t|
  {
    if t != [] {
      assert forall k :: 0 <= k < |t[1..]| ==> t[1..][k] == t[k + 1];
      OneShareEach(t[1..], func, pos);
    }
  }

  /** Functions and positions do not share a budget: a table with one row for each function and position
      keeps the promises, whatever the morphemes and weights. */
  lemma OneRowEachIsNormalised(t: Table)
    requires forall a, b :: 0 <= a < b < |t| ==> t[a].func != t[b].func || t[a].arg != t[b].arg
    ensures Normalised(t)
  {
    forall func, pos
      ensures Total(MorphemesAndWeightsAtPos(t, func, pos)) <= 1.0
    {
      TotalIsShares(t, func, pos);
      OneShareEach(t, func, pos);
    }
  }

  // ------------------------------------------------------------------------------------------
  // Lookups
  // ------------------------------------------------------------------------------------------

  lemma {:induction false} KnownHasRow(t: Table, func: string, pos: nat, m: string)
    requires WeightForMorphemeAtPos(t, func, pos, m).Some?
    ensures exists k :: 0 <= k < |t| && t[k].func == func && t[k].arg == pos && t[k].morpheme == m
    decreases |t|
  {
    if !(t[0].func == func && t[0].arg == pos && t[0].morpheme == m) {
      KnownHasRow(t[1..], func, pos, m);
      var k :| 0 <= k < |t[1..]| && t[1..][k].func == func && t[1..][k].arg == pos && t[1..][k].morpheme == m;
      assert t[k + 1] == t[1..][k];
    }
  }

  /** A morpheme known at two positions: its weight and fitness at home are `x`, away `y`. */
  ghost predicate AtHomeAndAway(t: Table, m: string, home: nat, away: nat, x: real, y: real) {
    WeightForMorphemeAtPos(t, "f", home, m) == Some(x) && Fitness(t, "f", home, m) == x
    && WeightForMorphemeAtPos(t, "f", away, m) == Some(y) && Fitness(t, "f", away, m) == y
  }

  lemma ConfidenceAtHomeAndAway(t: Table, m: string, home: nat, away: nat, x: real, y: real)
    requires AtHomeAndAway(t, m, home, away, x, y) && x > 0.0 && y > 0.0
    ensures Confidence(t, "f", m, home, away) == Some(x / y)
    ensures Confidence(t, "f", m, away, home) == Some(y / x)
  {
  }

  lemma RowsAtHomeAndAway(t: Table, home: nat, away: nat)
    requires UniqueRows(t) && home < |t| && away < |t|
    requires t[home].func == t[away].func == "f" && t[home].morpheme == t[away].morpheme
    ensures AtHomeAndAway(t, t[home].morpheme, t[home].arg, t[away].arg, t[home].value, t[away].value)
  {
    LookupFindsRow(t, home);
    LookupFindsRow(t, away);
    FitnessIsLookup(t, "f", t[home].arg, t[home].morpheme);
    FitnessIsLookup(t, "f", t[away].arg, t[away].morpheme);
  }

  // ------------------------------------------------------------------------------------------
  // The tables
  // ------------------------------------------------------------------------------------------

  /** `m` is at home at `p`, `n` at `q`, and both are known at the other position as well. */
  function Block(p: nat, q: nat, m: string, n: string, x: real, y: real): Table
    requires 0.0 < x <= 1.0 && 0.0 < y <= 1.0
  {
    [Row("f", p, m, x), Row("f", p, n, y), Row("f", q, m, y), Row("f", q, n, x)]
  }

  lemma SharesOfBlock(p: nat, q: nat, m: string, n: string, x: real, y: real, func: string, pos: nat)
    requires p != q && 0.0 < x <= 1.0 && 0.0 < y <= 1.0 && x + y <= 1.0
    ensures Shares(Block(p, q, m, n, x, y), func, pos) <= 1.0
    ensures pos != p && pos != q ==> Shares(Block(p, q, m, n, x, y), func, pos) == 0.0
  {
    var r0, r1, r2, r3 := Row("f", p, m, x), Row("f", p, n, y), Row("f", q, m, y), Row("f", q, n, x);
    assert Block(p, q, m, n, x, y) == [r0] + [r1, r2, r3] && [r1, r2, r3] == [r1] + [r2, r3] && [r2, r3] == [r2] + [r3];
    assert [r3] + [] == [r3] && Shares([], func, pos) == 0.0;
    hide Shares;
    SharesOfPrepend(r3, [], func, pos);
    SharesOfPrepend(r2, [r3], func, pos);
    SharesOfPrepend(r1, [r2, r3], func, pos);
    SharesOfPrepend(r0, [r1, r2, r3], func, pos);
  }

  lemma BlockIsUnique(p: nat, q: nat, m: string, n: string, x: real, y: real)
    requires p != q && m != n && 0.0 < x <= 1.0 && 0.0 < y <= 1.0
    ensures UniqueRows(Block(p, q, m, n, x, y))
  {
  }

  function FourRows(x: real, y: real): Table
    requires 0.0 < x <= 1.0 && 0.0 < y <= 1.0
  {
    Block(0, 1, "a", "b", x, y)
  }

  lemma LettersDiffer()
    ensures "a" != "b" && "a" != "c" && "a" != "d" && "a" != "e"
    ensures "b" != "c" && "b" != "d" && "b" != "e" && "c" != "d" && "c" != "e" && "d" != "e"
  {
    assert "a"[0] == 'a' && "b"[0] == 'b' && "c"[0] == 'c' && "d"[0] == 'd' && "e"[0] == 'e';
  }

  lemma FourRowsAreUnique(x: real, y: real)
    requires 0.0 < x <= 1.0 && 0.0 < y <= 1.0
    ensures UniqueRows(FourRows(x, y))
  {
    LettersDiffer();
    BlockIsUnique(0, 1, "a", "b", x, y);
  }

  lemma FourRowsAreNormalised(x: real, y: real)
    requires 0.0 < x <= 1.0 && 0.0 < y <= 1.0 && x + y <= 1.0
    ensures Normalised(FourRows(x, y))
  {
    FourRowsAreUnique(x, y);
    forall func, pos
      ensures Total(MorphemesAndWeightsAtPos(FourRows(x, y), func, pos)) <= 1.0
    {
      TotalIsShares(FourRows(x, y), func, pos);
      SharesOfBlock(0, 1, "a", "b", x, y, func, pos);
    }
  }

  lemma FourRowsMeaning(x: real, y: real)
    requires 0.0 < x <= 1.0 && 0.0 < y <= 1.0
    ensures AtHomeAndAway(FourRows(x, y), "a", 0, 1, x, y) && AtHomeAndAway(FourRows(x, y), "b", 1, 0, x, y)
    ensures Confidence(FourRows(x, y), "f", "a", 0, 1) == Some(x / y) == Confidence(FourRows(x, y), "f", "b", 1, 0)
    ensures Confidence(FourRows(x, y), "f", "a", 1, 0) == Some(y / x) == Confidence(FourRows(x, y), "f", "b", 0, 1)
  {
    var t := FourRows(x, y);
    FourRowsAreUnique(x, y);
    hide WeightForMorphemeAtPos, Fitness, UniqueRows;
    RowsAtHomeAndAway(t, 0, 2);
    RowsAtHomeAndAway(t, 3, 1);
    ConfidenceAtHomeAndAway(t, "a", 0, 1, x, y);
    ConfidenceAtHomeAndAway(t, "b", 1, 0, x, y);
  }

  function TwoRows(): Table {
    [Row("f", 0, "a", 1.0), Row("f", 1, "b", 1.0)]
  }

  lemma TwoRowsMeaning()
    ensures Normalised(TwoRows())
    ensures Confidence(TwoRows(), "f", "a", 0, 1) == Some(1.0) && Fitness(TwoRows(), "f", 0, "a") == 1.0
    ensures Confidence(TwoRows(), "f", "b", 1, 0) == Some(1.0) && Fitness(TwoRows(), "f", 1, "b") == 1.0
  {
    var t := TwoRows();
    LettersDiffer();
    OneRowEachIsNormalised(t);
    assert t[1..] == [t[1]] && t[1..][1..] == [];
    FitnessIsLookup(t, "f", 0, "a");
    FitnessIsLookup(t, "f", 1, "b");
  }

  /** Two blocks over different positions and morphemes. */
  function TwoBlocks(x: real, y: real): Table
    requires 0.0 < x <= 1.0 && 0.0 < y <= 1.0
  {
    Block(1, 2, "a", "b", x, y) + Block(0, 3, "d", "c", x, y)
  }

  lemma TwoBlocksAreUnique(x: real, y: real)
    requires 0.0 < x <= 1.0 && 0.0 < y <= 1.0
    ensures UniqueRows(TwoBlocks(x, y))
  {
    var one, two := Block(1, 2, "a", "b", x, y), Block(0, 3, "d", "c", x, y);
    LettersDiffer();
    BlockIsUnique(1, 2, "a", "b", x, y);
    BlockIsUnique(0, 3, "d", "c", x, y);
    assert forall k :: 0 <= k < 4 ==> one[k].arg in {1, 2} && two[k].arg in {0, 3};
    hide Block;
  }

  lemma TwoBlocksAreNormalised(x: real, y: real)
    requires 0.0 < x <= 1.0 && 0.0 < y <= 1.0 && x + y <= 1.0
    ensures Normalised(TwoBlocks(x, y))
  {
    TwoBlocksAreUnique(x, y);
    forall func, pos
      ensures Total(MorphemesAndWeightsAtPos(TwoBlocks(x, y), func, pos)) <= 1.0
    {
      TotalIsShares(TwoBlocks(x, y), func, pos);
      SharesOfBoth(Block(1, 2, "a", "b", x, y), Block(0, 3, "d", "c", x, y), func, pos);
      SharesOfBlock(1, 2, "a", "b", x, y, func, pos);
      SharesOfBlock(0, 3, "d", "c", x, y, func, pos);
    }
  }

  lemma TwoBlocksMeaning(x: real, y: real)
    requires 0.0 < x <= 1.0 && 0.0 < y <= 1.0
    ensures AtHomeAndAway(TwoBlocks(x, y), "a", 1, 2, x, y) && AtHomeAndAway(TwoBlocks(x, y), "b", 2, 1, x, y)
    ensures AtHomeAndAway(TwoBlocks(x, y), "d", 0, 3, x, y) && AtHomeAndAway(TwoBlocks(x, y), "c", 3, 0, x, y)
  {
    var t := TwoBlocks(x, y);
    TwoBlocksAreUnique(x, y);
    hide WeightForMorphemeAtPos, Fitness, UniqueRows;
    RowsAtHomeAndAway(t, 0, 2);
    RowsAtHomeAndAway(t, 3, 1);
    RowsAtHomeAndAway(t, 4, 6);
    RowsAtHomeAndAway(t, 7, 5);
  }

  /** No morpheme is known in both blocks, so that none is confident beyond 1 across them. */
  lemma AcrossBlocks(x: real, y: real, m: string, pos: nat, other: nat)
    requires 0.0 < x <= 1.0 && 0.0 < y <= 1.0
    requires (pos in {0, 3} && other in {1, 2}) || (pos in {1, 2} && other in {0, 3})
    ensures var c := Confidence(TwoBlocks(x, y), "f", m, pos, other); c.Some? ==> c.value <= 1.0
  {
    var t := TwoBlocks(x, y);
    LettersDiffer();
    assert forall k :: 0 <= k < 8 ==> (t[k].arg in {1, 2} <==> t[k].morpheme in {"a", "b"});
    if WeightForMorphemeAtPos(t, "f", pos, m).Some? && WeightForMorphemeAtPos(t, "f", other, m).Some? {
      KnownHasRow(t, "f", pos, m);
      KnownHasRow(t, "f", other, m);
      assert false;
    }
  }
}
