/**
 The usage statistics (class `Statistics` of src/SwappedArgChecker.cpp) as an immutable table of
 rows, and the two scores computed from it: the confidence that a morpheme belongs at one position
 rather than another, and the fitness of a morpheme for a position.
 */
module UsageStatistics {
  import opened Wrappers

  datatype Row = Row(func: string, arg: nat, morpheme: string, value: real)

  predicate PositiveWeights(rows: seq<Row>) {
    forall k :: 0 <= k < |rows| ==> 0.0 < rows[k].value <= 1.0
  }

  /** Zero weights, which the schema permits, are excluded: they would be divided by. */
  type Table = rows: seq<Row> | PositiveWeights(rows)

  // ------------------------------------------------------------------------------------------
  // The two queries
  // ------------------------------------------------------------------------------------------

  /** `SELECT value ... WHERE func == ? AND arg == ? AND morpheme == ?`: the first such row. */
  function WeightForMorphemeAtPos(t: Table, func: string, pos: nat, morph: string): (weight: Option<real>)
    ensures weight.Some? ==> 0.0 < weight.value <= 1.0
    decreases |t|
  {
    if t == [] then None
    else if t[0].func == func && t[0].arg == pos && t[0].morpheme == morph then Some(t[0].value)
    else WeightForMorphemeAtPos(t[1..], func, pos, morph)
  }

  type Weights = ws: seq<(string, real)> | forall k :: 0 <= k < |ws| ==> 0.0 < ws[k].1 <= 1.0

  /** `SELECT morpheme, value ... WHERE func == ? AND arg == ?`: all such rows in order. */
  function MorphemesAndWeightsAtPos(t: Table, func: string, pos: nat): Weights
    decreases |t|
  {
    if t == [] then []
    else
      var rest := MorphemesAndWeightsAtPos(t[1..], func, pos);
      if t[0].func == func && t[0].arg == pos then [(t[0].morpheme, t[0].value)] + rest else rest
  }

  // ------------------------------------------------------------------------------------------
  // What the database promises about its rows
  // ------------------------------------------------------------------------------------------

  ghost predicate UniqueRows(t: Table) {
    forall a, b :: 0 <= a < b < |t| ==>
      t[a].func != t[b].func || t[a].arg != t[b].arg || t[a].morpheme != t[b].morpheme
  }

  ghost function Total(ws: Weights): real {
    if ws == [] then 0.0 else Total(ws[..|ws| - 1]) + ws[|ws| - 1].1
  }

  /** One row per function, position and morpheme; weights at a position add up to at most 1. */
  ghost predicate Normalised(t: Table) {
    UniqueRows(t)
    && forall func, pos :: Total(MorphemesAndWeightsAtPos(t, func, pos)) <= 1.0
  }

  // ------------------------------------------------------------------------------------------
  // Confidence
  // ------------------------------------------------------------------------------------------

  /** `morphemeConfidenceAtPosition`. */
  function Confidence(t: Table, func: string, morph: string, pos: nat, comparedToPos: nat): (c: Option<real>)
    ensures c.Some? ==> c.value >= 0.0
  {
    var pos1 := WeightForMorphemeAtPos(t, func, pos, morph);
    var pos2 := WeightForMorphemeAtPos(t, func, comparedToPos, morph);
    if pos1.Some? && pos2.None? then Some(1.0)
    else if pos2.Some? && pos1.None? then Some(0.0)
    else if pos1.Some? && pos2.Some? then Some(pos1.value / pos2.value)
    else None
  }

  lemma QuotientComparedToOne(here: real, there: real)
    requires 0.0 < here && 0.0 < there
    ensures here / there <= 1.0 <==> here <= there
  {
  }

  /**
   The documented range 0 to 1 is kept exactly when the morpheme is not both known at the compared
   position and heavier at the queried one.
   */
  lemma ConfidenceInRangeIff(t: Table, func: string, morph: string, pos: nat, other: nat)
    requires Confidence(t, func, morph, pos, other).Some?
    ensures Confidence(t, func, morph, pos, other).value <= 1.0 <==>
            !(match (WeightForMorphemeAtPos(t, func, pos, morph), WeightForMorphemeAtPos(t, func, other, morph))
              case (Some(here), Some(there)) => here > there
              case _ => false)
  {
    match (WeightForMorphemeAtPos(t, func, pos, morph), WeightForMorphemeAtPos(t, func, other, morph))
    case (Some(here), Some(there)) => QuotientComparedToOne(here, there);
    case _ =>
  }

  /** A table on which the documented range is exceeded. */
  lemma ConfidenceCanExceedOne() returns (t: Table)
    ensures Normalised(t)
    ensures Confidence(t, "f", "m", 0, 1) == Some(2.0)
  {
    t := [Row("f", 0, "m", 0.5), Row("f", 1, "m", 0.25)];
    assert WeightForMorphemeAtPos(t[1..], "f", 1, "m") == Some(0.25);
    forall func, pos
      ensures Total(MorphemesAndWeightsAtPos(t, func, pos)) <= 1.0
    {
      var last := MorphemesAndWeightsAtPos(t[1..], func, pos);
      assert MorphemesAndWeightsAtPos(t[1..][1..], func, pos) == [];
      assert Total(last[..0]) == 0.0;
      assert func == "f" && pos == 0 ==> last == [];
      assert MorphemesAndWeightsAtPos(t, func, pos) != [] ==> MorphemesAndWeightsAtPos(t, func, pos)[..0] == [];
    }
  }

  // ------------------------------------------------------------------------------------------
  // Fitness
  // ------------------------------------------------------------------------------------------

  /** `similarity`. */
  function Similarity(morph1: string, morph2: string): real {
    if morph1 == morph2 then 1.0 else 0.0
  }

  /** The total weight that `morph` has in `ws`. */
  ghost function WeightOf(ws: Weights, morph: string): real {
    if ws == [] then 0.0
    else
      var last := ws[|ws| - 1];
      WeightOf(ws[..|ws| - 1], morph) + (if last.0 == morph then last.1 else 0.0)
  }

  ghost function Fitness(t: Table, func: string, pos: nat, morph: string): real {
    WeightOf(MorphemesAndWeightsAtPos(t, func, pos), morph)
  }

  /** `fit`: the similarity-weighted sum over the rows of the position. */
  method Fit(t: Table, morph: string, func: string, argPos: nat) returns (ret: real)
    ensures ret == Fitness(t, func, argPos, morph)
  {
    var ws := MorphemesAndWeightsAtPos(t, func, argPos);
    if ws == [] {
      return 0.0;
    }
    ret := 0.0;
    for k := 0 to |ws|
      invariant ret == WeightOf(ws[..k], morph)
    {
      assert ws[..k + 1][..k] == ws[..k];
      ret := ret + Similarity(morph, ws[k].0) * ws[k].1;
    }
    assert ws[..|ws|] == ws;
  }

  lemma {:induction false} WeightsOfTwo(ws: Weights, m1: string, m2: string)
    requires m1 != m2
    ensures 0.0 <= WeightOf(ws, m1) && 0.0 <= WeightOf(ws, m2)
    ensures WeightOf(ws, m1) + WeightOf(ws, m2) <= Total(ws)
  {
    if ws != [] {
      WeightsOfTwo(ws[..|ws| - 1], m1, m2);
    }
  }

  lemma {:induction false} WeightOfPrepend(first: (string, real), ws: Weights, morph: string)
    requires 0.0 < first.1 <= 1.0
    ensures WeightOf([first] + ws, morph) == (if first.0 == morph then first.1 else 0.0) + WeightOf(ws, morph)
  {
    var all: Weights := [first] + ws;
    if ws == [] {
      assert all == [first];
      assert all[..0] == [];
    } else {
      WeightOfPrepend(first, ws[..|ws| - 1], morph);
      assert all[..|all| - 1] == [first] + ws[..|ws| - 1];
    }
  }

  lemma {:induction false} AbsentHasNoFitness(t: Table, func: string, pos: nat, morph: string)
    requires forall k :: 0 <= k < |t| ==> !(t[k].func == func && t[k].arg == pos && t[k].morpheme == morph)
    ensures Fitness(t, func, pos, morph) == 0.0
    decreases |t|
  {
    if t != [] {
      AbsentHasNoFitness(t[1..], func, pos, morph);
      if t[0].func == func && t[0].arg == pos {
        WeightOfPrepend((t[0].morpheme, t[0].value), MorphemesAndWeightsAtPos(t[1..], func, pos), morph);
      }
    }
  }

  /** On a table with unique rows the weighted sum is the point lookup, 0 when absent. */
  lemma {:induction false} FitnessIsLookup(t: Table, func: string, pos: nat, morph: string)
    requires UniqueRows(t)
    ensures Fitness(t, func, pos, morph) ==
            match WeightForMorphemeAtPos(t, func, pos, morph) case Some(w) => w case None => 0.0
    decreases |t|
  {
    if t != [] {
      var rest := t[1..];
      assert UniqueRows(rest) by {
        assert forall k :: 0 <= k < |rest| ==> rest[k] == t[k + 1];
      }
      FitnessIsLookup(rest, func, pos, morph);
      if t[0].func == func && t[0].arg == pos {
        WeightOfPrepend((t[0].morpheme, t[0].value), MorphemesAndWeightsAtPos(rest, func, pos), morph);
        if t[0].morpheme == morph {
          AbsentHasNoFitness(rest, func, pos, morph);
        }
      }
    }
  }

  /** Where rows are unique, each row is what its lookup finds. */
  lemma {:induction false} LookupFindsRow(t: Table, k: nat)
    requires UniqueRows(t) && k < |t|
    ensures WeightForMorphemeAtPos(t, t[k].func, t[k].arg, t[k].morpheme) == Some(t[k].value)
    decreases |t|
  {
    if k > 0 {
      assert forall a :: 0 <= a < |t[1..]| ==> t[1..][a] == t[a + 1];
      LookupFindsRow(t[1..], k - 1);
    }
  }

  /** The fitness lies between 0 and 1, and reaches 1 exactly when a single row holds all the weight. */
  lemma FitnessInUnitRange(t: Table, func: string, pos: nat, morph: string)
    requires Normalised(t)
    ensures 0.0 <= Fitness(t, func, pos, morph) <= 1.0
    ensures Fitness(t, func, pos, morph) == 1.0 <==> WeightForMorphemeAtPos(t, func, pos, morph) == Some(1.0)
  {
    FitnessIsLookup(t, func, pos, morph);
  }

  /** A table on which the documented range below 1 is left. */
  lemma FitnessCanBeOne() returns (t: Table)
    ensures Normalised(t) && Fitness(t, "f", 0, "m") == 1.0
  {
    t := [Row("f", 0, "m", 1.0)];
    forall func, pos
      ensures Total(MorphemesAndWeightsAtPos(t, func, pos)) <= 1.0
    {
      var ws := MorphemesAndWeightsAtPos(t, func, pos);
      assert MorphemesAndWeightsAtPos(t[1..], func, pos) == [];
      assert ws != [] ==> ws[..0] == [];
    }
    FitnessIsLookup(t, "f", 0, "m");
  }

  /** At each position at most one morpheme is fit by a threshold of one half or more. */
  lemma AtMostOneFit(t: Table, func: string, pos: nat, threshold: real, m1: string, m2: string)
    requires Normalised(t) && threshold >= 0.5
    requires Fitness(t, func, pos, m1) > threshold && Fitness(t, func, pos, m2) > threshold
    ensures m1 == m2
  {
    if m1 != m2 {
      WeightsOfTwo(MorphemesAndWeightsAtPos(t, func, pos), m1, m2);
    }
  }
}
