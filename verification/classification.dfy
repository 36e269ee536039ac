/** The classification a product carries in its single food-group reference
    field.  A row may give a food-group code (column 6), a major-category code
    (column 8) and a minor-category code (column 10); the commands apply them
    in that order, each usable code overwriting the value set before it, so a
    minor category beats a major category, which beats a food group. */
module Classification {
  import opened Prelude
  import opened Store

  /** The two characters of a code from offset `i`, concatenated as the
      commands do (`$code[i] . $code[i + 1]`); offsets past the end
      contribute nothing, so a short code never reads as "00". */
  function CodePair(code: string, i: nat): string
  {
    CharAt(code, i) + CharAt(code, i + 1)
  }

  /** A food-group code is usable when column 6 is not PHP-empty. */
  predicate FoodGroupGiven(row: Row)
  {
    !Empty(Col(row, 6))
  }

  /** A major code is usable when column 8 is not PHP-empty and its third and
      fourth characters are not the "00" sentinel. */
  predicate MajorGiven(row: Row)
  {
    !Empty(Col(row, 8)) && CodePair(Col(row, 8), 2) != "00"
  }

  /** A minor code is usable when column 10 is not PHP-empty and its fifth
      and sixth characters are not the "00" sentinel. */
  predicate MinorGiven(row: Row)
  {
    !Empty(Col(row, 10)) && CodePair(Col(row, 10), 4) != "00"
  }

  /** One level of the override chain: whether the row gives a usable code at
      that level, and the reference that code resolves to. */
  datatype Level = Level(given: bool, target: Ref)

  /** Applies the levels in order; each given level overwrites the value. */
  function Override(current: Ref, levels: seq<Level>): (r: Ref)
    ensures (forall i | 0 <= i < |levels| :: !levels[i].given) ==> r == current
    ensures forall i | 0 <= i < |levels| ::
              levels[i].given && (forall j | i < j < |levels| :: !levels[j].given) ==> r == levels[i].target
    decreases |levels|
  {
    if |levels| == 0 then current
    else Override(if levels[0].given then levels[0].target else current, levels[1..])
  }

  /** The same chain read the other way: levels listed highest priority
      first, the first given one decides, and with none given the value is
      kept. */
  function Highest(fallback: Ref, byPriority: seq<Level>): Ref
    decreases |byPriority|
  {
    if |byPriority| == 0 then fallback
    else if byPriority[0].given then byPriority[0].target
    else Highest(fallback, byPriority[1..])
  }

  function Reverse<T>(xs: seq<T>): (r: seq<T>)
    ensures |r| == |xs|
    ensures forall i | 0 <= i < |xs| :: r[i] == xs[|xs| - 1 - i]
  {
    if |xs| == 0 then [] else Reverse(xs[1..]) + [xs[0]]
  }

  lemma {:induction false} HighestLast(fallback: Ref, byPriority: seq<Level>, last: Level)
    ensures Highest(fallback, byPriority + [last]) == Highest(Highest(fallback, [last]), byPriority)
    decreases |byPriority|
  {
    if |byPriority| > 0 {
      assert (byPriority + [last])[1..] == byPriority[1..] + [last];
      HighestLast(fallback, byPriority[1..], last);
    }
  }

  /** Overwriting in the PHP code's order is the same as letting the highest-priority
      given level decide. */
  lemma {:induction false} OverrideIsHighestPriority(current: Ref, levels: seq<Level>)
    ensures Override(current, levels) == Highest(current, Reverse(levels))
    decreases |levels|
  {
    if |levels| > 0 {
      var next := if levels[0].given then levels[0].target else current;
      OverrideIsHighestPriority(next, levels[1..]);
      assert Reverse(levels) == Reverse(levels[1..]) + [levels[0]];
      HighestLast(current, Reverse(levels[1..]), levels[0]);
    }
  }

  /** The levels of a row, in the order the PHP code applies them. */
  function Levels(tax: Taxonomy, row: Row): seq<Level>
  {
    [ Level(FoodGroupGiven(row), ResolveTerm(tax, FoodGroupId, Col(row, 6))),
      Level(MajorGiven(row), ResolveTerm(tax, MajorCategoryId, Col(row, 8))),
      Level(MinorGiven(row), ResolveTerm(tax, MinorCategoryId, Col(row, 10))) ]
  }

  /** The classification a row leaves in a reference field that held `prior`. */
  function Classify(tax: Taxonomy, prior: Ref, row: Row): (r: Ref)
    ensures MinorGiven(row) ==> r == ResolveTerm(tax, MinorCategoryId, Col(row, 10))
    ensures !MinorGiven(row) && MajorGiven(row) ==> r == ResolveTerm(tax, MajorCategoryId, Col(row, 8))
    ensures !MinorGiven(row) && !MajorGiven(row) && FoodGroupGiven(row) ==>
              r == ResolveTerm(tax, FoodGroupId, Col(row, 6))
    ensures !MinorGiven(row) && !MajorGiven(row) && !FoodGroupGiven(row) ==> r == prior
  {
    var levels := Levels(tax, row);
    assert !levels[2].given ==> forall j | 1 < j < 3 :: !levels[j].given;
    assert !levels[2].given && !levels[1].given ==> forall j | 0 < j < 3 :: !levels[j].given;
    Override(prior, levels)
  }

  /** A row's classification is decided by its highest-priority usable code:
      minor category, then major category, then food group. */
  lemma ClassifyIsHighestPriority(tax: Taxonomy, prior: Ref, row: Row)
    ensures var levels := Levels(tax, row);
            Classify(tax, prior, row) == Highest(prior, [levels[2], levels[1], levels[0]])
  {
    var levels := Levels(tax, row);
    OverrideIsHighestPriority(prior, levels);
    assert Reverse(levels) == [levels[2], levels[1], levels[0]];
  }

  /** A usable code with no matching term still overwrites: the field is
      cleared, whatever it held before. */
  lemma MissingTermClears(tax: Taxonomy, prior: Ref, row: Row)
    ensures (&& MinorGiven(row)
             && forall i | 0 <= i < |tax| :: !TermMatches(tax[i], MinorCategoryId, Col(row, 10)))
            ==> Classify(tax, prior, row) == NoRef
    ensures (&& !MinorGiven(row) && MajorGiven(row)
             && forall i | 0 <= i < |tax| :: !TermMatches(tax[i], MajorCategoryId, Col(row, 8)))
            ==> Classify(tax, prior, row) == NoRef
    ensures (&& !MinorGiven(row) && !MajorGiven(row) && FoodGroupGiven(row)
             && forall i | 0 <= i < |tax| :: !TermMatches(tax[i], FoodGroupId, Col(row, 6)))
            ==> Classify(tax, prior, row) == NoRef
  {
  }

  /** Code columns past the end of a short row give no code, so such a row
      leaves the classification as it was. */
  lemma ShortRowKeepsClassification(tax: Taxonomy, prior: Ref, row: Row)
    requires |row| <= 6
    ensures !FoodGroupGiven(row) && !MajorGiven(row) && !MinorGiven(row)
    ensures Classify(tax, prior, row) == prior
  {
  }

  /** A code too short to reach its sentinel characters never reads as
      "00": a non-empty major code of up to three characters, or minor code
      of up to five, is usable. */
  lemma ShortCodesAreUsable(row: Row)
    ensures !Empty(Col(row, 8)) && |Col(row, 8)| <= 3 ==> MajorGiven(row)
    ensures !Empty(Col(row, 10)) && |Col(row, 10)| <= 5 ==> MinorGiven(row)
  {
  }
}
