/** The validation and solve-mode arithmetic of the equity solvers in
    core/src/equity.rs: `validate_range_inputs`,
    `calculate_equity_with_dynamic_players_with_math`,
    `calculate_equity_from_ranges_with_math` and the string front end
    `calculate_equity_with_math`; and the card-based `calculate_equity` of
    core/src/lib.rs (whose `validate_range_inputs` and
    `calculate_equity_with_ranges` are the same code as the equity.rs ones).

    A plan records what the solver decided and the numbers it reports; the
    exact solver's per-assignment equities are integer win vectors
    (`Scoring`), and the Monte Carlo samplers of these files are not part of
    this model. */
module Modes {
  import opened Cards
  import opened Binomial
  import opened Assignments
  import opened EquityInput
  import opened Scoring

  /** The `EquityMath` fields that do not depend on sampling. */
  datatype Plan = Plan(mode: SolveMode, budget: nat, assignments: nat, runouts: nat, totalStates: nat)

  const U128_MAX: nat := U128_LIMIT - 1

  /** `saturating_mul` on u128. */
  function SaturatingMul128(a: nat, b: nat): (r: nat)
    ensures r <= U128_MAX
    ensures a * b <= U128_MAX ==> r == a * b
  {
    if a * b > U128_MAX then U128_MAX else a * b
  }

  /** The number of board runouts once every player holds two cards. The
      usize clamp of `combination_count` never applies to a deck. */
  function Runouts(boardLen: nat, players: nat): (r: nat)
    requires boardLen <= 5 && boardLen + 2 * players <= 52
    ensures r == Choose(52 - boardLen - 2 * players, 5 - boardLen)
  {
    MachineChooseExactOnDeck(52 - boardLen - 2 * players, 5 - boardLen);
    CombinationCount(52 - boardLen - 2 * players, 5 - boardLen)
  }

  /** No runout exists exactly when the hole cards leave fewer than five
      cards besides the board, i.e. with 24 or more players. */
  lemma {:induction false} RunoutsZero(boardLen: nat, players: nat)
    requires boardLen <= 5 && boardLen + 2 * players <= 52
    ensures Runouts(boardLen, players) == 0 <==> 2 * players > 47
  {
    var n, k := 52 - boardLen - 2 * players, 5 - boardLen;
    if k <= n {
      ChoosePositive(n, k);
    } else {
      ChooseAboveIsZero(n, k);
    }
  }

  /** The decision shared by both solvers, given the counter's result
      under the cap `budget / runouts + 1`. */
  function Decide(budget: nat, runouts: nat, count: nat): (r: Result<Plan>)
    requires runouts > 0 && budget < U32_LIMIT
    ensures r.Err? <==> count == 0
    ensures r.Err? ==> r.error == InvalidRange
    ensures r.Ok? ==> r.value.assignments == count && r.value.runouts == runouts && r.value.budget == budget
    ensures r.Ok? ==> (r.value.mode == ExactEnumeration <==> count * runouts <= budget)
    ensures r.Ok? && r.value.mode == ExactEnumeration ==> r.value.totalStates == count * runouts
  {
    var limit := budget / runouts;
    DivFits(count, budget, runouts);
    if count == 0 then Err(InvalidRange)
    else
      // The cap `limit.saturating_add(1)` never saturates: the limit is at
      // most the u32-sized budget.
      Ok(Plan(if count <= limit then ExactEnumeration else MonteCarlo, budget, count, runouts,
              SaturatingMul128(count, runouts)))
  }

  // ---------------------------------------------------------------------
  // calculate_equity_with_dynamic_players_with_math

  /** Mode selection for inputs with unknown hole cards. */
  function DynamicMode(specs: seq<PlayerSpec>, board: seq<Card>, iterations: nat): (r: Result<Plan>)
    requires |board| <= 5 && iterations < U32_LIMIT
    ensures r.Err? ==> r.error in {InvalidHand, InvalidRange}
    ensures r.Ok? ==> r.value.budget == DefaultIterations(iterations) && r.value.runouts >= 1 && r.value.assignments >= 1
  {
    var n := |specs|;
    if |board| + 2 * n > 52 then Err(InvalidHand)
    else
      var runouts := Runouts(|board|, n);
      if runouts == 0 then Err(InvalidHand)
      else
        DecideDynamic(specs, board, DefaultIterations(iterations), runouts)
  }

  /** The capped count of valid assignments and the decision on it. */
  function DecideDynamic(specs: seq<PlayerSpec>, board: seq<Card>, budget: nat, runouts: nat): (r: Result<Plan>)
    requires runouts > 0 && budget < U32_LIMIT
    ensures r.Err? ==> r.error == InvalidRange
    ensures r.Ok? ==> r.value.budget == budget && r.value.runouts == runouts && r.value.assignments >= 1
  {
    Decide(budget, runouts, CountAssignments(specs, board, Some(budget / runouts + 1)))
  }

  /** What the dynamic solver decides, in terms of the number T of valid
      assignments: too many cards or no runout is an invalid hand, no
      assignment is an invalid range, and it enumerates exactly when
      T x runouts fits in the budget, in which case it reports T itself. */
  lemma {:induction false} DynamicModeSpec(specs: seq<PlayerSpec>, board: seq<Card>, iterations: nat)
    requires |board| <= 5 && iterations < U32_LIMIT
    ensures var r := DynamicMode(specs, board, iterations);
      var t := |ForEachAssignment(specs, board)|;
      var b, n := |board|, |specs|;
      && (b + 2 * n > 52 ==> r == Err(InvalidHand))
      && (b + 2 * n <= 52 ==> (r == Err(InvalidHand) <==> 2 * n > 47))
      && (b + 2 * n <= 52 && 2 * n <= 47 ==> (r == Err(InvalidRange) <==> t == 0))
      && (r.Ok? ==> r.value.runouts == Choose(52 - b - 2 * n, 5 - b))
      && (r.Ok? ==> Fits(r.value, t))
  {
    var b, n := |board|, |specs|;
    if b + 2 * n <= 52 {
      RunoutsZero(b, n);
      var runouts := Runouts(b, n);
      if runouts > 0 {
        DecideDynamicSpec(specs, board, DefaultIterations(iterations), runouts);
      }
    }
  }

  /** A plan fits the true assignment count t: it enumerates exactly when
      t x runouts fits in the budget, reporting t and t x runouts, and
      otherwise reports the cap budget / runouts + 1, which t reaches. */
  ghost predicate Fits(p: Plan, t: nat) {
    && p.runouts > 0
    && (p.mode == ExactEnumeration <==> t * p.runouts <= p.budget)
    && (p.mode == ExactEnumeration ==> p.assignments == t && p.totalStates == t * p.runouts)
    && (p.mode == MonteCarlo ==> p.assignments == p.budget / p.runouts + 1 <= t)
  }

  lemma {:induction false} DecideDynamicSpec(specs: seq<PlayerSpec>, board: seq<Card>, budget: nat, runouts: nat)
    requires runouts > 0 && budget < U32_LIMIT
    ensures var r := DecideDynamic(specs, board, budget, runouts);
      var t := |ForEachAssignment(specs, board)|;
      && (r.Err? <==> t == 0)
      && (r.Ok? ==> Fits(r.value, t))
  {
    CountAssignmentsIsMin(specs, board, Some(budget / runouts + 1));
    CappedDecision(budget, runouts, |ForEachAssignment(specs, board)|);
  }

  /** Running `Decide` on the capped count min(T, limit + 1) decides as on
      T itself: capping does not change the decision. */
  lemma {:induction false} CappedDecision(budget: nat, runouts: nat, t: nat)
    requires runouts > 0 && budget < U32_LIMIT
    ensures var r := Decide(budget, runouts, Min(t, budget / runouts + 1));
      && (r.Err? <==> t == 0)
      && (r.Ok? ==> Fits(r.value, t))
  {
    DivFits(t, budget, runouts);
    DivFits(Min(t, budget / runouts + 1), budget, runouts);
  }

  // ---------------------------------------------------------------------
  // validate_range_inputs and the range-only solver

  /** Every range is non-empty and every hand in it is two different cards. */
  predicate RangesWellFormed(ranges: seq<seq<seq<Card>>>) {
    forall p :: 0 <= p < |ranges| ==>
      |ranges[p]| > 0 && forall i :: 0 <= i < |ranges[p]| ==> |ranges[p][i]| == 2 && ranges[p][i][0] != ranges[p][i][1]
  }

  /** `validate_range_inputs`: the player count, board size, board
      duplicates, range shapes and deck size, checked in that order. */
  function ValidateRangeInputs(ranges: seq<seq<seq<Card>>>, board: seq<Card>): (r: Result<()>)
    ensures r.Err? ==> r.error in {InvalidHand, InvalidRange}
    ensures r.Ok? <==> (|ranges| >= 2 && |board| <= 5 && Distinct(board) && RangesWellFormed(ranges)
      && |board| + 2 * |ranges| <= 52)
    ensures r == Err(InvalidRange) <==> |ranges| >= 2 && |board| <= 5 && Distinct(board) && !RangesWellFormed(ranges)
  {
    HasDuplicateSpec(board);
    if |ranges| < 2 then Err(InvalidHand)
    else if |board| > 5 then Err(InvalidHand)
    else if HasDuplicate(board) then Err(InvalidHand)
    else if !RangesWellFormed(ranges) then Err(InvalidRange)
    else if |board| + 2 * |ranges| > 52 then Err(InvalidHand)
    else Ok(())
  }

  lemma {:induction false} WellFormedHands2(ranges: seq<seq<seq<Card>>>)
    requires RangesWellFormed(ranges)
    ensures RangesHands2(ranges)
  {
  }

  /** `calculate_equity_from_ranges_with_math` (and lib.rs
      `calculate_equity_with_ranges`) up to its mode decision. */
  function RangesMode(ranges: seq<seq<seq<Card>>>, board: seq<Card>, iterations: nat): (r: Result<Plan>)
    requires iterations < U32_LIMIT
    ensures r.Err? ==> r.error in {InvalidHand, InvalidRange}
    ensures r.Ok? ==> ValidateRangeInputs(ranges, board).Ok?
    ensures r.Ok? ==> r.value.budget == DefaultIterations(iterations) && r.value.runouts >= 1 && r.value.assignments >= 1
  {
    match ValidateRangeInputs(ranges, board)
    case Err(e) => Err(e)
    case Ok(_) =>
      WellFormedHands2(ranges);
      var runouts := Runouts(|board|, |ranges|);
      if runouts == 0 then Err(InvalidHand)
      else DecideRanges(ranges, board, DefaultIterations(iterations), runouts)
  }

  function DecideRanges(ranges: seq<seq<seq<Card>>>, board: seq<Card>, budget: nat, runouts: nat): (r: Result<Plan>)
    requires RangesHands2(ranges) && runouts > 0 && budget < U32_LIMIT
    ensures r.Err? ==> r.error == InvalidRange
    ensures r.Ok? ==> r.value.budget == budget && r.value.runouts == runouts && r.value.assignments >= 1
  {
    Decide(budget, runouts, CountRangeAssignments(ranges, board, Some(budget / runouts + 1)))
  }

  /** Once the inputs are valid, the range-only solver decides exactly as
      the mixed-input solver does on the same hands. */
  lemma {:induction false} RangesModeAgrees(ranges: seq<seq<seq<Card>>>, board: seq<Card>, iterations: nat)
    requires iterations < U32_LIMIT
    requires ValidateRangeInputs(ranges, board).Ok?
    ensures RangesHands2(ranges)
    ensures RangesMode(ranges, board, iterations) == DynamicMode(RangeSpecs(ranges), board, iterations)
  {
    WellFormedHands2(ranges);
    var runouts := Runouts(|board|, |ranges|);
    assert |RangeSpecs(ranges)| == |ranges|;
    if runouts > 0 {
      DecideAgrees(ranges, board, DefaultIterations(iterations), runouts);
    }
  }

  lemma {:induction false} DecideAgrees(ranges: seq<seq<seq<Card>>>, board: seq<Card>, budget: nat, runouts: nat)
    requires RangesHands2(ranges) && runouts > 0 && budget < U32_LIMIT
    ensures DecideRanges(ranges, board, budget, runouts) == DecideDynamic(RangeSpecs(ranges), board, budget, runouts)
  {
    RangeCountRecAgrees(ranges, AllCards(), Elems(board), 0, Some(budget / runouts + 1));
  }

  /** What the range-only solver decides, in terms of the number T of
      assignments it visits: the validation's error if it fails, else an
      invalid hand exactly when no runout exists, an invalid range exactly
      when no assignment exists, and otherwise a plan that fits T. */
  lemma {:induction false} RangesModeSpec(ranges: seq<seq<seq<Card>>>, board: seq<Card>, iterations: nat)
    requires iterations < U32_LIMIT
    ensures ValidateRangeInputs(ranges, board).Err? ==>
      RangesMode(ranges, board, iterations) == Err(ValidateRangeInputs(ranges, board).error)
    ensures ValidateRangeInputs(ranges, board).Ok? ==> RangesHands2(ranges)
    ensures ValidateRangeInputs(ranges, board).Ok? ==>
      var r := RangesMode(ranges, board, iterations);
      var t := |ForEachRangeAssignment(ranges, board)|;
      && (r == Err(InvalidHand) <==> 2 * |ranges| > 47)
      && (2 * |ranges| <= 47 ==> (r == Err(InvalidRange) <==> t == 0))
      && (r.Ok? ==> Fits(r.value, t))
  {
    if ValidateRangeInputs(ranges, board).Ok? {
      WellFormedHands2(ranges);
      RunoutsZero(|board|, |ranges|);
      var runouts := Runouts(|board|, |ranges|);
      if runouts > 0 {
        DecideRangesSpec(ranges, board, DefaultIterations(iterations), runouts);
      }
    }
  }

  lemma {:induction false} DecideRangesSpec(ranges: seq<seq<seq<Card>>>, board: seq<Card>, budget: nat, runouts: nat)
    requires RangesHands2(ranges) && runouts > 0 && budget < U32_LIMIT
    ensures var r := DecideRanges(ranges, board, budget, runouts);
      var t := |ForEachRangeAssignment(ranges, board)|;
      && (r.Err? <==> t == 0)
      && (r.Ok? ==> Fits(r.value, t))
  {
    RangeAssignmentsSpec(ranges, board, Some(budget / runouts + 1));
    CappedDecision(budget, runouts, |ForEachRangeAssignment(ranges, board)|);
  }

  /** Ranges whose every combination collides leave no assignment and are
      an invalid range, as the collision test of lib.rs expects: {AhAd}
      against {AhKd}, which share the ace of hearts, on an empty board. */
  lemma {:induction false} FullyCollidingRanges(board: seq<Card>, iterations: nat)
    requires iterations < U32_LIMIT
    requires board == []
    ensures var p1 := [Card(Ace, Heart), Card(Ace, Diamond)];
      var p2 := [Card(Ace, Heart), Card(King, Diamond)];
      RangesMode([[p1], [p2]], board, iterations) == Err(InvalidRange)
  {
    var p1 := [Card(Ace, Heart), Card(Ace, Diamond)];
    var p2 := [Card(Ace, Heart), Card(King, Diamond)];
    var hands := [p1, p2];
    var ranges := [[p1], [p2]];
    var used := Elems(board);
    assert ranges == Singletons(hands);
    assert !FreshFrom(Heads(hands), used) by {
      var hs := Heads(hands);
      assert hs == [Combo(p1[0], p1[1]), Combo(p2[0], p2[1])];
      assert hs[1..] == [Combo(p2[0], p2[1])];
      assert !FreshFrom(hs[1..], used + Hole(hs[0]));
    }
    SingleHandRanges(hands, used);
    assert ForEachRangeAssignment(ranges, board) == [];
    assert ValidateRangeInputs(ranges, board).Ok? by {
      assert Distinct(board);
      assert RangesWellFormed(ranges);
    }
    RangesModeSpec(ranges, board, iterations);
  }

  // ---------------------------------------------------------------------
  // calculate_equity_with_math

  /** The string front end: at least two players, a valid board, every
      player's input parsed with no known card given twice, then the
      range-only solver when no hole card is unknown and the mixed-input
      solver otherwise. */
  function CalculateEquityWithMath(ranges: string -> Option<seq<seq<Card>>>, players: seq<string>, board: string,
                                   iterations: nat): (r: Result<Plan>)
    requires iterations < U32_LIMIT
    ensures r.Err? ==> r.error in {InvalidCard, InvalidHand, InvalidRange}
    ensures |players| < 2 ==> r == Err(InvalidHand)
    ensures r.Ok? ==> ParseBoardInput(board).Ok? && r.value.assignments >= 1 && r.value.runouts >= 1
  {
    if |players| < 2 then Err(InvalidHand)
    else
      match ParseBoardInput(board)
      case Err(e) => Err(e)
      case Ok(cards) =>
        var boardSet := Elems(cards);
        match ParsePlayers(ranges, players, boardSet, boardSet)
        case Err(e) => Err(e)
        case Ok(specs) =>
          if AllRanges(specs) then RangesMode(AsRanges(specs), cards, iterations)
          else DynamicMode(specs, cards, iterations)
  }

  /** Inputs that all parse as exact hands or ranges pass the range-only
      solver's own validation whenever the deck can hold them: the parser
      already rejected every shape the validation looks for. */
  lemma {:induction false} ParsedRangesValid(ranges: string -> Option<seq<seq<Card>>>, players: seq<string>, board: string)
    requires |players| >= 2 && ParseBoardInput(board).Ok?
    requires var cards := ParseBoardInput(board).value;
      ParsePlayers(ranges, players, Elems(cards), Elems(cards)).Ok?
    ensures var cards := ParseBoardInput(board).value;
      var specs := ParsePlayers(ranges, players, Elems(cards), Elems(cards)).value;
      AllRanges(specs) ==>
        (ValidateRangeInputs(AsRanges(specs), cards).Ok? <==> |cards| + 2 * |players| <= 52)
  {
    var cards := ParseBoardInput(board).value;
    var specs := ParsePlayers(ranges, players, Elems(cards), Elems(cards)).value;
    forall p | 0 <= p < |specs|
      ensures WellFormed(specs[p]) && (specs[p].Range? ==> specs[p].hands != [])
    {
      assert Ok(specs[p]) == ParsePlayerHandInput(ranges, players[p], Elems(cards));
    }
    if AllRanges(specs) {
      SpecsAsRangesValid(specs, cards);
    }
  }

  /** Well-formed exact and range inputs become hand lists that pass the
      range validation, except for the deck-size check. */
  lemma {:induction false} SpecsAsRangesValid(specs: seq<PlayerSpec>, cards: seq<Card>)
    requires AllRanges(specs) && |specs| >= 2 && |cards| <= 5 && Distinct(cards)
    requires forall p :: 0 <= p < |specs| ==> WellFormed(specs[p]) && (specs[p].Range? ==> specs[p].hands != [])
    ensures ValidateRangeInputs(AsRanges(specs), cards).Ok? <==> |cards| + 2 * |specs| <= 52
  {
    var rs := AsRanges(specs);
    forall p | 0 <= p < |rs|
      ensures |rs[p]| > 0 && forall i :: 0 <= i < |rs[p]| ==> |rs[p][i]| == 2 && rs[p][i][0] != rs[p][i][1]
    {
      assert WellFormed(specs[p]);
    }
    assert RangesWellFormed(rs);
  }

  // ---------------------------------------------------------------------
  // lib.rs calculate_equity (card-based)

  /** Every card of the given hands, hand after hand. */
  function Flatten(hands: seq<seq<Card>>): (cs: seq<Card>)
    ensures forall c :: c in cs <==> exists i :: 0 <= i < |hands| && c in hands[i]
  {
    if hands == [] then []
    else
      var rest := Flatten(hands[1..]);
      assert forall i :: 1 <= i < |hands| ==> hands[i] == hands[1..][i - 1];
      assert forall c :: c in rest ==> exists i :: 1 <= i < |hands| && c in hands[i] by {
        forall c | c in rest
          ensures exists i :: 1 <= i < |hands| && c in hands[i]
        {
          var j :| 0 <= j < |hands[1..]| && c in hands[1..][j];
          assert c in hands[j + 1];
        }
      }
      hands[0] + rest
  }

  /** How the card-based entry point solves valid input: by scoring every
      runout, or by simulation. */
  datatype HandsSolve = Enumerated(wins: seq<nat>) | Simulated

  /** lib.rs `calculate_equity` (and equity.rs `calculate_equity_from_hands`,
      the same code): validate the player count, hand sizes, board size and
      duplicates, then score every runout when their number fits the budget. */
  function CalculateEquityFromHands(rank: seq<Card> -> int, hands: seq<seq<Card>>, board: seq<Card>, iterations: nat)
    : (r: Result<HandsSolve>)
    requires iterations < U32_LIMIT
    ensures r.Err? ==> r.error == InvalidHand
    ensures r.Ok? <==> (|hands| >= 2 && (forall i :: 0 <= i < |hands| ==> |hands[i]| == 2) && |board| <= 5
      && Distinct(Flatten(hands) + board))
    ensures r.Ok? && r.value.Enumerated? ==> |r.value.wins| == |hands|
  {
    var used := Flatten(hands) + board;
    HasDuplicateSpec(used);
    if |hands| < 2 then Err(InvalidHand)
    else if exists i :: 0 <= i < |hands| && |hands[i]| != 2 then Err(InvalidHand)
    else if |board| > 5 then Err(InvalidHand)
    else if HasDuplicate(used) then Err(InvalidHand)
    else Ok(SolveHands(rank, hands, board, iterations))
  }

  /** The deck in `all_cards` order without the cards already in use. */
  function Remaining(used: seq<Card>): (r: seq<Card>)
    ensures forall c :: c in r <==> c !in used
    ensures Distinct(r)
  {
    AllCardsIsDeck();
    Without(AllCards(), Elems(used))
  }

  /** The mode choice for valid hands: enumerate every runout when their
      number fits the iteration budget, otherwise simulate. */
  function SolveHands(rank: seq<Card> -> int, hands: seq<seq<Card>>, board: seq<Card>, iterations: nat)
    : (r: HandsSolve)
    requires iterations < U32_LIMIT && |board| <= 5
    ensures r.Enumerated? ==> |r.wins| == |hands|
  {
    SolveWith(rank, hands, board, Remaining(Flatten(hands) + board), DefaultIterations(iterations))
  }

  function SolveWith(rank: seq<Card> -> int, hands: seq<seq<Card>>, board: seq<Card>, remaining: seq<Card>, budget: nat)
    : (r: HandsSolve)
    requires |board| <= 5 && |remaining| <= USIZE_MAX
    ensures r.Enumerated? ==> |r.wins| == |hands|
  {
    var missing := Missing(board);
    if CombinationCount(|remaining|, missing) <= budget then
      Enumerated(ExactWins(rank, hands, board, remaining, missing))
    else Simulated
  }

  lemma {:induction false} FlattenLength(hands: seq<seq<Card>>)
    requires forall i :: 0 <= i < |hands| ==> |hands[i]| == 2
    ensures |Flatten(hands)| == 2 * |hands|
  {
    if hands != [] {
      FlattenLength(hands[1..]);
    }
  }

  lemma {:induction false} CalculateEquityFromHandsSpec(rank: seq<Card> -> int, hands: seq<seq<Card>>, board: seq<Card>, iterations: nat)
    requires iterations < U32_LIMIT
    requires CalculateEquityFromHands(rank, hands, board, iterations).Ok?
    ensures 2 * |hands| + |board| <= 52
    ensures var r := CalculateEquityFromHands(rank, hands, board, iterations).value;
      var runouts := Choose(52 - 2 * |hands| - |board|, Missing(board));
      && (r.Enumerated? <==> runouts <= DefaultIterations(iterations))
      && (r.Enumerated? ==> WinsWithin(r.wins, |hands|, runouts))
  {
    assert CalculateEquityFromHands(rank, hands, board, iterations).value == SolveHands(rank, hands, board, iterations);
    SolveHandsSpec(rank, hands, board, iterations);
  }

  lemma {:induction false} SolveHandsSpec(rank: seq<Card> -> int, hands: seq<seq<Card>>, board: seq<Card>, iterations: nat)
    requires iterations < U32_LIMIT && |board| <= 5 && hands != []
    requires (forall i :: 0 <= i < |hands| ==> |hands[i]| == 2) && Distinct(Flatten(hands) + board)
    ensures 2 * |hands| + |board| <= 52
    ensures var r := SolveHands(rank, hands, board, iterations);
      var runouts := Choose(52 - 2 * |hands| - |board|, Missing(board));
      && (r.Enumerated? <==> runouts <= DefaultIterations(iterations))
      && (r.Enumerated? ==> WinsWithin(r.wins, |hands|, runouts))
  {
    var remaining := Remaining(Flatten(hands) + board);
    RemainingSize(hands, board);
    SolveWithSpec(rank, hands, board, remaining, DefaultIterations(iterations));
  }

  /** Every scored runout hands out between one and (number of players)
      wins. */
  ghost predicate WinsWithin(wins: seq<nat>, players: nat, runouts: nat) {
    runouts <= Sum(wins) <= players * runouts
  }

  /** The mode choice in terms of the size of the remaining deck. */
  lemma {:induction false} SolveWithSpec(rank: seq<Card> -> int, hands: seq<seq<Card>>, board: seq<Card>, remaining: seq<Card>, budget: nat)
    requires |board| <= 5 && hands != [] && |remaining| <= 52
    ensures var r := SolveWith(rank, hands, board, remaining, budget);
      var runouts := Choose(|remaining|, Missing(board));
      && (r.Enumerated? <==> runouts <= budget)
      && (r.Enumerated? ==> WinsWithin(r.wins, |hands|, runouts))
  {
    var missing := Missing(board);
    MachineChooseExactOnDeck(|remaining|, missing);
    var r := SolveWith(rank, hands, board, remaining, budget);
    if r.Enumerated? {
      assert r.wins == ExactWins(rank, hands, board, remaining, missing);
      ExactWinsBounds(rank, hands, board, remaining, missing);
    }
  }

  /** Valid card-based input leaves 52 - 2n - board cards in the deck. */
  lemma {:induction false} RemainingSize(hands: seq<seq<Card>>, board: seq<Card>)
    requires (forall i :: 0 <= i < |hands| ==> |hands[i]| == 2) && Distinct(Flatten(hands) + board)
    ensures 2 * |hands| + |board| <= 52
    ensures |Remaining(Flatten(hands) + board)| == 52 - 2 * |hands| - |board|
  {
    var used := Flatten(hands) + board;
    FlattenLength(hands);
    DistinctCardinality(used);
    AllCardsIsDeck();
    WithoutDeckSize(AllCards(), Elems(used));
    assert Remaining(used) == Without(AllCards(), Elems(used));
    assert |Elems(used)| <= 52 by {
      var deck := Elems(AllCards());
      assert Elems(used) <= deck;
      DistinctCardinality(AllCards());
      SubsetCardinality(Elems(used), deck);
    }
  }

  lemma {:induction false} SubsetCardinality(a: set<Card>, b: set<Card>)
    requires a <= b
    ensures |a| <= |b|
  {
    if a != {} {
      var x :| x in a;
      SubsetCardinality(a - {x}, b - {x});
    }
  }
}
