/** `estimate_equity_monte_carlo` of core/src/monte_carlo.rs; `estimate_equity`
    in core/src/estimate.rs repeats the same loop and is modelled by it too.

    Randomness is a parameter. `pick(i, seat, t)` is the index `choose`
    returns on attempt `t` for the range player in `seat` during iteration
    `i` (taken modulo the range size). `order(i)` is the sequence the
    iteration's shuffle leaves: the iteration deals from `order(i)` with the
    used cards removed, so any shuffle of the available cards is described
    by some `order(i)`. */
module Simulation {
  import opened Cards
  import opened Scoring
  import opened Input
  import opened Dealing
  import Assignments

  /** Draws tried per range player before the iteration is abandoned. */
  const MaxDraws: nat := 100

  ghost predicate NonEmptyRanges(players: seq<HoleInput>) {
    forall i :: 0 <= i < |players| && players[i].Range? ==> players[i].hands != []
  }

  /** Attempt `t` draws a hand with both cards free. */
  ghost predicate Accepts(hands: seq<Combo>, used: set<Card>, draw: nat -> nat, t: nat)
    requires hands != []
  {
    var h := hands[draw(t) % |hands|];
    h.c1 !in used && h.c2 !in used
  }

  /** Phase one for one range player, from attempt `t` on: the first drawn
      hand with both cards free, or nothing after `MaxDraws` attempts. */
  function DrawRange(hands: seq<Combo>, used: set<Card>, draw: nat -> nat, t: nat): (r: Option<Combo>)
    requires hands != []
    ensures r.Some? ==> r.value in hands && r.value.c1 !in used && r.value.c2 !in used
    ensures r.None? <==> forall u :: t <= u < MaxDraws ==> !Accepts(hands, used, draw, u)
    decreases MaxDraws - t
  {
    if t >= MaxDraws then None
    else
      var h := hands[draw(t) % |hands|];
      if h.c1 !in used && h.c2 !in used then
        assert Accepts(hands, used, draw, t);
        Some(h)
      else
        assert !Accepts(hands, used, draw, t);
        DrawRange(hands, used, draw, t + 1)
  }

  /** The hand taken is the one of the first accepting attempt. */
  lemma {:induction false} DrawRangeFirst(hands: seq<Combo>, used: set<Card>, draw: nat -> nat, t: nat)
    requires hands != [] && DrawRange(hands, used, draw, t).Some?
    ensures exists u :: (&& t <= u < MaxDraws && Accepts(hands, used, draw, u)
                         && DrawRange(hands, used, draw, t).value == hands[draw(u) % |hands|]
                         && forall v :: t <= v < u ==> !Accepts(hands, used, draw, v))
    decreases MaxDraws - t
  {
    if !Accepts(hands, used, draw, t) {
      DrawRangeFirst(hands, used, draw, t + 1);
      var u :| t + 1 <= u < MaxDraws && Accepts(hands, used, draw, u)
        && DrawRange(hands, used, draw, t).value == hands[draw(u) % |hands|]
        && forall v :: t + 1 <= v < u ==> !Accepts(hands, used, draw, v);
      assert forall v :: t <= v < u ==> !Accepts(hands, used, draw, v);
    }
  }

  /** The attempts of the player in `seat`. */
  function SeatDraws(draw: (nat, nat) -> nat, seat: nat): nat -> nat {
    (t: nat) => draw(seat, t)
  }

  /** The draws of iteration `i`. */
  function IterationDraws(pick: (nat, nat, nat) -> nat, i: nat): (nat, nat) -> nat {
    (seat: nat, t: nat) => pick(i, seat, t)
  }

  /** The range hands accepted in phase one, in seat order, and the used set
      afterwards. */
  datatype Drawn = Drawn(hands: seq<Combo>, used: set<Card>)

  /** Phase one: every range player in seat order draws against the cards
      used so far; one failed player abandons the iteration. */
  function RangePass(players: seq<HoleInput>, seat: nat, used: set<Card>, draw: (nat, nat) -> nat): (r: Option<Drawn>)
    requires NonEmptyRanges(players)
    ensures r.Some? ==> |r.value.hands| == RangeCount(players)
    decreases |players|
  {
    if players == [] then Some(Drawn([], used))
    else
      assert NonEmptyRanges(players[1..]) by {
        forall i | 0 <= i < |players[1..]| && players[1..][i].Range?
          ensures players[1..][i].hands != []
        {
          assert players[1..][i] == players[i + 1];
        }
      }
      if players[0].Range? then
        match DrawRange(players[0].hands, used, SeatDraws(draw, seat), 0)
        case None => None
        case Some(h) =>
          match RangePass(players[1..], seat + 1, used + Assignments.Hole(h), draw)
          case None => None
          case Some(d) => Some(Drawn([h] + d.hands, d.used))
      else RangePass(players[1..], seat + 1, used, draw)
  }

  /** The hands accepted are each from the player's own list, each fresh
      against everything used before it, and end up in the used set. */
  lemma {:induction false} RangePassSpec(players: seq<HoleInput>, seat: nat, used: set<Card>, draw: (nat, nat) -> nat)
    requires NonEmptyRanges(players) && RangePass(players, seat, used, draw).Some?
    requires forall i :: 0 <= i < |players| && players[i].Range? ==>
      forall h :: h in players[i].hands ==> h.c1 != h.c2
    ensures var d := RangePass(players, seat, used, draw).value;
      && (forall j :: 0 <= j < |d.hands| ==> d.hands[j] in RangeLists(players)[j])
      && Assignments.FreshFrom(d.hands, used)
      && d.used == used + Elems(HoleCards(d.hands))
    decreases |players|
  {
    if players != [] {
      var tail := players[1..];
      assert forall i :: 0 <= i < |tail| ==> tail[i] == players[i + 1];
      var d := RangePass(players, seat, used, draw).value;
      if players[0].Range? {
        var h := DrawRange(players[0].hands, used, SeatDraws(draw, seat), 0).value;
        var used' := used + Assignments.Hole(h);
        RangePassSpec(tail, seat + 1, used', draw);
        var e := RangePass(tail, seat + 1, used', draw).value;
        assert d.hands == [h] + e.hands;
        assert HoleCards(d.hands) == [h.c1, h.c2] + HoleCards(e.hands);
        assert d.hands[1..] == e.hands;
        assert RangeLists(players) == [players[0].hands] + RangeLists(tail);
      } else {
        RangePassSpec(tail, seat + 1, used, draw);
      }
    }
  }

  /** The used set an iteration starts from: the board and every exact or
      partial hand's known cards. */
  function InitialUsed(board: seq<Card>, players: seq<HoleInput>): (u: set<Card>)
    ensures forall c :: c in u <==> c in board || exists i :: 0 <= i < |players| && c in KnownOf(players[i])
  {
    KnownCardsSpec(players);
    Elems(board + KnownCards(players))
  }

  lemma {:induction false} KnownCardsSpec(players: seq<HoleInput>)
    ensures forall c :: c in KnownCards(players) <==> exists i :: 0 <= i < |players| && c in KnownOf(players[i])
  {
    if players != [] {
      KnownCardsSpec(players[1..]);
      assert forall i :: 0 < i < |players| ==> players[i] == players[1..][i - 1];
      forall c | c in KnownCards(players[1..])
        ensures exists i :: 0 <= i < |players| && c in KnownOf(players[i])
      {
        var i :| 0 <= i < |players[1..]| && c in KnownOf(players[1..][i]);
        assert players[1..][i] == players[i + 1];
      }
    }
  }

  /** One iteration: phase one, then the seat-order pass and the board
      top-up from the shuffled available cards. `None` is an abandoned
      iteration. */
  function Iteration(players: seq<HoleInput>, board: seq<Card>, draw: (nat, nat) -> nat, shuffled: seq<Card>)
    : (r: Option<Deal>)
    requires |board| <= 5 && NonEmptyRanges(players)
    ensures r.Some? ==> |r.value.holes| == |players|
  {
    match RangePass(players, 0, InitialUsed(board, players), draw)
    case None => None
    case Some(d) => DealAll(players, d.hands, Without(shuffled, d.used), board, Missing(board))
  }

  /** A completed iteration deals no card twice and a five-card board,
      provided the board and the known hole cards repeat nothing, every
      range hand holds two different cards and the shuffle repeats no card. */
  lemma {:induction false} IterationDistinct(players: seq<HoleInput>, board: seq<Card>, draw: (nat, nat) -> nat, shuffled: seq<Card>)
    requires |board| <= 5 && NonEmptyRanges(players)
    requires forall i :: 0 <= i < |players| && players[i].Range? ==>
      forall h :: h in players[i].hands ==> h.c1 != h.c2
    requires Distinct(board + KnownCards(players)) && Distinct(shuffled)
    requires Iteration(players, board, draw, shuffled).Some?
    ensures var d := Iteration(players, board, draw, shuffled).value;
      Distinct(DealCards(d)) && |d.board| == 5 && d.board[..|board|] == board
  {
    var known := board + KnownCards(players);
    var used := InitialUsed(board, players);
    var p := RangePass(players, 0, used, draw).value;
    RangePassSpec(players, 0, used, draw);
    var available := Without(shuffled, p.used);
    DealDistinct(players, p.hands, available, board, Missing(board));
  }

  /** The deals of the completed iterations among the first `n`, in order. */
  function CompletedDeals(players: seq<HoleInput>, board: seq<Card>, pick: (nat, nat, nat) -> nat,
                          order: nat -> seq<Card>, n: nat): (r: seq<Deal>)
    requires |board| <= 5 && NonEmptyRanges(players)
    ensures |r| <= n
    ensures forall k :: 0 <= k < |r| ==> |r[k].holes| == |players|
  {
    if n == 0 then []
    else
      var prior := CompletedDeals(players, board, pick, order, n - 1);
      prior + Completed(Iteration(players, board, IterationDraws(pick, n - 1), order(n - 1)))
  }

  function Completed(outcome: Option<Deal>): (r: seq<Deal>)
    ensures |r| <= 1 && forall d :: d in r <==> outcome == Some(d)
  {
    if outcome.Some? then [outcome.value] else []
  }

  /** `estimate_equity_monte_carlo` with integer wins. */
  function MonteCarloCounts(rank: seq<Card> -> int, players: seq<HoleInput>, board: seq<Card>, iterations: nat,
                      pick: (nat, nat, nat) -> nat, order: nat -> seq<Card>): (r: Result<Counts>)
    requires |board| <= 5 && NonEmptyRanges(players)
    ensures r.Err? <==> CompletedDeals(players, board, pick, order, iterations) == []
    ensures r.Err? ==> r.error == InvalidRange
    ensures r.Ok? ==> && r.value.mode == MonteCarlo && |r.value.wins| == |players|
                      && 1 <= r.value.samples <= iterations
  {
    var deals := CompletedDeals(players, board, pick, order, iterations);
    if deals == [] then Err(InvalidRange)
    else Ok(Counts(DealsWins(rank, |players|, deals), |deals|, MonteCarlo))
  }

  /** Every completed iteration adds between one and (number of players)
      wins, so the total lies between the samples and players x samples. */
  lemma {:induction false} MonteCarloBounds(rank: seq<Card> -> int, players: seq<HoleInput>, board: seq<Card>, iterations: nat,
                         pick: (nat, nat, nat) -> nat, order: nat -> seq<Card>)
    requires |board| <= 5 && NonEmptyRanges(players) && players != []
    ensures var r := MonteCarloCounts(rank, players, board, iterations, pick, order);
      r.Ok? ==> && r.value.samples <= Sum(r.value.wins) <= |players| * r.value.samples
                && forall i :: 0 <= i < |players| ==> r.value.wins[i] <= r.value.samples
  {
    DealsWinsBounds(rank, |players|, CompletedDeals(players, board, pick, order, iterations));
  }

  /** Every deal scored in a run repeats no card. */
  lemma {:induction false} CompletedDealsDistinct(players: seq<HoleInput>, board: seq<Card>, pick: (nat, nat, nat) -> nat,
                                                  order: nat -> seq<Card>, n: nat)
    requires |board| <= 5 && NonEmptyRanges(players)
    requires forall i :: 0 <= i < |players| && players[i].Range? ==>
      forall h :: h in players[i].hands ==> h.c1 != h.c2
    requires Distinct(board + KnownCards(players))
    requires forall i :: 0 <= i < n ==> Distinct(order(i))
    ensures forall d :: d in CompletedDeals(players, board, pick, order, n) ==>
      Distinct(DealCards(d)) && |d.board| == 5 && d.board[..|board|] == board
  {
    if n > 0 {
      var i := n - 1;
      CompletedDealsDistinct(players, board, pick, order, i);
      CompletedDealsStep(players, board, pick, order, i, n);
      var draw := IterationDraws(pick, i);
      var outcome := Iteration(players, board, draw, order(i));
      if outcome.Some? {
        IterationDistinct(players, board, draw, order(i));
      }
      forall d | d in CompletedDeals(players, board, pick, order, n)
        ensures Distinct(DealCards(d)) && |d.board| == 5 && d.board[..|board|] == board
      {
        if d !in CompletedDeals(players, board, pick, order, i) {
          assert d in Completed(outcome);
        }
      }
    }
  }

  lemma {:induction false} CompletedDealsStep(players: seq<HoleInput>, board: seq<Card>, pick: (nat, nat, nat) -> nat,
                           order: nat -> seq<Card>, i: nat, next: nat)
    requires |board| <= 5 && NonEmptyRanges(players) && next == i + 1
    ensures CompletedDeals(players, board, pick, order, next)
      == CompletedDeals(players, board, pick, order, i) + Completed(Iteration(players, board, IterationDraws(pick, i), order(i)))
  {
    assert next - 1 == i;
  }

  /** One turn of the source's loop: a completed iteration adds its tally
      and one sample, an abandoned one changes nothing. */
  lemma {:induction false} MonteCarloStep(rank: seq<Card> -> int, players: seq<HoleInput>, board: seq<Card>,
                                          pick: (nat, nat, nat) -> nat, order: nat -> seq<Card>, i: nat, next: nat)
    requires |board| <= 5 && NonEmptyRanges(players) && next == i + 1
    ensures var outcome := Iteration(players, board, IterationDraws(pick, i), order(i));
      var prior := CompletedDeals(players, board, pick, order, i);
      var after := CompletedDeals(players, board, pick, order, next);
      && |after| == |prior| + (if outcome.Some? then 1 else 0)
      && DealsWins(rank, |players|, after) ==
         if outcome.Some? then AddWins(DealsWins(rank, |players|, prior), Tally(DealRanks(rank, outcome.value)))
         else DealsWins(rank, |players|, prior)
  {
    var outcome := Iteration(players, board, IterationDraws(pick, i), order(i));
    var prior := CompletedDeals(players, board, pick, order, i);
    CompletedDealsStep(players, board, pick, order, i, next);
    if outcome.Some? {
      DealsWinsSnoc(rank, |players|, prior, outcome.value);
    } else {
      assert prior + Completed(outcome) == prior;
    }
  }

  /** The source's loop: wins and samples accumulate iteration by iteration. */
  method EstimateMonteCarlo(rank: seq<Card> -> int, players: seq<HoleInput>, board: seq<Card>, iterations: nat,
                            pick: (nat, nat, nat) -> nat, order: nat -> seq<Card>) returns (r: Result<Counts>)
    requires |board| <= 5 && NonEmptyRanges(players)
    ensures r == MonteCarloCounts(rank, players, board, iterations, pick, order)
    ensures r.Err? ==> r.error == InvalidRange
    ensures r.Ok? ==> r.value.mode == MonteCarlo && 1 <= r.value.samples <= iterations
  {
    var wins := Zeros(|players|);
    var samples := 0;
    var i := 0;
    while i != iterations
      invariant i <= iterations
      invariant wins == DealsWins(rank, |players|, CompletedDeals(players, board, pick, order, i))
      invariant samples == |CompletedDeals(players, board, pick, order, i)|
    {
      var outcome := Iteration(players, board, IterationDraws(pick, i), order(i));
      var next := i + 1;
      MonteCarloStep(rank, players, board, pick, order, i, next);
      if outcome.Some? {
        wins := AddWins(wins, Tally(DealRanks(rank, outcome.value)));
        samples := samples + 1;
      }
      i := next;
    }
    if samples == 0 {
      r := Err(InvalidRange);
    } else {
      r := Ok(Counts(wins, samples, MonteCarlo));
    }
  }
}
