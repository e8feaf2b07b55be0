/** `estimate_equity` of core/src/estimate.rs: parse the board and the
    players, check the known cards, drop the range hands that cannot be
    dealt, then run the Monte Carlo loop of the `Simulation` module. */
module Estimate {
  import opened Cards
  import opened Input
  import opened Dealing
  import opened Simulation

  /** The range hands kept by the validation: two different cards, neither
      on the board. */
  function KeepHands(hs: seq<Combo>, board: set<Card>): (r: seq<Combo>)
    ensures |r| <= |hs|
    ensures forall h :: h in r <==> h in hs && h.c1 != h.c2 && h.c1 !in board && h.c2 !in board
  {
    if hs == [] then []
    else
      var h := hs[0];
      (if h.c1 != h.c2 && h.c1 !in board && h.c2 !in board then [h] else []) + KeepHands(hs[1..], board)
  }

  function Cons(p: HoleInput, r: Result<seq<HoleInput>>): Result<seq<HoleInput>> {
    if r.Err? then r else Ok([p] + r.value)
  }

  /** The validation loop from one seat on, with `fixed` the board and the
      known cards of the earlier seats. The first failing seat decides the
      error. */
  function Validate(players: seq<HoleInput>, board: set<Card>, fixed: set<Card>): (r: Result<seq<HoleInput>>)
    ensures r.Err? ==> r.error in {InvalidHand, InvalidRange}
    ensures r.Ok? ==> |r.value| == |players| && NonEmptyRanges(r.value)
  {
    if players == [] then Ok([])
    else
      var rest := players[1..];
      var r := match players[0]
        case Exact(h) =>
          if h.c1 == h.c2 then Err(InvalidHand)
          else if h.c1 in board then Err(InvalidHand)
          else if h.c1 in fixed then Err(InvalidHand)
          else if h.c2 in board then Err(InvalidHand)
          else if h.c2 in fixed + {h.c1} then Err(InvalidHand)
          else Cons(players[0], Validate(rest, board, fixed + {h.c1, h.c2}))
        case Partial(c) =>
          if c in board then Err(InvalidHand)
          else if c in fixed then Err(InvalidHand)
          else Cons(players[0], Validate(rest, board, fixed + {c}))
        case Range(hs) =>
          var kept := KeepHands(hs, board);
          if kept == [] then Err(InvalidRange)
          else Cons(Range(kept), Validate(rest, board, fixed))
        case Unknown => Cons(Unknown, Validate(rest, board, fixed));
      r
  }

  /** A player after validation: ranges filtered, everything else kept. */
  function Checked(p: HoleInput, board: set<Card>): HoleInput {
    if p.Range? then Range(KeepHands(p.hands, board)) else p
  }

  /** The players pass exactly when their known cards repeat nothing and
      avoid the fixed cards, and every range keeps a hand. Then each player
      comes back with only the range filtered. */
  lemma {:induction false} ValidateSpec(players: seq<HoleInput>, board: set<Card>, fixed: set<Card>)
    requires board <= fixed
    ensures Validate(players, board, fixed).Ok? <==>
      (&& Distinct(KnownCards(players))
       && (forall c :: c in KnownCards(players) ==> c !in fixed)
       && forall i :: 0 <= i < |players| && players[i].Range? ==> KeepHands(players[i].hands, board) != [])
    ensures Validate(players, board, fixed).Ok? ==>
      forall i :: 0 <= i < |players| ==> Validate(players, board, fixed).value[i] == Checked(players[i], board)
  {
    ValidateAccepts(players, board, fixed);
    ValidateValues(players, board, fixed);
  }

  /** The fixed cards after one seat: those before it plus its known cards. */
  lemma {:induction false} FixedAfter(p: HoleInput, fixed: set<Card>)
    ensures p.Exact? ==> fixed + Elems(KnownOf(p)) == fixed + {p.hand.c1, p.hand.c2}
    ensures p.Partial? ==> fixed + Elems(KnownOf(p)) == fixed + {p.card}
    ensures p.Range? || p.Unknown? ==> fixed + Elems(KnownOf(p)) == fixed
  {
  }

  lemma {:induction false} ValidateAccepts(players: seq<HoleInput>, board: set<Card>, fixed: set<Card>)
    requires board <= fixed
    ensures Validate(players, board, fixed).Ok? <==>
      (&& Distinct(KnownCards(players))
       && (forall c :: c in KnownCards(players) ==> c !in fixed)
       && forall i :: 0 <= i < |players| && players[i].Range? ==> KeepHands(players[i].hands, board) != [])
    decreases |players|
  {
    if players != [] {
      var p, rest := players[0], players[1..];
      var k := KnownOf(p);
      assert KnownCards(players) == k + KnownCards(rest);
      assert forall i :: 0 < i < |players| ==> players[i] == rest[i - 1];
      var fixed' := fixed + Elems(k);
      ValidateAccepts(rest, board, fixed');
      DistinctConcat(k, KnownCards(rest));
      FixedAfter(p, fixed);
      match p {
        case Exact(h) =>
          assert |k| == 2 && k[0] == h.c1 && k[1] == h.c2;
          assert Distinct(k) <==> h.c1 != h.c2;
        case Partial(c) =>
        case Range(hs) =>
        case Unknown =>
      }
    }
  }

  lemma {:induction false} ValidateValues(players: seq<HoleInput>, board: set<Card>, fixed: set<Card>)
    ensures Validate(players, board, fixed).Ok? ==>
      forall i :: 0 <= i < |players| ==> Validate(players, board, fixed).value[i] == Checked(players[i], board)
    decreases |players|
  {
    var r := Validate(players, board, fixed);
    if players != [] && r.Ok? {
      var p, rest := players[0], players[1..];
      var fixed' := fixed + Elems(KnownOf(p));
      ValidateValues(rest, board, fixed');
      FixedAfter(p, fixed);
      var t := Validate(rest, board, fixed');
      assert r.value == [Checked(p, board)] + t.value;
      assert forall i :: 0 < i < |players| ==> players[i] == rest[i - 1];
    }
  }

  /** Text `i` is the first one `parse` rejects, and it fails with `e`. */
  ghost predicate FailsFirstAt(parse: string -> Result<HoleInput>, texts: seq<string>, i: nat, e: SnapError) {
    && i < |texts| && parse(texts[i]) == Err(e)
    && forall j :: 0 <= j < i ==> parse(texts[j]).Ok?
  }

  /** Every player text in order with `parse`; the first one that fails
      decides the error. */
  function ParsePlayers(parse: string -> Result<HoleInput>, texts: seq<string>): (r: Result<seq<HoleInput>>)
    ensures r.Ok? <==> forall i :: 0 <= i < |texts| ==> parse(texts[i]).Ok?
    ensures r.Ok? ==> |r.value| == |texts| && forall i :: 0 <= i < |texts| ==> r.value[i] == parse(texts[i]).value
    ensures r.Err? ==> exists i: nat :: FailsFirstAt(parse, texts, i, r.error)
  {
    if texts == [] then Ok([])
    else
      var first := parse(texts[0]);
      var rest := ParsePlayers(parse, texts[1..]);
      assert forall i :: 0 < i < |texts| ==> texts[i] == texts[1..][i - 1];
      if first.Err? then
        assert FailsFirstAt(parse, texts, 0, first.error);
        Err(first.error)
      else if rest.Err? then
        assert exists i: nat :: FailsFirstAt(parse, texts, i, rest.error) by {
          var i: nat :| FailsFirstAt(parse, texts[1..], i, rest.error);
          FailsFirstShift(parse, texts, i, rest.error);
        }
        rest
      else Ok([first.value] + rest.value)
  }

  /** A first failure after an accepted first text is a first failure of
      the whole list, one place later. */
  lemma {:induction false} FailsFirstShift(parse: string -> Result<HoleInput>, texts: seq<string>, i: nat, e: SnapError)
    requires texts != [] && parse(texts[0]).Ok? && FailsFirstAt(parse, texts[1..], i, e)
    ensures FailsFirstAt(parse, texts, i + 1, e)
  {
    assert texts[1..][i] == texts[i + 1];
    forall j | 0 <= j < i + 1
      ensures parse(texts[j]).Ok?
    {
      if j > 0 {
        assert texts[j] == texts[1..][j - 1];
      }
    }
  }

  /** `HoleCardsInput::from_str` as a parser value. */
  function HoleParser(flat: string -> Option<seq<Card>>, ranges: string -> Option<seq<seq<Card>>>)
    : string -> Result<HoleInput>
  {
    s => HoleFromStr(flat, ranges, s)
  }

  /** The part of `estimate_equity` after parsing: the deck-size check, the
      validation and the Monte Carlo run, with 0 iterations meaning 10,000. */
  function EstimateParsed(rank: seq<Card> -> int, board: seq<Card>, players: seq<HoleInput>, iterations: nat,
                          pick: (nat, nat, nat) -> nat, order: nat -> seq<Card>): (r: Result<Counts>)
    requires |board| <= 5
    ensures |board| + 2 * |players| > 52 ==> r == Err(InvalidHand)
    ensures r.Err? ==> r.error in {InvalidHand, InvalidRange}
    ensures r.Ok? ==> && r.value.mode == MonteCarlo && |r.value.wins| == |players|
                      && 1 <= r.value.samples <= (if iterations == 0 then 10000 else iterations)
  {
    if |board| + 2 * |players| > 52 then Err(InvalidHand)
    else
      match Validate(players, Elems(board), Elems(board))
      case Err(e) => Err(e)
      case Ok(valid) =>
        var iters := if iterations == 0 then 10000 else iterations;
        MonteCarloCounts(rank, valid, board, iters, pick, order)
  }

  /** `estimate_equity` with integer wins. */
  function EstimateEquity(flat: string -> Option<seq<Card>>, ranges: string -> Option<seq<seq<Card>>>,
                          rank: seq<Card> -> int, board: string, hero: string, villains: seq<string>,
                          iterations: nat, pick: (nat, nat, nat) -> nat, order: nat -> seq<Card>): (r: Result<Counts>)
    ensures villains == [] ==> r == Err(InvalidHand)
    ensures r.Ok? ==> && r.value.mode == MonteCarlo && |r.value.wins| == 1 + |villains|
                      && 1 <= r.value.samples <= (if iterations == 0 then 10000 else iterations)
  {
    if villains == [] then Err(InvalidHand)
    else
      var b := BoardFromStr(flat, board);
      if b.Err? then Err(b.error)
      else
        var players := ParsePlayers(HoleParser(flat, ranges), [hero] + villains);
        if players.Err? then Err(players.error)
        else
          BoardSize(b.value);
          EstimateParsed(rank, BoardCards(b.value), players.value, iterations, pick, order)
  }

  lemma {:induction false} BoardSize(b: BoardInput)
    requires BoardShape(b)
    ensures |BoardCards(b)| <= 5
  {
  }

  /** Every error is one of the two kinds the source returns. */
  lemma {:induction false} EstimateErrorKinds(flat: string -> Option<seq<Card>>, ranges: string -> Option<seq<seq<Card>>>,
                           rank: seq<Card> -> int, board: string, hero: string, villains: seq<string>,
                           iterations: nat, pick: (nat, nat, nat) -> nat, order: nat -> seq<Card>)
    ensures var r := EstimateEquity(flat, ranges, rank, board, hero, villains, iterations, pick, order);
      r.Err? ==> r.error in {InvalidHand, InvalidRange}
  {
    var texts := [hero] + villains;
    var players := ParsePlayers(HoleParser(flat, ranges), texts);
    if villains != [] && BoardFromStr(flat, board).Ok? && players.Err? {
      var i :| 0 <= i < |texts| && HoleParser(flat, ranges)(texts[i]) == Err(players.error);
      assert HoleFromStr(flat, ranges, texts[i]).Err?;
    }
  }

  /** Once the checks pass, every deal the run scores repeats no card, as
      long as the board text names no card twice and every shuffle repeats
      none. */
  lemma {:induction false} EstimateDealsDistinct(players: seq<HoleInput>, board: seq<Card>, iterations: nat,
                              pick: (nat, nat, nat) -> nat, order: nat -> seq<Card>)
    requires |board| <= 5 && Distinct(board)
    requires Validate(players, Elems(board), Elems(board)).Ok?
    requires forall i :: 0 <= i < iterations ==> Distinct(order(i))
    ensures var valid := Validate(players, Elems(board), Elems(board)).value;
      forall d :: d in CompletedDeals(valid, board, pick, order, iterations) ==>
        Distinct(DealCards(d)) && |d.board| == 5 && d.board[..|board|] == board
  {
    var valid := Validate(players, Elems(board), Elems(board)).value;
    ValidateSpec(players, Elems(board), Elems(board));
    assert KnownCards(valid) == KnownCards(players) by {
      CheckedKnown(players, Elems(board));
    }
    DistinctConcat(board, KnownCards(valid));
    forall i | 0 <= i < |valid| && valid[i].Range?
      ensures forall h :: h in valid[i].hands ==> h.c1 != h.c2
    {
      assert valid[i] == Checked(players[i], Elems(board));
    }
    CompletedDealsDistinct(valid, board, pick, order, iterations);
  }

  lemma {:induction false} CheckedKnown(players: seq<HoleInput>, board: set<Card>)
    ensures forall valid: seq<HoleInput> ::
      (|valid| == |players| && forall i :: 0 <= i < |players| ==> valid[i] == Checked(players[i], board))
      ==> KnownCards(valid) == KnownCards(players)
  {
    forall valid: seq<HoleInput> | |valid| == |players| && forall i :: 0 <= i < |players| ==> valid[i] == Checked(players[i], board)
      ensures KnownCards(valid) == KnownCards(players)
    {
      if players != [] {
        CheckedKnown(players[1..], board);
        assert forall i :: 0 <= i < |players[1..]| ==> valid[1..][i] == Checked(players[1..][i], board);
      }
    }
  }
}
