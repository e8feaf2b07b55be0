/** String inputs of the equity engine (core/src/equity.rs):
    `parse_player_hand_input`, `parse_board_input` and the validation loop
    of `calculate_equity_with_math` that turns every player's text into a
    `PlayerSpec` while rejecting a known card given twice.

    `RangeParser::parse_many` belongs to rs_poker and is not part of this
    model; it is the parameter `ranges`, which maps text to the card lists
    of the hands a range expands to, or `None` for a parse error. */
module EquityInput {
  import opened Cards
  import opened Text
  import opened Parsing
  import opened Assignments

  // ---------------------------------------------------------------------
  // parse_player_hand_input

  /** A range hand is kept when it has two first cards that differ and that
      are both off the board. */
  predicate Usable(h: seq<Card>, board: set<Card>) {
    |h| >= 2 && h[0] != h[1] && h[0] !in board && h[1] !in board
  }

  /** The `filter_map` over the expanded range: usable hands, read by their
      first two cards, in range order. */
  function FilterRange(hands: seq<seq<Card>>, board: set<Card>): (r: seq<Combo>)
    ensures |r| <= |hands|
    ensures forall o :: o in r <==> exists i :: 0 <= i < |hands| && Usable(hands[i], board) && o == Head(hands[i])
  {
    if hands == [] then []
    else
      var rest := FilterRange(hands[1..], board);
      assert forall i :: 1 <= i < |hands| ==> hands[i] == hands[1..][i - 1];
      assert forall o :: ((exists i :: 1 <= i < |hands| && Usable(hands[i], board) && o == Head(hands[i]))
        ==> o in rest) by {
        forall o | exists i :: 1 <= i < |hands| && Usable(hands[i], board) && o == Head(hands[i])
          ensures o in rest
        {
          var i :| 1 <= i < |hands| && Usable(hands[i], board) && o == Head(hands[i]);
          assert hands[1..][i - 1] == hands[i];
        }
      }
      (if Usable(hands[0], board) then [Head(hands[0])] else []) + rest
  }

  /** No card the player's input fixes lies on the board. */
  ghost predicate OffBoard(spec: PlayerSpec, board: set<Card>) {
    match spec
    case Exact(h) => h.c1 !in board && h.c2 !in board
    case Range(hs) => forall i :: 0 <= i < |hs| ==> hs[i].c1 !in board && hs[i].c2 !in board
    case OneKnown(c) => c !in board
    case RandomTwo => true
  }

  /** `parse_player_hand_input`: blank text is a random hand; text that is a
      card list of one or two cards is a partial or exact hand; any other
      card count is an error; text that is not a card list is read as a
      range, keeping only its usable hands. */
  function ParsePlayerHandInput(ranges: string -> Option<seq<seq<Card>>>, input: string, board: set<Card>)
    : (r: Result<PlayerSpec>)
    ensures r.Err? ==> r.error in {InvalidHand, InvalidRange}
    ensures r == Ok(RandomTwo) <==> AllWhitespace(input)
    ensures r.Ok? ==> WellFormed(r.value) && OffBoard(r.value, board)
    ensures r.Ok? && r.value.Range? ==> r.value.hands != []
  {
    TrimBlank(input);
    var trimmed := Trim(input);
    if trimmed == [] then Ok(RandomTwo)
    else PlayerFromTrimmed(ranges, trimmed, board)
  }

  function PlayerFromTrimmed(ranges: string -> Option<seq<seq<Card>>>, trimmed: string, board: set<Card>)
    : (r: Result<PlayerSpec>)
    ensures r.Err? ==> r.error in {InvalidHand, InvalidRange}
    ensures r.Ok? ==> !r.value.RandomTwo? && WellFormed(r.value) && OffBoard(r.value, board)
    ensures r.Ok? && r.value.Range? ==> r.value.hands != []
  {
    match ParseCards(trimmed)
    case Ok(cs) =>
      if |cs| == 1 then
        if cs[0] in board then Err(InvalidHand) else Ok(OneKnown(cs[0]))
      else if |cs| == 2 then
        if cs[0] == cs[1] then Err(InvalidHand)
        else if cs[0] in board || cs[1] in board then Err(InvalidHand)
        else Ok(Exact(Combo(cs[0], cs[1])))
      else Err(InvalidHand)
    case Err(_) =>
      match ranges(trimmed)
      case None => Err(InvalidRange)
      case Some(expanded) =>
        var hands := FilterRange(expanded, board);
        if hands == [] then Err(InvalidRange)
        else
          assert forall i :: 0 <= i < |hands| ==> hands[i] in hands;
          Ok(Range(hands))
  }

  /** What each outcome of a non-blank input means: the card-list reading
      wins whenever it succeeds, and the range reading is used only when it
      fails. */
  lemma {:induction false} PlayerFromTrimmedSpec(ranges: string -> Option<seq<seq<Card>>>, trimmed: string, board: set<Card>)
    ensures var r := PlayerFromTrimmed(ranges, trimmed, board);
      var cards := ParseCards(trimmed);
      && (r.Ok? && r.value.OneKnown? <==> cards.Ok? && |cards.value| == 1 && cards.value[0] !in board)
      && (r.Ok? && r.value.OneKnown? ==> cards.value == [r.value.card])
      && (r.Ok? && r.value.Exact? <==>
            cards.Ok? && |cards.value| == 2 && cards.value[0] != cards.value[1]
            && cards.value[0] !in board && cards.value[1] !in board)
      && (r.Ok? && r.value.Exact? ==> cards.value == ComboCards(r.value.hand))
      && (r == Err(InvalidHand) <==> cards.Ok? && !(r.Ok?))
      && (r.Ok? && r.value.Range? <==>
            cards.Err? && ranges(trimmed).Some? && FilterRange(ranges(trimmed).value, board) != [])
      && (r.Ok? && r.value.Range? ==> r.value.hands == FilterRange(ranges(trimmed).value, board))
      && (r == Err(InvalidRange) <==> cards.Err? && (ranges(trimmed).None? || FilterRange(ranges(trimmed).value, board) == []))
  {
  }

  /** Two different off-board cards, written with any separators, are read
      as that exact hand. */
  lemma {:induction false} ParsePlayerExactShown(ranges: string -> Option<seq<seq<Card>>>, c1: Card, c2: Card, sep: string, board: set<Card>)
    requires c1 != c2 && c1 !in board && c2 !in board
    requires forall i :: 0 <= i < |sep| ==> IsSeparator(sep[i])
    ensures ParsePlayerHandInput(ranges, JoinShown([c1, c2], sep), board) == Ok(Exact(Combo(c1, c2)))
  {
    var t := JoinShown([c1, c2], sep);
    JoinShownTrimmed([c1, c2], sep);
    ParseCardsJoinShown([c1, c2], sep);
    TrimBlank(t);
    assert ParsePlayerHandInput(ranges, t, board) == PlayerFromTrimmed(ranges, t, board);
  }

  /** A single written card is the known half of a hand unless it is on the
      board. */
  lemma {:induction false} ParsePlayerOneShown(ranges: string -> Option<seq<seq<Card>>>, c: Card, board: set<Card>)
    ensures ParsePlayerHandInput(ranges, Show(c), board) == if c in board then Err(InvalidHand) else Ok(OneKnown(c))
  {
    var t := Show(c);
    assert JoinShown([c], "") == t;
    JoinShownTrimmed([c], "");
    ParseCardsJoinShown([c], "");
    TrimBlank(t);
    assert ParsePlayerHandInput(ranges, t, board) == PlayerFromTrimmed(ranges, t, board);
  }

  // ---------------------------------------------------------------------
  // parse_board_input

  /** The `HashSet` insertion loop: some card occurs twice. */
  predicate HasDuplicate(cs: seq<Card>)
  {
    cs != [] && (cs[0] in cs[1..] || HasDuplicate(cs[1..]))
  }

  lemma {:induction false} HasDuplicateSpec(cs: seq<Card>)
    ensures HasDuplicate(cs) <==> !Distinct(cs)
  {
    if cs != [] {
      HasDuplicateSpec(cs[1..]);
      if cs[0] in cs[1..] {
        var j :| 0 <= j < |cs[1..]| && cs[1..][j] == cs[0];
        assert cs[j + 1] == cs[0];
      }
      if !Distinct(cs[1..]) {
        var i, j :| 0 <= i < j < |cs[1..]| && cs[1..][i] == cs[1..][j];
        assert cs[i + 1] == cs[j + 1];
      }
      if !Distinct(cs) {
        var i, j :| 0 <= i < j < |cs| && cs[i] == cs[j];
        if i == 0 {
          assert cs[1..][j - 1] == cs[0];
        } else {
          assert cs[1..][i - 1] == cs[1..][j - 1];
        }
      }
    }
  }

  /** `parse_board_input`: blank text is an empty board; otherwise the text
      must be a card list of 3, 4 or 5 different cards. A text that is not a
      card list keeps the card parser's error. */
  function ParseBoardInput(board: string): (r: Result<seq<Card>>)
    ensures r.Err? ==> r.error in {InvalidCard, InvalidHand}
    ensures r.Ok? ==> BoardSize(|r.value|) && Distinct(r.value)
    ensures r == Ok([]) <==> AllWhitespace(board)
  {
    TrimBlank(board);
    ParseCardsBounds(board);
    if Trim(board) == [] then Ok([])
    else
      match ParseCards(board)
      case Err(e) => Err(e)
      case Ok(cs) => BoardFromCards(cs)
  }

  /** A board is empty (pre-flop) or holds three, four or five cards. */
  predicate BoardSize(n: nat) {
    n == 0 || 3 <= n <= 5
  }

  /** The size and duplicate checks on a parsed board. */
  function BoardFromCards(cs: seq<Card>): (r: Result<seq<Card>>)
    ensures r.Err? ==> r.error == InvalidHand
    ensures r.Ok? ==> r.value == cs && BoardSize(|cs|) && Distinct(cs)
  {
    HasDuplicateSpec(cs);
    if !BoardSize(|cs|) then Err(InvalidHand)
    else if HasDuplicate(cs) then Err(InvalidHand)
    else Ok(cs)
  }

  /** Three to five different cards, written with any separators, are read
      back as that board; a written list with a repeated card is refused. */
  lemma {:induction false} ParseBoardShown(cs: seq<Card>, sep: string)
    requires 3 <= |cs| <= 5
    requires forall i :: 0 <= i < |sep| ==> IsSeparator(sep[i])
    ensures ParseBoardInput(JoinShown(cs, sep)) == if Distinct(cs) then Ok(cs) else Err(InvalidHand)
  {
    var t := JoinShown(cs, sep);
    assert !AllWhitespace(t) by {
      JoinShownTrimmed(cs, sep);
    }
    assert ParseCards(t) == Ok(cs) by {
      ParseCardsJoinShown(cs, sep);
    }
    ParseBoardOfCards(t, cs);
    assert BoardFromCards(cs) == if Distinct(cs) then Ok(cs) else Err(InvalidHand) by {
      HasDuplicateSpec(cs);
    }
  }

  lemma {:induction false} ParseBoardOfCards(t: string, cs: seq<Card>)
    requires !AllWhitespace(t) && ParseCards(t) == Ok(cs)
    ensures ParseBoardInput(t) == BoardFromCards(cs)
  {
    TrimBlank(t);
  }

  // ---------------------------------------------------------------------
  // The player loop of calculate_equity_with_math

  /** The cards one player's input fixes. */
  function FixedOf(spec: PlayerSpec): seq<Card> {
    match spec
    case Exact(h) => [h.c1, h.c2]
    case OneKnown(c) => [c]
    case Range(_) => []
    case RandomTwo => []
  }

  /** The cards the players' inputs fix, in input order. */
  function FixedCards(specs: seq<PlayerSpec>): seq<Card> {
    if specs == [] then [] else FixedOf(specs[0]) + FixedCards(specs[1..])
  }

  /** Every player's text parsed in turn against the board; an exact or
      one-card input whose card an earlier input (or the board, which
      `known` starts as) already fixed is refused. */
  function ParsePlayers(ranges: string -> Option<seq<seq<Card>>>, inputs: seq<string>, board: set<Card>, known: set<Card>)
    : (r: Result<seq<PlayerSpec>>)
    ensures r.Err? ==> r.error in {InvalidHand, InvalidRange}
    ensures r.Ok? ==> |r.value| == |inputs|
    ensures r.Ok? ==> forall i :: 0 <= i < |inputs| ==> Ok(r.value[i]) == ParsePlayerHandInput(ranges, inputs[i], board)
    ensures r.Ok? ==> Distinct(FixedCards(r.value)) && forall c :: c in FixedCards(r.value) ==> c !in known
  {
    if inputs == [] then Ok([])
    else
      var parsed := ParsePlayerHandInput(ranges, inputs[0], board);
      if parsed.Err? then Err(parsed.error)
      else
        var spec := parsed.value;
        var fixed := FixedOf(spec);
        if exists c :: c in fixed && c in known then Err(InvalidHand)
        else
          var tail := ParsePlayers(ranges, inputs[1..], board, known + Elems(fixed));
          if tail.Err? then Err(tail.error)
          else
            FixedOfDistinct(spec);
            ParsePlayersStep(ranges, inputs, board, known, spec, tail.value);
            Ok([spec] + tail.value)
  }

  lemma {:induction false} FixedOfDistinct(spec: PlayerSpec)
    requires WellFormed(spec)
    ensures Distinct(FixedOf(spec))
  {
  }

  lemma {:induction false} ParsePlayersStep(ranges: string -> Option<seq<seq<Card>>>, inputs: seq<string>, board: set<Card>, known: set<Card>,
                         spec: PlayerSpec, rest: seq<PlayerSpec>)
    requires inputs != [] && |rest| == |inputs| - 1
    requires ParsePlayerHandInput(ranges, inputs[0], board) == Ok(spec)
    requires forall i :: 0 <= i < |rest| ==> Ok(rest[i]) == ParsePlayerHandInput(ranges, inputs[1..][i], board)
    requires Distinct(FixedOf(spec)) && forall c :: c in FixedOf(spec) ==> c !in known
    requires Distinct(FixedCards(rest)) && forall c :: c in FixedCards(rest) ==> c !in known + Elems(FixedOf(spec))
    ensures forall i :: 0 <= i < |inputs| ==> Ok(([spec] + rest)[i]) == ParsePlayerHandInput(ranges, inputs[i], board)
    ensures Distinct(FixedCards([spec] + rest)) && forall c :: c in FixedCards([spec] + rest) ==> c !in known
  {
    var all := [spec] + rest;
    assert all[1..] == rest;
    assert FixedCards(all) == FixedOf(spec) + FixedCards(rest);
    forall i | 1 <= i < |inputs|
      ensures Ok(all[i]) == ParsePlayerHandInput(ranges, inputs[i], board)
    {
      assert inputs[i] == inputs[1..][i - 1] && all[i] == rest[i - 1];
    }
    DistinctAppend(FixedOf(spec), FixedCards(rest));
  }

  /** The loop fails on a duplicate exactly when it should: if every input
      parses and the fixed cards are all different and none is already
      known, the loop accepts them all. */
  lemma {:induction false} ParsePlayersComplete(ranges: string -> Option<seq<seq<Card>>>, inputs: seq<string>, board: set<Card>, known: set<Card>, specs: seq<PlayerSpec>)
    requires |specs| == |inputs|
    requires forall i :: 0 <= i < |inputs| ==> ParsePlayerHandInput(ranges, inputs[i], board) == Ok(specs[i])
    requires Distinct(FixedCards(specs)) && forall c :: c in FixedCards(specs) ==> c !in known
    ensures ParsePlayers(ranges, inputs, board, known) == Ok(specs)
  {
    if inputs != [] {
      var fixed := FixedOf(specs[0]);
      FixedSplit(specs, known);
      TailParses(ranges, inputs, board, specs);
      ParsePlayersComplete(ranges, inputs[1..], board, known + Elems(fixed), specs[1..]);
      ParsePlayersUnfold(ranges, inputs, board, known, specs[0], specs[1..]);
      assert [specs[0]] + specs[1..] == specs;
    }
  }

  lemma {:induction false} TailParses(ranges: string -> Option<seq<seq<Card>>>, inputs: seq<string>, board: set<Card>, specs: seq<PlayerSpec>)
    requires |specs| == |inputs| && inputs != []
    requires forall i :: 0 <= i < |inputs| ==> ParsePlayerHandInput(ranges, inputs[i], board) == Ok(specs[i])
    ensures forall i :: 0 <= i < |inputs[1..]| ==> ParsePlayerHandInput(ranges, inputs[1..][i], board) == Ok(specs[1..][i])
  {
    forall i | 0 <= i < |inputs[1..]|
      ensures ParsePlayerHandInput(ranges, inputs[1..][i], board) == Ok(specs[1..][i])
    {
      assert inputs[1..][i] == inputs[i + 1] && specs[1..][i] == specs[i + 1];
    }
  }

  lemma {:induction false} ParsePlayersUnfold(ranges: string -> Option<seq<seq<Card>>>, inputs: seq<string>, board: set<Card>, known: set<Card>,
                           spec: PlayerSpec, rest: seq<PlayerSpec>)
    requires inputs != []
    requires ParsePlayerHandInput(ranges, inputs[0], board) == Ok(spec)
    requires forall c :: c in FixedOf(spec) ==> c !in known
    requires ParsePlayers(ranges, inputs[1..], board, known + Elems(FixedOf(spec))) == Ok(rest)
    ensures ParsePlayers(ranges, inputs, board, known) == Ok([spec] + rest)
  {
  }

  /** Splitting the fixed cards after the first player keeps them distinct
      and unknown. */
  lemma {:induction false} FixedSplit(specs: seq<PlayerSpec>, known: set<Card>)
    requires specs != []
    requires Distinct(FixedCards(specs)) && forall c :: c in FixedCards(specs) ==> c !in known
    ensures forall c :: c in FixedOf(specs[0]) ==> c !in known
    ensures Distinct(FixedCards(specs[1..]))
    ensures forall c :: c in FixedCards(specs[1..]) ==> c !in known + Elems(FixedOf(specs[0]))
  {
    var fixed := FixedOf(specs[0]);
    var rest := FixedCards(specs[1..]);
    var all := FixedCards(specs);
    assert all == fixed + rest;
    forall i, j | 0 <= i < j < |rest|
      ensures rest[i] != rest[j]
    {
      assert rest[i] == all[|fixed| + i] && rest[j] == all[|fixed| + j];
    }
    forall c | c in fixed
      ensures c !in known
    {
      var i :| 0 <= i < |fixed| && fixed[i] == c;
      assert all[i] == c;
    }
    forall c | c in rest
      ensures c !in known + Elems(fixed)
    {
      var j :| 0 <= j < |rest| && rest[j] == c;
      assert all[|fixed| + j] == c;
      forall i | 0 <= i < |fixed|
        ensures fixed[i] != c
      {
        assert all[i] == fixed[i];
      }
    }
  }

  // ---------------------------------------------------------------------
  // Routing

  /** An input set is solved by the range-only solver when no player's hole
      cards are partly or wholly unknown. */
  predicate AllRanges(specs: seq<PlayerSpec>) {
    forall i :: 0 <= i < |specs| ==> specs[i].Exact? || specs[i].Range?
  }

  /** The per-player hand lists handed to the range-only solver: an exact
      hand is a one-hand range. */
  function AsRanges(specs: seq<PlayerSpec>): (r: seq<seq<seq<Card>>>)
    requires AllRanges(specs)
    ensures |r| == |specs|
    ensures RangesHands2(r)
    ensures forall p :: 0 <= p < |specs| ==> RangeSpecs(r)[p] == Range(if specs[p].Exact? then [specs[p].hand] else specs[p].hands)
  {
    var r := seq(|specs|, p requires 0 <= p < |specs| =>
      if specs[p].Exact? then [ComboCards(specs[p].hand)]
      else seq(|specs[p].hands|, i requires 0 <= i < |specs[p].hands| => ComboCards(specs[p].hands[i])));
    assert RangesHands2(r);
    forall p | 0 <= p < |specs|
      ensures RangeSpecs(r)[p] == Range(if specs[p].Exact? then [specs[p].hand] else specs[p].hands)
    {
      if specs[p].Exact? {
        assert Heads(r[p]) == [specs[p].hand];
      } else {
        assert Heads(r[p]) == specs[p].hands;
      }
    }
    r
  }
}
