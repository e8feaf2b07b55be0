/** Typed hole-card and board inputs (core/src/input.rs).

    `FlatHand::new_from_str` and `RangeParser::parse_many` belong to
    rs_poker, which is not part of this model. They are parameters here:
    `flat` maps cleaned text to the cards it lists or `None` for a parse
    error, and `ranges` maps cleaned text to the hands a range expands to or
    `None`. */
module Input {
  import opened Cards
  import opened Text

  datatype HoleInput =
    | Exact(hand: Combo)
    | Range(hands: seq<Combo>)
    | Partial(card: Card)
    | Unknown

  datatype BoardInput =
    | PreFlop
    | Flop(cards: seq<Card>)
    | Turn(cards: seq<Card>)
    | River(cards: seq<Card>)

  /** A well-formed board input stores as many cards as its street says. */
  ghost predicate BoardShape(b: BoardInput) {
    match b
    case PreFlop => true
    case Flop(cs) => |cs| == 3
    case Turn(cs) => |cs| == 4
    case River(cs) => |cs| == 5
  }

  /** `BoardCardsInput::cards`. */
  function BoardCards(b: BoardInput): (cs: seq<Card>) {
    match b
    case PreFlop => []
    case Flop(cs) => cs
    case Turn(cs) => cs
    case River(cs) => cs
  }

  /** The street a board of the given size belongs to. */
  function BoardOfCards(cs: seq<Card>): (b: Option<BoardInput>) {
    if |cs| == 0 then Some(PreFlop)
    else if |cs| == 3 then Some(Flop(cs))
    else if |cs| == 4 then Some(Turn(cs))
    else if |cs| == 5 then Some(River(cs))
    else None
  }

  /** Exactly the boards of 0, 3, 4 or 5 cards have a street, and reading the
      cards back from it gives the same cards. */
  lemma {:induction false} BoardOfCardsRoundTrip(cs: seq<Card>)
    ensures BoardOfCards(cs).Some? <==> |cs| in {0, 3, 4, 5}
    ensures BoardOfCards(cs).Some? ==> BoardShape(BoardOfCards(cs).value) && BoardCards(BoardOfCards(cs).value) == cs
  {
  }

  /** `HoleCardsInput::from_str`: blank text is an unknown hand; any other
      text is cleaned of whitespace and commas and read by `HoleFromCleaned`. */
  function HoleFromStr(flat: string -> Option<seq<Card>>, ranges: string -> Option<seq<seq<Card>>>, s: string)
    : (r: Result<HoleInput>)
    ensures r.Err? ==> r.error in {InvalidHand, InvalidRange}
    ensures r == Ok(Unknown) <==> AllWhitespace(s)
  {
    TrimBlank(s);
    var trimmed := Trim(s);
    if trimmed == [] then Ok(Unknown)
    else HoleFromCleaned(flat, ranges, Normalize(trimmed))
  }

  /** Text that lists one or two cards is a partial or exact hand; any other
      card count is an error; text that is not a card list is read as a
      range, which must expand to at least one hand, each of exactly two
      cards. */
  function HoleFromCleaned(flat: string -> Option<seq<Card>>, ranges: string -> Option<seq<seq<Card>>>, cleaned: string)
    : (r: Result<HoleInput>)
    ensures r.Err? ==> r.error in {InvalidHand, InvalidRange}
    ensures r.Ok? ==> !r.value.Unknown?
  {
    var parsed := flat(cleaned);
    if parsed.Some? then
      if |parsed.value| == 1 then Ok(Partial(parsed.value[0]))
      else if |parsed.value| == 2 then Ok(Exact(Combo(parsed.value[0], parsed.value[1])))
      else Err(InvalidHand)
    else
      match ranges(cleaned)
      case None => Err(InvalidRange)
      case Some(hands) =>
        if hands == [] then Err(InvalidRange)
        else if exists i :: 0 <= i < |hands| && |hands[i]| != 2 then Err(InvalidRange)
        else Ok(Range(seq(|hands|, i requires 0 <= i < |hands| => Combo(hands[i][0], hands[i][1]))))
  }

  /** What each result means in terms of the two external parsers: a
      partial or exact hand holds exactly the listed cards, a range holds
      exactly the expanded hands, and each error has its cause. */
  lemma {:induction false} HoleFromCleanedSpec(flat: string -> Option<seq<Card>>, ranges: string -> Option<seq<seq<Card>>>, cleaned: string)
    ensures var r := HoleFromCleaned(flat, ranges, cleaned);
      && (r.Ok? && r.value.Partial? <==> flat(cleaned).Some? && |flat(cleaned).value| == 1)
      && (r.Ok? && r.value.Exact? <==> flat(cleaned).Some? && |flat(cleaned).value| == 2)
      && (r == Err(InvalidHand) <==> flat(cleaned).Some? && |flat(cleaned).value| !in {1, 2})
      && (r.Ok? && r.value.Partial? ==> [r.value.card] == flat(cleaned).value)
      && (r.Ok? && r.value.Exact? ==> ComboCards(r.value.hand) == flat(cleaned).value)
      && (r.Ok? && r.value.Range? <==>
            flat(cleaned).None? && ranges(cleaned).Some? && ranges(cleaned).value != []
            && forall i :: 0 <= i < |ranges(cleaned).value| ==> |ranges(cleaned).value[i]| == 2)
      && (r.Ok? && r.value.Range? ==>
            |r.value.hands| == |ranges(cleaned).value|
            && forall i :: 0 <= i < |r.value.hands| ==> ComboCards(r.value.hands[i]) == ranges(cleaned).value[i])
  {
    var r := HoleFromCleaned(flat, ranges, cleaned);
    if r.Ok? && r.value.Range? {
      var hands := ranges(cleaned).value;
      forall i | 0 <= i < |r.value.hands|
        ensures ComboCards(r.value.hands[i]) == hands[i]
      {
        assert |hands[i]| == 2;
      }
    }
  }

  /** Whitespace and commas anywhere in the text make no difference: a
      non-blank input is read from its cleaned text. */
  lemma {:induction false} HoleFromStrCleaned(flat: string -> Option<seq<Card>>, ranges: string -> Option<seq<seq<Card>>>, s: string)
    requires !AllWhitespace(s)
    ensures HoleFromStr(flat, ranges, s) == HoleFromCleaned(flat, ranges, Normalize(s))
  {
    TrimBlank(s);
    NormalizeTrim(s);
  }

  /** `BoardCardsInput::from_str`: blank text is pre-flop; otherwise the
      cleaned text must list 3, 4 or 5 cards. */
  function BoardFromStr(flat: string -> Option<seq<Card>>, s: string): (r: Result<BoardInput>)
    ensures r.Err? ==> r.error == InvalidHand
    ensures r.Ok? ==> BoardShape(r.value)
    ensures r == Ok(PreFlop) <==> AllWhitespace(s)
  {
    TrimBlank(s);
    var trimmed := Trim(s);
    if trimmed == [] then Ok(PreFlop)
    else BoardFromCleaned(flat, Normalize(trimmed))
  }

  function BoardFromCleaned(flat: string -> Option<seq<Card>>, cleaned: string): (r: Result<BoardInput>)
    ensures r.Err? ==> r.error == InvalidHand
    ensures r.Ok? ==> BoardShape(r.value) && !r.value.PreFlop?
  {
    match flat(cleaned)
    case None => Err(InvalidHand)
    case Some(cs) =>
      if |cs| == 3 then Ok(Flop(cs))
      else if |cs| == 4 then Ok(Turn(cs))
      else if |cs| == 5 then Ok(River(cs))
      else Err(InvalidHand)
  }

  /** A non-blank board is accepted exactly when its cleaned text lists 3,
      4 or 5 cards, and then it is the street of those cards. */
  lemma {:induction false} BoardFromStrSpec(flat: string -> Option<seq<Card>>, s: string)
    requires !AllWhitespace(s)
    ensures BoardFromStr(flat, s).Ok? <==> flat(Normalize(s)).Some? && |flat(Normalize(s)).value| in {3, 4, 5}
    ensures BoardFromStr(flat, s).Ok? ==> Some(BoardFromStr(flat, s).value) == BoardOfCards(flat(Normalize(s)).value)
  {
    TrimBlank(s);
    NormalizeTrim(s);
    assert BoardFromStr(flat, s) == BoardFromCleaned(flat, Normalize(s));
  }
}
