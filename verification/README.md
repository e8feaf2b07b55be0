# snapcall core, modelled in Dafny

snapcall computes Texas Hold'em equity. Each player is given as text: two
exact hole cards, one known card, a range such as `AKs, QQ+`, or a blank
for unknown cards. The board has zero, three, four or five cards. snapcall
answers either by enumerating every deal exactly or by a Monte Carlo run.
It also reports how it chose between the two.

This project models that core:

- the card text formats (`parse_card`, `parse_cards`, `parse_range`, the
  `FromStr` inputs);
- the combinatorics (`all_cards`, `combination_count`, `n_choose_k`, both
  `for_each_combination`s);
- the mode decision of `calculate_equity_with_math` and
  `calculate_equity_with_ranges`;
- the assignment counters and visitors behind that decision;
- `calculate_equity` on explicit hands;
- the exact enumeration of `enumeration.rs`;
- the Monte Carlo loops of `monte_carlo.rs` and `estimate.rs`.

Modules follow the source:

| module | models |
|---|---|
| `Cards` | cards, the deck |
| `Binomial` | binomial counts and their machine versions |
| `Combinations` | combination visitors |
| `Text` | trimming and normalising |
| `Parsing` | card and range text |
| `ParsingAsWritten` | the byte-based card parser as written |
| `Input` | `HoleCardsInput` and `BoardCardsInput` |
| `EquityInput` | player and board parsing of `equity.rs` |
| `Assignments` | hand assignments |
| `Modes` | the mode decision |
| `Dealing` | cursor dealing |
| `Distribution` | filling slots from a pool |
| `Enumeration` | exact enumeration |
| `Scoring` | tallies and win sums |
| `Simulation` | the Monte Carlo loop |
| `Estimate` | `estimate_equity` |

Win counts are kept as integers; the conversion to percentages is left out.

Several things become parameters of the model rather than parts of it:

- **Hand strength:** `rank: seq<Card> -> int`. It stands for rs_poker's
  `Rankable`.
- **External parsers:** `flat`, for `FlatHand::new_from_str`, and `ranges`,
  for `RangeParser::parse_many`.
- **Deck order:** `deck`, for `Deck::default()`.
- **Randomness:** `pick` (the range draws) and `order` (each iteration's
  shuffled deck).

Every property below holds for every choice of these parameters.

## Model

| member | source | states |
|---|---|---|
| Cards.AllCards | core/src/combinatorics.rs:4-29 | the deck has 52 cards; card i has rank i/4 counted from Ace down and suit i%4 in the order s, h, d, c |
| Cards.AllCardsIsDeck | core/src/combinatorics.rs:4-29 | the deck holds every one of the 52 cards exactly once |
| Cards.Without | core/src/lib.rs:300-303 | removing a set of cards keeps exactly the cards not in the set, in their order, and keeps a repeat-free list repeat-free |
| Cards.WithoutConcat | core/src/lib.rs:300-303 | filtering a concatenation filters each part, so the kept cards stay in their order |
| Cards.WithoutOne | core/src/lib.rs:300-303 | a single card is kept exactly when it is not removed |
| Cards.WithoutDeckSize | core/src/lib.rs:300-303 | removing k distinct cards from the full deck leaves 52 - k cards |
| Cards.DistinctConcat | core/src/equity.rs:253-277 | two card lists joined repeat nothing iff neither repeats and they share no card |
| Cards.DistinctCounts | core/src/estimate.rs:49-74 | a list repeats nothing iff it holds every card at most once, the check `HashSet::insert` performs |
| Binomial.ChooseEdges | core/src/combinatorics.rs:33-38 | C(n,k) is 0 when k > n, and 1 when k is 0 or n |
| Binomial.ChooseSymmetric | core/src/combinatorics.rs:40 | C(n,k) = C(n,n-k), which justifies replacing k by min(k, n-k) |
| Binomial.ChooseStep | core/src/combinatorics.rs:41-49 | (k+1)·C(n,k+1) = (n-k)·C(n,k), so every division in the loop is exact |
| Binomial.ClampedProduct | core/src/combinatorics.rs:41-49 | resuming the loop at a step that holds C(n,i) ends with C(n,k), or usize::MAX when that is larger |
| Binomial.CombinationCount | core/src/combinatorics.rs:32-50 | `combination_count` is the true binomial coefficient, clamped at usize::MAX |
| Binomial.CombinationCountExamples | core/src/lib.rs:729-735 | the library's test values: 990 ways to choose 2 of 45, 44 to choose 1 of 44, 1 to choose none, 0 to choose 6 of 5; and `n_choose_k(10, 3)` = 120 |
| Binomial.NChooseK | core/src/enumeration.rs:9-22 | `n_choose_k` never exceeds usize::MAX, is 0 for k > n and 1 for k = 0 or n, and is exact whenever n·C(n,k) fits in a usize |
| Binomial.SaturatingStep | core/src/enumeration.rs:16-20 | one step of the saturating loop carries C(n,i) to C(n,i+1) while the product fits |
| Binomial.MachineChooseExactOnDeck | core/src/enumeration.rs:9-22 | for n ≤ 52 both machine binomials equal the true coefficient |
| Binomial.FiveFromDeck | core/src/enumeration.rs:309-316 | C(52,5) = 2598960, computed exactly by `n_choose_k` |
| Binomial.DefaultIterations | core/src/combinatorics.rs:53-59 | an iteration count of 0 means 10000; any other count is kept |
| Binomial.EstimateEnumerationCount | core/src/enumeration.rs:295-302 | the count is present iff range product × C(available, missing) fits in a usize, and then equals that product |
| Combinations.CombosMembership | core/src/combinatorics.rs:62-101 | the reference enumeration lists exactly the strictly increasing k-index lists below n |
| Combinations.CombosSorted | core/src/combinatorics.rs:77-99 | the combinations come in lexicographic order |
| Combinations.CombosDistinct | core/src/combinatorics.rs:77-99 | no combination is listed twice |
| Combinations.CombosLength | core/src/combinatorics.rs:62-101 | there are exactly C(n-lo, k) combinations |
| Combinations.CombosEmpty | core/src/combinatorics.rs:66-73 | asking for more cards than there are yields no combination at all |
| Combinations.RecurseIsCombos | core/src/combinatorics.rs:77-99 | the recursive visitor calls back once per combination, in lexicographic order |
| Combinations.ForEachCombination | core/src/combinatorics.rs:62-101 | `for_each_combination` emits the cards of every k-combination, C(n,k) of them, in lexicographic order |
| Combinations.SuccChain | core/src/enumeration.rs:38-48 | the advance step maps each combination to the next one in lexicographic order and reports exhaustion after the last |
| Combinations.NextIndices | core/src/enumeration.rs:38-48 | the in-place advance finds a next combination iff one exists, and leaves exactly that successor in the indices |
| Combinations.ResetAfter | core/src/enumeration.rs:49-51 | the indices after the bumped position become consecutive |
| Combinations.RefreshBuffer | core/src/enumeration.rs:52-54 | the buffer again holds the cards at the current indices |
| Combinations.ForEachCombinationIndexed | core/src/enumeration.rs:26-56 | the index-based visitor emits the cards of every k-combination in lexicographic order: the same list as the recursive visitor |
| Text.Normalize | core/src/input.rs:107-111 | the normalised text holds no whitespace or comma and is no longer than the input |
| Text.NormalizeConcat | core/src/input.rs:107-111 | normalising distributes over concatenation, so every other character survives in order |
| Text.NormalizeIdempotent | core/src/input.rs:107-111 | normalising twice is normalising once |
| Text.NormalizeEmpty | core/src/parsing.rs:62-70 | the normalised text is empty iff the input is only whitespace and commas |
| Text.TrimBlank | core/src/input.rs:37-40 | trimming gives empty text iff the input is all whitespace |
| Text.NormalizeTrim | core/src/input.rs:42 | normalising the trimmed text equals normalising the raw text |
| Text.SplitWhitespaceSpec | core/src/parsing.rs:95-97 | the tokens are nonempty, free of whitespace, and concatenate to the input without its whitespace |
| Text.FallbackTokensSpec | core/src/parsing.rs:95-97 | the fallback's tokens after comma replacement concatenate to the normalised input |
| Text.ByteLenAscii | core/src/parsing.rs:25 | the UTF-8 byte length equals the character count iff every character is ASCII |
| Parsing.ParseCard | core/src/parsing.rs:24-37 | an accepted card text has at least two characters, both ASCII and neither a separator |
| Parsing.ParseCardSpec | core/src/parsing.rs:29-36 | a card parses iff its first two characters name a rank and a suit, either case; the result is that card |
| Parsing.ParseCardShow | core/src/parsing.rs:29-36 | printing a card and parsing it back gives the same card |
| Parsing.ValueFromCharSpec | core/src/parsing.rs:32-33 | the rank lookup `parse_card` calls (rs_poker's `Value::from_char`, taken to accept the ASCII letters A K Q J T 9..2 in either case) accepts a letter iff it is one of those, and names that rank |
| Parsing.SuitFromCharSpec | core/src/parsing.rs:34 | the suit lookup `parse_card` calls (rs_poker's `Suit::from_char`, taken to accept the ASCII letters s h d c in either case) accepts a letter iff it is one of those, and names that suit |
| Parsing.Chunks | core/src/parsing.rs:74-93 | the two-character chunks parse to a list that reads back as the text, or some chunk is no card |
| Parsing.ParseTokens | core/src/parsing.rs:95-97 | tokens parse iff each token does, and the result lists each token's card |
| Parsing.ParseCards | core/src/parsing.rs:60-98 | every failure of `parse_cards` is an InvalidCard error |
| Parsing.ParseCardsBounds | core/src/parsing.rs:60-98 | a parsed list is nonempty and no longer than half the normalised text |
| Parsing.ParseCardsJoinShown | core/src/parsing.rs:41-44 | any nonempty card list, printed with any mix of spaces and commas, parses back to the same list |
| Parsing.ChunksShowAll | core/src/parsing.rs:74-93 | the compact printing of a card list chunks back to that list |
| Parsing.ParseCardsExample | core/src/parsing.rs:53-59 | "Ah Ks Qd" parses to three cards |
| Parsing.ParseRange | core/src/parsing.rs:119-141 | an accepted range text names two ranks and a suited flag |
| Parsing.ParseRangeSpec | core/src/parsing.rs:119-141 | a range parses iff it is two rank letters, optionally followed by `s` or `o`; the result carries those ranks and `suited` only for `s` |
| Parsing.ParseRangeText | core/src/parsing.rs:130-140 | printing a range descriptor and parsing it back gives the same descriptor |
| Parsing.ParseRangeDefaultOffsuit | core/src/parsing.rs:136-138 | a two-letter range is offsuit |
| Parsing.ParseRangeMarker | core/src/parsing.rs:130-135 | a third character other than `s` or `o` is rejected |
| Parsing.ParseRangeExample | core/src/lib.rs:718-727 | "AKs" is Ace-King suited |
| ParsingAsWritten.ParseCardAsWritten | core/src/parsing.rs:24-37 | the byte-length guard lets a one-character non-ASCII text through to a panic, and only such a text |
| ParsingAsWritten.ParseCardAgrees | core/src/parsing.rs:24-37 | whenever the byte-based parser returns, it returns what the corrected one does |
| ParsingAsWritten.ParseCardsAgrees | core/src/parsing.rs:60-98 | whenever the byte-chunking `parse_cards` returns, it agrees with the corrected one |
| ParsingAsWritten.ParseCardsAsciiReturns | core/src/parsing.rs:60-98 | on ASCII text the byte-chunking parser never panics |
| ParsingAsWritten.ParseCardPanics | core/src/parsing.rs:25-30 | "é" passes the length guard and panics on the missing second character |
| ParsingAsWritten.ParseCardsPanicsOnTrailingAccent | core/src/parsing.rs:74-80 | "Ahé" has four bytes, so its second two-byte chunk is the lone "é", on which `parse_card` panics; the corrected parser reads [Ah] |
| ParsingAsWritten.ParseCardsPanicsOnAccent | core/src/parsing.rs:74-97 | "é" alone makes one two-byte chunk and the byte-based `parse_cards` panics, where the corrected parser reports InvalidCard |
| Input.BoardOfCardsRoundTrip | core/src/input.rs:22-31 | a board built from 0, 3, 4 or 5 cards gives those cards back |
| Input.HoleFromStr | core/src/input.rs:36-40 | a hole input is Unknown iff the text is blank; its errors are InvalidHand or InvalidRange |
| Input.HoleFromCleanedSpec | core/src/input.rs:44-77 | one flat card gives Partial, two give Exact, another flat count is InvalidHand, and otherwise the range parser decides |
| Input.HoleFromStrCleaned | core/src/input.rs:42 | a non-blank hole text is read through its normalised form |
| Input.BoardFromStr | core/src/input.rs:84-104 | a board is pre-flop iff its text is blank; any other accepted board has 3, 4 or 5 cards; every error is InvalidHand |
| Input.BoardFromStrSpec | core/src/input.rs:90-103 | a board text parses iff its flat hand has 3, 4 or 5 cards, and the board holds exactly them |
| EquityInput.FilterRange | core/src/equity.rs:140-152 | a range keeps exactly the hands of two different cards that avoid the board |
| EquityInput.ParsePlayerHandInput | core/src/equity.rs:95-162 | a blank player is RandomTwo; every accepted player is well formed and avoids the board |
| EquityInput.PlayerFromTrimmedSpec | core/src/equity.rs:105-161 | one card gives OneKnown, two distinct gives Exact, both off the board; otherwise a range with at least one usable hand |
| EquityInput.ParsePlayerExactShown | core/src/equity.rs:115-127 | two distinct printed cards off the board parse back as that exact hand |
| EquityInput.ParsePlayerOneShown | core/src/equity.rs:106-113 | one printed card off the board parses back as that known card |
| EquityInput.HasDuplicateSpec | core/src/equity.rs:181-189 | the seen-set scan reports a duplicate iff the list repeats a card |
| EquityInput.ParseBoardInput | core/src/equity.rs:167-192 | a blank board is empty; an accepted board has 0, 3, 4 or 5 distinct cards |
| EquityInput.BoardFromCards | core/src/equity.rs:174-191 | a card list passes the board checks iff it has 0, 3, 4 or 5 cards and no repeat |
| EquityInput.ParseBoardShown | core/src/equity.rs:167-192 | a printed board of 3 to 5 distinct cards parses back to itself |
| EquityInput.ParsePlayers | core/src/equity.rs:253-277 | parsed players each come from their own text, and their fixed cards repeat nothing and avoid the known cards |
| EquityInput.ParsePlayersComplete | core/src/equity.rs:253-277 | if every text parses and the fixed cards are distinct and off the board, the player list parses |
| EquityInput.AsRanges | core/src/equity.rs:279-292 | an all-range player list turns into its lists of hands, one per player |
| Assignments.OptionsMembership | core/src/equity.rs:323-431 | a player's options are exactly the hands that fit their spec on this deck |
| Assignments.PairsFromMembership | core/src/equity.rs:400-431 | a random-two player's options are exactly the unordered pairs of distinct deck cards |
| Assignments.FreshFromSpec | core/src/equity.rs:323-342 | a sequence of hands can be dealt with the used-card checks iff its cards are distinct and avoid the used set |
| Assignments.VisitsMembership | core/src/equity.rs:447-584 | the visitor reaches exactly the assignments that fit every spec and repeat no card |
| Assignments.CappedThen | core/src/equity.rs:318-320 | once the count reaches the cap, counting stops there |
| Assignments.CountRecIsCapped | core/src/equity.rs:310-433 | the recursive counter returns the number of valid assignments, capped |
| Assignments.CountAssignmentsIsMin | core/src/equity.rs:301-444 | `count_valid_assignments_for_specs` is min(number of valid assignments, cap) |
| Assignments.RangeCountRecAgrees | core/src/equity.rs:979-1025 | the range-only counter agrees with the general one on the same ranges |
| Assignments.RangeVisitsAgree | core/src/equity.rs:1028-1079 | the range-only visitor reaches the same assignments as the general one |
| Assignments.RangeAssignmentsSpec | core/src/lib.rs:426-525 | the range count is the capped number of valid assignments, and each visited assignment takes one listed hand per player with no card twice |
| Assignments.SingleHandRanges | core/src/lib.rs:777-789 | when every range holds a single hand, the visitor reaches exactly that one assignment if the hands share no card with each other or the used cards, and nothing otherwise |
| Modes.Runouts | core/src/equity.rs:749-751 | the runout count is C(52 - board - 2·players, 5 - board) |
| Modes.RunoutsZero | core/src/equity.rs:753-757 | there are no runouts iff more than 47 cards go to the players |
| Modes.Decide | core/src/equity.rs:759-802 | no assignment is InvalidRange; otherwise exact enumeration is chosen iff assignments × runouts fit the budget |
| Modes.DynamicModeSpec | core/src/equity.rs:736-802 | too many players is InvalidHand, no assignment is InvalidRange, and otherwise the plan matches the true assignment count |
| Modes.DecideDynamicSpec | core/src/equity.rs:759-772 | deciding with the capped count gives the same plan as with the true count |
| Modes.CappedDecision | core/src/equity.rs:761-772 | capping the count at budget/runouts + 1 never changes the decision |
| Modes.ValidateRangeInputs | core/src/equity.rs:916-976 | range inputs pass iff there are two or more players, the board is at most five distinct cards, each range is nonempty with well-formed hands, and the cards fit the deck |
| Modes.RangesModeSpec | core/src/equity.rs:1082-1114 | validation errors pass through; otherwise the ranges path decides from the true assignment count as the dynamic path does |
| Modes.RangesModeAgrees | core/src/equity.rs:1082-1114 | on valid ranges the ranges path equals the dynamic path on the same ranges |
| Modes.DecideRangesSpec | core/src/equity.rs:1100-1114 | the ranges decision is an error iff no assignment exists, and otherwise fits the true count |
| Modes.FullyCollidingRanges | core/src/lib.rs:803-812 | ranges {AhAd} and {AhKd}, which share the ace of hearts, give InvalidRange on an empty board |
| Modes.CalculateEquityWithMath | core/src/equity.rs:237-296 | fewer than two players is InvalidHand; a success implies the board parsed and at least one assignment and runout exist |
| Modes.ParsedRangesValid | core/src/equity.rs:279-292 | parsed all-range players pass range validation iff they fit the deck |
| Modes.CalculateEquityFromHands | core/src/lib.rs:254-315 | explicit hands are accepted iff there are at least two, each of two cards, the board has at most five cards, and no card repeats |
| Modes.CalculateEquityFromHandsSpec | core/src/lib.rs:300-315 | accepted hands are enumerated iff the runouts fit the budget, and the enumerated wins lie between runouts and players × runouts |
| Modes.Remaining | core/src/lib.rs:300-303 | the remaining deck holds exactly the unused cards, once each |
| Modes.RemainingSize | core/src/lib.rs:300-303 | after n distinct hands and the board, 52 - 2n - board cards remain |
| Modes.SolveWithSpec | core/src/equity.rs:851-866 | enumeration is chosen iff C(remaining, missing) ≤ budget, and then each runout gives out 1 to n wins |
| Dealing.DealHoles | core/src/enumeration.rs:192-211 | the seat pass succeeds iff the stream holds enough cards, and leaves the rest of the stream |
| Dealing.DealHolesAt | core/src/enumeration.rs:192-211 | each seat is served at the cursor left by the seats before it |
| Dealing.DealHolesCards | core/src/enumeration.rs:192-211 | the seat pass hands out exactly the fixed cards, the range hands and the stream prefix it consumed |
| Dealing.DealAll | core/src/enumeration.rs:177-216 | dealing succeeds iff the stream covers the seats and the missing board cards; the board is extended to five |
| Dealing.DealDistinct | core/src/enumeration.rs:177-216 | a deal from a fresh stream repeats no card |
| Dealing.DealCardsPermutation | core/src/enumeration.rs:177-216 | a deal holds exactly the board, the fixed cards, the range hands and the stream prefix |
| Dealing.DealsWinsBounds | core/src/enumeration.rs:229-237 | over a list of deals the wins total between the deal count and players × deals |
| Dealing.DealsWinsSnoc | core/src/enumeration.rs:229-237 | scoring one more deal adds exactly its tally |
| Distribution.ArrangementsMembership | core/src/enumeration.rs:177-216 | the corrected enumeration lists exactly the valid fillings: one free card per slot position, none twice; and it lists no filling twice |
| Distribution.ArrangementsDistinct | core/src/enumeration.rs:177-216 | the corrected enumeration lists no filling twice, so every valid deal is scored once |
| Distribution.CursorFillsSound | core/src/enumeration.rs:177-216 | every filling the source's cursor produces is valid |
| Distribution.CursorMissesSwap | core/src/enumeration.rs:177-216 | the valid filling [1, 0] of two one-card slots is never produced by the cursor |
| Distribution.SingleSlot | core/src/enumeration.rs:177-191 | with one slot, both enumerations are the C(n, m) combinations |
| Enumeration.NonRangeSlots | core/src/enumeration.rs:82-95 | the slots to fill are partial count + 2 × unknown count + missing board cards |
| Enumeration.RangeChoicesSpec | core/src/enumeration.rs:143-170 | the leaves are reached with exactly the choices of one listed hand per range player, with no card twice and none fixed or on the board |
| Enumeration.EstimateExactEnumeration | core/src/enumeration.rs:63-139 | the result is an exact enumeration whose sample count is the number of deals scored |
| Enumeration.EnumeratedDealsDistinct | core/src/enumeration.rs:143-290 | every scored deal repeats no card and extends the given board to five cards |
| Enumeration.CursorBranchCount | core/src/enumeration.rs:172-216 | a leaf scores C(pool, slots) deals, and none when the pool is too small |
| Enumeration.OrdersAgreeWithoutOpenSeats | core/src/enumeration.rs:177-216 | without partial or unknown players the cursor and the corrected order score the same deals |
| Enumeration.ExactHandsSamples | core/src/enumeration.rs:63-139 | with only exact hands the samples are C(52 - fixed, missing board cards) |
| Enumeration.TwoExactHandsSamples | core/src/enumeration.rs:330-347 | two exact hands score one deal on the river and 44 on the turn |
| Enumeration.EstimateExactEnumerationBounds | core/src/enumeration.rs:229-237 | the wins total between the samples and players × samples |
| Enumeration.CursorMissesSwappedDeal | core/src/enumeration.rs:177-216 | two partial players on a full board: the deal giving them the pool's cards swapped is valid, and the corrected order scores it where the source does not |
| Scoring.TallySpec | core/src/monte_carlo.rs:114-130 | a player scores a deal iff no other player ranks higher, so each deal gives out 1 to n points |
| Scoring.SumAdd | core/src/monte_carlo.rs:114-130 | adding a tally adds its sum to the total |
| Scoring.WinsOverBounds | core/src/lib.rs:205-243 | over a list of runouts the wins total between the runouts and players × runouts, with no player above the runout count |
| Scoring.ExactWinsBounds | core/src/lib.rs:205-243 | exact scoring covers C(remaining, missing) runouts and its wins are bounded accordingly |
| Simulation.DrawRange | core/src/monte_carlo.rs:41-61 | a drawn range hand is in the player's list and avoids the used cards; none is drawn iff none of the 100 attempts accepts |
| Simulation.DrawRangeFirst | core/src/monte_carlo.rs:41-61 | the hand drawn is the one of the first accepting attempt |
| Simulation.RangePassSpec | core/src/monte_carlo.rs:41-61 | every range player gets a hand from their list, fresh against everything used before, and the used set grows by those cards |
| Simulation.InitialUsed | core/src/monte_carlo.rs:23-36 | the starting used set is exactly the board and every exact or partial player's known cards |
| Simulation.IterationDistinct | core/src/monte_carlo.rs:64-111 | a completed iteration deals no card twice and extends the board to five cards |
| Simulation.CompletedDealsDistinct | core/src/monte_carlo.rs:9-155 | every deal a run scores repeats no card |
| Simulation.MonteCarloCounts | core/src/monte_carlo.rs:132-154 | no completed iteration is InvalidRange; otherwise a Monte Carlo result with 1 to `iterations` samples, one win count per player |
| Simulation.MonteCarloBounds | core/src/monte_carlo.rs:114-132 | the wins total between the samples and players × samples, and no player wins more than the samples |
| Simulation.MonteCarloStep | core/src/monte_carlo.rs:72-132 | a completed iteration adds its tally and one sample; an abandoned one changes nothing |
| Simulation.EstimateMonteCarlo | core/src/monte_carlo.rs:9-155 | the loop computes the same wins and samples as the iteration-by-iteration definition |
| Estimate.KeepHands | core/src/estimate.rs:90-101 | the range filter keeps exactly the hands of two different cards off the board |
| Estimate.ValidateAccepts | core/src/estimate.rs:49-110 | validation passes iff the known cards are distinct and off the board, and every range keeps a hand |
| Estimate.ValidateValues | core/src/estimate.rs:89-107 | validated players are unchanged except for their filtered ranges |
| Estimate.ParsePlayers | core/src/estimate.rs:31-39 | the players parse iff every text does; the first failing text decides the error |
| Estimate.EstimateParsed | core/src/estimate.rs:41-252 | too many cards for the deck is InvalidHand; a success is Monte Carlo with 1 to `iterations` samples, where 0 means 10000 |
| Estimate.EstimateEquity | core/src/estimate.rs:24-28 | no villains is InvalidHand; a success has one win count per player and a bounded sample count |
| Estimate.EstimateErrorKinds | core/src/estimate.rs:24-252 | every error is InvalidHand or InvalidRange |
| Estimate.EstimateDealsDistinct | core/src/estimate.rs:120-231 | after validation every simulated deal repeats no card and keeps the board |

## Left out

- Equity percentages, their rounding and the division by samples use
  floating point and are not modelled. This covers core/src/monte_carlo.rs:141-148
  and the percentage steps of core/src/equity.rs. Wins stay integers.
- Hand ranking (rs_poker's `Rankable`) is the parameter `rank`.
- rs_poker's `FlatHand::new_from_str` and `RangeParser::parse_many` are the
  parameters `flat` and `ranges`.
- `Deck::default()` is the parameter `deck`.
- `rand` is the parameters `pick` and `order`.
- The exact and Monte Carlo samplers of `equity.rs` behind the mode decision
  (`calculate_exact_equity_for_specs`, `calculate_monte_carlo_equity_for_specs`)
  are not modelled past the decision. `Modes` stops at the plan they would run.
- Error message strings are not modelled; only the error kind is kept.
- The command line tool, the wasm and uniffi bindings, `ffi.rs` and
  `types.rs` are not part of this model. They only convert types or do I/O.
- The engine's design, and the tests at core/src/enumeration.rs:330-373,
  expect `estimate_equity` to answer small problems by exact enumeration:
  one sample on the river and 44 on the turn. The code of `estimate_equity` always runs Monte Carlo,
  and the model follows the code: `Estimate.EstimateEquity` always answers
  with the Monte Carlo mode. The exact enumeration is modelled on its own,
  and the tests' counts are stated about it in `Enumeration.TwoExactHandsSamples`.
- Parsing.ValueFromChar and Parsing.SuitFromChar stand for rs_poker's
  `Value::from_char` and `Suit::from_char`, which are not part of this model.
  They are taken to accept the ASCII rank letters A K Q J T 9..2 and suit
  letters s h d c, in either case. `Parsing.CardCharsAscii` and
  `ParsingAsWritten.ParseCardsAgrees` rely on those letters being ASCII.
- EquityInput.ParsePlayerHandInput, EquityInput.ParseBoardInput and
  Modes.CalculateEquityWithMath are built on the corrected character-based
  `Parsing.ParseCards`, not on the byte-chunking `parse_cards` that
  core/src/equity.rs:105 and core/src/equity.rs:171 call. The two agree on
  every input where the byte-chunking one returns
  (`ParsingAsWritten.ParseCardsAgrees`). On inputs such as "Ahé" or "é"
  the code panics, while the model answers.
- The Monte Carlo fallback of `calculate_equity` (core/src/lib.rs:317-349,
  rs_poker's `MonteCarloGame`) is random and is not modelled. Past the
  decision to simulate, `Modes` answers with the bare `HandsSolve.Simulated`.
- The counters' u128 arithmetic never reaches 2^128: they are capped near
  budget/runouts. Only `saturating_mul` in `total_states` is written out, as
  `Modes.SaturatingMul128`.

## Findings

| source | as written | input that shows it | evidently intended | confidence | as-written member | corrected member |
|---|---|---|---|---|---|---|
| core/src/parsing.rs:24-37 | `parse_card` checks the byte length, then reads the second character with `unwrap`. `parse_cards` cuts the normalised text into two-byte slices. | `parse_card("é")`: two bytes, one character, so `unwrap` panics. `parse_cards("Ahé")`: four bytes, so the second two-byte chunk is the lone "é", and `parse_card` panics on it. | Guard on the character count and chunk by characters: "é" is InvalidCard, and "Ahé" takes the whitespace fallback and reads [Ah]. | not executed | ParsingAsWritten.ParseCardsPanicsOnTrailingAccent | Parsing.ParseCardsJoinShown |
| core/src/enumeration.rs:177-216 | One combination of the pool is cut in serving order among the partial hands, unknown hands and missing board cards. Each slot therefore only ever gets pool cards in increasing pool order. | Two one-card (partial) players on a complete board with a two-card pool: the deal giving the first player pool[1] and the second pool[0] is never scored. | Choose each slot's cards separately among the cards still free, so every valid deal is scored once. | not executed | Enumeration.CursorMissesSwappedDeal | Distribution.ArrangementsMembership |
