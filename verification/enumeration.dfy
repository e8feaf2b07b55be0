/** `estimate_equity_exact_enumeration` and `enumerate_ranges` of
    core/src/enumeration.rs: every choice of one hand per range player that
    avoids the fixed cards, the board and the earlier choices, and for each
    such choice every filling of the partial hands, unknown hands and
    missing board cards from the remaining pool. The pool order
    (`Deck::default`) is the parameter `deck`; the set `fixed_known` is the
    parameter `fixed`, which the caller fills with the board and the known
    hole cards. */
module Enumeration {
  import opened Cards
  import opened Combinations
  import opened Binomial
  import opened Scoring
  import opened Input
  import opened Dealing
  import opened Distribution
  import Assignments

  /** How one combination of pool indices reaches the slots: `Cursor` is
      the source's single combination cut in serving order, `PerSlot` the
      corrected one combination per slot. */
  datatype FillOrder = Cursor | PerSlot

  function Needs(players: seq<HoleInput>): (r: seq<nat>)
    ensures |r| == |players| && forall i :: 0 <= i < |players| ==> r[i] == Need(players[i])
    ensures Sum(r) == Slots(players)
  {
    if players == [] then []
    else
      var r := [Need(players[0])] + Needs(players[1..]);
      assert r[1..] == Needs(players[1..]);
      r
  }

  /** The slots in serving order: each seat's share in seat order, then the
      board top-up. */
  function SlotSizes(players: seq<HoleInput>, missing: nat): (r: seq<nat>)
    ensures Sum(r) == Slots(players) + missing
  {
    SumSnoc(Needs(players), missing);
    Needs(players) + [missing]
  }

  lemma {:induction false} SumSnoc(a: seq<nat>, m: nat)
    ensures Sum(a + [m]) == Sum(a) + m
  {
    if a != [] {
      assert (a + [m])[1..] == a[1..] + [m];
      SumSnoc(a[1..], m);
    }
  }

  function PartialCount(players: seq<HoleInput>): nat {
    if players == [] then 0 else (if players[0].Partial? then 1 else 0) + PartialCount(players[1..])
  }

  function UnknownCount(players: seq<HoleInput>): nat {
    if players == [] then 0 else (if players[0].Unknown? then 1 else 0) + UnknownCount(players[1..])
  }

  /** `non_range_slots`: one card per partial hand, two per unknown hand and
      the missing board cards are exactly what the serving pass reads. */
  lemma {:induction false} NonRangeSlots(players: seq<HoleInput>, missing: nat)
    ensures Sum(SlotSizes(players, missing)) == PartialCount(players) + 2 * UnknownCount(players) + missing
  {
    SlotsByKind(players);
  }

  lemma {:induction false} SlotsByKind(players: seq<HoleInput>)
    ensures Slots(players) == PartialCount(players) + 2 * UnknownCount(players)
  {
    if players != [] {
      SlotsByKind(players[1..]);
    }
  }

  /** The index fillings tried for a pool of `n` cards. */
  function Fills(order: FillOrder, n: nat, sizes: seq<nat>): seq<seq<nat>> {
    match order
    case Cursor => CursorFills(n, sizes)
    case PerSlot => Arrangements(n, sizes, {})
  }

  lemma {:induction false} FillsValid(order: FillOrder, n: nat, sizes: seq<nat>)
    ensures forall k :: 0 <= k < |Fills(order, n, sizes)| ==> ValidFill(Fills(order, n, sizes)[k], sizes, n, {})
  {
    var l := Fills(order, n, sizes);
    forall k | 0 <= k < |l|
      ensures ValidFill(l[k], sizes, n, {})
    {
      if order.Cursor? {
        CursorFillsSound(n, sizes, l[k]);
      } else {
        ArrangementsMembership(n, sizes, {}, l[k]);
      }
    }
  }

  // ---------------------------------------------------------------------
  // The range players

  function RangeSpecs(players: seq<HoleInput>): (r: seq<Assignments.PlayerSpec>)
    ensures |r| == RangeCount(players)
    ensures forall i :: 0 <= i < |r| ==> r[i] == Assignments.Range(RangeLists(players)[i])
  {
    var l := RangeLists(players);
    seq(|l|, i requires 0 <= i < |l| => Assignments.Range(l[i]))
  }

  /** The assignments `enumerate_ranges` reaches its leaf with: one hand per
      range player in seat order, skipping any hand that touches a fixed
      card, the board or an earlier player's choice. */
  function RangeChoices(players: seq<HoleInput>, deck: seq<Card>, fixed: set<Card>, board: seq<Card>)
    : seq<seq<Combo>>
  {
    Assignments.Visits(RangeSpecs(players), deck, fixed + Elems(board))
  }

  lemma {:induction false} VisitsLength(specs: seq<Assignments.PlayerSpec>, deck: seq<Card>, used: set<Card>, a: seq<Combo>)
    requires a in Assignments.Visits(specs, deck, used)
    ensures |a| == |specs|
    decreases |specs|
  {
    if specs != [] {
      Assignments.VisitsLoopMembership(specs[1..], deck, used, Assignments.Options(specs[0], deck, used), a);
      VisitsLength(specs[1..], deck, used + Assignments.Hole(a[0]), a[1..]);
    }
  }

  lemma {:induction false} RangeChoicesLength(players: seq<HoleInput>, deck: seq<Card>, fixed: set<Card>, board: seq<Card>)
    ensures forall k :: 0 <= k < |RangeChoices(players, deck, fixed, board)| ==>
      |RangeChoices(players, deck, fixed, board)[k]| == RangeCount(players)
  {
    var l := RangeChoices(players, deck, fixed, board);
    forall k | 0 <= k < |l|
      ensures |l[k]| == RangeCount(players)
    {
      VisitsLength(RangeSpecs(players), deck, fixed + Elems(board), l[k]);
    }
  }

  // ---------------------------------------------------------------------
  // The leaves

  /** The pool of one leaf: the deck without the fixed cards and without
      the cards of the range choice. */
  function Pool(deck: seq<Card>, fixed: set<Card>, a: seq<Combo>): seq<Card> {
    Without(Without(deck, fixed), Elems(HoleCards(a)))
  }

  function LeafDeals(players: seq<HoleInput>, a: seq<Combo>, pool: seq<Card>, board: seq<Card>, missing: nat,
                     fills: seq<seq<nat>>): (r: seq<Deal>)
    requires |a| == RangeCount(players)
    requires forall k :: 0 <= k < |fills| ==>
      |fills[k]| == Slots(players) + missing && IndicesBelow(fills[k], |pool|)
    ensures |r| == |fills|
    ensures forall k :: 0 <= k < |r| ==>
      |r[k].holes| == |players| && Some(r[k]) == DealAll(players, a, Select(pool, fills[k]), board, missing)
  {
    seq(|fills|, k requires 0 <= k < |fills| => DealAll(players, a, Select(pool, fills[k]), board, missing).value)
  }

  /** One leaf of `enumerate_ranges`: nothing when the pool is smaller than
      the slots, otherwise one deal per filling. */
  function Branch(players: seq<HoleInput>, a: seq<Combo>, pool: seq<Card>, board: seq<Card>, missing: nat,
                  order: FillOrder): (r: seq<Deal>)
    requires |a| == RangeCount(players)
    ensures forall k :: 0 <= k < |r| ==> |r[k].holes| == |players|
  {
    var sizes := SlotSizes(players, missing);
    if |pool| < Slots(players) + missing then []
    else
      var fills := Fills(order, |pool|, sizes);
      FillsValid(order, |pool|, sizes);
      LeafDeals(players, a, pool, board, missing, fills)
  }

  function Branches(players: seq<HoleInput>, deck: seq<Card>, fixed: set<Card>, board: seq<Card>, missing: nat,
                    order: FillOrder, choices: seq<seq<Combo>>): (r: seq<Deal>)
    requires forall k :: 0 <= k < |choices| ==> |choices[k]| == RangeCount(players)
    ensures forall k :: 0 <= k < |r| ==> |r[k].holes| == |players|
  {
    if choices == [] then []
    else
      Branch(players, choices[0], Pool(deck, fixed, choices[0]), board, missing, order)
      + Branches(players, deck, fixed, board, missing, order, choices[1..])
  }

  /** Every deal the enumeration scores, in scoring order. */
  function AllDeals(players: seq<HoleInput>, deck: seq<Card>, fixed: set<Card>, board: seq<Card>, order: FillOrder)
    : (r: seq<Deal>)
    requires |board| <= 5
    ensures forall k :: 0 <= k < |r| ==> |r[k].holes| == |players|
  {
    RangeChoicesLength(players, deck, fixed, board);
    Branches(players, deck, fixed, board, Missing(board), order, RangeChoices(players, deck, fixed, board))
  }

  /** `estimate_equity_exact_enumeration` with integer wins: every scored
      deal is tallied and counted as a sample. */
  function EstimateExactEnumeration(rank: seq<Card> -> int, players: seq<HoleInput>, deck: seq<Card>,
                                    fixed: set<Card>, board: seq<Card>, order: FillOrder): (r: Counts)
    requires |board| <= 5
    ensures |r.wins| == |players| && r.mode == ExactEnumeration
    ensures r.samples == |AllDeals(players, deck, fixed, board, order)|
  {
    var deals := AllDeals(players, deck, fixed, board, order);
    Counts(DealsWins(rank, |players|, deals), |deals|, ExactEnumeration)
  }

  // ---------------------------------------------------------------------
  // Range choices

  /** The parser's range lists: no hand holds the same card twice. */
  ghost predicate RangesWellFormed(players: seq<HoleInput>) {
    forall i :: 0 <= i < |players| && players[i].Range? ==>
      forall h :: h in players[i].hands ==> h.c1 != h.c2
  }

  lemma {:induction false} RangeListsWellFormed(players: seq<HoleInput>)
    requires RangesWellFormed(players)
    ensures forall i :: 0 <= i < |RangeLists(players)| ==>
      forall h :: h in RangeLists(players)[i] ==> h.c1 != h.c2
  {
    if players != [] {
      assert RangesWellFormed(players[1..]) by {
        forall i | 0 <= i < |players[1..]| && players[1..][i].Range?
          ensures forall h :: h in players[1..][i].hands ==> h.c1 != h.c2
        {
          assert players[1..][i] == players[i + 1];
        }
      }
      RangeListsWellFormed(players[1..]);
    }
  }

  /** The leaves are reached with exactly the choices of one listed hand per
      range player, no card twice, none fixed and none on the board. */
  lemma {:induction false} RangeChoicesSpec(players: seq<HoleInput>, deck: seq<Card>, fixed: set<Card>, board: seq<Card>, a: seq<Combo>)
    requires RangesWellFormed(players) && Distinct(deck)
    ensures a in RangeChoices(players, deck, fixed, board) <==>
      (&& |a| == RangeCount(players)
       && (forall i :: 0 <= i < |a| ==> a[i] in RangeLists(players)[i])
       && Distinct(HoleCards(a))
       && (forall c :: c in HoleCards(a) ==> c !in fixed && c !in board))
  {
    var specs := RangeSpecs(players);
    var used := fixed + Elems(board);
    RangeListsWellFormed(players);
    assert forall i :: 0 <= i < |specs| ==> Assignments.WellFormed(specs[i]);
    Assignments.VisitsMembership(specs, deck, used, a);
    Assignments.FreshFromSpec(a, used);
    if |a| == |specs| {
      RangeFits(players, deck, a);
    }
    AvoidsUsed(HoleCards(a), fixed, board);
  }

  lemma {:induction false} RangeFits(players: seq<HoleInput>, deck: seq<Card>, a: seq<Combo>)
    requires |a| == RangeCount(players)
    ensures (forall i :: 0 <= i < |a| ==> Assignments.Fits(a[i], RangeSpecs(players)[i], deck))
      <==> (forall i :: 0 <= i < |a| ==> a[i] in RangeLists(players)[i])
  {
    var specs := RangeSpecs(players);
    forall i | 0 <= i < |a|
      ensures Assignments.Fits(a[i], specs[i], deck) <==> a[i] in RangeLists(players)[i]
    {
      assert specs[i] == Assignments.Range(RangeLists(players)[i]);
    }
  }

  lemma {:induction false} AvoidsUsed(cs: seq<Card>, fixed: set<Card>, board: seq<Card>)
    ensures (forall i :: 0 <= i < |cs| ==> cs[i] !in fixed + Elems(board))
      <==> (forall c :: c in cs ==> c !in fixed && c !in board)
  {
  }

  // ---------------------------------------------------------------------
  // No card is dealt twice

  lemma {:induction false} SelectFrom(pool: seq<Card>, x: seq<nat>)
    requires IndicesBelow(x, |pool|) && Distinct(x) && Distinct(pool)
    ensures Distinct(Select(pool, x))
    ensures forall c :: c in Select(pool, x) ==> c in pool
  {
  }

  /** One leaf deal repeats no card when the pool holds none of the fixed,
      board or range cards. */
  lemma {:induction false} LeafDistinct(players: seq<HoleInput>, a: seq<Combo>, pool: seq<Card>, board: seq<Card>, missing: nat, x: seq<nat>,
                     n: nat)
    requires |board| + missing == n && |a| == RangeCount(players)
    requires ValidFill(x, SlotSizes(players, missing), |pool|, {})
    requires Distinct(pool) && Distinct(board + KnownCards(players))
    requires Assignments.FreshFrom(a, Elems(board + KnownCards(players)))
    requires forall c :: c in pool ==> c !in board + KnownCards(players) && c !in HoleCards(a)
    ensures DealOk(DealAll(players, a, Select(pool, x), board, missing).value, board, n)
  {
    SelectFrom(pool, x);
    DealDistinct(players, a, Select(pool, x), board, missing);
  }

  lemma {:induction false} BranchDistinct(players: seq<HoleInput>, a: seq<Combo>, pool: seq<Card>, board: seq<Card>, missing: nat,
                       order: FillOrder, n: nat)
    requires |board| + missing == n && |a| == RangeCount(players)
    requires Distinct(pool) && Distinct(board + KnownCards(players))
    requires Assignments.FreshFrom(a, Elems(board + KnownCards(players)))
    requires forall c :: c in pool ==> c !in board + KnownCards(players) && c !in HoleCards(a)
    ensures AllOk(Branch(players, a, pool, board, missing, order), board, n)
  {
    var sizes := SlotSizes(players, missing);
    var r := Branch(players, a, pool, board, missing, order);
    if |pool| >= Slots(players) + missing {
      var fills := Fills(order, |pool|, sizes);
      FillsValid(order, |pool|, sizes);
      assert r == LeafDeals(players, a, pool, board, missing, fills);
      forall k | 0 <= k < |r|
        ensures DealOk(r[k], board, n)
      {
        LeafDistinct(players, a, pool, board, missing, fills[k], n);
      }
    }
    AllOkSpec(r, board, n);
  }

  /** The pool of a leaf shares no card with the fixed cards or the range
      choice. */
  lemma {:induction false} PoolFacts(deck: seq<Card>, fixed: set<Card>, a: seq<Combo>)
    requires Distinct(deck)
    ensures Distinct(Pool(deck, fixed, a))
    ensures forall c :: c in Pool(deck, fixed, a) <==> c in deck && c !in fixed && c !in HoleCards(a)
  {
  }

  lemma {:induction false} BranchesDistinct(players: seq<HoleInput>, deck: seq<Card>, fixed: set<Card>, board: seq<Card>,
                                            missing: nat, order: FillOrder, choices: seq<seq<Combo>>, n: nat)
    requires |board| + missing == n
    requires forall k :: 0 <= k < |choices| ==> |choices[k]| == RangeCount(players)
    requires Distinct(deck) && Distinct(board + KnownCards(players)) && Elems(board + KnownCards(players)) <= fixed
    requires forall k :: 0 <= k < |choices| ==>
      Distinct(HoleCards(choices[k])) && forall c :: c in HoleCards(choices[k]) ==> c !in fixed
    ensures AllOk(Branches(players, deck, fixed, board, missing, order, choices), board, n)
    decreases |choices|
  {
    if choices != [] {
      var a := choices[0];
      var known := board + KnownCards(players);
      Assignments.FreshFromSpec(a, Elems(known));
      PoolFacts(deck, fixed, a);
      BranchDistinct(players, a, Pool(deck, fixed, a), board, missing, order, n);
      BranchesDistinct(players, deck, fixed, board, missing, order, choices[1..], n);
      AllOkAppend(Branch(players, a, Pool(deck, fixed, a), board, missing, order),
                  Branches(players, deck, fixed, board, missing, order, choices[1..]), board, n);
    }
  }

  /** Every deal the enumeration scores holds no card twice and completes
      the board to five cards, provided the board and the known hole cards
      repeat nothing, the fixed set covers them and every range hand holds
      two different cards. */
  lemma {:induction false} EnumeratedDealsDistinct(players: seq<HoleInput>, deck: seq<Card>, fixed: set<Card>, board: seq<Card>, order: FillOrder)
    requires |board| <= 5 && RangesWellFormed(players) && Distinct(deck)
    requires Distinct(board + KnownCards(players)) && Elems(board + KnownCards(players)) <= fixed
    ensures AllOk(AllDeals(players, deck, fixed, board, order), board, 5)
  {
    ChoicesFresh(players, deck, fixed, board);
    BranchesDistinct(players, deck, fixed, board, Missing(board), order, RangeChoices(players, deck, fixed, board), 5);
  }

  /** Every range choice the enumeration reaches repeats no card and avoids
      the fixed cards. */
  lemma {:induction false} ChoicesFresh(players: seq<HoleInput>, deck: seq<Card>, fixed: set<Card>, board: seq<Card>)
    requires RangesWellFormed(players) && Distinct(deck)
    ensures forall k :: 0 <= k < |RangeChoices(players, deck, fixed, board)| ==>
      |RangeChoices(players, deck, fixed, board)[k]| == RangeCount(players)
    ensures forall k :: 0 <= k < |RangeChoices(players, deck, fixed, board)| ==>
      Distinct(HoleCards(RangeChoices(players, deck, fixed, board)[k]))
      && forall c :: c in HoleCards(RangeChoices(players, deck, fixed, board)[k]) ==> c !in fixed
  {
    var choices := RangeChoices(players, deck, fixed, board);
    RangeChoicesLength(players, deck, fixed, board);
    forall k | 0 <= k < |choices|
      ensures Distinct(HoleCards(choices[k])) && forall c :: c in HoleCards(choices[k]) ==> c !in fixed
    {
      ChoiceFresh(players, deck, fixed, board, choices[k]);
    }
  }

  /** A range choice the enumeration reaches repeats no card and avoids the
      fixed cards. */
  lemma {:induction false} ChoiceFresh(players: seq<HoleInput>, deck: seq<Card>, fixed: set<Card>, board: seq<Card>, a: seq<Combo>)
    requires RangesWellFormed(players) && Distinct(deck)
    requires a in RangeChoices(players, deck, fixed, board)
    ensures Distinct(HoleCards(a)) && forall c :: c in HoleCards(a) ==> c !in fixed
  {
    RangeChoicesSpec(players, deck, fixed, board, a);
  }

  // ---------------------------------------------------------------------
  // How many deals are scored

  /** A leaf, as written, scores C(pool, non_range_slots) deals: none when
      the pool is smaller than the slots. */
  lemma {:induction false} CursorBranchCount(players: seq<HoleInput>, a: seq<Combo>, pool: seq<Card>, board: seq<Card>, missing: nat)
    requires |a| == RangeCount(players)
    ensures |Branch(players, a, pool, board, missing, Cursor)| == Choose(|pool|, Slots(players) + missing)
    ensures |pool| < Slots(players) + missing ==> Branch(players, a, pool, board, missing, Cursor) == []
  {
    var slots := Slots(players) + missing;
    if |pool| < slots {
      ChooseEdges(|pool|, slots);
    } else {
      CombosLength(0, |pool|, slots);
    }
  }

  lemma {:induction false} KeepAll(l: seq<seq<nat>>, used: set<nat>)
    requires forall k :: 0 <= k < |l| ==> Avoids(l[k], used)
    ensures Keep(l, used) == l
  {
    if l != [] {
      KeepAll(l[1..], used);
    }
  }

  /** Slots that take no card do not change the corrected enumeration. */
  lemma {:induction false} ZeroSlots(n: nat, z: seq<nat>, sizes: seq<nat>, used: set<nat>)
    requires forall i :: 0 <= i < |z| ==> z[i] == 0
    ensures Arrangements(n, z + sizes, used) == Arrangements(n, sizes, used)
    decreases |z|
  {
    if z != [] {
      var all := z + sizes;
      assert all[0] == 0 && all[1..] == z[1..] + sizes;
      var empty: seq<nat> := [];
      NoFreeChoice(n, used);
      var rest := Arrangements(n, all[1..], used);
      assert Elems(empty) == {} && used + {} == used;
      PrefixNothing(rest);
      assert [empty][1..] == [];
      assert ArrangeLoop(n, all, used, [empty]) == PrefixAll(empty, rest) + ArrangeLoop(n, all, used, []);
      assert Arrangements(n, all, used) == ArrangeLoop(n, all, used, [empty]);
      ZeroSlots(n, z[1..], sizes, used);
      assert rest == Arrangements(n, sizes, used);
      assert ArrangeLoop(n, all, used, []) == [];
      assert PrefixAll(empty, rest) + [] == rest;
    } else {
      assert z + sizes == sizes;
    }
  }

  lemma {:induction false} NoFreeChoice(n: nat, used: set<nat>)
    ensures FreeCombos(n, 0, used) == [[]]
  {
    var empty: seq<nat> := [];
    assert Combos(0, n, 0) == [empty];
    KeepAll([empty], used);
  }

  lemma {:induction false} PrefixNothing(l: seq<seq<nat>>)
    ensures PrefixAll([], l) == l
  {
    var empty: seq<nat> := [];
    forall i | 0 <= i < |l|
      ensures PrefixAll(empty, l)[i] == l[i]
    {
      assert empty + l[i] == l[i];
    }
  }

  lemma {:induction false} SumZero(xs: seq<nat>)
    requires Sum(xs) == 0
    ensures forall i :: 0 <= i < |xs| ==> xs[i] == 0
  {
    if xs != [] {
      SumZero(xs[1..]);
      forall i | 1 <= i < |xs|
        ensures xs[i] == 0
      {
        assert xs[i] == xs[1..][i - 1];
      }
    }
  }

  /** With no partial or unknown hand the only slot that takes cards is the
      board top-up, and both fill orders list its C(n, missing) fillings. */
  lemma {:induction false} FillsAgree(players: seq<HoleInput>, missing: nat, n: nat)
    requires Slots(players) == 0
    ensures Fills(PerSlot, n, SlotSizes(players, missing)) == Fills(Cursor, n, SlotSizes(players, missing))
  {
    var z := Needs(players);
    SumZero(z);
    ZeroSlots(n, z, [missing], {});
    SingleSlot(n, missing);
  }

  /** With only exact hands and ranges, the source and the corrected
      enumeration score the same deals. */
  lemma {:induction false} OrdersAgreeWithoutOpenSeats(players: seq<HoleInput>, a: seq<Combo>, pool: seq<Card>, board: seq<Card>, missing: nat)
    requires |a| == RangeCount(players) && Slots(players) == 0
    ensures Branch(players, a, pool, board, missing, PerSlot) == Branch(players, a, pool, board, missing, Cursor)
  {
    FillsAgree(players, missing, |pool|);
  }

  lemma {:induction false} WithoutNothing(s: seq<Card>)
    ensures Without(s, {}) == s
  {
    if s != [] {
      WithoutNothing(s[1..]);
    }
  }

  /** Without range players there is the one leaf, with the deck minus the
      fixed cards as its pool. */
  lemma {:induction false} DealsWithoutRanges(players: seq<HoleInput>, deck: seq<Card>, fixed: set<Card>, board: seq<Card>, order: FillOrder)
    requires |board| <= 5 && RangeCount(players) == 0
    ensures AllDeals(players, deck, fixed, board, order) == Branch(players, [], Without(deck, fixed), board, Missing(board), order)
  {
    var empty: seq<Combo> := [];
    ChoicesWithoutRanges(players, deck, fixed, board);
    PoolWithoutRanges(deck, fixed);
    SingleChoice(players, deck, fixed, board, Missing(board), order, [empty]);
  }

  lemma {:induction false} ChoicesWithoutRanges(players: seq<HoleInput>, deck: seq<Card>, fixed: set<Card>, board: seq<Card>)
    requires RangeCount(players) == 0
    ensures RangeChoices(players, deck, fixed, board) == [[]]
  {
    assert RangeSpecs(players) == [];
  }

  lemma {:induction false} PoolWithoutRanges(deck: seq<Card>, fixed: set<Card>)
    ensures Pool(deck, fixed, []) == Without(deck, fixed)
  {
    var empty: seq<Combo> := [];
    assert Elems(HoleCards(empty)) == {};
    WithoutNothing(Without(deck, fixed));
  }

  lemma {:induction false} SingleChoice(players: seq<HoleInput>, deck: seq<Card>, fixed: set<Card>, board: seq<Card>, missing: nat,
                     order: FillOrder, choices: seq<seq<Combo>>)
    requires |choices| == 1 && |choices[0]| == RangeCount(players)
    ensures Branches(players, deck, fixed, board, missing, order, choices)
      == Branch(players, choices[0], Pool(deck, fixed, choices[0]), board, missing, order)
  {
    assert choices[1..] == [];
  }

  /** Only exact hands: every runout of the missing board cards from the
      52 - |fixed| unfixed cards is scored once, whichever fill order. */
  lemma {:induction false} ExactHandsSamples(rank: seq<Card> -> int, players: seq<HoleInput>, deck: seq<Card>, fixed: set<Card>,
                          board: seq<Card>, order: FillOrder)
    requires |board| <= 5 && IsDeckOrder(deck)
    requires RangeCount(players) == 0 && Slots(players) == 0
    ensures |fixed| <= 52
    ensures EstimateExactEnumeration(rank, players, deck, fixed, board, order).samples == Choose(52 - |fixed|, Missing(board))
  {
    WithoutDeckSize(deck, fixed);
    var pool := Without(deck, fixed);
    var missing := Missing(board);
    ExactHandsDealCount(players, deck, fixed, board, order);
    ChooseRename(|pool|, missing, 52 - |fixed|, missing);
  }

  /** Without ranges or open seats the deals are the runouts of the pool. */
  lemma {:induction false} ExactHandsDealCount(players: seq<HoleInput>, deck: seq<Card>, fixed: set<Card>,
                                               board: seq<Card>, order: FillOrder)
    requires |board| <= 5
    requires RangeCount(players) == 0 && Slots(players) == 0
    ensures |AllDeals(players, deck, fixed, board, order)| == Choose(|Without(deck, fixed)|, Missing(board))
  {
    DealsWithoutRanges(players, deck, fixed, board, order);
    RunoutBranchCount(players, [], Without(deck, fixed), board, Missing(board), order);
  }

  /** With no open seat a leaf deals one runout per choice of the missing
      board cards, in either fill order. */
  lemma {:induction false} RunoutBranchCount(players: seq<HoleInput>, a: seq<Combo>, pool: seq<Card>, board: seq<Card>,
                                             missing: nat, order: FillOrder)
    requires |a| == RangeCount(players) && Slots(players) == 0
    ensures |Branch(players, a, pool, board, missing, order)| == Choose(|pool|, missing)
  {
    CursorBranchCount(players, a, pool, board, missing);
    if order == PerSlot {
      OrdersAgreeWithoutOpenSeats(players, a, pool, board, missing);
    }
    ChooseRename(|pool|, Slots(players) + missing, |pool|, missing);
  }

  lemma {:induction false} TwoExact(h1: Combo, h2: Combo)
    ensures RangeCount([Exact(h1), Exact(h2)]) == 0 && Slots([Exact(h1), Exact(h2)]) == 0
    ensures KnownCards([Exact(h1), Exact(h2)]) == ComboCards(h1) + ComboCards(h2)
  {
    var ps := [Exact(h1), Exact(h2)];
    assert ps[1..] == [Exact(h2)] && ps[1..][1..] == [];
    assert RangeCount(ps[1..]) == 0 && Slots(ps[1..]) == 0 && KnownCards(ps[1..]) == ComboCards(h2);
  }

  /** Two exact hands: one deal on the river and 44 on the turn. */
  lemma {:induction false} TwoExactHandsSamples(rank: seq<Card> -> int, h1: Combo, h2: Combo, deck: seq<Card>, board: seq<Card>, order: FillOrder)
    requires IsDeckOrder(deck) && (|board| == 4 || |board| == 5)
    requires Distinct(board + ComboCards(h1) + ComboCards(h2))
    ensures var players := [Exact(h1), Exact(h2)];
      var r := EstimateExactEnumeration(rank, players, deck, Elems(board + KnownCards(players)), board, order);
      r.samples == (if |board| == 5 then 1 else 44)
  {
    var players := [Exact(h1), Exact(h2)];
    TwoExact(h1, h2);
    var known := board + KnownCards(players);
    assert known == board + ComboCards(h1) + ComboCards(h2);
    DistinctCardinality(known);
    ExactHandsSamples(rank, players, deck, Elems(known), board, order);
    if |board| == 4 {
      ChooseOne(44);
    }
  }

  // ---------------------------------------------------------------------
  // Wins

  /** Every scored deal gives out between one and (number of players)
      wins, and no player wins more deals than were scored. */
  lemma {:induction false} EstimateExactEnumerationBounds(rank: seq<Card> -> int, players: seq<HoleInput>, deck: seq<Card>,
                                       fixed: set<Card>, board: seq<Card>, order: FillOrder)
    requires |board| <= 5 && players != []
    ensures var r := EstimateExactEnumeration(rank, players, deck, fixed, board, order);
      && r.samples <= Sum(r.wins) <= |players| * r.samples
      && forall i :: 0 <= i < |players| ==> r.wins[i] <= r.samples
  {
    DealsWinsBounds(rank, |players|, AllDeals(players, deck, fixed, board, order));
  }

  // ---------------------------------------------------------------------
  // The missed deals

  lemma {:induction false} TwoPartials(k1: Card, k2: Card)
    ensures RangeCount([Partial(k1), Partial(k2)]) == 0 && Slots([Partial(k1), Partial(k2)]) == 2
    ensures SlotSizes([Partial(k1), Partial(k2)], 0) == [1, 1, 0]
  {
    var ps := [Partial(k1), Partial(k2)];
    assert ps[1..] == [Partial(k2)] && ps[1..][1..] == [];
    assert RangeCount(ps[1..]) == 0 && Slots(ps[1..]) == 1;
  }

  lemma {:induction false} TwoPartialsServe(k1: Card, k2: Card, src: seq<Card>, board: seq<Card>)
    requires |src| == 2
    ensures RangeCount([Partial(k1), Partial(k2)]) == 0
    ensures DealAll([Partial(k1), Partial(k2)], [], src, board, 0)
      == Some(Deal([Combo(k1, src[0]), Combo(k2, src[1])], board))
  {
    var ps := [Partial(k1), Partial(k2)];
    TwoPartials(k1, k2);
    var r := DealHoles(ps, [], src).value;
    DealHolesAt(ps, [], src, 0);
    DealHolesAt(ps, [], src, 1);
    assert ps[..0] == [] && ps[..1] == [Partial(k1)];
    assert Slots(ps[..1]) == 1 && RangeCount(ps[..1]) == 0;
    assert r.holes == [Combo(k1, src[0]), Combo(k2, src[1])];
    assert r.rest == [] && board + r.rest[..0] == board;
  }

  /** Two partial hands on a complete board. The deal giving the pool's
      second card to the first player and its first card to the second is
      scored by the corrected enumeration and never by the source. */
  lemma {:induction false} CursorMissesSwappedDeal(k1: Card, k2: Card, pool: seq<Card>, board: seq<Card>)
    requires |pool| >= 2 && Distinct(pool)
    ensures RangeCount([Partial(k1), Partial(k2)]) == 0
    ensures var d := Deal([Combo(k1, pool[1]), Combo(k2, pool[0])], board);
      && d in Branch([Partial(k1), Partial(k2)], [], pool, board, 0, PerSlot)
      && d !in Branch([Partial(k1), Partial(k2)], [], pool, board, 0, Cursor)
  {
    TwoPartials(k1, k2);
    SwappedDealScored(k1, k2, pool, board);
    SwappedDealMissed(k1, k2, pool, board);
  }

  lemma {:induction false} SwappedDealScored(k1: Card, k2: Card, pool: seq<Card>, board: seq<Card>)
    requires |pool| >= 2
    requires RangeCount([Partial(k1), Partial(k2)]) == 0
    ensures Deal([Combo(k1, pool[1]), Combo(k2, pool[0])], board) in Branch([Partial(k1), Partial(k2)], [], pool, board, 0, PerSlot)
  {
    var players := [Partial(k1), Partial(k2)];
    TwoPartials(k1, k2);
    var k := SwapFillAt(|pool|);
    BranchAt(players, [], pool, board, 0, PerSlot, k);
    var x: seq<nat> := [1, 0];
    assert Select(pool, x) == [pool[1], pool[0]];
    TwoPartialsServe(k1, k2, [pool[1], pool[0]], board);
  }

  lemma {:induction false} SwapFillAt(n: nat) returns (k: nat)
    requires n >= 2
    ensures k < |Fills(PerSlot, n, [1, 1, 0])| && Fills(PerSlot, n, [1, 1, 0])[k] == [1, 0]
  {
    SwapFill(n);
    ArrangementsMembership(n, [1, 1, 0], {}, [1, 0]);
    var per := Fills(PerSlot, n, [1, 1, 0]);
    k :| 0 <= k < |per| && per[k] == [1, 0];
  }

  /** The k-th deal of a leaf is the k-th filling served. */
  lemma {:induction false} BranchAt(players: seq<HoleInput>, a: seq<Combo>, pool: seq<Card>, board: seq<Card>, missing: nat,
                 order: FillOrder, k: nat)
    requires |a| == RangeCount(players) && |pool| >= Slots(players) + missing
    requires k < |Fills(order, |pool|, SlotSizes(players, missing))|
    ensures var x := Fills(order, |pool|, SlotSizes(players, missing))[k];
      && |x| == Slots(players) + missing && IndicesBelow(x, |pool|)
      && k < |Branch(players, a, pool, board, missing, order)|
      && Some(Branch(players, a, pool, board, missing, order)[k]) == DealAll(players, a, Select(pool, x), board, missing)
  {
    FillsValid(order, |pool|, SlotSizes(players, missing));
  }

  lemma {:induction false} SwappedDealMissed(k1: Card, k2: Card, pool: seq<Card>, board: seq<Card>)
    requires |pool| >= 2 && Distinct(pool)
    requires RangeCount([Partial(k1), Partial(k2)]) == 0
    ensures Deal([Combo(k1, pool[1]), Combo(k2, pool[0])], board) !in Branch([Partial(k1), Partial(k2)], [], pool, board, 0, Cursor)
  {
    var players := [Partial(k1), Partial(k2)];
    TwoPartials(k1, k2);
    var d := Deal([Combo(k1, pool[1]), Combo(k2, pool[0])], board);
    var sizes: seq<nat> := [1, 1, 0];
    var cur := Fills(Cursor, |pool|, sizes);
    FillsValid(Cursor, |pool|, sizes);
    assert Sum(sizes) == 2;
    var r := Branch(players, [], pool, board, 0, Cursor);
    assert r == LeafDeals(players, [], pool, board, 0, cur);
    forall j | 0 <= j < |r|
      ensures r[j] != d
    {
      CombosMembership(0, |pool|, 2, cur[j]);
      SwapNotServed(k1, k2, pool, board, cur[j]);
    }
  }

  lemma {:induction false} SwapNotServed(k1: Card, k2: Card, pool: seq<Card>, board: seq<Card>, y: seq<nat>)
    requires Distinct(pool) && IndicesBelow(y, |pool|) && |y| == 2 && y[0] < y[1]
    ensures RangeCount([Partial(k1), Partial(k2)]) == 0
    ensures DealAll([Partial(k1), Partial(k2)], [], Select(pool, y), board, 0)
      != Some(Deal([Combo(k1, pool[1]), Combo(k2, pool[0])], board))
  {
    TwoPartialsServe(k1, k2, Select(pool, y), board);
  }

  lemma {:induction false} SwapFill(n: nat)
    requires n >= 2
    ensures ValidFill([1, 0], [1, 1, 0], n, {})
  {
    var x: seq<nat> := [1, 0];
    var sizes: seq<nat> := [1, 1, 0];
    assert sizes[1..] == [1, 0] && sizes[1..][1..] == [0] && sizes[1..][1..][1..] == [];
    assert Sum(sizes) == 2;
    assert x[..1] == [1] && x[1..] == [0] && x[1..][..1] == [0] && x[1..][1..] == [];
    assert ChunksIncreasing(x[1..][1..], sizes[1..][1..]);
    assert ChunksIncreasing(x[1..], sizes[1..]);
  }
}
