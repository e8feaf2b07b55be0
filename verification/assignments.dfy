/** The hole-card assignment recursions of core/src/equity.rs:
    `count_valid_assignments_for_specs` / `for_each_valid_assignment_for_specs`
    for mixed player inputs and `count_valid_range_assignments` /
    `for_each_valid_range_assignment` for range-only inputs (the copies in
    core/src/lib.rs are the same code).

    The source threads one mutable `used_cards` set through the recursion
    and restores it after every branch; here each branch receives the
    caller's set extended by the hand it chose, which is what the restoring
    achieves. The nested loops of a branch are flattened into one list of
    options, visited in the source's order; an early stop of the counter
    leaves that whole list, as the source's `return true` does. */
module Assignments {
  import opened Cards
  import opened Combinations
  import Binomial

  /** `PlayerInputSpec`: how much of a player's hand is known. */
  datatype PlayerSpec =
    | Exact(hand: Combo)
    | Range(hands: seq<Combo>)
    | OneKnown(card: Card)
    | RandomTwo

  function Hole(o: Combo): set<Card> {
    {o.c1, o.c2}
  }

  /** The input forms the parser produces: no hand holds the same card twice. */
  ghost predicate WellFormed(s: PlayerSpec) {
    match s
    case Exact(h) => h.c1 != h.c2
    case Range(hs) => forall i :: 0 <= i < |hs| ==> hs[i].c1 != hs[i].c2
    case OneKnown(_) => true
    case RandomTwo => true
  }

  // ---------------------------------------------------------------------
  // The options of one player, in the order the source tries them

  /** Range hands neither of whose cards is used. */
  function FreeHands(hs: seq<Combo>, used: set<Card>): (r: seq<Combo>)
    ensures forall o :: o in r <==> o in hs && o.c1 !in used && o.c2 !in used
  {
    if hs == [] then []
    else (if hs[0].c1 in used || hs[0].c2 in used then [] else [hs[0]]) + FreeHands(hs[1..], used)
  }

  /** The known card with every deck card that is neither it nor used. */
  function SecondCards(known: Card, deck: seq<Card>, used: set<Card>): (r: seq<Combo>)
    ensures forall o :: o in r <==> o.c1 == known && o.c2 in deck && o.c2 != known && o.c2 !in used
  {
    if deck == [] then []
    else
      (if deck[0] == known || deck[0] in used then [] else [Combo(known, deck[0])])
      + SecondCards(known, deck[1..], used)
  }

  /** `deck[i]` paired with every later deck card not in `used`. */
  function PairsWith(deck: seq<Card>, i: nat, j: nat, used: set<Card>): (r: seq<Combo>)
    requires i < |deck|
    ensures forall o :: o in r <==> o.c1 == deck[i] && exists k :: j <= k < |deck| && deck[k] == o.c2 && o.c2 !in used
    decreases |deck| - j
  {
    if j >= |deck| then []
    else
      var rest := PairsWith(deck, i, j + 1, used);
      var here := if deck[j] in used then [] else [Combo(deck[i], deck[j])];
      assert forall o :: o in here <==> o.c1 == deck[i] && deck[j] == o.c2 && o.c2 !in used;
      here + rest
  }

  /** Every unordered pair of unused deck cards, first card major. */
  function PairsFrom(deck: seq<Card>, i: nat, used: set<Card>): (r: seq<Combo>)
    decreases |deck| - i
  {
    if i >= |deck| then []
    else
      (if deck[i] in used then [] else PairsWith(deck, i, i + 1, used + {deck[i]}))
      + PairsFrom(deck, i + 1, used)
  }

  /** The hands a player may receive once `used` is taken. */
  function Options(spec: PlayerSpec, deck: seq<Card>, used: set<Card>): seq<Combo> {
    match spec
    case Exact(h) => if h.c1 in used || h.c2 in used then [] else [h]
    case Range(hs) => FreeHands(hs, used)
    case OneKnown(k) => if k in used then [] else SecondCards(k, deck, used + {k})
    case RandomTwo => PairsFrom(deck, 0, used)
  }

  /** The hand `o` is of the kind the player's input allows. */
  ghost predicate Fits(o: Combo, spec: PlayerSpec, deck: seq<Card>) {
    match spec
    case Exact(h) => o == h
    case Range(hs) => o in hs
    case OneKnown(k) => o.c1 == k && o.c2 in deck
    case RandomTwo => exists i, j :: 0 <= i < j < |deck| && deck[i] == o.c1 && deck[j] == o.c2
  }

  lemma {:induction false} PairsFromMembership(deck: seq<Card>, i: nat, used: set<Card>, o: Combo)
    requires Distinct(deck)
    ensures o in PairsFrom(deck, i, used) <==>
      (exists a, b :: i <= a < b < |deck| && deck[a] == o.c1 && deck[b] == o.c2) && o.c1 !in used && o.c2 !in used
  {
    if i < |deck| {
      if o in PairsFrom(deck, i, used) {
        PairsFromSound(deck, i, used, o);
      }
      if (exists a, b :: i <= a < b < |deck| && deck[a] == o.c1 && deck[b] == o.c2) && o.c1 !in used && o.c2 !in used {
        PairsFromComplete(deck, i, used, o);
      }
    } else {
      assert PairsFrom(deck, i, used) == [];
    }
  }

  lemma {:induction false} PairsFromSound(deck: seq<Card>, i: nat, used: set<Card>, o: Combo)
    requires i < |deck| && o in PairsFrom(deck, i, used)
    ensures exists a, b :: i <= a < b < |deck| && deck[a] == o.c1 && deck[b] == o.c2
    ensures o.c1 !in used && o.c2 !in used
    decreases |deck| - i
  {
    PairsFromStep(deck, i, used, o);
    var next := i + 1;
    if o in PairsFrom(deck, next, used) {
      PairsFromSound(deck, next, used, o);
      var a, b :| next <= a < b < |deck| && deck[a] == o.c1 && deck[b] == o.c2;
      assert i <= a;
    } else {
      var k :| next <= k < |deck| && deck[k] == o.c2;
      assert i <= i < k < |deck| && deck[i] == o.c1 && deck[k] == o.c2;
    }
  }

  lemma {:induction false} PairsFromComplete(deck: seq<Card>, i: nat, used: set<Card>, o: Combo)
    requires Distinct(deck)
    requires exists a, b :: i <= a < b < |deck| && deck[a] == o.c1 && deck[b] == o.c2
    requires o.c1 !in used && o.c2 !in used
    ensures o in PairsFrom(deck, i, used)
    decreases |deck| - i
  {
    var a, b :| i <= a < b < |deck| && deck[a] == o.c1 && deck[b] == o.c2;
    PairsFromStep(deck, i, used, o);
    if a == i {
      assert deck[b] != deck[i];
      assert i + 1 <= b < |deck| && deck[b] == o.c2;
    } else {
      assert i + 1 <= a < b < |deck| && deck[a] == o.c1 && deck[b] == o.c2;
      PairsFromComplete(deck, i + 1, used, o);
    }
  }

  /** The pairs from position `i` are those led by `deck[i]` followed by
      the pairs from position `i + 1`. */
  lemma {:induction false} PairsFromStep(deck: seq<Card>, i: nat, used: set<Card>, o: Combo)
    requires i < |deck|
    ensures o in PairsFrom(deck, i, used) <==>
      (deck[i] !in used && o.c1 == deck[i] && o.c2 !in used + {deck[i]}
       && exists k :: i + 1 <= k < |deck| && deck[k] == o.c2)
      || o in PairsFrom(deck, i + 1, used)
  {
    var here := if deck[i] in used then [] else PairsWith(deck, i, i + 1, used + {deck[i]});
    assert PairsFrom(deck, i, used) == here + PairsFrom(deck, i + 1, used);
  }

  /** A player's options are exactly the hands of the allowed kind that
      hold two different cards, both unused. */
  lemma {:induction false} OptionsMembership(spec: PlayerSpec, deck: seq<Card>, used: set<Card>, o: Combo)
    requires WellFormed(spec) && Distinct(deck)
    ensures o in Options(spec, deck, used) <==>
      Fits(o, spec, deck) && o.c1 != o.c2 && o.c1 !in used && o.c2 !in used
  {
    match spec
    case Exact(h) =>
    case Range(hs) =>
    case OneKnown(k) =>
    case RandomTwo =>
      PairsFromMembership(deck, 0, used, o);
      if Fits(o, spec, deck) {
        var a, b :| 0 <= a < b < |deck| && deck[a] == o.c1 && deck[b] == o.c2;
        assert o.c1 != o.c2;
      }
  }

  // ---------------------------------------------------------------------
  // for_each_valid_assignment_for_specs

  /** Every full assignment the enumeration visits, in visiting order. */
  function Visits(specs: seq<PlayerSpec>, deck: seq<Card>, used: set<Card>): (r: seq<seq<Combo>>)
    decreases |specs|, 1, 0
  {
    if specs == [] then [[]]
    else VisitsLoop(specs[1..], deck, used, Options(specs[0], deck, used))
  }

  function VisitsLoop(rest: seq<PlayerSpec>, deck: seq<Card>, used: set<Card>, opts: seq<Combo>)
    : (r: seq<seq<Combo>>)
    decreases |rest| + 1, 0, |opts|
  {
    if opts == [] then []
    else PrefixAll([opts[0]], Visits(rest, deck, used + Hole(opts[0]))) + VisitsLoop(rest, deck, used, opts[1..])
  }

  /** Dealing the hands of `a` in order from a deck with `used` taken: each
      hand holds two different cards, neither taken before. */
  ghost predicate FreshFrom(a: seq<Combo>, used: set<Card>)
    decreases |a|
  {
    a == [] || (a[0].c1 != a[0].c2 && a[0].c1 !in used && a[0].c2 !in used && FreshFrom(a[1..], used + Hole(a[0])))
  }

  /** Dealing in order succeeds exactly when no card appears twice among
      the hands and none is taken. */
  lemma {:induction false} FreshFromSpec(a: seq<Combo>, used: set<Card>)
    ensures FreshFrom(a, used) <==>
      Distinct(HoleCards(a)) && forall i :: 0 <= i < |HoleCards(a)| ==> HoleCards(a)[i] !in used
    decreases |a|
  {
    if a != [] {
      var cs := HoleCards(a);
      var tail := HoleCards(a[1..]);
      assert cs == [a[0].c1, a[0].c2] + tail;
      FreshFromSpec(a[1..], used + Hole(a[0]));
      if Distinct(cs) && forall i :: 0 <= i < |cs| ==> cs[i] !in used {
        assert a[0].c1 != a[0].c2 by { assert cs[0] != cs[1]; }
        forall i, j | 0 <= i < j < |tail|
          ensures tail[i] != tail[j]
        {
          assert tail[i] == cs[i + 2] && tail[j] == cs[j + 2];
        }
        forall i | 0 <= i < |tail|
          ensures tail[i] !in used + Hole(a[0])
        {
          assert tail[i] == cs[i + 2];
          assert cs[0] != cs[i + 2] && cs[1] != cs[i + 2];
        }
      }
      if FreshFrom(a, used) {
        forall i, j | 0 <= i < j < |cs|
          ensures cs[i] != cs[j]
        {
          if i >= 2 {
            assert cs[i] == tail[i - 2] && cs[j] == tail[j - 2];
          } else if j >= 2 {
            assert cs[j] == tail[j - 2];
          }
        }
        forall i | 0 <= i < |cs|
          ensures cs[i] !in used
        {
          if i >= 2 {
            assert cs[i] == tail[i - 2];
          }
        }
      }
    }
  }

  lemma {:induction false} VisitsLoopMembership(rest: seq<PlayerSpec>, deck: seq<Card>, used: set<Card>, opts: seq<Combo>, a: seq<Combo>)
    ensures a in VisitsLoop(rest, deck, used, opts) <==>
      |a| > 0 && a[0] in opts && a[1..] in Visits(rest, deck, used + Hole(a[0]))
    decreases |opts|
  {
    if opts != [] {
      VisitsLoopMembership(rest, deck, used, opts[1..], a);
      var l := Visits(rest, deck, used + Hole(opts[0]));
      var p := PrefixAll([opts[0]], l);
      if a in p {
        var i :| 0 <= i < |p| && p[i] == a;
        assert a[1..] == l[i];
      }
      if |a| > 0 && a[0] == opts[0] && a[1..] in l {
        var i :| 0 <= i < |l| && l[i] == a[1..];
        assert p[i] == a;
      }
    }
  }

  /** The enumeration visits exactly the assignments that give each player
      a hand of the allowed kind, with no card twice and none taken. */
  lemma {:induction false} VisitsMembership(specs: seq<PlayerSpec>, deck: seq<Card>, used: set<Card>, a: seq<Combo>)
    requires forall i :: 0 <= i < |specs| ==> WellFormed(specs[i])
    requires Distinct(deck)
    ensures a in Visits(specs, deck, used) <==>
      |a| == |specs| && (forall i :: 0 <= i < |a| ==> Fits(a[i], specs[i], deck)) && FreshFrom(a, used)
    decreases |specs|
  {
    if specs == [] {
    } else {
      var opts := Options(specs[0], deck, used);
      VisitsLoopMembership(specs[1..], deck, used, opts, a);
      if |a| > 0 {
        OptionsMembership(specs[0], deck, used, a[0]);
        VisitsMembership(specs[1..], deck, used + Hole(a[0]), a[1..]);
        if |a| == |specs| && (forall i :: 0 <= i < |a| ==> Fits(a[i], specs[i], deck)) {
          assert forall i :: 0 <= i < |a[1..]| ==> Fits(a[1..][i], specs[1..][i], deck) by {
            forall i | 0 <= i < |a[1..]|
              ensures Fits(a[1..][i], specs[1..][i], deck)
            {
              assert a[1..][i] == a[i + 1] && specs[1..][i] == specs[i + 1];
            }
          }
        }
        if a in Visits(specs, deck, used) {
          forall i | 0 <= i < |a|
            ensures Fits(a[i], specs[i], deck)
          {
            if i > 0 {
              assert a[1..][i - 1] == a[i] && specs[1..][i - 1] == specs[i];
            }
          }
        }
      }
    }
  }

  // ---------------------------------------------------------------------
  // count_valid_assignments_for_specs

  /** The counter's state after a subtree: the count so far and whether the
      cap was reached. */
  datatype CountState = CountState(count: nat, stopped: bool)

  function CountRec(specs: seq<PlayerSpec>, deck: seq<Card>, used: set<Card>, count: nat, max: Option<nat>)
    : (r: CountState)
    decreases |specs|, 1, 0
  {
    if specs == [] then
      var c := count + 1;
      CountState(c, max.Some? && c >= max.value)
    else CountLoop(specs[1..], deck, used, Options(specs[0], deck, used), count, max)
  }

  function CountLoop(rest: seq<PlayerSpec>, deck: seq<Card>, used: set<Card>, opts: seq<Combo>, count: nat, max: Option<nat>)
    : (r: CountState)
    decreases |rest| + 1, 0, |opts|
  {
    if opts == [] then CountState(count, false)
    else
      var sub := CountRec(rest, deck, used + Hole(opts[0]), count, max);
      if sub.stopped then sub
      else CountLoop(rest, deck, used, opts[1..], sub.count, max)
  }

  /** What counting `total` leaves from `count` would give if it stops the
      first time the count reaches `max`: no cap adds everything; a cap of
      `m` needs `m - count` more leaves (at least one) to stop. */
  function Capped(count: nat, total: nat, max: Option<nat>): CountState {
    match max
    case None => CountState(count + total, false)
    case Some(m) =>
      var need := if m > count then m - count else 1;
      if total >= need then CountState(count + need, true) else CountState(count + total, false)
  }

  /** Counting two runs one after the other is counting them together. */
  lemma {:induction false} CappedThen(count: nat, t1: nat, t2: nat, max: Option<nat>)
    ensures var first := Capped(count, t1, max);
      Capped(count, t1 + t2, max) == if first.stopped then first else Capped(first.count, t2, max)
  {
  }

  lemma {:induction false} CountRecIsCapped(specs: seq<PlayerSpec>, deck: seq<Card>, used: set<Card>, count: nat, max: Option<nat>)
    ensures CountRec(specs, deck, used, count, max) == Capped(count, |Visits(specs, deck, used)|, max)
    decreases |specs|, 1, 0
  {
    if specs != [] {
      CountLoopIsCapped(specs[1..], deck, used, Options(specs[0], deck, used), count, max);
    }
  }

  lemma {:induction false} CountLoopIsCapped(rest: seq<PlayerSpec>, deck: seq<Card>, used: set<Card>, opts: seq<Combo>, count: nat, max: Option<nat>)
    ensures CountLoop(rest, deck, used, opts, count, max) == Capped(count, |VisitsLoop(rest, deck, used, opts)|, max)
    decreases |rest| + 1, 0, |opts|
  {
    if opts != [] {
      var t1 := |Visits(rest, deck, used + Hole(opts[0]))|;
      var t2 := |VisitsLoop(rest, deck, used, opts[1..])|;
      CountRecIsCapped(rest, deck, used + Hole(opts[0]), count, max);
      var sub := CountRec(rest, deck, used + Hole(opts[0]), count, max);
      if !sub.stopped {
        CountLoopIsCapped(rest, deck, used, opts[1..], sub.count, max);
      }
      CappedThen(count, t1, t2, max);
    }
  }

  // ---------------------------------------------------------------------
  // The entry points, over the fixed deck with the board cards taken

  /** `for_each_valid_assignment_for_specs`: the assignments passed to the
      callback, in order. */
  function ForEachAssignment(specs: seq<PlayerSpec>, board: seq<Card>): seq<seq<Combo>> {
    Visits(specs, AllCards(), Elems(board))
  }

  /** `count_valid_assignments_for_specs`. */
  function CountAssignments(specs: seq<PlayerSpec>, board: seq<Card>, max: Option<nat>): (n: nat) {
    CountRec(specs, AllCards(), Elems(board), 0, max).count
  }

  /** The capped counter returns the number of assignments the enumeration
      visits, or the cap when there are at least that many. */
  lemma {:induction false} CountAssignmentsIsMin(specs: seq<PlayerSpec>, board: seq<Card>, max: Option<nat>)
    ensures max.None? ==> CountAssignments(specs, board, max) == |ForEachAssignment(specs, board)|
    ensures max.Some? && max.value >= 1 ==>
      CountAssignments(specs, board, max) == Binomial.Min(|ForEachAssignment(specs, board)|, max.value)
  {
    CountRecIsCapped(specs, AllCards(), Elems(board), 0, max);
  }

  // ---------------------------------------------------------------------
  // count_valid_range_assignments / for_each_valid_range_assignment

  ghost predicate AllHands2(a: seq<seq<Card>>) {
    forall i :: 0 <= i < |a| ==> |a[i]| >= 2
  }

  ghost predicate RangesHands2(ranges: seq<seq<seq<Card>>>) {
    forall p :: 0 <= p < |ranges| ==> AllHands2(ranges[p])
  }

  /** The two cards a range hand is read by (`hand[0]`, `hand[1]`). */
  function Head(h: seq<Card>): Combo
    requires |h| >= 2
  {
    Combo(h[0], h[1])
  }

  function Heads(a: seq<seq<Card>>): (r: seq<Combo>)
    requires AllHands2(a)
    ensures |r| == |a| && forall i :: 0 <= i < |a| ==> r[i] == Head(a[i])
  {
    seq(|a|, i requires 0 <= i < |a| => Head(a[i]))
  }

  /** The range inputs read as player inputs. */
  function RangeSpecs(ranges: seq<seq<seq<Card>>>): (r: seq<PlayerSpec>)
    requires RangesHands2(ranges)
    ensures |r| == |ranges| && forall p :: 0 <= p < |ranges| ==> r[p] == Range(Heads(ranges[p]))
  {
    seq(|ranges|, p requires 0 <= p < |ranges| => Range(Heads(ranges[p])))
  }

  /** Every assignment the range enumeration visits; each hand is passed on
      whole, as the source's `hand.clone()` does. */
  function RangeVisits(ranges: seq<seq<seq<Card>>>, used: set<Card>): seq<seq<seq<Card>>>
    requires RangesHands2(ranges)
    decreases |ranges|, 1, 0
  {
    if ranges == [] then [[]]
    else RangeVisitsLoop(ranges[1..], used, ranges[0])
  }

  function RangeVisitsLoop(rest: seq<seq<seq<Card>>>, used: set<Card>, hands: seq<seq<Card>>): seq<seq<seq<Card>>>
    requires RangesHands2(rest) && AllHands2(hands)
    decreases |rest| + 1, 0, |hands|
  {
    if hands == [] then []
    else
      var h := hands[0];
      if h[0] in used || h[1] in used then RangeVisitsLoop(rest, used, hands[1..])
      else PrefixAll([h], RangeVisits(rest, used + {h[0], h[1]})) + RangeVisitsLoop(rest, used, hands[1..])
  }

  function RangeCountRec(ranges: seq<seq<seq<Card>>>, used: set<Card>, count: nat, max: Option<nat>): CountState
    requires RangesHands2(ranges)
    decreases |ranges|, 1, 0
  {
    if ranges == [] then
      var c := count + 1;
      CountState(c, max.Some? && c >= max.value)
    else RangeCountLoop(ranges[1..], used, ranges[0], count, max)
  }

  function RangeCountLoop(rest: seq<seq<seq<Card>>>, used: set<Card>, hands: seq<seq<Card>>, count: nat, max: Option<nat>)
    : CountState
    requires RangesHands2(rest) && AllHands2(hands)
    decreases |rest| + 1, 0, |hands|
  {
    if hands == [] then CountState(count, false)
    else
      var h := hands[0];
      if h[0] in used || h[1] in used then RangeCountLoop(rest, used, hands[1..], count, max)
      else
        var sub := RangeCountRec(rest, used + {h[0], h[1]}, count, max);
        if sub.stopped then sub
        else RangeCountLoop(rest, used, hands[1..], sub.count, max)
  }

  lemma {:induction false} RangeSpecsTail(ranges: seq<seq<seq<Card>>>)
    requires RangesHands2(ranges) && ranges != []
    ensures RangeSpecs(ranges)[1..] == RangeSpecs(ranges[1..])
  {
  }

  lemma {:induction false} HeadsTail(hands: seq<seq<Card>>)
    requires AllHands2(hands) && hands != []
    ensures Heads(hands)[1..] == Heads(hands[1..])
  {
  }

  /** The range counter counts exactly as the mixed-input counter does on
      the same hands. */
  lemma {:induction false} RangeCountRecAgrees(ranges: seq<seq<seq<Card>>>, deck: seq<Card>, used: set<Card>, count: nat, max: Option<nat>)
    requires RangesHands2(ranges)
    ensures RangeCountRec(ranges, used, count, max) == CountRec(RangeSpecs(ranges), deck, used, count, max)
    decreases |ranges|, 1, 0
  {
    if ranges != [] {
      RangeSpecsTail(ranges);
      RangeCountLoopAgrees(ranges[1..], deck, used, ranges[0], count, max);
    }
  }

  lemma {:induction false} RangeCountLoopAgrees(rest: seq<seq<seq<Card>>>, deck: seq<Card>, used: set<Card>, hands: seq<seq<Card>>, count: nat, max: Option<nat>)
    requires RangesHands2(rest) && AllHands2(hands)
    ensures RangeCountLoop(rest, used, hands, count, max)
      == CountLoop(RangeSpecs(rest), deck, used, FreeHands(Heads(hands), used), count, max)
    decreases |rest| + 1, 0, |hands|
  {
    if hands != [] {
      var h := hands[0];
      HeadsTail(hands);
      assert Heads(hands) == [Head(h)] + Heads(hands[1..]);
      assert Heads(hands)[0] == Head(h);
      if h[0] in used || h[1] in used {
        assert FreeHands(Heads(hands), used) == FreeHands(Heads(hands[1..]), used);
        RangeCountLoopAgrees(rest, deck, used, hands[1..], count, max);
      } else {
        var opts := FreeHands(Heads(hands), used);
        assert opts == [Head(h)] + FreeHands(Heads(hands[1..]), used);
        assert opts[1..] == FreeHands(Heads(hands[1..]), used);
        assert Hole(opts[0]) == {h[0], h[1]};
        RangeCountRecAgrees(rest, deck, used + {h[0], h[1]}, count, max);
        var sub := RangeCountRec(rest, used + {h[0], h[1]}, count, max);
        if !sub.stopped {
          RangeCountLoopAgrees(rest, deck, used, hands[1..], sub.count, max);
        }
      }
    }
  }

  /** `visited` lists the same assignments as `plain`, hand for hand, when
      each visited hand is read by its first two cards. */
  ghost predicate SameDeals(visited: seq<seq<seq<Card>>>, plain: seq<seq<Combo>>) {
    |visited| == |plain| && forall k :: 0 <= k < |visited| ==> AllHands2(visited[k]) && Heads(visited[k]) == plain[k]
  }

  lemma {:induction false} SameDealsConcat(a: seq<seq<seq<Card>>>, b: seq<seq<seq<Card>>>, c: seq<seq<Combo>>, d: seq<seq<Combo>>)
    requires SameDeals(a, c) && SameDeals(b, d)
    ensures SameDeals(a + b, c + d)
  {
    forall k | 0 <= k < |a + b|
      ensures AllHands2((a + b)[k]) && Heads((a + b)[k]) == (c + d)[k]
    {
      if k >= |a| {
        assert (a + b)[k] == b[k - |a|] && (c + d)[k] == d[k - |a|];
      }
    }
  }

  lemma {:induction false} SameDealsPrefix(h: seq<Card>, l: seq<seq<seq<Card>>>, m: seq<seq<Combo>>)
    requires |h| >= 2 && SameDeals(l, m)
    ensures SameDeals(PrefixAll([h], l), PrefixAll([Head(h)], m))
  {
    var pl := PrefixAll([h], l);
    forall k | 0 <= k < |pl|
      ensures AllHands2(pl[k]) && Heads(pl[k]) == PrefixAll([Head(h)], m)[k]
    {
      assert pl[k] == [h] + l[k];
      assert forall i :: 1 <= i < |pl[k]| ==> pl[k][i] == l[k][i - 1];
      assert Heads(pl[k]) == [Head(h)] + Heads(l[k]);
    }
  }

  /** The range enumeration visits the same assignments, in the same order,
      as the mixed-input enumeration does on the same hands. */
  lemma {:induction false} RangeVisitsAgree(ranges: seq<seq<seq<Card>>>, deck: seq<Card>, used: set<Card>)
    requires RangesHands2(ranges)
    ensures SameDeals(RangeVisits(ranges, used), Visits(RangeSpecs(ranges), deck, used))
    decreases |ranges|, 1, 0
  {
    if ranges == [] {
      assert Heads([]) == [];
    } else {
      RangeSpecsTail(ranges);
      RangeVisitsLoopAgrees(ranges[1..], deck, used, ranges[0]);
    }
  }

  lemma {:induction false} RangeVisitsLoopAgrees(rest: seq<seq<seq<Card>>>, deck: seq<Card>, used: set<Card>, hands: seq<seq<Card>>)
    requires RangesHands2(rest) && AllHands2(hands)
    ensures SameDeals(RangeVisitsLoop(rest, used, hands),
                      VisitsLoop(RangeSpecs(rest), deck, used, FreeHands(Heads(hands), used)))
    decreases |rest| + 1, 0, |hands|
  {
    if hands != [] {
      var h := hands[0];
      HeadsTail(hands);
      assert Heads(hands) == [Head(h)] + Heads(hands[1..]);
      assert Heads(hands)[0] == Head(h);
      RangeVisitsLoopAgrees(rest, deck, used, hands[1..]);
      if h[0] in used || h[1] in used {
        assert FreeHands(Heads(hands), used) == FreeHands(Heads(hands[1..]), used);
      } else {
        var opts := FreeHands(Heads(hands), used);
        assert opts == [Head(h)] + FreeHands(Heads(hands[1..]), used);
        assert opts[1..] == FreeHands(Heads(hands[1..]), used);
        assert Hole(opts[0]) == {h[0], h[1]};
        RangeVisitsAgree(rest, deck, used + {h[0], h[1]});
        SameDealsPrefix(h, RangeVisits(rest, used + {h[0], h[1]}), Visits(RangeSpecs(rest), deck, used + Hole(opts[0])));
        SameDealsConcat(
          PrefixAll([h], RangeVisits(rest, used + {h[0], h[1]})), RangeVisitsLoop(rest, used, hands[1..]),
          PrefixAll([opts[0]], Visits(RangeSpecs(rest), deck, used + Hole(opts[0]))),
          VisitsLoop(RangeSpecs(rest), deck, used, opts[1..]));
      }
    }
  }

  /** `for_each_valid_range_assignment`: the assignments passed to the
      callback, in order. */
  function ForEachRangeAssignment(ranges: seq<seq<seq<Card>>>, board: seq<Card>): seq<seq<seq<Card>>>
    requires RangesHands2(ranges)
  {
    RangeVisits(ranges, Elems(board))
  }

  /** `count_valid_range_assignments`. */
  function CountRangeAssignments(ranges: seq<seq<seq<Card>>>, board: seq<Card>, max: Option<nat>): nat
    requires RangesHands2(ranges)
  {
    RangeCountRec(ranges, Elems(board), 0, max).count
  }

  /** The range counter returns the number of assignments the range
      enumeration visits, or the cap when there are at least that many; every
      visited assignment gives each player a hand of their range, with no
      card twice and none on the board. */
  lemma {:induction false} RangeAssignmentsSpec(ranges: seq<seq<seq<Card>>>, board: seq<Card>, max: Option<nat>)
    requires RangesHands2(ranges)
    ensures max.None? ==> CountRangeAssignments(ranges, board, max) == |ForEachRangeAssignment(ranges, board)|
    ensures max.Some? && max.value >= 1 ==>
      CountRangeAssignments(ranges, board, max) == Binomial.Min(|ForEachRangeAssignment(ranges, board)|, max.value)
    ensures (forall p :: 0 <= p < |ranges| ==> WellFormed(Range(Heads(ranges[p])))) ==>
      forall k :: 0 <= k < |ForEachRangeAssignment(ranges, board)| ==>
      var a := ForEachRangeAssignment(ranges, board)[k];
      |a| == |ranges| && AllHands2(a) && (forall p :: 0 <= p < |a| ==> Head(a[p]) in Heads(ranges[p]))
      && FreshFrom(Heads(a), Elems(board))
  {
    var deck := AllCards();
    RangeCountRecAgrees(ranges, deck, Elems(board), 0, max);
    RangeVisitsAgree(ranges, deck, Elems(board));
    CountAssignmentsIsMin(RangeSpecs(ranges), board, max);
    var specs := RangeSpecs(ranges);
    var v := Visits(specs, deck, Elems(board));
    forall k | (forall p :: 0 <= p < |ranges| ==> WellFormed(Range(Heads(ranges[p])))) && 0 <= k < |v|
      ensures |v[k]| == |ranges| && (forall p :: 0 <= p < |v[k]| ==> v[k][p] in Heads(ranges[p]))
        && FreshFrom(v[k], Elems(board))
    {
      AllCardsIsDeck();
      VisitsMembership(specs, deck, Elems(board), v[k]);
    }
  }

  /** One single-hand range per hand. */
  function Singletons(hands: seq<seq<Card>>): (ranges: seq<seq<seq<Card>>>)
    ensures |ranges| == |hands| && forall p :: 0 <= p < |hands| ==> ranges[p] == [hands[p]]
  {
    if hands == [] then [] else [[hands[0]]] + Singletons(hands[1..])
  }

  /** With one hand per range, the enumeration visits that single
      assignment when the hands and the board share no card, and nothing
      otherwise. */
  lemma {:induction false} SingleHandRanges(hands: seq<seq<Card>>, used: set<Card>)
    requires AllHands2(hands) && forall i :: 0 <= i < |hands| ==> hands[i][0] != hands[i][1]
    ensures RangesHands2(Singletons(hands))
    ensures RangeVisits(Singletons(hands), used) == if FreshFrom(Heads(hands), used) then [hands] else []
    decreases |hands|
  {
    var ranges := Singletons(hands);
    assert RangesHands2(ranges);
    if hands != [] {
      var h, tail := hands[0], hands[1..];
      var rest := Singletons(tail);
      assert ranges == [[h]] + rest;
      assert AllHands2(tail);
      SingleHandRanges(tail, used + {h[0], h[1]});
      SingleHandStep(h, rest, used);
      FreshFromHeads(hands, used);
      if FreshFrom(Heads(hands), used) {
        assert [h] + tail == hands;
      }
    }
  }

  /** A range of one hand visits that hand followed by whatever the other
      ranges visit, or nothing when the hand touches a used card. */
  lemma {:induction false} SingleHandStep(h: seq<Card>, rest: seq<seq<seq<Card>>>, used: set<Card>)
    requires |h| >= 2 && RangesHands2(rest)
    ensures RangesHands2([[h]] + rest)
    ensures RangeVisits([[h]] + rest, used) ==
      if h[0] in used || h[1] in used then [] else PrefixAll([h], RangeVisits(rest, used + {h[0], h[1]}))
  {
    var ranges := [[h]] + rest;
    assert ranges[1..] == rest && ranges[0] == [h];
    assert RangeVisits(ranges, used) == RangeVisitsLoop(rest, used, [h]);
    assert [h][1..] == [];
    var none := RangeVisitsLoop(rest, used, []);
    assert none == [];
    if h[0] !in used && h[1] !in used {
      var p := PrefixAll([h], RangeVisits(rest, used + {h[0], h[1]}));
      assert RangeVisitsLoop(rest, used, [h]) == p + none;
      assert p + none == p;
    }
  }

  /** A list of hands deals freshly from `used` exactly when its first hand
      misses `used` and the others deal freshly once it is taken. */
  lemma {:induction false} FreshFromHeads(hands: seq<seq<Card>>, used: set<Card>)
    requires AllHands2(hands) && hands != [] && hands[0][0] != hands[0][1]
    ensures FreshFrom(Heads(hands), used) <==>
      hands[0][0] !in used && hands[0][1] !in used && FreshFrom(Heads(hands[1..]), used + {hands[0][0], hands[0][1]})
  {
    var hs := Heads(hands);
    HeadsTail(hands);
    assert hs[0] == Head(hands[0]);
    assert Hole(hs[0]) == {hands[0][0], hands[0][1]};
  }
}
