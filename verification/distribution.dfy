/** How the exact enumeration of core/src/enumeration.rs hands pool cards to
    the slots that need them. The slots are listed by size in serving order:
    one card per partial hand and two per unknown hand, in seat order, then
    the missing board cards. A filling is the list of pool indices the
    dealing cursor reads, slot after slot.

    As written, the source takes each increasing combination of
    `non_range_slots` pool indices and cuts it into the slots in order
    (`CursorFills`), so one slot can never hold a card that comes before
    another slot's card in the pool. Every deal is meant to be enumerated
    (the doc comment of `estimate_equity_exact_enumeration`):
    `Arrangements` lets each slot choose its own combination of the indices
    still free, which lists exactly the fillings whose slots are each in
    increasing order. */
module Distribution {
  import opened Cards
  import opened Combinations
  import opened Binomial
  import opened Scoring

  predicate Avoids(c: seq<nat>, used: set<nat>) {
    forall i :: 0 <= i < |c| ==> c[i] !in used
  }

  /** The entries of `l` that avoid `used`, in order. */
  function Keep(l: seq<seq<nat>>, used: set<nat>): (r: seq<seq<nat>>)
    ensures forall c :: c in r <==> c in l && Avoids(c, used)
  {
    if l == [] then []
    else (if Avoids(l[0], used) then [l[0]] else []) + Keep(l[1..], used)
  }

  /** The k-subsets of [0, n) that avoid `used`, as increasing index lists. */
  function FreeCombos(n: nat, k: nat, used: set<nat>): (r: seq<seq<nat>>)
    ensures forall c :: c in r <==> IsCombo(c, 0, n, k) && Avoids(c, used)
  {
    var l := Combos(0, n, k);
    assert forall c :: c in l <==> IsCombo(c, 0, n, k) by {
      forall c
        ensures c in l <==> IsCombo(c, 0, n, k)
      {
        CombosMembership(0, n, k, c);
      }
    }
    Keep(l, used)
  }

  /** The corrected enumeration: the first slot takes any free combination
      of its size, and the remaining slots are filled from what is left. */
  function Arrangements(n: nat, sizes: seq<nat>, used: set<nat>): seq<seq<nat>>
    decreases |sizes|, 1, 0
  {
    if sizes == [] then [[]]
    else ArrangeLoop(n, sizes, used, FreeCombos(n, sizes[0], used))
  }

  function ArrangeLoop(n: nat, sizes: seq<nat>, used: set<nat>, cs: seq<seq<nat>>): seq<seq<nat>>
    requires sizes != []
    decreases |sizes|, 0, |cs|
  {
    if cs == [] then []
    else PrefixAll(cs[0], Arrangements(n, sizes[1..], used + Elems(cs[0]))) + ArrangeLoop(n, sizes, used, cs[1..])
  }

  /** Every slot's indices are in increasing order. */
  ghost predicate ChunksIncreasing(x: seq<nat>, sizes: seq<nat>)
    decreases |sizes|
  {
    sizes == [] || (sizes[0] <= |x| && Increasing(x[..sizes[0]]) && ChunksIncreasing(x[sizes[0]..], sizes[1..]))
  }

  /** A deal of the slots: one index per slot card, no index twice, all in
      the pool and none already used; as a hand or a board is a set of
      cards, each slot is written in increasing order. */
  ghost predicate ValidFill(x: seq<nat>, sizes: seq<nat>, n: nat, used: set<nat>) {
    && |x| == Sum(sizes)
    && Distinct(x)
    && (forall i :: 0 <= i < |x| ==> x[i] < n && x[i] !in used)
    && ChunksIncreasing(x, sizes)
  }

  lemma {:induction false} IncreasingDistinct(c: seq<nat>)
    requires Increasing(c)
    ensures Distinct(c)
  {
  }

  /** A filling is valid exactly when its first slot is a free combination
      and the rest is a valid filling of the other slots with those indices
      taken. */
  lemma {:induction false} ValidFillCons(x: seq<nat>, sizes: seq<nat>, n: nat, used: set<nat>)
    requires sizes != [] && sizes[0] <= |x|
    ensures ValidFill(x, sizes, n, used) <==>
      (IsCombo(x[..sizes[0]], 0, n, sizes[0]) && Avoids(x[..sizes[0]], used)
       && ValidFill(x[sizes[0]..], sizes[1..], n, used + Elems(x[..sizes[0]])))
  {
    if ValidFill(x, sizes, n, used) {
      ValidFillSplit(x, sizes, n, used);
    }
    if IsCombo(x[..sizes[0]], 0, n, sizes[0]) && Avoids(x[..sizes[0]], used)
       && ValidFill(x[sizes[0]..], sizes[1..], n, used + Elems(x[..sizes[0]])) {
      ValidFillJoin(x, sizes, n, used);
    }
  }

  lemma {:induction false} ValidFillSplit(x: seq<nat>, sizes: seq<nat>, n: nat, used: set<nat>)
    requires sizes != [] && sizes[0] <= |x|
    requires ValidFill(x, sizes, n, used)
    ensures IsCombo(x[..sizes[0]], 0, n, sizes[0]) && Avoids(x[..sizes[0]], used)
    ensures ValidFill(x[sizes[0]..], sizes[1..], n, used + Elems(x[..sizes[0]]))
  {
    var c, y := x[..sizes[0]], x[sizes[0]..];
    assert x == c + y;
    assert Sum(sizes) == sizes[0] + Sum(sizes[1..]);
    assert Distinct(y) by {
      forall i, j | 0 <= i < j < |y|
        ensures y[i] != y[j]
      {
        assert y[i] == x[i + |c|] && y[j] == x[j + |c|];
      }
    }
    forall i | 0 <= i < |y|
      ensures y[i] < n && y[i] !in used + Elems(c)
    {
      assert y[i] == x[i + |c|];
      forall j | 0 <= j < |c|
        ensures c[j] != y[i]
      {
        assert c[j] == x[j];
      }
    }
  }

  lemma {:induction false} ValidFillJoin(x: seq<nat>, sizes: seq<nat>, n: nat, used: set<nat>)
    requires sizes != [] && sizes[0] <= |x|
    requires IsCombo(x[..sizes[0]], 0, n, sizes[0]) && Avoids(x[..sizes[0]], used)
    requires ValidFill(x[sizes[0]..], sizes[1..], n, used + Elems(x[..sizes[0]]))
    ensures ValidFill(x, sizes, n, used)
  {
    var c, y := x[..sizes[0]], x[sizes[0]..];
    assert x == c + y;
    assert Sum(sizes) == sizes[0] + Sum(sizes[1..]);
    IncreasingDistinct(c);
    assert forall v :: v in y ==> v !in c;
    DistinctAppend(c, y);
    forall i | 0 <= i < |x|
      ensures x[i] < n && x[i] !in used
    {
      if i >= |c| {
        assert x[i] == y[i - |c|];
      }
    }
  }

  lemma {:induction false} ArrangeLoopMembership(n: nat, sizes: seq<nat>, used: set<nat>, cs: seq<seq<nat>>, x: seq<nat>)
    requires sizes != [] && forall c :: c in cs ==> |c| == sizes[0]
    ensures x in ArrangeLoop(n, sizes, used, cs) <==>
      (sizes[0] <= |x| && x[..sizes[0]] in cs
       && x[sizes[0]..] in Arrangements(n, sizes[1..], used + Elems(x[..sizes[0]])))
    decreases |cs|
  {
    if cs != [] {
      ArrangeLoopMembership(n, sizes, used, cs[1..], x);
      var c := cs[0];
      var l := Arrangements(n, sizes[1..], used + Elems(c));
      var p := PrefixAll(c, l);
      assert ArrangeLoop(n, sizes, used, cs) == p + ArrangeLoop(n, sizes, used, cs[1..]);
      PrefixAllMembership(c, l, x);
    }
  }

  /** The corrected enumeration lists exactly the valid fillings. */
  lemma {:induction false} ArrangementsMembership(n: nat, sizes: seq<nat>, used: set<nat>, x: seq<nat>)
    ensures x in Arrangements(n, sizes, used) <==> ValidFill(x, sizes, n, used)
    ensures Distinct(Arrangements(n, sizes, used))
    decreases |sizes|
  {
    ArrangementsDistinct(n, sizes, used);
    if sizes == [] {
      assert x in Arrangements(n, sizes, used) <==> x == [];
    } else {
      var cs := FreeCombos(n, sizes[0], used);
      ArrangeLoopMembership(n, sizes, used, cs, x);
      if sizes[0] <= |x| {
        var c := x[..sizes[0]];
        ArrangementsMembership(n, sizes[1..], used + Elems(c), x[sizes[0]..]);
        ValidFillCons(x, sizes, n, used);
      } else {
        assert Sum(sizes) == sizes[0] + Sum(sizes[1..]);
      }
    }
  }

  /** Dropping entries keeps a list free of repeats. */
  lemma {:induction false} KeepDistinct(l: seq<seq<nat>>, used: set<nat>)
    requires Distinct(l)
    ensures Distinct(Keep(l, used))
    decreases |l|
  {
    if l != [] {
      var tail := l[1..];
      assert Distinct(tail) by {
        forall i, j | 0 <= i < j < |tail|
          ensures tail[i] != tail[j]
        {
          assert tail[i] == l[i + 1] && tail[j] == l[j + 1];
        }
      }
      KeepDistinct(tail, used);
      assert l[0] !in tail by {
        forall k | 0 <= k < |tail|
          ensures tail[k] != l[0]
        {
          assert tail[k] == l[k + 1];
        }
      }
      var head := if Avoids(l[0], used) then [l[0]] else [];
      assert forall c :: c in Keep(tail, used) ==> c !in head;
      DistinctAppend(head, Keep(tail, used));
    }
  }

  /** Putting the same prefix before every entry keeps a list free of repeats. */
  lemma {:induction false} PrefixAllDistinct(p: seq<nat>, l: seq<seq<nat>>)
    requires Distinct(l)
    ensures Distinct(PrefixAll(p, l))
  {
    var r := PrefixAll(p, l);
    forall i, j | 0 <= i < j < |r|
      ensures r[i] != r[j]
    {
      assert r[i][|p|..] == l[i] && r[j][|p|..] == l[j];
    }
  }

  /** The corrected enumeration lists no filling twice, so no deal is scored
      twice: fillings from different first combinations differ in their
      first slot, and those from the same one differ in the rest. */
  lemma {:induction false} ArrangementsDistinct(n: nat, sizes: seq<nat>, used: set<nat>)
    ensures Distinct(Arrangements(n, sizes, used))
    decreases |sizes|, 1, 0
  {
    if sizes != [] {
      var cs := FreeCombos(n, sizes[0], used);
      CombosDistinct(0, n, sizes[0]);
      KeepDistinct(Combos(0, n, sizes[0]), used);
      ArrangeLoopDistinct(n, sizes, used, cs);
    }
  }

  lemma {:induction false} ArrangeLoopDistinct(n: nat, sizes: seq<nat>, used: set<nat>, cs: seq<seq<nat>>)
    requires sizes != [] && Distinct(cs) && forall c :: c in cs ==> |c| == sizes[0]
    ensures Distinct(ArrangeLoop(n, sizes, used, cs))
    decreases |sizes|, 0, |cs|
  {
    if cs != [] {
      var c, tail := cs[0], cs[1..];
      assert Distinct(tail) by {
        forall i, j | 0 <= i < j < |tail|
          ensures tail[i] != tail[j]
        {
          assert tail[i] == cs[i + 1] && tail[j] == cs[j + 1];
        }
      }
      assert c !in tail by {
        forall k | 0 <= k < |tail|
          ensures tail[k] != c
        {
          assert tail[k] == cs[k + 1];
        }
      }
      var l := Arrangements(n, sizes[1..], used + Elems(c));
      ArrangementsDistinct(n, sizes[1..], used + Elems(c));
      PrefixAllDistinct(c, l);
      ArrangeLoopDistinct(n, sizes, used, tail);
      var p, rest := PrefixAll(c, l), ArrangeLoop(n, sizes, used, tail);
      forall y | y in rest
        ensures y !in p
      {
        ArrangeLoopMembership(n, sizes, used, tail, y);
        PrefixAllMembership(c, l, y);
      }
      DistinctAppend(p, rest);
    }
  }

  // ---------------------------------------------------------------------
  // The cursor distribution as written

  /** What `for_each_combination(&pool, non_range_slots, ..)` followed by
      the cursor walk reads: one increasing combination of all slot indices. */
  function CursorFills(n: nat, sizes: seq<nat>): seq<seq<nat>> {
    Combos(0, n, Sum(sizes))
  }

  lemma {:induction false} IncreasingChunks(x: seq<nat>, sizes: seq<nat>)
    requires Increasing(x) && |x| == Sum(sizes)
    ensures ChunksIncreasing(x, sizes)
    decreases |sizes|
  {
    if sizes != [] {
      assert Sum(sizes) == sizes[0] + Sum(sizes[1..]);
      IncreasingChunks(x[sizes[0]..], sizes[1..]);
    }
  }

  /** Every filling the source enumerates is a valid one: the cursor never
      deals an index twice. */
  lemma {:induction false} CursorFillsSound(n: nat, sizes: seq<nat>, x: seq<nat>)
    requires x in CursorFills(n, sizes)
    ensures ValidFill(x, sizes, n, {})
  {
    CombosMembership(0, n, Sum(sizes), x);
    IncreasingChunks(x, sizes);
  }

  /** The source misses deals: with a pool of two cards and two one-card
      slots (two partial hands on a full board), the deal that gives the
      second pool card to the first slot is valid but never enumerated. */
  lemma {:induction false} CursorMissesSwap()
    ensures ValidFill([1, 0], [1, 1], 2, {})
    ensures [1, 0] in Arrangements(2, [1, 1], {})
    ensures [1, 0] !in CursorFills(2, [1, 1])
  {
    SwapIsValid();
    ArrangementsMembership(2, [1, 1], {}, [1, 0]);
    SwapNotIncreasing();
  }

  lemma {:induction false} SwapIsValid()
    ensures ValidFill([1, 0], [1, 1], 2, {})
  {
    var x: seq<nat> := [1, 0];
    var sizes: seq<nat> := [1, 1];
    assert sizes[1..] == [1] && sizes[1..][1..] == [];
    assert Sum(sizes) == 2;
    assert x[..1] == [1] && x[1..] == [0] && x[1..][..1] == [0] && x[1..][1..] == [];
    assert ChunksIncreasing(x[1..][1..], sizes[1..][1..]);
    assert ChunksIncreasing(x[1..], sizes[1..]);
    assert ChunksIncreasing(x, sizes);
  }

  lemma {:induction false} SwapNotIncreasing()
    ensures [1, 0] !in CursorFills(2, [1, 1])
  {
    var sizes: seq<nat> := [1, 1];
    assert sizes[1..] == [1] && sizes[1..][1..] == [];
    assert Sum(sizes) == 2;
    var x: seq<nat> := [1, 0];
    assert !Increasing(x) by {
      assert x[0] > x[1];
    }
    CombosMembership(0, 2, 2, x);
    assert CursorFills(2, sizes) == Combos(0, 2, 2);
  }

  /** With a single slot the two enumerations coincide, so a board top-up
      alone is enumerated completely: C(n, m) fillings. */
  lemma {:induction false} SingleSlot(n: nat, m: nat)
    ensures Arrangements(n, [m], {}) == CursorFills(n, [m]) == Combos(0, n, m)
    ensures |Arrangements(n, [m], {})| == Choose(n, m)
  {
    var sizes: seq<nat> := [m];
    assert Sum(sizes) == m;
    var l := Combos(0, n, m);
    KeepNothing(l);
    ArrangeLoopSingle(n, m, l);
    CombosLength(0, n, m);
  }

  lemma {:induction false} KeepNothing(l: seq<seq<nat>>)
    ensures Keep(l, {}) == l
  {
    if l != [] {
      KeepNothing(l[1..]);
    }
  }

  lemma {:induction false} ArrangeLoopSingle(n: nat, m: nat, cs: seq<seq<nat>>)
    ensures ArrangeLoop(n, [m], {}, cs) == cs
    decreases |cs|
  {
    if cs != [] {
      ArrangeLoopSingle(n, m, cs[1..]);
      var sizes: seq<nat> := [m];
      assert sizes[1..] == [];
      assert Arrangements(n, sizes[1..], {} + Elems(cs[0])) == [[]];
      assert PrefixAll(cs[0], [[]])[0] == cs[0] + [] == cs[0];
    }
  }
}
