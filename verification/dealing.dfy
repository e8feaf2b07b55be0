/** The cursor deal shared by the exact enumeration (core/src/enumeration.rs)
    and the two Monte Carlo loops (core/src/monte_carlo.rs,
    core/src/estimate.rs): the players are served in seat order from one
    stream of cards, an exact hand keeps its cards, a partial hand takes one
    card, an unknown hand takes two, a range player gets the hand chosen for
    it beforehand, and the board is then topped up from the same stream. */
module Dealing {
  import opened Cards
  import opened Input
  import opened Scoring
  import Assignments

  /** The cards a player's input fixes before anything is dealt. */
  function KnownOf(p: HoleInput): seq<Card> {
    match p
    case Exact(h) => ComboCards(h)
    case Partial(c) => [c]
    case Range(_) => []
    case Unknown => []
  }

  function KnownCards(players: seq<HoleInput>): seq<Card> {
    if players == [] then [] else KnownOf(players[0]) + KnownCards(players[1..])
  }

  /** How many cards a player takes from the stream. */
  function Need(p: HoleInput): nat {
    match p
    case Partial(_) => 1
    case Unknown => 2
    case Exact(_) => 0
    case Range(_) => 0
  }

  /** `partial_count + 2 * unknown_count`: the stream cards the players take. */
  function Slots(players: seq<HoleInput>): nat {
    if players == [] then 0 else Need(players[0]) + Slots(players[1..])
  }

  function RangeCount(players: seq<HoleInput>): nat {
    if players == [] then 0 else (if players[0].Range? then 1 else 0) + RangeCount(players[1..])
  }

  /** The range lists of the range players, in seat order. */
  function RangeLists(players: seq<HoleInput>): (r: seq<seq<Combo>>)
    ensures |r| == RangeCount(players)
  {
    if players == [] then []
    else if players[0].Range? then [players[0].hands] + RangeLists(players[1..])
    else RangeLists(players[1..])
  }

  /** The hole cards of every seat and what is left of the stream. */
  datatype Dealt = Dealt(holes: seq<Combo>, rest: seq<Card>)

  function Prepend(h: Combo, r: Option<Dealt>): Option<Dealt> {
    if r.None? then None else Some(Dealt([h] + r.value.holes, r.value.rest))
  }

  /** The hand one seat receives from the front of the stream. */
  function Serve(p: HoleInput, ranges: seq<Combo>, src: seq<Card>): Combo
    requires |src| >= Need(p) && (p.Range? ==> ranges != [])
  {
    match p
    case Exact(h) => h
    case Partial(k) => Combo(k, src[0])
    case Unknown => Combo(src[0], src[1])
    case Range(_) => ranges[0]
  }

  /** The range hands still to hand out after one seat. */
  function Skip(p: HoleInput, ranges: seq<Combo>): seq<Combo>
    requires p.Range? ==> ranges != []
  {
    if p.Range? then ranges[1..] else ranges
  }

  /** The seat-order pass: `ranges` holds the hands already chosen for the
      range players, in seat order, and `src` is the stream. The pass fails
      when the stream runs out. */
  function DealHoles(players: seq<HoleInput>, ranges: seq<Combo>, src: seq<Card>): (r: Option<Dealt>)
    requires |ranges| == RangeCount(players)
    ensures r.Some? <==> |src| >= Slots(players)
    ensures r.Some? ==> |r.value.holes| == |players| && r.value.rest == src[Slots(players)..]
  {
    if players == [] then Some(Dealt([], src))
    else if |src| < Need(players[0]) then None
    else
      var p := players[0];
      Prepend(Serve(p, ranges, src), DealHoles(players[1..], Skip(p, ranges), src[Need(p)..]))
  }

  /** The hand seat `i` receives when the cursor stands at `at` and `r`
      range hands have been handed out before it. */
  ghost predicate ServedAt(p: HoleInput, h: Combo, ranges: seq<Combo>, src: seq<Card>, at: nat, r: nat) {
    match p
    case Exact(x) => h == x
    case Partial(k) => at < |src| && h == Combo(k, src[at])
    case Unknown => at + 1 < |src| && h == Combo(src[at], src[at + 1])
    case Range(_) => r < |ranges| && h == ranges[r]
  }

  /** Seat `i` is served at cursor `Slots(players[..i])`: the cursor moves
      by one for a partial hand and by two for an unknown one, and range
      hands are handed out in seat order. */
  lemma {:induction false} DealHolesAt(players: seq<HoleInput>, ranges: seq<Combo>, src: seq<Card>, i: nat)
    requires |ranges| == RangeCount(players)
    requires DealHoles(players, ranges, src).Some? && i < |players|
    ensures ServedAt(players[i], DealHoles(players, ranges, src).value.holes[i], ranges, src,
                     Slots(players[..i]), RangeCount(players[..i]))
  {
    var p := players[0];
    var inner := DealHolesHead(players, ranges, src);
    var holes := DealHoles(players, ranges, src).value.holes;
    if i == 0 {
      assert players[..0] == [];
      ServeServed(p, ranges, src);
    } else {
      var tail := players[1..];
      DealHolesAt(tail, Skip(p, ranges), src[Need(p)..], i - 1);
      assert holes[i] == inner[i - 1];
      SeatPrefix(players, i);
      ServedAtShift(tail[i - 1], holes[i], p, ranges, src, Slots(tail[..i - 1]), RangeCount(tail[..i - 1]),
                    Slots(players[..i]), RangeCount(players[..i]));
    }
  }

  /** The first seat's hand followed by the pass over the other seats. */
  lemma {:induction false} DealHolesHead(players: seq<HoleInput>, ranges: seq<Combo>, src: seq<Card>) returns (inner: seq<Combo>)
    requires |ranges| == RangeCount(players)
    requires DealHoles(players, ranges, src).Some? && players != []
    ensures |src| >= Need(players[0]) && (players[0].Range? ==> ranges != [])
    ensures |Skip(players[0], ranges)| == RangeCount(players[1..])
    ensures DealHoles(players[1..], Skip(players[0], ranges), src[Need(players[0])..]).Some?
    ensures inner == DealHoles(players[1..], Skip(players[0], ranges), src[Need(players[0])..]).value.holes
    ensures DealHoles(players, ranges, src).value.holes == [Serve(players[0], ranges, src)] + inner
  {
    inner := DealHoles(players[1..], Skip(players[0], ranges), src[Need(players[0])..]).value.holes;
  }

  /** The first seat is served at cursor zero with no range hand before it. */
  lemma {:induction false} ServeServed(p: HoleInput, ranges: seq<Combo>, src: seq<Card>)
    requires |src| >= Need(p) && (p.Range? ==> ranges != [])
    ensures ServedAt(p, Serve(p, ranges, src), ranges, src, 0, 0)
  {
  }

  /** The counters before seat `i` are those before seat `i - 1` of the
      tail, plus what the first seat takes. */
  lemma {:induction false} SeatPrefix(players: seq<HoleInput>, i: nat)
    requires 0 < i < |players|
    ensures players[i] == players[1..][i - 1]
    ensures Slots(players[..i]) == Need(players[0]) + Slots(players[1..][..i - 1])
    ensures RangeCount(players[..i]) == (if players[0].Range? then 1 else 0) + RangeCount(players[1..][..i - 1])
  {
    assert players[..i] == [players[0]] + players[1..][..i - 1];
    assert players[..i][1..] == players[1..][..i - 1];
  }

  /** Serving from the stream after the first seat is serving from the whole
      stream with the cursor and range counter moved past that seat. */
  lemma {:induction false} ServedAtShift(q: HoleInput, h: Combo, p: HoleInput, ranges: seq<Combo>, src: seq<Card>, at: nat, r: nat,
                      at': nat, r': nat)
    requires |src| >= Need(p) && (p.Range? ==> ranges != [])
    requires at' == Need(p) + at && r' == (if p.Range? then 1 else 0) + r
    requires ServedAt(q, h, Skip(p, ranges), src[Need(p)..], at, r)
    ensures ServedAt(q, h, ranges, src, at', r')
  {
  }

  /** The range hand one seat takes, if any. */
  function Taken(p: HoleInput, ranges: seq<Combo>): (t: seq<Combo>)
    requires p.Range? ==> ranges != []
    ensures t + Skip(p, ranges) == ranges
  {
    if p.Range? then [ranges[0]] else []
  }

  /** One seat's hand is its fixed cards, its range hand or its stream cards. */
  lemma {:induction false} ServeCards(p: HoleInput, ranges: seq<Combo>, src: seq<Card>)
    requires |src| >= Need(p) && (p.Range? ==> ranges != [])
    ensures ComboCards(Serve(p, ranges, src)) == KnownOf(p) + HoleCards(Taken(p, ranges)) + src[..Need(p)]
  {
    match p
    case Range(_) =>
      assert HoleCards([ranges[0]]) == ComboCards(ranges[0]) + HoleCards([]);
    case Exact(_) =>
      assert src[..0] == [];
    case Partial(k) =>
      assert src[..1] == [src[0]];
    case Unknown =>
      assert src[..2] == [src[0], src[1]];
  }

  /** The seat-order pass hands out exactly the fixed cards, the range
      hands and the first `Slots(players)` stream cards, each once. */
  lemma {:induction false} DealHolesCards(players: seq<HoleInput>, ranges: seq<Combo>, src: seq<Card>)
    requires |ranges| == RangeCount(players)
    requires DealHoles(players, ranges, src).Some?
    ensures multiset(HoleCards(DealHoles(players, ranges, src).value.holes)) ==
      multiset(KnownCards(players)) + multiset(HoleCards(ranges)) + multiset(src[..Slots(players)])
  {
    if players != [] {
      var p := players[0];
      var ranges' := Skip(p, ranges);
      var src' := src[Need(p)..];
      var h := Serve(p, ranges, src);
      var holes' := DealHoles(players[1..], ranges', src').value.holes;
      var used := Taken(p, ranges);
      assert DealHoles(players, ranges, src).value.holes == [h] + holes';
      var hh := multiset(HoleCards([h] + holes'));
      var mh := multiset(ComboCards(h));
      var mhs := multiset(HoleCards(holes'));
      var k, r, s := multiset(KnownOf(p)), multiset(HoleCards(used)), multiset(src[..Need(p)]);
      var k', r', s' := multiset(KnownCards(players[1..])), multiset(HoleCards(ranges')), multiset(src'[..Slots(players[1..])]);
      assert hh == mh + mhs by {
        assert HoleCards([h] + holes') == ComboCards(h) + HoleCards(holes');
      }
      assert mh == k + r + s by {
        ServeCards(p, ranges, src);
        assert ComboCards(h) == KnownOf(p) + HoleCards(used) + src[..Need(p)];
      }
      assert mhs == k' + r' + s' by {
        DealHolesCards(players[1..], ranges', src');
      }
      assert multiset(HoleCards(ranges)) == r + r' by {
        HoleCardsAppend(used, ranges');
      }
      assert multiset(src[..Slots(players)]) == s + s' by {
        assert Slots(players) == Need(p) + Slots(players[1..]);
        SliceSplit(src, Need(p), Slots(players[1..]));
      }
      assert multiset(KnownCards(players)) == k + k' by {
        assert KnownCards(players) == KnownOf(p) + KnownCards(players[1..]);
      }
      Regroup(hh, mh, mhs, k, r, s, k', r', s',
              multiset(KnownCards(players)), multiset(HoleCards(ranges)), multiset(src[..Slots(players)]));
    }
  }

  lemma {:induction false} Regroup<T>(hh: multiset<T>, h: multiset<T>, hs: multiset<T>, k: multiset<T>, r: multiset<T>, s: multiset<T>,
                   k': multiset<T>, r': multiset<T>, s': multiset<T>, kk: multiset<T>, rr: multiset<T>, ss: multiset<T>)
    requires hh == h + hs && h == k + r + s && hs == k' + r' + s'
    requires kk == k + k' && rr == r + r' && ss == s + s'
    ensures hh == kk + rr + ss
  {
  }

  lemma {:induction false} SliceSplit<T>(s: seq<T>, a: nat, b: nat)
    requires a + b <= |s|
    ensures s[..a + b] == s[..a] + s[a..][..b]
  {
  }

  lemma {:induction false} HoleCardsAppend(a: seq<Combo>, b: seq<Combo>)
    ensures HoleCards(a + b) == HoleCards(a) + HoleCards(b)
  {
    if a != [] {
      HoleCardsAppend(a[1..], b);
      assert (a + b)[1..] == a[1..] + b;
    } else {
      assert a + b == b;
    }
  }

  /** A finished deal: every seat's hole cards and the five-card board. */
  datatype Deal = Deal(holes: seq<Combo>, board: seq<Card>)

  /** The seat-order pass followed by the board top-up from the same stream. */
  function DealAll(players: seq<HoleInput>, ranges: seq<Combo>, src: seq<Card>, board: seq<Card>, missing: nat)
    : (r: Option<Deal>)
    requires |ranges| == RangeCount(players)
    ensures r.Some? <==> |src| >= Slots(players) + missing
    ensures r.Some? ==> (|r.value.holes| == |players|
      && r.value.board == board + src[Slots(players)..Slots(players) + missing])
  {
    match DealHoles(players, ranges, src)
    case None => None
    case Some(d) =>
      if |d.rest| < missing then None
      else Some(Deal(d.holes, board + d.rest[..missing]))
  }

  function DealCards(d: Deal): seq<Card> {
    HoleCards(d.holes) + d.board
  }

  /** No card is dealt twice: if the board and the fixed cards repeat
      nothing, the range hands are free of them and of each other, and the
      stream repeats nothing and avoids all of these, then the finished
      deal repeats no card. */
  lemma {:induction false} DealDistinct(players: seq<HoleInput>, ranges: seq<Combo>, src: seq<Card>, board: seq<Card>, missing: nat)
    requires |ranges| == RangeCount(players)
    requires |src| >= Slots(players) + missing
    requires Distinct(board + KnownCards(players))
    requires Assignments.FreshFrom(ranges, Elems(board + KnownCards(players)))
    requires Distinct(src)
    requires forall c :: c in src ==> c !in board + KnownCards(players) && c !in HoleCards(ranges)
    ensures Distinct(DealCards(DealAll(players, ranges, src, board, missing).value))
  {
    var n := Slots(players) + missing;
    PartsDistinct(board + KnownCards(players), ranges, src, n);
    PermutedDealDistinct(players, ranges, src, board, missing, n);
  }

  lemma {:induction false} PermutedDealDistinct(players: seq<HoleInput>, ranges: seq<Combo>, src: seq<Card>, board: seq<Card>,
                                                missing: nat, n: nat)
    requires |ranges| == RangeCount(players)
    requires n == Slots(players) + missing && |src| >= n
    requires Distinct(board + KnownCards(players) + HoleCards(ranges) + src[..n])
    ensures Distinct(DealCards(DealAll(players, ranges, src, board, missing).value))
  {
    var holes := DealAllHoles(players, ranges, src, board, missing);
    DealHolesCards(players, ranges, src);
    DistinctRegroup(HoleCards(holes), board, KnownCards(players), HoleCards(ranges), src, Slots(players), missing);
  }

  lemma {:induction false} DistinctRegroup<T>(h: seq<T>, b: seq<T>, k: seq<T>, r: seq<T>, src: seq<T>, n: nat, m: nat)
    requires n + m <= |src|
    requires multiset(h) == multiset(k) + multiset(r) + multiset(src[..n])
    requires Distinct(b + k + r + src[..n + m])
    ensures Distinct(h + (b + src[n..n + m]))
  {
    RegroupDeal(h, b, k, r, src, n, m);
    DistinctPermutation(b + k + r + src[..n + m], h + (b + src[n..n + m]));
  }

  /** Fixed cards, fresh range hands and a prefix of a stream that avoids
      both repeat nothing together. */
  lemma {:induction false} PartsDistinct(fixed: seq<Card>, ranges: seq<Combo>, src: seq<Card>, n: nat)
    requires n <= |src|
    requires Distinct(fixed) && Assignments.FreshFrom(ranges, Elems(fixed)) && Distinct(src)
    requires forall c :: c in src ==> c !in fixed && c !in HoleCards(ranges)
    ensures Distinct(fixed + HoleCards(ranges) + src[..n])
  {
    var rc := HoleCards(ranges);
    assert Distinct(fixed + rc) by {
      Assignments.FreshFromSpec(ranges, Elems(fixed));
      DistinctAppend(fixed, rc);
    }
    assert Distinct(src[..n]);
    assert forall c :: c in src[..n] ==> c in src;
    DistinctAppend(fixed + rc, src[..n]);
  }

  /** A finished deal holds the board, the fixed cards, the range hands and
      the first `Slots(players) + missing` stream cards, each once. */
  lemma {:induction false} DealCardsPermutation(players: seq<HoleInput>, ranges: seq<Combo>, src: seq<Card>, board: seq<Card>, missing: nat)
    requires |ranges| == RangeCount(players)
    requires |src| >= Slots(players) + missing
    ensures multiset(DealCards(DealAll(players, ranges, src, board, missing).value)) ==
      multiset(board + KnownCards(players) + HoleCards(ranges) + src[..Slots(players) + missing])
  {
    var n := Slots(players);
    var holes := DealAllHoles(players, ranges, src, board, missing);
    DealHolesCards(players, ranges, src);
    RegroupDeal(HoleCards(holes), board, KnownCards(players), HoleCards(ranges), src, n, missing);
  }

  /** The holes of a finished deal are those of the seat-order pass. */
  lemma {:induction false} DealAllHoles(players: seq<HoleInput>, ranges: seq<Combo>, src: seq<Card>, board: seq<Card>, missing: nat)
    returns (holes: seq<Combo>)
    requires |ranges| == RangeCount(players)
    requires |src| >= Slots(players) + missing
    ensures DealHoles(players, ranges, src).Some? && holes == DealHoles(players, ranges, src).value.holes
    ensures DealCards(DealAll(players, ranges, src, board, missing).value) ==
      HoleCards(holes) + (board + src[Slots(players)..Slots(players) + missing])
  {
    holes := DealHoles(players, ranges, src).value.holes;
  }

  lemma {:induction false} RegroupDeal<T>(h: seq<T>, b: seq<T>, k: seq<T>, r: seq<T>, src: seq<T>, n: nat, m: nat)
    requires n + m <= |src|
    requires multiset(h) == multiset(k) + multiset(r) + multiset(src[..n])
    ensures multiset(h + (b + src[n..n + m])) == multiset(b + k + r + src[..n + m])
  {
    assert src[..n + m] == src[..n] + src[n..n + m];
  }

  /** A finished deal is sound when it repeats no card and extends `board`
      to exactly `n` cards. */
  ghost predicate DealOk(d: Deal, board: seq<Card>, n: nat) {
    Distinct(DealCards(d)) && |d.board| == n && |board| <= n && d.board[..|board|] == board
  }

  /** Every deal of a list is sound, one deal after the other. */
  ghost predicate AllOk(deals: seq<Deal>, board: seq<Card>, n: nat) {
    deals == [] || (DealOk(deals[0], board, n) && AllOk(deals[1..], board, n))
  }

  lemma {:induction false} AllOkSpec(deals: seq<Deal>, board: seq<Card>, n: nat)
    ensures AllOk(deals, board, n) <==> forall k :: 0 <= k < |deals| ==> DealOk(deals[k], board, n)
  {
    if deals != [] {
      AllOkSpec(deals[1..], board, n);
      assert forall k :: 0 < k < |deals| ==> deals[k] == deals[1..][k - 1];
      if forall k :: 0 <= k < |deals| ==> DealOk(deals[k], board, n) {
        assert forall k :: 0 <= k < |deals[1..]| ==> deals[1..][k] == deals[k + 1];
      }
    }
  }

  lemma {:induction false} AllOkAppend(a: seq<Deal>, b: seq<Deal>, board: seq<Card>, n: nat)
    ensures AllOk(a + b, board, n) <==> AllOk(a, board, n) && AllOk(b, board, n)
  {
    if a == [] {
      assert a + b == b;
    } else {
      assert (a + b)[0] == a[0] && (a + b)[1..] == a[1..] + b;
      AllOkAppend(a[1..], b, board, n);
    }
  }

  lemma {:induction false} AllOkOne(d: Deal, board: seq<Card>, n: nat)
    ensures AllOk([d], board, n) <==> DealOk(d, board, n)
  {
    assert [d][1..] == [];
  }

  /** An estimate before the conversion to percentages: the integer win
      vector, the number of scored deals and how they were produced. */
  datatype Counts = Counts(wins: seq<nat>, samples: nat, mode: SolveMode)

  /** Every seat's rank with the finished board. */
  function DealRanks(rank: seq<Card> -> int, d: Deal): (rs: seq<int>)
    ensures |rs| == |d.holes|
    ensures forall i :: 0 <= i < |d.holes| ==> rs[i] == rank(ComboCards(d.holes[i]) + d.board)
  {
    seq(|d.holes|, i requires 0 <= i < |d.holes| => rank(ComboCards(d.holes[i]) + d.board))
  }

  /** Wins of `n` seats summed over a list of deals. */
  function DealsWins(rank: seq<Card> -> int, n: nat, deals: seq<Deal>): (w: seq<nat>)
    requires forall k :: 0 <= k < |deals| ==> |deals[k].holes| == n
    ensures |w| == n
  {
    if deals == [] then Zeros(n)
    else AddWins(Tally(DealRanks(rank, deals[0])), DealsWins(rank, n, deals[1..]))
  }

  /** Every deal hands out between one and `n` wins. */
  lemma {:induction false} DealsWinsBounds(rank: seq<Card> -> int, n: nat, deals: seq<Deal>)
    requires n > 0 && forall k :: 0 <= k < |deals| ==> |deals[k].holes| == n
    ensures |deals| <= Sum(DealsWins(rank, n, deals)) <= n * |deals|
    ensures forall i :: 0 <= i < n ==> DealsWins(rank, n, deals)[i] <= |deals|
  {
    if deals == [] {
      SumZeros(n);
    } else {
      var t := Tally(DealRanks(rank, deals[0]));
      var rest := DealsWins(rank, n, deals[1..]);
      DealsWinsBounds(rank, n, deals[1..]);
      TallySpec(DealRanks(rank, deals[0]));
      SumAdd(t, rest);
      StepBound(n, |deals| - 1, Sum(t), Sum(rest));
    }
  }

  /** Scoring one more deal adds its tally to the wins so far. */
  lemma {:induction false} DealsWinsSnoc(rank: seq<Card> -> int, n: nat, deals: seq<Deal>, d: Deal)
    requires forall k :: 0 <= k < |deals| ==> |deals[k].holes| == n
    requires |d.holes| == n
    ensures forall k :: 0 <= k < |deals + [d]| ==> |(deals + [d])[k].holes| == n
    ensures DealsWins(rank, n, deals + [d]) == AddWins(DealsWins(rank, n, deals), Tally(DealRanks(rank, d)))
  {
    var all := deals + [d];
    assert forall k :: 0 <= k < |all| ==> |all[k].holes| == n by {
      forall k | 0 <= k < |all|
        ensures |all[k].holes| == n
      {
        if k < |deals| {
          assert all[k] == deals[k];
        }
      }
    }
    var t := Tally(DealRanks(rank, d));
    if deals == [] {
      assert all[1..] == [];
      assert DealsWins(rank, n, all) == AddWins(t, Zeros(n));
      AddWinsZeros(t);
    } else {
      assert all[0] == deals[0] && all[1..] == deals[1..] + [d];
      DealsWinsSnoc(rank, n, deals[1..], d);
      var t0 := Tally(DealRanks(rank, deals[0]));
      var mid := DealsWins(rank, n, deals[1..]);
      assert DealsWins(rank, n, all) == AddWins(t0, AddWins(mid, t));
      assert DealsWins(rank, n, deals) == AddWins(t0, mid);
      AddWinsAssoc(t0, mid, t);
    }
  }
}
