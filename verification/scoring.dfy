/** Integer win tallying and the exact runout enumeration of
    `calculate_exact_equity` (core/src/equity.rs). Hand ranking belongs to
    rs_poker and is not part of this model: it is the parameter `rank`,
    an arbitrary function from a card sequence to a totally ordered value.
    The conversion of win counts to floating-point percentages is left out. */
module Scoring {
  import opened Cards
  import opened Binomial
  import opened Combinations

  function Sum(xs: seq<nat>): nat {
    if xs == [] then 0 else xs[0] + Sum(xs[1..])
  }

  function Zeros(n: nat): (z: seq<nat>)
    ensures |z| == n && forall i :: 0 <= i < n ==> z[i] == 0
  {
    seq(n, i => 0)
  }

  /** Pointwise sum of two win vectors. */
  function AddWins(a: seq<nat>, b: seq<nat>): (r: seq<nat>)
    requires |a| == |b|
    ensures |r| == |a|
    ensures forall i :: 0 <= i < |a| ==> r[i] == a[i] + b[i]
  {
    seq(|a|, i requires 0 <= i < |a| => a[i] + b[i])
  }

  lemma {:induction false} SumAdd(a: seq<nat>, b: seq<nat>)
    requires |a| == |b|
    ensures Sum(AddWins(a, b)) == Sum(a) + Sum(b)
  {
    if a != [] {
      SumAdd(a[1..], b[1..]);
      assert AddWins(a, b)[1..] == AddWins(a[1..], b[1..]);
    }
  }

  lemma {:induction false} AddWinsAssoc(a: seq<nat>, b: seq<nat>, c: seq<nat>)
    requires |a| == |b| == |c|
    ensures AddWins(a, AddWins(b, c)) == AddWins(AddWins(a, b), c)
  {
  }

  lemma {:induction false} AddWinsZeros(a: seq<nat>)
    ensures AddWins(a, Zeros(|a|)) == AddWins(Zeros(|a|), a) == a
  {
  }

  lemma {:induction false} SumZeros(n: nat)
    ensures Sum(Zeros(n)) == 0
  {
    if n > 0 {
      assert Zeros(n)[1..] == Zeros(n - 1);
      SumZeros(n - 1);
    }
  }

  /** A vector of zeros and ones sums to at most its length, and to at least
      one when some entry is one. */
  lemma {:induction false} SumBits(xs: seq<nat>)
    requires forall i :: 0 <= i < |xs| ==> xs[i] <= 1
    ensures Sum(xs) <= |xs|
    ensures (exists i :: 0 <= i < |xs| && xs[i] == 1) ==> Sum(xs) >= 1
  {
    if xs != [] {
      SumBits(xs[1..]);
      if xs[0] == 0 && exists i :: 0 <= i < |xs| && xs[i] == 1 {
        var i :| 0 <= i < |xs| && xs[i] == 1;
        assert xs[1..][i - 1] == 1;
      }
    }
  }

  function MaxOf(xs: seq<int>): (m: int)
    requires xs != []
    ensures m in xs
    ensures forall i :: 0 <= i < |xs| ==> xs[i] <= m
  {
    if |xs| == 1 then xs[0]
    else
      var rest := MaxOf(xs[1..]);
      assert forall i :: 1 <= i < |xs| ==> xs[i] == xs[1..][i - 1];
      if xs[0] >= rest then xs[0] else rest
  }

  /** One deal's tally: +1 for every player holding a best rank, so ties
      share the deal. No players, no tally. */
  function Tally(ranks: seq<int>): (w: seq<nat>)
    ensures |w| == |ranks|
    ensures forall i :: 0 <= i < |ranks| ==> w[i] <= 1
  {
    if ranks == [] then []
    else
      var best := MaxOf(ranks);
      seq(|ranks|, i requires 0 <= i < |ranks| => if ranks[i] == best then 1 else 0)
  }

  /** A player scores exactly when no other player ranks higher, and every
      deal gives out between one and (number of players) points. */
  lemma {:induction false} TallySpec(ranks: seq<int>)
    ensures forall i :: 0 <= i < |ranks| ==>
      (Tally(ranks)[i] == 1 <==> forall j :: 0 <= j < |ranks| ==> ranks[j] <= ranks[i])
    ensures ranks != [] ==> 1 <= Sum(Tally(ranks)) <= |ranks|
  {
    var w := Tally(ranks);
    SumBits(w);
    if ranks != [] {
      var best := MaxOf(ranks);
      var k :| 0 <= k < |ranks| && ranks[k] == best;
      assert w[k] == 1;
    }
  }

  /** The ranks of every player's two cards with the board and one runout. */
  function HandRanks(rank: seq<Card> -> int, hands: seq<seq<Card>>, board: seq<Card>, runout: seq<Card>)
    : (rs: seq<int>)
    ensures |rs| == |hands|
    ensures forall i :: 0 <= i < |hands| ==> rs[i] == rank(hands[i] + board + runout)
  {
    seq(|hands|, i requires 0 <= i < |hands| => rank(hands[i] + board + runout))
  }

  /** Wins summed over a list of runouts. */
  function WinsOver(rank: seq<Card> -> int, hands: seq<seq<Card>>, board: seq<Card>, runouts: seq<seq<Card>>)
    : (w: seq<nat>)
    ensures |w| == |hands|
  {
    if runouts == [] then Zeros(|hands|)
    else AddWins(Tally(HandRanks(rank, hands, board, runouts[0])), WinsOver(rank, hands, board, runouts[1..]))
  }

  /** Every runout adds at least one and at most (number of players) wins,
      and no player wins more often than there are runouts. */
  lemma {:induction false} WinsOverBounds(rank: seq<Card> -> int, hands: seq<seq<Card>>, board: seq<Card>, runouts: seq<seq<Card>>)
    requires hands != []
    ensures |runouts| <= Sum(WinsOver(rank, hands, board, runouts)) <= |hands| * |runouts|
    ensures forall i :: 0 <= i < |hands| ==> WinsOver(rank, hands, board, runouts)[i] <= |runouts|
  {
    if runouts == [] {
      SumZeros(|hands|);
    } else {
      var t := Tally(HandRanks(rank, hands, board, runouts[0]));
      var rest := WinsOver(rank, hands, board, runouts[1..]);
      var w := WinsOver(rank, hands, board, runouts);
      assert w == AddWins(t, rest);
      WinsOverBounds(rank, hands, board, runouts[1..]);
      TallySpec(HandRanks(rank, hands, board, runouts[0]));
      SumAdd(t, rest);
      var n, k := |hands|, |runouts| - 1;
      assert Sum(rest) <= n * k;
      StepBound(n, k, Sum(t), Sum(rest));
    }
  }

  lemma {:induction false} StepBound(n: nat, k: nat, a: nat, b: nat)
    requires a <= n && b <= n * k
    ensures a + b <= n * (k + 1)
  {
  }

  /** `calculate_exact_equity` before the conversion to percentages: the
      integer win vector over every `missing`-card runout drawn from
      `remaining`, in the order `for_each_combination` produces them. */
  function ExactWins(rank: seq<Card> -> int, hands: seq<seq<Card>>, board: seq<Card>, remaining: seq<Card>, missing: nat)
    : (w: seq<nat>)
    ensures |w| == |hands|
  {
    WinsOver(rank, hands, board, ForEachCombination(remaining, missing))
  }

  /** Exactly C(|remaining|, missing) runouts are scored, each adding between
      one and (number of players) wins. */
  lemma {:induction false} ExactWinsBounds(rank: seq<Card> -> int, hands: seq<seq<Card>>, board: seq<Card>, remaining: seq<Card>, missing: nat)
    requires hands != []
    ensures var runouts := Choose(|remaining|, missing);
      runouts <= Sum(ExactWins(rank, hands, board, remaining, missing)) <= |hands| * runouts
      && forall i :: 0 <= i < |hands| ==> ExactWins(rank, hands, board, remaining, missing)[i] <= runouts
  {
    WinsOverBounds(rank, hands, board, ForEachCombination(remaining, missing));
  }
}
