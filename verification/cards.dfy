/** Cards, hole-card pairs, the error kinds of the engine and the fixed
    52-card deck that `all_cards` builds (core/src/combinatorics.rs). */
module Cards {

  datatype Value = Two | Three | Four | Five | Six | Seven | Eight | Nine | Ten | Jack | Queen | King | Ace
  datatype Suit = Spade | Heart | Diamond | Club
  datatype Card = Card(value: Value, suit: Suit)

  /** Two hole cards, in the order they were dealt or written. */
  datatype Combo = Combo(c1: Card, c2: Card)

  /** The engine's error kinds; the message strings are not modelled. */
  datatype SnapError = InvalidCard | InvalidHand | InvalidRange

  /** How an equity figure was obtained. */
  datatype SolveMode = ExactEnumeration | MonteCarlo

  datatype Result<T> = Ok(value: T) | Err(error: SnapError)

  datatype Option<T> = None | Some(value: T)

  /** Ranks from Ace down to Two, the outer loop of `all_cards`. */
  const ValuesHighToLow: seq<Value> :=
    [Ace, King, Queen, Jack, Ten, Nine, Eight, Seven, Six, Five, Four, Three, Two]

  /** Suits in the inner-loop order of `all_cards`. */
  const SuitOrder: seq<Suit> := [Spade, Heart, Diamond, Club]

  function ValueIndex(v: Value): (i: nat)
    ensures i < 13 && ValuesHighToLow[i] == v
  {
    match v
    case Ace => 0 case King => 1 case Queen => 2 case Jack => 3 case Ten => 4
    case Nine => 5 case Eight => 6 case Seven => 7 case Six => 8 case Five => 9
    case Four => 10 case Three => 11 case Two => 12
  }

  function SuitIndex(s: Suit): (i: nat)
    ensures i < 4 && SuitOrder[i] == s
  {
    match s
    case Spade => 0 case Heart => 1 case Diamond => 2 case Club => 3
  }

  ghost predicate Distinct<T>(s: seq<T>) {
    forall i, j :: 0 <= i < j < |s| ==> s[i] != s[j]
  }

  function Elems<T>(s: seq<T>): set<T> {
    set x | x in s
  }

  function ComboCards(c: Combo): seq<Card> {
    [c.c1, c.c2]
  }

  /** Every card of a sequence of hole-card pairs, pair by pair. */
  function HoleCards(hs: seq<Combo>): (cs: seq<Card>)
    ensures |cs| == 2 * |hs|
    ensures forall i :: 0 <= i < |hs| ==> cs[2 * i] == hs[i].c1 && cs[2 * i + 1] == hs[i].c2
  {
    if hs == [] then [] else ComboCards(hs[0]) + HoleCards(hs[1..])
  }

  /** How many board cards are still to come to complete a five-card board. */
  function Missing(board: seq<Card>): (m: nat)
    requires |board| <= 5
    ensures |board| + m == 5
  {
    5 - |board|
  }

  /** A deck order: every one of the 52 cards exactly once. */
  ghost predicate IsDeckOrder(d: seq<Card>) {
    |d| == 52 && Distinct(d) && forall c: Card :: c in d
  }

  function DeckCard(i: nat): Card
    requires i < 52
  {
    Card(ValuesHighToLow[i / 4], SuitOrder[i % 4])
  }

  /** `all_cards`: the full deck, rank-major from Ace to Two, suits s, h, d, c inside. */
  function AllCards(): (deck: seq<Card>)
    ensures |deck| == 52
    ensures forall i :: 0 <= i < 52 ==> deck[i].value == ValuesHighToLow[i / 4] && deck[i].suit == SuitOrder[i % 4]
  {
    seq(52, i requires 0 <= i < 52 => DeckCard(i))
  }

  /** The deck built by `all_cards` holds all 52 cards, none twice. */
  lemma {:induction false} AllCardsIsDeck()
    ensures IsDeckOrder(AllCards())
  {
    var d := AllCards();
    forall i | 0 <= i < 52
      ensures 4 * ValueIndex(d[i].value) + SuitIndex(d[i].suit) == i
    {
      assert ValueIndex(d[i].value) == i / 4;
      assert SuitIndex(d[i].suit) == i % 4;
    }
    forall c: Card
      ensures c in d
    {
      var i := 4 * ValueIndex(c.value) + SuitIndex(c.suit);
      assert i / 4 == ValueIndex(c.value) && i % 4 == SuitIndex(c.suit);
      assert d[i] == c;
    }
  }

  /** The cards of `s` that are not in `out`, in the order of `s`. */
  function Without(s: seq<Card>, out: set<Card>): (r: seq<Card>)
    ensures |r| <= |s|
    ensures forall c :: c in r <==> c in s && c !in out
    ensures Distinct(s) ==> Distinct(r)
  {
    if s == [] then []
    else
      var rest := Without(s[1..], out);
      assert forall x :: x in s[1..] ==> x in s;
      if s[0] !in out then
        assert Distinct(s) ==> s[0] !in s[1..];
        [s[0]] + rest
      else rest
  }

  /** Removing cards works piece by piece, so the cards kept stay in their
      order. */
  lemma {:induction false} WithoutConcat(a: seq<Card>, b: seq<Card>, out: set<Card>)
    ensures Without(a + b, out) == Without(a, out) + Without(b, out)
    decreases |a|
  {
    if a == [] {
      assert a + b == b;
    } else {
      var ab := a + b;
      var h := if a[0] in out then [] else [a[0]];
      var x, y := Without(a[1..], out), Without(b, out);
      assert Without(ab, out) == h + (x + y) by {
        assert ab[0] == a[0] && ab[1..] == a[1..] + b;
        WithoutConcat(a[1..], b, out);
        WithoutCons(ab, out);
      }
      assert Without(a, out) == h + x by {
        WithoutCons(a, out);
      }
      ConcatAssoc(h, x, y);
    }
  }

  /** Removing cards looks at the first card, then at the rest. */
  lemma WithoutCons(s: seq<Card>, out: set<Card>)
    requires s != []
    ensures Without(s, out) == (if s[0] in out then [] else [s[0]]) + Without(s[1..], out)
  {
    if s[0] in out {
      assert [] + Without(s[1..], out) == Without(s[1..], out);
    }
  }

  lemma ConcatAssoc<T>(h: seq<T>, x: seq<T>, y: seq<T>)
    ensures h + (x + y) == (h + x) + y
  {
  }

  /** A single card is kept exactly when it is not removed. */
  lemma {:induction false} WithoutOne(c: Card, out: set<Card>)
    ensures Without([c], out) == if c in out then [] else [c]
  {
    assert [c][1..] == [];
  }

  /** Removing a set from a duplicate-free full deck leaves 52 minus the removed count. */
  lemma {:induction false} WithoutDeckSize(deck: seq<Card>, out: set<Card>)
    requires IsDeckOrder(deck)
    ensures |Without(deck, out)| == 52 - |out|
  {
    var r := Without(deck, out);
    DistinctCardinality(r);
    DistinctCardinality(deck);
    assert Elems(r) == Elems(deck) - out;
    assert out <= Elems(deck);
    assert |Elems(deck) - out| == |Elems(deck)| - |out|;
  }

  lemma {:induction false} DistinctAppend<T>(a: seq<T>, b: seq<T>)
    requires Distinct(a) && Distinct(b) && forall c :: c in b ==> c !in a
    ensures Distinct(a + b)
  {
    forall i, j | 0 <= i < j < |a + b|
      ensures (a + b)[i] != (a + b)[j]
    {
      if j < |a| {
        assert (a + b)[i] == a[i] && (a + b)[j] == a[j];
      } else if i < |a| {
        assert (a + b)[i] == a[i] && (a + b)[j] == b[j - |a|];
        assert b[j - |a|] in b && a[i] in a;
      } else if i >= |a| {
        assert (a + b)[i] == b[i - |a|] && (a + b)[j] == b[j - |a|];
      }
    }
  }

  /** A concatenation repeats nothing exactly when neither part does and
      they share nothing. */
  lemma {:induction false} DistinctConcat<T>(a: seq<T>, b: seq<T>)
    ensures Distinct(a + b) <==> Distinct(a) && Distinct(b) && forall x :: x in a ==> x !in b
  {
    if Distinct(a + b) {
      forall i, j | 0 <= i < j < |b|
        ensures b[i] != b[j]
      {
        assert b[i] == (a + b)[|a| + i] && b[j] == (a + b)[|a| + j];
      }
      forall x | x in a
        ensures x !in b
      {
        var i :| 0 <= i < |a| && a[i] == x;
        forall j | 0 <= j < |b|
          ensures b[j] != x
        {
          assert b[j] == (a + b)[|a| + j] && x == (a + b)[i];
        }
      }
      forall i, j | 0 <= i < j < |a|
        ensures a[i] != a[j]
      {
        assert a[i] == (a + b)[i] && a[j] == (a + b)[j];
      }
    } else if Distinct(a) && Distinct(b) && forall x :: x in a ==> x !in b {
      DistinctAppend(a, b);
    }
  }

  /** A sequence repeats nothing exactly when it holds every value at most once. */
  lemma {:induction false} DistinctCounts<T>(s: seq<T>)
    ensures Distinct(s) <==> forall x :: multiset(s)[x] <= 1
  {
    if s != [] {
      DistinctCounts(s[1..]);
      assert s == [s[0]] + s[1..];
      assert multiset(s) == multiset{s[0]} + multiset(s[1..]);
      if Distinct(s) {
        assert Distinct(s[1..]) by {
          forall i, j | 0 <= i < j < |s[1..]|
            ensures s[1..][i] != s[1..][j]
          {
            assert s[1..][i] == s[i + 1] && s[1..][j] == s[j + 1];
          }
        }
        assert s[0] !in s[1..] by {
          forall k | 0 <= k < |s[1..]|
            ensures s[1..][k] != s[0]
          {
            assert s[1..][k] == s[k + 1];
          }
        }
      }
      if forall x :: multiset(s)[x] <= 1 {
        assert forall x :: multiset(s[1..])[x] <= 1 by {
          forall x
            ensures multiset(s[1..])[x] <= 1
          {
            assert multiset(s)[x] == multiset{s[0]}[x] + multiset(s[1..])[x];
          }
        }
        assert multiset(s)[s[0]] == 1 + multiset(s[1..])[s[0]];
        forall i, j | 0 <= i < j < |s|
          ensures s[i] != s[j]
        {
          if i == 0 {
            assert s[j] == s[1..][j - 1];
            assert s[j] in multiset(s[1..]);
          } else {
            assert s[i] == s[1..][i - 1] && s[j] == s[1..][j - 1];
          }
        }
      }
    }
  }

  /** Reordering keeps a sequence free of repeats. */
  lemma {:induction false} DistinctPermutation<T>(a: seq<T>, b: seq<T>)
    requires Distinct(a) && multiset(a) == multiset(b)
    ensures Distinct(b)
  {
    DistinctCounts(a);
    DistinctCounts(b);
  }

  lemma {:induction false} DistinctCardinality<T>(s: seq<T>)
    requires Distinct(s)
    ensures |Elems(s)| == |s|
  {
    if s != [] {
      DistinctCardinality(s[1..]);
      assert Elems(s) == {s[0]} + Elems(s[1..]);
      assert s[0] !in Elems(s[1..]);
    }
  }
}
