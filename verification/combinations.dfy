/** k-combinations: a reference enumeration of index lists in lexicographic
    order, and the engine's two enumerators, the recursive `for_each_combination`
    of core/src/combinatorics.rs and the index-advancing one of
    core/src/enumeration.rs. A callback is modelled by the sequence of slices
    it would receive, in call order. */
module Combinations {
  import opened Cards
  import opened Binomial

  /** `[x, x+1, ..., x+m-1]` */
  function Run(x: nat, m: nat): (r: seq<nat>)
    ensures |r| == m && forall i :: 0 <= i < m ==> r[i] == x + i
  {
    seq(m, i requires 0 <= i < m => x + i)
  }

  function Prepend(x: nat, ss: seq<seq<nat>>): (r: seq<seq<nat>>)
    ensures |r| == |ss| && forall i :: 0 <= i < |ss| ==> r[i] == [x] + ss[i]
  {
    seq(|ss|, i requires 0 <= i < |ss| => [x] + ss[i])
  }

  /** Reference enumeration: every strictly increasing list of k indices drawn
      from [lo, n), in lexicographic order. */
  function Combos(lo: nat, n: nat, k: nat): seq<seq<nat>>
    decreases n - lo
  {
    if k == 0 then [[]]
    else if lo >= n then []
    else Prepend(lo, Combos(lo + 1, n, k - 1)) + Combos(lo + 1, n, k)
  }

  ghost predicate Increasing(c: seq<nat>) {
    forall i, j :: 0 <= i < j < |c| ==> c[i] < c[j]
  }

  /** A k-subset of [lo, n), written as an increasing index list. */
  ghost predicate IsCombo(c: seq<nat>, lo: nat, n: nat, k: nat) {
    |c| == k && Increasing(c) && forall i :: 0 <= i < |c| ==> lo <= c[i] < n
  }

  /** Strict lexicographic order on index lists. */
  predicate LexLess(a: seq<nat>, b: seq<nat>)
    decreases |a|
  {
    |b| > 0 && (|a| == 0 || a[0] < b[0] || (a[0] == b[0] && LexLess(a[1..], b[1..])))
  }

  ghost predicate LexSorted(l: seq<seq<nat>>) {
    forall i, j :: 0 <= i < j < |l| ==> LexLess(l[i], l[j])
  }

  lemma {:induction false} LexLessIrreflexive(a: seq<nat>)
    ensures !LexLess(a, a)
    decreases |a|
  {
    if |a| > 0 {
      LexLessIrreflexive(a[1..]);
    }
  }

  lemma {:induction false} LexLessCons(x: nat, a: seq<nat>, b: seq<nat>)
    requires LexLess(a, b)
    ensures LexLess([x] + a, [x] + b)
  {
    assert ([x] + a)[1..] == a;
    assert ([x] + b)[1..] == b;
  }

  lemma {:induction false} InPrepend(x: nat, l: seq<seq<nat>>, c: seq<nat>)
    ensures c in Prepend(x, l) <==> |c| > 0 && c[0] == x && c[1..] in l
  {
    if c in Prepend(x, l) {
      var i :| 0 <= i < |l| && Prepend(x, l)[i] == c;
      assert c[1..] == l[i];
    }
    if |c| > 0 && c[0] == x && c[1..] in l {
      var i :| 0 <= i < |l| && l[i] == c[1..];
      assert Prepend(x, l)[i] == c;
    }
  }

  /** There are C(n - lo, k) combinations. */
  lemma {:induction false} CombosLength(lo: nat, n: nat, k: nat)
    requires lo <= n
    ensures |Combos(lo, n, k)| == Choose(n - lo, k)
    decreases n - lo
  {
    if k > 0 && lo < n {
      CombosLength(lo + 1, n, k - 1);
      CombosLength(lo + 1, n, k);
    } else if k > 0 {
      assert Choose(0, k) == 0;
    }
  }

  /** A combination from above `x`, with `x` put in front, is one from `x` on. */
  lemma {:induction false} ConsCombo(x: nat, c: seq<nat>, n: nat, k: nat)
    requires x < n && IsCombo(c, x + 1, n, k)
    ensures IsCombo([x] + c, x, n, k + 1)
  {
    var d := [x] + c;
    forall i, j | 0 <= i < j < |d|
      ensures d[i] < d[j]
    {
      assert d[j] == c[j - 1];
      if i > 0 {
        assert d[i] == c[i - 1];
      }
    }
  }

  /** Every listed entry is a k-subset of [lo, n). */
  lemma {:induction false} CombosSound(lo: nat, n: nat, k: nat, c: seq<nat>)
    requires c in Combos(lo, n, k)
    ensures IsCombo(c, lo, n, k)
    decreases n - lo
  {
    if k > 0 {
      assert lo < n;
      var a := Combos(lo + 1, n, k - 1);
      var b := Combos(lo + 1, n, k);
      assert Combos(lo, n, k) == Prepend(lo, a) + b;
      InPrepend(lo, a, c);
      if c in Prepend(lo, a) {
        var t := c[1..];
        CombosSound(lo + 1, n, k - 1, t);
        ConsCombo(lo, t, n, k - 1);
        assert c == [lo] + t;
      } else {
        assert c in b;
        CombosSound(lo + 1, n, k, c);
      }
    }
  }

  /** Every k-subset of [lo, n) is listed. */
  lemma {:induction false} CombosComplete(lo: nat, n: nat, k: nat, c: seq<nat>)
    requires IsCombo(c, lo, n, k)
    ensures c in Combos(lo, n, k)
    decreases n - lo
  {
    if k > 0 {
      assert lo <= c[0] < n;
      var a := Combos(lo + 1, n, k - 1);
      if c[0] == lo {
        assert IsCombo(c[1..], lo + 1, n, k - 1);
        CombosComplete(lo + 1, n, k - 1, c[1..]);
        InPrepend(lo, a, c);
      } else {
        assert forall i :: 0 <= i < |c| ==> c[0] <= c[i];
        CombosComplete(lo + 1, n, k, c);
      }
    }
  }

  /** The reference enumeration lists exactly the k-subsets of [lo, n). */
  lemma {:induction false} CombosMembership(lo: nat, n: nat, k: nat, c: seq<nat>)
    ensures c in Combos(lo, n, k) <==> IsCombo(c, lo, n, k)
  {
    if c in Combos(lo, n, k) {
      CombosSound(lo, n, k, c);
    }
    if IsCombo(c, lo, n, k) {
      CombosComplete(lo, n, k, c);
    }
  }

  /** The reference enumeration is strictly increasing in lexicographic order. */
  lemma {:induction false} CombosSorted(lo: nat, n: nat, k: nat)
    ensures LexSorted(Combos(lo, n, k))
    decreases n - lo
  {
    if k > 0 && lo < n {
      var a := Combos(lo + 1, n, k - 1);
      var b := Combos(lo + 1, n, k);
      CombosSorted(lo + 1, n, k - 1);
      CombosSorted(lo + 1, n, k);
      var l := Prepend(lo, a) + b;
      forall i, j | 0 <= i < j < |l|
        ensures LexLess(l[i], l[j])
      {
        if j < |a| {
          LexLessCons(lo, a[i], a[j]);
        } else if i < |a| {
          CombosMembership(lo + 1, n, k, b[j - |a|]);
          assert l[j] == b[j - |a|] && l[j][0] >= lo + 1;
        } else {
          assert l[i] == b[i - |a|] && l[j] == b[j - |a|];
        }
      }
    }
  }

  /** No k-subset is listed twice. */
  lemma {:induction false} CombosDistinct(lo: nat, n: nat, k: nat)
    ensures Distinct(Combos(lo, n, k))
  {
    var l := Combos(lo, n, k);
    CombosSorted(lo, n, k);
    forall i, j | 0 <= i < j < |l|
      ensures l[i] != l[j]
    {
      LexLessIrreflexive(l[i]);
    }
  }

  /** Too few indices left: nothing is listed. */
  lemma {:induction false} CombosEmpty(lo: nat, n: nat, k: nat)
    requires k > 0 && lo + k > n
    ensures Combos(lo, n, k) == []
    decreases n - lo
  {
    if lo < n {
      CombosEmpty(lo + 1, n, k);
      if k > 1 {
        CombosEmpty(lo + 1, n, k - 1);
      }
    }
  }

  /** A run is its first index followed by the run after it. */
  lemma {:induction false} RunCons(lo: nat, k: nat)
    requires k > 0
    ensures [lo] + Run(lo + 1, k - 1) == Run(lo, k)
  {
    var r := [lo] + Run(lo + 1, k - 1);
    assert forall i :: 0 <= i < k ==> r[i] == lo + i;
  }

  /** The head of a non-empty prefix-then-rest list is the prefixed head. */
  lemma {:induction false} HeadOfPrepend(lo: nat, a: seq<seq<nat>>, b: seq<seq<nat>>)
    requires |a| > 0
    ensures |Prepend(lo, a) + b| > 0 && (Prepend(lo, a) + b)[0] == [lo] + a[0]
  {
  }

  /** Enough indices left: the first combination is the lowest run. */
  lemma {:induction false} CombosFirst(lo: nat, n: nat, k: nat)
    requires lo + k <= n
    ensures |Combos(lo, n, k)| > 0 && Combos(lo, n, k)[0] == Run(lo, k)
    decreases n - lo
  {
    if k > 0 {
      var a := Combos(lo + 1, n, k - 1);
      CombosFirst(lo + 1, n, k - 1);
      assert Combos(lo, n, k) == Prepend(lo, a) + Combos(lo + 1, n, k);
      HeadOfPrepend(lo, a, Combos(lo + 1, n, k));
      RunCons(lo, k);
    }
  }

  // ---------------------------------------------------------------------
  // Selecting elements by index

  ghost predicate IndicesBelow(idx: seq<nat>, n: nat) {
    forall i :: 0 <= i < |idx| ==> idx[i] < n
  }

  /** The elements of `xs` at the positions `idx`, in that order. */
  function Select<T>(xs: seq<T>, idx: seq<nat>): (r: seq<T>)
    requires IndicesBelow(idx, |xs|)
    ensures |r| == |idx| && forall i :: 0 <= i < |idx| ==> r[i] == xs[idx[i]]
  {
    seq(|idx|, i requires 0 <= i < |idx| => xs[idx[i]])
  }

  ghost predicate AllBelow(l: seq<seq<nat>>, n: nat) {
    forall i :: 0 <= i < |l| ==> IndicesBelow(l[i], n)
  }

  function SelectAll<T>(xs: seq<T>, l: seq<seq<nat>>): (r: seq<seq<T>>)
    requires AllBelow(l, |xs|)
    ensures |r| == |l| && forall i :: 0 <= i < |l| ==> r[i] == Select(xs, l[i])
  {
    seq(|l|, i requires 0 <= i < |l| => Select(xs, l[i]))
  }

  function PrefixAll<T>(p: seq<T>, l: seq<seq<T>>): (r: seq<seq<T>>)
    ensures |r| == |l| && forall i :: 0 <= i < |l| ==> r[i] == p + l[i]
  {
    seq(|l|, i requires 0 <= i < |l| => p + l[i])
  }

  /** A sequence is listed by `PrefixAll(p, l)` exactly when it starts with
      `p` and continues with a member of `l`. */
  lemma {:induction false} PrefixAllMembership<T>(p: seq<T>, l: seq<seq<T>>, x: seq<T>)
    ensures x in PrefixAll(p, l) <==> |p| <= |x| && x[..|p|] == p && x[|p|..] in l
  {
    var r := PrefixAll(p, l);
    if x in r {
      var i :| 0 <= i < |r| && r[i] == x;
      assert x[..|p|] == p && x[|p|..] == l[i];
    }
    if |p| <= |x| && x[..|p|] == p && x[|p|..] in l {
      var i :| 0 <= i < |l| && l[i] == x[|p|..];
      assert r[i] == x;
    }
  }

  lemma {:induction false} CombosBelow(lo: nat, n: nat, k: nat)
    ensures AllBelow(Combos(lo, n, k), n)
  {
    var l := Combos(lo, n, k);
    forall i | 0 <= i < |l|
      ensures IndicesBelow(l[i], n)
    {
      CombosMembership(lo, n, k, l[i]);
    }
  }

  // ---------------------------------------------------------------------
  // core/src/combinatorics.rs: recursive `for_each_combination`

  /** `recurse`: with `selected` chosen so far, the slices passed to the
      callback. */
  function Recurse<T>(cards: seq<T>, k: nat, start: nat, selected: seq<T>): seq<seq<T>>
    requires |selected| <= k <= |cards|
    decreases k - |selected|, 1, 0
  {
    if |selected| == k then [selected]
    else
      var end := |cards| - (k - |selected|);
      if start > end + 1 then []
      else RecurseLoop(cards, k, start, end, selected)
  }

  /** The `for idx in start..=end` loop of `recurse`, from `idx` on. */
  function RecurseLoop<T>(cards: seq<T>, k: nat, idx: nat, end: nat, selected: seq<T>): seq<seq<T>>
    requires |selected| < k <= |cards| && end == |cards| - (k - |selected|) && idx <= end + 1
    decreases k - |selected|, 0, end + 1 - idx
  {
    if idx > end then []
    else Recurse(cards, k, idx + 1, selected + [cards[idx]]) + RecurseLoop(cards, k, idx + 1, end, selected)
  }

  lemma {:induction false} SelectCons<T>(cards: seq<T>, x: nat, l: seq<seq<nat>>)
    requires x < |cards| && AllBelow(l, |cards|)
    ensures AllBelow(Prepend(x, l), |cards|)
    ensures SelectAll(cards, Prepend(x, l)) == PrefixAll([cards[x]], SelectAll(cards, l))
  {
    var p := Prepend(x, l);
    forall i | 0 <= i < |p|
      ensures IndicesBelow(p[i], |cards|)
    {
      assert p[i] == [x] + l[i];
    }
    forall i | 0 <= i < |l|
      ensures Select(cards, p[i]) == [cards[x]] + Select(cards, l[i])
    {
    }
  }

  lemma {:induction false} PrefixConcat<T>(p: seq<T>, a: seq<seq<T>>, b: seq<seq<T>>)
    ensures PrefixAll(p, a + b) == PrefixAll(p, a) + PrefixAll(p, b)
  {
  }

  lemma {:induction false} PrefixEmpty<T>(l: seq<seq<T>>)
    ensures PrefixAll([], l) == l
  {
    forall i | 0 <= i < |l|
      ensures [] + l[i] == l[i]
    {
    }
  }

  lemma {:induction false} PrefixPrefix<T>(p: seq<T>, q: seq<T>, l: seq<seq<T>>)
    ensures PrefixAll(p, PrefixAll(q, l)) == PrefixAll(p + q, l)
  {
    forall i | 0 <= i < |l|
      ensures p + (q + l[i]) == (p + q) + l[i]
    {
    }
  }

  lemma {:induction false} SelectConcat<T>(cards: seq<T>, a: seq<seq<nat>>, b: seq<seq<nat>>)
    requires AllBelow(a, |cards|) && AllBelow(b, |cards|)
    ensures AllBelow(a + b, |cards|)
    ensures SelectAll(cards, a + b) == SelectAll(cards, a) + SelectAll(cards, b)
  {
    var ab := a + b;
    forall i | 0 <= i < |ab|
      ensures IndicesBelow(ab[i], |cards|)
    {
      if i >= |a| {
        assert ab[i] == b[i - |a|];
      }
    }
  }

  /** The loop from `idx` passes, after `selected`, every remaining
      combination from [idx, n) in the reference order. */
  lemma {:induction false} RecurseLoopIsCombos<T>(cards: seq<T>, k: nat, idx: nat, end: nat, selected: seq<T>)
    requires |selected| < k <= |cards| && end == |cards| - (k - |selected|) && idx <= end + 1
    ensures AllBelow(Combos(idx, |cards|, k - |selected|), |cards|)
    ensures RecurseLoop(cards, k, idx, end, selected)
         == PrefixAll(selected, SelectAll(cards, Combos(idx, |cards|, k - |selected|)))
    decreases k - |selected|, 0, end + 1 - idx
  {
    var n := |cards|;
    var m := k - |selected|;
    CombosBelow(idx, n, m);
    if idx > end {
      CombosEmpty(idx, n, m);
    } else {
      assert 1 <= m && idx < n;
      var sel2 := selected + [cards[idx]];
      var next, m' := idx + 1, m - 1;
      assert m' == k - |sel2|;
      RecurseIsCombos(cards, k, next, sel2);
      RecurseLoopIsCombos(cards, k, next, end, selected);
      var a := Combos(next, n, m');
      var b := Combos(next, n, m);
      CombosBelow(next, n, m');
      CombosBelow(next, n, m);
      SelectCons(cards, idx, a);
      SelectConcat(cards, Prepend(idx, a), b);
      PrefixPrefix(selected, [cards[idx]], SelectAll(cards, a));
      PrefixConcat(selected, SelectAll(cards, Prepend(idx, a)), SelectAll(cards, b));
    }
  }

  /** `recurse` passes, after `selected`, every combination from [start, n). */
  lemma {:induction false} RecurseIsCombos<T>(cards: seq<T>, k: nat, start: nat, selected: seq<T>)
    requires |selected| <= k <= |cards|
    ensures AllBelow(Combos(start, |cards|, k - |selected|), |cards|)
    ensures Recurse(cards, k, start, selected)
         == PrefixAll(selected, SelectAll(cards, Combos(start, |cards|, k - |selected|)))
    decreases k - |selected|, 1, 0
  {
    var n := |cards|;
    var m := k - |selected|;
    CombosBelow(start, n, m);
    if m == 0 {
      assert selected + [] == selected;
    } else {
      var end := n - m;
      if start > end + 1 {
        CombosEmpty(start, n, m);
      } else {
        RecurseLoopIsCombos(cards, k, start, end, selected);
      }
    }
  }

  /** `for_each_combination` of core/src/combinatorics.rs: the slices passed
      to the callback, in call order, are the k-subsets of `cards` by index in
      lexicographic order. */
  function ForEachCombination<T>(cards: seq<T>, k: nat): (r: seq<seq<T>>)
    ensures AllBelow(Combos(0, |cards|, k), |cards|)
    ensures r == SelectAll(cards, Combos(0, |cards|, k))
    ensures |r| == Choose(|cards|, k)
  {
    CombosBelow(0, |cards|, k);
    CombosLength(0, |cards|, k);
    if k > |cards| then
      CombosEmpty(0, |cards|, k);
      []
    else if k == 0 then
      assert Select(cards, []) == [];
      [[]]
    else
      RecurseIsCombos(cards, k, 0, []);
      PrefixEmpty(SelectAll(cards, Combos(0, |cards|, k)));
      Recurse(cards, k, 0, [])
  }

  // ---------------------------------------------------------------------
  // core/src/enumeration.rs: index-advancing `for_each_combination`

  /** The rightmost position below `i` whose index can still grow: position p
      of a k-list over [0, n) is at most n - k + p. */
  function BumpPos(c: seq<nat>, n: nat, i: nat): (r: Option<nat>)
    requires i <= |c|
    ensures r.Some? ==> r.value < i && c[r.value] < n - |c| + r.value
    ensures r.None? ==> forall p :: 0 <= p < i ==> c[p] >= n - |c| + p
  {
    if i == 0 then None
    else if c[i - 1] < n - |c| + (i - 1) then Some(i - 1)
    else BumpPos(c, n, i - 1)
  }

  /** The next index list in lexicographic order, if any. */
  function Succ(c: seq<nat>, n: nat): Option<seq<nat>> {
    match BumpPos(c, n, |c|)
    case None => None
    case Some(p) => Some(c[..p] + Run(c[p] + 1, |c| - p))
  }

  lemma {:induction false} BumpPosCons(x: nat, a: seq<nat>, n: nat, i: nat)
    requires i <= |a|
    ensures BumpPos(a, n, i).Some? ==> BumpPos([x] + a, n, i + 1) == Some(BumpPos(a, n, i).value + 1)
    ensures BumpPos(a, n, i).None? ==> BumpPos([x] + a, n, i + 1) == BumpPos([x] + a, n, 1)
  {
    var c := [x] + a;
    if i > 0 {
      assert c[i] == a[i - 1];
      BumpPosCons(x, a, n, i - 1);
    }
  }

  /** The successor of a list with a fixed first element. */
  lemma {:induction false} SuccCons(x: nat, a: seq<nat>, n: nat)
    ensures Succ(a, n).Some? ==> Succ([x] + a, n) == Some([x] + Succ(a, n).value)
    ensures Succ(a, n).None? && x + |a| + 1 < n ==> Succ([x] + a, n) == Some(Run(x + 1, |a| + 1))
    ensures Succ(a, n).None? && x + |a| + 1 >= n ==> Succ([x] + a, n) == None
  {
    if Succ(a, n).Some? {
      SuccConsSome(x, a, n);
    } else {
      SuccConsNone(x, a, n, |a| + 1);
    }
  }

  /** When the tail can advance, the first element stays put. */
  lemma {:induction false} SuccConsSome(x: nat, a: seq<nat>, n: nat)
    requires Succ(a, n).Some?
    ensures Succ([x] + a, n) == Some([x] + Succ(a, n).value)
  {
    var c := [x] + a;
    BumpPosCons(x, a, n, |a|);
    var p := BumpPos(a, n, |a|).value;
    assert BumpPos(c, n, |c|) == Some(p + 1);
    assert c[..p + 1] == [x] + a[..p];
    assert c[p + 1] == a[p];
    var r := Run(a[p] + 1, |a| - p);
    assert Succ(c, n) == Some(c[..p + 1] + r);
    assert Succ(a, n) == Some(a[..p] + r);
    assert c[..p + 1] + r == [x] + (a[..p] + r);
  }

  /** When the tail is the last list of its length, the first element
      advances, if it can, and the tail restarts right after it. */
  lemma {:induction false} SuccConsNone(x: nat, a: seq<nat>, n: nat, m: nat)
    requires Succ(a, n).None? && m == |a| + 1
    ensures x + m < n ==> Succ([x] + a, n) == Some(Run(x + 1, m))
    ensures x + m >= n ==> Succ([x] + a, n) == None
  {
    var c := [x] + a;
    BumpPosCons(x, a, n, |a|);
    assert BumpPos(c, n, |c|) == BumpPos(c, n, 1);
    assert BumpPos(c, n, 0) == None;
    assert c[..0] == [];
    if x + m < n {
      assert BumpPos(c, n, 1) == Some(0);
      assert [] + Run(x + 1, m) == Run(x + 1, m);
      assert Succ(c, n) == Some([] + Run(x + 1, |c|));
    } else {
      assert BumpPos(c, n, 1) == None;
    }
  }

  /** In the reference enumeration every entry's successor is the next entry,
      and the last entry has none. */
  lemma {:induction false} SuccChain(lo: nat, n: nat, k: nat, i: nat)
    requires i < |Combos(lo, n, k)|
    ensures i + 1 < |Combos(lo, n, k)| ==> Succ(Combos(lo, n, k)[i], n) == Some(Combos(lo, n, k)[i + 1])
    ensures i + 1 == |Combos(lo, n, k)| ==> Succ(Combos(lo, n, k)[i], n) == None
    decreases n - lo
  {
    var l := Combos(lo, n, k);
    var j := i + 1;
    if k == 0 {
      assert l[i] == [];
    } else {
      var next, km := lo + 1, k - 1;
      var a := Combos(next, n, km);
      var b := Combos(next, n, k);
      assert l == Prepend(lo, a) + b;
      if i < |a| {
        SuccChain(next, n, km, i);
        SuccChainFirst(lo, n, k, i, j, a, b);
      } else {
        var i' := i - |a|;
        SuccChain(next, n, k, i');
        SuccChainRest(lo, n, i, j, i', a, b);
      }
    }
  }

  /** `SuccChain` within the entries that start with `lo`: the last of them
      is followed by the first entry that does not. */
  lemma {:induction false} SuccChainFirst(lo: nat, n: nat, k: nat, i: nat, j: nat, a: seq<seq<nat>>, b: seq<seq<nat>>)
    requires k > 0 && j == i + 1 && i < |a|
    requires a == Combos(lo + 1, n, k - 1) && b == Combos(lo + 1, n, k)
    requires j < |a| ==> Succ(a[i], n) == Some(a[j])
    requires j == |a| ==> Succ(a[i], n) == None
    ensures j < |Prepend(lo, a) + b| ==> Succ((Prepend(lo, a) + b)[i], n) == Some((Prepend(lo, a) + b)[j])
    ensures j == |Prepend(lo, a) + b| ==> Succ((Prepend(lo, a) + b)[i], n) == None
  {
    var l := Prepend(lo, a) + b;
    var c := a[i];
    assert l[i] == [lo] + c;
    if j < |a| {
      SuccConsSome(lo, c, n);
      assert l[j] == [lo] + a[j];
    } else {
      assert |c| + 1 == k by {
        CombosMembership(lo + 1, n, k - 1, c);
      }
      SuccConsNone(lo, c, n, k);
      if lo + 1 + k <= n {
        CombosFirst(lo + 1, n, k);
        assert l[j] == b[0];
      } else {
        CombosEmpty(lo + 1, n, k);
        assert |l| == j;
      }
    }
  }

  /** `SuccChain` within the entries that do not start with `lo`. */
  lemma {:induction false} SuccChainRest(lo: nat, n: nat, i: nat, j: nat, i': nat, a: seq<seq<nat>>, b: seq<seq<nat>>)
    requires j == i + 1 && |a| <= i && i' == i - |a| && i' < |b|
    requires i' + 1 < |b| ==> Succ(b[i'], n) == Some(b[i' + 1])
    requires i' + 1 == |b| ==> Succ(b[i'], n) == None
    ensures j < |Prepend(lo, a) + b| ==> Succ((Prepend(lo, a) + b)[i], n) == Some((Prepend(lo, a) + b)[j])
    ensures j == |Prepend(lo, a) + b| ==> Succ((Prepend(lo, a) + b)[i], n) == None
  {
    var l := Prepend(lo, a) + b;
    assert l[i] == b[i'];
    if j < |l| {
      assert l[j] == b[i' + 1];
    }
  }

  /** The inner `loop` and the reset `for` of the index-advancing enumerator:
      the next index list, or `found == false` when `indices` is the last. */
  method NextIndices(indices: seq<nat>, n: nat) returns (found: bool, pos: nat, next: seq<nat>)
    requires |indices| <= n
    ensures found <==> Succ(indices, n).Some?
    ensures found ==> next == Succ(indices, n).value
    ensures found ==> pos < |indices| && next[..pos] == indices[..pos]
  {
    var k := |indices|;
    var cur := indices;
    var i := k;
    while true
      invariant 0 <= i <= k && |cur| == k
      invariant cur[..i] == indices[..i]
      invariant BumpPos(indices, n, k) == BumpPos(indices, n, i)
      decreases i
    {
      if i == 0 {
        return false, 0, [];
      }
      i := i - 1;
      cur := cur[i := cur[i] + 1];
      if cur[i] <= n - k + i {
        break;
      }
    }
    assert BumpPos(indices, n, k) == Some(i);
    assert cur[..i] == indices[..i] && cur[i] == indices[i] + 1;
    next := ResetAfter(cur, i);
    return true, i, next;
  }

  /** The `for j in i + 1..k` loop: every index after position `i` becomes
      one more than the index before it. */
  method ResetAfter(cur: seq<nat>, i: nat) returns (out: seq<nat>)
    requires i < |cur|
    ensures out == cur[..i] + Run(cur[i], |cur| - i)
  {
    out := cur;
    var j := i + 1;
    while j < |cur|
      invariant i + 1 <= j <= |cur| && |out| == |cur|
      invariant out[..j] == cur[..i] + Run(cur[i], j - i)
    {
      out := out[j := out[j - 1] + 1];
      j := j + 1;
    }
  }

  /** The `for j in i..k` loop refreshing the card buffer from position `from`. */
  method RefreshBuffer<T>(cards: seq<T>, buf: seq<T>, indices: seq<nat>, from: nat) returns (out: seq<T>)
    requires IndicesBelow(indices, |cards|) && |buf| == |indices| && from <= |indices|
    requires forall t :: 0 <= t < from ==> buf[t] == cards[indices[t]]
    ensures out == Select(cards, indices)
  {
    out := buf;
    var j := from;
    while j < |indices|
      invariant from <= j <= |indices| && |out| == |indices|
      invariant forall t :: 0 <= t < j ==> out[t] == cards[indices[t]]
    {
      out := out[j := cards[indices[j]]];
      j := j + 1;
    }
  }

  /** The selection for the previous indices already holds the right cards at
      every position the new indices share with them. */
  lemma {:induction false} BufferPrefix<T>(cards: seq<T>, prev: seq<nat>, next: seq<nat>, i: nat)
    requires IndicesBelow(prev, |cards|) && IndicesBelow(next, |cards|)
    requires i <= |prev| == |next| && next[..i] == prev[..i]
    ensures forall t :: 0 <= t < i ==> Select(cards, prev)[t] == cards[next[t]]
  {
    forall t | 0 <= t < i
      ensures Select(cards, prev)[t] == cards[next[t]]
    {
      assert next[t] == next[..i][t] == prev[..i][t] == prev[t];
    }
  }

  /** One step of the enumerator against the reference list: the current
      entry has a successor exactly when it is not the last, and that
      successor is the next entry, again in range. */
  lemma {:induction false} ChainStep(n: nat, k: nat, p: nat)
    requires p < |Combos(0, n, k)|
    ensures |Combos(0, n, k)[p]| == k
    ensures p + 1 < |Combos(0, n, k)| <==> Succ(Combos(0, n, k)[p], n).Some?
    ensures p + 1 < |Combos(0, n, k)| ==>
      Succ(Combos(0, n, k)[p], n).value == Combos(0, n, k)[p + 1] && IndicesBelow(Combos(0, n, k)[p + 1], n)
  {
    CombosBelow(0, n, k);
    CombosMembership(0, n, k, Combos(0, n, k)[p]);
    SuccChain(0, n, k, p);
  }

  /** Emitting the selection of entry `p` extends the emitted prefix by one. */
  lemma {:induction false} EmitStep<T>(cards: seq<T>, l: seq<seq<nat>>, emitted: seq<seq<T>>, p: nat)
    requires AllBelow(l, |cards|) && p < |l|
    requires |emitted| == p && forall t :: 0 <= t < p ==> emitted[t] == Select(cards, l[t])
    ensures var e := emitted + [Select(cards, l[p])];
      |e| == p + 1 && forall t :: 0 <= t < p + 1 ==> e[t] == Select(cards, l[t])
    ensures p + 1 == |l| ==> emitted + [Select(cards, l[p])] == SelectAll(cards, l)
  {
  }

  /** `for_each_combination` of core/src/enumeration.rs: the slices passed to
      the callback, in call order. */
  method ForEachCombinationIndexed<T>(cards: seq<T>, k: nat) returns (emitted: seq<seq<T>>)
    ensures AllBelow(Combos(0, |cards|, k), |cards|)
    ensures emitted == SelectAll(cards, Combos(0, |cards|, k))
  {
    var n := |cards|;
    CombosBelow(0, n, k);
    ghost var l := Combos(0, n, k);
    if k > n {
      CombosEmpty(0, n, k);
      return [];
    }
    CombosFirst(0, n, k);
    var indices := Run(0, k);
    var buf := Select(cards, indices);
    emitted := [];
    ghost var p := 0;
    while true
      invariant 0 <= p < |l|
      invariant indices == l[p] && IndicesBelow(indices, n)
      invariant buf == Select(cards, indices)
      invariant |emitted| == p && forall t :: 0 <= t < p ==> emitted[t] == Select(cards, l[t])
      decreases |l| - p
    {
      EmitStep(cards, l, emitted, p);
      emitted := emitted + [buf];
      ChainStep(n, k, p);
      var found, i, next := NextIndices(indices, n);
      if !found {
        return;
      }
      BufferPrefix(cards, indices, next, i);
      p := p + 1;
      indices := next;
      buf := RefreshBuffer(cards, buf, indices, i);
    }
  }
}
