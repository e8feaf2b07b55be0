/** Card and range text parsing (core/src/parsing.rs), as the functions are
    evidently meant to behave: every length test counts characters. The
    byte-level behaviour of the code as written, which can panic on
    non-ASCII text, is modelled in module ParsingAsWritten.

    `Value::from_char` and `Suit::from_char` belong to rs_poker, which is not
    part of this model; they are modelled by the card grammar the engine
    documents: a rank `A K Q J T 9 .. 2` and a suit `s h d c`, both without
    regard to ASCII letter case. */
module Parsing {
  import opened Cards
  import opened Text

  // ---------------------------------------------------------------------
  // Characters

  function ValueFromChar(ch: char): (v: Option<Value>) {
    match ch
    case 'A' => Some(Ace) case 'a' => Some(Ace)
    case 'K' => Some(King) case 'k' => Some(King)
    case 'Q' => Some(Queen) case 'q' => Some(Queen)
    case 'J' => Some(Jack) case 'j' => Some(Jack)
    case 'T' => Some(Ten) case 't' => Some(Ten)
    case '9' => Some(Nine) case '8' => Some(Eight) case '7' => Some(Seven)
    case '6' => Some(Six) case '5' => Some(Five) case '4' => Some(Four)
    case '3' => Some(Three) case '2' => Some(Two)
    case _ => None
  }

  function SuitFromChar(ch: char): (s: Option<Suit>) {
    match ch
    case 's' => Some(Spade) case 'S' => Some(Spade)
    case 'h' => Some(Heart) case 'H' => Some(Heart)
    case 'd' => Some(Diamond) case 'D' => Some(Diamond)
    case 'c' => Some(Club) case 'C' => Some(Club)
    case _ => None
  }

  /** `Value::to_char`: the canonical, upper-case rank character. */
  function ValueChar(v: Value): (ch: char)
    ensures ValueFromChar(ch) == Some(v)
  {
    match v
    case Ace => 'A' case King => 'K' case Queen => 'Q' case Jack => 'J' case Ten => 'T'
    case Nine => '9' case Eight => '8' case Seven => '7' case Six => '6' case Five => '5'
    case Four => '4' case Three => '3' case Two => '2'
  }

  /** `Suit::to_char`: the canonical, lower-case suit character. */
  function SuitChar(s: Suit): (ch: char)
    ensures SuitFromChar(ch) == Some(s)
  {
    match s
    case Spade => 's' case Heart => 'h' case Diamond => 'd' case Club => 'c'
  }

  /** ASCII case folding: upper-case letters become lower case. */
  function FoldCase(ch: char): char {
    if 'A' <= ch <= 'Z' then (ch as int + 32) as char else ch
  }

  /** A rank character is read exactly when it is the canonical one up to case. */
  lemma {:induction false} ValueFromCharSpec(ch: char, v: Value)
    ensures ValueFromChar(ch) == Some(v) <==> FoldCase(ch) == FoldCase(ValueChar(v))
  {
  }

  /** A suit character is read exactly when it is the canonical one up to case. */
  lemma {:induction false} SuitFromCharSpec(ch: char, s: Suit)
    ensures SuitFromChar(ch) == Some(s) <==> FoldCase(ch) == FoldCase(SuitChar(s))
  {
  }

  /** Rank and suit characters are single-byte and are never cleaned away. */
  lemma {:induction false} CardCharsAscii(ch: char)
    ensures ValueFromChar(ch).Some? ==> IsAscii(ch) && !IsSeparator(ch)
    ensures SuitFromChar(ch).Some? ==> IsAscii(ch) && !IsSeparator(ch)
  {
  }

  /** `Card::to_string`: rank character then suit character. */
  function Show(c: Card): (t: string)
    ensures |t| == 2 && NoSeparators(t) && AllAscii(t)
  {
    [ValueChar(c.value), SuitChar(c.suit)]
  }

  // ---------------------------------------------------------------------
  // parse_card

  /** `parse_card`: the first two characters as rank and suit; anything
      after them is ignored. Every failure is `InvalidCard`. */
  function ParseCard(s: string): (r: Result<Card>)
    ensures r.Err? ==> r.error == InvalidCard
    ensures r.Ok? ==> |s| >= 2 && IsAscii(s[0]) && IsAscii(s[1]) && !IsSeparator(s[0]) && !IsSeparator(s[1])
  {
    if |s| < 2 then Err(InvalidCard)
    else
      match ValueFromChar(s[0])
      case None => Err(InvalidCard)
      case Some(v) =>
        match SuitFromChar(s[1])
        case None => Err(InvalidCard)
        case Some(u) => Ok(Card(v, u))
  }

  /** A card is read from text exactly when its first two characters spell
      the card, up to ASCII case. */
  lemma {:induction false} ParseCardSpec(s: string, c: Card)
    ensures ParseCard(s) == Ok(c) <==>
      |s| >= 2 && FoldCase(s[0]) == FoldCase(Show(c)[0]) && FoldCase(s[1]) == FoldCase(Show(c)[1])
  {
    if |s| >= 2 {
      ValueFromCharSpec(s[0], c.value);
      SuitFromCharSpec(s[1], c.suit);
    }
  }

  /** Reading back a written card gives the card, whatever follows it. */
  lemma {:induction false} ParseCardShow(c: Card, rest: string)
    ensures ParseCard(Show(c) + rest) == Ok(c)
  {
    var s := Show(c) + rest;
    assert s[0] == ValueChar(c.value) && s[1] == SuitChar(c.suit);
  }

  // ---------------------------------------------------------------------
  // parse_cards

  /** Two characters more or less keep the parity of a length. */
  lemma {:induction false} ParityStep(m: nat, n: nat)
    requires n == m + 2
    ensures n % 2 == m % 2
  {
  }

  /** Twice a number is even. */
  lemma {:induction false} EvenLength(n: nat, k: nat)
    requires n == 2 * k
    ensures n % 2 == 0
  {
    if k > 0 {
      var m := n - 2;
      EvenLength(m, k - 1);
      ParityStep(m, n);
    }
  }

  /** The `i`-th two-character chunk of a text. */
  function Pair(t: string, i: nat): string
    requires 2 * i + 2 <= |t|
  {
    t[2 * i..2 * i + 2]
  }

  /** Dropping the first chunk moves every later chunk down by one. */
  lemma {:induction false} PairShift(t: string)
    requires |t| >= 2
    ensures forall i: nat :: 2 * i + 4 <= |t| ==> Pair(t[2..], i) == Pair(t, i + 1)
  {
  }

  /** `t` is exactly the cards `cs` written back to back, two characters each. */
  ghost predicate ReadsAs(t: string, cs: seq<Card>) {
    2 * |cs| == |t| && forall i :: 0 <= i < |cs| ==> ParseCard(Pair(t, i)) == Ok(cs[i])
  }

  /** Some two-character chunk of `t` is not a card. */
  ghost predicate HasBadPair(t: string) {
    exists i: nat :: 2 * i + 2 <= |t| && ParseCard(Pair(t, i)).Err?
  }

  lemma {:induction false} ReadsAsCons(t: string, c: Card, cs: seq<Card>)
    requires |t| >= 2 && ParseCard(Pair(t, 0)) == Ok(c) && ReadsAs(t[2..], cs)
    ensures ReadsAs(t, [c] + cs)
  {
    PairShift(t);
    var r := [c] + cs;
    forall i | 1 <= i < |r|
      ensures ParseCard(Pair(t, i)) == Ok(r[i])
    {
      assert Pair(t, i) == Pair(t[2..], i - 1) && r[i] == cs[i - 1];
    }
  }

  lemma {:induction false} BadPairCons(t: string)
    requires |t| >= 2 && HasBadPair(t[2..])
    ensures HasBadPair(t)
  {
    PairShift(t);
    var i: nat :| 2 * i + 2 <= |t[2..]| && ParseCard(Pair(t[2..], i)).Err?;
    assert ParseCard(Pair(t, i + 1)).Err?;
  }

  /** The concatenated layout: every two characters one card, stopping at
      the first pair that is not a card. */
  function Chunks(t: string): (r: Option<seq<Card>>)
    requires |t| % 2 == 0
    ensures r.Some? ==> ReadsAs(t, r.value)
    ensures r.None? ==> HasBadPair(t)
  {
    if t == [] then Some([])
    else
      assert Pair(t, 0) == t[..2];
      match ParseCard(t[..2])
      case Err(_) => None
      case Ok(c) =>
        ParityStep(|t[2..]|, |t|);
        var rest := Chunks(t[2..]);
        if rest.None? then
          BadPairCons(t);
          None
        else
          ReadsAsCons(t, c, rest.value);
          Some([c] + rest.value)
  }

  /** Two single-byte characters followed by single-byte text. */
  lemma {:induction false} AsciiAfterPair(t: string)
    requires |t| >= 2 && IsAscii(t[0]) && IsAscii(t[1]) && AllAscii(t[2..])
    ensures AllAscii(t)
  {
    forall i | 2 <= i < |t|
      ensures IsAscii(t[i])
    {
      assert t[i] == t[2..][i - 2];
    }
  }

  /** Text split into cards this way is single-byte text. */
  lemma {:induction false} ChunksAscii(t: string)
    requires |t| % 2 == 0 && Chunks(t).Some?
    ensures AllAscii(t)
  {
    if t != [] {
      ParityStep(|t[2..]|, |t|);
      ChunksAscii(t[2..]);
      assert ParseCard(t[..2]).Ok?;
      AsciiAfterPair(t);
    }
  }

  /** The space- and comma-separated layout: one card per token, failing at
      the first token that is not a card. */
  function ParseTokens(ts: seq<string>): (r: Result<seq<Card>>)
    ensures r.Ok? ==> |r.value| == |ts| && forall i :: 0 <= i < |ts| ==> ParseCard(ts[i]) == Ok(r.value[i])
    ensures r.Err? ==> r.error == InvalidCard && exists i :: 0 <= i < |ts| && ParseCard(ts[i]).Err?
  {
    if ts == [] then Ok([])
    else
      match ParseCard(ts[0])
      case Err(e) => Err(e)
      case Ok(c) =>
        var rest := ParseTokens(ts[1..]);
        if rest.Err? then Err(rest.error) else Ok([c] + rest.value)
  }

  /** `parse_cards`: drop whitespace and commas; an empty remainder is an
      error; if the remainder has even length and every pair is a card, those
      cards; otherwise one card per whitespace- or comma-separated token. */
  function ParseCards(s: string): (r: Result<seq<Card>>)
    ensures r.Err? ==> r.error == InvalidCard
  {
    var cleaned := Normalize(s);
    if cleaned == [] then Err(InvalidCard)
    else
      var chunked := if |cleaned| % 2 == 0 then Chunks(cleaned) else None;
      if chunked.Some? && chunked.value != [] then Ok(chunked.value)
      else ParseTokens(SplitWhitespace(ReplaceCommas(s)))
  }

  /** Whatever the layout, a successful parse holds at least one card and
      at most one card per two non-separator characters. */
  lemma {:induction false} ParseCardsBounds(s: string)
    ensures ParseCards(s).Ok? ==> 1 <= |ParseCards(s).value| && 2 * |ParseCards(s).value| <= |Normalize(s)|
  {
    var cleaned := Normalize(s);
    var ts := SplitWhitespace(ReplaceCommas(s));
    var r := ParseCards(s);
    if r.Ok? && cleaned != [] {
      var chunked := if |cleaned| % 2 == 0 then Chunks(cleaned) else None;
      if !(chunked.Some? && chunked.value != []) {
        assert r == ParseTokens(ts);
        FallbackTokensSpec(s);
        TokensLength(ts, r.value);
        assert |Concat(ts)| == |cleaned|;
        assert Concat([]) == [];
      }
    }
  }

  /** Each parsed token is at least two characters long. */
  lemma {:induction false} TokensLength(ts: seq<string>, cs: seq<Card>)
    requires ParseTokens(ts) == Ok(cs)
    ensures 2 * |cs| <= |Concat(ts)|
  {
    if ts != [] {
      TokensLength(ts[1..], cs[1..]);
    }
  }

  /** Cards written one after another with a separator text between them. */
  function JoinShown(cs: seq<Card>, sep: string): (t: string) {
    if cs == [] then []
    else if |cs| == 1 then Show(cs[0])
    else Show(cs[0]) + sep + JoinShown(cs[1..], sep)
  }

  function ShowAll(cs: seq<Card>): (t: string)
    ensures |t| == 2 * |cs|
    ensures forall i :: 0 <= i < |cs| ==> Pair(t, i) == Show(cs[i])
  {
    if cs == [] then []
    else
      var rest := ShowAll(cs[1..]);
      var t := Show(cs[0]) + rest;
      assert t[2..] == rest;
      PairShift(t);
      assert forall i :: 1 <= i < |cs| ==> Pair(t, i) == Pair(rest, i - 1);
      t
  }

  /** Cleaning a written card list leaves the cards back to back. */
  lemma {:induction false} NormalizeJoinShown(cs: seq<Card>, sep: string)
    requires forall i :: 0 <= i < |sep| ==> IsSeparator(sep[i])
    ensures Normalize(JoinShown(cs, sep)) == ShowAll(cs)
  {
    if |cs| == 1 {
      NormalizeClean(Show(cs[0]));
      assert ShowAll(cs[1..]) == [];
    } else if |cs| > 1 {
      NormalizeJoinShown(cs[1..], sep);
      NormalizeConcat(Show(cs[0]) + sep, JoinShown(cs[1..], sep));
      NormalizeConcat(Show(cs[0]), sep);
      NormalizeClean(Show(cs[0]));
      NormalizeEmpty(sep);
    }
  }

  lemma {:induction false} ChunksShowAll(cs: seq<Card>)
    ensures Chunks(ShowAll(cs)) == Some(cs)
  {
    if cs != [] {
      var t := ShowAll(cs);
      assert t[..2] == Show(cs[0]);
      ParseCardShow(cs[0], []);
      assert Show(cs[0]) + [] == Show(cs[0]);
      assert t[2..] == ShowAll(cs[1..]);
      ChunksShowAll(cs[1..]);
      assert [cs[0]] + cs[1..] == cs;
    }
  }

  /** Round trip: a non-empty card list written back to back, or separated
      by spaces, commas or any other run of separators, parses back to the
      same cards. */
  lemma {:induction false} ParseCardsJoinShown(cs: seq<Card>, sep: string)
    requires cs != []
    requires forall i :: 0 <= i < |sep| ==> IsSeparator(sep[i])
    ensures ParseCards(JoinShown(cs, sep)) == Ok(cs)
  {
    NormalizeJoinShown(cs, sep);
    ChunksShowAll(cs);
    EvenLength(|ShowAll(cs)|, |cs|);
  }

  /** A written card list starts and ends with a card character, so
      trimming leaves it as it is and it is never blank. */
  lemma {:induction false} JoinShownTrimmed(cs: seq<Card>, sep: string)
    requires cs != []
    ensures Trim(JoinShown(cs, sep)) == JoinShown(cs, sep)
    ensures !AllWhitespace(JoinShown(cs, sep))
  {
    JoinShownEnds(cs, sep);
    TrimClean(JoinShown(cs, sep));
  }

  lemma {:induction false} JoinShownEnds(cs: seq<Card>, sep: string)
    requires cs != []
    ensures var t := JoinShown(cs, sep);
      |t| >= 2 && t[0] == Show(cs[0])[0] && t[|t| - 1] == Show(cs[|cs| - 1])[1]
  {
    if |cs| > 1 {
      JoinShownEnds(cs[1..], sep);
      assert cs[1..][|cs[1..]| - 1] == cs[|cs| - 1];
    }
  }

  /** The engine's own documentation example. */
  lemma {:induction false} ParseCardsExample()
    ensures ParseCards("Ah Ks Qd") == Ok([Card(Ace, Heart), Card(King, Spade), Card(Queen, Diamond)])
  {
    var cs := [Card(Ace, Heart), Card(King, Spade), Card(Queen, Diamond)];
    assert JoinShown(cs, " ") == "Ah Ks Qd" by {
      assert cs[1..][1..] == [Card(Queen, Diamond)];
    }
    ParseCardsJoinShown(cs, " ");
  }

  // ---------------------------------------------------------------------
  // parse_range

  /** One parsed range descriptor: two ranks and whether the hand is suited. */
  datatype RangeDescriptor = RangeDescriptor(high: Value, low: Value, suited: bool)

  /** `parse_range`: two rank characters and an optional `s`/`o` marker
      (either case); no marker means offsuit, and anything after the third
      character is ignored. The length tests count bytes; they cannot cause a
      panic, because a valid rank character is a single byte. */
  function ParseRange(s: string): (r: Result<seq<RangeDescriptor>>)
    ensures r.Err? ==> r.error == InvalidRange
    ensures r.Ok? ==> |r.value| == 1
  {
    if ByteLen(s) < 2 then Err(InvalidRange)
    else
      match ValueFromChar(s[0])
      case None => Err(InvalidRange)
      case Some(v1) =>
        assert ByteLen(s) == 1 + ByteLen(s[1..]);
        match ValueFromChar(s[1])
        case None => Err(InvalidRange)
        case Some(v2) =>
          assert ByteLen(s[1..]) == 1 + ByteLen(s[2..]);
          if ByteLen(s) > 2 then
            if s[2] == 's' || s[2] == 'S' then Ok([RangeDescriptor(v1, v2, true)])
            else if s[2] == 'o' || s[2] == 'O' then Ok([RangeDescriptor(v1, v2, false)])
            else Err(InvalidRange)
          else Ok([RangeDescriptor(v1, v2, false)])
  }

  /** A range text is accepted exactly when it starts with two rank
      characters followed by nothing or by an `s`/`o` marker; the marker
      alone decides suitedness. */
  lemma {:induction false} ParseRangeSpec(s: string)
    ensures ParseRange(s).Ok? <==>
      && |s| >= 2 && ValueFromChar(s[0]).Some? && ValueFromChar(s[1]).Some?
      && (|s| == 2 || s[2] in "sSoO")
    ensures ParseRange(s).Ok? ==>
      ParseRange(s).value[0] == RangeDescriptor(ValueFromChar(s[0]).value, ValueFromChar(s[1]).value, |s| > 2 && s[2] in "sS")
  {
    if s != [] {
      CardCharsAscii(s[0]);
      assert ByteLen(s) == Utf8Width(s[0]) + ByteLen(s[1..]);
      if |s| >= 2 {
        CardCharsAscii(s[1]);
        var tail := s[2..];
        assert s[1..][1..] == tail;
        assert ByteLen(s[1..]) == Utf8Width(s[1]) + ByteLen(tail);
        if tail != [] {
          assert ByteLen(tail) >= 1;
        }
      }
    }
  }

  /** The compact text of a descriptor: two rank characters and `s` or `o`. */
  function RangeText(d: RangeDescriptor): (t: string) {
    [ValueChar(d.high), ValueChar(d.low), if d.suited then 's' else 'o']
  }

  /** Round trip: the compact text of a descriptor parses back to it. */
  lemma {:induction false} ParseRangeText(d: RangeDescriptor)
    ensures ParseRange(RangeText(d)) == Ok([d])
  {
    var t := RangeText(d);
    CardCharsAscii(t[0]);
    CardCharsAscii(t[1]);
    ByteLenAscii(t);
  }

  /** Without a marker a pair of ranks is read as offsuit. */
  lemma {:induction false} ParseRangeDefaultOffsuit(v1: Value, v2: Value)
    ensures ParseRange([ValueChar(v1), ValueChar(v2)]) == Ok([RangeDescriptor(v1, v2, false)])
  {
    var t := [ValueChar(v1), ValueChar(v2)];
    CardCharsAscii(t[0]);
    CardCharsAscii(t[1]);
    ByteLenAscii(t);
  }

  /** A third character other than `s`, `S`, `o`, `O` is rejected; any
      characters after the third are never looked at. */
  lemma {:induction false} ParseRangeMarker(s: string)
    requires |s| >= 3 && ValueFromChar(s[0]).Some? && ValueFromChar(s[1]).Some?
    ensures s[2] !in "sSoO" ==> ParseRange(s) == Err(InvalidRange)
    ensures ParseRange(s) == ParseRange(s[..3])
  {
    assert ByteLen(s) == 2 + ByteLen(s[2..]) by {
      assert ByteLen(s) == 1 + ByteLen(s[1..]);
      assert s[1..][1..] == s[2..];
    }
    var p := s[..3];
    assert ByteLen(p) == 2 + ByteLen(p[2..]) by {
      assert ByteLen(p) == 1 + ByteLen(p[1..]);
      assert p[1..][1..] == p[2..];
    }
    assert p[0] == s[0] && p[1] == s[1] && p[2] == s[2];
  }

  /** The documentation example: "AKs" is ace-king suited. */
  lemma {:induction false} ParseRangeExample()
    ensures ParseRange("AKs") == Ok([RangeDescriptor(Ace, King, true)])
  {
    ParseRangeText(RangeDescriptor(Ace, King, true));
    assert RangeText(RangeDescriptor(Ace, King, true)) == "AKs";
  }
}
