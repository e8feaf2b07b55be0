/** `parse_card` and `parse_cards` (core/src/parsing.rs) exactly as written,
    where the length tests and the two-at-a-time split of the cleaned text
    work on UTF-8 BYTES while the card characters are read as Unicode scalar
    values. On non-ASCII text this reaches an `unwrap` on `None` or on a
    failed UTF-8 decoding, i.e. a panic. The byte split is modelled
    character by character, using each character's UTF-8 width (RFC 3629,
    section 3): a two-byte chunk is either two ASCII characters, exactly
    one two-byte character, or the start of a wider character. */
module ParsingAsWritten {
  import opened Cards
  import opened Text
  import opened Parsing

  /** A call either returns a value or panics. */
  datatype Outcome<T> = Returns(value: T) | Panics

  /** `parse_card` as written: the guard counts bytes, and the second
      character is taken with `nth(1).unwrap()` before either character is
      checked, so text of two or more bytes but one character panics. */
  function ParseCardAsWritten(s: string): (r: Outcome<Result<Card>>)
    ensures r.Panics? <==> |s| == 1 && !IsAscii(s[0])
  {
    assert |s| == 1 ==> ByteLen(s) == Utf8Width(s[0]) by {
      if |s| == 1 {
        assert s[1..] == [];
      }
    }
    if ByteLen(s) < 2 then Returns(Err(InvalidCard))
    else if |s| < 2 then Panics
    else Returns(ParseCard(s))
  }

  /** The concatenated-layout loop over `cleaned.as_bytes().chunks(2)`:
      `None` is the `break` on a chunk that is not a card. */
  function ChunksAsWritten(t: string): (r: Outcome<Option<seq<Card>>>)
    decreases |t|
  {
    if t == [] then Returns(Some([]))
    else if Utf8Width(t[0]) == 1 then
      if |t| == 1 then Returns(None)
      else if Utf8Width(t[1]) != 1 then Panics
      else
        match ParseCard(t[..2])
        case Err(_) => Returns(None)
        case Ok(c) =>
          match ChunksAsWritten(t[2..])
          case Panics => Panics
          case Returns(rest) => Returns(if rest.None? then None else Some([c] + rest.value))
    else if Utf8Width(t[0]) == 2 then
      // The chunk is exactly one two-byte character: `from_utf8` succeeds
      // and `parse_card` panics on its missing second character.
      Panics
    else
      // The chunk is the first two bytes of a wider character.
      Panics
  }

  /** The fallback: `split_whitespace().map(parse_card).collect()`, which
      stops at the first token that fails. */
  function ParseTokensAsWritten(ts: seq<string>): (r: Outcome<Result<seq<Card>>>) {
    if ts == [] then Returns(Ok([]))
    else
      match ParseCardAsWritten(ts[0])
      case Panics => Panics
      case Returns(Err(e)) => Returns(Err(e))
      case Returns(Ok(c)) =>
        match ParseTokensAsWritten(ts[1..])
        case Panics => Panics
        case Returns(rest) => Returns(if rest.Err? then Err(rest.error) else Ok([c] + rest.value))
  }

  /** `parse_cards` as written. */
  function ParseCardsAsWritten(s: string): (r: Outcome<Result<seq<Card>>>) {
    var cleaned := Normalize(s);
    if cleaned == [] then Returns(Err(InvalidCard))
    else
      var chunked := if ByteLen(cleaned) % 2 == 0 then ChunksAsWritten(cleaned) else Returns(None);
      match chunked
      case Panics => Panics
      case Returns(cs) =>
        if cs.Some? && cs.value != [] then Returns(Ok(cs.value))
        else ParseTokensAsWritten(SplitWhitespace(ReplaceCommas(s)))
  }

  // ---------------------------------------------------------------------
  // Where the code as written returns, it returns what the corrected
  // parser returns.

  lemma {:induction false} ParseCardAgrees(s: string)
    ensures ParseCardAsWritten(s).Returns? ==> ParseCardAsWritten(s).value == ParseCard(s)
  {
  }

  /** A completed chunk loop read single-byte text of even length, and
      read it exactly as the character-based loop does. */
  lemma {:induction false} ChunksAsWrittenSome(t: string)
    requires ChunksAsWritten(t).Returns? && ChunksAsWritten(t).value.Some?
    ensures AllAscii(t) && |t| % 2 == 0 && Chunks(t) == ChunksAsWritten(t).value
    decreases |t|
  {
    if t != [] {
      ChunksAsWrittenSome(t[2..]);
      ParityStep(|t[2..]|, |t|);
      assert ParseCard(t[..2]).Ok?;
      AsciiAfterPair(t);
    }
  }

  /** A loop that broke off did so on a pair of ASCII characters that is not
      a card, which the character-based loop meets too. */
  lemma {:induction false} ChunksAsWrittenNone(t: string)
    requires ChunksAsWritten(t) == Returns(None) && |t| % 2 == 0
    ensures Chunks(t) == None
    decreases |t|
  {
    if t != [] && ParseCard(t[..2]).Ok? {
      ParityStep(|t[2..]|, |t|);
      ChunksAsWrittenNone(t[2..]);
    }
  }

  lemma {:induction false} ParseTokensAgrees(ts: seq<string>)
    ensures ParseTokensAsWritten(ts).Returns? ==> ParseTokensAsWritten(ts).value == ParseTokens(ts)
  {
    if ts != [] {
      ParseTokensAgrees(ts[1..]);
    }
  }

  /** Whenever `parse_cards` as written does not panic, it returns exactly
      what the character-based parser returns. */
  lemma {:induction false} ParseCardsAgrees(s: string)
    ensures ParseCardsAsWritten(s).Returns? ==> ParseCardsAsWritten(s).value == ParseCards(s)
  {
    var cleaned := Normalize(s);
    var ts := SplitWhitespace(ReplaceCommas(s));
    ParseTokensAgrees(ts);
    if cleaned != [] && ParseCardsAsWritten(s).Returns? {
      var corrected := if |cleaned| % 2 == 0 then Chunks(cleaned) else None;
      if ByteLen(cleaned) % 2 == 0 {
        var w := ChunksAsWritten(cleaned);
        assert w.Returns?;
        if w.value.Some? {
          ChunksAsWrittenSome(cleaned);
          assert corrected == w.value;
        } else if |cleaned| % 2 == 0 {
          ChunksAsWrittenNone(cleaned);
        }
      } else if |cleaned| % 2 == 0 && Chunks(cleaned).Some? {
        ChunksAscii(cleaned);
        ByteLenAscii(cleaned);
      }
    }
  }

  // ---------------------------------------------------------------------
  // ASCII text never panics.

  lemma {:induction false} ChunksAsWrittenAscii(t: string)
    requires AllAscii(t)
    ensures ChunksAsWritten(t).Returns?
    decreases |t|
  {
    if |t| >= 2 && ParseCard(t[..2]).Ok? {
      assert AllAscii(t[2..]);
      ChunksAsWrittenAscii(t[2..]);
    }
  }

  lemma {:induction false} ParseTokensAsWrittenAscii(ts: seq<string>)
    requires forall i :: 0 <= i < |ts| ==> AllAscii(ts[i])
    ensures ParseTokensAsWritten(ts).Returns?
  {
    if ts != [] {
      ParseTokensAsWrittenAscii(ts[1..]);
    }
  }

  lemma {:induction false} NormalizeKeepsAscii(s: string)
    requires AllAscii(s)
    ensures AllAscii(Normalize(s))
  {
    if s != [] {
      assert AllAscii(s[1..]);
      NormalizeKeepsAscii(s[1..]);
    }
  }

  /** On ASCII text `parse_cards` as written always returns. */
  lemma {:induction false} ParseCardsAsciiReturns(s: string)
    requires AllAscii(s)
    ensures ParseCardsAsWritten(s).Returns?
  {
    var cleaned := Normalize(s);
    NormalizeKeepsAscii(s);
    ChunksAsWrittenAscii(cleaned);
    var ts := SplitWhitespace(ReplaceCommas(s));
    FallbackTokensSpec(s);
    forall i, j | 0 <= i < |ts| && 0 <= j < |ts[i]|
      ensures IsAscii(ts[i][j])
    {
      InConcat(ts, i, ts[i][j]);
    }
    ParseTokensAsWrittenAscii(ts);
  }

  // ---------------------------------------------------------------------
  // Inputs that make the code as written panic.

  /** "é" is two bytes but one character: `parse_card` panics, where the
      documented behaviour is an `InvalidCard` error. */
  lemma {:induction false} ParseCardPanics()
    ensures ParseCardAsWritten("é") == Panics
    ensures ParseCard("é") == Err(InvalidCard)
  {
  }

  /** "Ahé" cleans to four bytes: the second chunk is the lone "é" and
      `parse_card` panics on it. Read by characters the text is the card Ah
      followed by an ignored character. */
  lemma {:induction false} ParseCardsPanicsOnTrailingAccent()
    ensures ParseCardsAsWritten("Ahé") == Panics
    ensures ParseCards("Ahé") == Ok([Card(Ace, Heart)])
  {
    TrailingAccentPanics();
    TrailingAccentParses();
  }

  lemma {:induction false} TrailingAccentPanics()
    ensures ParseCardsAsWritten("Ahé") == Panics
  {
    var s := "Ahé";
    assert Normalize(s) == s by {
      NormalizeClean(s);
    }
    assert ByteLen(s) == 4 by {
      assert s[1..][1..][1..] == [];
    }
    assert s[2..] == "é";
    assert ChunksAsWritten(s) == Panics;
  }

  lemma {:induction false} TrailingAccentParses()
    ensures ParseCards("Ahé") == Ok([Card(Ace, Heart)])
  {
    var s := "Ahé";
    assert Normalize(s) == s by {
      NormalizeClean(s);
    }
    var ts := SplitWhitespace(ReplaceCommas(s));
    assert ReplaceCommas(s) == s;
    assert Word(s) == s by {
      assert s[1..][1..][1..] == [];
    }
    assert s[|s|..] == [];
    assert ts == [s];
    assert ParseCard(s) == Ok(Card(Ace, Heart));
    assert ts[0] == s && ts[1..] == [];
    assert ParseTokens(ts[1..]) == Ok([]);
    assert [Card(Ace, Heart)] + [] == [Card(Ace, Heart)];
  }

  /** "é" alone cleans to one two-byte chunk, on which `parse_card` panics;
      read by characters it is simply not a card. */
  lemma {:induction false} ParseCardsPanicsOnAccent()
    ensures ParseCardsAsWritten("é") == Panics
    ensures ParseCards("é") == Err(InvalidCard)
  {
    var s := "é";
    assert Normalize(s) == s by {
      NormalizeClean(s);
    }
    assert ByteLen(s) == 2;
    var ts := SplitWhitespace(ReplaceCommas(s));
    assert ReplaceCommas(s) == s;
    assert Word(s) == s;
    assert s[|s|..] == [];
    assert ts == [s];
  }
}
