/** Character-level text helpers the parsers rely on: Rust's
    `char::is_whitespace`, the comma-and-whitespace cleaning shared by
    `parse_cards` (core/src/parsing.rs) and `normalize_cards_str`
    (core/src/input.rs), `str::trim`, `str::split_whitespace`, and the UTF-8
    byte length that `str::len` reports. A string is a sequence of Unicode
    scalar values. */
module Text {

  /** The Unicode White_Space property, which `char::is_whitespace` tests. */
  predicate IsWhitespace(c: char) {
    var u := c as int;
    (0x09 <= u <= 0x0D) || u == 0x20 || u == 0x85 || u == 0xA0 || u == 0x1680
    || (0x2000 <= u <= 0x200A) || u == 0x2028 || u == 0x2029 || u == 0x202F
    || u == 0x205F || u == 0x3000
  }

  /** A character the card cleaner drops: whitespace or a comma. */
  predicate IsSeparator(c: char) {
    IsWhitespace(c) || c == ','
  }

  ghost predicate NoSeparators(s: string) {
    forall i :: 0 <= i < |s| ==> !IsSeparator(s[i])
  }

  ghost predicate NoWhitespace(s: string) {
    forall i :: 0 <= i < |s| ==> !IsWhitespace(s[i])
  }

  ghost predicate AllWhitespace(s: string) {
    forall i :: 0 <= i < |s| ==> IsWhitespace(s[i])
  }

  /** The cleaning step: every character except whitespace and commas, in order. */
  function Normalize(s: string): (r: string)
    ensures |r| <= |s|
    ensures NoSeparators(r)
  {
    if s == [] then []
    else if IsSeparator(s[0]) then Normalize(s[1..])
    else [s[0]] + Normalize(s[1..])
  }

  /** Cleaning works character by character ... */
  lemma {:induction false} NormalizeOne(c: char)
    ensures Normalize([c]) == if IsSeparator(c) then [] else [c]
  {
    assert [c][1..] == [];
    assert Normalize([c][1..]) == [];
  }

  /** ... and distributes over concatenation, so it drops exactly the
      separators and keeps every other character in order. */
  lemma {:induction false} NormalizeConcat(a: string, b: string)
    ensures Normalize(a + b) == Normalize(a) + Normalize(b)
  {
    if a != [] {
      assert (a + b)[0] == a[0];
      assert (a + b)[1..] == a[1..] + b;
      NormalizeConcat(a[1..], b);
    } else {
      assert a + b == b;
    }
  }

  /** Text without separators is left alone. */
  lemma {:induction false} NormalizeClean(s: string)
    requires NoSeparators(s)
    ensures Normalize(s) == s
  {
    if s != [] {
      NormalizeClean(s[1..]);
    }
  }

  lemma {:induction false} NormalizeIdempotent(s: string)
    ensures Normalize(Normalize(s)) == Normalize(s)
  {
    NormalizeClean(Normalize(s));
  }

  /** Cleaning leaves nothing exactly when the text holds only separators. */
  lemma {:induction false} NormalizeEmpty(s: string)
    ensures Normalize(s) == [] <==> forall i :: 0 <= i < |s| ==> IsSeparator(s[i])
  {
    if s != [] {
      NormalizeEmpty(s[1..]);
      assert forall i :: 1 <= i < |s| ==> s[i] == s[1..][i - 1];
    }
  }

  // ---------------------------------------------------------------------
  // str::trim

  function TrimStart(s: string): (r: string)
    ensures |r| <= |s| && r == s[|s| - |r|..]
    ensures AllWhitespace(s[..|s| - |r|])
    ensures r == [] || !IsWhitespace(r[0])
  {
    if s == [] || !IsWhitespace(s[0]) then s
    else
      var r := TrimStart(s[1..]);
      assert s[1..][..|s| - 1 - |r|] == s[1..|s| - |r|];
      r
  }

  function TrimEnd(s: string): (r: string)
    ensures |r| <= |s| && r == s[..|r|]
    ensures AllWhitespace(s[|r|..])
    ensures r == [] || !IsWhitespace(r[|r| - 1])
  {
    if s == [] || !IsWhitespace(s[|s| - 1]) then s
    else
      var r := TrimEnd(s[..|s| - 1]);
      assert s[..|s| - 1][|r|..] == s[|r|..|s| - 1];
      r
  }

  /** `str::trim`: the text between the leading and the trailing whitespace. */
  function Trim(s: string): (r: string)
    ensures |r| <= |s|
    ensures r == [] || (!IsWhitespace(r[0]) && !IsWhitespace(r[|r| - 1]))
  {
    TrimEnd(TrimStart(s))
  }

  /** Trimming leaves nothing exactly when the text is all whitespace. */
  lemma {:induction false} TrimBlank(s: string)
    ensures Trim(s) == [] <==> AllWhitespace(s)
  {
    var t := TrimStart(s);
    var r := TrimEnd(t);
    if r == [] {
      forall k | 0 <= k < |s|
        ensures IsWhitespace(s[k])
      {
        if k < |s| - |t| {
          assert s[..|s| - |t|][k] == s[k];
        }
      }
    }
  }

  /** Text without whitespace at either end is its own trim. */
  lemma {:induction false} TrimClean(s: string)
    requires s == [] || (!IsWhitespace(s[0]) && !IsWhitespace(s[|s| - 1]))
    ensures Trim(s) == s
  {
  }

  /** Cleaning the trimmed text is the same as cleaning the whole text. */
  lemma {:induction false} NormalizeTrim(s: string)
    ensures Normalize(Trim(s)) == Normalize(s)
  {
    var t := TrimStart(s);
    var r := TrimEnd(t);
    assert s == s[..|s| - |t|] + t;
    NormalizeConcat(s[..|s| - |t|], t);
    NormalizeBlank(s[..|s| - |t|]);
    assert t == r + t[|r|..];
    NormalizeConcat(r, t[|r|..]);
    NormalizeBlank(t[|r|..]);
  }

  lemma {:induction false} NormalizeBlank(s: string)
    requires AllWhitespace(s)
    ensures Normalize(s) == []
  {
    NormalizeEmpty(s);
  }

  // ---------------------------------------------------------------------
  // str::replace(',', " ") and str::split_whitespace

  function ReplaceCommas(s: string): (r: string)
    ensures |r| == |s|
    ensures forall i :: 0 <= i < |s| ==> r[i] == (if s[i] == ',' then ' ' else s[i])
  {
    seq(|s|, i requires 0 <= i < |s| => if s[i] == ',' then ' ' else s[i])
  }

  /** The longest prefix without whitespace. */
  function Word(s: string): (w: string)
    ensures |w| <= |s| && w == s[..|w|] && NoWhitespace(w)
    ensures |w| < |s| ==> IsWhitespace(s[|w|])
  {
    if s == [] || IsWhitespace(s[0]) then []
    else
      var w := Word(s[1..]);
      assert [s[0]] + w == s[..|w| + 1];
      [s[0]] + w
  }

  /** `split_whitespace`: the maximal runs of non-whitespace characters. */
  function SplitWhitespace(s: string): (ts: seq<string>)
    decreases |s|
  {
    if s == [] then []
    else if IsWhitespace(s[0]) then SplitWhitespace(s[1..])
    else
      var w := Word(s);
      [w] + SplitWhitespace(s[|w|..])
  }

  function Concat(ts: seq<string>): string {
    if ts == [] then [] else ts[0] + Concat(ts[1..])
  }

  /** The characters of `s` except whitespace, in order. */
  function DropWhitespace(s: string): (r: string) {
    if s == [] then []
    else if IsWhitespace(s[0]) then DropWhitespace(s[1..])
    else [s[0]] + DropWhitespace(s[1..])
  }

  lemma {:induction false} DropWhitespaceConcat(a: string, b: string)
    ensures DropWhitespace(a + b) == DropWhitespace(a) + DropWhitespace(b)
  {
    if a != [] {
      assert (a + b)[0] == a[0];
      assert (a + b)[1..] == a[1..] + b;
      DropWhitespaceConcat(a[1..], b);
      if IsWhitespace(a[0]) {
        assert DropWhitespace(a + b) == DropWhitespace(a[1..] + b);
      } else {
        assert DropWhitespace(a + b) == [a[0]] + DropWhitespace(a[1..] + b);
      }
    } else {
      assert a + b == b;
    }
  }

  lemma {:induction false} DropWhitespaceClean(s: string)
    requires NoWhitespace(s)
    ensures DropWhitespace(s) == s
  {
    if s != [] {
      DropWhitespaceClean(s[1..]);
    }
  }

  /** Every token is non-empty and free of whitespace, and together the
      tokens hold exactly the non-whitespace characters, in order. */
  lemma {:induction false} SplitWhitespaceSpec(s: string)
    ensures forall i :: 0 <= i < |SplitWhitespace(s)| ==>
      SplitWhitespace(s)[i] != [] && NoWhitespace(SplitWhitespace(s)[i])
    ensures Concat(SplitWhitespace(s)) == DropWhitespace(s)
    decreases |s|
  {
    if s == [] {
    } else if IsWhitespace(s[0]) {
      SplitWhitespaceSpec(s[1..]);
    } else {
      var w := Word(s);
      var rest := s[|w|..];
      SplitWhitespaceSpec(rest);
      var ts := SplitWhitespace(s);
      assert ts == [w] + SplitWhitespace(rest);
      assert ts[1..] == SplitWhitespace(rest);
      assert s == w + rest;
      DropWhitespaceConcat(w, rest);
      DropWhitespaceClean(w);
      forall i | 0 <= i < |ts|
        ensures ts[i] != [] && NoWhitespace(ts[i])
      {
        if i > 0 {
          assert ts[i] == SplitWhitespace(rest)[i - 1];
        }
      }
    }
  }

  /** Dropping whitespace after turning commas into spaces is the card cleaner. */
  lemma {:induction false} DropWhitespaceReplaceCommas(s: string)
    ensures DropWhitespace(ReplaceCommas(s)) == Normalize(s)
  {
    if s != [] {
      var r := ReplaceCommas(s);
      assert r[1..] == ReplaceCommas(s[1..]);
      DropWhitespaceReplaceCommas(s[1..]);
    }
  }

  /** The tokens of the fallback path hold exactly the cleaned text. */
  lemma {:induction false} FallbackTokensSpec(s: string)
    ensures Concat(SplitWhitespace(ReplaceCommas(s))) == Normalize(s)
    ensures forall i :: 0 <= i < |SplitWhitespace(ReplaceCommas(s))| ==>
      SplitWhitespace(ReplaceCommas(s))[i] != [] && NoSeparators(SplitWhitespace(ReplaceCommas(s))[i])
  {
    var r := ReplaceCommas(s);
    var ts := SplitWhitespace(r);
    SplitWhitespaceSpec(r);
    DropWhitespaceReplaceCommas(s);
    forall i, j | 0 <= i < |ts| && 0 <= j < |ts[i]|
      ensures !IsSeparator(ts[i][j])
    {
      InConcat(ts, i, ts[i][j]);
    }
  }

  /** Every character of a token is a character of the concatenation. */
  lemma {:induction false} InConcat(ts: seq<string>, i: nat, c: char)
    requires i < |ts| && c in ts[i]
    ensures c in Concat(ts)
  {
    if i > 0 {
      var k := i - 1;
      assert ts[1..][k] == ts[i];
      InConcat(ts[1..], k, c);
    }
  }

  // ---------------------------------------------------------------------
  // str::len: the UTF-8 byte length

  /** Bytes of one scalar value in UTF-8 (RFC 3629, section 3). */
  function Utf8Width(c: char): (w: nat)
    ensures 1 <= w <= 4
  {
    var u := c as int;
    if u < 0x80 then 1 else if u < 0x800 then 2 else if u < 0x10000 then 3 else 4
  }

  predicate IsAscii(c: char) {
    (c as int) < 0x80
  }

  function ByteLen(s: string): (n: nat)
    ensures n >= |s|
  {
    if s == [] then 0 else Utf8Width(s[0]) + ByteLen(s[1..])
  }

  ghost predicate AllAscii(s: string) {
    forall i :: 0 <= i < |s| ==> IsAscii(s[i])
  }

  /** The byte length equals the character count exactly on ASCII text. */
  lemma {:induction false} ByteLenAscii(s: string)
    ensures ByteLen(s) == |s| <==> AllAscii(s)
  {
    if s != [] {
      ByteLenAscii(s[1..]);
      assert forall i :: 1 <= i < |s| ==> s[i] == s[1..][i - 1];
    }
  }
}
