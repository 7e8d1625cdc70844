/** Spacing and punctuation repair: five regular-expression rewrites and a
    strip, in this order:
      1. `re.sub(r'\s+([,.!?;:])', r'\1', s)`     whitespace before punctuation goes;
      2. `re.sub(r'([,.!?;:])([A-Za-z])', r'\1 \2', s)`  a space after punctuation;
      3. `re.sub(r'\s+', ' ', s)`                 whitespace runs become one space;
      4. `re.sub(r'\s*"\s*', '"', s)`             no whitespace around `"`;
      5. `re.sub(r"\s*'\s*", "'", s)`             no whitespace around `'`;
    then `s.strip()`. */
module Spacing {
  import opened Chars
  import opened Text

  predicate SpaceThenPunct(c: char, d: char) {
    IsSpace(c) && IsPunct(d)
  }

  predicate PunctThenLetter(c: char, d: char) {
    IsPunct(c) && IsAsciiLetter(d)
  }

  /** Whitespace next to the quote character `q`, on either side. */
  function QuoteSpace(q: char): (char, char) -> bool {
    (c: char, d: char) => (IsSpace(c) && d == q) || (c == q && IsSpace(d))
  }

  // ---------------------------------------------------------------------
  // Stage 1: no whitespace before punctuation

  /** `s` opens with a whitespace run, possibly empty, and then a character
      satisfying `p`: the text a pattern `\s*P` matches at its start. */
  predicate RunThen(s: string, p: char -> bool)
    decreases |s|
  {
    s != [] && (p(s[0]) || (IsSpace(s[0]) && RunThen(s[1..], p)))
  }

  /** A string in which no whitespace character comes right before a `p`
      character opens with such a run only when it opens with the character
      itself. */
  lemma {:induction false} NoRunThen(s: string, p: char -> bool)
    requires s != [] && IsSpace(s[0]) && !p(s[0])
    requires forall k | 0 <= k < |s| - 1 :: IsSpace(s[k]) ==> !p(s[k + 1])
    ensures !RunThen(s, p)
    decreases |s|
  {
    if |s| > 1 && IsSpace(s[1]) {
      forall k | 0 <= k < |s| - 2 ensures IsSpace(s[1..][k]) ==> !p(s[1..][k + 1]) {
        assert s[1..][k] == s[k + 1] && s[1..][k + 1] == s[k + 2];
      }
      NoRunThen(s[1..], p);
    }
  }

  /** What `re.sub(r'\s+([,.!?;:])', r'\1', s)` makes of position `k` of
      `s`: a whitespace character whose run ends at punctuation disappears;
      every other character, whitespace elsewhere included, stays. */
  function DropPiece(s: string, k: nat): string
    requires k < |s|
  {
    if IsSpace(s[k]) && RunThen(s[k..], IsPunct) then [] else [s[k]]
  }

  function DropPieces(s: string): (parts: seq<string>)
    ensures |parts| == |s|
  {
    seq(|s|, k requires 0 <= k < |s| => DropPiece(s, k))
  }

  lemma DropPiecesFront(s: string)
    requires s != []
    ensures Concat(DropPieces(s)) == DropPiece(s, 0) + Concat(DropPieces(s[1..]))
  {
    var parts := DropPieces(s);
    ConcatFrom(parts, 0);
    assert parts[0..] == parts;
    forall j | 0 <= j < |s| - 1 ensures parts[1..][j] == DropPieces(s[1..])[j] {
      assert s[1..][j] == s[j + 1] && s[1..][j..] == s[j + 1..];
    }
    assert parts[1..] == DropPieces(s[1..]);
  }

  /** `re.sub(r'\s+([,.!?;:])', r'\1', s)`: exactly the whitespace runs
      that end at punctuation are deleted, and everything else is kept in
      order (position by position, as `DropPiece` says). */
  function DropSpaceBeforePunct(s: string): (r: string)
    ensures r == Concat(DropPieces(s))
    ensures NonSpace(r) == NonSpace(s)
    ensures NoPair(r, SpaceThenPunct)
    ensures r != [] && IsPunct(r[0]) ==> RunThen(s, IsPunct)
    ensures s != [] && !IsSpace(s[0]) ==> r != [] && r[0] == s[0]
    decreases |s|
  {
    if s == [] then []
    else
      var rest := DropSpaceBeforePunct(s[1..]);
      assert s == [s[0]] + s[1..];
      assert s[0..] == s;
      DropPiecesFront(s);
      NonSpaceConcat([s[0]], s[1..]);
      if IsSpace(s[0]) && RunThen(s, IsPunct) then
        rest
      else
        NonSpaceConcat([s[0]], rest);
        NoPairConcat([s[0]], rest, SpaceThenPunct);
        [s[0]] + rest
  }

  lemma {:induction false} DropSpaceBeforePunctIdentity(s: string)
    requires NoPair(s, SpaceThenPunct)
    ensures DropSpaceBeforePunct(s) == s
    decreases |s|
  {
    if s != [] {
      if IsSpace(s[0]) {
        forall k | 0 <= k < |s| - 1 ensures IsSpace(s[k]) ==> !IsPunct(s[k + 1]) {
          assert !PairAt(s, k, SpaceThenPunct);
        }
        NoRunThen(s, IsPunct);
      }
      NoPairSlice(s, 1, |s|, SpaceThenPunct);
      DropSpaceBeforePunctIdentity(s[1..]);
      assert s == [s[0]] + s[1..];
    }
  }

  // ---------------------------------------------------------------------
  // Stage 2: a space between punctuation and a letter

  /** What `re.sub(r'([,.!?;:])([A-Za-z])', r'\1 \2', s)` makes of
      position `k` of `s`: punctuation directly followed by an ASCII letter
      gets one plain space after it; every character stays. */
  function SpacePiece(s: string, k: nat): string
    requires k < |s|
  {
    if IsPunct(s[k]) && k + 1 < |s| && IsAsciiLetter(s[k + 1]) then [s[k], ' '] else [s[k]]
  }

  function SpacePieces(s: string): (parts: seq<string>)
    ensures |parts| == |s|
  {
    seq(|s|, k requires 0 <= k < |s| => SpacePiece(s, k))
  }

  lemma SpacePiecesFrom(s: string, n: nat)
    requires n <= |s|
    ensures SpacePieces(s)[n..] == SpacePieces(s[n..])
  {
    forall j | 0 <= j < |s| - n ensures SpacePieces(s)[n..][j] == SpacePieces(s[n..])[j] {
      assert s[n..][j] == s[n + j];
      if j + 1 < |s| - n {
        assert s[n..][j + 1] == s[n + j + 1];
      }
    }
  }

  lemma SpacePiecesAtPair(s: string)
    requires |s| >= 2 && IsPunct(s[0]) && IsAsciiLetter(s[1])
    ensures Concat(SpacePieces(s)) == [s[0], ' ', s[1]] + Concat(SpacePieces(s[2..]))
  {
    var parts := SpacePieces(s);
    ConcatFrom(parts, 0);
    ConcatFrom(parts, 1);
    assert parts[0..] == parts;
    SpacePiecesFrom(s, 2);
  }

  lemma SpacePiecesAtOther(s: string)
    requires s != [] && !(|s| >= 2 && IsPunct(s[0]) && IsAsciiLetter(s[1]))
    ensures Concat(SpacePieces(s)) == [s[0]] + Concat(SpacePieces(s[1..]))
  {
    ConcatFrom(SpacePieces(s), 0);
    assert SpacePieces(s)[0..] == SpacePieces(s);
    SpacePiecesFrom(s, 1);
  }

  /** `re.sub(r'([,.!?;:])([A-Za-z])', r'\1 \2', s)`: exactly one plain
      space is inserted between each punctuation mark and an ASCII letter
      right after it, and nothing else changes (position by position, as
      `SpacePiece` says). */
  function SpaceAfterPunct(s: string): (r: string)
    ensures r == Concat(SpacePieces(s))
    ensures NonSpace(r) == NonSpace(s)
    ensures NoPair(r, PunctThenLetter)
    ensures s != [] ==> r != [] && r[0] == s[0]
    decreases |s|
  {
    if s == [] then []
    else if |s| >= 2 && IsPunct(s[0]) && IsAsciiLetter(s[1]) then
      var rest := SpaceAfterPunct(s[2..]);
      SpacedAtPair(s, rest);
      [s[0], ' ', s[1]] + rest
    else
      var rest := SpaceAfterPunct(s[1..]);
      SpacedAtOther(s, rest);
      [s[0]] + rest
  }

  /** What `SpaceAfterPunct` promises of `r` for `s`. */
  predicate Spaced(s: string, r: string) {
    && r == Concat(SpacePieces(s))
    && NonSpace(r) == NonSpace(s)
    && NoPair(r, PunctThenLetter)
    && (s != [] ==> r != [] && r[0] == s[0])
  }

  lemma SpacedAtPair(s: string, rest: string)
    requires |s| >= 2 && IsPunct(s[0]) && IsAsciiLetter(s[1])
    requires Spaced(s[2..], rest)
    ensures Spaced(s, [s[0], ' ', s[1]] + rest)
  {
    SpacePiecesAtPair(s);
    NonSpaceAtPair(s, rest);
    NoPairAtPair(s, rest);
  }

  lemma NoPairAtPair(s: string, rest: string)
    requires |s| >= 2 && IsPunct(s[0]) && IsAsciiLetter(s[1])
    requires NoPair(rest, PunctThenLetter)
    ensures NoPair([s[0], ' ', s[1]] + rest, PunctThenLetter)
  {
    var head := [s[0], ' ', s[1]];
    assert !IsPunct(s[1]) && !IsAsciiLetter(' ');
    assert !PairAt(head, 0, PunctThenLetter) && !PairAt(head, 1, PunctThenLetter);
    NoPairConcat(head, rest, PunctThenLetter);
  }

  lemma NonSpaceAtPair(s: string, rest: string)
    requires |s| >= 2 && IsPunct(s[0]) && IsAsciiLetter(s[1])
    requires NonSpace(rest) == NonSpace(s[2..])
    ensures NonSpace([s[0], ' ', s[1]] + rest) == NonSpace(s)
  {
    assert s == [s[0], s[1]] + s[2..];
    NonSpaceConcat([s[0], s[1]], s[2..]);
    NonSpaceConcat([s[0], ' ', s[1]], rest);
  }

  lemma SpacedAtOther(s: string, rest: string)
    requires s != [] && !(|s| >= 2 && IsPunct(s[0]) && IsAsciiLetter(s[1]))
    requires Spaced(s[1..], rest)
    ensures Spaced(s, [s[0]] + rest)
  {
    assert s == [s[0]] + s[1..];
    SpacePiecesAtOther(s);
    NonSpaceConcat([s[0]], s[1..]);
    NonSpaceConcat([s[0]], rest);
    NoPairConcat([s[0]], rest, PunctThenLetter);
  }

  lemma {:induction false} SpaceAfterPunctKeepsNoSpaceBefore(s: string)
    requires NoPair(s, SpaceThenPunct)
    ensures NoPair(SpaceAfterPunct(s), SpaceThenPunct)
    decreases |s|
  {
    if s != [] {
      if |s| >= 2 && IsPunct(s[0]) && IsAsciiLetter(s[1]) {
        NoPairSlice(s, 2, |s|, SpaceThenPunct);
        SpaceAfterPunctKeepsNoSpaceBefore(s[2..]);
        NoSpaceBeforeAtPair(s, SpaceAfterPunct(s[2..]));
      } else {
        NoPairSlice(s, 1, |s|, SpaceThenPunct);
        SpaceAfterPunctKeepsNoSpaceBefore(s[1..]);
        NoSpaceBeforeAtOther(s, SpaceAfterPunct(s[1..]));
      }
    }
  }

  lemma NoSpaceBeforeAtPair(s: string, rest: string)
    requires |s| >= 2 && IsPunct(s[0]) && IsAsciiLetter(s[1])
    requires NoPair(rest, SpaceThenPunct)
    ensures NoPair([s[0], ' ', s[1]] + rest, SpaceThenPunct)
  {
    NoPairConcat([s[0], ' ', s[1]], rest, SpaceThenPunct);
  }

  lemma NoSpaceBeforeAtOther(s: string, rest: string)
    requires s != [] && !(|s| >= 2 && IsPunct(s[0]) && IsAsciiLetter(s[1]))
    requires NoPair(s, SpaceThenPunct) && NoPair(rest, SpaceThenPunct)
    requires Spaced(s[1..], rest)
    ensures NoPair([s[0]] + rest, SpaceThenPunct)
  {
    if |s| >= 2 {
      assert !PairAt(s, 0, SpaceThenPunct);
      assert rest[0] == s[1];
    }
    NoPairConcat([s[0]], rest, SpaceThenPunct);
  }


  lemma {:induction false} SpaceAfterPunctIdentity(s: string)
    requires NoPair(s, PunctThenLetter)
    ensures SpaceAfterPunct(s) == s
    decreases |s|
  {
    if s != [] {
      if |s| >= 2 {
        assert !PairAt(s, 0, PunctThenLetter);
      }
      NoPairSlice(s, 1, |s|, PunctThenLetter);
      SpaceAfterPunctIdentity(s[1..]);
      assert s == [s[0]] + s[1..];
    }
  }

  // ---------------------------------------------------------------------
  // Stage 3: whitespace collapse keeps the first two stages' properties

  lemma {:induction false} CollapseKeepsNoSpaceBefore(s: string)
    requires NoPair(s, SpaceThenPunct)
    ensures NoPair(CollapseWhitespace(s), SpaceThenPunct)
    decreases |s|
  {
    if s != [] {
      if IsSpace(s[0]) {
        var n := LeadingSpaces(s);
        if n < |s| {
          assert !PairAt(s, n - 1, SpaceThenPunct);
        }
        NoPairSlice(s, n, |s|, SpaceThenPunct);
        CollapseKeepsNoSpaceBefore(s[n..]);
        NoPairConcat(" ", CollapseWhitespace(s[n..]), SpaceThenPunct);
      } else {
        NoPairSlice(s, 1, |s|, SpaceThenPunct);
        CollapseKeepsNoSpaceBefore(s[1..]);
        NoPairConcat([s[0]], CollapseWhitespace(s[1..]), SpaceThenPunct);
      }
    }
  }

  lemma {:induction false} CollapseKeepsSpaceAfterPunct(s: string)
    requires NoPair(s, PunctThenLetter)
    ensures NoPair(CollapseWhitespace(s), PunctThenLetter)
    decreases |s|
  {
    if s != [] {
      if IsSpace(s[0]) {
        var n := LeadingSpaces(s);
        NoPairSlice(s, n, |s|, PunctThenLetter);
        CollapseKeepsSpaceAfterPunct(s[n..]);
        NoPairConcat(" ", CollapseWhitespace(s[n..]), PunctThenLetter);
      } else {
        NoPairSlice(s, 1, |s|, PunctThenLetter);
        CollapseKeepsSpaceAfterPunct(s[1..]);
        if |s| >= 2 {
          assert !PairAt(s, 0, PunctThenLetter);
          assert s[1..][0] == s[1];
        }
        NoPairConcat([s[0]], CollapseWhitespace(s[1..]), PunctThenLetter);
      }
    }
  }

  // ---------------------------------------------------------------------
  // Stages 4 and 5: no whitespace around a quote character

  function IsChar(q: char): char -> bool {
    c => c == q
  }

  /** Position `k` of `s` follows `q` and nothing but whitespace after it;
      `afterQuote` says whether the start of `s` does. */
  predicate AfterQuote(s: string, q: char, afterQuote: bool, k: nat)
    requires k <= |s|
  {
    if k == 0 then afterQuote
    else s[k - 1] == q || (IsSpace(s[k - 1]) && AfterQuote(s, q, afterQuote, k - 1))
  }

  /** What `re.sub(r'\s*Q\s*', 'Q', s)` makes of position `k` of `s`: a
      whitespace character disappears when its run ends at `q` or starts
      right after `q`; every other character, whitespace elsewhere included,
      stays. */
  function TightenPiece(s: string, q: char, afterQuote: bool, k: nat): string
    requires k < |s|
  {
    if IsSpace(s[k]) && (AfterQuote(s, q, afterQuote, k) || RunThen(s[k..], IsChar(q))) then [] else [s[k]]
  }

  function TightenPieces(s: string, q: char, afterQuote: bool): (parts: seq<string>)
    ensures |parts| == |s|
  {
    seq(|s|, k requires 0 <= k < |s| => TightenPiece(s, q, afterQuote, k))
  }

  lemma {:induction false} AfterQuoteShift(s: string, q: char, afterQuote: bool, j: nat)
    requires s != [] && j < |s|
    ensures AfterQuote(s, q, afterQuote, j + 1)
      == AfterQuote(s[1..], q, s[0] == q || (IsSpace(s[0]) && afterQuote), j)
    decreases j
  {
    if j > 0 {
      AfterQuoteShift(s, q, afterQuote, j - 1);
      assert s[1..][j - 1] == s[j];
    }
  }

  lemma TightenPiecesFront(s: string, q: char, afterQuote: bool)
    requires s != []
    ensures Concat(TightenPieces(s, q, afterQuote))
      == TightenPiece(s, q, afterQuote, 0)
         + Concat(TightenPieces(s[1..], q, s[0] == q || (IsSpace(s[0]) && afterQuote)))
  {
    var after := s[0] == q || (IsSpace(s[0]) && afterQuote);
    var parts := TightenPieces(s, q, afterQuote);
    ConcatFrom(parts, 0);
    assert parts[0..] == parts;
    forall j | 0 <= j < |s| - 1 ensures parts[1..][j] == TightenPieces(s[1..], q, after)[j] {
      assert s[1..][j] == s[j + 1] && s[1..][j..] == s[j + 1..];
      AfterQuoteShift(s, q, afterQuote, j);
    }
    assert parts[1..] == TightenPieces(s[1..], q, after);
  }

  /** `re.sub(r'\s*Q\s*', 'Q', s)` for the quote character `q`, read left to
      right one character at a time: a whitespace character is deleted when
      its run ends at `q` or when it follows `q` (`afterQuote`, set by a `q`
      and kept while whitespace is deleted). Everything else is kept, in
      order (position by position, as `TightenPiece` says). */
  function TightenFrom(s: string, q: char, afterQuote: bool): (r: string)
    requires !IsSpace(q)
    ensures r == Concat(TightenPieces(s, q, afterQuote))
    ensures NonSpace(r) == NonSpace(s)
    ensures NoPair(r, QuoteSpace(q))
    ensures afterQuote && r != [] ==> !IsSpace(r[0])
    ensures RunThen(s, IsChar(q)) ==> r != [] && r[0] == q
    ensures s != [] && !RunThen(s, IsChar(q)) && (!afterQuote || !IsSpace(s[0])) ==>
              r != [] && r[0] == s[0]
    decreases |s|
  {
    if s == [] then []
    else
      var after := s[0] == q || (IsSpace(s[0]) && afterQuote);
      var rest := TightenFrom(s[1..], q, after);
      assert s == [s[0]] + s[1..];
      assert s[0..] == s;
      TightenPiecesFront(s, q, afterQuote);
      NonSpaceConcat([s[0]], s[1..]);
      if IsSpace(s[0]) && (afterQuote || RunThen(s, IsChar(q))) then
        rest
      else
        NonSpaceConcat([s[0]], rest);
        assert IsSpace(s[0]) && rest != [] ==> rest[0] != q by {
          if IsSpace(s[0]) && rest != [] {
            assert !RunThen(s[1..], IsChar(q));
            assert s[1..][0] == s[1] && s[1] != q;
          }
        }
        NoPairConcat([s[0]], rest, QuoteSpace(q));
        [s[0]] + rest
  }

  /** `re.sub(r'\s*Q\s*', 'Q', s)`: every whitespace run right before or
      right after `q` is deleted, and every other character, whitespace away
      from `q` included, is kept in order. */
  function TightenQuote(s: string, q: char): (r: string)
    requires !IsSpace(q)
    ensures r == Concat(TightenPieces(s, q, false))
    ensures NonSpace(r) == NonSpace(s)
    ensures NoPair(r, QuoteSpace(q))
  {
    TightenFrom(s, q, false)
  }

  /** Deleting whitespace next to `q` keeps any neighbour property that
      a non-space character and `q` never violate side by side. */
  lemma {:induction false} TightenFromKeepsNoPair(s: string, q: char, afterQuote: bool, bad: (char, char) -> bool)
    requires !IsSpace(q) && NoPair(s, bad)
    requires forall c | !IsSpace(c) :: !bad(c, q) && !bad(q, c)
    ensures NoPair(TightenFrom(s, q, afterQuote), bad)
    decreases |s|
  {
    if s != [] {
      var after := s[0] == q || (IsSpace(s[0]) && afterQuote);
      var rest := TightenFrom(s[1..], q, after);
      NoPairSlice(s, 1, |s|, bad);
      TightenFromKeepsNoPair(s[1..], q, after, bad);
      if !(IsSpace(s[0]) && (afterQuote || RunThen(s, IsChar(q)))) {
        if rest != [] && !RunThen(s[1..], IsChar(q)) && !after {
          assert !PairAt(s, 0, bad);
          assert s[1..][0] == s[1];
        }
        NoPairConcat([s[0]], rest, bad);
      }
    }
  }

  lemma TightenQuoteKeepsNoPair(s: string, q: char, bad: (char, char) -> bool)
    requires !IsSpace(q) && NoPair(s, bad)
    requires forall c | !IsSpace(c) :: !bad(c, q) && !bad(q, c)
    ensures NoPair(TightenQuote(s, q), bad)
  {
    TightenFromKeepsNoPair(s, q, false, bad);
  }

  /** Deleting characters brings in no new kind of whitespace. */
  lemma {:induction false} TightenFromKeepsPlainSpaces(s: string, q: char, afterQuote: bool)
    requires !IsSpace(q) && OnlyPlainSpaces(s)
    ensures OnlyPlainSpaces(TightenFrom(s, q, afterQuote))
    decreases |s|
  {
    if s != [] {
      var after := s[0] == q || (IsSpace(s[0]) && afterQuote);
      OnlyPlainSpacesSlice(s, 1, |s|);
      TightenFromKeepsPlainSpaces(s[1..], q, after);
      assert OnlyPlainSpaces([s[0]]) by {
        OnlyPlainSpacesSlice(s, 0, 1);
        assert s[0..1] == [s[0]];
      }
      OnlyPlainSpacesConcat([s[0]], TightenFrom(s[1..], q, after));
    }
  }

  lemma TightenQuoteKeepsPlainSpaces(s: string, q: char)
    requires !IsSpace(q) && OnlyPlainSpaces(s)
    ensures OnlyPlainSpaces(TightenQuote(s, q))
  {
    TightenFromKeepsPlainSpaces(s, q, false);
  }

  /** With no whitespace next to `q` there is nothing to delete. */
  lemma {:induction false} TightenFromIdentity(s: string, q: char, afterQuote: bool)
    requires !IsSpace(q) && NoPair(s, QuoteSpace(q))
    requires afterQuote && s != [] ==> !IsSpace(s[0])
    ensures TightenFrom(s, q, afterQuote) == s
    decreases |s|
  {
    if s != [] {
      var after := s[0] == q || (IsSpace(s[0]) && afterQuote);
      if IsSpace(s[0]) {
        forall k | 0 <= k < |s| - 1 ensures IsSpace(s[k]) ==> !IsChar(q)(s[k + 1]) {
          assert !PairAt(s, k, QuoteSpace(q));
        }
        NoRunThen(s, IsChar(q));
      }
      if after && |s| > 1 {
        assert !PairAt(s, 0, QuoteSpace(q));
      }
      NoPairSlice(s, 1, |s|, QuoteSpace(q));
      TightenFromIdentity(s[1..], q, after);
      assert s == [s[0]] + s[1..];
    }
  }

  lemma TightenQuoteIdentity(s: string, q: char)
    requires !IsSpace(q) && NoPair(s, QuoteSpace(q))
    ensures TightenQuote(s, q) == s
  {
    TightenFromIdentity(s, q, false);
  }

  // ---------------------------------------------------------------------
  // The whole repair

  /** `_fix_spacing`: the five rewrites, then `strip()`. The result is
      well spaced (see `WellSpaced`), and only whitespace was moved: the
      other characters stay, in order. */
  function FixSpacing(text: string): (r: string)
    ensures WellSpaced(r)
    ensures NonSpace(r) == NonSpace(text)
  {
    var s1 := DropSpaceBeforePunct(text);
    var s2 := SpaceAfterPunct(s1);
    var s3 := CollapseWhitespace(s2);
    var s4 := TightenQuote(s3, '"');
    var s5 := TightenQuote(s4, '\'');
    ThreeStagesSpaced(text);
    QuoteStagesSpaced(s3);
    StripKeepsNoPair(s5, SpaceThenPunct);
    StripKeepsNoPair(s5, PunctThenLetter);
    StripKeepsNoPair(s5, SpacePair);
    StripKeepsNoPair(s5, QuoteSpace('"'));
    StripKeepsNoPair(s5, QuoteSpace('\''));
    StripKeepsPlainSpaces(s5);
    NonSpaceStrip(s5);
    Strip(s5)
  }

  /** What the repair guarantees: no whitespace before `,.!?;:`, no ASCII
      letter right after one of them, single plain spaces only, no whitespace
      next to a quote, nothing to strip. */
  predicate WellSpaced(s: string) {
    && NoPair(s, SpaceThenPunct)
    && NoPair(s, PunctThenLetter)
    && NoPair(s, SpacePair)
    && OnlyPlainSpaces(s)
    && NoPair(s, QuoteSpace('"'))
    && NoPair(s, QuoteSpace('\''))
    && Trimmed(s)
  }

  /** Whitespace repair before the quote stages: the first three stages
      together keep each other's properties. */
  lemma ThreeStagesSpaced(text: string)
    ensures var s3 := CollapseWhitespace(SpaceAfterPunct(DropSpaceBeforePunct(text)));
      NoPair(s3, SpaceThenPunct) && NoPair(s3, PunctThenLetter)
  {
    var s1 := DropSpaceBeforePunct(text);
    var s2 := SpaceAfterPunct(s1);
    SpaceAfterPunctKeepsNoSpaceBefore(s1);
    CollapseKeepsNoSpaceBefore(s2);
    CollapseKeepsSpaceAfterPunct(s2);
  }

  /** The quote stages keep what the first three established and add their
      own property for each quote character. */
  lemma QuoteStagesSpaced(s3: string)
    requires NoPair(s3, SpaceThenPunct) && NoPair(s3, PunctThenLetter)
    requires NoPair(s3, SpacePair) && OnlyPlainSpaces(s3)
    ensures var s5 := TightenQuote(TightenQuote(s3, '"'), '\'');
      && NoPair(s5, SpaceThenPunct) && NoPair(s5, PunctThenLetter)
      && NoPair(s5, SpacePair) && OnlyPlainSpaces(s5)
      && NoPair(s5, QuoteSpace('"')) && NoPair(s5, QuoteSpace('\''))
  {
    var s4 := TightenQuote(s3, '"');
    TightenQuoteKeepsNoPair(s3, '"', SpaceThenPunct);
    TightenQuoteKeepsNoPair(s3, '"', PunctThenLetter);
    TightenQuoteKeepsNoPair(s3, '"', SpacePair);
    TightenQuoteKeepsPlainSpaces(s3, '"');
    TightenQuoteKeepsNoPair(s4, '\'', SpaceThenPunct);
    TightenQuoteKeepsNoPair(s4, '\'', PunctThenLetter);
    TightenQuoteKeepsNoPair(s4, '\'', SpacePair);
    TightenQuoteKeepsNoPair(s4, '\'', QuoteSpace('"'));
    TightenQuoteKeepsPlainSpaces(s4, '\'');
  }

  /** A well-spaced text is left as it is, so repairing twice is the same as
      repairing once. */
  lemma FixSpacingKeepsWellSpaced(s: string)
    requires WellSpaced(s)
    ensures FixSpacing(s) == s
  {
    DropSpaceBeforePunctIdentity(s);
    SpaceAfterPunctIdentity(s);
    CollapseIdentity(s);
    TightenQuoteIdentity(s, '"');
    TightenQuoteIdentity(s, '\'');
    StripTrimmed(s);
  }

  lemma FixSpacingIdempotent(text: string)
    ensures FixSpacing(FixSpacing(text)) == FixSpacing(text)
  {
    FixSpacingKeepsWellSpaced(FixSpacing(text));
  }
}
