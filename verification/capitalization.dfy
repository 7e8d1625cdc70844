/** Sentence capitalisation: `re.split(r'([.!?]+\s*)', text)` cuts the text
    into content pieces and terminator tokens; every non-blank content piece is
    stripped and gets its first character upper-cased; the pieces are joined
    again and the first character of the whole is upper-cased. */
module Capitalization {
  import opened Chars
  import opened Text

  predicate NoTerminal(s: string) {
    forall k | 0 <= k < |s| :: !IsTerminal(s[k])
  }

  /** Length of the longest prefix without a terminator. */
  function FirstTerminal(s: string): (n: nat)
    ensures n <= |s| && NoTerminal(s[..n])
    ensures n < |s| ==> IsTerminal(s[n])
  {
    if s == [] || IsTerminal(s[0]) then 0
    else
      var n := FirstTerminal(s[1..]) + 1;
      assert s[..n] == [s[0]] + s[1..][..n - 1];
      n
  }

  /** Length of the longest prefix made of terminators. */
  function LeadingTerminals(s: string): (n: nat)
    ensures n <= |s|
    ensures forall k | 0 <= k < n :: IsTerminal(s[k])
    ensures n < |s| ==> !IsTerminal(s[n])
  {
    if s == [] || !IsTerminal(s[0]) then 0 else LeadingTerminals(s[1..]) + 1
  }

  /** A whole token of `[.!?]+\s*` as the split cuts it out: a run of
      terminators followed by all the whitespace after it. */
  predicate IsSeparator(s: string) {
    var t := LeadingTerminals(s);
    t >= 1 && IsBlank(s[t..])
  }

  /** The shape of a split: content pieces at even indices hold no
      terminator, the pieces at odd indices are separators, and each separator
      takes every whitespace character after its terminators and the whole
      run of terminators: an empty content piece between two separators
      follows one that ends in whitespace, never one that cut a run. */
  predicate WellSplit(parts: seq<string>) {
    && |parts| % 2 == 1
    && (forall j | 0 <= j < |parts| :: j % 2 == 0 ==> NoTerminal(parts[j]))
    && (forall j | 0 <= j < |parts| :: j % 2 == 1 ==> IsSeparator(parts[j]))
    && (forall j | 0 < j < |parts| :: j % 2 == 0 ==> parts[j] == [] || !IsSpace(parts[j][0]))
    && (forall j | 0 < j < |parts| - 1 :: j % 2 == 0 && parts[j] == [] ==>
          parts[j - 1] != [] && IsSpace(parts[j - 1][|parts[j - 1]| - 1]))
  }

  /** End of the run of terminators that starts at position `i`. */
  function TerminalRunEnd(s: string, i: nat): (e: nat)
    requires i <= |s|
    ensures i <= e <= |s| && (forall k | i <= k < e :: IsTerminal(s[k]))
    ensures e < |s| ==> !IsTerminal(s[e])
    decreases |s| - i
  {
    if i < |s| && IsTerminal(s[i]) then TerminalRunEnd(s, i + 1) else i
  }

  /** End of the run of whitespace that starts at position `i`. */
  function SpaceRunEnd(s: string, i: nat): (e: nat)
    requires i <= |s|
    ensures i <= e <= |s| && (forall k | i <= k < e :: IsSpace(s[k]))
    ensures e < |s| ==> !IsSpace(s[e])
    decreases |s| - i
  {
    if i < |s| && IsSpace(s[i]) then SpaceRunEnd(s, i + 1) else i
  }

  /** `re.split(r'([.!?]+\s*)', s)`: content pieces at even indices, the
      separators between them (kept, since the pattern is a group) at odd
      indices. Joined again they give back `s`. */
  function SplitSentences(s: string): (parts: seq<string>)
    ensures WellSplit(parts)
    ensures Concat(parts) == s
    ensures parts[0] == s[..FirstTerminal(s)]
    decreases |s|
  {
    var n := FirstTerminal(s);
    if n == |s| then
      assert s[..n] == s;
      [s]
    else
      var e := SpaceRunEnd(s, TerminalRunEnd(s, n));
      var tail := SplitSentences(s[e..]);
      SplitConsAt(s, n, e, tail);
      [s[..n], s[n..e]] + tail
  }

  /** One step of the split: the content before the first terminator and
      the separator there, in front of a well-formed split of the rest. */
  lemma SplitConsAt(s: string, n: nat, e: nat, tail: seq<string>)
    requires n == FirstTerminal(s) && n < |s| && e == SpaceRunEnd(s, TerminalRunEnd(s, n))
    requires WellSplit(tail) && Concat(tail) == s[e..] && tail[0] == s[e..][..FirstTerminal(s[e..])]
    ensures var parts := [s[..n], s[n..e]] + tail;
      WellSplit(parts) && Concat(parts) == s && parts[0] == s[..n]
  {
    SeparatorAt(s, n);
    WellSplitCons(s[..n], s[n..e], s[e..], tail);
    SplitJoin(s, n, e, tail);
  }

  /** The shape rules out cutting a run of terminators in two: "a..b" is
      never split as "a", ".", "", ".", "b". */
  lemma WellSplitKeepsRunsWhole(parts: seq<string>)
    requires parts == ["a", ".", "", ".", "b"]
    ensures !WellSplit(parts)
  {
    var j := 2;
    assert 0 < j < |parts| - 1 && j % 2 == 0 && parts[j] == [];
    assert !IsSpace(parts[j - 1][|parts[j - 1]| - 1]);
  }

  /** `re.split(r'([.!?]+\s*)', "a..b")` is `["a", "..", "b"]`: the whole
      run of terminators is one separator. */
  lemma SplitKeepsRunWhole(s: string, parts: seq<string>)
    requires s == "a..b" && parts == ["a", "..", "b"]
    ensures SplitSentences(s) == parts
  {
    RunWholeWellSplit(parts);
    RunWholeJoins(s, parts);
    SplitUnique(s, parts);
  }

  lemma RunWholeWellSplit(parts: seq<string>)
    requires parts == ["a", "..", "b"]
    ensures WellSplit(parts)
  {
    assert LeadingTerminals(parts[1]) == 2 by {
      LeadingTerminalsIs(parts[1], 2);
    }
  }

  lemma RunWholeJoins(s: string, parts: seq<string>)
    requires s == "a..b" && parts == ["a", "..", "b"]
    ensures Concat(parts) == s
  {
    assert Concat(parts[2..]) == "b" + Concat([]);
    assert Concat(parts[1..]) == ".." + Concat(parts[2..]);
  }

  /** A run of `m` terminators not followed by another one. */
  lemma {:induction false} LeadingTerminalsIs(x: string, m: nat)
    requires m <= |x| && (forall k | 0 <= k < m :: IsTerminal(x[k]))
    requires m < |x| ==> !IsTerminal(x[m])
    ensures LeadingTerminals(x) == m
    decreases m
  {
    if m > 0 {
      LeadingTerminalsIs(x[1..], m - 1);
    }
  }

  /** The token the split cuts at a terminator: the terminator run and the
      whitespace after it, followed by a non-space or nothing. */
  lemma SeparatorAt(s: string, n: nat)
    requires n < |s| && IsTerminal(s[n])
    ensures var e := SpaceRunEnd(s, TerminalRunEnd(s, n));
      IsSeparator(s[n..e]) && (e == |s| || !IsSpace(s[e]))
      && (e < |s| && IsTerminal(s[e]) ==> IsSpace(s[e - 1]))
  {
    var t := TerminalRunEnd(s, n);
    var e := SpaceRunEnd(s, t);
    SeparatorRun(s, n, t, e);
    SeparatorBlank(s, n, t, e);
  }

  /** The terminators of a separator token are the run from `n` to `t`. */
  lemma SeparatorRun(s: string, n: nat, t: nat, e: nat)
    requires n <= t <= e <= |s|
    requires forall k | n <= k < t :: IsTerminal(s[k])
    requires t < e ==> !IsTerminal(s[t])
    ensures LeadingTerminals(s[n..e]) == t - n
  {
    var sep := s[n..e];
    forall k | 0 <= k < t - n ensures IsTerminal(sep[k]) {
      assert sep[k] == s[n + k];
    }
    if t < e {
      assert sep[t - n] == s[t];
    }
    LeadingTerminalsIs(sep, t - n);
  }

  /** After its terminators a separator token holds only whitespace. */
  lemma SeparatorBlank(s: string, n: nat, t: nat, e: nat)
    requires n <= t <= e <= |s|
    requires forall k | t <= k < e :: IsSpace(s[k])
    ensures IsBlank(s[n..e][t - n..])
  {
    var blank := s[n..e][t - n..];
    forall k | 0 <= k < |blank| ensures IsSpace(blank[k]) {
      assert blank[k] == s[t + k];
    }
  }

  lemma WellSplitCons(a: string, sep: string, after: string, tail: seq<string>)
    requires NoTerminal(a) && IsSeparator(sep) && WellSplit(tail)
    requires after == [] || !IsSpace(after[0])
    requires after != [] && IsTerminal(after[0]) ==> sep != [] && IsSpace(sep[|sep| - 1])
    requires tail[0] == after[..FirstTerminal(after)] && Concat(tail) == after
    ensures WellSplit([a, sep] + tail)
  {
    var parts := [a, sep] + tail;
    if tail[0] != [] {
      assert tail[0][0] == after[0];
    }
    if tail[0] == [] && |tail| > 1 {
      assert IsSeparator(tail[1]);
      ConcatSecondPiece(tail);
      assert |after[..FirstTerminal(after)]| == 0;
    }
    ConsShape(a, sep, tail, parts);
    ConsKeepsRuns(sep, tail, parts);
  }

  /** The first four clauses of `WellSplit` for a split with one more
      content piece and separator in front. */
  lemma ConsShape(a: string, sep: string, tail: seq<string>, parts: seq<string>)
    requires NoTerminal(a) && IsSeparator(sep) && WellSplit(tail)
    requires tail[0] == [] || !IsSpace(tail[0][0])
    requires parts == [a, sep] + tail
    ensures |parts| % 2 == 1
    ensures forall j | 0 <= j < |parts| :: j % 2 == 0 ==> NoTerminal(parts[j])
    ensures forall j | 0 <= j < |parts| :: j % 2 == 1 ==> IsSeparator(parts[j])
    ensures forall j | 0 < j < |parts| :: j % 2 == 0 ==> parts[j] == [] || !IsSpace(parts[j][0])
  {
    forall j | 2 <= j < |parts| ensures parts[j] == tail[j - 2] && j % 2 == (j - 2) % 2 {
    }
  }

  /** Joining a separator that ends in whitespace (whenever the next content
      piece is empty) keeps every terminator run inside one separator. */
  lemma ConsKeepsRuns(sep: string, tail: seq<string>, parts: seq<string>)
    requires |parts| >= 2 && parts[1] == sep && parts[2..] == tail && |tail| % 2 == 1
    requires forall j | 0 < j < |tail| - 1 :: j % 2 == 0 && tail[j] == [] ==>
      tail[j - 1] != [] && IsSpace(tail[j - 1][|tail[j - 1]| - 1])
    requires tail[0] == [] && |tail| > 1 ==> sep != [] && IsSpace(sep[|sep| - 1])
    ensures forall j | 0 < j < |parts| - 1 :: j % 2 == 0 && parts[j] == [] ==>
      parts[j - 1] != [] && IsSpace(parts[j - 1][|parts[j - 1]| - 1])
  {
    forall j | 0 < j < |parts| - 1 && j % 2 == 0 && parts[j] == []
      ensures parts[j - 1] != [] && IsSpace(parts[j - 1][|parts[j - 1]| - 1])
    {
      assert parts[j] == tail[j - 2];
      if j > 2 {
        assert parts[j - 1] == tail[j - 3];
      }
    }
  }

  /** A split whose separator piece is non-empty joins to a non-empty text. */
  lemma ConcatSecondPiece(parts: seq<string>)
    requires |parts| > 1 && parts[1] != []
    ensures Concat(parts) != []
  {
    assert Concat(parts) == parts[0] + (parts[1] + Concat(parts[2..])) by {
      assert parts[1..][0] == parts[1] && parts[1..][1..] == parts[2..];
    }
  }

  lemma SplitJoin(s: string, n: nat, e: nat, tail: seq<string>)
    requires n <= e <= |s| && Concat(tail) == s[e..]
    ensures Concat([s[..n], s[n..e]] + tail) == s
  {
    var sep := s[n..e];
    ConcatAppend([s[..n], sep], tail);
    assert [s[..n], sep][1..] == [sep];
    assert Concat([sep]) == sep + Concat([]);
    assert s == s[..n] + (sep + s[e..]);
  }

  // ---------------------------------------------------------------------
  // The split is the only one of its shape

  /** `WellSplit` and joining back to `s` determine the split: there is no
      other way to cut `s` into content pieces and maximal separators. */
  lemma {:induction false} SplitUnique(s: string, parts: seq<string>)
    requires WellSplit(parts) && Concat(parts) == s
    ensures parts == SplitSentences(s)
    decreases |s|
  {
    if |parts| == 1 {
      assert Concat(parts) == parts[0] + Concat(parts[1..]);
      FirstTerminalIs(s, |s|);
      SplitSentencesWhole(s);
    } else {
      var n, e := SplitFront(s, parts);
      SplitUnique(s[e..], parts[2..]);
      SplitSentencesStep(s, n, e);
      assert parts == [parts[0], parts[1]] + parts[2..];
    }
  }

  /** `SplitSentences` on a text without a terminator. */
  lemma SplitSentencesWhole(s: string)
    requires FirstTerminal(s) == |s|
    ensures SplitSentences(s) == [s]
  {
  }

  /** `SplitSentences` on a text with a terminator: the content before it,
      the separator, then the split of the rest. */
  lemma SplitSentencesStep(s: string, n: nat, e: nat)
    requires n == FirstTerminal(s) && n < |s| && e == SpaceRunEnd(s, TerminalRunEnd(s, n))
    ensures SplitSentences(s) == [s[..n], s[n..e]] + SplitSentences(s[e..])
  {
  }

  /** The first content piece and separator of a well-formed split of `s`
      are the ones `SplitSentences` cuts, and the rest is a well-formed
      split of what follows them. */
  lemma SplitFront(s: string, parts: seq<string>) returns (n: nat, e: nat)
    requires WellSplit(parts) && Concat(parts) == s && |parts| > 1
    ensures n == |parts[0]| && n < e <= |s| && e == n + |parts[1]|
    ensures FirstTerminal(s) == n && SpaceRunEnd(s, TerminalRunEnd(s, n)) == e
    ensures parts[0] == s[..n] && parts[1] == s[n..e]
    ensures WellSplit(parts[2..]) && Concat(parts[2..]) == s[e..]
  {
    var a, sep, rest := parts[0], parts[1], parts[2..];
    var r := Concat(rest);
    assert IsSeparator(sep) && NoTerminal(a);
    assert s == a + (sep + r) by {
      assert parts[1..][0] == sep && parts[1..][1..] == rest;
    }
    n, e := |a|, |a| + |sep|;
    WellSplitDrop(parts);
    RestStart(parts);
    assert s[..n] == a && s[n..e] == sep && s[e..] == r;
    FirstTerminalIs(s, n);
    SeparatorEnds(s, a, sep, r);
  }

  /** The terminator run and the whitespace after it, scanned from the
      start of a separator, end where the separator does. */
  lemma SeparatorEnds(s: string, a: string, sep: string, r: string)
    requires s == a + (sep + r) && IsSeparator(sep)
    requires r == [] || (!IsSpace(r[0]) && (IsTerminal(r[0]) ==> sep != [] && IsSpace(sep[|sep| - 1])))
    ensures SpaceRunEnd(s, TerminalRunEnd(s, |a|)) == |a| + |sep|
  {
    var n, e := |a|, |a| + |sep|;
    var l := LeadingTerminals(sep);
    forall k | n <= k < n + l ensures IsTerminal(s[k]) {
      assert s[k] == sep[k - n];
    }
    if l < |sep| {
      assert s[n + l] == sep[l] && IsSpace(sep[l]);
    } else if n + l < |s| {
      assert s[n + l] == r[0];
    }
    TerminalRunEndIs(s, n, n + l);
    forall k | n + l <= k < e ensures IsSpace(s[k]) {
      assert s[k] == sep[k - n];
    }
    if e < |s| {
      assert s[e] == r[0];
    }
    SpaceRunEndIs(s, n + l, e);
  }

  /** Dropping the first content piece and separator keeps the shape. */
  lemma WellSplitDrop(parts: seq<string>)
    requires WellSplit(parts) && |parts| > 1
    ensures WellSplit(parts[2..])
  {
    var rest := parts[2..];
    forall j | 0 <= j < |rest| ensures rest[j] == parts[j + 2] && j % 2 == (j + 2) % 2 {
    }
  }

  /** What follows the first separator starts with neither whitespace nor,
      unless the separator ends in whitespace, a terminator. */
  lemma RestStart(parts: seq<string>)
    requires WellSplit(parts) && |parts| > 1
    ensures var r := Concat(parts[2..]);
      r == [] || (!IsSpace(r[0]) && (IsTerminal(r[0]) ==>
        parts[1] != [] && IsSpace(parts[1][|parts[1]| - 1])))
  {
    var rest := parts[2..];
    var r := Concat(rest);
    assert r == rest[0] + Concat(rest[1..]);
    if rest[0] != [] {
      assert r[0] == rest[0][0] && NoTerminal(parts[2]);
    } else if |rest| > 1 {
      var sep2 := rest[1];
      assert IsSeparator(parts[3]);
      assert Concat(rest[1..]) == sep2 + Concat(rest[2..]) by {
        assert rest[1..][0] == sep2 && rest[1..][1..] == rest[2..];
      }
      assert r[0] == sep2[0] && IsTerminal(sep2[0]);
      assert 0 < 2 < |parts| - 1 && parts[2] == [];
    } else {
      assert rest[1..] == [];
    }
  }

  /** The first terminator of `s` is at `n`. */
  lemma {:induction false} FirstTerminalIs(s: string, n: nat)
    requires n <= |s| && NoTerminal(s[..n]) && (n < |s| ==> IsTerminal(s[n]))
    ensures FirstTerminal(s) == n
    decreases n
  {
    if n > 0 {
      assert s[0] == s[..n][0];
      assert s[1..][..n - 1] == s[..n][1..];
      FirstTerminalIs(s[1..], n - 1);
    }
  }

  /** The run of terminators from `i` ends at `m`. */
  lemma {:induction false} TerminalRunEndIs(s: string, i: nat, m: nat)
    requires i <= m <= |s| && (forall k | i <= k < m :: IsTerminal(s[k]))
    requires m < |s| ==> !IsTerminal(s[m])
    ensures TerminalRunEnd(s, i) == m
    decreases m - i
  {
    if i < m {
      TerminalRunEndIs(s, i + 1, m);
    }
  }

  /** The run of whitespace from `i` ends at `m`. */
  lemma {:induction false} SpaceRunEndIs(s: string, i: nat, m: nat)
    requires i <= m <= |s| && (forall k | i <= k < m :: IsSpace(s[k]))
    requires m < |s| ==> !IsSpace(s[m])
    ensures SpaceRunEnd(s, i) == m
    decreases m - i
  {
    if i < m {
      SpaceRunEndIs(s, i + 1, m);
    }
  }

  /** `s[0].upper() + s[1:]` for a non-empty `s`. */
  function CapFirst(s: string): (r: string)
    ensures |r| == |s| && (s != [] ==> r[0] == Upper(s[0]) && r[1..] == s[1..])
    ensures s != [] ==> Upper(r[0]) == r[0]
  {
    if s == [] then [] else UpperIdempotent(s[0]); [Upper(s[0])] + s[1..]
  }

  /** One step of the loop: a piece that is not blank and does not start
      with a terminator (the `re.match(r'[.!?]+\s*', piece)` test) is
      stripped and capitalised; any other piece is kept. */
  function FixPiece(piece: string): (r: string)
    ensures IsBlank(piece) || IsTerminal(piece[0]) ==> r == piece
    ensures !IsBlank(piece) && !IsTerminal(piece[0]) ==>
      && Trimmed(r) && r != [] && Upper(r[0]) == r[0]
      && EqualsIgnoringCase(r, Strip(piece)) && r[1..] == Strip(piece)[1..]
  {
    if !IsBlank(piece) && !(piece != [] && IsTerminal(piece[0])) then
      var t := Strip(piece);
      StripEmpty(piece);
      UpperKeepsClass(t[0]);
      CaseFoldUpper(t[0]);
      CapFirst(t)
    else piece
  }

  function FixAll(parts: seq<string>): (fixed: seq<string>)
    ensures |fixed| == |parts|
  {
    seq(|parts|, j requires 0 <= j < |parts| => FixPiece(parts[j]))
  }

  /** `_fix_capitalization`. The result is empty exactly when the text is,
      starts with an upper-cased character, and changes only letter case and
      whitespace: its non-space characters are those of the text, up to case,
      in order, so no terminator is added or lost. */
  function Capitalize(text: string): (r: string)
    ensures r == [] <==> text == []
    ensures r != [] ==> Upper(r[0]) == r[0]
    ensures EqualsIgnoringCase(NonSpace(r), NonSpace(text))
  {
    var parts := SplitSentences(text);
    var joined := Concat(FixAll(parts));
    ConcatFixAllEmpty(parts);
    NonSpaceFixAll(parts);
    NonSpaceCapFirst(joined);
    CaseFoldTrans(NonSpace(CapFirst(joined)), NonSpace(joined), NonSpace(text));
    CapFirst(joined)
  }

  // ---------------------------------------------------------------------
  // What capitalisation keeps and changes

  /** Separator tokens are kept verbatim and in order; content pieces that are
      not blank are stripped and capitalised, blank ones are kept. */
  lemma FixAllPieces(text: string)
    ensures var parts := SplitSentences(text);
      var fixed := FixAll(parts);
      (forall j | 0 <= j < |parts| && j % 2 == 1 :: fixed[j] == parts[j])
      && (forall j | 0 <= j < |parts| && j % 2 == 0 ::
            fixed[j] == if IsBlank(parts[j]) then parts[j] else CapFirst(Strip(parts[j])))
  {
    var parts := SplitSentences(text);
    forall j | 0 <= j < |parts| && j % 2 == 0 && parts[j] != []
      ensures !IsTerminal(parts[j][0])
    {
      assert NoTerminal(parts[j]);
    }
  }

  lemma CaseFoldUpper(c: char)
    ensures Lower(Upper(c)) == Lower(c)
  {
  }

  lemma NonSpaceCapFirst(s: string)
    ensures EqualsIgnoringCase(NonSpace(CapFirst(s)), NonSpace(s))
  {
    if s != [] {
      UpperKeepsClass(s[0]);
      CaseFoldUpper(s[0]);
      assert CapFirst(s) == [Upper(s[0])] + s[1..];
      assert CapFirst(s)[1..] == s[1..];
    }
  }

  lemma EqualsIgnoringCaseConcat(a: string, b: string, c: string, d: string)
    requires EqualsIgnoringCase(a, c) && EqualsIgnoringCase(b, d)
    ensures EqualsIgnoringCase(a + b, c + d)
  {
    forall k | 0 <= k < |a| + |b| ensures Lower((a + b)[k]) == Lower((c + d)[k]) {
      if k < |a| {
        assert (a + b)[k] == a[k] && (c + d)[k] == c[k];
      } else {
        assert (a + b)[k] == b[k - |a|] && (c + d)[k] == d[k - |a|];
      }
    }
  }

  lemma {:induction false} NonSpaceFixAll(parts: seq<string>)
    ensures EqualsIgnoringCase(NonSpace(Concat(FixAll(parts))), NonSpace(Concat(parts)))
    decreases |parts|
  {
    if parts != [] {
      var p := parts[0];
      var fixed := FixAll(parts);
      assert fixed[0] == FixPiece(p);
      assert fixed[1..] == FixAll(parts[1..]);
      NonSpaceFixAll(parts[1..]);
      NonSpaceConcat(fixed[0], Concat(fixed[1..]));
      NonSpaceConcat(p, Concat(parts[1..]));
      if !IsBlank(p) && !(p != [] && IsTerminal(p[0])) {
        NonSpaceCapFirst(Strip(p));
        NonSpaceStrip(p);
      }
      EqualsIgnoringCaseConcat(NonSpace(fixed[0]), NonSpace(Concat(fixed[1..])),
                               NonSpace(p), NonSpace(Concat(parts[1..])));
    }
  }

  /** The result is empty exactly when the input is. */
  lemma {:induction false} ConcatFixAllEmpty(parts: seq<string>)
    ensures Concat(FixAll(parts)) == [] <==> Concat(parts) == []
    decreases |parts|
  {
    if parts != [] {
      var fixed := FixAll(parts);
      assert fixed[1..] == FixAll(parts[1..]);
      ConcatFixAllEmpty(parts[1..]);
      var p := parts[0];
      if !IsBlank(p) && !(p != [] && IsTerminal(p[0])) {
        StripEmpty(p);
      }
    }
  }
}
