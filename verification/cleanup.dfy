/** Final clean-up of the correction pipeline:
      1. `re.sub(r'([.!?]){2,}', r'\1', s)`: a run of two or more terminators
         becomes its last terminator;
      2. `s.replace(' i ', ' I ')`;
      3. `re.sub(r"\bi'm\b", "I'm", s, flags=re.IGNORECASE)`, then the same
         for `i'll` and `i've`;
      4. a `.` is appended to a non-empty text whose last character is not a
         terminator;
    then `s.strip()`. */
module Cleanup {
  import opened Chars
  import opened Text
  import opened WholeWord
  import opened Capitalization

  /** The characters of `s` that are not terminators, in order. */
  function WithoutTerminals(s: string): string {
    if s == [] then []
    else if IsTerminal(s[0]) then WithoutTerminals(s[1..])
    else [s[0]] + WithoutTerminals(s[1..])
  }

  lemma WithoutTerminalsConcat(a: string, b: string)
    ensures WithoutTerminals(a + b) == WithoutTerminals(a) + WithoutTerminals(b)
  {
    if a != [] {
      assert (a + b)[0] == a[0] && (a + b)[1..] == a[1..] + b;
      WithoutTerminalsConcat(a[1..], b);
    } else {
      assert a + b == b;
    }
  }

  lemma WithoutTerminalsOfRun(s: string)
    requires forall k | 0 <= k < |s| :: IsTerminal(s[k])
    ensures WithoutTerminals(s) == []
  {
    if s != [] {
      WithoutTerminalsOfRun(s[1..]);
    }
  }

  /** The characters of `s` that are neither whitespace nor terminators, in
      order: what the clean-up may not change beyond letter case. */
  function Content(s: string): string {
    WithoutTerminals(NonSpace(s))
  }

  /** `Content` one character at a time. */
  lemma ContentCons(s: string)
    requires s != []
    ensures Content(s) == (if IsSpace(s[0]) || IsTerminal(s[0]) then [] else [s[0]]) + Content(s[1..])
  {
    if !IsSpace(s[0]) {
      assert NonSpace(s) == [s[0]] + NonSpace(s[1..]);
      WithoutTerminalsConcat([s[0]], NonSpace(s[1..]));
    }
  }

  lemma ContentConcat(a: string, b: string)
    ensures Content(a + b) == Content(a) + Content(b)
  {
    NonSpaceConcat(a, b);
    WithoutTerminalsConcat(NonSpace(a), NonSpace(b));
  }

  /** Dropping terminators first and whitespace second leaves the same
      characters. */
  lemma {:induction false} ContentCommutes(s: string)
    ensures Content(s) == NonSpace(WithoutTerminals(s))
    decreases |s|
  {
    if s != [] {
      ContentCons(s);
      ContentCommutes(s[1..]);
      if IsTerminal(s[0]) {
        assert WithoutTerminals(s) == WithoutTerminals(s[1..]);
      } else {
        var w := WithoutTerminals(s);
        assert w == [s[0]] + WithoutTerminals(s[1..]);
        assert w[0] == s[0] && w[1..] == WithoutTerminals(s[1..]);
      }
    }
  }

  /** Texts equal up to letter case have contents equal up to letter case. */
  lemma {:induction false} CaseFoldContent(a: string, b: string)
    requires EqualsIgnoringCase(a, b)
    ensures EqualsIgnoringCase(Content(a), Content(b))
    decreases |a|
  {
    if a != [] {
      CaseFoldKeepsClass(a[0], b[0]);
      ContentCons(a);
      ContentCons(b);
      CaseFoldContent(a[1..], b[1..]);
    }
  }

  /** Texts equal up to letter case stay so without their terminators. */
  lemma {:induction false} CaseFoldWithoutTerminals(a: string, b: string)
    requires EqualsIgnoringCase(a, b)
    ensures EqualsIgnoringCase(WithoutTerminals(a), WithoutTerminals(b))
    decreases |a|
  {
    if a != [] {
      CaseFoldKeepsClass(a[0], b[0]);
      CaseFoldWithoutTerminals(a[1..], b[1..]);
    }
  }

  /** Appending a full stop adds nothing to the content. */
  lemma ContentEnsureTerminal(t: string, e: string)
    requires e == t || e == t + "."
    ensures Content(e) == Content(t)
  {
    if e != t {
      ContentConcat(t, ".");
      assert Content(".") == [] by {
        ContentCons(".");
      }
    }
  }

  // ---------------------------------------------------------------------
  // Stage 1: terminator runs

  /** What `re.sub(r'([.!?]){2,}', r'\1', s)` makes of position `k` of
      `s`: a terminator followed by another terminator disappears, so each
      run keeps only its last mark; every other character stays. */
  function TerminalPiece(s: string, k: nat): string
    requires k < |s|
  {
    if IsTerminal(s[k]) && k + 1 < |s| && IsTerminal(s[k + 1]) then [] else [s[k]]
  }

  function TerminalPieces(s: string): (parts: seq<string>)
    ensures |parts| == |s|
  {
    seq(|s|, k requires 0 <= k < |s| => TerminalPiece(s, k))
  }

  lemma TerminalPiecesFrom(s: string, n: nat)
    requires n <= |s|
    ensures TerminalPieces(s)[n..] == TerminalPieces(s[n..])
  {
    forall j | 0 <= j < |s| - n ensures TerminalPieces(s)[n..][j] == TerminalPieces(s[n..])[j] {
      assert s[n..][j] == s[n + j];
      if j + 1 < |s| - n {
        assert s[n..][j + 1] == s[n + j + 1];
      }
    }
  }

  /** A run of terminators at the front of `s` contributes its last mark. */
  lemma TerminalPiecesAtRun(s: string)
    requires s != [] && IsTerminal(s[0])
    ensures var n := LeadingTerminals(s);
      Concat(TerminalPieces(s)) == [s[n - 1]] + Concat(TerminalPieces(s[n..]))
  {
    var n, parts := LeadingTerminals(s), TerminalPieces(s);
    forall j | 0 <= j < n - 1 ensures parts[j] == [] {
      assert IsTerminal(s[j]) && IsTerminal(s[j + 1]);
    }
    assert parts[n - 1] == [s[n - 1]];
    ConcatRun(parts, n);
    TerminalPiecesFrom(s, n);
  }

  lemma TerminalPiecesAtOther(s: string)
    requires s != [] && !IsTerminal(s[0])
    ensures Concat(TerminalPieces(s)) == [s[0]] + Concat(TerminalPieces(s[1..]))
  {
    ConcatFrom(TerminalPieces(s), 0);
    assert TerminalPieces(s)[0..] == TerminalPieces(s);
    TerminalPiecesFrom(s, 1);
  }

  /** `re.sub(r'([.!?]){2,}', r'\1', s)`: every maximal run of terminators
      is replaced by its last terminator (a run of one stays as it is), and
      every other character stays in order (position by position, as
      `TerminalPiece` says). So no two terminators are left side by side, and
      the last character of the text is kept. */
  function CollapseTerminalRuns(s: string): (r: string)
    ensures r == Concat(TerminalPieces(s))
    ensures NoPair(r, TerminalPair)
    ensures WithoutTerminals(r) == WithoutTerminals(s)
    ensures s != [] ==> r != [] && IsTerminal(r[0]) == IsTerminal(s[0])
    ensures s != [] ==> r[|r| - 1] == s[|s| - 1]
    ensures r == [] ==> s == []
    decreases |s|
  {
    if s == [] then []
    else if IsTerminal(s[0]) then
      var n := LeadingTerminals(s);
      var rest := CollapseTerminalRuns(s[n..]);
      CollapsedRun(s, rest);
      [s[n - 1]] + rest
    else
      var rest := CollapseTerminalRuns(s[1..]);
      CollapsedOther(s, rest);
      [s[0]] + rest
  }

  /** What `CollapseTerminalRuns` promises of `r` for `s`. */
  predicate Collapsed(s: string, r: string) {
    && r == Concat(TerminalPieces(s))
    && NoPair(r, TerminalPair)
    && WithoutTerminals(r) == WithoutTerminals(s)
    && (s != [] ==> r != [] && IsTerminal(r[0]) == IsTerminal(s[0]))
    && (s != [] ==> r[|r| - 1] == s[|s| - 1])
    && (r == [] ==> s == [])
  }

  /** A leading run of terminators becomes its last mark. */
  lemma CollapsedRun(s: string, rest: string)
    requires s != [] && IsTerminal(s[0])
    requires Collapsed(s[LeadingTerminals(s)..], rest)
    ensures Collapsed(s, [s[LeadingTerminals(s) - 1]] + rest)
  {
    var n := LeadingTerminals(s);
    TerminalPiecesAtRun(s);
    RunWithoutTerminals(s, rest);
    CollapsedRunEnds(s, n, rest);
    NoPairConcat([s[n - 1]], rest, TerminalPair);
  }

  /** After a leading run, the collapsed rest starts with no terminator and
      ends as the text does. */
  lemma CollapsedRunEnds(s: string, n: nat, rest: string)
    requires n == LeadingTerminals(s) && 1 <= n <= |s|
    requires Collapsed(s[n..], rest)
    ensures rest != [] ==> !IsTerminal(rest[0])
    ensures ([s[n - 1]] + rest)[|rest|] == s[|s| - 1]
  {
    if rest != [] {
      assert s[n..][0] == s[n];
      assert s[n..][|s| - n - 1] == s[|s| - 1];
    }
  }

  lemma RunWithoutTerminals(s: string, rest: string)
    requires s != [] && IsTerminal(s[0])
    requires WithoutTerminals(rest) == WithoutTerminals(s[LeadingTerminals(s)..])
    ensures WithoutTerminals([s[LeadingTerminals(s) - 1]] + rest) == WithoutTerminals(s)
  {
    var n := LeadingTerminals(s);
    assert s == s[..n] + s[n..];
    WithoutTerminalsConcat(s[..n], s[n..]);
    WithoutTerminalsOfRun(s[..n]);
    WithoutTerminalsConcat([s[n - 1]], rest);
  }

  /** Any other first character stays. */
  lemma CollapsedOther(s: string, rest: string)
    requires s != [] && !IsTerminal(s[0])
    requires Collapsed(s[1..], rest)
    ensures Collapsed(s, [s[0]] + rest)
  {
    assert s == [s[0]] + s[1..];
    TerminalPiecesAtOther(s);
    WithoutTerminalsConcat([s[0]], s[1..]);
    WithoutTerminalsConcat([s[0]], rest);
    NoPairConcat([s[0]], rest, TerminalPair);
  }

  /** A text without doubled terminators is left as it is, so collapsing
      twice is the same as collapsing once. */
  lemma {:induction false} CollapseTerminalRunsIdentity(s: string)
    requires NoPair(s, TerminalPair)
    ensures CollapseTerminalRuns(s) == s
    decreases |s|
  {
    if s != [] {
      NoPairSlice(s, 1, |s|, TerminalPair);
      CollapseTerminalRunsIdentity(s[1..]);
      if IsTerminal(s[0]) {
        if |s| > 1 {
          assert !PairAt(s, 0, TerminalPair);
        }
        assert LeadingTerminals(s) == 1;
      }
      assert s == [s[0]] + s[1..];
    }
  }

  // ---------------------------------------------------------------------
  // Stage 2: the spaced pronoun

  /** Position `k` of `s` is the `i` of an occurrence of ` i `. */
  predicate SpacedIAt(s: string, k: nat) {
    1 <= k && k + 2 <= |s| && s[k - 1..k + 2] == " i "
  }

  /** `r` is `s` with some `i` of ` i ` occurrences raised to `I`, and no
      other change. */
  predicate OnlySpacedIRaised(s: string, r: string) {
    |r| == |s| && forall k | 0 <= k < |s| && r[k] != s[k] :: SpacedIAt(s, k) && r[k] == 'I'
  }

  /** Raising the `i` in ` i ` at the front, then in the rest. */
  lemma RaisedAfterReplaced(s: string, rest: string)
    requires |s| >= 3 && s[..3] == " i " && OnlySpacedIRaised(s[3..], rest)
    ensures OnlySpacedIRaised(s, " I " + rest)
  {
    var r := " I " + rest;
    forall k | 0 <= k < |s| && r[k] != s[k] ensures SpacedIAt(s, k) && r[k] == 'I' {
      if k >= 3 {
        assert r[k] == rest[k - 3] && s[k] == s[3..][k - 3];
        assert s[3..][k - 4..k - 1] == s[k - 1..k + 2];
      } else {
        assert s[k] == s[..3][k];
        assert s[..3] == s[0..3];
      }
    }
  }

  /** Keeping the first character, then raising in the rest. */
  lemma RaisedAfterKept(s: string, rest: string)
    requires s != [] && OnlySpacedIRaised(s[1..], rest)
    ensures OnlySpacedIRaised(s, [s[0]] + rest)
  {
    var r := [s[0]] + rest;
    forall k | 0 <= k < |s| && r[k] != s[k] ensures SpacedIAt(s, k) && r[k] == 'I' {
      assert r[k] == rest[k - 1] && s[k] == s[1..][k - 1];
      assert s[1..][k - 2..k + 1] == s[k - 1..k + 2];
    }
  }

  /** `str.replace` takes the occurrences of ` i ` from left to right and
      skips one that overlaps the last one taken. Two occurrences overlap
      only when their `i`s are two apart, so the `i` at `k` is raised
      exactly when it is spaced and the one two places before it was not
      raised. */
  predicate Raised(s: string, k: nat)
    decreases k
  {
    SpacedIAt(s, k) && !(k >= 2 && Raised(s, k - 2))
  }

  /** `r` is `s` with exactly the raised `i`s turned into `I`. */
  predicate RaisesExactly(s: string, r: string) {
    |r| == |s| && forall k | 0 <= k < |s| :: r[k] == if Raised(s, k) then 'I' else s[k]
  }

  /** Seen from position `m` on, the same occurrences are raised, provided
      nothing is raised at `m` or just before it. */
  lemma {:induction false} RaisedShift(s: string, m: nat, j: nat)
    requires m <= |s| && !Raised(s, m) && (m >= 1 ==> !Raised(s, m - 1))
    ensures Raised(s[m..], j) == Raised(s, m + j)
    decreases j
  {
    if j == 0 {
      assert !SpacedIAt(s[m..], 0);
    } else if j == 1 {
      SpacedIShift(s, m, 1);
      assert Raised(s[m..], 1) == SpacedIAt(s[m..], 1);
      assert Raised(s, m + 1) == (SpacedIAt(s, m + 1) && !(m >= 1 && Raised(s, m - 1)));
    } else {
      SpacedIShift(s, m, j);
      RaisedShift(s, m, j - 2);
      assert Raised(s[m..], j) == (SpacedIAt(s[m..], j) && !Raised(s[m..], j - 2));
      assert Raised(s, m + j) == (SpacedIAt(s, m + j) && !Raised(s, m + j - 2));
    }
  }

  lemma SpacedIShift(s: string, m: nat, j: nat)
    requires m <= |s| && j >= 1
    ensures SpacedIAt(s[m..], j) == SpacedIAt(s, m + j)
  {
    if m + j + 2 <= |s| {
      assert s[m..][j - 1..j + 2] == s[m + j - 1..m + j + 2];
    }
  }

  lemma ExactAfterReplaced(s: string, rest: string)
    requires |s| >= 3 && s[..3] == " i " && RaisesExactly(s[3..], rest)
    ensures RaisesExactly(s, " I " + rest)
  {
    var r := " I " + rest;
    assert s[0] == ' ' && s[1] == 'i' && s[2] == ' ' by {
      assert s[..3] == [s[0], s[1], s[2]];
    }
    assert SpacedIAt(s, 1) by {
      assert s[0..3] == s[..3];
    }
    assert Raised(s, 1) && !Raised(s, 2) && !Raised(s, 3);
    forall k | 0 <= k < |s| ensures r[k] == if Raised(s, k) then 'I' else s[k] {
      if k >= 3 {
        RaisedShift(s, 3, k - 3);
        assert r[k] == rest[k - 3] && s[3..][k - 3] == s[k];
      }
    }
  }

  lemma ExactAfterKept(s: string, rest: string)
    requires |s| >= 3 && s[..3] != " i " && RaisesExactly(s[1..], rest)
    ensures RaisesExactly(s, [s[0]] + rest)
  {
    var r := [s[0]] + rest;
    assert !SpacedIAt(s, 1) by {
      assert s[0..3] == s[..3];
    }
    assert !Raised(s, 0) && !Raised(s, 1);
    forall k | 0 <= k < |s| ensures r[k] == if Raised(s, k) then 'I' else s[k] {
      if k >= 1 {
        RaisedShift(s, 1, k - 1);
        assert r[k] == rest[k - 1] && s[1..][k - 1] == s[k];
      }
    }
  }

  lemma ExactShort(s: string)
    requires |s| < 3
    ensures RaisesExactly(s, s)
  {
    forall k | 0 <= k < |s| ensures !Raised(s, k) {
    }
  }

  /** `s.replace(' i ', ' I ')`: left to right, occurrences never overlap.
      Exactly the raised `i`s become `I` (so ` i i i ` gives ` I i I `),
      and nothing else changes; the first character is always kept. */
  function ReplaceSpacedI(s: string): (r: string)
    ensures RaisesExactly(s, r)
    ensures OnlySpacedIRaised(s, r)
    ensures s != [] ==> r[0] == s[0]
    decreases |s|
  {
    if |s| < 3 then
      ExactShort(s);
      s
    else if s[..3] == " i " then
      var rest := ReplaceSpacedI(s[3..]);
      RaisedAfterReplaced(s, rest);
      ExactAfterReplaced(s, rest);
      " I " + rest
    else
      var rest := ReplaceSpacedI(s[1..]);
      RaisedAfterKept(s, rest);
      ExactAfterKept(s, rest);
      [s[0]] + rest
  }

  /** A raised position held `i`. */
  lemma SpacedIHoldsI(s: string, k: nat)
    requires SpacedIAt(s, k)
    ensures s[k] == 'i'
  {
    assert s[k] == s[k - 1..k + 2][1];
  }

  lemma ReplaceSpacedIKeepsCaseFold(s: string)
    ensures EqualsIgnoringCase(ReplaceSpacedI(s), s)
  {
    var r := ReplaceSpacedI(s);
    forall k | 0 <= k < |s| ensures Lower(r[k]) == Lower(s[k]) {
      if r[k] != s[k] {
        SpacedIHoldsI(s, k);
      }
    }
  }

  lemma ReplaceSpacedISecond(s: string)
    requires |s| >= 2 && s[0] != ' '
    ensures ReplaceSpacedI(s)[1] == s[1]
  {
    assert ReplaceSpacedI(s) == [s[0]] + ReplaceSpacedI(s[1..]) || |s| < 3;
    if |s| >= 3 {
      assert ReplaceSpacedI(s[1..])[0] == s[1..][0];
    }
  }

  lemma ReplaceSpacedIStep(s: string)
    requires |s| >= 3
    ensures s[..3] == " i " ==> ReplaceSpacedI(s) == " I " + ReplaceSpacedI(s[3..])
    ensures s[..3] != " i " ==> ReplaceSpacedI(s) == [s[0]] + ReplaceSpacedI(s[1..])
  {
  }

  /** The replacement never leaves ` i ` at the place where it starts. */
  lemma ReplaceSpacedINoLeadingMatch(s: string)
    requires |s| >= 3
    ensures ReplaceSpacedI(s)[..3] != " i "
  {
    if s[..3] == " i " {
      NoLeadingMatchReplaced(s);
    } else if s[0] == ' ' && s[1] == 'i' {
      NoLeadingMatchSpaceI(s);
    } else {
      NoLeadingMatchOther(s);
    }
  }

  lemma NoLeadingMatchReplaced(s: string)
    requires |s| >= 3 && s[..3] == " i "
    ensures ReplaceSpacedI(s)[..3] != " i "
  {
    ReplaceSpacedIStep(s);
    assert ReplaceSpacedI(s)[..3][1] == 'I';
  }

  lemma NoLeadingMatchSpaceI(s: string)
    requires |s| >= 3 && s[..3] != " i " && s[0] == ' ' && s[1] == 'i'
    ensures ReplaceSpacedI(s)[..3] != " i "
  {
    ReplaceSpacedIStep(s);
    var rest := ReplaceSpacedI(s[1..]);
    ReplaceSpacedISecond(s[1..]);
    assert s[1..][1] == s[2];
    assert s[2] != ' ' by {
      assert s[..3] == [s[0], s[1], s[2]];
    }
    assert ReplaceSpacedI(s)[..3][2] == rest[1];
  }

  lemma NoLeadingMatchOther(s: string)
    requires |s| >= 3 && !(s[0] == ' ' && s[1] == 'i')
    ensures ReplaceSpacedI(s)[..3] != " i "
  {
    var r := ReplaceSpacedI(s);
    ReplaceSpacedIStep(s);
    assert s[..3] != " i " by {
      assert s[..3][0] == s[0] && s[..3][1] == s[1];
    }
    assert r[..3][0] == s[0];
    assert r[..3][1] == ReplaceSpacedI(s[1..])[0] == s[1];
  }

  /** Every ` i ` that survives the replacement directly follows a
      replaced ` I` (as in ` i i `, where the two occurrences overlap). */
  lemma ReplaceSpacedILeftover(s: string, k: nat)
    requires k + 3 <= |s| && ReplaceSpacedI(s)[k..k + 3] == " i "
    ensures k >= 2 && ReplaceSpacedI(s)[k - 1] == 'I'
  {
    LeftoverOfExact(s, ReplaceSpacedI(s), k);
  }

  /** The same, for any `r` that raises exactly the chosen occurrences: a
      ` i ` left in `r` is one `s` has, whose `i` was not chosen, so the
      occurrence just before it was. */
  lemma LeftoverOfExact(s: string, r: string, k: nat)
    requires RaisesExactly(s, r) && k + 3 <= |s| && r[k..k + 3] == " i "
    ensures k >= 2 && r[k - 1] == 'I'
  {
    assert r[k] == ' ' && r[k + 1] == 'i' && r[k + 2] == ' ' by {
      assert r[k..k + 3][0] == r[k] && r[k..k + 3][1] == r[k + 1] && r[k..k + 3][2] == r[k + 2];
    }
    assert !Raised(s, k) && !Raised(s, k + 1) && !Raised(s, k + 2);
    assert s[k..k + 3] == r[k..k + 3];
    assert SpacedIAt(s, k + 1);
    assert Raised(s, k - 1);
  }

  // ---------------------------------------------------------------------
  // Stage 3: contractions of the pronoun

  /** No whole-word match of `a` can overlap one of `b`: the patterns differ
      at a common position, and neither one's first character appears later
      in the other, ignoring case. */
  predicate Exclusive(a: string, b: string) {
    && |a| > 0 && |b| > 0
    && (exists j | 0 <= j < |a| && j < |b| :: Lower(a[j]) != Lower(b[j]))
    && (forall d | 0 < d < |a| :: Lower(a[d]) != Lower(b[0]))
    && (forall d | 0 < d < |b| :: Lower(b[d]) != Lower(a[0]))
  }

  /** Where two whole-word matches overlap, the patterns agree up to case. */
  lemma MatchesAgree(s: string, k: nat, a: string, p: nat, b: string)
    requires MatchAt(s, k, a) && MatchAt(s, p, b)
    ensures forall j | 0 <= j < |a| && 0 <= k + j - p < |b| :: Lower(a[j]) == Lower(b[k + j - p])
  {
    var ma, mb := s[k..k + |a|], s[p..p + |b|];
    forall j | 0 <= j < |a| && 0 <= k + j - p < |b| ensures Lower(a[j]) == Lower(b[k + j - p]) {
      assert ma[j] == s[k + j] == mb[k + j - p];
    }
  }

  lemma MatchesExclusive(s: string, k: nat, a: string, p: nat, b: string)
    requires Exclusive(a, b) && MatchAt(s, k, a) && MatchAt(s, p, b)
    ensures p + |b| <= k || k + |a| <= p
  {
    MatchesAgree(s, k, a, p, b);
    MatchesAgree(s, p, b, k, a);
  }

  /** Replacing `b` keeps every match of an exclusive pattern `a` as it
      was written. */
  lemma SubKeepsExclusiveMatch(s: string, a: string, b: string, rep: string, k: nat)
    requires Exclusive(a, b) && |rep| == |b| && MatchAt(s, k, a)
    ensures Sub(s, b, rep)[k..k + |a|] == s[k..k + |a|]
  {
    var out := Sub(s, b, rep);
    forall j | k <= j < k + |a| ensures out[j] == s[j] {
      forall p: nat | p <= j && j < p + |b| ensures !MatchAt(s, p, b) {
        if MatchAt(s, p, b) {
          MatchesExclusive(s, k, a, p, b);
        }
      }
      ScanKeepsUncovered(s, b, rep, 0, j);
    }
  }

  /** The three contraction patterns. */
  const IM := "i'm"
  const ILL := "i'll"
  const IVE := "i've"

  /** The text after each of the three substitutions that follow
      `text.replace(' i ', ' I ')`. */
  function PronounStages(s: string): (t: (string, string, string))
    ensures |t.0| == |s| && |t.1| == |s| && |t.2| == |s|
  {
    var t1 := Sub(ReplaceSpacedI(s), IM, "I'm");
    var t2 := Sub(t1, ILL, "I'll");
    (t1, t2, Sub(t2, IVE, "I've"))
  }

  /** Where the four pronoun stages change a character of `s`. */
  lemma PronounStagesChanges(s: string)
    ensures var r := PronounStages(s).2;
      && EqualsIgnoringCase(r, s)
      && forall k | 0 <= k < |s| && r[k] != s[k] ::
           SpacedIAt(s, k) || InMatch(s, k, IM) || InMatch(s, k, ILL) || InMatch(s, k, IVE)
  {
    var t0 := ReplaceSpacedI(s);
    var t := PronounStages(s);
    ReplacementsFoldToPatterns();
    ReplaceSpacedIKeepsCaseFold(s);
    CaseFoldTrans(t.0, t0, s);
    CaseFoldTrans(t.1, t.0, s);
    CaseFoldTrans(t.2, t.1, s);
    forall k | 0 <= k < |s| && t.2[k] != s[k]
      ensures SpacedIAt(s, k) || InMatch(s, k, IM) || InMatch(s, k, ILL) || InMatch(s, k, IVE)
    {
      if t0[k] != s[k] {
      } else if t.0[k] != t0[k] {
        CaseFoldKeepsInMatch(t0, s, k, IM);
      } else if t.1[k] != t.0[k] {
        CaseFoldKeepsInMatch(t.0, s, k, ILL);
      } else {
        CaseFoldKeepsInMatch(t.1, s, k, IVE);
      }
    }
  }

  /** `text.replace(' i ', ' I ')` followed by the three contraction fixes:
      only letter case changes, and only at the `i` of a ` i ` or inside a
      whole-word `i'm`, `i'll` or `i've` (in any case) of the text. */
  function FixPronouns(s: string): (r: string)
    ensures |r| == |s|
    ensures EqualsIgnoringCase(r, s)
    ensures forall k | 0 <= k < |s| && r[k] != s[k] ::
              SpacedIAt(s, k) || InMatch(s, k, IM) || InMatch(s, k, ILL) || InMatch(s, k, IVE)
  {
    PronounStagesChanges(s);
    PronounStages(s).2
  }

  lemma ContractionsWordEdged()
    ensures WordEdged(IM) && WordEdged(ILL) && WordEdged(IVE)
  {
  }

  lemma ContractionsNoSelfOverlap()
    ensures NoSelfOverlap(IM) && NoSelfOverlap(ILL) && NoSelfOverlap(IVE)
  {
  }

  lemma ExclusiveImIll()
    ensures Exclusive(IM, ILL)
  {
    assert Lower(IM[2]) != Lower(ILL[2]);
  }

  lemma ExclusiveImIve()
    ensures Exclusive(IM, IVE)
  {
    assert Lower(IM[2]) != Lower(IVE[2]);
  }

  lemma ExclusiveIllIve()
    ensures Exclusive(ILL, IVE)
  {
    assert Lower(ILL[2]) != Lower(IVE[2]);
  }

  /** Each replacement is its pattern up to case. */
  lemma ReplacementsFoldToPatterns()
    ensures EqualsIgnoringCase("I'm", IM) && EqualsIgnoringCase("I'll", ILL)
    ensures EqualsIgnoringCase("I've", IVE)
  {
  }

  /** A whole-word match after a case-only substitution was one before it. */
  lemma MatchSurvivesSub(u: string, pat: string, rep: string, k: nat, w: string)
    requires |pat| > 0 && EqualsIgnoringCase(rep, pat) && MatchAt(Sub(u, pat, rep), k, w)
    ensures MatchAt(u, k, w)
  {
    CaseFoldKeepsMatch(Sub(u, pat, rep), u, k, w);
  }

  /** A later substitution of an exclusive pattern leaves a fixed match of
      `a` as it was. */
  lemma FixSurvivesLaterStage(u: string, a: string, ra: string, b: string, rb: string, k: nat)
    requires |rb| == |b| && EqualsIgnoringCase(rb, b) && Exclusive(a, b)
    requires MatchAt(Sub(u, b, rb), k, a)
    requires MatchAt(u, k, a) ==> u[k..k + |a|] == ra
    ensures Sub(u, b, rb)[k..k + |a|] == ra
  {
    MatchSurvivesSub(u, b, rb, k, a);
    SubKeepsExclusiveMatch(u, a, b, rb, k);
  }

  /** A match of `a` after `a` and then an exclusive `b` were replaced
      reads as `a`'s replacement. */
  lemma FixedThenLater(u: string, a: string, ra: string, b: string, rb: string, k: nat)
    requires WordEdged(a) && NoSelfOverlap(a) && |ra| == |a| && EqualsIgnoringCase(ra, a)
    requires |rb| == |b| && EqualsIgnoringCase(rb, b) && Exclusive(a, b)
    requires MatchAt(Sub(Sub(u, a, ra), b, rb), k, a)
    ensures Sub(Sub(u, a, ra), b, rb)[k..k + |a|] == ra
  {
    var v := Sub(u, a, ra);
    MatchSurvivesSub(v, b, rb, k, a);
    SubLeavesOnlyReplacement(u, a, ra, k);
    FixSurvivesLaterStage(v, a, ra, b, rb, k);
  }

  /** A match of `a` after `a` and then two exclusive patterns were
      replaced reads as `a`'s replacement. */
  lemma FixedThenTwoLater(u: string, a: string, ra: string, b: string, rb: string,
                          c: string, rc: string, k: nat)
    requires WordEdged(a) && NoSelfOverlap(a) && |ra| == |a| && EqualsIgnoringCase(ra, a)
    requires |rb| == |b| && EqualsIgnoringCase(rb, b) && Exclusive(a, b)
    requires |rc| == |c| && EqualsIgnoringCase(rc, c) && Exclusive(a, c)
    requires MatchAt(Sub(Sub(Sub(u, a, ra), b, rb), c, rc), k, a)
    ensures Sub(Sub(Sub(u, a, ra), b, rb), c, rc)[k..k + |a|] == ra
  {
    var v := Sub(Sub(u, a, ra), b, rb);
    MatchSurvivesSub(v, c, rc, k, a);
    FixedThenLater(u, a, ra, b, rb, k);
    FixSurvivesLaterStage(v, a, ra, c, rc, k);
  }

  /** Once the contractions are fixed, every whole-word `i'm` (in any case)
      reads `I'm`, and likewise `I'll` and `I've`. */
  lemma FixPronounsCapitalisesIm(s: string, k: nat)
    requires MatchAt(FixPronouns(s), k, IM)
    ensures FixPronouns(s)[k..k + 3] == "I'm"
  {
    StagesCapitaliseIm(s, k);
  }

  lemma FixPronounsCapitalisesIll(s: string, k: nat)
    requires MatchAt(FixPronouns(s), k, ILL)
    ensures FixPronouns(s)[k..k + 4] == "I'll"
  {
    StagesCapitaliseIll(s, k);
  }

  lemma FixPronounsCapitalisesIve(s: string, k: nat)
    requires MatchAt(FixPronouns(s), k, IVE)
    ensures FixPronouns(s)[k..k + 4] == "I've"
  {
    StagesCapitaliseIve(s, k);
  }

  lemma StagesCapitaliseIm(s: string, k: nat)
    requires MatchAt(PronounStages(s).2, k, IM)
    ensures PronounStages(s).2[k..k + 3] == "I'm"
  {
    ReplacementsFoldToPatterns();
    ContractionsWordEdged();
    ContractionsNoSelfOverlap();
    ExclusiveImIll();
    ExclusiveImIve();
    FixedThenTwoLater(ReplaceSpacedI(s), IM, "I'm", ILL, "I'll", IVE, "I've", k);
  }

  lemma StagesCapitaliseIll(s: string, k: nat)
    requires MatchAt(PronounStages(s).2, k, ILL)
    ensures PronounStages(s).2[k..k + 4] == "I'll"
  {
    var t := PronounStages(s);
    ReplacementsFoldToPatterns();
    ContractionsWordEdged();
    ContractionsNoSelfOverlap();
    ExclusiveIllIve();
    FixedThenLater(t.0, ILL, "I'll", IVE, "I've", k);
  }

  lemma StagesCapitaliseIve(s: string, k: nat)
    requires MatchAt(PronounStages(s).2, k, IVE)
    ensures PronounStages(s).2[k..k + 4] == "I've"
  {
    var t := PronounStages(s);
    ContractionsWordEdged();
    ContractionsNoSelfOverlap();
    SubLeavesOnlyReplacement(t.1, IVE, "I've", k);
  }

  /** The contractions all have an apostrophe second. */
  lemma NoApostropheNoMatch(s: string, pat: string)
    requires |pat| >= 2 && pat[1] == '\'' && '\'' !in s
    ensures forall k: nat :: !MatchAt(s, k, pat)
  {
  }

  /** A text without apostrophes only has its spaced `i` replaced. */
  lemma FixPronounsWithoutApostrophe(s: string)
    requires '\'' !in s
    ensures FixPronouns(s) == ReplaceSpacedI(s)
  {
    var t0 := ReplaceSpacedI(s);
    assert '\'' !in t0 by {
      forall k | 0 <= k < |t0| ensures t0[k] != '\'' {
        assert s[k] in s;
      }
    }
    NoApostropheNoMatch(t0, IM);
    NoApostropheNoMatch(t0, ILL);
    NoApostropheNoMatch(t0, IVE);
  }

  // ---------------------------------------------------------------------
  // Stage 4 and the whole clean-up

  /** `if text and not text[-1] in '.!?': text += '.'`. */
  function EnsureTerminal(s: string): (r: string)
    ensures s != [] ==> r != [] && IsTerminal(r[|r| - 1])
    ensures s == [] ==> r == []
    ensures |s| <= |r| <= |s| + 1 && r[..|s|] == s
  {
    if s != [] && !IsTerminal(s[|s| - 1]) then s + "." else s
  }

  lemma CaseFoldKeepsTerminalPairs(a: string, b: string)
    requires EqualsIgnoringCase(a, b) && NoPair(b, TerminalPair)
    ensures NoPair(a, TerminalPair)
  {
    forall k | 0 <= k < |a| - 1 ensures !PairAt(a, k, TerminalPair) {
      CaseFoldKeepsClass(a[k], b[k]);
      CaseFoldKeepsClass(a[k + 1], b[k + 1]);
      assert !PairAt(b, k, TerminalPair);
    }
  }

  /** Stripping keeps a last character that is not whitespace. */
  lemma {:induction false} StripKeepsLast(e: string)
    requires e != [] && !IsSpace(e[|e| - 1])
    ensures Strip(e) != [] && Strip(e)[|Strip(e)| - 1] == e[|e| - 1]
    decreases |e|
  {
    if IsSpace(e[0]) {
      StripKeepsLast(e[1..]);
    }
  }

  /** The full stop is added only after a character that is not a
      terminator. */
  lemma EnsureTerminalKeepsNoPair(t: string)
    requires NoPair(t, TerminalPair)
    ensures NoPair(EnsureTerminal(t), TerminalPair)
  {
    if t != [] && !IsTerminal(t[|t| - 1]) {
      NoPairConcat(t, ".", TerminalPair);
    }
  }

  /** Stripping a text that ends in a terminator keeps that terminator. */
  lemma StripKeepsTerminalEnd(e: string)
    ensures e != [] && IsTerminal(e[|e| - 1]) ==>
      Strip(e) != [] && IsTerminal(Strip(e)[|Strip(e)| - 1])
  {
    if e != [] && IsTerminal(e[|e| - 1]) {
      StripKeepsLast(e);
    }
  }

  /** `_final_cleanup`: collapse terminator runs, fix the pronoun, add a
      full stop, strip. The result is empty only for an empty text, a
      non-empty result ends in `.`, `!` or `?`, and no two terminators stand
      side by side. */
  function FinalCleanup(text: string): (r: string)
    ensures r == [] <==> text == []
    ensures r != [] ==> IsTerminal(r[|r| - 1])
    ensures NoPair(r, TerminalPair)
    ensures EqualsIgnoringCase(Content(r), Content(text))
  {
    var r := Strip(EnsureTerminal(FixPronouns(CollapseTerminalRuns(text))));
    CleanupStages(text, r);
    r
  }

  /** What the clean-up's stages give: they change letter case, terminators
      and the whitespace at either end, nothing else. */
  lemma CleanupStages(text: string, r: string)
    requires r == Strip(EnsureTerminal(FixPronouns(CollapseTerminalRuns(text))))
    ensures r == [] <==> text == []
    ensures r != [] ==> IsTerminal(r[|r| - 1])
    ensures NoPair(r, TerminalPair)
    ensures EqualsIgnoringCase(Content(r), Content(text))
  {
    var c := CollapseTerminalRuns(text);
    var t := FixPronouns(c);
    var e := EnsureTerminal(t);
    CleanupShape(c, t, e);
    CleanupKeepsContent(text, c, t, e);
  }

  /** The ending and the terminator pairs after the last three stages. */
  lemma CleanupShape(c: string, t: string, e: string)
    requires NoPair(c, TerminalPair) && |t| == |c| && EqualsIgnoringCase(t, c) && e == EnsureTerminal(t)
    ensures Strip(e) == [] <==> c == []
    ensures Strip(e) != [] ==> IsTerminal(Strip(e)[|Strip(e)| - 1])
    ensures NoPair(Strip(e), TerminalPair)
  {
    StripKeepsTerminalEnd(e);
    CaseFoldKeepsTerminalPairs(t, c);
    EnsureTerminalKeepsNoPair(t);
    StripKeepsNoPair(e, TerminalPair);
  }

  /** The content survives the stages up to letter case. */
  lemma CleanupKeepsContent(text: string, c: string, t: string, e: string)
    requires WithoutTerminals(c) == WithoutTerminals(text) && EqualsIgnoringCase(t, c)
    requires e == EnsureTerminal(t)
    ensures EqualsIgnoringCase(Content(Strip(e)), Content(text))
  {
    NonSpaceStrip(e);
    ContentEnsureTerminal(t, e);
    CaseFoldContent(t, c);
    ContentCommutes(c);
    ContentCommutes(text);
  }

  /** A whole-word match in the cleaned text was one, with the same
      characters, in the pronoun-fixed text: the full stop and the stripped
      whitespace are not word characters. */
  lemma CleanedMatchFromFixed(t: string, k: nat, pat: string) returns (j: nat)
    requires WordEdged(pat) && MatchAt(Strip(EnsureTerminal(t)), k, pat)
    ensures MatchAt(t, j, pat)
    ensures Strip(EnsureTerminal(t))[k..k + |pat|] == t[j..j + |pat|]
  {
    var e := EnsureTerminal(t);
    j := MatchInStrip(e, k, pat);
    if e != t {
      assert e == t + ['.'];
      MatchBeforeAppended(t, '.', j, pat);
    }
  }

  /** In the cleaned text every whole-word `i'm` (in any case) reads `I'm`,
      and likewise `I'll` and `I've`: the full stop and the strip add no
      lower-case contraction. */
  lemma FinalCleanupCapitalisesIm(text: string, k: nat)
    requires MatchAt(FinalCleanup(text), k, IM)
    ensures FinalCleanup(text)[k..k + 3] == "I'm"
  {
    var c := CollapseTerminalRuns(text);
    ContractionsWordEdged();
    var j := CleanedMatchFromFixed(FixPronouns(c), k, IM);
    FixPronounsCapitalisesIm(c, j);
  }

  lemma FinalCleanupCapitalisesIll(text: string, k: nat)
    requires MatchAt(FinalCleanup(text), k, ILL)
    ensures FinalCleanup(text)[k..k + 4] == "I'll"
  {
    var c := CollapseTerminalRuns(text);
    ContractionsWordEdged();
    var j := CleanedMatchFromFixed(FixPronouns(c), k, ILL);
    FixPronounsCapitalisesIll(c, j);
  }

  lemma FinalCleanupCapitalisesIve(text: string, k: nat)
    requires MatchAt(FinalCleanup(text), k, IVE)
    ensures FinalCleanup(text)[k..k + 4] == "I've"
  {
    var c := CollapseTerminalRuns(text);
    ContractionsWordEdged();
    var j := CleanedMatchFromFixed(FixPronouns(c), k, IVE);
    FixPronounsCapitalisesIve(c, j);
  }

  lemma ReplaceSpacedIExamples()
    ensures ReplaceSpacedI(" i i ") == " I i "
    ensures ReplaceSpacedI("I i .") == "I I ."
  {
    assert " i i "[..3] == " i ";
    assert " i i "[3..] == "i ";
    assert "I i ."[0] == 'I';
    assert "I i ."[1..] == " i .";
    assert " i ."[..3] == " i ";
    assert " i ."[3..] == ".";
  }

  /** Of three overlapping occurrences the first and the third are raised. */
  lemma ReplaceSpacedIOverlapping(s: string)
    requires s == " i i i "
    ensures ReplaceSpacedI(s) == " I i I "
  {
    var t, u := s[3..], s[4..];
    assert s[..3] == " i ";
    assert t == "i i ";
    assert t[0] == 'i' && t[..3][0] == t[0];
    assert t[1..] == u;
    assert u == " i ";
    assert u[..3] == " i ";
    assert u[3..] == [];
    ReplaceSpacedIStep(s);
    ReplaceSpacedIStep(t);
    ReplaceSpacedIStep(u);
  }

  lemma StripExamples()
    ensures Strip(" I i .") == "I i ."
    ensures Strip("I I .") == "I I ."
  {
    assert " I i ."[1..] == "I i .";
  }

  /** On a text without terminators or apostrophes the clean-up only
      replaces ` i `, adds the full stop and strips. */
  lemma FinalCleanupPlain(s: string)
    requires NoPair(s, TerminalPair) && '\'' !in s
    ensures FinalCleanup(s) == Strip(EnsureTerminal(ReplaceSpacedI(s)))
  {
    CollapseTerminalRunsIdentity(s);
    FixPronounsWithoutApostrophe(s);
  }

  lemma FirstPassReplace(s: string)
    requires s == " i i "
    ensures ReplaceSpacedI(s) == " I i "
  {
    assert s[..3] == " i " && s[3..] == "i ";
    ReplaceSpacedIStep(s);
    assert ReplaceSpacedI(s[3..]) == "i ";
  }

  lemma FirstPassTerminal(t: string)
    requires t == " I i "
    ensures EnsureTerminal(t) == " I i ."
  {
    assert !IsTerminal(t[|t| - 1]);
    assert t + "." == " I i .";
  }

  lemma FirstPassStrip(e: string)
    requires e == " I i ."
    ensures Strip(e) == "I i ."
  {
    assert e[1..] == "I i .";
  }

  lemma FinalCleanupFirstPass(s: string)
    requires s == " i i "
    ensures FinalCleanup(s) == "I i ."
  {
    assert NoPair(s, TerminalPair) && '\'' !in s;
    FinalCleanupPlain(s);
    FirstPassReplace(s);
    FirstPassTerminal(ReplaceSpacedI(s));
    FirstPassStrip(EnsureTerminal(ReplaceSpacedI(s)));
  }

  lemma FinalCleanupSecondPass(s: string)
    requires s == "I i ."
    ensures FinalCleanup(s) == "I I ."
  {
    assert NoPair(s, TerminalPair) && '\'' !in s;
    FinalCleanupPlain(s);
    ReplaceSpacedIExamples();
    StripExamples();
    assert EnsureTerminal("I I .") == "I I .";
  }

  /** The clean-up is not idempotent: in ` i i ` the two occurrences of ` i `
      overlap, so one lower-case `i` survives the first pass and is fixed by
      a second one. */
  lemma FinalCleanupNotIdempotent(s: string)
    requires s == " i i "
    ensures FinalCleanup(FinalCleanup(s)) != FinalCleanup(s)
  {
    FinalCleanupFirstPass(s);
    FinalCleanupSecondPass(FinalCleanup(s));
    PassesDiffer(FinalCleanup(s), FinalCleanup(FinalCleanup(s)));
  }

  lemma PassesDiffer(once: string, twice: string)
    requires once == "I i ." && twice == "I I ."
    ensures twice != once
  {
    assert once[2] != twice[2];
  }
}
