/** Whole-word, case-insensitive search and replace: the regular expression
    `\b` + re.escape(pat) + `\b` with `re.IGNORECASE`, as used by `re.findall`
    and `re.sub` in the filler-word removal and in the pronoun fixes of the
    final cleanup. */
module WholeWord {
  import opened Chars
  import opened Text

  /** Position `k` of `s` holds a word character (outside `s` never does). */
  predicate WordAt(s: string, k: int) {
    0 <= k < |s| && IsWordChar(s[k])
  }

  /** `\b` holds at position `k`: the characters on its two sides differ in
      word class. */
  predicate Boundary(s: string, k: int) {
    WordAt(s, k - 1) != WordAt(s, k)
  }

  /** `\bPAT\b` matches `s` at position `i`, ignoring case. */
  predicate MatchAt(s: string, i: nat, pat: string) {
    i + |pat| <= |s| && Boundary(s, i) && EqualsIgnoringCase(s[i..i + |pat|], pat)
    && Boundary(s, i + |pat|)
  }

  /** `pat` occurs in `s` as a whole word (ignoring case). */
  predicate Occurs(s: string, pat: string) {
    exists i: nat | i <= |s| :: MatchAt(s, i, pat)
  }

  /** A pattern that starts and ends with a word character, as every filler
      word and every contraction fixed by the cleanup does. */
  predicate WordEdged(pat: string) {
    |pat| > 0 && IsWordChar(pat[0]) && IsWordChar(pat[|pat| - 1])
  }

  /** A single word: word characters only. */
  predicate AllWord(w: string) {
    |w| > 0 && forall k | 0 <= k < |w| :: IsWordChar(w[k])
  }

  /** No two whole-word matches of `pat` can overlap: a match cannot start
      inside another one. */
  predicate NoSelfOverlap(pat: string) {
    forall d | 0 < d < |pat| :: IsWordChar(pat[d - 1]) || Lower(pat[d]) != Lower(pat[0])
  }

  /** The scan shared by `re.findall(p, s, re.I)` and `re.sub(p, rep, s, flags=re.I)`
      from position `i` on: leftmost matches, never overlapping, each one
      replaced by `rep`. Returns the rewritten rest of `s` and the matched
      substrings as written. */
  function Scan(s: string, pat: string, rep: string, i: nat): (r: (string, seq<string>))
    requires |pat| > 0 && i <= |s|
    ensures |rep| == |pat| ==> |r.0| == |s| - i
    ensures rep == [] ==> |r.0| <= |s| - i
    decreases |s| - i
  {
    if i == |s| then ([], [])
    else if MatchAt(s, i, pat) then
      var rest := Scan(s, pat, rep, i + |pat|);
      (rep + rest.0, [s[i..i + |pat|]] + rest.1)
    else
      var rest := Scan(s, pat, rep, i + 1);
      ([s[i]] + rest.0, rest.1)
  }

  /** Position `p` lies inside one of the spans of length `n` that start at
      the positions `ps`. */
  predicate Covered(ps: seq<nat>, p: nat, n: nat) {
    exists j | 0 <= j < |ps| :: ps[j] <= p < ps[j] + n
  }

  /** What deleting the spans of length `n` that start at the positions `ps`
      leaves of `s` from position `i` on: every character no span covers,
      in order. */
  function Uncovered(s: string, ps: seq<nat>, n: nat, i: nat): string
    requires i <= |s|
  {
    Concat(UncoveredPieces(s, ps, n, i))
  }

  function UncoveredPieces(s: string, ps: seq<nat>, n: nat, i: nat): (parts: seq<string>)
    requires i <= |s|
    ensures |parts| == |s| - i
  {
    seq(|s| - i, k requires 0 <= k < |s| - i => if Covered(ps, i + k, n) then [] else [s[i + k]])
  }

  /** `found` holds, at the increasing positions `ps`, whole-word matches of
      `pat` in `s` from `from` on that never overlap, each as written in `s`
      (with its own case). */
  predicate Listed(s: string, pat: string, found: seq<string>, ps: seq<nat>, from: nat) {
    && |ps| == |found|
    && (forall j | 0 <= j < |ps| ::
          from <= ps[j] && MatchAt(s, ps[j], pat) && found[j] == s[ps[j]..ps[j] + |pat|])
    && (forall j | 0 <= j < |ps| - 1 :: ps[j] + |pat| <= ps[j + 1])
  }

  /** `found` is what a leftmost scan from `from` on collects: the listed
      matches, and every match from `from` on is one of them or starts
      inside one of them. */
  ghost predicate FoundAt(s: string, pat: string, found: seq<string>, ps: seq<nat>, from: nat) {
    && Listed(s, pat, found, ps, from)
    && (forall p: nat | from <= p && MatchAt(s, p, pat) :: Covered(ps, p, |pat|))
  }

  lemma ListedCons(s: string, pat: string, found: seq<string>, ps: seq<nat>, i: nat)
    requires MatchAt(s, i, pat) && Listed(s, pat, found, ps, i + |pat|)
    ensures Listed(s, pat, [s[i..i + |pat|]] + found, [i] + ps, i)
  {
    var ps', found' := [i] + ps, [s[i..i + |pat|]] + found;
    ListedConsItems(s, pat, found, ps, i, found', ps');
    ListedConsOrder(pat, ps, i, ps');
  }

  lemma ListedConsItems(s: string, pat: string, found: seq<string>, ps: seq<nat>, i: nat,
                        found': seq<string>, ps': seq<nat>)
    requires MatchAt(s, i, pat) && Listed(s, pat, found, ps, i + |pat|)
    requires ps' == [i] + ps && found' == [s[i..i + |pat|]] + found
    ensures forall j | 0 <= j < |ps'| ::
      i <= ps'[j] && MatchAt(s, ps'[j], pat) && found'[j] == s[ps'[j]..ps'[j] + |pat|]
  {
    forall j | 0 <= j < |ps'|
      ensures i <= ps'[j] && MatchAt(s, ps'[j], pat) && found'[j] == s[ps'[j]..ps'[j] + |pat|]
    {
      if j > 0 {
        assert ps'[j] == ps[j - 1] && found'[j] == found[j - 1];
      }
    }
  }

  lemma ListedConsOrder(pat: string, ps: seq<nat>, i: nat, ps': seq<nat>)
    requires forall j | 0 <= j < |ps| :: i + |pat| <= ps[j]
    requires forall j | 0 <= j < |ps| - 1 :: ps[j] + |pat| <= ps[j + 1]
    requires ps' == [i] + ps
    ensures forall j | 0 <= j < |ps'| - 1 :: ps'[j] + |pat| <= ps'[j + 1]
  {
    forall j | 0 <= j < |ps'| - 1 ensures ps'[j] + |pat| <= ps'[j + 1] {
      if j > 0 {
        assert ps'[j] == ps[j - 1] && ps'[j + 1] == ps[j];
      }
    }
  }

  lemma CoveredCons(ps: seq<nat>, i: nat, p: nat, n: nat)
    requires i <= p < i + n || Covered(ps, p, n)
    ensures Covered([i] + ps, p, n)
  {
    var ps' := [i] + ps;
    if i <= p < i + n {
      assert ps'[0] <= p < ps'[0] + n;
    } else {
      var j :| 0 <= j < |ps| && ps[j] <= p < ps[j] + n;
      assert ps'[j + 1] == ps[j];
    }
  }

  lemma FoundAtMatch(s: string, pat: string, rest: seq<string>, ps: seq<nat>, i: nat)
    requires MatchAt(s, i, pat) && FoundAt(s, pat, rest, ps, i + |pat|)
    ensures FoundAt(s, pat, [s[i..i + |pat|]] + rest, [i] + ps, i)
  {
    ListedCons(s, pat, rest, ps, i);
    forall p: nat | i <= p && MatchAt(s, p, pat) ensures Covered([i] + ps, p, |pat|) {
      CoveredCons(ps, i, p, |pat|);
    }
  }

  lemma FoundAtSkip(s: string, pat: string, found: seq<string>, ps: seq<nat>, i: nat)
    requires !MatchAt(s, i, pat) && FoundAt(s, pat, found, ps, i + 1)
    ensures FoundAt(s, pat, found, ps, i)
  {
  }

  lemma FoundFoldsToPattern(s: string, pat: string, found: seq<string>, ps: seq<nat>, i: nat)
    requires Listed(s, pat, found, ps, i)
    ensures forall m | m in found :: EqualsIgnoringCase(m, pat)
  {
    forall m | m in found ensures EqualsIgnoringCase(m, pat) {
      var j :| 0 <= j < |found| && found[j] == m;
      assert MatchAt(s, ps[j], pat);
    }
  }

  /** The scan collects exactly the leftmost non-overlapping matches, in
      text order and as written; each equals the pattern up to case. */
  lemma {:induction false} ScanFindsPattern(s: string, pat: string, rep: string, i: nat)
    requires |pat| > 0 && i <= |s|
    ensures exists ps :: FoundAt(s, pat, Scan(s, pat, rep, i).1, ps, i)
    ensures forall m | m in Scan(s, pat, rep, i).1 :: EqualsIgnoringCase(m, pat)
    decreases |s| - i
  {
    var found := Scan(s, pat, rep, i).1;
    var ps: seq<nat>;
    if i == |s| {
      ps := [];
    } else if MatchAt(s, i, pat) {
      ScanFindsPattern(s, pat, rep, i + |pat|);
      var rest := Scan(s, pat, rep, i + |pat|).1;
      var ps' :| FoundAt(s, pat, rest, ps', i + |pat|);
      FoundAtMatch(s, pat, rest, ps', i);
      ps := [i] + ps';
    } else {
      ScanFindsPattern(s, pat, rep, i + 1);
      ps :| FoundAt(s, pat, found, ps, i + 1);
      FoundAtSkip(s, pat, found, ps, i);
    }
    assert FoundAt(s, pat, found, ps, i);
    FoundFoldsToPattern(s, pat, found, ps, i);
  }

  /** Found items are nothing but matches, and every match is found or
      inside a found one: so nothing is found exactly when there is no
      match. */
  lemma FoundAtEmptyIffAbsent(s: string, pat: string, found: seq<string>, ps: seq<nat>)
    requires |pat| > 0 && FoundAt(s, pat, found, ps, 0)
    ensures found == [] <==> !Occurs(s, pat)
  {
    if Occurs(s, pat) {
      var k: nat :| k <= |s| && MatchAt(s, k, pat);
      assert Covered(ps, k, |pat|);
    }
    if found != [] {
      assert MatchAt(s, ps[0], pat);
    }
  }

  lemma ScanFindsNothingIffAbsent(s: string, pat: string)
    requires |pat| > 0
    ensures Scan(s, pat, [], 0).1 == [] <==> !Occurs(s, pat)
  {
    ScanFindsPattern(s, pat, [], 0);
    var ps :| FoundAt(s, pat, Scan(s, pat, [], 0).1, ps, 0);
    FoundAtEmptyIffAbsent(s, pat, Scan(s, pat, [], 0).1, ps);
  }

  /** `pat` matches as a whole word somewhere over position `k` of `s`. */
  predicate InMatch(s: string, k: nat, pat: string) {
    exists p: nat | p <= k < p + |pat| :: MatchAt(s, p, pat)
  }

  /** The scan leaves a character alone when no match covers it. */
  lemma {:induction false} ScanKeepsUncovered(s: string, pat: string, rep: string, i: nat, k: nat)
    requires |pat| > 0 && |rep| == |pat| && i <= k < |s|
    requires forall p: nat | i <= p <= k && k < p + |pat| :: !MatchAt(s, p, pat)
    ensures Scan(s, pat, rep, i).0[k - i] == s[k]
    decreases |s| - i
  {
    var out := Scan(s, pat, rep, i).0;
    if MatchAt(s, i, pat) {
      var tail := Scan(s, pat, rep, i + |pat|).0;
      assert out == rep + tail;
      ScanKeepsUncovered(s, pat, rep, i + |pat|, k);
    } else {
      var tail := Scan(s, pat, rep, i + 1).0;
      assert out == [s[i]] + tail;
      if k > i {
        ScanKeepsUncovered(s, pat, rep, i + 1, k);
      }
    }
  }

  /** What a whole scan does to the text: a replacement of the pattern's
      length keeps the length and touches only matched characters, no match
      leaves the text as it is, and a replacement equal to the pattern up to
      case changes nothing but case. */
  lemma ScanRewrites(s: string, pat: string, rep: string)
    requires |pat| > 0
    ensures var r := Scan(s, pat, rep, 0).0;
      && (|rep| == |pat| ==> |r| == |s|)
      && (!Occurs(s, pat) ==> r == s)
      && (|rep| == |pat| ==> forall k | 0 <= k < |s| && r[k] != s[k] :: InMatch(s, k, pat))
      && (EqualsIgnoringCase(rep, pat) ==> EqualsIgnoringCase(r, s))
  {
    var r := Scan(s, pat, rep, 0).0;
    if !Occurs(s, pat) {
      ScanWithoutMatchIsIdentity(s, pat, rep, 0);
      assert s[0..] == s;
    }
    if |rep| == |pat| {
      forall k | 0 <= k < |s| && r[k] != s[k] ensures InMatch(s, k, pat) {
        if !InMatch(s, k, pat) {
          ScanKeepsUncovered(s, pat, rep, 0, k);
        }
      }
    }
    if EqualsIgnoringCase(rep, pat) {
      ScanKeepsCaseFold(s, pat, rep, 0);
    }
  }

  /** `re.findall(r'\b' + re.escape(pat) + r'\b', s, re.IGNORECASE)`: every
      item equals the pattern up to case, and nothing is found exactly when
      the pattern does not occur (`FindAllAsWritten` says which items). */
  function FindAll(s: string, pat: string): (found: seq<string>)
    requires |pat| > 0
    ensures forall m | m in found :: EqualsIgnoringCase(m, pat)
    ensures found == [] <==> !Occurs(s, pat)
  {
    ScanFindsPattern(s, pat, [], 0);
    ScanFindsNothingIffAbsent(s, pat);
    Scan(s, pat, [], 0).1
  }

  /** `re.findall` reports the leftmost non-overlapping whole-word matches,
      in text order and as written in `s` (with their own case). */
  lemma FindAllAsWritten(s: string, pat: string)
    requires |pat| > 0
    ensures exists ps :: FoundAt(s, pat, FindAll(s, pat), ps, 0)
  {
    ScanFindsPattern(s, pat, [], 0);
    var ps :| FoundAt(s, pat, Scan(s, pat, [], 0).1, ps, 0);
    assert FoundAt(s, pat, FindAll(s, pat), ps, 0);
  }

  /** `re.sub(r'\b' + re.escape(pat) + r'\b', rep, s, flags=re.IGNORECASE)`:
      with no match the text comes back as it is; a replacement as long as
      the pattern keeps the length and changes only characters inside a
      match, and one equal to the pattern up to case changes only case. An
      empty replacement deletes exactly the matches `re.findall` reports and
      keeps every other character, in order. */
  function Sub(s: string, pat: string, rep: string): (r: string)
    requires |pat| > 0
    ensures !Occurs(s, pat) ==> r == s
    ensures |rep| == |pat| ==> |r| == |s|
    ensures |rep| == |pat| ==> forall k | 0 <= k < |s| && r[k] != s[k] :: InMatch(s, k, pat)
    ensures EqualsIgnoringCase(rep, pat) ==> EqualsIgnoringCase(r, s)
    ensures rep == [] ==> exists ps :: RemovedAt(s, pat, FindAll(s, pat), r, ps, 0)
  {
    ScanRewrites(s, pat, rep);
    SubRemoves(s, pat, rep, Scan(s, pat, rep, 0).0);
    Scan(s, pat, rep, 0).0
  }

  lemma SubRemoves(s: string, pat: string, rep: string, r: string)
    requires |pat| > 0 && r == Scan(s, pat, rep, 0).0
    ensures rep == [] ==> exists ps :: RemovedAt(s, pat, FindAll(s, pat), r, ps, 0)
  {
    if rep == [] {
      ScanRemovesFound(s, pat, 0);
      var ps :| RemovedAt(s, pat, Scan(s, pat, [], 0).1, Scan(s, pat, [], 0).0, ps, 0);
      assert RemovedAt(s, pat, FindAll(s, pat), r, ps, 0);
    }
  }

  /** Removal shortens the text by exactly the length of what was found, so
      the text is unchanged exactly when nothing was found. */
  lemma {:induction false} ScanRemovalLength(s: string, pat: string, i: nat)
    requires |pat| > 0 && i <= |s|
    ensures |Scan(s, pat, [], i).0| + |Concat(Scan(s, pat, [], i).1)| == |s| - i
    ensures Scan(s, pat, [], i).1 == [] <==> Scan(s, pat, [], i).0 == s[i..]
    ensures Scan(s, pat, [], i).1 != [] ==> |Scan(s, pat, [], i).0| < |s| - i
    decreases |s| - i
  {
    var r := Scan(s, pat, [], i);
    if i < |s| {
      if MatchAt(s, i, pat) {
        var rest := Scan(s, pat, [], i + |pat|);
        ScanRemovalLength(s, pat, i + |pat|);
        var m := s[i..i + |pat|];
        assert r.1 == [m] + rest.1;
        assert ([m] + rest.1)[1..] == rest.1;
        assert Concat(r.1) == m + Concat(rest.1);
      } else {
        ScanRemovalLength(s, pat, i + 1);
        assert s[i..] == [s[i]] + s[i + 1..];
      }
    }
  }

  /** Removing the matches of `pat` in `s` from `from` on turns the rest of
      `s` into `out`: `found` lists them at the positions `ps`, and `out`
      keeps every character they do not cover, in order. */
  ghost predicate RemovedAt(s: string, pat: string, found: seq<string>, out: string, ps: seq<nat>, from: nat)
    requires from <= |s|
  {
    FoundAt(s, pat, found, ps, from) && out == Uncovered(s, ps, |pat|, from)
  }

  /** Removal deletes exactly the matches the scan reports and keeps every
      other character, in order. */
  lemma {:induction false} ScanRemovesFound(s: string, pat: string, i: nat)
    requires |pat| > 0 && i <= |s|
    ensures exists ps :: RemovedAt(s, pat, Scan(s, pat, [], i).1, Scan(s, pat, [], i).0, ps, i)
    decreases |s| - i
  {
    var r := Scan(s, pat, [], i);
    if i == |s| {
      assert UncoveredPieces(s, [], |pat|, i) == [];
      assert RemovedAt(s, pat, r.1, r.0, [], i);
    } else if MatchAt(s, i, pat) {
      ScanRemovesFound(s, pat, i + |pat|);
      var rest := Scan(s, pat, [], i + |pat|);
      var ps :| RemovedAt(s, pat, rest.1, rest.0, ps, i + |pat|);
      RemovedAtMatch(s, pat, rest.1, rest.0, ps, i);
      assert r == ([] + rest.0, [s[i..i + |pat|]] + rest.1);
      assert [] + rest.0 == rest.0;
    } else {
      ScanRemovesFound(s, pat, i + 1);
      var rest := Scan(s, pat, [], i + 1);
      var ps :| RemovedAt(s, pat, rest.1, rest.0, ps, i + 1);
      RemovedAtSkip(s, pat, rest.1, rest.0, ps, i);
      assert r == ([s[i]] + rest.0, rest.1);
    }
  }

  lemma RemovedAtMatch(s: string, pat: string, found: seq<string>, out: string, ps: seq<nat>, i: nat)
    requires |pat| > 0 && MatchAt(s, i, pat) && RemovedAt(s, pat, found, out, ps, i + |pat|)
    ensures RemovedAt(s, pat, [s[i..i + |pat|]] + found, out, [i] + ps, i)
  {
    FoundAtMatch(s, pat, found, ps, i);
    UncoveredAtMatch(s, ps, |pat|, i);
  }

  lemma RemovedAtSkip(s: string, pat: string, found: seq<string>, out: string, ps: seq<nat>, i: nat)
    requires i < |s| && !MatchAt(s, i, pat) && RemovedAt(s, pat, found, out, ps, i + 1)
    ensures RemovedAt(s, pat, found, [s[i]] + out, ps, i)
  {
    FoundAtSkip(s, pat, found, ps, i);
    UncoveredAtSkip(s, ps, |pat|, i);
  }

  /** A span starting at `i` deletes the next `n` characters. */
  lemma UncoveredAtMatch(s: string, ps: seq<nat>, n: nat, i: nat)
    requires 0 < n && i + n <= |s|
    requires forall j | 0 <= j < |ps| :: i + n <= ps[j]
    ensures Uncovered(s, [i] + ps, n, i) == Uncovered(s, ps, n, i + n)
  {
    var ps' := [i] + ps;
    var parts := UncoveredPieces(s, ps', n, i);
    forall k | 0 <= k < n ensures parts[k] == [] {
      assert ps'[0] == i;
      assert Covered(ps', i + k, n);
    }
    ConcatRun(parts, n);
    var tail := UncoveredPieces(s, ps, n, i + n);
    forall k | 0 <= k < |tail| ensures parts[n..][k] == tail[k] {
      var p := i + n + k;
      if Covered(ps, p, n) {
        var j :| 0 <= j < |ps| && ps[j] <= p < ps[j] + n;
        assert ps'[j + 1] == ps[j];
      }
      if Covered(ps', p, n) {
        var j :| 0 <= j < |ps'| && ps'[j] <= p < ps'[j] + n;
        assert j > 0 && ps'[j] == ps[j - 1];
      }
    }
    assert parts[n..] == tail;
  }

  /** A character before every span is kept. */
  lemma UncoveredAtSkip(s: string, ps: seq<nat>, n: nat, i: nat)
    requires i < |s|
    requires forall j | 0 <= j < |ps| :: i + 1 <= ps[j]
    ensures Uncovered(s, ps, n, i) == [s[i]] + Uncovered(s, ps, n, i + 1)
  {
    var parts := UncoveredPieces(s, ps, n, i);
    assert !Covered(ps, i, n);
    assert parts[0] == [s[i]];
    ConcatFrom(parts, 0);
    assert parts[0..] == parts;
    var tail := UncoveredPieces(s, ps, n, i + 1);
    forall k | 0 <= k < |tail| ensures parts[1..][k] == tail[k] {
      assert parts[1..][k] == parts[k + 1];
    }
    assert parts[1..] == tail;
  }

  /** No span deletes nothing. */
  lemma {:induction false} UncoveredNone(s: string, n: nat, i: nat)
    requires i <= |s|
    ensures Uncovered(s, [], n, i) == s[i..]
    decreases |s| - i
  {
    if i == |s| {
      assert UncoveredPieces(s, [], n, i) == [];
    } else {
      UncoveredAtSkip(s, [], n, i);
      UncoveredNone(s, n, i + 1);
      assert s[i..] == [s[i]] + s[i + 1..];
    }
  }

  /** With no match from `i` on, the scan copies the rest of the text. */
  lemma {:induction false} ScanWithoutMatchIsIdentity(s: string, pat: string, rep: string, i: nat)
    requires |pat| > 0 && i <= |s|
    requires forall k: nat | i <= k <= |s| :: !MatchAt(s, k, pat)
    ensures Scan(s, pat, rep, i).0 == s[i..]
    decreases |s| - i
  {
    if i < |s| {
      ScanWithoutMatchIsIdentity(s, pat, rep, i + 1);
      assert s[i..] == [s[i]] + s[i + 1..];
    }
  }

  // ---------------------------------------------------------------------
  // Matches and the characters around them

  lemma MatchEdges(s: string, i: nat, pat: string)
    requires WordEdged(pat) && MatchAt(s, i, pat)
    ensures IsWordChar(s[i]) && IsWordChar(s[i + |pat| - 1])
    ensures !WordAt(s, i - 1) && !WordAt(s, i + |pat|)
  {
    assert s[i..i + |pat|][0] == s[i];
    assert s[i..i + |pat|][|pat| - 1] == s[i + |pat| - 1];
    CaseFoldKeepsClass(s[i], pat[0]);
    CaseFoldKeepsClass(s[i + |pat| - 1], pat[|pat| - 1]);
  }

  /** `w` matches at `j` of `t`, looking only at what follows the match. */
  predicate PrefixMatch(t: string, j: nat, w: string) {
    j + |w| <= |t| && EqualsIgnoringCase(t[j..j + |w|], w) && !WordAt(t, j + |w|)
  }

  lemma PrefixMatchStartsWithWord(t: string, j: nat, w: string)
    requires AllWord(w) && PrefixMatch(t, j, w)
    ensures WordAt(t, j)
  {
    assert t[j..j + |w|][0] == t[j];
    CaseFoldKeepsClass(t[j], w[0]);
  }

  lemma MatchAsPrefix(t: string, j: nat, w: string)
    requires AllWord(w)
    ensures MatchAt(t, j, w) <==> !WordAt(t, j - 1) && PrefixMatch(t, j, w)
  {
    if j + |w| <= |t| && EqualsIgnoringCase(t[j..j + |w|], w) {
      assert t[j..j + |w|][0] == t[j];
      assert t[j..j + |w|][|w| - 1] == t[j + |w| - 1];
      CaseFoldKeepsClass(t[j], w[0]);
      CaseFoldKeepsClass(t[j + |w| - 1], w[|w| - 1]);
    }
  }

  lemma ShiftPrefix(a: string, u: string, j: nat, w: string)
    ensures PrefixMatch(a + u, |a| + j, w) <==> PrefixMatch(u, j, w)
  {
    if j + |w| <= |u| {
      assert (a + u)[|a| + j..|a| + j + |w|] == u[j..j + |w|];
    }
  }

  /** Putting `a` in front of `u` neither creates nor destroys a match of a
      single word, unless the match sits right after a word character of `a`. */
  lemma MatchShift(a: string, u: string, j: nat, w: string)
    requires AllWord(w)
    requires j >= 1 || a == [] || !IsWordChar(a[|a| - 1])
    ensures MatchAt(a + u, |a| + j, w) <==> MatchAt(u, j, w)
  {
    MatchAsPrefix(a + u, |a| + j, w);
    MatchAsPrefix(u, j, w);
    ShiftPrefix(a, u, j, w);
    if j >= 1 {
      assert WordAt(a + u, |a| + j - 1) == WordAt(u, j - 1);
    }
  }

  /** Appending text that starts with a non-word character keeps every match. */
  lemma MatchExtend(t: string, b: string, k: nat, w: string)
    requires AllWord(w) && MatchAt(t, k, w)
    requires b == [] || !IsWordChar(b[0])
    ensures MatchAt(t + b, k, w)
  {
    MatchAsPrefix(t, k, w);
    MatchAsPrefix(t + b, k, w);
    assert (t + b)[k..k + |w|] == t[k..k + |w|];
    assert WordAt(t + b, k - 1) == WordAt(t, k - 1);
  }

  // ---------------------------------------------------------------------
  // Removal (replacement by the empty string) never creates a single-word match

  lemma ScanAtNonWord(s: string, pat: string, i: nat)
    requires WordEdged(pat) && i < |s| && !IsWordChar(s[i])
    ensures Scan(s, pat, [], i).0 == [s[i]] + Scan(s, pat, [], i + 1).0
  {
    if MatchAt(s, i, pat) {
      MatchEdges(s, i, pat);
    }
  }

  /** What follows a removed match is empty or starts with a non-word character. */
  lemma ScanAfterMatch(s: string, pat: string, i: nat)
    requires WordEdged(pat) && MatchAt(s, i, pat)
    ensures var out := Scan(s, pat, [], i).0; out == [] || !IsWordChar(out[0])
  {
    MatchEdges(s, i, pat);
    var e := i + |pat|;
    if e < |s| {
      ScanAtNonWord(s, pat, e);
    }
  }

  /** A single word at the front of the rewritten text was already there, with
      the same right boundary, in the original text. */
  lemma {:induction false} RemovalPrefixTransfer(s: string, pat: string, i: nat, w: string)
    requires WordEdged(pat) && AllWord(w) && i <= |s|
    requires PrefixMatch(Scan(s, pat, [], i).0, 0, w)
    ensures PrefixMatch(s, i, w)
    decreases |s| - i
  {
    var out := Scan(s, pat, [], i).0;
    PrefixMatchStartsWithWord(out, 0, w);
    if i == |s| {
    } else if MatchAt(s, i, pat) {
      ScanAfterMatch(s, pat, i);
    } else {
      var tail := Scan(s, pat, [], i + 1).0;
      assert out == [s[i]] + tail;
      assert out[0..|w|][0] == s[i];
      if |w| == 1 {
        assert s[i..i + 1] == [s[i]];
      } else {
        assert tail[0..|w| - 1] == out[1..|w|];
        assert PrefixMatch(tail, 0, w[1..]);
        RemovalPrefixTransfer(s, pat, i + 1, w[1..]);
        assert s[i..i + |w|] == [s[i]] + s[i + 1..i + 1 + |w[1..]|];
      }
    }
  }

  lemma {:induction false} RemovalNoInnerMatch(s: string, pat: string, i: nat, w: string)
    requires WordEdged(pat) && AllWord(w) && i <= |s|
    requires forall j: nat | i < j :: MatchAt(s, j, w) ==> MatchAt(s, j, pat)
    ensures forall k: nat | 1 <= k :: !MatchAt(Scan(s, pat, [], i).0, k, w)
    decreases |s| - i
  {
    if i == |s| {
    } else if MatchAt(s, i, pat) {
      var rest := Scan(s, pat, [], i + |pat|).0;
      RemovalNoInnerMatch(s, pat, i + |pat|, w);
      RemovalNoInnerMatchSkipped(s, pat, i, w, rest);
    } else {
      var tail := Scan(s, pat, [], i + 1).0;
      RemovalNoInnerMatch(s, pat, i + 1, w);
      RemovalNoInnerMatchKept(s, pat, i, w, tail);
    }
  }

  /** A removed match leaves the rewritten rest as it is. */
  lemma RemovalNoInnerMatchSkipped(s: string, pat: string, i: nat, w: string, rest: string)
    requires WordEdged(pat) && i <= |s| && MatchAt(s, i, pat)
    requires rest == Scan(s, pat, [], i + |pat|).0
    requires forall k: nat | 1 <= k :: !MatchAt(rest, k, w)
    ensures forall k: nat | 1 <= k :: !MatchAt(Scan(s, pat, [], i).0, k, w)
  {
    assert Scan(s, pat, [], i).0 == rest;
  }

  /** A kept character in front of a rewritten tail with no inner match
      starts no inner match either. */
  lemma RemovalNoInnerMatchKept(s: string, pat: string, i: nat, w: string, tail: string)
    requires WordEdged(pat) && AllWord(w) && i < |s| && !MatchAt(s, i, pat)
    requires forall j: nat | i < j :: MatchAt(s, j, w) ==> MatchAt(s, j, pat)
    requires tail == Scan(s, pat, [], i + 1).0
    requires forall k: nat | 1 <= k :: !MatchAt(tail, k, w)
    ensures forall k: nat | 1 <= k :: !MatchAt(Scan(s, pat, [], i).0, k, w)
  {
    assert Scan(s, pat, [], i).0 == [s[i]] + tail;
    RemovalNoMatchAfterKept(s, pat, i, w);
    InnerAbsenceOfPrefixed([s[i]], tail, w);
  }

  lemma RemovalPrefixTransferFrom(s: string, pat: string, i: nat, w: string)
    requires WordEdged(pat) && AllWord(w) && i <= |s|
    ensures PrefixMatch(Scan(s, pat, [], i).0, 0, w) ==> PrefixMatch(s, i, w)
  {
    if PrefixMatch(Scan(s, pat, [], i).0, 0, w) {
      RemovalPrefixTransfer(s, pat, i, w);
    }
  }

  /** Nothing that starts with a non-word character begins with a word. */
  lemma PrefixMatchNeedsWordStart(t: string, w: string)
    requires AllWord(w) && (t == [] || !IsWordChar(t[0]))
    ensures !PrefixMatch(t, 0, w)
  {
    if t != [] && |w| <= |t| && EqualsIgnoringCase(t[0..|w|], w) {
      assert t[0..|w|][0] == t[0];
      CaseFoldKeepsClass(t[0], w[0]);
    }
  }

  /** When the character at `i` is kept, no match of `w` starts right after
      it in the rewritten text. */
  lemma RemovalNoMatchAfterKept(s: string, pat: string, i: nat, w: string)
    requires WordEdged(pat) && AllWord(w) && i < |s| && !MatchAt(s, i, pat)
    requires forall j: nat | i < j :: MatchAt(s, j, w) ==> MatchAt(s, j, pat)
    ensures !MatchAt([s[i]] + Scan(s, pat, [], i + 1).0, 1, w)
  {
    var tail := Scan(s, pat, [], i + 1).0;
    var out := [s[i]] + tail;
    MatchAsPrefix(out, 1, w);
    ShiftPrefix([s[i]], tail, 0, w);
    RemovalPrefixTransferFrom(s, pat, i + 1, w);
    MatchAsPrefix(s, i + 1, w);
    assert WordAt(out, 0) == WordAt(s, i);
    if MatchAt(s, i + 1, pat) {
      ScanAfterMatch(s, pat, i + 1);
      PrefixMatchNeedsWordStart(tail, w);
    }
  }

  /** Removing every whole-word match of `pat` leaves no whole-word match of
      a single word `w` that was, wherever it occurred, also a match of `pat`.
      In particular: removing a single word removes all of its whole-word
      occurrences, and removing anything never creates an occurrence of a
      single word that did not occur before. */
  lemma RemovalLeavesNoMatch(s: string, pat: string, w: string)
    requires WordEdged(pat) && AllWord(w)
    requires forall j: nat :: MatchAt(s, j, w) ==> MatchAt(s, j, pat)
    ensures !Occurs(Sub(s, pat, []), w)
  {
    var out := Sub(s, pat, []);
    RemovalNoInnerMatch(s, pat, 0, w);
    if MatchAt(out, 0, w) {
      MatchAsPrefix(out, 0, w);
      RemovalPrefixTransfer(s, pat, 0, w);
      MatchAsPrefix(s, 0, w);
      ScanAfterMatch(s, pat, 0);
    }
  }

  lemma RemovalErasesWord(s: string, w: string)
    requires AllWord(w)
    ensures !Occurs(Sub(s, w, []), w)
  {
    RemovalLeavesNoMatch(s, w, w);
  }

  lemma RemovalKeepsAbsence(s: string, pat: string, w: string)
    requires WordEdged(pat) && AllWord(w) && !Occurs(s, w)
    ensures !Occurs(Sub(s, pat, []), w)
  {
    RemovalLeavesNoMatch(s, pat, w);
  }

  // ---------------------------------------------------------------------
  // Whitespace collapse and strip never create a single-word match

  /** A single word at the front of `[c] + t`, seen one character at a time. */
  lemma PrefixMatchCons(c: char, t: string, w: string)
    requires AllWord(w)
    ensures |w| == 1 ==> (PrefixMatch([c] + t, 0, w) <==> Lower(c) == Lower(w[0]) && !WordAt(t, 0))
    ensures |w| > 1 ==>
              (PrefixMatch([c] + t, 0, w) <==> Lower(c) == Lower(w[0]) && PrefixMatch(t, 0, w[1..]))
  {
    var s := [c] + t;
    if |w| <= |s| {
      assert s[0..|w|] == [c] + t[0..|w| - 1];
      assert WordAt(s, |w|) == WordAt(t, |w| - 1);
      if |w| > 1 && Lower(c) == Lower(w[0]) && EqualsIgnoringCase(t[0..|w| - 1], w[1..]) {
        forall k | 0 <= k < |w| ensures Lower(s[0..|w|][k]) == Lower(w[k]) {
          if k > 0 {
            assert s[0..|w|][k] == t[0..|w| - 1][k - 1];
          }
        }
      }
      if EqualsIgnoringCase(s[0..|w|], w) {
        forall k | 0 <= k < |w| - 1 ensures Lower(t[0..|w| - 1][k]) == Lower(w[1..][k]) {
          assert s[0..|w|][k + 1] == t[0..|w| - 1][k];
        }
      }
    }
  }

  lemma CollapseAtNonSpace(s: string)
    requires s != [] && !IsSpace(s[0])
    ensures CollapseWhitespace(s) == [s[0]] + CollapseWhitespace(s[1..])
  {
  }

  lemma CollapseAtSpace(s: string)
    requires s != [] && IsSpace(s[0])
    ensures CollapseWhitespace(s) == " " + CollapseWhitespace(s[LeadingSpaces(s)..])
  {
  }

  lemma {:induction false} CollapsePrefixTransfer(s: string, w: string)
    requires AllWord(w) && PrefixMatch(CollapseWhitespace(s), 0, w)
    ensures PrefixMatch(s, 0, w)
    decreases |s|
  {
    CollapseBeforeWord(s, w);
    CollapseAtNonSpace(s);
    var tail := CollapseWhitespace(s[1..]);
    if |w| > 1 && PrefixMatch(tail, 0, w[1..]) {
      CollapsePrefixTransfer(s[1..], w[1..]);
    }
    PrefixTransferStep(s, tail, w);
  }

  /** A collapsed text that starts with a word came from a text starting
      with a non-space character. */
  lemma CollapseBeforeWord(s: string, w: string)
    requires AllWord(w) && PrefixMatch(CollapseWhitespace(s), 0, w)
    ensures s != [] && !IsSpace(s[0])
  {
    var out := CollapseWhitespace(s);
    PrefixMatchStartsWithWord(out, 0, w);
    WordCharNotSpace(out[0]);
    assert s != [];
  }

  lemma WordCharNotSpace(c: char)
    requires IsWordChar(c)
    ensures !IsSpace(c)
  {
  }

  /** A single word at the front of `[s[0]] + tail` is at the front of `s`
      when the rest of it, or the boundary after it, carries over from
      `tail` to `s[1..]`. */
  lemma PrefixTransferStep(s: string, tail: string, w: string)
    requires AllWord(w) && s != [] && PrefixMatch([s[0]] + tail, 0, w)
    requires |w| > 1 && PrefixMatch(tail, 0, w[1..]) ==> PrefixMatch(s[1..], 0, w[1..])
    requires WordAt(s[1..], 0) ==> WordAt(tail, 0)
    ensures PrefixMatch(s, 0, w)
  {
    PrefixMatchCons(s[0], tail, w);
    PrefixMatchCons(s[0], s[1..], w);
    assert s == [s[0]] + s[1..];
  }

  /** The collapse turns the first character, or the first run of
      whitespace, into one character of the same word class. */
  lemma CollapseFront(s: string) returns (n: nat, head: string)
    requires s != []
    ensures 1 <= n <= |s| && |head| == 1
    ensures CollapseWhitespace(s) == head + CollapseWhitespace(s[n..])
    ensures IsWordChar(s[n - 1]) == IsWordChar(head[0])
  {
    if IsSpace(s[0]) {
      n, head := LeadingSpaces(s), " ";
      CollapseAtSpace(s);
    } else {
      n, head := 1, [s[0]];
      CollapseAtNonSpace(s);
    }
  }

  lemma {:induction false} CollapseNoInnerMatch(s: string, w: string)
    requires AllWord(w)
    requires forall j: nat | 1 <= j :: !MatchAt(s, j, w)
    ensures forall k: nat | 1 <= k :: !MatchAt(CollapseWhitespace(s), k, w)
    decreases |s|
  {
    if s != [] {
      var n, head := CollapseFront(s);
      var pre, rest := s[..n], s[n..];
      var tail := CollapseWhitespace(rest);
      assert s == pre + rest;
      assert pre[|pre| - 1] == s[n - 1];
      InnerAbsenceOfSuffix(pre, rest, w);
      CollapseNoInnerMatch(rest, w);
      if PrefixMatch(tail, 0, w) {
        CollapsePrefixTransfer(rest, w);
      }
      NoInnerMatchStep(pre, rest, head, tail, w);
    }
  }

  /** One step of the collapse: `pre` becomes the one-character `head` of
      the same word class and `rest` becomes `tail`, which has no inner
      match and keeps a single word at its front only from `rest`. */
  lemma NoInnerMatchStep(pre: string, rest: string, head: string, tail: string, w: string)
    requires AllWord(w) && |pre| >= 1 && |head| == 1
    requires IsWordChar(pre[|pre| - 1]) == IsWordChar(head[0])
    requires forall j: nat | 1 <= j :: !MatchAt(pre + rest, j, w)
    requires forall k: nat | 1 <= k :: !MatchAt(tail, k, w)
    requires PrefixMatch(tail, 0, w) ==> PrefixMatch(rest, 0, w)
    ensures forall k: nat | 1 <= k :: !MatchAt(head + tail, k, w)
  {
    assert !MatchAt(pre + rest, |pre|, w);
    NoMatchAfterHead(pre, rest, head, tail, w);
    InnerAbsenceOfPrefixed(head, tail, w);
  }

  /** A match of a single word strictly inside `rest` is a match strictly
      inside `pre + rest`. */
  lemma InnerAbsenceOfSuffix(pre: string, rest: string, w: string)
    requires AllWord(w) && |pre| >= 1
    requires forall j: nat | 1 <= j :: !MatchAt(pre + rest, j, w)
    ensures forall j: nat | 1 <= j :: !MatchAt(rest, j, w)
  {
    forall j: nat | 1 <= j ensures !MatchAt(rest, j, w) {
      MatchShift(pre, rest, j, w);
    }
  }

  /** With no match strictly inside `tail` and none right after the
      one-character `head`, there is none strictly inside `head + tail`. */
  lemma InnerAbsenceOfPrefixed(head: string, tail: string, w: string)
    requires AllWord(w) && |head| == 1
    requires forall k: nat | 1 <= k :: !MatchAt(tail, k, w)
    requires !MatchAt(head + tail, 1, w)
    ensures forall k: nat | 1 <= k :: !MatchAt(head + tail, k, w)
  {
    forall k: nat | 1 < k ensures !MatchAt(head + tail, k, w) {
      MatchShift(head, tail, k - 1, w);
    }
  }

  /** A rewrite that turns `pre + rest` into `head + tail`, where `pre` and
      `head` end in characters of the same word class and a single word at the
      front of `tail` was already at the front of `rest`, starts no match right
      after `head` unless there was one right after `pre`. */
  lemma NoMatchAfterHead(pre: string, rest: string, head: string, tail: string, w: string)
    requires AllWord(w) && |pre| >= 1 && |head| >= 1
    requires IsWordChar(pre[|pre| - 1]) == IsWordChar(head[|head| - 1])
    requires PrefixMatch(tail, 0, w) ==> PrefixMatch(rest, 0, w)
    requires !MatchAt(pre + rest, |pre|, w)
    ensures !MatchAt(head + tail, |head|, w)
  {
    if MatchAt(head + tail, |head|, w) {
      MatchAsPrefix(head + tail, |head|, w);
      assert (head + tail)[|head| - 1] == head[|head| - 1];
      ShiftPrefix(head, tail, 0, w);
      ShiftPrefix(pre, rest, 0, w);
      MatchAsPrefix(pre + rest, |pre|, w);
    }
  }

  lemma CollapseKeepsAbsence(s: string, w: string)
    requires AllWord(w) && !Occurs(s, w)
    ensures !Occurs(CollapseWhitespace(s), w)
  {
    var out := CollapseWhitespace(s);
    CollapseNoInnerMatch(s, w);
    if MatchAt(out, 0, w) {
      MatchAsPrefix(out, 0, w);
      CollapsePrefixTransfer(s, w);
      MatchAsPrefix(s, 0, w);
    }
  }

  /** A single word that does not occur in `s` does not occur in the piece
      `s[i..j]` when the piece is cut out at non-word characters. */
  lemma InfixKeepsAbsence(s: string, i: nat, j: nat, w: string)
    requires AllWord(w) && !Occurs(s, w) && i <= j <= |s|
    requires i == 0 || !IsWordChar(s[i - 1])
    requires j == |s| || !IsWordChar(s[j])
    ensures !Occurs(s[i..j], w)
  {
    var left, r, right := s[..i], s[i..j], s[j..];
    SplitAround(s, i, j);
    forall k: nat | k <= |r| ensures !MatchAt(r, k, w) {
      MatchShift(left, r + right, k, w);
      if MatchAt(r, k, w) {
        MatchExtend(r, right, k, w);
      }
    }
  }

  lemma {:induction false} StripKeepsAbsence(s: string, w: string)
    requires AllWord(w) && !Occurs(s, w)
    ensures !Occurs(Strip(s), w)
    decreases |s|
  {
    if s != [] {
      if IsSpace(s[0]) {
        InfixKeepsAbsence(s, 1, |s|, w);
        assert s[1..|s|] == s[1..];
        StripKeepsAbsence(s[1..], w);
      } else if IsSpace(s[|s| - 1]) {
        InfixKeepsAbsence(s, 0, |s| - 1, w);
        assert s[0..|s| - 1] == s[..|s| - 1];
        StripKeepsAbsence(s[..|s| - 1], w);
      }
    }
  }

  // ---------------------------------------------------------------------
  // Replacement by a case variant of the pattern

  /** `a + b` folds to the text of `s` from `i` on when `a` and `b` fold to
      its consecutive pieces. */
  lemma FoldsAppend(a: string, b: string, s: string, i: nat)
    requires i + |a| + |b| <= |s|
    requires forall j | 0 <= j < |a| :: Lower(a[j]) == Lower(s[i + j])
    requires forall j | 0 <= j < |b| :: Lower(b[j]) == Lower(s[i + |a| + j])
    ensures forall j | 0 <= j < |a + b| :: Lower((a + b)[j]) == Lower(s[i + j])
  {
    forall j | |a| <= j < |a + b| ensures Lower((a + b)[j]) == Lower(s[i + j]) {
      assert (a + b)[j] == b[j - |a|];
    }
  }

  /** A case variant of the pattern folds to the text it matches. */
  lemma MatchFolds(s: string, i: nat, pat: string, rep: string)
    requires MatchAt(s, i, pat) && EqualsIgnoringCase(rep, pat)
    ensures forall j | 0 <= j < |rep| :: Lower(rep[j]) == Lower(s[i + j])
  {
    var m := s[i..i + |pat|];
    forall j | 0 <= j < |rep| ensures Lower(rep[j]) == Lower(s[i + j]) {
      assert m[j] == s[i + j];
    }
  }

  lemma {:induction false} ScanKeepsCaseFold(s: string, pat: string, rep: string, i: nat)
    requires |pat| > 0 && i <= |s| && EqualsIgnoringCase(rep, pat)
    ensures var out := Scan(s, pat, rep, i).0;
      |out| == |s| - i && forall j | 0 <= j < |out| :: Lower(out[j]) == Lower(s[i + j])
    decreases |s| - i
  {
    if i < |s| {
      if MatchAt(s, i, pat) {
        ScanKeepsCaseFold(s, pat, rep, i + |pat|);
        MatchFolds(s, i, pat, rep);
        FoldsAppend(rep, Scan(s, pat, rep, i + |pat|).0, s, i);
      } else {
        ScanKeepsCaseFold(s, pat, rep, i + 1);
        FoldsAppend([s[i]], Scan(s, pat, rep, i + 1).0, s, i);
      }
    }
  }

  lemma CaseFoldKeepsMatch(s: string, t: string, k: nat, pat: string)
    requires EqualsIgnoringCase(s, t)
    ensures MatchAt(s, k, pat) <==> MatchAt(t, k, pat)
  {
    forall j | 0 <= j < |s| ensures IsWordChar(s[j]) == IsWordChar(t[j]) {
      CaseFoldKeepsClass(s[j], t[j]);
    }
    assert WordAt(s, k - 1) == WordAt(t, k - 1);
    assert WordAt(s, k) == WordAt(t, k);
    assert WordAt(s, k + |pat|) == WordAt(t, k + |pat|);
  }

  /** A match inside a slice cut next to non-word characters is a match,
      with the same characters, of the whole text. */
  lemma MatchInSlice(s: string, a: nat, b: nat, k: nat, pat: string)
    requires a <= b <= |s| && !WordAt(s, a - 1) && !WordAt(s, b)
    requires MatchAt(s[a..b], k, pat)
    ensures MatchAt(s, a + k, pat)
    ensures s[a..b][k..k + |pat|] == s[a + k..a + k + |pat|]
  {
    var r := s[a..b];
    var x, y := r[k..k + |pat|], s[a + k..a + k + |pat|];
    forall i | 0 <= i < |pat| ensures x[i] == y[i] {
      assert r[k + i] == s[a + k + i];
    }
    assert x == y;
    if k > 0 {
      assert r[k - 1] == s[a + k - 1];
    }
    if k < |r| {
      assert r[k] == s[a + k];
    }
    if k + |pat| < |r| {
      assert r[k + |pat|] == s[a + k + |pat|];
    }
    if 0 < k + |pat| {
      assert r[k + |pat| - 1] == s[a + k + |pat| - 1];
    }
  }

  /** A match in the stripped text is a match, with the same characters,
      of the text before stripping. */
  lemma MatchInStrip(e: string, k: nat, pat: string) returns (j: nat)
    requires MatchAt(Strip(e), k, pat)
    ensures MatchAt(e, j, pat)
    ensures Strip(e)[k..k + |pat|] == e[j..j + |pat|]
  {
    var a, r := LeadingSpaces(e), Strip(e);
    StripCutsAtNonWord(e);
    MatchInSlice(e, a, a + |r|, k, pat);
    j := a + k;
  }

  /** Stripping cuts the text next to whitespace, which is not a word
      character. */
  lemma StripCutsAtNonWord(e: string)
    ensures var a, r := LeadingSpaces(e), Strip(e);
      && a + |r| <= |e| && r == e[a..a + |r|]
      && !WordAt(e, a - 1) && !WordAt(e, a + |r|)
  {
    var a, r := LeadingSpaces(e), Strip(e);
    StripSlice(e);
    if a > 0 {
      assert e[a - 1] == e[..a][a - 1];
    }
    if a + |r| < |e| {
      assert e[a + |r|] == e[a + |r|..][0];
    }
  }

  /** A match of a word-edged pattern in a text with one non-word character
      appended lies in the text itself. */
  lemma MatchBeforeAppended(t: string, c: char, k: nat, pat: string)
    requires WordEdged(pat) && !IsWordChar(c) && MatchAt(t + [c], k, pat)
    ensures MatchAt(t, k, pat)
    ensures (t + [c])[k..k + |pat|] == t[k..k + |pat|]
  {
    var u := t + [c];
    MatchEdges(u, k, pat);
    assert k + |pat| <= |t|;
    assert u[k..k + |pat|] == t[k..k + |pat|];
    if k > 0 {
      assert u[k - 1] == t[k - 1];
    }
    assert u[k] == t[k];
    assert u[k + |pat| - 1] == t[k + |pat| - 1];
    if k + |pat| < |t| {
      assert u[k + |pat|] == t[k + |pat|];
    }
  }

  /** A match over `k` is one in any case variant of the text too. */
  lemma CaseFoldKeepsInMatch(s: string, t: string, k: nat, pat: string)
    requires EqualsIgnoringCase(s, t) && InMatch(s, k, pat)
    ensures InMatch(t, k, pat)
  {
    var p: nat :| p <= k < p + |pat| && MatchAt(s, p, pat);
    CaseFoldKeepsMatch(s, t, p, pat);
  }

  /** No whole-word match starts strictly inside another one. */
  lemma NoMatchInside(s: string, pat: string, i: nat, d: nat)
    requires WordEdged(pat) && NoSelfOverlap(pat) && MatchAt(s, i, pat)
    ensures 0 < d < |pat| ==> !MatchAt(s, i + d, pat)
  {
    if 0 < d < |pat| {
      var k := i + d;
      var m := s[i..i + |pat|];
      assert m[d - 1] == s[k - 1] && m[d] == s[k];
      assert Lower(s[k - 1]) == Lower(pat[d - 1]) && Lower(s[k]) == Lower(pat[d]);
      CaseFoldKeepsClass(s[k - 1], pat[d - 1]);
      if k + |pat| <= |s| && EqualsIgnoringCase(s[k..k + |pat|], pat) {
        assert s[k..k + |pat|][0] == s[k];
        CaseFoldKeepsClass(s[k], pat[0]);
      }
    }
  }

  /** Whole-word matches of a pattern without self-overlap are disjoint. */
  lemma MatchesDisjoint(s: string, pat: string, i: nat, k: nat)
    requires WordEdged(pat) && NoSelfOverlap(pat)
    requires MatchAt(s, i, pat) && MatchAt(s, k, pat) && i < k
    ensures i + |pat| <= k
  {
    NoMatchInside(s, pat, i, k - i);
  }

  /** A slice of `head + tail` that lies past `head` is a slice of `tail`. */
  lemma SliceThrough(out: string, head: string, tail: string, j: nat, n: nat, piece: string)
    requires out == head + tail && |head| <= j && j + n <= |out|
    requires tail[j - |head|..j - |head| + n] == piece
    ensures out[j..j + n] == piece
  {
    assert out[j..j + n] == tail[j - |head|..j - |head| + n];
  }

  /** A scan from `i` reaches every match at or after `i`, so each one is
      replaced, when matches cannot overlap. */
  lemma {:induction false} ScanReplacesEveryMatch(s: string, pat: string, rep: string, i: nat, k: nat)
    requires WordEdged(pat) && NoSelfOverlap(pat) && |rep| == |pat|
    requires i <= k && MatchAt(s, k, pat)
    ensures Scan(s, pat, rep, i).0[k - i..k - i + |pat|] == rep
    decreases |s| - i, 2
  {
    if k == i {
      ScanReplacesHere(s, pat, rep, i);
    } else {
      ScanReplacesLater(s, pat, rep, i, k);
    }
  }

  lemma ScanReplacesHere(s: string, pat: string, rep: string, i: nat)
    requires |pat| > 0 && |rep| == |pat| && MatchAt(s, i, pat)
    ensures Scan(s, pat, rep, i).0[..|pat|] == rep
  {
    assert Scan(s, pat, rep, i).0 == rep + Scan(s, pat, rep, i + |pat|).0;
  }

  lemma {:induction false} ScanReplacesLater(s: string, pat: string, rep: string, i: nat, k: nat)
    requires WordEdged(pat) && NoSelfOverlap(pat) && |rep| == |pat|
    requires i < k && MatchAt(s, k, pat)
    ensures Scan(s, pat, rep, i).0[k - i..k - i + |pat|] == rep
    decreases |s| - i, 1
  {
    if MatchAt(s, i, pat) {
      MatchesDisjoint(s, pat, i, k);
      assert Scan(s, pat, rep, i).0 == rep + Scan(s, pat, rep, i + |pat|).0;
      ScanReplacesPast(s, pat, rep, i, i + |pat|, rep, k, Scan(s, pat, rep, i).0);
    } else {
      assert Scan(s, pat, rep, i).0 == [s[i]] + Scan(s, pat, rep, i + 1).0;
      ScanReplacesPast(s, pat, rep, i, i + 1, [s[i]], k, Scan(s, pat, rep, i).0);
    }
  }

  /** The scan from `i` emits `head` and goes on from `next`, which is not past `k`. */
  lemma {:induction false} ScanReplacesPast(s: string, pat: string, rep: string, i: nat, next: nat, head: string, k: nat, out: string)
    requires WordEdged(pat) && NoSelfOverlap(pat) && |rep| == |pat|
    requires i < next <= k && MatchAt(s, k, pat) && |head| == next - i
    requires out == head + Scan(s, pat, rep, next).0
    ensures out[k - i..k - i + |pat|] == rep
    decreases |s| - next, 3
  {
    ScanReplacesEveryMatch(s, pat, rep, next, k);
    SliceThrough(out, head, Scan(s, pat, rep, next).0, k - i, |pat|, rep);
  }

  /** After `re.sub` replaces a non-overlapping pattern by a case variant of
      itself, every whole-word match of the pattern reads exactly `rep`. */
  lemma SubLeavesOnlyReplacement(s: string, pat: string, rep: string, k: nat)
    requires WordEdged(pat) && NoSelfOverlap(pat)
    requires |rep| == |pat| && EqualsIgnoringCase(rep, pat)
    requires MatchAt(Sub(s, pat, rep), k, pat)
    ensures Sub(s, pat, rep)[k..k + |pat|] == rep
  {
    ScanLeavesOnlyReplacement(s, pat, rep, Sub(s, pat, rep), k);
  }

  /** The same, stated of the scan `Sub` runs. */
  lemma ScanLeavesOnlyReplacement(s: string, pat: string, rep: string, r: string, k: nat)
    requires WordEdged(pat) && NoSelfOverlap(pat)
    requires |rep| == |pat| && EqualsIgnoringCase(rep, pat)
    requires r == Scan(s, pat, rep, 0).0 && MatchAt(r, k, pat)
    ensures r[k..k + |pat|] == rep
  {
    ScanFoldsCase(s, pat, rep, r);
    CaseFoldKeepsMatch(r, s, k, pat);
    ScanReplacesEveryMatch(s, pat, rep, 0, k);
  }

  lemma ScanFoldsCase(s: string, pat: string, rep: string, r: string)
    requires |pat| > 0 && EqualsIgnoringCase(rep, pat) && r == Scan(s, pat, rep, 0).0
    ensures EqualsIgnoringCase(r, s)
  {
    ScanKeepsCaseFold(s, pat, rep, 0);
    forall j | 0 <= j < |r| ensures Lower(r[j]) == Lower(s[j]) {
      assert s[0 + j] == s[j];
    }
  }
}
