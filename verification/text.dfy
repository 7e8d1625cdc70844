/** String operations shared by the correction stages: Python's `str.strip()`,
    the whitespace collapse `re.sub(r'\s+', ' ', s)`, `''.join(parts)`,
    case-insensitive comparison and `str.upper()`, plus the vocabulary for
    stating which neighbouring characters a string avoids. */
module Text {
  import opened Chars

  predicate IsBlank(s: string) {
    forall k | 0 <= k < |s| :: IsSpace(s[k])
  }

  /** No leading and no trailing whitespace. */
  predicate Trimmed(s: string) {
    s == [] || (!IsSpace(s[0]) && !IsSpace(s[|s| - 1]))
  }

  /** The characters at positions `k` and `k + 1` of `s` are related by `bad`. */
  predicate PairAt(s: string, k: int, bad: (char, char) -> bool)
    requires 0 <= k < |s| - 1
  {
    bad(s[k], s[k + 1])
  }

  /** No two neighbouring characters of `s` are related by `bad`. */
  predicate NoPair(s: string, bad: (char, char) -> bool) {
    forall k | 0 <= k < |s| - 1 :: !PairAt(s, k, bad)
  }

  predicate SpacePair(c: char, d: char) {
    IsSpace(c) && IsSpace(d)
  }

  predicate TerminalPair(c: char, d: char) {
    IsTerminal(c) && IsTerminal(d)
  }

  /** Every whitespace character is a plain space. */
  predicate OnlyPlainSpaces(s: string) {
    forall k | 0 <= k < |s| :: IsSpace(s[k]) ==> s[k] == ' '
  }

  lemma NoPairConcat(a: string, b: string, bad: (char, char) -> bool)
    ensures NoPair(a + b, bad) <==>
              NoPair(a, bad) && NoPair(b, bad) && (a != [] && b != [] ==> !bad(a[|a| - 1], b[0]))
  {
    var s := a + b;
    if NoPair(a, bad) && NoPair(b, bad) && (a != [] && b != [] ==> !bad(a[|a| - 1], b[0])) {
      forall k | 0 <= k < |s| - 1 ensures !PairAt(s, k, bad) {
        if k + 1 < |a| {
          assert !PairAt(a, k, bad);
          assert s[k] == a[k] && s[k + 1] == a[k + 1];
        } else if k >= |a| {
          assert !PairAt(b, k - |a|, bad);
          assert s[k] == b[k - |a|] && s[k + 1] == b[k - |a| + 1];
        }
      }
    }
    if NoPair(s, bad) {
      forall k | 0 <= k < |a| - 1 ensures !PairAt(a, k, bad) {
        assert !PairAt(s, k, bad);
        assert s[k] == a[k] && s[k + 1] == a[k + 1];
      }
      forall k | 0 <= k < |b| - 1 ensures !PairAt(b, k, bad) {
        assert !PairAt(s, |a| + k, bad);
        assert s[|a| + k] == b[k] && s[|a| + k + 1] == b[k + 1];
      }
      if a != [] && b != [] {
        assert !PairAt(s, |a| - 1, bad);
        assert s[|a| - 1] == a[|a| - 1] && s[|a|] == b[0];
      }
    }
  }

  lemma NoPairSlice(s: string, i: nat, j: nat, bad: (char, char) -> bool)
    requires i <= j <= |s| && NoPair(s, bad)
    ensures NoPair(s[i..j], bad)
    ensures j == |s| ==> NoPair(s[i..], bad)
  {
    assert j == |s| ==> s[i..j] == s[i..];
    var t := s[i..j];
    forall k | 0 <= k < |t| - 1 ensures !PairAt(t, k, bad) {
      assert !PairAt(s, i + k, bad);
      assert t[k] == s[i + k] && t[k + 1] == s[i + k + 1];
    }
  }

  lemma OnlyPlainSpacesSlice(s: string, i: nat, j: nat)
    requires i <= j <= |s| && OnlyPlainSpaces(s)
    ensures OnlyPlainSpaces(s[i..j])
    ensures j == |s| ==> OnlyPlainSpaces(s[i..])
  {
    assert j == |s| ==> s[i..j] == s[i..];
    forall k | 0 <= k < j - i ensures IsSpace(s[i..j][k]) ==> s[i..j][k] == ' ' {
      assert s[i..j][k] == s[i + k];
    }
  }

  lemma OnlyPlainSpacesConcat(a: string, b: string)
    ensures OnlyPlainSpaces(a + b) <==> OnlyPlainSpaces(a) && OnlyPlainSpaces(b)
  {
    if OnlyPlainSpaces(a + b) {
      forall k | 0 <= k < |a| ensures IsSpace(a[k]) ==> a[k] == ' ' {
        assert (a + b)[k] == a[k];
      }
      forall k | 0 <= k < |b| ensures IsSpace(b[k]) ==> b[k] == ' ' {
        assert (a + b)[|a| + k] == b[k];
      }
    }
    if OnlyPlainSpaces(a) && OnlyPlainSpaces(b) {
      forall k | 0 <= k < |a + b| ensures IsSpace((a + b)[k]) ==> (a + b)[k] == ' ' {
        if k < |a| {
          assert (a + b)[k] == a[k];
        } else {
          assert (a + b)[k] == b[k - |a|];
        }
      }
    }
  }

  /** Length of the longest all-whitespace prefix. */
  function LeadingSpaces(s: string): (n: nat)
    ensures n <= |s|
    ensures forall k | 0 <= k < n :: IsSpace(s[k])
    ensures n < |s| ==> !IsSpace(s[n])
  {
    if s == [] || !IsSpace(s[0]) then 0 else LeadingSpaces(s[1..]) + 1
  }

  /** Length of the longest all-whitespace suffix. */
  function TrailingSpaces(s: string): (n: nat)
    ensures n <= |s|
    ensures forall k | |s| - n <= k < |s| :: IsSpace(s[k])
    ensures n < |s| ==> !IsSpace(s[|s| - n - 1])
  {
    if s == [] || !IsSpace(s[|s| - 1]) then 0 else TrailingSpaces(s[..|s| - 1]) + 1
  }

  /** Cutting `s` at two positions and joining the three pieces gives `s`. */
  lemma SplitAround(s: string, i: nat, j: nat)
    requires i <= j <= |s|
    ensures s == s[..i] + (s[i..j] + s[j..])
  {
  }

  /** Python's `s.strip()`: `s` without its leading and trailing whitespace. */
  function Strip(s: string): (r: string)
    ensures |r| <= |s| && Trimmed(r)
    decreases |s|
  {
    if s == [] then []
    else if IsSpace(s[0]) then Strip(s[1..])
    else if IsSpace(s[|s| - 1]) then Strip(s[..|s| - 1])
    else s
  }

  /** The stripped text is empty exactly when `s` is blank. */
  lemma {:induction false} StripEmpty(s: string)
    ensures Strip(s) == [] <==> IsBlank(s)
    decreases |s|
  {
    if s != [] {
      if IsSpace(s[0]) {
        StripEmpty(s[1..]);
        assert IsBlank(s) <==> IsBlank(s[1..]) by {
          if IsBlank(s[1..]) {
            forall k | 0 <= k < |s| ensures IsSpace(s[k]) {
              if k > 0 { assert s[k] == s[1..][k - 1]; }
            }
          }
        }
      } else if IsSpace(s[|s| - 1]) {
        StripEmpty(s[..|s| - 1]);
        assert !IsSpace(s[..|s| - 1][0]);
      }
    }
  }

  /** The stripped text is the slice of `s` between its leading and its
      trailing whitespace. */
  lemma {:induction false} StripSlice(s: string)
    ensures var a, r := LeadingSpaces(s), Strip(s);
      && a + |r| <= |s| && r == s[a..a + |r|]
      && IsBlank(s[..a]) && IsBlank(s[a + |r|..])
    decreases |s|, 1
  {
    if s == [] {
    } else if IsSpace(s[0]) {
      StripSliceFront(s);
    } else if IsSpace(s[|s| - 1]) {
      StripSliceBack(s);
    } else {
      assert s[0..|s|] == s;
    }
  }

  lemma {:induction false} StripSliceFront(s: string)
    requires s != [] && IsSpace(s[0])
    ensures var a, r := LeadingSpaces(s), Strip(s);
      && a + |r| <= |s| && r == s[a..a + |r|]
      && IsBlank(s[..a]) && IsBlank(s[a + |r|..])
    decreases |s|, 0
  {
    var a, r := LeadingSpaces(s), Strip(s);
    var t := s[1..];
    StripSlice(t);
    assert a == LeadingSpaces(t) + 1 && r == Strip(t);
    SliceAfterSpace(s, a, r);
  }

  /** A slice of `s[1..]` framed by blanks, moved one place right, when
      `s` starts with whitespace. */
  lemma SliceAfterSpace(s: string, a: nat, r: string)
    requires s != [] && IsSpace(s[0]) && a >= 1
    requires var t := s[1..];
      && a - 1 + |r| <= |t| && r == t[a - 1..a - 1 + |r|]
      && IsBlank(t[..a - 1]) && IsBlank(t[a - 1 + |r|..])
    ensures a + |r| <= |s| && r == s[a..a + |r|]
    ensures IsBlank(s[..a]) && IsBlank(s[a + |r|..])
  {
    var t := s[1..];
    assert t[a - 1..a - 1 + |r|] == s[a..a + |r|];
    assert forall k | 1 <= k < a :: s[..a][k] == t[..a - 1][k - 1];
    assert t[a - 1 + |r|..] == s[a + |r|..];
  }

  lemma {:induction false} StripSliceBack(s: string)
    requires s != [] && !IsSpace(s[0]) && IsSpace(s[|s| - 1])
    ensures var a, r := LeadingSpaces(s), Strip(s);
      && a + |r| <= |s| && r == s[a..a + |r|]
      && IsBlank(s[..a]) && IsBlank(s[a + |r|..])
    decreases |s|, 0
  {
    var r := Strip(s);
    var t := s[..|s| - 1];
    StripSlice(t);
    assert LeadingSpaces(s) == 0 && LeadingSpaces(t) == 0 by {
      assert t[0] == s[0];
    }
    assert r == Strip(t);
    assert t[0..|r|] == s[0..|r|];
    var u, c := t[|r|..], s[|s| - 1];
    assert s[|r|..] == u + [c];
    forall k | 0 <= k < |u| + 1 ensures IsSpace((u + [c])[k]) {
      if k < |u| {
        assert (u + [c])[k] == u[k];
      }
    }
  }

  lemma StripTrimmed(s: string)
    requires Trimmed(s)
    ensures Strip(s) == s
  {
  }

  lemma {:induction false} StripKeepsNoPair(s: string, bad: (char, char) -> bool)
    requires NoPair(s, bad)
    ensures NoPair(Strip(s), bad)
    decreases |s|
  {
    if s != [] {
      if IsSpace(s[0]) {
        NoPairSlice(s, 1, |s|, bad);
        StripKeepsNoPair(s[1..], bad);
      } else if IsSpace(s[|s| - 1]) {
        NoPairSlice(s, 0, |s| - 1, bad);
        assert s[0..|s| - 1] == s[..|s| - 1];
        StripKeepsNoPair(s[..|s| - 1], bad);
      }
    }
  }

  /** The characters of `s` that are not whitespace, in order. */
  function NonSpace(s: string): string {
    if s == [] then []
    else if IsSpace(s[0]) then NonSpace(s[1..])
    else [s[0]] + NonSpace(s[1..])
  }

  lemma NonSpaceBlank(s: string)
    requires IsBlank(s)
    ensures NonSpace(s) == []
  {
    if s != [] {
      NonSpaceBlank(s[1..]);
    }
  }

  lemma NonSpaceConcat(a: string, b: string)
    ensures NonSpace(a + b) == NonSpace(a) + NonSpace(b)
  {
    if a != [] {
      assert (a + b)[0] == a[0] && (a + b)[1..] == a[1..] + b;
      NonSpaceConcat(a[1..], b);
    } else {
      assert a + b == b;
    }
  }

  lemma {:induction false} StripKeepsPlainSpaces(s: string)
    requires OnlyPlainSpaces(s)
    ensures OnlyPlainSpaces(Strip(s))
    decreases |s|
  {
    if s != [] {
      if IsSpace(s[0]) {
        OnlyPlainSpacesSlice(s, 1, |s|);
        StripKeepsPlainSpaces(s[1..]);
      } else if IsSpace(s[|s| - 1]) {
        OnlyPlainSpacesSlice(s, 0, |s| - 1);
        assert s[0..|s| - 1] == s[..|s| - 1];
        StripKeepsPlainSpaces(s[..|s| - 1]);
      }
    }
  }

  lemma {:induction false} NonSpaceStrip(s: string)
    ensures NonSpace(Strip(s)) == NonSpace(s)
    decreases |s|
  {
    if s != [] {
      if IsSpace(s[0]) {
        NonSpaceStrip(s[1..]);
      } else if IsSpace(s[|s| - 1]) {
        var init := s[..|s| - 1];
        NonSpaceStrip(init);
        assert s == init + [s[|s| - 1]];
        NonSpaceConcat(init, [s[|s| - 1]]);
        assert NonSpace([s[|s| - 1]]) == [];
      }
    }
  }

  /** What `re.sub(r'\s+', ' ', s)` makes of position `k` of `s`: a
      whitespace character followed by more whitespace disappears, the last
      whitespace character of a run becomes one plain space, and any other
      character stays. */
  function CollapsePiece(s: string, k: nat): string
    requires k < |s|
  {
    if !IsSpace(s[k]) then [s[k]]
    else if k + 1 < |s| && IsSpace(s[k + 1]) then []
    else " "
  }

  function CollapsePieces(s: string): (parts: seq<string>)
    ensures |parts| == |s|
  {
    seq(|s|, k requires 0 <= k < |s| => CollapsePiece(s, k))
  }

  lemma CollapsePiecesFrom(s: string, n: nat)
    requires n <= |s|
    ensures CollapsePieces(s)[n..] == CollapsePieces(s[n..])
  {
    forall j | 0 <= j < |s| - n ensures CollapsePieces(s)[n..][j] == CollapsePieces(s[n..])[j] {
      assert s[n..][j] == s[n + j];
      if j + 1 < |s| - n {
        assert s[n..][j + 1] == s[n + j + 1];
      }
    }
  }

  /** A whitespace run at the front of `s` contributes one space. */
  lemma CollapsePiecesAtSpace(s: string)
    requires s != [] && IsSpace(s[0])
    ensures Concat(CollapsePieces(s)) == " " + Concat(CollapsePieces(s[LeadingSpaces(s)..]))
  {
    var n, parts := LeadingSpaces(s), CollapsePieces(s);
    forall j | 0 <= j < n - 1 ensures parts[j] == [] {
      assert IsSpace(s[j]) && IsSpace(s[j + 1]);
    }
    assert parts[n - 1] == " ";
    ConcatRun(parts, n);
    CollapsePiecesFrom(s, n);
  }

  lemma CollapsePiecesAtNonSpace(s: string)
    requires s != [] && !IsSpace(s[0])
    ensures Concat(CollapsePieces(s)) == [s[0]] + Concat(CollapsePieces(s[1..]))
  {
    ConcatFrom(CollapsePieces(s), 0);
    assert CollapsePieces(s)[0..] == CollapsePieces(s);
    CollapsePiecesFrom(s, 1);
  }

  /** `re.sub(r'\s+', ' ', s)`: every maximal whitespace run becomes exactly
      one plain space and every other character stays, in order (position by
      position, as `CollapsePiece` says). So the result's only whitespace is
      plain spaces, no two of them neighbours. */
  function CollapseWhitespace(s: string): (r: string)
    ensures r == Concat(CollapsePieces(s))
    ensures NonSpace(r) == NonSpace(s)
    ensures OnlyPlainSpaces(r)
    ensures NoPair(r, SpacePair)
    ensures s == [] <==> r == []
    ensures s != [] ==> (IsSpace(r[0]) <==> IsSpace(s[0]))
    ensures s != [] && !IsSpace(s[0]) ==> r[0] == s[0]
    decreases |s|
  {
    if s == [] then []
    else if IsSpace(s[0]) then
      var n := LeadingSpaces(s);
      var rest := CollapseWhitespace(s[n..]);
      assert s == s[..n] + s[n..];
      CollapsePiecesAtSpace(s);
      NonSpaceConcat(s[..n], s[n..]);
      NonSpaceBlank(s[..n]);
      NonSpaceConcat(" ", rest);
      NoPairConcat(" ", rest, SpacePair);
      " " + rest
    else
      var rest := CollapseWhitespace(s[1..]);
      assert s == [s[0]] + s[1..];
      CollapsePiecesAtNonSpace(s);
      NonSpaceConcat([s[0]], s[1..]);
      NonSpaceConcat([s[0]], rest);
      NoPairConcat([s[0]], rest, SpacePair);
      [s[0]] + rest
  }

  /** Collapsing whitespace changes nothing in a string whose only whitespace
      is single plain spaces. */
  lemma CollapseIdentity(s: string)
    requires OnlyPlainSpaces(s) && NoPair(s, SpacePair)
    ensures CollapseWhitespace(s) == s
    decreases |s|
  {
    if s != [] {
      NoPairSlice(s, 1, |s|, SpacePair);
      if IsSpace(s[0]) {
        assert LeadingSpaces(s) == 1 by {
          if |s| > 1 { assert !PairAt(s, 0, SpacePair); }
        }
      }
      CollapseIdentity(s[1..]);
      assert s == [s[0]] + s[1..];
    }
  }

  /** `''.join(parts)`. */
  function Concat(parts: seq<string>): string {
    if parts == [] then [] else parts[0] + Concat(parts[1..])
  }

  lemma ConcatAppend(a: seq<string>, b: seq<string>)
    ensures Concat(a + b) == Concat(a) + Concat(b)
  {
    if a != [] {
      assert (a + b)[0] == a[0] && (a + b)[1..] == a[1..] + b;
      ConcatAppend(a[1..], b);
    } else {
      assert a + b == b;
    }
  }

  /** The pieces from index `i` on: piece `i`, then the rest. */
  lemma ConcatFrom(parts: seq<string>, i: nat)
    requires i < |parts|
    ensures Concat(parts[i..]) == parts[i] + Concat(parts[i + 1..])
  {
    assert parts[i..][0] == parts[i] && parts[i..][1..] == parts[i + 1..];
  }

  /** Pieces that are empty before index `n - 1` contribute only piece
      `n - 1` up to there. */
  lemma {:induction false} ConcatRun(parts: seq<string>, n: nat)
    requires 0 < n <= |parts|
    requires forall j | 0 <= j < n - 1 :: parts[j] == []
    ensures Concat(parts) == parts[n - 1] + Concat(parts[n..])
    decreases n
  {
    if n > 1 {
      assert parts[0] == [];
      ConcatRun(parts[1..], n - 1);
      assert parts[1..][n - 1..] == parts[n..];
    }
  }

  /** Equal up to `re.IGNORECASE`. */
  predicate EqualsIgnoringCase(a: string, b: string) {
    |a| == |b| && forall k | 0 <= k < |a| :: Lower(a[k]) == Lower(b[k])
  }

  /** Case-insensitive equality chains. */
  lemma CaseFoldTrans(a: string, b: string, c: string)
    requires EqualsIgnoringCase(a, b) && EqualsIgnoringCase(b, c)
    ensures EqualsIgnoringCase(a, c)
  {
  }

  /** `str.lower()` and `str.upper()`, character by character. */
  function LowerString(s: string): (r: string)
    ensures |r| == |s| && forall k | 0 <= k < |s| :: r[k] == Lower(s[k])
  {
    seq(|s|, k requires 0 <= k < |s| => Lower(s[k]))
  }

  function UpperString(s: string): (r: string)
    ensures |r| == |s| && forall k | 0 <= k < |s| :: r[k] == Upper(s[k])
  {
    seq(|s|, k requires 0 <= k < |s| => Upper(s[k]))
  }

  /** Upper-casing changes only case and leaves no lower-case letter. */
  lemma UpperStringFolds(s: string)
    ensures EqualsIgnoringCase(UpperString(s), s)
    ensures forall k | 0 <= k < |s| :: !IsLowerLetter(UpperString(s)[k])
  {
    var u := UpperString(s);
    forall k | 0 <= k < |s| ensures Lower(u[k]) == Lower(s[k]) && !IsLowerLetter(u[k]) {
      assert u[k] == Upper(s[k]);
    }
  }

  lemma EqualsIgnoringCaseIsLowerEquality(a: string, b: string)
    ensures EqualsIgnoringCase(a, b) <==> LowerString(a) == LowerString(b)
  {
    if LowerString(a) == LowerString(b) {
      assert |a| == |LowerString(a)|;
      forall k | 0 <= k < |a| ensures Lower(a[k]) == Lower(b[k]) {
        assert LowerString(a)[k] == LowerString(b)[k];
      }
    }
  }
}
