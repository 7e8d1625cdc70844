/** Filler-word removal of the correction pipeline: the per-language filler
    table, the choice of a table entry from a language code, and the removal
    itself (every filler in turn, as a whole word ignoring case, then the
    whitespace clean-up). */
module Fillers {
  import opened Chars
  import opened Text
  import opened WholeWord

  const EnglishFillers := ["uh", "um", "hmm", "hm", "er", "ah", "like", "you know", "basically", "actually"]
  const SpanishFillers := ["eh", "este", "pues", "bueno", "entonces"]
  const FrenchFillers := ["euh", "ben", "quoi", "genre"]
  const GermanFillers := ["äh", "ähm", "also", "ja"]

  /** The filler table built by the corrector's constructor. */
  const FillerWords: map<string, seq<string>> := map[
    "en" := EnglishFillers,
    "es" := SpanishFillers,
    "fr" := FrenchFillers,
    "de" := GermanFillers
  ]

  /** Every filler can be matched as a whole word. */
  predicate WellFormedFillers(fillers: seq<string>) {
    forall f | f in fillers :: WordEdged(f)
  }

  predicate WellFormedTable(table: map<string, seq<string>>) {
    "en" in table && forall key | key in table :: WellFormedFillers(table[key])
  }

  lemma EnglishFillersWellFormed()
    ensures WellFormedFillers(EnglishFillers)
  {
  }

  lemma OtherFillersWellFormed()
    ensures WellFormedFillers(SpanishFillers)
    ensures WellFormedFillers(FrenchFillers)
    ensures WellFormedFillers(GermanFillers)
  {
  }

  lemma FillerWordsWellFormed()
    ensures WellFormedTable(FillerWords)
  {
    EnglishFillersWellFormed();
    OtherFillersWellFormed();
  }

  /** The part of a language code before its first `-` (`"en-US"` gives
      `"en"`; a code without `-` is its own key). */
  function LanguageKey(language: string): (key: string)
    ensures key <= language && '-' !in key
    ensures |key| < |language| ==> language[|key|] == '-'
  {
    if language == [] || language[0] == '-' then []
    else [language[0]] + LanguageKey(language[1..])
  }

  /** The fillers for a language: the table entry for its key, English when
      the key has no entry. */
  function FillersFor(table: map<string, seq<string>>, language: string): (fillers: seq<string>)
    requires "en" in table
    ensures LanguageKey(language) in table ==> fillers == table[LanguageKey(language)]
    ensures LanguageKey(language) !in table ==> fillers == table["en"]
  {
    var key := LanguageKey(language);
    if key in table then table[key] else table["en"]
  }

  /** A region or script subtag never changes the fillers chosen. */
  lemma {:induction false} LanguageKeyIgnoresSubtag(lang: string, subtag: string)
    requires '-' !in lang
    ensures LanguageKey(lang + "-" + subtag) == LanguageKey(lang) == lang
  {
    if lang != [] {
      assert (lang + "-" + subtag)[1..] == lang[1..] + "-" + subtag;
      LanguageKeyIgnoresSubtag(lang[1..], subtag);
    } else {
      assert (lang + "-" + subtag)[0] == '-';
    }
  }

  /** A region subtag selects the language's own entry, or English when the
      language has none. */
  lemma FillersForEnglishRegion()
    ensures FillersFor(FillerWords, "en-US") == EnglishFillers
  {
    LanguageKeyIgnoresSubtag("en", "US");
    assert "en" + "-" + "US" == "en-US";
  }

  lemma FillersForFrenchRegion()
    ensures FillersFor(FillerWords, "fr-CA") == FrenchFillers
  {
    LanguageKeyIgnoresSubtag("fr", "CA");
    assert "fr" + "-" + "CA" == "fr-CA";
  }

  lemma FillersForMissingLanguage()
    ensures FillersFor(FillerWords, "pt-BR") == EnglishFillers
  {
    LanguageKeyIgnoresSubtag("pt", "BR");
    assert "pt" + "-" + "BR" == "pt-BR";
    assert "pt" !in FillerWords;
  }

  /** Keys are compared as written: `EN` is not `en`. */
  lemma FillersForPlainCodes()
    ensures FillersFor(FillerWords, "es") == SpanishFillers
    ensures FillersFor(FillerWords, "EN") == EnglishFillers
  {
    assert LanguageKey("es") == "es";
    assert LanguageKey("EN") == "EN";
  }

  /** Items found for the last filler join those found for the earlier
      ones: every item is a listed filler up to case. */
  lemma ItemsStayListed(items: seq<string>, found: seq<string>, fillers: seq<string>)
    requires fillers != []
    requires forall m | m in items :: exists f | f in fillers[..|fillers| - 1] :: EqualsIgnoringCase(m, f)
    requires forall m | m in found :: EqualsIgnoringCase(m, fillers[|fillers| - 1])
    ensures forall m | m in items + found :: exists f | f in fillers :: EqualsIgnoringCase(m, f)
  {
    forall m | m in items + found ensures exists f | f in fillers :: EqualsIgnoringCase(m, f) {
      if m in items {
        var f :| f in fillers[..|fillers| - 1] && EqualsIgnoringCase(m, f);
        assert f in fillers;
      } else {
        assert fillers[|fillers| - 1] in fillers;
      }
    }
  }

  /** The loop over the fillers, before the whitespace clean-up: for each
      filler in turn its whole-word matches in the current text are collected
      and, when there are any, removed (`re.sub` with an empty replacement,
      which is the scan `Sub` runs from the start of the text). Every removed
      item is a listed filler up to case, the text shrinks by the removed
      items' total length, and it is unchanged exactly when nothing was
      removed. Which characters go is `RemoveEachDeletesMatches`. */
  function RemoveEach(text: string, fillers: seq<string>): (r: (string, seq<string>))
    requires WellFormedFillers(fillers)
    ensures |r.0| + |Concat(r.1)| == |text|
    ensures r.1 == [] <==> r.0 == text
    ensures forall m | m in r.1 :: exists f | f in fillers :: EqualsIgnoringCase(m, f)
  {
    if fillers == [] then (text, [])
    else
      var prev := RemoveEach(text, fillers[..|fillers| - 1]);
      var filler := fillers[|fillers| - 1];
      assert filler in fillers;
      var found := FindAll(prev.0, filler);
      ScanRemovalLength(prev.0, filler, 0);
      assert prev.0[0..] == prev.0;
      ConcatAppend(prev.1, found);
      ItemsStayListed(prev.1, found, fillers);
      if found != [] then (Scan(prev.0, filler, [], 0).0, prev.1 + found) else prev
  }

  /** Filler removal: the loop, then `re.sub(r'\s+', ' ', ...).strip()`. The
      text comes back trimmed, its only whitespace single plain spaces, with
      the loop's other characters in order; the removed items are the
      loop's. */
  function RemoveFillers(text: string, fillers: seq<string>): (r: (string, seq<string>))
    requires WellFormedFillers(fillers)
    ensures Trimmed(r.0) && OnlyPlainSpaces(r.0) && NoPair(r.0, SpacePair)
    ensures NonSpace(r.0) == NonSpace(RemoveEach(text, fillers).0)
    ensures r.1 == RemoveEach(text, fillers).1
  {
    var each := RemoveEach(text, fillers);
    var c := CollapseWhitespace(each.0);
    StripKeepsNoPair(c, SpacePair);
    StripKeepsPlainSpaces(c);
    NonSpaceStrip(c);
    (Strip(c), each.1)
  }

  /** The items in the order `re.findall` reports them for each filler, the
      fillers taken in list order. */
  function Flatten(groups: seq<seq<string>>): seq<string> {
    if groups == [] then [] else Flatten(groups[..|groups| - 1]) + groups[|groups| - 1]
  }

  /** What `re.findall` reports for filler `j`, in the text the fillers
      before it left. */
  function FoundFor(text: string, fillers: seq<string>, j: nat): seq<string>
    requires WellFormedFillers(fillers) && j < |fillers|
  {
    assert fillers[j] in fillers;
    assert WellFormedFillers(fillers[..j]) by {
      forall f | f in fillers[..j] ensures WordEdged(f) {
        assert f in fillers;
      }
    }
    FindAll(RemoveEach(text, fillers[..j]).0, fillers[j])
  }

  /** The removed list follows the filler list, not the text: it is the
      items found for the first filler, then those for the second one in
      what was left, and so on. With `FindAll`'s contract, each item is a
      match as written in the text the earlier fillers left. */
  /** The items found for each filler, in list order. */
  function Groups(text: string, fillers: seq<string>): (groups: seq<seq<string>>)
    requires WellFormedFillers(fillers)
    ensures |groups| == |fillers|
    ensures forall j | 0 <= j < |fillers| :: groups[j] == FoundFor(text, fillers, j)
  {
    seq(|fillers|, j requires 0 <= j < |fillers| => FoundFor(text, fillers, j))
  }

  lemma {:induction false} RemoveEachInListOrder(text: string, fillers: seq<string>)
    requires WellFormedFillers(fillers)
    ensures RemoveEach(text, fillers).1 == Flatten(Groups(text, fillers))
    decreases |fillers|
  {
    var n := |fillers|;
    if n > 0 {
      var groups := Groups(text, fillers);
      RemoveEachLast(text, fillers);
      RemoveEachInListOrder(text, fillers[..n - 1]);
      GroupsOfPrefix(text, fillers);
      assert Flatten(groups) == Flatten(groups[..n - 1]) + groups[n - 1];
    }
  }

  /** Pass `j` of the loop turns the text it was given into the next one by
      deleting the matches of filler `j` at the positions `ps`: those
      `re.findall` reported, every other character kept in order. */
  ghost predicate PassDeletes(text: string, fillers: seq<string>, j: nat, ps: seq<nat>)
    requires WellFormedFillers(fillers) && j < |fillers|
  {
    RemoveEachPrefix(text, fillers, j + 1);
    RemovedAt(RemoveEach(text, fillers[..j]).0, fillers[j], FoundFor(text, fillers, j),
              RemoveEach(text, fillers[..j + 1]).0, ps, 0)
  }

  /** Each pass of the loop deletes exactly the matches reported for its
      filler and keeps every other character, in order. */
  lemma RemoveEachStepDeletesMatches(text: string, fillers: seq<string>, j: nat)
    requires WellFormedFillers(fillers) && j < |fillers|
    ensures exists ps :: PassDeletes(text, fillers, j, ps)
  {
    RemoveEachPrefix(text, fillers, j + 1);
    var before := RemoveEach(text, fillers[..j]).0;
    var after := RemoveEach(text, fillers[..j + 1]).0;
    var f := fillers[j];
    var found := FoundFor(text, fillers, j);
    var out := Scan(before, f, [], 0).0;
    assert found == Scan(before, f, [], 0).1;
    ScanRemovesFound(before, f, 0);
    var ps :| RemovedAt(before, f, found, out, ps, 0);
    assert after == out by {
      if found == [] {
        ScanRemovalLength(before, f, 0);
        assert before[0..] == before;
      }
    }
    assert PassDeletes(text, fillers, j, ps);
  }

  /** The whole loop: it starts from the text, pass `j` deletes exactly the
      matches reported for filler `j` from what the passes before it left,
      and the last pass leaves the loop's text. */
  lemma RemoveEachDeletesMatches(text: string, fillers: seq<string>)
    requires WellFormedFillers(fillers)
    ensures RemoveEach(text, fillers[..0]).0 == text
    ensures RemoveEach(text, fillers[..|fillers|]) == RemoveEach(text, fillers)
    ensures forall j | 0 <= j < |fillers| :: PassDeletesSome(text, fillers, j)
  {
    assert fillers[..0] == [] && fillers[..|fillers|] == fillers;
    forall j | 0 <= j < |fillers| ensures PassDeletesSome(text, fillers, j) {
      RemoveEachStepDeletesMatches(text, fillers, j);
    }
  }

  /** Pass `j` deletes the matches at some positions `ps`, as `PassDeletes`
      says. */
  ghost predicate PassDeletesSome(text: string, fillers: seq<string>, j: nat)
    requires WellFormedFillers(fillers) && j < |fillers|
  {
    exists ps :: PassDeletes(text, fillers, j, ps)
  }

  /** The last filler adds what it finds to the items of the earlier ones. */
  lemma RemoveEachLast(text: string, fillers: seq<string>)
    requires WellFormedFillers(fillers) && |fillers| > 0
    ensures WellFormedFillers(fillers[..|fillers| - 1])
    ensures RemoveEach(text, fillers).1
      == RemoveEach(text, fillers[..|fillers| - 1]).1 + FoundFor(text, fillers, |fillers| - 1)
  {
    var n := |fillers|;
    RemoveEachPrefix(text, fillers, n);
    assert fillers[..n] == fillers;
  }

  /** The groups of the first `n - 1` fillers are the first `n - 1` groups. */
  lemma GroupsOfPrefix(text: string, fillers: seq<string>)
    requires WellFormedFillers(fillers) && |fillers| > 0
    ensures WellFormedFillers(fillers[..|fillers| - 1])
    ensures Groups(text, fillers)[..|fillers| - 1] == Groups(text, fillers[..|fillers| - 1])
  {
    var n := |fillers|;
    var init := fillers[..n - 1];
    assert WellFormedFillers(init) by {
      forall f | f in init ensures WordEdged(f) {
        assert f in fillers;
      }
    }
    var groups := Groups(text, fillers);
    var groups' := Groups(text, init);
    forall j | 0 <= j < n - 1 ensures groups[..n - 1][j] == groups'[j] {
      assert init[..j] == fillers[..j] && init[j] == fillers[j];
    }
    assert groups[..n - 1] == groups';
  }

  /** After the loop no single-word filler occurs as a whole word. */
  lemma {:induction false} RemoveEachErasesWords(text: string, fillers: seq<string>)
    requires WellFormedFillers(fillers)
    ensures forall w | w in fillers && AllWord(w) :: !Occurs(RemoveEach(text, fillers).0, w)
    decreases |fillers|
  {
    if fillers != [] {
      var init := fillers[..|fillers| - 1];
      var prev := RemoveEach(text, init);
      var filler := fillers[|fillers| - 1];
      assert filler in fillers;
      RemoveEachErasesWords(text, init);
      var found := FindAll(prev.0, filler);
      forall w | w in fillers && AllWord(w) ensures !Occurs(RemoveEach(text, fillers).0, w) {
        if w == filler {
          if found != [] {
            RemovalErasesWord(prev.0, w);
          }
        } else {
          assert w in init;
          if found != [] {
            RemovalKeepsAbsence(prev.0, filler, w);
          }
        }
      }
    }
  }

  /** Filler removal leaves no single-word filler of the list in the text. */
  lemma RemoveFillersErasesWords(text: string, fillers: seq<string>, w: string)
    requires WellFormedFillers(fillers) && w in fillers && AllWord(w)
    ensures !Occurs(RemoveFillers(text, fillers).0, w)
  {
    var each := RemoveEach(text, fillers).0;
    RemoveEachErasesWords(text, fillers);
    CollapseKeepsAbsence(each, w);
    StripKeepsAbsence(CollapseWhitespace(each), w);
  }

  // ---------------------------------------------------------------------
  // A worked example: removal order follows the filler list, not the text

  /** The loop over the first `n` fillers is the loop over the first `n - 1`
      followed by one more filler. */
  lemma RemoveEachPrefix(text: string, fillers: seq<string>, n: nat)
    requires WellFormedFillers(fillers) && 0 < n <= |fillers|
    ensures WellFormedFillers(fillers[..n]) && WellFormedFillers(fillers[..n - 1])
    ensures fillers[n - 1] in fillers && |fillers[n - 1]| > 0
    ensures var prev := RemoveEach(text, fillers[..n - 1]);
      var found := FindAll(prev.0, fillers[n - 1]);
      RemoveEach(text, fillers[..n]) == if found != [] then (Scan(prev.0, fillers[n - 1], [], 0).0, prev.1 + found) else prev
  {
    assert fillers[..n][..n - 1] == fillers[..n - 1];
  }

  /** Fillers that find nothing in what is left change nothing. */
  lemma {:induction false} RemoveEachRest(text: string, fillers: seq<string>, n: nat, r: (string, seq<string>))
    requires WellFormedFillers(fillers) && n <= |fillers|
    requires RemoveEach(text, fillers[..n]) == r
    requires forall j | n <= j < |fillers| :: |fillers[j]| > 0 && FindAll(r.0, fillers[j]) == []
    ensures RemoveEach(text, fillers) == r
    decreases |fillers| - n
  {
    if n == |fillers| {
      assert fillers[..n] == fillers;
    } else {
      RemoveEachPrefix(text, fillers, n + 1);
      RemoveEachRest(text, fillers, n + 1, r);
    }
  }

  lemma FindUhInExample(s: string)
    requires s == "um uh"
    ensures FindAll(s, "uh") == ["uh"] && Scan(s, "uh", [], 0).0 == "um "
  {
    assert Scan(s, "uh", [], 5) == ([], []);
    assert MatchAt(s, 3, "uh") && s[3..5] == "uh";
    var r3 := Scan(s, "uh", [], 3);
    assert r3 == ([] + Scan(s, "uh", [], 5).0, [s[3..5]] + Scan(s, "uh", [], 5).1);
    assert !MatchAt(s, 2, "uh");
    var r2 := Scan(s, "uh", [], 2);
    assert r2 == ([s[2]] + r3.0, r3.1);
    assert !MatchAt(s, 1, "uh");
    var r1 := Scan(s, "uh", [], 1);
    assert r1 == ([s[1]] + r2.0, r2.1);
    assert !MatchAt(s, 0, "uh");
    var r0 := Scan(s, "uh", [], 0);
    assert r0 == ([s[0]] + r1.0, r1.1);
  }

  lemma FindUmInExample(s: string)
    requires s == "um "
    ensures FindAll(s, "um") == ["um"] && Scan(s, "um", [], 0).0 == " "
  {
    assert Scan(s, "um", [], 3) == ([], []);
    assert !MatchAt(s, 2, "um");
    var r2 := Scan(s, "um", [], 2);
    assert r2 == ([s[2]] + Scan(s, "um", [], 3).0, Scan(s, "um", [], 3).1);
    assert MatchAt(s, 0, "um") && s[0..2] == "um";
    var r0 := Scan(s, "um", [], 0);
    assert r0 == ([] + r2.0, [s[0..2]] + r2.1);
  }

  /** A pattern longer than the text finds nothing. */
  lemma FindInSingleSpace(f: string)
    requires |f| >= 2
    ensures FindAll(" ", f) == []
  {
    assert Scan(" ", f, [], 1) == ([], []);
    assert !MatchAt(" ", 0, f);
  }

  /** One more filler that finds something. */
  lemma RemoveEachStep(text: string, fillers: seq<string>, n: nat, prev: (string, seq<string>),
                       found: seq<string>, left: string)
    requires WellFormedFillers(fillers) && 0 < n <= |fillers| && |fillers[n - 1]| > 0
    requires WellFormedFillers(fillers[..n - 1]) && RemoveEach(text, fillers[..n - 1]) == prev
    requires FindAll(prev.0, fillers[n - 1]) == found && found != []
    requires Scan(prev.0, fillers[n - 1], [], 0).0 == left
    ensures WellFormedFillers(fillers[..n])
    ensures RemoveEach(text, fillers[..n]) == (left, prev.1 + found)
  {
    RemoveEachPrefix(text, fillers, n);
  }

  lemma RemoveUhFirst(f: seq<string>, text: string)
    requires WellFormedFillers(f) && |f| >= 1 && f[0] == "uh" && text == "um uh"
    ensures WellFormedFillers(f[..1])
    ensures RemoveEach(text, f[..1]) == ("um ", ["uh"])
  {
    assert f[..0] == [];
    assert WellFormedFillers(f[..0]);
    FindUhInExample(text);
    RemoveEachStep(text, f, 1, (text, []), ["uh"], "um ");
    assert [] + ["uh"] == ["uh"];
  }

  lemma RemoveUmSecond(f: seq<string>, text: string, left: string)
    requires WellFormedFillers(f) && |f| >= 2 && f[0] == "uh" && f[1] == "um"
    requires text == "um uh" && left == "um "
    ensures WellFormedFillers(f[..2])
    ensures RemoveEach(text, f[..2]) == (" ", ["uh", "um"])
  {
    RemoveUhFirst(f, text);
    FindUmInExample(left);
    RemoveEachStep(text, f, 2, (left, ["uh"]), ["um"], " ");
    assert ["uh"] + ["um"] == ["uh", "um"];
  }

  /** On `um uh`, any list that starts with `uh`, `um` removes `uh` first and
      then `um`: the removed items follow the list, not the text. */
  lemma RemoveUhThenUm(f: seq<string>)
    requires WellFormedFillers(f) && |f| >= 2 && f[0] == "uh" && f[1] == "um"
    requires forall j | 2 <= j < |f| :: |f[j]| >= 2
    ensures RemoveEach("um uh", f) == (" ", ["uh", "um"])
  {
    RemoveUmSecond(f, "um uh", "um ");
    forall j | 2 <= j < |f| ensures |f[j]| > 0 && FindAll(" ", f[j]) == [] {
      FindInSingleSpace(f[j]);
    }
    RemoveEachRest("um uh", f, 2, (" ", ["uh", "um"]));
  }

  /** With the English list, `um uh` loses both words, and the removed items
      come back as `uh`, `um`, in the order of the list. */
  lemma RemoveFillersExample()
    ensures RemoveFillers("um uh", EnglishFillers) == ([], ["uh", "um"])
  {
    EnglishFillersWellFormed();
    RemoveUhThenUm(EnglishFillers);
    assert CollapseWhitespace(" ") == " ";
    StripEmpty(" ");
  }
}
