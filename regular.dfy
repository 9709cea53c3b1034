/** The caption normaliser and its fuzzy equality (class RegularText of the
    subtitle module): a caption's cleaned text, its tight form without any
    whitespace, and the tight length that drives the comparison. */
module RegularTexts {
  import opened Text

  /** Below this tight length two captions must match exactly. */
  const ShortLength: nat := 5

  datatype RegularText = RegularText(text: string, noamp: string, len: nat)

  /** The three fields agree as the constructor sets them. */
  predicate WellFormed(t: RegularText) {
    t.len == |t.noamp|
  }

  /** Tags become spaces, space runs collapse, and the tight form drops all whitespace. */
  function Normalize(raw: string): (t: RegularText)
    ensures WellFormed(t)
  {
    var text := CollapseSpaces(SubTags(raw));
    var noamp := RemoveWhitespace(text);
    RegularText(text, noamp, |noamp|)
  }

  /** What normalising leaves: no double space and no cue tag in the text, no
      whitespace in the tight form, which is the tag-substituted input with all
      whitespace removed. */
  lemma NormalizeClean(raw: string)
    ensures NoDoubleSpace(Normalize(raw).text)
    ensures NoCueTags(Normalize(raw).text)
    ensures NoWhitespace(Normalize(raw).noamp)
    ensures Normalize(raw).noamp == RemoveWhitespace(SubTags(raw))
  {
    var tagged := SubTags(raw);
    var text := CollapseSpaces(tagged);
    CollapseIsSquash(tagged);
    SquashNoDoubleSpace(tagged);
    SquashKeepsTight(tagged);
    RemoveWhitespaceClean(text);
    SubTagsRemovesCueTags(raw);
    SquashKeepsCueFree(tagged);
  }

  /** `__eq__`: exact tight equality when either side is short, else a prefix test. */
  function FuzzyEq(a: RegularText, b: RegularText): (r: bool)
    ensures a.noamp == b.noamp ==> r
    ensures r ==> a.noamp <= b.noamp || b.noamp <= a.noamp
    ensures r && (a.len < ShortLength || b.len < ShortLength) ==> a.noamp == b.noamp
  {
    if a.len < ShortLength || b.len < ShortLength then a.noamp == b.noamp
    else
      var (shorter, longer) := if a.len >= b.len then (b.noamp, a.noamp) else (a.noamp, b.noamp);
      shorter <= longer
  }

  /** For well-formed texts equality is: exact below the threshold, else either is a prefix. */
  lemma FuzzyEqMeaning(a: RegularText, b: RegularText)
    requires WellFormed(a) && WellFormed(b)
    ensures FuzzyEq(a, b) <==>
      if |a.noamp| < ShortLength || |b.noamp| < ShortLength then a.noamp == b.noamp
      else a.noamp <= b.noamp || b.noamp <= a.noamp
  {
    if |a.noamp| >= ShortLength && |b.noamp| >= ShortLength {
      if a.noamp <= b.noamp && |a.noamp| >= |b.noamp| {
        PrefixOfSameLength(a.noamp, b.noamp);
      }
      if b.noamp <= a.noamp && |a.noamp| < |b.noamp| {
        assert false;
      }
    }
  }

  /** A prefix as long as the whole is the whole. */
  lemma PrefixOfSameLength(p: string, s: string)
    requires p <= s && |p| >= |s|
    ensures p == s
  {
    assert p == s[..|p|];
  }

  /** On tight texts of one length the prefix test is plain equality. */
  lemma FuzzyEqSameLength(a: RegularText, b: RegularText)
    requires WellFormed(a) && WellFormed(b) && a.len == b.len
    ensures FuzzyEq(a, b) <==> a.noamp == b.noamp
  {
    if a.noamp <= b.noamp {
      PrefixOfSameLength(a.noamp, b.noamp);
    }
    if b.noamp <= a.noamp {
      PrefixOfSameLength(b.noamp, a.noamp);
    }
  }

  lemma FuzzyEqReflexive(a: RegularText)
    ensures FuzzyEq(a, a)
  {
  }

  lemma FuzzyEqSymmetric(a: RegularText, b: RegularText)
    requires WellFormed(a) && WellFormed(b)
    ensures FuzzyEq(a, b) == FuzzyEq(b, a)
  {
    FuzzyEqMeaning(a, b);
    FuzzyEqMeaning(b, a);
  }

  /** Chained comparison is needed: the relation is not transitive, since two
      different one-character extensions of a long caption both match it. */
  lemma FuzzyEqNotTransitive(a: RegularText, b: RegularText, c: RegularText, x: char, y: char)
    requires WellFormed(a) && WellFormed(b) && WellFormed(c) && b.len >= ShortLength
    requires a.noamp == b.noamp + [x] && c.noamp == b.noamp + [y] && x != y
    ensures FuzzyEq(a, b) && FuzzyEq(b, c) && !FuzzyEq(a, c)
  {
    assert a.noamp[|b.noamp|] != c.noamp[|b.noamp|];
  }

  /** A text without `<` or whitespace is its own tight form. */
  lemma NoSpecialChars(s: string)
    requires forall i :: 0 <= i < |s| ==> s[i] != '<' && !IsSpace(s[i])
    ensures Normalize(s).noamp == s
  {
    NormalizeClean(s);
    SubTagsWithoutAngle(s);
    RemoveWhitespaceFixedPoint(s);
  }

  /** Normalising twice can differ from normalising once: collapsing the two
      spaces of `<00:00:00  000>` forms a timestamp tag the first pass missed. */
  lemma NormalizeNotIdempotent()
    ensures Normalize("<00:00:00  000>").text == "<00:00:00 000>"
    ensures Normalize(Normalize("<00:00:00  000>").text).text == " "
  {
    GappedStampNormalizes();
    StampNormalizes();
  }

  lemma GappedStampNormalizes()
    ensures Normalize("<00:00:00  000>").text == "<00:00:00 000>"
  {
    GappedStampIsNoTag("<00:00:00  000>");
    GappedStampCollapses();
  }

  lemma StampNormalizes()
    ensures Normalize("<00:00:00 000>").text == " "
  {
    StampIsTag();
    assert CollapseSpaces(" ") == " " by { assert DropSpaces(" ") == []; }
  }

  lemma GappedStampIsNoTag(s: string)
    requires s == "<00:00:00  000>"
    ensures SubTags(s) == s
  {
    GappedStampUntagged(s);
    SubTagsOneAngle(s);
  }

  lemma GappedStampUntagged(s: string)
    requires s == "<00:00:00  000>"
    ensures TagLength(s) == 0 && forall i :: 1 <= i < |s| ==> s[i] != '<'
  {
    Mismatch(s, 0, "<c>", 1);
    Mismatch(s, 0, "</c>", 1);
    assert !IsTimestampTag(s) by { assert s[10] == ' '; }
  }

  /** A text whose only `<` opens no tag is left as it is. */
  lemma SubTagsOneAngle(s: string)
    requires |s| > 0 && TagLength(s) == 0 && forall i :: 1 <= i < |s| ==> s[i] != '<'
    ensures SubTags(s) == s
  {
    var tail := s[1..];
    assert forall i :: 0 <= i < |tail| ==> tail[i] == s[i + 1];
    SubTagsWithoutAngle(tail);
    assert s == [s[0]] + tail;
  }

  lemma GappedStampCollapses()
    ensures CollapseSpaces("<00:00:00  000>") == "<00:00:00 000>"
  {
    CollapseGap("<00:00:00", "000>");
    assert "<00:00:00" + "  " + "000>" == "<00:00:00  000>";
    assert "<00:00:00" + " " + "000>" == "<00:00:00 000>";
  }

  /** Two spaces between space-free words collapse to one. */
  lemma CollapseGap(word: string, rest: string)
    requires forall i :: 0 <= i < |word| ==> word[i] != ' '
    requires forall i :: 0 <= i < |rest| ==> rest[i] != ' '
    ensures CollapseSpaces(word + "  " + rest) == word + " " + rest
  {
    var gap := "  " + rest;
    assert word + "  " + rest == word + gap;
    CollapseAfterWord(word, gap);
    GapCollapses(rest);
    assert word + (" " + rest) == word + " " + rest;
  }

  /** Two leading spaces before a space-free word collapse to one. */
  lemma GapCollapses(rest: string)
    requires forall i :: 0 <= i < |rest| ==> rest[i] != ' '
    ensures CollapseSpaces("  " + rest) == " " + rest
  {
    var gap := "  " + rest;
    assert gap[0] == ' ' && gap[1..][0] == ' ' && gap[1..][1..] == rest;
    assert DropSpaces(gap) == DropSpaces(gap[1..]) == DropSpaces(rest);
    assert DropSpaces(rest) == rest;
    CollapseWithoutSpaces(rest);
  }

  lemma StampIsTag()
    ensures SubTags("<00:00:00 000>") == " "
  {
    var once := "<00:00:00 000>";
    Mismatch(once, 0, "<c>", 1);
    Mismatch(once, 0, "</c>", 1);
    assert IsTimestampTag(once);
    assert TagLength(once) == 14;
    assert once[14..] == [];
  }
}
