/** Left-to-right string rewrites used by the caption clean-up: the `&amp;`
    un-escaping and the three regular-expression substitutions of the caption
    normaliser, each written out as the scan the regular-expression engine does. */
module Text {

  /** The whitespace class of Python's `\s` on text patterns (`str.isspace`). */
  predicate IsSpace(c: char) {
    var n := c as int;
    (0x09 <= n <= 0x0D) || (0x1C <= n <= 0x20) || n == 0x85 || n == 0xA0 || n == 0x1680
    || (0x2000 <= n <= 0x200A) || n == 0x2028 || n == 0x2029 || n == 0x202F
    || n == 0x205F || n == 0x3000
  }

  /** The digit class `\d`, restricted to ASCII digits. */
  predicate IsDigit(c: char) {
    '0' <= c <= '9'
  }

  /** `p` occurs in `s` starting at position `i`. */
  predicate OccursAt(s: string, i: nat, p: string) {
    i + |p| <= |s| && s[i..i + |p|] == p
  }

  /** `p` occurs nowhere in `s`. */
  predicate Absent(s: string, p: string) {
    forall i: nat :: i <= |s| ==> !OccursAt(s, i, p)
  }

  lemma {:induction false} AbsentTail(s: string, p: string)
    requires |s| > 0 && Absent(s, p)
    ensures Absent(s[1..], p)
  {
    forall i: nat | i <= |s[1..]| ensures !OccursAt(s[1..], i, p) {
      assert !OccursAt(s, i + 1, p);
      if i + |p| <= |s[1..]| {
        assert s[i + 1..i + 1 + |p|] == s[1..][i..i + |p|];
      }
    }
  }

  /** An occurrence starts with the pattern's first character. */
  lemma OccursAtHead(s: string, i: nat, p: string)
    ensures |p| > 0 && OccursAt(s, i, p) ==> s[i] == p[0]
  {
    if |p| > 0 && OccursAt(s, i, p) {
      OccursAtChars(s, i, p);
    }
  }

  /** A single mismatching character rules an occurrence out. */
  lemma Mismatch(s: string, i: nat, p: string, k: nat)
    requires k < |p| && i + k < |s| && s[i + k] != p[k]
    ensures !OccursAt(s, i, p)
  {
    if OccursAt(s, i, p) {
      OccursAtChars(s, i, p);
    }
  }

  /** An occurrence agrees with the pattern character by character. */
  lemma OccursAtChars(s: string, i: nat, p: string)
    requires OccursAt(s, i, p)
    ensures forall k :: 0 <= k < |p| ==> s[i + k] == p[k]
  {
    forall k | 0 <= k < |p| ensures s[i + k] == p[k] {
      assert s[i..i + |p|][k] == s[i + k];
    }
  }

  // ---------------------------------------------------------------------------
  // `&amp;` un-escaping (str.replace('&amp;', '&'))
  // ---------------------------------------------------------------------------

  const Amp: string := "&amp;"

  /** Every non-overlapping occurrence of `&amp;`, found left to right, becomes `&`. */
  function Unescape(s: string): (r: string)
    ensures |r| <= |s|
    decreases |s|
  {
    if |s| == 0 then []
    else if OccursAt(s, 0, Amp) then "&" + Unescape(s[5..])
    else [s[0]] + Unescape(s[1..])
  }

  /** HTML escaping of `&`, the encoding whose output Unescape undoes. */
  function Escape(t: string): (r: string)
    ensures |r| >= |t|
  {
    if |t| == 0 then [] else (if t[0] == '&' then Amp else [t[0]]) + Escape(t[1..])
  }

  /** A text containing no `&amp;` is left untouched. */
  lemma {:induction false} UnescapeWithoutAmp(s: string)
    requires Absent(s, Amp)
    ensures Unescape(s) == s
  {
    if |s| > 0 {
      assert !OccursAt(s, 0, Amp);
      AbsentTail(s, Amp);
      UnescapeWithoutAmp(s[1..]);
      assert s == [s[0]] + s[1..];
    }
  }

  /** Un-escaping inverts the `&` escaping. */
  lemma {:induction false} UnescapeEscape(t: string)
    ensures Unescape(Escape(t)) == t
  {
    if |t| > 0 {
      var e := Escape(t);
      UnescapeEscape(t[1..]);
      if t[0] == '&' {
        assert e == Amp + Escape(t[1..]);
        assert OccursAt(e, 0, Amp);
        assert e[5..] == Escape(t[1..]);
      } else {
        assert e == [t[0]] + Escape(t[1..]);
        assert e[0] != '&';
        assert !OccursAt(e, 0, Amp);
        assert e[1..] == Escape(t[1..]);
      }
      assert t == [t[0]] + t[1..];
    }
  }

  /** One pass only: an escaped escape is unescaped once. */
  lemma UnescapeSinglePass()
    ensures Unescape("&amp;amp;") == "&amp;"
  {
    var s := "&amp;amp;";
    assert OccursAt(s, 0, Amp);
    assert s[5..] == "amp;";
    var t := "amp;";
    assert !OccursAt(t, 0, Amp);
    assert Unescape(t) == t by { UnescapeWithoutAmpShort(t); }
  }

  lemma UnescapeWithoutAmpShort(s: string)
    requires |s| < 5 && forall i :: 0 <= i < |s| ==> s[i] != '&'
    ensures Unescape(s) == s
  {
    if |s| > 0 {
      assert !OccursAt(s, 0, Amp);
      UnescapeWithoutAmpShort(s[1..]);
      assert s == [s[0]] + s[1..];
    }
  }

  // ---------------------------------------------------------------------------
  // Tag substitution: (<c>)|(</c>)|(<\d\d:\d\d:\d\d.\d\d\d>) -> " "
  // ---------------------------------------------------------------------------

  /** `<dd:dd:dd?ddd>` at the start of `s`, where `?` is any character but a newline. */
  predicate IsTimestampTag(s: string) {
    |s| >= 14 && s[0] == '<' && IsDigit(s[1]) && IsDigit(s[2]) && s[3] == ':'
    && IsDigit(s[4]) && IsDigit(s[5]) && s[6] == ':' && IsDigit(s[7]) && IsDigit(s[8])
    && s[9] != '\n' && IsDigit(s[10]) && IsDigit(s[11]) && IsDigit(s[12]) && s[13] == '>'
  }

  /** Length of the tag the pattern matches at the start of `s`, 0 for no match. */
  function TagLength(s: string): (k: nat)
    ensures k <= |s|
    ensures k == 0 || k == 3 || k == 4 || k == 14
    ensures k == 0 ==> !OccursAt(s, 0, "<c>") && !OccursAt(s, 0, "</c>") && !IsTimestampTag(s)
  {
    if OccursAt(s, 0, "<c>") then 3
    else if OccursAt(s, 0, "</c>") then 4
    else if IsTimestampTag(s) then 14
    else 0
  }

  /** Every tag match, scanned left to right without overlap, becomes one space. */
  function SubTags(s: string): (r: string)
    ensures |r| <= |s|
    decreases |s|
  {
    if |s| == 0 then []
    else
      var k := TagLength(s);
      if k > 0 then " " + SubTags(s[k..]) else [s[0]] + SubTags(s[1..])
  }

  /** A non-space first output character was copied from an unmatched first input character. */
  lemma SubTagsHead(s: string)
    requires |SubTags(s)| > 0 && SubTags(s)[0] != ' '
    ensures |s| > 0 && TagLength(s) == 0
    ensures SubTags(s)[0] == s[0] && SubTags(s)[1..] == SubTags(s[1..])
  {
  }

  /** The text contains neither caption-cue marker. */
  predicate NoCueTags(s: string) {
    Absent(s, "<c>") && Absent(s, "</c>")
  }

  /** After the substitution no `<c>` or `</c>` remains. */
  lemma {:induction false} SubTagsRemovesCueTags(s: string)
    ensures NoCueTags(SubTags(s))
    decreases |s|
  {
    if |s| > 0 {
      var k := TagLength(s);
      if k > 0 {
        SubTagsRemovesCueTags(s[k..]);
        var rest := SubTags(s[k..]);
        assert SubTags(s) == [' '] + rest;
        OccursAtHead([' '] + rest, 0, "<c>");
        OccursAtHead([' '] + rest, 0, "</c>");
        ConsAbsent(' ', rest, "<c>");
        ConsAbsent(' ', rest, "</c>");
      } else {
        SubTagsRemovesCueTags(s[1..]);
        var rest := SubTags(s[1..]);
        assert SubTags(s) == [s[0]] + rest;
        SubTagsNoCueAtHead(s, "<c>");
        SubTagsNoCueAtHead(s, "</c>");
        ConsAbsent(s[0], rest, "<c>");
        ConsAbsent(s[0], rest, "</c>");
      }
    }
  }

  /** A copied first character cannot start a cue marker in the output. */
  lemma SubTagsNoCueAtHead(s: string, p: string)
    requires |s| > 0 && TagLength(s) == 0 && (p == "<c>" || p == "</c>")
    ensures !OccursAt([s[0]] + SubTags(s[1..]), 0, p)
  {
    CopiedCue(s, p);
  }

  /** A pattern without spaces after its first character that starts the output
      behind a copied first character starts the input too. */
  lemma CopiedCue(s: string, p: string)
    requires |s| > 0 && |p| > 0 && forall k :: 0 < k < |p| ==> p[k] != ' '
    ensures OccursAt([s[0]] + SubTags(s[1..]), 0, p) ==> OccursAt(s, 0, p)
  {
    var r := [s[0]] + SubTags(s[1..]);
    if OccursAt(r, 0, p) {
      OccursAtSplit(r, p);
      assert r[1..] == SubTags(s[1..]);
      SubTagsCopies(s[1..], p[1..]);
      OccursAtSplit(s, p);
    }
  }

  /** A space-free pattern at the start of the output was copied from the start of the input. */
  lemma {:induction false} SubTagsCopies(s: string, p: string)
    requires (forall k :: 0 <= k < |p| ==> p[k] != ' ') && OccursAt(SubTags(s), 0, p)
    ensures OccursAt(s, 0, p)
    decreases |p|
  {
    if |p| > 0 {
      var t := SubTags(s);
      OccursAtSplit(t, p);
      SubTagsHead(s);
      SubTagsCopies(s[1..], p[1..]);
      OccursAtSplit(s, p);
    }
  }

  /** A non-empty pattern starts a text when its first character does and the rest follows. */
  lemma OccursAtSplit(t: string, p: string)
    requires |t| > 0 && |p| > 0
    ensures OccursAt(t, 0, p) <==> t[0] == p[0] && OccursAt(t[1..], 0, p[1..])
  {
    if |p| <= |t| {
      assert t[0..|p|] == [t[0]] + t[1..][0..|p| - 1];
      assert p == [p[0]] + p[1..];
    }
  }

  /** Prepending a character keeps a pattern absent unless it now starts there. */
  lemma ConsAbsent(c: char, rest: string, p: string)
    requires Absent(rest, p) && !OccursAt([c] + rest, 0, p)
    ensures Absent([c] + rest, p)
  {
    forall j: nat | j <= |[c] + rest| ensures !OccursAt([c] + rest, j, p) {
      if j > 0 {
        ShiftOccurrence([c], rest, j - 1, p);
      }
    }
  }

  /** An occurrence in `a + b` past the first character of a one-character `a` lies in `b`. */
  lemma ShiftOccurrence(a: string, b: string, j: nat, p: string)
    requires |a| == 1
    ensures OccursAt(a + b, j + 1, p) <==> OccursAt(b, j, p)
  {
    if j + 1 + |p| <= |a + b| {
      assert (a + b)[j + 1..j + 1 + |p|] == b[j..j + |p|];
    }
  }

  /** A text with no `<` carries no tag and is unchanged. */
  lemma {:induction false} SubTagsWithoutAngle(s: string)
    requires forall i :: 0 <= i < |s| ==> s[i] != '<'
    ensures SubTags(s) == s
  {
    if |s| > 0 {
      OccursAtHead(s, 0, "<c>");
      OccursAtHead(s, 0, "</c>");
      assert TagLength(s) == 0;
      SubTagsWithoutAngle(s[1..]);
      assert s == [s[0]] + s[1..];
    }
  }

  // ---------------------------------------------------------------------------
  // Space collapsing: \x20+ -> " "
  // ---------------------------------------------------------------------------

  /** `s` without its leading U+0020 characters. */
  function DropSpaces(s: string): (r: string)
    ensures |r| <= |s|
    ensures |s| > 0 && s[0] == ' ' ==> |r| < |s|
    ensures r == [] || r[0] != ' '
  {
    if |s| > 0 && s[0] == ' ' then DropSpaces(s[1..]) else s
  }

  /** Every maximal run of U+0020, scanned left to right, becomes one U+0020. */
  function CollapseSpaces(s: string): (r: string)
    ensures |r| <= |s|
    decreases |s|
  {
    if |s| == 0 then []
    else if s[0] == ' ' then " " + CollapseSpaces(DropSpaces(s))
    else [s[0]] + CollapseSpaces(s[1..])
  }

  /** Reference definition: drop each U+0020 that is immediately followed by another. */
  function SquashSpaces(s: string): (r: string)
    decreases |s|
  {
    if |s| == 0 then []
    else if |s| >= 2 && s[0] == ' ' && s[1] == ' ' then SquashSpaces(s[1..])
    else [s[0]] + SquashSpaces(s[1..])
  }

  /** No two consecutive U+0020 characters. */
  predicate NoDoubleSpace(s: string) {
    forall i :: 0 <= i < |s| - 1 ==> !(s[i] == ' ' && s[i + 1] == ' ')
  }

  lemma {:induction false} SquashRun(s: string)
    requires |s| > 0 && s[0] == ' '
    ensures SquashSpaces(s) == " " + SquashSpaces(DropSpaces(s))
    decreases |s|
  {
    if |s| >= 2 && s[1] == ' ' {
      SquashRun(s[1..]);
    }
  }

  /** The scan agrees with the reference definition. */
  lemma {:induction false} CollapseIsSquash(s: string)
    ensures CollapseSpaces(s) == SquashSpaces(s)
    decreases |s|
  {
    if |s| > 0 {
      if s[0] == ' ' {
        SquashRun(s);
        CollapseIsSquash(DropSpaces(s));
      } else {
        CollapseIsSquash(s[1..]);
      }
    }
  }

  lemma {:induction false} SquashHead(s: string)
    requires |s| > 0
    ensures |SquashSpaces(s)| > 0 && SquashSpaces(s)[0] == s[0]
    decreases |s|
  {
    if |s| >= 2 && s[0] == ' ' && s[1] == ' ' {
      SquashHead(s[1..]);
    }
  }

  /** The collapsed text never holds two spaces in a row. */
  lemma {:induction false} SquashNoDoubleSpace(s: string)
    ensures NoDoubleSpace(SquashSpaces(s))
    decreases |s|
  {
    if |s| > 0 {
      SquashNoDoubleSpace(s[1..]);
      if !(|s| >= 2 && s[0] == ' ' && s[1] == ' ') {
        var rest := SquashSpaces(s[1..]);
        if |s| >= 2 {
          SquashHead(s[1..]);
        }
        assert SquashSpaces(s) == [s[0]] + rest;
        forall i | 0 <= i < |SquashSpaces(s)| - 1
          ensures !(SquashSpaces(s)[i] == ' ' && SquashSpaces(s)[i + 1] == ' ')
        {
          if i > 0 {
            assert SquashSpaces(s)[i] == rest[i - 1];
          }
        }
      }
    }
  }

  /** Collapsing leaves a text unchanged exactly when it has no two spaces in a row. */
  lemma {:induction false} SquashFixedPoint(s: string)
    ensures SquashSpaces(s) == s <==> NoDoubleSpace(s)
    decreases |s|
  {
    SquashNoDoubleSpace(s);
    if |s| > 0 && NoDoubleSpace(s) {
      assert NoDoubleSpace(s[1..]) by {
        forall i | 0 <= i < |s[1..]| - 1 ensures !(s[1..][i] == ' ' && s[1..][i + 1] == ' ') {
          assert s[1..][i] == s[i + 1] && s[1..][i + 1] == s[i + 2];
        }
      }
      SquashFixedPoint(s[1..]);
      assert !(|s| >= 2 && s[0] == ' ' && s[1] == ' ');
      assert s == [s[0]] + s[1..];
    }
  }

  /** A non-space first character of the collapsed text is the first input character. */
  lemma SquashHeadKept(t: string)
    requires |SquashSpaces(t)| > 0 && SquashSpaces(t)[0] != ' '
    ensures |t| > 0 && t[0] == SquashSpaces(t)[0] && SquashSpaces(t)[1..] == SquashSpaces(t[1..])
  {
    if |t| > 0 && t[0] == ' ' {
      SquashHead(t);
    }
  }

  /** Collapsing spaces never joins characters into a cue marker. */
  lemma {:induction false} SquashKeepsCueFree(s: string)
    requires NoCueTags(s)
    ensures NoCueTags(SquashSpaces(s))
    decreases |s|
  {
    if |s| > 0 {
      AbsentTail(s, "<c>");
      AbsentTail(s, "</c>");
      SquashKeepsCueFree(s[1..]);
      var rest := SquashSpaces(s[1..]);
      if !(|s| >= 2 && s[0] == ' ' && s[1] == ' ') {
        var r := [s[0]] + rest;
        if |s| >= 3 {
          assert s[1..][1..] == s[2..];
          assert s[2..][1..] == s[3..];
        }
        assert !OccursAt(s, 0, "<c>") && !OccursAt(s, 0, "</c>");
        if OccursAt(r, 0, "<c>") {
          OccursAtChars(r, 0, "<c>");
          assert rest[0] == r[1] && rest[1] == r[2];
          SquashHeadKept(s[1..]);
          SquashHeadKept(s[2..]);
          assert false;
        }
        if OccursAt(r, 0, "</c>") {
          OccursAtChars(r, 0, "</c>");
          assert rest[0] == r[1] && rest[1] == r[2] && rest[2] == r[3];
          SquashHeadKept(s[1..]);
          SquashHeadKept(s[2..]);
          SquashHeadKept(s[3..]);
          assert false;
        }
        ConsAbsent(s[0], rest, "<c>");
        ConsAbsent(s[0], rest, "</c>");
      }
    }
  }

  /** A text holding no U+0020 is unchanged by collapsing. */
  lemma {:induction false} CollapseWithoutSpaces(s: string)
    requires forall i :: 0 <= i < |s| ==> s[i] != ' '
    ensures CollapseSpaces(s) == s
  {
    if |s| > 0 {
      CollapseWithoutSpaces(s[1..]);
      assert s == [s[0]] + s[1..];
    }
  }

  /** Collapsing passes a space-free prefix through unchanged. */
  lemma {:induction false} CollapseAfterWord(a: string, b: string)
    requires forall i :: 0 <= i < |a| ==> a[i] != ' '
    ensures CollapseSpaces(a + b) == a + CollapseSpaces(b)
  {
    if |a| > 0 {
      var ab := a + b;
      assert ab[0] == a[0] && ab[0] != ' ';
      assert ab[1..] == a[1..] + b;
      assert CollapseSpaces(ab) == [a[0]] + CollapseSpaces(ab[1..]);
      CollapseAfterWord(a[1..], b);
      assert a == [a[0]] + a[1..];
    } else {
      assert a + b == b;
    }
  }

  // ---------------------------------------------------------------------------
  // Whitespace removal: \s+ -> ""
  // ---------------------------------------------------------------------------

  /** `s` with every whitespace character removed, order kept. */
  function RemoveWhitespace(s: string): (r: string)
    ensures |r| <= |s|
  {
    if |s| == 0 then []
    else (if IsSpace(s[0]) then [] else [s[0]]) + RemoveWhitespace(s[1..])
  }

  /** No whitespace character. */
  predicate NoWhitespace(s: string) {
    forall i :: 0 <= i < |s| ==> !IsSpace(s[i])
  }

  /** The tight text holds no whitespace. */
  lemma {:induction false} RemoveWhitespaceClean(s: string)
    ensures NoWhitespace(RemoveWhitespace(s))
  {
    if |s| > 0 {
      RemoveWhitespaceClean(s[1..]);
      var rest := RemoveWhitespace(s[1..]);
      var r := RemoveWhitespace(s);
      if !IsSpace(s[0]) {
        assert r == [s[0]] + rest;
        assert forall i :: 1 <= i < |r| ==> r[i] == rest[i - 1];
      } else {
        assert r == rest;
      }
    }
  }

  /** Removing whitespace changes a text exactly when it holds some whitespace. */
  lemma {:induction false} RemoveWhitespaceFixedPoint(s: string)
    ensures RemoveWhitespace(s) == s <==> NoWhitespace(s)
  {
    RemoveWhitespaceClean(s);
    if |s| > 0 && NoWhitespace(s) {
      RemoveWhitespaceFixedPoint(s[1..]);
      assert s == [s[0]] + s[1..];
    }
  }

  lemma {:induction false} RemoveWhitespaceAppend(a: string, b: string)
    ensures RemoveWhitespace(a + b) == RemoveWhitespace(a) + RemoveWhitespace(b)
  {
    if |a| > 0 {
      assert (a + b)[1..] == a[1..] + b;
      RemoveWhitespaceAppend(a[1..], b);
    } else {
      assert a + b == b;
    }
  }

  /** Collapsing spaces only drops spaces, so the tight text does not depend on it. */
  lemma {:induction false} SquashKeepsTight(s: string)
    ensures RemoveWhitespace(SquashSpaces(s)) == RemoveWhitespace(s)
    decreases |s|
  {
    if |s| > 0 {
      SquashKeepsTight(s[1..]);
      if |s| >= 2 && s[0] == ' ' && s[1] == ' ' {
        assert IsSpace(s[0]);
      } else {
        RemoveWhitespaceAppend([s[0]], SquashSpaces(s[1..]));
      }
    }
  }
}
