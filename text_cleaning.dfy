/**
 * `clean_text` (gutenberg/crawl.py): three substitutions applied one after the other.
 *   1. every maximal run of characters above U+007F becomes one space;
 *   2. every character in U+0000..U+001F or U+007F..U+009F is deleted;
 *   3. carriage returns, line feeds and tabs become spaces.
 * Step 3 never finds anything to replace, because step 2 has already deleted those characters.
 */
module TextCleaning {
  import opened Strings

  predicate IsAscii(c: char) {
    c as int <= 0x7F
  }

  /** The class `[\x00-\x1F\x7F-\x9F]` of the second substitution. */
  predicate IsControl(c: char) {
    c as int <= 0x1F || 0x7F <= c as int <= 0x9F
  }

  predicate IsPrintable(c: char) {
    0x20 <= c as int <= 0x7E
  }

  predicate AllAscii(s: string) {
    forall i :: 0 <= i < |s| ==> IsAscii(s[i])
  }

  predicate AllPrintable(s: string) {
    forall i :: 0 <= i < |s| ==> IsPrintable(s[i])
  }

  /**
   * The first substitution on the rest of the text: a non-ASCII character contributes a space
   * only when it starts a run, that is, when the character before it is ASCII (`afterAscii`).
   */
  function CollapseFrom(s: string, afterAscii: bool): string {
    if s == [] then []
    else if IsAscii(s[0]) then [s[0]] + CollapseFrom(s[1..], true)
    else if afterAscii then [' '] + CollapseFrom(s[1..], false)
    else CollapseFrom(s[1..], false)
  }

  /** `re.sub(r'[^\x00-\x7F]+', ' ', text)`: at the start of the text a run begins afresh. */
  function CollapseNonAscii(s: string): string {
    CollapseFrom(s, true)
  }

  /** `re.sub(r'[\x00-\x1F\x7F-\x9F]+', '', text)`: deleting a run is deleting each of its characters. */
  function RemoveControls(s: string): string {
    if s == [] then []
    else
      var front, c := s[..|s| - 1], s[|s| - 1];
      if IsControl(c) then RemoveControls(front) else RemoveControls(front) + [c]
  }

  /** `text.replace(old, new)` for a single character. */
  function ReplaceChar(s: string, from: char, to: char): string {
    seq(|s|, i requires 0 <= i < |s| => if s[i] == from then to else s[i])
  }

  /** `.replace('\r', ' ').replace('\n', ' ').replace('\t', ' ')`. */
  function ReplaceBreaks(s: string): string {
    ReplaceChar(ReplaceChar(ReplaceChar(s, '\r', ' '), '\n', ' '), '\t', ' ')
  }

  function CleanText(s: string): string {
    ReplaceBreaks(RemoveControls(CollapseNonAscii(s)))
  }

  // ---------------------------------------------------------------------------------------------
  // The first substitution

  /** Nothing above U+007F survives the first substitution. */
  lemma {:induction false} CollapseIsAscii(s: string, afterAscii: bool)
    ensures AllAscii(CollapseFrom(s, afterAscii))
  {
    if s != [] {
      CollapseIsAscii(s[1..], IsAscii(s[0]));
    }
  }

  lemma {:induction false} CollapseNotLonger(s: string, afterAscii: bool)
    ensures |CollapseFrom(s, afterAscii)| <= |s|
  {
    if s != [] {
      CollapseNotLonger(s[1..], IsAscii(s[0]));
    }
  }

  /** Text that is already ASCII passes through unchanged. */
  lemma {:induction false} CollapseKeepsAscii(s: string, afterAscii: bool)
    requires AllAscii(s)
    ensures CollapseFrom(s, afterAscii) == s
  {
    if s != [] {
      CollapseKeepsAscii(s[1..], true);
      assert [s[0]] + s[1..] == s;
    }
  }

  /** A whole run of non-ASCII characters, however long, becomes a single space. */
  lemma {:induction false} CollapseRun(s: string, afterAscii: bool)
    requires forall i :: 0 <= i < |s| ==> !IsAscii(s[i])
    ensures CollapseFrom(s, afterAscii) == if afterAscii && s != [] then " " else ""
  {
    if s != [] {
      CollapseRun(s[1..], false);
    }
  }

  /** Whether the character before the rest of the text is ASCII, once `s` has been read. */
  function EndsAscii(s: string, afterAscii: bool): bool {
    if s == [] then afterAscii else IsAscii(s[|s| - 1])
  }

  /** Collapsing a concatenation is collapsing each part, the second knowing how the first ended. */
  lemma {:induction false} CollapseFromSplit(a: string, b: string, afterAscii: bool)
    ensures CollapseFrom(a + b, afterAscii) == CollapseFrom(a, afterAscii) + CollapseFrom(b, EndsAscii(a, afterAscii))
  {
    if a == [] {
      assert a + b == b;
    } else {
      var rest := a[1..];
      assert (a + b)[0] == a[0];
      assert (a + b)[1..] == rest + b;
      CollapseFromSplit(rest, b, IsAscii(a[0]));
      assert EndsAscii(rest, IsAscii(a[0])) == EndsAscii(a, afterAscii) by {
        if rest != [] {
          assert rest[|rest| - 1] == a[|a| - 1];
        }
      }
    }
  }

  /**
   * Runs do not reach across an ASCII character: the text may be cut next to one and each part
   * collapsed alone.
   */
  lemma CollapseSplit(a: string, b: string)
    requires a == [] || b == [] || IsAscii(a[|a| - 1]) || IsAscii(b[0])
    ensures CollapseNonAscii(a + b) == CollapseNonAscii(a) + CollapseNonAscii(b)
  {
    CollapseFromSplit(a, b, true);
  }

  /** An ASCII character stays put, and its two sides are collapsed on their own. */
  lemma CollapseAround(a: string, c: char, b: string)
    requires IsAscii(c)
    ensures CollapseNonAscii(a + [c] + b) == CollapseNonAscii(a) + [c] + CollapseNonAscii(b)
  {
    CollapseSplit(a, [c]);
    assert [c][0] == c;
    assert (a + [c])[|a + [c]| - 1] == c;
    CollapseSplit(a + [c], b);
    CollapseKeepsAscii([c], true);
  }

  // ---------------------------------------------------------------------------------------------
  // The second and third substitutions

  lemma {:induction false} RemoveControlsSpec(s: string)
    ensures var r := RemoveControls(s);
      && |r| <= |s|
      && (forall i :: 0 <= i < |r| ==> !IsControl(r[i]))
      && IsSubsequence(r, s)
  {
    if s != [] {
      var front := s[..|s| - 1];
      RemoveControlsSpec(front);
      assert s[..|s| - 1] == front;
      var r := RemoveControls(s);
      if !IsControl(s[|s| - 1]) {
        assert r[..|r| - 1] == RemoveControls(front);
      }
    }
  }

  /** Text without control characters passes through unchanged. */
  lemma {:induction false} RemoveControlsKeeps(s: string)
    requires forall i :: 0 <= i < |s| ==> !IsControl(s[i])
    ensures RemoveControls(s) == s
  {
    if s != [] {
      RemoveControlsKeeps(s[..|s| - 1]);
      assert s[..|s| - 1] + [s[|s| - 1]] == s;
    }
  }

  /** Deleting characters one by one commutes with concatenation. */
  lemma {:induction false} RemoveControlsSplit(a: string, b: string)
    ensures RemoveControls(a + b) == RemoveControls(a) + RemoveControls(b)
  {
    if b == [] {
      assert a + b == a;
    } else {
      var front := b[..|b| - 1];
      assert (a + b)[..|a + b| - 1] == a + front;
      assert (a + b)[|a + b| - 1] == b[|b| - 1];
      RemoveControlsSplit(a, front);
    }
  }

  lemma ReplaceCharAbsent(s: string, from: char, to: char)
    requires forall i :: 0 <= i < |s| ==> s[i] != from
    ensures ReplaceChar(s, from, to) == s
  {
  }

  /** Once the controls are gone, the three replacements find nothing. */
  lemma ReplaceBreaksAfterRemoval(s: string)
    requires forall i :: 0 <= i < |s| ==> !IsControl(s[i])
    ensures ReplaceBreaks(s) == s
  {
    ReplaceCharAbsent(s, '\r', ' ');
    ReplaceCharAbsent(s, '\n', ' ');
    ReplaceCharAbsent(s, '\t', ' ');
  }

  // ---------------------------------------------------------------------------------------------
  // The whole sanitiser

  /** In effect `clean_text` is the first two substitutions. */
  lemma CleanTextIsTwoSteps(s: string)
    ensures CleanText(s) == RemoveControls(CollapseNonAscii(s))
  {
    RemoveControlsSpec(CollapseNonAscii(s));
    ReplaceBreaksAfterRemoval(RemoveControls(CollapseNonAscii(s)));
  }

  /**
   * The output holds only U+0020..U+007E, is never longer than the input, and keeps the order
   * of what survives the first substitution.
   */
  lemma CleanTextSpec(s: string)
    ensures var r := CleanText(s);
      && AllPrintable(r)
      && |r| <= |s|
      && IsSubsequence(r, CollapseNonAscii(s))
  {
    var c := CollapseNonAscii(s);
    CleanTextIsTwoSteps(s);
    CollapseIsAscii(s, true);
    CollapseNotLonger(s, true);
    RemoveControlsSpec(c);
    var r := RemoveControls(c);
    forall i | 0 <= i < |r| ensures IsPrintable(r[i]) {
      SubsequenceMember(r, c, i);
    }
  }

  /** Every element of a subsequence is an element of the sequence. */
  lemma {:induction false} SubsequenceMember<T>(a: seq<T>, b: seq<T>, i: nat)
    requires IsSubsequence(a, b) && i < |a|
    ensures exists j :: 0 <= j < |b| && b[j] == a[i]
    decreases |b|
  {
    var front := b[..|b| - 1];
    if a[|a| - 1] == b[|b| - 1] && IsSubsequence(a[..|a| - 1], front) {
      if i == |a| - 1 {
        assert b[|b| - 1] == a[i];
      } else {
        SubsequenceMember(a[..|a| - 1], front, i);
        var j :| 0 <= j < |front| && front[j] == a[i];
        assert b[j] == a[i];
      }
    } else {
      SubsequenceMember(a, front, i);
      var j :| 0 <= j < |front| && front[j] == a[i];
      assert b[j] == a[i];
    }
  }

  /** Printable ASCII text is left exactly as it is. */
  lemma CleanTextKeepsPrintable(s: string)
    requires AllPrintable(s)
    ensures CleanText(s) == s
  {
    CollapseKeepsAscii(s, true);
    RemoveControlsKeeps(s);
    CleanTextIsTwoSteps(s);
  }

  /** Cleaning twice is cleaning once. */
  lemma CleanTextIdempotent(s: string)
    ensures CleanText(CleanText(s)) == CleanText(s)
  {
    CleanTextSpec(s);
    CleanTextKeepsPrintable(CleanText(s));
  }

  /** A printable character stays where it is, and each side of it is cleaned on its own. */
  lemma CleanTextAround(a: string, c: char, b: string)
    requires IsPrintable(c)
    ensures CleanText(a + [c] + b) == CleanText(a) + [c] + CleanText(b)
  {
    CollapseAround(a, c, b);
    var ca, cb := CollapseNonAscii(a), CollapseNonAscii(b);
    RemoveControlsSplit(ca + [c], cb);
    RemoveControlsSplit(ca, [c]);
    assert !IsControl(c);
    RemoveControlsKeeps([c]);
    CleanTextIsTwoSteps(a + [c] + b);
    CleanTextIsTwoSteps(a);
    CleanTextIsTwoSteps(b);
  }

  /** A run of non-ASCII characters comes out as one space. */
  lemma CleanTextRun(s: string)
    requires s != []
    requires forall i :: 0 <= i < |s| ==> !IsAscii(s[i])
    ensures CleanText(s) == " "
  {
    CollapseRun(s, true);
    CleanTextIsTwoSteps(s);
    RemoveControlsKeeps(" ");
  }

  /** An ASCII control character, line breaks and tabs included, disappears and joins its two sides. */
  lemma CleanTextDropsControl(a: string, c: char, b: string)
    requires IsAscii(c) && IsControl(c)
    ensures CleanText(a + [c] + b) == CleanText(a) + CleanText(b)
  {
    CollapseAround(a, c, b);
    var ca, cb := CollapseNonAscii(a), CollapseNonAscii(b);
    RemoveControlsSplit(ca + [c], cb);
    RemoveControlsSplit(ca, [c]);
    assert [c][..0] == [];
    assert RemoveControls([c]) == [];
    CleanTextIsTwoSteps(a + [c] + b);
    CleanTextIsTwoSteps(a);
    CleanTextIsTwoSteps(b);
  }

  /** So a line break between two lines of plain text glues them together: "end\nstart" gives "endstart". */
  lemma CleanTextJoinsLines(a: string, b: string)
    requires AllPrintable(a) && AllPrintable(b)
    ensures CleanText(a + "\n" + b) == a + b
  {
    CleanTextDropsControl(a, '\n', b);
    CleanTextKeepsPrintable(a);
    CleanTextKeepsPrintable(b);
  }

  // ---------------------------------------------------------------------------------------------
  // The sanitiser with the replacements done before the deletion

  /** Line breaks and tabs become spaces first; the remaining controls are then deleted. */
  function CleanTextBreaksFirst(s: string): string {
    RemoveControls(ReplaceBreaks(CollapseNonAscii(s)))
  }

  predicate IsBreak(c: char) {
    c == '\r' || c == '\n' || c == '\t'
  }

  lemma ReplaceBreaksSplit(a: string, b: string)
    ensures ReplaceBreaks(a + b) == ReplaceBreaks(a) + ReplaceBreaks(b)
  {
  }

  lemma ReplaceBreaksAround(a: string, c: char, b: string)
    requires IsBreak(c)
    ensures ReplaceBreaks(a + [c] + b) == ReplaceBreaks(a) + " " + ReplaceBreaks(b)
  {
    ReplaceBreaksSplit(a + [c], b);
    ReplaceBreaksSplit(a, [c]);
    assert ReplaceBreaks([c]) == " ";
  }

  /** The corrected order keeps the promises of the original one. */
  lemma CleanTextBreaksFirstSpec(s: string)
    ensures var r := CleanTextBreaksFirst(s);
      && AllPrintable(r)
      && |r| <= |s|
  {
    var c := CollapseNonAscii(s);
    CollapseIsAscii(s, true);
    CollapseNotLonger(s, true);
    var m := ReplaceBreaks(c);
    assert AllAscii(m);
    RemoveControlsSpec(m);
    var r := RemoveControls(m);
    forall i | 0 <= i < |r| ensures IsPrintable(r[i]) {
      SubsequenceMember(r, m, i);
    }
  }

  /** ... and turns a line break or a tab between two pieces of text into a space. */
  lemma CleanTextBreaksFirstAround(a: string, c: char, b: string)
    requires IsBreak(c)
    ensures CleanTextBreaksFirst(a + [c] + b) == CleanTextBreaksFirst(a) + " " + CleanTextBreaksFirst(b)
  {
    CollapseAround(a, c, b);
    var ca, cb := CollapseNonAscii(a), CollapseNonAscii(b);
    ReplaceBreaksAround(ca, c, cb);
    var ra, rb := ReplaceBreaks(ca), ReplaceBreaks(cb);
    RemoveControlsSplit(ra + " ", rb);
    RemoveControlsSplit(ra, " ");
    RemoveControlsKeeps(" ");
  }

  lemma CleanTextBreaksFirstKeepsPrintable(s: string)
    requires AllPrintable(s)
    ensures CleanTextBreaksFirst(s) == s
  {
    CollapseKeepsAscii(s, true);
    ReplaceBreaksAfterRemoval(s);
    RemoveControlsKeeps(s);
  }

  /** Two lines of plain text stay apart, separated by one space: "end\nstart" gives "end start". */
  lemma CleanTextBreaksFirstSeparatesLines(a: string, b: string)
    requires AllPrintable(a) && AllPrintable(b)
    ensures CleanTextBreaksFirst(a + "\n" + b) == a + " " + b
  {
    CleanTextBreaksFirstAround(a, '\n', b);
    CleanTextBreaksFirstKeepsPrintable(a);
    CleanTextBreaksFirstKeepsPrintable(b);
  }
}
