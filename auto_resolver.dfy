/**
 * The automatic conflict resolver `PRManager.handle_conflict_file`.
 *
 * The file content is split on the start marker; every section, the first one included,
 * that contains both the separator and the end marker is a conflict: it is replaced by
 * its current side, its incoming side or both, each stripped and followed by a line break.
 * Every other section is copied unchanged. The start markers themselves never reach the output.
 */
module AutoResolver {
  import opened Wrappers
  import opened Text

  const START := "<<<<<<< HEAD"
  const SEPARATOR := "======="
  const END := ">>>>>>>"

  /** A section is handled as a conflict when it holds both a separator and an end marker, in any order. */
  predicate IsConflictSection(section: string) {
    Contains(section, SEPARATOR) && Contains(section, END)
  }

  /** `section.split('=======')[0].strip()`: the stripped text before the first separator. */
  function CurrentSide(section: string): (r: string)
    ensures Find(section, SEPARATOR).None? ==> r == Strip(section)
    ensures Find(section, SEPARATOR).Some? ==> r == Strip(section[..Find(section, SEPARATOR).value])
  {
    SplitHead(section, SEPARATOR);
    Strip(SplitOn(section, SEPARATOR)[0])
  }

  /**
   * `section.split('=======')[1].split('>>>>>>>')[0].strip()`: the text after the first
   * separator, cut at the next separator and then at the first end marker, stripped.
   */
  function IncomingSide(section: string): (r: string)
    requires Contains(section, SEPARATOR)
    ensures var piece := SplitOn(section[Find(section, SEPARATOR).value + |SEPARATOR|..], SEPARATOR)[0];
      (Find(piece, END).None? ==> r == Strip(piece)) &&
      (Find(piece, END).Some? ==> r == Strip(piece[..Find(piece, END).value]))
  {
    SplitHead(section, SEPARATOR);
    var piece := SplitOn(section, SEPARATOR)[1];
    SplitHead(piece, END);
    Strip(SplitOn(piece, END)[0])
  }

  /**
   * The text one hunk becomes: the non-empty side, or both sides when neither is empty. It
   * always ends with a line break, and holds at most the two sides and two line breaks.
   */
  function HunkText(current: string, incoming: string): (r: string)
    ensures |r| > 0 && r[|r| - 1] == '\n' && |r| <= |current| + |incoming| + 2
  {
    if current == "" then incoming + "\n"
    else if incoming == "" then current + "\n"
    else current + "\n" + incoming + "\n"
  }

  /** What one section contributes to the output. */
  function SectionText(section: string): string {
    if IsConflictSection(section) then HunkText(CurrentSide(section), IncomingSide(section))
    else section
  }

  /** The contributions of `sections`, in order. */
  function ResolvedText(sections: seq<string>): string {
    if sections == [] then "" else SectionText(sections[0]) + ResolvedText(sections[1..])
  }

  /** The content `handle_conflict_file` writes back for `content`. */
  function AutoResolved(content: string): string {
    ResolvedText(SplitOn(content, START))
  }

  /**
   * What a call of `handle_conflict_file` ends in: the content written back, a hand-over to
   * the interactive resolver, or the exception raised when it cannot resolve a hunk.
   */
  datatype FileOutcome = Written(content: string) | Escalated | Raised(message: string)

  /**
   * `handle_conflict_file(path, interactive)` on the file's `content`. It never escalates
   * and never raises: the last branch of the strategy test is unreachable, since a hunk
   * whose sides are both non-empty always takes the union branch.
   */
  method HandleConflictFile(path: string, content: string, interactive: bool) returns (outcome: FileOutcome)
    ensures outcome == Written(AutoResolved(content))
  {
    var sections := SplitOn(content, START);
    var resolved := "";
    for i := 0 to |sections|
      invariant resolved == ResolvedText(sections[..i])
    {
      var section := sections[i];
      ghost var before := resolved;
      SectionTextCases(section);
      if Contains(section, SEPARATOR) && Contains(section, END) {
        var currentChanges := Strip(SplitOn(section, SEPARATOR)[0]);
        var incomingChanges := Strip(SplitOn(SplitOn(section, SEPARATOR)[1], END)[0]);
        if currentChanges == "" {
          resolved := resolved + (incomingChanges + "\n");
        } else if incomingChanges == "" {
          resolved := resolved + (currentChanges + "\n");
        } else if |currentChanges| > 0 && |incomingChanges| > 0 {
          resolved := resolved + (currentChanges + "\n" + incomingChanges + "\n");
        } else {
          if interactive {
            return Escalated;
          }
          return Raised("Unable to automatically resolve conflict in " + path);
        }
      } else {
        resolved := resolved + section;
      }
      ResolvedTextStep(sections, i, before, resolved);
    }
    assert sections[..|sections|] == sections;
    outcome := Written(resolved);
  }

  /** The contribution of one section, in the terms the resolver loop computes it. */
  lemma SectionTextCases(section: string)
    ensures Contains(section, SEPARATOR) && Contains(section, END) ==>
      SplitOn(section, SEPARATOR)[0] == section[..Find(section, SEPARATOR).value] &&
      SectionText(section) == HunkText(Strip(SplitOn(section, SEPARATOR)[0]), Strip(SplitOn(SplitOn(section, SEPARATOR)[1], END)[0]))
    ensures !(Contains(section, SEPARATOR) && Contains(section, END)) ==> SectionText(section) == section
  {
    SplitHead(section, SEPARATOR);
  }

  /**
   * Resolving a conflict section always shortens it: the separator is never copied, and
   * at most two line breaks are added.
   */
  lemma ConflictSectionShrinks(section: string)
    requires IsConflictSection(section)
    ensures |SectionText(section)| + |SEPARATOR| <= |section| + 2
  {
    SplitHead(section, SEPARATOR);
    var f := Find(section, SEPARATOR).value;
    var piece := SplitOn(section, SEPARATOR)[1];
    assert piece == SplitOn(section[f + |SEPARATOR|..], SEPARATOR)[0];
    SplitHeadBound(section[f + |SEPARATOR|..], SEPARATOR);
    SplitHeadBound(piece, END);
  }

  /** One step of the resolver loop: the contribution of section `i` is appended. */
  lemma ResolvedTextStep(sections: seq<string>, i: nat, before: string, after: string)
    requires i < |sections| && before == ResolvedText(sections[..i])
    requires after == before + SectionText(sections[i])
    ensures after == ResolvedText(sections[..i + 1])
  {
    assert sections[..i + 1] == sections[..i] + [sections[i]];
    ResolvedTextSnoc(sections[..i], sections[i]);
  }

  /** Appending a section appends its contribution. */
  lemma {:induction false} ResolvedTextSnoc(sections: seq<string>, section: string)
    ensures ResolvedText(sections + [section]) == ResolvedText(sections) + SectionText(section)
  {
    if sections != [] {
      assert (sections + [section])[1..] == sections[1..] + [section];
      ResolvedTextSnoc(sections[1..], section);
    }
  }

  /** Sections are resolved independently and their results kept in order. */
  lemma {:induction false} ResolvedTextConcat(xs: seq<string>, ys: seq<string>)
    ensures ResolvedText(xs + ys) == ResolvedText(xs) + ResolvedText(ys)
  {
    if xs == [] {
      assert xs + ys == ys;
    } else {
      assert (xs + ys)[1..] == xs[1..] + ys;
      ResolvedTextConcat(xs[1..], ys);
    }
  }

  /** Text with no start marker is one section. */
  lemma SingleSection(content: string)
    requires !Contains(content, START)
    ensures AutoResolved(content) == SectionText(content)
  {
    SplitHead(content, START);
    assert [content][1..] == [];
    assert ResolvedText([content]) == SectionText(content) + "";
  }

  /** Text with no start marker that is not itself a conflict section is written back unchanged. */
  lemma IdentityOnMarkerFree(content: string)
    requires !Contains(content, START) && !IsConflictSection(content)
    ensures AutoResolved(content) == content
  {
    SingleSection(content);
  }

  /**
   * The start marker is consumed: the text before the first marker is resolved as a
   * section of its own and the result is followed by the resolution of what comes after it.
   */
  lemma DelimiterDropped(a: string, b: string)
    requires !Contains(a, START)
    ensures AutoResolved(a + START + b) == SectionText(a) + AutoResolved(b)
  {
    SplitAtFirst(a, START, b);
  }

  /** No separator starts before the end of the end marker in `middle + END + tail`. */
  lemma NoSeparatorUpToEnd(middle: string, tail: string)
    requires !Contains(middle, SEPARATOR)
    ensures forall j: nat :: j < |middle| + |END| ==> !OccursAt(middle + END + tail, SEPARATOR, j)
  {
    var rest := middle + END + tail;
    forall j: nat | j + |SEPARATOR| <= |middle|
      ensures OccursAt(rest, SEPARATOR, j) ==> OccursAt(middle, SEPARATOR, j)
    {
      assert rest[j..j + |SEPARATOR|] == middle[j..j + |SEPARATOR|];
    }
    forall j: nat | j < |middle| + |END| && j + |SEPARATOR| > |middle|
      ensures !OccursAt(rest, SEPARATOR, j)
    {
      var p := if j < |middle| then |middle| else j;
      assert rest[p] == END[p - |middle|];
      if j + |SEPARATOR| <= |rest| {
        assert rest[j..j + |SEPARATOR|][p - j] == rest[p];
      }
    }
  }

  /** The first piece after the separator in `middle + END + tail` reaches past that end marker. */
  lemma PieceKeepsEnd(middle: string, tail: string) returns (w: string)
    requires !Contains(middle, SEPARATOR)
    ensures SplitOn(middle + END + tail, SEPARATOR)[0] == middle + END + w
  {
    var rest := middle + END + tail;
    SplitHead(rest, SEPARATOR);
    NoSeparatorUpToEnd(middle, tail);
    match Find(rest, SEPARATOR)
    case None =>
      w := tail;
    case Some(j) =>
      w := tail[..j - |middle| - |END|];
      assert rest[..j] == middle + END + w;
  }

  /**
   * The sides of a hunk as git writes it, `before` the separator line and `middle` between it
   * and the end marker: neither holds a marker that would cut the hunk elsewhere, and neither
   * ends with a character that could start an overlapping marker.
   */
  predicate PlainSides(before: string, middle: string) {
    !Contains(before, SEPARATOR) && (before != [] ==> before[|before| - 1] !in SEPARATOR) &&
    !Contains(middle, SEPARATOR) && !Contains(middle, END) && (middle != [] ==> middle[|middle| - 1] !in END)
  }

  /** The two sides the resolver reads off a hunk as git writes it. */
  lemma HunkSides(before: string, middle: string, tail: string)
    requires PlainSides(before, middle)
    ensures var s := before + SEPARATOR + middle + END + tail;
      Contains(s, SEPARATOR) && CurrentSide(s) == Strip(before) && IncomingSide(s) == Strip(middle)
  {
    var rest := middle + END + tail;
    var s := before + SEPARATOR + middle + END + tail;
    assert s == before + SEPARATOR + rest;
    SplitAtFirst(before, SEPARATOR, rest);
    var w := PieceKeepsEnd(middle, tail);
    SplitAtFirst(middle, END, w);
  }

  /** A hunk as git writes it is a conflict section. */
  lemma HunkIsConflict(before: string, middle: string, tail: string)
    ensures IsConflictSection(before + SEPARATOR + middle + END + tail)
  {
    var s := before + SEPARATOR + middle + END + tail;
    assert s[|before|..|before| + |SEPARATOR|] == SEPARATOR;
    assert OccursAt(s, SEPARATOR, |before|);
    assert s[|before| + |SEPARATOR| + |middle|..|before| + |SEPARATOR| + |middle| + |END|] == END;
    assert OccursAt(s, END, |before| + |SEPARATOR| + |middle|);
  }

  /**
   * The automatic rule on a hunk as git writes it: `before` the separator, `middle` between it
   * and the end marker, `tail` after it. The hunk becomes the stripped side that is not blank,
   * or both sides when neither is, each followed by a line break; whatever follows the end
   * marker in the section (its label, and ordinary lines up to the next start marker) is dropped.
   * The side conditions keep the first separator and the first end marker where they are written.
   */
  lemma HunkRule(before: string, middle: string, tail: string)
    requires PlainSides(before, middle)
    ensures SectionText(before + SEPARATOR + middle + END + tail) ==
      if AllSpace(before) then Strip(middle) + "\n"
      else if AllSpace(middle) then Strip(before) + "\n"
      else Strip(before) + "\n" + Strip(middle) + "\n"
  {
    HunkSides(before, middle, tail);
    HunkIsConflict(before, middle, tail);
    StripSpec(before);
    StripSpec(middle);
  }

  /**
   * A file made of ordinary text `pre`, one start marker and one `hunk` as git writes it
   * (`before` the separator, `middle` up to the end marker, `tail` after it), with no further
   * start marker: `pre` is kept, and the whole hunk, label and trailing text included, becomes
   * its resolution by the automatic rule.
   */
  lemma OneHunkFile(pre: string, before: string, middle: string, tail: string, hunk: string)
    requires hunk == before + SEPARATOR + middle + END + tail
    requires !Contains(pre, START) && !IsConflictSection(pre) && !Contains(hunk, START)
    requires PlainSides(before, middle)
    ensures AutoResolved(pre + START + hunk) ==
      pre + if AllSpace(before) then Strip(middle) + "\n"
            else if AllSpace(middle) then Strip(before) + "\n"
            else Strip(before) + "\n" + Strip(middle) + "\n"
  {
    DelimiterDropped(pre, hunk);
    SingleSection(hunk);
    HunkRule(before, middle, tail);
  }

  /** A hunk whose parts hold no `<` holds no start marker. */
  lemma HunkLacksStart(before: string, middle: string, tail: string)
    requires START[0] !in before && START[0] !in middle && START[0] !in tail
    ensures !Contains(before + SEPARATOR + middle + END + tail, START)
  {
    assert START[0] !in SEPARATOR && START[0] !in END;
    LacksFirstChar(before + SEPARATOR + middle + END + tail, START);
  }

  /** Text with one start marker, and none in the text on either side of it, splits into two sections. */
  lemma TwoSections(pre: string, hunk: string)
    requires !Contains(pre, START) && !Contains(hunk, START)
    ensures SplitOn(pre + START + hunk, START) == [pre, hunk]
  {
    SplitAtFirst(pre, START, hunk);
    SplitHead(hunk, START);
  }

  /** `strip` of a word between two line breaks. */
  lemma StripLineBreaks(s: string, w: string)
    requires s == "\n" + w + "\n"
    requires IsWord(w)
    ensures Strip(s) == w && !AllSpace(s)
  {
    assert s[1] == w[0] && s[|s| - 2] == w[|w| - 1];
    assert SkipSpace(s, 1) == 1;
    assert SkipSpace(s, 0) == 1;
    assert SkipSpaceBack(s, 1, |s| - 1) == |s| - 1;
    assert SkipSpaceBack(s, 1, |s|) == |s| - 1;
    assert s[1..|s| - 1] == w;
  }

  /**
   * A file whose incoming side is empty keeps the current side, and the end marker's
   * label and the line after the hunk are lost:
   * `"a\n<<<<<<< HEAD\nfoo\n=======\n>>>>>>> branch\nb\n"` becomes `"a\nfoo\n"`.
   */
  lemma ScenarioEmptyIncoming(pre: string, current: string, incoming: string, tail: string)
    requires pre == "a\n" && current == "\nfoo\n" && incoming == "\n" && tail == " branch\nb\n"
    ensures AutoResolved(pre + START + current + SEPARATOR + incoming + END + tail) == "a\nfoo\n"
  {
    ScenarioEmptyIncomingFacts(pre, current, incoming, tail);
    var hunk := current + SEPARATOR + incoming + END + tail;
    assert pre + START + current + SEPARATOR + incoming + END + tail == pre + START + hunk;
    HunkLacksStart(current, incoming, tail);
    OneHunkFile(pre, current, incoming, tail, hunk);
  }

  lemma ScenarioEmptyIncomingFacts(pre: string, current: string, incoming: string, tail: string)
    requires pre == "a\n" && current == "\nfoo\n" && incoming == "\n" && tail == " branch\nb\n"
    ensures !Contains(pre, START) && !IsConflictSection(pre)
    ensures START[0] !in current && START[0] !in incoming && START[0] !in tail
    ensures !Contains(current, SEPARATOR) && current[|current| - 1] !in SEPARATOR
    ensures !Contains(incoming, SEPARATOR) && !Contains(incoming, END) && incoming[|incoming| - 1] !in END
    ensures Strip(current) == "foo" && !AllSpace(current) && AllSpace(incoming)
    ensures pre + ("foo" + "\n") == "a\nfoo\n"
  {
    assert '<' !in pre && '=' !in pre && '=' !in current && '=' !in incoming && '>' !in incoming;
    LacksFirstChar(pre, START);
    LacksFirstChar(pre, SEPARATOR);
    LacksFirstChar(current, SEPARATOR);
    LacksFirstChar(incoming, SEPARATOR);
    LacksFirstChar(incoming, END);
    StripLineBreaks(current, "foo");
  }

  /** Ordinary text followed by two start-marked sections. */
  lemma TwoSectionFile(pre: string, h1: string, h2: string)
    requires !Contains(pre, START) && !IsConflictSection(pre)
    requires !Contains(h1, START) && !Contains(h2, START)
    ensures AutoResolved(pre + START + h1 + START + h2) == pre + (SectionText(h1) + SectionText(h2))
  {
    assert pre + START + h1 + START + h2 == pre + START + (h1 + START + h2);
    DelimiterDropped(pre, h1 + START + h2);
    DelimiterDropped(h1, h2);
    SingleSection(h2);
  }

  /** A hunk whose two sides are single words `w1` and `w2` without marker characters. */
  lemma WordsHunk(current: string, incoming: string, tail: string, w1: string, w2: string)
    requires current == "\n" + w1 + "\n" && incoming == "\n" + w2 + "\n"
    requires IsWord(w1) && IsWord(w2)
    requires '<' !in w1 + w2 + tail && '=' !in w1 + w2 && '>' !in w2
    ensures !Contains(current + SEPARATOR + incoming + END + tail, START)
    ensures SectionText(current + SEPARATOR + incoming + END + tail) == w1 + "\n" + w2 + "\n"
  {
    var hunk := current + SEPARATOR + incoming + END + tail;
    assert '<' !in current && '<' !in incoming && '<' !in tail && '<' !in SEPARATOR && '<' !in END;
    LacksFirstChar(hunk, START);
    assert '=' !in current && '=' !in incoming && '>' !in incoming;
    LacksFirstChar(current, SEPARATOR);
    LacksFirstChar(incoming, SEPARATOR);
    LacksFirstChar(incoming, END);
    StripLineBreaks(current, w1);
    StripLineBreaks(incoming, w2);
    HunkRule(current, incoming, tail);
  }

  /** A word: non-empty, with no white space at either end. */
  predicate IsWord(w: string) {
    w != [] && !IsSpace(w[0]) && !IsSpace(w[|w| - 1])
  }

  /**
   * Ordinary text followed by two hunks whose sides are the words `w1`/`w2` and `w3`/`w4`:
   * each hunk becomes its two sides in order, and the text after each end marker is dropped.
   */
  lemma TwoWordHunks(pre: string, w1: string, w2: string, t1: string, w3: string, w4: string, t2: string)
    requires !Contains(pre, START) && !IsConflictSection(pre)
    requires IsWord(w1) && IsWord(w2) && IsWord(w3) && IsWord(w4)
    requires '<' !in w1 + w2 + t1 && '=' !in w1 + w2 && '>' !in w2
    requires '<' !in w3 + w4 + t2 && '=' !in w3 + w4 && '>' !in w4
    ensures AutoResolved(pre + START + ("\n" + w1 + "\n") + SEPARATOR + ("\n" + w2 + "\n") + END + t1
                             + START + ("\n" + w3 + "\n") + SEPARATOR + ("\n" + w4 + "\n") + END + t2)
      == pre + ((w1 + "\n" + w2 + "\n") + (w3 + "\n" + w4 + "\n"))
  {
    var c1, i1, c2, i2 := "\n" + w1 + "\n", "\n" + w2 + "\n", "\n" + w3 + "\n", "\n" + w4 + "\n";
    var h1 := c1 + SEPARATOR + i1 + END + t1;
    var h2 := c2 + SEPARATOR + i2 + END + t2;
    assert pre + START + c1 + SEPARATOR + i1 + END + t1 + START + c2 + SEPARATOR + i2 + END + t2
      == pre + START + h1 + START + h2;
    WordsHunk(c1, i1, t1, w1, w2);
    WordsHunk(c2, i2, t2, w3, w4);
    TwoSectionFile(pre, h1, h2);
  }

  /**
   * `"x\n<<<<<<< HEAD\none\n=======\ntwo\n>>>>>>> br\nmid\n<<<<<<< HEAD\nthree\n=======\nfour\n>>>>>>> br\nz\n"`
   * becomes `"x\none\ntwo\nthree\nfour\n"`: both hunks keep both sides, and the lines
   * `mid` and `z` after the end markers are lost.
   */
  lemma ScenarioTwoUnions(pre: string, w1: string, w2: string, t1: string, w3: string, w4: string, t2: string)
    requires pre == "x\n" && w1 == "one" && w2 == "two" && t1 == " br\nmid\n"
    requires w3 == "three" && w4 == "four" && t2 == " br\nz\n"
    ensures AutoResolved(pre + START + ("\n" + w1 + "\n") + SEPARATOR + ("\n" + w2 + "\n") + END + t1
                             + START + ("\n" + w3 + "\n") + SEPARATOR + ("\n" + w4 + "\n") + END + t2)
      == "x\none\ntwo\nthree\nfour\n"
  {
    ScenarioTwoUnionsFacts(pre, w1, w2, t1, w3, w4, t2);
    TwoWordHunks(pre, w1, w2, t1, w3, w4, t2);
  }

  lemma ScenarioTwoUnionsFacts(pre: string, w1: string, w2: string, t1: string, w3: string, w4: string, t2: string)
    requires pre == "x\n" && w1 == "one" && w2 == "two" && t1 == " br\nmid\n"
    requires w3 == "three" && w4 == "four" && t2 == " br\nz\n"
    ensures !Contains(pre, START) && !IsConflictSection(pre)
    ensures IsWord(w1) && IsWord(w2) && IsWord(w3) && IsWord(w4)
    ensures '<' !in w1 + w2 + t1 && '=' !in w1 + w2 && '>' !in w2
    ensures '<' !in w3 + w4 + t2 && '=' !in w3 + w4 && '>' !in w4
    ensures pre + ((w1 + "\n" + w2 + "\n") + (w3 + "\n" + w4 + "\n")) == "x\none\ntwo\nthree\nfour\n"
  {
    assert '<' !in pre && '=' !in pre;
    LacksFirstChar(pre, START);
    LacksFirstChar(pre, SEPARATOR);
  }
}
