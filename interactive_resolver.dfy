/**
 * The interactive conflict resolver `PRManager.interactive_resolve_conflict`.
 *
 * The console is modelled by the sequence of lines the user types, in order; prompts and
 * echoed text are output only and are left out. Each conflict section after the first start
 * marker asks for one choice line; choice `4` then reads lines up to the first one that strips
 * to `END`. Running out of lines is Python's `EOFError`, which leaves the file untouched.
 */
module InteractiveResolver {
  import opened Wrappers
  import opened Text
  import opened AutoResolver

  /** The terminator of a manual edit, compared after stripping the line. */
  const MANUAL_END := "END"

  /** `line.strip() == 'END'`. */
  predicate IsTerminator(line: string) {
    Strip(line) == MANUAL_END
  }

  /** The lines of a manual edit and the position of the first line after its terminator. */
  datatype Manual = Manual(lines: seq<string>, next: nat)

  /**
   * Either the resolved text and the position of the first console line left unread,
   * or the input ran out (`EOFError`).
   */
  datatype Session = Finished(text: string, next: nat) | InputExhausted

  /** The position of the first terminator in `inputs` at or after `from`, or `|inputs|` when there is none. */
  function FirstTerminator(inputs: seq<string>, from: nat): (n: nat)
    requires from <= |inputs|
    ensures from <= n <= |inputs|
    decreases |inputs| - from
  {
    if from == |inputs| || IsTerminator(inputs[from]) then from else FirstTerminator(inputs, from + 1)
  }

  /** `FirstTerminator` finds the first line from `from` on that strips to `END`. */
  lemma {:induction false} FirstTerminatorIsFirst(inputs: seq<string>, from: nat)
    requires from <= |inputs|
    ensures var n := FirstTerminator(inputs, from);
      (n < |inputs| ==> IsTerminator(inputs[n])) && forall k :: from <= k < n ==> !IsTerminator(inputs[k])
    decreases |inputs| - from
  {
    if from < |inputs| && !IsTerminator(inputs[from]) {
      FirstTerminatorIsFirst(inputs, from + 1);
    }
  }

  /**
   * The manual edit read from position `from`: the lines before the first terminator, and
   * the position after that terminator. There is none when no line from `from` on is one.
   */
  function ReadManual(inputs: seq<string>, from: nat): (r: Option<Manual>)
    requires from <= |inputs|
    ensures r.Some? ==> from < r.value.next <= |inputs|
  {
    var n := FirstTerminator(inputs, from);
    if n == |inputs| then None else Some(Manual(inputs[from..n], n + 1))
  }

  /**
   * The manual edit ends at the first line that strips to `END`: it is missing exactly when
   * no line does, and otherwise holds, in order, the lines before that one, none of which does,
   * and reading resumes just after it.
   */
  lemma ReadManualSpec(inputs: seq<string>, from: nat)
    requires from <= |inputs|
    ensures ReadManual(inputs, from).None? <==> forall k :: from <= k < |inputs| ==> !IsTerminator(inputs[k])
    ensures ReadManual(inputs, from).Some? ==>
      var m := ReadManual(inputs, from).value;
      var n := m.next - 1;
      IsTerminator(inputs[n]) && m.lines == inputs[from..n] &&
      forall k :: from <= k < n ==> !IsTerminator(inputs[k])
  {
    FirstTerminatorIsFirst(inputs, from);
  }

  /** What a hunk becomes for the choices `1`, `2` and `3`; any other choice drops it. */
  function ChoiceText(choice: string, current: string, incoming: string): string
    requires choice != "4"
  {
    if choice == "1" then current + "\n"
    else if choice == "2" then incoming + "\n"
    else if choice == "3" then current + "\n" + incoming + "\n"
    else ""
  }

  /** What a manual edit becomes: its lines joined by line breaks, and a final line break. */
  function ManualText(lines: seq<string>): (r: string)
    ensures |r| > 0 && r[|r| - 1] == '\n'
  {
    Join(lines, "\n") + "\n"
  }

  /** `text` in front of what a session produces; an exhausted input stays exhausted. */
  function Prepend(text: string, s: Session): (r: Session)
    ensures r.InputExhausted? <==> s.InputExhausted?
    ensures r.Finished? ==> r.text == text + s.text && r.next == s.next
  {
    match s
    case Finished(t, next) => Finished(text + t, next)
    case InputExhausted => InputExhausted
  }

  /** Prepending twice is prepending the concatenation. */
  lemma PrependPrepend(a: string, b: string, s: Session)
    ensures Prepend(a, Prepend(b, s)) == Prepend(a + b, s)
  {
    if s.Finished? {
      assert a + (b + s.text) == (a + b) + s.text;
    }
  }

  /** The number of conflict sections in `sections` from index `i` on. */
  function Conflicts(sections: seq<string>, i: nat): nat
    requires i <= |sections|
    decreases |sections| - i
  {
    if i == |sections| then 0
    else (if IsConflictSection(sections[i]) then 1 else 0) + Conflicts(sections, i + 1)
  }

  /**
   * The sections from index `i` on, resolved in order against the console lines from
   * position `pos` on. A session that finishes has read at least one line per conflict
   * section and never reads past the end of the input.
   */
  function Run(sections: seq<string>, i: nat, inputs: seq<string>, pos: nat): (r: Session)
    requires i <= |sections| && pos <= |inputs|
    ensures r.Finished? ==> pos + Conflicts(sections, i) <= r.next <= |inputs|
    decreases |sections| - i
  {
    if i == |sections| then Finished("", pos)
    else
      var section := sections[i];
      if IsConflictSection(section) then
        if pos == |inputs| then InputExhausted
        else if inputs[pos] == "4" then
          match ReadManual(inputs, pos + 1)
          case None => InputExhausted
          case Some(m) => Prepend(ManualText(m.lines), Run(sections, i + 1, inputs, m.next))
        else Prepend(ChoiceText(inputs[pos], CurrentSide(section), IncomingSide(section)), Run(sections, i + 1, inputs, pos + 1))
      else Prepend(section, Run(sections, i + 1, inputs, pos))
  }

  /** A section that is not a conflict is copied and reads nothing. */
  lemma RunPlain(sections: seq<string>, i: nat, inputs: seq<string>, pos: nat)
    requires i < |sections| && pos <= |inputs| && !IsConflictSection(sections[i])
    ensures Run(sections, i, inputs, pos) == Prepend(sections[i], Run(sections, i + 1, inputs, pos))
  {
  }

  /** A conflict section answered with a choice other than `4` reads that one line. */
  lemma RunChoice(sections: seq<string>, i: nat, inputs: seq<string>, pos: nat)
    requires i < |sections| && pos < |inputs| && IsConflictSection(sections[i]) && inputs[pos] != "4"
    ensures Run(sections, i, inputs, pos) ==
      Prepend(ChoiceText(inputs[pos], CurrentSide(sections[i]), IncomingSide(sections[i])), Run(sections, i + 1, inputs, pos + 1))
  {
  }

  /** A conflict section answered with `4` reads the manual edit after the choice line. */
  lemma RunManual(sections: seq<string>, i: nat, inputs: seq<string>, pos: nat)
    requires i < |sections| && pos < |inputs| && IsConflictSection(sections[i]) && inputs[pos] == "4"
    ensures ReadManual(inputs, pos + 1).None? ==> Run(sections, i, inputs, pos) == InputExhausted
    ensures ReadManual(inputs, pos + 1).Some? ==>
      var m := ReadManual(inputs, pos + 1).value;
      Run(sections, i, inputs, pos) == Prepend(ManualText(m.lines), Run(sections, i + 1, inputs, m.next))
  {
  }

  /** The two sides as the resolver loop computes them. */
  lemma SidesAsComputed(section: string)
    requires Contains(section, SEPARATOR)
    ensures CurrentSide(section) == Strip(SplitOn(section, SEPARATOR)[0])
    ensures |SplitOn(section, SEPARATOR)| >= 2
    ensures IncomingSide(section) == Strip(SplitOn(SplitOn(section, SEPARATOR)[1], END)[0])
  {
  }

  /**
   * What `interactive_resolve_conflict` writes for `content` when the user types `inputs`:
   * the text before the first start marker verbatim, then the remaining sections resolved.
   */
  function InteractiveResolve(content: string, inputs: seq<string>): Session {
    var sections := SplitOn(content, START);
    Prepend(sections[0], Run(sections, 1, inputs, 0))
  }

  /**
   * `interactive_resolve_conflict(file_path)` on the file's `content`, reading the console
   * lines `inputs`. The file is written, and `True` returned, exactly when the session finishes.
   */
  method InteractiveResolveConflict(path: string, content: string, inputs: seq<string>) returns (session: Session)
    ensures session == InteractiveResolve(content, inputs)
  {
    var sections := SplitOn(content, START);
    var resolved := sections[0];
    var cursor: nat := 0;
    for i := 1 to |sections|
      invariant cursor <= |inputs|
      invariant Prepend(resolved, Run(sections, i, inputs, cursor)) == InteractiveResolve(content, inputs)
    {
      var section := sections[i];
      ghost var before := resolved;
      ghost var pos := cursor;
      if Contains(section, SEPARATOR) && Contains(section, END) {
        var currentChanges := Strip(SplitOn(section, SEPARATOR)[0]);
        var incomingChanges := Strip(SplitOn(SplitOn(section, SEPARATOR)[1], END)[0]);
        SidesAsComputed(section);
        if cursor == |inputs| {
          return InputExhausted;
        }
        var choice := inputs[cursor];
        cursor := cursor + 1;
        if choice == "1" {
          resolved := resolved + (currentChanges + "\n");
        } else if choice == "2" {
          resolved := resolved + (incomingChanges + "\n");
        } else if choice == "3" {
          resolved := resolved + (currentChanges + "\n" + incomingChanges + "\n");
        } else if choice == "4" {
          var manual, next := ReadManualLines(inputs, cursor);
          RunManual(sections, i, inputs, pos);
          if manual.None? {
            return InputExhausted;
          }
          cursor := next;
          resolved := resolved + (Join(manual.value.lines, "\n") + "\n");
          PrependPrepend(before, ManualText(manual.value.lines), Run(sections, i + 1, inputs, cursor));
        }
        if choice != "4" {
          RunChoice(sections, i, inputs, pos);
          assert resolved == before + ChoiceText(choice, currentChanges, incomingChanges);
          PrependPrepend(before, ChoiceText(choice, currentChanges, incomingChanges), Run(sections, i + 1, inputs, cursor));
        }
      } else {
        RunPlain(sections, i, inputs, cursor);
        resolved := resolved + section;
        PrependPrepend(before, section, Run(sections, i + 1, inputs, cursor));
      }
    }
    session := Finished(resolved, cursor);
  }

  /**
   * The `while True` loop of choice `4`: reads lines from position `start` up to and
   * including the first terminator, keeping the lines before it.
   */
  method ReadManualLines(inputs: seq<string>, start: nat) returns (manual: Option<Manual>, next: nat)
    requires start <= |inputs|
    ensures manual == ReadManual(inputs, start)
    ensures manual.Some? ==> next == manual.value.next
  {
    var cursor := start;
    var manualContent := [];
    while true
      invariant start <= cursor <= |inputs|
      invariant manualContent == inputs[start..cursor]
      invariant FirstTerminator(inputs, start) == FirstTerminator(inputs, cursor)
      decreases |inputs| - cursor
    {
      if cursor == |inputs| {
        return None, cursor;
      }
      var line := inputs[cursor];
      cursor := cursor + 1;
      if IsTerminator(line) {
        return Some(Manual(manualContent, cursor)), cursor;
      }
      assert inputs[start..cursor] == inputs[start..cursor - 1] + [line];
      manualContent := manualContent + [line];
    }
  }

  /**
   * Text without a start marker is written back unchanged and reads no input, even when
   * it is itself a conflict section: only sections after a start marker are prompted for.
   */
  lemma NoMarkerUnchanged(content: string, inputs: seq<string>)
    requires !Contains(content, START)
    ensures InteractiveResolve(content, inputs) == Finished(content, 0)
  {
    SplitHead(content, START);
    assert content + "" == content;
  }

  /**
   * The two resolvers disagree on a conflict written without a start marker line: the
   * interactive one keeps it as it is, the automatic one replaces it by a shorter text.
   */
  lemma FirstSectionAsymmetry(content: string, inputs: seq<string>)
    requires !Contains(content, START) && IsConflictSection(content)
    ensures InteractiveResolve(content, inputs) == Finished(content, 0)
    ensures |AutoResolved(content)| < |content|
  {
    NoMarkerUnchanged(content, inputs);
    SingleSection(content);
    ConflictSectionShrinks(content);
  }

  /**
   * In every file, the text before the first start marker is kept verbatim at the head of a
   * finished interactive session, while the automatic resolver puts it through the hunk rule
   * like any other section, and a conflict there comes out shorter.
   */
  lemma FirstSectionKept(content: string, inputs: seq<string>)
    ensures var first := SplitOn(content, START)[0];
      var session := InteractiveResolve(content, inputs);
      (session.Finished? ==> |first| <= |session.text| && session.text[..|first|] == first) &&
      AutoResolved(content) == SectionText(first) + ResolvedText(SplitOn(content, START)[1..]) &&
      (IsConflictSection(first) ==> |SectionText(first)| < |first|)
  {
    var first := SplitOn(content, START)[0];
    if IsConflictSection(first) {
      ConflictSectionShrinks(first);
    }
  }

  /**
   * A file of ordinary text `pre`, one start marker and one `hunk` as git writes it, with no
   * further start marker, is read as exactly those two sections, and the operator is shown the
   * hunk's two stripped sides.
   */
  lemma OneHunkRun(pre: string, before: string, middle: string, tail: string, hunk: string)
    requires hunk == before + SEPARATOR + middle + END + tail
    requires !Contains(pre, START) && !Contains(hunk, START) && PlainSides(before, middle)
    ensures SplitOn(pre + START + hunk, START) == [pre, hunk]
    ensures IsConflictSection(hunk) && CurrentSide(hunk) == Strip(before) && IncomingSide(hunk) == Strip(middle)
  {
    TwoSections(pre, hunk);
    HunkSides(before, middle, tail);
    HunkIsConflict(before, middle, tail);
  }

  /**
   * One hunk answered with `1`, `2` or `3` keeps the current side, the incoming side or
   * both; any other answer except `4` drops the hunk. Exactly one line is read.
   */
  lemma OneHunkChoice(pre: string, before: string, middle: string, tail: string, hunk: string, inputs: seq<string>)
    requires hunk == before + SEPARATOR + middle + END + tail
    requires !Contains(pre, START) && !Contains(hunk, START) && PlainSides(before, middle)
    requires |inputs| > 0 && inputs[0] != "4"
    ensures InteractiveResolve(pre + START + hunk, inputs)
      == Finished(pre + ChoiceText(inputs[0], Strip(before), Strip(middle)), 1)
  {
    OneHunkRun(pre, before, middle, tail, hunk);
    HunkChoice(pre + START + hunk, pre, hunk, inputs);
  }

  /** A file of two sections, the second a conflict, answered with a choice other than `4`. */
  lemma HunkChoice(content: string, pre: string, hunk: string, inputs: seq<string>)
    requires SplitOn(content, START) == [pre, hunk] && IsConflictSection(hunk)
    requires |inputs| > 0 && inputs[0] != "4"
    ensures InteractiveResolve(content, inputs)
      == Finished(pre + ChoiceText(inputs[0], CurrentSide(hunk), IncomingSide(hunk)), 1)
  {
    RunChoice([pre, hunk], 1, inputs, 0);
    var text := ChoiceText(inputs[0], CurrentSide(hunk), IncomingSide(hunk));
    assert Run([pre, hunk], 2, inputs, 1) == Finished("", 1);
    assert text + "" == text;
  }

  /** A file of two sections, the second a conflict, answered with `4`. */
  lemma HunkManual(content: string, pre: string, hunk: string, inputs: seq<string>)
    requires SplitOn(content, START) == [pre, hunk] && IsConflictSection(hunk)
    requires |inputs| > 0 && inputs[0] == "4"
    ensures ReadManual(inputs, 1).None? ==> InteractiveResolve(content, inputs) == InputExhausted
    ensures ReadManual(inputs, 1).Some? ==>
      InteractiveResolve(content, inputs)
      == Finished(pre + ManualText(ReadManual(inputs, 1).value.lines), ReadManual(inputs, 1).value.next)
  {
    RunManual([pre, hunk], 1, inputs, 0);
    if ReadManual(inputs, 1).Some? {
      var m := ReadManual(inputs, 1).value;
      assert Run([pre, hunk], 2, inputs, m.next) == Finished("", m.next);
      assert ManualText(m.lines) + "" == ManualText(m.lines);
    }
  }

  /**
   * One hunk answered with `4` becomes the manual edit typed after it, and reading resumes
   * after its terminator; without a terminator the input runs out.
   */
  lemma OneHunkManual(pre: string, before: string, middle: string, tail: string, hunk: string, inputs: seq<string>)
    requires hunk == before + SEPARATOR + middle + END + tail
    requires !Contains(pre, START) && !Contains(hunk, START) && PlainSides(before, middle)
    requires |inputs| > 0 && inputs[0] == "4"
    ensures ReadManual(inputs, 1).None? ==> InteractiveResolve(pre + START + hunk, inputs) == InputExhausted
    ensures ReadManual(inputs, 1).Some? ==>
      InteractiveResolve(pre + START + hunk, inputs)
      == Finished(pre + ManualText(ReadManual(inputs, 1).value.lines), ReadManual(inputs, 1).value.next)
  {
    OneHunkRun(pre, before, middle, tail, hunk);
    HunkManual(pre + START + hunk, pre, hunk, inputs);
  }

  /** With no console input at all, a file with a hunk after a start marker is not written. */
  lemma OneHunkNoInput(pre: string, before: string, middle: string, tail: string, hunk: string)
    requires hunk == before + SEPARATOR + middle + END + tail
    requires !Contains(pre, START) && !Contains(hunk, START) && PlainSides(before, middle)
    ensures InteractiveResolve(pre + START + hunk, []) == InputExhausted
  {
    OneHunkRun(pre, before, middle, tail, hunk);
  }

  /** The answer that makes the interactive resolver do what the automatic one does with a hunk. */
  function AutoChoice(current: string, incoming: string): (choice: string)
    ensures choice != "4" && ChoiceText(choice, current, incoming) == HunkText(current, incoming)
  {
    if current == "" then "2" else if incoming == "" then "1" else "3"
  }

  /** The answers to give, one per conflict section from index `i` on, to follow the automatic resolver. */
  function AutoAnswers(sections: seq<string>, i: nat): (answers: seq<string>)
    requires i <= |sections|
    ensures |answers| == Conflicts(sections, i)
    decreases |sections| - i
  {
    if i == |sections| then []
    else if IsConflictSection(sections[i]) then
      [AutoChoice(CurrentSide(sections[i]), IncomingSide(sections[i]))] + AutoAnswers(sections, i + 1)
    else AutoAnswers(sections, i + 1)
  }

  /** Given the automatic resolver's answers, the interactive loop produces what it does. */
  lemma {:induction false} RunFollowsAuto(sections: seq<string>, i: nat, inputs: seq<string>, pos: nat)
    requires i <= |sections| && pos <= |inputs| && inputs[pos..] == AutoAnswers(sections, i)
    ensures Run(sections, i, inputs, pos) == Finished(ResolvedText(sections[i..]), |inputs|)
    decreases |sections| - i
  {
    if i == |sections| {
      assert sections[i..] == [];
    } else {
      var section := sections[i];
      assert sections[i..][1..] == sections[i + 1..];
      if IsConflictSection(section) {
        assert inputs[pos] == inputs[pos..][0];
        assert inputs[pos + 1..] == inputs[pos..][1..];
        RunFollowsAuto(sections, i + 1, inputs, pos + 1);
        RunChoice(sections, i, inputs, pos);
      } else {
        RunFollowsAuto(sections, i + 1, inputs, pos);
        RunPlain(sections, i, inputs, pos);
      }
    }
  }

  /**
   * The automatic resolver is the interactive one answered by `AutoChoice` at every prompt,
   * whenever the text before the first start marker is not a conflict section itself.
   */
  lemma AutoIsInteractive(content: string)
    requires !IsConflictSection(SplitOn(content, START)[0])
    ensures var sections := SplitOn(content, START);
      InteractiveResolve(content, AutoAnswers(sections, 1)) == Finished(AutoResolved(content), Conflicts(sections, 1))
  {
    var sections := SplitOn(content, START);
    var answers := AutoAnswers(sections, 1);
    assert answers[0..] == answers;
    RunFollowsAuto(sections, 1, answers, 0);
  }
}
