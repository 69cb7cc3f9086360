/** The Tab / Shift+Tab handling of the Mermaid source editor: what the
    key handler computes from the current text and the textarea's
    selection. Each branch is a pure function returning the text it passes
    to `onChange` together with the selection it restores afterwards. */
module Indentation {
  import opened Wrappers
  import opened JsStrings

  /** `indentChar`: one level of indentation is two spaces. */
  const Indent: string := "  "
  const Newline: char := '\n'

  function Max(a: int, b: int): int { if a < b then b else a }

  // ---------------------------------------------------------------------
  // Lines

  function IndentLine(line: string): string { Indent + line }

  /** Strips one leading indent when the line starts with one. */
  function UnindentLine(line: string): string {
    if StartsWith(line, Indent) then SubstringFrom(line, |Indent|) else line
  }

  function IndentAll(lines: seq<string>): (r: seq<string>)
    ensures |r| == |lines|
    ensures forall i :: 0 <= i < |lines| ==> r[i] == IndentLine(lines[i])
  {
    seq(|lines|, i requires 0 <= i < |lines| => IndentLine(lines[i]))
  }

  function UnindentAll(lines: seq<string>): (r: seq<string>)
    ensures |r| == |lines|
    ensures forall i :: 0 <= i < |lines| ==> r[i] == UnindentLine(lines[i])
  {
    seq(|lines|, i requires 0 <= i < |lines| => UnindentLine(lines[i]))
  }

  /** `text.split("\n").map(line => indentChar + line).join("\n")`. */
  function IndentBlock(text: string): string {
    Join(IndentAll(Split(text, Newline)), Newline)
  }

  /** `text.split("\n").map(unindent).join("\n")`. */
  function UnindentBlock(text: string): string {
    Join(UnindentAll(Split(text, Newline)), Newline)
  }

  /** Removing an indent from a line that was just indented gives the line back. */
  lemma UnindentIndentLine(line: string)
    ensures UnindentLine(IndentLine(line)) == line
  {
  }

  /** An unindented line starts two characters later exactly when the line
      started with an indent, and is otherwise the same line. */
  lemma UnindentLineShape(line: string)
    ensures StartsWith(line, Indent) ==> line == Indent + UnindentLine(line)
    ensures !StartsWith(line, Indent) ==> UnindentLine(line) == line
  {
  }

  lemma IndentAllFreeOf(lines: seq<string>)
    requires FreeOf(lines, Newline)
    ensures FreeOf(IndentAll(lines), Newline)
  {
  }

  lemma UnindentAllFreeOf(lines: seq<string>)
    requires FreeOf(lines, Newline)
    ensures FreeOf(UnindentAll(lines), Newline)
  {
  }

  /** Indenting a block maps its lines one to one: the block has as many
      lines as before and line `i` is the old line `i` behind one indent. */
  lemma IndentBlockLines(text: string)
    ensures Split(IndentBlock(text), Newline) == IndentAll(Split(text, Newline))
    ensures |Split(IndentBlock(text), Newline)| == |Split(text, Newline)|
    ensures Count(IndentBlock(text), Newline) == Count(text, Newline)
  {
    IndentAllFreeOf(Split(text, Newline));
    SplitJoin(IndentAll(Split(text, Newline)), Newline);
  }

  /** Unindenting a block maps its lines one to one: the block has as many
      lines as before and line `i` is the old line `i` with one leading
      indent removed when it had one, and unchanged when it had none. */
  lemma UnindentBlockLines(text: string)
    ensures Split(UnindentBlock(text), Newline) == UnindentAll(Split(text, Newline))
    ensures |Split(UnindentBlock(text), Newline)| == |Split(text, Newline)|
    ensures Count(UnindentBlock(text), Newline) == Count(text, Newline)
  {
    UnindentAllFreeOf(Split(text, Newline));
    SplitJoin(UnindentAll(Split(text, Newline)), Newline);
  }

  /** Unindenting an indented block gives the block back. */
  lemma UnindentIndentBlock(text: string)
    ensures UnindentBlock(IndentBlock(text)) == text
  {
    var lines := Split(text, Newline);
    IndentBlockLines(text);
    assert UnindentAll(IndentAll(lines)) == lines by {
      forall i | 0 <= i < |lines| ensures UnindentAll(IndentAll(lines))[i] == lines[i] {
        UnindentIndentLine(lines[i]);
      }
    }
    JoinSplit(text, Newline);
  }

  lemma {:induction false} JoinIndentAllLength(lines: seq<string>)
    ensures |Join(IndentAll(lines), Newline)| == |Join(lines, Newline)| + |Indent| * |lines|
    decreases |lines|
  {
    if |lines| > 1 {
      JoinIndentAllLength(lines[1..]);
      assert IndentAll(lines)[1..] == IndentAll(lines[1..]);
    }
  }

  /** Indenting a block adds exactly one indent per line. */
  lemma IndentBlockLength(text: string)
    ensures |IndentBlock(text)| == |text| + |Indent| * |Split(text, Newline)|
  {
    JoinIndentAllLength(Split(text, Newline));
    JoinSplit(text, Newline);
  }

  // ---------------------------------------------------------------------
  // Where the current line starts

  /** `code.substring(0, start).lastIndexOf("\n") + 1`, the line start used
      by both selection branches. */
  function SelectionLineStart(code: string, start: nat): int {
    var before := Substring(code, 0, start);
    LastIndexOf(before, Newline, |before|) + 1
  }

  /** `code.lastIndexOf("\n", start - 1) + 1`, the line start used when
      Shift+Tab is pressed with no selection. */
  function CursorLineStart(code: string, start: nat): int {
    LastIndexOf(code, Newline, start - 1) + 1
  }

  /** The selection line start is the index just after the last newline
      before `start`, or 0 when there is none; so it is at most `start`
      and the text between it and `start` holds no newline. */
  lemma LineStartFacts(code: string, start: nat)
    requires start <= |code|
    ensures var ls := SelectionLineStart(code, start);
      && 0 <= ls <= start
      && (ls == 0 || code[ls - 1] == Newline)
      && Newline !in code[ls..start]
  {
  }

  /** The cursor line start agrees with the selection line start except in
      one case: at the very start of a text whose first character is a
      newline, the clamped search finds that newline and the line start
      comes out as 1, past the cursor. */
  lemma CursorLineStartFacts(code: string, start: nat)
    requires start <= |code|
    ensures CursorLineStart(code, start) ==
      if start == 0 && |code| > 0 && code[0] == Newline then 1
      else SelectionLineStart(code, start)
  {
  }

  // ---------------------------------------------------------------------
  // The four text edits

  /** What one `onChange` call passes on, together with the selection its
      deferred callback restores. */
  datatype Edit = Edit(code: string, selectionStart: int, selectionEnd: int)

  /** Tab with no selection: insert one indent at the cursor. */
  function IndentAtCursor(code: string, start: nat): Edit {
    Edit(Substring(code, 0, start) + Indent + SubstringFrom(code, start),
         start + |Indent|, start + |Indent|)
  }

  /** `selectedLines`: from the start of the first selected line to the end
      of the selection. */
  function SelectedLines(code: string, start: nat, end: nat): string {
    var before := Substring(code, 0, start);
    SubstringFrom(before, SelectionLineStart(code, start)) + Substring(code, start, end)
  }

  /** Tab with a selection: indent every line the selection touches. */
  function IndentSelection(code: string, start: nat, end: nat): Edit {
    var lineStart := SelectionLineStart(code, start);
    Edit(Substring(code, 0, lineStart) + IndentBlock(SelectedLines(code, start, end))
           + SubstringFrom(code, end),
         start + |Indent|, end + |Indent|)
  }

  /** Shift+Tab with a selection: strip one indent from every line the
      selection touches that starts with one. */
  function UnindentSelection(code: string, start: nat, end: nat): Edit {
    var lineStart := SelectionLineStart(code, start);
    Edit(Substring(code, 0, lineStart) + UnindentBlock(SelectedLines(code, start, end))
           + SubstringFrom(code, end),
         Max(start - |Indent|, lineStart), end - |Indent|)
  }

  /** Shift+Tab with no selection: delete the indent just before the cursor
      when the text of the line before the cursor ends with one; otherwise
      nothing is emitted. */
  function UnindentAtCursor(code: string, start: nat): Option<Edit> {
    var lineStart := CursorLineStart(code, start);
    var lineBeforeCursor := Substring(code, lineStart, start);
    if EndsWith(lineBeforeCursor, Indent) then
      Some(Edit(Substring(code, 0, start - |Indent|) + SubstringFrom(code, start),
                start - |Indent|, start - |Indent|))
    else None
  }

  /** Tab at the cursor inserts exactly one indent there: the text grows by
      two characters and the cursor lands just after the indent. */
  lemma IndentAtCursorSpec(code: string, start: nat)
    requires start <= |code|
    ensures IndentAtCursor(code, start).code == code[..start] + Indent + code[start..]
    ensures |IndentAtCursor(code, start).code| == |code| + 2
    ensures IndentAtCursor(code, start).selectionStart == start + 2
    ensures IndentAtCursor(code, start).selectionEnd == start + 2
  {
  }

  /** The selected lines are the text from the line start to the end of
      the selection. */
  lemma SelectedLinesSpec(code: string, start: nat, end: nat)
    requires start <= end <= |code|
    ensures SelectedLines(code, start, end) == code[SelectionLineStart(code, start)..end]
  {
  }

  /** Tab over a selection keeps the text before the line start and the
      text after the selection, and indents every line in between by
      exactly one indent, keeping the number of lines; the restored
      selection is shifted right by two. */
  lemma IndentSelectionSpec(code: string, start: nat, end: nat)
    requires start <= end <= |code|
    ensures var ls := SelectionLineStart(code, start);
      var e := IndentSelection(code, start, end);
      var block := code[ls..end];
      && 0 <= ls <= start
      && e.code == code[..ls] + IndentBlock(block) + code[end..]
      && e.code[..ls] == code[..ls]
      && |e.code| == |code| + |Indent| * |Split(block, Newline)|
      && e.code[|e.code| - (|code| - end)..] == code[end..]
      && Split(e.code[ls..|e.code| - (|code| - end)], Newline) == IndentAll(Split(block, Newline))
      && e.selectionStart == start + 2 && e.selectionEnd == end + 2
  {
    LineStartFacts(code, start);
    SelectedLinesSpec(code, start, end);
    var ls := SelectionLineStart(code, start);
    var block := code[ls..end];
    var e := IndentSelection(code, start, end);
    var ib := IndentBlock(block);
    assert e.code == code[..ls] + ib + code[end..];
    IndentBlockLength(block);
    IndentBlockLines(block);
    assert e.code[ls..|e.code| - (|code| - end)] == ib;
  }

  /** Shift+Tab over a selection keeps the text before the line start and
      the text after the selection, and strips one indent from exactly the
      lines in between that start with one, keeping the number of lines;
      the restored selection starts two earlier but not before the line
      start, and ends two earlier. */
  lemma UnindentSelectionSpec(code: string, start: nat, end: nat)
    requires start <= end <= |code|
    ensures var ls := SelectionLineStart(code, start);
      var e := UnindentSelection(code, start, end);
      var block := code[ls..end];
      && 0 <= ls <= start
      && e.code == code[..ls] + UnindentBlock(block) + code[end..]
      && e.code[..ls] == code[..ls]
      && |e.code| <= |code|
      && e.code[|e.code| - (|code| - end)..] == code[end..]
      && Split(e.code[ls..|e.code| - (|code| - end)], Newline) == UnindentAll(Split(block, Newline))
      && e.selectionStart == Max(start - 2, ls) && e.selectionEnd == end - 2
  {
    LineStartFacts(code, start);
    SelectedLinesSpec(code, start, end);
    var ls := SelectionLineStart(code, start);
    var block := code[ls..end];
    var e := UnindentSelection(code, start, end);
    var ub := UnindentBlock(block);
    assert e.code == code[..ls] + ub + code[end..];
    UnindentBlockLines(block);
    UnindentBlockShorter(block);
    assert e.code[ls..|e.code| - (|code| - end)] == ub;
  }

  lemma {:induction false} JoinUnindentAllLength(lines: seq<string>)
    ensures |Join(UnindentAll(lines), Newline)| <= |Join(lines, Newline)|
    decreases |lines|
  {
    if |lines| > 0 {
      UnindentLineShape(lines[0]);
    }
    if |lines| > 1 {
      JoinUnindentAllLength(lines[1..]);
      assert UnindentAll(lines)[1..] == UnindentAll(lines[1..]);
    }
  }

  /** Unindenting never lengthens a block. */
  lemma UnindentBlockShorter(text: string)
    ensures |UnindentBlock(text)| <= |text|
  {
    JoinUnindentAllLength(Split(text, Newline));
    JoinSplit(text, Newline);
  }

  /** Shift+Tab at the cursor changes the text exactly when the two
      characters before the cursor are an indent; it then deletes those two
      characters and moves the cursor back by two. */
  lemma UnindentAtCursorSpec(code: string, start: nat)
    requires start <= |code|
    ensures UnindentAtCursor(code, start).Some? <==> 2 <= start && code[start - 2..start] == Indent
    ensures UnindentAtCursor(code, start).Some? ==>
      && UnindentAtCursor(code, start).value.code == code[..start - 2] + code[start..]
      && |UnindentAtCursor(code, start).value.code| == |code| - 2
      && UnindentAtCursor(code, start).value.selectionStart == start - 2
      && UnindentAtCursor(code, start).value.selectionEnd == start - 2
  {
  }

  /** Shift+Tab at the cursor undoes Tab at the cursor. */
  lemma UnindentAtCursorUndoesIndent(code: string, start: nat)
    requires start <= |code|
    ensures UnindentAtCursor(IndentAtCursor(code, start).code, start + 2) == Some(Edit(code, start, start))
  {
    var c := IndentAtCursor(code, start).code;
    IndentAtCursorSpec(code, start);
    assert c[start..start + 2] == Indent;
    UnindentAtCursorSpec(c, start + 2);
    assert c[..start] == code[..start];
    assert c[start + 2..] == code[start..];
    assert code[..start] + code[start..] == code;
  }

  // ---------------------------------------------------------------------
  // The key handler

  datatype KeyEvent = KeyEvent(key: string, shiftKey: bool)

  /** What the handler does with one key press: whether it prevents the
      textarea's own handling, and the `onChange` calls it makes, in order,
      each with the selection its deferred callback restores. */
  datatype Reaction = Reaction(defaultPrevented: bool, changes: seq<Edit>)

  /** `handleKeyDown` as written: the Tab block runs for every Tab press,
      Shift+Tab included, and the Shift+Tab block runs after it, computing
      from the same original text. */
  function HandleKeyDown(event: KeyEvent, code: string, start: nat, end: nat): Reaction {
    var isTab := event.key == "Tab";
    var indent :=
      if !isTab then []
      else if start != end then [IndentSelection(code, start, end)]
      else [IndentAtCursor(code, start)];
    var unindent :=
      if !(isTab && event.shiftKey) then []
      else if start != end then [UnindentSelection(code, start, end)]
      else match UnindentAtCursor(code, start)
        case Some(e) => [e]
        case None => [];
    Reaction(isTab, indent + unindent)
  }

  /** The text and selection the editor is left with: the parent keeps the
      last value passed to `onChange`, and the deferred selection writes run
      in the order they were scheduled, so the last change wins. */
  function Resulting(code: string, start: nat, end: nat, r: Reaction): Edit {
    if r.changes == [] then Edit(code, start, end) else r.changes[|r.changes| - 1]
  }

  /** Keys other than Tab are left to the textarea: nothing is emitted. */
  lemma OtherKeysIgnored(event: KeyEvent, code: string, start: nat, end: nat)
    requires event.key != "Tab"
    ensures HandleKeyDown(event, code, start, end) == Reaction(false, [])
  {
  }

  /** Tab without Shift emits exactly one change: the indent. */
  lemma TabIndents(code: string, start: nat, end: nat)
    ensures var r := HandleKeyDown(KeyEvent("Tab", false), code, start, end);
      && r.defaultPrevented
      && r.changes == [if start != end then IndentSelection(code, start, end) else IndentAtCursor(code, start)]
  {
  }

  /** Shift+Tab first emits the indent of the original text, then, when an
      unindent applies, the unindent of the same original text, which is
      what the editor is left with. */
  lemma ShiftTabEmitsIndentThenUnindent(code: string, start: nat, end: nat)
    ensures var r := HandleKeyDown(KeyEvent("Tab", true), code, start, end);
      && r.defaultPrevented
      && (start != end ==>
            r.changes == [IndentSelection(code, start, end), UnindentSelection(code, start, end)]
            && Resulting(code, start, end, r) == UnindentSelection(code, start, end))
      && (start == end && UnindentAtCursor(code, start).Some? ==>
            r.changes == [IndentAtCursor(code, start), UnindentAtCursor(code, start).value]
            && Resulting(code, start, end, r) == UnindentAtCursor(code, start).value)
      && (start == end && UnindentAtCursor(code, start).None? ==>
            r.changes == [IndentAtCursor(code, start)])
  {
  }

  // ---------------------------------------------------------------------
  // Where the handler as written departs from what it evidently intends

  /** As written, Shift+Tab at a cursor with no indent before it leaves the
      text indented: the Tab block has already emitted the indent and the
      Shift+Tab block emits nothing after it. */
  lemma ShiftTabInsertsIndent(code: string, start: nat)
    requires start <= |code|
    requires !(2 <= start && code[start - 2..start] == Indent)
    ensures var e := Resulting(code, start, start, HandleKeyDown(KeyEvent("Tab", true), code, start, start));
      && e.code == code[..start] + Indent + code[start..]
      && |e.code| == |code| + 2
  {
  }

  /** The smallest case: Shift+Tab at the end of "a" gives "a  ". */
  lemma ShiftTabInsertsIndentExample()
    ensures Resulting("a", 1, 1, HandleKeyDown(KeyEvent("Tab", true), "a", 1, 1)).code == "a  "
  {
  }

  /** As written, the selection restored after indenting ends only two
      characters later although every selected line grew by two: indenting
      "a\nb" whole leaves the second line's text outside the selection. */
  lemma IndentSelectionEndLags()
    ensures var e := IndentSelection("a\nb", 0, 3);
      && e.code == "  a\n  b"
      && e.selectionEnd == 5
      && e.code[e.selectionEnd..] != "a\nb"[3..]
  {
    var code := "a\nb";
    assert Join(["a", "b"], Newline) == code;
    SplitJoin(["a", "b"], Newline);
    var indented := IndentAll(["a", "b"]);
    assert indented[0] == "  a" && indented[1] == "  b";
    assert indented == ["  a", "  b"];
    assert Join(indented, Newline) == "  a\n  b";
    assert IndentBlock(code) == "  a\n  b";
    assert SelectionLineStart(code, 0) == 0;
    assert SelectedLines(code, 0, 3) == code;
  }

  /** As written, the selection restored after unindenting moves two
      characters left even when no line lost an indent: selecting the "b"
      of "ab" and pressing Shift+Tab leaves the text alone but collapses the
      selection to the start of the line. */
  lemma UnindentSelectionMovesUnchangedSelection()
    ensures var e := UnindentSelection("ab", 1, 2);
      && e.code == "ab"
      && e.selectionStart == 0 && e.selectionEnd == 0
  {
    var code := "ab";
    UnindentSelectionSpec(code, 1, 2);
    assert SelectionLineStart(code, 1) == 0;
    assert Join(["ab"], Newline) == code;
    SplitJoin(["ab"], Newline);
    assert !StartsWith("ab", Indent);
    var unindented := UnindentAll(["ab"]);
    assert unindented[0] == "ab";
    assert unindented == ["ab"];
    assert code[0..2] == code;
  }

  /** Tab over a selection with the restored end moved by one indent per
      selected line, so that it stays in front of the same text. */
  function IndentSelectionFixed(code: string, start: nat, end: nat): Edit {
    var lines := SelectedLines(code, start, end);
    IndentSelection(code, start, end).(selectionEnd := end + |Indent| * |Split(lines, Newline)|)
  }

  /** Shift+Tab over a selection with the restored start moved only when
      the first line lost an indent, and the restored end moved by what the
      block lost, so that both stay on the same text. */
  function UnindentSelectionFixed(code: string, start: nat, end: nat): Edit {
    var lineStart := SelectionLineStart(code, start);
    var lines := SelectedLines(code, start, end);
    var firstIndented := StartsWith(Split(lines, Newline)[0], Indent);
    UnindentSelection(code, start, end).(
      selectionStart := if firstIndented then Max(start - |Indent|, lineStart) else start,
      selectionEnd := end - (|lines| - |UnindentBlock(lines)|))
  }

  /** The handler with Shift+Tab running only the unindent, and with the
      restored selections that follow the text. */
  function HandleKeyDownFixed(event: KeyEvent, code: string, start: nat, end: nat): Reaction {
    var changes :=
      if event.key != "Tab" then []
      else if !event.shiftKey then
        [if start != end then IndentSelectionFixed(code, start, end) else IndentAtCursor(code, start)]
      else if start != end then [UnindentSelectionFixed(code, start, end)]
      else match UnindentAtCursor(code, start)
        case Some(e) => [e]
        case None => [];
    Reaction(event.key == "Tab", changes)
  }

  /** Indenting a block that begins with newline-free text `p` begins with
      one indent followed by `p`. */
  lemma IndentBlockHead(p: string, t: string)
    requires Newline !in p
    ensures |IndentBlock(p + t)| >= |Indent| + |p|
    ensures IndentBlock(p + t)[..|Indent| + |p|] == Indent + p
  {
    SplitPrefix(p, t, Newline);
    var lines := Split(p + t, Newline);
    var first := IndentAll(lines)[0];
    assert first == Indent + (p + Split(t, Newline)[0]);
    JoinHead(IndentAll(lines), Newline);
    assert first[..|Indent| + |p|] == Indent + p;
  }

  /** Unindenting a block that begins with newline-free text `p` begins
      with `p` when the first line has no indent, and with `p` less its
      first two characters when it has one. */
  lemma UnindentBlockHead(p: string, t: string)
    requires Newline !in p
    ensures var first := Split(p + t, Newline)[0];
      && first == p + Split(t, Newline)[0]
      && (!StartsWith(first, Indent) ==>
            |UnindentBlock(p + t)| >= |p| && UnindentBlock(p + t)[..|p|] == p)
      && (StartsWith(first, Indent) && |Indent| <= |p| ==>
            |UnindentBlock(p + t)| >= |p| - |Indent|
            && UnindentBlock(p + t)[..|p| - |Indent|] == p[|Indent|..])
  {
    SplitPrefix(p, t, Newline);
    var lines := Split(p + t, Newline);
    var first := lines[0];
    var u := UnindentAll(lines)[0];
    JoinHead(UnindentAll(lines), Newline);
    UnindentLineShape(first);
    if StartsWith(first, Indent) && |Indent| <= |p| {
      assert first == Indent + u;
      assert u[..|p| - |Indent|] == first[|Indent|..|p|] == p[|Indent|..];
    } else if !StartsWith(first, Indent) {
      assert u[..|p|] == p;
    }
  }

  /** With the correction, the selection restored after Tab starts on the
      character it started on and ends in front of the text that followed
      the selection. */
  lemma IndentSelectionFixedFollowsText(code: string, start: nat, end: nat)
    requires start <= end <= |code|
    ensures var ls := SelectionLineStart(code, start);
      var e := IndentSelectionFixed(code, start, end);
      && e.selectionStart <= e.selectionEnd <= |e.code|
      && e.code[..e.selectionStart] == code[..ls] + Indent + code[ls..start]
      && e.code[e.selectionEnd..] == code[end..]
  {
    LineStartFacts(code, start);
    var ls := SelectionLineStart(code, start);
    var block := code[ls..end];
    SliceSplit(code, ls, start, end);
    IndentBlockHead(code[ls..start], code[start..end]);
    IndentSelectionFixedShape(code, start, end);
    IndentedSelection(code, ls, start, end, IndentBlock(block), IndentSelectionFixed(code, start, end));
  }

  /** The corrected indent emits the same text as the handler as written;
      its start is two past the old start and its end sits where the
      indented block ends. */
  lemma IndentSelectionFixedShape(code: string, start: nat, end: nat)
    requires start <= end <= |code|
    ensures var ls := SelectionLineStart(code, start);
      var block := code[ls..end];
      var e := IndentSelectionFixed(code, start, end);
      && 0 <= ls <= start
      && e.code == code[..ls] + IndentBlock(block) + code[end..]
      && e.selectionStart == start + |Indent|
      && e.selectionEnd == ls + |IndentBlock(block)|
  {
    LineStartFacts(code, start);
    SelectedLinesSpec(code, start, end);
    IndentBlockLength(code[SelectionLineStart(code, start)..end]);
  }

  /** The selection facts above, over the pieces of the splice alone. */
  lemma IndentedSelection(code: string, ls: nat, start: nat, end: nat, ib: string, e: Edit)
    requires ls <= start <= end <= |code|
    requires e.code == code[..ls] + ib + code[end..]
    requires e.selectionStart == start + |Indent| && e.selectionEnd == ls + |ib|
    requires |ib| >= |Indent| + (start - ls) && ib[..|Indent| + (start - ls)] == Indent + code[ls..start]
    ensures e.selectionStart <= e.selectionEnd <= |e.code|
    ensures e.code[..e.selectionStart] == code[..ls] + Indent + code[ls..start]
    ensures e.code[e.selectionEnd..] == code[end..]
  {
  }

  /** The corrected unindent emits the same text as the handler as
      written; its end sits where the unindented block ends, and its start
      moves only when the first line lost an indent. */
  lemma UnindentSelectionFixedShape(code: string, start: nat, end: nat)
    requires start <= end <= |code|
    ensures var ls := SelectionLineStart(code, start);
      var block := code[ls..end];
      var e := UnindentSelectionFixed(code, start, end);
      && 0 <= ls <= start
      && e.code == code[..ls] + UnindentBlock(block) + code[end..]
      && e.selectionEnd == ls + |UnindentBlock(block)|
      && e.selectionStart ==
           if StartsWith(Split(block, Newline)[0], Indent) then Max(start - |Indent|, ls) else start
  {
    LineStartFacts(code, start);
    SelectedLinesSpec(code, start, end);
  }

  /** With the correction, the selection restored after Shift+Tab keeps its
      start in front of the same text (less the indent removed from the
      first line) and its end in front of the text that followed the
      selection. */
  lemma UnindentSelectionFixedFollowsText(code: string, start: nat, end: nat)
    requires start <= end <= |code|
    ensures var ls := SelectionLineStart(code, start);
      var e := UnindentSelectionFixed(code, start, end);
      var firstIndented := StartsWith(Split(code[ls..end], Newline)[0], Indent);
      && ls <= e.selectionStart <= e.selectionEnd <= |e.code|
      && e.code[e.selectionEnd..] == code[end..]
      && (!firstIndented ==> e.selectionStart == start && e.code[..start] == code[..start])
      && (firstIndented && ls + |Indent| <= start ==>
            e.selectionStart == start - |Indent|
            && e.code[..e.selectionStart] == code[..ls] + code[ls + |Indent|..start])
      && (firstIndented && start < ls + |Indent| ==> e.selectionStart == ls)
  {
    LineStartFacts(code, start);
    var ls := SelectionLineStart(code, start);
    var block := code[ls..end];
    var p := code[ls..start];
    SliceSplit(code, ls, start, end);
    UnindentBlockHead(p, code[start..end]);
    UnindentSelectionFixedShape(code, start, end);
    var ub := UnindentBlock(block);
    var first := Split(block, Newline)[0];
    UnindentedSelection(code, ls, start, end, ub, UnindentSelectionFixed(code, start, end),
                        StartsWith(first, Indent));
  }

  /** The selection facts above, over the pieces of the splice alone. */
  lemma UnindentedSelection(code: string, ls: nat, start: nat, end: nat, ub: string, e: Edit,
                            firstIndented: bool)
    requires ls <= start <= end <= |code|
    requires e.code == code[..ls] + ub + code[end..]
    requires e.selectionEnd == ls + |ub|
    requires e.selectionStart == if firstIndented then Max(start - |Indent|, ls) else start
    requires !firstIndented ==> |ub| >= start - ls && ub[..start - ls] == code[ls..start]
    requires firstIndented && |Indent| <= start - ls ==>
               |ub| >= start - ls - |Indent| && ub[..start - ls - |Indent|] == code[ls + |Indent|..start]
    ensures ls <= e.selectionStart <= e.selectionEnd <= |e.code|
    ensures e.code[e.selectionEnd..] == code[end..]
    ensures !firstIndented ==> e.selectionStart == start && e.code[..start] == code[..start]
    ensures firstIndented && ls + |Indent| <= start ==>
              e.selectionStart == start - |Indent|
              && e.code[..e.selectionStart] == code[..ls] + code[ls + |Indent|..start]
    ensures firstIndented && start < ls + |Indent| ==> e.selectionStart == ls
  {
  }

  /** A slice is the slice up to an inner index followed by the rest. */
  lemma SliceSplit(s: string, i: nat, j: nat, k: nat)
    requires i <= j <= k <= |s|
    ensures s[i..k] == s[i..j] + s[j..k]
  {
  }

  /** With the correction, Shift+Tab emits at most one change, never
      lengthens the text, and emits nothing at a cursor with no indent
      before it. */
  lemma FixedShiftTabNeverIndents(code: string, start: nat, end: nat)
    requires start <= end <= |code|
    ensures var r := HandleKeyDownFixed(KeyEvent("Tab", true), code, start, end);
      && r.defaultPrevented
      && |r.changes| <= 1
      && (forall i :: 0 <= i < |r.changes| ==> |r.changes[i].code| <= |code|)
      && (start == end && !(2 <= start && code[start - 2..start] == Indent) ==> r.changes == [])
  {
    UnindentAtCursorSpec(code, start);
    UnindentSelectionSpec(code, start, end);
  }

  /** The correction changes nothing else: the text emitted for every key
      is the text the handler as written leaves in the editor, except for
      Shift+Tab at a cursor with no indent before it. */
  lemma FixedKeepsText(event: KeyEvent, code: string, start: nat, end: nat)
    requires !(event.key == "Tab" && event.shiftKey && start == end && UnindentAtCursor(code, start).None?)
    ensures Resulting(code, start, end, HandleKeyDownFixed(event, code, start, end)).code
         == Resulting(code, start, end, HandleKeyDown(event, code, start, end)).code
  {
  }
}
